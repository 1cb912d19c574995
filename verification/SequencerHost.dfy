/**
 What a host sends to the sequencer (app_layer_v1/sequencer.h): settings and cues as
 structures with fields, how they are laid out in bytes, and what the outputs are set
 to, told by the fields alone. The decoders of module Sequencer do exactly this.
 */
module SequencerHost {
  import opened Bytes
  import opened Sequencer

  type Four = x: nat | x < 16
  type Six = x: nat | x < 64

  datatype Clock = Clk16M | Clk2M | Clk250K | Clk62K5

  datatype Setting =
    | PwmPosition(oc: Four, clk: Clock, period: half, initial: half)
    | PwmSpeed(oc: Four, clk: Clock, period: half, initial: half)
    | FmSpeed(oc: Four, clk: Clock, pw: half)
    | StepsOn(oc: Four)
    | BinaryOn(pin: Six, init: bool, whenIdle: bool)
    | Unknown(kind: Four)

  function ClockCode(clk: Clock): (r: nat)
    ensures r < 4
  {
    match clk case Clk16M => 0 case Clk2M => 1 case Clk250K => 2 case Clk62K5 => 3
  }

  function Flag(b: bool): (r: nat)
    ensures r < 2
  {
    if b then 1 else 0
  }

  function Word(x: half): seq<byte> {
    [x % 0x100, x / 0x100]
  }

  /** The type, the output compare and the clock. */
  function Head(kind: nat, oc: Four, clk: Clock, spare: Four): seq<byte>
    requires kind < 16
  {
    [kind + 16 * spare, oc + 16 * ClockCode(clk) + 64 * (spare % 4)]
  }

  /** The bytes of a setting; the bits that have no meaning may be anything. */
  function SettingBytes(s: Setting, spare: Four): seq<byte> {
    match s
    case PwmPosition(oc, clk, period, initial) =>
      Head(0, oc, clk, spare) + Word(period) + Word(initial)
    case PwmSpeed(oc, clk, period, initial) =>
      Head(1, oc, clk, spare) + Word(period) + Word(initial)
    case FmSpeed(oc, clk, pw) =>
      Head(2, oc, clk, spare) + Word(pw)
    case StepsOn(oc) => [3 + 16 * spare, oc + 16 * spare]
    case BinaryOn(pin, init, whenIdle) => [4 + 16 * spare, pin + 64 * Flag(init) + 128 * Flag(whenIdle)]
    case Unknown(kind) => [kind + 16 * spare]
  }

  /** What the sequencer checks. */
  predicate Acceptable(board: Board, s: Setting) {
    match s
    case PwmPosition(oc, _, period, _) => oc < 9 && period != 0
    case PwmSpeed(oc, _, period, _) => oc < 9 && period != 0
    case FmSpeed(oc, _, pw) => oc < 9 && pw != 0
    case StepsOn(oc) => oc < 9
    case BinaryOn(pin, _, _) => pin <= |board.portBits|
    case Unknown(_) => false
  }

  predicate Known(s: Setting) {
    s.Unknown? ==> s.kind >= 5
  }

  /** The control word of an output compare for a clock, without the low three bits. */
  function ClockBits(clk: Clock): nat {
    match clk case Clk16M => 0x1C00 case Clk2M => 0x0400 case Clk250K => 0x0800 case Clk62K5 => 0x0C00
  }

  function ChannelOf(board: Board, s: Setting): Channel
    requires Acceptable(board, s)
  {
    match s
    case PwmPosition(oc, clk, period, _) => Pwm(oc, period, ClockBits(clk) + 6)
    case PwmSpeed(oc, clk, period, _) => Pwm(oc, period, ClockBits(clk) + 6)
    case FmSpeed(oc, clk, pw) => Fm(oc, pw, ClockBits(clk) + 6)
    case StepsOn(oc) => Steps(oc)
    case BinaryOn(pin, _, _) =>
      var (port, bit) := if pin < |board.portBits| then board.portBits[pin] else board.behind;
      Binary(port, bit)
  }

  /** The bytes that each cue has for a channel. */
  function CueLength(s: Setting): nat {
    match s
    case PwmPosition(_, _, _, _) => 2
    case PwmSpeed(_, _, _, _) => 2
    case FmSpeed(_, _, _) => 2
    case StepsOn(_) => 5
    case BinaryOn(_, _, _) => 1
    case Unknown(_) => 0
  }

  lemma WordRead(x: half)
    ensures |Word(x)| == 2 && Le16(Word(x)[0], Word(x)[1]) == x
  {
  }

  lemma SecondByte(oc: Four, clk: nat, spare: Four)
    requires clk < 4
    ensures var b := oc + 16 * clk + 64 * (spare % 4); b < 256 && b % 16 == oc && b / 16 % 4 == clk
  {
  }

  lemma FirstByte(kind: nat, spare: Four)
    requires kind < 16
    ensures (kind + 16 * spare) % 16 == kind
  {
  }

  lemma PinByte(pin: Six, init: bool, whenIdle: bool)
    ensures var b := pin + 64 * Flag(init) + 128 * Flag(whenIdle); b < 256 && b % 64 == pin
  {
  }

  lemma ClockConverted(clk: Clock)
    ensures ConvertClock(ClockCode(clk)) * 1024 == ClockBits(clk)
  {
  }

  /** Settings with a clock and a word; those for pulse widths have a second word. */
  lemma PulseRead(board: Board, kind: nat, oc: Four, clk: Clock, spare: Four, w: half, more: seq<byte>)
    requires board.Valid() && kind < 3
    ensures TranslateSettings(board, Head(kind, oc, clk, spare) + Word(w) + more) == Pulsed(kind, oc, clk, w, |more|)
  {
    HeadRead(kind, oc, clk, spare);
    WordRead(w);
    hide *;
    var head, word := Head(kind, oc, clk, spare), Word(w);
    var data := head + word + more;
    assert data[0] == head[0] && data[1] == head[1] && data[2] == word[0] && data[3] == word[1];
    PulseFields(board, data, kind, oc, clk, w);
  }

  function Pulsed(kind: nat, oc: Four, clk: Clock, w: half, more: nat): Option<Channel> {
    if oc >= 9 || w == 0 || (kind != 2 && more < 2) then None
    else if kind == 2 then Some(Fm(oc, w, ClockBits(clk) + 6)) else Some(Pwm(oc, w, ClockBits(clk) + 6))
  }

  lemma HeadRead(kind: nat, oc: Four, clk: Clock, spare: Four)
    requires kind < 16
    ensures var h := Head(kind, oc, clk, spare);
            |h| == 2 && h[0] % 16 == kind && h[1] % 16 == oc && h[1] / 16 % 4 == ClockCode(clk)
  {
    SecondByte(oc, ClockCode(clk), spare);
    FirstByte(kind, spare);
    hide ClockCode;
  }

  lemma PulseFields(board: Board, data: seq<byte>, kind: nat, oc: Four, clk: Clock, w: half)
    requires board.Valid() && kind < 3 && |data| >= 4 && data[0] % 16 == kind && data[1] % 16 == oc
    requires data[1] / 16 % 4 == ClockCode(clk) && Le16(data[2], data[3]) == w
    ensures TranslateSettings(board, data) == Pulsed(kind, oc, clk, w, |data| - 4)
  {
    ClockConverted(clk);
    hide ClockCode, ClockBits, ConvertClock, Le16;
  }

  lemma SmallRead(board: Board, b0: byte, b1: byte, more: seq<byte>)
    requires board.Valid()
    requires b0 % 16 == 3 || b0 % 16 == 4
    ensures TranslateSettings(board, [b0, b1] + more)
         == if b0 % 16 == 3 then (if b1 % 16 < 9 then Some(Steps(b1 % 16)) else None)
            else if b1 % 64 <= |board.portBits| then Some(ChannelOf(board, BinaryOn(b1 % 64, false, false))) else None
  {
  }

  lemma UnknownRead(board: Board, data: seq<byte>)
    requires board.Valid() && data != [] && data[0] % 16 >= 5
    ensures TranslateSettings(board, data) == None
  {
  }

  /** A complete setting at the head of the data is taken exactly if it is acceptable, whatever follows. */
  lemma SettingRead(board: Board, s: Setting, spare: Four, more: seq<byte>)
    requires board.Valid() && Known(s)
    ensures TranslateSettings(board, SettingBytes(s, spare) + more)
         == if Acceptable(board, s) then Some(ChannelOf(board, s)) else None
  {
    hide TranslateSettings, Head, Word, ClockBits;
    match s
    case PwmPosition(oc, clk, period, initial) =>
      PulseRead(board, 0, oc, clk, spare, period, Word(initial) + more);
      ConcatAssoc(Head(0, oc, clk, spare) + Word(period), Word(initial), more);
      WordRead(initial);
    case PwmSpeed(oc, clk, period, initial) =>
      PulseRead(board, 1, oc, clk, spare, period, Word(initial) + more);
      ConcatAssoc(Head(1, oc, clk, spare) + Word(period), Word(initial), more);
      WordRead(initial);
    case FmSpeed(oc, clk, pw) =>
      PulseRead(board, 2, oc, clk, spare, pw, more);
    case StepsOn(oc) =>
      FirstByte(3, spare);
      FirstByte(oc, spare);
      SmallRead(board, 3 + 16 * spare, oc + 16 * spare, more);
    case BinaryOn(pin, init, whenIdle) =>
      FirstByte(4, spare);
      PinByte(pin, init, whenIdle);
      SmallRead(board, 4 + 16 * spare, pin + 64 * Flag(init) + 128 * Flag(whenIdle), more);
    case Unknown(kind) =>
      FirstByte(kind, spare);
      UnknownRead(board, [kind + 16 * spare] + more);
  }

  lemma SettingLength(board: Board, s: Setting, spare: Four)
    requires Acceptable(board, s)
    ensures SettingsSize(ChannelOf(board, s)) == |SettingBytes(s, spare)| && CueSize(ChannelOf(board, s)) == CueLength(s)
  {
  }

  /** A setting that is cut short is refused. */
  lemma CutSetting(board: Board, s: Setting, spare: Four, n: nat)
    requires board.Valid() && Known(s) && 0 < n < |SettingBytes(s, spare)|
    ensures TranslateSettings(board, SettingBytes(s, spare)[..n]) == None
  {
    var data := SettingBytes(s, spare)[..n];
    match s
    case PwmPosition(_, _, _, _) => FirstByte(0, spare);
    case PwmSpeed(_, _, _, _) => FirstByte(1, spare);
    case FmSpeed(_, _, _) => FirstByte(2, spare);
    case StepsOn(_) => FirstByte(3, spare);
    case BinaryOn(_, _, _) => FirstByte(4, spare);
    case Unknown(_) =>
  }

  // ------------------------------------------------------------ whole settings

  datatype Sent = Sent(setting: Setting, spare: Four)

  function AllBytes(sent: seq<Sent>): seq<byte> {
    if sent == [] then [] else SettingBytes(sent[0].setting, sent[0].spare) + AllBytes(sent[1..])
  }

  predicate AllKnown(sent: seq<Sent>) {
    forall i :: 0 <= i < |sent| ==> Known(sent[i].setting)
  }

  predicate AllAcceptable(board: Board, sent: seq<Sent>) {
    forall i :: 0 <= i < |sent| ==> Acceptable(board, sent[i].setting)
  }

  function Channels(board: Board, sent: seq<Sent>): (r: seq<Channel>)
    requires AllAcceptable(board, sent)
    ensures |r| == |sent|
  {
    seq(|sent|, i requires 0 <= i < |sent| => ChannelOf(board, sent[i].setting))
  }

  function CueLengths(sent: seq<Sent>): nat {
    if sent == [] then 0 else CueLength(sent[0].setting) + CueLengths(sent[1..])
  }

  /** How many settings are taken: those before the first that is not acceptable, and 32 at most. */
  function Taken(board: Board, sent: seq<Sent>, room: nat): (n: nat)
    ensures n <= |sent| && n <= room && AllAcceptable(board, sent[..n])
    ensures n < |sent| && n < room ==> !Acceptable(board, sent[n].setting)
  {
    if sent == [] || room == 0 || !Acceptable(board, sent[0].setting) then 0
    else
      var n := 1 + Taken(board, sent[1..], room - 1);
      assert sent[..n] == [sent[0]] + sent[1..][..n - 1];
      n
  }

  /** The channels of the settings that are taken, behind those there were, and whether that was all. */
  function Result(board: Board, sent: seq<Sent>, c: Config): (Config, bool)
    requires |c.channels| <= 32
  {
    var n := Taken(board, sent, 32 - |c.channels|);
    (Config(c.channels + Channels(board, sent[..n]), c.expectedCueSize + CueLengths(sent[..n])), n == |sent|)
  }

  /**
   The settings that are taken become the channels, in their order, and the configuration
   succeeds exactly when all are taken and nothing is left behind them.
   */
  lemma SettingsConfigure(board: Board, sent: seq<Sent>)
    requires board.Valid() && AllKnown(sent)
    ensures Configure(board, AllBytes(sent)) == Result(board, sent, Config([], 0))
  {
    var n := Taken(board, sent, 32);
    ConfigureMore(board, sent, Config([], 0));
    assert [] + Channels(board, sent[..n]) == Channels(board, sent[..n]);
  }

  lemma {:induction false} ConfigureMore(board: Board, sent: seq<Sent>, c: Config)
    requires board.Valid() && AllKnown(sent) && |c.channels| <= 32
    ensures ConfigureFrom(board, AllBytes(sent), c) == Result(board, sent, c)
    decreases |sent|
  {
    if sent == [] || |c.channels| == 32 || !Acceptable(board, sent[0].setting) {
      hide Acceptable, SettingBytes, TranslateSettings;
      assert c.channels + [] == c.channels;
      if sent != [] { HeadRefused(board, sent, c); }
    } else {
      HeadTaken(board, sent, c);
      hide ConfigureFrom;
      ConfigureMore(board, sent[1..], With(board, c, sent[0].setting));
      ResultMore(board, sent, c);
    }
  }

  lemma ResultMore(board: Board, sent: seq<Sent>, c: Config)
    requires sent != [] && |c.channels| < 32 && Acceptable(board, sent[0].setting)
    ensures Result(board, sent, c) == Result(board, sent[1..], With(board, c, sent[0].setting))
  {
    hide Acceptable, ChannelOf, CueLength;
    var n := Taken(board, sent, 32 - |c.channels|);
    assert sent[..n][0] == sent[0] && sent[..n][1..] == sent[1..][..n - 1];
    var next := With(board, c, sent[0].setting);
    assert Channels(board, sent[..n]) == [ChannelOf(board, sent[0].setting)] + Channels(board, sent[1..][..n - 1]);
    assert next.channels + Channels(board, sent[1..][..n - 1]) == c.channels + Channels(board, sent[..n]);
  }

  lemma HeadTaken(board: Board, sent: seq<Sent>, c: Config)
    requires board.Valid() && sent != [] && Known(sent[0].setting) && Acceptable(board, sent[0].setting) && |c.channels| < 32
    ensures ConfigureFrom(board, AllBytes(sent), c) == ConfigureFrom(board, AllBytes(sent[1..]), With(board, c, sent[0].setting))
  {
    var s, more := sent[0], AllBytes(sent[1..]);
    assert AllBytes(sent) == SettingBytes(s.setting, s.spare) + more;
    hide *;
    SettingRead(board, s.setting, s.spare, more);
    SettingLength(board, s.setting, s.spare);
    SomeBytes(s.setting, s.spare);
    FirstTaken(board, SettingBytes(s.setting, s.spare), more, c, s.setting);
  }

  /** A configuration with one more setting. */
  function With(board: Board, c: Config, s: Setting): Config
    requires Acceptable(board, s)
  {
    Config(c.channels + [ChannelOf(board, s)], c.expectedCueSize + CueLength(s))
  }

  lemma SomeBytes(s: Setting, spare: Four)
    ensures SettingBytes(s, spare) != []
  {
  }

  lemma FirstTaken(board: Board, head: seq<byte>, more: seq<byte>, c: Config, s: Setting)
    requires board.Valid() && head != [] && |c.channels| < 32 && Acceptable(board, s)
    requires TranslateSettings(board, head + more) == Some(ChannelOf(board, s))
    requires SettingsSize(ChannelOf(board, s)) == |head| && CueSize(ChannelOf(board, s)) == CueLength(s)
    ensures ConfigureFrom(board, head + more, c) == ConfigureFrom(board, more, With(board, c, s))
  {
    hide TranslateSettings, Acceptable, ChannelOf, CueLength, SettingsSize, CueSize;
    assert (head + more)[|head|..] == more;
  }

  lemma HeadRefused(board: Board, sent: seq<Sent>, c: Config)
    requires board.Valid() && sent != [] && Known(sent[0].setting)
    requires |c.channels| == 32 || !Acceptable(board, sent[0].setting)
    ensures ConfigureFrom(board, AllBytes(sent), c) == (c, false)
  {
    var s := sent[0];
    SettingRead(board, s.setting, s.spare, AllBytes(sent[1..]));
    assert SettingBytes(s.setting, s.spare) != [];
    hide SettingBytes, TranslateSettings, Acceptable;
  }

  // --------------------------------------------------------------------- cues

  /** What a cue says to one channel. */
  datatype Part =
    | Pulse(pw: half)
    | Period(period: half)
    | StepPulse(clk: Clock, pw: half, period: half, spare: Six)
    | Level(value: bool, unused: nat)

  predicate Matches(s: Setting, p: Part) {
    match s
    case PwmPosition(_, _, _, _) => p.Pulse?
    case PwmSpeed(_, _, _, _) => p.Pulse?
    case FmSpeed(_, _, _) => p.Period?
    case StepsOn(_) => p.StepPulse?
    case BinaryOn(_, _, _) => p.Level? && p.unused < 128
    case Unknown(_) => false
  }

  function PartBytes(p: Part): seq<byte>
    requires p.Level? ==> p.unused < 128
  {
    match p
    case Pulse(pw) => Word(pw)
    case Period(period) => Word(period)
    case StepPulse(clk, pw, period, spare) => [ClockCode(clk) + 4 * spare] + Word(pw) + Word(period)
    case Level(value, unused) => [Flag(value) + 2 * unused]
  }

  predicate AllMatch(sent: seq<Sent>, parts: seq<Part>) {
    |parts| == |sent| && forall i :: 0 <= i < |sent| ==> Matches(sent[i].setting, parts[i])
  }

  /** The parts one after the other. */
  function CueData(sent: seq<Sent>, parts: seq<Part>): seq<byte>
    requires AllMatch(sent, parts)
  {
    if parts == [] then []
    else
      var n := |parts| - 1;
      CueData(sent[..n], parts[..n]) + PartBytes(parts[n])
  }

  /** The registers of an output compare for a setting and a cue. */
  function Registers(s: Setting, p: Part): OcCue
    requires Matches(s, p) && !s.BinaryOn?
  {
    match s
    case PwmPosition(_, clk, period, _) => OcCue(period, p.pw, ClockBits(clk) + 6, 0)
    case PwmSpeed(_, clk, period, _) => OcCue(period, p.pw, ClockBits(clk) + 6, 0)
    case FmSpeed(_, clk, pw) =>
      if p.period == 0 then OcCue(1, 0, ClockBits(clk) + 6, 0) else OcCue(p.period, pw, ClockBits(clk) + 6, 0)
    case StepsOn(_) =>
      if p.pw == 0 then OcCue(0, 0, 0, 0)
      else
        var start := p.period / 2;
        var end := (start + p.pw) % 0x1_0000;
        OcCue(end, start, ClockBits(p.clk) + 7, (p.period - end) % 0x1_0000)
  }

  lemma LowTwo(clk: Clock, spare: Six)
    ensures (ClockCode(clk) + 4 * spare) % 4 == ClockCode(clk)
  {
  }

  /** The bytes of a part set the registers as its fields say. */
  lemma PartRead(board: Board, s: Setting, p: Part)
    requires Acceptable(board, s) && Matches(s, p)
    ensures PartOk(board, s, p)
  {
    match s
    case PwmPosition(_, _, _, _) => WordRead(p.pw);
    case PwmSpeed(_, _, _, _) => WordRead(p.pw);
    case FmSpeed(_, _, _) => WordRead(p.period);
    case StepsOn(_) => StepsRead(s.oc, p);
    case BinaryOn(_, _, _) =>
  }

  predicate PartOk(board: Board, s: Setting, p: Part)
    requires Acceptable(board, s) && Matches(s, p)
  {
    var c := ChannelOf(board, s);
    && |PartBytes(p)| == CueSize(c)
    && (if s.BinaryOn? then c.Binary? && (PartBytes(p)[0] % 2 == 1 <==> p.value)
        else !c.Binary? && c.oc == s.oc && OcCueOf(c, PartBytes(p)) == Registers(s, p))
  }

  lemma StepsRead(oc: Four, p: Part)
    requires p.StepPulse?
    ensures OcCueOf(Steps(oc), PartBytes(p)) == Registers(StepsOn(oc), p)
  {
    StepBytes(p);
    var b := PartBytes(p);
    hide ClockCode, ClockBits, StepsCue, Le16, PartBytes, Registers;
    assert OcCueOf(Steps(oc), b) == StepsCue(b[0] % 4, Le16(b[1], b[2]), Le16(b[3], b[4]));
    hide *;
    StepsSet(oc, p);
  }

  lemma StepBytes(p: Part)
    requires p.StepPulse?
    ensures var b := PartBytes(p); |b| == 5 && b[0] % 4 == ClockCode(p.clk) && Le16(b[1], b[2]) == p.pw && Le16(b[3], b[4]) == p.period
  {
    LowTwo(p.clk, p.spare);
    WordRead(p.pw);
    WordRead(p.period);
    hide ClockCode, Le16;
  }

  lemma StepsSet(oc: Four, p: Part)
    requires p.StepPulse?
    ensures StepsCue(ClockCode(p.clk), p.pw, p.period) == Registers(StepsOn(oc), p)
  {
    ClockConverted(p.clk);
    hide ClockCode, ClockBits, ConvertClock;
  }

  lemma {:induction false} OffsetTake(channels: seq<Channel>, m: nat, n: nat)
    requires n <= m <= |channels|
    ensures Offset(channels[..m], n) == Offset(channels, n)
  {
    if n > 0 { OffsetTake(channels, m, n - 1); }
  }

  lemma {:induction false} PartLengths(board: Board, sent: seq<Sent>, parts: seq<Part>, n: nat)
    requires AllAcceptable(board, sent) && AllMatch(sent, parts) && n <= |sent|
    ensures |CueData(sent[..n], parts[..n])| == Offset(Channels(board, sent), n)
  {
    if n > 0 {
      PartLengths(board, sent, parts, n - 1);
      PartRead(board, sent[n - 1].setting, parts[n - 1]);
      assert sent[..n][..n - 1] == sent[..n - 1] && parts[..n][..n - 1] == parts[..n - 1];
    }
  }

  /** The bytes that a channel takes from the cue are those of its part. */
  lemma OwnPart(board: Board, sent: seq<Sent>, parts: seq<Part>, i: nat)
    requires AllAcceptable(board, sent) && AllMatch(sent, parts) && i < |sent| && AllValid(Channels(board, sent))
    ensures CueFits(Channels(board, sent), CueData(sent, parts))
    ensures Own(Channels(board, sent), CueData(sent, parts), i) == PartBytes(parts[i])
  {
    PartLengths(board, sent, parts, |sent|);
    assert sent[..|sent|] == sent && parts[..|sent|] == parts;
    PartInPlace(board, sent, parts, i);
    hide CueData, PartBytes, ChannelOf, CueSize, Matches, Acceptable;
  }

  /** The bytes from the channel's offset on are those of its part. */
  predicate InPlace(channels: seq<Channel>, data: seq<byte>, parts: seq<Part>, i: nat)
    requires |parts| == |channels| && i < |parts| && forall k :: 0 <= k < |parts| && parts[k].Level? ==> parts[k].unused < 128
  {
    var at, size := Offset(channels, i), CueSize(channels[i]);
    at + size <= |data| && data[at..at + size] == PartBytes(parts[i])
  }

  lemma {:induction false} PartInPlace(board: Board, sent: seq<Sent>, parts: seq<Part>, i: nat)
    requires AllAcceptable(board, sent) && AllMatch(sent, parts) && i < |sent|
    ensures InPlace(Channels(board, sent), CueData(sent, parts), parts, i)
    decreases |sent|
  {
    hide *;
    var m := |sent| - 1;
    if i < m {
      WithoutLast(board, sent, parts);
      PartInPlace(board, sent[..m], parts[..m], i);
      StaysInPlace(Channels(board, sent), CueData(sent[..m], parts[..m]), parts, i);
    } else {
      LastPartInPlace(board, sent, parts);
    }
  }

  lemma LastPartInPlace(board: Board, sent: seq<Sent>, parts: seq<Part>)
    requires AllAcceptable(board, sent) && AllMatch(sent, parts) && sent != []
    ensures InPlace(Channels(board, sent), CueData(sent, parts), parts, |sent| - 1)
  {
    hide *;
    WithoutLast(board, sent, parts);
    var m := |sent| - 1;
    PartLengths(board, sent, parts, m);
    PartLength(board, sent[m].setting, parts[m]);
    LastInPlace(Channels(board, sent), CueData(sent[..m], parts[..m]), parts);
  }

  lemma PartLength(board: Board, s: Setting, p: Part)
    requires Acceptable(board, s) && Matches(s, p)
    ensures |PartBytes(p)| == CueSize(ChannelOf(board, s))
  {
  }

  lemma WithoutLast(board: Board, sent: seq<Sent>, parts: seq<Part>)
    requires AllAcceptable(board, sent) && AllMatch(sent, parts) && sent != []
    ensures var m := |sent| - 1;
            && AllAcceptable(board, sent[..m]) && AllMatch(sent[..m], parts[..m]) && |parts| == |sent|
            && (forall k :: 0 <= k < |parts| && parts[k].Level? ==> parts[k].unused < 128)
            && Acceptable(board, sent[m].setting) && Matches(sent[m].setting, parts[m])
            && |Channels(board, sent)| == |sent| && Channels(board, sent)[..m] == Channels(board, sent[..m])
            && Channels(board, sent)[m] == ChannelOf(board, sent[m].setting)
            && CueData(sent, parts) == CueData(sent[..m], parts[..m]) + PartBytes(parts[m])
  {
    hide PartBytes, Acceptable, ChannelOf;
  }

  lemma StaysInPlace(channels: seq<Channel>, before: seq<byte>, parts: seq<Part>, i: nat)
    requires |parts| == |channels| && i + 1 < |parts| && forall k :: 0 <= k < |parts| && parts[k].Level? ==> parts[k].unused < 128
    requires InPlace(channels[..|parts| - 1], before, parts[..|parts| - 1], i)
    ensures InPlace(channels, before + PartBytes(parts[|parts| - 1]), parts, i)
  {
    hide PartBytes, CueSize, Offset;
    OffsetTake(channels, |parts| - 1, i);
    InFront(before, PartBytes(parts[|parts| - 1]), Offset(channels, i), Offset(channels, i) + CueSize(channels[i]));
  }

  lemma LastInPlace(channels: seq<Channel>, before: seq<byte>, parts: seq<Part>)
    requires |parts| == |channels| && |parts| > 0 && forall k :: 0 <= k < |parts| && parts[k].Level? ==> parts[k].unused < 128
    requires |before| == Offset(channels, |parts| - 1) && |PartBytes(parts[|parts| - 1])| == CueSize(channels[|parts| - 1])
    ensures InPlace(channels, before + PartBytes(parts[|parts| - 1]), parts, |parts| - 1)
  {
    hide PartBytes, CueSize, Offset;
    Behind(before, PartBytes(parts[|parts| - 1]));
  }

  lemma Behind(a: seq<byte>, b: seq<byte>)
    ensures (a + b)[|a|..|a| + |b|] == b
  {
  }

  lemma InFront(a: seq<byte>, b: seq<byte>, i: nat, j: nat)
    requires i <= j <= |a|
    ensures (a + b)[i..j] == a[i..j]
  {
  }

  /** The settings drive different outputs, and no pin behind the table is among them. */
  predicate Independent(board: Board, sent: seq<Sent>)
    requires AllAcceptable(board, sent)
  {
    && (forall i :: 0 <= i < |sent| && sent[i].setting.BinaryOn? ==> sent[i].setting.pin < |board.portBits|)
    && Distinct(Channels(board, sent))
  }

  /**
   A cue sets each output compare to the registers, and each pin to the level, that the
   fields of its setting and of its part of the cue ask for.
   */
  lemma CueSetsOutputs(board: Board, sent: seq<Sent>, parts: seq<Part>, i: nat)
    requires board.Valid() && AllAcceptable(board, sent) && AllMatch(sent, parts) && Independent(board, sent) && i < |sent|
    ensures CueFits(Channels(board, sent), CueData(sent, parts))
    ensures var cue, s, p := TranslateCue(Channels(board, sent), CueData(sent, parts)), sent[i].setting, parts[i];
            if s.BinaryOn? then
              var (port, bit) := board.portBits[s.pin];
              && (bit in cue.port[port].raised <==> p.value)
              && (bit in cue.port[port].cleared <==> !p.value)
            else cue.oc[s.oc] == Registers(s, p)
  {
    var channels, data := Channels(board, sent), CueData(sent, parts);
    ChannelsExist(board, sent);
    OwnPart(board, sent, parts, i);
    ChannelsAreIndependent(channels, data, i);
    PartRead(board, sent[i].setting, parts[i]);
    hide TranslateCue, OcCueOf, Registers, PartBytes, CueData, Own;
    assert channels[i] == ChannelOf(board, sent[i].setting);
  }

  lemma ChannelsExist(board: Board, sent: seq<Sent>)
    requires board.Valid() && AllAcceptable(board, sent) && Independent(board, sent)
    ensures AllValid(Channels(board, sent))
  {
    hide Distinct;
  }
}
