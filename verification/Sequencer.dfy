/**
 Channel settings and cues of the sequencer (app_layer_v1/sequencer.c). The
 settings decide how many bytes each cue has and what they mean.
 */
module Sequencer {
  import opened Bytes

  const NUM_PWM_MODULES := 9
  const NUM_PORTS := 6
  const MAX_CHANNELS := 32

  /** The port and bit of each pin of a board, and whatever happens to lie behind that table. */
  datatype Board = Board(portBits: seq<(nat, nat)>, behind: (nat, nat)) {
    predicate Valid() {
      |portBits| < 64 && forall i :: 0 <= i < |portBits| ==> portBits[i].0 < NUM_PORTS && portBits[i].1 < 16
    }

    function NumPins(): nat {
      |portBits|
    }

    /** PinToPortBit, for the pins that the settings may name: the check lets one too many through. */
    function PinToPortBit(pin: nat): (nat, nat)
      requires pin <= NumPins()
    {
      if pin < NumPins() then portBits[pin] else behind
    }
  }

  function Le16(low: nat, high: nat): half
    requires low < 0x100 && high < 0x100
  {
    low + 0x100 * high
  }

  // ------------------------------------------------------------------ settings

  /** What is kept of a channel's settings; `con1` holds the clock and the mode of the output compare. */
  datatype Channel =
    | Pwm(oc: nat, rs: half, con1: nat)
    | Fm(oc: nat, r: half, con1: nat)
    | Steps(oc: nat)
    | Binary(port: nat, bit: nat)
  {
    predicate Valid() {
      if Binary? then port < NUM_PORTS && bit < 16 else oc < NUM_PWM_MODULES
    }
  }

  function ConvertClock(clk: nat): nat
    requires clk < 4
  {
    if clk == 0 then 7 else clk
  }

  function CueSize(c: Channel): nat {
    match c
    case Pwm(_, _, _) => 2
    case Fm(_, _, _) => 2
    case Steps(_) => 5
    case Binary(_, _) => 1
  }

  function SettingsSize(c: Channel): nat {
    match c
    case Pwm(_, _, _) => 6
    case Fm(_, _, _) => 4
    case Steps(_) => 2
    case Binary(_, _) => 2
  }

  predicate IsBinary(data: seq<byte>) {
    |data| >= 2 && data[0] % 16 == 4
  }

  /** The settings do not make the source read behind its table of pins. */
  predicate PinInTable(board: Board, data: seq<byte>) {
    IsBinary(data) ==> data[1] % 64 < board.NumPins()
  }

  /** The settings at the head of the data, unless they are cut short or invalid. */
  function TranslateSettings(board: Board, data: seq<byte>): (c: Option<Channel>)
    requires board.Valid() && data != []
    ensures c.Some? ==> SettingsSize(c.value) <= |data| && (PinInTable(board, data) ==> c.value.Valid())
  {
    var kind := data[0] % 16;
    if kind == 0 || kind == 1 then
      if |data| < 6 || data[1] % 16 >= NUM_PWM_MODULES || Le16(data[2], data[3]) == 0 then None
      else Some(Pwm(data[1] % 16, Le16(data[2], data[3]), ConvertClock(data[1] / 16 % 4) * 1024 + 6))
    else if kind == 2 then
      if |data| < 4 || data[1] % 16 >= NUM_PWM_MODULES || Le16(data[2], data[3]) == 0 then None
      else Some(Fm(data[1] % 16, Le16(data[2], data[3]), ConvertClock(data[1] / 16 % 4) * 1024 + 6))
    else if kind == 3 then
      if |data| < 2 || data[1] % 16 >= NUM_PWM_MODULES then None else Some(Steps(data[1] % 16))
    else if kind == 4 then
      if |data| < 2 || data[1] % 64 > board.NumPins() then None
      else
        var (port, bit) := board.PinToPortBit(data[1] % 64);
        Some(Binary(port, bit))
    else None
  }

  /** Of the pins that are accepted exactly one, the number of pins itself, is not in the table. */
  lemma PinsAccepted(board: Board, data: seq<byte>)
    requires board.Valid() && IsBinary(data)
    ensures TranslateSettings(board, data).Some? <==> data[1] % 64 <= board.NumPins()
    ensures TranslateSettings(board, data).Some? && !PinInTable(board, data) <==> data[1] % 64 == board.NumPins()
  {
  }

  /** The configured channels and expected_cue_size. */
  datatype Config = Config(channels: seq<Channel>, expectedCueSize: nat)

  /** The loop over the settings; what has been translated before a failure stays. */
  function ConfigureFrom(board: Board, data: seq<byte>, c: Config): (r: (Config, bool))
    requires board.Valid()
    decreases |data|
  {
    if data == [] then (c, true)
    else if |c.channels| == MAX_CHANNELS then (c, false)
    else
      match TranslateSettings(board, data)
      case None => (c, false)
      case Some(channel) =>
        ConfigureFrom(board, data[SettingsSize(channel)..],
                      Config(c.channels + [channel], c.expectedCueSize + CueSize(channel)))
  }

  function Configure(board: Board, data: seq<byte>): (Config, bool)
    requires board.Valid()
  {
    ConfigureFrom(board, data, Config([], 0))
  }

  /** The bytes of the first n cues. */
  function Offset(channels: seq<Channel>, n: nat): nat
    requires n <= |channels|
  {
    if n == 0 then 0 else Offset(channels, n - 1) + CueSize(channels[n - 1])
  }

  function CueBytes(channels: seq<Channel>): nat {
    Offset(channels, |channels|)
  }

  function SettingsBytes(channels: seq<Channel>): nat {
    if channels == [] then 0 else SettingsBytes(channels[..|channels| - 1]) + SettingsSize(channels[|channels| - 1])
  }

  /** The expected size of a cue is the sum of its channels' sizes. */
  predicate Consistent(c: Config) {
    |c.channels| <= MAX_CHANNELS && c.expectedCueSize == CueBytes(c.channels)
  }

  predicate AllValid(channels: seq<Channel>) {
    forall i :: 0 <= i < |channels| ==> channels[i].Valid()
  }

  /** No settings among the ones that are translated name a pin behind the table. */
  predicate PinsInTable(board: Board, data: seq<byte>, c: Config)
    requires board.Valid()
    decreases |data|
  {
    data == [] || |c.channels| == MAX_CHANNELS
    || (PinInTable(board, data)
        && var t := TranslateSettings(board, data);
           t.Some? ==> PinsInTable(board, data[SettingsSize(t.value)..],
                                   Config(c.channels + [t.value], c.expectedCueSize + CueSize(t.value))))
  }

  /** Then every configured channel drives an output that exists. */
  lemma {:induction false} ConfigureValid(board: Board, data: seq<byte>, c: Config)
    requires board.Valid() && AllValid(c.channels) && PinsInTable(board, data, c)
    ensures AllValid(ConfigureFrom(board, data, c).0.channels)
    decreases |data|
  {
    if data != [] && |c.channels| != MAX_CHANNELS {
      var t := TranslateSettings(board, data);
      if t.Some? {
        hide TranslateSettings, PinInTable;
        ConfigureValid(board, data[SettingsSize(t.value)..],
                       Config(c.channels + [t.value], c.expectedCueSize + CueSize(t.value)));
      }
    }
  }

  lemma {:induction false} OffsetPrefix(channels: seq<Channel>, c: Channel, n: nat)
    requires n <= |channels|
    ensures Offset(channels + [c], n) == Offset(channels, n)
  {
    if n > 0 { OffsetPrefix(channels, c, n - 1); }
  }

  lemma {:induction false} ConfigureKeeps(board: Board, data: seq<byte>, c: Config)
    requires board.Valid() && Consistent(c)
    ensures var (d, ok) := ConfigureFrom(board, data, c);
            Consistent(d) && (ok ==> SettingsBytes(d.channels) == SettingsBytes(c.channels) + |data|)
    decreases |data|
  {
    if data != [] && |c.channels| < MAX_CHANNELS {
      var t := TranslateSettings(board, data);
      if t.Some? {
        hide TranslateSettings;
        OffsetPrefix(c.channels, t.value, |c.channels|);
        assert (c.channels + [t.value])[..|c.channels|] == c.channels;
        var next := Config(c.channels + [t.value], c.expectedCueSize + CueSize(t.value));
        assert CueBytes(next.channels) == CueBytes(c.channels) + CueSize(t.value);
        ConfigureKeeps(board, data[SettingsSize(t.value)..], next);
      }
    }
  }

  /**
   Whatever the outcome, the expected size is what the configured channels' cues
   take; a success has used the settings to the last byte.
   */
  lemma ConfigureSizes(board: Board, data: seq<byte>)
    requires board.Valid()
    ensures var (c, ok) := Configure(board, data);
            Consistent(c) && (ok ==> SettingsBytes(c.channels) == |data|)
  {
    ConfigureKeeps(board, data, Config([], 0));
  }

  // ---------------------------------------------------------------------- cues

  datatype OcCue = OcCue(rs: half, r: half, con1: nat, inc: half)

  /** Bits of a port to set and to clear; in the source two masks. */
  datatype PortCue = PortCue(raised: set<nat>, cleared: set<nat>)

  datatype Cue = Cue(oc: seq<OcCue>, port: seq<PortCue>) {
    predicate Valid() {
      |oc| == NUM_PWM_MODULES && |port| == NUM_PORTS
    }
  }

  const OC_OFF := OcCue(0, 0, 0, 0)
  const PORT_KEPT := PortCue({}, {})

  function ClearCue(): (c: Cue)
    ensures c.Valid()
    ensures forall o :: 0 <= o < NUM_PWM_MODULES ==> c.oc[o] == OC_OFF
    ensures forall p :: 0 <= p < NUM_PORTS ==> c.port[p] == PORT_KEPT
  {
    Cue([OC_OFF, OC_OFF, OC_OFF, OC_OFF, OC_OFF, OC_OFF, OC_OFF, OC_OFF, OC_OFF],
        [PORT_KEPT, PORT_KEPT, PORT_KEPT, PORT_KEPT, PORT_KEPT, PORT_KEPT])
  }

  function Low16(n: int): half {
    n % 0x1_0000
  }

  /** The pulse comes in the middle of the period and ends at rs. */
  function StepsCue(clk: nat, pw: half, period: half): OcCue
    requires clk < 4
  {
    if pw == 0 then OC_OFF
    else
      var rs := Low16(period / 2 + pw);
      OcCue(rs, period / 2, ConvertClock(clk) * 1024 + 7, Low16(period - rs))
  }

  /** What an output compare that is off is set to by its own bytes of the cue. */
  function OcCueOf(c: Channel, bytes: seq<byte>): OcCue
    requires !c.Binary? && |bytes| == CueSize(c)
  {
    match c
    case Pwm(_, rs, con1) => OcCue(rs, Le16(bytes[0], bytes[1]), con1, 0)
    case Fm(_, r, con1) =>
      var period := Le16(bytes[0], bytes[1]);
      OcCue(if period == 0 then 1 else period, if period == 0 then 0 else r, con1, 0)
    case Steps(_) => StepsCue(bytes[0] % 4, Le16(bytes[1], bytes[2]), Le16(bytes[3], bytes[4]))
  }

  function Apply(c: Channel, bytes: seq<byte>, cue: Cue): (r: Cue)
    requires c.Valid() && |bytes| == CueSize(c) && cue.Valid()
    ensures r.Valid()
  {
    match c
    case Binary(port, bit) =>
      var p := cue.port[port];
      cue.(port := cue.port[port := if bytes[0] % 2 == 1 then p.(raised := p.raised + {bit})
                                    else p.(cleared := p.cleared + {bit})])
    case Steps(oc) =>
      cue.(oc := cue.oc[oc := if Le16(bytes[1], bytes[2]) == 0 then cue.oc[oc].(con1 := 0) else OcCueOf(c, bytes)])
    case _ => cue.(oc := cue.oc[c.oc := OcCueOf(c, bytes)])
  }

  predicate CueFits(channels: seq<Channel>, data: seq<byte>) {
    |data| >= CueBytes(channels) && AllValid(channels)
  }

  lemma {:induction false} OffsetGrows(channels: seq<Channel>, n: nat, m: nat)
    requires n <= m <= |channels|
    ensures Offset(channels, n) <= Offset(channels, m)
    ensures n < m ==> Offset(channels, n) + CueSize(channels[n]) <= Offset(channels, m)
    decreases m
  {
    if n < m { OffsetGrows(channels, n, m - 1); }
  }

  /** A channel's own bytes in a cue. */
  function Own(channels: seq<Channel>, data: seq<byte>, i: nat): (b: seq<byte>)
    requires i < |channels| && CueFits(channels, data)
    ensures |b| == CueSize(channels[i])
  {
    OffsetGrows(channels, i, |channels|);
    data[Offset(channels, i)..Offset(channels, i) + CueSize(channels[i])]
  }

  /** The cue after the first n channels. */
  function TranslateSome(channels: seq<Channel>, data: seq<byte>, n: nat): (r: Cue)
    requires n <= |channels| && CueFits(channels, data)
    ensures r.Valid()
  {
    if n == 0 then ClearCue()
    else Apply(channels[n - 1], Own(channels, data, n - 1), TranslateSome(channels, data, n - 1))
  }

  function TranslateCue(channels: seq<Channel>, data: seq<byte>): (r: Cue)
    requires CueFits(channels, data)
    ensures r.Valid()
  {
    TranslateSome(channels, data, |channels|)
  }

  /** No two channels drive the same output compare or the same pin. */
  predicate Distinct(channels: seq<Channel>) {
    forall i, j :: 0 <= i < j < |channels| ==> !SameOutput(channels[i], channels[j])
  }

  predicate SameOutput(a: Channel, b: Channel) {
    if a.Binary? then b.Binary? && a.port == b.port && a.bit == b.bit else !b.Binary? && a.oc == b.oc
  }

  lemma FirstOnOutput(c: Channel, bytes: seq<byte>, cue: Cue)
    requires c.Valid() && |bytes| == CueSize(c) && cue.Valid() && !c.Binary? && cue.oc[c.oc] == OC_OFF
    ensures Apply(c, bytes, cue).oc[c.oc] == OcCueOf(c, bytes)
  {
  }

  lemma {:induction false} OcAfter(channels: seq<Channel>, data: seq<byte>, i: nat, n: nat)
    requires CueFits(channels, data) && Distinct(channels) && i < |channels| && n <= |channels| && !channels[i].Binary?
    ensures TranslateSome(channels, data, n).oc[channels[i].oc]
         == if i < n then OcCueOf(channels[i], Own(channels, data, i)) else OC_OFF
    decreases n
  {
    hide OcCueOf;
    if n > 0 {
      OcAfter(channels, data, i, n - 1);
      if n - 1 == i { FirstOnOutput(channels[i], Own(channels, data, i), TranslateSome(channels, data, i)); }
      assert n - 1 != i ==> !SameOutput(channels[if n - 1 < i then n - 1 else i], channels[if n - 1 < i then i else n - 1]);
    }
  }

  lemma {:induction false} PinAfter(channels: seq<Channel>, data: seq<byte>, i: nat, n: nat)
    requires CueFits(channels, data) && Distinct(channels) && i < |channels| && n <= |channels| && channels[i].Binary?
    ensures var p := TranslateSome(channels, data, n).port[channels[i].port];
            && (channels[i].bit in p.raised <==> i < n && Own(channels, data, i)[0] % 2 == 1)
            && (channels[i].bit in p.cleared <==> i < n && Own(channels, data, i)[0] % 2 == 0)
    decreases n
  {
    hide OcCueOf, Own;
    if n > 0 {
      PinAfter(channels, data, i, n - 1);
      assert n - 1 != i ==> !SameOutput(channels[if n - 1 < i then n - 1 else i], channels[if n - 1 < i then i else n - 1]);
    }
  }

  /** Each channel's outputs follow from its own bytes alone. */
  lemma ChannelsAreIndependent(channels: seq<Channel>, data: seq<byte>, i: nat)
    requires CueFits(channels, data) && Distinct(channels) && i < |channels|
    ensures var cue, c, own := TranslateCue(channels, data), channels[i], Own(channels, data, i);
            if c.Binary? then
              && (c.bit in cue.port[c.port].raised <==> own[0] % 2 == 1)
              && (c.bit in cue.port[c.port].cleared <==> own[0] % 2 == 0)
            else cue.oc[c.oc] == OcCueOf(c, own)
  {
    if channels[i].Binary? { PinAfter(channels, data, i, |channels|); } else { OcAfter(channels, data, i, |channels|); }
  }

  /** What no channel drives is left alone. */
  lemma {:induction false} OthersUnchanged(channels: seq<Channel>, data: seq<byte>, n: nat, c: Channel)
    requires CueFits(channels, data) && c.Valid() && n <= |channels|
    requires forall i :: 0 <= i < |channels| ==> !SameOutput(channels[i], c)
    ensures var cue := TranslateSome(channels, data, n);
            if c.Binary? then c.bit !in cue.port[c.port].raised && c.bit !in cue.port[c.port].cleared
            else cue.oc[c.oc] == OC_OFF
    decreases n
  {
    hide OcCueOf;
    if n > 0 {
      OthersUnchanged(channels, data, n - 1, c);
      assert !SameOutput(channels[n - 1], c);
    }
  }

  /** A step pulse is as wide as asked and ends within its period exactly when it fits the second half. */
  lemma StepsTiming(clk: nat, pw: half, period: half)
    requires clk < 4 && pw > 0
    ensures var c := StepsCue(clk, pw, period);
            (c.rs as int - c.r as int == pw as int && c.rs as int + c.inc as int == period as int)
            <==> pw as int <= period as int - (period / 2) as int
  {
  }
}
