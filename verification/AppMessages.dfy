/**
 Messages as a host builds them (app_layer_v1/protocol_defs.h): structures with fields,
 laid out in bytes. The parser finds exactly these messages in the stream, the decoders
 get their fields back, and the sequencer is in the state that they ask for.
 */
module AppMessages {
  import opened Bytes
  import opened Sequencer
  import opened AppProtocol
  import opened SequencerHost
  import Spi

  type Two = x: nat | x < 4
  type Three = x: nat | x < 8

  datatype Command =
    | UartData(uart: Two, data: seq<byte>)
    | SpiRequest(pin: Six, spi: Two, total: nat, data: seq<byte>, response: byte, dataGiven: bool, responseGiven: bool)
    | I2cRequest(i2c: Two, spare: Three, tenBits: bool, msb: Two, lsb: byte, data: seq<byte>, readSize: byte)
    | SequencerSettings(sent: seq<Sent>)
    | SequencerClose
    | SequencerCue(time: half, cue: seq<byte>)
    | ManualStart(cue: seq<byte>)
    | Control(cmd: byte)
    | Plain(kind: byte, args: seq<byte>)
  {
    /** What the fields can hold. A size that is not given is that of the whole transfer. */
    predicate Valid() {
      match this
      case UartData(_, data) => 1 <= |data| <= 64
      case SpiRequest(_, _, total, data, response, dataGiven, responseGiven) =>
        && 1 <= total <= 64
        && (if dataGiven then |data| + Flag(responseGiven) < 0x100 else |data| == total)
        && (responseGiven || response == total)
      case I2cRequest(_, _, _, _, _, data, _) => |data| < 0x100
      case SequencerSettings(sent) => AllKnown(sent) && 0 < |AllBytes(sent)| < 0x100
      case Control(cmd) => cmd != 3
      case Plain(kind, args) => kind < |ARG_BITS| && kind !in VARYING && 8 * |args| == ARG_BITS[kind]
      case _ => true
    }
  }

  const VARYING: set<byte> := {0x0E, 0x11, 0x14, 0x20, 0x21, 0x22}

  /** The bits that the fields of the fixed arguments of each type take. */
  const ARG_BITS: seq<nat> := [
    32, 0, 8 * 8, 1 + 1 + 6, 1 + 1 + 6, 2 + 6, 1 + 1 + 6, 6 + 2 + 8,
    6 + 2 + 4 + 3 + 1, 2 + 4 + 2 + 16, 1 + 4 + 2 + 1 + 16, 8, 6 + 1 + 1, 2 + 1 + 1 + 2 + 2 + 16, 6 + 2, 6 + 2 + 2 + 4 + 1 + 1,
    3 + 2 + 2 + 1 + 1 + 1 + 1 + 5, 6 + 2 + 6 + 1 + 1 + 8, 6 + 2 + 2 + 2 + 1 + 3, 2 + 3 + 2 + 1, 2 + 3 + 1 + 2 + 8 + 8 + 8, 0, 24, 0,
    0, 0, 1 + 7, 4 + 4 + 2 + 1 + 3 + 1 + 1, 6 + 2 + 4 + 3 + 1, 0, 6 + 2, 6 + 1 + 1,
    8, 16, 8, 0, 1 + 7, 16]

  function Encode(c: Command): (msg: seq<byte>)
    requires c.Valid()
  {
    match c
    case UartData(uart, data) => [0x0E, |data| - 1 + 64 * uart] + data
    case SpiRequest(pin, spi, total, data, response, dataGiven, responseGiven) =>
      [0x11, pin + 64 * spi, total - 1 + 64 * Flag(responseGiven) + 128 * Flag(dataGiven)]
      + (if dataGiven then [|data|] else []) + (if responseGiven then [response] else []) + data
    case I2cRequest(i2c, spare, tenBits, msb, lsb, data, readSize) =>
      [0x14, i2c + 4 * spare + 32 * Flag(tenBits) + 64 * msb, lsb, |data|, readSize] + data
    case SequencerSettings(sent) => [0x20, |AllBytes(sent)|] + AllBytes(sent)
    case SequencerClose => [0x20, 0]
    case SequencerCue(time, cue) => [0x21] + Word(time) + cue
    case ManualStart(cue) => [0x22, 3] + cue
    case Control(cmd) => [0x22, cmd]
    case Plain(kind, args) => [kind] + args
  }

  /** A cue must be as long as the configured channels need it. */
  predicate Sendable(app: App, c: Command) {
    && c.Valid()
    && (c.SequencerCue? || c.ManualStart? ==> |c.cue| == CueBytes(app.config.channels))
  }

  // -------------------------------------------------------------- single messages

  lemma TableFits(kind: byte)
    requires kind < |ARG_BITS|
    ensures 8 * FixedSize(kind) == ARG_BITS[kind]
  {
  }

  lemma PlainFramed(app: App, c: Command)
    requires app.Valid() && c.Plain? && Sendable(app, c)
    ensures IsFrame(app, Encode(c))
  {
    TableFits(c.kind);
    hide FixedSize;
    assert VarSize(app, Encode(c)) == 0;
  }

  lemma UartFramed(app: App, c: Command)
    requires app.Valid() && c.UartData? && Sendable(app, c)
    ensures IsFrame(app, Encode(c))
  {
    TableFits(0x0E);
    hide FixedSize;
    var size := |c.data| - 1;
    assert (size + 64 * c.uart) % 64 == size;
  }

  lemma SpiFramed(app: App, c: Command)
    requires app.Valid() && c.SpiRequest? && Sendable(app, c)
    ensures IsFrame(app, Encode(c))
  {
    TableFits(0x11);
    hide FixedSize;
    var b := SpiSizes(c.total - 1, Flag(c.responseGiven), Flag(c.dataGiven));
  }

  /** The second argument byte of an SPI request and what it is made of. */
  lemma SpiSizes(total: nat, responseGiven: nat, dataGiven: nat) returns (b: byte)
    requires total < 64 && responseGiven < 2 && dataGiven < 2
    ensures b == total + 64 * responseGiven + 128 * dataGiven
    ensures b % 64 == total && b / 64 % 2 == responseGiven && b / 128 == dataGiven
  {
    b := total + 64 * responseGiven + 128 * dataGiven;
  }

  lemma I2cFramed(app: App, c: Command)
    requires app.Valid() && c.I2cRequest? && Sendable(app, c)
    ensures IsFrame(app, Encode(c))
  {
    TableFits(0x14);
    hide FixedSize;
  }

  lemma SettingsFramed(app: App, c: Command)
    requires app.Valid() && (c.SequencerSettings? || c.SequencerClose? || c.Control?) && Sendable(app, c)
    ensures IsFrame(app, Encode(c))
  {
    TableFits(0x20);
    TableFits(0x22);
    hide FixedSize, AllBytes;
  }

  lemma CueFramed(app: App, c: Command)
    requires app.Valid() && (c.SequencerCue? || c.ManualStart?) && Sendable(app, c)
    ensures IsFrame(app, Encode(c))
  {
    TableFits(0x21);
    TableFits(0x22);
    CueBytesBound(app.config.channels, |app.config.channels|);
    hide FixedSize, Offset;
  }

  lemma CommandFramed(app: App, c: Command)
    requires app.Valid() && Sendable(app, c)
    ensures IsFrame(app, Encode(c))
  {
    hide *;
    match c
    case UartData(_, _) => UartFramed(app, c);
    case SpiRequest(_, _, _, _, _, _, _) => SpiFramed(app, c);
    case I2cRequest(_, _, _, _, _, _, _) => I2cFramed(app, c);
    case Plain(_, _) => PlainFramed(app, c);
    case SequencerCue(_, _) => CueFramed(app, c);
    case ManualStart(_) => CueFramed(app, c);
    case _ => SettingsFramed(app, c);
  }

  // ------------------------------------------------------------ what they do

  const RESET := Plain(0x01, [])
  const CLOSE := Plain(0x1D, [])

  /** The message has been handled and its verdict used up. */
  function Answered(app: App, msg: seq<byte>): App {
    app.(handled := app.handled + [msg], verdicts := if app.verdicts == [] then [] else app.verdicts[1..])
  }

  /** The settings that can be taken are, unless others are in effect. */
  function Opened(next: App, result: (Config, bool)): (App, bool) {
    if next.open then (next, false) else (next.(config := result.0, open := result.1), result.1)
  }

  /** What a message does to the application; `verdicts` answers for the peripherals. */
  function Effect(app: App, c: Command): (App, bool)
    requires app.Valid() && c.Valid()
  {
    var next := Answered(app, Encode(c));
    if c == RESET then (next.(open := false, config := Config([], 0)), true)
    else if c == CLOSE then (next.(closing := true), true)
    else if c.SequencerClose? then (next.(open := false), app.open)
    else if c.SequencerSettings? then
      Opened(next, Result(app.board, c.sent, Config([], 0)))
    else (next, app.verdicts == [] || app.verdicts[0])
  }

  lemma ConfigureHandled(app: App, msg: seq<byte>)
    requires app.Valid() && |msg| >= 2 && msg[0] == SEQUENCER_CONFIGURE && msg[1] != 0 && FixedSize(msg[0]) == 1
    ensures MessageDone(app, msg) == Opened(Answered(app, msg), Configure(app.board, msg[2..]))
  {
    hide Configure, FixedSize;
  }

  lemma SettingsHandled(app: App, c: Command)
    requires app.Valid() && c.Valid() && c.SequencerSettings? && IsFrame(app, Encode(c))
    ensures MessageDone(app, Encode(c)) == Effect(app, c)
  {
    TableFits(0x20);
    SettingsLaidOut(c);
    EffectOfSettings(app, c);
    hide *;
    SettingsConfigure(app.board, c.sent);
    ConfigureHandled(app, Encode(c));
  }

  lemma EffectOfSettings(app: App, c: Command)
    requires app.Valid() && c.Valid() && c.SequencerSettings?
    ensures AllKnown(c.sent) && Effect(app, c) == Opened(Answered(app, Encode(c)), Result(app.board, c.sent, Config([], 0)))
  {
    hide AllBytes, Encode, Result;
  }

  lemma SettingsLaidOut(c: Command)
    requires c.Valid() && c.SequencerSettings?
    ensures var msg := Encode(c); |msg| >= 2 && msg[0] == SEQUENCER_CONFIGURE && msg[1] != 0 && msg[2..] == AllBytes(c.sent)
  {
    hide AllBytes;
  }

  lemma OtherHandled(app: App, c: Command)
    requires app.Valid() && c.Valid() && !c.SequencerSettings? && IsFrame(app, Encode(c))
    ensures MessageDone(app, Encode(c)) == Effect(app, c)
  {
    TypeOf(c);
    hide Encode, FixedSize, VarSize, Configure, Channels, Taken, CueLengths;
  }

  lemma TypeOf(c: Command)
    requires c.Valid() && !c.SequencerSettings?
    ensures Encode(c) != []
    ensures Encode(c)[0] == SOFT_RESET <==> c == RESET
    ensures Encode(c)[0] == SOFT_CLOSE <==> c == CLOSE
    ensures Encode(c)[0] == SEQUENCER_CONFIGURE <==> c.SequencerClose?
    ensures c.SequencerClose? ==> |Encode(c)| == 2 && Encode(c)[1] == 0
  {
  }

  /** A message has the effect that its fields ask for. */
  lemma CommandHandled(app: App, c: Command)
    requires app.Valid() && c.Valid() && IsFrame(app, Encode(c))
    ensures MessageDone(app, Encode(c)) == Effect(app, c) && Effect(app, c).0.Valid()
  {
    hide *;
    MessageDoneFits(app, Encode(c));
    if c.SequencerSettings? { SettingsHandled(app, c); } else { OtherHandled(app, c); }
  }

  lemma MessageDoneFits(app: App, msg: seq<byte>)
    requires app.Valid() && IsFrame(app, msg)
    ensures msg != [] && |msg| >= 1 + FixedSize(msg[0]) && MessageDone(app, msg).0.Valid()
  {
    MessageDoneValid(app, msg);
  }

  // ------------------------------------------------------------ streams of them

  /** Each message can be sent after the ones before it. */
  predicate AllSendable(app: App, commands: seq<Command>)
    requires app.Valid()
    decreases |commands|
  {
    commands == []
    || (Sendable(app, commands[0])
        && (CommandFramed(app, commands[0]); CommandHandled(app, commands[0]);
            Effect(app, commands[0]).1 ==> AllSendable(Effect(app, commands[0]).0, commands[1..])))
  }

  /** The messages one after the other, until one is refused. */
  function HandleCommands(app: App, commands: seq<Command>): (App, bool)
    requires app.Valid() && AllSendable(app, commands)
    decreases |commands|
  {
    if commands == [] then (app, true)
    else
      CommandFramed(app, commands[0]);
      CommandHandled(app, commands[0]);
      var (next, ok) := Effect(app, commands[0]);
      if ok then HandleCommands(next, commands[1..]) else (next, false)
  }

  /** The bytes that a host sends, as long as its messages can be sent. */
  function Stream(commands: seq<Command>): seq<byte>
    requires forall i :: 0 <= i < |commands| ==> commands[i].Valid()
  {
    if commands == [] then [] else Encode(commands[0]) + Stream(commands[1..])
  }

  /** The parser finds exactly the messages that the host has put in the stream. */
  lemma {:induction false} CommandsParsed(app: App, commands: seq<Command>)
    requires app.Valid() && AllSendable(app, commands)
    requires forall i :: 0 <= i < |commands| ==> commands[i].Valid()
    ensures Feed(Idle(app), Stream(commands)) == (Idle(HandleCommands(app, commands).0), HandleCommands(app, commands).1)
    decreases |commands|
  {
    hide Feed, MessageDone, Effect, Encode, Sendable, Command.Valid;
    if commands == [] {
      FeedNothing(Idle(app));
    } else {
      var c := commands[0];
      CommandFramed(app, c);
      CommandHandled(app, c);
      FrameParsed(app, Encode(c));
      FeedSplit(Idle(app), Encode(c), Stream(commands[1..]));
      if Effect(app, c).1 { CommandsParsed(Effect(app, c).0, commands[1..]); }
    }
  }

  /** Only these touch the sequencer's configuration. */
  predicate Configures(c: Command) {
    c == RESET || c.SequencerSettings? || c.SequencerClose?
  }

  lemma {:induction false} ConfigurationLasts(app: App, commands: seq<Command>)
    requires app.Valid() && AllSendable(app, commands) && forall i :: 0 <= i < |commands| ==> !Configures(commands[i])
    ensures var next := HandleCommands(app, commands).0; next.open == app.open && next.config == app.config
    decreases |commands|
  {
    if commands != [] {
      var c := commands[0];
      CommandFramed(app, c);
      CommandHandled(app, c);
      assert !Configures(c);
      var (next, ok) := Effect(app, c);
      assert next.open == app.open && next.config == app.config;
      hide Effect, Encode, Sendable, Command.Valid, Configures;
      if ok { ConfigurationLasts(next, commands[1..]); }
    }
  }

  /**
   Once settings have been accepted, they are in effect until a reset, other settings or a
   close: the channels are theirs, and that is how long cues are.
   */
  lemma SettingsInEffect(app: App, sent: seq<Sent>, more: seq<Command>)
    requires app.Valid() && !app.open && AllSendable(app, [SequencerSettings(sent)] + more)
    requires AllAcceptable(app.board, sent) && |sent| <= 32
    requires forall i :: 0 <= i < |more| ==> !Configures(more[i])
    ensures var next := HandleCommands(app, [SequencerSettings(sent)] + more).0;
            next.open && next.config == Config(Channels(app.board, sent), CueLengths(sent))
  {
    var c, all := SequencerSettings(sent), [SequencerSettings(sent)] + more;
    assert all[0] == c && all[1..] == more;
    CommandFramed(app, c);
    CommandHandled(app, c);
    EffectOfSettings(app, c);
    ResultOfAll(app.board, sent);
    hide Result, Channels, CueLengths;
    var (next, ok) := Effect(app, c);
    assert ok && next.open && next.config == Config(Channels(app.board, sent), CueLengths(sent));
    hide Effect, Encode, Sendable, Command.Valid, Configures, Channels, CueLengths;
    ConfigurationLasts(next, more);
  }

  lemma ResultOfAll(board: Board, sent: seq<Sent>)
    requires AllAcceptable(board, sent) && |sent| <= 32
    ensures Result(board, sent, Config([], 0)) == (Config(Channels(board, sent), CueLengths(sent)), true)
  {
    TakenAll(board, sent, 32);
    hide Channels, CueLengths, Taken;
    assert sent[..|sent|] == sent && [] + Channels(board, sent) == Channels(board, sent);
  }

  lemma {:induction false} TakenAll(board: Board, sent: seq<Sent>, room: nat)
    requires AllAcceptable(board, sent) && |sent| <= room
    ensures Taken(board, sent, room) == |sent|
  {
    hide Acceptable;
    if sent != [] { TakenAll(board, sent[1..], room - 1); }
  }

  // --------------------------------------------------------------- decoders

  datatype UartCall = UartCall(uart: nat, data: seq<byte>)

  /** The arguments of UARTTransmit. */
  function UartDecode(msg: seq<byte>): UartCall
    requires |msg| >= 2 && |msg| >= 3 + msg[1] % 64
  {
    UartCall(msg[1] / 64, msg[2..3 + msg[1] % 64])
  }

  /** The arguments of I2CWriteRead; an address has its first byte in the low half. */
  datatype I2cCall = I2cCall(i2c: nat, address: half, data: seq<byte>, readSize: byte)

  /** Addresses of seven bits that announce ten bits are refused. */
  function I2cDecode(msg: seq<byte>): Option<I2cCall>
    requires |msg| >= 5 && |msg| - 5 >= msg[3]
  {
    var tenBits: int, msb: int, lsb: int, size: int := msg[1] / 32 % 2, msg[1] / 64, msg[2], msg[3];
    var data := msg[5..5 + size];
    if tenBits == 1 then Some(I2cCall(msg[1] % 4, lsb * 0x100 + 0xF0 + 2 * msb, data, msg[4]))
    else if msb == 0 && lsb < 128 && lsb / 4 != 30 then Some(I2cCall(msg[1] % 4, 2 * lsb, data, msg[4]))
    else None
  }

  lemma UartDecoded(c: Command)
    requires c.UartData? && c.Valid()
    ensures |Encode(c)| == 3 + Encode(c)[1] % 64 && UartDecode(Encode(c)) == UartCall(c.uart, c.data)
  {
    var size := |c.data| - 1;
    assert (size + 64 * c.uart) % 64 == size && (size + 64 * c.uart) / 64 == c.uart;
    assert Encode(c)[2..] == c.data;
  }

  /** The bytes of the address on the bus: for ten bits 11110 and the two high ones come first. */
  lemma I2cDecoded(c: Command)
    requires c.I2cRequest? && c.Valid()
    ensures |Encode(c)| >= 5 && |Encode(c)| - 5 == Encode(c)[3]
    ensures I2cDecode(Encode(c))
         == if c.tenBits then Some(I2cCall(c.i2c, Be16(c.lsb, 0xF0 + 2 * c.msb), c.data, c.readSize))
            else if c.msb != 0 || c.lsb >= 128 || 120 <= c.lsb < 124 then None
            else Some(I2cCall(c.i2c, 2 * c.lsb, c.data, c.readSize))
  {
    I2cBits(c.i2c, c.spare, Flag(c.tenBits), c.msb);
    var msg := Encode(c);
    assert msg[5..5 + |c.data|] == c.data;
    assert msg[1] / 32 % 2 == 1 <==> c.tenBits;
    assert msg[1] % 4 == c.i2c && msg[1] / 64 == c.msb && msg[2] == c.lsb && msg[3] == |c.data| && msg[4] == c.readSize;
    assert Be16(c.lsb, 0xF0 + 2 * c.msb) == c.lsb as int * 0x100 + 0xF0 + 2 * c.msb;
  }

  lemma I2cBits(i2c: Two, spare: Three, tenBits: nat, msb: Two)
    requires tenBits < 2
    ensures var b := i2c + 4 * spare + 32 * tenBits + 64 * msb; b < 256 && b % 4 == i2c && b / 32 % 2 == tenBits && b / 64 == msb
  {
  }

  lemma SpiDecoded(c: Command)
    requires c.SpiRequest? && c.Valid()
    ensures var msg := Encode(c);
            && |msg| >= 4 && |msg| == SpiDataAt(msg) + SpiDataSize(msg)
            && SpiDecode(msg) == SpiCall(c.spi, c.pin, c.data, c.total, Spi.Minus(c.total, c.response))
  {
    var b := SpiSizes(c.total - 1, Flag(c.responseGiven), Flag(c.dataGiven));
    var msg := Encode(c);
    assert msg[2] == b;
    assert (c.pin + 64 * c.spi) / 64 == c.spi && (c.pin + 64 * c.spi) % 64 == c.pin;
    assert msg[SpiDataAt(msg)..] == c.data;
  }
}
