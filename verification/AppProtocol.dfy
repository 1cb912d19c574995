/**
 Incoming messages of the application (app_layer_v1/protocol.c): a type byte,
 arguments of a fixed size, and sometimes more, whose size depends on the fixed
 ones or on how the sequencer has been configured by earlier messages.
 */
module AppProtocol {
  import opened Bytes
  import opened Sequencer
  import Spi

  const SOFT_RESET: byte := 0x01
  const UART_DATA: byte := 0x0E
  const SPI_MASTER_REQUEST: byte := 0x11
  const I2C_WRITE_READ: byte := 0x14
  const SOFT_CLOSE: byte := 0x1D
  const SEQUENCER_CONFIGURE: byte := 0x20
  const SEQUENCER_PUSH: byte := 0x21
  const SEQUENCER_CONTROL: byte := 0x22
  const MESSAGE_TYPE_LIMIT := 0x26

  const SEQ_CMD_MANUAL_START: byte := 3

  /** A message type, the largest fixed arguments and the buffer for the variable ones. */
  const RX_MSG_SIZE := 1 + 8 + 72

  const INCOMING_ARG_SIZE: seq<nat> :=
    [4, 0, 8, 1, 1, 1, 1, 2, 2, 3, 3, 1, 1, 3, 1, 2, 2, 3, 2, 1, 4, 0, 3, 0, 0, 0, 1, 2, 2, 0, 1, 1, 1, 2, 1, 0, 1, 2]

  /** Types from the limit on are outside the table; nothing is claimed for them. */
  function FixedSize(kind: byte): nat {
    if kind < MESSAGE_TYPE_LIMIT then INCOMING_ARG_SIZE[kind] else 0
  }

  /**
   What the messages act on, as far as it matters to the ones behind them.
   `verdicts` is what the checks and the peripherals will answer to the messages
   to come, `handled` the messages so far.
   */
  datatype App = App(board: Board, open: bool, config: Config, closing: bool,
                     verdicts: seq<bool>, handled: seq<seq<byte>>)
  {
    predicate Valid() {
      board.Valid() && Consistent(config)
    }
  }

  /** IncomingVarArgSize, whose result is a byte. */
  function VarSize(app: App, msg: seq<byte>): byte
    requires msg != [] && |msg| >= 1 + FixedSize(msg[0])
  {
    var kind := msg[0];
    if kind == UART_DATA then msg[1] % 64 + 1
    else if kind == SPI_MASTER_REQUEST then
      if msg[2] / 128 == 1 then (msg[3] as int + msg[2] as int / 64 % 2) % 0x100 else msg[2] % 64 + msg[2] / 64 % 2
    else if kind == I2C_WRITE_READ then msg[3]
    else if kind == SEQUENCER_CONFIGURE then msg[1]
    else if kind == SEQUENCER_PUSH || (kind == SEQUENCER_CONTROL && msg[1] == SEQ_CMD_MANUAL_START) then
      app.config.expectedCueSize % 0x100
    else 0
  }

  /** What a message does. Everything but the sequencer's configuration is left to the verdicts. */
  function MessageDone(app: App, msg: seq<byte>): (App, bool)
    requires app.Valid() && msg != [] && |msg| >= 1 + FixedSize(msg[0])
  {
    var ok := app.verdicts == [] || app.verdicts[0];
    var next := app.(handled := app.handled + [msg], verdicts := if app.verdicts == [] then [] else app.verdicts[1..]);
    if msg[0] == SOFT_RESET then (next.(open := false, config := Config([], 0)), true)
    else if msg[0] == SOFT_CLOSE then (next.(closing := true), true)
    else if msg[0] == SEQUENCER_CONFIGURE then
      if msg[1] == 0 then (next.(open := false), app.open)
      else if app.open then (next, false)
      else
        var (config, done) := Configure(app.board, msg[2..]);
        (next.(config := config, open := done), done)
    else (next, ok)
  }

  lemma MessageDoneValid(app: App, msg: seq<byte>)
    requires app.Valid() && msg != [] && |msg| >= 1 + FixedSize(msg[0])
    ensures MessageDone(app, msg).0.Valid()
  {
    if msg[0] == SEQUENCER_CONFIGURE { ConfigureSizes(app.board, msg[2..]); }
  }

  // ------------------------------------------------------------ the parser

  datatype RxState = WaitType | WaitArgs | WaitVarArgs

  /** `msg` is the part of the current message that has come in. */
  datatype Parser = Parser(app: App, rx: RxState, msg: seq<byte>, remaining: nat) {
    predicate Valid() {
      && app.Valid() && remaining > 0
      && match rx
         case WaitType => msg == [] && remaining == 1
         case WaitArgs => msg != [] && |msg| + remaining == 1 + FixedSize(msg[0])
         case WaitVarArgs =>
           && msg != [] && |msg| >= 1 + FixedSize(msg[0])
           && |msg| + remaining == 1 + FixedSize(msg[0]) + VarSize(app, msg) as nat
    }
  }

  function Idle(app: App): Parser {
    Parser(app, WaitType, [], 1)
  }

  function VarArgsDone(app: App, msg: seq<byte>): (Parser, bool)
    requires app.Valid() && msg != [] && |msg| >= 1 + FixedSize(msg[0])
  {
    var (next, ok) := MessageDone(app, msg);
    (Idle(next), ok)
  }

  function ArgsDone(app: App, msg: seq<byte>): (Parser, bool)
    requires app.Valid() && msg != [] && |msg| >= 1 + FixedSize(msg[0])
  {
    var more := VarSize(app, msg);
    if more > 0 then (Parser(app, WaitVarArgs, msg, more), true) else VarArgsDone(app, msg)
  }

  function TypeDone(app: App, msg: seq<byte>): (Parser, bool)
    requires app.Valid() && |msg| == 1
  {
    var more := FixedSize(msg[0]);
    if more > 0 then (Parser(app, WaitArgs, msg, more), true) else ArgsDone(app, msg)
  }

  /** A field of the message is complete; one without bytes is passed over at once. */
  function FieldDone(p: Parser, msg: seq<byte>): (Parser, bool)
    requires p.Valid() && |msg| == |p.msg| + p.remaining && p.msg <= msg
  {
    match p.rx
    case WaitType => TypeDone(p.app, msg)
    case WaitArgs => ArgsDone(p.app, msg)
    case WaitVarArgs => VarArgsDone(p.app, msg)
  }

  lemma FieldDoneValid(p: Parser, msg: seq<byte>)
    requires p.Valid() && |msg| == |p.msg| + p.remaining && p.msg <= msg
    ensures FieldDone(p, msg).0.Valid()
  {
    hide VarSize, MessageDone, FixedSize;
    if p.rx != WaitType || FixedSize(msg[0]) == 0 { MessageDoneValid(p.app, msg); }
  }

  /** Parses the data until a message is refused. */
  function Feed(p: Parser, data: seq<byte>): (r: (Parser, bool))
    requires p.Valid()
    ensures r.0.Valid()
    decreases |data|
  {
    if data == [] then (p, true)
    else if p.remaining > 1 then Feed(p.(msg := p.msg + [data[0]], remaining := p.remaining - 1), data[1..])
    else
      FieldDoneValid(p, p.msg + [data[0]]);
      var (q, ok) := FieldDone(p, p.msg + [data[0]]);
      if ok then Feed(q, data[1..]) else (q, false)
  }
  lemma {:induction false} FeedSplit(p: Parser, a: seq<byte>, b: seq<byte>)
    requires p.Valid()
    ensures var (q, ok) := Feed(p, a); Feed(p, a + b) == if ok then Feed(q, b) else (q, false)
    decreases |a|
  {
    if a == [] {
      assert a + b == b;
    } else {
      assert (a + b)[1..] == a[1..] + b;
      hide MessageDone, VarSize, FixedSize;
      if p.remaining > 1 {
        FeedSplit(p.(msg := p.msg + [a[0]], remaining := p.remaining - 1), a[1..], b);
      } else {
        FieldDoneValid(p, p.msg + [a[0]]);
        var (q, ok) := FieldDone(p, p.msg + [a[0]]);
        if ok { FeedSplit(q, a[1..], b); }
      }
    }
  }

  lemma {:induction false} FeedMore(p: Parser, data: seq<byte>)
    requires p.Valid() && p.remaining > 1 && data != []
    ensures var q := p.(msg := p.msg + [data[0]], remaining := p.remaining - 1);
            q.Valid() && Feed(p, data) == Feed(q, data[1..])
  {
    hide MessageDone;
  }

  lemma {:induction false} FeedLast(p: Parser, b: byte)
    requires p.Valid() && p.remaining == 1
    ensures Feed(p, [b]) == FieldDone(p, p.msg + [b])
  {
    hide MessageDone, FieldDone, FixedSize, VarSize;
    FieldDoneValid(p, p.msg + [b]);
    assert [b][1..] == [];
  }

  /** Bytes of a field can be taken all at once. */
  lemma {:induction false} FeedField(p: Parser, bytes: seq<byte>)
    requires p.Valid() && |bytes| <= p.remaining
    ensures Feed(p, bytes)
         == if |bytes| < p.remaining then (p.(msg := p.msg + bytes, remaining := p.remaining - |bytes|), true)
            else FieldDone(p, p.msg + bytes)
    decreases |bytes|
  {
    if bytes == [] {
      assert p.msg + [] == p.msg;
    } else if p.remaining == 1 {
      FeedLast(p, bytes[0]);
      assert bytes == [bytes[0]];
    } else {
      FeedMore(p, bytes);
      hide Feed, MessageDone, TypeDone, ArgsDone, VarArgsDone, FixedSize, VarSize;
      FeedField(p.(msg := p.msg + [bytes[0]], remaining := p.remaining - 1), bytes[1..]);
      assert p.msg + [bytes[0]] + bytes[1..] == p.msg + bytes;
    }
  }

  // ------------------------------------------------------- buffers of input

  /** AppProtocolHandleIncoming: nothing is accepted after a close, which is checked once per call. */
  function HandleIncoming(p: Parser, data: seq<byte>): (r: (Parser, bool))
    requires p.Valid()
    ensures r.0.Valid()
  {
    if p.app.closing then (p, false) else Feed(p, data)
  }

  function HandleAll(p: Parser, buffers: seq<seq<byte>>): (r: (Parser, bool))
    requires p.Valid()
    ensures r.0.Valid()
    decreases |buffers|
  {
    if buffers == [] then (p, true)
    else
      var (q, ok) := HandleIncoming(p, buffers[0]);
      if ok then HandleAll(q, buffers[1..]) else (q, false)
  }

  function Joined(buffers: seq<seq<byte>>): seq<byte> {
    if buffers == [] then [] else buffers[0] + Joined(buffers[1..])
  }

  /** The channel is not closed by the stream before its end. */
  ghost predicate ClosesAtEnd(p: Parser, stream: seq<byte>)
    requires p.Valid()
  {
    forall k :: 0 <= k < |stream| ==> !Feed(p, stream[..k]).0.app.closing
  }

  lemma ClosesLater(p: Parser, a: seq<byte>, b: seq<byte>)
    requires p.Valid() && ClosesAtEnd(p, a + b) && Feed(p, a).1
    ensures b != [] ==> !Feed(p, a).0.app.closing
    ensures ClosesAtEnd(Feed(p, a).0, b)
  {
    assert b != [] ==> (a + b)[..|a|] == a;
    forall k | 0 <= k < |b| ensures !Feed(Feed(p, a).0, b[..k]).0.app.closing {
      assert (a + b)[..|a| + k] == a + b[..k];
      FeedSplit(p, a, b[..k]);
    }
  }

  lemma {:induction false} AnyBuffers(p: Parser, buffers: seq<seq<byte>>)
    requires p.Valid() && (forall i :: 0 <= i < |buffers| ==> buffers[i] != []) && ClosesAtEnd(p, Joined(buffers))
    ensures HandleAll(p, buffers) == Feed(p, Joined(buffers))
    decreases |buffers|
  {
    hide Feed;
    if buffers == [] {
      FeedNothing(p);
    } else {
      var a, b := buffers[0], Joined(buffers[1..]);
      assert Joined(buffers)[..0] == [];
      FeedNothing(p);
      assert !p.app.closing;
      FeedSplit(p, a, b);
      if Feed(p, a).1 {
        ClosesLater(p, a, b);
        AnyBuffers(Feed(p, a).0, buffers[1..]);
      }
    }
  }

  lemma FeedNothing(p: Parser)
    requires p.Valid()
    ensures Feed(p, []) == (p, true)
  {
  }

  /** A message that is refused has been handled, too. */
  lemma {:induction false} HandledGrows(p: Parser, data: seq<byte>)
    requires p.Valid()
    ensures var (q, ok) := Feed(p, data);
            |q.app.handled| >= |p.app.handled| && (!ok ==> |q.app.handled| > |p.app.handled|)
    decreases |data|
  {
    if data != [] {
      if p.remaining > 1 {
        HandledGrows(p.(msg := p.msg + [data[0]], remaining := p.remaining - 1), data[1..]);
      } else {
        FieldHandled(p, p.msg + [data[0]]);
        FieldDoneValid(p, p.msg + [data[0]]);
        hide FieldDone;
        var (q, ok) := FieldDone(p, p.msg + [data[0]]);
        if ok { HandledGrows(q, data[1..]); }
      }
    }
  }

  /** What a complete field does to the list of handled messages; and a refusal never closes the channel. */
  lemma FieldHandled(p: Parser, msg: seq<byte>)
    requires p.Valid() && |msg| == |p.msg| + p.remaining && p.msg <= msg
    ensures var (q, ok) := FieldDone(p, msg);
            && |q.app.handled| >= |p.app.handled| && (!ok ==> |q.app.handled| > |p.app.handled|)
            && (!ok && q.app.closing ==> p.app.closing)
  {
    hide VarSize, FixedSize;
  }

  /** A channel that is closed when a message is refused has been closed by an earlier one. */
  lemma {:induction false} ClosedBefore(p: Parser, data: seq<byte>) returns (k: nat)
    requires p.Valid() && !Feed(p, data).1 && Feed(p, data).0.app.closing
    ensures k < |data| && Feed(p, data[..k]).1 && Feed(p, data[..k]).0.app.closing
    decreases |data|
  {
    if p.app.closing {
      k := 0;
      assert data[..0] == [];
    } else {
      var next := if p.remaining > 1 then p.(msg := p.msg + [data[0]], remaining := p.remaining - 1)
                  else FieldDone(p, p.msg + [data[0]]).0;
      if p.remaining == 1 {
        FieldHandled(p, p.msg + [data[0]]);
        FieldDoneValid(p, p.msg + [data[0]]);
      }
      hide FieldDone;
      var j := ClosedBefore(next, data[1..]);
      k := j + 1;
      assert data[..k][0] == data[0] && data[..k][1..] == data[1..][..j];
    }
  }

  /**
   Wherever a close comes before the end of the stream, a cut right behind it makes a
   difference: what comes in the same buffer is handled, what comes in the next is not.
   */
  lemma CloseInTheMiddle(p: Parser, stream: seq<byte>, k: nat)
    requires p.Valid() && !p.app.closing && 0 < k < |stream|
    requires Feed(p, stream[..k]).1 && Feed(p, stream[..k]).0.app.closing
    ensures HandleAll(p, [stream[..k], stream[k..]]) == (Feed(p, stream[..k]).0, false)
    ensures HandleAll(p, [stream[..k], stream[k..]]) != HandleAll(p, [stream]) == Feed(p, stream)
  {
    var a, b := stream[..k], stream[k..];
    var q := Feed(p, a).0;
    assert stream == a + b;
    FeedSplit(p, a, b);
    HandledGrows(q, b);
    hide Feed;
    assert [a, b][1..] == [b] && [stream][1..] == [];
    assert HandleAll(q, [b]) == (q, false);
    var (r, ok) := Feed(p, stream);
    assert HandleAll(r, []) == (r, true);
  }

  /** After a close nothing is accepted, which is not what the stream would give on an open channel. */
  lemma AlreadyClosed(p: Parser, stream: seq<byte>)
    requires p.Valid() && p.app.closing && stream != []
    ensures HandleAll(p, [stream]) == (p, false) != Feed(p, stream)
  {
    HandledGrows(p, stream);
  }

  /** However the stream is cut into buffers, the parser handles the same messages and ends in the same state. */
  ghost predicate CutsAgree(p: Parser, stream: seq<byte>)
    requires p.Valid()
  {
    forall buffers :: Joined(buffers) == stream && [] !in buffers ==> HandleAll(p, buffers) == Feed(p, stream)
  }

  /** That is so exactly when the stream does not close the channel before its end. */
  lemma BuffersDoNotMatter(p: Parser, stream: seq<byte>)
    requires p.Valid()
    ensures CutsAgree(p, stream) <==> ClosesAtEnd(p, stream)
  {
    if ClosesAtEnd(p, stream) {
      forall buffers | Joined(buffers) == stream && [] !in buffers ensures HandleAll(p, buffers) == Feed(p, stream) {
        AnyBuffers(p, buffers);
      }
    } else {
      var k :| 0 <= k < |stream| && Feed(p, stream[..k]).0.app.closing;
      if !Feed(p, stream[..k]).1 {
        var j := ClosedBefore(p, stream[..k]);
        assert stream[..k][..j] == stream[..j];
        k := j;
      }
      CutsDisagree(p, stream, k);
    }
  }

  lemma CutsDisagree(p: Parser, stream: seq<byte>, k: nat)
    requires p.Valid() && k < |stream| && Feed(p, stream[..k]).1 && Feed(p, stream[..k]).0.app.closing
    ensures !CutsAgree(p, stream)
  {
    FeedNothing(p);
    if p.app.closing {
      AlreadyClosed(p, stream);
      JoinedOne(stream);
      hide *;
      Disagree(p, stream, [stream]);
    } else {
      assert stream[..0] == [] && k != 0;
      CloseInTheMiddle(p, stream, k);
      JoinedTwo(stream[..k], stream[k..]);
      hide *;
      assert stream[..k] + stream[k..] == stream;
      Disagree(p, stream, [stream[..k], stream[k..]]);
    }
  }

  lemma Disagree(p: Parser, stream: seq<byte>, buffers: seq<seq<byte>>)
    requires p.Valid() && Joined(buffers) == stream && [] !in buffers && HandleAll(p, buffers) != Feed(p, stream)
    ensures !CutsAgree(p, stream)
  {
    hide HandleAll, Feed, Joined;
  }

  lemma JoinedTwo(a: seq<byte>, b: seq<byte>)
    ensures Joined([a, b]) == a + b
  {
    JoinedOne(b);
    assert [a, b][1..] == [b];
  }

  lemma JoinedOne(s: seq<byte>)
    ensures Joined([s]) == s
  {
    assert [s][1..] == [] && s + [] == s;
  }

  /** A stream that begins with a close, on an idle parser. */
  lemma CloseComesFirst(app: App, more: seq<byte>)
    requires app.Valid() && !app.closing && more != []
    ensures var p := Idle(app); var q := Idle(MessageDone(app, [SOFT_CLOSE]).0);
            && q.app.closing
            && HandleAll(p, [[SOFT_CLOSE] + more]) == Feed(q, more)
            && HandleAll(p, [[SOFT_CLOSE], more]) == (q, false) != Feed(q, more)
  {
    var p, q := Idle(app), Idle(MessageDone(app, [SOFT_CLOSE]).0);
    FeedField(p, [SOFT_CLOSE]);
    assert [] + [SOFT_CLOSE] == [SOFT_CLOSE];
    assert Feed(p, [SOFT_CLOSE]) == (q, true);
    FeedSplit(p, [SOFT_CLOSE], more);
    hide Feed;
    var stream := [SOFT_CLOSE] + more;
    assert stream[..1] == [SOFT_CLOSE] && stream[1..] == more;
    CloseInTheMiddle(p, stream, 1);
  }

  // ------------------------------------------------------------ the messages

  /** A complete message; its length may depend on what earlier messages did. */
  predicate IsFrame(app: App, msg: seq<byte>) {
    && msg != [] && |msg| >= 1 + FixedSize(msg[0])
    && |msg| == 1 + FixedSize(msg[0]) + VarSize(app, msg) as nat
  }

  /** The size of the variable part only depends on the fixed one. */
  lemma VarSizeOfPrefix(app: App, msg: seq<byte>, n: nat)
    requires msg != [] && n <= |msg| && n >= 1 + FixedSize(msg[0])
    ensures VarSize(app, msg[..n]) == VarSize(app, msg)
  {
  }

  lemma FrameParsed(app: App, msg: seq<byte>)
    requires app.Valid() && IsFrame(app, msg)
    ensures Feed(Idle(app), msg) == (Idle(MessageDone(app, msg).0), MessageDone(app, msg).1)
  {
    var n := 1 + FixedSize(msg[0]);
    hide MessageDone, FixedSize, VarSize, Feed;
    VarSizeOfPrefix(app, msg, n);
    ArgsParsed(app, msg, n);
    FeedSplit(Idle(app), msg[..n], msg[n..]);
    assert msg[..n] + msg[n..] == msg;
    if |msg| == n {
      assert msg[..n] == msg && msg[n..] == [];
      FeedNothing(Idle(MessageDone(app, msg).0));
    } else {
      FeedField(Parser(app, WaitVarArgs, msg[..n], |msg| - n), msg[n..]);
    }
  }

  lemma ArgsParsed(app: App, msg: seq<byte>, n: nat)
    requires app.Valid() && msg != [] && n == 1 + FixedSize(msg[0]) <= |msg|
    ensures Feed(Idle(app), msg[..n]) == ArgsDone(app, msg[..n])
  {
    hide MessageDone, VarSize, FixedSize;
    FeedField(Idle(app), msg[..1]);
    assert [] + msg[..1] == msg[..1];
    if n > 1 {
      FeedSplit(Idle(app), msg[..1], msg[1..n]);
      assert msg[..1] + msg[1..n] == msg[..n];
      FeedField(Parser(app, WaitArgs, msg[..1], n - 1), msg[1..n]);
    }
  }

  /** The messages one after the other, until one is refused. */
  function HandleMessages(app: App, msgs: seq<seq<byte>>): (App, bool)
    requires app.Valid() && Framed(app, msgs)
    decreases |msgs|
  {
    if msgs == [] then (app, true)
    else
      MessageDoneValid(app, msgs[0]);
      var (next, ok) := MessageDone(app, msgs[0]);
      if ok then HandleMessages(next, msgs[1..]) else (next, false)
  }

  /** Each message has the length that it must have after the ones before it. */
  predicate Framed(app: App, msgs: seq<seq<byte>>)
    requires app.Valid()
    decreases |msgs|
  {
    msgs == []
    || (IsFrame(app, msgs[0])
        && (MessageDoneValid(app, msgs[0]);
            MessageDone(app, msgs[0]).1 ==> Framed(MessageDone(app, msgs[0]).0, msgs[1..])))
  }

  /** The parser finds exactly the messages that the stream is made of. */
  lemma {:induction false} MessagesParsed(app: App, msgs: seq<seq<byte>>)
    requires app.Valid() && Framed(app, msgs)
    ensures Feed(Idle(app), Joined(msgs)) == (Idle(HandleMessages(app, msgs).0), HandleMessages(app, msgs).1)
    decreases |msgs|
  {
    if msgs != [] {
      FrameParsed(app, msgs[0]);
      FeedSplit(Idle(app), msgs[0], Joined(msgs[1..]));
      MessageDoneValid(app, msgs[0]);
      hide MessageDone, IsFrame, Feed;
      if MessageDone(app, msgs[0]).1 { MessagesParsed(MessageDone(app, msgs[0]).0, msgs[1..]); }
    }
  }

  // --------------------------------------------- what the decoders take from a message

  /** A cue is as long as its decoder takes it to be, whatever has been configured. */
  lemma CueFitsMessage(app: App, msg: seq<byte>)
    requires app.Valid() && IsFrame(app, msg) && msg[0] == SEQUENCER_PUSH
    ensures |msg| == 3 + CueBytes(app.config.channels)
    ensures AllValid(app.config.channels) ==> CueFits(app.config.channels, msg[3..])
  {
    CueBytesBound(app.config.channels, |app.config.channels|);
  }

  lemma ManualCueFitsMessage(app: App, msg: seq<byte>)
    requires app.Valid() && IsFrame(app, msg) && msg[0] == SEQUENCER_CONTROL && msg[1] == SEQ_CMD_MANUAL_START
    ensures |msg| == 2 + CueBytes(app.config.channels)
    ensures AllValid(app.config.channels) ==> CueFits(app.config.channels, msg[2..])
  {
    CueBytesBound(app.config.channels, |app.config.channels|);
  }

  lemma {:induction false} CueBytesBound(channels: seq<Channel>, n: nat)
    requires n <= |channels|
    ensures Offset(channels, n) <= 5 * n
  {
    if n > 0 { CueBytesBound(channels, n - 1); }
  }

  /** The arguments of SPITransmit. */
  datatype SpiCall = SpiCall(spi: nat, dest: nat, data: seq<byte>, total: nat, trim: byte)

  /** One when the data size is in the message, and when the response size is. */
  function DataSizeGiven(msg: seq<byte>): nat
    requires |msg| >= 3
  {
    msg[2] / 128
  }

  function ResSizeGiven(msg: seq<byte>): nat
    requires |msg| >= 3
  {
    msg[2] / 64 % 2
  }

  function SpiTotal(msg: seq<byte>): nat
    requires |msg| >= 3
  {
    msg[2] % 64 + 1
  }

  function SpiDataSize(msg: seq<byte>): nat
    requires |msg| >= 4
  {
    if DataSizeGiven(msg) == 1 then msg[3] else SpiTotal(msg)
  }

  /** Where the data starts, behind the sizes that are given. */
  function SpiDataAt(msg: seq<byte>): nat
    requires |msg| >= 4
  {
    3 + DataSizeGiven(msg) + ResSizeGiven(msg)
  }

  function SpiResSize(msg: seq<byte>): nat
    requires |msg| >= 4 && |msg| >= SpiDataAt(msg)
  {
    if ResSizeGiven(msg) == 1 then msg[3 + DataSizeGiven(msg)] else SpiTotal(msg)
  }

  /** The message ends where the decoder stops reading, unless its size does not fit a byte. */
  lemma SpiUsesTheMessage(app: App, msg: seq<byte>)
    requires IsFrame(app, msg) && msg[0] == SPI_MASTER_REQUEST
    ensures |msg| >= 4
    ensures |msg| == SpiDataAt(msg) + SpiDataSize(msg)
       <==> !(DataSizeGiven(msg) == 1 && ResSizeGiven(msg) == 1 && msg[3] == 0xFF)
  {
    assert FixedSize(msg[0]) == 3;
  }

  /** The call made for a request whose message is complete. */
  function SpiDecode(msg: seq<byte>): (c: SpiCall)
    requires |msg| >= 4 && |msg| >= SpiDataAt(msg) + SpiDataSize(msg)
  {
    SpiCall(msg[1] / 64, msg[1] % 64, msg[SpiDataAt(msg)..SpiDataAt(msg) + SpiDataSize(msg)], SpiTotal(msg),
            Spi.Minus(SpiTotal(msg), SpiResSize(msg)))
  }

  /** The request that the SPI module gets is one that it can serve exactly when neither size exceeds the total. */
  lemma SpiCallWellSized(msg: seq<byte>)
    requires |msg| >= 4 && |msg| >= SpiDataAt(msg) + SpiDataSize(msg) && |SpiDecode(msg).data| < 0x100
    ensures var c := SpiDecode(msg);
            && 1 <= c.total <= 64
            && (Spi.WellSized(Spi.Request(c.dest, c.data, c.total, c.trim))
                <==> SpiDataSize(msg) <= SpiTotal(msg) && SpiResSize(msg) <= SpiTotal(msg))
            && (SpiResSize(msg) <= SpiTotal(msg) ==> c.total - c.trim as nat == SpiResSize(msg))
  {
  }
}
