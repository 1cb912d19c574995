/**
 The receiving state of app_layer_v1/protocol.c: a message buffer that is filled
 field by field, in chunks as large as the input allows, proved against the
 parser of module AppProtocol.
 */
module AppProtocolState {
  import opened Bytes
  import opened Sequencer
  import opened AppProtocol
  import SequencerState

  /** Types are in the table and messages fit the buffer; the source relies on it. */
  ghost predicate InBounds(p: Parser, data: seq<byte>)
    requires p.Valid()
  {
    forall k :: 0 <= k <= |data| ==> BoundedAt(p, data, k)
  }

  predicate BoundedAt(p: Parser, data: seq<byte>, k: nat)
    requires p.Valid() && k <= |data|
  {
    var (q, ok) := Feed(p, data[..k]);
    && |q.msg| + q.remaining <= RX_MSG_SIZE
    && (ok && k < |data| && q.rx == WaitType ==> data[k] < MESSAGE_TYPE_LIMIT)
  }

  lemma BoundedLater(p: Parser, a: seq<byte>, b: seq<byte>, k: nat)
    requires p.Valid() && k <= |b| && Feed(p, a).1 && BoundedAt(p, a + b, |a| + k)
    ensures BoundedAt(Feed(p, a).0, b, k)
  {
    hide Feed;
    FeedSplit(p, a, b[..k]);
    assert (a + b)[..|a| + k] == a + b[..k];
    assert k < |b| ==> (a + b)[|a| + k] == b[k];
  }

  lemma InBoundsLater(p: Parser, data: seq<byte>, n: nat)
    requires p.Valid() && n <= |data| && InBounds(p, data) && Feed(p, data[..n]).1
    ensures InBounds(Feed(p, data[..n]).0, data[n..])
  {
    hide Feed, BoundedAt;
    var q := Feed(p, data[..n]).0;
    assert data == data[..n] + data[n..];
    forall k | 0 <= k <= |data| - n ensures BoundedAt(q, data[n..], k) {
      assert BoundedAt(p, data, n + k);
      BoundedLater(p, data[..n], data[n..], k);
    }
  }

  lemma InBoundsNow(p: Parser, data: seq<byte>)
    requires p.Valid() && InBounds(p, data)
    ensures |p.msg| + p.remaining <= RX_MSG_SIZE
  {
    assert BoundedAt(p, data, 0) && data[..0] == [];
    FeedNothing(p);
  }

  class Receiver {
    const rxMsg: array<byte>
    var rxBufferCursor: nat
    var rxMessageRemaining: nat
    var rxMessageState: RxState
    const sequencer: SequencerState.State
    var closing: bool

    /** What the checks and peripherals will answer. */
    var verdicts: seq<bool>
    ghost var handled: seq<seq<byte>>

    ghost predicate Valid()
      reads this, rxMsg, sequencer, sequencer.channelSettings
    {
      && rxMsg.Length == RX_MSG_SIZE && rxBufferCursor <= RX_MSG_SIZE && sequencer.Valid() && Abs().Valid()
    }

    ghost function AppState(): App
      requires sequencer.numActiveChannels <= sequencer.channelSettings.Length
      reads this, sequencer, sequencer.channelSettings
    {
      App(sequencer.board, sequencer.open, sequencer.Abs(), closing, verdicts, handled)
    }

    ghost function Abs(): Parser
      requires rxBufferCursor <= rxMsg.Length && sequencer.numActiveChannels <= sequencer.channelSettings.Length
      reads this, rxMsg, sequencer, sequencer.channelSettings
    {
      Parser(AppState(), rxMessageState, rxMsg[..rxBufferCursor], rxMessageRemaining)
    }

    /** AppProtocolInit; the verdicts are the future's. */
    constructor (sequencer: SequencerState.State, verdicts: seq<bool>)
      requires sequencer.Valid()
      ensures Valid() && fresh(rxMsg) && this.sequencer == sequencer && Abs() == Idle(AppState()) && !closing
      ensures AppState() == App(sequencer.board, sequencer.open, sequencer.Abs(), false, verdicts, [])
    {
      rxMsg := new byte[RX_MSG_SIZE](_ => 0);
      rxBufferCursor, rxMessageRemaining, rxMessageState := 0, 1, WaitType;
      this.sequencer, closing := sequencer, false;
      this.verdicts, this.handled := verdicts, [];
    }

    method HandleMessage(msg: seq<byte>) returns (ok: bool)
      requires sequencer.Valid() && msg != [] && |msg| >= 1 + FixedSize(msg[0])
      modifies this`closing, this`verdicts, this`handled, sequencer, sequencer.channelSettings
      ensures sequencer.Valid() && (AppState(), ok) == MessageDone(old(AppState()), msg)
    {
      var verdict := verdicts == [] || verdicts[0];
      handled := handled + [msg];
      verdicts := if verdicts == [] then [] else verdicts[1..];
      if msg[0] == SOFT_RESET {
        sequencer.SequencerKill();
        ok := true;
      } else if msg[0] == SOFT_CLOSE {
        closing := true;
        ok := true;
      } else if msg[0] == SEQUENCER_CONFIGURE {
        if msg[1] == 0 {
          ok := sequencer.SequencerClose();
        } else {
          ok := sequencer.SequencerOpen(msg[2..]);
        }
      } else {
        ok := verdict;
      }
    }

    /** Copies as much as the current field still needs, if there is so much. */
    method CopyChunk(data: seq<byte>) returns (n: nat)
      requires Valid() && data != [] && rxBufferCursor + rxMessageRemaining <= RX_MSG_SIZE
      modifies this`rxBufferCursor, this`rxMessageRemaining, rxMsg
      ensures n == (if |data| < old(rxMessageRemaining) then |data| else old(rxMessageRemaining))
      ensures rxBufferCursor == old(rxBufferCursor) + n <= RX_MSG_SIZE && rxMessageRemaining == old(rxMessageRemaining) - n
      ensures rxMsg[..rxBufferCursor] == old(rxMsg[..rxBufferCursor]) + data[..n]
    {
      n := if |data| < rxMessageRemaining then |data| else rxMessageRemaining;
      forall i | 0 <= i < n { rxMsg[rxBufferCursor + i] := data[i]; }
      rxBufferCursor := rxBufferCursor + n;
      rxMessageRemaining := rxMessageRemaining - n;
    }

    /** The switch on the receive state, with its fall-throughs. */
    method NextField(ghost p: Parser) returns (ok: bool)
      requires rxMsg.Length == RX_MSG_SIZE && rxBufferCursor <= RX_MSG_SIZE && sequencer.Valid()
      requires p.Valid() && p.rx == rxMessageState && p.app == AppState()
      requires rxBufferCursor == |p.msg| + p.remaining && p.msg <= rxMsg[..rxBufferCursor] && rxMessageRemaining == 0
      modifies this, sequencer, sequencer.channelSettings
      ensures Valid() && (Abs(), ok) == FieldDone(p, old(rxMsg[..rxBufferCursor]))
    {
      hide Configure, MessageDone;
      FieldDoneValid(p, rxMsg[..rxBufferCursor]);
      var msg := rxMsg[..rxBufferCursor];
      if rxMessageState == WaitType {
        rxMessageState := WaitArgs;
        rxMessageRemaining := FixedSize(msg[0]);
        if rxMessageRemaining > 0 { return true; }
      }
      if rxMessageState == WaitArgs {
        rxMessageState := WaitVarArgs;
        rxMessageRemaining := VarSize(App(sequencer.board, sequencer.open, sequencer.Abs(), closing, verdicts, []), msg);
        if rxMessageRemaining > 0 { return true; }
      }
      rxMessageState, rxMessageRemaining, rxBufferCursor := WaitType, 1, 0;
      ok := HandleMessage(msg);
      assert rxMsg[..0] == [];
    }

    method AppProtocolHandleIncoming(data: seq<byte>) returns (ok: bool)
      requires Valid() && InBounds(Abs(), data)
      modifies this, rxMsg, sequencer, sequencer.channelSettings
      ensures Valid() && (Abs(), ok) == HandleIncoming(old(Abs()), data)
    {
      hide Feed, FieldDone, MessageDone, VarSize, FixedSize, BoundedAt, Consistent;
      if closing { return false; }
      ghost var start := Abs();
      var at := 0;
      assert data[..0] == [] && data[0..] == data;
      FeedNothing(start);
      while at < |data|
        invariant 0 <= at <= |data| && Valid()
        invariant Feed(start, data[..at]) == (Abs(), true) && InBounds(Abs(), data[at..])
      {
        ghost var p, rest := Abs(), data[at..];
        InBoundsNow(p, rest);
        var n := CopyChunk(data[at..]);
        FeedField(p, rest[..n]);
        FeedSplit(start, data[..at], rest[..n]);
        assert data[..at + n] == data[..at] + rest[..n];
        if rxMessageRemaining == 0 {
          var done := NextField(p);
          if !done {
            FeedSplit(start, data[..at + n], data[at + n..]);
            assert data[..at + n] + data[at + n..] == data;
            return false;
          }
        }
        InBoundsLater(p, rest, n);
        assert rest[n..] == data[at + n..];
        at := at + n;
      }
      assert data[..at] == data;
      return true;
    }
  }
}
