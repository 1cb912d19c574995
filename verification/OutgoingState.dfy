/**
 The sending state of app_layer_v1/protocol.c over the ring buffer, proved against
 module Outgoing. The connection reads the ring itself, so pushes must not touch
 the stretch that it has been given.
 */
module OutgoingState {
  import opened Bytes
  import opened ByteQueue
  import opened Outgoing

  class Sender {
    const txQueue: Queue
    var bytesOut: nat
    var maxPacket: nat
    var state: State

    ghost var busy: bool
    ghost var pushed: seq<byte>
    ghost var pulled: seq<byte>
    ghost var packets: seq<seq<byte>>
    ghost var overflow: bool
    ghost var closes: nat

    ghost predicate Valid()
      reads this, txQueue
    {
      txQueue.Valid() && bytesOut <= txQueue.size && (bytesOut > 0 ==> txQueue.readCursor + bytesOut <= txQueue.buf.Length)
    }

    ghost function Abs(): Stream
      requires txQueue.Valid()
      reads this, txQueue, txQueue.buf
    {
      Stream(state, txQueue.Contents(), bytesOut, maxPacket, busy, pushed, pulled, packets, overflow, closes)
    }

    /** The cells that the connection has been told to read. */
    ghost function Stretch(): seq<byte>
      requires Valid()
      reads this, txQueue, txQueue.buf
    {
      if bytesOut == 0 then [] else txQueue.buf[txQueue.readCursor..txQueue.readCursor + bytesOut]
    }

    lemma StretchIsHead()
      requires Valid()
      ensures Stretch() == txQueue.Contents()[..bytesOut]
    {
      RingSplit(txQueue.buf[..], txQueue.readCursor, bytesOut, txQueue.size);
      if bytesOut > 0 { RingSlices(txQueue.buf[..], txQueue.readCursor, bytesOut); }
    }

    /** AppProtocolInit */
    constructor (capacity: nat, maxPacket: nat)
      requires capacity > 0
      ensures Valid() && fresh(txQueue) && fresh(txQueue.buf) && txQueue.buf.Length == capacity
      ensures Abs() == Opened(maxPacket)
    {
      txQueue := new Queue(capacity);
      bytesOut, this.maxPacket, state := 0, maxPacket, Open;
      busy, pushed, pulled, packets, overflow, closes := false, [], [], [], false, 0;
    }

    method PushPiece(data: seq<byte>)
      requires Valid()
      modifies this`pushed, this`overflow, txQueue, txQueue.buf
      ensures Valid() && Abs() == Push(old(Abs()), txQueue.buf.Length, data)
      ensures Stretch() == old(Stretch())
    {
      StretchIsHead();
      ghost var head := txQueue.Contents()[..bytesOut];
      var dropped := txQueue.ByteQueuePushBuffer(data);
      if dropped { overflow := true; } else { pushed := pushed + data; }
      assert txQueue.Contents()[..bytesOut] == head;
      StretchIsHead();
    }

    /** A message, and the one or two pieces of its variable part. */
    method AppProtocolSendMessageWithVarArgSplit(msg: seq<byte>, data1: seq<byte>, data2: seq<byte>)
      requires Valid()
      modifies this`pushed, this`overflow, txQueue, txQueue.buf
      ensures Valid() && Abs() == Send(old(Abs()), txQueue.buf.Length, [msg, data1, data2])
      ensures Stretch() == old(Stretch())
    {
      if state != Open { return; }
      ghost var s, n := Abs(), txQueue.buf.Length;
      PushPiece(msg);
      PushPiece(data1);
      PushPiece(data2);
      SendThree(s, n, msg, data1, data2);
    }

    method AppProtocolSendMessage(msg: seq<byte>)
      requires Valid()
      modifies this`pushed, this`overflow, txQueue, txQueue.buf
      ensures Valid() && Abs() == Send(old(Abs()), txQueue.buf.Length, [msg])
      ensures Stretch() == old(Stretch())
    {
      if state != Open { return; }
      ghost var s, n := Abs(), txQueue.buf.Length;
      PushPiece(msg);
      assert [msg][1..] == [] && Send(Push(s, n, msg), n, []) == Push(s, n, msg);
    }

    method SoftCloseReceived(echo: seq<byte>)
      requires Valid()
      modifies this`pushed, this`overflow, this`state, txQueue, txQueue.buf
      ensures Valid() && Abs() == SoftClose(old(Abs()), txQueue.buf.Length, echo)
    {
      if state != Open { return; }
      AppProtocolSendMessage(echo);
      state := Closing;
    }

    /** The part of AppProtocolTasks that concerns the channel; `packet` is what is handed to the connection. */
    method AppProtocolTasks(canSend: bool) returns (closed: bool, packet: seq<byte>, ghost stretch: nat)
      requires Valid()
      modifies this, txQueue
      ensures Valid() && Enabled(old(Abs()).(busy := false), Turn(canSend, stretch))
      ensures Abs() == Tasks(old(Abs()), canSend, stretch)
      ensures closed <==> old(state) == Closing && state == Closed
      ensures packet != [] ==> packet == Stretch()
    {
      closed, packet := false, [];
      stretch := |txQueue.Contents()| - bytesOut;
      if state == Closed { return; }
      if state == Closing && txQueue.size == 0 {
        closed, state, closes := true, Closed, closes + 1;
        return;
      }
      if canSend {
        ReleaseSent();
        packet, stretch := SendNext();
      }
    }

    /** Hands the next stretch of the queue to the connection. */
    method SendNext() returns (packet: seq<byte>, ghost stretch: nat)
      requires Valid() && bytesOut == 0
      modifies this`bytesOut, this`packets, this`busy
      ensures Valid() && stretch <= |txQueue.Contents()| && (stretch == 0 ==> txQueue.Contents() == [])
      ensures Abs() == SendStretch(old(Abs()), stretch)
      ensures packet != [] ==> packet == Stretch()
    {
      hide Ring;
      packet := [];
      var offset, length := txQueue.ByteQueuePeek();
      stretch, bytesOut := length, length;
      if bytesOut > 0 {
        if bytesOut > maxPacket { bytesOut := maxPacket; }
        packet := txQueue.buf[offset..offset + bytesOut];
        packets, busy := packets + [packet], true;
        assert packet == txQueue.buf[offset..offset + length][..bytesOut];
        assert txQueue.Contents()[..length][..bytesOut] == txQueue.Contents()[..bytesOut];
      }
    }

    method ReleaseSent()
      requires Valid()
      modifies this`bytesOut, this`pulled, txQueue
      ensures Valid() && bytesOut == 0
      ensures Abs() == Release(old(Abs()))
    {
      if bytesOut > 0 {
        pulled := pulled + txQueue.Contents()[..bytesOut];
        txQueue.ByteQueuePull(bytesOut);
        bytesOut := 0;
      } else {
        assert pulled + txQueue.Contents()[..0] == pulled && txQueue.Contents()[0..] == txQueue.Contents();
      }
    }
  }

  lemma {:induction false} SendThree(s: Stream, capacity: nat, a: seq<byte>, b: seq<byte>, c: seq<byte>)
    requires s.state == Open
    ensures Send(s, capacity, [a, b, c]) == Push(Push(Push(s, capacity, a), capacity, b), capacity, c)
  {
    var t := Push(s, capacity, a);
    var u := Push(t, capacity, b);
    assert [a, b, c][1..] == [b, c] && [b, c][1..] == [c] && [c][1..] == [];
    assert Send(u, capacity, [c]) == Push(u, capacity, c);
    assert Send(t, capacity, [b, c]) == Send(u, capacity, [c]);
  }
}
