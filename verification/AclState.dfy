/**
 The connections of libbtstack hci.c with their recombination buffers, and the
 handler of incoming packets, proved against module Acl.
 */
module AclState {
  import opened Bytes
  import opened Acl

  const CAPACITY := 4 + 4 + 252

  class Connection {
    const handle: nat
    const recombinationBuffer: array<byte>
    var pos: nat
    var length: half

    ghost predicate Valid()
      reads this
    {
      recombinationBuffer.Length == CAPACITY && pos <= CAPACITY
    }

    ghost function Abs(): Conn
      requires Valid()
      reads this, recombinationBuffer
    {
      Conn(recombinationBuffer[..pos], length)
    }

    constructor (handle: nat)
      ensures Valid() && Abs() == Empty && this.handle == handle && fresh(recombinationBuffer)
    {
      this.handle := handle;
      recombinationBuffer := new byte[CAPACITY](_ => 0);
      pos, length := 0, 0;
    }

    /** What the packet adds fits in the buffer. */
    ghost predicate RoomFor(p: Incoming)
      reads this
    {
      if pos != 0 then pos + |Payload(p)| <= CAPACITY else |p.bytes| <= CAPACITY
    }

    method CopyIn(data: seq<byte>)
      requires Valid() && pos + |data| <= CAPACITY
      modifies this`pos, recombinationBuffer
      ensures Valid() && Abs() == old(Abs()).(buffer := old(Abs()).buffer + data)
    {
      forall i | 0 <= i < |data| {
        recombinationBuffer[pos + i] := data[i];
      }
      pos := pos + |data|;
    }

    method ContinuationFragment(p: Incoming) returns (out: seq<seq<byte>>)
      requires Valid() && RoomFor(p)
      modifies this, recombinationBuffer
      ensures Valid() && (Abs(), out) == Continuation(old(Abs()), p)
    {
      out := [];
      if pos != 0 {
        CopyIn(Payload(p));
        if pos >= Low16(length + 8) {
          out := [recombinationBuffer[..pos]];
          pos, length := 0, 0;
        }
      }
    }

    method StoreFirst(p: Incoming)
      requires Valid() && 4 <= |p.bytes| <= CAPACITY && pos == 0
      modifies this, recombinationBuffer
      ensures Valid() && Abs() == Conn(Stored(p), PeekedLength(p))
    {
      CopyIn(p.bytes);
      length := PeekedLength(p);
      var announced := ToLe16(Low16(length + 4));
      recombinationBuffer[2], recombinationBuffer[3] := announced[0], announced[1];
      assert recombinationBuffer[..pos] == Stored(p);
    }

    method FirstFragmentReceived(p: Incoming) returns (out: seq<seq<byte>>)
      requires Valid() && 4 <= |p.bytes| && RoomFor(p)
      modifies this, recombinationBuffer
      ensures Valid() && (Abs(), out) == FirstFragment(old(Abs()), p)
    {
      out := [];
      if pos == 0 {
        if Length(p) >= Low16(PeekedLength(p) + 4) {
          out := [p.bytes];
        } else {
          StoreFirst(p);
        }
      }
    }

    /** The part of acl_handler behind the search for the connection. */
    method PacketReceived(p: Incoming) returns (out: seq<seq<byte>>)
      requires Valid() && RoomFor(p)
      modifies this, recombinationBuffer
      ensures Valid() && (Abs(), out) == Receive(old(Abs()), p)
    {
      out := [];
      if Low16(Length(p) + 4) == |p.bytes| && |p.bytes| >= 4 {
        if Flags(p) == CONTINUATION {
          out := ContinuationFragment(p);
        } else if Flags(p) == FIRST {
          out := FirstFragmentReceived(p);
        }
      }
    }
  }

  predicate Distinct(handles: seq<nat>) {
    forall i, j :: 0 <= i < j < |handles| ==> handles[i] != handles[j]
  }

  function Table(handles: seq<nat>, states: seq<Conn>): map<nat, Conn>
    requires |handles| == |states| && Distinct(handles)
  {
    map i | 0 <= i < |handles| :: handles[i] := states[i]
  }

  lemma TableUpdate(handles: seq<nat>, states: seq<Conn>, i: nat, c: Conn)
    requires |handles| == |states| && Distinct(handles) && i < |handles|
    ensures Table(handles, states)[handles[i] := c] == Table(handles, states[i := c])
    ensures Table(handles, states)[handles[i]] == states[i]
  {
    var a, b := Table(handles, states)[handles[i] := c], Table(handles, states[i := c]);
    assert forall x :: x in a <==> x in b;
    assert forall x :: x in a ==> a[x] == b[x];
  }

  lemma HandlerOnTable(handles: seq<nat>, states: seq<Conn>, forwarded: seq<seq<byte>>, i: nat, p: Incoming)
    requires |handles| == |states| && Distinct(handles) && i < |handles| && handles[i] == Handle(p)
    ensures var r := Receive(states[i], p);
            Acl.AclHandler(Hci(Table(handles, states), forwarded), p)
            == Hci(Table(handles, states[i := r.0]), forwarded + r.1)
  {
    hide Receive, Handle;
    TableUpdate(handles, states, i, Receive(states[i], p).0);
  }

  class Stack {
    const connections: seq<Connection>

    ghost var forwarded: seq<seq<byte>>

    ghost predicate Valid()
      reads this, connections
    {
      && (forall c :: c in connections ==> c.Valid())
      && forall i, j :: 0 <= i < j < |connections| ==>
           && connections[i].handle != connections[j].handle
           && connections[i].recombinationBuffer != connections[j].recombinationBuffer
    }

    ghost function Buffers(): set<object> {
      set c | c in connections :: c.recombinationBuffer
    }

    function Handles(): (h: seq<nat>)
      ensures |h| == |connections| && forall i :: 0 <= i < |h| ==> h[i] == connections[i].handle
    {
      seq(|connections|, i requires 0 <= i < |connections| => connections[i].handle)
    }

    ghost function States(): (s: seq<Conn>)
      requires Valid()
      reads this, connections, Buffers()
      ensures |s| == |connections| && forall i :: 0 <= i < |s| ==> s[i] == connections[i].Abs()
    {
      seq(|connections|, i requires 0 <= i < |connections| && Valid() reads this, connections, Buffers() =>
        connections[i].Abs())
    }

    ghost function Abs(): Hci
      requires Valid()
      reads this, connections, Buffers()
    {
      Hci(Table(Handles(), States()), forwarded)
    }

    constructor (connections: seq<Connection>)
      requires forall c :: c in connections ==> c.Valid()
      requires forall i, j :: 0 <= i < j < |connections| ==>
                 && connections[i].handle != connections[j].handle
                 && connections[i].recombinationBuffer != connections[j].recombinationBuffer
      ensures Valid() && this.connections == connections && forwarded == []
    {
      this.connections, forwarded := connections, [];
    }

    method HciConnectionForHandle(handle: nat) returns (i: nat)
      requires Valid()
      ensures i <= |connections| && (i < |connections| ==> connections[i].handle == handle)
      ensures i == |connections| ==> handle !in Abs().conns
    {
      i := 0;
      while i < |connections| && connections[i].handle != handle
        invariant i <= |connections| && forall k :: 0 <= k < i ==> connections[k].handle != handle
      {
        i := i + 1;
      }
    }

    /** The i-th connection receives a packet, and no other changes. */
    method Deliver(i: nat, p: Incoming) returns (out: seq<seq<byte>>)
      requires Valid() && i < |connections| && connections[i].RoomFor(p)
      modifies connections[i], connections[i].recombinationBuffer
      ensures Valid() && out == Receive(old(connections[i].Abs()), p).1
      ensures States() == old(States())[i := Receive(old(connections[i].Abs()), p).0]
    {
      hide Receive;
      assert forall k :: 0 <= k < |connections| && k != i ==>
          connections[k] != connections[i] && connections[k].recombinationBuffer != connections[i].recombinationBuffer;
      out := connections[i].PacketReceived(p);
    }

    method AclHandler(p: Incoming)
      requires Valid() && forall c :: c in connections && c.handle == Handle(p) ==> c.RoomFor(p)
      modifies this, connections, Buffers()
      ensures Valid() && Abs() == Acl.AclHandler(old(Abs()), p)
    {
      hide Receive, Handle, Table;
      ghost var handles, states, before := Handles(), States(), forwarded;
      var i := HciConnectionForHandle(Handle(p));
      if i < |connections| {
        HandlerOnTable(handles, states, before, i, p);
        var out := Deliver(i, p);
        forwarded := forwarded + out;
        hide *;
        assert Handles() == handles && States() == states[i := Receive(states[i], p).0];
      }
    }
  }
}
