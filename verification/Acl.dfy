/**
 Recombination of L2CAP packets from the fragments that the Bluetooth controller
 delivers (libbtstack hci.c). A fragment has a header of four bytes: a connection
 handle with flags, and the length of what follows; the first two bytes of an L2CAP
 packet announce its length. Section 7.2 of Bluetooth Core 4.0, volume 3, part A.
 */
module Acl {
  import opened Bytes

  const CONTINUATION := 1
  const FIRST := 2

  /**
   A received packet and what lies behind it in the buffer of the transport, which
   has room for both headers.
   */
  type Incoming = p: Raw | |p.Memory()| >= 6 witness Raw([0, 0, 0, 0], [0, 0])

  datatype Raw = Raw(bytes: seq<byte>, behind: seq<byte>) {
    function Memory(): seq<byte> { bytes + behind }
  }

  function Handle(p: Incoming): nat {
    HandleIn(p.Memory())
  }

  function Flags(p: Incoming): nat {
    p.Memory()[1] / 16 % 4
  }

  function Length(p: Incoming): half {
    Le16(p.Memory(), 2)
  }

  function Payload(p: Incoming): seq<byte> {
    if |p.bytes| >= 4 then p.bytes[4..] else []
  }

  /** READ_L2CAP_LENGTH, which does not ask whether the packet is that long. */
  function PeekedLength(p: Incoming): half {
    Le16(p.Memory(), 4)
  }

  function Le16(b: seq<byte>, at: nat): half
    requires at + 2 <= |b|
  {
    Be16(b[at + 1], b[at])
  }

  function ToLe16(n: half): (b: seq<byte>)
    ensures |b| == 2 && Le16(b, 0) == n
  {
    [n % 0x100, n / 0x100]
  }

  function HandleIn(b: seq<byte>): nat
    requires |b| >= 2
  {
    Le16(b, 0) % 0x1000
  }

  function Low16(n: nat): half {
    n % 0x1_0000
  }

  /** What is stored of an incomplete packet, and the length that its L2CAP header announced. */
  datatype Conn = Conn(buffer: seq<byte>, length: half)

  const Empty := Conn([], 0)

  function Stored(p: Incoming): seq<byte>
    requires |p.bytes| >= 4
  {
    p.bytes[..2] + ToLe16(Low16(PeekedLength(p) + 4)) + p.bytes[4..]
  }

  function FirstFragment(c: Conn, p: Incoming): (Conn, seq<seq<byte>>)
    requires |p.bytes| >= 4
  {
    if c.buffer != [] then (c, [])
    else if Length(p) >= Low16(PeekedLength(p) + 4) then (c, [p.bytes])
    else (Conn(Stored(p), PeekedLength(p)), [])
  }

  function Continuation(c: Conn, p: Incoming): (Conn, seq<seq<byte>>) {
    if c.buffer == [] then (c, [])
    else
      var all := c.buffer + Payload(p);
      if |all| >= Low16(c.length + 8) then (Empty, [all]) else (c.(buffer := all), [])
  }

  /** What acl_handler does for the connection of the packet: the new state and what it forwards. */
  function Receive(c: Conn, p: Incoming): (r: (Conn, seq<seq<byte>>))
  {
    if Low16(Length(p) + 4) != |p.bytes| || |p.bytes| < 4 then (c, [])
    else if Flags(p) == CONTINUATION then Continuation(c, p)
    else if Flags(p) == FIRST then FirstFragment(c, p)
    else (c, [])
  }

  function ReceiveAll(c: Conn, packets: seq<Incoming>): (r: (Conn, seq<seq<byte>>))
    decreases |packets|
  {
    if packets == [] then (c, [])
    else
      var r := Receive(c, packets[0]);
      var s := ReceiveAll(r.0, packets[1..]);
      (s.0, r.1 + s.1)
  }

  lemma NothingYet(c: Conn, packets: seq<Incoming>)
    requires packets != [] && Receive(c, packets[0]).1 == []
    ensures ReceiveAll(c, packets) == ReceiveAll(Receive(c, packets[0]).0, packets[1..])
  {
    var s := ReceiveAll(Receive(c, packets[0]).0, packets[1..]);
    assert [] + s.1 == s.1;
  }

  lemma NothingMore(c: Conn, packets: seq<Incoming>)
    requires packets != [] && ReceiveAll(Receive(c, packets[0]).0, packets[1..]).1 == []
    ensures ReceiveAll(c, packets).1 == Receive(c, packets[0]).1
    ensures ReceiveAll(c, packets).0 == ReceiveAll(Receive(c, packets[0]).0, packets[1..]).0
  {
    var out := Receive(c, packets[0]).1;
    assert out + [] == out;
  }

  // ------------------------------------------------------------ one L2CAP packet

  /** An L2CAP packet: its length, a channel, and that many bytes. */
  predicate IsPacket(packet: seq<byte>) {
    4 <= |packet| < 0x1_0000 - 4 && Le16(packet, 0) == |packet| - 4
  }

  predicate IsFragment(p: Incoming, handle: nat, flags: nat) {
    4 <= |p.bytes| == Length(p) + 4 < 0x1_0000 && Handle(p) == handle && Flags(p) == flags
  }

  /** A fragment as the controller lays it out; the two highest bits are for broadcasts. */
  function FragmentBytes(handle: nat, flags: nat, broadcast: nat, payload: seq<byte>): seq<byte>
    requires handle < 0x1000 && flags < 4 && broadcast < 4 && |payload| < 0x1_0000
  {
    [handle % 0x100, handle / 0x100 + 16 * flags + 64 * broadcast, |payload| % 0x100, |payload| / 0x100] + payload
  }

  lemma SecondByte(high: nat, flags: nat, broadcast: nat)
    requires high < 16 && flags < 4 && broadcast < 4
    ensures var b := high + 16 * flags + 64 * broadcast; b < 256 && b / 16 % 4 == flags && b % 16 == high
  {
  }

  /** So laid out, it is taken for a fragment of its handle, with its flags and its content. */
  lemma FragmentRead(handle: nat, flags: nat, broadcast: nat, payload: seq<byte>, p: Incoming)
    requires handle < 0x1000 && flags < 4 && broadcast < 4 && |payload| + 4 < 0x1_0000
    requires p.bytes == FragmentBytes(handle, flags, broadcast, payload)
    ensures IsFragment(p, handle, flags) && Payload(p) == payload
  {
    var low, high := handle % 0x100, handle / 0x100;
    var b := high + 16 * flags + 64 * broadcast;
    SecondByte(high, flags, broadcast);
    var m := p.Memory();
    assert m[0] == low && m[1] == b && m[2] == |payload| % 0x100 && m[3] == |payload| / 0x100;
    assert (0x100 * b + low) % 0x1000 == 0x100 * (b % 16) + low;
  }

  lemma FragmentReceived(c: Conn, p: Incoming, handle: nat, flags: nat)
    requires IsFragment(p, handle, flags)
    ensures flags == CONTINUATION ==> Receive(c, p) == Continuation(c, p)
    ensures flags == FIRST ==> Receive(c, p) == FirstFragment(c, p)
  {
  }

  function Payloads(fragments: seq<Incoming>): seq<byte> {
    if fragments == [] then [] else Payload(fragments[0]) + Payloads(fragments[1..])
  }

  /** A first fragment and continuation fragments that together carry the packet. */
  predicate Fragmented(fragments: seq<Incoming>, handle: nat, packet: seq<byte>) {
    && fragments != [] && IsFragment(fragments[0], handle, FIRST)
    && (forall p :: p in fragments[1..] ==> IsFragment(p, handle, CONTINUATION))
    && Payloads(fragments) == packet && IsPacket(packet)
  }

  /** The packet as it looks when the controller does not cut it. */
  function Uncut(first: Incoming, packet: seq<byte>): seq<byte>
    requires |first.bytes| >= 2 && |packet| < 0x1_0000
  {
    first.bytes[..2] + ToLe16(|packet|) + packet
  }

  lemma {:induction false} NothingToContinue(fragments: seq<Incoming>, handle: nat)
    requires forall p :: p in fragments ==> IsFragment(p, handle, CONTINUATION)
    ensures ReceiveAll(Empty, fragments) == (Empty, [])
    decreases |fragments|
  {
    hide Receive;
    if fragments != [] {
      FragmentReceived(Empty, fragments[0], handle, CONTINUATION);
      NothingToContinue(fragments[1..], handle);
      NothingYet(Empty, fragments);
    }
  }

  /** Stored bytes and the rest of the packet. */
  lemma {:induction false} RestArrives(c: Conn, fragments: seq<Incoming>, handle: nat)
    requires forall p :: p in fragments ==> IsFragment(p, handle, CONTINUATION)
    requires c.buffer != [] && c.length + 8 < 0x1_0000
    requires |c.buffer| < c.length + 8 == |c.buffer| + |Payloads(fragments)|
    ensures ReceiveAll(c, fragments) == (Empty, [c.buffer + Payloads(fragments)])
    decreases |fragments|
  {
    hide Receive;
    assert fragments != [];
    FragmentReceived(c, fragments[0], handle, CONTINUATION);
    var all, later := c.buffer + Payload(fragments[0]), Payloads(fragments[1..]);
    ConcatAssoc(c.buffer, Payload(fragments[0]), later);
    if |all| == c.length + 8 {
      assert later == [] && all + later == all;
      NothingToContinue(fragments[1..], handle);
      NothingMore(c, fragments);
    } else {
      RestArrives(c.(buffer := all), fragments[1..], handle);
      NothingYet(c, fragments);
    }
  }

  /** Whatever is forwarded begins with what was stored. */
  lemma {:induction false} StoredIsKept(c: Conn, fragments: seq<Incoming>, handle: nat)
    requires forall p :: p in fragments ==> IsFragment(p, handle, CONTINUATION)
    requires c.buffer != []
    ensures var out := ReceiveAll(c, fragments).1; out != [] ==> c.buffer <= out[0]
    decreases |fragments|
  {
    hide Receive;
    if fragments != [] {
      FragmentReceived(c, fragments[0], handle, CONTINUATION);
      var r := Continuation(c, fragments[0]);
      if r.1 == [] {
        StoredIsKept(r.0, fragments[1..], handle);
        NothingYet(c, fragments);
      }
    }
  }

  lemma FirstPart(fragments: seq<Incoming>, handle: nat, packet: seq<byte>)
    requires Fragmented(fragments, handle, packet)
    ensures var f := fragments[0];
            Payload(f) + Payloads(fragments[1..]) == packet && (|Payload(f)| >= 2 ==> PeekedLength(f) == |packet| - 4)
  {
    var f := fragments[0];
    if |Payload(f)| >= 2 {
      assert f.Memory()[4] == packet[0] && f.Memory()[5] == packet[1];
    }
  }

  lemma ArrivedWhole(f: Incoming, handle: nat, packet: seq<byte>)
    requires IsFragment(f, handle, FIRST) && Payload(f) == packet
    ensures f.bytes == Uncut(f, packet)
  {
    assert f.bytes == f.bytes[..2] + f.bytes[2..4] + f.bytes[4..];
    assert f.bytes[2] == f.Memory()[2] && f.bytes[3] == f.Memory()[3];
    assert f.bytes[2..4] == ToLe16(|packet|);
  }

  lemma StoredIsUncut(f: Incoming, packet: seq<byte>, rest: seq<byte>)
    requires |f.bytes| >= 4 && Payload(f) + rest == packet && IsPacket(packet) && PeekedLength(f) == |packet| - 4
    ensures Stored(f) + rest == Uncut(f, packet) && |Stored(f)| == |f.bytes|
  {
    assert Low16(PeekedLength(f) + 4) == |packet|;
    ConcatAssoc(f.bytes[..2] + ToLe16(|packet|), Payload(f), rest);
  }

  lemma WholeFirst(f: Incoming, later: seq<Incoming>, handle: nat, packet: seq<byte>)
    requires IsFragment(f, handle, FIRST) && (forall p :: p in later ==> IsFragment(p, handle, CONTINUATION))
    requires IsPacket(packet) && PeekedLength(f) == |packet| - 4 && Payload(f) == packet
    ensures ReceiveAll(Empty, [f] + later) == (Empty, [Uncut(f, packet)])
  {
    ArrivedWhole(f, handle, packet);
    FragmentReceived(Empty, f, handle, FIRST);
    hide Receive, Stored, Uncut, PeekedLength, Handle, Flags;
    assert FirstFragment(Empty, f) == (Empty, [f.bytes]);
    NothingToContinue(later, handle);
    Begins(f, later);
    NothingMore(Empty, [f] + later);
  }

  lemma PartFirst(f: Incoming, later: seq<Incoming>, handle: nat, packet: seq<byte>)
    requires IsFragment(f, handle, FIRST) && (forall p :: p in later ==> IsFragment(p, handle, CONTINUATION))
    requires IsPacket(packet) && PeekedLength(f) == |packet| - 4 && |Payload(f)| < |packet|
    requires Payload(f) + Payloads(later) == packet
    ensures ReceiveAll(Empty, [f] + later) == (Empty, [Uncut(f, packet)])
  {
    StoredIsUncut(f, packet, Payloads(later));
    FragmentReceived(Empty, f, handle, FIRST);
    hide Receive, Stored, Uncut, PeekedLength, Handle, Flags;
    var c := Conn(Stored(f), PeekedLength(f));
    assert FirstFragment(Empty, f) == (c, []);
    RestArrives(c, later, handle);
    Begins(f, later);
    NothingYet(Empty, [f] + later);
  }

  lemma Begins(f: Incoming, later: seq<Incoming>)
    ensures ([f] + later)[0] == f && ([f] + later)[1..] == later
  {
  }

  lemma RightLength(fragments: seq<Incoming>, handle: nat, packet: seq<byte>)
    requires Fragmented(fragments, handle, packet) && PeekedLength(fragments[0]) == |packet| - 4
    ensures ReceiveAll(Empty, fragments) == (Empty, [Uncut(fragments[0], packet)])
  {
    var f, later := fragments[0], fragments[1..];
    FirstPart(fragments, handle, packet);
    hide ReceiveAll, Uncut, PeekedLength, Length, Handle, Flags;
    assert fragments == [f] + later;
    if |Payload(f)| >= |packet| {
      assert Payloads(later) == [] && Payload(f) + [] == Payload(f);
      WholeFirst(f, later, handle, packet);
    } else {
      PartFirst(f, later, handle, packet);
    }
  }

  lemma OtherLength(f: Incoming, packet: seq<byte>, stored: seq<byte>)
    requires |f.bytes| >= 4 && IsPacket(packet) && PeekedLength(f) != |packet| - 4 && Stored(f) <= stored
    ensures stored != Uncut(f, packet)
  {
    var length := Low16(PeekedLength(f) + 4);
    assert length != |packet|;
    assert Le16(Stored(f), 2) == Le16(stored, 2) == length && Le16(Uncut(f, packet), 2) == |packet|;
  }

  lemma WrongLength(fragments: seq<Incoming>, handle: nat, packet: seq<byte>)
    requires Fragmented(fragments, handle, packet) && PeekedLength(fragments[0]) != |packet| - 4
    ensures ReceiveAll(Empty, fragments).1 != [Uncut(fragments[0], packet)]
  {
    var f, later := fragments[0], fragments[1..];
    FirstPart(fragments, handle, packet);
    FragmentReceived(Empty, f, handle, FIRST);
    var r, out := FirstFragment(Empty, f), ReceiveAll(Empty, fragments).1;
    hide Receive, Stored, PeekedLength, Length, Handle, Flags;
    if r.1 == [] {
      StoredIsKept(r.0, later, handle);
      NothingYet(Empty, fragments);
      if out != [] { OtherLength(f, packet, out[0]); }
    } else {
      assert out[0] == f.bytes && |f.bytes| < 6;
    }
  }

  /**
   However a packet is cut, it is forwarded once, as if it had not been cut, exactly
   when the length that the handler finds behind the first header is the packet's;
   and it is when the first fragment holds the two bytes of that length.
   */
  lemma FragmentsRecombine(fragments: seq<Incoming>, handle: nat, packet: seq<byte>)
    requires Fragmented(fragments, handle, packet)
    ensures ReceiveAll(Empty, fragments).1 == [Uncut(fragments[0], packet)]
            <==> PeekedLength(fragments[0]) == |packet| - 4
    ensures |Payload(fragments[0])| >= 2 ==> PeekedLength(fragments[0]) == |packet| - 4
    ensures |Payload(fragments[0])| >= 2 ==> ReceiveAll(Empty, fragments).0 == Empty
  {
    FirstPart(fragments, handle, packet);
    if PeekedLength(fragments[0]) == |packet| - 4 {
      RightLength(fragments, handle, packet);
    } else {
      WrongLength(fragments, handle, packet);
    }
  }

  const ShortFirst: Incoming := Raw([1, 0x20, 1, 0, 1], [9])
  const ItsRest: Incoming := Raw([1, 0x10, 4, 0, 0, 4, 0, 7], [])

  lemma ShortIsFragment()
    ensures IsFragment(ShortFirst, 1, FIRST) && Payload(ShortFirst) == [1]
    ensures FirstFragment(Empty, ShortFirst) == (Conn(Stored(ShortFirst), 0x901), []) && |Stored(ShortFirst)| == 5
  {
    assert ShortFirst.Memory() == [1, 0x20, 1, 0, 1, 9];
  }

  lemma RestIsFragment()
    ensures IsFragment(ItsRest, 1, CONTINUATION) && Payload(ItsRest) == [0, 4, 0, 7]
  {
    assert ItsRest.Memory() == [1, 0x10, 4, 0, 0, 4, 0, 7];
  }

  /** A first fragment of one byte: the second byte of the length is whatever lies behind it. */
  lemma ShortFirstFragment() returns (fragments: seq<Incoming>, packet: seq<byte>)
    ensures Fragmented(fragments, 1, packet) && |Payload(fragments[0])| == 1
    ensures ReceiveAll(Empty, fragments).1 == []
  {
    packet := [1, 0, 4, 0, 7];
    fragments := [ShortFirst, ItsRest];
    ShortIsFragment();
    RestIsFragment();
    FragmentReceived(Empty, ShortFirst, 1, FIRST);
    var c := Conn(Stored(ShortFirst), 0x901);
    FragmentReceived(c, ItsRest, 1, CONTINUATION);
    hide IsFragment, Receive, Payload, Stored, FirstFragment;
    assert fragments[1..] == [ItsRest];
    assert Payloads([ItsRest]) == Payload(ItsRest) + Payloads([]) == [0, 4, 0, 7];
    assert ReceiveAll(c, [ItsRest]).1 == [];
  }

  /** At no time is more stored than the packet with its header. */
  lemma {:induction false} FragmentsFit(fragments: seq<Incoming>, handle: nat, packet: seq<byte>, n: nat)
    requires Fragmented(fragments, handle, packet) && n <= |fragments|
    ensures |ReceiveAll(Empty, fragments[..n]).0.buffer| <= |packet| + 4
  {
    if n != 0 {
      assert fragments[..n][0] == fragments[0] && fragments[..n][1..] == fragments[1..][..n - 1];
      FragmentReceived(Empty, fragments[0], handle, FIRST);
      hide Receive;
      var r := Receive(Empty, fragments[0]);
      StoredGrows(r.0, fragments[1..], handle, n - 1);
    }
  }

  lemma {:induction false} StoredGrows(c: Conn, fragments: seq<Incoming>, handle: nat, n: nat)
    requires forall p :: p in fragments ==> IsFragment(p, handle, CONTINUATION)
    requires n <= |fragments|
    ensures |ReceiveAll(c, fragments[..n]).0.buffer| <= |c.buffer| + |Payloads(fragments)|
    decreases n
  {
    if n != 0 {
      assert fragments[..n][0] == fragments[0] && fragments[..n][1..] == fragments[1..][..n - 1];
      FragmentReceived(c, fragments[0], handle, CONTINUATION);
      hide Receive;
      StoredGrows(Receive(c, fragments[0]).0, fragments[1..], handle, n - 1);
    }
  }

  // --------------------------------------------------------- all the connections

  /** The registered connections by handle, and what has been forwarded. */
  datatype Hci = Hci(conns: map<nat, Conn>, forwarded: seq<seq<byte>>)

  function AclHandler(h: Hci, p: Incoming): Hci
  {
    if Handle(p) !in h.conns then h
    else
      var r := Receive(h.conns[Handle(p)], p);
      Hci(h.conns[Handle(p) := r.0], h.forwarded + r.1)
  }

  function Run(h: Hci, packets: seq<Incoming>): Hci
    decreases |packets|
  {
    if packets == [] then h else Run(AclHandler(h, packets[0]), packets[1..])
  }

  /** What is stored for a connection carries its handle. */
  predicate OwnHandle(handle: nat, c: Conn) {
    c.buffer != [] ==> |c.buffer| >= 4 && HandleIn(c.buffer) == handle
  }

  predicate Inv(h: Hci) {
    && (forall handle :: handle in h.conns ==> OwnHandle(handle, h.conns[handle]))
    && (forall out :: out in h.forwarded ==> |out| >= 4 && HandleIn(out) in h.conns)
  }

  lemma ReceiveKeepsHandle(c: Conn, p: Incoming)
    requires OwnHandle(Handle(p), c)
    ensures OwnHandle(Handle(p), Receive(c, p).0)
    ensures forall out :: out in Receive(c, p).1 ==> |out| >= 4 && HandleIn(out) == Handle(p)
  {
    if |p.bytes| >= 4 {
      assert p.bytes[0] == p.Memory()[0] && p.bytes[1] == p.Memory()[1];
      assert Stored(p)[0] == p.bytes[0] && Stored(p)[1] == p.bytes[1];
    }
  }

  /** The packet is as long as its header says, and marked as a fragment of an L2CAP packet. */
  predicate WellFormed(p: Incoming) {
    && |p.bytes| >= 4 && |p.bytes| == (Length(p) + 4) % 0x1_0000
    && (Flags(p) == FIRST || Flags(p) == CONTINUATION)
  }

  /** The fragments that come in for a connection. */
  function Of(handle: nat, packets: seq<Incoming>): (r: seq<Incoming>)
    decreases |packets|
  {
    if packets == [] then []
    else (if Handle(packets[0]) == handle && WellFormed(packets[0]) then [packets[0]] else []) + Of(handle, packets[1..])
  }

  lemma OthersAreDropped(c: Conn, p: Incoming)
    requires !WellFormed(p)
    ensures Receive(c, p) == (c, [])
  {
  }

  /** The forwarded packets of one connection, in order. */
  function OutOf(handle: nat, forwarded: seq<seq<byte>>): seq<seq<byte>>
    requires forall out :: out in forwarded ==> |out| >= 4
  {
    if forwarded == [] then []
    else (if HandleIn(forwarded[0]) == handle then [forwarded[0]] else []) + OutOf(handle, forwarded[1..])
  }

  lemma {:induction false} OutOfMore(handle: nat, a: seq<seq<byte>>, b: seq<seq<byte>>)
    requires forall out :: out in a + b ==> |out| >= 4
    ensures OutOf(handle, a + b) == OutOf(handle, a) + OutOf(handle, b)
    decreases |a|
  {
    hide HandleIn;
    if a == [] {
      assert a + b == b;
    } else {
      FirstOfBoth(a, b);
      assert a[0] in a + b;
      OutOfMore(handle, a[1..], b);
      var first := if HandleIn(a[0]) == handle then [a[0]] else [];
      assert OutOf(handle, a) == first + OutOf(handle, a[1..]);
      assert OutOf(handle, a + b) == first + OutOf(handle, a[1..] + b);
      hide OutOf;
      ConcatAssoc(first, OutOf(handle, a[1..]), OutOf(handle, b));
    }
  }

  lemma FirstOfBoth(a: seq<seq<byte>>, b: seq<seq<byte>>)
    requires a != []
    ensures (a + b)[0] == a[0] && (a + b)[1..] == a[1..] + b
  {
  }

  lemma {:induction false} OutOfOne(handle: nat, outs: seq<seq<byte>>, x: nat)
    requires forall out :: out in outs ==> |out| >= 4 && HandleIn(out) == x
    ensures OutOf(handle, outs) == if x == handle then outs else []
    decreases |outs|
  {
    if outs != [] {
      assert outs[0] in outs && outs == [outs[0]] + outs[1..];
      OutOfOne(handle, outs[1..], x);
    }
  }

  lemma HandlerKeepsInv(h: Hci, p: Incoming)
    requires Inv(h)
    ensures Inv(AclHandler(h, p)) && AclHandler(h, p).conns.Keys == h.conns.Keys
  {
    var x := Handle(p);
    if x in h.conns { ReceiveKeepsHandle(h.conns[x], p); }
    hide Receive, HandleIn;
  }

  lemma HandlerStep(h: Hci, p: Incoming, handle: nat)
    requires Inv(h) && handle in h.conns
    ensures var t := AclHandler(h, p);
            && Inv(t) && t.conns.Keys == h.conns.Keys
            && t.conns[handle] == (if Handle(p) == handle then Receive(h.conns[handle], p).0 else h.conns[handle])
            && OutOf(handle, t.forwarded)
               == OutOf(handle, h.forwarded) + if Handle(p) == handle then Receive(h.conns[handle], p).1 else []
  {
    HandlerKeepsInv(h, p);
    var x := Handle(p);
    if x in h.conns {
      var outs := Receive(h.conns[x], p).1;
      ReceiveKeepsHandle(h.conns[x], p);
      hide Receive, HandleIn;
      OutOfMore(handle, h.forwarded, outs);
      OutOfOne(handle, outs, x);
    }
  }

  /** A connection sees only its own packets, and of those only fragments. */
  lemma {:induction false} ConnectionsAreIndependent(h: Hci, packets: seq<Incoming>, handle: nat)
    requires Inv(h) && handle in h.conns
    ensures var t, r := Run(h, packets), ReceiveAll(h.conns[handle], Of(handle, packets));
            && Inv(t) && t.conns.Keys == h.conns.Keys && t.conns[handle] == r.0
            && OutOf(handle, t.forwarded) == OutOf(handle, h.forwarded) + r.1
    decreases |packets|
  {
    if packets != [] {
      var p, next := packets[0], AclHandler(h, packets[0]);
      if !WellFormed(p) { OthersAreDropped(h.conns[handle], p); }
      HandlerStep(h, p, handle);
      ConnectionsAreIndependent(next, packets[1..], handle);
      OfFirst(h.conns[handle], packets, handle);
      var later := ReceiveAll(next.conns[handle], Of(handle, packets[1..]));
      hide Receive, HandleIn, Inv, Handle, OutOf, AclHandler, Of, ReceiveAll, WellFormed;
      var before := OutOf(handle, h.forwarded);
      if Handle(p) == handle && WellFormed(p) {
        ConcatAssoc(before, Receive(h.conns[handle], p).1, later.1);
      } else {
        assert before + [] == before;
      }
    }
  }

  lemma OfFirst(c: Conn, packets: seq<Incoming>, handle: nat)
    requires packets != []
    ensures var p, later := packets[0], Of(handle, packets[1..]);
            var r := Receive(c, p);
            ReceiveAll(c, Of(handle, packets))
            == if Handle(p) == handle && WellFormed(p) then (ReceiveAll(r.0, later).0, r.1 + ReceiveAll(r.0, later).1)
               else ReceiveAll(c, later)
  {
    hide Receive;
    var p, later := packets[0], Of(handle, packets[1..]);
    if Handle(p) == handle && WellFormed(p) {
      Begins(p, later);
    } else {
      assert [] + later == later;
    }
  }

  // --------------------------------------------------------------- whole streams

  /** A packet that goes out on a connection, and how it arrives. */
  datatype Transfer = Transfer(fragments: seq<Incoming>, packet: seq<byte>) {
    predicate Valid(handle: nat) {
      Fragmented(fragments, handle, packet) && |Payload(fragments[0])| >= 2
    }
  }

  predicate AllTransfers(handle: nat, transfers: seq<Transfer>) {
    forall t: Transfer :: t in transfers ==> t.Valid(handle)
  }

  function Fragments(transfers: seq<Transfer>): seq<Incoming> {
    if transfers == [] then [] else transfers[0].fragments + Fragments(transfers[1..])
  }

  function Packets(handle: nat, transfers: seq<Transfer>): seq<seq<byte>>
    requires AllTransfers(handle, transfers)
  {
    if transfers == [] then []
    else
      var t := transfers[0];
      assert t in transfers;
      [Uncut(t.fragments[0], t.packet)] + Packets(handle, transfers[1..])
  }

  lemma {:induction false} ReceiveAllJoin(c: Conn, a: seq<Incoming>, b: seq<Incoming>)
    ensures var r := ReceiveAll(c, a);
            var s := ReceiveAll(r.0, b);
            ReceiveAll(c, a + b) == (s.0, r.1 + s.1)
    decreases |a|
  {
    hide Receive;
    if a == [] {
      var s := ReceiveAll(c, b);
      assert a + b == b && [] + s.1 == s.1;
    } else {
      var first := Receive(c, a[0]);
      var r := ReceiveAll(first.0, a[1..]);
      assert (a + b)[0] == a[0] && (a + b)[1..] == a[1..] + b;
      ReceiveAllJoin(first.0, a[1..], b);
      ConcatAssoc(first.1, r.1, ReceiveAll(r.0, b).1);
    }
  }

  /** Besides packets that are no fragments: a fragment that begins while another packet is incomplete, or continues none. */
  predicate Dropped(c: Conn, p: Incoming) {
    !WellFormed(p) || (Flags(p) == FIRST <==> c.buffer != [])
  }

  /** Such a packet makes no difference, wherever it comes in. */
  lemma StrayPacket(c: Conn, before: seq<Incoming>, p: Incoming, after: seq<Incoming>)
    requires Dropped(ReceiveAll(c, before).0, p)
    ensures ReceiveAll(c, before + [p] + after) == ReceiveAll(c, before + after)
  {
    var r := ReceiveAll(c, before);
    assert Receive(r.0, p) == (r.0, []);
    hide Receive, Dropped;
    ReceiveAllJoin(c, before, after);
    ReceiveAllJoin(c, before, [p] + after);
    ConcatAssoc(before, [p], after);
    Begins(p, after);
    NothingYet(r.0, [p] + after);
  }

  lemma {:induction false} StreamRecombines(handle: nat, transfers: seq<Transfer>)
    requires AllTransfers(handle, transfers)
    ensures ReceiveAll(Empty, Fragments(transfers)) == (Empty, Packets(handle, transfers))
    decreases |transfers|
  {
    if transfers != [] {
      var t, later := transfers[0], Fragments(transfers[1..]);
      assert t in transfers;
      FragmentsRecombine(t.fragments, handle, t.packet);
      StreamRecombines(handle, transfers[1..]);
      ReceiveAllJoin(Empty, t.fragments, later);
      var r, s := ReceiveAll(Empty, t.fragments), ReceiveAll(Empty, later);
      hide ReceiveAll, Uncut, Fragmented, Payload;
      assert Fragments(transfers) == t.fragments + later;
      assert r == (Empty, [Uncut(t.fragments[0], t.packet)]);
      assert s == (Empty, Packets(handle, transfers[1..]));
      assert r.1 + s.1 == Packets(handle, transfers);
    }
  }

  /**
   However the fragments of other connections, and packets for unknown handles or with
   wrong sizes or flags, come in between: a connection forwards the packets that were
   sent on it, uncut and in order, and nothing else.
   */
  lemma AclRuns(h: Hci, packets: seq<Incoming>, handle: nat, transfers: seq<Transfer>)
    requires Inv(h) && handle in h.conns && h.conns[handle] == Empty
    requires AllTransfers(handle, transfers) && Of(handle, packets) == Fragments(transfers)
    ensures var t := Run(h, packets);
            && Inv(t) && handle in t.conns && t.conns[handle] == Empty
            && OutOf(handle, t.forwarded) == OutOf(handle, h.forwarded) + Packets(handle, transfers)
  {
    ConnectionsAreIndependent(h, packets, handle);
    StreamRecombines(handle, transfers);
  }
}
