/**
 Outgoing messages of the application (app_layer_v1/protocol.c): they are pushed
 into one byte queue, and the main loop hands stretches of the queue itself to the
 connection. A stretch stays in the queue until the connection can send again.
 After a soft close the channel is closed once everything has gone out.
 */
module Outgoing {
  import opened Bytes
  import opened ByteQueue

  datatype State = Open | Closing | Closed

  /**
   `busy` is whether the connection still reads the last stretch. The rest is a
   record that no step reads: the bytes pushed, those pulled again, the packets
   handed to the connection, and whether a push was ever refused.
   */
  datatype Stream = Stream(
    state: State, queue: seq<byte>, bytesOut: nat, maxPacket: nat, busy: bool,
    pushed: seq<byte>, pulled: seq<byte>, packets: seq<seq<byte>>, overflow: bool, closes: nat)

  function Push(s: Stream, capacity: nat, data: seq<byte>): Stream {
    if |s.queue| + |data| > capacity && data != [] then s.(overflow := true)
    else s.(queue := s.queue + data, pushed := s.pushed + data)
  }

  /** A message and the pieces of its variable part, if the channel still takes messages. */
  function Send(s: Stream, capacity: nat, pieces: seq<seq<byte>>): Stream
    decreases |pieces|
  {
    if s.state != Open || pieces == [] then s else Send(Push(s, capacity, pieces[0]), capacity, pieces[1..])
  }

  /** SOFT_CLOSE: the echo is the last message. */
  function SoftClose(s: Stream, capacity: nat, echo: seq<byte>): Stream {
    if s.state != Open then s else Send(s, capacity, [echo]).(state := Closing)
  }

  /** The next stretch of the queue, of which the connection takes as much as a packet holds. */
  function SendStretch(s: Stream, stretch: nat): Stream
    requires stretch <= |s.queue|
  {
    if stretch == 0 then s.(bytesOut := 0)
    else
      var n := if stretch > s.maxPacket then s.maxPacket else stretch;
      s.(bytesOut := n, packets := s.packets + [s.queue[..n]], busy := true)
  }

  function Release(s: Stream): Stream
    requires s.bytesOut <= |s.queue|
  {
    s.(queue := s.queue[s.bytesOut..], pulled := s.pulled + s.queue[..s.bytesOut], bytesOut := 0)
  }

  /** AppProtocolTasks; `stretch` is what the queue has in one piece, which is not empty unless the queue is. */
  function Tasks(s: Stream, canSend: bool, stretch: nat): Stream
    requires s.bytesOut <= |s.queue| && stretch <= |s.queue| - s.bytesOut
  {
    if s.state == Closed then s
    else if s.state == Closing && s.queue == [] then s.(state := Closed, closes := s.closes + 1)
    else if !canSend then s
    else SendStretch(Release(s), stretch)
  }

  datatype Event =
    | Message(pieces: seq<seq<byte>>)
    | Close(echo: seq<byte>)
    | Turn(canSend: bool, stretch: nat)
    | Sent                                // the connection is done with the last packet

  predicate Enabled(s: Stream, e: Event) {
    match e
    case Turn(canSend, stretch) =>
      && s.bytesOut <= |s.queue| && stretch <= |s.queue| - s.bytesOut
      && (stretch == 0 ==> |s.queue| == s.bytesOut) && (canSend ==> !s.busy)
    case Sent => s.busy
    case _ => true
  }

  function Step(s: Stream, capacity: nat, e: Event): Stream
    requires Enabled(s, e)
  {
    match e
    case Message(pieces) => Send(s, capacity, pieces)
    case Close(echo) => SoftClose(s, capacity, echo)
    case Turn(canSend, stretch) => Tasks(s, canSend, stretch)
    case Sent => s.(busy := false)
  }

  function Join(packets: seq<seq<byte>>): seq<byte> {
    if packets == [] then [] else Join(packets[..|packets| - 1]) + packets[|packets| - 1]
  }

  ghost predicate Inv(s: Stream) {
    && s.maxPacket > 0 && s.bytesOut <= |s.queue|
    && s.pushed == s.pulled + s.queue
    && Join(s.packets) == s.pulled + s.queue[..s.bytesOut]
    && (forall p :: p in s.packets ==> 0 < |p| <= s.maxPacket)
    && (s.busy ==> s.packets != [] && s.bytesOut == |s.packets[|s.packets| - 1]|)
    && (s.busy ==> s.queue[..s.bytesOut] == s.packets[|s.packets| - 1])
    && (s.state == Closed ==> s.queue == [] && !s.busy)
    && s.closes == if s.state == Closed then 1 else 0
  }

  lemma {:induction false} PushKeeps(s: Stream, capacity: nat, data: seq<byte>)
    requires Inv(s) && s.state == Open
    ensures var t := Push(s, capacity, data); Inv(t) && t.state == Open
  {
    var t := Push(s, capacity, data);
    ConcatAssoc(s.pulled, s.queue, data);
    assert t.queue[..s.bytesOut] == s.queue[..s.bytesOut];
  }

  lemma {:induction false} SendKeeps(s: Stream, capacity: nat, pieces: seq<seq<byte>>)
    requires Inv(s)
    ensures var t := Send(s, capacity, pieces); Inv(t) && t.state == s.state
    decreases |pieces|
  {
    if s.state == Open && pieces != [] {
      PushKeeps(s, capacity, pieces[0]);
      SendKeeps(Push(s, capacity, pieces[0]), capacity, pieces[1..]);
    }
  }

  lemma {:induction false} ReleaseKeeps(s: Stream)
    requires Inv(s) && !s.busy && s.state != Closed
    ensures Inv(Release(s)) && Release(s).state == s.state && !Release(s).busy
  {
    var t := Release(s);
    assert s.queue == s.queue[..s.bytesOut] + s.queue[s.bytesOut..];
    ConcatAssoc(s.pulled, s.queue[..s.bytesOut], s.queue[s.bytesOut..]);
    assert t.queue[..0] == [] && t.pulled + [] == t.pulled;
  }

  lemma {:induction false} StretchKeeps(s: Stream, stretch: nat)
    requires Inv(s) && !s.busy && s.state != Closed && s.bytesOut == 0 && stretch <= |s.queue|
    ensures Inv(SendStretch(s, stretch))
  {
    if stretch > 0 {
      var t := SendStretch(s, stretch);
      JoinMore(s.packets, s.queue[..t.bytesOut]);
      hide Join;
      assert s.queue[..0] == [] && s.pulled + [] == s.pulled;
      assert t.packets[|t.packets| - 1] == s.queue[..t.bytesOut];
    }
  }

  lemma JoinMore(packets: seq<seq<byte>>, p: seq<byte>)
    ensures Join(packets + [p]) == Join(packets) + p
  {
    assert (packets + [p])[..|packets|] == packets;
  }

  lemma {:induction false} StepKeepsInv(s: Stream, capacity: nat, e: Event)
    requires Inv(s) && Enabled(s, e)
    ensures Inv(Step(s, capacity, e))
  {
    match e
    case Message(pieces) => SendKeeps(s, capacity, pieces);
    case Close(echo) => SendKeeps(s, capacity, [echo]);
    case Turn(canSend, stretch) =>
      if s.state != Closed && !(s.state == Closing && s.queue == []) && canSend {
        ReleaseKeeps(s);
        StretchKeeps(Release(s), stretch);
      }
    case Sent =>
  }

  // --------------------------------------------------------------- whole runs

  predicate Possible(s: Stream, capacity: nat, events: seq<Event>)
    decreases |events|
  {
    events == [] || (Enabled(s, events[0]) && Possible(Step(s, capacity, events[0]), capacity, events[1..]))
  }

  function Run(s: Stream, capacity: nat, events: seq<Event>): Stream
    requires Possible(s, capacity, events)
    decreases |events|
  {
    if events == [] then s else Run(Step(s, capacity, events[0]), capacity, events[1..])
  }

  lemma {:induction false} RunKeepsInv(s: Stream, capacity: nat, events: seq<Event>)
    requires Inv(s) && Possible(s, capacity, events)
    ensures Inv(Run(s, capacity, events))
    decreases |events|
  {
    if events != [] {
      StepKeepsInv(s, capacity, events[0]);
      hide Inv, Step, Enabled;
      RunKeepsInv(Step(s, capacity, events[0]), capacity, events[1..]);
    }
  }

  function Joined(pieces: seq<seq<byte>>): seq<byte> {
    if pieces == [] then [] else pieces[0] + Joined(pieces[1..])
  }

  /** The messages of a run that are sent before the channel begins to close, with the echo of the close. */
  function Offered(s: Stream, capacity: nat, events: seq<Event>): seq<byte>
    requires Possible(s, capacity, events)
    decreases |events|
  {
    if events == [] then []
    else
      var now := if s.state != Open then [] else match events[0]
                 case Message(pieces) => Joined(pieces)
                 case Close(echo) => echo
                 case _ => [];
      now + Offered(Step(s, capacity, events[0]), capacity, events[1..])
  }

  lemma {:induction false} SendPushes(s: Stream, capacity: nat, pieces: seq<seq<byte>>)
    requires s.state == Open
    ensures var t := Send(s, capacity, pieces);
            && (s.overflow ==> t.overflow) && t.state == Open
            && (!t.overflow ==> t.pushed == s.pushed + Joined(pieces))
    decreases |pieces|
  {
    if pieces == [] {
      assert s.pushed + [] == s.pushed;
    } else {
      SendPushes(Push(s, capacity, pieces[0]), capacity, pieces[1..]);
      ConcatAssoc(s.pushed, pieces[0], Joined(pieces[1..]));
    }
  }

  lemma {:induction false} StepPushes(s: Stream, capacity: nat, e: Event)
    requires Enabled(s, e) && Possible(s, capacity, [e])
    ensures var t := Step(s, capacity, e);
            && (s.overflow ==> t.overflow)
            && (!t.overflow ==> t.pushed == s.pushed + Offered(s, capacity, [e]))
  {
    assert [e][1..] == [];
    match e
    case Message(pieces) => if s.state == Open { SendPushes(s, capacity, pieces); }
    case Close(echo) =>
      if s.state == Open {
        SendPushes(s, capacity, [echo]);
        assert [echo][1..] == [] && echo + [] == echo;
      }
    case _ =>
  }

  /** Unless the queue overflows, everything offered is pushed, in order. */
  lemma {:induction false} RunPushes(s: Stream, capacity: nat, events: seq<Event>)
    requires Possible(s, capacity, events)
    ensures var t := Run(s, capacity, events);
            && (s.overflow ==> t.overflow)
            && (!t.overflow ==> t.pushed == s.pushed + Offered(s, capacity, events))
    decreases |events|
  {
    if events == [] {
      assert s.pushed + [] == s.pushed;
    } else {
      var e := events[0];
      assert [e][1..] == [];
      StepPushes(s, capacity, e);
      var t := Step(s, capacity, e);
      RunPushes(t, capacity, events[1..]);
      var now := Offered(s, capacity, [e]);
      assert Offered(s, capacity, events) == now + Offered(t, capacity, events[1..]) by {
        assert Offered(t, capacity, []) == [] && now + [] == now;
      }
      ConcatAssoc(s.pushed, now, Offered(t, capacity, events[1..]));
    }
  }

  function Opened(maxPacket: nat): Stream {
    Stream(Open, [], 0, maxPacket, false, [], [], [], false, 0)
  }

  /**
   In every run the packets put together are a prefix of what was pushed, which is
   all the messages offered unless the queue overflows; no packet is
   longer than it may be, the bytes that the connection is reading are still
   at the head of the queue, and the channel is closed at most once: when
   everything pushed has been sent and released.
   */
  lemma {:induction false} StreamRuns(maxPacket: nat, capacity: nat, events: seq<Event>)
    requires maxPacket > 0 && Possible(Opened(maxPacket), capacity, events)
    ensures var s := Run(Opened(maxPacket), capacity, events);
            && Join(s.packets) <= s.pushed
            && (!s.overflow ==> s.pushed == Offered(Opened(maxPacket), capacity, events))
            && (forall p :: p in s.packets ==> 0 < |p| <= maxPacket)
            && (s.busy ==> s.packets != [] && s.packets[|s.packets| - 1] <= s.queue)
            && s.closes <= 1
            && (s.state == Closed <==> s.closes == 1)
            && (s.state == Closed ==> Join(s.packets) == s.pushed && !s.busy)
  {
    var o := Opened(maxPacket);
    assert Inv(o);
    RunKeepsInv(o, capacity, events);
    RunKeepsMaxPacket(o, capacity, events);
    RunPushes(o, capacity, events);
    var s := Run(o, capacity, events);
    hide Run, Possible, Join, Offered;
    PrefixOfWhole(s);
    assert [] + Offered(o, capacity, events) == Offered(o, capacity, events);
  }

  lemma {:induction false} PrefixOfWhole(s: Stream)
    requires Inv(s)
    ensures Join(s.packets) <= s.pushed && (s.queue == [] ==> Join(s.packets) == s.pushed)
    ensures s.busy ==> s.packets[|s.packets| - 1] <= s.queue
  {
    hide Join;
    assert s.pulled + s.queue[..s.bytesOut] == (s.pulled + s.queue)[..|s.pulled| + s.bytesOut];
  }

  lemma {:induction false} SendKeepsMaxPacket(s: Stream, capacity: nat, pieces: seq<seq<byte>>)
    ensures Send(s, capacity, pieces).maxPacket == s.maxPacket
    decreases |pieces|
  {
    if s.state == Open && pieces != [] { SendKeepsMaxPacket(Push(s, capacity, pieces[0]), capacity, pieces[1..]); }
  }

  lemma {:induction false} RunKeepsMaxPacket(s: Stream, capacity: nat, events: seq<Event>)
    requires Possible(s, capacity, events)
    ensures Run(s, capacity, events).maxPacket == s.maxPacket
    decreases |events|
  {
    if events != [] {
      match events[0] {
        case Message(pieces) => SendKeepsMaxPacket(s, capacity, pieces);
        case Close(echo) => SendKeepsMaxPacket(s, capacity, [echo]);
        case _ =>
      }
      RunKeepsMaxPacket(Step(s, capacity, events[0]), capacity, events[1..]);
    }
  }

  // -------------------------------------------------------- closing comes to an end

  /** Turns in which the connection can send, each with a stretch of the queue. */
  predicate Draining(s: Stream, stretches: seq<nat>)
    decreases |stretches|
  {
    stretches == []
    || (Enabled(s.(busy := false), Turn(true, stretches[0]))
        && Draining(Tasks(s.(busy := false), true, stretches[0]), stretches[1..]))
  }

  function Drained(s: Stream, stretches: seq<nat>): Stream
    requires Draining(s, stretches)
    decreases |stretches|
  {
    if stretches == [] then s else Drained(Tasks(s.(busy := false), true, stretches[0]), stretches[1..])
  }

  /** A closing channel is closed after as many such turns as there are unsent bytes, and two more. */
  lemma {:induction false} CloseEnds(s: Stream, stretches: seq<nat>)
    requires s.state != Open && s.maxPacket > 0 && s.bytesOut <= |s.queue| && Draining(s, stretches)
    requires |stretches| >= |s.queue| - s.bytesOut + 2
    ensures Drained(s, stretches).state == Closed
    decreases |stretches|
  {
    var t := Tasks(s.(busy := false), true, stretches[0]);
    if s.state == Closed {
      ClosedStays(s, stretches);
    } else if s.queue == [] {
      ClosedStays(t, stretches[1..]);
    } else if |s.queue| == s.bytesOut {
      assert t.queue == [];
      var u := Tasks(t.(busy := false), true, stretches[1]);
      assert u.state == Closed && stretches[1..][0] == stretches[1];
      ClosedStays(u, stretches[1..][1..]);
    } else {
      CloseEnds(t, stretches[1..]);
    }
  }

  lemma {:induction false} ClosedStays(s: Stream, stretches: seq<nat>)
    requires s.state == Closed && Draining(s, stretches)
    ensures Drained(s, stretches).state == Closed
    decreases |stretches|
  {
    if stretches != [] { ClosedStays(s.(busy := false), stretches[1..]); }
  }

  /** An open channel sends what has been pushed in as many turns as there are unsent bytes, and one more to release it. */
  lemma {:induction false} OpenDrains(s: Stream, stretches: seq<nat>)
    requires Inv(s) && s.state == Open && Draining(s, stretches)
    requires |stretches| > |s.queue| - s.bytesOut || s.queue == []
    ensures var t := Drained(s, stretches); t.queue == [] && t.pushed == s.pushed && Join(t.packets) == s.pushed
    decreases |stretches|
  {
    if stretches == [] {
      PrefixOfWhole(s);
    } else {
      var idle := s.(busy := false);
      StepKeepsInv(idle, 0, Turn(true, stretches[0]));
      TurnSends(idle, stretches[0]);
      hide Inv, Join, Tasks;
      OpenDrains(Tasks(idle, true, stretches[0]), stretches[1..]);
    }
  }

  lemma TurnSends(s: Stream, stretch: nat)
    requires s.state == Open && s.maxPacket > 0 && Enabled(s, Turn(true, stretch))
    ensures var t := Tasks(s, true, stretch);
            && t.state == Open && t.pushed == s.pushed && t.bytesOut <= |t.queue| && |t.queue| == |s.queue| - s.bytesOut
            && (t.queue != [] ==> t.bytesOut > 0)
  {
  }

  /** From every point of every run the messages offered so far go out completely, if the queue has not overflowed. */
  lemma EverythingGoesOut(maxPacket: nat, capacity: nat, events: seq<Event>, stretches: seq<nat>)
    requires maxPacket > 0 && Possible(Opened(maxPacket), capacity, events)
    requires var s := Run(Opened(maxPacket), capacity, events);
             s.state == Open && !s.overflow && Draining(s, stretches) && |stretches| > |s.queue| - s.bytesOut
    ensures var s := Run(Opened(maxPacket), capacity, events);
            Join(Drained(s, stretches).packets) == Offered(Opened(maxPacket), capacity, events)
  {
    var o := Opened(maxPacket);
    assert Inv(o);
    RunKeepsInv(o, capacity, events);
    RunPushes(o, capacity, events);
    hide Inv, Run, Possible, Join, Offered, Draining;
    OpenDrains(Run(o, capacity, events), stretches);
    assert [] + Offered(o, capacity, events) == Offered(o, capacity, events);
  }

  // --------------------------------------------------- what is and is not taken

  /** A message is taken whole exactly when it fits behind what is waiting. */
  lemma {:induction false} MessageFits(s: Stream, capacity: nat, pieces: seq<seq<byte>>)
    requires s.state == Open && |s.queue| <= capacity
    ensures var t := Send(s, capacity, pieces);
            && |t.queue| <= capacity && (s.overflow ==> t.overflow)
            && (|s.queue| + |Joined(pieces)| <= capacity ==> t.overflow == s.overflow && t.queue == s.queue + Joined(pieces))
            && (|s.queue| + |Joined(pieces)| > capacity ==> t.overflow)
    decreases |pieces|
  {
    if pieces == [] {
      assert s.queue + [] == s.queue;
    } else {
      var next := Push(s, capacity, pieces[0]);
      MessageFits(next, capacity, pieces[1..]);
      ConcatAssoc(s.queue, pieces[0], Joined(pieces[1..]));
    }
  }

  lemma StepFits(s: Stream, capacity: nat, e: Event)
    requires |s.queue| <= capacity && Enabled(s, e)
    ensures |Step(s, capacity, e).queue| <= capacity
  {
    match e
    case Message(pieces) => if s.state == Open { MessageFits(s, capacity, pieces); }
    case Close(echo) => if s.state == Open { MessageFits(s, capacity, [echo]); }
    case _ =>
  }

  /** The queue never holds more than it has room for. */
  lemma {:induction false} RunFits(s: Stream, capacity: nat, events: seq<Event>)
    requires |s.queue| <= capacity && Possible(s, capacity, events)
    ensures |Run(s, capacity, events).queue| <= capacity
    decreases |events|
  {
    if events != [] {
      StepFits(s, capacity, events[0]);
      hide Step, Enabled;
      RunFits(Step(s, capacity, events[0]), capacity, events[1..]);
    }
  }

  predicate HasClose(events: seq<Event>) {
    exists i :: 0 <= i < |events| && events[i].Close?
  }

  lemma StepCloses(s: Stream, capacity: nat, e: Event)
    requires Enabled(s, e)
    ensures Step(s, capacity, e).state == Open <==> s.state == Open && !e.Close?
  {
    match e
    case Message(pieces) => if s.state == Open { SendPushes(s, capacity, pieces); }
    case Close(echo) => if s.state == Open { SendPushes(s, capacity, [echo]); }
    case _ =>
  }

  /** A channel stops taking messages with the first soft close, and with nothing else. */
  lemma {:induction false} OpenUntilClose(s: Stream, capacity: nat, events: seq<Event>)
    requires Possible(s, capacity, events)
    ensures Run(s, capacity, events).state == Open <==> s.state == Open && !HasClose(events)
    decreases |events|
  {
    if events != [] {
      var e, rest := events[0], events[1..];
      StepCloses(s, capacity, e);
      hide Step, Enabled;
      OpenUntilClose(Step(s, capacity, e), capacity, rest);
      assert HasClose(events) <==> e.Close? || HasClose(rest) by {
        if HasClose(rest) {
          var i :| 0 <= i < |rest| && rest[i].Close?;
          assert events[i + 1].Close?;
        }
        if HasClose(events) {
          var i :| 0 <= i < |events| && events[i].Close?;
          assert i > 0 ==> rest[i - 1].Close?;
        }
      }
    }
  }
}
