/**
 The ring of byte_queue.c with its producer in an interrupt handler that may run
 between any two micro-steps of the consumer in the main loop.

 A push is one step, since the main loop cannot interrupt it. The consumer either
 peeks at up to `max` bytes, uses them, and pulls them, or pulls a single byte;
 each read or write of a shared field is a step of its own.
 */
module QueueInterleaving {
  import opened Bytes
  import opened ByteQueue

  /** Where the consumer stands between two micro-steps. */
  datatype Pc =
    | Idle
    | Sized(n: nat)                       // PeekMax has copied the size
    | Peeked(n: nat, first: nat)          // two slices are in use, the first `first` bytes long
    | Advanced(n: nat)                    // Pull has moved the read cursor, perhaps past the end
    | Released(n: nat)                    // Pull has reduced the size
    | Fetched(b: byte)                    // PullByte has read the byte and moved the cursor
    | FetchedWrapped(b: byte)             // PullByte has wrapped the cursor

  /**
   The fields of the queue, the consumer's position, and a record: every byte
   accepted by a push, and every byte the consumer has taken out.
   */
  datatype Shared = Shared(
    cells: seq<byte>, readCursor: nat, writeCursor: nat, size: nat, pc: Pc, pushed: seq<byte>, taken: seq<byte>)

  datatype Event =
    | Push(data: seq<byte>)     // the interrupt handler
    | BeginPeek(max: nat)
    | BeginPullByte
    | Continue                  // the consumer's next micro-step

  predicate Enabled(s: Shared, e: Event) {
    match e
    case Push(_) => true
    case BeginPeek(_) => s.pc == Idle
    case BeginPullByte => s.pc == Idle && s.size > 0
    case Continue => s.pc != Idle
  }

  /** ByteQueuePushBuffer; a single byte is a buffer of one. */
  function PushStep(s: Shared, data: seq<byte>): Shared
    requires |s.cells| > 0 && s.writeCursor < |s.cells|
  {
    var capacity := |s.cells|;
    if data == [] || s.size + |data| > capacity then s
    else
      var end := s.writeCursor + |data|;
      var cells :=
        if end <= capacity then s.cells[..s.writeCursor] + data + s.cells[end..]
        else
          var first := capacity - s.writeCursor;
          data[first..] + s.cells[end - capacity..s.writeCursor] + data[..first];
      s.(cells := cells, writeCursor := if end >= capacity then end - capacity else end,
         size := s.size + |data|, pushed := s.pushed + data)
  }

  /** The bytes in the two slices that PeekMax has returned, as they are now. */
  function Slices(s: Shared): seq<byte>
    requires s.pc.Peeked? && s.readCursor + s.pc.first <= |s.cells| && s.pc.first <= s.pc.n
    requires s.pc.n - s.pc.first <= |s.cells|
  {
    s.cells[s.readCursor..s.readCursor + s.pc.first] + s.cells[..s.pc.n - s.pc.first]
  }

  predicate SlicesExist(s: Shared) {
    s.pc.Peeked? ==>
      s.readCursor + s.pc.first <= |s.cells| && s.pc.first <= s.pc.n && s.pc.n - s.pc.first <= |s.cells|
  }

  function FirstSlice(cursor: nat, n: nat, capacity: nat): nat {
    if capacity >= cursor && cursor + n > capacity then capacity - cursor else n
  }

  function Step(s: Shared, e: Event): Shared
    requires |s.cells| > 0 && s.writeCursor < |s.cells| && Enabled(s, e) && SlicesExist(s)
    requires e == BeginPullByte ==> s.readCursor < |s.cells|
  {
    var capacity := |s.cells|;
    match e
    case Push(data) => PushStep(s, data)
    case BeginPeek(max) => s.(pc := Sized(if max > s.size then s.size else max))
    case BeginPullByte => s.(pc := Fetched(s.cells[s.readCursor]), readCursor := s.readCursor + 1)
    case Continue =>
      match s.pc
      case Sized(n) => s.(pc := Peeked(n, FirstSlice(s.readCursor, n, capacity)))
      case Peeked(n, _) => s.(pc := Advanced(n), readCursor := s.readCursor + n, taken := s.taken + Slices(s))
      case Advanced(n) => s.(pc := Released(n), size := if s.size >= n then s.size - n else 0)
      case Released(_) =>
        s.(pc := Idle, readCursor := if s.readCursor >= capacity then s.readCursor - capacity else s.readCursor)
      case Fetched(b) => s.(pc := FetchedWrapped(b), readCursor := if s.readCursor == capacity then 0 else s.readCursor)
      case FetchedWrapped(b) => s.(pc := Idle, size := if s.size > 0 then s.size - 1 else 0, taken := s.taken + [b])
      case Idle => s
  }

  /** The cell of the oldest byte still counted in `size`. */
  function Oldest(s: Shared): int {
    var capacity := |s.cells|;
    match s.pc
    case Advanced(n) => s.readCursor - n
    case Released(_) => if s.readCursor >= capacity then s.readCursor - capacity else s.readCursor
    case Fetched(_) => s.readCursor - 1
    case FetchedWrapped(_) => if s.readCursor == 0 then capacity - 1 else s.readCursor - 1
    case _ => s.readCursor
  }

  /** Bytes that are no longer counted in `size`. */
  function Gone(s: Shared): int {
    match s.pc
    case Advanced(n) => |s.taken| - n
    case _ => |s.taken|
  }

  /**
   At every micro-step: the ring is the abstract queue of the bytes pushed and
   not yet released, and what has been taken is what was pushed first.
   */
  ghost predicate Inv(s: Shared) {
    && 0 <= Oldest(s) < |s.cells| && s.size <= |s.cells| && 0 <= Gone(s) <= |s.pushed|
    && s.writeCursor == Slot(Oldest(s), s.size, |s.cells|)
    && Ring(s.cells, Oldest(s), s.size) == s.pushed[Gone(s)..]
    && s.taken <= s.pushed
    && match s.pc
       case Idle => true
       case Sized(n) => n <= s.size
       case Peeked(n, first) => n <= s.size && first == FirstSlice(s.readCursor, n, |s.cells|)
       case Advanced(n) => n <= s.size
       case Released(_) => true
       case Fetched(b) => s.size > 0 && |s.taken| < |s.pushed| && b == s.pushed[|s.taken|]
       case FetchedWrapped(b) => s.readCursor < |s.cells| && s.size > 0 && |s.taken| < |s.pushed| && b == s.pushed[|s.taken|]
  }

  function Initial(capacity: nat): (s: Shared)
    requires capacity > 0
    ensures Inv(s)
  {
    Shared(seq(capacity, _ => 0), 0, 0, 0, Idle, [], [])
  }

  /** The slices in the consumer's hands still hold the oldest bytes of the queue. */
  lemma SlicesHold(s: Shared)
    requires Inv(s) && s.pc.Peeked?
    ensures SlicesExist(s) && |s.taken| + s.pc.n <= |s.pushed|
    ensures Slices(s) == s.pushed[|s.taken|..|s.taken| + s.pc.n]
  {
    RingSplit(s.cells, s.readCursor, s.pc.n, s.size);
    RingSlices(s.cells, s.readCursor, s.pc.n);
    assert s.pushed[|s.taken|..][..s.pc.n] == s.pushed[|s.taken|..|s.taken| + s.pc.n];
  }

  /** A push writes its data behind the ring's bytes and nothing else. */
  lemma PushCells(s: Shared, data: seq<byte>)
    requires Inv(s) && data != [] && s.size + |data| <= |s.cells|
    ensures var s' := PushStep(s, data);
            && |s'.cells| == |s.cells|
            && s'.writeCursor == Slot(Oldest(s), s.size + |data|, |s.cells|)
            && Ring(s'.cells, Oldest(s), s.size + |data|) == Ring(s.cells, Oldest(s), s.size) + data
  {
    var s', w, capacity := PushStep(s, data), s.writeCursor, |s.cells|;
    PushedCells(s, data);
    hide Ring, PushStep;
    RingWritten(s.cells, s'.cells, Oldest(s), s.size, data);
  }

  lemma PushedCells(s: Shared, data: seq<byte>)
    requires Inv(s) && data != [] && s.size + |data| <= |s.cells|
    ensures var s', w, capacity := PushStep(s, data), s.writeCursor, |s.cells|;
            && |s'.cells| == capacity
            && s'.writeCursor == Slot(Oldest(s), s.size + |data|, capacity)
            && (forall i :: 0 <= i < |data| ==> s'.cells[Slot(w, i, capacity)] == data[i])
            && (forall c | 0 <= c < capacity && (forall i :: 0 <= i < |data| ==> c != Slot(w, i, capacity))
                  :: s'.cells[c] == s.cells[c])
  {
    hide Ring;
    var s', w, capacity := PushStep(s, data), s.writeCursor, |s.cells|;
    forall c | 0 <= c < capacity && (forall i :: 0 <= i < |data| ==> c != Slot(w, i, capacity))
      ensures s'.cells[c] == s.cells[c]
    {
      var k: nat := if c >= w then c - w else c + capacity - w;
      assert c == Slot(w, k, capacity);
    }
  }

  lemma PushKeepsInv(s: Shared, data: seq<byte>)
    requires Inv(s)
    ensures Inv(PushStep(s, data))
  {
    if data != [] && s.size + |data| <= |s.cells| {
      PushCells(s, data);
      assert (s.pushed + data)[Gone(s)..] == s.pushed[Gone(s)..] + data;
    }
  }

  lemma ReleaseKeepsInv(s: Shared)
    requires Inv(s) && s.pc.Advanced?
    ensures Inv(Step(s, Continue))
  {
    var n := s.pc.n;
    RingSplit(s.cells, Oldest(s), n, s.size);
    assert s.pushed[Gone(s)..][n..] == s.pushed[|s.taken|..];
  }

  lemma UseKeepsInv(s: Shared)
    requires Inv(s) && s.pc.Peeked?
    ensures SlicesExist(s) && Inv(Step(s, Continue))
  {
    SlicesHold(s);
    var n := s.pc.n;
    assert s.taken + s.pushed[|s.taken|..|s.taken| + n] == s.pushed[..|s.taken| + n];
  }

  lemma PullByteKeepsInv(s: Shared)
    requires Inv(s) && s.pc.FetchedWrapped?
    ensures Inv(Step(s, Continue))
  {
    RingSplit(s.cells, Oldest(s), 1, s.size);
    assert s.pushed[|s.taken|..][1..] == s.pushed[|s.taken| + 1..];
    assert s.taken + [s.pc.b] == s.pushed[..|s.taken| + 1];
  }

  lemma FetchKeepsInv(s: Shared)
    requires Inv(s) && s.pc.Idle? && s.size > 0
    ensures s.readCursor < |s.cells| && Inv(Step(s, BeginPullByte))
  {
    assert Ring(s.cells, Oldest(s), s.size)[0] == s.cells[Slot(s.readCursor, 0, |s.cells|)];
    assert s.pushed[Gone(s)..][0] == s.pushed[|s.taken|];
  }

  lemma StepKeepsInv(s: Shared, e: Event)
    requires Inv(s) && Enabled(s, e)
    ensures s.writeCursor < |s.cells| && SlicesExist(s) && (e == BeginPullByte ==> s.readCursor < |s.cells|)
    ensures Inv(Step(s, e))
  {
    if s.pc.Peeked? { SlicesHold(s); }
    match e
    case Push(data) => PushKeepsInv(s, data);
    case BeginPeek(_) =>
    case BeginPullByte => FetchKeepsInv(s);
    case Continue =>
      match s.pc
      case Peeked(_, _) => UseKeepsInv(s);
      case Advanced(_) => ReleaseKeepsInv(s);
      case FetchedWrapped(_) => PullByteKeepsInv(s);
      case _ =>
  }

  function Next(s: Shared, e: Event): (t: Shared)
    requires Inv(s) && Enabled(s, e)
    ensures Inv(t)
  {
    StepKeepsInv(s, e);
    Step(s, e)
  }

  /** Runs of the two sides in any interleaving, from any state that satisfies the invariant. */
  ghost predicate Reaches(s: Shared, events: seq<Event>, t: Shared)
    requires Inv(s)
    decreases |events|
  {
    if events == [] then t == s
    else Enabled(s, events[0]) && Reaches(Next(s, events[0]), events[1..], t)
  }

  lemma {:induction false} RunKeepsInv(s: Shared, events: seq<Event>, t: Shared)
    requires Inv(s) && Reaches(s, events, t)
    ensures Inv(t)
    decreases |events|
  {
    if events != [] {
      RunKeepsInv(Next(s, events[0]), events[1..], t);
    }
  }

  /** What one event adds to the queue: the data of a push that finds room. */
  function Gained(s: Shared, e: Event): seq<byte> {
    if e.Push? && s.size + |e.data| <= |s.cells| then e.data else []
  }

  /** The pushes of a run that found room, in order. */
  function Accepted(s: Shared, events: seq<Event>): seq<byte>
    requires Inv(s)
    decreases |events|
  {
    if events == [] || !Enabled(s, events[0]) then []
    else Gained(s, events[0]) + Accepted(Next(s, events[0]), events[1..])
  }

  lemma StepGains(s: Shared, e: Event)
    requires Inv(s) && Enabled(s, e)
    ensures Next(s, e).pushed == s.pushed + Gained(s, e) && |Next(s, e).cells| == |s.cells|
  {
    hide Ring, Oldest, Gone;
    assert s.pushed + [] == s.pushed;
  }

  lemma {:induction false} PushedIsAccepted(s: Shared, events: seq<Event>, t: Shared)
    requires Inv(s) && Reaches(s, events, t)
    ensures t.pushed == s.pushed + Accepted(s, events) && |t.cells| == |s.cells|
    decreases |events|
  {
    if events == [] {
      assert s.pushed + [] == s.pushed;
    } else {
      StepGains(s, events[0]);
      var s' := Next(s, events[0]);
      PushedIsAccepted(s', events[1..], t);
      ConcatAssoc(s.pushed, Gained(s, events[0]), Accepted(s', events[1..]));
    }
  }

  /**
   In every interleaving the ring is a queue: what the consumer has taken is the
   beginning of the concatenation of the accepted pushes, what is counted in
   `size` is what comes next, and a pair of slices in use is still intact.
   */
  lemma InterleavedQueue(capacity: nat, events: seq<Event>, t: Shared)
    requires capacity > 0 && Reaches(Initial(capacity), events, t)
    ensures var stream := Accepted(Initial(capacity), events);
            && t.taken <= stream
            && 0 <= Oldest(t) < |t.cells| && 0 <= Gone(t) <= |stream| && t.size <= |t.cells| == capacity
            && Ring(t.cells, Oldest(t), t.size) == stream[Gone(t)..]
            && (t.pc.Peeked? ==> && SlicesExist(t) && |t.taken| + t.pc.n <= |stream|
                                 && Slices(t) == stream[|t.taken|..|t.taken| + t.pc.n])
  {
    RunKeepsInv(Initial(capacity), events, t);
    PushedIsAccepted(Initial(capacity), events, t);
    assert [] + Accepted(Initial(capacity), events) == Accepted(Initial(capacity), events);
    if t.pc.Peeked? { SlicesHold(t); }
  }

  // ------------------------------------------------- operations of the consumer

  /** Micro-steps until the consumer's operation is over, and what it still takes out. */
  function StepsLeft(pc: Pc): nat {
    match pc
    case Idle => 0
    case Sized(_) => 4
    case Peeked(_, _) => 3
    case Advanced(_) => 2
    case Released(_) => 1
    case Fetched(_) => 2
    case FetchedWrapped(_) => 1
  }

  function Takes(pc: Pc): nat {
    match pc
    case Sized(n) => n
    case Peeked(n, _) => n
    case Fetched(_) => 1
    case FetchedWrapped(_) => 1
    case _ => 0
  }

  /** Pushes between so many micro-steps. */
  predicate Interrupted(events: seq<Event>, steps: nat) {
    if events == [] then steps == 0
    else if events[0].Push? then Interrupted(events[1..], steps)
    else events[0] == Continue && steps > 0 && Interrupted(events[1..], steps - 1)
  }

  lemma OneStep(s: Shared, e: Event)
    requires Inv(s) && Enabled(s, e) && (e.Push? || e == Continue)
    ensures var t := Next(s, e);
            && StepsLeft(t.pc) == StepsLeft(s.pc) - (if e.Push? then 0 else 1)
            && |t.taken| + Takes(t.pc) == |s.taken| + Takes(s.pc)
  {
    StepKeepsInv(s, e);
    if s.pc.Peeked? { SlicesHold(s); }
    hide Ring;
  }

  lemma {:induction false} OperationEnds(s: Shared, events: seq<Event>, t: Shared)
    requires Inv(s) && Reaches(s, events, t) && Interrupted(events, StepsLeft(s.pc))
    ensures Inv(t) && t.pc == Idle && |t.taken| == |s.taken| + Takes(s.pc) && s.pushed <= t.pushed
    decreases |events|
  {
    RunKeepsInv(s, events, t);
    PushedIsAccepted(s, events, t);
    if events == [] {
      assert t == s;
    } else {
      OneStep(s, events[0]);
      hide Inv, Ring;
      OperationEnds(Next(s, events[0]), events[1..], t);
    }
  }

  /** Once the consumer is idle, what it has taken is all that is no longer counted in `size`. */
  lemma IdleCounts(s: Shared)
    requires Inv(s) && s.pc == Idle
    ensures s.taken <= s.pushed && |s.taken| + s.size == |s.pushed|
  {
    assert |Ring(s.cells, Oldest(s), s.size)| == s.size;
  }

  lemma TakenNext(s: Shared, t: Shared, n: nat)
    requires s.taken <= s.pushed <= t.pushed && t.taken <= t.pushed
    requires |t.taken| == |s.taken| + n && |s.taken| + n <= |s.pushed|
    ensures t.taken == s.taken + s.pushed[|s.taken|..|s.taken| + n]
  {
  }

  /**
   Whatever the interrupt handler pushes in between, a peek with its pull takes as many
   of the oldest bytes as there are, up to the maximum, and a single pull takes one.
   */
  lemma ConsumerTakes(s: Shared, start: Event, events: seq<Event>, t: Shared)
    requires Inv(s) && s.pc == Idle && Enabled(s, start) && (start.BeginPeek? || start == BeginPullByte)
    requires Reaches(Next(s, start), events, t) && Interrupted(events, StepsLeft(Next(s, start).pc))
    ensures var n := if start == BeginPullByte then 1 else if start.max > s.size then s.size else start.max;
            && |s.taken| + n <= |s.pushed| && t.pc == Idle
            && t.taken == s.taken + s.pushed[|s.taken|..|s.taken| + n]
            && |t.taken| + t.size == |t.pushed|
  {
    var b := Next(s, start);
    Begins(s, start);
    OperationEnds(b, events, t);
    IdleCounts(s);
    IdleCounts(t);
    hide Inv, Ring, Reaches, Interrupted;
    TakenNext(s, t, Takes(b.pc));
  }

  lemma Begins(s: Shared, start: Event)
    requires Inv(s) && s.pc == Idle && Enabled(s, start) && (start.BeginPeek? || start == BeginPullByte)
    ensures var b := Next(s, start);
            && b.taken == s.taken && b.pushed == s.pushed
            && Takes(b.pc) == if start == BeginPullByte then 1 else if start.max > s.size then s.size else start.max
  {
    StepKeepsInv(s, start);
    hide Ring;
  }
}
