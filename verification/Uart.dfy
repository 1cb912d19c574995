/**
 The UART (app_layer_v1/uart.c): bytes from the host wait in a transmit queue until
 the transmitter takes them, received bytes wait in a receive queue until the main
 loop passes them on. The transmit interrupt enable bit and the number of bytes that
 have left the transmit queue unreported keep the host from overflowing it.

 The queues are sequences of bytes here; module UartModule ties them to the ring
 buffers.
 */
module Uart {
  import opened Bytes
  import opened Credit

  const RX_BUF_SIZE := 256
  const TX_BUF_SIZE := 256
  const MESSAGE_SIZE := 64

  /** A received byte and whether it came without a frame or parity error. */
  datatype Arrival = Arrival(b: byte, noError: bool)

  /**
   The fields of UART_STATE. `enabled` is the transmit interrupt enable bit, `line`
   what the transmitter has been given, `kept` the received bytes that were queued,
   `dropped` whether one found the queue full, `overflow` whether data from the host did.
   */
  datatype Dev = Dev(
    unreported: int, rx: seq<byte>, tx: seq<byte>, enabled: bool,
    line: seq<byte>, kept: seq<byte>, dropped: bool, overflow: bool)

  /** TXInterrupt: the transmitter is full after `room` more bytes. */
  function TXInterrupt(d: Dev, room: nat): Dev
    decreases room
  {
    if d.tx == [] || room == 0 then d.(enabled := d.tx != [])
    else TXInterrupt(Shift(d), room - 1)
  }

  function Shift(d: Dev): Dev
    requires d.tx != []
  {
    d.(tx := d.tx[1..], line := d.line + [d.tx[0]], unreported := d.unreported + 1)
  }

  /** RXInterrupt: `arrivals` is what the receiver holds. */
  function RXInterrupt(d: Dev, arrivals: seq<Arrival>): Dev
    decreases |arrivals|
  {
    if arrivals == [] then d else RXInterrupt(Accept(d, arrivals[0]), arrivals[1..])
  }

  function Accept(d: Dev, a: Arrival): Dev {
    if !a.noError then d
    else if |d.rx| == RX_BUF_SIZE then d.(dropped := true)
    else d.(rx := d.rx + [a.b], kept := d.kept + [a.b])
  }

  /** UARTTransmit. */
  function Transmit(d: Dev, data: seq<byte>): Dev {
    if |d.tx| + |data| > TX_BUF_SIZE && data != [] then d.(overflow := true, enabled := true)
    else d.(tx := d.tx + data, enabled := true)
  }

  // --------------------------------------------------------------- the system

  /** The main loop inside UARTTasks, between two steps that an interrupt can separate. */
  datatype Task =
    | Loop                     // before the look at the receive queue
    | Peeked(length: nat)      // the message is about to be sent
    | Releasing(length: nat)   // it has been sent, the bytes not yet pulled
    | CheckReport              // before the test of the number of unreported bytes
    | Reporting                // the test has succeeded

  /**
   The module with the host at the other end of the connection. `offered` and
   `arrived` are a record that no step reads: what the host sent and what the
   receiver saw.
   */
  datatype Sys = Sys(
    dev: Dev, task: Task, credit: int, toDevice: seq<seq<byte>>, toHost: seq<nat>, sent: seq<seq<byte>>,
    offered: seq<byte>, arrived: seq<Arrival>)

  datatype Event =
    | HostSends(data: seq<byte>)
    | HostReceives
    | Deliver
    | TxIsr(room: nat)
    | RxIsr(arrivals: seq<Arrival>)
    | TaskStep

  /** The host spends only what it has been granted; a message holds 1 to 64 bytes. */
  predicate Enabled(s: Sys, e: Event) {
    match e
    case HostSends(data) => s.credit >= |data| && 1 <= |data| <= MESSAGE_SIZE
    case HostReceives => s.toHost != []
    case Deliver => s.task == Loop && s.toDevice != []
    case TxIsr(_) => s.dev.enabled
    case _ => true
  }

  /** The assertions of the queue operations that UARTTasks calls. */
  predicate CanTask(s: Sys) {
    match s.task
    case Peeked(n) => n <= |s.dev.rx|
    case Releasing(n) => n <= |s.dev.rx|
    case _ => true
  }

  function TaskStepOf(s: Sys): Sys
    requires CanTask(s)
  {
    match s.task
    case Loop =>
      var n := if |s.dev.rx| < MESSAGE_SIZE then |s.dev.rx| else MESSAGE_SIZE;
      s.(task := if n == 0 then CheckReport else Peeked(n))
    case Peeked(n) => s.(task := Releasing(n), sent := s.sent + [s.dev.rx[..n]])
    case Releasing(n) => s.(task := CheckReport, dev := s.dev.(rx := s.dev.rx[n..]))
    case CheckReport => s.(task := if s.dev.unreported > TX_BUF_SIZE / 2 then Reporting else Loop)
    case Reporting =>
      s.(task := Loop, dev := s.dev.(unreported := 0),
         toHost := s.toHost + [if s.dev.unreported >= 0 then s.dev.unreported else 0])
  }

  predicate CanStep(s: Sys, e: Event) {
    e.TaskStep? ==> CanTask(s)
  }

  function Step(s: Sys, e: Event): Sys
    requires Enabled(s, e) && CanStep(s, e)
  {
    match e
    case HostSends(data) =>
      s.(credit := s.credit - |data|, toDevice := s.toDevice + [data], offered := s.offered + data)
    case HostReceives => s.(credit := s.credit + s.toHost[0], toHost := s.toHost[1..])
    case Deliver => s.(toDevice := s.toDevice[1..], dev := Transmit(s.dev, s.toDevice[0]))
    case TxIsr(room) => s.(dev := TXInterrupt(s.dev, room))
    case RxIsr(arrivals) => s.(dev := RXInterrupt(s.dev, arrivals), arrived := s.arrived + arrivals)
    case TaskStep => TaskStepOf(s)
  }

  /** After UARTConfig with a rate: empty queues, and the whole transmit buffer unreported. */
  function Configured(): Sys {
    Sys(Dev(TX_BUF_SIZE, [], [], false, [], [], false, false), Loop, 0, [], [], [], [], [])
  }

  // ------------------------------------------------------------ the invariant

  function Join(pieces: seq<seq<byte>>): seq<byte> {
    if pieces == [] then [] else pieces[0] + Join(pieces[1..])
  }

  /** The bytes that came without an error. */
  function Good(arrivals: seq<Arrival>): seq<byte> {
    if arrivals == [] then []
    else
      var n := |arrivals| - 1;
      Good(arrivals[..n]) + if arrivals[n].noError then [arrivals[n].b] else []
  }

  /** `a` is what is left of `b` when some elements are taken out. */
  predicate Subsequence(a: seq<byte>, b: seq<byte>) {
    if b == [] then a == []
    else
      || Subsequence(a, b[..|b| - 1])
      || (a != [] && a[|a| - 1] == b[|b| - 1] && Subsequence(a[..|a| - 1], b[..|b| - 1]))
  }

  /** Every byte of the transmit buffer is accounted for exactly once, and no byte is lost. */
  predicate TxInv(s: Sys) {
    && !s.dev.overflow && s.credit >= 0 && s.dev.unreported >= 0
    && s.credit + |Join(s.toDevice)| + |s.dev.tx| + s.dev.unreported + Total(s.toHost) == TX_BUF_SIZE
    && s.dev.line + s.dev.tx + Join(s.toDevice) == s.offered
    && (s.dev.tx != [] ==> s.dev.enabled)
  }

  /** Bytes at the head of the receive queue that have been sent already. */
  function Held(s: Sys): nat {
    if s.task.Releasing? then s.task.length else 0
  }

  predicate TaskOk(s: Sys) {
    match s.task
    case Peeked(n) => 1 <= n <= MESSAGE_SIZE && n <= |s.dev.rx|
    case Releasing(n) => 1 <= n <= |s.dev.rx|
    case _ => true
  }

  predicate RxInv(s: Sys) {
    && |s.dev.rx| <= RX_BUF_SIZE && TaskOk(s)
    && Join(s.sent) + s.dev.rx[Held(s)..] == s.dev.kept
    && (forall m :: m in s.sent ==> 1 <= |m| <= MESSAGE_SIZE)
  }

  predicate KeptInv(d: Dev, arrived: seq<Arrival>) {
    && Subsequence(d.kept, Good(arrived)) && (!d.dropped ==> d.kept == Good(arrived))
    && |d.rx| <= |d.kept| && (d.dropped ==> |Good(arrived)| > RX_BUF_SIZE)
  }

  lemma {:induction false} SubsequenceLength(a: seq<byte>, b: seq<byte>)
    requires Subsequence(a, b)
    ensures |a| <= |b|
    decreases |b|
  {
    if b != [] {
      if Subsequence(a, b[..|b| - 1]) { SubsequenceLength(a, b[..|b| - 1]); } else { SubsequenceLength(a[..|a| - 1], b[..|b| - 1]); }
    }
  }

  predicate Inv(s: Sys) {
    TxInv(s) && RxInv(s) && KeptInv(s.dev, s.arrived)
  }

  lemma {:induction false} JoinSnoc(pieces: seq<seq<byte>>, p: seq<byte>)
    ensures Join(pieces + [p]) == Join(pieces) + p
  {
    if pieces == [] {
      assert [p][1..] == [] && [] + [p] == [p];
    } else {
      assert (pieces + [p])[1..] == pieces[1..] + [p];
      JoinSnoc(pieces[1..], p);
    }
  }

  // --------------------------------------------------------- the transmit side

  lemma {:induction false} TXInterruptKeeps(d: Dev, room: nat)
    ensures var r := TXInterrupt(d, room);
            && r.line + r.tx == d.line + d.tx && r.unreported + |r.tx| == d.unreported + |d.tx|
            && |r.tx| == (if room < |d.tx| then |d.tx| - room else 0) && (r.enabled <==> r.tx != [])
            && r.rx == d.rx && r.kept == d.kept && r.dropped == d.dropped && r.overflow == d.overflow
    decreases room
  {
    if d.tx != [] && room != 0 {
      TXInterruptKeeps(Shift(d), room - 1);
      assert d.tx == [d.tx[0]] + d.tx[1..];
    }
  }

  lemma HostKeepsTx(s: Sys, e: Event)
    requires TxInv(s) && Enabled(s, e) && CanStep(s, e) && (e.HostSends? || e.HostReceives?)
    ensures TxInv(Step(s, e))
  {
    if e.HostSends? {
      JoinSnoc(s.toDevice, e.data);
      ConcatAssoc(s.dev.line + s.dev.tx, Join(s.toDevice), e.data);
    }
  }

  lemma DeliverKeepsTx(s: Sys)
    requires TxInv(s) && s.toDevice != [] && s.task == Loop
    ensures TxInv(Step(s, Deliver))
  {
    var data, later := s.toDevice[0], Join(s.toDevice[1..]);
    assert Join(s.toDevice) == data + later;
    assert s.dev.line + s.dev.tx + (data + later) == s.dev.line + (s.dev.tx + data) + later;
  }

  lemma InterruptKeepsTx(s: Sys, room: nat)
    requires TxInv(s)
    ensures TxInv(s.(dev := TXInterrupt(s.dev, room)))
  {
    TXInterruptKeeps(s.dev, room);
  }

  lemma ReportKeepsTx(s: Sys)
    requires TxInv(s) && CanTask(s)
    ensures TxInv(TaskStepOf(s))
  {
    if s.task.Reporting? { TotalSnoc(s.toHost, s.dev.unreported); }
  }

  // ---------------------------------------------------------- the receive side

  lemma SubsequenceKeeps(a: seq<byte>, b: seq<byte>, x: byte)
    requires Subsequence(a, b)
    ensures Subsequence(a + [x], b + [x]) && Subsequence(a, b + [x])
  {
    assert (a + [x])[..|a|] == a && (b + [x])[..|b|] == b;
  }

  lemma GoodSnoc(arrived: seq<Arrival>, a: Arrival)
    ensures Good(arrived + [a]) == Good(arrived) + if a.noError then [a.b] else []
  {
    assert (arrived + [a])[..|arrived|] == arrived;
  }

  lemma AcceptKeeps(d: Dev, arrived: seq<Arrival>, a: Arrival)
    requires KeptInv(d, arrived)
    ensures KeptInv(Accept(d, a), arrived + [a])
  {
    GoodSnoc(arrived, a);
    SubsequenceLength(d.kept, Good(arrived));
    if a.noError {
      SubsequenceKeeps(d.kept, Good(arrived), a.b);
    } else {
      assert Good(arrived) + [] == Good(arrived);
    }
  }

  /** What an interrupt queues, it queues behind what was there. */
  predicate Extends(d: Dev, r: Dev, more: seq<byte>) {
    && r.rx == d.rx + more && r.kept == d.kept + more && |r.rx| <= RX_BUF_SIZE
    && r == d.(rx := r.rx, kept := r.kept, dropped := r.dropped)
  }

  lemma ExtendsFurther(d: Dev, r: Dev, more: seq<byte>, t: Dev, later: seq<byte>)
    requires Extends(d, r, more) && Extends(r, t, later)
    ensures Extends(d, t, more + later)
  {
    ConcatAssoc(d.rx, more, later);
    ConcatAssoc(d.kept, more, later);
  }

  lemma AcceptExtends(d: Dev, a: Arrival) returns (more: seq<byte>)
    requires |d.rx| <= RX_BUF_SIZE
    ensures Extends(d, Accept(d, a), more)
  {
    more := if a.noError && |d.rx| < RX_BUF_SIZE then [a.b] else [];
    assert d.rx + [] == d.rx && d.kept + [] == d.kept;
  }

  lemma {:induction false} RXInterruptKeeps(d: Dev, arrived: seq<Arrival>, arrivals: seq<Arrival>)
    returns (more: seq<byte>)
    requires KeptInv(d, arrived) && |d.rx| <= RX_BUF_SIZE
    ensures KeptInv(RXInterrupt(d, arrivals), arrived + arrivals) && Extends(d, RXInterrupt(d, arrivals), more)
    decreases |arrivals|
  {
    if arrivals == [] {
      more := [];
      assert arrived + arrivals == arrived && d.rx + [] == d.rx && d.kept + [] == d.kept;
    } else {
      var next := Accept(d, arrivals[0]);
      var first := AcceptExtends(d, arrivals[0]);
      AcceptKeeps(d, arrived, arrivals[0]);
      hide KeptInv, Accept;
      var later := RXInterruptKeeps(next, arrived + [arrivals[0]], arrivals[1..]);
      assert arrived + [arrivals[0]] + arrivals[1..] == arrived + arrivals;
      ExtendsFurther(d, next, first, RXInterrupt(d, arrivals), later);
      more := first + later;
    }
  }

  lemma ArrivalsKeepRx(s: Sys, arrivals: seq<Arrival>)
    requires RxInv(s) && KeptInv(s.dev, s.arrived) && TxInv(s)
    ensures Inv(Step(s, RxIsr(arrivals)))
  {
    var more := RXInterruptKeeps(s.dev, s.arrived, arrivals);
    var h := Held(s);
    assert (s.dev.rx + more)[h..] == s.dev.rx[h..] + more;
    ConcatAssoc(Join(s.sent), s.dev.rx[h..], more);
  }

  lemma TaskKeepsRx(s: Sys)
    requires RxInv(s)
    ensures CanTask(s) && RxInv(TaskStepOf(s))
  {
    match s.task
    case Peeked(n) =>
      JoinSnoc(s.sent, s.dev.rx[..n]);
      assert s.dev.rx[..n] + s.dev.rx[n..] == s.dev.rx == s.dev.rx[0..];
      ConcatAssoc(Join(s.sent), s.dev.rx[..n], s.dev.rx[n..]);
    case _ =>
  }

  lemma StepKeepsInv(s: Sys, e: Event)
    requires Inv(s) && Enabled(s, e)
    ensures CanStep(s, e) && Inv(Step(s, e))
  {
    match e
    case HostSends(_) => HostKeepsTx(s, e);
    case HostReceives => HostKeepsTx(s, e);
    case Deliver => DeliverKeepsTx(s);
    case TxIsr(room) =>
      InterruptKeepsTx(s, room);
      TXInterruptKeeps(s.dev, room);
    case RxIsr(arrivals) => ArrivalsKeepRx(s, arrivals);
    case TaskStep =>
      TaskKeepsRx(s);
      ReportKeepsTx(s);
  }

  // ----------------------------------------------------------------- the runs

  /** Every event is possible when it happens; what the code asserts need not hold. */
  predicate Legal(s: Sys, events: seq<Event>)
    decreases |events|
  {
    events == [] || (Enabled(s, events[0]) && (CanStep(s, events[0]) ==> Legal(Step(s, events[0]), events[1..])))
  }

  function Run(s: Sys, events: seq<Event>): Sys
    decreases |events|
  {
    if events == [] || !Enabled(s, events[0]) || !CanStep(s, events[0]) then s
    else Run(Step(s, events[0]), events[1..])
  }

  /** No assertion of a queue operation fails on the way. */
  predicate Safe(s: Sys, events: seq<Event>)
    decreases |events|
  {
    events == [] || (Enabled(s, events[0]) && CanStep(s, events[0]) && Safe(Step(s, events[0]), events[1..]))
  }

  lemma {:induction false} RunKeepsInv(s: Sys, events: seq<Event>)
    requires Inv(s) && Legal(s, events)
    ensures Safe(s, events) && Inv(Run(s, events))
    decreases |events|
  {
    if events != [] {
      StepKeepsInv(s, events[0]);
      RunKeepsInv(Step(s, events[0]), events[1..]);
    }
  }

  lemma ConfiguredInv()
    ensures Inv(Configured())
  {
    assert Join([]) == [] && Total([]) == 0;
  }

  lemma InvSays(s: Sys)
    requires Inv(s)
    ensures !s.dev.overflow && s.dev.line + s.dev.tx + Join(s.toDevice) == s.offered
    ensures s.credit + |Join(s.toDevice)| + |s.dev.tx| + s.dev.unreported + Total(s.toHost) == TX_BUF_SIZE
    ensures s.dev.tx != [] ==> s.dev.enabled
    ensures forall m :: m in s.sent ==> 1 <= |m| <= MESSAGE_SIZE
    ensures Join(s.sent) <= s.dev.kept && Subsequence(s.dev.kept, Good(s.arrived))
    ensures |s.dev.kept| - |Join(s.sent)| <= RX_BUF_SIZE
    ensures !s.dev.dropped ==> s.dev.kept == Good(s.arrived)
    ensures s.dev.dropped ==> |Good(s.arrived)| > RX_BUF_SIZE
  {
    hide Join, Total, Good, Subsequence;
  }

  /**
   A host that spends only granted credit never overflows the transmit queue, and in
   every run its bytes go out in order and none is lost; every byte of the buffer is
   either granted, in transit, queued or not yet reported. What is received goes to
   the host in messages of 1 to 64 bytes, in order; a good byte is missing only after
   the receive queue has been full.
   */
  lemma UartRuns(events: seq<Event>)
    requires Legal(Configured(), events)
    ensures Safe(Configured(), events)
    ensures var s := Run(Configured(), events);
            && !s.dev.overflow && s.dev.line + s.dev.tx + Join(s.toDevice) == s.offered
            && s.credit + |Join(s.toDevice)| + |s.dev.tx| + s.dev.unreported + Total(s.toHost) == TX_BUF_SIZE
            && (s.dev.tx != [] ==> s.dev.enabled)
    ensures var s := Run(Configured(), events);
            && (forall m :: m in s.sent ==> 1 <= |m| <= MESSAGE_SIZE)
            && Join(s.sent) <= s.dev.kept && Subsequence(s.dev.kept, Good(s.arrived))
            && |s.dev.kept| - |Join(s.sent)| <= RX_BUF_SIZE
            && (!s.dev.dropped ==> s.dev.kept == Good(s.arrived))
            && (s.dev.dropped ==> |Good(s.arrived)| > RX_BUF_SIZE)
  {
    ConfiguredInv();
    RunKeepsInv(Configured(), events);
    InvSays(Run(Configured(), events));
    hide *;
  }

  /** A byte is dropped exactly when there is no room for all the good ones that arrive. */
  lemma {:induction false} RoomForArrivals(d: Dev, arrivals: seq<Arrival>)
    requires |d.rx| <= RX_BUF_SIZE && !d.dropped
    ensures RXInterrupt(d, arrivals).dropped <==> |d.rx| + |Good(arrivals)| > RX_BUF_SIZE
    decreases |arrivals|
  {
    if arrivals != [] {
      var next := Accept(d, arrivals[0]);
      GoodFirst(arrivals);
      hide Good;
      if next.dropped {
        DroppedStays(next, arrivals[1..]);
      } else {
        RoomForArrivals(next, arrivals[1..]);
      }
    }
  }

  lemma {:induction false} GoodFirst(arrivals: seq<Arrival>)
    requires arrivals != []
    ensures |Good(arrivals)| == |Good(arrivals[1..])| + if arrivals[0].noError then 1 else 0
    decreases |arrivals|
  {
    var n := |arrivals| - 1;
    if n == 0 {
      assert arrivals[..0] == [] && arrivals[1..] == [];
    } else {
      assert arrivals[..n][1..] == arrivals[1..][..n - 1] && arrivals[1..][n - 1] == arrivals[n];
      GoodFirst(arrivals[..n]);
    }
  }

  lemma {:induction false} DroppedStays(d: Dev, arrivals: seq<Arrival>)
    requires d.dropped
    ensures RXInterrupt(d, arrivals).dropped
    decreases |arrivals|
  {
    if arrivals != [] { DroppedStays(Accept(d, arrivals[0]), arrivals[1..]); }
  }

  // -------------------------------------------------- the host is never stuck

  function HostReceivesAll(s: Sys): Sys
    decreases |s.toHost|
  {
    if s.toHost == [] then s else HostReceivesAll(Step(s, HostReceives))
  }

  lemma {:induction false} AllReceived(s: Sys)
    requires Inv(s)
    ensures var t := HostReceivesAll(s); Inv(t) && t.toHost == [] && t.dev == s.dev && t.toDevice == s.toDevice
    decreases |s.toHost|
  {
    if s.toHost != [] {
      StepKeepsInv(s, HostReceives);
      AllReceived(Step(s, HostReceives));
    }
  }

  // --------------------------------------------------- what the main loop gets done

  /** Steps of the main loop that nothing interrupts. */
  function Undisturbed(s: Sys, n: nat): Sys
    decreases n
  {
    if n == 0 || !CanTask(s) then s else Undisturbed(TaskStepOf(s), n - 1)
  }

  /** Steps until the loop has passed on everything and is back at its start. */
  function Ahead(s: Sys): int {
    match s.task
    case Loop => 5 * |s.dev.rx|
    case Peeked(_) => 5 * |s.dev.rx| - 1
    case Releasing(_) => 5 * |s.dev.rx| - 2
    case CheckReport => 5 * |s.dev.rx| + 2
    case Reporting => 5 * |s.dev.rx| + 1
  }

  /** The loop has nothing to pass on. */
  predicate Resting(s: Sys) {
    s.task == Loop && s.dev.rx == []
  }

  lemma StepAhead(s: Sys)
    requires Inv(s) && !Resting(s)
    ensures CanTask(s) && var t := TaskStepOf(s); Inv(t) && Ahead(t) < Ahead(s) && t.dev.kept == s.dev.kept
  {
    StepKeepsInv(s, TaskStep);
    hide Join, Total, Good, Subsequence;
  }

  lemma AheadSays(s: Sys)
    requires Inv(s)
    ensures Ahead(s) >= 0 && (Resting(s) ==> Join(s.sent) == s.dev.kept)
  {
    hide Join, Total, Good, Subsequence;
    assert Resting(s) ==> Join(s.sent) + [] == Join(s.sent);
  }

  /** Undisturbed, the main loop passes on everything that has been received. */
  lemma {:induction false} BytesReachHost(s: Sys) returns (n: nat)
    requires Inv(s)
    ensures n <= Ahead(s)
    ensures var t := Undisturbed(s, n); Inv(t) && Resting(t) && Join(t.sent) == s.dev.kept
    decreases Ahead(s)
  {
    hide *;
    AheadSays(s);
    if Resting(s) {
      n := 0;
      NoSteps(s);
    } else {
      StepAhead(s);
      AheadSays(TaskStepOf(s));
      var m := BytesReachHost(TaskStepOf(s));
      n := m + 1;
      FirstStep(s, m);
    }
  }

  lemma NoSteps(s: Sys)
    ensures Undisturbed(s, 0) == s
  {
  }

  lemma FirstStep(s: Sys, n: nat)
    requires CanTask(s)
    ensures Undisturbed(s, n + 1) == Undisturbed(TaskStepOf(s), n)
  {
    hide TaskStepOf;
  }

  /** An undisturbed pass from the test to the loop's start. */
  function Pass(s: Sys): Sys
    requires s.task == CheckReport
  {
    var t := TaskStepOf(s);
    if t.task == Reporting then TaskStepOf(t) else t
  }

  /**
   Once the transmitter has taken everything, one undisturbed pass and the reports on
   their way leave the host with at least half of the buffer to spend.
   */
  lemma HostGetsCredit(s: Sys)
    requires Inv(s) && s.task == CheckReport && s.dev.tx == [] && s.toDevice == []
    ensures HostReceivesAll(Pass(s)).credit >= TX_BUF_SIZE / 2
  {
    StepKeepsInv(s, TaskStep);
    var t := TaskStepOf(s);
    if t.task == Reporting { StepKeepsInv(t, TaskStep); }
    AllReceived(Pass(s));
  }

  /** A report is worth its message: more than half of the buffer is free. */
  ghost predicate Large(s: Sys) {
    && (s.task.Reporting? ==> s.dev.unreported > TX_BUF_SIZE / 2)
    && forall r :: r in s.toHost ==> r > TX_BUF_SIZE / 2
  }

  lemma TaskKeepsLarge(s: Sys)
    requires Large(s) && CanTask(s)
    ensures Large(TaskStepOf(s))
  {
    var t := TaskStepOf(s);
    if s.task.Reporting? {
      assert t.toHost == s.toHost + [s.dev.unreported];
    } else {
      assert t.toHost == s.toHost;
    }
  }

  lemma StepKeepsLarge(s: Sys, e: Event)
    requires Large(s) && Enabled(s, e) && CanStep(s, e)
    ensures Large(Step(s, e))
  {
    match e
    case TxIsr(room) => TXInterruptKeeps(s.dev, room);
    case RxIsr(arrivals) => RXInterruptCounts(s.dev, arrivals);
    case HostReceives => assert forall r :: r in s.toHost[1..] ==> r in s.toHost;
    case Deliver =>
    case TaskStep => TaskKeepsLarge(s);
    case _ =>
  }

  lemma {:induction false} RXInterruptCounts(d: Dev, arrivals: seq<Arrival>)
    ensures RXInterrupt(d, arrivals).unreported == d.unreported
    decreases |arrivals|
  {
    if arrivals != [] { RXInterruptCounts(Accept(d, arrivals[0]), arrivals[1..]); }
  }

  lemma {:induction false} RunKeepsLarge(s: Sys, events: seq<Event>)
    requires Large(s)
    ensures Large(Run(s, events))
    decreases |events|
  {
    if events != [] && Enabled(s, events[0]) && CanStep(s, events[0]) {
      StepKeepsLarge(s, events[0]);
      hide Large, Step, Enabled, CanStep;
      RunKeepsLarge(Step(s, events[0]), events[1..]);
    }
  }

  /** In every run the host is only told of more than half of the buffer at a time. */
  lemma ReportsAreLarge(events: seq<Event>)
    ensures forall r :: r in Run(Configured(), events).toHost ==> r > TX_BUF_SIZE / 2
  {
    RunKeepsLarge(Configured(), events);
    hide Run;
  }
}
