/**
 What the main loop gets done on its own (SPITasks): every waiting report of a packet
 reaches the host, and so do the reports of free buffer space; and what the interrupt
 handler gets done: every packet comes to its end.
 */
module SpiProgress {
  import opened Bytes
  import opened Credit
  import opened Spi

  /** Steps of the main loop that nothing interrupts. */
  function Undisturbed(s: Sys, n: nat): Sys
    decreases n
  {
    if n == 0 then s else Undisturbed(Next(s, TaskStep), n - 1)
  }

  /** Steps until the loop has passed on everything and is back at its start. */
  function Ahead(s: Sys): int {
    match s.task
    case Loop => 5 * s.dev.ready
    case GotDest(_) => 5 * s.dev.ready - 1
    case GotSize(_, _) => 5 * s.dev.ready - 2
    case Releasing(_) => 5 * s.dev.ready - 3
    case Released => 5 * s.dev.ready - 4
    case CheckReport => 5 * s.dev.ready + 2
    case Reporting => 5 * s.dev.ready + 1
  }

  /** The loop has nothing to pass on. */
  predicate Idle(s: Sys) {
    s.task == Loop && s.dev.ready == 0
  }

  /** What such steps leave alone; a report moves unreported bytes on their way to the host. */
  predicate Passed(s: Sys, t: Sys) {
    && t.packets == s.packets && t.reports == s.reports && t.issued == s.issued && t.dev.tx == s.dev.tx
    && t.credit == s.credit && t.toDevice == s.toDevice && t.dev.inProgress == s.dev.inProgress
  }

  /** The state of a run in which no result has been dropped. */
  ghost predicate Sound(s: Sys) {
    Inv(s) && !s.dev.overflow
  }

  lemma ReadyCounts(s: Sys)
    requires Sound(s)
    ensures Ahead(s) >= 0 && (Idle(s) ==> s.sent == s.reports)
  {
    hide TxInv, PacketsInv, CreditInv, EncodeReports, Held, Arriving, TaskOk;
    assert s.reports[..|s.reports|] == s.reports;
  }

  lemma TaskKeepsSound(s: Sys)
    requires Sound(s)
    ensures CanTask(s) && Next(s, TaskStep) == TaskStepOf(s) && Sound(TaskStepOf(s))
  {
    StepKeepsInv(s, TaskStep);
    NextIsTask(s);
    hide *;
    Soundly(s);
  }

  lemma NextIsTask(s: Sys)
    requires CanStep(s, TaskStep)
    ensures CanTask(s) && Next(s, TaskStep) == TaskStepOf(s) == Step(s, TaskStep)
    ensures TaskStepOf(s).dev.overflow == s.dev.overflow
  {
  }

  lemma Soundly(s: Sys)
    requires Sound(s) && CanTask(s) && TaskStepOf(s).dev.overflow == s.dev.overflow
    requires !TaskStepOf(s).dev.overflow ==> Inv(TaskStepOf(s))
    ensures Sound(TaskStepOf(s))
  {
    hide Inv, TaskStepOf, CanTask;
  }

  lemma TaskMoves(s: Sys)
    requires CanTask(s) && !Idle(s)
    ensures var t := TaskStepOf(s); Ahead(t) < Ahead(s) && Passed(s, t)
  {
  }

  lemma StepAhead(s: Sys)
    requires Sound(s) && !Idle(s)
    ensures var t := Next(s, TaskStep); Sound(t) && 0 <= Ahead(t) < Ahead(s) && Passed(s, t)
  {
    TaskKeepsSound(s);
    TaskMoves(s);
    ReadyCounts(TaskStepOf(s));
    hide *;
  }

  /** Undisturbed, the main loop passes every waiting report on, each in at most five steps. */
  lemma {:induction false} ResultsReachHost(s: Sys) returns (n: nat)
    requires Sound(s)
    ensures n <= Ahead(s)
    ensures var t := Undisturbed(s, n); Sound(t) && Idle(t) && t.sent == s.reports && Passed(s, t)
    decreases Ahead(s)
  {
    hide *;
    ReadyCounts(s);
    if Idle(s) {
      n := 0;
      NoSteps(s);
    } else {
      StepAhead(s);
      var m := ResultsReachHost(Next(s, TaskStep));
      n := m + 1;
      FirstStep(s, m);
      PassedThen(s, Next(s, TaskStep), Undisturbed(s, n));
    }
  }

  lemma NoSteps(s: Sys)
    ensures Undisturbed(s, 0) == s && Passed(s, s)
  {
  }

  lemma FirstStep(s: Sys, n: nat)
    ensures Undisturbed(s, n + 1) == Undisturbed(Next(s, TaskStep), n)
  {
    hide Next;
  }

  lemma PassedThen(s: Sys, t: Sys, u: Sys)
    requires Passed(s, t) && Passed(t, u)
    ensures Passed(s, u) && t.reports == s.reports
  {
  }

  lemma PassedSays(s: Sys, t: Sys)
    requires Passed(s, t)
    ensures t.reports == s.reports && t.dev.tx == s.dev.tx && t.toDevice == s.toDevice
  {
  }

  // ------------------------------------------------------------------ the reports

  function HostReceivesAll(s: Sys): Sys
    decreases |s.toHost|
  {
    if s.toHost == [] then s else HostReceivesAll(Next(s, HostReceives))
  }

  lemma HostKeepsSound(s: Sys)
    requires Sound(s) && s.toHost != []
    ensures var t := Next(s, HostReceives);
            && Sound(t) && t.toHost == s.toHost[1..] && t.dev == s.dev && t.toDevice == s.toDevice && t.sent == s.sent
  {
    StepKeepsInv(s, HostReceives);
    hide Inv;
  }

  lemma {:induction false} AllReceived(s: Sys)
    requires Sound(s)
    ensures var t := HostReceivesAll(s); Sound(t) && t.toHost == [] && t.dev == s.dev && t.toDevice == s.toDevice
                                         && t.sent == s.sent
    decreases |s.toHost|
  {
    hide Sound, Next;
    if s.toHost != [] {
      HostKeepsSound(s);
      AllReceived(Next(s, HostReceives));
    }
  }

  lemma {:induction false} UndisturbedMore(s: Sys, n: nat, m: nat)
    ensures Undisturbed(s, n + m) == Undisturbed(Undisturbed(s, n), m)
    decreases n
  {
    hide Next;
    if n > 0 { UndisturbedMore(Next(s, TaskStep), n - 1, m); }
  }

  lemma TwoSteps(s: Sys)
    ensures Undisturbed(s, 2) == Next(Next(s, TaskStep), TaskStep)
    ensures Undisturbed(s, 3) == Next(Next(Next(s, TaskStep), TaskStep), TaskStep)
  {
    hide Next;
    var t := Next(s, TaskStep);
    assert Undisturbed(t, 1) == Undisturbed(Next(t, TaskStep), 0);
    assert Undisturbed(t, 2) == Undisturbed(Next(t, TaskStep), 1) == Undisturbed(Next(Next(t, TaskStep), TaskStep), 0);
  }

  lemma ReportMoves(s: Sys)
    requires CanTask(s)
    ensures var t := TaskStepOf(s);
            && (Idle(s) ==> t == s.(task := CheckReport))
            && (s.task == CheckReport ==> t == s.(task := if s.dev.unreported > TX_BUF_SIZE / 2 then Reporting else Loop))
            && (s.task == Reporting ==> t.task == Loop && t.dev.unreported == 0 && Passed(s, t) && t.sent == s.sent)
  {
  }

  /** The test of the unreported bytes at the end of a pass: over half of the buffer is reported. */
  lemma PassReports(s: Sys) returns (n: nat)
    requires Sound(s) && Idle(s)
    ensures n <= 3
    ensures var t := Undisturbed(s, n);
            Sound(t) && t.task == Loop && t.dev.unreported <= TX_BUF_SIZE / 2 && Passed(s, t) && t.sent == s.sent
  {
    TwoSteps(s);
    TaskKeepsSound(s);
    ReportMoves(s);
    var t := TaskStepOf(s);
    TaskKeepsSound(t);
    ReportMoves(t);
    var u := TaskStepOf(t);
    hide Sound, Next, Undisturbed, TaskStepOf, CanTask;
    if u.task == Loop {
      n := 2;
    } else {
      n := 3;
      TaskKeepsSound(u);
      ReportMoves(u);
    }
  }

  /**
   Once everything queued has been transmitted, undisturbed steps of the main loop and
   the messages on their way bring the host every report and at least half of the
   transmit buffer to spend.
   */
  lemma HostIsServed(s: Sys) returns (n: nat)
    requires Sound(s) && s.dev.tx == [] && s.toDevice == []
    ensures n <= Ahead(s) + 3
    ensures var t := HostReceivesAll(Undisturbed(s, n)); t.sent == s.reports && t.credit >= TX_BUF_SIZE / 2
  {
    hide *;
    var a := ResultsReachHost(s);
    var m := Undisturbed(s, a);
    var b := PassReports(m);
    n := a + b;
    UndisturbedMore(s, a, b);
    var t := Undisturbed(m, b);
    AllReceived(t);
    CreditSays(HostReceivesAll(t));
    PassedThen(s, m, t);
    PassedSays(s, t);
  }

  lemma CreditSays(s: Sys)
    requires Sound(s)
    ensures s.credit + TotalCost(s.toDevice) + |s.dev.tx| + s.dev.unreported + Total(s.toHost) == TX_BUF_SIZE
    ensures TotalCost([]) == 0 && Total([]) == 0
  {
    hide TxInv, RxInv, PacketsInv;
  }

  // ------------------------------------------------------------ packets come to an end

  /** One interrupt to start a packet, and one for each of its bytes at most. */
  function Bound(r: Request): nat {
    1 + r.total
  }

  function Bounds(requests: seq<Request>): nat {
    if requests == [] then 0 else Bound(requests[0]) + Bounds(requests[1..])
  }

  lemma {:induction false} BoundsSnoc(requests: seq<Request>, r: Request)
    ensures Bounds(requests + [r]) == Bounds(requests) + Bound(r)
  {
    if requests == [] {
      assert [r][1..] == [] && [] + [r] == [r];
    } else {
      assert (requests + [r])[1..] == requests[1..] + [r];
      BoundsSnoc(requests[1..], r);
    }
  }

  /** What the packets that have not ended still take. */
  function Left(s: Sys): nat {
    var k := |s.packets|;
    if k >= |s.issued| then 0
    else if s.dev.inProgress then s.dev.totalRx as nat + Bounds(s.issued[k + 1..])
    else Bounds(s.issued[k..])
  }

  lemma LeftAtMost(s: Sys)
    requires TxInv(s)
    ensures Left(s) <= Bounds(s.issued)
  {
    hide EncodeRequests;
    BoundsFrom(s.issued, |s.packets|);
  }

  lemma {:induction false} BoundsFrom(requests: seq<Request>, k: nat)
    requires k <= |requests|
    ensures Bounds(requests[k..]) <= Bounds(requests)
    ensures k < |requests| ==> Bounds(requests[k..]) == Bound(requests[k]) + Bounds(requests[k + 1..])
    decreases k
  {
    if k == 0 {
      assert requests[0..] == requests;
    } else {
      BoundsFrom(requests[1..], k - 1);
      assert requests[1..][k - 1..] == requests[k..];
      if k < |requests| { assert requests[1..][k..] == requests[k + 1..]; }
    }
  }

  /** An interrupt that starts a packet or finds something in the FIFO. */
  predicate Useful(s: Sys, e: Event) {
    e.Isr? && (!s.dev.inProgress || e.arrived != [])
  }

  function UsefulIn(s: Sys, events: seq<Event>): nat
    decreases |events|
  {
    if events == [] then 0
    else (if Useful(s, events[0]) then 1 else 0) + UsefulIn(Next(s, events[0]), events[1..])
  }

  /** What an interrupt leaves of the system: its device, and perhaps one packet more. */
  lemma StepShape(s: Sys, arrived: seq<byte>)
    requires CanInterrupt(s.dev, arrived) && |s.packets| < |s.issued|
    ensures var t, d := IsrStep(s, arrived), Interrupt(s.dev, arrived);
            && t.dev == d && t.issued == s.issued
            && |t.packets| == |s.packets| + if s.dev.inProgress && !d.inProgress then 1 else 0
  {
    hide Interrupt, CanInterrupt, ReportOf;
  }

  lemma LeftIs(s: Sys)
    requires |s.packets| < |s.issued|
    ensures var k := |s.packets|;
            && (s.dev.inProgress ==> Left(s) == s.dev.totalRx as nat + Bounds(s.issued[k + 1..]))
            && (!s.dev.inProgress ==> Left(s) == Bound(s.issued[k]) + Bounds(s.issued[k + 1..]))
  {
    BoundsFrom(s.issued, |s.packets|);
    hide Bounds;
  }

  lemma LeftBehind(s: Sys)
    requires |s.packets| <= |s.issued| && !s.dev.inProgress
    ensures Left(s) == Bounds(s.issued[|s.packets|..])
  {
  }

  /** The first interrupt of a packet reads nothing, and leaves the whole of it to come in. */
  lemma StartedDevice(d: Dev, r: Request, rest: seq<byte>)
    requires !d.inProgress && d.inFlight == 0 && d.tx == EncodeRequest(r) + rest
    ensures CanInterrupt(d, []) && var e := Interrupt(d, []); e.inProgress && e.totalRx as nat == r.total
  {
    hide EncodeRequest;
    BeginDuring(d, r, rest);
    var b := Begin(d);
    BeginGot(d);
    assert b.totalRx as nat == r.total - |b.got|;
    WriteRest(b, r, rest);
    WroteRest(b, r, rest);
    hide During, Begin, WriteMany;
  }

  lemma StartLeft(s: Sys)
    requires TxInv(s) && !s.dev.inProgress && s.dev.enabled
    ensures CanInterrupt(s.dev, []) && Left(IsrStep(s, [])) + 1 == Left(s) && IsrStep(s, []).issued == s.issued
  {
    AtHeader(s);
    var k := |s.packets|;
    hide *;
    StartedDevice(s.dev, s.issued[k], EncodeRequests(s.issued[k + 1..]));
    StepShape(s, []);
    LeftIs(s);
    LeftIs(IsrStep(s, []));
    BoundIs(s.issued[k]);
  }

  lemma BoundIs(r: Request)
    ensures Bound(r) == 1 + r.total
  {
  }

  lemma AtHeader(s: Sys)
    requires TxInv(s) && !s.dev.inProgress && s.dev.enabled
    ensures |s.packets| < |s.issued| && s.dev.inFlight == 0
    ensures var k := |s.packets|; s.dev.tx == EncodeRequest(s.issued[k]) + EncodeRequests(s.issued[k + 1..])
  {
    hide EncodeRequests, EncodeRequest;
    EncodeRequestsFirst(s.issued, |s.packets|);
  }

  lemma BeginGot(d: Dev)
    requires |d.tx| >= 4
    ensures Begin(d).got == [] && Begin(d).inProgress
  {
  }

  /** Later ones leave as much less as they read, and the last one ends the packet. */
  lemma MoreDevice(d: Dev, r: Request, rest: seq<byte>, arrived: seq<byte>)
    requires During(d, r, rest) && |arrived| <= d.inFlight
    ensures CanInterrupt(d, arrived)
    ensures var e := Interrupt(d, arrived);
            if |arrived| == d.totalRx as nat then !e.inProgress
            else e.inProgress && e.totalRx as nat == d.totalRx as nat - |arrived|
  {
    ArrivedLeft(d, r, rest, arrived);
    var t := ReadAll(d, arrived);
    InProgress(d, r, rest);
    hide During, ReadAll;
    if t.totalRx != 0 {
      WriteRest(t, r, rest);
      WroteRest(t, r, rest);
    }
    hide WriteMany, CanWrite, Waiting;
  }

  lemma InProgress(d: Dev, r: Request, rest: seq<byte>)
    requires During(d, r, rest)
    ensures d.inProgress && d.inFlight <= d.totalRx as int
  {
  }

  lemma MoreLeft(s: Sys, arrived: seq<byte>)
    requires TxInv(s) && s.dev.inProgress && |arrived| <= s.dev.inFlight
    ensures CanInterrupt(s.dev, arrived)
    ensures Left(IsrStep(s, arrived)) + |arrived| == Left(s) && IsrStep(s, arrived).issued == s.issued
  {
    UnderWay(s);
    var k := |s.packets|;
    hide *;
    MoreDevice(s.dev, s.issued[k], EncodeRequests(s.issued[k + 1..]), arrived);
    StepShape(s, arrived);
    var t := IsrStep(s, arrived);
    LeftIs(s);
    if t.dev.inProgress { LeftIs(t); } else { LeftBehind(t); }
  }

  lemma UnderWay(s: Sys)
    requires TxInv(s) && s.dev.inProgress
    ensures |s.packets| < |s.issued|
    ensures During(s.dev, s.issued[|s.packets|], EncodeRequests(s.issued[|s.packets| + 1..]))
  {
    hide During, EncodeRequests;
  }

  lemma ArrivedLeft(d: Dev, r: Request, rest: seq<byte>, arrived: seq<byte>)
    requires During(d, r, rest) && |arrived| <= d.inFlight
    ensures var t := ReadAll(d, arrived);
            During(t, r, rest) && t.totalRx as nat == d.totalRx as nat - |arrived| && t.inProgress
  {
    ReadAllKeeps(d, r, rest, arrived);
    hide ReadAll, Padded;
  }

  lemma WroteRest(d: Dev, r: Request, rest: seq<byte>)
    requires During(d, r, rest) && CanWrite(d, ToWrite(d))
    ensures var e := WriteMany(d, ToWrite(d)); e.totalRx == d.totalRx && e.inProgress
  {
    WriteManyKeeps(d, r, rest, ToWrite(d));
  }

  lemma DeliverLeft(s: Sys)
    requires TxInv(s) && s.toDevice != [] && s.task == Loop
    ensures var t := Step(s, Deliver);
            Left(t) + Bounds(s.issued) == Left(s) + Bounds(t.issued)
  {
    var r, k, t := s.toDevice[0], |s.packets|, Step(s, Deliver);
    BoundsSnoc(s.issued, r);
    DeliverFrame(s);
    assert t.issued[k..] == s.issued[k..] + [r];
    BoundsSnoc(s.issued[k..], r);
    if k < |s.issued| {
      assert t.issued[k + 1..] == s.issued[k + 1..] + [r];
      BoundsSnoc(s.issued[k + 1..], r);
    }
    hide TxInv, Step, Bounds;
    if k == |s.issued| { assert s.issued[k..] == [] && Bounds([]) == 0 by { EmptyBounds(); } }
  }

  lemma EmptyBounds()
    ensures Bounds([]) == 0
  {
  }

  lemma DeliverFrame(s: Sys)
    requires TxInv(s) && s.toDevice != [] && s.task == Loop
    ensures var t := Step(s, Deliver);
            && t.issued == s.issued + [s.toDevice[0]] && t.packets == s.packets
            && t.dev.inProgress == s.dev.inProgress && t.dev.totalRx == s.dev.totalRx
            && (s.dev.inProgress ==> |s.packets| < |s.issued|) && |s.packets| <= |s.issued|
  {
  }

  lemma OtherLeft(s: Sys, e: Event)
    requires Enabled(s, e) && CanStep(s, e) && !e.Isr? && !e.Deliver?
    ensures var t := Step(s, e); Left(t) == Left(s) && t.issued == s.issued
  {
  }

  /** Every step keeps the account: what an interrupt gets done, the packets have left less. */
  lemma StepLeft(s: Sys, e: Event)
    requires Sound(s) && Enabled(s, e)
    ensures CanStep(s, e)
    ensures var t := Step(s, e);
            Left(t) + Bounds(s.issued) + (if Useful(s, e) then 1 else 0) <= Left(s) + Bounds(t.issued)
  {
    StepKeepsInv(s, e);
    SoundSays(s);
    hide Sound, Left, Bounds, TxInv, CanStep, IsrStep;
    match e
    case Deliver => DeliverLeft(s);
    case Isr(arrived) =>
      if s.dev.inProgress {
        MoreLeft(s, arrived);
      } else {
        StartLeft(s);
      }
    case _ => OtherLeft(s, e);
  }

  lemma SoundSays(s: Sys)
    requires Sound(s)
    ensures TxInv(s) && (!s.dev.inProgress ==> s.dev.inFlight == 0)
  {
    hide RxInv, PacketsInv, CreditInv, EncodeRequests;
  }

  lemma {:induction false} RunLeft(s: Sys, events: seq<Event>)
    requires Sound(s) && Legal(s, events)
    ensures var t := Run(s, events);
            Sound(t) && Left(t) + Bounds(s.issued) + UsefulIn(s, events) <= Left(s) + Bounds(t.issued)
    decreases |events|
  {
    hide *;
    if events == [] {
      EmptyRun(s);
    } else {
      FirstOfRun(s, events);
      StepLeft(s, events[0]);
      RunLeft(Next(s, events[0]), events[1..]);
    }
  }

  lemma EmptyRun(s: Sys)
    ensures Run(s, []) == s && UsefulIn(s, []) == 0
  {
  }

  lemma FirstOfRun(s: Sys, events: seq<Event>)
    requires Sound(s) && Legal(s, events) && events != []
    ensures Enabled(s, events[0]) && CanStep(s, events[0]) && Next(s, events[0]) == Step(s, events[0])
    ensures Sound(Next(s, events[0])) && Legal(Next(s, events[0]), events[1..])
    ensures Run(s, events) == Run(Next(s, events[0]), events[1..])
    ensures UsefulIn(s, events)
            == (if Useful(s, events[0]) then 1 else 0) + UsefulIn(Next(s, events[0]), events[1..])
  {
    StepKeepsInv(s, events[0]);
    hide Inv, Step, Useful;
  }

  /**
   In every run the number of interrupts that start a packet or find received bytes is
   bounded by the packets' sizes; as at least one byte is in flight while a packet is
   under way, every packet comes to its end.
   */
  lemma PacketsEnd(events: seq<Event>)
    requires Legal(Configured(), events)
    ensures UsefulIn(Configured(), events) <= Bounds(Run(Configured(), events).issued)
  {
    ConfiguredInv();
    RunLeft(Configured(), events);
  }

  /** A report is worth its message: more than half of the buffer is free. */
  ghost predicate Large(s: Sys) {
    && (s.task.Reporting? ==> s.dev.unreported > TX_BUF_SIZE / 2)
    && forall r :: r in s.toHost ==> r > TX_BUF_SIZE / 2
  }

  lemma TaskKeepsLarge(s: Sys)
    requires Large(s) && CanTask(s)
    ensures Large(TaskStepOf(s))
  {
    var t := TaskStepOf(s);
    if s.task.Reporting? {
      assert t.toHost == s.toHost + [s.dev.unreported];
    } else {
      assert t.toHost == s.toHost;
    }
  }

  lemma StepKeepsLarge(s: Sys, e: Event)
    requires Large(s) && Enabled(s, e) && CanStep(s, e)
    ensures Large(Step(s, e))
  {
    hide Interrupt, CanInterrupt;
    match e
    case Isr(arrived) => IsrConserves(s.dev, arrived);
    case HostReceives => assert forall r :: r in s.toHost[1..] ==> r in s.toHost;
    case Deliver =>
    case TaskStep => TaskKeepsLarge(s);
    case _ =>
  }

  lemma {:induction false} RunKeepsLarge(s: Sys, events: seq<Event>)
    requires Large(s)
    ensures Large(Run(s, events))
    decreases |events|
  {
    if events != [] {
      if Enabled(s, events[0]) && CanStep(s, events[0]) { StepKeepsLarge(s, events[0]); }
      hide Large, Step, Enabled, CanStep;
      RunKeepsLarge(Next(s, events[0]), events[1..]);
    }
  }

  /** In every run the host is only told of more than half of the buffer at a time. */
  lemma ReportsAreLarge(events: seq<Event>)
    ensures forall r :: r in Run(Configured(), events).toHost ==> r > TX_BUF_SIZE / 2
  {
    RunKeepsLarge(Configured(), events);
    hide Run;
  }
}
