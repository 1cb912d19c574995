/**
 What the main loop gets done on its own (I2CTasks): every waiting result reaches the
 host, and so do the reports of free buffer space.
 */
module I2cProgress {
  import opened Bytes
  import opened Credit
  import opened I2c

  /** Steps of the main loop that nothing interrupts. */
  function Undisturbed(s: Sys, n: nat): Sys
    decreases n
  {
    if n == 0 then s else Undisturbed(Next(s, TaskStep), n - 1)
  }

  /** Steps until the loop has passed on everything and is back at its start. */
  function Ahead(s: Sys): int {
    match s.task
    case Loop => 4 * s.dev.ready
    case GotSize(_) => 4 * s.dev.ready - 1
    case Claimed(_) => 4 * s.dev.ready + 2
    case Releasing(_) => 4 * s.dev.ready + 1
    case CheckReport => 4 * s.dev.ready + 2
    case Reporting => 4 * s.dev.ready + 1
  }

  /** The loop has nothing to pass on. */
  predicate Idle(s: Sys) {
    s.task == Loop && s.dev.ready == 0
  }

  /** What such steps leave alone; a report moves unreported bytes on their way to the host. */
  predicate Passed(s: Sys, t: Sys) {
    && t.outcomes == s.outcomes && t.issued == s.issued && t.dev.tx == s.dev.tx && t.credit == s.credit
    && t.toDevice == s.toDevice && t.dev.state == s.dev.state && t.dev.bus == s.dev.bus
  }

  /** The state of a run in which no result has been dropped. */
  ghost predicate Sound(s: Sys) {
    Inv(s) && !s.dev.overflow
  }

  lemma ReadyCounts(s: Sys)
    requires Sound(s)
    ensures Ahead(s) >= 0 && (Idle(s) ==> s.sent == s.outcomes)
  {
    hide TxInv, OutcomesInv, CreditInv, EncodeOutcomes, Held, InProgress, TaskOk;
    assert s.outcomes[..|s.outcomes|] == s.outcomes;
  }

  lemma TaskKeepsSound(s: Sys)
    requires Sound(s)
    ensures CanTask(s) && Next(s, TaskStep) == TaskStepOf(s) && Sound(TaskStepOf(s))
  {
    StepKeepsInv(s, TaskStep);
    NextIsTask(s);
    hide *;
    Soundly(s);
  }

  lemma NextIsTask(s: Sys)
    requires CanStep(s, TaskStep)
    ensures CanTask(s) && Next(s, TaskStep) == TaskStepOf(s) == Step(s, TaskStep)
    ensures TaskStepOf(s).dev.overflow == s.dev.overflow
  {
  }

  lemma Soundly(s: Sys)
    requires Sound(s) && CanTask(s) && TaskStepOf(s).dev.overflow == s.dev.overflow
    requires !TaskStepOf(s).dev.overflow ==> Inv(TaskStepOf(s))
    ensures Sound(TaskStepOf(s))
  {
    hide Inv, TaskStepOf, CanTask;
  }

  lemma TaskMoves(s: Sys)
    requires CanTask(s) && !Idle(s)
    ensures var t := TaskStepOf(s); Ahead(t) < Ahead(s) && Passed(s, t)
  {
  }

  lemma StepAhead(s: Sys)
    requires Sound(s) && !Idle(s)
    ensures var t := Next(s, TaskStep); Sound(t) && 0 <= Ahead(t) < Ahead(s) && Passed(s, t)
  {
    TaskKeepsSound(s);
    TaskMoves(s);
    ReadyCounts(TaskStepOf(s));
    hide *;
  }

  /** Undisturbed, the main loop passes every waiting result on, each in at most four steps. */
  lemma {:induction false} ResultsReachHost(s: Sys) returns (n: nat)
    requires Sound(s)
    ensures n <= Ahead(s)
    ensures var t := Undisturbed(s, n); Sound(t) && Idle(t) && t.sent == s.outcomes && Passed(s, t)
    decreases Ahead(s)
  {
    hide *;
    ReadyCounts(s);
    if Idle(s) {
      n := 0;
      NoSteps(s);
    } else {
      StepAhead(s);
      var m := ResultsReachHost(Next(s, TaskStep));
      n := m + 1;
      FirstStep(s, m);
      PassedThen(s, Next(s, TaskStep), Undisturbed(s, n));
    }
  }

  lemma NoSteps(s: Sys)
    ensures Undisturbed(s, 0) == s && Passed(s, s)
  {
  }

  lemma FirstStep(s: Sys, n: nat)
    ensures Undisturbed(s, n + 1) == Undisturbed(Next(s, TaskStep), n)
  {
    hide Next;
  }

  lemma PassedThen(s: Sys, t: Sys, u: Sys)
    requires Passed(s, t) && Passed(t, u)
    ensures Passed(s, u) && t.outcomes == s.outcomes
  {
  }

  lemma PassedSays(s: Sys, t: Sys)
    requires Passed(s, t)
    ensures t.outcomes == s.outcomes && t.dev.tx == s.dev.tx && t.toDevice == s.toDevice
  {
  }

  // ------------------------------------------------------------------ the reports

  function HostReceivesAll(s: Sys): Sys
    decreases |s.toHost|
  {
    if s.toHost == [] then s else HostReceivesAll(Next(s, HostReceives))
  }

  lemma HostKeepsSound(s: Sys)
    requires Sound(s) && s.toHost != []
    ensures var t := Next(s, HostReceives);
            && Sound(t) && t.toHost == s.toHost[1..] && t.dev == s.dev && t.toDevice == s.toDevice && t.sent == s.sent
  {
    StepKeepsInv(s, HostReceives);
    hide Inv;
  }

  lemma {:induction false} AllReceived(s: Sys)
    requires Sound(s)
    ensures var t := HostReceivesAll(s); Sound(t) && t.toHost == [] && t.dev == s.dev && t.toDevice == s.toDevice
                                         && t.sent == s.sent
    decreases |s.toHost|
  {
    hide Sound, Next;
    if s.toHost != [] {
      HostKeepsSound(s);
      AllReceived(Next(s, HostReceives));
    }
  }

  lemma {:induction false} UndisturbedMore(s: Sys, n: nat, m: nat)
    ensures Undisturbed(s, n + m) == Undisturbed(Undisturbed(s, n), m)
    decreases n
  {
    hide Next;
    if n > 0 { UndisturbedMore(Next(s, TaskStep), n - 1, m); }
  }

  lemma TwoSteps(s: Sys)
    ensures Undisturbed(s, 2) == Next(Next(s, TaskStep), TaskStep)
    ensures Undisturbed(s, 3) == Next(Next(Next(s, TaskStep), TaskStep), TaskStep)
  {
    hide Next;
    var t := Next(s, TaskStep);
    assert Undisturbed(t, 1) == Undisturbed(Next(t, TaskStep), 0);
    assert Undisturbed(t, 2) == Undisturbed(Next(t, TaskStep), 1) == Undisturbed(Next(Next(t, TaskStep), TaskStep), 0);
  }

  lemma ReportMoves(s: Sys)
    requires CanTask(s)
    ensures var t := TaskStepOf(s);
            && (Idle(s) ==> t == s.(task := CheckReport))
            && (s.task == CheckReport ==> t == s.(task := if s.dev.unreported > TX_BUF_SIZE / 2 then Reporting else Loop))
            && (s.task == Reporting ==> t.task == Loop && t.dev.unreported == 0 && Passed(s, t) && t.sent == s.sent)
  {
  }

  /** The test of the unreported bytes at the end of a pass: over half of the buffer is reported. */
  lemma PassReports(s: Sys) returns (n: nat)
    requires Sound(s) && Idle(s)
    ensures n <= 3
    ensures var t := Undisturbed(s, n);
            Sound(t) && t.task == Loop && t.dev.unreported <= TX_BUF_SIZE / 2 && Passed(s, t) && t.sent == s.sent
  {
    TwoSteps(s);
    TaskKeepsSound(s);
    ReportMoves(s);
    var t := TaskStepOf(s);
    TaskKeepsSound(t);
    ReportMoves(t);
    var u := TaskStepOf(t);
    hide Sound, Next, Undisturbed, TaskStepOf, CanTask;
    if u.task == Loop {
      n := 2;
    } else {
      n := 3;
      TaskKeepsSound(u);
      ReportMoves(u);
    }
  }

  /**
   Once everything queued has been transmitted, undisturbed steps of the main loop and
   the messages on their way bring the host every result and at least half of the
   transmit buffer to spend.
   */
  lemma HostIsServed(s: Sys) returns (n: nat)
    requires Sound(s) && s.dev.tx == [] && s.toDevice == []
    ensures n <= Ahead(s) + 3
    ensures var t := HostReceivesAll(Undisturbed(s, n)); t.sent == s.outcomes && t.credit >= TX_BUF_SIZE / 2
  {
    hide *;
    var a := ResultsReachHost(s);
    var m := Undisturbed(s, a);
    var b := PassReports(m);
    n := a + b;
    UndisturbedMore(s, a, b);
    var t := Undisturbed(m, b);
    AllReceived(t);
    CreditSays(HostReceivesAll(t));
    PassedThen(s, m, t);
    PassedSays(s, t);
  }

  lemma CreditSays(s: Sys)
    requires Sound(s)
    ensures s.credit + TotalCost(s.toDevice) + |s.dev.tx| + s.dev.unreported + Total(s.toHost) == TX_BUF_SIZE
    ensures TotalCost([]) == 0 && Total([]) == 0
  {
    hide TxInv, RxInv, OutcomesInv;
  }

  /** A report is worth its message: more than half of the buffer is free. */
  ghost predicate Large(s: Sys) {
    && (s.task.Reporting? ==> s.dev.unreported > TX_BUF_SIZE / 2)
    && forall r :: r in s.toHost ==> r > TX_BUF_SIZE / 2
  }

  lemma TaskKeepsLarge(s: Sys)
    requires Large(s) && CanTask(s)
    ensures Large(TaskStepOf(s))
  {
    var t := TaskStepOf(s);
    if s.task.Reporting? {
      assert t.toHost == s.toHost + [s.dev.unreported];
    } else {
      assert t.toHost == s.toHost;
    }
  }

  lemma StepKeepsLarge(s: Sys, e: Event)
    requires Large(s) && Enabled(s, e) && CanStep(s, e)
    ensures Large(Step(s, e))
  {
    hide Interrupt, CanInterrupt;
    match e
    case Isr(nack, received) => IsrConserves(s.dev, nack, received);
    case HostReceives => assert forall r :: r in s.toHost[1..] ==> r in s.toHost;
    case Deliver =>
    case TaskStep => TaskKeepsLarge(s);
    case _ =>
  }

  lemma {:induction false} RunKeepsLarge(s: Sys, events: seq<Event>)
    requires Large(s)
    ensures Large(Run(s, events))
    decreases |events|
  {
    if events != [] {
      if Enabled(s, events[0]) && CanStep(s, events[0]) { StepKeepsLarge(s, events[0]); }
      hide Large, Step, Enabled, CanStep;
      RunKeepsLarge(Next(s, events[0]), events[1..]);
    }
  }

  /** In every run the host is only told of more than half of the buffer at a time. */
  lemma ReportsAreLarge(events: seq<Event>)
    ensures forall r :: r in Run(Configured(), events).toHost ==> r > TX_BUF_SIZE / 2
  {
    RunKeepsLarge(Configured(), events);
    hide Run;
  }
}
