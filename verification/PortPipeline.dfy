/** The promise chain behind one initialized port: every incoming message appends
    `.then(process).catch(report)` to the chain of its predecessors. */
module PortPipeline {

  /** Waiting: its predecessor has not settled. Running: `processPortMessage` is in progress.
      Handling: the `.catch` callback is about to run, because processing threw (`started`) or
      because the predecessor's link was rejected. */
  datatype Status =
    | Waiting
    | Running
    | Handling(started: bool)
    | Settled(started: bool, fulfilled: bool)

  datatype Link<M> = Link(message: M, status: Status)

  datatype Event = Started(index: nat) | Ended(index: nat)

  datatype Port<M> = Port(links: seq<Link<M>>, log: seq<Event>)

  /** Finish: processing returned (also for a message dropped early) or threw.
      Report: the `.catch` callback returned or itself threw. */
  datatype Action<M> =
    | Arrive(message: M)
    | Begin(k: nat)
    | Finish(k: nat, threw: bool)
    | Report(k: nat, throws: bool)

  function Set<M>(p: Port<M>, k: nat, status: Status): Port<M>
    requires k < |p.links|
  {
    p.(links := p.links[k := p.links[k].(status := status)])
  }

  /** The promise link `k` hangs on is settled, and how. */
  predicate PreviousSettled<M>(links: seq<Link<M>>, k: nat)
    requires k < |links|
  {
    k == 0 || links[k - 1].status.Settled?
  }

  predicate PreviousFulfilled<M>(links: seq<Link<M>>, k: nat)
    requires k < |links|
  {
    k == 0 || (links[k - 1].status.Settled? && links[k - 1].status.fulfilled)
  }

  predicate Enabled<M>(p: Port<M>, a: Action<M>) {
    match a
    case Arrive(_) => true
    case Begin(k) => k < |p.links| && p.links[k].status.Waiting? && PreviousSettled(p.links, k)
    case Finish(k, _) => k < |p.links| && p.links[k].status.Running?
    case Report(k, _) => k < |p.links| && p.links[k].status.Handling?
  }

  function Do<M>(p: Port<M>, a: Action<M>): Port<M> {
    if !Enabled(p, a) then p
    else match a
      case Arrive(m) => p.(links := p.links + [Link(m, Waiting)])
      case Begin(k) =>
        if PreviousFulfilled(p.links, k) then Set(p, k, Running).(log := p.log + [Started(k)])
        else Set(p, k, Handling(false))
      case Finish(k, threw) =>
        Set(p, k, if threw then Handling(true) else Settled(true, true)).(log := p.log + [Ended(k)])
      case Report(k, throws) => Set(p, k, Settled(p.links[k].status.started, !throws))
  }

  function Run<M>(actions: seq<Action<M>>): Port<M> {
    if actions == [] then Port([], []) else Do(Run(actions[..|actions| - 1]), actions[|actions| - 1])
  }

  // ---- the log is the arrival order ----------------------------------------------------------

  function EventsOf(status: Status, k: nat): seq<Event> {
    match status
    case Waiting => []
    case Running => [Started(k)]
    case Handling(started) => if started then [Started(k), Ended(k)] else []
    case Settled(started, _) => if started then [Started(k), Ended(k)] else []
  }

  /** What the first `n` links have logged, one link after the other. */
  function Trace<M>(links: seq<Link<M>>, n: nat): seq<Event>
    requires n <= |links|
  {
    if n == 0 then [] else Trace(links, n - 1) + EventsOf(links[n - 1].status, n - 1)
  }

  predicate OneAtATime<M>(links: seq<Link<M>>) {
    forall j, k | 0 <= j < k < |links| && !links[k].status.Waiting? :: links[j].status.Settled?
  }

  predicate StartedFlag(status: Status) {
    status.Running? || (status.Handling? && status.started) || (status.Settled? && status.started)
  }

  /** A link that is past waiting ran its message exactly when its predecessor fulfilled. */
  predicate StartedMatches<M>(links: seq<Link<M>>) {
    forall k | 0 <= k < |links| && !links[k].status.Waiting? ::
      StartedFlag(links[k].status) <==> PreviousFulfilled(links, k)
  }

  predicate Inv<M>(p: Port<M>) {
    OneAtATime(p.links) && StartedMatches(p.links) && p.log == Trace(p.links, |p.links|)
  }

  lemma {:induction false} TraceSame<M>(x: seq<Link<M>>, y: seq<Link<M>>, n: nat)
    requires n <= |x| && n <= |y| && forall k | 0 <= k < n :: x[k].status == y[k].status
    ensures Trace(x, n) == Trace(y, n)
    decreases n
  {
    if n > 0 { TraceSame(x, y, n - 1); }
  }

  lemma {:induction false} TraceOfWaiting<M>(links: seq<Link<M>>, k: nat, n: nat)
    requires k <= n <= |links| && forall j | k <= j < n :: links[j].status.Waiting?
    ensures Trace(links, n) == Trace(links, k)
    decreases n
  {
    if k < n { TraceOfWaiting(links, k, n - 1); }
  }

  /** Changing the status of the link at the frontier changes the end of the trace only. */
  lemma TraceAfterSet<M>(p: Port<M>, k: nat, status: Status)
    requires k < |p.links| && OneAtATime(p.links) && PreviousSettled(p.links, k)
    requires !p.links[k].status.Settled?
    ensures Trace(p.links, |p.links|) == Trace(p.links, k) + EventsOf(p.links[k].status, k)
    ensures Trace(Set(p, k, status).links, |p.links|) == Trace(p.links, k) + EventsOf(status, k)
  {
    hide EventsOf;
    var q := Set(p, k, status).links;
    forall j | k < j < |p.links| ensures p.links[j].status.Waiting? {
      assert p.links[k].status.Settled? || p.links[j].status.Waiting?;
    }
    TraceOfWaiting(p.links, k + 1, |p.links|);
    TraceOfWaiting(q, k + 1, |q|);
    TraceSame(p.links, q, k);
  }

  lemma FrontierPrevious<M>(links: seq<Link<M>>, k: nat)
    requires k < |links| && OneAtATime(links) && !links[k].status.Waiting?
    ensures PreviousSettled(links, k)
  {
  }

  lemma KeepsTrace<M>(p: Port<M>, a: Action<M>)
    requires Inv(p)
    ensures Do(p, a).log == Trace(Do(p, a).links, |Do(p, a).links|)
  {
    hide Trace;
    if Enabled(p, a) {
      match a
      case Arrive(m) =>
        var q := Do(p, a).links;
        TraceSame(p.links, q, |p.links|);
        TraceOfWaiting(q, |p.links|, |q|);
      case Begin(k) => TraceAfterSet(p, k, if PreviousFulfilled(p.links, k) then Running else Handling(false));
      case Finish(k, threw) =>
        FrontierPrevious(p.links, k);
        TraceAfterSet(p, k, if threw then Handling(true) else Settled(true, true));
      case Report(k, throws) =>
        FrontierPrevious(p.links, k);
        TraceAfterSet(p, k, Settled(p.links[k].status.started, !throws));
    }
  }

  lemma KeepsOrder<M>(p: Port<M>, a: Action<M>)
    requires Inv(p)
    ensures OneAtATime(Do(p, a).links)
  {
    hide Trace, StartedMatches;
    if Enabled(p, a) && !a.Arrive? {
      var k := a.k;
      if !a.Begin? { FrontierPrevious(p.links, k); }
      forall j | 0 <= j < k ensures p.links[j].status.Settled? {
        assert j < k - 1 ==> !p.links[k - 1].status.Waiting?;
      }
    }
  }

  lemma KeepsStarted<M>(p: Port<M>, a: Action<M>)
    requires Inv(p)
    ensures StartedMatches(Do(p, a).links)
  {
    hide Trace;
    var q := Do(p, a).links;
    if Enabled(p, a) && !a.Arrive? {
      assert forall j | a.k < j < |p.links| :: p.links[j].status.Waiting? by {
        assert !p.links[a.k].status.Settled?;
      }
      forall j | 0 <= j < |q| && !q[j].status.Waiting?
        ensures StartedFlag(q[j].status) <==> PreviousFulfilled(q, j)
      {
        assert j <= a.k;
        if j < a.k { assert q[j] == p.links[j]; }
        if j > 0 { assert q[j - 1] == p.links[j - 1]; }
      }
    }
  }

  lemma {:induction false} RunInv<M>(actions: seq<Action<M>>)
    ensures Inv(Run(actions))
    decreases |actions|
  {
    if actions != [] {
      hide Do, OneAtATime, StartedMatches, Trace;
      var p, a := Run(actions[..|actions| - 1]), actions[|actions| - 1];
      RunInv(actions[..|actions| - 1]);
      KeepsTrace(p, a);
      KeepsOrder(p, a);
      KeepsStarted(p, a);
    }
  }

  // ---- the promises, for every run ---------------------------------------------------------------

  lemma {:induction false} TraceOrder<M>(links: seq<Link<M>>, n: nat, i: nat)
    requires n <= |links| && OneAtATime(links) && i < |Trace(links, n)|
    ensures Trace(links, n)[i].index < n
    ensures i % 2 == 0 ==> Trace(links, n)[i].Started?
    ensures i % 2 == 1 ==> Trace(links, n)[i] == Ended(Trace(links, n)[i - 1].index) && Trace(links, n)[i - 1].Started?
    ensures forall j | 0 <= j < i && Trace(links, n)[i].Started? :: Trace(links, n)[j].index < Trace(links, n)[i].index
    decreases n
  {
    var front := Trace(links, n - 1);
    if i < |front| {
      TraceOrder(links, n - 1, i);
      assert Trace(links, n)[i] == front[i];
      assert i > 0 ==> Trace(links, n)[i - 1] == front[i - 1];
      assert forall j | 0 <= j < i :: Trace(links, n)[j] == front[j];
    } else {
      TraceEven(links, n - 1);
      assert |front| % 2 == 0;
      forall j | 0 <= j < |front| ensures front[j].index < n - 1 && Trace(links, n)[j] == front[j] {
        TraceOrder(links, n - 1, j);
      }
    }
  }

  lemma {:induction false} TraceEven<M>(links: seq<Link<M>>, n: nat)
    requires n <= |links|
    ensures (forall k | 0 <= k < n :: links[k].status.Settled?) ==> |Trace(links, n)| % 2 == 0
    decreases n
  {
    if n > 0 { TraceEven(links, n - 1); }
  }

  /** Messages run in arrival order and never overlap: the log alternates start and end of the
      same message, with increasing arrival numbers. */
  lemma InOrderNoOverlap<M>(actions: seq<Action<M>>, i: nat)
    requires i < |Run(actions).log|
    ensures var log := Run(actions).log;
            && (i % 2 == 0 ==> log[i].Started? && forall j | 0 <= j < i :: log[j].index < log[i].index)
            && (i % 2 == 1 ==> log[i - 1].Started? && log[i] == Ended(log[i - 1].index))
  {
    hide Run, Trace;
    RunInv(actions);
    TraceOrder(Run(actions).links, |Run(actions).links|, i);
  }

  /** The action took place in this run. */
  ghost predicate Did<M>(actions: seq<Action<M>>, a: Action<M>) { exists i :: 0 <= i < |actions| && DidAt(actions, a, i) }

  predicate DidAt<M(==)>(actions: seq<Action<M>>, a: Action<M>, i: nat)
    requires i < |actions|
  {
    actions[i] == a && Enabled(Run(actions[..i]), a)
  }

  /** The `.catch` callback of link `k` was called and threw. */
  ghost predicate CatchThrew<M>(actions: seq<Action<M>>, k: nat) { Did(actions, Report(k, true)) }

  /** It was called at all. */
  ghost predicate CatchRan<M>(actions: seq<Action<M>>, k: nat) { Did(actions, Report(k, true)) || Did(actions, Report(k, false)) }

  lemma DidStep<M>(actions: seq<Action<M>>, a: Action<M>)
    requires actions != []
    ensures var front, last := actions[..|actions| - 1], actions[|actions| - 1];
            Did(actions, a) <==> Did(front, a) || (last == a && Enabled(Run(front), a))
  {
    hide Run;
    var front, n := actions[..|actions| - 1], |actions| - 1;
    forall i | 0 <= i < n ensures DidAt(actions, a, i) <==> DidAt(front, a, i) {
      assert front[..i] == actions[..i];
    }
    if Did(front, a) {
      var i :| 0 <= i < |front| && DidAt(front, a, i);
      assert DidAt(actions, a, i);
    }
    if Did(actions, a) {
      var i :| 0 <= i < |actions| && DidAt(actions, a, i);
      assert i < n ==> DidAt(front, a, i);
    }
    assert actions[n] == a && Enabled(Run(front), a) ==> DidAt(actions, a, n);
  }

  /** What has happened to a link by the time it has this status: whether its processing threw or
      returned, whether its callback threw or returned. */
  predicate History(status: Status, threw: bool, returned: bool, caughtBad: bool, caughtGood: bool) {
    match status
    case Waiting | Running => !threw && !returned && !caughtBad && !caughtGood
    case Handling(started) => (threw <==> started) && !returned && !caughtBad && !caughtGood
    case Settled(started, fulfilled) =>
      && (caughtBad <==> !fulfilled) && !(returned && (caughtBad || caughtGood)) && !(caughtBad && caughtGood)
      && (returned || caughtBad || caughtGood) && (started <==> threw || returned) && !(threw && returned)
  }

  lemma HistoryStep<M>(p: Port<M>, a: Action<M>, k: nat, threw: bool, returned: bool, bad: bool, good: bool)
    requires k < |p.links| ==> History(p.links[k].status, threw, returned, bad, good)
    requires k >= |p.links| ==> !threw && !returned && !bad && !good
    requires k < |Do(p, a).links|
    ensures History(Do(p, a).links[k].status,
              threw || (a == Finish(k, true) && Enabled(p, a)), returned || (a == Finish(k, false) && Enabled(p, a)),
              bad || (a == Report(k, true) && Enabled(p, a)), good || (a == Report(k, false) && Enabled(p, a)))
  {
  }

  /** In every run the status of a link tells what took place. */
  lemma {:induction false} StatusTells<M>(actions: seq<Action<M>>, k: nat)
    ensures var threw, returned := Did(actions, Finish(k, true)), Did(actions, Finish(k, false));
            var bad, good := Did(actions, Report(k, true)), Did(actions, Report(k, false));
            if k < |Run(actions).links| then History(Run(actions).links[k].status, threw, returned, bad, good)
            else !threw && !returned && !bad && !good
    decreases |actions|
  {
    if actions != [] {
      var front, a := actions[..|actions| - 1], actions[|actions| - 1];
      StatusTells(front, k);
      DidStep(actions, Finish(k, true));
      DidStep(actions, Finish(k, false));
      DidStep(actions, Report(k, true));
      DidStep(actions, Report(k, false));
      hide Did, Run, History;
      LastStep(actions);
      LinksGrow(Run(front), a);
      if k < |Run(actions).links| {
        HistoryStep(Run(front), a, k, Did(front, Finish(k, true)), Did(front, Finish(k, false)),
          Did(front, Report(k, true)), Did(front, Report(k, false)));
      }
    }
  }

  lemma LastStep<M>(actions: seq<Action<M>>)
    requires actions != []
    ensures Run(actions) == Do(Run(actions[..|actions| - 1]), actions[|actions| - 1])
  {
    hide Do;
  }

  lemma LinksGrow<M>(p: Port<M>, a: Action<M>)
    ensures |p.links| <= |Do(p, a).links|
  {
  }

  /** A link ends up rejected exactly when its `.catch` callback threw at some point of the run. */
  lemma RejectedExactly<M>(actions: seq<Action<M>>, k: nat)
    ensures (k < |Run(actions).links| && Run(actions).links[k].status.Settled? && !Run(actions).links[k].status.fulfilled)
       <==> CatchThrew(actions, k)
  {
    hide Run;
    StatusTells(actions, k);
  }

  /** A message whose processing returned is settled and fulfilled, and its `.catch` callback is
      never called. */
  lemma ReturnSettles<M>(actions: seq<Action<M>>, k: nat)
    requires Did(actions, Finish(k, false))
    ensures k < |Run(actions).links| && Run(actions).links[k].status == Settled(true, true) && !CatchRan(actions, k)
  {
    hide Run, Did;
    StatusTells(actions, k);
  }

  /** The callback of a settled message was called exactly when its processing threw or the callback
      of the message before it did. */
  lemma CatchRanExactly<M>(actions: seq<Action<M>>, k: nat)
    requires k < |Run(actions).links| && Run(actions).links[k].status.Settled?
    ensures CatchRan(actions, k) <==> Did(actions, Finish(k, true)) || (k > 0 && CatchThrew(actions, k - 1))
  {
    hide Run, Trace, Did;
    RunInv(actions);
    StatusTells(actions, k);
    if k > 0 {
      FrontierPrevious(Run(actions).links, k);
      StatusTells(actions, k - 1);
    }
  }

  /** The messages that arrived, in order. */
  function Arrivals<M>(actions: seq<Action<M>>): seq<M> {
    if actions == [] then []
    else
      var a := actions[|actions| - 1];
      Arrivals(actions[..|actions| - 1]) + if a.Arrive? then [a.message] else []
  }

  /** The chain holds exactly the messages that arrived, in their order. */
  lemma {:induction false} QueueIsArrivals<M>(actions: seq<Action<M>>)
    ensures |Run(actions).links| == |Arrivals(actions)|
    ensures forall k | 0 <= k < |Arrivals(actions)| :: Run(actions).links[k].message == Arrivals(actions)[k]
    decreases |actions|
  {
    if actions != [] { QueueIsArrivals(actions[..|actions| - 1]); }
  }

  /** A settled message was processed, however its predecessors fared, exactly when the `.catch`
      callback of the message just before it did not throw. */
  lemma LostExactly<M>(actions: seq<Action<M>>, k: nat)
    requires k < |Run(actions).links| && Run(actions).links[k].status.Settled?
    ensures Started(k) in Run(actions).log <==> k == 0 || !CatchThrew(actions, k - 1)
  {
    hide Run, Trace, Did;
    RunInv(actions);
    var links := Run(actions).links;
    InTrace(links, |links|, k);
    if k > 0 {
      FrontierPrevious(links, k);
      RejectedExactly(actions, k - 1);
    }
  }

  /** The shortest loss: the first message fails, its `.catch` callback throws, and the second
      is settled without having been started. */
  function LosingRun<M>(m: M, n: M): seq<Action<M>> {
    [Arrive(m), Arrive(n), Begin(0), Finish(0, true), Report(0, true), Begin(1), Report(1, false)]
  }

  lemma {:induction false} RunAppend<M>(actions: seq<Action<M>>, a: Action<M>)
    ensures Run(actions + [a]) == Do(Run(actions), a)
  {
    hide Do;
    assert (actions + [a])[..|actions|] == actions;
  }

  lemma LosesMessage<M>(m: M, n: M)
    ensures Run(LosingRun(m, n)).links == [Link(m, Settled(true, false)), Link(n, Settled(false, true))]
    ensures Run(LosingRun(m, n)).log == [Started(0), Ended(0)]
  {
    var r := LosingRun(m, n);
    assert Run<M>([]) == Port([], []);
    hide Run;
    assert r[..1] == [] + [r[0]] && r[..2] == r[..1] + [r[1]] && r[..3] == r[..2] + [r[2]] && r[..4] == r[..3] + [r[3]];
    assert r[..5] == r[..4] + [r[4]] && r[..6] == r[..5] + [r[5]] && r == r[..6] + [r[6]];
    RunAppend([], r[0]);
    RunAppend(r[..1], r[1]);
    RunAppend(r[..2], r[2]);
    RunAppend(r[..3], r[3]);
    RunAppend(r[..4], r[4]);
    RunAppend(r[..5], r[5]);
    RunAppend(r[..6], r[6]);
    assert Run(r[..2]) == Port([Link(m, Waiting), Link(n, Waiting)], []);
    assert Run(r[..4]) == Port([Link(m, Handling(true)), Link(n, Waiting)], [Started(0), Ended(0)]);
    assert Run(r[..5]) == Port([Link(m, Settled(true, false)), Link(n, Waiting)], [Started(0), Ended(0)]);
    assert Run(r[..6]) == Port([Link(m, Settled(true, false)), Link(n, Handling(false))], [Started(0), Ended(0)]);
  }

  predicate Throws<M>(a: Action<M>) { a.Report? && a.throws }

  /** So while no `.catch` callback throws, every settled message was processed, also behind
      messages whose processing failed or that were dropped. */
  lemma NothingLost<M>(actions: seq<Action<M>>, k: nat)
    requires forall i | 0 <= i < |actions| :: !Throws(actions[i])
    requires k < |Run(actions).links| && Run(actions).links[k].status.Settled?
    ensures Started(k) in Run(actions).log
  {
    hide Run;
    LostExactly(actions, k);
  }

  lemma {:induction false} InTrace<M>(links: seq<Link<M>>, n: nat, k: nat)
    requires k < |links| && n <= |links|
    ensures Started(k) in Trace(links, n) <==> k < n && StartedFlag(links[k].status)
    decreases n
  {
    if n > 0 { InTrace(links, n - 1, k); }
  }

  /** Nothing blocks: the first unsettled link can always take a step. */
  lemma NeverStuck<M>(actions: seq<Action<M>>, k: nat)
    requires k < |Run(actions).links| && !Run(actions).links[k].status.Settled?
    requires forall j | 0 <= j < k :: Run(actions).links[j].status.Settled?
    ensures var p := Run(actions);
            Enabled(p, Begin(k)) || Enabled(p, Finish(k, false)) || Enabled(p, Report(k, false))
  {
  }

  // ---- the chain settles --------------------------------------------------------------------------

  function StepsLeft(status: Status): nat {
    match status
    case Waiting => 3
    case Running => 2
    case Handling(_) => 1
    case Settled(_, _) => 0
  }

  /** What the first `n` links still have to do. */
  function Work<M>(links: seq<Link<M>>, n: nat): nat
    requires n <= |links|
  {
    if n == 0 then 0 else Work(links, n - 1) + StepsLeft(links[n - 1].status)
  }

  lemma {:induction false} WorkAfterSet<M>(p: Port<M>, k: nat, status: Status, n: nat)
    requires k < |p.links| && n <= |p.links|
    ensures Work(Set(p, k, status).links, n) ==
              Work(p.links, n) - (if k < n then StepsLeft(p.links[k].status) - StepsLeft(status) else 0)
    decreases n
  {
    if n > 0 { WorkAfterSet(p, k, status, n - 1); }
  }

  function AllWork<M>(p: Port<M>): nat { Work(p.links, |p.links|) }

  /** Every step that is not an arrival uses up some of the work. */
  lemma StepWorks<M>(p: Port<M>, a: Action<M>)
    requires Enabled(p, a) && !a.Arrive?
    ensures |Do(p, a).links| == |p.links| && AllWork(Do(p, a)) < AllWork(p)
  {
    hide Work;
    var status := Do(p, a).links[a.k].status;
    assert Do(p, a).links == Set(p, a.k, status).links;
    WorkAfterSet(p, a.k, status, |p.links|);
  }

  predicate AllSettled<M>(p: Port<M>) { forall k | 0 <= k < |p.links| :: p.links[k].status.Settled? }

  function FirstUnsettled<M>(links: seq<Link<M>>, from: nat): (k: nat)
    requires from <= |links| && exists j :: from <= j < |links| && !links[j].status.Settled?
    ensures from <= k < |links| && !links[k].status.Settled? && forall j | from <= j < k :: links[j].status.Settled?
    decreases |links| - from
  {
    if !links[from].status.Settled? then from else FirstUnsettled(links, from + 1)
  }

  /** Nothing blocks: whatever has happened, a continuation without arrivals and without throws
      settles every message. */
  lemma {:induction false} CanSettle<M>(actions: seq<Action<M>>) returns (more: seq<Action<M>>)
    ensures |Run(actions + more).links| == |Run(actions).links| && AllSettled(Run(actions + more))
    ensures forall i | 0 <= i < |more| :: !more[i].Arrive? && !Throws(more[i])
    decreases AllWork(Run(actions))
  {
    var p := Run(actions);
    if AllSettled(p) {
      more := [];
      assert actions + more == actions;
    } else {
      var k := FirstUnsettled(p.links, 0);
      NeverStuck(actions, k);
      var a := if Enabled(p, Begin(k)) then Begin(k) else if Enabled(p, Finish(k, false)) then Finish(k, false) else Report(k, false);
      hide Run, AllWork;
      StepWorks(p, a);
      RunAppend(actions, a);
      var rest := CanSettle(actions + [a]);
      more := [a] + rest;
      assert actions + more == actions + [a] + rest;
    }
  }

  /** Nothing is lost from the queue or reordered in it. */
  lemma {:induction false} MessagesKept<M>(actions: seq<Action<M>>, more: seq<Action<M>>, k: nat)
    requires k < |Run(actions).links|
    ensures k < |Run(actions + more).links| && Run(actions + more).links[k].message == Run(actions).links[k].message
    decreases |more|
  {
    if more == [] {
      assert actions + more == actions;
    } else {
      MessagesKept(actions, more[..|more| - 1], k);
      assert (actions + more)[..|actions + more| - 1] == actions + more[..|more| - 1];
    }
  }
}
