/** `uniffiRustCallAsync` and its continuation callback: any number of calls share one handle
    map, and Rust may invoke the callback at any moment with any handle and any result. */
module AsyncCall {
  import opened Bits
  import opened HandleMap

  const READY: int := 0

  /** The continuation of one `await` of one call. */
  datatype Cont = Cont(call: nat, round: nat)

  datatype Phase =
    | NeedPoll(round: nat)
    | Waiting(round: nat, handle: nat)
    | Woken(round: nat, result: int)
    | Finishing
    | Exiting
    | Returned

  datatype Event =
    | Created(call: nat)
    | Polled(call: nat, handle: nat)
    | Resumed(call: nat, round: nat, handle: nat, result: int)
    | Completed(call: nat)
    | Freed(call: nat)

  /** `misused` records a continuation resumed when its call was not suspended on it. */
  datatype System = System(table: State<Cont>, calls: map<nat, Phase>, log: seq<Event>, misused: bool)

  /** One uninterrupted section: of call `c`, or of a callback. */
  datatype Action =
    | Create(c: nat)
    | Poll(c: nat)
    | Callback(handle: nat, result: int)
    | TestResult(c: nat)
    | Complete(c: nat)
    | Free(c: nat)

  const START := System(State(map[], INITIAL), map[], [], false)

  function Emit(s: System, c: nat, p: Phase, e: Event): System {
    s.(calls := s.calls[c := p], log := s.log + [e])
  }

  /** An action that is not enabled changes nothing. */
  function Do(s: System, a: Action): System {
    match a
    case Create(c) => if c in s.calls then s else Emit(s, c, NeedPoll(0), Created(c))
    case Poll(c) =>
      if c !in s.calls || !s.calls[c].NeedPoll? then s
      else
        var n := s.calls[c].round;
        var (table, issued) := Issue(s.table, Cont(c, n));
        if !issued.Handle? then s
        else Emit(s.(table := table), c, Waiting(n, issued.handle), Polled(c, issued.handle))
    case Callback(h, result) =>
      var (table, removed) := Step(s.table, Remove(h));
      if !removed.Object? then s
      else
        var k := removed.obj;
        if k.call in s.calls && s.calls[k.call] == Waiting(k.round, h)
        then Emit(s.(table := table), k.call, Woken(k.round, result), Resumed(k.call, k.round, h, result))
        else s.(table := table, misused := true)
    case TestResult(c) =>
      if c !in s.calls || !s.calls[c].Woken? then s
      else if s.calls[c].result == READY then s.(calls := s.calls[c := Finishing])
      else s.(calls := s.calls[c := NeedPoll(s.calls[c].round + 1)])
    case Complete(c) =>
      if c !in s.calls || !s.calls[c].Finishing? then s else Emit(s, c, Exiting, Completed(c))
    case Free(c) =>
      if c !in s.calls || !s.calls[c].Exiting? then s else Emit(s, c, Returned, Freed(c))
  }

  function Run(actions: seq<Action>): System {
    if actions == [] then START else Do(Run(actions[..|actions| - 1]), actions[|actions| - 1])
  }

  // ---- the life of one call as a regular language ----------------------------------------------

  datatype Stage = Fresh | ToPoll | Suspended(handle: nat) | ToComplete | ToFree | Over | Bad

  /** Created (Polled Resumed[not ready])* Polled Resumed[ready] Completed Freed. */
  function Advance(stage: Stage, e: Event): Stage {
    match (stage, e)
    case (Fresh, Created(_)) => ToPoll
    case (ToPoll, Polled(_, h)) => Suspended(h)
    case (Suspended(g), Resumed(_, _, h, r)) => if g != h then Bad else if r == READY then ToComplete else ToPoll
    case (ToComplete, Completed(_)) => ToFree
    case (ToFree, Freed(_)) => Over
    case _ => Bad
  }

  function StageOf(trace: seq<Event>): Stage {
    if trace == [] then Fresh else Advance(StageOf(trace[..|trace| - 1]), trace[|trace| - 1])
  }

  /** The events of call `c`, in order. */
  function Of(log: seq<Event>, c: nat): seq<Event> {
    if log == [] then []
    else Of(log[..|log| - 1], c) + (if log[|log| - 1].call == c then [log[|log| - 1]] else [])
  }

  /** What membership in the language says event by event. */
  lemma {:induction false} LanguageMeaning(trace: seq<Event>, i: nat)
    requires StageOf(trace) != Bad && i < |trace|
    ensures trace[i].Created? <==> i == 0
    ensures trace[i].Polled? ==> trace[i - 1].Created? || (trace[i - 1].Resumed? && trace[i - 1].result != READY)
    ensures trace[i].Resumed? ==> trace[i - 1].Polled? && trace[i - 1].handle == trace[i].handle
    ensures trace[i].Completed? ==> trace[i - 1].Resumed? && trace[i - 1].result == READY
    ensures trace[i].Freed? ==> trace[i - 1].Completed? && i == |trace| - 1
    ensures trace[i].Completed? ==> i + 1 == |trace| || (i + 2 == |trace| && trace[i + 1].Freed?)
    decreases |trace|
  {
    var front := trace[..|trace| - 1];
    LastEvent(trace);
    if i < |front| {
      LanguageMeaning(front, i);
      LastEvent(front);
    }
  }

  lemma LastEvent(trace: seq<Event>)
    requires StageOf(trace) != Bad
    ensures StageOf(trace) == Fresh <==> trace == []
    ensures trace != [] ==>
      var e, front := trace[|trace| - 1], trace[..|trace| - 1];
      && StageOf(front) != Bad && StageOf(front) != Over
      && (e.Created? <==> front == [])
      && (StageOf(trace) == ToPoll <==> e.Created? || (e.Resumed? && e.result != READY))
      && (StageOf(trace).Suspended? <==> e.Polled?) && (e.Polled? ==> StageOf(trace).handle == e.handle)
      && (StageOf(trace) == ToComplete <==> e.Resumed? && e.result == READY)
      && (StageOf(trace) == ToFree <==> e.Completed?)
      && (StageOf(trace) == Over <==> e.Freed?)
      && StageOf(trace) == Advance(StageOf(front), e)
  {
    if trace != [] {
      var front := trace[..|trace| - 1];
      if front != [] { LastEvent(front); }
    }
  }

  // ---- what every action keeps ------------------------------------------------------------------

  predicate PhaseMatches(s: System, c: nat, stage: Stage) {
    if c !in s.calls then stage == Fresh
    else match s.calls[c]
      case NeedPoll(_) => stage == ToPoll
      case Waiting(_, h) => stage == Suspended(h)
      case Woken(_, r) => stage == if r == READY then ToComplete else ToPoll
      case Finishing => stage == ToComplete
      case Exiting => stage == ToFree
      case Returned => stage == Over
  }

  /** Live handles are exactly the suspended awaits. */
  predicate TableMatches(s: System) {
    && (forall h | h in s.table.entries :: h < s.table.next)
    && (forall h | h in s.table.entries ::
          var k := s.table.entries[h]; k.call in s.calls && s.calls[k.call] == Waiting(k.round, h))
    && (forall c | c in s.calls && s.calls[c].Waiting? ::
          s.calls[c].handle in s.table.entries && s.table.entries[s.calls[c].handle] == Cont(c, s.calls[c].round))
  }

  /** A resumed continuation has left the table for good. */
  predicate ResumedGone(s: System) {
    forall i | 0 <= i < |s.log| && s.log[i].Resumed? ::
      s.log[i].handle < s.table.next && s.log[i].handle !in s.table.entries
  }

  /** No handle is used twice, and no continuation: a call is resumed once per round. */
  predicate ResumedOnce(log: seq<Event>) {
    forall i, j | 0 <= i < j < |log| && log[i].Resumed? && log[j].Resumed? ::
      log[i].handle != log[j].handle && (log[i].call, log[i].round) != (log[j].call, log[j].round)
  }

  /** Round `n` of a call in this phase is behind it. */
  predicate Behind(p: Phase, n: nat) {
    match p
    case NeedPoll(m) => n < m
    case Waiting(m, _) => n < m
    case Woken(m, _) => n <= m
    case _ => true
  }

  predicate RoundsBehind(s: System) {
    forall i | 0 <= i < |s.log| && s.log[i].Resumed? ::
      s.log[i].call in s.calls && Behind(s.calls[s.log[i].call], s.log[i].round)
  }

  ghost predicate Inv(s: System) {
    && !s.misused && TableMatches(s) && ResumedGone(s) && RoundsBehind(s) && ResumedOnce(s.log)
    && forall c: nat :: PhaseMatches(s, c, StageOf(Of(s.log, c)))
  }

  lemma OfAppend(log: seq<Event>, e: Event, c: nat)
    ensures Of(log + [e], c) == Of(log, c) + if e.call == c then [e] else []
  {
    assert (log + [e])[..|log|] == log;
  }

  lemma StageAppend(trace: seq<Event>, e: Event)
    ensures StageOf(trace + [e]) == Advance(StageOf(trace), e)
  {
    assert (trace + [e])[..|trace|] == trace;
  }

  /** Logging an event of call `c` moves the stage of `c` and of nothing else. */
  lemma LogMoves(log: seq<Event>, e: Event, c: nat)
    ensures StageOf(Of(log + [e], c)) ==
      if e.call == c then Advance(StageOf(Of(log, c)), e) else StageOf(Of(log, c))
  {
    hide StageOf, Of;
    OfAppend(log, e, c);
    StageAppend(Of(log, c), e);
    assert Of(log, c) + [] == Of(log, c);
  }

  lemma DoKeepsStages(s: System, a: Action, c: nat)
    requires Inv(s)
    ensures PhaseMatches(Do(s, a), c, StageOf(Of(Do(s, a).log, c)))
  {
    hide StageOf, Of, ResumedOnce, ResumedGone, RoundsBehind;
    var s' := Do(s, a);
    assert PhaseMatches(s, c, StageOf(Of(s.log, c)));
    if s'.log != s.log {
      LogMoves(s.log, s'.log[|s.log|], c);
    }
  }

  lemma DoKeepsTable(s: System, a: Action)
    requires Inv(s)
    ensures !Do(s, a).misused && TableMatches(Do(s, a)) && ResumedGone(Do(s, a))
  {
    hide StageOf, Of, PhaseMatches, RoundsBehind, ResumedOnce;
  }

  lemma DoKeepsRounds(s: System, a: Action)
    requires Inv(s)
    ensures RoundsBehind(Do(s, a)) && ResumedOnce(Do(s, a).log)
  {
    hide StageOf, Of, PhaseMatches;
  }

  lemma {:induction false} RunInv(actions: seq<Action>)
    ensures Inv(Run(actions))
    decreases |actions|
  {
    hide Inv;
    if actions == [] {
      StartInv();
    } else {
      var s, a := Run(actions[..|actions| - 1]), actions[|actions| - 1];
      RunInv(actions[..|actions| - 1]);
      DoKeepsInv(s, a);
    }
  }

  lemma StartInv()
    ensures Inv(START)
  {
    forall c: nat ensures PhaseMatches(START, c, StageOf(Of(START.log, c))) {
      assert Of([], c) == [];
    }
  }

  lemma DoKeepsInv(s: System, a: Action)
    requires Inv(s)
    ensures Inv(Do(s, a))
  {
    hide Do, TableMatches, ResumedGone, RoundsBehind, ResumedOnce, PhaseMatches, StageOf, Of;
    DoKeepsTable(s, a);
    DoKeepsRounds(s, a);
    forall c: nat ensures PhaseMatches(Do(s, a), c, StageOf(Of(Do(s, a).log, c))) {
      DoKeepsStages(s, a, c);
    }
  }

  // ---- the promises, for every interleaving of calls and callbacks -------------------------------

  /** No continuation is resumed twice or while its call is not waiting for it. */
  lemma ContinuationsResumedOnce(actions: seq<Action>)
    ensures !Run(actions).misused && ResumedOnce(Run(actions).log)
  {
    hide Run;
    RunInv(actions);
  }

  /** Every handle in the map belongs to a call that is suspended on it and on nothing else. */
  lemma HandleMeansSuspended(actions: seq<Action>, h: nat)
    requires h in Run(actions).table.entries
    ensures var s, k := Run(actions), Run(actions).table.entries[h];
            k.call in s.calls && s.calls[k.call] == Waiting(k.round, h)
  {
    hide Run, Of, StageOf;
    RunInv(actions);
  }

  /** The events of each call are a prefix of the protocol: it is completed only right after a
      READY result, freed only right after completion, and neither happens twice. */
  lemma ProtocolFollowed(actions: seq<Action>, c: nat, i: nat)
    requires i < |Of(Run(actions).log, c)|
    ensures var trace := Of(Run(actions).log, c);
            && StageOf(trace) != Bad
            && (trace[i].Completed? ==> i >= 1 && trace[i - 1].Resumed? && trace[i - 1].result == 0)
            && (trace[i].Completed? ==> i + 1 == |trace| || (i + 2 == |trace| && trace[i + 1].Freed?))
            && (trace[i].Freed? ==> i == |trace| - 1 && i >= 1 && trace[i - 1].Completed?)
            && (trace[i].Resumed? ==> i >= 1 && trace[i - 1].Polled? && trace[i - 1].handle == trace[i].handle)
  {
    hide Run, Of, StageOf;
    RunInv(actions);
    assert PhaseMatches(Run(actions), c, StageOf(Of(Run(actions).log, c)));
    LanguageMeaning(Of(Run(actions).log, c), i);
  }

  /** When a call has returned it was freed, and none of its handles is left in the map. */
  lemma ReturnedCleanly(actions: seq<Action>, c: nat)
    requires c in Run(actions).calls && Run(actions).calls[c].Returned?
    ensures StageOf(Of(Run(actions).log, c)) == Over
    ensures forall h | h in Run(actions).table.entries :: Run(actions).table.entries[h].call != c
  {
    hide Run, Of, StageOf;
    RunInv(actions);
    assert PhaseMatches(Run(actions), c, StageOf(Of(Run(actions).log, c)));
  }

  /** No wakeup is lost: the callback for a suspended call's handle always resumes that call. */
  lemma WakeupDelivered(actions: seq<Action>, c: nat, result: int)
    requires c in Run(actions).calls && Run(actions).calls[c].Waiting?
    ensures var s := Run(actions);
            Do(s, Callback(s.calls[c].handle, result)).calls[c] == Woken(s.calls[c].round, result)
  {
    hide Run, Of, StageOf;
    RunInv(actions);
  }

  // ---- every call can be brought to its end ---------------------------------------------------------

  lemma RunAppend(actions: seq<Action>, a: Action)
    ensures Run(actions + [a]) == Do(Run(actions), a)
  {
    hide Do;
    assert (actions + [a])[..|actions|] == actions;
  }

  /** The calls are exactly those created in the run. */
  lemma {:induction false} CallsExactly(actions: seq<Action>, c: nat)
    ensures c in Run(actions).calls <==> Create(c) in actions
    decreases |actions|
  {
    if actions != [] {
      var front, a := actions[..|actions| - 1], actions[|actions| - 1];
      CallsExactly(front, c);
      RunInv(front);
      assert actions == front + [a];
      hide Run;
      KeysEvolve(Run(front), a, c);
    }
  }

  lemma KeysEvolve(s: System, a: Action, c: nat)
    requires Inv(s)
    ensures c in Do(s, a).calls <==> c in s.calls || a == Create(c)
  {
  }

  predicate WantsHandle(p: Phase) { p.NeedPoll? || (p.Woken? && p.result != READY) }

  function StepsLeft(p: Phase): nat {
    match p
    case Woken(_, r) => if r == READY then 3 else 6
    case NeedPoll(_) => 5
    case Waiting(_, _) => 4
    case Finishing => 2
    case Exiting => 1
    case Returned => 0
  }

  /** What call `c` does next, or what Rust does for it: wake it with READY. */
  function Next(s: System, c: nat): Action
    requires c in s.calls
  {
    match s.calls[c]
    case NeedPoll(_) => Poll(c)
    case Waiting(_, h) => Callback(h, READY)
    case Woken(_, _) => TestResult(c)
    case Finishing => Complete(c)
    case _ => Free(c)
  }

  /** That step brings the call forward, leaves the others alone, and takes a handle at most where
      one was wanted. */
  lemma NextAdvances(s: System, c: nat)
    requires Inv(s) && c in s.calls && !s.calls[c].Returned?
    requires s.calls[c].NeedPoll? ==> s.table.next + DELTA < TWO_64
    ensures var s' := Do(s, Next(s, c));
            && s'.calls.Keys == s.calls.Keys && StepsLeft(s'.calls[c]) < StepsLeft(s.calls[c])
            && (forall d | d in s.calls && d != c :: s'.calls[d] == s.calls[d])
            && (if s.calls[c].NeedPoll? then !WantsHandle(s'.calls[c]) && s'.table.next == s.table.next + DELTA
                else s'.table.next == s.table.next && (WantsHandle(s'.calls[c]) ==> WantsHandle(s.calls[c])))
  {
    hide Of, StageOf, PhaseMatches, ResumedGone, ResumedOnce, RoundsBehind;
    assert TableMatches(s);
  }

  /** Over the calls named below `b`: the steps left, and the handles still wanted. */
  function Work(calls: map<nat, Phase>, b: nat): nat {
    if b == 0 then 0 else Work(calls, b - 1) + (if b - 1 in calls then StepsLeft(calls[b - 1]) else 0)
  }

  function Wanted(calls: map<nat, Phase>, b: nat): nat {
    if b == 0 then 0 else Wanted(calls, b - 1) + (if b - 1 in calls && WantsHandle(calls[b - 1]) then 1 else 0)
  }

  lemma {:induction false} SumsEvolve(x: map<nat, Phase>, y: map<nat, Phase>, c: nat, b: nat)
    requires x.Keys == y.Keys && c in x && StepsLeft(y[c]) < StepsLeft(x[c])
    requires forall d | d in x && d != c :: y[d] == x[d]
    ensures c < b ==> Work(y, b) < Work(x, b)
    ensures c >= b ==> Work(y, b) == Work(x, b) && Wanted(y, b) == Wanted(x, b)
    ensures c < b ==> Wanted(y, b) + (if WantsHandle(x[c]) then 1 else 0) == Wanted(x, b) + (if WantsHandle(y[c]) then 1 else 0)
    decreases b
  {
    hide StepsLeft, WantsHandle;
    if b > 0 { SumsEvolve(x, y, c, b - 1); }
  }

  lemma {:induction false} WantedPositive(calls: map<nat, Phase>, c: nat, b: nat)
    requires c in calls && WantsHandle(calls[c]) && c < b
    ensures Wanted(calls, b) >= 1
    decreases b
  {
    hide WantsHandle;
    if c < b - 1 { WantedPositive(calls, c, b - 1); }
  }

  predicate Below(calls: map<nat, Phase>, b: nat) { forall c | c in calls :: c < b }

  /** There is a handle for every call that still wants one. */
  predicate HandlesLeft(s: System, b: nat) { s.table.next + DELTA * Wanted(s.calls, b) < TWO_64 }

  predicate AllReturned(s: System) { forall c | c in s.calls :: s.calls[c].Returned? }

  /** Nothing new is started and Rust answers READY. */
  predicate Finishes(actions: seq<Action>) {
    forall i | 0 <= i < |actions| :: !actions[i].Create? && (actions[i].Callback? ==> actions[i].result == 0)
  }

  lemma NextKeepsBudget(s: System, c: nat, b: nat)
    requires Inv(s) && c in s.calls && !s.calls[c].Returned? && Below(s.calls, b) && HandlesLeft(s, b)
    ensures var s' := Do(s, Next(s, c));
            s'.calls.Keys == s.calls.Keys && Below(s'.calls, b) && HandlesLeft(s', b) && Work(s'.calls, b) < Work(s.calls, b)
    ensures Finishes([Next(s, c)])
  {
    if s.calls[c].NeedPoll? { WantedPositive(s.calls, c, b); }
    hide Inv, Do, Work, Wanted, StepsLeft;
    NextAdvances(s, c);
    SumsEvolve(s.calls, Do(s, Next(s, c)).calls, c, b);
  }

  /** From every reachable state with handles left, a continuation in which Rust wakes each suspended
      call with READY lets every call return. */
  lemma {:induction false} CanReturn(actions: seq<Action>, b: nat) returns (more: seq<Action>)
    requires Below(Run(actions).calls, b) && HandlesLeft(Run(actions), b)
    ensures Finishes(more) && AllReturned(Run(actions + more)) && Run(actions + more).calls.Keys == Run(actions).calls.Keys
    decreases Work(Run(actions).calls, b)
  {
    hide Run, Do, Work, Wanted, HandlesLeft, Below, Inv, Next, Finishes;
    var s := Run(actions);
    if AllReturned(s) {
      more := [];
      NoneFinishes();
      assert actions + more == actions;
    } else {
      var c :| c in s.calls && !s.calls[c].Returned?;
      RunInv(actions);
      NextKeepsBudget(s, c, b);
      RunAppend(actions, Next(s, c));
      var rest := CanReturn(actions + [Next(s, c)], b);
      more := [Next(s, c)] + rest;
      FinishesJoin([Next(s, c)], rest);
      Regroup(actions, Next(s, c), rest);
    }
  }

  lemma NoneFinishes()
    ensures Finishes([])
  {
  }

  lemma FinishesJoin(x: seq<Action>, y: seq<Action>)
    requires Finishes(x) && Finishes(y)
    ensures Finishes(x + y)
  {
  }

  lemma Regroup(actions: seq<Action>, a: Action, rest: seq<Action>)
    ensures actions + ([a] + rest) == actions + [a] + rest
  {
  }

  /** A returned call has completed its future once and then freed it once, and nothing after that. */
  lemma ReturnedOnce(actions: seq<Action>, c: nat)
    requires c in Run(actions).calls && Run(actions).calls[c].Returned?
    ensures var trace := Of(Run(actions).log, c);
            && |trace| >= 2 && trace[|trace| - 1].Freed? && trace[|trace| - 2].Completed?
            && forall i | 0 <= i < |trace| - 2 :: !trace[i].Completed? && !trace[i].Freed?
  {
    hide Run, Of, StageOf;
    ReturnedCleanly(actions, c);
    var trace := Of(Run(actions).log, c);
    LastEvent(trace);
    NotFresh();
    LanguageMeaning(trace, |trace| - 1);
    forall i | 0 <= i < |trace| - 2 ensures !trace[i].Completed? && !trace[i].Freed? {
      LanguageMeaning(trace, i);
    }
  }

  lemma NotFresh()
    ensures StageOf([]) == Fresh
  {
  }
}
