/** `ActrNode` under concurrent `create_network_event_handle` and `start` calls: two mutexes,
    one around the node, one around the event handle made from it. Acquiring, using and
    releasing a lock are separate steps of a call. */
module NodeLifecycle {

  datatype Option<+T> = None | Some(value: T)

  /** Where a call stands. A create holds the handle lock while it waits for the node lock. */
  datatype Place =
    | CreateWantsHandleLock
    | CreateHasHandleLock
    | CreateWantsNodeLock
    | CreateHasBoth
    | CreateDropsNodeLock(made: Option<nat>)
    | CreateDropsHandleLock(made: Option<nat>)
    | CreateDone(made: Option<nat>)
    | StartWantsNodeLock
    | StartHasNodeLock
    | StartDropsNodeLock(won: bool)
    | StartDone(won: bool)

  /** A handle goes by the call that made it. */
  datatype Event = Made(call: nat) | Taken(call: nat)

  datatype Node = Node(
    inner: bool,
    handle: Option<nat>,
    nodeLock: Option<nat>,
    handleLock: Option<nat>,
    calls: map<nat, Place>,
    log: seq<Event>)

  /** Create(c), Start(c): a new call `c` arrives. Move(c): call `c` takes one step, or stays
      where it is while the lock it wants is held. */
  datatype Action = Create(c: nat) | Start(c: nat) | Move(c: nat)

  const FRESH := Node(true, None, None, None, map[], [])

  function Goto(n: Node, c: nat, p: Place): Node { n.(calls := n.calls[c := p]) }

  function Do(n: Node, a: Action): Node {
    match a
    case Create(c) => if c in n.calls then n else Goto(n, c, CreateWantsHandleLock)
    case Start(c) => if c in n.calls then n else Goto(n, c, StartWantsNodeLock)
    case Move(c) =>
      if c !in n.calls then n
      else match n.calls[c]
        case CreateWantsHandleLock =>
          if n.handleLock.Some? then n else Goto(n.(handleLock := Some(c)), c, CreateHasHandleLock)
        case CreateHasHandleLock =>
          if n.handle.Some? then Goto(n, c, CreateDropsHandleLock(n.handle)) else Goto(n, c, CreateWantsNodeLock)
        case CreateWantsNodeLock =>
          if n.nodeLock.Some? then n else Goto(n.(nodeLock := Some(c)), c, CreateHasBoth)
        case CreateHasBoth =>
          if !n.inner then Goto(n, c, CreateDropsNodeLock(None))
          else
            Goto(n.(handle := Some(c), log := n.log + [Made(c)]), c, CreateDropsNodeLock(Some(c)))
        case CreateDropsNodeLock(r) => Goto(n.(nodeLock := None), c, CreateDropsHandleLock(r))
        case CreateDropsHandleLock(r) => Goto(n.(handleLock := None), c, CreateDone(r))
        case StartWantsNodeLock =>
          if n.nodeLock.Some? then n else Goto(n.(nodeLock := Some(c)), c, StartHasNodeLock)
        case StartHasNodeLock =>
          if !n.inner then Goto(n, c, StartDropsNodeLock(false))
          else Goto(n.(inner := false, log := n.log + [Taken(c)]), c, StartDropsNodeLock(true))
        case StartDropsNodeLock(w) => Goto(n.(nodeLock := None), c, StartDone(w))
        case CreateDone(_) | StartDone(_) => n
  }

  function Run(actions: seq<Action>): Node {
    if actions == [] then FRESH else Do(Run(actions[..|actions| - 1]), actions[|actions| - 1])
  }

  // ---- what every step keeps -----------------------------------------------------------------

  predicate HoldsHandleLock(p: Place) {
    p.CreateHasHandleLock? || p.CreateWantsNodeLock? || p.CreateHasBoth? || p.CreateDropsNodeLock? || p.CreateDropsHandleLock?
  }

  predicate HoldsNodeLock(p: Place) {
    p.CreateHasBoth? || p.CreateDropsNodeLock? || p.StartHasNodeLock? || p.StartDropsNodeLock?
  }

  predicate Finished(p: Place) { p.CreateDone? || p.StartDone? }

  predicate LockedBy(n: Node, c: nat, p: Place) {
    && (HoldsHandleLock(p) <==> n.handleLock == Some(c))
    && (HoldsNodeLock(p) <==> n.nodeLock == Some(c))
  }

  predicate LocksMatch(n: Node) {
    && (forall c | c in n.calls :: LockedBy(n, c, n.calls[c]))
    && (n.handleLock.Some? ==> n.handleLock.value in n.calls)
    && (n.nodeLock.Some? ==> n.nodeLock.value in n.calls)
  }

  /** The log is `[Made]? [Taken]?`, and the two options say which. */
  predicate LogMatches(n: Node) {
    match |n.log|
    case 0 => n.inner && n.handle.None?
    case 1 =>
      if n.log[0].Made? then n.inner && n.handle == Some(n.log[0].call) else !n.inner && n.handle.None?
    case 2 => n.log[0].Made? && n.log[1].Taken? && !n.inner && n.handle == Some(n.log[0].call)
    case _ => false
  }

  predicate ResultMatches(n: Node, c: nat, p: Place) {
    match p
    case CreateWantsNodeLock | CreateHasBoth => n.handle.None?
    case CreateDropsNodeLock(_) | CreateDropsHandleLock(_) | CreateDone(_) =>
      n.handle == p.made && (p.made.None? ==> !n.inner)
    case StartDropsNodeLock(_) | StartDone(_) =>
      !n.inner && (p.won ==> |n.log| > 0 && n.log[|n.log| - 1] == Taken(c))
    case _ => true
  }

  /** The calls in the log are where they must be after what they logged. */
  predicate LoggedBy(n: Node, e: Event) {
    e.call in n.calls &&
    match (e, n.calls[e.call])
    case (Taken(_), StartDropsNodeLock(won)) => won
    case (Taken(_), StartDone(won)) => won
    case (Made(c), CreateDropsNodeLock(made)) => made == Some(c)
    case (Made(c), CreateDropsHandleLock(made)) => made == Some(c)
    case (Made(c), CreateDone(made)) => made == Some(c)
    case _ => false
  }

  predicate LogKnown(n: Node) { forall i | 0 <= i < |n.log| :: LoggedBy(n, n.log[i]) }

  predicate Inv(n: Node) {
    LocksMatch(n) && LogMatches(n) && LogKnown(n) && forall c | c in n.calls :: ResultMatches(n, c, n.calls[c])
  }

  lemma MoverLocked(n: Node, c: nat)
    requires c in n.calls && LockedBy(n, c, n.calls[c])
    ensures LockedBy(Do(n, Move(c)), c, Do(n, Move(c)).calls[c])
  {
  }

  lemma OtherLocked(n: Node, a: Action, c: nat)
    requires c in n.calls && a.c != c && LockedBy(n, c, n.calls[c]) && (a.c in n.calls ==> LockedBy(n, a.c, n.calls[a.c]))
    ensures c in Do(n, a).calls && LockedBy(Do(n, a), c, Do(n, a).calls[c])
  {
  }

  lemma KeepsLockedBy(n: Node, a: Action, c: nat)
    requires Inv(n) && c in Do(n, a).calls
    ensures LockedBy(Do(n, a), c, Do(n, a).calls[c])
  {
    hide LogMatches, ResultMatches, LogKnown, LockedBy;
    if c !in n.calls {
      NewcomerLocked(n, a, c);
    } else if a.c != c {
      OtherLocked(n, a, c);
    } else if a.Move? {
      MoverLocked(n, c);
    } else {
      assert Do(n, a) == n;
    }
  }

  lemma NewcomerLocked(n: Node, a: Action, c: nat)
    requires LocksMatch(n) && c !in n.calls && c in Do(n, a).calls
    ensures LockedBy(Do(n, a), c, Do(n, a).calls[c])
  {
  }

  lemma KeepsOwners(n: Node, a: Action)
    requires LocksMatch(n)
    ensures Do(n, a).handleLock.Some? ==> Do(n, a).handleLock.value in Do(n, a).calls
    ensures Do(n, a).nodeLock.Some? ==> Do(n, a).nodeLock.value in Do(n, a).calls
  {
    hide LockedBy;
  }

  lemma KeepsLog(n: Node, a: Action)
    requires Inv(n)
    ensures LogMatches(Do(n, a))
  {
    hide LocksMatch, LogKnown;
  }

  lemma KeepsLoggedBy(n: Node, a: Action, e: Event)
    requires LoggedBy(n, e)
    ensures LoggedBy(Do(n, a), e)
  {
  }

  lemma NewEvent(n: Node, a: Action)
    ensures n.log <= Do(n, a).log && |Do(n, a).log| <= |n.log| + 1
    ensures |Do(n, a).log| == |n.log| + 1 ==> LoggedBy(Do(n, a), Do(n, a).log[|n.log|])
  {
  }

  lemma KeepsKnown(n: Node, a: Action)
    requires LogKnown(n)
    ensures LogKnown(Do(n, a))
  {
    hide Do, LoggedBy;
    var n' := Do(n, a);
    NewEvent(n, a);
    forall i | 0 <= i < |n.log| ensures LoggedBy(n', n.log[i]) {
      KeepsLoggedBy(n, a, n.log[i]);
    }
  }

  lemma MoverResult(n: Node, c: nat)
    requires Inv(n) && c in n.calls
    ensures ResultMatches(Do(n, Move(c)), c, Do(n, Move(c)).calls[c])
  {
    hide LogKnown;
    assert ResultMatches(n, c, n.calls[c]) && LockedBy(n, c, n.calls[c]);
  }

  lemma OtherResult(n: Node, a: Action, c: nat)
    requires Inv(n) && c in n.calls && a.c != c
    ensures c in Do(n, a).calls && ResultMatches(Do(n, a), c, Do(n, a).calls[c])
  {
    hide LogKnown;
    assert ResultMatches(n, c, n.calls[c]) && LockedBy(n, c, n.calls[c]);
    assert a.c in n.calls ==> ResultMatches(n, a.c, n.calls[a.c]) && LockedBy(n, a.c, n.calls[a.c]);
  }

  lemma NewcomerResult(n: Node, a: Action, c: nat)
    requires c !in n.calls && c in Do(n, a).calls
    ensures ResultMatches(Do(n, a), c, Do(n, a).calls[c])
  {
  }

  lemma KeepsResults(n: Node, a: Action, c: nat)
    requires Inv(n) && c in Do(n, a).calls
    ensures ResultMatches(Do(n, a), c, Do(n, a).calls[c])
  {
    if c !in n.calls {
      NewcomerResult(n, a, c);
    } else if a.c != c {
      OtherResult(n, a, c);
    } else if a.Move? {
      MoverResult(n, c);
    } else {
      assert Do(n, a) == n;
    }
  }

  lemma {:induction false} RunInv(actions: seq<Action>)
    ensures Inv(Run(actions))
    decreases |actions|
  {
    if actions != [] {
      var n, a := Run(actions[..|actions| - 1]), actions[|actions| - 1];
      RunInv(actions[..|actions| - 1]);
      hide Do, LockedBy, LogMatches, ResultMatches, LogKnown;
      KeepsOwners(n, a);
      KeepsLog(n, a);
      KeepsKnown(n, a);
      forall c | c in Do(n, a).calls
        ensures LockedBy(Do(n, a), c, Do(n, a).calls[c]) && ResultMatches(Do(n, a), c, Do(n, a).calls[c])
      {
        KeepsLockedBy(n, a, c);
        KeepsResults(n, a, c);
      }
    }
  }

  // ---- the promises, for every interleaving ----------------------------------------------------

  /** The handle is made at most once, the node is taken at most once, and never made after taken. */
  lemma MadeThenTaken(actions: seq<Action>)
    ensures var log := Run(actions).log;
            && |log| <= 2
            && (|log| == 2 ==> log[0].Made? && log[1].Taken?)
  {
    hide Run;
    RunInv(actions);
  }

  /** At most one start obtains the node. */
  lemma OneStartWins(actions: seq<Action>, c: nat, d: nat)
    requires c in Run(actions).calls && d in Run(actions).calls
    requires Run(actions).calls[c] == StartDone(true) && Run(actions).calls[d] == StartDone(true)
    ensures c == d
  {
    hide Run;
    RunInv(actions);
    var n := Run(actions);
    assert ResultMatches(n, c, n.calls[c]) && ResultMatches(n, d, n.calls[d]);
  }

  /** All successful creates return the one handle; a create fails only if the node was taken
      with no handle made, and then every create, at any time, fails. */
  lemma CreatesAgree(actions: seq<Action>, c: nat, d: nat)
    requires c in Run(actions).calls && d in Run(actions).calls
    requires Run(actions).calls[c].CreateDone? && Run(actions).calls[d].CreateDone?
    ensures Run(actions).calls[c] == Run(actions).calls[d]
    ensures Run(actions).calls[c].made == Run(actions).handle
    ensures Run(actions).handle.None? ==> |Run(actions).log| == 1 && Run(actions).log[0].Taken?
  {
    hide Run;
    RunInv(actions);
    var n := Run(actions);
    assert ResultMatches(n, c, n.calls[c]) && ResultMatches(n, d, n.calls[d]);
  }

  predicate InLog(n: Node, e: Event) { exists i :: 0 <= i < |n.log| && n.log[i] == e }

  /** A finished start obtained the node exactly when it is the one that took it. */
  lemma StartWonExactly(actions: seq<Action>, c: nat)
    requires c in Run(actions).calls && Run(actions).calls[c].StartDone?
    ensures Run(actions).calls[c].won <==> InLog(Run(actions), Taken(c))
  {
    hide Run;
    RunInv(actions);
    var n := Run(actions);
    assert ResultMatches(n, c, n.calls[c]);
    if InLog(n, Taken(c)) {
      var i :| 0 <= i < |n.log| && n.log[i] == Taken(c);
      assert LoggedBy(n, n.log[i]);
    }
  }

  /** Once any start has finished, exactly one call has taken the node; a start that lost, lost to
      another call. */
  lemma StartTakesNode(actions: seq<Action>, c: nat) returns (winner: nat)
    requires c in Run(actions).calls && Run(actions).calls[c].StartDone?
    ensures InLog(Run(actions), Taken(winner))
    ensures forall d | InLog(Run(actions), Taken(d)) :: d == winner
    ensures Run(actions).calls[c].won <==> winner == c
  {
    hide Run;
    RunInv(actions);
    var n := Run(actions);
    assert ResultMatches(n, c, n.calls[c]);
    winner := n.log[|n.log| - 1].call;
    assert n.log[|n.log| - 1] == Taken(winner);
    StartWonExactly(actions, c);
  }

  /** A finished create fails exactly when the node was taken and no handle had been made. */
  lemma CreateFailsExactly(actions: seq<Action>, c: nat)
    requires c in Run(actions).calls && Run(actions).calls[c].CreateDone?
    ensures Run(actions).calls[c].made.None? <==> (exists d :: InLog(Run(actions), Taken(d))) && forall d :: !InLog(Run(actions), Made(d))
    ensures Run(actions).calls[c].made.Some? ==> InLog(Run(actions), Made(Run(actions).calls[c].made.value))
  {
    hide Run;
    RunInv(actions);
    var n := Run(actions);
    assert ResultMatches(n, c, n.calls[c]);
    if n.handle.None? {
      assert n.log[0].Taken? && InLog(n, Taken(n.log[0].call));
    } else {
      assert n.log[0] == Made(n.handle.value);
      assert InLog(n, Made(n.handle.value));
    }
  }

  predicate IsCreate(p: Place) {
    !p.StartWantsNodeLock? && !p.StartHasNodeLock? && !p.StartDropsNodeLock? && !p.StartDone?
  }

  /** How call `c` first arrived in the run. */
  function Arrival(actions: seq<Action>, c: nat): Option<Action> {
    if actions == [] then None
    else
      var before, a := Arrival(actions[..|actions| - 1], c), actions[|actions| - 1];
      if before.Some? then before else if a == Create(c) || a == Start(c) then Some(a) else None
  }

  /** The calls are those that arrived, each of the kind it arrived as. */
  lemma {:induction false} ArrivalsExactly(actions: seq<Action>, c: nat)
    ensures c in Run(actions).calls <==> Arrival(actions, c).Some?
    ensures c in Run(actions).calls ==> (IsCreate(Run(actions).calls[c]) <==> Arrival(actions, c).value == Create(c))
    decreases |actions|
  {
    if actions != [] {
      ArrivalsExactly(actions[..|actions| - 1], c);
      hide Run;
      StepKeepsKind(Run(actions[..|actions| - 1]), actions[|actions| - 1], c);
      LastStep(actions);
    }
  }

  lemma LastStep(actions: seq<Action>)
    requires actions != []
    ensures Run(actions) == Do(Run(actions[..|actions| - 1]), actions[|actions| - 1])
  {
    hide Do;
  }

  lemma StepKeepsKind(n: Node, a: Action, c: nat)
    ensures c in Do(n, a).calls <==> c in n.calls || a == Create(c) || a == Start(c)
    ensures c in n.calls ==> (IsCreate(Do(n, a).calls[c]) <==> IsCreate(n.calls[c]))
    ensures c !in n.calls && a == Create(c) ==> IsCreate(Do(n, a).calls[c])
    ensures c !in n.calls && a == Start(c) ==> !IsCreate(Do(n, a).calls[c])
  {
  }

  lemma StepSettles(n: Node, a: Action)
    ensures n.log <= Do(n, a).log
    ensures forall c | c in n.calls && Finished(n.calls[c]) :: c in Do(n, a).calls && Do(n, a).calls[c] == n.calls[c]
  {
    hide Do;
    NewEvent(n, a);
    forall c | c in n.calls && Finished(n.calls[c]) ensures c in Do(n, a).calls && Do(n, a).calls[c] == n.calls[c] {
      FinishedStays(n, a, c);
    }
  }

  lemma FinishedStays(n: Node, a: Action, c: nat)
    requires c in n.calls && Finished(n.calls[c])
    ensures c in Do(n, a).calls && Do(n, a).calls[c] == n.calls[c]
  {
  }

  /** What is settled stays settled: results never change and the log only grows. */
  lemma {:induction false} Settled(actions: seq<Action>, more: seq<Action>)
    ensures Run(actions).log <= Run(actions + more).log
    ensures forall c | c in Run(actions).calls && Finished(Run(actions).calls[c]) ::
              c in Run(actions + more).calls && Run(actions + more).calls[c] == Run(actions).calls[c]
    decreases |more|
  {
    hide Do;
    if more == [] {
      assert actions + more == actions;
    } else {
      var front := more[..|more| - 1];
      Settled(actions, front);
      assert (actions + more)[..|actions + more| - 1] == actions + front;
      StepSettles(Run(actions + front), more[|more| - 1]);
    }
  }

  /** No deadlock: while some call is unfinished, some call can move. */
  lemma SomeoneMoves(actions: seq<Action>, c: nat)
    requires c in Run(actions).calls && !Finished(Run(actions).calls[c])
    ensures exists d :: d in Run(actions).calls && Do(Run(actions), Move(d)) != Run(actions)
  {
    hide Run;
    RunInv(actions);
    var n := Run(actions);
    var d := if n.nodeLock.Some? then n.nodeLock.value else if n.handleLock.Some? then n.handleLock.value else c;
    assert Do(n, Move(d)).calls[d] != n.calls[d];
  }

  function StepsLeft(p: Place): nat {
    match p
    case CreateWantsHandleLock => 6
    case CreateHasHandleLock => 5
    case CreateWantsNodeLock => 4
    case CreateHasBoth => 3
    case CreateDropsNodeLock(_) => 2
    case CreateDropsHandleLock(_) => 1
    case StartWantsNodeLock => 3
    case StartHasNodeLock => 2
    case StartDropsNodeLock(_) => 1
    case CreateDone(_) | StartDone(_) => 0
  }

  /** Every move is progress of that call alone. */
  lemma MovesAreProgress(n: Node, c: nat)
    requires c in n.calls && Do(n, Move(c)) != n
    ensures Do(n, Move(c)).calls.Keys == n.calls.Keys
    ensures StepsLeft(Do(n, Move(c)).calls[c]) < StepsLeft(n.calls[c])
    ensures forall d | d in n.calls && d != c :: Do(n, Move(c)).calls[d] == n.calls[d]
  {
  }

  // ---- all calls finish --------------------------------------------------------------------------

  /** What the calls named below `b` still have to do. */
  function Work(calls: map<nat, Place>, b: nat): nat {
    if b == 0 then 0 else Work(calls, b - 1) + (if b - 1 in calls then StepsLeft(calls[b - 1]) else 0)
  }

  predicate Below(calls: map<nat, Place>, b: nat) { forall c | c in calls :: c < b }

  lemma {:induction false} WorkDrops(x: map<nat, Place>, y: map<nat, Place>, c: nat, b: nat)
    requires x.Keys == y.Keys && c in x && StepsLeft(y[c]) < StepsLeft(x[c])
    requires forall d | d in x && d != c :: y[d] == x[d]
    ensures Work(y, b) <= Work(x, b) && (c < b ==> Work(y, b) < Work(x, b))
    decreases b
  {
    hide StepsLeft;
    if b > 0 { WorkDrops(x, y, c, b - 1); }
  }

  lemma MoveWorks(n: Node, c: nat, b: nat)
    requires Below(n.calls, b) && c in n.calls && Do(n, Move(c)) != n
    ensures Below(Do(n, Move(c)).calls, b) && Work(Do(n, Move(c)).calls, b) < Work(n.calls, b)
  {
    hide Do, StepsLeft;
    MovesAreProgress(n, c);
    WorkDrops(n.calls, Do(n, Move(c)).calls, c, b);
  }

  lemma RunAppend(actions: seq<Action>, a: Action)
    ensures Run(actions + [a]) == Do(Run(actions), a)
  {
    hide Do;
    assert (actions + [a])[..|actions|] == actions;
  }

  predicate Moves(actions: seq<Action>) { forall i | 0 <= i < |actions| :: actions[i].Move? }

  /** How many of these actions change something, after the run so far. */
  function Effective(actions: seq<Action>, more: seq<Action>): nat {
    if more == [] then 0
    else
      var front := more[..|more| - 1];
      Effective(actions, front) + if Run(actions + more) != Run(actions + front) then 1 else 0
  }

  /** Once no call arrives any more, the effective moves are no more than the work that is left. */
  lemma {:induction false} MovesBounded(actions: seq<Action>, more: seq<Action>, b: nat)
    requires Below(Run(actions).calls, b) && Moves(more)
    ensures Below(Run(actions + more).calls, b)
    ensures Effective(actions, more) + Work(Run(actions + more).calls, b) <= Work(Run(actions).calls, b)
    decreases |more|
  {
    hide Run, Do, Work, Below;
    if more == [] {
      assert actions + more == actions;
    } else {
      var front, a := more[..|more| - 1], more[|more| - 1];
      assert a.Move?;
      MovesBounded(actions, front, b);
      assert actions + more == actions + front + [a];
      RunAppend(actions + front, a);
      var n := Run(actions + front);
      if Do(n, a) != n {
        assert a.c in n.calls by { MoveOfCall(n, a.c); }
        MoveWorks(n, a.c, b);
      }
    }
  }

  lemma MoveOfCall(n: Node, c: nat)
    requires Do(n, Move(c)) != n
    ensures c in n.calls
  {
  }

  predicate AllFinished(n: Node) { forall c | c in n.calls :: Finished(n.calls[c]) }

  lemma {:induction false} FinishBelow(actions: seq<Action>, b: nat) returns (more: seq<Action>)
    requires Below(Run(actions).calls, b)
    ensures Moves(more) && AllFinished(Run(actions + more)) && Run(actions + more).calls.Keys == Run(actions).calls.Keys
    decreases Work(Run(actions).calls, b)
  {
    hide Run, Do, Work, Below;
    var n := Run(actions);
    if AllFinished(n) {
      more := [];
      assert actions + more == actions;
    } else {
      var c :| c in n.calls && !Finished(n.calls[c]);
      SomeoneMoves(actions, c);
      var d :| d in n.calls && Do(n, Move(d)) != n;
      MoveWorks(n, d, b);
      MovesAreProgress(n, d);
      RunAppend(actions, Move(d));
      var rest := FinishBelow(actions + [Move(d)], b);
      more := [Move(d)] + rest;
      assert actions + more == actions + [Move(d)] + rest;
    }
  }

  lemma {:induction false} HasBound(actions: seq<Action>) returns (b: nat)
    ensures Below(Run(actions).calls, b)
    decreases |actions|
  {
    if actions == [] {
      b := 0;
    } else {
      var a := actions[|actions| - 1];
      b := HasBound(actions[..|actions| - 1]);
      b := if a.c < b then b else a.c + 1;
    }
  }

  /** And every run can be driven to its end: some schedule of moves finishes every call. */
  lemma CanFinish(actions: seq<Action>) returns (more: seq<Action>)
    ensures Moves(more) && AllFinished(Run(actions + more)) && Run(actions + more).calls.Keys == Run(actions).calls.Keys
  {
    var b := HasBound(actions);
    more := FinishBelow(actions, b);
  }
}
