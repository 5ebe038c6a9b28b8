/** The service worker's client registry: `clientPorts` and `browserToSwClient`, changed by
    handlers that interleave at every `await`. One action is one await-free section. */
module Registry {

  type Browser = nat
  type Client = nat
  type PortId = nat

  datatype Option<+T> = None | Some(value: T)

  // ---- an ECMAScript Map: a list of entries, deleted ones left empty ------------------------------

  datatype Entry = Gone | Entry(browser: Browser, client: Client)

  type Entries = seq<Entry>

  predicate Live(e: Entries, i: int) { 0 <= i < |e| && e[i].Entry? }

  predicate Maps(e: Entries, i: int, b: Browser) { Live(e, i) && e[i].browser == b }

  ghost predicate Unique(e: Entries) {
    forall i, j | Live(e, i) && Live(e, j) && e[i].browser == e[j].browser :: i == j
  }

  /** The index of the first entry from `from` on that satisfies the test, else the length. */
  function FindBrowser(e: Entries, b: Browser, from: nat): (i: nat)
    requires from <= |e|
    ensures from <= i <= |e| && (i < |e| ==> Maps(e, i, b))
    ensures forall j | from <= j < i :: !Maps(e, j, b)
    decreases |e| - from
  {
    if from == |e| || Maps(e, from, b) then from else FindBrowser(e, b, from + 1)
  }

  function SetEntry(e: Entries, b: Browser, c: Client): Entries {
    var i := FindBrowser(e, b, 0);
    if i < |e| then e[i := Entry(b, c)] else e + [Entry(b, c)]
  }

  /** The loop `for (const [b, c] of map.entries()) if (c === clientId) map.delete(b)`. */
  function DeleteClient(e: Entries, c: Client): (r: Entries)
    ensures |r| == |e|
    ensures forall i | 0 <= i < |e| :: r[i] == if e[i].Entry? && e[i].client == c then Gone else e[i]
  {
    seq(|e|, i requires 0 <= i < |e| => if e[i].Entry? && e[i].client == c then Gone else e[i])
  }

  /** Where the live iteration of a cleanup pass stops next. */
  function NextStale(e: Entries, active: set<Browser>, from: nat): (i: nat)
    requires from <= |e|
    ensures from <= i <= |e| && (i < |e| ==> Live(e, i) && e[i].browser !in active)
    ensures forall j | from <= j < i && Live(e, j) :: e[j].browser in active
    decreases |e| - from
  {
    if from == |e| || (Live(e, from) && e[from].browser !in active) then from else NextStale(e, active, from + 1)
  }

  // ---- the worker -------------------------------------------------------------------------------

  /** A handler suspended at an `await`. */
  datatype Task =
    | Remap(browser: Browser, client: Client, port: PortId)
    | Unregister(client: Client)
    | PortUnregister(client: Client)
    | AwaitWindows
    | Sweep(active: set<Browser>, pos: nat)

  datatype Worker = Worker(ports: map<Client, PortId>, entries: Entries, ready: bool, tasks: map<nat, Task>)

  /** `t` names the handler. Await outcomes the registry depends on are part of the action. */
  datatype Action =
    | WasmLoaded
    | InitPort(t: nat, browser: Option<Browser>, client: Client, port: PortId)
    | RemapDone(t: nat)
    | UnregisterClient(t: nat, client: Client)
    | UnregisterDone(t: nat)
    | PortUnregisterClient(t: nat, client: Client)
    | PortUnregisterDone(t: nat, ok: bool)
    | CleanupTimer(t: nat)
    | WindowsListed(t: nat, windows: Option<set<Browser>>)
    | SweepContinues(t: nat)

  const START := Worker(map[], [], false, map[])

  function Retire(w: Worker, t: nat): Worker { w.(tasks := w.tasks - {t}) }

  /** The start of `cleanupStaleClients`, up to its first await. */
  function BeginCleanup(w: Worker, t: nat): Worker {
    if w.ready then w.(tasks := w.tasks[t := AwaitWindows]) else Retire(w, t)
  }

  /** The second half of DOM_PORT_INIT. */
  function Install(w: Worker, t: nat, b: Option<Browser>, c: Client, port: PortId): Worker {
    var w1 := w.(ports := w.ports[c := port]);
    var w2 := if b.Some? then w1.(entries := SetEntry(w1.entries, b.value, c)) else w1;
    BeginCleanup(w2, t)
  }

  /** From a resumption of the cleanup loop to its next await or its end. */
  function SweepFrom(w: Worker, t: nat, active: set<Browser>, pos: nat): Worker
    requires pos <= |w.entries|
  {
    var i := NextStale(w.entries, active, pos);
    if i == |w.entries| then Retire(w, t)
    else
      w.(entries := w.entries[i := Gone], ports := w.ports - {w.entries[i].client},
         tasks := w.tasks[t := Sweep(active, i + 1)])
  }

  /** An action that is not enabled changes nothing. */
  function Do(w: Worker, a: Action): Worker {
    match a
    case WasmLoaded => w.(ready := true)
    case InitPort(t, b, c, port) =>
      if t in w.tasks then w
      else
        var i := if b.Some? then FindBrowser(w.entries, b.value, 0) else |w.entries|;
        if i < |w.entries| && w.entries[i].client != c
        then w.(ports := w.ports - {w.entries[i].client}, tasks := w.tasks[t := Remap(b.value, c, port)])
        else Install(w, t, b, c, port)
    case RemapDone(t) =>
      if t !in w.tasks || !w.tasks[t].Remap? then w
      else Install(w, t, Some(w.tasks[t].browser), w.tasks[t].client, w.tasks[t].port)
    case UnregisterClient(t, c) => if t in w.tasks then w else w.(tasks := w.tasks[t := Unregister(c)])
    case UnregisterDone(t) =>
      if t !in w.tasks || !w.tasks[t].Unregister? then w else Drop(Retire(w, t), w.tasks[t].client)
    case PortUnregisterClient(t, c) => if t in w.tasks then w else w.(tasks := w.tasks[t := PortUnregister(c)])
    case PortUnregisterDone(t, ok) =>
      if t !in w.tasks || !w.tasks[t].PortUnregister? then w
      else if ok then Drop(Retire(w, t), w.tasks[t].client) else Retire(w, t)
    case CleanupTimer(t) => if t in w.tasks then w else BeginCleanup(w, t)
    case WindowsListed(t, windows) =>
      if t !in w.tasks || !w.tasks[t].AwaitWindows? then w
      else if windows.Some? then SweepFrom(w, t, windows.value, 0) else Retire(w, t)
    case SweepContinues(t) =>
      if t !in w.tasks || !w.tasks[t].Sweep? || w.tasks[t].pos > |w.entries| then w
      else SweepFrom(w, t, w.tasks[t].active, w.tasks[t].pos)
  }

  function Drop(w: Worker, c: Client): Worker {
    w.(ports := w.ports - {c}, entries := DeleteClient(w.entries, c))
  }

  function Run(actions: seq<Action>): Worker {
    if actions == [] then START else Do(Run(actions[..|actions| - 1]), actions[|actions| - 1])
  }

  // ---- the registry invariant ---------------------------------------------------------------------

  /** Which client ids each browser may announce. */
  type Announces = (Browser, Client) -> bool

  ghost predicate Unshared(may: Announces) {
    forall b1: Browser, b2: Browser, c: Client {:trigger may(b1, c), may(b2, c)} :: may(b1, c) && may(b2, c) ==> b1 == b2
  }

  predicate Announced(a: Action, may: Announces) {
    a.InitPort? && a.browser.Some? ==> may(a.browser.value, a.client)
  }

  predicate Conforms(actions: seq<Action>, may: Announces) {
    forall i | 0 <= i < |actions| :: Announced(actions[i], may)
  }

  predicate RemapInFlight(w: Worker, b: Browser) {
    exists t :: t in w.tasks && w.tasks[t].Remap? && w.tasks[t].browser == b
  }

  /** Every mapping names a client with a port, unless that browser is being remapped. */
  ghost predicate Safe(w: Worker) {
    forall i | Live(w.entries, i) :: w.entries[i].client in w.ports || RemapInFlight(w, w.entries[i].browser)
  }

  /** The entries a pass has gone by are empty or active, wherever it stands. */
  ghost predicate PassedActive(w: Worker) {
    forall t, i | t in w.tasks && w.tasks[t].Sweep? && 0 <= i < w.tasks[t].pos && Live(w.entries, i) ::
      w.entries[i].browser in w.tasks[t].active
  }

  predicate Positions(w: Worker) {
    forall t | t in w.tasks && w.tasks[t].Sweep? :: w.tasks[t].pos <= |w.entries|
  }

  ghost predicate Owned(w: Worker, may: Announces) {
    && (forall i | Live(w.entries, i) :: may(w.entries[i].browser, w.entries[i].client))
    && (forall t | t in w.tasks && w.tasks[t].Remap? :: may(w.tasks[t].browser, w.tasks[t].client))
  }

  ghost predicate Structure(w: Worker) { Unique(w.entries) && Positions(w) && PassedActive(w) }

  // What `Map.prototype.set` does to the entry list.
  lemma SetKeeps(e: Entries, b: Browser, c: Client)
    requires Unique(e)
    ensures var r := SetEntry(e, b, c);
            && Unique(r) && |e| <= |r|
            && (forall i | 0 <= i < |e| :: r[i] == e[i] || (Maps(e, i, b) && r[i] == Entry(b, c)))
            && (forall i | |e| <= i < |r| :: r[i] == Entry(b, c))
            && (forall i | Maps(r, i, b) :: r[i] == Entry(b, c))
  {
    var k := FindBrowser(e, b, 0);
    var r := SetEntry(e, b, c);
    assert r[k] == Entry(b, c);
    assert forall j | 0 <= j < |r| && j != k :: r[j] == e[j];
    forall j | Maps(r, j, b) ensures j == k {
      assert j != k ==> Maps(e, j, b);
    }
    forall i, j | Live(r, i) && Live(r, j) && r[i].browser == r[j].browser ensures i == j {
      if i != k && j != k { assert Live(e, i) && Live(e, j); }
      assert i == k || j == k ==> Maps(r, i, b) && Maps(r, j, b);
    }
  }

  /** What any action does to the entries: it appends, overwrites or empties. */
  lemma EntriesEvolve(w: Worker, a: Action)
    requires Structure(w)
    ensures Unique(Do(w, a).entries) && |w.entries| <= |Do(w, a).entries|
    ensures forall i | 0 <= i < |w.entries| && Live(Do(w, a).entries, i) ::
              Live(w.entries, i) && Do(w, a).entries[i].browser == w.entries[i].browser
  {
    if a.InitPort? && a.browser.Some? { SetKeeps(w.entries, a.browser.value, a.client); }
    if a.RemapDone? && a.t in w.tasks && w.tasks[a.t].Remap? {
      SetKeeps(w.entries, w.tasks[a.t].browser, w.tasks[a.t].client);
    }
  }

  /** The passes under way after an action: those before it, at most one having advanced. */
  lemma PassesEvolve(w: Worker, a: Action, t: nat)
    requires Structure(w) && t in Do(w, a).tasks && Do(w, a).tasks[t].Sweep?
    ensures var p := Do(w, a).tasks[t];
            || (t in w.tasks && w.tasks[t] == p)
            || (p.pos <= |w.entries| && Do(w, a).entries == w.entries[p.pos - 1 := Gone]
                && forall i | 0 <= i < p.pos - 1 && Live(w.entries, i) :: w.entries[i].browser in p.active)
  {
  }

  lemma KeepsStructure(w: Worker, a: Action)
    requires Structure(w)
    ensures Structure(Do(w, a))
  {
    hide Do;
    EntriesEvolve(w, a);
    var w' := Do(w, a);
    forall t | t in w'.tasks && w'.tasks[t].Sweep?
      ensures w'.tasks[t].pos <= |w'.entries|
      ensures forall i | 0 <= i < w'.tasks[t].pos && Live(w'.entries, i) :: w'.entries[i].browser in w'.tasks[t].active
    {
      PassesEvolve(w, a, t);
    }
  }

  lemma {:induction false} RunStructure(actions: seq<Action>)
    ensures Structure(Run(actions))
    decreases |actions|
  {
    if actions != [] {
      RunStructure(actions[..|actions| - 1]);
      hide Structure, Do;
      KeepsStructure(Run(actions[..|actions| - 1]), actions[|actions| - 1]);
    }
  }

  ghost predicate EntriesOwned(e: Entries, may: Announces) {
    forall i | Live(e, i) :: may(e[i].browser, e[i].client)
  }

  lemma SetOwned(e: Entries, b: Browser, c: Client, may: Announces)
    requires Unique(e) && EntriesOwned(e, may) && may(b, c)
    ensures EntriesOwned(SetEntry(e, b, c), may)
  {
    SetKeeps(e, b, c);
    hide SetEntry;
  }

  lemma KeepsOwned(w: Worker, a: Action, may: Announces)
    requires Structure(w) && Owned(w, may) && Announced(a, may)
    ensures Owned(Do(w, a), may)
  {
    hide SetEntry, FindBrowser, NextStale, Positions, PassedActive, Unique;
    assert EntriesOwned(w.entries, may);
    if a.InitPort? && a.browser.Some? { SetOwned(w.entries, a.browser.value, a.client, may); }
    if a.RemapDone? && a.t in w.tasks && w.tasks[a.t].Remap? {
      SetOwned(w.entries, w.tasks[a.t].browser, w.tasks[a.t].client, may);
    }
    assert EntriesOwned(Do(w, a).entries, may);
  }

  /** A remap in flight survives every action but its own completion. */
  lemma RemapStays(w: Worker, a: Action, b: Browser)
    requires RemapInFlight(w, b)
    ensures RemapInFlight(Do(w, a), b) ||
      (a.RemapDone? && a.t in w.tasks && w.tasks[a.t].Remap? && w.tasks[a.t].browser == b)
  {
    var t :| t in w.tasks && w.tasks[t].Remap? && w.tasks[t].browser == b;
    var w' := Do(w, a);
    if !(a.RemapDone? && a.t == t) {
      assert t in w'.tasks && w'.tasks[t] == w.tasks[t];
    }
  }

  lemma KeepsSafe(w: Worker, a: Action, may: Announces)
    requires Structure(w) && Owned(w, may) && Unshared(may) && Announced(a, may) && Safe(w)
    ensures Safe(Do(w, a))
  {
    var w' := Do(w, a);
    forall i | Live(w'.entries, i)
      ensures w'.entries[i].client in w'.ports || RemapInFlight(w', w'.entries[i].browser)
    {
      EntrySafe(w, a, may, i);
    }
  }

  lemma EntrySafe(w: Worker, a: Action, may: Announces, i: nat)
    requires Structure(w) && Owned(w, may) && Unshared(may) && Announced(a, may) && Safe(w)
    requires Live(Do(w, a).entries, i)
    ensures Do(w, a).entries[i].client in Do(w, a).ports || RemapInFlight(Do(w, a), Do(w, a).entries[i].browser)
  {
    if a.InitPort? {
      InitSafe(w, a, may, i);
    } else if a.RemapDone? && a.t in w.tasks && w.tasks[a.t].Remap? {
      RemapSafe(w, a.t, i);
    } else {
      var w' := Do(w, a);
      assert Live(w.entries, i) && w'.entries[i] == w.entries[i];
      if RemapInFlight(w, w.entries[i].browser) { RemapStays(w, a, w.entries[i].browser); }
    }
  }

  lemma InitSafe(w: Worker, a: Action, may: Announces, i: nat)
    requires Structure(w) && Owned(w, may) && Unshared(may) && Safe(w)
    requires a.InitPort? && Live(Do(w, a).entries, i)
    ensures Do(w, a).entries[i].client in Do(w, a).ports || RemapInFlight(Do(w, a), Do(w, a).entries[i].browser)
  {
    var w' := Do(w, a);
    var b := w'.entries[i].browser;
    if a.browser.Some? { SetKeeps(w.entries, a.browser.value, a.client); }
    if Live(w.entries, i) && RemapInFlight(w, b) { RemapStays(w, a, b); }
    if a.t !in w.tasks && a.t in w'.tasks && w'.tasks[a.t].Remap? && b == a.browser.value {
      assert RemapInFlight(w', b);
    }
  }

  lemma RemapSafe(w: Worker, t: nat, i: nat)
    requires Structure(w) && Safe(w) && t in w.tasks && w.tasks[t].Remap?
    requires Live(Do(w, RemapDone(t)).entries, i)
    ensures var w' := Do(w, RemapDone(t));
            w'.entries[i].client in w'.ports || RemapInFlight(w', w'.entries[i].browser)
  {
    var w' := Do(w, RemapDone(t));
    var b := w'.entries[i].browser;
    SetKeeps(w.entries, w.tasks[t].browser, w.tasks[t].client);
    if b != w.tasks[t].browser {
      assert Live(w.entries, i) && w'.entries[i] == w.entries[i];
      if RemapInFlight(w, b) { RemapStays(w, RemapDone(t), b); }
    } else {
      assert Maps(w'.entries, i, b);
    }
  }

  lemma {:induction false} RunSafe(actions: seq<Action>, may: Announces)
    requires Conforms(actions, may) && Unshared(may)
    ensures Owned(Run(actions), may) && Safe(Run(actions))
    decreases |actions|
  {
    if actions != [] {
      var front, a := actions[..|actions| - 1], actions[|actions| - 1];
      RunSafe(front, may);
      RunStructure(front);
      hide Structure, Do, Owned, Safe, Unshared;
      KeepsOwned(Run(front), a, may);
      KeepsSafe(Run(front), a, may);
    }
  }

  /** One shared client id is enough to break it: two windows announce `c`, a cleanup pass that
      sees only the second removes the first, and with it the second's port. */
  function SharedRun(b1: Browser, b2: Browser, c: Client): seq<Action> {
    [WasmLoaded, InitPort(0, Some(b1), c, 1), InitPort(1, Some(b2), c, 2), WindowsListed(0, Some({b2}))]
  }

  lemma RunFour(a1: Action, a2: Action, a3: Action, a4: Action)
    ensures Run([a1, a2, a3, a4]) == Do(Do(Do(Do(START, a1), a2), a3), a4)
  {
    hide Do;
    var r := [a1, a2, a3, a4];
    assert r[..3] == [a1, a2, a3] && r[..3][..2] == [a1, a2] && [a1, a2][..1] == [a1] && [a1][..0] == [];
    assert Run([]) == START;
    assert Run([a1]) == Do(START, a1);
    assert Run([a1, a2]) == Do(Do(START, a1), a2);
    assert [a1, a2, a3][..2] == [a1, a2];
    assert Run([a1, a2, a3]) == Do(Do(Do(START, a1), a2), a3);
  }

  lemma SharedBreaks(b1: Browser, b2: Browser, c: Client)
    requires b1 != b2
    ensures !Safe(Run(SharedRun(b1, b2, c)))
  {
    var r := SharedRun(b1, b2, c);
    RunFour(r[0], r[1], r[2], r[3]);
    hide Run;
    var w1 := Do(START, r[0]);
    var w2 := Do(w1, r[1]);
    assert w2 == Worker(map[c := 1], [Entry(b1, c)], true, map[0 := AwaitWindows]);
    var w3 := Do(w2, r[2]);
    assert FindBrowser(w2.entries, b2, 0) == 1;
    assert w3 == Worker(map[c := 2], [Entry(b1, c), Entry(b2, c)], true, map[0 := AwaitWindows, 1 := AwaitWindows]);
    var w4 := Do(w3, r[3]);
    assert NextStale(w3.entries, {b2}, 0) == 0;
    assert w4.entries[1] == Entry(b2, c) && c !in w4.ports;
    assert Live(w4.entries, 1) && !RemapInFlight(w4, b2);
  }

  /** The mapping is safe in every reachable state of every interleaving exactly when no client
      id may be announced by two browsers. */
  lemma SafeExactly(may: Announces)
    ensures (forall actions: seq<Action> | Conforms(actions, may) :: Safe(Run(actions))) <==> Unshared(may)
  {
    hide Run, Safe;
    if Unshared(may) {
      forall actions: seq<Action> | Conforms(actions, may) ensures Safe(Run(actions)) {
        RunSafe(actions, may);
      }
    } else {
      var b1: Browser, b2: Browser, c: Client :| may(b1, c) && may(b2, c) && b1 != b2;
      var r := SharedRun(b1, b2, c);
      SharedBreaks(b1, b2, c);
      assert Conforms(r, may);
    }
  }

  // ---- cleanup passes ---------------------------------------------------------------------------

  /** The action is a section of the cleanup pass `t`, which works with the snapshot `active`. */
  predicate SectionOf(w: Worker, a: Action, t: nat, active: set<Browser>) {
    t in w.tasks &&
    match a
    case WindowsListed(u, windows) => u == t && w.tasks[t].AwaitWindows? && windows == Some(active)
    case SweepContinues(u) => u == t && w.tasks[t].Sweep? && w.tasks[t].active == active
    case _ => false
  }

  /** Whatever was mapped, remapped or dropped between its awaits: when a pass ends, every
      browser still mapped was in its snapshot. */
  lemma PassEndsClean(actions: seq<Action>, a: Action, t: nat, active: set<Browser>)
    requires SectionOf(Run(actions), a, t, active) && t !in Do(Run(actions), a).tasks
    ensures forall i | Live(Do(Run(actions), a).entries, i) :: Do(Run(actions), a).entries[i].browser in active
  {
    hide Run;
    RunStructure(actions);
  }

  /** And each section removes at most one mapping, of a browser outside the snapshot, together
      with its port; nothing else in the registry changes. */
  lemma PassRemovesStale(actions: seq<Action>, a: Action, t: nat, active: set<Browser>)
    requires SectionOf(Run(actions), a, t, active)
    ensures var w, w' := Run(actions), Do(Run(actions), a);
            if t !in w'.tasks then w' == Retire(w, t)
            else exists i ::
              (&& Live(w.entries, i) && w.entries[i].browser !in active
               && w'.entries == w.entries[i := Gone] && w'.ports == w.ports - {w.entries[i].client})
  {
    hide Run;
    RunStructure(actions);
    var w := Run(actions);
    var pos := if w.tasks[t].Sweep? then w.tasks[t].pos else 0;
    var i := NextStale(w.entries, active, pos);
  }

  // ---- what each handler achieves -----------------------------------------------------------------

  /** The two maps as the worker's code sees them. */
  ghost predicate MapsTo(w: Worker, b: Browser, c: Client) { exists i :: Live(w.entries, i) && w.entries[i] == Entry(b, c) }

  lemma RunAppend(actions: seq<Action>, a: Action)
    ensures Run(actions + [a]) == Do(Run(actions), a)
  {
    hide Do;
    assert (actions + [a])[..|actions|] == actions;
  }

  /** What unregistering a client leaves behind: nothing of that client, and all of the others. */
  ghost predicate Forgets(w: Worker, w': Worker, c: Client) {
    && (forall d :: d in w'.ports <==> d in w.ports && d != c)
    && (forall d | d in w'.ports :: w'.ports[d] == w.ports[d])
    && (forall b, d :: MapsTo(w', b, d) <==> MapsTo(w, b, d) && d != c)
  }

  ghost predicate SameMaps(w: Worker, w': Worker) {
    w'.ports == w.ports && forall b, d :: MapsTo(w', b, d) <==> MapsTo(w, b, d)
  }

  lemma DropForgets(w: Worker, c: Client)
    ensures Forgets(w, Drop(w, c), c)
  {
    var w' := Drop(w, c);
    forall b, d ensures MapsTo(w', b, d) <==> MapsTo(w, b, d) && d != c {
      if MapsTo(w, b, d) && d != c {
        var i :| Live(w.entries, i) && w.entries[i] == Entry(b, d);
        assert Live(w'.entries, i) && w'.entries[i] == Entry(b, d);
      }
      if MapsTo(w', b, d) {
        var i :| Live(w'.entries, i) && w'.entries[i] == Entry(b, d);
        assert Live(w.entries, i) && w.entries[i] == Entry(b, d);
      }
    }
  }

  /** When the unregistration of client `c` goes on after its await, `c` is in neither map and
      nothing else has changed; the one that came over the client's own port does nothing if the
      await failed. */
  lemma UnregisterForgets(actions: seq<Action>, t: nat, ok: bool)
    requires t in Run(actions).tasks
    ensures Run(actions).tasks[t].Unregister? ==>
              Forgets(Run(actions), Run(actions + [UnregisterDone(t)]), Run(actions).tasks[t].client)
    ensures Run(actions).tasks[t].PortUnregister? ==>
              var w' := Run(actions + [PortUnregisterDone(t, ok)]);
              if ok then Forgets(Run(actions), w', Run(actions).tasks[t].client) else SameMaps(Run(actions), w')
  {
    var w := Run(actions);
    RunAppend(actions, UnregisterDone(t));
    RunAppend(actions, PortUnregisterDone(t, ok));
    hide Run, Forgets, SameMaps;
    SameEntries(w, Retire(w, t));
    if w.tasks[t].Unregister? || w.tasks[t].PortUnregister? {
      var c := w.tasks[t].client;
      DropForgets(Retire(w, t), c);
      SameThenForgets(w, Retire(w, t), Drop(Retire(w, t), c), c);
    }
  }

  lemma SameThenForgets(w: Worker, x: Worker, y: Worker, c: Client)
    requires SameMaps(w, x) && Forgets(x, y, c)
    ensures Forgets(w, y, c)
  {
    hide MapsTo;
  }

  lemma SameEntries(w: Worker, x: Worker)
    requires x.ports == w.ports && x.entries == w.entries
    ensures SameMaps(w, x)
  {
  }

  /** And it does get there: a request under a free name, then its await, forgets the client. */
  lemma UnregisterRequest(actions: seq<Action>, t: nat, c: Client)
    requires t !in Run(actions).tasks
    ensures Forgets(Run(actions), Run(actions + [UnregisterClient(t, c)] + [UnregisterDone(t)]), c)
  {
    var x := actions + [UnregisterClient(t, c)];
    RunAppend(actions, UnregisterClient(t, c));
    hide Run, Forgets, SameMaps;
    SameEntries(Run(actions), Run(x));
    UnregisterForgets(x, t, true);
    SameThenForgets(Run(actions), Run(x), Run(x + [UnregisterDone(t)]), c);
  }

  lemma PortUnregisterRequest(actions: seq<Action>, t: nat, c: Client)
    requires t !in Run(actions).tasks
    ensures Forgets(Run(actions), Run(actions + [PortUnregisterClient(t, c)] + [PortUnregisterDone(t, true)]), c)
  {
    var x := actions + [PortUnregisterClient(t, c)];
    RunAppend(actions, PortUnregisterClient(t, c));
    hide Run, Forgets, SameMaps;
    SameEntries(Run(actions), Run(x));
    UnregisterForgets(x, t, true);
    SameThenForgets(Run(actions), Run(x), Run(x + [PortUnregisterDone(t, true)]), c);
  }

  // ---- initialisation -----------------------------------------------------------------------------

  /** The client has the announced port and the browser maps to the client; all else is as before. */
  ghost predicate Installed(w: Worker, w': Worker, b: Option<Browser>, c: Client, port: PortId) {
    && w'.ports == w.ports[c := port]
    && (forall x: Browser, d: Client :: MapsTo(w', x, d) <==> if b == Some(x) then d == c else MapsTo(w, x, d))
  }

  lemma SetMaps(e: Entries, b: Browser, c: Client, x: Browser, d: Client)
    requires Unique(e)
    ensures var r := SetEntry(e, b, c);
            (exists i :: Live(r, i) && r[i] == Entry(x, d)) <==>
            if x == b then d == c else exists i :: Live(e, i) && e[i] == Entry(x, d)
  {
    SetKeeps(e, b, c);
    var r, k := SetEntry(e, b, c), FindBrowser(e, b, 0);
    assert Live(r, k) && r[k] == Entry(b, c);
    if exists i :: Live(r, i) && r[i] == Entry(x, d) {
      var i :| Live(r, i) && r[i] == Entry(x, d);
      if x == b { assert Maps(r, i, b); } else { assert Live(e, i) && e[i] == Entry(x, d); }
    }
    if x != b && exists i :: Live(e, i) && e[i] == Entry(x, d) {
      var i :| Live(e, i) && e[i] == Entry(x, d);
      assert Live(r, i) && r[i] == Entry(x, d);
    }
  }

  lemma InstallInstalls(w: Worker, t: nat, b: Option<Browser>, c: Client, port: PortId)
    requires Unique(w.entries)
    ensures Installed(w, Install(w, t, b, c, port), b, c, port)
    ensures w.ready ==> t in Install(w, t, b, c, port).tasks && Install(w, t, b, c, port).tasks[t] == AwaitWindows
  {
    var w' := Install(w, t, b, c, port);
    if b.Some? {
      forall x: Browser, d: Client ensures MapsTo(w', x, d) <==> if b == Some(x) then d == c else MapsTo(w, x, d) {
        SetMaps(w.entries, b.value, c, x, d);
      }
    } else {
      assert w'.entries == w.entries;
    }
  }

  /** The browser is mapped to another client than the one announced. */
  ghost predicate Remaps(w: Worker, b: Option<Browser>, c: Client) {
    b.Some? && exists d :: d != c && MapsTo(w, b.value, d)
  }

  lemma FindIsMapped(e: Entries, b: Browser, d: Client)
    requires Unique(e)
    ensures (exists i :: Live(e, i) && e[i] == Entry(b, d)) <==>
              FindBrowser(e, b, 0) < |e| && e[FindBrowser(e, b, 0)].client == d
  {
    var k := FindBrowser(e, b, 0);
    if exists i :: Live(e, i) && e[i] == Entry(b, d) {
      var i :| Live(e, i) && e[i] == Entry(b, d);
      assert Maps(e, i, b);
    }
  }

  /** A port initialisation installs at once, unless the browser is mapped to another client: then
      that client's port goes first, nothing is mapped yet, and the rest follows after the await. */
  lemma InitInstalls(actions: seq<Action>, t: nat, b: Option<Browser>, c: Client, port: PortId)
    requires t !in Run(actions).tasks
    ensures var w, w' := Run(actions), Run(actions + [InitPort(t, b, c, port)]);
            if !Remaps(w, b, c) then Installed(w, w', b, c, port)
            else exists d ::
              && MapsTo(w, b.value, d) && d != c && w'.ports == w.ports - {d} && w'.entries == w.entries
              && t in w'.tasks && w'.tasks[t] == Remap(b.value, c, port)
  {
    var w := Run(actions);
    RunStructure(actions);
    RunAppend(actions, InitPort(t, b, c, port));
    hide Run;
    InstallInstalls(w, t, b, c, port);
    hide Install, Installed;
    if b.Some? {
      var k := FindBrowser(w.entries, b.value, 0);
      forall d ensures MapsTo(w, b.value, d) <==> k < |w.entries| && w.entries[k].client == d {
        FindIsMapped(w.entries, b.value, d);
      }
      if k < |w.entries| && w.entries[k].client != c {
        assert MapsTo(w, b.value, w.entries[k].client);
        assert Remaps(w, b, c);
      } else {
        assert !Remaps(w, b, c);
      }
    }
  }

  lemma RemapInstalls(actions: seq<Action>, t: nat)
    requires t in Run(actions).tasks && Run(actions).tasks[t].Remap?
    ensures var w, task := Run(actions), Run(actions).tasks[t];
            Installed(w, Run(actions + [RemapDone(t)]), Some(task.browser), task.client, task.port)
  {
    var w := Run(actions);
    RunStructure(actions);
    RunAppend(actions, RemapDone(t));
    hide Run;
    InstallInstalls(w, t, Some(w.tasks[t].browser), w.tasks[t].client, w.tasks[t].port);
  }

  // ---- cleanup passes get done ----------------------------------------------------------------------

  /** The worker is ready exactly when its WASM module was loaded in the run. */
  lemma {:induction false} ReadyExactly(actions: seq<Action>)
    ensures Run(actions).ready <==> WasmLoaded in actions
    decreases |actions|
  {
    if actions != [] {
      var front, a := actions[..|actions| - 1], actions[|actions| - 1];
      ReadyExactly(front);
      assert actions == front + [a];
    }
  }

  lemma PassStep(w: Worker, a: Action, t: nat)
    requires t in Do(w, a).tasks && (Do(w, a).tasks[t].AwaitWindows? || Do(w, a).tasks[t].Sweep?)
    ensures w.ready || (t in w.tasks && (w.tasks[t].AwaitWindows? || w.tasks[t].Sweep?))
  {
    hide FindBrowser, NextStale, SetEntry, DeleteClient;
  }

  /** Before that no cleanup pass exists. */
  lemma {:induction false} PassesNeedWasm(actions: seq<Action>, t: nat)
    requires t in Run(actions).tasks && (Run(actions).tasks[t].AwaitWindows? || Run(actions).tasks[t].Sweep?)
    ensures WasmLoaded in actions
    decreases |actions|
  {
    hide Do;
    if actions != [] {
      var front, a := actions[..|actions| - 1], actions[|actions| - 1];
      assert actions == front + [a];
      PassStep(Run(front), a, t);
      ReadyExactly(front);
      if !Run(front).ready { PassesNeedWasm(front, t); }
    }
  }

  /** Once it is, a timer under a free name starts a pass. */
  lemma TimerStartsPass(actions: seq<Action>, t: nat)
    requires WasmLoaded in actions && t !in Run(actions).tasks
    ensures var w := Run(actions + [CleanupTimer(t)]);
            t in w.tasks && w.tasks[t] == AwaitWindows && SameMaps(Run(actions), w)
  {
    ReadyExactly(actions);
    RunAppend(actions, CleanupTimer(t));
    hide Run, SameMaps;
    SameEntries(Run(actions), Run(actions + [CleanupTimer(t)]));
  }

  /** A pass that does not get its snapshot ends and changes nothing. */
  lemma PassWithoutSnapshot(actions: seq<Action>, t: nat)
    requires t in Run(actions).tasks && Run(actions).tasks[t] == AwaitWindows
    ensures Run(actions + [WindowsListed(t, None)]) == Retire(Run(actions), t)
  {
    RunAppend(actions, WindowsListed(t, None));
  }

  /** Where a pass stands. */
  function PassAt(w: Worker, t: nat): nat
    requires t in w.tasks
  {
    if w.tasks[t].Sweep? then w.tasks[t].pos else 0
  }

  lemma SectionAdvances(actions: seq<Action>, a: Action, t: nat, active: set<Browser>)
    requires SectionOf(Run(actions), a, t, active)
    ensures var w, w' := Run(actions), Run(actions + [a]);
            t in w'.tasks ==>
              && w'.tasks[t].Sweep? && w'.tasks[t].active == active && |w'.entries| == |w.entries|
              && PassAt(w, t) < PassAt(w', t) <= |w'.entries|
  {
    RunStructure(actions);
    RunAppend(actions, a);
    hide Run;
  }

  lemma Regroup(actions: seq<Action>, a: Action, rest: seq<Action>)
    ensures actions + ([a] + rest) == actions + [a] + rest
  {
  }

  lemma NextSection(w: Worker, t: nat, active: set<Browser>)
    requires t in w.tasks && w.tasks[t].Sweep? && w.tasks[t].active == active
    ensures SectionOf(w, SweepContinues(t), t, active)
  {
  }

  lemma LastSection(actions: seq<Action>, a: Action, t: nat, active: set<Browser>)
    requires SectionOf(Run(actions), a, t, active) && t !in Run(actions + [a]).tasks
    ensures forall b, d | MapsTo(Run(actions + [a]), b, d) :: b in active
  {
    RunAppend(actions, a);
    hide Run, Do, SectionOf;
    PassEndsClean(actions, a, t, active);
  }

  /** Left to itself, a pass with a snapshot ends, and then only browsers in it are mapped. */
  lemma {:induction false} PassCompletes(actions: seq<Action>, a: Action, t: nat, active: set<Browser>) returns (more: seq<Action>)
    requires SectionOf(Run(actions), a, t, active)
    ensures t !in Run(actions + more).tasks
    ensures forall b, d | MapsTo(Run(actions + more), b, d) :: b in active
    decreases |Run(actions).entries| - PassAt(Run(actions), t)
  {
    SectionAdvances(actions, a, t, active);
    hide Run, Do, SectionOf, MapsTo, PassAt;
    var next := actions + [a];
    if t in Run(next).tasks {
      NextSection(Run(next), t, active);
      var rest := PassCompletes(next, SweepContinues(t), t, active);
      more := [a] + rest;
      Regroup(actions, a, rest);
    } else {
      more := [a];
      LastSection(actions, a, t, active);
    }
  }
}
