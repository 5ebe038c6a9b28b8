/** The lock-protected handle map of the Swift bindings. Every method holds the lock for its
    whole body, so concurrent use is a sequence of whole operations. */
module HandleMap {
  import opened Bits

  const INITIAL: nat := 1
  const DELTA: nat := 2

  datatype State<T> = State(entries: map<nat, T>, next: nat)

  datatype Op<T> = Insert(obj: T) | Get(handle: nat) | Clone(handle: nat) | Remove(handle: nat)

  /** Trapped: `currentHandle += 2` overflows UInt64 and the process stops. */
  datatype Outcome<T> = Handle(handle: nat) | Object(obj: T) | Stale | Trapped

  function Empty<T>(): State<T> { State(map[], INITIAL) }

  function Issue<T>(s: State<T>, obj: T): (State<T>, Outcome<T>) {
    if s.next + DELTA >= TWO_64 then (s, Trapped)
    else (State(s.entries[s.next := obj], s.next + DELTA), Handle(s.next))
  }

  function Step<T>(s: State<T>, op: Op<T>): (State<T>, Outcome<T>) {
    match op
    case Insert(obj) => Issue(s, obj)
    case Get(h) => (s, if h in s.entries then Object(s.entries[h]) else Stale)
    case Clone(h) => if h in s.entries then Issue(s, s.entries[h]) else (s, Stale)
    case Remove(h) =>
      if h in s.entries then (s.(entries := s.entries - {h}), Object(s.entries[h])) else (s, Stale)
  }

  class UniffiHandleMap<T> {
    var entries: map<nat, T>
    var currentHandle: nat

    ghost function View(): State<T>
      reads this
    {
      State(entries, currentHandle)
    }

    constructor ()
      ensures View() == Empty()
    {
      entries, currentHandle := map[], INITIAL;
    }

    method Insert(obj: T) returns (r: Outcome<T>)
      modifies this
      ensures (View(), r) == Step(old(View()), Op.Insert(obj))
    {
      r := DoInsert(obj);
    }

    method DoInsert(obj: T) returns (r: Outcome<T>)
      modifies this
      ensures (View(), r) == Issue(old(View()), obj)
    {
      var handle := currentHandle;
      if currentHandle + DELTA >= TWO_64 { return Trapped; }
      currentHandle := currentHandle + DELTA;
      entries := entries[handle := obj];
      r := Handle(handle);
    }

    method Get(handle: nat) returns (r: Outcome<T>)
      ensures (View(), r) == Step(View(), Op.Get(handle))
    {
      if handle !in entries { return Stale; }
      r := Object(entries[handle]);
    }

    method Clone(handle: nat) returns (r: Outcome<T>)
      modifies this
      ensures (View(), r) == Step(old(View()), Op.Clone(handle))
    {
      if handle !in entries { return Stale; }
      r := DoInsert(entries[handle]);
    }

    method Remove(handle: nat) returns (r: Outcome<T>)
      modifies this
      ensures (View(), r) == Step(old(View()), Op.Remove(handle))
    {
      if handle !in entries { return Stale; }
      r := Object(entries[handle]);
      entries := entries - {handle};
    }
  }

  // ---- runs from the empty map ---------------------------------------------------------------

  /** The state after the first `k` operations. */
  function At<T>(ops: seq<Op<T>>, k: nat): State<T>
    requires k <= |ops|
  {
    if k == 0 then Empty() else Step(At(ops, k - 1), ops[k - 1]).0
  }

  function Result<T>(ops: seq<Op<T>>, k: nat): Outcome<T>
    requires k < |ops|
  {
    Step(At(ops, k), ops[k]).1
  }

  predicate Issues<T>(ops: seq<Op<T>>, i: nat, h: nat)
    requires i < |ops|
  {
    Result(ops, i).Handle? && Result(ops, i).handle == h
  }

  /** The object the operation at `i` put under its new handle. */
  function IssuedObject<T>(ops: seq<Op<T>>, i: nat): T
    requires i < |ops| && Result(ops, i).Handle?
  {
    match ops[i]
    case Insert(obj) => obj
    case Clone(h) => At(ops, i).entries[h]
  }

  predicate RemovedBetween<T>(ops: seq<Op<T>>, h: nat, i: nat, k: nat)
    requires k <= |ops|
  {
    exists j :: i < j < k && ops[j].Remove? && ops[j].handle == h
  }

  lemma {:induction false} Numbering<T>(ops: seq<Op<T>>, k: nat)
    requires k <= |ops|
    ensures var s := At(ops, k);
            s.next % 2 == 1 && s.next < TWO_64 && forall h | h in s.entries :: h % 2 == 1 && h < s.next
    decreases k
  {
    if k > 0 { Numbering(ops, k - 1); }
  }

  lemma {:induction false} CounterGrows<T>(ops: seq<Op<T>>, i: nat, k: nat)
    requires i <= k <= |ops|
    ensures At(ops, i).next <= At(ops, k).next
    decreases k
  {
    if i < k { CounterGrows(ops, i, k - 1); }
  }

  /** Handles are odd, fit 64 bits and grow strictly from issue to issue, so none is reused. */
  lemma HandlesFresh<T>(ops: seq<Op<T>>, i: nat, j: nat)
    requires i < j < |ops| && Result(ops, i).Handle? && Result(ops, j).Handle?
    ensures Result(ops, i).handle < Result(ops, j).handle < TWO_64
    ensures Result(ops, i).handle % 2 == 1 && Result(ops, j).handle % 2 == 1
  {
    Numbering(ops, i);
    Numbering(ops, j);
    CounterGrows(ops, i + 1, j);
  }

  /** From its issue on a handle denotes its object until it is removed, whatever else runs. */
  lemma {:induction false} LiveUntilRemoved<T>(ops: seq<Op<T>>, i: nat, k: nat)
    requires i < k <= |ops| && Result(ops, i).Handle?
    ensures var h := Result(ops, i).handle;
            && (h in At(ops, k).entries <==> !RemovedBetween(ops, h, i, k))
            && (h in At(ops, k).entries ==> At(ops, k).entries[h] == IssuedObject(ops, i))
    decreases k
  {
    hide RemovedBetween;
    var h := Result(ops, i).handle;
    if i + 1 == k {
      NotRemovedYet(ops, h, i);
    } else {
      LiveUntilRemoved(ops, i, k - 1);
      Numbering(ops, k - 1);
      CounterGrows(ops, i + 1, k - 1);
      RemovedStep(ops, h, i, k);
    }
  }

  lemma NotRemovedYet<T>(ops: seq<Op<T>>, h: nat, i: nat)
    requires i < |ops|
    ensures !RemovedBetween(ops, h, i, i + 1)
  {
  }

  lemma RemovedStep<T>(ops: seq<Op<T>>, h: nat, i: nat, k: nat)
    requires i + 1 < k <= |ops|
    ensures RemovedBetween(ops, h, i, k) <==>
              RemovedBetween(ops, h, i, k - 1) || (ops[k - 1].Remove? && ops[k - 1].handle == h)
  {
  }

  lemma {:induction false} LiveWasIssued<T>(ops: seq<Op<T>>, h: nat, k: nat)
    requires k <= |ops| && h in At(ops, k).entries
    ensures exists i :: 0 <= i < k && Issues(ops, i, h)
    decreases k
  {
    if h in At(ops, k - 1).entries {
      LiveWasIssued(ops, h, k - 1);
    } else {
      assert Issues(ops, k - 1, h);
    }
  }

  /** In every run a lookup succeeds exactly for a handle issued before and not removed since,
      and it returns the object the handle was issued for. */
  lemma LookupExact<T>(ops: seq<Op<T>>, h: nat, k: nat)
    requires k <= |ops|
    ensures h in At(ops, k).entries <==> exists i :: 0 <= i < k && Issues(ops, i, h) && !RemovedBetween(ops, h, i, k)
    ensures forall i | 0 <= i < k && Issues(ops, i, h) && !RemovedBetween(ops, h, i, k) ::
              Step(At(ops, k), Op.Get(h)).1 == Object(IssuedObject(ops, i))
  {
    if h in At(ops, k).entries {
      LiveWasIssued(ops, h, k);
      var i :| 0 <= i < k && Issues(ops, i, h);
      LiveUntilRemoved(ops, i, k);
    }
    forall i | 0 <= i < k && Issues(ops, i, h) && !RemovedBetween(ops, h, i, k)
      ensures h in At(ops, k).entries && At(ops, k).entries[h] == IssuedObject(ops, i)
    {
      LiveUntilRemoved(ops, i, k);
    }
  }

  /** A removed handle is stale for every later operation. */
  lemma StaleForever<T>(ops: seq<Op<T>>, i: nat, k: nat)
    requires i < k <= |ops| && ops[i].Remove? && Result(ops, i).Object?
    ensures ops[i].handle !in At(ops, k).entries
  {
    var h := ops[i].handle;
    LiveWasIssued(ops, h, i);
    var g :| 0 <= g < i && Issues(ops, g, h);
    LiveUntilRemoved(ops, g, k);
    assert RemovedBetween(ops, h, g, k);
  }

  /** A clone keeps the object alive on its own: removing the original does not touch it. */
  lemma CloneIndependent<T>(ops: seq<Op<T>>, i: nat, k: nat)
    requires i < k <= |ops| && ops[i].Clone? && Result(ops, i).Handle?
    requires !RemovedBetween(ops, Result(ops, i).handle, i, k)
    ensures Result(ops, i).handle != ops[i].handle
    ensures Step(At(ops, k), Op.Get(Result(ops, i).handle)).1 == Step(At(ops, i), Op.Get(ops[i].handle)).1
  {
    LiveUntilRemoved(ops, i, k);
    Numbering(ops, i);
  }

  // ---- which handle comes next ----------------------------------------------------------------------

  /** How many handles the first `k` operations issued. */
  function IssuedBefore<T>(ops: seq<Op<T>>, k: nat): nat
    requires k <= |ops|
  {
    if k == 0 then 0 else IssuedBefore(ops, k - 1) + if Result(ops, k - 1).Handle? then 1 else 0
  }

  lemma {:induction false} NextIsOdd<T>(ops: seq<Op<T>>, k: nat)
    requires k <= |ops|
    ensures At(ops, k).next == 2 * IssuedBefore(ops, k) + 1
    decreases k
  {
    if k > 0 { NextIsOdd(ops, k - 1); }
  }

  /** Insert always issues the next odd number, and clone does so for a live handle; they trap only
      when that number plus 2 no longer fits 64 bits. */
  lemma IssuesNext<T>(ops: seq<Op<T>>, k: nat)
    requires k < |ops|
    requires ops[k].Insert? || (ops[k].Clone? && ops[k].handle in At(ops, k).entries)
    ensures var h := 2 * IssuedBefore(ops, k) + 1;
            Result(ops, k) == if h + 2 < 0x1_0000_0000_0000_0000 then Handle(h) else Trapped
  {
    NextIsOdd(ops, k);
  }
}
