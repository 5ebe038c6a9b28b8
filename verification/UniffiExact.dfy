/** The types whose buffers determine them: `lift` accepts nothing but what `lower` produces
    exactly when no boolean occurs in the type. */
module UniffiExact {
  import opened Bits
  import opened Uniffi
  import opened UniffiTypes

  /** Every enum in the type has a case, so that the type has values. */
  predicate Solid(t: Type)
    decreases t
  {
    match t
    case Optional(u) => Solid(u)
    case Sequence(u) => Solid(u)
    case Record(ts) => forall k | 0 <= k < |ts| :: Solid(ts[k])
    case Variants(cs) => 1 <= |cs| < TWO_31 && forall k | 0 <= k < |cs| :: Solid(cs[k])
    case _ => true
  }

  function Sample(t: Type): (v: Value)
    requires Solid(t)
    ensures WellTyped(t, v)
    decreases t, 0
  {
    match t
    case Bool => Flag(false)
    case Text | Data => Octets([])
    case Optional(_) => Absent
    case Sequence(_) => List([])
    case Record(ts) => Tuple(Samples(ts))
    case Variants(cs) => Case(0, Sample(cs[0]))
    case _ => Number(0)
  }

  function Samples(ts: seq<Type>): (vs: seq<Value>)
    requires forall k | 0 <= k < |ts| :: Solid(ts[k])
    ensures AllTyped(ts, vs)
    decreases ts, 0
  {
    if ts == [] then [] else [Sample(ts[0])] + Samples(ts[1..])
  }

  /** The bytes read as the value, whatever follows. */
  ghost predicate ReadsAs(t: Type, s: seq<byte>, v: Value) {
    forall rest: seq<byte> :: Read(t, s + rest) == Success(v, |s|)
  }

  ghost predicate AllReadAs(ts: seq<Type>, s: seq<byte>, vs: seq<Value>) {
    forall rest: seq<byte> :: ReadAll(ts, s + rest) == Success(vs, |s|)
  }

  /** A buffer that reads as a value but is not that value's encoding. */
  ghost predicate Odd(t: Type, s: seq<byte>, v: Value) {
    WellTyped(t, v) && Write(t, v) != s && ReadsAs(t, s, v)
  }

  ghost predicate AllOdd(ts: seq<Type>, s: seq<byte>, vs: seq<Value>) {
    AllTyped(ts, vs) && WriteAll(ts, vs) != s && AllReadAs(ts, s, vs)
  }

  const ODD_FLAG: seq<byte> := [2]

  lemma OddFlag()
    ensures Odd(Bool, ODD_FLAG, Flag(true))
  {
    forall rest: seq<byte> ensures Read(Bool, ODD_FLAG + rest) == Success(Flag(true), 1) {
      assert (ODD_FLAG + rest)[..1] == [2];
      assert FromBigEndian([2]) == 2 by { assert [2][..0] == []; }
    }
    BooleanBytesDiffer();
  }

  // One layer of a converter at a time.

  lemma OptionalLayer(u: Type, v: Value, s: seq<byte>)
    ensures WellTyped(u, v) ==> WellTyped(Optional(u), Present(v)) && Write(Optional(u), Present(v)) == IntBytes(1, 1) + Write(u, v)
    ensures |s| >= 1 && ReadSigned(s, 1) == Success(1, 1) && Read(u, s[1..]).Success? ==>
              Read(Optional(u), s) == Success(Present(Read(u, s[1..]).value), 1 + Read(u, s[1..]).size)
  {
    hide IntBytes, ReadSigned;
  }

  lemma WriteOneItem(u: Type, v: Value)
    requires WellTyped(u, v)
    ensures WellTyped(Sequence(u), List([v])) && WriteItems(u, [v]) == Write(u, v)
  {
    hide Write;
    assert WriteItems(u, [v][1..]) == [];
  }

  lemma ReadOneItem(u: Type, s: seq<byte>)
    requires Read(u, s).Success?
    ensures ReadItems(u, 1, s) == Success([Read(u, s).value], Read(u, s).size)
  {
    hide Read;
    var r := Read(u, s);
    assert ReadItems(u, 0, s[r.size..]) == Success([], 0);
    assert [r.value] + [] == [r.value];
    assert ReadItems(u, 1, s) == Prepend(r, ReadItems(u, 0, s[r.size..]));
  }

  lemma SequenceLayer(u: Type, v: Value, s: seq<byte>)
    ensures WellTyped(u, v) ==> WellTyped(Sequence(u), List([v])) && Write(Sequence(u), List([v])) == IntBytes(1, 4) + Write(u, v)
    ensures |s| >= 4 && ReadSigned(s, 4) == Success(1, 4) && Read(u, s[4..]).Success? ==>
              Read(Sequence(u), s) == Success(List([Read(u, s[4..]).value]), 4 + Read(u, s[4..]).size)
  {
    hide IntBytes, ReadSigned, ReadItems, WriteItems;
    if WellTyped(u, v) { WriteOneItem(u, v); }
    if |s| >= 4 && Read(u, s[4..]).Success? { ReadOneItem(u, s[4..]); }
  }

  lemma VariantsLayer(cs: seq<Type>, k: nat, v: Value, s: seq<byte>)
    requires k < |cs| < TWO_31
    ensures WellTyped(cs[k], v) ==>
              WellTyped(Variants(cs), Case(k, v)) && Write(Variants(cs), Case(k, v)) == IntBytes(k + 1, 4) + Write(cs[k], v)
    ensures |s| >= 4 && ReadSigned(s, 4) == Success(k + 1, 4) && Read(cs[k], s[4..]).Success? ==>
              Read(Variants(cs), s) == Success(Case(k, Read(cs[k], s[4..]).value), 4 + Read(cs[k], s[4..]).size)
  {
    hide IntBytes, ReadSigned;
  }

  /** Type `t` is a tag `n` in front of a `u`, as far as this buffer is concerned. */
  predicate Tags(t: Type, n: int, width: nat, w: Value, u: Type, v: Value, buf: seq<byte>, size: nat)
    requires width >= 1
  {
    width <= |buf| && ReadSigned(buf, width) == Success(n, width) && Read(u, buf[width..]) == Success(v, size) ==>
      Read(t, buf) == Success(w, width + size)
  }

  /** A tag or a count in front keeps a buffer odd. */
  lemma OddTagged(t: Type, n: int, width: nat, w: Value, u: Type, v: Value, s: seq<byte>)
    requires Odd(u, s, v) && width >= 1 && InSigned(n, width)
    requires WellTyped(t, w) && Write(t, w) == IntBytes(n, width) + Write(u, v)
    requires forall buf :: Tags(t, n, width, w, u, v, buf, |s|)
    ensures Odd(t, IntBytes(n, width) + s, w)
  {
    hide Read, Write, WellTyped, IntBytes, ReadSigned;
    var tag := IntBytes(n, width);
    forall rest: seq<byte> ensures Read(t, tag + s + rest) == Success(w, |tag + s|) {
      TagThen(n, width, s, rest);
      assert Read(u, s + rest) == Success(v, |s|);
      assert Tags(t, n, width, w, u, v, tag + s + rest, |s|);
    }
    assert (tag + s)[width..] == s && (tag + Write(u, v))[width..] == Write(u, v);
  }

  lemma OddOptional(u: Type, s: seq<byte>, v: Value)
    requires Odd(u, s, v)
    ensures Odd(Optional(u), IntBytes(1, 1) + s, Present(v))
  {
    hide Read, Write, IntBytes, ReadSigned;
    SignedFits(1);
    OptionalLayer(u, v, []);
    forall buf ensures Tags(Optional(u), 1, 1, Present(v), u, v, buf, |s|) {
      OptionalLayer(u, v, buf);
    }
    OddTagged(Optional(u), 1, 1, Present(v), u, v, s);
  }

  lemma OddSequence(u: Type, s: seq<byte>, v: Value)
    requires Odd(u, s, v)
    ensures Odd(Sequence(u), IntBytes(1, 4) + s, List([v]))
  {
    hide Read, Write, IntBytes, ReadSigned;
    SignedFits(1);
    SequenceLayer(u, v, []);
    forall buf ensures Tags(Sequence(u), 1, 4, List([v]), u, v, buf, |s|) { SequenceLayer(u, v, buf); }
    OddTagged(Sequence(u), 1, 4, List([v]), u, v, s);
  }

  lemma OddVariants(cs: seq<Type>, k: nat, s: seq<byte>, v: Value)
    requires k < |cs| < TWO_31 && Odd(cs[k], s, v)
    ensures Odd(Variants(cs), IntBytes(k + 1, 4) + s, Case(k, v))
  {
    hide Read, Write, IntBytes, ReadSigned;
    var n := k + 1;
    SignedFits(n);
    VariantsLayer(cs, k, v, []);
    forall buf ensures Tags(Variants(cs), n, 4, Case(k, v), cs[k], v, buf, |s|) { VariantsLayer(cs, k, v, buf); }
    OddTagged(Variants(cs), n, 4, Case(k, v), cs[k], v, s);
  }

  lemma WrittenReadsAs(t: Type, v: Value)
    requires WellTyped(t, v)
    ensures ReadsAs(t, Write(t, v), v)
  {
    forall rest: seq<byte> ensures Read(t, Write(t, v) + rest) == Success(v, |Write(t, v)|) {
      ReadWrite(t, v, rest);
    }
  }

  lemma AllWrittenReadAs(ts: seq<Type>, vs: seq<Value>)
    requires AllTyped(ts, vs)
    ensures AllReadAs(ts, WriteAll(ts, vs), vs)
  {
    forall rest: seq<byte> ensures ReadAll(ts, WriteAll(ts, vs) + rest) == Success(vs, |WriteAll(ts, vs)|) {
      AllReadWrite(ts, vs, rest);
    }
  }

  lemma ReadsJoinAt(t: Type, s: seq<byte>, v: Value, ts: seq<Type>, more: seq<byte>)
    requires Read(t, s + more) == Success(v, |s|) && ReadAll(ts, more).Success?
    ensures ReadAll([t] + ts, s + more) == Success([v] + ReadAll(ts, more).value, |s| + ReadAll(ts, more).size)
  {
    hide Read, ReadAll;
    AllLayer(t, ts, s + more);
    assert (s + more)[|s|..] == more;
  }

  /** Two parts read one after the other. */
  lemma ReadsJoin(t: Type, s: seq<byte>, v: Value, ts: seq<Type>, more: seq<byte>, vs: seq<Value>)
    requires ReadsAs(t, s, v) && AllReadAs(ts, more, vs)
    ensures AllReadAs([t] + ts, s + more, [v] + vs)
  {
    hide Read, ReadAll;
    forall rest: seq<byte> ensures ReadAll([t] + ts, s + more + rest) == Success([v] + vs, |s + more|) {
      assert s + more + rest == s + (more + rest);
      assert Read(t, s + (more + rest)) == Success(v, |s|);
      ReadsJoinAt(t, s, v, ts, more + rest);
    }
  }

  lemma AllLayer(t: Type, ts: seq<Type>, s: seq<byte>)
    ensures ReadAll([t] + ts, s) == var first := Read(t, s);
              if first.Failure? then Failure(first.error) else Prepend(first, ReadAll(ts, s[first.size..]))
  {
    hide Read;
    assert ([t] + ts)[0] == t && ([t] + ts)[1..] == ts;
  }

  lemma JoinTyped(t: Type, v: Value, ts: seq<Type>, vs: seq<Value>)
    requires WellTyped(t, v) && AllTyped(ts, vs)
    ensures AllTyped([t] + ts, [v] + vs)
    ensures WriteAll([t] + ts, [v] + vs) == Write(t, v) + WriteAll(ts, vs)
  {
    hide WellTyped, Write;
    assert ([t] + ts)[1..] == ts && ([v] + vs)[1..] == vs;
    AllTypedStep([t] + ts, [v] + vs);
  }

  /** One odd part makes a record odd. */
  lemma OddFirst(t: Type, s: seq<byte>, v: Value, ts: seq<Type>, vs: seq<Value>)
    requires Odd(t, s, v) && AllTyped(ts, vs)
    ensures AllOdd([t] + ts, s + WriteAll(ts, vs), [v] + vs)
  {
    hide Read, Write, WellTyped;
    AllWrittenReadAs(ts, vs);
    ReadsJoin(t, s, v, ts, WriteAll(ts, vs), vs);
    JoinTyped(t, v, ts, vs);
    CutRight(s, Write(t, v), WriteAll(ts, vs));
  }

  lemma CutRight(a: seq<byte>, b: seq<byte>, c: seq<byte>)
    ensures a + c == b + c <==> a == b
  {
    assert |a| == |b| && a + c == b + c ==> (a + c)[..|a|] == a && (a + c)[..|a|] == b;
  }

  lemma OddRest(t: Type, v: Value, ts: seq<Type>, s: seq<byte>, vs: seq<Value>)
    requires WellTyped(t, v) && AllOdd(ts, s, vs)
    ensures AllOdd([t] + ts, Write(t, v) + s, [v] + vs)
  {
    hide Read, Write, WellTyped;
    WrittenReadsAs(t, v);
    ReadsJoin(t, Write(t, v), v, ts, s, vs);
    JoinTyped(t, v, ts, vs);
    var a, b, c := Write(t, v), s, WriteAll(ts, vs);
    assert (a + b)[|a|..] == b && (a + c)[|a|..] == c;
  }

  lemma OddRecord(ts: seq<Type>, s: seq<byte>, vs: seq<Value>)
    requires AllOdd(ts, s, vs)
    ensures Odd(Record(ts), s, Tuple(vs))
  {
    forall rest: seq<byte> ensures Read(Record(ts), s + rest) == Success(Tuple(vs), |s|) {
      assert ReadAll(ts, s + rest) == Success(vs, |s|);
    }
  }

  /** A type with a boolean in it has an odd buffer. */
  lemma {:induction false} FindOdd(t: Type) returns (s: seq<byte>, v: Value)
    requires Solid(t) && !Canonical(t)
    ensures Odd(t, s, v)
    decreases t, 0
  {
    hide Odd, AllOdd;
    match t
    case Optional(u) =>
      s, v := FindOdd(u);
      OddOptional(u, s, v);
      s, v := IntBytes(1, 1) + s, Present(v);
    case Sequence(u) =>
      s, v := FindOdd(u);
      OddSequence(u, s, v);
      s, v := IntBytes(1, 4) + s, List([v]);
    case Variants(cs) =>
      var k :| 0 <= k < |cs| && !Canonical(cs[k]);
      s, v := FindOdd(cs[k]);
      OddVariants(cs, k, s, v);
      s, v := IntBytes(k + 1, 4) + s, Case(k, v);
    case Record(ts) =>
      var vs;
      s, vs := FindAllOdd(ts);
      OddRecord(ts, s, vs);
      v := Tuple(vs);
    case _ =>
      OddFlag();
      s, v := ODD_FLAG, Flag(true);
  }

  lemma {:induction false} FindAllOdd(ts: seq<Type>) returns (s: seq<byte>, vs: seq<Value>)
    requires (forall k | 0 <= k < |ts| :: Solid(ts[k])) && exists k :: 0 <= k < |ts| && !Canonical(ts[k])
    ensures AllOdd(ts, s, vs)
    decreases ts, 0
  {
    hide Odd, AllOdd, Solid, Canonical, Samples, Sample;
    var t, rest := ts[0], ts[1..];
    assert [t] + rest == ts;
    if Canonical(t) {
      var k :| 0 <= k < |ts| && !Canonical(ts[k]);
      assert rest[k - 1] == ts[k];
      s, vs := FindAllOdd(rest);
      OddRest(t, Sample(t), rest, s, vs);
      s, vs := Write(t, Sample(t)) + s, [Sample(t)] + vs;
    } else {
      var v;
      s, v := FindOdd(t);
      vs := Samples(rest);
      OddFirst(t, s, v, rest, vs);
      s, vs := s + WriteAll(rest, vs), [v] + vs;
    }
  }

  ghost predicate Lowered(t: Type, s: seq<byte>) { exists v :: WellTyped(t, v) && Write(t, v) == s }

  lemma OddNotLowered(t: Type, s: seq<byte>, v: Value)
    requires Odd(t, s, v)
    ensures Lift(t, s).Success? && !Lowered(t, s)
  {
    hide Read, Write, WellTyped;
    assert s + [] == s;
    assert Read(t, s + []) == Success(v, |s|);
    forall w | WellTyped(t, w) && Write(t, w) == s ensures w == v {
      ReadWrite(t, w, []);
    }
  }

  /** `lift` accepts only what `lower` produces exactly for the types without a boolean. */
  lemma ExactExactly(t: Type)
    requires Solid(t)
    ensures (forall s | Lift(t, s).Success? :: Lowered(t, s)) <==> Canonical(t)
  {
    hide Lift, Solid, Canonical, Odd, WellTyped, Write;
    if Canonical(t) {
      forall s | Lift(t, s).Success? ensures Lowered(t, s) { LiftAcceptsExactly(t, s); }
    } else {
      var s, v := FindOdd(t);
      OddNotLowered(t, s, v);
    }
  }

  /** A network event carries transport flags, so some buffer lifts that no event lowers to. */
  lemma NetworkEventInexact()
    ensures exists s :: Lift(NETWORK_EVENT, s).Success? && !Lowered(NETWORK_EVENT, s)
  {
    hide Lift, Lowered;
    NetworkEventHasFlags();
    NetworkEventSolid();
    ExactExactly(NETWORK_EVENT);
  }

  lemma RecordSolid(ts: seq<Type>)
    requires forall k | 0 <= k < |ts| :: Solid(ts[k])
    ensures Solid(Record(ts))
  {
  }

  lemma VariantsSolid(cs: seq<Type>)
    requires 1 <= |cs| < TWO_31 && forall k | 0 <= k < |cs| :: Solid(cs[k])
    ensures Solid(Variants(cs))
  {
  }

  lemma LeavesSolid()
    ensures Solid(UInt64) && Solid(Bool)
  {
  }

  lemma SnapshotSolid()
    ensures Solid(NETWORK_SNAPSHOT)
  {
    hide Solid;
    LeavesSolid();
    RecordSolid([]);
    VariantsSolid([UNIT, UNIT, UNIT]);
    RecordSolid([Bool, Bool, Bool, Bool, Bool]);
    RecordSolid([UInt64, NETWORK_AVAILABILITY, TRANSPORT_FLAGS, Bool, Bool]);
  }

  lemma ReasonsSolid()
    ensures Solid(APP_LIFECYCLE_STATE) && Solid(CLEANUP_REASON) && Solid(RECONNECT_REASON)
  {
    hide Solid;
    LeavesSolid();
    RecordSolid([]);
    RecordSolid([UInt64]);
    VariantsSolid([UNIT, Record([UInt64])]);
    VariantsSolid([UNIT, UNIT, UNIT, UNIT]);
    VariantsSolid([UNIT, UNIT, UNIT, UNIT, UNIT]);
  }

  lemma NetworkEventSolid()
    ensures Solid(NETWORK_EVENT)
  {
    hide Solid;
    SnapshotSolid();
    ReasonsSolid();
    RecordSolid([NETWORK_SNAPSHOT]);
    RecordSolid([APP_LIFECYCLE_STATE]);
    RecordSolid([CLEANUP_REASON]);
    RecordSolid([RECONNECT_REASON]);
    VariantsSolid(NETWORK_EVENT.cases);
  }
}
