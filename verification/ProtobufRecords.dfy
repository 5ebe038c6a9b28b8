/** A buffer as a sequence of records: `decode` is a fold over them, field by field. */
module ProtobufRecords {
  import opened Bits
  import opened Varint
  import opened Protobuf

  datatype Parsed = Broken | Whole(records: seq<Record>)

  /** The records of a buffer that ends exactly where a record ends. */
  function Parse(fields: Fields, s: seq<byte>): Parsed
    decreases |s|
  {
    if s == [] then Whole([])
    else
      var r := ReadRecord(fields, s);
      if r.Err? || r.value.1 > |s| then Broken
      else
        var rest := Parse(fields, s[r.value.1..]);
        if rest.Broken? then Broken else Whole([r.value.0] + rest.records)
  }

  // ---- a record is self-delimiting ----------------------------------------------------

  lemma VarintLocal(a: seq<byte>, b: seq<byte>)
    requires ReadVarint(a).Got?
    ensures ReadVarint(a + b) == ReadVarint(a)
  {
    hide ReadVarint;
    var n := ReadVarint(a).length;
    ReadIsLocal(a, a[n..] + b);
    assert a[..n] + (a[n..] + b) == a + b;
  }

  /** A record that lies wholly inside `a` is read the same whatever follows. */
  lemma RecordLocal(fields: Fields, a: seq<byte>, b: seq<byte>)
    requires ReadRecord(fields, a).Ok? && ReadRecord(fields, a).value.1 <= |a|
    ensures ReadRecord(fields, a + b) == ReadRecord(fields, a)
  {
    hide ReadVarint, NumberToInt32, Uses;
    VarintLocal(a, b);
    var start := ReadVarint(a).length;
    assert (a + b)[start..] == a[start..] + b;
    var second := ReadVarint(a[start..]);
    if second.Got? {
      VarintLocal(a[start..], b);
      var from := start + second.length;
      if from + second.value <= |a| {
        assert (a + b)[from..from + second.value] == a[from..from + second.value];
      }
    }
    if start + 4 <= |a| { assert (a + b)[start..start + 4] == a[start..start + 4]; }
    if start + 8 <= |a| { assert (a + b)[start..start + 8] == a[start..start + 8]; }
  }

  lemma ParseEmpty(fields: Fields)
    ensures Parse(fields, []) == Whole([])
  {
  }

  lemma ParsedRecord(fields: Fields, s: seq<byte>)
    requires Parse(fields, s).Whole?
    ensures s != [] ==> ReadRecord(fields, s).Ok? && ReadRecord(fields, s).value.1 <= |s|
    ensures s != [] ==> Parse(fields, s[ReadRecord(fields, s).value.1..]).Whole?
  {
    hide ReadRecord;
  }

  lemma ParseStep(fields: Fields, s: seq<byte>)
    requires s != [] && ReadRecord(fields, s).Ok? && ReadRecord(fields, s).value.1 <= |s|
    ensures var r := ReadRecord(fields, s).value;
            var rest := Parse(fields, s[r.1..]);
            Parse(fields, s) == if rest.Broken? then Broken else Whole([r.0] + rest.records)
  {
    hide ReadRecord;
  }

  lemma {:induction false} ParseConcat(fields: Fields, a: seq<byte>, b: seq<byte>)
    requires Parse(fields, a).Whole? && Parse(fields, b).Whole?
    ensures Parse(fields, a + b) == Whole(Parse(fields, a).records + Parse(fields, b).records)
    decreases |a|
  {
    hide ReadRecord, Parse;
    ParseEmpty(fields);
    ParsedRecord(fields, a);
    if a == [] {
      assert a + b == b;
    } else {
      RecordLocal(fields, a, b);
      var end := ReadRecord(fields, a).value.1;
      assert (a + b)[end..] == a[end..] + b;
      ParseConcat(fields, a[end..], b);
      ParseStep(fields, a);
      ParseStep(fields, a + b);
    }
  }

  // ---- decode as a fold over records --------------------------------------------------

  function AssignAll(schema: Schema, fields: Fields, slots: Slots, recs: seq<Record>): (r: Result<Slots>)
    requires ValidSchema(schema) && ValidFields(schema, fields) && Shaped(fields, slots)
    requires forall k | 0 <= k < |recs| :: recs[k].body.Scalar? <==> recs[k].wire == 0
    ensures r.Ok? ==> Shaped(fields, r.value)
    decreases |recs|
  {
    if recs == [] then Ok(slots)
    else
      var next := Assign(schema, fields, slots, recs[0]);
      if next.Err? then Err(next.error) else AssignAll(schema, fields, next.value, recs[1..])
  }

  lemma {:induction false} ParsedBodies(fields: Fields, s: seq<byte>)
    requires Parse(fields, s).Whole?
    ensures var recs := Parse(fields, s).records;
            forall k | 0 <= k < |recs| :: (recs[k].body.Scalar? <==> recs[k].wire == 0)
    decreases |s|
  {
    hide ReadRecord;
    if s != [] {
      ParsedBodies(fields, s[ReadRecord(fields, s).value.1..]);
    }
  }

  /** Decoding whole records `p` and then anything `q`: fold the records, then go on. */
  lemma {:induction false} DecodeWholeThenRest(schema: Schema, fields: Fields, p: seq<byte>, q: seq<byte>, slots: Slots)
    requires ValidSchema(schema) && ValidFields(schema, fields) && Shaped(fields, slots)
    requires Parse(fields, p).Whole?
    ensures forall k | 0 <= k < |Parse(fields, p).records| ::
              Parse(fields, p).records[k].body.Scalar? <==> Parse(fields, p).records[k].wire == 0
    ensures var mid := AssignAll(schema, fields, slots, Parse(fields, p).records);
            DecodeFrom(schema, fields, p + q, slots) ==
            if mid.Err? then Err(mid.error) else DecodeFrom(schema, fields, q, mid.value)
    decreases |p|
  {
    hide ReadRecord, Assign;
    ParsedBodies(fields, p);
    if p == [] {
      assert p + q == q;
    } else {
      RecordLocal(fields, p, q);
      var end := ReadRecord(fields, p).value.1;
      var next := Assign(schema, fields, slots, ReadRecord(fields, p).value.0);
      assert After(p + q, end) == p[end..] + q;
      assert Parse(fields, p).records[1..] == Parse(fields, p[end..]).records;
      if next.Ok? {
        DecodeWholeThenRest(schema, fields, p[end..], q, next.value);
      }
    }
  }

  lemma DecodeWhole(schema: Schema, fields: Fields, p: seq<byte>, slots: Slots)
    requires ValidSchema(schema) && ValidFields(schema, fields) && Shaped(fields, slots)
    requires Parse(fields, p).Whole?
    ensures forall k | 0 <= k < |Parse(fields, p).records| ::
              Parse(fields, p).records[k].body.Scalar? <==> Parse(fields, p).records[k].wire == 0
    ensures DecodeFrom(schema, fields, p, slots) == AssignAll(schema, fields, slots, Parse(fields, p).records)
  {
    hide Parse;
    DecodeWholeThenRest(schema, fields, p, [], slots);
    assert p + [] == p;
  }

  // ---- fields do not interfere ---------------------------------------------------------

  /** The records that reach field `i`, in order. */
  function Only(fields: Fields, recs: seq<Record>, i: nat): seq<Record> {
    if recs == [] then []
    else (if Target(fields, recs[0].number, recs[0].wire) == i then [recs[0]] else []) + Only(fields, recs[1..], i)
  }

  predicate Reaches(f: Field, recs: seq<Record>) {
    forall k | 0 <= k < |recs| :: BodyFits(f.kind, recs[k].body)
  }

  /** What field `f` becomes when it sees just these records. */
  function FieldFold(schema: Schema, f: Field, slot: Slot, recs: seq<Record>): Result<Slot>
    requires ValidSchema(schema) && Reaches(f, recs)
    requires f.kind.Message? ==> f.kind.index < |schema|
    decreases |recs|
  {
    if recs == [] then Ok(slot)
    else
      var v := DecodeValue(schema, f.kind, recs[0].body);
      if v.Err? then Err(v.error) else FieldFold(schema, f, Put(slot, v.value), recs[1..])
  }

  lemma {:induction false} OnlyReaches(fields: Fields, recs: seq<Record>, i: nat)
    requires i < |fields|
    requires forall k | 0 <= k < |recs| :: recs[k].body.Scalar? <==> recs[k].wire == 0
    ensures Reaches(fields[i], Only(fields, recs, i))
    decreases |recs|
  {
    if recs != [] {
      OnlyReaches(fields, recs[1..], i);
    }
  }

  /** The first record as field `i` sees it. */
  lemma FirstRecord(schema: Schema, fields: Fields, slots: Slots, recs: seq<Record>, i: nat)
    requires ValidSchema(schema) && ValidFields(schema, fields) && Shaped(fields, slots)
    requires forall k | 0 <= k < |recs| :: recs[k].body.Scalar? <==> recs[k].wire == 0
    requires recs != [] && i < |fields|
    ensures Reaches(fields[i], Only(fields, recs, i)) && Reaches(fields[i], Only(fields, recs[1..], i))
    ensures var next := Assign(schema, fields, slots, recs[0]);
            var all := FieldFold(schema, fields[i], slots[i], Only(fields, recs, i));
            && (next.Ok? ==> all == FieldFold(schema, fields[i], next.value[i], Only(fields, recs[1..], i)))
            && (next.Err? && Target(fields, recs[0].number, recs[0].wire) == i ==> all.Err?)
  {
    hide DecodeValue, Only, Target, FieldFold, Reaches;
    OnlyReaches(fields, recs, i);
    OnlyReaches(fields, recs[1..], i);
    OnlyStep(fields, recs, i);
    if Target(fields, recs[0].number, recs[0].wire) == i {
      FoldStep(schema, fields[i], slots[i], recs[0], Only(fields, recs[1..], i));
    }
  }

  lemma OnlyStep(fields: Fields, recs: seq<Record>, i: nat)
    requires recs != []
    ensures Only(fields, recs, i) ==
      (if Target(fields, recs[0].number, recs[0].wire) == i then [recs[0]] + Only(fields, recs[1..], i)
       else Only(fields, recs[1..], i))
  {
    hide Target;
  }

  lemma FoldStep(schema: Schema, f: Field, slot: Slot, rec: Record, rest: seq<Record>)
    requires ValidSchema(schema) && Reaches(f, [rec] + rest)
    requires f.kind.Message? ==> f.kind.index < |schema|
    ensures BodyFits(f.kind, rec.body) && Reaches(f, rest)
    ensures var v := DecodeValue(schema, f.kind, rec.body);
            FieldFold(schema, f, slot, [rec] + rest) ==
            if v.Err? then Err(v.error) else FieldFold(schema, f, Put(slot, v.value), rest)
  {
    hide DecodeValue;
    var recs := [rec] + rest;
    assert recs[0] == rec && recs[1..] == rest;
    forall k | 0 <= k < |rest| ensures BodyFits(f.kind, rest[k].body) {
      assert rest[k] == recs[k + 1];
    }
  }

  /** Every field sees its own records only: the fold succeeds exactly when each field's
      fold does, and then slot `i` is field `i`'s fold. */
  lemma {:induction false} FieldsIndependent(schema: Schema, fields: Fields, slots: Slots, recs: seq<Record>)
    requires ValidSchema(schema) && ValidFields(schema, fields) && Shaped(fields, slots)
    requires forall k | 0 <= k < |recs| :: recs[k].body.Scalar? <==> recs[k].wire == 0
    ensures forall i | 0 <= i < |fields| :: Reaches(fields[i], Only(fields, recs, i))
    ensures AssignAll(schema, fields, slots, recs).Ok? <==>
            forall i | 0 <= i < |fields| :: FieldFold(schema, fields[i], slots[i], Only(fields, recs, i)).Ok?
    ensures var r := AssignAll(schema, fields, slots, recs);
            r.Ok? ==> forall i | 0 <= i < |fields| ::
              FieldFold(schema, fields[i], slots[i], Only(fields, recs, i)) == Ok(r.value[i])
    decreases |recs|
  {
    hide DecodeValue, Only, Reaches;
    forall i | 0 <= i < |fields| ensures Reaches(fields[i], Only(fields, recs, i)) {
      OnlyReaches(fields, recs, i);
    }
    if recs == [] {
      forall i | 0 <= i < |fields| ensures Only(fields, recs, i) == [] {
        OnlyNone(fields, i);
      }
    } else {
      hide Assign, FieldFold;
      forall i | 0 <= i < |fields| ensures Reaches(fields[i], Only(fields, recs[1..], i)) {
        OnlyReaches(fields, recs[1..], i);
      }
      var next := Assign(schema, fields, slots, recs[0]);
      forall i | 0 <= i < |fields|
        ensures var all := FieldFold(schema, fields[i], slots[i], Only(fields, recs, i));
                && (next.Ok? ==> all == FieldFold(schema, fields[i], next.value[i], Only(fields, recs[1..], i)))
                && (next.Err? && Target(fields, recs[0].number, recs[0].wire) == i ==> all.Err?)
      {
        FirstRecord(schema, fields, slots, recs, i);
      }
      if next.Ok? {
        FieldsIndependent(schema, fields, next.value, recs[1..]);
      } else {
        AssignFails(schema, fields, slots, recs[0]);
      }
    }
  }

  lemma OnlyNone(fields: Fields, i: nat)
    ensures Only(fields, [], i) == []
  {
  }

  lemma AssignFails(schema: Schema, fields: Fields, slots: Slots, rec: Record)
    requires ValidSchema(schema) && ValidFields(schema, fields) && Shaped(fields, slots)
    requires rec.body.Scalar? <==> rec.wire == 0
    requires Assign(schema, fields, slots, rec).Err?
    ensures Target(fields, rec.number, rec.wire) < |fields|
  {
  }

  // ---- consequences ------------------------------------------------------------------

  predicate SameOutcome(x: Result<Slots>, y: Result<Slots>) {
    (x.Ok? && x == y) || (x.Err? && y.Err?)
  }

  /** Reordering: two buffers whose per-field record sequences agree decode alike. */
  lemma OrderBetweenFieldsIrrelevant(schema: Schema, t: nat, s1: seq<byte>, s2: seq<byte>)
    requires ValidSchema(schema) && t < |schema|
    requires Parse(schema[t], s1).Whole? && Parse(schema[t], s2).Whole?
    requires forall i | 0 <= i < |schema[t]| ::
      Only(schema[t], Parse(schema[t], s1).records, i) == Only(schema[t], Parse(schema[t], s2).records, i)
    ensures SameOutcome(Decode(schema, t, s1), Decode(schema, t, s2))
  {
    hide Parse, FieldFold, Only;
    var fields, start := schema[t], Defaults(schema[t]);
    DecodeWhole(schema, fields, s1, start);
    DecodeWhole(schema, fields, s2, start);
    FieldsIndependent(schema, fields, start, Parse(fields, s1).records);
    FieldsIndependent(schema, fields, start, Parse(fields, s2).records);
    var r1 := AssignAll(schema, fields, start, Parse(fields, s1).records);
    var r2 := AssignAll(schema, fields, start, Parse(fields, s2).records);
    if r1.Ok? && r2.Ok? {
      forall i | 0 <= i < |fields| ensures r1.value[i] == r2.value[i] {
        assert Ok(r1.value[i]) == Ok(r2.value[i]);
      }
      assert r1.value == r2.value;
    }
  }

  /** Unknown fields: a complete record that reaches no declared field may be inserted at any
      record boundary, in front of arbitrary bytes, without changing the outcome. */
  lemma UnknownFieldIgnored(schema: Schema, t: nat, p: seq<byte>, u: seq<byte>, q: seq<byte>)
    requires ValidSchema(schema) && t < |schema| && u != []
    requires Parse(schema[t], p).Whole?
    requires ReadRecord(schema[t], u).Ok? && ReadRecord(schema[t], u).value.1 == |u|
    requires Target(schema[t], ReadRecord(schema[t], u).value.0.number, ReadRecord(schema[t], u).value.0.wire) == |schema[t]|
    ensures Decode(schema, t, p + u + q) == Decode(schema, t, p + q)
  {
    hide Parse, ReadRecord;
    var fields, start := schema[t], Defaults(schema[t]);
    DecodeWholeThenRest(schema, fields, p, q, start);
    DecodeWholeThenRest(schema, fields, p, u + q, start);
    assert p + u + q == p + (u + q);
    var mid := AssignAll(schema, fields, start, Parse(fields, p).records);
    RecordLocal(fields, u, q);
    if mid.Ok? {
      assert After(u + q, |u|) == q;
      assert DecodeFrom(schema, fields, u + q, mid.value) == DecodeFrom(schema, fields, q, mid.value);
    }
  }

  /** The opposite case: a tag whose wire type no declared field has is an error, even though
      the field itself is unknown. */
  lemma UnusedWireTypeRejected(schema: Schema, t: nat, p: seq<byte>, q: seq<byte>)
    requires ValidSchema(schema) && t < |schema|
    requires Parse(schema[t], p).Whole? && Decode(schema, t, p).Ok?
    requires ReadVarint(q).Got? && !Uses(schema[t], NumberToInt32(ReadVarint(q).value) % 8)
    ensures Decode(schema, t, p + q) == Err(UnsupportedWireType)
  {
    hide Parse, NumberToInt32, ReadVarint;
    var fields, start := schema[t], Defaults(schema[t]);
    DecodeWhole(schema, fields, p, start);
    DecodeWholeThenRest(schema, fields, p, q, start);
    assert q != [] by { if q == [] { ReadIsLocal(q, []); EmptyVarint(); } }
  }

  lemma EmptyVarint()
    ensures ReadVarint([]) == Missing
  {
  }
}
