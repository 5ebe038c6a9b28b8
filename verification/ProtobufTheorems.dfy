/** The laws of the emitted codec. */
module ProtobufTheorems {
  import opened Bits
  import opened Varint
  import opened Protobuf
  import opened ProtobufRecords
  import opened ProtobufRoundTrip

  function TryEncode(schema: Schema, t: nat, slots: Slots): Result<seq<byte>>
    requires t < |schema| && WellTypedSlots(schema, schema[t], slots)
  {
    if SlotsThrow(schema, schema[t], slots) then Err(OutOfRange) else Ok(Encode(schema, schema[t], slots))
  }

  // ---- what is never decoded ----------------------------------------------------------------

  lemma {:induction false} DecodedValueFaithful(schema: Schema, kind: Kind, body: Body)
    requires ValidSchema(schema) && BodyFits(kind, body)
    requires kind.Message? ==> kind.index < |schema|
    ensures var r := DecodeValue(schema, kind, body); r.Ok? ==> Faithful(schema, kind, r.value)
    decreases BodySize(body), 2
  {
    hide DecodeZigZag32, DecodeZigZag64, FromLittleEndian, Decode;
    if kind.Message? && Decode(schema, kind.index, body.data).Ok? {
      DecodedFaithful(schema, kind.index, body.data);
    }
  }

  lemma {:induction false} LoopKeepsFaithful(schema: Schema, fields: Fields, s: seq<byte>, slots: Slots)
    requires ValidSchema(schema) && ValidFields(schema, fields) && Shaped(fields, slots)
    requires FaithfulSlots(schema, fields, slots)
    ensures var r := DecodeFrom(schema, fields, s, slots); r.Ok? ==> FaithfulSlots(schema, fields, r.value)
    decreases |s|, 0
  {
    hide ReadRecord, Target, FaithfulSlots, DecodeValue, BodySize;
    if s != [] {
      var r := ReadRecord(fields, s);
      if r.Ok? {
        var rec := r.value.0;
        var next := Assign(schema, fields, slots, rec);
        if next.Ok? {
          var i := Target(fields, rec.number, rec.wire);
          if i < |fields| {
            DecodedValueFaithful(schema, fields[i].kind, rec.body);
            PutKeepsFaithful(schema, fields, slots, i, DecodeValue(schema, fields[i].kind, rec.body).value);
          }
          LoopKeepsFaithful(schema, fields, After(s, r.value.1), next.value);
        }
      }
    }
  }

  lemma PutKeepsFaithful(schema: Schema, fields: Fields, slots: Slots, i: nat, v: Value)
    requires FaithfulSlots(schema, fields, slots) && i < |fields| && fields[i].id < ID_LIMIT
    requires Faithful(schema, fields[i].kind, v)
    ensures FaithfulSlots(schema, fields, slots[i := Put(slots[i], v)])
  {
    assert FaithfulSlot(schema, fields[i], Put(slots[i], v));
  }

  /** For every byte string: a successful `decode` yields no negative number in a field without
      zigzag, no enum value, and only defaults in fields numbered `2^28` or above. */
  lemma {:induction false} DecodedFaithful(schema: Schema, t: nat, s: seq<byte>)
    requires ValidSchema(schema) && t < |schema| && Decode(schema, t, s).Ok?
    ensures FaithfulSlots(schema, schema[t], Decode(schema, t, s).value)
    decreases |s|, 1
  {
    hide DecodeFrom;
    var fields := schema[t];
    forall i | 0 <= i < |fields| ensures FaithfulSlot(schema, fields[i], Defaults(fields)[i]) {
      DefaultFaithful(schema, fields[i]);
    }
    LoopKeepsFaithful(schema, fields, s, Defaults(fields));
  }

  // ---- a faithful message can be encoded --------------------------------------------------

  lemma {:induction false} FaithfulEncodes(schema: Schema, kind: Kind, v: Value)
    requires WellTyped(schema, kind, v) && Faithful(schema, kind, v)
    ensures !Throws(schema, kind, v)
    decreases v
  {
    if kind.Message? { FaithfulSlotsEncode(schema, schema[kind.index], v.slots); }
  }

  lemma {:induction false} FaithfulSlotsEncode(schema: Schema, fields: Fields, slots: Slots)
    requires WellTypedSlots(schema, fields, slots) && FaithfulSlots(schema, fields, slots)
    ensures !SlotsThrow(schema, fields, slots)
    decreases slots
  {
    forall i | 0 <= i < |slots| ensures !SlotThrows(schema, fields[i], slots[i]) {
      FaithfulSlotEncodes(schema, fields[i], slots[i]);
    }
  }

  lemma {:induction false} FaithfulSlotEncodes(schema: Schema, f: Field, slot: Slot)
    requires WellTypedSlot(schema, f, slot) && FaithfulSlot(schema, f, slot)
    ensures !SlotThrows(schema, f, slot)
    decreases slot
  {
    DefaultFaithful(schema, f);
    match slot
    case One(v) => if !v.Undefined? { FaithfulEncodes(schema, f.kind, v); }
    case Many(vs) =>
      forall k | 0 <= k < |vs| ensures !Throws(schema, f.kind, vs[k]) {
        FaithfulEncodes(schema, f.kind, vs[k]);
      }
  }

  // ---- main results -----------------------------------------------------------------------

  /** For every schema with distinct field numbers and every well-typed message, nested,
      recursive or repeated: encoding succeeds and decoding returns the message itself
      exactly when the message is faithful. */
  lemma RoundTripExactly(schema: Schema, t: nat, slots: Slots)
    requires ValidSchema(schema) && t < |schema| && WellTypedSlots(schema, schema[t], slots)
    requires !SlotsThrow(schema, schema[t], slots) ==> FitsSlots(schema, schema[t], slots)
    ensures (TryEncode(schema, t, slots).Ok? && Decode(schema, t, TryEncode(schema, t, slots).value) == Ok(slots))
       <==> FaithfulSlots(schema, schema[t], slots)
  {
    hide Decode, Encode, FaithfulSlots, WellTypedSlots, SlotsThrow, FitsSlots;
    if FaithfulSlots(schema, schema[t], slots) {
      FaithfulSlotsEncode(schema, schema[t], slots);
      SlotsRoundTrip(schema, t, slots);
    } else if TryEncode(schema, t, slots).Ok? && Decode(schema, t, TryEncode(schema, t, slots).value).Ok? {
      DecodedFaithful(schema, t, TryEncode(schema, t, slots).value);
    }
  }

  /** What decoding two messages back to back yields, slot by slot. */
  function OverlayAll(a: Slots, b: Slots): Slots
    requires |a| == |b|
  {
    seq(|a|, i requires 0 <= i < |a| => Overlay(a[i], b[i]))
  }

  /** Last one wins: `encode(a) ++ encode(b)` decodes to `b`'s singular fields (keeping `a`'s
      message where `b` has none) and to `a`'s repeated elements followed by `b`'s. */
  lemma BackToBack(schema: Schema, t: nat, a: Slots, b: Slots)
    requires ValidSchema(schema) && t < |schema|
    requires CodableSlots(schema, schema[t], a) && CodableSlots(schema, schema[t], b)
    ensures Decode(schema, t, Encode(schema, schema[t], a) + Encode(schema, schema[t], b)) == Ok(OverlayAll(a, b))
  {
    hide Parse, Only, MessageRecords, FieldFold, EncodeFirst, Overlay, Default;
    var fields := schema[t];
    var start, x, y := Defaults(fields), Encode(schema, fields, a), Encode(schema, fields, b);
    EncodeParses(schema, fields, a, |a|);
    EncodeParses(schema, fields, b, |b|);
    ParseConcat(fields, x, y);
    DecodeWhole(schema, fields, x + y, start);
    var ra, rb := MessageRecords(schema, fields, a, |a|), MessageRecords(schema, fields, b, |b|);
    forall i | 0 <= i < |fields|
      ensures Reaches(fields[i], Only(fields, ra + rb, i))
      ensures FieldFold(schema, fields[i], start[i], Only(fields, ra + rb, i)) == Ok(Overlay(a[i], b[i]))
    {
      FoldTwo(schema, fields, a, b, i);
    }
    FieldsIndependent(schema, fields, start, ra + rb);
    var r := AssignAll(schema, fields, start, ra + rb);
    forall i | 0 <= i < |fields| ensures r.value[i] == OverlayAll(a, b)[i] {
      assert Ok(r.value[i]) == Ok(Overlay(a[i], b[i]));
    }
    assert r.value == OverlayAll(a, b);
  }

  lemma FoldTwo(schema: Schema, fields: Fields, a: Slots, b: Slots, i: nat)
    requires ValidSchema(schema) && ValidFields(schema, fields)
    requires CodableSlots(schema, fields, a) && CodableSlots(schema, fields, b) && i < |fields|
    ensures var recs := Only(fields, MessageRecords(schema, fields, a, |a|) + MessageRecords(schema, fields, b, |b|), i);
            Reaches(fields[i], recs) && FieldFold(schema, fields[i], Default(fields[i]), recs) == Ok(Overlay(a[i], b[i]))
  {
    hide Only, MessageRecords, FieldFold, Reaches;
    var f := fields[i];
    var ra, rb := MessageRecords(schema, fields, a, |a|), MessageRecords(schema, fields, b, |b|);
    CodableSlotAt(schema, fields, a, i);
    OverlayOnDefault(schema, f, a[i]);
    FoldField(schema, fields, Default(f), a, i);
    FoldField(schema, fields, a[i], b, i);
    OnlyConcat(fields, ra, rb, i);
    FoldConcat(schema, f, Default(f), Only(fields, ra, i), Only(fields, rb, i));
  }

  // ---- the failing families, shown on the smallest inputs -----------------------------------

  const NEGATIVE: Schema := [[Field(1, false, Int32)]]
  const LARGE_ID: Schema := [[Field(ID_LIMIT, false, Bool)]]

  /** A negative `int32` and a field numbered `2^28` do not survive. */
  lemma LostMessages()
    ensures Decode(NEGATIVE, 0, Encode(NEGATIVE, NEGATIVE[0], [One(Num(-1))])) != Ok([One(Num(-1))])
    ensures Decode(LARGE_ID, 0, Encode(LARGE_ID, LARGE_ID[0], [One(Truth(true))])) != Ok([One(Truth(true))])
  {
    hide Decode, Encode;
    var m, n := [One(Num(-1))], [One(Truth(true))];
    assert !FaithfulSlot(NEGATIVE, NEGATIVE[0][0], m[0]);
    RoundTripExactly(NEGATIVE, 0, m);
    assert !FaithfulSlot(LARGE_ID, LARGE_ID[0][0], n[0]);
    RoundTripExactly(LARGE_ID, 0, n);
  }

  const NEGATIVE_FIXED: Schema := [[Field(1, false, Sfixed64)]]
  const ENUMERATED: Schema := [[Field(1, false, Enum)]]

  /** A negative `sfixed64` makes `encode` throw, and an enum value is gone after decoding. */
  lemma RefusedMessages()
    ensures TryEncode(NEGATIVE_FIXED, 0, [One(Num(-1))]) == Err(OutOfRange)
    ensures var enumerated := [One(Num(1))];
            && TryEncode(ENUMERATED, 0, enumerated).Ok?
            && Decode(ENUMERATED, 0, TryEncode(ENUMERATED, 0, enumerated).value) != Ok(enumerated)
  {
    hide Decode, Encode;
    var m, n := [One(Num(-1))], [One(Num(1))];
    assert SlotThrows(NEGATIVE_FIXED, NEGATIVE_FIXED[0][0], m[0]);
    assert !FaithfulSlot(ENUMERATED, ENUMERATED[0][0], n[0]);
    RoundTripExactly(ENUMERATED, 0, n);
  }
}
