/** Decoding bytes of any origin, encoding the message again and decoding that. */
module ProtobufRedecode {
  import opened Bits
  import opened Varint
  import opened Protobuf
  import opened ProtobufRoundTrip
  import opened ProtobufTheorems

  // ---- buffers whose numbers are in range -----------------------------------------------------

  /** The record's number is one of the field's type; inside a message, all the way down. An
      element of a repeated enum never is: it decodes to nothing. */
  predicate Ranged(schema: Schema, f: Field, body: Body)
    requires ValidSchema(schema) && BodyFits(f.kind, body)
    requires f.kind.Message? ==> f.kind.index < |schema|
    decreases BodySize(body), 2
  {
    match f.kind
    case Int32 => body.n < TWO_31
    case Uint32 => body.n < TWO_32
    case Int64 => body.n < TWO_63
    case Uint64 | Sint64 => body.n < TWO_64
    case Sfixed32 => |body.data| >= 4 && body.data[3] < 128
    case Sfixed64 => |body.data| >= 8 && body.data[7] < 128
    case Enum => !f.repeated
    case Message(t) => InRange(schema, t, body.data)
    case _ => true
  }

  /** Every record that counts is: the last one of a singular field, all of a repeated one. `ok`
      says of each field whether that is so up to here. */
  predicate RangedFrom(schema: Schema, fields: Fields, s: seq<byte>, ok: seq<bool>)
    requires ValidSchema(schema) && ValidFields(schema, fields) && |ok| == |fields|
    decreases |s|, 0
  {
    if s == [] then forall i | 0 <= i < |ok| :: ok[i]
    else
      var r := ReadRecord(fields, s);
      r.Ok? &&
      var (rec, end) := r.value;
      var i := Target(fields, rec.number, rec.wire);
      var ok' := if i == |fields| then ok else ok[i := Ranged(schema, fields[i], rec.body) && (fields[i].repeated ==> ok[i])];
      RangedFrom(schema, fields, After(s, end), ok')
  }

  predicate InRange(schema: Schema, t: nat, s: seq<byte>)
    requires ValidSchema(schema) && t < |schema|
    decreases |s|, 1
  {
    RangedFrom(schema, schema[t], s, seq(|schema[t]|, _ => true))
  }

  // ---- these and no others decode to well-typed messages ------------------------------------------------------------

  lemma {:induction false} FromLittleEndianTop(s: seq<byte>)
    requires s != []
    ensures FromLittleEndian(s) < Pow2(8 * |s| - 1) <==> s[|s| - 1] < 128
    decreases |s|
  {
    if |s| == 1 {
      assert FromLittleEndian(s[1..]) == 0;
      Pow2Constants();
    } else {
      FromLittleEndianTop(s[1..]);
      Pow2Eight(8 * (|s| - 1) - 1);
      assert s[1..][|s| - 2] == s[|s| - 1];
    }
  }

  /** A fixed-width number fits its width, and the signed half of it by its top byte. */
  lemma FixedRange(s: seq<byte>)
    requires |s| == 4 || |s| == 8
    ensures |s| == 4 ==> FromLittleEndian(s) < TWO_32 && (FromLittleEndian(s) < TWO_31 <==> s[3] < 128)
    ensures |s| == 8 ==> FromLittleEndian(s) < TWO_64 && (FromLittleEndian(s) < TWO_63 <==> s[7] < 128)
  {
    hide FromLittleEndian, Pow2;
    FromLittleEndianBound(s);
    FromLittleEndianTop(s);
    Pow2Constants();
  }

  predicate Scalar(kind: Kind) { !kind.Message? && !kind.Enum? }

  lemma ZigZagRange(n: nat)
    ensures InInt32(DecodeZigZag32(n))
    ensures InInt64(DecodeZigZag64(n)) <==> n < TWO_64
  {
    Unzigzag32(n);
    Unzigzag64(n);
  }

  lemma Unzigzag64(n: nat)
    ensures DecodeZigZag64(n) == if n % 2 == 0 then n / 2 else -1 - n / 2
  {
    hide And;
    Pow2Constants();
    LowBit(n);
  }

  lemma Unzigzag32(n: nat)
    ensures InInt32(DecodeZigZag32(n))
  {
    hide And, Xor, Pow2;
    Pow2Constants();
    LowBit(ToInt32(n));
    XorSign32(UShr32(n, 1), -And32(n, 1));
  }

  /** A decoded scalar is a value of its field's type exactly when the number on the wire is in
      range. */
  lemma ScalarTypedExactly(schema: Schema, f: Field, body: Body)
    requires ValidSchema(schema) && BodyFits(f.kind, body) && Scalar(f.kind)
    requires DecodeValue(schema, f.kind, body).Ok?
    ensures WellTyped(schema, f.kind, DecodeValue(schema, f.kind, body).value) <==> Ranged(schema, f, body)
  {
    hide FromLittleEndian, DecodeZigZag32, DecodeZigZag64;
    match f.kind
    case Sint32 | Sint64 => ZigZagRange(body.n);
    case Fixed32 | Sfixed32 => FixedRange(body.data[..4]);
    case Fixed64 | Sfixed64 => FixedRange(body.data[..8]);
    case _ =>
  }

  /** A decoded value fits its field. */
  predicate ValueFits(schema: Schema, f: Field, v: Value) {
    if f.kind.Enum? then v.Undefined? && !f.repeated else WellTyped(schema, f.kind, v)
  }

  lemma {:induction false} ValueTypedExactly(schema: Schema, f: Field, body: Body)
    requires ValidSchema(schema) && BodyFits(f.kind, body)
    requires f.kind.Message? ==> f.kind.index < |schema|
    requires DecodeValue(schema, f.kind, body).Ok?
    ensures ValueFits(schema, f, DecodeValue(schema, f.kind, body).value) <==> Ranged(schema, f, body)
    decreases BodySize(body), 2
  {
    hide DecodeFrom, RangedFrom;
    if Scalar(f.kind) {
      ScalarTypedExactly(schema, f, body);
    } else if f.kind.Message? {
      MessageTypedExactly(schema, f.kind.index, body.data);
    }
  }

  lemma PutTyped(schema: Schema, f: Field, slot: Slot, v: Value)
    requires slot.Many? == f.repeated && (f.kind.Enum? ==> v.Undefined?)
    requires f.kind.Message? || f.kind.Enum? || !v.Undefined?
    requires f.kind.Message? ==> v.Msg?
    ensures WellTypedSlot(schema, f, Put(slot, v)) <==>
              ValueFits(schema, f, v) && (f.repeated ==> WellTypedSlot(schema, f, slot))
  {
    if slot.Many? {
      ManyTyped(schema, f, slot.vs, v);
    }
  }

  lemma ManyTyped(schema: Schema, f: Field, vs: seq<Value>, v: Value)
    requires f.repeated
    ensures WellTypedSlot(schema, f, Many(vs + [v])) <==> WellTypedSlot(schema, f, Many(vs)) && WellTyped(schema, f.kind, v)
  {
    hide WellTyped;
    var all := vs + [v];
    if WellTypedSlot(schema, f, Many(all)) {
      assert all[|vs|] == v;
      assert forall k | 0 <= k < |vs| :: vs[k] == all[k];
    }
  }

  lemma DecodedKind(schema: Schema, kind: Kind, body: Body)
    requires ValidSchema(schema) && BodyFits(kind, body)
    requires kind.Message? ==> kind.index < |schema|
    requires DecodeValue(schema, kind, body).Ok?
    ensures var v := DecodeValue(schema, kind, body).value;
            (kind.Enum? <==> v.Undefined?) && (kind.Message? <==> v.Msg?)
  {
    hide Decode, FromLittleEndian, DecodeZigZag32, DecodeZigZag64;
  }

  /** What `ok` says. */
  predicate Tracks(schema: Schema, fields: Fields, slots: Slots, ok: seq<bool>) {
    |ok| == |fields| == |slots| && forall i | 0 <= i < |fields| :: ok[i] <==> WellTypedSlot(schema, fields[i], slots[i])
  }

  lemma {:induction false} LoopTypedExactly(schema: Schema, fields: Fields, s: seq<byte>, slots: Slots, ok: seq<bool>)
    requires ValidSchema(schema) && ValidFields(schema, fields) && Shaped(fields, slots)
    requires Tracks(schema, fields, slots, ok) && DecodeFrom(schema, fields, s, slots).Ok?
    ensures WellTypedSlots(schema, fields, DecodeFrom(schema, fields, s, slots).value) <==> RangedFrom(schema, fields, s, ok)
    decreases |s|, 0
  {
    hide ReadRecord, Target, WellTypedSlot, DecodeValue, BodySize, Ranged, Put, ValueFits;
    if s != [] {
      var r := ReadRecord(fields, s).value;
      var i := Target(fields, r.0.number, r.0.wire);
      var next := Assign(schema, fields, slots, r.0).value;
      var ok' := ok;
      if i < |fields| {
        var f, v := fields[i], DecodeValue(schema, fields[i].kind, r.0.body).value;
        ValueTypedExactly(schema, f, r.0.body);
        DecodedKind(schema, f.kind, r.0.body);
        PutTyped(schema, f, slots[i], v);
        ok' := ok[i := Ranged(schema, f, r.0.body) && (f.repeated ==> ok[i])];
      }
      LoopTypedExactly(schema, fields, After(s, r.1), next, ok');
    }
  }

  lemma DefaultTyped(schema: Schema, f: Field)
    ensures WellTypedSlot(schema, f, Default(f))
  {
  }

  /** A decoded message is well typed exactly when the records that count are in range. */
  lemma {:induction false} MessageTypedExactly(schema: Schema, t: nat, s: seq<byte>)
    requires ValidSchema(schema) && t < |schema| && Decode(schema, t, s).Ok?
    ensures WellTypedSlots(schema, schema[t], Decode(schema, t, s).value) <==> InRange(schema, t, s)
    decreases |s|, 1
  {
    hide DecodeFrom, RangedFrom, WellTypedSlot, Default;
    var fields := schema[t];
    forall i | 0 <= i < |fields| ensures WellTypedSlot(schema, fields[i], Defaults(fields)[i]) {
      DefaultTyped(schema, fields[i]);
    }
    LoopTypedExactly(schema, fields, s, Defaults(fields), seq(|fields|, _ => true));
  }

  // ---- the law -----------------------------------------------------------------------------------

  /** For every byte string in range, whoever wrote it and in whatever order: what it decodes to
      is encoded without a throw and decodes to the same message again. */
  lemma Redecodes(schema: Schema, t: nat, s: seq<byte>)
    requires ValidSchema(schema) && t < |schema| && InRange(schema, t, s) && Decode(schema, t, s).Ok?
    ensures WellTypedSlots(schema, schema[t], Decode(schema, t, s).value)
    ensures var m := Decode(schema, t, s).value;
            && TryEncode(schema, t, m).Ok?
            && !SlotsThrow(schema, schema[t], m)
            && (FitsSlots(schema, schema[t], m) ==> Decode(schema, t, TryEncode(schema, t, m).value) == Ok(m))
  {
    hide Decode, Encode, WellTypedSlots, FaithfulSlots, SlotsThrow, FitsSlots, InRange;
    var m := Decode(schema, t, s).value;
    MessageTypedExactly(schema, t, s);
    DecodedFaithful(schema, t, s);
    FaithfulSlotsEncode(schema, schema[t], m);
    if FitsSlots(schema, schema[t], m) { RoundTripExactly(schema, t, m); }
  }

  // ---- outside the range ---------------------------------------------------------------------------

  const TOO_LARGE: nat := 0x100_0000_0000

  /** The record of field 1 with the varint 2^40. */
  function TooLarge(): seq<byte> { VarintBytes(8) + VarintBytes(TOO_LARGE) }

  /** An `int32` field takes any varint up to 2^53: 2^40 decodes as such, and written again it
      is 0. */
  lemma OverflowLost()
    ensures Decode(NEGATIVE, 0, TooLarge()) == Ok([One(Num(TOO_LARGE))])
    ensures !WellTyped(NEGATIVE, Int32, Num(TOO_LARGE))
    ensures ReadVarint(VarintBytes(ToUint32(TOO_LARGE))) == Got(0, 1)
  {
    var fields, s := NEGATIVE[0], TooLarge();
    TooLargeReads();
    AssignTooLarge();
    ZeroWritten();
    hide ReadRecord, ReadVarint, VarintBytes, TooLarge, Assign, Defaults;
    assert After(s, |s|) == [];
    assert DecodeFrom(NEGATIVE, fields, [], [One(Num(TOO_LARGE))]) == Ok([One(Num(TOO_LARGE))]);
  }

  lemma AssignTooLarge()
    ensures Assign(NEGATIVE, NEGATIVE[0], Defaults(NEGATIVE[0]), Record(1, 0, Body.Scalar(TOO_LARGE))) ==
              Ok([One(Num(TOO_LARGE))])
  {
    hide Target;
    assert Defaults(NEGATIVE[0]) == [One(Num(0))];
    assert Target(NEGATIVE[0], 1, 0) == 0 by { assert NEGATIVE[0][0] == Field(1, false, Int32); }
    assert [One(Num(0))][0 := One(Num(TOO_LARGE))] == [One(Num(TOO_LARGE))];
  }

  predicate TooLargeRecord(s: seq<byte>) {
    s != [] && ReadRecord(NEGATIVE[0], s) == Ok((Record(1, 0, Body.Scalar(TOO_LARGE)), |s|))
  }

  lemma TooLargeReads()
    ensures TooLargeRecord(TooLarge())
  {
    hide ReadVarint, VarintBytes;
    var tag, n := VarintBytes(8), VarintBytes(TOO_LARGE);
    ReadAfterWrite(8, n);
    ReadAfterWrite(TOO_LARGE, []);
    assert (tag + n)[|tag|..] == n && n + [] == n;
    assert WireType(NEGATIVE[0][0].kind) == 0;
  }

  lemma ZeroWritten()
    ensures ReadVarint(VarintBytes(ToUint32(TOO_LARGE))) == Got(0, 1)
  {
    ReadAfterWrite(0, []);
    assert VarintBytes(0) + [] == VarintBytes(0);
  }
}
