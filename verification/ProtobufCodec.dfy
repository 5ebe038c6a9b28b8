/** The emitted `encode` and `decode` as the loops they are, against the functions above. */
module ProtobufCodec {
  import opened Bits
  import opened Varint
  import opened Protobuf
  import opened ProtobufTheorems

  // ---- encode -------------------------------------------------------------------------------

  /** The lines `encodeExpression` emits for one value; the nested call is `Type.encode`. */
  method EncodeExpression(schema: Schema, f: Field, v: Value) returns (r: Result<seq<byte>>)
    requires WellTyped(schema, f.kind, v)
    ensures r == if Throws(schema, f.kind, v) then Err(OutOfRange) else Ok(EncodeOne(schema, f, v))
    decreases v, 0
  {
    hide VarintBytes, BigVarintBytes, TagValue, EncodeZigZag32, EncodeZigZag64, LittleEndian, EncodeFirst;
    var tag := EncodeVarint(TagValue(f));
    var payload: seq<byte>;
    match f.kind {
      case Text | Bytes =>
        var len := EncodeVarint(|v.data|);
        payload := len + v.data;
      case Bool => payload := EncodeVarint(if v.b then 1 else 0);
      case Int32 | Uint32 => payload := EncodeVarint(v.n);
      case Sint32 => payload := EncodeVarint(EncodeZigZag32(v.n));
      case Int64 | Uint64 => payload := EncodeVarintBigint(v.n);
      case Sint64 => payload := EncodeVarintBigint(EncodeZigZag64(v.n));
      case Float | Double => payload := v.data;
      case Fixed32 | Sfixed32 => payload := LittleEndian(ToUint32(v.n), 4);
      case Fixed64 | Sfixed64 =>
        if v.n < 0 { return Err(OutOfRange); }
        payload := LittleEndian(v.n, 8);
      case Message(t) =>
        var inner := EncodeMessage(schema, t, v.slots);
        if inner.Err? { return inner; }
        var len := EncodeVarint(|inner.value|);
        payload := len + inner.value;
      case Enum => return Ok([]);
    }
    r := Ok(tag + payload);
  }

  method EncodeField(schema: Schema, f: Field, slot: Slot) returns (r: Result<seq<byte>>)
    requires WellTypedSlot(schema, f, slot)
    ensures r == if SlotThrows(schema, f, slot) then Err(OutOfRange) else Ok(EncodeSlot(schema, f, slot))
    decreases slot, 0
  {
    hide Throws, WellTyped, EncodeOne;
    match slot {
      case One(v) =>
        if v.Undefined? { return Ok([]); }
        r := EncodeExpression(schema, f, v);
      case Many(vs) =>
        var parts: seq<byte> := [];
        for k := 0 to |vs|
          invariant forall j | 0 <= j < k :: !Throws(schema, f.kind, vs[j])
          invariant Encodable(schema, f.kind, vs) ==> parts == EncodeElements(schema, f, vs, k)
        {
          var part := EncodeExpression(schema, f, vs[k]);
          if part.Err? { return part; }
          parts := parts + part.value;
        }
        r := Ok(parts);
    }
  }

  method EncodeMessage(schema: Schema, t: nat, slots: Slots) returns (r: Result<seq<byte>>)
    requires t < |schema| && WellTypedSlots(schema, schema[t], slots)
    ensures r == TryEncode(schema, t, slots)
    decreases slots, 0
  {
    hide SlotThrows, WellTypedSlot, EncodeSlot;
    var fields := schema[t];
    var parts: seq<byte> := [];
    for i := 0 to |fields|
      invariant forall j | 0 <= j < i :: !SlotThrows(schema, fields[j], slots[j])
      invariant !SlotsThrow(schema, fields, slots) ==> parts == EncodeFirst(schema, fields, slots, i)
    {
      var part := EncodeField(schema, fields[i], slots[i]);
      if part.Err? { return part; }
      parts := parts + part.value;
    }
    r := Ok(parts);
  }

  // ---- decode -------------------------------------------------------------------------------

  /** The tag arithmetic on the coerced number. */
  method SplitTag(tag: int) returns (fieldNumber: int, wireType: nat)
    ensures fieldNumber == tag / 8 && wireType == tag % 8
  {
    hide And, Pow2;
    Pow2Small();
    AndMask(tag, 3);
    fieldNumber, wireType := Shr(tag, 3), And(tag, 0x07);
  }

  /** `subarray` from an absolute offset and from the rest of the buffer agree. */
  lemma CutAt(buffer: seq<byte>, start: nat, from: nat, end: nat)
    requires start + from <= |buffer| && from <= end
    ensures buffer[start + from..Clamp(start + end, |buffer|)] == buffer[start..][from..Clamp(end, |buffer| - start)]
  {
  }

  /** One turn of the loop up to its `switch`; the second component is the new offset. */
  method ReadRecordAt(fields: Fields, buffer: seq<byte>, start: nat) returns (r: Result<(Record, nat)>)
    requires start < |buffer|
    ensures var spec := ReadRecord(fields, buffer[start..]);
            r == if spec.Err? then Err(spec.error) else Ok((spec.value.0, start + spec.value.1))
  {
    hide ReadVarint, NumberToInt32, Uses;
    var offset := start;
    ghost var s := buffer[start..];
    var tagResult := DecodeVarint(buffer, offset);
    if tagResult.Missing? { return Err(InvalidVarint); }
    assert ReadVarint(s) == tagResult;
    offset := offset + tagResult.length;
    assert buffer[offset..] == s[tagResult.length..];
    var number, wire := SplitTag(NumberToInt32(tagResult.value));
    if wire == 2 && Uses(fields, 2) {
      var lengthResult := DecodeVarint(buffer, offset);
      if lengthResult.Missing? { return Err(InvalidVarint); }
      if lengthResult.value >= TWO_53 { return Err(UnsafeInteger); }
      offset := offset + lengthResult.length;
      var end := offset + lengthResult.value;
      var value := buffer[offset..Clamp(end, |buffer|)];
      CutAt(buffer, start, offset - start, end - start);
      return Ok((Record(number, wire, Blob(value)), end));
    }
    if wire == 0 && Uses(fields, 0) {
      var valueResult := DecodeVarint(buffer, offset);
      if valueResult.Missing? { return Err(InvalidVarint); }
      return Ok((Record(number, wire, Scalar(valueResult.value)), offset + valueResult.length));
    }
    if wire == 5 && Uses(fields, 5) {
      CutAt(buffer, start, offset - start, offset - start + 4);
      return Ok((Record(number, wire, Blob(buffer[offset..Clamp(offset + 4, |buffer|)])), offset + 4));
    }
    if wire == 1 && Uses(fields, 1) {
      CutAt(buffer, start, offset - start, offset - start + 8);
      return Ok((Record(number, wire, Blob(buffer[offset..Clamp(offset + 8, |buffer|)])), offset + 8));
    }
    r := Err(UnsupportedWireType);
  }

  /** `varintToNumber`: past the safe integers it throws. */
  method VarintToNumber(value: nat) returns (r: Result<nat>)
    ensures r == if value < TWO_53 then Ok(value) else Err(UnsafeInteger)
  {
    if value > TWO_53 - 1 { return Err(UnsafeInteger); }
    r := Ok(value);
  }

  /** The right-hand side `decodeValueExpression` emits; the nested call is `Type.decode`. */
  method DecodeExpression(schema: Schema, kind: Kind, body: Body) returns (r: Result<Value>)
    requires ValidSchema(schema) && BodyFits(kind, body)
    requires kind.Message? ==> kind.index < |schema|
    ensures r == DecodeValue(schema, kind, body)
    decreases BodySize(body), 2
  {
    hide Decode, DecodeZigZag32, DecodeZigZag64, FromLittleEndian;
    match kind {
      case Text | Bytes => r := Ok(Octets(body.data));
      case Bool =>
        var n := VarintToNumber(body.n);
        if n.Err? { return Err(n.error); }
        r := Ok(Truth(n.value != 0));
      case Int32 | Uint32 =>
        var n := VarintToNumber(body.n);
        if n.Err? { return Err(n.error); }
        r := Ok(Num(n.value));
      case Sint32 =>
        var n := VarintToNumber(body.n);
        if n.Err? { return Err(n.error); }
        r := Ok(Num(DecodeZigZag32(n.value)));
      case Int64 | Uint64 => r := Ok(Num(body.n));
      case Sint64 => r := Ok(Num(DecodeZigZag64(body.n)));
      case Float =>
        if |body.data| < 4 { return Err(OutOfRange); }
        r := Ok(Octets(body.data[..4]));
      case Double =>
        if |body.data| < 8 { return Err(OutOfRange); }
        r := Ok(Octets(body.data[..8]));
      case Fixed32 | Sfixed32 =>
        if |body.data| < 4 { return Err(OutOfRange); }
        r := Ok(Num(FromLittleEndian(body.data[..4])));
      case Fixed64 | Sfixed64 =>
        if |body.data| < 8 { return Err(OutOfRange); }
        r := Ok(Num(FromLittleEndian(body.data[..8])));
      case Message(t) =>
        var m := DecodeMessage(schema, t, body.data);
        r := if m.Ok? then Ok(Msg(m.value)) else Err(m.error);
      case Enum => r := Ok(Undefined);
    }
  }

  /** The loop terminates on every byte string because the offset grows by two at least. */
  method DecodeMessage(schema: Schema, t: nat, buffer: seq<byte>) returns (r: Result<Slots>)
    requires ValidSchema(schema) && t < |schema|
    ensures r == Decode(schema, t, buffer)
    decreases |buffer|, 1
  {
    hide ReadRecord, DecodeValue, Target, Default, ValidSchema;
    var fields := schema[t];
    assert ValidFields(schema, fields) by { SchemaFields(schema, t); }
    var offset, slots := 0, Defaults(fields);
    assert buffer[0..] == buffer;
    while offset < |buffer|
      invariant Shaped(fields, slots)
      invariant Decode(schema, t, buffer) ==
        if offset <= |buffer| then DecodeFrom(schema, fields, buffer[offset..], slots) else Ok(slots)
      decreases |buffer| - offset
    {
      var next := ReadRecordAt(fields, buffer, offset);
      if next.Err? { return Err(next.error); }
      var rec, end := next.value.0, next.value.1;
      assert After(buffer[offset..], end - offset) == if end <= |buffer| then buffer[end..] else [];
      offset := end;
      var i := Target(fields, rec.number, rec.wire);
      if i < |fields| {
        var v := DecodeExpression(schema, fields[i].kind, rec.body);
        if v.Err? { return Err(v.error); }
        slots := slots[i := Put(slots[i], v.value)];
      }
    }
    r := Ok(slots);
  }

  lemma SchemaFields(schema: Schema, t: nat)
    requires ValidSchema(schema) && t < |schema|
    ensures ValidFields(schema, schema[t])
  {
  }
}
