/** What a single record decodes to, in plain arithmetic on its bytes: one law per wire type,
    with the inputs that are refused and the ones that are silently cut. */
module ProtobufFields {
  import opened Bits
  import opened Varint
  import opened Protobuf
  import opened ProtobufRoundTrip
  import opened ProtobufRedecode

  // ---- one record -------------------------------------------------------------------------------

  /** The tag of field `id` with wire type `w`, and then the payload. */
  function Tagged(id: nat, w: nat, payload: seq<byte>): seq<byte> { VarintBytes(8 * id + w) + payload }

  lemma TagSplits(id: nat, w: nat, payload: seq<byte>)
    requires 1 <= id < ID_LIMIT && w < 8
    ensures var s := Tagged(id, w, payload);
            && ReadVarint(s).Got? && s[ReadVarint(s).length..] == payload
            && NumberToInt32(ReadVarint(s).value) / 8 == id && NumberToInt32(ReadVarint(s).value) % 8 == w
  {
    hide ReadVarint, VarintBytes;
    ReadAfterWrite(8 * id + w, payload);
    EuclideanUnique(8 * id + w, 8, id, w);
  }

  lemma UsesField(fields: Fields, i: nat)
    requires i < |fields|
    ensures Uses(fields, WireType(fields[i].kind))
  {
  }

  lemma DecodeOneRecord(schema: Schema, t: nat, s: seq<byte>, rec: Record, end: nat)
    requires ValidSchema(schema) && t < |schema| && s != [] && end >= |s|
    requires ReadRecord(schema[t], s) == Ok((rec, end))
    ensures rec.body.Scalar? <==> rec.wire == 0
    ensures Decode(schema, t, s) == Assign(schema, schema[t], Defaults(schema[t]), rec)
  {
    hide ReadRecord, Assign;
    var fields, next := schema[t], Assign(schema, schema[t], Defaults(schema[t]), rec);
    assert After(s, end) == [];
    if next.Ok? { assert DecodeFrom(schema, fields, [], next.value) == Ok(next.value); }
  }

  lemma TargetIs(schema: Schema, fields: Fields, i: nat)
    requires ValidFields(schema, fields) && i < |fields|
    ensures Target(fields, fields[i].id, WireType(fields[i].kind)) == i
  {
    hide WireType;
  }

  /** The defaults, with one value put into slot `i`. */
  function With(fields: Fields, i: nat, v: Value): Slots
    requires i < |fields|
  {
    Defaults(fields)[i := if fields[i].repeated then Many([v]) else One(v)]
  }

  lemma PutIntoDefault(f: Field, v: Value)
    ensures Put(Default(f), v) == if f.repeated then Many([v]) else One(v)
  {
    assert [] + [v] == [v];
  }

  lemma AssignToField(schema: Schema, fields: Fields, i: nat, body: Body)
    requires ValidSchema(schema) && ValidFields(schema, fields) && i < |fields| && BodyFits(fields[i].kind, body)
    ensures var v := DecodeValue(schema, fields[i].kind, body);
            Assign(schema, fields, Defaults(fields), Record(fields[i].id, WireType(fields[i].kind), body)) ==
            if v.Err? then Err(v.error) else Ok(With(fields, i, v.value))
  {
    hide DecodeValue, WireType, Default;
    TargetIs(schema, fields, i);
    var v := DecodeValue(schema, fields[i].kind, body);
    if v.Ok? { PutIntoDefault(fields[i], v.value); }
  }

  // ---- an empty buffer ------------------------------------------------------------------------------

  /** What a field is when nothing was sent. */
  lemma EmptyBuffer(schema: Schema, t: nat, i: nat)
    requires ValidSchema(schema) && t < |schema| && i < |schema[t]|
    ensures Decode(schema, t, []).Ok? && |Decode(schema, t, []).value| == |schema[t]|
    ensures var f, slot := schema[t][i], Decode(schema, t, []).value[i];
            if f.repeated then slot == Many([])
            else match f.kind
              case Bool => slot == One(Truth(false))
              case Int32 | Uint32 | Sint32 | Int64 | Uint64 | Sint64 => slot == One(Num(0))
              case Fixed32 | Sfixed32 | Fixed64 | Sfixed64 => slot == One(Num(0))
              case Float => slot == One(Octets([0, 0, 0, 0]))
              case Double => slot == One(Octets([0, 0, 0, 0, 0, 0, 0, 0]))
              case Text | Bytes => slot == One(Octets([]))
              case Message(_) | Enum => slot == One(Undefined)
  {
  }

  // ---- varints ----------------------------------------------------------------------------------------

  predicate VarintKind(kind: Kind) {
    kind.Bool? || kind.Int32? || kind.Uint32? || kind.Sint32? || kind.Int64? || kind.Uint64? || kind.Sint64? || kind.Enum?
  }

  /** The kinds that go through a JavaScript number. */
  predicate Narrow(kind: Kind) { kind.Bool? || kind.Int32? || kind.Uint32? || kind.Sint32? }

  function Unzigzag(z: nat): int { if z % 2 == 0 then z / 2 else -1 - z / 2 }

  /** What the varint `n` means: 32-bit zigzag sees it modulo 2^32, everything else as it is. */
  function Meaning(kind: Kind, n: nat): Value {
    match kind
    case Bool => Truth(n != 0)
    case Sint32 => Num(Unzigzag(n % TWO_32))
    case Sint64 => Num(Unzigzag(n))
    case Enum => Undefined
    case _ => Num(n)
  }

  lemma ZigZag32Reduces(n: nat)
    ensures DecodeZigZag32(n) == Unzigzag(n % TWO_32)
  {
    hide Xor, And, Pow2;
    assert ToInt32(n % TWO_32) == ToInt32(n) && ToUint32(n % TWO_32) == ToUint32(n);
    ZigZag32Decode(n % TWO_32);
  }

  lemma VarintMeans(schema: Schema, kind: Kind, n: nat)
    requires ValidSchema(schema) && VarintKind(kind)
    ensures DecodeValue(schema, kind, Body.Scalar(n)) ==
              if Narrow(kind) && n >= TWO_53 then Err(UnsafeInteger) else Ok(Meaning(kind, n))
  {
    hide DecodeZigZag32, DecodeZigZag64;
    if kind.Sint32? { ZigZag32Reduces(n); }
    if kind.Sint64? { Unzigzag64(n); }
  }

  /** A field of a varint kind takes every varint, except that the kinds that go through a number
      refuse exactly those from 2^53 on. */
  lemma VarintField(schema: Schema, t: nat, i: nat, n: nat)
    requires ValidSchema(schema) && t < |schema| && i < |schema[t]|
    requires schema[t][i].id < ID_LIMIT && VarintKind(schema[t][i].kind)
    ensures var f := schema[t][i];
            Decode(schema, t, Tagged(f.id, 0, VarintBytes(n))) ==
            if Narrow(f.kind) && n >= TWO_53 then Err(UnsafeInteger) else Ok(With(schema[t], i, Meaning(f.kind, n)))
  {
    hide DecodeValue, Decode, Assign, NumberToInt32, ReadVarint, VarintBytes, Target, With, ValidSchema, Uses;
    var fields, f := schema[t], schema[t][i];
    var s := Tagged(f.id, 0, VarintBytes(n));
    SchemaFields(schema, t);
    TagSplits(f.id, 0, VarintBytes(n));
    ReadAfterWrite(n, []);
    assert VarintBytes(n) + [] == VarintBytes(n);
    UsesField(fields, i);
    var rec := Record(f.id, 0, Body.Scalar(n));
    assert ReadRecord(fields, s) == Ok((rec, |s|));
    DecodeOneRecord(schema, t, s, rec, |s|);
    AssignToField(schema, fields, i, Body.Scalar(n));
    VarintMeans(schema, f.kind, n);
  }

  lemma SchemaFields(schema: Schema, t: nat)
    requires ValidSchema(schema) && t < |schema|
    ensures ValidFields(schema, schema[t]) && forall i | 0 <= i < |schema[t]| :: 1 <= schema[t][i].id
  {
  }

  // ---- lengths ----------------------------------------------------------------------------------------

  /** A string or byte field whose bytes run to the end of the buffer: a length that promises more
      than there is is cut silently, and one from 2^53 on is refused. */
  lemma LengthField(schema: Schema, t: nat, i: nat, len: nat, data: seq<byte>)
    requires ValidSchema(schema) && t < |schema| && i < |schema[t]| && |data| <= len
    requires schema[t][i].id < ID_LIMIT && (schema[t][i].kind.Text? || schema[t][i].kind.Bytes?)
    ensures Decode(schema, t, Tagged(schema[t][i].id, 2, VarintBytes(len) + data)) ==
            if len >= TWO_53 then Err(UnsafeInteger) else Ok(With(schema[t], i, Octets(data)))
  {
    hide Decode, Assign, NumberToInt32, ReadVarint, VarintBytes, Target, With, ValidSchema, Uses;
    var fields, f := schema[t], schema[t][i];
    var payload := VarintBytes(len) + data;
    var s := Tagged(f.id, 2, payload);
    SchemaFields(schema, t);
    TagSplits(f.id, 2, payload);
    ReadAfterWrite(len, data);
    UsesField(fields, i);
    var from := ReadVarint(s).length + |VarintBytes(len)|;
    assert s[from..] == data by { assert payload[|VarintBytes(len)|..] == data; }
    if len >= TWO_53 {
      assert ReadRecord(fields, s) == Err(UnsafeInteger);
      FirstRecordFails(schema, t, s);
    } else {
      assert s[from..Clamp(from + len, |s|)] == data;
      var rec := Record(f.id, 2, Blob(data));
      assert ReadRecord(fields, s) == Ok((rec, from + len));
      DecodeOneRecord(schema, t, s, rec, from + len);
      AssignToField(schema, fields, i, Blob(data));
    }
  }

  lemma FirstRecordFails(schema: Schema, t: nat, s: seq<byte>)
    requires ValidSchema(schema) && t < |schema| && s != [] && ReadRecord(schema[t], s).Err?
    ensures Decode(schema, t, s) == Err(ReadRecord(schema[t], s).error)
  {
    hide ReadRecord;
  }

  // ---- fixed widths -----------------------------------------------------------------------------------

  predicate FixedKind(kind: Kind) {
    kind.Fixed32? || kind.Sfixed32? || kind.Float? || kind.Fixed64? || kind.Sfixed64? || kind.Double?
  }

  function FixedWidth(kind: Kind): nat { if kind.Fixed32? || kind.Sfixed32? || kind.Float? then 4 else 8 }

  /** The number with these bytes, the least significant one first. */
  function Sum4(d: seq<byte>): nat
    requires |d| >= 4
  {
    (d[0] as nat) + 0x100 * (d[1] as nat) + 0x1_0000 * (d[2] as nat) + 0x100_0000 * (d[3] as nat)
  }

  function FixedMeaning(kind: Kind, data: seq<byte>): Value
    requires FixedKind(kind) && |data| == FixedWidth(kind)
  {
    if kind.Float? || kind.Double? then Octets(data)
    else if |data| == 4 then Num(Sum4(data))
    else Num(Sum4(data) + 0x1_0000_0000 * Sum4(data[4..]))
  }

  lemma {:induction false} LittleEndian4(d: seq<byte>)
    requires |d| >= 4
    ensures FromLittleEndian(d) == Sum4(d) + 0x1_0000_0000 * FromLittleEndian(d[4..])
  {
    var d1, d2, d3 := d[1..], d[2..], d[3..];
    assert d1[1..] == d2 && d2[1..] == d3 && d3[1..] == d[4..];
    assert FromLittleEndian(d2) == d[2] + 256 * FromLittleEndian(d3);
    assert FromLittleEndian(d3) == d[3] + 256 * FromLittleEndian(d[4..]);
    assert FromLittleEndian(d1) == d[1] + 256 * FromLittleEndian(d2);
  }

  lemma FixedMeans(schema: Schema, kind: Kind, data: seq<byte>)
    requires ValidSchema(schema) && FixedKind(kind)
    ensures |data| < FixedWidth(kind) ==> DecodeValue(schema, kind, Blob(data)) == Err(OutOfRange)
    ensures |data| == FixedWidth(kind) ==> DecodeValue(schema, kind, Blob(data)) == Ok(FixedMeaning(kind, data))
  {
    hide FromLittleEndian, ValidSchema;
    if |data| == FixedWidth(kind) {
      assert data[..|data|] == data;
      LittleEndian4(data);
      NoBytes();
      if |data| == 4 { assert data[4..] == []; } else {
        LittleEndian4(data[4..]);
        assert data[4..][4..] == [];
      }
    }
  }

  lemma NoBytes()
    ensures FromLittleEndian([]) == 0
  {
  }

  /** A fixed-width field at the end of the buffer: its bytes in little-endian order, and too few of
      them are refused. */
  lemma FixedField(schema: Schema, t: nat, i: nat, data: seq<byte>)
    requires ValidSchema(schema) && t < |schema| && i < |schema[t]|
    requires schema[t][i].id < ID_LIMIT && FixedKind(schema[t][i].kind) && |data| <= FixedWidth(schema[t][i].kind)
    ensures var f := schema[t][i];
            Decode(schema, t, Tagged(f.id, if FixedWidth(f.kind) == 4 then 5 else 1, data)) ==
            if |data| < FixedWidth(f.kind) then Err(OutOfRange) else Ok(With(schema[t], i, FixedMeaning(f.kind, data)))
  {
    hide DecodeValue, Decode, Assign, NumberToInt32, ReadVarint, VarintBytes, Target, With, ValidSchema, Uses, FixedMeaning;
    var fields, f := schema[t], schema[t][i];
    var w := WireType(f.kind);
    assert w == if FixedWidth(f.kind) == 4 then 5 else 1;
    var s := Tagged(f.id, w, data);
    SchemaFields(schema, t);
    TagSplits(f.id, w, data);
    UsesField(fields, i);
    var start, end := ReadVarint(s).length, ReadVarint(s).length + FixedWidth(f.kind);
    assert s[start..Clamp(end, |s|)] == data;
    var rec := Record(f.id, w, Blob(data));
    assert ReadRecord(fields, s) == Ok((rec, end));
    DecodeOneRecord(schema, t, s, rec, end);
    AssignToField(schema, fields, i, Blob(data));
    FixedMeans(schema, f.kind, data);
  }

  // ---- inputs at the edge -----------------------------------------------------------------------------

  const ALL_ONES: nat := 0xFFFF_FFFF_FFFF_FFFF

  lemma AllOnesBytes()
    ensures VarintBytes(ALL_ONES) == [255, 255, 255, 255, 255, 255, 255, 255, 255, 1]
  {
    assert VarintBytes(0x1) == [1];
    assert VarintBytes(0xFF) == [255] + VarintBytes(0x1);
    assert VarintBytes(0x7FFF) == [255] + VarintBytes(0xFF);
    assert VarintBytes(0x3F_FFFF) == [255] + VarintBytes(0x7FFF);
    assert VarintBytes(0x1FFF_FFFF) == [255] + VarintBytes(0x3F_FFFF);
    assert VarintBytes(0xF_FFFF_FFFF) == [255] + VarintBytes(0x1FFF_FFFF);
    assert VarintBytes(0x7FF_FFFF_FFFF) == [255] + VarintBytes(0xF_FFFF_FFFF);
    assert VarintBytes(0x3_FFFF_FFFF_FFFF) == [255] + VarintBytes(0x7FF_FFFF_FFFF);
    assert VarintBytes(0x1FF_FFFF_FFFF_FFFF) == [255] + VarintBytes(0x3_FFFF_FFFF_FFFF);
    assert VarintBytes(ALL_ONES) == [255] + VarintBytes(0x1FF_FFFF_FFFF_FFFF);
  }

  const INT32_FIELD: Schema := [[Field(1, false, Int32)]]

  /** The way other encoders write the `int32` -1, in ten bytes, is refused. */
  lemma ForeignMinusOne()
    ensures Decode(INT32_FIELD, 0, [8, 255, 255, 255, 255, 255, 255, 255, 255, 255, 1]) == Err(UnsafeInteger)
  {
    hide Decode;
    AllOnesBytes();
    assert VarintBytes(8) == [8];
    VarintField(INT32_FIELD, 0, 0, ALL_ONES);
    assert Tagged(1, 0, VarintBytes(ALL_ONES)) == [8, 255, 255, 255, 255, 255, 255, 255, 255, 255, 1];
  }
}
