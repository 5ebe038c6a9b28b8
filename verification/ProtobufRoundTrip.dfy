/** Which messages survive `decode(encode(m))`, and what decoding two encodings back to
    back yields. */
module ProtobufRoundTrip {
  import opened Bits
  import opened Varint
  import opened Protobuf
  import opened ProtobufRecords

  const ID_LIMIT: nat := 0x1000_0000

  // ---- conditions on messages ------------------------------------------------------------

  /** What the codec can carry: no negative number in a field without zigzag, no enum value,
      and nothing but the default in a field numbered `2^28` or above. */
  predicate Faithful(schema: Schema, kind: Kind, v: Value)
    decreases v
  {
    match kind
    case Int32 | Sfixed32 | Int64 | Sfixed64 => v.Num? ==> v.n >= 0
    case Enum => v.Undefined?
    case Message(t) => v.Msg? ==> t < |schema| && FaithfulSlots(schema, schema[t], v.slots)
    case _ => true
  }

  predicate FaithfulSlots(schema: Schema, fields: Fields, slots: Slots)
    decreases slots
  {
    && |slots| == |fields|
    && forall i | 0 <= i < |slots| :: FaithfulSlot(schema, fields[i], slots[i])
  }

  predicate FaithfulSlot(schema: Schema, f: Field, slot: Slot)
    decreases slot
  {
    if f.id >= ID_LIMIT then slot == Default(f)
    else match slot
      case One(v) => Faithful(schema, f.kind, v)
      case Many(vs) => forall k | 0 <= k < |vs| :: Faithful(schema, f.kind, vs[k])
  }

  /** Every length prefix fits the 32 bits it is written with. */
  predicate Fits(schema: Schema, kind: Kind, v: Value)
    requires WellTyped(schema, kind, v) && !Throws(schema, kind, v)
    decreases v
  {
    match kind
    case Text | Bytes => |v.data| < TWO_32
    case Message(t) => |Encode(schema, schema[t], v.slots)| < TWO_32 && FitsSlots(schema, schema[t], v.slots)
    case _ => true
  }

  predicate FitsSlots(schema: Schema, fields: Fields, slots: Slots)
    requires WellTypedSlots(schema, fields, slots) && !SlotsThrow(schema, fields, slots)
    decreases slots
  {
    forall i | 0 <= i < |slots| :: FitsSlot(schema, fields[i], slots[i])
  }

  predicate FitsSlot(schema: Schema, f: Field, slot: Slot)
    requires WellTypedSlot(schema, f, slot) && !SlotThrows(schema, f, slot)
    decreases slot
  {
    match slot
    case One(v) => v.Undefined? || Fits(schema, f.kind, v)
    case Many(vs) => forall k | 0 <= k < |vs| :: Fits(schema, f.kind, vs[k])
  }

  predicate Codable(schema: Schema, kind: Kind, v: Value): (b: bool)
    ensures b ==> WellTyped(schema, kind, v) && !Throws(schema, kind, v)
  {
    WellTyped(schema, kind, v) && !Throws(schema, kind, v) && Faithful(schema, kind, v) && Fits(schema, kind, v)
  }

  predicate AllCodable(schema: Schema, kind: Kind, vs: seq<Value>): (b: bool)
    ensures b ==> Encodable(schema, kind, vs)
  {
    forall k | 0 <= k < |vs| :: Codable(schema, kind, vs[k])
  }

  predicate CodableSlot(schema: Schema, f: Field, slot: Slot) {
    WellTypedSlot(schema, f, slot) && !SlotThrows(schema, f, slot) && FaithfulSlot(schema, f, slot) && FitsSlot(schema, f, slot)
  }

  predicate CodableSlots(schema: Schema, fields: Fields, slots: Slots) {
    && WellTypedSlots(schema, fields, slots) && !SlotsThrow(schema, fields, slots)
    && FaithfulSlots(schema, fields, slots) && FitsSlots(schema, fields, slots)
  }

  // ---- one record through the wire -------------------------------------------------------

  /** `tag >> 3` is a signed shift: identifiers from `2^28` come back negative. */
  function SeenNumber(id: nat): int { if id < ID_LIMIT then id else id - MAX_ID }

  lemma ShiftedId(id: nat)
    requires id < MAX_ID
    ensures Shl32(id, 3) == ToInt32(8 * id)
    ensures ToInt32(8 * id) == if id < ID_LIMIT then 8 * id else 8 * id - TWO_32
    ensures LowZero(ToInt32(8 * id), 3)
  {
    assert ToInt32(id) == id && Shl(id, 3) == 8 * id;
    var k := if id < ID_LIMIT then id else id - MAX_ID;
    assert ToInt32(8 * id) == 8 * k;
    assert 8 * k / 2 == 4 * k && 4 * k / 2 == 2 * k && 2 * k / 2 == k;
  }

  lemma TagWritten(f: Field)
    requires 1 <= f.id < MAX_ID
    ensures ToUint32(TagValue(f)) == 8 * f.id + WireType(f.kind)
  {
    hide Shl32, LowZero, Or, WireType;
    ShiftedId(f.id);
    var h, w := Shl32(f.id, 3), WireType(f.kind);
    OrTag(h, w);
    assert ToInt32(h) == h && ToInt32(w) == w;
  }

  lemma OrTag(h: int, w: nat)
    requires LowZero(h, 3) && w < 8
    ensures Or(h, w) == h + w
  {
    hide LowZero, Or;
    Pow2Small();
    OrDisjoint(w, h, 3);
    OrCommutes(w, h);
  }

  lemma TagSeen(id: nat, w: nat)
    requires 1 <= id < MAX_ID && w < 8
    ensures NumberToInt32(8 * id + w) / 8 == SeenNumber(id) && NumberToInt32(8 * id + w) % 8 == w
  {
    var tag := 8 * id + w;
    EuclideanUnique(ToInt32(tag), 8, SeenNumber(id), w);
  }

  lemma TagReads(f: Field, payload: seq<byte>)
    requires 1 <= f.id < MAX_ID
    ensures ReadVarint(TagBytes(f) + payload) == Got(8 * f.id + WireType(f.kind), |TagBytes(f)|)
    ensures (TagBytes(f) + payload)[|TagBytes(f)|..] == payload
  {
    hide TagValue, ReadVarint, VarintBytes;
    TagWritten(f);
    ReadAfterWrite(8 * f.id + WireType(f.kind), payload);
  }

  lemma ScalarReads(fields: Fields, f: Field, n: nat)
    requires 1 <= f.id < MAX_ID && WireType(f.kind) == 0 && Uses(fields, 0)
    ensures var s := TagBytes(f) + VarintBytes(n);
            ReadRecord(fields, s) == Ok((Record(SeenNumber(f.id), 0, Scalar(n)), |s|))
  {
    hide ReadVarint, VarintBytes, TagBytes, NumberToInt32, SeenNumber, Uses;
    TagReads(f, VarintBytes(n));
    TagSeen(f.id, 0);
    ReadAfterWrite(n, []);
    assert VarintBytes(n) + [] == VarintBytes(n);
  }

  lemma BlobReads(fields: Fields, f: Field, data: seq<byte>)
    requires 1 <= f.id < MAX_ID && WireType(f.kind) == 2 && Uses(fields, 2) && |data| < TWO_32
    ensures var s := TagBytes(f) + LengthPrefixed(data);
            ReadRecord(fields, s) == Ok((Record(SeenNumber(f.id), 2, Blob(data)), |s|))
  {
    hide ReadVarint, VarintBytes, TagBytes, NumberToInt32, SeenNumber, Uses;
    var s := TagBytes(f) + LengthPrefixed(data);
    TagReads(f, LengthPrefixed(data));
    TagSeen(f.id, 2);
    assert ToUint32(|data|) == |data|;
    ReadAfterWrite(|data|, data);
    var from := |TagBytes(f)| + |VarintBytes(|data|)|;
    assert s[from..from + |data|] == data;
  }

  lemma FixedReads(fields: Fields, f: Field, data: seq<byte>)
    requires 1 <= f.id < MAX_ID && Uses(fields, WireType(f.kind))
    requires (WireType(f.kind) == 5 && |data| == 4) || (WireType(f.kind) == 1 && |data| == 8)
    ensures var s := TagBytes(f) + data;
            ReadRecord(fields, s) == Ok((Record(SeenNumber(f.id), WireType(f.kind), Blob(data)), |s|))
  {
    hide ReadVarint, TagBytes, NumberToInt32, SeenNumber, Uses;
    var s := TagBytes(f) + data;
    TagReads(f, data);
    TagSeen(f.id, WireType(f.kind));
    assert s[|TagBytes(f)|..|s|] == data;
  }

  function ZigZag(n: int): nat { if n >= 0 then 2 * n else -2 * n - 1 }

  /** The record body written for a value the codec can carry. */
  function BodyOf(schema: Schema, kind: Kind, v: Value): (body: Body)
    requires Codable(schema, kind, v) && !kind.Enum?
    ensures BodyFits(kind, body)
  {
    match kind
    case Bool => Scalar(if v.b then 1 else 0)
    case Int32 | Uint32 | Int64 | Uint64 => Scalar(v.n)
    case Sint32 | Sint64 => Scalar(ZigZag(v.n))
    case Float | Double | Text | Bytes => Blob(v.data)
    case Fixed32 | Sfixed32 => Blob(LittleEndian(v.n, 4))
    case Fixed64 | Sfixed64 => Blob(LittleEndian(v.n, 8))
    case Message(t) => Blob(Encode(schema, schema[t], v.slots))
  }

  function RecordOf(schema: Schema, f: Field, v: Value): Record
    requires Codable(schema, f.kind, v) && !f.kind.Enum?
  {
    Record(SeenNumber(f.id), WireType(f.kind), BodyOf(schema, f.kind, v))
  }

  lemma PayloadOfBody(schema: Schema, kind: Kind, v: Value)
    requires Codable(schema, kind, v) && !kind.Enum?
    ensures var body, payload := BodyOf(schema, kind, v), Payload(schema, kind, v);
            && (WireType(kind) == 0 ==> payload == VarintBytes(body.n))
            && (WireType(kind) == 2 ==> payload == LengthPrefixed(body.data) && |body.data| < TWO_32)
            && (WireType(kind) == 5 ==> payload == body.data && |payload| == 4)
            && (WireType(kind) == 1 ==> payload == body.data && |payload| == 8)
  {
    hide VarintBytes, LengthPrefixed, LittleEndian, Encode, EncodeZigZag32, EncodeZigZag64;
    match kind
    case Sint32 => ZigZag32Encode(v.n);
    case Sint64 => ZigZag64(v.n);
    case _ =>
  }

  lemma RecordReads(schema: Schema, fields: Fields, f: Field, v: Value)
    requires 1 <= f.id < MAX_ID && f in fields && !f.kind.Enum? && Codable(schema, f.kind, v)
    ensures ReadRecord(fields, EncodeOne(schema, f, v)) == Ok((RecordOf(schema, f, v), |EncodeOne(schema, f, v)|))
  {
    hide ReadRecord, TagBytes, Payload, VarintBytes, LengthPrefixed, SeenNumber, Codable;
    PayloadOfBody(schema, f.kind, v);
    assert Uses(fields, WireType(f.kind)) by {
      var i :| 0 <= i < |fields| && fields[i] == f;
    }
    assert EncodeOne(schema, f, v) == TagBytes(f) + Payload(schema, f.kind, v);
    var body := BodyOf(schema, f.kind, v);
    if WireType(f.kind) == 0 {
      ScalarReads(fields, f, body.n);
    } else if WireType(f.kind) == 2 {
      BlobReads(fields, f, body.data);
    } else {
      FixedReads(fields, f, body.data);
    }
  }

  // ---- a whole message as records ---------------------------------------------------------

  function ElementRecords(schema: Schema, f: Field, vs: seq<Value>, n: nat): seq<Record>
    requires n <= |vs| && !f.kind.Enum? && AllCodable(schema, f.kind, vs)
  {
    if n == 0 then [] else ElementRecords(schema, f, vs, n - 1) + [RecordOf(schema, f, vs[n - 1])]
  }

  function SlotRecords(schema: Schema, f: Field, slot: Slot): seq<Record>
    requires CodableSlot(schema, f, slot)
  {
    if f.kind.Enum? then []
    else match slot
      case One(v) => if v.Undefined? then [] else CodableOne(schema, f, slot); [RecordOf(schema, f, v)]
      case Many(vs) => CodableMany(schema, f, slot); ElementRecords(schema, f, vs, |vs|)
  }

  lemma CodableOne(schema: Schema, f: Field, slot: Slot)
    requires CodableSlot(schema, f, slot) && slot.One? && !slot.v.Undefined?
    ensures Codable(schema, f.kind, slot.v)
  {
    if f.id >= ID_LIMIT { DefaultFaithful(schema, f); }
  }

  lemma CodableMany(schema: Schema, f: Field, slot: Slot)
    requires CodableSlot(schema, f, slot) && slot.Many?
    ensures AllCodable(schema, f.kind, slot.vs)
  {
  }

  lemma DefaultFaithful(schema: Schema, f: Field)
    ensures Default(f).One? ==> Faithful(schema, f.kind, Default(f).v)
    ensures FaithfulSlot(schema, f, Default(f))
  {
  }

  function MessageRecords(schema: Schema, fields: Fields, slots: Slots, n: nat): seq<Record>
    requires n <= |slots| && CodableSlots(schema, fields, slots)
  {
    if n == 0 then []
    else
      MessageRecords(schema, fields, slots, n - 1) + SlotRecords(schema, fields[n - 1], slots[n - 1])
  }

  lemma ParseOne(schema: Schema, fields: Fields, f: Field, v: Value)
    requires 1 <= f.id < MAX_ID && f in fields && !f.kind.Enum? && Codable(schema, f.kind, v)
    ensures Parse(fields, EncodeOne(schema, f, v)) == Whole([RecordOf(schema, f, v)])
  {
    hide ReadRecord, RecordOf, Parse, Codable;
    RecordReads(schema, fields, f, v);
    var s := EncodeOne(schema, f, v);
    ParseStep(fields, s);
    ParseEmpty(fields);
    assert s[|s|..] == [];
  }

  lemma {:induction false} ParseElements(schema: Schema, fields: Fields, f: Field, vs: seq<Value>, n: nat)
    requires 1 <= f.id < MAX_ID && f in fields && !f.kind.Enum?
    requires n <= |vs| && AllCodable(schema, f.kind, vs)
    ensures Parse(fields, EncodeElements(schema, f, vs, n)) == Whole(ElementRecords(schema, f, vs, n))
    decreases n
  {
    hide Parse, EncodeOne, RecordOf;
    ParseEmpty(fields);
    if n > 0 {
      ParseElements(schema, fields, f, vs, n - 1);
      ParseOne(schema, fields, f, vs[n - 1]);
      ParseConcat(fields, EncodeElements(schema, f, vs, n - 1), EncodeOne(schema, f, vs[n - 1]));
    }
  }

  lemma {:induction false} EnumEncodesNothing(schema: Schema, f: Field, vs: seq<Value>, n: nat)
    requires f.kind.Enum? && n <= |vs| && Encodable(schema, f.kind, vs)
    ensures EncodeElements(schema, f, vs, n) == []
    decreases n
  {
    if n > 0 { EnumEncodesNothing(schema, f, vs, n - 1); }
  }

  lemma ParseSlot(schema: Schema, fields: Fields, f: Field, slot: Slot)
    requires 1 <= f.id < MAX_ID && f in fields && CodableSlot(schema, f, slot)
    ensures Parse(fields, EncodeSlot(schema, f, slot)) == Whole(SlotRecords(schema, f, slot))
  {
    hide Parse, EncodeElements, ElementRecords, RecordOf;
    ParseEmpty(fields);
    match slot
    case One(v) =>
      if !v.Undefined? && !f.kind.Enum? {
        CodableOne(schema, f, slot);
        ParseOne(schema, fields, f, v);
      }
    case Many(vs) =>
      if f.kind.Enum? {
        EnumEncodesNothing(schema, f, vs, |vs|);
      } else {
        CodableMany(schema, f, slot);
        ParseElements(schema, fields, f, vs, |vs|);
      }
  }

  lemma CodableSlotAt(schema: Schema, fields: Fields, slots: Slots, i: nat)
    requires CodableSlots(schema, fields, slots) && i < |slots|
    ensures CodableSlot(schema, fields[i], slots[i])
  {
  }

  /** The encoding of a carried message is exactly the wire form of its records. */
  lemma {:induction false} EncodeParses(schema: Schema, fields: Fields, slots: Slots, n: nat)
    requires ValidFields(schema, fields) && CodableSlots(schema, fields, slots) && n <= |slots|
    ensures Parse(fields, EncodeFirst(schema, fields, slots, n)) == Whole(MessageRecords(schema, fields, slots, n))
    decreases n
  {
    hide Parse, EncodeSlot, SlotRecords, CodableSlot;
    ParseEmpty(fields);
    if n > 0 {
      EncodeParses(schema, fields, slots, n - 1);
      CodableSlotAt(schema, fields, slots, n - 1);
      ParseSlot(schema, fields, fields[n - 1], slots[n - 1]);
      ParseConcat(fields, EncodeFirst(schema, fields, slots, n - 1), EncodeSlot(schema, fields[n - 1], slots[n - 1]));
    }
  }

  // ---- which field a record reaches ---------------------------------------------------------

  lemma TargetOfField(schema: Schema, fields: Fields, j: nat)
    requires ValidFields(schema, fields) && j < |fields|
    ensures Target(fields, SeenNumber(fields[j].id), WireType(fields[j].kind))
         == if fields[j].id < ID_LIMIT then j else |fields|
  {
    hide WireType;
    var i := Target(fields, SeenNumber(fields[j].id), WireType(fields[j].kind));
    assert fields[j].id < ID_LIMIT ==> i < |fields|;
  }

  lemma {:induction false} OnlyConcat(fields: Fields, x: seq<Record>, y: seq<Record>, i: nat)
    ensures Only(fields, x + y, i) == Only(fields, x, i) + Only(fields, y, i)
    decreases |x|
  {
    hide Target, Only;
    if x == [] {
      OnlyNone(fields, i);
      assert x + y == y;
    } else {
      assert (x + y)[1..] == x[1..] + y;
      OnlyConcat(fields, x[1..], y, i);
      OnlyStep(fields, x, i);
      OnlyStep(fields, x + y, i);
      var u, v := Only(fields, x[1..], i), Only(fields, y, i);
      assert [x[0]] + (u + v) == [x[0]] + u + v;
    }
  }

  predicate AllFrom(recs: seq<Record>, number: int, wire: nat) {
    forall k | 0 <= k < |recs| :: recs[k].number == number && recs[k].wire == wire
  }

  lemma {:induction false} OnlyUniform(fields: Fields, recs: seq<Record>, number: int, wire: nat, i: nat)
    requires AllFrom(recs, number, wire)
    ensures Only(fields, recs, i) == if Target(fields, number, wire) == i then recs else []
    decreases |recs|
  {
    hide Target;
    if recs != [] {
      OnlyUniform(fields, recs[1..], number, wire, i);
      assert recs == [recs[0]] + recs[1..];
    }
  }

  lemma {:induction false} ElementsFrom(schema: Schema, f: Field, vs: seq<Value>, n: nat)
    requires n <= |vs| && !f.kind.Enum? && AllCodable(schema, f.kind, vs)
    ensures AllFrom(ElementRecords(schema, f, vs, n), SeenNumber(f.id), WireType(f.kind))
    decreases n
  {
    hide BodyOf;
    if n > 0 { ElementsFrom(schema, f, vs, n - 1); }
  }

  lemma SlotFrom(schema: Schema, f: Field, slot: Slot)
    requires CodableSlot(schema, f, slot)
    ensures AllFrom(SlotRecords(schema, f, slot), SeenNumber(f.id), WireType(f.kind))
  {
    hide BodyOf, ElementRecords;
    if slot.Many? && !f.kind.Enum? {
      CodableMany(schema, f, slot);
      ElementsFrom(schema, f, slot.vs, |slot.vs|);
    }
  }

  /** The records of slot `j` all reach field `j`, or nothing if its number is too large. */
  lemma SlotReaches(schema: Schema, fields: Fields, slot: Slot, j: nat, i: nat)
    requires ValidFields(schema, fields) && j < |fields| && i < |fields| && CodableSlot(schema, fields[j], slot)
    ensures Only(fields, SlotRecords(schema, fields[j], slot), i)
         == if i == j && fields[j].id < ID_LIMIT then SlotRecords(schema, fields[j], slot) else []
  {
    hide SlotRecords, Target, CodableSlot, Only, WireType, SeenNumber, AllFrom, ValidFields;
    SlotFrom(schema, fields[j], slot);
    TargetOfField(schema, fields, j);
    OnlyUniform(fields, SlotRecords(schema, fields[j], slot), SeenNumber(fields[j].id), WireType(fields[j].kind), i);
  }

  /** Of a message's records, field `i` gets those of slot `i`, or none if its number is too large. */
  lemma {:induction false} OnlyOfMessage(schema: Schema, fields: Fields, slots: Slots, n: nat, i: nat)
    requires ValidFields(schema, fields) && CodableSlots(schema, fields, slots) && n <= |slots| && i < |slots|
    ensures CodableSlot(schema, fields[i], slots[i])
    ensures Only(fields, MessageRecords(schema, fields, slots, n), i)
         == if i < n && fields[i].id < ID_LIMIT then SlotRecords(schema, fields[i], slots[i]) else []
    decreases n
  {
    hide SlotRecords, CodableSlot, CodableSlots, Only, ValidFields;
    CodableSlotsMeans(schema, fields, slots);
    CodableSlotAt(schema, fields, slots, i);
    if n == 0 {
      OnlyNone(fields, i);
    } else {
      var j := n - 1;
      CodableSlotAt(schema, fields, slots, j);
      OnlyOfMessage(schema, fields, slots, j, i);
      OnlyConcat(fields, MessageRecords(schema, fields, slots, j), SlotRecords(schema, fields[j], slots[j]), i);
      SlotReaches(schema, fields, slots[j], j, i);
    }
  }

  // ---- decoding what was encoded --------------------------------------------------------------

  /** Reading slot `y`'s records on top of `x`: repeated elements append, a present singular
      value replaces, an absent one leaves `x`. */
  function Overlay(x: Slot, y: Slot): Slot {
    match y
    case One(v) => if v.Undefined? then x else y
    case Many(vs) => if x.Many? then Many(x.vs + vs) else y
  }

  lemma ScalarDecodes(schema: Schema, kind: Kind, v: Value)
    requires ValidSchema(schema) && Codable(schema, kind, v) && !kind.Enum? && !kind.Message?
    ensures DecodeValue(schema, kind, BodyOf(schema, kind, v)) == Ok(v)
  {
    hide LittleEndian, FromLittleEndian, EncodeZigZag32, DecodeZigZag32, EncodeZigZag64, DecodeZigZag64, Pow2;
    Pow2Constants();
    match kind
    case Sint32 => ZigZag32(v.n); ZigZag32Encode(v.n);
    case Sint64 => ZigZag64(v.n);
    case Fixed32 | Sfixed32 =>
      FixedRoundTrip(v.n, 4);
      assert LittleEndian(v.n, 4)[..4] == LittleEndian(v.n, 4);
    case Fixed64 | Sfixed64 =>
      FixedRoundTrip(v.n, 8);
      assert LittleEndian(v.n, 8)[..8] == LittleEndian(v.n, 8);
    case Float => assert v.data[..4] == v.data;
    case Double => assert v.data[..8] == v.data;
    case _ =>
  }

  lemma {:induction false} ValueRoundTrip(schema: Schema, kind: Kind, v: Value)
    requires ValidSchema(schema) && Codable(schema, kind, v) && !kind.Enum?
    ensures DecodeValue(schema, kind, BodyOf(schema, kind, v)) == Ok(v)
    decreases v
  {
    if kind.Message? {
      var fields := schema[kind.index];
      assert CodableSlots(schema, fields, v.slots);
      SlotsRoundTrip(schema, kind.index, v.slots);
    } else {
      ScalarDecodes(schema, kind, v);
    }
  }

  lemma {:induction false} FoldConcat(schema: Schema, f: Field, slot: Slot, x: seq<Record>, y: seq<Record>)
    requires ValidSchema(schema) && Reaches(f, x) && Reaches(f, y)
    requires f.kind.Message? ==> f.kind.index < |schema|
    ensures Reaches(f, x + y)
    ensures var mid := FieldFold(schema, f, slot, x);
            FieldFold(schema, f, slot, x + y) == if mid.Err? then mid else FieldFold(schema, f, mid.value, y)
    decreases |x|
  {
    hide DecodeValue;
    if x == [] {
      assert x + y == y;
    } else {
      assert (x + y)[1..] == x[1..] + y;
      var v := DecodeValue(schema, f.kind, x[0].body);
      if v.Ok? { FoldConcat(schema, f, Put(slot, v.value), x[1..], y); }
    }
  }

  lemma FoldOne(schema: Schema, f: Field, slot: Slot, v: Value)
    requires ValidSchema(schema) && Codable(schema, f.kind, v) && !f.kind.Enum?
    requires f.kind.Message? ==> f.kind.index < |schema|
    requires DecodeValue(schema, f.kind, BodyOf(schema, f.kind, v)) == Ok(v)
    ensures Reaches(f, [RecordOf(schema, f, v)])
    ensures FieldFold(schema, f, slot, [RecordOf(schema, f, v)]) == Ok(Put(slot, v))
  {
    hide DecodeValue, BodyOf;
    var recs := [RecordOf(schema, f, v)];
    assert recs[1..] == [];
    assert FieldFold(schema, f, Put(slot, v), []) == Ok(Put(slot, v));
  }

  lemma {:induction false} FoldElements(schema: Schema, f: Field, slot: Slot, vs: seq<Value>, n: nat)
    requires ValidSchema(schema) && slot.Many? && !f.kind.Enum?
    requires n <= |vs| && AllCodable(schema, f.kind, vs)
    requires f.kind.Message? ==> f.kind.index < |schema|
    ensures Reaches(f, ElementRecords(schema, f, vs, n))
    ensures FieldFold(schema, f, slot, ElementRecords(schema, f, vs, n)) == Ok(Many(slot.vs + vs[..n]))
    decreases vs, 1, n
  {
    hide RecordOf, Codable, DecodeValue, BodyOf;
    if n == 0 {
      assert slot.vs + vs[..0] == slot.vs;
    } else {
      FoldElements(schema, f, slot, vs, n - 1);
      ValueRoundTrip(schema, f.kind, vs[n - 1]);
      var mid := Many(slot.vs + vs[..n - 1]);
      FoldOne(schema, f, mid, vs[n - 1]);
      FoldConcat(schema, f, slot, ElementRecords(schema, f, vs, n - 1), [RecordOf(schema, f, vs[n - 1])]);
      assert slot.vs + vs[..n - 1] + [vs[n - 1]] == slot.vs + vs[..n];
    }
  }

  lemma {:induction false} FoldSlot(schema: Schema, f: Field, x: Slot, y: Slot)
    requires ValidSchema(schema) && CodableSlot(schema, f, y) && x.Many? == f.repeated
    requires f.kind.Message? ==> f.kind.index < |schema|
    ensures Reaches(f, SlotRecords(schema, f, y))
    ensures FieldFold(schema, f, x, SlotRecords(schema, f, y)) == Ok(Overlay(x, y))
    decreases y, 1
  {
    hide RecordOf, ElementRecords, BodyOf, DecodeValue;
    match y
    case One(v) =>
      if !v.Undefined? && !f.kind.Enum? {
        CodableOne(schema, f, y);
        ValueRoundTrip(schema, f.kind, v);
        FoldOne(schema, f, x, v);
      } else if !v.Undefined? {
        EnumNeverCarried(schema, f, y);
      }
    case Many(vs) =>
      if f.kind.Enum? {
        EnumNeverCarried(schema, f, y);
        assert x.vs + vs == x.vs;
      } else {
        CodableMany(schema, f, y);
        FoldElements(schema, f, x, vs, |vs|);
        assert vs[..|vs|] == vs;
      }
  }

  lemma EnumNeverCarried(schema: Schema, f: Field, slot: Slot)
    requires f.kind.Enum? && CodableSlot(schema, f, slot)
    ensures slot == if f.repeated then Many([]) else One(Undefined)
  {
    if f.id < ID_LIMIT {
      match slot
      case One(v) => assert Faithful(schema, f.kind, v);
      case Many(vs) =>
        assert forall v | v in vs :: Faithful(schema, f.kind, v) && WellTyped(schema, f.kind, v);
        assert forall v: Value :: !(Faithful(schema, f.kind, v) && WellTyped(schema, f.kind, v));
        HeadIn(vs);
    }
  }

  lemma HeadIn(vs: seq<Value>)
    ensures vs == [] || vs[0] in vs
  {
  }

  /** Field `i` after decoding the encoding of `slots` on top of `start`. */
  lemma FoldField(schema: Schema, fields: Fields, start: Slot, slots: Slots, i: nat)
    requires ValidSchema(schema) && ValidFields(schema, fields) && CodableSlots(schema, fields, slots) && i < |slots|
    requires start.Many? == fields[i].repeated && (fields[i].id >= ID_LIMIT ==> start == Default(fields[i]))
    ensures var recs := Only(fields, MessageRecords(schema, fields, slots, |slots|), i);
            Reaches(fields[i], recs) && FieldFold(schema, fields[i], start, recs) == Ok(Overlay(start, slots[i]))
    decreases slots, 0
  {
    hide MessageRecords, Only, SlotRecords;
    OnlyOfMessage(schema, fields, slots, |slots|, i);
    if fields[i].id < ID_LIMIT {
      FoldSlot(schema, fields[i], start, slots[i]);
    } else {
      assert slots[i] == Default(fields[i]);
      assert Overlay(start, slots[i]) == start;
    }
  }

  /** A message the codec can carry comes back unchanged. */
  lemma {:induction false} SlotsRoundTrip(schema: Schema, t: nat, slots: Slots)
    requires ValidSchema(schema) && t < |schema| && CodableSlots(schema, schema[t], slots)
    ensures Decode(schema, t, Encode(schema, schema[t], slots)) == Ok(slots)
    decreases slots, 1
  {
    hide Parse, Only, MessageRecords, FieldFold, CodableSlots, EncodeFirst;
    var fields := schema[t];
    CodableSlotsMeans(schema, fields, slots);
    var start, s := Defaults(fields), Encode(schema, fields, slots);
    EncodeParses(schema, fields, slots, |slots|);
    DecodeWhole(schema, fields, s, start);
    var recs := MessageRecords(schema, fields, slots, |slots|);
    forall i | 0 <= i < |fields|
      ensures Reaches(fields[i], Only(fields, recs, i))
      ensures FieldFold(schema, fields[i], start[i], Only(fields, recs, i)) == Ok(slots[i])
    {
      FoldField(schema, fields, start[i], slots, i);
      CodableSlotAt(schema, fields, slots, i);
      OverlayOnDefault(schema, fields[i], slots[i]);
    }
    FieldsIndependent(schema, fields, start, recs);
    var r := AssignAll(schema, fields, start, recs);
    forall i | 0 <= i < |fields| ensures r.value[i] == slots[i] {
      assert Ok(r.value[i]) == Ok(slots[i]);
    }
    assert r.value == slots;
  }

  lemma CodableSlotsMeans(schema: Schema, fields: Fields, slots: Slots)
    requires CodableSlots(schema, fields, slots)
    ensures |slots| == |fields| && WellTypedSlots(schema, fields, slots) && !SlotsThrow(schema, fields, slots)
  {
  }

  lemma OverlayOnDefault(schema: Schema, f: Field, slot: Slot)
    requires CodableSlot(schema, f, slot)
    ensures Overlay(Default(f), slot) == slot
  {
    if slot.Many? { assert [] + slot.vs == slot.vs; }
  }
}
