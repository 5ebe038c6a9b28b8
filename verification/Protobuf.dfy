/** The codec that `renderPbTs` emits, as an interpreter over the schema: one message type
    is a list of fields, a message is a list of slots in the same order. */
module Protobuf {
  import opened Bits
  import opened Varint

  // ---- schemas ------------------------------------------------------------------------

  datatype Kind =
    | Bool | Int32 | Uint32 | Sint32 | Int64 | Uint64 | Sint64
    | Float | Double | Fixed32 | Sfixed32 | Fixed64 | Sfixed64
    | Text | Bytes | Message(index: nat) | Enum

  datatype Field = Field(id: nat, repeated: bool, kind: Kind)

  type Fields = seq<Field>
  type Schema = seq<Fields>

  const MAX_ID: nat := 0x2000_0000

  predicate ValidFields(schema: Schema, fields: Fields) {
    && (forall i | 0 <= i < |fields| :: 1 <= fields[i].id < MAX_ID)
    && (forall i | 0 <= i < |fields| :: fields[i].kind.Message? ==> fields[i].kind.index < |schema|)
    && (forall i, j | 0 <= i < j < |fields| :: fields[i].id != fields[j].id)
  }

  predicate ValidSchema(schema: Schema) {
    forall t | 0 <= t < |schema| :: ValidFields(schema, schema[t])
  }

  function WireType(kind: Kind): (w: nat)
    ensures w == 0 || w == 1 || w == 2 || w == 5
  {
    match kind
    case Text | Bytes | Message(_) => 2
    case Double | Fixed64 | Sfixed64 => 1
    case Float | Fixed32 | Sfixed32 => 5
    case _ => 0
  }

  /** Some field of the type travels with wire type `w`: only then is that branch emitted. */
  predicate Uses(fields: Fields, w: nat) {
    exists i :: 0 <= i < |fields| && WireType(fields[i].kind) == w
  }

  // ---- messages -------------------------------------------------------------------------

  /** Strings are their UTF-8 bytes; floats and doubles are their little-endian bit patterns. */
  datatype Value =
    | Undefined
    | Truth(b: bool)
    | Num(n: int)
    | Octets(data: seq<byte>)
    | Msg(slots: seq<Slot>)

  datatype Slot = One(v: Value) | Many(vs: seq<Value>)

  type Slots = seq<Slot>

  predicate InInt32(n: int) { -TWO_31 <= n < TWO_31 }
  predicate InInt64(n: int) { -TWO_63 <= n < TWO_63 }

  /** The values the field's protobuf type has. */
  predicate WellTyped(schema: Schema, kind: Kind, v: Value)
    decreases v
  {
    match kind
    case Bool => v.Truth?
    case Int32 | Sint32 | Sfixed32 | Enum => v.Num? && InInt32(v.n)
    case Uint32 | Fixed32 => v.Num? && 0 <= v.n < TWO_32
    case Int64 | Sint64 | Sfixed64 => v.Num? && InInt64(v.n)
    case Uint64 | Fixed64 => v.Num? && 0 <= v.n < TWO_64
    case Float => v.Octets? && |v.data| == 4
    case Double => v.Octets? && |v.data| == 8
    case Text | Bytes => v.Octets?
    case Message(t) => v.Msg? && t < |schema| && WellTypedSlots(schema, schema[t], v.slots)
  }

  predicate WellTypedSlots(schema: Schema, fields: Fields, slots: Slots)
    decreases slots
  {
    && |slots| == |fields|
    && forall i | 0 <= i < |slots| :: WellTypedSlot(schema, fields[i], slots[i])
  }

  /** Only message and enum fields may be absent. */
  predicate WellTypedSlot(schema: Schema, f: Field, slot: Slot)
    decreases slot
  {
    match slot
    case One(v) => !f.repeated && (WellTyped(schema, f.kind, v) || (v.Undefined? && (f.kind.Message? || f.kind.Enum?)))
    case Many(vs) => f.repeated && forall k | 0 <= k < |vs| :: WellTyped(schema, f.kind, vs[k])
  }

  // ---- encode -------------------------------------------------------------------------

  /** `writeBigUInt64LE` refuses negative numbers; nothing else in `encode` throws. */
  predicate Throws(schema: Schema, kind: Kind, v: Value)
    requires WellTyped(schema, kind, v)
    decreases v
  {
    match kind
    case Sfixed64 => v.n < 0
    case Message(t) => SlotsThrow(schema, schema[t], v.slots)
    case _ => false
  }

  predicate SlotsThrow(schema: Schema, fields: Fields, slots: Slots)
    requires WellTypedSlots(schema, fields, slots)
    decreases slots
  {
    exists i :: 0 <= i < |slots| && SlotThrows(schema, fields[i], slots[i])
  }

  predicate SlotThrows(schema: Schema, f: Field, slot: Slot)
    requires WellTypedSlot(schema, f, slot)
    decreases slot
  {
    match slot
    case One(v) => !v.Undefined? && Throws(schema, f.kind, v)
    case Many(vs) => exists k :: 0 <= k < |vs| && Throws(schema, f.kind, vs[k])
  }

  function TagValue(f: Field): int { Or32(Shl32(f.id, 3), WireType(f.kind)) }

  function TagBytes(f: Field): seq<byte> { VarintBytes(ToUint32(TagValue(f))) }

  function LengthPrefixed(data: seq<byte>): seq<byte> { VarintBytes(ToUint32(|data|)) + data }

  /** What follows the tag. */
  function Payload(schema: Schema, kind: Kind, v: Value): seq<byte>
    requires WellTyped(schema, kind, v) && !Throws(schema, kind, v)
    decreases v, 0
  {
    match kind
    case Bool => VarintBytes(if v.b then 1 else 0)
    case Int32 | Uint32 => VarintBytes(ToUint32(v.n))
    case Sint32 => VarintBytes(ToUint32(EncodeZigZag32(v.n)))
    case Int64 | Uint64 => BigVarintBytes(v.n)
    case Sint64 => BigVarintBytes(EncodeZigZag64(v.n))
    case Float | Double => v.data
    case Fixed32 | Sfixed32 => LittleEndian(ToUint32(v.n), 4)
    case Fixed64 | Sfixed64 => LittleEndian(v.n, 8)
    case Text | Bytes => LengthPrefixed(v.data)
    case Message(t) => LengthPrefixed(Encode(schema, schema[t], v.slots))
    case Enum => []
  }

  function Encode(schema: Schema, fields: Fields, slots: Slots): seq<byte>
    requires WellTypedSlots(schema, fields, slots) && !SlotsThrow(schema, fields, slots)
    decreases slots, 1
  {
    EncodeFirst(schema, fields, slots, |slots|)
  }

  /** The fields before `n`. */
  function EncodeFirst(schema: Schema, fields: Fields, slots: Slots, n: nat): seq<byte>
    requires n <= |slots| && WellTypedSlots(schema, fields, slots) && !SlotsThrow(schema, fields, slots)
    decreases slots, 0, n
  {
    if n == 0 then []
    else EncodeFirst(schema, fields, slots, n - 1) + EncodeSlot(schema, fields[n - 1], slots[n - 1])
  }

  function EncodeSlot(schema: Schema, f: Field, slot: Slot): seq<byte>
    requires WellTypedSlot(schema, f, slot) && !SlotThrows(schema, f, slot)
    decreases slot, 2
  {
    match slot
    case One(v) => if v.Undefined? then [] else EncodeOne(schema, f, v)
    case Many(vs) => EncodeElements(schema, f, vs, |vs|)
  }

  predicate Encodable(schema: Schema, kind: Kind, vs: seq<Value>)
    decreases vs, 0
  {
    forall k | 0 <= k < |vs| :: WellTyped(schema, kind, vs[k]) && !Throws(schema, kind, vs[k])
  }

  function EncodeElements(schema: Schema, f: Field, vs: seq<Value>, n: nat): seq<byte>
    requires n <= |vs| && Encodable(schema, f.kind, vs)
    decreases vs, 1, n
  {
    if n == 0 then [] else EncodeElements(schema, f, vs, n - 1) + EncodeOne(schema, f, vs[n - 1])
  }

  /** One record; an enum field emits nothing. */
  function EncodeOne(schema: Schema, f: Field, v: Value): seq<byte>
    requires WellTyped(schema, f.kind, v) && !Throws(schema, f.kind, v)
    decreases v, 1
  {
    if f.kind.Enum? then [] else TagBytes(f) + Payload(schema, f.kind, v)
  }

  // ---- decode ---------------------------------------------------------------------------

  datatype Error = InvalidVarint | UnsafeInteger | UnsupportedWireType | OutOfRange

  datatype Result<+T> = Ok(value: T) | Err(error: Error)

  datatype Body = Scalar(n: nat) | Blob(data: seq<byte>)

  datatype Record = Record(number: int, wire: nat, body: Body)

  function Clamp(end: nat, limit: nat): nat { if end < limit then end else limit }

  function BodySize(body: Body): nat { if body.Blob? then |body.data| else 0 }

  /** What `decode` reads in one turn of its loop, and the offset it moves to. A length or a
      fixed width that runs past the end is cut silently, and the offset then lies outside. */
  function ReadRecord(fields: Fields, s: seq<byte>): (r: Result<(Record, nat)>)
    ensures r.Ok? ==> r.value.1 >= 2 && BodySize(r.value.0.body) < |s|
    ensures r.Ok? ==> Uses(fields, r.value.0.wire) && (r.value.0.body.Scalar? <==> r.value.0.wire == 0)
    ensures r.Ok? ==> -0x1000_0000 <= r.value.0.number < 0x1000_0000
  {
    var first := ReadVarint(s);
    if first.Missing? then Err(InvalidVarint)
    else
      var tag := NumberToInt32(first.value);
      var number, wire := tag / 8, tag % 8;
      var start := first.length;
      if wire == 2 && Uses(fields, 2) then
        var len := ReadVarint(s[start..]);
        if len.Missing? then Err(InvalidVarint)
        else if len.value >= TWO_53 then Err(UnsafeInteger)
        else
          var from := start + len.length;
          Ok((Record(number, wire, Blob(s[from..Clamp(from + len.value, |s|)])), from + len.value))
      else if wire == 0 && Uses(fields, 0) then
        var n := ReadVarint(s[start..]);
        if n.Missing? then Err(InvalidVarint)
        else Ok((Record(number, wire, Scalar(n.value)), start + n.length))
      else if wire == 5 && Uses(fields, 5) then
        Ok((Record(number, wire, Blob(s[start..Clamp(start + 4, |s|)])), start + 4))
      else if wire == 1 && Uses(fields, 1) then
        Ok((Record(number, wire, Blob(s[start..Clamp(start + 8, |s|)])), start + 8))
      else Err(UnsupportedWireType)
  }

  /** The field whose `case` the record runs into; `|fields|` for the `default`. */
  function Target(fields: Fields, number: int, wire: nat): (i: nat)
    ensures i <= |fields|
    ensures i < |fields| ==> fields[i].id == number && WireType(fields[i].kind) == wire
    ensures i == |fields| ==> forall j | 0 <= j < |fields| :: !(fields[j].id == number && WireType(fields[j].kind) == wire)
  {
    TargetFrom(fields, number, wire, 0)
  }

  function TargetFrom(fields: Fields, number: int, wire: nat, at: nat): (i: nat)
    requires at <= |fields|
    requires forall j | 0 <= j < at :: !(fields[j].id == number && WireType(fields[j].kind) == wire)
    ensures at <= i <= |fields|
    ensures i < |fields| ==> fields[i].id == number && WireType(fields[i].kind) == wire
    ensures forall j | 0 <= j < i :: !(fields[j].id == number && WireType(fields[j].kind) == wire)
    decreases |fields| - at
  {
    if at == |fields| || (fields[at].id == number && WireType(fields[at].kind) == wire) then at
    else TargetFrom(fields, number, wire, at + 1)
  }

  function Default(f: Field): Slot {
    if f.repeated then Many([])
    else match f.kind
      case Bool => One(Truth(false))
      case Text | Bytes => One(Octets([]))
      case Float => One(Octets([0, 0, 0, 0]))
      case Double => One(Octets([0, 0, 0, 0, 0, 0, 0, 0]))
      case Message(_) | Enum => One(Undefined)
      case _ => One(Num(0))
  }

  function Defaults(fields: Fields): (slots: Slots)
    ensures Shaped(fields, slots)
  {
    seq(|fields|, i requires 0 <= i < |fields| => Default(fields[i]))
  }

  predicate Shaped(fields: Fields, slots: Slots) {
    && |slots| == |fields|
    && forall i | 0 <= i < |slots| :: slots[i].Many? == fields[i].repeated
  }

  predicate BodyFits(kind: Kind, body: Body) { body.Scalar? <==> WireType(kind) == 0 }

  function SafeNumber(n: nat, v: Value): Result<Value> {
    if n >= TWO_53 then Err(UnsafeInteger) else Ok(v)
  }

  function DecodeValue(schema: Schema, kind: Kind, body: Body): Result<Value>
    requires ValidSchema(schema) && BodyFits(kind, body)
    requires kind.Message? ==> kind.index < |schema|
    decreases BodySize(body), 2
  {
    match kind
    case Bool => SafeNumber(body.n, Truth(body.n != 0))
    case Int32 | Uint32 => SafeNumber(body.n, Num(body.n))
    case Sint32 => SafeNumber(body.n, Num(DecodeZigZag32(body.n)))
    case Int64 | Uint64 => Ok(Num(body.n))
    case Sint64 => Ok(Num(DecodeZigZag64(body.n)))
    case Enum => Ok(Undefined)
    case Float => if |body.data| < 4 then Err(OutOfRange) else Ok(Octets(body.data[..4]))
    case Double => if |body.data| < 8 then Err(OutOfRange) else Ok(Octets(body.data[..8]))
    case Fixed32 | Sfixed32 =>
      if |body.data| < 4 then Err(OutOfRange) else Ok(Num(FromLittleEndian(body.data[..4])))
    case Fixed64 | Sfixed64 =>
      if |body.data| < 8 then Err(OutOfRange) else Ok(Num(FromLittleEndian(body.data[..8])))
    case Text | Bytes => Ok(Octets(body.data))
    case Message(t) =>
      var m := Decode(schema, t, body.data);
      if m.Ok? then Ok(Msg(m.value)) else Err(m.error)
  }

  function Put(slot: Slot, v: Value): Slot {
    if slot.Many? then Many(slot.vs + [v]) else One(v)
  }

  /** The `switch` of the wire-type branch. */
  function Assign(schema: Schema, fields: Fields, slots: Slots, rec: Record): (r: Result<Slots>)
    requires ValidSchema(schema) && ValidFields(schema, fields) && Shaped(fields, slots)
    requires rec.body.Scalar? <==> rec.wire == 0
    ensures r.Ok? ==> Shaped(fields, r.value)
    decreases BodySize(rec.body), 3
  {
    var i := Target(fields, rec.number, rec.wire);
    if i == |fields| then Ok(slots)
    else
      var v := DecodeValue(schema, fields[i].kind, rec.body);
      if v.Ok? then Ok(slots[i := Put(slots[i], v.value)]) else Err(v.error)
  }

  function After(s: seq<byte>, end: nat): seq<byte> { if end <= |s| then s[end..] else [] }

  /** The rest of the loop, with the slots filled so far. */
  function DecodeFrom(schema: Schema, fields: Fields, s: seq<byte>, slots: Slots): (r: Result<Slots>)
    requires ValidSchema(schema) && ValidFields(schema, fields) && Shaped(fields, slots)
    ensures r.Ok? ==> Shaped(fields, r.value)
    decreases |s|, 0
  {
    if s == [] then Ok(slots)
    else
      var r := ReadRecord(fields, s);
      if r.Err? then Err(r.error)
      else
        var next := Assign(schema, fields, slots, r.value.0);
        if next.Err? then Err(next.error)
        else DecodeFrom(schema, fields, After(s, r.value.1), next.value)
  }

  function Decode(schema: Schema, t: nat, s: seq<byte>): Result<Slots>
    requires ValidSchema(schema) && t < |schema|
    decreases |s|, 1
  {
    DecodeFrom(schema, schema[t], s, Defaults(schema[t]))
  }
}
