/** The format byte by byte: every encoding written out in arithmetic. */
module UniffiBytes {
  import opened Bits
  import opened Varint
  import opened Uniffi
  import opened UniffiExact
  import opened UniffiTypes

  function Bytes2(n: int): seq<byte> { [n / 0x100 % 256, n % 256] }

  function Bytes4(n: int): seq<byte> {
    [n / 0x100_0000 % 256, n / 0x1_0000 % 256, n / 0x100 % 256, n % 256]
  }

  /** The high half and the low half; division rounds down, so negative numbers come out in two's
      complement. */
  function Bytes8(n: int): seq<byte> { Bytes4(n / 0x1_0000_0000) + Bytes4(n) }

  // ---- integers -------------------------------------------------------------------------------------

  /** One byte less of the number in front of its last byte. */
  lemma BytesStep(n: int, width: nat)
    requires width >= 1
    ensures IntBytes(n, width) == IntBytes(n / 256, width - 1) + [n % 256]
  {
    hide Pow2;
    var p := Pow2(8 * (width - 1));
    Pow2Eight(8 * (width - 1));
    assert 8 * (width - 1) + 8 == 8 * width;
    SplitLast(n, p);
  }

  lemma SplitLast(n: int, p: nat)
    requires p >= 1
    ensures n % (256 * p) / 256 == n / 256 % p && n % (256 * p) % 256 == n % 256
  {
    var a, b := n / 256, n % 256;
    var q, r := a / p, a % p;
    assert a == p * q + r && n == 256 * a + b;
    assert 256 * (p * q) == (256 * p) * q;
    EuclideanUnique(n, 256 * p, q, 256 * r + b);
    EuclideanUnique(256 * r + b, 256, r, b);
  }

  lemma NoBytes(n: int)
    ensures IntBytes(n, 0) == []
  {
  }

  lemma Halves(n: int)
    ensures n / 0x100 / 0x100 == n / 0x1_0000 && n / 0x1_0000 / 0x100 == n / 0x100_0000
    ensures n / 0x100_0000 / 0x100 == n / 0x1_0000_0000
  {
  }

  /** The integer encodings are big-endian two's complement. */
  lemma IntegerBytes(n: int)
    ensures IntBytes(n, 1) == [n % 256] && IntBytes(n, 2) == Bytes2(n) && IntBytes(n, 4) == Bytes4(n)
  {
    hide IntBytes;
    NoBytes(n / 0x100);
    NoBytes(n / 0x1_0000);
    NoBytes(n / 0x1_0000_0000);
    Halves(n);
    BytesStep(n, 1);
    BytesStep(n, 2);
    BytesStep(n / 0x100, 1);
    BytesStep(n, 4);
    BytesStep(n / 0x100, 3);
    BytesStep(n / 0x1_0000, 2);
    BytesStep(n / 0x100_0000, 1);
  }

  lemma LongBytes(n: int)
    ensures IntBytes(n, 8) == Bytes8(n)
  {
    hide IntBytes, Bytes4;
    var h := n / 0x1_0000_0000;
    Halves(n);
    BytesStep(n, 8);
    BytesStep(n / 0x100, 7);
    BytesStep(n / 0x1_0000, 6);
    BytesStep(n / 0x100_0000, 5);
    IntegerBytes(h);
    assert Bytes4(n) == [n / 0x100_0000 % 256, n / 0x1_0000 % 256, n / 0x100 % 256, n % 256] by { Bytes4Means(n); }
    assert n / 0x100_0000 / 0x100 == h;
  }

  lemma Bytes4Means(n: int)
    ensures Bytes4(n) == [n / 0x100_0000 % 256, n / 0x1_0000 % 256, n / 0x100 % 256, n % 256]
  {
  }

  // ---- one law per type -------------------------------------------------------------------------------

  /** The values of the number types. */
  lemma Ranges(n: int)
    ensures WellTyped(UInt8, Number(n)) <==> 0 <= n < 0x100
    ensures WellTyped(UInt16, Number(n)) <==> 0 <= n < 0x1_0000
    ensures WellTyped(UInt32, Number(n)) <==> 0 <= n < 0x1_0000_0000
    ensures WellTyped(Float32, Number(n)) <==> 0 <= n < 0x1_0000_0000
    ensures WellTyped(UInt64, Number(n)) <==> 0 <= n < 0x1_0000_0000_0000_0000
    ensures WellTyped(Int64, Number(n)) <==> -0x8000_0000_0000_0000 <= n < 0x8000_0000_0000_0000
  {
    hide Pow2;
    Pow2Constants();
    Pow2Bytes();
  }

  lemma Pow2Bytes()
    ensures Pow2(8) == 0x100 && Pow2(16) == 0x1_0000
  {
    assert Pow2(8) == 0x100;
    Pow2Eight(8);
  }

  /** How many bytes each number type takes, and which. */
  lemma NumberBytes(t: Type, n: int)
    requires WellTyped(t, Number(n))
    ensures match t
            case UInt8 => Write(t, Number(n)) == [n % 256]
            case UInt16 => Write(t, Number(n)) == Bytes2(n)
            case UInt32 | Float32 => Write(t, Number(n)) == Bytes4(n)
            case UInt64 | Int64 => Write(t, Number(n)) == Bytes8(n)
            case _ => false
  {
    hide IntBytes;
    IntegerBytes(n);
    LongBytes(n);
  }

  lemma FlagBytes(b: bool)
    ensures Write(Bool, Flag(b)) == [if b then 1 else 0]
  {
    hide IntBytes;
    IntegerBytes(if b then 1 else 0);
  }

  /** Strings and data: a four-byte count, then the bytes themselves. */
  lemma OctetBytes(t: Type, data: seq<byte>)
    requires (t == Text || t == Data) && |data| < TWO_31
    ensures Write(t, Octets(data)) == Bytes4(|data|) + data
  {
    hide IntBytes;
    IntegerBytes(|data|);
  }

  /** Options: 0, or 1 and the value. */
  lemma OptionBytes(u: Type, v: Value)
    requires WellTyped(u, v)
    ensures Write(Optional(u), Absent) == [0] && Write(Optional(u), Present(v)) == [1] + Write(u, v)
  {
    hide IntBytes;
    IntegerBytes(0);
    IntegerBytes(1);
  }

  /** The encodings of the items, one after the other. */
  function Concatenated(u: Type, items: seq<Value>): seq<byte>
    requires forall k | 0 <= k < |items| :: WellTyped(u, items[k])
  {
    if items == [] then []
    else Concatenated(u, items[..|items| - 1]) + Write(u, items[|items| - 1])
  }

  lemma {:induction false} WriteItemsAppend(u: Type, items: seq<Value>, v: Value)
    requires (forall k | 0 <= k < |items| :: WellTyped(u, items[k])) && WellTyped(u, v)
    ensures WriteItems(u, items + [v]) == WriteItems(u, items) + Write(u, v)
    decreases |items|
  {
    hide Write, WellTyped;
    var all := items + [v];
    if items == [] {
      assert all[1..] == [] && all[0] == v;
      assert WriteItems(u, all[1..]) == [];
    } else {
      assert all[1..] == items[1..] + [v] && all[0] == items[0];
      WriteItemsAppend(u, items[1..], v);
    }
  }

  lemma {:induction false} ItemsConcatenated(u: Type, items: seq<Value>)
    requires forall k | 0 <= k < |items| :: WellTyped(u, items[k])
    ensures WriteItems(u, items) == Concatenated(u, items)
    decreases |items|
  {
    hide Write, WellTyped, WriteItems;
    if items == [] {
      NoItemsWritten(u);
    } else {
      var front, last := items[..|items| - 1], items[|items| - 1];
      ItemsConcatenated(u, front);
      WriteItemsAppend(u, front, last);
      assert front + [last] == items;
    }
  }

  lemma NoItemsWritten(u: Type)
    ensures WriteItems(u, []) == []
  {
  }

  /** Sequences: a four-byte count, then the items in order. */
  lemma SequenceBytes(u: Type, items: seq<Value>)
    requires |items| < TWO_31 && forall k | 0 <= k < |items| :: WellTyped(u, items[k])
    ensures Write(Sequence(u), List(items)) == Bytes4(|items|) + Concatenated(u, items)
  {
    hide IntBytes, Concatenated, WriteItems;
    IntegerBytes(|items|);
    ItemsConcatenated(u, items);
  }

  /** Enums: the number of the case, from 1 on, in four bytes, then its fields. */
  lemma CaseBytes(cs: seq<Type>, index: nat, arg: Value)
    requires index < |cs| < TWO_31 && WellTyped(cs[index], arg)
    ensures WellTyped(Variants(cs), Case(index, arg))
    ensures Write(Variants(cs), Case(index, arg)) == Bytes4(index + 1) + Write(cs[index], arg)
  {
    hide IntBytes;
    IntegerBytes(index + 1);
  }

  // ---- the types that cross the boundary --------------------------------------------------------------

  lemma RecordOne(a: Type, x: Value)
    requires WellTyped(a, x)
    ensures WellTyped(Record([a]), Tuple([x])) && Write(Record([a]), Tuple([x])) == Write(a, x)
  {
    hide WellTyped, Write;
    WriteAllNone();
    JoinTyped(a, x, [], []);
    assert [a] + [] == [a] && [x] + [] == [x];
    RecordMeans([a], [x]);
  }

  lemma RecordMeans(ts: seq<Type>, vs: seq<Value>)
    requires AllTyped(ts, vs)
    ensures WellTyped(Record(ts), Tuple(vs)) && Write(Record(ts), Tuple(vs)) == WriteAll(ts, vs)
  {
  }

  lemma WriteAllNone()
    ensures AllTyped([], []) && WriteAll([], []) == []
  {
  }

  /** A realm is its identifier in four bytes. */
  lemma RealmBytes(id: nat)
    requires id < 0x1_0000_0000
    ensures WellTyped(REALM, Tuple([Number(id)])) && Write(REALM, Tuple([Number(id)])) == Bytes4(id)
  {
    Ranges(id);
    NumberBytes(UInt32, id);
    RecordOne(UInt32, Number(id));
  }

  /** A data chunk: stream name, sequence number, payload, metadata, and the optional time stamp. */
  lemma DataChunkBytes(stream: seq<byte>, number: nat, payload: seq<byte>, entries: Value, stamp: Value)
    requires |stream| < TWO_31 && number < TWO_64 && |payload| < TWO_31
    requires WellTyped(Sequence(METADATA_ENTRY), entries) && WellTyped(Optional(Int64), stamp)
    ensures var chunk := Tuple([Octets(stream), Number(number), Octets(payload), entries, stamp]);
            && WellTyped(DATA_CHUNK, chunk)
            && Write(DATA_CHUNK, chunk) ==
               (Bytes4(|stream|) + stream) + (Bytes8(number) + ((Bytes4(|payload|) + payload)
               + (Write(Sequence(METADATA_ENTRY), entries) + Write(Optional(Int64), stamp))))
  {
    ChunkParts(stream, number, payload);
    hide Write, WellTyped, Bytes4, Bytes8, WriteAll, AllTyped;
    var s, n, p := Octets(stream), Number(number), Octets(payload);
    var te, tm := Optional(Int64), Sequence(METADATA_ENTRY);
    WriteAllNone();
    JoinTyped(te, stamp, [], []);
    JoinTyped(tm, entries, [te] + [], [stamp] + []);
    JoinTyped(Data, p, [tm] + ([te] + []), [entries] + ([stamp] + []));
    JoinTyped(UInt64, n, [Data] + ([tm] + ([te] + [])), [p] + ([entries] + ([stamp] + [])));
    JoinTyped(Text, s, [UInt64] + ([Data] + ([tm] + ([te] + []))), [n] + ([p] + ([entries] + ([stamp] + []))));
    var ts, vs := DATA_CHUNK.fields, [s, n, p, entries, stamp];
    Five(Text, UInt64, Data, tm, te);
    Five(s, n, p, entries, stamp);
    RecordMeans(ts, vs);
    assert Write(te, stamp) + [] == Write(te, stamp);
  }

  lemma Five<T>(a: T, b: T, c: T, d: T, e: T)
    ensures [a, b, c, d, e] == [a] + ([b] + ([c] + ([d] + ([e] + []))))
  {
  }

  lemma ChunkParts(stream: seq<byte>, number: nat, payload: seq<byte>)
    requires |stream| < TWO_31 && number < TWO_64 && |payload| < TWO_31
    ensures WellTyped(Text, Octets(stream)) && Write(Text, Octets(stream)) == Bytes4(|stream|) + stream
    ensures WellTyped(UInt64, Number(number)) && Write(UInt64, Number(number)) == Bytes8(number)
    ensures WellTyped(Data, Octets(payload)) && Write(Data, Octets(payload)) == Bytes4(|payload|) + payload
  {
    hide Bytes4, Bytes8, Write;
    Ranges(number);
    NumberBytes(UInt64, number);
    OctetBytes(Text, stream);
    OctetBytes(Data, payload);
  }

  /** A change of the application's lifecycle to its second state, with a time: the case numbers 2
      and 2, then eight bytes. */
  lemma LifecycleBytes(time: nat)
    requires time < TWO_64
    ensures var state := Case(1, Tuple([Number(time)]));
            && WellTyped(NETWORK_EVENT, Case(1, Tuple([state])))
            && Write(NETWORK_EVENT, Case(1, Tuple([state]))) == [0, 0, 0, 2] + ([0, 0, 0, 2] + Bytes8(time))
  {
    hide Write, WellTyped, Bytes8, Bytes4;
    Ranges(time);
    NumberBytes(UInt64, time);
    RecordOne(UInt64, Number(time));
    TwoBytes();
    var state := Case(1, Tuple([Number(time)]));
    CaseBytes(APP_LIFECYCLE_STATE.cases, 1, Tuple([Number(time)]));
    RecordOne(APP_LIFECYCLE_STATE, state);
    CaseBytes(NETWORK_EVENT.cases, 1, Tuple([state]));
  }

  lemma TwoBytes()
    ensures Bytes4(2) == [0, 0, 0, 2]
  {
  }
}
