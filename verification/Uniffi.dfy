/** The buffer format of the generated Swift bindings: big-endian integers, length-prefixed
    strings and data, tagged options and enums, records as their fields in order. */
module Uniffi {
  import opened Bits
  import opened Varint

  datatype Type =
    | UInt8 | UInt16 | UInt32 | UInt64 | Int64 | Float32
    | Bool | Text | Data
    | Optional(elem: Type)
    | Sequence(elem: Type)
    | Record(fields: seq<Type>)
    | Variants(cases: seq<Type>)

  /** A float is its bit pattern, a string its UTF-8 bytes, an enum case a tag and a record. */
  datatype Value =
    | Number(n: int)
    | Flag(b: bool)
    | Octets(data: seq<byte>)
    | Absent
    | Present(v: Value)
    | List(items: seq<Value>)
    | Tuple(vs: seq<Value>)
    | Case(index: nat, arg: Value)

  function Width(t: Type): nat {
    match t
    case UInt8 | Bool => 1
    case UInt16 => 2
    case UInt64 | Int64 => 8
    case _ => 4
  }

  predicate WellTyped(t: Type, v: Value)
    decreases v
  {
    match t
    case UInt8 | UInt16 | UInt32 | UInt64 | Float32 => v.Number? && 0 <= v.n < Pow2(8 * Width(t))
    case Int64 => v.Number? && -TWO_63 <= v.n < TWO_63
    case Bool => v.Flag?
    case Text | Data => v.Octets? && |v.data| < TWO_31
    case Optional(u) => v.Absent? || (v.Present? && WellTyped(u, v.v))
    case Sequence(u) => v.List? && |v.items| < TWO_31 && forall k | 0 <= k < |v.items| :: WellTyped(u, v.items[k])
    case Record(ts) => v.Tuple? && AllTyped(ts, v.vs)
    case Variants(cs) => v.Case? && v.index < |cs| && v.index < TWO_31 - 1 && WellTyped(cs[v.index], v.arg)
  }

  predicate AllTyped(ts: seq<Type>, vs: seq<Value>)
    decreases vs
  {
    |vs| == |ts| && forall k | 0 <= k < |vs| :: WellTyped(ts[k], vs[k])
  }

  // ---- integers -----------------------------------------------------------------------------

  function BigEndian(n: nat, width: nat): (s: seq<byte>)
    ensures |s| == width
  {
    if width == 0 then [] else BigEndian(n / 256, width - 1) + [n % 256]
  }

  function FromBigEndian(s: seq<byte>): nat {
    if s == [] then 0 else 256 * FromBigEndian(s[..|s| - 1]) + s[|s| - 1]
  }

  /** Two's complement of `width` bytes. */
  function IntBytes(n: int, width: nat): (s: seq<byte>)
    ensures |s| == width
  {
    BigEndian(n % Pow2(8 * width), width)
  }

  function Signed(u: nat, width: nat): int
    requires width >= 1
  {
    if u < Pow2(8 * width - 1) then u else u - Pow2(8 * width)
  }

  lemma {:induction false} BigEndianRoundTrip(n: nat, width: nat)
    ensures FromBigEndian(BigEndian(n, width)) == n % Pow2(8 * width)
    decreases width
  {
    hide Pow2;
    if width == 0 {
      Pow2Small();
    } else {
      BigEndianRoundTrip(n / 256, width - 1);
      Pow2Eight(8 * (width - 1));
      ModStep(n, Pow2(8 * (width - 1)));
      assert BigEndian(n, width)[..width - 1] == BigEndian(n / 256, width - 1);
    }
  }

  lemma Wraps(n: int, p: nat)
    requires p >= 1
    ensures 0 <= n % p < p && n % p % p == n % p
    ensures 0 <= n < p ==> n % p == n
    ensures 0 <= n + p < p ==> n % p == n + p
  {
    EuclideanUnique(n % p, p, 0, n % p);
    if 0 <= n < p { EuclideanUnique(n, p, 0, n); }
    if 0 <= n + p < p { EuclideanUnique(n, p, -1, n + p); }
  }

  predicate InSigned(n: int, width: nat)
    requires width >= 1
  {
    0 <= n + Pow2(8 * width - 1) < Pow2(8 * width)
  }

  lemma IntRoundTrip(n: int, width: nat)
    requires width >= 1
    ensures 0 <= n < Pow2(8 * width) ==> FromBigEndian(IntBytes(n, width)) == n
    ensures InSigned(n, width) ==> Signed(FromBigEndian(IntBytes(n, width)), width) == n
  {
    var p := Pow2(8 * width);
    assert p == 2 * Pow2(8 * width - 1);
    hide BigEndian, FromBigEndian, Pow2;
    BigEndianRoundTrip(n % p, width);
    Wraps(n, p);
  }

  // ---- writing ------------------------------------------------------------------------------

  function Write(t: Type, v: Value): seq<byte>
    requires WellTyped(t, v)
    decreases v
  {
    match t
    case UInt8 | UInt16 | UInt32 | UInt64 | Int64 | Float32 => IntBytes(v.n, Width(t))
    case Bool => IntBytes(if v.b then 1 else 0, 1)
    case Text | Data => IntBytes(|v.data|, 4) + v.data
    case Optional(u) => if v.Absent? then IntBytes(0, 1) else IntBytes(1, 1) + Write(u, v.v)
    case Sequence(u) => IntBytes(|v.items|, 4) + WriteItems(u, v.items)
    case Record(ts) => WriteAll(ts, v.vs)
    case Variants(cs) => IntBytes(v.index + 1, 4) + Write(cs[v.index], v.arg)
  }

  function WriteItems(t: Type, vs: seq<Value>): seq<byte>
    requires forall k | 0 <= k < |vs| :: WellTyped(t, vs[k])
    decreases vs
  {
    if vs == [] then [] else Write(t, vs[0]) + WriteItems(t, vs[1..])
  }

  function WriteAll(ts: seq<Type>, vs: seq<Value>): seq<byte>
    requires AllTyped(ts, vs)
    decreases vs
  {
    if vs == [] then [] else Write(ts[0], vs[0]) + WriteAll(ts[1..], vs[1..])
  }

  // ---- reading ------------------------------------------------------------------------------

  /** Trap: the process stops, on a negative length. */
  datatype Error = BufferOverflow | IncompleteData | UnexpectedOptionalTag | UnexpectedEnumCase | Trap

  datatype Result<+T> = Success(value: T, size: nat) | Failure(error: Error)

  function ReadUnsigned(s: seq<byte>, width: nat): Result<int> {
    if |s| < width then Failure(BufferOverflow) else Success(FromBigEndian(s[..width]), width)
  }

  function ReadSigned(s: seq<byte>, width: nat): Result<int>
    requires width >= 1
  {
    if |s| < width then Failure(BufferOverflow) else Success(Signed(FromBigEndian(s[..width]), width), width)
  }

  function ReadOctets(s: seq<byte>): (r: Result<Value>)
    ensures r.Success? ==> r.size <= |s|
  {
    var len := ReadSigned(s, 4);
    if len.Failure? then Failure(len.error)
    else if len.value < 0 then Failure(Trap)
    else if |s| < 4 + len.value then Failure(BufferOverflow)
    else Success(Octets(s[4..4 + len.value]), 4 + len.value)
  }

  function Read(t: Type, s: seq<byte>): (r: Result<Value>)
    ensures r.Success? ==> r.size <= |s|
    decreases t, 0
  {
    match t
    case UInt8 | UInt16 | UInt32 | UInt64 | Float32 =>
      var n := ReadUnsigned(s, Width(t));
      if n.Failure? then Failure(n.error) else Success(Number(n.value), n.size)
    case Int64 =>
      var n := ReadSigned(s, 8);
      if n.Failure? then Failure(n.error) else Success(Number(n.value), n.size)
    case Bool =>
      var n := ReadSigned(s, 1);
      if n.Failure? then Failure(n.error) else Success(Flag(n.value != 0), n.size)
    case Text | Data => ReadOctets(s)
    case Optional(u) =>
      var tag := ReadSigned(s, 1);
      if tag.Failure? then Failure(tag.error)
      else if tag.value == 0 then Success(Absent, 1)
      else if tag.value != 1 then Failure(UnexpectedOptionalTag)
      else
        var r := Read(u, s[1..]);
        if r.Failure? then Failure(r.error) else Success(Present(r.value), 1 + r.size)
    case Sequence(u) =>
      var len := ReadSigned(s, 4);
      if len.Failure? then Failure(len.error)
      else if len.value < 0 then Failure(Trap)
      else
        var r := ReadItems(u, len.value, s[4..]);
        if r.Failure? then Failure(r.error) else Success(List(r.value), 4 + r.size)
    case Record(ts) =>
      var r := ReadAll(ts, s);
      if r.Failure? then Failure(r.error) else Success(Tuple(r.value), r.size)
    case Variants(cs) =>
      var tag := ReadSigned(s, 4);
      if tag.Failure? then Failure(tag.error)
      else if !(1 <= tag.value <= |cs|) then Failure(UnexpectedEnumCase)
      else
        var r := Read(cs[tag.value - 1], s[4..]);
        if r.Failure? then Failure(r.error) else Success(Case(tag.value - 1, r.value), 4 + r.size)
  }

  function ReadItems(t: Type, count: nat, s: seq<byte>): (r: Result<seq<Value>>)
    ensures r.Success? ==> r.size <= |s|
    decreases t, count + 1
  {
    if count == 0 then Success([], 0)
    else
      var first := Read(t, s);
      if first.Failure? then Failure(first.error)
      else Prepend(first, ReadItems(t, count - 1, s[first.size..]))
  }

  function ReadAll(ts: seq<Type>, s: seq<byte>): (r: Result<seq<Value>>)
    ensures r.Success? ==> r.size <= |s|
    decreases ts, 0
  {
    if ts == [] then Success([], 0)
    else
      var first := Read(ts[0], s);
      if first.Failure? then Failure(first.error)
      else Prepend(first, ReadAll(ts[1..], s[first.size..]))
  }

  function Prepend(first: Result<Value>, rest: Result<seq<Value>>): Result<seq<Value>>
    requires first.Success?
  {
    if rest.Failure? then rest else Success([first.value] + rest.value, first.size + rest.size)
  }

  /** `lift`: one value and nothing after it. */
  function Lift(t: Type, s: seq<byte>): Result<Value> {
    var r := Read(t, s);
    if r.Success? && r.size < |s| then Failure(IncompleteData) else r
  }

  // ---- every readable prefix is self-delimiting ------------------------------------------------

  /** The bytes a successful read consumes determine it. */
  lemma {:induction false} ReadStable(t: Type, a: seq<byte>, b: seq<byte>)
    requires Read(t, a).Success? && Read(t, a).size <= |b| && a[..Read(t, a).size] == b[..Read(t, a).size]
    ensures Read(t, b) == Read(t, a)
    decreases t, 0
  {
    hide FromBigEndian, Signed, ReadUnsigned, ReadOctets;
    var n := Read(t, a).size;
    if !Composite(t) {
      LeafStable(t, a, b);
    } else if t.Record? {
      AllStable(t.fields, a, b);
    } else {
      HeadsAgree(a, b, n);
      match t
      case Optional(u) =>
        if ReadSigned(a, 1).value == 1 {
          TailsAgree(a, b, 1, n);
          ReadStable(u, a[1..], b[1..]);
        }
      case Sequence(u) =>
        TailsAgree(a, b, 4, n);
        ItemsStable(u, ReadSigned(a, 4).value, a[4..], b[4..]);
      case Variants(cs) =>
        TailsAgree(a, b, 4, n);
        ReadStable(cs[ReadSigned(a, 4).value - 1], a[4..], b[4..]);
    }
  }

  predicate Composite(t: Type) { t.Optional? || t.Sequence? || t.Record? || t.Variants? }

  lemma IntStable(a: seq<byte>, b: seq<byte>, width: nat, n: nat)
    requires 1 <= width <= n <= |a| && n <= |b| && a[..n] == b[..n]
    ensures ReadUnsigned(b, width) == ReadUnsigned(a, width) && ReadSigned(b, width) == ReadSigned(a, width)
  {
    hide FromBigEndian, Signed;
    HeadShrinks(a, b, width, n);
  }

  lemma LeafWidth(t: Type, s: seq<byte>)
    requires !Composite(t) && Read(t, s).Success?
    ensures Read(t, s).size >= Width(t)
    ensures !t.Text? && !t.Data? ==> Read(t, s).size == Width(t)
  {
    hide FromBigEndian, Signed;
  }

  lemma OctetsStable(a: seq<byte>, b: seq<byte>)
    requires ReadOctets(a).Success? && ReadOctets(a).size <= |b|
    requires a[..ReadOctets(a).size] == b[..ReadOctets(a).size]
    ensures ReadOctets(b) == ReadOctets(a)
  {
    var n := ReadOctets(a).size;
    assert n >= 4;
    hide ReadSigned;
    IntStable(a, b, 4, n);
    assert a[4..n] == a[..n][4..] && b[4..n] == b[..n][4..];
  }

  lemma LeafStable(t: Type, a: seq<byte>, b: seq<byte>)
    requires !Composite(t)
    requires Read(t, a).Success? && Read(t, a).size <= |b| && a[..Read(t, a).size] == b[..Read(t, a).size]
    ensures Read(t, b) == Read(t, a)
  {
    hide ReadUnsigned, ReadSigned, ReadOctets;
    LeafWidth(t, a);
    if t.Text? || t.Data? {
      OctetsStable(a, b);
    } else {
      IntStable(a, b, Width(t), Read(t, a).size);
    }
  }

  lemma {:induction false} ItemsStable(t: Type, count: nat, a: seq<byte>, b: seq<byte>)
    requires ReadItems(t, count, a).Success? && ReadItems(t, count, a).size <= |b|
    requires a[..ReadItems(t, count, a).size] == b[..ReadItems(t, count, a).size]
    ensures ReadItems(t, count, b) == ReadItems(t, count, a)
    decreases t, count + 1
  {
    hide Read;
    if count > 0 {
      var n, m := ReadItems(t, count, a).size, Read(t, a).size;
      HeadShrinks(a, b, m, n);
      TailsAgree(a, b, m, n);
      ReadStable(t, a, b);
      ItemsStable(t, count - 1, a[m..], b[m..]);
    }
  }

  lemma {:induction false} AllStable(ts: seq<Type>, a: seq<byte>, b: seq<byte>)
    requires ReadAll(ts, a).Success? && ReadAll(ts, a).size <= |b|
    requires a[..ReadAll(ts, a).size] == b[..ReadAll(ts, a).size]
    ensures ReadAll(ts, b) == ReadAll(ts, a)
    decreases ts, 0
  {
    hide Read;
    if ts != [] {
      var n, m := ReadAll(ts, a).size, Read(ts[0], a).size;
      HeadShrinks(a, b, m, n);
      TailsAgree(a, b, m, n);
      ReadStable(ts[0], a, b);
      AllStable(ts[1..], a[m..], b[m..]);
    }
  }

  lemma HeadShrinks(a: seq<byte>, b: seq<byte>, m: nat, n: nat)
    requires m <= n <= |a| && n <= |b| && a[..n] == b[..n]
    ensures a[..m] == b[..m]
  {
    assert a[..m] == a[..n][..m] && b[..m] == b[..n][..m];
  }

  lemma HeadsAgree(a: seq<byte>, b: seq<byte>, n: nat)
    requires n <= |a| && n <= |b| && a[..n] == b[..n]
    ensures n >= 1 ==> a[..1] == b[..1]
    ensures n >= 2 ==> a[..2] == b[..2]
    ensures n >= 4 ==> a[..4] == b[..4]
    ensures n >= 8 ==> a[..8] == b[..8]
  {
    if n >= 1 { HeadShrinks(a, b, 1, n); }
    if n >= 2 { HeadShrinks(a, b, 2, n); }
    if n >= 4 { HeadShrinks(a, b, 4, n); }
    if n >= 8 { HeadShrinks(a, b, 8, n); }
  }

  lemma TailsAgree(a: seq<byte>, b: seq<byte>, m: nat, n: nat)
    requires m <= n <= |a| && n <= |b| && a[..n] == b[..n]
    ensures a[m..][..n - m] == b[m..][..n - m]
  {
    assert a[m..][..n - m] == a[..n][m..] && b[m..][..n - m] == b[..n][m..];
  }

  lemma LeafCut(t: Type, a: seq<byte>, k: nat)
    requires !Composite(t) && Read(t, a).Success? && k < Read(t, a).size
    ensures Read(t, a[..k]) == Failure(BufferOverflow)
  {
    hide FromBigEndian, Signed;
    if (t.Text? || t.Data?) && k >= 4 { assert a[..k][..4] == a[..4]; }
  }

  /** Cutting a readable buffer anywhere before the end of its value is always noticed. */
  lemma {:induction false} ReadCut(t: Type, a: seq<byte>, k: nat)
    requires Read(t, a).Success? && k < Read(t, a).size
    ensures Read(t, a[..k]) == Failure(BufferOverflow)
    decreases t, 0
  {
    hide FromBigEndian, Signed, ReadUnsigned, ReadOctets;
    if !Composite(t) {
      LeafCut(t, a, k);
    } else if t.Record? {
      AllCut(t.fields, a, k);
    } else if k >= (if t.Optional? then 1 else 4) {
      var w := if t.Optional? then 1 else 4;
      assert a[..k][..w] == a[..w];
      assert a[..k][w..] == a[w..][..k - w];
      match t
      case Optional(u) => ReadCut(u, a[1..], k - 1);
      case Sequence(u) => ItemsCut(u, ReadSigned(a, 4).value, a[4..], k - 4);
      case Variants(cs) => ReadCut(cs[ReadSigned(a, 4).value - 1], a[4..], k - 4);
    }
  }

  lemma {:induction false} ItemsCut(t: Type, count: nat, a: seq<byte>, k: nat)
    requires ReadItems(t, count, a).Success? && k < ReadItems(t, count, a).size
    ensures ReadItems(t, count, a[..k]) == Failure(BufferOverflow)
    decreases t, count + 1
  {
    hide Read;
    var m := Read(t, a).size;
    if k < m {
      ReadCut(t, a, k);
    } else {
      assert a[..k][..m] == a[..m];
      ReadStable(t, a, a[..k]);
      assert a[..k][m..] == a[m..][..k - m];
      ItemsCut(t, count - 1, a[m..], k - m);
    }
  }

  lemma {:induction false} AllCut(ts: seq<Type>, a: seq<byte>, k: nat)
    requires ReadAll(ts, a).Success? && k < ReadAll(ts, a).size
    ensures ReadAll(ts, a[..k]) == Failure(BufferOverflow)
    decreases ts, 0
  {
    hide Read;
    var m := Read(ts[0], a).size;
    if k < m {
      ReadCut(ts[0], a, k);
    } else {
      assert a[..k][..m] == a[..m];
      ReadStable(ts[0], a, a[..k]);
      assert a[..k][m..] == a[m..][..k - m];
      AllCut(ts[1..], a[m..], k - m);
    }
  }

  // ---- reading what was written ---------------------------------------------------------------

  lemma IntReads(n: int, width: nat, rest: seq<byte>)
    requires width >= 1
    ensures 0 <= n < Pow2(8 * width) ==> ReadUnsigned(IntBytes(n, width) + rest, width) == Success(n, width)
    ensures InSigned(n, width) ==> ReadSigned(IntBytes(n, width) + rest, width) == Success(n, width)
    ensures (IntBytes(n, width) + rest)[width..] == rest
  {
    hide IntBytes, FromBigEndian, Signed, Pow2, InSigned;
    IntRoundTrip(n, width);
    assert (IntBytes(n, width) + rest)[..width] == IntBytes(n, width);
  }

  lemma SignedFits(n: int)
    ensures -128 <= n < 128 ==> InSigned(n, 1)
    ensures -TWO_31 <= n < TWO_31 ==> InSigned(n, 4)
    ensures -TWO_63 <= n < TWO_63 ==> InSigned(n, 8)
  {
    hide Pow2;
    Pow2Small();
    Pow2Constants();
    Pow2Eight(0);
  }

  lemma LeafReadWrite(t: Type, v: Value, rest: seq<byte>)
    requires WellTyped(t, v) && !Composite(t)
    ensures Read(t, Write(t, v) + rest) == Success(v, |Write(t, v)|)
  {
    hide IntBytes, ReadUnsigned, ReadSigned, Pow2, InSigned;
    if t.Text? || t.Data? {
      SignedFits(|v.data|);
      IntReads(|v.data|, 4, v.data + rest);
      assert IntBytes(|v.data|, 4) + v.data + rest == IntBytes(|v.data|, 4) + (v.data + rest);
      assert (Write(t, v) + rest)[4..4 + |v.data|] == v.data;
    } else {
      var n := if t.Bool? then (if v.b then 1 else 0) else v.n;
      SignedFits(n);
      IntReads(n, Width(t), rest);
    }
  }

  lemma {:induction false} ReadWrite(t: Type, v: Value, rest: seq<byte>)
    requires WellTyped(t, v)
    ensures Read(t, Write(t, v) + rest) == Success(v, |Write(t, v)|)
    decreases v
  {
    hide Read, Write;
    match t
    case Optional(u) =>
      if v.Present? { ReadWrite(u, v.v, rest); }
      OptionalReadWrite(u, v, rest);
    case Sequence(u) =>
      ItemsReadWrite(u, v.items, rest);
      SequenceReadWrite(u, v, rest);
    case Record(ts) =>
      AllReadWrite(ts, v.vs, rest);
      RecordReadWrite(ts, v, rest);
    case Variants(cs) =>
      ReadWrite(cs[v.index], v.arg, rest);
      VariantsReadWrite(cs, v, rest);
    case _ => LeafReadWrite(t, v, rest);
  }

  lemma OptionalReadWrite(u: Type, v: Value, rest: seq<byte>)
    requires WellTyped(Optional(u), v)
    requires v.Present? ==> Read(u, Write(u, v.v) + rest) == Success(v.v, |Write(u, v.v)|)
    ensures Read(Optional(u), Write(Optional(u), v) + rest) == Success(v, |Write(Optional(u), v)|)
  {
    hide IntBytes, ReadSigned, InSigned;
    SignedFits(0);
    SignedFits(1);
    if v.Absent? {
      IntReads(0, 1, rest);
    } else {
      TagThen(1, 1, Write(u, v.v), rest);
    }
  }

  lemma SequenceReadWrite(u: Type, v: Value, rest: seq<byte>)
    requires WellTyped(Sequence(u), v)
    requires ReadItems(u, |v.items|, WriteItems(u, v.items) + rest) == Success(v.items, |WriteItems(u, v.items)|)
    ensures Read(Sequence(u), Write(Sequence(u), v) + rest) == Success(v, |Write(Sequence(u), v)|)
  {
    hide IntBytes, ReadSigned, InSigned, ReadItems, WriteItems;
    SignedFits(|v.items|);
    TagThen(|v.items|, 4, WriteItems(u, v.items), rest);
  }

  lemma RecordReadWrite(ts: seq<Type>, v: Value, rest: seq<byte>)
    requires WellTyped(Record(ts), v)
    requires ReadAll(ts, WriteAll(ts, v.vs) + rest) == Success(v.vs, |WriteAll(ts, v.vs)|)
    ensures Read(Record(ts), Write(Record(ts), v) + rest) == Success(v, |Write(Record(ts), v)|)
  {
    hide ReadAll, WriteAll;
  }

  lemma VariantsReadWrite(cs: seq<Type>, v: Value, rest: seq<byte>)
    requires WellTyped(Variants(cs), v)
    requires Read(cs[v.index], Write(cs[v.index], v.arg) + rest) == Success(v.arg, |Write(cs[v.index], v.arg)|)
    ensures Read(Variants(cs), Write(Variants(cs), v) + rest) == Success(v, |Write(Variants(cs), v)|)
  {
    hide IntBytes, ReadSigned, InSigned;
    SignedFits(v.index + 1);
    TagThen(v.index + 1, 4, Write(cs[v.index], v.arg), rest);
  }

  /** A tag or a count in front of a body. */
  lemma TagThen(n: int, width: nat, body: seq<byte>, rest: seq<byte>)
    requires width >= 1 && InSigned(n, width)
    ensures ReadSigned(IntBytes(n, width) + body + rest, width) == Success(n, width)
    ensures (IntBytes(n, width) + body + rest)[width..] == body + rest
  {
    hide IntBytes, ReadSigned, InSigned;
    IntReads(n, width, body + rest);
    assert IntBytes(n, width) + body + rest == IntBytes(n, width) + (body + rest);
  }

  lemma NoItems(t: Type, s: seq<byte>)
    ensures ReadItems(t, 0, s) == Success([], 0)
  {
  }

  lemma ItemsLayer(t: Type, count: nat, s: seq<byte>)
    requires count > 0 && Read(t, s).Success?
    ensures ReadItems(t, count, s) == Prepend(Read(t, s), ReadItems(t, count - 1, s[Read(t, s).size..]))
  {
    hide Read;
  }

  lemma {:induction false} ItemsReadWrite(t: Type, vs: seq<Value>, rest: seq<byte>)
    requires forall k | 0 <= k < |vs| :: WellTyped(t, vs[k])
    ensures ReadItems(t, |vs|, WriteItems(t, vs) + rest) == Success(vs, |WriteItems(t, vs)|)
    decreases vs
  {
    hide Read, Write, WellTyped, ReadItems;
    if vs == [] {
      NoItems(t, rest);
      assert WriteItems(t, vs) + rest == rest;
    } else {
      var head, tail := Write(t, vs[0]), WriteItems(t, vs[1..]) + rest;
      assert WriteItems(t, vs) + rest == head + tail;
      ReadWrite(t, vs[0], tail);
      assert (head + tail)[|head|..] == tail;
      ItemsLayer(t, |vs|, head + tail);
      ItemsReadWrite(t, vs[1..], rest);
      assert vs == [vs[0]] + vs[1..];
    }
  }

  lemma {:induction false} AllReadWrite(ts: seq<Type>, vs: seq<Value>, rest: seq<byte>)
    requires AllTyped(ts, vs)
    ensures ReadAll(ts, WriteAll(ts, vs) + rest) == Success(vs, |WriteAll(ts, vs)|)
    decreases vs
  {
    hide Read, Write, WellTyped;
    if vs != [] {
      var head, tail := Write(ts[0], vs[0]), WriteAll(ts[1..], vs[1..]) + rest;
      assert WriteAll(ts, vs) + rest == head + tail;
      ReadWrite(ts[0], vs[0], tail);
      assert (head + tail)[|head|..] == tail;
      AllReadWrite(ts[1..], vs[1..], rest);
      assert vs == [vs[0]] + vs[1..];
    }
  }

  /** Every proper prefix of an encoding is too short, and nothing else. */
  lemma PrefixOverflows(t: Type, v: Value, k: nat)
    requires WellTyped(t, v) && k < |Write(t, v)|
    ensures Read(t, Write(t, v)[..k]) == Failure(BufferOverflow)
  {
    hide Read, Write;
    ReadWrite(t, v, []);
    assert Write(t, v) + [] == Write(t, v);
    ReadCut(t, Write(t, v), k);
  }

  /** Two encodings never overlap: the type is prefix-free. */
  lemma PrefixFree(t: Type, v: Value, w: Value, x: seq<byte>, y: seq<byte>)
    requires WellTyped(t, v) && WellTyped(t, w) && Write(t, v) + x == Write(t, w) + y
    ensures v == w && x == y
  {
    hide Read, Write, WellTyped;
    ReadWrite(t, v, x);
    ReadWrite(t, w, y);
    assert x == (Write(t, v) + x)[|Write(t, v)|..];
  }

  /** `lift` undoes `lower` and rejects an encoding with anything after it. */
  lemma LiftExact(t: Type, v: Value, extra: seq<byte>)
    requires WellTyped(t, v)
    ensures Lift(t, Write(t, v) + extra) == if extra == [] then Success(v, |Write(t, v)|) else Failure(IncompleteData)
  {
    hide Read, Write;
    ReadWrite(t, v, extra);
  }

  // ---- nothing else can be read -------------------------------------------------------------

  lemma {:induction false} FromBigEndianInverse(s: seq<byte>)
    ensures FromBigEndian(s) < Pow2(8 * |s|) && BigEndian(FromBigEndian(s), |s|) == s
  {
    hide Pow2;
    if s == [] {
      Pow2Small();
    } else {
      FromBigEndianInverse(s[..|s| - 1]);
      Pow2Eight(8 * (|s| - 1));
    }
  }

  lemma UnsignedInverse(s: seq<byte>)
    ensures 0 <= FromBigEndian(s) < Pow2(8 * |s|) && IntBytes(FromBigEndian(s), |s|) == s
  {
    hide BigEndian, FromBigEndian, Pow2;
    FromBigEndianInverse(s);
    Wraps(FromBigEndian(s), Pow2(8 * |s|));
  }

  lemma SameBytes(u: nat, width: nat)
    requires width >= 1 && u < Pow2(8 * width)
    ensures InSigned(Signed(u, width), width) && IntBytes(Signed(u, width), width) == IntBytes(u, width)
  {
    var p := Pow2(8 * width);
    assert p == 2 * Pow2(8 * width - 1);
    hide BigEndian, Pow2;
    Wraps(u, p);
    Wraps(u - p, p);
  }

  /** No boolean anywhere: a boolean byte other than 0 reads as true but is written as 1. */
  predicate Canonical(t: Type)
    decreases t
  {
    match t
    case Bool => false
    case Optional(u) => Canonical(u)
    case Sequence(u) => Canonical(u)
    case Record(ts) => forall k | 0 <= k < |ts| :: Canonical(ts[k])
    case Variants(cs) => forall k | 0 <= k < |cs| :: Canonical(cs[k])
    case _ => true
  }

  lemma IntFieldInverse(s: seq<byte>, width: nat)
    requires 1 <= width <= |s|
    ensures 0 <= ReadUnsigned(s, width).value < Pow2(8 * width)
    ensures IntBytes(ReadUnsigned(s, width).value, width) == s[..width]
    ensures InSigned(ReadSigned(s, width).value, width)
    ensures IntBytes(ReadSigned(s, width).value, width) == s[..width]
  {
    hide IntBytes, InSigned, Signed, FromBigEndian, Pow2;
    UnsignedInverse(s[..width]);
    SameBytes(FromBigEndian(s[..width]), width);
  }

  lemma SignedRanges(n: int)
    ensures InSigned(n, 4) ==> -TWO_31 <= n < TWO_31
    ensures InSigned(n, 8) ==> -TWO_63 <= n < TWO_63
  {
    hide Pow2;
    Pow2Constants();
  }

  /** Whatever can be read is a value of the type, takes as many bytes as its encoding, and,
      when the type holds no boolean, is exactly what writing that value produces. */
  lemma {:induction false} ReadInverse(t: Type, s: seq<byte>)
    requires Read(t, s).Success?
    ensures WellTyped(t, Read(t, s).value) && |Write(t, Read(t, s).value)| == Read(t, s).size
    ensures Canonical(t) ==> Write(t, Read(t, s).value) == s[..Read(t, s).size]
    decreases t, 0
  {
    hide IntBytes, ReadUnsigned, ReadSigned, InSigned, Pow2, Canonical, ReadOctets;
    var r := Read(t, s);
    if !Composite(t) {
      LeafInverse(t, s);
    } else if t.Record? {
      forall k | 0 <= k < |t.fields| && Canonical(t) ensures Canonical(t.fields[k]) { CanonicalParts(t, k); }
      AllInverse(t.fields, s);
    } else {
      HeadSize(t, s);
      match t
      case Optional(u) =>
        IntFieldInverse(s, 1);
        CanonicalParts(t, 0);
        if r.value.Present? {
          ReadInverse(u, s[1..]);
          Rejoin(s, 1, r.size);
        }
      case Sequence(u) =>
        IntFieldInverse(s, 4);
        SignedRanges(ReadSigned(s, 4).value);
        CanonicalParts(t, 0);
        ItemsInverse(u, ReadSigned(s, 4).value, s[4..]);
        Rejoin(s, 4, r.size);
      case Variants(cs) =>
        IntFieldInverse(s, 4);
        var tag := ReadSigned(s, 4).value;
        SignedRanges(tag);
        CanonicalParts(t, tag - 1);
        ReadInverse(cs[tag - 1], s[4..]);
        Rejoin(s, 4, r.size);
    }
  }

  lemma Rejoin(s: seq<byte>, m: nat, n: nat)
    requires m <= n <= |s|
    ensures s[..m] + s[m..][..n - m] == s[..n]
  {
  }

  lemma HeadSize(t: Type, s: seq<byte>)
    requires Read(t, s).Success? && Composite(t) && !t.Record?
    ensures (if t.Optional? then 1 else 4) <= Read(t, s).size <= |s|
  {
  }

  lemma LeafInverse(t: Type, s: seq<byte>)
    requires Read(t, s).Success? && !Composite(t)
    ensures WellTyped(t, Read(t, s).value) && |Write(t, Read(t, s).value)| == Read(t, s).size
    ensures Canonical(t) ==> Write(t, Read(t, s).value) == s[..Read(t, s).size]
  {
    hide IntBytes, FromBigEndian, Signed, InSigned, Pow2;
    var r := Read(t, s);
    match t
    case Bool =>
    case Text | Data =>
      IntFieldInverse(s, 4);
      SignedRanges(ReadSigned(s, 4).value);
      Rejoin(s, 4, r.size);
      assert s[4..][..r.size - 4] == s[4..r.size];
    case Int64 =>
      IntFieldInverse(s, 8);
      SignedRanges(r.value.n);
    case _ => IntFieldInverse(s, Width(t));
  }

  lemma {:induction false} ItemsInverse(t: Type, count: nat, s: seq<byte>)
    requires ReadItems(t, count, s).Success?
    ensures var r := ReadItems(t, count, s);
            && |r.value| == count && (forall k | 0 <= k < count :: WellTyped(t, r.value[k]))
            && |WriteItems(t, r.value)| == r.size
            && (Canonical(t) ==> WriteItems(t, r.value) == s[..r.size])
    decreases t, count + 1
  {
    hide Read, WellTyped, Write, Canonical;
    if count > 0 {
      var n, m := ReadItems(t, count, s).size, Read(t, s).size;
      ReadInverse(t, s);
      ItemsInverse(t, count - 1, s[m..]);
      assert ReadItems(t, count, s).value[1..] == ReadItems(t, count - 1, s[m..]).value;
      Rejoin(s, m, n);
    }
  }

  lemma {:induction false} AllInverse(ts: seq<Type>, s: seq<byte>)
    requires ReadAll(ts, s).Success?
    ensures var r := ReadAll(ts, s);
            && |r.value| == |ts| && AllTyped(ts, r.value) && |WriteAll(ts, r.value)| == r.size
            && ((forall k | 0 <= k < |ts| :: Canonical(ts[k])) ==> WriteAll(ts, r.value) == s[..r.size])
    decreases ts, 0
  {
    hide Read, WellTyped, Write, Canonical, AllTyped;
    if ts == [] {
      AllTypedStep(ts, []);
    } else {
      var r, first := ReadAll(ts, s), Read(ts[0], s);
      ReadInverse(ts[0], s);
      AllInverse(ts[1..], s[first.size..]);
      assert r.value[0] == first.value && r.value[1..] == ReadAll(ts[1..], s[first.size..]).value;
      AllTypedStep(ts, r.value);
      Rejoin(s, first.size, r.size);
      assert forall k | 0 <= k < |ts| - 1 :: ts[1..][k] == ts[k + 1];
    }
  }

  lemma AllTypedStep(ts: seq<Type>, vs: seq<Value>)
    requires |ts| == |vs| && (ts != [] ==> WellTyped(ts[0], vs[0]) && AllTyped(ts[1..], vs[1..]))
    ensures AllTyped(ts, vs)
  {
    hide WellTyped;
    forall k | 0 <= k < |vs| ensures WellTyped(ts[k], vs[k]) {
      if k > 0 { assert ts[k] == ts[1..][k - 1] && vs[k] == vs[1..][k - 1]; }
    }
  }

  lemma CanonicalParts(t: Type, k: nat)
    ensures Canonical(t) && (t.Optional? || t.Sequence?) ==> Canonical(t.elem)
    ensures Canonical(t) && t.Record? && k < |t.fields| ==> Canonical(t.fields[k])
    ensures Canonical(t) && t.Variants? && k < |t.cases| ==> Canonical(t.cases[k])
  {
  }

  /** For such a type `lift` accepts exactly the buffers `lower` produces. */
  lemma LiftAcceptsExactly(t: Type, s: seq<byte>)
    requires Canonical(t)
    ensures Lift(t, s).Success? <==> exists v :: WellTyped(t, v) && Write(t, v) == s
  {
    hide Read, Write, WellTyped, Canonical;
    if Lift(t, s).Success? {
      ReadInverse(t, s);
      assert s[..|s|] == s;
    }
    forall v | WellTyped(t, v) && Write(t, v) == s ensures Lift(t, s).Success? {
      LiftExact(t, v, []);
      assert Write(t, v) + [] == s;
    }
  }

  /** A boolean byte is the one place where reading forgets: 2 reads as true. */
  lemma BooleanBytesDiffer()
    ensures Lift(Bool, [2]) == Success(Flag(true), 1) && Write(Bool, Flag(true)) != [2]
  {
    assert FromBigEndian([2]) == 2 by { assert [2][..0] == []; }
    assert [2][..1] == [2];
    IntRoundTrip(1, 1);
  }
}

/** The layouts of the types that cross the boundary. */
module UniffiTypes {
  import opened Bits
  import opened Uniffi

  const UNIT := Record([])
  const REALM := Record([UInt32])
  const ACTR_TYPE := Record([Text, Text, Text])
  const ACTR_ID := Record([REALM, UInt64, ACTR_TYPE])
  const METADATA_ENTRY := Record([Text, Text])
  const DATA_CHUNK := Record([Text, UInt64, Data, Sequence(METADATA_ENTRY), Optional(Int64)])

  const NETWORK_AVAILABILITY := Variants([UNIT, UNIT, UNIT])
  const TRANSPORT_FLAGS := Record([Bool, Bool, Bool, Bool, Bool])
  const NETWORK_SNAPSHOT := Record([UInt64, NETWORK_AVAILABILITY, TRANSPORT_FLAGS, Bool, Bool])
  const APP_LIFECYCLE_STATE := Variants([UNIT, Record([UInt64])])
  const CLEANUP_REASON := Variants([UNIT, UNIT, UNIT, UNIT])
  const RECONNECT_REASON := Variants([UNIT, UNIT, UNIT, UNIT, UNIT])
  const NETWORK_EVENT :=
    Variants([Record([NETWORK_SNAPSHOT]), Record([APP_LIFECYCLE_STATE]), Record([CLEANUP_REASON]), Record([RECONNECT_REASON])])

  /** A data chunk crosses the boundary byte for byte: a buffer lifts to a chunk exactly when
      lowering some chunk produces it. */
  lemma DataChunkExact(s: seq<byte>)
    ensures Lift(DATA_CHUNK, s).Success? <==> exists v :: WellTyped(DATA_CHUNK, v) && Write(DATA_CHUNK, v) == s
  {
    hide Write, Lift, WellTyped;
    assert Canonical(METADATA_ENTRY);
    assert Canonical(DATA_CHUNK);
    LiftAcceptsExactly(DATA_CHUNK, s);
  }

  /** A network event has no such layout: its snapshot carries transport flags. */
  lemma NetworkEventHasFlags()
    ensures Canonical(ACTR_ID) && !Canonical(NETWORK_EVENT)
  {
    assert !Canonical(NETWORK_SNAPSHOT) by { assert NETWORK_SNAPSHOT.fields[3] == Bool; }
    var first := NETWORK_EVENT.cases[0];
    assert !Canonical(first) by { assert first.fields[0] == NETWORK_SNAPSHOT; }
  }
}
