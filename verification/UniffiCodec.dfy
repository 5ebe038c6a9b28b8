/** The converters as the Swift code runs them: readers advance an offset over the data,
    writers append to a byte array. */
module UniffiCodec {
  import opened Bits
  import opened Uniffi
  import Varint

  // ---- writers: `buf` is the inout byte array ---------------------------------------------------

  lemma Distribute(p: nat, a: nat, b: nat)
    requires b < 256
    ensures p * (256 * a + b) == (256 * p) * a + p * b && p * b <= 255 * p
  {
    assert p * (256 * a) == (256 * p) * a;
  }

  lemma DivideTwice(m: nat, p: nat)
    requires p >= 1
    ensures m / (256 * p) == m / p / 256
  {
    var q := m / p;
    var a, b := q / 256, q % 256;
    assert q == 256 * a + b;
    Distribute(p, a, b);
    EuclideanUnique(m, 256 * p, a, p * b + m % p);
  }

  /** One byte further to the right is a division by 256. */
  lemma ShiftByte(m: nat, k: nat)
    ensures Shr(m, k + 8) == Shr(m, k) / 256
  {
    hide Pow2;
    Varint.Pow2Eight(k);
    DivideTwice(m, Pow2(k));
  }

  lemma ShiftNat(m: nat, k: nat)
    ensures Shr(m, k) >= 0
  {
    hide Pow2;
  }

  lemma LowByte(x: nat)
    ensures And(x, 0xff) == x % 256
  {
    hide And;
    AndMask(x, 8);
    assert Pow2(8) == 256;
  }

  /** The bytes of the value's bit pattern, the most significant one first. */
  method WriteInt(buf: seq<byte>, n: int, width: nat) returns (out: seq<byte>)
    ensures out == buf + IntBytes(n, width)
  {
    hide And, Shr, Pow2;
    var pattern := n % Pow2(8 * width);
    out := buf;
    ShiftNat(pattern, 8 * width);
    for i := 0 to width
      invariant Shr(pattern, 8 * (width - i)) >= 0
      invariant out == buf + BigEndian(Shr(pattern, 8 * (width - i)), i)
    {
      var k := 8 * (width - i - 1);
      ShiftByte(pattern, k);
      ShiftNat(pattern, k);
      LowByte(Shr(pattern, k));
      assert k + 8 == 8 * (width - i);
      out := out + [And(Shr(pattern, k), 0xff)];
    }
    assert Shr(pattern, 0) == pattern by { ShiftNothing(pattern); }
  }

  lemma ShiftNothing(m: nat)
    ensures Shr(m, 0) == m
  {
  }

  method WriteValue(t: Type, v: Value, buf: seq<byte>) returns (out: seq<byte>)
    requires WellTyped(t, v)
    ensures out == buf + Write(t, v)
    decreases v, 0
  {
    hide IntBytes;
    match t {
      case UInt8 => out := WriteInt(buf, v.n, 1);
      case UInt16 => out := WriteInt(buf, v.n, 2);
      case UInt32 | Float32 => out := WriteInt(buf, v.n, 4);
      case UInt64 | Int64 => out := WriteInt(buf, v.n, 8);
      case Bool => out := WriteInt(buf, if v.b then 1 else 0, 1);
      case Text | Data =>
        out := WriteInt(buf, |v.data|, 4);
        out := out + v.data;
        Regroup(buf, IntBytes(|v.data|, 4), v.data);
      case Optional(u) =>
        if v.Absent? {
          out := WriteInt(buf, 0, 1);
        } else {
          out := WriteInt(buf, 1, 1);
          out := WriteValue(u, v.v, out);
          Regroup(buf, IntBytes(1, 1), Write(u, v.v));
        }
      case Sequence(u) =>
        out := WriteInt(buf, |v.items|, 4);
        out := WriteElements(u, v.items, out);
        Regroup(buf, IntBytes(|v.items|, 4), WriteItems(u, v.items));
      case Record(ts) => out := WriteFields(ts, v.vs, buf);
      case Variants(cs) =>
        out := WriteInt(buf, v.index + 1, 4);
        out := WriteValue(cs[v.index], v.arg, out);
        Regroup(buf, IntBytes(v.index + 1, 4), Write(cs[v.index], v.arg));
    }
  }

  lemma Regroup<T>(a: seq<T>, b: seq<T>, c: seq<T>)
    ensures a + b + c == a + (b + c)
  {
  }

  method WriteElements(t: Type, vs: seq<Value>, buf: seq<byte>) returns (out: seq<byte>)
    requires forall k | 0 <= k < |vs| :: WellTyped(t, vs[k])
    ensures out == buf + WriteItems(t, vs)
    decreases vs, 0
  {
    hide WellTyped, Write;
    out := buf;
    for k := 0 to |vs|
      invariant out + WriteItems(t, vs[k..]) == buf + WriteItems(t, vs)
    {
      assert vs[k..][0] == vs[k] && vs[k..][1..] == vs[k + 1..];
      Regroup(out, Write(t, vs[k]), WriteItems(t, vs[k + 1..]));
      out := WriteValue(t, vs[k], out);
    }
    assert vs[|vs|..] == [];
  }

  method WriteFields(ts: seq<Type>, vs: seq<Value>, buf: seq<byte>) returns (out: seq<byte>)
    requires AllTyped(ts, vs)
    ensures out == buf + WriteAll(ts, vs)
    decreases vs, 0
  {
    hide WellTyped, Write;
    out := buf;
    if vs != [] {
      out := WriteValue(ts[0], vs[0], out);
      out := WriteFields(ts[1..], vs[1..], out);
      Regroup(buf, Write(ts[0], vs[0]), WriteAll(ts[1..], vs[1..]));
    }
  }

  // ---- readers: `offset` is the reader's inout position -------------------------------------------

  /** What the specification says of the rest of the data, moved to absolute offsets. */
  ghost predicate Advances<T>(r: Result<T>, next: nat, spec: Result<T>, offset: nat) {
    if spec.Success? then r == spec && next == offset + spec.size else r == spec
  }

  method ReadInt(data: seq<byte>, offset: nat, width: nat, signed: bool) returns (r: Result<int>, next: nat)
    requires offset <= |data| && width >= 1
    ensures Advances(r, next, if signed then ReadSigned(data[offset..], width) else ReadUnsigned(data[offset..], width), offset)
    ensures if r.Success? then next <= |data| else next == offset
  {
    if |data| < offset + width { return Failure(BufferOverflow), offset; }
    assert data[offset..][..width] == data[offset..offset + width];
    var u := FromBigEndian(data[offset..offset + width]);
    r, next := Success(if signed then Signed(u, width) else u, width), offset + width;
  }

  method ReadBytes(data: seq<byte>, offset: nat) returns (r: Result<Value>, next: nat)
    requires offset <= |data|
    ensures Advances(r, next, ReadOctets(data[offset..]), offset)
  {
    hide ReadSigned;
    var len, at := ReadInt(data, offset, 4, true);
    if len.Failure? { return Failure(len.error), at; }
    assert len.size == 4 by { FourBytes(data[offset..]); }
    if len.value < 0 { return Failure(Trap), at; }
    if |data| < at + len.value { return Failure(BufferOverflow), at; }
    assert data[offset..][4..4 + len.value] == data[at..at + len.value];
    r, next := Success(Octets(data[at..at + len.value]), 4 + len.value), at + len.value;
  }

  lemma FourBytes(s: seq<byte>)
    ensures ReadSigned(s, 4).Success? ==> ReadSigned(s, 4).size == 4
    ensures ReadSigned(s, 1).Success? ==> ReadSigned(s, 1).size == 1
  {
  }

  /** The converters of integers, floats, booleans, strings and data. */
  method ReadLeaf(t: Type, data: seq<byte>, offset: nat) returns (r: Result<Value>, next: nat)
    requires offset <= |data| && !Composite(t)
    ensures Advances(r, next, Read(t, data[offset..]), offset)
  {
    hide ReadSigned, ReadUnsigned, ReadOctets;
    match t {
      case Int64 =>
        var n, at := ReadInt(data, offset, 8, true);
        r, next := if n.Failure? then Failure(n.error) else Success(Number(n.value), n.size), at;
      case Bool =>
        var n, at := ReadInt(data, offset, 1, true);
        r, next := if n.Failure? then Failure(n.error) else Success(Flag(n.value != 0), n.size), at;
      case Text | Data => r, next := ReadBytes(data, offset);
      case UInt8 =>
        var n, at := ReadInt(data, offset, 1, false);
        r, next := if n.Failure? then Failure(n.error) else Success(Number(n.value), n.size), at;
      case UInt16 =>
        var n, at := ReadInt(data, offset, 2, false);
        r, next := if n.Failure? then Failure(n.error) else Success(Number(n.value), n.size), at;
      case UInt32 | Float32 =>
        var n, at := ReadInt(data, offset, 4, false);
        r, next := if n.Failure? then Failure(n.error) else Success(Number(n.value), n.size), at;
      case UInt64 =>
        var n, at := ReadInt(data, offset, 8, false);
        r, next := if n.Failure? then Failure(n.error) else Success(Number(n.value), n.size), at;
    }
  }

  method ReadOptional(u: Type, data: seq<byte>, offset: nat) returns (r: Result<Value>, next: nat)
    requires offset <= |data|
    ensures Advances(r, next, Read(Optional(u), data[offset..]), offset)
    decreases u, 1
  {
    hide ReadSigned;
    FourBytes(data[offset..]);
    var tag, at := ReadInt(data, offset, 1, true);
    if tag.Failure? { return Failure(tag.error), at; }
    if tag.value == 0 { return Success(Absent, 1), at; }
    if tag.value != 1 { return Failure(UnexpectedOptionalTag), at; }
    assert data[offset..][1..] == data[at..];
    var inner, end := ReadValue(u, data, at);
    r, next := if inner.Failure? then inner else Success(Present(inner.value), 1 + inner.size), end;
  }

  method ReadSequence(u: Type, data: seq<byte>, offset: nat) returns (r: Result<Value>, next: nat)
    requires offset <= |data|
    ensures Advances(r, next, Read(Sequence(u), data[offset..]), offset)
    decreases u, 2
  {
    hide ReadSigned, ReadItems;
    FourBytes(data[offset..]);
    var len, at := ReadInt(data, offset, 4, true);
    if len.Failure? { return Failure(len.error), at; }
    if len.value < 0 { return Failure(Trap), at; }
    assert data[offset..][4..] == data[at..];
    var items, end := ReadElements(u, len.value, data, at);
    r, next := if items.Failure? then Failure(items.error) else Success(List(items.value), 4 + items.size), end;
  }

  method ReadVariants(cs: seq<Type>, data: seq<byte>, offset: nat) returns (r: Result<Value>, next: nat)
    requires offset <= |data|
    ensures Advances(r, next, Read(Variants(cs), data[offset..]), offset)
    decreases cs, 1
  {
    hide ReadSigned;
    FourBytes(data[offset..]);
    var tag, at := ReadInt(data, offset, 4, true);
    if tag.Failure? { return Failure(tag.error), at; }
    if !(1 <= tag.value <= |cs|) { return Failure(UnexpectedEnumCase), at; }
    assert data[offset..][4..] == data[at..];
    var arg, end := ReadValue(cs[tag.value - 1], data, at);
    r, next := if arg.Failure? then arg else Success(Case(tag.value - 1, arg.value), 4 + arg.size), end;
  }

  method ReadValue(t: Type, data: seq<byte>, offset: nat) returns (r: Result<Value>, next: nat)
    requires offset <= |data|
    ensures Advances(r, next, Read(t, data[offset..]), offset)
    decreases t, 0
  {
    hide ReadAll;
    match t {
      case Optional(u) => r, next := ReadOptional(u, data, offset);
      case Sequence(u) => r, next := ReadSequence(u, data, offset);
      case Variants(cs) => r, next := ReadVariants(cs, data, offset);
      case Record(ts) =>
        var fields, end := ReadFields(ts, data, offset);
        r, next := if fields.Failure? then Failure(fields.error) else Success(Tuple(fields.value), fields.size), end;
      case _ => r, next := ReadLeaf(t, data, offset);
    }
  }

  /** What the loop still has to read, in front of what it has. */
  ghost function Resume(done: seq<Value>, size: nat, rest: Result<seq<Value>>): Result<seq<Value>> {
    if rest.Failure? then rest else Success(done + rest.value, size + rest.size)
  }

  lemma ResumeStart(rest: Result<seq<Value>>)
    ensures Resume([], 0, rest) == rest
  {
    if rest.Success? { assert [] + rest.value == rest.value; }
  }

  lemma ResumeStep(done: seq<Value>, size: nat, item: Result<Value>, rest: Result<seq<Value>>)
    requires item.Success?
    ensures Resume(done, size, Prepend(item, rest)) == Resume(done + [item.value], size + item.size, rest)
  {
    if rest.Success? { Regroup(done, [item.value], rest.value); }
  }

  lemma ResumeEnd(t: Type, done: seq<Value>, size: nat, s: seq<byte>)
    ensures Resume(done, size, ReadItems(t, 0, s)) == Success(done, size)
  {
    assert done + [] == done;
  }

  method ReadElements(t: Type, len: nat, data: seq<byte>, offset: nat) returns (r: Result<seq<Value>>, next: nat)
    requires offset <= |data|
    ensures Advances(r, next, ReadItems(t, len, data[offset..]), offset)
    decreases t, 1
  {
    hide Read, Resume, Prepend;
    var items: seq<Value> := [];
    next := offset;
    ghost var spec := ReadItems(t, len, data[offset..]);
    ResumeStart(spec);
    for k := 0 to len
      invariant offset <= next <= |data|
      invariant spec == Resume(items, next - offset, ReadItems(t, len - k, data[next..]))
    {
      ghost var rest := data[next..];
      var item, at := ReadValue(t, data, next);
      if item.Failure? {
        FailurePasses(items, next - offset, item.error);
        return Failure(item.error), at;
      }
      assert rest[item.size..] == data[at..];
      ResumeStep(items, next - offset, item, ReadItems(t, len - k - 1, data[at..]));
      items, next := items + [item.value], at;
    }
    ResumeEnd(t, items, next - offset, data[next..]);
    r := Success(items, next - offset);
  }

  lemma FailurePasses(done: seq<Value>, size: nat, error: Error)
    ensures Resume(done, size, Failure(error)) == Failure(error)
  {
  }

  method ReadFields(ts: seq<Type>, data: seq<byte>, offset: nat) returns (r: Result<seq<Value>>, next: nat)
    requires offset <= |data|
    ensures Advances(r, next, ReadAll(ts, data[offset..]), offset)
    decreases ts, 0
  {
    hide Read;
    if ts == [] { return Success([], 0), offset; }
    var first, at := ReadValue(ts[0], data, offset);
    if first.Failure? { return Failure(first.error), at; }
    assert data[offset..][first.size..] == data[at..];
    var rest, end := ReadFields(ts[1..], data, at);
    r, next := Prepend(first, rest), end;
  }

  method LiftBuffer(t: Type, data: seq<byte>) returns (r: Result<Value>)
    ensures r == Lift(t, data)
  {
    hide Read;
    assert data[0..] == data;
    var value, offset := ReadValue(t, data, 0);
    if value.Success? && offset < |data| { return Failure(IncompleteData); }
    r := value;
  }
}
