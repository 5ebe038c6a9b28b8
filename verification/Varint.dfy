/** The emitted varint, zigzag and fixed-width helpers: each bit-level routine is written as
    the source writes it and tied to integer arithmetic on byte sequences. */
module Varint {
  import opened Bits

  // ---- reference arithmetic ---------------------------------------------------------

  /** Base-128 digits of `v`, least significant first, with continuation bits. */
  function VarintBytes(v: nat): (s: seq<byte>)
    ensures |s| >= 1
  {
    if v < 128 then [v] else [v % 128 + 128] + VarintBytes(v / 128)
  }

  /** The BigInt writer: a negative number falls out of the loop at once and
      `Buffer.from` keeps its lowest eight bits. */
  function BigVarintBytes(v: int): (s: seq<byte>)
    ensures |s| >= 1
    ensures v >= 0 ==> s == VarintBytes(v)
  {
    if v < 0 then [v % 256] else VarintBytes(v)
  }

  datatype VarintRead = Missing | Got(value: nat, length: nat)

  /** The varint at the front of `s`, of any length; Missing when the bytes run out. */
  function ReadVarint(s: seq<byte>): (r: VarintRead)
    ensures r.Got? ==> 1 <= r.length <= |s|
  {
    if s == [] then Missing
    else if s[0] < 128 then Got(s[0], 1)
    else Prepend(s[0] - 128, ReadVarint(s[1..]))
  }

  function Prepend(digit: nat, r: VarintRead): VarintRead {
    if r.Missing? then Missing else Got(digit + 128 * r.value, 1 + r.length)
  }

  // ---- the emitted loops ------------------------------------------------------------

  lemma Pow2Seven(k: nat)
    ensures Pow2(k + 7) == 128 * Pow2(k)
  {
    assert Pow2(k + 7) == 2 * Pow2(k + 6) == 4 * Pow2(k + 5) == 8 * Pow2(k + 4);
    assert Pow2(k + 4) == 2 * Pow2(k + 3) == 4 * Pow2(k + 2) == 8 * Pow2(k + 1);
  }

  lemma Pow2Small()
    ensures Pow2(0) == 1 && Pow2(1) == 2 && Pow2(3) == 8 && Pow2(4) == 16
  {
  }

  lemma Pow2Constants()
    ensures Pow2(1) == 2 && Pow2(3) == 8 && Pow2(7) == 128 && Pow2(31) == TWO_31 && Pow2(32) == TWO_32
    ensures Pow2(35) == 8 * TWO_32 && Pow2(63) == TWO_63 && Pow2(64) == TWO_64 && Pow2(70) == 64 * TWO_64
  {
    hide Pow2;
    Pow2Small();
    Pow2Seven(0); Pow2Seven(7); Pow2Seven(14); Pow2Seven(21); Pow2Seven(28);
    Pow2Seven(35); Pow2Seven(42); Pow2Seven(49); Pow2Seven(56); Pow2Seven(63);
    Pow2Seven(3); Pow2Seven(10); Pow2Seven(17); Pow2Seven(24);
    Pow2Seven(4); Pow2Seven(11); Pow2Seven(18); Pow2Seven(25);
    Pow2Seven(1); Pow2Seven(8); Pow2Seven(15); Pow2Seven(22); Pow2Seven(29); Pow2Seven(36);
    Pow2Seven(43); Pow2Seven(50); Pow2Seven(57);
  }

  lemma SevenBits(v: int)
    ensures And(v, 0x7f) == v % 128
    ensures Or(v % 128, 0x80) == v % 128 + 128
  {
    hide Pow2, And, Or, Shl, LowZero;
    Pow2Constants();
    AndMask(v, 7);
    ShlLowZero(1, 7, 0);
    ShlScales(1, 7);
    OrDisjoint(v % 128, 0x80, 7);
  }

  lemma TopBit(b: byte)
    ensures And(b, 0x80) == 0 <==> b < 128
  {
    hide Pow2, And;
    Pow2Constants();
    AndTop(b, 7);
  }

  /** Coercing an unsigned number to int32 keeps it modulo 128 and modulo 2. */
  lemma Int32Congruent(v: nat)
    requires v < TWO_32
    ensures ToInt32(v) == if v < TWO_31 then v else v - TWO_32
    ensures ToInt32(v) % 128 == v % 128 && ToInt32(v) % 2 == v % 2
  {
    if v >= TWO_31 {
      EuclideanUnique(v - TWO_32, 128, v / 128 - 0x200_0000, v % 128);
      EuclideanUnique(v - TWO_32, 2, v / 2 - TWO_31, v % 2);
    }
  }

  lemma SevenBits32(v: nat)
    requires v < TWO_32
    ensures Or32(And32(v, 0x7f), 0x80) == v % 128 + 128
  {
    hide And, Or;
    Int32Congruent(v);
    SevenBits(ToInt32(v));
    var low := v % 128;
    assert ToInt32(0x7f) == 0x7f;
    assert And32(v, 0x7f) == low;
    assert ToInt32(low) == low && ToInt32(0x80) == 0x80;
  }

  lemma ShiftSeven(v: int)
    ensures Shr(v, 7) == v / 128
  {
    hide Pow2;
    Pow2Constants();
  }

  // The two expressions of a turn of the writing loops: the byte pushed, the bits left.
  method LowSeven32(v: nat) returns (low: byte)
    requires v < TWO_32
    ensures low == v % 128 + 128
  {
    hide *;
    SevenBits32(v);
    low := Or32(And32(v, 0x7f), 0x80);
  }

  method DropSeven32(v: nat) returns (high: nat)
    requires v < TWO_32
    ensures high == v / 128
  {
    ShiftSeven(v);
    high := UShr32(v, 7);
  }

  method EncodeVarint(value: int) returns (bytes: seq<byte>)
    ensures bytes == VarintBytes(ToUint32(value))
  {
    var v: nat := ToUint32(value);  // value >>> 0
    bytes := [];
    while v >= 0x80
      invariant v < TWO_32
      invariant bytes + VarintBytes(v) == VarintBytes(ToUint32(value))
    {
      var low := LowSeven32(v);
      assert VarintBytes(v) == [low] + VarintBytes(v / 128);
      bytes := bytes + [low];
      v := DropSeven32(v);
    }
    bytes := bytes + [v];
  }

  method LowSeven(v: nat) returns (low: byte)
    ensures low == v % 128 + 128
  {
    hide *;
    SevenBits(v);
    low := Or(And(v, 0x7f), 0x80);
  }

  method DropSeven(v: nat) returns (high: nat)
    ensures high == v / 128
  {
    ShiftSeven(v);
    high := Shr(v, 7);
  }

  lemma BigVarintStep(v: int)
    ensures BigVarintBytes(v) ==
      if v >= 128 then [v % 128 + 128] + BigVarintBytes(v / 128) else [v % 256]
  {
  }

  method EncodeVarintBigint(value: int) returns (bytes: seq<byte>)
    ensures bytes == BigVarintBytes(value)
  {
    hide BigVarintBytes;
    var v: int := value;
    bytes := [];
    while v >= 0x80
      invariant bytes + BigVarintBytes(v) == BigVarintBytes(value)
    {
      BigVarintStep(v);
      var low := LowSeven(v);
      bytes := bytes + [low];
      v := DropSeven(v);
    }
    BigVarintStep(v);
    bytes := bytes + [v % 256];  // Buffer.from keeps the low eight bits
  }

  /** What a scan that has read `i` digits worth `acc` makes of the remaining bytes. */
  ghost function Resume(acc: nat, i: nat, r: VarintRead): VarintRead {
    ShlMonotoneFromZero(r, i);
    if r.Missing? then Missing else Got(acc + Shl(r.value, 7 * i), i + r.length)
  }

  lemma ShlMonotoneFromZero(r: VarintRead, i: nat)
    ensures r.Got? ==> Shl(r.value, 7 * i) >= 0
  {
    if r.Got? {
      ShlScales(r.value, 7 * i);
    }
  }

  lemma ResumeStart(r: VarintRead)
    ensures Resume(0, 0, r) == r && Pow2(0) == 1
  {
  }

  lemma ShlSeven(x: int, k: nat)
    ensures Shl(x, k + 7) == Shl(128 * x, k)
  {
    assert Shl(x, k + 7) == Shl(2 * x, k + 6) == Shl(4 * x, k + 5) == Shl(8 * x, k + 4);
    assert Shl(8 * x, k + 4) == Shl(16 * x, k + 3) == Shl(32 * x, k + 2) == Shl(64 * x, k + 1);
  }

  /** The digit just read lands above the `k` bits collected so far. */
  lemma OrDigit(acc: nat, k: nat, d: nat)
    requires acc < Pow2(k) && d < 128
    ensures Shl(d, k) >= 0
    ensures Or(acc, Shl(d, k)) == acc + Shl(d, k) < Pow2(k + 7)
  {
    hide *;
    ShlMonotone(0, d, k);
    ShlScales(0, k);
    ShlLowZero(d, k, 0);
    OrDisjoint(acc, Shl(d, k), k);
    ShlSum(d, 1, k);
    ShlScales(1, k);
    ShlMonotone(d + 1, 128, k);
    ShlSeven(1, k);
    ShlScales(1, k + 7);
  }

  /** One turn of the reading loop: the digit read moves from the tail into the accumulator. */
  lemma ResumeStep(acc: nat, i: nat, rest: seq<byte>, acc': nat)
    requires rest != [] && acc' == acc + Shl(rest[0] % 128, 7 * i)
    ensures rest[0] < 128 ==> Resume(acc, i, ReadVarint(rest)) == Got(acc', i + 1)
    ensures rest[0] >= 128 ==>
              Resume(acc, i, ReadVarint(rest)) == Resume(acc', i + 1, ReadVarint(rest[1..]))
  {
    hide Shl;
    var tail := ReadVarint(rest[1..]);
    if rest[0] >= 128 && tail.Got? {
      ShlSum(rest[0] - 128, 128 * tail.value, 7 * i);
      ShlSeven(tail.value, 7 * i);
      assert 7 * (i + 1) == 7 * i + 7;
    }
  }

  method DecodeVarint(buffer: seq<byte>, offset: nat) returns (r: VarintRead)
    ensures r == if offset <= |buffer| then ReadVarint(buffer[offset..]) else Missing
  {
    hide And, Or, Shl, Pow2;
    var result: nat, shift: nat, i: nat := 0, 0, 0;
    if offset <= |buffer| { ResumeStart(ReadVarint(buffer[offset..])); }
    ResumeStart(Missing);
    ghost var whole := if offset <= |buffer| then ReadVarint(buffer[offset..]) else Missing;
    while offset + i < |buffer|
      invariant shift == 7 * i && result < Pow2(shift)
      invariant offset <= |buffer| ==> offset + i <= |buffer|
      invariant offset <= |buffer| ==> whole == Resume(result, i, ReadVarint(buffer[offset + i..]))
    {
      var b := buffer[offset + i];
      assert buffer[offset + i..][1..] == buffer[offset + i + 1..];
      SevenBits(b);
      TopBit(b);
      OrDigit(result, shift, b % 128);
      ResumeStep(result, i, buffer[offset + i..], result + Shl(b % 128, shift));
      result := Or(result, Shl(And(b, 0x7f), shift));
      i := i + 1;
      if And(b, 0x80) == 0 {
        return Got(result, i);
      }
      shift := shift + 7;
    }
    return Missing;
  }

  // ---- what the varint format promises ----------------------------------------------

  /** Reading a written varint gives the value back and stops exactly where it ends. */
  lemma {:induction false} ReadAfterWrite(v: nat, rest: seq<byte>)
    ensures ReadVarint(VarintBytes(v) + rest) == Got(v, |VarintBytes(v)|)
  {
    if v >= 128 {
      ReadAfterWrite(v / 128, rest);
      assert (VarintBytes(v) + rest)[1..] == VarintBytes(v / 128) + rest;
    }
  }

  /** A varint is self-delimiting: only the bytes it occupies matter, and any cut is noticed. */
  lemma {:induction false} ReadIsLocal(s: seq<byte>, rest: seq<byte>)
    ensures ReadVarint(s).Got? ==> ReadVarint(s[..ReadVarint(s).length] + rest) == ReadVarint(s)
    ensures ReadVarint(s).Got? ==> forall k :: 0 <= k < ReadVarint(s).length ==> ReadVarint(s[..k]) == Missing
  {
    var r := ReadVarint(s);
    if r.Got? && s[0] >= 128 {
      ReadIsLocal(s[1..], rest);
      assert (s[..r.length] + rest)[1..] == s[1..][..r.length - 1] + rest;
      forall k | 0 <= k < r.length ensures ReadVarint(s[..k]) == Missing {
        if k > 0 { assert s[..k][1..] == s[1..][..k - 1]; }
      }
    }
  }

  /** No byte string that reads as `v` is shorter than the one written for `v`. */
  lemma {:induction false} WriteIsMinimal(s: seq<byte>)
    requires ReadVarint(s).Got?
    ensures |VarintBytes(ReadVarint(s).value)| <= ReadVarint(s).length
  {
    var v := ReadVarint(s).value;
    if s[0] >= 128 {
      WriteIsMinimal(s[1..]);
      var w := ReadVarint(s[1..]).value;
      assert v == (s[0] - 128) + 128 * w && v / 128 == w;
    }
  }

  /** `k` bytes hold exactly the numbers below `2^(7k)`. */
  lemma {:induction false} LengthBound(v: nat, k: nat)
    requires k >= 1
    ensures |VarintBytes(v)| <= k <==> v < Pow2(7 * k)
    decreases k
  {
    Pow2Seven(7 * (k - 1));
    if k == 1 {
      Pow2Seven(0);
    } else if v >= 128 {
      LengthBound(v / 128, k - 1);
      var p := Pow2(7 * (k - 1));
      assert v / 128 < p <==> v < 128 * p;
    } else {
      assert Pow2(7 * (k - 1)) >= 1;
    }
  }

  /** At most five bytes for 32-bit numbers and ten for 64-bit numbers. */
  lemma WidthBound(v: nat)
    ensures v < TWO_32 ==> |VarintBytes(v)| <= 5
    ensures v < TWO_64 ==> |VarintBytes(v)| <= 10
  {
    hide *;
    Pow2Constants();
    LengthBound(v, 5);
    LengthBound(v, 10);
  }

  // ---- zigzag -----------------------------------------------------------------------

  function EncodeZigZag32(value: int): int { Xor32(Shl32(value, 1), Shr32(value, 31)) }

  function DecodeZigZag32(value: int): int { Xor32(UShr32(value, 1), -And32(value, 1)) }

  function EncodeZigZag64(v: int): int { Xor(Shl(v, 1), Shr(v, 63)) }

  function DecodeZigZag64(value: int): int { Xor(Shr(value, 1), -And(value, 1)) }

  lemma LowBit(x: int)
    ensures And(x, 1) == x % 2
  {
    hide And;
    AndMask(x, 1);
    assert Pow2(1) == 2;
  }

  /** Zigzag and its inverse cancel on the whole 32-bit range; between the two the number
      crosses the wire as an unsigned varint. */
  lemma ZigZag32(n: int)
    requires -TWO_31 <= n < TWO_31
    ensures DecodeZigZag32(ToUint32(EncodeZigZag32(n))) == n
  {
    hide EncodeZigZag32, DecodeZigZag32;
    ZigZag32Encode(n);
    var z := ToUint32(EncodeZigZag32(n));
    ZigZag32Decode(z);
  }

  lemma SignShift32(n: int)
    requires -TWO_31 <= n < TWO_31
    ensures Shr32(n, 31) == if n >= 0 then 0 else -1
  {
    hide Pow2;
    Pow2Constants();
  }

  lemma XorSign32(d: int, s: int)
    requires -TWO_31 <= d < TWO_31 && (s == 0 || s == -1)
    ensures Xor32(d, s) == if s == 0 then d else -1 - d
  {
    assert ToInt32(0) == 0 && ToInt32(-1) == -1 && ToInt32(d) == d;
  }

  lemma ZigZag32Shape(n: int)
    requires -TWO_31 <= n < TWO_31
    ensures EncodeZigZag32(n) == if n >= 0 then ToInt32(2 * n) else -1 - ToInt32(2 * n)
  {
    hide Xor32, Shr32, Xor;
    SignShift32(n);
    XorSign32(ToInt32(2 * n), Shr32(n, 31));
    assert ToInt32(n) == n && Shl(n, 1) == 2 * n;
  }

  lemma DoubleWraps(n: int)
    requires -TWO_31 <= n < TWO_31
    ensures ToUint32(ToInt32(2 * n)) == if n >= 0 then 2 * n else 2 * n + TWO_32
    ensures n < 0 ==> ToUint32(-1 - ToInt32(2 * n)) == -2 * n - 1
  {
    var u := (2 * n) % TWO_32;
    EuclideanUnique(2 * n, TWO_32, if n >= 0 then 0 else -1, if n >= 0 then 2 * n else 2 * n + TWO_32);
  }

  lemma ZigZag32Encode(n: int)
    requires -TWO_31 <= n < TWO_31
    ensures ToUint32(EncodeZigZag32(n)) == if n >= 0 then 2 * n else -2 * n - 1
  {
    hide EncodeZigZag32;
    ZigZag32Shape(n);
    DoubleWraps(n);
  }

  lemma HalfAndLowBit32(z: nat)
    requires z < TWO_32
    ensures UShr32(z, 1) == z / 2 && And32(z, 1) == z % 2
  {
    hide And, Pow2;
    Pow2Small();
    Int32Congruent(z);
    LowBit(ToInt32(z));
    assert ToInt32(1) == 1;
  }

  lemma ZigZag32Decode(z: nat)
    requires z < TWO_32
    ensures DecodeZigZag32(z) == if z % 2 == 0 then z / 2 else -1 - z / 2
  {
    hide And32, UShr32, Xor32;
    HalfAndLowBit32(z);
    XorSign32(z / 2, -(z % 2));
  }

  /** The same on the whole 64-bit range, with unbounded BigInt operators. */
  lemma ZigZag64(n: int)
    requires -TWO_63 <= n < TWO_63
    ensures EncodeZigZag64(n) == if n >= 0 then 2 * n else -2 * n - 1
    ensures DecodeZigZag64(EncodeZigZag64(n)) == n
  {
    hide And, Pow2;
    Pow2Constants();
    assert n / TWO_63 == if n >= 0 then 0 else -1;
    LowBit(EncodeZigZag64(n));
  }

  // ---- fixed-width little-endian numbers ----------------------------------------------

  function LittleEndian(n: nat, width: nat): (s: seq<byte>)
    ensures |s| == width
  {
    if width == 0 then [] else [n % 256] + LittleEndian(n / 256, width - 1)
  }

  function FromLittleEndian(s: seq<byte>): nat {
    if s == [] then 0 else s[0] + 256 * FromLittleEndian(s[1..])
  }

  lemma ModStep(n: nat, p: nat)
    requires p >= 1
    ensures n % (256 * p) == 256 * (n / 256 % p) + n % 256
  {
    var q, r := n / 256 / p, n / 256 % p;
    assert n / 256 == p * q + r;
    assert n == (256 * p) * q + (256 * r + n % 256);
    EuclideanUnique(n, 256 * p, q, 256 * r + n % 256);
  }

  lemma Pow2Eight(k: nat)
    ensures Pow2(k + 8) == 256 * Pow2(k)
  {
    Pow2Seven(k);
  }

  /** Writing keeps exactly the low `8 * width` bits. */
  lemma {:induction false} FixedRoundTrip(n: nat, width: nat)
    ensures FromLittleEndian(LittleEndian(n, width)) == n % Pow2(8 * width)
    decreases width
  {
    hide Pow2;
    if width == 0 {
      Pow2Small();
    } else {
      var p := Pow2(8 * (width - 1));
      FixedRoundTrip(n / 256, width - 1);
      Pow2Eight(8 * (width - 1));
      ModStep(n, p);
      assert LittleEndian(n, width)[1..] == LittleEndian(n / 256, width - 1);
    }
  }

  lemma {:induction false} FromLittleEndianBound(s: seq<byte>)
    ensures FromLittleEndian(s) < Pow2(8 * |s|)
  {
    if s != [] {
      FromLittleEndianBound(s[1..]);
      Pow2Eight(8 * (|s| - 1));
    }
  }
}
