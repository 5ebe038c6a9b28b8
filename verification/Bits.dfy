/** JavaScript integer arithmetic as used by the emitted codec: the bitwise operators on
    BigInt (two's complement of unbounded width), the 32-bit coercions in front of the
    Number operators, and the conversion of a BigInt to a double. */
module Bits {

  type byte = x: int | 0 <= x < 256

  const TWO_31: int := 0x8000_0000
  const TWO_32: int := 0x1_0000_0000
  const TWO_53: int := 0x20_0000_0000_0000
  const TWO_63: int := 0x8000_0000_0000_0000
  const TWO_64: int := 0x1_0000_0000_0000_0000

  function Pow2(k: nat): (p: nat)
    ensures p >= 1
  {
    if k == 0 then 1 else 2 * Pow2(k - 1)
  }

  /** `x << k`, doubling step by step. */
  function Shl(x: int, k: nat): int
    decreases k
  {
    if k == 0 then x else Shl(2 * x, k - 1)
  }

  lemma {:induction false} ShlSum(x: int, y: int, k: nat)
    ensures Shl(x + y, k) == Shl(x, k) + Shl(y, k)
    decreases k
  {
    if k > 0 { ShlSum(2 * x, 2 * y, k - 1); }
  }

  lemma {:induction false} ShlScales(x: int, k: nat)
    ensures Shl(x, k) == x * Pow2(k)
    decreases k
  {
    if k > 0 { ShlScales(2 * x, k - 1); }
  }

  lemma {:induction false} ShlMonotone(x: int, y: int, k: nat)
    requires x <= y
    ensures Shl(x, k) <= Shl(y, k)
    decreases k
  {
    if k > 0 { ShlMonotone(2 * x, 2 * y, k - 1); }
  }

  /** `x >> k`: division rounding toward minus infinity. */
  function Shr(x: int, k: nat): int { x / Pow2(k) }

  // ---- 32-bit coercions -------------------------------------------------------------

  function ToUint32(x: int): nat { x % TWO_32 }

  function ToInt32(x: int): int {
    var u := x % TWO_32;
    if u < TWO_31 then u else u - TWO_32
  }

  // ---- bitwise operators on unbounded two's complement -------------------------------

  /** Bit `i` of the two's complement representation of `x`. */
  predicate Bit(x: int, i: nat)
    decreases i
  {
    if i == 0 then x % 2 == 1 else Bit(x / 2, i - 1)
  }

  function Magnitude(x: int): nat { if x < 0 then -x - 1 else x }

  function And(x: int, y: int): int
    decreases Magnitude(x)
  {
    if x == 0 || y == 0 then 0
    else if x == -1 then y
    else if y == -1 then x
    else 2 * And(x / 2, y / 2) + (if x % 2 == 1 && y % 2 == 1 then 1 else 0)
  }

  function Or(x: int, y: int): int
    decreases Magnitude(x)
  {
    if x == 0 then y
    else if y == 0 then x
    else if x == -1 || y == -1 then -1
    else 2 * Or(x / 2, y / 2) + (if x % 2 == 1 || y % 2 == 1 then 1 else 0)
  }

  function Xor(x: int, y: int): int
    decreases Magnitude(x)
  {
    if x == 0 then y
    else if y == 0 then x
    else if x == -1 then -1 - y
    else if y == -1 then -1 - x
    else 2 * Xor(x / 2, y / 2) + (if x % 2 != y % 2 then 1 else 0)
  }

  // The Number operators coerce both operands to 32 bits first; shift counts are 0..31.
  function And32(x: int, y: int): int { And(ToInt32(x), ToInt32(y)) }
  function Or32(x: int, y: int): int { Or(ToInt32(x), ToInt32(y)) }
  function Xor32(x: int, y: int): int { Xor(ToInt32(x), ToInt32(y)) }
  function Shl32(x: int, k: nat): int { ToInt32(Shl(ToInt32(x), k)) }
  function Shr32(x: int, k: nat): int { Shr(ToInt32(x), k) }
  function UShr32(x: int, k: nat): int { Shr(ToUint32(x), k) }

  // One step of each recursion, for all numbers.
  lemma AndStep(x: int, y: int)
    ensures And(x, y) / 2 == And(x / 2, y / 2)
    ensures And(x, y) % 2 == 1 <==> (x % 2 == 1) && (y % 2 == 1)
  {
  }

  lemma OrStep(x: int, y: int)
    ensures Or(x, y) / 2 == Or(x / 2, y / 2)
    ensures Or(x, y) % 2 == 1 <==> (x % 2 == 1) || (y % 2 == 1)
  {
  }

  lemma XorStep(x: int, y: int)
    ensures Xor(x, y) / 2 == Xor(x / 2, y / 2)
    ensures Xor(x, y) % 2 == 1 <==> (x % 2 == 1) != (y % 2 == 1)
  {
  }

  // The arithmetic recursions above are the bitwise operators, bit by bit.
  lemma {:induction false} AndIsBitwise(x: int, y: int, i: nat)
    ensures Bit(And(x, y), i) == (Bit(x, i) && Bit(y, i))
    decreases i
  {
    hide And;
    AndStep(x, y);
    if i > 0 { AndIsBitwise(x / 2, y / 2, i - 1); }
  }

  lemma {:induction false} OrIsBitwise(x: int, y: int, i: nat)
    ensures Bit(Or(x, y), i) == (Bit(x, i) || Bit(y, i))
    decreases i
  {
    hide Or;
    OrStep(x, y);
    if i > 0 { OrIsBitwise(x / 2, y / 2, i - 1); }
  }

  lemma {:induction false} XorIsBitwise(x: int, y: int, i: nat)
    ensures Bit(Xor(x, y), i) == (Bit(x, i) != Bit(y, i))
    decreases i
  {
    hide Xor;
    XorStep(x, y);
    if i > 0 { XorIsBitwise(x / 2, y / 2, i - 1); }
  }

  /** Masking with `2^k - 1` is reduction modulo `2^k`, also for negative numbers. */
  lemma {:induction false} AndMask(x: int, k: nat)
    ensures And(x, Pow2(k) - 1) == x % Pow2(k)
    decreases k
  {
    hide And;
    if k == 0 {
      AndZero(x);
    } else {
      AndMask(x / 2, k - 1);
      AndMaskStep(x, Pow2(k - 1));
    }
  }

  lemma AndZero(x: int)
    ensures And(x, 0) == 0
  {
  }

  lemma AndMaskStep(x: int, p: nat)
    requires p >= 1 && And(x / 2, p - 1) == x / 2 % p
    ensures And(x, 2 * p - 1) == x % (2 * p)
  {
    HalveMod(x, p);
    var low := x / 2 % p;
    assert And(x, 2 * p - 1) == 2 * low + x % 2 by {
      assert (2 * p - 1) / 2 == p - 1 && (2 * p - 1) % 2 == 1;
      AndRec(x, 2 * p - 1);
    }
  }

  lemma AndRec(x: int, y: int)
    ensures And(x, y) == 2 * And(x / 2, y / 2) + (if x % 2 == 1 && y % 2 == 1 then 1 else 0)
  {
  }

  lemma HalveMod(x: int, p: int)
    requires p >= 1
    ensures x % (2 * p) == 2 * (x / 2 % p) + x % 2
  {
    var q, r := x / 2 / p, x / 2 % p;
    assert x / 2 == p * q + r;
    assert x == (2 * p) * q + (2 * r + x % 2);
    EuclideanUnique(x, 2 * p, q, 2 * r + x % 2);
  }

  lemma EuclideanUnique(x: int, d: int, q: int, r: int)
    requires d >= 1 && 0 <= r < d && x == d * q + r
    ensures x / d == q && x % d == r
  {
    var q', r' := x / d, x % d;
    assert d * (q - q') == r' - r;
    assert q - q' >= 1 ==> d * (q - q') >= d;
    assert q - q' <= -1 ==> d * (q - q') <= -d;
  }

  /** The lowest `k` bits of `x` are zero. */
  predicate LowZero(x: int, k: nat)
    decreases k
  {
    k == 0 || (x % 2 == 0 && LowZero(x / 2, k - 1))
  }

  lemma {:induction false} ShlLowZero(x: int, k: nat, j: nat)
    requires LowZero(x, j)
    ensures LowZero(Shl(x, k), k + j)
    decreases k
  {
    if k > 0 {
      assert 2 * x / 2 == x;
      ShlLowZero(2 * x, k - 1, j + 1);
    }
  }

  /** Or-ing in a block of bits above position `k` is addition. */
  lemma {:induction false} OrDisjoint(a: nat, h: int, k: nat)
    requires a < Pow2(k) && LowZero(h, k)
    ensures Or(a, h) == a + h
    decreases k
  {
    if k > 0 && a != 0 && h != 0 {
      OrDisjoint(a / 2, h / 2, k - 1);
    }
  }

  lemma {:induction false} OrCommutes(x: int, y: int)
    ensures Or(x, y) == Or(y, x)
    decreases Magnitude(x)
  {
    if x != 0 && y != 0 && x != -1 && y != -1 {
      OrCommutes(x / 2, y / 2);
    }
  }

  /** Testing bit `k` of a number with at most `k + 1` bits. */
  lemma {:induction false} AndTop(x: nat, k: nat)
    requires x < 2 * Pow2(k)
    ensures And(x, Pow2(k)) == if x < Pow2(k) then 0 else Pow2(k)
    decreases k
  {
    if k > 0 && x != 0 {
      AndTop(x / 2, k - 1);
    }
  }

  // ---- BigInt to Number -------------------------------------------------------------

  function BitLength(n: nat): nat { if n == 0 then 0 else 1 + BitLength(n / 2) }

  /** The trailing bits a double has no room for. */
  function Excess(n: nat): nat { if BitLength(n) <= 53 then 0 else BitLength(n) - 53 }

  /** The double nearest to `n`, ties to even. */
  function RoundToDouble(n: nat): nat {
    if n < TWO_53 then n
    else
      var ulp := Pow2(Excess(n));
      var q, r := n / ulp, n % ulp;
      (if 2 * r > ulp || (2 * r == ulp && q % 2 == 1) then q + 1 else q) * ulp
  }

  /** ToInt32(Number(n)); an overflow to Infinity coerces to 0. */
  function NumberToInt32(n: nat): int {
    if n < TWO_53 then ToInt32(n)
    else
      var d := RoundToDouble(n);
      if BitLength(d) > 1024 then 0 else ToInt32(d)
  }

  /** A BigInt survives the conversion exactly when the bits that do not fit are zero. */
  lemma RoundingExact(n: nat)
    ensures RoundToDouble(n) == n <==> n < TWO_53 || n % Pow2(Excess(n)) == 0
  {
    if n >= TWO_53 {
      var ulp := Pow2(Excess(n));
      var q, r := n / ulp, n % ulp;
      assert n == ulp * q + r;
      assert (q + 1) * ulp == q * ulp + ulp;
      assert q * ulp == ulp * q;
    }
  }
}
