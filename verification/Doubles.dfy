/** What `Number(n)` makes of an integer: the nearest double, the even one of two that are
    equally near. A double here is an integer with at most 53 significant bits. */
module Doubles {
  import opened Bits

  const TWO_52: nat := 0x10_0000_0000_0000

  predicate Scaled(d: nat, m: nat, e: nat) { m < TWO_53 && d == m * Pow2(e) }

  ghost predicate IsDouble(d: nat) { exists m: nat, e: nat :: Scaled(d, m, e) }

  function Distance(x: nat, y: nat): nat { if x < y then y - x else x - y }

  // ---- the unit in the last place -----------------------------------------------------------

  lemma {:induction false} BitLengthBounds(n: nat)
    ensures n < Pow2(BitLength(n)) && (n >= 1 ==> BitLength(n) >= 1 && Pow2(BitLength(n) - 1) <= n)
  {
    if n >= 2 { BitLengthBounds(n / 2); }
  }

  lemma {:induction false} Pow2Adds(j: nat, k: nat)
    ensures Pow2(j + k) == Pow2(j) * Pow2(k)
    decreases k
  {
    if k > 0 {
      Pow2Adds(j, k - 1);
      assert 2 * (Pow2(j) * Pow2(k - 1)) == Pow2(j) * (2 * Pow2(k - 1));
    }
  }

  lemma {:induction false} Pow2Monotone(j: nat, k: nat)
    requires j <= k
    ensures Pow2(j) <= Pow2(k)
    decreases k
  {
    if j < k { Pow2Monotone(j, k - 1); }
  }

  lemma Pow2Significand()
    ensures Pow2(52) == TWO_52 && Pow2(53) == TWO_53
  {
    assert Pow2(10) == 1024;
    assert Pow2(20) == 1024 * 1024 by { Pow2Adds(10, 10); }
    assert Pow2(40) == 1024 * 1024 * (1024 * 1024) by { Pow2Adds(20, 20); }
    assert Pow2(50) == 1024 * 1024 * (1024 * 1024) * 1024 by { Pow2Adds(40, 10); }
  }

  /** Scaling keeps a comparison. */
  lemma ScaleUp(x: nat, y: nat, u: nat)
    ensures x <= y ==> x * u <= y * u
    ensures x < y ==> x * u + u <= y * u
  {
    if x < y { assert (x + 1) * u <= y * u; }
  }

  lemma DivideBounds(n: nat, u: nat, low: nat, high: nat)
    requires u >= 1 && low * u <= n < high * u
    ensures low <= n / u < high
  {
    var q := n / u;
    assert n == u * q + n % u;
    ScaleUp(q + 1, low, u);
    ScaleUp(high, q, u);
  }

  /** Above 2^53 the quotient by the unit has exactly 53 bits. */
  lemma QuotientBits(n: nat)
    requires n >= TWO_53
    ensures Excess(n) >= 1 && TWO_52 <= n / Pow2(Excess(n)) < TWO_53
  {
    hide Pow2, BitLength;
    BitLengthBounds(n);
    Pow2Significand();
    var len := BitLength(n);
    if len <= 53 { Pow2Monotone(len, 53); }
    var k := Excess(n);
    Pow2Adds(52, k);
    Pow2Adds(53, k);
    DivideBounds(n, Pow2(k), TWO_52, TWO_53);
  }

  // ---- rounding to a multiple of the unit -----------------------------------------------------

  /** The rounding branch on its own. */
  function Rounded(n: nat, u: nat): nat
    requires u >= 1
  {
    var q, r := n / u, n % u;
    if 2 * r > u || (2 * r == u && q % 2 == 1) then q + 1 else q
  }

  lemma RoundedDistance(n: nat, u: nat)
    requires u >= 1
    ensures n / u <= Rounded(n, u) <= n / u + 1
    ensures Distance(n, Rounded(n, u) * u) <= n % u && Distance(n, Rounded(n, u) * u) <= u - n % u
    ensures 2 * Distance(n, Rounded(n, u) * u) == u ==> Rounded(n, u) % 2 == 0
  {
    var q, r := n / u, n % u;
    assert n == q * u + r;
    assert (q + 1) * u == q * u + u;
  }

  /** No multiple of the unit is nearer than the remainder on either side. */
  lemma MultiplesFar(n: nat, u: nat, c: nat)
    requires u >= 1
    ensures Distance(n, c * u) >= n % u || Distance(n, c * u) >= u - n % u
  {
    var q, r := n / u, n % u;
    assert n == q * u + r;
    if c <= q { ScaleUp(c, q, u); } else { ScaleUp(q, c, u); }
  }

  /** Every double is a multiple of the unit, or lies below all numbers of this length. */
  lemma DoubleCases(n: nat, d: nat, m: nat, e: nat)
    requires n >= TWO_53 && Scaled(d, m, e)
    ensures var u := Pow2(Excess(n)); d <= n / u * u || exists c: nat :: d == c * u
  {
    hide Pow2, Excess;
    QuotientBits(n);
    var k := Excess(n);
    var u, q := Pow2(k), n / Pow2(k);
    if e >= k {
      Pow2Adds(e - k, k);
      assert m * (Pow2(e - k) * u) == m * Pow2(e - k) * u;
      assert d == m * Pow2(e - k) * u;
    } else {
      Pow2Monotone(e, k - 1);
      Pow2Adds(1, k - 1);
      Pow2One();
      BelowQuotient(m, Pow2(e), Pow2(k - 1), q);
    }
  }

  lemma Pow2One()
    ensures Pow2(1) == 2
  {
  }

  lemma BelowQuotient(m: nat, p: nat, half: nat, q: nat)
    requires m < TWO_53 && p <= half && TWO_52 <= q
    ensures m * p <= q * (2 * half)
  {
    ScaleUp(p, half, m);
    ScaleUp(m, 2 * q, half);
    assert 2 * q * half == q * (2 * half);
  }

  // ---- the result ---------------------------------------------------------------------------------

  lemma RoundToDoubleMeans(n: nat)
    requires n >= TWO_53
    ensures RoundToDouble(n) == Rounded(n, Pow2(Excess(n))) * Pow2(Excess(n))
  {
  }

  lemma RoundIsDouble(n: nat)
    ensures IsDouble(RoundToDouble(n))
  {
    if n < TWO_53 {
      assert Pow2(0) == 1;
      assert Scaled(n, n, 0);
    } else {
      hide Pow2, Excess, Rounded;
      var k := Excess(n);
      var q := Rounded(n, Pow2(k));
      RoundToDoubleMeans(n);
      QuotientBits(n);
      RoundedDistance(n, Pow2(k));
      if q < TWO_53 {
        assert Scaled(q * Pow2(k), q, k);
      } else {
        Pow2Adds(1, k);
        Pow2One();
        assert TWO_52 * (2 * Pow2(k)) == q * Pow2(k);
        assert Scaled(q * Pow2(k), TWO_52, 1 + k);
      }
    }
  }

  /** The conversion yields a double, no double is nearer to `n`, and of two equally near ones it
      is the one with the even significand. */
  lemma RoundIsNearest(n: nat, d: nat)
    requires IsDouble(d)
    ensures IsDouble(RoundToDouble(n)) && Distance(n, RoundToDouble(n)) <= Distance(n, d)
    ensures n >= TWO_53 && 2 * Distance(n, RoundToDouble(n)) == Pow2(Excess(n)) ==>
              RoundToDouble(n) / Pow2(Excess(n)) % 2 == 0
  {
    hide Pow2, Excess, Rounded, RoundToDouble;
    RoundIsDouble(n);
    if n < TWO_53 {
      SmallIsExact(n);
    } else {
      var m: nat, e: nat :| Scaled(d, m, e);
      RoundToDoubleMeans(n);
      RoundedNearest(n, d, m, e);
    }
  }

  lemma RoundedNearest(n: nat, d: nat, m: nat, e: nat)
    requires n >= TWO_53 && Scaled(d, m, e)
    ensures var u := Pow2(Excess(n));
            var x := Rounded(n, u) * u;
            Distance(n, x) <= Distance(n, d) && (2 * Distance(n, x) == u ==> x / u % 2 == 0)
  {
    hide Pow2, Excess, Rounded, Scaled;
    var u := Pow2(Excess(n));
    var q := Rounded(n, u);
    RoundedDistance(n, u);
    DoubleCases(n, d, m, e);
    BelowIsFar(n, u, d);
    if d > n / u * u {
      var c: nat :| d == c * u;
      MultiplesFar(n, u, c);
    }
    EuclideanUnique(q * u, u, q, 0);
  }

  lemma BelowIsFar(n: nat, u: nat, d: nat)
    requires u >= 1
    ensures d <= n / u * u ==> Distance(n, d) >= n % u
  {
    assert n == n / u * u + n % u;
  }

  lemma SmallIsExact(n: nat)
    requires n < TWO_53
    ensures RoundToDouble(n) == n
  {
  }

  // ---- the first integer that is lost ---------------------------------------------------------

  /** 2^53 + 1 is rounded to 2^53. */
  lemma FirstLost()
    ensures RoundToDouble(TWO_53 + 1) == TWO_53 == RoundToDouble(TWO_53)
  {
    hide Pow2, BitLength;
    Pow2Significand();
    Pow2One();
    Pow2Adds(1, 53);
    HasBitLength(TWO_53 + 1, 54);
    HasBitLength(TWO_53, 54);
  }

  lemma HasBitLength(n: nat, len: nat)
    requires len >= 1 && Pow2(len - 1) <= n < Pow2(len)
    ensures BitLength(n) == len
  {
    hide Pow2, BitLength;
    BitLengthBounds(n);
    if BitLength(n) < len { Pow2Monotone(BitLength(n), len - 1); }
    if BitLength(n) > len { Pow2Monotone(len, BitLength(n) - 1); }
  }

  // ---- ToInt32 after the conversion ---------------------------------------------------------------

  /** `Number(n) | 0`: a 32-bit number congruent to the nearest double, as long as that is finite. */
  lemma CoercionLaw(n: nat)
    ensures -TWO_31 <= NumberToInt32(n) < TWO_31
    ensures BitLength(RoundToDouble(n)) <= 1024 ==> (NumberToInt32(n) - RoundToDouble(n)) % TWO_32 == 0
  {
    hide RoundToDouble, BitLength;
    SmallOrLarge(n);
    var d: int := RoundToDouble(n);
    var u := d % TWO_32;
    EuclideanUnique(u - d, TWO_32, -(d / TWO_32), 0);
    EuclideanUnique(u - TWO_32 - d, TWO_32, -(d / TWO_32) - 1, 0);
  }

  lemma SmallOrLarge(n: nat)
    ensures n < TWO_53 ==> RoundToDouble(n) == n
  {
  }

  /** From 2^85 on nothing of the low 32 bits is left: every such tag is field 0, wire type 0. */
  lemma HugeIsZero(n: nat)
    requires n >= Pow2(85)
    ensures NumberToInt32(n) == 0
  {
    hide Pow2, BitLength, Rounded;
    Pow2Significand();
    Pow2Monotone(53, 85);
    BitLengthBounds(n);
    if BitLength(n) <= 85 { Pow2Monotone(BitLength(n), 85); }
    var k := Excess(n);
    RoundToDoubleMeans(n);
    Pow2Adds(k - 32, 32);
    Pow2Word();
    var c := Rounded(n, Pow2(k)) * Pow2(k - 32);
    assert RoundToDouble(n) == c * TWO_32 by { assert Rounded(n, Pow2(k)) * (Pow2(k - 32) * TWO_32) == c * TWO_32; }
    EuclideanUnique(c * TWO_32, TWO_32, c, 0);
  }

  lemma Pow2Word()
    ensures Pow2(32) == TWO_32
  {
    assert Pow2(16) == 0x1_0000 by { assert Pow2(8) == 256; Pow2Adds(8, 8); }
    Pow2Adds(16, 16);
  }
}
