/** IEEE 754 floats as their bits, and the conversion from single to double precision. */
module Floats {
  import opened Wire

  function Pow2(n: nat): (p: nat)
    ensures p >= 1
  {
    if n == 0 then 1 else 2 * Pow2(n - 1)
  }

  const FRACTION_32 := 0x80_0000             // two to the 23
  const FRACTION_64 := 0x10_0000_0000_0000   // two to the 52
  const SHIFT := 0x2000_0000                 // two to the 29, between the two
  const SIGN_64 := 0x8000_0000_0000_0000

  function Sign32(bits: nat): nat { bits / 0x8000_0000 % 2 }
  function Exponent32(bits: nat): nat { bits / FRACTION_32 % 0x100 }
  function Fraction32(bits: nat): nat { bits % FRACTION_32 }

  function Sign64(bits: nat): nat { bits / SIGN_64 % 2 }
  function Exponent64(bits: nat): nat { bits / FRACTION_64 % 0x800 }
  function Fraction64(bits: nat): nat { bits % FRACTION_64 }

  function Pack(sign: nat, exponent: nat, fraction: nat): nat { sign * SIGN_64 + exponent * FRACTION_64 + fraction }

  /** The place of the highest bit of `m`. */
  function TopBit(m: nat): (k: nat)
    requires m > 0
    ensures Pow2(k) <= m < 2 * Pow2(k)
  {
    if m == 1 then 0 else 1 + TopBit(m / 2)
  }

  /** The double with the value of the single: a subnormal gets its leading bit as the hidden one. A NaN
      keeps its payload and becomes quiet, as on amd64 and arm64. */
  function Widen(bits: nat): nat {
    var s, e, m := Sign32(bits), Exponent32(bits), Fraction32(bits);
    if e == 0xff then Pack(s, 0x7ff, if m == 0 then 0 else (m % 0x40_0000 + 0x40_0000) * SHIFT)
    else if e != 0 then Pack(s, e + 896, m * SHIFT)
    else if m == 0 then Pack(s, 0, 0)
    else Pack(s, TopBit(m) + 874, Normalized(m))
  }

  /** The fraction behind the highest bit of a subnormal. */
  function Normalized(m: nat): nat
    requires m > 0
  {
    var k := TopBit(m);
    Times(m - Pow2(k), Pow2(if k <= 52 then 52 - k else 0))
  }

  function Times(a: nat, b: nat): nat { a * b }

  /** The double that a wire float becomes. */
  function Double(w: Width, bits: nat): nat { if w == W32 then Widen(bits) else bits }

  predicate NonFinite(bits: nat) { Exponent64(bits) == 0x7ff }
  predicate NaN(bits: nat) { NonFinite(bits) && Fraction64(bits) != 0 }

  /** The magnitude of a finite single, in units of two to the -149, its smallest. */
  function Units32(bits: nat): nat {
    var e, m := Exponent32(bits), Fraction32(bits);
    if e == 0 then m else (FRACTION_32 + m) * Pow2(e - 1)
  }

  /** The magnitude of a finite double, in units of two to the -1074. */
  function Units64(bits: nat): nat {
    var e, m := Exponent64(bits), Fraction64(bits);
    if e == 0 then m else (FRACTION_64 + m) * Pow2(e - 1)
  }

  // ---------- widening keeps the value ----------

  lemma {:induction false} Pow2Add(a: nat, b: nat)
    ensures Pow2(a + b) == Pow2(a) * Pow2(b)
  {
    if a > 0 {
      Pow2Add(a - 1, b);
      Twice(Pow2(a - 1), Pow2(b));
    }
  }

  lemma Twice(x: nat, y: nat)
    ensures 2 * (x * y) == 2 * x * y
  {}

  lemma {:induction false} Pow2Up(a: nat, b: nat)
    requires a <= b
    ensures Pow2(a) <= Pow2(b)
  {
    if a < b { Pow2Up(a, b - 1); }
  }

  lemma Powers()
    ensures Pow2(23) == FRACTION_32 && Pow2(52) == FRACTION_64 && Pow2(29) == SHIFT
  {
    assert Pow2(8) == 0x100 && Pow2(15) == 0x8000;
    Pow2Add(8, 15);
    assert Pow2(14) == 0x4000;
    Pow2Add(14, 15);
    Pow2Add(23, 29);
  }

  lemma PackFields(s: nat, e: nat, m: nat)
    requires s < 2 && e < 0x800 && m < FRACTION_64
    ensures var b := Pack(s, e, m); Sign64(b) == s && Exponent64(b) == e && Fraction64(b) == m && b < 2 * SIGN_64
  {
    var b := Pack(s, e, m);
    assert b / FRACTION_64 == s * 0x800 + e;
    assert b / SIGN_64 == s;
  }

  /** What widening makes of sign, exponent and fraction; the fraction never overflows into the exponent. */
  lemma WidenFields(bits: nat)
    ensures var e, m, d := Exponent32(bits), Fraction32(bits), Widen(bits);
      && Sign64(d) == Sign32(bits) && d < 2 * SIGN_64
      && (e == 0xff ==> Exponent64(d) == 0x7ff && (Fraction64(d) == 0 <==> m == 0))
      && (0 < e < 0xff ==> Exponent64(d) == e + 896 && Fraction64(d) == m * SHIFT)
      && (e == 0 && m == 0 ==> Exponent64(d) == 0 && Fraction64(d) == 0)
      && (e == 0 && m > 0 ==> var k := TopBit(m);
            k <= 22 && Exponent64(d) == k + 874 && Fraction64(d) == (m - Pow2(k)) * Pow2(52 - k))
  {
    hide Pow2, Pack, Sign64, Exponent64, Fraction64, Sign32, Exponent32, Fraction32, Normalized;
    SmallFields(bits);
    var s, e, m := Sign32(bits), Exponent32(bits), Fraction32(bits);
    if e == 0xff {
      var n := m % 0x40_0000 + 0x40_0000;
      assert 0 < n * SHIFT < FRACTION_64;
      PackFields(s, 0x7ff, if m == 0 then 0 else n * SHIFT);
    } else if e != 0 {
      PackFields(s, e + 896, m * SHIFT);
    } else if m == 0 {
      PackFields(s, 0, 0);
    } else {
      NormalizedFits(m);
      PackFields(s, TopBit(m) + 874, Normalized(m));
    }
  }

  lemma NormalizedFits(m: nat)
    requires 0 < m < FRACTION_32
    ensures var k := TopBit(m); k <= 22 && Normalized(m) == (m - Pow2(k)) * Pow2(52 - k) && Normalized(m) < FRACTION_64
  {
    hide Pow2;
    Powers();
    var k := TopBit(m);
    if k >= 23 { Pow2Up(23, k); }
    Pow2Add(k, 52 - k);
    Shifted(m - Pow2(k), Pow2(k), Pow2(52 - k));
  }

  lemma Shifted(a: nat, b: nat, p: nat)
    requires a < b && p >= 1
    ensures a * p < b * p
  {
    assert (b - a) * p >= 1;
  }

  /** A finite single and its double have the same sign and the same value: two to the -149 is two to the
      925 times two to the -1074. Infinities stay infinities, and NaNs NaNs. */
  lemma WidenValue(bits: nat)
    ensures var d := Widen(bits);
      && Sign64(d) == Sign32(bits)
      && (NonFinite(d) <==> Exponent32(bits) == 0xff)
      && (NaN(d) <==> Exponent32(bits) == 0xff && Fraction32(bits) != 0)
      && (!NonFinite(d) ==> Units64(d) == Units32(bits) * Pow2(925))
  {
    hide Pow2, Widen, Sign64, Exponent64, Fraction64, Sign32, Fraction32;
    WidenFields(bits);
    Powers();
    var e, m := Exponent32(bits), Fraction32(bits);
    assert 0 <= e <= 0xff && m < FRACTION_32 by { SmallFields(bits); }
    if e == 0 && m > 0 {
      var k := TopBit(m);
      Distribute(Pow2(k), m - Pow2(k), Pow2(52 - k));
      Pow2Add(k, 52 - k);
      Pow2Add(52 - k, k + 873);
      Regroup(m, Pow2(52 - k), Pow2(k + 873));
    } else if 0 < e < 0xff {
      Distribute(FRACTION_32, m, Pow2(29));
      Pow2Add(23, 29);
      Pow2Add(29, 896);
      Pow2Add(e - 1, 896);
      Reorder(FRACTION_32 + m, Pow2(29), Pow2(e - 1), Pow2(896));
    }
  }

  lemma SmallFields(bits: nat)
    ensures Sign32(bits) < 2 && Exponent32(bits) <= 0xff && Fraction32(bits) < FRACTION_32
  {}

  lemma Distribute(a: nat, b: nat, p: nat)
    ensures (a + b) * p == a * p + b * p
  {}

  lemma Regroup(m: nat, p: nat, q: nat)
    ensures m * p * q == m * (p * q)
  {}

  lemma Reorder(m: nat, p: nat, q: nat, r: nat)
    ensures m * p * (q * r) == m * q * (p * r)
  {
    Regroup(m, p, q * r);
    Regroup(m, q, p * r);
    assert p * (q * r) == q * (p * r) by {
      Regroup(p, q, r);
      Regroup(q, p, r);
    }
  }
}
