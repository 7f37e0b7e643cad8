/** binary16 against binary32: floatToHalf and halfToFloat on bit patterns. Bit fields are taken
    apart with division and remainder and put together by addition, which is what the shifts, masks
    and disjoint ors of the code do. */
module Half {
  import opened Powers

  type U16 = x: int | 0 <= x < 0x1_0000
  type U32 = x: int | 0 <= x < 0x1_0000_0000

  function Sign32(x: U32): int { x / 0x8000_0000 }
  function Exp32(x: U32): int { x / 0x80_0000 % 0x100 }
  function Mant32(x: U32): int { x % 0x80_0000 }
  function Sign16(h: U16): int { h / 0x8000 }
  function Exp16(h: U16): int { h / 0x400 % 0x20 }
  function Mant16(h: U16): int { h % 0x400 }

  predicate IsNaN32(x: U32) { Exp32(x) == 0xFF && Mant32(x) != 0 }
  predicate IsNaN16(h: U16) { Exp16(h) == 0x1F && Mant16(h) != 0 }

  /** A NaN whose first mantissa bit is clear; using it sets that bit (section 6.2.1 of IEEE 754-2019). */
  predicate IsSignalling32(x: U32) { IsNaN32(x) && Mant32(x) < 0x40_0000 }

  function Quiet32(x: U32): U32 {
    if IsSignalling32(x) then
      QuietFits(x);
      x + 0x40_0000
    else x
  }

  lemma {:induction false} QuietFits(x: U32)
    requires Mant32(x) < 0x40_0000
    ensures x + 0x40_0000 < 0x1_0000_0000
    ensures Sign32(x + 0x40_0000) == Sign32(x) && Exp32(x + 0x40_0000) == Exp32(x)
    ensures Mant32(x + 0x40_0000) == Mant32(x) + 0x40_0000
  {
    Split32(x);
    Fields32(Sign32(x), Exp32(x), Mant32(x) + 0x40_0000);
  }

  lemma {:induction false} QuietNaNIsNaN(x: U32)
    requires IsNaN32(x)
    ensures IsNaN32(Quiet32(x)) && Sign32(Quiet32(x)) == Sign32(x)
  {
    hide Sign32, Exp32, Mant32;
    if IsSignalling32(x) {
      QuietFits(x);
      Split32(x);
    }
  }

  lemma {:induction false} Fields32(s: int, e: int, m: int)
    requires 0 <= s < 2 && 0 <= e < 0x100 && 0 <= m < 0x80_0000
    ensures 0 <= s * 0x8000_0000 + e * 0x80_0000 + m < 0x1_0000_0000
    ensures var x := s * 0x8000_0000 + e * 0x80_0000 + m; Sign32(x) == s && Exp32(x) == e && Mant32(x) == m
  {
    var x := s * 0x8000_0000 + e * 0x80_0000 + m;
    assert x / 0x80_0000 == s * 0x100 + e;
  }

  lemma {:induction false} Split32(x: U32)
    ensures 0 <= Sign32(x) < 2 && 0 <= Exp32(x) < 0x100 && 0 <= Mant32(x) < 0x80_0000
    ensures x == Sign32(x) * 0x8000_0000 + Exp32(x) * 0x80_0000 + Mant32(x)
  {
    assert x / 0x80_0000 / 0x100 == x / 0x8000_0000;
  }

  lemma {:induction false} Fields16(s: int, e: int, m: int)
    requires 0 <= s < 2 && 0 <= e < 0x20 && 0 <= m < 0x400
    ensures 0 <= s * 0x8000 + e * 0x400 + m < 0x1_0000
    ensures var h := s * 0x8000 + e * 0x400 + m; Sign16(h) == s && Exp16(h) == e && Mant16(h) == m
  {
    var h := s * 0x8000 + e * 0x400 + m;
    assert h / 0x400 == s * 0x20 + e;
  }

  lemma {:induction false} Split16(h: U16)
    ensures 0 <= Sign16(h) < 2 && 0 <= Exp16(h) < 0x20 && 0 <= Mant16(h) < 0x400
    ensures h == Sign16(h) * 0x8000 + Exp16(h) * 0x400 + Mant16(h)
  {
    assert h / 0x400 / 0x20 == h / 0x8000;
  }

  /** The magnitude part of the result, sign left out. */
  function NarrowMagnitude(exp32: int, mant: int): (r: int)
    requires 0 <= exp32 < 0x100 && 0 <= mant < 0x80_0000
    ensures 0 <= r < 0x8000
  {
    var exp := exp32 - 127 + 15;
    if exp >= 0x1F then 0x7C00 + (if mant != 0 then 0x0200 else 0)
    else if exp <= 0 then
      if exp < -10 then 0
      else
        Pow2Values();
        Pow2Monotone(14, 14 - exp);
        ShiftBound(mant + 0x80_0000, Pow2(14 - exp));
        (mant + 0x80_0000) / Pow2(14 - exp)
    else exp * 0x400 + mant / 0x2000
  }

  lemma {:induction false} ShiftBound(n: int, p: int)
    requires 0 <= n < 0x100_0000 && p >= 0x4000
    ensures 0 <= n / p < 0x400
  {
    var q := n / p;
    if q >= 0x400 {
      MulLe(0x400, q, p);
    }
  }

  /** Narrows a binary32 pattern to a binary16 pattern. */
  function FloatToHalf(x: U32): U16 {
    Split32(x);
    Sign32(x) * 0x8000 + NarrowMagnitude(Exp32(x), Mant32(x))
  }

  /** Shifts a subnormal mantissa left until bit 10 is set, counting the shifts. */
  function Normalise(m: int, e: nat): (r: (int, nat))
    requires 0 < m < 0x800
    ensures 0x400 <= r.0 < 0x800 && r.1 >= e
    decreases 0x800 - m
  {
    if m / 0x400 % 2 == 0 then Normalise(m * 2, e + 1) else (m, e)
  }

  lemma {:induction false} NormaliseValue(m: int, e: nat)
    requires 0 < m < 0x800
    ensures Normalise(m, e).0 == m * Pow2(Normalise(m, e).1 - e)
    decreases 0x800 - m
  {
    if m / 0x400 % 2 == 0 {
      NormaliseValue(m * 2, e + 1);
      var k := Normalise(m * 2, e + 1).1 - e;
      assert Pow2(k) == 2 * Pow2(k - 1);
      MulAssoc(m, 2, Pow2(k - 1));
    }
  }

  lemma {:induction false} NormaliseShifts(m: int)
    requires 0 < m < 0x400
    ensures 1 <= Normalise(m, 0).1 <= 10
  {
    NormaliseValue(m, 0);
    var k := Normalise(m, 0).1;
    if k > 10 {
      Pow2Monotone(11, k);
      Pow2Values();
      assert Pow2(11) == 2 * Pow2(10);
      MulLe(1, m, Pow2(k));
    }
  }

  /** The exponent field and mantissa of the widened value. */
  function WidenFields(exp: int, mant: int): (r: (int, int))
    requires 0 <= exp < 0x20 && 0 <= mant < 0x400
    ensures 0 <= r.0 < 0x100 && 0 <= r.1 < 0x80_0000
  {
    if exp == 0 then
      if mant == 0 then (0, 0)
      else
        NormaliseShifts(mant);
        var (m, e) := Normalise(mant, 0);
        (127 - 15 - e + 1, (m - 0x400) * 0x2000)
    else if exp == 0x1F then (0xFF, mant * 0x2000)
    else (exp + (127 - 15), mant * 0x2000)
  }

  /** Widens a binary16 pattern to a binary32 pattern. */
  function HalfToFloat(h: U16): U32 {
    Split16(h);
    var (e, m) := WidenFields(Exp16(h), Mant16(h));
    Fields32(Sign16(h), e, m);
    Sign16(h) * 0x8000_0000 + e * 0x80_0000 + m
  }

  /** The normalising loop. */
  method Widen(h: U16) returns (bits: U32)
    ensures bits == HalfToFloat(h)
  {
    Split16(h);
    var sign, exp, mant := Sign16(h) * 0x8000_0000, Exp16(h), Mant16(h);
    if exp == 0 {
      if mant == 0 {
        bits := sign;
      } else {
        var e, m := 0, mant;
        while m / 0x400 % 2 == 0
          invariant 0 < m < 0x800 && e >= 0
          invariant Normalise(mant, 0) == Normalise(m, e)
          decreases 0x800 - m
        {
          m := m * 2;
          e := e + 1;
        }
        NormaliseShifts(mant);
        m := m % 0x400;
        bits := sign + (127 - 15 - e + 1) * 0x80_0000 + m * 0x2000;
      }
    } else if exp == 0x1F {
      bits := sign + 0x7F80_0000 + mant * 0x2000;
    } else {
      bits := sign + (exp + (127 - 15)) * 0x80_0000 + mant * 0x2000;
    }
  }

  // ---- values, in units of 2^-149 ----

  function FloatMag(x: U32): int {
    var e, m := Exp32(x), Mant32(x);
    if e <= 0 then m else (m + 0x80_0000) * Pow2(e - 1)
  }

  /** The magnitude of the pattern p without sign; 0x7C00 counts as 2^16, the next power of two. */
  function HalfMag(p: int): int
    requires 0 <= p <= 0x7C00
  {
    if p < 0x400 then p * Pow2(125) else (p % 0x400 + 0x400) * Pow2(p / 0x400 + 124)
  }

  lemma {:induction false} HalfMagOf(exp: int, mant: int)
    requires 0 <= exp <= 0x1F && 0 <= mant < 0x400 && (exp == 0x1F ==> mant == 0)
    ensures HalfMag(exp * 0x400 + mant) == if exp == 0 then mant * Pow2(125) else (mant + 0x400) * Pow2(exp + 124)
  {
    var p := exp * 0x400 + mant;
    assert p / 0x400 == exp && p % 0x400 == mant;
  }

  /** The next pattern is the next representable magnitude, across exponent boundaries too. */
  lemma {:induction false} HalfMagNext(exp: int, mant: int)
    requires 0 <= exp < 0x1F && 0 <= mant < 0x400
    ensures HalfMag(exp * 0x400 + mant + 1) ==
            if exp == 0 then (mant + 1) * Pow2(125) else (mant + 1 + 0x400) * Pow2(exp + 124)
  {
    if mant + 1 < 0x400 {
      HalfMagOf(exp, mant + 1);
    } else {
      HalfMagOf(exp + 1, 0);
      assert exp * 0x400 + mant + 1 == (exp + 1) * 0x400 + 0;
      if exp > 0 {
        assert Pow2(exp + 1 + 124) == 2 * Pow2(exp + 124);
      }
    }
  }

  lemma {:induction false} HalfMagStrict(p: int)
    requires 0 <= p < 0x7C00
    ensures HalfMag(p) < HalfMag(p + 1)
  {
    var e, m := p / 0x400, p % 0x400;
    HalfMagOf(e, m);
    HalfMagNext(e, m);
    if e == 0 {
      MulLt(m, m + 1, Pow2(125));
    } else {
      MulLt(m + 0x400, m + 1 + 0x400, Pow2(e + 124));
    }
  }

  lemma {:induction false} HalfMagMonotone(p: int, q: int)
    requires 0 <= p <= q <= 0x7C00
    ensures HalfMag(p) <= HalfMag(q)
    ensures p < q ==> HalfMag(p) < HalfMag(q)
    decreases q
  {
    hide HalfMag;
    if p < q {
      HalfMagMonotone(p, q - 1);
      HalfMagStrict(q - 1);
    }
  }

  // ---- narrowing ----

  /** p is the largest binary16 magnitude not above v. */
  ghost predicate Brackets(p: int, v: int) {
    0 <= p < 0x7C00 && HalfMag(p) <= v < HalfMag(p + 1)
  }

  lemma {:induction false} NarrowNormal(e: int, m: int)
    requires 113 <= e < 143 && 0 <= m < 0x80_0000
    ensures Brackets((e - 112) * 0x400 + m / 0x2000, (m + 0x80_0000) * Pow2(e - 1))
  {
    var q, u := m / 0x2000, Pow2(e - 1);
    HalfMagOf(e - 112, q);
    HalfMagNext(e - 112, q);
    Pow2Add(13, e - 1);
    Pow2Values();
    assert Pow2(e - 112 + 124) == 0x2000 * u;
    MulAssoc(q + 0x400, 0x2000, u);
    MulAssoc(q + 1 + 0x400, 0x2000, u);
    MulLe((q + 0x400) * 0x2000, m + 0x80_0000, u);
    MulLt(m + 0x80_0000, (q + 1 + 0x400) * 0x2000, u);
  }

  lemma {:induction false} NarrowSubnormal(e: int, m: int)
    requires 102 <= e <= 112 && 0 <= m < 0x80_0000
    ensures Brackets((m + 0x80_0000) / Pow2(126 - e), (m + 0x80_0000) * Pow2(e - 1))
  {
    var n, p, u := m + 0x80_0000, Pow2(126 - e), Pow2(e - 1);
    Pow2Values();
    Pow2Monotone(14, 126 - e);
    ShiftBound(n, p);
    var k := n / p;
    HalfMagOf(0, k);
    HalfMagNext(0, k);
    Pow2Add(126 - e, e - 1);
    assert 126 - e + (e - 1) == 125;
    assert k * p <= n < (k + 1) * p by {
      QuotientBounds(n, p);
    }
    MulAssoc(k, p, u);
    MulAssoc(k + 1, p, u);
    MulLe(k * p, n, u);
    MulLt(n, (k + 1) * p, u);
  }

  lemma {:induction false} QuotientBounds(n: int, p: int)
    requires n >= 0 && p > 0
    ensures (n / p) * p <= n < (n / p + 1) * p
  {
    assert n == p * (n / p) + n % p;
  }

  lemma {:induction false} NarrowTiny(e: int, m: int)
    requires 0 <= e < 102 && 0 <= m < 0x80_0000
    ensures Brackets(0, if e <= 0 then m else (m + 0x80_0000) * Pow2(e - 1))
  {
    HalfMagOf(0, 0);
    HalfMagOf(0, 1);
    Pow2Values();
    Pow2Monotone(24, 125);
    if e > 0 {
      MulLt(m + 0x80_0000, 0x100_0000, Pow2(e - 1));
      Pow2Add(24, e - 1);
      Pow2Monotone(24 + (e - 1), 125);
      MulLe(0, m + 0x80_0000, Pow2(e - 1));
    }
  }

  lemma {:induction false} SignAndMagnitude(s: int, p: int)
    requires 0 <= s < 2 && 0 <= p < 0x8000
    ensures (s * 0x8000 + p) / 0x8000 == s && (s * 0x8000 + p) % 0x8000 == p
  {
  }

  /** Below 2^16 narrowing keeps the sign and truncates the magnitude. */
  lemma {:induction false} NarrowingTruncates(x: U32)
    requires Exp32(x) < 143
    ensures Sign16(FloatToHalf(x)) == Sign32(x)
    ensures Brackets(FloatToHalf(x) % 0x8000, FloatMag(x))
  {
    hide Brackets;
    Split32(x);
    var e, m := Exp32(x), Mant32(x);
    SignAndMagnitude(Sign32(x), NarrowMagnitude(e, m));
    if e < 102 {
      NarrowTiny(e, m);
    } else if e <= 112 {
      NarrowSubnormal(e, m);
    } else {
      NarrowNormal(e, m);
    }
  }

  /** Rounding toward zero of a finite value: the largest finite binary16 magnitude not above it
      (section 4.3.2 of IEEE 754-2019). */
  ghost predicate RoundsTowardZero(x: U32, h: U16) {
    var p := h % 0x8000;
    Sign16(h) == Sign32(x) && p <= 0x7BFF && HalfMag(p) <= FloatMag(x) && (p < 0x7BFF ==> FloatMag(x) < HalfMag(p + 1))
  }

  lemma {:induction false} TwoTo16()
    ensures HalfMag(0x7C00) == 0x80_0000 * Pow2(142)
  {
    hide HalfMag;
    HalfMagOf(0x1F, 0);
    Pow2Add(13, 142);
    Pow2Values();
    MulAssoc(0x400, 0x2000, Pow2(142));
  }

  /** The exponent test is the test against 2^16. */
  lemma {:induction false} BelowTwoTo16(x: U32)
    ensures Exp32(x) < 143 <==> FloatMag(x) < HalfMag(0x7C00)
  {
    hide HalfMag, Exp32, Mant32, Sign32, Pow2;
    Split32(x);
    TwoTo16();
    BelowPower(Exp32(x), Mant32(x));
  }

  lemma {:induction false} BelowPower(e: int, m: int)
    requires 0 <= e && 0 <= m < 0x80_0000
    ensures e < 143 <==> (if e <= 0 then m else (m + 0x80_0000) * Pow2(e - 1)) < 0x80_0000 * Pow2(142)
  {
    if e <= 0 {
      Pow2Monotone(0, 142);
    } else if e < 143 {
      assert Pow2(e) == 2 * Pow2(e - 1);
      hide Pow2;
      Pow2Monotone(e, 142);
      MulLt(m + 0x80_0000, 0x100_0000, Pow2(e - 1));
    } else {
      hide Pow2;
      Pow2Monotone(142, e - 1);
      MulLe(0x80_0000, m + 0x80_0000, Pow2(e - 1));
    }
  }

  /** Narrowing a finite value rounds toward zero exactly when its magnitude is below 2^16; above, the
      result is an infinity, or a NaN when the mantissa is not zero. */
  lemma {:induction false} TowardZeroIff(x: U32)
    requires Exp32(x) < 0xFF
    ensures RoundsTowardZero(x, FloatToHalf(x)) <==> FloatMag(x) < HalfMag(0x7C00)
    ensures FloatMag(x) < HalfMag(0x7C00) <==> Exp32(x) < 143
    ensures Exp32(x) >= 143 ==> FloatToHalf(x) % 0x8000 == if Mant32(x) == 0 then 0x7C00 else 0x7E00
  {
    hide HalfMag, FloatMag;
    BelowTwoTo16(x);
    Split32(x);
    SignAndMagnitude(Sign32(x), NarrowMagnitude(Exp32(x), Mant32(x)));
    if Exp32(x) < 143 {
      NarrowingTruncates(x);
    }
  }

  /** Larger magnitudes do not narrow to smaller ones. */
  lemma {:induction false} NarrowingMonotone(x: U32, y: U32)
    requires Exp32(x) < 143 && Exp32(y) < 143 && FloatMag(x) <= FloatMag(y)
    ensures FloatToHalf(x) % 0x8000 <= FloatToHalf(y) % 0x8000
  {
    hide FloatToHalf, FloatMag;
    NarrowingTruncates(x);
    NarrowingTruncates(y);
    var p, q := FloatToHalf(x) % 0x8000, FloatToHalf(y) % 0x8000;
    if q < p {
      HalfMagMonotone(q + 1, p);
    }
  }

  // ---- widening, and back ----

  lemma {:induction false} WidenedFields(h: U16)
    ensures Sign32(HalfToFloat(h)) == Sign16(h)
    ensures Exp32(HalfToFloat(h)) == WidenFields(Exp16(h), Mant16(h)).0
    ensures Mant32(HalfToFloat(h)) == WidenFields(Exp16(h), Mant16(h)).1
  {
    hide WidenFields, Sign32, Exp32, Mant32;
    Split16(h);
    var (e, m) := WidenFields(Exp16(h), Mant16(h));
    Fields32(Sign16(h), e, m);
  }

  /** Widening a finite value is exact. */
  lemma {:induction false} WideningExact(h: U16)
    requires Exp16(h) < 0x1F
    ensures Exp32(HalfToFloat(h)) < 143
    ensures FloatMag(HalfToFloat(h)) == HalfMag(h % 0x8000)
  {
    hide HalfToFloat, HalfMag;
    WidenedFields(h);
    Split16(h);
    var exp, mant := Exp16(h), Mant16(h);
    SignAndMagnitude(Sign16(h), exp * 0x400 + mant);
    HalfMagOf(exp, mant);
    if exp == 0 {
      if mant != 0 {
        WidenSubnormal(mant);
      }
    } else {
      WidenNormal(exp, mant);
    }
  }

  lemma {:induction false} WidenSubnormal(mant: int)
    requires 0 < mant < 0x400
    ensures var (m, e) := Normalise(mant, 0);
            1 <= e <= 10 && ((m - 0x400) * 0x2000 + 0x80_0000) * Pow2(113 - e - 1) == mant * Pow2(125)
  {
    NormaliseShifts(mant);
    NormaliseValue(mant, 0);
    var (m, e) := Normalise(mant, 0);
    var u := Pow2(112 - e);
    Pow2Add(e, 112 - e);
    Pow2Add(13, 112);
    Pow2Values();
    assert (m - 0x400) * 0x2000 + 0x80_0000 == m * 0x2000;
    assert e + (112 - e) == 112;
    MulAssoc(mant, Pow2(e), u);
    assert m * u == mant * Pow2(112);
    MulAssoc(mant, Pow2(112), 0x2000);
    Regroup(m, u);
    assert Pow2(125) == 0x2000 * Pow2(112);
    Regroup(mant, Pow2(112));
    MulAssoc(mant, 0x2000, Pow2(112));
  }

  lemma {:induction false} Regroup(a: int, b: int)
    ensures (a * 0x2000) * b == (a * b) * 0x2000
  {
  }

  lemma {:induction false} WidenNormal(exp: int, mant: int)
    requires 0 < exp < 0x1F && 0 <= mant < 0x400
    ensures (mant * 0x2000 + 0x80_0000) * Pow2(exp + 112 - 1) == (mant + 0x400) * Pow2(exp + 124)
  {
    Pow2Add(13, exp + 111);
    Pow2Values();
    assert 13 + (exp + 111) == exp + 124;
    MulAssoc(mant + 0x400, 0x2000, Pow2(exp + 111));
    assert mant * 0x2000 + 0x80_0000 == (mant + 0x400) * 0x2000;
  }

  /** Narrowing undoes widening on every finite value and infinity. */
  lemma {:induction false} NarrowWiden(h: U16)
    requires !IsNaN16(h)
    ensures FloatToHalf(HalfToFloat(h)) == h
  {
    hide HalfToFloat, HalfMag, FloatMag;
    var x := HalfToFloat(h);
    Split16(h);
    Split32(x);
    WidenedFields(h);
    if Exp16(h) == 0x1F {
      SignAndMagnitude(Sign32(x), NarrowMagnitude(Exp32(x), Mant32(x)));
    } else {
      hide FloatToHalf;
      WideningExact(h);
      NarrowingTruncates(x);
      var p, q := FloatToHalf(x) % 0x8000, h % 0x8000;
      if p < q {
        HalfMagMonotone(p + 1, q);
      } else if q < p {
        HalfMagMonotone(q, p);
      }
      SignAndMagnitude(Sign16(h), Exp16(h) * 0x400 + Mant16(h));
    }
  }

  /** Every NaN narrows to the one quiet NaN pattern of its sign. */
  lemma {:induction false} NarrowNaN(x: U32)
    requires IsNaN32(x)
    ensures FloatToHalf(x) == Sign32(x) * 0x8000 + 0x7E00
    ensures IsNaN16(FloatToHalf(x))
  {
    Split32(x);
    Fields16(Sign32(x), 0x1F, 0x200);
  }

  /** Exactly the infinities and NaNs widen to infinities and NaNs. */
  lemma {:induction false} WidenFinite(h: U16)
    ensures Exp32(HalfToFloat(h)) == 0xFF <==> Exp16(h) == 0x1F
  {
    hide HalfToFloat;
    Split16(h);
    if Exp16(h) < 0x1F {
      WideningExact(h);
    } else {
      WidenedFields(h);
    }
  }

  lemma {:induction false} WidenNaN(h: U16)
    requires IsNaN16(h)
    ensures IsNaN32(HalfToFloat(h)) && Sign32(HalfToFloat(h)) == Sign16(h)
  {
    WidenedFields(h);
    Split16(h);
  }
}
