/** Powers of two. */
module Powers {
  function Pow2(n: nat): (p: int)
    ensures p >= 1
  {
    if n == 0 then 1 else 2 * Pow2(n - 1)
  }

  lemma {:induction false} Pow2Monotone(m: nat, n: nat)
    requires m <= n
    ensures Pow2(m) <= Pow2(n)
    decreases n
  {
    if m < n {
      Pow2Monotone(m, n - 1);
    }
  }

  lemma {:induction false} Pow2Add(m: nat, n: nat)
    ensures Pow2(m + n) == Pow2(m) * Pow2(n)
    decreases n
  {
    if n > 0 {
      Pow2Add(m, n - 1);
      MulSwap(Pow2(m), Pow2(n - 1));
    }
  }

  lemma {:induction false} MulSwap(a: int, b: int)
    ensures 2 * (a * b) == a * (2 * b)
  {
  }

  lemma {:induction false} MulLe(a: int, b: int, p: int)
    requires a <= b && p >= 0
    ensures a * p <= b * p
  {
  }

  lemma {:induction false} MulLt(a: int, b: int, p: int)
    requires a < b && p > 0
    ensures a * p < b * p
  {
  }

  lemma {:induction false} MulAssoc(a: int, b: int, c: int)
    ensures (a * b) * c == a * (b * c)
  {
  }

  lemma {:induction false} Pow2Values()
    ensures Pow2(3) == 8 && Pow2(8) == 0x100 && Pow2(10) == 0x400 && Pow2(13) == 0x2000
    ensures Pow2(14) == 0x4000 && Pow2(23) == 0x80_0000 && Pow2(24) == 0x100_0000
  {
    assert Pow2(3) == 8;
    assert Pow2(6) == 64;
    assert Pow2(8) == 0x100;
    Pow2Add(8, 2);
    Pow2Add(10, 3);
    Pow2Add(13, 1);
    Pow2Add(13, 10);
    Pow2Add(23, 1);
  }
}
