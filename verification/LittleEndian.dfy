/** Raw little-endian bytes and the two's-complement integers they carry. */
module LittleEndian {
  type Byte = x: int | 0 <= x < 256

  function Pow256(w: nat): (p: int)
    ensures p >= 1
  {
    if w == 0 then 1 else 256 * Pow256(w - 1)
  }

  function FromLE(bs: seq<Byte>): (n: nat) {
    if bs == [] then 0 else bs[0] + 256 * FromLE(bs[1..])
  }

  /** The low w bytes. */
  function ToLE(n: nat, w: nat): (bs: seq<Byte>)
    ensures |bs| == w
  {
    if w == 0 then [] else [n % 256] + ToLE(n / 256, w - 1)
  }

  lemma {:induction false} ToFromLE(bs: seq<Byte>)
    ensures ToLE(FromLE(bs), |bs|) == bs
    ensures FromLE(bs) < Pow256(|bs|)
  {
    if bs != [] {
      ToFromLE(bs[1..]);
      var n := FromLE(bs);
      assert n % 256 == bs[0] && n / 256 == FromLE(bs[1..]);
    }
  }

  lemma {:induction false} FromToLE(n: nat, w: nat)
    requires n < Pow256(w)
    ensures FromLE(ToLE(n, w)) == n
  {
    if w > 0 {
      FromToLE(n / 256, w - 1);
      assert ToLE(n, w)[1..] == ToLE(n / 256, w - 1);
    }
  }

  /** The first bytes are the least significant ones. */
  lemma {:induction false} FromLEConcat(a: seq<Byte>, b: seq<Byte>)
    ensures FromLE(a + b) == FromLE(a) + Pow256(|a|) * FromLE(b)
  {
    if a == [] {
      assert a + b == b;
    } else {
      assert (a + b)[1..] == a[1..] + b;
      LowByte(a);
      LowByte(a + b);
      hide FromLE, Pow256;
      FromLEConcat(a[1..], b);
      Scale(Pow256(|a| - 1), FromLE(b));
    }
  }

  lemma {:induction false} LowByte(bs: seq<Byte>)
    requires bs != []
    ensures FromLE(bs) == bs[0] + 256 * FromLE(bs[1..])
    ensures Pow256(|bs|) == 256 * Pow256(|bs| - 1)
  {
  }

  lemma {:induction false} Scale(p: int, n: int)
    ensures 256 * (p * n) == (256 * p) * n
  {
  }

  /** The value of an unsigned pattern read as two's complement. */
  function ToSigned(n: nat, w: nat): int {
    if 2 * n >= Pow256(w) then n - Pow256(w) else n
  }

  /** The pattern of a value after a cast to a w-byte integer type. */
  function Wrap(v: int, w: nat): (n: nat)
    ensures n < Pow256(w)
  {
    v % Pow256(w)
  }

  lemma {:induction false} WrapSmall(n: nat, w: nat)
    requires n < Pow256(w)
    ensures Wrap(n, w) == n && Wrap(n - Pow256(w), w) == n
  {
    ModShift(n, Pow256(w));
  }

  lemma {:induction false} ModShift(n: int, p: int)
    requires 0 <= n < p
    ensures n % p == n && (n - p) % p == n
  {
    assert n == p * 0 + n;
    assert n - p == p * (-1) + n;
  }

  lemma {:induction false} WrapSigned(n: nat, w: nat)
    requires n < Pow256(w)
    ensures Wrap(ToSigned(n, w), w) == n
  {
    hide Wrap;
    WrapSmall(n, w);
  }

  /** A value in the range of a w-byte signed type survives the cast to it. */
  lemma {:induction false} SignedComesBack(v: int, w: nat)
    requires -Pow256(w) <= 2 * v < Pow256(w)
    ensures ToSigned(Wrap(v, w), w) == v
  {
    var p := Pow256(w);
    if v >= 0 {
      ModShift(v, p);
    } else {
      ModShift(v + p, p);
      assert v + p - p == v;
    }
  }

  /** Two's complement: the top bit of the last byte says whether 256^w is taken off. */
  lemma {:induction false} SignBit(e: seq<Byte>)
    requires e != []
    ensures ToSigned(FromLE(e), |e|) == if e[|e| - 1] >= 128 then FromLE(e) - Pow256(|e|) else FromLE(e)
  {
    var low, top := e[..|e| - 1], e[|e| - 1];
    assert e == low + [top];
    FromLEConcat(low, [top]);
    assert FromLE([top]) == top by {
      assert [top][1..] == [];
    }
    ToFromLE(low);
    TopBit(FromLE(low), Pow256(|low|), top);
  }

  lemma {:induction false} TopBit(n: int, p: int, top: int)
    requires 0 <= n < p && 0 <= top < 256
    ensures 2 * (n + p * top) >= 256 * p <==> top >= 128
  {
    if top >= 128 {
      assert p * top >= p * 128;
    } else {
      assert p * top <= p * 127;
    }
  }

  /** A cast through a wider integer type first changes nothing. */
  lemma {:induction false} WrapTwice(v: int, w: nat, wide: nat)
    requires w <= wide
    ensures Wrap(Wrap(v, wide), w) == Wrap(v, w)
  {
    var k := Pow256Divides(w, wide);
    ModMod(v, Pow256(w), k);
  }

  lemma {:induction false} Pow256Divides(w: nat, wide: nat) returns (k: int)
    requires w <= wide
    ensures k >= 1 && Pow256(wide) == Pow256(w) * k
    decreases wide
  {
    if w == wide {
      k := 1;
    } else {
      var j := Pow256Divides(w, wide - 1);
      k := 256 * j;
      Swap(Pow256(w), j);
    }
  }

  lemma {:induction false} Swap(a: int, j: int)
    ensures 256 * (a * j) == a * (256 * j)
  {
  }

  lemma {:induction false} ModMod(v: int, p: int, k: int)
    requires p >= 1 && k >= 1
    ensures (v % (p * k)) % p == v % p
  {
    var m := p * k;
    Positive(p, k);
    var q, r := v / m, v % m;
    assert v == m * q + r;
    Regroup(p, k, q);
    assert v == p * (k * q) + r;
    AddMultiple(r, p, k * q);
  }

  lemma {:induction false} Positive(p: int, k: int)
    requires p >= 1 && k >= 1
    ensures p * k >= 1
  {
  }

  lemma {:induction false} Regroup(p: int, k: int, q: int)
    ensures (p * k) * q == p * (k * q)
  {
  }

  lemma {:induction false} AddMultiple(r: int, p: int, t: int)
    requires p >= 1
    ensures (p * t + r) % p == r % p
    decreases if t < 0 then -t else t
  {
    if t > 0 {
      AddMultiple(r, p, t - 1);
      assert p * t + r == (p * (t - 1) + r) + p;
      AddOne(p * (t - 1) + r, p);
    } else if t < 0 {
      AddMultiple(r, p, t + 1);
      assert p * (t + 1) + r == (p * t + r) + p;
      AddOne(p * t + r, p);
    }
  }

  lemma {:induction false} AddOne(a: int, p: int)
    requires p >= 1
    ensures (a + p) % p == a % p
  {
    var q, r := a / p, a % p;
    assert a == p * q + r;
    assert a + p == p * (q + 1) + r;
    DivUnique(a + p, p, q + 1, r);
  }

  lemma {:induction false} DivUnique(a: int, p: int, q: int, r: int)
    requires p >= 1 && a == p * q + r && 0 <= r < p
    ensures a % p == r
  {
    var d := a / p - q;
    assert a == p * (a / p) + a % p;
    assert p * (a / p) - p * q == r - a % p;
    Distribute(p, a / p, q);
    assert p * d == r - a % p;
    if d >= 1 {
      Big(p, d);
    } else if d <= -1 {
      Big(p, -d);
    }
  }

  lemma {:induction false} Distribute(p: int, a: int, b: int)
    ensures p * a - p * b == p * (a - b)
  {
  }

  lemma {:induction false} Big(p: int, d: int)
    requires p >= 1 && d >= 1
    ensures p * d >= p && p * -d <= -p
  {
  }
}
