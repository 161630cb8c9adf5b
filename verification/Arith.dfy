/** Integer facts the solver does not find on its own. */
module Arith {

  lemma MulLe(a: nat, b: nat, p: nat)
    requires a <= b
    ensures a * p <= b * p
  {
  }

  lemma MulComm(a: int, b: int)
    ensures a * b == b * a
  {
  }

  lemma MulPositive(a: nat, b: nat)
    requires a > 0 && b > 0
    ensures a * b > 0
  {
  }

  lemma MulGap(d: int, k: int)
    requires d > 0
    ensures k >= 1 ==> d * k >= d
    ensures k <= -1 ==> d * k <= -d
  {
    if k >= 1 {
      assert d * k == d + d * (k - 1);
    } else if k <= -1 {
      assert d * k == -d + d * (k + 1);
    }
  }

  lemma DivModUnique(x: int, d: int, q: int, r: int)
    requires d > 0 && x == d * q + r && 0 <= r < d
    ensures x / d == q && x % d == r
  {
    var k := q - x / d;
    assert d * k == x % d - r by {
      assert d * k == d * q - d * (x / d);
    }
    MulGap(d, k);
  }

  /** A number from two digits, and back. */
  lemma HighLow(high: nat, low: nat, unit: nat)
    requires low < unit
    ensures (high * unit + low) / unit == high && (high * unit + low) % unit == low
  {
    DivModUnique(high * unit + low, unit, high, low);
  }

  lemma MulSwap(a: int, b: int, c: int)
    ensures (a * b) * c == b * (a * c)
    ensures (a * b) * c == a * (b * c)
  {
  }

  lemma MulAdd(a: int, b: int, p: int)
    ensures (a + b) * p == a * p + b * p
    ensures p * (a + b) == p * a + p * b
  {
  }

  /** A product by `p`, where `p * h == w`, split at `w`. */
  lemma SplitProduct(x: nat, p: nat, h: nat, w: nat)
    requires p > 0 && h > 0 && p * h == w && x < w
    ensures x * p % w + p <= w && x / h < p <= w
    ensures x * p == x / h * w + x * p % w
  {
    var q, r := x / h, x % h;
    assert x == h * q + r;
    MulAdd(h * q, r, p);
    MulSwap(h, q, p);
    assert h * p == w by { assert h * p == p * h; }
    MulLe(r, h - 1, p);
    MulAdd(h - 1, 1, p);
    assert w * q == q * w && q * (h * p) == q * w;
    DivModUnique(x * p, w, q, r * p);
    MulLe(1, h, p);
    assert h * q == q * h;
    if q >= p { MulLe(p, q, h); }
  }

  // ---- Powers ----

  function Exp(b: nat, n: nat): (p: nat)
    ensures b > 0 ==> p > 0
  {
    if n == 0 then 1 else b * Exp(b, n - 1)
  }

  lemma {:induction false} ExpAdd(b: nat, m: nat, n: nat)
    ensures Exp(b, m + n) == Exp(b, m) * Exp(b, n)
  {
    if m > 0 {
      ExpAdd(b, m - 1, n);
      MulSwap(b, Exp(b, m - 1), Exp(b, n));
    }
  }

  lemma {:induction false} ExpMono(b: nat, m: nat, n: nat)
    requires m <= n && b > 0
    ensures Exp(b, m) <= Exp(b, n)
  {
    if m < n {
      ExpMono(b, m, n - 1);
      MulLe(1, b, Exp(b, n - 1));
    }
  }

  /** Squaring the base halves the exponent. */
  lemma {:induction false} ExpSquare(b: nat, n: nat)
    ensures Exp(b * b, n) == Exp(b, 2 * n)
  {
    if n > 0 {
      ExpSquare(b, n - 1);
      assert Exp(b, 2 * n) == b * (b * Exp(b, 2 * (n - 1)));
      MulSwap(b, b, Exp(b, 2 * (n - 1)));
    }
  }
}
