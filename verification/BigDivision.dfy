/** One digit of a long division of big integers: quotient below 10, remainder in place. */
module BigDivision {
  import opened Arith
  import opened Bigints
  import opened Limbs

  /** The first `i` limbs of `w` are those of `v - q * s`, with a carry and a borrow owed. */
  ghost predicate Reduced(v: seq<Limb>, s: seq<Limb>, q: nat, w: seq<Limb>, i: nat, carry: nat, borrow: nat) {
    && |w| == |v| == |s| && i <= |w| && borrow <= 1 && carry < 0x1_0000_0000 && q < 0x1_0000_0000
    && (forall n :: i <= n < |v| ==> w[n] == v[n])
    && Value(w[..i]) == Value(v[..i]) - q * Value(s[..i]) + (carry + borrow) * Pow(i)
  }

  lemma ReducedStart(v: seq<Limb>, s: seq<Limb>, q: nat)
    requires |v| == |s| && q < 0x1_0000_0000
    ensures Reduced(v, s, q, v, 0, 0, 0)
  {
  }

  lemma ReducedStep(v: seq<Limb>, s: seq<Limb>, q: nat, w: seq<Limb>, i: nat, carry: nat, borrow: nat, ys: nat, y: nat)
    requires Reduced(v, s, q, w, i, carry, borrow) && i < |w|
    requires ys == s[i] * q + carry
    requires y == (w[i] - ys % 0x1_0000_0000 - borrow) % 0x1_0000_0000_0000_0000
    ensures ys < 0x1_0000_0000_0000_0000
    ensures Reduced(v, s, q, w[i := y % 0x1_0000_0000], i + 1, ys / 0x1_0000_0000, y / 0x1_0000_0000 % 2)
  {
    hide Value, Pow;
    MulLe(s[i], 0xFFFF_FFFF, q);
    var lo, out, carry' := y % 0x1_0000_0000, y / 0x1_0000_0000 % 2, ys / 0x1_0000_0000;
    Wraps(w[i] - ys % 0x1_0000_0000 - borrow);
    ValueSet(w, i, lo);
    ValueTake(v, i);
    ValueTake(s, i);
    PowNext(i);
    ReduceArith(Value(v[..i]), Value(s[..i]), q, v[i], s[i], carry, borrow, lo, carry', out, Pow(i));
  }

  lemma ReduceArith(vv: int, vs: int, q: int, d: int, e: int, carry: int, borrow: int,
                    lo: int, carry': int, out: int, p: int)
    requires lo == d - (e * q + carry - carry' * 0x1_0000_0000) - borrow + out * 0x1_0000_0000
    ensures vv - q * vs + (carry + borrow) * p + lo * p
         == vv + d * p - q * (vs + e * p) + (carry' + out) * (0x1_0000_0000 * p)
  {
    assert lo == d - e * q - (carry + borrow) + (carry' + out) * 0x1_0000_0000;
    var k := carry' + out;
    assert lo * p == d * p - (e * q) * p - (carry + borrow) * p + (k * 0x1_0000_0000) * p by {
      MulAdd(d - e * q - (carry + borrow), k * 0x1_0000_0000, p);
      MulAdd(d - e * q, -(carry + borrow), p);
      MulAdd(d, -(e * q), p);
      assert -(carry + borrow) * p == -((carry + borrow) * p);
      assert -(e * q) * p == -((e * q) * p);
    }
    MulSwap(k, 0x1_0000_0000, p);
    MulAdd(vs, e * p, q);
    MulSwap(e, q, p);
  }

  lemma ReducedEnd(v: seq<Limb>, s: seq<Limb>, q: nat, w: seq<Limb>, carry: nat, borrow: nat)
    requires Reduced(v, s, q, w, |w|, carry, borrow) && q * Value(s) <= Value(v)
    ensures Value(w) == Value(v) - q * Value(s)
  {
    hide Value, Pow;
    assert w[..|w|] == w && v[..|w|] == v && s[..|w|] == s;
    assert Value(w) == Value(v) - q * Value(s) + (carry + borrow) * Pow(|w|);
    ValueBound(w);
    NothingOwed(Value(w), Value(v) - q * Value(s), carry + borrow, Pow(|w|));
  }

  lemma NothingOwed(w: nat, d: nat, owed: nat, p: nat)
    requires w == d + owed * p && w < p
    ensures w == d
  {
    if owed > 0 { MulLe(1, owed, p); }
  }

  /** Subtracts `q * s` from the first `n` limbs, with 64-bit carries and borrows. */
  method SubtractMultiple(bx: array<Limb>, sx: array<Limb>, n: nat, q: nat)
    requires bx != sx && n <= bx.Length && n <= sx.Length && 0 < n && q < 0x1_0000_0000
    requires q * Value(sx[..n]) <= Value(bx[..n])
    modifies bx
    ensures Value(bx[..n]) == old(Value(bx[..n])) - q * Value(sx[..n])
    ensures forall j :: n <= j < bx.Length ==> bx[j] == old(bx[j])
  {
    hide Reduced, Value, Pow;
    ghost var v, s := bx[..n], sx[..n];
    var i, carry: nat, borrow: nat := 0, 0, 0;
    ReducedStart(v, s, q);
    while true
      invariant i < n && sx[..n] == s && Reduced(v, s, q, bx[..n], i, carry, borrow)
      invariant forall j :: n <= j < bx.Length ==> bx[j] == old(bx[j])
      decreases n - i
    {
      ghost var w := bx[..n];
      var ys: nat := sx[i] * q + carry;
      var y: nat := (bx[i] - ys % 0x1_0000_0000 - borrow) % 0x1_0000_0000_0000_0000;
      ReducedStep(v, s, q, w, i, carry, borrow, ys, y);
      carry := ys / 0x1_0000_0000;
      borrow := y / 0x1_0000_0000 % 2;
      var lo: Limb := y % 0x1_0000_0000;
      bx[i] := lo;
      assert bx[..n] == w[i := lo];
      i := i + 1;
      if i >= n { break; }
    }
    ReducedEnd(v, s, q, bx[..n], carry, borrow);
  }

  /** The quotient guessed from the top limbs is right or one too small. */
  lemma Estimate(b: nat, s: nat, t: nat, u: nat, p: nat, q: nat)
    requires p > 0 && t * p <= b < (t + 1) * p && u * p <= s < (u + 1) * p
    requires u >= 0x800_0000 && b < 10 * s && q == t / (u + 1)
    ensures q * s <= b < (q + 2) * s && q < 10
  {
    var r := t % (u + 1);
    assert t == q * (u + 1) + r by { assert (u + 1) * q == q * (u + 1); }
    // q * s <= q * (u + 1) * p <= t * p
    assert q * s <= q * ((u + 1) * p) by { MulLe(s, (u + 1) * p, q); MulComm(s, q); MulComm((u + 1) * p, q); }
    MulSwap(q, u + 1, p);
    MulLe(q * (u + 1), t, p);
    if q >= 10 { MulLe(10, q, s); }
    // b < (q * (u + 1) + r + 1) * p <= (q + 2) * u * p
    assert t + 1 <= q * u + q + u + 1;
    assert q + u + 1 <= 2 * u;
    assert t + 1 <= (q + 2) * u by { MulAdd(q, 2, u); }
    MulLe(t + 1, (q + 2) * u, p);
    MulSwap(q + 2, u, p);
    MulLe(u * p, s, q + 2);
    MulComm(u * p, q + 2);
    MulComm(s, q + 2);
  }

  /** Drops leading zeros below limb `n`, which is zero, as the division does: at least one
      limb stays unless `n` is 0. */
  method Shrink(b: Bigint, top: nat)
    requires b.Valid() && top < b.x.Length && top <= b.maxwds && b.x[top] == 0
    modifies b`wds
    ensures b.Valid() && b.Norm() && b.wds <= top && (b.wds == 0 ==> top == 0)
    ensures Value(b.x[..b.wds]) == Value(b.x[..top + 1])
  {
    var n: int := top;
    ValueZeros(b.x[..n + 1], n);
    assert b.x[..n + 1][..n] == b.x[..n];
    while n - 1 > 0 && b.x[n - 1] == 0
      invariant 0 <= n <= top && (n == 0 ==> top == 0) && Value(b.x[..n]) == Value(b.x[..top + 1])
    {
      assert b.x[..n][..n - 1] == b.x[..n - 1];
      n := n - 1;
    }
    b.wds := n;
  }

  /** Divides `b < 10 * S`, leaving the remainder in `b`. The top limb of `S` has 28
      significant bits. */
  method QuoRem(b: Bigint, S: Bigint) returns (q: nat)
    requires b.Valid() && S.Valid() && b.Norm() && S.wds > 0 && b.x != S.x && b != S
    requires 0x800_0000 <= S.x[S.wds - 1] < 0x1000_0000
    requires b.Val() < 10 * S.Val()
    modifies b`wds, b.x
    ensures b.Valid() && b.Norm() && S.Val() > 0
    ensures old(b.Val()) == q * S.Val() + b.Val() && b.Val() < S.Val()
    ensures b.wds <= S.wds
  {
    hide Value, Pow;
    var n := S.wds;
    PositiveTop(S.x[..n]);
    if b.wds < n {
      ShorterIsLess(b.x[..b.wds], S.x[..n]);
      return 0;
    }
    ghost var v, sv := b.Val(), S.Val();
    NoLongerThanTen(b.x[..b.wds], S.x[..n]);
    q := GuessDigit(b, S);
    DigitDone(v, sv, q);
    ghost var guess, qs := q, q * sv;
    if q != 0 {
      Reduce(b, S, q);
    }
    assert b.Val() == v - qs;
    if b.wds < S.wds { ShorterIsLess(b.x[..b.wds], S.x[..S.wds]); }
    var c := Cmp(b, S);
    if c >= 0 {
      Reduce(b, S, 1);
      q := q + 1;
      assert b.Val() == v - qs - sv && q * sv == qs + sv;
    }
  }

  lemma DigitDone(v: nat, s: nat, q: nat)
    ensures (q + 1) * s == q * s + s
    ensures (q + 2) * s == q * s + 2 * s
  {
    MulAdd(q, 1, s);
    MulAdd(q, 2, s);
  }

  /** The quotient of the top limbs, rounded so as not to exceed the true one. */
  method GuessDigit(b: Bigint, S: Bigint) returns (q: nat)
    requires b.Valid() && S.Valid() && b.wds == S.wds > 0
    requires 0x800_0000 <= S.x[S.wds - 1] < 0x1000_0000 && b.Val() < 10 * S.Val()
    ensures q * S.Val() <= b.Val() < q * S.Val() + 2 * S.Val() && q < 10
  {
    hide Value, TopQuotient;
    var n := S.wds - 1;
    q := TopQuotient(b.x[n], S.x[n]);
    GuessFits(b.x[..n + 1], S.x[..n + 1], q);
  }

  /** One is added to the divisor's top limb to make sure the guess is not too large. */
  function TopQuotient(t: nat, u: nat): nat {
    t / (u + 1)
  }

  lemma GuessFits(v: seq<Limb>, s: seq<Limb>, q: nat)
    requires |v| == |s| > 0 && 0x800_0000 <= s[|s| - 1] && Value(v) < 10 * Value(s)
    requires q == TopQuotient(v[|s| - 1], s[|s| - 1])
    ensures q * Value(s) <= Value(v) < q * Value(s) + 2 * Value(s) && q < 10
  {
    hide Value, Pow;
    ValueTop(v);
    ValueTop(s);
    Estimate(Value(v), Value(s), v[|s| - 1], s[|s| - 1], Pow(|s| - 1), q);
    DigitDone(Value(v), Value(s), q);
  }

  /** Takes `q * S` off `b` and trims it. */
  method Reduce(b: Bigint, S: Bigint, q: nat)
    requires b.Valid() && S.Valid() && b.Norm() && b.wds == S.wds > 0 && b.x != S.x && b != S
    requires q * S.Val() <= b.Val() && q < 0x1_0000_0000
    modifies b`wds, b.x
    ensures b.Valid() && b.Norm() && b.wds <= S.wds
    ensures b.Val() == old(b.Val()) - q * S.Val()
  {
    var n := S.wds - 1;
    SubtractMultiple(b.x, S.x, n + 1, q);
    if b.x[n] == 0 {
      Shrink(b, n);
    }
  }

  lemma PositiveTop(s: seq<Limb>)
    requires s != [] && s[|s| - 1] > 0
    ensures Value(s) > 0
  {
    ValueAtLeast(s);
  }

  /** With four leading zero bits in `t`, a number below ten times it has no more limbs. */
  lemma NoLongerThanTen(s: seq<Limb>, t: seq<Limb>)
    requires t != [] && 0 < t[|t| - 1] < 0x1000_0000 && Value(s) < 10 * Value(t)
    requires |s| <= 1 || s[|s| - 1] != 0
    ensures |s| <= |t|
  {
    if |s| > |t| {
      ValueAtLeast(s);
      ExpMono(0x1_0000_0000, |t|, |s| - 1);
      ValueTop(t);
      MulLe(t[|t| - 1] + 1, 0x1000_0000, Pow(|t| - 1));
    }
  }
}
