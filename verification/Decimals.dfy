/** Decimal digit strings, and what it means for one to stand for a number near enough. */
module Decimals {
  import opened Arith

  /** The integer a digit string spells. */
  ghost function Num(ds: seq<nat>): nat {
    if ds == [] then 0 else 10 * Num(ds[..|ds| - 1]) + ds[|ds| - 1]
  }

  ghost predicate Digits(ds: seq<nat>) {
    forall i :: 0 <= i < |ds| ==> ds[i] <= 9
  }

  /** The first `i` digits are out: `D` of them, and `b` of the value is left. */
  ghost predicate At(b0: nat, s: nat, i: nat, D: nat, b: nat) {
    i > 0 && b0 * Exp(10, i - 1) == D * s + b && b < s
  }

  /** `n` units of `s` are within `lo` below and `hi` above `v`; at the ends only if allowed. */
  ghost predicate InInterval(n: int, v: nat, s: nat, lo: nat, hi: nat, ends: bool) {
    if ends then v - n * s <= lo && n * s - v <= hi
    else v - n * s < lo && n * s - v < hi
  }

  /** The same at scale `i`. */
  ghost predicate Reads(n: int, i: nat, b0: nat, s: nat, lo: nat, hi: nat, ends: bool) {
    i > 0 && InInterval(n, b0 * Exp(10, i - 1), s, lo * Exp(10, i - 1), hi * Exp(10, i - 1), ends)
  }

  /** No decimal with fewer than `i` digits lies in the interval. */
  ghost predicate NoShorter(i: nat, b0: nat, s: nat, lo: nat, hi: nat, ends: bool) {
    forall i', n: int :: 0 < i' < i ==> !Reads(n, i', b0, s, lo, hi, ends)
  }

  /** `n` units of `s` are nearest to `v`; halfway, `n` is even. */
  ghost predicate HalfEven(n: nat, v: nat, s: nat) {
    && -(s as int) <= 2 * (v - n * s) <= s
    && (2 * (v - n * s) == s || 2 * (n * s - v) == s ==> n % 2 == 0)
  }

  lemma Unit(n: nat, s: nat)
    ensures (n + 1) * s == n * s + s
  {
    MulAdd(n, 1, s);
  }

  /** The next digit: the remainder, ten times larger, is divided again. */
  lemma NextDigit(b0: nat, s: nat, i: nat, D: nat, b: nat, q: nat, b': nat)
    requires At(b0, s, i, D, b) && 10 * b == q * s + b' && b' < s
    ensures At(b0, s, i + 1, 10 * D + q, b') && q <= 9
  {
    assert b0 * Exp(10, i) == 10 * (b0 * Exp(10, i - 1)) by {
      MulSwap(b0, 10, Exp(10, i - 1));
      MulSwap(10, b0, Exp(10, i - 1));
    }
    MulAdd(10 * D, q, s);
    MulSwap(10, D, s);
    if q >= 10 { MulLe(10, q, s); }
  }

  lemma FirstDigit(b0: nat, s: nat, q: nat, b: nat)
    requires s <= b0 < 10 * s && b0 == q * s + b && b < s
    ensures At(b0, s, 1, q, b) && 1 <= q <= 9
  {
    if q >= 10 { MulLe(10, q, s); }
    assert q == 0 ==> q * s == 0;
  }

  ghost predicate Within(x: int, bound: int, ends: bool) {
    if ends then x <= bound else x < bound
  }

  /** Whether keeping the digits, or adding one, is in the interval shows in the remainder. */
  lemma Candidates(b0: nat, s: nat, i: nat, D: nat, b: nat, lo: nat, hi: nat, ends: bool)
    requires At(b0, s, i, D, b) && lo > 0 && hi > 0
    ensures Reads(D, i, b0, s, lo, hi, ends) <==> Within(b, lo * Exp(10, i - 1), ends)
    ensures Reads(D + 1, i, b0, s, lo, hi, ends) <==> Within(s - b, hi * Exp(10, i - 1), ends)
  {
    Unit(D, s);
    MulPositive(lo, Exp(10, i - 1));
    MulPositive(hi, Exp(10, i - 1));
  }

  /** If neither is, no decimal with `i` digits is. */
  lemma NoneOfLength(b0: nat, s: nat, i: nat, D: nat, b: nat, lo: nat, hi: nat, ends: bool, n: int)
    requires At(b0, s, i, D, b) && lo > 0 && hi > 0
    requires !Within(b, lo * Exp(10, i - 1), ends) && !Within(s - b, hi * Exp(10, i - 1), ends)
    ensures !Reads(n, i, b0, s, lo, hi, ends)
  {
    Unit(D, s);
    if n <= D {
      MulLeInt(n, D, s);
    } else {
      MulLeInt(D + 1, n, s);
    }
  }

  lemma MulLeInt(a: int, b: int, p: nat)
    requires a <= b
    ensures a * p <= b * p
  {
    MulLe(0, b - a, p);
    MulAdd(b, -a, p);
    assert -a * p == -(a * p);
  }

  lemma StillNoShorter(b0: nat, s: nat, i: nat, D: nat, b: nat, lo: nat, hi: nat, ends: bool)
    requires At(b0, s, i, D, b) && lo > 0 && hi > 0 && NoShorter(i, b0, s, lo, hi, ends)
    requires !Within(b, lo * Exp(10, i - 1), ends) && !Within(s - b, hi * Exp(10, i - 1), ends)
    ensures NoShorter(i + 1, b0, s, lo, hi, ends)
  {
    forall i', n: int | 0 < i' < i + 1
      ensures !Reads(n, i', b0, s, lo, hi, ends)
    {
      if i' == i { NoneOfLength(b0, s, i, D, b, lo, hi, ends, n); }
    }
  }

  /** Rounding by the remainder doubled gives the nearest, halfway the even one. */
  lemma RoundsHalfEven(b0: nat, s: nat, i: nat, D: nat, b: nat)
    requires At(b0, s, i, D, b)
    ensures 2 * b < s || (2 * b == s && D % 2 == 0) ==> HalfEven(D, b0 * Exp(10, i - 1), s)
    ensures 2 * b > s || (2 * b == s && D % 2 == 1) ==> HalfEven(D + 1, b0 * Exp(10, i - 1), s)
  {
    Unit(D, s);
  }

  // ---- Which of two decimals is chosen ----

  ghost function Dist(n: int, v: nat, s: nat): nat {
    if n * s <= v then v - n * s else n * s - v
  }

  /** No decimal of this length in the interval is nearer. */
  ghost predicate Nearest(n: int, i: nat, b0: nat, s: nat, lo: nat, hi: nat, ends: bool) {
    && Reads(n, i, b0, s, lo, hi, ends)
    && forall n': int :: Reads(n', i, b0, s, lo, hi, ends)
         ==> Dist(n, b0 * Exp(10, i - 1), s) <= Dist(n', b0 * Exp(10, i - 1), s)
  }

  /** The first digit is a nine within the interval, and ten lies exactly at its upper end, further
      away. */
  ghost predicate NineAtEnd(i: nat, b0: nat, s: nat, lo: nat, hi: nat, ends: bool) {
    i == 1 && ends && hi <= s && b0 + hi == 10 * s && s - hi <= lo && s < 2 * hi
  }

  /** Halfway between two decimals that are both exactly at the ends of the interval. */
  ghost predicate BothAtEnds(i: nat, s: nat, lo: nat, hi: nat, ends: bool) {
    i > 0 && ends && 2 * (lo * Exp(10, i - 1)) == s && 2 * (hi * Exp(10, i - 1)) == s
  }

  /** Another decimal of the same length in the interval is as near. */
  ghost predicate Rival(n': int, n: int, i: nat, b0: nat, s: nat, lo: nat, hi: nat, ends: bool)
    requires i > 0
  {
    && n' != n && Reads(n', i, b0, s, lo, hi, ends)
    && Dist(n', b0 * Exp(10, i - 1), s) == Dist(n, b0 * Exp(10, i - 1), s)
  }

  /** Of two equally near decimals in the interval it is the even one; when both are at its ends, the
      lower one, unless that ends in nine. */
  ghost predicate RightAtTie(n: int, i: nat, b0: nat, s: nat, lo: nat, hi: nat, ends: bool) {
    i > 0 && forall n': int :: Rival(n', n, i, b0, s, lo, hi, ends) ==>
               if BothAtEnds(i, s, lo, hi, ends) then n % 10 == 0 || (n % 10 != 9 && n < n') else n % 2 == 0
  }

  /** The nearest decimal, halfway the even one, except that ten is preferred to nine at the end of
      the interval. */
  ghost predicate Chosen(n: int, i: nat, b0: nat, s: nat, lo: nat, hi: nat, ends: bool) {
    && (Nearest(n, i, b0, s, lo, hi, ends) || NineAtEnd(i, b0, s, lo, hi, ends))
    && (NineAtEnd(i, b0, s, lo, hi, ends) ==> n == 10 || (hi == s && n == 9))
    && (NineAtEnd(i, b0, s, lo, hi, ends) && hi < s ==> !Nearest(n, i, b0, s, lo, hi, ends))
    && RightAtTie(n, i, b0, s, lo, hi, ends)
  }

  /** Only the two candidates can be equally near, and then the remainder is half. */
  lemma OnlyTie(b0: nat, s: nat, i: nat, D: nat, b: nat, n: nat, n': int)
    requires At(b0, s, i, D, b) && (n == D || (n == D + 1 && b > 0)) && n' != n
    requires Dist(n', b0 * Exp(10, i - 1), s) == Dist(n, b0 * Exp(10, i - 1), s)
    ensures 2 * b == s && n' == if n == D then D + 1 else D
  {
    var v := b0 * Exp(10, i - 1);
    hide Exp;
    Distances(b0, s, i, D, b, n);
    MulAdd(D, -1, s);
    MulAdd(D, 2, s);
    assert (D - 1) * s == D * s - s && (D + 2) * s == D * s + 2 * s;
    if n' <= D - 1 {
      MulLeInt(n', D - 1, s);
    } else if n' >= D + 2 {
      MulLeInt(D + 2, n', s);
    }
    Distances(b0, s, i, D, b, n');
  }

  lemma Distances(b0: nat, s: nat, i: nat, D: nat, b: nat, n: int)
    requires At(b0, s, i, D, b)
    ensures var v := b0 * Exp(10, i - 1);
      && Dist(D, v, s) == b && Dist(D + 1, v, s) == s - b
      && (if n <= D then n * s <= D * s && Dist(n, v, s) >= b else n * s >= (D + 1) * s && Dist(n, v, s) >= s - b)
  {
    Unit(D, s);
    if n <= D { MulLeInt(n, D, s); } else { MulLeInt(D + 1, n, s); }
  }

  /** A decimal above the candidates is in the interval only if the upper candidate is, and so below. */
  lemma Beyond(b0: nat, s: nat, i: nat, D: nat, b: nat, lo: nat, hi: nat, ends: bool, n: int)
    requires At(b0, s, i, D, b) && lo > 0 && hi > 0 && Reads(n, i, b0, s, lo, hi, ends)
    ensures if n <= D then Reads(D, i, b0, s, lo, hi, ends) else Reads(D + 1, i, b0, s, lo, hi, ends)
  {
    Distances(b0, s, i, D, b, n);
    Unit(D, s);
    MulPositive(lo, Exp(10, i - 1));
    MulPositive(hi, Exp(10, i - 1));
    hide Exp;
  }

  lemma KeepNearest(b0: nat, s: nat, i: nat, D: nat, b: nat, lo: nat, hi: nat, ends: bool)
    requires At(b0, s, i, D, b) && lo > 0 && hi > 0 && Reads(D, i, b0, s, lo, hi, ends)
    requires 2 * b <= s || !Reads(D + 1, i, b0, s, lo, hi, ends)
    ensures Nearest(D, i, b0, s, lo, hi, ends)
  {
    hide Reads, Dist;
    forall n: int | Reads(n, i, b0, s, lo, hi, ends)
      ensures Dist(D, b0 * Exp(10, i - 1), s) <= Dist(n, b0 * Exp(10, i - 1), s)
    {
      Distances(b0, s, i, D, b, n);
      Beyond(b0, s, i, D, b, lo, hi, ends, n);
    }
  }

  lemma RaiseNearest(b0: nat, s: nat, i: nat, D: nat, b: nat, lo: nat, hi: nat, ends: bool)
    requires At(b0, s, i, D, b) && lo > 0 && hi > 0 && Reads(D + 1, i, b0, s, lo, hi, ends)
    requires 2 * b >= s || !Reads(D, i, b0, s, lo, hi, ends)
    ensures Nearest(D + 1, i, b0, s, lo, hi, ends)
  {
    hide Reads, Dist;
    forall n: int | Reads(n, i, b0, s, lo, hi, ends)
      ensures Dist(D + 1, b0 * Exp(10, i - 1), s) <= Dist(n, b0 * Exp(10, i - 1), s)
    {
      Distances(b0, s, i, D, b, n);
      Beyond(b0, s, i, D, b, lo, hi, ends, n);
    }
  }

  /** A decimal that ends in zero is a shorter one. */
  lemma EndsInZero(n: int, i: nat, b0: nat, s: nat, lo: nat, hi: nat, ends: bool)
    requires i > 1 && Reads(10 * n, i, b0, s, lo, hi, ends)
    ensures Reads(n, i - 1, b0, s, lo, hi, ends)
  {
    var p := Exp(10, i - 2);
    assert Exp(10, i - 1) == 10 * p;
    hide Exp;
    Tenfold(b0, p);
    Tenfold(lo, p);
    Tenfold(hi, p);
    MulSwap(10, n, s);
  }

  lemma Tenfold(x: nat, p: nat)
    ensures x * (10 * p) == 10 * (x * p)
  {
  }

  /** At the end of the interval the remainder and the digit are these. */
  lemma NineDigit(b0: nat, s: nat, lo: nat, hi: nat, ends: bool, dig: nat, b: nat)
    requires NineAtEnd(1, b0, s, lo, hi, ends) && hi > 0 && b0 == dig * s + b && b < s
    ensures dig == 9 && b == s - hi
  {
    DivModUnique(b0, s, dig, b);
    DivModUnique(b0, s, 9, s - hi);
  }

  /** Ten at the end of the interval is further away than nine. */
  lemma TenIsFurther(b0: nat, s: nat, lo: nat, hi: nat, ends: bool)
    requires NineAtEnd(1, b0, s, lo, hi, ends) && lo > 0 && hi > 0
    ensures !Nearest(10, 1, b0, s, lo, hi, ends)
  {
    assert Exp(10, 0) == 1;
    assert At(b0, s, 1, 9, s - hi);
    Distances(b0, s, 1, 9, s - hi, 9);
    Candidates(b0, s, 1, 9, s - hi, lo, hi, ends);
    assert Reads(9, 1, b0, s, lo, hi, ends);
  }
}
