/** The big integers of ma_dtoa.c: limb arrays changed in place by carry and borrow loops. */
module Bigints {
  import opened Arith
  import opened Limbs

  class Bigint {
    const x: array<Limb>
    const k: nat
    const maxwds: nat
    var sign: int
    var wds: nat

    /** Room for `maxwds <= 2^k` limbs, of which `wds` are in use. */
    ghost predicate Valid()
      reads this
    {
      wds <= maxwds <= x.Length && 0 < maxwds <= Exp(2, k)
    }

    ghost function Val(): nat
      requires Valid()
      reads this, x
    {
      Value(x[..wds])
    }

    /** No leading zero limb. Zero is one zero limb, or, after a division, none at all. */
    ghost predicate Norm()
      requires Valid()
      reads this, x
    {
      if wds == 0 then x[0] == 0 else wds == 1 || x[wds - 1] != 0
    }

    constructor (k: nat, size: nat)
      requires 0 < size <= Exp(2, k)
      ensures Valid() && this.k == k && maxwds == x.Length == size && sign == 0 && wds == 0 && fresh(x)
    {
      this.k, maxwds, sign, wds := k, size, 0, 0;
      x := new Limb[size];
    }
  }

  method Balloc(k: nat) returns (rv: Bigint)
    ensures fresh(rv) && fresh(rv.x) && rv.Valid() && rv.k == k && rv.sign == 0 && rv.wds == 0
    ensures rv.maxwds == rv.x.Length == Exp(2, k)
  {
    var size := 1;
    for i := 0 to k
      invariant size == Exp(2, i)
    {
      size := 2 * size;
    }
    rv := new Bigint(k, size);
  }

  /** One limb of a multiply-and-carry pass over limbs worth `p`. */
  lemma CarryStep(done: int, before: int, carry: nat, m: nat, a: int, limb: nat, lo: nat, carry': nat, p: nat)
    requires done + carry * p == m * before + a
    requires limb * m + carry == carry' * 0x1_0000_0000 + lo
    ensures done + lo * p + carry' * (0x1_0000_0000 * p) == m * (before + limb * p) + a
  {
    assert (limb * m + carry) * p == (carry' * 0x1_0000_0000 + lo) * p;
    assert m * (before + limb * p) == m * before + (limb * m) * p;
  }

  lemma CarryBounds(limb: nat, m: nat, carry: nat)
    requires limb < 0x1_0000_0000 && m < 0x8000_0000 && carry < 0x8000_0000
    ensures limb * m + carry < 0x8000_0000 * 0x1_0000_0000
  {
    MulLe(limb, 0xFFFF_FFFF, m);
  }

  /** The first `i` limbs of `v` times `m` plus `a` are those of `w` and the carry. */
  ghost predicate Scaled(v: seq<Limb>, w: seq<Limb>, i: nat, carry: nat, m: nat, a: nat) {
    && |w| == |v| && i <= |v| && carry < 0x8000_0000 && m < 0x8000_0000
    && (forall j :: i <= j < |v| ==> w[j] == v[j])
    && Value(w[..i]) + carry * Pow(i) == m * Value(v[..i]) + a
  }

  lemma ScaledStep(v: seq<Limb>, w: seq<Limb>, i: nat, carry: nat, m: nat, a: nat, y: nat)
    requires Scaled(v, w, i, carry, m, a) && i < |v| && y == w[i] * m + carry
    ensures y < 0x1_0000_0000_0000_0000
    ensures Scaled(v, w[i := y % 0x1_0000_0000], i + 1, y / 0x1_0000_0000, m, a)
  {
    CarryBounds(v[i], m, carry);
    var lo := y % 0x1_0000_0000;
    CarryStep(Value(w[..i]), Value(v[..i]), carry, m, a, v[i], lo, y / 0x1_0000_0000, Pow(i));
    ValueTake(v, i);
    ValueSet(w, i, lo);
  }

  /** `b * m + a`, in place when it fits. What is added to a zero without limbs is lost, and a
      factor of zero leaves leading zero limbs. */
  method MultAdd(b: Bigint, m: nat, a: nat) returns (r: Bigint)
    requires b.Valid() && b.Norm() && m < 0x8000_0000 && a < 0x8000_0000
    modifies b, b.x
    ensures r.Valid() && (r.Val() == m * old(b.Val()) + a <==> old(b.wds) > 0 || a == 0)
    ensures m > 0 && (old(b.wds) > 0 || a == 0) ==> r.Norm()
    ensures r == b || (fresh(r) && fresh(r.x))
    ensures r.sign == old(b.sign) && old(b.wds) <= r.wds <= old(b.wds) + 1
  {
    hide Scaled, Value, Pow;
    var wds := b.wds;
    var i, carry: nat := 0, a;
    ghost var v := b.x[..];
    ScaledStart(v, m, a);
    assert old(b.Val()) == Value(v[..wds]) by { assert b.x[..wds] == v[..wds]; }
    while true
      invariant (i == 0 || i < wds) && b.wds == wds && b.sign == old(b.sign)
      invariant Scaled(v, b.x[..], i, carry, m, a)
      decreases wds - i
    {
      ghost var w := b.x[..];
      var y := b.x[i] * m + carry;
      ScaledStep(v, w, i, carry, m, a, y);
      carry := y / 0x1_0000_0000;
      var lo: Limb := y % 0x1_0000_0000;
      b.x[i] := lo;
      assert b.x[..] == w[i := lo];
      i := i + 1;
      if i >= wds { break; }
    }
    r := b;
    ghost var w := b.x[..];
    assert b.x[..wds] == w[..wds];
    ScaledEnd(v, w, i, wds, carry, m, a);
    if carry != 0 {
      if wds >= b.maxwds {
        r := Balloc(b.k + 1);
        Copy(r, b);
      }
      r.x[wds] := carry;
      assert r.x[..wds + 1] == w[..wds] + [carry];
      r.wds := wds + 1;
    }
  }

  /** Bcopy: sign, length and limbs. */
  method Copy(to: Bigint, from: Bigint)
    requires to.Valid() && from.Valid() && from.wds <= to.maxwds && to != from && to.x != from.x
    modifies to, to.x
    ensures to.Valid() && to.sign == from.sign && to.wds == from.wds
    ensures to.x[..to.wds] == from.x[..from.wds]
    ensures forall j :: from.wds <= j < to.x.Length ==> to.x[j] == old(to.x[j])
  {
    to.sign, to.wds := from.sign, from.wds;
    forall j | 0 <= j < from.wds { to.x[j] := from.x[j]; }
  }

  lemma ScaledEnd(v: seq<Limb>, w: seq<Limb>, i: nat, wds: nat, carry: nat, m: nat, a: nat)
    requires Scaled(v, w, i, carry, m, a) && a < 0x8000_0000 && wds <= i && i == if wds == 0 then 1 else wds
    requires if wds == 0 then v[0] == 0 else wds == 1 || v[wds - 1] != 0
    ensures |w| == |v|
    ensures wds == 0 ==> carry == 0 && w[0] == a && Value(w[..0]) == 0 == Value(v[..0])
    ensures wds > 0 ==> Value(w[..wds] + [carry]) == m * Value(v[..wds]) + a
    ensures wds > 0 && carry == 0 ==> Value(w[..wds]) == m * Value(v[..wds]) + a
    ensures wds > 0 && carry == 0 && m > 0 ==> wds == 1 || w[wds - 1] != 0
  {
    ValueSnoc(w[..wds], carry);
    if wds == 0 {
      assert w[..1] == [w[0]] && v[..1] == [v[0]];
      assert Value([w[0]]) == w[0] && Value([v[0]]) == 0;
      assert Pow(1) == 0x1_0000_0000;
    } else if wds > 1 && carry == 0 && m > 0 {
      ValueAtLeast(v[..wds]);
      MulLe(1, m, Value(v[..wds]));
      if w[wds - 1] == 0 {
        ValueTake(w, wds - 1);
        ValueBound(w[..wds - 1]);
      }
    }
  }

  lemma ScaledStart(v: seq<Limb>, m: nat, a: nat)
    requires m < 0x8000_0000 && a < 0x8000_0000
    ensures Scaled(v, v, 0, a, m, a)
  {
  }

  /** Order of two numbers, as a signed difference of lengths or of the highest limbs that
      differ. Two zeros of different form differ in length only. */
  method Cmp(a: Bigint, b: Bigint) returns (r: int)
    requires a.Valid() && b.Valid() && a.Norm() && b.Norm() && a.wds + b.wds > 0
    ensures a.Val() < b.Val() ==> r < 0
    ensures a.Val() > b.Val() ==> r > 0
    ensures a.Val() == b.Val() ==> r == if a.wds == b.wds then 0 else a.wds - b.wds
    ensures a.Val() == b.Val() && a.wds != b.wds ==> a.Val() == 0
  {
    if a.wds != b.wds {
      LongerIsMore(a.x[..a.wds], b.x[..b.wds]);
      return a.wds - b.wds;
    }
    var j := b.wds;
    while true
      invariant 0 < j <= b.wds
      invariant forall i :: j <= i < b.wds ==> a.x[i] == b.x[i]
      decreases j
    {
      j := j - 1;
      if a.x[j] != b.x[j] {
        if a.x[j] < b.x[j] {
          HighestDecides(a.x[..a.wds], b.x[..b.wds], j);
          return -1;
        }
        HighestDecides(b.x[..b.wds], a.x[..a.wds], j);
        return 1;
      }
      if j == 0 { break; }
    }
    assert a.x[..a.wds] == b.x[..b.wds];
    return 0;
  }

  lemma LongerIsMore(s: seq<Limb>, t: seq<Limb>)
    requires |s| != |t|
    requires |s| <= 1 || s[|s| - 1] != 0
    requires |t| <= 1 || t[|t| - 1] != 0
    ensures Value(s) <= Value(t) && Value(s) == Value(t) ==> Value(s) == 0
    ensures |s| < |t| ==> Value(s) < Value(t) || Value(s) == Value(t) == 0
    ensures |s| > |t| ==> Value(s) > Value(t) || Value(s) == Value(t) == 0
  {
    if |s| < |t| {
      if t[|t| - 1] != 0 { ShorterIsLess(s, t); } else { ValueTake(t, 0); assert t[..1] == t; }
    } else {
      if s[|s| - 1] != 0 { ShorterIsLess(t, s); } else { ValueTake(s, 0); assert s[..1] == s; }
    }
  }

  /** A 64-bit subtraction that may wrap: its low limb and its borrow bit. */
  lemma Wraps(t: int)
    requires -0x1_0000_0000 <= t < 0x1_0000_0000
    ensures var y := t % 0x1_0000_0000_0000_0000;
            var borrow := y / 0x1_0000_0000 % 2;
            borrow == (if t < 0 then 1 else 0) && y % 0x1_0000_0000 == t + borrow * 0x1_0000_0000
  {
    var y := t % 0x1_0000_0000_0000_0000;
    assert t < 0 ==> y == t + 0x1_0000_0000_0000_0000;
    assert t < 0 ==> y / 0x1_0000_0000 == 0xFFFF_FFFF;
  }

  ghost function Prefix(s: seq<Limb>, i: nat): seq<Limb> {
    if i <= |s| then s[..i] else s
  }

  ghost function LimbAt(s: seq<Limb>, i: nat): Limb {
    if i < |s| then s[i] else 0
  }

  lemma PrefixStep(s: seq<Limb>, i: nat)
    ensures Value(Prefix(s, i + 1)) == Value(Prefix(s, i)) + LimbAt(s, i) * Pow(i)
  {
    if i < |s| { ValueTake(s, i); } else { assert s[..|s|] == s; }
  }

  /** The first `i` limbs of `w` are those of `s - t`, with a borrow owed. */
  ghost predicate Borrowed(s: seq<Limb>, t: seq<Limb>, w: seq<Limb>, i: nat, borrow: nat) {
    && i <= |w| && borrow <= 1
    && Value(w[..i]) == Value(Prefix(s, i)) - Value(Prefix(t, i)) + borrow * Pow(i)
  }

  lemma BorrowedStep(s: seq<Limb>, t: seq<Limb>, w: seq<Limb>, i: nat, borrow: nat, y: nat)
    requires Borrowed(s, t, w, i, borrow) && i < |w|
    requires y == (LimbAt(s, i) - LimbAt(t, i) - borrow) % 0x1_0000_0000_0000_0000
    ensures Borrowed(s, t, w[i := y % 0x1_0000_0000], i + 1, y / 0x1_0000_0000 % 2)
  {
    var d := LimbAt(s, i) - LimbAt(t, i) - borrow;
    Wraps(d);
    var lo, out := y % 0x1_0000_0000, y / 0x1_0000_0000 % 2;
    ValueSet(w, i, lo);
    PrefixStep(s, i);
    PrefixStep(t, i);
    assert lo * Pow(i)
        == LimbAt(s, i) * Pow(i) - LimbAt(t, i) * Pow(i) - borrow * Pow(i) + out * (0x1_0000_0000 * Pow(i)) by {
      assert lo == LimbAt(s, i) - LimbAt(t, i) - borrow + out * 0x1_0000_0000;
      Distribute(LimbAt(s, i), LimbAt(t, i), borrow, out, Pow(i));
    }
  }

  lemma Distribute(a: int, b: int, c: int, out: int, p: int)
    ensures (a - b - c + out * 0x1_0000_0000) * p == a * p - b * p - c * p + out * (0x1_0000_0000 * p)
  {
  }

  lemma BorrowedEnd(s: seq<Limb>, t: seq<Limb>, w: seq<Limb>, i: nat, borrow: nat)
    requires Borrowed(s, t, w, i, borrow) && i >= |s| && i >= |t| && Value(s) >= Value(t)
    ensures borrow == 0 && Value(w[..i]) == Value(s) - Value(t)
  {
    hide Value, Pow;
    ValueBound(w[..i]);
    assert Prefix(s, i) == s && Prefix(t, i) == t;
    assert borrow == 1 ==> borrow * Pow(i) == Pow(i);
  }

  /** The absolute difference, with the sign of `a - b`. A zero without limbs must not meet
      another zero. */
  method Diff(a: Bigint, b: Bigint) returns (c: Bigint)
    requires a.Valid() && b.Valid() && a.Norm() && b.Norm()
    requires a.wds == 0 || b.wds == 0 ==> a.Val() != b.Val()
    ensures fresh(c) && fresh(c.x) && c.Valid() && c.Norm() && c.wds > 0
    ensures c.Val() == if a.Val() < b.Val() then b.Val() - a.Val() else a.Val() - b.Val()
    ensures c.sign == if a.Val() < b.Val() then 1 else 0
  {
    var i := Cmp(a, b);
    if i == 0 {
      c := Balloc(0);
      c.wds := 1;
      c.x[0] := 0;
      ValueZeros(c.x[..1], 0);
      return;
    }
    if i < 0 {
      c := Subtract(b, a);
      c.sign := 1;
    } else {
      c := Subtract(a, b);
      c.sign := 0;
    }
  }

  /** The borrow loops of diff, for `a > b`. */
  method Subtract(a: Bigint, b: Bigint) returns (c: Bigint)
    requires a.Valid() && b.Valid() && a.Norm() && b.Norm() && a.Val() > b.Val()
    ensures fresh(c) && fresh(c.x) && c.Valid() && c.Norm() && c.wds > 0
    ensures c.Val() == a.Val() - b.Val()
  {
    hide Borrowed, Value, Pow;
    ghost var s, t := a.x[..a.wds], b.x[..b.wds];
    NoLonger(s, t);
    c := Balloc(a.k);
    var wa, i, borrow: nat := a.wds, 0, 0;
    BorrowedStart(s, t, c.x[..]);
    while true
      invariant (i == 0 || i < b.wds) && c.Valid() && c.x.Length >= a.wds > 0
      invariant a.x[..a.wds] == s && b.x[..b.wds] == t
      invariant Borrowed(s, t, c.x[..], i, borrow)
      decreases b.wds - i
    {
      var y: nat := (a.x[i] - b.x[i] - borrow) % 0x1_0000_0000_0000_0000;
      ghost var w := c.x[..];
      BorrowedStep(s, t, w, i, borrow, y);
      borrow := y / 0x1_0000_0000 % 2;
      var lo: Limb := y % 0x1_0000_0000;
      c.x[i] := lo;
      assert c.x[..] == w[i := lo];
      i := i + 1;
      if i >= b.wds { break; }
    }
    while i < a.wds
      invariant b.wds <= i <= a.wds && c.Valid() && c.x.Length >= a.wds
      invariant a.x[..a.wds] == s && b.x[..b.wds] == t
      invariant Borrowed(s, t, c.x[..], i, borrow)
    {
      var y: nat := (a.x[i] - borrow) % 0x1_0000_0000_0000_0000;
      ghost var w := c.x[..];
      BorrowedStep(s, t, w, i, borrow, y);
      borrow := y / 0x1_0000_0000 % 2;
      var lo: Limb := y % 0x1_0000_0000;
      c.x[i] := lo;
      assert c.x[..] == w[i := lo];
      i := i + 1;
    }
    BorrowedEnd(s, t, c.x[..], i, borrow);
    assert c.x[..][..wa] == c.x[..wa];
    wa := Trim(c.x, wa);
    c.wds := wa;
  }

  /** Drops leading zero limbs of a positive number. */
  method Trim(x: array<Limb>, n: nat) returns (m: nat)
    requires n <= x.Length && Value(x[..n]) > 0
    ensures 0 < m <= n && x[m - 1] != 0 && Value(x[..m]) == Value(x[..n])
  {
    m := n;
    while x[m - 1] == 0
      invariant 0 < m <= n && Value(x[..m]) == Value(x[..n])
      decreases m
    {
      assert x[..m][..m - 1] == x[..m - 1];
      m := m - 1;
    }
  }

  lemma BorrowedStart(s: seq<Limb>, t: seq<Limb>, w: seq<Limb>)
    ensures Borrowed(s, t, w, 0, 0)
  {
  }

  lemma NoLonger(s: seq<Limb>, t: seq<Limb>)
    requires Value(s) > Value(t) && (|t| <= 1 || t[|t| - 1] != 0)
    ensures |t| <= |s| && s != []
  {
    if |t| > |s| {
      if |t| > 1 { ShorterIsLess(s, t); }
    }
  }

  lemma Pow2_32()
    ensures Exp(2, 32) == 0x1_0000_0000
  {
    assert Exp(2, 8) == 256;
    ExpAdd(2, 8, 8);
    ExpAdd(2, 16, 16);
  }

  lemma {:induction false} Pow2Limbs(n: nat, s: nat)
    ensures Exp(2, 32 * n + s) == Exp(2, s) * Pow(n)
  {
    if n > 0 {
      Pow2Limbs(n - 1, s);
      Pow2_32();
      ExpAdd(2, 32, 32 * (n - 1) + s);
      assert Exp(2, s) * (0x1_0000_0000 * Pow(n - 1)) == 0x1_0000_0000 * (Exp(2, s) * Pow(n - 1));
    }
  }

  lemma {:induction false} ValueAbove(w: seq<Limb>, n: nat)
    requires n <= |w| && forall j :: 0 <= j < n ==> w[j] == 0
    ensures Value(w) == Value(w[n..]) * Pow(n)
  {
    if n == |w| {
      ValueZeros(w, 0);
    } else {
      var m := |w| - 1;
      ValueAbove(w[..m], n);
      assert w[..m][n..] == w[n..][..m - n];
      PowSum(m - n, n);
      MulAdd(Value(w[n..][..m - n]), w[m] * Pow(m - n), Pow(n));
      MulSwap(w[m], Pow(m - n), Pow(n));
    }
  }

  /** One limb shifted left by `s` bits, split at 32 bits. */
  lemma ShiftLimb(x: Limb, s: nat)
    requires 0 < s < 32
    ensures var (p, h) := (Exp(2, s), Exp(2, 32 - s));
            x * p == x / h * 0x1_0000_0000 + x * p % 0x1_0000_0000
            && x / h < p <= 0x1_0000_0000 && x * p % 0x1_0000_0000 + p <= 0x1_0000_0000
  {
    Pow2_32();
    ExpAdd(2, s, 32 - s);
    SplitProduct(x, Exp(2, s), Exp(2, 32 - s), 0x1_0000_0000);
  }

  ghost predicate Shifted(v: seq<Limb>, w: seq<Limb>, i: nat, z: nat, s: nat) {
    && i <= |v| && i <= |w| && z < Exp(2, s)
    && Value(w[..i]) + z * Pow(i) == Exp(2, s) * Value(v[..i])
  }

  lemma ShiftedStep(v: seq<Limb>, w: seq<Limb>, i: nat, z: nat, s: nat, lo: nat, z': nat)
    requires Shifted(v, w, i, z, s) && i < |v| && i < |w| && 0 < s < 32
    requires lo == v[i] * Exp(2, s) % 0x1_0000_0000 + z && z' == v[i] / Exp(2, 32 - s)
    ensures lo < 0x1_0000_0000 && z' < 0x1_0000_0000 && Shifted(v, w[i := lo], i + 1, z', s)
  {
    hide Value, Exp, Pow;
    ShiftLimb(v[i], s);
    PowNext(i);
    CarryStep(Value(w[..i]), Value(v[..i]), z, Exp(2, s), 0, v[i], lo, z', Pow(i));
    ValueTake(v, i);
    ValueSet(w, i, lo);
  }

  lemma ShiftedStart(v: seq<Limb>, w: seq<Limb>, s: nat)
    ensures Shifted(v, w, 0, 0, s)
  {
  }

  /** The shifted limbs above `n` zero limbs are the shifted number, with no zero on top. */
  lemma ShiftedEnd(v: seq<Limb>, x: seq<Limb>, n: nat, z: Limb, s: nat, wds: nat)
    requires n + |v| < |x| && v != [] && (|v| == 1 || v[|v| - 1] != 0)
    requires forall j :: 0 <= j < n ==> x[j] == 0
    requires Shifted(v, x[n..], |v|, z, s) && x[n + |v|] == z
    requires wds == n + |v| + if z != 0 then 1 else 0
    ensures Value(x[..wds]) == Value(v) * Exp(2, 32 * n + s)
    ensures Value(v) > 0 ==> x[wds - 1] != 0
  {
    hide Value, Exp;
    var m := |v|;
    var t := x[n..];
    assert v[..m] == v && t[m] == z;
    ValueTake(t, m);
    assert x[..n + m][n..] == t[..m] && x[..n + m + 1][n..] == t[..m + 1];
    ValueAbove(x[..wds], n);
    Pow2Limbs(n, s);
    MulSwap(Value(v), Exp(2, s), Pow(n));
    assert Value(t[..wds - n]) == Exp(2, s) * Value(v);
    if z == 0 {
      ShiftedTop(v, t, s);
    }
  }

  lemma ShiftedTop(v: seq<Limb>, t: seq<Limb>, s: nat)
    requires v != [] && |t| >= |v| && (|v| == 1 || v[|v| - 1] != 0)
    requires Value(t[..|v|]) == Exp(2, s) * Value(v)
    ensures Value(v) > 0 ==> t[|v| - 1] != 0
  {
    var m := |v|;
    if Value(v) > 0 {
      if m > 1 { ValueAtLeast(v); } else { assert Pow(0) == 1; }
      MulLe(1, Exp(2, s), Value(v));
      ValueBound(t[..m - 1]);
      ValueTake(t, m - 1);
    }
  }

  /** `b * 2^k`, to a new number. */
  method LShift(b: Bigint, k: nat) returns (b1: Bigint)
    requires b.Valid() && b.Norm() && b.wds > 0
    ensures fresh(b1) && fresh(b1.x) && b1.Valid() && b1.wds > 0 && (b.Val() > 0 ==> b1.Norm())
    ensures b1.Val() == b.Val() * Exp(2, k) && b1.sign == 0
  {
    var n := k / 32;
    var k1, n1 := b.k, n + b.wds + 1;
    var i := b.maxwds;
    while n1 > i
      invariant 0 < i <= Exp(2, k1)
      decreases n1 - i
    {
      i := 2 * i;
      k1 := k1 + 1;
    }
    b1 := Balloc(k1);
    i := 0;
    while i < n
      invariant 0 <= i <= n && b1.Valid() && b1.x.Length >= n1 && b1.maxwds == b1.x.Length && b1.sign == 0
      invariant forall j :: 0 <= j < i ==> b1.x[j] == 0
    {
      b1.x[i] := 0;
      i := i + 1;
    }
    if k % 32 != 0 {
      ShiftBits(b, b1, n, k % 32);
    } else {
      CopyLimbs(b, b1, n);
    }
  }

  /** The limbs of `b`, shifted by `s` bits, go above `n` zero limbs. */
  method ShiftBits(b: Bigint, b1: Bigint, n: nat, s: nat)
    requires b.Valid() && b.Norm() && b.wds > 0 && 0 < s < 32
    requires b1.Valid() && b1.x != b.x && b1 != b && n + b.wds + 1 <= b1.maxwds == b1.x.Length
    requires forall j :: 0 <= j < n ==> b1.x[j] == 0
    modifies b1`wds, b1.x
    ensures b1.Valid() && (b.Val() > 0 ==> b1.Norm()) && b1.wds > 0 && b1.Val() == b.Val() * Exp(2, 32 * n + s)
  {
    hide Value, Shifted, Exp;
    ghost var v := b.x[..b.wds];
    var at, z: Limb := 0, 0;
    ShiftedStart(v, b1.x[n..], s);
    while true
      invariant at < b.wds && b.x[..b.wds] == v
      invariant forall j :: 0 <= j < n ==> b1.x[j] == 0
      invariant Shifted(v, b1.x[n..], at, z, s)
      decreases b.wds - at
    {
      ghost var w := b1.x[n..];
      var y := b.x[at] * Exp(2, s) % 0x1_0000_0000 + z;
      ShiftedStep(v, w, at, z, s, y, b.x[at] / Exp(2, 32 - s));
      var lo: Limb := y;
      b1.x[n + at] := lo;
      z := b.x[at] / Exp(2, 32 - s);
      assert b1.x[n..] == w[at := lo];
      at := at + 1;
      if at >= b.wds { break; }
    }
    ghost var w := b1.x[n..];
    ShiftedKeep(v, w, at, z, s, z);
    b1.x[n + at] := z;
    assert b1.x[n..] == w[at := z] && b1.x[..][n..] == b1.x[n..];
    var n1 := n + b.wds + 1;
    if z != 0 { n1 := n1 + 1; }
    b1.wds := n1 - 1;
    ShiftedEnd(v, b1.x[..], n, z, s, b1.wds);
    assert b1.x[..][..b1.wds] == b1.x[..b1.wds];
  }

  lemma ShiftedKeep(v: seq<Limb>, w: seq<Limb>, i: nat, z: nat, s: nat, d: Limb)
    requires Shifted(v, w, i, z, s) && i < |w|
    ensures Shifted(v, w[i := d], i, z, s)
  {
    assert w[i := d][..i] == w[..i];
  }

  /** Whole limbs only. */
  method CopyLimbs(b: Bigint, b1: Bigint, n: nat)
    requires b.Valid() && b.Norm() && b.wds > 0
    requires b1.Valid() && b1.x != b.x && b1 != b && n + b.wds + 1 <= b1.maxwds == b1.x.Length
    requires forall j :: 0 <= j < n ==> b1.x[j] == 0
    modifies b1`wds, b1.x
    ensures b1.Valid() && (b.Val() > 0 ==> b1.Norm()) && b1.wds > 0 && b1.Val() == b.Val() * Exp(2, 32 * n)
  {
    if b.Val() > 0 { OneLimb(b.x[..b.wds]); }
    assert Exp(2, 0) == 1;
    hide Value, Exp, Pow;
    var at := 0;
    while true
      invariant at < b.wds
      invariant forall j :: 0 <= j < n ==> b1.x[j] == 0
      invariant forall j :: 0 <= j < at ==> b1.x[n + j] == b.x[j]
      decreases b.wds - at
    {
      b1.x[n + at] := b.x[at];
      at := at + 1;
      if at >= b.wds { break; }
    }
    b1.wds := n + b.wds;
    ghost var t := b1.x[..b1.wds];
    assert t[n..] == b.x[..b.wds];
    assert forall j :: 0 <= j < n ==> t[j] == b1.x[j] == 0;
    ValueAbove(t, n);
    Pow2Limbs(n, 0);
    assert b1.x[b1.wds - 1] == t[n..][b.wds - 1];
  }

  lemma OneLimb(v: seq<Limb>)
    requires Value(v) > 0 && (|v| <= 1 || v[|v| - 1] != 0)
    ensures v != [] && v[|v| - 1] != 0
  {
  }
}
