/** Natural numbers as little-endian sequences of 32-bit limbs. */
module Limbs {
  import opened Arith

  type Limb = x: int | 0 <= x < 0x1_0000_0000

  /** Powers of 2^32. */
  ghost function Pow(n: nat): nat {
    Exp(0x1_0000_0000, n)
  }

  lemma PowNext(n: nat)
    ensures Pow(n + 1) == 0x1_0000_0000 * Pow(n)
  {
  }

  lemma PowSum(m: nat, n: nat)
    ensures Pow(m + n) == Pow(m) * Pow(n)
  {
    ExpAdd(0x1_0000_0000, m, n);
  }

  ghost function Value(s: seq<Limb>): nat {
    if s == [] then 0 else Value(s[..|s| - 1]) + s[|s| - 1] * Pow(|s| - 1)
  }

  lemma ValueSnoc(s: seq<Limb>, d: Limb)
    ensures Value(s + [d]) == Value(s) + d * Pow(|s|)
  {
    assert (s + [d])[..|s|] == s;
  }

  lemma ValueTake(s: seq<Limb>, i: nat)
    requires i < |s|
    ensures Value(s[..i + 1]) == Value(s[..i]) + s[i] * Pow(i)
  {
    assert s[..i + 1][..i] == s[..i];
  }

  /** Writing limb `i` of a longer array. */
  lemma ValueSet(w: seq<Limb>, i: nat, d: Limb)
    requires i < |w|
    ensures Value(w[i := d][..i + 1]) == Value(w[..i]) + d * Pow(i)
  {
    assert w[i := d][..i + 1][..i] == w[..i];
  }

  lemma {:induction false} ValueBound(s: seq<Limb>)
    ensures Value(s) < Pow(|s|)
  {
    if s != [] {
      var n := |s| - 1;
      ValueBound(s[..n]);
      MulLe(s[n], 0xFFFF_FFFF, Pow(n));
    }
  }

  /** The top limb fixes the value up to one power. */
  lemma ValueTop(s: seq<Limb>)
    requires s != []
    ensures s[|s| - 1] * Pow(|s| - 1) <= Value(s) < (s[|s| - 1] + 1) * Pow(|s| - 1)
  {
    ValueBound(s[..|s| - 1]);
  }

  /** A number with a nonzero top limb is at least that limb's power. */
  lemma ValueAtLeast(s: seq<Limb>)
    requires s != [] && s[|s| - 1] != 0
    ensures Value(s) >= Pow(|s| - 1)
  {
    ValueTop(s);
    MulLe(1, s[|s| - 1], Pow(|s| - 1));
  }

  /** Leading zero limbs do not count. */
  lemma {:induction false} ValueZeros(s: seq<Limb>, n: nat)
    requires n <= |s| && forall i :: n <= i < |s| ==> s[i] == 0
    ensures Value(s) == Value(s[..n])
  {
    if n < |s| {
      ValueZeros(s[..|s| - 1], n);
      assert s[..|s| - 1][..n] == s[..n];
    } else {
      assert s[..n] == s;
    }
  }

  /** Fewer significant limbs, smaller number. */
  lemma ShorterIsLess(s: seq<Limb>, t: seq<Limb>)
    requires |s| < |t| && t[|t| - 1] != 0
    ensures Value(s) < Value(t)
  {
    ValueBound(s);
    ValueAtLeast(t);
    ExpMono(0x1_0000_0000, |s|, |t| - 1);
  }

  /** The highest limb that differs decides. */
  lemma {:induction false} HighestDecides(s: seq<Limb>, t: seq<Limb>, j: nat)
    requires |s| == |t| && j < |s| && s[j] < t[j]
    requires forall i :: j < i < |s| ==> s[i] == t[i]
    ensures Value(s) < Value(t)
  {
    if j == |s| - 1 {
      ValueTop(s);
      ValueTop(t);
      MulLe(s[j] + 1, t[j], Pow(j));
    } else {
      HighestDecides(s[..|s| - 1], t[..|s| - 1], j);
    }
  }

  /** The same number, read from the lowest limb. */
  lemma {:induction false} ValueFrom(s: seq<Limb>, k: nat)
    requires k < |s|
    ensures Value(s[k..]) == s[k] + 0x1_0000_0000 * Value(s[k + 1..])
  {
    ValueCons(s[k], s[k + 1..]);
    assert s[k..] == [s[k]] + s[k + 1..];
  }

  lemma {:induction false} ValueCons(d: Limb, t: seq<Limb>)
    ensures Value([d] + t) == d + 0x1_0000_0000 * Value(t)
  {
    if t == [] {
      ValueSnoc([], d);
    } else {
      var m := |t| - 1;
      ValueCons(d, t[..m]);
      assert [d] + t == ([d] + t[..m]) + [t[m]] && t == t[..m] + [t[m]];
      ValueSnoc([d] + t[..m], t[m]);
      ValueSnoc(t[..m], t[m]);
      MulSwap(t[m], 0x1_0000_0000, Pow(m));
      assert Pow(m + 1) == 0x1_0000_0000 * Pow(m);
    }
  }
}
