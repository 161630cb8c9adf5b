/** Schoolbook multiplication of big integers, one row for each limb of the shorter factor. */
module BigProduct {
  import opened Arith
  import opened Bigints
  import opened Limbs

  /** A row in progress: `c0` plus `y` times the first `i` limbs of `v`, at offset `j`. */
  ghost predicate Row(v: seq<Limb>, y: nat, c0: seq<Limb>, c: seq<Limb>, j: nat, i: nat, carry: nat) {
    && |c| == |c0| && i <= |v| && j + i <= |c| && carry < 0x1_0000_0000 && y < 0x1_0000_0000
    && (forall n :: j + i <= n < |c| ==> c[n] == c0[n])
    && Value(c[..j + i]) + carry * Pow(j + i) == Value(c0[..j + i]) + (y * Value(v[..i])) * Pow(j)
  }

  lemma RowStart(v: seq<Limb>, y: nat, c: seq<Limb>, j: nat)
    requires j <= |c| && y < 0x1_0000_0000
    ensures Row(v, y, c, c, j, 0, 0)
  {
    assert v[..0] == [];
  }

  lemma RowStep(v: seq<Limb>, y: nat, c0: seq<Limb>, c: seq<Limb>, j: nat, i: nat, carry: nat, z: nat)
    requires Row(v, y, c0, c, j, i, carry) && i < |v| && j + i < |c|
    requires z == v[i] * y + c[j + i] + carry
    ensures z < 0x1_0000_0000_0000_0000
    ensures Row(v, y, c0, c[j + i := z % 0x1_0000_0000], j, i + 1, z / 0x1_0000_0000)
  {
    hide Value, Pow;
    MulLe(v[i], 0xFFFF_FFFF, y);
    var lo, out := z % 0x1_0000_0000, z / 0x1_0000_0000;
    ValueSet(c, j + i, lo);
    ValueTake(c0, j + i);
    ValueTake(v, i);
    PowSum(j, i);
    PowNext(j + i);
    RowArith(Value(c[..j + i]), Value(c0[..j + i]), Value(v[..i]), y, v[i], c[j + i], carry, lo, out, Pow(i), Pow(j));
  }

  lemma RowArith(vc: int, vc0: int, vv: int, y: int, a: int, d: int, carry: int, lo: int, out: int, pi: int, pj: int)
    requires vc + carry * (pj * pi) == vc0 + (y * vv) * pj
    requires a * y + d + carry == out * 0x1_0000_0000 + lo
    ensures vc + lo * (pj * pi) + out * (0x1_0000_0000 * (pj * pi))
         == vc0 + d * (pj * pi) + (y * (vv + a * pi)) * pj
  {
    var p := pj * pi;
    assert (out * 0x1_0000_0000 + lo) * p == (a * y + d + carry) * p;
    assert (y * (vv + a * pi)) * pj == (y * vv) * pj + (a * y) * p by {
      MulAdd(vv, a * pi, y);
      MulAdd(y * vv, y * (a * pi), pj);
      MulSwap(a, pi, y);
      MulSwap(a * y, pi, pj);
      assert y * (a * pi) == (a * y) * pi;
    }
    MulAdd(out * 0x1_0000_0000, lo, p);
    MulAdd(a * y + d, carry, p);
    MulAdd(a * y, d, p);
    MulSwap(out, 0x1_0000_0000, p);
  }

  /** `j` rows done: the product by the first `j` limbs of `t`, and nothing above them. */
  ghost predicate Rows(s: seq<Limb>, t: seq<Limb>, c: seq<Limb>, j: nat) {
    && j <= |t| && |s| + |t| == |c|
    && (forall n :: |s| + j <= n < |c| ==> c[n] == 0)
    && Value(c[..|s| + j]) == Value(s) * Value(t[..j])
  }

  lemma RowDone(s: seq<Limb>, t: seq<Limb>, c0: seq<Limb>, c: seq<Limb>, j: nat, carry: Limb)
    requires Rows(s, t, c0, j) && j < |t| && Row(s, t[j], c0, c, j, |s|, carry)
    ensures Rows(s, t, c[j + |s| := carry], j + 1)
  {
    hide Value, Pow;
    ValueSet(c, j + |s|, carry);
    ValueTake(t, j);
    assert s[..|s|] == s;
    var x, b, d, p := Value(s), Value(t[..j]), t[j], Pow(j);
    assert x * (b + d * p) == x * b + (d * x) * p by {
      MulAdd(b, d * p, x);
      MulSwap(d, x, p);
    }
  }

  lemma RowSkipped(s: seq<Limb>, t: seq<Limb>, c: seq<Limb>, j: nat)
    requires Rows(s, t, c, j) && j < |t| && t[j] == 0
    ensures Rows(s, t, c, j + 1)
  {
    ValueTake(c, |s| + j);
    ValueTake(t, j);
  }

  lemma RowsStart(s: seq<Limb>, t: seq<Limb>, c: seq<Limb>)
    requires |c| == |s| + |t| && forall n :: 0 <= n < |c| ==> c[n] == 0
    ensures Rows(s, t, c, 0)
  {
    ValueZeros(c[..|s|], 0);
  }

  /** One row, added into `c` at offset `j`. */
  method AddRow(a: Bigint, y: Limb, c: Bigint, j: nat, ghost t: seq<Limb>, wc: nat)
    requires a.Valid() && c.Valid() && c.x != a.x && c != a && wc <= c.x.Length && a.wds > 0
    requires j < |t| && t[j] == y && wc == a.wds + |t|
    requires Rows(a.x[..a.wds], t, c.x[..wc], j)
    modifies c.x
    ensures Rows(a.x[..a.wds], t, c.x[..wc], j + 1)
  {
    hide Rows, Row, Value, Pow;
    ghost var s, c0 := a.x[..a.wds], c.x[..wc];
    var i, carry: nat := 0, 0;
    RowStart(s, y, c0, j);
    while true
      invariant i < a.wds && a.x[..a.wds] == s && carry < 0x1_0000_0000
      invariant Row(s, y, c0, c.x[..wc], j, i, carry)
      decreases a.wds - i
    {
      ghost var w := c.x[..wc];
      var z: nat := a.x[i] * y + c.x[j + i] + carry;
      RowStep(s, y, c0, w, j, i, carry, z);
      var lo: Limb := z % 0x1_0000_0000;
      c.x[j + i] := lo;
      carry := z / 0x1_0000_0000;
      assert c.x[..wc] == w[j + i := lo];
      i := i + 1;
      if i >= a.wds { break; }
    }
    ghost var w := c.x[..wc];
    var top: Limb := carry;
    RowDone(s, t, c0, w, j, top);
    c.x[j + i] := top;
    assert c.x[..wc] == w[j + i := top];
  }

  /** Clears the first `wc` limbs of a fresh number. */
  method Cleared(k: nat, wc: nat) returns (c: Bigint)
    requires wc <= Exp(2, k)
    ensures fresh(c) && fresh(c.x) && c.Valid() && c.maxwds == c.x.Length >= wc && c.wds == 0 && c.sign == 0
    ensures forall i :: 0 <= i < wc ==> c.x[i] == 0
  {
    c := Balloc(k);
    for n := 0 to wc
      invariant c.Valid() && c.x.Length >= wc && c.maxwds == c.x.Length && c.wds == 0 && c.sign == 0
      invariant forall i :: 0 <= i < n ==> c.x[i] == 0
    {
      c.x[n] := 0;
    }
  }

  /** Drops all leading zero limbs. */
  method TrimAll(x: array<Limb>, n: nat) returns (m: nat)
    requires n <= x.Length
    ensures m <= n && Value(x[..m]) == Value(x[..n])
    ensures m > 0 ==> x[m - 1] != 0
    ensures m == 0 && n > 0 ==> x[0] == 0
  {
    m := n;
    while m > 0 && x[m - 1] == 0
      invariant 0 <= m <= n && Value(x[..m]) == Value(x[..n])
      invariant m == 0 && n > 0 ==> x[0] == 0
    {
      assert x[..m][..m - 1] == x[..m - 1];
      m := m - 1;
    }
  }

  /** The product, to a new number. */
  method Mult(first: Bigint, second: Bigint) returns (c: Bigint)
    requires first.Valid() && second.Valid()
    ensures fresh(c) && fresh(c.x) && c.Valid() && c.sign == 0
    ensures c.Val() == first.Val() * second.Val()
    ensures first.wds + second.wds > 0 ==> c.Norm()
    ensures c.Val() > 0 ==> c.wds > 0
  {
    hide Rows, Value, Pow;
    var a, b := first, second;
    if a.wds < b.wds { a, b := b, a; }
    var k, wc := a.k, a.wds + b.wds;
    if wc > a.maxwds { k := k + 1; }
    c := Cleared(k, wc);
    ghost var s, t := a.x[..a.wds], b.x[..b.wds];
    RowsStart(s, t, c.x[..wc]);
    var j := 0;
    while j < b.wds
      invariant 0 <= j <= b.wds && a.x[..a.wds] == s && b.x[..b.wds] == t && c.Valid() && c.sign == 0
      invariant Rows(s, t, c.x[..wc], j)
    {
      var y := b.x[j];
      if y != 0 {
        AddRow(a, y, c, j, t, wc);
      } else {
        RowSkipped(s, t, c.x[..wc], j);
      }
      j := j + 1;
    }
    RowsDone(s, t, c.x[..wc]);
    wc := TrimAll(c.x, wc);
    c.wds := wc;
    NoLimbsIsZero(c.x[..wc]);
  }

  lemma NoLimbsIsZero(s: seq<Limb>)
    ensures Value(s) > 0 ==> s != []
  {
  }

  lemma RowsDone(s: seq<Limb>, t: seq<Limb>, c: seq<Limb>)
    requires Rows(s, t, c, |t|)
    ensures Value(c) == Value(s) * Value(t) == Value(t) * Value(s)
  {
    assert t[..|t|] == t && c[..|s| + |t|] == c;
  }
}
