/** Multiplication by powers of five: a table up to 5^256, repeated squaring beyond it. */
module BigPowers {
  import opened Arith
  import opened BigProduct
  import opened Bigints
  import opened FivePowers
  import opened Limbs

  /** Row `i` of the table. */
  function PowerLimbs(i: nat): seq<Limb> {
    if i == 0 then POWER_4 else if i == 1 then POWER_8 else if i == 2 then POWER_16
    else if i == 3 then POWER_32 else if i == 4 then POWER_64 else if i == 5 then POWER_128
    else POWER_256
  }

  lemma Squared(e: nat, v: nat, w: nat)
    requires Exp(5, e) == v && w == v * v
    ensures Exp(5, 2 * e) == w
  {
    ExpAdd(5, e, e);
  }

  lemma Squares()
    ensures Value(POWER_4) == Exp(5, 4) && Value(POWER_8) == Exp(5, 8) && Value(POWER_16) == Exp(5, 16)
    ensures Value(POWER_32) == Exp(5, 32) && Value(POWER_64) == Exp(5, 64)
    ensures Value(POWER_128) == Exp(5, 128) && Value(POWER_256) == Exp(5, 256)
  {
    hide Value;
    assert Exp(5, 4) == 625;
    hide Exp;
    Power4(); Power8(); Power16(); Power32(); Power64(); Power128(); Power256();
    Squared(4, Value(POWER_4), Value(POWER_8));
    Squared(8, Value(POWER_8), Value(POWER_16));
    Squared(16, Value(POWER_16), Value(POWER_32));
    Squared(32, Value(POWER_32), Value(POWER_64));
    Squared(64, Value(POWER_64), Value(POWER_128));
    Squared(128, Value(POWER_128), Value(POWER_256));
  }

  /** Every row of the table is right. */
  lemma TableRight(i: nat)
    requires i <= 6
    ensures Value(PowerLimbs(i)) == Exp(5, 4 * Exp(2, i)) > 0
    ensures PowerLimbs(i) != [] && PowerLimbs(i)[|PowerLimbs(i)| - 1] != 0
  {
    hide Value;
    Squares();
    SmallPow2();
    hide Exp;
  }

  lemma SmallPow2()
    ensures Exp(2, 0) == 1 && Exp(2, 1) == 2 && Exp(2, 2) == 4 && Exp(2, 3) == 8 && Exp(2, 4) == 16
    ensures Exp(2, 5) == 32 && Exp(2, 6) == 64
  {
    assert Exp(2, 4) == 16;
  }

  /** Row `i` as a number, to be read only. */
  method TableEntry(i: nat) returns (p: Bigint)
    requires i <= 6
    ensures fresh(p) && fresh(p.x) && p.Valid() && p.Norm() && p.Val() == Exp(5, 4 * Exp(2, i)) > 0 && p.wds > 0
  {
    TableRight(i);
    var limbs := PowerLimbs(i);
    var k := if i < 2 then 1 else i - 1;
    p := new Bigint(k, |limbs|);
    forall j | 0 <= j < |limbs| { p.x[j] := limbs[j]; }
    p.wds := |limbs|;
    assert p.x[..p.wds] == limbs;
  }

  /** One round of the loop: an odd exponent takes a factor, then the base is squared. */
  lemma Round(v: nat, p: nat, k: nat)
    requires k > 0
    ensures k % 2 == 1 ==> v * Exp(p, k) == (v * p) * Exp(p * p, k / 2)
    ensures k % 2 == 0 ==> v * Exp(p, k) == v * Exp(p * p, k / 2)
  {
    ExpSquare(p, k / 2);
    if k % 2 == 1 {
      assert Exp(p, k) == p * Exp(p, 2 * (k / 2));
      MulSwap(v, p, Exp(p, 2 * (k / 2)));
    }
  }

  lemma NextPower(t: nat)
    ensures Exp(5, 4 * Exp(2, t)) * Exp(5, 4 * Exp(2, t)) == Exp(5, 4 * Exp(2, t + 1))
  {
    ExpAdd(5, 4 * Exp(2, t), 4 * Exp(2, t));
  }

  /** `b * 5^k`. */
  method Pow5Mult(b: Bigint, k: nat) returns (r: Bigint)
    requires b.Valid() && b.Norm()
    modifies b, b.x
    ensures r.Valid() && r.Norm() && r.Val() == old(b.Val()) * Exp(5, k)
    ensures r == b || (fresh(r) && fresh(r.x))
  {
    hide Value, Exp;
    r := b;
    var i := k % 4;
    if i != 0 {
      r := MultAdd(b, if i == 1 then 5 else if i == 2 then 25 else 125, 0);
    }
    SmallPower(i);
    ExpAdd(5, i, 4 * (k / 4));
    FourthPower(k / 4);
    MulSwap(old(b.Val()), Exp(5, i), Exp(625, k / 4));
    if k / 4 == 0 {
      ExpZero(625);
      return;
    }
    SmallPower(0);
    r := TimesFourthPowers(r, k / 4);
  }

  /** `b * 625^count`, by the binary digits of `count`. */
  method TimesFourthPowers(first: Bigint, count: nat) returns (b: Bigint)
    requires first.Valid() && first.Norm() && count > 0
    ensures b == first || (fresh(b) && fresh(b.x))
    ensures b.Valid() && b.Norm() && b.Val() == first.Val() * Exp(625, count)
  {
    hide Value, Exp;
    b := first;
    FourthPower(1);
    PowTwoZero();
    var k, at, overflow := count, 0, false;
    var p5 := TableEntry(0);
    ghost var t := 0;
    while true
      invariant k > 0 && b.Valid() && b.Norm() && p5.Valid() && p5.Norm()
      invariant b == first || (fresh(b) && fresh(b.x))
      invariant p5.Val() == Exp(5, 4 * Exp(2, t)) > 0 && p5.wds > 0
      invariant at <= 6 && (!overflow ==> t == at)
      invariant b.Val() * Exp(p5.Val(), k) == first.Val() * Exp(625, count)
      decreases k
    {
      ghost var v, p := b.Val(), p5.Val();
      Round(v, p, k);
      MulPositive(p, p);
      NextPower(t);
      if k % 2 == 1 {
        b := Mult(b, p5);
      }
      k := k / 2;
      if k == 0 {
        ExpZero(p * p);
        break;
      }
      if overflow {
        p5 := Mult(p5, p5);
      } else if at < 6 {
        at := at + 1;
        p5 := TableEntry(at);
      } else {
        p5 := Mult(p5, p5);
        overflow := true;
      }
      t := t + 1;
    }
  }

  lemma PowTwoZero()
    ensures Exp(2, 0) == 1 && Exp(5, 4) == 625
  {
  }

  lemma SmallPower(i: nat)
    requires i < 4
    ensures Exp(5, i) == if i == 0 then 1 else if i == 1 then 5 else if i == 2 then 25 else 125
  {
  }

  lemma {:induction false} FourthPower(n: nat)
    ensures Exp(5, 4 * n) == Exp(625, n)
  {
    ExpSquare(5, 2 * n);
    ExpSquare(25, n);
    ExpZero(25);
  }

  lemma ExpZero(b: nat)
    ensures Exp(b, 0) == 1
  {
  }
}
