/** `floor((double) x * 0.3)` of handle_request, in integers. */
module ThirtyPercent {
  import opened Arith

  const WORD: nat := 0x1_0000_0000

  /** Thirty percent, rounded down. */
  function Share(energy: nat): nat {
    energy * 3 / 10
  }

  lemma ShareAtMost(energy: nat)
    ensures Share(energy) <= energy
  {
  }

  lemma ShareBound(energy: nat)
    ensures 10 * Share(energy) <= 3 * energy < 10 * Share(energy) + 10
  {
  }

  /** 2^54, a sixteenth of it, and the number of 2^54th parts that are 0.3 in double precision. */
  const UNIT: nat := 0x40_0000_0000_0000
  const SIXTEENTH: nat := 0x4_0000_0000_0000
  const THREE_TENTHS: nat := 5404319552844595

  /** `n` parts are a number of double precision: 53 significant bits. */
  ghost predicate Double(n: nat) {
    exists m: nat, j: nat :: Significant(n, m, j)
  }

  ghost predicate Significant(n: nat, m: nat, j: nat) {
    m < 0x20_0000_0000_0000 && n == m * Exp(2, j)
  }

  function Distance(a: nat, b: nat): nat {
    if a < b then b - a else a - b
  }

  /** No number of double precision is nearer to `x`. */
  ghost predicate Rounded(r: nat, x: nat) {
    Double(r) && forall n: nat | Double(n) :: Distance(r, x) <= Distance(n, x)
  }

  /** The constant is the nearest to 3/10. */
  lemma ThreeTenths(n: nat)
    ensures Double(THREE_TENTHS) && Distance(10 * THREE_TENTHS, 3 * UNIT) <= Distance(10 * n, 3 * UNIT)
  {
    assert Significant(THREE_TENTHS, THREE_TENTHS, 0);
  }

  /** Whichever nearest number the product with 0.3 is rounded to, its whole part is the share: the
      constant is below 3/10, but rounding makes up for that when the share is exact. */
  lemma ShareIsWholePart(energy: nat, r: nat)
    requires energy < WORD && Rounded(r, energy * THREE_TENTHS)
    ensures r / UNIT == Share(energy)
  {
    var x, q := energy * THREE_TENTHS, Share(energy);
    ShareBound(energy);
    WholeIsDouble(q);
    SixteenthIsDouble(x);
    Nearer(r, x, q * UNIT);
    Nearer(r, x, x / SIXTEENTH * SIXTEENTH);
    hide *;
    if 3 * energy == 10 * q {
      assert energy == 10 * (energy / 10) && q == 3 * (energy / 10);
      CloseBelow(r, q, energy / 10);
    }
    WholePart(energy, r, q);
  }

  lemma Nearer(r: nat, x: nat, n: nat)
    requires Rounded(r, x) && Double(n)
    ensures Double(r) && Distance(r, x) <= Distance(n, x)
  {
  }

  lemma CloseBelow(r: nat, q: nat, t: nat)
    requires q == 3 * t && t < WORD && Double(r)
    requires Distance(r, 10 * t * THREE_TENTHS) <= Distance(q * UNIT, 10 * t * THREE_TENTHS)
    ensures r >= q * UNIT
  {
    hide Double;
    NoneBetween(r, q, t);
  }

  lemma WholePart(energy: nat, r: nat, q: nat)
    requires energy < WORD && 10 * q <= 3 * energy < 10 * q + 10
    requires var x := energy * THREE_TENTHS;
      Distance(r, x) <= Distance(q * UNIT, x) && Distance(r, x) <= Distance(x / SIXTEENTH * SIXTEENTH, x)
    requires 3 * energy == 10 * q ==> r >= q * UNIT
    ensures r / UNIT == q
  {
    assert q * UNIT <= r < q * UNIT + UNIT;
    DivModUnique(r, UNIT, q, r - q * UNIT);
  }

  lemma Powers()
    ensures Exp(2, 50) == SIXTEENTH && Exp(2, 54) == UNIT
  {
    assert Exp(2, 4) == 16;
    assert Exp(2, 5) == 32;
    ExpAdd(2, 5, 5);
    ExpAdd(2, 10, 10);
    ExpAdd(2, 20, 20);
    ExpAdd(2, 40, 10);
    ExpAdd(2, 50, 4);
  }

  lemma WholeIsDouble(q: nat)
    requires q < WORD
    ensures Double(q * UNIT)
  {
    Powers();
    assert Significant(q * UNIT, q, 54);
  }

  lemma SixteenthIsDouble(x: nat)
    requires x < WORD * UNIT
    ensures Double(x / SIXTEENTH * SIXTEENTH)
  {
    Powers();
    assert Significant(x / SIXTEENTH * SIXTEENTH, x / SIXTEENTH, 50);
  }

  /** The next number of double precision below a whole one is farther away than the product. */
  lemma NoneBetween(r: nat, q: nat, t: nat)
    requires Double(r) && q == 3 * t && t < WORD && q * UNIT - 4 * t <= r
    ensures r >= q * UNIT
  {
    var m: nat, j: nat :| Significant(r, m, j);
    Powers();
    if j >= 54 {
      ExpAdd(2, 54, j - 54);
      Coarse(r, q, t, m, Exp(2, j - 54));
    } else {
      ExpAdd(2, j, 54 - j);
      Fine(r, q, t, m, Exp(2, j), Exp(2, 54 - j));
    }
  }

  lemma Coarse(r: nat, q: nat, t: nat, m: nat, e: nat)
    requires q == 3 * t && t < WORD && q * UNIT - 4 * t <= r == m * (UNIT * e)
    ensures r >= q * UNIT
  {
    assert r == UNIT * (e * m) by { MulSwap(UNIT, e, m); }
    Gap(UNIT, e * m, q);
  }

  lemma Fine(r: nat, q: nat, t: nat, m: nat, d: nat, e: nat)
    requires q == 3 * t && q * UNIT - 4 * t <= r == m * d && m < 0x20_0000_0000_0000 && d * e == UNIT
    ensures r >= q * UNIT
  {
    assert q * UNIT == d * (e * q) by { MulSwap(d, e, q); }
    Gap(d, m, e * q);
    MulLe(m, 0x20_0000_0000_0000, d);
  }

  /** Two multiples of a number are equal or at least that number apart. */
  lemma Gap(d: nat, m: nat, k: nat)
    ensures d * m >= d * k || d * m + d <= d * k
  {
    if m < k {
      MulLe(m + 1, k, d);
      MulAdd(m, 1, d);
    } else {
      MulLe(k, m, d);
    }
  }
}
