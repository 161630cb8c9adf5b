/** How dtoa shifts its divisor so that quotients can be guessed from the top limbs: exactly
    28 bits of the top limb are significant. */
module DivisorScale {
  import opened Arith
  import opened Bigints
  import opened DigitLoop
  import opened Limbs

  lemma SmallPowers()
    ensures Exp(2, 0) == 1 && Exp(2, 1) == 2 && Exp(2, 2) == 4 && Exp(2, 4) == 0x10 && Exp(2, 8) == 0x100
    ensures Exp(2, 16) == 0x1_0000 && Exp(2, 27) == 0x800_0000 && Exp(2, 28) == 0x1000_0000
    ensures Exp(2, 31) == 0x8000_0000 && Exp(2, 32) == 0x1_0000_0000
  {
    assert Exp(2, 8) == 0x100;
    ExpAdd(2, 8, 8);
    ExpAdd(2, 16, 8);
    ExpAdd(2, 24, 3);
    ExpAdd(2, 24, 4);
    ExpAdd(2, 24, 7);
    ExpAdd(2, 24, 8);
  }

  lemma Doubled(word: nat, k: nat, x: nat, n: nat)
    requires x == word * Exp(2, k)
    ensures x * Exp(2, n) == word * Exp(2, k + n)
  {
    ExpAdd(2, k, n);
    MulSwap(word, Exp(2, k), Exp(2, n));
  }

  /** Leading zero bits of a 32-bit word. The masks test its highest 16, 8, 4, 2 and 1 bits. */
  method Hi0Bits(word: Limb) returns (k: nat)
    ensures word == 0 ==> k == 32
    ensures word > 0 ==> k < 32 && Exp(2, 31 - k) <= word < Exp(2, 32 - k)
  {
    SmallPowers();
    hide Exp;
    k := 0;
    var x: nat := word;
    if x < 0x1_0000 {
      Doubled(word, k, x, 16);
      k := 16;
      x := x * 0x1_0000;
    }
    if x < 0x100_0000 {
      Doubled(word, k, x, 8);
      k := k + 8;
      x := x * 0x100;
    }
    if x < 0x1000_0000 {
      Doubled(word, k, x, 4);
      k := k + 4;
      x := x * 0x10;
    }
    if x < 0x4000_0000 {
      Doubled(word, k, x, 2);
      k := k + 2;
      x := x * 4;
    }
    if x < 0x8000_0000 {
      Doubled(word, k, x, 1);
      k := k + 1;
      if x < 0x4000_0000 {
        return 32;
      }
      x := x * 2;
    }
    if word > 0 {
      BitLength(word, k, 31 - k);
    }
  }

  lemma BitLength(word: nat, k: nat, n: nat)
    requires Exp(2, k + n) <= word * Exp(2, k) < Exp(2, k + n + 1)
    ensures Exp(2, n) <= word < Exp(2, n + 1)
  {
    ExpAdd(2, n, k);
    ExpAdd(2, n + 1, k);
    if word < Exp(2, n) {
      MulLe(word + 1, Exp(2, n), Exp(2, k));
      MulAdd(word, 1, Exp(2, k));
    }
    if word >= Exp(2, n + 1) {
      MulLe(Exp(2, n + 1), word, Exp(2, k));
    }
  }

  /** `n` significant bits. */
  ghost predicate HasBits(v: nat, n: nat) {
    n > 0 && Exp(2, n - 1) <= v < Exp(2, n)
  }

  lemma ShiftedBits(v: nat, n: nat, k: nat)
    requires HasBits(v, n)
    ensures HasBits(v * Exp(2, k), n + k)
  {
    ExpAdd(2, n - 1, k);
    ExpAdd(2, n, k);
    MulLe(Exp(2, n - 1), v, Exp(2, k));
    MulLe(v + 1, Exp(2, n), Exp(2, k));
    MulAdd(v, 1, Exp(2, k));
  }

  /** The significant bits of a number are those of its top limb and 32 for each other limb. */
  lemma BitsOfLimbs(s: seq<Limb>, h: nat)
    requires s != [] && HasBits(s[|s| - 1], h)
    ensures HasBits(Value(s), 32 * (|s| - 1) + h)
  {
    var n := |s| - 1;
    var t: nat := s[n];
    ValueTop(s);
    Pow2Limbs(n, h);
    Pow2Limbs(n, h - 1);
    MulLe(Exp(2, h - 1), t, Pow(n));
    MulLe(t + 1, Exp(2, h), Pow(n));
  }

  /** Conversely, `32 * q + 28` bits leave 28 for the top limb. */
  lemma TopOfBits(s: seq<Limb>, q: nat)
    requires s != [] && s[|s| - 1] != 0 && HasBits(Value(s), 32 * q + 28)
    ensures |s| == q + 1 && 0x800_0000 <= s[|s| - 1] < 0x1000_0000
  {
    SmallPowers();
    hide Exp;
    var n := |s| - 1;
    ValueTop(s);
    Pow2Limbs(q, 28);
    Pow2Limbs(q, 27);
    ValueBound(s);
    ValueAtLeast(s);
    if n < q {
      ExpMono(0x1_0000_0000, n + 1, q);
    }
    if n > q {
      ExpMono(0x1_0000_0000, q + 1, n);
      PowNext(q);
    }
    assert n == q;
    var t := s[n];
    if t >= 0x1000_0000 { MulLe(0x1000_0000, t, Pow(n)); }
    if t < 0x800_0000 { MulLe(t + 1, 0x800_0000, Pow(n)); }
  }

  lemma OneIsOneLimb(s: seq<Limb>)
    requires Value(s) == 1 && s != [] && s[|s| - 1] != 0
    ensures |s| == 1 && s[0] == 1
  {
    ValueAtLeast(s);
    assert Pow(0) == 1 && Pow(1) == 0x1_0000_0000;
  }

  /** The smallest shift that leaves `bits + s2 + extra` four short of a multiple of 32. */
  method ExtraShift(bits: nat, s2: nat) returns (extra: nat)
    ensures extra < 32 && (bits + s2 + extra) % 32 == 28
  {
    var i := (bits + s2) % 32;
    if i != 0 {
      i := 32 - i;
    }
    extra := 0;
    if i > 4 {
      extra := i - 4;
    } else if i < 4 {
      extra := i + 28;
    }
  }

  /** Chooses the extra shift and applies it with the `s2` factors of two that `S` still
      lacks. `fives` tells whether `S` may be more than 1. */
  method ScaleDivisor(S: Bigint, s2: nat, fives: bool) returns (scaled: Bigint, extra: nat)
    requires Good(S) && S.Val() > 0 && (!fives ==> S.Val() == 1)
    ensures (fresh(scaled) && fresh(scaled.x)) || (scaled == S && s2 + extra == 0)
    ensures Divisor(scaled) && scaled.Val() == S.Val() * Exp(2, s2 + extra) && extra < 32
  {
    hide Value, Pow;
    ghost var s := S.x[..S.wds];
    OneLimb(s);
    var bits := TopBits(S, fives);
    BitsOfLimbs(s, bits);
    hide Exp, HasBits;
    extra := ExtraShift(bits, s2);
    ghost var shift := s2 + extra;
    ShiftedBits(Value(s), 32 * (|s| - 1) + bits, shift);
    if s2 + extra > 0 {
      scaled := LShift(S, s2 + extra);
    } else {
      scaled := S;
      Unshifted(Value(s));
    }
    ghost var t := scaled.x[..scaled.wds];
    OneLimb(t);
    ScaledTop(t, |s|, bits, shift);
  }

  /** The significant bits of the top limb. */
  method TopBits(S: Bigint, fives: bool) returns (bits: nat)
    requires Good(S) && S.Val() > 0 && (!fives ==> S.Val() == 1)
    ensures S.wds > 0 && HasBits(S.x[S.wds - 1], bits)
  {
    ghost var s := S.x[..S.wds];
    OneLimb(s);
    bits := 1;
    if fives {
      var zeros := Hi0Bits(S.x[S.wds - 1]);
      bits := 32 - zeros;
    } else {
      OneIsOneLimb(s);
      SmallPowers();
    }
  }

  lemma Unshifted(v: nat)
    ensures v * Exp(2, 0) == v
  {
    assert Exp(2, 0) == 1;
  }

  lemma ScaledTop(t: seq<Limb>, n: nat, bits: nat, shift: nat)
    requires t != [] && t[|t| - 1] != 0 && n > 0 && (bits + shift) % 32 == 28
    requires HasBits(Value(t), 32 * (n - 1) + bits + shift)
    ensures 0x800_0000 <= t[|t| - 1] < 0x1000_0000
  {
    var q := (bits + shift) / 32;
    assert 32 * (n - 1) + bits + shift == 32 * (n - 1 + q) + 28;
    TopOfBits(t, n - 1 + q);
  }
}
