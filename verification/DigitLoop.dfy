/** The big-integer digit loops of dtoa, with their final rounding. */
module DigitLoop {
  import opened Arith
  import opened BigDivision
  import opened Bigints
  import opened Decimals
  import opened Limbs

  lemma NumSnoc(ds: seq<nat>, d: nat)
    ensures Num(ds + [d]) == 10 * Num(ds) + d
  {
    assert (ds + [d])[..|ds|] == ds;
  }

  /** `ds`, read with `e` more zeros, is `n`. */
  ghost predicate Spells(ds: seq<nat>, e: int, n: nat) {
    ds != [] && Digits(ds) && e >= 0 && Num(ds) * Exp(10, e) == n
  }

  /** Adds one in the last place, dropping the nines; all nines become one, a place higher. */
  method RoundOff(s: seq<nat>, k: int) returns (ds: seq<nat>, k': int)
    requires Digits(s) && s != []
    ensures Spells(ds, |s| - |ds| + (k' - k), Num(s) + 1)
    ensures (ds[0] != 0 || s[0] == 0) && ds[|ds| - 1] != 0
  {
    ds, k' := s, k;
    ghost var c := 0;
    while true
      invariant |ds| + c == |s| && ds != [] && ds == s[..|ds|]
      invariant (Num(ds) + 1) * Exp(10, c) == Num(s) + 1
      decreases |ds|
    {
      var d := ds[|ds| - 1];
      ds := ds[..|ds| - 1];
      if d != 9 {
        NumSnoc(ds, d + 1);
        ds := ds + [d + 1];
        return;
      }
      MulSwap(10, Num(ds) + 1, Exp(10, c));
      assert (Num(ds) + 1) * Exp(10, c + 1) == (10 * (Num(ds) + 1)) * Exp(10, c);
      c := c + 1;
      if ds == [] {
        NumSnoc([], 1);
        ds, k' := [1], k + 1;
        assert Num(ds) == 1;
        return;
      }
    }
  }

  /** Drops trailing zeros. */
  method TrimZeros(s: seq<nat>) returns (ds: seq<nat>)
    requires Digits(s) && Num(s) > 0
    ensures Spells(ds, |s| - |ds|, Num(s)) && ds[0] == s[0] && ds[|ds| - 1] != 0
  {
    ds := s;
    ghost var c := 0;
    while ds[|ds| - 1] == 0
      invariant |ds| + c == |s| && ds != [] && ds == s[..|ds|] && Num(ds) * Exp(10, c) == Num(s) && Num(ds) > 0
      decreases |ds|
    {
      MulSwap(10, Num(ds[..|ds| - 1]), Exp(10, c));
      ds := ds[..|ds| - 1];
      c := c + 1;
    }
  }

  ghost predicate Good(b: Bigint)
    reads b, b.x
  {
    b.Valid() && b.Norm()
  }

  predicate IsZero(b: Bigint)
    requires b.Valid()
    reads b, b.x
  {
    b.x[0] == 0 && b.wds <= 1
  }

  lemma ZeroTest(b: Bigint)
    requires Good(b)
    ensures IsZero(b) <==> b.Val() == 0
  {
    if b.wds > 1 { ValueAtLeast(b.x[..b.wds]); }
    if b.wds == 1 { ValueTake(b.x[..1], 0); }
  }

  /** The divisor: its top limb has 28 significant bits. */
  ghost predicate Divisor(S: Bigint)
    reads S, S.x
  {
    Good(S) && S.wds > 0 && 0x800_0000 <= S.x[S.wds - 1] < 0x1000_0000
  }

  ghost predicate Apart(a: Bigint, b: Bigint) {
    a != b && a.x != b.x
  }

  /** One digit, and how the remainder compares with the two margins. */
  method Examine(b: Bigint, S: Bigint, mlo: Bigint, mhi: Bigint) returns (dig: nat, j: int, j1: int)
    requires Good(b) && Divisor(S) && Good(mlo) && Good(mhi) && Apart(b, S) && Apart(b, mlo) && Apart(b, mhi)
    requires mlo.Val() > 0 && mhi.Val() > 0 && b.Val() < 10 * S.Val()
    modifies b`wds, b.x
    ensures Good(b) && old(b.Val()) == dig * S.Val() + b.Val() && b.Val() < S.Val()
    ensures j < 0 <==> b.Val() < mlo.Val()
    ensures j == 0 <==> b.Val() == mlo.Val()
    ensures j1 > 0 <==> b.Val() > S.Val() - mhi.Val()
    ensures j1 == 0 ==> b.Val() == S.Val() - mhi.Val()
    ensures j1 < 0 && b.Val() == S.Val() - mhi.Val() ==> b.Val() == 0
  {
    assert mlo.wds > 0 && mhi.wds > 0;
    hide Value, Pow;
    dig := QuoRem(b, S);
    ghost var product := dig * S.Val();
    assert old(b.Val()) == product + b.Val();
    j, j1 := Compare(b, S, mlo, mhi);
  }

  method Compare(b: Bigint, S: Bigint, mlo: Bigint, mhi: Bigint) returns (j: int, j1: int)
    requires Good(b) && Good(S) && Good(mlo) && Good(mhi) && mlo.wds > 0 && mhi.wds > 0 && S.wds > 0 && mlo.Val() > 0
    ensures j < 0 <==> b.Val() < mlo.Val()
    ensures j == 0 <==> b.Val() == mlo.Val()
    ensures j1 > 0 <==> b.Val() > S.Val() - mhi.Val()
    ensures j1 == 0 ==> b.Val() == S.Val() - mhi.Val()
    ensures j1 < 0 && b.Val() == S.Val() - mhi.Val() ==> b.Val() == 0
  {
    hide Value, Pow;
    j := Cmp(b, mlo);
    var delta := Diff(S, mhi);
    if delta.sign != 0 {
      j1 := 1;
    } else {
      ZeroTest(b);
      j1 := Cmp(b, delta);
    }
  }

  /** What the digits must satisfy when the loop stops after `i` of them: either they are in
      the interval and nothing shorter is, and of their length they are the nearest as far as
      `Chosen` says; or there was room for `ilim` and they are the half-even rounding. `e` zeros
      follow the digits kept, the last of which is not zero. The upper margin is never the smaller
      one. Rounding at the limit is for values that no decimal up to there stands for. */
  ghost predicate Answer(ds: seq<nat>, e: int, i: nat, P: nat, byLimit: bool,
                         b0: nat, s: nat, lo: nat, hi: nat, ends: bool)
  {
    && i > 0 && Spells(ds, e, P) && ds[0] != 0 && ds[|ds| - 1] != 0
    && NoShorter(i, b0, s, lo, hi, ends)
    && (!byLimit ==> Reads(P, i, b0, s, lo, hi, ends) && (lo <= hi ==> Chosen(P, i, b0, s, lo, hi, ends)))
    && (byLimit ==> HalfEven(P, b0 * Exp(10, i - 1), s) && NoShorter(i + 1, b0, s, lo, hi, ends))
  }

  /** Where a loop stands after `i - 1` digits; `rest` is to be divided next. */
  ghost predicate Started(ds: seq<nat>, i: nat, rest: nat, b0: nat, s: nat) {
    && i == |ds| + 1 && Digits(ds) && (ds != [] ==> ds[0] != 0) && s <= b0 < 10 * s
    && (if i == 1 then rest == b0 else rest % 10 == 0 && At(b0, s, i - 1, Num(ds), rest / 10))
  }

  lemma StartedBound(ds: seq<nat>, i: nat, rest: nat, b0: nat, s: nat)
    requires Started(ds, i, rest, b0, s)
    ensures rest < 10 * s && i == |ds| + 1 && Digits(ds) && (ds != [] ==> ds[0] != 0) && s > 0
  {
  }

  /** After the division: digit `dig`, remainder `b`. */
  lemma Divided(ds: seq<nat>, i: nat, rest: nat, b0: nat, s: nat, dig: nat, b: nat)
    requires Started(ds, i, rest, b0, s) && rest == dig * s + b && b < s
    ensures At(b0, s, i, 10 * Num(ds) + dig, b) && dig <= 9 && (i == 1 ==> dig > 0)
    ensures Num(ds + [dig]) == 10 * Num(ds) + dig
    ensures Started(ds + [dig], i + 1, 10 * b, b0, s)
  {
    hide Exp, At;
    NumSnoc(ds, dig);
    assert 10 * b / 10 == b && 10 * b % 10 == 0;
    if i == 1 {
      FirstDigit(b0, s, dig, b);
    } else {
      NextDigit(b0, s, i - 1, Num(ds), rest / 10, dig, b);
    }
  }

  /** The same for the shortest-digits loop, where nothing so far was near enough. */
  ghost predicate Ready(ds: seq<nat>, i: nat, rest: nat, b0: nat, s: nat, lo: nat, hi: nat, ends: bool) {
    Started(ds, i, rest, b0, s) && lo > 0 && hi > 0 && NoShorter(i, b0, s, lo, hi, ends)
  }

  lemma ReadyStart(b0: nat, s: nat, lo: nat, hi: nat, ends: bool)
    requires lo > 0 && hi > 0 && s <= b0 < 10 * s
    ensures Ready([], 1, b0, b0, s, lo, hi, ends)
  {
  }

  lemma Continue(ds: seq<nat>, i: nat, rest: nat, b0: nat, s: nat, lo: nat, hi: nat, ends: bool, dig: nat, b: nat)
    requires Ready(ds, i, rest, b0, s, lo, hi, ends) && rest == dig * s + b && b < s
    requires !Within(b, lo * Exp(10, i - 1), ends) && !Within(s - b, hi * Exp(10, i - 1), ends)
    ensures Ready(ds + [dig], i + 1, 10 * b, b0, s, lo, hi, ends)
  {
    Divided(ds, i, rest, b0, s, dig, b);
    StillNoShorter(b0, s, i, 10 * Num(ds) + dig, b, lo, hi, ends);
  }

  /** The last digit is kept, or raised by one where that is no carry. */
  lemma LastDigit(ds: seq<nat>, i: nat, dig: nat)
    requires i == |ds| + 1 && Digits(ds) && dig <= 9 && (ds != [] ==> ds[0] != 0) && (i == 1 ==> dig > 0)
    ensures Spells(ds + [dig], 0, 10 * Num(ds) + dig) && (ds + [dig])[0] != 0
  {
    NumSnoc(ds, dig);
  }

  /** Puts the last digit out: `dig`, or `dig + 1`, which may carry. */
  method Finish(s: seq<nat>, dig: nat, up: bool, k: int) returns (ds: seq<nat>, k': int)
    requires Digits(s) && dig <= 9 && (s != [] ==> s[0] != 0) && (s == [] ==> dig > 0)
    ensures Spells(ds, |s| + 1 - |ds| + (k' - k), 10 * Num(s) + dig + if up then 1 else 0)
    ensures ds[0] != 0 && (up || dig > 0 ==> ds[|ds| - 1] != 0)
  {
    LastDigit(s, |s| + 1, dig);
    if up && dig == 9 {
      ds, k' := RoundOff(s + [9], k);
    } else {
      var d := if up then dig + 1 else dig;
      LastDigit(s, |s| + 1, d);
      ds, k' := s + [d], k;
    }
  }

  /** Whether the remainder asks for the digit to be raised: more than half, or half and odd. */
  method HalfUp(b: Bigint, S: Bigint, dig: nat) returns (up: bool)
    requires Good(b) && Good(S) && b.Val() > 0 && S.Val() > 0
    ensures up <==> 2 * b.Val() > S.Val() || (2 * b.Val() == S.Val() && dig % 2 == 1)
  {
    assert S.wds > 0;
    hide Value;
    var twice := LShift(b, 1);
    assert Exp(2, 1) == 2;
    var j := Cmp(twice, S);
    up := j > 0 || (j == 0 && dig % 2 == 1);
  }

  lemma Stop(ds: seq<nat>, e: int, i: nat, P: nat, done: seq<nat>, rest: nat,
             b0: nat, s: nat, lo: nat, hi: nat, ends: bool)
    requires Ready(ds, i, rest, b0, s, lo, hi, ends) && Spells(done, e, P) && done[0] != 0 && done[|done| - 1] != 0
    requires Reads(P, i, b0, s, lo, hi, ends) && (lo <= hi ==> Chosen(P, i, b0, s, lo, hi, ends))
    ensures Answer(done, e, i, P, false, b0, s, lo, hi, ends)
  {
  }

  lemma ReadyFacts(ds: seq<nat>, i: nat, rest: nat, b0: nat, s: nat, lo: nat, hi: nat, ends: bool)
    requires Ready(ds, i, rest, b0, s, lo, hi, ends)
    ensures Started(ds, i, rest, b0, s) && lo > 0 && hi > 0
    ensures rest < 10 * s && i == |ds| + 1 && Digits(ds) && (ds != [] ==> ds[0] != 0) && s > 0
  {
  }

  /** The comparisons of a turn: `M` and `H` are the margins at this length. */
  ghost predicate Compared(b: nat, s: nat, M: nat, H: nat, j: int, j1: int) {
    && (j < 0 <==> b < M) && (j == 0 <==> b == M) && (j1 > 0 <==> b > s - H)
    && (j1 == 0 ==> b == s - H) && (j1 < 0 && b == s - H ==> b == 0)
  }

  /** Whether a digit that ends the loop is raised. */
  ghost predicate Raised(dig: nat, b: nat, s: nat, j: int, j1: int, ends: bool) {
    if j1 == 0 && ends then dig == 9 || j > 0
    else if j < 0 || (j == 0 && ends) then b > 0 && j1 > 0 && (2 * b > s || (2 * b == s && dig % 2 == 1))
    else true
  }

  ghost predicate Stops(j: int, j1: int, ends: bool) {
    (j1 == 0 && ends) || j < 0 || (j == 0 && ends) || j1 > 0
  }

  /** The choice between the two candidates. */
  lemma Chooses(ds: seq<nat>, i: nat, rest: nat, b0: nat, s: nat, lo: nat, hi: nat, ends: bool,
                dig: nat, b: nat, j: int, j1: int)
    requires Ready(ds, i, rest, b0, s, lo, hi, ends) && i > 0 && lo <= hi && rest == dig * s + b && b < s
    requires Compared(b, s, lo * Exp(10, i - 1), hi * Exp(10, i - 1), j, j1) && Stops(j, j1, ends)
    ensures var D := 10 * Num(ds) + dig;
      Chosen(if Raised(dig, b, s, j, j1, ends) then D + 1 else D, i, b0, s, lo, hi, ends)
  {
    var D := 10 * Num(ds) + dig;
    Divided(ds, i, rest, b0, s, dig, b);
    Candidates(b0, s, i, D, b, lo, hi, ends);
    MulLe(lo, hi, Exp(10, i - 1));
    if NineAtEnd(i, b0, s, lo, hi, ends) {
      FirstIsNine(ds, i, rest, b0, s, lo, hi, ends, dig, b);
      TenIsFurther(b0, s, lo, hi, ends);
    }
    TieRule(ds, i, rest, b0, s, lo, hi, ends, dig, b, j, j1);
    hide Exp, At, Reads, Ready, Nearest, NineAtEnd, Num, RightAtTie;
    if !Raised(dig, b, s, j, j1, ends) {
      KeepNearest(b0, s, i, D, b, lo, hi, ends);
    } else if j1 == 0 && ends && j <= 0 && 2 * b < s {
      NineOrShorter(ds, i, rest, b0, s, lo, hi, ends, b);
    } else {
      RaiseNearest(b0, s, i, D, b, lo, hi, ends);
    }
  }

  /** Halfway, the parity of the digit decides, except at both ends of the interval. */
  lemma TieRule(ds: seq<nat>, i: nat, rest: nat, b0: nat, s: nat, lo: nat, hi: nat, ends: bool,
                dig: nat, b: nat, j: int, j1: int)
    requires Ready(ds, i, rest, b0, s, lo, hi, ends) && i > 0 && lo <= hi && rest == dig * s + b && b < s
    requires Compared(b, s, lo * Exp(10, i - 1), hi * Exp(10, i - 1), j, j1) && Stops(j, j1, ends)
    ensures var D := 10 * Num(ds) + dig;
      RightAtTie(if Raised(dig, b, s, j, j1, ends) then D + 1 else D, i, b0, s, lo, hi, ends)
  {
    var D := 10 * Num(ds) + dig;
    var P := if Raised(dig, b, s, j, j1, ends) then D + 1 else D;
    Divided(ds, i, rest, b0, s, dig, b);
    Candidates(b0, s, i, D, b, lo, hi, ends);
    MulLe(lo, hi, Exp(10, i - 1));
    assert D % 10 == dig;
    if P == D + 1 && b == 0 {
      RaisedExact(ds, i, rest, b0, s, lo, hi, ends, dig, j, j1);
    }
    hide Exp, At, Reads, Ready, Num, Raised, Within, Compared, Stops;
    var M, H := lo * Exp(10, i - 1), hi * Exp(10, i - 1);
    forall n: int | Rival(n, P, i, b0, s, lo, hi, ends)
      ensures if BothAtEnds(i, s, lo, hi, ends) then P % 10 == 0 || (P % 10 != 9 && P < n) else P % 2 == 0
    {
      if P == D || b > 0 {
        OnlyTie(b0, s, i, D, b, P, n);
        TieCase(D, dig, b, s, M, H, j, j1, ends);
      }
    }
  }

  /** The same for the remainder, the margins and the comparisons alone. */
  lemma TieCase(D: nat, dig: nat, b: nat, s: nat, M: nat, H: nat, j: int, j1: int, ends: bool)
    requires Compared(b, s, M, H, j, j1) && Stops(j, j1, ends) && M <= H && 2 * b == s > 0 && D % 10 == dig
    requires if Raised(dig, b, s, j, j1, ends) then Within(b, M, ends) else Within(s - b, H, ends)
    ensures var P := if Raised(dig, b, s, j, j1, ends) then D + 1 else D;
      if ends && 2 * M == s && 2 * H == s then P % 10 == 0 || (P % 10 != 9 && P == D) else P % 2 == 0
  {
    TieDigit(dig, b, s, M, H, j, j1, ends);
    hide *;
    LastDigits(D);
  }

  lemma LastDigits(D: nat)
    ensures D % 2 == D % 10 % 2 && (D % 10 == 9 ==> (D + 1) % 10 == 0) && (D + 1) % 2 != D % 2
  {
    var q, r := D / 10, D % 10;
    DivModUnique(D, 2, 5 * q + r / 2, r % 2);
    if r == 9 { DivModUnique(D + 1, 10, q + 1, 0); }
  }

  lemma TieDigit(dig: nat, b: nat, s: nat, M: nat, H: nat, j: int, j1: int, ends: bool)
    requires Compared(b, s, M, H, j, j1) && Stops(j, j1, ends) && M <= H && 2 * b == s > 0
    requires if Raised(dig, b, s, j, j1, ends) then Within(b, M, ends) else Within(s - b, H, ends)
    ensures if ends && 2 * M == s && 2 * H == s then Raised(dig, b, s, j, j1, ends) <==> dig == 9
            else Raised(dig, b, s, j, j1, ends) <==> dig % 2 == 1
  {
  }

  /** An exact digit is raised only when it is a nine and ten is at the end of the interval. */
  lemma RaisedExact(ds: seq<nat>, i: nat, rest: nat, b0: nat, s: nat, lo: nat, hi: nat, ends: bool,
                    dig: nat, j: int, j1: int)
    requires Ready(ds, i, rest, b0, s, lo, hi, ends) && i > 0 && lo <= hi && rest == dig * s && s > 0
    requires Compared(0, s, lo * Exp(10, i - 1), hi * Exp(10, i - 1), j, j1) && Raised(dig, 0, s, j, j1, ends)
    ensures i == 1 && dig == 9 && Num(ds) == 0 && hi * Exp(10, i - 1) == s
  {
    Divided(ds, i, rest, b0, s, dig, 0);
    Candidates(b0, s, i, 10 * Num(ds) + dig, 0, lo, hi, ends);
    MulPositive(lo, Exp(10, i - 1));
    if i > 1 {
      NineOrShorter(ds, i, rest, b0, s, lo, hi, ends, 0);
    }
  }

  lemma FirstIsNine(ds: seq<nat>, i: nat, rest: nat, b0: nat, s: nat, lo: nat, hi: nat, ends: bool, dig: nat, b: nat)
    requires Ready(ds, i, rest, b0, s, lo, hi, ends) && rest == dig * s + b && b < s
    requires NineAtEnd(i, b0, s, lo, hi, ends)
    ensures dig == 9 && b == s - hi && Num(ds) == 0 && Exp(10, i - 1) == 1
  {
    NineDigit(b0, s, lo, hi, ends, dig, b);
  }

  /** A nine is raised although it is nearer only as the first digit: later, the carry would have
      been a shorter decimal. */
  lemma NineOrShorter(ds: seq<nat>, i: nat, rest: nat, b0: nat, s: nat, lo: nat, hi: nat, ends: bool, b: nat)
    requires Ready(ds, i, rest, b0, s, lo, hi, ends) && i > 0 && rest == 9 * s + b && b < s && ends
    requires b == s - hi * Exp(10, i - 1) && b <= lo * Exp(10, i - 1) && 2 * b < s
    requires Reads(10 * Num(ds) + 10, i, b0, s, lo, hi, ends)
    ensures NineAtEnd(i, b0, s, lo, hi, ends)
  {
    if i > 1 {
      EndsInZero(Num(ds) + 1, i, b0, s, lo, hi, ends);
      assert false;
    } else {
      assert Exp(10, 0) == 1;
    }
  }

  /** The loop does not stop at a zero: without it the decimal would have been short enough before. */
  lemma ZeroNotLast(ds: seq<nat>, i: nat, rest: nat, b0: nat, s: nat, lo: nat, hi: nat, ends: bool, b: nat)
    requires Ready(ds, i, rest, b0, s, lo, hi, ends) && i > 0 && rest == b && b < s
    ensures !Reads(10 * Num(ds), i, b0, s, lo, hi, ends)
  {
    if i > 1 {
      if Reads(10 * Num(ds), i, b0, s, lo, hi, ends) {
        EndsInZero(Num(ds), i, b0, s, lo, hi, ends);
        assert false;
      }
    }
  }

  /** Whether to stop at this digit, and whether to raise it. */
  method Choice(b: Bigint, S: Bigint, dig: nat, j: int, j1: int, mode: int, odd: bool) returns (done: bool, up: bool)
    requires Good(b) && Good(S) && S.Val() > 0
    ensures done <==> Stops(j, j1, mode != 1 && !odd)
    ensures done ==> (up <==> Raised(dig, b.Val(), S.Val(), j, j1, mode != 1 && !odd))
  {
    hide Value, Pow;
    ZeroTest(b);
    done, up := true, false;
    if j1 == 0 && mode != 1 && !odd {
      up := dig == 9 || j > 0;
    } else if j < 0 || (j == 0 && mode != 1 && !odd) {
      if !IsZero(b) && j1 > 0 {
        up := HalfUp(b, S, dig);
      }
    } else if j1 > 0 {
      up := true;
    } else {
      done := false;
    }
  }

  /** Stops at this digit or goes on. `j` and `j1` place the remainder
      below the lower margin and above the upper one. */
  method Decide(b: Bigint, S: Bigint, s: seq<nat>, dig: nat, j: int, j1: int, mode: int, odd: bool, k: int,
                ghost i: nat, ghost rest: nat, ghost v0: nat, ghost lo: nat, ghost hi: nat)
    returns (done: bool, ds: seq<nat>, k': int, ghost P: nat)
    requires Good(b) && Good(S)
    requires Ready(s, i, rest, v0, S.Val(), lo, hi, mode != 1 && !odd) && i > 0
    requires rest == dig * S.Val() + b.Val() && b.Val() < S.Val()
    requires (j < 0 <==> b.Val() < lo * Exp(10, i - 1)) && (j == 0 <==> b.Val() == lo * Exp(10, i - 1))
    requires j1 > 0 <==> b.Val() > S.Val() - hi * Exp(10, i - 1)
    requires j1 == 0 ==> b.Val() == S.Val() - hi * Exp(10, i - 1)
    requires j1 < 0 && b.Val() == S.Val() - hi * Exp(10, i - 1) ==> b.Val() == 0
    ensures done ==> Answer(ds, i - |ds| + (k' - k), i, P, false, v0, S.Val(), lo, hi, mode != 1 && !odd)
    ensures !done ==> ds == s + [dig] && k' == k && b.Val() >= lo * Exp(10, i - 1) > 0
    ensures !done ==> Ready(ds, i + 1, 10 * b.Val(), v0, S.Val(), lo, hi, mode != 1 && !odd)
    ensures !done ==> At(v0, S.Val(), i, Num(ds), b.Val())
  {
    hide Value, Pow, Ready, Started, Answer, Reads, Spells, At, NoShorter, Chosen, Exp, Num, Raised, Stops, Compared;
    ghost var ends, r, sv := mode != 1 && !odd, b.Val(), S.Val();
    IsCompared(r, sv, lo * Exp(10, i - 1), hi * Exp(10, i - 1), j, j1);
    Settled(s, i, rest, v0, sv, lo, hi, ends, dig, r, j, j1);
    var up;
    done, up := Choice(b, S, dig, j, j1, mode, odd);
    P := 10 * Num(s) + dig + if done && up then 1 else 0;
    if done {
      ds, k' := Finish(s, dig, up, k);
      Stop(s, i - |ds| + (k' - k), i, P, ds, rest, v0, sv, lo, hi, ends);
    } else {
      ds, k' := s + [dig], k;
    }
  }

  lemma IsCompared(b: nat, s: nat, M: nat, H: nat, j: int, j1: int)
    requires (j < 0 <==> b < M) && (j == 0 <==> b == M) && (j1 > 0 <==> b > s - H)
    requires (j1 == 0 ==> b == s - H) && (j1 < 0 && b == s - H ==> b == 0)
    ensures Compared(b, s, M, H, j, j1)
  {
  }

  /** What holds of either choice. */
  lemma Settled(s: seq<nat>, i: nat, rest: nat, b0: nat, sv: nat, lo: nat, hi: nat, ends: bool,
                dig: nat, b: nat, j: int, j1: int)
    requires Ready(s, i, rest, b0, sv, lo, hi, ends) && i > 0 && rest == dig * sv + b && b < sv
    requires Compared(b, sv, lo * Exp(10, i - 1), hi * Exp(10, i - 1), j, j1)
    ensures Digits(s) && i == |s| + 1 && dig <= 9 && (s != [] ==> s[0] != 0) && (s == [] ==> dig > 0)
    ensures Stops(j, j1, ends) ==>
      var up := Raised(dig, b, sv, j, j1, ends);
      var P := 10 * Num(s) + dig + if up then 1 else 0;
      (up || dig > 0) && Reads(P, i, b0, sv, lo, hi, ends) && (lo <= hi ==> Chosen(P, i, b0, sv, lo, hi, ends))
    ensures !Stops(j, j1, ends) ==>
      && Ready(s + [dig], i + 1, 10 * b, b0, sv, lo, hi, ends) && b >= lo * Exp(10, i - 1) > 0
      && At(b0, sv, i, Num(s + [dig]), b)
  {
    hide Ready, Started, Reads, At, NoShorter, Chosen, Exp, Num;
    ReadyFacts(s, i, rest, b0, sv, lo, hi, ends);
    Divided(s, i, rest, b0, sv, dig, b);
    Candidates(b0, sv, i, 10 * Num(s) + dig, b, lo, hi, ends);
    MulPositive(lo, Exp(10, i - 1));
    MulPositive(hi, Exp(10, i - 1));
    if Stops(j, j1, ends) {
      if lo <= hi { Chooses(s, i, rest, b0, sv, lo, hi, ends, dig, b, j, j1); }
      if dig == 0 { ZeroNotLast(s, i, rest, b0, sv, lo, hi, ends, b); }
    } else {
      Continue(s, i, rest, b0, sv, lo, hi, ends, dig, b);
    }
  }

  /** One turn of the loop: a digit, and the decision about it. */
  method Turn(b: Bigint, S: Bigint, mlo: Bigint, mhi: Bigint, s: seq<nat>, mode: int, odd: bool, k: int,
              ghost i: nat, ghost v0: nat, ghost sv: nat, ghost lo: nat, ghost hi: nat)
    returns (dig: nat, done: bool, ds: seq<nat>, k': int, ghost P: nat)
    requires Turning(b, S, mlo, mhi, s, i, v0, sv, lo, hi, mode != 1 && !odd)
    modifies b`wds, b.x
    ensures done ==> Answer(ds, i - |ds| + (k' - k), i, P, false, v0, sv, lo, hi, mode != 1 && !odd)
    ensures !done ==> ds == s + [dig] && k' == k && Turned(b, S, mlo, mhi, ds, i, v0, sv, lo, hi, mode != 1 && !odd)
    ensures S.Valid() && S.Val() == sv
  {
    hide Value, Pow, Exp, Ready, Started, Answer, NoShorter, At, Bigint.Norm;
    ghost var rest := b.Val();
    ReadyFacts(s, i, rest, v0, sv, lo, hi, mode != 1 && !odd);
    var j, j1;
    dig, j, j1 := Examine(b, S, mlo, mhi);
    done, ds, k', P := Decide(b, S, s, dig, j, j1, mode, odd, k, i, rest, v0, lo, hi);
  }

  /** Rounds the last digit by the remainder, half to even, and drops the zeros or nines. */
  method RoundLast(b: Bigint, S: Bigint, s: seq<nat>, dig: nat, k: int, ghost i: nat, ghost v0: nat)
    returns (ds: seq<nat>, k': int, ghost P: nat)
    requires Good(b) && Good(S) && b.Val() > 0 && S.Val() > 0
    requires At(v0, S.Val(), i, Num(s), b.Val()) && Digits(s) && s != [] && s[0] != 0 && i == |s|
    requires s[|s| - 1] == dig
    ensures Spells(ds, i - |ds| + (k' - k), P) && ds[0] != 0 && ds[|ds| - 1] != 0
    ensures HalfEven(P, v0 * Exp(10, i - 1), S.Val())
  {
    hide Value, Pow, At, HalfEven;
    LeadingDigit(s);
    var up := HalfUp(b, S, dig);
    RoundsHalfEven(v0, S.Val(), i, Num(s), b.Val());
    if up {
      P := Num(s) + 1;
      ds, k' := RoundOff(s, k);
    } else {
      P := Num(s);
      ds := TrimZeros(s);
      k' := k;
    }
  }

  lemma {:induction false} LeadingDigit(s: seq<nat>)
    requires s != [] && s[0] != 0
    ensures Num(s) > 0 && Num(s) % 2 == s[|s| - 1] % 2
  {
    if |s| > 1 { LeadingDigit(s[..|s| - 1]); }
  }

  /** The remainder and both margins, times ten. The two margins may be the same number. */
  method TimesTen(b: Bigint, mlo: Bigint, mhi: Bigint) returns (b': Bigint, mlo': Bigint, mhi': Bigint)
    requires Good(b) && Good(mlo) && Good(mhi) && Apart(b, mlo) && Apart(b, mhi) && (mlo == mhi || Apart(mlo, mhi))
    modifies b, b.x, mlo, mlo.x, mhi, mhi.x
    ensures Good(b') && Good(mlo') && Good(mhi')
    ensures Apart(b', mlo') && Apart(b', mhi') && (mlo' == mhi' || Apart(mlo', mhi'))
    ensures b'.Val() == 10 * old(b.Val()) && mlo'.Val() == 10 * old(mlo.Val()) && mhi'.Val() == 10 * old(mhi.Val())
    ensures b' == b || (fresh(b') && fresh(b'.x))
    ensures mlo' == mlo || (fresh(mlo') && fresh(mlo'.x))
    ensures mhi' == mhi || (fresh(mhi') && fresh(mhi'.x))
  {
    hide Value;
    b' := MultAdd(b, 10, 0);
    if mlo == mhi {
      mhi' := MultAdd(mhi, 10, 0);
      mlo' := mhi';
    } else {
      mlo' := MultAdd(mlo, 10, 0);
      mhi' := MultAdd(mhi, 10, 0);
    }
  }

  /** To the next digit. */
  method Advance(b: Bigint, mlo: Bigint, mhi: Bigint, ghost S: Bigint, ghost ds: seq<nat>, ghost i: nat,
                 ghost v0: nat, ghost s: nat, ghost lo: nat, ghost hi: nat, ghost ends: bool)
    returns (b': Bigint, mlo': Bigint, mhi': Bigint)
    requires Turned(b, S, mlo, mhi, ds, i, v0, s, lo, hi, ends)
    modifies b, b.x, mlo, mlo.x, mhi, mhi.x
    ensures Turning(b', S, mlo', mhi', ds, i + 1, v0, s, lo, hi, ends)
    ensures lo * Exp(10, i - 1) < lo * Exp(10, i) && lo * Exp(10, i - 1) <= s
    ensures b' == b || (fresh(b') && fresh(b'.x))
    ensures mlo' == mlo || (fresh(mlo') && fresh(mlo'.x))
    ensures mhi' == mhi || (fresh(mhi') && fresh(mhi'.x))
  {
    hide Value, Exp, Ready, At, Bigint.Norm;
    TenFold(lo, i);
    TenFold(hi, i);
    b', mlo', mhi' := TimesTen(b, mlo, mhi);
  }

  lemma TenFold(x: nat, i: nat)
    requires i > 0
    ensures 10 * (x * Exp(10, i - 1)) == x * Exp(10, i)
  {
    MulSwap(x, 10, Exp(10, i - 1));
    MulSwap(10, x, Exp(10, i - 1));
  }

  lemma TenZero()
    ensures Exp(10, 0) == 1
  {
  }

  /** Before a turn: the remainder and both margins are at scale `i`, and all numbers are apart. */
  ghost predicate Turning(b: Bigint, S: Bigint, mlo: Bigint, mhi: Bigint, ds: seq<nat>, i: nat,
                          v0: nat, s: nat, lo: nat, hi: nat, ends: bool)
    reads b, b.x, S, S.x, mlo, mlo.x, mhi, mhi.x
  {
    && Scales(b, S, mlo, mhi, i, s, lo, hi) && Ready(ds, i, b.Val(), v0, s, lo, hi, ends)
  }

  ghost predicate Scales(b: Bigint, S: Bigint, mlo: Bigint, mhi: Bigint, i: nat, s: nat, lo: nat, hi: nat)
    reads b, b.x, S, S.x, mlo, mlo.x, mhi, mhi.x
  {
    && Good(b) && Divisor(S) && Good(mlo) && Good(mhi)
    && Apart(b, S) && Apart(b, mlo) && Apart(b, mhi) && Apart(S, mlo) && Apart(S, mhi)
    && (mlo == mhi || Apart(mlo, mhi)) && i > 0 && S.Val() == s
    && mlo.Val() == lo * Exp(10, i - 1) > 0 && mhi.Val() == hi * Exp(10, i - 1) > 0
  }

  /** After a turn that did not end the loop. */
  ghost predicate Turned(b: Bigint, S: Bigint, mlo: Bigint, mhi: Bigint, ds: seq<nat>, i: nat,
                         v0: nat, s: nat, lo: nat, hi: nat, ends: bool)
    reads b, b.x, S, S.x, mlo, mlo.x, mhi, mhi.x
  {
    && Scales(b, S, mlo, mhi, i, s, lo, hi) && mlo.Val() <= b.Val() < s
    && Ready(ds, i + 1, 10 * b.Val(), v0, s, lo, hi, ends) && At(v0, s, i, Num(ds), b.Val())
  }

  /** The shortest-digits loop: stops at the first decimal inside the interval, or after
      `ilim` digits with a half-even rounding. `odd` is the parity of the binary mantissa. */
  method LeftRight(b0: Bigint, S: Bigint, mlo0: Bigint, mhi0: Bigint, ilim: int, mode: int, odd: bool, k: int)
    returns (ds: seq<nat>, k': int, i: nat, ghost P: nat, ghost byLimit: bool)
    requires Good(b0) && Divisor(S) && Good(mlo0) && Good(mhi0)
    requires Apart(b0, S) && Apart(b0, mlo0) && Apart(b0, mhi0) && Apart(S, mlo0) && Apart(S, mhi0)
    requires mlo0 == mhi0 || Apart(mlo0, mhi0)
    requires mlo0.Val() > 0 && mhi0.Val() > 0 && S.Val() <= b0.Val() < 10 * S.Val()
    modifies b0, b0.x, mlo0, mlo0.x, mhi0, mhi0.x
    ensures S.Valid() && S.Val() == old(S.Val())
    ensures Answer(ds, i - |ds| + (k' - k), i, P, byLimit, old(b0.Val()), S.Val(),
                   old(mlo0.Val()), old(mhi0.Val()), mode != 1 && !odd)
    ensures (byLimit ==> i == ilim) && (ilim > 0 ==> i <= ilim)
  {
    ghost var v0, s, lo, hi := b0.Val(), S.Val(), mlo0.Val(), mhi0.Val();
    ReadyStart(v0, s, lo, hi, mode != 1 && !odd);
    hide Value, Ready, Answer;
    ds, k', i, P, byLimit := Generate(b0, S, mlo0, mhi0, ilim, mode, odd, k, v0, s, lo, hi);
  }

  /** The loop, and the rounding when it ends by the limit. */
  method Generate(b0: Bigint, S: Bigint, mlo0: Bigint, mhi0: Bigint, ilim: int, mode: int, odd: bool, k: int,
                ghost v0: nat, ghost s: nat, ghost lo: nat, ghost hi: nat)
    returns (ds: seq<nat>, k': int, i: nat, ghost P: nat, ghost byLimit: bool)
    requires Turning(b0, S, mlo0, mhi0, [], 1, v0, s, lo, hi, mode != 1 && !odd)
    modifies b0, b0.x, mlo0, mlo0.x, mhi0, mhi0.x
    ensures S.Valid() && S.Val() == s
    ensures Answer(ds, i - |ds| + (k' - k), i, P, byLimit, v0, s, lo, hi, mode != 1 && !odd)
    ensures (byLimit ==> i == ilim) && (ilim > 0 ==> i <= ilim)
  {
    hide *;
    var b, mlo, mhi := b0, mlo0, mhi0;
    ds, k', i, byLimit := [], k, 1, false;
    var dig: nat, done := 0, false;
    ghost var margin := lo;
    assert margin == lo * Exp(10, 0) by { TenZero(); }
    while true
      invariant Turning(b, S, mlo, mhi, ds, i, v0, s, lo, hi, mode != 1 && !odd) && k' == k && i > 0
      invariant margin == lo * Exp(10, i - 1) && (ilim > 0 ==> i <= ilim)
      invariant b == b0 || (fresh(b) && fresh(b.x))
      invariant mlo == mlo0 || (fresh(mlo) && fresh(mlo.x))
      invariant mhi == mhi0 || (fresh(mhi) && fresh(mhi.x))
      decreases s - margin
    {
      dig, done, ds, k', b, mlo, mhi, P := Round(b, S, mlo, mhi, ds, i, ilim, mode, odd, k, v0, s, lo, hi);
      if done {
        return;
      }
      if i == ilim {
        break;
      }
      i := i + 1;
      margin := lo * Exp(10, i - 1);
    }
    byLimit := true;
    ds, k', P := AtLimit(b, S, mlo, mhi, ds, dig, k, i, v0, s, lo, hi, mode != 1 && !odd);
  }

  /** A turn, and the step to the next digit if there is one. */
  method Round(b: Bigint, S: Bigint, mlo: Bigint, mhi: Bigint, s: seq<nat>, i: nat, ilim: int, mode: int,
               odd: bool, k: int,
               ghost v0: nat, ghost sv: nat, ghost lo: nat, ghost hi: nat)
    returns (dig: nat, done: bool, ds: seq<nat>, k': int, b': Bigint, mlo': Bigint, mhi': Bigint, ghost P: nat)
    requires Turning(b, S, mlo, mhi, s, i, v0, sv, lo, hi, mode != 1 && !odd)
    modifies b, b.x, mlo, mlo.x, mhi, mhi.x
    ensures S.Valid() && S.Val() == sv
    ensures done ==> Answer(ds, i - |ds| + (k' - k), i, P, false, v0, sv, lo, hi, mode != 1 && !odd)
    ensures !done ==> ds == s + [dig] && k' == k && i > 0
    ensures !done && i == ilim ==> Turned(b', S, mlo', mhi', ds, i, v0, sv, lo, hi, mode != 1 && !odd)
    ensures !done && i != ilim ==> Turning(b', S, mlo', mhi', ds, i + 1, v0, sv, lo, hi, mode != 1 && !odd)
    ensures !done && i != ilim ==> lo * Exp(10, i - 1) < lo * Exp(10, i) && lo * Exp(10, i - 1) <= sv
    ensures b' == b || (fresh(b') && fresh(b'.x))
    ensures mlo' == mlo || (fresh(mlo') && fresh(mlo'.x))
    ensures mhi' == mhi || (fresh(mhi') && fresh(mhi'.x))
  {
    assert i > 0;
    hide Value, Exp, Turning, Turned, Answer;
    b', mlo', mhi' := b, mlo, mhi;
    dig, done, ds, k', P := Turn(b, S, mlo, mhi, s, mode, odd, k, i, v0, sv, lo, hi);
    if !done && i != ilim {
      b', mlo', mhi' := Advance(b, mlo, mhi, S, ds, i, v0, sv, lo, hi, mode != 1 && !odd);
      ScaleKept(b', S, mlo', mhi', ds, i + 1, v0, sv, lo, hi, mode != 1 && !odd);
    }
  }

  lemma ScaleKept(b: Bigint, S: Bigint, mlo: Bigint, mhi: Bigint, ds: seq<nat>, i: nat,
                  v0: nat, s: nat, lo: nat, hi: nat, ends: bool)
    requires Turning(b, S, mlo, mhi, ds, i, v0, s, lo, hi, ends)
    ensures S.Valid() && S.Val() == s
  {
  }

  /** After `ilim` digits the last one is rounded. */
  method AtLimit(b: Bigint, S: Bigint, ghost mlo: Bigint, ghost mhi: Bigint, s: seq<nat>, dig: nat, k: int,
                 ghost i: nat,
                 ghost v0: nat, ghost sv: nat, ghost lo: nat, ghost hi: nat, ghost ends: bool)
    returns (ds: seq<nat>, k': int, ghost P: nat)
    requires Turned(b, S, mlo, mhi, s, i, v0, sv, lo, hi, ends) && s != [] && s[|s| - 1] == dig
    ensures Answer(ds, i - |ds| + (k' - k), i, P, true, v0, sv, lo, hi, ends)
    ensures S.Valid() && S.Val() == sv
  {
    hide Value, Pow, Exp, Ready, Answer, NoShorter, At, Bigint.Norm;
    ReadyFacts(s, i + 1, 10 * b.Val(), v0, sv, lo, hi, ends);
    Limit(s, i, 10 * b.Val(), v0, sv, lo, hi, ends);
    ds, k', P := RoundLast(b, S, s, dig, k, i, v0);
    AnswerByLimit(ds, i - |ds| + (k' - k), i, P, v0, sv, lo, hi, ends);
  }

  lemma Limit(ds: seq<nat>, i: nat, rest: nat, b0: nat, s: nat, lo: nat, hi: nat, ends: bool)
    requires Ready(ds, i + 1, rest, b0, s, lo, hi, ends)
    ensures NoShorter(i, b0, s, lo, hi, ends) && NoShorter(i + 1, b0, s, lo, hi, ends)
  {
  }

  lemma AnswerByLimit(ds: seq<nat>, e: int, i: nat, P: nat, b0: nat, s: nat, lo: nat, hi: nat, ends: bool)
    requires i > 0 && Spells(ds, e, P) && ds[0] != 0 && ds[|ds| - 1] != 0
    requires NoShorter(i, b0, s, lo, hi, ends) && NoShorter(i + 1, b0, s, lo, hi, ends)
    requires HalfEven(P, b0 * Exp(10, i - 1), s)
    ensures Answer(ds, e, i, P, true, b0, s, lo, hi, ends)
  {
  }

  /** The plain loop: `ilim` digits, or fewer if they are exact. */
  method FixedDigits(b0: Bigint, S: Bigint, ilim: int, k: int) returns (ds: seq<nat>, k': int, i: nat, ghost P: nat)
    requires Good(b0) && Divisor(S) && Apart(b0, S) && S.Val() <= b0.Val() < 10 * S.Val()
    modifies b0, b0.x
    ensures S.Valid() && S.Val() == old(S.Val()) && i > 0 && (i < ilim || i == ilim || (ilim < 1 && i == 1))
    ensures Spells(ds, i - |ds| + (k' - k), P) && ds[0] != 0 && ds[|ds| - 1] != 0
    ensures HalfEven(P, old(b0.Val()) * Exp(10, i - 1), S.Val())
    ensures i < ilim ==> P * S.Val() == old(b0.Val()) * Exp(10, i - 1)
  {
    ghost var v0, s := b0.Val(), S.Val();
    FixedStart(v0, s);
    hide Value, Started;
    ds, k', i, P := FixedLoop(b0, S, ilim, k, v0, s);
  }

  /** Before a turn of the plain loop. */
  ghost predicate Fixing(b: Bigint, S: Bigint, ds: seq<nat>, i: nat, v0: nat, s: nat)
    reads b, b.x, S, S.x
  {
    Good(b) && b.Val() > 0 && Divisor(S) && Apart(b, S) && S.Val() == s && Started(ds, i, b.Val(), v0, s)
  }

  /** After a turn: the digits so far, and what is left. */
  ghost predicate Fixed(b: Bigint, S: Bigint, ds: seq<nat>, i: nat, v0: nat, s: nat)
    reads b, b.x, S, S.x
  {
    && Good(b) && Divisor(S) && Apart(b, S) && S.Val() == s && Started(ds, i + 1, 10 * b.Val(), v0, s)
    && At(v0, s, i, Num(ds), b.Val())
  }

  ghost predicate Remains(b: Bigint)
    reads b, b.x
  {
    b.Valid() && b.Val() > 0
  }

  method FixedLoop(b0: Bigint, S: Bigint, ilim: int, k: int, ghost v0: nat, ghost s: nat)
    returns (ds: seq<nat>, k': int, i: nat, ghost P: nat)
    requires Fixing(b0, S, [], 1, v0, s)
    modifies b0, b0.x
    ensures S.Valid() && S.Val() == s && i > 0 && (i < ilim || i == ilim || (ilim < 1 && i == 1))
    ensures Spells(ds, i - |ds| + (k' - k), P) && ds[0] != 0 && ds[|ds| - 1] != 0
    ensures HalfEven(P, v0 * Exp(10, i - 1), s)
    ensures i < ilim ==> P * s == v0 * Exp(10, i - 1)
  {
    hide *;
    var b := b0;
    ds, k', i := [], k, 1;
    var dig: nat := 0;
    while true
      invariant Fixing(b, S, ds, i, v0, s) && (b == b0 || (fresh(b) && fresh(b.x)))
      invariant i > 0 && (i > 1 ==> i <= ilim) && k' == k
      decreases ilim - i
    {
      var exact;
      dig, exact, P := FixedTurn(b, S, ds, i, v0, s);
      ds := ds + [dig];
      if exact {
        return;
      }
      if i >= ilim {
        break;
      }
      b := FixedNext(b, S, ds, i, v0, s);
      i := i + 1;
    }
    ds, k', P := FixedEnd(b, S, ds, dig, k, i, v0, s);
  }

  /** One digit, and whether it was the last one of an exact quotient. */
  method FixedTurn(b: Bigint, S: Bigint, ghost ds: seq<nat>, ghost i: nat, ghost v0: nat, ghost s: nat)
    returns (dig: nat, exact: bool, ghost P: nat)
    requires Fixing(b, S, ds, i, v0, s)
    modifies b`wds, b.x
    ensures Fixed(b, S, ds + [dig], i, v0, s) && S.Valid() && S.Val() == s && |ds| + 1 == i
    ensures !exact ==> Remains(b)
    ensures exact ==> Spells(ds + [dig], 0, P) && (ds + [dig])[0] != 0 && dig != 0
    ensures exact ==> HalfEven(P, v0 * Exp(10, i - 1), s) && P * s == v0 * Exp(10, i - 1)
  {
    hide Value, Pow, Exp, At, HalfEven, Started, Bigint.Norm;
    ghost var rest := b.Val();
    StartedBound(ds, i, rest, v0, s);
    dig := QuoRem(b, S);
    ghost var product := dig * S.Val();
    assert rest == product + b.Val();
    Divided(ds, i, rest, v0, s, dig, b.Val());
    StartedBound(ds + [dig], i + 1, 10 * b.Val(), v0, s);
    ZeroTest(b);
    exact := IsZero(b);
    P := Num(ds + [dig]);
    if exact { Exact(ds + [dig], v0, s, i, P); }
  }

  method FixedNext(b: Bigint, ghost S: Bigint, ghost ds: seq<nat>, ghost i: nat, ghost v0: nat, ghost s: nat)
    returns (b': Bigint)
    requires Fixed(b, S, ds, i, v0, s) && Remains(b)
    modifies b, b.x
    ensures Fixing(b', S, ds, i + 1, v0, s) && (b' == b || (fresh(b') && fresh(b'.x)))
  {
    hide Value, Pow, Exp, At, Started, Bigint.Norm;
    b' := MultAdd(b, 10, 0);
  }

  method FixedEnd(b: Bigint, S: Bigint, s: seq<nat>, dig: nat, k: int, ghost i: nat, ghost v0: nat, ghost sv: nat)
    returns (ds: seq<nat>, k': int, ghost P: nat)
    requires Fixed(b, S, s, i, v0, sv) && Remains(b) && s != [] && s[|s| - 1] == dig
    ensures S.Valid() && S.Val() == sv
    ensures Spells(ds, i - |ds| + (k' - k), P) && ds[0] != 0 && ds[|ds| - 1] != 0
    ensures HalfEven(P, v0 * Exp(10, i - 1), sv)
  {
    hide Value, Pow, Exp, At, HalfEven, Started, Bigint.Norm;
    StartedBound(s, i + 1, 10 * b.Val(), v0, sv);
    ds, k', P := RoundLast(b, S, s, dig, k, i, v0);
  }

  lemma FixedStart(b0: nat, s: nat)
    requires s <= b0 < 10 * s
    ensures Started([], 1, b0, b0, s)
  {
  }

  lemma Exact(ds: seq<nat>, v0: nat, s: nat, i: nat, P: nat)
    requires At(v0, s, i, P, 0) && P == Num(ds) && Digits(ds) && ds != []
    ensures Spells(ds, 0, P) && HalfEven(P, v0 * Exp(10, i - 1), s) && P * s == v0 * Exp(10, i - 1)
  {
  }
}
