/** adler32.c: the checksum with deferred reductions against the byte-by-byte definition in
    section 2.2 of RFC 1950, and the checksum of a concatenation from those of its parts. */
module Adler32 {
  import opened Arith
  import opened Basics

  type Word = x: int | 0 <= x < 0x1_0000_0000
  type Offset = x: int | -0x8000_0000_0000_0000 <= x < 0x8000_0000_0000_0000

  const BASE: int := 65521
  const NMAX: nat := 5552

  datatype Sums = Sums(s1: nat, s2: nat)

  ghost predicate Reduced(s: Sums) {
    s.s1 < BASE && s.s2 < BASE
  }

  /** Section 2.2 of RFC 1950: both sums are reduced after every byte. */
  ghost function Checksum(start: Sums, data: seq<Byte>): Sums {
    if data == [] then start else
      var s := Checksum(start, data[..|data| - 1]);
      var s1 := (s.s1 + data[|data| - 1]) % BASE;
      Sums(s1, (s.s2 + s1) % BASE)
  }

  function Pack(s1: Word, s2: Word): (a: Word)
    requires s1 < 0x1_0000 && s2 < 0x1_0000
  {
    s1 + 0x1_0000 * s2
  }

  function Unpack(a: Word): (s: Sums)
    ensures s.s1 < 0x1_0000 && s.s2 < 0x1_0000 && Pack(s.s1, s.s2) == a
  {
    Sums(a % 0x1_0000, a / 0x1_0000)
  }

  /** The second sum is the high half. */
  lemma Halves16(a: Word)
    ensures a == Unpack(a).s2 * 0x1_0000 + Unpack(a).s1
  {
  }

  lemma Unpacked(s1: Word, s2: Word)
    requires s1 < 0x1_0000 && s2 < 0x1_0000
    ensures Unpack(Pack(s1, s2)) == Sums(s1, s2)
  {
  }

  /** The checksum of no bytes is 1, and that of "abc" is 0x024d0127. */
  lemma Samples()
    ensures Unpack(1) == Checksum(Unpack(1), [])
    ensures Unpack(0x024d0127) == Checksum(Unpack(1), [97, 98, 99])
  {
    assert Unpack(1) == Sums(1, 0) && Unpack(0x024d0127) == Sums(295, 589);
    hide Unpack;
    Abc();
  }

  lemma Abc()
    ensures Checksum(Sums(1, 0), [97, 98, 99]) == Sums(295, 589)
  {
    assert [97, 98, 99][..2] == [97, 98] && [97, 98][..1] == [97];
    assert Checksum(Sums(1, 0), [97]) == Sums(98, 98);
    assert Checksum(Sums(1, 0), [97, 98]) == Sums(196, 294);
  }

  lemma {:induction false} ChecksumReduced(start: Sums, data: seq<Byte>)
    requires Reduced(start)
    ensures Reduced(Checksum(start, data))
  {
  }

  /** Checksumming piece by piece is checksumming the concatenation. */
  lemma {:induction false} Piecewise(start: Sums, x: seq<Byte>, y: seq<Byte>)
    ensures Checksum(Checksum(start, x), y) == Checksum(start, x + y)
  {
    if y == [] {
      assert x + y == x;
    } else {
      Piecewise(start, x, y[..|y| - 1]);
      assert (x + y)[..|x + y| - 1] == x + y[..|y| - 1];
    }
  }

  // ---- Deferred sums ----

  /** The sums without any reduction. */
  ghost function Deferred(start: Sums, data: seq<Byte>): Sums {
    if data == [] then start else
      var s := Deferred(start, data[..|data| - 1]);
      var s1 := s.s1 + data[|data| - 1];
      Sums(s1, s.s2 + s1)
  }

  lemma DeferredNext(start: Sums, data: seq<Byte>, i: nat)
    requires i < |data|
    ensures var s, t := Deferred(start, data[..i]), Deferred(start, data[..i + 1]);
      t.s1 == s.s1 + data[i] && t.s2 == s.s2 + t.s1
  {
    assert data[..i + 1][..i] == data[..i];
  }

  lemma AddMod(a: nat, b: nat, c: nat, d: nat)
    requires a % BASE == b % BASE && c % BASE == d % BASE
    ensures (a + c) % BASE == (b + d) % BASE
  {
    var r := a % BASE + c % BASE;
    Shift(r, a / BASE + c / BASE);
    Shift(r, b / BASE + d / BASE);
  }

  lemma Shift(r: nat, k: nat)
    ensures (r + BASE * k) % BASE == r % BASE
  {
  }

  lemma Reducing(s: Sums, t: Sums, b: Byte)
    requires s.s1 == t.s1 % BASE && s.s2 == t.s2 % BASE
    ensures (s.s1 + b) % BASE == (t.s1 + b) % BASE
    ensures (s.s2 + (s.s1 + b) % BASE) % BASE == (t.s2 + (t.s1 + b)) % BASE
  {
    AddMod(s.s1, t.s1, b, b);
    AddMod(s.s2, t.s2, (s.s1 + b) % BASE, t.s1 + b);
  }

  /** Reducing only at the end gives the same remainders. */
  lemma {:induction false} DeferredReduces(start: Sums, data: seq<Byte>)
    requires Reduced(start)
    ensures var t := Deferred(start, data); Checksum(start, data) == Sums(t.s1 % BASE, t.s2 % BASE)
  {
    if data != [] {
      var n := |data| - 1;
      DeferredReduces(start, data[..n]);
      Reducing(Checksum(start, data[..n]), Deferred(start, data[..n]), data[n]);
    }
  }

  /** The largest second sum that `n` bytes can lead to. */
  ghost function Worst(n: nat): nat {
    255 * (n * (n + 1) / 2) + (n + 1) * (BASE - 1)
  }

  lemma WorstNext(n: nat)
    ensures Worst(n + 1) == Worst(n) + (BASE - 1) + 255 * (n + 1)
  {
    assert (n + 1) * (n + 2) == n * (n + 1) + 2 * (n + 1);
    assert (n * (n + 1) + 2 * (n + 1)) / 2 == n * (n + 1) / 2 + (n + 1);
    assert (n + 2) * (BASE - 1) == (n + 1) * (BASE - 1) + (BASE - 1);
  }

  lemma {:induction false} WorstGrows(m: nat, n: nat)
    requires m <= n
    ensures Worst(m) <= Worst(n)
  {
    if m < n {
      WorstGrows(m, n - 1);
      WorstNext(n - 1);
    }
  }

  /** NMAX is the largest block whose second sum still fits in 32 bits. */
  lemma NMaxIsLargest(n: nat)
    ensures n <= NMAX <==> Worst(n) < 0x1_0000_0000
  {
    assert Worst(NMAX) == 4294690200 && Worst(NMAX + 1) == 4296171735;
    if n <= NMAX { WorstGrows(n, NMAX); } else { WorstGrows(NMAX + 1, n); }
  }

  /** ... and the bound is reached, by a block of 255s after the largest start. */
  lemma {:induction false} WorstReached(n: nat)
    ensures var t := Deferred(Sums(BASE - 1, BASE - 1), seq(n, _ => 255));
      t.s1 == BASE - 1 + 255 * n && t.s2 == Worst(n)
  {
    if n > 0 {
      var data: seq<Byte> := seq(n, _ => 255);
      var fewer: seq<Byte> := seq(n - 1, _ => 255);
      assert data[..n - 1] == fewer;
      WorstReached(n - 1);
      WorstNext(n - 1);
    }
  }

  lemma {:induction false} DeferredBound(start: Sums, data: seq<Byte>)
    requires Reduced(start)
    ensures var t := Deferred(start, data); t.s1 <= BASE - 1 + 255 * |data| && t.s2 <= Worst(|data|)
  {
    if data != [] {
      DeferredBound(start, data[..|data| - 1]);
      WorstNext(|data| - 1);
    }
  }

  // ---- Remainders without division ----

  /** 2^16 and 15 leave the same remainder. */
  lemma ChopKeeps(h: nat, l: nat)
    ensures (0x1_0000 * h + l) % BASE == (15 * h + l) % BASE
  {
    assert 0x1_0000 * h + l == BASE * h + (15 * h + l);
    MultipleGoes(h, 15 * h + l);
  }

  lemma MultipleGoes(k: nat, x: nat)
    ensures (BASE * k + x) % BASE == x % BASE
  {
  }

  function Chop(a: nat): (r: nat)
    ensures r % BASE == a % BASE
  {
    var tmp := a / 0x1_0000;
    ChopKeeps(tmp, a % 0x1_0000);
    a % 0x1_0000 + (tmp * 16 - tmp)
  }

  method Mod28(a: Word) returns (r: Word)
    requires a < 0x1000_0000
    ensures r == a % BASE
  {
    r := Chop(a);
    if r >= BASE {
      r := r - BASE;
    }
  }

  method Mod(a: Word) returns (r: Word)
    ensures r == a % BASE
  {
    var c := Chop(a);
    r := Mod28(c);
  }

  method Mod63(a: Offset) returns (r: Word)
    requires a >= 0
    ensures r == a % BASE
  {
    var tmp := a / 0x1_0000_0000;
    var low: nat := a % 0x1_0000_0000;
    assert a == BASE * (65551 * tmp) + (225 * tmp + low);
    MultipleGoes(65551 * tmp, 225 * tmp + low);
    var b: nat := low + (tmp * 256 - tmp * 32 + tmp);
    var c := Chop(b);
    var d := Chop(c);
    if d >= BASE {
      d := d - BASE;
    }
    r := d;
  }

  // ---- The checksum ----

  datatype Buffer = Null | Bytes(data: seq<Byte>)

  ghost predicate Holds(start: Sums, data: seq<Byte>, i: nat, adler: nat, sum2: nat) {
    i <= |data| && Deferred(start, data[..i]) == Sums(adler, sum2)
  }

  /** One byte more. */
  lemma Next(start: Sums, data: seq<Byte>, i: nat, adler: nat, sum2: nat)
    requires Reduced(start) && i < |data| && Holds(start, data, i, adler, sum2)
    ensures Holds(start, data, i + 1, adler + data[i], sum2 + (adler + data[i]))
    ensures adler + data[i] <= BASE - 1 + 255 * (i + 1) && sum2 + (adler + data[i]) <= Worst(i + 1)
  {
    DeferredNext(start, data, i);
    DeferredBound(start, data[..i + 1]);
  }

  /** Sums a block without reducing. The unrolled sixteens are a loop of sixteen rounds. */
  method Sixteens(adler: Word, sum2: Word, buf: seq<Byte>, from: nat, n: nat) returns (adler': Word, sum2': Word)
    requires adler < BASE && sum2 < BASE && 16 * n <= NMAX && from + 16 * n <= |buf|
    ensures Deferred(Sums(adler, sum2), buf[from..from + 16 * n]) == Sums(adler', sum2')
  {
    ghost var start, block := Sums(adler, sum2), buf[from..from + 16 * n];
    adler', sum2' := adler, sum2;
    for k := 0 to n
      invariant Holds(start, block, 16 * k, adler', sum2')
    {
      for i := 0 to 16
        invariant Holds(start, block, 16 * k + i, adler', sum2')
      {
        Next(start, block, 16 * k + i, adler', sum2');
        NMaxIsLargest(16 * k + i + 1);
        adler' := adler' + buf[from + 16 * k + i];
        sum2' := sum2' + adler';
      }
    }
    assert block[..16 * n] == block;
  }

  /** Adds bytes one at a time. */
  method Singles(ghost start: Sums, ghost block: seq<Byte>, ghost done: nat, adler: Word, sum2: Word,
                 buf: seq<Byte>, from: nat)
    returns (adler': Word, sum2': Word)
    requires Reduced(start) && |block| <= NMAX && from <= |buf| && done <= |block| && block[done..] == buf[from..]
    requires Holds(start, block, done, adler, sum2)
    ensures Deferred(start, block) == Sums(adler', sum2')
  {
    adler', sum2' := adler, sum2;
    for i := from to |buf|
      invariant Holds(start, block, done + (i - from), adler', sum2')
    {
      assert block[done..][i - from] == buf[from..][i - from];
      Next(start, block, done + (i - from), adler', sum2');
      NMaxIsLargest(done + (i - from) + 1);
      adler' := adler' + buf[i];
      sum2' := sum2' + adler';
    }
    assert block[..|block|] == block;
  }

  /** A block after the bytes already reduced. */
  lemma BlockDone(start: Sums, data: seq<Byte>, from: nat, to: nat, s: Sums, t: Sums)
    requires Reduced(start) && from <= to <= |data| && s == Checksum(start, data[..from])
    requires t == Deferred(s, data[from..to])
    ensures Checksum(start, data[..to]) == Sums(t.s1 % BASE, t.s2 % BASE)
  {
    ChecksumReduced(start, data[..from]);
    DeferredReduces(s, data[from..to]);
    Piecewise(start, data[..from], data[from..to]);
    assert data[..from] + data[from..to] == data[..to];
  }

  lemma Empty(start: Sums, data: seq<Byte>)
    ensures Checksum(start, data[..0]) == start && Deferred(start, data[..0]) == start
  {
  }

  method SubtractOnce(a: Word) returns (r: Word)
    requires a < 2 * BASE
    ensures r == a % BASE
  {
    r := a;
    if r >= BASE {
      r := r - BASE;
    }
  }

  method OneByte(adler: Word, sum2: Word, data: seq<Byte>) returns (r: Word)
    requires adler < BASE && sum2 < BASE && |data| == 1
    ensures Unpack(r) == Checksum(Sums(adler, sum2), data)
  {
    var a := SubtractOnce(adler + data[0]);
    var s := SubtractOnce(sum2 + a);
    assert data[..0] == [];
    Empty(Sums(adler, sum2), data);
    Unpacked(a, s);
    r := Pack(a, s);
  }

  /** Fewer than 16 bytes: the first sum needs at most one subtraction. */
  method FewBytes(adler: Word, sum2: Word, data: seq<Byte>) returns (r: Word)
    requires adler < BASE && sum2 < BASE && |data| < 16
    ensures Unpack(r) == Checksum(Sums(adler, sum2), data)
  {
    ghost var start := Sums(adler, sum2);
    Empty(start, data);
    assert Worst(15) == 1078920;
    hide Checksum, Deferred, Worst;
    var a, s := Singles(start, data, 0, adler, sum2, data, 0);
    DeferredBound(start, data);
    WorstGrows(|data|, 15);
    DeferredReduces(start, data);
    a := SubtractOnce(a);
    s := Mod28(s);
    Unpacked(a, s);
    r := Pack(a, s);
  }

  lemma Halves(data: seq<Byte>, pos: nat, n: nat)
    requires pos + n <= |data|
    ensures var block := data[pos..]; block[..n] == data[pos..pos + n] && block[n..] == data[pos + n..]
  {
  }

  /** adler32_z. Without a buffer the result is the initial value of a checksum. */
  method Adler32Z(adler: Word, buf: Buffer, len: nat) returns (r: Word)
    requires Reduced(Unpack(adler)) && (buf.Bytes? ==> len == |buf.data|) && (buf.Null? ==> len != 1)
    ensures buf.Null? ==> r == 1
    ensures buf.Bytes? ==> Unpack(r) == Checksum(Unpack(adler), buf.data)
  {
    var start := Unpack(adler);
    var a: Word, sum2: Word := start.s1, start.s2;
    if len == 1 {
      r := OneByte(a, sum2, buf.data);
      return;
    }
    if buf.Null? {
      return 1;
    }
    var data := buf.data;
    if len < 16 {
      r := FewBytes(a, sum2, data);
      return;
    }
    Empty(start, data);
    hide Checksum, Deferred;
    var pos := 0;
    while len - pos >= NMAX
      invariant pos <= len && a < BASE && sum2 < BASE && Sums(a, sum2) == Checksum(start, data[..pos])
    {
      ghost var before := Sums(a, sum2);
      a, sum2 := Sixteens(a, sum2, data, pos, NMAX / 16);
      BlockDone(start, data, pos, pos + NMAX, before, Sums(a, sum2));
      pos := pos + NMAX;
      a := Mod(a);
      sum2 := Mod(sum2);
    }
    if pos < len {
      ghost var before, block := Sums(a, sum2), data[pos..];
      var n := (len - pos) / 16;
      a, sum2 := Sixteens(a, sum2, data, pos, n);
      Halves(data, pos, 16 * n);
      a, sum2 := Singles(before, block, 16 * n, a, sum2, data, pos + 16 * n);
      assert data[pos..] == data[pos..len];
      BlockDone(start, data, pos, len, before, Sums(a, sum2));
      a := Mod(a);
      sum2 := Mod(sum2);
    } else {
      assert pos == len;
    }
    assert data[..len] == data;
    Unpacked(a, sum2);
    r := Pack(a, sum2);
  }

  // ---- The checksum of a concatenation ----

  /** How the unreduced sums of `y` depend on where they start. */
  lemma {:induction false} DeferredShift(start: Sums, y: seq<Byte>)
    ensures var t, u := Deferred(start, y), Deferred(Sums(1, 0), y);
      t.s1 + 1 == u.s1 + start.s1 && t.s2 + |y| == u.s2 + start.s2 + |y| * start.s1
  {
    if y != [] {
      var n := |y| - 1;
      DeferredShift(start, y[..n]);
      assert (n + 1) * start.s1 == n * start.s1 + start.s1;
    }
  }

  ghost function Rem(a: int): nat {
    a % BASE
  }

  lemma RemRem(a: nat, b: nat)
    ensures Rem(Rem(a) + b) == Rem(a + b)
  {
    AddMod(a % BASE, a, b, b);
  }

  lemma Nearby(a: nat, b: nat)
    requires a - b in {BASE, 0, -BASE, -2 * BASE}
    ensures Rem(a) == Rem(b)
  {
  }

  /** Adler-32 sums `r` of `x + y`, given those of `x` (from any start) and of `y` (from 1). */
  ghost predicate Joins(x: Sums, y: Sums, n: nat, r: Sums) {
    Reduced(r) && Rem(r.s1 + 1) == Rem(x.s1 + y.s1) && Rem(r.s2 + n) == Rem(x.s2 + y.s2 + n * x.s1)
  }

  lemma CancelRem(a: nat, b: nat, n: nat)
    requires a < BASE && b < BASE && Rem(a + n) == Rem(b + n)
    ensures a == b
  {
  }

  lemma JoinsUnique(x: Sums, y: Sums, n: nat, r: Sums, t: Sums)
    requires Joins(x, y, n, r) && Joins(x, y, n, t)
    ensures r == t
  {
    CancelRem(r.s1, t.s1, 1);
    CancelRem(r.s2, t.s2, n);
  }

  lemma ConcatenationJoins(start: Sums, x: seq<Byte>, y: seq<Byte>)
    requires Reduced(start)
    ensures Joins(Checksum(start, x), Checksum(Sums(1, 0), y), |y|, Checksum(start, x + y))
  {
    var s := Checksum(start, x);
    ChecksumReduced(start, x);
    ChecksumReduced(start, x + y);
    Piecewise(start, x, y);
    DeferredShift(s, y);
    DeferredReduces(s, y);
    DeferredReduces(Sums(1, 0), y);
    ShiftJoins(s, Deferred(s, y), Deferred(Sums(1, 0), y), |y|);
  }

  lemma ShiftJoins(s: Sums, t: Sums, u: Sums, n: nat)
    requires t.s1 + 1 == u.s1 + s.s1 && t.s2 + n == u.s2 + s.s2 + n * s.s1
    ensures Joins(s, Sums(u.s1 % BASE, u.s2 % BASE), n, Sums(t.s1 % BASE, t.s2 % BASE))
  {
    assert Rem(u.s1) == u.s1 % BASE && Rem(u.s2) == u.s2 % BASE;
    assert Rem(t.s1) == t.s1 % BASE && Rem(t.s2) == t.s2 % BASE;
    hide Rem;
    var k := n * s.s1;
    RemRem(t.s1, 1);
    RemRem(t.s2, n);
    RemRem(u.s1, s.s1);
    RemRem(u.s2, s.s2 + k);
  }

  /** adler32_combine_. */
  method Combine(adler1: Word, adler2: Word, len2: Offset) returns (r: Word)
    requires Reduced(Unpack(adler1)) && Reduced(Unpack(adler2))
    ensures len2 < 0 ==> r == 0xFFFF_FFFF
    ensures len2 >= 0 ==> Joins(Unpack(adler1), Unpack(adler2), len2, Unpack(r))
  {
    if len2 < 0 {
      return 0xFFFF_FFFF;
    }
    var rem := Mod63(len2);
    var x, y := Unpack(adler1), Unpack(adler2);
    var sum1: Word := x.s1;
    var product := Product(rem, sum1);
    var sum2 := Mod(product);
    ghost var m: nat := sum2;
    sum1 := sum1 + (y.s1 + BASE - 1);
    sum2 := sum2 + (x.s2 + y.s2 + BASE - rem);
    if sum1 >= BASE {
      sum1 := sum1 - BASE;
    }
    if sum1 >= BASE {
      sum1 := sum1 - BASE;
    }
    if sum2 >= BASE * 2 {
      sum2 := sum2 - BASE * 2;
    }
    if sum2 >= BASE {
      sum2 := sum2 - BASE;
    }
    RemainderProduct(len2, x.s1);
    JoinedSums(x, y, len2, rem, m, sum1, sum2);
    Unpacked(sum1, sum2);
    r := Pack(sum1, sum2);
  }

  method Product(rem: Word, sum1: Word) returns (p: Word)
    requires rem < BASE && sum1 < BASE
    ensures p == rem * sum1
  {
    MulLe(rem, BASE - 1, sum1);
    p := rem * sum1;
  }

  lemma RemainderProduct(n: nat, a: nat)
    ensures (n % BASE * a) % BASE == (n * a) % BASE
  {
    assert n == BASE * (n / BASE) + n % BASE;
    assert n * a == BASE * (n / BASE * a) + n % BASE * a;
    MultipleGoes(n / BASE * a, n % BASE * a);
  }

  lemma JoinedSums(x: Sums, y: Sums, n: nat, rem: nat, m: nat, sum1: nat, sum2: nat)
    requires Reduced(x) && Reduced(y) && rem == n % BASE && m == (n * x.s1) % BASE && sum1 < BASE && sum2 < BASE
    requires (sum1 + 1) - (x.s1 + y.s1) in {BASE, 0, -BASE, -2 * BASE}
    requires (sum2 + rem) - (m + x.s2 + y.s2) in {BASE, 0, -BASE, -2 * BASE}
    ensures Joins(x, y, n, Sums(sum1, sum2))
  {
    Nearby(sum1 + 1, x.s1 + y.s1);
    SecondSum(n, n * x.s1, m, rem, x.s2 + y.s2, sum2);
  }

  lemma SecondSum(n: nat, p: nat, m: nat, rem: nat, c: nat, sum2: nat)
    requires rem == n % BASE && m == p % BASE && (sum2 + rem) - (m + c) in {BASE, 0, -BASE, -2 * BASE}
    ensures Rem(sum2 + n) == Rem(c + p)
  {
    Nearby(sum2 + rem, m + c);
    assert Rem(n) == rem && Rem(p) == m;
    hide Rem;
    RemRem(n, sum2);
    RemRem(p, c);
  }

  /** The checksums of two parts give that of the whole, for parts of any length. */
  method CombineParts(adler1: Word, adler2: Word, ghost start: Sums, ghost x: seq<Byte>, ghost y: seq<Byte>,
                      len2: Offset)
    returns (r: Word)
    requires Reduced(start) && Unpack(adler1) == Checksum(start, x)
    requires Unpack(adler2) == Checksum(Sums(1, 0), y) && len2 == |y|
    ensures Unpack(r) == Checksum(start, x + y)
  {
    ChecksumReduced(start, x);
    ChecksumReduced(Sums(1, 0), y);
    r := Combine(adler1, adler2, len2);
    ConcatenationJoins(start, x, y);
    JoinsUnique(Checksum(start, x), Checksum(Sums(1, 0), y), |y|, Unpack(r), Checksum(start, x + y));
  }
}
