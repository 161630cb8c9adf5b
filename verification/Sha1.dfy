/** ma_sha1.c: streaming SHA-1 with a circular 16-word schedule and rotating variable roles. */
module Sha1 {
  import opened Sha1Standard

  lemma ChForm(x: bv32, y: bv32, z: bv32)
    ensures z ^ (x & (y ^ z)) == (x & y) ^ (!x & z)
  {
  }

  lemma MajForm(x: bv32, y: bv32, z: bv32)
    ensures (x & y) | (z & (x | y)) == (x & y) ^ (x & z) ^ (y & z)
  {
  }

  /** The round functions, in forms with fewer operations. */
  function F(x: W32, y: W32, z: W32): (r: W32)
    ensures r == Ch(x, y, z)
  {
    ChForm(x, y, z);
    z ^ (x & (y ^ z))
  }

  function G(x: W32, y: W32, z: W32): (r: W32)
    ensures r == Parity(x, y, z)
  {
    x ^ y ^ z
  }

  function H(x: W32, y: W32, z: W32): (r: W32)
    ensures r == Maj(x, y, z)
  {
    MajForm(x, y, z);
    (x & y) | (z & (x | y))
  }

  /** The rotation of W(i). */
  function Left1(x: W32): (r: W32)
    ensures r == Rotl1(x)
  {
    (x << 1) | (x >> 31)
  }

  /** What a line adds up in `e`. */
  function LineSum(a: W32, f: W32, e: W32, k: W32, w: W32): (r: W32)
    ensures r == Temporary(a, f, e, k, w)
  {
    Left5(a);
    SumOrder(a.RotateLeft(5), f, e, k, w);
    e + (f + w + k) + ((a << 5) | (a >> 27))
  }

  lemma Left5(x: W32)
    ensures (x << 5) | (x >> 27) == x.RotateLeft(5)
  {
  }

  lemma SumOrder(r: W32, f: W32, e: W32, k: W32, w: W32)
    ensures e + (f + w + k) + r == r + f + e + k + w
  {
  }

  /** How a line changes `b`. */
  function Left30(x: W32): (r: W32)
    ensures r == Rotl30(x)
  {
    (x << 30) | (x >> 2)
  }

  // ---- One block ----

  /** Word `lo` to `lo + 15` of the schedule are in the buffer, each at its index modulo 16. */
  ghost predicate Circular(x: seq<W32>, block: seq<Octet>, lo: nat)
    requires |block| == 64
  {
    |x| == 16 && forall i :: lo <= i < lo + 16 ==> x[i % 16] == Schedule(block, i)
  }

  function Oldest(t: nat): nat {
    if t < 16 then 0 else t - 16
  }

  lemma NewWord(x: seq<W32>, block: seq<Octet>, t: nat)
    requires |block| == 64 && t >= 16 && Circular(x, block, t - 16)
    ensures Rotl1(Xor4(x[(t - 3) % 16], x[(t - 8) % 16], x[(t - 14) % 16], x[t % 16])) == Schedule(block, t)
  {
    hide Rotl1, Xor4, WordOf;
    assert t % 16 == (t - 16) % 16;
    Held(x, block, t - 16, t - 3);
    Held(x, block, t - 16, t - 8);
    Held(x, block, t - 16, t - 14);
    Held(x, block, t - 16, t - 16);
    hide Circular;
  }

  lemma Held(x: seq<W32>, block: seq<Octet>, lo: nat, i: nat)
    requires |block| == 64 && Circular(x, block, lo) && lo <= i < lo + 16
    ensures |x| == 16 && x[i % 16] == Schedule(block, i)
  {
    hide Schedule;
  }

  lemma Turned(x: seq<W32>, block: seq<Octet>, t: nat)
    requires |block| == 64 && t >= 16 && Circular(x, block, t - 16)
    ensures Circular(x[t % 16 := Schedule(block, t)], block, t - 15)
  {
    hide Schedule;
    var w := Schedule(block, t);
    forall i | t - 15 <= i < t - 15 + 16 ensures x[t % 16 := w][i % 16] == Schedule(block, i) {
      if i != t { Different(i, t); }
    }
  }

  lemma Different(i: nat, t: nat)
    requires t - 16 < i < t
    ensures i % 16 != t % 16
  {
  }

  /** The schedule word of round `t`, computed in place of the one it no longer needs. */
  method NextWord(x: array<W32>, ghost block: seq<Octet>, t: nat) returns (w: W32)
    requires |block| == 64 && x.Length == 16 && Circular(x[..], block, Oldest(t))
    modifies x
    ensures w == Schedule(block, t) && Circular(x[..], block, Oldest(t + 1))
  {
    hide Rotl1, Xor4, Schedule, Left1;
    if t < 16 {
      w := x[t];
      return;
    }
    var tmp := Xor4(x[(t - 3) % 16], x[(t - 8) % 16], x[(t - 14) % 16], x[t % 16]);
    w := Left1(tmp);
    NewWord(x[..], block, t);
    Turned(x[..], block, t);
    ghost var was := x[..];
    x[t % 16] := w;
    assert x[..] == was[t % 16 := w];
  }

  /** The round function of line `t`: the macro FF, GG, HH or II. */
  function Mix(t: nat, x: W32, y: W32, z: W32): (f: W32)
    ensures f == Choose(t, x, y, z)
  {
    hide F, G, H, Ch, Parity, Maj;
    if t < 20 then F(x, y, z) else if t < 40 then G(x, y, z) else if t < 60 then H(x, y, z) else G(x, y, z)
  }

  /** The constant of that macro. */
  function LineConstant(t: nat): (k: W32)
    ensures k == K(t)
  {
    if t < 20 then 0x5A827999 else if t < 40 then 0x6ED9EBA1 else if t < 60 then 0x8F1BBCDC else 0xCA62C1D6
  }

  /** One line of the unrolled rounds: changes `e` and `b` only. */
  method Line(t: nat, a: W32, b: W32, c: W32, d: W32, e: W32, x: array<W32>, ghost block: seq<Octet>)
    returns (e': W32, b': W32)
    requires |block| == 64 && x.Length == 16 && Circular(x[..], block, Oldest(t))
    modifies x
    ensures Circular(x[..], block, Oldest(t + 1))
    ensures Round(Hash(a, b, c, d, e), t, Schedule(block, t)) == Hash(e', a, b', c, d)
  {
    hide Circular, Schedule, Choose, Mix, K, LineConstant, LineSum, Left30, Temporary, Rotl30;
    var w := NextWord(x, block, t);
    e' := LineSum(a, Mix(t, b, c, d), e, LineConstant(t), w);
    b' := Left30(b);
  }

  lemma FirstWord(block: seq<Octet>, i: nat)
    requires |block| == 64 && i < 16
    ensures Schedule(block, i) == WordOf(block[4 * i..4 * i + 4])
  {
    hide WordOf;
  }

  /** ma_SHA1Decode: words from octets, most significant first. */
  method Decode(block: seq<Octet>) returns (x: array<W32>)
    requires |block| == 64
    ensures fresh(x) && x.Length == 16 && Circular(x[..], block, 0)
  {
    hide Schedule, WordOf;
    x := new W32[16];
    for i := 0 to 16
      invariant forall k :: 0 <= k < i ==> x[k] == Schedule(block, k)
    {
      FirstWord(block, i);
      x[i] := WordOf(block[4 * i..4 * i + 4]);
    }
  }

  lemma OneMore(block: seq<Octet>, h: Hash, t: nat, v: Hash)
    requires |block| == 64 && Rounds(block, h, t) == v
    ensures Rounds(block, h, t + 1) == Round(v, t, Schedule(block, t))
  {
  }

  lemma CompressIs(h: Hash, block: seq<Octet>, t: nat, v: Hash)
    requires |block| == 64 && t == 80 && Rounds(block, h, t) == v
    ensures Compress(h, block) == AddHash(h, v)
  {
    hide Rounds, AddHash;
  }

  /** ma_SHA1Transform. The eighty lines repeat every five with the same roles. */
  method Transform(h: Hash, block: seq<Octet>) returns (h': Hash)
    requires |block| == 64
    ensures h' == Compress(h, block)
  {
    hide *;
    var x := Decode(block);
    var a, b, c, d, e := h.a, h.b, h.c, h.d, h.e;
    Start(block, h);
    for r := 0 to 16
      invariant Circular(x[..], block, Oldest(5 * r))
      invariant Rounds(block, h, 5 * r) == Hash(a, b, c, d, e)
    {
      var t := 5 * r;
      OneMore(block, h, t, Hash(a, b, c, d, e));
      e, b := Line(t, a, b, c, d, e, x, block);
      OneMore(block, h, t + 1, Hash(e, a, b, c, d));
      d, a := Line(t + 1, e, a, b, c, d, x, block);
      OneMore(block, h, t + 2, Hash(d, e, a, b, c));
      c, e := Line(t + 2, d, e, a, b, c, x, block);
      OneMore(block, h, t + 3, Hash(c, d, e, a, b));
      b, d := Line(t + 3, c, d, e, a, b, x, block);
      OneMore(block, h, t + 4, Hash(b, c, d, e, a));
      a, c := Line(t + 4, b, c, d, e, a, x, block);
    }
    CompressIs(h, block, 80, Hash(a, b, c, d, e));
    h' := AddHash(h, Hash(a, b, c, d, e));
  }

  lemma Start(block: seq<Octet>, h: Hash)
    requires |block| == 64
    ensures Rounds(block, h, 0) == h && Oldest(0) == 0
  {
  }

  // ---- Streaming ----

  ghost function Whole(message: seq<Octet>): (w: seq<Octet>)
    ensures |w| % 64 == 0
  {
    message[..|message| / 64 * 64]
  }

  ghost function Tail(message: seq<Octet>): (t: seq<Octet>)
    ensures |t| == |message| % 64
  {
    message[|message| / 64 * 64..]
  }

  lemma LowHigh(n: nat)
    ensures 8 * n == n * 8 % 0x1_0000_0000 + 0x1_0000_0000 * (n / 0x2000_0000)
  {
  }

  lemma CountAdds(c0: nat, c1: nat, n: nat, low: nat)
    requires c0 < 0x1_0000_0000 && c1 < 0x1_0000_0000 && n < 0x1_0000_0000 && low == n * 8 % 0x1_0000_0000
    ensures var d0 := (c0 + low) % 0x1_0000_0000;
      var mid := if d0 < low then (c1 + 1) % 0x1_0000_0000 else c1;
      d0 + 0x1_0000_0000 * ((mid + n / 0x2000_0000) % 0x1_0000_0000)
        == (c0 + 0x1_0000_0000 * c1 + 8 * n) % 0x1_0000_0000_0000_0000
  {
    var high := n / 0x2000_0000;
    LowHigh(n);
    var d0, carry := (c0 + low) % 0x1_0000_0000, (c0 + low) / 0x1_0000_0000;
    assert c0 + low == d0 + 0x1_0000_0000 * carry && carry <= 1 && (carry == 1 <==> d0 < low);
    Wrap(d0, c1 + carry + high);
  }

  lemma Wrap(d0: nat, c: nat)
    requires d0 < 0x1_0000_0000
    ensures d0 + 0x1_0000_0000 * (c % 0x1_0000_0000) == (d0 + 0x1_0000_0000 * c) % 0x1_0000_0000_0000_0000
  {
  }

  /** The number of bits in `n` octets, modulo 2^64, in two 32-bit words. */
  ghost predicate Counted(c0: nat, c1: nat, n: nat) {
    && c0 < 0x1_0000_0000 && c1 < 0x1_0000_0000
    && c0 + 0x1_0000_0000 * c1 == 8 * n % 0x1_0000_0000_0000_0000
  }

  /** The fill of the buffer, as the bit counter gives it. */
  lemma FillOf(c0: nat, c1: nat, n: nat)
    requires Counted(c0, c1, n)
    ensures c0 / 8 % 64 == n % 64
  {
    var j := 0x80_0000_0000_0000 * (8 * n / 0x1_0000_0000_0000_0000) + 0x80_0000 * c1;
    assert c0 == 8 * (n - 64 * j);
    SameFill(n - 64 * j, n, j);
  }

  lemma SameFill(m: int, n: int, j: int)
    requires m == n - 64 * j
    ensures m % 64 == n % 64
  {
  }

  lemma Joined(message: seq<Octet>, input: seq<Octet>, p: nat, n: nat)
    requires p <= |message| && n <= |input|
    ensures (message + input)[..p] == message[..p] && (message + input)[p..] == message[p..] + input
    ensures (message + input)[p..|message| + n] == message[p..] + input[..n]
    ensures (message + input)[|message| + n..] == input[n..]
  {
  }

  lemma CountedMore(c: nat, n: nat, m: nat)
    requires c == 8 * n % 0x1_0000_0000_0000_0000
    ensures (c + 8 * m) % 0x1_0000_0000_0000_0000 == 8 * (n + m) % 0x1_0000_0000_0000_0000
  {
  }

  /** `h` is the hash of the whole blocks of `message`, and the buffer starts with the rest. */
  ghost predicate Covers(h: Hash, buffer: seq<Octet>, message: seq<Octet>) {
    && |buffer| == 64 && h == HashBlocks(H0, Whole(message)) && buffer[..|message| % 64] == Tail(message)
  }

  lemma Covered(h: Hash, buffer: seq<Octet>, message: seq<Octet>)
    requires Covers(h, buffer, message)
    ensures var fill := |message| % 64; var p := |message| - fill;
      |buffer| == 64 && p % 64 == 0 && h == HashBlocks(H0, message[..p]) && buffer[..fill] == message[p..]
  {
    hide HashBlocks;
    Ends(message, |message| - |message| % 64);
  }

  lemma CoversUpTo(h: Hash, buffer: seq<Octet>, message: seq<Octet>, p: nat)
    requires p % 64 == 0 && p <= |message| < p + 64 && |buffer| == 64
    requires h == HashBlocks(H0, message[..p]) && buffer[..|message| - p] == message[p..]
    ensures Covers(h, buffer, message)
  {
    hide HashBlocks;
    Ends(message, p);
  }

  lemma NextBlock(data: seq<Octet>, p: nat)
    requires p % 64 == 0 && p + 64 <= |data|
    ensures HashBlocks(H0, data[..p + 64]) == Compress(HashBlocks(H0, data[..p]), data[p..p + 64])
  {
    hide Compress;
    assert data[..p + 64][..p] == data[..p] && data[..p + 64][p..] == data[p..p + 64];
  }

  /** Where the whole blocks of a stream end. */
  lemma Ends(data: seq<Octet>, p: nat)
    requires p % 64 == 0 && p <= |data| < p + 64
    ensures Whole(data) == data[..p] && Tail(data) == data[p..] && |data| % 64 == |data| - p
  {
    assert |data| / 64 * 64 == p;
  }

  class Context {
    var state: Hash
    var count0: nat
    var count1: nat
    const buffer: array<Octet>
    ghost var message: seq<Octet>

    /** The state covers all whole blocks of what was seen, the buffer holds the rest, and the
        two counters hold the number of bits modulo 2^64. */
    ghost predicate Valid()
      reads this, buffer
    {
      buffer.Length == 64 && Covers(state, buffer[..], message) && Counted(count0, count1, |message|)
    }

    constructor ()
      ensures Valid() && message == [] && fresh(buffer)
    {
      buffer := new Octet[64];
      new;
      Init();
    }

    /** ma_SHA1Init. */
    method Init()
      requires buffer.Length == 64
      modifies this
      ensures Valid() && message == []
    {
      count0, count1, message := 0, 0, [];
      state := Hash(0x67452301, 0xefcdab89, 0x98badcfe, 0x10325476, 0xc3d2e1f0);
    }

    /** The bit counters, with the carries of 32-bit arithmetic. */
    method Count(n: nat)
      requires Counted(count0, count1, |message|) && n < 0x1_0000_0000
      modifies `count0, `count1
      ensures Counted(count0, count1, |message| + n)
    {
      CountedMore(count0 + 0x1_0000_0000 * count1, |message|, n);
      var low := n * 8 % 0x1_0000_0000;
      CountAdds(count0, count1, n, low);
      count0 := (count0 + low) % 0x1_0000_0000;
      if count0 < low {
        count1 := (count1 + 1) % 0x1_0000_0000;
      }
      count1 := (count1 + n / 0x2000_0000) % 0x1_0000_0000;
    }

    /** The copy into the buffer. */
    method Keep(at: nat, bytes: seq<Octet>)
      requires at + |bytes| <= buffer.Length
      modifies buffer
      ensures buffer[..at + |bytes|] == old(buffer[..at]) + bytes
    {
      forall i | 0 <= i < |bytes| {
        buffer[at + i] := bytes[i];
      }
    }

    /** ma_SHA1Update: hashing goes on as if the bytes had been part of the message all along.
        The index of the block loop is a 32-bit number, hence the bound on the input. */
    method Update(input: seq<Octet>)
      requires Valid() && |input| <= 0xFFFF_FFC0
      modifies this, buffer
      ensures Valid() && message == old(message) + input
    {
      hide HashBlocks, Compress, Covers, Counted, WordOf;
      ghost var whole, p := message + input, |message| - |message| % 64;
      FillOf(count0, count1, |message|);
      Covered(state, buffer[..], message);
      var index := count0 / 8 % 64;
      var i, partLen := 0, 64 - index;
      Joined(message, input, p, if |input| >= partLen then partLen else 0);
      Count(|input|);
      if |input| >= partLen {
        Keep(index, input[..partLen]);
        assert buffer[..] == buffer[..index + partLen];
        NextBlock(whole, p);
        state := Transform(state, buffer[..]);
        i, p := Blocks(input, partLen, whole, p + 64);
        index := 0;
      }
      KeepRest(index, input[i..], whole, p);
      message := whole;
    }

    method KeepRest(index: nat, rest: seq<Octet>, ghost whole: seq<Octet>, ghost p: nat)
      requires buffer.Length == 64 && p % 64 == 0 && p <= |whole| < p + 64 && state == HashBlocks(H0, whole[..p])
      requires index + |rest| < 64 && buffer[..index] + rest == whole[p..]
      modifies buffer
      ensures Covers(state, buffer[..], whole)
    {
      hide HashBlocks, Covers;
      Keep(index, rest);
      assert buffer[..][..index + |rest|] == buffer[..index + |rest|];
      CoversUpTo(state, buffer[..], whole, p);
    }

    /** The whole blocks of the input. */
    method Blocks(input: seq<Octet>, start: nat, ghost whole: seq<Octet>, ghost from: nat)
      returns (i: nat, ghost p: nat)
      requires from % 64 == 0 && start <= |input| <= 0xFFFF_FFC0 && from <= |whole| && input[start..] == whole[from..]
      requires state == HashBlocks(H0, whole[..from])
      modifies `state
      ensures p % 64 == 0 && i <= |input| < i + 64 && p <= |whole| && input[i..] == whole[p..]
      ensures state == HashBlocks(H0, whole[..p])
    {
      hide HashBlocks, Compress, WordOf;
      i, p := start, from;
      while i + 63 < |input|
        invariant i <= |input| && p <= |whole| && p % 64 == 0 && input[i..] == whole[p..]
        invariant state == HashBlocks(H0, whole[..p])
      {
        assert input[i..i + 64] == input[i..][..64] == whole[p..][..64] == whole[p..p + 64];
        NextBlock(whole, p);
        state := Transform(state, input[i..i + 64]);
        assert input[i + 64..] == input[i..][64..] == whole[p..][64..] == whole[p + 64..];
        i, p := i + 64, p + 64;
      }
    }

    /** ma_SHA1Final: the padding and the length are hashed like message bytes, then the context
        is wiped. */
    method Final() returns (digest: array<Octet>)
      requires Valid() && 8 * |message| < 0x1_0000_0000_0000_0000
      modifies this, buffer
      ensures fresh(digest) && digest[..] == Digest(old(message))
      ensures state == Hash(0, 0, 0, 0, 0) && count0 == count1 == 0 && buffer[..] == Zeros(64)
    {
      hide HashBlocks, Compress, Covers, Counted, WordOf, OctetsOf, OctetOf, Bits64;
      ghost var m := message;
      BitsOf(count0, count1, |message|);
      FillOf(count0, count1, |message|);
      var bits := [OctetOf(count1 / 0x100_0000), OctetOf(count1 / 0x1_0000), OctetOf(count1 / 0x100), OctetOf(count1),
                   OctetOf(count0 / 0x100_0000), OctetOf(count0 / 0x1_0000), OctetOf(count0 / 0x100), OctetOf(count0)];
      var index := count0 / 8 % 64;
      var padLen := if index < 56 then 56 - index else 120 - index;
      PadIs(m, padLen, bits);
      Update(([0x80] + Zeros(63))[..padLen]);
      Update(bits);
      assert message == Pad(m);
      Covered(state, buffer[..], message);
      assert message[..|message|] == message;
      digest := Encode(state);
      state, count0, count1, message := Hash(0, 0, 0, 0, 0), 0, 0, [];
      forall i | 0 <= i < 64 {
        buffer[i] := 0;
      }
    }
  }

  ghost function Concat(pieces: seq<seq<Octet>>): seq<Octet> {
    if pieces == [] then [] else Concat(pieces[..|pieces| - 1]) + pieces[|pieces| - 1]
  }

  /** However a message is cut into updates, the digest is that of the whole message. */
  method HashPieces(pieces: seq<seq<Octet>>) returns (digest: array<Octet>)
    requires forall i :: 0 <= i < |pieces| ==> |pieces[i]| <= 0xFFFF_FFC0
    requires 8 * |Concat(pieces)| < 0x1_0000_0000_0000_0000
    ensures digest[..] == Digest(Concat(pieces))
  {
    var context := new Context();
    for i := 0 to |pieces|
      invariant fresh(context) && fresh(context.buffer) && context.Valid() && context.message == Concat(pieces[..i])
    {
      context.Update(pieces[i]);
      assert pieces[..i + 1][..i] == pieces[..i];
    }
    assert pieces[..|pieces|] == pieces;
    digest := context.Final();
  }

  /** The two counters spell out the length. */
  lemma BitsOf(c0: nat, c1: nat, n: nat)
    requires Counted(c0, c1, n) && 8 * n < 0x1_0000_0000_0000_0000
    ensures [OctetOf(c1 / 0x100_0000), OctetOf(c1 / 0x1_0000), OctetOf(c1 / 0x100), OctetOf(c1),
             OctetOf(c0 / 0x100_0000), OctetOf(c0 / 0x1_0000), OctetOf(c0 / 0x100), OctetOf(c0)] == Bits64(8 * n)
  {
    hide OctetOf;
    var bits := 8 * n;
    assert bits == c0 + 0x1_0000_0000 * c1;
    assert bits / 0x1_0000_0000 == c1 && bits / 0x100_0000_0000 == c1 / 0x100;
    assert bits / 0x1_0000_0000_0000 == c1 / 0x1_0000 && bits / 0x100_0000_0000_0000 == c1 / 0x100_0000;
    SameOctet(bits, c0, 0x100_0000 * c1);
    SameOctet(bits / 0x100, c0 / 0x100, 0x1_0000 * c1);
    SameOctet(bits / 0x1_0000, c0 / 0x1_0000, 0x100 * c1);
    SameOctet(bits / 0x100_0000, c0 / 0x100_0000, c1);
  }

  lemma SameOctet(x: nat, y: nat, k: nat)
    requires x == y + 0x100 * k
    ensures OctetOf(x) == OctetOf(y)
  {
    SameLow(x, y, k);
  }

  lemma SameLow(x: nat, y: nat, k: nat)
    requires x == y + 0x100 * k
    ensures x % 0x100 == y % 0x100
  {
  }

  /** The padding with zeros up to 56 modulo 64 is the one with the fewest zeros. */
  lemma PadIs(m: seq<Octet>, padLen: nat, bits: seq<Octet>)
    requires padLen == if |m| % 64 < 56 then 56 - |m| % 64 else 120 - |m| % 64
    requires bits == Bits64(8 * |m|)
    ensures padLen <= 64 && m + ([0x80] + Zeros(63))[..padLen] + bits == Pad(m)
  {
    var z := (119 - |m| % 64) % 64;
    assert padLen == z + 1;
    var pad: seq<Octet> := [0x80] + Zeros(63);
    assert pad[..padLen] == [0x80] + Zeros(z);
    assert m + pad[..padLen] == m + [0x80] + Zeros(z);
  }

  /** ma_SHA1Encode: octets from words, most significant first. */
  method Encode(h: Hash) returns (output: array<Octet>)
    ensures fresh(output) && output[..] == OctetsOf(h.a) + OctetsOf(h.b) + OctetsOf(h.c) + OctetsOf(h.d) + OctetsOf(h.e)
  {
    hide OctetsOf;
    var input := [h.a, h.b, h.c, h.d, h.e];
    output := new Octet[20];
    for i := 0 to 5
      invariant output[..4 * i] == Encoded(input[..i])
    {
      PutWord(output, 4 * i, input[i]);
      assert input[..i + 1][..i] == input[..i];
    }
    AllFive(h);
    assert input[..5] == input && output[..] == output[..20];
  }

  method PutWord(output: array<Octet>, j: nat, w: W32)
    requires j + 4 <= output.Length
    modifies output
    ensures output[..j + 4] == old(output[..j]) + OctetsOf(w)
  {
    hide OctetsOf;
    var o := OctetsOf(w);
    output[j], output[j + 1], output[j + 2], output[j + 3] := o[0], o[1], o[2], o[3];
    assert output[..j + 4] == old(output[..j]) + [o[0], o[1], o[2], o[3]];
  }

  ghost function Encoded(words: seq<W32>): seq<Octet> {
    if words == [] then [] else Encoded(words[..|words| - 1]) + OctetsOf(words[|words| - 1])
  }

  lemma AllFive(h: Hash)
    ensures Encoded([h.a, h.b, h.c, h.d, h.e])
         == OctetsOf(h.a) + OctetsOf(h.b) + OctetsOf(h.c) + OctetsOf(h.d) + OctetsOf(h.e)
  {
    hide OctetsOf;
    var w := [h.a, h.b, h.c, h.d, h.e];
    assert w[..4] == [h.a, h.b, h.c, h.d] && w[..4][..3] == [h.a, h.b, h.c] && [h.a, h.b, h.c][..2] == [h.a, h.b];
    assert [h.a, h.b][..1] == [h.a] && [h.a][..0] == [];
    assert Encoded([h.a]) == OctetsOf(h.a);
    assert Encoded([h.a, h.b]) == Encoded([h.a]) + OctetsOf(h.b);
    assert Encoded([h.a, h.b, h.c]) == Encoded([h.a, h.b]) + OctetsOf(h.c);
  }
}
