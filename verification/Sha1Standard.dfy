/** SHA-1 as FIPS 180-4 defines it: functions and constants (sections 4.1.1 and 4.2.1), padding
    (5.1.1), the initial value (5.3.1) and the computation with the 80-word schedule (6.1.2). */
module Sha1Standard {
  import opened Arith

  type Octet = bv8
  type W32 = bv32

  datatype Hash = Hash(a: W32, b: W32, c: W32, d: W32, e: W32)

  const ROUNDS: nat := 80
  const H0 := Hash(0x67452301, 0xefcdab89, 0x98badcfe, 0x10325476, 0xc3d2e1f0)

  function Ch(x: W32, y: W32, z: W32): W32 { (x & y) ^ (!x & z) }
  function Parity(x: W32, y: W32, z: W32): W32 { x ^ y ^ z }
  function Maj(x: W32, y: W32, z: W32): W32 { (x & y) ^ (x & z) ^ (y & z) }

  function Choose(t: nat, x: W32, y: W32, z: W32): W32 {
    if t < 20 then Ch(x, y, z) else if t < 40 then Parity(x, y, z) else if t < 60 then Maj(x, y, z) else Parity(x, y, z)
  }

  function K(t: nat): W32 {
    if t < 20 then 0x5A827999 else if t < 40 then 0x6ED9EBA1 else if t < 60 then 0x8F1BBCDC else 0xCA62C1D6
  }

  /** The constants are the square roots of 2, 3, 5 and 10 with thirty bits behind the point. */
  lemma KIsRoot(t: nat)
    requires t < ROUNDS
    ensures var (k, square) := (K(t) as int, if t < 20 then 2 else if t < 40 then 3 else if t < 60 then 5 else 10);
      k * k <= square * 0x1000_0000_0000_0000 < (k + 1) * (k + 1)
  {
  }

  /** Lowest octets first, the initial words read 01 23 45 67 89 ab cd ef, fe dc ba 98 76 54 32 10
      and f0 e1 d2 c3. */
  lemma InitialOctets(i: nat)
    requires i < 4
    ensures OctetsOf(H0.a)[3 - i] as int == 0x01 + 0x22 * i && OctetsOf(H0.b)[3 - i] as int == 0x89 + 0x22 * i
    ensures OctetsOf(H0.c)[3 - i] as int == 0xfe - 0x22 * i && OctetsOf(H0.d)[3 - i] as int == 0x76 - 0x22 * i
    ensures OctetsOf(H0.e)[3 - i] as int == 0xf0 - 0x0f * i
  {
  }

  /** Words and octets, most significant first. */
  lemma OctetOrder(w: W32)
    ensures WordOf(OctetsOf(w)) == w && OctetsOf(0x01020304) == [1, 2, 3, 4]
  {
  }

  /** Four octets, most significant first. */
  function WordOf(s: seq<Octet>): W32
    requires |s| >= 4
  {
    ((s[0] as W32) << 24) | ((s[1] as W32) << 16) | ((s[2] as W32) << 8) | (s[3] as W32)
  }

  function Xor4(x: W32, y: W32, z: W32, w: W32): W32 {
    x ^ y ^ z ^ w
  }

  function Rotl1(x: W32): W32 {
    x.RotateLeft(1)
  }

  /** Word `t` of the message schedule of a 64-octet block. */
  ghost function Schedule(block: seq<Octet>, t: nat): W32
    requires |block| == 64
  {
    if t < 16 then
      WordOf(block[4 * t..4 * t + 4])
    else
      Rotl1(Xor4(Schedule(block, t - 3), Schedule(block, t - 8), Schedule(block, t - 14), Schedule(block, t - 16)))
  }

  function Temporary(a: W32, f: W32, e: W32, k: W32, w: W32): W32 {
    a.RotateLeft(5) + f + e + k + w
  }

  function Rotl30(x: W32): W32 {
    x.RotateLeft(30)
  }

  ghost function Round(h: Hash, t: nat, w: W32): Hash {
    Hash(Temporary(h.a, Choose(t, h.b, h.c, h.d), h.e, K(t), w), h.a, Rotl30(h.b), h.c, h.d)
  }

  /** The working variables after `t` rounds. */
  ghost function Rounds(block: seq<Octet>, h: Hash, t: nat): Hash
    requires |block| == 64
  {
    if t == 0 then h else Round(Rounds(block, h, t - 1), t - 1, Schedule(block, t - 1))
  }

  function AddHash(h: Hash, v: Hash): Hash {
    Hash(h.a + v.a, h.b + v.b, h.c + v.c, h.d + v.d, h.e + v.e)
  }

  ghost function Compress(h: Hash, block: seq<Octet>): Hash
    requires |block| == 64
  {
    AddHash(h, Rounds(block, h, ROUNDS))
  }

  /** All blocks in order. */
  ghost function HashBlocks(h: Hash, data: seq<Octet>): Hash
    requires |data| % 64 == 0
  {
    if data == [] then h else Compress(HashBlocks(h, data[..|data| - 64]), data[|data| - 64..])
  }

  function Zeros(n: nat): (z: seq<Octet>)
    ensures |z| == n && forall i :: 0 <= i < n ==> z[i] == 0
  {
    seq(n, _ => 0)
  }

  function OctetOf(n: nat): Octet {
    (n % 256) as Octet
  }

  /** A 64-bit number, most significant octet first. */
  function Bits64(n: nat): (s: seq<Octet>)
    ensures |s| == 8
  {
    [OctetOf(n / 0x100_0000_0000_0000), OctetOf(n / 0x1_0000_0000_0000), OctetOf(n / 0x100_0000_0000),
     OctetOf(n / 0x1_0000_0000), OctetOf(n / 0x100_0000), OctetOf(n / 0x1_0000), OctetOf(n / 0x100), OctetOf(n)]
  }

  /** The length is written with its highest octet first. */
  lemma LengthOctet(n: nat, i: nat)
    requires i < 8
    ensures Bits64(n)[7 - i] == (n / Exp(256, i) % 256) as Octet
  {
    hide *;
    OctetAt(n, i);
    OctetIs(n / Exp(256, i));
  }

  lemma OctetAt(n: nat, i: nat)
    requires i < 8
    ensures Bits64(n)[7 - i] == OctetOf(n / Exp(256, i))
  {
    Powers256();
    hide Exp, OctetOf;
  }

  lemma OctetIs(n: nat)
    ensures OctetOf(n) == (n % 256) as Octet
  {
  }

  lemma Powers256()
    ensures Exp(256, 0) == 1 && Exp(256, 1) == 0x100 && Exp(256, 2) == 0x1_0000 && Exp(256, 3) == 0x100_0000
    ensures Exp(256, 4) == 0x1_0000_0000 && Exp(256, 5) == 0x100_0000_0000
    ensures Exp(256, 6) == 0x1_0000_0000_0000 && Exp(256, 7) == 0x100_0000_0000_0000
  {
    assert Exp(256, 1) == 256;
    ExpAdd(256, 1, 1);
    ExpAdd(256, 2, 1);
    ExpAdd(256, 2, 2);
    ExpAdd(256, 4, 1);
    ExpAdd(256, 4, 2);
    ExpAdd(256, 6, 1);
  }

  lemma PadLength(n: nat)
    ensures (n + 1 + (119 - n % 64) % 64 + 8) % 64 == 0
  {
  }

  /** A 1 bit, the fewest zero bits, and the length in bits. */
  function Pad(message: seq<Octet>): (padded: seq<Octet>)
    ensures |padded| % 64 == 0
  {
    PadLength(|message|);
    message + [0x80] + Zeros((119 - |message| % 64) % 64) + Bits64(8 * |message|)
  }

  function OctetsOf(w: W32): (s: seq<Octet>)
    ensures |s| == 4
  {
    [(w >> 24) as Octet, ((w >> 16) & 0xff) as Octet, ((w >> 8) & 0xff) as Octet, (w & 0xff) as Octet]
  }

  ghost function Digest(message: seq<Octet>): seq<Octet> {
    var h := HashBlocks(H0, Pad(message));
    OctetsOf(h.a) + OctetsOf(h.b) + OctetsOf(h.c) + OctetsOf(h.d) + OctetsOf(h.e)
  }
}
