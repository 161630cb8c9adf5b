/** Home slots of a linear hash table: which slot a hash value belongs to when the
    table has `records` slots and `blength` is the power of two above them. */
module HashMask {
  import opened Arith

  ghost predicate IsPow2(b: nat) {
    b == 1 || (b > 1 && b % 2 == 0 && IsPow2(b / 2))
  }

  /** The table's size law: `blength` is the power of two just above `records`. */
  ghost predicate Sized(blength: nat, records: nat) {
    IsPow2(blength) && blength / 2 <= records < blength
  }

  /** Between a power of two and its double there is no other. */
  lemma {:induction false} NextPow2(b: nat, c: nat)
    requires IsPow2(b) && IsPow2(c) && c <= b < 2 * c
    ensures b == c
  {
    if b > 1 && c > 1 { NextPow2(b / 2, c / 2); }
  }

  /** Doubled in 32 bits, the length wraps to 0 exactly at 2^31 records. */
  lemma SizedWraps(blength: nat, records: nat)
    requires Sized(blength, records) && records < 0x8000_0000
    ensures (if records + 1 == blength then (blength + blength) % 0x1_0000_0000 else blength) == 0
       <==> records + 1 == 0x8000_0000
  {
    if records + 1 == 0x8000_0000 {
      assert IsPow2(0x1_0000);
      assert IsPow2(0x8000_0000);
      NextPow2(blength, 0x8000_0000);
    }
  }

  /** `buffmax` is always a power of two, so masking with `buffmax - 1` is a remainder.
      With `buffmax == 1` the second mask is all ones. */
  function Mask(hash: nat, buffmax: nat, maxlength: nat): nat
    requires buffmax > 0
  {
    if hash % buffmax < maxlength then hash % buffmax
    else if buffmax / 2 == 0 then hash
    else hash % (buffmax / 2)
  }

  /** Bit `half` of the hash, for a power of two `half`. */
  predicate HalfBit(hash: nat, half: nat)
    requires half > 0
  {
    hash / half % 2 == 1
  }

  lemma ModDouble(hash: nat, half: nat)
    requires half > 0
    ensures hash % (2 * half) == hash % half + (if HalfBit(hash, half) then half else 0)
  {
    var q, r := hash / half, hash % half;
    var q2, b := q / 2, q % 2;
    assert hash == half * q + r;
    assert q == 2 * q2 + b;
    assert hash == (2 * half) * q2 + (half * b + r) by {
      assert half * q == half * (2 * q2) + half * b;
      assert half * (2 * q2) == (2 * half) * q2;
    }
    assert 0 <= half * b + r < 2 * half by { assert b == 0 || b == 1; }
    DivModUnique(hash, 2 * half, q2, half * b + r);
  }

  /** A home slot is always a slot of the table. */
  lemma MaskBound(hash: nat, blength: nat, records: nat)
    requires Sized(blength, records) && records > 0
    ensures Mask(hash, blength, records) < records
  {
  }

  /** Adding slot `records` takes from slot `records - blength / 2` exactly the hashes
      whose half bit is set, and moves no other hash. */
  lemma MaskGrow(hash: nat, blength: nat, records: nat)
    requires Sized(blength, records) && records > 0
    ensures var low := records - blength / 2;
            0 <= low < records &&
            Mask(hash, blength, records + 1) ==
              if Mask(hash, blength, records) == low && HalfBit(hash, blength / 2) then records
              else Mask(hash, blength, records)
  {
    assert blength > 1;
    ModDouble(hash, blength / 2);
  }

  /** Doubling `blength` once every slot is in use moves nothing. */
  lemma MaskDouble(hash: nat, blength: nat)
    requires blength > 0
    ensures Mask(hash, 2 * blength, blength) == Mask(hash, blength, blength)
  {
    ModDouble(hash, blength);
  }

  lemma SizedGrow(blength: nat, records: nat)
    requires Sized(blength, records)
    ensures if records + 1 == blength then Sized(2 * blength, records + 1) else Sized(blength, records + 1)
  {
  }

  lemma SizedShrink(blength: nat, records: nat)
    requires Sized(blength, records) && records > 0
    ensures Sized(ShrunkLength(blength, records), records - 1)
  {
  }

  /** So is a home slot once the next record has a slot. */
  lemma MaskBoundNext(hash: nat, blength: nat, records: nat)
    requires Sized(blength, records)
    ensures Mask(hash, blength, records + 1) < records + 1
  {
    if records > 0 { MaskBound(hash, blength, records); MaskGrow(hash, blength, records); }
  }

  /** `blength` after one record less. */
  function ShrunkLength(blength: nat, records: nat): nat {
    if records - 1 < blength / 2 then blength / 2 else blength
  }

  /** Removing slot `n - 1` sends exactly its home's hashes to slot `n - 1 - b' / 2`. */
  lemma MaskShrink(hash: nat, b: nat, n: nat)
    requires Sized(b, n) && n > 1
    ensures var b' := ShrunkLength(b, n);
            Sized(b', n - 1) && 0 <= n - 1 - b' / 2 < n - 1 &&
            Mask(hash, b', n - 1) == if Mask(hash, b, n) == n - 1 then n - 1 - b' / 2 else Mask(hash, b, n)
  {
    var b' := ShrunkLength(b, n);
    SizedShrink(b, n);
    MaskGrow(hash, b', n - 1);
    if b' != b {
      MaskDouble(hash, b');
    }
    MaskBound(hash, b', n - 1);
  }
}
