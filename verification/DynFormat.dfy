/** The packed format of dynamic columns: a fixed header, entries of equal size sorted by key, the
    pool of names, and the data. Numeric records have 16-bit keys, named records offsets of names. */
module DynFormat {
  import opened Arith
  import opened Basics
  import opened DynCodec
  import opened DynValues

  const UINT_MAX16: nat := 0xFFFF
  const MAX_NAME_LENGTH: nat := 16383
  const WORD64: nat := 0x1_0000_0000_0000_0000

  datatype Key = Num(number: nat) | Name(text: seq<Byte>)
  datatype Column = Column(key: Key, typ: nat, data: seq<Byte>)

  // ---- Order of keys ----

  function Memcmp(a: seq<Byte>, b: seq<Byte>): int
    requires |a| == |b|
  {
    if a == [] then 0 else if a[0] != b[0] then (a[0] as int) - (b[0] as int) else Memcmp(a[1..], b[1..])
  }

  /** Numbers by size, names by length and then by bytes. */
  function Cmp(a: Key, b: Key): int {
    match (a, b)
    case (Num(m), Num(n)) => m - n
    case (Name(s), Name(t)) => if |s| > |t| then 1 else if |s| < |t| then -1 else Memcmp(s, t)
    case (Num(_), Name(_)) => -1
    case (Name(_), Num(_)) => 1
  }

  lemma {:induction false} MemcmpOrder(a: seq<Byte>, b: seq<Byte>, c: seq<Byte>)
    requires |a| == |b| == |c|
    ensures Memcmp(a, b) == 0 <==> a == b
    ensures Memcmp(a, b) > 0 <==> Memcmp(b, a) < 0
    ensures Memcmp(a, b) <= 0 && Memcmp(b, c) < 0 ==> Memcmp(a, c) < 0
    ensures Memcmp(a, b) < 0 && Memcmp(b, c) <= 0 ==> Memcmp(a, c) < 0
  {
    if a != [] {
      MemcmpOrder(a[1..], b[1..], c[1..]);
      assert a == [a[0]] + a[1..] && b == [b[0]] + b[1..];
    }
  }

  /** A total order in which only equal keys compare equal. */
  lemma CmpOrder(a: Key, b: Key, c: Key)
    ensures Cmp(a, b) == 0 <==> a == b
    ensures Cmp(a, b) > 0 <==> Cmp(b, a) < 0
    ensures Cmp(a, b) <= 0 && Cmp(b, c) < 0 ==> Cmp(a, c) < 0
    ensures Cmp(a, b) < 0 && Cmp(b, c) <= 0 ==> Cmp(a, c) < 0
  {
    if a.Name? && b.Name? && |a.text| == |b.text| {
      if c.Name? && |c.text| == |a.text| {
        MemcmpOrder(a.text, b.text, c.text);
      } else {
        MemcmpOrder(a.text, b.text, a.text);
      }
    }
  }

  lemma {:induction false} MemcmpFirst(a: seq<Byte>, b: seq<Byte>, k: nat)
    requires k < |a| == |b| && a[..k] == b[..k] && a[k] != b[k]
    ensures Memcmp(a, b) == (a[k] as int) - (b[k] as int)
  {
    if k > 0 {
      assert a[0] == a[..k][0] == b[..k][0] == b[0];
      assert a[1..][..k - 1] == a[..k][1..] && b[1..][..k - 1] == b[..k][1..];
      MemcmpFirst(a[1..], b[1..], k - 1);
    }
  }

  /** Smaller numbers come first, then shorter names, then the smaller byte where two names first
      differ. */
  lemma CmpMeans(m: nat, n: nat, s: seq<Byte>, t: seq<Byte>, k: nat)
    ensures m < n ==> Cmp(Num(m), Num(n)) < 0
    ensures |s| < |t| ==> Cmp(Name(s), Name(t)) < 0
    ensures k < |s| == |t| && s[..k] == t[..k] && s[k] < t[k] ==> Cmp(Name(s), Name(t)) < 0
  {
    if k < |s| == |t| && s[..k] == t[..k] && s[k] < t[k] { MemcmpFirst(s, t, k); }
  }

  // ---- Concatenations ----

  ghost function Flat(parts: seq<seq<Byte>>): seq<Byte> {
    if parts == [] then [] else Flat(parts[..|parts| - 1]) + parts[|parts| - 1]
  }

  /** Where part `i` starts. */
  ghost function Start(parts: seq<seq<Byte>>, i: nat): nat
    requires i <= |parts|
  {
    |Flat(parts[..i])|
  }

  lemma FlatNext(parts: seq<seq<Byte>>, i: nat)
    requires i < |parts|
    ensures Flat(parts[..i + 1]) == Flat(parts[..i]) + parts[i]
    ensures Start(parts, i + 1) == Start(parts, i) + |parts[i]|
  {
    assert parts[..i + 1][..i] == parts[..i];
  }

  lemma {:induction false} FlatFrom(parts: seq<seq<Byte>>, i: nat, j: nat)
    requires i <= j <= |parts|
    ensures Start(parts, i) <= Start(parts, j) && Flat(parts[..j])[..Start(parts, i)] == Flat(parts[..i])
    ensures Flat(parts[..j])[Start(parts, i)..] == Flat(parts[i..j])
    decreases j - i
  {
    if i < j {
      FlatFrom(parts, i, j - 1);
      FlatNext(parts, j - 1);
      assert parts[i..j][..j - 1 - i] == parts[i..j - 1];
    } else {
      assert parts[i..j] == [];
    }
  }

  /** Part `i` of the concatenation. */
  lemma PartAt(parts: seq<seq<Byte>>, i: nat)
    requires i < |parts|
    ensures Start(parts, i) <= Start(parts, i + 1) <= |Flat(parts)|
    ensures Flat(parts)[Start(parts, i)..Start(parts, i + 1)] == parts[i]
  {
    FlatNext(parts, i);
    FlatFrom(parts, i + 1, |parts|);
    assert parts[..|parts|] == parts;
    var whole, n := Flat(parts), Start(parts, i + 1);
    assert whole[Start(parts, i)..n] == whole[..n][Start(parts, i)..];
  }

  /** Parts of equal length. */
  lemma {:induction false} EqualParts(parts: seq<seq<Byte>>, size: nat, i: nat)
    requires i <= |parts| && forall k :: 0 <= k < |parts| ==> |parts[k]| == size
    ensures Start(parts, i) == i * size
  {
    if i > 0 {
      EqualParts(parts, size, i - 1);
      FlatNext(parts, i - 1);
      MulAdd(i - 1, 1, size);
    }
  }

  // ---- Little-endian fields ----

  function LE(n: nat, k: nat): (s: seq<Byte>)
    ensures |s| == k
  {
    if k == 0 then [] else [n % 256] + LE(n / 256, k - 1)
  }

  lemma {:induction false} LEValue(n: nat, k: nat)
    requires n < Exp(256, k)
    ensures UintValue(LE(n, k)) == n
  {
    if k > 0 {
      LEValue(n / 256, k - 1);
      assert LE(n, k)[1..] == LE(n / 256, k - 1);
    }
  }

  lemma SmallBases()
    ensures Exp(256, 1) == 0x100 && Exp(256, 2) == 0x1_0000 && Exp(256, 3) == 0x100_0000
    ensures Exp(256, 4) == 0x1_0000_0000 && Exp(256, 5) == 0x100_0000_0000
  {
    assert Exp(256, 3) == 256 * (256 * (256 * Exp(256, 0)));
    assert Exp(256, 5) == 256 * (256 * Exp(256, 3));
  }

  // ---- Sizes ----

  function FixedSize(fmt: Format): nat {
    if fmt == Numeric then 3 else 5
  }

  /** dynamic_column_offset_bytes: the all-one offset is reserved. */
  function OffsetBytes(fmt: Format, length: nat): (n: nat) {
    if fmt == Numeric then
      if length < 0x1f then 1 else if length < 0x1fff then 2 else if length < 0x1f_ffff then 3
      else if length < 0x1fff_ffff then 4 else 5
    else
      if length < 0xfff then 2 else if length < 0xf_ffff then 3 else if length < 0xfff_ffff then 4
      else if length < 0xf_ffff_ffff then 5 else 6
  }

  function MaxOffsetSize(fmt: Format): nat {
    if fmt == Numeric then 4 else 5
  }

  /** Offsets that a field of `size` bytes can hold. */
  function OffsetLimit(fmt: Format, size: nat): nat {
    if fmt == Numeric then
      (match size case 1 => 0x1f case 2 => 0x1fff case 3 => 0x1f_ffff case 4 => 0x1fff_ffff case _ => 0)
    else
      (match size case 2 => 0xfff case 3 => 0xf_ffff case 4 => 0xfff_ffff case 5 => 0xf_ffff_ffff case _ => 0)
  }

  /** The chosen size is the smallest that can hold every offset below the length. */
  lemma OffsetFits(fmt: Format, length: nat)
    requires OffsetBytes(fmt, length) <= MaxOffsetSize(fmt)
    ensures length < OffsetLimit(fmt, OffsetBytes(fmt, length))
    ensures forall n :: (fmt == Named ==> n >= 2) && 1 <= n < OffsetBytes(fmt, length) ==> length >= OffsetLimit(fmt, n)
  {
  }

  function TypeCount(fmt: Format): nat {
    if fmt == Numeric then 8 else 16
  }

  /** The limits: all bits of the offset set is reserved. */
  lemma OffsetBits(fmt: Format, size: nat)
    requires (if fmt == Numeric then 1 else 2) <= size <= MaxOffsetSize(fmt)
    ensures (OffsetLimit(fmt, size) + 1) * TypeCount(fmt) == Exp(256, size)
  {
    SmallBases();
  }

  /** type_and_offset_store: the offset above the type, or nothing when it is too large. */
  function TypeOffsetStore(fmt: Format, size: nat, typ: nat, offset: nat): Option<seq<Byte>>
    requires 1 <= typ <= TypeCount(fmt)
  {
    if offset >= OffsetLimit(fmt, size) then None else Some(LE(offset * TypeCount(fmt) + (typ - 1), size))
  }

  /** type_and_offset_read: the type and the offset, unless that is the reserved one. */
  function TypeOffsetRead(fmt: Format, field: seq<Byte>): Option<(nat, nat)> {
    var val := UintValue(field);
    var typ, offset := val % TypeCount(fmt) + 1, val / TypeCount(fmt);
    if offset >= OffsetLimit(fmt, |field|) then None else Some((typ, offset))
  }

  lemma FieldFits(fmt: Format, size: nat, typ: nat, offset: nat)
    requires 1 <= typ <= TypeCount(fmt) && offset < OffsetLimit(fmt, size)
    ensures offset * TypeCount(fmt) + (typ - 1) < Exp(256, size)
  {
    SmallBases();
    hide Exp;
  }

  lemma TypeOffsetRoundTrip(fmt: Format, size: nat, typ: nat, offset: nat)
    requires 1 <= typ <= TypeCount(fmt)
    ensures var s := TypeOffsetStore(fmt, size, typ, offset);
      if offset >= OffsetLimit(fmt, size) then s.None?
      else s.Some? && |s.value| == size && TypeOffsetRead(fmt, s.value) == Some((typ, offset))
  {
    if offset < OffsetLimit(fmt, size) {
      FieldFits(fmt, size, typ, offset);
      LEValue(offset * TypeCount(fmt) + (typ - 1), size);
      hide LE, Exp, UintValue;
      if fmt == Numeric { HighLow(offset, typ - 1, 8); } else { HighLow(offset, typ - 1, 16); }
    }
  }
}
