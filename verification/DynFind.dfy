/** Looking up a column: binary searches over the entries of a record, and reading its value. */
module DynFind {
  import opened Arith
  import opened Basics
  import opened DynCodec
  import opened DynValues
  import opened DynFormat
  import opened DynRecord

  const INT_MAX: nat := 0x7FFF_FFFF

  // ---- Reading entries; nothing is assumed about the record but that the header is inside ----

  function EntryPos(h: Hdr, i: nat): nat {
    h.Header() + i * h.EntrySize()
  }

  lemma EntryInside(h: Hdr, i: nat)
    requires i < h.count
    ensures EntryPos(h, i) + h.EntrySize() == EntryPos(h, i + 1) <= h.NamePoolAt()
  {
    MulAdd(i, 1, h.EntrySize());
    MulLe(i + 1, h.count, h.EntrySize());
  }

  function ReadField(str: seq<Byte>, h: Hdr, i: nat): nat
    requires i < h.count && h.NamePoolAt() <= |str|
  {
    EntryInside(h, i);
    UintValue(str[EntryPos(h, i)..EntryPos(h, i) + 2])
  }

  function ReadTypeOffset(str: seq<Byte>, h: Hdr, i: nat): Option<(nat, nat)>
    requires i < h.count && h.NamePoolAt() <= |str|
  {
    EntryInside(h, i);
    TypeOffsetRead(h.fmt, str[EntryPos(h, i) + 2..EntryPos(h, i + 1)])
  }

  /** hdr_interval_length: from entry `i` to entry `j` or the end, in 64-bit arithmetic. */
  function IntervalLength(str: seq<Byte>, h: Hdr, i: nat, j: nat): Option<nat>
    requires i < h.count && j <= h.count && h.NamePoolAt() <= |str|
  {
    match ReadTypeOffset(str, h, i)
    case None => None
    case Some((_, offset)) =>
      if j == h.count then Some((h.DataSize() - offset) % WORD64) else
        match ReadTypeOffset(str, h, j)
        case None => None
        case Some((_, next)) => Some((next - offset) % WORD64)
  }

  /** read_name: where the name starts in the pool, and its length. */
  function ReadName(str: seq<Byte>, h: Hdr, i: nat): Option<(nat, nat)>
    requires i < h.count && h.NamePoolAt() <= |str|
  {
    var offset := ReadField(str, h, i);
    if offset > h.nmpoolSize then None
    else if i + 1 == h.count then Some((offset, h.nmpoolSize - offset))
    else
      var next := ReadField(str, h, i + 1);
      if next > h.nmpoolSize then None else Some((offset, (next - offset) % WORD64))
  }

  /** Compares the name of an entry with a key, by length and then by bytes. */
  function CmpEntry(str: seq<Byte>, h: Hdr, at: nat, length: nat, key: seq<Byte>): int
    requires h.DataPoolAt() <= |str| && at <= h.nmpoolSize && (length <= h.nmpoolSize - at || length > h.nmpoolSize)
  {
    if length > |key| then 1 else if length < |key| then -1
    else if length > h.nmpoolSize then 0
    else Memcmp(str[h.NamePoolAt() + at..h.NamePoolAt() + at + length], key)
  }

  // ---- What the entries of a packed record say ----

  /** `str` are the bytes of the record, and `h` is its header. */
  ghost predicate Holds(str: seq<Byte>, h: Hdr, rec: Record) {
    Valid(rec) && str == Packed(rec) && h == HdrOf(rec)
  }

  /** Entry `i` of a layout whose entries have equal sizes. */
  lemma EntrySlice(str: seq<Byte>, h: Hdr, parts: seq<seq<Byte>>, i: nat)
    requires h.NamePoolAt() <= |str| && str[h.Header()..h.NamePoolAt()] == Flat(parts)
    requires |parts| == h.count && forall k :: 0 <= k < |parts| ==> |parts[k]| == h.EntrySize()
    requires i < h.count
    ensures EntryPos(h, i) <= EntryPos(h, i + 1) <= |str| && str[EntryPos(h, i)..EntryPos(h, i + 1)] == parts[i]
  {
    EntryInside(h, i);
    EqualParts(parts, h.EntrySize(), i);
    EqualParts(parts, h.EntrySize(), i + 1);
    PartAt(parts, i);
    hide Flat;
    SliceOfSlice(str, h.Header(), h.NamePoolAt(), i * h.EntrySize(), (i + 1) * h.EntrySize());
  }

  lemma SliceOfSlice(s: seq<Byte>, a: nat, b: nat, i: nat, j: nat)
    requires a <= b <= |s| && i <= j <= b - a
    ensures s[a..b][i..j] == s[a + i..a + j]
  {
    var t := s[a..b];
    assert |t[i..j]| == |s[a + i..a + j]|;
    forall k | 0 <= k < j - i ensures t[i..j][k] == s[a + i..a + j][k] {
      assert t[i + k] == s[a + (i + k)];
    }
  }

  lemma EntryBytes(str: seq<Byte>, h: Hdr, rec: Record, i: nat)
    requires Holds(str, h, rec) && i < |rec.cols|
    ensures h.NamePoolAt() <= |str| && h.count == |rec.cols| && h.fmt == rec.fmt && ColumnOk(rec.fmt, rec.cols[i])
    ensures EntryPos(h, i) <= EntryPos(h, i + 1) <= |str|
    ensures str[EntryPos(h, i)..EntryPos(h, i + 1)] == Entry(rec, i)
  {
    PackedLayout(rec);
    var parts := Entries(rec);
    assert parts[i] == Entry(rec, i);
    hide Flat, ReadHdr, Packed;
    EntrySlice(str, h, parts, i);
  }

  /** Number or name offset, type and data offset of a column are those of its entry. */
  lemma EntryRead(str: seq<Byte>, h: Hdr, rec: Record, i: nat)
    requires Holds(str, h, rec) && i < |rec.cols|
    ensures h.NamePoolAt() <= |str| && h.count == |rec.cols| && h.fmt == rec.fmt
    ensures ReadField(str, h, i) == Field(rec.cols, i)
    ensures |rec.offs| == |rec.cols| && ReadTypeOffset(str, h, i) == Some((rec.cols[i].typ, rec.offs[i]))
  {
    hide LE, UintValue, Holds, TypeOffsetRead, DataPool, NamePool, OffsetLimit, OffsetBytes, HdrOf, Field;
    EntryBytes(str, h, rec, i);
    FieldsFit(str, h, rec, i);
    EntryFields(str, h, i, Field(rec.cols, i), rec.cols[i].typ, rec.offs[i]);
  }

  lemma FieldsFit(str: seq<Byte>, h: Hdr, rec: Record, i: nat)
    requires Holds(str, h, rec) && i < |rec.cols|
    ensures |rec.offs| == |rec.cols| && Field(rec.cols, i) <= UINT_MAX16
    ensures rec.offs[i] < OffsetLimit(rec.fmt, h.offsetSize)
  {
    hide DataPool, NamePool, OffsetLimit, OffsetBytes, Packed, Sorted;
    PoolPrefix(rec.cols, i);
    assert ColumnOk(rec.fmt, rec.cols[i]);
  }

  lemma EntryFields(str: seq<Byte>, h: Hdr, i: nat, field: nat, typ: nat, offset: nat)
    requires i < h.count && h.NamePoolAt() <= |str| && EntryPos(h, i) <= EntryPos(h, i + 1) <= |str|
    requires field <= UINT_MAX16 && 1 <= typ <= TypeCount(h.fmt) && offset < OffsetLimit(h.fmt, h.offsetSize)
    requires str[EntryPos(h, i)..EntryPos(h, i + 1)]
          == LE(field, 2) + LE(offset * TypeCount(h.fmt) + (typ - 1), h.offsetSize)
    ensures ReadField(str, h, i) == field && ReadTypeOffset(str, h, i) == Some((typ, offset))
  {
    TypeOffsetRoundTrip(h.fmt, h.offsetSize, typ, offset);
    TwoBytes(field);
    hide LE, UintValue, TypeOffsetRead, OffsetLimit;
    EntryHalves(str, EntryPos(h, i), EntryPos(h, i + 1), LE(field, 2),
                LE(offset * TypeCount(h.fmt) + (typ - 1), h.offsetSize));
  }

  lemma EntryHalves(s: seq<Byte>, a: nat, b: nat, x: seq<Byte>, y: seq<Byte>)
    requires a <= b <= |s| && s[a..b] == x + y && |x| == 2
    ensures s[a..a + 2] == x && s[a + 2..b] == y
  {
    SliceOfSlice(s, a, b, 0, 2);
    SliceOfSlice(s, a, b, 2, b - a);
    assert (x + y)[0..2] == x && (x + y)[2..b - a] == y;
  }

  /** Sizes and pools of a packed record. */
  lemma Pools(str: seq<Byte>, h: Hdr, rec: Record)
    requires Holds(str, h, rec)
    ensures h.NamePoolAt() <= h.DataPoolAt() <= |str| && h.count == |rec.cols| == |rec.offs|
    ensures h.fmt == rec.fmt && Sorted(rec.cols)
    ensures h.nmpoolSize == |NamePool(rec.cols)| <= UINT_MAX16
    ensures h.DataSize() == |DataPool(rec.cols)| < INT_MAX && h.DataPoolAt() + |DataPool(rec.cols)| == |str|
    ensures str[h.NamePoolAt()..h.DataPoolAt()] == NamePool(rec.cols) && str[h.DataPoolAt()..] == DataPool(rec.cols)
  {
    PackedLayout(rec);
    SizeRange(rec);
    hide DataPool, NamePool, Packed, ReadHdr, Hdr.HeaderSize;
    assert |str[h.DataPoolAt()..]| == |str| - h.DataPoolAt();
  }

  /** Where column `j` starts according to its entry; behind the last one, where the data ends. */
  ghost function Stop(rec: Record, j: nat): nat
    requires j <= |rec.cols| == |rec.offs|
  {
    if j < |rec.cols| then rec.offs[j] else |DataPool(rec.cols)|
  }

  /** The stated length of columns `i` to `j - 1`. */
  lemma IntervalRead(str: seq<Byte>, h: Hdr, rec: Record, i: nat, j: nat)
    requires Holds(str, h, rec) && i < j <= |rec.cols|
    ensures h.NamePoolAt() <= |str| && h.count == |rec.cols| == |rec.offs|
    ensures IntervalLength(str, h, i, j) == Some((Stop(rec, j) - rec.offs[i]) % WORD64)
  {
    hide ReadTypeOffset, Holds, DataPool, NamePool, Hdr.HeaderSize, Hdr.DataSize, Sorted, Cmp;
    Pools(str, h, rec);
    EntryRead(str, h, rec, i);
    if j < |rec.cols| { EntryRead(str, h, rec, j); }
  }

  /** With real offsets it is the length of the data. */
  lemma StraightInterval(rec: Record, i: nat, j: nat)
    requires Valid(rec) && Straight(rec) && i < j <= |rec.cols|
    ensures rec.offs[i] == |DataPool(rec.cols[..i])| <= |DataPool(rec.cols[..j])| <= |DataPool(rec.cols)|
    ensures (Stop(rec, j) - rec.offs[i]) % WORD64 == |DataPool(rec.cols[..j])| - |DataPool(rec.cols[..i])|
  {
    ValidParts(rec);
    hide DataPool, NamePool, Sorted, Valid;
    PoolPrefix(rec.cols, j);
    PoolPrefix(rec.cols[..j], i);
    assert rec.cols[..j][..i] == rec.cols[..i] && rec.cols[..|rec.cols|] == rec.cols;
    NoWrap(|DataPool(rec.cols[..j])|, |DataPool(rec.cols[..i])|);
  }

  lemma NoWrap(n: nat, m: nat)
    requires m <= n < INT_MAX
    ensures (n - m) % WORD64 == n - m
  {
  }

  /** The name of one column, and how it compares with a key. */
  lemma NameRead(str: seq<Byte>, h: Hdr, rec: Record, i: nat, key: seq<Byte>)
    requires Holds(str, h, rec) && rec.fmt == Named && i < |rec.cols|
    ensures h.DataPoolAt() <= |str| && h.count == |rec.cols| && rec.cols[i].key.Name? && h.nmpoolSize <= UINT_MAX16
    ensures var at := |NamePool(rec.cols[..i])|;
      && at + |rec.cols[i].key.text| <= h.nmpoolSize && ReadName(str, h, i) == Some((at, |rec.cols[i].key.text|))
      && CmpEntry(str, h, at, |rec.cols[i].key.text|, key) == Cmp(rec.cols[i].key, Name(key))
  {
    hide Holds, NamePool, DataPool, ReadTypeOffset, ReadField, Memcmp, Sorted;
    hide Hdr.HeaderSize, Hdr.DataSize, Hdr.NamePoolAt, Hdr.DataPoolAt;
    Pools(str, h, rec);
    EntryRead(str, h, rec, i);
    KeyIsName(str, h, rec, i);
    PoolsNext(rec.cols, i);
    PoolPrefix(rec.cols, i + 1);
    if i + 1 < |rec.cols| {
      EntryRead(str, h, rec, i + 1);
      KeyIsName(str, h, rec, i + 1);
    } else {
      assert rec.cols[..i + 1] == rec.cols;
    }
    var at, n, pool := |NamePool(rec.cols[..i])|, |rec.cols[i].key.text|, NamePool(rec.cols);
    assert pool[..at + n] == NamePool(rec.cols[..i]) + rec.cols[i].key.text;
    assert pool[at..at + n] == pool[..at + n][at..] == rec.cols[i].key.text;
    SliceOfSlice(str, h.NamePoolAt(), h.DataPoolAt(), at, at + n);
    EntryNamed(str, h, i, at, rec.cols[i].key.text, key);
  }

  lemma KeyIsName(str: seq<Byte>, h: Hdr, rec: Record, i: nat)
    requires Holds(str, h, rec) && rec.fmt == Named && i < |rec.cols|
    ensures rec.cols[i].key.Name?
  {
    assert ColumnOk(Named, rec.cols[i]);
  }

  lemma EntryNamed(str: seq<Byte>, h: Hdr, i: nat, at: nat, name: seq<Byte>, key: seq<Byte>)
    requires i < h.count && h.DataPoolAt() <= |str| && h.nmpoolSize <= UINT_MAX16 && at + |name| <= h.nmpoolSize
    requires ReadField(str, h, i) == at
    requires if i + 1 == h.count then at + |name| == h.nmpoolSize else ReadField(str, h, i + 1) == at + |name|
    requires str[h.NamePoolAt() + at..h.NamePoolAt() + (at + |name|)] == name
    ensures ReadName(str, h, i) == Some((at, |name|)) && CmpEntry(str, h, at, |name|, key) == Cmp(Name(name), Name(key))
  {
    hide ReadField, Memcmp;
  }

  // ---- Searching ----

  ghost predicate Absent(cols: seq<Column>, key: Key) {
    forall k :: 0 <= k < |cols| ==> cols[k].key != key
  }

  /** The columns before `lo` are below the key, those from `hi` on above it. */
  ghost predicate Narrowed(cols: seq<Column>, key: Key, lo: int, hi: int) {
    && 0 <= lo <= hi <= |cols|
    && (forall k :: 0 <= k < lo ==> Cmp(cols[k].key, key) < 0)
    && (forall k :: hi <= k < |cols| ==> Cmp(cols[k].key, key) > 0)
  }

  lemma Narrow(cols: seq<Column>, key: Key, lo: int, hi: int, mid: int)
    requires Sorted(cols) && Narrowed(cols, key, lo, hi) && lo <= mid < hi
    ensures Cmp(cols[mid].key, key) < 0 ==> Narrowed(cols, key, mid + 1, hi)
    ensures Cmp(cols[mid].key, key) > 0 ==> Narrowed(cols, key, lo, mid)
    ensures Cmp(cols[mid].key, key) == 0 ==> cols[mid].key == key
  {
    CmpOrder(cols[mid].key, key, key);
    forall k | 0 <= k < |cols|
      ensures k < mid && Cmp(cols[mid].key, key) < 0 ==> Cmp(cols[k].key, key) < 0
      ensures k > mid && Cmp(cols[mid].key, key) > 0 ==> Cmp(cols[k].key, key) > 0
    {
      CmpOrder(cols[k].key, cols[mid].key, key);
      CmpOrder(key, cols[mid].key, cols[k].key);
      CmpOrder(cols[k].key, key, key);
    }
    hide Cmp;
  }

  lemma NarrowedEmpty(cols: seq<Column>, key: Key, lo: int)
    requires Narrowed(cols, key, lo, lo)
    ensures Absent(cols, key)
  {
    CmpOrder(key, key, key);
    hide Cmp;
  }

  /** bsearch for the two bytes of a number. On a sorted record this finds the key modulo 2^16. */
  method FindNum(str: seq<Byte>, h: Hdr, key: nat, ghost packed: bool, ghost rec: Record) returns (r: Option<nat>)
    requires h.NamePoolAt() <= |str| && (packed ==> Holds(str, h, rec) && rec.fmt == Numeric)
    ensures r.Some? ==> r.value < h.count
    ensures packed ==> match r
      case Some(i) => h.count == |rec.cols| && rec.cols[i].key == Num(key % 0x1_0000)
      case None => Absent(rec.cols, Num(key % 0x1_0000))
  {
    hide Narrowed, Absent, Holds, ReadField, Cmp, Entry;
    ghost var k := Num(key % 0x1_0000);
    var lo, hi := 0, h.count;
    if packed { SearchStart(str, h, rec, k); }
    while lo < hi
      invariant 0 <= lo <= hi <= h.count
      invariant packed ==> h.count == |rec.cols| && Narrowed(rec.cols, k, lo, hi)
    {
      var mid := (lo + hi) / 2;
      var val := ReadField(str, h, mid);
      if packed {
        NumberRead(str, h, rec, mid, key % 0x1_0000);
        Narrow(rec.cols, k, lo, hi, mid);
      }
      if val < key % 0x1_0000 {
        lo := mid + 1;
      } else if val > key % 0x1_0000 {
        hi := mid;
      } else {
        return Some(mid);
      }
    }
    if packed { NarrowedEmpty(rec.cols, k, lo); }
    r := None;
  }

  lemma SearchStart(str: seq<Byte>, h: Hdr, rec: Record, key: Key)
    requires Holds(str, h, rec)
    ensures h.count == |rec.cols| && Sorted(rec.cols) && Narrowed(rec.cols, key, 0, |rec.cols|)
  {
  }

  lemma NumberRead(str: seq<Byte>, h: Hdr, rec: Record, i: nat, n: nat)
    requires Holds(str, h, rec) && rec.fmt == Numeric && i < |rec.cols|
    ensures h.NamePoolAt() <= |str| && h.count == |rec.cols| && Sorted(rec.cols)
    ensures Cmp(rec.cols[i].key, Num(n)) == ReadField(str, h, i) - n
  {
    EntryRead(str, h, rec, i);
    assert ColumnOk(Numeric, rec.cols[i]);
  }

  /** find_entry_named: the positions are those of entries, in bytes from the first one. */
  method FindNamed(str: seq<Byte>, h: Hdr, key: seq<Byte>, ghost packed: bool, ghost rec: Record)
    returns (r: Option<nat>)
    requires h.DataPoolAt() <= |str| && h.nmpoolSize <= UINT_MAX16
    requires packed ==> Holds(str, h, rec) && rec.fmt == Named
    ensures r.Some? ==> r.value < h.count
    ensures packed ==> match r
      case Some(i) => h.count == |rec.cols| && rec.cols[i].key == Name(key)
      case None => Absent(rec.cols, Name(key))
  {
    hide Narrowed, Absent, Holds, ReadName, CmpEntry, Cmp;
    ghost var k := Name(key);
    if packed { SearchStart(str, h, rec, k); }
    var size := h.EntrySize();
    var min, max := 0, (h.count - 1) * size;
    ghost var lo, hi := 0, h.count;
    while max >= min
      invariant 0 <= lo <= hi <= h.count && min == lo * size && max == (hi - 1) * size
      invariant packed ==> h.count == |rec.cols| && Narrowed(rec.cols, k, lo, hi)
      decreases hi - lo
    {
      MiddleEntry(lo, hi, size, min, max);
      ghost var m := (lo + hi - 1) / 2;
      var mid := (min + max) / 2 / size * size;
      var i := mid / size;
      if packed {
        NameRead(str, h, rec, m, key);
        Narrow(rec.cols, k, lo, hi, m);
      }
      var name := ReadName(str, h, i);
      if name.None? {
        return None;
      }
      NameFits(str, h, i);
      var cmp := CmpEntry(str, h, name.value.0, name.value.1, key);
      if cmp < 0 {
        min := mid + size;
        lo := m + 1;
      } else if cmp > 0 {
        max := mid - size;
        hi := m;
      } else {
        return Some(i);
      }
    }
    NoEntry(lo, hi, size);
    if packed { NarrowedEmpty(rec.cols, k, lo); }
    r := None;
  }

  /** Halving byte positions halves entry numbers. */
  lemma MiddleEntry(lo: nat, hi: nat, size: nat, min: int, max: int)
    requires size > 0 && min == lo * size && max == (hi - 1) * size && max >= min
    ensures lo < hi
    ensures var m := (lo + hi - 1) / 2;
      && lo <= m < hi && (min + max) / 2 / size == m && m * size / size == m
      && m * size + size == (m + 1) * size && m * size - size == (m - 1) * size
  {
    NoEntry(lo, hi, size);
    var sum, m := lo + hi - 1, (lo + hi - 1) / 2;
    MulAdd(lo, hi - 1, size);
    assert min + max == sum * size;
    if sum % 2 == 0 {
      assert sum == 2 * m;
      MulAdd(m, m, size);
      DivModUnique(m * size, size, m, 0);
    } else {
      MulAdd(m, m, size);
      MulAdd(m + m, 1, size);
      assert (min + max) / 2 == m * size + size / 2;
      DivModUnique(m * size + size / 2, size, m, size / 2);
      DivModUnique(m * size, size, m, 0);
    }
    MulAdd(m, 1, size);
    MulAdd(m, -1, size);
  }

  lemma NoEntry(lo: nat, hi: nat, size: nat)
    requires size > 0
    ensures (hi - 1) * size >= lo * size <==> lo < hi
  {
    if lo < hi { MulLe(lo, hi - 1, size); } else { MulAdd(lo - (hi - 1), hi - 1, size); MulGap(size, lo - (hi - 1)); }
  }

  lemma NameFits(str: seq<Byte>, h: Hdr, i: nat)
    requires i < h.count && h.DataPoolAt() <= |str| && h.nmpoolSize <= UINT_MAX16 && ReadName(str, h, i).Some?
    ensures var (at, length) := ReadName(str, h, i).value;
      at <= h.nmpoolSize && (length <= h.nmpoolSize - at || length > h.nmpoolSize)
  {
    hide ReadField;
  }

  // ---- Columns ----

  datatype Found = Bad | Missing | At(typ: nat, offset: nat, length: nat)

  /** Some entry has this type and offset, and the next one is `length` bytes further. */
  ghost predicate Listed(str: seq<Byte>, h: Hdr, typ: nat, offset: nat, length: nat)
    requires h.NamePoolAt() <= |str|
  {
    && offset <= h.DataSize() && length <= INT_MAX
    && exists i :: 0 <= i < h.count && ReadTypeOffset(str, h, i) == Some((typ, offset))
         && IntervalLength(str, h, i, i + 1) == Some(length)
  }

  /** What entry `i` states about its data: a length that wraps or an offset behind the end is
      bad. */
  ghost function Told(rec: Record, i: nat): Found
    requires i < |rec.cols| == |rec.offs|
  {
    var length := (Stop(rec, i + 1) - rec.offs[i]) % WORD64;
    if length > INT_MAX || rec.offs[i] > |DataPool(rec.cols)| then Bad else At(rec.cols[i].typ, rec.offs[i], length)
  }

  /** What a lookup of `key` must give: what the entry of the key states. */
  ghost predicate Right(f: Found, rec: Record, key: Key)
    requires |rec.cols| == |rec.offs|
  {
    if Absent(rec.cols, key) then f == Missing
    else exists i :: 0 <= i < |rec.cols| && rec.cols[i].key == key && f == Told(rec, i)
  }

  lemma RightAt(rec: Record, key: Key, i: nat)
    requires i < |rec.cols| == |rec.offs| && rec.cols[i].key == key
    ensures Right(Told(rec, i), rec, key)
  {
    hide Told;
  }

  /** The key that a search for `key` really looks for: numbers are cut to two bytes. */
  function Sought(key: Key): Key {
    match key
    case Num(n) => Num(n % 0x1_0000)
    case Name(_) => key
  }

  /** find_column, for a key of the record's own kind. */
  method FindColumn(str: seq<Byte>, h: Hdr, key: Key, ghost packed: bool, ghost rec: Record) returns (f: Found)
    requires key.Num? <==> h.fmt == Numeric
    requires h.nmpoolSize <= UINT_MAX16 && (h.fmt == Named && h.NamePoolAt() <= |str| ==> h.DataPoolAt() <= |str|)
    requires packed ==> Holds(str, h, rec)
    ensures packed ==> |rec.cols| == |rec.offs| && Right(f, rec, Sought(key))
    ensures f.At? ==> h.NamePoolAt() <= |str| && Listed(str, h, f.typ, f.offset, f.length)
    ensures h.NamePoolAt() > |str| ==> f == Bad
  {
    hide Holds, Absent, ReadTypeOffset, IntervalLength, DataPool, Right, Told;
    if packed { Pools(str, h, rec); }
    if h.NamePoolAt() > |str| {
      return Bad;
    }
    var entry;
    match key {
      case Num(n) => entry := FindNum(str, h, n, packed, rec);
      case Name(s) => entry := FindNamed(str, h, s, packed, rec);
    }
    if entry.None? {
      if packed { RightMissing(rec, Sought(key)); }
      return Missing;
    }
    var i := entry.value;
    if packed {
      ColumnRead(str, h, rec, i);
      RightAt(rec, Sought(key), i);
    }
    var field, length := ReadTypeOffset(str, h, i), IntervalLength(str, h, i, i + 1);
    if field.None? || length.None? || length.value > INT_MAX || field.value.1 > h.DataSize() {
      return Bad;
    }
    f := At(field.value.0, field.value.1, length.value);
  }

  lemma RightMissing(rec: Record, key: Key)
    requires |rec.cols| == |rec.offs| && Absent(rec.cols, key)
    ensures Right(Missing, rec, key)
  {
  }

  lemma ColumnRead(str: seq<Byte>, h: Hdr, rec: Record, i: nat)
    requires Holds(str, h, rec) && i < |rec.cols|
    ensures h.NamePoolAt() <= |str| && h.count == |rec.cols| == |rec.offs|
    ensures var (field, length) := (ReadTypeOffset(str, h, i), IntervalLength(str, h, i, i + 1));
      && field.Some? && length.Some?
      && Told(rec, i) == if length.value > INT_MAX || field.value.1 > h.DataSize() then Bad
                         else At(field.value.0, field.value.1, length.value)
  {
    hide Holds, DataPool, ReadTypeOffset, IntervalLength;
    Pools(str, h, rec);
    EntryRead(str, h, rec, i);
    IntervalRead(str, h, rec, i, i + 1);
  }

  /** The finite map that a list of columns stands for. */
  ghost function Content(cols: seq<Column>): map<Key, (nat, seq<Byte>)> {
    if cols == [] then map[] else
      var c := cols[|cols| - 1];
      Content(cols[..|cols| - 1])[c.key := (c.typ, c.data)]
  }

  lemma {:induction false} ContentKeys(cols: seq<Column>, key: Key)
    ensures key !in Content(cols) <==> Absent(cols, key)
  {
    if cols != [] {
      var n := |cols| - 1;
      ContentKeys(cols[..n], key);
      assert forall k :: 0 <= k < n ==> cols[..n][k] == cols[k];
    }
  }

  lemma {:induction false} ContentAt(cols: seq<Column>, i: nat)
    requires Sorted(cols) && i < |cols|
    ensures cols[i].key in Content(cols) && Content(cols)[cols[i].key] == (cols[i].typ, cols[i].data)
  {
    var n := |cols| - 1;
    if i < n {
      ContentAt(cols[..n], i);
      CmpOrder(cols[i].key, cols[n].key, cols[n].key);
    }
  }

  // ---- What lookups see of a record ----

  /** The data of entry `i`, if what it states lies within the data. */
  ghost predicate Whole(rec: Record, i: nat)
    requires i < |rec.cols| == |rec.offs|
  {
    Told(rec, i).At? && Told(rec, i).offset + Told(rec, i).length <= |DataPool(rec.cols)|
  }

  ghost function SeenAt(rec: Record, i: nat): (nat, seq<Byte>)
    requires i < |rec.cols| == |rec.offs| && Whole(rec, i)
  {
    var f := Told(rec, i);
    (f.typ, DataPool(rec.cols)[f.offset..f.offset + f.length])
  }

  ghost function IndexOf(cols: seq<Column>, key: Key): (i: nat)
    requires !Absent(cols, key)
    ensures i < |cols| && cols[i].key == key
  {
    var i :| 0 <= i < |cols| && cols[i].key == key; i
  }

  /** The finite map that lookups give: a key whose entry states nothing within the data is as good
      as absent. */
  ghost function Seen(rec: Record): map<Key, (nat, seq<Byte>)>
    requires |rec.cols| == |rec.offs|
  {
    map k | k in Content(rec.cols) && !Absent(rec.cols, k) && Whole(rec, IndexOf(rec.cols, k))
      :: SeenAt(rec, IndexOf(rec.cols, k))
  }

  lemma OneIndex(cols: seq<Column>, i: nat)
    requires Sorted(cols) && i < |cols|
    ensures !Absent(cols, cols[i].key) && IndexOf(cols, cols[i].key) == i
  {
    var j := IndexOf(cols, cols[i].key);
    CmpOrder(cols[i].key, cols[j].key, cols[i].key);
  }

  lemma SeenKey(rec: Record, i: nat)
    requires |rec.cols| == |rec.offs| && Sorted(rec.cols) && i < |rec.cols|
    ensures var (m, key) := (Seen(rec), rec.cols[i].key);
      (key in m <==> Whole(rec, i)) && (key in m ==> m[key] == SeenAt(rec, i))
  {
    hide Content, Whole, SeenAt, Cmp;
    OneIndex(rec.cols, i);
    ContentKeys(rec.cols, rec.cols[i].key);
  }

  lemma SeenOnly(rec: Record, key: Key)
    requires |rec.cols| == |rec.offs|
    ensures Absent(rec.cols, key) ==> key !in Seen(rec)
  {
  }

  /** Where every entry states the real offset, lookups see exactly the columns. */
  lemma SeenStraight(rec: Record)
    requires Valid(rec) && Straight(rec)
    ensures Seen(rec) == Content(rec.cols)
  {
    hide Content, Seen, Cmp, DataPool, NamePool, Valid, Straight;
    ValidParts(rec);
    var m, c := Seen(rec), Content(rec.cols);
    forall k ensures (k in m <==> k in c) && (k in c ==> m[k] == c[k]) {
      ContentKeys(rec.cols, k);
      SeenOnly(rec, k);
      if k in c {
        var i := IndexOf(rec.cols, k);
        SeenKey(rec, i);
        ContentAt(rec.cols, i);
        StraightWhole(rec, i);
      }
    }
  }

  lemma ValidParts(rec: Record)
    requires Valid(rec)
    ensures |rec.cols| == |rec.offs| && Sorted(rec.cols) && |DataPool(rec.cols)| < INT_MAX
  {
    SizeRange(rec);
  }

  lemma StraightWhole(rec: Record, i: nat)
    requires Valid(rec) && Straight(rec) && i < |rec.cols|
    ensures Whole(rec, i) && SeenAt(rec, i) == (rec.cols[i].typ, rec.cols[i].data)
  {
    hide DataPool, NamePool, Valid, Sorted;
    ValidParts(rec);
    StraightInterval(rec, i, i + 1);
    PoolsNext(rec.cols, i);
    PoolPrefix(rec.cols, i + 1);
    var pool, at, n := DataPool(rec.cols), |DataPool(rec.cols[..i])|, |rec.cols[i].data|;
    assert pool[at..at + n] == pool[..at + n][at..] == rec.cols[i].data;
  }

  /** The value of a key: NULL when the record has no such column. */
  ghost function LookUp(m: map<Key, (nat, seq<Byte>)>, key: Key, known: nat -> bool): Result<Value> {
    if key in m then Decoding(m[key].0, m[key].1, known) else Ok(Null)
  }

  /** Reading any entry stays inside the record, and integers have at most eight bytes. */
  ghost predicate Safe(str: seq<Byte>, h: Hdr) {
    && h.nmpoolSize <= UINT_MAX16
    && (h.NamePoolAt() <= |str| ==>
        && h.DataPoolAt() <= |str|
        && forall typ: nat, offset: nat, length: nat :: Listed(str, h, typ, offset, length)
             ==> h.DataPoolAt() + offset + length <= |str| && (typ == 1 || typ == 2 ==> length <= 8))
  }

  ghost predicate ShortIntegers(cols: seq<Column>) {
    forall i :: 0 <= i < |cols| && cols[i].typ <= 2 ==> |cols[i].data| <= 8
  }

  /** Records whose entries state the real offsets are safe to read. */
  lemma PackedSafe(str: seq<Byte>, h: Hdr, rec: Record)
    requires Holds(str, h, rec) && Straight(rec) && ShortIntegers(rec.cols)
    ensures Safe(str, h)
  {
    hide Holds, DataPool, NamePool, ReadTypeOffset, IntervalLength, Straight, Told, Whole;
    Pools(str, h, rec);
    forall typ: nat, offset: nat, length: nat | h.NamePoolAt() <= |str| && Listed(str, h, typ, offset, length)
      ensures h.DataPoolAt() + offset + length <= |str| && (typ == 1 || typ == 2 ==> length <= 8)
    {
      var i :| 0 <= i < h.count && ReadTypeOffset(str, h, i) == Some((typ, offset))
        && IntervalLength(str, h, i, i + 1) == Some(length);
      ColumnRead(str, h, rec, i);
      InsidePool(str, h, rec, i);
    }
  }

  lemma InsidePool(str: seq<Byte>, h: Hdr, rec: Record, i: nat)
    requires Holds(str, h, rec) && Straight(rec) && i < |rec.cols|
    ensures |rec.offs| == |rec.cols| && Told(rec, i).At? && Told(rec, i).typ == rec.cols[i].typ
    ensures Told(rec, i).offset + Told(rec, i).length <= |DataPool(rec.cols)|
    ensures Told(rec, i).length == |rec.cols[i].data|
  {
    hide DataPool, NamePool, Packed, Straight, Sorted, Told;
    ValidParts(rec);
    StraightWhole(rec, i);
  }

  /** Reading the entry of one key stays inside the record. */
  ghost predicate SafeFor(rec: Record, key: Key) {
    && |rec.cols| == |rec.offs|
    && forall i :: 0 <= i < |rec.cols| && rec.cols[i].key == key && Told(rec, i).At?
         ==> Whole(rec, i) && (Told(rec, i).typ <= 2 ==> Told(rec, i).length <= 8)
  }

  lemma FoundSafe(str: seq<Byte>, h: Hdr, rec: Record, key: Key, f: Found)
    requires Holds(str, h, rec) && |rec.cols| == |rec.offs| && Right(f, rec, key) && SafeFor(rec, key) && f.At?
    ensures h.DataPoolAt() + f.offset + f.length <= |str| && (f.typ <= 2 ==> f.length <= 8)
  {
    hide Holds, DataPool, NamePool, Told, Absent;
    Pools(str, h, rec);
    var i :| 0 <= i < |rec.cols| && rec.cols[i].key == key && f == Told(rec, i);
  }

  /** dynamic_column_get_internal, for a key of the record's own kind. An entry that states nothing
      readable gives NULL: the error code still says that the header was read. */
  method Get(str: seq<Byte>, key: Key, known: nat -> bool, ghost packed: bool, ghost rec: Record)
    returns (r: Result<Value>)
    requires str != [] && ReadHdr(str).Some? ==>
      var h := ReadHdr(str).value;
      (key.Num? <==> h.fmt == Numeric) && (Safe(str, h) || (packed && SafeFor(rec, Sought(key))))
    requires packed ==> if str == [] then rec.cols == [] && rec.offs == [] else Valid(rec) && str == Packed(rec)
    ensures packed ==> |rec.cols| == |rec.offs| && r == LookUp(Seen(rec), Sought(key), known)
    ensures str != [] && ReadHdr(str).None? ==> r == FormatError
  {
    hide Content, Seen, Decoding, Packed, Valid, ReadHdr, DataPool, IntervalLength, ReadTypeOffset, Told, Right;
    hide SafeFor;
    if str == [] {
      if packed { SeenNothing(rec); }
      return Ok(Null);
    }
    if packed { HeaderRead(str, rec); }
    var hdr := ReadHdr(str);
    if hdr.None? {
      return FormatError;
    }
    var h := hdr.value;
    if h.count == 0 {
      if packed { SeenNothing(rec); }
      return Ok(Null);
    }
    if packed { Pools(str, h, rec); }
    var f := FindColumn(str, h, key, packed, rec);
    if packed && f.At? && SafeFor(rec, Sought(key)) { FoundSafe(str, h, rec, Sought(key), f); }
    if f.At? { assert Listed(str, h, f.typ, f.offset, f.length); }
    if packed { SeenFound(str, h, rec, Sought(key), f); }
    match f
    case Bad => r := Ok(Null);
    case Missing => r := Ok(Null);
    case At(typ, offset, length) =>
      var at := h.DataPoolAt() + offset;
      r := GetValue(typ, str[at..at + length], known);
  }

  lemma SeenNothing(rec: Record)
    requires rec.cols == [] && rec.offs == []
    ensures Seen(rec) == map[]
  {
  }

  lemma HeaderRead(str: seq<Byte>, rec: Record)
    requires Valid(rec) && str == Packed(rec)
    ensures str != [] && ReadHdr(str).Some? && ReadHdr(str).value.count == |rec.cols| == |rec.offs|
    ensures var h := ReadHdr(str).value; h.fmt == rec.fmt && Holds(str, h, rec)
  {
    PackedLayout(rec);
    ValidParts(rec);
    hide Valid, Packed, ReadHdr;
  }

  /** Whatever was found is what lookups see, if it is inside the record. */
  lemma SeenFound(str: seq<Byte>, h: Hdr, rec: Record, key: Key, f: Found)
    requires Holds(str, h, rec) && |rec.cols| == |rec.offs| && Right(f, rec, key)
    requires f.At? ==> h.DataPoolAt() + f.offset + f.length <= |str|
    ensures match f
      case At(typ, offset, length) =>
        var at := h.DataPoolAt() + offset; key in Seen(rec) && Seen(rec)[key] == (typ, str[at..at + length])
      case _ => key !in Seen(rec)
  {
    hide Holds, DataPool, NamePool, Content, Seen, Told, Absent;
    Pools(str, h, rec);
    SeenOnly(rec, key);
    if Absent(rec.cols, key) { return; }
    var i :| 0 <= i < |rec.cols| && rec.cols[i].key == key && f == Told(rec, i);
    SeenKey(rec, i);
    if f.At? {
      SliceOfSlice(str, h.DataPoolAt(), |str|, f.offset, f.offset + f.length);
      assert str[h.DataPoolAt()..|str|] == str[h.DataPoolAt()..];
      ToldType(rec, i);
    }
  }

  lemma ToldType(rec: Record, i: nat)
    requires i < |rec.cols| == |rec.offs| && Told(rec, i).At?
    ensures Told(rec, i).typ == rec.cols[i].typ
  {
  }

  lemma TooLong(cols: seq<Column>, n: nat)
    requires ValidColumns(Numeric, cols) && n > UINT_MAX16
    ensures Num(n) !in Content(cols)
  {
    forall k | 0 <= k < |cols| ensures cols[k].key != Num(n) { assert ColumnOk(Numeric, cols[k]); }
    ContentKeys(cols, Num(n));
  }

  lemma NotNull(cols: seq<Column>, fmt: Format, key: Key, known: nat -> bool)
    requires ValidColumns(fmt, cols) && key in Content(cols)
    ensures LookUp(Content(cols), key, known) != Ok(Null)
  {
    ContentKeys(cols, key);
    var k :| 0 <= k < |cols| && cols[k].key == key;
    ContentAt(cols, k);
    assert ColumnOk(fmt, cols[k]);
    hide Content;
  }

  /** Looking up a number goes right exactly when it fits in two bytes or its remainder is not a
      column either: longer numbers are cut. */
  lemma CutNumbers(cols: seq<Column>, n: nat, known: nat -> bool)
    requires ValidColumns(Numeric, cols)
    ensures LookUp(Content(cols), Sought(Num(n)), known) == LookUp(Content(cols), Num(n), known)
       <==> n <= UINT_MAX16 || Num(n % 0x1_0000) !in Content(cols)
  {
    hide Content, Decoding, ValidColumns;
    if n > UINT_MAX16 {
      TooLong(cols, n);
      if Num(n % 0x1_0000) in Content(cols) { NotNull(cols, Numeric, Num(n % 0x1_0000), known); }
    }
  }

  /** Number 65537 finds column 1, where there is no such column. */
  lemma WrongNumber(known: nat -> bool)
    ensures var cols := [Column(Num(1), 2, [5])];
      && ValidColumns(Numeric, cols) && LookUp(Content(cols), Num(65537), known) == Ok(Null)
      && LookUp(Content(cols), Sought(Num(65537)), known) == Ok(Uint(5))
  {
    var cols := [Column(Num(1), 2, [5])];
    NumericHasNoNames(cols);
    assert Content(cols) == map[Num(1) := (2, [5])];
    assert UintValue([5]) == 5;
    Base8();
  }
}
