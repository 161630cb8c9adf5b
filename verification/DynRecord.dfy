/** Whole records: the bytes of a sorted list of columns, and how a reader takes them apart. */
module DynRecord {
  import opened Basics
  import opened DynCodec
  import opened DynValues
  import opened DynFormat

  // ---- The bytes of a record ----

  ghost function NameOf(k: Key): seq<Byte> {
    if k.Name? then k.text else []
  }

  ghost function Names(cols: seq<Column>): seq<seq<Byte>> {
    seq(|cols|, i requires 0 <= i < |cols| => NameOf(cols[i].key))
  }

  ghost function Datas(cols: seq<Column>): seq<seq<Byte>> {
    seq(|cols|, i requires 0 <= i < |cols| => cols[i].data)
  }

  ghost function NamePool(cols: seq<Column>): seq<Byte> { Flat(Names(cols)) }

  ghost function DataPool(cols: seq<Column>): seq<Byte> { Flat(Datas(cols)) }

  lemma PoolsNext(cols: seq<Column>, i: nat)
    requires i < |cols|
    ensures NamePool(cols[..i + 1]) == NamePool(cols[..i]) + NameOf(cols[i].key)
    ensures DataPool(cols[..i + 1]) == DataPool(cols[..i]) + cols[i].data
  {
    var c := cols[..i + 1];
    assert Names(c)[..i] == Names(cols[..i]) && Datas(c)[..i] == Datas(cols[..i]);
  }

  lemma EmptyPools()
    ensures DataPool([]) == [] && NamePool([]) == []
  {
    assert Datas([]) == [] && Names([]) == [];
  }

  /** The pools of the first columns are the beginnings of the whole pools. */
  lemma PoolPrefix(cols: seq<Column>, i: nat)
    requires i <= |cols|
    ensures |DataPool(cols[..i])| <= |DataPool(cols)| && DataPool(cols)[..|DataPool(cols[..i])|] == DataPool(cols[..i])
    ensures |NamePool(cols[..i])| <= |NamePool(cols)| && NamePool(cols)[..|NamePool(cols[..i])|] == NamePool(cols[..i])
  {
    var d, n := Datas(cols), Names(cols);
    assert d[..i] == Datas(cols[..i]) && n[..i] == Names(cols[..i]) && d[..|cols|] == d && n[..|cols|] == n;
    FlatFrom(d, i, |cols|);
    FlatFrom(n, i, |cols|);
  }

  /** What an entry says: the number or the offset of the name, then type and offset of the data. */
  ghost function Field(cols: seq<Column>, i: nat): nat
    requires i < |cols|
  {
    if cols[i].key.Num? then cols[i].key.number else |NamePool(cols[..i])|
  }

  /** A record in the packed format: its columns, how many bytes an offset takes, and the offsets
      that the entries state. */
  datatype Record = Record(fmt: Format, size: nat, cols: seq<Column>, offs: seq<nat>)

  ghost function Entry(r: Record, i: nat): seq<Byte>
    requires i < |r.cols| == |r.offs| && r.cols[i].typ >= 1
  {
    LE(Field(r.cols, i), 2) + LE(r.offs[i] * TypeCount(r.fmt) + (r.cols[i].typ - 1), r.size)
  }

  ghost function Entries(r: Record): seq<seq<Byte>>
    requires |r.cols| == |r.offs| && forall i :: 0 <= i < |r.cols| ==> r.cols[i].typ >= 1
  {
    seq(|r.cols|, i requires 0 <= i < |r.cols| => Entry(r, i))
  }

  /** Where the data of each column really starts. */
  ghost function Offsets(cols: seq<Column>): seq<nat> {
    seq(|cols|, i requires 0 <= i < |cols| => |DataPool(cols[..i])|)
  }

  /** Every entry states where its data is. */
  ghost predicate Straight(r: Record) {
    r.offs == Offsets(r.cols)
  }

  ghost function Plain(fmt: Format, size: nat, cols: seq<Column>): Record {
    Record(fmt, size, cols, Offsets(cols))
  }

  ghost function Fixed(fmt: Format, size: nat, count: nat, names: nat): (s: seq<Byte>)
    requires 1 <= size <= 4 && (fmt == Named ==> size >= 2)
    ensures |s| == FixedSize(fmt)
  {
    if fmt == Numeric then [size - 1] + LE(count, 2) else [size - 2 + 4] + LE(count, 2) + LE(names, 2)
  }

  ghost predicate Sorted(cols: seq<Column>) {
    forall i, j :: 0 <= i < j < |cols| ==> Cmp(cols[i].key, cols[j].key) < 0
  }

  predicate OverLimit(k: Key) {
    match k
    case Num(n) => n > UINT_MAX16
    case Name(s) => |s| > MAX_NAME_LENGTH
  }

  ghost predicate ColumnOk(fmt: Format, c: Column) {
    (fmt == Numeric <==> c.key.Num?) && !OverLimit(c.key) && 1 <= c.typ <= TypeCount(fmt)
  }

  ghost predicate ValidColumns(fmt: Format, cols: seq<Column>) {
    && Sorted(cols) && (forall i :: 0 <= i < |cols| ==> ColumnOk(fmt, cols[i])) && |cols| <= UINT_MAX16
    && |NamePool(cols)| <= UINT_MAX16
  }

  /** Within the limits of the format, with offsets that have room. The data limit is the one the
      code checks, which is lower than the largest offset size. */
  ghost predicate Valid(r: Record) {
    && ValidColumns(r.fmt, r.cols) && OffsetBytes(r.fmt, |DataPool(r.cols)|) <= r.size < MaxOffsetSize(r.fmt)
    && |r.offs| == |r.cols| && forall i :: 0 <= i < |r.offs| ==> r.offs[i] < OffsetLimit(r.fmt, r.size)
  }

  ghost function Packed(r: Record): seq<Byte>
    requires Valid(r)
  {
    Fixed(r.fmt, r.size, |r.cols|, |NamePool(r.cols)|) + Flat(Entries(r)) + NamePool(r.cols) + DataPool(r.cols)
  }

  /** Offsets up to a length have room in every field that is large enough for the length. */
  lemma RoomFor(fmt: Format, length: nat, size: nat)
    requires OffsetBytes(fmt, length) <= size < MaxOffsetSize(fmt)
    ensures length < OffsetLimit(fmt, size)
    ensures forall n: nat :: n <= length ==> OffsetBytes(fmt, n) <= size
  {
  }

  /** Any size that the data fits is good enough for entries that state the real offsets. */
  lemma PlainValid(fmt: Format, size: nat, cols: seq<Column>)
    requires ValidColumns(fmt, cols) && OffsetBytes(fmt, |DataPool(cols)|) <= size < MaxOffsetSize(fmt)
    ensures Valid(Plain(fmt, size, cols))
  {
    hide DataPool, NamePool, OffsetBytes, OffsetLimit, MaxOffsetSize;
    RoomFor(fmt, |DataPool(cols)|, size);
    forall i | 0 <= i < |cols| ensures Offsets(cols)[i] < OffsetLimit(fmt, size) {
      PoolPrefix(cols, i);
    }
  }

  // ---- Reading the header ----

  /** The descriptor that init_read_hdr fills. */
  datatype Hdr = Hdr(fmt: Format, offsetSize: nat, count: nat, nmpoolSize: nat, size: nat) {
    function EntrySize(): nat { 2 + offsetSize }
    function HeaderSize(): nat { count * EntrySize() }
    function Header(): nat { FixedSize(fmt) }
    function NamePoolAt(): nat { Header() + HeaderSize() }
    function DataPoolAt(): nat { NamePoolAt() + nmpoolSize }
    function DataSize(): nat { (size - DataPoolAt()) % WORD64 }
  }

  function ReadHdr(str: seq<Byte>): Option<Hdr>
    requires str != []
  {
    if str[0] >= 8 then None else
      var fmt := if str[0] / 4 % 2 == 1 then Named else Numeric;
      if |str| < FixedSize(fmt) then None else
        var size := str[0] % 4 + 1 + if fmt == Named then 1 else 0;
        Some(Hdr(fmt, size, UintValue(str[1..3]), if fmt == Named then UintValue(str[3..5]) else 0, |str|))
  }

  ghost function HdrOf(r: Record): Hdr
    requires Valid(r)
  {
    Hdr(r.fmt, r.size, |r.cols|, |NamePool(r.cols)|, |Packed(r)|)
  }

  lemma TwoBytes(n: nat)
    requires n <= UINT_MAX16
    ensures UintValue(LE(n, 2)) == n
  {
    SmallBases();
    LEValue(n, 2);
  }

  lemma {:induction false} NumericHasNoNames(cols: seq<Column>)
    requires forall i :: 0 <= i < |cols| ==> cols[i].key.Num?
    ensures NamePool(cols) == []
  {
    if cols != [] {
      var n := |cols| - 1;
      NumericHasNoNames(cols[..n]);
      PoolsNext(cols, n);
      assert cols[..n + 1] == cols;
    }
  }

  lemma EntriesSize(r: Record)
    requires |r.cols| == |r.offs| && forall i :: 0 <= i < |r.cols| ==> r.cols[i].typ >= 1
    ensures |Flat(Entries(r))| == |r.cols| * (2 + r.size)
  {
    var e := Entries(r);
    EqualParts(e, 2 + r.size, |r.cols|);
    assert e[..|r.cols|] == e;
  }

  lemma FourParts(h: Hdr, a: seq<Byte>, b: seq<Byte>, c: seq<Byte>, d: seq<Byte>)
    requires |a| == h.Header() && |b| == h.HeaderSize() && |c| == h.nmpoolSize && h.size == |a + b + c + d|
    requires |d| < WORD64
    ensures var s := a + b + c + d;
      && h.DataPoolAt() <= |s| && s[h.Header()..h.NamePoolAt()] == b
      && s[h.NamePoolAt()..h.DataPoolAt()] == c && s[h.DataPoolAt()..] == d && h.DataSize() == |d|
  {
  }

  /** The fixed header says which format it is, how large offsets are, and the counts. */
  lemma FixedRead(fmt: Format, size: nat, count: nat, names: nat, rest: seq<Byte>)
    requires 1 <= size <= 4 && (fmt == Named ==> size >= 2) && count <= UINT_MAX16 && names <= UINT_MAX16
    requires fmt == Numeric ==> names == 0
    ensures var s := Fixed(fmt, size, count, names) + rest; ReadHdr(s) == Some(Hdr(fmt, size, count, names, |s|))
  {
    var s := Fixed(fmt, size, count, names) + rest;
    TwoBytes(count);
    TwoBytes(names);
    assert s[1..3] == LE(count, 2);
    if fmt == Named { assert s[3..5] == LE(names, 2); }
  }

  lemma SizeRange(r: Record)
    requires Valid(r)
    ensures 1 <= r.size <= 4 && (r.fmt == Named ==> r.size >= 2) && |DataPool(r.cols)| < 0xfff_ffff
  {
  }

  ghost predicate Layout(s: seq<Byte>, h: Hdr, entries: seq<Byte>, names: seq<Byte>, data: seq<Byte>) {
    && s != [] && ReadHdr(s) == Some(h) && 1 <= h.offsetSize <= 4
    && h.DataPoolAt() <= |s| && s[h.Header()..h.NamePoolAt()] == entries
    && s[h.NamePoolAt()..h.DataPoolAt()] == names && s[h.DataPoolAt()..] == data && h.DataSize() == |data|
  }

  lemma PartsLayout(fmt: Format, size: nat, count: nat, entries: seq<Byte>, names: seq<Byte>, data: seq<Byte>)
    requires 1 <= size <= 4 && (fmt == Named ==> size >= 2) && count <= UINT_MAX16 && |names| <= UINT_MAX16
    requires fmt == Numeric ==> names == []
    requires |entries| == count * (2 + size) && |data| < WORD64
    ensures var s := Fixed(fmt, size, count, |names|) + entries + names + data;
      Layout(s, Hdr(fmt, size, count, |names|, |s|), entries, names, data)
  {
    var fixed := Fixed(fmt, size, count, |names|);
    var s := fixed + entries + names + data;
    FixedRead(fmt, size, count, |names|, entries + names + data);
    assert fixed + (entries + names + data) == s;
    FourParts(Hdr(fmt, size, count, |names|, |s|), fixed, entries, names, data);
    hide ReadHdr, Fixed;
  }

  /** A record is read back with its own layout. */
  lemma PackedLayout(r: Record)
    requires Valid(r)
    ensures Layout(Packed(r), HdrOf(r), Flat(Entries(r)), NamePool(r.cols), DataPool(r.cols))
  {
    if r.fmt == Numeric { NumericHasNoNames(r.cols); }
    EntriesSize(r);
    SizeRange(r);
    hide Flat, NamePool, DataPool, Entries, Layout, Fixed, OffsetBytes, MaxOffsetSize;
    PartsLayout(r.fmt, r.size, |r.cols|, Flat(Entries(r)), NamePool(r.cols), DataPool(r.cols));
  }
}
