/** Two records byte by byte, and the type numbers. */
module DynSamples {
  import opened Basics
  import opened DynCodec
  import opened DynValues
  import opened DynFormat
  import opened DynRecord
  import opened DynCreate

  const MINUS_ONE: Column := Column(Num(1), 1, [1])

  lemma FlatOne(a: seq<Byte>)
    ensures Flat([a]) == a
  {
    assert [a][..0] == [];
  }

  lemma FlatTwo(a: seq<Byte>, b: seq<Byte>)
    ensures Flat([a, b]) == a + b
  {
    assert [a, b][..1] == [a];
    FlatOne(a);
  }

  lemma OneColumn(a: Column)
    ensures DataPool([a]) == a.data && NamePool([a]) == NameOf(a.key) && Offsets([a]) == [0]
  {
    EmptyPools();
    PoolsSnoc([], a);
    hide DataPool, NamePool;
    assert [] + [a] == [a] && [a][..0] == [];
  }

  lemma TwoColumns(a: Column, b: Column)
    ensures DataPool([a, b]) == a.data + b.data && NamePool([a, b]) == NameOf(a.key) + NameOf(b.key)
    ensures |NamePool([a, b][..0])| == 0 && |NamePool([a, b][..1])| == |NameOf(a.key)|
    ensures Offsets([a, b]) == [0, |a.data|]
  {
    EmptyPools();
    PoolsSnoc([], a);
    PoolsSnoc([a], b);
    hide DataPool, NamePool;
    assert [] + [a] == [a] && [a] + [b] == [a, b] && [a, b][..0] == [] && [a, b][..1] == [a];
  }

  lemma LEOne(n: Byte, k: nat)
    requires 1 <= k <= 2
    ensures LE(n, k) == if k == 1 then [n] else [n, 0]
  {
    assert LE(0, 0) == [] && LE(0, 1) == [0];
  }

  /** Number 1 with the signed value -1. */
  lemma MinusOne()
    ensures var cols := [ColumnOf(Numeric, Num(1), Int(-1))];
      Valid(Plain(Numeric, 1, cols)) && Packed(Plain(Numeric, 1, cols)) == [0, 1, 0, 1, 0, 0, 1]
  {
    hide LE, Flat, Entries, DataPool, NamePool, ColumnOf, Offsets, Cmp, Encoding;
    MinusOneColumn();
    var r := Plain(Numeric, 1, [MINUS_ONE]);
    OneColumn(MINUS_ONE);
    MinusOneEntries(r);
    LEOne(1, 2);
  }

  lemma MinusOneColumn()
    ensures ColumnOf(Numeric, Num(1), Int(-1)) == MINUS_ONE
  {
    ZigZagIs(-1);
    hide ZigZag;
    assert UintEncoding(0) == [] && UintEncoding(1) == [1];
  }

  lemma MinusOneEntries(r: Record)
    requires r == Record(Numeric, 1, [MINUS_ONE], [0])
    ensures Flat(Entries(r)) == [1, 0, 0]
  {
    LEOne(1, 2);
    LEOne(0, 1);
    hide LE, Flat;
    assert Entry(r, 0) == [1, 0, 0];
    hide Entry;
    assert Entries(r) == [Entry(r, 0)];
    FlatOne(Entry(r, 0));
  }

  /** Creating this record. */
  method CreateMinusOne() returns (rc: Code, str: seq<Byte>)
    ensures rc == Done && str == [0, 1, 0, 1, 0, 0, 1]
  {
    OnlyColumn();
    MinusOne();
    hide Packed, DynRecord.Valid, Plain, ColumnOf, Accepts, SortedBy, Refused, TooMuch, Assigns, PlannedTotal;
    hide Cols, OffsetBytes, KnownCharsets;
    ghost var rec;
    rc, str, rec := Create([], Numeric, [Num(1)], [Int(-1)], [0]);
  }

  lemma OnlyColumn()
    ensures var (keys, values, order) := ([Num(1)], [Int(-1)], [0]);
      && Accepts(Numeric, keys, values) && SortedBy(keys, order) && !Refused(keys)
      && !TooMuch(Numeric, keys, values) && OffsetBytes(Numeric, PlannedTotal(Numeric, keys, values)) == 1
      && Cols(Numeric, keys, values, order) == [ColumnOf(Numeric, Num(1), Int(-1))]
  {
    MinusOneColumn();
    var keys, values, order := [Num(1)], [Int(-1)], [0];
    assert Range(1) == [0] && order[..0] == [];
    assert |Encoding(Int(-1), Numeric)| == 1 && PlannedLen(Int(-1), Numeric) == 1;
    hide Encoding, PlannedLen, ColumnOf;
    assert PlannedLengths(Numeric, values) == [1] && NameLengths(keys, values) == [0];
  }

  const NAME_A: Column := Column(Name([97]), 2, [44, 1])
  const NAME_BC: Column := Column(Name([98, 99]), 4, [33, 120])

  lemma NamedColumns()
    ensures ColumnOf(Named, Name([97]), Uint(300)) == NAME_A
    ensures ColumnOf(Named, Name([98, 99]), Str(33, [120])) == NAME_BC
  {
    assert UintEncoding(0) == [] && UintEncoding(1) == [1] && UintEncoding(300) == [44] + UintEncoding(1);
    assert VarUint(33) == [33];
  }

  lemma NamedEntries(r: Record)
    requires r == Record(Named, 2, [NAME_A, NAME_BC], [0, 2])
    ensures Flat(Entries(r)) == [0, 0, 1, 0] + [1, 0, 35, 0]
  {
    LEOne(0, 2);
    LEOne(1, 2);
    LEOne(35, 2);
    TwoColumns(NAME_A, NAME_BC);
    hide LE, Flat, NamePool, DataPool, Offsets;
    assert Entry(r, 0) == [0, 0, 1, 0] && Entry(r, 1) == [1, 0, 35, 0];
    hide Entry;
    assert Entries(r) == [Entry(r, 0), Entry(r, 1)];
    FlatTwo(Entry(r, 0), Entry(r, 1));
  }

  /** Column a with the unsigned value 300 and column bc with the text x in character set 33. The shorter
      name comes first. */
  lemma TwoNames()
    ensures var cols := [ColumnOf(Named, Name([97]), Uint(300)), ColumnOf(Named, Name([98, 99]), Str(33, [120]))];
      && Valid(Plain(Named, 2, cols))
      && Packed(Plain(Named, 2, cols))
         == [4, 2, 0, 3, 0] + ([0, 0, 1, 0] + [1, 0, 35, 0]) + ([97] + [98, 99]) + ([44, 1] + [33, 120])
  {
    NamedColumns();
    hide *;
    NamedBytes();
  }

  lemma NamedBytes()
    ensures var r := Plain(Named, 2, [NAME_A, NAME_BC]);
      && Valid(r)
      && Packed(r) == [4, 2, 0, 3, 0] + ([0, 0, 1, 0] + [1, 0, 35, 0]) + ([97] + [98, 99]) + ([44, 1] + [33, 120])
  {
    TwoColumns(NAME_A, NAME_BC);
    var r := Record(Named, 2, [NAME_A, NAME_BC], [0, 2]);
    NamedEntries(r);
    NamedValid(r);
    assert Plain(Named, 2, [NAME_A, NAME_BC]) == r;
    hide Flat, Entries, DataPool, NamePool, DynRecord.Valid, Offsets, Fixed, Plain;
    FixedPart();
  }

  lemma FixedPart()
    ensures Fixed(Named, 2, 2, 3) == [4, 2, 0, 3, 0]
  {
    LEOne(2, 2);
    LEOne(3, 2);
    hide LE;
  }

  lemma NamedValid(r: Record)
    requires r == Record(Named, 2, [NAME_A, NAME_BC], [0, 2])
    ensures Valid(r)
  {
    TwoColumns(NAME_A, NAME_BC);
    hide DataPool, NamePool, Offsets;
  }

  /** The type numbers of all values. */
  lemma TypeNumbers(i: Int64, u: Uint64, bits: Octets8, charset: Charset, text: seq<Byte>, t: Time, record: seq<Byte>)
    ensures TypeOf(Null) == 0 && TypeOf(Int(i)) == 1 && TypeOf(Uint(u)) == 2 && TypeOf(Double(bits)) == 3
    ensures TypeOf(Str(charset, text)) == 4 && TypeOf(DateTime(t)) == 6 && TypeOf(Date(t)) == 7
    ensures TypeOf(TimeOfDay(t)) == 8 && TypeOf(Nested(record)) == 9
  {
  }
}
