/** Creating a record from keys and values in any order. */
module DynCreate {
  import opened Basics
  import opened DynCodec
  import opened DynValues
  import opened DynFormat
  import opened DynRecord
  import opened DynBuild
  import opened DynFind

  datatype Code = Done | Limit | Data | Format

  ghost function ColumnOf(fmt: Format, k: Key, v: Value): Column {
    Column(k, TypeOf(v), Encoding(v, fmt))
  }

  /** The columns of the values that are not NULL, in the given order. */
  ghost function Cols(fmt: Format, keys: seq<Key>, values: seq<Value>, order: seq<nat>): seq<Column>
    requires |keys| == |values| && forall i :: 0 <= i < |order| ==> order[i] < |keys|
  {
    if order == [] then [] else
      var o := order[|order| - 1];
      Cols(fmt, keys, values, order[..|order| - 1])
      + if values[o] == Null then [] else [ColumnOf(fmt, keys[o], values[o])]
  }

  // ---- Sizes do not depend on the order ----

  ghost function Total(w: seq<nat>, order: seq<nat>): nat
    requires forall i :: 0 <= i < |order| ==> order[i] < |w|
  {
    if order == [] then 0 else Total(w, order[..|order| - 1]) + w[order[|order| - 1]]
  }

  lemma {:induction false} TotalWithout(w: seq<nat>, order: seq<nat>, j: nat)
    requires j < |order| && forall i :: 0 <= i < |order| ==> order[i] < |w|
    ensures Total(w, order) == Total(w, order[..j] + order[j + 1..]) + w[order[j]]
  {
    var n := |order| - 1;
    var rest := order[..j] + order[j + 1..];
    if j < n {
      TotalWithout(w, order[..n], j);
      assert order[..n][..j] + order[..n][j + 1..] == rest[..n - 1] && rest[n - 1] == order[n];
      assert order[..n][j] == order[j];
    } else {
      assert rest == order[..n];
    }
  }

  lemma MultisetWithout(s: seq<nat>, j: nat)
    requires j < |s|
    ensures multiset(s[..j] + s[j + 1..]) == multiset(s) - multiset{s[j]}
  {
    assert s == s[..j] + ([s[j]] + s[j + 1..]);
  }

  lemma {:induction false} TotalPermuted(w: seq<nat>, s: seq<nat>, t: seq<nat>)
    requires multiset(s) == multiset(t)
    requires (forall i :: 0 <= i < |s| ==> s[i] < |w|) && forall i :: 0 <= i < |t| ==> t[i] < |w|
    ensures Total(w, s) == Total(w, t)
    decreases |s|
  {
    assert |s| == |multiset(s)| == |multiset(t)| == |t|;
    if s != [] {
      var n := |s| - 1;
      MultisetWithout(s, n);
      assert s[n] in multiset(s) && s[n] in multiset(t);
      var j :| 0 <= j < |t| && t[j] == s[n];
      var rest := t[..j] + t[j + 1..];
      MultisetWithout(t, j);
      assert s[..n] + s[n + 1..] == s[..n];
      forall i | 0 <= i < |rest| ensures rest[i] < |w| { assert rest[i] == t[if i < j then i else i + 1]; }
      TotalPermuted(w, s[..n], rest);
      TotalWithout(w, t, j);
    }
  }

  ghost function Range(n: nat): seq<nat> {
    seq(n, i => i)
  }

  // ---- Sizes of the columns ----

  ghost predicate Inputs(fmt: Format, keys: seq<Key>, values: seq<Value>, order: seq<nat>) {
    |keys| == |values| && forall i :: 0 <= i < |order| ==> order[i] < |keys|
  }

  ghost function Counts(values: seq<Value>): (w: seq<nat>)
    ensures |w| == |values|
  {
    seq(|values|, i requires 0 <= i < |values| => if values[i] == Null then 0 else 1)
  }

  ghost function Lengths(fmt: Format, values: seq<Value>): (w: seq<nat>)
    ensures |w| == |values|
  {
    seq(|values|, i requires 0 <= i < |values| => if values[i] == Null then 0 else |Encoding(values[i], fmt)|)
  }

  /** The lengths that calc_var_sizes adds up. */
  ghost function PlannedLengths(fmt: Format, values: seq<Value>): (w: seq<nat>)
    ensures |w| == |values|
  {
    seq(|values|, i requires 0 <= i < |values| => if values[i] == Null then 0 else PlannedLen(values[i], fmt))
  }

  ghost function NameLengths(keys: seq<Key>, values: seq<Value>): (w: seq<nat>)
    requires |keys| == |values|
    ensures |w| == |values|
  {
    seq(|values|, i requires 0 <= i < |values| => if values[i] == Null then 0 else |NameOf(keys[i])|)
  }

  lemma PoolsSnoc(cols: seq<Column>, c: Column)
    ensures NamePool(cols + [c]) == NamePool(cols) + NameOf(c.key) && DataPool(cols + [c]) == DataPool(cols) + c.data
  {
    var d := cols + [c];
    PoolsNext(d, |cols|);
    assert d[..|cols|] == cols && d[..|cols| + 1] == d;
  }

  lemma {:induction false} ColsSizes(fmt: Format, keys: seq<Key>, values: seq<Value>, order: seq<nat>)
    requires Inputs(fmt, keys, values, order)
    ensures var cols := Cols(fmt, keys, values, order);
      && |cols| == Total(Counts(values), order) && |DataPool(cols)| == Total(Lengths(fmt, values), order)
      && |NamePool(cols)| == Total(NameLengths(keys, values), order)
  {
    hide DataPool, NamePool, Encoding, ColumnOf;
    if order == [] {
      EmptyPools();
    } else {
      var n := |order| - 1;
      var o, before := order[n], Cols(fmt, keys, values, order[..n]);
      ColsSizes(fmt, keys, values, order[..n]);
      if values[o] == Null {
        assert Cols(fmt, keys, values, order) == before + [] == before;
      } else {
        AppendedSizes(fmt, before, keys[o], values[o]);
      }
    }
  }

  lemma AppendedSizes(fmt: Format, cols: seq<Column>, key: Key, val: Value)
    ensures var c := ColumnOf(fmt, key, val);
      && |DataPool(cols + [c])| == |DataPool(cols)| + |Encoding(val, fmt)|
      && |NamePool(cols + [c])| == |NamePool(cols)| + |NameOf(key)|
  {
    hide DataPool, NamePool, Encoding;
    PoolsSnoc(cols, ColumnOf(fmt, key, val));
  }

  /** calc_var_sizes: sums over the values in the order given by the caller. */
  method CalcVarSizes(fmt: Format, keys: seq<Key>, values: seq<Value>)
    returns (failed: bool, count: nat, offsetSize: nat, dataSize: nat, nmpoolSize: nat)
    requires |keys| == |values|
    ensures var all := Range(|keys|);
      && count == Total(Counts(values), all) && dataSize == Total(PlannedLengths(fmt, values), all)
      && nmpoolSize == Total(NameLengths(keys, values), all)
    ensures offsetSize == OffsetBytes(fmt, dataSize) && (failed <==> offsetSize >= MaxOffsetSize(fmt))
  {
    hide Encoding, PlannedLen, OffsetBytes;
    count, dataSize, nmpoolSize := 0, 0, 0;
    ghost var all := Range(|keys|);
    for i := 0 to |values|
      invariant count == Total(Counts(values), all[..i]) && dataSize == Total(PlannedLengths(fmt, values), all[..i])
      invariant nmpoolSize == Total(NameLengths(keys, values), all[..i])
    {
      assert all[..i + 1][..i] == all[..i];
      if values[i] != Null {
        count := count + 1;
        var len := ValueLen(values[i], fmt);
        dataSize := dataSize + len;
        nmpoolSize := nmpoolSize + if keys[i].Name? then |keys[i].text| else 0;
      }
    }
    assert all[..|values|] == all;
    offsetSize := OffsetBytes(fmt, dataSize);
    failed := offsetSize >= MaxOffsetSize(fmt);
  }

  // ---- Order and contents of the columns ----

  ghost predicate Ascending(keys: seq<Key>, order: seq<nat>)
    requires forall i :: 0 <= i < |order| ==> order[i] < |keys|
  {
    forall i, j :: 0 <= i < j < |order| ==> Cmp(keys[order[i]], keys[order[j]]) <= 0
  }

  ghost predicate Strict(keys: seq<Key>, order: seq<nat>)
    requires forall i :: 0 <= i < |order| ==> order[i] < |keys|
  {
    forall i, j :: 0 <= i < j < |order| ==> Cmp(keys[order[i]], keys[order[j]]) < 0
  }

  /** Comparing neighbours finds all duplicates of a sorted list. */
  lemma NeighboursDiffer(keys: seq<Key>, order: seq<nat>)
    requires (forall i :: 0 <= i < |order| ==> order[i] < |keys|) && Ascending(keys, order)
    requires forall i :: 0 <= i < |order| - 1 ==> Cmp(keys[order[i]], keys[order[i + 1]]) != 0
    ensures Strict(keys, order)
  {
    hide Cmp;
    forall i, j | 0 <= i < j < |order| ensures Cmp(keys[order[i]], keys[order[j]]) < 0 {
      CmpOrder(keys[order[i]], keys[order[i + 1]], keys[order[j]]);
      assert Cmp(keys[order[i]], keys[order[i + 1]]) < 0;
    }
  }

  /** The columns are those of the values that are not NULL. */
  lemma {:induction false} ColsFrom(fmt: Format, keys: seq<Key>, values: seq<Value>, order: seq<nat>, c: Column)
    requires Inputs(fmt, keys, values, order)
    ensures c in Cols(fmt, keys, values, order)
       <==> exists i :: 0 <= i < |order| && values[order[i]] != Null
                         && c == ColumnOf(fmt, keys[order[i]], values[order[i]])
  {
    hide Encoding;
    if order != [] {
      var n := |order| - 1;
      ColsFrom(fmt, keys, values, order[..n], c);
      assert forall i :: 0 <= i < n ==> order[..n][i] == order[i];
    }
  }

  lemma {:induction false} ColsSorted(fmt: Format, keys: seq<Key>, values: seq<Value>, order: seq<nat>)
    requires Inputs(fmt, keys, values, order) && Strict(keys, order)
    ensures Sorted(Cols(fmt, keys, values, order))
  {
    hide Encoding, Cmp;
    if order != [] {
      var n := |order| - 1;
      var before, cols := Cols(fmt, keys, values, order[..n]), Cols(fmt, keys, values, order);
      ColsSorted(fmt, keys, values, order[..n]);
      forall i | 0 <= i < |before| ensures Cmp(before[i].key, keys[order[n]]) < 0 {
        ColsFrom(fmt, keys, values, order[..n], before[i]);
        var k :| 0 <= k < n && before[i] == ColumnOf(fmt, keys[order[..n][k]], values[order[..n][k]]);
        assert order[..n][k] == order[k];
      }
    }
  }

  lemma ColsPrefix(fmt: Format, keys: seq<Key>, values: seq<Value>, order: seq<nat>, i: nat)
    requires Inputs(fmt, keys, values, order) && i <= |order|
    ensures var (part, cols) := (Cols(fmt, keys, values, order[..i]), Cols(fmt, keys, values, order));
      |part| <= |cols| && part == cols[..|part|]
    decreases |order|
  {
    hide Encoding;
    if i < |order| {
      var n := |order| - 1;
      ColsPrefix(fmt, keys, values, order[..n], i);
      assert order[..n][..i] == order[..i];
    } else {
      assert order[..i] == order;
    }
  }

  /** The finite map `m` holds every value that is not NULL under its key, and nothing else. */
  ghost predicate Assigns(m: map<Key, (nat, seq<Byte>)>, fmt: Format, keys: seq<Key>, values: seq<Value>)
    requires |keys| == |values|
  {
    && (forall i :: 0 <= i < |keys| ==>
        if values[i] == Null then keys[i] !in m
        else keys[i] in m && m[keys[i]] == (TypeOf(values[i]), Encoding(values[i], fmt)))
    && (forall k :: k in m ==> k in keys)
  }

  ghost predicate Permutes(order: seq<nat>, n: nat) {
    multiset(order) == multiset(Range(n))
  }

  lemma PermutesRange(order: seq<nat>, n: nat)
    requires Permutes(order, n)
    ensures |order| == n && (forall i :: 0 <= i < n ==> order[i] < n)
    ensures forall k :: 0 <= k < n ==> k in order
  {
    assert |multiset(order)| == |multiset(Range(n))|;
    forall i | 0 <= i < |order| ensures order[i] < n {
      assert order[i] in multiset(order) && order[i] in multiset(Range(n));
    }
    forall k | 0 <= k < n ensures k in order {
      assert Range(n)[k] == k && k in multiset(Range(n)) && k in multiset(order);
    }
  }

  lemma KeyAssigned(fmt: Format, keys: seq<Key>, values: seq<Value>, order: seq<nat>, at: nat)
    requires Inputs(fmt, keys, values, order) && Strict(keys, order) && at < |order| && values[order[at]] != Null
    ensures var (i, m) := (order[at], Content(Cols(fmt, keys, values, order)));
      keys[i] in m && m[keys[i]] == (TypeOf(values[i]), Encoding(values[i], fmt))
  {
    hide Encoding, Cmp, Content, TypeOf;
    var cols, i := Cols(fmt, keys, values, order), order[at];
    ColsSorted(fmt, keys, values, order);
    var c := ColumnOf(fmt, keys[i], values[i]);
    ColsFrom(fmt, keys, values, order, c);
    var k :| 0 <= k < |cols| && cols[k] == c;
    ContentAt(cols, k);
  }

  lemma OnlyKeys(fmt: Format, keys: seq<Key>, values: seq<Value>, order: seq<nat>, k: Key)
    requires Inputs(fmt, keys, values, order) && k in Content(Cols(fmt, keys, values, order))
    ensures k in keys
  {
    hide Encoding, Cmp, Content, TypeOf;
    var cols := Cols(fmt, keys, values, order);
    ContentKeys(cols, k);
    var j :| 0 <= j < |cols| && cols[j].key == k;
    ColsFrom(fmt, keys, values, order, cols[j]);
  }

  lemma ColsAssign(fmt: Format, keys: seq<Key>, values: seq<Value>, order: seq<nat>)
    requires |keys| == |values| && Permutes(order, |keys|) && Inputs(fmt, keys, values, order) && Strict(keys, order)
    ensures Assigns(Content(Cols(fmt, keys, values, order)), fmt, keys, values)
  {
    hide Encoding, Cmp, Content, TypeOf, Cols, Strict, Permutes;
    PermutesRange(order, |keys|);
    var m := Content(Cols(fmt, keys, values, order));
    forall i | 0 <= i < |keys|
      ensures if values[i] == Null then keys[i] !in m
              else keys[i] in m && m[keys[i]] == (TypeOf(values[i]), Encoding(values[i], fmt))
    {
      assert i in order;
      var at :| 0 <= at < |order| && order[at] == i;
      if values[i] == Null {
        NullAbsent(fmt, keys, values, order, at);
      } else {
        KeyAssigned(fmt, keys, values, order, at);
      }
    }
    forall k | k in m ensures k in keys {
      OnlyKeys(fmt, keys, values, order, k);
    }
  }

  lemma NullAbsent(fmt: Format, keys: seq<Key>, values: seq<Value>, order: seq<nat>, at: nat)
    requires Inputs(fmt, keys, values, order) && Strict(keys, order) && at < |order| && values[order[at]] == Null
    ensures keys[order[at]] !in Content(Cols(fmt, keys, values, order))
  {
    hide Encoding, Cmp, Content;
    var cols, key := Cols(fmt, keys, values, order), keys[order[at]];
    forall k | 0 <= k < |cols| ensures cols[k].key != key {
      ColsFrom(fmt, keys, values, order, cols[k]);
      var i :| 0 <= i < |order| && values[order[i]] != Null
        && cols[k] == ColumnOf(fmt, keys[order[i]], values[order[i]]);
      CmpOrder(key, keys[order[i]], key);
      assert i < at || at < i;
    }
    ContentKeys(cols, key);
  }

  // ---- Creating ----

  /** What the create functions demand: keys of the format's kind, types that fit it, and names that
      fit the pool. */
  ghost predicate Accepts(fmt: Format, keys: seq<Key>, values: seq<Value>) {
    && |keys| == |values| <= UINT_MAX16
    && (forall i :: 0 <= i < |keys| ==>
        (fmt == Numeric <==> keys[i].Num?) && TypeOf(values[i]) <= TypeCount(fmt))
    && Total(NameLengths(keys, values), Range(|keys|)) <= UINT_MAX16
  }

  /** The order that qsort gives. Keys over the limit may compare wrongly; they are refused later. */
  ghost predicate SortedBy(keys: seq<Key>, order: seq<nat>) {
    && Permutes(order, |keys|) && (forall i :: 0 <= i < |order| ==> order[i] < |keys|)
    && ((forall i :: 0 <= i < |keys| ==> !OverLimit(keys[i])) ==> Ascending(keys, order))
  }

  ghost predicate AnyLong(keys: seq<Key>) {
    exists i :: 0 <= i < |keys| && OverLimit(keys[i])
  }

  ghost predicate Repeated(keys: seq<Key>) {
    exists i, j :: 0 <= i < j < |keys| && keys[i] == keys[j]
  }

  ghost predicate Refused(keys: seq<Key>) {
    AnyLong(keys) || Repeated(keys)
  }

  /** The check of dynamic_new_column_store for long and for equal keys, neighbour by neighbour. */
  method CheckKeys(keys: seq<Key>, order: seq<nat>) returns (refused: bool)
    requires SortedBy(keys, order) && keys != []
    ensures refused <==> Refused(keys)
    ensures !refused ==> Strict(keys, order) && forall i :: 0 <= i < |keys| ==> !OverLimit(keys[i])
  {
    hide Cmp, OverLimit;
    PermutesRange(order, |keys|);
    var n := |order|;
    var i := 0;
    while i < n - 1
      invariant 0 <= i <= n - 1
      invariant forall k :: 0 <= k < i ==> !OverLimit(keys[order[k]]) && Cmp(keys[order[k]], keys[order[k + 1]]) != 0
    {
      if OverLimit(keys[order[i]]) || Cmp(keys[order[i]], keys[order[i + 1]]) == 0 {
        if !OverLimit(keys[order[i]]) { SameTwice(keys, order, i); }
        return true;
      }
      i := i + 1;
    }
    if OverLimit(keys[order[i]]) {
      return true;
    }
    AllDistinct(keys, order);
    refused := false;
  }

  lemma SameTwice(keys: seq<Key>, order: seq<nat>, i: nat)
    requires Permutes(order, |keys|) && (forall k :: 0 <= k < |order| ==> order[k] < |keys|)
    requires i + 1 < |order| && Cmp(keys[order[i]], keys[order[i + 1]]) == 0
    ensures Refused(keys)
  {
    CmpOrder(keys[order[i]], keys[order[i + 1]], keys[order[i]]);
    NoRepeats(order, |keys|, i, i + 1);
    hide Cmp, Permutes;
    var a, b := order[i], order[i + 1];
    assert keys[a] == keys[b] && a != b;
  }

  lemma NoRepeats(order: seq<nat>, n: nat, i: nat, j: nat)
    requires Permutes(order, n) && i < j < |order|
    ensures order[i] != order[j]
  {
    PermutesRange(order, n);
    RangeOnce(n, order[i]);
    TwiceInMultiset(order, i, j);
  }

  lemma TwiceInMultiset(s: seq<nat>, i: nat, j: nat)
    requires i < j < |s|
    ensures s[i] == s[j] ==> multiset(s)[s[i]] >= 2
  {
    assert s == s[..i] + ([s[i]] + (s[i + 1..j] + ([s[j]] + s[j + 1..])));
  }

  lemma {:induction false} RangeOnce(n: nat, k: nat)
    ensures multiset(Range(n))[k] == if k < n then 1 else 0
  {
    if n > 0 {
      RangeOnce(n - 1, k);
      assert Range(n) == Range(n - 1) + [n - 1];
    }
  }

  lemma AllDistinct(keys: seq<Key>, order: seq<nat>)
    requires SortedBy(keys, order) && forall k :: 0 <= k < |order| ==> !OverLimit(keys[order[k]])
    requires forall k :: 0 <= k < |order| - 1 ==> Cmp(keys[order[k]], keys[order[k + 1]]) != 0
    ensures !Refused(keys) && Strict(keys, order) && forall i :: 0 <= i < |keys| ==> !OverLimit(keys[i])
  {
    hide Cmp, OverLimit, Permutes;
    PermutesRange(order, |keys|);
    forall i | 0 <= i < |keys| ensures !OverLimit(keys[i]) {
      assert i in order;
    }
    NeighboursDiffer(keys, order);
    forall i, j | 0 <= i < j < |keys| ensures keys[i] != keys[j] {
      assert i in order && j in order;
      var a, b :| 0 <= a < |order| && 0 <= b < |order| && order[a] == i && order[b] == j;
      CmpOrder(keys[i], keys[j], keys[i]);
    }
  }

  /** The data that all values together are planned to take. */
  ghost function PlannedTotal(fmt: Format, keys: seq<Key>, values: seq<Value>): nat
    requires |keys| == |values|
  {
    Total(PlannedLengths(fmt, values), Range(|keys|))
  }

  /** It is never less than what they do take. */
  lemma {:induction false} PlannedEnough(fmt: Format, values: seq<Value>, order: seq<nat>)
    requires forall i :: 0 <= i < |order| ==> order[i] < |values|
    ensures Total(Lengths(fmt, values), order) <= Total(PlannedLengths(fmt, values), order)
  {
    hide Encoding, Misplanned;
    if order != [] {
      PlannedEnough(fmt, values, order[..|order| - 1]);
    }
  }

  /** The sorted columns are within the limits of the format, with offsets of the planned size. */
  lemma ColsValid(fmt: Format, keys: seq<Key>, values: seq<Value>, order: seq<nat>)
    requires Accepts(fmt, keys, values) && Permutes(order, |keys|) && Inputs(fmt, keys, values, order)
    requires Strict(keys, order) && (forall i :: 0 <= i < |keys| ==> !OverLimit(keys[i]))
    requires OffsetBytes(fmt, PlannedTotal(fmt, keys, values)) < MaxOffsetSize(fmt)
    ensures var (cols, all) := (Cols(fmt, keys, values, order), Range(|keys|));
      && DynRecord.Valid(Plain(fmt, OffsetBytes(fmt, PlannedTotal(fmt, keys, values)), cols))
      && |cols| == Total(Counts(values), all) && |NamePool(cols)| == Total(NameLengths(keys, values), all)
  {
    hide Encoding, Cmp, OffsetBytes, DataPool, NamePool, Cols, Misplanned, OffsetLimit, PlannedLen;
    var cols, all := Cols(fmt, keys, values, order), Range(|keys|);
    ColsSizes(fmt, keys, values, order);
    TotalPermuted(Counts(values), order, all);
    TotalPermuted(Lengths(fmt, values), order, all);
    TotalPermuted(NameLengths(keys, values), order, all);
    ColsSorted(fmt, keys, values, order);
    TotalCounts(values, |keys|);
    forall k | 0 <= k < |cols| ensures ColumnOk(fmt, cols[k]) {
      ColsFrom(fmt, keys, values, order, cols[k]);
    }
    PlannedEnough(fmt, values, all);
    var total := PlannedTotal(fmt, keys, values);
    RoomFor(fmt, total, OffsetBytes(fmt, total));
    PlainValid(fmt, OffsetBytes(fmt, total), cols);
  }

  lemma {:induction false} TotalCounts(values: seq<Value>, n: nat)
    requires n <= |values|
    ensures Total(Counts(values), Range(n)) <= n
  {
    if n > 0 {
      TotalCounts(values, n - 1);
      assert Range(n)[..n - 1] == Range(n - 1);
    }
  }

  /** More data is planned than the largest offset size that is accepted can address. */
  ghost predicate TooMuch(fmt: Format, keys: seq<Key>, values: seq<Value>)
    requires |keys| == |values|
  {
    OffsetBytes(fmt, PlannedTotal(fmt, keys, values)) >= MaxOffsetSize(fmt)
  }

  /** The fixed header before anything is written to it. */
  function ZeroHeader(fmt: Format): seq<Byte> {
    seq(FixedSize(fmt), _ => 0)
  }

  /** mariadb_dyncol_create_many over the bytes `was`, which are none for a new string: `order` is
      what qsort makes of the keys. Offsets get the size that the planned data needs, which may be
      more than the stored data does. Too much data is refused before the bytes are touched, keys
      only after the fixed header is cleared. */
  method Create(was: seq<Byte>, fmt: Format, keys: seq<Key>, values: seq<Value>, order: seq<nat>)
    returns (rc: Code, str: seq<Byte>, ghost rec: Record)
    requires Accepts(fmt, keys, values) && SortedBy(keys, order)
    ensures rc == Limit <==> TooMuch(fmt, keys, values)
    ensures rc == Limit ==> str == was
    ensures rc == Data ==> str == ZeroHeader(fmt)
    ensures rc == Limit <==> OffsetBytes(fmt, PlannedTotal(fmt, keys, values)) >= MaxOffsetSize(fmt)
    ensures rc == Data <==> rc != Limit && Refused(keys)
    ensures rc != Format && rec == Plain(fmt, OffsetBytes(fmt, PlannedTotal(fmt, keys, values)), rec.cols)
    ensures rc == Done && keys == [] ==> str == [] && rec.cols == []
    ensures rc == Done && keys != [] ==> DynRecord.Valid(rec) && str == Packed(rec)
    ensures rc == Done ==> Assigns(Content(rec.cols), fmt, keys, values) && rec.cols == Cols(fmt, keys, values, order)
  {
    hide Encoding, Cmp, OffsetBytes, DataPool, NamePool, Cols, PlannedLen, Content, Strict, Packed, Permutes, OverLimit;
    var failed, count, offsetSize, dataSize, nmpoolSize := CalcVarSizes(fmt, keys, values);
    str, rec := was, Plain(fmt, offsetSize, []);
    if failed {
      return Limit, str, rec;
    }
    str := [];
    if |keys| == 0 {
      NothingAssigned(fmt, keys, values, order);
      return Done, str, rec;
    }
    str := ZeroHeader(fmt);
    var refused := CheckKeys(keys, order);
    if refused {
      return Data, str, rec;
    }
    rec := Plain(fmt, offsetSize, Cols(fmt, keys, values, order));
    ColsValid(fmt, keys, values, order);
    ColsAssign(fmt, keys, values, order);
    var builder := new Builder(fmt, offsetSize, count, nmpoolSize, rec);
    var data := StoreAll(builder, fmt, keys, values, order);
    str := builder.Finish(data);
    rc := Done;
  }

  lemma NothingAssigned(fmt: Format, keys: seq<Key>, values: seq<Value>, order: seq<nat>)
    requires keys == [] && |values| == 0 && SortedBy(keys, order)
    ensures Assigns(Content([]), fmt, keys, values) && !Refused(keys) && Cols(fmt, keys, values, order) == []
  {
    hide Permutes, Encoding, Ascending;
    NoOrder(order);
  }

  lemma NoOrder(order: seq<nat>)
    requires Permutes(order, 0)
    ensures order == []
  {
    PermutesRange(order, 0);
  }

  /** Writes entry and data of every value that is not NULL, in key order. */
  method StoreAll(b: Builder, fmt: Format, keys: seq<Key>, values: seq<Value>, order: seq<nat>)
    returns (data: seq<Byte>)
    requires Inputs(fmt, keys, values, order) && b.Valid() && b.done == 0 && b.fmt == fmt
    requires b.target.cols == Cols(fmt, keys, values, order) && Straight(b.target)
    modifies b`entry, b`name, b`done, b.header, b.nmpool
    ensures b.Valid() && b.done == |b.target.cols| && data == DataPool(b.target.cols)
  {
    hide Encoding, OffsetBytes, DataPool, NamePool, Flat, Entries, Entry, Cols, Builder.Valid;
    var str := new DynString();
    NothingYet(fmt, keys, values, order);
    ghost var cols := b.target.cols;
    var i := 0;
    while i < |order|
      invariant 0 <= i <= |order| && fresh(str) && b.Valid() && b.done <= |cols|
      invariant Cols(fmt, keys, values, order[..i]) == cols[..b.done] && str.str == DataPool(cols[..b.done])
    {
      var ord := order[i];
      NextColumn(fmt, keys, values, order, i);
      if values[ord] != Null {
        PoolsNext(cols, b.done);
        var failed := b.PutEntry(keys[ord], TypeOf(values[ord]), |str.str|);
        DataStore(str, values[ord], fmt);
      }
      i := i + 1;
    }
    assert order[..i] == order;
    assert cols[..b.done] == cols;
    data := str.str;
  }

  lemma NothingYet(fmt: Format, keys: seq<Key>, values: seq<Value>, order: seq<nat>)
    requires Inputs(fmt, keys, values, order)
    ensures Cols(fmt, keys, values, order[..0]) == [] && DataPool([]) == []
  {
    assert order[..0] == [] && Datas([]) == [];
  }

  lemma NextColumn(fmt: Format, keys: seq<Key>, values: seq<Value>, order: seq<nat>, i: nat)
    requires Inputs(fmt, keys, values, order) && i < |order|
    ensures var (cols, part, next) := (Cols(fmt, keys, values, order), Cols(fmt, keys, values, order[..i]),
                                       Cols(fmt, keys, values, order[..i + 1]));
      && |part| <= |cols| && part == cols[..|part|]
      && if values[order[i]] == Null then next == part
         else |part| < |cols| && cols[|part|] == ColumnOf(fmt, keys[order[i]], values[order[i]])
              && next == cols[..|part| + 1]
  {
    hide Encoding;
    ColsPrefix(fmt, keys, values, order, i);
    ColsPrefix(fmt, keys, values, order, i + 1);
    assert order[..i + 1][..i] == order[..i];
  }

  // ---- Creating and looking up ----

  ghost predicate KnownCharsets(values: seq<Value>, known: nat -> bool) {
    forall i :: 0 <= i < |values| && values[i].Str? ==> known(values[i].charset)
  }

  /** In a created record every key gives what storing keeps of its value, NULL for NULL, and every
      other key gives NULL. */
  lemma CreatedValues(m: map<Key, (nat, seq<Byte>)>, fmt: Format, keys: seq<Key>, values: seq<Value>,
                      known: nat -> bool)
    requires |keys| == |values| && Assigns(m, fmt, keys, values) && KnownCharsets(values, known)
    ensures forall i :: 0 <= i < |keys| ==> LookUp(m, keys[i], known) == Ok(Kept(values[i]))
    ensures forall k :: k !in keys ==> LookUp(m, k, known) == Ok(Null)
  {
    hide Encoding, Decoding, TypeOf;
    forall i | 0 <= i < |keys| ensures LookUp(m, keys[i], known) == Ok(Kept(values[i])) {
      ValueRoundTrip(values[i], fmt, known);
      NullKept(values[i]);
    }
  }

  lemma NullKept(v: Value)
    ensures v == Null ==> Kept(v) == Null
  {
  }

  lemma IntegerLength(fmt: Format, v: Value)
    ensures v.Int? || v.Uint? ==> |Encoding(v, fmt)| <= 8
  {
    Base8();
    match v
    case Int(i) => UintLength(ZigZag(i), 8);
    case Uint(u) => UintLength(u, 8);
    case _ =>
  }

  /** Creating a record and looking up a key, in one: the stored value comes back, or NULL. */
  method CreateAndGet(fmt: Format, keys: seq<Key>, values: seq<Value>, order: seq<nat>, key: Key, known: nat -> bool)
    returns (rc: Code, r: Result<Value>)
    requires Accepts(fmt, keys, values) && SortedBy(keys, order) && KnownCharsets(values, known)
    requires (fmt == Numeric <==> key.Num?) && (key.Num? ==> key.number <= UINT_MAX16)
    ensures rc == Limit <==> OffsetBytes(fmt, PlannedTotal(fmt, keys, values)) >= MaxOffsetSize(fmt)
    ensures rc == Data <==> rc != Limit && Refused(keys)
    ensures rc != Format
    ensures rc == Done ==> forall i :: 0 <= i < |keys| && keys[i] == key ==> r == Ok(Kept(values[i]))
    ensures rc == Done && key !in keys ==> r == Ok(Null)
  {
    hide Assigns, Content, Decoding, Kept, Encoding, DynRecord.Valid, Packed, Safe, Permutes, Seen;
    hide OffsetBytes, MaxOffsetSize, PlannedTotal, Refused, SortedBy, ShortIntegers, ReadHdr, SafeFor, LookUp;
    r := Ok(Null);
    var str;
    ghost var rec;
    rc, str, rec := Create([], fmt, keys, values, order);
    if rc == Done {
      CreatedValues(Content(rec.cols), fmt, keys, values, known);
      if keys != [] {
        CreatedShort(fmt, keys, values, rec);
        Readable(str, rec);
      } else {
        NothingSeen(rec);
      }
      r := Get(str, key, known, true, rec);
    }
  }

  lemma NothingSeen(rec: Record)
    requires rec.cols == [] && rec.offs == []
    ensures Seen(rec) == Content(rec.cols)
  {
  }

  /** The integers of any record with these contents are short. */
  lemma CreatedShort(fmt: Format, keys: seq<Key>, values: seq<Value>, rec: Record)
    requires |keys| == |values| && DynRecord.Valid(rec) && Assigns(Content(rec.cols), fmt, keys, values)
    ensures ShortIntegers(rec.cols)
  {
    hide DynRecord.Valid, Packed, Encoding, Content;
    SortedCols(rec);
    forall k | 0 <= k < |rec.cols| && rec.cols[k].typ <= 2 ensures |rec.cols[k].data| <= 8 {
      ContentAt(rec.cols, k);
      var i :| 0 <= i < |keys| && keys[i] == rec.cols[k].key;
      IntegerLength(fmt, values[i]);
    }
  }

  /** A record with real offsets and short integers can be read, and lookups see its columns. */
  lemma Readable(str: seq<Byte>, rec: Record)
    requires DynRecord.Valid(rec) && str == Packed(rec) && Straight(rec) && ShortIntegers(rec.cols)
    ensures str != [] && ReadHdr(str).Some? && var h := ReadHdr(str).value; h.fmt == rec.fmt && Safe(str, h)
    ensures |rec.cols| == |rec.offs| && Seen(rec) == Content(rec.cols)
  {
    PackedLayout(rec);
    ValidParts(rec);
    hide DynRecord.Valid, Packed, Content, Seen, ReadHdr, Safe, Straight, ShortIntegers;
    PackedSafe(str, HdrOf(rec), rec);
    SeenStraight(rec);
  }

  lemma SortedCols(rec: Record)
    requires DynRecord.Valid(rec)
    ensures Sorted(rec.cols) && forall k :: 0 <= k < |rec.cols| ==> rec.cols[k].typ >= 1
  {
    forall k | 0 <= k < |rec.cols| ensures rec.cols[k].typ >= 1 { assert ColumnOk(rec.fmt, rec.cols[k]); }
  }
}
