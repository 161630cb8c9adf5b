/** What an update of a sorted record amounts to: changes in key order are merged into the columns,
    replacing, adding or deleting one column each. */
module DynMerge {
  import opened Basics
  import opened DynValues
  import opened DynFormat
  import opened DynRecord
  import opened DynFind
  import opened DynCreate

  datatype Change = Change(key: Key, val: Value)

  ghost predicate InOrder(ch: seq<Change>) {
    forall i, j :: 0 <= i < j < |ch| ==> Cmp(ch[i].key, ch[j].key) < 0
  }

  // ---- Places ----

  /** How many columns come before a key. */
  ghost function Place(cols: seq<Column>, key: Key): (p: nat)
    ensures p <= |cols|
  {
    if cols == [] || Cmp(cols[0].key, key) >= 0 then 0 else 1 + Place(cols[1..], key)
  }

  lemma {:induction false} PlaceIs(cols: seq<Column>, key: Key)
    requires Sorted(cols)
    ensures forall k :: 0 <= k < Place(cols, key) ==> Cmp(cols[k].key, key) < 0
    ensures forall k :: Place(cols, key) <= k < |cols| ==> Cmp(cols[k].key, key) >= 0
  {
    if cols != [] {
      if Cmp(cols[0].key, key) >= 0 {
        forall k | 0 <= k < |cols| ensures Cmp(cols[k].key, key) >= 0 {
          CmpOrder(cols[0].key, cols[k].key, key);
        }
      } else {
        PlaceIs(cols[1..], key);
        assert forall k :: 1 <= k < |cols| ==> cols[k] == cols[1..][k - 1];
      }
    }
    hide Cmp;
  }

  ghost predicate Present(cols: seq<Column>, key: Key) {
    var p := Place(cols, key); p < |cols| && cols[p].key == key
  }

  /** Where the columns after those of a key begin. */
  ghost function Beyond(cols: seq<Column>, key: Key): (p: nat)
    ensures p <= |cols|
  {
    Place(cols, key) + if Present(cols, key) then 1 else 0
  }

  /** The columns from there on are above the key, and a larger key has a later place. */
  lemma BeyondIs(cols: seq<Column>, key: Key, later: Key)
    requires Sorted(cols)
    ensures forall k :: Beyond(cols, key) <= k < |cols| ==> Cmp(cols[k].key, key) > 0
    ensures forall k :: 0 <= k < Beyond(cols, key) ==> Cmp(cols[k].key, key) <= 0
    ensures Cmp(key, later) < 0 ==> Beyond(cols, key) <= Place(cols, later)
  {
    hide Cmp, Place;
    PlaceIs(cols, key);
    PlaceIs(cols, later);
    var p, q := Place(cols, key), Place(cols, later);
    forall k | p <= k < |cols| ensures Cmp(cols[k].key, key) > 0 || k < Beyond(cols, key) {
      CmpOrder(cols[k].key, key, key);
      if k > p && cols[p].key == key {
        CmpOrder(cols[p].key, cols[k].key, key);
        CmpOrder(cols[k].key, cols[p].key, key);
      } else if k > p {
        CmpOrder(cols[p].key, key, key);
        CmpOrder(key, cols[p].key, cols[k].key);
        CmpOrder(cols[k].key, key, key);
        CmpOrder(key, cols[k].key, key);
      }
    }
    CmpOrder(key, key, key);
    if Cmp(key, later) < 0 && q < Beyond(cols, key) {
      CmpOrder(cols[q].key, key, later);
    }
  }

  // ---- Merging ----

  ghost function New(fmt: Format, c: Change): seq<Column> {
    if c.val == Null then [] else [ColumnOf(fmt, c.key, c.val)]
  }

  /** A NULL for a column that is not there changes nothing. */
  ghost predicate Skipped(cols: seq<Column>, c: Change) {
    c.val == Null && !Present(cols, c.key)
  }

  /** Changes `i` and later and columns `j` and later are still to be merged. */
  ghost predicate Ahead(cols: seq<Column>, ch: seq<Change>, i: nat, j: nat) {
    && Sorted(cols) && InOrder(ch) && i <= |ch| && j <= |cols|
    && forall m :: i <= m < |ch| ==> j <= Place(cols, ch[m].key)
  }

  lemma AheadNext(cols: seq<Column>, ch: seq<Change>, i: nat, j: nat)
    requires Ahead(cols, ch, i, j) && i < |ch|
    ensures Ahead(cols, ch, i + 1, j) && Ahead(cols, ch, i + 1, Beyond(cols, ch[i].key))
    ensures j <= Place(cols, ch[i].key) <= Beyond(cols, ch[i].key)
  {
    hide Cmp, Sorted, Place, Beyond;
    forall m | i < m < |ch| ensures Beyond(cols, ch[i].key) <= Place(cols, ch[m].key) {
      BeyondIs(cols, ch[i].key, ch[m].key);
    }
    assert Place(cols, ch[i].key) <= Beyond(cols, ch[i].key) by { BeyondAfter(cols, ch[i].key); }
  }

  lemma BeyondAfter(cols: seq<Column>, key: Key)
    ensures Place(cols, key) <= Beyond(cols, key)
  {
  }

  /** What the merge still writes. */
  ghost function Out(fmt: Format, cols: seq<Column>, ch: seq<Change>, i: nat, j: nat): seq<Column>
    requires Ahead(cols, ch, i, j)
    decreases |ch| - i
  {
    if i == |ch| then cols[j..] else
      AheadNext(cols, ch, i, j);
      if Skipped(cols, ch[i]) then
        Out(fmt, cols, ch, i + 1, j)
      else
        cols[j..Place(cols, ch[i].key)] + New(fmt, ch[i]) + Out(fmt, cols, ch, i + 1, Beyond(cols, ch[i].key))
  }

  ghost function Merged(fmt: Format, cols: seq<Column>, ch: seq<Change>): seq<Column>
    requires Sorted(cols) && InOrder(ch)
  {
    Out(fmt, cols, ch, 0, 0)
  }

  /** An old column stays when no change has its key. */
  ghost predicate Stays(cols: seq<Column>, ch: seq<Change>, i: nat, j: nat, c: Column) {
    (exists k :: j <= k < |cols| && cols[k] == c) && forall m :: i <= m < |ch| ==> ch[m].key != c.key
  }

  ghost predicate Comes(fmt: Format, ch: seq<Change>, i: nat, c: Column) {
    exists m :: i <= m < |ch| && ch[m].val != Null && c == ColumnOf(fmt, ch[m].key, ch[m].val)
  }

  /** Written columns are the old ones without a change and the new ones. */
  lemma {:induction false} OutHas(fmt: Format, cols: seq<Column>, ch: seq<Change>, i: nat, j: nat, c: Column)
    requires Ahead(cols, ch, i, j)
    ensures c in Out(fmt, cols, ch, i, j) <==> Stays(cols, ch, i, j, c) || Comes(fmt, ch, i, c)
    decreases |ch| - i
  {
    hide Cmp, Place, Encoding, Sorted, Beyond, Present;
    if i < |ch| {
      AheadNext(cols, ch, i, j);
      var key, p, q := ch[i].key, Place(cols, ch[i].key), Beyond(cols, ch[i].key);
      if Skipped(cols, ch[i]) {
        OutHas(fmt, cols, ch, i + 1, j, c);
        SkippedStays(cols, ch, i, j, c);
      } else {
        OutHas(fmt, cols, ch, i + 1, q, c);
        MergedStays(cols, ch, i, j, c);
      }
      ComesNext(fmt, ch, i, c);
    }
  }

  lemma ComesNext(fmt: Format, ch: seq<Change>, i: nat, c: Column)
    requires i < |ch|
    ensures Comes(fmt, ch, i, c) <==> c in New(fmt, ch[i]) || Comes(fmt, ch, i + 1, c)
  {
    hide Encoding;
  }

  lemma SkippedStays(cols: seq<Column>, ch: seq<Change>, i: nat, j: nat, c: Column)
    requires Ahead(cols, ch, i, j) && i < |ch| && Skipped(cols, ch[i])
    ensures Stays(cols, ch, i, j, c) <==> Stays(cols, ch, i + 1, j, c)
  {
    hide Cmp, Place;
    NotPresent(cols, ch[i].key);
  }

  lemma NotPresent(cols: seq<Column>, key: Key)
    requires Sorted(cols)
    ensures !Present(cols, key) <==> Absent(cols, key)
  {
    hide Cmp, Place;
    PlaceIs(cols, key);
    BeyondIs(cols, key, key);
    CmpOrder(key, key, key);
  }

  lemma MergedStays(cols: seq<Column>, ch: seq<Change>, i: nat, j: nat, c: Column)
    requires Ahead(cols, ch, i, j) && i < |ch|
    ensures var (p, q) := (Place(cols, ch[i].key), Beyond(cols, ch[i].key));
      j <= p <= q && (Stays(cols, ch, i, j, c) <==> c in cols[j..p] || Stays(cols, ch, i + 1, q, c))
  {
    hide Cmp, Place;
    var key, p, q := ch[i].key, Place(cols, ch[i].key), Beyond(cols, ch[i].key);
    AheadNext(cols, ch, i, j);
    PlaceIs(cols, key);
    BeyondIs(cols, key, key);
    CmpOrder(key, key, key);
    if c in cols[j..p] {
      var k :| 0 <= k < p - j && cols[j..p][k] == c;
      assert cols[j + k] == c;
      forall m | i <= m < |ch| ensures ch[m].key != c.key {
        CmpOrder(c.key, key, ch[m].key);
        CmpOrder(c.key, ch[m].key, key);
      }
    }
    if Stays(cols, ch, i, j, c) {
      var k :| j <= k < |cols| && cols[k] == c;
      if k < p {
        assert cols[j..p][k - j] == c;
      } else {
        assert k >= q;
      }
    }
  }

  lemma SortedJoin(a: seq<Column>, mid: seq<Column>, b: seq<Column>, key: Key)
    requires Sorted(a) && Sorted(b) && |mid| <= 1 && (mid != [] ==> mid[0].key == key)
    requires forall k :: 0 <= k < |a| ==> Cmp(a[k].key, key) < 0
    requires forall k :: 0 <= k < |b| ==> Cmp(key, b[k].key) < 0
    ensures Sorted(a + mid + b)
  {
    hide Cmp;
    var s := a + mid + b;
    forall i, j | 0 <= i < j < |s| ensures Cmp(s[i].key, s[j].key) < 0 {
      if i < |a| && j >= |a| + |mid| {
        CmpOrder(s[i].key, key, s[j].key);
      }
    }
  }

  lemma {:induction false} OutSorted(fmt: Format, cols: seq<Column>, ch: seq<Change>, i: nat, j: nat)
    requires Ahead(cols, ch, i, j)
    ensures Sorted(Out(fmt, cols, ch, i, j))
    decreases |ch| - i
  {
    hide Cmp, Place, Encoding, Beyond, Present;
    if i < |ch| {
      AheadNext(cols, ch, i, j);
      var key, p, q := ch[i].key, Place(cols, ch[i].key), Beyond(cols, ch[i].key);
      if Skipped(cols, ch[i]) {
        OutSorted(fmt, cols, ch, i + 1, j);
      } else {
        var rest := Out(fmt, cols, ch, i + 1, q);
        OutSorted(fmt, cols, ch, i + 1, q);
        PlaceIs(cols, key);
        forall k | 0 <= k < |rest| ensures Cmp(key, rest[k].key) < 0 {
          OutHas(fmt, cols, ch, i + 1, q, rest[k]);
          OutAbove(fmt, cols, ch, i, rest[k]);
        }
        SortedJoin(cols[j..p], New(fmt, ch[i]), rest, key);
      }
    }
  }

  lemma OutAbove(fmt: Format, cols: seq<Column>, ch: seq<Change>, i: nat, c: Column)
    requires Sorted(cols) && InOrder(ch) && i < |ch|
    requires Stays(cols, ch, i + 1, Beyond(cols, ch[i].key), c) || Comes(fmt, ch, i + 1, c)
    ensures Cmp(ch[i].key, c.key) < 0
  {
    hide Cmp, Place, Encoding, Beyond, Present;
    BeyondIs(cols, ch[i].key, ch[i].key);
    CmpOrder(c.key, ch[i].key, ch[i].key);
    CmpOrder(ch[i].key, c.key, c.key);
  }

  // ---- The map that results ----

  /** `m'` is `m` overridden by the changes: new values for their keys, no entry for NULL, and every
      other key as before, down to the bytes. */
  ghost predicate Overrides(m': map<Key, (nat, seq<Byte>)>, m: map<Key, (nat, seq<Byte>)>, fmt: Format,
                            ch: seq<Change>) {
    && (forall i :: 0 <= i < |ch| ==>
        if ch[i].val == Null then ch[i].key !in m'
        else ch[i].key in m' && m'[ch[i].key] == (TypeOf(ch[i].val), Encoding(ch[i].val, fmt)))
    && (forall k :: Untouched(ch, k) ==> (k in m' <==> k in m) && (k in m ==> m'[k] == m[k]))
  }

  ghost predicate Untouched(ch: seq<Change>, key: Key) {
    forall i :: 0 <= i < |ch| ==> ch[i].key != key
  }

  lemma ChangedKey(fmt: Format, cols: seq<Column>, ch: seq<Change>, i: nat)
    requires Sorted(cols) && InOrder(ch) && i < |ch|
    ensures var (k, m) := (ch[i].key, Content(Merged(fmt, cols, ch)));
      if ch[i].val == Null then k !in m else k in m && m[k] == (TypeOf(ch[i].val), Encoding(ch[i].val, fmt))
  {
    hide Cmp, Place, Encoding, Content, Out, TypeOf;
    var merged, key := Merged(fmt, cols, ch), ch[i].key;
    OutSorted(fmt, cols, ch, 0, 0);
    if ch[i].val == Null {
      forall k | 0 <= k < |merged| ensures merged[k].key != key {
        OutHas(fmt, cols, ch, 0, 0, merged[k]);
        SameChange(fmt, cols, ch, i, merged[k]);
      }
      ContentKeys(merged, key);
    } else {
      var c := ColumnOf(fmt, key, ch[i].val);
      OutHas(fmt, cols, ch, 0, 0, c);
      var k :| 0 <= k < |merged| && merged[k] == c;
      ContentAt(merged, k);
    }
  }

  /** A column of the result that has the key of a change comes from that change. */
  lemma SameChange(fmt: Format, cols: seq<Column>, ch: seq<Change>, i: nat, c: Column)
    requires InOrder(ch) && i < |ch| && (Stays(cols, ch, 0, 0, c) || Comes(fmt, ch, 0, c))
    ensures c.key == ch[i].key ==> ch[i].val != Null
  {
    hide Cmp, Encoding;
    if c.key != ch[i].key { return; }
    assert Comes(fmt, ch, 0, c);
    var m :| 0 <= m < |ch| && ch[m].val != Null && c == ColumnOf(fmt, ch[m].key, ch[m].val);
    CmpOrder(ch[m].key, ch[i].key, ch[m].key);
    assert m < i || i < m || m == i;
  }

  lemma OtherKey(fmt: Format, cols: seq<Column>, ch: seq<Change>, key: Key)
    requires Sorted(cols) && InOrder(ch) && Untouched(ch, key)
    ensures var (m', m) := (Content(Merged(fmt, cols, ch)), Content(cols));
      (key in m' <==> key in m) && (key in m ==> m'[key] == m[key])
  {
    hide Cmp, Place, Encoding, Content, Out;
    var merged := Merged(fmt, cols, ch);
    OutSorted(fmt, cols, ch, 0, 0);
    ContentKeys(merged, key);
    ContentKeys(cols, key);
    if key in Content(cols) {
      var k :| 0 <= k < |cols| && cols[k].key == key;
      OutHas(fmt, cols, ch, 0, 0, cols[k]);
      var n :| 0 <= n < |merged| && merged[n] == cols[k];
      ContentAt(merged, n);
      ContentAt(cols, k);
    }
    if key in Content(merged) {
      var n :| 0 <= n < |merged| && merged[n].key == key;
      OutHas(fmt, cols, ch, 0, 0, merged[n]);
      var k :| 0 <= k < |cols| && cols[k] == merged[n];
    }
  }

  /** Merging is overriding the map of columns, and keeps the order. */
  lemma MergedOverrides(fmt: Format, cols: seq<Column>, ch: seq<Change>)
    requires Sorted(cols) && InOrder(ch)
    ensures Sorted(Merged(fmt, cols, ch)) && Overrides(Content(Merged(fmt, cols, ch)), Content(cols), fmt, ch)
  {
    hide Cmp, Place, Encoding, Content, Out, TypeOf, Merged;
    SortedMerged(fmt, cols, ch);
    forall i | 0 <= i < |ch|
      ensures var (k, m) := (ch[i].key, Content(Merged(fmt, cols, ch)));
        if ch[i].val == Null then k !in m else k in m && m[k] == (TypeOf(ch[i].val), Encoding(ch[i].val, fmt))
    {
      ChangedKey(fmt, cols, ch, i);
    }
    forall key | Untouched(ch, key)
      ensures var (m', m) := (Content(Merged(fmt, cols, ch)), Content(cols));
        (key in m' <==> key in m) && (key in m ==> m'[key] == m[key])
    {
      OtherKey(fmt, cols, ch, key);
    }
  }

  lemma SortedMerged(fmt: Format, cols: seq<Column>, ch: seq<Change>)
    requires Sorted(cols) && InOrder(ch)
    ensures Sorted(Merged(fmt, cols, ch))
  {
    hide Cmp, Out;
    OutSorted(fmt, cols, ch, 0, 0);
  }

  // ---- Sizes ----

  lemma {:induction false} PoolsAppend(a: seq<Column>, b: seq<Column>)
    ensures DataPool(a + b) == DataPool(a) + DataPool(b) && NamePool(a + b) == NamePool(a) + NamePool(b)
  {
    hide DataPool, NamePool;
    if b == [] {
      assert a + b == a;
      EmptyPools();
    } else {
      var n := |b| - 1;
      PoolsAppend(a, b[..n]);
      PoolsSnoc(b[..n], b[n]);
      PoolsSnoc(a + b[..n], b[n]);
      assert b == b[..n] + [b[n]] && a + b == a + b[..n] + [b[n]];
    }
  }

  /** What a change adds to the number of columns, to the data and to the names. */
  datatype Delta = Delta(header: int, data: int, name: int)

  ghost function DeltaOf(fmt: Format, cols: seq<Column>, c: Change): Delta {
    var p := Place(cols, c.key);
    var gone := if Present(cols, c.key) then [cols[p]] else [];
    var come := New(fmt, c);
    Delta(|come| - |gone|, |DataPool(come)| - |DataPool(gone)|, |NamePool(come)| - |NamePool(gone)|)
  }

  /** The changes before `i` together. */
  ghost function DeltaUpTo(fmt: Format, cols: seq<Column>, ch: seq<Change>, i: nat): Delta
    requires i <= |ch|
  {
    if i == 0 then Delta(0, 0, 0) else
      var (d, e) := (DeltaUpTo(fmt, cols, ch, i - 1), DeltaOf(fmt, cols, ch[i - 1]));
      Delta(d.header + e.header, d.data + e.data, d.name + e.name)
  }

  lemma {:induction false} OutSizes(fmt: Format, cols: seq<Column>, ch: seq<Change>, i: nat, j: nat)
    requires Ahead(cols, ch, i, j)
    ensures var (out, d, e) := (Out(fmt, cols, ch, i, j), DeltaUpTo(fmt, cols, ch, |ch|), DeltaUpTo(fmt, cols, ch, i));
      && |out| == |cols| - j + (d.header - e.header)
      && |DataPool(out)| == |DataPool(cols[j..])| + (d.data - e.data)
      && |NamePool(out)| == |NamePool(cols[j..])| + (d.name - e.name)
    decreases |ch| - i
  {
    hide Cmp, Place, Encoding, Sorted, DataPool, NamePool, New, Beyond, DeltaOf, Present;
    if i < |ch| {
      AheadNext(cols, ch, i, j);
      var p, q := Place(cols, ch[i].key), Beyond(cols, ch[i].key);
      if Skipped(cols, ch[i]) {
        OutSizes(fmt, cols, ch, i + 1, j);
        SkippedDelta(fmt, cols, ch[i]);
      } else {
        OutSizes(fmt, cols, ch, i + 1, q);
        ThreePools(cols[j..p], New(fmt, ch[i]), Out(fmt, cols, ch, i + 1, q));
        ThreePools(cols[j..p], cols[p..q], cols[q..]);
        assert cols[j..p] + cols[p..q] + cols[q..] == cols[j..];
        OneChange(fmt, cols, ch[i]);
      }
    }
  }

  lemma ThreePools(a: seq<Column>, b: seq<Column>, c: seq<Column>)
    ensures |DataPool(a + b + c)| == |DataPool(a)| + |DataPool(b)| + |DataPool(c)|
    ensures |NamePool(a + b + c)| == |NamePool(a)| + |NamePool(b)| + |NamePool(c)|
  {
    hide DataPool, NamePool;
    PoolsAppend(a, b);
    PoolsAppend(a + b, c);
  }

  lemma OneChange(fmt: Format, cols: seq<Column>, c: Change)
    ensures var (gone, come) := (cols[Place(cols, c.key)..Beyond(cols, c.key)], New(fmt, c));
      DeltaOf(fmt, cols, c)
        == Delta(|come| - |gone|, |DataPool(come)| - |DataPool(gone)|, |NamePool(come)| - |NamePool(gone)|)
  {
    hide DataPool, NamePool, Place, New;
    var p := Place(cols, c.key);
    assert cols[p..Beyond(cols, c.key)] == if Present(cols, c.key) then [cols[p]] else [];
  }

  lemma SkippedDelta(fmt: Format, cols: seq<Column>, c: Change)
    requires Skipped(cols, c)
    ensures DeltaOf(fmt, cols, c) == Delta(0, 0, 0)
  {
  }
}
