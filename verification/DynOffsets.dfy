/** Where an update says that data lies. Kept columns are moved by the planned lengths of the changes
    before them, and a time of another kind with a fraction is planned longer than it is stored. */
module DynOffsets {
  import opened Basics
  import opened DynValues
  import opened DynFormat
  import opened DynRecord
  import opened DynFind
  import opened DynCreate
  import opened DynMerge

  /** How much too long the changes before `i` are planned. */
  ghost function Excess(fmt: Format, ch: seq<Change>, i: nat): nat
    requires i <= |ch|
  {
    if i == 0 then 0 else Excess(fmt, ch, i - 1) + PlannedLen(ch[i - 1].val, fmt) - |Encoding(ch[i - 1].val, fmt)|
  }

  lemma {:induction false} ExcessSome(fmt: Format, ch: seq<Change>, i: nat)
    requires i <= |ch|
    ensures Excess(fmt, ch, i) > 0 <==> exists m :: 0 <= m < i && Misplanned(ch[m].val, fmt)
  {
    hide Encoding, Misplanned;
    if i > 0 { ExcessSome(fmt, ch, i - 1); }
  }

  lemma {:induction false} ExcessGrows(fmt: Format, ch: seq<Change>, i: nat, j: nat)
    requires i <= j <= |ch|
    ensures Excess(fmt, ch, i) <= Excess(fmt, ch, j)
  {
    hide Encoding, Misplanned;
    if i < j { ExcessGrows(fmt, ch, i, j - 1); }
  }

  ghost function Same(n: nat, x: nat): (s: seq<nat>)
    ensures |s| == n
  {
    seq(n, _ => x)
  }

  /** For every column that the merge still writes, how far behind its data the stated offset is. */
  ghost function OutExcess(fmt: Format, cols: seq<Column>, ch: seq<Change>, i: nat, j: nat): seq<nat>
    requires Ahead(cols, ch, i, j)
    decreases |ch| - i
  {
    if i == |ch| then Same(|cols| - j, Excess(fmt, ch, i)) else
      AheadNext(cols, ch, i, j);
      if Skipped(cols, ch[i]) then
        OutExcess(fmt, cols, ch, i + 1, j)
      else
        Same(Place(cols, ch[i].key) - j, Excess(fmt, ch, i)) + Same(|New(fmt, ch[i])|, 0)
        + OutExcess(fmt, cols, ch, i + 1, Beyond(cols, ch[i].key))
  }

  lemma {:induction false} SameLength(fmt: Format, cols: seq<Column>, ch: seq<Change>, i: nat, j: nat)
    requires Ahead(cols, ch, i, j)
    ensures |OutExcess(fmt, cols, ch, i, j)| == |Out(fmt, cols, ch, i, j)|
    ensures forall x :: x in OutExcess(fmt, cols, ch, i, j) ==> x <= Excess(fmt, ch, |ch|)
    decreases |ch| - i
  {
    hide Cmp, Place, Encoding, Beyond, Present, Misplanned, PlannedLen;
    ExcessGrows(fmt, ch, i, |ch|);
    if i < |ch| {
      AheadNext(cols, ch, i, j);
      if Skipped(cols, ch[i]) {
        SameLength(fmt, cols, ch, i + 1, j);
      } else {
        SameLength(fmt, cols, ch, i + 1, Beyond(cols, ch[i].key));
      }
    }
  }

  // ---- When the offsets are right ----

  /** No column that stays comes after a change that is planned too long. */
  ghost predicate Harmless(fmt: Format, cols: seq<Column>, ch: seq<Change>) {
    forall m, k :: 0 <= m < |ch| && 0 <= k < |cols| && Misplanned(ch[m].val, fmt) && Cmp(ch[m].key, cols[k].key) < 0
      ==> !Untouched(ch, cols[k].key)
  }

  /** Changes before `i` that had an effect are behind column `j`. */
  ghost predicate Behind(cols: seq<Column>, ch: seq<Change>, i: nat, j: nat) {
    i <= |ch| && forall m :: 0 <= m < i && !Skipped(cols, ch[m]) ==> Beyond(cols, ch[m].key) <= j
  }

  lemma BehindNext(cols: seq<Column>, ch: seq<Change>, i: nat, j: nat)
    requires Ahead(cols, ch, i, j) && Behind(cols, ch, i, j) && i < |ch|
    ensures Skipped(cols, ch[i]) ==> Behind(cols, ch, i + 1, j)
    ensures !Skipped(cols, ch[i]) ==> Behind(cols, ch, i + 1, Beyond(cols, ch[i].key))
  {
    hide Cmp, Place, Beyond, Skipped;
    AheadNext(cols, ch, i, j);
  }

  /** A column between two changes stays, and is above the changes before it. */
  lemma Between(cols: seq<Column>, ch: seq<Change>, i: nat, j: nat, k: nat)
    requires Ahead(cols, ch, i, j) && Behind(cols, ch, i, j) && j <= k < |cols|
    requires i < |ch| ==> k < Place(cols, ch[i].key)
    ensures Untouched(ch, cols[k].key)
    ensures forall m :: 0 <= m < i && !Skipped(cols, ch[m]) ==> Cmp(ch[m].key, cols[k].key) < 0
  {
    hide Cmp, Place, Beyond, Present;
    var key := cols[k].key;
    forall m | 0 <= m < |ch|
      ensures ch[m].key != key
      ensures m < i && !Skipped(cols, ch[m]) ==> Cmp(ch[m].key, key) < 0
    {
      CmpOrder(key, ch[m].key, key);
      CmpOrder(ch[m].key, key, key);
      if m < i && Skipped(cols, ch[m]) {
        NotPresent(cols, ch[m].key);
      } else if m < i {
        BeyondIs(cols, ch[m].key, key);
      } else {
        PlaceIs(cols, ch[i].key);
        if m > i { CmpOrder(key, ch[i].key, ch[m].key); }
      }
    }
  }

  lemma {:induction false} HarmlessExact(fmt: Format, cols: seq<Column>, ch: seq<Change>, i: nat, j: nat, d: nat)
    requires Ahead(cols, ch, i, j) && Behind(cols, ch, i, j) && Harmless(fmt, cols, ch)
    requires d < |OutExcess(fmt, cols, ch, i, j)|
    ensures OutExcess(fmt, cols, ch, i, j)[d] == 0
    decreases |ch| - i
  {
    hide Cmp, Place, Encoding, Beyond, Present, Misplanned, Behind, Excess;
    if i == |ch| {
      StayingExact(fmt, cols, ch, i, j, j + d);
    } else {
      AheadNext(cols, ch, i, j);
      BehindNext(cols, ch, i, j);
      var p, q := Place(cols, ch[i].key), Beyond(cols, ch[i].key);
      if Skipped(cols, ch[i]) {
        HarmlessExact(fmt, cols, ch, i + 1, j, d);
      } else if d < p - j {
        StayingExact(fmt, cols, ch, i, j, j + d);
      } else if d >= p - j + |New(fmt, ch[i])| {
        HarmlessExact(fmt, cols, ch, i + 1, q, d - (p - j) - |New(fmt, ch[i])|);
      }
    }
  }

  lemma StayingExact(fmt: Format, cols: seq<Column>, ch: seq<Change>, i: nat, j: nat, k: nat)
    requires i <= |ch| && Ahead(cols, ch, i, j) && Behind(cols, ch, i, j) && Harmless(fmt, cols, ch) && j <= k < |cols|
    requires i < |ch| ==> k < Place(cols, ch[i].key)
    ensures Excess(fmt, ch, i) == 0
  {
    hide Cmp, Place, Encoding, Beyond, Present, Behind, Ahead, Excess;
    ExcessSome(fmt, ch, i);
    Between(cols, ch, i, j, k);
  }

  /** A column that stays after a change planned too long gets a wrong offset. */
  lemma {:induction false} HarmShows(fmt: Format, cols: seq<Column>, ch: seq<Change>, i: nat, j: nat, m: nat, k: nat)
    returns (d: nat)
    requires Ahead(cols, ch, i, j) && m < |ch| && j <= k < |cols| && Untouched(ch, cols[k].key)
    requires Misplanned(ch[m].val, fmt) && Cmp(ch[m].key, cols[k].key) < 0
    ensures d < |OutExcess(fmt, cols, ch, i, j)| && OutExcess(fmt, cols, ch, i, j)[d] > 0
    decreases |ch| - i
  {
    hide Cmp, Place, Encoding, Misplanned, Excess;
    if i == |ch| {
      ExcessSome(fmt, ch, i);
      d := k - j;
    } else {
      AheadNext(cols, ch, i, j);
      var p, q := Place(cols, ch[i].key), Beyond(cols, ch[i].key);
      if Skipped(cols, ch[i]) {
        d := HarmShows(fmt, cols, ch, i + 1, j, m, k);
      } else if k < p {
        Earlier(cols, ch, i, m, k);
        ExcessSome(fmt, ch, i);
        d := k - j;
      } else {
        d := HarmShows(fmt, cols, ch, i + 1, q, m, k);
        d := d + (p - j) + |New(fmt, ch[i])|;
      }
    }
  }

  lemma Earlier(cols: seq<Column>, ch: seq<Change>, i: nat, m: nat, k: nat)
    requires Sorted(cols) && InOrder(ch) && i < |ch| && m < |ch| && k < Place(cols, ch[i].key)
    requires Cmp(ch[m].key, cols[k].key) < 0
    ensures m < i
  {
    hide Cmp, Place;
    PlaceIs(cols, ch[i].key);
    CmpOrder(ch[m].key, cols[k].key, ch[i].key);
    CmpOrder(ch[i].key, ch[m].key, ch[i].key);
    CmpOrder(ch[m].key, ch[i].key, ch[m].key);
  }

  // ---- The record that the update writes ----

  ghost function Moves(fmt: Format, cols: seq<Column>, ch: seq<Change>): (e: seq<nat>)
    requires Sorted(cols) && InOrder(ch)
    ensures |e| == |Merged(fmt, cols, ch)|
  {
    SameLength(fmt, cols, ch, 0, 0);
    OutExcess(fmt, cols, ch, 0, 0)
  }

  ghost function Updated(fmt: Format, size: nat, cols: seq<Column>, ch: seq<Change>): Record
    requires Sorted(cols) && InOrder(ch)
  {
    var m, e := Merged(fmt, cols, ch), Moves(fmt, cols, ch);
    Record(fmt, size, m, seq(|m|, d requires 0 <= d < |m| => |DataPool(m[..d])| + e[d]))
  }

  lemma NoMoves(fmt: Format, size: nat, cols: seq<Column>, ch: seq<Change>)
    requires Sorted(cols) && InOrder(ch)
    requires forall d :: 0 <= d < |Moves(fmt, cols, ch)| ==> Moves(fmt, cols, ch)[d] == 0
    ensures Straight(Updated(fmt, size, cols, ch))
  {
    hide Merged, Moves, DataPool;
    var r := Updated(fmt, size, cols, ch);
    assert r.offs == Offsets(r.cols);
  }

  lemma StraightIffHarmless(fmt: Format, size: nat, cols: seq<Column>, ch: seq<Change>)
    requires Sorted(cols) && InOrder(ch)
    ensures Straight(Updated(fmt, size, cols, ch)) <==> Harmless(fmt, cols, ch)
  {
    hide Cmp, Encoding, DataPool, Misplanned, OutExcess, Merged, Place;
    var r, e := Updated(fmt, size, cols, ch), Moves(fmt, cols, ch);
    if Harmless(fmt, cols, ch) {
      forall d | 0 <= d < |e| ensures e[d] == 0 {
        HarmlessExact(fmt, cols, ch, 0, 0, d);
      }
      NoMoves(fmt, size, cols, ch);
    } else {
      var m, k :| 0 <= m < |ch| && 0 <= k < |cols| && Misplanned(ch[m].val, fmt) && Cmp(ch[m].key, cols[k].key) < 0
        && Untouched(ch, cols[k].key);
      var d := HarmShows(fmt, cols, ch, 0, 0, m, k);
      assert r.offs[d] != Offsets(r.cols)[d];
    }
  }

  /** The last wrong offset gives its column a wrong length. */
  lemma WrongLength(r: Record, d: nat)
    requires Valid(r) && d < |r.cols| && r.offs[d] > |DataPool(r.cols[..d])|
    requires d + 1 < |r.cols| ==> r.offs[d + 1] == |DataPool(r.cols[..d + 1])|
    ensures (Stop(r, d + 1) - r.offs[d]) % WORD64 != |r.cols[d].data|
  {
    ValidParts(r);
    OffsetBound(r, d);
    hide DataPool, NamePool, Sorted, Cmp, Valid;
    PoolsNext(r.cols, d);
    PoolPrefix(r.cols, d + 1);
    assert r.cols[..|r.cols|] == r.cols;
    NotSame(|r.cols[d].data|, r.offs[d] - |DataPool(r.cols[..d])|);
  }

  lemma OffsetBound(r: Record, d: nat)
    requires Valid(r) && d < |r.offs|
    ensures r.offs[d] < WORD64
  {
  }

  lemma NotSame(n: nat, e: nat)
    requires 0 < e < WORD64 && n < WORD64
    ensures (n - e) % WORD64 != n
  {
  }

  lemma SeenLength(r: Record, d: nat)
    requires d < |r.cols| == |r.offs| && Whole(r, d)
    ensures |SeenAt(r, d).1| == (Stop(r, d + 1) - r.offs[d]) % WORD64
  {
    hide Stop, DataPool;
  }

  lemma WrongSeen(r: Record, d: nat)
    requires Valid(r) && d < |r.cols| == |r.offs| && (Stop(r, d + 1) - r.offs[d]) % WORD64 != |r.cols[d].data|
    ensures Seen(r) != Content(r.cols)
  {
    ValidParts(r);
    hide DataPool, NamePool, Content, Seen, Sorted, Cmp, Valid, Stop, Whole, SeenAt;
    SeenKey(r, d);
    ContentAt(r.cols, d);
    if Whole(r, d) { SeenLength(r, d); }
  }

  lemma {:induction false} LastMove(e: seq<nat>, d: nat) returns (last: nat)
    requires d < |e| && e[d] > 0
    ensures d <= last < |e| && e[last] > 0 && (last + 1 < |e| ==> e[last + 1] == 0)
    decreases |e| - d
  {
    if d + 1 < |e| && e[d + 1] > 0 { last := LastMove(e, d + 1); } else { last := d; }
  }

  lemma SeenIffStraight(fmt: Format, size: nat, cols: seq<Column>, ch: seq<Change>)
    requires Sorted(cols) && InOrder(ch) && Valid(Updated(fmt, size, cols, ch))
    ensures var r := Updated(fmt, size, cols, ch); Straight(r) <==> Seen(r) == Content(r.cols)
  {
    hide Cmp, Encoding, DataPool, OutExcess, Merged, Place, Seen, Content, Valid;
    var r, e := Updated(fmt, size, cols, ch), Moves(fmt, cols, ch);
    if Straight(r) {
      SeenStraight(r);
    } else {
      if forall d :: 0 <= d < |e| ==> e[d] == 0 {
        NoMoves(fmt, size, cols, ch);
        assert false;
      }
      var d :| 0 <= d < |e| && e[d] > 0;
      var last := LastMove(e, d);
      WrongLength(r, last);
      WrongSeen(r, last);
    }
  }

  /** Overriding has one result. */
  lemma OneResult(a: map<Key, (nat, seq<Byte>)>, b: map<Key, (nat, seq<Byte>)>, m: map<Key, (nat, seq<Byte>)>,
                  fmt: Format, ch: seq<Change>)
    requires Overrides(a, m, fmt, ch) && Overrides(b, m, fmt, ch)
    ensures a == b
  {
    hide Encoding, TypeOf;
    forall k ensures (k in a <==> k in b) && (k in a ==> a[k] == b[k]) {
      if !Untouched(ch, k) {
        var i :| 0 <= i < |ch| && ch[i].key == k;
      }
    }
  }

  /** What lookups see after an update is the map overridden by the changes exactly when no column
      that stays comes after a change that is planned too long. */
  lemma UpdatedOverrides(fmt: Format, size: nat, cols: seq<Column>, ch: seq<Change>)
    requires Sorted(cols) && InOrder(ch) && Valid(Updated(fmt, size, cols, ch))
    ensures var r := Updated(fmt, size, cols, ch);
      && (Overrides(Seen(r), Content(cols), fmt, ch) <==> Harmless(fmt, cols, ch))
      && (Straight(r) <==> Harmless(fmt, cols, ch))
  {
    hide Cmp, Encoding, DataPool, OutExcess, Merged, Place, Seen, Content, Valid, Overrides, Straight, Harmless;
    var r := Updated(fmt, size, cols, ch);
    StraightIffHarmless(fmt, size, cols, ch);
    SeenIffStraight(fmt, size, cols, ch);
    MergedOverrides(fmt, cols, ch);
    if Overrides(Seen(r), Content(cols), fmt, ch) {
      OneResult(Seen(r), Content(r.cols), Content(cols), fmt, ch);
    }
  }

  // ---- An update that goes wrong ----

  const DATE_AND_FRACTION: Time := NO_TIME.(micro := 1, kind := KindDate)
  const COLUMN_B: Column := Column(Name([98]), 2, [5])
  const CHANGE_A: Change := Change(Name([97]), DateTime(DATE_AND_FRACTION))

  lemma AddedInFront()
    ensures var (cols, ch) := ([COLUMN_B], [CHANGE_A]);
      && Sorted(cols) && InOrder(ch) && Ahead(cols, ch, 0, 0) && Ahead(cols, ch, 1, 0)
      && Place(cols, CHANGE_A.key) == 0 == Beyond(cols, CHANGE_A.key) && !Skipped(cols, CHANGE_A)
  {
    assert Memcmp([98], [97]) == 1;
    assert Cmp(COLUMN_B.key, CHANGE_A.key) == 1;
  }

  lemma FrontMoves()
    ensures var (cols, ch) := ([COLUMN_B], [CHANGE_A]);
      && Sorted(cols) && InOrder(ch) && Moves(Named, cols, ch) == [0, 3]
      && Merged(Named, cols, ch) == [ColumnOf(Named, CHANGE_A.key, CHANGE_A.val), COLUMN_B]
  {
    hide Encoding, Cmp, Place;
    var cols, ch := [COLUMN_B], [CHANGE_A];
    AddedInFront();
    PlannedTooLong();
    assert Out(Named, cols, ch, 1, 0) == cols;
    assert Excess(Named, ch, 1) == 3 && OutExcess(Named, cols, ch, 1, 0) == [3];
  }

  lemma FrontPools(a: Column)
    requires |a.data| == 6
    ensures var cols := [a, COLUMN_B]; |DataPool(cols[..0])| == 0 && |DataPool(cols[..1])| == 6 && |DataPool(cols)| == 7
  {
    hide DataPool;
    EmptyPools();
    PoolsSnoc([], a);
    PoolsSnoc([a], COLUMN_B);
    var cols := [a, COLUMN_B];
    assert [] + [a] == [a] && [a] + [COLUMN_B] == cols && cols[..0] == [] && cols[..1] == [a];
  }

  lemma FrontOffsets()
    ensures var (cols, ch) := ([COLUMN_B], [CHANGE_A]);
      && Sorted(cols) && InOrder(ch)
      && var r := Updated(Named, 2, cols, ch);
         && r.cols == [ColumnOf(Named, CHANGE_A.key, CHANGE_A.val), COLUMN_B]
         && r.offs == [0, 9] && |DataPool(r.cols)| == 7
  {
    hide Encoding, Cmp, Place, DataPool, Merged, Moves;
    FrontMoves();
    PlannedTooLong();
    FrontPools(ColumnOf(Named, CHANGE_A.key, CHANGE_A.val));
  }

  /** The record holds an unsigned 5 as column b. Adding a date with a fraction as the date-time column
      a states offset 9 for b, where its byte is at 6 of 7: b is lost for lookups, and a seems to be
      nine bytes long. */
  lemma LosesColumn()
    ensures var (cols, ch) := ([COLUMN_B], [CHANGE_A]);
      && Sorted(cols) && InOrder(ch) && !Harmless(Named, cols, ch)
      && var r := Updated(Named, 2, cols, ch);
         && r.cols == [ColumnOf(Named, CHANGE_A.key, CHANGE_A.val), COLUMN_B] && r.offs == [0, 9]
         && |DataPool(r.cols)| == 7 && Told(r, 0) == At(6, 0, 9) && Told(r, 1) == Bad
         && COLUMN_B.key !in Seen(r) && COLUMN_B.key in Content(cols)
  {
    hide Encoding, Place, DataPool, Updated, Seen, Content;
    var cols, ch := [COLUMN_B], [CHANGE_A];
    FrontOffsets();
    AddedInFront();
    var r := Updated(Named, 2, cols, ch);
    assert Misplanned(ch[0].val, Named) && Cmp(ch[0].key, cols[0].key) < 0 && Untouched(ch, cols[0].key);
    assert Sorted(r.cols);
    SeenKey(r, 1);
    ContentAt(cols, 0);
  }
}
