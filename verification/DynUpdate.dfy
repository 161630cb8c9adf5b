/** Updating a record: a plan of changes is made against the old entries, then a new record is
    written from the plan and the old columns. */
module DynUpdate {
  import opened Basics
  import opened DynCodec
  import opened DynValues
  import opened DynFormat
  import opened DynRecord
  import opened DynBuild
  import opened DynFind
  import opened DynCreate
  import opened DynMerge
  import opened DynOffsets

  /** The key of an entry. */
  function ReadKey(str: seq<Byte>, h: Hdr, i: nat): Option<Key>
    requires i < h.count && h.DataPoolAt() <= |str|
  {
    if h.fmt == Numeric then Some(Num(ReadField(str, h, i))) else
      match ReadName(str, h, i)
      case None => None
      case Some((at, length)) =>
        if at + length > h.nmpoolSize then None
        else Some(Name(str[h.NamePoolAt() + at..h.NamePoolAt() + at + length]))
  }

  lemma KeyRead(str: seq<Byte>, h: Hdr, rec: Record, i: nat)
    requires Holds(str, h, rec) && i < |rec.cols|
    ensures h.count == |rec.cols| && h.DataPoolAt() <= |str| && ReadKey(str, h, i) == Some(rec.cols[i].key)
  {
    hide Holds, NamePool, DataPool, ReadField, ReadName, ReadTypeOffset, Hdr.HeaderSize, Hdr.DataSize;
    Pools(str, h, rec);
    EntryRead(str, h, rec, i);
    KeyKind(str, h, rec, i);
    if rec.fmt == Named {
      NameRead(str, h, rec, i, []);
      NameBytes(str, h, rec, i);
    }
  }

  lemma KeyKind(str: seq<Byte>, h: Hdr, rec: Record, i: nat)
    requires Holds(str, h, rec) && i < |rec.cols|
    ensures rec.fmt == Numeric <==> rec.cols[i].key.Num?
  {
    assert ColumnOk(rec.fmt, rec.cols[i]);
  }

  lemma NameBytes(str: seq<Byte>, h: Hdr, rec: Record, i: nat)
    requires Holds(str, h, rec) && rec.fmt == Named && i < |rec.cols|
    ensures h.DataPoolAt() <= |str| && rec.cols[i].key.Name?
    ensures var (at, n) := (|NamePool(rec.cols[..i])|, |rec.cols[i].key.text|);
      at + n <= h.nmpoolSize && str[h.NamePoolAt() + at..h.NamePoolAt() + at + n] == rec.cols[i].key.text
  {
    hide Holds, NamePool, DataPool, Hdr.HeaderSize, Hdr.DataSize, Hdr.NamePoolAt, Hdr.DataPoolAt;
    Pools(str, h, rec);
    KeyIsName(str, h, rec, i);
    PoolsNext(rec.cols, i);
    PoolPrefix(rec.cols, i + 1);
    var at, n, pool := |NamePool(rec.cols[..i])|, |rec.cols[i].key.text|, NamePool(rec.cols);
    assert pool[..at + n] == NamePool(rec.cols[..i]) + rec.cols[i].key.text;
    assert pool[at..at + n] == pool[..at + n][at..] == rec.cols[i].key.text;
    SliceOfSlice(str, h.NamePoolAt(), h.DataPoolAt(), at, at + n);
  }

  /** find_place: halves the entries until one is left. */
  method FindPlace(str: seq<Byte>, h: Hdr, key: Key, ghost rec: Record)
    returns (found: bool, place: nat)
    requires Holds(str, h, rec) && rec.cols != []
    ensures place == Place(rec.cols, key) && (found <==> Present(rec.cols, key))
  {
    hide Cmp, Place, Holds, ReadKey, DataPool, NamePool;
    Pools(str, h, rec);
    PlaceIs(rec.cols, key);
    found, place := false, 0;
    var start, end, mid, flag := 0, h.count - 1, 1, 0;
    ghost var p := Place(rec.cols, key);
    while start != end
      invariant 0 <= start <= end < h.count && start <= p && (p <= end || (end == h.count - 1 && p == h.count))
      invariant start == mid && mid < h.count ==> start == end && flag == Cmp(key, rec.cols[mid].key)
      decreases end - start
    {
      mid := (start + end) / 2;
      KeyRead(str, h, rec, mid);
      var k := ReadKey(str, h, mid);
      if k.None? {
        return;
      }
      flag := Cmp(key, k.value);
      CmpOrder(key, rec.cols[mid].key, key);
      if flag <= 0 {
        end := mid;
      } else {
        start := mid + 1;
      }
    }
    if start != mid {
      KeyRead(str, h, rec, start);
      var k := ReadKey(str, h, start);
      if k.None? {
        return;
      }
      flag := Cmp(key, k.value);
    }
    CmpOrder(key, rec.cols[start].key, key);
    place := if flag > 0 then start + 1 else start;
    found := flag == 0;
    assert place == p;
    if p < |rec.cols| { CmpOrder(rec.cols[p].key, key, key); }
  }

  // ---- The plan ----

  datatype Act = Replace | Add | Delete | Nop

  /** One planned change: where it goes, and how far data has moved by the changes before it. */
  datatype Step = Step(key: Key, val: Value, place: nat, ddelta: int, act: Act)

  ghost function ActOf(cols: seq<Column>, c: Change): Act {
    if Present(cols, c.key) then if c.val == Null then Delete else Replace
    else if c.val == Null then Nop else Add
  }

  ghost predicate Planned(fmt: Format, cols: seq<Column>, ch: seq<Change>, steps: seq<Step>)
  {
    |steps| <= |ch| && forall i :: 0 <= i < |steps| ==> StepFor(fmt, cols, ch, i, steps[i])
  }

  ghost predicate StepFor(fmt: Format, cols: seq<Column>, ch: seq<Change>, i: nat, s: Step)
    requires i < |ch|
  {
    && s.key == ch[i].key && s.val == ch[i].val && s.place == Place(cols, ch[i].key)
    && s.ddelta == DeltaUpTo(fmt, cols, ch, i).data + Excess(fmt, ch, i) && s.act == ActOf(cols, ch[i])
  }

  ghost function Changes(keys: seq<Key>, values: seq<Value>, order: seq<nat>): (ch: seq<Change>)
    requires |keys| == |values| && forall i :: 0 <= i < |order| ==> order[i] < |keys|
    ensures |ch| == |order|
  {
    seq(|order|, i requires 0 <= i < |order| => Change(keys[order[i]], values[order[i]]))
  }

  /** What one change is planned to do to the sizes, and which action it is. */
  method PlanOne(str: seq<Byte>, h: Hdr, key: Key, val: Value, ghost rec: Record)
    returns (failed: bool, place: nat, act: Act, header: int, data: int, name: int)
    requires Holds(str, h, rec) && Straight(rec) && rec.cols != [] && (key.Num? <==> rec.fmt == Numeric)
    ensures !failed && place == Place(rec.cols, key) && act == ActOf(rec.cols, Change(key, val))
    ensures var more := PlannedLen(val, rec.fmt) - |Encoding(val, rec.fmt)|;
      Delta(header, data - more, name) == DeltaOf(rec.fmt, rec.cols, Change(key, val))
  {
    hide Cmp, Place, Holds, DataPool, NamePool, IntervalLength, ReadKey, Encoding, Misplanned, Present, Straight;
    Pools(str, h, rec);
    failed, act, header, data, name := false, Nop, 0, 0, 0;
    var found;
    found, place := FindPlace(str, h, key, rec);
    SizesOfChange(rec.fmt, rec.cols, Change(key, val));
    NullPlanned(rec.fmt);
    if found {
      PresentAt(rec.cols, key);
      OldLengths(str, h, rec, place, place + 1);
      PoolsNext(rec.cols, place);
      KeyRead(str, h, rec, place);
      var interval, entry := IntervalLength(str, h, place, place + 1), ReadKey(str, h, place);
      if interval.None? || entry.None? {
        failed := true;
        return;
      }
      var length: int, nameLength: int := interval.value, if entry.value.Name? then |entry.value.text| else 0;
      if val == Null {
        act, header, data, name := Delete, -1, -length, -nameLength;
      } else {
        var len := ValueLen(val, h.fmt);
        act, data := Replace, len - length;
        name := (if key.Name? then |key.text| else 0) - nameLength;
      }
    } else if val != Null {
      var len := ValueLen(val, h.fmt);
      act, header, data, name := Add, 1, len, if key.Name? then |key.text| else 0;
    }
  }

  lemma NullPlanned(fmt: Format)
    ensures PlannedLen(Null, fmt) == |Encoding(Null, fmt)|
  {
  }

  lemma OldLengths(str: seq<Byte>, h: Hdr, rec: Record, i: nat, j: nat)
    requires Holds(str, h, rec) && Straight(rec) && i < j <= |rec.cols|
    ensures h.NamePoolAt() <= |str| && h.count == |rec.cols|
    ensures |DataPool(rec.cols[..i])| <= |DataPool(rec.cols[..j])|
    ensures IntervalLength(str, h, i, j) == Some(|DataPool(rec.cols[..j])| - |DataPool(rec.cols[..i])|)
  {
    IntervalRead(str, h, rec, i, j);
    StraightInterval(rec, i, j);
    hide DataPool, NamePool, IntervalLength, Valid, Packed, Straight;
  }

  lemma PresentAt(cols: seq<Column>, key: Key)
    requires Present(cols, key)
    ensures Place(cols, key) < |cols| && cols[Place(cols, key)].key == key
  {
    hide Place;
  }

  lemma SizesOfChange(fmt: Format, cols: seq<Column>, c: Change)
    ensures var (gone, come) := (Present(cols, c.key), c.val != Null);
      && (gone ==> Place(cols, c.key) < |cols|)
      && DeltaOf(fmt, cols, c) == Delta(
           (if come then 1 else 0) - (if gone then 1 else 0),
           (if come then |Encoding(c.val, fmt)| else 0) - (if gone then |cols[Place(cols, c.key)].data| else 0),
           (if come then |NameOf(c.key)| else 0) - (if gone then |NameOf(c.key)| else 0))
  {
    hide Place, Encoding, DataPool, NamePool, Cmp;
    EmptyPools();
    if c.val != Null {
      PoolsSnoc([], ColumnOf(fmt, c.key, c.val));
      assert [] + [ColumnOf(fmt, c.key, c.val)] == New(fmt, c);
    }
    if Present(cols, c.key) {
      var old' := cols[Place(cols, c.key)];
      PoolsSnoc([], old');
      assert [] + [old'] == [old'];
    }
  }

  /** The plan loop: equal keys are refused, every other key gets its action and place. */
  method MakePlan(str: seq<Byte>, h: Hdr, keys: seq<Key>, values: seq<Value>, order: seq<nat>,
                  ghost rec: Record)
    returns (rc: Code, steps: seq<Step>, header: int, data: int, name: int)
    requires Holds(str, h, rec) && Straight(rec) && rec.cols != [] && |keys| == |values|
    requires SortedBy(keys, order) && forall i :: 0 <= i < |keys| ==> !OverLimit(keys[i])
    requires forall i :: 0 <= i < |keys| ==> (keys[i].Num? <==> rec.fmt == Numeric)
    ensures rc == Data <==> Refused(keys)
    ensures rc != Data ==> rc == Done && InOrder(Changes(keys, values, order))
    ensures rc == Done ==> |steps| == |order| && Planned(rec.fmt, rec.cols, Changes(keys, values, order), steps)
    ensures rc == Done ==>
      var (ch, n) := (Changes(keys, values, order), |order|);
      Delta(header, data - Excess(rec.fmt, ch, n), name) == DeltaUpTo(rec.fmt, rec.cols, ch, n)
  {
    hide Cmp, Holds, Place, DeltaOf, Misplanned, Straight, PlannedLen, OverLimit, Permutes, Encoding, Present;
    ghost var ch := Changes(keys, values, order);
    PermutesRange(order, |keys|);
    rc, steps, header, data, name := Done, [], 0, 0, 0;
    var i := 0;
    while i < |order|
      invariant 0 <= i <= |order| && |steps| == i && Planned(rec.fmt, rec.cols, ch, steps) && rc == Done
      invariant Delta(header, data - Excess(rec.fmt, ch, i), name) == DeltaUpTo(rec.fmt, rec.cols, ch, i)
      invariant forall k :: 0 <= k < i && k < |order| - 1 ==> Cmp(keys[order[k]], keys[order[k + 1]]) != 0
    {
      var key, val := keys[order[i]], values[order[i]];
      if i < |order| - 1 && Cmp(key, keys[order[i + 1]]) == 0 {
        SameTwice(keys, order, i);
        rc := Data;
        return;
      }
      var failed, place, act, hd, dd, nd := PlanOne(str, h, key, val, rec);
      if failed {
        rc := Format;
        return;
      }
      steps := steps + [Step(key, val, place, data, act)];
      header, data, name := header + hd, data + dd, name + nd;
      i := i + 1;
    }
    AllDistinct(keys, order);
    StrictChanges(keys, values, order);
  }

  lemma StrictChanges(keys: seq<Key>, values: seq<Value>, order: seq<nat>)
    requires |keys| == |values| && (forall i :: 0 <= i < |order| ==> order[i] < |keys|) && Strict(keys, order)
    ensures InOrder(Changes(keys, values, order))
  {
    hide Cmp;
  }

  // ---- Writing the new record ----

  /** The record under construction is complete but for changes from `i` and columns from `j` on. */
  ghost predicate Progress(fmt: Format, cols: seq<Column>, ch: seq<Change>, target: Record, i: nat, j: nat, done: nat) {
    && Ahead(cols, ch, i, j) && Ahead(cols, ch, 0, 0) && target == Updated(fmt, target.size, cols, ch)
    && done <= |target.cols| && target.cols[done..] == Out(fmt, cols, ch, i, j)
    && Moves(fmt, cols, ch)[done..] == OutExcess(fmt, cols, ch, i, j)
  }

  /** Data in the new record is as far from the old place as the changes so far have moved it. */
  lemma Moved(fmt: Format, cols: seq<Column>, ch: seq<Change>, target: Record, i: nat, j: nat, done: nat)
    requires Progress(fmt, cols, ch, target, i, j, done)
    ensures |DataPool(target.cols[..done])| == |DataPool(cols[..j])| + DeltaUpTo(fmt, cols, ch, i).data
  {
    hide DataPool, NamePool, Out, DeltaUpTo, Place;
    OutSizes(fmt, cols, ch, i, j);
    OutSizes(fmt, cols, ch, 0, 0);
    NoDelta(fmt, cols, ch);
    PoolsAppend(target.cols[..done], target.cols[done..]);
    PoolsAppend(cols[..j], cols[j..]);
    assert target.cols[..done] + target.cols[done..] == target.cols;
    assert cols[..j] + cols[j..] == cols && cols[0..] == cols;
    assert Merged(fmt, cols, ch) == Out(fmt, cols, ch, 0, 0);
  }

  lemma NoDelta(fmt: Format, cols: seq<Column>, ch: seq<Change>)
    ensures DeltaUpTo(fmt, cols, ch, 0) == Delta(0, 0, 0)
  {
  }

  /** Copies the columns `start` to `end - 1`: their entries, moved by `ddelta`, and their data. Of
      the movement, `excess` bytes are planned only. */
  method CopyOld(b: Builder, str: seq<Byte>, h: Hdr, ghost rec: Record, start: nat, end: nat, ddelta: int,
                 ghost excess: nat, data: DynString)
    returns (failed: bool)
    requires Holds(str, h, rec) && Straight(rec) && rec.fmt == b.fmt && start <= end <= |rec.cols| && b.Valid()
    requires Copies(b.target, b.done, rec.cols, start, end, excess)
    requires data.str == DataPool(b.target.cols[..b.done])
    requires |data.str| + excess == |DataPool(rec.cols[..start])| + ddelta
    modifies b`entry, b`name, b`done, b.header, b.nmpool, data
    ensures !failed && b.Valid() && b.done == old(b.done) + (end - start)
    ensures data.str == DataPool(b.target.cols[..b.done])
  {
    hide Holds, DataPool, NamePool, ReadKey, ReadTypeOffset, IntervalLength, Builder.Valid, Straight, Copies;
    Pools(str, h, rec);
    ghost var d, had := b.done, data.str;
    CopiedPools(b.target, d, rec.cols, start, end, excess);
    var first, k := 0, start;
    while k < end
      invariant start <= k <= end && b.Valid() && b.done == d + (k - start) && data.str == had
      invariant k > start ==> first == |DataPool(rec.cols[..start])|
    {
      KeyRead(str, h, rec, k);
      EntryRead(str, h, rec, k);
      StraightAt(rec, k);
      CopiedOffset(b.target, d, rec.cols, start, k, end, excess);
      var key, field := ReadKey(str, h, k), ReadTypeOffset(str, h, k);
      if key.None? || field.None? {
        failed := true;
        return;
      }
      var (typ, offs) := field.value;
      if k == start {
        first := offs;
      } else if offs < first {
        failed := true;
        return;
      }
      failed := b.PutEntry(key.value, typ, offs + ddelta);
      k := k + 1;
    }
    if start < end {
      OldLengths(str, h, rec, start, end);
      CopiedData(str, h, rec, start, end);
      var size := IntervalLength(str, h, start, end);
      if size.None? || size.value > h.DataSize() - first {
        failed := true;
        return;
      }
      data.Append(str[h.DataPoolAt() + first..h.DataPoolAt() + first + size.value]);
    }
    assert start == end ==> had + [] == had;
    failed := false;
  }

  lemma StraightAt(rec: Record, k: nat)
    requires Straight(rec) && k < |rec.cols|
    ensures |rec.offs| == |rec.cols| && rec.offs[k] == |DataPool(rec.cols[..k])|
  {
  }

  /** The next columns of the new record are old ones, and their offsets are `excess` too large. */
  ghost predicate Copies(target: Record, d: nat, cols: seq<Column>, start: nat, end: nat, excess: nat) {
    && start <= end <= |cols| && d + (end - start) <= |target.cols| == |target.offs|
    && target.cols[d..d + (end - start)] == cols[start..end]
    && forall k :: d <= k < d + (end - start) ==> target.offs[k] == |DataPool(target.cols[..k])| + excess
  }

  /** The data before column `k` of the copied columns lies at its old offset, moved. */
  lemma CopiedOffset(target: Record, d: nat, cols: seq<Column>, start: nat, k: nat, end: nat, excess: nat)
    requires Copies(target, d, cols, start, end, excess) && start <= k < end
    ensures d + (k - start) < |target.cols| == |target.offs| && target.cols[d + (k - start)] == cols[k]
    ensures target.offs[d + (k - start)] - |DataPool(target.cols[..d])| - excess
         == |DataPool(cols[..k])| - |DataPool(cols[..start])|
    ensures |DataPool(cols[..start])| <= |DataPool(cols[..k])|
  {
    hide DataPool, NamePool;
    var t := target.cols;
    PoolsAppend(t[..d], cols[start..k]);
    PoolsAppend(cols[..start], cols[start..k]);
    assert t[d..d + (end - start)][k - start] == cols[start..end][k - start];
    assert t[..d + (k - start)] == t[..d] + t[d..d + (end - start)][..k - start];
    assert cols[start..end][..k - start] == cols[start..k];
    assert cols[..start] + cols[start..k] == cols[..k];
  }

  lemma CopiedData(str: seq<Byte>, h: Hdr, rec: Record, start: nat, end: nat)
    requires Holds(str, h, rec) && start < end <= |rec.cols|
    ensures h.DataPoolAt() + |DataPool(rec.cols[..end])| <= |str| && h.DataSize() == |DataPool(rec.cols)|
    ensures |DataPool(rec.cols[..start])| <= |DataPool(rec.cols[..end])| <= |DataPool(rec.cols)|
    ensures str[h.DataPoolAt() + |DataPool(rec.cols[..start])|..h.DataPoolAt() + |DataPool(rec.cols[..end])|]
         == DataPool(rec.cols[start..end])
  {
    hide Holds, DataPool, NamePool, Hdr.DataPoolAt, Hdr.DataSize;
    Pools(str, h, rec);
    PoolPrefix(rec.cols, end);
    PoolsAppend(rec.cols[..start], rec.cols[start..end]);
    assert rec.cols[..start] + rec.cols[start..end] == rec.cols[..end];
    var pool, a, z := DataPool(rec.cols), |DataPool(rec.cols[..start])|, |DataPool(rec.cols[..end])|;
    assert pool[a..z] == pool[..z][a..] == DataPool(rec.cols[start..end]);
    SliceOfSlice(str, h.DataPoolAt(), |str|, a, z);
    assert str[h.DataPoolAt()..|str|] == str[h.DataPoolAt()..];
  }

  lemma CopiedPools(target: Record, d: nat, cols: seq<Column>, start: nat, end: nat, excess: nat)
    requires Copies(target, d, cols, start, end, excess)
    ensures d + (end - start) <= |target.cols|
    ensures DataPool(target.cols[..d + (end - start)]) == DataPool(target.cols[..d]) + DataPool(cols[start..end])
    ensures start == end ==> DataPool(cols[start..end]) == []
  {
    hide DataPool, NamePool;
    PoolsAppend(target.cols[..d], cols[start..end]);
    assert target.cols[..d] + cols[start..end] == target.cols[..d + (end - start)];
    EmptyPools();
    assert start == end ==> cols[start..end] == [];
  }

  lemma SkipForward(fmt: Format, cols: seq<Column>, ch: seq<Change>, target: Record, i: nat, j: nat, done: nat)
    requires Progress(fmt, cols, ch, target, i, j, done) && i < |ch| && ActOf(cols, ch[i]) == Nop
    ensures Progress(fmt, cols, ch, target, i + 1, j, done)
  {
    hide Place, Cmp, Sorted, InOrder, New, Updated, Moves;
    AheadNext(cols, ch, i, j);
  }

  lemma StepForward(fmt: Format, cols: seq<Column>, ch: seq<Change>, target: Record, i: nat, j: nat, done: nat)
    requires Progress(fmt, cols, ch, target, i, j, done) && i < |ch| && ActOf(cols, ch[i]) != Nop
    ensures var (p, act) := (Place(cols, ch[i].key), ActOf(cols, ch[i]));
      && j <= p && Copies(target, done, cols, j, p, Excess(fmt, ch, i))
      && var (q, d) := (if act == Replace || act == Delete then p + 1 else p, done + (p - j));
         if act == Delete then q <= |cols| && Progress(fmt, cols, ch, target, i + 1, q, d)
         else q <= |cols| && d < |target.cols| == |target.offs| && target.cols[d] == ColumnOf(fmt, ch[i].key, ch[i].val)
              && target.offs[d] == |DataPool(target.cols[..d])| && ch[i].val != Null
              && Progress(fmt, cols, ch, target, i + 1, q, d + 1)
  {
    hide Place, Encoding, TypeOf, ActOf, Present, Beyond, New, Excess, DataPool, Progress, Copies, ColumnOf;
    ActFacts(fmt, cols, ch[i]);
    StepCopies(fmt, cols, ch, target, i, j, done);
    StepRest(fmt, cols, ch, target, i, j, done);
  }

  /** The columns before the place of a change are copied, and the new column follows. */
  lemma StepCopies(fmt: Format, cols: seq<Column>, ch: seq<Change>, target: Record, i: nat, j: nat, done: nat)
    requires Progress(fmt, cols, ch, target, i, j, done) && i < |ch| && ActOf(cols, ch[i]) != Nop
    ensures var (p, d, come) := (Place(cols, ch[i].key), done + (Place(cols, ch[i].key) - j), New(fmt, ch[i]));
      && j <= p && Copies(target, done, cols, j, p, Excess(fmt, ch, i))
      && (|come| == 1 ==> d < |target.cols| == |target.offs| && target.cols[d] == come[0]
                          && target.offs[d] == |DataPool(target.cols[..d])|)
  {
    hide Place, Cmp, Sorted, InOrder, Merged, Encoding, TypeOf, ActOf, Present, Beyond, New, Out, OutExcess;
    hide Ahead, Excess;
    hide DataPool, Updated, Moves;
    Unfolded(fmt, cols, ch, i, j);
    AheadSorted(cols, ch, i, j);
    UpdatedShape(fmt, target.size, cols, ch);
    var p, q, x := Place(cols, ch[i].key), Beyond(cols, ch[i].key), Excess(fmt, ch, i);
    var come, e := New(fmt, ch[i]), Moves(fmt, cols, ch);
    FrontAndRest(target.cols, done, cols[j..p], come, Out(fmt, cols, ch, i + 1, q));
    FrontAndRest(e, done, Same(p - j, x), Same(|come|, 0), OutExcess(fmt, cols, ch, i + 1, q));
    StatedOffsets(fmt, cols, ch, target, done, p - j, x);
  }

  lemma StepRest(fmt: Format, cols: seq<Column>, ch: seq<Change>, target: Record, i: nat, j: nat, done: nat)
    requires Progress(fmt, cols, ch, target, i, j, done) && i < |ch| && ActOf(cols, ch[i]) != Nop
    ensures j <= Place(cols, ch[i].key) && Beyond(cols, ch[i].key) <= |cols|
    ensures Progress(fmt, cols, ch, target, i + 1, Beyond(cols, ch[i].key),
                     done + (Place(cols, ch[i].key) - j) + |New(fmt, ch[i])|)
  {
    hide *;
    ProgressParts(fmt, cols, ch, target, i, j, done);
    AheadSorted(cols, ch, i, j);
    Unfolded(fmt, cols, ch, i, j);
    UpdatedShape(fmt, target.size, cols, ch);
    var p, q, x := Place(cols, ch[i].key), Beyond(cols, ch[i].key), Excess(fmt, ch, i);
    var come, e, d := New(fmt, ch[i]), Moves(fmt, cols, ch), done + (p - j) + |New(fmt, ch[i])|;
    FrontAndRest(target.cols, done, cols[j..p], come, Out(fmt, cols, ch, i + 1, q));
    FrontAndRest(e, done, Same(p - j, x), Same(|come|, 0), OutExcess(fmt, cols, ch, i + 1, q));
    ProgressAt(fmt, cols, ch, target, i + 1, q, d);
  }

  lemma ProgressParts(fmt: Format, cols: seq<Column>, ch: seq<Change>, target: Record, i: nat, j: nat, d: nat)
    requires Progress(fmt, cols, ch, target, i, j, d)
    ensures Ahead(cols, ch, i, j) && Ahead(cols, ch, 0, 0) && i <= |ch| && j <= |cols| && Sorted(cols) && InOrder(ch)
    ensures target == Updated(fmt, target.size, cols, ch)
    ensures d <= |target.cols| == |Moves(fmt, cols, ch)| && target.cols[d..] == Out(fmt, cols, ch, i, j)
    ensures Moves(fmt, cols, ch)[d..] == OutExcess(fmt, cols, ch, i, j)
  {
    hide Updated, Moves, Out, OutExcess;
    assert Ahead(cols, ch, 0, 0);
    UpdatedShape(fmt, target.size, cols, ch);
  }

  lemma ProgressAt(fmt: Format, cols: seq<Column>, ch: seq<Change>, target: Record, i: nat, j: nat, d: nat)
    requires Ahead(cols, ch, i, j) && Ahead(cols, ch, 0, 0) && target == Updated(fmt, target.size, cols, ch)
    requires d <= |target.cols| == |Moves(fmt, cols, ch)| && target.cols[d..] == Out(fmt, cols, ch, i, j)
    requires Moves(fmt, cols, ch)[d..] == OutExcess(fmt, cols, ch, i, j)
    ensures Progress(fmt, cols, ch, target, i, j, d)
  {
    hide Ahead, Updated, Moves, Out, OutExcess;
  }

  lemma UpdatedShape(fmt: Format, size: nat, cols: seq<Column>, ch: seq<Change>)
    requires Sorted(cols) && InOrder(ch)
    ensures var r := Updated(fmt, size, cols, ch);
      r.cols == Merged(fmt, cols, ch) && |Moves(fmt, cols, ch)| == |r.cols| == |r.offs|
  {
  }

  lemma AheadSorted(cols: seq<Column>, ch: seq<Change>, i: nat, j: nat)
    requires Ahead(cols, ch, i, j)
    ensures Sorted(cols) && InOrder(ch)
  {
  }

  /** Offsets of copied columns are off by what the moves say. */
  lemma StatedOffsets(fmt: Format, cols: seq<Column>, ch: seq<Change>, target: Record, d: nat, n: nat, x: nat)
    requires Sorted(cols) && InOrder(ch) && target == Updated(fmt, target.size, cols, ch) && d + n <= |target.cols|
    requires Moves(fmt, cols, ch)[d..d + n] == Same(n, x)
    ensures |target.offs| == |target.cols|
    ensures forall k :: d <= k < d + n ==> target.offs[k] == |DataPool(target.cols[..k])| + x
    ensures d + n < |target.cols|
      ==> target.offs[d + n] == |DataPool(target.cols[..d + n])| + Moves(fmt, cols, ch)[d + n]
  {
    hide Sorted, InOrder, Moves, Merged, DataPool;
    var e := Moves(fmt, cols, ch);
    forall k | d <= k < d + n ensures e[k] == x {
      assert e[d..d + n][k - d] == Same(n, x)[k - d];
    }
  }

  lemma Unfolded(fmt: Format, cols: seq<Column>, ch: seq<Change>, i: nat, j: nat)
    requires Ahead(cols, ch, i, j) && i < |ch| && ActOf(cols, ch[i]) != Nop
    ensures var (p, q) := (Place(cols, ch[i].key), Beyond(cols, ch[i].key));
      && j <= p <= |cols| && q <= |cols| && Ahead(cols, ch, i + 1, q)
      && Out(fmt, cols, ch, i, j) == cols[j..p] + New(fmt, ch[i]) + Out(fmt, cols, ch, i + 1, q)
      && OutExcess(fmt, cols, ch, i, j)
         == Same(p - j, Excess(fmt, ch, i)) + Same(|New(fmt, ch[i])|, 0) + OutExcess(fmt, cols, ch, i + 1, q)
  {
    hide Place, Cmp, Sorted, InOrder, New, Beyond, Excess;
    AheadNext(cols, ch, i, j);
  }

  lemma ActFacts(fmt: Format, cols: seq<Column>, c: Change)
    ensures var (p, q, act) := (Place(cols, c.key), Beyond(cols, c.key), ActOf(cols, c));
      && q == (if act == Replace || act == Delete then p + 1 else p)
      && (act == Delete || act == Nop ==> New(fmt, c) == [])
      && (act == Replace || act == Add ==> c.val != Null && New(fmt, c) == [ColumnOf(fmt, c.key, c.val)])
  {
    hide Place, Encoding;
  }

  lemma FrontAndRest<T>(target: seq<T>, done: nat, a: seq<T>, b: seq<T>, c: seq<T>)
    requires done <= |target| && target[done..] == a + b + c
    ensures done + |a| + |b| <= |target|
    ensures target[done..done + |a|] == a && target[done + |a|..done + |a| + |b|] == b
    ensures target[done + |a| + |b|..] == c
    ensures |b| == 1 ==> target[done + |a|] == b[0]
  {
    var rest := target[done..];
    assert |rest| == |a| + |b| + |c|;
    assert target[done..done + |a|] == rest[..|a|];
    assert target[done + |a|..done + |a| + |b|] == rest[|a|..|a| + |b|];
    assert target[done + |a| + |b|..] == rest[|a| + |b|..];
    assert |b| == 1 ==> rest[|a|] == b[0];
  }

  /** At the end of the changes the remaining columns are copied. */
  lemma LastForward(fmt: Format, cols: seq<Column>, ch: seq<Change>, target: Record, j: nat, done: nat)
    requires Progress(fmt, cols, ch, target, |ch|, j, done)
    ensures j <= |cols| && done + (|cols| - j) == |target.cols|
    ensures Copies(target, done, cols, j, |cols|, Excess(fmt, ch, |ch|))
  {
    hide Place, Cmp, Sorted, InOrder, Merged, Moves, DataPool, Excess;
    var t, n := target.cols, |cols| - j;
    assert t[done..] == cols[j..] && |t| - done == n;
    assert t[done..done + n] == t[done..] && cols[j..|cols|] == cols[j..];
    assert Moves(fmt, cols, ch)[done..done + n] == Moves(fmt, cols, ch)[done..];
    StatedOffsets(fmt, cols, ch, target, done, n, Excess(fmt, ch, |ch|));
  }

  /** Leaves out entries of the plan that change nothing. */
  method SkipNops(steps: seq<Step>, from: nat, ghost fmt: Format, ghost cols: seq<Column>, ghost ch: seq<Change>,
                  ghost target: Record, ghost j: nat, ghost done: nat)
    returns (i: nat)
    requires Planned(fmt, cols, ch, steps) && |steps| == |ch| && from <= |steps|
    requires Progress(fmt, cols, ch, target, from, j, done)
    ensures from <= i <= |steps| && Progress(fmt, cols, ch, target, i, j, done)
    ensures i < |steps| ==> steps[i].act != Nop
  {
    hide Progress, Place, Cmp, DeltaUpTo, ActOf, Excess;
    i := from;
    while i < |steps| && steps[i].act == Nop
      invariant from <= i <= |steps| && Progress(fmt, cols, ch, target, i, j, done)
    {
      SkipForward(fmt, cols, ch, target, i, j, done);
      i := i + 1;
    }
  }

  lemma MergedStart(fmt: Format, size: nat, cols: seq<Column>, ch: seq<Change>)
    requires Sorted(cols) && InOrder(ch)
    ensures Ahead(cols, ch, 0, 0) && Progress(fmt, cols, ch, Updated(fmt, size, cols, ch), 0, 0, 0)
    ensures DataPool([]) == []
  {
    EmptyPools();
    hide Place, Cmp, Out, OutExcess, DataPool;
    var m, e := Merged(fmt, cols, ch), Moves(fmt, cols, ch);
    assert m[0..] == m && e[0..] == e;
  }

  /** dynamic_column_update_copy. `total` is the movement behind the last change. */
  method UpdateCopy(b: Builder, str: seq<Byte>, h: Hdr, steps: seq<Step>, total: int, ghost rec: Record,
                    ghost ch: seq<Change>)
    returns (rc: Code, out: seq<Byte>)
    requires Holds(str, h, rec) && Straight(rec) && rec.fmt == b.fmt && Sorted(rec.cols) && InOrder(ch)
    requires Planned(b.fmt, rec.cols, ch, steps) && |steps| == |ch|
    requires total == DeltaUpTo(b.fmt, rec.cols, ch, |ch|).data + Excess(b.fmt, ch, |ch|)
    requires b.Valid() && b.done == 0 && b.target == Updated(b.fmt, b.target.size, rec.cols, ch)
    modifies b`entry, b`name, b`done, b.header, b.nmpool
    ensures rc == Done && b.Planned() && out == Packed(b.target)
  {
    hide Holds, DataPool, NamePool, Encoding, Place, Cmp, Updated, DeltaUpTo, Builder.Valid, Progress, ActOf;
    hide InOrder, Sorted;
    hide Straight, Excess, Copies;
    rc, out := Format, [];
    Pools(str, h, rec);
    MergedStart(b.fmt, b.target.size, rec.cols, ch);
    ghost var fmt, cols, target := b.fmt, rec.cols, b.target;
    var data := new DynString();
    var i, j, n := 0, 0, |steps|;
    assert target.cols[..0] == [];
    while i < n || j < h.count
      invariant 0 <= i <= n + 1 && 0 <= j <= h.count && fresh(data) && b.Valid() && b.done <= |target.cols|
      invariant i <= n ==> Progress(fmt, cols, ch, target, i, j, b.done)
      invariant i == n + 1 ==> j == h.count && b.done == |target.cols|
      invariant data.str == DataPool(target.cols[..b.done])
      decreases n + 1 - i
    {
      var start := j;
      i := SkipNops(steps, i, fmt, cols, ch, target, j, b.done);
      Moved(fmt, cols, ch, target, i, j, b.done);
      if i == n {
        LastForward(fmt, cols, ch, target, j, b.done);
        var failed := CopyOld(b, str, h, rec, start, h.count, total, Excess(fmt, ch, n), data);
        if failed {
          return;
        }
        j := h.count;
      } else {
        var s := steps[i];
        assert StepFor(fmt, cols, ch, i, s);
        StepForward(fmt, cols, ch, target, i, j, b.done);
        while j < s.place
          invariant start <= j <= s.place
        {
          j := j + 1;
        }
        CopiesFit(target, b.done, cols, start, j, Excess(fmt, ch, i));
        var failed := CopyOld(b, str, h, rec, start, j, s.ddelta, Excess(fmt, ch, i), data);
        if failed {
          return;
        }
        if s.act == Replace || s.act == Delete {
          j := j + 1;
        }
        if s.act == Add || s.act == Replace {
          PoolsNext(target.cols, b.done);
          failed := b.PutEntry(s.key, TypeOf(s.val), |data.str|);
          if failed {
            return;
          }
          DataStore(data, s.val, b.fmt);
        }
      }
      i := i + 1;
    }
    if i == n {
      LastForward(fmt, cols, ch, target, j, b.done);
    }
    assert target.cols[..b.done] == target.cols;
    ValidIsPlanned(b);
    out := b.Finish(data.str);
    rc := Done;
  }

  lemma CopiesFit(target: Record, d: nat, cols: seq<Column>, start: nat, end: nat, excess: nat)
    requires Copies(target, d, cols, start, end, excess)
    ensures start <= end <= |cols| && d + (end - start) <= |target.cols|
  {
  }

  lemma ValidIsPlanned(b: Builder)
    requires b.Valid()
    ensures b.Planned()
  {
  }

  // ---- Updating ----

  /** What the update functions demand of keys and values, and that the result has room for all
      names and columns. */
  ghost predicate Updates(fmt: Format, keys: seq<Key>, values: seq<Value>, order: seq<nat>, cols: seq<Column>) {
    && |keys| == |values| && SortedBy(keys, order)
    && (forall i :: 0 <= i < |keys| ==> (fmt == Numeric <==> keys[i].Num?) && TypeOf(values[i]) <= TypeCount(fmt))
    && (cols == [] ==> Accepts(fmt, keys, values))
    && (cols != [] && Sorted(cols) && InOrder(Changes(keys, values, order)) ==>
        var m := Merged(fmt, cols, Changes(keys, values, order)); |m| <= UINT_MAX16 && |NamePool(m)| <= UINT_MAX16)
  }

  /** The data that the update is planned to leave. */
  ghost function PlannedData(fmt: Format, cols: seq<Column>, ch: seq<Change>): nat
    requires Sorted(cols) && InOrder(ch)
  {
    |DataPool(Merged(fmt, cols, ch))| + Excess(fmt, ch, |ch|)
  }

  ghost predicate TooLarge(fmt: Format, cols: seq<Column>, ch: seq<Change>)
    requires Sorted(cols) && InOrder(ch)
  {
    OffsetBytes(fmt, PlannedData(fmt, cols, ch)) >= MaxOffsetSize(fmt)
  }

  /** The record that is planned is within the limits of the format when its data is. */
  lemma UpdatedValid(fmt: Format, keys: seq<Key>, values: seq<Value>, order: seq<nat>, cols: seq<Column>)
    requires ValidColumns(fmt, cols) && cols != [] && Updates(fmt, keys, values, order, cols)
    requires InOrder(Changes(keys, values, order)) && forall i :: 0 <= i < |keys| ==> !OverLimit(keys[i])
    requires !TooLarge(fmt, cols, Changes(keys, values, order))
    ensures var ch := Changes(keys, values, order);
      DynRecord.Valid(Updated(fmt, OffsetBytes(fmt, PlannedData(fmt, cols, ch)), cols, ch))
  {
    hide Cmp, Encoding, Merged, OffsetBytes, OffsetLimit, DataPool, NamePool, Misplanned, Permutes, OverLimit;
    hide Excess, Moves;
    var ch := Changes(keys, values, order);
    var m := Merged(fmt, cols, ch);
    MergedColumns(fmt, keys, values, order, cols);
    var total := PlannedData(fmt, cols, ch);
    var r := Updated(fmt, OffsetBytes(fmt, total), cols, ch);
    RoomFor(fmt, total, OffsetBytes(fmt, total));
    forall d | 0 <= d < |m| ensures r.offs[d] <= total {
      PoolPrefix(m, d);
      MovesBound(fmt, cols, ch, d);
    }
  }

  lemma MovesBound(fmt: Format, cols: seq<Column>, ch: seq<Change>, d: nat)
    requires Sorted(cols) && InOrder(ch) && d < |Moves(fmt, cols, ch)|
    ensures Moves(fmt, cols, ch)[d] <= Excess(fmt, ch, |ch|)
  {
    hide OutExcess, Excess, Cmp, Merged;
    SameLength(fmt, cols, ch, 0, 0);
    assert Moves(fmt, cols, ch)[d] in Moves(fmt, cols, ch);
  }

  lemma MergedColumns(fmt: Format, keys: seq<Key>, values: seq<Value>, order: seq<nat>, cols: seq<Column>)
    requires ValidColumns(fmt, cols) && cols != [] && Updates(fmt, keys, values, order, cols)
    requires InOrder(Changes(keys, values, order)) && forall i :: 0 <= i < |keys| ==> !OverLimit(keys[i])
    ensures ValidColumns(fmt, Merged(fmt, cols, Changes(keys, values, order)))
  {
    hide Cmp, Encoding, Out, DataPool, NamePool, Permutes, OverLimit;
    var ch := Changes(keys, values, order);
    var m := Merged(fmt, cols, ch);
    SortedMerged(fmt, cols, ch);
    forall k | 0 <= k < |m| ensures ColumnOk(fmt, m[k]) {
      OutHas(fmt, cols, ch, 0, 0, m[k]);
      if Comes(fmt, ch, 0, m[k]) {
        var i :| 0 <= i < |ch| && ch[i].val != Null && m[k] == ColumnOf(fmt, ch[i].key, ch[i].val);
        NotNullType(ch[i].val);
      }
    }
  }

  /** Integers stay short. */
  lemma MergedShort(fmt: Format, cols: seq<Column>, ch: seq<Change>)
    requires Sorted(cols) && InOrder(ch) && ShortIntegers(cols)
    ensures ShortIntegers(Merged(fmt, cols, ch))
  {
    hide Cmp, Encoding, Out;
    var m := Merged(fmt, cols, ch);
    forall k | 0 <= k < |m| && m[k].typ <= 2 ensures |m[k].data| <= 8 {
      OutHas(fmt, cols, ch, 0, 0, m[k]);
      if Comes(fmt, ch, 0, m[k]) {
        var i :| 0 <= i < |ch| && ch[i].val != Null && m[k] == ColumnOf(fmt, ch[i].key, ch[i].val);
        IntegerLength(fmt, ch[i].val);
      }
    }
  }

  lemma NotNullType(v: Value)
    ensures v != Null ==> TypeOf(v) >= 1
  {
  }

  /** Sizes of the merged columns are the old ones with what the plan adds. */
  lemma MergedSizes(fmt: Format, cols: seq<Column>, ch: seq<Change>)
    requires Sorted(cols) && InOrder(ch)
    ensures var (m, d) := (Merged(fmt, cols, ch), DeltaUpTo(fmt, cols, ch, |ch|));
      && |m| == |cols| + d.header && |DataPool(m)| == |DataPool(cols)| + d.data
      && |NamePool(m)| == |NamePool(cols)| + d.name
  {
    hide Cmp, DataPool, NamePool, Place;
    MergedStart(fmt, 0, cols, ch);
    OutSizes(fmt, cols, ch, 0, 0);
    assert cols[0..] == cols;
  }

  /** A record, or no bytes at all for no columns. */
  ghost predicate Stored(str: seq<Byte>, fmt: Format, rec: Record) {
    && |rec.cols| == |rec.offs|
    && if str == [] then rec.cols == [] else DynRecord.Valid(rec) && rec.fmt == fmt && str == Packed(rec)
  }

  ghost predicate AllNull(values: seq<Value>) {
    forall i :: 0 <= i < |values| ==> values[i] == Null
  }

  /** The columns after an update that succeeds. */
  ghost function ColumnsAfter(fmt: Format, keys: seq<Key>, values: seq<Value>, order: seq<nat>,
                              cols: seq<Column>): seq<Column>
    requires Inputs(fmt, keys, values, order)
  {
    if cols == [] then Cols(fmt, keys, values, order)
    else if Sorted(cols) && InOrder(Changes(keys, values, order)) then Merged(fmt, cols, Changes(keys, values, order))
    else cols
  }

  /** What an update answers, in the order in which the reasons are found. Without columns from before,
      NULLs alone are never refused, and too much data is found before repeated keys. */
  ghost function Answer(fmt: Format, keys: seq<Key>, values: seq<Value>, order: seq<nat>, cols: seq<Column>): Code
    requires |keys| == |values| && Inputs(fmt, keys, values, order)
  {
    if keys == [] then Done
    else if AnyLong(keys) then Data
    else if cols == [] && AllNull(values) then Done
    else if cols == [] && TooMuch(fmt, keys, values) then Limit
    else if Repeated(keys) then Data
    else if cols != [] && Unaddressable(fmt, cols, Changes(keys, values, order)) then Limit
    else Done
  }

  ghost predicate Unaddressable(fmt: Format, cols: seq<Column>, ch: seq<Change>) {
    Sorted(cols) && InOrder(ch) && TooLarge(fmt, cols, ch)
  }

  /** The bytes that a refused update leaves: the ones from before, unless there were no columns and
      keys repeat, which is found after the header is cleared. */
  ghost function Left(str: seq<Byte>, fmt: Format, keys: seq<Key>, cols: seq<Column>, rc: Code): seq<Byte> {
    if cols == [] && rc == Data && !AnyLong(keys) then ZeroHeader(fmt) else str
  }

  /** dynamic_column_update_many for keys of the record's own format, by copying. Without columns
      from before this creates the record, unless there is nothing to add. Lookups then see the old
      map overridden by the changes exactly when the update is harmless. */
  method Update(str: seq<Byte>, fmt: Format, keys: seq<Key>, values: seq<Value>, order: seq<nat>, ghost rec: Record)
    returns (rc: Code, out: seq<Byte>, ghost rec': Record)
    requires Stored(str, fmt, rec) && Straight(rec) && Updates(fmt, keys, values, order, rec.cols)
    ensures Inputs(fmt, keys, values, order) && rc == Answer(fmt, keys, values, order, rec.cols)
    ensures rc != Done ==> out == Left(str, fmt, keys, rec.cols, rc)
    ensures rc == Done ==> Stored(out, fmt, rec') && rec'.cols == ColumnsAfter(fmt, keys, values, order, rec.cols)
    ensures rc == Done && !(rec.cols == [] && AllNull(values))
      ==> var ch := Changes(keys, values, order);
          && InOrder(ch) && (Overrides(Seen(rec'), Content(rec.cols), fmt, ch) <==> Harmless(fmt, rec.cols, ch))
          && (Straight(rec') <==> Harmless(fmt, rec.cols, ch))
    ensures rc == Done && rec.cols == [] && AllNull(values) ==> out == str && rec' == rec
    ensures rc == Done && ShortIntegers(rec.cols) ==> ShortIntegers(rec'.cols)
    ensures rec.cols != [] ==> rc != Format && (rc == Data <==> Refused(keys)) && (rc != Done ==> out == str)
    ensures rec.cols != [] && keys != [] && rc != Data
      ==> var ch := Changes(keys, values, order);
          && InOrder(ch) && Sorted(rec.cols) && (rc == Limit <==> TooLarge(fmt, rec.cols, ch))
          && (rc == Done ==> rec' == Updated(fmt, OffsetBytes(fmt, PlannedData(fmt, rec.cols, ch)), rec.cols, ch))
  {
    hide Cmp, Encoding, DataPool, NamePool, TooLarge, Content, Packed, DynRecord.Valid, ColumnsAfter, Assigns;
    hide Overrides, OverLimit;
    hide Permutes, Updates, Accepts, InOrder, Seen, Harmless, Straight, ShortIntegers, Inputs, Updated, PlannedData;
    rc, out, rec' := Done, str, rec;
    UpdateInputs(fmt, keys, values, order, rec.cols);
    if |keys| == 0 {
      NoChanges(fmt, keys, values, order, rec);
      return;
    }
    var i := 0;
    var notNull := |keys|;
    while i < |keys|
      invariant 0 <= i <= |keys| && notNull <= |keys| && forall k :: 0 <= k < i ==> !OverLimit(keys[k])
      invariant notNull == |keys| - i <==> forall k :: 0 <= k < i ==> values[k] == Null
      invariant notNull >= |keys| - i
    {
      if OverLimit(keys[i]) {
        assert AnyLong(keys);
        rc := Data;
        return;
      }
      if values[i] == Null {
        notNull := notNull - 1;
      }
      i := i + 1;
    }
    if str == [] {
      rc, out, rec' := CreateNew(str, fmt, keys, values, order, rec, notNull);
      return;
    }
    HeaderRead(str, rec);
    var hdr := ReadHdr(str);
    if hdr.None? {
      rc := Format;
      return;
    }
    var h := hdr.value;
    if h.count == 0 {
      rc, out, rec' := CreateNew(str, fmt, keys, values, order, rec, notNull);
      return;
    }
    Pools(str, h, rec);
    if h.DataPoolAt() > |str| {
      rc := Format;
      return;
    }
    rc, out, rec' := PlanAndCopy(str, h, fmt, keys, values, order, rec);
  }

  lemma UpdateInputs(fmt: Format, keys: seq<Key>, values: seq<Value>, order: seq<nat>, cols: seq<Column>)
    requires Updates(fmt, keys, values, order, cols)
    ensures |keys| == |values| && SortedBy(keys, order) && (cols == [] ==> Accepts(fmt, keys, values))
    ensures Inputs(fmt, keys, values, order)
    ensures forall i :: 0 <= i < |keys| ==> (fmt == Numeric <==> keys[i].Num?) && TypeOf(values[i]) <= TypeCount(fmt)
  {
  }

  lemma NoChanges(fmt: Format, keys: seq<Key>, values: seq<Value>, order: seq<nat>, rec: Record)
    requires keys == [] && |values| == 0 && SortedBy(keys, order) && Straight(rec)
    requires rec.cols != [] ==> DynRecord.Valid(rec)
    ensures Inputs(fmt, keys, values, order) && ColumnsAfter(fmt, keys, values, order, rec.cols) == rec.cols
    ensures var ch := Changes(keys, values, order);
      && InOrder(ch) && Harmless(fmt, rec.cols, ch)
      && (rec.cols != [] ==> Overrides(Seen(rec), Content(rec.cols), fmt, ch))
  {
    PermutesRange(order, 0);
    hide Content, Seen, DataPool, NamePool, OffsetBytes;
    if rec.cols != [] { SeenStraight(rec); }
    assert rec.cols[0..] == rec.cols;
  }

  /** Assigning to the empty map is overriding it. */
  lemma AssignsOverrides(m: map<Key, (nat, seq<Byte>)>, fmt: Format, keys: seq<Key>, values: seq<Value>,
                         order: seq<nat>)
    requires |keys| == |values| && Assigns(m, fmt, keys, values) && SortedBy(keys, order) && !Refused(keys)
    ensures InOrder(Changes(keys, values, order)) && Overrides(m, Content([]), fmt, Changes(keys, values, order))
  {
    hide Cmp, Encoding, OverLimit, Permutes, TypeOf;
    PermutesRange(order, |keys|);
    var ch := Changes(keys, values, order);
    forall i, j | 0 <= i < j < |ch| ensures Cmp(ch[i].key, ch[j].key) < 0 {
      assert Cmp(keys[order[i]], keys[order[j]]) <= 0;
      NoRepeats(order, |keys|, i, j);
      CmpOrder(keys[order[i]], keys[order[j]], keys[order[i]]);
      assert order[i] < order[j] || order[j] < order[i];
    }
    forall k | Untouched(ch, k) ensures k !in m {
      if k in keys { InChanges(keys, values, order, k); }
    }
  }

  lemma InChanges(keys: seq<Key>, values: seq<Value>, order: seq<nat>, key: Key)
    requires |keys| == |values| && (forall i :: 0 <= i < |order| ==> order[i] < |keys|) && Permutes(order, |keys|)
    requires key in keys
    ensures !Untouched(Changes(keys, values, order), key)
  {
    hide Permutes;
    PermutesRange(order, |keys|);
    var i :| 0 <= i < |keys| && keys[i] == key;
    assert i in order;
    var at :| 0 <= at < |order| && order[at] == i;
    assert Changes(keys, values, order)[at].key == key;
  }

  /** There are no columns from before, so the new ones are just added. */
  method CreateNew(str: seq<Byte>, fmt: Format, keys: seq<Key>, values: seq<Value>, order: seq<nat>,
                   ghost rec: Record, notNull: nat)
    returns (rc: Code, out: seq<Byte>, ghost rec': Record)
    requires Stored(str, fmt, rec) && rec.cols == [] && keys != [] && Accepts(fmt, keys, values)
    requires SortedBy(keys, order)
    requires notNull == 0 <==> AllNull(values)
    requires !AnyLong(keys)
    ensures Inputs(fmt, keys, values, order) && rc == Answer(fmt, keys, values, order, rec.cols)
    ensures rc != Done ==> out == Left(str, fmt, keys, rec.cols, rc)
    ensures rc == Done ==> rec'.cols == ColumnsAfter(fmt, keys, values, order, rec.cols)
    ensures rc == Done ==> Stored(out, fmt, rec') && ShortIntegers(rec'.cols)
    ensures rc == Done && notNull != 0
      ==> var ch := Changes(keys, values, order);
          && InOrder(ch) && Overrides(Seen(rec'), Content([]), fmt, ch) && Harmless(fmt, [], ch) && Straight(rec')
    ensures rc == Done && notNull == 0 ==> out == str && rec' == rec
  {
    hide Cmp, Encoding, DataPool, NamePool, Content, Packed, DynRecord.Valid, Assigns, Overrides, InOrder;
    hide AnyLong, Repeated;
    hide OffsetBytes, OverLimit, Permutes, Seen;
    rc, out, rec' := Done, str, rec;
    PermutesRange(order, |keys|);
    if notNull != 0 {
      rc, out, rec' := Create(str, fmt, keys, values, order);
      if rc == Done {
        HeaderRead(out, rec');
        SeenStraight(rec');
        CreatedShort(fmt, keys, values, rec');
        AssignsOverrides(Content(rec'.cols), fmt, keys, values, order);
      }
    } else {
      OnlyNulls(fmt, keys, values, order);
    }
  }

  lemma {:induction false} OnlyNulls(fmt: Format, keys: seq<Key>, values: seq<Value>, order: seq<nat>)
    requires Inputs(fmt, keys, values, order) && AllNull(values)
    ensures Cols(fmt, keys, values, order) == []
  {
    if order != [] { OnlyNulls(fmt, keys, values, order[..|order| - 1]); }
  }

  /** The plan is made, the new sizes are checked, and the record is copied. */
  method PlanAndCopy(str: seq<Byte>, h: Hdr, fmt: Format, keys: seq<Key>, values: seq<Value>, order: seq<nat>,
                     ghost rec: Record)
    returns (rc: Code, out: seq<Byte>, ghost rec': Record)
    requires Holds(str, h, rec) && Straight(rec) && rec.fmt == fmt && rec.cols != [] && str != []
    requires Updates(fmt, keys, values, order, rec.cols) && forall i :: 0 <= i < |keys| ==> !OverLimit(keys[i])
    ensures rc != Format && (rc == Data <==> Refused(keys)) && (rc != Done ==> out == str)
    ensures Inputs(fmt, keys, values, order) && Sorted(rec.cols)
    ensures rc != Data ==> InOrder(Changes(keys, values, order))
    ensures rc == Done ==> Stored(out, fmt, rec') && out != []
    ensures rc == Done ==> rec'.cols == ColumnsAfter(fmt, keys, values, order, rec.cols)
    ensures rc == Done ==> var ch := Changes(keys, values, order);
      && (Overrides(Seen(rec'), Content(rec.cols), fmt, ch) <==> Harmless(fmt, rec.cols, ch))
      && (Straight(rec') <==> Harmless(fmt, rec.cols, ch))
    ensures rc == Done && ShortIntegers(rec.cols) ==> ShortIntegers(rec'.cols)
    ensures rc == Limit <==> rc != Data && TooLarge(fmt, rec.cols, Changes(keys, values, order))
    ensures rc == Done ==> var ch := Changes(keys, values, order);
      rec' == Updated(fmt, OffsetBytes(fmt, PlannedData(fmt, rec.cols, ch)), rec.cols, ch)
  {
    hide Cmp, Encoding, DataPool, NamePool, Content, Packed, DynRecord.Valid, Merged, Overrides, OverLimit, Holds, Seen;
    hide Permutes, Refused, InOrder, OffsetBytes, MaxOffsetSize, DeltaUpTo, Builder.Valid, SortedBy, Excess, Harmless;
    hide Straight, ShortIntegers, Moves;
    UpdateInputs(fmt, keys, values, order, rec.cols);
    Pools(str, h, rec);
    out, rec' := str, rec;
    ghost var ch := Changes(keys, values, order);
    var steps, header, data, name;
    rc, steps, header, data, name := MakePlan(str, h, keys, values, order, rec);
    if rc != Done {
      return;
    }
    assert |ch| == |order|;
    MergedSizes(fmt, rec.cols, ch);
    var dataSize := h.DataSize() + data;
    var offsetSize := OffsetBytes(fmt, dataSize);
    if offsetSize >= MaxOffsetSize(fmt) {
      rc := Limit;
      return;
    }
    HoldsValid(str, h, rec);
    UpdatedValid(fmt, keys, values, order, rec.cols);
    rec' := Updated(fmt, offsetSize, rec.cols, ch);
    UpdatedOverrides(fmt, offsetSize, rec.cols, ch);
    if ShortIntegers(rec.cols) { MergedShort(fmt, rec.cols, ch); }
    var builder := new Builder(fmt, offsetSize, h.count + header, h.nmpoolSize + name, rec');
    rc, out := UpdateCopy(builder, str, h, steps, data, rec, ch);
    HeaderRead(out, rec');
  }

  lemma HoldsValid(str: seq<Byte>, h: Hdr, rec: Record)
    requires Holds(str, h, rec)
    ensures ValidColumns(rec.fmt, rec.cols)
  {
  }
}
