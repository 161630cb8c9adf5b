/** The hash table of ma_hashtbl.c: an index whose chains all live inside one dense array
    that grows and shrinks by one slot with each record. */
module LinearHash {
  import opened Basics
  import opened Chains
  import opened ChainMerge
  import opened ChainMoves
  import opened ChainSplit
  import opened HashLookup
  import opened HashMask

  class Table<R(==,0,!new), K(==,!new)> {
    const getKey: R -> K
    const calcHash: K -> nat

    var data: seq<Link<R>>
    var records: nat
    var blength: nat
    var current: nat
    ghost var chains: seq<seq<nat>>

    function Hash(r: R): nat {
      calcHash(getKey(r))
    }

    /** The home slot of every record, for given table sizes. */
    ghost function Home(b: nat, n: nat): R -> nat
      requires b > 0
    {
      r => Mask(Hash(r), b, n)
    }

    ghost predicate Valid()
      reads this`data, this`records, this`blength, this`chains
    {
      && records == |data| < 0x8000_0000
      && Sized(blength, records)
      && Tiled(data, Home(blength, records), records, chains, records)
    }

    ghost function Contents(): multiset<R>
      reads this`data
    {
      Held(data, |data|)
    }

    constructor (getKey: R -> K, calcHash: K -> nat)
      ensures Valid() && Contents() == multiset{} && records == 0 && current == NO_RECORD
      ensures this.getKey == getKey && this.calcHash == calcHash
    {
      this.getKey, this.calcHash := getKey, calcHash;
      data, records, blength, current, chains := [], 0, 1, NO_RECORD, [];
    }

    /** Walks the links from slot `start` to the one that points to `find` and redirects it.
        `path` is the stretch of chain walked. */
    method MoveLink(find: nat, start: nat, newLink: nat, ghost path: seq<nat>)
      requires path != [] && path[0] == start && Seg(data, path, find)
      requires forall k :: 0 < k < |path| ==> path[k] != find
      modifies this`data
      ensures data == old(data)[path[|path| - 1] := Link(newLink, old(data)[path[|path| - 1]].rec)]
    {
      var oldLink := start;
      ghost var k := 0;
      while data[oldLink].next != find
        invariant 0 <= k < |path| && oldLink == path[k]
        decreases |path| - k
      {
        oldLink := data[oldLink].next;
        k := k + 1;
      }
      assert k == |path| - 1;
      data := data[oldLink := Link(newLink, data[oldLink].rec)];
    }

    lemma HomesGrow(b: nat, n: nat)
      requires Sized(b, n) && n > 0
      ensures 0 <= n - b / 2 < n && b / 2 > 0
      ensures forall r :: Home(b, n + 1)(r) ==
                if Home(b, n)(r) == n - b / 2 && HalfBit(Hash(r), b / 2) then n else Home(b, n)(r)
    {
      forall r ensures Home(b, n + 1)(r) ==
                if Home(b, n)(r) == n - b / 2 && HalfBit(Hash(r), b / 2) then n else Home(b, n)(r)
      {
        MaskGrow(Hash(r), b, n);
      }
    }

    /** One record of the split chain, at slot `pos`, joins one of the two new chains: the
        lower half when its half bit is clear, the upper half when set. The first record of
        a chain either owns its head slot or goes to the free slot (`move`). */
    method Join(pos: nat, move: bool, find: bool, used: bool, g: nat, r: R, free: nat,
                ghost d: seq<Link<R>>, ghost v: seq<Link<R>>, ghost home': R -> nat, ghost c: seq<nat>, ghost i: nat,
                ghost mine: Side<R>, ghost a: nat, ghost other: Side<R>, ghost b: nat)
      returns (used': bool, g': nat, r': R, free': nat, ghost v': seq<Link<R>>, ghost mine': Side<R>)
      requires Walk(d, data, v, home', c, i, mine, a, other, b, free)
      requires i < |c| && Linked(d, c) && pos == c[i] < |d| - 1 && home'(d[pos].rec) == a
      requires mine == Side(mine.slots, used, g, r) && (find <==> mine.slots != [])
      requires !find ==> if move then free == a else pos == a
      modifies this`data
      ensures Walk(d, data, v', home', c, i + 1, mine', a, other.(used := false), b, free')
      ensures mine' == Side(mine'.slots, used', g', r') && mine'.slots != []
      ensures free' == if !find && move then pos else free
      ensures |data| == |d| && data[pos].next == d[pos].next
    {
      free' := free;
      WalkAt(d, data, v, home', c, i, mine, a, other, b, free);
      ghost var was := data;
      if !find && move {
        WalkMove(d, data, v, home', c, i, mine, a, other, b);
        v', mine' := v[a := d[pos]], Side([a], false, a, d[pos].rec);
        used', g', r', free' := false, free, data[pos].rec, pos;
      } else {
        WalkStay(d, data, v, home', c, i, mine, a, other, b, free);
        v', mine' := StayView(v, mine, pos), Side(mine.slots + [pos], true, pos, d[pos].rec);
        if find && !used {
          NextFree(d, v, home', c, i, mine.slots, a, other.slots, b, free);
          data := data[g := Link(pos, r)];
        }
        used', g', r' := true, pos, data[pos].rec;
      }
    }

    /** Splits the chain of slot `records - blength / 2` between that slot and the new slot
        `records`, and returns the slot left free. */
    method SplitChain(ghost home: R -> nat, ghost home': R -> nat, ghost c: seq<nat>)
      returns (empty: nat, ghost lows: seq<nat>, ghost highs: seq<nat>)
      requires 0 < records < NO_RECORD && records + 1 == |data| && blength / 2 > 0
      requires 0 <= records - blength / 2 < records
      requires Chain(data[..records], home, c, records - blength / 2)
      requires records - blength / 2 in c || home(data[records - blength / 2].rec) != records - blength / 2
      requires forall r :: home(r) == Mask(Hash(r), blength, records)
      requires forall r ::
        home'(r) == if home(r) == records - blength / 2 && HalfBit(Hash(r), blength / 2) then records else home(r)
      modifies this`data
      ensures |data| == records + 1 && empty <= records
      ensures Parted(old(data), data, home', c, |c|, lows, records - blength / 2, highs, records, empty)
      ensures Chain(data, home', lows, records - blength / 2) && Chain(data, home', highs, records)
    {
      hide Walk, Parted, HalfBit, Mask, Chain, Linked, NextIn, NoDup, CloseData;
      empty := records;
      var halfbuff := blength / 2;
      var firstIndex := records - halfbuff;
      var idx := firstIndex;
      var lowFind, lowUsed, highFind, highUsed := false, false, false, false;
      var gpos: nat, gpos2: nat := 0, 0;
      var rec: R, rec2: R := *, *;
      ghost var d, m, i := data, records, 0;
      ghost var v, lo, hi := d, Side([], false, 0, rec), Side([], false, 0, rec2);
      ChainAt(d, home, c, firstIndex, 0);
      WalkStart(d, home', c, firstIndex, m, rec, rec2);
      while idx != NO_RECORD
        invariant 0 <= i <= |c| && idx == (if i == 0 then firstIndex else NextIn(c, i - 1))
        invariant lo == Side(lo.slots, lowUsed, gpos, rec) && hi == Side(hi.slots, highUsed, gpos2, rec2)
        invariant (lowFind <==> lo.slots != []) && (highFind <==> hi.slots != [])
        invariant i == 0 <==> !lowFind && !highFind
        invariant empty == if !highFind then m else if !lowFind then firstIndex else empty
        invariant |data| == m + 1 && (i == 0 ==> data == d)
        invariant Walk(d, data, v, home', c, i, lo, firstIndex, hi, m, empty)
        decreases |c| - i
      {
        var pos := idx;
        ChainAt(d, home, c, firstIndex, i);
        WalkAt(d, data, v, home', c, i, lo, firstIndex, hi, m, empty);
        var hashNr := Hash(data[pos].rec);
        if !lowFind && !highFind && Mask(hashNr, blength, records) != firstIndex {
          break;
        }
        assert pos == c[i];
        if !HalfBit(hashNr, halfbuff) {
          lowUsed, gpos, rec, empty, v, lo :=
            Join(pos, highFind, lowFind, lowUsed, gpos, rec, empty, d, v, home', c, i, lo, firstIndex, hi, m);
          lowFind, highUsed, hi := true, false, hi.(used := false);
        } else {
          WalkSym(d, data, v, home', c, i, lo, firstIndex, hi, m, empty);
          highUsed, gpos2, rec2, empty, v, hi :=
            Join(pos, true, highFind, highUsed, gpos2, rec2, empty, d, v, home', c, i, hi, m, lo, firstIndex);
          highFind, lowUsed, lo := true, false, lo.(used := false);
          WalkSym(d, data, v, home', c, i + 1, hi, m, lo, firstIndex, empty);
        }
        i := i + 1;
        idx := data[pos].next;
      }
      ChainAt(d, home, c, firstIndex, i);
      WalkEnd(d, data, v, home', c, lo, firstIndex, hi, m, empty);
      lows, highs := lo.slots, hi.slots;
      CloseSide(lowFind, lowUsed, gpos, rec, lo);
      CloseSide(highFind, highUsed, gpos2, rec2, hi);
    }

    /** The last deferred write of a chain ends it. */
    method CloseSide(find: bool, used: bool, g: nat, r: R, ghost side: Side<R>)
      requires side == Side(side.slots, used, g, r) && (find <==> side.slots != []) && (find ==> g < |data|)
      modifies this`data
      ensures data == CloseData(old(data), side) && |data| == old(|data|)
    {
      if find && !used {
        data := data[g := Link(NO_RECORD, r)];
      }
    }

    /** Puts `record` in its home slot; whatever was there moves to the free slot. */
    method Place(record: R, empty: nat, n: nat, ghost home: R -> nat)
      requires n == |data| < NO_RECORD && empty < n && blength > 0
      requires Tiled(data, home, n, chains, empty)
      requires forall r :: home(r) == Mask(Hash(r), blength, n) && home(r) < n
      modifies this`data, this`chains
      ensures |data| == n && Tiled(data, home, n, chains, n)
      ensures Held(data, n) == old(Held(data, empty)) + multiset{record}
    {
      hide Mask, Held, Tiled, Linked;
      var idx := Mask(Hash(record), blength, n);
      ghost var d, cs := data, chains;
      if idx == empty {
        data := data[idx := Link(NO_RECORD, record)];
        FillHole(d, home, n, cs, empty, record);
        chains := cs[idx := [idx]];
      } else {
        data := data[empty := data[idx]];
        var g := Mask(Hash(data[idx].rec), blength, n);
        if idx == g {
          data := data[idx := Link(empty, record)];
          PushFront(d, home, n, cs, empty, idx, record);
          chains := cs[idx := [idx, empty] + cs[idx][1..]];
        } else {
          ghost var k := Position(d, home, n, cs, empty, idx);
          data := data[idx := Link(NO_RECORD, record)];
          MoveLink(idx, g, empty, cs[g][..k]);
          Evict(d, data, home, n, cs, empty, g, k);
          ghost var c: seq<nat> := cs[g][k := empty];
          chains := cs[g := c];
          FillHole(data, home, n, chains, idx, record);
          chains := chains[idx := [idx]];
          assert data == data[idx := Link(NO_RECORD, record)];
        }
      }
    }

    lemma HomesBound(b: nat, n: nat)
      requires Sized(b, n)
      ensures forall r :: Home(b, n + 1)(r) == Mask(Hash(r), b, n + 1) < n + 1
    {
      forall r ensures Mask(Hash(r), b, n + 1) < n + 1 {
        MaskBoundNext(Hash(r), b, n);
      }
    }

    lemma HomesDouble(b: nat, home: R -> nat, home': R -> nat)
      requires b > 0 && home == Home(b, b) && home' == Home(2 * b, b)
      ensures forall r :: home'(r) == home(r)
    {
      forall r ensures home'(r) == home(r) {
        MaskDouble(Hash(r), b);
      }
    }

    /** Counts the new record and doubles `blength`, a 32-bit number, when every slot is in use: at
        2^31 records it wraps to 0. */
    method Grow()
      requires records + 1 == |data| <= 0x8000_0000 && Sized(blength, records)
      requires Tiled(data, Home(blength, records + 1), records + 1, chains, records + 1)
      modifies this`records, this`blength
      ensures records == |data|
      ensures Valid() <==> records < 0x8000_0000
      ensures blength == 0 <==> records == 0x8000_0000
    {
      SizedGrow(blength, records);
      SizedWraps(blength, records);
      hide Tiled, Mask, IsPow2;
      records := records + 1;
      if records == blength {
        HomesDouble(blength, Home(blength, blength), Home(2 * blength, blength));
        SameHomes(data, Home(blength, blength), Home(2 * blength, blength), blength, chains, blength);
        blength := (blength + blength) % 0x1_0000_0000;
      }
    }

    /** Adds `record`. Fails, changing nothing, only when there is no `memory` for its link.
        `blength` is a 32-bit number: at 2^31 records its doubling wraps to 0, and the table is lost. */
    method Insert(record: R, memory: bool) returns (failed: bool)
      requires Valid()
      modifies this
      ensures failed == !memory
      ensures failed ==> unchanged(this)
      ensures !failed ==> Contents() == old(Contents()) + multiset{record} && current == NO_RECORD
      ensures !failed ==> records == old(records) + 1
      ensures Valid() <==> failed || old(records) + 1 < 0x8000_0000
      ensures !failed ==> (blength == 0 <==> records == 0x8000_0000)
    {
      hide Tiled, Held, Parted, Chain, Mask, HalfBit;
      if !memory {
        return true;
      }
      ghost var d, cs, n := data, chains, records;
      ghost var home, home' := Home(blength, n), Home(blength, n + 1);
      var slot: Link<R> := *;
      data := data + [slot];
      var empty := records;
      current := NO_RECORD;
      assert data[..n] == d;
      if records - blength / 2 != records {
        HomesGrow(blength, n);
        ghost var lows, highs;
        ghost var low := n - blength / 2;
        HeadChain(d, home, n, cs, low);
        empty, lows, highs := SplitChain(home, home', cs[low]);
        SplitDone(d + [slot], data, home, home', n, low, cs, lows, highs, empty);
        chains := cs[low := lows] + [highs];
      } else {
        EmptyTiled(d, data, home');
        chains := [[]];
      }
      HomesBound(blength, n);
      Place(record, empty, records + 1, home');
      Grow();
      return false;
    }

    lemma EmptyTiled(d: seq<Link<R>>, d': seq<Link<R>>, home: R -> nat)
      requires |d| == 0 && |d'| == 1
      ensures Tiled(d', home, 1, [[]], 0) && Held(d', 0) == multiset{} == Held(d, 0)
    {
      assert Records(d') == [d'[0].rec];
    }

    lemma HeadChain(d: seq<Link<R>>, home: R -> nat, m: nat, cs: seq<seq<nat>>, h: nat)
      requires Tiled(d, home, m, cs, m) && h < m == |d|
      ensures |cs| == m && Chain(d, home, cs[h], h) && (h in cs[h] || home(d[h].rec) != h)
    {
    }

    /** Looks for `record` itself from its home slot on. `before` is the slot that links to it. */
    method FindRecord(record: R, ghost home: R -> nat)
      returns (found: bool, pos: nat, before: Option<nat>, ghost k: nat)
      requires Valid() && records > 0 && home == Home(blength, records)
      ensures found <==> record in Contents()
      ensures found ==>
                var h := home(record);
                && h < records && |chains| == records && k < |chains[h]| && pos == chains[h][k] < |data|
                && data[pos].rec == record
                && (k > 0 ==> chains[h][k - 1] < |data| && before == Some(chains[h][k - 1]))
                && (k == 0 ==> before == None)
    {
      hide Mask, Tiled;
      pos := Mask(Hash(record), blength, records);
      MaskBound(Hash(record), blength, records);
      before := None;
      ghost var h := pos;
      ghost var i := Position(data, home, records, chains, records, h);
      ghost var c := chains[home(data[h].rec)];
      k := i;
      while data[pos].rec != record
        invariant i <= k < |c| && pos == c[k] < |data|
        invariant forall j {:trigger data[c[j]]} :: i <= j < k ==> data[c[j]].rec != record
        invariant if k == i then before == None else before == Some(c[k - 1])
        decreases |c| - k
      {
        before := Some(pos);
        assert data[c[k]].next == NextIn(c, k);
        if data[pos].next == NO_RECORD {
          Absent(data, home, records, chains, h, i, record);
          return false, pos, before, k;
        }
        pos := data[pos].next;
        k := k + 1;
      }
      assert record in Contents() by { HeldVacate(data, pos); }
      InHeadChain(data, home, records, chains, h, i, k);
      return true, pos, before, k;
    }

    /** A record found along the links that start at slot `h` is in the chain of home `h`. */
    static lemma InHeadChain(d: seq<Link<R>>, home: R -> nat, m: nat, cs: seq<seq<nat>>, h: nat, i: nat, k: nat)
      requires Tiled(d, home, m, cs, m) && |d| == m && h < m && home(d[h].rec) < m
      requires var c := cs[home(d[h].rec)];
               i <= k < |c| && c[i] == h && c[k] < |d| && home(d[c[k]].rec) == h
      ensures home(d[h].rec) == h && i == 0
    {
      var c := cs[home(d[h].rec)];
      assert Chain(d, home, c, home(d[h].rec)) && c[k] in c && c[i] in c;
    }

    static lemma Absent(d: seq<Link<R>>, home: R -> nat, m: nat, cs: seq<seq<nat>>, h: nat, i: nat, record: R)
      requires Tiled(d, home, m, cs, m) && |d| == m && h < m && home(record) == h && home(d[h].rec) < m
      requires var c := cs[home(d[h].rec)];
               && i < |c| && c[i] == h
               && (forall j :: 0 <= j < |c| ==> c[j] < |d|)
               && forall j {:trigger d[c[j]]} :: i <= j < |c| ==> d[c[j]].rec != record
      ensures record !in Held(d, |d|)
    {
      var c := cs[home(d[h].rec)];
      assert Chain(d, home, c, home(d[h].rec)) && Chain(d, home, cs[h], h);
      forall s | 0 <= s < |d|
        ensures d[s].rec != record
      {
        if d[s].rec == record {
          assert s in cs[h];
          assert cs[h][0] in cs[h];
          var j := PlaceIn(cs[h], s);
        }
      }
      assert forall r :: r in Records(d) ==> r != record;
    }

    /** Takes the record at `pos` out of its chain; returns the slot left free. */
    method TakeOut(pos: nat, before: Option<nat>, ghost home: R -> nat, ghost h: nat, ghost k: nat) returns (empty: nat)
      requires |data| < NO_RECORD && Tiled(data, home, |data|, chains, |data|)
      requires h < |data| && |chains| == |data| && k < |chains[h]| && pos == chains[h][k] < |data|
      requires k > 0 ==> chains[h][k - 1] < |data| && before == Some(chains[h][k - 1])
      requires k == 0 ==> before == None
      modifies this`data, this`chains
      ensures |data| == old(|data|) && empty < |data|
      ensures Tiled(data, home, |data|, chains, empty)
      ensures old(Held(data, |data|)) == Held(data, empty) + multiset{old(data[pos].rec)}
    {
      hide Tiled, Held;
      empty := pos;
      ghost var d, cs, c := data, chains, [];
      if before.Some? {
        c := TakeBehind(d, home, |d|, cs, h, k);
        data := data[before.value := Link(data[pos].next, data[before.value].rec)];
      } else {
        c := TakeHead(d, home, |d|, cs, h);
        if data[pos].next != NO_RECORD {
          empty := data[pos].next;
          data := data[pos := data[empty]];
        }
      }
      chains := cs[h := c];
    }

    lemma HomesShrink(b: nat, n: nat, home: R -> nat, home': R -> nat)
      requires Sized(b, n) && n > 1
      requires ShrunkLength(b, n) > 0 ==> home == Home(b, n) && home' == Home(ShrunkLength(b, n), n - 1)
      ensures ShrunkLength(b, n) > 0 && Sized(ShrunkLength(b, n), n - 1)
      ensures Rehomes(home, home', n - 1, n - 1 - ShrunkLength(b, n) / 2)
    {
      SizedShrink(b, n);
      var b' := ShrunkLength(b, n);
      forall r ensures home'(r) == if home(r) == n - 1 then n - 1 - b' / 2 else home(r) {
        MaskShrink(Hash(r), b, n);
      }
      MaskShrink(0, b, n);
    }

    /** Slot `m`, the last, gives its record to the free slot, and the chain of home `m` joins
        the chain of home `low`. */
    method MoveLast(m: nat, empty: nat, oldLength: nat, ghost home: R -> nat, ghost home': R -> nat, ghost low: nat)
      requires |data| == m + 1 < NO_RECORD && empty < m && blength > 0 && oldLength > 0
      requires Tiled(data, home, m + 1, chains, empty) && Rehomes(home, home', m, low)
      requires forall r :: home(r) == Mask(Hash(r), oldLength, m + 1) && home'(r) == Mask(Hash(r), blength, m)
      modifies this`data, this`chains
      ensures |data| == m + 1 && Tiled(data[..m], home', m, chains, m)
      ensures Held(data[..m], m) == old(Held(data, empty))
    {
      hide Tiled, Held, Mask, BodyPath, Seg, Body;
      ghost var d, cs, c := data, chains, [];
      var lastHash := Hash(data[m].rec);
      var pos := Mask(lastHash, blength, m);
      LastHome(d, home, home', m, low, cs, empty);
      if pos == empty {
        data := data[empty := data[m]];
        HoleContent(d, data, home, m + 1, cs, empty);
        HeldIgnoresHole(d, data, empty);
        c := MergeHead(data, home, home', m, low, cs);
        chains := cs[..m][low := c];
        return;
      }
      var posHash := Hash(data[pos].rec);
      var pos3 := Mask(posHash, blength, m);
      if pos != pos3 {
        EvictForLast(m, empty, pos, pos3, home, home');
        return;
      }
      var pos2 := Mask(lastHash, oldLength, m + 1);
      if pos2 == Mask(posHash, oldLength, m + 1) {
        if pos2 != m {
          MoveInChain(m, empty, pos, home, home');
        } else {
          ghost var k := Position(d, home, m + 1, cs, empty, pos);
          c := MergeFamily(d, home, home', m, pos, cs, empty, k);
          SpliceLast(m, empty, pos, pos, home', Body(cs[m], k, empty), c);
        }
      } else {
        c := MergeTwo(d, home, home', m, pos, cs, empty);
        SpliceLast(m, empty, pos, NO_RECORD, home', Body(cs[m], |cs[m]|, empty), c);
      }
    }

    /** The home slot of the last record is taken by a record of another home, `pos3`. */
    method EvictForLast(m: nat, empty: nat, pos: nat, pos3: nat, ghost home: R -> nat, ghost home': R -> nat)
      requires |data| == m + 1 < NO_RECORD && empty < m && pos < m && pos != empty
      requires Tiled(data, home, m + 1, chains, empty) && Rehomes(home, home', m, pos)
      requires home(data[m].rec) == m && home(data[pos].rec) == pos3 != pos && pos3 < m
      modifies this`data, this`chains
      ensures |data| == m + 1 && Tiled(data[..m], home', m, chains, m)
      ensures Held(data[..m], m) == old(Held(data, empty))
    {
      hide Tiled, Held, Linked;
      ghost var d, cs := data, chains;
      ghost var k := Position(d, home, m + 1, cs, empty, pos);
      assert d[cs[pos3][k - 1]] != d[m];
      data := data[empty := data[pos]][pos := data[m]];
      MoveLink(pos, pos3, empty, cs[pos3][..k]);
      Evict(d, data, home, m + 1, cs, empty, pos3, k);
      ghost var evicted: seq<nat> := cs[pos3][k := empty];
      ghost var c := MergeHead(data, home, home', m, pos, cs[pos3 := evicted]);
      chains := cs[pos3 := evicted][..m][pos := c];
    }

    /** The last record moves to the free slot within its chain, of home `pos`. */
    method MoveInChain(m: nat, empty: nat, pos: nat, ghost home: R -> nat, ghost home': R -> nat)
      requires |data| == m + 1 < NO_RECORD && empty < m && pos < m
      requires Tiled(data, home, m + 1, chains, empty)
      requires forall r :: home(r) != m ==> home'(r) == home(r)
      requires home(data[m].rec) == pos
      modifies this`data, this`chains
      ensures |data| == m + 1 && Tiled(data[..m], home', m, chains, m)
      ensures Held(data[..m], m) == old(Held(data, empty))
    {
      hide Tiled, Held, Linked;
      ghost var d, cs := data, chains;
      ghost var k := Position(d, home, m + 1, cs, empty, m);
      ghost var moved: seq<nat> := cs[pos][k := empty];
      data := data[empty := data[m]];
      MoveLink(m, pos, empty, cs[pos][..k]);
      Evict(d, data, home, m + 1, cs, empty, pos, k);
      DropTiled(data, home, home', m, cs[pos := moved]);
      HeldLast(data);
      chains := cs[pos := moved][..m];
    }

    /** The last record's chain goes in behind head `pos`: `idx` is where `body` ends. */
    method SpliceLast(m: nat, empty: nat, pos: nat, idx: nat, ghost home': R -> nat, ghost body: seq<nat>,
                      ghost c: seq<nat>)
      requires |data| == m + 1 == |chains| && empty < m && pos < m && pos != empty
      requires BodyPath(data, m, empty, body, idx) && body[|body| - 1] < m && body[|body| - 1] != pos
      requires Tiled(Spliced(data, m, empty, body[|body| - 1], pos)[..m], home', m, chains[..m][pos := c], m)
      modifies this`data, this`chains
      ensures |data| == m + 1 && Tiled(data[..m], home', m, chains, m)
      ensures Held(data[..m], m) == old(Held(data, empty))
    {
      hide Tiled, Held;
      ghost var d := data;
      data := data[empty := data[m]];
      MoveLink(idx, empty, data[pos].next, body);
      data := data[pos := Link(empty, data[pos].rec)];
      HeldSpliced(d, m, empty, body[|body| - 1], pos);
      chains := chains[..m][pos := c];
    }

    /** Empties the last slot into the free one, the sizes being those after the removal. */
    method CloseGap(empty: nat, oldLength: nat, ghost home: R -> nat)
      requires 0 < |data| == records + 1 < NO_RECORD && empty <= records
      requires Sized(oldLength, records + 1) && blength == ShrunkLength(oldLength, records + 1)
      requires home == Home(oldLength, records + 1)
      requires Tiled(data, home, records + 1, chains, empty)
      modifies this`data, this`chains
      ensures Sized(blength, records) && |data| == records + 1
      ensures Tiled(data[..records], Home(blength, records), records, chains, records)
      ensures Held(data[..records], records) == old(Held(data, empty))
    {
      hide Tiled, Held, Mask, Rehomes, Linked;
      SizedShrink(oldLength, records + 1);
      ghost var home' := Home(blength, records);
      if records > 0 { HomesShrink(oldLength, records + 1, home, home'); }
      if empty == records {
        Unmoved(data, home, home', records);
        DropTiled(data, home, home', records, chains);
        HeldLast(data);
        chains := chains[..records];
      } else {
        MoveLast(records, empty, oldLength, home, home', records - blength / 2);
      }
    }

    static lemma Unmoved(d: seq<Link<R>>, home: R -> nat, home': R -> nat, m: nat)
      requires |d| == m + 1 && (m > 0 ==> exists low :: Rehomes(home, home', m, low))
      ensures forall s :: 0 <= s < m && home(d[s].rec) != m ==> home'(d[s].rec) == home(d[s].rec)
    {
    }

    /** The rest of delete, once the record is found. */
    method RemoveAt(record: R, pos: nat, before: Option<nat>, ghost home: R -> nat, ghost k: nat)
      requires Valid() && records > 0 && home == Home(blength, records)
      requires home(record) < records && |chains| == records && k < |chains[home(record)]|
      requires pos == chains[home(record)][k] < |data| && data[pos].rec == record
      requires k > 0 ==> chains[home(record)][k - 1] < |data| && before == Some(chains[home(record)][k - 1])
      requires k == 0 ==> before == None
      modifies this
      ensures Valid() && current == NO_RECORD && records == old(records) - 1
      ensures old(Contents()) == Contents() + multiset{record}
    {
      hide Tiled, Held, Mask, IsPow2;
      var oldLength := blength;
      SizedShrink(blength, records);
      records := records - 1;
      if records < blength / 2 { blength := blength / 2; }
      current := NO_RECORD;
      var empty := TakeOut(pos, before, home, home(record), k);
      CloseGap(empty, oldLength, home);
      data := data[..records];
    }

    /** Removes `record` itself, once. Reports it absent, changing nothing, when it is not held. */
    method Delete(record: R) returns (absent: bool)
      requires Valid()
      modifies this
      ensures Valid()
      ensures absent <==> record !in old(Contents())
      ensures absent ==> unchanged(this)
      ensures !absent ==> Contents() == old(Contents()) - multiset{record} && current == NO_RECORD
      ensures !absent ==> records == old(records) - 1
    {
      assert blength > 0 && Sized(blength, records);
      hide Tiled, Held, Mask, Rehomes, Sized;
      if records == 0 {
        assert Contents() == multiset{} by { EmptyTiled(data, [Link(0, record)], r => 0); }
        return true;
      }
      ghost var home := Home(blength, records);
      var found, pos, before, k := FindRecord(record, home);
      if !found {
        return true;
      }
      RemoveAt(record, pos, before, home, k);
      return false;
    }

    /** The chain a key belongs to. */
    ghost function Family(key: K): (c: seq<nat>)
      requires Valid()
      reads this`data, this`records, this`blength, this`chains
      ensures NoDup(c) && forall k :: 0 <= k < |c| ==> c[k] < |data|
    {
      if records == 0 then []
      else
        MaskBound(calcHash(key), blength, records);
        var h := Mask(calcHash(key), blength, records);
        assert Chain(data, Home(blength, records), chains[h], h);
        chains[h]
    }

    /** The slots that hold `key`, in the order lookups give them. */
    ghost function Matches(key: K): seq<nat>
      requires Valid()
      reads this`data, this`records, this`blength, this`chains
    {
      Matching(data, getKey, key, Family(key))
    }

    /** Those still to come after the current record. */
    ghost function Rest(key: K): seq<nat>
      requires Valid()
      reads this
    {
      if current !in Family(key) then []
      else RestOf(key, Family(key), PlaceIn(Family(key), current))
    }

    ghost function RestOf(key: K, c: seq<nat>, k: nat): seq<nat>
      requires k < |c| && forall k :: 0 <= k < |c| ==> c[k] < |data|
      reads this`data
    {
      Matching(data, getKey, key, c[k + 1..])
    }

    lemma RestAt(key: K, k: nat)
      requires Valid() && k < |Family(key)| && current == Family(key)[k]
      ensures Rest(key) == RestOf(key, Family(key), k)
    {
      hide Tiled, Mask, Matching;
    }

    lemma FamilyComplete(key: K)
      requires Valid()
      ensures forall s :: 0 <= s < |data| && getKey(data[s].rec) == key ==> s in Family(key)
      ensures records > 0 ==> Mask(calcHash(key), blength, records) < records
      ensures records > 0 ==>
                var h := Mask(calcHash(key), blength, records);
                var c := Family(key);
                && (c == [] ==> Mask(Hash(data[h].rec), blength, records) != h)
                && (c != [] ==> c[0] == h && Mask(Hash(data[h].rec), blength, records) == h)
                && (forall k {:trigger data[c[k]]} :: 0 <= k < |c| ==> data[c[k]].next == NextIn(c, k))
    {
      if records > 0 {
        MaskBound(calcHash(key), blength, records);
        var h := Mask(calcHash(key), blength, records);
        assert Chain(data, Home(blength, records), chains[h], h);
        if chains[h] != [] { assert chains[h][0] in chains[h]; }
      }
    }

    lemma FamilyHome(key: K)
      requires Valid() && records > 0
      ensures blength > 0 && Matches(key) == Matching(data, getKey, key, Family(key))
      ensures FamilyOf(data, getKey, Home(blength, records), key, Family(key), Mask(calcHash(key), blength, records))
      ensures forall r :: Home(blength, records)(r) == Mask(Hash(r), blength, records)
    {
      hide Tiled, Mask, Family;
      FamilyComplete(key);
    }

    /** A match found at place `i` of the chain is the first one. */
    lemma FirstMatch(key: K, i: nat)
      requires Valid() && i < |Family(key)| && current == Family(key)[i]
      requires Matches(key) == [current] + Matching(data, getKey, key, Family(key)[i + 1..])
      ensures current in Family(key) && Rest(key) == Matches(key)[1..]
    {
      hide Tiled, Mask, Sized, Family, Matching;
      RestAt(key, i);
    }

    /** Finds the first record with `key`, and makes it the current one. */
    method Search(key: K) returns (r: Option<R>)
      requires Valid()
      modifies this`current
      ensures Matches(key) == [] ==> r == None && current == NO_RECORD
      ensures Matches(key) != [] ==>
                && Matches(key)[0] < |data| && r == Some(data[Matches(key)[0]].rec)
                && current == Matches(key)[0] && current in Family(key) && Rest(key) == Matches(key)[1..]
    {
      hide *;
      ghost var c := Family(key);
      if records == 0 {
        NoFamily(key);
      } else {
        FamilyHome(key);
        var flag, idx := true, Mask(calcHash(key), blength, records);
        ghost var h, i, home := idx, 0, Home(blength, records);
        SearchStart(data, getKey, home, key, c, h);
        while true
          invariant Searching(data, getKey, key, c, h, flag, idx, i) && idx != NO_RECORD && i <= |c|
          decreases |c| - i
        {
          SearchStep(data, getKey, home, key, c, h, flag, idx, i);
          if getKey(data[idx].rec) == key {
            current := idx;
            FirstMatch(key, i);
            return Some(data[idx].rec);
          }
          if flag {
            flag := false;
            if Mask(Hash(data[idx].rec), blength, records) != idx {
              break;
            }
          }
          idx := data[idx].next;
          i := i + 1;
          if idx == NO_RECORD {
            SearchEnd(data, getKey, home, key, c, h, i);
            break;
          }
        }
      }
      current := NO_RECORD;
      return None;
    }

    lemma NoFamily(key: K)
      requires Valid() && records == 0
      ensures Matches(key) == []
    {
    }

    /** The next record with the key of the last search. */
    method Next(key: K) returns (r: Option<R>)
      requires Valid()
      requires current == NO_RECORD || current in Family(key)
      modifies this`current
      ensures old(Rest(key)) == [] ==> r == None && current == NO_RECORD
      ensures old(Rest(key)) != [] ==>
                var slot := old(Rest(key))[0];
                && slot < |data| && r == Some(data[slot].rec)
                && current == slot && current in Family(key) && Rest(key) == old(Rest(key))[1..]
    {
      hide Tiled, Mask, Sized, Matching, Chain, Linked, NoDup;
      FamilyComplete(key);
      ghost var c := Family(key);
      if current != NO_RECORD {
        ghost var i := PlaceIn(c, current);
        RestAt(key, i);
        ghost var rest := Rest(key);
        var idx := data[current].next;
        while idx != NO_RECORD
          invariant i < |c| && idx == NextIn(c, i)
          invariant rest == Matching(data, getKey, key, c[i + 1..])
          decreases |c| - i
        {
          i := i + 1;
          MatchingStep(data, getKey, key, c, i);
          if getKey(data[idx].rec) == key {
            current := idx;
            RestAt(key, i);
            return Some(data[idx].rec);
          }
          idx := data[idx].next;
        }
        MatchingStep(data, getKey, key, c, i + 1);
        current := NO_RECORD;
      }
      return None;
    }

    /** A search followed by next until nothing comes gives every record with the key, each
        exactly as often as the table holds it. */
    method CollectAll(key: K) returns (out: seq<R>)
      requires Valid()
      modifies this`current
      ensures forall r :: multiset(out)[r] == if getKey(r) == key then Contents()[r] else 0
    {
      hide Tiled, Mask, Sized, Held, Matching, Rest, Matches, Family;
      out := [];
      MatchesComplete(key);
      ghost var all, i := Matches(key), 0;
      var r := Search(key);
      while r.Some?
        invariant Valid() && 0 <= i <= |all|
        invariant r.Some? <==> i < |all|
        invariant r.Some? ==> r == Some(data[all[i]].rec) && current in Family(key) && Rest(key) == all[i + 1..]
        invariant out == RecordsAt(data, all[..i])
        decreases |all| - i
      {
        assert all[..i + 1] == all[..i] + [all[i]];
        out := out + [r.value];
        r := Next(key);
        i := i + 1;
      }
      assert all[..i] == all;
    }

    lemma MatchesComplete(key: K)
      requires Valid()
      ensures forall k :: 0 <= k < |Matches(key)| ==> Matches(key)[k] < |data|
      ensures forall r :: multiset(RecordsAt(data, Matches(key)))[r] == if getKey(r) == key then Contents()[r] else 0
    {
      FamilyComplete(key);
      MatchingMembers(data, getKey, key, Family(key));
      assert forall k :: 0 <= k < |Matches(key)| ==> Matches(key)[k] in Matches(key);
      forall r ensures multiset(RecordsAt(data, Matches(key)))[r] == if getKey(r) == key then Contents()[r] else 0 {
        MatchingComplete(data, getKey, key, Family(key), r);
      }
    }

    /** A search succeeds exactly when a record with the key is held. */
    lemma SearchSucceedsIff(key: K)
      requires Valid()
      ensures Matches(key) != [] <==> exists r :: r in Contents() && getKey(r) == key
    {
      MatchesComplete(key);
      var ms := Matches(key);
      if ms != [] {
        FamilyComplete(key);
        MatchingMembers(data, getKey, key, Family(key));
        assert ms[0] in ms && ms[0] < |data|;
        HeldVacate(data, ms[0]);
        assert data[ms[0]].rec in Contents();
      } else {
        assert RecordsAt(data, ms) == [];
      }
    }
  }

  /** ma_hashtbl_init: fails when there is no `memory` for the array. */
  method NewTable<R(==,0,!new), K(==,!new)>(getKey: R -> K, calcHash: K -> nat, memory: bool)
    returns (failed: bool, t: Table?<R, K>)
    ensures failed == !memory && (failed <==> t == null)
    ensures !failed ==> fresh(t) && t.Valid() && t.Contents() == multiset{} && t.records == 0 && t.current == NO_RECORD
    ensures !failed ==> t.getKey == getKey && t.calcHash == calcHash
  {
    failed, t := !memory, null;
    if memory {
      t := new Table(getKey, calcHash);
    }
  }

  /** One call of a program that uses the table; an insertion may find no memory. */
  datatype Op<R> = Add(rec: R, memory: bool) | Remove(rec: R)

  ghost function EffectOf<R>(op: Op<R>, held: multiset<R>): multiset<R> {
    match op
    case Add(r, memory) => if memory then held + multiset{r} else held
    case Remove(r) => held - multiset{r}
  }

  /** What the calls do to a multiset. */
  ghost function Effect<R>(ops: seq<Op<R>>, held: multiset<R>): multiset<R> {
    if ops == [] then held
    else EffectOf(ops[|ops| - 1], Effect(ops[..|ops| - 1], held))
  }

  /** A run during which fewer than 2^31 records are held at any time. */
  ghost predicate Bounded<R(!new)>(ops: seq<Op<R>>) {
    forall i :: 0 <= i <= |ops| ==> |Effect(ops[..i], multiset{})| < 0x8000_0000
  }

  method Call<R(==,0,!new), K(==,!new)>(t: Table<R, K>, op: Op<R>) returns (failed: bool)
    requires t.Valid() && |EffectOf(op, t.Contents())| < 0x8000_0000
    modifies t
    ensures t.Valid() && t.Contents() == EffectOf(op, old(t.Contents()))
    ensures failed <==> match op case Add(_, memory) => !memory case Remove(r) => r !in old(t.Contents())
  {
    assert t.records == |t.Contents()| by { HeldCount(t.data); }
    hide Tiled, Mask, Sized, Held;
    match op {
      case Add(r, memory) => failed := t.Insert(r, memory);
      case Remove(r) => failed := t.Delete(r);
    }
  }

  /** Every run from a new table, however long, during which fewer than 2^31 records are held: the
      table stays well formed and is the multiset, and counts it. */
  method Run<R(==,0,!new), K(==,!new)>(getKey: R -> K, calcHash: K -> nat, ops: seq<Op<R>>) returns (t: Table<R, K>)
    requires Bounded(ops)
    ensures t.Valid() && t.Contents() == Effect(ops, multiset{}) && t.records == |t.Contents()|
  {
    hide Tiled, Mask, Sized, Held, EffectOf;
    t := new Table(getKey, calcHash);
    var i := 0;
    while i < |ops|
      invariant 0 <= i <= |ops|
      invariant t.Valid() && t.Contents() == Effect(ops[..i], multiset{})
      modifies t
    {
      assert ops[..i + 1][..i] == ops[..i];
      assert |Effect(ops[..i + 1], multiset{})| < 0x8000_0000;
      var failed := Call(t, ops[i]);
      i := i + 1;
    }
    assert ops[..i] == ops;
    HeldCount(t.data);
  }
}
