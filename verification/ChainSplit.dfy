/** The pass of insert that splits one chain in two while the array has one free slot:
    each record stays in its slot, except that the first record of the chain that does not
    own its head slot is moved there. */
module ChainSplit {
  import opened Chains

  /** A chain under construction: its last link is not set yet. */
  ghost predicate Partial<R>(v: seq<Link<R>>, home: R -> nat, c: seq<nat>, h: nat) {
    && NoDup(c)
    && (c != [] ==> c[0] == h)
    && (forall k :: 0 <= k < |c| ==> c[k] < |v|)
    && (forall s :: s in c ==> s < |v| && home(v[s].rec) == h)
    && (forall k {:trigger v[c[k]]} :: 0 <= k < |c| - 1 ==> v[c[k]].next == c[k + 1])
  }

  /** After `i` records of chain `c` of `d`, they sit in `mine`, `other`; slot `hole` is free. */
  ghost predicate Parted<R>(d: seq<Link<R>>, v: seq<Link<R>>, home: R -> nat, c: seq<nat>, i: nat,
                            mine: seq<nat>, a: nat, other: seq<nat>, b: nat, hole: nat)
  {
    && |d| == |v| > 0 && i <= |c|
    && Partial(v, home, mine, a) && Partial(v, home, other, b) && a != b
    && hole < |v| && hole !in mine && hole !in other
    && (forall s :: 0 <= s < |v| ==>
          (s in mine || s in other || s == hole <==> s in c[..i] || s == |d| - 1))
    && (forall s :: 0 <= s < |v| && s !in c[..i] && s != |d| - 1 ==> v[s] == d[s])
    && Held(v, hole) == Held(d, |d| - 1)
  }

  lemma PartedSym<R>(d: seq<Link<R>>, v: seq<Link<R>>, home: R -> nat, c: seq<nat>, i: nat,
                     mine: seq<nat>, a: nat, other: seq<nat>, b: nat, hole: nat)
    requires Parted(d, v, home, c, i, mine, a, other, b, hole)
    ensures Parted(d, v, home, c, i, other, b, mine, a, hole)
  {
  }

  /** Linking the last record of the chain to `p` and appending `p`. */
  lemma PartialAppend<R>(v: seq<Link<R>>, v': seq<Link<R>>, home: R -> nat, c: seq<nat>, h: nat, p: nat)
    requires Partial(v, home, c, h) && p < |v| && p !in c && home(v[p].rec) == h
    requires c == [] ==> p == h
    requires c != [] ==> c[|c| - 1] < |v|
    requires v' == if c == [] then v else v[c[|c| - 1] := Link(p, v[c[|c| - 1]].rec)]
    ensures Partial(v', home, c + [p], h)
  {
    var c' := c + [p];
    forall k {:trigger v'[c'[k]]} | 0 <= k < |c'| - 1
      ensures v'[c'[k]].next == c'[k + 1]
    {
      if k < |c| - 1 {
        assert c[k] in c && c[k] != c[|c| - 1];
        assert v[c[k]].next == c[k + 1];
      }
    }
  }

  lemma PartialFrame<R>(v: seq<Link<R>>, v': seq<Link<R>>, home: R -> nat, c: seq<nat>, h: nat, p: nat)
    requires Partial(v, home, c, h) && |v'| == |v| && p !in c
    requires forall s :: 0 <= s < |v| && s != p ==> v'[s] == v[s]
    ensures Partial(v', home, c, h)
  {
    forall k {:trigger v'[c[k]]} | 0 <= k < |c| - 1
      ensures v'[c[k]].next == c[k + 1]
    {
      assert c[k] in c;
      assert v[c[k]].next == c[k + 1];
    }
  }

  lemma NextFree<R>(d: seq<Link<R>>, v: seq<Link<R>>, home: R -> nat, c: seq<nat>, i: nat,
                mine: seq<nat>, a: nat, other: seq<nat>, b: nat, hole: nat)
    requires Parted(d, v, home, c, i, mine, a, other, b, hole)
    requires i < |c| && NoDup(c) && c[i] < |d| - 1
    ensures c[i] !in c[..i] && c[i] !in mine && c[i] !in other && c[i] != hole && v[c[i]] == d[c[i]]
    ensures forall s :: s in c[..i + 1] <==> s in c[..i] || s == c[i]
  {
    assert c[..i + 1] == c[..i] + [c[i]];
  }

  /** Record `i` stays in its slot and joins `mine`. */
  lemma Stay<R>(d: seq<Link<R>>, v: seq<Link<R>>, v': seq<Link<R>>, home: R -> nat, c: seq<nat>, i: nat,
                mine: seq<nat>, a: nat, other: seq<nat>, b: nat, hole: nat)
    requires Parted(d, v, home, c, i, mine, a, other, b, hole)
    requires i < |c| && NoDup(c) && c[i] < |d| - 1 && home(d[c[i]].rec) == a
    requires mine == [] ==> c[i] == a
    requires mine != [] ==> mine[|mine| - 1] < |v|
    requires v' == if mine == [] then v
                   else v[mine[|mine| - 1] := Link(c[i], v[mine[|mine| - 1]].rec)]
    ensures Parted(d, v', home, c, i + 1, mine + [c[i]], a, other, b, hole)
  {
    NextFree(d, v, home, c, i, mine, a, other, b, hole);
    PartialAppend(v, v', home, mine, a, c[i]);
    if mine != [] {
      var last := mine[|mine| - 1];
      assert last in mine && last !in other;
      PartialFrame(v, v', home, other, b, last);
      HeldRelink(v, hole, last, c[i]);
    }
    assert c[i] in mine + [c[i]];
  }

  /** Record `i`, the first of `mine`, moves to the free slot `a`. */
  lemma Move<R>(d: seq<Link<R>>, v: seq<Link<R>>, home: R -> nat, c: seq<nat>, i: nat,
                a: nat, other: seq<nat>, b: nat)
    requires Parted(d, v, home, c, i, [], a, other, b, a)
    requires i < |c| && NoDup(c) && c[i] < |d| - 1 && home(d[c[i]].rec) == a
    ensures Parted(d, v[a := d[c[i]]], home, c, i + 1, [a], a, other, b, c[i])
  {
    NextFree(d, v, home, c, i, [], a, other, b, a);
    PartialFrame(v, v[a := d[c[i]]], home, other, b, a);
    HeldMove(v, a, c[i], d[c[i]]);
  }

  /** With its last link set to NO_RECORD, a chain under construction is a chain. */
  lemma Close<R>(v: seq<Link<R>>, home: R -> nat, c: seq<nat>, h: nat)
    requires Partial(v, home, c, h)
    requires c != [] ==> c[|c| - 1] < |v| && v[c[|c| - 1]].next == NO_RECORD
    ensures Chain(v, home, c, h)
  {
    forall k {:trigger v[c[k]]} | 0 <= k < |c|
      ensures v[c[k]].next == NextIn(c, k)
    {
      assert c[k] in c;
      if k < |c| - 1 { assert v[c[k]].next == c[k + 1]; }
    }
  }

  /** One of the two chains while the pass runs. The record and link of its last slot are
      still to be written there, unless it is `used` as it stands. */
  datatype Side<R> = Side(slots: seq<nat>, used: bool, last: nat, rec: R)

  ghost predicate SideOk<R>(d: seq<Link<R>>, v: seq<Link<R>>, c: seq<nat>, i: nat, s: Side<R>) {
    && (s.slots != [] ==> s.last == s.slots[|s.slots| - 1] && s.last < |v| && v[s.last].rec == s.rec)
    && (s.used ==> s.slots != [] && 0 < i <= |c| && s.last == c[i - 1] && s.last < |d| && v[s.last] == d[s.last])
  }

  ghost predicate Settled<R>(s: Side<R>, p: nat) {
    s.slots == [] || s.used || p != s.last
  }

  /** The array `data` in the middle of the pass: it is `v` but for the deferred writes. */
  ghost predicate Walk<R>(d: seq<Link<R>>, data: seq<Link<R>>, v: seq<Link<R>>, home: R -> nat, c: seq<nat>, i: nat,
                          mine: Side<R>, a: nat, other: Side<R>, b: nat, hole: nat)
  {
    && Parted(d, v, home, c, i, mine.slots, a, other.slots, b, hole)
    && |data| == |v| && !(mine.used && other.used)
    && SideOk(d, v, c, i, mine) && SideOk(d, v, c, i, other)
    && Agree(data, v, mine, other, hole)
  }

  ghost predicate Agree<R>(data: seq<Link<R>>, v: seq<Link<R>>, mine: Side<R>, other: Side<R>, hole: nat)
    requires |data| == |v|
  {
    forall p :: 0 <= p < |v| && p != hole && Settled(mine, p) && Settled(other, p) ==> data[p] == v[p]
  }

  lemma ChainAt<R>(d: seq<Link<R>>, home: R -> nat, c: seq<nat>, a: nat, i: nat)
    requires |d| > 0 && Chain(d[..|d| - 1], home, c, a) && i <= |c|
    ensures Linked(d, c) && (c != [] ==> c[0] == a)
    ensures i < |c| ==> c[i] < |d| - 1 && home(d[c[i]].rec) == a && d[c[i]].next == NextIn(c, i)
    ensures i > 0 ==> NextIn(c, i - 1) == if i < |c| then c[i] else NO_RECORD
  {
    assert i < |c| ==> c[i] in c;
  }

  lemma WalkStart<R>(d: seq<Link<R>>, home: R -> nat, c: seq<nat>, a: nat, b: nat, r: R, r2: R)
    requires |d| > 0 && a != b
    ensures Walk(d, d, d, home, c, 0, Side([], false, 0, r), a, Side([], false, 0, r2), b, |d| - 1)
  {
  }

  lemma WalkSym<R>(d: seq<Link<R>>, data: seq<Link<R>>, v: seq<Link<R>>, home: R -> nat, c: seq<nat>, i: nat,
                   mine: Side<R>, a: nat, other: Side<R>, b: nat, hole: nat)
    requires Walk(d, data, v, home, c, i, mine, a, other, b, hole)
    ensures Walk(d, data, v, home, c, i, other, b, mine, a, hole)
  {
    PartedSym(d, v, home, c, i, mine.slots, a, other.slots, b, hole);
  }

  lemma WalkAt<R>(d: seq<Link<R>>, data: seq<Link<R>>, v: seq<Link<R>>, home: R -> nat, c: seq<nat>, i: nat,
                  mine: Side<R>, a: nat, other: Side<R>, b: nat, hole: nat)
    requires Walk(d, data, v, home, c, i, mine, a, other, b, hole)
    requires i < |c| ==> NoDup(c) && c[i] < |d| - 1
    ensures |data| == |d| && (i < |c| ==> data[c[i]] == d[c[i]])
  {
    if i < |c| {
      NextFree(d, v, home, c, i, mine.slots, a, other.slots, b, hole);
      assert Settled(mine, c[i]) && Settled(other, c[i]);
    }
  }

  ghost function StayData<R>(data: seq<Link<R>>, mine: Side<R>, p: nat): seq<Link<R>> {
    if mine.slots == [] || mine.used || mine.last >= |data| then data else data[mine.last := Link(p, mine.rec)]
  }

  ghost function StayView<R>(v: seq<Link<R>>, mine: Side<R>, p: nat): seq<Link<R>> {
    if mine.slots == [] || mine.last >= |v| then v else v[mine.last := Link(p, v[mine.last].rec)]
  }

  lemma WalkStay<R>(d: seq<Link<R>>, data: seq<Link<R>>, v: seq<Link<R>>, home: R -> nat, c: seq<nat>, i: nat,
                    mine: Side<R>, a: nat, other: Side<R>, b: nat, hole: nat)
    requires Walk(d, data, v, home, c, i, mine, a, other, b, hole)
    requires i < |c| && Linked(d, c) && c[i] < |d| - 1 && home(d[c[i]].rec) == a
    requires mine.slots == [] ==> c[i] == a
    ensures Walk(d, StayData(data, mine, c[i]), StayView(v, mine, c[i]), home, c, i + 1,
                 Side(mine.slots + [c[i]], true, c[i], d[c[i]].rec), a, other.(used := false), b, hole)
  {
    var p := c[i];
    var v' := StayView(v, mine, p);
    assert Parted(d, v', home, c, i + 1, mine.slots + [p], a, other.slots, b, hole) by {
      Stay(d, v, v', home, c, i, mine.slots, a, other.slots, b, hole);
    }
    StaySides(d, data, v, home, c, i, mine, a, other, b, hole);
    StayAgrees(d, data, v, home, c, i, mine, a, other, b, hole);
  }

  lemma StaySides<R>(d: seq<Link<R>>, data: seq<Link<R>>, v: seq<Link<R>>, home: R -> nat, c: seq<nat>, i: nat,
                     mine: Side<R>, a: nat, other: Side<R>, b: nat, hole: nat)
    requires Walk(d, data, v, home, c, i, mine, a, other, b, hole)
    requires i < |c| && NoDup(c) && c[i] < |d| - 1
    ensures SideOk(d, StayView(v, mine, c[i]), c, i + 1, Side(mine.slots + [c[i]], true, c[i], d[c[i]].rec))
    ensures SideOk(d, StayView(v, mine, c[i]), c, i + 1, other.(used := false))
  {
    NextFree(d, v, home, c, i, mine.slots, a, other.slots, b, hole);
    assert mine.slots != [] ==> mine.last in mine.slots;
  }

  lemma StayAgrees<R>(d: seq<Link<R>>, data: seq<Link<R>>, v: seq<Link<R>>, home: R -> nat, c: seq<nat>, i: nat,
                      mine: Side<R>, a: nat, other: Side<R>, b: nat, hole: nat)
    requires Walk(d, data, v, home, c, i, mine, a, other, b, hole)
    requires i < |c| && Linked(d, c)
    ensures Agree(StayData(data, mine, c[i]), StayView(v, mine, c[i]),
                  Side(mine.slots + [c[i]], true, c[i], d[c[i]].rec), other.(used := false), hole)
  {
    var data', v' := StayData(data, mine, c[i]), StayView(v, mine, c[i]);
    if mine.used {
      assert d[c[i - 1]].next == NextIn(c, i - 1);
      assert v' == v;
    }
    assert mine.slots != [] ==> mine.last in mine.slots;
    forall q | 0 <= q < |v| && q != hole && Settled(other.(used := false), q)
      ensures data'[q] == v'[q]
    {
      assert Settled(other, q);
      assert mine.slots == [] || q != mine.last ==> Settled(mine, q);
    }
  }

  lemma WalkMove<R>(d: seq<Link<R>>, data: seq<Link<R>>, v: seq<Link<R>>, home: R -> nat, c: seq<nat>, i: nat,
                    mine: Side<R>, a: nat, other: Side<R>, b: nat)
    requires Walk(d, data, v, home, c, i, mine, a, other, b, a)
    requires i < |c| && Linked(d, c) && c[i] < |d| - 1 && home(d[c[i]].rec) == a && mine.slots == []
    ensures Walk(d, data, v[a := d[c[i]]], home, c, i + 1,
                 Side([a], false, a, d[c[i]].rec), a, other.(used := false), b, c[i])
  {
    NextFree(d, v, home, c, i, mine.slots, a, other.slots, b, a);
    var v' := v[a := d[c[i]]];
    Move(d, v, home, c, i, a, other.slots, b);
    forall q | 0 <= q < |v| && q != c[i] && q != a && Settled(other.(used := false), q)
      ensures data[q] == v'[q]
    {
      assert Settled(other, q) && Settled(mine, q);
    }
    assert other.slots != [] ==> other.last in other.slots;
  }

  ghost function CloseData<R>(data: seq<Link<R>>, mine: Side<R>): (e: seq<Link<R>>)
    ensures |e| == |data|
  {
    if mine.slots == [] || mine.used || mine.last >= |data| then data else data[mine.last := Link(NO_RECORD, mine.rec)]
  }

  ghost function CloseLink<R>(v: seq<Link<R>>, c: seq<nat>): (e: seq<Link<R>>)
    requires c != [] ==> c[|c| - 1] < |v|
    ensures |e| == |v|
  {
    if c == [] then v else v[c[|c| - 1] := Link(NO_RECORD, v[c[|c| - 1]].rec)]
  }

  lemma PartedClose<R>(d: seq<Link<R>>, v: seq<Link<R>>, home: R -> nat, c: seq<nat>, i: nat,
                       mine: seq<nat>, a: nat, other: seq<nat>, b: nat, hole: nat)
    requires Parted(d, v, home, c, i, mine, a, other, b, hole)
    ensures mine != [] ==> mine[|mine| - 1] < |v| && mine[|mine| - 1] !in other
    ensures Parted(d, CloseLink(v, mine), home, c, i, mine, a, other, b, hole)
    ensures Chain(CloseLink(v, mine), home, mine, a)
  {
    assert mine != [] ==> mine[|mine| - 1] in mine;
    var v' := CloseLink(v, mine);
    if mine != [] {
      var last := mine[|mine| - 1];
      PartialFrame(v, v', home, other, b, last);
      HeldRelink(v, hole, last, NO_RECORD);
      forall k {:trigger v'[mine[k]]} | 0 <= k < |mine| - 1
        ensures v'[mine[k]].next == mine[k + 1]
      {
        assert mine[k] in mine && v[mine[k]].next == mine[k + 1];
      }
    }
    Close(v', home, mine, a);
  }

  /** What the hole holds does not matter. */
  lemma HoleIgnored<R>(d: seq<Link<R>>, v: seq<Link<R>>, e: seq<Link<R>>, home: R -> nat, c: seq<nat>, i: nat,
                       mine: seq<nat>, a: nat, other: seq<nat>, b: nat, hole: nat)
    requires Parted(d, v, home, c, i, mine, a, other, b, hole) && |e| == |v|
    requires forall s :: 0 <= s < |v| && s != hole ==> e[s] == v[s]
    ensures Parted(d, e, home, c, i, mine, a, other, b, hole)
  {
    PartialFrame(v, e, home, mine, a, hole);
    PartialFrame(v, e, home, other, b, hole);
    HeldIgnoresHole(v, e, hole);
  }

  /** Once the whole chain is read, writing the two last links completes both chains. */
  lemma WalkEnd<R>(d: seq<Link<R>>, data: seq<Link<R>>, v: seq<Link<R>>, home: R -> nat, c: seq<nat>,
                   mine: Side<R>, a: nat, other: Side<R>, b: nat, hole: nat)
    requires Walk(d, data, v, home, c, |c|, mine, a, other, b, hole) && Linked(d, c)
    ensures hole < |d| && (mine.slots != [] ==> mine.last < |data|) && (other.slots != [] ==> other.last < |data|)
    ensures var e := CloseData(CloseData(data, mine), other);
            && Parted(d, e, home, c, |c|, mine.slots, a, other.slots, b, hole)
            && Chain(e, home, mine.slots, a) && Chain(e, home, other.slots, b)
  {
    hide *;
    WalkParts(d, data, v, home, c, mine, a, other, b, hole);
    PartedClose(d, v, home, c, |c|, mine.slots, a, other.slots, b, hole);
    var v1 := CloseLink(v, mine.slots);
    PartedSym(d, v1, home, c, |c|, mine.slots, a, other.slots, b, hole);
    PartedClose(d, v1, home, c, |c|, other.slots, b, mine.slots, a, hole);
    var v2, e := CloseLink(v1, other.slots), CloseData(CloseData(data, mine), other);
    CloseAgrees(d, data, v, home, c, mine, a, other, b, hole);
    HoleIgnored(d, v2, e, home, c, |c|, other.slots, b, mine.slots, a, hole);
    PartedSym(d, e, home, c, |c|, other.slots, b, mine.slots, a, hole);
    PartedParts(d, e, home, c, |c|, mine.slots, a, other.slots, b, hole);
    LastLinks(e, v2, v1, v, home, mine.slots, a, other.slots, hole);
    Close(e, home, mine.slots, a);
    Close(e, home, other.slots, b);
  }

  lemma WalkParts<R>(d: seq<Link<R>>, data: seq<Link<R>>, v: seq<Link<R>>, home: R -> nat, c: seq<nat>,
                     mine: Side<R>, a: nat, other: Side<R>, b: nat, hole: nat)
    requires Walk(d, data, v, home, c, |c|, mine, a, other, b, hole)
    ensures Parted(d, v, home, c, |c|, mine.slots, a, other.slots, b, hole) && |data| == |v|
    ensures mine.slots != [] ==> mine.last == mine.slots[|mine.slots| - 1] < |v|
    ensures other.slots != [] ==> other.last == other.slots[|other.slots| - 1] < |v|
  {
    hide Parted;
  }

  lemma PartedParts<R>(d: seq<Link<R>>, v: seq<Link<R>>, home: R -> nat, c: seq<nat>, i: nat,
                       mine: seq<nat>, a: nat, other: seq<nat>, b: nat, hole: nat)
    requires Parted(d, v, home, c, i, mine, a, other, b, hole)
    ensures Partial(v, home, mine, a) && Partial(v, home, other, b) && hole !in mine && hole !in other
    ensures hole < |v| == |d|
  {
  }

  lemma LastLinks<R>(e: seq<Link<R>>, v2: seq<Link<R>>, v1: seq<Link<R>>, v: seq<Link<R>>, home: R -> nat,
                     mine: seq<nat>, a: nat, other: seq<nat>, hole: nat)
    requires |e| == |v| && hole !in mine && hole !in other
    requires mine != [] ==> mine[|mine| - 1] < |v| && mine[|mine| - 1] !in other
    requires other != [] ==> other[|other| - 1] < |v|
    requires v1 == CloseLink(v, mine) && v2 == CloseLink(v1, other)
    requires forall s :: 0 <= s < |v| && s != hole ==> e[s] == v2[s]
    ensures mine != [] ==> e[mine[|mine| - 1]].next == NO_RECORD
    ensures other != [] ==> e[other[|other| - 1]].next == NO_RECORD
  {
    assert mine != [] ==> mine[|mine| - 1] in mine;
    assert other != [] ==> other[|other| - 1] in other;
  }

  lemma CloseAgrees<R>(d: seq<Link<R>>, data: seq<Link<R>>, v: seq<Link<R>>, home: R -> nat, c: seq<nat>,
                       mine: Side<R>, a: nat, other: Side<R>, b: nat, hole: nat)
    requires Walk(d, data, v, home, c, |c|, mine, a, other, b, hole) && Linked(d, c)
    requires mine.slots != [] ==> mine.slots[|mine.slots| - 1] < |v| && mine.slots[|mine.slots| - 1] !in other.slots
    requires other.slots != [] ==> other.slots[|other.slots| - 1] < |v|
    ensures forall q :: 0 <= q < |v| && q != hole ==>
              CloseData(CloseData(data, mine), other)[q] == CloseLink(CloseLink(v, mine.slots), other.slots)[q]
  {
    if mine.used || other.used {
      assert d[c[|c| - 1]].next == NextIn(c, |c| - 1) == NO_RECORD;
    }
    assert SideEnds(v, mine) && SideEnds(v, other) && |data| == |v| && Agree(data, v, mine, other, hole);
    hide Walk, Linked, NextIn, SideOk;
    assert mine.slots != [] && other.slots != [] ==> mine.last != other.last;
    assert SideEnds(CloseLink(v, mine.slots), other);
    forall q | 0 <= q < |v| && q != hole
      ensures CloseData(CloseData(data, mine), other)[q] == CloseLink(CloseLink(v, mine.slots), other.slots)[q]
    {
      if Settled(other, q) { CloseOne(data, v, mine, q); }
      CloseOne(CloseData(data, mine), CloseLink(v, mine.slots), other, q);
    }
  }

  /** The last slot of one half-built chain, as the view has it. */
  ghost predicate SideEnds<R>(v: seq<Link<R>>, s: Side<R>) {
    && (s.slots != [] ==> s.last == s.slots[|s.slots| - 1] && s.last < |v| && v[s.last].rec == s.rec)
    && (s.used ==> s.slots != [] && v[s.last].next == NO_RECORD)
  }

  lemma CloseOne<R>(x: seq<Link<R>>, v: seq<Link<R>>, s: Side<R>, q: nat)
    requires |x| == |v| && q < |v| && SideEnds(v, s) && (Settled(s, q) ==> x[q] == v[q])
    ensures CloseData(x, s)[q] == CloseLink(v, s.slots)[q]
  {
  }

  /** The split as a whole: the two chains take the place of the one. */
  lemma SplitDone<R(!new)>(d: seq<Link<R>>, d': seq<Link<R>>, home: R -> nat, home': R -> nat, m: nat, low: nat,
                           cs: seq<seq<nat>>, lows: seq<nat>, highs: seq<nat>, hole: nat)
    requires |d| == m + 1 && low < m && Tiled(d[..m], home, m, cs, m)
    requires forall r :: home'(r) == home(r) || (home(r) == low && home'(r) == m)
    requires Parted(d, d', home', cs[low], |cs[low]|, lows, low, highs, m, hole)
    requires Chain(d', home', lows, low) && Chain(d', home', highs, m)
    ensures Tiled(d', home', m + 1, cs[low := lows] + [highs], hole)
    ensures Held(d', hole) == Held(d[..m], m)
  {
    hide Held, Partial, Linked;
    assert cs[low][..|cs[low]|] == cs[low];
    SplitTiled(d[..m], d', home, home', m, low, cs, lows, highs, hole);
    HeldLast(d);
  }
}
