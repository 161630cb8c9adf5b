/** The slot array of the hash table as a value: chains of links, and what it means for
    the chains to tile the array, for any assignment of home slots to records. Every step
    of insert and delete is an instance of a lemma below. */
module Chains {

  const NO_RECORD: nat := 0xFFFF_FFFF

  datatype Link<R> = Link(next: nat, rec: R)

  ghost function NextIn(c: seq<nat>, k: nat): nat {
    if k + 1 < |c| then c[k + 1] else NO_RECORD
  }

  ghost predicate NoDup(c: seq<nat>) {
    forall i, j :: 0 <= i < j < |c| ==> c[i] != c[j]
  }

  /** `c` lists, in order, the slots of one chain ended by NO_RECORD. */
  ghost predicate Linked<R>(d: seq<Link<R>>, c: seq<nat>) {
    && NoDup(c)
    && (forall k :: 0 <= k < |c| ==> c[k] < |d|)
    && (forall k {:trigger d[c[k]]} :: 0 <= k < |c| ==> d[c[k]].next == NextIn(c, k))
  }

  /** A stretch of links whose last one points to `end`. */
  ghost predicate Seg<R>(d: seq<Link<R>>, c: seq<nat>, end: nat) {
    && (forall k :: 0 <= k < |c| ==> c[k] < |d|)
    && (forall k {:trigger d[c[k]]} :: 0 <= k < |c| ==> d[c[k]].next == if k + 1 < |c| then c[k + 1] else end)
  }

  /** A nonempty chain of home `h` starts at slot `h` and holds only records of home `h`. */
  ghost predicate Chain<R>(d: seq<Link<R>>, home: R -> nat, c: seq<nat>, h: nat) {
    && Linked(d, c)
    && (c != [] ==> c[0] == h)
    && (forall s :: s in c ==> s < |d| && home(d[s].rec) == h)
  }

  /** The chains `cs`, one for each of `m` homes, split the slots of `d` other than `hole`
      (no slot is left out when `hole == |d|`). */
  ghost predicate Tiled<R>(d: seq<Link<R>>, home: R -> nat, m: nat, cs: seq<seq<nat>>, hole: nat) {
    && |cs| == m
    && (forall h :: 0 <= h < m ==> Chain(d, home, cs[h], h) && hole !in cs[h])
    && (forall s :: 0 <= s < |d| && s != hole ==> home(d[s].rec) < m && s in cs[home(d[s].rec)])
  }

  /** The records held, slot by slot. */
  ghost function Records<R>(d: seq<Link<R>>): seq<R> {
    seq(|d|, i requires 0 <= i < |d| => d[i].rec)
  }

  ghost function Held<R>(d: seq<Link<R>>, hole: nat): multiset<R> {
    if hole < |d| then multiset(Records(d)) - multiset{d[hole].rec} else multiset(Records(d))
  }

  lemma HeldCount<R>(d: seq<Link<R>>)
    ensures |Held(d, |d|)| == |d|
  {
  }

  lemma HeldFill<R>(d: seq<Link<R>>, hole: nat, l: Link<R>)
    requires hole < |d|
    ensures Held(d[hole := l], |d|) == Held(d, hole) + multiset{l.rec}
  {
    assert Records(d[hole := l]) == Records(d)[hole := l.rec];
  }

  lemma HeldVacate<R>(d: seq<Link<R>>, hole: nat)
    requires hole < |d|
    ensures Held(d, |d|) == Held(d, hole) + multiset{d[hole].rec}
  {
    assert Records(d)[hole] == d[hole].rec;
    assert d[hole].rec in multiset(Records(d));
  }

  /** Copying the record of slot `p` into the hole makes `p` the hole and keeps what is held. */
  lemma HeldMove<R>(d: seq<Link<R>>, hole: nat, p: nat, l: Link<R>)
    requires hole < |d| && p < |d| && p != hole && l.rec == d[p].rec
    ensures Held(d[hole := l], p) == Held(d, hole)
  {
    HeldFill(d, hole, l);
    HeldVacate(d[hole := l], p);
  }

  lemma HeldIgnoresHole<R>(v: seq<Link<R>>, e: seq<Link<R>>, hole: nat)
    requires |e| == |v| && hole < |v|
    requires forall s :: 0 <= s < |v| && s != hole ==> e[s] == v[s]
    ensures Held(e, hole) == Held(v, hole)
  {
    assert e == v[hole := e[hole]];
    HeldFill(v, hole, e[hole]);
    HeldVacate(e, hole);
  }

  lemma HeldRelink<R>(d: seq<Link<R>>, hole: nat, p: nat, next: nat)
    requires p < |d|
    ensures Held(d[p := Link(next, d[p].rec)], hole) == Held(d, hole)
  {
    assert Records(d[p := Link(next, d[p].rec)]) == Records(d);
  }

  lemma HeldLast<R>(d: seq<Link<R>>)
    requires |d| > 0
    ensures Held(d, |d| - 1) == Held(d[..|d| - 1], |d| - 1)
  {
    var n := |d| - 1;
    assert Records(d) == Records(d[..n]) + [d[n].rec];
  }

  /** Different homes share no slot. */
  lemma Apart<R>(d: seq<Link<R>>, home: R -> nat, m: nat, cs: seq<seq<nat>>, hole: nat, g: nat, h: nat)
    requires Tiled(d, home, m, cs, hole) && g < m && h < m && g != h
    ensures forall s :: s in cs[g] ==> s !in cs[h] && s < |d| && s != hole
  {
    assert Chain(d, home, cs[g], g) && Chain(d, home, cs[h], h);
  }

  /** A chain none of whose slots is touched stays a chain. */
  lemma ChainKept<R>(d: seq<Link<R>>, d': seq<Link<R>>, home: R -> nat, home': R -> nat, c: seq<nat>, h: nat)
    requires Chain(d, home, c, h)
    requires forall s :: s in c ==> s < |d'| && (s < |d| ==> d'[s] == d[s] && home'(d[s].rec) == h)
    ensures Chain(d', home', c, h)
  {
    assert forall k :: 0 <= k < |c| ==> c[k] in c;
  }

  /** Rebuilding one chain, out of its own slots and the hole, keeps the tiling. */
  lemma Retile<R>(d: seq<Link<R>>, d': seq<Link<R>>, home: R -> nat, m: nat, cs: seq<seq<nat>>,
                  hole: nat, g: nat, c: seq<nat>, hole': nat)
    requires Tiled(d, home, m, cs, hole) && g < m && |d'| == |d|
    requires Chain(d', home, c, g)
    requires forall s :: 0 <= s < |d| && s !in cs[g] && s != hole ==> d'[s] == d[s]
    requires forall s :: 0 <= s < |d| ==> (s in c || s == hole' <==> s in cs[g] || s == hole)
    requires hole' !in c && hole' <= |d|
    ensures Tiled(d', home, m, cs[g := c], hole')
  {
    var cs' := cs[g := c];
    forall h | 0 <= h < m
      ensures Chain(d', home, cs'[h], h) && hole' !in cs'[h]
    {
      if h != g {
        Apart(d, home, m, cs, hole, h, g);
        ChainKept(d, d', home, home, cs[h], h);
      }
    }
    forall s | 0 <= s < |d| && s != hole'
      ensures home(d'[s].rec) < m && s in cs'[home(d'[s].rec)]
    {
      if s !in c {
        assert s !in cs[g] && s != hole;
      }
    }
  }

  /** A new slot and home `m` whose records all come from home `low`: the chain of `low`
      splits in two. */
  lemma SplitTiled<R(!new)>(d: seq<Link<R>>, d': seq<Link<R>>, home: R -> nat, home': R -> nat, m: nat, low: nat,
                            cs: seq<seq<nat>>, lows: seq<nat>, highs: seq<nat>, hole: nat)
    requires Tiled(d, home, m, cs, m) && |d| == m && |d'| == m + 1 && low < m
    requires forall r :: home'(r) == home(r) || (home(r) == low && home'(r) == m)
    requires Chain(d', home', lows, low) && Chain(d', home', highs, m)
    requires forall s :: 0 <= s < m && s !in cs[low] ==> d'[s] == d[s]
    requires forall s :: 0 <= s <= m ==> (s in lows || s in highs || s == hole <==> s in cs[low] || s == m)
    requires hole <= m && hole !in lows && hole !in highs
    ensures Tiled(d', home', m + 1, cs[low := lows] + [highs], hole)
  {
    var cs' := cs[low := lows] + [highs];
    forall h | 0 <= h < m + 1
      ensures Chain(d', home', cs'[h], h) && hole !in cs'[h]
    {
      if h != low && h != m {
        Apart(d, home, m, cs, m, h, low);
        ChainKept(d, d', home, home', cs[h], h);
      }
    }
    forall s | 0 <= s < m + 1 && s != hole
      ensures home'(d'[s].rec) < m + 1 && s in cs'[home'(d'[s].rec)]
    {
      if s !in lows && s !in highs {
        assert s !in cs[low] && s != m && d'[s] == d[s];
      }
    }
  }

  /** The last slot and home go, its records' home becoming `low`: two chains become the
      one chain `c`. */
  lemma MergeTiled<R(!new)>(d: seq<Link<R>>, d': seq<Link<R>>, home: R -> nat, home': R -> nat, m: nat, low: nat,
                            cs: seq<seq<nat>>, cs': seq<seq<nat>>, hole: nat)
    requires Tiled(d, home, m + 1, cs, hole) && |d| == |d'| == m + 1 && low < m && hole < m
    requires forall r :: home'(r) == if home(r) == m then low else home(r)
    requires m in cs[m]
    requires |cs'| == m && forall h :: 0 <= h < m && h != low ==> cs'[h] == cs[h]
    requires Chain(d', home', cs'[low], low) && m !in cs'[low]
    requires forall s :: 0 <= s < m && s !in cs'[low] ==> d'[s] == d[s]
    requires forall s :: 0 <= s < m ==> (s in cs'[low] <==> s in cs[low] || s in cs[m] || s == hole)
    ensures Tiled(d'[..m], home', m, cs', m)
  {
    var e := d'[..m];
    forall h | 0 <= h < m
      ensures Chain(e, home', cs'[h], h) && m !in cs'[h]
    {
      if h == low {
        assert forall s :: s in cs'[h] ==> s <= m && s != m;
        ChainKept(d', e, home', home', cs'[h], h);
      } else {
        Apart(d, home, m + 1, cs, hole, h, low);
        Apart(d, home, m + 1, cs, hole, h, m);
        assert Chain(d, home, cs[h], h);
        forall s | s in cs[h]
          ensures s < m && e[s] == d[s] && home'(d[s].rec) == h
        {
          assert s < m && s !in cs[low] && s !in cs[m] && s != hole;
        }
        ChainKept(d, e, home, home', cs[h], h);
      }
    }
    forall s | 0 <= s < m
      ensures home'(e[s].rec) < m && s in cs'[home'(e[s].rec)]
    {
      if s !in cs'[low] {
        assert s in cs[home(d[s].rec)];
      }
    }
  }

  /** The last slot and home go when that slot is the hole: nothing has home `m`. */
  lemma DropTiled<R>(d: seq<Link<R>>, home: R -> nat, home': R -> nat, m: nat, cs: seq<seq<nat>>)
    requires Tiled(d, home, m + 1, cs, m) && |d| == m + 1
    requires forall s :: 0 <= s < m && home(d[s].rec) != m ==> home'(d[s].rec) == home(d[s].rec)
    ensures |cs| == m + 1 && Tiled(d[..m], home', m, cs[..m], m)
  {
    assert cs[m] == [] by {
      assert Chain(d, home, cs[m], m) && m !in cs[m];
    }
    forall h | 0 <= h < m
      ensures Chain(d[..m], home', cs[h], h) && m !in cs[h]
    {
      assert Chain(d, home, cs[h], h) && m !in cs[h];
      ChainKept(d, d[..m], home, home', cs[h], h);
    }
  }

  lemma SameHomes<R(!new)>(d: seq<Link<R>>, home: R -> nat, home': R -> nat, m: nat, cs: seq<seq<nat>>, hole: nat)
    requires Tiled(d, home, m, cs, hole) && forall r :: home'(r) == home(r)
    ensures Tiled(d, home', m, cs, hole)
  {
    forall h | 0 <= h < m
      ensures Chain(d, home', cs[h], h) && hole !in cs[h]
    {
      assert Chain(d, home, cs[h], h);
      ChainKept(d, d, home, home', cs[h], h);
    }
  }
}
