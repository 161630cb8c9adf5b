/** The link surgery of insert and delete, one chain at a time. */
module ChainMoves {
  import opened Chains

  /** Slot `c[k]` is vacated: its link moves to `hole`, its predecessor follows. */
  lemma Relocate<R>(d: seq<Link<R>>, d': seq<Link<R>>, home: R -> nat, c: seq<nat>, h: nat, k: nat, hole: nat)
    requires Chain(d, home, c, h) && k < |c| && hole < |d| == |d'| && hole !in c
    requires k == 0 ==> hole == h
    requires d'[hole] == d[c[k]]
    requires k > 0 ==> d'[c[k - 1]] == Link(hole, d[c[k - 1]].rec)
    requires forall s :: s in c && s != c[k] && (k == 0 || s != c[k - 1]) ==> d'[s] == d[s]
    ensures Chain(d', home, c[k := hole], h)
    ensures forall s :: s in c[k := hole] <==> s == hole || (s in c && s != c[k])
  {
    var c' := c[k := hole];
    Replaced(c, k, hole);
    forall j {:trigger d'[c'[j]]} | 0 <= j < |c'|
      ensures c'[j] < |d'| && d'[c'[j]].next == NextIn(c', j)
    {
      assert c[j] in c && d[c[j]].next == NextIn(c, j);
    }
  }

  lemma Replaced(c: seq<nat>, k: nat, x: nat)
    requires NoDup(c) && k < |c| && x !in c
    ensures NoDup(c[k := x])
    ensures forall s :: s in c[k := x] <==> s == x || (s in c && s != c[k])
  {
    var c' := c[k := x];
    assert c'[k] == x;
    forall s | s in c && s != c[k]
      ensures s in c'
    {
      var j :| 0 <= j < |c| && c[j] == s;
      assert c'[j] == s;
    }
  }

  /** Slot `c[k]` is unlinked from behind its predecessor. */
  lemma Unlink<R>(d: seq<Link<R>>, d': seq<Link<R>>, home: R -> nat, c: seq<nat>, h: nat, k: nat)
    requires Chain(d, home, c, h) && 0 < k < |c|
    requires d' == d[c[k - 1] := Link(d[c[k]].next, d[c[k - 1]].rec)]
    ensures Chain(d', home, c[..k] + c[k + 1..], h)
    ensures forall s :: s in c[..k] + c[k + 1..] <==> s in c && s != c[k]
  {
    var c' := c[..k] + c[k + 1..];
    Without(c, k);
    forall j {:trigger d'[c'[j]]} | 0 <= j < |c'|
      ensures c'[j] < |d'| && d'[c'[j]].next == NextIn(c', j)
    {
      var i := if j < k then j else j + 1;
      assert c'[j] == c[i] && c[i] in c && d[c[i]].next == NextIn(c, i);
    }
  }

  lemma Without(c: seq<nat>, k: nat)
    requires NoDup(c) && k < |c|
    ensures NoDup(c[..k] + c[k + 1..])
    ensures forall s :: s in c[..k] + c[k + 1..] <==> s in c && s != c[k]
  {
    var c' := c[..k] + c[k + 1..];
    forall s | s in c && s != c[k]
      ensures s in c'
    {
      var j :| 0 <= j < |c| && c[j] == s;
      assert c'[if j < k then j else j - 1] == s;
    }
  }

  /** The second link is copied over the head: its slot is vacated. */
  lemma PullUp<R>(d: seq<Link<R>>, d': seq<Link<R>>, home: R -> nat, c: seq<nat>, h: nat)
    requires Chain(d, home, c, h) && |c| > 1
    requires d' == d[c[0] := d[c[1]]]
    ensures Chain(d', home, c[..1] + c[2..], h)
    ensures forall s :: s in c[..1] + c[2..] <==> s in c && s != c[1]
  {
    var c' := c[..1] + c[2..];
    Without(c, 1);
    forall j {:trigger d'[c'[j]]} | 0 <= j < |c'|
      ensures c'[j] < |d'| && d'[c'[j]].next == NextIn(c', j)
    {
      assert c[j + 1] in c && d[c[j + 1]].next == NextIn(c, j + 1);
      assert j > 0 ==> c'[j] == c[j + 1];
    }
    assert c[1] in c && c[0] in c;
  }

  /** A record takes the head slot; the old head's link moves to `hole`. */
  lemma PushHead<R>(d: seq<Link<R>>, d': seq<Link<R>>, home: R -> nat, c: seq<nat>, h: nat, hole: nat)
    requires Chain(d, home, c, h) && c != [] && hole < |d| == |d'| && hole !in c
    requires d'[hole] == d[h] && d'[h].next == hole && home(d'[h].rec) == h
    requires forall s :: s in c && s != h ==> d'[s] == d[s]
    ensures Chain(d', home, [h, hole] + c[1..], h)
    ensures forall s :: s in [h, hole] + c[1..] <==> s in c || s == hole
  {
    var c' := [h, hole] + c[1..];
    assert c == [h] + c[1..];
    forall j {:trigger d'[c'[j]]} | 0 <= j < |c'|
      ensures c'[j] < |d'| && d'[c'[j]].next == NextIn(c', j)
    {
      if j > 0 {
        assert c[j - 1] in c && d[c[j - 1]].next == NextIn(c, j - 1);
      }
    }
  }

  /** Two chains of one home become one: head `low`, then `body`, then `tail`. */
  lemma Splice<R>(d: seq<Link<R>>, home: R -> nat, low: nat, body: seq<nat>, tail: seq<nat>)
    requires low < |d| && body != [] && NoDup([low] + body + tail)
    requires d[low].next == body[0]
    requires Seg(d, body, if tail == [] then NO_RECORD else tail[0]) && Seg(d, tail, NO_RECORD)
    requires forall s :: s == low || s in body || s in tail ==> s < |d| && home(d[s].rec) == low
    ensures Chain(d, home, [low] + body + tail, low)
  {
    var c := [low] + body + tail;
    forall j {:trigger d[c[j]]} | 0 <= j < |c|
      ensures c[j] < |d| && d[c[j]].next == NextIn(c, j)
    {
      if 0 < j <= |body| {
        assert c[j] == body[j - 1] && body[j - 1] in body;
        assert d[body[j - 1]].next == if j < |body| then body[j] else if tail == [] then NO_RECORD else tail[0];
      } else if j > |body| {
        assert c[j] == tail[j - 1 - |body|] && tail[j - 1 - |body|] in tail;
        assert d[tail[j - 1 - |body|]].next == if j - |body| < |tail| then tail[j - |body|] else NO_RECORD;
      }
    }
  }

  /** The head slot of an empty chain is not in use by its own home. */
  lemma NoHead<R>(d: seq<Link<R>>, home: R -> nat, m: nat, cs: seq<seq<nat>>, hole: nat, h: nat)
    requires Tiled(d, home, m, cs, hole) && h < m <= |d|
    requires h == hole || home(d[h].rec) != h
    ensures cs[h] == []
  {
    var c := cs[h];
    assert Chain(d, home, c, h) && hole !in c;
    assert |c| > 0 ==> c[0] in c;
  }

  /** A record enters the free slot, which is its home. */
  lemma FillHole<R>(d: seq<Link<R>>, home: R -> nat, m: nat, cs: seq<seq<nat>>, hole: nat, r: R)
    requires Tiled(d, home, m, cs, hole) && |d| == m && hole < m && home(r) == hole
    ensures |cs| == m
    ensures Tiled(d[hole := Link(NO_RECORD, r)], home, m, cs[hole := [hole]], m)
    ensures Held(d[hole := Link(NO_RECORD, r)], m) == Held(d, hole) + multiset{r}
  {
    NoHead(d, home, m, cs, hole, hole);
    Retile(d, d[hole := Link(NO_RECORD, r)], home, m, cs, hole, hole, [hole], m);
    HeldFill(d, hole, Link(NO_RECORD, r));
  }

  /** A record takes the head slot of its home from another record of that home. */
  lemma PushFront<R>(d: seq<Link<R>>, home: R -> nat, m: nat, cs: seq<seq<nat>>, hole: nat, h: nat, r: R)
    requires Tiled(d, home, m, cs, hole) && |d| == m && hole < m && h < m && h != hole
    requires home(r) == h && home(d[h].rec) == h
    ensures var d' := d[hole := d[h]][h := Link(hole, r)];
            && |cs| == m && cs[h] != []
            && Tiled(d', home, m, cs[h := [h, hole] + cs[h][1..]], m)
            && Held(d', m) == Held(d, hole) + multiset{r}
  {
    var d' := d[hole := d[h]][h := Link(hole, r)];
    assert Chain(d, home, cs[h], h) && hole !in cs[h] && h in cs[h];
    PushHead(d, d', home, cs[h], h, hole);
    Retile(d, d', home, m, cs, hole, h, [h, hole] + cs[h][1..], m);
    HeldMove(d, hole, h, d[h]);
    HeldFill(d[hole := d[h]], h, Link(hole, r));
  }

  /** The record at slot `p`, not its head slot, moves to the hole. What is left at `p` does
      not matter. */
  lemma Evict<R>(d: seq<Link<R>>, d': seq<Link<R>>, home: R -> nat, m: nat, cs: seq<seq<nat>>, hole: nat,
                 g: nat, k: nat)
    requires Tiled(d, home, m, cs, hole) && hole < |d| && g < m && 0 < k < |cs[g]|
    requires cs[g][k] < |d| && cs[g][k - 1] < |d| && cs[g][k] != cs[g][k - 1]
    requires |d'| == |d| && d'[cs[g][k - 1]] == Link(hole, d[cs[g][k - 1]].rec) && d'[hole] == d[cs[g][k]]
    requires forall s :: 0 <= s < |d| && s != hole && s != cs[g][k] && s != cs[g][k - 1] ==> d'[s] == d[s]
    ensures var c: seq<nat> := cs[g][k := hole]; Tiled(d', home, m, cs[g := c], cs[g][k])
    ensures Held(d', cs[g][k]) == Held(d, hole)
  {
    var c := cs[g];
    assert Chain(d, home, c, g) && hole !in c && c[k] in c && c[k - 1] in c;
    Relocate(d, d', home, c, g, k, hole);
    Retile(d, d', home, m, cs, hole, g, c[k := hole], c[k]);
    HeldEvict(d, d', hole, c[k], c[k - 1]);
  }

  lemma HeldEvict<R>(d: seq<Link<R>>, d': seq<Link<R>>, hole: nat, p: nat, q: nat)
    requires |d'| == |d| && hole < |d| && p < |d| && q < |d| && p != q && hole != p && hole != q
    requires d'[q] == Link(hole, d[q].rec) && d'[hole] == d[p]
    requires forall s :: 0 <= s < |d| && s != hole && s != p && s != q ==> d'[s] == d[s]
    ensures Held(d', p) == Held(d, hole)
  {
    var d1 := d[hole := d[p]];
    var d2 := d1[q := Link(hole, d1[q].rec)];
    HeldMove(d, hole, p, d[p]);
    HeldRelink(d1, p, q, hole);
    HeldIgnoresHole(d2, d', p);
  }

  /** Where slot `p` stands in its chain, and the links that lead there. */
  lemma Position<R>(d: seq<Link<R>>, home: R -> nat, m: nat, cs: seq<seq<nat>>, hole: nat, p: nat) returns (k: nat)
    requires Tiled(d, home, m, cs, hole) && p < |d| && p != hole
    ensures home(d[p].rec) < m && |cs| == m
    ensures var c := cs[home(d[p].rec)];
            && k < |c| && c[k] == p && c[0] == home(d[p].rec)
            && (forall j :: 0 <= j < |c| ==> c[j] < |d| && c[j] != hole)
            && (forall j {:trigger d[c[j]]} :: 0 <= j < |c| ==> home(d[c[j]].rec) == home(d[p].rec))
            && (forall i, j :: 0 <= i < j < |c| ==> c[i] != c[j])
            && (forall j {:trigger d[c[j]]} :: 0 <= j < |c| ==> d[c[j]].next == NextIn(c, j))
            && Seg(d, c[..k], p) && p !in c[..k]
  {
    assert p in cs[home(d[p].rec)];
    k := PlaceOf(d, home, cs[home(d[p].rec)], home(d[p].rec), hole, p);
  }

  lemma PlaceOf<R>(d: seq<Link<R>>, home: R -> nat, c: seq<nat>, h: nat, hole: nat, p: nat) returns (k: nat)
    requires Chain(d, home, c, h) && p in c && hole !in c
    ensures k < |c| && c[k] == p && c[0] == h
    ensures forall j :: 0 <= j < |c| ==> c[j] < |d| && c[j] != hole
    ensures forall j {:trigger d[c[j]]} :: 0 <= j < |c| ==> home(d[c[j]].rec) == h
    ensures forall i, j :: 0 <= i < j < |c| ==> c[i] != c[j]
    ensures forall j {:trigger d[c[j]]} :: 0 <= j < |c| ==> d[c[j]].next == NextIn(c, j)
    ensures Seg(d, c[..k], p) && p !in c[..k]
  {
    MembersOf(d, home, c, h, hole);
    k :| 0 <= k < |c| && c[k] == p;
    assert Linked(d, c);
    hide *;
    SegBefore(d, c, k);
  }

  lemma MembersOf<R>(d: seq<Link<R>>, home: R -> nat, c: seq<nat>, h: nat, hole: nat)
    requires Chain(d, home, c, h) && hole !in c
    ensures forall j :: 0 <= j < |c| ==> c[j] < |d| && c[j] != hole
    ensures forall j {:trigger d[c[j]]} :: 0 <= j < |c| ==> home(d[c[j]].rec) == h
  {
    hide NextIn;
    assert forall j :: 0 <= j < |c| ==> c[j] in c;
  }

  lemma SegBefore<R>(d: seq<Link<R>>, c: seq<nat>, k: nat)
    requires Linked(d, c) && k < |c|
    ensures Seg(d, c[..k], c[k]) && c[k] !in c[..k]
  {
  }

  /** Taking the record at place `k` out of its chain, from behind its predecessor. */
  lemma TakeBehind<R>(d: seq<Link<R>>, home: R -> nat, m: nat, cs: seq<seq<nat>>, h: nat, k: nat) returns (c: seq<nat>)
    requires Tiled(d, home, m, cs, |d|) && h < m && 0 < k < |cs[h]|
    ensures cs[h][k] < |d| && cs[h][k - 1] < |d|
    ensures var d' := d[cs[h][k - 1] := Link(d[cs[h][k]].next, d[cs[h][k - 1]].rec)];
            && Tiled(d', home, m, cs[h := c], cs[h][k])
            && Held(d, |d|) == Held(d', cs[h][k]) + multiset{d[cs[h][k]].rec}
  {
    assert Chain(d, home, cs[h], h) && cs[h][k] in cs[h] && cs[h][k - 1] in cs[h];
    c := cs[h][..k] + cs[h][k + 1..];
    var d' := d[cs[h][k - 1] := Link(d[cs[h][k]].next, d[cs[h][k - 1]].rec)];
    Unlink(d, d', home, cs[h], h, k);
    Retile(d, d', home, m, cs, |d|, h, c, cs[h][k]);
    HeldVacate(d, cs[h][k]);
    HeldRelink(d, cs[h][k], cs[h][k - 1], d[cs[h][k]].next);
  }

  /** Taking the head record out: the second one moves up, or the chain ends. */
  lemma TakeHead<R>(d: seq<Link<R>>, home: R -> nat, m: nat, cs: seq<seq<nat>>, h: nat) returns (c: seq<nat>)
    requires Tiled(d, home, m, cs, |d|) && h < m && cs[h] != []
    ensures h < |d| && d[h].next == NextIn(cs[h], 0) && cs[h][0] == h
    ensures |cs[h]| > 1 ==> cs[h][1] < |d|
    ensures var hole := if |cs[h]| > 1 then cs[h][1] else h;
            var d' := if |cs[h]| > 1 then d[h := d[cs[h][1]]] else d;
            && Tiled(d', home, m, cs[h := c], hole)
            && Held(d, |d|) == Held(d', hole) + multiset{d[h].rec}
  {
    HeadOf(d, home, m, cs, h);
    hide Held, Tiled;
    HeldVacate(d, h);
    if |cs[h]| > 1 {
      c := TakeFirstOfMore(d, home, m, cs, h);
      HeldMove(d, h, cs[h][1], d[cs[h][1]]);
    } else {
      c := [];
      OnlyOne(d, home, cs[h], h);
      Retile(d, d, home, m, cs, |d|, h, c, h);
    }
  }

  lemma HeadOf<R>(d: seq<Link<R>>, home: R -> nat, m: nat, cs: seq<seq<nat>>, h: nat)
    requires Tiled(d, home, m, cs, |d|) && h < m && cs[h] != []
    ensures |cs| == m && Chain(d, home, cs[h], h) && h < |d| && cs[h][0] == h && d[h].next == NextIn(cs[h], 0)
    ensures |cs[h]| > 1 ==> cs[h][1] < |d| && cs[h][1] != h
  {
    assert Chain(d, home, cs[h], h) && cs[h][0] in cs[h] && d[cs[h][0]].next == NextIn(cs[h], 0);
  }

  lemma OnlyOne<R>(d: seq<Link<R>>, home: R -> nat, c: seq<nat>, h: nat)
    requires Chain(d, home, c, h) && |c| == 1 && c[0] == h
    ensures Chain(d, home, [], h) && forall s :: s in c <==> s == h
  {
  }

  /** The second record of a longer chain moves to the head, and its slot becomes free. */
  lemma TakeFirstOfMore<R>(d: seq<Link<R>>, home: R -> nat, m: nat, cs: seq<seq<nat>>, h: nat) returns (c: seq<nat>)
    requires Tiled(d, home, m, cs, |d|) && h < m == |cs| && |cs[h]| > 1 && Chain(d, home, cs[h], h)
    requires h < |d| && cs[h][0] == h && cs[h][1] < |d| && cs[h][1] != h
    ensures Tiled(d[h := d[cs[h][1]]], home, m, cs[h := c], cs[h][1])
  {
    hide Chain, Tiled;
    var p := cs[h][1];
    c := cs[h][..1] + cs[h][2..];
    PullUp(d, d[h := d[p]], home, cs[h], h);
    assert h in cs[h] && p in cs[h] by { assert cs[h][0] in cs[h] && cs[h][1] in cs[h]; }
    Retile(d, d[h := d[p]], home, m, cs, |d|, h, c, p);
  }
}
