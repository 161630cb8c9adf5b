/** The last part of delete: slot `m`, the last one, gives its record to the free slot, and
    the records of home `m` go over to home `low`. */
module ChainMerge {
  import opened Chains
  import opened ChainMoves

  /** Homes before (`home`) and after (`home'`) slot `m` is dropped. */
  ghost predicate Rehomes<R(!new)>(home: R -> nat, home': R -> nat, m: nat, low: nat) {
    low < m && forall r :: home'(r) == if home(r) == m then low else home(r)
  }

  lemma HoleContent<R>(d: seq<Link<R>>, d': seq<Link<R>>, home: R -> nat, m: nat, cs: seq<seq<nat>>, hole: nat)
    requires Tiled(d, home, m, cs, hole) && |d'| == |d|
    requires forall s :: 0 <= s < |d| && s != hole ==> d'[s] == d[s]
    ensures Tiled(d', home, m, cs, hole)
  {
    forall h | 0 <= h < m
      ensures Chain(d', home, cs[h], h) && hole !in cs[h]
    {
      assert Chain(d, home, cs[h], h) && hole !in cs[h];
      ChainKept(d, d', home, home, cs[h], h);
    }
  }

  /** A chain whose head moves to slot `low`, the new home of its records. */
  lemma Rehead<R(!new)>(d: seq<Link<R>>, home: R -> nat, home': R -> nat, c: seq<nat>, m: nat, low: nat)
    requires Chain(d, home, c, m) && c != [] && Rehomes(home, home', m, low)
    requires m < |d| && d[low] == d[m] && low !in c
    ensures Chain(d, home', c[0 := low], low)
    ensures forall s :: s in c[0 := low] <==> s == low || (s in c && s != m)
  {
    var c' := c[0 := low];
    Replaced(c, 0, low);
    forall j {:trigger d[c'[j]]} | 0 <= j < |c'|
      ensures c'[j] < |d| && d[c'[j]].next == NextIn(c', j)
    {
      assert c[j] in c && d[c[j]].next == NextIn(c, j);
    }
  }

  /** The head of home `m` moves into the free slot `low`, which heads no chain. */
  lemma MergeHead<R(!new)>(d: seq<Link<R>>, home: R -> nat, home': R -> nat, m: nat, low: nat, cs: seq<seq<nat>>)
    returns (c: seq<nat>)
    requires Tiled(d, home, m + 1, cs, low) && |d| == m + 1 && Rehomes(home, home', m, low)
    requires d[low] == d[m] && home(d[m].rec) == m
    ensures |cs| == m + 1 && Tiled(d[..m], home', m, cs[..m][low := c], m)
    ensures Held(d[..m], m) == Held(d, low)
  {
    NoHead(d, home, m + 1, cs, low, low);
    assert Chain(d, home, cs[m], m) && m in cs[m] && low !in cs[m];
    c := cs[m][0 := low];
    Rehead(d, home, home', cs[m], m, low);
    MergeTiled(d, d, home, home', m, low, cs, cs[..m][low := c], low);
    HeldLast(d);
  }

  /** What every case of the move knows: the last record's home is either `m` itself, or a
      slot that already heads its chain. */
  lemma LastHome<R(!new)>(d: seq<Link<R>>, home: R -> nat, home': R -> nat, m: nat, low: nat, cs: seq<seq<nat>>,
                          hole: nat)
    requires Tiled(d, home, m + 1, cs, hole) && |d| == m + 1 && hole < m && Rehomes(home, home', m, low)
    ensures var pos := home'(d[m].rec);
            && pos < m
            && (pos == hole ==> home(d[m].rec) == m && pos == low)
            && (pos != hole && home'(d[pos].rec) != pos ==>
                  home(d[m].rec) == m && pos == low && home(d[pos].rec) == home'(d[pos].rec) < m)
            && (pos != hole && home'(d[pos].rec) == pos && home(d[pos].rec) == home(d[m].rec) ==>
                  home(d[m].rec) == m || home(d[m].rec) == pos)
            && (pos != hole && home'(d[pos].rec) == pos && home(d[pos].rec) != home(d[m].rec) ==>
                  home(d[m].rec) == m && pos == low && home(d[pos].rec) == low)
  {
    var g := home(d[m].rec);
    assert m in cs[g] && Chain(d, home, cs[g], g) && hole !in cs[g];
    assert cs[g][0] in cs[g];
    var pos := home'(d[m].rec);
    if pos != hole {
      var p := home(d[pos].rec);
      assert pos in cs[p] && Chain(d, home, cs[p], p) && hole !in cs[p];
      assert cs[p][0] in cs[p];
    }
  }

  /** The writes of that case: the last record to `hole`, the links after `last` and `low`. */
  ghost function Spliced<R>(d: seq<Link<R>>, m: nat, hole: nat, last: nat, low: nat): seq<Link<R>>
    requires hole < |d| && m < |d| && last < |d| && low < |d|
  {
    var d1 := d[hole := d[m]];
    var d2 := d1[last := Link(d1[low].next, d1[last].rec)];
    d2[low := Link(hole, d2[low].rec)]
  }

  lemma TiledParts<R>(d: seq<Link<R>>, home: R -> nat, m: nat, cs: seq<seq<nat>>, hole: nat)
    requires Tiled(d, home, m + 1, cs, hole) && |d| == m + 1 && hole < m && home(d[m].rec) == m
    ensures |cs| == m + 1 && m in cs[m]
  {
  }

  lemma BehindKeeps<R>(d: seq<Link<R>>, m: nat, low: nat, hole: nat, body: seq<nat>, tail: seq<nat>)
    requires |d| == m + 1 && hole < m && low < m && body != [] && body[0] == hole && body[|body| - 1] < |d|
    ensures var c := [low] + body + tail;
      forall s :: 0 <= s < m && s !in c ==> Spliced(d, m, hole, body[|body| - 1], low)[s] == d[s]
  {
    var c, n := [low] + body + tail, |body|;
    assert c[0] == low && c[1] == hole && c[n] == body[n - 1];
  }

  /** The joined chain is one. */
  lemma BehindChain<R(!new)>(d: seq<Link<R>>, home: R -> nat, home': R -> nat, m: nat, low: nat,
                             cs: seq<seq<nat>>, hole: nat, body: seq<nat>, tail: seq<nat>)
    requires Tiled(d, home, m + 1, cs, hole) && |d| == m + 1 && hole < m && Rehomes(home, home', m, low)
    requires low != hole && home(d[m].rec) == m && home'(d[low].rec) == low && |cs| == m + 1
    requires var c := [low] + body + tail;
             && NoDup(c) && m !in c
             && (forall s :: 0 <= s <= m ==> (s in c || s == m <==> s in cs[low] || s in cs[m] || s == hole))
    requires body != [] && body[0] == hole && body[|body| - 1] < |d|
    requires forall s :: s in body || s in tail ==> s < m
    requires Seg(Spliced(d, m, hole, body[|body| - 1], low), body, d[low].next)
    requires d[low].next == (if tail == [] then NO_RECORD else tail[0]) && Seg(d, tail, NO_RECORD)
    ensures Chain(Spliced(d, m, hole, body[|body| - 1], low), home', [low] + body + tail, low)
  {
    var last, c := body[|body| - 1], [low] + body + tail;
    var d' := Spliced(d, m, hole, last, low);
    Behind(low, body, tail);
    assert Seg(d', tail, NO_RECORD) by {
      assert last in body && hole in body;
      assert forall j :: 0 <= j < |tail| ==> tail[j] in tail;
    }
    hide Seg, Spliced, Tiled, Chain;
    forall s | s in c
      ensures s < |d| && home'(d'[s].rec) == low
    {
      SplicedHome(d, home, home', m, low, cs, hole, last, s);
    }
    Splice(d', home', low, body, tail);
  }

  /** Head `low`, then `body`, chain `m` renamed to start at `hole`, then `tail`, what followed `low`. */
  lemma MergeBehind<R(!new)>(d: seq<Link<R>>, home: R -> nat, home': R -> nat, m: nat, low: nat,
                             cs: seq<seq<nat>>, hole: nat, body: seq<nat>, tail: seq<nat>)
    requires Tiled(d, home, m + 1, cs, hole) && |d| == m + 1 && hole < m && Rehomes(home, home', m, low)
    requires low != hole && home(d[m].rec) == m && home'(d[low].rec) == low
    requires var c := [low] + body + tail;
             && NoDup(c) && m !in c
             && (forall s :: 0 <= s <= m ==> (s in c || s == m <==> s in cs[low] || s in cs[m] || s == hole))
    requires body != [] && body[0] == hole && body[|body| - 1] < |d|
    requires forall s :: s in body || s in tail ==> s < m
    requires Seg(Spliced(d, m, hole, body[|body| - 1], low), body, d[low].next)
    requires d[low].next == (if tail == [] then NO_RECORD else tail[0]) && Seg(d, tail, NO_RECORD)
    ensures |cs| == m + 1
    ensures Tiled(Spliced(d, m, hole, body[|body| - 1], low)[..m], home', m, cs[..m][low := [low] + body + tail], m)
  {
    TiledParts(d, home, m, cs, hole);
    BehindChain(d, home, home', m, low, cs, hole, body, tail);
    BehindKeeps(d, m, low, hole, body, tail);
    hide Tiled, Chain, Seg, Spliced;
    var last, c := body[|body| - 1], [low] + body + tail;
    MergeTiled(d, Spliced(d, m, hole, last, low), home, home', m, low, cs, cs[..m][low := c], hole);
  }

  lemma Behind(low: nat, body: seq<nat>, tail: seq<nat>)
    requires NoDup([low] + body + tail) && body != []
    ensures low !in body && low !in tail && forall s :: s in body ==> s !in tail
  {
    var c := [low] + body + tail;
    forall j | 0 <= j < |body|
      ensures c[1 + j] == body[j]
    {
    }
    forall j | 0 <= j < |tail|
      ensures c[1 + |body| + j] == tail[j]
    {
    }
    assert forall j :: 0 < j < |c| ==> c[0] != c[j];
  }

  lemma SplicedHome<R(!new)>(d: seq<Link<R>>, home: R -> nat, home': R -> nat, m: nat, low: nat,
                             cs: seq<seq<nat>>, hole: nat, last: nat, s: nat)
    requires Tiled(d, home, m + 1, cs, hole) && |d| == m + 1 && hole < m && Rehomes(home, home', m, low)
    requires last < |d| && home(d[m].rec) == m && home'(d[low].rec) == low && low != hole
    requires s in cs[low] || s in cs[m] || s == hole
    ensures s < |d| && home'(Spliced(d, m, hole, last, low)[s].rec) == low
  {
    assert Chain(d, home, cs[low], low) && Chain(d, home, cs[m], m);
  }

  lemma HeldSpliced<R>(d: seq<Link<R>>, m: nat, hole: nat, last: nat, low: nat)
    requires |d| == m + 1 && hole < m && last < |d| && low < m
    ensures Held(Spliced(d, m, hole, last, low)[..m], m) == Held(d, hole)
  {
    hide Held;
    var d1 := d[hole := d[m]];
    var d2 := d1[last := Link(d1[low].next, d1[last].rec)];
    HeldMove(d, hole, m, d[m]);
    HeldRelink(d1, m, last, d1[low].next);
    HeldRelink(d2, m, low, hole);
    HeldLast(Spliced(d, m, hole, last, low));
  }

  /** The stretch of chain `m` that ends up behind head `low`, renamed to start at `hole`. */
  ghost function Body(c: seq<nat>, k: nat, hole: nat): (body: seq<nat>)
    requires 0 < k <= |c|
    ensures |body| == k && body[0] == hole
  {
    [hole] + c[1..k]
  }

  lemma BodySeg<R>(d: seq<Link<R>>, m: nat, c: seq<nat>, k: nat, hole: nat, low: nat)
    requires Linked(d, c) && 0 < k <= |c| && c[0] == m && |d| == m + 1 && hole < m && low < m
    requires hole !in c && low != hole && (forall j :: 0 <= j < k ==> c[j] != low)
    ensures var body := Body(c, k, hole);
            && body[k - 1] < |d| && body[k - 1] != low
            && Seg(Spliced(d, m, hole, body[k - 1], low), body, d[low].next)
  {
    var body := Body(c, k, hole);
    var last := body[k - 1];
    assert k > 1 ==> last == c[k - 1];
    assert forall j :: 0 <= j < k ==> c[j] in c;
    var d' := Spliced(d, m, hole, last, low);
    forall j {:trigger d'[body[j]]} | 0 <= j < k
      ensures body[j] < |d| && d'[body[j]].next == if j + 1 < k then body[j + 1] else d[low].next
    {
      assert d[c[j]].next == NextIn(c, j);
      assert j > 0 ==> body[j] == c[j];
    }
  }

  /** The walk from `hole` to the end of the stretch, once the last record is copied there. */
  ghost predicate BodyPath<R>(d: seq<Link<R>>, m: nat, hole: nat, body: seq<nat>, end: nat) {
    && m < |d| && hole < |d| && body != [] && body[0] == hole
    && Seg(d[hole := d[m]], body, end) && (forall j :: 0 < j < |body| ==> body[j] != end)
  }

  lemma BodyIsPath<R>(d: seq<Link<R>>, m: nat, c: seq<nat>, k: nat, hole: nat)
    requires Linked(d, c) && 0 < k <= |c| && c[0] == m && |d| == m + 1 < NO_RECORD && hole < m && hole !in c
    ensures BodyPath(d, m, hole, Body(c, k, hole), NextIn(c, k - 1))
  {
    var body, d1 := Body(c, k, hole), d[hole := d[m]];
    forall j {:trigger d1[body[j]]} | 0 <= j < k
      ensures body[j] < |d1| && d1[body[j]].next == if j + 1 < k then body[j + 1] else NextIn(c, k - 1)
      ensures j > 0 ==> body[j] == c[j] && body[j] != NextIn(c, k - 1)
    {
      assert c[j] in c && d[c[j]].next == NextIn(c, j);
      assert j > 0 ==> body[j] == c[j];
    }
  }

  /** Slot `low` holds a record of home `m`, at place `k` of chain `m`. */
  lemma MergeFamily<R(!new)>(d: seq<Link<R>>, home: R -> nat, home': R -> nat, m: nat, low: nat,
                             cs: seq<seq<nat>>, hole: nat, k: nat) returns (c: seq<nat>)
    requires Tiled(d, home, m + 1, cs, hole) && |d| == m + 1 && hole < m && Rehomes(home, home', m, low)
    requires low != hole && home(d[m].rec) == m && home(d[low].rec) == m
    requires |cs| == m + 1 < NO_RECORD && 0 < k < |cs[m]| && cs[m][k] == low
    ensures BodyPath(d, m, hole, Body(cs[m], k, hole), low)
    ensures var last := Body(cs[m], k, hole)[k - 1];
            && last < m && last != low && Tiled(Spliced(d, m, hole, last, low)[..m], home', m, cs[..m][low := c], m)
  {
    var cm := cs[m];
    assert Linked(d, cm) && NoDup(cm) && hole !in cm && cm[0] == m && forall s :: s in cm ==> s <= m by {
      assert Chain(d, home, cm, m);
    }
    NoHead(d, home, m + 1, cs, hole, low);
    hide Tiled, Linked, BodyPath;
    assert cm[0] in cm && cm[k] in cm;
    var body, tail := Body(cm, k, hole), cm[k + 1..];
    BodySeg(d, m, cm, k, hole, low);
    c := [low] + body + tail;
    FamilyMembers(cm, k, m, hole, low);
    TailSeg(d, cm, k);
    assert forall s :: s in body || s in tail ==> s in c;
    MergeBehind(d, home, home', m, low, cs, hole, body, tail);
    BodyIsPath(d, m, cm, k, hole);
    assert body[k - 1] in body;
  }

  lemma TailSeg<R>(d: seq<Link<R>>, c: seq<nat>, k: nat)
    requires Linked(d, c) && k < |c|
    ensures d[c[k]].next == (if c[k + 1..] == [] then NO_RECORD else c[k + 1..][0])
    ensures Seg(d, c[k + 1..], NO_RECORD)
  {
    var tail := c[k + 1..];
    assert d[c[k]].next == NextIn(c, k);
    forall j {:trigger d[tail[j]]} | 0 <= j < |tail|
      ensures tail[j] < |d| && d[tail[j]].next == if j + 1 < |tail| then tail[j + 1] else NO_RECORD
    {
      assert tail[j] == c[k + 1 + j] && d[c[k + 1 + j]].next == NextIn(c, k + 1 + j);
    }
  }

  lemma FamilyMembers(cm: seq<nat>, k: nat, m: nat, hole: nat, low: nat)
    requires NoDup(cm) && 0 < k < |cm| && cm[0] == m && cm[k] == low && hole !in cm
    ensures var c := [low] + Body(cm, k, hole) + cm[k + 1..];
            NoDup(c) && m !in c && forall s :: s in c <==> s == hole || (s in cm && s != m)
  {
    var c := [low] + Body(cm, k, hole) + cm[k + 1..];
    forall j | 0 <= j < |c|
      ensures c[j] == if j == 0 then cm[k] else if j == 1 then hole else if j <= k then cm[j - 1] else cm[j]
    {
    }
    forall s | s in cm && s != m
      ensures s in c
    {
      var j :| 0 <= j < |cm| && cm[j] == s;
      assert c[if j == k then 0 else if j < k then j + 1 else j] == s;
    }
    assert c[1] == hole;
  }

  /** Slot `low` heads its own chain: chain `m` goes in behind it. */
  lemma MergeTwo<R(!new)>(d: seq<Link<R>>, home: R -> nat, home': R -> nat, m: nat, low: nat,
                          cs: seq<seq<nat>>, hole: nat) returns (c: seq<nat>)
    requires Tiled(d, home, m + 1, cs, hole) && |d| == m + 1 && hole < m && Rehomes(home, home', m, low)
    requires low != hole && home(d[m].rec) == m && home(d[low].rec) == low && m + 1 < NO_RECORD
    ensures |cs| == m + 1 && cs[m] != []
    ensures BodyPath(d, m, hole, Body(cs[m], |cs[m]|, hole), NO_RECORD)
    ensures var last := Body(cs[m], |cs[m]|, hole)[|cs[m]| - 1];
            && last < m && last != low && Tiled(Spliced(d, m, hole, last, low)[..m], home', m, cs[..m][low := c], m)
  {
    var cm, cl := cs[m], cs[low];
    assert Linked(d, cm) && Linked(d, cl) && hole !in cm && hole !in cl
           && m in cm && low in cl && cm[0] == m && cl[0] == low by {
      assert Chain(d, home, cm, m) && Chain(d, home, cl, low);
    }
    Apart(d, home, m + 1, cs, hole, m, low);
    Apart(d, home, m + 1, cs, hole, low, m);
    c := MergeChains(d, home, home', m, low, cs, hole, cm, cl);
  }

  lemma MergeChains<R(!new)>(d: seq<Link<R>>, home: R -> nat, home': R -> nat, m: nat, low: nat,
                             cs: seq<seq<nat>>, hole: nat, cm: seq<nat>, cl: seq<nat>) returns (c: seq<nat>)
    requires Tiled(d, home, m + 1, cs, hole) && |d| == m + 1 && hole < m && Rehomes(home, home', m, low)
    requires low != hole && home(d[m].rec) == m && home(d[low].rec) == low && cm == cs[m] && cl == cs[low]
    requires Linked(d, cm) && Linked(d, cl) && hole !in cm && hole !in cl && m + 1 < NO_RECORD
    requires cm != [] && cl != [] && cm[0] == m && cl[0] == low
    requires forall s :: s in cm ==> s !in cl && s <= m
    requires forall s :: s in cl ==> s < m
    ensures BodyPath(d, m, hole, Body(cm, |cm|, hole), NO_RECORD)
    ensures var last := Body(cm, |cm|, hole)[|cm| - 1];
            && last < m && last != low && |cs| == m + 1
            && Tiled(Spliced(d, m, hole, last, low)[..m], home', m, cs[..m][low := c], m)
  {
    hide Tiled, Linked, NoDup, Spliced, Body, Seg, BodyPath;
    assert Linked(d, cm) && NoDup(cm) && NoDup(cl) by { LinkedNoDup(d, cm); LinkedNoDup(d, cl); }
    assert low !in cm by { assert cl[0] in cl; }
    assert forall j :: 0 <= j < |cm| ==> cm[j] in cm;
    var body, tail := Body(cm, |cm|, hole), cl[1..];
    BodySeg(d, m, cm, |cm|, hole, low);
    c := [low] + body + tail;
    TwoMembers(cm, cl, m, hole, low);
    TailSeg(d, cl, 0);
    assert forall s :: s in body || s in tail ==> s in c;
    MergeBehind(d, home, home', m, low, cs, hole, body, tail);
    BodyIsPath(d, m, cm, |cm|, hole);
    assert body[|cm| - 1] in body;
  }

  lemma LinkedNoDup<R>(d: seq<Link<R>>, c: seq<nat>)
    requires Linked(d, c)
    ensures NoDup(c)
  {
  }

  lemma TwoMembers(cm: seq<nat>, cl: seq<nat>, m: nat, hole: nat, low: nat)
    requires NoDup(cm) && NoDup(cl) && cm != [] && cl != [] && cm[0] == m && cl[0] == low && hole !in cm && hole !in cl
    requires forall s :: s in cm ==> s !in cl
    ensures var c := [low] + Body(cm, |cm|, hole) + cl[1..];
            NoDup(c) && m !in c && forall s :: s in c <==> s == hole || s in cl || (s in cm && s != m)
  {
    var c := [low] + Body(cm, |cm|, hole) + cl[1..];
    forall j | 0 <= j < |c|
      ensures c[j] == if j == 0 then cl[0] else if j == 1 then hole else if j <= |cm| then cm[j - 1] else cl[j - |cm|]
      ensures j != 1 ==> c[j] in cm || c[j] in cl
    {
    }
    assert forall j :: 2 <= j <= |cm| ==> c[j] in cm;
    assert forall j :: |cm| < j < |c| ==> c[j] in cl;
    forall s | s in cm && s != m
      ensures s in c
    {
      var j :| 0 <= j < |cm| && cm[j] == s;
      assert c[j + 1] == s;
    }
    forall s | s in cl
      ensures s in c
    {
      var j :| 0 <= j < |cl| && cl[j] == s;
      assert c[if j == 0 then 0 else |cm| + j] == s;
    }
    assert c[1] == hole;
  }
}
