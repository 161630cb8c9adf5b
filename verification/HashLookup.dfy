/** Lookup specification: the slots of a chain that hold a given key, in chain order, and
    their agreement with the multiset of records. */
module HashLookup {
  import opened Chains

  ghost function Matching<R, K>(d: seq<Link<R>>, getKey: R -> K, key: K, c: seq<nat>): seq<nat>
    requires forall k :: 0 <= k < |c| ==> c[k] < |d|
  {
    if c == [] then []
    else (if getKey(d[c[0]].rec) == key then [c[0]] else []) + Matching(d, getKey, key, c[1..])
  }

  lemma MatchingStep<R, K>(d: seq<Link<R>>, getKey: R -> K, key: K, c: seq<nat>, i: nat)
    requires i <= |c| && forall k :: 0 <= k < |c| ==> c[k] < |d|
    ensures Matching(d, getKey, key, c[i..]) ==
              if i == |c| then []
              else (if getKey(d[c[i]].rec) == key then [c[i]] else []) + Matching(d, getKey, key, c[i + 1..])
  {
    if i < |c| { assert c[i..][1..] == c[i + 1..]; }
  }

  ghost function RecordsAt<R>(d: seq<Link<R>>, c: seq<nat>): seq<R>
    requires forall k :: 0 <= k < |c| ==> c[k] < |d|
  {
    seq(|c|, i requires 0 <= i < |c| => d[c[i]].rec)
  }

  lemma {:induction false} MatchingMembers<R, K>(d: seq<Link<R>>, getKey: R -> K, key: K, c: seq<nat>)
    requires NoDup(c) && forall k :: 0 <= k < |c| ==> c[k] < |d|
    ensures NoDup(Matching(d, getKey, key, c))
    ensures forall s :: s in Matching(d, getKey, key, c) <==> s in c && getKey(d[s].rec) == key
  {
    if c != [] {
      assert c == [c[0]] + c[1..];
      assert forall j :: 0 < j < |c| ==> c[j] != c[0];
      MatchingMembers(d, getKey, key, c[1..]);
    }
  }

  ghost function SlotsOf<R(!new)>(d: seq<Link<R>>, c: seq<nat>, r: R): set<nat> {
    set s | s in c && s < |d| && d[s].rec == r
  }

  lemma {:induction false} CountAt<R(!new)>(d: seq<Link<R>>, c: seq<nat>, r: R)
    requires NoDup(c) && forall k :: 0 <= k < |c| ==> c[k] < |d|
    ensures multiset(RecordsAt(d, c))[r] == |SlotsOf(d, c, r)|
  {
    if c != [] {
      var n := |c| - 1;
      var c' := c[..n];
      assert c == c' + [c[n]];
      assert c[n] in c && c[n] !in c';
      CountAt(d, c', r);
      assert RecordsAt(d, c) == RecordsAt(d, c') + [d[c[n]].rec];
      if d[c[n]].rec == r {
        assert SlotsOf(d, c, r) == SlotsOf(d, c', r) + {c[n]};
      } else {
        assert SlotsOf(d, c, r) == SlotsOf(d, c', r);
      }
    }
  }

  lemma CountHeld<R(!new)>(d: seq<Link<R>>, r: R)
    ensures Held(d, |d|)[r] == |set s: nat | s < |d| && d[s].rec == r|
  {
    var all: seq<nat> := seq(|d|, i => i);
    CountAt(d, all, r);
    assert RecordsAt(d, all) == Records(d);
    assert forall s :: 0 <= s < |d| ==> all[s] == s;
    forall s: nat | s < |d| && d[s].rec == r
      ensures s in SlotsOf(d, all, r)
    {
      assert all[s] in all;
    }
    assert SlotsOf(d, all, r) == set s: nat | s < |d| && d[s].rec == r;
  }

  /** The matching slots of the key's chain hold exactly the records with that key, each as
      often as the table holds it. */
  lemma MatchingComplete<R(!new), K>(d: seq<Link<R>>, getKey: R -> K, key: K, c: seq<nat>, r: R)
    requires NoDup(c) && forall k :: 0 <= k < |c| ==> c[k] < |d|
    requires forall s :: 0 <= s < |d| && getKey(d[s].rec) == key ==> s in c
    ensures var ms := Matching(d, getKey, key, c);
            && (forall k :: 0 <= k < |ms| ==> ms[k] < |d|)
            && multiset(RecordsAt(d, ms))[r] == if getKey(r) == key then Held(d, |d|)[r] else 0
  {
    var ms := Matching(d, getKey, key, c);
    MatchingMembers(d, getKey, key, c);
    assert forall k :: 0 <= k < |ms| ==> ms[k] in ms;
    CountAt(d, ms, r);
    CountHeld(d, r);
    if getKey(r) == key {
      assert SlotsOf(d, ms, r) == set s: nat | s < |d| && d[s].rec == r;
    } else {
      assert SlotsOf(d, ms, r) == {};
    }
  }

  ghost function PlaceIn(c: seq<nat>, s: nat): (k: nat)
    requires s in c
    ensures k < |c| && c[k] == s
  {
    var k :| 0 <= k < |c| && c[k] == s; k
  }

  // ---- Searching along the links ----

  /** `c` is the chain of home `h`, and every record with `key` is in it. */
  ghost predicate FamilyOf<R(!new), K>(d: seq<Link<R>>, getKey: R -> K, home: R -> nat, key: K, c: seq<nat>, h: nat) {
    && h < |d| < NO_RECORD && (forall k :: 0 <= k < |c| ==> c[k] < |d|)
    && (forall s :: 0 <= s < |d| && getKey(d[s].rec) == key ==> s in c)
    && (if c == [] then home(d[h].rec) != h else c[0] == h && home(d[h].rec) == h)
    && (forall k {:trigger d[c[k]]} :: 0 <= k < |c| ==> d[c[k]].next == NextIn(c, k))
  }

  /** Slot `idx` is next, and no match comes before place `i` of the chain. `flag`: nothing is
      passed yet. */
  ghost predicate Searching<R, K>(d: seq<Link<R>>, getKey: R -> K, key: K, c: seq<nat>, h: nat,
                                  flag: bool, idx: nat, i: nat)
    requires forall k :: 0 <= k < |c| ==> c[k] < |d|
  {
    && (if flag then i == 0 && idx == h else 0 < i <= |c| && idx == NextIn(c, i - 1))
    && Matching(d, getKey, key, c) == Matching(d, getKey, key, c[i..])
  }

  lemma SearchStart<R(!new), K>(d: seq<Link<R>>, getKey: R -> K, home: R -> nat, key: K, c: seq<nat>, h: nat)
    requires (forall k :: 0 <= k < |c| ==> c[k] < |d|) && FamilyOf(d, getKey, home, key, c, h)
    ensures Searching(d, getKey, key, c, h, true, h, 0) && h != NO_RECORD
  {
    assert c[0..] == c;
  }

  /** One slot of the search: a match, a head that belongs elsewhere, or a step along the chain. */
  lemma SearchStep<R(!new), K>(d: seq<Link<R>>, getKey: R -> K, home: R -> nat, key: K, c: seq<nat>, h: nat,
                               flag: bool, idx: nat, i: nat)
    requires FamilyOf(d, getKey, home, key, c, h) && Searching(d, getKey, key, c, h, flag, idx, i) && idx != NO_RECORD
    ensures idx < |d|
    ensures getKey(d[idx].rec) == key ==>
              && i < |c| && idx == c[i]
              && Matching(d, getKey, key, c) == [idx] + Matching(d, getKey, key, c[i + 1..])
    ensures getKey(d[idx].rec) != key ==>
              if flag && home(d[idx].rec) != idx then Matching(d, getKey, key, c) == []
              else i < |c| && Searching(d, getKey, key, c, h, false, d[idx].next, i + 1)
  {
    MatchingStep(d, getKey, key, c, i);
    hide Matching;
    assert i < |c| ==> idx == c[i];
    assert i < |c| || c == [];
  }

  lemma SearchEnd<R(!new), K>(d: seq<Link<R>>, getKey: R -> K, home: R -> nat, key: K, c: seq<nat>, h: nat, i: nat)
    requires FamilyOf(d, getKey, home, key, c, h) && Searching(d, getKey, key, c, h, false, NO_RECORD, i)
    ensures Matching(d, getKey, key, c) == []
  {
    MatchingStep(d, getKey, key, c, i);
  }
}
