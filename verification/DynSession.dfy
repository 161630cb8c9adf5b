/** A whole run: a record is created, updated any number of times, and a value is looked up. */
module DynSession {
  import opened Basics
  import opened DynValues
  import opened DynFormat
  import opened DynRecord
  import opened DynFind
  import opened DynCreate
  import opened DynMerge
  import opened DynOffsets
  import opened DynUpdate

  /** Keys and values of one call, and the order that qsort makes of the keys. */
  datatype Batch = Batch(keys: seq<Key>, values: seq<Value>, order: seq<nat>)

  ghost predicate WellFormed(b: Batch) {
    |b.keys| == |b.values| && SortedBy(b.keys, b.order)
  }

  ghost predicate AllWellFormed(batches: seq<Batch>) {
    forall i :: 0 <= i < |batches| ==> WellFormed(batches[i])
  }

  /** The columns after calls that all succeed. */
  ghost function RunColumns(fmt: Format, batches: seq<Batch>): seq<Column>
    requires AllWellFormed(batches)
  {
    if batches == [] then [] else
      var b := batches[|batches| - 1];
      ColumnsAfter(fmt, b.keys, b.values, b.order, RunColumns(fmt, batches[..|batches| - 1]))
  }

  /** The value that was given for a key last; NULL if none was. */
  ghost function Latest(batches: seq<Batch>, key: Key): Value
    requires AllWellFormed(batches)
  {
    if batches == [] then Null else
      var b := batches[|batches| - 1];
      if key in b.keys then GivenValue(b, key) else Latest(batches[..|batches| - 1], key)
  }

  ghost function GivenValue(b: Batch, key: Key): Value
    requires WellFormed(b) && key in b.keys
  {
    var i :| 0 <= i < |b.keys| && b.keys[i] == key; b.values[i]
  }

  /** What the functions demand of one more call: that the record has room for it, and that it is
      harmless. */
  ghost predicate Fits(fmt: Format, cols: seq<Column>, b: Batch, known: nat -> bool) {
    && WellFormed(b) && Updates(fmt, b.keys, b.values, b.order, cols) && KnownCharsets(b.values, known)
    && Harmless(fmt, cols, Changes(b.keys, b.values, b.order))
  }

  ghost predicate Run(fmt: Format, batches: seq<Batch>, known: nat -> bool) {
    && AllWellFormed(batches)
    && forall i :: 0 <= i < |batches| ==> Fits(fmt, RunColumns(fmt, batches[..i]), batches[i], known)
  }

  /** What call `i` of a run answers when all calls before it succeed: the first one creates. */
  ghost function AnswerOf(fmt: Format, batches: seq<Batch>, i: nat): Code
    requires AllWellFormed(batches) && i < |batches|
  {
    var b := batches[i];
    InputsOf(fmt, b);
    if i > 0 then Answer(fmt, b.keys, b.values, b.order, RunColumns(fmt, batches[..i]))
    else if TooMuch(fmt, b.keys, b.values) then Limit
    else if Refused(b.keys) then Data
    else Done
  }

  lemma InputsOf(fmt: Format, b: Batch)
    requires WellFormed(b)
    ensures Inputs(fmt, b.keys, b.values, b.order)
  {
    PermutesRange(b.order, |b.keys|);
  }

  /** The calls before `n` all succeed. */
  ghost predicate AllDone(fmt: Format, batches: seq<Batch>, n: nat)
    requires AllWellFormed(batches) && n <= |batches|
  {
    forall i :: 0 <= i < n ==> AnswerOf(fmt, batches, i) == Done
  }

  /** The run stops at the first call that is refused, with its answer. */
  ghost predicate StopsWith(fmt: Format, batches: seq<Batch>, rc: Code)
    requires AllWellFormed(batches)
  {
    if rc == Done then AllDone(fmt, batches, |batches|)
    else exists i :: 0 <= i < |batches| && AllDone(fmt, batches, i) && AnswerOf(fmt, batches, i) == rc
  }

  lemma StoppedHere(fmt: Format, batches: seq<Batch>, i: nat, rc: Code)
    requires AllWellFormed(batches) && i < |batches| && AllDone(fmt, batches, i)
    requires AnswerOf(fmt, batches, i) == rc
    ensures rc != Done ==> StopsWith(fmt, batches, rc)
    ensures rc == Done ==> AllDone(fmt, batches, i + 1)
  {
    hide AnswerOf;
  }

  lemma AllStopsDone(fmt: Format, batches: seq<Batch>)
    requires AllWellFormed(batches) && AllDone(fmt, batches, |batches|)
    ensures StopsWith(fmt, batches, Done)
  {
  }

  /** A run has one answer, and it is `Done` exactly when every call in turn succeeds. */
  lemma OneAnswer(fmt: Format, batches: seq<Batch>, rc: Code, rc': Code)
    requires AllWellFormed(batches) && StopsWith(fmt, batches, rc) && StopsWith(fmt, batches, rc')
    ensures rc == rc' && (rc == Done <==> AllDone(fmt, batches, |batches|))
  {
    hide AnswerOf;
    if rc != Done && rc' != Done {
      var i :| 0 <= i < |batches| && AllDone(fmt, batches, i) && AnswerOf(fmt, batches, i) == rc;
      var j :| 0 <= j < |batches| && AllDone(fmt, batches, j) && AnswerOf(fmt, batches, j) == rc';
      assert i < j || j < i || i == j;
    }
  }

  /** Every key gives what storing keeps of the value it got last. */
  ghost predicate Current(m: map<Key, (nat, seq<Byte>)>, batches: seq<Batch>, known: nat -> bool)
    requires AllWellFormed(batches)
  {
    forall key :: LookUp(m, key, known) == Ok(Kept(Latest(batches, key)))
  }

  lemma NothingCurrent(known: nat -> bool)
    ensures Current(map[], [], known)
  {
  }

  /** Overriding a current map by a call makes it current. */
  lemma StaysCurrent(m': map<Key, (nat, seq<Byte>)>, m: map<Key, (nat, seq<Byte>)>, fmt: Format, batches: seq<Batch>,
                     b: Batch, known: nat -> bool)
    requires AllWellFormed(batches) && WellFormed(b) && KnownCharsets(b.values, known) && Current(m, batches, known)
    requires var ch := Changes(b.keys, b.values, b.order); InOrder(ch) && Overrides(m', m, fmt, ch)
    ensures AllWellFormed(batches + [b]) && Current(m', batches + [b], known)
  {
    hide Encoding, Decoding, Kept, Permutes, TypeOf, InOrder, Untouched;
    var all := batches + [b];
    assert all[..|batches|] == batches;
    PermutesRange(b.order, |b.keys|);
    forall key ensures LookUp(m', key, known) == Ok(Kept(Latest(all, key))) {
      if key in b.keys {
        Given(m', m, fmt, b, key, known);
      } else {
        NotGiven(b, key);
      }
    }
  }

  lemma NotGiven(b: Batch, key: Key)
    requires WellFormed(b) && key !in b.keys
    ensures Untouched(Changes(b.keys, b.values, b.order), key)
  {
    hide Permutes;
  }

  lemma Given(m': map<Key, (nat, seq<Byte>)>, m: map<Key, (nat, seq<Byte>)>, fmt: Format, b: Batch, key: Key,
              known: nat -> bool)
    requires WellFormed(b) && KnownCharsets(b.values, known) && key in b.keys
    requires Overrides(m', m, fmt, Changes(b.keys, b.values, b.order))
    ensures LookUp(m', key, known) == Ok(Kept(GivenValue(b, key)))
  {
    hide Encoding, Decoding, Kept, Permutes, TypeOf;
    PermutesRange(b.order, |b.keys|);
    var ch := Changes(b.keys, b.values, b.order);
    var i :| 0 <= i < |b.keys| && b.keys[i] == key && b.values[i] == GivenValue(b, key);
    assert i in b.order;
    var at :| 0 <= at < |b.order| && b.order[at] == i;
    assert ch[at] == Change(key, b.values[i]);
    ValueRoundTrip(b.values[i], fmt, known);
    NullKept(b.values[i]);
  }

  /** A call that gives only NULLs to an empty record leaves it empty. */
  lemma NullsCurrent(batches: seq<Batch>, b: Batch, known: nat -> bool)
    requires AllWellFormed(batches) && WellFormed(b) && AllNull(b.values) && Current(map[], batches, known)
    ensures AllWellFormed(batches + [b]) && Current(map[], batches + [b], known)
  {
    hide Kept, Permutes, Decoding;
    var all := batches + [b];
    assert all[..|batches|] == batches;
    forall key ensures LookUp(map[], key, known) == Ok(Kept(Latest(all, key))) {
      if key in b.keys { NullKept(GivenValue(b, key)); }
    }
  }

  /** The bytes hold the columns after the calls, and looking up any key gives its latest value. */
  ghost predicate Holding(str: seq<Byte>, fmt: Format, rec: Record, batches: seq<Batch>, known: nat -> bool) {
    && Stored(str, fmt, rec) && Straight(rec) && ShortIntegers(rec.cols) && AllWellFormed(batches)
    && rec.cols == RunColumns(fmt, batches) && Current(Content(rec.cols), batches, known)
  }

  /** One call that succeeds. */
  lemma Step(fmt: Format, rec: Record, rec': Record, str': seq<Byte>, batches: seq<Batch>, b: Batch, known: nat -> bool)
    requires AllWellFormed(batches) && rec.cols == RunColumns(fmt, batches)
    requires Current(Content(rec.cols), batches, known)
    requires Fits(fmt, rec.cols, b, known) && Inputs(fmt, b.keys, b.values, b.order)
    requires rec'.cols == ColumnsAfter(fmt, b.keys, b.values, b.order, rec.cols)
    requires Stored(str', fmt, rec') && Straight(rec') && ShortIntegers(rec'.cols)
    requires if rec.cols == [] && AllNull(b.values) then rec'.cols == [] else
      var ch := Changes(b.keys, b.values, b.order);
      InOrder(ch) && Overrides(Content(rec'.cols), Content(rec.cols), fmt, ch)
    ensures Holding(str', fmt, rec', batches + [b], known)
  {
    hide Stored, Straight, ShortIntegers, Content, Current, Overrides, InOrder, Updates, Harmless;
    hide KnownCharsets, ColumnsAfter;
    hide SortedBy, AllNull;
    var all := batches + [b];
    assert all[..|batches|] == batches;
    if rec.cols == [] && AllNull(b.values) {
      EmptyContent(rec.cols);
      NullsCurrent(batches, b, known);
    } else {
      StaysCurrent(Content(rec'.cols), Content(rec.cols), fmt, batches, b, known);
    }
  }

  lemma EmptyContent(cols: seq<Column>)
    ensures cols == [] ==> Content(cols) == map[]
  {
  }

  /** Create, any updates, and a lookup: the value that the key got last comes back, or NULL. The calls
      all succeed exactly when none is refused for its keys or its size, given the columns before it;
      otherwise the first refusal is the answer. */
  method Session(fmt: Format, first: Batch, more: seq<Batch>, key: Key, known: nat -> bool)
    returns (rc: Code, r: Result<Value>)
    requires Run(fmt, [first] + more, known)
    requires (fmt == Numeric <==> key.Num?) && (key.Num? ==> key.number <= UINT_MAX16)
    ensures StopsWith(fmt, [first] + more, rc)
    ensures rc == Done <==> AllDone(fmt, [first] + more, 1 + |more|)
    ensures rc == Done ==> r == Ok(Kept(Latest([first] + more, key)))
  {
    hide *;
    ghost var all := [first] + more;
    RunWellFormed(fmt, all, known);
    var str;
    ghost var rec;
    r := Ok(Null);
    rc, str, rec := Start(fmt, first, all, known);
    NothingBefore(fmt, all);
    StoppedHere(fmt, all, 0, rc);
    if rc != Done {
      NotAllDone(fmt, all, 0);
      return;
    }
    for i := 0 to |more|
      invariant Holding(str, fmt, rec, all[..i + 1], known) && rc == Done && AllDone(fmt, all, i + 1)
    {
      rc, str, rec := Continue(str, fmt, rec, all, i + 1, more[i], known);
      StoppedHere(fmt, all, i + 1, rc);
      if rc != Done {
        NotAllDone(fmt, all, i + 1);
        return;
      }
    }
    assert all[..|more| + 1] == all;
    AllStopsDone(fmt, all);
    r := Finish(str, fmt, rec, all, key, known);
  }

  lemma RunWellFormed(fmt: Format, batches: seq<Batch>, known: nat -> bool)
    requires Run(fmt, batches, known)
    ensures AllWellFormed(batches)
  {
  }

  lemma NothingBefore(fmt: Format, batches: seq<Batch>)
    requires AllWellFormed(batches)
    ensures AllDone(fmt, batches, 0)
  {
  }

  lemma NotAllDone(fmt: Format, batches: seq<Batch>, i: nat)
    requires AllWellFormed(batches) && i < |batches| && AnswerOf(fmt, batches, i) != Done
    ensures !AllDone(fmt, batches, |batches|)
  {
    hide AnswerOf;
  }

  method Start(fmt: Format, b: Batch, ghost all: seq<Batch>, known: nat -> bool)
    returns (rc: Code, str: seq<Byte>, ghost rec: Record)
    requires Run(fmt, all, known) && all != [] && b == all[0]
    ensures AllWellFormed(all) && rc == AnswerOf(fmt, all, 0)
    ensures rc == Done ==> Holding(str, fmt, rec, all[..1], known)
  {
    hide *;
    FirstFits(fmt, all, known);
    rc, str, rec := Create([], fmt, b.keys, b.values, b.order);
    FirstAnswer(fmt, all, rc);
    if rc == Done {
      CreatedStep(fmt, b, str, rec, known);
      assert [] + [b] == all[..1];
    }
  }

  lemma FirstAnswer(fmt: Format, all: seq<Batch>, rc: Code)
    requires AllWellFormed(all) && all != [] && |all[0].keys| == |all[0].values| && rc != Format
    requires rc == Limit <==> TooMuch(fmt, all[0].keys, all[0].values)
    requires rc == Data <==> rc != Limit && Refused(all[0].keys)
    ensures AnswerOf(fmt, all, 0) == rc
  {
    hide TooMuch, Refused, WellFormed;
  }

  lemma FirstFits(fmt: Format, all: seq<Batch>, known: nat -> bool)
    requires Run(fmt, all, known) && all != []
    ensures AllWellFormed(all)
    ensures var b := all[0];
      && Fits(fmt, [], b, known) && Accepts(fmt, b.keys, b.values)
      && |b.keys| == |b.values| && SortedBy(b.keys, b.order)
      && Inputs(fmt, b.keys, b.values, b.order)
  {
    hide Harmless, Accepts, Permutes;
    PermutesRange(all[0].order, |all[0].keys|);
    assert all[..0] == [] && Fits(fmt, RunColumns(fmt, all[..0]), all[0], known);
  }

  lemma CreatedStep(fmt: Format, b: Batch, str: seq<Byte>, rec: Record, known: nat -> bool)
    requires Fits(fmt, [], b, known) && |b.keys| == |b.values| && Inputs(fmt, b.keys, b.values, b.order)
    requires rec == Plain(fmt, OffsetBytes(fmt, PlannedTotal(fmt, b.keys, b.values)), rec.cols)
    requires if b.keys == [] then str == [] && rec.cols == [] else DynRecord.Valid(rec) && str == Packed(rec)
    requires !Refused(b.keys) && Assigns(Content(rec.cols), fmt, b.keys, b.values)
    requires rec.cols == Cols(fmt, b.keys, b.values, b.order)
    ensures Holding(str, fmt, rec, [] + [b], known)
  {
    hide Content, Encoding, Cols, Updates, Harmless, SortedBy, Overrides, InOrder, Refused, KnownCharsets, OffsetBytes;
    hide DynRecord.Valid, Packed, Assigns, ReadHdr, PlannedTotal;
    var none := Plain(fmt, 0, []);
    EmptyContent([]);
    NothingCurrent(known);
    if b.keys != [] {
      HeaderRead(str, rec);
      CreatedShort(fmt, b.keys, b.values, rec);
    }
    AssignsOverrides(Content(rec.cols), fmt, b.keys, b.values, b.order);
    if AllNull(b.values) { OnlyNulls(fmt, b.keys, b.values, b.order); }
    Step(fmt, none, rec, str, [], b, known);
  }

  method Continue(str: seq<Byte>, fmt: Format, ghost rec: Record, ghost all: seq<Batch>, ghost i: nat, b: Batch,
                  known: nat -> bool)
    returns (rc: Code, str': seq<Byte>, ghost rec': Record)
    requires Run(fmt, all, known) && 0 < i < |all| && b == all[i] && Holding(str, fmt, rec, all[..i], known)
    ensures AllWellFormed(all) && rc == AnswerOf(fmt, all, i)
    ensures rc == Done ==> Holding(str', fmt, rec', all[..i + 1], known)
  {
    hide *;
    NextFits(str, fmt, rec, all, i, known);
    rc, str', rec' := Update(str, fmt, b.keys, b.values, b.order, rec);
    if rc == Done {
      UpdatedStep(str, fmt, rec, str', rec', all[..i], b, known);
      assert all[..i] + [b] == all[..i + 1];
    }
  }

  lemma NextFits(str: seq<Byte>, fmt: Format, rec: Record, all: seq<Batch>, i: nat, known: nat -> bool)
    requires Run(fmt, all, known) && 0 < i < |all| && Holding(str, fmt, rec, all[..i], known)
    ensures AllWellFormed(all) && AllWellFormed(all[..i]) && rec.cols == RunColumns(fmt, all[..i])
    ensures var b := all[i];
      && |b.keys| == |b.values| && Inputs(fmt, b.keys, b.values, b.order)
      && AnswerOf(fmt, all, i) == Answer(fmt, b.keys, b.values, b.order, rec.cols)
    ensures Stored(str, fmt, rec) && Straight(rec) && Fits(fmt, rec.cols, all[i], known)
    ensures var b := all[i];
      && |b.keys| == |b.values| && SortedBy(b.keys, b.order) && Inputs(fmt, b.keys, b.values, b.order)
      && Updates(fmt, b.keys, b.values, b.order, rec.cols)
  {
    hide Harmless, Updates, Permutes, Stored, Straight, Current, Answer;
    PermutesRange(all[i].order, |all[i].keys|);
  }

  /** What lookups see of the updated record is its columns. */
  lemma UpdatedStep(str: seq<Byte>, fmt: Format, rec: Record, str': seq<Byte>, rec': Record,
                    batches: seq<Batch>, b: Batch,
                    known: nat -> bool)
    requires Holding(str, fmt, rec, batches, known) && Fits(fmt, rec.cols, b, known)
    requires Inputs(fmt, b.keys, b.values, b.order)
    requires Stored(str', fmt, rec') && rec'.cols == ColumnsAfter(fmt, b.keys, b.values, b.order, rec.cols)
    requires ShortIntegers(rec.cols) ==> ShortIntegers(rec'.cols)
    requires if rec.cols == [] && AllNull(b.values) then rec' == rec else
      var ch := Changes(b.keys, b.values, b.order);
      && InOrder(ch) && (Overrides(Seen(rec'), Content(rec.cols), fmt, ch) <==> Harmless(fmt, rec.cols, ch))
      && (Straight(rec') <==> Harmless(fmt, rec.cols, ch))
    ensures Holding(str', fmt, rec', batches + [b], known)
  {
    hide Seen, Content, Straight, Harmless, Overrides, InOrder, Updates, ColumnsAfter, ShortIntegers, Current;
    hide KnownCharsets;
    hide DynRecord.Valid, Packed, SortedBy, AllNull;
    if rec'.cols == [] { NothingSeen(rec'); } else { SeenStraight(rec'); }
    Step(fmt, rec, rec', str', batches, b, known);
  }

  method Finish(str: seq<Byte>, fmt: Format, ghost rec: Record, ghost all: seq<Batch>, key: Key, known: nat -> bool)
    returns (r: Result<Value>)
    requires Holding(str, fmt, rec, all, known)
    requires (fmt == Numeric <==> key.Num?) && (key.Num? ==> key.number <= UINT_MAX16)
    ensures r == Ok(Kept(Latest(all, key)))
  {
    hide Content, Packed, DynRecord.Valid, ShortIntegers, Straight, Seen, Latest, Kept, RunColumns, Safe, ReadHdr;
    if str != [] {
      Readable(str, rec);
    } else {
      NothingSeen(rec);
    }
    r := Get(str, key, known, true, rec);
  }
}
