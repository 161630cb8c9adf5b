/** Concurrent energy collection in main.cpp: any number of request handlers, each a sequence of
    atomic steps on shared records and user totals, interleaved in any order. */
module Energy {
  import opened Basics
  import opened ThirtyPercent

  type UserId = string

  datatype Status = Empty | CollectedByOther | AllCollected
  datatype Payment = Payment(user: UserId, amount: nat)

  /** A record to collect from. `holder` is the handler that owns its mutex; `paid` is the history
      of payments made from it. */
  datatype Record = Record(owner: UserId, status: Status, energy: nat, modified: bool, holder: Option<nat>,
                           paid: seq<Payment>)

  /** Where a handler is in handle_request, from the record lookup on. */
  datatype Pc = Start | Checked | Waiting | Guard
    | OwnerPay | OwnerZero | OwnerStatus
    | OtherPay | OtherTake(share: nat) | OtherStatus
    | Unlock | Done

  datatype Handler = Handler(user: UserId, id: nat, pc: Pc)

  type Totals = map<UserId, nat>

  datatype State = State(records: seq<Option<Record>>, totals: Totals, handlers: seq<Handler>)

  /** `totals[user] += amount` on an unsigned 32-bit counter that starts at zero. */
  function Add(totals: Totals, user: UserId, amount: nat): Totals {
    totals[user := ((if user in totals then totals[user] else 0) + amount) % WORD]
  }

  /** One step of handler `h` on its record. */
  function Act(r: Record, totals: Totals, user: UserId, pc: Pc, h: nat): (Record, Totals, Pc) {
    match pc
    case Start => (r, totals, if r.status == AllCollected then Done else Checked)
    case Checked => (r.(modified := true), totals, Waiting)
    case Waiting => if r.holder.None? then (r.(holder := Some(h)), totals, Guard) else (r, totals, Waiting)
    case Guard =>
      var refused := r.status == AllCollected || (r.owner != user && (r.status != Empty || r.energy <= 3));
      (r, totals, if refused then Unlock else if r.owner == user then OwnerPay else OtherPay)
    case OwnerPay => (r.(paid := r.paid + [Payment(user, r.energy)]), Add(totals, user, r.energy), OwnerZero)
    case OwnerZero => (r.(energy := 0), totals, OwnerStatus)
    case OwnerStatus => (r.(status := AllCollected), totals, Unlock)
    case OtherPay =>
      var share := Share(r.energy);
      (r.(paid := r.paid + [Payment(user, share)]), Add(totals, user, share), OtherTake(share))
    case OtherTake(share) => (r.(energy := (r.energy - share) % WORD), totals, OtherStatus)
    case OtherStatus => (r.(status := CollectedByOther), totals, Unlock)
    case Unlock => (r.(holder := None), totals, Done)
    case Done => (r, totals, Done)
  }

  ghost predicate Exists(s: State, id: nat) {
    id < |s.records| && s.records[id].Some?
  }

  function Next(s: State, h: nat): State
    requires h < |s.handlers|
  {
    var k := s.handlers[h];
    if k.id < |s.records| && s.records[k.id].Some? then
      var (r, totals, pc) := Act(s.records[k.id].value, s.totals, k.user, k.pc, h);
      State(s.records[k.id := Some(r)], totals, s.handlers[h := k.(pc := pc)])
    else
      s.(handlers := s.handlers[h := k.(pc := Done)])
  }

  ghost predicate Step(s: State, s': State) {
    exists h :: 0 <= h < |s.handlers| && s' == Next(s, h)
  }

  // ---- What every step keeps ----

  /** The record when the payment in progress, if any, is completed. */
  function Completed(r: Record, pc: Pc): Record {
    match pc
    case OwnerZero => r.(energy := 0, status := AllCollected)
    case OwnerStatus => r.(status := AllCollected)
    case OtherTake(share) => r.(energy := if share <= r.energy then r.energy - share else 0, status := CollectedByOther)
    case OtherStatus => r.(status := CollectedByOther)
    case _ => r
  }

  function PcOf(handlers: seq<Handler>, holder: Option<nat>): Pc {
    if holder.Some? && holder.value < |handlers| then handlers[holder.value].pc else Done
  }

  /** Payments from a record that held `initial`: another user at most once and before the owner,
      who gets all that is left, at most once. */
  ghost predicate Settled(r: Record, initial: nat) {
    var share := Share(initial);
    match r.status
    case Empty => r.paid == [] && r.energy == initial
    case CollectedByOther =>
      && |r.paid| == 1 && initial > 3 && r.paid[0].user != r.owner && r.paid[0].amount == share
      && r.energy == initial - share
    case AllCollected =>
      && r.energy == 0
      && (r.paid == [Payment(r.owner, initial)]
          || (|r.paid| == 2 && initial > 3 && r.paid[0].user != r.owner && r.paid[0].amount == share
              && r.paid[1] == Payment(r.owner, initial - share)))
  }

  ghost predicate Holding(pc: Pc) {
    pc != Start && pc != Checked && pc != Waiting && pc != Done
  }

  ghost predicate Paying(pc: Pc) {
    pc == OwnerZero || pc == OwnerStatus || pc.OtherTake? || pc == OtherStatus
  }

  /** What the guard established for the handler that is about to pay or paying. */
  ghost predicate Allowed(r: Record, user: UserId, pc: Pc) {
    && (pc == OwnerPay || Paying(pc) ==> r.status != AllCollected)
    && (pc == OwnerPay ==> user == r.owner)
    && (pc == OtherPay ==> user != r.owner && r.status == Empty && r.energy > 3)
    && (pc == OwnerStatus ==> r.energy == 0)
    && (pc.OtherTake? ==> pc.share <= r.energy)
  }

  /** A record and the step its holder is at. */
  ghost predicate LocalOk(r: Record, initial: nat, user: UserId, pc: Pc) {
    && initial < WORD && r.energy <= initial
    && (if r.holder.Some? then Holding(pc) && Allowed(r, user, pc) else pc == Done)
    && Settled(Completed(r, pc), initial)
    && (r.holder.Some? || r.status != Empty || r.energy != initial ==> r.modified)
  }

  ghost predicate RecordOk(r: Record, initial: nat, handlers: seq<Handler>, id: nat) {
    && (r.holder.Some? ==> r.holder.value < |handlers| && handlers[r.holder.value].id == id)
    && LocalOk(r, initial, UserOf(handlers, r.holder), PcOf(handlers, r.holder))
  }

  function UserOf(handlers: seq<Handler>, holder: Option<nat>): UserId {
    if holder.Some? && holder.value < |handlers| then handlers[holder.value].user else ""
  }

  ghost predicate HandlerOk(s: State, h: nat)
    requires h < |s.handlers|
  {
    var k := s.handlers[h];
    && (k.pc != Start && k.pc != Done ==> Exists(s, k.id))
    && (Exists(s, k.id) ==>
        var r := s.records[k.id].value;
        && (Holding(k.pc) <==> r.holder == Some(h))
        && (k.pc == Waiting ==> r.modified))
  }

  /** What the total of the acting user gains in a step. */
  function Gain(r: Record, pc: Pc): nat {
    if pc == OwnerPay then r.energy else if pc == OtherPay then Share(r.energy) else 0
  }

  /** The holder of a record moves: the record stays consistent, and what the total gains the
      record loses. */
  lemma HolderSteps(r: Record, initial: nat, totals: Totals, user: UserId, pc: Pc, h: nat)
    requires r.holder == Some(h) && LocalOk(r, initial, user, pc)
    ensures var (r', totals', pc') := Act(r, totals, user, pc, h);
      && LocalOk(r', initial, user, pc') && (r'.holder == Some(h) || (r'.holder.None? && pc' == Done))
      && Completed(r, pc).energy == Completed(r', pc').energy + Gain(r, pc) && r'.modified
      && (Holding(pc') <==> r'.holder == Some(h)) && pc' != Waiting
  {
    ShareAtMost(r.energy);
    ShareAtMost(initial);
    hide Share;
  }

  /** Another handler moves: it may only mark the record, or take a free mutex. */
  lemma OtherSteps(r: Record, initial: nat, totals: Totals, user: UserId, pc: Pc, h: nat, holder: UserId, at: Pc)
    requires r.holder != Some(h) && !Holding(pc) && LocalOk(r, initial, holder, at) && (pc == Waiting ==> r.modified)
    ensures var (r', totals', pc') := Act(r, totals, user, pc, h);
      && totals' == totals && Gain(r, pc) == 0 && r'.energy == r.energy
      && (if r'.holder == Some(h) then r.holder.None? && pc' == Guard && LocalOk(r', initial, user, pc')
          else r'.holder == r.holder && !Holding(pc') && LocalOk(r', initial, holder, at))
      && (pc' == Waiting ==> r'.modified) && (r.modified ==> r'.modified)
      && Completed(r, at).energy == Completed(r', if r'.holder == Some(h) then pc' else at).energy
  {
  }

  // ---- Sums ----

  ghost function SumOf(totals: Totals): nat {
    if totals == map[] then 0 else
      var u :| u in totals;
      totals[u] + SumOf(totals - {u})
  }

  lemma {:induction false} SumPick(totals: Totals, u: UserId)
    requires u in totals
    ensures SumOf(totals) == totals[u] + SumOf(totals - {u})
    decreases |totals|
  {
    var v :| v in totals && SumOf(totals) == totals[v] + SumOf(totals - {v});
    if v != u {
      SumPick(totals - {v}, u);
      SumPick(totals - {u}, v);
      assert totals - {v} - {u} == totals - {u} - {v};
    }
  }

  /** A payment that does not wrap around adds its amount to the sum. */
  lemma SumAdd(totals: Totals, user: UserId, amount: nat)
    requires SumOf(totals) + amount < WORD
    ensures SumOf(Add(totals, user, amount)) == SumOf(totals) + amount
  {
    var totals' := Add(totals, user, amount);
    SumPick(totals', user);
    assert totals' - {user} == totals - {user};
    if user in totals {
      SumPick(totals, user);
    } else {
      assert totals - {user} == totals;
    }
  }

  /** What is left to collect from a record when the payment in progress is completed. */
  ghost function LeftAt(s: State, i: nat): nat
    requires i < |s.records|
  {
    match s.records[i]
    case None => 0
    case Some(r) => Completed(r, PcOf(s.handlers, r.holder)).energy
  }

  ghost function Left(s: State, n: nat): nat
    requires n <= |s.records|
  {
    if n == 0 then 0 else Left(s, n - 1) + LeftAt(s, n - 1)
  }

  lemma {:induction false} LeftChange(s: State, s': State, n: nat, id: nat)
    requires |s.records| == |s'.records| && n <= |s.records|
    requires forall i :: 0 <= i < n && i != id ==> LeftAt(s, i) == LeftAt(s', i)
    ensures Left(s, n) - Left(s', n) == if id < n then LeftAt(s, id) - LeftAt(s', id) else 0
  {
    hide LeftAt;
    if n > 0 {
      LeftChange(s, s', n - 1, id);
    }
  }

  lemma {:induction false} LeftAtMost(s: State, n: nat, id: nat)
    requires id < n <= |s.records|
    ensures LeftAt(s, id) <= Left(s, n)
  {
    hide LeftAt;
    if n - 1 > id {
      LeftAtMost(s, n - 1, id);
    }
  }

  // ---- The invariant of all runs ----

  ghost predicate Inv(s: State, initial: seq<nat>, sum: nat) {
    && |initial| == |s.records| && sum < WORD
    && (forall i :: 0 <= i < |s.records| && s.records[i].Some? ==>
        RecordOk(s.records[i].value, initial[i], s.handlers, i))
    && (forall h :: 0 <= h < |s.handlers| ==> HandlerOk(s, h))
    && SumOf(s.totals) + Left(s, |s.records|) == sum
  }

  /** The server after loading: nothing collected, no request begun. */
  ghost predicate Initial(s: State, initial: seq<nat>, sum: nat) {
    && |initial| == |s.records| && sum < WORD
    && (forall i :: 0 <= i < |s.records| && s.records[i].Some? ==>
        var r := s.records[i].value;
        r.status == Empty && r.energy == initial[i] < WORD && !r.modified && r.holder.None? && r.paid == [])
    && (forall h :: 0 <= h < |s.handlers| ==> s.handlers[h].pc == Start)
    && SumOf(s.totals) + Left(s, |s.records|) == sum
  }

  lemma InitialInv(s: State, initial: seq<nat>, sum: nat)
    requires Initial(s, initial, sum)
    ensures Inv(s, initial, sum)
  {
  }

  lemma GainAdds(r: Record, totals: Totals, user: UserId, pc: Pc, h: nat)
    requires SumOf(totals) + Gain(r, pc) < WORD
    ensures SumOf(Act(r, totals, user, pc, h).1) == SumOf(totals) + Gain(r, pc)
  {
    if pc == OwnerPay || pc == OtherPay {
      SumAdd(totals, user, Gain(r, pc));
    }
  }

  /** The record that handler `h` works on, and what is left in it. */
  lemma OwnRecord(s: State, initial: seq<nat>, sum: nat, h: nat)
    requires Inv(s, initial, sum) && h < |s.handlers| && Exists(s, s.handlers[h].id)
    ensures var (k, s') := (s.handlers[h], Next(s, h)); var i := k.id;
      var (r, r') := (s.records[i].value, s'.records[i].value);
      && RecordOk(r', initial[i], s'.handlers, i) && HandlerOk(s', h)
      && LeftAt(s, i) == LeftAt(s', i) + Gain(r, k.pc)
      && (r'.holder == r.holder || r'.holder == Some(h) || r'.holder.None?)
      && (r'.holder != r.holder ==> r.holder.None? || r.holder == Some(h)) && (r.modified ==> r'.modified)
  {
    var k := s.handlers[h];
    var r := s.records[k.id].value;
    assert RecordOk(r, initial[k.id], s.handlers, k.id) && HandlerOk(s, h);
    hide Inv, LocalOk, Act, Gain, Holding, Completed;
    if r.holder == Some(h) {
      HolderSteps(r, initial[k.id], s.totals, k.user, k.pc, h);
    } else {
      OtherSteps(r, initial[k.id], s.totals, k.user, k.pc, h, UserOf(s.handlers, r.holder), PcOf(s.handlers, r.holder));
    }
  }

  lemma OtherRecord(s: State, initial: seq<nat>, sum: nat, h: nat, j: nat)
    requires Inv(s, initial, sum) && h < |s.handlers| && j < |s.records| && j != s.handlers[h].id
    ensures var s' := Next(s, h);
      && s'.records[j] == s.records[j] && LeftAt(s', j) == LeftAt(s, j)
      && (s.records[j].Some? ==> RecordOk(s'.records[j].value, initial[j], s'.handlers, j))
  {
    assert s.records[j].Some? ==> RecordOk(s.records[j].value, initial[j], s.handlers, j);
    hide Inv, LocalOk, Act, Completed;
  }

  lemma OtherHandler(s: State, initial: seq<nat>, sum: nat, h: nat, g: nat)
    requires Inv(s, initial, sum) && h < |s.handlers| && g < |s.handlers| && g != h
    ensures HandlerOk(Next(s, h), g)
  {
    assert HandlerOk(s, g);
    if Exists(s, s.handlers[h].id) {
      OwnRecord(s, initial, sum, h);
    }
    hide Inv, LocalOk, Act, Completed, Holding, RecordOk, LeftAt, Gain;
  }

  lemma SumKept(s: State, initial: seq<nat>, sum: nat, h: nat)
    requires Inv(s, initial, sum) && h < |s.handlers|
    ensures var s' := Next(s, h); |s'.records| == |s.records| && SumOf(s'.totals) + Left(s', |s.records|) == sum
  {
    var k, s', n := s.handlers[h], Next(s, h), |s.records|;
    forall j | 0 <= j < n && j != k.id ensures LeftAt(s, j) == LeftAt(s', j) {
      OtherRecord(s, initial, sum, h, j);
    }
    LeftChange(s, s', n, k.id);
    if Exists(s, k.id) {
      OwnRecord(s, initial, sum, h);
      LeftAtMost(s, n, k.id);
      GainAdds(s.records[k.id].value, s.totals, k.user, k.pc, h);
    }
    hide Left, LeftAt, SumOf, LocalOk, Act, Completed, RecordOk, HandlerOk, Gain;
  }

  lemma StepKeeps(s: State, initial: seq<nat>, sum: nat, h: nat)
    requires Inv(s, initial, sum) && h < |s.handlers|
    ensures Inv(Next(s, h), initial, sum)
  {
    var k, s' := s.handlers[h], Next(s, h);
    SumKept(s, initial, sum, h);
    if Exists(s, k.id) {
      OwnRecord(s, initial, sum, h);
    }
    assert HandlerOk(s, h);
    hide Left, LeftAt, SumOf, LocalOk, Act, Completed, RecordOk, Gain;
    forall j | 0 <= j < |s.records| && s'.records[j].Some?
      ensures RecordOk(s'.records[j].value, initial[j], s'.handlers, j)
    {
      if j != k.id { OtherRecord(s, initial, sum, h, j); }
    }
    forall g | 0 <= g < |s.handlers| ensures HandlerOk(s', g) {
      if g != h { OtherHandler(s, initial, sum, h, g); }
    }
  }

  // ---- Every user is credited exactly what was paid to them ----

  function TotalOf(totals: Totals, u: UserId): nat {
    if u in totals then totals[u] else 0
  }

  ghost function PaidTo(paid: seq<Payment>, u: UserId): nat {
    if paid == [] then 0 else
      var last := paid[|paid| - 1];
      PaidTo(paid[..|paid| - 1], u) + if last.user == u then last.amount else 0
  }

  ghost function PaidAt(s: State, i: nat, u: UserId): nat
    requires i < |s.records|
  {
    if s.records[i].Some? then PaidTo(s.records[i].value.paid, u) else 0
  }

  ghost function PaidBy(s: State, n: nat, u: UserId): nat
    requires n <= |s.records|
  {
    if n == 0 then 0 else PaidBy(s, n - 1, u) + PaidAt(s, n - 1, u)
  }

  lemma {:induction false} PaidChange(s: State, s': State, n: nat, id: nat, u: UserId)
    requires |s.records| == |s'.records| && n <= |s.records|
    requires forall i :: 0 <= i < n && i != id ==> s.records[i] == s'.records[i]
    ensures PaidBy(s', n, u) - PaidBy(s, n, u) == if id < n then PaidAt(s', id, u) - PaidAt(s, id, u) else 0
  {
    if n > 0 {
      PaidChange(s, s', n - 1, id, u);
      assert n - 1 != id ==> PaidAt(s, n - 1, u) == PaidAt(s', n - 1, u);
    }
    hide PaidAt;
  }

  ghost predicate Credited(s: State, before: Totals) {
    forall u :: TotalOf(s.totals, u) == TotalOf(before, u) + PaidBy(s, |s.records|, u)
  }

  lemma TotalAtMost(totals: Totals, u: UserId)
    ensures TotalOf(totals, u) <= SumOf(totals)
  {
    if u in totals { SumPick(totals, u); }
  }

  /** A step that pays credits the same amount to the same user that the history names. */
  lemma ActCredits(r: Record, totals: Totals, user: UserId, pc: Pc, h: nat, u: UserId)
    requires SumOf(totals) + Gain(r, pc) < WORD
    ensures var (r', totals', pc') := Act(r, totals, user, pc, h);
      TotalOf(totals', u) - TotalOf(totals, u) == PaidTo(r'.paid, u) - PaidTo(r.paid, u)
  {
    TotalAtMost(totals, user);
    PaidMore(r.paid, Payment(user, Gain(r, pc)), u);
    AddCredits(totals, user, Gain(r, pc), u);
    hide PaidTo, TotalOf, Add, SumOf, Share;
  }

  lemma PaidMore(paid: seq<Payment>, p: Payment, u: UserId)
    ensures PaidTo(paid + [p], u) == PaidTo(paid, u) + if p.user == u then p.amount else 0
  {
    assert (paid + [p])[..|paid|] == paid;
  }

  lemma AddCredits(totals: Totals, user: UserId, amount: nat, u: UserId)
    requires TotalOf(totals, user) + amount < WORD
    ensures TotalOf(Add(totals, user, amount), u) == TotalOf(totals, u) + if user == u then amount else 0
  {
  }

  lemma StepCredits(s: State, initial: seq<nat>, sum: nat, before: Totals, h: nat)
    requires Inv(s, initial, sum) && Credited(s, before) && h < |s.handlers|
    ensures Credited(Next(s, h), before)
  {
    var k, s', n := s.handlers[h], Next(s, h), |s.records|;
    if Exists(s, k.id) {
      OwnRecord(s, initial, sum, h);
      LeftAtMost(s, n, k.id);
    }
    hide Left, LeftAt, SumOf, LocalOk, Act, Completed, RecordOk, HandlerOk, Gain, PaidBy, PaidTo;
    forall u ensures TotalOf(s'.totals, u) == TotalOf(before, u) + PaidBy(s', n, u) {
      PaidChange(s, s', n, k.id, u);
      if Exists(s, k.id) {
        ActCredits(s.records[k.id].value, s.totals, k.user, k.pc, h, u);
      }
    }
  }

  // ---- Results for all runs ----

  ghost predicate Run(run: seq<State>) {
    run != [] && forall i :: 0 <= i < |run| - 1 ==> Step(run[i], run[i + 1])
  }

  lemma StepTo(run: seq<State>, i: nat) returns (h: nat)
    requires Run(run) && 0 < i < |run|
    ensures h < |run[i - 1].handlers| && run[i] == Next(run[i - 1], h)
  {
    assert Step(run[i - 1], run[i]);
    h :| 0 <= h < |run[i - 1].handlers| && run[i] == Next(run[i - 1], h);
  }

  lemma {:induction false} NothingPaidYet(s: State, n: nat, u: UserId)
    requires n <= |s.records|
    requires forall i :: 0 <= i < n && s.records[i].Some? ==> s.records[i].value.paid == []
    ensures PaidBy(s, n, u) == 0
  {
    if n > 0 { NothingPaidYet(s, n - 1, u); }
  }

  lemma {:induction false} Reachable(run: seq<State>, initial: seq<nat>, sum: nat, i: nat)
    requires Run(run) && Initial(run[0], initial, sum) && i < |run|
    ensures Inv(run[i], initial, sum) && Credited(run[i], run[0].totals)
  {
    if i == 0 {
      InitialInv(run[0], initial, sum);
      forall u ensures PaidBy(run[0], |run[0].records|, u) == 0 {
        NothingPaidYet(run[0], |run[0].records|, u);
      }
    } else {
      Reachable(run, initial, sum, i - 1);
      var s := run[i - 1];
      var h := StepTo(run, i);
      hide Inv, Credited, Next;
      StepKeeps(s, initial, sum, h);
      StepCredits(s, initial, sum, run[0].totals, h);
    }
  }

  ghost function Uncollected(s: State, n: nat): nat
    requires n <= |s.records|
  {
    if n == 0 then 0 else
      Uncollected(s, n - 1) + if s.records[n - 1].Some? then s.records[n - 1].value.energy else 0
  }

  ghost predicate NobodyPays(s: State) {
    forall h :: 0 <= h < |s.handlers| ==> !Paying(s.handlers[h].pc)
  }

  lemma {:induction false} QuietLeft(s: State, n: nat)
    requires n <= |s.records| && NobodyPays(s)
    ensures Left(s, n) == Uncollected(s, n)
  {
    if n > 0 { QuietLeft(s, n - 1); }
  }

  /** Energy is conserved: user totals and uncollected energy together never change, except while
      a payment is half done. */
  lemma Conservation(run: seq<State>, initial: seq<nat>, sum: nat, i: nat)
    requires Run(run) && Initial(run[0], initial, sum) && i < |run| && NobodyPays(run[i])
    ensures SumOf(run[i].totals) + Uncollected(run[i], |run[i].records|) == sum
  {
    Reachable(run, initial, sum, i);
    QuietLeft(run[i], |run[i].records|);
  }

  /** Another user once and first, the owner once and last. */
  ghost predicate PaidInOrder(paid: seq<Payment>, owner: UserId, initial: nat) {
    || paid == []
    || paid == [Payment(owner, initial)]
    || (initial > 3 && paid[0].user != owner && paid[0].amount == Share(initial)
        && (|paid| == 1 || paid == [paid[0], Payment(owner, initial - Share(initial))]))
  }

  /** In every reachable state of every interleaving, for every record. */
  lemma Payments(run: seq<State>, initial: seq<nat>, sum: nat, i: nat, id: nat)
    requires Run(run) && Initial(run[0], initial, sum) && i < |run| && Exists(run[i], id) && id < |initial|
    ensures var r := run[i].records[id].value;
      && PaidInOrder(r.paid, r.owner, initial[id])
      && (r.status == AllCollected ==> r.energy == 0 && r.paid != [] && r.paid[|r.paid| - 1].user == r.owner)
      && (r.status != Empty || r.energy != initial[id] || r.paid != [] ==> r.modified)
      && (r.holder.None? ==> Settled(r, initial[id]))
  {
    Reachable(run, initial, sum, i);
    var s := run[i];
    assert RecordOk(s.records[id].value, initial[id], s.handlers, id);
    ShareAtMost(initial[id]);
    hide Inv, Share, Next;
  }

  /** No two handlers are inside the critical section of the same record. */
  lemma MutualExclusion(run: seq<State>, initial: seq<nat>, sum: nat, i: nat, g: nat, h: nat)
    requires Run(run) && Initial(run[0], initial, sum) && i < |run|
    requires g < |run[i].handlers| && h < |run[i].handlers| && run[i].handlers[g].id == run[i].handlers[h].id
    requires Holding(run[i].handlers[g].pc) && Holding(run[i].handlers[h].pc)
    ensures g == h
  {
    Reachable(run, initial, sum, i);
    assert HandlerOk(run[i], g) && HandlerOk(run[i], h);
  }

  /** While a request is unfinished, some handler can move. */
  lemma NoDeadlock(run: seq<State>, initial: seq<nat>, sum: nat, i: nat, h: nat)
    requires Run(run) && Initial(run[0], initial, sum) && i < |run|
    requires h < |run[i].handlers| && run[i].handlers[h].pc != Done
    ensures exists g :: 0 <= g < |run[i].handlers| && Next(run[i], g) != run[i]
  {
    Reachable(run, initial, sum, i);
    var s := run[i];
    var k := s.handlers[h];
    assert HandlerOk(s, h);
    if k.pc == Waiting && s.records[k.id].value.holder.Some? {
      var g := s.records[k.id].value.holder.value;
      assert RecordOk(s.records[k.id].value, initial[k.id], s.handlers, k.id);
      Moves(s, g);
    } else {
      Moves(s, h);
    }
  }

  lemma Moves(s: State, h: nat)
    requires h < |s.handlers| && s.handlers[h].pc != Done
    requires s.handlers[h].pc == Waiting && Exists(s, s.handlers[h].id) ==>
      s.records[s.handlers[h].id].value.holder.None?
    ensures Next(s, h) != s
  {
    assert Next(s, h).handlers[h].pc != s.handlers[h].pc;
  }

  // ---- Every run comes to an end ----

  /** How many steps a handler takes at most. */
  function Ahead(pc: Pc): nat {
    match pc
    case Start => 8
    case Checked => 7
    case Waiting => 6
    case Guard => 5
    case OwnerPay => 4
    case OtherPay => 4
    case OwnerZero => 3
    case OtherTake(_) => 3
    case OwnerStatus => 2
    case OtherStatus => 2
    case Unlock => 1
    case Done => 0
  }

  ghost function Work(handlers: seq<Handler>): nat {
    if handlers == [] then 0 else Work(handlers[..|handlers| - 1]) + Ahead(handlers[|handlers| - 1].pc)
  }

  /** A handler that does not wait for a mutex in vain gets nearer to its end. */
  lemma ActAdvances(r: Record, totals: Totals, user: UserId, pc: Pc, h: nat)
    ensures var (r', totals', pc') := Act(r, totals, user, pc, h);
      if (r', totals', pc') == (r, totals, pc) then pc == Done || pc == Waiting else Ahead(pc') < Ahead(pc)
  {
  }

  lemma {:induction false} WorkAt(handlers: seq<Handler>, h: nat, k: Handler)
    requires h < |handlers|
    ensures Work(handlers[h := k]) - Work(handlers) == Ahead(k.pc) - Ahead(handlers[h].pc)
  {
    hide Ahead;
    var n := |handlers| - 1;
    if h < n {
      WorkAt(handlers[..n], h, k);
      assert handlers[h := k][..n] == handlers[..n][h := k];
    } else {
      assert handlers[h := k][..n] == handlers[..n];
    }
  }

  lemma NextAdvances(s: State, h: nat)
    requires h < |s.handlers|
    ensures Next(s, h) == s || Work(Next(s, h).handlers) < Work(s.handlers)
  {
    var k := s.handlers[h];
    WorkAt(s.handlers, h, Next(s, h).handlers[h]);
    if k.id < |s.records| && s.records[k.id].Some? {
      ActAdvances(s.records[k.id].value, s.totals, k.user, k.pc, h);
    }
    hide Act, Work;
    assert s.handlers[h := k] == s.handlers;
  }

  /** The steps among the first `n` that change anything. */
  ghost function Changes(run: seq<State>, n: nat): nat
    requires n < |run|
  {
    if n == 0 then 0 else Changes(run, n - 1) + if run[n] == run[n - 1] then 0 else 1
  }

  lemma {:induction false} ChangesUseWork(run: seq<State>, n: nat)
    requires Run(run) && n < |run|
    ensures Changes(run, n) + Work(run[n].handlers) <= Work(run[0].handlers)
  {
    if n > 0 {
      ChangesUseWork(run, n - 1);
      var h := StepTo(run, n);
      NextAdvances(run[n - 1], h);
    }
  }

  lemma {:induction false} WorkAtStart(handlers: seq<Handler>)
    requires forall h :: 0 <= h < |handlers| ==> handlers[h].pc == Start
    ensures Work(handlers) == 8 * |handlers|
  {
    if handlers != [] { WorkAtStart(handlers[..|handlers| - 1]); }
  }

  /** The steps among the first `n` in which handler `h` gets on. */
  ghost function Moved(run: seq<State>, h: nat, n: nat): nat
    requires n < |run| && forall i :: 0 <= i <= n ==> h < |run[i].handlers|
  {
    if n == 0 then 0 else Moved(run, h, n - 1) + if run[n].handlers[h] == run[n - 1].handlers[h] then 0 else 1
  }

  lemma {:induction false} SameHandlers(run: seq<State>, n: nat)
    requires Run(run) && n < |run|
    ensures forall i :: 0 <= i <= n ==> |run[i].handlers| == |run[0].handlers|
  {
    if n > 0 {
      SameHandlers(run, n - 1);
      assert Step(run[n - 1], run[n]);
    }
  }

  /** A step changes the state exactly when one handler gets on, and then no other one does. */
  lemma OneMoves(s: State, s': State, h: nat)
    requires Step(s, s') && h < |s.handlers|
    ensures |s'.handlers| == |s.handlers|
    ensures s'.handlers[h] != s.handlers[h] ==>
      && Ahead(s'.handlers[h].pc) < Ahead(s.handlers[h].pc)
      && forall g :: 0 <= g < |s.handlers| && g != h ==> s'.handlers[g] == s.handlers[g]
    ensures s' != s ==> exists g :: 0 <= g < |s.handlers| && s'.handlers[g] != s.handlers[g]
  {
    var k :| 0 <= k < |s.handlers| && s' == Next(s, k);
    NextAdvances(s, k);
    hide Next, Act, Ahead;
    OnlyActs(s, k);
  }

  lemma OnlyActs(s: State, h: nat)
    requires h < |s.handlers|
    ensures var s' := Next(s, h);
      && |s'.handlers| == |s.handlers|
      && (forall g :: 0 <= g < |s.handlers| && g != h ==> s'.handlers[g] == s.handlers[g])
      && (s' != s ==> Ahead(s'.handlers[h].pc) < Ahead(s.handlers[h].pc))
  {
    var k := s.handlers[h];
    if k.id < |s.records| && s.records[k.id].Some? {
      ActAdvances(s.records[k.id].value, s.totals, k.user, k.pc, h);
    }
    hide Act;
    assert s.handlers[h := k] == s.handlers;
  }

  lemma {:induction false} MovesUseWork(run: seq<State>, h: nat, n: nat)
    requires Run(run) && n < |run| && h < |run[0].handlers|
    ensures forall i :: 0 <= i <= n ==> |run[i].handlers| == |run[0].handlers|
    ensures Moved(run, h, n) + Ahead(run[n].handlers[h].pc) <= Ahead(run[0].handlers[h].pc)
  {
    SameHandlers(run, n);
    if n > 0 {
      MovesUseWork(run, h, n - 1);
      assert Step(run[n - 1], run[n]);
      OneMoves(run[n - 1], run[n], h);
      hide Ahead, Step;
    }
  }

  /** However the handlers interleave, each one gets on in at most eight steps, and with all of them
      together at most eight times their number change anything. */
  lemma StepsBounded(run: seq<State>, initial: seq<nat>, sum: nat, n: nat)
    requires Run(run) && Initial(run[0], initial, sum) && n < |run|
    ensures forall i :: 0 <= i <= n ==> |run[i].handlers| == |run[0].handlers|
    ensures forall h :: 0 <= h < |run[0].handlers| ==> Moved(run, h, n) <= 8
    ensures Changes(run, n) <= 8 * |run[0].handlers|
  {
    ChangesUseWork(run, n);
    WorkAtStart(run[0].handlers);
    SameHandlers(run, n);
    forall h | 0 <= h < |run[0].handlers| ensures Moved(run, h, n) <= 8 {
      MovesUseWork(run, h, n);
    }
  }

  /** And when nobody can change anything any more, every request is finished. */
  lemma AllFinish(run: seq<State>, initial: seq<nat>, sum: nat, i: nat)
    requires Run(run) && Initial(run[0], initial, sum) && i < |run|
    ensures (forall g :: 0 <= g < |run[i].handlers| ==> Next(run[i], g) == run[i])
       <==> (forall h :: 0 <= h < |run[i].handlers| ==> run[i].handlers[h].pc == Done)
  {
    var s := run[i];
    if h :| 0 <= h < |s.handlers| && s.handlers[h].pc != Done {
      NoDeadlock(run, initial, sum, i, h);
    } else {
      forall g | 0 <= g < |s.handlers| ensures Next(s, g) == s {
        DoneRests(s, g);
      }
    }
  }

  // ---- Every request gets what it may ----

  /** There is nothing more to get from the record for this user. */
  ghost predicate Served(r: Record, user: UserId) {
    if user == r.owner then r.status == AllCollected else r.status != Empty || r.energy <= 3
  }

  /** A handler pays as the user it is, and leaves the critical section only when it is served. */
  ghost predicate Serving(r: Record, user: UserId, pc: Pc) {
    && (pc == OwnerPay || pc == OwnerZero || pc == OwnerStatus ==> user == r.owner)
    && (pc == OtherPay || pc.OtherTake? || pc == OtherStatus ==> user != r.owner)
    && (pc == Unlock || pc == Done ==> Served(r, user))
  }

  ghost predicate AllServing(s: State) {
    forall h :: 0 <= h < |s.handlers| && Exists(s, s.handlers[h].id) ==>
      Serving(s.records[s.handlers[h].id].value, s.handlers[h].user, s.handlers[h].pc)
  }

  /** A handler serves its user, and what another user was served is never undone. */
  lemma ActServes(r: Record, initial: nat, totals: Totals, user: UserId, pc: Pc, h: nat, u: UserId, at: Pc)
    requires if Holding(pc) then LocalOk(r, initial, user, pc) && r.holder == Some(h) else r.energy < WORD
    requires Serving(r, user, pc) && Serving(r, u, at)
    ensures var (r', totals', pc') := Act(r, totals, user, pc, h); Serving(r', user, pc') && Serving(r', u, at)
  {
    hide Settled, Add, Share;
  }

  lemma StepServes(s: State, initial: seq<nat>, sum: nat, h: nat)
    requires Inv(s, initial, sum) && AllServing(s) && h < |s.handlers|
    ensures AllServing(Next(s, h))
  {
    var k, s' := s.handlers[h], Next(s, h);
    forall g | 0 <= g < |s'.handlers| && Exists(s', s'.handlers[g].id)
      ensures Serving(s'.records[s'.handlers[g].id].value, s'.handlers[g].user, s'.handlers[g].pc)
    {
      if Exists(s, k.id) {
        var (r, l) := (s.records[k.id].value, s.handlers[g]);
        assert RecordOk(r, initial[k.id], s.handlers, k.id) && HandlerOk(s, h);
        var (u, at) := if l.id == k.id then (l.user, l.pc) else (k.user, k.pc);
        hide Inv, Act, Serving, Settled, Holding;
        ActServes(r, initial[k.id], s.totals, k.user, k.pc, h, u, at);
      }
    }
  }

  lemma {:induction false} ReachableServes(run: seq<State>, initial: seq<nat>, sum: nat, i: nat)
    requires Run(run) && Initial(run[0], initial, sum) && i < |run|
    ensures AllServing(run[i])
  {
    if i > 0 {
      ReachableServes(run, initial, sum, i - 1);
      Reachable(run, initial, sum, i - 1);
      var h := StepTo(run, i);
      hide Inv, AllServing, Next, Initial;
      StepServes(run[i - 1], initial, sum, h);
    }
  }

  /** In every state of every run a finished request has got what it may: after the owner's, the
      record is fully collected, and after another user's, somebody was paid or there are at most
      3 to collect. */
  lemma FinishedIsServed(run: seq<State>, initial: seq<nat>, sum: nat, i: nat, h: nat)
    requires Run(run) && Initial(run[0], initial, sum) && i < |run|
    requires h < |run[i].handlers| && run[i].handlers[h].pc == Done && Exists(run[i], run[i].handlers[h].id)
    ensures Served(run[i].records[run[i].handlers[h].id].value, run[i].handlers[h].user)
  {
    ReachableServes(run, initial, sum, i);
  }

  lemma ServedStays(s: State, initial: seq<nat>, sum: nat, h: nat, id: nat, u: UserId)
    requires Inv(s, initial, sum) && AllServing(s) && h < |s.handlers|
    requires Exists(s, id) && Served(s.records[id].value, u)
    ensures var s' := Next(s, h); Exists(s', id) && Served(s'.records[id].value, u)
  {
    var k := s.handlers[h];
    if k.id == id {
      assert RecordOk(s.records[id].value, initial[id], s.handlers, id) && HandlerOk(s, h);
      hide Inv, Act, Settled;
      ActServes(s.records[id].value, initial[id], s.totals, k.user, k.pc, h, u, Done);
    }
  }

  /** It stays so: a user who is served once is served in every later state. */
  lemma {:induction false} ServedForEver(run: seq<State>, initial: seq<nat>, sum: nat, i: nat, j: nat,
                                         id: nat, u: UserId)
    requires Run(run) && Initial(run[0], initial, sum) && i <= j < |run|
    requires Exists(run[i], id) && Served(run[i].records[id].value, u)
    ensures Exists(run[j], id) && Served(run[j].records[id].value, u)
  {
    hide *;
    if i < j {
      ServedForEver(run, initial, sum, i, j - 1, id, u);
      Reachable(run, initial, sum, j - 1);
      ReachableServes(run, initial, sum, j - 1);
      var h := StepTo(run, j);
      ServedStays(run[j - 1], initial, sum, h, id, u);
    }
  }

  /** When nobody can change anything any more, a record that its owner asked for is paid out, and
      one of more than 3 that any user asked for has been paid from. */
  lemma AllServed(run: seq<State>, initial: seq<nat>, sum: nat, i: nat, h: nat)
    requires Run(run) && Initial(run[0], initial, sum) && i < |run| && h < |run[i].handlers|
    requires forall g :: 0 <= g < |run[i].handlers| ==> Next(run[i], g) == run[i]
    requires Exists(run[i], run[i].handlers[h].id) && run[i].handlers[h].id < |initial|
    ensures var (k, amount) := (run[i].handlers[h], initial[run[i].handlers[h].id]);
      var r := run[i].records[k.id].value;
      if k.user == r.owner then
        r.energy == 0 && (r.paid == [Payment(k.user, amount)]
          || (|r.paid| == 2 && r.paid[1] == Payment(k.user, amount - Share(amount))))
      else
        r.paid != [] || (r.energy == amount <= 3)
  {
    AllFinish(run, initial, sum, i);
    FinishedIsServed(run, initial, sum, i, h);
    Reachable(run, initial, sum, i);
    var s := run[i];
    var id := s.handlers[h].id;
    var r := s.records[id].value;
    assert RecordOk(r, initial[id], s.handlers, id);
    hide Inv, Initial, Run, Next;
  }

  /** Nobody is paid without a request for that record. */
  ghost predicate Asked(s: State) {
    forall id, p :: 0 <= id < |s.records| && s.records[id].Some? && p in s.records[id].value.paid ==>
      AskedBy(s.handlers, id, p.user)
  }

  ghost predicate AskedBy(handlers: seq<Handler>, id: nat, user: UserId) {
    exists h :: 0 <= h < |handlers| && handlers[h].id == id && handlers[h].user == user
  }

  lemma {:induction false} PaidOnlyOnRequest(run: seq<State>, initial: seq<nat>, sum: nat, i: nat)
    requires Run(run) && Initial(run[0], initial, sum) && i < |run|
    ensures Asked(run[i])
  {
    if i > 0 {
      PaidOnlyOnRequest(run, initial, sum, i - 1);
      var (s, s') := (run[i - 1], run[i]);
      var h := StepTo(run, i);
      hide Initial, Run;
      forall id, p | 0 <= id < |s'.records| && s'.records[id].Some? && p in s'.records[id].value.paid
        ensures AskedBy(s'.handlers, id, p.user)
      {
        var g :| 0 <= g < |s.handlers| && s.handlers[g].id == id && s.handlers[g].user == p.user;
        assert s'.handlers[g].id == id && s'.handlers[g].user == p.user;
      }
    }
  }

  lemma DoneRests(s: State, h: nat)
    requires h < |s.handlers| && s.handlers[h].pc == Done
    ensures Next(s, h) == s
  {
    var k := s.handlers[h];
    assert s.handlers[h := k] == s.handlers && k.(pc := Done) == k;
  }

  // ---- The flush of executeUpdateToCollect ----

  datatype Row = Row(energy: nat, status: string)

  function StoredStatus(r: Record): (status: string)
    ensures status == "all_collected" <==> r.status == AllCollected
    ensures status == "collected_by_other" <==> r.status != AllCollected
  {
    assert "all_collected"[0] != "collected_by_other"[0];
    if r.status == AllCollected then "all_collected" else "collected_by_other"
  }

  /** Writes the rows of modified records; `rows` is the table, indexed by record. */
  method Flush(records: array<Option<Record>>, rows: array<Row>)
    requires records.Length == rows.Length && forall i :: 0 < i < records.Length ==> records[i].Some?
    modifies rows
    ensures forall i :: 0 < i < rows.Length ==>
      var r := records[i].value;
      rows[i] == if r.modified then Row(r.energy, StoredStatus(r)) else old(rows[i])
    ensures rows.Length > 0 ==> rows[0] == old(rows[0])
  {
    var id := 1;
    while id < rows.Length
      invariant 1 <= id && (id > rows.Length ==> rows.Length == 0)
      invariant rows.Length > 0 ==> rows[0] == old(rows[0])
      invariant forall i :: 0 < i < id && i < rows.Length ==>
        var r := records[i].value;
        rows[i] == if r.modified then Row(r.energy, StoredStatus(r)) else old(rows[i])
      invariant forall i :: id <= i < rows.Length ==> rows[i] == old(rows[i])
    {
      if records[id].value.modified {
        rows[id] := Row(records[id].value.energy, StoredStatus(records[id].value));
      }
      id := id + 1;
    }
  }

  /** A flush in a reachable state leaves every stored energy equal to memory, when the table held
      the loaded energies before. */
  method FlushReachable(ghost run: seq<State>, ghost initial: seq<nat>, ghost sum: nat, ghost i: nat,
                        records: array<Option<Record>>, rows: array<Row>)
    requires Run(run) && Initial(run[0], initial, sum) && i < |run| && records[..] == run[i].records
    requires |initial| == records.Length == rows.Length && forall id :: 0 < id < records.Length ==> records[id].Some?
    requires forall id :: 0 < id < rows.Length ==> rows[id].energy == initial[id]
    modifies rows
    ensures forall id :: 0 < id < rows.Length ==> rows[id].energy == records[id].value.energy
  {
    forall id | 0 < id < records.Length
      ensures records[id].value.energy != initial[id] ==> records[id].value.modified
    {
      assert run[i].records[id] == records[id];
      Payments(run, initial, sum, i, id);
    }
    hide Initial, Run;
    Flush(records, rows);
  }

  /** The status written for a modified record tells who was paid exactly when somebody was: a
      record is marked before the guard decides. */
  lemma FlushedStatus(run: seq<State>, initial: seq<nat>, sum: nat, i: nat, id: nat)
    requires Run(run) && Initial(run[0], initial, sum) && i < |run| && Exists(run[i], id) && id < |initial|
    requires run[i].records[id].value.holder.None?
    ensures var r := run[i].records[id].value;
      (StoredStatus(r) == "collected_by_other" <==> r.paid != [] && r.paid[|r.paid| - 1].user != r.owner)
        <==> r.status != Empty
  {
    Payments(run, initial, sum, i, id);
    hide Initial, Run, Share;
    assert "all_collected"[0] != "collected_by_other"[0];
  }

  /** Such a record exists: another user asks for 30 percent of 3, gets nothing, and the record is
      flushed as collected by another. */
  lemma MarkedButUntouched(owner: UserId, other: UserId)
    requires owner != other
    ensures var s := State([Some(Record(owner, Empty, 3, false, None, []))], map[], [Handler(other, 0, Start)]);
      var t := Next(Next(Next(Next(Next(s, 0), 0), 0), 0), 0);
      && Initial(s, [3], 3) && t.handlers[0].pc == Done && t.totals == map[]
      && t.records[0] == Some(Record(owner, Empty, 3, true, None, []))
      && StoredStatus(t.records[0].value) == "collected_by_other"
  {
    var s := State([Some(Record(owner, Empty, 3, false, None, []))], map[], [Handler(other, 0, Start)]);
    assert LeftAt(s, 0) == 3 && Left(s, 0) == 0 && SumOf(s.totals) == 0;
    var a := Next(s, 0);
    assert a.handlers[0].pc == Checked;
    var b := Next(a, 0);
    assert b.handlers[0].pc == Waiting && b.records[0].value.modified;
    var c := Next(b, 0);
    assert c.handlers[0].pc == Guard && c.records[0].value.holder == Some(0);
    var d := Next(c, 0);
    assert d.handlers[0].pc == Unlock;
    var e := Next(d, 0);
    assert e.handlers[0].pc == Done;
  }
}
