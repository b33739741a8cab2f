/**
 STATFS fan-out (rpc_handler.c): the RPC thread sends one message per shard while the shard
 threads add into a shared aggregator; the shard that takes the counter to zero builds the
 reply and frees the aggregator.  Every atomic access is one step and the steps of all
 threads interleave freely.
 */
module Statfs {
  import opened MetaTypes
  import opened Bytes
  import opened Sums

  /** What shard_get_statfs yields on one shard. */
  datatype ShardStat = Stat(total: nat, used: nat) | Failed

  /** The reply message: the result code and, unless its allocation failed, the two sums. */
  datatype Reply = Reply(failed: bool, sums: Option<(nat, nat)>)

  /** Where one shard's collect_shard_statfs stands. */
  datatype Pc =
    | NotSent                              // the RPC thread has not dispatched it yet
    | Queued                               // message in the shard thread's queue
    | GotTotal                             // total added
    | Counted                              // used or error added
    | Owner                                // this shard's decrement reached zero
    | HaveResult(failed: bool)             // message allocated, error count read
    | HaveTotal(failed: bool, total: nat)  // payload allocated, total read
    | Sending(reply: Reply)                // message complete
    | FreeAgg                              // message sent, or its allocation failed
    | FreeCtx                              // about to free its own context
    | Done

  /** The shared aggregator. */
  datatype Agg = Agg(remaining: int, total: nat, used: nat, errors: nat, freed: bool)

  /** Replies handed to the RPC thread; owner and given-up are history. */
  datatype Out = Out(replies: seq<Reply>, owner: Option<nat>, dropped: bool)

  /**
   sent counts the contexts dispatched so far; badTouch is history: freed memory was accessed
   or freed again, where every step of a shard counts as a use of its context.
   */
  datatype State = State(
    sent: nat,
    arrayFreed: bool,
    pcs: seq<Pc>,
    agg: Agg,
    ctxFreed: seq<bool>,
    out: Out,
    badTouch: bool)

  /** One atomic step.  ok is the outcome of the allocation the step makes, if it makes one. */
  datatype Act = Dispatch | FreeArray | Shard(i: nat, ok: bool)

  function Init(n: nat): State {
    State(0, false, seq(n, _ => NotSent), Agg(n, 0, 0, 0, false), seq(n, _ => false), Out([], None, false), false)
  }

  predicate Shape(stats: seq<ShardStat>, s: State) {
    |s.pcs| == |s.ctxFreed| == |stats| && s.sent <= |stats|
  }

  predicate Enabled(stats: seq<ShardStat>, s: State, a: Act) {
    match a
    case Dispatch => s.sent < |stats|
    case FreeArray => s.sent == |stats| && !s.arrayFreed
    case Shard(i, _) => i < |stats| && i < |s.pcs| && !s.pcs[i].NotSent? && !s.pcs[i].Done?
  }

  /** Where the shard goes next. */
  function NextPc(stat: ShardStat, pc: Pc, agg: Agg, ok: bool): Pc {
    match pc
    case Queued => if stat.Stat? then GotTotal else Counted
    case GotTotal => Counted
    case Counted => if agg.remaining - 1 == 0 then Owner else FreeCtx
    case Owner => if ok then HaveResult(agg.errors > 0) else FreeAgg
    case HaveResult(failed) => if ok then HaveTotal(failed, agg.total) else Sending(Reply(failed, None))
    case HaveTotal(failed, total) => Sending(Reply(failed, Some((total, agg.used))))
    case Sending(_) => FreeAgg
    case FreeAgg => FreeCtx
    case FreeCtx => Done
    case _ => pc
  }

  /** The atomic update of the aggregator. */
  function NextAgg(stat: ShardStat, pc: Pc, agg: Agg): Agg {
    match pc
    case Queued =>
      if stat.Stat? then agg.(total := (agg.total + stat.total) % U64) else agg.(errors := agg.errors + 1)
    case GotTotal => agg.(used := (agg.used + (if stat.Stat? then stat.used else 0)) % U64)
    case Counted => agg.(remaining := agg.remaining - 1)
    case FreeAgg => agg.(freed := true)
    case _ => agg
  }

  function NextOut(i: nat, pc: Pc, agg: Agg, out: Out, ok: bool): Out {
    match pc
    case Counted => if agg.remaining - 1 == 0 then out.(owner := Some(i)) else out
    case Owner => if ok then out else out.(dropped := true)
    case Sending(reply) => out.(replies := out.replies + [reply])
    case _ => out
  }

  /** The step reads, writes or frees the aggregator. */
  predicate UsesAgg(pc: Pc, ok: bool) {
    match pc
    case Owner => ok
    case HaveResult(_) => ok
    case FreeCtx => false
    case _ => true
  }

  function ShardStep(stats: seq<ShardStat>, s: State, i: nat, ok: bool): (s': State)
    requires Shape(stats, s) && Enabled(stats, s, Shard(i, ok))
  {
    var pc := s.pcs[i];
    State(s.sent, s.arrayFreed,
          s.pcs[i := NextPc(stats[i], pc, s.agg, ok)],
          NextAgg(stats[i], pc, s.agg),
          if pc.FreeCtx? then s.ctxFreed[i := true] else s.ctxFreed,
          NextOut(i, pc, s.agg, s.out, ok),
          s.badTouch || (UsesAgg(pc, ok) && s.agg.freed) || s.ctxFreed[i])
  }

  function Apply(stats: seq<ShardStat>, s: State, a: Act): State
    requires Shape(stats, s) && Enabled(stats, s, a)
  {
    match a
    case Dispatch =>
      State(s.sent + 1, s.arrayFreed, s.pcs[s.sent := Queued], s.agg, s.ctxFreed, s.out,
            s.badTouch || s.ctxFreed[s.sent])
    case FreeArray => s.(arrayFreed := true)
    case Shard(i, ok) => ShardStep(stats, s, i, ok)
  }

  // ---------- what the reply must say ----------

  ghost function Totals(stats: seq<ShardStat>): seq<int> {
    seq(|stats|, i requires 0 <= i < |stats| => if stats[i].Stat? then stats[i].total else 0)
  }

  ghost function Useds(stats: seq<ShardStat>): seq<int> {
    seq(|stats|, i requires 0 <= i < |stats| => if stats[i].Stat? then stats[i].used else 0)
  }

  ghost predicate SomeFailed(stats: seq<ShardStat>) {
    exists i :: 0 <= i < |stats| && stats[i].Failed?
  }

  /** The sums over the succeeding shards in 64-bit arithmetic, an error exactly when a shard failed. */
  ghost predicate RightReply(stats: seq<ShardStat>, r: Reply) {
    && (r.failed <==> SomeFailed(stats))
    && (r.sums.Some? ==> r.sums.value == (Sum(Totals(stats)) % U64, Sum(Useds(stats)) % U64))
  }

  // ---------- the inductive invariant ----------

  predicate PastTotal(pc: Pc) { !pc.NotSent? && !pc.Queued? }
  predicate PastUsed(pc: Pc) { PastTotal(pc) && !pc.GotTotal? }
  predicate PastDecrement(pc: Pc) { PastUsed(pc) && !pc.Counted? }

  predicate HoldsAgg(pc: Pc) {
    pc.Owner? || pc.HaveResult? || pc.HaveTotal? || pc.Sending? || pc.FreeAgg?
  }

  ghost function TotalW(stats: seq<ShardStat>, pcs: seq<Pc>): seq<int>
    requires |pcs| == |stats|
  {
    seq(|stats|, i requires 0 <= i < |stats| => if PastTotal(pcs[i]) then Totals(stats)[i] else 0)
  }

  ghost function UsedW(stats: seq<ShardStat>, pcs: seq<Pc>): seq<int>
    requires |pcs| == |stats|
  {
    seq(|stats|, i requires 0 <= i < |stats| => if PastUsed(pcs[i]) then Useds(stats)[i] else 0)
  }

  ghost function ErrorW(stats: seq<ShardStat>, pcs: seq<Pc>): seq<int>
    requires |pcs| == |stats|
  {
    seq(|stats|, i requires 0 <= i < |stats| => if PastUsed(pcs[i]) && stats[i].Failed? then 1 else 0)
  }

  ghost function PendingW(pcs: seq<Pc>): seq<int> {
    seq(|pcs|, i requires 0 <= i < |pcs| => if PastDecrement(pcs[i]) then 0 else 1)
  }

  /** The counters are the sums over the shards that have made the corresponding step. */
  ghost predicate Counters(stats: seq<ShardStat>, pcs: seq<Pc>, agg: Agg)
    requires |pcs| == |stats|
  {
    && agg.total == Sum(TotalW(stats, pcs)) % U64
    && agg.used == Sum(UsedW(stats, pcs)) % U64
    && agg.errors == Sum(ErrorW(stats, pcs))
    && agg.remaining == Sum(PendingW(pcs))
  }

  ghost predicate Dispatched(stats: seq<ShardStat>, s: State)
    requires Shape(stats, s)
  {
    && (forall i :: 0 <= i < |stats| ==> (s.pcs[i].NotSent? <==> s.sent <= i))
    && (forall i :: 0 <= i < |stats| && s.pcs[i].GotTotal? ==> stats[i].Stat?)
    && (forall i :: 0 <= i < |stats| ==> (s.ctxFreed[i] <==> s.pcs[i].Done?))
    && (s.arrayFreed ==> s.sent == |stats|)
  }

  /** The message under construction already agrees with the aggregator. */
  ghost predicate LocalsMatch(s: State, pc: Pc) {
    match pc
    case HaveResult(failed) => failed == (s.agg.errors > 0)
    case HaveTotal(failed, total) => failed == (s.agg.errors > 0) && total == s.agg.total
    case Sending(r) => ReplyMatches(s, r)
    case _ => true
  }

  ghost predicate ReplyMatches(s: State, r: Reply) {
    r.failed == (s.agg.errors > 0) && (r.sums.Some? ==> r.sums.value == (s.agg.total, s.agg.used))
  }

  /** One shard at most handles the aggregator after the last decrement, and frees it last. */
  ghost predicate Ownership(stats: seq<ShardStat>, s: State)
    requires Shape(stats, s)
  {
    && (s.out.owner.Some? <==> s.agg.remaining == 0)
    && (forall i :: 0 <= i < |stats| && HoldsAgg(s.pcs[i]) ==> s.out.owner == Some(i))
    && (s.out.owner.None? ==> s.out.replies == [] && !s.agg.freed && !s.out.dropped)
    && (s.out.owner.Some? ==>
          && s.out.owner.value < |stats|
          && var pc := s.pcs[s.out.owner.value];
          && PastDecrement(pc)
          && LocalsMatch(s, pc)
          && s.agg.freed == !HoldsAgg(pc)
          && (HoldsAgg(pc) && !pc.FreeAgg? ==> s.out.replies == [] && !s.out.dropped)
          && (pc.FreeAgg? || !HoldsAgg(pc) ==>
                if s.out.dropped then s.out.replies == [] else |s.out.replies| == 1 && ReplyMatches(s, s.out.replies[0])))
  }

  ghost predicate Inv(stats: seq<ShardStat>, s: State) {
    && |stats| > 0
    && Shape(stats, s)
    && Counters(stats, s.pcs, s.agg)
    && Dispatched(stats, s)
    && Ownership(stats, s)
    && !s.badTouch
  }

  lemma InitInv(stats: seq<ShardStat>)
    requires |stats| > 0
    ensures Inv(stats, Init(|stats|))
  {
    var s := Init(|stats|);
    SumBounds(TotalW(stats, s.pcs), 0, 0);
    SumBounds(UsedW(stats, s.pcs), 0, 0);
    SumBounds(ErrorW(stats, s.pcs), 0, 0);
    SumBounds(PendingW(s.pcs), 1, 1);
  }

  /** Moving one shard changes each sum by that shard's own weight. */
  lemma MoveSums(stats: seq<ShardStat>, pcs: seq<Pc>, i: nat, pc: Pc)
    requires |pcs| == |stats| && i < |pcs|
    ensures Sum(TotalW(stats, pcs[i := pc])) == Sum(TotalW(stats, pcs))
              - TotalW(stats, pcs)[i] + (if PastTotal(pc) then Totals(stats)[i] else 0)
    ensures Sum(UsedW(stats, pcs[i := pc])) == Sum(UsedW(stats, pcs))
              - UsedW(stats, pcs)[i] + (if PastUsed(pc) then Useds(stats)[i] else 0)
    ensures Sum(ErrorW(stats, pcs[i := pc])) == Sum(ErrorW(stats, pcs))
              - ErrorW(stats, pcs)[i] + (if PastUsed(pc) && stats[i].Failed? then 1 else 0)
    ensures Sum(PendingW(pcs[i := pc])) == Sum(PendingW(pcs))
              - PendingW(pcs)[i] + (if PastDecrement(pc) then 0 else 1)
  {
    var t := if PastTotal(pc) then Totals(stats)[i] else 0;
    var u := if PastUsed(pc) then Useds(stats)[i] else 0;
    var e := if PastUsed(pc) && stats[i].Failed? then 1 else 0;
    var p := if PastDecrement(pc) then 0 else 1;
    assert TotalW(stats, pcs[i := pc]) == TotalW(stats, pcs)[i := t];
    assert UsedW(stats, pcs[i := pc]) == UsedW(stats, pcs)[i := u];
    assert ErrorW(stats, pcs[i := pc]) == ErrorW(stats, pcs)[i := e];
    assert PendingW(pcs[i := pc]) == PendingW(pcs)[i := p];
    SumUpdate(TotalW(stats, pcs), i, t);
    SumUpdate(UsedW(stats, pcs), i, u);
    SumUpdate(ErrorW(stats, pcs), i, e);
    SumUpdate(PendingW(pcs), i, p);
  }

  /** While a shard has not decremented, the counter is positive, so nobody owns the aggregator. */
  lemma PendingMeansAlive(stats: seq<ShardStat>, s: State, i: nat)
    requires Inv(stats, s) && i < |stats| && !PastDecrement(s.pcs[i])
    ensures s.agg.remaining > 0 && s.out.owner.None? && !s.agg.freed
  {
    assert PendingW(s.pcs)[i] == 1;
    SumTerm(PendingW(s.pcs), i);
  }

  lemma AddMod(a: int, b: int)
    ensures (a % U64 + b) % U64 == (a + b) % U64
  {
  }

  lemma TotalCounters(stats: seq<ShardStat>, pcs: seq<Pc>, agg: Agg, i: nat)
    requires |pcs| == |stats| && i < |pcs| && pcs[i].Queued? && stats[i].Stat? && Counters(stats, pcs, agg)
    ensures Counters(stats, pcs[i := GotTotal], NextAgg(stats[i], Queued, agg))
  {
    MoveSums(stats, pcs, i, GotTotal);
    AddMod(Sum(TotalW(stats, pcs)), stats[i].total);
  }

  lemma ErrorCounters(stats: seq<ShardStat>, pcs: seq<Pc>, agg: Agg, i: nat)
    requires |pcs| == |stats| && i < |pcs| && pcs[i].Queued? && stats[i].Failed? && Counters(stats, pcs, agg)
    ensures Counters(stats, pcs[i := Counted], NextAgg(stats[i], Queued, agg))
  {
    MoveSums(stats, pcs, i, Counted);
  }

  lemma UsedCounters(stats: seq<ShardStat>, pcs: seq<Pc>, agg: Agg, i: nat)
    requires |pcs| == |stats| && i < |pcs| && pcs[i].GotTotal? && stats[i].Stat? && Counters(stats, pcs, agg)
    ensures Counters(stats, pcs[i := Counted], NextAgg(stats[i], GotTotal, agg))
  {
    MoveSums(stats, pcs, i, Counted);
    AddMod(Sum(UsedW(stats, pcs)), stats[i].used);
  }

  lemma DecrementCounters(stats: seq<ShardStat>, pcs: seq<Pc>, agg: Agg, i: nat, pc: Pc)
    requires |pcs| == |stats| && i < |pcs| && pcs[i].Counted? && PastDecrement(pc) && Counters(stats, pcs, agg)
    ensures Counters(stats, pcs[i := pc], NextAgg(stats[i], Counted, agg))
  {
    MoveSums(stats, pcs, i, pc);
  }

  /** Steps after the decrement leave the counters alone. */
  lemma AfterDecrement(stats: seq<ShardStat>, pcs: seq<Pc>, agg: Agg, i: nat, pc: Pc)
    requires |pcs| == |stats| && i < |pcs| && PastDecrement(pcs[i]) && PastDecrement(pc)
    requires Counters(stats, pcs, agg)
    ensures Counters(stats, pcs[i := pc], agg) && Counters(stats, pcs[i := pc], agg.(freed := true))
  {
    MoveSums(stats, pcs, i, pc);
  }

  lemma StepCounters(stats: seq<ShardStat>, s: State, i: nat, ok: bool)
    requires Shape(stats, s) && Enabled(stats, s, Shard(i, ok)) && Counters(stats, s.pcs, s.agg)
    requires s.pcs[i].GotTotal? ==> stats[i].Stat?
    ensures Counters(stats, ShardStep(stats, s, i, ok).pcs, ShardStep(stats, s, i, ok).agg)
  {
    var pc' := NextPc(stats[i], s.pcs[i], s.agg, ok);
    match s.pcs[i]
    case Queued =>
      if stats[i].Stat? { TotalCounters(stats, s.pcs, s.agg, i); } else { ErrorCounters(stats, s.pcs, s.agg, i); }
    case GotTotal => UsedCounters(stats, s.pcs, s.agg, i);
    case Counted => DecrementCounters(stats, s.pcs, s.agg, i, pc');
    case _ => AfterDecrement(stats, s.pcs, s.agg, i, pc');
  }

  lemma StepDispatched(stats: seq<ShardStat>, s: State, i: nat, ok: bool)
    requires Shape(stats, s) && Enabled(stats, s, Shard(i, ok)) && Dispatched(stats, s)
    ensures Shape(stats, ShardStep(stats, s, i, ok)) && Dispatched(stats, ShardStep(stats, s, i, ok))
  {
  }

  /** Before the decrement nobody owns the aggregator and it is alive; the decrement to zero makes an owner. */
  lemma StepOwnershipBefore(stats: seq<ShardStat>, s: State, i: nat, ok: bool)
    requires Shape(stats, s) && Enabled(stats, s, Shard(i, ok)) && Ownership(stats, s) && !s.badTouch
    requires !PastDecrement(s.pcs[i]) && s.agg.remaining > 0 && !s.ctxFreed[i]
    ensures Ownership(stats, ShardStep(stats, s, i, ok)) && !ShardStep(stats, s, i, ok).badTouch
  {
  }

  /** After the decrement only the owner works on the aggregator, up to its free. */
  lemma StepOwnershipAfter(stats: seq<ShardStat>, s: State, i: nat, ok: bool)
    requires Shape(stats, s) && Enabled(stats, s, Shard(i, ok)) && Ownership(stats, s) && !s.badTouch
    requires PastDecrement(s.pcs[i]) && !s.ctxFreed[i]
    ensures Ownership(stats, ShardStep(stats, s, i, ok)) && !ShardStep(stats, s, i, ok).badTouch
  {
  }

  lemma ShardKeepsInv(stats: seq<ShardStat>, s: State, i: nat, ok: bool)
    requires Inv(stats, s) && Enabled(stats, s, Shard(i, ok))
    ensures Inv(stats, ShardStep(stats, s, i, ok))
  {
    StepCounters(stats, s, i, ok);
    StepDispatched(stats, s, i, ok);
    if PastDecrement(s.pcs[i]) {
      StepOwnershipAfter(stats, s, i, ok);
    } else {
      PendingMeansAlive(stats, s, i);
      StepOwnershipBefore(stats, s, i, ok);
    }
  }

  lemma DispatchKeepsInv(stats: seq<ShardStat>, s: State)
    requires Inv(stats, s) && s.sent < |stats|
    ensures Inv(stats, Apply(stats, s, Dispatch))
  {
    var s' := Apply(stats, s, Dispatch);
    assert s'.pcs == s.pcs[s.sent := Queued];
    MoveSums(stats, s.pcs, s.sent, Queued);
    PendingMeansAlive(stats, s, s.sent);
  }

  lemma StepKeepsInv(stats: seq<ShardStat>, s: State, a: Act)
    requires Inv(stats, s) && Enabled(stats, s, a)
    ensures Inv(stats, Apply(stats, s, a))
  {
    hide Counters, Sum;
    match a
    case Dispatch => DispatchKeepsInv(stats, s);
    case FreeArray =>
    case Shard(i, ok) => ShardKeepsInv(stats, s, i, ok);
  }

  // ---------- runs ----------

  /** acts is an interleaving that leads from the initial state through states. */
  ghost predicate Run(stats: seq<ShardStat>, acts: seq<Act>, states: seq<State>) {
    && |states| == |acts| + 1
    && states[0] == Init(|stats|)
    && forall k :: 0 <= k < |acts| ==>
         Shape(stats, states[k]) && Enabled(stats, states[k], acts[k])
         && states[k + 1] == Apply(stats, states[k], acts[k])
  }

  lemma {:induction false} RunInv(stats: seq<ShardStat>, acts: seq<Act>, states: seq<State>, k: nat)
    requires |stats| > 0 && Run(stats, acts, states) && k < |states|
    ensures Inv(stats, states[k])
  {
    if k == 0 {
      InitInv(stats);
    } else {
      RunInv(stats, acts, states, k - 1);
      StepKeepsInv(stats, states[k - 1], acts[k - 1]);
    }
  }

  /** When the counter is zero, all contributions are in. */
  lemma AllCounted(stats: seq<ShardStat>, s: State)
    requires Inv(stats, s) && s.agg.remaining == 0
    ensures s.agg.total == Sum(Totals(stats)) % U64 && s.agg.used == Sum(Useds(stats)) % U64
    ensures s.agg.errors > 0 <==> SomeFailed(stats)
  {
    forall i | 0 <= i < |stats| ensures PastDecrement(s.pcs[i]) {
      SumTerm(PendingW(s.pcs), i);
      assert PendingW(s.pcs)[i] <= 0;
    }
    assert TotalW(stats, s.pcs) == Totals(stats);
    assert UsedW(stats, s.pcs) == Useds(stats);
    if i :| 0 <= i < |stats| && stats[i].Failed? {
      assert ErrorW(stats, s.pcs)[i] == 1;
      SumTerm(ErrorW(stats, s.pcs), i);
    } else {
      SumBounds(ErrorW(stats, s.pcs), 0, 0);
    }
  }

  /**
   Safety over every interleaving, for any number of shards: freed memory is never touched and
   nothing is freed twice, at most one reply is sent, and a sent reply is the right one.
   */
  lemma StatfsSafety(stats: seq<ShardStat>, acts: seq<Act>, states: seq<State>, k: nat)
    requires |stats| > 0 && Run(stats, acts, states) && k < |states|
    ensures !states[k].badTouch
    ensures |states[k].out.replies| <= 1
    ensures states[k].out.replies != [] ==> RightReply(stats, states[k].out.replies[0])
  {
    RunInv(stats, acts, states, k);
    if states[k].out.replies != [] {
      AllCounted(stats, states[k]);
    }
  }

  /** A step that does not use the aggregator neither changes it nor depends on it. */
  lemma UnusedIsIndependent(stat: ShardStat, i: nat, pc: Pc, agg: Agg, other: Agg, out: Out, ok: bool)
    requires !UsesAgg(pc, ok)
    ensures NextAgg(stat, pc, agg) == agg
    ensures NextPc(stat, pc, agg, ok) == NextPc(stat, pc, other, ok)
    ensures NextOut(i, pc, agg, out, ok) == NextOut(i, pc, other, out, ok)
  {
  }

  lemma StepKeepsFreed(stats: seq<ShardStat>, s: State, a: Act, i: nat)
    requires Inv(stats, s) && Enabled(stats, s, a) && i < |stats|
    ensures |Apply(stats, s, a).pcs| == |stats|
    ensures s.agg.freed ==> Apply(stats, s, a).agg.freed
    ensures s.pcs[i].Done? ==> Apply(stats, s, a).pcs[i].Done?
  {
    hide Counters, Ownership;
  }

  lemma {:induction false} FreedStays(stats: seq<ShardStat>, acts: seq<Act>, states: seq<State>, j: nat, k: nat, i: nat)
    requires |stats| > 0 && Run(stats, acts, states) && j <= k < |states| && i < |stats|
    ensures Shape(stats, states[j]) && Shape(stats, states[k])
    ensures states[j].agg.freed ==> states[k].agg.freed
    ensures states[j].pcs[i].Done? ==> states[k].pcs[i].Done?
  {
    hide Counters, Ownership, Dispatched, Apply, Enabled;
    RunInv(stats, acts, states, j);
    RunInv(stats, acts, states, k);
    if j < k {
      RunInv(stats, acts, states, k - 1);
      FreedStays(stats, acts, states, j, k - 1, i);
      assert Enabled(stats, states[k - 1], acts[k - 1]) && states[k] == Apply(stats, states[k - 1], acts[k - 1]);
      StepKeepsFreed(stats, states[k - 1], acts[k - 1], i);
    }
  }

  /** Once the aggregator is freed, all that is left for any shard is to free its own context. */
  lemma AfterFreeOnlyContexts(stats: seq<ShardStat>, acts: seq<Act>, states: seq<State>, j: nat, k: nat)
    requires |stats| > 0 && Run(stats, acts, states) && j < k < |acts| && acts[j].Shard?
    ensures Shape(stats, states[j]) && Shape(stats, states[k])
    ensures states[j].pcs[acts[j].i].FreeAgg? ==>
              acts[k].FreeArray? || (acts[k].Shard? && states[k].pcs[acts[k].i].FreeCtx?)
    ensures states[j].pcs[acts[j].i].FreeCtx? ==>
              (acts[k].Shard? ==> acts[k].i != acts[j].i) && (acts[k].Dispatch? ==> states[k].sent != acts[j].i)
  {
    RunInv(stats, acts, states, k);
    assert states[j + 1] == Apply(stats, states[j], acts[j]);
    assert Enabled(stats, states[k], acts[k]);
    FreedStays(stats, acts, states, j + 1, k, acts[j].i);
    hide Counters;
    if states[k].agg.freed {
      if acts[k].Dispatch? { PendingMeansAlive(stats, states[k], states[k].sent); }
      if acts[k].Shard? && !PastDecrement(states[k].pcs[acts[k].i]) {
        PendingMeansAlive(stats, states[k], acts[k].i);
      }
    }
  }

  /** The act is a failing allocation of a shard that stands at a place of kind p. */
  ghost predicate FailsNow(s: State, a: Act, p: Pc -> bool) {
    a.Shard? && a.i < |s.pcs| && p(s.pcs[a.i]) && !a.ok
  }

  /** Before step k such an allocation failed. */
  ghost predicate FailedAt(acts: seq<Act>, states: seq<State>, k: nat, p: Pc -> bool)
    requires k <= |acts| < |states|
  {
    exists j :: 0 <= j < k && FailsNow(states[j], acts[j], p)
  }

  predicate AllocatesMessage(pc: Pc) { pc.Owner? }
  predicate AllocatesSums(pc: Pc) { pc.HaveResult? }

  /** A reply without sums is on its way or sent. */
  ghost predicate LacksSums(s: State) {
    (exists i :: 0 <= i < |s.pcs| && s.pcs[i].Sending? && s.pcs[i].reply.sums.None?)
    || (exists x :: 0 <= x < |s.out.replies| && s.out.replies[x].sums.None?)
  }

  lemma ShardLacksSums(stats: seq<ShardStat>, s: State, i: nat, ok: bool)
    requires Shape(stats, s) && Enabled(stats, s, Shard(i, ok))
    ensures LacksSums(ShardStep(stats, s, i, ok)) <==> LacksSums(s) || (s.pcs[i].HaveResult? && !ok)
  {
    var t := ShardStep(stats, s, i, ok);
    assert t.pcs[i] == NextPc(stats[i], s.pcs[i], s.agg, ok);
    assert forall j :: 0 <= j < |s.pcs| && j != i ==> t.pcs[j] == s.pcs[j];
    assert forall x :: 0 <= x < |s.out.replies| ==> t.out.replies[x] == s.out.replies[x];
    if s.pcs[i].Sending? { assert t.out.replies[|s.out.replies|] == s.pcs[i].reply; }
  }

  lemma OtherLacksSums(stats: seq<ShardStat>, s: State, a: Act)
    requires Inv(stats, s) && Enabled(stats, s, a) && !a.Shard?
    ensures LacksSums(Apply(stats, s, a)) <==> LacksSums(s)
  {
    hide Counters, Ownership;
    var t := Apply(stats, s, a);
    assert forall i :: 0 <= i < |s.pcs| ==> t.pcs[i] == s.pcs[i] || (t.pcs[i].Queued? && s.pcs[i].NotSent?);
  }

  lemma StepFails(stats: seq<ShardStat>, s: State, a: Act)
    requires Inv(stats, s) && Enabled(stats, s, a)
    ensures Apply(stats, s, a).out.dropped <==> s.out.dropped || FailsNow(s, a, AllocatesMessage)
    ensures LacksSums(Apply(stats, s, a)) <==> LacksSums(s) || FailsNow(s, a, AllocatesSums)
  {
    hide LacksSums, Counters, Ownership, Dispatched;
    if a.Shard? { ShardLacksSums(stats, s, a.i, a.ok); } else { OtherLacksSums(stats, s, a); }
  }

  /**
   The reply is given up exactly if its message could not be allocated, and goes without sums exactly
   if its payload could not be.
   */
  lemma {:induction false} ReplyFailsIff(stats: seq<ShardStat>, acts: seq<Act>, states: seq<State>, k: nat)
    requires |stats| > 0 && Run(stats, acts, states) && k < |states|
    ensures states[k].out.dropped <==> FailedAt(acts, states, k, AllocatesMessage)
    ensures LacksSums(states[k]) <==> FailedAt(acts, states, k, AllocatesSums)
  {
    if k == 0 {
      assert !LacksSums(states[0]);
    } else {
      hide FailedAt, FailsNow, LacksSums, Inv, Apply, Enabled;
      ReplyFailsIff(stats, acts, states, k - 1);
      RunInv(stats, acts, states, k - 1);
      assert Enabled(stats, states[k - 1], acts[k - 1]) && states[k] == Apply(stats, states[k - 1], acts[k - 1]);
      StepFails(stats, states[k - 1], acts[k - 1]);
      FailedNext(acts, states, k - 1, AllocatesMessage);
      FailedNext(acts, states, k - 1, AllocatesSums);
    }
  }

  lemma FailedNext(acts: seq<Act>, states: seq<State>, k: nat, p: Pc -> bool)
    requires k < |acts| < |states|
    ensures FailedAt(acts, states, k + 1, p) <==> FailedAt(acts, states, k, p) || FailsNow(states[k], acts[k], p)
  {
    hide FailsNow;
  }

  // ---------- completion ----------

  function Rank(pc: Pc): nat {
    match pc
    case NotSent => 10 case Queued => 9 case GotTotal => 8 case Counted => 7
    case Owner => 6 case HaveResult(_) => 5 case HaveTotal(_, _) => 4 case Sending(_) => 3
    case FreeAgg => 2 case FreeCtx => 1 case Done => 0
  }

  ghost function Ranks(pcs: seq<Pc>): seq<int> {
    seq(|pcs|, i requires 0 <= i < |pcs| => Rank(pcs[i]))
  }

  ghost function Fuel(s: State): int {
    Sum(Ranks(s.pcs)) + (if s.arrayFreed then 0 else 1)
  }

  lemma ShardMoves(stats: seq<ShardStat>, s: State, i: nat, ok: bool)
    requires Shape(stats, s) && Enabled(stats, s, Shard(i, ok))
    ensures var s' := ShardStep(stats, s, i, ok);
            |s'.pcs| == |s.pcs| && Rank(s'.pcs[i]) < Rank(s.pcs[i])
  {
  }

  lemma StepBurnsFuel(stats: seq<ShardStat>, s: State, a: Act)
    requires Inv(stats, s) && Enabled(stats, s, a)
    ensures 0 <= Fuel(Apply(stats, s, a)) < Fuel(s)
  {
    var s' := Apply(stats, s, a);
    SumTerm(Ranks(s'.pcs), 0);
    match a
    case Dispatch =>
      assert Ranks(s'.pcs) == Ranks(s.pcs)[s.sent := 9];
      SumUpdate(Ranks(s.pcs), s.sent, 9);
    case FreeArray =>
    case Shard(i, ok) =>
      ShardMoves(stats, s, i, ok);
      assert Ranks(s'.pcs) == Ranks(s.pcs)[i := Rank(s'.pcs[i])];
      SumUpdate(Ranks(s.pcs), i, Rank(s'.pcs[i]));
  }

  ghost predicate Stuck(stats: seq<ShardStat>, s: State) {
    forall a :: !Enabled(stats, s, a)
  }

  /** Every interleaving stops, after at most ten steps per shard and one more. */
  lemma {:induction false} RunsAreShort(stats: seq<ShardStat>, acts: seq<Act>, states: seq<State>, k: nat)
    requires |stats| > 0 && Run(stats, acts, states) && k < |states|
    ensures 0 <= Fuel(states[k]) <= 10 * |stats| + 1 - k
  {
    if k == 0 {
      SumBounds(Ranks(states[0].pcs), 10, 10);
    } else {
      RunsAreShort(stats, acts, states, k - 1);
      RunInv(stats, acts, states, k - 1);
      StepBurnsFuel(stats, states[k - 1], acts[k - 1]);
    }
  }

  ghost predicate AllocationsSucceed(acts: seq<Act>) {
    forall k :: 0 <= k < |acts| && acts[k].Shard? ==> acts[k].ok
  }

  /** With every allocation granted, no reply is given up and every reply carries the sums. */
  ghost predicate FullReplies(s: State) {
    && !s.out.dropped
    && (forall i :: 0 <= i < |s.pcs| && s.pcs[i].Sending? ==> s.pcs[i].reply.sums.Some?)
    && (forall j :: 0 <= j < |s.out.replies| ==> s.out.replies[j].sums.Some?)
  }

  lemma ShardKeepsFull(stats: seq<ShardStat>, s: State, i: nat)
    requires Shape(stats, s) && Enabled(stats, s, Shard(i, true)) && FullReplies(s)
    ensures FullReplies(ShardStep(stats, s, i, true))
  {
    var s' := ShardStep(stats, s, i, true);
    assert forall j :: 0 <= j < |s.pcs| && j != i ==> s'.pcs[j] == s.pcs[j];
  }

  lemma {:induction false} FullRepliesKept(stats: seq<ShardStat>, acts: seq<Act>, states: seq<State>, k: nat)
    requires |stats| > 0 && Run(stats, acts, states) && AllocationsSucceed(acts) && k < |states|
    ensures FullReplies(states[k])
  {
    if k > 0 {
      FullRepliesKept(stats, acts, states, k - 1);
      if acts[k - 1].Shard? { ShardKeepsFull(stats, states[k - 1], acts[k - 1].i); }
    }
  }

  /**
   A run that can go no further has freed the aggregator, every context and the array, and has
   sent exactly one right reply unless the message could not be allocated; with every
   allocation granted there is exactly one reply and it carries the sums.
   */
  lemma StatfsCompletes(stats: seq<ShardStat>, acts: seq<Act>, states: seq<State>)
    requires |stats| > 0 && Run(stats, acts, states)
    requires Stuck(stats, states[|acts|])
    ensures var s := states[|acts|];
            && Shape(stats, s) && s.agg.freed && s.arrayFreed
            && (forall i :: 0 <= i < |stats| ==> s.ctxFreed[i])
            && (if s.out.dropped then s.out.replies == []
                else |s.out.replies| == 1 && RightReply(stats, s.out.replies[0]))
            && (AllocationsSucceed(acts) ==> !s.out.dropped && s.out.replies[0].sums.Some?)
  {
    var s := states[|acts|];
    RunInv(stats, acts, states, |acts|);
    assert !Enabled(stats, s, Dispatch) && !Enabled(stats, s, FreeArray);
    forall i | 0 <= i < |stats| ensures s.pcs[i].Done? {
      assert !Enabled(stats, s, Shard(i, true));
    }
    SumBounds(PendingW(s.pcs), 0, 0);
    AllCounted(stats, s);
    if AllocationsSucceed(acts) {
      FullRepliesKept(stats, acts, states, |acts|);
    }
  }

  // ---------- the handler before the first dispatch ----------

  datatype Prologue = NoShards | OutOfMemory | Dispatching

  /**
   rpc_handler_statfs up to its dispatch loop.  live counts allocations not yet freed: an
   immediate answer leaves nothing behind, and dispatching starts with the aggregator, the
   array and one context per shard.
   */
  method Prepare(n: nat, aggOk: bool, arrayOk: bool, ctxOk: seq<bool>) returns (r: Prologue, live: int)
    requires |ctxOk| == n
    ensures r.NoShards? <==> n == 0
    ensures r.Dispatching? <==> n > 0 && aggOk && arrayOk && forall i :: 0 <= i < n ==> ctxOk[i]
    ensures live == if r.Dispatching? then n + 2 else 0
  {
    if n == 0 {
      return NoShards, 0;
    }
    if !aggOk {
      return OutOfMemory, 0;
    }
    live := 1;
    if !arrayOk {
      return OutOfMemory, live - 1;
    }
    live := 2;
    var ctxs := new bool[n](_ => false);
    var failed := false;
    var i := 0;
    while i < n
      invariant 0 <= i <= n && !failed && live == 2 + i
      invariant forall j :: 0 <= j < i ==> ctxOk[j]
      invariant forall j :: 0 <= j < n ==> (ctxs[j] <==> j < i)
    {
      if !ctxOk[i] {
        failed := true;
        break;
      }
      ctxs[i] := true;
      live := live + 1;
      i := i + 1;
    }
    if failed {
      var k := 0;
      while k < n
        invariant 0 <= k <= n
        invariant live == 2 + (if k < i then i - k else 0)
        invariant forall j :: 0 <= j < n ==> (ctxs[j] <==> j < i)
      {
        if ctxs[k] {
          live := live - 1;
        }
        k := k + 1;
      }
      return OutOfMemory, live - 2;
    }
    return Dispatching, live;
  }
}
