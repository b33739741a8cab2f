/** The demands of the three mkfs passes and what serving them guarantees. */
module MkfsHandOut {
  import opened Mkfs

  // ---------- the demands of the three passes ----------

  function Copies(q: QueueId, n: nat): seq<QueueId> {
    seq(n, _ => q)
  }

  /** Pass 1: one METADATA segment per shard, all queued on shard 0 for the superblock. */
  function SuperblockDemands(l: Layout, n: nat): seq<QueueId> {
    Copies(QueueId(0, l.meta), n)
  }

  /** Pass 2: one METADATA segment on each shard. */
  function ShardDemands(l: Layout, n: nat): seq<QueueId> {
    seq(n, s requires 0 <= s < n => QueueId(s, l.meta))
  }

  /** Fill level of a queue: its high mark, kept below the ring size. */
  function Target(l: Layout, q: Queue): nat {
    if q.refillHigh < l.maxOpen then q.refillHigh else if l.maxOpen > 0 then l.maxOpen - 1 else 0
  }

  function TargetOf(l: Layout, a: Alloc, q: QueueId): nat {
    if q in a.queues then Target(l, a.queues[q]) else 0
  }

  /** Pass 3 up to shard s, type t: every queue but METADATA filled to its target, in order. */
  function FillDemands(l: Layout, a: Alloc, s: nat, t: nat): seq<QueueId>
    decreases s, t
  {
    if t <= 1 then (if s == 0 then [] else FillDemands(l, a, s - 1, l.kinds))
    else FillDemands(l, a, s, t - 1)
         + (if t - 1 == l.meta then [] else Copies(QueueId(s, t - 1), TargetOf(l, a, QueueId(s, t - 1))))
  }

  function MetaDemands(l: Layout, n: nat): seq<QueueId> {
    SuperblockDemands(l, n) + ShardDemands(l, n)
  }

  function AllDemands(l: Layout, a: Alloc, n: nat): seq<QueueId> {
    MetaDemands(l, n) + FillDemands(l, a, n, 1)
  }

  /** The allocator as allocator_mkfs leaves it: a queue per shard and type, every ring empty. */
  ghost predicate Fresh(l: Layout, a: Alloc, n: nat) {
    && ValidAlloc(l, a)
    && (forall s, t :: 0 <= s < n && 0 < t < l.kinds ==> QueueId(s, t) in a.queues)
    && (forall q :: q in a.queues ==> Contents(l, a.queues[q]) == [])
  }

  // ---------- counting demands ----------

  lemma {:induction false} CountConcat(xs: seq<QueueId>, ys: seq<QueueId>, q: QueueId)
    ensures Count(xs + ys, q) == Count(xs, q) + Count(ys, q)
  {
    if ys == [] {
      assert xs + ys == xs;
    } else {
      assert (xs + ys)[..|xs + ys| - 1] == xs + ys[..|ys| - 1];
      CountConcat(xs, ys[..|ys| - 1], q);
    }
  }

  lemma {:induction false} CountCopies(p: QueueId, n: nat, q: QueueId)
    ensures Count(Copies(p, n), q) == if p == q then n else 0
  {
    if n > 0 {
      assert Copies(p, n)[..n - 1] == Copies(p, n - 1);
      CountCopies(p, n - 1, q);
    }
  }

  lemma {:induction false} CountShards(l: Layout, n: nat, q: QueueId)
    ensures Count(ShardDemands(l, n), q) == if q.kind == l.meta && q.shard < n then 1 else 0
  {
    if n > 0 {
      assert ShardDemands(l, n)[..n - 1] == ShardDemands(l, n - 1);
      CountShards(l, n - 1, q);
    }
  }

  predicate FillCovers(l: Layout, s: nat, t: nat, q: QueueId) {
    q.kind != l.meta && 0 < q.kind < l.kinds && (q.shard < s || (q.shard == s && q.kind < t))
  }

  /** Pass 3 asks each queue it has passed for exactly its target. */
  lemma {:induction false} CountFill(l: Layout, a: Alloc, s: nat, t: nat, q: QueueId)
    requires 1 <= t <= l.kinds
    ensures Count(FillDemands(l, a, s, t), q) == if FillCovers(l, s, t, q) then TargetOf(l, a, q) else 0
    decreases s, t
  {
    if t == 1 {
      if s > 0 { CountFill(l, a, s - 1, l.kinds, q); }
    } else {
      CountFill(l, a, s, t - 1, q);
      var p := QueueId(s, t - 1);
      var block := if t - 1 == l.meta then [] else Copies(p, TargetOf(l, a, p));
      CountConcat(FillDemands(l, a, s, t - 1), block, q);
      CountCopies(p, TargetOf(l, a, p), q);
    }
  }

  /** How many segments mkfs wants for queue q. */
  function Wanted(l: Layout, a: Alloc, n: nat, q: QueueId): nat {
    if q.kind == l.meta then (if q.shard == 0 then n else 0) + (if q.shard < n then 1 else 0)
    else if 0 < q.kind < l.kinds && q.shard < n then TargetOf(l, a, q)
    else 0
  }

  lemma CountMeta(l: Layout, n: nat, q: QueueId)
    ensures Count(MetaDemands(l, n), q) ==
            if q.kind == l.meta then (if q.shard == 0 then n else 0) + (if q.shard < n then 1 else 0) else 0
  {
    CountConcat(SuperblockDemands(l, n), ShardDemands(l, n), q);
    CountCopies(QueueId(0, l.meta), n, q);
    CountShards(l, n, q);
  }

  lemma CountAll(l: Layout, a: Alloc, n: nat, q: QueueId)
    requires ValidLayout(l)
    ensures Count(AllDemands(l, a, n), q) == Wanted(l, a, n, q)
  {
    CountConcat(MetaDemands(l, n), FillDemands(l, a, n, 1), q);
    CountMeta(l, n, q);
    CountFill(l, a, n, 1, q);
  }

  // ---------- what the hand-out guarantees ----------

  lemma {:induction false} HandedIsFree(free: seq<nat>, ds: seq<QueueId>, q: QueueId, i: nat) returns (k: nat)
    requires i < |Handed(free, ds, q)|
    ensures k < |ds| && k < |free| && ds[k] == q && Handed(free, ds, q)[i] == free[k]
    ensures |Handed(free, ds[..k], q)| == i
  {
    var n := |ds| - 1;
    if i < |Handed(free, ds[..n], q)| {
      k := HandedIsFree(free, ds[..n], q, i);
      assert ds[..n][..k] == ds[..k];
    } else {
      k := n;
    }
  }

  lemma {:induction false} FreeIsHanded(free: seq<nat>, ds: seq<QueueId>, k: nat)
    requires k < |ds| && k < |free|
    ensures free[k] in Handed(free, ds, ds[k])
  {
    if k < |ds| - 1 { FreeIsHanded(free, ds[..|ds| - 1], k); }
  }

  /** No id is queued twice, in one queue or in two. */
  ghost predicate NoIdTwice(l: Layout, a: Alloc)
    requires ValidAlloc(l, a)
  {
    forall p, q, i, j |
      && p in a.queues && q in a.queues
      && 0 <= i < |Contents(l, a.queues[p])| && 0 <= j < |Contents(l, a.queues[q])|
      && Contents(l, a.queues[p])[i] == Contents(l, a.queues[q])[j] :: p == q && i == j
  }

  lemma HandedOnce(free: seq<nat>, ds: seq<QueueId>, p: QueueId, i: nat, q: QueueId, j: nat)
    requires Ascending(free) && i < |Handed(free, ds, p)| && j < |Handed(free, ds, q)|
    requires Handed(free, ds, p)[i] == Handed(free, ds, q)[j]
    ensures p == q && i == j
  {
    var k := HandedIsFree(free, ds, p, i);
    var m := HandedIsFree(free, ds, q, j);
    assert k == m;
  }

  /** Every queued id sits in exactly one slot of exactly one queue. */
  lemma QueuedOnce(l: Layout, a: Alloc, ds: seq<QueueId>, b: Alloc)
    requires Served(l, a, ds, b)
    ensures NoIdTwice(l, b)
  {
    EmptyListSound(a.segs, l.slotB + 1);
    forall p, q, i, j |
      && p in b.queues && q in b.queues
      && 0 <= i < |Contents(l, b.queues[p])| && 0 <= j < |Contents(l, b.queues[q])|
      && Contents(l, b.queues[p])[i] == Contents(l, b.queues[q])[j]
      ensures p == q && i == j
    {
      HandedOnce(Free(l, a), ds, p, i, q, j);
    }
  }

  /** A queued id lies above slot B, was EMPTY before, and is OPEN with its queue's type. */
  lemma QueuedIsOpen(l: Layout, a: Alloc, ds: seq<QueueId>, b: Alloc, q: QueueId, i: nat)
    requires Served(l, a, ds, b) && q in b.queues && i < |Contents(l, b.queues[q])|
    ensures var x := Contents(l, b.queues[q])[i];
            l.slotB < x < |b.segs| == |a.segs| && a.segs[x].status.Empty? && b.segs[x] == Segment(Open, q.kind)
  {
    EmptyListSound(a.segs, l.slotB + 1);
    var k := HandedIsFree(Free(l, a), ds, q, i);
  }

  /** Every demand names a queue of the allocator. */
  ghost predicate Listed(a: Alloc, ds: seq<QueueId>) {
    forall k :: 0 <= k < |ds| ==> ds[k] in a.queues
  }

  /** Every id in every queue of the volume. */
  ghost function QueuedIds(l: Layout, a: Alloc): set<nat>
    requires ValidAlloc(l, a)
  {
    set q, x | q in a.queues && x in Contents(l, a.queues[q]) :: x
  }

  ghost function FirstIds(free: seq<nat>, r: nat): set<nat>
    requires r <= |free|
  {
    set k | 0 <= k < r :: free[k]
  }

  lemma {:induction false} FirstIdsSize(free: seq<nat>, r: nat)
    requires r <= |free| && Ascending(free)
    ensures |FirstIds(free, r)| == r
  {
    if r > 0 {
      FirstIdsSize(free, r - 1);
      assert FirstIds(free, r) == FirstIds(free, r - 1) + {free[r - 1]};
      assert free[r - 1] !in FirstIds(free, r - 1);
    }
  }

  lemma QueuedAreFirst(l: Layout, a: Alloc, ds: seq<QueueId>, b: Alloc, x: nat)
    requires Served(l, a, ds, b) && Listed(a, ds)
    ensures x in QueuedIds(l, b) <==> x in FirstIds(Free(l, a), Min(|ds|, |Free(l, a)|))
  {
    var free := Free(l, a);
    if x in QueuedIds(l, b) {
      var q :| q in b.queues && x in Contents(l, b.queues[q]);
      var i :| 0 <= i < |Contents(l, b.queues[q])| && Contents(l, b.queues[q])[i] == x;
      var k := HandedIsFree(free, ds, q, i);
    }
    if k :| 0 <= k < Min(|ds|, |free|) && free[k] == x {
      FreeIsHanded(free, ds, k);
      assert ds[k] in b.queues && x in Contents(l, b.queues[ds[k]]);
    }
  }

  /** used_segments grows by the number of ids queued, which is the drop in EMPTY segments. */
  lemma QueuedConserved(l: Layout, a: Alloc, ds: seq<QueueId>, b: Alloc)
    requires Served(l, a, ds, b) && Listed(a, ds)
    ensures b.used - a.used == |QueuedIds(l, b)| == |Free(l, a)| - |Free(l, b)|
  {
    var r := Min(|ds|, |Free(l, a)|);
    forall x ensures x in QueuedIds(l, b) <==> x in FirstIds(Free(l, a), r) { QueuedAreFirst(l, a, ds, b, x); }
    assert QueuedIds(l, b) == FirstIds(Free(l, a), r);
    EmptyListSound(a.segs, l.slotB + 1);
    FirstIdsSize(Free(l, a), r);
  }

  /** A queue holds at most what was wanted, and if it is short no EMPTY segment is left above slot B. */
  lemma ShortOnlyWhenExhausted(l: Layout, a: Alloc, n: nat, b: Alloc, q: QueueId)
    requires Served(l, a, AllDemands(l, a, n), b) && q in b.queues
    ensures |Contents(l, b.queues[q])| <= Wanted(l, a, n, q)
    ensures |Contents(l, b.queues[q])| < Wanted(l, a, n, q) ==>
              forall j :: l.slotB < j < |b.segs| ==> !b.segs[j].status.Empty?
  {
    CountAll(l, a, n, q);
    HandedCount(Free(l, a), AllDemands(l, a, n), q);
    if |Contents(l, b.queues[q])| < Wanted(l, a, n, q) {
      forall j | l.slotB < j < |b.segs| ensures !b.segs[j].status.Empty? {
        if b.segs[j].status.Empty? { EmptyListComplete(b.segs, l.slotB + 1, j); }
      }
    }
  }

  // ---------- the whole of mkfs ----------

  lemma {:induction false} FillListed(l: Layout, a: Alloc, s: nat, t: nat)
    ensures Listed(a, FillDemands(l, a, s, t))
    decreases s, t
  {
    if t <= 1 {
      if s > 0 { FillListed(l, a, s - 1, l.kinds); }
    } else {
      FillListed(l, a, s, t - 1);
    }
  }

  /** The demands of mkfs all name queues of the allocator it starts from. */
  lemma DemandsListed(l: Layout, a: Alloc, n: nat)
    requires Fresh(l, a, n)
    ensures Listed(a, MetaDemands(l, n)) && Listed(a, AllDemands(l, a, n))
  {
    FillListed(l, a, n, 1);
    var ds := MetaDemands(l, n);
    forall k | 0 <= k < |ds| ensures ds[k] in a.queues {
      assert ds[k] == QueueId(if k < n then 0 else k - n, l.meta);
    }
  }

  /** Every queued id lies above slot B, was EMPTY, and is OPEN with its queue's type. */
  ghost predicate QueuedAreOpen(l: Layout, a: Alloc, b: Alloc)
    requires ValidAlloc(l, b)
  {
    forall q, i :: q in b.queues && 0 <= i < |Contents(l, b.queues[q])| ==>
      var x := Contents(l, b.queues[q])[i];
      l.slotB < x < |b.segs| == |a.segs| && a.segs[x].status.Empty? && b.segs[x] == Segment(Open, q.kind)
  }

  /** No queue holds more than was wanted for it, and if one holds less no EMPTY segment is left above slot B. */
  ghost predicate FilledWhileTheyLast(l: Layout, a: Alloc, n: nat, b: Alloc)
    requires ValidAlloc(l, b)
  {
    forall q :: q in b.queues ==>
      && |Contents(l, b.queues[q])| <= Wanted(l, a, n, q)
      && (|Contents(l, b.queues[q])| < Wanted(l, a, n, q) ==>
            forall j :: l.slotB < j < |b.segs| ==> !b.segs[j].status.Empty?)
  }

  /** What mkfs promises of the allocator b it leaves, having started from a. */
  ghost predicate HandOut(l: Layout, a: Alloc, b: Alloc) {
    && ValidAlloc(l, b)
    && NoIdTwice(l, b)
    && QueuedAreOpen(l, a, b)
    && b.used - a.used == |QueuedIds(l, b)| == |Free(l, a)| - |Free(l, b)|
  }

  lemma ServedIsHandOut(l: Layout, a: Alloc, ds: seq<QueueId>, b: Alloc)
    requires Served(l, a, ds, b) && Listed(a, ds)
    ensures HandOut(l, a, b)
  {
    hide Free, Contents, QueuedIds;
    QueuedOnce(l, a, ds, b);
    QueuedConserved(l, a, ds, b);
    forall q, i | q in b.queues && 0 <= i < |Contents(l, b.queues[q])|
      ensures var x := Contents(l, b.queues[q])[i];
              l.slotB < x < |b.segs| == |a.segs| && a.segs[x].status.Empty? && b.segs[x] == Segment(Open, q.kind)
    {
      QueuedIsOpen(l, a, ds, b, q, i);
    }
  }

  /**
   Whether mkfs fails in its metadata passes or completes all three: every queued id is in one slot
   of one queue, was EMPTY above slot B and is OPEN with its queue's type, and used_segments grew
   by the number queued, which is the drop in EMPTY segments.  When it completes, a queue is short
   only if no EMPTY segment is left.
   */
  lemma MkfsHandsOut(l: Layout, a: Alloc, n: nat, ok: bool, b: Alloc)
    requires Fresh(l, a, n) && Served(l, a, if ok then AllDemands(l, a, n) else MetaDemands(l, n), b)
    ensures HandOut(l, a, b) && (ok ==> FilledWhileTheyLast(l, a, n, b))
  {
    hide Served, MetaDemands, AllDemands, Contents, Wanted, HandOut;
    DemandsListed(l, a, n);
    ServedIsHandOut(l, a, if ok then AllDemands(l, a, n) else MetaDemands(l, n), b);
    ServedValid(l, a, if ok then AllDemands(l, a, n) else MetaDemands(l, n), b);
    if ok {
      forall q | q in b.queues
        ensures |Contents(l, b.queues[q])| <= Wanted(l, a, n, q)
        ensures |Contents(l, b.queues[q])| < Wanted(l, a, n, q) ==>
                  forall j :: l.slotB < j < |b.segs| ==> !b.segs[j].status.Empty?
      {
        ShortOnlyWhenExhausted(l, a, n, b, q);
      }
    }
  }

  lemma ServedValid(l: Layout, a: Alloc, ds: seq<QueueId>, b: Alloc)
    requires Served(l, a, ds, b)
    ensures ValidAlloc(l, b) && b.queues.Keys == a.queues.Keys
  {
  }

  /** The METADATA demands come first, so with 2n EMPTY segments they are all met. */
  lemma MetaIsServed(l: Layout, a: Alloc, n: nat, b: Alloc, s: nat)
    requires Served(l, a, AllDemands(l, a, n), b) && QueueId(s, l.meta) in b.queues
    requires ValidLayout(l) && 2 * n <= |Free(l, a)| && s < n
    ensures |Contents(l, b.queues[QueueId(s, l.meta)])| == if s == 0 then n + 1 else 1
  {
    var q := QueueId(s, l.meta);
    CountFill(l, a, n, 1, q);
    HandedOthers(Free(l, a), MetaDemands(l, n), FillDemands(l, a, n, 1), q);
    HandedCount(Free(l, a), MetaDemands(l, n), q);
    CountMeta(l, n, q);
  }

  /**
   How full mkfs leaves the queues of n shards: one METADATA segment each and n more on shard 0; and
   while an EMPTY segment is left above slot B, every other queue is at its high mark, or one short
   of its ring if the mark is higher.
   */
  ghost predicate LevelsReached(l: Layout, a: Alloc, n: nat, b: Alloc)
    requires ValidAlloc(l, b) && Fresh(l, a, n) && b.queues.Keys == a.queues.Keys
  {
    && (forall s :: 0 <= s < n ==> |Contents(l, b.queues[QueueId(s, l.meta)])| == if s == 0 then n + 1 else 1)
    && (forall s, t :: 0 <= s < n && 0 < t < l.kinds && t != l.meta ==>
          var q := QueueId(s, t);
          |Contents(l, b.queues[q])| <= Min(a.queues[q].refillHigh, l.maxOpen - 1))
    && ((exists j :: l.slotB < j < |b.segs| && b.segs[j].status.Empty?) ==>
          forall s, t :: 0 <= s < n && 0 < t < l.kinds && t != l.meta ==>
            var q := QueueId(s, t);
            |Contents(l, b.queues[q])| == Min(a.queues[q].refillHigh, l.maxOpen - 1))
  }

  lemma MkfsFills(l: Layout, a: Alloc, n: nat, b: Alloc)
    requires Fresh(l, a, n) && Served(l, a, AllDemands(l, a, n), b) && 2 * n <= |Free(l, a)|
    ensures ValidAlloc(l, b) && b.queues.Keys == a.queues.Keys && LevelsReached(l, a, n, b)
  {
    hide Served, AllDemands, Contents, Free;
    ServedValid(l, a, AllDemands(l, a, n), b);
    forall s | 0 <= s < n
      ensures |Contents(l, b.queues[QueueId(s, l.meta)])| == if s == 0 then n + 1 else 1
    {
      assert QueueId(s, l.meta) in a.queues;
      MetaIsServed(l, a, n, b, s);
    }
    forall s, t | 0 <= s < n && 0 < t < l.kinds && t != l.meta
      ensures var q := QueueId(s, t);
              var level := Min(a.queues[q].refillHigh, l.maxOpen - 1);
              && |Contents(l, b.queues[q])| <= level
              && ((exists j :: l.slotB < j < |b.segs| && b.segs[j].status.Empty?) ==> |Contents(l, b.queues[q])| == level)
    {
      assert QueueId(s, t) in a.queues;
      ShortOnlyWhenExhausted(l, a, n, b, QueueId(s, t));
    }
  }

  // ---------- greedy order ----------

  /** The fill demands of an earlier point are a prefix of all of them. */
  lemma {:induction false} FillPrefix(l: Layout, a: Alloc, n: nat, s: nat, t: nat)
    requires s < n && 1 <= t <= l.kinds
    ensures FillDemands(l, a, s, t) <= FillDemands(l, a, n, 1)
    decreases n - s, l.kinds - t
  {
    if t < l.kinds {
      FillPrefix(l, a, n, s, t + 1);
    } else if s + 1 < n {
      FillPrefix(l, a, n, s + 1, 1);
    }
  }

  lemma FillStep(l: Layout, a: Alloc, s: nat, t: nat)
    requires 0 < t && t != l.meta
    ensures FillDemands(l, a, s, t + 1)
            == FillDemands(l, a, s, t) + Copies(QueueId(s, t), TargetOf(l, a, QueueId(s, t)))
  {
  }

  /** The fill demands, split around those for one queue. */
  lemma FillSplit(l: Layout, a: Alloc, n: nat, s: nat, t: nat) returns (rest: seq<QueueId>)
    requires s < n && 0 < t < l.kinds && t != l.meta
    ensures var q := QueueId(s, t);
            && FillDemands(l, a, n, 1) == FillDemands(l, a, s, t) + Copies(q, TargetOf(l, a, q)) + rest
            && Count(FillDemands(l, a, s, t), q) == 0 && Count(rest, q) == 0
  {
    hide FillDemands, Count, Copies, TargetOf;
    var q := QueueId(s, t);
    var part, all := FillDemands(l, a, s, t + 1), FillDemands(l, a, n, 1);
    FillStep(l, a, s, t);
    FillPrefix(l, a, n, s, t + 1);
    rest := all[|part|..];
    assert all == part + rest;
    CountConcat(part, rest, q);
    CountFill(l, a, s, t, q);
    CountFill(l, a, s, t + 1, q);
    CountFill(l, a, n, 1, q);
  }

  /** Demands that do not name q hand it nothing. */
  lemma {:induction false} HandedOthers(free: seq<nat>, x: seq<QueueId>, y: seq<QueueId>, q: QueueId)
    requires Count(y, q) == 0
    ensures Handed(free, x + y, q) == Handed(free, x, q)
  {
    if y == [] {
      assert x + y == x;
    } else {
      var n := |y| - 1;
      assert x + y == (x + y[..n]) + [y[n]];
      HandedSnoc(free, x + y[..n], y[n], q);
      HandedOthers(free, x, y[..n], q);
    }
  }

  lemma CopiesMore(x: seq<QueueId>, q: QueueId, c: nat)
    ensures c == 0 ==> x + Copies(q, c) == x
    ensures c > 0 ==> x + Copies(q, c) == (x + Copies(q, c - 1)) + [q] && |Copies(q, c - 1)| == c - 1
  {
  }

  /** A block of demands for q gets one block of consecutive EMPTY segments. */
  lemma {:induction false} HandedBlock(free: seq<nat>, x: seq<QueueId>, q: QueueId, c: nat)
    requires Handed(free, x, q) == []
    ensures Handed(free, x + Copies(q, c), q) == free[Min(|x|, |free|)..Min(|x| + c, |free|)]
  {
    hide Handed, Copies;
    CopiesMore(x, q, c);
    if c > 0 {
      var y := x + Copies(q, c - 1);
      HandedSnoc(free, y, q, q);
      HandedBlock(free, x, q, c - 1);
    }
  }

  lemma HandedNone(free: seq<nat>, x: seq<QueueId>, q: QueueId)
    requires Count(x, q) == 0
    ensures Handed(free, x, q) == []
  {
    assert [] + x == x;
    HandedOthers(free, [], x, q);
  }

  lemma HandedAround(free: seq<nat>, x: seq<QueueId>, q: QueueId, c: nat, y: seq<QueueId>)
    requires Count(x, q) == 0 && Count(y, q) == 0
    ensures Handed(free, x + Copies(q, c) + y, q) == free[Min(|x|, |free|)..Min(|x| + c, |free|)]
  {
    hide Count, Copies, Min, Handed;
    HandedNone(free, x, q);
    HandedBlock(free, x, q, c);
    HandedOthers(free, x + Copies(q, c), y, q);
  }

  lemma AllSplit(l: Layout, a: Alloc, n: nat, s: nat, t: nat) returns (x: seq<QueueId>, y: seq<QueueId>)
    requires s < n && 0 < t < l.kinds && t != l.meta
    ensures var q := QueueId(s, t);
            && AllDemands(l, a, n) == x + Copies(q, TargetOf(l, a, q)) + y
            && |x| == 2 * n + |FillDemands(l, a, s, t)| && Count(x, q) == 0 && Count(y, q) == 0
  {
    var q := QueueId(s, t);
    var m := MetaDemands(l, n);
    y := FillSplit(l, a, n, s, t);
    var f, c := FillDemands(l, a, s, t), Copies(q, TargetOf(l, a, q));
    x := m + f;
    assert |m| == 2 * n;
    assert m + (f + c + y) == m + f + c + y;
    CountConcat(m, f, q);
    CountMeta(l, n, q);
  }

  /**
   Pass 3 is greedy in shard and type order: the queue of shard s and type t gets the block of
   EMPTY segments that follows all earlier demands, cut off where the EMPTY segments run out.
   */
  lemma FillIsGreedy(l: Layout, a: Alloc, n: nat, b: Alloc, s: nat, t: nat)
    requires Served(l, a, AllDemands(l, a, n), b) && QueueId(s, t) in b.queues
    requires s < n && 0 < t < l.kinds && t != l.meta
    ensures var q, free := QueueId(s, t), Free(l, a);
            var from := 2 * n + |FillDemands(l, a, s, t)|;
            Contents(l, b.queues[q]) == free[Min(from, |free|)..Min(from + TargetOf(l, a, q), |free|)]
  {
    hide AllDemands, FillDemands, Handed, Contents, EmptyList;
    var x, y := AllSplit(l, a, n, s, t);
    HandedAround(Free(l, a), x, QueueId(s, t), TargetOf(l, a, QueueId(s, t)), y);
  }
}
