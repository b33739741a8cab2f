/**
 The segment hand-out of mkfs (storage_engine.c): three passes scan the segment table with a
 moving cursor and append EMPTY segments to per-shard, per-type ring queues.  The passes are
 related to a demand list: the k-th demand gets the k-th EMPTY segment.
 */
module Mkfs {
  import opened Ring

  datatype Status = Empty | Open | Other

  datatype Segment = Segment(status: Status, kind: nat)

  datatype QueueId = QueueId(shard: nat, kind: nat)

  /** An open-segment queue: a ring of fixed size with one slot kept free. */
  datatype Queue = Queue(slots: seq<nat>, head: nat, tail: nat, refillHigh: nat)

  /** Constants of the segment layer: ring size, second metadata slot, METADATA code, type count. */
  datatype Layout = Layout(maxOpen: nat, slotB: nat, meta: nat, kinds: nat)

  predicate ValidLayout(l: Layout) {
    l.maxOpen >= 2 && 0 < l.meta < l.kinds
  }

  datatype Alloc = Alloc(segs: seq<Segment>, used: int, dirty: bool, queues: map<QueueId, Queue>)

  // ---------- ring queues ----------

  predicate ValidQueue(l: Layout, q: Queue) {
    |q.slots| == l.maxOpen && q.head < l.maxOpen && q.tail < l.maxOpen
  }

  function Active(l: Layout, q: Queue): (r: nat)
    requires ValidQueue(l, q)
    ensures r < l.maxOpen && r == (q.tail + l.maxOpen - q.head) % l.maxOpen
  {
    Wrap(q.tail + l.maxOpen - q.head, l.maxOpen)
  }

  /** The queued segment ids, oldest first. */
  function Contents(l: Layout, q: Queue): (r: seq<nat>)
    requires ValidQueue(l, q)
    ensures |r| == Active(l, q)
  {
    seq(Active(l, q), i requires 0 <= i < Active(l, q) => q.slots[Wrap(q.head + i, l.maxOpen)])
  }

  function Push(l: Layout, q: Queue, x: nat): (q': Queue)
    requires ValidQueue(l, q)
    ensures ValidQueue(l, q')
  {
    q.(slots := q.slots[q.tail := x], tail := Wrap(q.tail + 1, l.maxOpen))
  }

  /** A push appends, overwriting nothing queued, exactly when a slot is left to spare. */
  lemma PushAppendsIff(l: Layout, q: Queue, x: nat)
    requires ValidQueue(l, q)
    ensures Contents(l, Push(l, q, x)) == Contents(l, q) + [x] <==> Active(l, q) + 1 < l.maxOpen
  {
    if Active(l, q) + 1 < l.maxOpen {
      PushWithRoom(l, q, x);
    } else {
      assert Active(l, Push(l, q, x)) == 0;
    }
  }

  lemma PushWithRoom(l: Layout, q: Queue, x: nat)
    requires ValidQueue(l, q) && Active(l, q) + 1 < l.maxOpen
    ensures Contents(l, Push(l, q, x)) == Contents(l, q) + [x]
  {
    var q', n := Push(l, q, x), Active(l, q);
    assert q.tail == Wrap(q.head + n, l.maxOpen);
    assert Active(l, q') == n + 1;
    forall i | 0 <= i < n ensures Contents(l, q')[i] == Contents(l, q)[i] {
      assert Wrap(q.head + i, l.maxOpen) != q.tail;
    }
  }

  // ---------- the scan ----------

  /** The first EMPTY segment at or after i, or the table's length. */
  function FirstEmpty(segs: seq<Segment>, i: nat): (r: nat)
    ensures r < |segs| ==> i <= r && segs[r].status.Empty?
    ensures r <= |segs| || r == i
    decreases |segs| - i
  {
    if i >= |segs| then i else if segs[i].status.Empty? then i else FirstEmpty(segs, i + 1)
  }

  predicate HasEmpty(segs: seq<Segment>, i: nat) {
    FirstEmpty(segs, i) < |segs|
  }

  /** The EMPTY segments at or after i, in index order. */
  function EmptyList(segs: seq<Segment>, i: nat): (r: seq<nat>)
    decreases |segs| - i
  {
    if i >= |segs| then []
    else if segs[i].status.Empty? then [i] + EmptyList(segs, i + 1)
    else EmptyList(segs, i + 1)
  }

  ghost predicate Ascending(xs: seq<nat>) {
    forall k, m :: 0 <= k < m < |xs| ==> xs[k] < xs[m]
  }

  lemma {:induction false} FirstEmptyIsFirst(segs: seq<Segment>, i: nat)
    ensures forall j :: i <= j < FirstEmpty(segs, i) && j < |segs| ==> !segs[j].status.Empty?
    decreases |segs| - i
  {
    if i < |segs| && !segs[i].status.Empty? { FirstEmptyIsFirst(segs, i + 1); }
  }

  lemma {:induction false} EmptyListSound(segs: seq<Segment>, i: nat)
    ensures Ascending(EmptyList(segs, i))
    ensures forall k :: 0 <= k < |EmptyList(segs, i)| ==>
              i <= EmptyList(segs, i)[k] < |segs| && segs[EmptyList(segs, i)[k]].status.Empty?
    decreases |segs| - i
  {
    if i < |segs| { EmptyListSound(segs, i + 1); }
  }

  lemma {:induction false} EmptyListComplete(segs: seq<Segment>, i: nat, j: nat)
    requires i <= j < |segs| && segs[j].status.Empty?
    ensures j in EmptyList(segs, i)
    decreases |segs| - i
  {
    if i < j { EmptyListComplete(segs, i + 1, j); }
  }

  /** Nothing is missed by starting later, when all skipped segments are taken. */
  lemma {:induction false} SkipTaken(segs: seq<Segment>, i: nat, next: nat)
    requires i <= next <= |segs|
    requires forall j :: i <= j < next ==> !segs[j].status.Empty?
    ensures FirstEmpty(segs, i) == FirstEmpty(segs, next)
    ensures EmptyList(segs, i) == EmptyList(segs, next)
    decreases next - i
  {
    if i < next { SkipTaken(segs, i + 1, next); }
  }

  /** The first EMPTY segment is the head of the list; taking it leaves the tail. */
  lemma {:induction false} TakeFirst(segs: seq<Segment>, i: nat, s: Segment)
    requires i <= |segs| && HasEmpty(segs, i) && !s.status.Empty?
    ensures var j := FirstEmpty(segs, i);
            var free := EmptyList(segs, i);
            |free| > 0 && free[0] == j && EmptyList(segs[j := s], i) == free[1..]
  {
    var j := FirstEmpty(segs, i);
    FirstEmptyIsFirst(segs, i);
    SkipTaken(segs, i, j);
    SkipTaken(segs[j := s], i, j);
    SameSuffix(segs, segs[j := s], j + 1);
  }

  lemma {:induction false} SameSuffix(a: seq<Segment>, b: seq<Segment>, i: nat)
    requires |a| == |b| && forall j :: i <= j < |a| ==> a[j] == b[j]
    ensures EmptyList(a, i) == EmptyList(b, i)
    decreases |a| - i
  {
    if i < |a| { SameSuffix(a, b, i + 1); }
  }

  lemma NoneLeft(segs: seq<Segment>, i: nat)
    requires i <= |segs|
    ensures !HasEmpty(segs, i) <==> EmptyList(segs, i) == []
  {
    var j := FirstEmpty(segs, i);
    if j < |segs| {
      EmptyListComplete(segs, i, j);
    } else {
      FirstEmptyIsFirst(segs, i);
      SkipTaken(segs, i, |segs|);
    }
  }

  // ---------- the hand-out ----------

  predicate ValidAlloc(l: Layout, a: Alloc) {
    ValidLayout(l) && l.slotB < |a.segs| && forall q :: q in a.queues ==> ValidQueue(l, a.queues[q])
  }

  /** The EMPTY segments above slot B. */
  function Free(l: Layout, a: Alloc): seq<nat> {
    EmptyList(a.segs, l.slotB + 1)
  }

  /** Mark segment j OPEN for queue q and append it there. */
  function Assign(l: Layout, a: Alloc, j: nat, q: QueueId): (a': Alloc)
    requires ValidAlloc(l, a) && j < |a.segs| && q in a.queues
    ensures ValidAlloc(l, a') && a'.queues.Keys == a.queues.Keys && |a'.segs| == |a.segs|
  {
    Alloc(a.segs[j := Segment(Open, q.kind)], a.used + 1, true, a.queues[q := Push(l, a.queues[q], j)])
  }

  /** The segments that go to queue q when the k-th demand gets the k-th free segment. */
  function Handed(free: seq<nat>, ds: seq<QueueId>, q: QueueId): seq<nat> {
    if ds == [] then []
    else
      var n := |ds| - 1;
      Handed(free, ds[..n], q) + (if ds[n] == q && n < |free| then [free[n]] else [])
  }

  /** How many demands name q. */
  function Count(ds: seq<QueueId>, q: QueueId): nat {
    if ds == [] then 0 else Count(ds[..|ds| - 1], q) + (if ds[|ds| - 1] == q then 1 else 0)
  }

  function Min(x: nat, y: nat): nat { if x <= y then x else y }

  ghost predicate SegsAfter(before: seq<Segment>, after: seq<Segment>, free: seq<nat>, ds: seq<QueueId>) {
    && |after| == |before|
    && (forall k :: 0 <= k < |free| && k < |ds| && free[k] < |after| ==>
          after[free[k]] == Segment(Open, ds[k].kind))
    && (forall j :: 0 <= j < |after| && j !in free[..Min(|ds|, |free|)] ==> after[j] == before[j])
  }

  ghost predicate QueuesAfter(l: Layout, a: Alloc, b: Alloc, ds: seq<QueueId>)
    requires ValidAlloc(l, b)
  {
    && b.queues.Keys == a.queues.Keys
    && (forall q :: q in b.queues ==> Contents(l, b.queues[q]) == Handed(Free(l, a), ds, q))
    && (forall q :: q in b.queues ==> b.queues[q].refillHigh == a.queues[q].refillHigh)
  }

  /**
   b is a after the demands ds have been served: the k-th demand has the k-th EMPTY segment of a,
   and nothing else has changed.
   */
  ghost predicate Served(l: Layout, a: Alloc, ds: seq<QueueId>, b: Alloc) {
    var free := Free(l, a);
    var r := Min(|ds|, |free|);
    && ValidAlloc(l, b)
    && SegsAfter(a.segs, b.segs, free, ds)
    && QueuesAfter(l, a, b, ds)
    && b.used == a.used + r
    && (b.dirty <==> a.dirty || r > 0)
    && Free(l, b) == free[r..]
  }

  lemma {:induction false} HandedCount(free: seq<nat>, ds: seq<QueueId>, q: QueueId)
    ensures |Handed(free, ds, q)| <= Count(ds, q)
    ensures |ds| <= |free| ==> |Handed(free, ds, q)| == Count(ds, q)
  {
    if ds != [] { HandedCount(free, ds[..|ds| - 1], q); }
  }

  lemma HandedSnoc(free: seq<nat>, ds: seq<QueueId>, q: QueueId, p: QueueId)
    ensures Handed(free, ds + [q], p)
            == Handed(free, ds, p) + (if p == q && |ds| < |free| then [free[|ds|]] else [])
  {
    assert (ds + [q])[..|ds|] == ds;
  }

  lemma SegsMore(before: seq<Segment>, after: seq<Segment>, free: seq<nat>, ds: seq<QueueId>, q: QueueId)
    requires |ds| < |free| && free[|ds|] < |before| && Ascending(free)
    requires SegsAfter(before, after, free, ds)
    ensures SegsAfter(before, after[free[|ds|] := Segment(Open, q.kind)], free, ds + [q])
  {
    var n := |ds|;
    assert free[..n + 1] == free[..n] + [free[n]];
  }

  lemma QueuesMore(l: Layout, a: Alloc, b: Alloc, ds: seq<QueueId>, q: QueueId, j: nat)
    requires ValidAlloc(l, b) && QueuesAfter(l, a, b, ds) && j < |b.segs|
    requires q in b.queues && Count(ds, q) + 1 < l.maxOpen
    requires |ds| < |Free(l, a)| && j == Free(l, a)[|ds|]
    ensures QueuesAfter(l, a, Assign(l, b, j, q), ds + [q])
  {
    var c := Assign(l, b, j, q);
    forall p | p in c.queues ensures Contents(l, c.queues[p]) == Handed(Free(l, a), ds + [q], p) {
      HandedSnoc(Free(l, a), ds, q, p);
      HandedCount(Free(l, a), ds, p);
      if p == q { PushWithRoom(l, b.queues[q], j); }
    }
  }

  /** The first EMPTY segment above slot B heads the free list, and assigning it leaves the rest. */
  lemma FreeAfterAssign(l: Layout, b: Alloc, q: QueueId)
    requires ValidAlloc(l, b) && q in b.queues && Free(l, b) != []
    ensures Free(l, b)[0] == FirstEmpty(b.segs, l.slotB + 1) < |b.segs|
    ensures Free(l, Assign(l, b, Free(l, b)[0], q)) == Free(l, b)[1..]
  {
    NoneLeft(b.segs, l.slotB + 1);
    TakeFirst(b.segs, l.slotB + 1, Segment(Open, q.kind));
  }

  /** While an EMPTY segment is left, taking the first one for q serves one more demand. */
  lemma ServedMore(l: Layout, a: Alloc, ds: seq<QueueId>, b: Alloc, q: QueueId)
    requires Served(l, a, ds, b) && q in b.queues && Count(ds, q) + 1 < l.maxOpen
    requires |ds| < |Free(l, a)|
    ensures Free(l, b) != [] && Free(l, b)[0] < |b.segs|
    ensures Served(l, a, ds + [q], Assign(l, b, Free(l, b)[0], q))
  {
    assert |b.segs| == |a.segs|;
    hide EmptyList, SegsAfter, QueuesAfter, Push, ValidQueue, Count;
    var free, n := Free(l, a), |ds|;
    assert Free(l, b)[0] == free[n] && Free(l, b)[1..] == free[n + 1..];
    FreeAfterAssign(l, b, q);
    assert Ascending(free) by { EmptyListSound(a.segs, l.slotB + 1); }
    SegsMore(a.segs, b.segs, free, ds, q);
    QueuesMore(l, a, b, ds, q, free[n]);
  }

  /** Once the EMPTY segments are used up, further demands change nothing. */
  lemma {:induction false} ServedExhausted(l: Layout, a: Alloc, ds: seq<QueueId>, more: seq<QueueId>, b: Alloc)
    requires Served(l, a, ds, b) && |Free(l, a)| <= |ds|
    ensures Served(l, a, ds + more, b)
  {
    if more == [] {
      assert ds + more == ds;
    } else {
      var n := |more| - 1;
      ServedExhausted(l, a, ds, more[..n], b);
      assert ds + more == (ds + more[..n]) + [more[n]];
      forall p | p in b.queues ensures Contents(l, b.queues[p]) == Handed(Free(l, a), ds + more, p) {
        HandedSnoc(Free(l, a), ds + more[..n], more[n], p);
      }
    }
  }

  /** Nothing demanded, nothing changed. */
  lemma ServedNone(l: Layout, a: Alloc)
    requires ValidAlloc(l, a) && forall q :: q in a.queues ==> Contents(l, a.queues[q]) == []
    ensures Served(l, a, [], a)
  {
    assert Free(l, a)[0..] == Free(l, a);
  }
}
