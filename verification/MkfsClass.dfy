/** The segment allocator that mkfs fills in place. */
module MkfsClass {
  import opened Mkfs
  import opened MkfsHandOut

  class Allocator {
    const layout: Layout
    const segments: array<Segment>
    var used: int
    var dirty: bool
    var queues: map<QueueId, Queue>

    constructor (layout: Layout, segments: array<Segment>, used: int, queues: map<QueueId, Queue>)
      ensures this.layout == layout && this.segments == segments
      ensures this.used == used && this.queues == queues && !dirty
    {
      this.layout := layout;
      this.segments := segments;
      this.used := used;
      this.queues := queues;
      this.dirty := false;
    }

    ghost function Value(): (a: Alloc)
      reads this, segments
    {
      Alloc(segments[..], used, dirty, queues)
    }

    /** No EMPTY segment lies between slot B and the cursor. */
    ghost predicate CursorAt(next: nat)
      reads this, segments
    {
      layout.slotB + 1 <= next <= segments.Length
      && forall j :: layout.slotB < j < next ==> !segments[j].status.Empty?
    }

    /** Mark the segment OPEN, count it and queue it. */
    method HandOver(j: nat, q: QueueId)
      requires ValidAlloc(layout, Value()) && q in queues && j < segments.Length
      modifies this, segments
      ensures Value() == Assign(layout, old(Value()), j, q)
    {
      hide Push, ValidQueue;
      ghost var a := Value();
      segments[j] := Segment(Open, q.kind);
      assert segments[..] == a.segs[j := Segment(Open, q.kind)];
      used := used + 1;
      dirty := true;
      queues := queues[q := Push(layout, queues[q], j)];
    }

    /** One scan from the cursor; what it finds is the first EMPTY segment above slot B. */
    method TakeSegment(next: nat, q: QueueId) returns (found: bool, next': nat)
      requires ValidAlloc(layout, Value()) && q in queues && CursorAt(next)
      modifies this, segments
      ensures found <==> old(Free(layout, Value())) != []
      ensures found ==> old(Free(layout, Value()))[0] < segments.Length
      ensures found ==> Value() == Assign(layout, old(Value()), old(Free(layout, Value()))[0], q)
      ensures !found ==> Value() == old(Value())
      ensures CursorAt(next')
    {
      hide EmptyList, Active, Contents, ValidQueue, FirstEmpty;
      ghost var a := Value();
      NoneLeft(a.segs, layout.slotB + 1);
      if Free(layout, a) != [] { FreeAfterAssign(layout, a, q); }
      var j := Scan(next);
      if j < segments.Length {
        HandOver(j, q);
        return true, j + 1;
      }
      return false, next;
    }

    /** The innermost loop: from the cursor to the first EMPTY segment. */
    method Scan(next: nat) returns (j: nat)
      requires CursorAt(next)
      ensures next <= j <= segments.Length
      ensures j < segments.Length <==> HasEmpty(segments[..], layout.slotB + 1)
      ensures j < segments.Length ==> j == FirstEmpty(segments[..], layout.slotB + 1)
      ensures forall i :: layout.slotB < i < j ==> !segments[i].status.Empty?
    {
      ghost var segs := segments[..];
      SkipTaken(segs, layout.slotB + 1, next);
      j := next;
      while j < segments.Length
        invariant next <= j <= segments.Length
        invariant FirstEmpty(segs, layout.slotB + 1) == FirstEmpty(segs, j)
        invariant forall i :: layout.slotB < i < j ==> !segments[i].status.Empty?
      {
        if segments[j].status.Empty? {
          return;
        }
        j := j + 1;
      }
    }

    /** Serve one more demand, if a segment is left. */
    method ServeNext(next: nat, q: QueueId, ghost a: Alloc, ghost ds: seq<QueueId>)
      returns (found: bool, next': nat)
      requires Served(layout, a, ds, Value()) && q in queues && CursorAt(next)
      requires Count(ds, q) + 1 < layout.maxOpen
      modifies this, segments
      ensures Served(layout, a, ds + [q], Value())
      ensures found <==> |ds| < |Free(layout, a)|
      ensures CursorAt(next') && queues.Keys == old(queues.Keys)
    {
      hide SegsAfter, QueuesAfter, Count, EmptyList, Contents, ValidQueue;
      if |ds| < |Free(layout, a)| {
        ServedMore(layout, a, ds, Value(), q);
      } else {
        ServedExhausted(layout, a, ds, [q], Value());
      }
      found, next' := TakeSegment(next, q);
    }

    /** A loop of scans for the same queue, stopped by the first scan that finds nothing. */
    method ServeCopies(next: nat, q: QueueId, n: nat, ghost a: Alloc, ghost ds: seq<QueueId>)
      returns (ok: bool, next': nat)
      requires Served(layout, a, ds, Value()) && q in queues && CursorAt(next)
      requires Count(ds, q) + n < layout.maxOpen
      modifies this, segments
      ensures Served(layout, a, ds + Copies(q, n), Value())
      ensures ok <==> n == 0 || |ds| + n <= |Free(layout, a)|
      ensures CursorAt(next')
    {
      hide Served, Count, EmptyList, Contents, ValidAlloc;
      next' := next;
      var k := 0;
      assert ds + Copies(q, 0) == ds;
      while k < n
        invariant 0 <= k <= n && (k == 0 || |ds| + k <= |Free(layout, a)|)
        invariant Served(layout, a, ds + Copies(q, k), Value()) && q in queues && CursorAt(next')
      {
        CountConcat(ds, Copies(q, k), q);
        CountCopies(q, k, q);
        assert (ds + Copies(q, k)) + [q] == ds + Copies(q, k + 1);
        var found;
        found, next' := ServeNext(next', q, a, ds + Copies(q, k));
        if !found {
          ServedExhausted(layout, a, ds + Copies(q, k + 1), Copies(q, n - k - 1), Value());
          assert (ds + Copies(q, k + 1)) + Copies(q, n - k - 1) == ds + Copies(q, n);
          return false, next';
        }
        k := k + 1;
      }
      return true, next';
    }

    /** Pass 2: one METADATA segment onto each shard. */
    method ServeShards(n: nat, ghost a: Alloc, ghost ds: seq<QueueId>) returns (ok: bool)
      requires Served(layout, a, ds, Value()) && Fresh(layout, a, n)
      requires forall s :: 0 <= s < n ==> Count(ds, QueueId(s, layout.meta)) + 1 < layout.maxOpen
      modifies this, segments
      ensures Served(layout, a, ds + ShardDemands(layout, n), Value())
      ensures ok <==> n == 0 || |ds| + n <= |Free(layout, a)|
    {
      hide Served, Count, EmptyList, Contents, ValidQueue, ShardDemands;
      ServedValid(layout, a, ds, Value());
      var next: nat := layout.slotB + 1;
      ghost var d := ShardDemands(layout, n);
      var s := 0;
      ShardCount(layout, n);
      assert ds + d[..0] == ds;
      while s < n
        invariant 0 <= s <= n && (s == 0 || |ds| + s <= |Free(layout, a)|)
        invariant Served(layout, a, ds + d[..s], Value()) && CursorAt(next)
      {
        var q := QueueId(s, layout.meta);
        ServedValid(layout, a, ds + d[..s], Value());
        assert q in a.queues;
        ShardAskedOnce(layout, n, s, ds);
        var found;
        found, next := ServeNext(next, q, a, ds + d[..s]);
        if !found {
          ServedExhausted(layout, a, ds + d[..s + 1], d[s + 1..], Value());
          return false;
        }
        s := s + 1;
      }
      assert d[..n] == d;
      return true;
    }

    /** One round of the shard loop of pass 3: every type but METADATA. */
    method FillShard(next: nat, n: nat, s: nat, ghost a: Alloc, ghost ds: seq<QueueId>) returns (next': nat)
      requires Fresh(layout, a, n) && s < n && ds == MetaDemands(layout, n)
      requires Served(layout, a, ds + FillDemands(layout, a, s, 1), Value()) && CursorAt(next)
      modifies this, segments
      ensures Served(layout, a, ds + FillDemands(layout, a, s, layout.kinds), Value())
      ensures CursorAt(next')
    {
      hide Served, Count, EmptyList, Contents, Active, FillDemands, Target, TargetOf, MetaDemands, Copies;
      next' := next;
      var kind := 1;
      while kind < layout.kinds
        invariant 1 <= kind <= layout.kinds
        invariant Served(layout, a, ds + FillDemands(layout, a, s, kind), Value()) && CursorAt(next')
      {
        if kind != layout.meta {
          var q := QueueId(s, kind);
          FillNext(layout, a, n, s, kind, Value());
          var target := Target(layout, queues[q]);
          var need := target - Active(layout, queues[q]);
          var ok;
          ok, next' := ServeCopies(next', q, need, a, ds + FillDemands(layout, a, s, kind));
        } else {
          SkipMeta(layout, a, s);
        }
        kind := kind + 1;
      }
    }

    /**
     The queue-filling part of mkfs.  It fails exactly when fewer than 2n EMPTY segments lie above
     slot B; otherwise the k-th demand of the three passes has the k-th EMPTY segment.  Either way
     the segments handed out are accounted for.
     */
    method Mkfs(n: nat) returns (ok: bool)
      requires Fresh(layout, Value(), n) && 0 < n && n + 1 < layout.maxOpen
      modifies this, segments
      ensures ok <==> 2 * n <= |old(Free(layout, Value()))|
      ensures Served(layout, old(Value()),
                     if ok then AllDemands(layout, old(Value()), n) else MetaDemands(layout, n), Value())
      ensures HandOut(layout, old(Value()), Value())
      ensures ok ==> FilledWhileTheyLast(layout, old(Value()), n, Value())
      ensures queues.Keys == old(queues.Keys) && (ok ==> LevelsReached(layout, old(Value()), n, Value()))
    {
      hide Served, Free, HandOut, LevelsReached, FilledWhileTheyLast, MetaDemands, AllDemands, Contents;
      ok := RunPasses(n);
      ServedValid(layout, old(Value()), if ok then AllDemands(layout, old(Value()), n) else MetaDemands(layout, n), Value());
      if ok { MkfsFills(layout, old(Value()), n, Value()); }
      MkfsHandsOut(layout, old(Value()), n, ok, Value());
    }

    /** The three passes. */
    method RunPasses(n: nat) returns (ok: bool)
      requires Fresh(layout, Value(), n) && 0 < n && n + 1 < layout.maxOpen
      modifies this, segments
      ensures ok <==> 2 * n <= |old(Free(layout, Value()))|
      ensures Served(layout, old(Value()),
                     if ok then AllDemands(layout, old(Value()), n) else MetaDemands(layout, n), Value())
    {
      hide Served, Count, EmptyList, Contents;
      ghost var a := Value();
      ServedNone(layout, a);
      CountMetaParts(layout, n);
      var next: nat;
      ok, next := ServeCopies(layout.slotB + 1, QueueId(0, layout.meta), n, a, []);
      assert [] + Copies(QueueId(0, layout.meta), n) == SuperblockDemands(layout, n);
      if !ok {
        ServedExhausted(layout, a, SuperblockDemands(layout, n), ShardDemands(layout, n), Value());
        return;
      }
      ok := ServeShards(n, a, SuperblockDemands(layout, n));
      if !ok {
        return;
      }
      next := layout.slotB + 1;
      var s := 0;
      assert MetaDemands(layout, n) + [] == MetaDemands(layout, n);
      while s < n
        invariant 0 <= s <= n
        invariant Served(layout, a, MetaDemands(layout, n) + FillDemands(layout, a, s, 1), Value()) && CursorAt(next)
      {
        next := FillShard(next, n, s, a, MetaDemands(layout, n));
        s := s + 1;
      }
    }
  }

  lemma CountMetaParts(l: Layout, n: nat)
    requires n + 1 < l.maxOpen
    ensures Count([], QueueId(0, l.meta)) == 0
    ensures forall s :: 0 <= s < n ==> Count(SuperblockDemands(l, n), QueueId(s, l.meta)) + 1 < l.maxOpen
  {
    forall s | 0 <= s < n ensures Count(SuperblockDemands(l, n), QueueId(s, l.meta)) + 1 < l.maxOpen {
      CountCopies(QueueId(0, l.meta), n, QueueId(s, l.meta));
    }
  }

  lemma ShardCount(l: Layout, n: nat)
    ensures |ShardDemands(l, n)| == n
  {
  }

  lemma ShardAskedOnce(l: Layout, n: nat, s: nat, ds: seq<QueueId>)
    requires s < n
    ensures Count(ds + ShardDemands(l, n)[..s], QueueId(s, l.meta)) == Count(ds, QueueId(s, l.meta))
    ensures (ds + ShardDemands(l, n)[..s]) + [QueueId(s, l.meta)] == ds + ShardDemands(l, n)[..s + 1]
    ensures (ds + ShardDemands(l, n)[..s + 1]) + ShardDemands(l, n)[s + 1..] == ds + ShardDemands(l, n)
  {
    assert ShardDemands(l, n)[..s] == ShardDemands(l, s);
    CountConcat(ds, ShardDemands(l, s), QueueId(s, l.meta));
    CountShards(l, s, QueueId(s, l.meta));
  }

  /** The queue that pass 3 is about to fill has not been asked for yet. */
  lemma NotYetAsked(l: Layout, a: Alloc, n: nat, s: nat, kind: nat)
    requires 1 <= kind < l.kinds && kind != l.meta
    ensures Count(MetaDemands(l, n) + FillDemands(l, a, s, kind), QueueId(s, kind)) == 0
  {
    CountConcat(MetaDemands(l, n), FillDemands(l, a, s, kind), QueueId(s, kind));
    CountMeta(l, n, QueueId(s, kind));
    CountFill(l, a, s, kind, QueueId(s, kind));
  }

  /** It is still empty, needs its whole target, and filling it serves the next block of demands. */
  lemma FillNext(l: Layout, a: Alloc, n: nat, s: nat, kind: nat, b: Alloc)
    requires Fresh(l, a, n) && s < n && 1 <= kind < l.kinds && kind != l.meta
    requires Served(l, a, MetaDemands(l, n) + FillDemands(l, a, s, kind), b)
    ensures var q := QueueId(s, kind);
            && q in b.queues && ValidQueue(l, b.queues[q]) && Active(l, b.queues[q]) == 0
            && Target(l, b.queues[q]) == TargetOf(l, a, q) < l.maxOpen
            && Count(MetaDemands(l, n) + FillDemands(l, a, s, kind), q) == 0
            && MetaDemands(l, n) + FillDemands(l, a, s, kind) + Copies(q, TargetOf(l, a, q))
               == MetaDemands(l, n) + FillDemands(l, a, s, kind + 1)
  {
    hide SegsAfter, Count, EmptyList, MetaDemands, Copies;
    var q := QueueId(s, kind);
    var m, f, c := MetaDemands(l, n), FillDemands(l, a, s, kind), Copies(q, TargetOf(l, a, q));
    NotYetAsked(l, a, n, s, kind);
    HandedCount(Free(l, a), m + f, q);
    assert q in a.queues;
    assert |Contents(l, b.queues[q])| == 0;
    assert FillDemands(l, a, s, kind + 1) == f + c;
    assert m + (f + c) == m + f + c;
  }

  lemma SkipMeta(l: Layout, a: Alloc, s: nat)
    requires 1 <= l.meta
    ensures FillDemands(l, a, s, l.meta + 1) == FillDemands(l, a, s, l.meta)
  {
    assert FillDemands(l, a, s, l.meta) + [] == FillDemands(l, a, s, l.meta);
  }
}
