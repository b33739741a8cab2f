/** What holds over every run of the manifest cache, and where the cache departs from a map. */
module ManifestCacheRuns {
  import opened MetaTypes
  import opened ManifestCache

  datatype Op = Put(k: ObjectKey, m: Manifest) | Look(k: ObjectKey) | Drop(k: ObjectKey)

  function Step(t: Table, op: Op): (t': Table)
    requires |t.slots| > 0
    ensures |t'.slots| == |t.slots|
  {
    match op
    case Put(k, m) => InsertIn(t, k, m)
    case Look(_) => t
    case Drop(k) => InvalidateIn(t, k)
  }

  function RunFrom(t: Table, ops: seq<Op>): (t': Table)
    requires |t.slots| > 0
    ensures |t'.slots| == |t.slots|
  {
    if ops == [] then t else Step(RunFrom(t, ops[..|ops| - 1]), ops[|ops| - 1])
  }

  ghost predicate AllFit(ops: seq<Op>) {
    forall i :: 0 <= i < |ops| && ops[i].Put? ==> Fits(ops[i].k)
  }

  ghost predicate NoDrops(ops: seq<Op>) {
    forall i :: 0 <= i < |ops| ==> !ops[i].Drop?
  }

  lemma EmptyIsGood(capacity: nat)
    requires capacity > 0
    ensures Good(EmptyTable(capacity)) && HoleFree(EmptyTable(capacity).slots)
    ensures Contents(EmptyTable(capacity)) == map[]
  {
    var t := EmptyTable(capacity);
    NumValidBounds(t.slots);
    Sums.SumBounds(Marks(t.slots), 0, 0);
    forall k ensures !Present(t.slots, k) { PresentIff(t.slots, k); }
  }

  lemma {:induction false} RunKeepsGood(t: Table, ops: seq<Op>)
    requires Good(t) && AllFit(ops)
    ensures Good(RunFrom(t, ops))
  {
    if ops != [] {
      var before := RunFrom(t, ops[..|ops| - 1]);
      RunKeepsGood(t, ops[..|ops| - 1]);
      match ops[|ops| - 1]
      case Put(k, m) => InsertKeepsGood(before, k, m);
      case Look(_) =>
      case Drop(k) => InvalidateKeepsGood(before, k);
    }
  }

  lemma {:induction false} RunKeepsHoleFree(t: Table, ops: seq<Op>)
    requires Good(t) && HoleFree(t.slots) && AllFit(ops) && NoDrops(ops)
    ensures HoleFree(RunFrom(t, ops).slots)
  {
    if ops != [] {
      var before := RunFrom(t, ops[..|ops| - 1]);
      RunKeepsGood(t, ops[..|ops| - 1]);
      RunKeepsHoleFree(t, ops[..|ops| - 1]);
      match ops[|ops| - 1]
      case Put(k, m) => InsertKeepsHoleFree(before, k, m);
      case Look(_) =>
    }
  }

  // ---------- size ----------

  ghost function Ids(slots: seq<Slot>, n: nat): set<ObjectKey>
    requires n <= |slots|
  {
    set p | 0 <= p < n && slots[p].valid :: slots[p].id
  }

  /** count is the number of distinct keys stored. */
  lemma CountIsSize(t: Table)
    requires Good(t)
    ensures |Contents(t)| == t.count
  {
    IdsCount(t.slots, |t.slots|);
    assert t.slots[..|t.slots|] == t.slots;
    forall k ensures k in Contents(t).Keys <==> k in Ids(t.slots, |t.slots|) {
      ContentsGet(t, k);
      PresentIff(t.slots, k);
      if k in Ids(t.slots, |t.slots|) {
        var p :| 0 <= p < |t.slots| && t.slots[p].valid && t.slots[p].id == k;
        assert Holds(t.slots[p], k);
      }
    }
    assert Contents(t).Keys == Ids(t.slots, |t.slots|);
  }

  lemma {:induction false} IdsCount(slots: seq<Slot>, n: nat)
    requires Unique(slots) && n <= |slots|
    ensures |Ids(slots, n)| == NumValid(slots[..n])
  {
    if n > 0 {
      IdsCount(slots, n - 1);
      assert Marks(slots[..n])[..n - 1] == Marks(slots[..n - 1]);
      if slots[n - 1].valid {
        assert Ids(slots, n) == Ids(slots, n - 1) + {slots[n - 1].id};
        assert slots[n - 1].id !in Ids(slots, n - 1);
      } else {
        assert Ids(slots, n) == Ids(slots, n - 1);
      }
    }
  }

  // ---------- lookups against the map ----------

  /** A lookup agrees with the map for k exactly when no hole cuts k off from its home slot. */
  lemma LookupAgreesIff(t: Table, k: ObjectKey)
    requires Good(t)
    ensures LookupIn(t, k) == Get(Contents(t), k) <==>
            (Present(t.slots, k) ==> Reachable(t.slots, SlotOf(t.slots, k)))
    ensures LookupIn(t, k).Some? ==> LookupIn(t, k) == Get(Contents(t), k)
  {
    ContentsGet(t, k);
    if Present(t.slots, k) {
      var f := FindKey(t.slots, k, 0);
      var home := Home(k, |t.slots|);
      ProbeInjective(home, f, Distance(home, SlotOf(t.slots, k), |t.slots|), |t.slots|);
    }
  }

  /** An insert is seen by the next lookup unless the key was already stored behind a hole. */
  lemma PutThenLookup(t: Table, k: ObjectKey, m: Manifest)
    requires Good(t) && Fits(k)
    ensures LookupIn(InsertIn(t, k, m), k) == Some(m) <==> (Present(t.slots, k) ==> Visible(t.slots, k))
  {
    if Present(t.slots, k) {
      OverwriteThenLookup(t, k, m);
    } else {
      PlaceThenLookup(t, k, m);
    }
  }

  lemma OverwriteThenLookup(t: Table, k: ObjectKey, m: Manifest)
    requires Good(t) && Fits(k) && Present(t.slots, k)
    ensures LookupIn(InsertIn(t, k, m), k) == if Visible(t.slots, k) then Some(m) else None
  {
    var s, s', p := t.slots, InsertIn(t, k, m).slots, SlotOf(t.slots, k);
    SameScans(s, s', k, 0);
    assert s'[p] == s[p].(manifest := m);
  }

  /** Scans look only at validity and keys. */
  lemma {:induction false} SameScans(s: seq<Slot>, s': seq<Slot>, k: ObjectKey, i: nat)
    requires |s| == |s'| > 0 && i <= |s|
    requires forall p :: 0 <= p < |s| ==> s[p].valid == s'[p].valid && s[p].id == s'[p].id
    ensures FindKey(s, k, i) == FindKey(s', k, i)
    ensures FindHole(s, Home(k, |s|), i) == FindHole(s', Home(k, |s|), i)
    decreases |s| - i
  {
    if i < |s| { SameScans(s, s', k, i + 1); }
  }

  lemma PlaceThenLookup(t: Table, k: ObjectKey, m: Manifest)
    requires Good(t) && Fits(k) && !Present(t.slots, k)
    ensures LookupIn(InsertIn(t, k, m), k) == Some(m)
  {
    AbsentAfterEvict(t, k);
    EvictKeepsGood(t);
    PlaceKeepsGood(Evict(t), k, m);
    PlacedIsVisible(Evict(t).slots, k, m);
  }

  lemma PlacedIsVisible(e: seq<Slot>, k: ObjectKey, m: Manifest)
    requires |e| > 0 && !Present(e, k) && FindHole(e, Home(k, |e|), 0) < |e|
    ensures var q := Probe(Home(k, |e|), FindHole(e, Home(k, |e|), 0), |e|);
            var s' := e[q := Slot(true, k, m)];
            Visible(s', k) && SlotOf(s', k) == q
  {
    hide HashFrom;
    var home, n := Home(k, |e|), |e|;
    var h := FindHole(e, home, 0);
    var q := Probe(home, h, n);
    var s' := e[q := Slot(true, k, m)];
    forall i | 0 <= i < h ensures s'[Probe(home, i, n)].valid && !Holds(s'[Probe(home, i, n)], k) {
      ProbeInjective(home, i, h, n);
      assert !Holds(e[Probe(home, i, n)], k);
    }
    assert Holds(s'[Probe(home, h, n)], k);
    assert FindKey(s', k, 0) == h;
  }

  /** Right after an invalidate of k, a lookup of k misses, in every table whatever its history. */
  lemma DropThenLookup(t: Table, k: ObjectKey)
    requires |t.slots| > 0
    ensures LookupIn(InvalidateIn(t, k), k) == None
  {
    if Visible(t.slots, k) {
      var s' := InvalidateIn(t, k).slots;
      var home, f := Home(k, |s'|), FindKey(t.slots, k, 0);
      assert !s'[Probe(home, f, |s'|)].valid;
      assert FindHole(s', home, 0) <= f;
      forall i | 0 <= i < f ensures !Holds(s'[Probe(home, i, |s'|)], k) {
        ProbeInjective(home, i, f, |s'|);
        assert !Holds(t.slots[Probe(home, i, |s'|)], k);
      }
    }
  }

  /** An invalidate removes k from the map exactly when k is not hidden behind a hole. */
  lemma DropContents(t: Table, k: ObjectKey)
    requires Good(t)
    ensures forall x :: x != k ==> Get(Contents(InvalidateIn(t, k)), x) == Get(Contents(t), x)
    ensures k !in Contents(InvalidateIn(t, k)) <==> (k in Contents(t) ==> Visible(t.slots, k))
  {
    hide Home, FindKey, FindHole, NumValid;
    var t' := InvalidateIn(t, k);
    InvalidateKeepsGood(t, k);
    ContentsGet(t, k);
    ContentsGet(t', k);
    if Visible(t.slots, k) {
      var s, s', p := t.slots, t'.slots, SlotOf(t.slots, k);
      PresentIff(s', k);
      forall q | 0 <= q < |s'| ensures !Holds(s'[q], k) {
        if q != p && Holds(s[q], k) { SlotIsUnique(s, k, q); }
      }
      forall x | x != k ensures Get(Contents(t'), x) == Get(Contents(t), x) {
        ContentsGet(t, x);
        ContentsGet(t', x);
        PresentIff(s, x);
        PresentIff(s', x);
        if Present(s, x) {
          var q := SlotOf(s, x);
          assert Holds(s'[q], x);
          SlotIsUnique(s', x, q);
        } else {
          assert forall q :: 0 <= q < |s| ==> !Holds(s[q], x);
          assert forall q :: 0 <= q < |s'| ==> !Holds(s'[q], x);
        }
      }
    }
  }

  // ---------- runs with invalidates ----------

  /** The manifest of the last insert of k in a run. */
  function LastPut(ops: seq<Op>, k: ObjectKey): Option<Manifest> {
    if ops == [] then None
    else
      var last := ops[|ops| - 1];
      if last.Put? && last.k == k then Some(last.m) else LastPut(ops[..|ops| - 1], k)
  }

  /** One step leaves a stored manifest alone or is the insert that put it there. */
  lemma StepStored(t: Table, op: Op, k: ObjectKey)
    requires Good(t) && (op.Put? ==> Fits(op.k))
    ensures k in Contents(Step(t, op)) ==>
              if op.Put? && op.k == k then Contents(Step(t, op))[k] == op.m
              else k in Contents(t) && Contents(Step(t, op))[k] == Contents(t)[k]
  {
    match op
    case Put(x, m) => InsertGet(t, x, m, k);
    case Look(_) =>
    case Drop(x) =>
      DropContents(t, x);
      assert k != x ==> Get(Contents(Step(t, op)), k) == Get(Contents(t), k);
      if k == x && k in Contents(Step(t, op)) { assert Step(t, op) == t; }
  }

  lemma {:induction false} StoredIsLastPut(capacity: nat, ops: seq<Op>, k: ObjectKey)
    requires capacity > 0 && AllFit(ops)
    ensures Good(RunFrom(EmptyTable(capacity), ops))
    ensures k in Contents(RunFrom(EmptyTable(capacity), ops)) ==>
              LastPut(ops, k) == Some(Contents(RunFrom(EmptyTable(capacity), ops))[k])
  {
    EmptyIsGood(capacity);
    RunKeepsGood(EmptyTable(capacity), ops);
    if ops != [] {
      var rest := ops[..|ops| - 1];
      RunKeepsGood(EmptyTable(capacity), rest);
      StoredIsLastPut(capacity, rest, k);
      StepStored(RunFrom(EmptyTable(capacity), rest), ops[|ops| - 1], k);
    }
  }

  /**
   Over every run, invalidates included: no key sits in two valid slots, count is the number
   of valid slots and stays within capacity, a hit carries the last manifest inserted for the
   key, and a lookup right after an invalidate misses.
   */
  lemma EveryRun(capacity: nat, ops: seq<Op>, k: ObjectKey)
    requires capacity > 0 && AllFit(ops)
    ensures var t := RunFrom(EmptyTable(capacity), ops);
            && Unique(t.slots)
            && t.count == NumValid(t.slots) == |Contents(t)|
            && 0 <= t.count <= capacity
            && (LookupIn(t, k).Some? ==> LookupIn(t, k) == LastPut(ops, k))
            && LookupIn(RunFrom(EmptyTable(capacity), ops + [Drop(k)]), k) == None
  {
    var t := RunFrom(EmptyTable(capacity), ops);
    StoredIsLastPut(capacity, ops, k);
    NumValidBounds(t.slots);
    CountIsSize(t);
    LookupAgreesIff(t, k);
    DropThenLookup(t, k);
    assert (ops + [Drop(k)])[..|ops|] == ops;
  }

  // ---------- runs without invalidates ----------

  /** A map of bounded size and the key it would give up for a new one. */
  datatype Bounded = Bounded(entries: map<ObjectKey, Manifest>, victim: ObjectKey)

  /**
   The reference for runs without invalidates: a map in which a new key at the bound replaces the
   victim and is the next victim itself.  The first victim is a parameter.
   */
  function Reference(capacity: nat, first: ObjectKey, ops: seq<Op>): Bounded {
    if ops == [] then Bounded(map[], first)
    else
      var r := Reference(capacity, first, ops[..|ops| - 1]);
      match ops[|ops| - 1]
      case Put(k, m) =>
        if k in r.entries || |r.entries| < capacity then r.(entries := r.entries[k := m])
        else Bounded((r.entries - {r.victim})[k := m], k)
      case _ => r
  }

  /** The table is full after a run. */
  predicate Full(capacity: nat, ops: seq<Op>)
    requires capacity > 0
  {
    RunFrom(EmptyTable(capacity), ops).count >= capacity
  }

  /** The key in slot 0 when the table first became full, or after the run if it never did. */
  function FirstVictim(capacity: nat, ops: seq<Op>): ObjectKey
    requires capacity > 0
  {
    if ops != [] && Full(capacity, ops[..|ops| - 1]) then FirstVictim(capacity, ops[..|ops| - 1])
    else RunFrom(EmptyTable(capacity), ops).slots[0].id
  }

  lemma {:induction false} ContentsAreReference(capacity: nat, first: ObjectKey, ops: seq<Op>)
    requires capacity > 0 && AllFit(ops) && NoDrops(ops)
    requires Full(capacity, ops) ==> first == FirstVictim(capacity, ops)
    ensures var t, r := RunFrom(EmptyTable(capacity), ops), Reference(capacity, first, ops);
            Contents(t) == r.entries && r.victim == if Full(capacity, ops) then t.slots[0].id else first
  {
    hide Contents, InsertIn, FindKey;
    EmptyIsGood(capacity);
    if ops == [] {
      NumValidBounds(EmptyTable(capacity).slots);
    } else {
      var rest, op := ops[..|ops| - 1], ops[|ops| - 1];
      var before := RunFrom(EmptyTable(capacity), rest);
      RunKeepsGood(EmptyTable(capacity), rest);
      if op.Put? {
        PutKeepsFull(before, op.k, op.m);
        ContentsAreReference(capacity, first, rest);
        CountIsSize(before);
        PutFollows(before, Reference(capacity, first, rest), op.k, op.m);
      } else {
        ContentsAreReference(capacity, first, rest);
      }
    }
  }

  lemma PutKeepsFull(t: Table, k: ObjectKey, m: Manifest)
    requires Good(t) && Fits(k)
    ensures t.count >= |t.slots| ==> InsertIn(t, k, m).count >= |t.slots|
  {
    EvictKeepsGood(t);
    if t.count >= |t.slots| { PutIntoFull(t, k, m); }
  }

  /** One insert moves the table and the reference alike. */
  lemma PutFollows(t: Table, r: Bounded, k: ObjectKey, m: Manifest)
    requires Good(t) && Fits(k) && Contents(t) == r.entries
    requires t.count >= |t.slots| ==> t.slots[0].id == r.victim
    ensures var t' := InsertIn(t, k, m);
            if k in r.entries || |r.entries| < |t.slots| then Contents(t') == r.entries[k := m]
            else Contents(t') == (r.entries - {r.victim})[k := m]
    ensures var t' := InsertIn(t, k, m);
            t.count >= |t.slots| ==> t'.slots[0].id == if k in r.entries then r.victim else k
  {
    hide NumValid, FindKey, Contents;
    InsertContents(t, k, m);
    CountIsSize(t);
    NumValidBounds(t.slots);
    ContentsGet(t, k);
    if t.count < |t.slots| {
      assert Contents(t) - Victim(t) == Contents(t);
    } else {
      EvictKeepsGood(t);
      PutIntoFull(t, k, m);
    }
  }

  /** Without invalidates a lookup is exactly a lookup in the reference map, for every key. */
  lemma RunsWithoutDropsAreExact(capacity: nat, ops: seq<Op>, k: ObjectKey)
    requires capacity > 0 && AllFit(ops) && NoDrops(ops)
    ensures var r := Reference(capacity, FirstVictim(capacity, ops), ops).entries;
            LookupIn(RunFrom(EmptyTable(capacity), ops), k) == Get(r, k) && |r| <= capacity
  {
    hide Reference, Contents, FirstVictim;
    var t := RunFrom(EmptyTable(capacity), ops);
    EmptyIsGood(capacity);
    RunKeepsGood(EmptyTable(capacity), ops);
    RunKeepsHoleFree(EmptyTable(capacity), ops);
    ContentsAreReference(capacity, FirstVictim(capacity, ops), ops);
    LookupAgreesIff(t, k);
    CountIsSize(t);
    NumValidBounds(t.slots);
  }

  /** With every slot valid, each stored key is found. */
  lemma FullTableFindsAll(t: Table, p: nat)
    requires Good(t) && t.count == |t.slots| && p < |t.slots|
    ensures LookupIn(t, t.slots[p].id).Some?
  {
    EvictKeepsGood(t);
    SlotIsUnique(t.slots, t.slots[p].id, p);
    assert FindHole(t.slots, Home(t.slots[p].id, |t.slots|), 0) == |t.slots|;
  }

  /**
   Once the table is full, every key outside slot 0 stays for ever: whatever is inserted,
   only the key in slot 0 is ever replaced.
   */
  lemma {:induction false} FullTablePinsAllButSlotZero(t: Table, ops: seq<Op>, p: nat)
    requires Good(t) && t.count == |t.slots| && AllFit(ops) && NoDrops(ops)
    requires 0 < p < |t.slots|
    ensures RunFrom(t, ops).count == |t.slots|
    ensures RunFrom(t, ops).slots[p].id == t.slots[p].id
    ensures LookupIn(RunFrom(t, ops), t.slots[p].id).Some?
  {
    RunKeepsGood(t, ops);
    if ops != [] {
      RunKeepsGood(t, ops[..|ops| - 1]);
      FullTablePinsAllButSlotZero(t, ops[..|ops| - 1], p);
      StepInFull(RunFrom(t, ops[..|ops| - 1]), ops[|ops| - 1], p);
    }
    FullTableFindsAll(RunFrom(t, ops), p);
  }

  lemma StepInFull(t: Table, op: Op, p: nat)
    requires Good(t) && t.count == |t.slots| && !op.Drop? && (op.Put? ==> Fits(op.k))
    requires 0 < p < |t.slots|
    ensures Step(t, op).count == |t.slots|
    ensures Step(t, op).slots[p].id == t.slots[p].id
  {
    if op.Put? { PutIntoFull(t, op.k, op.m); }
  }

  /** A new key takes slot 0 of a full table, so it is itself the next one to go. */
  lemma PutIntoFull(t: Table, k: ObjectKey, m: Manifest)
    requires Good(t) && t.count == |t.slots| && Fits(k)
    ensures InsertIn(t, k, m).count == |t.slots|
    ensures !Present(t.slots, k) ==> InsertIn(t, k, m).slots == t.slots[0 := Slot(true, k, m)]
    ensures forall p :: 0 < p < |t.slots| ==> InsertIn(t, k, m).slots[p].id == t.slots[p].id
  {
    if !Present(t.slots, k) {
      AbsentAfterEvict(t, k);
      EvictKeepsGood(t);
      PlaceKeepsGood(Evict(t), k, m);
      var e := Evict(t).slots;
      var q := Probe(Home(k, |e|), FindHole(e, Home(k, |e|), 0), |e|);
      assert q == 0;
      assert e[0 := Slot(true, k, m)] == t.slots[0 := Slot(true, k, m)];
    }
  }

  // ---------- where the cache is not a map ----------

  /**
   In any table, holes or not, after dropping a another stored key x is missed exactly when it was
   missed before, or a was found and its slot lies on the way from the home slot of x to its slot.
   */
  lemma DropHidesIff(t: Table, a: ObjectKey, x: ObjectKey)
    requires Good(t) && a != x && Present(t.slots, x)
    ensures var s, n, home := t.slots, |t.slots|, Home(x, |t.slots|);
            LookupIn(InvalidateIn(t, a), x) == None <==>
            !Visible(s, x)
            || (Visible(s, a) && Distance(home, SlotOf(s, a), n) < Distance(home, SlotOf(s, x), n))
  {
    hide HashFrom, NumValid, Unique;
    if Visible(t.slots, a) {
      var s, s', p, q := t.slots, InvalidateIn(t, a).slots, SlotOf(t.slots, a), SlotOf(t.slots, x);
      assert s' == s[p := s[p].(valid := false)];
      InvalidateKeepsGood(t, a);
      assert Holds(s'[q], x);
      SlotIsUnique(s', x, q);
      var home, n := Home(x, |s|), |s|;
      VisibleIff(s, x);
      VisibleIff(s', x);
      forall i | 0 <= i < Distance(home, q, n)
        ensures s'[Probe(home, i, n)].valid <==> s[Probe(home, i, n)].valid && i != Distance(home, p, n)
      {
        ProbeInjective(home, i, Distance(home, p, n), n);
      }
    }
  }

  /** A stored key is found exactly if every slot on its way is valid. */
  lemma VisibleIff(s: seq<Slot>, k: ObjectKey)
    requires |s| > 0 && Present(s, k)
    ensures var home := Home(k, |s|);
            Visible(s, k) <==>
            forall i :: 0 <= i < Distance(home, SlotOf(s, k), |s|) ==> s[Probe(home, i, |s|)].valid
  {
    var home := Home(k, |s|);
    ProbeInjective(home, FindKey(s, k, 0), Distance(home, SlotOf(s, k), |s|), |s|);
  }

  /** The table after put a, put b and drop a, for keys with one home slot. */
  function Punched(a: ObjectKey, b: ObjectKey, m: Manifest, w: Manifest, capacity: nat): (t: Table)
    requires capacity > 0
    ensures |t.slots| == capacity
  {
    InvalidateIn(InsertIn(InsertIn(EmptyTable(capacity), a, m), b, w), a)
  }

  /** b sits at distance 1 from the home slot, which holds a while a is stored; all else is empty. */
  ghost predicate TwoStored(t: Table, a: ObjectKey, b: ObjectKey, w: Manifest, stored: bool)
    requires |t.slots| >= 2
  {
    var home, n := Home(a, |t.slots|), |t.slots|;
    && Home(b, n) == home
    && t.slots[home].valid == stored && (stored ==> t.slots[home].id == a)
    && t.slots[Probe(home, 1, n)] == Slot(true, b, w)
    && (forall p :: 0 <= p < n && p != home && p != Probe(home, 1, n) ==> !t.slots[p].valid)
    && t.count == if stored then 2 else 1
  }

  lemma PutBoth(a: ObjectKey, b: ObjectKey, m: Manifest, w: Manifest, capacity: nat)
    requires capacity >= 2 && a != b && Fits(a) && Fits(b) && Home(a, capacity) == Home(b, capacity)
    ensures TwoStored(InsertIn(InsertIn(EmptyTable(capacity), a, m), b, w), a, b, w, true)
  {
    hide HashFrom;
    var e, home := EmptyTable(capacity), Home(a, capacity);
    PresentIff(e.slots, a);
    assert Probe(home, 0, capacity) == home != Probe(home, 1, capacity);
    assert FindHole(e.slots, home, 0) == 0;
    var t := InsertIn(e, a, m);
    assert t == Table(e.slots[home := Slot(true, a, m)], 1);
    PresentIff(t.slots, b);
    assert FindHole(t.slots, home, 0) == FindHole(t.slots, home, 1) == 1;
    assert capacity == 2 || t.count < capacity;
  }

  lemma DropFirst(t: Table, a: ObjectKey, b: ObjectKey, w: Manifest)
    requires |t.slots| >= 2 && a != b && TwoStored(t, a, b, w, true)
    ensures TwoStored(InvalidateIn(t, a), a, b, w, false)
  {
    hide HashFrom;
    assert Probe(Home(a, |t.slots|), 0, |t.slots|) == Home(a, |t.slots|);
    assert FindKey(t.slots, a, 0) == 0;
  }

  /** Behind the hole b is found by no operation that stops at a hole, and overwritten in place. */
  lemma HiddenSecond(t: Table, a: ObjectKey, b: ObjectKey, w: Manifest, m: Manifest)
    requires |t.slots| >= 2 && a != b && TwoStored(t, a, b, w, false)
    ensures LookupIn(t, b) == None && InvalidateIn(t, b) == t
    ensures TwoStored(InsertIn(t, b, m), a, b, m, false) && InsertIn(t, b, m).count == t.count
  {
    hide HashFrom;
    var home, n := Home(b, |t.slots|), |t.slots|;
    assert Probe(home, 0, n) == home;
    assert FindHole(t.slots, home, 0) == 0;
    assert FindKey(t.slots, b, 0) == FindKey(t.slots, b, 1) == 1;
  }

  lemma PutFirstAgain(t: Table, a: ObjectKey, b: ObjectKey, w: Manifest, m: Manifest)
    requires |t.slots| >= 2 && a != b && Fits(a) && TwoStored(t, a, b, w, false)
    ensures LookupIn(InsertIn(t, a, m), b) == Some(w)
  {
    hide HashFrom;
    var home, n := Home(a, |t.slots|), |t.slots|;
    PresentIff(t.slots, a);
    assert Probe(home, 0, n) == home;
    assert FindHole(t.slots, home, 0) == 0;
    var u := InsertIn(t, a, m);
    assert u.slots == t.slots[home := Slot(true, a, m)];
    assert FindKey(u.slots, b, 0) == FindKey(u.slots, b, 1) == 1;
    assert FindHole(u.slots, home, 0) == FindHole(u.slots, home, 1) == FindHole(u.slots, home, 2) >= 2;
  }

  /**
   Any two keys with one home slot, in any table of two or more slots: after put a, put b, drop a,
   the stored b is missed, putting b again is still missed, dropping b changes nothing, and putting
   a makes the dropped b visible with the manifest put last.
   */
  lemma DroppedKeyComesBack(a: ObjectKey, b: ObjectKey, m: Manifest, w: Manifest, x: Manifest, capacity: nat)
    requires capacity >= 2 && a != b && Fits(a) && Fits(b) && Home(a, capacity) == Home(b, capacity)
    ensures var t := Punched(a, b, m, w, capacity);
            && LookupIn(t, b) == None && InvalidateIn(t, b) == t
            && LookupIn(InsertIn(t, a, m), b) == Some(w)
            && var u := InsertIn(t, b, x);
               && LookupIn(u, b) == None && InvalidateIn(u, b) == u
               && LookupIn(InsertIn(InvalidateIn(u, b), a, m), b) == Some(x)
  {
    hide HashFrom, TwoStored, LookupIn, InsertIn, InvalidateIn;
    var t := Punched(a, b, m, w, capacity);
    PutBoth(a, b, m, w, capacity);
    DropFirst(InsertIn(InsertIn(EmptyTable(capacity), a, m), b, w), a, b, w);
    HiddenSecond(t, a, b, w, x);
    PutFirstAgain(t, a, b, w, m);
    var u := InsertIn(t, b, x);
    HiddenSecond(u, a, b, x, x);
    PutFirstAgain(u, a, b, x, m);
  }

  /** Such keys exist for every bucket and every capacity: the names Aa and BB have one hash. */
  lemma CollidingKeys(bucket: Name, capacity: nat)
    requires capacity > 0 && |bucket| <= MAX_BUCKET_LENGTH
    ensures var a, b := ObjectKey(bucket, [65, 97]), ObjectKey(bucket, [66, 66]);
            a != b && Fits(a) && Fits(b) && Home(a, capacity) == Home(b, capacity)
  {
    hide HashFrom, HashRound;
    var h := HashFrom(0, bucket);
    CollidingRounds(h);
    TwoRounds(h, 65, 97);
    TwoRounds(h, 66, 66);
    assert [65, 97][0] != [66, 66][0];
  }

  lemma CollidingRounds(h: nat)
    ensures HashRound(HashRound(h, 65), 97) == HashRound(HashRound(h, 66), 66)
  {
    var x := h * 31 + 65;
    assert (x % MASK == MASK - 1 && (x + 1) % MASK == 0) || (x + 1) % MASK == x % MASK + 1;
  }

  lemma TwoRounds(h: nat, c: Byte, d: Byte)
    ensures HashFrom(h, [c, d]) == HashRound(HashRound(h, c), d)
  {
    assert [c, d][1..] == [d] && [d][1..] == [];
    assert HashFrom(HashRound(h, c), [d]) == HashFrom(HashRound(HashRound(h, c), d), []);
  }

  /**
   Inserting k keeps every well-formed table of two or more slots well-formed exactly when k
   fits the entry's arrays: a longer key is cut when stored, is not found again, and is stored twice.
   */
  lemma InsertIsSafeIffFits(k: ObjectKey, m: Manifest, capacity: nat)
    requires capacity >= 2
    ensures Fits(k) <==>
            forall t: Table :: Good(t) && |t.slots| == capacity ==> Unique(InsertIn(t, k, m).slots)
  {
    if Fits(k) {
      forall t: Table | Good(t) && |t.slots| == capacity ensures Unique(InsertIn(t, k, m).slots) {
        InsertKeepsGood(t, k, m);
      }
    } else {
      LongKeyStoredTwice(k, m, capacity);
    }
  }

  /** What is stored of a key: of each name the longest leading part that fits its array. */
  lemma StoredIsLongestPrefix(k: ObjectKey, bucket: Name, key: Name)
    requires bucket <= k.bucket && key <= k.key
    ensures var s := Stored(k);
            && Fits(s) && s.bucket <= k.bucket && s.key <= k.key
            && (Fits(ObjectKey(bucket, key)) ==> |bucket| <= |s.bucket| && |key| <= |s.key|)
  {
  }

  lemma LongKeyStoredTwice(k: ObjectKey, m: Manifest, capacity: nat)
    requires capacity >= 2 && !Fits(k)
    ensures var t := InsertIn(EmptyTable(capacity), k, m);
            Good(t) && |t.slots| == capacity && !Unique(InsertIn(t, k, m).slots)
  {
    var e := EmptyTable(capacity);
    EmptyIsGood(capacity);
    PresentIff(e.slots, k);
    var home := Home(k, capacity);
    assert FindHole(e.slots, home, 0) == 0;
    var t := InsertIn(e, k, m);
    assert t.slots == e.slots[home := Slot(true, Stored(k), m)];
    NumValidUpdate(e.slots, home, Slot(true, Stored(k), m));
    assert Stored(k) != k;
    PresentIff(t.slots, k);
    assert forall p :: 0 <= p < capacity ==> !Holds(t.slots[p], k);
    assert Probe(home, 0, capacity) == home;
    assert Probe(home, 1, capacity) != home;
    assert FindHole(t.slots, home, 1) == 1;
    assert FindHole(t.slots, home, 0) == 1;
    var s' := InsertIn(t, k, m).slots;
    assert s'[Probe(home, 1, capacity)] == Slot(true, Stored(k), m) == s'[home];
  }
}
