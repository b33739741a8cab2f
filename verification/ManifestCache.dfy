/**
 The gateway's manifest cache: an open-addressed table with linear probing and no
 tombstones (gateway_manifest_cache.c).  Table is the value of the cache;
 the class Cache changes it in place and is proved against the functions on Table.
 */
module ManifestCache {
  import opened MetaTypes
  import opened Ring
  import opened Sums

  datatype Slot = Slot(valid: bool, id: ObjectKey, manifest: Manifest)

  const EMPTY_SLOT := Slot(false, ObjectKey([], []), ZERO_MANIFEST)

  datatype Table = Table(slots: seq<Slot>, count: int)

  function EmptyTable(capacity: nat): Table {
    Table(seq(capacity, _ => EMPTY_SLOT), 0)
  }

  // ---------- make_index ----------

  const MASK := 0x8000_0000

  /** A plain char is signed on the platforms the project builds for. */
  function SignedChar(b: Byte): int {
    if b < 128 then b else b - 256
  }

  /** One round of the 31-multiplier hash, kept to 31 bits. */
  function HashRound(h: nat, b: Byte): nat {
    (h * 31 + SignedChar(b)) % MASK
  }

  function HashFrom(h: nat, s: Name): nat
    decreases |s|
  {
    if s == [] then h else HashFrom(HashRound(h, s[0]), s[1..])
  }

  function Home(k: ObjectKey, capacity: nat): (r: nat)
    requires capacity > 0
    ensures r < capacity
  {
    HashFrom(HashFrom(0, k.bucket), k.key) % capacity
  }

  function Pow31(n: nat): nat {
    if n == 0 then 1 else 31 * Pow31(n - 1)
  }

  /** The signed characters of a name as digits to the base 31, the first one the most significant. */
  function Weighted(s: Name): int {
    if s == [] then 0 else SignedChar(s[0]) * Pow31(|s| - 1) + Weighted(s[1..])
  }

  lemma {:induction false} HashIsWeighted(h: nat, s: Name)
    ensures HashFrom(h, s) % MASK == (h * Pow31(|s|) + Weighted(s)) % MASK
    decreases |s|
  {
    if s == [] {
      assert h * Pow31(0) == h;
    } else {
      var p, c, w := Pow31(|s| - 1), SignedChar(s[0]), Weighted(s[1..]);
      assert Pow31(|s|) == 31 * p && Weighted(s) == c * p + w;
      assert HashFrom(h, s) == HashFrom(HashRound(h, s[0]), s[1..]) && HashRound(h, s[0]) == (h * 31 + c) % MASK;
      HashIsWeighted(HashRound(h, s[0]), s[1..]);
      hide Pow31, Weighted, HashFrom, HashRound, SignedChar;
      TimesMod(h * 31 + c, p, w);
      Distribute(h, c, p);
    }
  }

  lemma Distribute(h: int, c: int, p: int)
    ensures (h * 31 + c) * p == h * (31 * p) + c * p
  {
  }

  lemma TimesMod(x: int, p: int, w: int)
    ensures (x % MASK * p + w) % MASK == (x * p + w) % MASK
  {
    var q := x / MASK;
    assert x * p + w == (x % MASK * p + w) + MASK * (q * p) by {
      assert x == q * MASK + x % MASK;
      assert (q * MASK + x % MASK) * p == MASK * (q * p) + x % MASK * p;
    }
    ModAdd(x % MASK * p + w, q * p);
  }

  lemma ModAdd(a: int, k: int)
    ensures (a + MASK * k) % MASK == a % MASK
  {
    var r := a + MASK * k;
    assert r == MASK * (a / MASK + k) + a % MASK;
    SameRemainder(r, a / MASK + k, a % MASK);
  }

  lemma SameRemainder(r: int, q: int, m: int)
    requires r == MASK * q + m && 0 <= m < MASK
    ensures r % MASK == m
  {
    var d := r / MASK;
    assert r == MASK * d + r % MASK;
    assert MASK * (q - d) == r % MASK - m;
  }

  lemma {:induction false} WeightedConcat(a: Name, b: Name)
    ensures Weighted(a + b) == Weighted(a) * Pow31(|b|) + Weighted(b)
  {
    if a == [] {
      assert a + b == b;
    } else {
      assert (a + b)[1..] == a[1..] + b;
      var x, y, z, w := SignedChar(a[0]), Pow31(|a| - 1), Pow31(|b|), Weighted(a[1..]);
      assert Weighted(a) == x * y + w && Weighted(a + b) == x * Pow31(|a| - 1 + |b|) + Weighted(a[1..] + b);
      WeightedConcat(a[1..], b);
      hide Pow31, Weighted, SignedChar;
      Pow31Add(|a| - 1, |b|);
      Regroup(x, y, z, w);
    }
  }

  lemma Regroup(x: int, y: int, z: int, w: int)
    ensures x * (y * z) + w * z == (x * y + w) * z
  {
  }

  lemma {:induction false} Pow31Add(m: nat, n: nat)
    ensures Pow31(m + n) == Pow31(m) * Pow31(n)
  {
    if m > 0 {
      Pow31Add(m - 1, n);
      assert 31 * (Pow31(m - 1) * Pow31(n)) == 31 * Pow31(m - 1) * Pow31(n);
    }
  }

  /** The home slot: bucket and key read as one number to the base 31, kept to 31 bits, by the capacity. */
  lemma HomeIsWeighted(k: ObjectKey, capacity: nat)
    requires capacity > 0
    ensures Home(k, capacity) == Weighted(k.bucket + k.key) % MASK % capacity
  {
    hide HashFrom, Pow31, Weighted;
    var h := HashFrom(0, k.bucket);
    HashIsWeighted(0, k.bucket);
    HashIsWeighted(h, k.key);
    WeightedConcat(k.bucket, k.key);
    TimesMod(h, Pow31(|k.key|), Weighted(k.key));
    TimesMod(Weighted(k.bucket), Pow31(|k.key|), Weighted(k.key));
    HashBelow(0, k.bucket);
    HashBelow(h, k.key);
    SmallIsOwnRemainder(HashFrom(h, k.key));
    assert h % MASK == Weighted(k.bucket) % MASK;
  }

  lemma SmallIsOwnRemainder(h: nat)
    ensures h < MASK ==> h % MASK == h
  {
  }

  lemma {:induction false} HashBelow(h: nat, s: Name)
    requires h < MASK
    ensures HashFrom(h, s) < MASK
    decreases |s|
  {
    if s != [] { HashBelow(HashRound(h, s[0]), s[1..]); }
  }

  /** The slot visited at distance i from the home slot. */
  function Probe(home: nat, i: nat, capacity: nat): (r: nat)
    requires home < capacity && i < capacity
    ensures r < capacity && r == (home + i) % capacity
  {
    Wrap(home + i, capacity)
  }

  /** The distance at which a slot is visited from a home slot: the inverse of Probe. */
  function Distance(home: nat, slot: nat, capacity: nat): (i: nat)
    requires home < capacity && slot < capacity
    ensures i < capacity && Probe(home, i, capacity) == slot
  {
    if home <= slot then slot - home else slot + capacity - home
  }

  lemma ProbeInjective(home: nat, i: nat, j: nat, capacity: nat)
    requires home < capacity && i < capacity && j < capacity
    ensures Probe(home, i, capacity) == Probe(home, j, capacity) ==> i == j
  {
  }

  // ---------- probe scans ----------

  predicate Holds(s: Slot, k: ObjectKey) {
    s.valid && s.id == k
  }

  /** The first distance at or after i whose slot holds k, or the capacity when there is none. */
  function FindKey(slots: seq<Slot>, k: ObjectKey, i: nat): (r: nat)
    requires i <= |slots| && |slots| > 0
    ensures i <= r <= |slots|
    ensures r < |slots| ==> Holds(slots[Probe(Home(k, |slots|), r, |slots|)], k)
    ensures forall j :: i <= j < r ==> !Holds(slots[Probe(Home(k, |slots|), j, |slots|)], k)
    decreases |slots| - i
  {
    if i == |slots| then i
    else if Holds(slots[Probe(Home(k, |slots|), i, |slots|)], k) then i
    else FindKey(slots, k, i + 1)
  }

  /** The first distance at or after i from home whose slot is not valid, or the capacity. */
  function FindHole(slots: seq<Slot>, home: nat, i: nat): (r: nat)
    requires i <= |slots| && home < |slots|
    ensures i <= r <= |slots|
    ensures r < |slots| ==> !slots[Probe(home, r, |slots|)].valid
    ensures forall j :: i <= j < r ==> slots[Probe(home, j, |slots|)].valid
    decreases |slots| - i
  {
    if i == |slots| then i
    else if !slots[Probe(home, i, |slots|)].valid then i
    else FindHole(slots, home, i + 1)
  }

  /** The first invalid slot in index order, or 0 when every slot is valid. */
  function Oldest(slots: seq<Slot>, i: nat): (r: nat)
    requires i <= |slots| && |slots| > 0
    ensures r < |slots|
    ensures (exists j :: i <= j < |slots| && !slots[j].valid) ==> !slots[r].valid
    ensures (forall j :: i <= j < |slots| ==> slots[j].valid) ==> r == 0
    decreases |slots| - i
  {
    if i == |slots| then 0
    else if !slots[i].valid then i
    else Oldest(slots, i + 1)
  }

  // ---------- the operations on values ----------

  function SlotOf(slots: seq<Slot>, k: ObjectKey): (r: nat)
    requires |slots| > 0 && FindKey(slots, k, 0) < |slots|
    ensures r < |slots| && Holds(slots[r], k)
  {
    Probe(Home(k, |slots|), FindKey(slots, k, 0), |slots|)
  }

  /** k is stored in a valid slot. */
  predicate Present(slots: seq<Slot>, k: ObjectKey)
    requires |slots| > 0
  {
    FindKey(slots, k, 0) < |slots|
  }

  /** k is stored and no hole lies between its home slot and its slot. */
  predicate Visible(slots: seq<Slot>, k: ObjectKey)
    requires |slots| > 0
  {
    FindKey(slots, k, 0) < FindHole(slots, Home(k, |slots|), 0)
  }

  function LookupIn(t: Table, k: ObjectKey): Option<Manifest>
    requires |t.slots| > 0
  {
    if Visible(t.slots, k) then Some(t.slots[SlotOf(t.slots, k)].manifest) else None
  }

  function InvalidateIn(t: Table, k: ObjectKey): (r: Table)
    requires |t.slots| > 0
    ensures |r.slots| == |t.slots|
  {
    if Visible(t.slots, k) then
      var p := SlotOf(t.slots, k);
      Table(t.slots[p := t.slots[p].(valid := false)], t.count - 1)
    else t
  }

  function Evict(t: Table): (r: Table)
    requires |t.slots| > 0
    ensures |r.slots| == |t.slots|
  {
    if t.count >= |t.slots| then
      var p := Oldest(t.slots, 0);
      Table(t.slots[p := t.slots[p].(valid := false)], t.count - 1)
    else t
  }

  /** strncpy into the fixed arrays of an entry. */
  function Stored(k: ObjectKey): ObjectKey {
    ObjectKey(if |k.bucket| <= MAX_BUCKET_LENGTH then k.bucket else k.bucket[..MAX_BUCKET_LENGTH],
              if |k.key| <= MAX_KEY_LENGTH then k.key else k.key[..MAX_KEY_LENGTH])
  }

  function Place(t: Table, k: ObjectKey, m: Manifest): (r: Table)
    requires |t.slots| > 0
    ensures |r.slots| == |t.slots|
  {
    var home := Home(k, |t.slots|);
    var h := FindHole(t.slots, home, 0);
    if h < |t.slots| then
      Table(t.slots[Probe(home, h, |t.slots|) := Slot(true, Stored(k), m)], t.count + 1)
    else t
  }

  function InsertIn(t: Table, k: ObjectKey, m: Manifest): (r: Table)
    requires |t.slots| > 0
    ensures |r.slots| == |t.slots|
  {
    if Present(t.slots, k) then
      var p := SlotOf(t.slots, k);
      t.(slots := t.slots[p := t.slots[p].(manifest := m)])
    else Place(Evict(t), k, m)
  }

  // ---------- invariants ----------

  ghost function Marks(slots: seq<Slot>): seq<int> {
    seq(|slots|, i requires 0 <= i < |slots| => if slots[i].valid then 1 else 0)
  }

  ghost function NumValid(slots: seq<Slot>): int {
    Sum(Marks(slots))
  }

  ghost predicate Unique(slots: seq<Slot>) {
    forall i, j :: 0 <= i < j < |slots| && slots[i].valid && slots[j].valid ==> slots[i].id != slots[j].id
  }

  /** What every operation keeps: no key twice, and count is the number of valid slots. */
  ghost predicate Good(t: Table) {
    |t.slots| > 0 && t.count == NumValid(t.slots) && Unique(t.slots)
  }

  /** No hole lies between the home slot of the key in slot p and slot p. */
  ghost predicate Reachable(slots: seq<Slot>, p: nat)
    requires p < |slots|
  {
    var home := Home(slots[p].id, |slots|);
    forall i :: 0 <= i < Distance(home, p, |slots|) ==> slots[Probe(home, i, |slots|)].valid
  }

  ghost predicate HoleFree(slots: seq<Slot>) {
    forall p :: 0 <= p < |slots| && slots[p].valid ==> Reachable(slots, p)
  }

  lemma NumValidUpdate(slots: seq<Slot>, p: nat, s: Slot)
    requires p < |slots|
    ensures NumValid(slots[p := s]) ==
            NumValid(slots) - (if slots[p].valid then 1 else 0) + (if s.valid then 1 else 0)
  {
    assert Marks(slots[p := s]) == Marks(slots)[p := if s.valid then 1 else 0];
    SumUpdate(Marks(slots), p, if s.valid then 1 else 0);
  }

  lemma NumValidBounds(slots: seq<Slot>)
    ensures 0 <= NumValid(slots) <= |slots|
  {
    SumBounds(Marks(slots), 0, 1);
  }

  /** Full means full: a count at capacity leaves no invalid slot. */
  lemma FullMeansNoHole(slots: seq<Slot>, p: nat)
    requires p < |slots| && !slots[p].valid
    ensures NumValid(slots) < |slots|
  {
    NumValidUpdate(slots, p, slots[p].(valid := true));
    NumValidBounds(slots[p := slots[p].(valid := true)]);
  }

  /** A table that is not full has a hole. */
  lemma {:induction false} NotFullHasHole(slots: seq<Slot>) returns (p: nat)
    requires NumValid(slots) < |slots|
    ensures p < |slots| && !slots[p].valid
  {
    var n := |slots| - 1;
    if !slots[n].valid {
      p := n;
    } else {
      assert Marks(slots)[..n] == Marks(slots[..n]);
      p := NotFullHasHole(slots[..n]);
    }
  }

  // ---------- scans against contents ----------

  /** Scanning finds k exactly when some valid slot holds it. */
  lemma PresentIff(slots: seq<Slot>, k: ObjectKey)
    requires |slots| > 0
    ensures Present(slots, k) <==> exists p :: 0 <= p < |slots| && Holds(slots[p], k)
  {
    if p :| 0 <= p < |slots| && Holds(slots[p], k) {
      var d := Distance(Home(k, |slots|), p, |slots|);
      assert Holds(slots[Probe(Home(k, |slots|), d, |slots|)], k);
    }
  }

  lemma SlotIsUnique(slots: seq<Slot>, k: ObjectKey, p: nat)
    requires |slots| > 0 && Unique(slots) && p < |slots| && Holds(slots[p], k)
    ensures Present(slots, k) && SlotOf(slots, k) == p
  {
    PresentIff(slots, k);
  }

  /** The map the cache stands for. */
  ghost function Contents(t: Table): map<ObjectKey, Manifest>
    requires |t.slots| > 0
  {
    map k | k in (set p | 0 <= p < |t.slots| && t.slots[p].valid :: t.slots[p].id) && Present(t.slots, k)
        :: t.slots[SlotOf(t.slots, k)].manifest
  }

  lemma ContentsGet(t: Table, k: ObjectKey)
    requires |t.slots| > 0
    ensures k in Contents(t) <==> Present(t.slots, k)
    ensures Present(t.slots, k) ==> Contents(t)[k] == t.slots[SlotOf(t.slots, k)].manifest
  {
  }

  // ---------- preservation ----------

  lemma EvictKeepsGood(t: Table)
    requires Good(t)
    ensures Good(Evict(t)) && |Evict(t).slots| == |t.slots|
    ensures NumValid(Evict(t).slots) < |t.slots|
    ensures t.count <= |t.slots|
    ensures t.count == |t.slots| ==> forall p :: 0 <= p < |t.slots| ==> t.slots[p].valid
    ensures t.count == |t.slots| ==> Evict(t).slots == t.slots[0 := t.slots[0].(valid := false)]
  {
    NumValidBounds(t.slots);
    if t.count >= |t.slots| {
      forall p | 0 <= p < |t.slots| ensures t.slots[p].valid {
        if !t.slots[p].valid { FullMeansNoHole(t.slots, p); }
      }
      NumValidUpdate(t.slots, 0, t.slots[0].(valid := false));
    }
  }

  /** After eviction there is room, so Place always writes a hole. */
  lemma PlaceKeepsGood(t: Table, k: ObjectKey, m: Manifest)
    requires Good(t) && Fits(k) && !Present(t.slots, k) && NumValid(t.slots) < |t.slots|
    ensures var home := Home(k, |t.slots|);
            var h := FindHole(t.slots, home, 0);
            && h < |t.slots|
            && Place(t, k, m).slots == t.slots[Probe(home, h, |t.slots|) := Slot(true, k, m)]
    ensures Good(Place(t, k, m))
  {
    var home := Home(k, |t.slots|);
    var q := NotFullHasHole(t.slots);
    var d := Distance(home, q, |t.slots|);
    assert !t.slots[Probe(home, d, |t.slots|)].valid;
    var p := Probe(home, FindHole(t.slots, home, 0), |t.slots|);
    NumValidUpdate(t.slots, p, Slot(true, k, m));
    PresentIff(t.slots, k);
    assert forall i :: 0 <= i < |t.slots| ==> !Holds(t.slots[i], k);
  }

  lemma AbsentAfterEvict(t: Table, k: ObjectKey)
    requires |t.slots| > 0 && !Present(t.slots, k)
    ensures !Present(Evict(t).slots, k)
  {
    PresentIff(t.slots, k);
    PresentIff(Evict(t).slots, k);
    assert forall p :: 0 <= p < |t.slots| ==> !Holds(t.slots[p], k);
  }

  lemma InsertKeepsGood(t: Table, k: ObjectKey, m: Manifest)
    requires Good(t) && Fits(k)
    ensures Good(InsertIn(t, k, m)) && |InsertIn(t, k, m).slots| == |t.slots|
  {
    if Present(t.slots, k) {
      var p := SlotOf(t.slots, k);
      NumValidUpdate(t.slots, p, t.slots[p].(manifest := m));
    } else {
      AbsentAfterEvict(t, k);
      EvictKeepsGood(t);
      PlaceKeepsGood(Evict(t), k, m);
    }
  }

  lemma InvalidateKeepsGood(t: Table, k: ObjectKey)
    requires Good(t)
    ensures Good(InvalidateIn(t, k)) && |InvalidateIn(t, k).slots| == |t.slots|
  {
    if Visible(t.slots, k) {
      var p := SlotOf(t.slots, k);
      NumValidUpdate(t.slots, p, t.slots[p].(valid := false));
    }
  }

  lemma InsertKeepsHoleFree(t: Table, k: ObjectKey, m: Manifest)
    requires Good(t) && Fits(k) && HoleFree(t.slots)
    ensures HoleFree(InsertIn(t, k, m).slots)
  {
    hide HashFrom, FindKey, Sum, Marks;
    if !Present(t.slots, k) {
      AbsentAfterEvict(t, k);
      EvictKeepsGood(t);
      PlaceKeepsGood(Evict(t), k, m);
      var s, s' := t.slots, InsertIn(t, k, m).slots;
      forall p | 0 <= p < |s'| && s'[p].valid ensures Reachable(s', p) {
        if s'[p].id == k {
          PresentIff(Evict(t).slots, k);
        } else if t.count < |s| {
          assert s'[p] == s[p] && Reachable(s, p);
        }
      }
    } else {
      var s, s' := t.slots, InsertIn(t, k, m).slots;
      forall p | 0 <= p < |s'| && s'[p].valid ensures Reachable(s', p) {
        assert s'[p].id == s[p].id && Reachable(s, p);
      }
    }
  }

  // ---------- contents after each operation ----------

  /** The key that an insert of a new key throws out of a full table. */
  ghost function Victim(t: Table): set<ObjectKey>
    requires |t.slots| > 0
  {
    if t.count >= |t.slots| then {t.slots[0].id} else {}
  }

  /** An insert is a map update; into a full table a new key also drops the key in slot 0. */
  lemma InsertContents(t: Table, k: ObjectKey, m: Manifest)
    requires Good(t) && Fits(k)
    ensures InsertKeepsGoodShape(t, k, m)
    ensures Contents(InsertIn(t, k, m)) ==
            if k in Contents(t) then Contents(t)[k := m] else (Contents(t) - Victim(t))[k := m]
  {
    hide InsertIn, Contents;
    InsertKeepsGood(t, k, m);
    ContentsGet(t, k);
    var t' := InsertIn(t, k, m);
    var want := if k in Contents(t) then Contents(t)[k := m] else (Contents(t) - Victim(t))[k := m];
    forall x ensures Get(Contents(t'), x) == Get(want, x) {
      InsertGet(t, k, m, x);
    }
    assert forall x :: (x in Contents(t') <==> x in want) && (x in want ==> Contents(t')[x] == want[x]) by {
      forall x ensures (x in Contents(t') <==> x in want) && (x in want ==> Contents(t')[x] == want[x]) {
        assert Get(Contents(t'), x) == Get(want, x);
      }
    }
  }

  ghost predicate InsertKeepsGoodShape(t: Table, k: ObjectKey, m: Manifest)
    requires |t.slots| > 0
  {
    Good(InsertIn(t, k, m)) && |InsertIn(t, k, m).slots| == |t.slots|
  }

  lemma InsertGet(t: Table, k: ObjectKey, m: Manifest, x: ObjectKey)
    requires Good(t) && Fits(k)
    ensures InsertKeepsGoodShape(t, k, m)
    ensures Get(Contents(InsertIn(t, k, m)), x) ==
            if x == k then Some(m)
            else if !Present(t.slots, k) && x in Victim(t) then None
            else Get(Contents(t), x)
  {
    hide Home, FindKey, FindHole, Sum, Marks;
    InsertKeepsGood(t, k, m);
    var s, s' := t.slots, InsertIn(t, k, m).slots;
    ContentsGet(t, x);
    ContentsGet(InsertIn(t, k, m), x);
    PresentIff(s, x);
    PresentIff(s', x);
    if Present(s, k) {
      var p := SlotOf(s, k);
      assert Holds(s'[p], k);
      if x == k { SlotIsUnique(s', k, p); }
      else if Present(s, x) {
        var q := SlotOf(s, x);
        assert Holds(s'[q], x);
        SlotIsUnique(s', x, q);
      } else {
        assert forall q :: 0 <= q < |s| ==> !Holds(s[q], x);
        assert forall q :: 0 <= q < |s| ==> !Holds(s'[q], x);
      }
    } else {
      AbsentAfterEvict(t, k);
      EvictKeepsGood(t);
      PlaceKeepsGood(Evict(t), k, m);
      PlaceGet(t, k, m, x);
    }
  }

  lemma PlaceGet(t: Table, k: ObjectKey, m: Manifest, x: ObjectKey)
    requires Good(t) && Fits(k) && !Present(t.slots, k)
    ensures InsertKeepsGoodShape(t, k, m)
    ensures Get(Contents(InsertIn(t, k, m)), x) ==
            if x == k then Some(m) else if x in Victim(t) then None else Get(Contents(t), x)
  {
    hide Home, FindKey, FindHole, Sum, Marks;
    InsertKeepsGood(t, k, m);
    AbsentAfterEvict(t, k);
    EvictKeepsGood(t);
    PlaceKeepsGood(Evict(t), k, m);
    var s, e, s' := t.slots, Evict(t).slots, InsertIn(t, k, m).slots;
    var h := FindHole(e, Home(k, |e|), 0);
    var q := Probe(Home(k, |e|), h, |e|);
    ContentsGet(t, x);
    ContentsGet(InsertIn(t, k, m), x);
    PresentIff(s, x);
    PresentIff(s', x);
    assert Holds(s'[q], k);
    if x == k {
      SlotIsUnique(s', k, q);
    } else if Present(s, x) && x !in Victim(t) {
      var p := SlotOf(s, x);
      assert s'[p] == s[p];
      SlotIsUnique(s', x, p);
    } else {
      forall p | 0 <= p < |s| ensures !Holds(s'[p], x) {
        if p != q && Present(s, x) { VictimInSlotZero(t, x, p); }
      }
    }
  }

  lemma VictimInSlotZero(t: Table, x: ObjectKey, p: nat)
    requires Good(t) && x in Victim(t) && p < |t.slots|
    ensures !Holds(Evict(t).slots[p], x)
  {
    EvictKeepsGood(t);
  }
}
