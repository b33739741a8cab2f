/**
 A metadata shard (meta_shard.c): an unordered array of manifests searched from the front,
 overwritten in place, extended at the end and closed up on deletion.
 */
module MetaShard {
  import opened MetaTypes

  // ---------- the operations on values ----------

  /** The first entry with key k at or after i, or the number of entries. */
  function Find(s: seq<Manifest>, k: ObjectKey, i: nat): (r: nat)
    requires i <= |s|
    ensures i <= r <= |s| && (r < |s| ==> s[r].id == k)
    decreases |s| - i
  {
    if i == |s| then i else if s[i].id == k then i else Find(s, k, i + 1)
  }

  lemma {:induction false} FindFirst(s: seq<Manifest>, k: ObjectKey, i: nat, j: nat)
    requires i <= j < |s| && j < Find(s, k, i)
    ensures s[j].id != k
    decreases |s| - i
  {
    if i < j { FindFirst(s, k, i + 1, j); }
  }

  function Insert(s: seq<Manifest>, m: Manifest): seq<Manifest> {
    var i := Find(s, m.id, 0);
    if i < |s| then s[i := m] else s + [m]
  }

  function Delete(s: seq<Manifest>, k: ObjectKey): seq<Manifest> {
    var i := Find(s, k, 0);
    if i < |s| then s[..i] + s[i + 1..] else s
  }

  function Lookup(s: seq<Manifest>, k: ObjectKey): Option<Manifest> {
    var i := Find(s, k, 0);
    if i < |s| then Some(s[i]) else None
  }

  // ---------- refinement of a map ----------

  ghost predicate Unique(s: seq<Manifest>) {
    forall i, j :: 0 <= i < j < |s| ==> s[i].id != s[j].id
  }

  ghost function Keys(s: seq<Manifest>): set<ObjectKey> {
    set i | 0 <= i < |s| :: s[i].id
  }

  /** The map an entry array stands for. */
  ghost function Contents(s: seq<Manifest>): map<ObjectKey, Manifest> {
    map k | k in Keys(s) && Find(s, k, 0) < |s| :: s[Find(s, k, 0)]
  }

  lemma FindIff(s: seq<Manifest>, k: ObjectKey)
    ensures Find(s, k, 0) < |s| <==> k in Keys(s)
  {
    if k in Keys(s) {
      var i :| 0 <= i < |s| && s[i].id == k;
      if Find(s, k, 0) == |s| { FindFirst(s, k, 0, i); }
    }
  }

  /** A lookup is a lookup in the map. */
  lemma LookupIsGet(s: seq<Manifest>, k: ObjectKey)
    ensures Lookup(s, k) == Get(Contents(s), k)
  {
    FindIff(s, k);
  }

  lemma FindAt(s: seq<Manifest>, i: nat)
    requires Unique(s) && i < |s|
    ensures Find(s, s[i].id, 0) == i
  {
    FindIff(s, s[i].id);
  }

  /** An insert keeps keys unique and is a map update. */
  lemma InsertRefines(s: seq<Manifest>, m: Manifest)
    requires Unique(s)
    ensures Unique(Insert(s, m))
    ensures Contents(Insert(s, m)) == Contents(s)[m.id := m]
  {
    hide Find;
    var t := Insert(s, m);
    InsertUnique(s, m);
    forall k ensures Get(Contents(t), k) == Get(Contents(s)[m.id := m], k) {
      InsertLookup(s, m, k);
      LookupIsGet(s, k);
      LookupIsGet(t, k);
    }
    SameMap(Contents(t), Contents(s)[m.id := m]);
  }

  lemma InsertUnique(s: seq<Manifest>, m: Manifest)
    requires Unique(s)
    ensures Unique(Insert(s, m))
  {
    if Find(s, m.id, 0) == |s| {
      forall i | 0 <= i < |s| ensures s[i].id != m.id { FindFirst(s, m.id, 0, i); }
    }
  }

  lemma InsertLookup(s: seq<Manifest>, m: Manifest, k: ObjectKey)
    requires Unique(s)
    ensures Lookup(Insert(s, m), k) == if k == m.id then Some(m) else Lookup(s, k)
  {
    var i, t := Find(s, m.id, 0), Insert(s, m);
    hide Find;
    InsertUnique(s, m);
    FindIff(s, k);
    FindIff(t, k);
    if k == m.id {
      FindAt(t, i);
    } else if k in Keys(s) {
      var j := Find(s, k, 0);
      assert t[j] == s[j];
      FindAt(t, j);
    } else {
      forall j | 0 <= j < |t| ensures t[j].id != k {
        if j < |s| { assert s[j].id in Keys(s); }
      }
      assert k !in Keys(t);
    }
  }

  lemma SameMap<K, V>(a: map<K, V>, b: map<K, V>)
    requires forall k :: Get(a, k) == Get(b, k)
    ensures a == b
  {
    forall k ensures k in a <==> k in b { assert Get(a, k) == Get(b, k); }
    forall k | k in a ensures a[k] == b[k] { assert Get(a, k) == Get(b, k); }
  }

  /** A delete keeps keys unique and the order of the rest, and removes the key from the map. */
  lemma DeleteRefines(s: seq<Manifest>, k: ObjectKey)
    requires Unique(s)
    ensures Unique(Delete(s, k))
    ensures Contents(Delete(s, k)) == Contents(s) - {k}
    ensures k in Keys(s) ==> exists i :: 0 <= i < |s| && s[i].id == k && Delete(s, k) == s[..i] + s[i + 1..]
    ensures k !in Keys(s) ==> Delete(s, k) == s
  {
    hide Find;
    FindIff(s, k);
    var t := Delete(s, k);
    forall x ensures Get(Contents(t), x) == Get(Contents(s) - {k}, x) {
      DeleteLookup(s, k, x);
      LookupIsGet(s, x);
      LookupIsGet(t, x);
    }
    SameMap(Contents(t), Contents(s) - {k});
  }

  lemma DeleteLookup(s: seq<Manifest>, k: ObjectKey, x: ObjectKey)
    requires Unique(s)
    ensures Lookup(Delete(s, k), x) == if x == k then None else Lookup(s, x)
  {
    var i, t := Find(s, k, 0), Delete(s, k);
    hide Find;
    FindIff(s, k);
    FindIff(s, x);
    FindIff(t, x);
    if i < |s| {
      assert Unique(t);
      if x != k && x in Keys(s) {
        var j := Find(s, x, 0);
        var j' := if j < i then j else j - 1;
        assert t[j'] == s[j];
        FindAt(t, j');
      } else {
        forall j | 0 <= j < |t| ensures t[j].id != x {
          assert t[j] == s[if j < i then j else j + 1];
          assert t[j].id in Keys(s);
        }
      }
    }
  }

  // ---------- several inserts ----------

  /** Insert each manifest in turn. */
  function InsertAll(s: seq<Manifest>, ms: seq<Manifest>): seq<Manifest> {
    if ms == [] then s else Insert(InsertAll(s, ms[..|ms| - 1]), ms[|ms| - 1])
  }

  /** The map with each manifest put in turn: the last duplicate wins. */
  ghost function PutAll(c: map<ObjectKey, Manifest>, ms: seq<Manifest>): map<ObjectKey, Manifest> {
    if ms == [] then c
    else
      var m := ms[|ms| - 1];
      PutAll(c, ms[..|ms| - 1])[m.id := m]
  }

  lemma {:induction false} InsertAllRefines(s: seq<Manifest>, ms: seq<Manifest>)
    requires Unique(s)
    ensures Unique(InsertAll(s, ms))
    ensures Contents(InsertAll(s, ms)) == PutAll(Contents(s), ms)
  {
    if ms != [] {
      InsertAllRefines(s, ms[..|ms| - 1]);
      InsertRefines(InsertAll(s, ms[..|ms| - 1]), ms[|ms| - 1]);
    }
  }

  /** Putting a list of distinct keys is overriding by their map. */
  lemma {:induction false} PutAllIsOverride(c: map<ObjectKey, Manifest>, ms: seq<Manifest>)
    requires Unique(ms)
    ensures PutAll(c, ms) == c + Contents(ms)
  {
    hide Find, Insert;
    if ms == [] {
      assert Contents(ms) == map[];
    } else {
      var n := |ms| - 1;
      PutAllIsOverride(c, ms[..n]);
      assert ms[..n] + [ms[n]] == ms;
      InsertNew(ms[..n], ms[n]);
      InsertRefines(ms[..n], ms[n]);
      UpdateOverride(c, Contents(ms[..n]), ms[n].id, ms[n]);
    }
  }

  lemma UpdateOverride<K, V>(a: map<K, V>, b: map<K, V>, k: K, v: V)
    ensures (a + b)[k := v] == a + b[k := v]
  {
  }

  lemma InsertNew(s: seq<Manifest>, m: Manifest)
    requires Unique(s + [m])
    ensures Unique(s) && Insert(s, m) == s + [m]
  {
    var t := s + [m];
    forall i | 0 <= i < |s| ensures s[i].id != m.id { assert t[i].id != t[|s|].id; }
    forall i, j | 0 <= i < j < |s| ensures s[i].id != s[j].id { assert t[i].id != t[j].id; }
  }

  /** Distinct keys inserted into an empty shard keep their order. */
  lemma {:induction false} InsertAllIntoEmpty(ms: seq<Manifest>)
    requires Unique(ms)
    ensures InsertAll([], ms) == ms
  {
    if ms != [] {
      var n := |ms| - 1;
      InsertAllIntoEmpty(ms[..n]);
      assert ms[..n] + [ms[n]] == ms;
      InsertNew(ms[..n], ms[n]);
    }
  }

  lemma {:induction false} InsertAllAppend(s: seq<Manifest>, xs: seq<Manifest>, ys: seq<Manifest>)
    ensures InsertAll(s, xs + ys) == InsertAll(InsertAll(s, xs), ys)
  {
    if ys == [] {
      assert xs + ys == xs;
    } else {
      assert (xs + ys)[..|xs + ys| - 1] == xs + ys[..|ys| - 1];
      InsertAllAppend(s, xs, ys[..|ys| - 1]);
    }
  }

  // ---------- the shard in place ----------

  const DEFAULT_CAPACITY := 1024

  class Shard {
    const id: nat
    var entries: array<Manifest>
    var count: nat
    ghost var Repr: set<object>

    ghost predicate Valid()
      reads this, Repr
    {
      this in Repr && entries in Repr && Repr == {this, entries} && count <= entries.Length && 0 < entries.Length
    }

    ghost function Value(): (s: seq<Manifest>)
      reads this, Repr
      requires Valid()
    {
      entries[..count]
    }

    constructor (id: nat)
      ensures Valid() && fresh(Repr)
      ensures Value() == [] && this.id == id
    {
      this.id := id;
      entries := new Manifest[DEFAULT_CAPACITY](_ => ZERO_MANIFEST);
      count := 0;
      new;
      Repr := {this, entries};
    }

    /** find_entry. */
    method FindEntry(k: ObjectKey) returns (index: int)
      requires Valid()
      ensures index == if Find(Value(), k, 0) < count then Find(Value(), k, 0) else -1
    {
      var i := 0;
      while i < count
        invariant 0 <= i <= count
        invariant Find(Value(), k, 0) == Find(Value(), k, i)
      {
        if entries[i].id == k {
          return i;
        }
        i := i + 1;
      }
      return -1;
    }

    /** meta_shard_insert: overwrite in place, or append, doubling the array when it is full. */
    method InsertEntry(m: Manifest)
      requires Valid()
      modifies Repr
      ensures Valid() && fresh(Repr - old(Repr))
      ensures Value() == Insert(old(Value()), m)
    {
      var index := FindEntry(m.id);
      if index >= 0 {
        entries[index] := m;
        return;
      }
      if count >= entries.Length {
        Grow();
      }
      entries[count] := m;
      count := count + 1;
    }

    method Grow()
      requires Valid()
      modifies this
      ensures Valid() && fresh(Repr - old(Repr)) && entries.Length == 2 * old(entries.Length)
      ensures count == old(count) && Value() == old(Value())
    {
      var bigger := new Manifest[entries.Length * 2](_ => ZERO_MANIFEST);
      var i := 0;
      while i < count
        invariant 0 <= i <= count && count == old(count) && entries == old(entries) && fresh(bigger)
        invariant bigger[..i] == entries[..i] && entries[..] == old(entries[..])
      {
        bigger[i] := entries[i];
        i := i + 1;
      }
      entries := bigger;
      Repr := {this, bigger};
    }

    method LookupEntry(k: ObjectKey) returns (out: Option<Manifest>)
      requires Valid()
      ensures out == Lookup(Value(), k)
    {
      var index := FindEntry(k);
      if index < 0 {
        return None;
      }
      return Some(entries[index]);
    }

    /** meta_shard_delete: shift the tail down by one. */
    method DeleteEntry(k: ObjectKey) returns (found: bool)
      requires Valid()
      modifies Repr
      ensures Valid() && Repr == old(Repr)
      ensures found <==> Lookup(old(Value()), k).Some?
      ensures Value() == Delete(old(Value()), k)
    {
      hide Find;
      ghost var s := Value();
      var index := FindEntry(k);
      if index < 0 {
        return false;
      }
      ghost var d := s[..index] + s[index + 1..];
      var i := index;
      while i < count - 1
        invariant index <= i <= count - 1 && count == old(count) && entries == old(entries) && Repr == old(Repr)
        invariant forall j :: 0 <= j < i ==> entries[j] == d[j]
        invariant forall j :: i <= j < count ==> entries[j] == s[j]
      {
        entries[i] := entries[i + 1];
        i := i + 1;
      }
      count := count - 1;
      assert entries[..count] == d;
      return true;
    }
  }
}
