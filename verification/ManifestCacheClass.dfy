/** The manifest cache as the gateway holds it: an entry array and a count, changed in place. */
module ManifestCacheClass {
  import opened MetaTypes
  import opened ManifestCache

  method MakeIndex(k: ObjectKey, capacity: nat) returns (index: nat)
    requires capacity > 0
    ensures index == Home(k, capacity)
  {
    var hash: nat := 0;
    var i := 0;
    while i < |k.bucket|
      invariant 0 <= i <= |k.bucket|
      invariant HashFrom(0, k.bucket) == HashFrom(hash, k.bucket[i..])
    {
      hash := HashRound(hash, k.bucket[i]);
      assert k.bucket[i..][1..] == k.bucket[i + 1..];
      i := i + 1;
    }
    var j := 0;
    while j < |k.key|
      invariant 0 <= j <= |k.key|
      invariant HashFrom(HashFrom(0, k.bucket), k.key) == HashFrom(hash, k.key[j..])
    {
      hash := HashRound(hash, k.key[j]);
      assert k.key[j..][1..] == k.key[j + 1..];
      j := j + 1;
    }
    index := hash % capacity;
  }

  class Cache {
    const entries: array<Slot>
    var count: int

    ghost predicate Valid()
      reads this
    {
      entries.Length > 0
    }

    /** The value of the cache. */
    ghost function Value(): (t: Table)
      reads this, entries
    {
      Table(entries[..], count)
    }

    constructor (maxEntries: nat)
      requires maxEntries > 0
      ensures Valid() && fresh(entries)
      ensures Value() == EmptyTable(maxEntries)
    {
      entries := new Slot[maxEntries](_ => EMPTY_SLOT);
      count := 0;
    }

    method Lookup(k: ObjectKey) returns (out: Option<Manifest>)
      requires Valid()
      ensures out == LookupIn(Value(), k)
    {
      var index := MakeIndex(k, entries.Length);
      ghost var s := entries[..];
      var i := 0;
      while i < entries.Length
        invariant 0 <= i <= entries.Length
        invariant FindKey(s, k, 0) == FindKey(s, k, i)
        invariant FindHole(s, index, 0) == FindHole(s, index, i)
      {
        var probe := Probe(index, i, entries.Length);
        if !entries[probe].valid {
          return None;
        }
        if entries[probe].id == k {
          return Some(entries[probe].manifest);
        }
        i := i + 1;
      }
      out := None;
    }

    method Insert(k: ObjectKey, m: Manifest)
      requires Valid()
      modifies this, entries
      ensures Valid()
      ensures Value() == InsertIn(old(Value()), k, m)
    {
      var index := MakeIndex(k, entries.Length);
      ghost var s := entries[..];
      var i := 0;
      while i < entries.Length
        invariant 0 <= i <= entries.Length
        invariant entries[..] == s && count == old(count)
        invariant FindKey(s, k, 0) == FindKey(s, k, i)
      {
        var probe := Probe(index, i, entries.Length);
        if entries[probe].valid && entries[probe].id == k {
          entries[probe] := entries[probe].(manifest := m);
          return;
        }
        i := i + 1;
      }
      EvictIfFull();
      PlaceEntry(index, k, m);
    }

    /** The eviction block of the insert: clear the first invalid slot, or slot 0. */
    method EvictIfFull()
      requires Valid()
      modifies this, entries
      ensures Valid()
      ensures Value() == Evict(old(Value()))
    {
      if count >= entries.Length {
        var oldest := 0;
        var i := 0;
        ghost var s := entries[..];
        while i < entries.Length
          invariant 0 <= i <= entries.Length && oldest == 0
          invariant Oldest(s, 0) == Oldest(s, i)
        {
          if !entries[i].valid {
            oldest := i;
            break;
          }
          i := i + 1;
        }
        assert oldest == Oldest(s, 0);
        entries[oldest] := entries[oldest].(valid := false);
        count := count - 1;
      }
    }

    /** The last loop of the insert: take the first hole on the probe path. */
    method PlaceEntry(index: nat, k: ObjectKey, m: Manifest)
      requires Valid() && index == Home(k, entries.Length)
      modifies this, entries
      ensures Valid()
      ensures Value() == Place(old(Value()), k, m)
    {
      ghost var s := entries[..];
      var i := 0;
      while i < entries.Length
        invariant 0 <= i <= entries.Length
        invariant entries[..] == s && count == old(count)
        invariant FindHole(s, index, 0) == FindHole(s, index, i)
      {
        var probe := Probe(index, i, entries.Length);
        if !entries[probe].valid {
          entries[probe] := Slot(true, Stored(k), m);
          count := count + 1;
          return;
        }
        i := i + 1;
      }
    }

    method Invalidate(k: ObjectKey)
      requires Valid()
      modifies this, entries
      ensures Valid()
      ensures Value() == InvalidateIn(old(Value()), k)
    {
      var index := MakeIndex(k, entries.Length);
      ghost var s := entries[..];
      var i := 0;
      while i < entries.Length
        invariant 0 <= i <= entries.Length
        invariant entries[..] == s && count == old(count)
        invariant FindKey(s, k, 0) == FindKey(s, k, i)
        invariant FindHole(s, index, 0) == FindHole(s, index, i)
      {
        var probe := Probe(index, i, entries.Length);
        if !entries[probe].valid {
          return;
        }
        if entries[probe].id == k {
          entries[probe] := entries[probe].(valid := false);
          count := count - 1;
          return;
        }
        i := i + 1;
      }
    }
  }
}
