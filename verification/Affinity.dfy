/** Core affinity validation (storage_engine.c) and the mask the server derives by itself. */
module Affinity {

  /** num_shards, core_map, bg_core and the RPC port and core of the configuration. */
  datatype Config = Config(numShards: nat, coreMap: seq<int>, bgCore: int, rpcPort: int, rpcCore: int)

  /** What load_config guarantees: one core per shard. */
  predicate Loaded(c: Config) {
    |c.coreMap| == c.numShards
  }

  /** The threads that get a core of their own. */
  function Cores(c: Config): seq<int> {
    c.coreMap + [c.bgCore] + (if c.rpcPort > 0 then [c.rpcCore] else [])
  }

  ghost predicate Distinct(s: seq<int>) {
    forall i, j :: 0 <= i < j < |s| ==> s[i] != s[j]
  }

  /** Every thread has its own core in the mask. */
  ghost predicate Placed(c: Config, mask: set<int>) {
    Distinct(Cores(c)) && forall i :: 0 <= i < |Cores(c)| ==> Cores(c)[i] in mask
  }

  /** validate_core_affinity accepts exactly a proper placement in a mask of at least num_shards + 2 cores. */
  method Validate(c: Config, mask: set<int>) returns (ok: bool)
    ensures ok <==> Placed(c, mask) && |mask| >= c.numShards + 2
  {
    ghost var cores := Cores(c);
    ghost var n := |c.coreMap|;
    assert cores[n] == c.bgCore;
    assert c.rpcPort > 0 ==> cores[n + 1] == c.rpcCore;
    assert forall i :: 0 <= i < n ==> cores[i] == c.coreMap[i];
    if |mask| < c.numShards + 2 {
      return false;
    }
    var i := 0;
    while i < |c.coreMap|
      invariant 0 <= i <= n && forall x :: 0 <= x < i ==> c.coreMap[x] in mask
    {
      if c.coreMap[i] !in mask {
        assert cores[i] !in mask;
        return false;
      }
      i := i + 1;
    }
    if c.bgCore !in mask {
      return false;
    }
    i := 0;
    while i < |c.coreMap|
      invariant 0 <= i <= n
      invariant forall x :: 0 <= x < i ==> c.coreMap[x] != c.bgCore
      invariant forall x, y :: 0 <= x < i && x < y < n ==> c.coreMap[x] != c.coreMap[y]
    {
      if c.coreMap[i] == c.bgCore {
        assert cores[i] == cores[n];
        return false;
      }
      var j := i + 1;
      while j < |c.coreMap|
        invariant i + 1 <= j <= n && forall y :: i < y < j ==> c.coreMap[i] != c.coreMap[y]
      {
        if c.coreMap[i] == c.coreMap[j] {
          assert cores[i] == cores[j];
          return false;
        }
        j := j + 1;
      }
      i := i + 1;
    }
    if c.rpcPort > 0 {
      if c.rpcCore !in mask {
        return false;
      }
      i := 0;
      while i < |c.coreMap|
        invariant 0 <= i <= n && forall x :: 0 <= x < i ==> c.coreMap[x] != c.rpcCore
      {
        if c.coreMap[i] == c.rpcCore {
          assert cores[i] == cores[n + 1];
          return false;
        }
        i := i + 1;
      }
      if c.bgCore == c.rpcCore {
        assert cores[n] == cores[n + 1];
        return false;
      }
    }
    return true;
  }

  /** Distinct elements of a set are at most as many as the set has. */
  lemma {:induction false} Pigeonhole(s: seq<int>, mask: set<int>)
    requires Distinct(s) && forall i :: 0 <= i < |s| ==> s[i] in mask
    ensures |s| <= |mask|
  {
    if s != [] {
      var n := |s| - 1;
      Pigeonhole(s[..n], mask - {s[n]});
    }
  }

  /** With the RPC thread on, the count test adds nothing. */
  lemma CountImplied(c: Config, mask: set<int>)
    requires Loaded(c) && c.rpcPort > 0 && Placed(c, mask)
    ensures |mask| >= c.numShards + 2
  {
    Pigeonhole(Cores(c), mask);
  }

  /** Without it, the count test asks for one core more than the threads use. */
  lemma CountStricter(c: Config)
    requires Loaded(c) && c.rpcPort <= 0 && Distinct(Cores(c))
    ensures Placed(c, CoreSet(Cores(c))) && |CoreSet(Cores(c))| == c.numShards + 1
  {
    CoreSetSize(Cores(c));
  }

  ghost function CoreSet(s: seq<int>): set<int> {
    set i | 0 <= i < |s| :: s[i]
  }

  lemma {:induction false} CoreSetSize(s: seq<int>)
    ensures |CoreSet(s)| <= |s|
    ensures Distinct(s) ==> |CoreSet(s)| == |s|
  {
    if s != [] {
      var n := |s| - 1;
      CoreSetSize(s[..n]);
      assert CoreSet(s) == CoreSet(s[..n]) + {s[n]};
      if Distinct(s) { assert s[n] !in CoreSet(s[..n]); }
    }
  }

  /** The mask storage_server derives when none is given: the shard cores and the background core. */
  method AutoMask(c: Config) returns (mask: set<int>)
    ensures mask == CoreSet(c.coreMap + [c.bgCore])
  {
    mask := {};
    var i := 0;
    while i < |c.coreMap|
      invariant 0 <= i <= |c.coreMap| && mask == CoreSet(c.coreMap[..i])
    {
      mask := mask + {c.coreMap[i]};
      i := i + 1;
    }
    mask := mask + {c.bgCore};
    assert c.coreMap[..i] == c.coreMap;
    assert forall x :: 0 <= x < |c.coreMap| ==> (c.coreMap + [c.bgCore])[x] == c.coreMap[x];
    assert (c.coreMap + [c.bgCore])[|c.coreMap|] == c.bgCore;
  }

  /** That mask is too small for its own configuration, whatever the cores. */
  lemma AutoMaskNeverAccepted(c: Config, mask: set<int>)
    requires Loaded(c) && mask == CoreSet(c.coreMap + [c.bgCore])
    ensures |mask| < c.numShards + 2
  {
    CoreSetSize(c.coreMap + [c.bgCore]);
  }
}
