/** Sums of integer sequences, used to count and to total per-slot or per-shard weights. */
module Sums {

  ghost function Sum(s: seq<int>): int {
    if s == [] then 0 else Sum(s[..|s| - 1]) + s[|s| - 1]
  }

  /** Replacing one term changes the sum by the difference of that term. */
  lemma {:induction false} SumUpdate(s: seq<int>, i: nat, v: int)
    requires i < |s|
    ensures Sum(s[i := v]) == Sum(s) - s[i] + v
  {
    var n := |s| - 1;
    if i == n {
      assert s[i := v][..n] == s[..n];
    } else {
      assert s[i := v][..n] == s[..n][i := v];
      SumUpdate(s[..n], i, v);
    }
  }

  /** Terms between lo and hi give a sum between n*lo and n*hi. */
  lemma {:induction false} SumBounds(s: seq<int>, lo: int, hi: int)
    requires forall i :: 0 <= i < |s| ==> lo <= s[i] <= hi
    ensures |s| * lo <= Sum(s) <= |s| * hi
  {
    if s == [] {
    } else {
      var n := |s| - 1;
      SumBounds(s[..n], lo, hi);
      assert (n + 1) * lo == n * lo + lo;
      assert (n + 1) * hi == n * hi + hi;
    }
  }

  /** Each term of a non-negative sequence is at most the sum. */
  lemma {:induction false} SumTerm(s: seq<int>, i: nat)
    requires forall j :: 0 <= j < |s| ==> 0 <= s[j]
    ensures 0 <= Sum(s)
    ensures i < |s| ==> s[i] <= Sum(s)
  {
    if s != [] {
      SumTerm(s[..|s| - 1], i);
    }
  }

  /** How often x occurs among what f assigns to the elements of s. */
  ghost function Tally<A(!new)>(f: A -> seq<nat>, s: seq<A>, x: nat): nat {
    if s == [] then 0 else Tally(f, s[..|s| - 1], x) + multiset(f(s[|s| - 1]))[x]
  }

  lemma TallyAppend<A(!new)>(f: A -> seq<nat>, s: seq<A>, y: A, x: nat)
    ensures Tally(f, s + [y], x) == Tally(f, s, x) + multiset(f(y))[x]
  {
    assert (s + [y])[..|s|] == s;
  }

  /** Taking one element out takes its share out of the tally. */
  lemma {:induction false} TallyRemove<A(!new)>(f: A -> seq<nat>, s: seq<A>, k: nat, x: nat)
    requires k < |s|
    ensures Tally(f, s, x) == Tally(f, s[..k] + s[k + 1..], x) + multiset(f(s[k]))[x]
  {
    var n := |s| - 1;
    if k == n {
      assert s[..k] + s[k + 1..] == s[..n];
    } else {
      var t := s[..k] + s[k + 1..];
      assert t[..|t| - 1] == s[..n][..k] + s[..n][k + 1..];
      TallyRemove(f, s[..n], k, x);
    }
  }

  /** Something tallied comes from an element. */
  lemma {:induction false} TallyFind<A(!new)>(f: A -> seq<nat>, s: seq<A>, k: nat, x: nat)
    requires k < |s| && x in f(s[k])
    ensures Tally(f, s, x) > 0
  {
    if k < |s| - 1 { TallyFind(f, s[..|s| - 1], k, x); }
  }
}
