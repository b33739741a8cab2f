/** Listing a shard (meta_shard_list): where a page starts, what it holds, and chaining pages. */
module MetaList {
  import opened MetaTypes
  import opened MetaShard

  // ---------- key order ----------

  /** strcmp(a, b) < 0. */
  predicate Before(a: Name, b: Name) {
    b != [] && (a == [] || a[0] < b[0] || (a[0] == b[0] && Before(a[1..], b[1..])))
  }

  lemma {:induction false} BeforeTransitive(a: Name, b: Name, c: Name)
    requires Before(a, b) && Before(b, c)
    ensures Before(a, c)
  {
    if a != [] && a[0] == b[0] && b[0] == c[0] { BeforeTransitive(a[1..], b[1..], c[1..]); }
  }

  lemma {:induction false} BeforeIrreflexive(a: Name)
    ensures !Before(a, a)
  {
    if a != [] { BeforeIrreflexive(a[1..]); }
  }

  /** The names agree up to i, where a ends or has the smaller byte. */
  predicate SmallerAt(a: Name, b: Name, i: nat) {
    i <= |a| && i < |b| && a[..i] == b[..i] && (i == |a| || a[i] < b[i])
  }

  /** strcmp decides at the first byte that differs. */
  lemma {:induction false} BeforeIff(a: Name, b: Name)
    ensures Before(a, b) <==> exists i: nat :: SmallerAt(a, b, i)
  {
    if b != [] {
      if a == [] || a[0] < b[0] {
        assert SmallerAt(a, b, 0);
      } else {
        BeforeIff(a[1..], b[1..]);
        if i: nat :| SmallerAt(a, b, i) {
          assert i > 0 && a[0] == a[..i][0] == b[..i][0];
          assert a[1..][..i - 1] == a[..i][1..] == b[..i][1..] == b[1..][..i - 1];
          assert SmallerAt(a[1..], b[1..], i - 1);
        }
        if j: nat :| a[0] == b[0] && SmallerAt(a[1..], b[1..], j) {
          assert a[..j + 1] == [a[0]] + a[1..][..j] == [b[0]] + b[1..][..j] == b[..j + 1];
          assert SmallerAt(a, b, j + 1);
        }
      }
    }
  }

  // ---------- one page ----------

  const KEY_OUT := 63

  /** strncpy into a 64-byte output slot. */
  function Cut(k: Name): Name {
    if |k| <= KEY_OUT then k else k[..KEY_OUT]
  }

  /** A query: bucket and key prefix. */
  datatype Query = Query(bucket: Name, prefix: Name)

  predicate Matches(m: Manifest, q: Query) {
    m.id.bucket == q.bucket && q.prefix <= m.id.key
  }

  /** The first entry at or after i whose key exceeds the marker, or the number of entries. */
  function FirstAfter(s: seq<Manifest>, marker: Name, i: nat): (r: nat)
    requires i <= |s|
    ensures i <= r <= |s| && (r < |s| ==> Before(marker, s[r].id.key))
    decreases |s| - i
  {
    if i == |s| then i else if Before(marker, s[i].id.key) then i else FirstAfter(s, marker, i + 1)
  }

  /** Where the scan starts: at 0 without a marker, and also when no key exceeds the marker. */
  function Start(s: seq<Manifest>, marker: Name): nat {
    if marker == [] || FirstAfter(s, marker, 0) == |s| then 0 else FirstAfter(s, marker, 0)
  }

  /** The output keys of all matching entries from i on. */
  function Matching(s: seq<Manifest>, q: Query, i: nat): seq<Name>
    requires i <= |s|
    decreases |s| - i
  {
    if i == |s| then []
    else (if Matches(s[i], q) then [Cut(s[i].id.key)] else []) + Matching(s, q, i + 1)
  }

  function Take(ks: seq<Name>, n: nat): seq<Name> {
    if |ks| <= n then ks else ks[..n]
  }

  /** What a page holds: the first n matching entries from the start index. */
  function Page(s: seq<Manifest>, q: Query, marker: Name, n: nat): seq<Name> {
    Take(Matching(s, q, Start(s, marker)), n)
  }

  lemma TakeOfSplit(ks: seq<Name>, rest: seq<Name>, n: nat)
    requires |ks| == n || (|ks| <= n && rest == [])
    ensures Take(ks + rest, n) == ks
  {
  }

  /** meta_shard_list. */
  method List(shard: Shard, q: Query, marker: Name, n: nat) returns (keys: seq<Name>)
    requires shard.Valid()
    ensures keys == Page(shard.Value(), q, marker, n)
  {
    hide Before, Take;
    ghost var s := shard.Value();
    var start := 0;
    if marker != [] {
      var i := 0;
      while i < shard.count
        invariant 0 <= i <= shard.count && start == 0
        invariant FirstAfter(s, marker, 0) == FirstAfter(s, marker, i)
      {
        if Before(marker, shard.entries[i].id.key) {
          start := i;
          break;
        }
        i := i + 1;
      }
    }
    assert start == Start(s, marker);
    keys := [];
    var i := start;
    while i < shard.count && |keys| < n
      invariant start <= i <= shard.count && |keys| <= n
      invariant keys + Matching(s, q, i) == Matching(s, q, start)
    {
      var m := shard.entries[i];
      ghost var rest := Matching(s, q, i + 1);
      if m.id.bucket == q.bucket && q.prefix <= m.id.key {
        assert keys + ([Cut(m.id.key)] + rest) == (keys + [Cut(m.id.key)]) + rest;
        keys := keys + [Cut(m.id.key)];
      } else {
        assert [] + rest == rest;
      }
      i := i + 1;
    }
    TakeOfSplit(keys, Matching(s, q, i), n);
  }

  /**
   What is listed from i on: the keys, cut to an output slot, of the entries in the bucket whose key
   starts with the prefix.
   */
  lemma {:induction false} MatchingIff(s: seq<Manifest>, q: Query, i: nat, k: Name)
    requires i <= |s|
    ensures k in Matching(s, q, i) <==>
            exists j :: i <= j < |s| && s[j].id.bucket == q.bucket && |q.prefix| <= |s[j].id.key|
                        && s[j].id.key[..|q.prefix|] == q.prefix && k == Cut(s[j].id.key)
    decreases |s| - i
  {
    if i < |s| {
      MatchingIff(s, q, i + 1, k);
      var own, rest := if Matches(s[i], q) then [Cut(s[i].id.key)] else [], Matching(s, q, i + 1);
      assert k in own + rest <==> k in own || k in rest;
      assert q.prefix <= s[i].id.key <==> |q.prefix| <= |s[i].id.key| && s[i].id.key[..|q.prefix|] == q.prefix;
    }
  }

  // ---------- pages in key order ----------

  /** Entries in strict key order with keys that fit an output slot. */
  ghost predicate Listable(s: seq<Manifest>) {
    && (forall i, j :: 0 <= i < j < |s| ==> Before(s[i].id.key, s[j].id.key))
    && (forall i :: 0 <= i < |s| ==> 0 < |s[i].id.key| <= 63)
  }

  /** The matching keys that come after a marker. */
  function KeysAfter(s: seq<Manifest>, q: Query, marker: Name): seq<Name> {
    Matching(s, q, FirstAfter(s, marker, 0))
  }

  /** In key order, exactly the entries from FirstAfter on exceed the marker. */
  lemma {:induction false} AfterIsSuffix(s: seq<Manifest>, marker: Name, i: nat, j: nat)
    requires Listable(s) && i <= j < |s|
    ensures Before(marker, s[j].id.key) <==> FirstAfter(s, marker, i) <= j
    decreases |s| - i
  {
    if Before(marker, s[i].id.key) {
      if i < j { BeforeTransitive(marker, s[i].id.key, s[j].id.key); }
    } else if i < j {
      AfterIsSuffix(s, marker, i + 1, j);
    }
  }

  /** The marker of entry j continues right after entry j. */
  lemma AfterEntry(s: seq<Manifest>, j: nat)
    requires Listable(s) && j < |s|
    ensures FirstAfter(s, s[j].id.key, 0) == j + 1
  {
    var k := s[j].id.key;
    BeforeIrreflexive(k);
    AfterIsSuffix(s, k, 0, j);
    if j + 1 < |s| { AfterIsSuffix(s, k, 0, j + 1); }
  }

  /**
   A page is the first n keys after the marker exactly when some key exceeds the marker, or there
   is nothing to list anyway; otherwise the page starts over from the first entry.
   */
  lemma PageIsNextIff(s: seq<Manifest>, q: Query, marker: Name, n: nat)
    requires Listable(s)
    ensures Page(s, q, marker, n) == Take(KeysAfter(s, q, marker), n) <==>
            (FirstAfter(s, marker, 0) < |s| || n == 0 || Matching(s, q, 0) == [])
  {
    if marker == [] && s != [] {
      assert Before(marker, s[0].id.key);
    }
  }

  // ---------- chaining pages, in any shard ----------

  /** Where the entries after a marker begin; the number of entries when no key exceeds it. */
  function From(s: seq<Manifest>, marker: Name): (r: nat)
    ensures r <= |s|
  {
    if marker == [] then 0 else FirstAfter(s, marker, 0)
  }

  /** Pages chained by their last key, until no key exceeds the marker or a page comes back empty. */
  function Chain(s: seq<Manifest>, q: Query, marker: Name, n: nat, requests: nat): seq<Name>
    decreases requests
  {
    if requests == 0 || From(s, marker) == |s| then []
    else
      var page := Page(s, q, marker, n);
      if page == [] then [] else page + Chain(s, q, page[|page| - 1], n, requests - 1)
  }

  /** The matching entries from i on. */
  function Indices(s: seq<Manifest>, q: Query, i: nat): (r: seq<nat>)
    requires i <= |s|
    ensures forall x :: 0 <= x < |r| ==> i <= r[x] < |s|
    decreases |s| - i
  {
    if i == |s| then [] else (if Matches(s[i], q) then [i] else []) + Indices(s, q, i + 1)
  }

  /** The output keys of some entries. */
  function Keys(s: seq<Manifest>, es: seq<nat>): (r: seq<Name>)
    requires forall x :: 0 <= x < |es| ==> es[x] < |s|
    ensures |r| == |es| && forall x :: 0 <= x < |r| ==> r[x] == Cut(s[es[x]].id.key)
  {
    seq(|es|, x requires 0 <= x < |es| => Cut(s[es[x]].id.key))
  }

  function First(es: seq<nat>, n: nat): seq<nat> {
    if |es| <= n then es else es[..n]
  }

  /** The entries that a chain of pages lists. */
  function Listed(s: seq<Manifest>, q: Query, marker: Name, n: nat, requests: nat): (r: seq<nat>)
    ensures forall x :: 0 <= x < |r| ==> r[x] < |s|
    decreases requests
  {
    if requests == 0 || From(s, marker) == |s| then []
    else
      var page := First(Indices(s, q, From(s, marker)), n);
      if page == [] then []
      else page + Listed(s, q, Cut(s[page[|page| - 1]].id.key), n, requests - 1)
  }

  lemma {:induction false} MatchingIsKeys(s: seq<Manifest>, q: Query, i: nat)
    requires i <= |s|
    ensures Matching(s, q, i) == Keys(s, Indices(s, q, i))
    decreases |s| - i
  {
    if i < |s| { MatchingIsKeys(s, q, i + 1); }
  }

  /** A chain of pages is the keys of the entries it lists. */
  lemma {:induction false} ChainIsListed(s: seq<Manifest>, q: Query, marker: Name, n: nat, requests: nat)
    ensures Chain(s, q, marker, n, requests) == Keys(s, Listed(s, q, marker, n, requests))
    decreases requests
  {
    hide FirstAfter, From, Page, Indices, Cut, Keys, First;
    if requests > 0 && From(s, marker) < |s| {
      PageIsKeys(s, q, marker, n);
      var page := First(Indices(s, q, From(s, marker)), n);
      if page != [] {
        var next := Cut(s[page[|page| - 1]].id.key);
        ChainIsListed(s, q, next, n, requests - 1);
        KeysConcat(s, page, Listed(s, q, next, n, requests - 1));
      }
    }
  }

  lemma PageIsKeys(s: seq<Manifest>, q: Query, marker: Name, n: nat)
    requires From(s, marker) < |s|
    ensures var page := First(Indices(s, q, From(s, marker)), n);
            (forall x :: 0 <= x < |page| ==> page[x] < |s|) && Page(s, q, marker, n) == Keys(s, page)
  {
    hide FirstAfter, Matching, Indices, Cut;
    MatchingIsKeys(s, q, From(s, marker));
  }

  lemma KeysConcat(s: seq<Manifest>, a: seq<nat>, b: seq<nat>)
    requires (forall x :: 0 <= x < |a| ==> a[x] < |s|) && (forall x :: 0 <= x < |b| ==> b[x] < |s|)
    ensures (forall x :: 0 <= x < |a + b| ==> (a + b)[x] < |s|) && Keys(s, a + b) == Keys(s, a) + Keys(s, b)
  {
    hide Cut;
  }

  /**
   The key of entry j leads on to the next match: as a marker it starts the scan after j and skips
   no matching entry.
   */
  predicate LeadsOn(s: seq<Manifest>, q: Query, j: nat)
    requires j < |s|
  {
    var f := From(s, Cut(s[j].id.key));
    j < f && Indices(s, q, f) == Indices(s, q, j + 1)
  }

  /** From i on, the last entry of every page of n leads on. */
  predicate PagesLeadOn(s: seq<Manifest>, q: Query, i: nat, n: nat)
    requires i <= |s| && n > 0
    decreases |s| - i
  {
    var page := First(Indices(s, q, i), n);
    page == [] || (LeadsOn(s, q, page[|page| - 1]) && PagesLeadOn(s, q, page[|page| - 1] + 1, n))
  }

  lemma IndicesStep(s: seq<Manifest>, q: Query, i: nat)
    requires i <= |s|
    ensures i < |s| ==> Indices(s, q, i) == if Matches(s[i], q) then [i] + Indices(s, q, i + 1) else Indices(s, q, i + 1)
    ensures i == |s| ==> Indices(s, q, i) == []
  {
  }

  /** A page of the entries ends at one of them, and the rest of the entries follow that one. */
  lemma {:induction false} PageSplit(s: seq<Manifest>, q: Query, i: nat, n: nat)
    requires i <= |s| && n > 0 && Indices(s, q, i) != []
    ensures var page := First(Indices(s, q, i), n);
            && page != [] && i <= page[|page| - 1] < |s| && Matches(s[page[|page| - 1]], q)
            && Indices(s, q, i) == page + Indices(s, q, page[|page| - 1] + 1)
    decreases |s| - i
  {
    hide Matches, Indices, First;
    IndicesStep(s, q, i);
    if !Matches(s[i], q) {
      PageSplit(s, q, i + 1, n);
    } else {
      var rest := Indices(s, q, i + 1);
      if n == 1 || rest == [] {
        LastOfPage(i, rest, n);
      } else {
        PageSplit(s, q, i + 1, n - 1);
        var page := First(rest, n - 1);
        PageCons(i, rest, n, Indices(s, q, page[|page| - 1] + 1));
      }
    }
  }

  lemma LastOfPage(x: nat, rest: seq<nat>, n: nat)
    requires n == 1 || (n > 1 && rest == [])
    ensures First([x] + rest, n) == [x]
  {
  }

  /** A page that continues behind its first entry. */
  lemma PageCons(x: nat, rest: seq<nat>, n: nat, tail: seq<nat>)
    requires n > 1 && First(rest, n - 1) != [] && rest == First(rest, n - 1) + tail
    ensures var page, more := First([x] + rest, n), First(rest, n - 1);
            page != [] && page[|page| - 1] == more[|more| - 1] && [x] + rest == page + tail
  {
    var more := First(rest, n - 1);
    assert First([x] + rest, n) == [x] + more;
    assert [x] + (more + tail) == ([x] + more) + tail;
  }

  /** A match at or after i is among the entries from i on, which therefore start no later. */
  lemma {:induction false} StartsBy(s: seq<Manifest>, q: Query, i: nat, j: nat)
    requires i <= j < |s| && Matches(s[j], q)
    ensures Indices(s, q, i) != [] && Indices(s, q, i)[0] <= j
    decreases |s| - i
  {
    if i < j { StartsBy(s, q, i + 1, j); }
  }

  /** Entries from two points on are the same, or start differently. */
  lemma {:induction false} LaterStart(s: seq<Manifest>, q: Query, i: nat, f: nat)
    requires i <= f <= |s|
    ensures Indices(s, q, f) == Indices(s, q, i) || (Indices(s, q, i) != [] && i <= Indices(s, q, i)[0] < f)
    decreases f - i
  {
    hide Indices, Matches;
    IndicesStep(s, q, i);
    if i < f { LaterStart(s, q, i + 1, f); }
  }

  /** If entry j does not lead on, what is listed after it is not what follows it. */
  lemma AfterWrongMarker(s: seq<Manifest>, q: Query, j: nat, n: nat, requests: nat)
    requires j < |s| && Matches(s[j], q) && n > 0 && requests > 0 && !LeadsOn(s, q, j)
    ensures Listed(s, q, Cut(s[j].id.key), n, requests) != Indices(s, q, j + 1)
  {
    hide From, Matches, Cut, Indices;
    var marker := Cut(s[j].id.key);
    var f := From(s, marker);
    var got, want := Listed(s, q, marker, n, requests), Indices(s, q, j + 1);
    if f <= j {
      StartsBy(s, q, f, j);
      assert got[0] == Indices(s, q, f)[0] <= j;
    } else {
      LaterStart(s, q, j + 1, f);
      assert want[0] < f;
      if got != [] { assert got[0] == Indices(s, q, f)[0] >= f; }
    }
  }

  /**
   In any shard, chaining pages of n lists each matching entry after the marker once and in order,
   exactly when the last key of every such page leads on to the next match; one request more than
   there are entries is enough to tell.
   */
  lemma {:induction false} ChainListsAllIff(s: seq<Manifest>, q: Query, marker: Name, n: nat, requests: nat)
    requires n > 0 && requests > |s| - From(s, marker)
    ensures Listed(s, q, marker, n, requests) == Indices(s, q, From(s, marker))
            <==> PagesLeadOn(s, q, From(s, marker), n)
    decreases requests
  {
    hide From, Matches, Cut, First;
    var i := From(s, marker);
    if i < |s| && Indices(s, q, i) != [] {
      PageSplit(s, q, i, n);
      var page := First(Indices(s, q, i), n);
      var j := page[|page| - 1];
      var next := Cut(s[j].id.key);
      var rest := Listed(s, q, next, n, requests - 1);
      assert Listed(s, q, marker, n, requests) == page + rest;
      SamePrefix(page, rest, Indices(s, q, j + 1));
      if LeadsOn(s, q, j) {
        ChainListsAllIff(s, q, next, n, requests - 1);
        SamePages(s, q, From(s, next), j + 1, n);
      } else {
        AfterWrongMarker(s, q, j, n, requests - 1);
      }
    } else {
      NothingListed(s, q, marker, n, requests);
    }
  }

  /** When every page leads on, as many requests as there are entries left are enough. */
  lemma {:induction false} LeadingOnListsAll(s: seq<Manifest>, q: Query, marker: Name, n: nat, requests: nat)
    requires n > 0 && requests >= |s| - From(s, marker) && PagesLeadOn(s, q, From(s, marker), n)
    ensures Listed(s, q, marker, n, requests) == Indices(s, q, From(s, marker))
    decreases requests
  {
    hide From, Matches, Cut, First;
    var i := From(s, marker);
    if i < |s| && Indices(s, q, i) != [] {
      PageSplit(s, q, i, n);
      var page := First(Indices(s, q, i), n);
      var j := page[|page| - 1];
      var next := Cut(s[j].id.key);
      SamePages(s, q, From(s, next), j + 1, n);
      LeadingOnListsAll(s, q, next, n, requests - 1);
    } else {
      NothingListed(s, q, marker, n, requests);
    }
  }

  lemma SamePrefix(p: seq<nat>, x: seq<nat>, y: seq<nat>)
    ensures p + x == p + y <==> x == y
  {
    if p + x == p + y {
      assert x == (p + x)[|p|..] && y == (p + y)[|p|..];
    }
  }

  lemma SamePages(s: seq<Manifest>, q: Query, i: nat, j: nat, n: nat)
    requires i <= |s| && j <= |s| && n > 0 && Indices(s, q, i) == Indices(s, q, j)
    ensures PagesLeadOn(s, q, i, n) <==> PagesLeadOn(s, q, j, n)
  {
    hide LeadsOn, Indices, First;
  }

  lemma NothingListed(s: seq<Manifest>, q: Query, marker: Name, n: nat, requests: nat)
    requires n > 0 && Indices(s, q, From(s, marker)) == []
    ensures Listed(s, q, marker, n, requests) == [] && PagesLeadOn(s, q, From(s, marker), n)
  {
  }

  /** Pages of n list each matching entry after the marker once and in order. */
  ghost predicate ListsAll(s: seq<Manifest>, q: Query, marker: Name, n: nat) {
    Listed(s, q, marker, n, |s| + 1) == Indices(s, q, From(s, marker))
  }

  /** Every matching entry from i on leads on. */
  ghost predicate AllLeadOn(s: seq<Manifest>, q: Query, i: nat) {
    forall j :: i <= j < |s| && Matches(s[j], q) ==> LeadsOn(s, q, j)
  }

  lemma {:induction false} AllLeadOnPages(s: seq<Manifest>, q: Query, i: nat, n: nat)
    requires i <= |s| && n > 0 && AllLeadOn(s, q, i)
    ensures PagesLeadOn(s, q, i, n)
    decreases |s| - i
  {
    hide LeadsOn, Matches, Indices;
    if Indices(s, q, i) != [] {
      PageSplit(s, q, i, n);
      var page := First(Indices(s, q, i), n);
      AllLeadOnPages(s, q, page[|page| - 1] + 1, n);
    }
  }

  /** With pages of one entry each, every matching entry ends a page. */
  lemma {:induction false} SinglePages(s: seq<Manifest>, q: Query, i: nat)
    requires i <= |s| && PagesLeadOn(s, q, i, 1)
    ensures AllLeadOn(s, q, i)
    decreases |s| - i
  {
    hide LeadsOn, Matches;
    if i < |s| {
      if Matches(s[i], q) {
        assert First(Indices(s, q, i), 1) == [i];
      } else {
        assert Indices(s, q, i) == [] + Indices(s, q, i + 1) == Indices(s, q, i + 1);
        SamePages(s, q, i, i + 1, 1);
      }
      SinglePages(s, q, i + 1);
    }
  }

  /**
   In any shard, pages of every size list each matching entry after the marker once and in order,
   exactly when each such entry's key starts the scan after the entry and not after the next match.
   */
  lemma EveryPageSizeListsAllIff(s: seq<Manifest>, q: Query, marker: Name)
    ensures (forall n: nat :: n > 0 ==> ListsAll(s, q, marker, n)) <==> AllLeadOn(s, q, From(s, marker))
  {
    hide From, Listed, Indices, AllLeadOn, PagesLeadOn;
    forall n: nat | n > 0
      ensures ListsAll(s, q, marker, n) <==> PagesLeadOn(s, q, From(s, marker), n)
      ensures AllLeadOn(s, q, From(s, marker)) ==> PagesLeadOn(s, q, From(s, marker), n)
    {
      ChainListsAllIff(s, q, marker, n, |s| + 1);
      if AllLeadOn(s, q, From(s, marker)) { AllLeadOnPages(s, q, From(s, marker), n); }
    }
    if ListsAll(s, q, marker, 1) { SinglePages(s, q, From(s, marker)); }
  }

  /** A key longer than an output slot never leads on: as a marker it finds its own entry again. */
  lemma LongKeyLoops(s: seq<Manifest>, q: Query, j: nat)
    requires j < |s| && |s[j].id.key| > KEY_OUT
    ensures !LeadsOn(s, q, j)
  {
    var k := s[j].id.key;
    PrefixBefore(k, KEY_OUT);
    FirstAfterBy(s, Cut(k), 0, j);
  }

  lemma {:induction false} PrefixBefore(k: Name, n: nat)
    requires n < |k|
    ensures Before(k[..n], k)
  {
    if n > 0 {
      assert k[..n][1..] == k[1..][..n - 1];
      PrefixBefore(k[1..], n - 1);
    }
  }

  lemma {:induction false} FirstAfterBy(s: seq<Manifest>, marker: Name, i: nat, j: nat)
    requires i <= j < |s| && Before(marker, s[j].id.key)
    ensures FirstAfter(s, marker, i) <= j
    decreases |s| - i
  {
    if i < j { FirstAfterBy(s, marker, i + 1, j); }
  }

  /** A shard in which b was stored before a: listed one by one, a is lost. */
  lemma UnsortedKeyIsLost(b: Manifest, a: Manifest, q: Query, requests: nat)
    requires Matches(b, q) && Matches(a, q) && 0 < |b.id.key| <= KEY_OUT
    requires Before(a.id.key, b.id.key) && requests > 0
    ensures Matching([b, a], q, 0) == [b.id.key, Cut(a.id.key)]
    ensures Chain([b, a], q, [], 1, requests) == [b.id.key]
  {
    var s, k := [b, a], b.id.key;
    BeforeIrreflexive(k);
    if Before(k, a.id.key) { BeforeTransitive(a.id.key, k, a.id.key); BeforeIrreflexive(a.id.key); }
    hide Before, Matches;
    assert Matching(s, q, 2) == [] && Matching(s, q, 1) == [Cut(a.id.key)];
    assert FirstAfter(s, k, 0) == FirstAfter(s, k, 1) == FirstAfter(s, k, 2) == 2;
    assert Page(s, q, [], 1) == [k];
  }

  // ---------- chaining pages in key order ----------

  lemma InOrderLeadsOn(s: seq<Manifest>, q: Query, j: nat)
    requires Listable(s) && j < |s|
    ensures LeadsOn(s, q, j)
  {
    AfterEntry(s, j);
  }

  /**
   In key order, chaining pages of any size lists every matching key after the marker once and in
   order; as many pages as there are entries are enough.
   */
  lemma ChainListsAll(s: seq<Manifest>, q: Query, marker: Name, n: nat, requests: nat)
    requires Listable(s) && n > 0 && |s| - FirstAfter(s, marker, 0) <= requests
    ensures Chain(s, q, marker, n, requests) == KeysAfter(s, q, marker)
  {
    hide LeadsOn, Matching, Indices, Listed, Chain;
    forall j | From(s, marker) <= j < |s| && Matches(s[j], q) ensures LeadsOn(s, q, j) { InOrderLeadsOn(s, q, j); }
    AllLeadOnPages(s, q, From(s, marker), n);
    if marker == [] && s != [] { assert Before(marker, s[0].id.key); }
    LeadingOnListsAll(s, q, marker, n, requests);
    ChainIsListed(s, q, marker, n, requests);
    MatchingIsKeys(s, q, From(s, marker));
  }

  /** What is listed: the keys of the matching entries, strictly ascending. */
  lemma {:induction false} MatchingAscends(s: seq<Manifest>, q: Query, i: nat)
    requires Listable(s) && i <= |s|
    ensures forall a, b :: 0 <= a < b < |Matching(s, q, i)| ==> Before(Matching(s, q, i)[a], Matching(s, q, i)[b])
    ensures forall k :: k in Matching(s, q, i) <==> exists j :: i <= j < |s| && Matches(s[j], q) && s[j].id.key == k
    decreases |s| - i
  {
    hide Before;
    if i < |s| {
      MatchingAscends(s, q, i + 1);
      var rest := Matching(s, q, i + 1);
      if Matches(s[i], q) {
        var k := s[i].id.key;
        assert Matching(s, q, i) == [k] + rest;
        forall b | 0 <= b < |rest| ensures Before(k, rest[b]) {
          assert rest[b] in rest;
          var j :| i + 1 <= j < |s| && Matches(s[j], q) && s[j].id.key == rest[b];
        }
        assert forall x :: x in [k] + rest <==> x == k || x in rest;
      } else {
        assert Matching(s, q, i) == rest;
      }
    }
  }
}
