/** Last-write-wins replication (gateway_replication.c): convergence of replicas. */
module Replication {
  import opened MetaTypes
  import opened Bytes
  import opened MetaServer

  /** replication_resolve_conflict: the incoming write replaces the existing one. */
  predicate Wins(inSequence: nat, inDc: nat, exSequence: nat, exDc: nat) {
    if inSequence > exSequence then true
    else if inSequence < exSequence then false
    else inDc > exDc
  }

  predicate Beats(a: Manifest, b: Manifest) {
    Wins(a.writeSequence, a.datacenterId, b.writeSequence, b.datacenterId)
  }

  type Replica = map<ObjectKey, Manifest>

  /** A replica receives one write. */
  function Apply(r: Replica, w: Manifest): Replica {
    if w.id in r && !Beats(w, r[w.id]) then r else r[w.id := w]
  }

  function ApplyAll(r: Replica, ws: seq<Manifest>): Replica {
    if ws == [] then r else Apply(ApplyAll(r, ws[..|ws| - 1]), ws[|ws| - 1])
  }

  /** w is a write of its key that no write in ws beats. */
  ghost predicate Unbeaten(ws: seq<Manifest>, w: Manifest) {
    w in ws && forall v :: v in ws && v.id == w.id ==> !Beats(v, w)
  }

  ghost predicate SameWrites(xs: seq<Manifest>, ys: seq<Manifest>) {
    forall w :: w in xs <==> w in ys
  }

  /** For no key do two different writes share the greatest stamp. */
  ghost predicate ClearWinners(ws: seq<Manifest>) {
    forall a, b :: Unbeaten(ws, a) && Unbeaten(ws, b) && a.id == b.id ==> a == b
  }

  /** A replica ends with an unbeaten write for each key written, and with nothing else. */
  lemma {:induction false} EndsUnbeaten(ws: seq<Manifest>, k: ObjectKey)
    ensures k in ApplyAll(map[], ws) <==> exists w :: w in ws && w.id == k
    ensures k in ApplyAll(map[], ws) ==> ApplyAll(map[], ws)[k].id == k && Unbeaten(ws, ApplyAll(map[], ws)[k])
  {
    if ws != [] {
      var n := |ws| - 1;
      var r := ApplyAll(map[], ws[..n]);
      EndsUnbeaten(ws[..n], k);
      assert forall w :: w in ws <==> w in ws[..n] || w == ws[n] by { assert ws == ws[..n] + [ws[n]]; }
      if ws[n].id == k && k in r {
        assert Unbeaten(ws[..n], r[k]);
      }
    }
  }

  /** v was stamped no later than w: by sequence number, then by datacenter id. */
  predicate NoLater(v: Manifest, w: Manifest) {
    v.writeSequence < w.writeSequence
    || (v.writeSequence == w.writeSequence && v.datacenterId <= w.datacenterId)
  }

  /** A replica ends with the last write of each key: no write of the key carries a greater stamp. */
  lemma LastWriteWins(ws: seq<Manifest>, v: Manifest)
    requires v in ws
    ensures var r := ApplyAll(map[], ws);
            v.id in r && r[v.id] in ws && r[v.id].id == v.id && NoLater(v, r[v.id])
  {
    hide ApplyAll;
    EndsUnbeaten(ws, v.id);
  }

  /** Convergence needs exactly that for no key two different writes share the greatest stamp. */
  lemma ClearWinnersIff(ws: seq<Manifest>)
    ensures ClearWinners(ws) <==>
            forall a, b :: a in ws && b in ws && a.id == b.id && a != b
                           && a.writeSequence == b.writeSequence && a.datacenterId == b.datacenterId
                           ==> exists c :: c in ws && c.id == a.id && !NoLater(c, a)
  {
    if ClearWinners(ws) {
      forall a, b | a in ws && b in ws && a.id == b.id && a != b
                    && a.writeSequence == b.writeSequence && a.datacenterId == b.datacenterId
        ensures exists c :: c in ws && c.id == a.id && !NoLater(c, a)
      {
        assert !(Unbeaten(ws, a) && Unbeaten(ws, b));
        assert Unbeaten(ws, a) <==> Unbeaten(ws, b);
        var c :| c in ws && c.id == a.id && Beats(c, a);
        assert !NoLater(c, a);
      }
    }
  }

  /** Replicas that receive the same writes, in any order and with repeats, end equal. */
  lemma Converge(xs: seq<Manifest>, ys: seq<Manifest>)
    requires SameWrites(xs, ys) && ClearWinners(xs)
    ensures ApplyAll(map[], xs) == ApplyAll(map[], ys)
  {
    var a, b := ApplyAll(map[], xs), ApplyAll(map[], ys);
    forall k ensures Get(a, k) == Get(b, k) {
      hide ApplyAll;
      EndsUnbeaten(xs, k);
      EndsUnbeaten(ys, k);
      if k in a {
        assert Unbeaten(xs, b[k]);
      }
    }
    MetaShard.SameMap(a, b);
  }

  lemma {:induction false} FirstUnbeatenStays(w: Manifest, ws: seq<Manifest>)
    requires forall v :: v in ws && v.id == w.id ==> !Beats(v, w)
    ensures Get(ApplyAll(map[], [w] + ws), w.id) == Some(w)
  {
    if ws == [] {
      assert [w] + ws == [w];
      assert [w][..0] == [];
    } else {
      var n := |ws| - 1;
      assert ([w] + ws)[..n + 1] == [w] + ws[..n];
      assert forall v :: v in ws[..n] ==> v in ws;
      FirstUnbeatenStays(w, ws[..n]);
      assert ws[n] in ws;
    }
  }

  /** Of two unbeaten writes of a key, the one that arrives first stays. */
  lemma TieDiverges(xs: seq<Manifest>, a: Manifest, b: Manifest)
    requires Unbeaten(xs, a) && Unbeaten(xs, b) && a.id == b.id && a != b
    ensures SameWrites(xs, [a] + xs) && SameWrites(xs, [b] + xs)
    ensures ApplyAll(map[], [a] + xs) != ApplyAll(map[], [b] + xs)
  {
    hide ApplyAll;
    FirstUnbeatenStays(a, xs);
    FirstUnbeatenStays(b, xs);
  }

  /** Clear winners are exactly what convergence needs: with a tie at the top, two orders differ. */
  lemma ConvergeIff(xs: seq<Manifest>)
    ensures ClearWinners(xs) <==>
            forall ys :: SameWrites(xs, ys) ==> ApplyAll(map[], ys) == ApplyAll(map[], xs)
  {
    hide ApplyAll, SameWrites;
    if ClearWinners(xs) {
      forall ys | SameWrites(xs, ys) ensures ApplyAll(map[], ys) == ApplyAll(map[], xs) { Converge(xs, ys); }
    } else {
      var a, b :| Unbeaten(xs, a) && Unbeaten(xs, b) && a.id == b.id && a != b;
      TieDiverges(xs, a, b);
    }
  }

  // ---------- writes from several servers ----------

  /** One server's life: its operations and its datacenter id. */
  datatype History = History(ops: seq<Op>, dc: nat)

  ghost predicate DistinctServers(hs: seq<History>) {
    && (forall i, j :: 0 <= i < j < |hs| ==> hs[i].dc != hs[j].dc)
    && (forall i :: 0 <= i < |hs| ==> |Stamped(hs[i].ops, hs[i].dc)| < U64)
  }

  ghost predicate StampedBy(hs: seq<History>, w: Manifest) {
    exists i :: 0 <= i < |hs| && w in Stamped(hs[i].ops, hs[i].dc)
  }

  /** Servers with distinct datacenter ids never give two writes the same stamp. */
  lemma StampsIdentify(hs: seq<History>, a: Manifest, b: Manifest)
    requires DistinctServers(hs) && StampedBy(hs, a) && StampedBy(hs, b)
    requires a.writeSequence == b.writeSequence && a.datacenterId == b.datacenterId
    ensures a == b
  {
    hide Stamped, Run;
    var i :| 0 <= i < |hs| && a in Stamped(hs[i].ops, hs[i].dc);
    var j :| 0 <= j < |hs| && b in Stamped(hs[j].ops, hs[j].dc);
    StampsCountUp(hs[i].ops, hs[i].dc);
    StampsCountUp(hs[j].ops, hs[j].dc);
  }

  /**
   Replicas that receive the same pushed writes of such servers, in any order and with repeats,
   end with the same manifest for every key.
   */
  lemma ServersConverge(hs: seq<History>, xs: seq<Manifest>, ys: seq<Manifest>)
    requires DistinctServers(hs) && SameWrites(xs, ys)
    requires forall w :: w in xs ==> StampedBy(hs, w)
    ensures ApplyAll(map[], xs) == ApplyAll(map[], ys)
  {
    hide StampedBy, DistinctServers;
    forall a, b | Unbeaten(xs, a) && Unbeaten(xs, b) && a.id == b.id ensures a == b {
      StampsIdentify(hs, a, b);
    }
    Converge(xs, ys);
  }
}
