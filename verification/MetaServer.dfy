/** The metadata server (meta_server.c): stamping of pushed manifests and runs of pushes and deletes. */
module MetaServer {
  import opened MetaTypes
  import opened Bytes
  import opened MetaShard

  // ---------- stamping ----------

  /** The 64-bit sequence counter n pushes later. */
  function Advance(c: nat, n: nat): nat {
    (c + n) % U64
  }

  function Stamp(m: Manifest, sequence: nat, dc: nat): Manifest {
    m.(writeSequence := sequence, datacenterId := dc)
  }

  /** A batch as the push leaves it: the i-th manifest carries the (i+1)-th next sequence number. */
  function StampAll(ms: seq<Manifest>, c: nat, dc: nat): (r: seq<Manifest>)
    ensures |r| == |ms|
    ensures forall i :: 0 <= i < |ms| ==> r[i] == Stamp(ms[i], Advance(c, i + 1), dc)
  {
    if ms == [] then []
    else StampAll(ms[..|ms| - 1], c, dc) + [Stamp(ms[|ms| - 1], Advance(c, |ms|), dc)]
  }

  /** What a client gave the server: everything but the stamp. */
  predicate SamePayload(a: Manifest, b: Manifest) {
    a.id == b.id && a.size == b.size && a.checksum == b.checksum && a.fragments == b.fragments
  }

  /** Stamping changes the stamp alone. */
  lemma StampKeepsPayload(ms: seq<Manifest>, c: nat, dc: nat, i: nat)
    requires i < |ms|
    ensures SamePayload(StampAll(ms, c, dc)[i], ms[i])
  {
  }

  lemma AdvanceStep(c: nat, n: nat)
    ensures (Advance(c, n) + 1) % U64 == Advance(c, n + 1)
  {
  }

  lemma NothingInserted(s: seq<Manifest>, t: seq<Manifest>)
    ensures InsertAll(s, t[..0]) == s && (t == [] ==> InsertAll(s, t) == s)
  {
  }

  lemma InsertAllNext(s: seq<Manifest>, t: seq<Manifest>, i: nat)
    requires i < |t|
    ensures InsertAll(s, t[..i + 1]) == Insert(InsertAll(s, t[..i]), t[i])
  {
    assert t[..i + 1][..i] == t[..i];
  }

  /** A meta server: its configuration, counter and shard. */
  class Server {
    const dc: nat
    var counter: nat
    const shard: Shard

    ghost predicate Valid()
      reads this, shard, shard.Repr
    {
      shard.Valid() && this !in shard.Repr && counter < U64
    }

    constructor (id: nat, dc: nat)
      ensures Valid() && fresh(shard) && fresh(shard.Repr)
      ensures this.dc == dc && counter == 0 && shard.Value() == []
    {
      this.dc := dc;
      counter := 0;
      shard := new Shard(id);
    }

    /**
     meta_server_push_manifest_batch: stamps the batch in place and inserts it front to back; an
     empty batch is refused.
     */
    method PushBatch(batch: array<Manifest>) returns (ok: bool)
      requires Valid() && batch !in shard.Repr
      modifies this, shard.Repr, batch
      ensures Valid() && fresh(shard.Repr - old(shard.Repr))
      ensures ok <==> batch.Length > 0
      ensures batch[..] == StampAll(old(batch[..]), old(counter), dc)
      ensures counter == Advance(old(counter), batch.Length)
      ensures shard.Value() == InsertAll(old(shard.Value()), batch[..])
    {
      hide Insert, InsertAll, StampAll;
      ghost var b, c, s := batch[..], counter, shard.Value();
      ghost var t := StampAll(b, c, dc);
      NothingInserted(s, t);
      if batch.Length <= 0 {
        return false;
      }
      var i := 0;
      while i < batch.Length
        invariant 0 <= i <= batch.Length
        invariant Valid() && fresh(shard.Repr - old(shard.Repr)) && batch !in shard.Repr
        invariant counter == Advance(c, i)
        invariant forall j :: 0 <= j < i ==> batch[j] == t[j]
        invariant forall j :: i <= j < batch.Length ==> batch[j] == b[j]
        invariant shard.Value() == InsertAll(s, t[..i])
      {
        AdvanceStep(c, i);
        counter := (counter + 1) % U64;
        batch[i] := Stamp(batch[i], counter, dc);
        InsertAllNext(s, t, i);
        shard.InsertEntry(batch[i]);
        i := i + 1;
      }
      assert batch[..] == t && t[..i] == t;
      return true;
    }

    method GetManifest(k: ObjectKey) returns (out: Option<Manifest>)
      requires Valid()
      ensures out == Get(Contents(shard.Value()), k)
    {
      out := shard.LookupEntry(k);
      LookupIsGet(shard.Value(), k);
    }
  }

  // ---------- runs ----------

  datatype Op = Push(batch: seq<Manifest>) | Remove(k: ObjectKey)

  datatype State = State(entries: seq<Manifest>, counter: nat)

  function Step(s: State, op: Op, dc: nat): State {
    match op
    case Push(ms) => State(InsertAll(s.entries, StampAll(ms, s.counter, dc)), Advance(s.counter, |ms|))
    case Remove(k) => State(Delete(s.entries, k), s.counter)
  }

  function Run(ops: seq<Op>, dc: nat): State {
    if ops == [] then State([], 0) else Step(Run(ops[..|ops| - 1], dc), ops[|ops| - 1], dc)
  }

  /** Every manifest the server has ever stamped, in order. */
  function Stamped(ops: seq<Op>, dc: nat): seq<Manifest> {
    if ops == [] then []
    else
      var op := ops[|ops| - 1];
      Stamped(ops[..|ops| - 1], dc)
      + (if op.Push? then StampAll(op.batch, Run(ops[..|ops| - 1], dc).counter, dc) else [])
  }

  /** The reference: the same run on a map. */
  ghost function Reference(ops: seq<Op>, dc: nat): map<ObjectKey, Manifest> {
    if ops == [] then map[]
    else
      var rest := ops[..|ops| - 1];
      match ops[|ops| - 1]
      case Push(ms) => PutAll(Reference(rest, dc), StampAll(ms, Run(rest, dc).counter, dc))
      case Remove(k) => Reference(rest, dc) - {k}
  }

  /** Over every run of pushes and deletes the array has unique keys and stands for the reference map. */
  lemma {:induction false} RunRefines(ops: seq<Op>, dc: nat)
    ensures Unique(Run(ops, dc).entries)
    ensures Contents(Run(ops, dc).entries) == Reference(ops, dc)
  {
    hide Find, Contents, Insert, Delete;
    if ops == [] {
      EmptyContents();
    } else {
      var rest := ops[..|ops| - 1];
      RunRefines(rest, dc);
      var s := Run(rest, dc);
      match ops[|ops| - 1]
      case Push(ms) => InsertAllRefines(s.entries, StampAll(ms, s.counter, dc));
      case Remove(k) => DeleteRefines(s.entries, k);
    }
  }

  /** The last manifest for k in a batch. */
  function LastIn(ms: seq<Manifest>, k: ObjectKey): Option<Manifest> {
    if ms == [] then None
    else if ms[|ms| - 1].id == k then Some(ms[|ms| - 1])
    else LastIn(ms[..|ms| - 1], k)
  }

  /** The manifest last pushed for k and not deleted since, as the client gave it. */
  function LastPushed(ops: seq<Op>, k: ObjectKey): Option<Manifest> {
    if ops == [] then None
    else
      var before := LastPushed(ops[..|ops| - 1], k);
      match ops[|ops| - 1]
      case Push(ms) => if LastIn(ms, k).Some? then LastIn(ms, k) else before
      case Remove(x) => if x == k then None else before
  }

  ghost predicate Answers(got: Option<Manifest>, given: Option<Manifest>) {
    (got.Some? <==> given.Some?) && (got.Some? ==> SamePayload(got.value, given.value))
  }

  lemma {:induction false} PutAllAnswers(m: map<ObjectKey, Manifest>, ms: seq<Manifest>, c: nat, dc: nat, k: ObjectKey)
    ensures LastIn(ms, k).Some? ==> Answers(Get(PutAll(m, StampAll(ms, c, dc)), k), LastIn(ms, k))
    ensures LastIn(ms, k).None? ==> Get(PutAll(m, StampAll(ms, c, dc)), k) == Get(m, k)
  {
    if ms != [] {
      var n := |ms| - 1;
      var t := StampAll(ms, c, dc);
      assert t[..n] == StampAll(ms[..n], c, dc);
      StampKeepsPayload(ms, c, dc, n);
      PutAllAnswers(m, ms[..n], c, dc, k);
    }
  }

  /**
   Over every run a lookup finds, stamp aside, the manifest last pushed for the key, and nothing
   exactly when none was pushed or it was deleted since.
   */
  lemma {:induction false} LookupIsLastPushed(ops: seq<Op>, dc: nat, k: ObjectKey)
    ensures Answers(Get(Contents(Run(ops, dc).entries), k), LastPushed(ops, k))
  {
    hide Contents, Run, StampAll, PutAll, LastIn, SamePayload;
    RunRefines(ops, dc);
    if ops != [] {
      var rest := ops[..|ops| - 1];
      LookupIsLastPushed(rest, dc, k);
      RunRefines(rest, dc);
      if ops[|ops| - 1].Push? {
        PutAllAnswers(Reference(rest, dc), ops[|ops| - 1].batch, Run(rest, dc).counter, dc, k);
      }
    }
  }

  lemma EmptyContents()
    ensures Contents([]) == map[]
  {
  }

  /** Before the counter wraps, the i-th manifest ever stamped carries the number i+1 and this datacenter. */
  lemma {:induction false} StampsCountUp(ops: seq<Op>, dc: nat)
    requires |Stamped(ops, dc)| < U64
    ensures Run(ops, dc).counter == |Stamped(ops, dc)|
    ensures forall i :: 0 <= i < |Stamped(ops, dc)| ==>
              Stamped(ops, dc)[i].writeSequence == i + 1 && Stamped(ops, dc)[i].datacenterId == dc
  {
    hide InsertAll, Delete;
    if ops != [] {
      var rest := ops[..|ops| - 1];
      StampsCountUp(rest, dc);
    }
  }

  /** Whatever is stored was stamped by this server. */
  lemma {:induction false} StoredWereStamped(ops: seq<Op>, dc: nat, i: nat)
    requires i < |Run(ops, dc).entries|
    ensures Run(ops, dc).entries[i] in Stamped(ops, dc)
  {
    var rest, op := ops[..|ops| - 1], ops[|ops| - 1];
    var s := Run(rest, dc);
    hide Step;
    StepFrom(s, op, dc, i);
    if Run(ops, dc).entries[i] in s.entries {
      var j :| 0 <= j < |s.entries| && s.entries[j] == Run(ops, dc).entries[i];
      StoredWereStamped(rest, dc, j);
    }
  }

  /** A step keeps entries and adds only what it stamps. */
  lemma StepFrom(s: State, op: Op, dc: nat, i: nat)
    requires i < |Step(s, op, dc).entries|
    ensures Step(s, op, dc).entries[i] in s.entries
            || (op.Push? && Step(s, op, dc).entries[i] in StampAll(op.batch, s.counter, dc))
  {
    hide Find, Insert;
    if op.Push? { InsertAllFrom(s.entries, StampAll(op.batch, s.counter, dc), i); }
  }

  lemma {:induction false} InsertAllFrom(s: seq<Manifest>, ms: seq<Manifest>, i: nat)
    requires i < |InsertAll(s, ms)|
    ensures InsertAll(s, ms)[i] in s || InsertAll(s, ms)[i] in ms
  {
    hide Find;
    if ms != [] {
      var t := InsertAll(s, ms[..|ms| - 1]);
      if i < |t| && InsertAll(s, ms)[i] == t[i] {
        InsertAllFrom(s, ms[..|ms| - 1], i);
      } else {
        assert InsertAll(s, ms)[i] == ms[|ms| - 1];
      }
    }
  }

  /** Every stored sequence number is within the counter. */
  lemma StoredWithinCounter(ops: seq<Op>, dc: nat, i: nat)
    requires |Stamped(ops, dc)| < U64 && i < |Run(ops, dc).entries|
    ensures 0 < Run(ops, dc).entries[i].writeSequence <= Run(ops, dc).counter
  {
    hide Run, Stamped;
    StampsCountUp(ops, dc);
    StoredWereStamped(ops, dc, i);
  }

  lemma StoredDiffer(ops: seq<Op>, dc: nat, i: nat, j: nat)
    requires |Stamped(ops, dc)| < U64 && i < j < |Run(ops, dc).entries|
    ensures Run(ops, dc).entries[i].writeSequence != Run(ops, dc).entries[j].writeSequence
  {
    hide Run, Stamped;
    StampsCountUp(ops, dc);
    RunRefines(ops, dc);
    StoredWereStamped(ops, dc, i);
    StoredWereStamped(ops, dc, j);
  }

  /** Stored sequence numbers are pairwise distinct, and each is within the counter. */
  lemma StoredSequences(ops: seq<Op>, dc: nat)
    requires |Stamped(ops, dc)| < U64
    ensures var s := Run(ops, dc);
            && (forall i :: 0 <= i < |s.entries| ==> 0 < s.entries[i].writeSequence <= s.counter)
            && (forall i, j :: 0 <= i < j < |s.entries| ==> s.entries[i].writeSequence != s.entries[j].writeSequence)
  {
    hide Run, Stamped;
    var s := Run(ops, dc);
    forall i | 0 <= i < |s.entries| ensures 0 < s.entries[i].writeSequence <= s.counter {
      StoredWithinCounter(ops, dc, i);
    }
    forall i, j | 0 <= i < j < |s.entries| ensures s.entries[i].writeSequence != s.entries[j].writeSequence {
      StoredDiffer(ops, dc, i, j);
    }
  }
}
