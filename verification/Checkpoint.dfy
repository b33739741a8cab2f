/** Checkpoints (meta_checkpoint.c): a shard's entries as bytes, and back. */
module Checkpoint {
  import opened MetaTypes
  import opened Bytes
  import opened Sums
  import opened MetaShard

  const MAGIC := 0x4D434B50
  const HEADER := 32
  const BUFFER := 1048576

  /** The entry count of a shard is a C int. */
  const ENTRY_LIMIT := 0x7FFF_FFFF

  /** A manifest as its C struct can hold it: names that fit and contain no NUL, fields in range. */
  predicate Storable(m: Manifest) {
    && Fits(m.id) && 0 !in m.id.bucket && 0 !in m.id.key
    && m.size < U64 && m.checksum < U32 && m.writeSequence < U64 && m.datacenterId < U32
  }

  ghost predicate AllStorable(s: seq<Manifest>) {
    forall i :: 0 <= i < |s| ==> Storable(s[i])
  }

  // ---------- writing ----------

  function Fixed(m: Manifest): (r: seq<Byte>)
    ensures |r| == 24
  {
    LE(8, m.size) + LE(4, m.checksum) + LE(8, m.writeSequence) + LE(4, m.datacenterId)
  }

  function EncodeEntry(m: Manifest): (r: seq<Byte>)
    ensures |r| == |m.id.bucket| + |m.id.key| + 26
  {
    m.id.bucket + [0] + (m.id.key + [0] + Fixed(m))
  }

  function EncodeEntries(s: seq<Manifest>): seq<Byte> {
    if s == [] then [] else EncodeEntries(s[..|s| - 1]) + EncodeEntry(s[|s| - 1])
  }

  function Header(sequence: nat, shardId: nat, count: nat): (r: seq<Byte>)
    ensures |r| == HEADER
  {
    LE(8, MAGIC) + LE(8, sequence) + LE(8, shardId) + LE(4, count) + LE(4, 0)
  }

  function Encode(s: seq<Manifest>, sequence: nat, shardId: nat): seq<Byte> {
    Header(sequence, shardId, |s|) + EncodeEntries(s)
  }

  ghost function EntrySizes(s: seq<Manifest>): seq<int> {
    seq(|s|, i requires 0 <= i < |s| => |s[i].id.bucket| + |s[i].id.key| + 26)
  }

  lemma {:induction false} EntriesSize(s: seq<Manifest>)
    ensures |EncodeEntries(s)| == Sum(EntrySizes(s))
  {
    if s != [] {
      EntriesSize(s[..|s| - 1]);
      assert EntrySizes(s)[..|s| - 1] == EntrySizes(s[..|s| - 1]);
    }
  }

  /** The checkpoint is 32 bytes and, per entry, both names and 26 bytes. */
  lemma EncodeSize(s: seq<Manifest>, sequence: nat, shardId: nat)
    ensures |Encode(s, sequence, shardId)| == HEADER + Sum(EntrySizes(s))
  {
    EntriesSize(s);
  }

  lemma LargestEntry(s: seq<Manifest>)
    requires AllStorable(s)
    ensures Sum(EntrySizes(s)) <= 1305 * |s|
  {
    forall i | 0 <= i < |s| ensures 0 <= EntrySizes(s)[i] <= 1305 { assert Storable(s[i]); }
    SumBounds(EntrySizes(s), 0, 1305);
  }

  /** Any shard of at most 803 entries fits the buffer. */
  lemma FitsUpTo803(s: seq<Manifest>, sequence: nat, shardId: nat)
    requires AllStorable(s) && |s| <= 803
    ensures |Encode(s, sequence, shardId)| <= BUFFER
  {
    EncodeSize(s, sequence, shardId);
    LargestEntry(s);
  }

  /** The i-th of a family of distinct names of full length. */
  function Longest(i: nat): Manifest
    requires i < ENTRY_LIMIT
  {
    Manifest(ObjectKey(seq(255, _ => 97), Digits(i) + seq(1020, _ => 97)), 0, 0, 0, 0, [])
  }

  /** A number as four bytes other than NUL. */
  function Digits(i: nat): (r: Name)
    requires i < ENTRY_LIMIT
    ensures |r| == 4 && 0 !in r
  {
    var q := i / 250;
    var p := q / 250;
    [1 + i % 250, 1 + q % 250, 1 + p % 250, 1 + p / 250]
  }

  lemma SameDivMod(x: nat, y: nat, d: nat, q: nat)
    requires 1 + x % 250 == d == 1 + y % 250 && 1 + x / 250 == q == 1 + y / 250
    ensures x == y
  {
  }

  lemma DigitsInjective(i: nat, j: nat)
    requires i < ENTRY_LIMIT && j < ENTRY_LIMIT && Digits(i) == Digits(j)
    ensures i == j
  {
    SameDivMod(i / 250 / 250, j / 250 / 250, Digits(i)[2], Digits(i)[3]);
    SameDivMod(i / 250, j / 250, Digits(i)[1], i / 250 / 250 + 1);
    SameDivMod(i, j, Digits(i)[0], i / 250 + 1);
  }

  lemma LongestInjective(i: nat, j: nat)
    requires i < ENTRY_LIMIT && j < ENTRY_LIMIT && Longest(i).id == Longest(j).id
    ensures i == j
  {
    hide Digits;
    assert Longest(i).id.key[..4] == Digits(i) && Longest(j).id.key[..4] == Digits(j);
    DigitsInjective(i, j);
  }

  lemma LongestStorable(i: nat)
    requires i < ENTRY_LIMIT
    ensures Storable(Longest(i)) && |Longest(i).id.bucket| + |Longest(i).id.key| + 26 == 1305
  {
    hide Digits;
  }

  /** A shard of n entries with names of full length. */
  function LongestShard(n: nat): (s: seq<Manifest>)
    requires n <= ENTRY_LIMIT
    ensures |s| == n && forall i :: 0 <= i < n ==> s[i] == Longest(i)
  {
    seq(n, i requires 0 <= i < n => Longest(i))
  }

  lemma LongestShardSize(n: nat, sequence: nat, shardId: nat)
    requires n <= ENTRY_LIMIT
    ensures AllStorable(LongestShard(n)) && Unique(LongestShard(n))
    ensures |Encode(LongestShard(n), sequence, shardId)| == HEADER + 1305 * n
  {
    hide Longest;
    var s := LongestShard(n);
    forall i, j | 0 <= i < j < |s| ensures s[i].id != s[j].id {
      if s[i].id == s[j].id { LongestInjective(i, j); }
    }
    forall i | 0 <= i < |s| ensures Storable(s[i]) && EntrySizes(s)[i] == 1305 { LongestStorable(i); }
    EncodeSize(s, sequence, shardId);
    SumBounds(EntrySizes(s), 1305, 1305);
  }

  /** Whatever names a shard of n entries holds, its checkpoint fits the buffer, exactly when n is at most 803. */
  lemma AlwaysFitsIff(n: nat, sequence: nat, shardId: nat)
    requires n <= ENTRY_LIMIT
    ensures (forall s: seq<Manifest> :: |s| == n && AllStorable(s) && Unique(s) ==>
               |Encode(s, sequence, shardId)| <= BUFFER)
            <==> n <= 803
  {
    hide Encode, Unique, LongestShard;
    if n <= 803 {
      forall s: seq<Manifest> | |s| == n && AllStorable(s) ensures |Encode(s, sequence, shardId)| <= BUFFER {
        FitsUpTo803(s, sequence, shardId);
      }
    } else {
      LongestShardSize(n, sequence, shardId);
    }
  }

  // ---------- reading ----------

  /** strlen: the distance to the next NUL, or to the end of the buffer. */
  function NameLength(b: seq<Byte>, at: nat): (n: nat)
    requires at <= |b|
    ensures at + n <= |b|
    decreases |b| - at
  {
    if at == |b| || b[at] == 0 then 0 else 1 + NameLength(b, at + 1)
  }

  /** strncpy into a field of the given capacity. */
  function Truncate(s: Name, capacity: nat): Name {
    if |s| <= capacity then s else s[..capacity]
  }

  /** Read one entry at an offset; None when it runs past the buffer. */
  function DecodeEntry(b: seq<Byte>, at: nat): Option<(Manifest, nat)>
    requires at <= |b|
  {
    var n := NameLength(b, at);
    var keyAt := at + n + 1;
    if keyAt > |b| then None
    else
      var k := NameLength(b, keyAt);
      var f := keyAt + k + 1;
      if f + 24 > |b| then None
      else
        var id := ObjectKey(Truncate(b[at..at + n], MAX_BUCKET_LENGTH), Truncate(b[keyAt..keyAt + k], MAX_KEY_LENGTH));
        Some((Manifest(id, Field(b, f, 8), Field(b, f + 8, 4), Field(b, f + 12, 8), Field(b, f + 20, 4), []), f + 24))
  }

  /** Whatever the buffer holds, an entry read from it fits the arrays of a manifest and has no NUL in its names. */
  lemma DecodedFits(b: seq<Byte>, at: nat)
    requires at <= |b|
    ensures var r := DecodeEntry(b, at);
            r.Some? ==> Fits(r.value.0.id) && 0 !in r.value.0.id.bucket && 0 !in r.value.0.id.key
  {
    hide Field;
    NameHasNoNul(b, at);
    var keyAt := at + NameLength(b, at) + 1;
    if keyAt <= |b| { NameHasNoNul(b, keyAt); }
  }

  lemma {:induction false} NameHasNoNul(b: seq<Byte>, at: nat)
    requires at <= |b|
    ensures 0 !in b[at..at + NameLength(b, at)]
    decreases |b| - at
  {
    if at < |b| && b[at] != 0 {
      NameHasNoNul(b, at + 1);
      assert b[at..at + NameLength(b, at)] == [b[at]] + b[at + 1..at + 1 + NameLength(b, at + 1)];
    }
  }

  /** Read n entries from an offset, inserting each into the shard. */
  function DecodeInto(b: seq<Byte>, at: nat, n: nat, s: seq<Manifest>): Option<seq<Manifest>>
    requires at <= |b|
    decreases n
  {
    if n == 0 then Some(s)
    else
      match DecodeEntry(b, at)
      case None => None
      case Some((m, next)) => if next <= |b| then DecodeInto(b, next, n - 1, Insert(s, m)) else None
  }

  /** What reading the buffer does to a shard: None without the magic number. */
  function Restore(b: seq<Byte>, s: seq<Manifest>): Option<seq<Manifest>> {
    if |b| < HEADER || Field(b, 0, 8) != MAGIC then None else DecodeInto(b, HEADER, Field(b, 24, 4), s)
  }

  // ---------- round trip ----------

  /** What a checkpoint keeps of a manifest: everything but its fragments. */
  function Strip(m: Manifest): Manifest {
    m.(fragments := [])
  }

  function StripAll(s: seq<Manifest>): (r: seq<Manifest>)
    ensures |r| == |s| && forall i :: 0 <= i < |s| ==> r[i] == Strip(s[i])
  {
    seq(|s|, i requires 0 <= i < |s| => Strip(s[i]))
  }

  lemma {:induction false} NameLengthAt(pre: seq<Byte>, name: Name, post: seq<Byte>)
    requires 0 !in name
    ensures NameLength(pre + name + [0] + post, |pre|) == |name|
    decreases |name|
  {
    var b := pre + name + [0] + post;
    if name != [] {
      assert b == (pre + [name[0]]) + name[1..] + [0] + post;
      NameLengthAt(pre + [name[0]], name[1..], post);
      assert b[|pre|] == name[0] && name[0] in name;
    }
  }

  lemma FixedFields(pre: seq<Byte>, m: Manifest, post: seq<Byte>)
    requires Storable(m)
    ensures var b, f := pre + Fixed(m) + post, |pre|;
            && |b| == f + 24 + |post|
            && Field(b, f, 8) == m.size && Field(b, f + 8, 4) == m.checksum
            && Field(b, f + 12, 8) == m.writeSequence && Field(b, f + 20, 4) == m.datacenterId
  {
    hide LE, FromLE, Field;
    Widths();
    var a, b, c, d := LE(8, m.size), LE(4, m.checksum), LE(8, m.writeSequence), LE(4, m.datacenterId);
    var all := pre + Fixed(m) + post;
    FieldAt(pre, 8, m.size, b + c + d + post);
    assert pre + a + (b + c + d + post) == all;
    FieldAt(pre + a, 4, m.checksum, c + d + post);
    assert (pre + a) + b + (c + d + post) == all;
    FieldAt(pre + a + b, 8, m.writeSequence, d + post);
    assert (pre + a + b) + c + (d + post) == all;
    FieldAt(pre + a + b + c, 4, m.datacenterId, post);
    assert (pre + a + b + c) + d + post == all;
  }

  /** An entry written anywhere in the buffer reads back without its fragments. */
  lemma DecodeEntryAt(pre: seq<Byte>, m: Manifest, post: seq<Byte>)
    requires Storable(m)
    ensures var b := pre + EncodeEntry(m) + post;
            DecodeEntry(b, |pre|) == Some((Strip(m), |pre| + |EncodeEntry(m)|))
  {
    hide LE, FromLE, Field, NameLength, Fixed;
    var b := pre + EncodeEntry(m) + post;
    var bucket, key := m.id.bucket, m.id.key;
    NameLengthAt(pre, bucket, key + [0] + Fixed(m) + post);
    assert pre + bucket + [0] + (key + [0] + Fixed(m) + post) == b;
    var p := pre + bucket + [0];
    NameLengthAt(p, key, Fixed(m) + post);
    assert p + key + [0] + (Fixed(m) + post) == b;
    var q := p + key + [0];
    FixedFields(q, m, post);
    assert q + Fixed(m) + post == b;
    assert b[|pre|..|pre| + |bucket|] == bucket;
    assert b[|p|..|p| + |key|] == key;
  }

  lemma EncodeEntriesBack(s: seq<Manifest>)
    requires s != []
    ensures EncodeEntries(s) == EncodeEntries(s[..|s| - 1]) + EncodeEntry(s[|s| - 1])
  {
  }

  lemma NoEntries(s: seq<Manifest>)
    requires s == []
    ensures EncodeEntries(s) == []
  {
  }

  lemma {:induction false} EncodeEntriesFront(s: seq<Manifest>)
    requires s != []
    ensures EncodeEntries(s) == EncodeEntry(s[0]) + EncodeEntries(s[1..])
  {
    hide EncodeEntry, EncodeEntries;
    var n := |s| - 1;
    EncodeEntriesBack(s);
    if n == 0 {
      NoEntries(s[..0]);
      NoEntries(s[1..]);
    } else {
      EncodeEntriesFront(s[..n]);
      EncodeEntriesBack(s[1..]);
      assert s[..n][1..] == s[1..][..n - 1];
      var a, b, c := EncodeEntry(s[0]), EncodeEntries(s[1..][..n - 1]), EncodeEntry(s[n]);
      assert (a + b) + c == a + (b + c);
    }
  }

  lemma {:induction false} DecodeIntoAt(pre: seq<Byte>, ms: seq<Manifest>, post: seq<Byte>, s: seq<Manifest>)
    requires AllStorable(ms)
    ensures DecodeInto(pre + EncodeEntries(ms) + post, |pre|, |ms|, s) == Some(InsertAll(s, StripAll(ms)))
    decreases |ms|
  {
    hide DecodeEntry, EncodeEntry, Storable, Insert, EncodeEntries, InsertAll;
    var b := pre + EncodeEntries(ms) + post;
    if ms == [] {
      NothingStripped(s, ms);
    } else {
      var e, rest := EncodeEntry(ms[0]), EncodeEntries(ms[1..]);
      EncodeEntriesFront(ms);
      assert b == pre + e + (rest + post);
      DecodeEntryAt(pre, ms[0], rest + post);
      assert b == (pre + e) + rest + post;
      DecodeIntoAt(pre + e, ms[1..], post, Insert(s, Strip(ms[0])));
      InsertAllFront(s, Strip(ms[0]), StripAll(ms[1..]));
      assert [Strip(ms[0])] + StripAll(ms[1..]) == StripAll(ms);
    }
  }

  lemma NothingStripped(s: seq<Manifest>, ms: seq<Manifest>)
    requires ms == []
    ensures InsertAll(s, StripAll(ms)) == s
  {
  }

  lemma InsertAllFront(s: seq<Manifest>, m: Manifest, ms: seq<Manifest>)
    ensures InsertAll(s, [m] + ms) == InsertAll(Insert(s, m), ms)
  {
    InsertAllAppend(s, [m], ms);
    assert InsertAll(s, [m]) == Insert(InsertAll(s, []), m);
  }

  lemma HeaderFields(sequence: nat, shardId: nat, count: nat, post: seq<Byte>)
    requires sequence < U64 && shardId < U64 && count < U32
    ensures Field(Header(sequence, shardId, count) + post, 0, 8) == MAGIC
    ensures Field(Header(sequence, shardId, count) + post, 8, 8) == sequence
    ensures Field(Header(sequence, shardId, count) + post, 16, 8) == shardId
    ensures Field(Header(sequence, shardId, count) + post, 24, 4) == count
  {
    hide LE, FromLE, Field;
    Widths();
    var a, b, c, d, e := LE(8, MAGIC), LE(8, sequence), LE(8, shardId), LE(4, count), LE(4, 0);
    var all := Header(sequence, shardId, count) + post;
    FieldAt([], 8, MAGIC, b + c + d + e + post);
    assert [] + a + (b + c + d + e + post) == all;
    FieldAt(a, 8, sequence, c + d + e + post);
    assert a + b + (c + d + e + post) == all;
    FieldAt(a + b, 8, shardId, d + e + post);
    assert (a + b) + c + (d + e + post) == all;
    FieldAt(a + b + c, 4, count, e + post);
    assert (a + b + c) + d + (e + post) == all;
  }

  /**
   Reading a checkpoint back, whatever the buffer holds after it, inserts the written entries in
   order without their fragments.
   */
  lemma RestoreInserts(s: seq<Manifest>, sequence: nat, shardId: nat, tail: seq<Byte>, t: seq<Manifest>)
    requires AllStorable(s) && sequence < U64 && shardId < U64 && |s| < U32
    ensures Restore(Encode(s, sequence, shardId) + tail, t) == Some(InsertAll(t, StripAll(s)))
  {
    hide Field, DecodeInto, EncodeEntries, Header, StripAll, InsertAll;
    var h, e := Header(sequence, shardId, |s|), EncodeEntries(s);
    HeaderFields(sequence, shardId, |s|, e + tail);
    assert h + (e + tail) == Encode(s, sequence, shardId) + tail;
    DecodeIntoAt(h, s, tail, t);
    assert h + e + tail == Encode(s, sequence, shardId) + tail;
  }

  lemma StripUnique(s: seq<Manifest>)
    requires Unique(s)
    ensures Unique(StripAll(s))
  {
  }

  /** Into an empty shard: the same entries in the same order, without fragments. */
  lemma RoundTrip(s: seq<Manifest>, sequence: nat, shardId: nat, tail: seq<Byte>)
    requires AllStorable(s) && Unique(s) && sequence < U64 && shardId < U64 && |s| < U32
    ensures Restore(Encode(s, sequence, shardId) + tail, []) == Some(StripAll(s))
  {
    hide Restore, Encode;
    RestoreInserts(s, sequence, shardId, tail, []);
    StripUnique(s);
    InsertAllIntoEmpty(StripAll(s));
  }

  /** Into any shard: the checkpoint's map overrides the shard's. */
  lemma RestoreOverrides(s: seq<Manifest>, sequence: nat, shardId: nat, tail: seq<Byte>, t: seq<Manifest>)
    requires AllStorable(s) && Unique(s) && Unique(t) && sequence < U64 && shardId < U64 && |s| < U32
    ensures var r := Restore(Encode(s, sequence, shardId) + tail, t);
            r.Some? && Unique(r.value) && Contents(r.value) == Contents(t) + Contents(StripAll(s))
  {
    hide Restore, Encode, Contents;
    RestoreInserts(s, sequence, shardId, tail, t);
    StripUnique(s);
    InsertAllRefines(t, StripAll(s));
    PutAllIsOverride(Contents(t), StripAll(s));
  }
}
