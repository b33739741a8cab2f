/** The checkpoint buffer and its id counter, written through a moving cursor. */
module CheckpointStore {
  import opened MetaTypes
  import opened Bytes
  import opened MetaShard
  import opened Checkpoint
  import Sums

  class Store {
    const buffer: array<Byte>
    var lastId: nat

    ghost predicate Valid()
      reads this
    {
      buffer.Length == BUFFER
    }

    constructor ()
      ensures Valid() && fresh(buffer) && lastId == 0
    {
      buffer := new Byte[BUFFER](_ => 0);
      lastId := 0;
    }

    /** meta_checkpoint_write: the bytes of the checkpoint, then whatever the buffer held before. */
    method Write(shard: Shard, sequence: nat) returns (length: nat, id: nat)
      requires Valid() && shard.Valid() && buffer !in shard.Repr && this !in shard.Repr
      requires |Encode(shard.Value(), sequence, shard.id)| <= BUFFER
      modifies this, buffer
      ensures Valid() && shard.Valid() && shard.Value() == old(shard.Value())
      ensures length == |Encode(shard.Value(), sequence, shard.id)|
      ensures buffer[..] == Encode(shard.Value(), sequence, shard.id) + old(buffer[length..])
      ensures id == lastId == old(lastId) + 1
    {
      hide Encode, EncodeEntry, EncodeEntries, Header;
      ghost var s := shard.Value();
      EncodeParts(s, sequence, shard.id);
      Copy(buffer, 0, Header(sequence, shard.id, shard.count));
      var cursor := HEADER;
      var i := 0;
      EmptyPrefix(s);
      while i < shard.count
        invariant 0 <= i <= shard.count == |s|
        invariant shard.Valid() && shard.Value() == s && lastId == old(lastId)
        invariant cursor == HEADER + |EncodeEntries(s[..i])| <= BUFFER
        invariant buffer[..cursor] == Header(sequence, shard.id, |s|) + EncodeEntries(s[..i])
        invariant buffer[cursor..] == old(buffer[cursor..])
      {
        var entry := EncodeEntry(shard.entries[i]);
        EncodeFits(s, i);
        Copy(buffer, cursor, entry);
        cursor := cursor + |entry|;
        JoinEntry(buffer[..], cursor - |entry|, cursor, Header(sequence, shard.id, |s|), EncodeEntries(s[..i]), entry);
        i := i + 1;
      }
      assert s[..i] == s;
      lastId := lastId + 1;
      id := lastId;
      length := cursor;
      assert buffer[..] == buffer[..cursor] + buffer[cursor..];
    }

    /**
     meta_checkpoint_read: the id is not looked at, the buffer's last checkpoint is inserted.  The
     code trusts the buffer, so a buffer with the magic number must hold a whole checkpoint.
     */
    method Read(shard: Shard, id: nat) returns (ok: bool)
      requires Valid() && shard.Valid() && buffer !in shard.Repr && this !in shard.Repr
      requires Field(buffer[..], 0, 8) == MAGIC ==> Restore(buffer[..], shard.Value()).Some?
      modifies shard.Repr
      ensures Valid() && shard.Valid() && fresh(shard.Repr - old(shard.Repr))
      ensures ok <==> Field(buffer[..], 0, 8) == MAGIC
      ensures shard.Value() == if ok then Restore(buffer[..], old(shard.Value())).value else old(shard.Value())
    {
      hide FromLE, NameLength, Insert, DecodeEntry;
      var b := buffer[..];
      if Field(b, 0, 8) != MAGIC {
        return false;
      }
      var n := Field(b, 24, 4);
      ghost var result := DecodeInto(b, HEADER, n, shard.Value());
      var cursor: nat := HEADER;
      var i := 0;
      while i < n
        invariant 0 <= i <= n && cursor <= |b| && buffer[..] == b
        invariant shard.Valid() && fresh(shard.Repr - old(shard.Repr)) && buffer !in shard.Repr
        invariant DecodeInto(b, cursor, n - i, shard.Value()) == result
      {
        var entry := DecodeEntry(b, cursor);
        shard.InsertEntry(entry.value.0);
        cursor := entry.value.1;
        i := i + 1;
      }
      return true;
    }
  }

  /** Saving one shard and reading any checkpoint id into an empty one copies it, fragments aside. */
  method SaveAndLoad(store: Store, source: Shard, target: Shard, sequence: nat, id: nat)
    requires store.Valid() && source.Valid() && target.Valid()
    requires store.buffer !in source.Repr && store !in source.Repr
    requires store.buffer !in target.Repr && store !in target.Repr && source.Repr !! target.Repr
    requires AllStorable(source.Value()) && Unique(source.Value())
    requires |Encode(source.Value(), sequence, source.id)| <= BUFFER
    requires target.Value() == [] && sequence < U64 && source.id < U64
    modifies store, store.buffer, target.Repr
    ensures target.Valid() && source.Valid() && source.Value() == old(source.Value())
    ensures target.Value() == StripAll(source.Value())
    ensures store.Valid() && store.lastId == old(store.lastId) + 1
  {
    hide Encode, Restore, StripAll, Storable, Find;
    ghost var s := source.Value();
    FittingIsShort(s, sequence, source.id);
    var length, written := store.Write(source, sequence);
    RoundTrip(s, sequence, source.id, store.buffer[length..]);
    assert store.buffer[..] == Encode(s, sequence, source.id) + store.buffer[length..];
    EncodedMagic(s, sequence, source.id, store.buffer[length..]);
    var ok := store.Read(target, id);
  }

  /**
   The id of a checkpoint does not matter: after two saves, reading the id of the first gives the
   shard saved second.
   */
  method FirstIdReadsSecond(store: Store, first: Shard, second: Shard, target: Shard, sequence: nat) returns (id: nat)
    requires store.Valid() && first.Valid() && second.Valid() && target.Valid()
    requires store.buffer !in first.Repr && store !in first.Repr
    requires store.buffer !in second.Repr && store !in second.Repr
    requires store.buffer !in target.Repr && store !in target.Repr && second.Repr !! target.Repr
    requires |Encode(first.Value(), sequence, first.id)| <= BUFFER
    requires AllStorable(second.Value()) && Unique(second.Value())
    requires |Encode(second.Value(), sequence, second.id)| <= BUFFER
    requires target.Value() == [] && sequence < U64 && second.id < U64
    modifies store, store.buffer, target.Repr
    ensures id == old(store.lastId) + 1 == store.lastId - 1
    ensures target.Valid() && target.Value() == StripAll(old(second.Value()))
  {
    hide Encode, Restore, StripAll, Storable, Find;
    var length;
    length, id := store.Write(first, sequence);
    SaveAndLoad(store, second, target, sequence, id);
  }

  /** An entry takes 26 bytes at least, so what fits has few entries. */
  lemma FittingIsShort(s: seq<Manifest>, sequence: nat, shardId: nat)
    requires |Encode(s, sequence, shardId)| <= BUFFER
    ensures |s| < U32
  {
    EncodeSize(s, sequence, shardId);
    AtLeast26(s);
  }

  lemma {:induction false} AtLeast26(s: seq<Manifest>)
    ensures 26 * |s| <= Sums.Sum(EntrySizes(s))
  {
    if s != [] {
      AtLeast26(s[..|s| - 1]);
      assert EntrySizes(s)[..|s| - 1] == EntrySizes(s[..|s| - 1]);
    }
  }

  lemma EncodedMagic(s: seq<Manifest>, sequence: nat, shardId: nat, tail: seq<Byte>)
    requires sequence < U64 && shardId < U64 && |s| < U32
    ensures |Encode(s, sequence, shardId) + tail| >= 8
    ensures Field(Encode(s, sequence, shardId) + tail, 0, 8) == MAGIC
  {
    hide Header, Field;
    HeaderFields(sequence, shardId, |s|, EncodeEntries(s) + tail);
    assert Header(sequence, shardId, |s|) + (EncodeEntries(s) + tail) == Encode(s, sequence, shardId) + tail;
  }

  lemma EmptyPrefix(s: seq<Manifest>)
    ensures EncodeEntries(s[..0]) == []
  {
  }

  lemma EncodeParts(s: seq<Manifest>, sequence: nat, shardId: nat)
    ensures Encode(s, sequence, shardId) == Header(sequence, shardId, |s|) + EncodeEntries(s)
  {
  }

  /** The entries up to and including i are no longer than all of them. */
  lemma {:induction false} EncodeFits(s: seq<Manifest>, i: nat)
    requires i < |s|
    ensures EncodeEntries(s[..i + 1]) == EncodeEntries(s[..i]) + EncodeEntry(s[i])
    ensures |EncodeEntries(s[..i + 1])| <= |EncodeEntries(s)|
  {
    assert s[..i + 1][..i] == s[..i];
    if i + 1 == |s| {
      assert s[..i + 1] == s;
    } else {
      var t := s[..|s| - 1];
      EncodeFits(t, i);
      assert t[..i + 1] == s[..i + 1];
    }
  }

  lemma JoinEntry(b: seq<Byte>, from: nat, to: nat, h: seq<Byte>, done: seq<Byte>, entry: seq<Byte>)
    requires from <= to <= |b| && b[..from] == h + done && b[from..to] == entry
    ensures b[..to] == h + (done + entry)
  {
    assert b[..to] == b[..from] + b[from..to];
  }
}
