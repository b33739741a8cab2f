/**
 The HTTP parser's body callback (http_parser.c): a buffer that grows by doubling, with its length
 and capacity kept in 32 bits.
 */
module HttpBody {
  import opened MetaTypes
  import opened Bytes

  const DEFAULT_BODY := 65536
  const HALF := 0x8000_0000

  /** A received body, whether it has a buffer, and the capacity recorded for it. */
  datatype Body = Body(made: bool, bytes: seq<Byte>, capacity: nat)

  /** How on_body ends: with the chunk taken, with the limit exceeded, or not at all. */
  datatype End = Done | TooLong | Endless

  predicate ValidBody(b: Body) {
    |b.bytes| < U32 && b.capacity < U32 && (!b.made ==> b.bytes == [] && b.capacity == 0)
  }

  /** on_headers_complete with the announced length. */
  function AfterHeaders(contentLength: nat): (b: Body)
    ensures ValidBody(b)
  {
    if contentLength == 0 then Body(false, [], 0)
    else Body(true, [], if contentLength < DEFAULT_BODY then contentLength else DEFAULT_BODY)
  }

  // ---------- the doubling loop ----------

  /** The first of size, 2 size, 4 size, ... that is at least need. */
  function Double(size: nat, need: nat): (r: nat)
    requires size > 0
    ensures size <= r && need <= r
    ensures r == size || r < 2 * need
    decreases need - size
  {
    if need > size then Double(2 * size, need) else size
  }

  /** Where the loop starts; the capacity is doubled in 32 bits. */
  function FirstSize(capacity: nat): nat {
    if capacity > 0 then (2 * capacity) % U32 else DEFAULT_BODY
  }

  lemma FirstSizeZero(capacity: nat)
    requires capacity < U32
    ensures FirstSize(capacity) == 0 <==> capacity == HALF
  {
  }

  function Pow2(n: nat): nat {
    if n == 0 then 1 else 2 * Pow2(n - 1)
  }

  /** What the loop computes is reached by doubling. */
  lemma {:induction false} DoubleIsPower(size: nat, need: nat) returns (n: nat)
    requires size > 0
    ensures Double(size, need) == Pow2(n) * size
    decreases need - size
  {
    if need > size {
      n := DoubleIsPower(2 * size, need);
      n := n + 1;
    } else {
      n := 0;
    }
  }

  /**
   From a 32-bit capacity the loop, which doubles a 64-bit size, ever reaches a larger need exactly
   when the capacity is not 2^31; from there the first doubling wraps to zero.
   */
  lemma GrowthEndsIff(capacity: nat, need: nat)
    requires 0 < capacity < U32 && capacity < need < U64 / 2
    ensures (exists n: nat :: (Pow2(n) * FirstSize(capacity)) % U64 >= need) <==> capacity != HALF
  {
    FirstSizeZero(capacity);
    if capacity == HALF {
      forall n: nat ensures (Pow2(n) * FirstSize(capacity)) % U64 == 0 { TimesZero(Pow2(n)); }
    } else {
      var n := DoubleIsPower(FirstSize(capacity), need);
      assert (Pow2(n) * FirstSize(capacity)) % U64 >= need;
    }
  }

  lemma TimesZero(x: nat)
    ensures x * 0 == 0
  {
  }

  // ---------- on_body on values ----------

  /** The limit test; a limit of 0 switches it off. */
  predicate Refuses(max: nat, need: nat) {
    max > 0 && need > max
  }

  predicate Grows(b: Body, need: nat) {
    !b.made || need > b.capacity
  }

  /** The length is kept in 32 bits. */
  function InLength(bytes: seq<Byte>): seq<Byte> {
    bytes[..|bytes| % U32]
  }

  function OnBody(b: Body, max: nat, data: seq<Byte>): (r: (Body, End))
    requires ValidBody(b)
    ensures ValidBody(r.0)
  {
    var need := |b.bytes| + |data|;
    if Refuses(max, need) then (b, TooLong)
    else if !Grows(b, need) then (Body(true, InLength(b.bytes + data), b.capacity), Done)
    else if FirstSize(b.capacity) == 0 then (b, Endless)
    else (Body(true, InLength(b.bytes + data), Double(FirstSize(b.capacity), need) % U32), Done)
  }

  function JoinFront(chunks: seq<seq<Byte>>): seq<Byte> {
    if chunks == [] then [] else chunks[0] + JoinFront(chunks[1..])
  }

  /** Deliver chunks until one is not taken; the chunks before it stay. */
  function Deliver(b: Body, max: nat, chunks: seq<seq<Byte>>): (r: (Body, End))
    requires ValidBody(b)
    ensures ValidBody(r.0)
    decreases |chunks|
  {
    if chunks == [] then (b, Done)
    else
      var (next, end) := OnBody(b, max, chunks[0]);
      if end.Done? then Deliver(next, max, chunks[1..]) else (next, end)
  }

  lemma OnBodyTakes(b: Body, max: nat, data: seq<Byte>)
    requires ValidBody(b)
    ensures var (r, end) := OnBody(b, max, data);
            && (end.TooLong? <==> Refuses(max, |b.bytes| + |data|))
            && r.bytes == (if end.Done? then InLength(b.bytes + data) else b.bytes)
  {
    hide Double, FirstSize;
  }

  /**
   For every body, however cut, and every limit: it is refused only over the limit and accepted only
   within it, what has come in is a leading part, and an accepted body is there in full exactly if
   its length fits 32 bits, which only the absence of a limit leaves open.
   */
  lemma {:induction false} BodyReceived(b: Body, max: nat, chunks: seq<seq<Byte>>)
    requires ValidBody(b) && max < U32 && !Refuses(max, |b.bytes|)
    ensures var (r, end) := Deliver(b, max, chunks);
            var all := b.bytes + JoinFront(chunks);
            && (end.TooLong? ==> Refuses(max, |all|))
            && (end.Done? ==> !Refuses(max, |all|) && (r.bytes == all <==> |all| < U32))
            && (max > 0 || |all| < U32 ==> b.bytes <= r.bytes <= all)
    decreases |chunks|
  {
    hide OnBody;
    var all := b.bytes + JoinFront(chunks);
    if chunks == [] {
      assert b.bytes + [] == b.bytes;
    } else {
      var (next, end) := OnBody(b, max, chunks[0]);
      OnBodyTakes(b, max, chunks[0]);
      if end.Done? {
        BodyReceived(next, max, chunks[1..]);
        if |b.bytes| + |chunks[0]| < U32 {
          assert next.bytes == b.bytes + chunks[0];
          assert next.bytes + JoinFront(chunks[1..]) == all;
        }
      }
    }
  }

  // ---------- what fits 2^31 ----------

  /** How much of a body of n bytes can come in. */
  function Room(max: nat, n: nat): nat {
    if Refuses(max, n) then max else n
  }

  function Larger(x: nat, y: nat): (r: nat)
    ensures x <= r && y <= r && (r == x || r == y)
  {
    if x < y then y else x
  }

  /** max(65536, 2 * n). */
  function Bound(n: nat): nat {
    Larger(DEFAULT_BODY, 2 * n)
  }

  lemma BoundGrows(x: nat, y: nat)
    ensures x <= y ==> Bound(x) <= Bound(y)
  {
  }

  /** Up to 2^31 the 32-bit arithmetic is exact and doubling does not overshoot. */
  lemma GrownBound(capacity: nat, need: nat)
    requires need <= HALF && (capacity == 0 || capacity < need)
    ensures capacity > 0 ==> FirstSize(capacity) == 2 * capacity
    ensures FirstSize(capacity) > 0 && need <= Double(FirstSize(capacity), need) <= Bound(need)
    ensures Double(FirstSize(capacity), need) < U32
  {
  }

  /** The recorded capacity covers the bytes. */
  predicate Covered(b: Body) {
    ValidBody(b) && |b.bytes| <= b.capacity
  }

  lemma ShortKept(bytes: seq<Byte>)
    ensures |bytes| < U32 ==> InLength(bytes) == bytes
  {
  }

  lemma SmallRemainder(x: nat)
    ensures x < U32 ==> x % U32 == x
  {
  }

  lemma OnBodyCovered(b: Body, max: nat, data: seq<Byte>)
    requires Covered(b) && Room(max, |b.bytes| + |data|) <= HALF
    ensures var (r, end) := OnBody(b, max, data);
            && end == (if Refuses(max, |b.bytes| + |data|) then TooLong else Done)
            && (end.Done? ==> r.bytes == b.bytes + data)
            && Covered(r) && r.capacity <= Larger(b.capacity, Bound(Room(max, |b.bytes| + |data|)))
  {
    hide Double, Bound, FirstSize, Larger, InLength;
    var need := |b.bytes| + |data|;
    if !Refuses(max, need) {
      ShortKept(b.bytes + data);
      if Grows(b, need) {
        GrownBound(b.capacity, need);
        SmallRemainder(Double(FirstSize(b.capacity), need));
      }
    }
  }

  /**
   While no more than 2^31 bytes can come in, delivery ends, the body is received exactly if it fits
   the limit, and the capacity stays within max(65536, twice what comes in).
   */
  lemma {:induction false} SmallBodyEnds(b: Body, max: nat, chunks: seq<seq<Byte>>)
    requires Covered(b) && max < U32 && !Refuses(max, |b.bytes|)
    requires Room(max, |b.bytes| + |JoinFront(chunks)|) <= HALF
    ensures var (r, end) := Deliver(b, max, chunks);
            var n := |b.bytes| + |JoinFront(chunks)|;
            && end == (if Refuses(max, n) then TooLong else Done)
            && (end.Done? ==> r.bytes == b.bytes + JoinFront(chunks))
            && Covered(r) && r.capacity <= Larger(b.capacity, Bound(Room(max, n)))
    decreases |chunks|
  {
    hide OnBody, Bound;
    if chunks == [] {
      assert b.bytes + [] == b.bytes;
    } else {
      BoundGrows(Room(max, |b.bytes| + |chunks[0]|), Room(max, |b.bytes| + |JoinFront(chunks)|));
      OnBodyCovered(b, max, chunks[0]);
      var (next, end) := OnBody(b, max, chunks[0]);
      var rest := JoinFront(chunks[1..]);
      if end.Done? {
        assert b.bytes + chunks[0] + rest == b.bytes + (chunks[0] + rest);
        SmallBodyEnds(next, max, chunks[1..]);
      }
    }
  }

  /** From headers to end of body: under a limit up to 2^31 the buffer never exceeds max(65536, 2 * limit). */
  lemma CapacityBounded(contentLength: nat, max: nat, chunks: seq<seq<Byte>>)
    requires 0 < max <= HALF
    ensures var (r, end) := Deliver(AfterHeaders(contentLength), max, chunks);
            && r.capacity <= Bound(max) && end == (if |JoinFront(chunks)| <= max then Done else TooLong)
            && (end.Done? ==> r.bytes == JoinFront(chunks))
  {
    SmallBodyEnds(AfterHeaders(contentLength), max, chunks);
    assert [] + JoinFront(chunks) == JoinFront(chunks);
  }

  // ---------- what does not ----------

  /** A size that is a power of two away from 2^31 doubles to it. */
  lemma {:induction false} DoubleToHalf(size: nat, k: nat, need: nat)
    requires size > 0 && size * Pow2(k) == HALF && HALF / 2 < need <= HALF
    ensures Double(size, need) == HALF
    decreases k
  {
    if k > 0 {
      assert size * Pow2(k) == 2 * size * Pow2(k - 1);
      AtLeast(2 * size, Pow2(k - 1));
      DoubleToHalf(2 * size, k - 1, need);
    }
  }

  lemma AtLeast(a: nat, b: nat)
    requires a * b > 0
    ensures a * b >= a
  {
  }

  lemma Powers()
    ensures 65536 * Pow2(15) == HALF && 131072 * Pow2(14) == HALF
  {
    assert Pow2(4) == 16;
    assert Pow2(8) == 256;
    assert Pow2(12) == 4096;
    assert Pow2(14) == 16384;
  }

  /** A first chunk of more than 2^30 and at most 2^31 bytes leaves the capacity at 2^31. */
  lemma ReachesHalf(contentLength: nat, max: nat, data: seq<Byte>)
    requires contentLength == 0 || contentLength >= DEFAULT_BODY
    requires HALF / 2 < |data| <= HALF && !Refuses(max, |data|)
    ensures OnBody(AfterHeaders(contentLength), max, data) == (Body(true, data, HALF), Done)
  {
    hide Double;
    Powers();
    DoubleToHalf(65536, 15, |data|);
    DoubleToHalf(131072, 14, |data|);
    assert [] + data == data;
    assert InLength(data) == data;
  }

  /** Any second chunk that goes beyond 2^31 and is within the limit is never finished. */
  lemma SecondChunkHangs(contentLength: nat, max: nat, first: seq<Byte>, second: seq<Byte>, more: seq<seq<Byte>>)
    requires contentLength == 0 || contentLength >= DEFAULT_BODY
    requires HALF / 2 < |first| <= HALF < |first| + |second| && !Refuses(max, |first| + |second|)
    ensures Deliver(AfterHeaders(contentLength), max, [first, second] + more).1 == Endless
  {
    var chunks := [first, second] + more;
    ReachesHalf(contentLength, max, first);
    assert chunks[1..] == [second] + more;
  }

  /**
   For a body of n bytes, announced or not: it is dealt with however it is cut exactly when no more
   than 2^31 of its bytes can come in under the limit.
   */
  lemma EveryCutEndsIff(contentLength: nat, max: nat, n: nat)
    requires max < U32 && (contentLength == 0 || contentLength == n)
    ensures (forall chunks: seq<seq<Byte>> :: |JoinFront(chunks)| == n ==>
               !Deliver(AfterHeaders(contentLength), max, chunks).1.Endless?)
            <==> Room(max, n) <= HALF
  {
    hide Deliver;
    if Room(max, n) <= HALF {
      forall chunks: seq<seq<Byte>> | |JoinFront(chunks)| == n
        ensures !Deliver(AfterHeaders(contentLength), max, chunks).1.Endless?
      {
        SmallBodyEnds(AfterHeaders(contentLength), max, chunks);
      }
    } else {
      var first, second, third := NULs(HALF - 1), NULs(2), NULs(n - HALF - 1);
      SecondChunkHangs(contentLength, max, first, second, [third]);
      ThreeChunks(first, second, third);
    }
  }

  function NULs(n: nat): (r: seq<Byte>)
    ensures |r| == n
  {
    seq(n, _ => 0)
  }

  lemma ThreeChunks(a: seq<Byte>, b: seq<Byte>, c: seq<Byte>)
    ensures |JoinFront([a, b] + [c])| == |a| + |b| + |c|
  {
    var chunks := [a, b] + [c];
    assert chunks[1..] == [b, c] && chunks[1..][1..] == [c] && [c][1..] == [];
    assert JoinFront([c]) == c + JoinFront([]);
  }

  /** A limit keeps every delivery from hanging exactly when there is one and it is at most 2^31. */
  lemma LimitPreventsHangIff(max: nat)
    requires max < U32
    ensures (forall chunks: seq<seq<Byte>>, contentLength: nat ::
               !Deliver(AfterHeaders(contentLength), max, chunks).1.Endless?)
            <==> 0 < max <= HALF
  {
    hide Deliver;
    if 0 < max <= HALF {
      forall chunks: seq<seq<Byte>>, contentLength: nat
        ensures !Deliver(AfterHeaders(contentLength), max, chunks).1.Endless?
      {
        CapacityBounded(contentLength, max, chunks);
      }
    } else {
      SecondChunkHangs(0, max, NULs(HALF - 1), NULs(2), []);
    }
  }
}
