/** The parser context that the llhttp callbacks change in place. */
module ParserContext {
  import opened MetaTypes
  import opened Bytes
  import opened HttpBody
  import opened HttpParser

  class Headers {
    const names: array<Text>
    const values: array<Text>
    var count: nat
    var current: Text
    var inValue: bool

    ghost predicate Valid()
      reads this
    {
      names != values && names.Length == values.Length == MAX_HEADERS && count <= MAX_HEADERS
    }

    ghost function Value(): (t: Table)
      requires Valid()
      reads this, names, values
      ensures ValidTable(t)
    {
      Table(seq(MAX_HEADERS, i requires 0 <= i < MAX_HEADERS && Valid() reads this, names, values
                => Pair(names[i], values[i])), count, current, inValue)
    }

    constructor ()
      ensures Valid() && fresh(names) && fresh(values)
      ensures Value().count == 0 && !Value().inValue
    {
      names := new Text[MAX_HEADERS](_ => []);
      values := new Text[MAX_HEADERS](_ => []);
      count := 0;
      current := [];
      inValue := false;
    }

    method Field(data: Text)
      requires Valid()
      modifies this
      ensures Valid() && Value() == OnField(old(Value()), data)
    {
      if inValue && count < MAX_HEADERS {
        count := count + 1;
      }
      inValue := false;
      var n := if |data| < MAX_HEADER_LENGTH then |data| else MAX_HEADER_LENGTH;
      current := data[..n];
      assert Value().slots == old(Value()).slots;
    }

    method ValueChunk(data: Text)
      requires Valid() && (inValue && count < MAX_HEADERS ==> |values[count]| <= MAX_HEADER_LENGTH)
      modifies this, names, values
      ensures Valid() && Value() == OnValue(old(Value()), data)
      ensures count < MAX_HEADERS ==> |values[count]| <= MAX_HEADER_LENGTH
    {
      if count >= MAX_HEADERS {
        return;
      }
      ghost var before := Value();
      if !inValue {
        names[count] := current;
        values[count] := [];
      }
      var room := MAX_HEADER_LENGTH - |values[count]|;
      var n := if |data| < room then |data| else room;
      values[count] := values[count] + data[..n];
      inValue := true;
      forall i | 0 <= i < MAX_HEADERS ensures Value().slots[i] == OnValue(before, data).slots[i] {
        if i != count {
          assert before.slots[i] == Pair(names[i], values[i]);
        }
      }
      assert Value().slots == OnValue(before, data).slots;
    }

    method Complete()
      requires Valid()
      modifies this
      ensures Valid() && Value() == OnComplete(old(Value()))
    {
      if inValue && count < MAX_HEADERS {
        count := count + 1;
      }
      assert Value().slots == old(Value()).slots;
    }
  }

  /** The doubling loop of on_body, from a capacity for which it ends. */
  method NewCapacity(capacity: nat, need: nat) returns (newCap: nat)
    requires capacity < U32 && capacity != HALF
    ensures FirstSize(capacity) > 0 && newCap == Double(FirstSize(capacity), need)
  {
    FirstSizeZero(capacity);
    newCap := if capacity > 0 then (capacity * 2) % U32 else DEFAULT_BODY;
    ghost var start := newCap;
    while need > newCap
      invariant 0 < newCap && Double(start, need) == Double(newCap, need)
      decreases need - newCap
    {
      newCap := newCap * 2;
    }
  }

  class Receiver {
    const max: nat
    var buffer: array?<Byte>
    var length: nat
    var capacity: nat

    /** The recorded capacity is the size of the buffer, cut to 32 bits. */
    ghost predicate Valid()
      reads this
    {
      && (buffer == null ==> length == 0 && capacity == 0)
      && (buffer != null ==> length <= buffer.Length && capacity == buffer.Length % U32)
      && length < U32
    }

    ghost function Value(): (b: Body)
      requires Valid()
      reads this, buffer
      ensures ValidBody(b) && |b.bytes| == length
    {
      if buffer == null then Body(false, [], 0) else Body(true, buffer[..length], capacity)
    }

    /** on_message_begin, then on_headers_complete with the announced length. */
    constructor (max: nat, contentLength: nat)
      ensures Valid() && this.max == max && Value() == AfterHeaders(contentLength)
      ensures buffer != null ==> fresh(buffer)
    {
      this.max := max;
      length := 0;
      if contentLength > 0 {
        var size := if contentLength < DEFAULT_BODY then contentLength else DEFAULT_BODY;
        buffer := new Byte[size](_ => 0);
        capacity := size;
      } else {
        buffer := null;
        capacity := 0;
      }
    }

    /**
     on_body: refuse over the limit, else grow by doubling and append.  Where the result is Endless
     the code's loop does not end.
     */
    method Append(data: seq<Byte>) returns (end: End)
      requires Valid()
      modifies this, buffer
      ensures Valid()
      ensures (Value(), end) == OnBody(old(Value()), max, data)
      ensures buffer != old(buffer) ==> fresh(buffer)
    {
      hide Double, FirstSize, InLength;
      var need := length + |data|;
      if max > 0 && need > max {
        return TooLong;
      }
      FirstSizeZero(capacity);
      if buffer == null || need > capacity {
        if capacity == HALF {
          return Endless;
        }
        var newCap := NewCapacity(capacity, need);
        Enlarge(newCap);
      }
      Store(data);
      return Done;
    }

    /** memcpy behind the bytes received so far; the length is kept in 32 bits. */
    method Store(data: seq<Byte>)
      requires Valid() && buffer != null && length + |data| <= buffer.Length
      modifies this`length, buffer
      ensures Valid()
      ensures buffer[..length] == InLength(old(buffer[..length]) + data)
    {
      Copy(buffer, length, data);
      ghost var need := length + |data|;
      assert buffer[..need] == buffer[..length] + buffer[length..need];
      length := (length + |data|) % U32;
      assert buffer[..length] == buffer[..need][..length];
    }

    /** realloc: a larger buffer with the received bytes; the capacity is kept in 32 bits. */
    method Enlarge(size: nat)
      requires Valid() && length <= size
      modifies this`buffer, this`capacity
      ensures Valid() && buffer != null && fresh(buffer) && buffer.Length == size && capacity == size % U32
      ensures length == old(length) && buffer[..length] == old(Value()).bytes
    {
      var bigger := new Byte[size](_ => 0);
      if buffer != null {
        Copy(bigger, 0, buffer[..length]);
      }
      buffer := bigger;
      capacity := size % U32;
    }
  }
}
