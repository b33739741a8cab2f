/**
 The storage RPC bodies: the client's encoders (storage_client.c), the server's decoders and
 replies (rpc_handler.c, callback_bridge.c), and the client's response decoding, with the
 claim that a call over the wire is a direct call.
 */
module Wire {
  import opened MetaTypes
  import opened Bytes

  const IO_SUCCESS: nat := 0
  const IO_ERROR: nat := 1
  const MAX_BODY := 1048576

  const OP_CREATE := 0x10
  const OP_DELETE := 0x11
  const OP_WRITE := 0x12
  const OP_READ := 0x13
  const OP_TRUNCATE := 0x14
  const OP_PUNCH := 0x15
  const OP_CLONE := 0x16
  const OP_STATFS := 0x17

  datatype Request =
    | Create(oid: nat)
    | Delete(oid: nat)
    | Write(oid: nat, offset: nat, data: seq<Byte>)
    | Read(oid: nat, offset: nat, len: nat)
    | Truncate(oid: nat, size: nat)
    | Punch(oid: nat, offset: nat, len: nat)
    | Clone(src: nat, dst: nat)
    | Statfs

  /** The arguments fit their C types. */
  predicate InRange(r: Request) {
    match r
    case Create(oid) => oid < U64
    case Delete(oid) => oid < U64
    case Write(oid, offset, data) => oid < U64 && offset < U64 && |data| < U32
    case Read(oid, offset, len) => oid < U64 && offset < U64 && len < U32
    case Truncate(oid, size) => oid < U64 && size < U64
    case Punch(oid, offset, len) => oid < U64 && offset < U64 && len < U32
    case Clone(src, dst) => src < U64 && dst < U64
    case Statfs => true
  }

  function Opcode(r: Request): nat {
    match r
    case Create(_) => OP_CREATE
    case Delete(_) => OP_DELETE
    case Write(_, _, _) => OP_WRITE
    case Read(_, _, _) => OP_READ
    case Truncate(_, _) => OP_TRUNCATE
    case Punch(_, _, _) => OP_PUNCH
    case Clone(_, _) => OP_CLONE
    case Statfs => OP_STATFS
  }

  // ---------- requests ----------

  function Pair(a: nat, b: nat): seq<Byte> {
    LE(8, a) + LE(8, b)
  }

  function Triple(a: nat, b: nat, len: nat): seq<Byte> {
    LE(8, a) + LE(8, b) + LE(4, len)
  }

  function EncodeRequest(r: Request): seq<Byte> {
    match r
    case Create(oid) => LE(8, oid)
    case Delete(oid) => LE(8, oid)
    case Write(oid, offset, data) => Triple(oid, offset, |data|) + data
    case Read(oid, offset, len) => Triple(oid, offset, len)
    case Truncate(oid, size) => Pair(oid, size)
    case Punch(oid, offset, len) => Triple(oid, offset, len)
    case Clone(src, dst) => Pair(src, dst)
    case Statfs => []
  }

  /** The client sends, or refuses a write that would not fit one frame. */
  predicate ClientAccepts(r: Request) {
    r.Write? ==> |r.data| <= MAX_BODY - 20
  }

  /** The client sends exactly what fits one frame. */
  lemma ClientAcceptsIff(r: Request)
    ensures ClientAccepts(r) <==> |EncodeRequest(r)| <= MAX_BODY
    ensures IO_ERROR != IO_SUCCESS
  {
    hide LE;
  }

  /** The request a handler reads from a body, None when it answers BAD_OPCODE. */
  function DecodeRequest(opcode: nat, body: seq<Byte>): Option<Request> {
    if opcode == OP_CREATE && |body| >= 8 then Some(Create(Field(body, 0, 8)))
    else if opcode == OP_DELETE && |body| >= 8 then Some(Delete(Field(body, 0, 8)))
    else if opcode == OP_WRITE && |body| >= 20 && Field(body, 16, 4) + 20 == |body| then
      Some(Write(Field(body, 0, 8), Field(body, 8, 8), body[20..]))
    else if opcode == OP_READ && |body| >= 20 then
      Some(Read(Field(body, 0, 8), Field(body, 8, 8), Field(body, 16, 4)))
    else if opcode == OP_TRUNCATE && |body| >= 16 then Some(Truncate(Field(body, 0, 8), Field(body, 8, 8)))
    else if opcode == OP_PUNCH && |body| >= 20 then
      Some(Punch(Field(body, 0, 8), Field(body, 8, 8), Field(body, 16, 4)))
    else if opcode == OP_CLONE && |body| >= 16 then Some(Clone(Field(body, 0, 8), Field(body, 8, 8)))
    else if opcode == OP_STATFS then Some(Statfs)
    else None
  }

  lemma PairFields(a: nat, b: nat, post: seq<Byte>)
    requires a < U64 && b < U64
    ensures |Pair(a, b) + post| == 16 + |post|
    ensures Field(Pair(a, b) + post, 0, 8) == a && Field(Pair(a, b) + post, 8, 8) == b
  {
    Widths();
    FieldAt([], 8, a, LE(8, b) + post);
    assert [] + LE(8, a) + (LE(8, b) + post) == Pair(a, b) + post;
    FieldAt(LE(8, a), 8, b, post);
  }

  lemma TripleFields(a: nat, b: nat, len: nat, post: seq<Byte>)
    requires a < U64 && b < U64 && len < U32
    ensures |Triple(a, b, len) + post| == 20 + |post|
    ensures Field(Triple(a, b, len) + post, 0, 8) == a
    ensures Field(Triple(a, b, len) + post, 8, 8) == b
    ensures Field(Triple(a, b, len) + post, 16, 4) == len
  {
    Widths();
    PairFields(a, b, LE(4, len) + post);
    assert Pair(a, b) + (LE(4, len) + post) == Triple(a, b, len) + post;
    FieldAt(Pair(a, b), 4, len, post);
  }

  /** The server reads back exactly the request the client encoded. */
  lemma RequestRoundTrip(r: Request)
    requires InRange(r)
    ensures DecodeRequest(Opcode(r), EncodeRequest(r)) == Some(r)
  {
    hide LE, FromLE, Field;
    Widths();
    match r
    case Create(oid) => SingleField(oid);
    case Delete(oid) => SingleField(oid);
    case Write(oid, offset, data) =>
      TripleFields(oid, offset, |data|, data);
      assert EncodeRequest(r)[20..] == data;
    case Read(oid, offset, len) => TripleFields(oid, offset, len, []); Unpad(Triple(oid, offset, len));
    case Truncate(oid, size) => PairFields(oid, size, []); Unpad(Pair(oid, size));
    case Punch(oid, offset, len) => TripleFields(oid, offset, len, []); Unpad(Triple(oid, offset, len));
    case Clone(src, dst) => PairFields(src, dst, []); Unpad(Pair(src, dst));
    case Statfs =>
  }

  /** Where the fields of a request lie: object, then offset, size or target, then length, then data. */
  lemma RequestLayout(r: Request)
    requires InRange(r)
    ensures var e := EncodeRequest(r);
            match r
            case Create(oid) => |e| == 8 && Field(e, 0, 8) == oid
            case Delete(oid) => |e| == 8 && Field(e, 0, 8) == oid
            case Write(oid, offset, data) =>
              |e| == 20 + |data| && Field(e, 0, 8) == oid && Field(e, 8, 8) == offset && Field(e, 16, 4) == |data|
              && e[20..] == data
            case Read(oid, offset, len) =>
              |e| == 20 && Field(e, 0, 8) == oid && Field(e, 8, 8) == offset && Field(e, 16, 4) == len
            case Truncate(oid, size) => |e| == 16 && Field(e, 0, 8) == oid && Field(e, 8, 8) == size
            case Punch(oid, offset, len) =>
              |e| == 20 && Field(e, 0, 8) == oid && Field(e, 8, 8) == offset && Field(e, 16, 4) == len
            case Clone(src, dst) => |e| == 16 && Field(e, 0, 8) == src && Field(e, 8, 8) == dst
            case Statfs => e == []
  {
    hide LE, FromLE, Field;
    match r
    case Create(oid) => SingleField(oid);
    case Delete(oid) => SingleField(oid);
    case Write(oid, offset, data) => TripleFields(oid, offset, |data|, data);
    case Read(oid, offset, len) => TripleFields(oid, offset, len, []); Unpad(Triple(oid, offset, len));
    case Truncate(oid, size) => PairFields(oid, size, []); Unpad(Pair(oid, size));
    case Punch(oid, offset, len) => TripleFields(oid, offset, len, []); Unpad(Triple(oid, offset, len));
    case Clone(src, dst) => PairFields(src, dst, []); Unpad(Pair(src, dst));
    case Statfs =>
  }

  lemma Unpad(s: seq<Byte>)
    ensures s + [] == s
  {
  }

  lemma SingleField(oid: nat)
    requires oid < U64
    ensures Field(LE(8, oid), 0, 8) == oid
  {
    Widths();
    FieldAt([], 8, oid, []);
    assert [] + LE(8, oid) + [] == LE(8, oid);
  }

  /**
   Decoding never invents a request: an accepted body starts with the encoding of what was
   decoded, and a WRITE body is exactly that encoding.
   */
  lemma DecodedIsEncoded(opcode: nat, body: seq<Byte>)
    requires DecodeRequest(opcode, body).Some? && |body| < U32
    ensures var r := DecodeRequest(opcode, body).value;
            && Opcode(r) == opcode && InRange(r)
            && EncodeRequest(r) <= body
            && (r.Write? ==> EncodeRequest(r) == body)
  {
    hide LE, FromLE;
    Widths();
    if |body| >= 8 { FieldBack(body, 0, 8); }
    if |body| >= 16 { FieldBack(body, 8, 8); }
    if |body| >= 20 { FieldBack(body, 16, 4); }
    var r := DecodeRequest(opcode, body).value;
    assert |body| >= 8 ==> LE(8, Field(body, 0, 8)) == body[..8];
    assert |body| >= 16 ==> Pair(Field(body, 0, 8), Field(body, 8, 8)) == body[..16];
    assert |body| >= 20 ==> Triple(Field(body, 0, 8), Field(body, 8, 8), Field(body, 16, 4)) == body[..20];
    assert r.Write? ==> body[..20] + body[20..] == body;
  }

  // ---------- replies ----------

  /** A body length, computed in 32 bits. */
  function BodyLength(extraLen: nat): (n: nat)
    ensures n <= 8 + extraLen
    ensures extraLen < U32 - 8 ==> n == 8 + extraLen
    ensures U32 - 8 <= extraLen < U32 ==> n < 8
  {
    (8 + extraLen) % U32
  }

  /** The body that send_deferred_reply builds. */
  function ReplyBody(opcode: nat, result: nat, extra: Option<seq<Byte>>): seq<Byte> {
    if opcode == OP_READ then
      if result == IO_SUCCESS && extra.Some? && |extra.value| > 0 then
        (LE(4, result) + LE(4, |extra.value|) + extra.value)[..BodyLength(|extra.value|)]
      else LE(4, result) + LE(4, 0)
    else if opcode == OP_STATFS then
      LE(4, result) + (if extra.Some? && |extra.value| >= 16 then extra.value[..16] else LE(16, 0))
    else LE(4, result)
  }

  /** What the user's callback receives.  A read callback gets a buffer and a length. */
  datatype Callback =
    | Simple(result: nat)
    | ReadDone(result: nat, buffer: seq<Byte>, len: nat)
    | StatfsDone(result: nat, total: nat, used: nat)

  datatype CallType = SimpleCall | ReadCall | StatfsCall

  function TypeOf(r: Request): CallType {
    match r
    case Read(_, _, _) => ReadCall
    case Statfs => StatfsCall
    case _ => SimpleCall
  }

  function ErrorCallback(t: CallType, code: nat): Callback {
    match t
    case SimpleCall => Simple(code)
    case ReadCall => ReadDone(code, [], 0)
    case StatfsCall => StatfsDone(code, 0, 0)
  }

  /** client_response_cb; body is None when the transport reports an error. */
  function ClientDecode(t: CallType, body: Option<seq<Byte>>): Callback {
    if body.None? || |body.value| < 4 then ErrorCallback(t, IO_ERROR)
    else
      var b := body.value;
      var status := Field(b, 0, 4);
      match t
      case SimpleCall => Simple(status)
      case ReadCall => if |b| >= 8 then ReadDone(status, b[8..], Field(b, 4, 4)) else ReadDone(status, [], 0)
      case StatfsCall =>
        if |b| >= 20 then StatfsDone(status, Field(b, 4, 8), Field(b, 12, 8)) else StatfsDone(status, 0, 0)
  }

  // ---------- one call, end to end ----------

  /**
   What the engine does with a call: refuse it at once, or complete it later.  For a read, data is
   the caller's buffer afterwards and filled is how many of its bytes were actually read.
   */
  datatype Outcome =
    | Refused(code: nat)
    | Completed(result: nat, data: seq<Byte>, filled: nat, total: nat, used: nat)

  /** The outcome is one the engine can produce for r. */
  predicate Possible(r: Request, o: Outcome) {
    match o
    case Refused(code) => 0 < code < U32
    case Completed(result, data, filled, total, used) =>
      result < U32 && total < U64 && used < U64 && (r.Read? ==> filled <= |data| == r.len)
  }

  /** What fails around the call: the handler's allocations, the reply's allocations, the transport. */
  datatype Faults = Faults(handlerAlloc: bool, replyAlloc: bool, transport: bool)

  const NO_FAULTS := Faults(false, false, false)

  /** The extra bytes of the reply message: the read buffer, or the two STATFS sums. */
  function Extra(r: Request, o: Outcome): Option<seq<Byte>> {
    if o.Refused? then None
    else if r.Read? then Some(o.data)
    else if r.Statfs? then Some(Pair(o.total, o.used))
    else None
  }

  /** The reply body the server hands to the transport, if any. */
  function ServerBody(opcode: nat, body: seq<Byte>, engine: Request -> Outcome, f: Faults): Option<seq<Byte>> {
    match DecodeRequest(opcode, body)
    case None => Some([])
    case Some(r) =>
      if f.handlerAlloc then Some([])
      else
        match engine(r)
        case Refused(code) => Some(LE(4, code))
        case Completed(result, _, _, _, _) =>
          if f.replyAlloc then None else Some(ReplyBody(opcode, result, Extra(r, engine(r))))
  }

  /** What the client's callback sees for a request it sent; a body over the frame limit is not delivered. */
  function RemoteCall(r: Request, engine: Request -> Outcome, f: Faults): Callback {
    var reply := ServerBody(Opcode(r), EncodeRequest(r), engine, f);
    ClientDecode(TypeOf(r), if f.transport || (reply.Some? && |reply.value| > MAX_BODY) then None else reply)
  }

  /** What a caller of the engine itself would be told. */
  function DirectCall(r: Request, engine: Request -> Outcome): Callback {
    match engine(r)
    case Refused(code) => ErrorCallback(TypeOf(r), code)
    case Completed(result, data, _, total, used) =>
      match TypeOf(r)
      case SimpleCall => Simple(result)
      case ReadCall => if result == IO_SUCCESS then ReadDone(result, data, |data|) else ReadDone(result, [], 0)
      case StatfsCall => StatfsDone(result, total, used)
  }

  lemma StatusField(code: nat, post: seq<Byte>)
    requires code < U32
    ensures Field(LE(4, code) + post, 0, 4) == code
  {
    Widths();
    FieldAt([], 4, code, post);
    assert [] + LE(4, code) + post == LE(4, code) + post;
  }

  lemma DecodeSimple(t: CallType, code: nat)
    requires code < U32
    ensures ClientDecode(t, Some(LE(4, code))) == ErrorCallback(t, code)
  {
    StatusField(code, []);
    Unpad(LE(4, code));
  }

  lemma DecodeRead(result: nat, data: seq<Byte>)
    requires result < U32 && |data| < U32 && (result == IO_SUCCESS ==> |data| < U32 - 8)
    ensures ClientDecode(ReadCall, Some(ReplyBody(OP_READ, result, Some(data))))
            == if result == IO_SUCCESS then ReadDone(result, data, |data|) else ReadDone(result, [], 0)
  {
    hide LE, FromLE;
    Widths();
    var n := if result == IO_SUCCESS then |data| else 0;
    var tail := if n > 0 then data else [];
    var b := LE(4, result) + LE(4, n) + tail;
    assert b == ReplyBody(OP_READ, result, Some(data));
    StatusField(result, LE(4, n) + tail);
    assert LE(4, result) + (LE(4, n) + tail) == b;
    FieldAt(LE(4, result), 4, n, tail);
    assert b[8..] == tail;
  }

  /** From 2^32 - 8 bytes on the length wraps, the body has no room for data and the client sees none. */
  lemma WrappedRead(data: seq<Byte>)
    requires U32 - 8 <= |data| < U32
    ensures |ReplyBody(OP_READ, IO_SUCCESS, Some(data))| < 8
    ensures var c := ClientDecode(ReadCall, Some(ReplyBody(OP_READ, IO_SUCCESS, Some(data))));
            c.ReadDone? && c.buffer == [] && c.len == 0
  {
  }

  lemma DecodeStatfs(result: nat, total: nat, used: nat)
    requires result < U32 && total < U64 && used < U64
    ensures ClientDecode(StatfsCall, Some(ReplyBody(OP_STATFS, result, Some(Pair(total, used)))))
            == StatfsDone(result, total, used)
  {
    hide LE, FromLE;
    Widths();
    var b := LE(4, result) + Pair(total, used);
    assert Pair(total, used)[..16] == Pair(total, used);
    StatusField(result, Pair(total, used));
    FieldAt(LE(4, result), 8, total, LE(8, used));
    assert LE(4, result) + LE(8, total) + LE(8, used) == b;
    FieldAt(LE(4, result) + LE(8, total), 8, used, []);
    assert LE(4, result) + LE(8, total) + LE(8, used) + [] == b;
  }

  /** A successful read whose header and data do not fit one frame. */
  predicate ReadTooLong(r: Request, o: Outcome) {
    r.Read? && o.Completed? && o.result == IO_SUCCESS && r.len + 8 > MAX_BODY
  }

  /**
   Transparency: for every operation, every argument the client accepts and every answer of the
   engine, the callback receives what a direct call would give, exactly unless a successful read
   does not fit one frame with its eight-byte header.
   */
  lemma TransparentIff(r: Request, engine: Request -> Outcome)
    requires InRange(r) && ClientAccepts(r) && Possible(r, engine(r))
    ensures RemoteCall(r, engine, NO_FAULTS) == DirectCall(r, engine) <==> !ReadTooLong(r, engine(r))
  {
    hide EncodeRequest, DecodeRequest, LE, Field, ClientDecode;
    RequestRoundTrip(r);
    if ReadTooLong(r, engine(r)) {
      LongReadFails(r, engine);
    } else {
      match engine(r)
      case Refused(code) => DecodeSimple(TypeOf(r), code);
      case Completed(result, data, _, total, used) =>
        match TypeOf(r)
        case SimpleCall => DecodeSimple(SimpleCall, result);
        case ReadCall => DecodeRead(result, data);
        case StatfsCall => DecodeStatfs(result, total, used);
    }
  }

  /** Such a read comes back without data: the frame is not delivered, or its length has wrapped. */
  lemma LongReadFails(r: Request, engine: Request -> Outcome)
    requires InRange(r) && Possible(r, engine(r)) && ReadTooLong(r, engine(r))
    ensures var c := RemoteCall(r, engine, NO_FAULTS); c.ReadDone? && c.buffer == [] && c.len == 0
  {
    hide EncodeRequest, DecodeRequest, LE, Field;
    RequestRoundTrip(r);
    var data := engine(r).data;
    if |data| >= U32 - 8 { WrappedRead(data); }
  }

  /**
   The length a read callback is told is the length requested.  It is the number of bytes actually
   read, which the design promises, exactly when the engine filled the whole buffer.
   */
  lemma ReadLengthIsRequested(r: Request, engine: Request -> Outcome)
    requires InRange(r) && r.Read? && Possible(r, engine(r)) && r.len + 8 <= MAX_BODY
    requires engine(r).Completed? && engine(r).result == IO_SUCCESS
    ensures var c := RemoteCall(r, engine, NO_FAULTS);
            c.ReadDone? && c.len == r.len && (c.len == engine(r).filled <==> engine(r).filled == r.len)
  {
    hide RemoteCall;
    TransparentIff(r, engine);
  }

  /** Whatever fails, the callback reports an error and no data; a rejected body does the same. */
  lemma FaultsBecomeIoError(r: Request, engine: Request -> Outcome, f: Faults)
    requires InRange(r) && (f.transport || f.handlerAlloc || (f.replyAlloc && engine(r).Completed?))
    ensures RemoteCall(r, engine, f) == ErrorCallback(TypeOf(r), IO_ERROR)
  {
    hide EncodeRequest, DecodeRequest;
    RequestRoundTrip(r);
  }

  lemma RejectedBody(opcode: nat, body: seq<Byte>, engine: Request -> Outcome, f: Faults, t: CallType)
    requires DecodeRequest(opcode, body).None?
    ensures ClientDecode(t, ServerBody(opcode, body, engine, f)) == ErrorCallback(t, IO_ERROR)
  {
  }

  /** In every reply a server sends, the length given to a read callback stays inside its buffer. */
  lemma ReadLengthInBounds(r: Request, engine: Request -> Outcome, f: Faults)
    requires InRange(r) && r.Read? && Possible(r, engine(r))
    ensures var c := RemoteCall(r, engine, f); c.ReadDone? && c.len <= |c.buffer|
  {
    hide EncodeRequest, DecodeRequest, LE, Field;
    RequestRoundTrip(r);
    if !f.transport && !f.handlerAlloc {
      match engine(r)
      case Refused(code) => DecodeSimple(ReadCall, code);
      case Completed(result, data, _, _, _) =>
        if result == IO_SUCCESS && |data| >= U32 - 8 { WrappedRead(data); } else { DecodeRead(result, data); }
    }
  }
}
