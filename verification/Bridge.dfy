/**
 Deferred replies (rpc_handler.c, callback_bridge.c) as a state machine over requests: each
 request is a token that moves from the handler to the engine, to the RPC thread's message
 queue, and out; the extra buffer of a read moves with it.
 */
module Bridge {
  import opened MetaTypes
  import opened Bytes
  import opened Sums
  import opened Wire

  /** A bridge context waiting for the engine's callback. */
  datatype Ctx = Ctx(id: nat, buffer: Option<nat>)

  /** A reply message on its way to send_deferred_reply. */
  datatype Msg = Msg(id: nat, opcode: nat, result: nat, extra: Option<seq<Byte>>, buffer: Option<nat>)

  datatype Body = Body(id: nat, bytes: seq<Byte>)

  /** How the engine finished a request, and whether the STATFS payload could be allocated. */
  datatype Completion = Completion(outcome: Outcome, payload: bool)

  datatype State = State(
    next: nat,                        // requests received so far; their ids are 0 .. next-1
    reqs: map<nat, Request>,          // history: the request behind an accepted id
    done: map<nat, Completion>,       // history: how the engine finished it
    immediate: seq<Body>,             // answered by the handler itself
    engine: seq<Ctx>,                 // accepted, callback still to come
    queue: seq<Msg>,                  // messages for send_deferred_reply
    sent: seq<Body>,                  // replies handed to the transport
    dropped: seq<nat>,                // replies given up
    nextBuffer: nat,                  // buffers allocated so far
    freed: seq<nat>)                  // buffers freed, in order

  const INIT := State(0, map[], map[], [], [], [], [], [], 0, [])

  /** Result of nrpc_server_send_response. */
  datatype SendResult = Delivered | Busy | Failed

  datatype Act =
    | Receive(opcode: nat, body: seq<Byte>, bufferOk: bool, ctxOk: bool, refusal: Option<nat>)
    | Callback(k: nat, outcome: Outcome, msgOk: bool, payloadOk: bool)
    | Send(bodyOk: bool, rc: SendResult)

  predicate Enabled(s: State, a: Act) {
    match a
    case Receive(_, body, _, _, refusal) => |body| < U32 && (refusal.Some? ==> 0 < refusal.value < U32)
    case Callback(k, outcome, _, _) =>
      k < |s.engine| && s.engine[k].id in s.reqs && outcome.Completed? && Possible(s.reqs[s.engine[k].id], outcome)
    case Send(_, _) => s.queue != []
  }

  function OptionSeq(b: Option<nat>): seq<nat> {
    if b.Some? then [b.value] else []
  }

  function Reject(s: State, bytes: seq<Byte>): State {
    s.(next := s.next + 1, immediate := s.immediate + [Body(s.next, bytes)])
  }

  /** A handler: decode, allocate, call the engine; a refusal is answered at once. */
  function Handle(s: State, a: Act): State
    requires a.Receive?
  {
    match DecodeRequest(a.opcode, a.body)
    case None => Reject(s, [])
    case Some(r) =>
      if r.Read? && !a.bufferOk then Reject(s, [])
      else
        var buffer := if r.Read? then Some(s.nextBuffer) else None;
        var t := s.(nextBuffer := s.nextBuffer + |OptionSeq(buffer)|);
        if !a.ctxOk then Reject(t.(freed := s.freed + OptionSeq(buffer)), [])
        else if a.refusal.Some? then Reject(t.(freed := s.freed + OptionSeq(buffer)), LE(4, a.refusal.value))
        else t.(next := s.next + 1, reqs := s.reqs[s.next := r], engine := s.engine + [Ctx(s.next, buffer)])
  }

  function Without<T>(s: seq<T>, k: nat): seq<T>
    requires k < |s|
  {
    s[..k] + s[k + 1..]
  }

  /** The extra bytes a completed request carries. */
  function ExtraOf(r: Request, c: Completion): Option<seq<Byte>> {
    if r.Statfs? && !c.payload then None else Extra(r, c.outcome)
  }

  /** The engine's one callback: turn the context into a reply message, or drop both. */
  function Finish(s: State, a: Act): State
    requires a.Callback? && Enabled(s, a)
  {
    var ctx := s.engine[a.k];
    var r := s.reqs[ctx.id];
    var rest := s.(engine := Without(s.engine, a.k));
    if !a.msgOk then
      rest.(dropped := s.dropped + [ctx.id], freed := s.freed + OptionSeq(ctx.buffer))
    else
      var c := Completion(a.outcome, a.payloadOk);
      var own := r.Statfs? && a.payloadOk;
      var buffer := if own then Some(s.nextBuffer) else ctx.buffer;
      rest.(done := s.done[ctx.id := c],
            queue := s.queue + [Msg(ctx.id, Opcode(r), a.outcome.result, ExtraOf(r, c), buffer)],
            nextBuffer := s.nextBuffer + (if own then 1 else 0))
  }

  /** send_deferred_reply on the oldest message; a busy transport puts it back at the end. */
  function Transmit(s: State, a: Act): State
    requires a.Send? && Enabled(s, a)
  {
    var m := s.queue[0];
    var rest := s.(queue := s.queue[1..]);
    if !a.bodyOk then rest.(dropped := s.dropped + [m.id], freed := s.freed + OptionSeq(m.buffer))
    else
      match a.rc
      case Busy => rest.(queue := s.queue[1..] + [m])
      case Delivered =>
        rest.(sent := s.sent + [Body(m.id, ReplyBody(m.opcode, m.result, m.extra))],
              freed := s.freed + OptionSeq(m.buffer))
      case Failed => rest.(dropped := s.dropped + [m.id], freed := s.freed + OptionSeq(m.buffer))
  }

  function Step(s: State, a: Act): State
    requires Enabled(s, a)
  {
    match a
    case Receive(_, _, _, _, _) => Handle(s, a)
    case Callback(_, _, _, _) => Finish(s, a)
    case Send(_, _) => Transmit(s, a)
  }

  // ---------- conservation ----------

  ghost function CtxId(c: Ctx): seq<nat> { [c.id] }
  ghost function CtxBuffer(c: Ctx): seq<nat> { OptionSeq(c.buffer) }
  ghost function MsgId(m: Msg): seq<nat> { [m.id] }
  ghost function MsgBuffer(m: Msg): seq<nat> { OptionSeq(m.buffer) }
  ghost function BodyId(b: Body): seq<nat> { [b.id] }
  ghost function Itself(x: nat): seq<nat> { [x] }

  /** In how many places request x is. */
  ghost function Places(s: State, x: nat): nat {
    Tally(BodyId, s.immediate, x) + Tally(CtxId, s.engine, x) + Tally(MsgId, s.queue, x)
    + Tally(BodyId, s.sent, x) + Tally(Itself, s.dropped, x)
  }

  /** How often buffer x has been freed or is held. */
  ghost function Holders(s: State, x: nat): nat {
    Tally(Itself, s.freed, x) + Tally(CtxBuffer, s.engine, x) + Tally(MsgBuffer, s.queue, x)
  }

  /** Every request is in exactly one place, every buffer freed once or held once, and no others exist. */
  ghost predicate ConservedAt(s: State, x: nat) {
    && Places(s, x) == (if x < s.next then 1 else 0)
    && Holders(s, x) == (if x < s.nextBuffer then 1 else 0)
  }

  // ---------- what travels ----------

  /** A pending context belongs to a request; it holds a buffer exactly for a read. */
  ghost predicate CtxLinked(s: State, k: nat)
    requires k < |s.engine|
  {
    var c := s.engine[k];
    c.id in s.reqs && (c.buffer.Some? <==> s.reqs[c.id].Read?)
  }

  /** Request id was accepted and the engine has finished it. */
  ghost predicate Finished(s: State, id: nat) {
    && id in s.reqs && id in s.done
    && InRange(s.reqs[id])
    && s.done[id].outcome.Completed? && Possible(s.reqs[id], s.done[id].outcome)
  }

  /** The reply a finished request must get. */
  ghost function RightBytes(s: State, id: nat): seq<Byte>
    requires Finished(s, id)
  {
    var r, c := s.reqs[id], s.done[id];
    ReplyBody(Opcode(r), c.outcome.result, ExtraOf(r, c))
  }

  ghost predicate MsgLinked(s: State, m: Msg) {
    Finished(s, m.id) && ReplyBody(m.opcode, m.result, m.extra) == RightBytes(s, m.id)
  }

  ghost predicate SentLinked(s: State, b: Body) {
    Finished(s, b.id) && b.bytes == RightBytes(s, b.id)
  }

  ghost predicate Linked(s: State) {
    && (forall id :: id in s.reqs ==> id < s.next && InRange(s.reqs[id]))
    && (forall k :: 0 <= k < |s.engine| ==> CtxLinked(s, k))
    && (forall k :: 0 <= k < |s.queue| ==> MsgLinked(s, s.queue[k]))
    && (forall k :: 0 <= k < |s.sent| ==> SentLinked(s, s.sent[k]))
  }

  ghost predicate Inv(s: State) {
    Linked(s) && forall x :: ConservedAt(s, x)
  }

  lemma FreedOption(freed: seq<nat>, b: Option<nat>, x: nat)
    ensures Tally(Itself, freed + OptionSeq(b), x) == Tally(Itself, freed, x) + multiset(OptionSeq(b))[x]
  {
    if b.Some? {
      TallyAppend(Itself, freed, b.value, x);
    } else {
      assert freed + OptionSeq(b) == freed;
    }
  }

  lemma RejectConserves(s: State, bytes: seq<Byte>, x: nat)
    requires ConservedAt(s, x)
    ensures ConservedAt(Reject(s, bytes), x)
  {
    hide Tally;
    TallyAppend(BodyId, s.immediate, Body(s.next, bytes), x);
  }

  lemma HandleConserves(s: State, a: Act, x: nat)
    requires ConservedAt(s, x) && a.Receive?
    ensures ConservedAt(Handle(s, a), x)
  {
    hide DecodeRequest, LE, Tally, Reject;
    RejectConserves(s, [], x);
    var read := DecodeRequest(a.opcode, a.body).Some? && DecodeRequest(a.opcode, a.body).value.Read?;
    var buffer := if read then Some(s.nextBuffer) else None;
    var t := s.(nextBuffer := s.nextBuffer + |OptionSeq(buffer)|);
    FreedOption(s.freed, buffer, x);
    RejectConserves(t.(freed := s.freed + OptionSeq(buffer)), [], x);
    if a.refusal.Some? {
      RejectConserves(t.(freed := s.freed + OptionSeq(buffer)), LE(4, a.refusal.value), x);
    }
    TallyAppend(CtxId, s.engine, Ctx(s.next, buffer), x);
    TallyAppend(CtxBuffer, s.engine, Ctx(s.next, buffer), x);
  }

  lemma FinishConserves(s: State, a: Act, x: nat)
    requires ConservedAt(s, x) && a.Callback? && Enabled(s, a) && CtxLinked(s, a.k)
    ensures ConservedAt(Finish(s, a), x)
  {
    hide Tally, Extra, Opcode;
    var ctx := s.engine[a.k];
    TallyRemove(CtxId, s.engine, a.k, x);
    TallyRemove(CtxBuffer, s.engine, a.k, x);
    if a.msgOk {
      var m := Finish(s, a).queue[|s.queue|];
      TallyAppend(MsgId, s.queue, m, x);
      TallyAppend(MsgBuffer, s.queue, m, x);
    } else {
      TallyAppend(Itself, s.dropped, ctx.id, x);
      FreedOption(s.freed, ctx.buffer, x);
    }
  }

  lemma Dequeue(queue: seq<Msg>, x: nat)
    requires queue != []
    ensures Tally(MsgId, queue, x) == Tally(MsgId, queue[1..], x) + multiset(MsgId(queue[0]))[x]
    ensures Tally(MsgBuffer, queue, x) == Tally(MsgBuffer, queue[1..], x) + multiset(MsgBuffer(queue[0]))[x]
  {
    hide Tally;
    assert queue[..0] + queue[1..] == queue[1..];
    TallyRemove(MsgId, queue, 0, x);
    TallyRemove(MsgBuffer, queue, 0, x);
  }

  lemma Singles(m: Msg, x: nat)
    ensures MsgId(m) == Itself(m.id) && MsgBuffer(m) == OptionSeq(m.buffer)
    ensures forall bytes :: BodyId(Body(m.id, bytes)) == MsgId(m)
  {
  }

  lemma TransmitConserves(s: State, a: Act, x: nat)
    requires ConservedAt(s, x) && a.Send? && Enabled(s, a)
    ensures ConservedAt(Transmit(s, a), x)
  {
    hide Tally, ReplyBody, OptionSeq, MsgId, MsgBuffer, BodyId, Itself;
    var m := s.queue[0];
    Dequeue(s.queue, x);
    Singles(m, x);
    FreedOption(s.freed, m.buffer, x);
    if !a.bodyOk || a.rc.Failed? {
      TallyAppend(Itself, s.dropped, m.id, x);
    } else if a.rc.Busy? {
      TallyAppend(MsgId, s.queue[1..], m, x);
      TallyAppend(MsgBuffer, s.queue[1..], m, x);
    } else {
      TallyAppend(BodyId, s.sent, Body(m.id, ReplyBody(m.opcode, m.result, m.extra)), x);
    }
  }

  lemma HandleLinks(s: State, a: Act)
    requires Linked(s) && a.Receive? && |a.body| < U32
    ensures Linked(Handle(s, a))
  {
    hide LE, InRange, Possible, RightBytes, ReplyBody, DecodeRequest;
    if DecodeRequest(a.opcode, a.body).Some? { DecodedIsEncoded(a.opcode, a.body); }
    var s' := Handle(s, a);
    assert forall id :: id in s.reqs ==> id in s'.reqs && s'.reqs[id] == s.reqs[id];
    forall id | Finished(s, id) ensures Finished(s', id) && RightBytes(s', id) == RightBytes(s, id) {
      SameHistory(s, s', id);
    }
    forall k | 0 <= k < |s'.engine| ensures CtxLinked(s', k) {
      if k < |s.engine| { assert CtxLinked(s, k); }
    }
    forall k | 0 <= k < |s'.queue| ensures MsgLinked(s', s'.queue[k]) { assert MsgLinked(s, s.queue[k]); }
    forall k | 0 <= k < |s'.sent| ensures SentLinked(s', s'.sent[k]) { assert SentLinked(s, s.sent[k]); }
  }

  lemma SameHistory(s: State, s': State, id: nat)
    requires Finished(s, id) && id in s'.reqs && id in s'.done
    requires s'.reqs[id] == s.reqs[id] && s'.done[id] == s.done[id]
    ensures Finished(s', id) && RightBytes(s', id) == RightBytes(s, id)
  {
  }

  /** A request waiting for its callback has no message and no reply yet. */
  lemma PendingIsNowhereElse(s: State, k: nat, j: nat)
    requires Inv(s) && k < |s.engine|
    ensures j < |s.queue| ==> s.queue[j].id != s.engine[k].id
    ensures j < |s.sent| ==> s.sent[j].id != s.engine[k].id
  {
    hide Tally, Linked;
    var x := s.engine[k].id;
    assert ConservedAt(s, x);
    TallyFind(CtxId, s.engine, k, x);
    if j < |s.queue| && s.queue[j].id == x { TallyFind(MsgId, s.queue, j, x); }
    if j < |s.sent| && s.sent[j].id == x { TallyFind(BodyId, s.sent, j, x); }
  }

  lemma FinishLinks(s: State, a: Act)
    requires Inv(s) && a.Callback? && Enabled(s, a)
    ensures Linked(Finish(s, a))
  {
    hide Tally, Possible, InRange, RightBytes, ReplyBody, ExtraOf, ConservedAt, Opcode;
    var s' := Finish(s, a);
    var ctx := s.engine[a.k];
    forall k | 0 <= k < |s'.engine| ensures CtxLinked(s', k) {
      assert CtxLinked(s, if k < a.k then k else k + 1);
    }
    forall k | 0 <= k < |s'.queue| ensures MsgLinked(s', s'.queue[k]) {
      if k < |s.queue| {
        assert MsgLinked(s, s.queue[k]);
        PendingIsNowhereElse(s, a.k, k);
        SameHistory(s, s', s.queue[k].id);
      } else {
        FreshMessage(s, a);
      }
    }
    forall k | 0 <= k < |s'.sent| ensures SentLinked(s', s'.sent[k]) {
      assert SentLinked(s, s.sent[k]);
      PendingIsNowhereElse(s, a.k, k);
      SameHistory(s, s', s.sent[k].id);
    }
  }

  lemma FreshMessage(s: State, a: Act)
    requires Linked(s) && a.Callback? && Enabled(s, a) && a.msgOk
    ensures MsgLinked(Finish(s, a), Finish(s, a).queue[|s.queue|])
  {
    hide Possible, InRange, ReplyBody, Extra;
  }

  lemma TransmitLinks(s: State, a: Act)
    requires Linked(s) && a.Send? && Enabled(s, a)
    ensures Linked(Transmit(s, a))
  {
    hide ReplyBody, RightBytes, Finished;
    var s' := Transmit(s, a);
    assert MsgLinked(s, s.queue[0]);
    forall k | 0 <= k < |s'.engine| ensures CtxLinked(s', k) { assert CtxLinked(s, k); }
    forall id | Finished(s, id) ensures Finished(s', id) && RightBytes(s', id) == RightBytes(s, id) {
      SameTransmit(s, s', id);
    }
    forall k | 0 <= k < |s'.queue| ensures MsgLinked(s', s'.queue[k]) {
      assert MsgLinked(s, if k + 1 < |s.queue| then s.queue[k + 1] else s.queue[0]);
    }
    forall k | 0 <= k < |s'.sent| ensures SentLinked(s', s'.sent[k]) {
      if k < |s.sent| { assert SentLinked(s, s.sent[k]); }
    }
  }

  lemma SameTransmit(s: State, s': State, id: nat)
    requires Finished(s, id) && s'.reqs == s.reqs && s'.done == s.done
    ensures Finished(s', id) && RightBytes(s', id) == RightBytes(s, id)
  {
  }

  lemma StepKeepsInv(s: State, a: Act)
    requires Inv(s) && Enabled(s, a)
    ensures Inv(Step(s, a))
  {
    hide ConservedAt, Linked, Handle, Finish, Transmit;
    match a
    case Receive(_, _, _, _, _) =>
      HandleLinks(s, a);
      forall x ensures ConservedAt(Handle(s, a), x) { HandleConserves(s, a, x); }
    case Callback(k, _, _, _) =>
      EngineLinked(s, k);
      FinishLinks(s, a);
      forall x ensures ConservedAt(Finish(s, a), x) { FinishConserves(s, a, x); }
    case Send(_, _) =>
      TransmitLinks(s, a);
      forall x ensures ConservedAt(Transmit(s, a), x) { TransmitConserves(s, a, x); }
  }

  lemma EngineLinked(s: State, k: nat)
    requires Linked(s) && k < |s.engine|
    ensures CtxLinked(s, k)
  {
  }

  // ---------- runs ----------

  ghost predicate Run(acts: seq<Act>, states: seq<State>) {
    && |states| == |acts| + 1
    && states[0] == INIT
    && forall k :: 0 <= k < |acts| ==> Enabled(states[k], acts[k]) && states[k + 1] == Step(states[k], acts[k])
  }

  lemma {:induction false} RunInv(acts: seq<Act>, states: seq<State>, k: nat)
    requires Run(acts, states) && k < |states|
    ensures Inv(states[k])
  {
    hide Step, Enabled;
    if k > 0 {
      RunInv(acts, states, k - 1);
      StepKeepsInv(states[k - 1], acts[k - 1]);
    }
  }

  /**
   Over every run, whatever the engine, the allocator and the transport do: each request received
   is in exactly one of the five places, and each buffer has been freed exactly once or is held
   by exactly one context or message.
   */
  lemma OneTokenPerRequest(acts: seq<Act>, states: seq<State>, k: nat, id: nat)
    requires Run(acts, states) && k < |states|
    ensures var s := states[k];
            && Places(s, id) == (if id < s.next then 1 else 0)
            && Holders(s, id) == (if id < s.nextBuffer then 1 else 0)
  {
    hide Places, Holders, Linked;
    RunInv(acts, states, k);
    assert ConservedAt(states[k], id);
  }

  /** When no callback and no message is pending, every request is answered or dropped and every buffer freed once. */
  lemma QuietMeansSettled(acts: seq<Act>, states: seq<State>, k: nat, id: nat)
    requires Run(acts, states) && k < |states| && states[k].engine == [] && states[k].queue == []
    ensures var s := states[k];
            && (id < s.next ==> Tally(BodyId, s.immediate, id) + Tally(BodyId, s.sent, id) + Tally(Itself, s.dropped, id) == 1)
            && (id < s.nextBuffer ==> Tally(Itself, s.freed, id) == 1)
  {
    OneTokenPerRequest(acts, states, k, id);
  }

  /**
   However often a reply was put back by a busy transport, what is finally sent for a request
   decodes at the client to what the engine reported for that very request, exactly unless the
   32-bit length of its body wraps.
   */
  lemma SentIsTransparent(acts: seq<Act>, states: seq<State>, k: nat, j: nat)
    requires Run(acts, states) && k < |states| && j < |states[k].sent|
    ensures var s := states[k];
            var b := s.sent[j];
            && b.id in s.reqs && b.id in s.done && s.done[b.id].outcome.Completed?
            && (ClientDecode(TypeOf(s.reqs[b.id]), Some(b.bytes))
                == (if s.reqs[b.id].Statfs? && !s.done[b.id].payload
                    then StatfsDone(s.done[b.id].outcome.result, 0, 0)
                    else DirectCall(s.reqs[b.id], _ => s.done[b.id].outcome))
                <==> !LengthWraps(s.reqs[b.id], s.done[b.id].outcome))
  {
    RunInv(acts, states, k);
    var s := states[k];
    var b := s.sent[j];
    assert SentLinked(s, b);
    BytesDecode(s.reqs[b.id], s.done[b.id].outcome);
    NoPayload(s.done[b.id].outcome.result);
  }

  lemma NoPayload(result: nat)
    requires result < U32
    ensures ClientDecode(StatfsCall, Some(ReplyBody(OP_STATFS, result, None))) == StatfsDone(result, 0, 0)
  {
    hide LE, FromLE;
    DecodeStatfs(result, 0, 0);
    ZeroPair();
    assert Pair(0, 0)[..16] == Pair(0, 0);
  }

  lemma ZeroPair()
    ensures Pair(0, 0) == LE(16, 0)
  {
    forall k: nat | k < 16 ensures Pair(0, 0)[k] == LE(16, 0)[k] {
      ZeroBytes(16, k);
      ZeroBytes(8, if k < 8 then k else k - 8);
    }
  }

  lemma {:induction false} ZeroBytes(n: nat, k: nat)
    requires k < n
    ensures LE(n, 0)[k] == 0
  {
    if k > 0 { ZeroBytes(n - 1, k - 1); }
  }

  /** A successful read of so many bytes that eight more do not fit 32 bits. */
  predicate LengthWraps(r: Request, o: Outcome) {
    r.Read? && o.Completed? && o.result == IO_SUCCESS && r.len >= U32 - 8
  }

  lemma BytesDecode(r: Request, o: Outcome)
    requires InRange(r) && o.Completed? && Possible(r, o)
    ensures ClientDecode(TypeOf(r), Some(ReplyBody(Opcode(r), o.result, Extra(r, o)))) == DirectCall(r, _ => o)
            <==> !LengthWraps(r, o)
  {
    hide LE, Field, ClientDecode;
    match TypeOf(r)
    case SimpleCall => DecodeSimple(SimpleCall, o.result);
    case ReadCall => if LengthWraps(r, o) { WrappedRead(o.data); } else { DecodeRead(o.result, o.data); }
    case StatfsCall => DecodeStatfs(o.result, o.total, o.used);
  }
}
