/** What the history of a run says about each request: who answers it, what is sent, what is dropped. */
module BridgeRuns {
  import opened MetaTypes
  import opened Bytes
  import opened Wire
  import opened Bridge

  /**
   The code with which a handler answers a request itself, None when it goes to the engine: a
   malformed body or a failed allocation is an IO_ERROR, a refusal is the engine's code.
   */
  function AnsweredAtOnce(a: Act): Option<nat>
    requires a.Receive?
  {
    var r := DecodeRequest(a.opcode, a.body);
    if r.None? || (r.value.Read? && !a.bufferOk) || !a.ctxOk then Some(IO_ERROR) else a.refusal
  }

  predicate Delivers(a: Act) {
    a.Send? && a.bodyOk && a.rc.Delivered?
  }

  /** A reply is given up without memory for its message or its body, or when the transport fails. */
  predicate Drops(a: Act) {
    (a.Callback? && !a.msgOk) || (a.Send? && (!a.bodyOk || a.rc.Failed?))
  }

  predicate Rejects(a: Act) {
    a.Receive? && AnsweredAtOnce(a).Some?
  }

  predicate Accepts(a: Act) {
    a.Receive? && AnsweredAtOnce(a).None?
  }

  predicate CallsBack(a: Act) {
    a.Callback?
  }

  ghost function Times(acts: seq<Act>, p: Act -> bool): nat {
    if acts == [] then 0 else Times(acts[..|acts| - 1], p) + (if p(acts[|acts| - 1]) then 1 else 0)
  }

  lemma TimesNext(acts: seq<Act>, k: nat, p: Act -> bool)
    requires k < |acts|
    ensures Times(acts[..k + 1], p) == Times(acts[..k], p) + (if p(acts[k]) then 1 else 0)
  {
    assert acts[..k + 1][..k] == acts[..k];
  }

  /** One step moves exactly what its act says. */
  lemma StepSizes(s: State, a: Act)
    requires Enabled(s, a)
    ensures var t := Step(s, a);
            && |t.immediate| == |s.immediate| + (if Rejects(a) then 1 else 0)
            && |t.engine| == |s.engine| + (if Accepts(a) then 1 else 0) - (if CallsBack(a) then 1 else 0)
            && |t.sent| == |s.sent| + (if Delivers(a) then 1 else 0)
            && |t.dropped| == |s.dropped| + (if Drops(a) then 1 else 0)
  {
    hide DecodeRequest, LE, ReplyBody, Extra, Opcode;
  }

  /**
   Over every run: as many requests are answered at once as were rejected, as many replies are sent
   as the transport took, as many are dropped as failed, and the engine holds those accepted and
   not called back.
   */
  lemma {:induction false} RunSizes(acts: seq<Act>, states: seq<State>, k: nat)
    requires Run(acts, states) && k < |states|
    ensures var s := states[k];
            && |s.immediate| == Times(acts[..k], Rejects)
            && |s.sent| == Times(acts[..k], Delivers)
            && |s.dropped| == Times(acts[..k], Drops)
            && |s.engine| == Times(acts[..k], Accepts) - Times(acts[..k], CallsBack)
  {
    hide Step, Enabled, Rejects, Accepts, Delivers, Drops, CallsBack;
    if k > 0 {
      RunSizes(acts, states, k - 1);
      assert Enabled(states[k - 1], acts[k - 1]) && states[k] == Step(states[k - 1], acts[k - 1]);
      StepSizes(states[k - 1], acts[k - 1]);
      TimesNext(acts, k - 1, Rejects);
      TimesNext(acts, k - 1, Accepts);
      TimesNext(acts, k - 1, CallsBack);
      TimesNext(acts, k - 1, Delivers);
      TimesNext(acts, k - 1, Drops);
    }
  }

  /** A callback the engine can make for the k-th pending context. */
  function SomeCallback(s: State, k: nat): Act
    requires k < |s.engine| && s.engine[k].id in s.reqs
  {
    var r := s.reqs[s.engine[k].id];
    Callback(k, Completed(IO_SUCCESS, if r.Read? then seq(r.len, _ => 0) else [], 0, 0, 0), true, true)
  }

  /** Nothing gets stuck: in any run only new requests can come in exactly when nothing is pending. */
  lemma OnlyReceivesIffQuiet(acts: seq<Act>, states: seq<State>, k: nat)
    requires Run(acts, states) && k < |states|
    ensures (forall a :: Enabled(states[k], a) ==> a.Receive?) <==> states[k].engine == [] && states[k].queue == []
  {
    var s := states[k];
    RunInv(acts, states, k);
    if s.queue != [] { assert Enabled(s, Send(true, Delivered)); }
    if s.engine != [] {
      assert CtxLinked(s, 0);
      assert Enabled(s, SomeCallback(s, 0));
    }
  }

  /** Any outcome, allocation and transport result is possible for what is pending. */
  lemma EveryOutcomePossible(acts: seq<Act>, states: seq<State>, k: nat, a: Act)
    requires Run(acts, states) && k < |states|
    ensures a.Send? && states[k].queue != [] ==> Enabled(states[k], a)
    ensures a.Callback? && a.k < |states[k].engine| && a.outcome.Completed? ==>
              states[k].engine[a.k].id in states[k].reqs
              && (Possible(states[k].reqs[states[k].engine[a.k].id], a.outcome) ==> Enabled(states[k], a))
  {
    RunInv(acts, states, k);
    if a.Callback? && a.k < |states[k].engine| { assert CtxLinked(states[k], a.k); }
  }

  /** While the transport is busy the queued replies take turns: after i attempts the i-th is next. */
  lemma {:induction false} BusyTakesTurns(acts: seq<Act>, states: seq<State>, j: nat, i: nat)
    requires Run(acts, states) && j + i < |states| && i < |states[j].queue|
    requires forall x :: j <= x < j + i ==> acts[x] == Send(true, Busy)
    ensures states[j + i].queue == states[j].queue[i..] + states[j].queue[..i]
  {
    var q := states[j].queue;
    if i > 0 {
      BusyTakesTurns(acts, states, j, i - 1);
      var s := states[j + i - 1];
      assert Enabled(s, acts[j + i - 1]) && states[j + i] == Step(s, acts[j + i - 1]);
      assert s.queue[0] == q[i - 1] && s.queue[1..] == q[i..] + q[..i - 1];
      assert q[..i - 1] + [q[i - 1]] == q[..i];
    }
  }

  lemma StepHolds(s: State, a: Act)
    requires Inv(s) && Enabled(s, a) && forall x :: 0 <= x < |s.queue| ==> HoldsItsData(s.queue[x])
    ensures forall x :: 0 <= x < |Step(s, a).queue| ==> HoldsItsData(Step(s, a).queue[x])
  {
    hide DecodeRequest, LE, ReplyBody, Opcode, ConservedAt;
    if a.Callback? { assert CtxLinked(s, a.k); }
  }

  /** A message owns a buffer exactly if it carries data. */
  predicate HoldsItsData(m: Msg) {
    m.extra.Some? <==> m.buffer.Some?
  }

  lemma {:induction false} MessagesHoldTheirData(acts: seq<Act>, states: seq<State>, k: nat)
    requires Run(acts, states) && k < |states|
    ensures forall x :: 0 <= x < |states[k].queue| ==> HoldsItsData(states[k].queue[x])
  {
    hide Step, Enabled, Inv, HoldsItsData;
    if k > 0 {
      MessagesHoldTheirData(acts, states, k - 1);
      RunInv(acts, states, k - 1);
      assert Enabled(states[k - 1], acts[k - 1]) && states[k] == Step(states[k - 1], acts[k - 1]);
      StepHolds(states[k - 1], acts[k - 1]);
    }
  }

  // ---------- who is dropped and who is sent ----------

  /** The request whose reply the act is about. */
  ghost predicate Concerns(s: State, a: Act, id: nat) {
    match a
    case Receive(_, _, _, _, _) => s.next == id
    case Callback(k, _, _, _) => k < |s.engine| && s.engine[k].id == id
    case Send(_, _) => s.queue != [] && s.queue[0].id == id
  }

  /** Before step k some act did p to request id. */
  ghost predicate Happened(acts: seq<Act>, states: seq<State>, k: nat, p: Act -> bool, id: nat)
    requires k <= |acts| <= |states|
  {
    exists j :: 0 <= j < k && p(acts[j]) && Concerns(states[j], acts[j], id)
  }

  ghost predicate IsSent(s: State, id: nat) {
    exists x :: 0 <= x < |s.sent| && s.sent[x].id == id
  }

  lemma StepDropped(s: State, a: Act, id: nat)
    requires Enabled(s, a)
    ensures id in Step(s, a).dropped <==> id in s.dropped || (Drops(a) && Concerns(s, a, id))
  {
    hide DecodeRequest, LE, ReplyBody, Extra, Opcode;
  }

  lemma StepSent(s: State, a: Act, id: nat)
    requires Enabled(s, a)
    ensures IsSent(Step(s, a), id) <==> IsSent(s, id) || (Delivers(a) && Concerns(s, a, id))
  {
    hide DecodeRequest, LE, ReplyBody, Extra, Opcode;
    var t := Step(s, a);
    assert forall x :: 0 <= x < |s.sent| ==> t.sent[x] == s.sent[x];
    if Delivers(a) && Concerns(s, a, id) { assert t.sent[|s.sent|].id == id; }
  }

  /** A reply has been sent exactly if the transport took it, and dropped exactly if a failure struck it. */
  lemma {:induction false} SentAndDroppedIff(acts: seq<Act>, states: seq<State>, k: nat, id: nat)
    requires Run(acts, states) && k <= |acts|
    ensures IsSent(states[k], id) <==> Happened(acts, states, k, Delivers, id)
    ensures id in states[k].dropped <==> Happened(acts, states, k, Drops, id)
  {
    hide Step, Enabled, Delivers, Drops, Concerns, IsSent;
    if k == 0 {
      NothingYet(id);
    } else {
      SentAndDroppedIff(acts, states, k - 1, id);
      var s, a := states[k - 1], acts[k - 1];
      assert Enabled(s, a) && states[k] == Step(s, a);
      StepDropped(s, a, id);
      StepSent(s, a, id);
      HappenedNext(acts, states, k - 1, Delivers, id);
      HappenedNext(acts, states, k - 1, Drops, id);
    }
  }

  lemma NothingYet(id: nat)
    ensures !IsSent(INIT, id) && id !in INIT.dropped
  {
  }

  lemma HappenedNext(acts: seq<Act>, states: seq<State>, k: nat, p: Act -> bool, id: nat)
    requires k < |acts| <= |states|
    ensures Happened(acts, states, k + 1, p, id) <==>
            Happened(acts, states, k, p, id) || (p(acts[k]) && Concerns(states[k], acts[k], id))
  {
    hide Concerns;
  }

  // ---------- who is answered at once ----------

  /** The client is told the code, whatever it called. */
  ghost predicate Tells(bytes: seq<Byte>, code: nat) {
    forall t :: ClientDecode(t, Some(bytes)) == ErrorCallback(t, code)
  }

  lemma HandlerAnswers(s: State, a: Act)
    requires a.Receive? && Enabled(s, a)
    ensures var t := Step(s, a);
            && (Rejects(a) ==> |t.immediate| == |s.immediate| + 1 && t.immediate[|s.immediate|].id == s.next
                               && Tells(t.immediate[|s.immediate|].bytes, AnsweredAtOnce(a).value))
            && (Accepts(a) ==> s.next in t.reqs && DecodeRequest(a.opcode, a.body) == Some(t.reqs[s.next]))
  {
    hide DecodeRequest, LE, Field;
    if a.refusal.Some? {
      forall t ensures ClientDecode(t, Some(LE(4, a.refusal.value))) == ErrorCallback(t, a.refusal.value) {
        DecodeSimple(t, a.refusal.value);
      }
    }
  }

  /** Answers given at once and accepted requests stay. */
  lemma StepKeepsAnswers(s: State, a: Act)
    requires Inv(s) && Enabled(s, a)
    ensures s.immediate <= Step(s, a).immediate && s.next <= Step(s, a).next
    ensures forall id :: id in s.reqs ==> id in Step(s, a).reqs && Step(s, a).reqs[id] == s.reqs[id]
  {
    hide DecodeRequest, LE, ReplyBody, Extra, Opcode, ConservedAt;
  }

  lemma {:induction false} AnswersStay(acts: seq<Act>, states: seq<State>, j: nat, k: nat)
    requires Run(acts, states) && j <= k < |states|
    ensures states[j].immediate <= states[k].immediate
    ensures forall id :: id in states[j].reqs ==> id in states[k].reqs && states[k].reqs[id] == states[j].reqs[id]
  {
    hide Step, Enabled, Inv;
    if j < k {
      AnswersStay(acts, states, j, k - 1);
      RunInv(acts, states, k - 1);
      assert Enabled(states[k - 1], acts[k - 1]) && states[k] == Step(states[k - 1], acts[k - 1]);
      StepKeepsAnswers(states[k - 1], acts[k - 1]);
    }
  }

  /**
   Every request received is either answered at once with the code it deserves, or known to the
   engine as the request that was sent.
   */
  lemma ReceivedIsAnsweredOrAccepted(acts: seq<Act>, states: seq<State>, j: nat, k: nat)
    requires Run(acts, states) && j < k < |states| && acts[j].Receive?
    ensures var id := states[j].next;
            match AnsweredAtOnce(acts[j])
            case Some(code) =>
              exists x :: 0 <= x < |states[k].immediate| && states[k].immediate[x].id == id
                          && Tells(states[k].immediate[x].bytes, code)
            case None =>
              id in states[k].reqs && DecodeRequest(acts[j].opcode, acts[j].body) == Some(states[k].reqs[id])
  {
    hide Step, Enabled, DecodeRequest, Tells;
    assert Enabled(states[j], acts[j]) && states[j + 1] == Step(states[j], acts[j]);
    HandlerAnswers(states[j], acts[j]);
    AnswersStay(acts, states, j + 1, k);
    if AnsweredAtOnce(acts[j]).Some? {
      var x := |states[j].immediate|;
      assert states[k].immediate[x] == states[j + 1].immediate[x];
    }
  }

  // ---------- what is sent, traced back ----------

  /** Act j brought in the request behind id. */
  ghost predicate BroughtIn(acts: seq<Act>, states: seq<State>, j: nat, id: nat, r: Request)
    requires |acts| <= |states|
  {
    && j < |acts| && Accepts(acts[j]) && states[j].next == id
    && DecodeRequest(acts[j].opcode, acts[j].body) == Some(r)
  }

  /** Act j is the engine's callback for id. */
  ghost predicate Completes(acts: seq<Act>, states: seq<State>, j: nat, id: nat, c: Completion)
    requires |acts| <= |states|
  {
    && j < |acts| && acts[j].Callback? && acts[j].msgOk && Concerns(states[j], acts[j], id)
    && c == Completion(acts[j].outcome, acts[j].payloadOk)
  }

  lemma StepReqs(s: State, a: Act, id: nat)
    requires Enabled(s, a) && id in Step(s, a).reqs && (id !in s.reqs || s.reqs[id] != Step(s, a).reqs[id])
    ensures Accepts(a) && s.next == id && DecodeRequest(a.opcode, a.body) == Some(Step(s, a).reqs[id])
  {
    hide DecodeRequest, LE, ReplyBody, Extra, Opcode;
  }

  lemma StepDone(s: State, a: Act, id: nat)
    requires Enabled(s, a) && id in Step(s, a).done && (id !in s.done || s.done[id] != Step(s, a).done[id])
    ensures a.Callback? && a.msgOk && Concerns(s, a, id) && Step(s, a).done[id] == Completion(a.outcome, a.payloadOk)
  {
    hide DecodeRequest, LE, ReplyBody, Extra, Opcode;
  }

  lemma {:induction false} ReqsFrom(acts: seq<Act>, states: seq<State>, k: nat, id: nat) returns (j: nat)
    requires Run(acts, states) && k < |states| && id in states[k].reqs
    ensures j < k && BroughtIn(acts, states, j, id, states[k].reqs[id])
  {
    hide Step, Enabled, BroughtIn;
    var s, a := states[k - 1], acts[k - 1];
    assert Enabled(s, a) && states[k] == Step(s, a);
    if id in s.reqs && s.reqs[id] == states[k].reqs[id] {
      j := ReqsFrom(acts, states, k - 1, id);
    } else {
      j := k - 1;
      StepReqs(s, a, id);
      BroughtInNow(acts, states, j, id, states[k].reqs[id]);
    }
  }

  lemma BroughtInNow(acts: seq<Act>, states: seq<State>, j: nat, id: nat, r: Request)
    requires j < |acts| <= |states| && Accepts(acts[j]) && states[j].next == id
    requires DecodeRequest(acts[j].opcode, acts[j].body) == Some(r)
    ensures BroughtIn(acts, states, j, id, r)
  {
  }

  lemma {:induction false} DoneFrom(acts: seq<Act>, states: seq<State>, k: nat, id: nat) returns (j: nat)
    requires Run(acts, states) && k < |states| && id in states[k].done
    ensures j < k && Completes(acts, states, j, id, states[k].done[id])
  {
    hide Step, Enabled, Concerns;
    var s, a := states[k - 1], acts[k - 1];
    assert Enabled(s, a) && states[k] == Step(s, a);
    if id in s.done && s.done[id] == states[k].done[id] {
      j := DoneFrom(acts, states, k - 1, id);
    } else {
      j := k - 1;
      StepDone(s, a, id);
    }
  }

  /**
   Every reply sent in a run goes back to a request received before and to the engine's callback for
   it, and tells the client what that callback reported for that request, exactly unless the 32-bit
   length of its body wraps.
   */
  lemma SentIsTraced(acts: seq<Act>, states: seq<State>, k: nat, x: nat)
    requires Run(acts, states) && k < |states| && x < |states[k].sent|
    ensures var b := states[k].sent[x];
            exists i: nat, j: nat, r, c ::
              && BroughtIn(acts, states, i, b.id, r) && Completes(acts, states, j, b.id, c) && i < k && j < k
              && (ClientDecode(TypeOf(r), Some(b.bytes))
                  == (if r.Statfs? && !c.payload then StatfsDone(c.outcome.result, 0, 0)
                      else DirectCall(r, _ => c.outcome))
                  <==> !LengthWraps(r, c.outcome))
  {
    hide Run, ClientDecode, DirectCall, BroughtIn, Completes;
    var b := states[k].sent[x];
    SentIsTransparent(acts, states, k, x);
    var i := ReqsFrom(acts, states, k, b.id);
    var j := DoneFrom(acts, states, k, b.id);
  }
}
