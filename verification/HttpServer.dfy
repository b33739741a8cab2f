/**
 The HTTP server's connections (http_server.c): the life of one connection under any socket and
 parser behaviour, and the poll loop over the connection list.
 */
module HttpServer {

  datatype ConnState = Idle | Reading | Dispatching | Writing | Closing

  /** What conn_write_response meets. */
  datatype WriteEvent = SerializeFails | AllocFails | Queued | CompletesAtOnce

  /** What http_parser_feed reports; the parser may set keep_alive on the way. */
  datatype Feed = ParseError | NeedMore(keepAlive: bool) | RequestDone(keepAlive: bool)

  /** What one readable event meets: the clock, buffer growth, the bytes received, the parser, the write. */
  datatype ReadEvent = ReadEvent(now: nat, growOk: bool, received: int, feed: Feed, write: WriteEvent)

  /** One connection; failed and readAfterFailure are history. */
  datatype Snapshot = Snapshot(
    state: ConnState, writePending: bool, keepAlive: bool, lastActive: nat, failed: bool, readAfterFailure: bool)

  // ---------- transitions ----------

  /** The allocation part of http_conn_accept. */
  function NewConn(now: nat): Snapshot {
    Snapshot(Reading, false, false, now, false, false)
  }

  /** http_conn_on_write_done after the pending request is cleared. */
  function AfterWriteDone(s: Snapshot): Snapshot {
    s.(writePending := false, state := if s.keepAlive && s.state != Closing then Reading else Closing)
  }

  function AfterWrite(s: Snapshot, w: WriteEvent): Snapshot {
    match w
    case SerializeFails => s.(state := Closing)
    case AllocFails => s.(state := Closing)
    case Queued => s.(writePending := true, state := Writing)
    case CompletesAtOnce => AfterWriteDone(s.(writePending := true, state := Writing))
  }

  /** http_conn_on_readable, with the dispatch of a complete request. */
  function AfterReadable(s: Snapshot, e: ReadEvent): Snapshot {
    var t := s.(lastActive := e.now, readAfterFailure := s.readAfterFailure || s.failed);
    if !e.growOk || e.received <= 0 then t.(state := Closing)
    else
      match e.feed
      case ParseError => AfterWrite(t.(keepAlive := false, failed := true), e.write)
      case NeedMore(ka) => t.(keepAlive := ka)
      case RequestDone(ka) => AfterWrite(t.(keepAlive := ka, state := Dispatching), e.write)
  }

  /** A pending write that completes in this poll. */
  function Completed(s: Snapshot, done: bool): Snapshot {
    if done && s.writePending then AfterWriteDone(s) else s
  }

  /** The connection loop's visit: READING connections are read. */
  function Visited(s: Snapshot, e: ReadEvent): Snapshot {
    if s.state == Reading || s.state == Idle then AfterReadable(s, e) else s
  }

  const CLOCK := 0x1_0000_0000_0000_0000

  /** The time between two readings of the clock, in unsigned 64-bit arithmetic. */
  function Elapsed(since: nat, now: nat): nat {
    (now - since) % CLOCK
  }

  lemma ElapsedIsDifference(since: nat, now: nat)
    ensures since <= now < since + CLOCK ==> Elapsed(since, now) == now - since
    ensures now < since <= now + CLOCK ==> Elapsed(since, now) == now + CLOCK - since
  {
    if now < since <= now + CLOCK { assert now - since == -1 * CLOCK + (now + CLOCK - since); }
  }

  /** An incomplete request has been waited for too long. */
  predicate TimedOut(s: Snapshot, now: nat, requestTimeout: nat) {
    s.state == Reading && Elapsed(s.lastActive, now) > requestTimeout
  }

  // ---------- one connection ----------

  /**
   A write is pending exactly while WRITING, IDLE and DISPATCHING are never left behind, and a
   connection that met a parse error is only ever writing or closing and will not be kept.
   */
  predicate Good(s: Snapshot) {
    && (s.writePending <==> s.state == Writing)
    && s.state != Idle && s.state != Dispatching
    && (s.failed ==> !s.keepAlive && (s.state == Writing || s.state == Closing))
    && !s.readAfterFailure
  }

  lemma ReadableKeepsGood(s: Snapshot, e: ReadEvent)
    requires Good(s) && s.state == Reading
    ensures Good(AfterReadable(s, e))
  {
  }

  /** A connection that a visit leaves READING was read in that visit. */
  lemma VisitedIsActive(s: Snapshot, e: ReadEvent)
    requires Good(s) && Visited(s, e).state == Reading
    ensures Visited(s, e).lastActive == e.now
  {
  }

  /** The socket had bytes for the connection and there was room for them. */
  predicate Delivers(e: ReadEvent) {
    e.growOk && e.received > 0
  }

  /** A READING connection outlives a visit only if bytes arrived. */
  lemma SilenceCloses(s: Snapshot, e: ReadEvent)
    requires s.state == Reading && !Delivers(e)
    ensures Visited(s, e).state == Closing
  {
  }

  lemma WriteDoneKeepsGood(s: Snapshot)
    requires Good(s) && s.state == Writing
    ensures Good(AfterWriteDone(s))
  {
  }

  class Conn {
    var state: ConnState
    var writePending: bool
    var keepAlive: bool
    var lastActive: nat
    ghost var failed: bool
    ghost var readAfterFailure: bool

    ghost function Value(): (s: Snapshot)
      reads this
    {
      Snapshot(state, writePending, keepAlive, lastActive, failed, readAfterFailure)
    }

    constructor (now: nat)
      ensures Value() == NewConn(now)
    {
      state := Reading;
      writePending := false;
      keepAlive := false;
      lastActive := now;
      failed := false;
      readAfterFailure := false;
    }

    /** on_write_complete: the request is forgotten before the state moves. */
    method OnWriteComplete()
      modifies this
      ensures Value() == AfterWriteDone(old(Value()))
    {
      writePending := false;
      if keepAlive && state != Closing {
        state := Reading;
      } else {
        state := Closing;
      }
    }

    method WriteResponse(w: WriteEvent)
      modifies this
      ensures Value() == AfterWrite(old(Value()), w)
    {
      if w.SerializeFails? || w.AllocFails? {
        state := Closing;
        return;
      }
      writePending := true;
      state := Writing;
      if w.CompletesAtOnce? {
        OnWriteComplete();
      }
    }

    /** http_conn_dispatch: whatever route, signature and handler say, one response is written. */
    method Dispatch(w: WriteEvent)
      modifies this
      ensures Value() == AfterWrite(old(Value()).(state := Dispatching), w)
    {
      state := Dispatching;
      WriteResponse(w);
    }

    /** The poll's visit of one connection. */
    method Visit(e: ReadEvent)
      requires Good(Value())
      modifies this
      ensures Value() == Visited(old(Value()), e) && Good(Value())
    {
      if state == Reading || state == Idle {
        ReadableKeepsGood(Value(), e);
        OnReadable(e);
      }
    }

    method OnReadable(e: ReadEvent)
      modifies this
      ensures Value() == AfterReadable(old(Value()), e)
    {
      lastActive := e.now;
      readAfterFailure := readAfterFailure || failed;
      if !e.growOk {
        state := Closing;
        return;
      }
      if e.received <= 0 {
        state := Closing;
        return;
      }
      match e.feed {
        case ParseError =>
          failed := true;
          keepAlive := false;
          WriteResponse(e.write);
        case NeedMore(ka) =>
          keepAlive := ka;
        case RequestDone(ka) =>
          keepAlive := ka;
          Dispatch(e.write);
      }
    }
  }

  lemma GoodOpen(s: Snapshot)
    requires Good(s)
    ensures s.state == Reading || s.state == Writing || s.state == Closing
    ensures s.writePending <==> s.state == Writing
  {
  }

  // ---------- filtering a list ----------

  /** The first k elements without those not to be kept. */
  ghost function Filter<T>(xs: seq<T>, keep: seq<bool>, k: nat): seq<T>
    requires k <= |xs| == |keep|
  {
    if k == 0 then [] else Filter(xs, keep, k - 1) + (if keep[k - 1] then [xs[k - 1]] else [])
  }

  lemma {:induction false} FilterLengths<S, T>(xs: seq<S>, ys: seq<T>, keep: seq<bool>, k: nat)
    requires k <= |xs| == |ys| == |keep|
    ensures |Filter(xs, keep, k)| == |Filter(ys, keep, k)|
  {
    if k > 0 { FilterLengths(xs, ys, keep, k - 1); }
  }

  /** An element that is kept is found at the same place in any two lists filtered alike. */
  lemma {:induction false} FilterAt<S, T>(xs: seq<S>, ys: seq<T>, keep: seq<bool>, k: nat, i: nat) returns (q: nat)
    requires i < k <= |xs| == |ys| == |keep| && keep[i]
    ensures q < |Filter(xs, keep, k)| == |Filter(ys, keep, k)|
    ensures Filter(xs, keep, k)[q] == xs[i] && Filter(ys, keep, k)[q] == ys[i]
  {
    FilterLengths(xs, ys, keep, k - 1);
    if i == k - 1 {
      q := |Filter(xs, keep, k - 1)|;
    } else {
      q := FilterAt(xs, ys, keep, k - 1, i);
    }
  }

  /** What is found was kept. */
  lemma {:induction false} FilterFrom<T>(xs: seq<T>, keep: seq<bool>, k: nat, q: nat) returns (i: nat)
    requires k <= |xs| == |keep| && q < |Filter(xs, keep, k)|
    ensures i < k && keep[i] && Filter(xs, keep, k)[q] == xs[i]
  {
    if q < |Filter(xs, keep, k - 1)| {
      i := FilterFrom(xs, keep, k - 1, q);
    } else {
      i := k - 1;
    }
  }

  /** In a list without repeats an element stays exactly if it is kept. */
  lemma {:induction false} FilterIff<T>(xs: seq<T>, keep: seq<bool>, k: nat, i: nat)
    requires k <= |xs| == |keep| && i < |xs|
    requires forall x, y :: 0 <= x < y < |xs| ==> xs[x] != xs[y]
    ensures xs[i] in Filter(xs, keep, k) <==> i < k && keep[i]
  {
    if k > 0 { FilterIff(xs, keep, k - 1, i); }
  }

  lemma {:induction false} FilterAll<T>(xs: seq<T>, keep: seq<bool>, k: nat)
    requires k <= |xs| == |keep| && forall i :: 0 <= i < k ==> keep[i]
    ensures Filter(xs, keep, k) == xs[..k]
  {
    if k > 0 { FilterAll(xs, keep, k - 1); }
  }

  /** Dropping or replacing the element after a kept prefix. */
  lemma JoinNext<T>(kept: seq<T>, all: seq<T>, k: nat, x: T)
    requires k < |all|
    ensures Without(kept + all[k..], |kept|) == kept + all[k + 1..]
    ensures (kept + all[k..])[|kept|] == all[k]
    ensures (kept + all[k..])[|kept| := x] == (kept + [x]) + all[k + 1..]
    ensures kept + all[k..] == (kept + [all[k]]) + all[k + 1..]
    ensures kept + [] == kept
  {
  }

  function Without<T>(s: seq<T>, p: nat): seq<T>
    requires p < |s|
  {
    s[..p] + s[p + 1..]
  }

  // ---------- a poll on values ----------

  /** One socket to accept: whether memory is found for it, and the clock. */
  datatype Arrival = Arrival(allocOk: bool, now: nat)

  /**
   What one poll meets: finished writes, new sockets, one event per readable connection, the clock
   after the connection loop, and the clock in check_timeouts.
   */
  datatype PollEvent = PollEvent(
    completions: set<nat>,
    arrivals: seq<Arrival>,
    readables: nat -> ReadEvent,
    now: nat,
    timeoutNow: nat)

  ghost function AllCompleted(vals: seq<Snapshot>, completions: set<nat>): (r: seq<Snapshot>)
    ensures |r| == |vals| && forall i :: 0 <= i < |r| ==> r[i] == Completed(vals[i], i in completions)
  {
    seq(|vals|, i requires 0 <= i < |vals| => Completed(vals[i], i in completions))
  }

  /** New connections, while there is room for them. */
  ghost function Arrived(vals: seq<Snapshot>, arrivals: seq<Arrival>, max: nat): seq<Snapshot> {
    if arrivals == [] then vals
    else
      var r, a := Arrived(vals, arrivals[..|arrivals| - 1], max), arrivals[|arrivals| - 1];
      if |r| < max && a.allocOk then r + [NewConn(a.now)] else r
  }

  /** How many sockets could be given a connection. */
  ghost function Allocated(arrivals: seq<Arrival>): nat {
    if arrivals == [] then 0
    else Allocated(arrivals[..|arrivals| - 1]) + (if arrivals[|arrivals| - 1].allocOk then 1 else 0)
  }

  ghost function AllVisited(vals: seq<Snapshot>, readables: nat -> ReadEvent): (r: seq<Snapshot>)
    ensures |r| == |vals| && forall i :: 0 <= i < |r| ==> r[i] == Visited(vals[i], readables(i))
  {
    seq(|vals|, i requires 0 <= i < |vals| => Visited(vals[i], readables(i)))
  }

  ghost function NotClosing(vals: seq<Snapshot>): (r: seq<bool>)
    ensures |r| == |vals| && forall i :: 0 <= i < |r| ==> r[i] == (vals[i].state != Closing)
  {
    seq(|vals|, i requires 0 <= i < |vals| => vals[i].state != Closing)
  }

  ghost function InTime(vals: seq<Snapshot>, now: nat, requestTimeout: nat): (r: seq<bool>)
    ensures |r| == |vals| && forall i :: 0 <= i < |r| ==> r[i] == !TimedOut(vals[i], now, requestTimeout)
  {
    seq(|vals|, i requires 0 <= i < |vals| => !TimedOut(vals[i], now, requestTimeout))
  }

  /** The connections after the connection loop: read where READING, without those left CLOSING. */
  ghost function Served(vals: seq<Snapshot>, readables: nat -> ReadEvent): seq<Snapshot> {
    var visited := AllVisited(vals, readables);
    Filter(visited, NotClosing(visited), |vals|)
  }

  /** The timeouts are looked at once a second. */
  predicate Due(lastCheck: nat, now: nat) {
    Elapsed(lastCheck, now) >= 1000
  }

  /** The connections of a server and the time of its last timeout check. */
  datatype ServerValue = ServerValue(conns: seq<Snapshot>, lastCheck: nat)

  /** http_server_poll.  The keep-alive timeout is no argument: it has no effect. */
  ghost function PollValue(v: ServerValue, e: PollEvent, max: nat, requestTimeout: nat): ServerValue {
    var served := Served(Arrived(AllCompleted(v.conns, e.completions), e.arrivals, max), e.readables);
    if Due(v.lastCheck, e.now) then
      ServerValue(Filter(served, InTime(served, e.timeoutNow, requestTimeout), |served|), e.now)
    else ServerValue(served, v.lastCheck)
  }

  ghost function RunValue(events: seq<PollEvent>, max: nat, requestTimeout: nat): ServerValue {
    if events == [] then ServerValue([], 0)
    else PollValue(RunValue(events[..|events| - 1], max, requestTimeout), events[|events| - 1], max, requestTimeout)
  }

  /**
   Where connection i is left by its visit keeps it on the list: not CLOSING, and not READING when
   the timeouts are checked more than the request timeout after its read in this very poll.
   */
  predicate StaysListed(s: Snapshot, e: PollEvent, i: nat, due: bool, requestTimeout: nat) {
    s.state != Closing && !(due && s.state == Reading && Elapsed(e.readables(i).now, e.timeoutNow) > requestTimeout)
  }

  ghost predicate AllGood(vals: seq<Snapshot>) {
    forall i :: 0 <= i < |vals| ==> Good(vals[i])
  }

  /** The poll looks at the timeouts no more than the request timeout after each read. */
  ghost predicate Prompt(e: PollEvent, requestTimeout: nat) {
    forall i: nat :: Elapsed(e.readables(i).now, e.timeoutNow) <= requestTimeout
  }

  /** In a prompt poll check_timeouts closes nothing. */
  lemma PromptPollKeepsAll(vals: seq<Snapshot>, e: PollEvent, requestTimeout: nat)
    requires AllGood(vals) && Prompt(e, requestTimeout)
    ensures var served := Served(vals, e.readables);
            Filter(served, InTime(served, e.timeoutNow, requestTimeout), |served|) == served
  {
    hide Good, Visited, Filter;
    var visited := AllVisited(vals, e.readables);
    var served := Served(vals, e.readables);
    forall q | 0 <= q < |served| ensures !TimedOut(served[q], e.timeoutNow, requestTimeout) {
      var i := FilterFrom(visited, NotClosing(visited), |vals|, q);
      if served[q].state == Reading { VisitedIsActive(vals[i], e.readables(i)); }
    }
    FilterAll(served, InTime(served, e.timeoutNow, requestTimeout), |served|);
  }

  lemma {:induction false} ArrivedGood(vals: seq<Snapshot>, arrivals: seq<Arrival>, max: nat)
    requires AllGood(vals)
    ensures AllGood(Arrived(vals, arrivals, max))
  {
    if arrivals != [] { ArrivedGood(vals, arrivals[..|arrivals| - 1], max); }
  }

  lemma CompletedGood(vals: seq<Snapshot>, completions: set<nat>)
    requires AllGood(vals)
    ensures AllGood(AllCompleted(vals, completions))
  {
  }

  lemma FilterGood(vals: seq<Snapshot>, keep: seq<bool>)
    requires AllGood(vals) && |keep| == |vals|
    ensures AllGood(Filter(vals, keep, |vals|))
  {
    hide Good, Filter;
    var r := Filter(vals, keep, |vals|);
    forall q | 0 <= q < |r| ensures Good(r[q]) { var i := FilterFrom(vals, keep, |vals|, q); }
  }

  lemma ServedGood(vals: seq<Snapshot>, readables: nat -> ReadEvent)
    requires AllGood(vals)
    ensures AllGood(Served(vals, readables))
  {
    hide Filter;
    var visited := AllVisited(vals, readables);
    forall i | 0 <= i < |visited| ensures Good(visited[i]) {
      if vals[i].state == Reading { ReadableKeepsGood(vals[i], readables(i)); }
    }
    FilterGood(visited, NotClosing(visited));
  }

  lemma {:induction false} RunGood(events: seq<PollEvent>, max: nat, requestTimeout: nat)
    ensures AllGood(RunValue(events, max, requestTimeout).conns)
  {
    hide Good, Filter, Arrived, AllCompleted, Served, Due;
    if events != [] {
      var e := events[|events| - 1];
      var v := RunValue(events[..|events| - 1], max, requestTimeout);
      RunGood(events[..|events| - 1], max, requestTimeout);
      CompletedGood(v.conns, e.completions);
      ArrivedGood(AllCompleted(v.conns, e.completions), e.arrivals, max);
      var vals := Arrived(AllCompleted(v.conns, e.completions), e.arrivals, max);
      ServedGood(vals, e.readables);
      var served := Served(vals, e.readables);
      FilterGood(served, InTime(served, e.timeoutNow, requestTimeout));
    }
  }

  /**
   The request timeout acts only through slow polls: in any run of prompt polls, any longer timeout
   gives the same connections.  How long a connection has been without a complete request plays no part.
   */
  lemma {:induction false} PromptRunsNeverTimeOut(events: seq<PollEvent>, max: nat, requestTimeout: nat, longer: nat)
    requires requestTimeout <= longer && forall i :: 0 <= i < |events| ==> Prompt(events[i], requestTimeout)
    ensures RunValue(events, max, requestTimeout) == RunValue(events, max, longer)
  {
    if events != [] {
      var e := events[|events| - 1];
      var v := RunValue(events[..|events| - 1], max, requestTimeout);
      PromptRunsNeverTimeOut(events[..|events| - 1], max, requestTimeout, longer);
      RunGood(events[..|events| - 1], max, requestTimeout);
      hide Good, Filter, Arrived, AllCompleted, Served, Due;
      CompletedGood(v.conns, e.completions);
      ArrivedGood(AllCompleted(v.conns, e.completions), e.arrivals, max);
      var vals := Arrived(AllCompleted(v.conns, e.completions), e.arrivals, max);
      assert Prompt(e, requestTimeout) && Prompt(e, longer);
      PromptPollKeepsAll(vals, e, requestTimeout);
      PromptPollKeepsAll(vals, e, longer);
    }
  }

  // ---------- polls in which nothing arrives ----------

  ghost function StillWriting(vals: seq<Snapshot>): (r: seq<bool>)
    ensures |r| == |vals| && forall i :: 0 <= i < |r| ==> r[i] == (vals[i].state == Writing)
  {
    seq(|vals|, i requires 0 <= i < |vals| => vals[i].state == Writing)
  }

  lemma {:induction false} SameFilter<T>(xs: seq<T>, ys: seq<T>, keep: seq<bool>, also: seq<bool>, k: nat)
    requires k <= |xs| == |keep| && k <= |ys| == |also|
    requires forall i :: 0 <= i < k ==> keep[i] == also[i] && (keep[i] ==> xs[i] == ys[i])
    ensures Filter(xs, keep, k) == Filter(ys, also, k)
  {
    if k > 0 { SameFilter(xs, ys, keep, also, k - 1); }
  }

  /** The connection loop then leaves the writers alone and closes everyone else. */
  lemma SilentServe(vals: seq<Snapshot>, readables: nat -> ReadEvent)
    requires AllGood(vals) && forall i: nat :: !Delivers(readables(i))
    ensures Served(vals, readables) == Filter(vals, StillWriting(vals), |vals|)
  {
    hide Filter;
    var visited := AllVisited(vals, readables);
    forall i | 0 <= i < |vals|
      ensures (visited[i].state != Closing <==> vals[i].state == Writing)
              && (vals[i].state == Writing ==> visited[i] == vals[i])
    {
      if vals[i].state == Reading { SilenceCloses(vals[i], readables(i)); }
    }
    SameFilter(visited, vals, NotClosing(visited), StillWriting(vals), |vals|);
  }

  lemma {:induction false} NewcomersDoNotWrite(vals: seq<Snapshot>, arrivals: seq<Arrival>, max: nat)
    ensures var all := Arrived(vals, arrivals, max);
            Filter(all, StillWriting(all), |all|) == Filter(vals, StillWriting(vals), |vals|)
  {
    if arrivals != [] {
      var rest := Arrived(vals, arrivals[..|arrivals| - 1], max);
      NewcomersDoNotWrite(vals, arrivals[..|arrivals| - 1], max);
      var all := Arrived(vals, arrivals, max);
      if all != rest {
        SameFilter(all, rest, StillWriting(all), StillWriting(rest), |rest|);
      }
    }
  }

  /**
   A poll in which no socket has bytes closes every connection that is not still writing a response,
   kept alive or just accepted, whatever the timeouts.
   */
  lemma SilentPollLeavesWriters(events: seq<PollEvent>, e: PollEvent, max: nat, requestTimeout: nat)
    requires forall i: nat :: !Delivers(e.readables(i))
    ensures var done := AllCompleted(RunValue(events, max, requestTimeout).conns, e.completions);
            RunValue(events + [e], max, requestTimeout).conns == Filter(done, StillWriting(done), |done|)
  {
    var v := RunValue(events, max, requestTimeout);
    assert (events + [e])[..|events|] == events;
    hide RunValue, Good, Filter, Arrived, Due;
    RunGood(events, max, requestTimeout);
    CompletedGood(v.conns, e.completions);
    var done := AllCompleted(v.conns, e.completions);
    ArrivedGood(done, e.arrivals, max);
    var vals := Arrived(done, e.arrivals, max);
    SilentServe(vals, e.readables);
    NewcomersDoNotWrite(done, e.arrivals, max);
    var served := Served(vals, e.readables);
    forall q | 0 <= q < |served| ensures !TimedOut(served[q], e.timeoutNow, requestTimeout) {
      var i := FilterFrom(vals, StillWriting(vals), |vals|, q);
    }
    FilterAll(served, InTime(served, e.timeoutNow, requestTimeout), |served|);
  }

  // ---------- the server ----------

  class Server {
    const max: nat
    const requestTimeout: nat
    const keepAliveTimeout: nat
    var conns: seq<Conn>
    var count: nat
    var lastCheck: nat

    /** The list is counted, bounded, without repeats, and every connection on it is well-formed. */
    ghost predicate Valid()
      reads this, conns
    {
      && count == |conns| <= max
      && (forall i, j :: 0 <= i < j < |conns| ==> conns[i] != conns[j])
      && (forall i :: 0 <= i < |conns| ==> Good(conns[i].Value()))
    }

    /** Connections up to n are READING or WRITING. */
    ghost predicate SettledTo(n: nat)
      reads this, conns
      requires n <= |conns|
    {
      forall i :: 0 <= i < n ==> conns[i].state == Reading || conns[i].state == Writing
    }

    /** The value of every connection on the list. */
    ghost function Values(): (r: seq<Snapshot>)
      reads this, conns
      ensures |r| == |conns| && forall i :: 0 <= i < |r| ==> r[i] == conns[i].Value()
    {
      seq(|conns|, i requires 0 <= i < |conns| reads this, conns => conns[i].Value())
    }

    ghost function Value(): ServerValue
      reads this, conns
    {
      ServerValue(Values(), lastCheck)
    }

    constructor (max: nat, requestTimeout: nat, keepAliveTimeout: nat)
      ensures Valid() && conns == [] && lastCheck == 0
      ensures this.max == max && this.requestTimeout == requestTimeout
    {
      this.max := max;
      this.requestTimeout := requestTimeout;
      this.keepAliveTimeout := keepAliveTimeout;
      conns := [];
      count := 0;
      lastCheck := 0;
    }

    /** http_conn_accept: over capacity or out of memory, no connection is made. */
    method Accept(a: Arrival)
      requires Valid()
      modifies this
      ensures Valid() && lastCheck == old(lastCheck)
      ensures if old(count) < max && a.allocOk
              then |conns| == |old(conns)| + 1 && conns[..|old(conns)|] == old(conns)
                   && fresh(conns[|old(conns)|]) && Values() == old(Values()) + [NewConn(a.now)]
              else conns == old(conns) && Values() == old(Values())
    {
      if count >= max {
        return;
      }
      if !a.allocOk {
        return;
      }
      var conn := new Conn(a.now);
      conns := conns + [conn];
      count := count + 1;
    }

    /** http_conn_close: the connection leaves the list; no write is pending on it. */
    method Close(p: nat)
      requires Valid() && p < |conns| && !conns[p].writePending
      modifies this
      ensures Valid() && lastCheck == old(lastCheck)
      ensures conns == Without(old(conns), p)
      ensures Values() == Without(old(Values()), p)
    {
      conns := conns[..p] + conns[p + 1..];
      count := count - 1;
    }

    /** spdk_sock_group_poll: some of the pending writes complete. */
    method CompleteWrites(completions: set<nat>)
      requires Valid()
      modifies conns
      ensures Valid() && conns == old(conns)
      ensures Values() == AllCompleted(old(Values()), completions)
    {
      hide Good, Completed;
      ghost var before := Values();
      var i := 0;
      while i < |conns|
        invariant 0 <= i <= |conns| && Valid()
        invariant forall j :: 0 <= j < i ==> conns[j].Value() == Completed(before[j], j in completions)
        invariant forall j :: i <= j < |conns| ==> conns[j].Value() == before[j]
      {
        CompletedIs(conns[i].Value(), i in completions);
        if i in completions && conns[i].writePending {
          GoodOpen(conns[i].Value());
          WriteDoneKeepsGood(conns[i].Value());
          conns[i].OnWriteComplete();
        }
        i := i + 1;
      }
    }

    method AcceptAll(arrivals: seq<Arrival>)
      requires Valid()
      modifies this
      ensures Valid() && lastCheck == old(lastCheck)
      ensures |old(conns)| <= |conns| && conns[..|old(conns)|] == old(conns)
      ensures |conns| == if |old(conns)| + Allocated(arrivals) <= max then |old(conns)| + Allocated(arrivals) else max
      ensures Values() == Arrived(old(Values()), arrivals, max)
      ensures forall i :: |old(conns)| <= i < |conns| ==> fresh(conns[i])
    {
      hide Good;
      var i := 0;
      while i < |arrivals|
        invariant 0 <= i <= |arrivals| && Valid() && lastCheck == old(lastCheck)
        invariant |old(conns)| <= |conns| && conns[..|old(conns)|] == old(conns)
        invariant |conns| == if |old(conns)| + Allocated(arrivals[..i]) <= max then |old(conns)| + Allocated(arrivals[..i]) else max
        invariant Values() == Arrived(old(Values()), arrivals[..i], max)
        invariant forall i :: |old(conns)| <= i < |conns| ==> fresh(conns[i])
      {
        ghost var before := conns;
        assert arrivals[..i + 1][..i] == arrivals[..i];
        Accept(arrivals[i]);
        assert forall j :: 0 <= j < |before| ==> conns[j] == before[j];
        i := i + 1;
      }
      assert arrivals[..i] == arrivals;
    }

    /** The start of the poll: writes complete, then sockets are accepted. */
    method Gather(e: PollEvent)
      requires Valid()
      modifies this, conns
      ensures Valid() && AllGood(Values()) && lastCheck == old(lastCheck)
      ensures old(conns) <= conns && forall i :: |old(conns)| <= i < |conns| ==> fresh(conns[i])
      ensures Values() == Arrived(AllCompleted(old(Values()), e.completions), e.arrivals, max)
    {
      hide Good, Completed, Arrived, Allocated;
      CompleteWrites(e.completions);
      AcceptAll(e.arrivals);
    }

    /** One round of the connection loop: visit the connection at p and close it if it is CLOSING. */
    method VisitAt(p: nat, e: ReadEvent) returns (closed: bool)
      requires Valid() && p < |conns|
      modifies this, conns[p]
      ensures Valid() && lastCheck == old(lastCheck)
      ensures closed <==> Visited(old(Values())[p], e).state == Closing
      ensures conns == if closed then Without(old(conns), p) else old(conns)
      ensures Values() == if closed then Without(old(Values()), p) else old(Values())[p := Visited(old(Values())[p], e)]
    {
      hide Good, Visited;
      ghost var was := Values();
      var conn := conns[p];
      conn.Visit(e);
      GoodOpen(conn.Value());
      assert Values() == was[p := Visited(was[p], e)];
      closed := conn.state == Closing;
      if closed {
        Close(p);
      }
    }

    /** One round of check_timeouts. */
    method ExpireAt(p: nat, now: nat) returns (closed: bool)
      requires Valid() && p < |conns|
      modifies this
      ensures Valid() && lastCheck == old(lastCheck)
      ensures closed <==> TimedOut(old(Values())[p], now, requestTimeout)
      ensures conns == if closed then Without(old(conns), p) else old(conns)
      ensures Values() == if closed then Without(old(Values()), p) else old(Values())
    {
      var idle := Elapsed(conns[p].lastActive, now);
      GoodOpen(conns[p].Value());
      closed := (conns[p].state == Reading && idle > requestTimeout) || (conns[p].state == Idle && idle > keepAliveTimeout);
      if closed {
        Close(p);
      }
    }

    /** After k rounds: the kept ones among the first k, with their new values, then the rest untouched. */
    ghost predicate Progress(all: seq<Conn>, was: seq<Snapshot>, next: seq<Snapshot>, keep: seq<bool>, p: nat, k: nat)
      reads this, conns
    {
      && k <= |all| == |was| == |next| == |keep|
      && p == |Filter(all, keep, k)| == |Filter(next, keep, k)| <= |conns|
      && conns == Filter(all, keep, k) + all[k..]
      && Values() == Filter(next, keep, k) + was[k..]
    }

    lemma StartRounds(next: seq<Snapshot>, keep: seq<bool>)
      requires |conns| == |next| == |keep|
      ensures Progress(conns, Values(), next, keep, 0, 0)
    {
    }

    lemma EndRounds(all: seq<Conn>, was: seq<Snapshot>, next: seq<Snapshot>, keep: seq<bool>, p: nat, k: nat)
      requires Progress(all, was, next, keep, p, k) && p == |conns|
      ensures k == |all| && conns == Filter(all, keep, |all|) && Values() == Filter(next, keep, |all|)
    {
      hide Filter;
    }

    /** The connection loop of the poll: read where READING, then close what is CLOSING. */
    method ServeConnections(readables: nat -> ReadEvent)
      requires Valid()
      modifies this, conns
      ensures Valid() && SettledTo(|conns|) && lastCheck == old(lastCheck)
      ensures conns == Filter(old(conns), NotClosing(AllVisited(old(Values()), readables)), |old(conns)|)
      ensures Values() == Served(old(Values()), readables)
    {
      ghost var all, was := conns, Values();
      ghost var next := AllVisited(was, readables);
      ghost var keep := NotClosing(next);
      StartRounds(next, keep);
      hide Good, Visited, Filter, Progress;
      var p: nat, k: nat := 0, 0;
      while p < |conns|
        invariant Valid() && p <= |conns| && Progress(all, was, next, keep, p, k) && lastCheck == old(lastCheck)
        invariant forall c :: c in conns ==> c in old(conns)
        decreases |conns| - p
      {
        assert conns[p] in conns;
        p := ServeRound(all, was, readables, p, k);
        k := k + 1;
      }
      EndRounds(all, was, next, keep, p, k);
      OpenIsSettled(next, keep);
    }

    method ServeRound(ghost all: seq<Conn>, ghost was: seq<Snapshot>, readables: nat -> ReadEvent, p: nat, k: nat)
      returns (p': nat)
      requires Valid() && p < |conns|
      requires Progress(all, was, AllVisited(was, readables), NotClosing(AllVisited(was, readables)), p, k)
      modifies this, conns[p]
      ensures Valid() && p' <= |conns| && |conns| - p' == |old(conns)| - p - 1 && lastCheck == old(lastCheck)
      ensures Progress(all, was, AllVisited(was, readables), NotClosing(AllVisited(was, readables)), p', k + 1)
      ensures forall c :: c in conns ==> c in old(conns)
    {
      hide Good, Visited, Filter;
      ghost var next := AllVisited(was, readables);
      NextRound(all, was, next, NotClosing(next), k);
      var closed := VisitAt(p, readables(k));
      p' := if closed then p else p + 1;
    }

    lemma OpenIsSettled(next: seq<Snapshot>, keep: seq<bool>)
      requires Valid() && |next| == |keep| && Values() == Filter(next, keep, |next|)
      requires forall i :: 0 <= i < |keep| ==> keep[i] ==> next[i].state != Closing
      ensures SettledTo(|conns|)
    {
      hide Good, Filter;
      forall q | 0 <= q < |conns| ensures conns[q].state == Reading || conns[q].state == Writing {
        var i := FilterFrom(next, keep, |next|, q);
        assert Values()[q].state != Closing;
        GoodOpen(conns[q].Value());
      }
    }

    /** check_timeouts: close the connections that have expired. */
    method CheckTimeouts(now: nat)
      requires Valid()
      modifies this
      ensures Valid() && lastCheck == old(lastCheck)
      ensures conns == Filter(old(conns), InTime(old(Values()), now, requestTimeout), |old(conns)|)
      ensures Values() == Filter(old(Values()), InTime(old(Values()), now, requestTimeout), |old(conns)|)
    {
      hide Good, Filter, Progress, TimedOut;
      ghost var all, was := conns, Values();
      ghost var keep := InTime(was, now, requestTimeout);
      StartRounds(was, keep);
      var p: nat, k: nat := 0, 0;
      while p < |conns|
        invariant Valid() && p <= |conns| && Progress(all, was, was, keep, p, k) && lastCheck == old(lastCheck)
        decreases |conns| - p
      {
        p := ExpireRound(all, was, now, p, k);
        k := k + 1;
      }
      EndRounds(all, was, was, keep, p, k);
    }

    /** The end of the poll: the timeouts are checked once a second. */
    method CheckWhenDue(now: nat, timeoutNow: nat)
      requires Valid() && SettledTo(|conns|)
      modifies this
      ensures Valid() && SettledTo(|conns|)
      ensures lastCheck == if Due(old(lastCheck), now) then now else old(lastCheck)
      ensures conns == if Due(old(lastCheck), now)
                       then Filter(old(conns), InTime(old(Values()), timeoutNow, requestTimeout), |old(conns)|) else old(conns)
      ensures Values() == if Due(old(lastCheck), now)
                          then Filter(old(Values()), InTime(old(Values()), timeoutNow, requestTimeout), |old(conns)|)
                          else old(Values())
    {
      hide Good, Filter, TimedOut, Elapsed;
      ghost var was := Values();
      assert forall i :: 0 <= i < |was| ==> was[i].state != Closing;
      if Elapsed(lastCheck, now) >= 1000 {
        CheckTimeouts(timeoutNow);
        OpenIsSettled(was, InTime(was, timeoutNow, requestTimeout));
        lastCheck := now;
      }
    }

    method ExpireRound(ghost all: seq<Conn>, ghost was: seq<Snapshot>, now: nat, p: nat, k: nat) returns (p': nat)
      requires Valid() && p < |conns| && Progress(all, was, was, InTime(was, now, requestTimeout), p, k)
      modifies this
      ensures Valid() && p' <= |conns| && |conns| - p' == |old(conns)| - p - 1 && lastCheck == old(lastCheck)
      ensures Progress(all, was, was, InTime(was, now, requestTimeout), p', k + 1)
    {
      hide Good, Filter, TimedOut;
      ghost var keep := InTime(was, now, requestTimeout);
      NextRound(all, was, was, keep, k);
      ghost var v := Values();
      var closed := ExpireAt(p, now);
      assert v[p := was[k]] == v;
      p' := if closed then p else p + 1;
    }

    /**
     http_server_poll.  The list afterwards is that of PollValue: counted, bounded, every connection
     READING or WRITING.  A connection listed before has had its write completed, then been read if
     READING, and is off the list exactly if that left it CLOSING or it was read too long before a
     timeout check that was due.  If it was READING it stays only if bytes arrived in this poll.
     */
    method Poll(e: PollEvent)
      requires Valid()
      modifies this, conns
      ensures Valid() && SettledTo(|conns|)
      ensures Value() == PollValue(old(Value()), e, max, requestTimeout)
      ensures forall c :: c in conns ==> c in old(conns) || fresh(c)
      ensures forall i :: 0 <= i < |old(conns)| ==>
                var s := Visited(Completed(old(Values())[i], i in e.completions), e.readables(i));
                var c := old(conns)[i];
                && (c in conns <==> StaysListed(s, e, i, Due(old(lastCheck), e.now), requestTimeout))
                && (c in conns ==> c.Value() == s)
                && (c in conns && Completed(old(Values())[i], i in e.completions).state == Reading ==>
                      Delivers(e.readables(i)))
    {
      hide Good, Completed, Visited, Filter, TimedOut, Elapsed, Arrived, Due, SettledTo, StaysListed;
      ghost var all, was := conns, Values();
      Gather(e);
      ghost var mid, vals := conns, Values();
      ghost var due := Due(lastCheck, e.now);
      assert forall c :: c in mid ==> c in all || fresh(c);
      ghost var served := ServeAndCheck(e);
      PollOutcome(all, was, e, mid, vals, served, Served(vals, e.readables), conns, Values(), due, max, requestTimeout);
      assert forall q :: 0 <= q < |conns| ==> Values()[q] == conns[q].Value();
    }

    /** The rest of the poll; served is the list between the connection loop and the timeouts. */
    method ServeAndCheck(e: PollEvent) returns (ghost served: seq<Conn>)
      requires Valid()
      modifies this, conns
      ensures Valid() && SettledTo(|conns|)
      ensures lastCheck == if Due(old(lastCheck), e.now) then e.now else old(lastCheck)
      ensures served == Filter(old(conns), NotClosing(AllVisited(old(Values()), e.readables)), |old(conns)|)
      ensures forall x, y :: 0 <= x < y < |served| ==> served[x] != served[y]
      ensures var left := Served(old(Values()), e.readables);
              && |left| == |served|
              && conns == (if Due(old(lastCheck), e.now)
                           then Filter(served, InTime(left, e.timeoutNow, requestTimeout), |left|) else served)
              && Values() == (if Due(old(lastCheck), e.now)
                              then Filter(left, InTime(left, e.timeoutNow, requestTimeout), |left|) else left)
    {
      hide Good, Visited, Filter, TimedOut, Due, SettledTo;
      ServeConnections(e.readables);
      served := conns;
      CheckWhenDue(e.now, e.timeoutNow);
    }
  }

  /** From the lists the three loops leave to what has become of each connection. */
  lemma PollOutcome(all: seq<Conn>, was: seq<Snapshot>, e: PollEvent, mid: seq<Conn>, vals: seq<Snapshot>,
                    served: seq<Conn>, left: seq<Snapshot>, final: seq<Conn>, values: seq<Snapshot>,
                    due: bool, max: nat, requestTimeout: nat)
    requires |all| == |was| && |mid| == |vals| && all <= mid && AllGood(vals)
    requires vals == Arrived(AllCompleted(was, e.completions), e.arrivals, max)
    requires forall x, y :: 0 <= x < y < |mid| ==> mid[x] != mid[y]
    requires forall x, y :: 0 <= x < y < |served| ==> served[x] != served[y]
    requires forall x, y :: 0 <= x < y < |final| ==> final[x] != final[y]
    requires |served| == |left| && |final| == |values|
    requires served == Filter(mid, NotClosing(AllVisited(vals, e.readables)), |mid|) && left == Served(vals, e.readables)
    requires final == if due then Filter(served, InTime(left, e.timeoutNow, requestTimeout), |served|) else served
    requires values == if due then Filter(left, InTime(left, e.timeoutNow, requestTimeout), |served|) else left
    ensures forall c :: c in final ==> c in mid
    ensures forall i :: 0 <= i < |all| ==>
              var s := Visited(Completed(was[i], i in e.completions), e.readables(i));
              && (all[i] in final <==> StaysListed(s, e, i, due, requestTimeout))
              && (all[i] in final && Completed(was[i], i in e.completions).state == Reading ==> Delivers(e.readables(i)))
    ensures forall i, q :: 0 <= i < |all| && 0 <= q < |final| && final[q] == all[i] ==>
              values[q] == Visited(Completed(was[i], i in e.completions), e.readables(i))
  {
    hide Good, Completed, Visited, Filter, TimedOut, Elapsed, Arrived;
    var visited := AllVisited(vals, e.readables);
    ArrivedPrefix(AllCompleted(was, e.completions), e.arrivals, max);
    forall i | 0 <= i < |all|
      ensures var s := Visited(Completed(was[i], i in e.completions), e.readables(i));
              && (all[i] in final <==> StaysListed(s, e, i, due, requestTimeout))
              && (all[i] in final && Completed(was[i], i in e.completions).state == Reading ==> Delivers(e.readables(i)))
              && (forall q :: 0 <= q < |final| && final[q] == all[i] ==> values[q] == s)
    {
      assert all[i] == mid[i] && vals[i] == Completed(was[i], i in e.completions);
      var q := TwoFilters(mid, visited, served, left, final, values, due, e.timeoutNow, requestTimeout, i);
      LateIff(vals[i], e.readables(i), e.timeoutNow, requestTimeout);
      if vals[i].state == Reading && !Delivers(e.readables(i)) { SilenceCloses(vals[i], e.readables(i)); }
    }
    OnlyListed(mid, NotClosing(visited), served, final, left, due, e.timeoutNow, requestTimeout);
  }

  lemma CompletedIs(s: Snapshot, done: bool)
    ensures Completed(s, done) == if done && s.writePending then AfterWriteDone(s) else s
  {
  }

  lemma LateIff(s: Snapshot, e: ReadEvent, now: nat, requestTimeout: nat)
    requires Good(s)
    ensures TimedOut(Visited(s, e), now, requestTimeout) <==>
            Visited(s, e).state == Reading && Elapsed(e.now, now) > requestTimeout
  {
    if Visited(s, e).state == Reading { VisitedIsActive(s, e); }
  }

  lemma {:induction false} ArrivedPrefix(vals: seq<Snapshot>, arrivals: seq<Arrival>, max: nat)
    ensures vals <= Arrived(vals, arrivals, max)
  {
    if arrivals != [] { ArrivedPrefix(vals, arrivals[..|arrivals| - 1], max); }
  }

  /** What one round does to the kept prefix and the rest. */
  lemma NextRound(all: seq<Conn>, was: seq<Snapshot>, next: seq<Snapshot>, keep: seq<bool>, k: nat)
    requires k < |all| == |was| == |next| == |keep|
    ensures var a, v := Filter(all, keep, k), Filter(next, keep, k);
            var a', v' := Filter(all, keep, k + 1), Filter(next, keep, k + 1);
            && |a| == |v| && (v + was[k..])[|v|] == was[k]
            && (!keep[k] ==>
                  && a' == a && v' == v
                  && Without(a + all[k..], |a|) == a + all[k + 1..]
                  && Without(v + was[k..], |v|) == v + was[k + 1..])
            && (keep[k] ==>
                  && |a'| == |v'| == |a| + 1
                  && a + all[k..] == a' + all[k + 1..]
                  && (v + was[k..])[|v| := next[k]] == v' + was[k + 1..])
  {
    hide Without;
    FilterLengths(all, next, keep, k);
    var a, v := Filter(all, keep, k), Filter(next, keep, k);
    assert Filter(all, keep, k + 1) == a + (if keep[k] then [all[k]] else []);
    assert Filter(next, keep, k + 1) == v + (if keep[k] then [next[k]] else []);
    hide Filter;
    JoinNext(a, all, k, all[k]);
    JoinNext(v, was, k, next[k]);
  }

  /** A connection is on the list after both loops exactly if neither dropped it, and with the value the first left. */
  lemma TwoFilters(mid: seq<Conn>, visited: seq<Snapshot>, served: seq<Conn>, left: seq<Snapshot>,
                   final: seq<Conn>, values: seq<Snapshot>, due: bool, now: nat, requestTimeout: nat, i: nat)
    returns (q: nat)
    requires i < |mid| == |visited| && |served| == |left|
    requires forall x, y :: 0 <= x < y < |mid| ==> mid[x] != mid[y]
    requires forall x, y :: 0 <= x < y < |served| ==> served[x] != served[y]
    requires served == Filter(mid, NotClosing(visited), |mid|) && left == Filter(visited, NotClosing(visited), |mid|)
    requires final == if due then Filter(served, InTime(left, now, requestTimeout), |served|) else served
    requires values == if due then Filter(left, InTime(left, now, requestTimeout), |served|) else left
    ensures mid[i] in final <==> NotClosing(visited)[i] && !(due && TimedOut(visited[i], now, requestTimeout))
    ensures mid[i] in final ==> q < |final| == |values| && final[q] == mid[i] && values[q] == visited[i]
  {
    hide Filter, TimedOut;
    var open, keep := NotClosing(visited), InTime(left, now, requestTimeout);
    FilterIff(mid, open, |mid|, i);
    q := 0;
    if open[i] {
      q := FilterAt(mid, visited, open, |mid|, i);
      if due {
        FilterIff(served, keep, |served|, q);
        if keep[q] { q := FilterAt(served, left, keep, |served|, q); }
      }
    } else if due && mid[i] in final {
      var j :| 0 <= j < |final| && final[j] == mid[i];
      var x := FilterFrom(served, keep, |served|, j);
    }
  }

  lemma OnlyListed(mid: seq<Conn>, open: seq<bool>, served: seq<Conn>, final: seq<Conn>, left: seq<Snapshot>,
                   due: bool, now: nat, requestTimeout: nat)
    requires |mid| == |open| && |served| == |left| && served == Filter(mid, open, |mid|)
    requires final == if due then Filter(served, InTime(left, now, requestTimeout), |served|) else served
    ensures forall c :: c in final ==> c in mid
  {
    hide Filter, TimedOut;
    forall c | c in final ensures c in mid {
      var j :| 0 <= j < |final| && final[j] == c;
      if due { j := FilterFrom(served, InTime(left, now, requestTimeout), |served|, j); }
      var x := FilterFrom(mid, open, |mid|, j);
    }
  }

  /**
   Any sequence of polls from an empty server ends with the connections of RunValue, in which the
   keep-alive timeout does not occur.
   */
  method Run(max: nat, requestTimeout: nat, keepAliveTimeout: nat, events: seq<PollEvent>) returns (server: Server)
    ensures fresh(server) && server.Valid() && server.max == max
    ensures server.Value() == RunValue(events, max, requestTimeout)
    ensures server.SettledTo(|server.conns|)
    ensures server.count == |server.conns| <= max
    ensures forall i :: 0 <= i < server.count ==>
              (server.conns[i].writePending <==> server.conns[i].state == Writing) && !server.conns[i].readAfterFailure
  {
    server := new Server(max, requestTimeout, keepAliveTimeout);
    hide PollValue;
    var i := 0;
    while i < |events|
      invariant 0 <= i <= |events| && server.Valid() && server.SettledTo(|server.conns|)
      invariant server.max == max && server.requestTimeout == requestTimeout
      invariant fresh(server) && forall c :: c in server.conns ==> fresh(c)
      invariant server.Value() == RunValue(events[..i], max, requestTimeout)
    {
      assert forall k :: 0 <= k < |server.conns| ==> server.conns[k] in server.conns;
      assert events[..i + 1][..i] == events[..i];
      server.Poll(events[i]);
      i := i + 1;
    }
    assert events[..i] == events;
  }

  // ---------- one connection over any number of events ----------

  /** What can happen to a listed connection: the poll reads it while READING, its write completes while WRITING. */
  datatype ConnEvent = Readable(e: ReadEvent) | WriteDone

  predicate Enabled(s: Snapshot, v: ConnEvent) {
    match v
    case Readable(_) => s.state == Reading || s.state == Idle
    case WriteDone => s.writePending
  }

  function StepConn(s: Snapshot, v: ConnEvent): Snapshot {
    match v
    case Readable(e) => AfterReadable(s, e)
    case WriteDone => AfterWriteDone(s)
  }

  ghost predicate ConnRun(states: seq<Snapshot>, events: seq<ConnEvent>) {
    && |states| == |events| + 1
    && states[0] == NewConn(states[0].lastActive)
    && forall k :: 0 <= k < |events| ==>
         Enabled(states[k], events[k]) && states[k + 1] == StepConn(states[k], events[k])
  }

  lemma {:induction false} ConnRunGood(states: seq<Snapshot>, events: seq<ConnEvent>, k: nat)
    requires ConnRun(states, events) && k < |states|
    ensures Good(states[k])
  {
    if k > 0 {
      ConnRunGood(states, events, k - 1);
    }
  }

  /** In any run a connection can go on exactly until it is CLOSING: it is read while READING, completed while WRITING. */
  lemma GoesOnIff(states: seq<Snapshot>, events: seq<ConnEvent>, k: nat, v: ConnEvent)
    requires ConnRun(states, events) && k < |states|
    ensures Enabled(states[k], v) <==> if v.Readable? then states[k].state == Reading else states[k].state == Writing
    ensures (forall w :: !Enabled(states[k], w)) <==> states[k].state == Closing
  {
    ConnRunGood(states, events, k);
    if states[k].state == Writing { assert Enabled(states[k], WriteDone); }
    if states[k].state == Reading { assert Enabled(states[k], Readable(ReadEvent(0, true, 1, NeedMore(true), Queued))); }
  }

  /** What a poll does to one connection are steps of its own run: a pending write completes, then it is read. */
  lemma PollSteps(s: Snapshot, done: bool, e: ReadEvent)
    requires Good(s)
    ensures var mid := if done && s.state == Writing then StepConn(s, WriteDone) else s;
            Visited(Completed(s, done), e) == if mid.state == Reading then StepConn(mid, Readable(e)) else mid
  {
    if s.state == Writing { WriteDoneKeepsGood(s); }
  }

  /** After a parse error a connection never reads again: at most its error response completes. */
  lemma NoReadAfterParseError(states: seq<Snapshot>, events: seq<ConnEvent>, i: nat, j: nat)
    requires ConnRun(states, events) && i < j < |events|
    requires events[i].Readable? && events[i].e.feed.ParseError? && events[i].e.growOk && events[i].e.received > 0
    ensures events[j].WriteDone? && j == i + 1 && |events| == i + 2
  {
    ConnRunGood(states, events, i);
    ConnRunGood(states, events, i + 1);
    assert Enabled(states[i + 1], events[i + 1]);
    if i + 2 < |events| {
      ConnRunGood(states, events, i + 2);
    }
  }

  /** The socket delivered bytes and the parser finished with them: a response is due. */
  predicate Responds(e: ReadEvent) {
    e.growOk && e.received > 0 && !e.feed.NeedMore?
  }

  /** In any run a connection is WRITING exactly if what happened last is a read whose response was queued. */
  lemma WritingIffQueued(states: seq<Snapshot>, events: seq<ConnEvent>, k: nat)
    requires ConnRun(states, events) && k < |states|
    ensures states[k].state == Writing <==>
            k > 0 && events[k - 1].Readable? && Responds(events[k - 1].e) && events[k - 1].e.write.Queued?
  {
    if k > 0 {
      ConnRunGood(states, events, k - 1);
      assert Enabled(states[k - 1], events[k - 1]);
    }
  }

  /**
   In any run a read leaves the connection READING exactly if bytes arrived and they do not complete a
   request, or complete one that asks to be kept alive and whose response is written at once; it
   leaves it CLOSING exactly if nothing arrived, the response could not be written, or it was written
   at once and the connection is not kept.
   */
  lemma ReadsOnIff(states: seq<Snapshot>, events: seq<ConnEvent>, k: nat)
    requires ConnRun(states, events) && k < |events| && events[k].Readable?
    ensures var e := events[k].e;
            var kept := e.feed.RequestDone? && e.feed.keepAlive;
            && (states[k + 1].state == Reading <==>
                  Delivers(e) && (e.feed.NeedMore? || (kept && e.write.CompletesAtOnce?)))
            && (states[k + 1].state == Closing <==>
                  !Delivers(e) || (!e.feed.NeedMore?
                                   && (e.write.SerializeFails? || e.write.AllocFails? || (e.write.CompletesAtOnce? && !kept))))
  {
    ConnRunGood(states, events, k);
    assert Enabled(states[k], events[k]) && states[k + 1] == StepConn(states[k], events[k]);
  }

  /**
   In any run, a write completes only right after the read that queued it, and then the connection
   reads again exactly when that read completed a request that asked to be kept alive.
   */
  lemma PersistsIffKeepAlive(states: seq<Snapshot>, events: seq<ConnEvent>, j: nat)
    requires ConnRun(states, events) && j < |events| && events[j].WriteDone?
    ensures j > 0 && events[j - 1].Readable? && Responds(events[j - 1].e) && events[j - 1].e.write.Queued?
    ensures states[j + 1].state == Reading <==>
            events[j - 1].e.feed.RequestDone? && events[j - 1].e.feed.keepAlive
    ensures states[j + 1].state != Reading ==> states[j + 1].state == Closing && |events| == j + 1
  {
    ConnRunGood(states, events, j);
    assert Enabled(states[j], events[j]) && states[j + 1] == StepConn(states[j], events[j]);
    WritingIffQueued(states, events, j);
    ConnRunGood(states, events, j - 1);
    assert states[j] == StepConn(states[j - 1], events[j - 1]);
    if j + 1 < |events| { assert Enabled(states[j + 1], events[j + 1]); }
  }
}
