/**
 * The heap queue under the pipeline's protocol: with requests numbered, each
 * queue operation on the heap is the atomic step of the state machine that the
 * invariant is about.
 */
module PipelineQueue {
  import opened Octets
  import opened DnsQuestion
  import opened InFlight
  import opened Pipeline
  import opened PipelineProof

  type Numbering = map<Request, Rid>

  /** The queue holds just the requests in flight. */
  ghost predicate SameQueue(requests: map<uint16, Request>, num: Numbering, inFlight: map<uint16, Rid>)
  {
    && requests.Keys == inFlight.Keys
    && (forall id :: id in requests ==> requests[id] in num && num[requests[id]] == inFlight[id])
    && (forall a, b :: a in num && b in num && num[a] == num[b] ==> a == b)
  }

  /** A request on the heap is what the state says of its number. */
  ghost predicate SameRequest(r: Request, n: Rid, queries: map<Rid, Msg>, ids: map<Rid, uint16>, closed: multiset<Rid>,
                              outcomes: map<Rid, Outcome>)
    reads r
  {
    && n in queries && r.q == queries[n] && n in ids && r.id == ids[n]
    && (r.closed <==> n in closed)
    && (r.closed ==> n in outcomes && r.outcome == Some(outcomes[n]))
  }

  ghost predicate Mirrors(q: Queue, num: Numbering, s: State)
    reads q, num.Keys
  {
    && SameQueue(q.requests, num, s.inFlight)
    && forall r :: r in num ==> SameRequest(r, num[r], s.queries, s.ids, s.closed, s.outcomes)
  }

  lemma QueueAdded(requests: map<uint16, Request>, num: Numbering, inFlight: map<uint16, Rid>, id: uint16, r: Request)
    requires SameQueue(requests, num, inFlight) && r in num
    ensures SameQueue(requests[id := r], num, inFlight[id := num[r]])
    ensures |requests| == |inFlight| && (id in requests <==> id in inFlight)
    ensures forall x :: x in num && x != r ==> num[x] != num[r]
  {
    assert |requests.Keys| == |inFlight.Keys|;
  }

  lemma QueueLanded(requests: map<uint16, Request>, num: Numbering, inFlight: map<uint16, Rid>, id: uint16)
    requires SameQueue(requests, num, inFlight)
    ensures SameQueue(requests - {id}, num, inFlight - {id}) && (id in requests <==> id in inFlight)
    ensures id !in requests ==> requests - {id} == requests && inFlight - {id} == inFlight
    ensures id in requests ==> requests[id] in num && num[requests[id]] == inFlight[id]
  {
  }

  lemma MirrorsValid(q: Queue, num: Numbering, s: State)
    requires Inv(s) && Mirrors(q, num, s)
    ensures q.Valid()
    ensures forall r :: r in num && q.Holds(r) ==> OwnInFlight(s, num[r])
  {
    hide Hands, OneHand, Settled, CallersServed, OffOffer, OneConnection;
    forall id | id in q.requests ensures q.requests[id].id == id && !q.requests[id].closed {
      var n := s.inFlight[id];
      assert OwnInFlight(s, n);
      OpenInFlight(s, n);
    }
  }

  lemma OpenInFlight(s: State, n: Rid)
    requires Inv(s) && (OwnInFlight(s, n) || WriterHolds(s.writer, n) || ReaderHolds(s.reader, n) || s.dispatcher == Dialing(n))
    ensures n !in s.closed
  {
    hide Hands, OneHand;
    InHand(s, n);
  }

  /** add, called by the writer. */
  method AddStep(q: Queue, r: Request, ghost num: Numbering, ghost s: State) returns (query: Option<Msg>)
    requires Inv(s) && Mirrors(q, num, s) && r in num && s.writer == Adding(num[r])
    modifies q, r`id
    ensures query.None? ==> WriterCan(s, AddRefused) && Mirrors(q, num, WriterNext(s, AddRefused))
    ensures query.Some? ==> WriterCan(s, Add(r.id)) && Mirrors(q, num, WriterNext(s, Add(r.id)))
  {
    hide Inv, SameQueue;
    MirrorsValid(q, num, s);
    InHand(s, num[r]);
    OpenInFlight(s, num[r]);
    ghost var requests := q.requests;
    query := q.Add(r);
    QueueAdded(requests, num, s.inFlight, r.id, r);
  }

  /** get, called by the reader for an answer: it gets the request the step completes. */
  method MatchStep(q: Queue, a: Msg, ghost num: Numbering, ghost s: State) returns (r: Request?)
    requires Inv(s) && Mirrors(q, num, s) && s.reader == Matching(a)
    modifies q
    ensures ReaderCan(s, Match) && Mirrors(q, num, ReaderNext(s, Match))
    ensures if r == null then ReaderNext(s, Match).reader == Reading
            else r in num && ReaderNext(s, Match).reader == Completing(num[r], a)
  {
    hide Inv, SameQueue, SameRequest;
    MirrorsValid(q, num, s);
    QueueLanded(q.requests, num, s.inFlight, a.id);
    r := q.Get(a.id);
  }

  /** get, called by the writer after a failed send: it gets nothing or the very request it sent. */
  method RetrieveStep(q: Queue, id: uint16, ghost num: Numbering, ghost s: State) returns (r: Request?)
    requires Inv(s) && Mirrors(q, num, s) && s.writer.Retrieving? && s.writer.id == id
    modifies q
    ensures WriterCan(s, Retrieve) && Mirrors(q, num, WriterNext(s, Retrieve))
    ensures if r == null then WriterNext(s, Retrieve).writer == WriterStopped
            else r in num && num[r] == s.writer.r && WriterNext(s, Retrieve).writer == Failing(num[r])
  {
    hide Inv, SameQueue, SameRequest;
    MirrorsValid(q, num, s);
    QueueLanded(q.requests, num, s.inFlight, id);
    RetrievedIsOwn(s);
    r := q.Get(id);
  }

  lemma RetrievedIsOwn(s: State)
    requires Inv(s)
    ensures s.writer.Retrieving? && s.writer.id in s.inFlight ==> s.inFlight[s.writer.id] == s.writer.r
  {
    hide OneConnection, OneHand, Settled, CallersServed, OffOffer;
    OwnRetrieved(s);
  }

  /** delete, called by a caller whose time is up. */
  method TakeBackStep(q: Queue, r: Request, ghost num: Numbering, ghost s: State)
    requires Inv(s) && Mirrors(q, num, s) && r in num && CallerCan(s, num[r], TakeBack)
    modifies q
    ensures Mirrors(q, num, CallerNext(s, num[r], TakeBack))
  {
    hide Inv, SameQueue, CallerNext;
    MirrorsValid(q, num, s);
    TakenBack(q.requests, num, s, r, r.id);
    q.Delete(r);
  }

  lemma TakenBack(requests: map<uint16, Request>, num: Numbering, s: State, r: Request, id: uint16)
    requires SameQueue(requests, num, s.inFlight) && r in num && CallerCan(s, num[r], TakeBack)
    requires num[r] in s.ids && s.ids[num[r]] == id
    ensures
      var t := CallerNext(s, num[r], TakeBack);
      && SameQueue(if id in requests && requests[id] == r then requests - {id} else requests, num, t.inFlight)
      && t.queries == s.queries && t.ids == s.ids && t.closed == s.closed && t.outcomes == s.outcomes
  {
    QueueLanded(requests, num, s.inFlight, id);
  }

  /** markDone, called by whoever has the request in hand: the channel is still open. */
  method DoneStep(q: Queue, r: Request, o: Outcome, ghost num: Numbering, ghost s: State)
    requires Inv(s) && Mirrors(q, num, s) && r in num
    requires WriterHolds(s.writer, num[r]) || ReaderHolds(s.reader, num[r]) || s.dispatcher == Dialing(num[r])
    modifies r`outcome, r`closed
    ensures Mirrors(q, num, MarkDone(s, num[r], o))
  {
    hide Inv;
    OpenInFlight(s, num[r]);
    r.MarkDone(o);
  }

  // ----- draining -----

  /** The state after the queue was drained, one id after the other. */
  function Drains(s: State, ids: seq<uint16>): Option<State>
    decreases |ids|
  {
    if ids == [] then Some(s)
    else if DispatcherCan(s, Drain(ids[0])) then Drains(DispatcherNext(s, Drain(ids[0])), ids[1..])
    else None
  }

  /** Some order of steps empties it, and every order completes just what was in flight. */
  lemma {:induction false} DrainsEmpty(s: State) returns (ids: seq<uint16>)
    requires Inv(s) && s.dispatcher == Draining
    ensures Drains(s, ids).Some?
    ensures
      var s' := Drains(s, ids).value;
      && s'.inFlight == map[] && s'.queries == s.queries && s'.ids == s.ids
      && (forall n :: n in s'.closed <==> n in s.closed || n in s.inFlight.Values)
      && (forall n :: n in s'.outcomes <==> n in s.outcomes || n in s.inFlight.Values)
      && (forall n :: n in s'.outcomes ==> s'.outcomes[n] == if n in s.inFlight.Values then Failed else s.outcomes[n])
    decreases |s.inFlight|
  {
    hide Inv;
    if s.inFlight == map[] {
      ids := [];
    } else {
      var id :| id in s.inFlight;
      DrainOne(s, id);
      var next := DispatcherNext(s, Drain(id));
      var rest := DrainsEmpty(next);
      ids := [id] + rest;
      assert ids[1..] == rest;
    }
  }

  lemma DrainOne(s: State, id: uint16)
    requires Inv(s) && s.dispatcher == Draining && id in s.inFlight
    ensures DispatcherCan(s, Drain(id))
    ensures
      var s' := DispatcherNext(s, Drain(id));
      && Inv(s') && s'.dispatcher == Draining && |s'.inFlight| < |s.inFlight|
      && s.inFlight.Values == s'.inFlight.Values + {s.inFlight[id]}
  {
    hide Hands, OneHand, Settled, CallersServed, OffOffer, OneConnection;
    assert OwnInFlight(s, s.inFlight[id]);
    InHand(s, s.inFlight[id]);
    StepKeeps(s, ByDispatcher(Drain(id)));
    var rest := s.inFlight - {id};
    assert rest.Keys == s.inFlight.Keys - {id};
    assert |rest.Keys| == |s.inFlight.Keys| - 1;
    forall n | n in s.inFlight.Values ensures n in rest.Values + {s.inFlight[id]} {
      var i :| i in s.inFlight && s.inFlight[i] == n;
      if i != id {
        assert i in rest && rest[i] == n;
      }
    }
  }

  /** drain, called by the dispatcher: a run of drain steps to the end. */
  method DrainStep(q: Queue, ghost num: Numbering, ghost s: State) returns (ghost ids: seq<uint16>)
    requires Inv(s) && Mirrors(q, num, s) && s.dispatcher == Draining
    modifies q, q.requests.Values`outcome, q.requests.Values`closed
    ensures Drains(s, ids).Some? && Drains(s, ids).value.inFlight == map[] && Mirrors(q, num, Drains(s, ids).value)
  {
    hide Inv, Drains;
    MirrorsValid(q, num, s);
    ids := DrainsEmpty(s);
    q.Drain();
  }
}
