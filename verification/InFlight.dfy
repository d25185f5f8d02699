/** The queue of requests in flight, on the heap. */
module InFlight {
  import opened Octets
  import opened DnsQuestion

  const MAX_IN_FLIGHT: nat := UINT16_MAX

  datatype Outcome = Answer(msg: Msg) | Failed

  /** The answer under the id of the query. */
  function OwnId(q: Msg, o: Outcome): Outcome
  {
    if o.Answer? then Answer(o.msg.(id := q.id)) else o
  }

  /** While the queue's guard passes, there is an id not in flight. */
  lemma FreeId<T>(requests: map<uint16, T>)
    requires |requests| < MAX_IN_FLIGHT
    ensures exists id: uint16 :: id !in requests
  {
    if forall id: uint16 :: id in requests {
      AllIds(0x1_0000, requests.Keys);
      assert false;
    }
  }

  lemma {:induction false} AllIds(n: nat, ids: set<uint16>)
    requires n <= 0x1_0000 && forall id: uint16 :: id in ids <==> id < n
    ensures |ids| == n
  {
    if n == 0 {
      assert ids == {};
    } else {
      AllIds(n - 1, ids - {n - 1});
    }
  }

  class Request {
    const q: Msg
    var id: uint16
    var outcome: Option<Outcome>
    var closed: bool

    constructor (q: Msg)
      ensures this.q == q && id == 0 && !closed && outcome.None?
    {
      this.q, id, outcome, closed := q, 0, None, false;
    }

    /** markDone: closing the channel a second time would panic. */
    method MarkDone(o: Outcome)
      requires !closed
      modifies this`outcome, this`closed
      ensures closed && outcome == Some(OwnId(q, o))
    {
      outcome := Some(match o
                      case Answer(a) => Answer(a.(id := q.id))
                      case Failed => Failed);
      closed := true;
    }
  }

  class Queue {
    var requests: map<uint16, Request>

    /** Every request sits under its own id and is not completed yet. */
    ghost predicate Valid()
      reads this, requests.Values
    {
      forall id :: id in requests ==> requests[id].id == id && !requests[id].closed
    }

    ghost predicate Holds(r: Request)
      reads this
    {
      exists id :: id in requests && requests[id] == r
    }

    constructor ()
      ensures Valid() && requests == map[]
    {
      requests := map[];
    }

    /** add: an id that is not in flight, whichever the random draws end on; nothing if the queue is full. */
    method Add(r: Request) returns (query: Option<Msg>)
      requires Valid() && !Holds(r) && !r.closed
      modifies this, r`id
      ensures Valid()
      ensures query.None? <==> |old(requests)| >= MAX_IN_FLIGHT
      ensures query.None? ==> requests == old(requests) && r.id == old(r.id)
      ensures query.Some? ==>
                && query.value == r.q.(id := r.id) && r.id !in old(requests)
                && requests == old(requests)[r.id := r]
    {
      if |requests| >= MAX_IN_FLIGHT {
        return None;
      }
      FreeId(requests);
      var id: uint16 :| id !in requests;
      r.id := id;
      requests := requests[id := r];
      return Some(r.q.(id := id));
    }

    /** get: whoever takes a request out of the queue owns it. */
    method Get(id: uint16) returns (r: Request?)
      requires Valid()
      modifies this
      ensures Valid() && requests == old(requests) - {id}
      ensures r == null <==> id !in old(requests)
      ensures r != null ==> r == old(requests)[id] && r.id == id && !r.closed && !Holds(r)
    {
      if id !in requests {
        assert requests - {id} == requests;
        return null;
      }
      r := requests[id];
      requests := requests - {id};
    }

    /** delete: safe even if the request was never added or its id is another's by now. */
    method Delete(r: Request)
      requires Valid()
      modifies this
      ensures Valid() && !Holds(r)
      ensures forall id :: id in requests <==> id in old(requests) && old(requests)[id] != r
      ensures requests == old(if r.id in requests && requests[r.id] == r then requests - {r.id} else requests)
    {
      if r.id in requests && requests[r.id] == r {
        requests := requests - {r.id};
      }
    }

    /** drain: fails every request in flight, each once, and leaves the queue empty. */
    method Drain()
      requires Valid()
      modifies this, requests.Values`outcome, requests.Values`closed
      ensures Valid() && requests == map[]
      ensures forall id :: id in old(requests) ==> old(requests)[id].closed && old(requests)[id].outcome == Some(Failed)
    {
      ghost var all := requests;
      while requests != map[]
        invariant requests.Keys <= all.Keys && forall id :: id in requests ==> requests[id] == all[id]
        invariant forall id :: id in all ==> all[id].id == id
        invariant forall id :: id in all ==> if id in requests then !all[id].closed else all[id].closed && all[id].outcome == Some(Failed)
        decreases |requests|
      {
        var id :| id in requests;
        assert id in all.Keys;
        requests[id].MarkDone(Failed);
        assert |(requests - {id}).Keys| < |requests.Keys| by {
          assert (requests - {id}).Keys == requests.Keys - {id};
        }
        requests := requests - {id};
      }
    }
  }
}
