/**
 * The upstream pipeline: callers, their timeouts, the dispatcher, and one writer
 * and one reader per connection share a channel of requests and a queue of
 * requests in flight. Each step is atomic: a rendezvous on the channel, one
 * locked queue operation, or one completion of a request. Requests are numbered.
 */
module Pipeline {
  import opened Octets
  import opened InFlight
  import opened DnsQuestion

  type Rid = nat

  datatype Caller =
    | Queueing                       // offering the request on the channel
    | NeverQueued                    // timed out while doing so
    | Waiting                        // the request was received
    | Expired                        // timed out, about to take the request back
    | TimedOut
    | Returned(result: Outcome)

  datatype Dispatcher = Receiving | Dialing(r: Rid) | Serving | Draining

  datatype Writer =
    | WriterStopped
    | Selecting
    | Adding(r: Rid)                 // received, not yet in the queue
    | Refusing(r: Rid)               // the queue was full
    | Sending(r: Rid, id: uint16)
    | Retrieving(r: Rid, id: uint16) // sending failed
    | Failing(r: Rid)                // took the request back out

  datatype Reader = ReaderStopped | Reading | Matching(a: Msg) | Completing(r: Rid, a: Msg)

  datatype State = State(
    queries: map<Rid, Msg>,
    callers: map<Rid, Caller>,
    ids: map<Rid, uint16>,           // each request's own id field
    inFlight: map<uint16, Rid>,
    requeued: set<Rid>,              // offered again by the dispatcher
    dispatcher: Dispatcher,
    writer: Writer,
    reader: Reader,
    doneClosed: bool,                // the reader has told the writer to stop
    closed: multiset<Rid>,           // every closing of a request's done channel
    outcomes: map<Rid, Outcome>,
    taken: set<Rid>,                 // received by a writer, ever
    removed: set<Rid>                // taken out of the queue by the own caller
  )

  const INIT := State(map[], map[], map[], map[], {}, Receiving, WriterStopped, ReaderStopped, false, multiset{}, map[], {}, {})

  /** What a caller does in Resolve. */
  datatype CallerStep =
    | Start(q: Msg)
    | QueueTimeout
    | Wake
    | Expire
    | TakeBack

  datatype DispatcherStep =
    | Receive(r: Rid)
    | DialFails
    | DialSucceeds
    | ConnectionEnds
    | Drain(id: uint16)
    | Drained

  datatype WriterStep =
    | Take(r: Rid)
    | AddRefused
    | Add(id: uint16)
    | Refuse
    | Sent
    | SendFails
    | Retrieve
    | Fail
    | Stop

  datatype ReaderStep =
    | Read(a: Msg)
    | ReadFails
    | Match
    | Complete

  datatype Step =
    | ByCaller(r: Rid, c: CallerStep)
    | ByDispatcher(d: DispatcherStep)
    | ByWriter(w: WriterStep)
    | ByReader(e: ReaderStep)

  /** A request on offer: by its caller, or by the goroutine that queues it again. */
  predicate Offered(s: State, r: Rid)
  {
    (r in s.callers && s.callers[r] == Queueing) || r in s.requeued
  }

  /** The offer taken up: the caller goes on to wait, the goroutine ends. */
  function Received(s: State, r: Rid): State
    requires Offered(s, r)
  {
    if r in s.requeued then s.(requeued := s.requeued - {r}) else s.(callers := s.callers[r := Waiting])
  }

  /** markDone: sets the result and closes the channel, whether or not that was done before. */
  function MarkDone(s: State, r: Rid, o: Outcome): State
    requires r in s.queries
  {
    s.(closed := s.closed + multiset{r}, outcomes := s.outcomes[r := OwnId(s.queries[r], o)])
  }

  /** waitFor: an answer is returned only if it echoes the question. */
  function WaitFor(q: Msg, o: Outcome): Outcome
  {
    if o.Answer? && !ValidResponseQuestion(q, o.msg) then Failed else o
  }

  /** delete: only the request itself is removed, never another one under its id. */
  predicate OwnInFlight(s: State, r: Rid)
  {
    r in s.ids && s.ids[r] in s.inFlight && s.inFlight[s.ids[r]] == r
  }

  // ----- callers -----

  predicate CallerCan(s: State, r: Rid, c: CallerStep)
  {
    match c
    case Start(q) => r !in s.callers
    case QueueTimeout => r in s.callers && s.callers[r] == Queueing
    case Wake => r in s.callers && s.callers[r] == Waiting && r in s.closed && r in s.outcomes && r in s.queries
    case Expire => r in s.callers && s.callers[r] == Waiting
    case TakeBack => r in s.callers && s.callers[r] == Expired && s.dispatcher != Draining
  }

  function CallerNext(s: State, r: Rid, c: CallerStep): State
    requires CallerCan(s, r, c)
  {
    match c
    case Start(q) => s.(queries := s.queries[r := q], callers := s.callers[r := Queueing], ids := s.ids[r := 0])
    case QueueTimeout => s.(callers := s.callers[r := NeverQueued])
    case Wake => s.(callers := s.callers[r := Returned(WaitFor(s.queries[r], s.outcomes[r]))])
    case Expire => s.(callers := s.callers[r := Expired])
    case TakeBack =>
      var s' := s.(callers := s.callers[r := TimedOut]);
      if OwnInFlight(s, r)
      then s'.(inFlight := s.inFlight - {s.ids[r]}, removed := s.removed + {r})
      else s'
  }

  // ----- the dispatcher -----

  predicate DispatcherCan(s: State, d: DispatcherStep)
  {
    match d
    case Receive(r) => s.dispatcher == Receiving && Offered(s, r)
    case DialFails => s.dispatcher.Dialing? && s.dispatcher.r in s.queries
    case DialSucceeds => s.dispatcher.Dialing?
    case ConnectionEnds => s.dispatcher == Serving && s.writer == WriterStopped && s.reader == ReaderStopped
    case Drain(id) => s.dispatcher == Draining && id in s.inFlight && s.inFlight[id] in s.queries
    case Drained => s.dispatcher == Draining && s.inFlight == map[]
  }

  function DispatcherNext(s: State, d: DispatcherStep): State
    requires DispatcherCan(s, d)
  {
    match d
    case Receive(r) => Received(s, r).(dispatcher := Dialing(r))
    case DialFails => MarkDone(s, s.dispatcher.r, Failed).(dispatcher := Receiving)
    case DialSucceeds =>
      s.(requeued := s.requeued + {s.dispatcher.r}, dispatcher := Serving, writer := Selecting, reader := Reading, doneClosed := false)
    case ConnectionEnds => s.(dispatcher := Draining)
    case Drain(id) => MarkDone(s, s.inFlight[id], Failed).(inFlight := s.inFlight - {id})
    case Drained => s.(dispatcher := Receiving)
  }

  // ----- the writer -----

  predicate WriterCan(s: State, w: WriterStep)
  {
    match w
    case Take(r) => s.writer == Selecting && Offered(s, r)
    case AddRefused => s.writer.Adding? && |s.inFlight| >= MAX_IN_FLIGHT
    case Add(id) => s.writer.Adding? && |s.inFlight| < MAX_IN_FLIGHT && id !in s.inFlight
    case Refuse => s.writer.Refusing? && s.writer.r in s.queries
    case Sent => s.writer.Sending?
    case SendFails => s.writer.Sending?
    case Retrieve => s.writer.Retrieving?
    case Fail => s.writer.Failing? && s.writer.r in s.queries
    case Stop => s.writer == Selecting && s.doneClosed
  }

  function WriterNext(s: State, w: WriterStep): State
    requires WriterCan(s, w)
  {
    match w
    case Take(r) => Received(s, r).(writer := Adding(r), taken := s.taken + {r})
    case AddRefused => s.(writer := Refusing(s.writer.r))
    case Add(id) =>
      s.(ids := s.ids[s.writer.r := id], inFlight := s.inFlight[id := s.writer.r], writer := Sending(s.writer.r, id))
    case Refuse => MarkDone(s, s.writer.r, Failed).(writer := Selecting)
    case Sent => s.(writer := Selecting)
    case SendFails => s.(writer := Retrieving(s.writer.r, s.writer.id))
    case Retrieve =>
      if s.writer.id in s.inFlight
      then s.(inFlight := s.inFlight - {s.writer.id}, writer := Failing(s.writer.r))
      else s.(writer := WriterStopped)
    case Fail => MarkDone(s, s.writer.r, Failed).(writer := WriterStopped)
    case Stop => s.(writer := WriterStopped)
  }

  // ----- the reader -----

  predicate ReaderCan(s: State, e: ReaderStep)
  {
    match e
    case Read(a) => s.reader == Reading
    case ReadFails => s.reader == Reading
    case Match => s.reader.Matching?
    case Complete => s.reader.Completing? && s.reader.r in s.queries
  }

  function ReaderNext(s: State, e: ReaderStep): State
    requires ReaderCan(s, e)
  {
    match e
    case Read(a) => s.(reader := Matching(a))
    case ReadFails => s.(reader := ReaderStopped, doneClosed := true)
    case Match =>
      var a := s.reader.a;
      if a.id in s.inFlight
      then s.(inFlight := s.inFlight - {a.id}, reader := Completing(s.inFlight[a.id], a))
      else s.(reader := Reading)
    case Complete => MarkDone(s, s.reader.r, Answer(s.reader.a)).(reader := Reading)
  }

  // ----- runs -----

  predicate Enabled(s: State, step: Step)
  {
    match step
    case ByCaller(r, c) => CallerCan(s, r, c)
    case ByDispatcher(d) => DispatcherCan(s, d)
    case ByWriter(w) => WriterCan(s, w)
    case ByReader(e) => ReaderCan(s, e)
  }

  function Next(s: State, step: Step): State
    requires Enabled(s, step)
  {
    match step
    case ByCaller(r, c) => CallerNext(s, r, c)
    case ByDispatcher(d) => DispatcherNext(s, d)
    case ByWriter(w) => WriterNext(s, w)
    case ByReader(e) => ReaderNext(s, e)
  }

  /** The state after some steps, if each of them could be taken. */
  function Exec(steps: seq<Step>): Option<State>
  {
    if steps == [] then Some(INIT)
    else
      var s := Exec(steps[..|steps| - 1]);
      if s.Some? && Enabled(s.value, steps[|steps| - 1]) then Some(Next(s.value, steps[|steps| - 1])) else None
  }

  /** What some interleaving leads to. */
  ghost predicate Reachable(s: State)
  {
    exists steps :: Exec(steps) == Some(s)
  }

  // ----- the invariant -----

  function Bit(b: bool): nat
  {
    if b then 1 else 0
  }

  predicate AtCaller(callers: map<Rid, Caller>, r: Rid)
  {
    r in callers && callers[r] in {Queueing, NeverQueued}
  }

  predicate WriterHolds(w: Writer, r: Rid)
  {
    w == Adding(r) || w == Refusing(r) || w == Failing(r)
  }

  predicate ReaderHolds(e: Reader, r: Rid)
  {
    e.Completing? && e.r == r
  }

  /** In how many hands a request is: with its caller, the dispatcher, the writer or the reader, in flight, finished. */
  function Hands(s: State, r: Rid): nat
  {
    Bit(AtCaller(s.callers, r)) + Bit(s.dispatcher == Dialing(r)) + Bit(r in s.requeued) + Bit(WriterHolds(s.writer, r))
    + Bit(OwnInFlight(s, r)) + Bit(ReaderHolds(s.reader, r)) + s.closed[r] + Bit(r in s.removed)
  }

  ghost predicate OneHand(s: State)
  {
    forall r: Rid {:trigger Hands(s, r)} :: Hands(s, r) == Bit(r in s.callers)
  }

  /** Each id in flight is its request's own, so ids in flight are distinct. */
  ghost predicate IdsAgree(inFlight: map<uint16, Rid>, ids: map<Rid, uint16>)
  {
    forall id :: id in inFlight ==> inFlight[id] in ids && ids[inFlight[id]] == id
  }

  ghost predicate Keyed(queries: map<Rid, Msg>, callers: map<Rid, Caller>, ids: map<Rid, uint16>)
  {
    queries.Keys == callers.Keys == ids.Keys
  }

  ghost predicate Settled(queries: map<Rid, Msg>, closed: multiset<Rid>, outcomes: map<Rid, Outcome>)
  {
    && (forall r :: r in closed <==> r in outcomes)
    && (forall r :: r in outcomes ==> r in queries && (outcomes[r].Answer? ==> outcomes[r].msg.id == queries[r].id))
  }

  /** One connection at a time, and nothing in flight between two. */
  ghost predicate OneConnection(d: Dispatcher, w: Writer, e: Reader, inFlight: map<uint16, Rid>)
  {
    && (d != Serving ==> w == WriterStopped && e == ReaderStopped)
    && (d.Receiving? || d.Dialing? ==> inFlight == map[])
    && (w.Sending? || w.Retrieving? ==> w.id in inFlight ==> inFlight[w.id] == w.r)
  }

  /** What a caller was given is the outcome of its request, and only a timed-out caller takes a request back. */
  ghost predicate CallersServed(queries: map<Rid, Msg>, callers: map<Rid, Caller>, outcomes: map<Rid, Outcome>, removed: set<Rid>)
  {
    && (forall r :: r in removed ==> r in callers && callers[r] == TimedOut)
    && (forall r :: r in callers && callers[r].Returned? ==>
          r in queries && r in outcomes && callers[r].result == WaitFor(queries[r], outcomes[r]))
  }

  /** What a writer has received is never on offer again. */
  ghost predicate OffOffer(taken: set<Rid>, callers: map<Rid, Caller>, d: Dispatcher, requeued: set<Rid>)
  {
    forall r :: r in taken ==> r in callers && !AtCaller(callers, r) && d != Dialing(r) && r !in requeued
  }

  ghost predicate Consistent(s: State)
  {
    && IdsAgree(s.inFlight, s.ids)
    && Keyed(s.queries, s.callers, s.ids)
    && Settled(s.queries, s.closed, s.outcomes)
    && OneConnection(s.dispatcher, s.writer, s.reader, s.inFlight)
    && CallersServed(s.queries, s.callers, s.outcomes, s.removed)
    && OffOffer(s.taken, s.callers, s.dispatcher, s.requeued)
  }

  ghost predicate Inv(s: State)
  {
    OneHand(s) && Consistent(s)
  }
}
