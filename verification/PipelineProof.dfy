/** Every step of the pipeline keeps its invariant. */
module PipelineProof {
  import opened Octets
  import opened DnsQuestion
  import opened Pipeline
  import opened InFlight

  // ----- hands -----

  lemma DoneHands(s: State, r: Rid, o: Outcome, x: Rid)
    requires r in s.queries
    ensures Hands(MarkDone(s, r, o), x) == Hands(s, x) + Bit(x == r)
  {
  }

  lemma ReceivedHands(s: State, r: Rid, x: Rid)
    requires Offered(s, r) && Hands(s, r) == 1
    ensures Hands(Received(s, r), x) + Bit(x == r) == Hands(s, x)
  {
  }

  lemma LandedHands(s: State, id: uint16, x: Rid)
    requires IdsAgree(s.inFlight, s.ids) && id in s.inFlight
    ensures Hands(s.(inFlight := s.inFlight - {id}), x) + Bit(x == s.inFlight[id]) == Hands(s, x)
  {
  }

  lemma WriterHands(s: State, w: Writer, taken: set<Rid>, x: Rid)
    ensures Hands(s.(writer := w, taken := taken), x) + Bit(WriterHolds(s.writer, x)) == Hands(s, x) + Bit(WriterHolds(w, x))
  {
  }

  lemma ReaderHands(s: State, e: Reader, done: bool, x: Rid)
    ensures Hands(s.(reader := e, doneClosed := done), x) + Bit(ReaderHolds(s.reader, x)) == Hands(s, x) + Bit(ReaderHolds(e, x))
  {
  }

  lemma DispatcherHands(s: State, d: Dispatcher, x: Rid)
    ensures Hands(s.(dispatcher := d), x) + Bit(s.dispatcher == Dialing(x)) == Hands(s, x) + Bit(d == Dialing(x))
  {
  }

  /** A request in somebody's hand is known, not finished, and in no other hand. */
  lemma InHand(s: State, r: Rid)
    requires Inv(s)
    requires Offered(s, r) || s.dispatcher == Dialing(r) || WriterHolds(s.writer, r) || OwnInFlight(s, r) || ReaderHolds(s.reader, r)
    ensures Hands(s, r) == 1 && r in s.callers && r in s.queries && r in s.ids
    ensures r !in s.outcomes && r !in s.removed && !s.callers[r].Returned?
    ensures WriterHolds(s.writer, r) ==> !OwnInFlight(s, r) && !ReaderHolds(s.reader, r)
    ensures s.dispatcher == Dialing(r) ==> !AtCaller(s.callers, r) && r !in s.requeued
    ensures !(AtCaller(s.callers, r) && r in s.requeued)
  {
    hide OffOffer, OneConnection, WaitFor;
    assert Hands(s, r) == Bit(r in s.callers);
  }

  lemma AddedHands(s: State, id: uint16, r: Rid, x: Rid)
    requires IdsAgree(s.inFlight, s.ids) && id !in s.inFlight && !OwnInFlight(s, r)
    ensures Hands(s.(ids := s.ids[r := id], inFlight := s.inFlight[id := r]), x) == Hands(s, x) + Bit(x == r)
  {
  }

  lemma StartedHands(s: State, r: Rid, q: Msg, x: Rid)
    requires IdsAgree(s.inFlight, s.ids) && r !in s.callers && r !in s.ids
    ensures Hands(CallerNext(s, r, Start(q)), x) == Hands(s, x) + Bit(x == r)
  {
  }

  lemma CallerHands(s: State, r: Rid, c: Caller, x: Rid)
    requires r in s.callers && AtCaller(s.callers, r) == AtCaller(s.callers[r := c], r)
    ensures Hands(s.(callers := s.callers[r := c]), x) == Hands(s, x)
  {
  }

  lemma RemovedHands(s: State, r: Rid, x: Rid)
    requires r !in s.removed
    ensures Hands(s.(removed := s.removed + {r}), x) == Hands(s, x) + Bit(x == r)
  {
  }

  lemma RequeuedHands(s: State, r: Rid, x: Rid)
    requires r !in s.requeued
    ensures Hands(s.(requeued := s.requeued + {r}), x) == Hands(s, x) + Bit(x == r)
  {
  }

  lemma OneHandOf(s: State, x: Rid)
    requires Inv(s)
    ensures Hands(s, x) == Bit(x in s.callers)
  {
  }

  lemma CallerOneHand(s: State, r: Rid, c: CallerStep, x: Rid)
    requires Inv(s) && CallerCan(s, r, c)
    ensures Hands(CallerNext(s, r, c), x) == Bit(x in CallerNext(s, r, c).callers)
  {
    hide Hands, OneHand, OffOffer, CallersServed, Settled, OneConnection, WaitFor;
    OneHandOf(s, x);
    match c {
      case Start(q) => StartedHands(s, r, q, x);
      case QueueTimeout => CallerHands(s, r, NeverQueued, x);
      case Wake => CallerHands(s, r, Returned(WaitFor(s.queries[r], s.outcomes[r])), x);
      case Expire => CallerHands(s, r, Expired, x);
      case TakeBack =>
        CallerHands(s, r, TimedOut, x);
        if OwnInFlight(s, r) {
          InHand(s, r);
          var s' := s.(callers := s.callers[r := TimedOut]);
          LandedHands(s', s.ids[r], x);
          RemovedHands(s'.(inFlight := s'.inFlight - {s.ids[r]}), r, x);
        }
    }
  }

  lemma DispatcherOneHand(s: State, d: DispatcherStep, x: Rid)
    requires Inv(s) && DispatcherCan(s, d)
    ensures Hands(DispatcherNext(s, d), x) == Bit(x in DispatcherNext(s, d).callers)
  {
    hide Hands, OneHand, OffOffer, CallersServed, Settled, Keyed;
    OneHandOf(s, x);
    match d {
      case Receive(r) =>
        InHand(s, r);
        ReceivedHands(s, r, x);
        DispatcherHands(Received(s, r), Dialing(r), x);
      case DialFails =>
        DoneHands(s, s.dispatcher.r, Failed, x);
        DispatcherHands(MarkDone(s, s.dispatcher.r, Failed), Receiving, x);
      case DialSucceeds =>
        var r := s.dispatcher.r;
        InHand(s, r);
        RequeuedHands(s, r, x);
        var s1 := s.(requeued := s.requeued + {r});
        DispatcherHands(s1, Serving, x);
        var s2 := s1.(dispatcher := Serving);
        WriterHands(s2, Selecting, s2.taken, x);
        ReaderHands(s2.(writer := Selecting), Reading, false, x);
      case ConnectionEnds => DispatcherHands(s, Draining, x);
      case Drain(id) =>
        var s' := MarkDone(s, s.inFlight[id], Failed);
        DoneHands(s, s.inFlight[id], Failed, x);
        LandedHands(s', id, x);
      case Drained => DispatcherHands(s, Receiving, x);
    }
  }

  /** What the writer retrieves by id is the request it failed to send. */
  lemma OwnRetrieved(s: State)
    requires OneConnection(s.dispatcher, s.writer, s.reader, s.inFlight)
    ensures s.writer.Retrieving? && s.writer.id in s.inFlight ==> s.inFlight[s.writer.id] == s.writer.r
  {
  }

  lemma TakeHands(s: State, r: Rid, x: Rid)
    requires Inv(s) && WriterCan(s, Take(r))
    ensures Hands(WriterNext(s, Take(r)), x) == Hands(s, x)
  {
    hide Hands, Inv;
    InHand(s, r);
    ReceivedHands(s, r, x);
    WriterHands(Received(s, r), Adding(r), s.taken + {r}, x);
  }

  lemma AddHands(s: State, id: uint16, x: Rid)
    requires Inv(s) && WriterCan(s, Add(id))
    ensures Hands(WriterNext(s, Add(id)), x) == Hands(s, x)
  {
    hide Hands, OneHand, OffOffer, CallersServed, Settled, Keyed, IdsAgree, OneConnection;
    var r := s.writer.r;
    InHand(s, r);
    AddedHands(s, id, r, x);
    WriterHands(s.(ids := s.ids[r := id], inFlight := s.inFlight[id := r]), Sending(r, id), s.taken, x);
  }

  lemma RetrieveHands(s: State, x: Rid)
    requires Inv(s) && WriterCan(s, Retrieve)
    ensures Hands(WriterNext(s, Retrieve), x) == Hands(s, x)
  {
    hide Hands, OneHand, OffOffer, CallersServed, Settled, Keyed, IdsAgree, OneConnection;
    OwnRetrieved(s);
    if s.writer.id in s.inFlight {
      LandedHands(s, s.writer.id, x);
      WriterHands(s.(inFlight := s.inFlight - {s.writer.id}), Failing(s.writer.r), s.taken, x);
    } else {
      WriterHands(s, WriterStopped, s.taken, x);
    }
  }

  /** Completing the request in the writer's hand. */
  lemma WriterDoneHands(s: State, w: Writer, x: Rid)
    requires (s.writer.Refusing? || s.writer.Failing?) && s.writer.r in s.queries && (w == Selecting || w == WriterStopped)
    ensures Hands(MarkDone(s, s.writer.r, Failed).(writer := w), x) == Hands(s, x)
  {
    hide Hands;
    DoneHands(s, s.writer.r, Failed, x);
    WriterHands(MarkDone(s, s.writer.r, Failed), w, s.taken, x);
  }

  lemma WriterOneHand(s: State, w: WriterStep, x: Rid)
    requires Inv(s) && WriterCan(s, w)
    ensures Hands(WriterNext(s, w), x) == Bit(x in WriterNext(s, w).callers)
  {
    hide Hands, Inv;
    OneHandOf(s, x);
    match w {
      case Take(r) =>
        InHand(s, r);
        TakeHands(s, r, x);
      case AddRefused => WriterHands(s, Refusing(s.writer.r), s.taken, x);
      case Add(id) => AddHands(s, id, x);
      case Refuse => WriterDoneHands(s, Selecting, x);
      case Sent => WriterHands(s, Selecting, s.taken, x);
      case SendFails => WriterHands(s, Retrieving(s.writer.r, s.writer.id), s.taken, x);
      case Retrieve => RetrieveHands(s, x);
      case Fail => WriterDoneHands(s, WriterStopped, x);
      case Stop => WriterHands(s, WriterStopped, s.taken, x);
    }
  }

  lemma ReaderOneHand(s: State, e: ReaderStep, x: Rid)
    requires Inv(s) && ReaderCan(s, e)
    ensures Hands(ReaderNext(s, e), x) == Bit(x in ReaderNext(s, e).callers)
  {
    hide Hands, OneHand, OffOffer, CallersServed, Settled, Keyed, IdsAgree, OneConnection;
    OneHandOf(s, x);
    match e {
      case Read(a) => ReaderHands(s, Matching(a), s.doneClosed, x);
      case ReadFails => ReaderHands(s, ReaderStopped, true, x);
      case Match =>
        var a := s.reader.a;
        if a.id in s.inFlight {
          LandedHands(s, a.id, x);
          ReaderHands(s.(inFlight := s.inFlight - {a.id}), Completing(s.inFlight[a.id], a), s.doneClosed, x);
        } else {
          ReaderHands(s, Reading, s.doneClosed, x);
        }
      case Complete =>
        DoneHands(s, s.reader.r, Answer(s.reader.a), x);
        ReaderHands(MarkDone(s, s.reader.r, Answer(s.reader.a)), Reading, s.doneClosed, x);
    }
  }

  // ----- the rest -----

  lemma DoneSettled(s: State, r: Rid, o: Outcome)
    requires r in s.queries && Settled(s.queries, s.closed, s.outcomes)
    ensures var s' := MarkDone(s, r, o); Settled(s.queries, s'.closed, s'.outcomes)
  {
  }

  lemma DoneKeeps(s: State, r: Rid, o: Outcome)
    requires r in s.queries && r in s.callers && !s.callers[r].Returned?
    requires Settled(s.queries, s.closed, s.outcomes) && CallersServed(s.queries, s.callers, s.outcomes, s.removed)
    ensures
      var s' := MarkDone(s, r, o);
      Settled(s.queries, s'.closed, s'.outcomes) && CallersServed(s.queries, s.callers, s'.outcomes, s.removed)
  {
    hide WaitFor, Settled;
    DoneSettled(s, r, o);
  }

  lemma ReceivedKeeps(s: State, r: Rid)
    requires Inv(s) && Offered(s, r)
    ensures
      var s' := Received(s, r);
      && Keyed(s.queries, s'.callers, s.ids) && CallersServed(s.queries, s'.callers, s.outcomes, s.removed)
      && OffOffer(s.taken, s'.callers, s.dispatcher, s'.requeued)
      && r !in s.taken
      && !AtCaller(s'.callers, r) && r !in s'.requeued && r in s'.callers
  {
    hide Hands, OneHand, Settled, OneConnection, IdsAgree, WaitFor;
    InHand(s, r);
  }

  lemma IdsLanded(inFlight: map<uint16, Rid>, ids: map<Rid, uint16>, id: uint16)
    requires IdsAgree(inFlight, ids)
    ensures IdsAgree(inFlight - {id}, ids)
  {
  }

  lemma IdsAdded(s: State, id: uint16, r: Rid)
    requires IdsAgree(s.inFlight, s.ids) && r in s.ids && !OwnInFlight(s, r) && Keyed(s.queries, s.callers, s.ids)
    ensures IdsAgree(s.inFlight[id := r], s.ids[r := id]) && Keyed(s.queries, s.callers, s.ids[r := id])
  {
  }

  lemma Started(s: State, r: Rid, q: Msg)
    requires Consistent(s) && r !in s.callers
    ensures Consistent(CallerNext(s, r, Start(q)))
  {
    hide WaitFor, OneConnection, IdsAgree, Settled;
    StartedIds(s.inFlight, s.ids, r);
    StartedSettled(s, r, q);
  }

  lemma StartedIds(inFlight: map<uint16, Rid>, ids: map<Rid, uint16>, r: Rid)
    requires IdsAgree(inFlight, ids) && r !in ids
    ensures IdsAgree(inFlight, ids[r := 0])
  {
  }

  lemma StartedSettled(s: State, r: Rid, q: Msg)
    requires Settled(s.queries, s.closed, s.outcomes) && r !in s.queries
    ensures Settled(s.queries[r := q], s.closed, s.outcomes)
  {
  }

  /** A caller that moves on without a result. */
  lemma Moves(s: State, r: Rid, c: Caller)
    requires Consistent(s) && r in s.callers && !s.callers[r].TimedOut? && !c.Returned?
    requires AtCaller(s.callers[r := c], r) ==> AtCaller(s.callers, r)
    ensures Consistent(s.(callers := s.callers[r := c]))
  {
    hide WaitFor, OneConnection, IdsAgree, Settled;
  }

  lemma Wakes(s: State, r: Rid)
    requires Consistent(s) && CallerCan(s, r, Wake)
    ensures Consistent(CallerNext(s, r, Wake))
  {
    hide WaitFor, OneConnection, IdsAgree, Settled;
  }

  /** Taking the own request back, once the caller is marked as timed out. */
  lemma TakesBack(s: State, r: Rid)
    requires Consistent(s) && r in s.callers && s.callers[r] == TimedOut && OwnInFlight(s, r)
    ensures Consistent(s.(inFlight := s.inFlight - {s.ids[r]}, removed := s.removed + {r}))
  {
    hide WaitFor, Settled, Keyed, OffOffer;
  }

  lemma CallerKeeps(s: State, r: Rid, c: CallerStep)
    requires Inv(s) && CallerCan(s, r, c)
    ensures Consistent(CallerNext(s, r, c))
  {
    hide Consistent, OneHand, Hands, WaitFor;
    match c {
      case Start(q) => Started(s, r, q);
      case QueueTimeout => Moves(s, r, NeverQueued);
      case Wake => Wakes(s, r);
      case Expire => Moves(s, r, Expired);
      case TakeBack =>
        Moves(s, r, TimedOut);
        if OwnInFlight(s, r) {
          TakesBack(s.(callers := s.callers[r := TimedOut]), r);
        }
    }
  }

  lemma DispatcherKeeps(s: State, d: DispatcherStep)
    requires Inv(s) && DispatcherCan(s, d)
    ensures Consistent(DispatcherNext(s, d))
  {
    hide Hands, OneHand, WaitFor, Keyed, Settled, CallersServed;
    match d {
      case Receive(r) => ReceivedKeeps(s, r);
      case DialFails =>
        InHand(s, s.dispatcher.r);
        DoneKeeps(s, s.dispatcher.r, Failed);
      case DialSucceeds => InHand(s, s.dispatcher.r);
      case ConnectionEnds =>
      case Drain(id) =>
        InHand(s, s.inFlight[id]);
        DoneKeeps(s, s.inFlight[id], Failed);
      case Drained =>
    }
  }

  /** The writer moves on without a request in the middle of being sent. */
  lemma WriterMoves(s: State, w: Writer)
    requires OneConnection(s.dispatcher, s.writer, s.reader, s.inFlight) && s.writer != WriterStopped
    requires !w.Sending? && !w.Retrieving?
    ensures OneConnection(s.dispatcher, w, s.reader, s.inFlight)
  {
  }

  lemma WriterSends(s: State, id: uint16)
    requires OneConnection(s.dispatcher, s.writer, s.reader, s.inFlight) && s.writer.Adding?
    ensures OneConnection(s.dispatcher, Sending(s.writer.r, id), s.reader, s.inFlight[id := s.writer.r])
  {
  }

  lemma WriterRetrieves(s: State)
    requires OneConnection(s.dispatcher, s.writer, s.reader, s.inFlight) && s.writer.Retrieving?
    ensures OneConnection(s.dispatcher, Failing(s.writer.r), s.reader, s.inFlight - {s.writer.id})
  {
  }

  lemma WriterKeeps(s: State, w: WriterStep)
    requires Inv(s) && WriterCan(s, w)
    ensures Consistent(WriterNext(s, w))
  {
    hide Hands, OneHand, WaitFor, Settled, CallersServed, IdsAgree, Keyed, OneConnection;
    match w {
      case Take(r) =>
        ReceivedKeeps(s, r);
        WriterMoves(s, Adding(r));
      case AddRefused => WriterMoves(s, Refusing(s.writer.r));
      case Add(id) =>
        InHand(s, s.writer.r);
        IdsAdded(s, id, s.writer.r);
        WriterSends(s, id);
      case Refuse =>
        InHand(s, s.writer.r);
        DoneKeeps(s, s.writer.r, Failed);
        WriterMoves(s, Selecting);
      case Sent => WriterMoves(s, Selecting);
      case SendFails => WriterFails(s);
      case Retrieve =>
        IdsLanded(s.inFlight, s.ids, s.writer.id);
        WriterRetrieves(s);
        WriterMoves(s, WriterStopped);
      case Fail =>
        InHand(s, s.writer.r);
        DoneKeeps(s, s.writer.r, Failed);
        WriterMoves(s, WriterStopped);
      case Stop => WriterMoves(s, WriterStopped);
    }
  }

  lemma WriterFails(s: State)
    requires OneConnection(s.dispatcher, s.writer, s.reader, s.inFlight) && s.writer.Sending?
    ensures OneConnection(s.dispatcher, Retrieving(s.writer.r, s.writer.id), s.reader, s.inFlight)
  {
  }

  lemma ReaderKeeps(s: State, e: ReaderStep)
    requires Inv(s) && ReaderCan(s, e)
    ensures Consistent(ReaderNext(s, e))
  {
    hide Hands, OneHand, WaitFor, Settled, CallersServed, Keyed, OffOffer;
    if e.Complete? {
      InHand(s, s.reader.r);
      DoneKeeps(s, s.reader.r, Answer(s.reader.a));
    }
  }

  // ----- every run -----

  lemma StepKeeps(s: State, step: Step)
    requires Inv(s) && Enabled(s, step)
    ensures Inv(Next(s, step))
  {
    hide Hands, Consistent, CallerCan, DispatcherCan, WriterCan, ReaderCan, CallerNext, DispatcherNext, WriterNext, ReaderNext;
    var s' := Next(s, step);
    match step {
      case ByCaller(r, c) =>
        CallerKeeps(s, r, c);
        forall x ensures Hands(s', x) == Bit(x in s'.callers) { CallerOneHand(s, r, c, x); }
      case ByDispatcher(d) =>
        DispatcherKeeps(s, d);
        forall x ensures Hands(s', x) == Bit(x in s'.callers) { DispatcherOneHand(s, d, x); }
      case ByWriter(w) =>
        WriterKeeps(s, w);
        forall x ensures Hands(s', x) == Bit(x in s'.callers) { WriterOneHand(s, w, x); }
      case ByReader(e) =>
        ReaderKeeps(s, e);
        forall x ensures Hands(s', x) == Bit(x in s'.callers) { ReaderOneHand(s, e, x); }
    }
  }

  /** Over every interleaving. */
  lemma {:induction false} RunKeeps(steps: seq<Step>)
    requires Exec(steps).Some?
    ensures Inv(Exec(steps).value)
  {
    hide Inv, Enabled, Next;
    if steps == [] {
      InitInv();
    } else {
      RunKeeps(steps[..|steps| - 1]);
      StepKeeps(Exec(steps[..|steps| - 1]).value, steps[|steps| - 1]);
    }
  }

  lemma InitInv()
    ensures Inv(INIT)
  {
  }

  lemma ReachableInv(s: State)
    requires Reachable(s)
    ensures Inv(s)
  {
    hide Inv, Exec;
    var steps :| Exec(steps) == Some(s);
    RunKeeps(steps);
  }

  /** The tests for known requests in the steps never hold a step up. */
  lemma GuardsAlwaysPass(s: State)
    requires Reachable(s)
    ensures s.dispatcher.Dialing? ==> DispatcherCan(s, DialFails)
    ensures s.writer.Refusing? ==> WriterCan(s, Refuse)
    ensures s.writer.Failing? ==> WriterCan(s, Fail)
    ensures s.reader.Completing? ==> ReaderCan(s, Complete)
    ensures s.dispatcher == Draining ==> forall id :: id in s.inFlight ==> DispatcherCan(s, Drain(id))
    ensures forall r :: r in s.callers && s.callers[r] == Waiting && r in s.closed ==> CallerCan(s, r, Wake)
  {
    hide Reachable, Hands, OneHand, WaitFor, OneConnection, OffOffer, CallersServed;
    ReachableInv(s);
    if s.dispatcher.Dialing? { InHand(s, s.dispatcher.r); }
    if s.writer.Refusing? || s.writer.Failing? { InHand(s, s.writer.r); }
    if s.reader.Completing? { InHand(s, s.reader.r); }
  }

  /** Nor does the draw of an id: the queue is full or has one to give. */
  lemma AddAlwaysPossible(s: State)
    requires s.writer.Adding?
    ensures WriterCan(s, AddRefused) || exists id :: WriterCan(s, Add(id))
  {
    if |s.inFlight| < MAX_IN_FLIGHT {
      FreeId(s.inFlight);
      var id: uint16 :| id !in s.inFlight;
      assert WriterCan(s, Add(id));
    }
  }

  /** No request is completed twice: its done channel is closed at most once. */
  lemma NeverTwice(s: State, r: Rid)
    requires Reachable(s)
    ensures s.closed[r] <= 1
  {
    hide Reachable, Consistent;
    ReachableInv(s);
    OneHandOf(s, r);
  }

  /**
   * What a writer has received is, at any time after that, in exactly one place:
   * in the writer's or the reader's hands, in flight, completed, or taken back
   * by its own timed-out caller.
   */
  lemma TakenIsSomewhere(s: State, r: Rid)
    requires Reachable(s) && r in s.taken
    ensures Bit(WriterHolds(s.writer, r)) + Bit(ReaderHolds(s.reader, r))
            + Bit(OwnInFlight(s, r)) + Bit(r in s.closed) + Bit(r in s.removed) == 1
    ensures r in s.removed ==> r in s.callers && s.callers[r] == TimedOut
  {
    hide Reachable, Settled, OneConnection, WaitFor;
    ReachableInv(s);
    OneHandOf(s, r);
  }

  /** Ids in flight are distinct and agree with the requests' own. */
  lemma IdsDistinct(s: State, i: uint16, j: uint16)
    requires Reachable(s) && i in s.inFlight && j in s.inFlight
    ensures s.inFlight[i] in s.ids && s.ids[s.inFlight[i]] == i
    ensures s.inFlight[i] == s.inFlight[j] ==> i == j
  {
    hide Reachable, OneHand, Settled, OneConnection, WaitFor;
    ReachableInv(s);
  }

  /** A late timeout removes its own request and no other, whoever uses its id by then. */
  lemma TakeBackSpares(s: State, r: Rid, id: uint16)
    requires Reachable(s) && CallerCan(s, r, TakeBack)
    ensures
      var s' := CallerNext(s, r, TakeBack);
      && (id in s'.inFlight <==> id in s.inFlight && s.inFlight[id] != r)
      && (id in s'.inFlight ==> s'.inFlight[id] == s.inFlight[id])
      && s'.closed == s.closed
  {
    hide Reachable, OneHand, Settled, OneConnection, WaitFor;
    ReachableInv(s);
  }

  /** An answer a caller gets carries the caller's id and echoes its question. */
  lemma AnswersMatch(s: State, r: Rid, a: Msg)
    requires Reachable(s) && r in s.callers && s.callers[r] == Returned(Answer(a))
    ensures r in s.queries && a.id == s.queries[r].id && ValidResponseQuestion(s.queries[r], a)
    ensures s.closed[r] == 1
  {
    hide Reachable, OneConnection, ValidResponseQuestion;
    ReachableInv(s);
    OneHandOf(s, r);
  }

  /**
   * Nothing is forgotten: when the dispatcher is back to waiting and no request
   * is queued again, every caller that still waits has its outcome.
   */
  lemma NothingForgotten(s: State, r: Rid)
    requires Reachable(s) && s.dispatcher == Receiving && s.requeued == {}
    requires r in s.callers && s.callers[r] == Waiting
    ensures CallerCan(s, r, Wake)
  {
    hide Reachable, WaitFor;
    ReachableInv(s);
    OneHandOf(s, r);
  }
}
