/** What every run that avoids the race guarantees: safety, and delivery under fair scheduling. */
module Delivery {
  import opened Basics
  import opened Ring
  import opened Framing
  import opened Servers
  import opened Pipeline
  import opened Invariant

  // ---- safety ----

  /**
   In every state that an interleaving reaches which avoids the race: the bytes published are, in order, those the
   client consumed, then the FIFOs, the drain thread's byte and the ring; the client has sent
   exactly the first admitted datagrams, whole and in order, and stands exactly where the
   consumed bytes leave off; what was admitted was received, in that order.
   */
  lemma {:induction false} EndToEndSafety(s0: State, es: seq<Event>)
    requires Init(s0) && Clean(s0, es)
    ensures var s := Run(s0, es);
            && s.committed == s.consumed + s.rx + s.tx + Held(s.drain) + s.ring.Queue()
            && Small(s.admitted) && s.committed <= Stream(s.order, s.admitted)
            && s.parse == Expected(s.order, s.admitted, |s.consumed|)
            && s.parse.sent <= s.admitted
            && IsSubsequence(s.admitted, s.received)
  {
    InitHolds(s0);
    RunKeeps(s0, es);
    var s := Run(s0, es);
    BytesInOrder(s);
    ClientSentAPrefix(s);
    AdmittedWereReceived(s);
  }

  lemma BytesInOrder(s: State)
    requires Inv(s)
    ensures s.committed == s.consumed + s.rx + s.tx + Held(s.drain) + s.ring.Queue()
  {
    Assoc(s.consumed, s.rx, s.tx + Held(s.drain));
    Assoc(s.consumed + s.rx, s.tx, Held(s.drain));
  }

  lemma ClientSentAPrefix(s: State)
    requires Inv(s)
    ensures Small(s.admitted) && s.committed <= Stream(s.order, s.admitted)
    ensures |s.consumed| <= |Stream(s.order, s.admitted)|
    ensures s.parse == Expected(s.order, s.admitted, |s.consumed|)
    ensures s.parse.sent <= s.admitted
  {
    var st, k := Stream(s.order, s.admitted), |s.consumed|;
    assert s.committed[..k] == s.consumed;
    assert st[..k] == s.consumed;
    EveryCutParses(s.order, s.admitted, k);
    ExpectedIsPrefix(s.order, s.admitted, k);
  }

  lemma AdmittedWereReceived(s: State)
    requires OrderOk(s.producer, s.received, s.admitted)
    ensures IsSubsequence(s.admitted, s.received)
  {
    var decided := Decided(s.producer, s.received);
    if Sampling(s.producer) {
      SubsequenceSkip(s.admitted, decided, s.producer.d);
      assert decided + [s.producer.d] == s.received;
    }
  }

  /**
   In every state that an interleaving reaches which avoids the race, the strict admission test has kept a byte of
   the ring free and the flag down, so equal indices mean an empty ring; an admitted frame has
   room up to its last byte, however old the sample of the space is; no cell is read that holds
   no unread byte; no store meets a full FIFO and no load an empty one.
   */
  lemma {:induction false} ResourceDiscipline(s0: State, es: seq<Event>)
    requires Init(s0) && Clean(s0, es)
    ensures var s := Run(s0, es);
            && !s.ring.full && s.ring.Count() + |Uncommitted(s.producer)| < s.ring.Max()
            && (s.ring.head == s.ring.tail <==> s.ring.Queue() == [])
            && |s.tx| <= FIFO_DEPTH && |s.rx| <= FIFO_DEPTH
            && (s.drain.ReadCell? ==> s.ring.Queue() != [])
            && (s.drain.StoreTail? ==> s.ring.Queue() != [] && s.drain.b == s.ring.Queue()[0])
            && (s.drain.PushTx? ==> |s.tx| < FIFO_DEPTH)
            && (s.ready ==> s.rx != [])
  {
    InitHolds(s0);
    RunKeeps(s0, es);
    var r := Run(s0, es).ring;
    if r.Count() > 0 {
      assert r.Index(0) == r.tail;
    }
  }

  /**
   The decision of the receive thread, whose `get_space` is not atomic: in every state that such
   a run reaches it admits the datagram if and only if the frame fits at that moment and `tail`
   has not passed the array end between the two reads of it. So it never admits too much; but it
   drops a datagram that fits when the drain thread wraps around in between.
   */
  lemma {:induction false} AdmitsExactlyWhen(s0: State, es: seq<Event>)
    requires Init(s0) && Clean(s0, es) && Run(s0, es).producer.SampleSpace?
    ensures var s := Run(s0, es);
            var overtaken := s.producer.wrapped && s.ring.tail <= s.ring.head;
            && (ProducerStep(s).producer.Copy? <==> !overtaken && s.ring.Count() + |s.producer.d| + 2 < s.ring.Max())
            && (ProducerStep(s).producer == Receiving ==> overtaken || s.ring.Count() >= s.ring.Max() - 2002)
  {
    InitHolds(s0);
    RunKeeps(s0, es);
    DecisionRing(Run(s0, es));
  }

  /**
   The decision of the drain thread, whose `buffer_is_empty` is not atomic either: in every state
   that such a run reaches it finds the ring empty if and only if it is.
   */
  lemma {:induction false} FindsEmptyExactlyWhen(s0: State, es: seq<Event>)
    requires Init(s0) && Clean(s0, es) && Run(s0, es).drain.CheckSpace?
    ensures var s := Run(s0, es); DrainStep(s).drain == CheckFull <==> s.ring.Queue() == []
  {
    InitHolds(s0);
    RunKeeps(s0, es);
    EmptyTestIsExact(Run(s0, es));
  }

  /**
   A copy changes no unread byte. A store to `head` publishes the next bytes of the call, up to
   the array end or to the last, and in one piece if they end before the array does.
   */
  lemma {:induction false} WritesAreSound(s0: State, es: seq<Event>)
    requires Init(s0) && Clean(s0, es)
    ensures var s := Run(s0, es);
            && (s.producer.Copy? ==> ProducerStep(s).ring.Queue() == s.ring.Queue())
            && (s.producer.StoreHead? ==>
                  var cur, s' := s.producer.cur, ProducerStep(s);
                  && s'.producer.TestFull?
                  && s'.ring.Queue() + s'.producer.cur == s.ring.Queue() + cur
                  && (s'.producer.cur == [] || s'.ring.head == 0)
                  && (s.ring.head + |cur| <= s.ring.Max() ==> s'.producer.cur == []))
  {
    InitHolds(s0);
    RunKeeps(s0, es);
    var s := Run(s0, es);
    if s.producer.Copy? { CopyKeepsQueue(s); }
    if s.producer.StoreHead? { PublishMovesOn(s); }
  }

  lemma PublishMovesOn(s: State)
    requires RingSide(s) && s.producer.StoreHead?
    ensures var cur, s' := s.producer.cur, ProducerStep(s);
            && s'.producer.TestFull?
            && s'.ring.Queue() + s'.producer.cur == s.ring.Queue() + cur
            && (s'.producer.cur == [] || s'.ring.head == 0)
            && (s.ring.head + |cur| <= s.ring.Max() ==> s'.producer.cur == [])
  {
    var cur, n := s.producer.cur, SegmentLength(s.ring, s.producer.cur);
    PublishAppends(s);
    assert cur == cur[..n] + cur[n..];
    Assoc(s.ring.Queue(), cur[..n], cur[n..]);
  }

  /** The datagrams of a run. */
  function Arrivals(es: seq<Event>): seq<seq<Byte>> {
    if es == [] then []
    else (match es[0] case Arrive(d) => [d] case _ => []) + Arrivals(es[1..])
  }

  lemma {:induction false} EveryArrivalCounts(es: seq<Event>, d: Packet)
    ensures multiset(Arrivals(es))[d] == multiset(es)[Arrive(d)]
  {
    if es != [] {
      EveryArrivalCounts(es[1..], d);
      assert es == [es[0]] + es[1..];
    }
  }

  /** The datagrams that `recv_video` takes up if `ds` arrive. */
  function TakenUp(p: Producer, ds: seq<seq<Byte>>): seq<seq<Byte>> {
    match p
    case Waiting(stale) => AfterInit(stale, ds)
    case _ => NonEmpty(ds)
  }

  lemma TakenUpByArrival(s: State, d: Packet, ds: seq<seq<Byte>>)
    requires Allowed(s, Arrive(d))
    ensures var s' := Arrival(s, d);
            s.received + TakenUp(s.producer, [d] + ds) == s'.received + TakenUp(s'.producer, ds)
  {
    assert ([d] + ds)[1..] == ds;
    if s.producer == Receiving {
      var head := if d == [] then [] else [d];
      assert TakenUp(s.producer, [d] + ds) == head + NonEmpty(ds);
      Assoc(s.received, head, NonEmpty(ds));
    }
  }

  lemma TurnsReceiveNothing(s: State, e: Event)
    requires s.ring.Shape() && !e.Arrive?
    ensures Step(s, e).received == s.received
    ensures Step(s, e).producer == s.producer || !(s.producer.Waiting? || Step(s, e).producer.Waiting?)
  {
    if e == ProducerTurn {
      ProducerReceivesNothing(s);
    }
  }

  lemma ProducerReceivesNothing(s: State)
    requires s.ring.Shape()
    ensures ProducerStep(s).received == s.received
    ensures ProducerStep(s).producer == s.producer || !(s.producer.Waiting? || ProducerStep(s).producer.Waiting?)
  {
  }

  lemma {:induction false} ReceivedFrom(s: State, es: seq<Event>)
    requires s.ring.Shape() && Clean(s, es)
    ensures Run(s, es).received == s.received + TakenUp(s.producer, Arrivals(es))
    ensures s.producer.Waiting? ==> TakenUp(s.producer, Arrivals(es)) == AfterInit(s.producer.stale, Arrivals(es))
    ensures !s.producer.Waiting? ==> TakenUp(s.producer, Arrivals(es)) == NonEmpty(Arrivals(es))
    decreases |es|
  {
    if es == [] {
      assert s.received + [] == s.received;
    } else {
      ReceivedFrom(Step(s, es[0]), es[1..]);
      match es[0]
      case Arrive(d) =>
        TakenUpByArrival(s, d, Arrivals(es[1..]));
      case e =>
        assert [] + Arrivals(es[1..]) == Arrivals(es[1..]);
        TurnsReceiveNothing(s, e);
    }
  }

  /**
   Outside iperf mode what reaches the ring are datagrams received after the first INIT, in
   order; while the server waits for INIT nothing is anywhere on the way.
   */
  lemma {:induction false} OnlyAfterInit(s0: State, es: seq<Event>)
    requires Init(s0) && s0.producer.Waiting? && Clean(s0, es)
    ensures var s := Run(s0, es);
            && IsSubsequence(s.admitted, AfterInit(s0.producer.stale, Arrivals(es)))
            && (s.producer.Waiting? ==> s.admitted == [] && s.ring.Queue() == [] && Taken(s) == [])
  {
    InitHolds(s0);
    RunKeeps(s0, es);
    var s := Run(s0, es);
    ReceivedFrom(s0, es);
    assert s.received == AfterInit(s0.producer.stale, Arrivals(es)) by {
      assert [] + TakenUp(s0.producer, Arrivals(es)) == TakenUp(s0.producer, Arrivals(es));
    }
    AdmittedWereReceived(s);
    WaitingMeansEmpty(s);
  }

  lemma WaitingMeansEmpty(s: State)
    requires Inv(s)
    ensures s.producer.Waiting? ==> s.admitted == [] && s.ring.Queue() == [] && Taken(s) == []
  {
    if s.producer.Waiting? {
      SubsequenceIsNoLonger(s.admitted, []);
      assert |s.committed| == |Taken(s)| + |s.ring.Queue()| == 0;
    }
  }

  /** What `s` has on record is the beginning of what `s'` has. */
  predicate Extends(s: State, s': State) {
    && s.received <= s'.received && s.admitted <= s'.admitted
    && s.committed <= s'.committed && s.consumed <= s'.consumed
    && s.parse.sent <= s'.parse.sent
  }

  lemma ProducerExtends(s: State)
    requires s.ring.Shape()
    ensures Extends(s, ProducerStep(s))
  {
  }

  lemma StepExtends(s: State, e: Event)
    requires s.ring.Shape()
    ensures Extends(s, Step(s, e))
  {
    match e
    case ProducerTurn => ProducerExtends(s);
    case _ =>
  }

  /** What was received, admitted, published, consumed or sent once, stays so. */
  lemma {:induction false} NothingIsTakenBack(s: State, es: seq<Event>)
    requires s.ring.Shape()
    ensures Extends(s, Run(s, es))
    decreases |es|
  {
    if es != [] {
      StepExtends(s, es[0]);
      NothingIsTakenBack(Step(s, es[0]), es[1..]);
    }
  }

  // ---- delivery ----

  /** Weight of what the receive thread still has to do. */
  function ProducerRank(p: Producer): nat {
    match p
    case Waiting(_) => 0
    case Receiving => 0
    case SampleFull(d) => 24 * (|d| + 2) + 7
    case SampleOrder(d) => 24 * (|d| + 2) + 6
    case SampleSpace(d, _) => 24 * (|d| + 2) + 5
    case Copy(cur, next) => 24 * (|cur| + |next|) + 4
    case StoreHead(cur, next) => 24 * (|cur| + |next|) + 3
    case TestFull(cur, next) => 24 * (|cur| + |next|) + 6
    case StoreFull(_, cur, next) => 24 * (|cur| + |next|) + 5
  }

  /** Weight of the drain thread's position; polling an empty ring is no progress. */
  function DrainRank(d: Drain, queued: nat): nat {
    match d
    case CheckFull => 9
    case CheckOrder => if queued == 0 then 9 else 8
    case CheckSpace(_) => if queued == 0 then 9 else 7
    case ReadCell => 6
    case StoreTail(_) => 5
    case ClearFull(_) => 20
    case PollTx(_) => 19
    case PushTx(_) => 18
  }

  /** All bytes on the way, each weighted by how far it still has to go. */
  function Measure(s: State): nat
    requires s.ring.Shape()
  {
    ProducerRank(s.producer) + 18 * s.ring.Count() + DrainRank(s.drain, s.ring.Count())
    + 4 * |s.tx| + 3 * |s.rx| + (if s.ready then 0 else 1)
  }

  /** However much is on the way, the measure, and with it the time delivery takes, is bounded by the ring. */
  lemma MeasureIsBounded(s: State)
    requires RingSide(s)
    ensures Measure(s) <= 24 * (s.ring.Max() + 2002) + 7 * 2048 + 28
  {
    assert ProducerRank(s.producer) + 18 * s.ring.Count() <= 24 * (s.ring.Max() + 2002) + 7;
  }

  /** The turn does more than poll in vain. */
  predicate Productive(s: State, e: Event)
    requires s.ring.Shape()
  {
    match e
    case Arrive(_) => false
    case ProducerTurn => !s.producer.Waiting? && s.producer != Receiving
    case DrainTurn =>
      (match s.drain
       case CheckFull => s.ring.Count() > 0
       case CheckOrder => s.ring.Count() > 0
       case CheckSpace(_) => s.ring.Count() > 0
       case PollTx(_) => |s.tx| < FIFO_DEPTH
       case _ => true)
    case LinkTurn => s.tx != [] && |s.rx| < FIFO_DEPTH
    case ClientTurn => s.ready || s.rx != []
  }

  /** Nothing is on the way. */
  predicate Quiescent(s: State)
    requires s.ring.Shape()
  {
    && (s.producer.Waiting? || s.producer == Receiving)
    && s.ring.Count() == 0 && Held(s.drain) == [] && s.tx == [] && s.rx == []
  }

  lemma DecisionLowers(s: State)
    requires s.ring.Shape() && Sampling(s.producer)
    ensures ProducerStep(s).ring == s.ring && ProducerStep(s).drain == s.drain
    ensures ProducerRank(ProducerStep(s).producer) < ProducerRank(s.producer)
  {
  }

  lemma ProducerTurnLowers(s: State)
    requires RingSide(s) && Productive(s, ProducerTurn)
    ensures Measure(ProducerStep(s)) < Measure(s)
  {
    match s.producer
    case Copy(_, _) => CopyRing(s);
    case StoreHead(_, _) => PublishLowers(s);
    case TestFull(_, _) =>
    case StoreFull(_, _, _) => FlagLowers(s);
    case _ => DecisionLowers(s);
  }

  lemma FlagLowers(s: State)
    requires RingSide(s) && s.producer.StoreFull?
    ensures Measure(ProducerStep(s)) < Measure(s)
  {
    FlagRing(s);
    assert ProducerRank(ProducerStep(s).producer) < ProducerRank(s.producer);
  }

  lemma PublishLowers(s: State)
    requires RingSide(s) && s.producer.StoreHead?
    ensures Measure(ProducerStep(s)) < Measure(s)
  {
    PublishRing(s);
    var cur, n := s.producer.cur, SegmentLength(s.ring, s.producer.cur);
    assert |cur[n..]| == |cur| - n;
    assert DrainRank(s.drain, s.ring.Count() + n) <= DrainRank(s.drain, s.ring.Count());
  }

  lemma DrainTurnLowers(s: State)
    requires RingSide(s) && Productive(s, DrainTurn) && !Race(s, DrainTurn)
    ensures Measure(DrainStep(s)) < Measure(s)
  {
    match s.drain
    case StoreTail(_) => TakeRing(s);
    case PushTx(_) =>
    case CheckSpace(_) => EmptyTestIsExact(s);
    case _ => LookRing(s);
  }

  /** Every turn that does more than poll brings the measure down. */
  lemma {:induction false} ProductiveLowers(s: State, e: Event)
    requires RingSide(s) && Productive(s, e) && !Race(s, e)
    ensures Measure(Step(s, e)) < Measure(s)
  {
    match e
    case ProducerTurn => ProducerTurnLowers(s);
    case DrainTurn => DrainTurnLowers(s);
    case LinkTurn =>
    case ClientTurn =>
  }

  /** A turn that only polls moves nothing but the drain thread's look at an empty ring. */
  lemma PollMovesNothing(s: State, e: Event)
    requires RingSide(s) && !e.Arrive? && !Productive(s, e)
    ensures var d := Step(s, e).drain;
            && Step(s, e) == s.(drain := d)
            && (d == s.drain || (s.ring.Count() == 0 && Looking(s.drain) && Looking(d)))
  {
    if e == DrainTurn && s.drain.CheckSpace? {
      EmptyTestIsExact(s);
    }
  }

  /** The drain thread is testing whether the ring is empty. */
  predicate Looking(d: Drain) {
    d == CheckFull || d == CheckOrder || d.CheckSpace?
  }

  /** A turn that only polls costs nothing and makes no other turn unproductive. */
  lemma {:induction false} PollingIsHarmless(s: State, e: Event)
    requires RingSide(s) && !e.Arrive? && !Productive(s, e)
    ensures Measure(Step(s, e)) == Measure(s)
    ensures forall e' :: Productive(s, e') ==> Productive(Step(s, e), e')
  {
    PollMovesNothing(s, e);
  }

  /** While anything is on the way some turn is productive, and one that is not the race. */
  lemma {:induction false} SomeTurnIsProductive(s: State) returns (e: Event)
    requires RingSide(s) && !Quiescent(s)
    ensures Productive(s, e) && !Race(s, e)
  {
    if !s.producer.Waiting? && s.producer != Receiving {
      e := ProducerTurn;
    } else if Productive(s, DrainTurn) {
      e := DrainTurn;
    } else if Productive(s, LinkTurn) {
      e := LinkTurn;
    } else {
      e := ClientTurn;
    }
  }

  /** When nothing is on the way, exactly the admitted datagrams have been sent on. */
  lemma {:induction false} QuiescentMeansDelivered(s: State)
    requires Inv(s) && Quiescent(s)
    ensures s.parse == Parse(BeforeFrame, s.admitted, 0)
  {
    EverythingConsumed(s);
    RoundTripExactlyWhenSmall(s.order, s.admitted);
  }

  lemma EverythingConsumed(s: State)
    requires s.ring.Shape() && StreamSide(s) && Quiescent(s)
    ensures s.consumed == Stream(s.order, s.admitted)
  {
    NothingPending(s.producer);
    assert s.ring.Queue() == [];
    assert s.committed + [] == s.committed;
    assert s.consumed + ([] + ([] + [])) + [] == s.consumed;
  }

  lemma QuiescenceStays(s: State, e: Event)
    requires RingSide(s) && Quiescent(s) && !e.Arrive?
    ensures Quiescent(Step(s, e)) && Step(s, e).admitted == s.admitted
  {
    PollMovesNothing(s, e);
  }

  /** A stretch of a run in which every component gets a turn and no datagram arrives. */
  predicate FairRound(es: seq<Event>) {
    && ProducerTurn in es && DrainTurn in es && LinkTurn in es && ClientTurn in es
    && forall e <- es :: !e.Arrive?
  }

  lemma {:induction false} MeasureNeverRises(s: State, es: seq<Event>)
    requires Inv(s) && Clean(s, es) && forall e <- es :: !e.Arrive?
    ensures Measure(Run(s, es)) <= Measure(s)
    ensures Quiescent(s) ==> Quiescent(Run(s, es))
    decreases |es|
  {
    if es != [] {
      var e := es[0];
      if Productive(s, e) { ProductiveLowers(s, e); } else { PollingIsHarmless(s, e); }
      if Quiescent(s) { QuiescenceStays(s, e); }
      StepKeeps(s, e);
      MeasureNeverRises(Step(s, e), es[1..]);
    }
  }

  /** A productive turn that is waiting stays productive until something productive happens. */
  lemma {:induction false} WaitingTurnHappens(s: State, es: seq<Event>, e: Event)
    requires Inv(s) && Clean(s, es) && (forall x <- es :: !x.Arrive?)
    requires Productive(s, e) && e in es
    ensures Measure(Run(s, es)) < Measure(s)
    decreases |es|
  {
    var s' := Step(s, es[0]);
    StepKeeps(s, es[0]);
    if Productive(s, es[0]) {
      ProductiveLowers(s, es[0]);
      MeasureNeverRises(s', es[1..]);
    } else {
      PollingIsHarmless(s, es[0]);
      WaitingTurnHappens(s', es[1..], e);
    }
  }

  function Flatten(rounds: seq<seq<Event>>): seq<Event> {
    if rounds == [] then [] else rounds[0] + Flatten(rounds[1..])
  }

  lemma RoundLowers(s: State, round: seq<Event>)
    requires Inv(s) && Clean(s, round) && FairRound(round) && !Quiescent(s)
    ensures Measure(Run(s, round)) < Measure(s)
  {
    var e := SomeTurnIsProductive(s);
    assert e in round;
    WaitingTurnHappens(s, round, e);
  }

  lemma {:induction false} RoundsLower(s: State, rounds: seq<seq<Event>>)
    requires Inv(s) && Clean(s, Flatten(rounds)) && forall r <- rounds :: FairRound(r)
    ensures var s' := Run(s, Flatten(rounds));
            Inv(s') && (Quiescent(s') || Measure(s') + |rounds| <= Measure(s))
    decreases |rounds|
  {
    if rounds != [] {
      var r, rest := rounds[0], rounds[1..];
      assert FairRound(r);
      RunInPieces(s, r, Flatten(rest));
      RunKeeps(s, r);
      RoundsLower(Run(s, r), rest);
      if Quiescent(s) {
        FlattenHasNoArrivals(rounds);
        MeasureNeverRises(s, Flatten(rounds));
      } else {
        RoundLowers(s, r);
      }
    }
  }

  lemma {:induction false} FlattenHasNoArrivals(rounds: seq<seq<Event>>)
    requires forall r <- rounds :: FairRound(r)
    ensures forall e <- Flatten(rounds) :: !e.Arrive?
  {
    if rounds != [] {
      FlattenHasNoArrivals(rounds[1..]);
      assert FairRound(rounds[0]);
    }
  }

  lemma {:induction false} RoundsDeliver(s: State, rounds: seq<seq<Event>>)
    requires Inv(s) && Clean(s, Flatten(rounds)) && (forall r <- rounds :: FairRound(r))
    requires |rounds| >= Measure(s)
    ensures Delivered(s, Run(s, Flatten(rounds)))
  {
    RoundsLower(s, rounds);
    QuiescentMeansDelivered(Run(s, Flatten(rounds)));
    NothingIsTakenBack(s, Flatten(rounds));
  }

  /** In `s'` everything admitted up to `s`, and since, has been sent on and nothing is on the way. */
  predicate Delivered(s: State, s': State)
    requires s'.ring.Shape()
  {
    Quiescent(s') && s.admitted <= s'.admitted && s'.parse == Parse(BeforeFrame, s'.admitted, 0)
  }

  /**
   Eventual delivery: take any state `s` that an interleaving reaches which avoids the race. Once
   datagrams stop arriving, under any schedule that goes on avoiding it and in which every
   component keeps getting turns, after at most `Measure(s)` rounds the client has sent on
   exactly the admitted datagrams.
   */
  lemma {:induction false} FairSchedulesDeliver(s0: State, es: seq<Event>, rounds: seq<seq<Event>>)
    requires Init(s0) && Clean(s0, es)
    requires Clean(Run(s0, es), Flatten(rounds)) && (forall r <- rounds :: FairRound(r))
    requires |rounds| >= Measure(Run(s0, es))
    ensures Delivered(Run(s0, es), Run(Run(s0, es), Flatten(rounds)))
  {
    InitHolds(s0);
    RunKeeps(s0, es);
    RoundsDeliver(Run(s0, es), rounds);
  }

  // ---- a schedule that needs no luck ----

  const ROUND: seq<Event> := [ProducerTurn, DrainTurn, LinkTurn, ClientTurn]

  /**
   Taking turns avoids the race from every state: when the receive thread has just published,
   the drain thread cannot be taking the last byte, and otherwise there is no test pending.
   */
  lemma {:induction false} RoundIsClean(s: State)
    requires RingSide(s)
    ensures Clean(s, ROUND)
  {
    var s1 := ProducerStep(s);
    if s1.producer.TestFull? && s.drain.StoreTail? {
      PublishRing(s);
      assert s1.ring.Count() >= 2;
    }
    assert !Race(s1, DrainTurn);
    var s2 := DrainStep(s1);
    assert ROUND[1..] == [DrainTurn, LinkTurn, ClientTurn];
    assert Clean(s2, [LinkTurn, ClientTurn]) by {
      assert [LinkTurn, ClientTurn][1..] == [ClientTurn];
      assert [ClientTurn][1..] == [];
    }
    assert [DrainTurn, LinkTurn, ClientTurn][1..] == [LinkTurn, ClientTurn];
  }

  /** `n` times the same round. */
  function Repeat(round: seq<Event>, n: nat): (rounds: seq<seq<Event>>)
    ensures |rounds| == n && forall r <- rounds :: r == round
  {
    if n == 0 then [] else [round] + Repeat(round, n - 1)
  }

  /** From no state of the invariant does the round meet the race. */
  ghost predicate AvoidsRace(round: seq<Event>) {
    forall s: State :: Inv(s) ==> Clean(s, round)
  }

  lemma {:induction false} RepeatingIsClean(s: State, round: seq<Event>, n: nat)
    requires Inv(s) && AvoidsRace(round)
    ensures Clean(s, Flatten(Repeat(round, n)))
    decreases n
  {
    if n > 0 {
      assert Clean(s, round);
      RunKeeps(s, round);
      RepeatingIsClean(Run(s, round), round, n - 1);
      RunInPieces(s, round, Flatten(Repeat(round, n - 1)));
      FlattenRepeat(round, n);
    }
  }

  lemma FlattenRepeat(round: seq<Event>, n: nat)
    requires n > 0
    ensures Flatten(Repeat(round, n)) == round + Flatten(Repeat(round, n - 1))
  {
    assert Repeat(round, n)[1..] == Repeat(round, n - 1);
  }

  lemma RoundIsFair()
    ensures FairRound(ROUND)
  {
    assert ROUND[0] == ProducerTurn && ROUND[1] == DrainTurn && ROUND[2] == LinkTurn && ROUND[3] == ClientTurn;
  }

  lemma {:induction false} RoundRobinDelivers(s: State, n: nat)
    requires Inv(s) && n >= Measure(s)
    ensures Clean(s, Flatten(Repeat(ROUND, n))) && Delivered(s, Run(s, Flatten(Repeat(ROUND, n))))
  {
    forall s': State | Inv(s')
      ensures Clean(s', ROUND)
    {
      RoundIsClean(s');
    }
    RepeatingIsClean(s, ROUND, n);
    RoundIsFair();
    RoundsDeliver(s, Repeat(ROUND, n));
  }

  /**
   Delivery with nothing assumed about the schedule but that the components take turns: clean
   fair schedules of every length exist, and this one delivers everything.
   */
  lemma {:induction false} TakingTurnsDelivers(s0: State, es: seq<Event>, n: nat)
    requires Init(s0) && Clean(s0, es) && n >= Measure(Run(s0, es))
    ensures Clean(Run(s0, es), Flatten(Repeat(ROUND, n)))
    ensures Delivered(Run(s0, es), Run(Run(s0, es), Flatten(Repeat(ROUND, n))))
  {
    InitHolds(s0);
    RunKeeps(s0, es);
    RoundRobinDelivers(Run(s0, es), n);
  }

  /** No reachable state is a trap: from each, some clean run without arrivals delivers all. */
  lemma {:induction false} DeliveryIsAlwaysPossible(s: State) returns (es: seq<Event>)
    requires Inv(s)
    ensures Clean(s, es) && (forall e <- es :: !e.Arrive?) && |es| <= Measure(s)
    ensures Quiescent(Run(s, es)) && Run(s, es).parse.sent == Run(s, es).admitted
    decreases Measure(s)
  {
    if Quiescent(s) {
      es := [];
      QuiescentMeansDelivered(s);
    } else {
      var e := SomeTurnIsProductive(s);
      ProductiveLowers(s, e);
      StepKeeps(s, e);
      var rest := DeliveryIsAlwaysPossible(Step(s, e));
      es := [e] + rest;
      assert es[1..] == rest;
    }
  }
}
