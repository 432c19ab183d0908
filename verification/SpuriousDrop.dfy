/**
 The receive thread can drop a datagram although the ring is almost empty: when `tail` passes the
 array end between the two reads of `get_space`. This module leads a fresh server there.
 */
module SpuriousDrop {
  import opened Basics
  import opened MachineInts
  import opened Ring
  import opened Framing
  import opened Servers
  import opened Pipeline
  import opened Invariant
  import opened Delivery
  import opened Publication

  /** Both threads idle, the ring empty and both indices at `p`. */
  ghost predicate AtRest(s: State, p: nat) {
    && Inv(s) && s.producer == Receiving && s.drain == CheckFull
    && s.ring.Count() == 0 && s.ring.head == p
  }

  /** While nothing arrives, an idle receive thread stays idle and leaves `head` alone. */
  lemma {:induction false} IdleStays(s: State, es: seq<Event>)
    requires s.ring.Shape() && s.producer == Receiving && forall e <- es :: !e.Arrive?
    ensures var s' := Run(s, es);
            s'.producer == Receiving && s'.ring.head == s.ring.head && s'.ring.Max() == s.ring.Max()
    decreases |es|
  {
    if es != [] {
      IdleStays(Step(s, es[0]), es[1..]);
    }
  }

  /** Once nothing is on the way the drain thread comes back to its first test. */
  lemma BackToTest(s: State) returns (es: seq<Event>)
    requires RingSide(s) && Quiescent(s)
    ensures Clean(s, es) && Run(s, es) == s.(drain := CheckFull)
  {
    if s.drain == CheckFull {
      es := [];
    } else if s.drain == CheckOrder {
      es := [DrainTurn, DrainTurn];
      var s1 := s.(drain := CheckSpace(s.ring.head < s.ring.tail));
      SpaceIsFree(s.ring);
      RunOne(s1, DrainTurn, []);
      RunOne(s, DrainTurn, [DrainTurn]);
    } else {
      es := [DrainTurn];
      EmptyTestIsExact(s);
      RunOne(s, DrainTurn, []);
    }
  }

  /** With the receive thread idle, everything on the way gets through and the machine comes to rest. */
  lemma ComeToRest(s: State) returns (es: seq<Event>)
    requires Inv(s) && s.producer == Receiving
    ensures Clean(s, es) && AtRest(Run(s, es), s.ring.head) && Run(s, es).ring.Max() == s.ring.Max()
  {
    var es1 := DeliveryIsAlwaysPossible(s);
    var s1 := Run(s, es1);
    IdleStays(s, es1);
    RunKeeps(s, es1);
    var es2 := BackToTest(s1);
    RunKeeps(s1, es2);
    RunInPieces(s, es1, es2);
    es := es1 + es2;
  }

  lemma {:induction false} TurnsAreClean(s: State, k: nat)
    requires s.ring.Shape()
    ensures Clean(s, Turns(k))
    decreases k
  {
    if k > 0 {
      assert Turns(k)[1..] == Turns(k - 1);
      TurnsAreClean(ProducerStep(s), k - 1);
    }
  }

  /** A datagram that arrives at rest and fits is queued as one frame. */
  lemma FrameQueued(s: State, p: nat, d: Packet) returns (es: seq<Event>)
    requires AtRest(s, p) && d != [] && |d| + 2 < s.ring.Max()
    ensures Clean(s, es)
    ensures var s', n := Run(s, es), |d| + 2;
            && Inv(s') && s'.producer == Receiving && s'.drain == CheckFull
            && s'.ring.Max() == s.ring.Max() && s'.ring.tail == p && s'.ring.Count() == n
            && s'.ring.head == Wrap(p + n, s.ring.Max())
  {
    var s1 := Arrival(s, d);
    var k := AdmittingAlone(s1);
    SpaceIsFree(s.ring);
    TurnsAreClean(s1, k);
    RunOne(s, Arrive(d), Turns(k));
    es := [Arrive(d)] + Turns(k);
    RunKeeps(s, es);
    HeadFollows(Run(s, es).ring, s.order, s.ring, d);
  }

  lemma HeadFollows(r': Ring, o: Order, r: Ring, d: Packet)
    requires r.Valid() && !r.full && r.Count() == 0 && d != [] && |d| + 2 < r.Max()
    requires r' == Admission(o, r, d)
    ensures r'.tail == r.tail == r.head && r'.Count() == |d| + 2 && r'.head == Wrap(r.head + |d| + 2, r.Max())
  {
    AdmissionIsAllOrNothing(o, r, d);
    assert |r'.Queue()| == |d| + 2;
  }

  /** A frame goes through and the machine comes to rest that much further on. */
  lemma FrameThrough(s: State, p: nat, d: Packet) returns (es: seq<Event>)
    requires AtRest(s, p) && d != [] && p + |d| + 2 < s.ring.Max()
    ensures Clean(s, es) && AtRest(Run(s, es), p + |d| + 2) && Run(s, es).ring.Max() == s.ring.Max()
  {
    var es1 := FrameQueued(s, p, d);
    var es2 := ComeToRest(Run(s, es1));
    RunInPieces(s, es1, es2);
    es := es1 + es2;
  }

  /** Frames of three to five bytes take the indices to any place at least three further on. */
  lemma {:induction false} MoveTo(s: State, p: nat, q: nat) returns (es: seq<Event>)
    requires AtRest(s, p) && p + 3 <= q < s.ring.Max()
    ensures Clean(s, es) && AtRest(Run(s, es), q) && Run(s, es).ring.Max() == s.ring.Max()
    decreases q - p
  {
    var n := if q - p <= 5 then q - p else 3;
    es := FrameThrough(s, p, seq(n - 2, _ => 7));
    if q - p > 5 {
      var rest := MoveTo(Run(s, es), p + n, q);
      RunInPieces(s, es, rest);
      es := es + rest;
    }
  }

  lemma ReadyToReceive(max: nat)
    requires 4 <= max < TWO_31
    ensures Clean(FreshServer(max), [Arrive([INIT])])
    ensures AtRest(Run(FreshServer(max), [Arrive([INIT])]), 0)
    ensures Run(FreshServer(max), [Arrive([INIT])]).ring.Max() == max
  {
    var s0 := FreshServer(max);
    InitHolds(s0);
    StepKeeps(s0, Arrive([INIT]));
    RunOne(s0, Arrive([INIT]), []);
  }

  /** The first two reads for the next datagram, then one byte taken past the array end. */
  const OVERTAKE: seq<Event> := [Arrive([7]), ProducerTurn, ProducerTurn] + (ALMOST_ONE + [DrainTurn])

  lemma Overtaking(s: State)
    requires Inv(s) && s.producer == Receiving && s.drain == CheckFull
    requires s.ring.Max() >= 6 && s.ring.tail == s.ring.Max() - 1 && s.ring.head == 2
    ensures Clean(s, OVERTAKE)
    ensures var s' := Run(s, OVERTAKE);
            && s'.producer == SampleSpace([7], true) && s'.ring == s.ring.(tail := 0)
  {
    var s3 := s.(producer := SampleSpace([7], true), received := s.received + [[7]]);
    FirstReads(s, s3);
    TakingAlone(s3);
    RunInPieces(s, [Arrive([7]), ProducerTurn, ProducerTurn], ALMOST_ONE + [DrainTurn]);
  }

  lemma FirstReads(s: State, s3: State)
    requires s.ring.Shape() && s.producer == Receiving && s.ring.head < s.ring.tail && !s.ring.full
    requires s3 == s.(producer := SampleSpace([7], true), received := s.received + [[7]])
    ensures var es := [Arrive([7]), ProducerTurn, ProducerTurn]; Clean(s, es) && Run(s, es) == s3
  {
    var s1 := s3.(producer := SampleFull([7]));
    var s2 := s3.(producer := SampleOrder([7]));
    assert Arrival(s, [7]) == s1;
    RunOne(s2, ProducerTurn, []);
    RunOne(s1, ProducerTurn, [ProducerTurn]);
    RunOne(s, Arrive([7]), [ProducerTurn, ProducerTurn]);
    assert [Arrive([7]), ProducerTurn, ProducerTurn] == [Arrive([7])] + [ProducerTurn, ProducerTurn];
  }

  lemma TakingAlone(s: State)
    requires s.ring.Valid() && !s.ring.full && s.ring.Count() > 0 && s.drain == CheckFull && s.producer.SampleSpace?
    ensures var es, s' := ALMOST_ONE + [DrainTurn], Run(s, ALMOST_ONE + [DrainTurn]);
            && Clean(s, es) && s'.producer == s.producer
            && s'.ring == s.ring.(tail := Wrap(s.ring.tail + 1, s.ring.Max()))
  {
    ReadingAlone(s);
    RunOne(s.(drain := StoreTail(s.ring.Queue()[0])), DrainTurn, []);
    RunInPieces(s, ALMOST_ONE, [DrainTurn]);
  }

  /**
   From a fresh server with a ring of any size from six a clean run leads to a state in which a
   datagram of one byte is dropped although only two bytes wait in the ring.
   */
  lemma {:induction false} SpuriousDropIsReachable(max: nat) returns (es: seq<Event>)
    requires 6 <= max < TWO_31
    ensures var s0 := FreshServer(max);
            && Init(s0) && Clean(s0, es)
            && var s := Run(s0, es);
            && s.producer.SampleSpace? && ProducerStep(s).producer == Receiving
            && |s.producer.d| == 1 && s.ring.Count() == 2 && s.ring.Max() == max
  {
    var s0, es0 := FreshServer(max), [Arrive([INIT])];
    ReadyToReceive(max);
    var s1 := Run(s0, es0);
    var es1 := MoveTo(s1, 0, max - 1);
    var s2 := Run(s1, es1);
    var es2 := FrameQueued(s2, max - 1, [7]);
    var s3 := Run(s2, es2);
    Overtaking(s3);
    RunInPieces(s2, es2, OVERTAKE);
    RunInPieces(s1, es1, es2 + OVERTAKE);
    RunInPieces(s0, es0, es1 + (es2 + OVERTAKE));
    es := es0 + (es1 + (es2 + OVERTAKE));
    Overtaken(Run(s0, es));
  }

  lemma Overtaken(s: State)
    requires s.ring.Shape() && s.ring.Max() >= 6 && !s.ring.full && s.ring.tail == 0 && s.ring.head == 2
    requires s.producer == SampleSpace([7], true)
    ensures ProducerStep(s).producer == Receiving && s.ring.Count() == 2
  {
    assert SpaceFrom(true, 2, 0, s.ring.Max()) == -2;
  }
}
