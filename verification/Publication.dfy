/**
 Publishing a segment takes two lines of `buffer.c`: `head` first, the flag after. This module
 says what can go wrong in between, exactly when, and that without interleaving the machine's
 steps are the methods of class `CircularBuffer`.
 */
module Publication {
  import opened Basics
  import opened MachineInts
  import opened Ring
  import opened Framing
  import opened Servers
  import opened Pipeline
  import opened Invariant

  // ---- the race ----

  /** Turns that make room in the transmit FIFO. */
  function MakeRoom(s: State): seq<Event> {
    if |s.tx| < FIFO_DEPTH then []
    else if |s.rx| < FIFO_DEPTH then [LinkTurn]
    else if s.ready then [ClientTurn, LinkTurn]
    else [ClientTurn, ClientTurn, LinkTurn]
  }

  lemma RoomIsMade(s: State)
    requires s.ring.Shape() && FifosOk(s.tx, s.rx, s.ready)
    ensures var es, s' := MakeRoom(s), Run(s, MakeRoom(s));
            && Clean(s, es) && |s'.tx| < FIFO_DEPTH && Taken(s') == Taken(s)
            && s'.ring == s.ring && s'.drain == s.drain && s'.producer == s.producer
            && s'.committed == s.committed
  {
    if |s.tx| >= FIFO_DEPTH {
      if |s.rx| < FIFO_DEPTH {
        LinkMakesRoom(s);
      } else if s.ready {
        ClientThenLink(s);
      } else {
        ClientMovesOnly(s);
        ClientThenLink(s.(ready := true));
        RunOne(s, ClientTurn, [ClientTurn, LinkTurn]);
      }
    }
  }

  lemma LinkMakesRoom(s: State)
    requires s.ring.Shape() && |s.tx| == FIFO_DEPTH && |s.rx| < FIFO_DEPTH
    ensures Clean(s, [LinkTurn]) && Run(s, [LinkTurn]) == LinkStep(s)
    ensures Taken(LinkStep(s)) == Taken(s) && |LinkStep(s).tx| < FIFO_DEPTH
  {
    LinkMovesOnly(s);
    RunOne(s, LinkTurn, []);
  }

  lemma ClientThenLink(s: State)
    requires s.ring.Shape() && |s.tx| == |s.rx| == FIFO_DEPTH && s.ready
    ensures var es := [ClientTurn, LinkTurn];
            && Clean(s, es) && Run(s, es) == LinkStep(ClientStep(s))
            && Taken(Run(s, es)) == Taken(s) && |Run(s, es).tx| < FIFO_DEPTH
  {
    ClientMovesOnly(s);
    LinkMakesRoom(ClientStep(s));
    RunOne(s, ClientTurn, [LinkTurn]);
  }

  /** One event more. */
  lemma RunOne(s: State, e: Event, es: seq<Event>)
    requires s.ring.Shape() && Allowed(s, e) && !Race(s, e)
    ensures Run(s, [e] + es) == Run(Step(s, e), es)
    ensures Clean(s, [e] + es) <==> Clean(Step(s, e), es)
  {
    assert ([e] + es)[1..] == es;
  }

  /** After the race line 23 finds the indices equal and marks the empty ring full. */
  lemma RaceMarksEmptyFull(s: State)
    requires Inv(s) && Race(s, DrainTurn)
    ensures var s1, es := DrainStep(s), [ProducerTurn, DrainTurn, ProducerTurn];
            var s4 := Run(s1, es);
            && Clean(s1, es) && s4.ring.full && s4.drain == PollTx(s.drain.b)
            && s4.producer == Continue(s.producer.cur, s.producer.next)
            && Taken(s4) == s4.committed && FifosOk(s4.tx, s4.rx, s4.ready)
  {
    LastByteTaken(s);
    var s1, r := DrainStep(s), s.ring.(tail := s.ring.head);
    assert r.(full := false) == r;
    FlagGoesUp(s1);
  }

  lemma FlagGoesUp(s1: State)
    requires s1.ring.Shape() && s1.ring.head == s1.ring.tail && !s1.ring.full
    requires s1.producer.TestFull? && s1.drain.ClearFull?
    ensures var es := [ProducerTurn, DrainTurn, ProducerTurn];
            && Clean(s1, es)
            && Run(s1, es) == s1.(ring := s1.ring.(full := true), drain := PollTx(s1.drain.b),
                                  producer := Continue(s1.producer.cur, s1.producer.next))
  {
    var p := s1.producer;
    var s2 := s1.(producer := StoreFull(true, p.cur, p.next));
    var s3 := s2.(drain := PollTx(s1.drain.b), ring := s1.ring.(full := false));
    RunOne(s3, ProducerTurn, []);
    RunOne(s2, DrainTurn, [ProducerTurn]);
    RunOne(s1, ProducerTurn, [DrainTurn, ProducerTurn]);
  }

  lemma LastByteTaken(s: State)
    requires Inv(s) && Race(s, DrainTurn)
    ensures DrainStep(s) == s.(ring := s.ring.(tail := s.ring.head), drain := ClearFull(s.drain.b))
    ensures Taken(DrainStep(s)) == s.committed
  {
    OnlyOneQueued(s.ring, s.drain.b);
    HoldingOneMore(s);
  }

  lemma OnlyOneQueued(r: Ring, b: Byte)
    requires r.Valid() && !r.full && r.Count() > 0 && Wrap(r.tail + 1, r.Max()) == r.head && b == r.cells[r.tail]
    ensures r.Count() == 1 && r.Queue() == [b]
  {
    assert r.Count() == 1;
    assert r.Index(0) == r.tail;
  }

  /** A drain thread that finds an empty ring marked full takes a byte nobody published. */
  lemma FullEmptyRingIsDrained(s: State)
    requires s.ring.Shape() && s.ring.full && s.drain.PollTx? && |s.tx| < FIFO_DEPTH && !s.producer.TestFull?
    ensures var es := [DrainTurn, DrainTurn, DrainTurn, DrainTurn, DrainTurn];
            && Clean(s, es) && |Taken(Run(s, es))| == |Taken(s)| + 1 && Run(s, es).committed == s.committed
  {
    var s1 := s.(drain := PushTx(s.drain.b));
    var s2 := s.(tx := s.tx + [s.drain.b], drain := CheckFull);
    var s3 := s2.(drain := ReadCell);
    assert DrainStep(s2) == s3;
    ThreeTurns(s, s1, s2);
    TwoTurns(s3);
    RunInPieces(s, [DrainTurn, DrainTurn, DrainTurn], [DrainTurn, DrainTurn]);
    assert [DrainTurn, DrainTurn, DrainTurn] + [DrainTurn, DrainTurn]
        == [DrainTurn, DrainTurn, DrainTurn, DrainTurn, DrainTurn];
  }

  lemma TwoTurns(s3: State)
    requires s3.ring.Shape() && s3.drain == ReadCell && !s3.producer.TestFull?
    ensures var es := [DrainTurn, DrainTurn];
            && Clean(s3, es) && |Taken(Run(s3, es))| == |Taken(s3)| + 1 && Run(s3, es).committed == s3.committed
  {
    var s4 := s3.(drain := StoreTail(s3.ring.cells[s3.ring.tail]));
    RunOne(s4, DrainTurn, []);
    RunOne(s3, DrainTurn, [DrainTurn]);
  }

  /** A run that the race makes possible and that takes a byte nobody published. */
  lemma {:induction false} RaceBreaksIntegrity(s: State) returns (es: seq<Event>)
    requires Inv(s) && Race(s, DrainTurn)
    ensures var s1 := DrainStep(s);
            Clean(s1, es) && !(Taken(Run(s1, es)) <= Run(s1, es).committed)
  {
    var s1, flag := DrainStep(s), [ProducerTurn, DrainTurn, ProducerTurn];
    RaceMarksEmptyFull(s);
    var s4 := Run(s1, flag);
    RoomIsMade(s4);
    var s5 := Run(s4, MakeRoom(s4));
    FullEmptyRingIsDrained(s5);
    var five := [DrainTurn, DrainTurn, DrainTurn, DrainTurn, DrainTurn];
    RunInPieces(s4, MakeRoom(s4), five);
    RunInPieces(s1, flag, MakeRoom(s4) + five);
    es := flag + (MakeRoom(s4) + five);
  }

  /**
   Taking a byte off the ring is safe for every continuation if and only if it is not the last
   unread byte taken while the receive thread is between lines 22 and 23.
   */
  lemma {:induction false} DrainIsSafeExactlyWhen(s: State)
    requires Inv(s) && s.drain.StoreTail?
    ensures (forall es :: Clean(DrainStep(s), es) ==>
               Taken(Run(DrainStep(s), es)) <= Run(DrainStep(s), es).committed)
       <==> !(s.producer.TestFull? && s.ring.Count() == 1)
    ensures Race(s, DrainTurn) <==> s.producer.TestFull? && s.ring.Count() == 1
  {
    assert Race(s, DrainTurn) <==> s.producer.TestFull? && s.ring.Count() == 1;
    if Race(s, DrainTurn) {
      var es := RaceBreaksIntegrity(s);
    } else {
      StepKeeps(s, DrainTurn);
      forall es | Clean(DrainStep(s), es)
        ensures Taken(Run(DrainStep(s), es)) <= Run(DrainStep(s), es).committed
      {
        RunKeeps(DrainStep(s), es);
      }
    }
  }

  /** The drain thread never runs between lines 22 and 23: publication is one atomic step. */
  predicate AtomicPublication(s: State, es: seq<Event>)
    requires s.ring.Shape()
    decreases |es|
  {
    es == [] ||
    (Allowed(s, es[0]) && (s.producer.TestFull? ==> es[0] != DrainTurn) && AtomicPublication(Step(s, es[0]), es[1..]))
  }

  /** With atomic publication no run meets the race, so every guarantee of every clean run holds. */
  lemma {:induction false} AtomicPublicationIsClean(s: State, es: seq<Event>)
    requires s.ring.Shape() && AtomicPublication(s, es)
    ensures Clean(s, es)
    decreases |es|
  {
    if es != [] {
      AtomicPublicationIsClean(Step(s, es[0]), es[1..]);
    }
  }

  // ---- the race can happen ----

  /** INIT, one datagram of one byte, and its header published: `head` moved, flag not yet. */
  const UP_TO_HEAD: seq<Event> :=
    [Arrive([INIT]), Arrive([7]), ProducerTurn, ProducerTurn, ProducerTurn, ProducerTurn, ProducerTurn]

  /** One byte of the ring goes to the FIFO. */
  const ONE_BYTE: seq<Event> := [DrainTurn, DrainTurn, DrainTurn, DrainTurn, DrainTurn, DrainTurn, DrainTurn, DrainTurn]

  /** The drain thread is about to take another. */
  const ALMOST_ONE: seq<Event> := [DrainTurn, DrainTurn, DrainTurn, DrainTurn]

  /** A fresh server whose ring has `max` cells, all zero. */
  function FreshServer(max: nat): (s: State)
    requires 4 <= max < TWO_31
    ensures Init(s)
  {
    State(Little, Ring(seq(max, _ => 0), 0, 0, false), Waiting(0), CheckFull, [], [], false, START, [], [], [], [])
  }

  /** The same server with the header of the datagram published. */
  function HeaderPublished(max: nat): (s: State)
    requires 4 <= max < TWO_31
    ensures s.ring.Shape()
  {
    FreshServer(max).(ring := Ring(Overlay(seq(max, _ => 0), 0, [1, 0]), 2, 0, false), producer := TestFull([], [7]),
                      received := [[7]], admitted := [[7]], committed := [1, 0])
  }

  lemma PublishingHeader(max: nat)
    requires 4 <= max < TWO_31
    ensures Clean(FreshServer(max), UP_TO_HEAD) && Run(FreshServer(max), UP_TO_HEAD) == HeaderPublished(max)
  {
    var s0 := FreshServer(max);
    var s1 := s0.(producer := Receiving);
    var s2 := s0.(producer := SampleFull([7]), received := [[7]]);
    var five := [ProducerTurn, ProducerTurn, ProducerTurn, ProducerTurn, ProducerTurn];
    assert Step(s0, Arrive([INIT])) == s1;
    assert Step(s1, Arrive([7])) == s2;
    HeaderFromSample(max, s2);
    RunOne(s1, Arrive([7]), five);
    RunOne(s0, Arrive([INIT]), [Arrive([7])] + five);
    assert UP_TO_HEAD == [Arrive([INIT])] + ([Arrive([7])] + five);
  }

  lemma HeaderFromSample(max: nat, s2: State)
    requires 4 <= max < TWO_31
    requires s2 == FreshServer(max).(producer := SampleFull([7]), received := [[7]])
    ensures var five := [ProducerTurn, ProducerTurn, ProducerTurn, ProducerTurn, ProducerTurn];
            Clean(s2, five) && Run(s2, five) == HeaderPublished(max)
  {
    var s3 := s2.(producer := SampleOrder([7]));
    var s4 := s2.(producer := SampleSpace([7], false));
    var s5 := s2.(producer := Copy([1, 0], [7]), admitted := [[7]]);
    assert ProducerStep(s2) == s3;
    assert ProducerStep(s3) == s4;
    assert ProducerStep(s4) == s5;
    HeaderFromCopy(max, s5);
    RunOne(s4, ProducerTurn, [ProducerTurn, ProducerTurn]);
    RunOne(s3, ProducerTurn, [ProducerTurn, ProducerTurn, ProducerTurn]);
    RunOne(s2, ProducerTurn, [ProducerTurn, ProducerTurn, ProducerTurn, ProducerTurn]);
  }

  lemma HeaderFromCopy(max: nat, s5: State)
    requires 4 <= max < TWO_31
    requires s5 == FreshServer(max).(producer := Copy([1, 0], [7]), received := [[7]], admitted := [[7]])
    ensures Clean(s5, [ProducerTurn, ProducerTurn]) && Run(s5, [ProducerTurn, ProducerTurn]) == HeaderPublished(max)
  {
    var cells := Overlay(s5.ring.cells, 0, [1, 0]);
    var s6 := s5.(producer := StoreHead([1, 0], [7]), ring := s5.ring.(cells := cells));
    var h: seq<Byte> := [1, 0];
    assert h[..2] == h && h[2..] == [];
    assert ProducerStep(s5) == s6;
    var s7 := s6.(ring := Ring(cells, 2, 0, false), committed := [] + h[..2], producer := TestFull(h[2..], [7]));
    assert ProducerStep(s6) == s7;
    assert s7 == HeaderPublished(max);
    RunOne(s6, ProducerTurn, []);
    RunOne(s5, ProducerTurn, [ProducerTurn]);
  }

  /** Left alone, the drain thread at a non-empty ring reaches line 30 holding the oldest byte. */
  lemma {:induction false} ReadingAlone(s: State)
    requires s.ring.Valid() && !s.ring.full && s.ring.Count() > 0 && s.drain == CheckFull
    ensures Clean(s, ALMOST_ONE)
    ensures Run(s, ALMOST_ONE) == s.(drain := StoreTail(s.ring.Queue()[0]))
  {
    LooksAlone(s);
    assert s.ring.Index(0) == s.ring.tail;
    var s2 := s.(drain := CheckSpace(s.ring.head < s.ring.tail));
    var s3 := s.(drain := ReadCell);
    RunOne(s3, DrainTurn, []);
    RunOne(s2, DrainTurn, [DrainTurn]);
    RunInPieces(s, [DrainTurn, DrainTurn], [DrainTurn, DrainTurn]);
    assert [DrainTurn, DrainTurn] + [DrainTurn, DrainTurn] == ALMOST_ONE;
  }

  /** Two turns do the reads of `get_space`, the third decides on the number of unread bytes. */
  lemma LooksAlone(s: State)
    requires s.ring.Valid() && !s.ring.full && s.drain == CheckFull
    ensures var s2 := s.(drain := CheckSpace(s.ring.head < s.ring.tail));
            && Run(s, [DrainTurn, DrainTurn]) == s2 && Clean(s, [DrainTurn, DrainTurn])
            && DrainStep(s2) == s.(drain := if s.ring.Count() == 0 then CheckFull else ReadCell)
  {
    SpaceIsFree(s.ring);
    RunOne(s.(drain := CheckOrder), DrainTurn, []);
    RunOne(s, DrainTurn, [DrainTurn]);
  }

  /**
   Left alone, the drain thread at a non-empty ring does `read_data_buffer` and writes the byte
   out; at an empty ring it only looks.
   */
  lemma {:induction false} DrainingAlone(s: State)
    requires s.ring.Valid() && !s.ring.full && s.drain == CheckFull && |s.tx| < FIFO_DEPTH
    ensures s.ring.Count() > 0 ==> Run(s, ONE_BYTE) == s.(ring := Take(s.ring), tx := s.tx + [s.ring.Queue()[0]])
    ensures s.ring.Count() > 0 && !(s.producer.TestFull? && s.ring.Count() == 1) ==> Clean(s, ONE_BYTE)
    ensures s.ring.Count() == 0 ==> Run(s, [DrainTurn, DrainTurn, DrainTurn]) == s
  {
    if s.ring.Count() > 0 {
      ReadingAlone(s);
      var b := s.ring.Queue()[0];
      assert ONE_BYTE == ALMOST_ONE + ALMOST_ONE;
      RunInPieces(s, ALMOST_ONE, ALMOST_ONE);
      WritingOutAlone(s.(drain := StoreTail(b)));
    } else {
      LookingAlone(s);
    }
  }

  lemma {:induction false} WritingOutAlone(s4: State)
    requires s4.ring.Shape() && s4.drain.StoreTail? && |s4.tx| < FIFO_DEPTH
    ensures Run(s4, ALMOST_ONE) == s4.(ring := Take(s4.ring), tx := s4.tx + [s4.drain.b], drain := CheckFull)
    ensures !Race(s4, DrainTurn) ==> Clean(s4, ALMOST_ONE)
  {
    var r, b := s4.ring, s4.drain.b;
    var s5 := s4.(ring := r.(tail := Wrap(r.tail + 1, r.Max())), drain := ClearFull(b));
    assert DrainStep(s4) == s5;
    var s6 := s4.(ring := Take(r), drain := PollTx(b));
    assert DrainStep(s5) == s6;
    ThreeTurns(s5, s6, s6.(drain := PushTx(b)));
    assert ALMOST_ONE[1..] == [DrainTurn, DrainTurn, DrainTurn];
  }

  lemma ThreeTurns(s5: State, s6: State, s7: State)
    requires s5.ring.Shape() && !s5.drain.StoreTail? && !s6.drain.StoreTail? && !s7.drain.StoreTail?
    requires s6 == DrainStep(s5) && s7 == DrainStep(s6)
    ensures Run(s5, [DrainTurn, DrainTurn, DrainTurn]) == DrainStep(s7)
    ensures Clean(s5, [DrainTurn, DrainTurn, DrainTurn])
  {
    RunOne(s7, DrainTurn, []);
    RunOne(s6, DrainTurn, [DrainTurn]);
    RunOne(s5, DrainTurn, [DrainTurn, DrainTurn]);
  }

  lemma LookingAlone(s: State)
    requires s.ring.Valid() && !s.ring.full && s.drain == CheckFull && s.ring.Count() == 0
    ensures Run(s, [DrainTurn, DrainTurn, DrainTurn]) == s
  {
    LooksAlone(s);
    ThreeTurns(s, s.(drain := CheckOrder), s.(drain := CheckSpace(s.ring.head < s.ring.tail)));
  }

  /** From a fresh server with a ring of any usable size a clean run leads right to the race. */
  lemma {:induction false} RaceIsReachable(max: nat)
    requires 4 <= max < TWO_31
    ensures var s0, es := FreshServer(max), UP_TO_HEAD + (ONE_BYTE + ALMOST_ONE);
            Init(s0) && Clean(s0, es) && Race(Run(s0, es), DrainTurn)
  {
    var s := HeaderPublished(max);
    PublishingHeader(max);
    RunInPieces(FreshServer(max), UP_TO_HEAD, ONE_BYTE + ALMOST_ONE);
    DrainingAlone(s);
    RunInPieces(s, ONE_BYTE, ALMOST_ONE);
    ReadingAlone(Run(s, ONE_BYTE));
  }

  // ---- without interleaving ----

  function Turns(n: nat): (es: seq<Event>)
    ensures |es| == n
  {
    if n == 0 then [] else [ProducerTurn] + Turns(n - 1)
  }

  lemma {:induction false} TurnsAdd(s: State, a: nat, b: nat)
    requires s.ring.Shape()
    ensures Run(s, Turns(a + b)) == Run(Run(s, Turns(a)), Turns(b))
    decreases a
  {
    if a > 0 {
      assert Turns(a + b)[1..] == Turns(a - 1 + b);
      assert Turns(a)[1..] == Turns(a - 1);
      TurnsAdd(ProducerStep(s), a - 1, b);
    }
  }

  lemma OneTurn(s: State)
    requires s.ring.Shape()
    ensures Run(s, Turns(1)) == ProducerStep(s)
  {
    assert Turns(1)[1..] == [];
  }

  lemma FourTurns(s: State)
    requires s.ring.Shape()
    ensures Run(s, Turns(4)) == ProducerStep(ProducerStep(ProducerStep(ProducerStep(s))))
  {
    var s1 := ProducerStep(s);
    var s2 := ProducerStep(s1);
    var s3 := ProducerStep(s2);
    OneTurn(s); OneTurn(s1); OneTurn(s2); OneTurn(s3);
    TurnsAdd(s, 1, 3); TurnsAdd(s1, 1, 2); TurnsAdd(s2, 1, 1);
  }

  lemma SegmentSteps(s: State)
    requires s.ring.Shape() && s.producer.Copy? && s.producer.cur != []
    ensures var r, cur, next := s.ring, s.producer.cur, s.producer.next;
            var n := SegmentLength(r, cur);
            var cells, h := Overlay(r.cells, r.head, cur[..n]), Wrap(r.head + n, r.Max());
            ProducerStep(ProducerStep(ProducerStep(s))) ==
            s.(ring := r.(cells := cells, head := h), committed := s.committed + cur[..n],
               producer := StoreFull(h == r.tail, cur[n..], next))
  {
    var r, cur, next, n := s.ring, s.producer.cur, s.producer.next, SegmentLength(s.ring, s.producer.cur);
    var s1 := s.(ring := r.(cells := Overlay(r.cells, r.head, cur[..n])), producer := StoreHead(cur, next));
    assert ProducerStep(s) == s1;
    assert SegmentLength(s1.ring, cur) == n;
  }

  /** Four turns in a row write one segment as the reference `Write` does. */
  lemma {:induction false} SegmentAlone(s: State)
    requires s.ring.Shape() && s.producer.Copy? && s.producer.cur != []
    ensures var cur, n := s.producer.cur, SegmentLength(s.ring, s.producer.cur);
            Run(s, Turns(4)) == s.(ring := Write(s.ring, cur[..n]),
                                   producer := Continue(cur[n..], s.producer.next),
                                   committed := s.committed + cur[..n])
  {
    FourTurns(s);
    SegmentSteps(s);
    PutSegment(s.ring, s.producer.cur[..SegmentLength(s.ring, s.producer.cur)]);
  }

  /** One call of `send_data_buffer`, left alone, is the reference `Write` of its data. */
  lemma {:induction false} CallAlone(s: State) returns (k: nat)
    requires s.ring.Shape() && s.producer.Copy? && s.producer.cur != []
    ensures Run(s, Turns(k)) == s.(ring := Write(s.ring, s.producer.cur),
                                   producer := Continue([], s.producer.next),
                                   committed := s.committed + s.producer.cur)
    decreases |s.producer.cur|
  {
    var cur, next, n := s.producer.cur, s.producer.next, SegmentLength(s.ring, s.producer.cur);
    SegmentAlone(s);
    assert cur == cur[..n] + cur[n..];
    k := 0;
    if n < |cur| {
      WriteSplit(s.ring, cur, n);
      k := CallAlone(s.(ring := Write(s.ring, cur[..n]), producer := Copy(cur[n..], next), committed := s.committed + cur[..n]));
      Assoc(s.committed, cur[..n], cur[n..]);
    } else {
      assert cur[..n] == cur && cur[n..] == [];
    }
    TurnsAdd(s, 4, k);
    k := 4 + k;
  }

  /**
   How many commits a call takes, left alone: four turns, with one store to `head`, if its data
   ends before the array does, and otherwise twice that, the first four of which take `head` to
   the array end.
   */
  lemma {:induction false} OneCommitOrTwo(s: State)
    requires s.ring.Shape() && s.producer.Copy? && 0 < |s.producer.cur| <= s.ring.Max()
    ensures var cur, split := s.producer.cur, s.ring.head + |s.producer.cur| > s.ring.Max();
            && Run(s, Turns(if split then 8 else 4)) == s.(ring := Write(s.ring, cur),
                                                           producer := Continue([], s.producer.next),
                                                           committed := s.committed + cur)
            && (split ==> var half := Run(s, Turns(4));
                          half.ring.head == 0 && half.producer.Copy? && half.producer.cur != []
                          && half.committed + half.producer.cur == s.committed + cur)
  {
    var cur, n := s.producer.cur, SegmentLength(s.ring, s.producer.cur);
    SegmentAlone(s);
    if n == |cur| {
      assert cur[..n] == cur && cur[n..] == [];
    } else {
      SplitCall(s, s.(ring := Write(s.ring, cur[..n]), producer := Copy(cur[n..], s.producer.next),
                      committed := s.committed + cur[..n]));
      assert cur == cur[..n] + cur[n..];
      Assoc(s.committed, cur[..n], cur[n..]);
      TurnsAdd(s, 4, 4);
    }
  }

  lemma SplitCall(s: State, half: State)
    requires s.ring.Shape() && s.producer.Copy? && 0 < |s.producer.cur| <= s.ring.Max()
    requires var cur, n := s.producer.cur, SegmentLength(s.ring, s.producer.cur);
             && 0 < n < |cur|
             && half == s.(ring := Write(s.ring, cur[..n]), producer := Copy(cur[n..], s.producer.next),
                           committed := s.committed + cur[..n])
    ensures half.ring.head == 0
    ensures Run(half, Turns(4)) == s.(ring := Write(s.ring, s.producer.cur), producer := Continue([], s.producer.next),
                                      committed := s.committed + s.producer.cur)
  {
    var cur, n := s.producer.cur, SegmentLength(s.ring, s.producer.cur);
    PutSegment(s.ring, cur[..n]);
    WholeSegment(half);
    WriteSplit(s.ring, cur, n);
    assert cur == cur[..n] + cur[n..];
    Assoc(s.committed, cur[..n], cur[n..]);
  }

  /** A call that ends before the array does is one segment. */
  lemma WholeSegment(s: State)
    requires s.ring.Shape() && s.producer.Copy? && s.producer.cur != []
    requires s.ring.head + |s.producer.cur| <= s.ring.Max()
    ensures var cur := s.producer.cur;
            Run(s, Turns(4)) == s.(ring := Write(s.ring, cur), producer := Continue([], s.producer.next),
                                   committed := s.committed + cur)
  {
    var cur := s.producer.cur;
    SegmentAlone(s);
    assert cur[..|cur|] == cur && cur[|cur|..] == [];
  }

  /** The two calls of `send_packet_buffer`, header and payload, left alone. */
  lemma {:induction false} WritingAlone(s: State) returns (k: nat)
    requires s.ring.Shape() && s.producer.Copy? && s.producer.cur != [] && s.producer.next != []
    ensures var cur, next := s.producer.cur, s.producer.next;
            Run(s, Turns(k)) == s.(ring := Write(Write(s.ring, cur), next), producer := Receiving,
                                   committed := s.committed + (cur + next))
  {
    var cur, next := s.producer.cur, s.producer.next;
    var k1 := CallAlone(s);
    var k2 := CallAlone(s.(ring := Write(s.ring, cur), producer := Copy(next, []), committed := s.committed + cur));
    Assoc(s.committed, cur, next);
    TurnsAdd(s, k1, k2);
    k := k1 + k2;
  }

  /**
   Left alone, the receive thread does to the ring what `send_packet_buffer` does, and goes
   back to receive; nothing else changes hands.
   */
  lemma {:induction false} AdmittingAlone(s: State) returns (k: nat)
    requires s.ring.Valid() && s.producer.SampleFull? && s.producer.d != []
    ensures var d, r := s.producer.d, Admission(s.order, s.ring, s.producer.d);
            Run(s, Turns(k)) ==
            if Space(s.ring) > |d| + 2
            then s.(ring := r, producer := Receiving, admitted := s.admitted + [d],
                    committed := s.committed + Frame(s.order, d))
            else s.(ring := r, producer := Receiving)
  {
    if s.ring.full {
      OneTurn(s);
      return 1;
    }
    var s3 := SamplingAlone(s);
    k := 3;
    if s3.producer.Copy? {
      var m := WritingAlone(s3);
      TurnsAdd(s, 3, m);
      k := 3 + m;
    }
  }

  /** Three turns in a row compute `get_space` and decide. */
  lemma SamplingAlone(s: State) returns (s3: State)
    requires s.ring.Shape() && s.producer.SampleFull? && !s.ring.full
    ensures var d := s.producer.d;
            s3 == Run(s, Turns(3)) ==
            if Space(s.ring) > |d| + 2
            then s.(producer := Copy(Header(s.order, |d|), d), admitted := s.admitted + [d])
            else s.(producer := Receiving)
  {
    var s1 := s.(producer := SampleOrder(s.producer.d));
    assert ProducerStep(s) == s1;
    var s2 := s.(producer := SampleSpace(s.producer.d, s.ring.head < s.ring.tail));
    assert ProducerStep(s1) == s2;
    s3 := ProducerStep(s2);
    OneTurn(s); OneTurn(s1); OneTurn(s2);
    TurnsAdd(s, 1, 2); TurnsAdd(s1, 1, 1);
  }
}
