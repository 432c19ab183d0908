/**
 The invariant of the state machine: what ties indices, program counters and FIFOs together, and
 what ties the bytes on the way to the datagrams. Every step, the race aside, keeps it.
 */
module Invariant {
  import opened Basics
  import opened MachineInts
  import opened Ring
  import opened Framing
  import opened Servers
  import opened Pipeline

  // ---- what is where ----

  /** The byte the drain thread has removed from the ring and not yet written out. */
  function Held(d: Drain): seq<Byte> {
    match d
    case ClearFull(b) => [b]
    case PollTx(b) => [b]
    case PushTx(b) => [b]
    case _ => []
  }

  /** Everything that has left the ring, in order. */
  function Taken(s: State): seq<Byte> {
    s.consumed + (s.rx + (s.tx + Held(s.drain)))
  }

  /** Bytes of the admitted datagram that are not published yet. */
  function Uncommitted(p: Producer): seq<Byte> {
    match p
    case Copy(cur, next) => cur + next
    case StoreHead(cur, next) => cur + next
    case TestFull(cur, next) => cur + next
    case StoreFull(_, cur, next) => cur + next
    case _ => []
  }

  predicate Sampling(p: Producer) {
    p.SampleFull? || p.SampleOrder? || p.SampleSpace?
  }

  /** Datagrams received and already admitted or dropped. */
  function Decided(p: Producer, received: seq<seq<Byte>>): seq<seq<Byte>> {
    if Sampling(p) && received != [] then received[..|received| - 1] else received
  }

  // ---- the invariant ----

  ghost predicate ProducerOk(r: Ring, p: Producer)
    requires r.Shape()
  {
    && (p.SampleSpace? && !p.wrapped ==> r.tail <= r.head)
    && (p.Copy? || p.StoreHead? ==> p.cur != [])
    && r.Count() + |Uncommitted(p)| < r.Max()
    && (p.StoreHead? ==> var n := SegmentLength(r, p.cur); r.cells[r.head..r.head + n] == p.cur[..n])
    && (p.TestFull? ==> r.head != r.tail)
    && (p.StoreFull? ==> !p.flag)
  }

  ghost predicate DrainOk(r: Ring, d: Drain, tx: seq<Byte>)
    requires r.Shape()
  {
    && (d.CheckSpace? && d.wrapped ==> r.head < r.tail)
    && (d.ReadCell? ==> r.Count() > 0)
    && (d.StoreTail? ==> r.Count() > 0 && d.b == r.cells[r.tail])
    && (d.PushTx? ==> |tx| < FIFO_DEPTH)
  }

  ghost predicate FifosOk(tx: seq<Byte>, rx: seq<Byte>, ready: bool) {
    |tx| <= FIFO_DEPTH && |rx| <= FIFO_DEPTH && (ready ==> rx != [])
  }

  /** Indices, program counters and FIFOs fit together. */
  ghost predicate RingSide(s: State) {
    && s.ring.Valid() && !s.ring.full
    && ProducerOk(s.ring, s.producer)
    && DrainOk(s.ring, s.drain, s.tx)
    && FifosOk(s.tx, s.rx, s.ready)
  }

  /** No byte is lost, made up or reordered on the way. */
  ghost predicate FlowOk(committed: seq<Byte>, taken: seq<Byte>, queue: seq<Byte>) {
    committed == taken + queue
  }

  /** The published bytes are the admitted frames, up to what is still to be published. */
  ghost predicate StreamOk(o: Order, admitted: seq<seq<Byte>>, committed: seq<Byte>, rest: seq<Byte>) {
    Small(admitted) && Stream(o, admitted) == committed + rest
  }

  ghost predicate ParseOk(o: Order, p: Parse, consumed: seq<Byte>) {
    p == FeedAll(o, START, consumed)
  }

  ghost predicate OrderOk(p: Producer, received: seq<seq<Byte>>, admitted: seq<seq<Byte>>) {
    && (Sampling(p) ==> p.d != [] && received != [] && received[|received| - 1] == p.d)
    && (p.Waiting? ==> received == [])
    && IsSubsequence(admitted, Decided(p, received))
  }

  /** The bytes on the way are those of the datagrams. */
  ghost predicate StreamSide(s: State)
    requires s.ring.Shape()
  {
    && FlowOk(s.committed, Taken(s), s.ring.Queue())
    && StreamOk(s.order, s.admitted, s.committed, Uncommitted(s.producer))
    && ParseOk(s.order, s.parse, s.consumed)
    && OrderOk(s.producer, s.received, s.admitted)
  }

  ghost predicate Inv(s: State) {
    RingSide(s) && StreamSide(s)
  }

  lemma InitHolds(s: State)
    requires Init(s)
    ensures Inv(s)
  {
    InitRing(s);
    InitStream(s);
  }

  lemma InitRing(s: State)
    requires Init(s)
    ensures RingSide(s) && s.ring.Count() == 0
  {
  }

  lemma InitStream(s: State)
    requires Init(s)
    ensures StreamSide(s)
  {
    NothingPending(s.producer);
    NothingYet(s.order);
    EmptyIsSubsequence(Decided(s.producer, s.received));
    assert s.ring.Queue() == [] && Taken(s) == [];
  }

  lemma NothingYet(o: Order)
    ensures FlowOk([], [], []) && StreamOk(o, [], [], []) && ParseOk(o, START, [])
  {
  }

  // ---- what the non-atomic get_space is worth ----

  /**
   The receive thread's `get_space`: whatever the drain thread does between the comparison and
   the second read, the result is the free space at the second read, unless `tail` has passed
   the array end in between; then it is at most 0.
   */
  lemma SampledSpace(s: State)
    requires RingSide(s) && s.producer.SampleSpace?
    ensures var r, wrapped := s.ring, s.producer.wrapped;
            var space := SpaceFrom(wrapped, r.head, r.tail, r.Max());
            if wrapped && r.tail <= r.head then space <= 0 else space == r.Max() - r.Count()
  {
  }

  /**
   The drain thread's `buffer_is_empty`: whatever the receive thread publishes between the
   comparison and the second read, the answer is exact at the second read.
   */
  lemma EmptyTestIsExact(s: State)
    requires RingSide(s) && s.drain.CheckSpace?
    ensures var r := s.ring;
            SizeT(SpaceFrom(s.drain.wrapped, r.head, r.tail, r.Max())) == r.Max() <==> r.Count() == 0
  {
  }

  // ---- indices, program counters and FIFOs ----

  lemma ArrivalRing(s: State, d: Packet)
    requires RingSide(s)
    ensures RingSide(Arrival(s, d))
  {
  }

  /** Exactly when the receive thread admits: the frame fits, and `tail` has not passed the array end. */
  lemma DecisionRing(s: State)
    requires RingSide(s) && s.producer.SampleSpace?
    ensures RingSide(ProducerStep(s)) && (ProducerStep(s).producer.Copy? || ProducerStep(s).producer == Receiving)
    ensures ProducerStep(s).producer.Copy? <==>
            !(s.producer.wrapped && s.ring.tail <= s.ring.head) && s.ring.Count() + |s.producer.d| + 2 < s.ring.Max()
  {
    SampledSpace(s);
    assert ProducerStep(s).ring == s.ring;
  }

  lemma CopyRing(s: State)
    requires RingSide(s) && s.producer.Copy?
    ensures RingSide(ProducerStep(s)) && ProducerStep(s).ring.Count() == s.ring.Count()
  {
    var r, cur, next := s.ring, s.producer.cur, s.producer.next;
    var seg := cur[..SegmentLength(r, cur)];
    OverlayIsFree(r, seg);
    CellsOnly(r, Overlay(r.cells, r.head, seg), cur, next, s.drain, s.tx);
  }

  /** A copy goes to free cells only: no unread byte changes. */
  lemma CopyKeepsQueue(s: State)
    requires RingSide(s) && s.producer.Copy?
    ensures ProducerStep(s).ring.Queue() == s.ring.Queue()
  {
    OverlayKeepsQueue(s.ring, s.producer.cur[..SegmentLength(s.ring, s.producer.cur)]);
  }

  lemma CellsOnly(r: Ring, cells: seq<Byte>, cur: seq<Byte>, next: seq<Byte>, d: Drain, tx: seq<Byte>)
    requires r.Shape() && |cells| == r.Max()
    requires ProducerOk(r, Copy(cur, next)) && DrainOk(r, d, tx)
    requires r.Count() > 0 ==> cells[r.tail] == r.cells[r.tail]
    requires var n := SegmentLength(r, cur); cells[r.head..r.head + n] == cur[..n]
    ensures var r' := r.(cells := cells);
            ProducerOk(r', StoreHead(cur, next)) && DrainOk(r', d, tx)
  {
  }

  lemma PublishRing(s: State)
    requires RingSide(s) && s.producer.StoreHead?
    ensures RingSide(ProducerStep(s))
    ensures ProducerStep(s).ring.Count() == s.ring.Count() + SegmentLength(s.ring, s.producer.cur)
  {
    var r, cur, next := s.ring, s.producer.cur, s.producer.next;
    HeadOnly(r, Wrap(r.head + SegmentLength(r, cur), r.Max()), cur, next, s.drain, s.tx);
  }

  /** Publishing `head` appends exactly the copied segment. */
  lemma PublishAppends(s: State)
    requires RingSide(s) && s.producer.StoreHead?
    ensures var n := SegmentLength(s.ring, s.producer.cur);
            ProducerStep(s).ring.Queue() == s.ring.Queue() + s.producer.cur[..n]
  {
    AdvanceAppends(s.ring, s.producer.cur, SegmentLength(s.ring, s.producer.cur));
  }

  lemma HeadOnly(r: Ring, h: nat, cur: seq<Byte>, next: seq<Byte>, d: Drain, tx: seq<Byte>)
    requires r.Shape() && !r.full && h == Wrap(r.head + SegmentLength(r, cur), r.Max())
    requires ProducerOk(r, StoreHead(cur, next)) && DrainOk(r, d, tx)
    ensures var r', n := r.(head := h), SegmentLength(r, cur);
            && r'.Count() == r.Count() + n
            && ProducerOk(r', TestFull(cur[n..], next)) && DrainOk(r', d, tx)
  {
  }

  lemma FlagRing(s: State)
    requires RingSide(s) && s.producer.StoreFull?
    ensures RingSide(ProducerStep(s)) && ProducerStep(s).ring == s.ring
    ensures Uncommitted(ProducerStep(s).producer) == Uncommitted(s.producer)
  {
    var p := s.producer;
    assert s.ring.(full := false) == s.ring;
    assert [] + p.next == p.next + [] == p.next;
  }

  lemma ProducerRing(s: State)
    requires RingSide(s)
    ensures RingSide(ProducerStep(s))
  {
    match s.producer
    case SampleSpace(_, _) => DecisionRing(s);
    case Copy(_, _) => CopyRing(s);
    case StoreHead(_, _) => PublishRing(s);
    case StoreFull(_, _, _) => FlagRing(s);
    case _ =>
  }

  /** Outside the race, taking a byte leaves something to a pending test. */
  lemma TakeRing(s: State)
    requires RingSide(s) && s.drain.StoreTail? && !Race(s, DrainTurn)
    ensures RingSide(DrainStep(s))
    ensures DrainStep(s).ring.Count() == s.ring.Count() - 1
  {
    TailOnly(s.ring, Wrap(s.ring.tail + 1, s.ring.Max()), s.producer);
  }

  /** The byte taken is the oldest. */
  lemma TakesOldest(s: State)
    requires RingSide(s) && s.drain.StoreTail?
    ensures [s.drain.b] + DrainStep(s).ring.Queue() == s.ring.Queue()
  {
    TakeRemovesExactlyWhen(s.ring);
    assert DrainStep(s).ring == Take(s.ring);
  }

  lemma TailOnly(r: Ring, t: nat, p: Producer)
    requires r.Shape() && !r.full && r.Count() > 0 && t == Wrap(r.tail + 1, r.Max())
    requires ProducerOk(r, p) && (p.TestFull? ==> t != r.head)
    ensures r.(tail := t).Count() == r.Count() - 1
    ensures ProducerOk(r.(tail := t), p)
  {
  }

  lemma LookRing(s: State)
    requires RingSide(s) && !s.drain.StoreTail? && !s.drain.PushTx?
    ensures RingSide(DrainStep(s)) && DrainStep(s).ring == s.ring && Held(DrainStep(s).drain) == Held(s.drain)
  {
    assert s.ring.(full := false) == s.ring;
    if s.drain.CheckSpace? {
      EmptyTestIsExact(s);
    }
  }

  lemma DrainRing(s: State)
    requires RingSide(s) && !Race(s, DrainTurn)
    ensures RingSide(DrainStep(s))
  {
    match s.drain
    case StoreTail(_) => TakeRing(s);
    case PushTx(_) =>
    case _ => LookRing(s);
  }

  lemma LinkRing(s: State)
    requires RingSide(s)
    ensures RingSide(LinkStep(s))
  {
  }

  lemma ClientRing(s: State)
    requires RingSide(s)
    ensures RingSide(ClientStep(s))
  {
  }

  // ---- bytes and datagrams ----

  /** A step that moves nothing between the parts keeps what is said about the parts. */
  lemma NothingMoves(s: State, s': State)
    requires s.ring.Shape() && s'.ring == s.ring && StreamSide(s)
    requires s'.order == s.order && s'.admitted == s.admitted && s'.committed == s.committed
    requires s'.parse == s.parse && s'.consumed == s.consumed
    requires Taken(s') == Taken(s)
    requires Uncommitted(s'.producer) == Uncommitted(s.producer)
    requires OrderOk(s'.producer, s'.received, s'.admitted)
    ensures StreamSide(s')
  {
  }

  lemma SubsequenceSkip<T>(a: seq<T>, b: seq<T>, x: T)
    requires IsSubsequence(a, b)
    ensures IsSubsequence(a, b + [x])
  {
    var picked: seq<nat> :| PickedFrom(a, b, picked);
    assert PickedFrom(a, b + [x], picked);
  }

  lemma SubsequenceBoth<T>(a: seq<T>, b: seq<T>, x: T)
    requires IsSubsequence(a, b)
    ensures IsSubsequence(a + [x], b + [x])
  {
    var picked: seq<nat> :| PickedFrom(a, b, picked);
    assert PickedFrom(a + [x], b + [x], picked + [|b|]);
  }

  /** The receive thread's turn leaves the datagrams received, and their fate, alone. */
  lemma SameOrder(p: Producer, p': Producer, received: seq<seq<Byte>>, admitted: seq<seq<Byte>>)
    requires OrderOk(p, received, admitted) && Sampling(p) == Sampling(p') && !p'.Waiting?
    requires Sampling(p) ==> p.d == p'.d
    ensures OrderOk(p', received, admitted)
  {
  }

  lemma ArrivalOrder(s: State, d: Packet)
    requires OrderOk(s.producer, s.received, s.admitted) && Allowed(s, Arrive(d))
    ensures var s' := Arrival(s, d); OrderOk(s'.producer, s'.received, s'.admitted)
  {
    var s' := Arrival(s, d);
    if s.producer == Receiving && d != [] {
      assert s'.received[..|s'.received| - 1] == s.received;
    }
  }

  lemma NothingPending(p: Producer)
    requires p.Waiting? || p == Receiving || Sampling(p)
    ensures Uncommitted(p) == []
  {
  }

  lemma ArrivalStream(s: State, d: Packet)
    requires s.ring.Shape() && StreamSide(s) && Allowed(s, Arrive(d))
    ensures StreamSide(Arrival(s, d))
  {
    ArrivalOrder(s, d);
    var p, received := Arrival(s, d).producer, Arrival(s, d).received;
    NothingPending(p);
    NothingPending(s.producer);
    NothingMoves(s, s.(producer := p, received := received));
  }

  lemma DropOrder(p: Producer, received: seq<seq<Byte>>, admitted: seq<seq<Byte>>)
    requires OrderOk(p, received, admitted) && p.SampleSpace?
    ensures OrderOk(Receiving, received, admitted)
  {
    SubsequenceSkip(admitted, Decided(p, received), p.d);
    assert Decided(p, received) + [p.d] == received;
  }

  lemma AdmitOrder(p: Producer, h: seq<Byte>, received: seq<seq<Byte>>, admitted: seq<seq<Byte>>)
    requires OrderOk(p, received, admitted) && p.SampleSpace?
    ensures OrderOk(Copy(h, p.d), received, admitted + [p.d])
  {
    SubsequenceBoth(admitted, Decided(p, received), p.d);
    assert Decided(p, received) + [p.d] == received;
  }

  /** Admitting a datagram promises its frame. */
  lemma FrameIsPromised(o: Order, admitted: seq<seq<Byte>>, committed: seq<Byte>, d: Packet)
    requires StreamOk(o, admitted, committed, [])
    ensures StreamOk(o, admitted + [d], committed, Header(o, |d|) + d)
  {
    StreamAppend(o, admitted, d);
    assert committed + [] == committed;
  }

  lemma AdmitStream(s: State)
    requires s.ring.Shape() && StreamSide(s) && s.producer.SampleSpace? && ProducerStep(s).producer.Copy?
    ensures StreamSide(ProducerStep(s))
  {
    var d := s.producer.d;
    var h := Header(s.order, |d|);
    FrameIsPromised(s.order, s.admitted, s.committed, d);
    AdmitOrder(s.producer, h, s.received, s.admitted);
    var s' := s.(producer := Copy(h, d), admitted := s.admitted + [d]);
    assert ProducerStep(s) == s';
    assert Taken(s') == Taken(s);
  }

  /** A segment more is published, a segment less is to be published. */
  lemma BytesMoveOn(o: Order, admitted: seq<seq<Byte>>, committed: seq<Byte>, taken: seq<Byte>,
                    queue: seq<Byte>, cur: seq<Byte>, next: seq<Byte>, n: nat)
    requires n <= |cur| && FlowOk(committed, taken, queue) && StreamOk(o, admitted, committed, cur + next)
    ensures FlowOk(committed + cur[..n], taken, queue + cur[..n])
    ensures StreamOk(o, admitted, committed + cur[..n], cur[n..] + next)
  {
    Assoc(taken, queue, cur[..n]);
    assert cur == cur[..n] + cur[n..];
    Assoc(cur[..n], cur[n..], next);
    Assoc(committed, cur[..n], cur[n..] + next);
  }

  lemma PublishStream(s: State)
    requires RingSide(s) && StreamSide(s) && s.producer.StoreHead?
    ensures StreamSide(ProducerStep(s))
  {
    var cur, next, n := s.producer.cur, s.producer.next, SegmentLength(s.ring, s.producer.cur);
    PublishAppends(s);
    BytesMoveOn(s.order, s.admitted, s.committed, Taken(s), s.ring.Queue(), cur, next, n);
    SameOrder(s.producer, TestFull(cur[n..], next), s.received, s.admitted);
    var s' := s.(ring := MoveHead(s.ring, n), committed := s.committed + cur[..n], producer := TestFull(cur[n..], next));
    assert ProducerStep(s) == s';
    assert Taken(s') == Taken(s);
  }

  lemma SampleStream(s: State)
    requires s.ring.Shape() && StreamSide(s) && (s.producer.SampleFull? || s.producer.SampleOrder?) && !s.ring.full
    ensures StreamSide(ProducerStep(s))
  {
    var p := ProducerStep(s).producer;
    SameOrder(s.producer, p, s.received, s.admitted);
    NothingPending(p);
    NothingPending(s.producer);
    NothingMoves(s, s.(producer := p));
  }

  lemma DropStream(s: State)
    requires s.ring.Shape() && StreamSide(s) && s.producer.SampleSpace? && ProducerStep(s).producer == Receiving
    ensures StreamSide(ProducerStep(s))
  {
    DropOrder(s.producer, s.received, s.admitted);
    NothingPending(s.producer);
    NothingMoves(s, s.(producer := Receiving));
  }

  lemma CopyStream(s: State)
    requires RingSide(s) && StreamSide(s) && s.producer.Copy?
    ensures StreamSide(ProducerStep(s))
  {
    CopyKeepsQueue(s);
    SameOrder(s.producer, ProducerStep(s).producer, s.received, s.admitted);
    assert Taken(ProducerStep(s)) == Taken(s);
    assert Uncommitted(ProducerStep(s).producer) == Uncommitted(s.producer);
  }

  lemma TestStream(s: State)
    requires s.ring.Shape() && StreamSide(s) && s.producer.TestFull?
    ensures StreamSide(ProducerStep(s))
  {
    var cur, next := s.producer.cur, s.producer.next;
    var p := StoreFull(s.ring.head == s.ring.tail, cur, next);
    assert ProducerStep(s) == s.(producer := p);
    assert Uncommitted(p) == cur + next && Uncommitted(s.producer) == cur + next;
    SameOrder(s.producer, p, s.received, s.admitted);
    NothingMoves(s, s.(producer := p));
  }

  lemma FlagStream(s: State)
    requires RingSide(s) && StreamSide(s) && s.producer.StoreFull?
    ensures StreamSide(ProducerStep(s))
  {
    var p := ProducerStep(s).producer;
    FlagRing(s);
    SameOrder(s.producer, p, s.received, s.admitted);
    NothingMoves(s, s.(producer := p));
  }

  lemma ProducerStream(s: State)
    requires RingSide(s) && StreamSide(s)
    ensures StreamSide(ProducerStep(s))
  {
    match s.producer
    case Waiting(_) =>
    case Receiving =>
    case SampleSpace(_, _) =>
      if ProducerStep(s).producer.Copy? { AdmitStream(s); } else { DropStream(s); }
    case Copy(_, _) => CopyStream(s);
    case StoreHead(_, _) => PublishStream(s);
    case TestFull(_, _) => TestStream(s);
    case StoreFull(_, _, _) => FlagStream(s);
    case _ => SampleStream(s);
  }

  lemma TakeFlow(committed: seq<Byte>, taken: seq<Byte>, b: Byte, rest: seq<Byte>)
    requires FlowOk(committed, taken, [b] + rest)
    ensures FlowOk(committed, taken + [b], rest)
  {
    Assoc(taken, [b], rest);
  }

  lemma HoldingOneMore(s: State)
    requires s.ring.Shape() && s.drain.StoreTail?
    ensures Taken(DrainStep(s)) == Taken(s) + [s.drain.b]
  {
    assert s.tx + [] == s.tx;
    Assoc(s.rx, s.tx, [s.drain.b]);
    Assoc(s.consumed, s.rx + s.tx, [s.drain.b]);
  }

  lemma TakeStream(s: State)
    requires RingSide(s) && StreamSide(s) && s.drain.StoreTail? && !Race(s, DrainTurn)
    ensures StreamSide(DrainStep(s))
    ensures Taken(DrainStep(s)) == Taken(s) + [s.drain.b]
  {
    TakesOldest(s);
    HoldingOneMore(s);
    TakeFlow(s.committed, Taken(s), s.drain.b, DrainStep(s).ring.Queue());
  }

  lemma PushStream(s: State)
    requires s.ring.Shape() && StreamSide(s) && s.drain.PushTx? && |s.tx| < FIFO_DEPTH
    ensures StreamSide(DrainStep(s))
  {
    assert s.tx + [s.drain.b] + [] == s.tx + [s.drain.b];
    NothingMoves(s, DrainStep(s));
  }

  lemma LookStream(s: State)
    requires RingSide(s) && StreamSide(s) && !s.drain.StoreTail? && !s.drain.PushTx?
    ensures StreamSide(DrainStep(s))
  {
    LookRing(s);
    NothingMoves(s, s.(drain := DrainStep(s).drain));
  }

  lemma DrainStream(s: State)
    requires RingSide(s) && StreamSide(s) && !Race(s, DrainTurn)
    ensures StreamSide(DrainStep(s))
  {
    match s.drain
    case StoreTail(_) => TakeStream(s);
    case PushTx(_) => PushStream(s);
    case _ => LookStream(s);
  }

  lemma LinkMovesOnly(s: State)
    ensures Taken(LinkStep(s)) == Taken(s)
  {
    if LinkStep(s) != s {
      assert s.tx == [s.tx[0]] + s.tx[1..];
      Assoc([s.tx[0]], s.tx[1..], Held(s.drain));
      Assoc(s.rx, [s.tx[0]], s.tx[1..] + Held(s.drain));
    }
  }

  lemma ClientMovesOnly(s: State)
    requires s.ready ==> s.rx != []
    ensures Taken(ClientStep(s)) == Taken(s)
  {
    if s.ready {
      var b, rest := s.rx[0], s.tx + Held(s.drain);
      assert s.rx == [b] + s.rx[1..];
      Assoc([b], s.rx[1..], rest);
      Assoc(s.consumed, [b], s.rx[1..] + rest);
    }
  }

  lemma LinkStream(s: State)
    requires s.ring.Shape() && StreamSide(s)
    ensures StreamSide(LinkStep(s))
  {
    LinkMovesOnly(s);
    NothingMoves(s, LinkStep(s));
  }

  lemma ParseOneMore(o: Order, p: Parse, consumed: seq<Byte>, b: Byte)
    requires ParseOk(o, p, consumed)
    ensures ParseOk(o, Feed(o, p, b), consumed + [b])
  {
    assert (consumed + [b])[..|consumed|] == consumed;
  }

  lemma ClientStream(s: State)
    requires s.ring.Shape() && StreamSide(s) && (s.ready ==> s.rx != [])
    ensures StreamSide(ClientStep(s))
  {
    ClientMovesOnly(s);
    if s.ready {
      ParseOneMore(s.order, s.parse, s.consumed, s.rx[0]);
    }
  }

  // ---- every step, every run ----

  /** Whatever step comes next, the race aside, the invariant survives it. */
  lemma {:induction false} StepKeeps(s: State, e: Event)
    requires Inv(s) && Allowed(s, e) && !Race(s, e)
    ensures Inv(Step(s, e))
  {
    match e
    case Arrive(d) =>
      ArrivalRing(s, d);
      ArrivalStream(s, d);
    case ProducerTurn =>
      ProducerRing(s);
      ProducerStream(s);
    case DrainTurn =>
      DrainRing(s);
      DrainStream(s);
    case LinkTurn =>
      LinkRing(s);
      LinkStream(s);
    case ClientTurn =>
      ClientRing(s);
      ClientStream(s);
  }

  /** Every clean run stays inside the invariant. */
  lemma {:induction false} RunKeeps(s: State, es: seq<Event>)
    requires Inv(s) && Clean(s, es)
    ensures Inv(Run(s, es))
    decreases |es|
  {
    if es != [] {
      StepKeeps(s, es[0]);
      RunKeeps(Step(s, es[0]), es[1..]);
    }
  }
}
