/**
 The video path as a state machine: the receive thread, the drain thread, the FPGA link and
 the client, each taking one step at a time in any order. Apart from `memcpy`, which is one
 step, a step touches at most one memory word that two threads share; memory is sequentially
 consistent.
 */
module Pipeline {
  import opened Basics
  import opened MachineInts
  import opened Ring
  import opened Framing

  type Packet = d: seq<Byte> | |d| <= MAX_PACKET_SIZE

  /** Program counter and locals of the receive thread. */
  datatype Producer =
    | Waiting(stale: Byte)                                          // wait_init, with its data[0]
    | Receiving                                                     // recv_video, in recvfrom
    | SampleFull(d: Packet)                                         // get_space: test of `full`
    | SampleOrder(d: Packet)                                        // get_space: head < tail
    | SampleSpace(d: Packet, wrapped: bool)                         // get_space: second read, then admission
    | Copy(cur: seq<Byte>, next: seq<Byte>)                         // memcpy of the next segment of `cur`
    | StoreHead(cur: seq<Byte>, next: seq<Byte>)                    // line 22 of buffer.c
    | TestFull(cur: seq<Byte>, next: seq<Byte>)                     // line 23, reading `tail`
    | StoreFull(flag: bool, cur: seq<Byte>, next: seq<Byte>)        // line 23, writing `full`

  /** Program counter and locals of the drain thread. */
  datatype Drain =
    | CheckFull                                                     // get_space: test of `full`
    | CheckOrder                                                    // get_space: head < tail
    | CheckSpace(wrapped: bool)                                     // get_space: second read, then the test
    | ReadCell                                                      // line 29 of buffer.c
    | StoreTail(b: Byte)                                            // line 30
    | ClearFull(b: Byte)                                            // line 31
    | PollTx(b: Byte)                                               // write_fifo_blocking: poll
    | PushTx(b: Byte)                                               // write_fifo_blocking: store

  /**
   `ready` says that the client's last poll saw a byte. The last four fields are history: the
   datagrams received, those admitted, the bytes published in the ring, those the client read.
   */
  datatype State = State(
    order: Order, ring: Ring, producer: Producer, drain: Drain,
    tx: seq<Byte>, rx: seq<Byte>, ready: bool, parse: Parse,
    received: seq<seq<Byte>>, admitted: seq<seq<Byte>>,
    committed: seq<Byte>, consumed: seq<Byte>)

  /** A fresh server with an empty ring; in iperf mode it does not wait for INIT. */
  predicate Init(s: State) {
    && s.ring.Shape() && s.ring.head == s.ring.tail == 0 && !s.ring.full
    && (s.producer.Waiting? || s.producer == Receiving) && s.drain == CheckFull
    && s.tx == [] && s.rx == [] && !s.ready && s.parse == START
    && s.received == [] && s.admitted == [] && s.committed == [] && s.consumed == []
  }

  datatype Event = Arrive(d: Packet) | ProducerTurn | DrainTurn | LinkTurn | ClientTurn

  // ---- steps ----

  /** A datagram reaches the receive thread. */
  function Arrival(s: State, d: Packet): State {
    match s.producer
    case Waiting(stale) =>
      var first := FirstOf(stale, d);
      s.(producer := if first == INIT then Receiving else Waiting(first))
    case Receiving =>
      if d == [] then s else s.(producer := SampleFull(d), received := s.received + [d])
    case _ => s
  }

  /** How much of `cur` the next non-recursive call of `send_data_buffer` copies. */
  function SegmentLength(r: Ring, cur: seq<Byte>): (n: nat)
    requires r.Shape()
    ensures n <= |cur| && r.head + n <= r.Max() && (cur != [] ==> n > 0)
    ensures n == |cur| || r.head + n == r.Max()
  {
    if |cur| + r.head > r.Max() then r.Max() - r.head else |cur|
  }

  /** Line 22 of buffer.c after a copy of `n` bytes. */
  function MoveHead(r: Ring, n: nat): (r': Ring)
    requires r.Shape() && r.head + n <= r.Max()
    ensures r'.Shape()
  {
    r.(head := Wrap(r.head + n, r.Max()))
  }

  /** The next copy, the next call, or the next receive. */
  function Continue(cur: seq<Byte>, next: seq<Byte>): Producer {
    if cur != [] then Copy(cur, next) else if next != [] then Copy(next, []) else Receiving
  }

  function ProducerStep(s: State): (s': State)
    requires s.ring.Shape()
    ensures s'.ring.Shape()
  {
    var r := s.ring;
    match s.producer
    case Waiting(_) => s
    case Receiving => s
    case SampleFull(d) =>
      s.(producer := if r.full then Receiving else SampleOrder(d))
    case SampleOrder(d) =>
      s.(producer := SampleSpace(d, r.head < r.tail))
    case SampleSpace(d, wrapped) =>
      if SpaceFrom(wrapped, r.head, r.tail, r.Max()) > |d| + 2
      then s.(producer := Copy(Header(s.order, |d|), d), admitted := s.admitted + [d])
      else s.(producer := Receiving)
    case Copy(cur, next) =>
      var n := SegmentLength(r, cur);
      s.(ring := r.(cells := Overlay(r.cells, r.head, cur[..n])), producer := StoreHead(cur, next))
    case StoreHead(cur, next) =>
      var n := SegmentLength(r, cur);
      s.(ring := MoveHead(r, n),
         committed := s.committed + cur[..n], producer := TestFull(cur[n..], next))
    case TestFull(cur, next) =>
      s.(producer := StoreFull(r.head == r.tail, cur, next))
    case StoreFull(flag, cur, next) =>
      s.(ring := r.(full := flag), producer := Continue(cur, next))
  }

  function DrainStep(s: State): (s': State)
    requires s.ring.Shape()
    ensures s'.ring.Shape()
  {
    var r := s.ring;
    match s.drain
    case CheckFull => s.(drain := if r.full then ReadCell else CheckOrder)
    case CheckOrder => s.(drain := CheckSpace(r.head < r.tail))
    case CheckSpace(wrapped) =>
      s.(drain := if SizeT(SpaceFrom(wrapped, r.head, r.tail, r.Max())) == r.Max() then CheckFull else ReadCell)
    case ReadCell => s.(drain := StoreTail(r.cells[r.tail]))
    case StoreTail(b) => s.(ring := r.(tail := Wrap(r.tail + 1, r.Max())), drain := ClearFull(b))
    case ClearFull(b) => s.(ring := r.(full := false), drain := PollTx(b))
    case PollTx(b) => if |s.tx| >= FIFO_DEPTH then s else s.(drain := PushTx(b))
    case PushTx(b) =>
      // a store to a full FIFO is lost
      s.(tx := if |s.tx| >= FIFO_DEPTH then s.tx else s.tx + [b], drain := CheckFull)
  }

  /** The hardware moves a byte from the server's to the client's FIFO. */
  function LinkStep(s: State): State {
    if s.tx != [] && |s.rx| < FIFO_DEPTH then s.(rx := s.rx + [s.tx[0]], tx := s.tx[1..]) else s
  }

  /** A poll, or the load after a successful poll; an empty FIFO would give junk. */
  function ClientStep(s: State): State {
    if !s.ready then s.(ready := s.rx != [])
    else
      var b: Byte, rest := if s.rx == [] then 0 else s.rx[0], if s.rx == [] then [] else s.rx[1..];
      s.(rx := rest, ready := false, parse := Feed(s.order, s.parse, b), consumed := s.consumed + [b])
  }

  function Step(s: State, e: Event): (s': State)
    requires s.ring.Shape()
    ensures s'.ring.Shape()
  {
    match e
    case Arrive(d) => Arrival(s, d)
    case ProducerTurn => ProducerStep(s)
    case DrainTurn => DrainStep(s)
    case LinkTurn => LinkStep(s)
    case ClientTurn => ClientStep(s)
  }

  /** One step moved at most one byte: `q'` is `q`, or `q` with a byte put in or taken out. */
  predicate AtMostOneByte(q: seq<Byte>, q': seq<Byte>) {
    || q' == q
    || (|q'| == |q| + 1 && q' == q + [q'[|q|]])
    || (q != [] && q' == q[1..])
  }

  /**
   Who writes what, and how much at a time: only the receive thread writes cells and `head`, only
   the drain thread `tail`; no step writes two of the four; no step moves more than one byte into
   or out of a FIFO.
   */
  lemma {:induction false} OneWordAtATime(s: State, e: Event)
    requires s.ring.Shape()
    ensures var r, r' := s.ring, Step(s, e).ring;
            && (r' == r || r' == r.(cells := r'.cells) || r' == r.(head := r'.head)
                || r' == r.(tail := r'.tail) || r' == r.(full := r'.full))
            && (e != ProducerTurn ==> r'.cells == r.cells && r'.head == r.head)
            && (e != DrainTurn ==> r'.tail == r.tail)
            && (e != ProducerTurn && e != DrainTurn ==> r' == r)
    ensures AtMostOneByte(s.tx, Step(s, e).tx) && AtMostOneByte(s.rx, Step(s, e).rx)
  {
    match e
    case ProducerTurn =>
    case DrainTurn =>
    case _ =>
  }

  /** A datagram is handed over only inside `recvfrom`; every other turn may be a wasted poll. */
  predicate Allowed(s: State, e: Event) {
    e.Arrive? ==> s.producer.Waiting? || s.producer == Receiving
  }

  /**
   The drain thread takes the last unread byte while the receive thread has published `head`
   but not yet compared it with `tail`: line 23 then marks an empty ring full.
   */
  predicate Race(s: State, e: Event)
    requires s.ring.Shape()
  {
    && e == DrainTurn && s.drain.StoreTail? && s.producer.TestFull?
    && Wrap(s.ring.tail + 1, s.ring.Max()) == s.ring.head
  }

  function Run(s: State, es: seq<Event>): (s': State)
    requires s.ring.Shape()
    ensures s'.ring.Shape()
    decreases |es|
  {
    if es == [] then s else Run(Step(s, es[0]), es[1..])
  }

  /** Every event of the run is allowed and none is the race. */
  predicate Clean(s: State, es: seq<Event>)
    requires s.ring.Shape()
    decreases |es|
  {
    es == [] || (Allowed(s, es[0]) && !Race(s, es[0]) && Clean(Step(s, es[0]), es[1..]))
  }

  /** A run can be taken in pieces. */
  lemma {:induction false} RunInPieces(s: State, a: seq<Event>, b: seq<Event>)
    requires s.ring.Shape()
    ensures Run(s, a + b) == Run(Run(s, a), b)
    ensures Clean(s, a + b) <==> Clean(s, a) && Clean(Run(s, a), b)
    decreases |a|
  {
    if a == [] {
      assert a + b == b;
    } else {
      assert (a + b)[1..] == a[1..] + b;
      RunInPieces(Step(s, a[0]), a[1..], b);
    }
  }
}
