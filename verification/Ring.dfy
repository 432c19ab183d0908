/**
 The circular buffer as a value: the four fields of `circular_buf_t` and what they mean.
 Everything here is a reference definition; class `CircularBuffer` is the code itself.
 */
module Ring {
  import opened Basics
  import opened MachineInts

  datatype Ring = Ring(cells: seq<Byte>, head: nat, tail: nat, full: bool) {

    function Max(): nat { |cells| }

    /** Both indices lie inside an array that `get_space` can measure with an `int`. */
    predicate Shape() {
      0 < |cells| < TWO_31 && head < |cells| && tail < |cells|
    }

    /** The flag only disambiguates `head == tail`. */
    predicate Valid() {
      Shape() && (full ==> head == tail)
    }

    /** Number of unread bytes. */
    function Count(): (n: nat)
      requires Shape()
      ensures n <= |cells|
    {
      if full then |cells|
      else if head < tail then head + |cells| - tail
      else head - tail
    }

    /** Cell that holds the unread byte number `i`. */
    function Index(i: nat): (j: nat)
      requires Shape() && i < |cells|
      ensures j < |cells|
    {
      Wrap(tail + i, |cells|)
    }

    /** The unread bytes, oldest first. */
    function Queue(): (q: seq<Byte>)
      requires Shape()
      ensures |q| == Count()
    {
      seq(Count(), i requires 0 <= i < Count() => cells[Index(i)])
    }
  }

  // ---- writing ----

  /** One byte written at `head`, with no regard for unread bytes. */
  function Put(r: Ring, b: Byte): (r': Ring)
    requires r.Shape()
    ensures r'.Valid() && r'.Max() == r.Max()
  {
    var h := Wrap(r.head + 1, r.Max());
    Ring(r.cells[r.head := b], h, r.tail, h == r.tail)
  }

  /** The bytes of `data` written one after the other. */
  function PutAll(r: Ring, data: seq<Byte>): (r': Ring)
    requires r.Shape()
    ensures r'.Shape() && r'.Max() == r.Max() && r'.tail == r.tail
    ensures r.Valid() || data != [] ==> r'.Valid()
    decreases |data|
  {
    if data == [] then r else PutAll(Put(r, data[0]), data[1..])
  }

  /** What `send_data_buffer` does; even a write of no bytes recomputes the flag. */
  function Write(r: Ring, data: seq<Byte>): (r': Ring)
    requires r.Shape()
    ensures r'.Valid() && r'.Max() == r.Max() && r'.tail == r.tail
  {
    if data == [] then r.(full := r.head == r.tail) else PutAll(r, data)
  }

  /** `memcpy` of `seg` to index `at`. */
  function Overlay(cells: seq<Byte>, at: nat, seg: seq<Byte>): (c: seq<Byte>)
    requires at + |seg| <= |cells|
    ensures |c| == |cells|
    ensures forall i :: 0 <= i < |cells| ==> c[i] == if at <= i < at + |seg| then seg[i - at] else cells[i]
  {
    cells[..at] + seg + cells[at + |seg|..]
  }

  lemma {:induction false} PutAllConcat(r: Ring, a: seq<Byte>, b: seq<Byte>)
    requires r.Shape()
    ensures PutAll(r, a + b) == PutAll(PutAll(r, a), b)
    decreases |a|
  {
    if a == [] {
      assert a + b == b;
    } else {
      assert (a + b)[1..] == a[1..] + b;
      PutAllConcat(Put(r, a[0]), a[1..], b);
    }
  }

  /** The cell `i` places after `head`, going round. */
  function Cell(head: nat, i: nat, max: nat): (j: nat)
    requires 0 < max
    ensures j < max
  {
    (head + i) % max
  }

  lemma SameRemainder(x: nat, m: nat, q: nat, r: nat)
    requires r < m && x == m * q + r
    ensures x % m == r
  {
    var d := x / m - q;
    assert m * (x / m) - m * q == m * d;
    assert d >= 1 ==> m * d >= m;
    assert d <= -1 ==> m * d <= 0 - m;
  }

  /** Starting one cell further on is going one cell further on. */
  lemma NextCell(head: nat, i: nat, m: nat)
    requires head < m
    ensures Cell(Wrap(head + 1, m), i, m) == Cell(head, i + 1, m)
  {
    if head + 1 == m {
      assert m * (i / m + 1) == m * (i / m) + m;
      SameRemainder(i + m, m, i / m + 1, i % m);
    }
  }

  /** Less than one round further on is another cell. */
  lemma NotHereAgain(head: nat, i: nat, m: nat)
    requires head < m && 0 < i < m
    ensures Cell(head, i, m) != head
  {
    WrapIsModulo(head + i, m);
  }

  /** Byte `i` of a write ends up where it belongs, unless a later byte goes over it. */
  predicate Lands(r: Ring, data: seq<Byte>, cells: seq<Byte>, i: nat)
    requires r.Shape() && |cells| == r.Max() && i < |data|
  {
    |data| - r.Max() <= i ==> cells[Cell(r.head, i, r.Max())] == data[i]
  }

  /** No byte of a write of `n` bytes goes to cell `j`. */
  predicate Misses(r: Ring, n: nat, j: nat)
    requires r.Shape()
  {
    forall i: nat :: i < n ==> Cell(r.head, i, r.Max()) != j
  }

  /**
   Where a write puts its bytes, whatever is unread: byte `i` goes to the cell `i` places after
   `head`, a later byte over an earlier one; no other cell changes, and `head` ends behind the last.
   */
  lemma {:induction false} WriteGoesRound(r: Ring, data: seq<Byte>)
    requires r.Shape()
    ensures var w := Write(r, data);
            && w.head == Cell(r.head, |data|, r.Max()) && w.tail == r.tail && (w.full <==> w.head == w.tail)
            && (forall i :: 0 <= i < |data| ==> Lands(r, data, w.cells, i))
            && (forall j :: 0 <= j < r.Max() && Misses(r, |data|, j) ==> w.cells[j] == r.cells[j])
    decreases |data|
  {
    if data == [] {
      WrapIsModulo(r.head, r.Max());
    } else {
      var r1, rest, w := Put(r, data[0]), data[1..], Write(r, data);
      assert w == Write(r1, rest);
      WriteGoesRound(r1, rest);
      NextCell(r.head, |rest|, r.Max());
      LandsToo(r, data, w.cells);
      forall j | 0 <= j < r.Max() && Misses(r, |data|, j)
        ensures w.cells[j] == r.cells[j]
      {
        MissesLater(r, data[0], |rest|, j);
      }
    }
  }

  lemma LandsToo(r: Ring, data: seq<Byte>, cells: seq<Byte>)
    requires r.Shape() && data != [] && |cells| == r.Max()
    requires var r1 := Put(r, data[0]);
             && (forall i :: 0 <= i < |data| - 1 ==> Lands(r1, data[1..], cells, i))
             && (Misses(r1, |data| - 1, r.head) ==> cells[r.head] == data[0])
    ensures forall i :: 0 <= i < |data| ==> Lands(r, data, cells, i)
  {
    forall i | 0 <= i < |data|
      ensures Lands(r, data, cells, i)
    {
      if i > 0 {
        assert Lands(Put(r, data[0]), data[1..], cells, i - 1);
        NextCell(r.head, i - 1, r.Max());
      } else if |data| <= r.Max() {
        MissesFirst(r, data[0], |data| - 1);
        WrapIsModulo(r.head, r.Max());
      }
    }
  }

  lemma MissesFirst(r: Ring, b: Byte, n: nat)
    requires r.Shape() && n < r.Max()
    ensures Misses(Put(r, b), n, r.head)
  {
    forall i: nat | i < n
      ensures Cell(Put(r, b).head, i, r.Max()) != r.head
    {
      NextCell(r.head, i, r.Max());
      NotHereAgain(r.head, i + 1, r.Max());
    }
  }

  lemma MissesLater(r: Ring, b: Byte, n: nat, j: nat)
    requires r.Shape() && Misses(r, n + 1, j)
    ensures Misses(Put(r, b), n, j) && j != r.head
  {
    WrapIsModulo(r.head, r.Max());
    assert Cell(r.head, 0, r.Max()) != j;
    forall i: nat | i < n
      ensures Cell(Put(r, b).head, i, r.Max()) != j
    {
      NextCell(r.head, i, r.Max());
      assert Cell(r.head, i + 1, r.Max()) != j;
    }
  }

  /** A segment that does not pass the array end is one copy and one move of `head`. */
  lemma {:induction false} PutSegment(r: Ring, seg: seq<Byte>)
    requires r.Shape() && seg != [] && r.head + |seg| <= r.Max()
    ensures var h := Wrap(r.head + |seg|, r.Max());
            PutAll(r, seg) == Ring(Overlay(r.cells, r.head, seg), h, r.tail, h == r.tail)
    decreases |seg|
  {
    if |seg| == 1 {
      assert seg[1..] == [];
      assert Overlay(r.cells, r.head, seg) == r.cells[r.head := seg[0]];
    } else {
      var r1 := Put(r, seg[0]);
      PutSegment(r1, seg[1..]);
      assert Overlay(r1.cells, r1.head, seg[1..]) == Overlay(r.cells, r.head, seg);
    }
  }

  /** A write that passes the array end is the two writes `send_data_buffer` splits it into. */
  lemma WriteSplit(r: Ring, data: seq<Byte>, k: nat)
    requires r.Shape() && 0 < k < |data|
    ensures Write(r, data) == Write(Write(r, data[..k]), data[k..])
  {
    assert data == data[..k] + data[k..];
    PutAllConcat(r, data[..k], data[k..]);
  }

  // ---- the queue ----

  lemma PutQueue(r: Ring, b: Byte)
    requires r.Valid() && r.Count() < r.Max()
    ensures Put(r, b).Count() == r.Count() + 1
    ensures Put(r, b).Queue() == r.Queue() + [b]
  {
    var r' := Put(r, b);
    assert r.Index(r.Count()) == r.head;
    forall i | 0 <= i < r.Count()
      ensures r'.Queue()[i] == r.Queue()[i]
    {
      assert r.Index(i) != r.head;
    }
  }

  lemma {:induction false} PutAllQueue(r: Ring, data: seq<Byte>)
    requires r.Valid() && r.Count() + |data| <= r.Max()
    ensures PutAll(r, data).Queue() == r.Queue() + data
    decreases |data|
  {
    if data == [] {
      assert r.Queue() + data == r.Queue();
    } else {
      PutQueue(r, data[0]);
      PutAllQueue(Put(r, data[0]), data[1..]);
      assert r.Queue() + [data[0]] + data[1..] == r.Queue() + data;
    }
  }

  /**
   `send_data_buffer` appends exactly its data if and only if the data fits and, for a write
   of no bytes, the ring is not empty: an empty write to an empty ring marks it full.
   */
  lemma WriteAppendsExactlyWhen(r: Ring, data: seq<Byte>)
    requires r.Valid()
    ensures Write(r, data).Queue() == r.Queue() + data
       <==> r.Count() + |data| <= r.Max() && (data == [] ==> r.Count() != 0)
  {
    if data == [] {
      assert r.Queue() + data == r.Queue();
      if r.Count() != 0 {
        assert Write(r, data) == r;
      }
    } else if r.Count() + |data| <= r.Max() {
      PutAllQueue(r, data);
    } else {
      assert |r.Queue() + data| > r.Max();
    }
  }

  /**
   Of a write that fits, no part but the last can raise the flag, and the last does exactly when
   it fills the ring: between the parts of a split write the ring is never taken for full.
   */
  lemma OnlyTheLastPartFills(r: Ring, data: seq<Byte>, k: nat)
    requires r.Valid() && 0 < k < |data| && r.Count() + |data| <= r.Max()
    ensures !Write(r, data[..k]).full
    ensures Write(r, data).full <==> r.Count() + |data| == r.Max()
  {
    PutAllQueue(r, data[..k]);
    PutAllQueue(r, data);
    assert Write(r, data[..k]).Count() == |Write(r, data[..k]).Queue()|;
    assert Write(r, data).Count() == |Write(r, data).Queue()|;
  }

  /** A copy into free cells arrives there and leaves the oldest unread byte alone. */
  lemma OverlayIsFree(r: Ring, seg: seq<Byte>)
    requires r.Valid() && !r.full && r.head + |seg| <= r.Max() && r.Count() + |seg| <= r.Max()
    ensures var cells := Overlay(r.cells, r.head, seg);
            && cells[r.head..r.head + |seg|] == seg
            && (r.Count() > 0 ==> cells[r.tail] == r.cells[r.tail])
  {
  }

  /** A copy into free cells changes no unread byte. */
  lemma OverlayKeepsQueue(r: Ring, seg: seq<Byte>)
    requires r.Valid() && !r.full && r.head + |seg| <= r.Max() && r.Count() + |seg| <= r.Max()
    ensures r.(cells := Overlay(r.cells, r.head, seg)).Queue() == r.Queue()
  {
    var cells := Overlay(r.cells, r.head, seg);
    forall i | 0 <= i < r.Count()
      ensures cells[r.Index(i)] == r.cells[r.Index(i)]
    {
      assert !(r.head <= r.Index(i) < r.head + |seg|);
    }
    SameCellsSameQueue(r, cells);
  }

  /** Rings that agree on the unread cells have the same queue. */
  lemma SameCellsSameQueue(r: Ring, cells: seq<Byte>)
    requires r.Shape() && |cells| == r.Max()
    requires forall i :: 0 <= i < r.Count() ==> cells[r.Index(i)] == r.cells[r.Index(i)]
    ensures r.(cells := cells).Queue() == r.Queue()
  {
    var r' := r.(cells := cells);
    assert forall i :: 0 <= i < r.Count() ==> r'.Index(i) == r.Index(i);
  }

  /** Moving `head` past `n` copied bytes of `data`, which leave room, appends them. */
  lemma AdvanceAppends(r: Ring, data: seq<Byte>, n: nat)
    requires r.Valid() && !r.full && 0 < n <= |data| && r.Count() + n < r.Max()
    requires r.head + n <= r.Max() && r.cells[r.head..r.head + n] == data[..n]
    ensures var r' := r.(head := Wrap(r.head + n, r.Max()));
            r'.Queue() == r.Queue() + data[..n] && r'.head != r'.tail && r'.Count() == r.Count() + n
  {
    var seg, h := data[..n], Wrap(r.head + n, r.Max());
    assert h != r.tail && r.(head := h).Count() == r.Count() + n;
    AlreadyCopied(r.cells, r.head, seg);
    PutSegment(r, seg);
    assert PutAll(r, seg) == r.(head := h);
    PutAllQueue(r, seg);
  }

  lemma AlreadyCopied(cells: seq<Byte>, at: nat, seg: seq<Byte>)
    requires at + |seg| <= |cells| && cells[at..at + |seg|] == seg
    ensures Overlay(cells, at, seg) == cells
  {
    assert cells == cells[..at] + cells[at..at + |seg|] + cells[at + |seg|..];
  }

  /** One byte read, as `read_data_buffer` does it. */
  function Take(r: Ring): (r': Ring)
    requires r.Shape()
    ensures r'.Valid() && r'.Max() == r.Max()
  {
    r.(tail := Wrap(r.tail + 1, r.Max()), full := false)
  }

  /**
   `read_data_buffer` returns and removes the oldest unread byte if and only if there is one;
   on an empty ring it leaves `max - 1` bytes that nobody wrote.
   */
  lemma TakeRemovesExactlyWhen(r: Ring)
    requires r.Valid()
    ensures r.Count() != 0 <==> [r.cells[r.tail]] + Take(r).Queue() == r.Queue()
    ensures r.Count() == 0 ==> Take(r).Count() == r.Max() - 1
  {
    var r' := Take(r);
    if r.Count() != 0 {
      assert r.Index(0) == r.tail;
      forall i | 0 <= i < r'.Count()
        ensures r'.Queue()[i] == r.Queue()[i + 1]
      {
        assert r'.Index(i) == r.Index(i + 1);
      }
    } else {
      assert |[r.cells[r.tail]] + r'.Queue()| != |r.Queue()|;
    }
  }

  // ---- measuring ----

  /**
   The last line of `get_space` that runs on a ring not marked full: `wrapped` is the outcome
   of the comparison `head < tail`, the indices are those read after it.
   */
  function SpaceFrom(wrapped: bool, head: nat, tail: nat, max: nat): int {
    if wrapped
    then CInt(SizeT(max - SizeT(SizeT(head + max) - tail)))
    else CInt(SizeT(max - SizeT(head - tail)))
  }

  /** `get_space` with nothing in between its reads. */
  function Space(r: Ring): int {
    if r.full then 0 else SpaceFrom(r.head < r.tail, r.head, r.tail, r.Max())
  }

  /**
   In wrapping 32-bit arithmetic `get_space` is the free space, in range, and no intermediate
   of the branch it takes wraps.
   */
  lemma SpaceIsFree(r: Ring)
    requires r.Valid()
    ensures Space(r) == r.Max() - r.Count()
    ensures SizeT(r.Max() - Space(r)) == r.Count()
    ensures SizeT(Space(r)) == r.Max() <==> r.Count() == 0
    ensures !r.full && r.head < r.tail ==>
              && SizeT(r.head + r.Max()) == r.head + r.Max()
              && SizeT(SizeT(r.head + r.Max()) - r.tail) == r.head + r.Max() - r.tail == r.Count()
    ensures !r.full && r.head >= r.tail ==> SizeT(r.head - r.tail) == r.head - r.tail == r.Count()
  {
  }

  // ---- whole histories of calls ----

  datatype Call = WriteCall(data: seq<Byte>) | ReadCall

  /** Calls that keep to the rules: no overfilling, no empty write to an empty ring, no read when empty. */
  predicate Lawful(queued: nat, calls: seq<Call>, max: nat)
    decreases |calls|
  {
    calls == [] ||
    match calls[0]
    case WriteCall(data) =>
      (data == [] ==> queued != 0) && queued + |data| <= max && Lawful(queued + |data|, calls[1..], max)
    case ReadCall => 0 < queued && Lawful(queued - 1, calls[1..], max)
  }

  /** The calls on the ring: the ring after them and the bytes they returned. */
  function RunCalls(r: Ring, calls: seq<Call>): (res: (Ring, seq<Byte>))
    requires r.Shape()
    ensures res.0.Shape()
    decreases |calls|
  {
    if calls == [] then (r, []) else
    match calls[0]
    case WriteCall(data) => RunCalls(Write(r, data), calls[1..])
    case ReadCall => var (r', out) := RunCalls(Take(r), calls[1..]); (r', [r.cells[r.tail]] + out)
  }

  /** Everything the calls write, in order. */
  function Written(calls: seq<Call>): seq<Byte>
    decreases |calls|
  {
    if calls == [] then [] else
    (match calls[0] case WriteCall(data) => data case ReadCall => []) + Written(calls[1..])
  }

  /** The calls behave as those of a first-in first-out queue: the bytes read, then those left, are those put in. */
  ghost predicate Fifo(r: Ring, calls: seq<Call>)
    requires r.Shape()
  {
    var (r', out) := RunCalls(r, calls);
    out + r'.Queue() == r.Queue() + Written(calls)
  }

  lemma FifoWrite(r: Ring, data: seq<Byte>, rest: seq<Call>)
    requires r.Valid() && Write(r, data).Queue() == r.Queue() + data
    ensures Fifo(r, [WriteCall(data)] + rest) <==> Fifo(Write(r, data), rest)
  {
    assert ([WriteCall(data)] + rest)[1..] == rest;
    Assoc(r.Queue(), data, Written(rest));
  }

  lemma FifoRead(r: Ring, rest: seq<Call>)
    requires r.Valid() && r.Count() != 0
    ensures Fifo(r, [ReadCall] + rest) <==> Fifo(Take(r), rest)
  {
    TakeRemovesExactlyWhen(r);
    var (r', out) := RunCalls(Take(r), rest);
    var b, q, w := r.cells[r.tail], Take(r).Queue(), Written(rest);
    assert ([ReadCall] + rest)[1..] == rest;
    Assoc([b], out, r'.Queue());
    Assoc([b], q, w);
    assert [] + w == w;
    assert ([b] + (out + r'.Queue()))[1..] == out + r'.Queue();
    assert ([b] + (q + w))[1..] == q + w;
  }

  /** The first call is harmless alone exactly when it keeps to the rules. */
  lemma FirstCall(r: Ring, c: Call)
    requires r.Valid()
    ensures Fifo(r, [c]) <==> match c
                              case WriteCall(data) => (data == [] ==> r.Count() != 0) && r.Count() + |data| <= r.Max()
                              case ReadCall => 0 < r.Count()
  {
    assert [c][1..] == [];
    match c
    case WriteCall(data) =>
      WriteAppendsExactlyWhen(r, data);
      assert RunCalls(r, [c]) == (Write(r, data), []);
      assert Written([c]) == data + [] == data;
      assert [] + Write(r, data).Queue() == Write(r, data).Queue();
    case ReadCall =>
      TakeRemovesExactlyWhen(r);
      var b := r.cells[r.tail];
      assert [b] + [] == [b];
      assert RunCalls(r, [c]) == (Take(r), [b]);
      assert Written([c]) == [] + [];
      assert r.Queue() + [] == r.Queue();
  }

  /** After a lawful first call a history behaves exactly as what follows behaves. */
  lemma AfterFirstCall(r: Ring, c: Call, rest: seq<Call>)
    requires r.Valid() && Fifo(r, [c])
    ensures var r1 := RunCalls(r, [c]).0;
            && r1.Valid() && r1.Max() == r.Max()
            && (Lawful(r.Count(), [c] + rest, r.Max()) <==> Lawful(r1.Count(), rest, r.Max()))
            && (Fifo(r, [c] + rest) <==> Fifo(r1, rest))
  {
    FirstCall(r, c);
    assert [c][1..] == [] && ([c] + rest)[1..] == rest;
    match c
    case WriteCall(data) =>
      WriteAppendsExactlyWhen(r, data);
      assert |Write(r, data).Queue()| == r.Count() + |data|;
      FifoWrite(r, data, rest);
    case ReadCall =>
      TakeRemovesExactlyWhen(r);
      assert |Take(r).Queue()| == r.Count() - 1;
      FifoRead(r, rest);
  }

  /** A history behaves first in, first out at every moment if and only if every call keeps to the rules. */
  lemma {:induction false} FifoExactlyWhenLawful(r: Ring, calls: seq<Call>)
    requires r.Valid()
    ensures Lawful(r.Count(), calls, r.Max()) <==> forall k :: 0 <= k <= |calls| ==> Fifo(r, calls[..k])
    decreases |calls|
  {
    if calls == [] {
      assert Fifo(r, []) by { assert [] + r.Queue() == r.Queue() + []; }
      assert forall k :: 0 <= k <= |calls| ==> calls[..k] == [];
    } else {
      var c, rest := calls[0], calls[1..];
      assert calls == [c] + rest && calls[..1] == [c];
      FirstCall(r, c);
      if Fifo(r, [c]) {
        var r1 := RunCalls(r, [c]).0;
        AfterFirstCall(r, c, rest);
        FifoExactlyWhenLawful(r1, rest);
        forall k | 0 <= k <= |rest|
          ensures Fifo(r, calls[..k + 1]) <==> Fifo(r1, rest[..k])
        {
          AfterFirstCall(r, c, rest[..k]);
          assert calls[..k + 1] == [c] + rest[..k];
        }
        Prefixes(r, calls, r1);
      }
    }
  }

  lemma Prefixes(r: Ring, calls: seq<Call>, r1: Ring)
    requires r.Valid() && r1.Valid() && calls != [] && Fifo(r, calls[..1])
    requires forall k :: 0 <= k <= |calls| - 1 ==> (Fifo(r, calls[..k + 1]) <==> Fifo(r1, calls[1..][..k]))
    ensures (forall k :: 0 <= k <= |calls| ==> Fifo(r, calls[..k]))
       <==> (forall k :: 0 <= k <= |calls| - 1 ==> Fifo(r1, calls[1..][..k]))
  {
    assert Fifo(r, calls[..0]) by { assert [] + r.Queue() == r.Queue() + []; }
    if forall k :: 0 <= k <= |calls| ==> Fifo(r, calls[..k]) {
      forall k | 0 <= k <= |calls| - 1
        ensures Fifo(r1, calls[1..][..k])
      {
        assert Fifo(r, calls[..k + 1]);
      }
    }
    if forall k :: 0 <= k <= |calls| - 1 ==> Fifo(r1, calls[1..][..k]) {
      forall k | 0 <= k <= |calls|
        ensures Fifo(r, calls[..k])
      {
        if k > 0 {
          assert Fifo(r1, calls[1..][..k - 1]);
          assert calls[..k] == calls[..k - 1 + 1];
        }
      }
    }
  }
}
