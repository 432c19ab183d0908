/** Bytes, and the constants the program fixes in its headers. */
module Basics {

  /** A C `char`, seen as the eight bits it holds. */
  type Byte = b: int | 0 <= b < 256

  /** Most payload bytes `recvfrom` puts into one datagram buffer. */
  const MAX_PACKET_SIZE: nat := 2000

  /** Size the server gives its video buffer. */
  const VIDEO_BUFFER_SIZE: nat := 20000000

  /** Depth of the transmit and of the receive FIFO. */
  const FIFO_DEPTH: nat := 2048

  /** Packet types the program sends. */
  const INIT: Byte := 49
  const INIT_ACK: Byte := 50

  datatype Option<+T> = None | Some(value: T)

  /** `data[0]` after a datagram has been received into `data`; an empty one leaves it alone. */
  function FirstOf(stale: Byte, d: seq<Byte>): Byte {
    if d == [] then stale else d[0]
  }

  /** `x` modulo `m`, for an index that has passed the end of an array at most once. */
  function Wrap(x: nat, m: nat): (r: nat)
    requires 0 < m && x < 2 * m
    ensures r < m
  {
    if x < m then x else x - m
  }

  lemma WrapIsModulo(x: nat, m: nat)
    requires 0 < m && x < 2 * m
    ensures Wrap(x, m) == x % m
  {
    if x >= m {
      assert x == m * 1 + (x - m);
    }
  }

  /** `a` consists of the elements of `b` at the places `picked`, which go up. */
  ghost predicate PickedFrom<T>(a: seq<T>, b: seq<T>, picked: seq<nat>) {
    && |picked| == |a|
    && (forall i :: 0 <= i < |a| ==> picked[i] < |b| && a[i] == b[picked[i]])
    && (forall i, j :: 0 <= i < j < |a| ==> picked[i] < picked[j])
  }

  /** `a` is `b` with some elements left out. */
  ghost predicate IsSubsequence<T>(a: seq<T>, b: seq<T>) {
    exists picked: seq<nat> :: PickedFrom(a, b, picked)
  }

  lemma EmptyIsSubsequence<T>(b: seq<T>)
    ensures IsSubsequence([], b)
  {
    assert PickedFrom([], b, []);
  }

  lemma {:induction false} PicksClimb<T>(a: seq<T>, b: seq<T>, picked: seq<nat>, i: nat)
    requires PickedFrom(a, b, picked) && i < |a|
    ensures picked[i] >= i
  {
    if i > 0 {
      PicksClimb(a, b, picked, i - 1);
    }
  }

  lemma SubsequenceIsNoLonger<T>(a: seq<T>, b: seq<T>)
    requires IsSubsequence(a, b)
    ensures |a| <= |b|
  {
    var picked: seq<nat> :| PickedFrom(a, b, picked);
    if a != [] {
      PicksClimb(a, b, picked, |a| - 1);
    }
  }

  lemma Assoc<T>(a: seq<T>, b: seq<T>, c: seq<T>)
    ensures (a + b) + c == a + (b + c)
  {
  }
}

/**
 Arithmetic on the target: a 32-bit ARM, where `size_t` is an unsigned and `int` a signed
 32-bit number. Conversions keep the low 32 bits.
 */
module MachineInts {

  const TWO_31: int := 0x8000_0000
  const TWO_32: int := 0x1_0000_0000

  /** The `size_t` that the exact value `x` becomes. */
  function SizeT(x: int): (r: nat)
    ensures r < TWO_32
    ensures 0 <= x < TWO_32 ==> r == x
    ensures -TWO_32 <= x < 0 ==> r == x + TWO_32
  {
    x % TWO_32
  }

  /** The `int` that the `size_t` value `x` becomes. */
  function CInt(x: nat): (r: int)
    requires x < TWO_32
    ensures -TWO_31 <= r < TWO_31
    ensures SizeT(r) == x
  {
    if x < TWO_31 then x else x - TWO_32
  }

  /** The 16-bit `short` that the `int` value `x` becomes. */
  function CShort(x: int): (r: int)
    ensures -0x8000 <= r < 0x8000
    ensures -0x8000 <= x < 0x8000 ==> r == x
  {
    (x + 0x8000) % 0x1_0000 - 0x8000
  }
}
