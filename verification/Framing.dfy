/**
 The byte stream between server and client: every datagram travels as a two-byte length in
 the byte order of the machine, followed by its payload.
 */
module Framing {
  import opened Basics

  /** Byte order of the machines at both ends. */
  datatype Order = Little | Big

  /** The bytes of an `unsigned short`, the low one first on a little-endian machine. */
  function Header(o: Order, n: nat): (h: seq<Byte>)
    requires n < 0x1_0000
    ensures |h| == 2 && Length(o, h[0], h[1]) == n
    ensures o == Little ==> h[0] as int + 256 * h[1] as int == n
    ensures o == Big ==> 256 * h[0] as int + h[1] as int == n
  {
    if o == Little then [n % 256, n / 256] else [n / 256, n % 256]
  }

  /** The `unsigned short` made of two bytes. */
  function Length(o: Order, b0: Byte, b1: Byte): (n: nat)
    ensures n < 0x1_0000
    ensures o == Little ==> n % 256 == b0 && n / 256 == b1
    ensures o == Big ==> n / 256 == b0 && n % 256 == b1
  {
    if o == Little then b0 + 256 * b1 else 256 * b0 + b1
  }

  /** One datagram as `send_packet_buffer` writes it. */
  function Frame(o: Order, d: seq<Byte>): (f: seq<Byte>)
    requires |d| < 0x1_0000
    ensures |f| == |d| + 2
  {
    Header(o, |d|) + d
  }

  /** Datagrams whose length a header can say. */
  predicate Sendable(ds: seq<seq<Byte>>) {
    forall d <- ds :: |d| < 0x1_0000
  }

  /** Datagrams that fit the client's buffer. */
  predicate Small(ds: seq<seq<Byte>>) {
    forall d <- ds :: |d| <= MAX_PACKET_SIZE
  }

  /** The frames of all datagrams, one after the other. */
  function Stream(o: Order, ds: seq<seq<Byte>>): seq<Byte>
    requires Sendable(ds)
  {
    if ds == [] then [] else Frame(o, ds[0]) + Stream(o, ds[1..])
  }

  lemma {:induction false} StreamAppend(o: Order, ds: seq<seq<Byte>>, d: seq<Byte>)
    requires Sendable(ds) && |d| < 0x1_0000
    ensures Sendable(ds + [d])
    ensures Stream(o, ds + [d]) == Stream(o, ds) + Frame(o, d)
  {
    if ds == [] {
      assert ds + [d] == [d];
      assert [d][1..] == [];
      assert Frame(o, d) + [] == [] + Frame(o, d);
    } else {
      StreamAppend(o, ds[1..], d);
      StreamOfCons(o, ds[0], ds[1..]);
      StreamOfCons(o, ds[0], ds[1..] + [d]);
      assert ds == [ds[0]] + ds[1..];
      assert ds + [d] == [ds[0]] + (ds[1..] + [d]);
      Assoc(Frame(o, ds[0]), Stream(o, ds[1..]), Frame(o, d));
    }
  }

  lemma StreamOfCons(o: Order, d: seq<Byte>, ds: seq<seq<Byte>>)
    requires Sendable(ds) && |d| < 0x1_0000
    ensures Sendable([d] + ds) && Stream(o, [d] + ds) == Frame(o, d) + Stream(o, ds)
  {
    assert ([d] + ds)[1..] == ds;
  }

  // ---- the client's loop, one byte at a time ----

  /** Where the loop stands: before a frame, after one header byte, or inside a payload. */
  datatype Position = BeforeFrame | HalfHeader(b0: Byte) | InPayload(len: nat, got: seq<Byte>)

  /** Where the loop stands, the packets it has sent and the lengths it has refused. */
  datatype Parse = Parse(at: Position, sent: seq<seq<Byte>>, refused: nat)

  const START: Parse := Parse(BeforeFrame, [], 0)

  /** The loop takes one more byte. */
  function Feed(o: Order, p: Parse, b: Byte): Parse {
    match p.at
    case BeforeFrame => p.(at := HalfHeader(b))
    case HalfHeader(b0) =>
      var len := Length(o, b0, b);
      if len > MAX_PACKET_SIZE then p.(at := BeforeFrame, refused := p.refused + 1)
      else if len == 0 then p.(at := BeforeFrame, sent := p.sent + [[]])
      else p.(at := InPayload(len, []))
    case InPayload(len, got) =>
      if |got| + 1 < len then p.(at := InPayload(len, got + [b]))
      else p.(at := BeforeFrame, sent := p.sent + [got + [b]])
  }

  /** The loop takes all bytes of `bs`. */
  function FeedAll(o: Order, p: Parse, bs: seq<Byte>): Parse
  {
    if bs == [] then p else Feed(o, FeedAll(o, p, bs[..|bs| - 1]), bs[|bs| - 1])
  }

  /** However the stream is cut into arrivals, the loop does the same. */
  lemma {:induction false} FeedInPieces(o: Order, p: Parse, a: seq<Byte>, b: seq<Byte>)
    ensures FeedAll(o, p, a + b) == FeedAll(o, FeedAll(o, p, a), b)
    decreases |b|
  {
    if b == [] {
      assert a + b == a;
    } else {
      var n := |b| - 1;
      FeedInPieces(o, p, a, b[..n]);
      assert (a + b)[..|a + b| - 1] == a + b[..n];
    }
  }

  lemma FeedOne(o: Order, p: Parse, b: Byte)
    ensures FeedAll(o, p, [b]) == Feed(o, p, b)
  {
    assert [b][..0] == [];
    assert FeedAll(o, p, []) == p;
  }

  /** After the first `pos` bytes of the stream the loop stands at `p`. */
  ghost predicate ReadUpTo(o: Order, stream: seq<Byte>, pos: nat, p: Parse) {
    pos <= |stream| && p == FeedAll(o, START, stream[..pos])
  }

  lemma ReadNone(o: Order, stream: seq<Byte>)
    ensures ReadUpTo(o, stream, 0, START)
  {
    assert stream[..0] == [];
  }

  lemma ReadAll(o: Order, stream: seq<Byte>, p: Parse)
    ensures ReadUpTo(o, stream, |stream|, p) <==> p == FeedAll(o, START, stream)
  {
    assert stream[..|stream|] == stream;
  }

  lemma ReadNext(o: Order, stream: seq<Byte>, pos: nat, p: Parse)
    requires ReadUpTo(o, stream, pos, p) && pos < |stream|
    ensures ReadUpTo(o, stream, pos + 1, Feed(o, p, stream[pos]))
  {
    assert stream[..pos + 1][..pos] == stream[..pos];
  }

  /** The loop before a frame reads a whole header. */
  lemma HeaderRead(o: Order, stream: seq<Byte>, pos: nat, sent: seq<seq<Byte>>, refused: nat)
    requires pos + 1 < |stream| && ReadUpTo(o, stream, pos, Parse(BeforeFrame, sent, refused))
    ensures var len := Length(o, stream[pos], stream[pos + 1]);
            ReadUpTo(o, stream, pos + 2,
                     if len > MAX_PACKET_SIZE then Parse(BeforeFrame, sent, refused + 1)
                     else if len == 0 then Parse(BeforeFrame, sent + [[]], refused)
                     else Parse(InPayload(len, []), sent, refused))
  {
    ReadNext(o, stream, pos, Parse(BeforeFrame, sent, refused));
    ReadNext(o, stream, pos + 1, Parse(HalfHeader(stream[pos]), sent, refused));
  }

  /** The loop inside a payload reads one byte more of it. */
  lemma PayloadRead(o: Order, stream: seq<Byte>, pos: nat, len: nat, got: seq<Byte>,
                    sent: seq<seq<Byte>>, refused: nat)
    requires pos < |stream| && ReadUpTo(o, stream, pos, Parse(InPayload(len, got), sent, refused))
    ensures var more := got + [stream[pos]];
            ReadUpTo(o, stream, pos + 1,
                     if |more| < len then Parse(InPayload(len, more), sent, refused)
                     else Parse(BeforeFrame, sent + [more], refused))
  {
    ReadNext(o, stream, pos, Parse(InPayload(len, got), sent, refused));
  }

  // ---- safety on arbitrary bytes ----

  /** The position is one a loop with a buffer of `MAX_PACKET_SIZE` bytes can be in. */
  predicate Possible(at: Position) {
    at.InPayload? ==> |at.got| < at.len <= MAX_PACKET_SIZE
  }

  /** Bytes already read of a frame that is not complete. */
  function Pending(at: Position): nat {
    match at
    case BeforeFrame => 0
    case HalfHeader(_) => 1
    case InPayload(_, got) => 2 + |got|
  }

  /** Bytes that the frames of the sent packets occupy. */
  function Occupied(sent: seq<seq<Byte>>): nat {
    if sent == [] then 0 else Occupied(sent[..|sent| - 1]) + |sent[|sent| - 1]| + 2
  }

  /**
   On any bytes at all: the next index is inside the buffer, every packet sent fits it, and
   each byte read is a header byte, a refused header's byte or a payload byte.
   */
  lemma {:induction false} EveryByteAccountedFor(o: Order, bs: seq<Byte>)
    ensures var p := FeedAll(o, START, bs);
            && Possible(p.at) && Small(p.sent)
            && |bs| == Occupied(p.sent) + 2 * p.refused + Pending(p.at)
    decreases |bs|
  {
    if bs != [] {
      var n := |bs| - 1;
      EveryByteAccountedFor(o, bs[..n]);
      var p, p' := FeedAll(o, START, bs[..n]), FeedAll(o, START, bs);
      if p'.sent != p.sent {
        assert p'.sent[..|p'.sent| - 1] == p.sent;
      }
    }
  }

  // ---- round trip ----

  /** Where the loop stands after `k` bytes of the frame of `d`, `k` short of the whole frame. */
  function Inside(o: Order, d: seq<Byte>, k: nat): Position
    requires |d| <= MAX_PACKET_SIZE && k < |d| + 2
  {
    if k == 0 then BeforeFrame
    else if k == 1 then HalfHeader(Header(o, |d|)[0])
    else InPayload(|d|, d[..k - 2])
  }

  /** What the loop must have done after `k` bytes of the stream of `ds`, said without the loop. */
  function Expected(o: Order, ds: seq<seq<Byte>>, k: nat): Parse
    requires Small(ds) && k <= |Stream(o, ds)|
  {
    if ds == [] then START
    else if k < |ds[0]| + 2 then Parse(Inside(o, ds[0], k), [], 0)
    else
      var rest := Expected(o, ds[1..], k - |ds[0]| - 2);
      rest.(sent := [ds[0]] + rest.sent)
  }

  lemma {:induction false} PartOfFrame(o: Order, p: Parse, d: seq<Byte>, k: nat)
    requires |d| <= MAX_PACKET_SIZE && k < |d| + 2 && p.at == BeforeFrame
    ensures FeedAll(o, p, Frame(o, d)[..k]) == p.(at := Inside(o, d, k))
  {
    if k > 0 {
      PartOfFrame(o, p, d, k - 1);
      var f := Frame(o, d);
      assert f[..k][..k - 1] == f[..k - 1];
      assert f[..k][k - 1] == f[k - 1];
      if k > 2 {
        assert f[k - 1] == d[k - 3];
        assert d[..k - 3] + [d[k - 3]] == d[..k - 2];
      } else if k == 2 {
        assert d[..0] == [];
      }
    }
  }

  lemma WholeFrame(o: Order, p: Parse, d: seq<Byte>)
    requires |d| <= MAX_PACKET_SIZE && p.at == BeforeFrame
    ensures FeedAll(o, p, Frame(o, d)) == p.(sent := p.sent + [d])
  {
    var f, k := Frame(o, d), |d| + 1;
    PartOfFrame(o, p, d, k);
    assert f == f[..k] + [f[k]];
    FeedInPieces(o, p, f[..k], [f[k]]);
    FeedOne(o, p.(at := Inside(o, d, k)), f[k]);
    if d != [] {
      assert f[k] == d[k - 2];
      assert d[..k - 2] + [d[k - 2]] == d;
    }
  }

  /** Packets sent and lengths refused before do not influence what the loop does next. */
  lemma {:induction false} SentIsOnlyAppended(o: Order, at: Position, before: seq<seq<Byte>>, refused: nat, bs: seq<Byte>)
    ensures var p := FeedAll(o, Parse(at, [], 0), bs);
            FeedAll(o, Parse(at, before, refused), bs) == p.(sent := before + p.sent, refused := refused + p.refused)
    decreases |bs|
  {
    if bs == [] {
      assert before + [] == before;
    } else {
      SentIsOnlyAppended(o, at, before, refused, bs[..|bs| - 1]);
    }
  }

  /**
   Every cut of a well-formed stream: after its first `k` bytes the client has sent exactly the
   datagrams whose frames are complete, and stands exactly where `k` points.
   */
  lemma {:induction false} EveryCutParses(o: Order, ds: seq<seq<Byte>>, k: nat)
    requires Small(ds) && k <= |Stream(o, ds)|
    ensures FeedAll(o, START, Stream(o, ds)[..k]) == Expected(o, ds, k)
    decreases |ds|
  {
    if ds == [] {
      assert Stream(o, ds)[..k] == [];
    } else {
      var f, rest := Frame(o, ds[0]), Stream(o, ds[1..]);
      CutOfTwo(f, rest, k);
      if k < |f| {
        PartOfFrame(o, START, ds[0], k);
      } else {
        EveryCutParses(o, ds[1..], k - |f|);
        FrameThen(o, ds[0], rest[..k - |f|]);
      }
    }
  }

  lemma CutOfTwo(a: seq<Byte>, b: seq<Byte>, k: nat)
    requires k <= |a| + |b|
    ensures (a + b)[..k] == if k < |a| then a[..k] else a + b[..k - |a|]
  {
  }

  /** A whole frame first only puts its datagram in front of what follows. */
  lemma FrameThen(o: Order, d: seq<Byte>, bs: seq<Byte>)
    requires |d| <= MAX_PACKET_SIZE
    ensures var p := FeedAll(o, START, bs);
            FeedAll(o, START, Frame(o, d) + bs) == p.(sent := [d] + p.sent)
  {
    FeedInPieces(o, START, Frame(o, d), bs);
    WholeFrame(o, START, d);
    assert [] + [d] == [d];
    SentIsOnlyAppended(o, BeforeFrame, [d], 0, bs);
  }

  lemma HeaderIsRefused(o: Order, n: nat, bs: seq<Byte>)
    requires MAX_PACKET_SIZE < n < 0x1_0000
    ensures var p := FeedAll(o, START, bs);
            FeedAll(o, START, Header(o, n) + bs) == p.(refused := p.refused + 1)
  {
    var h := Header(o, n);
    FeedInPieces(o, START, h, bs);
    FeedInPieces(o, START, h[..1], h[1..]);
    assert h == h[..1] + h[1..] && h[..1] == [h[0]] && h[1..] == [h[1]];
    FeedOne(o, START, h[0]);
    FeedOne(o, Parse(HalfHeader(h[0]), [], 0), h[1]);
    SentIsOnlyAppended(o, BeforeFrame, [], 1, bs);
    assert [] + FeedAll(o, START, bs).sent == FeedAll(o, START, bs).sent;
  }

  /**
   A length that does not fit costs exactly its own two bytes: the datagrams before it are sent,
   and whatever bytes follow it are read as if it had not been there.
   */
  lemma {:induction false} OversizeIsSkipped(o: Order, before: seq<seq<Byte>>, n: nat, bs: seq<Byte>)
    requires Small(before) && MAX_PACKET_SIZE < n < 0x1_0000
    ensures var p := FeedAll(o, START, bs);
            FeedAll(o, START, Stream(o, before) + (Header(o, n) + bs)) ==
            Parse(p.at, before + p.sent, p.refused + 1)
    decreases |before|
  {
    if before == [] {
      HeaderIsRefused(o, n, bs);
      assert [] + (Header(o, n) + bs) == Header(o, n) + bs;
      assert [] + FeedAll(o, START, bs).sent == FeedAll(o, START, bs).sent;
    } else {
      var d, rest := before[0], before[1..];
      OversizeIsSkipped(o, rest, n, bs);
      Assoc(Frame(o, d), Stream(o, rest), Header(o, n) + bs);
      FrameThen(o, d, Stream(o, rest) + (Header(o, n) + bs));
      Assoc([d], rest, FeedAll(o, START, bs).sent);
      assert [d] + rest == before;
    }
  }

  /** The packets expected after a cut are the first datagrams, whole and in order. */
  lemma {:induction false} ExpectedIsPrefix(o: Order, ds: seq<seq<Byte>>, k: nat)
    requires Small(ds) && k <= |Stream(o, ds)|
    ensures Expected(o, ds, k).sent <= ds
    ensures k == |Stream(o, ds)| ==> Expected(o, ds, k) == Parse(BeforeFrame, ds, 0)
    decreases |ds|
  {
    if ds != [] && k >= |ds[0]| + 2 {
      ExpectedIsPrefix(o, ds[1..], k - |ds[0]| - 2);
    }
  }

  /**
   The framing round trip, exactly: the client sends on the datagrams the server framed if and
   only if none is longer than `MAX_PACKET_SIZE`.
   */
  lemma RoundTripExactlyWhenSmall(o: Order, ds: seq<seq<Byte>>)
    requires Sendable(ds)
    ensures FeedAll(o, START, Stream(o, ds)) == Parse(BeforeFrame, ds, 0) <==> Small(ds)
    ensures FeedAll(o, START, Stream(o, ds)).sent == ds <==> Small(ds)
  {
    var s := Stream(o, ds);
    EveryByteAccountedFor(o, s);
    if Small(ds) {
      assert s[..|s|] == s;
      EveryCutParses(o, ds, |s|);
      ExpectedIsPrefix(o, ds, |s|);
    }
  }

  /** Two lists of datagrams that fit never share a stream. */
  lemma StreamIsInjective(o: Order, a: seq<seq<Byte>>, b: seq<seq<Byte>>)
    requires Small(a) && Small(b) && Stream(o, a) == Stream(o, b)
    ensures a == b
  {
    RoundTripExactlyWhenSmall(o, a);
    RoundTripExactlyWhenSmall(o, b);
  }
}
