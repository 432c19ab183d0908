/** What the client's handshake loop keeps between two rounds, and when it ends. */
module Replies {
  import opened Basics

  datatype Addr = Addr(ip: nat, port: nat)

  /** Outcome of `recv_data_timeout`. */
  datatype Reply = Timeout | Packet(src: Addr, payload: seq<Byte>)

  /** `srcAddr` and `response[0]`; both start out uninitialised and survive a timeout. */
  datatype Heard = Heard(src: Addr, first: Byte)

  function Hear(h: Heard, r: Reply): Heard {
    match r
    case Timeout => h
    case Packet(src, payload) => Heard(src, FirstOf(h.first, payload))
  }

  /** What the variables hold after the first `n` replies. */
  function HearFirst(h: Heard, rs: seq<Reply>, n: nat): Heard
    requires n <= |rs|
  {
    if n == 0 then h else Hear(HearFirst(h, rs, n - 1), rs[n - 1])
  }

  /** A datagram with at least one byte: it overwrites `response[0]`. */
  predicate Talks(r: Reply) {
    r.Packet? && r.payload != []
  }

  /**
   What the variables hold: the source of the last datagram and the first byte of the last one
   that is not empty, or what was there at first. Timeouts change nothing.
   */
  lemma HeardIsLast(h: Heard, rs: seq<Reply>, n: nat)
    requires n <= |rs|
    ensures var heard := HearFirst(h, rs, n);
            && ((forall i :: 0 <= i < n ==> rs[i] == Timeout) ==> heard.src == h.src)
            && (forall j :: 0 <= j < n && LastPacket(rs, n, j) ==> heard.src == rs[j].src)
            && ((forall i :: 0 <= i < n ==> !Talks(rs[i])) ==> heard.first == h.first)
            && (forall j :: 0 <= j < n && LastTalk(rs, n, j) ==> heard.first == rs[j].payload[0])
  {
    SourceIsLast(h, rs, n);
    FirstIsLast(h, rs, n);
  }

  /** Of the first `n` replies number `j` is the last datagram. */
  predicate LastPacket(rs: seq<Reply>, n: nat, j: nat)
    requires j < n <= |rs|
  {
    rs[j].Packet? && forall i :: j < i < n ==> rs[i] == Timeout
  }

  /** Of the first `n` replies number `j` is the last datagram that is not empty. */
  predicate LastTalk(rs: seq<Reply>, n: nat, j: nat)
    requires j < n <= |rs|
  {
    Talks(rs[j]) && forall i :: j < i < n ==> !Talks(rs[i])
  }

  lemma {:induction false} SourceIsLast(h: Heard, rs: seq<Reply>, n: nat)
    requires n <= |rs|
    ensures (forall i :: 0 <= i < n ==> rs[i] == Timeout) ==> HearFirst(h, rs, n).src == h.src
    ensures forall j :: 0 <= j < n && LastPacket(rs, n, j) ==> HearFirst(h, rs, n).src == rs[j].src
  {
    if n > 0 {
      SourceIsLast(h, rs, n - 1);
      forall j | 0 <= j < n && LastPacket(rs, n, j)
        ensures HearFirst(h, rs, n).src == rs[j].src
      {
        assert j < n - 1 ==> LastPacket(rs, n - 1, j);
      }
    }
  }

  lemma {:induction false} FirstIsLast(h: Heard, rs: seq<Reply>, n: nat)
    requires n <= |rs|
    ensures (forall i :: 0 <= i < n ==> !Talks(rs[i])) ==> HearFirst(h, rs, n).first == h.first
    ensures forall j :: 0 <= j < n && LastTalk(rs, n, j) ==> HearFirst(h, rs, n).first == rs[j].payload[0]
  {
    if n > 0 {
      FirstIsLast(h, rs, n - 1);
      forall j | 0 <= j < n && LastTalk(rs, n, j)
        ensures HearFirst(h, rs, n).first == rs[j].payload[0]
      {
        assert j < n - 1 ==> LastTalk(rs, n - 1, j);
      }
    }
  }

  /** The negated condition of the do-while loop. */
  predicate Accepts(h: Heard, server: Addr) {
    h.src == server && h.first == INIT_ACK
  }

  /** The loop ends with the `n`th reply. */
  predicate Ends(h: Heard, server: Addr, rs: seq<Reply>, n: nat) {
    && 0 < n <= |rs|
    && Accepts(HearFirst(h, rs, n), server)
    && forall k :: 0 < k < n ==> !Accepts(HearFirst(h, rs, k), server)
  }

  /** A server that never sends an empty datagram. */
  predicate NoEmptyFrom(server: Addr, rs: seq<Reply>) {
    forall r <- rs :: r.Packet? && r.src == server ==> r.payload != []
  }

  /** A datagram from the server that starts with INIT_ACK. */
  predicate IsAck(r: Reply, server: Addr) {
    r.Packet? && r.src == server && r.payload != [] && r.payload[0] == INIT_ACK
  }

  /** Replies other than an INIT_ACK make the variables match only if they matched and stayed. */
  lemma {:induction false} MatchNeedsAck(h: Heard, server: Addr, rs: seq<Reply>, n: nat)
    requires NoEmptyFrom(server, rs) && n <= |rs|
    requires forall j :: 0 <= j < n ==> !IsAck(rs[j], server)
    ensures Accepts(HearFirst(h, rs, n), server) <==>
            Accepts(h, server) && forall j :: 0 <= j < n ==> rs[j] == Timeout
  {
    if n > 0 {
      MatchNeedsAck(h, server, rs, n - 1);
      assert rs[n - 1] in rs;
    }
  }

  /**
   With a server that sends no empty datagram, the loop ends on the first INIT_ACK from the
   server, whatever timeouts leave behind, unless the uninitialised variables already match
   and the first reply leaves them alone.
   */
  lemma EndsExactlyWhen(h: Heard, server: Addr, rs: seq<Reply>, n: nat)
    requires NoEmptyFrom(server, rs) && 0 < n <= |rs|
    ensures Ends(h, server, rs, n) <==>
            if Accepts(h, server) && rs[0] == Timeout then n == 1
            else IsAck(rs[n - 1], server) && forall j :: 0 <= j < n - 1 ==> !IsAck(rs[j], server)
  {
    assert HearFirst(h, rs, 1) == Hear(h, rs[0]);
    if Accepts(h, server) && rs[0] == Timeout {
    } else if Ends(h, server, rs, n) {
      forall j | 0 <= j < n - 1
        ensures !IsAck(rs[j], server)
      {
        assert !Accepts(HearFirst(h, rs, j + 1), server);
      }
      if !IsAck(rs[n - 1], server) {
        MatchNeedsAck(h, server, rs, n);
      }
    } else if forall j :: 0 <= j < n - 1 ==> !IsAck(rs[j], server) {
      forall k | 0 < k < n
        ensures !Accepts(HearFirst(h, rs, k), server)
      {
        MatchNeedsAck(h, server, rs, k);
      }
    }
  }
}

/** The client of `client.c`. */
module Clients {
  import opened Basics
  import opened MachineInts
  import opened Framing
  import opened Replies
  import opened HardwareFifos

  /**
   The do-while loop of `run_client` over the outcomes of its receives: it sends one INIT per
   round and ends on the first round after which the variables show an INIT_ACK.
   */
  method AwaitAck(h: Heard, server: Addr, replies: seq<Reply>) returns (done: bool, inits: nat)
    ensures done <==> exists n :: Ends(h, server, replies, n)
    ensures done ==> Ends(h, server, replies, inits)
    ensures !done ==> inits == |replies|
  {
    var heard := h;
    done, inits := false, 0;
    while !done && inits < |replies|
      invariant inits <= |replies| && heard == HearFirst(h, replies, inits)
      invariant done ==> Ends(h, server, replies, inits)
      invariant !done ==> forall k :: 0 < k <= inits ==> !Accepts(HearFirst(h, replies, k), server)
      decreases |replies| - inits, !done
    {
      heard := Hear(heard, replies[inits]);
      inits := inits + 1;
      done := Accepts(heard, server);
    }
  }

  /**
   `video_send_loop` over all bytes the receive FIFO delivers, up to the read that blocks for
   lack of more: the packets sent, the refused lengths and the place where it blocks.
   */
  method VideoSendLoop(o: Order, stream: seq<Byte>) returns (p: Parse)
    ensures p == FeedAll(o, START, stream)
  {
    var dataBuffer := new Byte[MAX_PACKET_SIZE];
    var sent: seq<seq<Byte>>, refused := [], 0;
    var pos := 0;
    ReadNone(o, stream);
    while true
      invariant ReadUpTo(o, stream, pos, Parse(BeforeFrame, sent, refused))
      decreases |stream| - pos
    {
      var currentSize := 0;
      if pos == |stream| {
        ReadAll(o, stream, Parse(BeforeFrame, sent, refused));
        return Parse(BeforeFrame, sent, refused);
      }
      var b0 := stream[pos];
      if pos + 1 == |stream| {
        ReadNext(o, stream, pos, Parse(BeforeFrame, sent, refused));
        ReadAll(o, stream, Parse(HalfHeader(b0), sent, refused));
        return Parse(HalfHeader(b0), sent, refused);
      }
      var packetLen := Length(o, b0, stream[pos + 1]);
      HeaderRead(o, stream, pos, sent, refused);
      pos := pos + 2;
      if packetLen > MAX_PACKET_SIZE {
        refused := refused + 1;
        continue;
      }
      ghost var start := pos;
      while currentSize < packetLen
        invariant currentSize <= packetLen && start <= pos
        invariant ReadUpTo(o, stream, pos,
                           if currentSize < packetLen
                           then Parse(InPayload(packetLen, dataBuffer[..currentSize]), sent, refused)
                           else Parse(BeforeFrame, sent + [dataBuffer[..currentSize]], refused))
      {
        ghost var got := dataBuffer[..currentSize];
        if pos == |stream| {
          ReadAll(o, stream, Parse(InPayload(packetLen, got), sent, refused));
          return Parse(InPayload(packetLen, dataBuffer[..currentSize]), sent, refused);
        }
        PayloadRead(o, stream, pos, packetLen, got, sent, refused);
        dataBuffer[currentSize] := stream[pos];
        assert dataBuffer[..currentSize + 1] == got + [stream[pos]];
        currentSize := currentSize + 1;
        pos := pos + 1;
      }
      var len := CShort(currentSize);
      sent := sent + [dataBuffer[..len]];
    }
  }

  /**
   `empty_fifo` while the link may still deliver: of the bytes `link` it moves up to `speed[i]`,
   as far as there is room, before the read number `i`. The loop ends with the FIFO empty and
   counts exactly what it threw away: the bytes that were there and those delivered meanwhile.
   */
  method EmptyFifo(rx: HardwareFifo, link: seq<Byte>, speed: seq<nat>) returns (counter: nat, delivered: nat)
    requires rx.Valid()
    modifies rx
    ensures rx.Valid() && rx.contents == []
    ensures delivered <= |link| && counter == |old(rx.contents)| + delivered
    ensures (forall i :: 0 <= i < |speed| ==> speed[i] == 0) ==> delivered == 0
  {
    var dataHolder: Byte := 0;
    var temp: int;
    var polls := 0;
    counter := 0;
    delivered := LinkDelivers(rx, link, if speed == [] then 0 else speed[0]);
    temp, dataHolder := rx.ReadData(dataHolder);
    while temp == 0
      invariant rx.Valid() && delivered <= |link|
      invariant temp == 0 ==> counter + 1 + |rx.contents| == |old(rx.contents)| + delivered
      invariant temp != 0 ==> rx.contents == [] && counter == |old(rx.contents)| + delivered
      invariant (forall i :: 0 <= i < |speed| ==> speed[i] == 0) ==> delivered == 0
      decreases |link| - delivered + |rx.contents|, temp == 0
    {
      polls := polls + 1;
      var more := LinkDelivers(rx, link[delivered..], if polls < |speed| then speed[polls] else 0);
      delivered := delivered + more;
      temp, dataHolder := rx.ReadData(dataHolder);
      counter := counter + 1;
    }
  }

  /** The link moves up to `n` of its bytes into the FIFO, as far as there is room. */
  method LinkDelivers(rx: HardwareFifo, link: seq<Byte>, n: nat) returns (moved: nat)
    requires rx.Valid()
    modifies rx
    ensures rx.Valid() && moved <= n && moved <= |link|
    ensures rx.contents == old(rx.contents) + link[..moved]
    ensures moved == n || moved == |link| || |rx.contents| == FIFO_DEPTH
  {
    var room := FIFO_DEPTH - |rx.contents|;
    moved := if n < room then n else room;
    moved := if moved < |link| then moved else |link|;
    rx.contents := rx.contents + link[..moved];
  }
}
