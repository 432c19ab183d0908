/**
 INIT and INIT_ACK over a network that loses, duplicates and reorders: any number of clients,
 one server, and foreign hosts that send what they like under their own addresses.
 */
module Handshake {
  import opened Basics
  import opened Replies
  import opened Servers

  datatype Datagram = Datagram(src: Addr, dst: Addr, payload: seq<Byte>)

  /** A client at the send or at the receive of its loop, or past it. */
  datatype Client = AtSend(heard: Heard) | AtReceive(heard: Heard) | Past

  datatype Server = WaitingInit(data0: Byte) | RecvVideo

  /** `net` holds every datagram ever sent; `opener` is the one that ended the server's wait. */
  datatype World = World(
    me: Addr, server: Server, clients: map<Addr, Client>, net: set<Datagram>, opener: Option<Datagram>)

  /** Nothing sent yet; what the variables of server and clients hold is anything. */
  predicate Init(w: World) {
    && w.me !in w.clients && w.server.WaitingInit? && w.net == {} && w.opener == None
    && forall c <- w.clients :: w.clients[c].AtSend?
  }

  datatype Event =
    | SendInit(c: Addr)                       // the client sends INIT
    | GiveUp(c: Addr)                         // its receive times out or fails
    | ClientHears(c: Addr, m: Datagram)       // its receive returns m
    | ClientStreams(c: Addr, d: seq<Byte>)    // past the loop it sends video data
    | ServerHears(m: Datagram)                // the server's receive returns m
    | Foreign(m: Datagram)                    // some other host sends m

  /** What may happen: a datagram once sent can be delivered at any time, any number of times. */
  predicate Enabled(w: World, e: Event) {
    match e
    case SendInit(c) => c in w.clients && w.clients[c].AtSend?
    case GiveUp(c) => c in w.clients && w.clients[c].AtReceive?
    case ClientHears(c, m) => c in w.clients && w.clients[c].AtReceive? && m in w.net && m.dst == c
    case ClientStreams(c, _) => c in w.clients && w.clients[c].Past?
    case ServerHears(m) => m in w.net && m.dst == w.me
    case Foreign(m) => m.src != w.me && m.src !in w.clients
  }

  /** The client evaluates its loop condition. */
  function AfterReceive(h: Heard, server: Addr): Client {
    if Accepts(h, server) then Past else AtSend(h)
  }

  function Step(w: World, e: Event): World
    requires Enabled(w, e)
  {
    match e
    case SendInit(c) =>
      w.(clients := w.clients[c := AtReceive(w.clients[c].heard)], net := w.net + {Datagram(c, w.me, [INIT])})
    case GiveUp(c) =>
      w.(clients := w.clients[c := AfterReceive(Hear(w.clients[c].heard, Timeout), w.me)])
    case ClientHears(c, m) =>
      w.(clients := w.clients[c := AfterReceive(Hear(w.clients[c].heard, Packet(m.src, m.payload)), w.me)])
    case ClientStreams(c, d) => w.(net := w.net + {Datagram(c, w.me, d)})
    case ServerHears(m) =>
      (match w.server
       case RecvVideo => w
       case WaitingInit(data0) =>
         var first := FirstOf(data0, m.payload);
         if first == INIT
         then w.(server := RecvVideo, opener := Some(m), net := w.net + {Datagram(w.me, m.src, [INIT_ACK])})
         else w.(server := WaitingInit(first)))
    case Foreign(m) => w.(net := w.net + {m})
  }

  predicate Runs(w: World, es: seq<Event>)
    decreases |es|
  {
    es == [] || (Enabled(w, es[0]) && Runs(Step(w, es[0]), es[1..]))
  }

  function After(w: World, es: seq<Event>): World
    requires Runs(w, es)
    decreases |es|
  {
    if es == [] then w else After(Step(w, es[0]), es[1..])
  }

  /** Client `c` has got past its loop. */
  predicate Passed(w: World, c: Addr) {
    c in w.clients && w.clients[c].Past?
  }

  /** A run is one event more than the run without its last. */
  lemma {:induction false} LastEvent(w: World, es: seq<Event>, e: Event)
    requires Runs(w, es + [e])
    ensures Runs(w, es) && Enabled(After(w, es), e) && After(w, es + [e]) == Step(After(w, es), e)
    decreases |es|
  {
    if es == [] {
      assert es + [e] == [e];
      assert [e][1..] == [];
    } else {
      assert (es + [e])[1..] == es[1..] + [e];
      LastEvent(Step(w, es[0]), es[1..], e);
    }
  }

  // ---- the server is wait_init ----

  /** The datagrams that the server's receives have returned, with their senders. */
  function ServerInbox(es: seq<Event>): seq<(Addr, seq<Byte>)> {
    if es == [] then [] else
    var e := es[|es| - 1];
    ServerInbox(es[..|es| - 1]) + if e.ServerHears? then [(e.m.src, e.m.payload)] else []
  }

  /** One datagram later `data[0]` has held what it held before. */
  lemma {:induction false} FirstByteBefore(stale: Byte, ds: seq<seq<Byte>>, d: seq<Byte>, k: nat)
    requires k <= |ds|
    ensures FirstByte(stale, ds + [d], k) == FirstByte(stale, ds, k)
  {
    if k > 0 {
      FirstByteBefore(stale, ds, d, k - 1);
    }
  }

  lemma OpensBefore(stale: Byte, ds: seq<seq<Byte>>, d: seq<Byte>)
    ensures forall n: nat :: n <= |ds| ==> (Opens(stale, ds + [d], n) <==> Opens(stale, ds, n))
    ensures forall k: nat :: k <= |ds| ==> FirstByte(stale, ds + [d], k) == FirstByte(stale, ds, k)
  {
    forall k: nat | k <= |ds|
      ensures FirstByte(stale, ds + [d], k) == FirstByte(stale, ds, k)
    {
      FirstByteBefore(stale, ds, d, k);
    }
  }

  /** The server as `wait_init` leaves it: still waiting, or opened by one of the datagrams. */
  ghost predicate ServerIs(w: World, stale: Byte, arrivals: seq<(Addr, seq<Byte>)>) {
    var ds := Payloads(arrivals);
    match w.server
    case WaitingInit(data0) =>
      && w.opener == None && data0 == FirstByte(stale, ds, |ds|)
      && forall k: nat :: 0 < k <= |ds| ==> FirstByte(stale, ds, k) != INIT
    case RecvVideo => exists n: nat :: OpenedBy(w, stale, arrivals, n)
  }

  /** The datagram number `n` ended the wait, and its sender has been sent an INIT_ACK. */
  ghost predicate OpenedBy(w: World, stale: Byte, arrivals: seq<(Addr, seq<Byte>)>, n: nat) {
    && Opens(stale, Payloads(arrivals), n)
    && w.opener == Some(Datagram(arrivals[n - 1].0, w.me, arrivals[n - 1].1))
    && Datagram(w.me, arrivals[n - 1].0, [INIT_ACK]) in w.net
  }

  lemma ServerIsAfter(w: World, e: Event, stale: Byte, arrivals: seq<(Addr, seq<Byte>)>)
    requires Enabled(w, e) && ServerIs(w, stale, arrivals)
    ensures ServerIs(Step(w, e), stale, arrivals + if e.ServerHears? then [(e.m.src, e.m.payload)] else [])
  {
    var w' := Step(w, e);
    if e.ServerHears? {
      var m := e.m;
      var ds, arrivals' := Payloads(arrivals), arrivals + [(m.src, m.payload)];
      assert Payloads(arrivals') == ds + [m.payload];
      OpensBefore(stale, ds, m.payload);
      if w.server == RecvVideo {
        var n: nat :| OpenedBy(w, stale, arrivals, n);
        assert OpenedBy(w', stale, arrivals', n);
      } else if w'.server == RecvVideo {
        assert OpenedBy(w', stale, arrivals', |arrivals'|);
      }
    } else {
      assert arrivals + [] == arrivals;
      if w.server == RecvVideo {
        var n: nat :| OpenedBy(w, stale, arrivals, n);
        assert OpenedBy(w', stale, arrivals, n);
      }
    }
  }

  lemma {:induction false} ServerIsAlways(w: World, es: seq<Event>)
    requires Init(w) && Runs(w, es)
    ensures ServerIs(After(w, es), w.server.data0, ServerInbox(es)) && After(w, es).me == w.me
    decreases |es|
  {
    if es != [] {
      var n := |es| - 1;
      assert es == es[..n] + [es[n]];
      LastEvent(w, es[..n], es[n]);
      ServerIsAlways(w, es[..n]);
      ServerIsAfter(After(w, es[..n]), es[n], w.server.data0, ServerInbox(es[..n]));
    }
  }

  /**
   After every run the server is where `wait_init` takes it on the datagrams it has received: it
   receives video if and only if one of them ended the wait, and then exactly that one's sender
   has been sent an INIT_ACK.
   */
  lemma ServerFollowsWaitInit(w: World, es: seq<Event>, arrivals: seq<(Addr, seq<Byte>)>)
    requires Init(w) && Runs(w, es) && arrivals == ServerInbox(es)
    ensures var w', stale := After(w, es), w.server.data0;
            && (w'.server == RecvVideo <==> exists n: nat :: Opens(stale, Payloads(arrivals), n))
            && (forall n: nat :: Opens(stale, Payloads(arrivals), n) ==>
                  && w'.opener == Some(Datagram(arrivals[n - 1].0, w.me, arrivals[n - 1].1))
                  && Datagram(w.me, arrivals[n - 1].0, [INIT_ACK]) in w'.net)
  {
    ServerIsAlways(w, es);
    OpenedExactlyWhen(After(w, es), w.server.data0, arrivals);
  }

  lemma OpenedExactlyWhen(w: World, stale: Byte, arrivals: seq<(Addr, seq<Byte>)>)
    requires ServerIs(w, stale, arrivals)
    ensures w.server == RecvVideo <==> exists n: nat :: Opens(stale, Payloads(arrivals), n)
    ensures forall n: nat :: Opens(stale, Payloads(arrivals), n) ==>
              && w.opener == Some(Datagram(arrivals[n - 1].0, w.me, arrivals[n - 1].1))
              && Datagram(w.me, arrivals[n - 1].0, [INIT_ACK]) in w.net
  {
    if w.server == RecvVideo {
      var m: nat :| OpenedBy(w, stale, arrivals, m);
      assert Opens(stale, Payloads(arrivals), m);
      forall n: nat | Opens(stale, Payloads(arrivals), n)
        ensures n == m
      {
        OpensOnce(stale, Payloads(arrivals), m, n);
      }
    }
  }

  // ---- the client is the handshake loop ----

  /** The outcomes of client `c`'s receives. */
  function ClientInbox(es: seq<Event>, c: Addr): seq<Reply> {
    if es == [] then [] else
    ClientInbox(es[..|es| - 1], c) + Outcome(es[|es| - 1], c)
  }

  function Outcome(e: Event, c: Addr): seq<Reply> {
    match e
    case GiveUp(c') => if c' == c then [Timeout] else []
    case ClientHears(c', m) => if c' == c then [Packet(m.src, m.payload)] else []
    case _ => []
  }

  /** How many INITs client `c` has sent. */
  function InitsSent(es: seq<Event>, c: Addr): nat {
    multiset(es)[SendInit(c)]
  }

  /** The client as its loop leaves it after the replies `rs` and `inits` INITs. */
  ghost predicate ClientIs(w: World, c: Addr, h: Heard, rs: seq<Reply>, inits: nat) {
    && c in w.clients
    && match w.clients[c]
       case Past => Ends(h, w.me, rs, |rs|) && inits == |rs|
       case AtSend(heard) => NotYet(heard, w.me, h, rs) && inits == |rs|
       case AtReceive(heard) => NotYet(heard, w.me, h, rs) && inits == |rs| + 1
  }

  ghost predicate NotYet(heard: Heard, server: Addr, h: Heard, rs: seq<Reply>) {
    && heard == HearFirst(h, rs, |rs|)
    && forall k: nat :: 0 < k <= |rs| ==> !Accepts(HearFirst(h, rs, k), server)
  }

  lemma {:induction false} HearFirstBefore(h: Heard, rs: seq<Reply>, r: Reply, k: nat)
    requires k <= |rs|
    ensures HearFirst(h, rs + [r], k) == HearFirst(h, rs, k)
  {
    if k > 0 {
      HearFirstBefore(h, rs, r, k - 1);
    }
  }

  lemma OneReplyMore(heard: Heard, server: Addr, h: Heard, rs: seq<Reply>, r: Reply)
    requires NotYet(heard, server, h, rs)
    ensures if Accepts(Hear(heard, r), server) then Ends(h, server, rs + [r], |rs| + 1)
            else NotYet(Hear(heard, r), server, h, rs + [r])
  {
    forall k: nat | k <= |rs|
      ensures HearFirst(h, rs + [r], k) == HearFirst(h, rs, k)
    {
      HearFirstBefore(h, rs, r, k);
    }
  }

  lemma ClientIsAfter(w: World, e: Event, c: Addr, h: Heard, rs: seq<Reply>, inits: nat)
    requires Enabled(w, e) && ClientIs(w, c, h, rs, inits)
    ensures ClientIs(Step(w, e), c, h, rs + Outcome(e, c), inits + if e == SendInit(c) then 1 else 0)
  {
    if Outcome(e, c) == [] {
      assert rs + [] == rs;
    } else {
      OneReplyMore(w.clients[c].heard, w.me, h, rs, Outcome(e, c)[0]);
    }
  }

  /**
   After every run client `c` is where its loop takes it on the outcomes of its receives: past it
   if and only if the last outcome ended the loop and none before, with one INIT sent per round.
   */
  lemma {:induction false} ClientFollowsItsLoop(w: World, es: seq<Event>, c: Addr)
    requires Init(w) && Runs(w, es) && c in w.clients
    ensures After(w, es).me == w.me
    ensures ClientIs(After(w, es), c, w.clients[c].heard, ClientInbox(es, c), InitsSent(es, c))
    decreases |es|
  {
    if es != [] {
      var n := |es| - 1;
      assert es == es[..n] + [es[n]];
      LastEvent(w, es[..n], es[n]);
      ClientFollowsItsLoop(w, es[..n], c);
      ClientIsAfter(After(w, es[..n]), es[n], c, w.clients[c].heard, ClientInbox(es[..n], c), InitsSent(es[..n], c));
    }
  }

  // ---- the network holds what was sent ----

  /** The event puts `m` on the network. */
  predicate Sends(e: Event, server: Addr, m: Datagram) {
    match e
    case SendInit(c) => m == Datagram(c, server, [INIT])
    case ClientStreams(c, d) => m == Datagram(c, server, d)
    case Foreign(f) => m == f
    case _ => false
  }

  /** Some event of `es` puts `m` on the network. */
  predicate Sent(es: seq<Event>, server: Addr, m: Datagram) {
    exists e <- es :: Sends(e, server, m)
  }

  lemma SentOneMore(es: seq<Event>, e: Event, server: Addr, m: Datagram)
    ensures Sent(es + [e], server, m) <==> Sent(es, server, m) || Sends(e, server, m)
  {
    assert forall x :: x in es + [e] <==> x in es || x == e;
    if x :| x in es && Sends(x, server, m) {
      assert x in es + [e];
    }
    assert e in es + [e];
  }

  predicate IsAnswer(w: World, m: Datagram) {
    w.opener.Some? && m == Datagram(w.me, w.opener.value.src, [INIT_ACK])
  }

  lemma NetAfter(w: World, e: Event, m: Datagram)
    requires Enabled(w, e) && (w.server.WaitingInit? ==> w.opener == None)
    ensures var w' := Step(w, e);
            && (m in w'.net <==> m in w.net || Sends(e, w.me, m) || (IsAnswer(w', m) && !IsAnswer(w, m)))
            && (IsAnswer(w, m) ==> IsAnswer(w', m))
  {
  }

  /** After every run the network holds exactly what clients and foreign hosts sent, and the one answer. */
  lemma {:induction false} NetHoldsWhatWasSent(w: World, es: seq<Event>)
    requires Init(w) && Runs(w, es)
    ensures var w' := After(w, es);
            && w'.me == w.me
            && forall m :: m in w'.net <==>
                 Sent(es, w.me, m) || (w'.opener.Some? && m == Datagram(w.me, w'.opener.value.src, [INIT_ACK]))
    decreases |es|
  {
    if es != [] {
      var n := |es| - 1;
      assert es == es[..n] + [es[n]];
      LastEvent(w, es[..n], es[n]);
      NetHoldsWhatWasSent(w, es[..n]);
      ServerIsAlways(w, es[..n]);
      forall m
        ensures m in After(w, es).net <==> Sent(es, w.me, m) || IsAnswer(After(w, es), m)
      {
        SentOneMore(es[..n], es[n], w.me, m);
        NetAfter(After(w, es[..n]), es[n], m);
      }
    }
  }

  // ---- safety ----

  /** The only datagrams under the server's address are INIT_ACKs to the sender of the opener. */
  ghost predicate ServerOk(w: World) {
    && w.me !in w.clients
    && (w.server == RecvVideo <==> w.opener.Some?)
    && (forall m <- w.net :: m.src == w.me ==>
          w.opener.Some? && m == Datagram(w.me, w.opener.value.src, [INIT_ACK]))
    && (w.opener.Some? ==> Datagram(w.me, w.opener.value.src, [INIT_ACK]) in w.net)
  }

  /** Client `c` passes only on the server's answer to its own INIT. */
  ghost predicate ClientOk(w: World, c: Addr) {
    && c in w.clients
    && (w.clients[c].Past? ==> w.opener == Some(Datagram(c, w.me, [INIT])))
    && (!w.clients[c].Past? ==> !Accepts(w.clients[c].heard, w.me))
    && (w.server != RecvVideo ==> forall m <- w.net :: m.src == c ==> m == Datagram(c, w.me, [INIT]))
    && (w.opener.Some? && w.opener.value.src == c ==> w.opener.value == Datagram(c, w.me, [INIT]))
  }

  lemma ServerStaysOk(w: World, e: Event)
    requires ServerOk(w) && Enabled(w, e)
    ensures ServerOk(Step(w, e)) && Step(w, e).me == w.me
    ensures w.server == RecvVideo ==> Step(w, e).server == RecvVideo && Step(w, e).opener == w.opener
  {
  }

  lemma ClientStaysOk(w: World, e: Event, c: Addr)
    requires ServerOk(w) && ClientOk(w, c) && Enabled(w, e)
    ensures ClientOk(Step(w, e), c)
  {
    var w' := Step(w, e);
    match e
    case ClientHears(c', m) =>
      if c' == c && w'.clients[c].Past? {
        assert m.src == w.me;
      }
    case ServerHears(m) =>
    case _ =>
  }

  lemma {:induction false} RunStaysOk(w: World, es: seq<Event>, c: Addr)
    requires ServerOk(w) && ClientOk(w, c) && Runs(w, es)
    ensures ServerOk(After(w, es)) && ClientOk(After(w, es), c) && After(w, es).me == w.me
    ensures w.server == RecvVideo ==> After(w, es).server == RecvVideo && After(w, es).opener == w.opener
    decreases |es|
  {
    if es != [] {
      ServerStaysOk(w, es[0]);
      ClientStaysOk(w, es[0], c);
      RunStaysOk(Step(w, es[0]), es[1..], c);
    }
  }

  /** The uninitialised variables of client `c` do not look like an INIT_ACK from the server. */
  predicate StartsClean(w: World, c: Addr) {
    c in w.clients && w.clients[c].AtSend? && !Accepts(w.clients[c].heard, w.me)
  }

  /**
   A client past its loop has been answered: the server has left its wait, on this client's own
   INIT, and will receive video from then on, whatever happens next.
   */
  lemma PastMeansServed(w: World, es: seq<Event>, more: seq<Event>, c: Addr)
    requires Init(w) && StartsClean(w, c) && Runs(w, es) && Runs(After(w, es), more)
    requires Passed(After(w, es), c)
    ensures var w' := After(After(w, es), more);
            w'.server == RecvVideo && w'.opener == Some(Datagram(c, w.me, [INIT]))
  {
    RunStaysOk(w, es, c);
    RunStaysOk(After(w, es), more, c);
  }

  /** No two clients ever get past their loops. */
  lemma OnlyOnePasses(w: World, es: seq<Event>, c: Addr, d: Addr)
    requires Init(w) && StartsClean(w, c) && StartsClean(w, d) && Runs(w, es)
    requires Passed(After(w, es), c) && Passed(After(w, es), d)
    ensures c == d
  {
    RunStaysOk(w, es, c);
    RunStaysOk(w, es, d);
  }

  /** If client `c` has passed, it was its own INIT that ended the server's wait. */
  predicate PassedOnAck(w: World, c: Addr) {
    Passed(w, c) ==> w.opener == Some(Datagram(c, w.me, [INIT]))
  }

  /** Uninitialised variables that match take the client past its loop on its first timeout. */
  lemma OneTimeoutSuffices(w: World, c: Addr) returns (es: seq<Event>)
    requires Init(w) && c in w.clients && !StartsClean(w, c)
    ensures Runs(w, es) && Passed(After(w, es), c) && After(w, es).server.WaitingInit?
    ensures !PassedOnAck(After(w, es), c)
  {
    es := [SendInit(c), GiveUp(c)];
    var w1 := Step(w, SendInit(c));
    var w2 := Step(w1, GiveUp(c));
    assert es[1..] == [GiveUp(c)];
    assert Runs(w1, [GiveUp(c)]) && After(w1, [GiveUp(c)]) == w2 by {
      assert [GiveUp(c)][1..] == [];
      assert Runs(w2, []);
    }
  }

  /**
   The handshake protects client `c` if and only if its uninitialised variables do not already
   match: otherwise one timeout takes it past the loop with no server involved.
   */
  lemma SafeExactlyWhenClean(w: World, c: Addr)
    requires Init(w) && c in w.clients
    ensures StartsClean(w, c) <==>
            forall es :: Runs(w, es) ==> PassedOnAck(After(w, es), c)
  {
    if StartsClean(w, c) {
      forall es | Runs(w, es)
        ensures PassedOnAck(After(w, es), c)
      {
        RunStaysOk(w, es, c);
      }
    } else {
      var es := OneTimeoutSuffices(w, c);
    }
  }

  // ---- progress ----

  /** One event more at the front. */
  lemma RunFirst(w: World, e: Event, es: seq<Event>)
    requires Enabled(w, e) && Runs(Step(w, e), es)
    ensures Runs(w, [e] + es) && After(w, [e] + es) == After(Step(w, e), es)
  {
    assert ([e] + es)[1..] == es;
  }

  /** With the answer on the network, a client at its receive can get past its loop. */
  lemma AnswerTakesPast(w: World, c: Addr) returns (es: seq<Event>)
    requires c in w.clients && w.clients[c].AtReceive? && Datagram(w.me, c, [INIT_ACK]) in w.net
    ensures es == [ClientHears(c, Datagram(w.me, c, [INIT_ACK]))]
    ensures Runs(w, es) && Passed(After(w, es), c)
  {
    var e := ClientHears(c, Datagram(w.me, c, [INIT_ACK]));
    assert Runs(Step(w, e), []);
    RunFirst(w, e, []);
    es := [e] + [];
  }

  /** While the server waits, INIT, its receipt and the answer take any client past its loop. */
  lemma {:induction false} ThreeStepsSuffice(w: World, c: Addr) returns (es: seq<Event>)
    requires w.server.WaitingInit? && c in w.clients && w.clients[c].AtSend?
    ensures es == [SendInit(c), ServerHears(Datagram(c, w.me, [INIT])), ClientHears(c, Datagram(w.me, c, [INIT_ACK]))]
    ensures Runs(w, es) && Passed(After(w, es), c) && After(w, es).server == RecvVideo
    ensures After(w, es).opener == Some(Datagram(c, w.me, [INIT]))
  {
    var e1, e2 := SendInit(c), ServerHears(Datagram(c, w.me, [INIT]));
    var w1 := Step(w, e1);
    var w2 := Step(w1, e2);
    var last := AnswerTakesPast(w2, c);
    assert last[1..] == [];
    RunFirst(w1, e2, last);
    RunFirst(w, e1, [e2] + last);
    es := [e1] + ([e2] + last);
  }

  /** A client that is served, or can be, has a run that takes it past its loop. */
  lemma WayPast(w: World, c: Addr) returns (es: seq<Event>)
    requires ServerOk(w) && ClientOk(w, c)
    requires w.server.WaitingInit? || w.opener == Some(Datagram(c, w.me, [INIT]))
    ensures Runs(w, es) && Passed(After(w, es), c)
    decreases if c in w.clients && w.clients[c].AtReceive? then 1 else 0
  {
    match w.clients[c]
    case Past =>
      es := [];
    case AtReceive(_) =>
      ClientStaysOk(w, GiveUp(c), c);
      ServerStaysOk(w, GiveUp(c));
      var rest := WayPast(Step(w, GiveUp(c)), c);
      RunFirst(w, GiveUp(c), rest);
      es := [GiveUp(c)] + rest;
    case AtSend(_) =>
      if w.server.WaitingInit? {
        es := ThreeStepsSuffice(w, c);
      } else {
        var rest := AnswerTakesPast(Step(w, SendInit(c)), c);
        RunFirst(w, SendInit(c), rest);
        es := [SendInit(c)] + rest;
      }
  }

  /**
   From any state a run reaches, a client whose variables did not match by accident can get past
   its loop if and only if the server still waits, or this client's own INIT ended the wait.
   */
  lemma {:induction false} CanPassExactlyWhen(w: World, es: seq<Event>, c: Addr)
    requires Init(w) && StartsClean(w, c) && Runs(w, es)
    ensures var w' := After(w, es);
            (exists more :: Runs(w', more) && Passed(After(w', more), c)) <==>
            w'.server.WaitingInit? || w'.opener == Some(Datagram(c, w.me, [INIT]))
  {
    var w' := After(w, es);
    RunStaysOk(w, es, c);
    if more :| Runs(w', more) && Passed(After(w', more), c) {
      RunStaysOk(w', more, c);
    }
    if w'.server.WaitingInit? || w'.opener == Some(Datagram(c, w.me, [INIT])) {
      var more := WayPast(w', c);
    }
  }
}
