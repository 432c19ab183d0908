/** The server of `server.c`: admission into the ring, the receive loops and the drain loop. */
module Servers {
  import opened Basics
  import opened MachineInts
  import opened Ring
  import opened Framing
  import opened CircularBuffers
  import opened HardwareFifos

  // ---- admission ----

  /** `send_packet_buffer` on the ring as a value. */
  function Admission(o: Order, r: Ring, d: seq<Byte>): (r': Ring)
    requires r.Valid() && |d| <= MAX_PACKET_SIZE
    ensures r'.Valid() && r'.Max() == r.Max()
  {
    if Space(r) > |d| + 2 then Write(Write(r, Header(o, |d|)), d) else r
  }

  /**
   Uninterrupted, a datagram is queued as one whole frame exactly when the frame leaves a byte
   free, and otherwise the ring is as it was; so a drop tells that at least `max - 2002` bytes
   wait. `Delivery.AdmitsExactlyWhen` says what remains of this while the drain thread runs.
   */
  lemma AdmissionIsAllOrNothing(o: Order, r: Ring, d: seq<Byte>)
    requires r.Valid() && 1 <= |d| <= MAX_PACKET_SIZE
    ensures var fits := r.Count() + |d| + 2 < r.Max();
            && Admission(o, r, d).Queue() == (if fits then r.Queue() + Frame(o, d) else r.Queue())
            && (fits ==> !Admission(o, r, d).full)
            && (!fits ==> Admission(o, r, d) == r && r.Count() >= r.Max() - 2002)
  {
    SpaceIsFree(r);
    var h := Header(o, |d|);
    if r.Count() + |d| + 2 < r.Max() {
      PutAllQueue(r, h);
      var r1 := Write(r, h);
      assert r1.Count() == |r1.Queue()|;
      PutAllQueue(r1, d);
      Assoc(r.Queue(), h, d);
      assert Write(r1, d).Count() == |Write(r1, d).Queue()|;
    }
  }

  /** `send_packet_buffer`, uninterrupted. */
  method SendPacketBuffer(o: Order, data: seq<Byte>, buf: CircularBuffer)
    requires buf.Valid() && 1 <= |data| <= MAX_PACKET_SIZE
    modifies buf, buf.buffer
    ensures buf.Valid() && buf.buffer == old(buf.buffer) && buf.max == old(buf.max)
    ensures buf.Snap() == Admission(o, old(buf.Snap()), data)
    ensures buf.Queue() == Offer(o, old(buf.Queue()), buf.max, data)
  {
    AdmissionIsAllOrNothing(o, buf.Snap(), data);
    var bufferSpace := buf.GetSpace();
    if bufferSpace > |data| + 2 {
      buf.SendData(Header(o, |data|));
      buf.SendData(data);
    }
  }

  // ---- the receive loop ----

  /** The datagrams that are not empty: `recv_video` skips the others. */
  function NonEmpty(ds: seq<seq<Byte>>): seq<seq<Byte>> {
    if ds == [] then [] else (if ds[0] == [] then [] else [ds[0]]) + NonEmpty(ds[1..])
  }

  /** Those of `ds` that find room when `queued` of `max` bytes wait and nothing is drained. */
  function FindRoom(queued: nat, max: nat, ds: seq<seq<Byte>>): seq<seq<Byte>>
    decreases |ds|
  {
    if ds == [] then []
    else
      var adm, d := FindRoom(queued, max, ds[..|ds| - 1]), ds[|ds| - 1];
      if d != [] && queued + Occupied(adm) + |d| + 2 < max then adm + [d] else adm
  }

  lemma {:induction false} StreamLength(o: Order, ds: seq<seq<Byte>>)
    requires Sendable(ds)
    ensures |Stream(o, ds)| == Occupied(ds)
    decreases |ds|
  {
    if ds != [] {
      var n := |ds| - 1;
      StreamLength(o, ds[..n]);
      StreamAppend(o, ds[..n], ds[n]);
      assert ds == ds[..n] + [ds[n]];
    }
  }

  lemma NonEmptyCons(d: seq<Byte>, ds: seq<seq<Byte>>)
    ensures NonEmpty([d] + ds) == (if d == [] then [] else [d]) + NonEmpty(ds)
  {
    assert ([d] + ds)[1..] == ds;
  }

  lemma {:induction false} NonEmptyAppend(ds: seq<seq<Byte>>, d: seq<Byte>)
    ensures NonEmpty(ds + [d]) == NonEmpty(ds) + if d == [] then [] else [d]
  {
    var last := if d == [] then [] else [d];
    if ds == [] {
      NonEmptyCons(d, []);
      assert ds + [d] == [d] + [];
      assert last + [] == [] + last;
    } else {
      var first := if ds[0] == [] then [] else [ds[0]];
      NonEmptyAppend(ds[1..], d);
      NonEmptyCons(ds[0], ds[1..] + [d]);
      assert ds + [d] == [ds[0]] + (ds[1..] + [d]);
      Assoc(first, NonEmpty(ds[1..]), last);
    }
  }

  /** `NonEmpty` keeps exactly the datagrams that are not empty, in order. */
  lemma {:induction false} NonEmptyExactly(ds: seq<seq<Byte>>) returns (picked: seq<nat>)
    ensures PickedFrom(NonEmpty(ds), ds, picked)
    ensures forall i :: 0 <= i < |ds| ==> (i in picked <==> ds[i] != [])
    decreases |ds|
  {
    if ds == [] {
      picked := [];
    } else {
      var n := |ds| - 1;
      picked := NonEmptyExactly(ds[..n]);
      NonEmptyAppend(ds[..n], ds[n]);
      assert ds == ds[..n] + [ds[n]];
      if ds[n] != [] {
        picked := picked + [n];
      }
    }
  }

  /** Of the places `picked`, which go up, the first `k` lie before place `i`. */
  ghost predicate ComeBefore(picked: seq<nat>, i: nat, k: nat) {
    && k <= |picked|
    && (forall j :: 0 <= j < k ==> picked[j] < i)
    && (forall j :: k <= j < |picked| ==> picked[j] >= i)
  }

  lemma OnePlaceMore(picked: seq<nat>, n: nat, last: seq<nat>, i: nat, k: nat)
    requires (forall j :: 0 <= j < |picked| ==> picked[j] < n) && (last == [] || last == [n])
    requires i <= n && ComeBefore(picked + last, i, k)
    ensures k <= |picked| && ComeBefore(picked, i, k) && (i == n ==> k == |picked|)
  {
    var all := picked + last;
    assert forall j :: 0 <= j < |picked| ==> all[j] == picked[j];
    if k < |picked| {
      assert all[k] < n;
    } else if last != [] {
      assert all[|picked|] == n;
    }
  }

  /** With `adm` admitted of the first `|ds|` datagrams, at the places `picked`, is place `i` right? */
  ghost predicate RightlyPicked(
    queued: nat, max: nat, ds: seq<seq<Byte>>, adm: seq<seq<Byte>>, picked: seq<nat>, i: nat)
    requires i < |ds|
  {
    forall k: nat :: k <= |adm| && ComeBefore(picked, i, k) ==>
      (i in picked <==> ds[i] != [] && queued + Occupied(adm[..k]) + |ds[i]| + 2 < max)
  }

  /**
   A datagram finds room exactly when it is not empty and leaves a byte free behind what was
   queued at first and the frames of those that found room before it.
   */
  lemma {:induction false} FindRoomExactly(queued: nat, max: nat, ds: seq<seq<Byte>>) returns (picked: seq<nat>)
    ensures PickedFrom(FindRoom(queued, max, ds), ds, picked)
    ensures forall i :: 0 <= i < |ds| ==> RightlyPicked(queued, max, ds, FindRoom(queued, max, ds), picked, i)
    decreases |ds|
  {
    if ds == [] {
      picked := [];
    } else {
      var n, d := |ds| - 1, ds[|ds| - 1];
      var adm := FindRoom(queued, max, ds[..n]);
      picked := FindRoomExactly(queued, max, ds[..n]);
      var more, last := [], [];
      if d != [] && queued + Occupied(adm) + |d| + 2 < max {
        more, last := [d], [n];
      }
      assert FindRoom(queued, max, ds) == adm + more;
      forall i | 0 <= i < |ds|
        ensures RightlyPicked(queued, max, ds, adm + more, picked + last, i)
      {
        PickOneMore(queued, max, ds, adm, more, picked, last, i);
      }
      picked := picked + last;
    }
  }

  lemma PickOneMore(queued: nat, max: nat, ds: seq<seq<Byte>>, adm: seq<seq<Byte>>, more: seq<seq<Byte>>,
                    picked: seq<nat>, last: seq<nat>, i: nat)
    requires i < |ds| && PickedFrom(adm, ds[..|ds| - 1], picked)
    requires i < |ds| - 1 ==> RightlyPicked(queued, max, ds[..|ds| - 1], adm, picked, i)
    requires var d, n := ds[|ds| - 1], |ds| - 1;
             if d != [] && queued + Occupied(adm) + |d| + 2 < max then more == [d] && last == [n]
             else more == [] && last == []
    ensures RightlyPicked(queued, max, ds, adm + more, picked + last, i)
  {
    var n := |ds| - 1;
    forall k: nat | k <= |adm + more| && ComeBefore(picked + last, i, k)
      ensures i in picked + last <==> ds[i] != [] && queued + Occupied((adm + more)[..k]) + |ds[i]| + 2 < max
    {
      OnePlaceMore(picked, n, last, i, k);
      assert (adm + more)[..k] == adm[..k];
      if i == n {
        assert adm[..k] == adm;
        assert n !in picked;
      } else {
        assert ds[..n][i] == ds[i];
        assert i in picked + last <==> i in picked;
      }
    }
  }

  lemma OccupiedAppend(ds: seq<seq<Byte>>, d: seq<Byte>)
    ensures Occupied(ds + [d]) == Occupied(ds) + |d| + 2
  {
    assert (ds + [d])[..|ds|] == ds;
  }

  lemma {:induction false} NoneIsEmpty(ds: seq<seq<Byte>>)
    ensures [] !in NonEmpty(ds)
  {
    if ds != [] {
      NoneIsEmpty(ds[1..]);
    }
  }

  lemma {:induction false} FullOnesFindRoom(queued: nat, max: nat, ds: seq<seq<Byte>>)
    requires [] !in ds && queued + Occupied(ds) < max
    ensures FindRoom(queued, max, ds) == ds
    decreases |ds|
  {
    if ds != [] {
      var n := |ds| - 1;
      FullOnesFindRoom(queued, max, ds[..n]);
      assert ds[n] in ds;
    }
  }

  /** Where all fit, all find room. */
  lemma AllFindRoom(queued: nat, max: nat, ds: seq<seq<Byte>>)
    requires queued + Occupied(NonEmpty(ds)) < max
    ensures FindRoom(queued, max, ds) == NonEmpty(ds)
  {
    NoneIsEmpty(ds);
    FullOnesFindRoom(queued, max, NonEmpty(ds));
    EmptyOnesFindNoRoom(queued, max, ds);
  }

  /** The contents of a ring of `max` cells after one more datagram, nothing being drained. */
  function Offer(o: Order, q: seq<Byte>, max: nat, d: seq<Byte>): seq<Byte>
    requires |d| <= MAX_PACKET_SIZE
  {
    if d != [] && |q| + |d| + 2 < max then q + Frame(o, d) else q
  }

  lemma OfferFindsRoom(o: Order, q0: seq<Byte>, max: nat, ds: seq<seq<Byte>>, d: seq<Byte>)
    requires |d| <= MAX_PACKET_SIZE && Small(FindRoom(|q0|, max, ds))
    ensures Small(FindRoom(|q0|, max, ds + [d]))
    ensures Offer(o, q0 + Stream(o, FindRoom(|q0|, max, ds)), max, d)
         == q0 + Stream(o, FindRoom(|q0|, max, ds + [d]))
  {
    var adm := FindRoom(|q0|, max, ds);
    assert (ds + [d])[..|ds|] == ds;
    StreamLength(o, adm);
    StreamAppend(o, adm, d);
    Assoc(q0, Stream(o, adm), Frame(o, d));
  }

  lemma OneMoreArrival(o: Order, q0: seq<Byte>, max: nat, ds: seq<seq<Byte>>, i: nat)
    requires i < |ds| && |ds[i]| <= MAX_PACKET_SIZE && Small(FindRoom(|q0|, max, ds[..i]))
    ensures Small(FindRoom(|q0|, max, ds[..i + 1]))
    ensures Offer(o, q0 + Stream(o, FindRoom(|q0|, max, ds[..i])), max, ds[i])
         == q0 + Stream(o, FindRoom(|q0|, max, ds[..i + 1]))
    ensures |NonEmpty(ds[..i + 1])| == |NonEmpty(ds[..i])| + if ds[i] == [] then 0 else 1
  {
    assert ds[..i + 1] == ds[..i] + [ds[i]];
    OfferFindsRoom(o, q0, max, ds[..i], ds[i]);
    NonEmptyAppend(ds[..i], ds[i]);
  }

  const BUFFER_PRINT_INTERVAL: nat := 250

  /**
   `recv_video` over the datagrams that arrive while nothing is drained: the ring gains the
   frames of those that find room, in order, and every 250 non-empty datagrams print once.
   */
  method RecvVideo(o: Order, buf: CircularBuffer, arrivals: seq<seq<Byte>>) returns (prints: nat)
    requires buf.Valid() && Small(arrivals)
    modifies buf, buf.buffer
    ensures buf.Valid() && buf.max == old(buf.max)
    ensures var adm := FindRoom(|old(buf.Queue())|, buf.max, arrivals);
            Small(adm) && buf.Queue() == old(buf.Queue()) + Stream(o, adm)
    ensures |old(buf.Queue())| + Occupied(NonEmpty(arrivals)) < buf.max ==>
              Small(NonEmpty(arrivals)) && buf.Queue() == old(buf.Queue()) + Stream(o, NonEmpty(arrivals))
    ensures arrivals == [] ==> buf.Queue() == old(buf.Queue())
    ensures prints == |NonEmpty(arrivals)| / BUFFER_PRINT_INTERVAL
  {
    var packNum := 0;
    prints := 0;
    ghost var q0 := buf.Queue();
    assert q0 + [] == q0;
    ghost var adm := [];
    for i := 0 to |arrivals|
      invariant buf.Valid() && buf.buffer == old(buf.buffer) && buf.max == old(buf.max)
      invariant adm == FindRoom(|q0|, buf.max, arrivals[..i]) && Small(adm)
      invariant buf.Queue() == q0 + Stream(o, adm)
      invariant packNum < BUFFER_PRINT_INTERVAL
      invariant |NonEmpty(arrivals[..i])| == prints * BUFFER_PRINT_INTERVAL + packNum
    {
      var data := arrivals[i];
      OneMoreArrival(o, q0, buf.max, arrivals, i);
      adm := FindRoom(|q0|, buf.max, arrivals[..i + 1]);
      if |data| == 0 {
        continue;
      }
      SendPacketBuffer(o, data, buf);
      packNum := packNum + 1;
      if packNum >= BUFFER_PRINT_INTERVAL {
        prints := prints + 1;
        packNum := 0;
      }
    }
    assert arrivals[..|arrivals|] == arrivals;
    if |q0| + Occupied(NonEmpty(arrivals)) < buf.max {
      AllFindRoom(|q0|, buf.max, arrivals);
    }
  }

  // ---- waiting for INIT ----

  /** What `data[0]` holds once the first `n` datagrams have been received on top of `stale`. */
  function FirstByte(stale: Byte, ds: seq<seq<Byte>>, n: nat): Byte
    requires n <= |ds|
  {
    if n == 0 then stale else FirstOf(FirstByte(stale, ds, n - 1), ds[n - 1])
  }

  /** The wait ends with the `n`th datagram. */
  predicate Opens(stale: Byte, ds: seq<seq<Byte>>, n: nat) {
    && 0 < n <= |ds|
    && FirstByte(stale, ds, n) == INIT
    && forall k :: 0 < k < n ==> FirstByte(stale, ds, k) != INIT
  }

  /** The non-empty datagrams that arrive after the one that ends the wait. */
  function AfterInit(stale: Byte, ds: seq<seq<Byte>>): seq<seq<Byte>>
    decreases |ds|
  {
    if ds == [] then []
    else
      var first := FirstOf(stale, ds[0]);
      if first == INIT then NonEmpty(ds[1..]) else AfterInit(first, ds[1..])
  }

  /** The payloads of `arrivals`. */
  function Payloads<Addr>(arrivals: seq<(Addr, seq<Byte>)>): (ds: seq<seq<Byte>>)
    ensures |ds| == |arrivals| && forall i :: 0 <= i < |ds| ==> ds[i] == arrivals[i].1
  {
    seq(|arrivals|, i requires 0 <= i < |arrivals| => arrivals[i].1)
  }

  /**
   `wait_init` over the datagrams that arrive: it ends on the first after which `data[0]` is
   INIT, answers that sender and no other, and goes to the receiving state.
   */
  method WaitInit<Addr>(stale: Byte, arrivals: seq<(Addr, seq<Byte>)>)
    returns (receiving: bool, used: nat, replies: seq<(Addr, Byte)>)
    ensures receiving <==> exists n: nat :: Opens(stale, Payloads(arrivals), n)
    ensures receiving ==> Opens(stale, Payloads(arrivals), used)
                          && replies == [(arrivals[used - 1].0, INIT_ACK)]
    ensures !receiving ==> used == |arrivals| && replies == []
  {
    ghost var ds := Payloads(arrivals);
    var data0 := stale;
    receiving, used, replies := false, 0, [];
    while !receiving && used < |arrivals|
      invariant used <= |arrivals| && data0 == FirstByte(stale, ds, used)
      invariant receiving ==> Opens(stale, ds, used) && replies == [(arrivals[used - 1].0, INIT_ACK)]
      invariant !receiving ==> replies == [] && forall k :: 0 < k <= used ==> FirstByte(stale, ds, k) != INIT
      decreases |arrivals| - used, !receiving
    {
      var (client, data) := arrivals[used];
      data0 := FirstOf(data0, data);
      used := used + 1;
      if data0 == INIT {
        replies := replies + [(client, INIT_ACK)];
        receiving := true;
      }
    }
  }

  /** While no datagram starts with INIT, `data[0]` is INIT only as it was left on the stack. */
  lemma {:induction false} NoInitMeansNoInit(stale: Byte, ds: seq<seq<Byte>>, n: nat)
    requires n <= |ds| && forall j :: 0 <= j < n ==> ds[j] == [] || ds[j][0] != INIT
    ensures FirstByte(stale, ds, n) == INIT <==> stale == INIT && forall j :: 0 <= j < n ==> ds[j] == []
  {
    if n > 0 {
      NoInitMeansNoInit(stale, ds, n - 1);
    }
  }

  /**
   Which datagram ends the wait: the first that starts with INIT, except that an uninitialised
   `data[0]` that happens to be INIT lets an empty first datagram end it.
   */
  lemma OpensExactlyWhen(stale: Byte, ds: seq<seq<Byte>>, n: nat)
    requires 0 < n <= |ds|
    ensures Opens(stale, ds, n) <==>
            if stale == INIT && ds[0] == [] then n == 1
            else ds[n - 1] != [] && ds[n - 1][0] == INIT
                 && forall j :: 0 <= j < n - 1 ==> ds[j] == [] || ds[j][0] != INIT
  {
    assert FirstByte(stale, ds, 1) == FirstOf(stale, ds[0]);
    if stale == INIT && ds[0] == [] {
    } else if Opens(stale, ds, n) {
      forall j | 0 <= j < n - 1
        ensures ds[j] == [] || ds[j][0] != INIT
      {
        assert FirstByte(stale, ds, j + 1) != INIT;
      }
      NoInitMeansNoInit(stale, ds, n - 1);
    } else if forall j :: 0 <= j < n - 1 ==> ds[j] == [] || ds[j][0] != INIT {
      forall k | 0 < k < n
        ensures FirstByte(stale, ds, k) != INIT
      {
        NoInitMeansNoInit(stale, ds, k);
      }
    }
  }

  /** Only one datagram ends the wait. */
  lemma OpensOnce(stale: Byte, ds: seq<seq<Byte>>, m: nat, n: nat)
    requires Opens(stale, ds, m) && Opens(stale, ds, n)
    ensures m == n
  {
  }

  // ---- the two states together ----

  lemma {:induction false} FirstByteLater(stale: Byte, ds: seq<seq<Byte>>, n: nat)
    requires 0 < n <= |ds|
    ensures FirstByte(stale, ds, n) == FirstByte(FirstOf(stale, ds[0]), ds[1..], n - 1)
  {
    if n > 1 {
      FirstByteLater(stale, ds, n - 1);
    }
  }

  /** The datagram that ends the wait is the last one `AfterInit` leaves out. */
  lemma {:induction false} AfterInitExactly(stale: Byte, ds: seq<seq<Byte>>)
    ensures forall n: nat :: Opens(stale, ds, n) ==> AfterInit(stale, ds) == NonEmpty(ds[n..])
    ensures (forall n: nat :: !Opens(stale, ds, n)) ==> AfterInit(stale, ds) == []
    decreases |ds|
  {
    if ds != [] {
      var first := FirstOf(stale, ds[0]);
      AfterInitExactly(first, ds[1..]);
      assert FirstByte(stale, ds, 1) == first;
      forall n: nat | Opens(stale, ds, n)
        ensures AfterInit(stale, ds) == NonEmpty(ds[n..])
      {
        if n > 1 {
          OpensLater(stale, ds, n);
          assert ds[1..][n - 1..] == ds[n..];
        }
      }
      if forall n: nat :: !Opens(stale, ds, n) {
        assert !Opens(stale, ds, 1);
        forall n: nat
          ensures !Opens(first, ds[1..], n)
        {
          if Opens(first, ds[1..], n) {
            OpensLater(stale, ds, n + 1);
          }
        }
      }
    }
  }

  lemma OpensLater(stale: Byte, ds: seq<seq<Byte>>, n: nat)
    requires 1 < n <= |ds| && FirstOf(stale, ds[0]) != INIT
    ensures Opens(stale, ds, n) <==> Opens(FirstOf(stale, ds[0]), ds[1..], n - 1)
  {
    forall k | 0 < k <= n
      ensures FirstByte(stale, ds, k) == FirstByte(FirstOf(stale, ds[0]), ds[1..], k - 1)
    {
      FirstByteLater(stale, ds, k);
    }
    if Opens(stale, ds, n) {
      forall k | 0 < k < n - 1
        ensures FirstByte(FirstOf(stale, ds[0]), ds[1..], k) != INIT
      {
        assert FirstByte(stale, ds, k + 1) != INIT;
      }
    }
  }

  lemma {:induction false} EmptyOnesFindNoRoom(queued: nat, max: nat, ds: seq<seq<Byte>>)
    ensures FindRoom(queued, max, NonEmpty(ds)) == FindRoom(queued, max, ds)
    decreases |ds|
  {
    if ds != [] {
      var n := |ds| - 1;
      EmptyOnesFindNoRoom(queued, max, ds[..n]);
      NonEmptyAppend(ds[..n], ds[n]);
      assert ds == ds[..n] + [ds[n]];
      if ds[n] != [] {
        var all := NonEmpty(ds);
        assert all[..|all| - 1] == NonEmpty(ds[..n]);
      } else {
        assert NonEmpty(ds[..n]) + [] == NonEmpty(ds[..n]);
      }
    }
  }

  /**
   `run_server` outside iperf mode, nothing being drained: the ring holds the frames of those
   datagrams after the first INIT that found room, and nothing from before; the sender of that
   INIT gets the one reply.
   */
  method RunServer<Addr>(o: Order, stale: Byte, arrivals: seq<(Addr, seq<Byte>)>)
    returns (buf: CircularBuffer, replies: seq<(Addr, Byte)>)
    requires Small(Payloads(arrivals))
    ensures fresh(buf) && buf.Valid()
    ensures forall n: nat :: Opens(stale, Payloads(arrivals), n) ==> replies == [(arrivals[n - 1].0, INIT_ACK)]
    ensures (forall n: nat :: !Opens(stale, Payloads(arrivals), n)) ==> replies == []
    ensures var adm := FindRoom(0, VIDEO_BUFFER_SIZE, AfterInit(stale, Payloads(arrivals)));
            Small(adm) && buf.Queue() == Stream(o, adm)
  {
    buf := new CircularBuffer(VIDEO_BUFFER_SIZE);
    var receiving, used;
    receiving, used, replies := WaitInit(stale, arrivals);
    if receiving {
      AfterOpening(stale, arrivals, used);
      var rest := Payloads(arrivals[used..]);
      var prints := RecvVideo(o, buf, rest);
      assert buf.Queue() == Stream(o, FindRoom(0, VIDEO_BUFFER_SIZE, rest));
    } else {
      AfterInitExactly(stale, Payloads(arrivals));
    }
  }

  /** What follows the datagram that ends the wait finds room as `AfterInit` of them all does. */
  lemma AfterOpening<Addr>(stale: Byte, arrivals: seq<(Addr, seq<Byte>)>, used: nat)
    requires Small(Payloads(arrivals)) && Opens(stale, Payloads(arrivals), used)
    ensures forall n: nat :: Opens(stale, Payloads(arrivals), n) ==> n == used
    ensures Small(Payloads(arrivals[used..]))
    ensures FindRoom(0, VIDEO_BUFFER_SIZE, AfterInit(stale, Payloads(arrivals)))
         == FindRoom(0, VIDEO_BUFFER_SIZE, Payloads(arrivals[used..]))
  {
    var ds := Payloads(arrivals);
    var rest := ds[used..];
    assert Payloads(arrivals[used..]) == rest;
    assert forall d <- rest :: d in ds;
    AfterInitExactly(stale, ds);
    EmptyOnesFindNoRoom(0, VIDEO_BUFFER_SIZE, rest);
    forall n: nat | Opens(stale, ds, n)
      ensures n == used
    {
      OpensOnce(stale, ds, n, used);
    }
  }

  // ---- the drain loop ----

  /**
   One burst of `fifo_write_thread`: it moves bytes from the ring to the transmit FIFO in order
   until the ring is empty, or the FIFO is full and it holds one byte it cannot write yet.
   */
  method DrainBurst(buf: CircularBuffer, tx: HardwareFifo) returns (held: Option<Byte>)
    requires buf.Valid() && tx.Valid()
    requires tx as object != buf as object && tx as object != buf.buffer as object
    modifies buf, tx
    ensures buf.Valid() && tx.Valid() && buf.max == old(buf.max)
    ensures old(tx.contents) + old(buf.Queue()) ==
            tx.contents + (match held case None => [] case Some(b) => [b]) + buf.Queue()
    ensures held == None ==> buf.Queue() == []
    ensures held.Some? ==> |tx.contents| == FIFO_DEPTH
  {
    held := None;
    var empty := buf.IsEmpty();
    while !empty
      invariant buf.Valid() && tx.Valid() && buf.max == old(buf.max) && buf.buffer == old(buf.buffer)
      invariant old(tx.contents) + old(buf.Queue()) == tx.contents + buf.Queue()
      invariant empty <==> buf.Queue() == []
      decreases |buf.Queue()|
    {
      ghost var t, q := tx.contents, buf.Queue();
      var readData := buf.ReadData();
      Assoc(t, [readData], buf.Queue());
      var through := tx.WriteBlocking(readData, []);
      if !through {
        held := Some(readData);
        return;
      }
      empty := buf.IsEmpty();
    }
    assert tx.contents + [] == tx.contents;
  }
}
