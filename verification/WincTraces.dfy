/** Runs of the receiver that go wrong: a reply into a packet already handed on, a broken driver,
    stalled receiving. */
module WincTraces {
  import opened BitBytes
  import opened MbufLedger
  import opened WincRx
  import opened WincRead
  import opened WincLoop
  import opened WincAccounts
  import opened WincReceiver
  import opened WincSteps

  /** A socket that may be answered, but whose buffer lies in a packet already handed on. */
  ghost predicate Strayed(r: Rx, sock: nat) {
    && sock < |r.asked| && sock < |r.user| && r.asked[sock] && !r.flow && r.cur == At(0)
    && r.user[sock].Into? && r.user[sock].m in Held(r) && Length(r.store, r.user[sock].m) > 0
  }

  /** Then neither does every one-byte reply arrive whole, nor does none change a held byte. */
  lemma StrayedHarms(caps: Caps, r: Rx, sock: nat, payload: seq<byte>, total: Bag)
    requires WincRx.Valid(r, total) && Stock(caps, total) && Idle(r, caps) && Strayed(r, sock) && |payload| == 1
    ensures var j := ReplyJob(caps, r, sock, payload, true);
      Usable(j) && !Overrun(j) && !AlwaysWhole(j) && !NeverTouchesHeld(j)
  {
    ReplyArrives(caps, r, sock, payload, true, total);
    HeldApart(r, caps, total);
    var j := ReplyJob(caps, r, sock, payload, true);
    WholeIffAimed(j);
    HeldIffAside(j);
  }

  /** No socket has anything queued, and the application holds nothing. */
  ghost predicate NothingHeld(r: Rx) {
    |r.queues| == MAX_SOCKET && r.app == multiset{} && forall s :: 0 <= s < MAX_SOCKET ==> r.queues[s] == []
  }

  lemma {:induction false} NothingQueued(qs: seq<seq<Packet>>)
    requires forall s :: 0 <= s < |qs| ==> qs[s] == []
    ensures OfQueues(qs) == multiset{}
  {
    if qs != [] {
      NothingQueued(qs[1..]);
    }
  }

  /** What is not in the chain is in the pool. */
  lemma PoolRest(pool: Bag, rx: Bag, queued: Bag, app: Bag, total: Bag, used: Bag)
    requires pool + rx + queued + app == total && rx == multiset{} && app == multiset{} && queued <= used
    ensures total - used <= pool
  {
    forall m ensures (total - used)[m] <= pool[m] {
      assert (pool + rx + queued + app)[m] == pool[m] + queued[m];
    }
  }

  lemma PrefixBag(a: seq<Mbuf>, b: seq<Mbuf>)
    requires a <= b
    ensures multiset(a) <= multiset(b)
  {
    assert b == a + b[|a|..];
  }

  lemma EnoughInMore(caps: Caps, pool: Bag, more: Bag, offer: seq<Mbuf>, k: nat)
    requires Enough(caps, pool, offer, k) && pool <= more
    ensures Enough(caps, more, offer, k)
  {
  }

  /** Only socket 1 has, or believes to have, a request at the firmware. */
  ghost predicate OnlyOne(r: Rx) {
    && |r.asked| == |r.pending| == |r.user| == MAX_SOCKET
    && forall s :: 0 <= s < MAX_SOCKET && s != 1 ==> !r.asked[s] && !r.pending[s]
  }

  /** Socket 1 alone is polled. */
  ghost predicate PollsOne(r: Rx) { r.poll == seq(MAX_SOCKET, s => s == 1) }

  /** A poll then calls socket 1. */
  lemma PollCallsOne(caps: Caps, r: Rx, r': Rx, accept: bool, offer: seq<Mbuf>)
    requires PollsOne(r) && OnlyOne(r) && !r.polling && Polls(caps, r, r', accept, offer) && !r'.flow
    ensures OnlyOne(r') && Target(caps, r', 1, 0) && r'.pending[1] && Fresh(r', caps)
    ensures r'.asked[1] <==> r.asked[1] || (!r.pending[1] && accept)
    ensures r'.polling <==> r.pending[1] || accept
    ensures r'.polling ==> r'.cur == At(0)
  {
    assert FirstFrom(r.poll, 0) == FirstFrom(r.poll, 1) == 1;
  }

  /** Socket 1 receives into a fresh chain. */
  method Prelude(caps: Caps, total: Bag, offer: seq<Mbuf>) returns (recv: Receiver)
    requires Stock(caps, total) && Enough(caps, total, offer, |offer|)
    ensures fresh(recv) && recv.caps == caps && recv.total == total && recv.Valid() && !recv.broken
    ensures PollsOne(recv.rx) && OnlyOne(recv.rx) && recv.rx.asked[1] && !recv.rx.flow && Aimed(recv.rx, caps, 1)
    ensures NothingHeld(recv.rx) && recv.rx.rxBuf <= offer
  {
    recv := new Receiver(caps, total);
    recv.Watch(1);
    assert PollsOne(recv.rx);
    ghost var r := recv.rx;
    recv.Poll(true, offer);
    PollCallsOne(caps, r, recv.rx, true, offer);
  }

  /** Socket 1 has got one packet, in `chain`; the firmware holds its next request, whose buffer is
      the last mbuf of that packet; and there is no new chain. */
  ghost predicate TwoChunked(r: Rx, caps: Caps, chain: seq<Mbuf>) {
    && OnlyOne(r) && PollsOne(r) && r.flow && r.rxBuf == [] && r.asked[1] && |chain| > 1
    && r.app == multiset{} && |r.queues| == MAX_SOCKET
    && (forall s :: 0 <= s < MAX_SOCKET && s != 1 ==> r.queues[s] == []) && OfQueues(r.queues) == multiset(chain)
    && var last := chain[|chain| - 1];
      r.user[1] == Into(last, Cap(caps, last)) && last in Held(r) && Length(r.store, last) > 0
  }

  lemma OnePacket(qs: seq<seq<Packet>>, i: nat, p: Packet)
    requires i < |qs| && p.chain != [] && forall s :: 0 <= s < |qs| ==> qs[s] == []
    ensures OfQueues(qs[i := qs[i] + [p]]) == multiset(p.chain)
    ensures p.chain[|p.chain| - 1] in OfQueues(qs[i := qs[i] + [p]])
  {
    NothingQueued(qs);
    QueuePacket(qs, i, p);
    assert p.chain[|p.chain| - 1] in multiset(p.chain);
  }

  /** A reply of several chunks, with the request accepted and no new chain. */
  lemma SeveralChunks(caps: Caps, r: Rx, payload: seq<byte>, r': Rx, p: Packet)
    requires PollsOne(r) && OnlyOne(r) && NothingHeld(r) && Aimed(r, caps, 1) && |payload| > Cap(caps, r.rxBuf[0])
    requires Delivered(ReplyJob(caps, r, 1, payload, true), r', p) && r'.flow && r'.rxBuf == []
    requires |r'.asked| == |r'.pending| == |r'.user| == MAX_SOCKET
    ensures TwoChunked(r', caps, p.chain) && p.chain <= r.rxBuf
  {
    OnePacket(r.queues, 1, p);
  }

  /** Socket 1 gets a payload of several chunks, the request in between is accepted, and there is no
      new chain. */
  method TwoChunks(recv: Receiver, payload: seq<byte>, ghost offer: seq<Mbuf>) returns (ghost chain: seq<Mbuf>)
    requires recv.Valid() && !recv.broken && PollsOne(recv.rx) && OnlyOne(recv.rx) && NothingHeld(recv.rx)
    requires recv.rx.asked[1] && !recv.rx.flow && Aimed(recv.rx, recv.caps, 1) && recv.rx.rxBuf <= offer
    requires |payload| == RX_SIZE > Cap(recv.caps, offer[0])
    modifies recv
    ensures recv.Valid() && !recv.broken && TwoChunked(recv.rx, recv.caps, chain) && chain <= offer
  {
    ghost var r := recv.rx;
    assert payload[0..RX_SIZE] == payload;
    ghost var j := ReplyJob(recv.caps, recv.rx, 1, payload, true);
    recv.Data(1, Hif(1, payload, 0), 1, RX_SIZE, true, []);
    ghost var p :| Delivered(j, recv.rx, p);
    SeveralChunks(recv.caps, r, payload, recv.rx, p);
    chain := p.chain;
  }

  /** The mbufs of no packet are free. */
  lemma OthersAreFree(r: Rx, caps: Caps, chain: seq<Mbuf>, offer: seq<Mbuf>, total: Bag)
    requires WincRx.Valid(r, total) && TwoChunked(r, caps, chain) && chain <= offer
    ensures total - multiset(offer) <= r.pool
  {
    PrefixBag(chain, offer);
    PoolRest(r.pool, multiset(r.rxBuf), OfQueues(r.queues), r.app, total, multiset(offer));
  }

  /** Socket 1 has a request for the last mbuf of a packet handed on, and socket 0 is called for the
      next chain. */
  method SecondPoll(recv: Receiver, accept: bool, ghost chain: seq<Mbuf>, ghost offer: seq<Mbuf>, offer': seq<Mbuf>)
    requires recv.Valid() && !recv.broken && TwoChunked(recv.rx, recv.caps, chain) && chain <= offer
    requires Enough(recv.caps, recv.total - multiset(offer), offer', |offer'|)
    modifies recv
    ensures recv.Valid() && !recv.broken && !recv.rx.flow && recv.rx.asked[1] && recv.rx.rxBuf <= offer'
    ensures |recv.rx.user| > 1 && recv.rx.user[1] == old(recv.rx.user[1]) && recv.rx.user[1].m in Held(recv.rx)
    ensures Length(recv.rx.store, recv.rx.user[1].m) > 0
    ensures if accept then recv.rx.asked[0] && Aimed(recv.rx, recv.caps, 0) else recv.rx.cur == Astray
  {
    recv.Watch(0);
    OthersAreFree(old(recv.rx), recv.caps, chain, offer, recv.total);
    EnoughInMore(recv.caps, recv.total - multiset(offer), recv.rx.pool, offer', |offer'|);
    ghost var m := recv.rx.user[1].m;
    ghost var before := Bytes(recv.rx.store, m);
    recv.Poll(accept, offer');
    assert m in Held(recv.rx) && Bytes(recv.rx.store, m) == before;
  }

  /** With every request accepted: after a payload of several chunks the next poll finds mbufs and
      aims another socket, and a reply for the first goes astray. */
  method StrayTrace(caps: Caps, total: Bag, offer: seq<Mbuf>, offer': seq<Mbuf>, payload: seq<byte>)
    returns (recv: Receiver, ghost chain: seq<Mbuf>)
    requires Stock(caps, total) && Enough(caps, total, offer, |offer|)
    requires Enough(caps, total - multiset(offer), offer', |offer'|)
    requires |payload| == RX_SIZE > Cap(caps, offer[0])
    ensures fresh(recv) && recv.caps == caps && recv.total == total && recv.Valid() && !recv.broken && !recv.rx.flow
    ensures Strayed(recv.rx, 1) && Aimed(recv.rx, caps, 0) && recv.rx.asked[0] && recv.rx.rxBuf <= offer'
    ensures |chain| > 1 && chain <= offer
    ensures var last := chain[|chain| - 1]; recv.rx.user[1] == Into(last, Cap(caps, last))
  {
    recv := Prelude(caps, total, offer);
    chain := TwoChunks(recv, payload, offer);
    SecondPoll(recv, true, chain, offer, offer');
  }

  /** The same with the last request refused: the cursor is left over from the chain before, and the
      reply for the first socket breaks the driver. */
  method CursorTrace(caps: Caps, total: Bag, offer: seq<Mbuf>, offer': seq<Mbuf>, payload: seq<byte>)
    returns (recv: Receiver)
    requires Stock(caps, total) && Enough(caps, total, offer, |offer|)
    requires Enough(caps, total - multiset(offer), offer', |offer'|)
    requires |payload| == RX_SIZE > Cap(caps, offer[0])
    ensures recv.caps == caps && recv.total == total && recv.broken
  {
    recv := Prelude(caps, total, offer);
    ghost var chain := TwoChunks(recv, payload, offer);
    SecondPoll(recv, false, chain, offer, offer');
    recv.Data(1, Hif(1, payload, 0), 1, 1, true, []);
  }

  /** With every request accepted, but mbufs of different sizes: the reply for the first socket runs
      past the end of a chain that has room for any payload. */
  method OverrunTrace(caps: Caps, total: Bag, a: Mbuf, b: Mbuf, c: Mbuf, d: Mbuf, payload: seq<byte>)
    returns (recv: Receiver)
    requires Stock(caps, total) && multiset{a, b, c, d} <= total && |payload| == RX_SIZE > Cap(caps, a)
    requires Cap(caps, a) + Cap(caps, b) >= RX_SIZE && Cap(caps, c) + Cap(caps, d) >= RX_SIZE
    requires Cap(caps, b) + Cap(caps, d) < RX_SIZE
    ensures recv.caps == caps && recv.total == total && recv.broken
  {
    TwoSuffice(caps, total, a, b);
    TwoSuffice(caps, total - multiset([a, b]), c, d);
    ghost var chain;
    recv, chain := StrayTrace(caps, total, [a, b], [c, d], payload);
    assert chain == [a, b];
    PastTheEnd(caps, recv.rx, b, c, d, payload);
    ReplyOverruns(recv, payload);
  }

  method ReplyOverruns(recv: Receiver, payload: seq<byte>)
    requires recv.Valid() && !recv.broken && recv.rx.asked[1] && !recv.rx.flow && |payload| == RX_SIZE
    requires recv.rx.rxBuf != [] && recv.rx.user[1].Into? && Overrun(ReplyJob(recv.caps, recv.rx, 1, payload, true))
    modifies recv
    ensures recv.broken
  {
    assert payload[0..RX_SIZE] == payload;
    ghost var j := ReplyJob(recv.caps, recv.rx, 1, payload, true);
    recv.Data(1, Hif(1, payload, 0), 1, RX_SIZE, true, []);
  }

  lemma TwoSuffice(caps: Caps, pool: Bag, a: Mbuf, b: Mbuf)
    requires multiset{a, b} <= pool && Cap(caps, a) + Cap(caps, b) >= RX_SIZE
    ensures Enough(caps, pool, [a, b], 2) && multiset([a, b]) == multiset{a, b}
  {
    assert [a, b][..2] == [a, b] && [a, b][..1] == [a] && [a][..0] == [];
    assert Space(caps, [a, b]) == Space(caps, [a]) + Cap(caps, b);
  }

  lemma PastTheEnd(caps: Caps, r: Rx, b: Mbuf, c: Mbuf, d: Mbuf, payload: seq<byte>)
    requires r.rxBuf != [] && r.rxBuf <= [c, d] && |r.user| > 1 && |r.pending| > 1 && |r.asked| > 1
    requires r.user[1] == Into(b, Cap(caps, b)) && Cap(caps, b) + Cap(caps, d) < RX_SIZE == |payload|
    ensures Overrun(ReplyJob(caps, r, 1, payload, true))
  {
    var chain := r.rxBuf;
    if |chain| == 2 {
      assert chain == [c, d] && chain[..1] == [c] && [c][..0] == [];
      assert Space(caps, chain) == Space(caps, [c]) + Cap(caps, d);
    }
  }

  /** A socket closed with a request at the firmware and used again, whose own request is refused, is
      stuck. */
  method StuckTrace(caps: Caps, total: Bag, offer: seq<Mbuf>, payload: seq<byte>) returns (recv: Receiver)
    requires Stock(caps, total) && Enough(caps, total, offer, |offer|) && |payload| == RX_SIZE > Cap(caps, offer[0])
    ensures fresh(recv) && recv.caps == caps && recv.total == total && recv.Valid() && !recv.broken
    ensures PollsOne(recv.rx) && OnlyOne(recv.rx) && !recv.rx.polling && !recv.rx.flow && recv.rx.rxBuf != []
    ensures Stuck(recv.rx, 1)
  {
    recv := Prelude(caps, total, offer);
    ghost var chain := TwoChunks(recv, payload, offer);
    Reopen(recv, chain);
    ghost var r := recv.rx;
    recv.Poll(false, offer);
    PollCallsOne(caps, r, recv.rx, false, offer);
  }

  /** Closed and opened again, the socket has no request any more, and all mbufs are free. */
  method Reopen(recv: Receiver, ghost chain: seq<Mbuf>)
    requires recv.Valid() && !recv.broken && TwoChunked(recv.rx, recv.caps, chain)
    modifies recv
    ensures recv.Valid() && !recv.broken && PollsOne(recv.rx) && OnlyOne(recv.rx)
    ensures !recv.rx.asked[1] && !recv.rx.pending[1] && !recv.rx.polling && recv.rx.rxBuf == []
    ensures recv.rx.pool == recv.total
  {
    recv.Close(1);
    AllFree(recv.rx, recv.total);
    recv.Watch(1);
  }

  lemma AllFree(r: Rx, total: Bag)
    requires WincRx.Valid(r, total) && NothingHeld(r) && r.rxBuf == []
    ensures r.pool == total
  {
    NothingQueued(r.queues);
  }

  /** From there the next poll stalls receiving, unless the reply of the closed session comes first. */
  method FreedOrStalled(caps: Caps, total: Bag, offer: seq<Mbuf>, payload: seq<byte>, late: bool)
    returns (recv: Receiver)
    requires Stock(caps, total) && Enough(caps, total, offer, |offer|) && |payload| == RX_SIZE > Cap(caps, offer[0])
    ensures recv.caps == caps && recv.total == total && recv.Valid() && !recv.broken
    ensures if late then recv.rx.asked[1] && Aimed(recv.rx, caps, 1) && !recv.rx.flow else Stalled(recv.rx)
  {
    recv := StuckTrace(caps, total, offer, payload);
    if late {
      recv.Foreign(1, Hif(1, payload, 0), true);
    }
    ghost var r := recv.rx;
    recv.Poll(true, []);
    PollCallsOne(caps, r, recv.rx, true, []);
  }

  /** Four mbufs suffice for all these runs. */
  lemma SuchMbufs(caps: Caps, total: Bag)
    requires caps == map[0 := 1000, 1 := 600, 2 := 1000, 3 := 600] && total == multiset{0, 1, 2, 3}
    ensures Stock(caps, total) && Enough(caps, total, [0, 1], 2) && Cap(caps, 0) < RX_SIZE
    ensures Enough(caps, total - multiset([0, 1]), [2, 3], 2) && Cap(caps, 1) + Cap(caps, 3) < RX_SIZE
  {
    TwoSuffice(caps, total, 0, 1);
    TwoSuffice(caps, total - multiset([0, 1]), 2, 3);
  }
}
