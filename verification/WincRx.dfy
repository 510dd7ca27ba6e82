/** Receiving on the WINC1500: a payload in the chip's window is copied chunk by chunk to wherever
    the socket's buffer points, while the callback between two chunks notes it in the mbuf under
    the cursor of the receive chain and moves both. */
module WincRx {
  import opened BitBytes
  import opened MbufLedger

  const MAX_SOCKET := 11
  const RX_SIZE := 1500

  /** The buffer a socket receives into: pu8UserBuffer and u16UserBufferSize. */
  datatype UserBuf = NoBuf | Into(m: Mbuf, size: nat)

  /** cur_buf: at a position of the chain, or left over from an earlier chain. */
  datatype Cursor = Astray | At(k: nat)

  /** The receive state: winc1500_socket_state, flow control, the sockets' flags, buffers and
      queues, and where all other mbufs are. `pending` is the driver's flag; `asked` says that
      the firmware holds a receive request of the socket's session, and so may reply. */
  datatype Rx = Rx(pool: Bag, store: Store, rxBuf: seq<Mbuf>, pktLen: nat, cur: Cursor, polling: bool, flow: bool,
                   poll: seq<bool>, user: seq<UserBuf>, pending: seq<bool>, asked: seq<bool>,
                   queues: seq<seq<Packet>>, app: Bag)

  /** All the mbufs there are: each once, each with room. */
  ghost predicate Stock(caps: Caps, total: Bag) {
    forall m :: m in total ==> total[m] == 1 && Cap(caps, m) > 0
  }

  /** Flags and buffers of the sockets: both a request at the firmware and the flag need a buffer. */
  ghost predicate SocketsOk(poll: seq<bool>, user: seq<UserBuf>, pending: seq<bool>, asked: seq<bool>) {
    && |poll| == |user| == |pending| == |asked| == MAX_SOCKET
    && forall s :: 0 <= s < MAX_SOCKET ==>
      (asked[s] ==> poll[s]) && (asked[s] || pending[s] ==> user[s].Into? && user[s].size > 0)
  }

  /** Every mbuf is in exactly one place, a polling cursor is in the chain, and the sockets'
      flags agree. */
  ghost predicate Valid(r: Rx, total: Bag) {
    && |r.queues| == MAX_SOCKET && SocketsOk(r.poll, r.user, r.pending, r.asked)
    && Everything(r.pool, r.rxBuf, r.queues, r.app) == total
    && (r.polling ==> r.cur.At? && r.cur.k < |r.rxBuf|)
  }

  /** Trailing space. */
  function Room(caps: Caps, store: Store, m: Mbuf): nat {
    if Length(store, m) < Cap(caps, m) then Cap(caps, m) - Length(store, m) else 0
  }

  /** Allocation hands mbufs out empty; their data areas keep what was in them. */
  function Cleared(store: Store, ms: seq<Mbuf>): (r: Store)
    ensures forall m :: Length(r, m) == if m in ms then 0 else Length(store, m)
    ensures forall m :: Memory(r, m) == Memory(store, m)
  {
    map m | m in store :: if m in ms then Cell(store[m].mem, 0) else store[m]
  }

  /** No byte of these mbufs differs between two stores. */
  ghost predicate SameBytes(a: Store, b: Store, ms: Bag) {
    forall m :: m in ms ==> Bytes(a, m) == Bytes(b, m)
  }

  // ---- Facts of the ledger ----

  /** The mbufs that hold received packets: queued, or in the application's hands. */
  ghost function Held(r: Rx): Bag { OfQueues(r.queues) + r.app }

  lemma LedgerParts(pool: Bag, rx: Bag, queued: Bag, app: Bag)
    ensures rx <= pool + rx + queued + app
    ensures forall m :: pool[m] + rx[m] + (queued + app)[m] <= (pool + rx + queued + app)[m]
  {
  }

  /** Every mbuf of the chain occurs once in all and has room. */
  lemma ChainFacts(r: Rx, caps: Caps, total: Bag)
    requires Valid(r, total) && Stock(caps, total)
    ensures Distinct(r.rxBuf) && forall i :: 0 <= i < |r.rxBuf| ==> Cap(caps, r.rxBuf[i]) > 0
  {
    LedgerParts(r.pool, multiset(r.rxBuf), OfQueues(r.queues), r.app);
    DistinctInLedger(r.rxBuf, total);
    forall i | 0 <= i < |r.rxBuf| ensures Cap(caps, r.rxBuf[i]) > 0 {
      assert r.rxBuf[i] in multiset(r.rxBuf);
      assert r.rxBuf[i] in total;
    }
  }

  /** Held mbufs are neither in the pool nor in the receive chain. */
  lemma HeldApart(r: Rx, caps: Caps, total: Bag)
    requires Valid(r, total) && Stock(caps, total)
    ensures forall m :: m in Held(r) ==> m !in r.pool && m !in r.rxBuf
  {
    LedgerParts(r.pool, multiset(r.rxBuf), OfQueues(r.queues), r.app);
    forall m | m in Held(r) ensures m !in r.pool && m !in r.rxBuf {
      assert r.pool[m] + multiset(r.rxBuf)[m] + Held(r)[m] <= total[m];
      assert m in total;
    }
  }

  // ---- Starting to receive ----

  /** The first `k` mbufs on offer are free and have room for any payload. */
  ghost predicate Enough(caps: Caps, pool: Bag, offer: seq<Mbuf>, k: nat) {
    0 < k <= |offer| && multiset(offer[..k]) <= pool && Space(caps, offer[..k]) >= RX_SIZE
  }

  /** The allocation loop of winc1500_sock_start_rx, given the mbufs the pool would hand out one
      after the other. A partial chain goes back to the pool. */
  method AllocChain(caps: Caps, pool: Bag, offer: seq<Mbuf>) returns (ok: bool, chain: seq<Mbuf>, rest: Bag)
    ensures rest + multiset(chain) == pool
    ensures ok ==> Enough(caps, pool, offer, |chain|) && chain == offer[..|chain|]
    ensures !ok ==> chain == [] && forall k: nat :: !Enough(caps, pool, offer, k)
  {
    chain, rest, ok := [], pool, true;
    var need := RX_SIZE;
    while chain == [] || need > 0
      invariant rest + multiset(chain) == pool && |chain| <= |offer| && chain == offer[..|chain|]
      invariant need == RX_SIZE - Space(caps, chain)
      decreases |rest|
    {
      var n := |chain|;
      if n == |offer| || offer[n] !in rest {
        NotEnough(caps, pool, offer, n, rest);
        return false, [], pool;
      }
      rest := rest - multiset{offer[n]};
      assert offer[..n + 1] == chain + [offer[n]];
      assert (chain + [offer[n]])[..n] == chain;
      chain := chain + [offer[n]];
      need := need - Cap(caps, offer[n]);
    }
  }

  lemma PartOfOffer(caps: Caps, offer: seq<Mbuf>, k: nat, n: nat)
    requires k <= n <= |offer|
    ensures Space(caps, offer[..k]) <= Space(caps, offer[..n])
  {
    var part := offer[..n];
    SpaceSplit(caps, part, k);
    assert part[..k] == offer[..k];
  }

  lemma OfferedTwice(pool: Bag, rest: Bag, offer: seq<Mbuf>, n: nat, k: nat)
    requires n < k <= |offer| && rest + multiset(offer[..n]) == pool && offer[n] !in rest
    ensures !(multiset(offer[..k]) <= pool)
  {
    assert offer[..k] == offer[..n] + [offer[n]] + offer[n + 1..k];
    assert multiset(offer[..k])[offer[n]] >= multiset(offer[..n])[offer[n]] + 1;
  }

  /** An offer that fails after `n` mbufs that do not suffice never suffices. */
  lemma NotEnough(caps: Caps, pool: Bag, offer: seq<Mbuf>, n: nat, rest: Bag)
    requires n <= |offer| && rest + multiset(offer[..n]) == pool && (n == 0 || Space(caps, offer[..n]) < RX_SIZE)
    requires n == |offer| || offer[n] !in rest
    ensures forall k: nat :: !Enough(caps, pool, offer, k)
  {
    forall k: nat ensures !Enough(caps, pool, offer, k) {
      if 0 < k <= n {
        PartOfOffer(caps, offer, k, n);
      } else if n < k <= |offer| {
        OfferedTwice(pool, rest, offer, n, k);
      }
    }
  }

  /** An untouched chain with room for any payload. */
  ghost predicate Fresh(r: Rx, caps: Caps) {
    && r.pktLen == 0 && r.rxBuf != [] && Space(caps, r.rxBuf) >= RX_SIZE
    && forall i :: 0 <= i < |r.rxBuf| ==> Length(r.store, r.rxBuf[i]) == 0
  }

  /** Between two replies the chain, if there is one, is untouched; without one, flow control
      holds replies back. */
  ghost predicate Idle(r: Rx, caps: Caps) {
    && (r.rxBuf == [] || Fresh(r, caps))
    && (r.polling ==> r.cur == At(0))
    && (r.flow ==> r.rxBuf == [])
    && (r.rxBuf == [] && !r.flow ==> forall s :: 0 <= s < |r.asked| ==> !r.asked[s])
  }

  /** Replace an absent chain by a fresh one. */
  method Refill(caps: Caps, r: Rx, offer: seq<Mbuf>, ghost total: Bag) returns (ok: bool, r': Rx)
    requires Valid(r, total) && Stock(caps, total) && r.rxBuf == [] && !r.polling
    ensures Valid(r', total) && (ok <==> r'.rxBuf != []) && (ok ==> Fresh(r', caps))
    ensures ok <==> exists k: nat :: Enough(caps, r.pool, offer, k)
    ensures r' == r.(pool := r'.pool, store := r'.store, rxBuf := r'.rxBuf, pktLen := 0, cur := Astray)
    ensures SameBytes(r.store, r'.store, Held(r)) && r'.rxBuf <= offer
  {
    var chain, rest;
    ok, chain, rest := AllocChain(caps, r.pool, offer);
    LedgerAlloc(r.pool, rest, chain, r.queues, r.app);
    r' := r.(pool := rest, store := Cleared(r.store, chain), rxBuf := chain, pktLen := 0, cur := Astray);
    HeldApart(r', caps, total);
  }

  /** recvfrom: point the socket at an mbuf. No room is an invalid argument; only the first call
      after a reply sends a request to the firmware, and that may be refused, but then the flag
      stays. */
  method RecvFrom(caps: Caps, r: Rx, sock: nat, m: Mbuf, accept: bool) returns (ok: bool, r': Rx)
    requires sock < |r.user| == |r.pending| == |r.asked|
    ensures ok <==> Room(caps, r.store, m) > 0 && (r.pending[sock] || accept)
    ensures r' == if Room(caps, r.store, m) > 0 then Pointed(caps, r, sock, m, accept) else r
  {
    ok, r' := false, r;
    if Room(caps, r.store, m) > 0 {
      ok := true;
      r' := r.(user := r.user[sock := Into(m, Room(caps, r.store, m))]);
      if !r'.pending[sock] {
        r' := r'.(pending := r'.pending[sock := true], asked := r'.asked[sock := r'.asked[sock] || accept]);
        ok := accept;
      }
      assert r'.pending == r.pending[sock := true];
    }
  }

  /** The sockets after a receive call: whether the firmware holds a request changes only if none
      was pending. */
  function Pointed(caps: Caps, r: Rx, sock: nat, m: Mbuf, accept: bool): Rx
    requires sock < |r.user| == |r.pending| == |r.asked|
  {
    r.(user := r.user[sock := Into(m, Room(caps, r.store, m))], pending := r.pending[sock := true],
       asked := if r.pending[sock] then r.asked else r.asked[sock := r.asked[sock] || accept])
  }

  /** The first polled socket from `idx` on. */
  function FirstFrom(poll: seq<bool>, idx: nat): (i: nat)
    requires idx <= |poll|
    ensures idx <= i <= |poll| && (i < |poll| ==> poll[i]) && (idx < |poll| && poll[idx] ==> i == idx)
    decreases |poll| - idx
  {
    if idx == |poll| || poll[idx] then idx else FirstFrom(poll, idx + 1)
  }

  method FirstPolled(poll: seq<bool>, idx: nat) returns (i: nat)
    requires |poll| == MAX_SOCKET && idx <= MAX_SOCKET
    ensures i == FirstFrom(poll, idx)
  {
    i := idx;
    while i < MAX_SOCKET && !poll[i]
      invariant idx <= i <= MAX_SOCKET && FirstFrom(poll, i) == FirstFrom(poll, idx)
    {
      i := i + 1;
    }
  }

  /** Socket `sock` receives into the `k`-th mbuf of the chain, which is empty. */
  ghost predicate Target(caps: Caps, r: Rx, sock: nat, k: nat) {
    && k < |r.rxBuf| && sock < |r.user|
    && r.user[sock] == Into(r.rxBuf[k], Cap(caps, r.rxBuf[k]))
  }

  /** Socket and cursor are at the start of the chain. */
  ghost predicate Aimed(r: Rx, caps: Caps, sock: nat) {
    r.cur == At(0) && Target(caps, r, sock, 0)
  }

  /** What a receive call for socket `i`, at the `k`-th mbuf of the chain, leaves: the cursor is
      there exactly if the call succeeded. */
  ghost predicate Called(caps: Caps, r: Rx, r': Rx, i: nat, k: nat, accept: bool) {
    && i < |r.user| == |r.pending| == |r.asked| && k < |r.rxBuf|
    && r' == Pointed(caps, r, i, r.rxBuf[k], accept).(cur := r'.cur, polling := r'.polling)
    && (r'.polling <==> r.pending[i] || accept)
    && r'.cur == if r'.polling then At(k) else r.cur
  }

  /** winc1500_sock_start_rx once there is a chain: call recvfrom on the first polled socket for
      the `k`-th mbuf. */
  method Aim(caps: Caps, r: Rx, idx: nat, k: nat, accept: bool, ghost total: Bag) returns (r': Rx)
    requires Valid(r, total) && idx <= MAX_SOCKET && !r.polling
    requires k < |r.rxBuf| && Room(caps, r.store, r.rxBuf[k]) > 0
    ensures Valid(r', total)
    ensures var i := FirstFrom(r.poll, idx); if i < MAX_SOCKET then Called(caps, r, r', i, k, accept) else r' == r
  {
    var i := FirstPolled(r.poll, idx);
    r' := r;
    if i < MAX_SOCKET {
      var ok;
      ok, r' := RecvFrom(caps, r, i, r.rxBuf[k], accept);
      if ok {
        r' := r'.(cur := At(k), polling := true);
      }
    }
  }

  /** The first half of winc1500_sock_start_rx: without a chain a new one is allocated, or flow
      control set. */
  method GetChain(caps: Caps, r: Rx, offer: seq<Mbuf>, ghost total: Bag) returns (r': Rx)
    requires Valid(r, total) && Stock(caps, total) && (r.rxBuf == [] || Fresh(r, caps))
    ensures Valid(r', total) && !r'.polling && (if r'.flow then r'.rxBuf == [] else Fresh(r', caps))
    ensures r' == r.(pool := r'.pool, store := r'.store, rxBuf := r'.rxBuf, pktLen := r'.pktLen, cur := r'.cur,
                     polling := false, flow := r'.flow)
    ensures SameBytes(r.store, r'.store, Held(r)) && (r.rxBuf == [] ==> r'.rxBuf <= offer && r'.cur == Astray)
    ensures r'.flow <==> r.rxBuf == [] && !exists k: nat :: Enough(caps, r.pool, offer, k)
  {
    r' := r.(polling := false, flow := false);
    if r'.rxBuf == [] {
      var ok;
      ok, r' := Refill(caps, r', offer, total);
      r' := r'.(flow := !ok);
    }
  }

  /** winc1500_sock_start_rx for a new packet: get a chain, then call the first polled socket from
      `idx` on. */
  method StartRx(caps: Caps, r: Rx, idx: nat, accept: bool, offer: seq<Mbuf>, ghost total: Bag) returns (r': Rx)
    requires Valid(r, total) && Stock(caps, total) && idx <= MAX_SOCKET && (r.rxBuf == [] || Fresh(r, caps))
    ensures Valid(r', total) && Idle(r', caps)
    ensures r'.queues == r.queues && r'.app == r.app && r'.poll == r.poll && SameBytes(r.store, r'.store, Held(r))
    ensures r'.flow <==> r.rxBuf == [] && !exists k: nat :: Enough(caps, r.pool, offer, k)
    ensures r.rxBuf == [] ==> r'.rxBuf <= offer && (!r'.polling ==> r'.cur == Astray)
    ensures r'.flow ==> !r'.polling && SameSockets(r, r')
    ensures !r'.flow ==> Started(caps, r, r', FirstFrom(r.poll, idx), accept)
  {
    r' := GetChain(caps, r, offer, total);
    if !r'.flow {
      ChainFacts(r', caps, total);
      r' := Aim(caps, r', idx, 0, accept, total);
    }
  }

  ghost predicate SameSockets(r: Rx, r': Rx) {
    r'.user == r.user && r'.pending == r.pending && r'.asked == r.asked
  }

  /** After starting on a fresh chain: the socket called points at it, and so does the cursor if
      the call succeeded; the other sockets are as they were. */
  ghost predicate Started(caps: Caps, r: Rx, r': Rx, i: nat, accept: bool) {
    && Fresh(r', caps) && |r'.user| == |r.user| && |r'.pending| == |r.pending| && |r'.asked| == |r.asked|
    && if i < |r.user| && i < |r.pending| && i < |r.asked| then
         && Target(caps, r', i, 0) && (r'.polling <==> r.pending[i] || accept) && (r'.polling ==> r'.cur == At(0))
         && r'.user == r.user[i := r'.user[i]] && r'.pending == r.pending[i := true]
         && r'.asked == if r.pending[i] then r.asked else r.asked[i := r.asked[i] || accept]
       else !r'.polling && SameSockets(r, r')
  }

  // ---- The RECV branch of winc1500_sock_cb ----

  /** The cursor is in the chain. */
  predicate OnChain(r: Rx) { r.cur.At? && r.cur.k < |r.rxBuf| }

  /** Note a received chunk in the cursor's mbuf and in the packet length. */
  function Account(r: Rx, len: nat): Rx
    requires OnChain(r)
  {
    r.(store := Sized(r.store, r.rxBuf[r.cur.k], len), pktLen := r.pktLen + len)
  }

  /** A chunk with more to follow: noted, and the next mbuf asked for. */
  ghost predicate Moved(caps: Caps, r: Rx, r': Rx, sock: nat, len: nat, accept: bool) {
    OnChain(r) && Called(caps, Account(r, len).(polling := false), r', sock, r.cur.k + 1, accept)
  }

  /** A chunk with more to follow. Without a next mbuf the source goes through a null pointer. */
  method RecvMore(caps: Caps, r: Rx, sock: nat, len: nat, accept: bool, ghost total: Bag) returns (fault: bool, r': Rx)
    requires Valid(r, total) && sock < MAX_SOCKET && r.poll[sock] && OnChain(r)
    requires r.cur.k + 1 < |r.rxBuf| ==> Room(caps, Account(r, len).store, r.rxBuf[r.cur.k + 1]) > 0
    ensures fault <==> r.cur.k + 1 == |r.rxBuf|
    ensures !fault ==> Valid(r', total) && Moved(caps, r, r', sock, len, accept)
  {
    r' := Account(r, len).(polling := false);
    fault := r.cur.k + 1 == |r.rxBuf|;
    if !fault {
      r' := Aim(caps, r', sock, r.cur.k + 1, accept, total);
    }
  }

  /** The packet that the last chunk completes. */
  function LastPacket(r: Rx, n: nat): Packet
    requires OnChain(r)
  {
    Packet(r.rxBuf[..r.cur.k + 1], r.pktLen + n)
  }

  function Enqueue(queues: seq<seq<Packet>>, sock: nat, p: Packet): (r: seq<seq<Packet>>)
    requires sock < |queues|
  {
    queues[sock := queues[sock] + [p]]
  }

  /** Release the unused tail and queue the packet. */
  method Finish(r: Rx, sock: nat, ghost total: Bag) returns (r': Rx)
    requires Valid(r, total) && sock < MAX_SOCKET && OnChain(r)
    ensures Valid(r', total)
    ensures r' == r.(pool := r'.pool, rxBuf := [], cur := Astray, polling := false,
                     queues := Enqueue(r.queues, sock, LastPacket(r, 0)))
  {
    var p, k := LastPacket(r, 0), r.cur.k + 1;
    LedgerFinish(r.pool, r.rxBuf, k, r.queues, sock, p, r.app);
    r' := r.(pool := r.pool + multiset(r.rxBuf[k..]), rxBuf := [], cur := Astray, polling := false,
             queues := Enqueue(r.queues, sock, p));
  }

  /** After the last chunk: the packet is queued, no held byte has changed, and the next chain is
      started on if there is one. */
  ghost predicate Ended(caps: Caps, r: Rx, r': Rx, sock: nat, p: Packet, accept: bool) {
    && sock < |r.queues| && r'.app == r.app && r'.poll == r.poll && r'.queues == Enqueue(r.queues, sock, p)
    && SameBytes(r.store, r'.store, Held(r'))
    && if r'.flow then !r'.polling && SameSockets(r, r') else Started(caps, r, r', sock, accept)
  }

  /** The last chunk. */
  method RecvLast(caps: Caps, r: Rx, sock: nat, len: nat, accept: bool, offer: seq<Mbuf>, ghost total: Bag)
    returns (r': Rx)
    requires Valid(r, total) && Stock(caps, total) && sock < MAX_SOCKET && r.poll[sock] && OnChain(r)
    ensures Valid(r', total) && Idle(r', caps)
    ensures Ended(caps, Account(r, len), r', sock, LastPacket(r, len), accept)
    ensures offer == [] ==> r'.flow
  {
    var noted := Account(r, len);
    assert LastPacket(noted, 0) == LastPacket(r, len);
    var queued := Finish(noted, sock, total);
    r' := StartRx(caps, queued, sock, accept, offer, total);
  }
}
