/** What the application sees of the receive side of the WINC1500 socket driver: inboxes, accounts of
    what came, and what each kind of reply does to them. */
module WincAccounts {
  import opened BitBytes
  import opened MbufLedger
  import opened WincRx
  import opened WincRead
  import opened WincLoop

  const SOCK_ERR_TIMEOUT := -13

  /** What the application sees of a packet: its stated length and the bytes in its chain. */
  type Message = (nat, seq<byte>)

  ghost function View(store: Store, q: seq<Packet>): (v: seq<Message>)
    ensures |v| == |q| && forall i :: 0 <= i < |q| ==> v[i] == (q[i].len, Contents(store, q[i].chain))
  {
    seq(|q|, i requires 0 <= i < |q| => (q[i].len, Contents(store, q[i].chain)))
  }

  lemma {:induction false} InPackets(ps: seq<Packet>, i: nat)
    requires i < |ps|
    ensures multiset(ps[i].chain) <= OfPackets(ps)
  {
    if i > 0 {
      InPackets(ps[1..], i - 1);
    }
  }

  lemma {:induction false} InQueues(qs: seq<seq<Packet>>, s: nat)
    requires s < |qs|
    ensures OfPackets(qs[s]) <= OfQueues(qs)
  {
    if s > 0 {
      InQueues(qs[1..], s - 1);
    }
  }

  /** Where no held mbuf changes, no queued message does. */
  lemma SameView(a: Store, b: Store, qs: seq<seq<Packet>>, s: nat, bag: Bag)
    requires s < |qs| && SameBytes(a, b, OfQueues(qs) + bag)
    ensures View(a, qs[s]) == View(b, qs[s])
  {
    forall i | 0 <= i < |qs[s]| ensures View(a, qs[s])[i] == View(b, qs[s])[i] {
      InPackets(qs[s], i);
      InQueues(qs, s);
      InOrder(qs[s][i].chain, OfQueues(qs) + bag, a, b);
    }
  }

  lemma ViewAppend(store: Store, q: seq<Packet>, p: Packet)
    ensures View(store, q + [p]) == View(store, q) + [(p.len, Contents(store, p.chain))]
  {
  }

  /** The messages queued at each socket. */
  ghost function Inboxes(r: Rx): (v: seq<seq<Message>>)
    ensures |v| == |r.queues| && forall s :: 0 <= s < |r.queues| ==> v[s] == View(r.store, r.queues[s])
  {
    seq(|r.queues|, s requires 0 <= s < |r.queues| => View(r.store, r.queues[s]))
  }

  lemma SameInboxes(r: Rx, r': Rx)
    requires r'.queues == r.queues && SameBytes(r.store, r'.store, Held(r))
    ensures Inboxes(r') == Inboxes(r)
  {
    forall s | 0 <= s < |r.queues| ensures Inboxes(r')[s] == Inboxes(r)[s] {
      SameView(r.store, r'.store, r.queues, s, r.app);
    }
  }

  /** A packet added at one socket is a message added there and nowhere else. */
  lemma AddedMessage(r: Rx, r': Rx, sock: nat, p: Packet)
    requires sock < |r.queues| && r'.queues == Enqueue(r.queues, sock, p) && SameBytes(r.store, r'.store, Held(r))
    ensures Inboxes(r') == Inboxes(r)[sock := Inboxes(r)[sock] + [(p.len, Contents(r'.store, p.chain))]]
  {
    forall s | 0 <= s < |r.queues| ensures View(r'.store, r.queues[s]) == View(r.store, r.queues[s]) {
      SameView(r.store, r'.store, r.queues, s, r.app);
    }
    ViewAppend(r'.store, r.queues[sock], p);
  }

  /** The loop of winc1500_sock_close that frees what is queued. */
  method DropQueue(r: Rx, sock: nat, ghost total: Bag) returns (r': Rx)
    requires Valid(r, total) && sock < MAX_SOCKET
    ensures Valid(r', total) && r' == r.(pool := r'.pool, queues := r.queues[sock := []])
  {
    r' := r;
    while r'.queues[sock] != []
      invariant Valid(r', total) && r' == r.(pool := r'.pool, queues := r.queues[sock := r'.queues[sock]])
      decreases |r'.queues[sock]|
    {
      LedgerDrop(r'.pool, r'.rxBuf, r'.queues, sock, r'.app);
      r' := r'.(pool := r'.pool + multiset(r'.queues[sock][0].chain),
                queues := r'.queues[sock := r'.queues[sock][1..]]);
    }
    assert r'.queues == r.queues[sock := []];
  }

  // ---- Accounts ----

  /** A payload that came, and whether it was queued whole and no later reply has written into its
      packet while queued. */
  datatype Arrival = Arrival(payload: seq<byte>, sound: bool)

  /** Each sound arrival has been taken, or is still queued, as it came and in its place. */
  ghost predicate AccountOk(taken: seq<Message>, inbox: seq<Message>, came: seq<Arrival>) {
    && |taken| + |inbox| == |came|
    && forall i :: 0 <= i < |came| && came[i].sound ==> (taken + inbox)[i] == (|came[i].payload|, came[i].payload)
  }

  ghost predicate Accounted(taken: seq<seq<Message>>, inbox: seq<seq<Message>>, came: seq<seq<Arrival>>) {
    && |taken| == |inbox| == |came| == MAX_SOCKET
    && forall s :: 0 <= s < MAX_SOCKET ==> AccountOk(taken[s], inbox[s], came[s])
  }

  lemma AccountTake(taken: seq<Message>, inbox: seq<Message>, came: seq<Arrival>)
    requires AccountOk(taken, inbox, came) && inbox != []
    ensures AccountOk(taken + [inbox[0]], inbox[1..], came)
  {
    assert taken + [inbox[0]] + inbox[1..] == taken + inbox;
  }

  lemma AccountAdd(taken: seq<Message>, inbox: seq<Message>, came: seq<Arrival>, m: Message, a: Arrival)
    requires AccountOk(taken, inbox, came) && (a.sound ==> m == (|a.payload|, a.payload))
    ensures AccountOk(taken, inbox + [m], came + [a])
  {
    assert taken + (inbox + [m]) == (taken + inbox) + [m];
  }

  /** The arrivals of a socket once a write has gone into mbuf `x`: queued packets that contain it
      are not sound any more. */
  ghost function Struck(came: seq<Arrival>, taken: nat, q: seq<Packet>, x: Mbuf): (r: seq<Arrival>)
    requires |came| == taken + |q|
    ensures |r| == |came|
  {
    seq(|came|, i requires 0 <= i < |came| =>
      if i >= taken && x in q[i - taken].chain then came[i].(sound := false) else came[i])
  }

  lemma StruckUnlessThere(came: seq<Arrival>, taken: nat, q: seq<Packet>, x: Mbuf)
    requires |came| == taken + |q| && forall i :: 0 <= i < |q| ==> x !in q[i].chain
    ensures Struck(came, taken, q, x) == came
  {
  }

  lemma ViewAside(a: Store, b: Store, x: Mbuf, q: seq<Packet>, i: nat)
    requires i < |q| && x !in q[i].chain && forall m :: m != x ==> Bytes(a, m) == Bytes(b, m)
    ensures View(b, q)[i] == View(a, q)[i]
  {
    ContentsFrame(a, b, q[i].chain);
  }

  /** Writing into one mbuf keeps the account of every packet that does not contain it. */
  lemma AccountStruck(a: Store, b: Store, x: Mbuf, taken: seq<Message>, q: seq<Packet>, came: seq<Arrival>)
    requires AccountOk(taken, View(a, q), came) && forall m :: m != x ==> Bytes(a, m) == Bytes(b, m)
    ensures AccountOk(taken, View(b, q), Struck(came, |taken|, q, x))
  {
    var after, n, v, v' := Struck(came, |taken|, q, x), |taken|, View(a, q), View(b, q);
    forall i | 0 <= i < |came| && after[i].sound ensures (taken + v')[i] == (taken + v)[i] {
      if i >= n {
        ViewAside(a, b, x, q, i - n);
      }
    }
  }

  /** All sockets' arrivals after such a write. */
  ghost function AllStruck(came: seq<seq<Arrival>>, taken: seq<seq<Message>>, r: Rx, x: Mbuf): (c: seq<seq<Arrival>>)
    requires Accounted(taken, Inboxes(r), came)
    ensures |c| == |came|
  {
    seq(|came|, s requires 0 <= s < |came| => Struck(came[s], |taken[s]|, r.queues[s], x))
  }

  lemma AccountedStruck(r: Rx, r': Rx, x: Mbuf, taken: seq<seq<Message>>, came: seq<seq<Arrival>>)
    requires Accounted(taken, Inboxes(r), came) && r'.queues == r.queues
    requires forall m :: m != x ==> Bytes(r.store, m) == Bytes(r'.store, m)
    ensures Accounted(taken, Inboxes(r'), AllStruck(came, taken, r, x))
  {
    var after := AllStruck(came, taken, r, x);
    forall s | 0 <= s < MAX_SOCKET ensures AccountOk(taken[s], Inboxes(r')[s], after[s]) {
      AccountStruck(r.store, r'.store, x, taken[s], r.queues[s], came[s]);
    }
  }

  lemma AccountedAdd(taken: seq<seq<Message>>, inbox: seq<seq<Message>>, came: seq<seq<Arrival>>,
                     sock: nat, m: Message, a: Arrival)
    requires Accounted(taken, inbox, came) && sock < MAX_SOCKET && (a.sound ==> m == (|a.payload|, a.payload))
    ensures Accounted(taken, inbox[sock := inbox[sock] + [m]], came[sock := came[sock] + [a]])
  {
    AccountAdd(taken[sock], inbox[sock], came[sock], m, a);
  }

  lemma AccountedTake(taken: seq<seq<Message>>, inbox: seq<seq<Message>>, came: seq<seq<Arrival>>, sock: nat)
    requires Accounted(taken, inbox, came) && sock < MAX_SOCKET && inbox[sock] != []
    ensures Accounted(taken[sock := taken[sock] + [inbox[sock][0]]], inbox[sock := inbox[sock][1..]], came)
  {
    AccountTake(taken[sock], inbox[sock], came[sock]);
  }

  lemma AccountedClose(taken: seq<seq<Message>>, inbox: seq<seq<Message>>, came: seq<seq<Arrival>>, sock: nat)
    requires Accounted(taken, inbox, came) && sock < MAX_SOCKET
    ensures Accounted(taken[sock := []], inbox[sock := []], came[sock := []])
  {
  }

  /** Replacing one queue replaces one inbox. */
  lemma InboxUpdate(r: Rx, r': Rx, sock: nat, q: seq<Packet>)
    requires sock < |r.queues| && r'.queues == r.queues[sock := q] && r'.store == r.store
    ensures Inboxes(r') == Inboxes(r)[sock := View(r.store, q)]
  {
  }

  lemma ViewTail(store: Store, q: seq<Packet>)
    requires q != []
    ensures View(store, q)[1..] == View(store, q[1..])
  {
  }

  // ---- Requests ----

  /** The driver believes a request is pending, but the firmware holds none. */
  predicate Stuck(r: Rx, s: nat)
    requires s < |r.pending| && s < |r.asked|
  {
    r.pending[s] && !r.asked[s]
  }

  /** Polling, with no request at the firmware: nothing will ever arrive. */
  ghost predicate Stalled(r: Rx) {
    r.polling && forall s :: 0 <= s < |r.asked| ==> !r.asked[s]
  }

  /** Stuck sockets other than `freed` stay stuck, and stalled receiving stays stalled. */
  ghost predicate StayStuck(r: Rx, r': Rx, freed: int) {
    && |r.pending| == |r.asked| == |r'.pending| == |r'.asked|
    && (forall s :: 0 <= s < |r.pending| && s != freed && Stuck(r, s) ==> Stuck(r', s))
    && (Stalled(r) ==> Stalled(r') && r'.rxBuf == r.rxBuf)
  }

  const NONE := -1

  /** A start that polls has a request at the firmware for its socket exactly if that socket was
      not stuck. */
  lemma StartedAsks(caps: Caps, r: Rx, r': Rx, i: nat, accept: bool)
    requires i < |r.user| == |r.pending| == |r.asked| && Started(caps, r, r', i, accept) && r'.polling
    ensures r'.asked[i] <==> !Stuck(r, i)
  {
  }

  /** A refused request leaves its socket stuck. */
  lemma RefusedIsStuck(caps: Caps, r: Rx, r': Rx, i: nat)
    requires i < |r.user| == |r.pending| == |r.asked| && Started(caps, r, r', i, false) && !r.pending[i] && !r.asked[i]
    ensures Stuck(r', i) && !r'.polling
  {
  }

  // ---- Calm runs ----

  /** The firmware holds at most one request, of a socket aimed at the chain, and no socket is
      stuck. */
  ghost predicate Calm(r: Rx, caps: Caps) {
    && |r.user| == |r.pending| == |r.asked|
    && (forall s, t :: 0 <= s < |r.asked| && 0 <= t < |r.asked| && r.asked[s] && r.asked[t] ==> s == t)
    && (forall s :: 0 <= s < |r.asked| && r.asked[s] ==> Aimed(r, caps, s) && r.polling && !r.flow)
    && (forall s :: 0 <= s < |r.pending| && r.pending[s] ==> r.asked[s])
  }

  /** A start whose request is accepted, with none at the firmware before, is calm. */
  lemma StartIsCalm(caps: Caps, a: Rx, r': Rx, i: nat)
    requires |a.user| == |a.pending| == |a.asked|
    requires forall s :: 0 <= s < |a.asked| ==> !a.asked[s] && !a.pending[s]
    requires if r'.flow then SameSockets(a, r') else Started(caps, a, r', i, true)
    ensures Calm(r', caps)
  {
  }

  ghost predicate AllSound(came: seq<seq<Arrival>>) {
    forall s, i :: 0 <= s < |came| && 0 <= i < |came[s]| ==> came[s][i].sound
  }

  /** Every mbuf has one owner, and every sound arrival was taken or is still queued, whole and in
      order. In a calm run all arrivals are sound. */
  ghost predicate Consistent(caps: Caps, total: Bag, r: Rx, broken: bool, taken: seq<seq<Message>>,
                             came: seq<seq<Arrival>>, calm: bool) {
    && Stock(caps, total)
    && (!broken ==> WincRx.Valid(r, total) && Idle(r, caps) && Accounted(taken, Inboxes(r), came))
    && (calm ==> !broken && Calm(r, caps) && AllSound(came))
  }

  // ---- A reply with data ----

  /** The reply as it is read: the socket's flags are cleared first. */
  ghost function ReplyJob(caps: Caps, r: Rx, sock: nat, payload: seq<byte>, accept: bool): Job
    requires sock < |r.pending| && sock < |r.asked|
  {
    Job(caps, Answered(r, sock), sock, payload, accept)
  }

  function Answered(r: Rx, sock: nat): Rx
    requires sock < |r.pending| && sock < |r.asked|
  {
    r.(pending := r.pending[sock := false], asked := r.asked[sock := false])
  }

  lemma ReplyArrives(caps: Caps, r: Rx, sock: nat, payload: seq<byte>, accept: bool, total: Bag)
    requires WincRx.Valid(r, total) && Stock(caps, total) && Idle(r, caps) && sock < MAX_SOCKET && r.asked[sock]
    requires !r.flow && r.cur == At(0) && 0 < |payload| <= RX_SIZE
    ensures Arrived(ReplyJob(caps, r, sock, payload, accept), total)
  {
  }

  /** The mbuf a socket points at. */
  function Under(r: Rx, sock: nat): Mbuf
    requires sock < |r.user| && r.user[sock].Into?
  {
    r.user[sock].m
  }

  /** The inboxes and accounts after a reply. */
  ghost predicate Answers(r: Rx, j: Job, r': Rx, came: seq<seq<Arrival>>, taken: seq<seq<Message>>,
                          came': seq<seq<Arrival>>) {
    && Usable(j) && !Overrun(j) && j.sock < |r.queues| && j.sock < |Base(j).queues|
    && Accounted(taken, Inboxes(r), came)
    && var inbox, struck := Inboxes(Base(j)), AllStruck(came, taken, r, Under(j.rx, j.sock));
      && j.sock < |struck| && Inboxes(r') == inbox[j.sock := inbox[j.sock] + [(|j.payload|, Outcome(j))]]
      && came' == struck[j.sock := struck[j.sock] + [Arrival(j.payload, Outcome(j) == j.payload)]]
  }

  /** The accounts after a reply: packets written into are not sound any more, and the new arrival
      is sound exactly if it was queued whole. */
  lemma ReplyAccounts(j: Job, r: Rx, r': Rx, p: Packet, taken: seq<seq<Message>>, came: seq<seq<Arrival>>)
    returns (came': seq<seq<Arrival>>)
    requires Usable(j) && j.sock < MAX_SOCKET && j.rx.queues == r.queues && j.rx.store == r.store && j.rx.app == r.app
    requires Accounted(taken, Inboxes(r), came) && Delivered(j, r', p)
    ensures Answers(r, j, r', came, taken, came') && Accounted(taken, Inboxes(r'), came')
  {
    var x := Under(j.rx, j.sock);
    var struck := AllStruck(came, taken, r, x);
    came' := struck[j.sock := struck[j.sock] + [Arrival(j.payload, Outcome(j) == j.payload)]];
    AccountedStruck(r, Base(j), x, taken, came);
    AddedMessage(Base(j), r', j.sock, p);
    AccountedAdd(taken, Inboxes(Base(j)), struck, j.sock, (|j.payload|, Outcome(j)),
                 Arrival(j.payload, Outcome(j) == j.payload));
  }

  /** The same when the socket was aimed. */
  ghost predicate AnswersWhole(r: Rx, j: Job, r': Rx, came: seq<seq<Arrival>>, came': seq<seq<Arrival>>) {
    && Usable(j) && !Overrun(j) && j.sock < |r.queues| && j.sock < |came|
    && var fits := j.accept || |j.payload| <= Cap(j.caps, j.rx.rxBuf[0]);
      && (Outcome(j) == j.payload <==> fits)
      && Inboxes(r') == Inboxes(r)[j.sock := Inboxes(r)[j.sock] + [(|j.payload|, Outcome(j))]]
      && came' == came[j.sock := came[j.sock] + [Arrival(j.payload, fits)]]
      && SameBytes(r.store, r'.store, Held(r))
  }

  /** A reply for an aimed socket strikes no packet. */
  lemma AimedStrikesNothing(j: Job, r: Rx, taken: seq<seq<Message>>, came: seq<seq<Arrival>>, total: Bag)
    requires Arrived(j, total) && Aimed(j.rx, j.caps, j.sock)
    requires j.rx.queues == r.queues && j.rx.store == r.store && Accounted(taken, Inboxes(r), came)
    ensures Inboxes(Base(j)) == Inboxes(r) && AllStruck(came, taken, r, Under(j.rx, j.sock)) == came
  {
    var x := Under(j.rx, j.sock);
    AimedIsWhole(j, total);
    SameInboxes(j.rx, Base(j));
    HeldApart(j.rx, j.caps, total);
    forall s | 0 <= s < MAX_SOCKET ensures Struck(came[s], |taken[s]|, r.queues[s], x) == came[s] {
      forall i | 0 <= i < |r.queues[s]| ensures x !in r.queues[s][i].chain {
        InPackets(r.queues[s], i);
        InQueues(r.queues, s);
        assert x !in Held(j.rx);
      }
      StruckUnlessThere(came[s], |taken[s]|, r.queues[s], x);
    }
  }

  /** A reply for an aimed socket. */
  lemma AimedAnswers(j: Job, r: Rx, r': Rx, p: Packet, taken: seq<seq<Message>>, came: seq<seq<Arrival>>,
                     came': seq<seq<Arrival>>, total: Bag)
    requires Arrived(j, total) && Aimed(j.rx, j.caps, j.sock) && Delivered(j, r', p)
    requires j.rx.queues == r.queues && j.rx.store == r.store && j.rx.app == r.app
    requires Answers(r, j, r', came, taken, came')
    ensures AnswersWhole(r, j, r', came, came')
  {
    AimedIsWhole(j, total);
    AimedStrikesNothing(j, r, taken, came, total);
  }

  /** The RECV branch of m2m_ip_cb for a reply with data. A cursor left over from an earlier chain
      makes the callback work on an mbuf that is not the driver's. */
  method Answer(caps: Caps, r: Rx, h: Hif, sock: nat, start: nat, count: nat, accept: bool, offer: seq<Mbuf>,
                ghost payload: seq<byte>, ghost total: Bag)
    returns (fault: bool, r': Rx, h': Hif, ghost p: Packet)
    requires WincRx.Valid(r, total) && Stock(caps, total) && Idle(r, caps) && sock < MAX_SOCKET && r.asked[sock]
    requires !r.flow && 0 < count == |payload| <= RX_SIZE && InWindow(h, start, payload)
    ensures Usable(ReplyJob(caps, r, sock, payload, accept))
    ensures fault <==> r.cur != At(0) || Overrun(ReplyJob(caps, r, sock, payload, accept))
    ensures !fault ==> WincRx.Valid(r', total) && Idle(r', caps)
    ensures !fault ==> Delivered(ReplyJob(caps, r, sock, payload, accept), r', p)
    ensures !fault ==> h' == h.(rxDone := h.rxDone + 1) && (offer == [] ==> r'.flow)
  {
    r', h', p, fault := r, h, Packet([], 0), true;
    if r.cur == At(0) {
      ReplyArrives(caps, r, sock, payload, accept, total);
      fault, r', h', p := ReadSocketData(caps, Answered(r, sock), h, sock, start, count, accept, offer,
                                         ReplyJob(caps, r, sock, payload, accept), total);
    }
  }

  lemma DeliveredKeepsStuck(caps: Caps, r: Rx, sock: nat, payload: seq<byte>, accept: bool, r': Rx, p: Packet)
    requires |r.user| == |r.pending| == |r.asked| && sock < |r.asked| && r.asked[sock]
    requires Delivered(ReplyJob(caps, r, sock, payload, accept), r', p)
    ensures StayStuck(r, r', NONE)
  {
  }

  /** In a calm state the answered socket had the only request. */
  lemma CalmAnswered(r: Rx, caps: Caps, sock: nat)
    requires Calm(r, caps) && sock < |r.asked| && r.asked[sock]
    ensures forall s :: 0 <= s < |r.asked| ==> !Answered(r, sock).asked[s] && !Answered(r, sock).pending[s]
  {
  }

  /** A whole arrival added keeps all arrivals sound. */
  lemma SoundAdded(r: Rx, j: Job, r': Rx, came: seq<seq<Arrival>>, came': seq<seq<Arrival>>)
    requires AnswersWhole(r, j, r', came, came') && j.accept && AllSound(came)
    ensures AllSound(came')
  {
  }

  /** An accepted reply of a calm state is whole, and leaves a calm state unless it took several
      chunks and no new chain was to be had. */
  lemma ReplyIsCalm(caps: Caps, r: Rx, sock: nat, payload: seq<byte>, r': Rx, p: Packet)
    requires Calm(r, caps) && sock < |r.asked| && r.asked[sock]
    requires Delivered(ReplyJob(caps, r, sock, payload, true), r', p)
    requires r'.flow ==> |payload| <= Cap(caps, r.rxBuf[0])
    ensures Calm(r', caps)
  {
  }

  /** Everything that holds after a reply with data. */
  ghost predicate Replied(caps: Caps, r: Rx, j: Job, fault: bool, r': Rx, came: seq<seq<Arrival>>,
                          taken: seq<seq<Message>>, came': seq<seq<Arrival>>) {
    && Usable(j) && (fault <==> r.cur != At(0) || Overrun(j))
    && (!fault ==> (exists p :: Delivered(j, r', p)) && Answers(r, j, r', came, taken, came') && StayStuck(r, r', NONE))
    && (Aimed(r, caps, j.sock) ==> !fault && AnswersWhole(r, j, r', came, came'))
    && (Calm(r, caps) && j.accept ==> !fault && (AllSound(came) ==> AllSound(came')))
    && (Calm(r, caps) && j.accept && (r'.flow ==> |j.payload| <= Cap(caps, j.rx.rxBuf[0])) ==> Calm(r', caps))
  }

  /** The same with the accounts. */
  method ReplyAccounted(caps: Caps, r: Rx, h: Hif, sock: nat, start: nat, count: nat, accept: bool, offer: seq<Mbuf>,
                        ghost payload: seq<byte>, ghost taken: seq<seq<Message>>, ghost came: seq<seq<Arrival>>,
                        ghost total: Bag)
    returns (fault: bool, r': Rx, h': Hif, ghost came': seq<seq<Arrival>>)
    requires WincRx.Valid(r, total) && Stock(caps, total) && Idle(r, caps) && sock < MAX_SOCKET && r.asked[sock]
    requires !r.flow && 0 < count == |payload| <= RX_SIZE && InWindow(h, start, payload)
    requires Accounted(taken, Inboxes(r), came)
    ensures !fault ==> WincRx.Valid(r', total) && Idle(r', caps) && Accounted(taken, Inboxes(r'), came')
    ensures !fault ==> h' == h.(rxDone := h.rxDone + 1) && (offer == [] ==> r'.flow)
    ensures Replied(caps, r, ReplyJob(caps, r, sock, payload, accept), fault, r', came, taken, came')
  {
    ghost var p;
    ghost var j := ReplyJob(caps, r, sock, payload, accept);
    fault, r', h', p := Answer(caps, r, h, sock, start, count, accept, offer, payload, total);
    came' := came;
    if Aimed(r, caps, sock) {
      ReplyArrives(caps, r, sock, payload, accept, total);
      AimedIsWhole(j, total);
    }
    if !fault {
      came' := ReplyAccounts(j, r, r', p, taken, came);
      DeliveredKeepsStuck(caps, r, sock, payload, accept, r', p);
      if Calm(r, caps) && accept && (r'.flow ==> |payload| <= Cap(caps, r.rxBuf[0])) {
        ReplyIsCalm(caps, r, sock, payload, r', p);
      }
      if Aimed(r, caps, sock) {
        AimedAnswers(j, r, r', p, taken, came, came', total);
        if accept && AllSound(came) {
          SoundAdded(r, j, r', came, came');
        }
      }
    }
  }

  /** In a run that is calm so far, or not. */
  method Reply(caps: Caps, r: Rx, h: Hif, sock: nat, start: nat, count: nat, accept: bool, offer: seq<Mbuf>,
               ghost payload: seq<byte>, ghost taken: seq<seq<Message>>, ghost came: seq<seq<Arrival>>,
               ghost calm: bool, ghost total: Bag)
    returns (fault: bool, r': Rx, h': Hif, ghost came': seq<seq<Arrival>>, ghost calm': bool)
    requires Consistent(caps, total, r, false, taken, came, calm) && sock < MAX_SOCKET && r.asked[sock]
    requires !r.flow && 0 < count == |payload| <= RX_SIZE && InWindow(h, start, payload)
    ensures Consistent(caps, total, r', fault, taken, came', calm')
    ensures !fault ==> h' == Signalled(h, true) && (offer == [] ==> r'.flow)
    ensures Replied(caps, r, ReplyJob(caps, r, sock, payload, accept), fault, r', came, taken, came')
    ensures calm' == (calm && StaysCalm(caps, r.rxBuf, count, accept, r'.flow))
  {
    ghost var j := ReplyJob(caps, r, sock, payload, accept);
    fault, r', h', came' := ReplyAccounted(caps, r, h, sock, start, count, accept, offer, payload, taken, came, total);
    ReplyConsistent(caps, total, r, j, fault, r', taken, came, came', calm);
    calm' := calm && StaysCalm(caps, r.rxBuf, count, accept, r'.flow);
  }

  /** Starting for another socket keeps stuck sockets. */
  lemma StartKeepsStuck(caps: Caps, r: Rx, a: Rx, r': Rx, sock: nat, i: nat, accept: bool)
    requires |r.user| == |r.pending| == |r.asked| && sock < |r.asked| && r.asked[sock]
    requires SameSockets(Answered(r, sock), a)
    requires if r'.flow then SameSockets(a, r') else Started(caps, a, r', i, accept)
    ensures StayStuck(r, r', NONE)
  {
  }

  lemma PassKeeps(caps: Caps, r: Rx, a: Rx, r': Rx, sock: nat, i: nat, accept: bool)
    requires |r.user| == |r.pending| == |r.asked| && sock < |r.asked| && r.asked[sock]
    requires SameSockets(Answered(r, sock), a)
    requires if r'.flow then SameSockets(a, r') else Started(caps, a, r', i, accept)
    ensures StayStuck(r, r', NONE) && (accept && Calm(r, caps) ==> Calm(r', caps))
  {
    StartKeepsStuck(caps, r, a, r', sock, i, accept);
    if accept && Calm(r, caps) {
      CalmAnswered(r, caps, sock);
      StartIsCalm(caps, a, r', i);
    }
  }

  /** winc1500_socket_poll: while polling nothing, otherwise a start from the first socket on. */
  ghost predicate Polls(caps: Caps, r: Rx, r': Rx, accept: bool, offer: seq<Mbuf>) {
    if r.polling then r' == r
    else
      && |r.poll| == MAX_SOCKET
      && (if r'.flow then SameSockets(r, r') else Started(caps, r, r', FirstFrom(r.poll, 0), accept))
      && (r'.flow <==> r.rxBuf == [] && !exists k: nat :: Enough(caps, r.pool, offer, k))
      && (r.rxBuf == [] ==> r'.rxBuf <= offer && (!r'.polling ==> r'.cur == Astray))
  }

  lemma PollKeeps(caps: Caps, r: Rx, r': Rx, accept: bool, offer: seq<Mbuf>)
    requires |r.user| == |r.pending| == |r.asked| && Polls(caps, r, r', accept, offer)
    ensures StayStuck(r, r', NONE) && (Calm(r, caps) && (r.polling || accept) ==> Calm(r', caps))
  {
    if !r.polling && accept && Calm(r, caps) {
      StartIsCalm(caps, r, r', FirstFrom(r.poll, 0));
    }
  }

  method PollRx(caps: Caps, r: Rx, accept: bool, offer: seq<Mbuf>, ghost total: Bag) returns (r': Rx)
    requires WincRx.Valid(r, total) && Stock(caps, total) && Idle(r, caps)
    ensures WincRx.Valid(r', total) && Idle(r', caps) && Polls(caps, r, r', accept, offer)
    ensures r'.queues == r.queues && r'.app == r.app && r'.poll == r.poll && SameBytes(r.store, r'.store, Held(r'))
    ensures StayStuck(r, r', NONE) && (Calm(r, caps) && (r.polling || accept) ==> Calm(r', caps))
  {
    r' := r;
    if !r.polling {
      r' := StartRx(caps, r, 0, accept, offer, total);
      assert Held(r') == Held(r);
    }
    PollKeeps(caps, r, r', accept, offer);
  }

  /** The socket after a reply without data: an error ends its polling. */
  function Passed(r: Rx, sock: nat, status: int): Rx
    requires sock < |r.pending| && sock < |r.asked| && sock < |r.poll|
  {
    var a := Answered(r, sock);
    if status == SOCK_ERR_TIMEOUT then a else a.(poll := a.poll[sock := false])
  }

  lemma PassedIsValid(caps: Caps, r: Rx, sock: nat, status: int, total: Bag)
    requires WincRx.Valid(r, total) && Idle(r, caps) && sock < MAX_SOCKET
    ensures var a := Passed(r, sock, status);
      && WincRx.Valid(a, total) && (a.rxBuf == [] || Fresh(a, caps)) && SameSockets(Answered(r, sock), a)
      && a.queues == r.queues && a.app == r.app && a.store == r.store && Held(a) == Held(r)
  {
    SocketsAnswered(r.poll, r.user, r.pending, r.asked, sock);
  }

  lemma SocketsAnswered(poll: seq<bool>, user: seq<UserBuf>, pending: seq<bool>, asked: seq<bool>, sock: nat)
    requires SocketsOk(poll, user, pending, asked) && sock < MAX_SOCKET
    ensures SocketsOk(poll, user, pending[sock := false], asked[sock := false])
    ensures SocketsOk(poll[sock := false], user, pending[sock := false], asked[sock := false])
  {
  }

  /** After a reply without data: a start from the next socket on, with the answered one not polled any
      more after an error. */
  ghost predicate Passes(caps: Caps, r: Rx, r': Rx, sock: nat, status: int, accept: bool, offer: seq<Mbuf>) {
    && |r.poll| == |r.pending| == |r.asked| == MAX_SOCKET && sock < MAX_SOCKET
    && var a := Passed(r, sock, status);
      && r'.poll == a.poll && (r'.flow <==> r.rxBuf == [] && !exists k: nat :: Enough(caps, r.pool, offer, k))
      && if r'.flow then SameSockets(a, r') else Started(caps, a, r', FirstFrom(a.poll, sock + 1), accept)
  }

  /** The RECV branches of m2m_ip_cb and winc1500_sock_cb for a reply without data. */
  method Pass(caps: Caps, r: Rx, sock: nat, status: int, accept: bool, offer: seq<Mbuf>, ghost total: Bag)
    returns (r': Rx)
    requires WincRx.Valid(r, total) && Stock(caps, total) && Idle(r, caps) && sock < MAX_SOCKET && r.asked[sock]
    ensures WincRx.Valid(r', total) && Idle(r', caps) && StayStuck(r, r', NONE)
    ensures r'.queues == r.queues && r'.app == r.app && SameBytes(r.store, r'.store, Held(r))
    ensures accept && Calm(r, caps) ==> Calm(r', caps)
    ensures r'.poll == (if status == SOCK_ERR_TIMEOUT then r.poll else r.poll[sock := false])
    ensures Passes(caps, r, r', sock, status, accept, offer)
  {
    PassedIsValid(caps, r, sock, status, total);
    var a := Passed(r, sock, status);
    r' := StartRx(caps, a, sock + 1, accept, offer, total);
    PassKeeps(caps, r, a, r', sock, FirstFrom(a.poll, sock + 1), accept);
  }

  /** winc1500_sock_close, for what has been received. */
  method CloseRx(caps: Caps, r: Rx, sock: nat, ghost total: Bag) returns (r': Rx)
    requires WincRx.Valid(r, total) && Idle(r, caps) && sock < MAX_SOCKET
    ensures WincRx.Valid(r', total) && Idle(r', caps) && StayStuck(r, r', sock)
    ensures Closed(r, r', sock)
  {
    r' := Answered(r, sock).(user := r.user[sock := NoBuf], poll := r.poll[sock := false]);
    r' := DropQueue(r', sock, total);
  }

  lemma {:induction false} NoPackets(n: nat)
    ensures OfQueues(seq(n, _ => [])) == multiset{}
  {
    var qs: seq<seq<Packet>> := seq(n, _ => []);
    if n > 0 {
      var rest: seq<seq<Packet>> := seq(n - 1, _ => []);
      assert qs[1..] == rest;
      NoPackets(n - 1);
    }
  }

  // ---- Consistency, step by step ----

  lemma WatchConsistent(caps: Caps, total: Bag, r: Rx, r': Rx, taken: seq<seq<Message>>, came: seq<seq<Arrival>>,
                        calm: bool, sock: nat)
    requires Consistent(caps, total, r, false, taken, came, calm) && sock < MAX_SOCKET
    requires r' == r.(poll := r.poll[sock := true])
    ensures Consistent(caps, total, r', false, taken, came, calm) && StayStuck(r, r', NONE)
  {
    SocketsWatched(r.poll, r.user, r.pending, r.asked, sock);
    QuietConsistent(caps, total, r, r', taken, came, calm, calm);
  }

  lemma SocketsWatched(poll: seq<bool>, user: seq<UserBuf>, pending: seq<bool>, asked: seq<bool>, sock: nat)
    requires SocketsOk(poll, user, pending, asked) && sock < MAX_SOCKET
    ensures SocketsOk(poll[sock := true], user, pending, asked)
    ensures SocketsOk(poll, user, pending[sock := false], asked)
  {
  }

  lemma ForeignConsistent(caps: Caps, total: Bag, r: Rx, r': Rx, taken: seq<seq<Message>>, came: seq<seq<Arrival>>,
                          calm: bool, sock: nat)
    requires Consistent(caps, total, r, false, taken, came, calm) && sock < MAX_SOCKET
    requires r' == r.(pending := r.pending[sock := false])
    ensures Consistent(caps, total, r', false, taken, came, calm) && StayStuck(r, r', sock)
    ensures Inboxes(r') == Inboxes(r)
  {
    SocketsWatched(r.poll, r.user, r.pending, r.asked, sock);
    QuietConsistent(caps, total, r, r', taken, came, calm, calm);
  }

  /** A step that leaves the inboxes alone. */
  lemma QuietConsistent(caps: Caps, total: Bag, r: Rx, r': Rx, taken: seq<seq<Message>>, came: seq<seq<Arrival>>,
                        calm: bool, calm': bool)
    requires Consistent(caps, total, r, false, taken, came, calm) && WincRx.Valid(r', total) && Idle(r', caps)
    requires r'.queues == r.queues && SameBytes(r.store, r'.store, Held(r)) && (calm' ==> calm && Calm(r', caps))
    ensures Consistent(caps, total, r', false, taken, came, calm') && Inboxes(r') == Inboxes(r)
  {
    SameInboxes(r, r');
  }

  /** Whether a run is still calm after a reply with data. */
  ghost predicate StaysCalm(caps: Caps, chain: seq<Mbuf>, n: nat, accept: bool, flow: bool) {
    accept && (flow ==> chain != [] && n <= Cap(caps, chain[0]))
  }

  lemma ReplyConsistent(caps: Caps, total: Bag, r: Rx, j: Job, fault: bool, r': Rx, taken: seq<seq<Message>>,
                        came: seq<seq<Arrival>>, came': seq<seq<Arrival>>, calm: bool)
    requires Consistent(caps, total, r, false, taken, came, calm) && j.caps == caps && j.rx.rxBuf == r.rxBuf
    requires !fault ==> WincRx.Valid(r', total) && Idle(r', caps) && Accounted(taken, Inboxes(r'), came')
    requires Replied(caps, r, j, fault, r', came, taken, came')
    ensures Consistent(caps, total, r', fault, taken, came',
                       calm && StaysCalm(caps, r.rxBuf, |j.payload|, j.accept, r'.flow))
  {
  }

  lemma TakeConsistent(caps: Caps, total: Bag, r: Rx, r': Rx, taken: seq<seq<Message>>, taken': seq<seq<Message>>,
                       came: seq<seq<Arrival>>, calm: bool, sock: nat)
    requires Consistent(caps, total, r, false, taken, came, calm) && sock < MAX_SOCKET && r.queues[sock] != []
    requires r' == r.(queues := r.queues[sock := r.queues[sock][1..]],
                      app := r.app + multiset(r.queues[sock][0].chain))
    requires taken' == taken[sock := taken[sock] + [Inboxes(r)[sock][0]]]
    ensures Consistent(caps, total, r', false, taken', came, calm) && StayStuck(r, r', NONE)
    ensures Inboxes(r') == Inboxes(r)[sock := Inboxes(r)[sock][1..]]
  {
    TakenInbox(r, r', sock);
    AccountedTake(taken, Inboxes(r), came, sock);
    TakeIsValid(r, r', sock, total);
    OtherPlaces(caps, r, r');
  }

  /** Mbufs that change place elsewhere leave receiving as it was. */
  lemma OtherPlaces(caps: Caps, r: Rx, r': Rx)
    requires r' == r.(pool := r'.pool, queues := r'.queues, app := r'.app) && |r.pending| == |r.asked|
    ensures StayStuck(r, r', NONE) && (Idle(r, caps) ==> Idle(r', caps)) && (Calm(r, caps) ==> Calm(r', caps))
  {
  }

  lemma TakeIsValid(r: Rx, r': Rx, sock: nat, total: Bag)
    requires WincRx.Valid(r, total) && sock < MAX_SOCKET && r.queues[sock] != []
    requires r' == r.(queues := r.queues[sock := r.queues[sock][1..]],
                      app := r.app + multiset(r.queues[sock][0].chain))
    ensures WincRx.Valid(r', total)
  {
    LedgerTake(r.pool, r.rxBuf, r.queues, sock, r.app);
  }

  lemma TakenInbox(r: Rx, r': Rx, sock: nat)
    requires sock < |r.queues| && r.queues[sock] != [] && r'.store == r.store
    requires r'.queues == r.queues[sock := r.queues[sock][1..]]
    ensures Inboxes(r') == Inboxes(r)[sock := Inboxes(r)[sock][1..]]
  {
    InboxUpdate(r, r', sock, r.queues[sock][1..]);
    ViewTail(r.store, r.queues[sock]);
  }

  lemma FreeConsistent(caps: Caps, total: Bag, r: Rx, r': Rx, taken: seq<seq<Message>>, came: seq<seq<Arrival>>,
                       calm: bool, m: Mbuf)
    requires Consistent(caps, total, r, false, taken, came, calm) && m in r.app
    requires r' == r.(pool := r.pool + multiset{m}, app := r.app - multiset{m})
    ensures Consistent(caps, total, r', false, taken, came, calm) && StayStuck(r, r', NONE)
    ensures Inboxes(r') == Inboxes(r)
  {
    LedgerReturn(r.pool, r.rxBuf, r.queues, r.app, m);
    OtherPlaces(caps, r, r');
    assert Inboxes(r') == Inboxes(r);
  }

  lemma CloseConsistent(caps: Caps, total: Bag, r: Rx, r': Rx, taken: seq<seq<Message>>, came: seq<seq<Arrival>>,
                        calm: bool, sock: nat)
    requires Consistent(caps, total, r, false, taken, came, calm) && sock < MAX_SOCKET
    requires WincRx.Valid(r', total) && Idle(r', caps) && Closed(r, r', sock)
    ensures Consistent(caps, total, r', false, taken[sock := []], came[sock := []], calm)
    ensures Inboxes(r') == Inboxes(r)[sock := []]
  {
    InboxUpdate(r, r', sock, []);
    AccountedClose(taken, Inboxes(r), came, sock);
    assert View(r.store, []) == [];
  }

  /** All that closing a socket changes. */
  ghost predicate Closed(r: Rx, r': Rx, sock: nat) {
    && sock < |r.queues| && sock < |r.poll| && sock < |r.user| && sock < |r.pending| && sock < |r.asked|
    && r' == r.(pool := r'.pool, queues := r.queues[sock := []], poll := r.poll[sock := false],
                user := r.user[sock := NoBuf], pending := r.pending[sock := false],
                asked := r.asked[sock := false])
  }
}
