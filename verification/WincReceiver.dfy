/** The receive side of the WINC1500 socket driver over whole runs: polling, replies, time-outs,
    the application taking and freeing packets, and closing. A reply may come for every socket of
    which the firmware holds a request. */
module WincReceiver {
  import opened BitBytes
  import opened MbufLedger
  import opened WincRx
  import opened WincRead
  import opened WincLoop
  import opened WincAccounts
  import opened WincSteps

  /** In each step `accept` is the firmware's answer to a request the step may send, and `offer`
      the mbufs that the pool would hand out in it. */
  class Receiver {
    const caps: Caps
    const total: Bag
    var rx: Rx
    var hif: Hif
    // The driver has gone through a null or stale pointer: nothing is known any more.
    var broken: bool
    // Per socket, since it was last closed: what came, and what the application took.
    ghost var came: seq<seq<Arrival>>
    ghost var taken: seq<seq<Message>>
    // No request has been refused, and no new chain was missing after a reply of several chunks.
    ghost var calm: bool

    ghost function Abs(): State reads this { State(rx, hif, broken, came, taken) }

    ghost predicate Valid() reads this { Consistent(caps, total, rx, broken, taken, came, calm) }

    constructor (caps: Caps, total: Bag)
      requires Stock(caps, total)
      ensures Valid() && !broken && calm && this.caps == caps && this.total == total && rx.pool == total
      ensures rx.rxBuf == [] && !rx.polling && rx.app == multiset{}
      ensures forall s :: 0 <= s < MAX_SOCKET ==> rx.queues[s] == []
      ensures forall s :: 0 <= s < MAX_SOCKET ==> !rx.pending[s] && !rx.asked[s] && !rx.poll[s] && came[s] == []
    {
      this.caps, this.total := caps, total;
      rx := Rx(total, map[], [], 0, Astray, false, false, seq(MAX_SOCKET, _ => false), seq(MAX_SOCKET, _ => NoBuf),
               seq(MAX_SOCKET, _ => false), seq(MAX_SOCKET, _ => false), seq(MAX_SOCKET, _ => []), multiset{});
      hif, broken := Hif(0, [], 0), false;
      came, taken, calm := seq(MAX_SOCKET, _ => []), seq(MAX_SOCKET, _ => []), true;
      new;
      NoPackets(MAX_SOCKET);
    }

    /** A bound datagram socket or an accepted connection is polled from now on. */
    method Watch(sock: nat)
      requires Valid() && !broken && sock < MAX_SOCKET
      modifies this
      ensures Valid() && !broken && rx == old(rx).(poll := old(rx.poll)[sock := true]) && StayStuck(old(rx), rx, NONE)
      ensures hif == old(hif) && came == old(came) && taken == old(taken) && calm == old(calm)
    {
      rx := rx.(poll := rx.poll[sock := true]);
      WatchConsistent(caps, total, old(rx), rx, taken, came, calm, sock);
    }

    /** winc1500_socket_poll */
    method Poll(accept: bool, offer: seq<Mbuf>)
      requires Valid() && !broken
      modifies this
      ensures Valid() && !broken && hif == old(hif) && came == old(came) && taken == old(taken)
      ensures calm == (old(calm) && (old(rx.polling) || accept))
      ensures rx.queues == old(rx.queues) && rx.app == old(rx.app) && rx.poll == old(rx.poll)
      ensures SameBytes(old(rx.store), rx.store, Held(rx)) && Inboxes(rx) == old(Inboxes(rx))
      ensures StayStuck(old(rx), rx, NONE) && Polls(caps, old(rx), rx, accept, offer)
    {
      calm := calm && (rx.polling || accept);
      rx := PollRx(caps, rx, accept, offer, total);
      QuietConsistent(caps, total, old(rx), rx, taken, came, old(calm), calm);
    }

    /** A RECV reply with data, for a socket of which the firmware holds a request and which flow
        control does not hold back. What the packet holds and which held bytes change depends on
        where the socket points; for an aimed one the message is the payload, and no other changes,
        if and only if it fits the first mbuf or the request is accepted. */
    method Data(sock: nat, h: Hif, start: nat, count: nat, accept: bool, offer: seq<Mbuf>)
      requires Valid() && !broken && MayReply(rx, sock) && Readable(h, start, count)
      modifies this
      ensures Valid() && taken == old(taken)
      ensures DidReply(caps, old(rx), rx, broken, old(came), taken, came, sock, h, start, count, accept)
      ensures calm == (old(calm) && StaysCalm(caps, old(rx.rxBuf), count, accept, rx.flow))
      ensures !broken ==> hif == Signalled(h, true) && (offer == [] ==> rx.flow)
    {
      ghost var payload := h.window[start - h.addr..start - h.addr + count];
      broken, rx, hif, came, calm :=
        Reply(caps, rx, h, sock, start, count, accept, offer, payload, taken, came, calm, total);
    }

    /** A RECV reply without data: after a time-out the next socket is polled; after an error, or
        the end of the connection, this one is not polled any more. */
    method NoData(sock: nat, status: int, accept: bool, offer: seq<Mbuf>)
      requires Valid() && !broken && MayReply(rx, sock) && status <= 0
      modifies this
      ensures Valid() && !broken && hif == old(hif) && came == old(came) && taken == old(taken)
      ensures calm == (old(calm) && accept)
      ensures Inboxes(rx) == old(Inboxes(rx)) && rx.queues == old(rx.queues) && rx.app == old(rx.app)
      ensures StayStuck(old(rx), rx, NONE) && Passes(caps, old(rx), rx, sock, status, accept, offer)
    {
      rx := Pass(caps, rx, sock, status, accept, offer, total);
      calm := calm && accept;
      QuietConsistent(caps, total, old(rx), rx, taken, came, old(calm), calm);
    }

    /** A RECV reply of an earlier session of the slot: the pending flag is cleared before the session
        id is compared, and then the reply is dropped. */
    method Foreign(sock: nat, h: Hif, data: bool)
      requires Valid() && !broken && sock < MAX_SOCKET && !rx.flow
      modifies this
      ensures Valid() && !broken && hif == Signalled(h, data) && came == old(came) && taken == old(taken)
      ensures calm == old(calm)
      ensures rx == old(rx).(pending := old(rx.pending)[sock := false]) && Inboxes(rx) == old(Inboxes(rx))
      ensures StayStuck(old(rx), rx, sock)
    {
      rx := rx.(pending := rx.pending[sock := false]);
      hif := Signalled(h, data);
      ForeignConsistent(caps, total, old(rx), rx, taken, came, calm, sock);
    }

    /** winc1500_sock_recvfrom */
    method Take(sock: nat) returns (ok: bool, p: Packet)
      requires Valid() && !broken && sock < MAX_SOCKET
      modifies this
      ensures Valid() && !broken && hif == old(hif) && came == old(came) && calm == old(calm)
      ensures StayStuck(old(rx), rx, NONE) && (ok <==> old(Inboxes(rx)[sock]) != [])
      ensures !ok ==> rx == old(rx) && taken == old(taken)
      ensures ok ==>
        var m := old(Inboxes(rx)[sock])[0];
        && p == old(rx.queues[sock][0]) && (p.len, Contents(rx.store, p.chain)) == m
        && rx == old(rx).(queues := old(rx.queues)[sock := old(rx.queues[sock])[1..]],
                          app := old(rx.app) + multiset(p.chain))
        && Inboxes(rx) == old(Inboxes(rx))[sock := old(Inboxes(rx)[sock])[1..]]
        && taken == old(taken)[sock := old(taken[sock]) + [m]]
    {
      ok, p := rx.queues[sock] != [], Packet([], 0);
      if ok {
        p := rx.queues[sock][0];
        taken := taken[sock := taken[sock] + [Inboxes(rx)[sock][0]]];
        rx := rx.(queues := rx.queues[sock := rx.queues[sock][1..]], app := rx.app + multiset(p.chain));
        TakeConsistent(caps, total, old(rx), rx, old(taken), taken, came, calm, sock);
      }
    }

    /** The application frees an mbuf it holds. */
    method Free(m: Mbuf)
      requires Valid() && !broken && m in rx.app
      modifies this
      ensures Valid() && !broken && Inboxes(rx) == old(Inboxes(rx)) && hif == old(hif)
      ensures rx == old(rx).(pool := old(rx.pool) + multiset{m}, app := old(rx.app) - multiset{m})
      ensures came == old(came) && taken == old(taken) && calm == old(calm) && StayStuck(old(rx), rx, NONE)
    {
      rx := rx.(pool := rx.pool + multiset{m}, app := rx.app - multiset{m});
      FreeConsistent(caps, total, old(rx), rx, taken, came, calm, m);
    }

    /** winc1500_sock_close. A reply still to come is dropped by its session id; polling stays. */
    method Close(sock: nat)
      requires Valid() && !broken && sock < MAX_SOCKET
      modifies this
      ensures Valid() && !broken && hif == old(hif) && Inboxes(rx) == old(Inboxes(rx))[sock := []]
      ensures Closed(old(rx), rx, sock)
      ensures came == old(came)[sock := []] && taken == old(taken)[sock := []] && calm == old(calm)
      ensures StayStuck(old(rx), rx, sock)
    {
      rx := CloseRx(caps, rx, sock, total);
      CloseConsistent(caps, total, old(rx), rx, taken, came, calm, sock);
      came, taken := came[sock := []], taken[sock := []];
    }

    /** Any run, until the driver breaks. A reply comes only for a socket of which the firmware holds
        a request, and not while flow control is set; an mbuf is freed only by its owner. Once
        receiving has stalled it stays so, and a stuck socket stays stuck until it is closed or a
        reply of an earlier session of its slot comes. */
    method Run(ops: seq<Op>) returns (ghost trace: seq<State>)
      requires Valid()
      modifies this
      ensures Valid()
      ensures Traced(caps, ops, trace, old(Abs()), Abs()) && (|trace| == |ops| + 1 || broken)
      ensures Kept(old(Abs()), Abs(), ops, |ops|)
    {
      trace := [Abs()];
      ghost var s := Abs();
      for i := 0 to |ops|
        invariant Valid() && |trace| == i + 1 && Traced(caps, ops, trace, s, Abs()) && Kept(s, Abs(), ops, i)
      {
        if broken {
          return;
        }
        ghost var t := Abs();
        Step(ops[i]);
        KeptOn(s, t, Abs(), ops, i);
        TracedOn(caps, ops, trace, s, t, Abs());
        trace := trace + [Abs()];
      }
    }

    method Step(op: Op)
      requires Valid() && !broken
      modifies this
      ensures Valid() && Did(caps, op, old(Abs()), Abs()) && Stays(op, old(Abs()), Abs())
    {
      match op {
        case Poll(_, _) => StepPoll(op);
        case Data(sock, h, start, count, _, _) =>
          if MayReply(rx, sock) && Readable(h, start, count) { StepData(op); } else { StepSimply(op); }
        case NoData(sock, status, _, _) =>
          if MayReply(rx, sock) && status <= 0 { StepNoData(op); } else { StepSimply(op); }
        case Take(_) => StepTake(op);
        case Close(sock) => if sock < MAX_SOCKET { StepClose(op); } else { StepSimply(op); }
        case _ => StepSimply(op);
      }
    }

    /** Watching, freeing, replies of earlier sessions, and steps that cannot happen. */
    method StepSimply(op: Op)
      requires Valid() && !broken && Single(op, Abs())
      modifies this
      ensures Valid() && Did(caps, op, old(Abs()), Abs()) && Stays(op, old(Abs()), Abs())
    {
      ghost var s := Abs();
      match op {
        case Watch(sock) => if sock < MAX_SOCKET { Watch(sock); }
        case Free(m) => if m in rx.app { Free(m); }
        case Foreign(sock, h, data) => if sock < MAX_SOCKET && !rx.flow { Foreign(sock, h, data); }
        case _ =>
      }
      DidSimply(caps, op, s, Abs());
    }

    method StepPoll(op: Op)
      requires Valid() && !broken && op.Poll?
      modifies this
      ensures Valid() && Did(caps, op, old(Abs()), Abs()) && Stays(op, old(Abs()), Abs())
    {
      ghost var s := Abs();
      Poll(op.accept, op.offer);
      DidPoll(caps, op, s, Abs());
    }

    method StepData(op: Op)
      requires Valid() && !broken && op.Data? && MayReply(rx, op.sock) && Readable(op.hif, op.start, op.count)
      modifies this
      ensures Valid() && Did(caps, op, old(Abs()), Abs()) && Stays(op, old(Abs()), Abs())
    {
      ghost var s := Abs();
      Data(op.sock, op.hif, op.start, op.count, op.accept, op.offer);
      DidData(caps, op, s, Abs());
    }

    method StepNoData(op: Op)
      requires Valid() && !broken && op.NoData? && MayReply(rx, op.sock) && op.status <= 0
      modifies this
      ensures Valid() && Did(caps, op, old(Abs()), Abs()) && Stays(op, old(Abs()), Abs())
    {
      ghost var s := Abs();
      NoData(op.sock, op.status, op.accept, op.offer);
      DidNoData(caps, op, s, Abs());
    }

    method StepClose(op: Op)
      requires Valid() && !broken && op.Close? && op.sock < MAX_SOCKET
      modifies this
      ensures Valid() && Did(caps, op, old(Abs()), Abs()) && Stays(op, old(Abs()), Abs())
    {
      ghost var s := Abs();
      Close(op.sock);
      DidClose(caps, op, s, Abs());
    }

    method StepTake(op: Op)
      requires Valid() && !broken && op.Take?
      modifies this
      ensures Valid() && Did(caps, op, old(Abs()), Abs()) && Stays(op, old(Abs()), Abs())
    {
      ghost var s := Abs();
      var ok := op.sock < MAX_SOCKET;
      if ok {
        var p;
        ok, p := Take(op.sock);
        if ok { DidTake(caps, op, s, Abs(), p); }
      }
      if !ok { DidSimply(caps, op, s, Abs()); }
    }
  }
}
