/** The steps of a run of the WINC1500 receiver, and what each of them does. */
module WincSteps {
  import opened BitBytes
  import opened MbufLedger
  import opened WincRx
  import opened WincRead
  import opened WincLoop
  import opened WincAccounts

  datatype Op =
    | Watch(sock: nat)
    | Poll(accept: bool, offer: seq<Mbuf>)
    | Data(sock: nat, hif: Hif, start: nat, count: nat, accept: bool, offer: seq<Mbuf>)
    | NoData(sock: nat, status: int, accept: bool, offer: seq<Mbuf>)
    | Take(sock: nat)
    | Free(m: Mbuf)
    | Close(sock: nat)
    | Foreign(sock: nat, hif: Hif, data: bool)

  /** The step clears the pending flag of a socket: it is closed, or a reply of an earlier session
      comes. */
  predicate Frees(op: Op, s: nat) { (op.Close? || op.Foreign?) && op.sock == s }

  /** What is seen of the receiver: its state, the chip's window and RX-done signals, whether it has gone
      through a bad pointer, and the accounts. */
  datatype State = State(rx: Rx, hif: Hif, broken: bool, came: seq<seq<Arrival>>, taken: seq<seq<Message>>)

  /** A reply may come for this socket: the firmware holds a request, and flow control is off. */
  predicate MayReply(r: Rx, sock: nat) {
    sock < MAX_SOCKET && sock < |r.pending| && sock < |r.asked| && r.asked[sock] && !r.flow
  }

  /** `count` bytes at `start` are a payload in the window. */
  predicate Readable(h: Hif, start: nat, count: nat) {
    0 < count <= RX_SIZE && 0 < start && h.addr <= start && start + count <= h.addr + |h.window|
  }

  /** What a reply with data does to the receive state and the accounts. */
  ghost predicate DidReply(caps: Caps, r: Rx, r': Rx, broken: bool, came: seq<seq<Arrival>>, taken: seq<seq<Message>>,
                           came': seq<seq<Arrival>>, sock: nat, h: Hif, start: nat, count: nat, accept: bool)
    requires sock < |r.pending| && sock < |r.asked| && Readable(h, start, count)
  {
    var j := ReplyJob(caps, r, sock, h.window[start - h.addr..start - h.addr + count], accept);
    Replied(caps, r, j, broken, r', came, taken, came')
  }

  /** The steps with a single outcome. */
  function Simply(op: Op, s: State): State
    requires Sized(s)
  {
    match op
    case Watch(sock) => if sock < MAX_SOCKET then s.(rx := s.rx.(poll := s.rx.poll[sock := true])) else s
    case Free(m) =>
      if m in s.rx.app then s.(rx := s.rx.(pool := s.rx.pool + multiset{m}, app := s.rx.app - multiset{m})) else s
    case Foreign(sock, h, data) =>
      if sock < MAX_SOCKET && !s.rx.flow
      then s.(rx := s.rx.(pending := s.rx.pending[sock := false]), hif := Signalled(h, data)) else s
    case _ => s
  }

  predicate Sized(s: State) {
    && |s.rx.poll| == |s.rx.user| == |s.rx.pending| == |s.rx.asked| == |s.rx.queues| == MAX_SOCKET
    && |s.came| == |s.taken| == MAX_SOCKET
  }

  /** What a step does; a reply that cannot come does nothing. */
  ghost predicate Did(caps: Caps, op: Op, s: State, s': State) {
    && Sized(s)
    && match op
      case Watch(_) => s' == Simply(op, s)
      case Free(_) => s' == Simply(op, s)
      case Foreign(_, _, _) => s' == Simply(op, s)
      case Poll(accept, offer) =>
        Polls(caps, s.rx, s'.rx, accept, offer) && Undisturbed(s, s') && s'.rx.poll == s.rx.poll
      case Data(sock, h, start, count, accept, _) =>
        if MayReply(s.rx, sock) && Readable(h, start, count) then
          && DidReply(caps, s.rx, s'.rx, s'.broken, s.came, s.taken, s'.came, sock, h, start, count, accept)
          && s'.taken == s.taken && (!s'.broken ==> s'.hif == Signalled(h, true))
        else s' == s
      case NoData(sock, status, accept, offer) =>
        if MayReply(s.rx, sock) && status <= 0 then
          Passes(caps, s.rx, s'.rx, sock, status, accept, offer) && Undisturbed(s, s')
        else s' == s
      case Take(sock) =>
        if sock < MAX_SOCKET && s.rx.queues[sock] != [] then
          var p := s.rx.queues[sock][0];
          s' == s.(rx := s.rx.(queues := s.rx.queues[sock := s.rx.queues[sock][1..]],
                               app := s.rx.app + multiset(p.chain)),
                   taken := s.taken[sock := s.taken[sock] + [(p.len, Contents(s.rx.store, p.chain))]])
        else s' == s
      case Close(sock) =>
        if sock < MAX_SOCKET then
          Closed(s.rx, s'.rx, sock)
          && s' == s.(rx := s'.rx, came := s.came[sock := []], taken := s.taken[sock := []])
        else s' == s
  }

  /** Queues and inboxes, what the application holds, and the accounts are as they were. */
  ghost predicate Undisturbed(s: State, s': State) {
    && s' == s.(rx := s'.rx) && s'.rx.queues == s.rx.queues && s'.rx.app == s.rx.app
    && Inboxes(s'.rx) == Inboxes(s.rx)
  }

  lemma DidData(caps: Caps, op: Op, s: State, s': State)
    requires Sized(s) && op.Data? && MayReply(s.rx, op.sock) && Readable(op.hif, op.start, op.count)
    requires DidReply(caps, s.rx, s'.rx, s'.broken, s.came, s.taken, s'.came, op.sock, op.hif, op.start, op.count,
                      op.accept)
    requires s'.taken == s.taken && (!s'.broken ==> s'.hif == Signalled(op.hif, true))
    ensures Did(caps, op, s, s')
  {
  }

  lemma DidNoData(caps: Caps, op: Op, s: State, s': State)
    requires Sized(s) && op.NoData? && MayReply(s.rx, op.sock) && op.status <= 0
    requires Passes(caps, s.rx, s'.rx, op.sock, op.status, op.accept, op.offer) && Undisturbed(s, s')
    ensures Did(caps, op, s, s')
  {
  }

  lemma DidTake(caps: Caps, op: Op, s: State, s': State, p: Packet)
    requires Sized(s) && op.Take? && op.sock < MAX_SOCKET && s.rx.queues[op.sock] != []
    requires p == s.rx.queues[op.sock][0]
    requires s' == s.(rx := s.rx.(queues := s.rx.queues[op.sock := s.rx.queues[op.sock][1..]],
                                  app := s.rx.app + multiset(p.chain)),
                      taken := s.taken[op.sock := s.taken[op.sock] + [(p.len, Contents(s.rx.store, p.chain))]])
    ensures Did(caps, op, s, s')
  {
  }

  lemma DidClose(caps: Caps, op: Op, s: State, s': State)
    requires Sized(s) && op.Close? && op.sock < MAX_SOCKET && Closed(s.rx, s'.rx, op.sock)
    requires s' == s.(rx := s'.rx, came := s.came[op.sock := []], taken := s.taken[op.sock := []])
    ensures Did(caps, op, s, s')
  {
  }

  lemma DidPoll(caps: Caps, op: Op, s: State, s': State)
    requires Sized(s) && op.Poll? && Polls(caps, s.rx, s'.rx, op.accept, op.offer)
    requires Undisturbed(s, s') && s'.rx.poll == s.rx.poll
    ensures Did(caps, op, s, s')
  {
  }

  /** Watching, freeing, replies of earlier sessions, and steps that cannot happen. */
  ghost predicate Single(op: Op, s: State) {
    && Sized(s)
    && match op
      case Watch(_) => true
      case Free(_) => true
      case Foreign(_, _, _) => true
      case Poll(_, _) => false
      case Data(sock, h, start, count, _, _) => !(MayReply(s.rx, sock) && Readable(h, start, count))
      case NoData(sock, status, _, _) => !(MayReply(s.rx, sock) && status <= 0)
      case Take(sock) => sock >= MAX_SOCKET || s.rx.queues[sock] == []
      case Close(sock) => sock >= MAX_SOCKET
  }

  lemma DidSimply(caps: Caps, op: Op, s: State, s': State)
    requires Sized(s) && s' == Simply(op, s) && Single(op, s)
    ensures Did(caps, op, s, s')
  {
  }

  /** The states of a run from `s` to `t`, each step doing what it should. */
  ghost predicate Traced(caps: Caps, ops: seq<Op>, trace: seq<State>, s: State, t: State) {
    && 0 < |trace| <= |ops| + 1 && trace[0] == s && trace[|trace| - 1] == t
    && forall i :: 0 <= i < |trace| - 1 ==> Did(caps, ops[i], trace[i], trace[i + 1])
  }

  lemma TracedOn(caps: Caps, ops: seq<Op>, trace: seq<State>, s: State, t: State, u: State)
    requires Traced(caps, ops, trace, s, t) && |trace| <= |ops| && Did(caps, ops[|trace| - 1], t, u)
    ensures Traced(caps, ops, trace + [u], s, u)
  {
    var more := trace + [u];
    forall i | 0 <= i < |more| - 1 ensures Did(caps, ops[i], more[i], more[i + 1]) {
      assert more[i] == trace[i];
      if i + 1 < |trace| {
        assert Did(caps, ops[i], trace[i], trace[i + 1]);
      }
    }
  }

  // ---- Stuck and stalled ----

  /** A step keeps stuck sockets stuck but for the one it frees, and stalled receiving stalled. */
  ghost predicate Stays(op: Op, s: State, s': State) {
    && (!s'.broken ==> StayStuck(s.rx, s'.rx, if op.Close? || op.Foreign? then op.sock else NONE))
    && (Stalled(s.rx) ==> !s'.broken)
  }

  /** After `n` steps of a run: stalled receiving has stayed so, with its chain, and sockets that were
      stuck are so still unless freed. */
  ghost predicate Kept(s: State, s': State, ops: seq<Op>, n: nat) {
    && n <= |ops| && (s.broken ==> s'.broken)
    && (!s.broken && Stalled(s.rx) ==> !s'.broken && Stalled(s'.rx) && s'.rx.rxBuf == s.rx.rxBuf)
    && (!s'.broken ==>
      && |s.rx.pending| == |s.rx.asked| == |s'.rx.pending| == |s'.rx.asked|
      && forall i :: 0 <= i < |s.rx.pending| && Stuck(s.rx, i) ==> Stuck(s'.rx, i) || FreedBy(ops, n, i))
  }

  ghost predicate FreedBy(ops: seq<Op>, n: nat, s: nat)
    requires n <= |ops|
  {
    exists i :: 0 <= i < n && Frees(ops[i], s)
  }

  lemma KeptOn(s: State, t: State, u: State, ops: seq<Op>, n: nat)
    requires n < |ops| && !t.broken && Kept(s, t, ops, n) && Stays(ops[n], t, u)
    ensures Kept(s, u, ops, n + 1)
  {
    if !u.broken {
      forall i | 0 <= i < |s.rx.pending| && Stuck(s.rx, i) ensures Stuck(u.rx, i) || FreedBy(ops, n + 1, i) {
        if Stuck(t.rx, i) && !Stuck(u.rx, i) {
          assert Frees(ops[n], i);
        } else if !Stuck(t.rx, i) {
          var k :| 0 <= k < n && Frees(ops[k], i);
        }
      }
    }
  }
}
