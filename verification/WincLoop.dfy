/** Socket_ReadSocketData: the loop that copies a reply out of the chip's window, and the callback in
    it, with the states of `WincRead` as its invariant. */
module WincLoop {
  import opened BitBytes
  import opened MbufLedger
  import opened WincRx
  import opened WincRead

  /** The chip's receive window and the number of RX-done signals raised. */
  datatype Hif = Hif(addr: nat, window: seq<byte>, rxDone: nat)

  /** RX-done raised, or not. */
  function Signalled(h: Hif, done: bool): Hif { if done then h.(rxDone := h.rxDone + 1) else h }

  /** hif_receive with a working bus: the range must lie in the chip's window; reaching its end,
      or the caller's word, raises RX-done. */
  method HifReceive(h: Hif, addr: nat, size: nat, isDone: bool) returns (ok: bool, chunk: seq<byte>, h': Hif)
    ensures h' == h.(rxDone := h'.rxDone)
    ensures addr > 0 && size > 0 ==> (ok <==> h.addr <= addr && addr + size <= h.addr + |h.window|)
    ensures ok && addr > 0 && size > 0 ==> chunk == h.window[addr - h.addr..addr - h.addr + size]
    ensures addr > 0 && size > 0 ==>
      h'.rxDone == h.rxDone + if ok && (isDone || addr + size == h.addr + |h.window|) then 1 else 0
    ensures addr == 0 || size == 0 ==> ok == isDone && h'.rxDone == h.rxDone + if isDone then 1 else 0
  {
    chunk, h' := [], h;
    if addr == 0 || size == 0 {
      ok := isDone;
      if isDone { h' := h.(rxDone := h.rxDone + 1); }
      return;
    }
    ok := !(size > |h.window|) && !(addr < h.addr || addr + size > h.addr + |h.window|);
    if ok {
      chunk := h.window[addr - h.addr..addr - h.addr + size];
      if h.addr + |h.window| == addr + size || isDone {
        h' := h.(rxDone := h.rxDone + 1);
      }
    }
  }

  lemma PartOfWindow(window: seq<byte>, at: nat, payload: seq<byte>, k: nat, n: nat, bytes: seq<byte>)
    requires at + |payload| <= |window| && payload == window[at..at + |payload|] && k + n <= |payload|
    requires bytes == window[at + k..at + k + n]
    ensures bytes == payload[k..k + n]
  {
    var part := payload[k..k + n];
    forall i | 0 <= i < n ensures bytes[i] == part[i] {
      assert payload[k + i] == window[at + (k + i)];
    }
  }

  /** The payload lies in the window. */
  predicate InWindow(h: Hif, start: nat, payload: seq<byte>) {
    && 0 < start && h.addr <= start && start + |payload| <= h.addr + |h.window|
    && payload == h.window[start - h.addr..start - h.addr + |payload|]
  }

  /** A chunk of the payload; RX-done exactly if it is the last. */
  method ReadChunk(h: Hif, addr: nat, left: nat, size: nat, ghost start: nat, ghost k: nat, ghost payload: seq<byte>)
    returns (bytes: seq<byte>, h': Hif)
    requires InWindow(h, start, payload) && addr == start + k && k + left == |payload| && left > 0 && size > 0
    ensures 0 < |bytes| == Min(left, size) && bytes == payload[k..k + |bytes|]
    ensures h' == Signalled(h, |bytes| == left)
  {
    var read, setRxDone := left, true;
    if read > size {
      setRxDone, read := false, size;
    }
    ghost var at := start - h.addr;
    var ok;
    ok, bytes, h' := HifReceive(h, addr, read, setRxDone);
    assert addr - h.addr == at + k;
    PartOfWindow(h.window, at, payload, k, read, bytes);
  }

  /** A turn with more to follow. */
  method ReadMore(caps: Caps, r: Rx, sock: nat, bytes: seq<byte>, accept: bool,
                  ghost j: Job, ghost k: nat, ghost done: seq<byte>, ghost total: Bag)
    returns (fault: bool, r': Rx, ghost k': nat, ghost done': seq<byte>)
    requires Ongoing(j, r, k, done, total) && caps == j.caps && sock == j.sock && accept == j.accept
    requires Fits(j, r, k, bytes) && k + |bytes| < |j.payload|
    ensures k' == k + |bytes| && (fault ==> Overrun(j))
    ensures !fault ==> Ongoing(j, r', k', done', total)
  {
    k', done' := k + |bytes|, Done(j, k, done, bytes);
    var put := Put(r, sock, bytes);
    BeforeMore(j, r, k, done, bytes, put, total);
    fault, r' := RecvMore(caps, put, sock, |bytes|, accept, total);
    if fault {
      NoMore(j, r, k, done, bytes, total);
    } else {
      AfterMore(j, r, k, k', done, bytes, done', put, r', total);
    }
  }

  /** The last turn. */
  method ReadLast(caps: Caps, r: Rx, sock: nat, bytes: seq<byte>, accept: bool, offer: seq<Mbuf>,
                  ghost j: Job, ghost k: nat, ghost done: seq<byte>, ghost total: Bag)
    returns (r': Rx, ghost p: Packet)
    requires Ongoing(j, r, k, done, total) && caps == j.caps && sock == j.sock && accept == j.accept
    requires Fits(j, r, k, bytes) && k + |bytes| == |j.payload|
    ensures Valid(r', total) && Idle(r', caps) && Delivered(j, r', p) && (offer == [] ==> r'.flow)
  {
    OngoingFacts(j, r, k, done, total);
    LastDelivers(j, r, k, done, bytes, total);
    p := LastPacket(r, |bytes|);
    r' := RecvLast(caps, Put(r, sock, bytes), sock, |bytes|, accept, offer, total);
  }

  /** Read what fits the socket's buffer. */
  method Fetch(r: Rx, h: Hif, sock: nat, addr: nat, left: nat,
               ghost j: Job, ghost start: nat, ghost k: nat, ghost done: seq<byte>, ghost total: Bag)
    returns (bytes: seq<byte>, h': Hif)
    requires sock == j.sock && InWindow(h, start, j.payload) && addr == start + k && k + left == |j.payload| && left > 0
    requires Ongoing(j, r, k, done, total)
    ensures Fits(j, r, k, bytes) && 0 < |bytes| <= left
    ensures h' == Signalled(h, |bytes| == left)
  {
    OngoingFacts(j, r, k, done, total);
    bytes, h' := ReadChunk(h, addr, left, r.user[sock].size, start, k, j.payload);
  }

  /** One turn: read what fits the socket's buffer and run the callback. */
  method ReadOnce(caps: Caps, r: Rx, h: Hif, sock: nat, addr: nat, left: nat, accept: bool, offer: seq<Mbuf>,
                  ghost j: Job, ghost start: nat, ghost k: nat, ghost done: seq<byte>, ghost total: Bag)
    returns (fault: bool, r': Rx, h': Hif, n: nat, ghost k': nat, ghost done': seq<byte>, ghost p: Packet)
    requires caps == j.caps && sock == j.sock && accept == j.accept && InWindow(h, start, j.payload)
    requires addr == start + k && k + left == |j.payload| && left > 0 && Ongoing(j, r, k, done, total)
    ensures 0 < n <= left && k' == k + n && h' == Signalled(h, n == left)
    ensures fault ==> n < left && Overrun(j)
    ensures !fault && n < left ==> Ongoing(j, r', k', done', total)
    ensures n == left ==> Over(j, r', false, p, total) && (offer == [] ==> r'.flow)
  {
    var bytes;
    bytes, h' := Fetch(r, h, sock, addr, left, j, start, k, done, total);
    n, k', done', p, fault := |bytes|, k + |bytes|, [], Packet([], 0), false;
    if n < left {
      fault, r', k', done' := ReadMore(caps, r, sock, bytes, accept, j, k, done, total);
    } else {
      r', p := ReadLast(caps, r, sock, bytes, accept, offer, j, k, done, total);
    }
  }

  /** Socket_ReadSocketData: copy a payload, chunk by chunk, to wherever the socket points, running
      the callback after each. */
  method ReadSocketData(caps: Caps, r: Rx, h: Hif, sock: nat, start: nat, count: nat, accept: bool, offer: seq<Mbuf>,
                        ghost j: Job, ghost total: Bag)
    returns (fault: bool, r': Rx, h': Hif, ghost p: Packet)
    requires j.caps == caps && j.rx == r && j.sock == sock && j.accept == accept && count == |j.payload|
    requires Arrived(j, total) && !r.asked[sock] && InWindow(h, start, j.payload)
    ensures fault <==> Overrun(j)
    ensures !fault ==> Valid(r', total) && Idle(r', caps) && Delivered(j, r', p)
    ensures h' == Signalled(h, !fault)
    ensures !fault && offer == [] ==> r'.flow
  {
    r', h' := r, h;
    var left, addr := count, start;
    ghost var k, done := 0, [];
    while true
      invariant 0 < left <= count && addr == start + k && k + left == count && h' == h
      invariant Ongoing(j, r', k, done, total)
      decreases left
    {
      var n;
      fault, r', h', n, k, done, p :=
        ReadOnce(caps, r', h', sock, addr, left, accept, offer, j, start, k, done, total);
      if fault || n == left {
        return;
      }
      left, addr := left - n, addr + n;
    }
  }
}
