/** Socket_ReadSocketData over the callback of `WincRx`: where the bytes of a reply end up, for every
    place the socket's buffer may point at and every outcome of the request sent in between. */
module WincRead {
  import opened BitBytes
  import opened MbufLedger
  import opened WincRx

  /** A reply as it arrives: the receive state, the socket, its payload, and whether the firmware
      will accept the request that the first callback sends. */
  datatype Job = Job(caps: Caps, rx: Rx, sock: nat, payload: seq<byte>, accept: bool)

  function Min(a: nat, b: nat): nat { if a < b then a else b }

  /** The chain is untouched with the cursor at its start, the socket is polled and has a buffer,
      and its flag and its request have just been cleared. */
  ghost predicate Arrived(j: Job, total: Bag) {
    && Valid(j.rx, total) && Stock(j.caps, total) && j.sock < MAX_SOCKET && j.rx.poll[j.sock]
    && Fresh(j.rx, j.caps) && j.rx.cur == At(0) && !j.rx.pending[j.sock] && !j.rx.asked[j.sock]
    && j.rx.user[j.sock].Into? && j.rx.user[j.sock].size > 0 && 0 < |j.payload| <= RX_SIZE
  }

  /** A chunk copied to where the socket points. */
  function Put(r: Rx, sock: nat, bytes: seq<byte>): Rx
    requires sock < |r.user| && r.user[sock].Into?
  {
    r.(store := Copied(r.store, r.user[sock].m, bytes))
  }

  predicate Usable(j: Job) {
    j.sock < |j.rx.user| && j.rx.user[j.sock].Into? && j.rx.rxBuf != []
  }

  /** The length of the first chunk, and the state once it is copied. */
  function Chunk1(j: Job): nat
    requires Usable(j)
  {
    Min(|j.payload|, j.rx.user[j.sock].size)
  }

  function Base(j: Job): Rx
    requires Usable(j)
  {
    Put(j.rx, j.sock, j.payload[..Chunk1(j)])
  }

  /** The data area of the chain's first mbuf once the first chunk is copied. */
  function Area(j: Job): seq<byte>
    requires Usable(j)
  {
    Memory(Base(j).store, j.rx.rxBuf[0])
  }

  /** The length of the second chunk when the request is refused: the socket then points at the
      chain's second mbuf. */
  function Chunk2(j: Job): nat
    requires Usable(j) && |j.rx.rxBuf| > 1
  {
    Min(|j.payload| - Chunk1(j), Cap(j.caps, j.rx.rxBuf[1]))
  }

  /** Room behind the first mbuf of the chain. */
  function Behind(j: Job): int
    requires Usable(j)
  {
    Space(j.caps, j.rx.rxBuf) - Cap(j.caps, j.rx.rxBuf[0])
  }

  /** The reply runs past the end of the chain. */
  predicate Overrun(j: Job)
    requires Usable(j)
  {
    && Chunk1(j) < |j.payload|
    && (|j.rx.rxBuf| == 1 || |j.payload| - (if j.accept then Chunk1(j) else Chunk1(j) + Chunk2(j)) > Behind(j))
  }

  /** What the queued packet holds: the start of the first mbuf's data area, as long as the first
      chunk, and the rest of the payload behind it. After a refusal the second chunk is noted over
      the first, which is cut or stretched to its length, and its own bytes are lost. */
  function Outcome(j: Job): seq<byte>
    requires Usable(j) && !Overrun(j)
  {
    var n := Chunk1(j);
    if n == |j.payload| then Front(Area(j), n)
    else if j.accept then Front(Area(j), n) + j.payload[n..]
    else Front(Area(j), Chunk2(j)) + j.payload[n + Chunk2(j)..]
  }

  // ---- States of the loop ----

  ghost predicate EmptyFrom(store: Store, chain: seq<Mbuf>, c: nat) {
    forall i :: c <= i < |chain| ==> Length(store, chain[i]) == 0
  }

  /** Cursor and socket are at the first empty mbuf, and those before it hold `done`. */
  ghost predicate Receiving(j: Job, r: Rx, done: seq<byte>) {
    && r.polling && OnChain(r) && Target(j.caps, r, j.sock, r.cur.k)
    && Contents(r.store, r.rxBuf[..r.cur.k]) == done && EmptyFrom(r.store, r.rxBuf, r.cur.k)
  }

  /** After a refused request: the socket is at the second mbuf, the cursor still at the first. */
  ghost predicate Refused(j: Job, r: Rx) {
    && Usable(j) && !r.polling && r.cur == At(0) && Target(j.caps, r, j.sock, 1)
    && Memory(r.store, r.rxBuf[0]) == Area(j) && EmptyFrom(r.store, r.rxBuf, 1)
  }

  /** Nothing but the socket's own state and the chain has changed since the first chunk. */
  ghost predicate Apart(j: Job, r: Rx) {
    && Usable(j) && r.rxBuf == j.rx.rxBuf && r.queues == j.rx.queues && r.app == j.rx.app && r.poll == j.rx.poll
    && SameBytes(Base(j).store, r.store, Held(j.rx)) && OnlySocket(j.rx, r, j.sock)
  }

  /** Only this socket's buffer and flags may differ. */
  ghost predicate OnlySocket(r: Rx, r': Rx, sock: nat) {
    && |r'.user| == |r.user| && |r'.pending| == |r.pending| && |r'.asked| == |r.asked|
    && (forall s :: 0 <= s < |r.user| && s != sock ==> r'.user[s] == r.user[s])
    && (forall s :: 0 <= s < |r.pending| && s != sock ==> r'.pending[s] == r.pending[s])
    && (forall s :: 0 <= s < |r.asked| && s != sock ==> r'.asked[s] == r.asked[s])
  }

  lemma {:induction false} ExtendContents(a: Store, b: Store, chain: seq<Mbuf>, c: nat)
    requires c < |chain| && forall i :: 0 <= i < c ==> Bytes(a, chain[i]) == Bytes(b, chain[i])
    ensures Contents(b, chain[..c + 1]) == Contents(a, chain[..c]) + Bytes(b, chain[c])
  {
    assert chain[..c + 1][..c] == chain[..c];
    ContentsFrame(a, b, chain[..c]);
  }

  /** A chunk put where the socket points and noted at the cursor. */
  ghost function Noted(j: Job, r: Rx, bytes: seq<byte>): Rx
    requires j.sock < |r.user| && r.user[j.sock].Into? && OnChain(r)
  {
    Account(Put(r, j.sock, bytes), |bytes|)
  }

  lemma FillContents(store: Store, chain: seq<Mbuf>, c: nat, bytes: seq<byte>)
    requires c < |chain| && Distinct(chain)
    ensures Contents(Sized(Copied(store, chain[c], bytes), chain[c], |bytes|), chain[..c + 1])
         == Contents(store, chain[..c]) + bytes
  {
    CopiedAndSized(store, chain[c], bytes);
    ExtendContents(store, Sized(Copied(store, chain[c], bytes), chain[c], |bytes|), chain, c);
  }

  /** What the chain holds up to the cursor after a turn. */
  lemma TurnContents(j: Job, r: Rx, bytes: seq<byte>, done: seq<byte>)
    requires Receiving(j, r, done) && Distinct(r.rxBuf)
    ensures Contents(Noted(j, r, bytes).store, r.rxBuf[..r.cur.k + 1]) == done + bytes
  {
    FillContents(r.store, r.rxBuf, r.cur.k, bytes);
  }

  lemma FirstContents(store: Store, chain: seq<Mbuf>)
    requires chain != []
    ensures Contents(store, chain[..1]) == Bytes(store, chain[0])
  {
    assert chain[..1][..0] == [] && chain[..1][0] == chain[0];
    assert Contents(store, chain[..1][..0]) == [];
  }

  // ---- Turns with more to follow ----

  /** The callback of a turn with more to follow. */
  ghost predicate Turned(j: Job, r: Rx, bytes: seq<byte>, r': Rx) {
    && j.sock < |r.user| && r.user[j.sock].Into?
    && Moved(j.caps, Put(r, j.sock, bytes), r', j.sock, |bytes|, j.accept)
  }

  /** The next mbuf is empty, so there is room in it. */
  ghost predicate NextFree(j: Job, r: Rx, bytes: seq<byte>)
    requires j.sock < |r.user| && r.user[j.sock].Into? && OnChain(r)
  {
    r.cur.k + 1 < |r.rxBuf| ==> Room(j.caps, Noted(j, r, bytes).store, r.rxBuf[r.cur.k + 1]) > 0
  }

  lemma NextIsFree(j: Job, r: Rx, bytes: seq<byte>, total: Bag)
    requires Valid(r, total) && Stock(j.caps, total) && j.sock < MAX_SOCKET && r.user[j.sock].Into? && OnChain(r)
    requires EmptyFrom(r.store, r.rxBuf, r.cur.k + 1)
    ensures NextFree(j, r, bytes)
  {
    ChainFacts(r, j.caps, total);
  }

  /** Copying a chunk leaves the callback all it needs. */
  lemma ReadyToMove(j: Job, r: Rx, bytes: seq<byte>, total: Bag)
    requires Valid(r, total) && Stock(j.caps, total) && j.sock < MAX_SOCKET && r.user[j.sock].Into? && OnChain(r)
    requires EmptyFrom(r.store, r.rxBuf, r.cur.k + 1)
    ensures var p := Put(r, j.sock, bytes);
      && Valid(p, total) && OnChain(p) && p.poll == r.poll && p.cur == r.cur && p.rxBuf == r.rxBuf
      && (p.cur.k + 1 < |p.rxBuf| ==> Room(j.caps, Account(p, |bytes|).store, p.rxBuf[p.cur.k + 1]) > 0)
  {
    NextIsFree(j, r, bytes, total);
  }

  /** What a turn with more to follow leaves. */
  lemma TurnFacts(j: Job, r: Rx, bytes: seq<byte>, r': Rx)
    requires Turned(j, r, bytes, r')
    ensures OnChain(r) && r.cur.k + 1 < |r.rxBuf| && j.sock < |r.pending| && j.sock < |r'.pending|
    ensures r'.rxBuf == r.rxBuf && r'.store == Noted(j, r, bytes).store && r'.pktLen == r.pktLen + |bytes|
    ensures r'.queues == r.queues && r'.app == r.app && r'.poll == r.poll && OnlySocket(r, r', j.sock)
    ensures r'.user[j.sock] == Into(r.rxBuf[r.cur.k + 1], Room(j.caps, r'.store, r.rxBuf[r.cur.k + 1]))
    ensures r'.polling <==> r.pending[j.sock] || j.accept
    ensures r'.cur == if r'.polling then At(r.cur.k + 1) else r.cur
    ensures r'.pending[j.sock]
    ensures r'.asked[j.sock] == if r.pending[j.sock] then r.asked[j.sock] else r.asked[j.sock] || j.accept
  {
  }

  /** A full mbuf extends what has been received. */
  lemma TurnAtCursor(j: Job, r: Rx, bytes: seq<byte>, r': Rx, done: seq<byte>, done': seq<byte>)
    requires Receiving(j, r, done) && Turned(j, r, bytes, r') && r.pending[j.sock] && Distinct(r.rxBuf)
    requires done' == done + bytes
    ensures Receiving(j, r', done') && r'.cur == At(r.cur.k + 1)
  {
    TurnFacts(j, r, bytes, r');
    TurnContents(j, r, bytes, done);
  }

  /** The first turn: an accepted request moves socket and cursor on, a refused one only the
      socket. */
  lemma FirstTurn(j: Job, r': Rx, total: Bag)
    requires Arrived(j, total) && Turned(j, j.rx, j.payload[..Chunk1(j)], r') && Distinct(j.rx.rxBuf)
    ensures j.accept ==> Receiving(j, r', Front(Area(j), Chunk1(j))) && r'.cur == At(1)
    ensures !j.accept ==> Refused(j, r')
  {
    TurnFacts(j, j.rx, j.payload[..Chunk1(j)], r');
    FirstContents(r'.store, r'.rxBuf);
  }

  /** The turn after a refusal: the chunk goes to the second mbuf, and is noted in the first. */
  lemma TurnPastRefusal(j: Job, r: Rx, bytes: seq<byte>, r': Rx, done: seq<byte>)
    requires Refused(j, r) && Turned(j, r, bytes, r') && r.pending[j.sock] && Distinct(r.rxBuf)
    requires done == Front(Area(j), |bytes|)
    ensures Receiving(j, r', done) && r'.cur == At(1)
  {
    TurnFacts(j, r, bytes, r');
    FirstContents(r'.store, r'.rxBuf);
  }

  // ---- The loop ----

  /** What is still to come fits the room exactly if the whole reply does not run over, and completes
      its outcome. */
  ghost predicate Level(over: bool, out: seq<byte>, room: int, payload: seq<byte>, k: nat, done: seq<byte>)
    requires k <= |payload|
  {
    (over <==> |payload| - k > room) && (!over ==> done + payload[k..] == out)
  }

  ghost function Final(j: Job): seq<byte>
    requires Usable(j)
  {
    if Overrun(j) then [] else Outcome(j)
  }

  /** The room from the `c`-th mbuf of the chain on. */
  function RoomFrom(j: Job, c: nat): int
    requires c <= |j.rx.rxBuf|
  {
    Space(j.caps, j.rx.rxBuf) - Space(j.caps, j.rx.rxBuf[..c])
  }

  ghost predicate Balance(j: Job, c: nat, k: nat, done: seq<byte>)
    requires Usable(j) && c <= |j.rx.rxBuf| && k <= |j.payload|
  {
    Level(Overrun(j), Final(j), RoomFrom(j, c), j.payload, k, done)
  }

  /** The request for more was refused, and only the first chunk has been read. */
  predicate PastRefusal(j: Job, k: nat)
    requires Usable(j)
  {
    !j.accept && k == Chunk1(j)
  }

  /** With `k` bytes read, 0 < k. */
  ghost predicate Underway(j: Job, r: Rx, k: nat, done: seq<byte>) {
    && Apart(j, r) && Chunk1(j) <= k < |j.payload| && r.pktLen == k
    && j.sock < |r.pending| && j.sock < |r.asked| && r.pending[j.sock] && r.asked[j.sock] == j.accept
    && if PastRefusal(j, k) then Refused(j, r) else Receiving(j, r, done) && r.cur.k > 0 && Balance(j, r.cur.k, k, done)
  }

  ghost predicate Midway(j: Job, r: Rx, k: nat, done: seq<byte>) {
    if k == 0 then r == j.rx && j.payload != [] else Underway(j, r, k, done)
  }

  /** A chunk put into one mbuf and noted in another changes no third one. */
  lemma NotedElsewhere(store: Store, x: Mbuf, bytes: seq<byte>, y: Mbuf, m: Mbuf)
    requires m != y && (m != x || bytes == [])
    ensures Bytes(Sized(Copied(store, x, bytes), y, |bytes|), m) == Bytes(store, m)
  {
  }

  lemma ApartFirst(j: Job, r': Rx, total: Bag)
    requires Arrived(j, total) && Turned(j, j.rx, j.payload[..Chunk1(j)], r')
    ensures Apart(j, r')
  {
    TurnFacts(j, j.rx, j.payload[..Chunk1(j)], r');
    HeldApart(j.rx, j.caps, total);
  }

  /** Held mbufs are not touched by a turn inside the chain. */
  lemma HeldKept(j: Job, r: Rx, bytes: seq<byte>, total: Bag)
    requires Arrived(j, total) && Apart(j, r) && OnChain(r) && j.sock < |r.user| && r.user[j.sock].Into?
    requires r.user[j.sock].m in r.rxBuf
    ensures SameBytes(Base(j).store, Noted(j, r, bytes).store, Held(j.rx))
  {
    HeldApart(j.rx, j.caps, total);
    forall m | m in Held(j.rx) ensures Bytes(Noted(j, r, bytes).store, m) == Bytes(Base(j).store, m) {
      NotedElsewhere(r.store, r.user[j.sock].m, bytes, r.rxBuf[r.cur.k], m);
    }
  }

  lemma ApartNext(j: Job, r: Rx, bytes: seq<byte>, r': Rx, total: Bag)
    requires Arrived(j, total) && Apart(j, r) && Turned(j, r, bytes, r') && r.user[j.sock].m in r.rxBuf
    ensures Apart(j, r')
  {
    TurnFacts(j, r, bytes, r');
    HeldKept(j, r, bytes, total);
  }

  lemma BalanceFirst(j: Job, k: nat, done: seq<byte>)
    requires Usable(j) && k == Chunk1(j) < |j.payload| && |j.rx.rxBuf| > 1 && j.accept && done == Front(Area(j), k)
    ensures Balance(j, 1, k, done)
  {
    SpaceSplit(j.caps, j.rx.rxBuf, 0);
  }

  lemma BalancePastRefusal(j: Job, n2: nat, k: nat, done: seq<byte>)
    requires Usable(j) && |j.rx.rxBuf| > 1 && !j.accept && k == Chunk1(j) + n2 < |j.payload|
    requires n2 == Cap(j.caps, j.rx.rxBuf[1]) && done == Front(Area(j), n2)
    ensures Balance(j, 1, k, done)
  {
    SpaceSplit(j.caps, j.rx.rxBuf, 0);
  }

  lemma SplitTail(done: seq<byte>, payload: seq<byte>, k: nat, n: nat)
    requires k + n <= |payload|
    ensures (done + payload[k..k + n]) + payload[k + n..] == done + payload[k..]
  {
  }

  lemma LevelStep(over: bool, out: seq<byte>, room: int, payload: seq<byte>, k: nat, k': nat, done: seq<byte>,
                  bytes: seq<byte>, done': seq<byte>)
    requires k' == k + |bytes| <= |payload| && Level(over, out, room, payload, k, done)
    requires bytes == payload[k..k + |bytes|] && done' == done + bytes
    ensures Level(over, out, room - |bytes|, payload, k', done')
  {
    SplitTail(done, payload, k, |bytes|);
  }

  lemma BalanceStep(j: Job, c: nat, k: nat, k': nat, done: seq<byte>, bytes: seq<byte>, done': seq<byte>)
    requires Usable(j) && c < |j.rx.rxBuf| && k' == k + |bytes| <= |j.payload| && Balance(j, c, k, done)
    requires |bytes| == Cap(j.caps, j.rx.rxBuf[c]) && bytes == j.payload[k..k + |bytes|] && done' == done + bytes
    ensures Balance(j, c + 1, k', done')
  {
    SpaceSplit(j.caps, j.rx.rxBuf, c);
    assert RoomFrom(j, c + 1) == RoomFrom(j, c) - |bytes|;
    LevelStep(Overrun(j), Final(j), RoomFrom(j, c), j.payload, k, k', done, bytes, done');
  }

  lemma BalanceLast(j: Job, c: nat, k: nat, done: seq<byte>)
    requires Usable(j) && c < |j.rx.rxBuf| && k <= |j.payload| && Balance(j, c, k, done)
    requires |j.payload| - k <= Cap(j.caps, j.rx.rxBuf[c])
    ensures !Overrun(j) && Outcome(j) == done + j.payload[k..]
  {
    RoomAtCursor(j.caps, j.rx.rxBuf, c);
  }

  lemma RefusalLast(j: Job, n: nat)
    requires Usable(j) && |j.rx.rxBuf| > 1 && !j.accept && 0 < n <= Cap(j.caps, j.rx.rxBuf[1])
    requires Chunk1(j) + n == |j.payload|
    ensures !Overrun(j) && Outcome(j) == Front(Area(j), n)
  {
    RoomAtCursor(j.caps, j.rx.rxBuf, 0);
    assert j.payload[|j.payload|..] == [];
  }

  /** What a turn adds to what the chain holds. */
  ghost function Done(j: Job, k: nat, done: seq<byte>, bytes: seq<byte>): seq<byte>
    requires Usable(j)
  {
    if k == 0 then Front(Area(j), Chunk1(j)) else if PastRefusal(j, k) then Front(Area(j), |bytes|) else done + bytes
  }

  /** The bytes of a turn: as many as fit the socket's buffer. */
  ghost predicate Fits(j: Job, r: Rx, k: nat, bytes: seq<byte>) {
    && j.sock < |r.user| && r.user[j.sock].Into? && k + |bytes| <= |j.payload| && bytes == j.payload[k..k + |bytes|]
    && |bytes| == Min(|j.payload| - k, r.user[j.sock].size)
  }

  lemma NextFirst(j: Job, r': Rx, k': nat, total: Bag)
    requires Arrived(j, total) && k' == Chunk1(j) < |j.payload| && Turned(j, j.rx, j.payload[..k'], r')
    ensures Underway(j, r', k', Front(Area(j), k'))
  {
    ChainFacts(j.rx, j.caps, total);
    TurnFacts(j, j.rx, j.payload[..k'], r');
    ApartFirst(j, r', total);
    FirstTurn(j, r', total);
    if j.accept { BalanceFirst(j, k', Front(Area(j), k')); }
  }

  lemma NextPastRefusal(j: Job, r: Rx, k: nat, k': nat, bytes: seq<byte>, done': seq<byte>, r': Rx, total: Bag)
    requires Arrived(j, total) && Underway(j, r, k, []) && PastRefusal(j, k) && Fits(j, r, k, bytes)
    requires k' == k + |bytes| < |j.payload| && Turned(j, r, bytes, r') && done' == Front(Area(j), |bytes|)
    ensures Underway(j, r', k', done')
  {
    ChainFacts(j.rx, j.caps, total);
    TurnFacts(j, r, bytes, r');
    ApartNext(j, r, bytes, r', total);
    TurnPastRefusal(j, r, bytes, r', done');
    BalancePastRefusal(j, |bytes|, k', done');
  }

  lemma NextAtCursor(j: Job, r: Rx, k: nat, k': nat, done: seq<byte>, bytes: seq<byte>, done': seq<byte>, r': Rx,
                     total: Bag)
    requires Arrived(j, total) && Underway(j, r, k, done) && !PastRefusal(j, k) && Fits(j, r, k, bytes)
    requires k' == k + |bytes| < |j.payload| && done' == done + bytes && Turned(j, r, bytes, r')
    ensures Underway(j, r', k', done')
  {
    TurnFacts(j, r, bytes, r');
    assert |bytes| > 0 by {
      ChainFacts(j.rx, j.caps, total);
    }
    assert Apart(j, r') by {
      ApartNext(j, r, bytes, r', total);
    }
    assert Receiving(j, r', done') && r'.cur == At(r.cur.k + 1) by {
      ChainFacts(j.rx, j.caps, total);
      TurnAtCursor(j, r, bytes, r', done, done');
    }
    BalanceStep(j, r.cur.k, k, k', done, bytes, done');
  }

  // ---- The last turn, and running past the chain ----

  /** These bytes, put and noted, complete the packet and change no held mbuf. */
  ghost predicate Completes(j: Job, r: Rx, bytes: seq<byte>) {
    && Usable(j) && !Overrun(j) && j.sock < |r.user| && r.user[j.sock].Into? && OnChain(r)
    && r.pktLen + |bytes| == |j.payload|
    && Contents(Noted(j, r, bytes).store, r.rxBuf[..r.cur.k + 1]) == Outcome(j)
    && SameBytes(Base(j).store, Noted(j, r, bytes).store, Held(j.rx))
  }

  lemma LastFirst(j: Job, total: Bag)
    requires Arrived(j, total) && Chunk1(j) == |j.payload|
    ensures Completes(j, j.rx, j.payload)
  {
    assert j.payload[..Chunk1(j)] == j.payload;
    HeldApart(j.rx, j.caps, total);
    FirstContents(Noted(j, j.rx, j.payload).store, j.rx.rxBuf);
  }

  lemma RefusedContents(j: Job, r: Rx, bytes: seq<byte>)
    requires Refused(j, r) && Distinct(r.rxBuf)
    ensures Contents(Noted(j, r, bytes).store, r.rxBuf[..1]) == Front(Area(j), |bytes|)
  {
    FirstContents(Noted(j, r, bytes).store, r.rxBuf);
  }

  lemma LastPastRefusal(j: Job, r: Rx, k: nat, bytes: seq<byte>, total: Bag)
    requires Arrived(j, total) && Underway(j, r, k, []) && PastRefusal(j, k) && Fits(j, r, k, bytes)
    requires k + |bytes| == |j.payload|
    ensures Completes(j, r, bytes)
  {
    ChainFacts(j.rx, j.caps, total);
    RefusalLast(j, |bytes|);
    HeldKept(j, r, bytes, total);
    RefusedContents(j, r, bytes);
  }

  lemma LastAtCursor(j: Job, r: Rx, k: nat, done: seq<byte>, bytes: seq<byte>, total: Bag)
    requires Arrived(j, total) && Underway(j, r, k, done) && !PastRefusal(j, k) && Fits(j, r, k, bytes)
    requires k + |bytes| == |j.payload|
    ensures Completes(j, r, bytes)
  {
    ChainFacts(j.rx, j.caps, total);
    BalanceLast(j, r.cur.k, k, done);
    HeldKept(j, r, bytes, total);
    TurnContents(j, r, bytes, done);
    LastBytes(j.payload, k, bytes);
  }

  lemma LastBytes(payload: seq<byte>, k: nat, bytes: seq<byte>)
    requires k + |bytes| == |payload| && bytes == payload[k..k + |bytes|]
    ensures bytes == payload[k..]
  {
  }

  lemma RoomAtCursor(caps: Caps, chain: seq<Mbuf>, c: nat)
    requires c < |chain|
    ensures Space(caps, chain) - Space(caps, chain[..c]) >= Cap(caps, chain[c])
    ensures c + 1 == |chain| ==> Space(caps, chain) - Space(caps, chain[..c]) == Cap(caps, chain[c])
  {
    SpaceSplit(caps, chain, c);
    SpaceSplit(caps, chain, c + 1);
    if c + 1 == |chain| {
      assert chain[..c + 1] == chain;
    }
  }

  lemma LastTurn(j: Job, r: Rx, k: nat, done: seq<byte>, bytes: seq<byte>, total: Bag)
    requires Arrived(j, total) && Midway(j, r, k, done) && Fits(j, r, k, bytes) && k + |bytes| == |j.payload|
    ensures Completes(j, r, bytes)
  {
    if k == 0 {
      assert bytes == j.payload;
      LastFirst(j, total);
    } else if PastRefusal(j, k) {
      LastPastRefusal(j, r, k, bytes, total);
    } else {
      LastAtCursor(j, r, k, done, bytes, total);
    }
  }

  lemma NextTurn(j: Job, r: Rx, k: nat, k': nat, done: seq<byte>, bytes: seq<byte>, done': seq<byte>, r': Rx,
                 total: Bag)
    requires Arrived(j, total) && Midway(j, r, k, done) && Fits(j, r, k, bytes) && k' == k + |bytes| < |j.payload|
    requires Turned(j, r, bytes, r') && done' == Done(j, k, done, bytes)
    ensures Underway(j, r', k', done')
  {
    if k == 0 {
      assert bytes == j.payload[..k'];
      NextFirst(j, r', k', total);
    } else if PastRefusal(j, k) {
      NextPastRefusal(j, r, k, k', bytes, done', r', total);
    } else {
      NextAtCursor(j, r, k, k', done, bytes, done', r', total);
    }
  }

  /** The chain ends before the payload exactly when the reply runs past it. */
  lemma NoNext(j: Job, r: Rx, k: nat, done: seq<byte>, bytes: seq<byte>)
    requires Midway(j, r, k, done) && Usable(j) && Fits(j, r, k, bytes) && k + |bytes| < |j.payload|
    requires OnChain(r) && r.cur.k + 1 == |r.rxBuf| && (k == 0 ==> r.cur == At(0))
    ensures Overrun(j)
  {
    if k > 0 && !PastRefusal(j, k) {
      RoomAtCursor(j.caps, j.rx.rxBuf, r.cur.k);
    }
  }

  // ---- The reply as a whole ----

  /** The reply is queued as one packet with its outcome, and the only held bytes that may have
      changed are those under the socket's buffer. */
  ghost predicate Delivered(j: Job, r': Rx, p: Packet) {
    && Usable(j) && !Overrun(j) && j.sock < |j.rx.queues|
    && r'.app == j.rx.app && r'.poll == j.rx.poll && r'.queues == Enqueue(j.rx.queues, j.sock, p)
    && p.len == |j.payload| && p.chain != [] && p.chain <= j.rx.rxBuf && Contents(r'.store, p.chain) == Outcome(j)
    && SameBytes(Base(j).store, r'.store, Held(j.rx)) && Sockets(j, r', p)
    && Length(r'.store, p.chain[|p.chain| - 1]) > 0
  }

  lemma InOrder(ms: seq<Mbuf>, bag: Bag, a: Store, b: Store)
    requires multiset(ms) <= bag && SameBytes(a, b, bag)
    ensures Contents(a, ms) == Contents(b, ms)
  {
    forall i | 0 <= i < |ms| ensures Bytes(a, ms[i]) == Bytes(b, ms[i]) {
      assert ms[i] in multiset(ms);
    }
    ContentsFrame(a, b, ms);
  }

  /** What is held afterwards: what was, and the new packet. */
  lemma HeldAfter(r: Rx, r': Rx, sock: nat, p: Packet, base: Store, noted: Store)
    requires sock < |r.queues| && r'.app == r.app && r'.queues == Enqueue(r.queues, sock, p)
    requires SameBytes(base, noted, Held(r)) && SameBytes(noted, r'.store, Held(r'))
    ensures SameBytes(base, r'.store, Held(r)) && Contents(r'.store, p.chain) == Contents(noted, p.chain)
    ensures forall m :: m in p.chain ==> Length(r'.store, m) == Length(noted, m)
  {
    QueuePacket(r.queues, sock, p);
    forall m | m in p.chain ensures Length(r'.store, m) == Length(noted, m) {
      assert m in multiset(p.chain);
      assert m in Held(r');
      assert |Bytes(noted, m)| == |Bytes(r'.store, m)|;
    }
    InOrder(p.chain, Held(r'), noted, r'.store);
    forall m | m in Held(r) ensures Bytes(base, m) == Bytes(r'.store, m) {
      assert m in Held(r');
    }
  }

  /** The sockets after the last turn: whether the firmware holds a new request, and where the
      socket points if there was no new chain. Other sockets are as they were. */
  ghost predicate Sockets(j: Job, r': Rx, p: Packet) {
    && Usable(j) && j.sock < |r'.asked| && j.sock < |r'.user| && j.sock < |r'.pending| && OnlySocket(j.rx, r', j.sock)
    && (r'.flow ==> r'.pending[j.sock] == (Chunk1(j) < |j.payload|))
    && r'.asked[j.sock] == (j.accept && (!r'.flow || Chunk1(j) < |j.payload|))
    && (r'.flow && j.accept && Chunk1(j) < |j.payload| ==>
      |p.chain| > 1 && r'.user[j.sock] == Into(p.chain[|p.chain| - 1], Cap(j.caps, p.chain[|p.chain| - 1])))
    && (!r'.flow ==> Fresh(r', j.caps) && Target(j.caps, r', j.sock, 0))
    && (!r'.flow && j.accept ==> r'.polling && r'.cur == At(0))
  }

  lemma SocketsAfterOne(j: Job, r': Rx)
    requires Usable(j) && |j.rx.user| == |j.rx.pending| == |j.rx.asked| && j.rx.cur == At(0)
    requires !j.rx.pending[j.sock] && !j.rx.asked[j.sock] && Chunk1(j) == |j.payload|
    requires Ended(j.caps, Noted(j, j.rx, j.payload), r', j.sock, LastPacket(j.rx, |j.payload|), j.accept)
    ensures Sockets(j, r', LastPacket(j.rx, |j.payload|))
  {
  }

  lemma SocketsAfterMore(j: Job, r: Rx, k: nat, done: seq<byte>, bytes: seq<byte>, r': Rx)
    requires |r.user| == |r.pending| == |r.asked| && Underway(j, r, k, done) && Fits(j, r, k, bytes) && OnChain(r)
    requires Ended(j.caps, Noted(j, r, bytes), r', j.sock, LastPacket(r, |bytes|), j.accept)
    ensures Sockets(j, r', LastPacket(r, |bytes|))
  {
    var chain := LastPacket(r, |bytes|).chain;
    assert chain[r.cur.k] == r.rxBuf[r.cur.k];
  }

  lemma SocketsAfter(j: Job, r: Rx, k: nat, done: seq<byte>, bytes: seq<byte>, r': Rx)
    requires |r.user| == |r.pending| == |r.asked| && Midway(j, r, k, done) && Fits(j, r, k, bytes) && OnChain(r)
    requires Usable(j) && (k == 0 ==> j.rx.cur == At(0) && !j.rx.pending[j.sock] && !j.rx.asked[j.sock])
    requires k + |bytes| == |j.payload|
    requires Ended(j.caps, Noted(j, r, bytes), r', j.sock, LastPacket(r, |bytes|), j.accept)
    ensures Sockets(j, r', LastPacket(r, |bytes|))
  {
    if k == 0 {
      assert bytes == j.payload;
      SocketsAfterOne(j, r');
    } else {
      SocketsAfterMore(j, r, k, done, bytes, r');
    }
  }

  /** The last turn delivers. */
  lemma Settle(j: Job, r: Rx, bytes: seq<byte>, r': Rx)
    requires Completes(j, r, bytes) && j.sock < |j.rx.queues| && bytes != []
    requires r.rxBuf == j.rx.rxBuf && r.queues == j.rx.queues && r.app == j.rx.app && r.poll == j.rx.poll
    requires Ended(j.caps, Noted(j, r, bytes), r', j.sock, LastPacket(r, |bytes|), j.accept)
    requires Sockets(j, r', LastPacket(r, |bytes|))
    ensures Delivered(j, r', LastPacket(r, |bytes|))
  {
    var p := LastPacket(r, |bytes|);
    HeldAfter(j.rx, r', j.sock, p, Base(j).store, Noted(j, r, bytes).store);
    assert p.chain[|p.chain| - 1] == r.rxBuf[r.cur.k];
  }

  // ---- Before and after a turn ----

  /** In the loop, with `k` bytes read. */
  ghost predicate Ongoing(j: Job, r: Rx, k: nat, done: seq<byte>, total: Bag) {
    Arrived(j, total) && !j.rx.asked[j.sock] && Valid(r, total) && Midway(j, r, k, done)
  }

  /** The socket's buffer and the cursor, at each turn. */
  lemma OngoingFacts(j: Job, r: Rx, k: nat, done: seq<byte>, total: Bag)
    requires Ongoing(j, r, k, done, total)
    ensures r.poll[j.sock] && r.user[j.sock].Into? && r.user[j.sock].size > 0 && OnChain(r)
    ensures EmptyFrom(r.store, r.rxBuf, r.cur.k + 1)
    ensures r.rxBuf == j.rx.rxBuf && r.queues == j.rx.queues && r.app == j.rx.app && r.poll == j.rx.poll
  {
    ChainFacts(j.rx, j.caps, total);
  }

  /** Before a turn with more to follow: the callback may run. */
  lemma BeforeMore(j: Job, r: Rx, k: nat, done: seq<byte>, bytes: seq<byte>, p: Rx, total: Bag)
    requires Ongoing(j, r, k, done, total) && Fits(j, r, k, bytes) && p == Put(r, j.sock, bytes)
    ensures Valid(p, total) && OnChain(p) && p.poll[j.sock] && p.cur == r.cur && p.rxBuf == r.rxBuf
    ensures p.cur.k + 1 < |p.rxBuf| ==> Room(j.caps, Account(p, |bytes|).store, p.rxBuf[p.cur.k + 1]) > 0
  {
    OngoingFacts(j, r, k, done, total);
    ReadyToMove(j, r, bytes, total);
  }

  lemma NoMore(j: Job, r: Rx, k: nat, done: seq<byte>, bytes: seq<byte>, total: Bag)
    requires Ongoing(j, r, k, done, total) && Fits(j, r, k, bytes) && k + |bytes| < |j.payload|
    requires OnChain(r) && r.cur.k + 1 == |r.rxBuf|
    ensures Usable(j) && Overrun(j)
  {
    NoNext(j, r, k, done, bytes);
  }

  /** And after it. */
  lemma AfterMore(j: Job, r: Rx, k: nat, k': nat, done: seq<byte>, bytes: seq<byte>, done': seq<byte>, p: Rx, r': Rx,
                  total: Bag)
    requires Ongoing(j, r, k, done, total) && Fits(j, r, k, bytes) && k' == k + |bytes| < |j.payload|
    requires p == Put(r, j.sock, bytes) && Moved(j.caps, p, r', j.sock, |bytes|, j.accept)
    requires Valid(r', total) && done' == Done(j, k, done, bytes)
    ensures Ongoing(j, r', k', done', total)
  {
    NextTurn(j, r, k, k', done, bytes, done', r', total);
  }

  /** Whatever the callback leaves after the last chunk delivers the reply. */
  lemma LastDelivers(j: Job, r: Rx, k: nat, done: seq<byte>, bytes: seq<byte>, total: Bag)
    requires Ongoing(j, r, k, done, total) && Fits(j, r, k, bytes) && k + |bytes| == |j.payload| && OnChain(r)
    ensures LastPacket(Put(r, j.sock, bytes), |bytes|) == LastPacket(r, |bytes|)
    ensures forall r' :: Ended(j.caps, Noted(j, r, bytes), r', j.sock, LastPacket(r, |bytes|), j.accept) ==>
      Delivered(j, r', LastPacket(r, |bytes|))
  {
    OngoingFacts(j, r, k, done, total);
    assert bytes != [];
    LastTurn(j, r, k, done, bytes, total);
    forall r' | Ended(j.caps, Noted(j, r, bytes), r', j.sock, LastPacket(r, |bytes|), j.accept)
      ensures Delivered(j, r', LastPacket(r, |bytes|))
    {
      SocketsAfter(j, r, k, done, bytes, r');
      Settle(j, r, bytes, r');
    }
  }

  /** After the loop. */
  ghost predicate Over(j: Job, r: Rx, fault: bool, p: Packet, total: Bag) {
    if fault then Usable(j) && Overrun(j) else Valid(r, total) && Idle(r, j.caps) && Delivered(j, r, p)
  }

  // ---- When a reply arrives whole ----

  /** The packet holds the payload exactly if no request was refused half-way and the first mbuf's
      data area starts with the first chunk; its bytes are as many as its length says exactly in the
      first of these cases. */
  lemma WholeIff(j: Job)
    requires Usable(j) && !Overrun(j) && j.payload != [] && j.rx.user[j.sock].size > 0
    ensures var n := Chunk1(j);
      && (Outcome(j) == j.payload <==> (j.accept || n == |j.payload|) && Front(Area(j), n) == j.payload[..n])
      && (|Outcome(j)| == |j.payload| <==> j.accept || n == |j.payload|)
  {
    var n := Chunk1(j);
    assert j.payload == j.payload[..n] + j.payload[n..];
    if j.accept && n < |j.payload| {
      var o := Outcome(j);
      assert o[..n] == Front(Area(j), n) && o[n..] == j.payload[n..];
    }
  }

  /** A socket aimed at the chain: no reply runs past it, no held byte changes, and the payload
      arrives whole exactly if it fits the first mbuf or the request is accepted. */
  lemma AimedIsWhole(j: Job, total: Bag)
    requires Arrived(j, total) && Aimed(j.rx, j.caps, j.sock)
    ensures !Overrun(j) && SameBytes(j.rx.store, Base(j).store, Held(j.rx))
    ensures Outcome(j) == j.payload <==> j.accept || |j.payload| <= Cap(j.caps, j.rx.rxBuf[0])
    ensures |Outcome(j)| == |j.payload| <==> j.accept || |j.payload| <= Cap(j.caps, j.rx.rxBuf[0])
  {
    var n := Chunk1(j);
    HeldApart(j.rx, j.caps, total);
    AimedFits(j);
    assert Area(j)[..n] == j.payload[..n];
    WholeIff(j);
  }

  lemma AimedFits(j: Job)
    requires Usable(j) && j.rx.user[j.sock] == Into(j.rx.rxBuf[0], Cap(j.caps, j.rx.rxBuf[0]))
    requires |j.payload| <= Space(j.caps, j.rx.rxBuf)
    ensures !Overrun(j)
  {
    if |j.rx.rxBuf| == 1 {
      RoomAtCursor(j.caps, j.rx.rxBuf, 0);
    }
  }

  /** After a refusal on an aimed socket: the first mbuf keeps the first chunk, cut to the length of
      the second or followed by what its data area held before, and the second chunk is lost. */
  lemma RefusalLosesSecond(j: Job, total: Bag)
    requires Arrived(j, total) && Aimed(j.rx, j.caps, j.sock) && !j.accept && Chunk1(j) < |j.payload|
    ensures !Overrun(j) && |j.rx.rxBuf| > 1
    ensures var n, n2 := Chunk1(j), Chunk2(j);
      Outcome(j) == Front(Overlay(Memory(j.rx.store, j.rx.rxBuf[0]), j.payload[..n]), n2) + j.payload[n + n2..]
    ensures Chunk2(j) <= Chunk1(j) ==> Outcome(j) == j.payload[..Chunk2(j)] + j.payload[Chunk1(j) + Chunk2(j)..]
  {
    AimedFits(j);
    RefusedOutcome(j, Memory(j.rx.store, j.rx.rxBuf[0]), Chunk1(j), Chunk2(j));
  }

  lemma RefusedOutcome(j: Job, mem: seq<byte>, n: nat, n2: nat)
    requires Usable(j) && !Overrun(j) && !j.accept && |j.rx.rxBuf| > 1 && j.rx.user[j.sock].m == j.rx.rxBuf[0]
    requires mem == Memory(j.rx.store, j.rx.rxBuf[0]) && n == Chunk1(j) < |j.payload| && n2 == Chunk2(j)
    ensures Outcome(j) == Front(Overlay(mem, j.payload[..n]), n2) + j.payload[n + n2..]
    ensures n2 <= n ==> Outcome(j) == j.payload[..n2] + j.payload[n + n2..]
  {
    assert Area(j) == Overlay(mem, j.payload[..n]);
    if n2 <= n {
      FrontOfOverlay(mem, j.payload, n, n2);
    }
  }

  lemma FrontOfOverlay(mem: seq<byte>, payload: seq<byte>, n: nat, n2: nat)
    requires n2 <= n <= |payload|
    ensures Front(Overlay(mem, payload[..n]), n2) == payload[..n2]
  {
    var r := Overlay(mem, payload[..n]);
    assert r[..n][..n2] == r[..n2];
  }

  /** Another payload of the same length. */
  function Instead(j: Job, payload: seq<byte>): Job { j.(payload := payload) }

  ghost predicate AlwaysWhole(j: Job)
    requires Usable(j) && !Overrun(j)
  {
    forall payload: seq<byte> :: |payload| == |j.payload| ==>
      !Overrun(Instead(j, payload)) && Outcome(Instead(j, payload)) == payload
  }

  /** With the request accepted, every payload of a length arrives whole exactly if the socket
      points at the first mbuf of the chain. */
  lemma WholeIffAimed(j: Job)
    requires Usable(j) && !Overrun(j) && j.accept && j.payload != [] && j.rx.user[j.sock].size > 0
    ensures AlwaysWhole(j) <==> j.rx.user[j.sock].m == j.rx.rxBuf[0]
  {
    var n := Chunk1(j);
    if j.rx.user[j.sock].m == j.rx.rxBuf[0] {
      forall payload: seq<byte> | |payload| == |j.payload|
        ensures !Overrun(Instead(j, payload)) && Outcome(Instead(j, payload)) == payload
      {
        assert Area(Instead(j, payload))[..n] == payload[..n];
        WholeIff(Instead(j, payload));
      }
    } else {
      var other := j.payload[0 := Front(Area(j), n)[0] + 1];
      assert Area(Instead(j, other)) == Area(j);
      WholeIff(Instead(j, other));
      assert Front(Area(j), n)[0] != other[..n][0];
    }
  }

  lemma ChangedByte(store: Store, x: Mbuf, bytes: seq<byte>)
    requires bytes != [] && Length(store, x) > 0 && bytes[0] != Bytes(store, x)[0]
    ensures Bytes(Copied(store, x, bytes), x) != Bytes(store, x)
  {
    assert Overlay(Memory(store, x), bytes)[0] == bytes[0];
    assert Bytes(Copied(store, x, bytes), x)[0] == bytes[0];
  }

  lemma UnchangedBytes(store: Store, x: Mbuf, bytes: seq<byte>, ms: Bag)
    requires x !in ms || Length(store, x) == 0
    ensures SameBytes(store, Copied(store, x, bytes), ms)
  {
  }

  ghost predicate NeverTouchesHeld(j: Job)
    requires Usable(j)
  {
    forall payload: seq<byte> :: |payload| == |j.payload| ==>
      SameBytes(j.rx.store, Base(Instead(j, payload)).store, Held(j.rx))
  }

  /** No reply of this length changes a held byte exactly if the socket's buffer is not held, or
      holds nothing. */
  lemma HeldIffAside(j: Job)
    requires Usable(j) && j.payload != [] && j.rx.user[j.sock].size > 0
    ensures NeverTouchesHeld(j) <==>
      j.rx.user[j.sock].m !in Held(j.rx) || Length(j.rx.store, j.rx.user[j.sock].m) == 0
  {
    var x, n := j.rx.user[j.sock].m, Chunk1(j);
    if x in Held(j.rx) && Length(j.rx.store, x) > 0 {
      var other := j.payload[0 := Bytes(j.rx.store, x)[0] + 1];
      ChangedByte(j.rx.store, x, other[..n]);
      assert |other| == |j.payload| && !SameBytes(j.rx.store, Base(Instead(j, other)).store, Held(j.rx));
    } else {
      forall payload: seq<byte> | |payload| == |j.payload|
        ensures SameBytes(j.rx.store, Base(Instead(j, payload)).store, Held(j.rx))
      {
        UnchangedBytes(j.rx.store, x, payload[..n], Held(j.rx));
      }
    }
  }
}
