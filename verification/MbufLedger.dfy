/** Where the mbufs are: chains, queues of packets, and the sums over them. */
module MbufLedger {
  import opened BitBytes

  type Mbuf = nat

  /** A queued packet: its chain, and the packet length in the header of its first mbuf. */
  datatype Packet = Packet(chain: seq<Mbuf>, len: nat)

  type Caps = map<Mbuf, nat>

  /** The data area of an mbuf, as far as it has been written, and its length field. */
  datatype Cell = Cell(mem: seq<byte>, len: nat)

  type Store = map<Mbuf, Cell>

  ghost function OfPackets(ps: seq<Packet>): multiset<Mbuf> {
    if ps == [] then multiset{} else multiset(ps[0].chain) + OfPackets(ps[1..])
  }

  ghost function OfQueues(qs: seq<seq<Packet>>): multiset<Mbuf> {
    if qs == [] then multiset{} else OfPackets(qs[0]) + OfQueues(qs[1..])
  }

  lemma {:induction false} AppendPacket(ps: seq<Packet>, p: Packet)
    ensures OfPackets(ps + [p]) == OfPackets(ps) + multiset(p.chain)
  {
    if ps == [] {
      assert ps + [p] == [p];
      assert OfPackets([p]) == multiset(p.chain) + OfPackets([p][1..]);
    } else {
      assert (ps + [p])[1..] == ps[1..] + [p];
      AppendPacket(ps[1..], p);
    }
  }

  lemma {:induction false} UpdateQueue(qs: seq<seq<Packet>>, i: nat, q: seq<Packet>)
    requires i < |qs|
    ensures OfQueues(qs[i := q]) + OfPackets(qs[i]) == OfQueues(qs) + OfPackets(q)
  {
    var r := qs[i := q];
    if i == 0 {
      assert r[1..] == qs[1..];
      var rest := OfQueues(qs[1..]);
      assert OfQueues(r) == OfPackets(q) + rest && OfQueues(qs) == OfPackets(qs[0]) + rest;
    } else {
      var tail, tail' := qs[1..], qs[1..][i - 1 := q];
      assert r[1..] == tail' && r[0] == qs[0];
      UpdateQueue(tail, i - 1, q);
      Regroup(OfPackets(qs[0]), OfQueues(tail'), OfPackets(qs[i]), OfQueues(tail), OfPackets(q));
    }
  }

  lemma Regroup(a: multiset<Mbuf>, r: multiset<Mbuf>, p: multiset<Mbuf>, s: multiset<Mbuf>, q: multiset<Mbuf>)
    requires r + p == s + q
    ensures (a + r) + p == (a + s) + q
  {
    assert (a + r) + p == a + (r + p);
    assert (a + s) + q == a + (s + q);
  }

  function Cap(caps: Caps, m: Mbuf): nat { if m in caps then caps[m] else 0 }

  function Memory(store: Store, m: Mbuf): seq<byte> { if m in store then store[m].mem else [] }

  function Length(store: Store, m: Mbuf): nat { if m in store then store[m].len else 0 }

  /** The first `len` bytes of a data area; what was never written is unspecified and stands here
      as zeros. */
  function Front(mem: seq<byte>, len: nat): (r: seq<byte>)
    ensures |r| == len
    ensures forall i :: 0 <= i < len && i < |mem| ==> r[i] == mem[i]
  {
    if len <= |mem| then mem[..len] else mem + seq(len - |mem|, _ => 0 as byte)
  }

  /** What an mbuf holds. */
  function Bytes(store: Store, m: Mbuf): (r: seq<byte>)
    ensures |r| == Length(store, m)
  {
    Front(Memory(store, m), Length(store, m))
  }

  /** A data area whose start is overwritten. */
  function Overlay(mem: seq<byte>, bytes: seq<byte>): (r: seq<byte>)
    ensures |r| >= |bytes| && r[..|bytes|] == bytes
  {
    bytes + if |mem| > |bytes| then mem[|bytes|..] else []
  }

  /** Bytes copied into an mbuf; its length stays. */
  function Copied(store: Store, m: Mbuf, bytes: seq<byte>): Store {
    store[m := Cell(Overlay(Memory(store, m), bytes), Length(store, m))]
  }

  /** The length field of an mbuf set; its data area stays. */
  function Sized(store: Store, m: Mbuf, len: nat): Store {
    store[m := Cell(Memory(store, m), len)]
  }

  lemma CopiedAndSized(store: Store, m: Mbuf, bytes: seq<byte>)
    ensures Bytes(Sized(Copied(store, m, bytes), m, |bytes|), m) == bytes
  {
    var r := Overlay(Memory(store, m), bytes);
    assert r[..|bytes|] == bytes;
  }

  lemma Cancel(a: Bag, b: Bag, c: Bag, p: Bag)
    requires a + p == b + (p + c)
    ensures a == b + c
  {
    forall m ensures a[m] == (b + c)[m] {
      assert (a + p)[m] == (b + (p + c))[m];
    }
  }

  lemma QueuePacket(qs: seq<seq<Packet>>, i: nat, p: Packet)
    requires i < |qs|
    ensures OfQueues(qs[i := qs[i] + [p]]) == OfQueues(qs) + multiset(p.chain)
  {
    AppendPacket(qs[i], p);
    UpdateQueue(qs, i, qs[i] + [p]);
    Cancel(OfQueues(qs[i := qs[i] + [p]]), OfQueues(qs), multiset(p.chain), OfPackets(qs[i]));
  }

  lemma DequeuePacket(qs: seq<seq<Packet>>, i: nat)
    requires i < |qs| && qs[i] != []
    ensures OfQueues(qs[i := qs[i][1..]]) + multiset(qs[i][0].chain) == OfQueues(qs)
  {
    var rest := qs[i][1..];
    UpdateQueue(qs, i, rest);
    var a, b, p, c := OfQueues(qs[i := rest]), OfQueues(qs), OfPackets(rest), multiset(qs[i][0].chain);
    assert a + (c + p) == b + p;
    assert b + p == a + (p + c);
    Cancel(b, a, c, p);
  }

  /** Room in a fresh chain. */
  function Space(caps: Caps, chain: seq<Mbuf>): nat {
    if chain == [] then 0 else Space(caps, chain[..|chain| - 1]) + Cap(caps, chain[|chain| - 1])
  }

  /** The bytes in a chain, in order. */
  function Contents(store: Store, chain: seq<Mbuf>): seq<byte> {
    if chain == [] then [] else Contents(store, chain[..|chain| - 1]) + Bytes(store, chain[|chain| - 1])
  }

  lemma {:induction false} SpaceSplit(caps: Caps, chain: seq<Mbuf>, k: nat)
    requires k <= |chain|
    ensures Space(caps, chain[..k]) <= Space(caps, chain)
    ensures k < |chain| ==> Space(caps, chain[..k + 1]) == Space(caps, chain[..k]) + Cap(caps, chain[k])
    decreases |chain|
  {
    if k < |chain| {
      assert chain[..k + 1][..k] == chain[..k];
      var n := |chain| - 1;
      assert chain[..n][..k] == chain[..k];
      SpaceSplit(caps, chain[..n], k);
    } else {
      assert chain[..k] == chain;
    }
  }

  /** Changing mbufs outside a chain leaves the chain's bytes alone. */
  lemma {:induction false} ContentsFrame(store: Store, other: Store, chain: seq<Mbuf>)
    requires forall i :: 0 <= i < |chain| ==> Bytes(store, chain[i]) == Bytes(other, chain[i])
    ensures Contents(store, chain) == Contents(other, chain)
    decreases |chain|
  {
    if chain != [] {
      ContentsFrame(store, other, chain[..|chain| - 1]);
    }
  }

  ghost predicate Distinct(s: seq<Mbuf>) {
    forall i, j :: 0 <= i < j < |s| ==> s[i] != s[j]
  }

  /** Where each mbuf occurs once in all, a chain does not repeat one. */
  lemma DistinctInLedger(s: seq<Mbuf>, total: multiset<Mbuf>)
    requires multiset(s) <= total && forall m :: m in total ==> total[m] == 1
    ensures Distinct(s)
  {
    forall i, j | 0 <= i < j < |s| ensures s[i] != s[j] {
      if s[i] == s[j] { OccursTwice(s, i, j); }
    }
  }

  lemma OccursTwice(s: seq<Mbuf>, i: nat, j: nat)
    requires i < j < |s| && s[i] == s[j]
    ensures multiset(s)[s[i]] >= 2
  {
    var a, b := s[..j], s[j..];
    assert s == a + b && a[i] == s[i] && b[0] == s[i];
    assert multiset(s) == multiset(a) + multiset(b);
  }

  type Bag = multiset<Mbuf>

  /** All mbufs: in the pool, in the receive chain, queued at a socket, or with the application. */
  ghost function Everything(pool: Bag, rx: seq<Mbuf>, qs: seq<seq<Packet>>, app: Bag): Bag {
    pool + multiset(rx) + OfQueues(qs) + app
  }

  /** An allocated chain comes out of the pool. */
  lemma LedgerAlloc(pool: Bag, rest: Bag, chain: seq<Mbuf>, qs: seq<seq<Packet>>, app: Bag)
    requires rest + multiset(chain) == pool
    ensures Everything(rest, chain, qs, app) == Everything(pool, [], qs, app)
  {
  }

  /** A finished chain goes to a queue and its tail to the pool. */
  lemma LedgerFinish(pool: Bag, rx: seq<Mbuf>, k: nat, qs: seq<seq<Packet>>, sock: nat, p: Packet, app: Bag)
    requires k <= |rx| && sock < |qs| && p.chain == rx[..k]
    ensures Everything(pool + multiset(rx[k..]), [], qs[sock := qs[sock] + [p]], app) == Everything(pool, rx, qs, app)
  {
    assert rx == p.chain + rx[k..];
    QueuePacket(qs, sock, p);
    MoveFinish(pool, multiset(p.chain), multiset(rx[k..]), OfQueues(qs), app);
  }

  lemma MoveFinish(pool: Bag, chain: Bag, tail: Bag, queued: Bag, app: Bag)
    ensures (pool + tail) + multiset{} + (queued + chain) + app == pool + (chain + tail) + queued + app
  {
  }

  /** A packet leaves a queue for the application. */
  lemma LedgerTake(pool: Bag, rx: seq<Mbuf>, qs: seq<seq<Packet>>, sock: nat, app: Bag)
    requires sock < |qs| && qs[sock] != []
    ensures Everything(pool, rx, qs[sock := qs[sock][1..]], app + multiset(qs[sock][0].chain))
         == Everything(pool, rx, qs, app)
  {
    DequeuePacket(qs, sock);
    MoveTake(pool + multiset(rx), OfQueues(qs[sock := qs[sock][1..]]), multiset(qs[sock][0].chain), app);
  }

  lemma MoveTake(a: Bag, queued: Bag, chain: Bag, app: Bag)
    ensures a + queued + (app + chain) == a + (queued + chain) + app
  {
  }

  /** A packet leaves a queue for the pool. */
  lemma LedgerDrop(pool: Bag, rx: seq<Mbuf>, qs: seq<seq<Packet>>, sock: nat, app: Bag)
    requires sock < |qs| && qs[sock] != []
    ensures Everything(pool + multiset(qs[sock][0].chain), rx, qs[sock := qs[sock][1..]], app)
         == Everything(pool, rx, qs, app)
  {
    DequeuePacket(qs, sock);
    MoveDrop(pool, multiset(rx), OfQueues(qs[sock := qs[sock][1..]]), multiset(qs[sock][0].chain), app);
  }

  lemma MoveDrop(pool: Bag, rx: Bag, queued: Bag, chain: Bag, app: Bag)
    ensures (pool + chain) + rx + queued + app == pool + rx + (queued + chain) + app
  {
  }

  /** The application gives an mbuf back. */
  lemma LedgerReturn(pool: Bag, rx: seq<Mbuf>, qs: seq<seq<Packet>>, app: Bag, m: Mbuf)
    requires m in app
    ensures Everything(pool + multiset{m}, rx, qs, app - multiset{m}) == Everything(pool, rx, qs, app)
  {
    assert app == (app - multiset{m}) + multiset{m};
    MoveReturn(pool, multiset(rx) + OfQueues(qs), app - multiset{m}, multiset{m});
  }

  lemma MoveReturn(pool: Bag, b: Bag, app: Bag, one: Bag)
    ensures (pool + one) + b + app == pool + b + (app + one)
  {
  }
}
