/** Socket slots and session ids of the WINC1500 socket layer: which replies from the firmware
    are delivered, over every run of opening, accepting and closing. */
module Sessions {
  const MAX_SOCKET := 11
  const TCP_SOCK_MAX := 7
  const IDS := 0xffff

  datatype Kind = Stream | Datagram | Other

  datatype Slot = Slot(used: bool, sessionId: nat, recvPending: bool)

  const CLEARED := Slot(false, 0, false)

  /** The id given to the `n`-th session: 1 to 65535 over and over, never 0. */
  function Id(n: nat): nat
    requires n > 0
  {
    (n - 1) % IDS + 1
  }

  /** `++gu16SessionID`, once more if that wrapped to zero. */
  function Bump(counter: nat): nat {
    var c := (counter + 1) % 0x1_0000;
    if c == 0 then (c + 1) % 0x1_0000 else c
  }

  /** Two sessions share an id exactly when a multiple of 65535 sessions lies between them. */
  lemma SameId(a: nat, b: nat)
    requires 0 < a <= b
    ensures Id(a) == Id(b) <==> (b - a) % IDS == 0
  {
    var x, d := a - 1, b - a;
    var q, r := x / IDS, x % IDS;
    assert x == IDS * q + r;
    if d % IDS == 0 {
      assert x + d == IDS * (q + d / IDS) + r;
    } else {
      assert d == IDS * (d / IDS) + d % IDS;
    }
  }

  lemma BumpIsNextId(n: nat)
    requires n > 0
    ensures Bump(Id(n)) == Id(n + 1)
  {
    var q, r := (n - 1) / IDS, (n - 1) % IDS;
    assert n == IDS * q + r + 1;
    if r + 1 == IDS {
      assert n == IDS * (q + 1);
    }
  }

  /** The slots, the number of sessions opened so far, and for each slot the number of its session. */
  datatype State = State(slots: seq<Slot>, sessions: nat, life: seq<nat>)

  /** Slot `i` given a new session. */
  function Opened(s: State, i: nat, cleared: bool): State
    requires i < |s.slots| && i < |s.life|
  {
    var n := s.sessions + 1;
    State(s.slots[i := Slot(true, Id(n), !cleared && s.slots[i].recvPending)], n, s.life[i := n])
  }

  predicate InRange(kind: Kind, i: int) {
    match kind
    case Stream => 0 <= i < TCP_SOCK_MAX
    case Datagram => TCP_SOCK_MAX <= i < MAX_SOCKET
    case Other => false
  }

  /** The first free slot for a kind of socket. */
  predicate Lowest(slots: seq<Slot>, kind: Kind, i: int)
    requires |slots| == MAX_SOCKET
  {
    InRange(kind, i) && !slots[i].used && forall j :: 0 <= j < i && InRange(kind, j) ==> slots[j].used
  }

  predicate NoneFree(slots: seq<Slot>, inet: bool, kind: Kind)
    requires |slots| == MAX_SOCKET
  {
    inet ==> forall i :: 0 <= i < MAX_SOCKET && InRange(kind, i) ==> slots[i].used
  }

  class Table {
    var slots: seq<Slot>
    var counter: nat
    // Sessions opened so far, and for each slot in use the number of its session.
    var sessions: nat
    ghost var life: seq<nat>

    /** socketInit */
    constructor ()
      ensures Valid() && sessions == 0 && forall i :: 0 <= i < MAX_SOCKET ==> !slots[i].used
    {
      slots := seq(MAX_SOCKET, _ => CLEARED);
      counter, sessions := 0, 0;
      life := seq(MAX_SOCKET, _ => 0);
    }

    ghost predicate Valid() reads this {
      && |slots| == MAX_SOCKET && |life| == MAX_SOCKET
      && counter == (if sessions == 0 then 0 else Id(sessions))
      && forall i :: 0 <= i < MAX_SOCKET ==>
          && (slots[i].used <==> slots[i].sessionId != 0)
          && (slots[i].used ==> 0 < life[i] <= sessions && slots[i].sessionId == Id(life[i]))
    }

    ghost function Abs(): State reads this { State(slots, sessions, life) }

    /** Give slot `i` a new session. */
    method Open(i: nat, cleared: bool)
      requires Valid() && i < MAX_SOCKET
      modifies this
      ensures Valid() && Abs() == Opened(old(Abs()), i, cleared)
    {
      if sessions > 0 { BumpIsNextId(sessions); }
      counter := Bump(counter);
      sessions := sessions + 1;
      slots := slots[i := Slot(true, counter, !cleared && slots[i].recvPending)];
      life := life[i := sessions];
    }

    /** socket: the first free slot of the kind's range, or -1. */
    method Socket(inet: bool, kind: Kind) returns (sock: int)
      requires Valid()
      modifies this
      ensures Valid()
      ensures if sock >= 0 then inet && Lowest(old(slots), kind, sock) && Abs() == Opened(old(Abs()), sock, true)
        else sock == -1 && NoneFree(slots, inet, kind) && Abs() == old(Abs())
    {
      sock := -1;
      if !inet || kind == Other {
        return;
      }
      var count := if kind == Stream then 0 else TCP_SOCK_MAX;
      var limit := if kind == Stream then TCP_SOCK_MAX else MAX_SOCKET;
      while count < limit && slots[count].used
        invariant (if kind == Stream then 0 else TCP_SOCK_MAX) <= count <= limit
        invariant forall i :: (if kind == Stream then 0 else TCP_SOCK_MAX) <= i < count ==> slots[i].used
      {
        count := count + 1;
      }
      if count < limit {
        Open(count, true);
        sock := count;
      }
    }

    /** The accept reply: the firmware names the slot, whether or not it is in use. */
    method Accept(sock: int)
      requires Valid() && sock < MAX_SOCKET
      modifies this
      ensures Valid() && Abs() == if sock >= 0 then Opened(old(Abs()), sock, false) else old(Abs())
    {
      if sock >= 0 {
        Open(sock, false);
      }
    }

    /** close: SOCK_ERR_INVALID_ARG unless the slot is in use. */
    method Close(sock: int) returns (ok: bool)
      requires Valid() && sock < MAX_SOCKET
      modifies this
      ensures Valid() && sessions == old(sessions) && life == old(life)
      ensures ok <==> sock >= 0 && old(slots[sock].used)
      ensures slots == if ok then old(slots)[sock := CLEARED] else old(slots)
    {
      ok := sock >= 0 && slots[sock].used;
      if ok {
        slots := slots[sock := CLEARED];
      }
    }

    /** A SEND or RECV reply for slot `sock` carrying the id of session number `from`. A RECV
        reply clears the slot's pending flag before its id is looked at. */
    method Reply(sock: nat, id: nat, recv: bool, ghost from: nat) returns (delivered: bool)
      requires Valid() && sock < MAX_SOCKET && 0 < from <= sessions && id == Id(from)
      modifies this
      ensures Valid() && sessions == old(sessions) && life == old(life)
      ensures delivered <==> slots[sock].used && (life[sock] - from) % IDS == 0
      ensures slots == if recv then old(slots)[sock := old(slots[sock]).(recvPending := false)] else old(slots)
    {
      if recv {
        slots := slots[sock := slots[sock].(recvPending := false)];
      }
      delivered := id == slots[sock].sessionId;
      ghost var current := life[sock];
      if slots[sock].used {
        if from <= current {
          SameId(from, current);
        } else {
          SameId(current, from);
          NegMod(from - current);
        }
      }
    }

    /** One call, or a reply of a session opened before it. */
    method Step(op: Op) returns (delivered: bool)
      requires Valid()
      modifies this
      ensures Valid() && Did(op, old(Abs()), Abs(), delivered)
    {
      delivered := false;
      match op {
        case DoSocket(inet, kind) =>
          var sock := Socket(inet, kind);
        case DoAccept(sock) =>
          if sock < MAX_SOCKET { Accept(sock); }
        case DoClose(sock) =>
          if sock < MAX_SOCKET { var ok := Close(sock); }
        case DoReply(sock, from, recv) =>
          if sock < MAX_SOCKET && 0 < from && from <= sessions {
            delivered := Reply(sock, Id(from), recv, from);
          }
      }
    }

    /** Any run of socket calls and replies, in which each step does what it should. A delivered reply
        came from the slot's current session, or at least 65535 sessions were opened between the two. */
    method Run(ops: seq<Op>) returns (delivered: seq<bool>, ghost trace: seq<State>)
      requires Valid()
      modifies this
      ensures Valid() && |delivered| == |ops| && |trace| == |ops| + 1
      ensures trace[0] == old(Abs()) && trace[|ops|] == Abs()
      ensures forall i :: 0 <= i < |ops| ==> Did(ops[i], trace[i], trace[i + 1], delivered[i])
      ensures forall i :: 0 <= i < |ops| && delivered[i] ==> ForItsSession(ops[i], trace[i])
    {
      delivered, trace := [], [Abs()];
      for i := 0 to |ops|
        invariant Valid() && |delivered| == i && |trace| == i + 1 && trace[0] == old(Abs()) && trace[i] == Abs()
        invariant forall k :: 0 <= k < i ==> Did(ops[k], trace[k], trace[k + 1], delivered[k])
        invariant forall k :: 0 <= k < i && delivered[k] ==> ForItsSession(ops[k], trace[k])
      {
        var d := Step(ops[i]);
        if d { DeliveredIsProper(ops[i], trace[i], Abs()); }
        delivered, trace := delivered + [d], trace + [Abs()];
      }
    }
  }

  datatype Op =
    | DoSocket(inet: bool, kind: Kind)
    | DoAccept(sock: int)
    | DoClose(sock: int)
    | DoReply(slot: nat, from: nat, recv: bool)

  /** The reply is of the session its slot then had, or of one at least 65535 sessions away. */
  predicate ForItsSession(op: Op, s: State) {
    && op.DoReply? && op.slot < |s.life|
    && var current := s.life[op.slot]; op.from == current || op.from + IDS <= current || current + IDS <= op.from
  }

  lemma DeliveredIsProper(op: Op, s: State, s': State)
    requires Did(op, s, s', true)
    ensures ForItsSession(op, s)
  {
  }

  lemma NegMod(d: nat)
    ensures d % IDS == 0 <==> (0 - d) % IDS == 0
  {
  }

  /** What each step does, and whether it delivers a reply. */
  ghost predicate Did(op: Op, s: State, s': State, delivered: bool) {
    && |s.slots| == |s.life| == MAX_SOCKET
    && match op
      case DoSocket(inet, kind) =>
        !delivered && if NoneFree(s.slots, inet, kind) then s' == s
                      else exists i: nat :: Lowest(s.slots, kind, i) && s' == Opened(s, i, true)
      case DoAccept(sock) => !delivered && s' == if 0 <= sock < MAX_SOCKET then Opened(s, sock, false) else s
      case DoClose(sock) =>
        && !delivered
        && s' == if 0 <= sock < MAX_SOCKET && s.slots[sock].used then s.(slots := s.slots[sock := CLEARED]) else s
      case DoReply(sock, from, recv) =>
        if sock >= MAX_SOCKET || from == 0 || from > s.sessions then !delivered && s' == s
        else
          && (delivered <==> s.slots[sock].used && (s.life[sock] - from) % IDS == 0)
          && s' == if recv then s.(slots := s.slots[sock := s.slots[sock].(recvPending := false)]) else s
  }
}
