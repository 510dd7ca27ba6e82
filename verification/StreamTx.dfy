/** Sending on a WINC1500 socket: a stream chain that the firmware takes one mbuf at a time, over
    any run of refusals and SEND events, and datagrams copied into one buffer. */
module StreamTx {
  import opened Bytes

  const SOCK_ERR_NO_ERROR := 0
  const SOCK_ERR_INVALID_ARG := -6
  const SOCK_ERR_BUFFER_FULL := -14
  const SOCKET_BUFFER_MAX_LENGTH := 1400
  const TX_SIZE := 1500

  /** The error codes of the mn_socket interface that sending can give. */
  datatype MnErr = MnOk | MnEinval | MnEnobufs | MnEagain | MnEunknown

  /** winc1500_err_to_mn_err on the codes that sending can give. */
  function ErrToMn(rc: int): MnErr {
    if rc == SOCK_ERR_NO_ERROR then MnOk
    else if rc == SOCK_ERR_INVALID_ARG then MnEinval
    else if rc == SOCK_ERR_BUFFER_FULL then MnEnobufs
    else MnEunknown
  }

  /** A chain of mbufs as the bytes of each; no chain is the empty one. */
  type Chain = seq<seq<byte>>

  function Flat(chain: Chain): seq<byte> {
    if chain == [] then [] else chain[0] + Flat(chain[1..])
  }

  lemma {:induction false} FlatAppend(a: Chain, m: seq<byte>)
    ensures Flat(a + [m]) == Flat(a) + m
  {
    if a == [] {
      assert a + [m] == [m];
      assert Flat([m]) == m + Flat([m][1..]);
    } else {
      assert (a + [m])[1..] == a[1..] + [m];
      FlatAppend(a[1..], m);
    }
  }

  lemma {:induction false} FlatConcat(a: Chain, b: Chain)
    ensures Flat(a + b) == Flat(a) + Flat(b)
  {
    if a == [] {
      assert a + b == b;
    } else {
      assert (a + b)[1..] == a[1..] + b;
      FlatConcat(a[1..], b);
    }
  }

  /** A writable notice: its code, and what remained when it was given. */
  datatype Notice = Notice(code: MnErr, left: Chain)

  datatype Op =
    | SendTo(chain: Chain, hasDst: bool, outcomes: seq<bool>)
    | SendEvent(outcomes: seq<bool>)
    | Close
    | Reopen

  /** Whether the firmware takes an mbuf of a socket. */
  predicate Goes(used: bool, m: seq<byte>, outcomes: seq<bool>, i: nat) {
    used && |m| <= SOCKET_BUFFER_MAX_LENGTH && i < |outcomes| && outcomes[i]
  }

  /** `n` mbufs of a chain go: all up to the first that the firmware does not take. */
  ghost predicate Gone(used: bool, chain: Chain, outcomes: seq<bool>, n: nat) {
    && n <= |chain| && (forall i :: 0 <= i < n ==> Goes(used, chain[i], outcomes, i))
    && (n < |chain| ==> !Goes(used, chain[n], outcomes, n))
  }

  /** Why the first mbuf of what is left was not taken. */
  function Refusal(used: bool, left: Chain): int
    requires left != []
  {
    if !used || |left[0]| > SOCKET_BUFFER_MAX_LENGTH then SOCK_ERR_INVALID_ARG else SOCK_ERR_BUFFER_FULL
  }

  /** What a stream socket is seen to do: see the fields of `Stream`. */
  datatype State = State(used: bool, tx: Chain, given: seq<byte>, sent: seq<byte>, notices: seq<Notice>)

  ghost predicate Transmits(s: State, s': State, chain: Chain, outcomes: seq<bool>) {
    exists n: nat :: Gone(s.used, chain, outcomes, n) && s'.tx == chain[n..] && s'.sent == s.sent + Flat(chain[..n])
  }

  /** What each step does. */
  ghost predicate Did(enobufs: int, op: Op, s: State, s': State) {
    match op
    case SendTo(chain, hasDst, outcomes) =>
      if hasDst || s.tx != [] then s' == s
      else Transmits(s, s', chain, outcomes) && s' == s.(given := s.given + Flat(chain), tx := s'.tx, sent := s'.sent)
    case SendEvent(outcomes) =>
      && Transmits(s, s', s.tx, outcomes)
      && s' == s.(tx := s'.tx, sent := s'.sent, notices := s.notices + Notices(enobufs, s.used, s'.tx))
    case Close => s' == State(false, [], [], [], [])
    case Reopen => s' == s.(used := true)
  }

  /** The notice given after a SEND event. */
  function Notices(enobufs: int, used: bool, left: Chain): seq<Notice> {
    if left == [] then [Notice(MnOk, [])]
    else if Refusal(used, left) == enobufs then []
    else [Notice(ErrToMn(Refusal(used, left)), left)]
  }

  /** A stream socket. */
  class Stream {
    // The numeric value of MN_ENOBUFS, which the mn_socket interface defines.
    const enobufs: int
    var used: bool
    var tx: Chain
    // Since the last close: bytes the driver took over, bytes the firmware accepted, notices.
    ghost var given: seq<byte>
    ghost var sent: seq<byte>
    ghost var notices: seq<Notice>

    /** Nothing is lost, repeated or reordered, and a notice without error left nothing behind. */
    ghost predicate Valid() reads this {
      && sent + Flat(tx) == given
      && forall i :: 0 <= i < |notices| ==> (notices[i].code == MnOk <==> notices[i].left == [])
    }

    ghost function Abs(): State reads this { State(used, tx, given, sent, notices) }

    constructor (enobufs: int)
      ensures Valid() && used && tx == [] && given == [] && this.enobufs == enobufs
    {
      this.enobufs := enobufs;
      used, tx := true, [];
      given, sent, notices := [], [], [];
    }

    /** send, with the outcome of the request to the firmware. */
    method Send(m: seq<byte>, accept: bool) returns (rc: int)
      ensures rc == SOCK_ERR_NO_ERROR || rc == SOCK_ERR_INVALID_ARG || rc == SOCK_ERR_BUFFER_FULL
      ensures rc == SOCK_ERR_NO_ERROR <==> used && |m| <= SOCKET_BUFFER_MAX_LENGTH && accept
      ensures rc == SOCK_ERR_INVALID_ARG <==> !used || |m| > SOCKET_BUFFER_MAX_LENGTH
    {
      rc := SOCK_ERR_INVALID_ARG;
      if |m| <= SOCKET_BUFFER_MAX_LENGTH && used {
        rc := if accept then SOCK_ERR_NO_ERROR else SOCK_ERR_BUFFER_FULL;
      }
    }

    /** The loop of winc1500_stream_tx: `n` mbufs go, up to the first that is not taken. */
    method Transmit(outcomes: seq<bool>) returns (rc: int, n: nat)
      requires Valid()
      modifies this`tx, this`sent
      ensures Valid() && Gone(used, old(tx), outcomes, n)
      ensures tx == old(tx)[n..] && sent == old(sent) + Flat(old(tx)[..n])
      ensures rc == SOCK_ERR_NO_ERROR <==> tx == []
      ensures tx != [] ==> rc == Refusal(used, tx)
    {
      rc, n := SOCK_ERR_NO_ERROR, 0;
      while tx != [] && rc == SOCK_ERR_NO_ERROR
        invariant Valid() && n <= |old(tx)| && tx == old(tx)[n..] && sent == old(sent) + Flat(old(tx)[..n])
        invariant forall i :: 0 <= i < n ==> Goes(used, old(tx)[i], outcomes, i)
        invariant rc != SOCK_ERR_NO_ERROR ==> tx != [] && !Goes(used, old(tx)[n], outcomes, n)
        invariant rc != SOCK_ERR_NO_ERROR ==> rc == Refusal(used, tx)
        decreases |tx|, rc == SOCK_ERR_NO_ERROR
      {
        var m := tx[0];
        rc := Send(m, n < |outcomes| && outcomes[n]);
        if rc == SOCK_ERR_NO_ERROR {
          assert (sent + m) + Flat(tx[1..]) == sent + Flat(tx);
          FlatAppend(old(tx)[..n], m);
          assert old(tx)[..n] + [m] == old(tx)[..n + 1];
          sent, tx, n := sent + m, tx[1..], n + 1;
        }
      }
    }

    /** winc1500_stream_tx */
    method StreamTx(notify: bool, outcomes: seq<bool>) returns (rc: MnErr, ghost n: nat)
      requires Valid()
      modifies this`tx, this`sent, this`notices
      ensures Valid() && Gone(used, old(tx), outcomes, n)
      ensures tx == old(tx)[n..] && sent == old(sent) + Flat(old(tx)[..n])
      ensures rc == if tx == [] || Refusal(used, tx) == enobufs then MnOk else ErrToMn(Refusal(used, tx))
      ensures notices == old(notices) + if notify && (tx == [] || rc != MnOk) then [Notice(rc, tx)] else []
    {
      var code, k := Transmit(outcomes);
      n := k;
      rc := ErrToMn(code);
      if code != SOCK_ERR_NO_ERROR && code == enobufs {
        rc := MnOk;
      }
      if notify {
        if tx == [] {
          notices := notices + [Notice(MnOk, tx)];
        } else if rc != MnOk {
          notices := notices + [Notice(rc, tx)];
        }
      }
    }

    /** winc1500_sock_sendto on a stream socket: the chain is taken over unless an address is given
        or an earlier chain is not yet through, whatever is returned after that. */
    method SendTo(chain: Chain, hasDst: bool, outcomes: seq<bool>) returns (rc: MnErr, ghost n: nat)
      requires Valid()
      modifies this`tx, this`given, this`sent, this`notices
      ensures Valid() && notices == old(notices)
      ensures hasDst ==> rc == MnEinval && tx == old(tx) && given == old(given) && sent == old(sent)
      ensures !hasDst && old(tx) != [] ==> rc == MnEagain && tx == old(tx) && given == old(given) && sent == old(sent)
      ensures !hasDst && old(tx) == [] ==> given == old(given) + Flat(chain) && Gone(used, chain, outcomes, n)
      ensures !hasDst && old(tx) == [] ==> tx == chain[n..] && sent == old(sent) + Flat(chain[..n])
      ensures !hasDst && old(tx) == [] ==>
        rc == if tx == [] || Refusal(used, tx) == enobufs then MnOk else ErrToMn(Refusal(used, tx))
    {
      if hasDst {
        return MnEinval, 0;
      }
      if tx != [] {
        return MnEagain, 0;
      }
      tx, given := chain, given + Flat(chain);
      rc, n := StreamTx(false, outcomes);
    }

    /** A SEND reply from the firmware: go on, and tell the application when all is through. */
    method SendEvent(outcomes: seq<bool>) returns (ghost n: nat)
      requires Valid()
      modifies this`tx, this`sent, this`notices
      ensures Valid() && Gone(used, old(tx), outcomes, n)
      ensures tx == old(tx)[n..] && sent == old(sent) + Flat(old(tx)[..n])
      ensures notices == old(notices) + Notices(enobufs, used, tx)
    {
      var rc;
      rc, n := StreamTx(true, outcomes);
    }

    /** winc1500_sock_close, for what is still to be sent. */
    method Close()
      requires Valid()
      modifies this
      ensures Valid() && !used && tx == [] && given == [] && sent == [] && notices == []
    {
      used, tx := false, [];
      given, sent, notices := [], [], [];
    }

    method Step(op: Op)
      requires Valid()
      modifies this
      ensures Valid() && Did(enobufs, op, old(Abs()), Abs())
    {
      ghost var n;
      match op {
        case SendTo(chain, hasDst, outcomes) =>
          var rc;
          rc, n := SendTo(chain, hasDst, outcomes);
        case SendEvent(outcomes) =>
          n := SendEvent(outcomes);
        case Close =>
          Close();
        case Reopen =>
          used := true;
      }
    }

    /** Any run of sends, events and closes, in which each step does what it should. */
    method Run(ops: seq<Op>) returns (ghost trace: seq<State>)
      requires Valid()
      modifies this
      ensures Valid() && sent <= given
      ensures |trace| == |ops| + 1 && trace[0] == old(Abs()) && trace[|ops|] == Abs()
      ensures forall i :: 0 <= i < |ops| ==> Did(enobufs, ops[i], trace[i], trace[i + 1])
    {
      trace := [Abs()];
      for i := 0 to |ops|
        invariant Valid() && |trace| == i + 1 && trace[0] == old(Abs()) && trace[i] == Abs()
        invariant forall k :: 0 <= k < i ==> Did(enobufs, ops[k], trace[k], trace[k + 1])
      {
        Step(ops[i]);
        trace := trace + [Abs()];
      }
    }
  }

  // ---- Datagrams ----

  class Datagram {
    const txBuf: array<byte>
    var used: bool
    // Datagrams handed to the firmware.
    ghost var out: seq<seq<byte>>

    constructor ()
      ensures txBuf.Length == TX_SIZE && fresh(txBuf) && used && out == []
    {
      txBuf := new byte[TX_SIZE](_ => 0);
      used, out := true, [];
    }

    /** winc1500_sock_sendto on a datagram socket: one datagram with the chain's bytes, or none. */
    method SendTo(chain: Chain, goodAddr: bool, accept: bool) returns (rc: MnErr, freed: bool)
      requires txBuf.Length == TX_SIZE
      modifies this`out, txBuf
      ensures rc == MnOk <==> goodAddr && used && accept && |Flat(chain)| <= SOCKET_BUFFER_MAX_LENGTH
      ensures out == old(out) + if rc == MnOk then [Flat(chain)] else []
      ensures freed <==> rc == MnOk
      ensures rc == MnEnobufs <==> goodAddr && used && !accept && |Flat(chain)| <= SOCKET_BUFFER_MAX_LENGTH
      ensures rc != MnOk && rc != MnEnobufs ==> rc == MnEinval
    {
      freed := false;
      if !goodAddr {
        return MnEinval, false;
      }
      var off: nat, k: nat := 0, 0;
      while k < |chain|
        invariant 0 <= k <= |chain| && off <= TX_SIZE && txBuf[..off] == Flat(chain[..k]) && out == old(out)
      {
        FlatAppend(chain[..k], chain[k]);
        assert chain[..k] + [chain[k]] == chain[..k + 1];
        if off + |chain[k]| > TX_SIZE {
          FlatConcat(chain[..k + 1], chain[k + 1..]);
          assert chain[..k + 1] + chain[k + 1..] == chain;
          return MnEinval, false;
        }
        Memcpy(txBuf, off, chain[k]);
        off := off + |chain[k]|;
        k := k + 1;
      }
      assert chain[..k] == chain;
      var code := SOCK_ERR_INVALID_ARG;
      if off <= SOCKET_BUFFER_MAX_LENGTH && used {
        code := if accept then SOCK_ERR_NO_ERROR else SOCK_ERR_BUFFER_FULL;
        if accept {
          out := out + [txBuf[..off]];
        }
      }
      rc := ErrToMn(code);
      freed := rc == MnOk;
    }
  }
}
