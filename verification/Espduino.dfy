/** The ESP-link driver's state and the loops of espduino.c, proved against the framing
    functions. The rings and the UART between the two ends are the subject of `UartTx`. */
module Espduino {
  import opened BitBytes
  import opened Sequences
  import opened EspLink
  import Crc16

  lemma {:induction false} StuffConcat(a: seq<byte>, b: seq<byte>)
    ensures Stuff(a + b) == Stuff(a) + Stuff(b)
  {
    if a == [] {
      assert a + b == b;
    } else {
      assert (a + b)[1..] == a[1..] + b;
      StuffConcat(a[1..], b);
    }
  }

  class Driver {
    const buf: array<byte>
    var len: nat
    var esc: bool
    var begun: bool
    var curCmd: nat
    var curCb: nat
    var isReturn: bool
    var ret: nat
    // Bytes handed to the UART, and the buffers the callback has seen.
    var sent: seq<byte>
    var calls: seq<seq<byte>>

    constructor ()
      ensures Valid() && fresh(buf) && sent == [] && calls == [] && !isReturn
    {
      buf := new byte[BUF_SIZE](_ => 0);
      len, esc, begun, curCmd, curCb, isReturn, ret := 0, false, false, 0, 0, false, 0;
      sent, calls := [], [];
    }

    ghost predicate Valid() reads this {
      buf.Length == BUF_SIZE && len <= BUF_SIZE
    }

    function Abs(): Link
      reads this, buf
    {
      Link(buf[..], len, esc, begun, curCmd, curCb, isReturn, ret, calls)
    }

    // ---- Sending ----

    method UartWrite(b: byte)
      modifies `sent
      ensures sent == old(sent) + [b]
    {
      sent := sent + [b];
    }

    method WriteByte(b: byte)
      modifies `sent
      ensures sent == old(sent) + StuffByte(b)
    {
      if b == START || b == END || b == REPL {
        UartWrite(REPL);
        UartWrite(b ^ 0x20);
      } else {
        UartWrite(b);
      }
    }

    method WriteCrc(data: seq<byte>, start: bv16) returns (crc: bv16)
      modifies `sent
      ensures sent == old(sent) + Stuff(data)
      ensures crc == Crc16.Crc(data, start)
    {
      crc := Crc16.Data(data, start);
      for i := 0 to |data|
        invariant sent + Stuff(data[i..]) == old(sent) + Stuff(data)
      {
        ghost var before := sent;
        WriteByte(data[i]);
        assert data[i..][1..] == data[i + 1..];
        Assoc(before, StuffByte(data[i]), Stuff(data[i + 1..]));
      }
    }

    /** WriteCrc seen from a message of which `done` has already been written after `base`. */
    method WriteMore(data: seq<byte>, crc: bv16, ghost base: seq<byte>, ghost done: seq<byte>, ghost start: bv16)
      returns (crc': bv16)
      requires sent == base + Stuff(done) && crc == Crc16.Crc(done, start)
      modifies `sent
      ensures sent == base + Stuff(done + data) && crc' == Crc16.Crc(done + data, start)
    {
      crc' := WriteCrc(data, crc);
      Joined(done, data, start);
      Assoc(base, Stuff(done), Stuff(data));
    }

    method RequestStart(cmd: nat, callback: nat, retVal: nat, argc: nat) returns (crc: bv16)
      modifies `sent, `curCmd, `curCb
      ensures sent == old(sent) + [START] + Stuff(Header(cmd, callback, retVal, argc))
      ensures crc == Crc16.Crc(Header(cmd, callback, retVal, argc), 0)
      ensures curCmd == cmd && curCb == callback
    {
      UartWrite(START);
      ghost var base := sent;
      var a, b, c, d := Le(cmd, 2), Le(callback, 4), Le(retVal, 4), Le(argc, 2);
      crc := WriteCrc(a, 0);
      crc := WriteMore(b, crc, base, a, 0);
      crc := WriteMore(c, crc, base, a + b, 0);
      crc := WriteMore(d, crc, base, a + b + c, 0);
      curCmd := cmd;
      curCb := callback;
    }

    method RequestCont(start: bv16, data: seq<byte>) returns (crc: bv16)
      requires |data| < 0x1_0000
      modifies `sent
      ensures sent == old(sent) + Stuff(Arg(data))
      ensures crc == Crc16.Crc(Arg(data), start)
    {
      ghost var base := sent;
      var padLen := (|data| + 3) / 4 * 4 % 0x1_0000;
      var a, c := Le(padLen, 2), Zeros((padLen - |data|) % 0x1_0000);
      crc := WriteCrc(a, start);
      crc := WriteMore(data, crc, base, a, start);
      crc := WriteMore(c, crc, base, a + data, start);
    }

    method RequestEnd(crc: bv16)
      modifies `sent
      ensures sent == old(sent) + Stuff(CrcBytes(crc)) + [END]
    {
      var lo, hi := CrcBytes(crc)[0], CrcBytes(crc)[1];
      WriteByte(lo);
      WriteByte(hi);
      StuffTwo(lo, hi);
      UartWrite(END);
    }

    /** A whole request, with as many arguments as announced: exactly one frame is sent. */
    method SendRequest(q: Request)
      requires forall i :: 0 <= i < |q.args| ==> |q.args[i]| < 0x1_0000
      modifies `sent, `curCmd, `curCb
      ensures sent == old(sent) + Frame(q)
      ensures curCmd == q.cmd && curCb == q.callback
    {
      ghost var base := sent + [START];
      var crc := RequestStart(q.cmd, q.callback, q.ret, |q.args|);
      ghost var done := Header(q.cmd, q.callback, q.ret, |q.args|);
      for i := 0 to |q.args|
        invariant sent == base + Stuff(done) && crc == Crc16.Crc(done, 0)
        invariant done + Args(q.args[i..]) == Body(q)
        invariant curCmd == q.cmd && curCb == q.callback
      {
        crc := RequestCont(crc, q.args[i]);
        OneArgument(base, done, q.args, i);
        done := done + Arg(q.args[i]);
      }
      assert done == Body(q);
      RequestEnd(crc);
      WholeFrame(old(sent), q);
    }

    // ---- Receiving ----

    /** esp_proto_completed_cb. A walk that leaves the buffer counts as a failed check. */
    method CompletedCb()
      requires Valid()
      modifies `isReturn, `ret, `calls
      ensures Abs() == Completed(old(Abs()))
    {
      var ok := CheckBuffer();
      if ok {
        if curCmd == FromLe(buf[..2]) {
          isReturn := true;
          ret := FromLe(buf[6..10]);
          if curCb != 0 {
            calls := calls + [buf[..]];
          }
        }
      }
    }

    method CheckBuffer() returns (ok: bool)
      requires Valid()
      ensures ok <==> Intact(buf[..])
    {
      var s := buf[..];
      var argc := FromLe(s[10..12]);
      var pos := HEADER;
      var crc := Crc16.Data(s[..HEADER], 0);
      while argc > 0
        invariant HEADER <= pos <= BUF_SIZE
        invariant crc == Crc16.Crc(s[..pos], 0)
        invariant Walk(s, HEADER, Argc(s)) == Walk(s, pos, argc)
      {
        if pos + 2 > BUF_SIZE { return false; }
        var next := pos + 2 + FromLe(s[pos..pos + 2]);
        if next > BUF_SIZE { return false; }
        crc := Crc16.Data(s[pos..pos + 2], crc);
        crc := Crc16.Data(s[pos + 2..next], crc);
        CrcOver(s, pos, pos + 2);
        CrcOver(s, pos + 2, next);
        pos, argc := next, argc - 1;
      }
      if pos + 2 > BUF_SIZE { return false; }
      ok := crc == CrcField(s[pos], s[pos + 1]);
    }

    /** esp_process, on the bytes waiting in the receive ring. */
    method Process(input: seq<byte>)
      requires Valid()
      modifies buf, `len, `esc, `begun, `isReturn, `ret, `calls
      ensures Valid()
      ensures Abs() == FeedAll(old(Abs()), input)
    {
      for i := 0 to |input|
        invariant Valid()
        invariant FeedAll(Abs(), input[i..]) == FeedAll(old(Abs()), input)
      {
        var value := input[i];
        ghost var s := Abs();
        assert input[i..][1..] == input[i + 1..];
        if value == REPL {
          esc := true;
        } else if value == START {
          len, esc, begun := 0, false, true;
        } else if value == END {
          CompletedCb();
          begun := false;
        } else {
          if esc {
            value := value ^ 0x20;
            esc := false;
          }
          if len < BUF_SIZE {
            buf[len] := value;
            len := len + 1;
          }
        }
        assert Abs() == Feed(s, input[i]);
      }
    }

    /** What one driver sends, another one with the matching command pending reports. */
    method Deliver(q: Request, peer: Driver)
      requires Valid() && peer.Valid() && peer != this && peer.buf != buf
      requires WellFormed(q) && curCmd == q.cmd
      modifies buf, this, peer
      ensures isReturn && ret == q.ret && curCmd == q.cmd
      ensures calls == old(calls) + (if old(curCb) != 0 then [buf[..]] else [])
      ensures buf[..|Payload(q)|] == Payload(q) && Carries(buf[..], q)
    {
      ArgsFit(q.args);
      var mark := |peer.sent|;
      peer.SendRequest(q);
      var wire := peer.sent[mark..];
      assert wire == Frame(q);
      ghost var s := Abs();
      Process(wire);
      FrameRoundTrip(s, q);
      assert buf[..] == Stored(s.buf, 0, Payload(q));
    }
  }

  lemma Joined(a: seq<byte>, b: seq<byte>, start: bv16)
    ensures Stuff(a + b) == Stuff(a) + Stuff(b)
    ensures Crc16.Crc(a + b, start) == Crc16.Crc(b, Crc16.Crc(a, start))
  {
    StuffConcat(a, b);
    Crc16.CrcConcat(a, b, start);
  }

  lemma OneArgument(base: seq<byte>, done: seq<byte>, args: seq<seq<byte>>, i: nat)
    requires i < |args|
    ensures base + Stuff(done) + Stuff(Arg(args[i])) == base + Stuff(done + Arg(args[i]))
    ensures Crc16.Crc(Arg(args[i]), Crc16.Crc(done, 0)) == Crc16.Crc(done + Arg(args[i]), 0)
    ensures done + Args(args[i..]) == done + Arg(args[i]) + Args(args[i + 1..])
  {
    Joined(done, Arg(args[i]), 0);
    Assoc(base, Stuff(done), Stuff(Arg(args[i])));
    assert args[i..][1..] == args[i + 1..];
    Assoc(done, Arg(args[i]), Args(args[i + 1..]));
  }

  lemma CrcOver(s: seq<byte>, a: nat, b: nat)
    requires a <= b <= |s|
    ensures Crc16.Crc(s[a..b], Crc16.Crc(s[..a], 0)) == Crc16.Crc(s[..b], 0)
  {
    Crc16.CrcConcat(s[..a], s[a..b], 0);
    assert s[..a] + s[a..b] == s[..b];
  }

  lemma WholeFrame(was: seq<byte>, q: Request)
    ensures was + [START] + Stuff(Body(q)) + Stuff(CrcBytes(Crc16.Crc(Body(q), 0))) + [END] == was + Frame(q)
  {
    StuffConcat(Body(q), CrcBytes(Crc16.Crc(Body(q), 0)));
  }

  lemma StuffTwo(a: byte, b: byte)
    ensures Stuff([a, b]) == StuffByte(a) + StuffByte(b)
  {
    assert [a, b][1..] == [b] && [b][1..] == [];
    assert Stuff([b]) == StuffByte(b) + [];
  }

  lemma {:induction false} ArgsFit(args: seq<seq<byte>>)
    ensures forall i :: 0 <= i < |args| ==> |args[i]| <= |Args(args)|
  {
    if args != [] {
      ArgsFit(args[1..]);
      assert forall i :: 0 < i < |args| ==> args[i] == args[1..][i - 1];
    }
  }
}
