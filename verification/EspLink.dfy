/** ESP-link framing: length-prefixed requests with a checksum, byte-stuffed between start and
    end markers, and the byte-at-a-time decoder that rebuilds and checks them. */
module EspLink {
  import opened BitBytes
  import Crc16

  const REPL: byte := 0x7D
  const START: byte := 0x7E
  const END: byte := 0x7F
  const BUF_SIZE := 512
  const HEADER := 12

  // ---- Little-endian fields ----

  function Le(v: nat, n: nat): (r: seq<byte>)
    ensures |r| == n
  {
    if n == 0 then [] else [(v % 256) as byte] + Le(v / 256, n - 1)
  }

  function FromLe(s: seq<byte>): nat {
    if s == [] then 0 else s[0] as int + 256 * FromLe(s[1..])
  }

  function CrcBytes(c: bv16): (r: seq<byte>)
    ensures |r| == 2
  {
    [(c & 0xff) as byte, (c >> 8) as byte]
  }

  function CrcField(lo: byte, hi: byte): bv16 { (lo as bv16) | ((hi as bv16) << 8) }

  lemma CrcFieldRoundTrip(c: bv16)
    ensures CrcField(CrcBytes(c)[0], CrcBytes(c)[1]) == c
  {
  }

  /** The low byte comes first. */
  lemma FieldOrder(s: seq<byte>)
    ensures |s| == 2 ==> FromLe(s) == s[0] as int + 0x100 * (s[1] as int)
    ensures |s| == 4 ==>
      FromLe(s) == s[0] as int + 0x100 * (s[1] as int) + 0x1_0000 * (s[2] as int) + 0x100_0000 * (s[3] as int)
  {
    if |s| == 2 {
      assert s[1..][1..] == [];
    } else if |s| == 4 {
      assert s[1..][1..][1..][1..] == [];
    }
  }

  /** So it does in the checksum field. */
  lemma CrcBytesOrder(c: bv16)
    ensures CrcBytes(c) == [(c % 0x100) as byte, (c / 0x100) as byte]
  {
  }

  lemma ByteBack(b: byte)
    ensures (b as int) as byte == b
  {
  }

  lemma NextByte(b: byte)
    requires b != 0xff
    ensures (b + 1) as int == b as int + 1
  {
  }

  lemma {:induction false} ByteRoundTrip(v: nat)
    requires v < 256
    ensures (v as byte) as int == v
  {
    if v == 0 {
      assert (0 as byte) as int == 0;
    } else {
      ByteRoundTrip(v - 1);
      var b := (v - 1) as byte;
      assert b != 0xff;
      NextByte(b);
      ByteBack(b + 1);
    }
  }

  lemma {:induction false} LeRoundTrip(v: nat, n: nat, limit: nat)
    requires v < limit && limit == Pow256(n)
    ensures FromLe(Le(v, n)) == v
    decreases n
  {
    if n > 0 {
      ByteRoundTrip(v % 256);
      LeRoundTrip(v / 256, n - 1, Pow256(n - 1));
    }
  }

  function Pow256(n: nat): nat {
    if n == 0 then 1 else 256 * Pow256(n - 1)
  }

  // ---- Requests ----

  datatype Request = Request(cmd: nat, callback: nat, ret: nat, args: seq<seq<byte>>)

  function Padded(len: nat): nat { (len + 3) / 4 * 4 % 0x1_0000 }

  function Zeros(n: nat): seq<byte> { seq(n, _ => 0) }

  /** One argument: its length rounded up to whole words, the data, and zero padding. */
  function Arg(data: seq<byte>): seq<byte> {
    Le(Padded(|data|), 2) + data + Zeros((Padded(|data|) - |data|) % 0x1_0000)
  }

  function Args(args: seq<seq<byte>>): seq<byte> {
    if args == [] then [] else Arg(args[0]) + Args(args[1..])
  }

  function Header(cmd: nat, callback: nat, ret: nat, argc: nat): (h: seq<byte>)
    ensures |h| == HEADER
  {
    Le(cmd, 2) + Le(callback, 4) + Le(ret, 4) + Le(argc, 2)
  }

  function Body(q: Request): seq<byte> {
    Header(q.cmd, q.callback, q.ret, |q.args|) + Args(q.args)
  }

  /** Body and checksum, as the decoder will hold them. */
  function Payload(q: Request): seq<byte> { Body(q) + CrcBytes(Crc16.Crc(Body(q), 0)) }

  predicate Special(b: byte) { b == START || b == END || b == REPL }

  /** esp_write_byte */
  function StuffByte(b: byte): seq<byte> { if Special(b) then [REPL, b ^ 0x20] else [b] }

  function Stuff(s: seq<byte>): seq<byte> {
    if s == [] then [] else StuffByte(s[0]) + Stuff(s[1..])
  }

  function Frame(q: Request): seq<byte> { [START] + Stuff(Payload(q)) + [END] }

  predicate WellFormed(q: Request) {
    && q.cmd < 0x1_0000 && q.callback < 0x1_0000_0000 && q.ret < 0x1_0000_0000
    && |Payload(q)| <= BUF_SIZE
  }

  // ---- The decoder as a transition function ----

  /** The decoder fields, the pending command and its callback (zero for none), and what
      completion has reported. `calls` holds the buffer passed to each callback. */
  datatype Link = Link(buf: seq<byte>, len: nat, esc: bool, begun: bool,
                       curCmd: nat, curCb: nat, isReturn: bool, ret: nat, calls: seq<seq<byte>>)

  datatype End = At(pos: nat) | Outside

  /** Where the walk over `argc` arguments from `pos` ends, if it stays in the buffer. */
  function Walk(buf: seq<byte>, pos: nat, argc: nat): (e: End)
    ensures e.At? ==> pos <= e.pos <= |buf|
    decreases argc
  {
    if pos > |buf| then Outside
    else if argc == 0 then At(pos)
    else if pos + 2 > |buf| then Outside
    else Walk(buf, pos + 2 + FromLe(buf[pos..pos + 2]), argc - 1)
  }

  function Argc(buf: seq<byte>): nat
    requires |buf| >= HEADER
  {
    FromLe(buf[10..12])
  }

  /** The checksum in the buffer is the one of the data before it. */
  predicate Intact(buf: seq<byte>)
    requires |buf| >= HEADER
  {
    var e := Walk(buf, HEADER, Argc(buf));
    e.At? && e.pos + 2 <= |buf| && Crc16.Crc(buf[..e.pos], 0) == CrcField(buf[e.pos], buf[e.pos + 1])
  }

  function Called(s: Link, buf: seq<byte>): seq<seq<byte>> {
    if s.curCb != 0 then s.calls + [buf] else s.calls
  }

  /** esp_proto_completed_cb */
  function Completed(s: Link): Link
    requires |s.buf| == BUF_SIZE
  {
    if Intact(s.buf) && FromLe(s.buf[..2]) == s.curCmd then
      s.(isReturn := true, ret := FromLe(s.buf[6..10]), calls := Called(s, s.buf))
    else s
  }

  /** One byte through esp_process. */
  function Feed(s: Link, value: byte): (r: Link)
    requires |s.buf| == BUF_SIZE
    ensures |r.buf| == BUF_SIZE
  {
    if value == REPL then s.(esc := true)
    else if value == START then s.(len := 0, esc := false, begun := true)
    else if value == END then Completed(s).(begun := false)
    else
      var v := if s.esc then value ^ 0x20 else value;
      if s.len < BUF_SIZE then s.(esc := false, buf := s.buf[s.len := v], len := s.len + 1)
      else s.(esc := false)
  }

  function FeedAll(s: Link, input: seq<byte>): (r: Link)
    requires |s.buf| == BUF_SIZE
    ensures |r.buf| == BUF_SIZE
    decreases |input|
  {
    if input == [] then s else FeedAll(Feed(s, input[0]), input[1..])
  }

  lemma {:induction false} FeedConcat(s: Link, a: seq<byte>, b: seq<byte>)
    requires |s.buf| == BUF_SIZE
    ensures FeedAll(s, a + b) == FeedAll(FeedAll(s, a), b)
    decreases |a|
  {
    if a == [] {
      assert a + b == b;
    } else {
      assert (a + b)[1..] == a[1..] + b;
      FeedConcat(Feed(s, a[0]), a[1..], b);
    }
  }

  // ---- Round trip ----

  lemma Escaped(b: byte)
    requires Special(b)
    ensures !Special(b ^ 0x20) && (b ^ 0x20) ^ 0x20 == b
  {
  }

  lemma UnstuffsByte(s: Link, b: byte)
    requires |s.buf| == BUF_SIZE && !s.esc && s.len < BUF_SIZE
    ensures FeedAll(s, StuffByte(b)) == s.(buf := s.buf[s.len := b], len := s.len + 1)
  {
    if Special(b) {
      Escaped(b);
      var t := Feed(s, REPL);
      assert StuffByte(b)[1..] == [b ^ 0x20];
      assert FeedAll(s, StuffByte(b)) == FeedAll(t, [b ^ 0x20]);
      FeedOne(t, b ^ 0x20);
    } else {
      FeedOne(s, b);
    }
  }

  lemma FeedOne(s: Link, b: byte)
    requires |s.buf| == BUF_SIZE
    ensures FeedAll(s, [b]) == Feed(s, b)
  {
    assert [b][1..] == [];
  }

  /** The buffer with `data` stored from `at` on. */
  function Stored(buf: seq<byte>, at: nat, data: seq<byte>): (r: seq<byte>)
    requires at + |data| <= |buf|
    ensures |r| == |buf|
  {
    buf[..at] + data + buf[at + |data|..]
  }

  /** Feeding stuffed bytes appends the original bytes to the buffer. */
  lemma {:induction false} UnstuffsStuff(s: Link, data: seq<byte>)
    requires |s.buf| == BUF_SIZE && !s.esc && s.len + |data| <= BUF_SIZE
    ensures FeedAll(s, Stuff(data)) == s.(buf := Stored(s.buf, s.len, data), len := s.len + |data|)
    decreases |data|
  {
    if data == [] {
      StoreNothing(s.buf, s.len);
    } else {
      var s1 := s.(buf := s.buf[s.len := data[0]], len := s.len + 1);
      UnstuffsByte(s, data[0]);
      FeedConcat(s, StuffByte(data[0]), Stuff(data[1..]));
      UnstuffsStuff(s1, data[1..]);
      StoreOneMore(s.buf, s.len, data);
    }
  }

  lemma StoreNothing(buf: seq<byte>, at: nat)
    requires at <= |buf|
    ensures Stored(buf, at, []) == buf
  {
  }

  lemma StoreOneMore(buf: seq<byte>, at: nat, data: seq<byte>)
    requires data != [] && at + |data| <= |buf|
    ensures Stored(buf[at := data[0]], at + 1, data[1..]) == Stored(buf, at, data)
  {
  }

  /** A buffer of `data` followed by whatever was there. */
  predicate Holds(buf: seq<byte>, at: nat, data: seq<byte>) {
    at + |data| <= |buf| && buf[at..at + |data|] == data
  }

  lemma HoldsParts(buf: seq<byte>, at: nat, a: seq<byte>, b: seq<byte>)
    requires Holds(buf, at, a + b)
    ensures Holds(buf, at, a) && Holds(buf, at + |a|, b)
  {
    var s := buf[at..at + |a + b|];
    assert s[..|a|] == a && s[|a|..] == b;
    assert s[..|a|] == buf[at..at + |a|] && s[|a|..] == buf[at + |a|..at + |a| + |b|];
  }

  lemma PaddedBound(n: nat)
    requires n <= BUF_SIZE
    ensures n <= Padded(n) <= n + 3 && (Padded(n) - n) % 0x1_0000 == Padded(n) - n
  {
  }

  lemma ArgLength(data: seq<byte>)
    requires |data| <= BUF_SIZE
    ensures |Arg(data)| == 2 + Padded(|data|) && Padded(|data|) < 0x1_0000
  {
    PaddedBound(|data|);
  }

  /** At `pos` there is the length of an argument in whole words, its data, and zeros. */
  ghost predicate ArgAt(buf: seq<byte>, pos: nat, data: seq<byte>) {
    var end := pos + 2 + Padded(|data|);
    && pos + 2 + |data| <= end <= |buf| && FromLe(buf[pos..pos + 2]) == Padded(|data|)
    && buf[pos + 2..pos + 2 + |data|] == data && forall k :: pos + 2 + |data| <= k < end ==> buf[k] == 0
  }

  lemma ArgHeld(buf: seq<byte>, pos: nat, data: seq<byte>)
    requires |buf| == BUF_SIZE && Holds(buf, pos, Arg(data))
    ensures |Arg(data)| == 2 + Padded(|data|) && ArgAt(buf, pos, data)
  {
    ArgLength(data);
    PaddedBound(|data|);
    var len, zeros := Le(Padded(|data|), 2), Zeros(Padded(|data|) - |data|);
    HoldsParts(buf, pos, len + data, zeros);
    HoldsParts(buf, pos, len, data);
    TwoBytes(Padded(|data|));
    var at := pos + 2 + |data|;
    forall k | at <= k < at + |zeros| ensures buf[k] == 0 {
      assert buf[at..at + |zeros|][k - at] == zeros[k - at];
    }
  }

  /** The `i`-th argument lies where the walk over the ones before it ends, up to where it goes on. */
  ghost predicate ArgFound(buf: seq<byte>, pos: nat, i: nat, data: seq<byte>) {
    var e := Walk(buf, pos, i);
    e.At? && ArgAt(buf, e.pos, data) && Walk(buf, pos, i + 1) == At(e.pos + 2 + Padded(|data|))
  }

  lemma {:induction false} ArgsFound(buf: seq<byte>, pos: nat, args: seq<seq<byte>>, i: nat)
    requires |buf| == BUF_SIZE && Holds(buf, pos, Args(args)) && i < |args|
    ensures ArgFound(buf, pos, i, args[i])
    decreases i
  {
    HoldsParts(buf, pos, Arg(args[0]), Args(args[1..]));
    ArgHeld(buf, pos, args[0]);
    var next := pos + 2 + Padded(|args[0]|);
    if i > 0 {
      ArgsFound(buf, next, args[1..], i - 1);
      FoundBehind(buf, pos, args[0], next, i - 1, args[i]);
    } else {
      WalkSkips(buf, pos, args[0], 0);
    }
  }

  lemma WalkSkips(buf: seq<byte>, pos: nat, data: seq<byte>, n: nat)
    requires ArgAt(buf, pos, data)
    ensures Walk(buf, pos, n + 1) == Walk(buf, pos + 2 + Padded(|data|), n)
  {
  }

  lemma FoundBehind(buf: seq<byte>, pos: nat, first: seq<byte>, next: nat, i: nat, data: seq<byte>)
    requires ArgAt(buf, pos, first) && next == pos + 2 + Padded(|first|) && ArgFound(buf, next, i, data)
    ensures ArgFound(buf, pos, i + 1, data)
  {
    WalkSkips(buf, pos, first, i);
    WalkSkips(buf, pos, first, i + 1);
  }

  /** All of a request can be read from the buffer: the fields of the header, and each argument. */
  ghost predicate Carries(buf: seq<byte>, q: Request)
    requires |buf| >= HEADER
  {
    && FromLe(buf[..2]) == q.cmd && FromLe(buf[2..6]) == q.callback && FromLe(buf[6..10]) == q.ret
    && FromLe(buf[10..12]) == |q.args| && forall i :: 0 <= i < |q.args| ==> ArgFound(buf, HEADER, i, q.args[i])
  }

  /** The walk skips exactly the encoded arguments. */
  lemma {:induction false} WalkArgs(buf: seq<byte>, pos: nat, args: seq<seq<byte>>)
    requires |buf| == BUF_SIZE && Holds(buf, pos, Args(args))
    ensures Walk(buf, pos, |args|) == At(pos + |Args(args)|)
    decreases |args|
  {
    if args != [] {
      HoldsParts(buf, pos, Arg(args[0]), Args(args[1..]));
      ArgHeld(buf, pos, args[0]);
      WalkArgs(buf, pos + |Arg(args[0])|, args[1..]);
    }
  }

  lemma TwoBytes(v: nat)
    requires v < 0x1_0000
    ensures FromLe(Le(v, 2)) == v
  {
    assert Pow256(2) == 256 * (256 * Pow256(0));
    LeRoundTrip(v, 2, 0x1_0000);
  }

  lemma FourBytes(v: nat)
    requires v < 0x1_0000_0000
    ensures FromLe(Le(v, 4)) == v
  {
    assert Pow256(2) == 256 * (256 * Pow256(0));
    assert Pow256(4) == 256 * (256 * Pow256(2));
    LeRoundTrip(v, 4, 0x1_0000_0000);
  }

  /** A body that the walk covers, followed by its checksum, passes the check. */
  lemma IntactParts(buf: seq<byte>, body: seq<byte>)
    requires |buf| >= HEADER && Holds(buf, 0, body) && Holds(buf, |body|, CrcBytes(Crc16.Crc(body, 0)))
    requires Walk(buf, HEADER, Argc(buf)) == At(|body|)
    ensures Intact(buf)
  {
    var n, crc := |body|, CrcBytes(Crc16.Crc(body, 0));
    assert buf[..n] == body;
    assert buf[n..n + 2][0] == buf[n] && buf[n..n + 2][1] == buf[n + 1];
    CrcFieldRoundTrip(Crc16.Crc(body, 0));
  }

  /** A buffer that holds a request's payload passes the check, with the request's fields. */
  lemma PayloadIntact(buf: seq<byte>, q: Request)
    requires |buf| == BUF_SIZE && WellFormed(q) && Holds(buf, 0, Payload(q))
    ensures Intact(buf) && Carries(buf, q)
    ensures Argc(buf) == |q.args| && Walk(buf, HEADER, |q.args|) == At(|Body(q)|)
  {
    var body, header := Body(q), Header(q.cmd, q.callback, q.ret, |q.args|);
    HoldsParts(buf, 0, body, CrcBytes(Crc16.Crc(body, 0)));
    HoldsParts(buf, 0, header, Args(q.args));
    ArgsCount(q.args);
    HeaderFields(buf, q.cmd, q.callback, q.ret, |q.args|);
    WalkArgs(buf, HEADER, q.args);
    forall i | 0 <= i < |q.args| ensures ArgFound(buf, HEADER, i, q.args[i]) {
      ArgsFound(buf, HEADER, q.args, i);
    }
    IntactParts(buf, body);
  }

  lemma {:induction false} ArgsCount(args: seq<seq<byte>>)
    ensures 2 * |args| <= |Args(args)|
  {
    if args != [] {
      ArgsCount(args[1..]);
    }
  }

  lemma HeaderFields(buf: seq<byte>, cmd: nat, callback: nat, ret: nat, argc: nat)
    requires cmd < 0x1_0000 && callback < 0x1_0000_0000 && ret < 0x1_0000_0000 && argc < 0x1_0000
    requires Holds(buf, 0, Header(cmd, callback, ret, argc))
    ensures FromLe(buf[..2]) == cmd && FromLe(buf[2..6]) == callback
    ensures FromLe(buf[6..10]) == ret && FromLe(buf[10..12]) == argc
  {
    var a, b, c, d := Le(cmd, 2), Le(callback, 4), Le(ret, 4), Le(argc, 2);
    HoldsParts(buf, 0, a + b + c, d);
    HoldsParts(buf, 0, a + b, c);
    HoldsParts(buf, 0, a, b);
    TwoBytes(cmd);
    FourBytes(callback);
    FourBytes(ret);
    TwoBytes(argc);
    assert buf[..2] == a && buf[2..6] == b && buf[6..10] == c && buf[10..12] == d;
  }

  /** The state after a frame: the payload at the start of the buffer, and, when the command is
      the expected one, its return value reported and its callback run. */
  function Received(s: Link, q: Request): (r: Link)
    requires |s.buf| == BUF_SIZE && WellFormed(q)
    ensures |r.buf| == BUF_SIZE
  {
    var t := s.(buf := Stored(s.buf, 0, Payload(q)), len := |Payload(q)|, esc := false, begun := false);
    if q.cmd == s.curCmd then t.(isReturn := true, ret := q.ret, calls := Called(s, t.buf)) else t
  }

  /** The decoder just before the end of a frame with this payload. */
  function Loaded(s: Link, p: seq<byte>): (r: Link)
    requires |s.buf| == BUF_SIZE >= |p|
    ensures |r.buf| == BUF_SIZE
  {
    s.(buf := Stored(s.buf, 0, p), len := |p|, esc := false, begun := true)
  }

  /** From any state, the start byte and the stuffed payload load the buffer. */
  lemma FrameLoads(s: Link, p: seq<byte>)
    requires |s.buf| == BUF_SIZE >= |p|
    ensures FeedAll(s, [START] + Stuff(p)) == Loaded(s, p)
  {
    FeedConcat(s, [START], Stuff(p));
    FeedOne(s, START);
    UnstuffsStuff(Feed(s, START), p);
  }

  /** The end byte completes the request. */
  lemma EndCompletes(s: Link, q: Request)
    requires |s.buf| == BUF_SIZE && WellFormed(q)
    ensures Feed(Loaded(s, Payload(q)), END) == Received(s, q)
  {
    PayloadLoads(s.buf, q);
    CompletedIntact(Loaded(s, Payload(q)), q.cmd, q.ret);
    LoadedCompletes(s, q, Loaded(s, Payload(q)));
  }

  lemma LoadedCompletes(s: Link, q: Request, t: Link)
    requires |s.buf| == BUF_SIZE && WellFormed(q) && t == Loaded(s, Payload(q))
    requires Completed(t) ==
      if q.cmd == t.curCmd then t.(isReturn := true, ret := q.ret, calls := Called(t, t.buf)) else t
    ensures Feed(t, END) == Received(s, q)
  {
  }

  lemma StoredHolds(buf: seq<byte>, p: seq<byte>)
    requires |p| <= |buf|
    ensures Holds(Stored(buf, 0, p), 0, p)
  {
  }

  lemma CompletedIntact(t: Link, cmd: nat, ret: nat)
    requires |t.buf| == BUF_SIZE && Intact(t.buf) && FromLe(t.buf[..2]) == cmd && FromLe(t.buf[6..10]) == ret
    ensures Completed(t) == if cmd == t.curCmd then t.(isReturn := true, ret := ret, calls := Called(t, t.buf)) else t
  {
  }

  /** Frame round trip, from any decoder state. */
  lemma FrameRoundTrip(s: Link, q: Request)
    requires |s.buf| == BUF_SIZE && WellFormed(q)
    ensures FeedAll(s, Frame(q)) == Received(s, q) && Carries(Received(s, q).buf, q)
  {
    var p := Payload(q);
    FeedConcat(s, [START] + Stuff(p), [END]);
    FrameLoads(s, p);
    FeedOne(Loaded(s, p), END);
    EndCompletes(s, q);
    PayloadLoads(s.buf, q);
  }

  function Frames(qs: seq<Request>): seq<byte> {
    if qs == [] then [] else Frame(qs[0]) + Frames(qs[1..])
  }

  function ReceivedAll(s: Link, qs: seq<Request>): (r: Link)
    requires |s.buf| == BUF_SIZE && forall i :: 0 <= i < |qs| ==> WellFormed(qs[i])
    ensures |r.buf| == BUF_SIZE
    decreases |qs|
  {
    if qs == [] then s else ReceivedAll(Received(s, qs[0]), qs[1..])
  }

  /** Concatenated frames are decoded one by one. */
  lemma {:induction false} FramesRoundTrip(s: Link, qs: seq<Request>)
    requires |s.buf| == BUF_SIZE && forall i :: 0 <= i < |qs| ==> WellFormed(qs[i])
    ensures FeedAll(s, Frames(qs)) == ReceivedAll(s, qs)
    decreases |qs|
  {
    if qs != [] {
      FeedConcat(s, Frame(qs[0]), Frames(qs[1..]));
      FrameRoundTrip(s, qs[0]);
      FramesRoundTrip(Received(s, qs[0]), qs[1..]);
    }
  }

  // ---- Damaged frames ----

  /** Position `i` is read by the walk as part of a length prefix. */
  predicate InPrefix(buf: seq<byte>, pos: nat, argc: nat, i: nat)
    decreases argc
  {
    argc > 0 && pos + 2 <= |buf|
    && (pos <= i < pos + 2 || InPrefix(buf, pos + 2 + FromLe(buf[pos..pos + 2]), argc - 1, i))
  }

  lemma {:induction false} WalkUnchanged(a: seq<byte>, b: seq<byte>, pos: nat, argc: nat)
    requires |a| == |b|
    requires forall i :: 0 <= i < |a| && InPrefix(a, pos, argc, i) ==> a[i] == b[i]
    ensures Walk(a, pos, argc) == Walk(b, pos, argc)
    decreases argc
  {
    if argc > 0 && pos + 2 <= |a| {
      assert InPrefix(a, pos, argc, pos) && InPrefix(a, pos, argc, pos + 1);
      assert a[pos..pos + 2] == b[pos..pos + 2];
      var next := pos + 2 + FromLe(a[pos..pos + 2]);
      forall i | 0 <= i < |a| && InPrefix(a, next, argc - 1, i) ensures a[i] == b[i] {
        assert InPrefix(a, pos, argc, i);
      }
      WalkUnchanged(a, b, next, argc - 1);
    }
  }

  lemma DamagedBody(buf: seq<byte>, damaged: seq<byte>, i: nat, n: nat)
    requires |buf| == |damaged| && i + 1 < n <= |buf| && buf != damaged
    requires forall j :: 0 <= j < |buf| && j != i && j != i + 1 ==> buf[j] == damaged[j]
    ensures Crc16.Crc(buf[..n], 0) != Crc16.Crc(damaged[..n], 0)
  {
    var x, y := buf[..n], damaged[..n];
    assert x != y by {
      var j :| 0 <= j < |buf| && buf[j] != damaged[j];
      assert x[j] != y[j];
    }
    Crc16.DetectsDamage(x, y, i, 0);
  }

  lemma DamageBreaksCheck(buf: seq<byte>, damaged: seq<byte>, i: nat)
    requires |buf| == BUF_SIZE == |damaged| && Intact(buf) && buf != damaged
    requires i + 1 < Walk(buf, HEADER, Argc(buf)).pos
    requires forall j :: 0 <= j < BUF_SIZE && j != i && j != i + 1 ==> buf[j] == damaged[j]
    requires damaged[10] == buf[10] && damaged[11] == buf[11]
    requires forall j :: 0 <= j < BUF_SIZE && InPrefix(buf, HEADER, Argc(buf), j) ==> buf[j] == damaged[j]
    ensures !Intact(damaged)
  {
    var n := Walk(buf, HEADER, Argc(buf)).pos;
    assert buf[10..12] == damaged[10..12];
    WalkUnchanged(buf, damaged, HEADER, Argc(buf));
    assert buf[n] == damaged[n] && buf[n + 1] == damaged[n + 1];
    DamagedBody(buf, damaged, i, n);
  }

  /** An intact buffer damaged in two adjacent bytes before its checksum, outside the argument
      count and the length prefixes, is dropped: nothing is reported. */
  lemma DamagedFrameDropped(s: Link, damaged: seq<byte>, i: nat)
    requires |s.buf| == BUF_SIZE == |damaged| && Intact(s.buf) && s.buf != damaged
    requires i + 1 < Walk(s.buf, HEADER, Argc(s.buf)).pos
    requires forall j :: 0 <= j < BUF_SIZE && j != i && j != i + 1 ==> s.buf[j] == damaged[j]
    requires damaged[10] == s.buf[10] && damaged[11] == s.buf[11]
    requires forall j :: 0 <= j < BUF_SIZE && InPrefix(s.buf, HEADER, Argc(s.buf), j) ==> s.buf[j] == damaged[j]
    ensures !Intact(damaged)
    ensures Completed(s.(buf := damaged)) == s.(buf := damaged)
  {
    DamageBreaksCheck(s.buf, damaged, i);
  }

  /** Two loads of a buffer differ where the payloads do. */
  lemma LoadsDiffer(buf: seq<byte>, p: seq<byte>, d: seq<byte>)
    requires |p| == |d| <= |buf| && p != d
    ensures Stored(buf, 0, p) != Stored(buf, 0, d)
    ensures forall j :: 0 <= j < |buf| && (j < |p| ==> p[j] == d[j]) ==> Stored(buf, 0, p)[j] == Stored(buf, 0, d)[j]
  {
    assert Stored(buf, 0, p)[..|p|] == p && Stored(buf, 0, d)[..|p|] == d;
  }

  /** A payload damaged in two adjacent bytes before its checksum, outside the argument count and
      the length prefixes. */
  ghost predicate Damaged(buf: seq<byte>, p: seq<byte>, d: seq<byte>, body: nat, argc: nat, i: nat) {
    && |d| == |p| && d != p && i + 1 < body <= |p| && |p| > 11 && d[10] == p[10] && d[11] == p[11]
    && (forall j :: 0 <= j < |p| && j != i && j != i + 1 ==> d[j] == p[j])
    && (forall j :: 0 <= j < |p| && InPrefix(buf, HEADER, argc, j) ==> d[j] == p[j])
  }

  lemma DamagedLoad(buf: seq<byte>, p: seq<byte>, d: seq<byte>, body: nat, argc: nat, i: nat)
    requires |buf| == BUF_SIZE >= |p| && Damaged(Stored(buf, 0, p), p, d, body, argc, i)
    requires Intact(Stored(buf, 0, p)) && Argc(Stored(buf, 0, p)) == argc
    requires Walk(Stored(buf, 0, p), HEADER, argc) == At(body)
    ensures !Intact(Stored(buf, 0, d))
  {
    LoadsDiffer(buf, p, d);
    DamageBreaksCheck(Stored(buf, 0, p), Stored(buf, 0, d), i);
  }

  /** A frame that fails the check loads the buffer and reports nothing. */
  lemma BrokenIsDropped(s: Link, d: seq<byte>)
    requires |s.buf| == BUF_SIZE >= |d| && !Intact(Stored(s.buf, 0, d))
    ensures FeedAll(s, [START] + Stuff(d) + [END]) == Loaded(s, d).(begun := false)
  {
    FeedConcat(s, [START] + Stuff(d), [END]);
    FrameLoads(s, d);
    FeedOne(Loaded(s, d), END);
  }

  lemma PayloadLoads(buf: seq<byte>, q: Request)
    requires |buf| == BUF_SIZE && WellFormed(q)
    ensures |Payload(q)| <= BUF_SIZE && Intact(Stored(buf, 0, Payload(q)))
    ensures Argc(Stored(buf, 0, Payload(q))) == |q.args|
    ensures Walk(Stored(buf, 0, Payload(q)), HEADER, |q.args|) == At(|Body(q)|)
    ensures Carries(Stored(buf, 0, Payload(q)), q)
  {
    StoredHolds(buf, Payload(q));
    PayloadIntact(Stored(buf, 0, Payload(q)), q);
  }

  lemma DamagedFrame(s: Link, p: seq<byte>, d: seq<byte>, body: nat, argc: nat, i: nat)
    requires |s.buf| == BUF_SIZE >= |p| && Damaged(Stored(s.buf, 0, p), p, d, body, argc, i)
    requires Intact(Stored(s.buf, 0, p)) && Argc(Stored(s.buf, 0, p)) == argc
    requires Walk(Stored(s.buf, 0, p), HEADER, argc) == At(body)
    ensures FeedAll(s, [START] + Stuff(d) + [END]) == Loaded(s, d).(begun := false)
  {
    DamagedLoad(s.buf, p, d, body, argc, i);
    BrokenIsDropped(s, d);
  }

  /** The same on the wire: from any decoder state, a frame whose payload was damaged so before it
      was stuffed loads the buffer and reports nothing. */
  lemma DamagedOnTheWire(s: Link, q: Request, d: seq<byte>, i: nat)
    requires |s.buf| == BUF_SIZE && WellFormed(q)
    requires Damaged(Stored(s.buf, 0, Payload(q)), Payload(q), d, |Body(q)|, |q.args|, i)
    ensures FeedAll(s, [START] + Stuff(d) + [END]) == Loaded(s, d).(begun := false)
  {
    PayloadLoads(s.buf, q);
    DamagedFrame(s, Payload(q), d, |Body(q)|, |q.args|, i);
  }
}
