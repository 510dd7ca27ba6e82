/** The CRC-7 of the SPI protocol: the driver's table computes the remainder of polynomial
    division over GF(2) by x^7 + x^3 + 1. */
module Crc7 {
  import opened BitBytes
  import opened BitDivision

  // ---- The table, laid out as in the driver: 32 rows of eight ----

  function Pick(at: byte, a: byte, b: byte, c: byte, d: byte, e: byte, f: byte, g: byte, h: byte): byte {
    if at == 0 then a else if at == 1 then b else if at == 2 then c else if at == 3 then d
    else if at == 4 then e else if at == 5 then f else if at == 6 then g else h
  }

  function Quarter0(row: byte, at: byte): byte {
    if row == 0 then Pick(at, 0x00, 0x09, 0x12, 0x1b, 0x24, 0x2d, 0x36, 0x3f)
    else if row == 1 then Pick(at, 0x48, 0x41, 0x5a, 0x53, 0x6c, 0x65, 0x7e, 0x77)
    else if row == 2 then Pick(at, 0x19, 0x10, 0x0b, 0x02, 0x3d, 0x34, 0x2f, 0x26)
    else if row == 3 then Pick(at, 0x51, 0x58, 0x43, 0x4a, 0x75, 0x7c, 0x67, 0x6e)
    else if row == 4 then Pick(at, 0x32, 0x3b, 0x20, 0x29, 0x16, 0x1f, 0x04, 0x0d)
    else if row == 5 then Pick(at, 0x7a, 0x73, 0x68, 0x61, 0x5e, 0x57, 0x4c, 0x45)
    else if row == 6 then Pick(at, 0x2b, 0x22, 0x39, 0x30, 0x0f, 0x06, 0x1d, 0x14)
    else Pick(at, 0x63, 0x6a, 0x71, 0x78, 0x47, 0x4e, 0x55, 0x5c)
  }

  function Quarter1(row: byte, at: byte): byte {
    if row == 8 then Pick(at, 0x64, 0x6d, 0x76, 0x7f, 0x40, 0x49, 0x52, 0x5b)
    else if row == 9 then Pick(at, 0x2c, 0x25, 0x3e, 0x37, 0x08, 0x01, 0x1a, 0x13)
    else if row == 10 then Pick(at, 0x7d, 0x74, 0x6f, 0x66, 0x59, 0x50, 0x4b, 0x42)
    else if row == 11 then Pick(at, 0x35, 0x3c, 0x27, 0x2e, 0x11, 0x18, 0x03, 0x0a)
    else if row == 12 then Pick(at, 0x56, 0x5f, 0x44, 0x4d, 0x72, 0x7b, 0x60, 0x69)
    else if row == 13 then Pick(at, 0x1e, 0x17, 0x0c, 0x05, 0x3a, 0x33, 0x28, 0x21)
    else if row == 14 then Pick(at, 0x4f, 0x46, 0x5d, 0x54, 0x6b, 0x62, 0x79, 0x70)
    else Pick(at, 0x07, 0x0e, 0x15, 0x1c, 0x23, 0x2a, 0x31, 0x38)
  }

  function Quarter2(row: byte, at: byte): byte {
    if row == 16 then Pick(at, 0x41, 0x48, 0x53, 0x5a, 0x65, 0x6c, 0x77, 0x7e)
    else if row == 17 then Pick(at, 0x09, 0x00, 0x1b, 0x12, 0x2d, 0x24, 0x3f, 0x36)
    else if row == 18 then Pick(at, 0x58, 0x51, 0x4a, 0x43, 0x7c, 0x75, 0x6e, 0x67)
    else if row == 19 then Pick(at, 0x10, 0x19, 0x02, 0x0b, 0x34, 0x3d, 0x26, 0x2f)
    else if row == 20 then Pick(at, 0x73, 0x7a, 0x61, 0x68, 0x57, 0x5e, 0x45, 0x4c)
    else if row == 21 then Pick(at, 0x3b, 0x32, 0x29, 0x20, 0x1f, 0x16, 0x0d, 0x04)
    else if row == 22 then Pick(at, 0x6a, 0x63, 0x78, 0x71, 0x4e, 0x47, 0x5c, 0x55)
    else Pick(at, 0x22, 0x2b, 0x30, 0x39, 0x06, 0x0f, 0x14, 0x1d)
  }

  function Quarter3(row: byte, at: byte): byte {
    if row == 24 then Pick(at, 0x25, 0x2c, 0x37, 0x3e, 0x01, 0x08, 0x13, 0x1a)
    else if row == 25 then Pick(at, 0x6d, 0x64, 0x7f, 0x76, 0x49, 0x40, 0x5b, 0x52)
    else if row == 26 then Pick(at, 0x3c, 0x35, 0x2e, 0x27, 0x18, 0x11, 0x0a, 0x03)
    else if row == 27 then Pick(at, 0x74, 0x7d, 0x66, 0x6f, 0x50, 0x59, 0x42, 0x4b)
    else if row == 28 then Pick(at, 0x17, 0x1e, 0x05, 0x0c, 0x33, 0x3a, 0x21, 0x28)
    else if row == 29 then Pick(at, 0x5f, 0x56, 0x4d, 0x44, 0x7b, 0x72, 0x69, 0x60)
    else if row == 30 then Pick(at, 0x0e, 0x07, 0x1c, 0x15, 0x2a, 0x23, 0x38, 0x31)
    else Pick(at, 0x46, 0x4f, 0x54, 0x5d, 0x62, 0x6b, 0x70, 0x79)
  }

  /** crc7_syndrome_table */
  function Syndrome(v: byte): byte {
    var row, at := v >> 3, v & 7;
    if row < 8 then Quarter0(row, at) else if row < 16 then Quarter1(row, at)
    else if row < 24 then Quarter2(row, at) else Quarter3(row, at)
  }

  /** crc7_byte. The index is a byte as long as the register has seven bits. */
  function CrcByte(crc: byte, data: byte): byte {
    Syndrome((crc << 1) ^ data)
  }

  // ---- Bit by bit ----

  /** One step of the shift register, with the data's most significant bit: feed back x^3 + 1
      when the bit shifted out differs from the bit coming in. */
  function Step(c: byte, d: byte): byte {
    if (c & 0x40 != 0) != (d & 0x80 != 0) then ((c << 1) & 0x7f) ^ 0x09 else (c << 1) & 0x7f
  }

  /** `n` steps, the data's most significant bit first. */
  function Serial(c: byte, d: byte, n: nat): byte
    decreases n
  {
    if n == 0 then c else Serial(Step(c, d), d << 1, n - 1)
  }

  // ---- The register and the data in one byte ----

  /** A step on the two together. */
  function Next(x: byte): byte {
    if x & 0x80 != 0 then (x << 1) ^ 0x12 else x << 1
  }

  /** The byte `x` carries the register `c` and the data `d` to come. */
  predicate Folded(c: byte, d: byte, x: byte) {
    c < 0x80 && x == (c << 1) ^ d
  }

  lemma FoldBits(c: byte, d: byte)
    ensures ((c << 1) ^ d) & 0x80 != 0 <==> ((c & 0x40 != 0) != (d & 0x80 != 0))
    ensures ((c << 1) ^ d) << 1 == (((c << 1) & 0x7f) << 1) ^ (d << 1)
    ensures (((c << 1) ^ d) << 1) ^ 0x12 == ((((c << 1) & 0x7f) ^ 0x09) << 1) ^ (d << 1)
    ensures (c << 1) & 0x7f < 0x80 && ((c << 1) & 0x7f) ^ 0x09 < 0x80
  {
  }

  lemma FoldTop(c: byte, d: byte, x: byte)
    requires x == (c << 1) ^ d
    ensures x & 0x80 != 0 <==> ((c & 0x40 != 0) != (d & 0x80 != 0))
  {
    FoldBits(c, d);
  }

  lemma FoldZero(c: byte, d: byte, x: byte)
    requires x == (c << 1) ^ d
    ensures (c << 1) & 0x7f < 0x80 && x << 1 == (((c << 1) & 0x7f) << 1) ^ (d << 1)
  {
    FoldBits(c, d);
  }

  lemma FoldOne(c: byte, d: byte, x: byte)
    requires x == (c << 1) ^ d
    ensures ((c << 1) & 0x7f) ^ 0x09 < 0x80 && (x << 1) ^ 0x12 == ((((c << 1) & 0x7f) ^ 0x09) << 1) ^ (d << 1)
  {
    FoldBits(c, d);
  }

  lemma Fold(c: byte, d: byte, x: byte)
    requires Folded(c, d, x)
    ensures Folded(Step(c, d), d << 1, Next(x))
  {
    FoldTop(c, d, x);
    FoldZero(c, d, x);
    FoldOne(c, d, x);
  }

  function Nexts(x: byte, n: nat): byte
    decreases n
  {
    if n == 0 then x else Nexts(Next(x), n - 1)
  }

  function Shifted(d: byte, n: nat): byte
    decreases n
  {
    if n == 0 then d else Shifted(d << 1, n - 1)
  }

  lemma {:induction false} SerialFolds(c: byte, d: byte, x: byte, n: nat)
    requires Folded(c, d, x)
    ensures Folded(Serial(c, d, n), Shifted(d, n), Nexts(x, n))
    decreases n
  {
    if n > 0 {
      Fold(c, d, x);
      SerialFolds(Step(c, d), d << 1, Next(x), n - 1);
    }
  }

  lemma ShiftedOut(d: byte)
    ensures Shifted(d, 8) == 0
  {
    assert Shifted(d, 8) == Shifted(d << 1 << 1 << 1 << 1, 4);
  }

  function Four(x: byte): byte { Next(Next(Next(Next(x)))) }

  lemma FirstQuarter(v: byte)
    requires v < 0x40
    ensures Syndrome(v) << 1 == Four(Four(v)) && Syndrome(v) < 0x80
  {
  }

  lemma SecondQuarter(v: byte)
    requires 0x40 <= v < 0x80
    ensures Syndrome(v) << 1 == Four(Four(v)) && Syndrome(v) < 0x80
  {
  }

  lemma ThirdQuarter(v: byte)
    requires 0x80 <= v < 0xc0
    ensures Syndrome(v) << 1 == Four(Four(v)) && Syndrome(v) < 0x80
  {
  }

  lemma LastQuarter(v: byte)
    requires 0xc0 <= v
    ensures Syndrome(v) << 1 == Four(Four(v)) && Syndrome(v) < 0x80
  {
  }

  lemma EightNexts(v: byte)
    ensures Nexts(v, 8) == Four(Four(v))
  {
    assert Nexts(v, 8) == Nexts(Four(v), 4);
  }

  lemma TableDivides(v: byte)
    ensures Syndrome(v) << 1 == Four(Four(v)) && Syndrome(v) < 0x80
  {
    if v < 0x40 {
      FirstQuarter(v);
    } else if v < 0x80 {
      SecondQuarter(v);
    } else if v < 0xc0 {
      ThirdQuarter(v);
    } else {
      LastQuarter(v);
    }
  }

  lemma Halve(a: byte, b: byte)
    requires a < 0x80 && b < 0x80 && a << 1 == (b << 1) ^ 0
    ensures a == b
  {
  }

  /** Seven bits that agree with the byte's steps are the register's. */
  lemma SerialIs(crc: byte, data: byte, v: byte, t: byte, n: nat)
    requires Folded(crc, data, v) && Shifted(data, n) == 0 && t < 0x80 && t << 1 == Nexts(v, n)
    ensures t == Serial(crc, data, n)
  {
    SerialFolds(crc, data, v, n);
    Halve(t, Serial(crc, data, n));
  }

  /** The table gives what eight steps of the register give. */
  lemma CrcByteIsSerial(crc: byte, data: byte)
    requires crc < 0x80
    ensures CrcByte(crc, data) == Serial(crc, data, 8) && CrcByte(crc, data) < 0x80
  {
    var v := (crc << 1) ^ data;
    TableDivides(v);
    ShiftedOut(data);
    EightNexts(v);
    SerialIs(crc, data, v, Syndrome(v), 8);
  }

  // ---- Whole messages ----

  function Crc(crc: byte, data: seq<byte>): byte
    decreases |data|
  {
    if data == [] then crc else Crc(CrcByte(crc, data[0]), data[1..])
  }

  /** crc7 */
  method Compute(start: byte, data: seq<byte>) returns (crc: byte)
    ensures crc == Crc(start, data)
  {
    crc := start;
    for i := 0 to |data|
      invariant Crc(crc, data[i..]) == Crc(start, data)
    {
      crc := CrcByte(crc, data[i]);
    }
  }

  lemma {:induction false} CrcConcat(crc: byte, a: seq<byte>, b: seq<byte>)
    ensures Crc(crc, a + b) == Crc(Crc(crc, a), b)
    decreases |a|
  {
    if a == [] {
      assert a + b == b;
    } else {
      assert (a + b)[1..] == a[1..] + b;
      CrcConcat(CrcByte(crc, a[0]), a[1..], b);
    }
  }

  lemma {:induction false} CrcHasSevenBits(crc: byte, data: seq<byte>)
    requires crc < 0x80
    ensures Crc(crc, data) < 0x80
    decreases |data|
  {
    if data != [] {
      CrcByteIsSerial(crc, data[0]);
      CrcHasSevenBits(CrcByte(crc, data[0]), data[1..]);
    }
  }

  // ---- Long division ----

  /** x^7 + x^3 + 1 */
  function Generator(): (g: seq<bool>)
    ensures |g| == 8 && forall i :: 0 <= i < 8 ==> g[i] == (i == 0 || i == 4 || i == 7)
  {
    [true, false, false, false, true, false, false, true]
  }

  /** `r` is the register as a polynomial, highest power first. */
  predicate Matches(c: byte, r: seq<bool>) {
    && |r| == 7 && c < 0x80
    && (r[0] <==> c & 0x40 != 0) && (r[1] <==> c & 0x20 != 0) && (r[2] <==> c & 0x10 != 0) && (r[3] <==> c & 0x8 != 0)
    && (r[4] <==> c & 0x4 != 0) && (r[5] <==> c & 0x2 != 0) && (r[6] <==> c & 0x1 != 0)
  }

  /** The first `n` bits of a byte, most significant first. */
  function Bits(d: byte, n: nat): (r: seq<bool>)
    ensures |r| == n
    decreases n
  {
    if n == 0 then [] else [d & 0x80 != 0] + Bits(d << 1, n - 1)
  }

  function MessageBits(data: seq<byte>): (r: seq<bool>)
    ensures |r| == 8 * |data|
  {
    if data == [] then [] else Bits(data[0], 8) + MessageBits(data[1..])
  }

  /** One step, position by position. */
  predicate OneStep(r: seq<bool>, t: bool, r': seq<bool>) {
    && |r| == 7 && |r'| == 7
    && r'[0] == r[1] && r'[1] == r[2] && r'[2] == r[3] && r'[3] == (r[4] != t)
    && r'[4] == r[5] && r'[5] == r[6] && r'[6] == t
  }

  lemma ShiftIsOneStep(r: seq<bool>, bit: bool)
    requires |r| == 7
    ensures OneStep(r, r[0] != bit, Shift(Generator(), r, bit))
  {
  }

  lemma FedBack(c: byte, s: byte)
    requires s == ((c << 1) & 0x7f) ^ 0x09
    ensures s < 0x80 && (s & 0x40 != 0 <==> c & 0x20 != 0) && (s & 0x20 != 0 <==> c & 0x10 != 0)
    ensures (s & 0x10 != 0 <==> c & 0x8 != 0) && (s & 0x8 != 0 <==> c & 0x4 == 0)
    ensures (s & 0x4 != 0 <==> c & 0x2 != 0) && (s & 0x2 != 0 <==> c & 0x1 != 0) && s & 0x1 != 0
  {
  }

  lemma NotFedBack(c: byte, s: byte)
    requires s == (c << 1) & 0x7f
    ensures s < 0x80 && (s & 0x40 != 0 <==> c & 0x20 != 0) && (s & 0x20 != 0 <==> c & 0x10 != 0)
    ensures (s & 0x10 != 0 <==> c & 0x8 != 0) && (s & 0x8 != 0 <==> c & 0x4 != 0)
    ensures (s & 0x4 != 0 <==> c & 0x2 != 0) && (s & 0x2 != 0 <==> c & 0x1 != 0) && s & 0x1 == 0
  {
  }

  lemma StepMatches(c: byte, d: byte, r: seq<bool>, r': seq<bool>)
    requires Matches(c, r) && OneStep(r, r[0] != (d & 0x80 != 0), r')
    ensures Matches(Step(c, d), r')
  {
    if (c & 0x40 != 0) != (d & 0x80 != 0) {
      FedBack(c, Step(c, d));
    } else {
      NotFedBack(c, Step(c, d));
    }
  }

  lemma {:induction false} SerialMatches(c: byte, d: byte, n: nat, r: seq<bool>)
    requires Matches(c, r)
    ensures Matches(Serial(c, d, n), Lfsr(Generator(), r, Bits(d, n)))
    decreases n
  {
    if n > 0 {
      var r' := Shift(Generator(), r, d & 0x80 != 0);
      ShiftIsOneStep(r, d & 0x80 != 0);
      StepMatches(c, d, r, r');
      SerialMatches(Step(c, d), d << 1, n - 1, r');
      assert Bits(d, n)[1..] == Bits(d << 1, n - 1);
    }
  }

  lemma {:induction false} CrcMatches(crc: byte, data: seq<byte>, r: seq<bool>)
    requires Matches(crc, r)
    ensures Matches(Crc(crc, data), Lfsr(Generator(), r, MessageBits(data)))
    decreases |data|
  {
    if data != [] {
      CrcByteIsSerial(crc, data[0]);
      SerialMatches(crc, data[0], 8, r);
      CrcMatches(CrcByte(crc, data[0]), data[1..], Lfsr(Generator(), r, Bits(data[0], 8)));
      LfsrConcat(Generator(), r, Bits(data[0], 8), MessageBits(data[1..]));
    }
  }

  function Reg(c: byte): (r: seq<bool>)
    requires c < 0x80
    ensures Matches(c, r)
  {
    [c & 0x40 != 0, c & 0x20 != 0, c & 0x10 != 0, c & 0x8 != 0, c & 0x4 != 0, c & 0x2 != 0, c & 0x1 != 0]
  }

  /** crc7 is the remainder of the message times x^7, with the start value added to its leading
      coefficients, divided by x^7 + x^3 + 1. */
  lemma CrcIsRemainder(crc: byte, data: seq<byte>)
    requires crc < 0x80
    ensures Matches(Crc(crc, data), Remainder(Generator(), XorInto(Reg(crc), MessageBits(data) + Zeros(7))))
  {
    CrcMatches(crc, data, Reg(crc));
    LfsrIsRemainder(Generator(), Reg(crc), MessageBits(data));
  }

  lemma MatchesUnique(c: byte, r: seq<bool>, s: seq<bool>)
    requires Matches(c, r) && Matches(c, s)
    ensures r == s
  {
    assert forall i :: 0 <= i < 7 ==> r[i] == s[i];
  }

  /** Messages that differ only inside seven consecutive bits have different CRCs. */
  lemma CrcDetectsBurst(x: seq<byte>, y: seq<byte>, crc: byte, p: seq<bool>, u: seq<bool>, v: seq<bool>, s: seq<bool>)
    requires crc < 0x80 && |u| == |v| <= 7 && u != v
    requires MessageBits(x) == p + u + s && MessageBits(y) == p + v + s
    ensures Crc(crc, x) != Crc(crc, y)
  {
    var r := Reg(crc);
    CrcMatches(crc, x, r);
    CrcMatches(crc, y, r);
    DetectsBurst(Generator(), r, p, u, v, s);
    if Crc(crc, x) == Crc(crc, y) {
      MatchesUnique(Crc(crc, x), Lfsr(Generator(), r, p + u + s), Lfsr(Generator(), r, p + v + s));
    }
  }
}
