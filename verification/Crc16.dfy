/** The reflected CRC-16 of crc16.c: its meaning as polynomial long division over GF(2), its
    linearity, and the damage it always detects. */
module Crc16 {
  import opened BitBytes
  import opened BitDivision

  // ---- crc16_add, split at its five assignments; shifts and masks act on 16 bits ----

  function Swap(a: bv16): bv16 { (a >> 8) | (a << 8) }
  function Up4(a: bv16): bv16 { a ^ ((a & 0xff00) << 4) }
  function Down12(a: bv16): bv16 { a ^ ((a >> 8) >> 4) }
  function Down5(a: bv16): bv16 { a ^ ((a & 0xff00) >> 5) }

  function Mix(a: bv16): bv16 { Down5(Down12(Up4(Swap(a)))) }

  function Add(b: byte, acc: bv16): bv16 { Mix(acc ^ (b as bv16)) }

  function Crc(data: seq<byte>, acc: bv16): bv16 {
    if data == [] then acc else Crc(data[1..], Add(data[0], acc))
  }

  /** crc16_data */
  method Data(data: seq<byte>, start: bv16) returns (acc: bv16)
    ensures acc == Crc(data, start)
  {
    acc := start;
    for i := 0 to |data|
      invariant Crc(data[i..], acc) == Crc(data, start)
    {
      acc := Add(data[i], acc);
    }
  }

  lemma {:induction false} CrcConcat(a: seq<byte>, b: seq<byte>, acc: bv16)
    ensures Crc(a + b, acc) == Crc(b, Crc(a, acc))
  {
    if a == [] {
      assert a + b == b;
    } else {
      assert (a + b)[1..] == a[1..] + b;
      CrcConcat(a[1..], b, Add(a[0], acc));
    }
  }

  // ---- crc16_add is eight steps of a shift register, least significant bit first ----

  predicate Odd(c: bv16) { c & 1 != 0 }

  /** One step: feed back x^12 + x^5 + 1 when the bit shifted out differs from the bit coming in. */
  function Step(c: bv16, d: bv16): bv16 {
    if Odd(c) != Odd(d) then (c >> 1) ^ 0x8408 else c >> 1
  }

  function Serial(c: bv16, d: bv16, n: nat): bv16
    decreases n
  {
    if n == 0 then c else Serial(Step(c, d), d >> 1, n - 1)
  }

  /** A step on a register into which the data has been mixed. */
  function Next(x: bv16): bv16 {
    if Odd(x) then (x >> 1) ^ 0x8408 else x >> 1
  }

  function Nexts(x: bv16, n: nat): bv16
    decreases n
  {
    if n == 0 then x else Nexts(Next(x), n - 1)
  }

  function Shifted(d: bv16, n: nat): bv16
    decreases n
  {
    if n == 0 then d else Shifted(d >> 1, n - 1)
  }

  predicate IsXor(c: bv16, d: bv16, x: bv16) {
    x == c ^ d
  }

  lemma FoldBits(c: bv16, d: bv16)
    ensures (c ^ d) & 1 != 0 <==> ((c & 1 != 0) != (d & 1 != 0))
    ensures (c ^ d) >> 1 == (c >> 1) ^ (d >> 1)
    ensures ((c ^ d) >> 1) ^ 0x8408 == ((c >> 1) ^ 0x8408) ^ (d >> 1)
  {
  }

  lemma OddXor(c: bv16, d: bv16, x: bv16)
    requires IsXor(c, d, x)
    ensures Odd(x) == (Odd(c) != Odd(d))
  {
    FoldBits(c, d);
  }

  lemma FoldZero(c: bv16, d: bv16, x: bv16)
    requires x == c ^ d
    ensures x >> 1 == (c >> 1) ^ (d >> 1) && (x >> 1) ^ 0x8408 == ((c >> 1) ^ 0x8408) ^ (d >> 1)
  {
    FoldBits(c, d);
  }

  lemma Fold(c: bv16, d: bv16, x: bv16)
    requires IsXor(c, d, x)
    ensures IsXor(Step(c, d), d >> 1, Next(x))
  {
    OddXor(c, d, x);
    FoldZero(c, d, x);
  }

  lemma {:induction false} SerialFolds(c: bv16, d: bv16, x: bv16, n: nat)
    requires IsXor(c, d, x)
    ensures IsXor(Serial(c, d, n), Shifted(d, n), Nexts(x, n))
    decreases n
  {
    if n > 0 {
      Fold(c, d, x);
      SerialFolds(Step(c, d), d >> 1, Next(x), n - 1);
    }
  }

  function Four(x: bv16): bv16 { Next(Next(Next(Next(x)))) }

  /** Four steps in one: within them, no bit fed back is shifted out again. */
  lemma FourAtOnce(x: bv16)
    ensures Four(x) == (x >> 4) ^ ((x & 0xf) << 12) ^ ((x & 0xf) << 7) ^ (x & 0xf)
  {
  }

  lemma MixAtOnce(x: bv16, y: bv16)
    requires y == (x >> 4) ^ ((x & 0xf) << 12) ^ ((x & 0xf) << 7) ^ (x & 0xf)
    ensures Mix(x) == (y >> 4) ^ ((y & 0xf) << 12) ^ ((y & 0xf) << 7) ^ (y & 0xf)
  {
  }

  lemma EightNexts(x: bv16)
    ensures Nexts(x, 8) == Four(Four(x))
  {
    assert Nexts(x, 8) == Nexts(Four(x), 4);
  }

  lemma ByteShiftedOut(b: byte)
    ensures Shifted(b as bv16, 8) == 0
  {
    assert Shifted(b as bv16, 8) == Shifted((b as bv16) >> 1 >> 1 >> 1 >> 1, 4);
  }

  lemma SerialIs(c: bv16, d: bv16, x: bv16, n: nat)
    requires IsXor(c, d, x) && Shifted(d, n) == 0
    ensures Nexts(x, n) == Serial(c, d, n)
  {
    SerialFolds(c, d, x, n);
  }

  /** crc16_add runs the register over the byte, least significant bit first. */
  lemma AddIsSerial(b: byte, acc: bv16)
    ensures Add(b, acc) == Serial(acc, b as bv16, 8)
  {
    var x := acc ^ (b as bv16);
    FourAtOnce(x);
    FourAtOnce(Four(x));
    MixAtOnce(x, Four(x));
    EightNexts(x);
    ByteShiftedOut(b);
    SerialIs(acc, b as bv16, x, 8);
  }

  // ---- The register as a polynomial: its least significant bit is the highest power ----

  /** x^16 + x^12 + x^5 + 1 */
  function Generator(): (g: seq<bool>)
    ensures |g| == 17 && forall i :: 0 <= i < 17 ==> g[i] == (i == 0 || i == 4 || i == 11 || i == 16)
  {
    [true, false, false, false, true, false, false, false, false, false, false, true,
     false, false, false, false, true]
  }

  /** The first `n` bits of a word, least significant first. */
  function Bits(d: bv16, n: nat): (r: seq<bool>)
    ensures |r| == n
    decreases n
  {
    if n == 0 then [] else [Odd(d)] + Bits(d >> 1, n - 1)
  }

  const WIDTH := 16

  function Reg(c: bv16): (r: seq<bool>)
    ensures |r| == 16
  {
    Bits(c, WIDTH)
  }

  const BYTE := 8

  function ByteBits(b: byte): (r: seq<bool>)
    ensures |r| == 8
  {
    Bits(b as bv16, BYTE)
  }

  /** A message in the order of transmission. */
  function MessageBits(data: seq<byte>): (r: seq<bool>)
    ensures |r| == 8 * |data|
  {
    if data == [] then [] else ByteBits(data[0]) + MessageBits(data[1..])
  }

  predicate BitAt(c: bv16, i: nat) {
    Odd(Shifted(c, i))
  }

  lemma {:induction false} BitsAt(c: bv16, n: nat, i: nat)
    requires i < n
    ensures Bits(c, n)[i] == BitAt(c, i)
    decreases n
  {
    if i > 0 {
      BitsAt(c >> 1, n - 1, i - 1);
    }
  }

  lemma FoldedShift(x: bv16, y: bv16, z: bv16)
    requires IsXor(x, y, z)
    ensures IsXor(x >> 1, y >> 1, z >> 1)
  {
    FoldZero(x, y, z);
  }

  lemma {:induction false} ShiftedXor(x: bv16, y: bv16, z: bv16, i: nat)
    requires IsXor(x, y, z)
    ensures IsXor(Shifted(x, i), Shifted(y, i), Shifted(z, i))
    decreases i
  {
    if i > 0 {
      FoldedShift(x, y, z);
      ShiftedXor(x >> 1, y >> 1, z >> 1, i - 1);
    }
  }

  lemma BitAtXor(x: bv16, y: bv16, z: bv16, i: nat)
    requires IsXor(x, y, z)
    ensures BitAt(z, i) == (BitAt(x, i) != BitAt(y, i))
  {
    ShiftedXor(x, y, z, i);
    OddXor(Shifted(x, i), Shifted(y, i), Shifted(z, i));
  }

  lemma NothingBeyond(c: bv16)
    ensures Shifted(c, 16) == 0
  {
    var c4 := c >> 1 >> 1 >> 1 >> 1;
    var c8 := c4 >> 1 >> 1 >> 1 >> 1;
    var c12 := c8 >> 1 >> 1 >> 1 >> 1;
    assert c12 >> 1 >> 1 >> 1 >> 1 == 0;
    assert Shifted(c, 16) == Shifted(c4, 12) && Shifted(c4, 12) == Shifted(c8, 8) && Shifted(c8, 8) == Shifted(c12, 4);
  }

  lemma LowBits(c: bv16, i: nat)
    requires i < 4
    ensures BitAt(c, i) == if i == 0 then c & 1 != 0 else if i == 1 then c & 2 != 0
      else if i == 2 then c & 4 != 0 else c & 8 != 0
  {
    assert Shifted(c, 1) == c >> 1;
    assert Shifted(c, 2) == c >> 1 >> 1;
    assert Shifted(c, 3) == c >> 1 >> 1 >> 1;
  }

  lemma HighBits(c: bv16, h: bv16, i: nat)
    requires 4 <= i && h == c >> 1 >> 1 >> 1 >> 1
    ensures BitAt(c, i) == BitAt(h, i - 4)
  {
    var c1, c2, c3 := c >> 1, c >> 1 >> 1, c >> 1 >> 1 >> 1;
    assert Shifted(c, i) == Shifted(c1, i - 1);
    assert Shifted(c1, i - 1) == Shifted(c2, i - 2);
    assert Shifted(c2, i - 2) == Shifted(c3, i - 3);
    assert Shifted(c3, i - 3) == Shifted(h, i - 4);
  }

  lemma FeedbackBits(i: nat)
    requires i < 16
    ensures BitAt(0x8408, i) == Generator()[i + 1]
  {
    if i < 4 {
      LowBits(0x8408, i);
    } else {
      HighBits(0x8408, 0x840, i);
      if i < 8 {
        LowBits(0x840, i - 4);
      } else {
        HighBits(0x840, 0x84, i - 4);
        if i < 12 {
          LowBits(0x84, i - 8);
        } else {
          HighBits(0x84, 0x8, i - 8);
          LowBits(0x8, i - 12);
        }
      }
    }
  }

  lemma BitAtNext(c: bv16, i: nat)
    ensures BitAt(c, i + 1) == BitAt(c >> 1, i)
  {
    assert Shifted(c, i + 1) == Shifted(c >> 1, i);
  }

  /** What the polynomial's shift register does at one position. */
  lemma ShiftAt(r: seq<bool>, bit: bool, i: nat)
    requires |r| == WIDTH && i < WIDTH
    ensures Shift(Generator(), r, bit)[i] == ((i < 15 && r[i + 1]) != (r[0] != bit && Generator()[i + 1]))
  {
  }

  lemma FedAt(h: bv16, s: bv16, i: nat)
    requires i < WIDTH && IsXor(h, 0x8408, s)
    ensures BitAt(s, i) == (BitAt(h, i) != Generator()[i + 1])
  {
    BitAtXor(h, 0x8408, s, i);
    FeedbackBits(i);
  }

  lemma StepCases(c: bv16, d: bv16, h: bv16)
    requires h == c >> 1
    ensures if Odd(c) != Odd(d) then IsXor(h, 0x8408, Step(c, d)) else Step(c, d) == h
  {
  }

  /** What the register does at one position. */
  lemma RegisterAt(c: bv16, d: bv16, h: bv16, s: bv16, i: nat)
    requires i < WIDTH && h == c >> 1 && s == Step(c, d)
    ensures BitAt(s, i) == (BitAt(c, i + 1) != (Odd(c) != Odd(d) && Generator()[i + 1]))
  {
    BitAtNext(c, i);
    StepCases(c, d, h);
    if Odd(c) != Odd(d) {
      FedAt(h, s, i);
    }
  }

  lemma StepAt(c: bv16, d: bv16, i: nat)
    requires i < WIDTH
    ensures Reg(Step(c, d))[i] == Shift(Generator(), Reg(c), Odd(d))[i]
  {
    RegisterAt(c, d, c >> 1, Step(c, d), i);
    ShiftAt(Reg(c), Odd(d), i);
    BitsAt(Step(c, d), WIDTH, i);
    BitsAt(c, WIDTH, 0);
    if i < 15 {
      BitsAt(c, WIDTH, i + 1);
    } else {
      NothingBeyond(c);
    }
  }

  /** A step of the register is a step of the polynomial's shift register. */
  lemma StepShifts(c: bv16, d: bv16)
    ensures Reg(Step(c, d)) == Shift(Generator(), Reg(c), Odd(d))
  {
    forall i | 0 <= i < 16 ensures Reg(Step(c, d))[i] == Shift(Generator(), Reg(c), Odd(d))[i] {
      StepAt(c, d, i);
    }
  }

  lemma BitsParts(d: bv16, n: nat)
    requires n > 0
    ensures Bits(d, n)[0] == Odd(d) && Bits(d, n)[1..] == Bits(d >> 1, n - 1)
  {
  }

  lemma {:induction false} SerialShifts(c: bv16, d: bv16, n: nat)
    ensures Reg(Serial(c, d, n)) == Lfsr(Generator(), Reg(c), Bits(d, n))
    decreases n
  {
    if n > 0 {
      StepShifts(c, d);
      BitsParts(d, n);
      SerialShifts(Step(c, d), d >> 1, n - 1);
    }
  }

  lemma AddShifts(b: byte, acc: bv16)
    ensures Reg(Add(b, acc)) == Lfsr(Generator(), Reg(acc), ByteBits(b))
  {
    AddIsSerial(b, acc);
    SerialShifts(acc, b as bv16, BYTE);
  }

  lemma {:induction false} CrcShifts(data: seq<byte>, acc: bv16)
    ensures Reg(Crc(data, acc)) == Lfsr(Generator(), Reg(acc), MessageBits(data))
  {
    if data != [] {
      AddShifts(data[0], acc);
      CrcShifts(data[1..], Add(data[0], acc));
      LfsrConcat(Generator(), Reg(acc), ByteBits(data[0]), MessageBits(data[1..]));
    }
  }

  /** The checksum is the remainder of the message times x^16, divided by x^16 + x^12 + x^5 + 1,
      with the start value added to the leading coefficients of the message. */
  lemma CrcIsRemainder(data: seq<byte>, acc: bv16)
    ensures Reg(Crc(data, acc)) == Remainder(Generator(), XorInto(Reg(acc), MessageBits(data) + Zeros(16)))
  {
    CrcShifts(data, acc);
    LfsrIsRemainder(Generator(), Reg(acc), MessageBits(data));
  }

  /** Messages that differ only inside a window of sixteen bits, at any bit position, have
      different checksums. */
  lemma CrcDetectsBurst(x: seq<byte>, y: seq<byte>, acc: bv16, p: seq<bool>, u: seq<bool>, v: seq<bool>, s: seq<bool>)
    requires MessageBits(x) == p + u + s && MessageBits(y) == p + v + s
    requires |u| == |v| <= 16 && u != v
    ensures Crc(x, acc) != Crc(y, acc)
  {
    CrcShifts(x, acc);
    CrcShifts(y, acc);
    DetectsBurst(Generator(), Reg(acc), p, u, v, s);
  }

  // ---- Linearity ----

  predicate SameHalf(c: bv16, d: bv16) { c >> 1 == d >> 1 }

  lemma WordOfBits(c: bv16, d: bv16)
    requires SameHalf(c, d) && Odd(c) == Odd(d)
    ensures c == d
  {
  }

  lemma HalfUnique(c: bv16, d: bv16, n: nat)
    requires n > 0 && Bits(c, n) == Bits(d, n) && Shifted(c, n) == Shifted(d, n)
    ensures SameHalf(c, d)
    decreases n, 0
  {
    SameParts(c, d, n);
    BitsUnique(c >> 1, d >> 1, n - 1);
  }

  /** A word is known by its bits. */
  lemma {:induction false} BitsUnique(c: bv16, d: bv16, n: nat)
    requires Bits(c, n) == Bits(d, n) && Shifted(c, n) == Shifted(d, n)
    ensures c == d
    decreases n, 1
  {
    if n > 0 {
      HalfUnique(c, d, n);
      SameParts(c, d, n);
      WordOfBits(c, d);
    }
  }

  lemma SameParts(c: bv16, d: bv16, n: nat)
    requires n > 0 && Bits(c, n) == Bits(d, n) && Shifted(c, n) == Shifted(d, n)
    ensures Odd(c) == Odd(d) && Bits(c >> 1, n - 1) == Bits(d >> 1, n - 1)
    ensures Shifted(c >> 1, n - 1) == Shifted(d >> 1, n - 1)
  {
    BitsParts(c, n);
    BitsParts(d, n);
  }

  lemma RegUnique(c: bv16, d: bv16)
    requires Reg(c) == Reg(d)
    ensures c == d
  {
    NothingBeyond(c);
    NothingBeyond(d);
    BitsUnique(c, d, WIDTH);
  }

  lemma BitsXor(x: bv16, y: bv16, z: bv16, n: nat)
    requires IsXor(x, y, z)
    ensures Bits(z, n) == XorSeq(Bits(x, n), Bits(y, n))
  {
    forall i | 0 <= i < n ensures Bits(z, n)[i] == (Bits(x, n)[i] != Bits(y, n)[i]) {
      BitAtXor(x, y, z, i);
      BitsAt(x, n, i);
      BitsAt(y, n, i);
      BitsAt(z, n, i);
    }
  }

  function Xor(x: seq<byte>, y: seq<byte>): (z: seq<byte>)
    requires |x| == |y|
    ensures |z| == |x|
  {
    seq(|x|, i requires 0 <= i < |x| => x[i] ^ y[i])
  }

  lemma CastXor(b: byte, c: byte)
    ensures IsXor(b as bv16, c as bv16, (b ^ c) as bv16)
  {
  }

  lemma XorSeqConcat(a: seq<bool>, b: seq<bool>, c: seq<bool>, d: seq<bool>)
    requires |a| == |c| && |b| == |d|
    ensures XorSeq(a + b, c + d) == XorSeq(a, c) + XorSeq(b, d)
  {
  }

  lemma ByteBitsXor(b: byte, c: byte)
    ensures ByteBits(b ^ c) == XorSeq(ByteBits(b), ByteBits(c))
  {
    CastXor(b, c);
    BitsXor(b as bv16, c as bv16, (b ^ c) as bv16, BYTE);
  }

  lemma {:induction false} MessageBitsXor(x: seq<byte>, y: seq<byte>)
    requires |x| == |y|
    ensures MessageBits(Xor(x, y)) == XorSeq(MessageBits(x), MessageBits(y))
  {
    if x != [] {
      ByteBitsXor(x[0], y[0]);
      assert Xor(x, y)[1..] == Xor(x[1..], y[1..]);
      MessageBitsXor(x[1..], y[1..]);
      XorSeqConcat(ByteBits(x[0]), MessageBits(x[1..]), ByteBits(y[0]), MessageBits(y[1..]));
    }
  }

  function XorWord(a: bv16, b: bv16): (c: bv16)
    ensures IsXor(a, b, c)
  {
    a ^ b
  }

  /** The checksum of an XOR is the XOR of the checksums. */
  lemma CrcLinear(x: seq<byte>, y: seq<byte>, a: bv16, b: bv16)
    requires |x| == |y|
    ensures Crc(Xor(x, y), XorWord(a, b)) == XorWord(Crc(x, a), Crc(y, b))
  {
    var z, c, d := Xor(x, y), XorWord(a, b), XorWord(Crc(x, a), Crc(y, b));
    BitsXor(a, b, c, WIDTH);
    BitsXor(Crc(x, a), Crc(y, b), d, WIDTH);
    MessageBitsXor(x, y);
    CrcShifts(x, a);
    CrcShifts(y, b);
    CrcShifts(z, c);
    LfsrLinear(Generator(), Reg(a), Reg(b), MessageBits(x), MessageBits(y));
    RegUnique(Crc(z, c), d);
  }

  // ---- Damage to two adjacent bytes ----

  lemma {:induction false} MessageBitsConcat(a: seq<byte>, b: seq<byte>)
    ensures MessageBits(a + b) == MessageBits(a) + MessageBits(b)
  {
    if a == [] {
      assert a + b == b;
    } else {
      assert (a + b)[1..] == a[1..] + b;
      MessageBitsConcat(a[1..], b);
    }
  }

  lemma CastUnique(b: byte, c: byte)
    requires b as bv16 == c as bv16
    ensures b == c
  {
  }

  lemma ByteBitsUnique(b: byte, c: byte)
    requires ByteBits(b) == ByteBits(c)
    ensures b == c
  {
    ByteShiftedOut(b);
    ByteShiftedOut(c);
    BitsUnique(b as bv16, c as bv16, BYTE);
    CastUnique(b, c);
  }

  lemma {:induction false} MessageBitsUnique(x: seq<byte>, y: seq<byte>)
    requires |x| == |y| && MessageBits(x) == MessageBits(y)
    ensures x == y
  {
    if x != [] {
      var m, n := MessageBits(x), MessageBits(y);
      assert m[..8] == ByteBits(x[0]) && n[..8] == ByteBits(y[0]);
      assert m[8..] == MessageBits(x[1..]) && n[8..] == MessageBits(y[1..]);
      ByteBitsUnique(x[0], y[0]);
      MessageBitsUnique(x[1..], y[1..]);
    }
  }

  /** Damage confined to two adjacent bytes always changes the checksum. */
  lemma DetectsDamage(x: seq<byte>, y: seq<byte>, i: nat, acc: bv16)
    requires |x| == |y| && i < |x| && x != y
    requires forall j :: 0 <= j < |x| && j != i && j != i + 1 ==> x[j] == y[j]
    ensures Crc(x, acc) != Crc(y, acc)
  {
    var k := if i + 1 < |x| then i + 2 else i + 1;
    var p, u, v, s := x[..i], x[i..k], y[i..k], x[k..];
    assert p == y[..i] && s == y[k..];
    assert x == p + u + s && y == p + v + s;
    DamageAround(x, y, p, u, v, s, acc);
  }

  lemma DamageAround(x: seq<byte>, y: seq<byte>, p: seq<byte>, u: seq<byte>, v: seq<byte>, s: seq<byte>, acc: bv16)
    requires x == p + u + s && y == p + v + s && |u| == |v| <= 2 && u != v
    ensures Crc(x, acc) != Crc(y, acc)
  {
    MessageBitsConcat(p + u, s);
    MessageBitsConcat(p + v, s);
    MessageBitsConcat(p, u);
    MessageBitsConcat(p, v);
    if MessageBits(u) == MessageBits(v) {
      MessageBitsUnique(u, v);
    }
    CrcDetectsBurst(x, y, acc, MessageBits(p), MessageBits(u), MessageBits(v), MessageBits(s));
  }
}
