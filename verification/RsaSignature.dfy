/** PKCS#1 v1.5 signatures on the WINC1500 big-integer engine. */
module RsaSignature {
  import opened Bytes
  import opened Sequences
  import opened ModPower

  /** The engine's modular exponentiation on operands of whole words, least significant first: base,
      exponent, the number of bits in the exponent's last word, modulus. */
  type Engine = (seq<byte>, seq<byte>, nat, seq<byte>) -> seq<byte>

  /** `Never` stands for a call that does not return. */
  datatype Status = SignOk | SignFail | Never

  const EM_SIZE := 512
  const TMP_SIZE := 780
  const WORD := 0x1_0000_0000
  const MD5_DIGEST_SIZE := 16
  const SHA1_DIGEST_SIZE := 20

  const T_ENCODING_MD5: seq<byte> := [
    0x30, 0x20, 0x30, 0x0C, 0x06, 0x08, 0x2A, 0x86,
    0x48, 0x86, 0xF7, 0x0D, 0x02, 0x05, 0x05, 0x00, 0x04]
  const T_ENCODING_SHA1: seq<byte> := [
    0x30, 0x21, 0x30, 0x09, 0x06, 0x05, 0x2B, 0x0E,
    0x03, 0x02, 0x1A, 0x05, 0x00, 0x04]
  const T_ENCODING_SHA2: seq<byte> := [
    0x30, 0x31, 0x30, 0x0D, 0x06, 0x09, 0x60, 0x86,
    0x48, 0x01, 0x65, 0x03, 0x04, 0x02, 0x01, 0x05, 0x00, 0x04]

  function TEncoding(hashLength: nat): (t: seq<byte>)
    ensures 14 <= |t| <= 18
  {
    if hashLength == MD5_DIGEST_SIZE then T_ENCODING_MD5
    else if hashLength == SHA1_DIGEST_SIZE then T_ENCODING_SHA1
    else T_ENCODING_SHA2
  }

  function TLength(hashLength: nat): nat { |TEncoding(hashLength)| + 1 + hashLength }

  predicate Fits(n: nat, hash: seq<byte>) { n >= TLength(|hash|) + 11 }

  /** The block that signing builds: 0x00 || 0x01 || PS || 0x00 || T, where T is chosen by the
      length of the digest and holds that length in one byte. */
  function Encoding(n: nat, hash: seq<byte>): (em: seq<byte>)
    requires Fits(n, hash)
    ensures |em| == n
  {
    Layout(n - TLength(|hash|) - 3, TEncoding(|hash|), |hash| % 256, hash)
  }

  function Layout(ps: nat, t: seq<byte>, length: byte, hash: seq<byte>): (em: seq<byte>)
    ensures |em| == ps + 4 + |t| + |hash|
  {
    [0x00, 0x01] + Repeat(0xFF, ps) + [0x00] + t + [length] + hash
  }

  // ---- The standard ----

  /** The hash functions of section 9.2 of RFC 8017, note 1. */
  datatype Algorithm = Md2 | Md5 | Sha1 | Sha224 | Sha256 | Sha384 | Sha512 | Sha512t224 | Sha512t256

  function DigestSize(alg: Algorithm): (n: nat)
    ensures n <= 64
  {
    match alg
    case Md2 => 16
    case Md5 => 16
    case Sha1 => 20
    case Sha224 => 28
    case Sha256 => 32
    case Sha384 => 48
    case Sha512 => 64
    case Sha512t224 => 28
    case Sha512t256 => 32
  }

  function Oid(alg: Algorithm): (oid: seq<byte>)
    ensures |oid| <= 9
  {
    match alg
    case Md2 => [0x2A, 0x86, 0x48, 0x86, 0xF7, 0x0D, 0x02, 0x02]
    case Md5 => [0x2A, 0x86, 0x48, 0x86, 0xF7, 0x0D, 0x02, 0x05]
    case Sha1 => [0x2B, 0x0E, 0x03, 0x02, 0x1A]
    case Sha256 => [0x60, 0x86, 0x48, 0x01, 0x65, 0x03, 0x04, 0x02, 0x01]
    case Sha384 => [0x60, 0x86, 0x48, 0x01, 0x65, 0x03, 0x04, 0x02, 0x02]
    case Sha512 => [0x60, 0x86, 0x48, 0x01, 0x65, 0x03, 0x04, 0x02, 0x03]
    case Sha224 => [0x60, 0x86, 0x48, 0x01, 0x65, 0x03, 0x04, 0x02, 0x04]
    case Sha512t224 => [0x60, 0x86, 0x48, 0x01, 0x65, 0x03, 0x04, 0x02, 0x05]
    case Sha512t256 => [0x60, 0x86, 0x48, 0x01, 0x65, 0x03, 0x04, 0x02, 0x06]
  }

  /** A DER value shorter than 128 bytes: tag, length, contents. */
  function Der(tag: byte, body: seq<byte>): (r: seq<byte>)
    requires |body| < 128
    ensures |r| == 2 + |body|
  {
    [tag, |body|] + body
  }

  /** DigestInfo: a sequence of the algorithm, with null parameters, and the digest. */
  function DigestInfo(oid: seq<byte>, hash: seq<byte>): (t: seq<byte>)
    requires |oid| <= 9 && |hash| <= 64
    ensures |t| == 10 + |oid| + |hash|
  {
    Der(0x30, Der(0x30, Der(0x06, oid) + Der(0x05, [])) + Der(0x04, hash))
  }

  /** EMSA-PKCS1-v1_5 of section 9.2 of RFC 8017. */
  function Standard(n: nat, alg: Algorithm, hash: seq<byte>): seq<byte>
    requires |hash| == DigestSize(alg) && n >= |DigestInfo(Oid(alg), hash)| + 11
  {
    var t := DigestInfo(Oid(alg), hash);
    [0x00, 0x01] + Repeat(0xFF, n - |t| - 3) + [0x00] + t
  }

  /** DigestInfo up to the length of the digest: signing takes this part from a table. */
  function DigestPrefix(oid: seq<byte>, size: nat): (p: seq<byte>)
    requires |oid| <= 9 && size <= 64
    ensures |p| == 9 + |oid|
  {
    [0x30, 8 + |oid| + size, 0x30, 4 + |oid|, 0x06, |oid|] + oid + [0x05, 0x00, 0x04]
  }

  lemma DigestInfoParts(oid: seq<byte>, hash: seq<byte>)
    requires |oid| <= 9 && |hash| <= 64
    ensures DigestInfo(oid, hash) == DigestPrefix(oid, |hash|) + [|hash|] + hash
  {
    assert Der(0x06, oid) + Der(0x05, []) == [0x06, |oid|] + oid + [0x05, 0x00];
    var body := Der(0x30, Der(0x06, oid) + Der(0x05, [])) + Der(0x04, hash);
    assert body == [0x30, 4 + |oid|, 0x06, |oid|] + oid + [0x05, 0x00, 0x04, |hash|] + hash;
  }

  /** The table entry chosen by the length is the right one for three of the algorithms. */
  lemma TableIsStandard(alg: Algorithm)
    ensures |TEncoding(DigestSize(alg))| == |DigestPrefix(Oid(alg), DigestSize(alg))|
    ensures TEncoding(DigestSize(alg)) == DigestPrefix(Oid(alg), DigestSize(alg)) <==> alg in {Md5, Sha1, Sha256}
  {
    var t, p := TEncoding(DigestSize(alg)), DigestPrefix(Oid(alg), DigestSize(alg));
    if alg == Md2 {
      assert t[13] != p[13];
    } else if alg !in {Md5, Sha1, Sha256} {
      assert t[14] != p[14];
    }
  }

  /** Two blocks of these layouts agree exactly when their prefixes do. */
  lemma SameLayout(ps: nat, t: seq<byte>, p: seq<byte>, length: byte, hash: seq<byte>, block: seq<byte>)
    requires |t| == |p| && block == [0x00, 0x01] + Repeat(0xFF, ps) + [0x00] + (p + [length] + hash)
    ensures Layout(ps, t, length, hash) == block <==> t == p
  {
    var head, tail := [0x00, 0x01] + Repeat(0xFF, ps) + [0x00], [length] + hash;
    assert Layout(ps, t, length, hash) == head + t + tail;
    assert block == head + p + tail;
    SameAround(head, t, p, tail);
  }

  lemma StandardParts(n: nat, alg: Algorithm, hash: seq<byte>)
    requires |hash| == DigestSize(alg) && Fits(n, hash)
    ensures var p := DigestPrefix(Oid(alg), |hash|);
      && n >= |DigestInfo(Oid(alg), hash)| + 11 && n - TLength(|hash|) - 3 >= 0
      && Standard(n, alg, hash) == [0x00, 0x01] + Repeat(0xFF, n - TLength(|hash|) - 3) + [0x00] + (p + [|hash|] + hash)
  {
    DigestInfoParts(Oid(alg), hash);
    TableIsStandard(alg);
  }

  lemma EncodingIsTable(n: nat, alg: Algorithm, hash: seq<byte>)
    requires |hash| == DigestSize(alg) && Fits(n, hash)
    ensures n >= |DigestInfo(Oid(alg), hash)| + 11
    ensures Encoding(n, hash) == Standard(n, alg, hash) <==> TEncoding(|hash|) == DigestPrefix(Oid(alg), |hash|)
  {
    StandardParts(n, alg, hash);
    var p := DigestPrefix(Oid(alg), |hash|);
    assert |TEncoding(|hash|)| == |p| by { TableIsStandard(alg); }
    BlockIsTable(n, hash, p, Standard(n, alg, hash));
  }

  lemma BlockIsTable(n: nat, hash: seq<byte>, p: seq<byte>, block: seq<byte>)
    requires Fits(n, hash) && |hash| <= 64 && |p| == |TEncoding(|hash|)|
    requires block == [0x00, 0x01] + Repeat(0xFF, n - TLength(|hash|) - 3) + [0x00] + (p + [|hash|] + hash)
    ensures Encoding(n, hash) == block <==> TEncoding(|hash|) == p
  {
    SameLayout(n - TLength(|hash|) - 3, TEncoding(|hash|), p, |hash|, hash, block);
  }

  /** Signing builds the block of section 9.2 of RFC 8017 exactly for MD5, SHA-1 and SHA-256. */
  lemma EncodingIsStandard(n: nat, alg: Algorithm, hash: seq<byte>)
    requires |hash| == DigestSize(alg) && Fits(n, hash)
    ensures n >= |DigestInfo(Oid(alg), hash)| + 11
    ensures Encoding(n, hash) == Standard(n, alg, hash) <==> alg in {Md5, Sha1, Sha256}
  {
    EncodingIsTable(n, alg, hash);
    TableIsStandard(alg);
  }

  /** A SHA-384 digest gets the object identifier of SHA-256 and the outer length of a SHA-256
      value: 0x31 for 0x41. */
  lemma Sha384IsMislabelled(n: nat, hash: seq<byte>)
    requires |hash| == 48 && Fits(n, hash)
    ensures Encoding(n, hash) != Standard(n, Sha384, hash)
    ensures TEncoding(48)[1] == 0x31 && DigestPrefix(Oid(Sha384), 48)[1] == 0x41
  {
    EncodingIsStandard(n, Sha384, hash);
  }

  // ---- The layout and its fields ----

  predicate Padding(block: seq<byte>, ps: nat)
    requires |block| >= ps + 3
  {
    && block[0] == 0x00 && block[1] == 0x01
    && (forall j :: 2 <= j < ps + 2 ==> block[j] == 0xFF)
    && block[ps + 2] == 0x00
  }

  /** A block has the layout exactly when each of its fields is right. */
  lemma FieldsOfLayout(block: seq<byte>, ps: nat, t: seq<byte>, length: byte, hash: seq<byte>)
    requires |block| == ps + 4 + |t| + |hash|
    ensures block == Layout(ps, t, length, hash) <==>
      && Padding(block, ps)
      && block[ps + 3..ps + 3 + |t|] == t
      && block[ps + 3 + |t|] == length
      && block[ps + 4 + |t|..] == hash
  {
    var pad := [0x00, 0x01] + Repeat(0xFF, ps) + [0x00];
    assert Padding(block, ps) <==> block[..ps + 3] == pad by {
      if block[..ps + 3] == pad {
        assert forall j :: 0 <= j < ps + 3 ==> block[j] == pad[j];
      }
    }
    assert block == block[..ps + 3] + block[ps + 3..ps + 3 + |t|] + [block[ps + 3 + |t|]] + block[ps + 4 + |t|..];
    FourParts(block, pad, t, [length], hash);
  }

  lemma FourParts<T>(s: seq<T>, a: seq<T>, b: seq<T>, c: seq<T>, d: seq<T>)
    requires |s| == |a| + |b| + |c| + |d|
    ensures var i, j := |a| + |b|, |a| + |b| + |c|;
      s == a + b + c + d <==> s[..|a|] == a && s[|a|..i] == b && s[i..j] == c && s[j..] == d
  {
    var i, j := |a| + |b|, |a| + |b| + |c|;
    assert s == s[..|a|] + s[|a|..i] + s[i..j] + s[j..];
    if s == a + b + c + d {
      assert s[..|a|] == a && s[|a|..i] == b && s[i..j] == c && s[j..] == d;
    }
  }

  function Reversed(s: seq<byte>): (r: seq<byte>) { seq(|s|, i requires 0 <= i < |s| => s[|s| - 1 - i]) }

  lemma ReversedTwice(s: seq<byte>)
    ensures Reversed(Reversed(s)) == s
  {
  }

  method FlipBuffer(src: seq<byte>, dst: array<byte>)
    requires |src| <= dst.Length
    modifies dst
    ensures dst[..] == Reversed(src) + old(dst[|src|..])
  {
    for i := 0 to |src|
      invariant forall k :: 0 <= k < i ==> dst[k] == src[|src| - k - 1]
      invariant dst[|src|..] == old(dst[|src|..])
    {
      dst[i] := src[|src| - i - 1];
    }
  }

  // ---- The engine ----

  function WordSize(n: nat): (r: nat)
    ensures n <= r < n + 4 && r % 4 == 0
  {
    (n + 3) / 4 * 4
  }

  /** Least significant byte first, filled up to whole words. */
  function Operand(s: seq<byte>): (r: seq<byte>)
    ensures |r| == WordSize(|s|)
  {
    Reversed(s) + Repeat(0, WordSize(|s|) - |s|)
  }

  /** An operand as it is written to the chip, through a buffer that is cleared first. */
  method WriteOperand(src: seq<byte>, tmp: array<byte>) returns (block: seq<byte>)
    requires |src| <= TMP_SIZE == tmp.Length
    modifies tmp
    ensures block == Operand(src)
  {
    Memset(tmp, 0, 0, TMP_SIZE);
    FlipBuffer(src, tmp);
    block := tmp[..WordSize(|src|)];
  }

  function GetUint32(b: seq<byte>, at: nat): (w: nat)
    requires at + 4 <= |b|
    ensures w < WORD
  {
    var b0: nat, b1: nat, b2: nat, b3: nat := b[at], b[at + 1], b[at + 2], b[at + 3];
    b0 + 0x100 * b1 + 0x1_0000 * b2 + 0x100_0000 * b3
  }

  /** The most significant word of the exponent. */
  function TopWord(e: seq<byte>): (w: nat)
    requires e != []
    ensures w < WORD
  {
    GetUint32(Operand(e), WordSize(|e|) - 4)
  }

  /** It is zero exactly if the bytes of it that the caller gives are. */
  lemma TopWordIsZero(e: seq<byte>)
    requires e != []
    ensures TopWord(e) == 0 <==> forall i :: 0 <= i < |e| - (WordSize(|e|) - 4) ==> e[i] == 0
  {
    var b, at := Operand(e), WordSize(|e|) - 4;
    assert TopWord(e) == 0 <==> b[at] == 0 && b[at + 1] == 0 && b[at + 2] == 0 && b[at + 3] == 0;
    assert forall i :: 0 <= i < |e| - at ==> e[i] == b[|e| - 1 - i];
    assert b[at] == e[|e| - 1 - at];
    assert |e| - at > 1 ==> b[at + 1] == e[|e| - 2 - at];
    assert |e| - at > 2 ==> b[at + 2] == e[|e| - 3 - at];
    assert |e| - at > 3 ==> b[at + 3] == e[|e| - 4 - at];
  }

  function BitLength(w: nat): nat { if w == 0 then 0 else 1 + BitLength(w / 2) }

  /** A word shifted left `k` times in 32 bits. */
  function Shifted(w: nat, k: nat): nat
    decreases k
  {
    if k == 0 then w else Shifted(2 * w % WORD, k - 1)
  }

  /** Shifting a word ever brings a bit to the top exactly if it is not zero. */
  lemma {:induction false} ShiftingEnds(w: nat)
    requires w < WORD
    ensures (exists k: nat :: Shifted(w, k) >= WORD / 2) <==> w != 0
    decreases WORD - w
  {
    if w == 0 {
      forall k: nat ensures Shifted(0, k) == 0 {
        ZeroStays(k);
      }
    } else if w >= WORD / 2 {
      assert Shifted(w, 0) == w;
    } else {
      ShiftingEnds(2 * w);
      var k: nat :| Shifted(2 * w, k) >= WORD / 2;
      assert Shifted(w, k + 1) == Shifted(2 * w, k);
    }
  }

  lemma {:induction false} ZeroStays(k: nat)
    ensures Shifted(0, k) == 0
  {
    if k > 0 {
      ZeroStays(k - 1);
    }
  }

  lemma {:induction false} TopBitSet(w: nat, k: nat, p: nat)
    requires p == Power2(k) && p <= w < 2 * p
    ensures BitLength(w) == k + 1
  {
    if k > 0 {
      TopBitSet(w / 2, k - 1, Power2(k - 1));
    }
  }

  function Power2(k: nat): nat { if k == 0 then 1 else 2 * Power2(k - 1) }

  lemma PowersGrow()
    ensures Power2(31) == WORD / 2
  {
    assert Power2(5) == 0x20;
    assert Power2(10) == 0x400;
    assert Power2(15) == 0x8000;
    assert Power2(20) == 0x10_0000;
    assert Power2(25) == 0x200_0000;
    assert Power2(30) == 0x4000_0000;
  }

  /** The loop that counts the bits of the exponent's top word. */
  method MswBits(exponent: nat) returns (bits: nat)
    requires 0 < exponent < WORD
    ensures bits == BitLength(exponent)
  {
    var n, w := 32, exponent;
    while w < WORD / 2
      invariant 0 < w < WORD && BitLength(w) + n == BitLength(exponent) + 32
      decreases WORD - w
    {
      assert BitLength(2 * w) == 1 + BitLength(w);
      w, n := 2 * w, n - 1;
    }
    PowersGrow();
    TopBitSet(w, 31, WORD / 2);
    bits := n;
  }

  /** The result area is cleared before the engine writes to it. */
  function ReadBack(result: seq<byte>, n: nat): (r: seq<byte>)
    ensures |r| == n
  {
    if n <= |result| then result[..n] else result + Repeat(0, n - |result|)
  }

  /** The engine on a base least significant byte first. */
  function Exp(engine: Engine, y: seq<byte>, e: seq<byte>, m: seq<byte>): (r: seq<byte>)
    requires e != []
    ensures |r| == |y|
  {
    ReadBack(engine(y + Repeat(0, WordSize(|y|) - |y|), Operand(e), BitLength(TopWord(e)), Operand(m)), |y|)
  }

  /** Operands and result most significant byte first, as for the caller. */
  function ModExp(engine: Engine, x: seq<byte>, e: seq<byte>, m: seq<byte>): (r: seq<byte>)
    requires e != []
    ensures |r| == |x|
  {
    Reversed(Exp(engine, Reversed(x), e, m))
  }

  /** BigInt_ModExp. It returns exactly if the exponent's top word is not zero. */
  method BigIntModExp(engine: Engine, x: seq<byte>, e: seq<byte>, m: seq<byte>, r: array<byte>) returns (ended: bool)
    requires |x| == |m| <= TMP_SIZE && 0 < |e| <= TMP_SIZE && |x| <= r.Length
    modifies r
    ensures ended <==> TopWord(e) != 0
    ensures r[..] == if ended then ModExp(engine, x, e, m) + old(r[|x|..]) else old(r[..])
  {
    var tmp := new byte[TMP_SIZE];
    var base := WriteOperand(x, tmp);
    var exponent := WriteOperand(e, tmp);
    var top := GetUint32(exponent, |exponent| - 4);
    ended := top != 0;
    if ended {
      var bits := MswBits(top);
      var modulus := WriteOperand(m, tmp);
      FlipBuffer(ReadBack(engine(base, exponent, bits, modulus), |x|), r);
    }
  }

  /** Raising to `d` and then to `e` gives the base back, for bases below the modulus. */
  ghost predicate KeyPair(engine: Engine, modulus: seq<byte>, d: seq<byte>, e: seq<byte>)
    requires d != [] && e != []
  {
    forall y: seq<byte> :: |y| == |modulus| && y != [] && y[|y| - 1] == 0 ==>
      Exp(engine, Exp(engine, y, d, modulus), e, modulus) == y
  }

  /** So it does in the caller's byte order. */
  lemma KeyPairUndoes(engine: Engine, modulus: seq<byte>, d: seq<byte>, e: seq<byte>, x: seq<byte>)
    requires d != [] && e != [] && KeyPair(engine, modulus, d, e) && |x| == |modulus| && x != [] && x[0] == 0
    ensures ModExp(engine, ModExp(engine, x, d, modulus), e, modulus) == x
  {
    ReversedTwice(Exp(engine, Reversed(x), d, modulus));
    ReversedTwice(x);
  }

  // ---- What it computes ----

  lemma {:induction false} ReversedValue(s: seq<byte>)
    ensures FromLe(Reversed(s)) == FromBe(s)
  {
    if s != [] {
      var n := |s| - 1;
      assert Reversed(s)[1..] == Reversed(s[..n]);
      ReversedValue(s[..n]);
    }
  }

  lemma {:induction false} ZerosAbove(s: seq<byte>, n: nat)
    ensures FromLe(s + Repeat(0, n)) == FromLe(s)
    decreases |s| + n
  {
    var t := s + Repeat(0, n);
    if s != [] {
      assert t[1..] == s[1..] + Repeat(0, n);
      ZerosAbove(s[1..], n);
    } else if n > 0 {
      assert t[1..] == s + Repeat(0, n - 1);
      ZerosAbove(s, n - 1);
    }
  }

  /** An operand has the value of the bytes it was made from. */
  lemma OperandValue(s: seq<byte>)
    ensures FromLe(Operand(s)) == FromBe(s)
  {
    ReversedValue(s);
    ZerosAbove(Reversed(s), WordSize(|s|) - |s|);
  }

  lemma {:induction false} ValueBelow(s: seq<byte>)
    ensures FromBe(s) < Pow(256, |s|)
    decreases |s|
  {
    if s != [] {
      ValueBelow(s[..|s| - 1]);
    }
  }

  /** The bytes that are read back are the whole result, if that is small enough. */
  lemma {:induction false} ReadBackValue(result: seq<byte>, n: nat)
    requires FromLe(result) < Pow(256, n)
    ensures FromLe(ReadBack(result, n)) == FromLe(result)
    decreases n
  {
    if n == 0 {
      assert ReadBack(result, 0) == [];
    } else if result == [] {
      ZerosAbove([], n);
      assert ReadBack(result, n) == [] + Repeat(0, n);
    } else {
      ReadBackValue(result[1..], n - 1);
      assert ReadBack(result, n)[1..] == ReadBack(result[1..], n - 1);
    }
  }

  /** The engine is right on numbers, if it is told the number of bits in the last word of the
      exponent. */
  ghost predicate Right(engine: Engine) {
    forall b: seq<byte>, e: seq<byte>, bits: nat, m: seq<byte> ::
      |b| == |m| && |e| >= 4 && |e| % 4 == 0 && 0 < bits == BitLength(GetUint32(e, |e| - 4)) && FromLe(m) > 0 ==>
        FromLe(engine(b, e, bits, m)) == PowMod(FromLe(b), FromLe(e), FromLe(m))
  }

  function ToLe(v: nat): seq<byte> { if v == 0 then [] else [v % 256] + ToLe(v / 256) }

  lemma {:induction false} ToLeValue(v: nat)
    ensures FromLe(ToLe(v)) == v
  {
    if v > 0 {
      ToLeValue(v / 256);
    }
  }

  /** There is such an engine. */
  lemma SomeEngineIsRight()
    ensures exists engine: Engine :: Right(engine)
  {
    var engine: Engine := (b, e, bits, m) => ToLe(PowMod(FromLe(b), FromLe(e), FromLe(m)));
    forall b: seq<byte>, e: seq<byte>, bits: nat, m: seq<byte>
      ensures FromLe(engine(b, e, bits, m)) == PowMod(FromLe(b), FromLe(e), FromLe(m))
    {
      ToLeValue(PowMod(FromLe(b), FromLe(e), FromLe(m)));
    }
    assert Right(engine);
  }

  lemma RightAt(engine: Engine, b: seq<byte>, e: seq<byte>, bits: nat, m: seq<byte>, x: nat, y: nat, z: nat)
    requires Right(engine) && |b| == |m| && |e| >= 4 && |e| % 4 == 0
    requires 0 < bits == BitLength(GetUint32(e, |e| - 4)) && x == FromLe(b) && y == FromLe(e) && 0 < z == FromLe(m)
    ensures FromLe(engine(b, e, bits, m)) == PowMod(x, y, z)
  {
  }

  lemma {:induction false} SameValue(s: seq<byte>, t: seq<byte>)
    requires |s| == |t| && FromLe(s) == FromLe(t)
    ensures s == t
    decreases |s|
  {
    if s != [] {
      var a: nat, b: nat := s[0], t[0];
      assert a == b && FromLe(s[1..]) == FromLe(t[1..]);
      SameValue(s[1..], t[1..]);
    }
  }

  /** A number whose leading byte is zero is below one of the same size whose leading byte is not. */
  lemma LeadingZero(y: seq<byte>, m: seq<byte>)
    requires |y| == |m| > 0 && y[|y| - 1] == 0 && m[0] != 0
    ensures FromLe(y) < FromBe(m)
  {
    var n := |y| - 1;
    assert y == y[..n] + Repeat(0, 1);
    ZerosAbove(y[..n], 1);
    ReversedTwice(y[..n]);
    ReversedValue(Reversed(y[..n]));
    ValueBelow(Reversed(y[..n]));
    AtLeast(m);
  }

  lemma {:induction false} AtLeast(m: seq<byte>)
    requires m != [] && m[0] != 0
    ensures FromBe(m) >= Pow(256, |m| - 1) > 0
    decreases |m|
  {
    if |m| > 1 {
      AtLeast(m[..|m| - 1]);
    } else {
      assert m[..0] == [];
    }
  }

  // ---- Signing ----

  /** The part of m2m_crypto_rsa_sign_gen that lays out the encoded message. */
  method BuildEm(em: array<byte>, n: nat, hash: seq<byte>)
    requires em.Length == EM_SIZE && n <= EM_SIZE && Fits(n, hash)
    modifies em
    ensures em[..n] == Encoding(n, hash)
  {
    Fill(em, n - TLength(|hash|) - 3, TEncoding(|hash|), |hash| % 256, hash);
  }

  method Fill(em: array<byte>, ps: nat, t: seq<byte>, length: byte, hash: seq<byte>)
    requires ps + 4 + |t| + |hash| <= em.Length
    modifies em
    ensures em[..ps + 4 + |t| + |hash|] == Layout(ps, t, length, hash)
  {
    em[0] := 0;
    em[1] := 1;
    Memset(em, 2, 0xFF, ps);
    em[2 + ps] := 0;
    ghost var pad := [0x00, 0x01] + Repeat(0xFF, ps) + [0x00];
    assert em[..3 + ps] == pad;
    Memcpy(em, 3 + ps, t);
    assert em[..3 + ps + |t|] == pad + t;
    em[3 + ps + |t|] := length;
    assert em[..4 + ps + |t|] == pad + t + [length];
    Memcpy(em, 4 + ps + |t|, hash);
  }

  /** m2m_crypto_rsa_sign_gen; `em` is its stack buffer. */
  method SignGen(engine: Engine, modulus: seq<byte>, d: seq<byte>, hash: seq<byte>, em: array<byte>,
                 signature: array<byte>)
    returns (status: Status)
    requires em.Length == EM_SIZE && |modulus| <= EM_SIZE && 0 < |d| <= TMP_SIZE
    requires signature.Length == |modulus| && signature != em
    modifies em, signature
    ensures status == SignFail <==> !Fits(|modulus|, hash)
    ensures status == SignOk <==> Fits(|modulus|, hash) && TopWord(d) != 0
    ensures status == SignOk ==> signature[..] == ModExp(engine, Encoding(|modulus|, hash), d, modulus)
    ensures status != SignOk ==> signature[..] == old(signature[..])
  {
    status := SignFail;
    if |modulus| >= TLength(|hash|) + 11 {
      BuildEm(em, |modulus|, hash);
      var ended := BigIntModExp(engine, em[..|modulus|], d, modulus, signature);
      status := if ended then SignOk else Never;
    }
  }

  /** What verification accepts as the decrypted signature block. */
  predicate Accepts(block: seq<byte>, hash: seq<byte>) {
    Fits(|block|, hash) && |hash| <= 255 && block == Encoding(|block|, hash)
  }

  /** The search for the end of the padding, made only behind 00 01, stays in the buffer. */
  predicate ScanStays(buffer: seq<byte>)
    requires |buffer| >= 2
  {
    buffer[0] == 0x00 && buffer[1] == 0x01 ==> exists j :: 2 <= j < |buffer| && buffer[j] != 0xFF
  }

  /** The search for the end of the 0xFF padding. */
  method ScanPadding(em: array<byte>) returns (idx: nat)
    requires exists j :: 2 <= j < em.Length && em[j] != 0xFF
    ensures 2 <= idx < em.Length && em[idx] != 0xFF
    ensures forall j :: 2 <= j < idx ==> em[j] == 0xFF
  {
    idx := 2;
    while em[idx] == 0xFF
      invariant 2 <= idx < em.Length
      invariant forall j :: 2 <= j < idx ==> em[j] == 0xFF
      decreases em.Length - idx
    {
      idx := idx + 1;
    }
  }

  /** The part of m2m_crypto_rsa_sign_verify that inspects the decrypted block. */
  method CheckEm(em: array<byte>, n: nat, hash: seq<byte>) returns (status: Status)
    requires em.Length == EM_SIZE && n <= EM_SIZE && Fits(n, hash) && ScanStays(em[..])
    ensures status != Never && (status == SignOk <==> Accepts(em[..n], hash))
  {
    var t := TEncoding(|hash|);
    var ps := n - (|t| + 1 + |hash|) - 3;
    AcceptsLayout(em[..n], hash, ps, t);
    var ok := CheckFields(em, ps, t, |hash|, hash);
    status := if ok then SignOk else SignFail;
  }

  lemma AcceptsLayout(block: seq<byte>, hash: seq<byte>, ps: nat, t: seq<byte>)
    requires Fits(|block|, hash) && t == TEncoding(|hash|) && ps + 4 + |t| + |hash| == |block|
    ensures Accepts(block, hash) <==> |hash| <= 255 && block == Layout(ps, t, |hash| % 256, hash)
  {
  }

  method CheckFields(em: array<byte>, ps: nat, t: seq<byte>, length: nat, hash: seq<byte>) returns (ok: bool)
    requires ps + 4 + |t| + |hash| <= em.Length && ScanStays(em[..])
    ensures ok <==> length <= 255 && em[..ps + 4 + |t| + |hash|] == Layout(ps, t, length % 256, hash)
  {
    ghost var block := em[..ps + 4 + |t| + |hash|];
    FieldsOfLayout(block, ps, t, length % 256, hash);
    if em[0] != 0x00 || em[1] != 0x01 {
      return false;
    }
    var idx := ScanPadding(em);
    if idx != ps + 2 || em[idx] != 0x00 {
      assert !Padding(block, ps);
      return false;
    }
    assert Padding(block, ps);
    assert block[ps + 3..ps + 3 + |t|] == em[idx + 1..idx + 1 + |t|];
    assert block[ps + 4 + |t|..] == em[idx + 2 + |t|..idx + 2 + |t| + |hash|];
    var c := Memcmp(em, idx + 1, t);
    if c != 0 || em[idx + 1 + |t|] != length {
      return false;
    }
    c := Memcmp(em, idx + 2 + |t|, hash);
    ok := c == 0;
  }

  /** m2m_crypto_rsa_sign_verify; `em` is its stack buffer, with whatever it held before. */
  method SignVerify(engine: Engine, modulus: seq<byte>, e: seq<byte>, hash: seq<byte>, signature: seq<byte>,
                    em: array<byte>)
    returns (status: Status)
    requires em.Length == EM_SIZE && |signature| == |modulus| <= EM_SIZE && 0 < |e| <= TMP_SIZE
    requires Fits(|modulus|, hash) && TopWord(e) != 0 ==>
      ScanStays(ModExp(engine, signature, e, modulus) + em[|modulus|..])
    modifies em
    ensures status == Never <==> Fits(|modulus|, hash) && TopWord(e) == 0
    ensures status == SignOk <==> TopWord(e) != 0 && Accepts(ModExp(engine, signature, e, modulus), hash)
  {
    status := SignFail;
    if |modulus| >= TLength(|hash|) + 11 {
      var ended := BigIntModExp(engine, signature, e, modulus, em);
      if !ended {
        return Never;
      }
      assert em[..|modulus|] == ModExp(engine, signature, e, modulus);
      status := CheckEm(em, |modulus|, hash);
    }
  }

  /** Sign, then verify with the matching key, on any stack contents: the signature is accepted
      exactly for digests whose length fits the one-byte length field. */
  method SignThenVerify(engine: Engine, modulus: seq<byte>, d: seq<byte>, e: seq<byte>, hash: seq<byte>,
                        em: array<byte>, em': array<byte>, signature: array<byte>)
    returns (signed: Status, verified: Status)
    requires |modulus| <= EM_SIZE && 0 < |d| <= TMP_SIZE && 0 < |e| <= TMP_SIZE
    requires TopWord(d) != 0 && TopWord(e) != 0 ==> KeyPair(engine, modulus, d, e)
    requires em.Length == EM_SIZE && em'.Length == EM_SIZE && signature.Length == |modulus|
    requires signature != em && signature != em'
    modifies em, em', signature
    ensures signed == SignOk <==> Fits(|modulus|, hash) && TopWord(d) != 0
    ensures verified == SignOk <==> signed == SignOk && TopWord(e) != 0 && |hash| <= 255
    ensures signed == SignOk ==> signature[..] == ModExp(engine, Encoding(|modulus|, hash), d, modulus)
  {
    signed := SignGen(engine, modulus, d, hash, em, signature);
    verified := SignFail;
    if signed == SignOk {
      ghost var block := Encoding(|modulus|, hash);
      ghost var at := |modulus| - TLength(|hash|) - 3;
      assert block[0] == 0 && block[at + 2] == 0;
      if TopWord(e) != 0 {
        KeyPairUndoes(engine, modulus, d, e, block);
      }
      assert (block + em'[|modulus|..])[at + 2] == 0;
      verified := SignVerify(engine, modulus, e, hash, signature[..], em');
    }
  }

  /** One accepted block per digest: what verifies for one digest verifies for no other of
      the same length. */
  lemma AcceptsOneDigest(block: seq<byte>, h1: seq<byte>, h2: seq<byte>)
    requires Accepts(block, h1) && Accepts(block, h2) && |h1| == |h2|
    ensures h1 == h2
  {
    var ps, t := |block| - TLength(|h1|) - 3, TEncoding(|h1|);
    FieldsOfLayout(block, ps, t, |h1| % 256, h1);
    FieldsOfLayout(block, ps, t, |h1| % 256, h2);
  }
}
