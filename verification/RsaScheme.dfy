/** What the engine computes on numbers, and signing and verifying with an RSA key of two primes. */
module RsaScheme {
  import opened Bytes
  import opened ModPower
  import opened RsaSignature

  /** Sizes and values of the engine's operands. */
  lemma Operands(y: seq<byte>, e: seq<byte>, m: seq<byte>, b: seq<byte>, top: nat)
    requires |y| == |m| && e != [] && b == y + Repeat(0, WordSize(|y|) - |y|) && top == TopWord(e)
    ensures |b| == |Operand(m)| && |Operand(e)| >= 4 && |Operand(e)| % 4 == 0
    ensures GetUint32(Operand(e), |Operand(e)| - 4) == top && (top != 0 ==> BitLength(top) > 0)
    ensures FromLe(b) == FromLe(y) && FromLe(Operand(e)) == FromBe(e) && FromLe(Operand(m)) == FromBe(m)
  {
    ZerosAbove(y, WordSize(|y|) - |y|);
    OperandValue(e);
    OperandValue(m);
  }

  /** The engine's answer, least significant byte first. */
  lemma ExpIsPower(engine: Engine, y: seq<byte>, e: seq<byte>, m: seq<byte>)
    requires Right(engine) && |y| == |m| && e != [] && TopWord(e) != 0 && FromBe(m) > 0
    ensures FromLe(Exp(engine, y, e, m)) == PowMod(FromLe(y), FromBe(e), FromBe(m))
  {
    var b := y + Repeat(0, WordSize(|y|) - |y|);
    Operands(y, e, m, b, TopWord(e));
    RightAt(engine, b, Operand(e), BitLength(TopWord(e)), Operand(m), FromLe(y), FromBe(e), FromBe(m));
    ValueBelow(m);
    ReadBackValue(engine(b, Operand(e), BitLength(TopWord(e)), Operand(m)), |y|);
  }

  /** On numbers, with every operand most significant byte first: the base raised to the exponent,
      modulo the modulus. */
  lemma ModExpIsPower(engine: Engine, x: seq<byte>, e: seq<byte>, m: seq<byte>)
    requires Right(engine) && |x| == |m| && e != [] && TopWord(e) != 0 && FromBe(m) > 0
    ensures FromBe(ModExp(engine, x, e, m)) == PowMod(FromBe(x), FromBe(e), FromBe(m))
  {
    ReversedValue(x);
    ExpIsPower(engine, Reversed(x), e, m);
    var r := Exp(engine, Reversed(x), e, m);
    ReversedTwice(r);
    ReversedValue(Reversed(r));
  }

  /** A right engine makes a key pair out of an RSA key. */
  lemma KeyPairOfPrimes(engine: Engine, modulus: seq<byte>, d: seq<byte>, e: seq<byte>, p: nat, q: nat)
    requires Right(engine) && modulus != [] && modulus[0] != 0 && d != [] && e != []
    requires TopWord(d) != 0 && TopWord(e) != 0 && RsaKey(p, q, FromBe(modulus), FromBe(d), FromBe(e))
    ensures KeyPair(engine, modulus, d, e)
  {
    var n := FromBe(modulus);
    forall y: seq<byte> | |y| == |modulus| && y[|y| - 1] == 0
      ensures Exp(engine, Exp(engine, y, d, modulus), e, modulus) == y
    {
      LeadingZero(y, modulus);
      var s := Exp(engine, y, d, modulus);
      ExpIsPower(engine, y, d, modulus);
      ExpIsPower(engine, s, e, modulus);
      KeyUndoes(p, q, n, FromBe(d), FromBe(e), FromLe(y));
      SameValue(Exp(engine, s, e, modulus), y);
    }
  }

  /** The same for an RSA key on a right engine: the signature is the encoded message raised to the
      private exponent, and it is accepted. */
  method SignThenVerifyRsa(engine: Engine, modulus: seq<byte>, d: seq<byte>, e: seq<byte>, hash: seq<byte>,
                           em: array<byte>, em': array<byte>, signature: array<byte>, ghost p: nat, ghost q: nat)
    returns (signed: Status, verified: Status)
    requires |modulus| <= EM_SIZE && 0 < |d| <= TMP_SIZE && 0 < |e| <= TMP_SIZE
    requires Right(engine) && modulus != [] && modulus[0] != 0
    requires RsaKey(p, q, FromBe(modulus), FromBe(d), FromBe(e))
    requires em.Length == EM_SIZE && em'.Length == EM_SIZE && signature.Length == |modulus|
    requires signature != em && signature != em'
    modifies em, em', signature
    ensures signed == SignOk <==> Fits(|modulus|, hash) && TopWord(d) != 0
    ensures verified == SignOk <==> signed == SignOk && TopWord(e) != 0 && |hash| <= 255
    ensures signed == SignOk ==>
      FromBe(signature[..]) == PowMod(FromBe(Encoding(|modulus|, hash)), FromBe(d), FromBe(modulus))
  {
    RsaFacts(engine, modulus, d, e, p, q);
    signed, verified := SignThenVerify(engine, modulus, d, e, hash, em, em', signature);
    if signed == SignOk {
      ModExpIsPower(engine, Encoding(|modulus|, hash), d, modulus);
    }
  }

  lemma RsaFacts(engine: Engine, modulus: seq<byte>, d: seq<byte>, e: seq<byte>, p: nat, q: nat)
    requires Right(engine) && modulus != [] && modulus[0] != 0 && d != [] && e != []
    requires RsaKey(p, q, FromBe(modulus), FromBe(d), FromBe(e))
    ensures FromBe(modulus) > 0 && (TopWord(d) != 0 && TopWord(e) != 0 ==> KeyPair(engine, modulus, d, e))
  {
    AtLeast(modulus);
    if TopWord(d) != 0 && TopWord(e) != 0 {
      KeyPairOfPrimes(engine, modulus, d, e, p, q);
    }
  }
}
