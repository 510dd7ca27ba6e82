/** Division of bit strings, read as polynomials over GF(2), by a generator: long division, the
    shift register that computes it, and what the register can tell apart. */
module BitDivision {
  /** A generator's coefficients, highest power first: the first and the last are one. */
  predicate IsGenerator(g: seq<bool>) {
    |g| >= 2 && g[0] && g[|g| - 1]
  }

  /** A register for this generator: one bit for every power below the highest. */
  predicate IsRegister(g: seq<bool>, r: seq<bool>) {
    IsGenerator(g) && |r| == |g| - 1
  }

  /** Subtract `p` from the leading coefficients of `s`. */
  function XorInto(p: seq<bool>, s: seq<bool>): (r: seq<bool>)
    requires |p| <= |s|
    ensures |r| == |s|
  {
    seq(|s|, i requires 0 <= i < |s| => if i < |p| then s[i] != p[i] else s[i])
  }

  /** The remainder of polynomial division, highest power first. */
  function Remainder(g: seq<bool>, s: seq<bool>): seq<bool>
    requires IsGenerator(g)
    decreases |s|
  {
    if |s| < |g| then s
    else Remainder(g, (if s[0] then XorInto(g, s) else s)[1..])
  }

  function Zeros(n: nat): seq<bool> { seq(n, _ => false) }

  /** One step of the shift register. */
  function Shift(g: seq<bool>, r: seq<bool>, bit: bool): (r': seq<bool>)
    requires IsRegister(g, r)
    ensures IsRegister(g, r')
  {
    if r[0] != bit then XorInto(g[1..], r[1..] + [false]) else r[1..] + [false]
  }

  function Lfsr(g: seq<bool>, r: seq<bool>, bits: seq<bool>): (r': seq<bool>)
    requires IsRegister(g, r)
    ensures IsRegister(g, r')
    decreases |bits|
  {
    if bits == [] then r else Lfsr(g, Shift(g, r, bits[0]), bits[1..])
  }

  lemma {:induction false} LfsrConcat(g: seq<bool>, r: seq<bool>, a: seq<bool>, b: seq<bool>)
    requires IsRegister(g, r)
    ensures Lfsr(g, r, a + b) == Lfsr(g, Lfsr(g, r, a), b)
    decreases |a|
  {
    if a == [] {
      assert a + b == b;
    } else {
      assert (a + b)[1..] == a[1..] + b;
      LfsrConcat(g, Shift(g, r, a[0]), a[1..], b);
    }
  }

  /** The shift register computes the remainder of the message times the generator's highest
      power, with the start value added to its leading coefficients. */
  lemma {:induction false} LfsrIsRemainder(g: seq<bool>, r: seq<bool>, m: seq<bool>)
    requires IsRegister(g, r)
    ensures Remainder(g, XorInto(r, m + Zeros(|r|))) == Lfsr(g, r, m)
    decreases |m|
  {
    var s := XorInto(r, m + Zeros(|r|));
    if m == [] {
      assert s == r;
    } else {
      var r' := Shift(g, r, m[0]);
      var s' := XorInto(r', m[1..] + Zeros(|r|));
      assert (m + Zeros(|r|))[1..] == m[1..] + Zeros(|r|);
      assert s[0] == (r[0] != m[0]);
      assert (if s[0] then XorInto(g, s) else s)[1..] == s';
      LfsrIsRemainder(g, r', m[1..]);
    }
  }

  // ---- Linearity ----

  function XorSeq(a: seq<bool>, b: seq<bool>): (c: seq<bool>)
    requires |a| == |b|
    ensures |c| == |a| && forall i :: 0 <= i < |c| ==> c[i] == (a[i] != b[i])
  {
    seq(|a|, i requires 0 <= i < |a| => a[i] != b[i])
  }

  lemma ShiftLinear(g: seq<bool>, r: seq<bool>, s: seq<bool>, a: bool, b: bool)
    requires IsRegister(g, r) && IsRegister(g, s)
    ensures Shift(g, XorSeq(r, s), a != b) == XorSeq(Shift(g, r, a), Shift(g, s, b))
  {
  }

  lemma {:induction false} LfsrLinear(g: seq<bool>, r: seq<bool>, s: seq<bool>, m: seq<bool>, n: seq<bool>)
    requires IsRegister(g, r) && IsRegister(g, s) && |m| == |n|
    ensures Lfsr(g, XorSeq(r, s), XorSeq(m, n)) == XorSeq(Lfsr(g, r, m), Lfsr(g, s, n))
    decreases |m|
  {
    if m != [] {
      ShiftLinear(g, r, s, m[0], n[0]);
      assert XorSeq(m, n)[1..] == XorSeq(m[1..], n[1..]);
      LfsrLinear(g, Shift(g, r, m[0]), Shift(g, s, n[0]), m[1..], n[1..]);
    }
  }

  // ---- What the register can tell apart ----

  /** The last bit of the new register is the bit fed back, so a step can be undone. */
  lemma ShiftInjective(g: seq<bool>, r: seq<bool>, s: seq<bool>, bit: bool)
    requires IsRegister(g, r) && IsRegister(g, s) && Shift(g, r, bit) == Shift(g, s, bit)
    ensures r == s
  {
    var n := |r|;
    var a, b := Shift(g, r, bit), Shift(g, s, bit);
    assert a[n - 1] == (r[0] != bit) && b[n - 1] == (s[0] != bit);
    forall i | 0 < i < n ensures r[i] == s[i] {
      assert a[i - 1] == (if r[0] != bit then r[i] != g[i] else r[i]);
      assert b[i - 1] == (if s[0] != bit then s[i] != g[i] else s[i]);
    }
  }

  lemma {:induction false} LfsrInjective(g: seq<bool>, r: seq<bool>, s: seq<bool>, m: seq<bool>)
    requires IsRegister(g, r) && IsRegister(g, s) && Lfsr(g, r, m) == Lfsr(g, s, m)
    ensures r == s
    decreases |m|
  {
    if m != [] {
      LfsrInjective(g, Shift(g, r, m[0]), Shift(g, s, m[0]), m[1..]);
      ShiftInjective(g, r, s, m[0]);
    }
  }

  /** A step that feeds nothing back only moves the bits. */
  lemma ShiftOnly(g: seq<bool>, r: seq<bool>, bit: bool, i: nat)
    requires IsRegister(g, r) && i < |r| && !Shift(g, r, bit)[|r| - 1]
    ensures r[0] == bit && (i > 0 ==> r[i] == Shift(g, r, bit)[i - 1])
  {
    var r' := Shift(g, r, bit);
    assert r'[|r| - 1] == (r[0] != bit);
  }

  /** No more bits than the register holds bring it to zero, unless they were its contents. */
  lemma {:induction false} ZeroesOnlyItself(g: seq<bool>, r: seq<bool>, d: seq<bool>)
    requires IsRegister(g, r) && |d| <= |r| && Lfsr(g, r, d) == Zeros(|r|)
    ensures r == d + Zeros(|r| - |d|)
    decreases |d|
  {
    if d != [] {
      var n, r' := |r|, Shift(g, r, d[0]);
      ZeroesOnlyItself(g, r', d[1..]);
      var e := d + Zeros(n - |d|);
      forall i | 0 <= i < n ensures r[i] == e[i] {
        ShiftOnly(g, r, d[0], i);
      }
    }
  }

  lemma XorSame(a: seq<bool>, b: seq<bool>)
    requires |a| == |b|
    ensures XorSeq(a, b) == Zeros(|a|) <==> a == b
  {
    if XorSeq(a, b) == Zeros(|a|) {
      assert forall i :: 0 <= i < |a| ==> XorSeq(a, b)[i] == false;
    }
  }

  lemma ShortInputsDiffer(g: seq<bool>, q: seq<bool>, u: seq<bool>, v: seq<bool>)
    requires IsRegister(g, q) && |u| == |v| <= |q| && Lfsr(g, q, u) == Lfsr(g, q, v)
    ensures u == v
  {
    var n := |q|;
    LfsrLinear(g, q, q, u, v);
    XorSame(q, q);
    XorSame(Lfsr(g, q, u), Lfsr(g, q, v));
    ZeroesOnlyItself(g, Zeros(n), XorSeq(u, v));
    assert Zeros(n)[..|u|] == XorSeq(u, v);
    assert Zeros(n)[..|u|] == Zeros(|u|);
    XorSame(u, v);
  }

  /** Two messages that differ only inside a window no wider than the register leave different
      registers. */
  lemma DetectsBurst(g: seq<bool>, r: seq<bool>, p: seq<bool>, u: seq<bool>, v: seq<bool>, s: seq<bool>)
    requires IsRegister(g, r) && |u| == |v| <= |r| && u != v
    ensures Lfsr(g, r, p + u + s) != Lfsr(g, r, p + v + s)
  {
    var q := Lfsr(g, r, p);
    LfsrConcat(g, r, p + u, s);
    LfsrConcat(g, r, p + v, s);
    LfsrConcat(g, r, p, u);
    LfsrConcat(g, r, p, v);
    if Lfsr(g, Lfsr(g, q, u), s) == Lfsr(g, Lfsr(g, q, v), s) {
      LfsrInjective(g, Lfsr(g, q, u), Lfsr(g, q, v), s);
      ShortInputsDiffer(g, q, u, v);
    }
  }
}
