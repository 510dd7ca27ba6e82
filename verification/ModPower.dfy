/** Powers and remainders, and why the two exponents of an RSA key undo each other. */
module ModPower {
  function Pow(b: nat, e: nat): nat { if e == 0 then 1 else b * Pow(b, e - 1) }

  function PowMod(b: nat, e: nat, m: nat): nat { if m == 0 then 0 else Pow(b, e) % m }

  predicate Splits(p: nat, d: nat)
    requires d > 0
  {
    p % d == 0
  }

  ghost predicate Prime(p: nat) { p > 1 && forall d: nat :: 1 < d < p ==> !Splits(p, d) }

  // ---- Remainders ----

  lemma Distribute(a: int, b: int, c: int)
    ensures (a + b) * c == a * c + b * c
  {
  }

  lemma Swap(a: nat, b: nat, c: nat)
    ensures a * (b * c) == b * (a * c) == (a * b) * c
  {
  }

  lemma Product(a: nat, b: nat)
    ensures a * b >= 0
  {
  }

  lemma DivMod(x: nat, m: nat)
    requires m > 0
    ensures x == x / m * m + x % m
  {
  }

  /** The only multiple of `m` near zero is zero. */
  lemma NearZero(k: int, m: int)
    requires m > 0 && -m < k * m < m
    ensures k == 0
  {
    if k > 0 {
      Product(k - 1, m);
      Distribute(k - 1, 1, m);
    } else if k < 0 {
      Product(-k - 1, m);
      Distribute(-k - 1, 1, m);
      Distribute(-k, k, m);
    }
  }

  lemma Unique(x: nat, m: nat, q: nat, r: nat)
    requires m > 0 && x == q * m + r && r < m
    ensures x % m == r && x / m == q
  {
    DivMod(x, m);
    Distribute(q - x / m, x / m, m);
    NearZero(q - x / m, m);
  }

  lemma AddMultiple(a: nat, k: nat, m: nat)
    requires m > 0
    ensures k * m >= 0 && (a + k * m) % m == a % m
  {
    DivMod(a, m);
    Product(k, m);
    Distribute(a / m, k, m);
    Unique(a + k * m, m, a / m + k, a % m);
  }

  lemma Multiple(k: nat, m: nat)
    requires m > 0
    ensures k * m >= 0 && k * m % m == 0
  {
    AddMultiple(0, k, m);
  }

  lemma MulMod(a: nat, b: nat, m: nat)
    requires m > 0
    ensures a * b >= 0 && (a % m) * b >= 0 && a * b % m == (a % m) * b % m
  {
    var q, r := a / m, a % m;
    DivMod(a, m);
    Product(r, b);
    Product(a, b);
    Product(q, b);
    Distribute(q * m, r, b);
    Swap(q, b, m);
    assert (q * m) * b == (q * b) * m;
    AddMultiple(r * b, q * b, m);
  }

  lemma AddMod(a: nat, b: nat, m: nat)
    requires m > 0
    ensures (a + b) % m == (a % m + b) % m
  {
    DivMod(a, m);
    AddMultiple(a % m + b, a / m, m);
  }

  /** Numbers with the same remainder differ by a multiple. */
  lemma SameRemainder(a: nat, b: nat, m: nat) returns (k: nat)
    requires m > 0 && a >= b && a % m == b % m
    ensures a == b + k * m
  {
    DivMod(a, m);
    DivMod(b, m);
    var d := a / m - b / m;
    Distribute(d, b / m, m);
    assert d * m == a - b;
    if d < 0 {
      Product(-d - 1, m);
      Distribute(-d - 1, 1, m);
      Distribute(d, -d, m);
    }
    k := d;
  }

  // ---- Powers ----

  lemma {:induction false} PowAdd(b: nat, m: nat, n: nat)
    ensures Pow(b, m + n) == Pow(b, m) * Pow(b, n)
  {
    if m > 0 {
      PowAdd(b, m - 1, n);
      Swap(b, Pow(b, m - 1), Pow(b, n));
    }
  }

  lemma {:induction false} PowPow(b: nat, d: nat, e: nat)
    ensures Pow(Pow(b, d), e) == Pow(b, d * e)
  {
    if e > 0 {
      PowPow(b, d, e - 1);
      Product(d, e - 1);
      Distribute(1, e - 1, d);
      PowAdd(b, d, d * (e - 1));
    } else {
      assert d * 0 == 0;
    }
  }

  lemma {:induction false} PowOfRemainder(b: nat, e: nat, m: nat)
    requires m > 0
    ensures Pow(b % m, e) % m == Pow(b, e) % m
  {
    if e > 0 {
      var r, x, y := b % m, Pow(b, e - 1), Pow(b % m, e - 1);
      PowOfRemainder(b, e - 1, m);
      MulMod(b, x, m);
      MulMod(x, r, m);
      MulMod(y, r, m);
    }
  }

  lemma {:induction false} PowGrows(b: nat, e: nat)
    requires e > 0
    ensures Pow(b, e) >= b
  {
    if e > 1 {
      PowGrows(b, e - 1);
      if b > 0 {
        Product(b - 1, Pow(b, e - 1));
        Distribute(b - 1, 1, Pow(b, e - 1));
      }
    }
  }

  // ---- Primes ----

  /** A prime that divides a product divides a factor. */
  lemma {:induction false} Euclid(p: nat, a: nat, b: nat)
    requires Prime(p) && 0 < a < p && a * b >= 0 && a * b % p == 0
    ensures b % p == 0
    decreases a
  {
    if a > 1 {
      var q, r := p / a, p % a;
      assert !Splits(p, a);
      var k := SameRemainder(a * b, 0, p);
      DivMod(p, a);
      Product(r, b);
      Product(q, k);
      Product(b, p);
      Distribute(q * a, r, b);
      Swap(q, a, b);
      Swap(q, k, p);
      assert r * b + (q * k) * p == b * p;
      AddMultiple(r * b, q * k, p);
      Multiple(b, p);
      Euclid(p, r, b);
    }
  }

  function Choose(n: nat, k: nat): nat {
    if k == 0 then 1 else if n == 0 then 0 else Choose(n - 1, k - 1) + Choose(n - 1, k)
  }

  lemma {:induction false} ChooseBeyond(n: nat, k: nat)
    requires k >= n
    ensures Choose(n, k) == if k == n then 1 else 0
  {
    if n > 0 {
      ChooseBeyond(n - 1, k - 1);
      ChooseBeyond(n - 1, k);
    }
  }

  lemma {:induction false} Absorb(n: nat, k: nat)
    requires n > 0 && k > 0
    ensures k * Choose(n, k) == n * Choose(n - 1, k - 1)
  {
    if n > 1 {
      Absorb(n - 1, k);
      if k > 1 {
        Absorb(n - 1, k - 1);
        AbsorbStep(n, k, Choose(n - 2, k - 2), Choose(n - 2, k - 1), Choose(n - 1, k - 1), Choose(n - 1, k));
      }
    } else {
      ChooseBeyond(0, k);
      ChooseBeyond(0, k - 1);
    }
  }

  lemma AbsorbStep(n: nat, k: nat, a: nat, b: nat, c: nat, d: nat)
    requires n > 1 && k > 1 && c == a + b && k * d == (n - 1) * b && (k - 1) * c == (n - 1) * a
    ensures k * (c + d) == n * c
  {
    Distribute(k - 1, 1, c);
    Distribute(n - 1, 1, c);
    Distribute(a, b, n - 1);
    Distribute(c, d, k);
  }

  /** The first `m` terms of (1 + a)^n. */
  function Terms(n: nat, a: nat, m: nat): nat {
    if m == 0 then 0 else Terms(n, a, m - 1) + Choose(n, m - 1) * Pow(a, m - 1)
  }

  lemma PascalStep(a: nat, c: nat, d: nat, x: nat, y: nat, r: nat, s: nat)
    requires y == a * x && s == r + c * x
    ensures (s + a * r) + (c + d) * y == (s + d * y) + a * s
  {
    Distribute(c, d, y);
    Swap(c, a, x);
    Distribute(r, c * x, a);
  }

  lemma {:induction false} PascalTerms(n: nat, a: nat, m: nat)
    ensures Terms(n + 1, a, m + 1) == Terms(n, a, m + 1) + a * Terms(n, a, m)
  {
    if m > 0 {
      PascalTerms(n, a, m - 1);
      PascalStep(a, Choose(n, m - 1), Choose(n, m), Pow(a, m - 1), Pow(a, m), Terms(n, a, m - 1), Terms(n, a, m));
    }
  }

  lemma {:induction false} Binomial(a: nat, n: nat)
    ensures Pow(a + 1, n) == Terms(n, a, n + 1)
  {
    if n > 0 {
      Binomial(a, n - 1);
      PascalTerms(n - 1, a, n);
      ChooseBeyond(n - 1, n);
      assert Terms(n - 1, a, n + 1) == Terms(n - 1, a, n) + 0 * Pow(a, n);
      Distribute(a, 1, Pow(a + 1, n - 1));
    }
  }

  lemma ChoosePrime(p: nat, k: nat)
    requires Prime(p) && 0 < k < p
    ensures Choose(p, k) % p == 0
  {
    Absorb(p, k);
    Divides(p, k, Choose(p, k), Choose(p - 1, k - 1));
  }

  lemma Divides(p: nat, k: nat, c: nat, d: nat)
    requires Prime(p) && 0 < k < p && k * c == p * d
    ensures c % p == 0
  {
    Multiple(d, p);
    Euclid(p, k, c);
  }

  lemma {:induction false} TermsVanish(p: nat, a: nat, m: nat)
    requires Prime(p) && 0 < m <= p
    ensures Terms(p, a, m) % p == 1
  {
    if m > 1 {
      TermsVanish(p, a, m - 1);
      ChoosePrime(p, m - 1);
      MulMod(Choose(p, m - 1), Pow(a, m - 1), p);
      var k := SameRemainder(Choose(p, m - 1) * Pow(a, m - 1), 0, p);
      AddMultiple(Terms(p, a, m - 1), k, p);
    } else {
      assert Terms(p, a, 0) == 0 && Pow(a, 0) == 1;
    }
  }

  /** Fermat's little theorem. */
  lemma {:induction false} Fermat(p: nat, a: nat)
    requires Prime(p)
    ensures Pow(a, p) % p == a % p
  {
    if a > 0 {
      Fermat(p, a - 1);
      Binomial(a - 1, p);
      TermsVanish(p, a - 1, p);
      ChooseBeyond(p, p);
      var x := Pow(a - 1, p);
      assert Pow(a, p) == Terms(p, a - 1, p) + x;
      AddMod(Terms(p, a - 1, p), x, p);
      AddMod(x, 1, p);
      AddMod(a - 1, 1, p);
    } else {
      assert Pow(0, p) == 0 * Pow(0, p - 1);
    }
  }

  lemma {:induction false} FermatPower(p: nat, x: nat, k: nat)
    requires Prime(p)
    ensures Pow(x, 1 + k * (p - 1)) % p == x % p
  {
    if k == 0 {
      assert Pow(x, 1) == x * Pow(x, 0);
    } else {
      Product(k - 1, p - 1);
      var e := 1 + (k - 1) * (p - 1);
      FermatPower(p, x, k - 1);
      Distribute(k - 1, 1, p - 1);
      PowAdd(x, e, p - 1);
      MulMod(Pow(x, e), Pow(x, p - 1), p);
      MulMod(x, Pow(x, p - 1), p);
      Fermat(p, x);
    }
  }

  lemma {:induction false} Coprime(p: nat, q: nat)
    requires Prime(p) && Prime(q) && p != q
    ensures p % q != 0
  {
    if q < p {
      assert !Splits(p, q);
    }
  }

  /** Numbers that agree modulo two primes agree modulo their product. */
  lemma Chinese(p: nat, q: nat, a: nat, b: nat)
    requires Prime(p) && Prime(q) && p != q && a >= b && a % p == b % p && a % q == b % q
    ensures a % (p * q) == b % (p * q)
  {
    var s := SameRemainder(a, b, p);
    var u := SameRemainder(a, b, q);
    Multiple(u, q);
    MulMod(p, s, q);
    Coprime(p, q);
    Euclid(q, p % q, s);
    var t := SameRemainder(s, 0, q);
    Swap(t, p, q);
    Product(p - 1, q);
    Distribute(p - 1, 1, q);
    AddMultiple(b, t, p * q);
  }

  /** A key: two different primes and their product, and exponents whose product leaves 1 modulo each
      prime less one. */
  ghost predicate RsaKey(p: nat, q: nat, n: nat, d: nat, e: nat) {
    && Prime(p) && Prime(q) && p != q && n == p * q && d * e > 0
    && (d * e - 1) % (p - 1) == 0 && (d * e - 1) % (q - 1) == 0
  }

  lemma Fixed(p: nat, x: nat, f: nat)
    requires Prime(p) && f > 0 && (f - 1) % (p - 1) == 0
    ensures Pow(x, f) % p == x % p
  {
    var k := SameRemainder(f - 1, 0, p - 1);
    FermatPower(p, x, k);
  }

  /** One exponent undoes the other. */
  lemma KeyUndoes(p: nat, q: nat, n: nat, d: nat, e: nat, x: nat)
    requires RsaKey(p, q, n, d, e) && x < n
    ensures PowMod(PowMod(x, d, n), e, n) == x
  {
    PowOfRemainder(Pow(x, d), e, n);
    PowPow(x, d, e);
    Fixed(p, x, d * e);
    Fixed(q, x, d * e);
    PowGrows(x, d * e);
    Chinese(p, q, Pow(x, d * e), x);
    Unique(x, n, 0, x);
  }
}
