/** What the RSA primitives of both implementations compute, as functions, and
    the laws that relate them. */
module RsaMath {
  import opened Arithmetic
  import opened Totient
  import opened Basics

  // ------------------------------------------------ truncated remainder laws

  lemma TRemMul(a: int, b: int, m: int)
    requires m > 0
    ensures TRem(a * b, m) == TRem(TRem(a, m) * TRem(b, m), m)
  {
    var x, y := Abs(a), Abs(b);
    ModMul(x, y, m);
    var r, s := x % m, y % m;
    assert r * s >= 0;
    assert TRem(r * s, m) == TRem(x * y, m);
    assert TRem(-(r * s), m) == TRem(-(x * y), m);
    SignedProduct(a, b, x, y);
    SignedProduct(TRem(a, m), TRem(b, m), r, s);
  }

  lemma SignedProduct(a: int, b: int, x: nat, y: nat)
    requires (a == x || -a == x) && (b == y || -b == y)
    ensures a * b == (if (a == x) == (b == y) then x * y else -(x * y))
         || x == 0 || y == 0
    ensures x == 0 || y == 0 ==> a * b == 0
    ensures x * y >= 0
  {
  }

  lemma TRemCong(a: int, a': int, b: int, b': int, m: int)
    requires m > 0 && TRem(a, m) == TRem(a', m) && TRem(b, m) == TRem(b', m)
    ensures TRem(a * b, m) == TRem(a' * b', m)
  {
    TRemMul(a, b, m);
    TRemMul(a', b', m);
  }

  lemma TRemIdem(a: int, m: int)
    requires m > 0
    ensures TRem(TRem(a, m), m) == TRem(a, m)
  {
    ModMultipleOfResidue(a, m);
    ModMultipleOfResidue(-a, m);
  }

  /** A number below the modulus is its own remainder, and no other number is. */
  lemma TRemFixed(a: int, m: int)
    requires m > 0
    ensures TRem(a, m) == a <==> Abs(a) < m
  {
    if Abs(a) < m {
      DivModUnique(Abs(a), 0, Abs(a), m);
    }
  }

  lemma {:induction false} TRemPow(a: int, e: nat, m: int)
    requires m > 0
    ensures TRem(Pow(TRem(a, m), e), m) == TRem(Pow(a, e), m)
  {
    if e > 0 {
      TRemPow(a, e - 1, m);
      TRemIdem(a, m);
      TRemCong(TRem(a, m), a, Pow(TRem(a, m), e - 1), Pow(a, e - 1), m);
    }
  }

  /** One step of square-and-multiply. */
  lemma PowHalve(b: int, e: nat)
    requires e > 0
    ensures Pow(b, e) == (if e % 2 == 1 then b else 1) * Pow(b * b, e / 2)
  {
    var h := e / 2;
    PowPow(b, 2, h);
    assert Pow(b, 2) == b * b by {
      assert Pow(b, 1) == b;
    }
    if e % 2 == 1 {
      assert e - 1 == 2 * h;
    } else {
      assert e == 2 * h;
    }
  }

  // -------------------------------------------------------------- the scheme

  /** Section 5.1.1 of RFC 8017, extended to negative representatives as C++ computes it. */
  function Primitive(c: int, exponent: nat, modulus: int): int
    requires modulus > 0
  {
    TRem(Pow(c, exponent), modulus)
  }

  ghost predicate IsInverse(d: int, e: int, t: int)
    requires t > 0
  {
    0 <= d < t && (e * d) % t == 1 % t
  }

  /** The least prime that does not divide `n`. */
  ghost predicate LeastNonDivisorPrime(e: int, n: int) {
    Prime(e) && !Divides(e, n) && forall d :: 2 <= d < e && Prime(d) ==> Divides(d, n)
  }

  /** The relation between the four numbers of a generated key. */
  ghost predicate KeyPair(p: nat, q: nat, n: nat, e: nat, d: nat) {
    Prime(p) && Prime(q) && n == p * q && Phi(n) >= 3
    && LeastNonDivisorPrime(e, Phi(n)) && IsInverse(d, e, Phi(n))
  }

  /** The numbers a key can carry: small enough, and not a multiple of a repeated prime. */
  ghost predicate Recoverable(c: int, p: nat, q: nat) {
    c == 0 || (Abs(c) < p * q && (p == q ==> p > 0 && !Divides(p, c)))
  }

  lemma InverseUnique(c: int, d: int, e: nat, t: nat)
    requires t > 0 && Coprime(e, t) && IsInverse(c, e, t) && IsInverse(d, e, t)
    ensures c == d
  {
    CancelCoprime(e, c, d, t);
    DivModUnique(c, 0, c, t);
    DivModUnique(d, 0, d, t);
  }

  /** `e * d` exceeds a positive multiple of the totient by one. */
  lemma InverseWitness(d: nat, e: nat, t: nat) returns (k: nat)
    requires t > 1 && e >= 2 && IsInverse(d, e, t)
    ensures e * d >= 0 && k >= 1 && e * d == k * t + 1
  {
    DivModUnique(1, 0, 1, t);
    var j := CongElim(e * d, 1, t);
    assert d != 0;
    assert e * d >= 2 by { MulMonotone(2, e, d); }
    if j <= 0 {
      MulMonotone(j, 0, t);
    }
    k := j;
  }

  ghost predicate NoneCoprimeBelow(n: nat, e: int) {
    forall d: nat :: 2 <= d < e ==> !Coprime(d, n)
  }

  /** The least number above 1 coprime to `n` is the least prime not dividing `n`. */
  lemma LeastCoprimeIsPrime(e: nat, n: nat)
    requires n >= 1 && e >= 2 && Coprime(e, n) && NoneCoprimeBelow(n, e)
    ensures LeastNonDivisorPrime(e, n)
  {
    forall d | 2 <= d < e
      ensures !Divides(d, e)
    {
      if Divides(d, e) {
        assert e == d * (e / d);
        CoprimeSym(e, n);
        CoprimeFactor(n, d, e / d);
        CoprimeSym(n, d);
      }
    }
    if Divides(e, n) {
      CoprimeSym(e, n);
      PrimeNotCoprime(e, n);
    }
    forall d | 2 <= d < e && Prime(d)
      ensures Divides(d, n)
    {
      if !Divides(d, n) {
        PrimeCoprime(d, n);
        CoprimeSym(n, d);
      }
    }
  }

  /** Below the product of the first ten primes the public exponent is at most 29. */
  lemma SmallExponent(e: nat, n: nat)
    requires 1 <= n < 6469693230 && LeastNonDivisorPrime(e, n)
    ensures e <= 29
  {
    if e > 29 {
      SmallPrimes();
      JoinPrime(2, 3, n);
      JoinPrime(6, 5, n);
      JoinPrime(30, 7, n);
      JoinPrime(210, 11, n);
      JoinPrime(2310, 13, n);
      JoinPrime(30030, 17, n);
      JoinPrime(510510, 19, n);
      JoinPrime(9699690, 23, n);
      JoinPrime(223092870, 29, n);
      DividesBound(6469693230, n);
    }
  }

  lemma SmallPrimes()
    ensures Prime(2) && Prime(3) && Prime(5) && Prime(7) && Prime(11) && Prime(13)
    ensures Prime(17) && Prime(19) && Prime(23) && Prime(29)
  {
    NoSmallFactor(2, 2);
    NoSmallFactor(3, 2);
    NoSmallFactor(5, 3);
    PrimeBelow36(7);
    PrimeBelow36(11);
    PrimeBelow36(13);
    PrimeBelow36(17);
    PrimeBelow36(19);
    PrimeBelow36(23);
    PrimeBelow36(29);
  }

  lemma PrimeBelow36(n: nat)
    requires 7 <= n < 36 && n % 2 != 0 && n % 3 != 0 && n % 5 != 0
    ensures Prime(n)
  {
    assert n % 4 != 0;
    forall d | 2 <= d < 6
      ensures !Divides(d, n)
    {
      assert d == 2 || d == 3 || d == 4 || d == 5;
    }
    NoSmallFactor(n, 6);
  }

  lemma JoinPrime(a: nat, p: nat, n: nat)
    requires a > 0 && Prime(p) && !Divides(p, a) && Divides(a, n) && Divides(p, n)
    ensures a * p > 0 && Divides(a * p, n)
  {
    PrimeCoprime(p, a);
    CoprimeDividesProduct(a, p, n);
  }

  // ---------------------------------------------------------- the key search

  /** The linear search for the private exponent meets a solution below `e`. */
  lemma SearchEnds(e: nat, t: nat) returns (k: nat)
    requires e >= 2 && t > 1 && Coprime(e, t)
    ensures 1 <= k <= e - 1 && (k * t + 1) % e == 0
  {
    var x, y := Bezout(e, t);
    k := (-y) % e;
    var j := (-y) / e;
    assert -y == j * e + k;
    assert k * t + 1 == (x - j * t) * e by {
      assert (j * e) * t == (j * t) * e;
      assert k * t == (-y - j * e) * t == -(t * y) - (j * e) * t;
    }
    ModMultiple(x - j * t, e);
    if k == 0 {
      DivModUnique(1, 0, 1, e);
    }
  }

  /** Whatever the search stops at is the modular inverse, so it is the value extended Euclid returns. */
  lemma SearchFindsInverse(e: nat, t: nat, k: nat)
    requires e >= 2 && t > 1 && 1 <= k <= e - 1 && k * t + 1 >= 0 && (k * t + 1) % e == 0
    ensures IsInverse((k * t + 1) / e, e, t)
  {
    var v := k * t + 1;
    var d := v / e;
    assert v == e * d;
    CongIntro(v, 1, k, t);
    if d < 0 {
      MulMonotone(d, -1, e);
    }
    if d >= t {
      MulMonotone(t, d, e);
      MulMonotone(k, e - 1, t);
    }
  }

  lemma OddTotient(p: nat, q: nat)
    requires Prime(p) && Prime(q) && p >= 3 && q >= 3
    ensures p * q > 0 && 3 <= Phi(p * q) < p * q
  {
    PhiTwoPrimes(p, q);
    MulMonotone(2, p - 1, q - 1);
    MulMonotone(2, q - 1, p - 1);
    MulMonotone(3, p, p - 1);
    assert p * (q - 1) < p * q;
    MulMonotone(p - 1, p, q - 1);
  }

  // ------------------------------------------------------------- round trips

  /** The totient of a usable key is even, so the exponents multiply to an odd number. */
  lemma TotientEven(p: nat, q: nat)
    requires Prime(p) && Prime(q) && Phi(p * q) >= 3
    ensures Phi(p * q) % 2 == 0
  {
    PhiTwoPrimes(p, q);
    if p == q {
      if p != 2 {
        PrimeOdd(p);
        DividesMul(2, p, p - 1);
      }
    } else if p != 2 {
      PrimeOdd(p);
      DividesMul(2, p - 1, q - 1);
    } else {
      PrimeOdd(q);
      DividesMul(2, p - 1, q - 1);
    }
  }

  lemma PrimeOdd(p: nat)
    requires Prime(p) && p != 2
    ensures p % 2 == 1
  {
    assert !Divides(2, p);
  }

  /** Raising to both exponents in turn restores a residue, or kills it when `p` is a repeated factor. */
  lemma ExponentsRestore(m: nat, p: nat, q: nat, n: nat, e: nat, d: nat)
    requires KeyPair(p, q, n, e, d)
    ensures n > 0 && e * d >= 0 && (e * d) % 2 == 1 && Pow(m, e * d) >= 0
    ensures Pow(m, e * d) % n == if p == q && Divides(p, m) then 0 else m % n
  {
    var t := Phi(n);
    PhiTwoPrimes(p, q);
    var k := InverseWitness(d, e, t);
    var x := e * d;
    PowNonNegative(m, x);
    ExponentOdd(p, q, k, x);
    if p != q {
      RestoredDistinct(m, p, q, k, x);
    } else if Divides(p, m) {
      MulMonotone(1, k, t);
      SquareKillsMultiples(m, p, x);
    } else {
      RestoredEqual(m, p, k, x);
    }
  }

  lemma ExponentOdd(p: nat, q: nat, k: nat, x: nat)
    requires Prime(p) && Prime(q) && Phi(p * q) >= 3 && x == k * Phi(p * q) + 1
    ensures x % 2 == 1
  {
    TotientEven(p, q);
    DividesMul(2, k, Phi(p * q));
  }

  /** Decrypting an encrypted character, as a remainder of the character itself. */
  lemma PrimitiveRoundTrip(c: int, p: nat, q: nat, n: nat, e: nat, d: nat)
    requires KeyPair(p, q, n, e, d)
    ensures n > 0
    ensures Primitive(Primitive(c, e, n), d, n)
         == if p == q && Divides(p, c) then 0 else TRem(c, n)
  {
    var m := Abs(c);
    ExponentsRestore(m, p, q, n, e, d);
    TRemPow(Pow(c, e), d, n);
    PowPow(c, e, d);
    PowNegate(m, e * d);
    DividesAbs(p, c);
  }

  lemma DividesAbs(p: int, c: int)
    requires p > 0
    ensures Divides(p, c) <==> Divides(p, Abs(c))
  {
    if Divides(p, c) { DividesMul(p, c, -1); }
    if Divides(p, Abs(c)) { DividesMul(p, Abs(c), -1); }
  }

  lemma {:induction false} PowNonNegative(b: nat, e: nat)
    ensures Pow(b, e) >= 0
  {
    if e > 0 {
      PowNonNegative(b, e - 1);
    }
  }
}
