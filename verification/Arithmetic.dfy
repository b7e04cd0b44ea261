/** Integer arithmetic shared by the RSA code and the ping check: residues,
    powers, the greatest common divisor and primes. */
module Arithmetic {

  // ---------------------------------------------------------------- residues

  /** A number is determined by its quotient and remainder. */
  lemma DivModUnique(a: int, q: int, r: int, m: int)
    requires 0 <= r < m && a == q * m + r
    ensures a / m == q && a % m == r
  {
    var d := a / m - q;
    assert d * m == r - a % m by {
      assert a == a / m * m + a % m;
      assert d * m == a / m * m - q * m;
    }
    if d > 0 {
      MulMonotone(1, d, m);
    } else if d < 0 {
      MulMonotone(d, -1, m);
    }
  }

  lemma MulMonotone(a: int, b: int, m: int)
    requires a <= b && 0 <= m
    ensures a * m <= b * m
  {
  }

  lemma DivideDown(a: nat, m: nat)
    requires m > 0
    ensures 0 <= a / m <= a && a % m <= a && a == a / m * m + a % m
  {
    assert a == a / m * m + a % m;
    if a / m < 0 {
      MulMonotone(a / m, -1, m);
    } else {
      MulMonotone(1, m, a / m);
    }
  }

  /** Numbers that differ by a multiple of `m` have the same residue. */
  lemma CongIntro(a: int, b: int, k: int, m: int)
    requires m > 0 && a == b + k * m
    ensures a % m == b % m
  {
    var q := b / m;
    assert a == (q + k) * m + b % m by {
      assert b == q * m + b % m;
      assert (q + k) * m == q * m + k * m;
    }
    DivModUnique(a, q + k, b % m, m);
  }

  lemma CongElim(a: int, b: int, m: int) returns (k: int)
    requires m > 0 && a % m == b % m
    ensures a == b + k * m
  {
    k := a / m - b / m;
    assert k * m == a / m * m - b / m * m;
  }

  lemma ModAdd(a: int, b: int, m: int)
    requires m > 0
    ensures (a + b) % m == (a % m + b % m) % m
  {
    var k := a / m + b / m;
    assert k * m == a / m * m + b / m * m;
    CongIntro(a + b, a % m + b % m, k, m);
  }

  lemma ModMul(a: int, b: int, m: int)
    requires m > 0
    ensures (a * b) % m == ((a % m) * (b % m)) % m
  {
    var q, r, s, t := a / m, a % m, b / m, b % m;
    var k := q * b + r * s;
    calc {
      a * b;
      { assert a == q * m + r; }
      (q * m + r) * b;
      q * m * b + r * b;
      { assert b == s * m + t; }
      q * m * b + r * (s * m + t);
      r * t + (q * m * b + r * s * m);
      { assert q * m * b == q * b * m; }
      r * t + k * m;
    }
    CongIntro(a * b, r * t, k, m);
  }

  /** Congruent factors give congruent products. */
  lemma MulCong(a: int, a': int, b: int, b': int, m: int)
    requires m > 0 && a % m == a' % m && b % m == b' % m
    ensures (a * b) % m == (a' * b') % m
  {
    ModMul(a, b, m);
    ModMul(a', b', m);
  }

  lemma ModMultiple(k: int, m: int)
    requires m > 0
    ensures (k * m) % m == 0 && (m * k) % m == 0
  {
    DivModUnique(k * m, k, 0, m);
  }

  /** `d` divides `n`. */
  predicate Divides(d: int, n: int)
    requires d > 0
  {
    n % d == 0
  }

  lemma DividesMul(d: int, a: int, b: int)
    requires d > 0 && (Divides(d, a) || Divides(d, b))
    ensures Divides(d, a * b)
  {
    ModMul(a, b, d);
  }

  lemma DividesTrans(a: int, b: int, c: int)
    requires a > 0 && b > 0 && Divides(a, b) && Divides(b, c)
    ensures Divides(a, c)
  {
    assert c == b * (c / b);
    DividesMul(a, b, c / b);
  }

  lemma DividesLinear(d: int, a: int, x: int, b: int, y: int)
    requires d > 0 && Divides(d, a) && Divides(d, b)
    ensures Divides(d, a * x + b * y)
  {
    DividesMul(d, a, x);
    DividesMul(d, b, y);
    ModAdd(a * x, b * y, d);
  }

  lemma DividesBound(d: int, n: int)
    requires d > 0 && n > 0 && Divides(d, n)
    ensures d <= n
  {
  }

  // ------------------------------------------------------------------ powers

  function Pow(b: int, e: nat): int {
    if e == 0 then 1 else b * Pow(b, e - 1)
  }

  lemma {:induction false} PowAdd(b: int, e: nat, f: nat)
    ensures Pow(b, e + f) == Pow(b, e) * Pow(b, f)
  {
    if e > 0 {
      PowAdd(b, e - 1, f);
      assert b * (Pow(b, e - 1) * Pow(b, f)) == b * Pow(b, e - 1) * Pow(b, f);
    }
  }

  lemma MulSwap(a: int, b: int, s: int, t: int)
    ensures (a * b) * (s * t) == (a * s) * (b * t)
  {
  }

  lemma MulAssoc(a: int, b: int, c: int)
    ensures a * (b * c) == (a * b) * c
  {
  }

  lemma MulExchange(a: int, b: int, c: int)
    ensures a * (b * c) == b * (a * c)
  {
  }

  lemma {:induction false} PowPow(b: int, e: nat, f: nat)
    ensures e * f >= 0 && Pow(Pow(b, e), f) == Pow(b, e * f)
  {
    if f == 0 {
      assert e * f == 0;
    } else {
      PowPow(b, e, f - 1);
      assert e * f == e + e * (f - 1);
      PowAdd(b, e, e * (f - 1));
    }
  }

  lemma {:induction false} PowOne(e: nat)
    ensures Pow(1, e) == 1
  {
    if e > 0 {
      PowOne(e - 1);
    }
  }

  lemma {:induction false} PowPositive(b: int, e: nat)
    requires b > 0
    ensures Pow(b, e) > 0
  {
    if e > 0 {
      PowPositive(b, e - 1);
      assert b * Pow(b, e - 1) > 0;
    }
  }

  lemma {:induction false} PowCong(a: int, b: int, e: nat, m: int)
    requires m > 0 && a % m == b % m
    ensures Pow(a, e) % m == Pow(b, e) % m
  {
    if e > 0 {
      PowCong(a, b, e - 1, m);
      MulCong(a, b, Pow(a, e - 1), Pow(b, e - 1), m);
    }
  }

  /** The sign of a power of a negated base follows the parity of the exponent. */
  lemma {:induction false} PowNegate(b: int, e: nat)
    ensures Pow(-b, e) == if e % 2 == 0 then Pow(b, e) else -Pow(b, e)
  {
    if e > 0 {
      PowNegate(b, e - 1);
      NegatedProduct(b, Pow(b, e - 1));
    }
  }

  lemma NegatedProduct(b: int, s: int)
    ensures (-b) * s == -(b * s) && (-b) * (-s) == b * s
  {
  }

  // ------------------------------------------------- greatest common divisor

  /** Euclid's recursion (RSAHandler.cpp `gcd` runs it as a loop). */
  function Gcd(a: nat, b: nat): nat
    decreases b
  {
    if b == 0 then a else Gcd(b, a % b)
  }

  predicate Coprime(a: nat, b: nat) {
    Gcd(a, b) == 1
  }

  /** The greatest common divisor is an integer combination of the two numbers. */
  lemma {:induction false} Bezout(a: nat, b: nat) returns (x: int, y: int)
    ensures a * x + b * y == Gcd(a, b)
    decreases b
  {
    if b == 0 {
      x, y := 1, 0;
    } else {
      var u, v := Bezout(b, a % b);
      x, y := v, u - a / b * v;
      DivideDown(a, b);
      BezoutStep(a, b, a / b, a % b, u, v);
    }
  }

  lemma BezoutStep(a: int, b: int, q: int, r: int, u: int, v: int)
    requires a == q * b + r
    ensures a * v + b * (u - q * v) == b * u + r * v
  {
    calc {
      a * v + b * (u - q * v);
      (q * b) * v + r * v + b * u - b * (q * v);
      { MulExchange(b, q, v); MulAssoc(q, b, v); }
      b * u + r * v;
    }
  }

  lemma {:induction false} GcdDivides(a: nat, b: nat)
    requires a > 0 || b > 0
    ensures Gcd(a, b) > 0 && Divides(Gcd(a, b), a) && Divides(Gcd(a, b), b)
    decreases b
  {
    if b > 0 {
      GcdDivides(b, a % b);
      var g := Gcd(a, b);
      DividesLinear(g, b, a / b, a % b, 1);
      assert a == b * (a / b) + (a % b) * 1;
    } else {
      ModMultiple(1, a);
    }
  }

  /** Every common divisor divides the greatest one. */
  lemma GcdGreatest(a: nat, b: nat, d: int)
    requires d > 0 && Divides(d, a) && Divides(d, b)
    ensures Divides(d, Gcd(a, b))
  {
    var x, y := Bezout(a, b);
    DividesLinear(d, a, x, b, y);
  }

  /** Coprimality in terms of divisors only, without Euclid's recursion. */
  lemma CoprimeIff(a: nat, b: nat)
    requires a > 0 || b > 0
    ensures Coprime(a, b) <==> forall d {:trigger Divides(d, a)} :: d > 1 && Divides(d, a) ==> !Divides(d, b)
  {
    GcdDivides(a, b);
    if Coprime(a, b) {
      forall d {:trigger Divides(d, a)} | d > 1 && Divides(d, a)
        ensures !Divides(d, b)
      {
        if Divides(d, b) {
          GcdGreatest(a, b, d);
          DividesBound(d, 1);
        }
      }
    }
  }

  /** Two numbers are coprime as soon as an integer combination of them is 1. */
  lemma CoprimeFromCombination(a: nat, b: nat, x: int, y: int)
    requires a * x + b * y == 1
    ensures Coprime(a, b)
  {
    assert a > 0 || b > 0;
    GcdDivides(a, b);
    DividesLinear(Gcd(a, b), a, x, b, y);
    DividesBound(Gcd(a, b), 1);
  }

  lemma CoprimeSym(a: nat, b: nat)
    requires Coprime(a, b)
    ensures Coprime(b, a)
  {
    var x, y := Bezout(a, b);
    CoprimeFromCombination(b, a, y, x);
  }

  /** A divisor of a product that is coprime to one factor divides the other. */
  lemma Gauss(d: nat, a: nat, b: int)
    requires d > 0 && Coprime(a, d) && Divides(d, a * b)
    ensures Divides(d, b)
  {
    var x, y := Bezout(a, d);
    calc {
      b;
      (a * x + d * y) * b;
      (a * b) * x + d * (y * b);
    }
    ModMultiple(1, d);
    assert d * 1 == d;
    DividesLinear(d, a * b, x, d, y * b);
  }

  /** Division by a factor coprime to the modulus is sound. */
  lemma CancelCoprime(a: nat, b: int, c: int, m: nat)
    requires m > 0 && Coprime(a, m) && (a * b) % m == (a * c) % m
    ensures b % m == c % m
  {
    var k := CongElim(a * b, a * c, m);
    assert a * (b - c) == k * m by {
      assert a * (b - c) == a * b - a * c;
    }
    ModMultiple(k, m);
    Gauss(m, a, b - c);
    assert b - c == (b - c) / m * m;
    CongIntro(b, c, (b - c) / m, m);
  }

  lemma CoprimeMul(a: nat, b: nat, m: nat)
    requires Coprime(a, m) && Coprime(b, m)
    ensures Coprime(a * b, m)
  {
    var x, y := Bezout(a, m);
    var u, v := Bezout(b, m);
    CombineUnits(a * x, y, b * u, v, m);
    MulSwap(a, b, x, u);
    assert a * b >= 0;
    CoprimeFromCombination(a * b, m, x * u, y + a * x * v);
  }

  lemma CombineUnits(w: int, y: int, z: int, v: int, m: int)
    requires w + m * y == 1 && z + m * v == 1
    ensures w * z + m * (y + w * v) == 1
  {
  }

  /** A number coprime to a product is coprime to each factor. */
  lemma CoprimeFactor(k: nat, a: nat, b: nat)
    requires Coprime(k, a * b)
    ensures Coprime(k, a) && Coprime(k, b)
  {
    var x, y := Bezout(k, a * b);
    assert (a * b) * y == a * (b * y) == b * (a * y);
    CoprimeFromCombination(k, a, x, b * y);
    CoprimeFromCombination(k, b, x, a * y);
  }

  lemma CoprimeMulRight(k: nat, a: nat, b: nat)
    requires Coprime(k, a) && Coprime(k, b)
    ensures Coprime(k, a * b)
  {
    CoprimeSym(k, a);
    CoprimeSym(k, b);
    CoprimeMul(a, b, k);
    CoprimeSym(a * b, k);
  }

  lemma {:induction false} CoprimePow(a: nat, e: nat, m: nat)
    requires Coprime(a, m)
    ensures Pow(a, e) >= 0 && Coprime(Pow(a, e), m)
  {
    if e == 0 {
      CoprimeFromCombination(1, m, 1, 0);
    } else {
      CoprimePow(a, e - 1, m);
      CoprimeMul(a, Pow(a, e - 1), m);
    }
  }

  /** Coprimality depends on the residue only. */
  lemma CoprimeShift(a: nat, b: nat, m: nat)
    requires m > 0 && a % m == b % m
    ensures Coprime(a, m) <==> Coprime(b, m)
  {
  }

  /** Coprime divisors divide together. */
  lemma CoprimeDividesProduct(a: nat, b: nat, n: int)
    requires a > 0 && b > 0 && Coprime(a, b) && Divides(a, n) && Divides(b, n)
    ensures a * b > 0 && Divides(a * b, n)
  {
    var k := n / a;
    assert n == a * k;
    Gauss(b, a, k);
    var l := k / b;
    assert k == b * l;
    assert n == (a * b) * l by {
      assert a * (b * l) == (a * b) * l;
    }
    assert a * b > 0;
    ModMultiple(l, a * b);
  }

  // ------------------------------------------------------------------ primes

  predicate NoDivisorBelow(n: int, i: int) {
    forall d :: 2 <= d < i ==> !Divides(d, n)
  }

  predicate Prime(n: int) {
    n >= 2 && NoDivisorBelow(n, n)
  }

  predicate Composite(n: int) {
    n >= 2 && !Prime(n)
  }

  /** A prime is coprime to everything it does not divide. */
  lemma PrimeCoprime(p: nat, a: nat)
    requires Prime(p) && !Divides(p, a)
    ensures Coprime(a, p)
  {
    GcdDivides(a, p);
    var g := Gcd(a, p);
    DividesBound(g, p);
  }

  lemma PrimeNotCoprime(p: nat, a: nat)
    requires Prime(p) && Divides(p, a)
    ensures !Coprime(a, p)
  {
    ModMultiple(1, p);
    CoprimeIff(a, p);
  }

  lemma DistinctPrimesCoprime(p: nat, q: nat)
    requires Prime(p) && Prime(q) && p != q
    ensures Coprime(p, q)
  {
    if Divides(q, p) {
      DividesBound(q, p);
    }
    PrimeCoprime(q, p);
  }

  /** `f` is the least divisor of `n` above 1. */
  predicate LeastFactor(f: int, n: int) {
    2 <= f <= n && Divides(f, n) && NoDivisorBelow(n, f)
  }

  lemma LeastFactorPrime(f: int, n: int)
    requires LeastFactor(f, n)
    ensures Prime(f)
  {
    forall d | 2 <= d < f
      ensures !Divides(d, f)
    {
      if Divides(d, f) {
        DividesTrans(d, f, n);
      }
    }
  }

  /** Trial division may stop at the square root. */
  lemma NoSmallFactor(n: int, i: int)
    requires n >= 2 && i >= 1 && i * i > n && NoDivisorBelow(n, i)
    ensures Prime(n)
  {
    forall d | 2 <= d < n
      ensures !Divides(d, n)
    {
      if Divides(d, n) {
        var k := n / d;
        assert n == d * k;
        if d >= i {
          CofactorSmall(d, k, i, n);
          ModMultiple(d, k);
          assert Divides(k, n);
        }
      }
    }
  }

  lemma CofactorSmall(d: int, k: int, i: int, n: int)
    requires n == d * k && 1 <= i <= d < n < i * i
    ensures 2 <= k < i
  {
  }

  /** The least factor of a composite is at most its square root. */
  lemma LeastFactorSquare(f: int, n: int)
    requires LeastFactor(f, n) && Composite(n)
    ensures f * f <= n
  {
    if f * f > n {
      NoSmallFactor(n, f);
    }
  }
}
