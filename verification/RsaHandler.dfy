/** ServerProject/RSAHandler.cpp: key generation, fixed-width modular powers and
    character-wise encryption on 64-bit signed integers. */
module RsaHandler {
  import opened Arithmetic
  import opened Totient
  import opened Basics
  import opened RsaMath

  /** The largest modulus whose residues can be multiplied in 64 signed bits. */
  const SAFE_MODULUS: int := 3037000500

  // ----------------------------------------------- fixed-width modular power

  function Step(a: int64, b: int64, modulus: int64): int64
    requires modulus != 0
  {
    TRem(Wrap64(a as int * b as int) as int, modulus as int) as int64
  }

  /** The value of the square-and-multiply loop, wrap-around included. */
  function WrappedPow(result: int64, base: int64, exponent: int64, modulus: int64): int64
    requires modulus != 0
    decreases if exponent > 0 then exponent as int else 0
  {
    if exponent <= 0 then result
    else
      WrappedPow(if exponent % 2 == 1 then Step(result, base, modulus) else result,
                 Step(base, base, modulus), exponent / 2, modulus)
  }

  lemma StepSign(a: int64, b: int64, modulus: int64)
    requires modulus > 0
    ensures Step(a, b, -modulus) == Step(a, b, modulus)
  {
    var x, m := Wrap64(a as int * b as int) as int, modulus as int;
    RemainderSign(x, m);
    RemainderSign(-x, m);
  }

  lemma RemainderSign(x: int, m: int)
    requires m > 0
    ensures x % (-m) == x % m
  {
  }

  /** A key text may hold a negative modulus; its sign does not matter, since the remainder takes that
      of the dividend. */
  lemma {:induction false} ModulusSign(result: int64, base: int64, exponent: int64, modulus: int64)
    requires modulus > 0
    ensures WrappedPow(result, base, exponent, -modulus) == WrappedPow(result, base, exponent, modulus)
    decreases if exponent > 0 then exponent as int else 0
  {
    if exponent > 0 {
      StepSign(result, base, modulus);
      StepSign(base, base, modulus);
      ModulusSign(if exponent % 2 == 1 then Step(result, base, modulus) else result, Step(base, base, modulus),
                  exponent / 2, modulus);
    }
  }

  predicate InRange(x: int) {
    -TWO_63 <= x < TWO_63
  }

  /** Every product the loop goes on to use fits its type; the square of the last round is not used. */
  predicate NoOverflow(result: int, base: int, exponent: nat, modulus: int)
    requires modulus > 0
    decreases exponent
  {
    exponent > 0 ==>
      (exponent % 2 == 1 ==> InRange(result * base))
      && (exponent / 2 > 0 ==> InRange(base * base))
      && NoOverflow(if exponent % 2 == 1 then TRem(result * base, modulus) else result,
                    TRem(base * base, modulus), exponent / 2, modulus)
  }

  lemma StepExact(a: int64, b: int64, modulus: int64)
    requires 0 < modulus && InRange(a as int * b as int)
    ensures Step(a, b, modulus) as int == TRem(a as int * b as int, modulus as int)
  {
  }

  /** Square-and-multiply computes the mathematical power whenever no product overflows. */
  lemma {:induction false} ExactWithoutOverflow(r: int64, b: int64, e: int64, m: int64)
    requires 0 < m && e > 0 && NoOverflow(r as int, b as int, e as nat, m as int)
    ensures WrappedPow(r, b, e, m) as int == TRem(r as int * Pow(b as int, e as nat), m as int)
    decreases e as int
  {
    var odd, h := e % 2 == 1, (e / 2) as nat;
    if odd {
      StepExact(r, b, m);
    }
    var rr := if odd then Step(r, b, m) else r;
    var factor := if odd then b as int else 1;
    PowHalve(b as int, e as nat);
    MulAssoc(r as int, factor, Pow(b as int * b as int, h));
    if h == 0 {
      assert e == 1 && WrappedPow(r, b, e, m) == rr;
    } else {
      StepExact(b, b, m);
      var bb := Step(b, b, m);
      ExactWithoutOverflow(rr, bb, e / 2, m);
      TRemPow(b as int * b as int, h, m as int);
      TRemIdem(r as int * b as int, m as int);
      TRemCong(rr as int, r as int * factor, Pow(bb as int, h), Pow(b as int * b as int, h), m as int);
    }
  }

  predicate Small(x: int) {
    Abs(x) < SAFE_MODULUS
  }

  lemma SmallProduct(a: int, b: int)
    requires Small(a) && Small(b)
    ensures InRange(a * b)
  {
    var x, y := Abs(a), Abs(b);
    SignedProduct(a, b, x, y);
    MulMonotone(x, SAFE_MODULUS - 1, y);
    MulMonotone(y, SAFE_MODULUS - 1, SAFE_MODULUS - 1);
  }

  lemma {:induction false} SmallNeverOverflows(r: int, b: int, e: nat, m: int)
    requires 0 < m <= SAFE_MODULUS && Small(r) && Small(b)
    ensures NoOverflow(r, b, e, m)
    decreases e
  {
    if e > 0 {
      SmallProduct(r, b);
      SmallProduct(b, b);
      SmallNeverOverflows(if e % 2 == 1 then TRem(r * b, m) else r, TRem(b * b, m), e / 2, m);
    }
  }

  /** Up to the safe modulus nothing overflows, so the fixed-width loop computes the mathematical power. */
  lemma ModPowCorrect(b: int64, e: int64, m: int64)
    requires 0 < m && m as int <= SAFE_MODULUS && Small(b as int) && e > 0
    ensures NoOverflow(1, b as int, e as nat, m as int)
    ensures WrappedPow(1, b, e, m) as int == Primitive(b as int, e as nat, m as int)
  {
    SmallNeverOverflows(1, b as int, e as nat, m as int);
    ExactWithoutOverflow(1, b, e, m);
  }

  /** 3037000500 squared, and what is left of it after wrapping around. */
  const BOUND_SQUARE: int := 9223372037000250000
  const WRAPPED_SQUARE: int := -9223372036709301616

  lemma BoundSquare(m: int64)
    requires m > 0
    ensures Step(3037000500, 3037000500, m) as int == TRem(WRAPPED_SQUARE, m as int)
    ensures Pow(3037000500, 2) == BOUND_SQUARE
  {
    DivModUnique(BOUND_SQUARE + TWO_63, 1, WRAPPED_SQUARE + TWO_63, TWO_64);
    assert Wrap64(BOUND_SQUARE) as int == WRAPPED_SQUARE;
    assert Pow(3037000500, 1) == 3037000500;
  }

  /** The two have no common divisor above 16, so their residues cannot both be 0. */
  lemma NoCommonDivisor(k: nat)
    requires k > 16
    ensures !(Divides(k, BOUND_SQUARE) && Divides(k, -WRAPPED_SQUARE))
  {
    if Divides(k, BOUND_SQUARE) && Divides(k, -WRAPPED_SQUARE) {
      DividesLinear(k, BOUND_SQUARE, 19289048579353507, -WRAPPED_SQUARE, -19289048579961974);
      DividesBound(k, 16);
    }
  }

  lemma SquareOf(b: int64, m: int64)
    requires m > 0
    ensures WrappedPow(1, b, 2, m) == Step(1, Step(b, b, m), m)
  {
    var s := Step(b, b, m);
    assert WrappedPow(1, b, 2, m) == WrappedPow(1, s, 1, m);
    assert WrappedPow(1, s, 1, m) == WrappedPow(Step(1, s, m), Step(s, s, m), 0, m);
  }

  /** Above the bound its square wraps around to a negative number. */
  lemma BoundSquareWraps(m: int64)
    requires m as int > SAFE_MODULUS
    ensures WrappedPow(1, 3037000500, 2, m) as int != Primitive(3037000500, 2, m as int)
  {
    var b: int64 := 3037000500;
    var s := Step(b, b, m);
    BoundSquare(m);
    SquareOf(b, m);
    StepExact(1, s, m);
    TRemFixed(s as int, m as int);
    NoCommonDivisor(m as nat);
  }

  /** Exactly for which moduli mod_pow is right for every residue and exponent. */
  lemma ModPowExact(m: int64)
    requires m > 0
    ensures (forall b: int64, e: int64 :: 0 <= b < m && e > 0 ==>
               WrappedPow(1, b, e, m) as int == Primitive(b as int, e as nat, m as int))
       <==> m as int <= SAFE_MODULUS
  {
    if m as int <= SAFE_MODULUS {
      forall b: int64, e: int64 | 0 <= b < m && e > 0
        ensures WrappedPow(1, b, e, m) as int == Primitive(b as int, e as nat, m as int)
      {
        ModPowCorrect(b, e, m);
      }
    } else {
      BoundSquareWraps(m);
    }
  }

  // ------------------------------------------------------- message encryption

  /** What the encryption loop produces for a key it can handle. */
  function EncryptSpec(m: Bytes, e: nat, n: int): (c: seq<int>)
    requires n > 0
    ensures |c| == |m|
  {
    seq(|m|, i requires 0 <= i < |m| => Primitive(SignedChar(m[i]), e, n))
  }

  function DecryptSpec(c: seq<int>, d: nat, n: int): (m: Bytes)
    requires n > 0
    ensures |m| == |c|
  {
    seq(|c|, i requires 0 <= i < |c| => LowByte(Primitive(c[i], d, n)))
  }

  function Values(s: seq<int64>): (r: seq<int>)
    ensures |r| == |s| && forall i :: 0 <= i < |s| ==> r[i] == s[i] as int
  {
    seq(|s|, i requires 0 <= i < |s| => s[i] as int)
  }

  lemma CharRoundTrip(b: Byte, p: nat, q: nat, n: nat, e: nat, d: nat)
    requires KeyPair(p, q, n, e, d)
    ensures n > 0
    ensures LowByte(Primitive(Primitive(SignedChar(b), e, n), d, n)) == b <==> Recoverable(SignedChar(b), p, q)
  {
    PrimitiveRoundTrip(SignedChar(b), p, q, n, e, d);
    TRemFixed(SignedChar(b), n);
    var c := SignedChar(b);
    var r := if p == q && Divides(p, c) then 0 else TRem(c, n);
    DivideDown(Abs(c), n);
    assert -128 <= r < 128;
    assert r == c <==> LowByte(r) == b;
  }

  /** Decryption inverts encryption on exactly the messages made of recoverable characters. */
  lemma MessageRoundTrip(m: Bytes, p: nat, q: nat, n: nat, e: nat, d: nat)
    requires KeyPair(p, q, n, e, d)
    ensures n > 0
    ensures DecryptSpec(EncryptSpec(m, e, n), d, n) == m
       <==> forall i :: 0 <= i < |m| ==> Recoverable(SignedChar(m[i]), p, q)
  {
    forall i | 0 <= i < |m|
      ensures n > 0 && (DecryptSpec(EncryptSpec(m, e, n), d, n)[i] == m[i] <==> Recoverable(SignedChar(m[i]), p, q))
    {
      CharRoundTrip(m[i], p, q, n, e, d);
    }
    assert n > 0 by { CharRoundTrip(0, p, q, n, e, d); }
    var r := DecryptSpec(EncryptSpec(m, e, n), d, n);
    if forall i :: 0 <= i < |m| ==> Recoverable(SignedChar(m[i]), p, q) {
      assert r == m;
    }
    if r == m {
      forall i | 0 <= i < |m| ensures Recoverable(SignedChar(m[i]), p, q) {
        assert r[i] == m[i];
      }
    }
  }

  /** With distinct primes whose product exceeds 128 every byte string survives. */
  lemma EveryMessageSurvives(m: Bytes, p: nat, q: nat, n: nat, e: nat, d: nat)
    requires KeyPair(p, q, n, e, d) && p != q && n > 128
    ensures DecryptSpec(EncryptSpec(m, e, n), d, n) == m
  {
    MessageRoundTrip(m, p, q, n, e, d);
  }

  lemma TotientAtLeastThree(p: nat, q: nat)
    requires Prime(p) && Prime(q)
    ensures p * q > 0 && (Phi(p * q) >= 3 <==> p * q > 6)
  {
    PhiTwoPrimes(p, q);
    if p >= 3 && q >= 3 {
      MulMonotone(3, p, q);
      MulMonotone(2, p - 1, q - 1);
      MulMonotone(2, q - 1, p - 1);
      MulMonotone(3, p, p - 1);
    } else if p == 2 {
      if q != 2 { PrimeOdd(q); }
    } else {
      PrimeOdd(p);
    }
  }

  // --------------------------------------------------------------- the class

  class RSAHandler {
    var p: int64
    var q: int64
    var modulus: int64
    var t: int64
    var publicKey: int64
    var privateKey: int64
    var clientPublicKey: int64
    var clientModulus: int64

    ghost predicate Valid()
      reads this
    {
      2 <= p && 2 <= q && 2 <= modulus && 2 <= publicKey && 0 <= privateKey
      && t as int == Phi(modulus as int)
      && KeyPair(p as int, q as int, modulus as int, publicKey as int, privateKey as int)
    }

    /** The constructor after two primes were drawn; `ok` is false when it throws. */
    method Init(p0: int64, q0: int64) returns (ok: bool)
      requires Prime(p0 as int) && Prime(q0 as int) && p0 as int * q0 as int < TWO_63
      modifies this
      ensures ok <==> p0 as int * q0 as int > 6
      ensures ok ==> Valid() && p == p0 && q == q0 && clientPublicKey == 0 && clientModulus == 0
    {
      clientPublicKey, clientModulus := 0, 0;
      p, q := p0, q0;
      TotientAtLeastThree(p0 as int, q0 as int);
      modulus := p * q;
      PhiPositive(modulus as int);
      t := ComputeTotient(modulus);
      var e := GenerateE(t);
      if e.None? {
        return false;
      }
      publicKey := e.value;
      GcdOfGenerated(publicKey as int, t as int);
      privateKey := ModInverse(publicKey, t);
      return true;
    }

    method Encrypt(m: Bytes) returns (r: Option<seq<int64>>)
      ensures r.None? <==> clientPublicKey == 0 || clientModulus == 0
      ensures r.Some? ==> |r.value| == |m| && forall i :: 0 <= i < |m| ==>
        r.value[i] == WrappedPow(1, SignedChar(m[i]) as int64, clientPublicKey, clientModulus)
      ensures r.Some? && clientPublicKey > 0 && 0 < clientModulus && clientModulus as int <= SAFE_MODULUS ==>
        Values(r.value) == EncryptSpec(m, clientPublicKey as nat, clientModulus as int)
    {
      if clientPublicKey == 0 || clientModulus == 0 {
        return None;
      }
      var encryptedMessage: seq<int64> := [];
      for i := 0 to |m|
        invariant |encryptedMessage| == i
        invariant forall j :: 0 <= j < i ==>
          encryptedMessage[j] == WrappedPow(1, SignedChar(m[j]) as int64, clientPublicKey, clientModulus)
      {
        var encryptedChar := ModPow(SignedChar(m[i]) as int64, clientPublicKey, clientModulus);
        encryptedMessage := encryptedMessage + [encryptedChar];
      }
      if clientPublicKey > 0 && 0 < clientModulus && clientModulus as int <= SAFE_MODULUS {
        forall j | 0 <= j < |m|
          ensures encryptedMessage[j] as int == EncryptSpec(m, clientPublicKey as nat, clientModulus as int)[j]
        {
          ModPowCorrect(SignedChar(m[j]) as int64, clientPublicKey, clientModulus);
        }
      }
      return Some(encryptedMessage);
    }

    method Decrypt(encrypted: seq<int64>) returns (m: Bytes)
      requires Valid()
      ensures |m| == |encrypted|
      ensures forall i :: 0 <= i < |encrypted| ==>
        (WrappedPow(1, encrypted[i], privateKey, modulus) as int - m[i] as int) % 256 == 0
      ensures modulus as int <= SAFE_MODULUS && (forall i :: 0 <= i < |encrypted| ==> Small(encrypted[i] as int)) ==>
        m == DecryptSpec(Values(encrypted), privateKey as nat, modulus as int)
    {
      m := [];
      assert privateKey > 0 by { PrivateKeyPositive(); }
      for i := 0 to |encrypted|
        invariant |m| == i
        invariant forall j :: 0 <= j < i ==>
          m[j] == LowByte(WrappedPow(1, encrypted[j], privateKey, modulus) as int)
      {
        var value := ModPow(encrypted[i], privateKey, modulus);
        m := m + [LowByte(value as int)];
      }
      if modulus as int <= SAFE_MODULUS && forall i :: 0 <= i < |encrypted| ==> Small(encrypted[i] as int) {
        forall j | 0 <= j < |encrypted|
          ensures m[j] == DecryptSpec(Values(encrypted), privateKey as nat, modulus as int)[j]
        {
          ModPowCorrect(encrypted[j], privateKey, modulus);
        }
      }
    }

    lemma PrivateKeyPositive()
      requires Valid()
      ensures privateKey > 0
    {
      var k := InverseWitness(privateKey as int, publicKey as int, Phi(modulus as int));
    }

    static method IsPrime(n: int64) returns (r: bool)
      ensures r <==> Prime(n as int)
    {
      if n <= 1 {
        return false;
      }
      var i: int64 := 2;
      while i as int * i as int <= n as int
        invariant 2 <= i <= n
        invariant NoDivisorBelow(n as int, i as int)
        decreases n as int - i as int
      {
        MulMonotone(2, i as int, i as int);
        if n % i == 0 {
          assert Divides(i as int, n as int);
          return false;
        }
        i := i + 1;
      }
      NoSmallFactor(n as int, i as int);
      return true;
    }

    static method ComputeTotient(n0: int64) returns (result: int64)
      requires n0 >= 1
      ensures result as int == Phi(n0 as int)
    {
      var n := n0;
      result := n;
      var i: int64 := 2;
      ghost var c: nat := 1;
      TotientStart(n as int);
      while i as int * i as int <= n as int
        invariant 1 <= n && 2 <= i && (i == 2 || i <= n0)
        invariant n <= n0
        invariant TotientLoop(n0 as int, n as int, i as int, c, result as int)
        decreases n as int - i as int
      {
        MulMonotone(2, i as int, i as int);
        if n % i == 0 {
          ghost var n1 := n;
          ghost var k: nat := 0;
          while n % i == 0
            invariant 1 <= n <= n1 && n1 as int == Pow(i as int, k) * n as int
            decreases n
          {
            PeelFactor(i as int, k, n as int);
            n := n / i;
            k := k + 1;
          }
          TotientStep(n0 as int, n1 as int, n as int, i as int, k, c, result as int);
          result := result - result / i;
          c := c * Pow(i as int, k);
        } else {
          SkipNonDivisor(n as int, i as int);
        }
        i := i + 1;
      }
      TotientLast(n0 as int, n as int, i as int, c, result as int);
      if n > 1 {
        result := result - result / n;
      }
    }

    static method Gcd64(a0: int64, b0: int64) returns (a: int64)
      requires a0 >= 0 && b0 >= 0
      ensures a as int == Gcd(a0 as int, b0 as int)
    {
      a := a0;
      var b := b0;
      while b != 0
        invariant a >= 0 && b >= 0 && Gcd(a as int, b as int) == Gcd(a0 as int, b0 as int)
        decreases b
      {
        var temp := b;
        b := a % b;
        a := temp;
      }
    }

    static method GenerateE(num: int64) returns (r: Option<int64>)
      requires num >= 1
      ensures r.None? <==> num <= 2
      ensures r.Some? ==> 2 <= r.value < num && LeastNonDivisorPrime(r.value as int, num as int)
      ensures r.Some? && num < 6469693230 ==> r.value <= 29
    {
      var e: int64 := 2;
      while e < num
        invariant 2 <= e && (e <= num || num <= 2)
        invariant NoneCoprimeBelow(num as int, e as int)
      {
        var g := Gcd64(e, num);
        if g == 1 {
          LeastCoprimeIsPrime(e as int, num as int);
          if num < 6469693230 {
            SmallExponent(e as int, num as int);
          }
          return Some(e);
        }
        e := e + 1;
      }
      if num > 2 {
        CoprimeFromCombination((num - 1) as int, num as int, -1, 1);
        assert false;
      }
      return None;
    }

    static method ModPow(base0: int64, exponent0: int64, modulus: int64) returns (result: int64)
      requires modulus != 0
      ensures result == WrappedPow(1, base0, exponent0, modulus)
      ensures exponent0 <= 0 ==> result == 1
    {
      result := 1;
      var base, exponent := base0, exponent0;
      while exponent > 0
        invariant WrappedPow(result, base, exponent, modulus) == WrappedPow(1, base0, exponent0, modulus)
        decreases exponent
      {
        if exponent % 2 == 1 {
          result := Step(result, base, modulus);
        }
        base := Step(base, base, modulus);
        exponent := exponent / 2;
      }
    }

    /** Extended Euclid; every intermediate stays within the modulus in absolute value. */
    static method ModInverse(a0: int64, m0: int64) returns (x: int64)
      requires a0 >= 1 && m0 >= 1 && Coprime(a0 as int, m0 as int)
      ensures IsInverse(x as int, a0 as int, m0 as int)
    {
      var a, m := a0, m0;
      var y: int64 := 0;
      x := 1;
      if m == 1 {
        return 0;
      }
      EuclidStart(a0 as int, m0 as int);
      while a > 1
        invariant a >= 1 && m >= 0 && Coprime(a as int, m as int)
        invariant EuclidSizes(a as int, m as int, x as int, y as int, m0 as int)
        invariant EuclidResidues(a as int, m as int, x as int, y as int, a0 as int, m0 as int)
        decreases m
      {
        EuclidIteration(a as int, m as int, x as int, y as int, a0 as int, m0 as int);
        var quotient := a / m;
        var temp := m;
        m := a % m;
        a := temp;
        temp := y;
        y := x - quotient * y;
        x := temp;
      }
      EuclidDone(m as int, x as int, y as int, a0 as int, m0 as int);
      if x < 0 {
        x := x + m0;
      }
    }
  }

  lemma GcdOfGenerated(e: nat, t: nat)
    requires LeastNonDivisorPrime(e, t)
    ensures Coprime(e, t)
  {
    PrimeCoprime(e, t);
    CoprimeSym(t, e);
  }

  // ------------------------------------------------- invariants of ModInverse

  /** Both numbers are known multiples of the argument. */
  ghost predicate EuclidResidues(a: int, m: int, x: int, y: int, a0: int, m0: int)
    requires m0 > 0
  {
    a % m0 == (x * a0) % m0 && m % m0 == (y * a0) % m0
  }

  /** The coefficients alternate in sign, and their magnitudes add up to the modulus. */
  ghost predicate EuclidSizes(a: int, m: int, x: int, y: int, m0: int) {
    a >= 1 && m >= 0 && x * y <= 0 && 2 * Abs(x) <= m0
    && Abs(y) * a + Abs(x) * m == m0
  }

  lemma EuclidStart(a0: int, m0: int)
    requires a0 >= 1 && m0 > 1
    ensures EuclidResidues(a0, m0, 1, 0, a0, m0) && EuclidSizes(a0, m0, 1, 0, m0)
  {
  }

  lemma EuclidStep(a: int, m: int, q: int, r: int, x: int, y: int, a0: int, m0: int)
    requires m0 > 1 && a > 1 && m > 0 && q >= 0 && r >= 0 && a == q * m + r
    requires EuclidSizes(a, m, x, y, m0) && EuclidResidues(a, m, x, y, a0, m0)
    ensures Abs(q * y) <= m0 && Abs(x - q * y) <= m0
    ensures EuclidSizes(m, r, y, x - q * y, m0)
    ensures EuclidResidues(m, r, y, x - q * y, a0, m0)
  {
    EuclidMagnitude(a, m, q, r, x, y, m0);
    EuclidResidue(a, m, q, x, y, a0, m0);
  }

  /** No iteration divides by zero or leaves the range, and both invariants are kept. */
  lemma EuclidIteration(a: int, m: int, x: int, y: int, a0: int, m0: int)
    requires m0 > 1 && a > 1 && m >= 0 && Coprime(a, m)
    requires EuclidSizes(a, m, x, y, m0) && EuclidResidues(a, m, x, y, a0, m0)
    ensures m > 0 && Coprime(m, a % m)
    ensures Abs(a / m * y) <= m0 && Abs(x - a / m * y) <= m0
    ensures EuclidSizes(m, a % m, y, x - a / m * y, m0)
    ensures EuclidResidues(m, a % m, y, x - a / m * y, a0, m0)
  {
    assert m > 0;
    DivideDown(a, m);
    var q, r := a / m, a % m;
    assert q >= 0 && r >= 0 && a == q * m + r;
    EuclidStep(a, m, q, r, x, y, a0, m0);
  }

  lemma EuclidMagnitude(a: nat, m: nat, q: nat, r: nat, x: int, y: int, m0: int)
    requires a > 1 && m > 0 && a == q * m + r && x * y <= 0 && Abs(y) * a + Abs(x) * m == m0
    ensures Abs(q * y) <= m0 && Abs(x - q * y) <= m0 && 2 * Abs(y) <= m0
    ensures Abs(x - q * y) * m + Abs(y) * r == m0
    ensures y * (x - q * y) <= 0
  {
    OppositeSigns(x, y, q);
    OppositeSigns(0, y, q);
    MagnitudeSum(Abs(x), Abs(y), a, m, q, r, m0);
  }

  lemma MagnitudeSum(u: nat, v: nat, a: nat, m: nat, q: nat, r: nat, m0: int)
    requires a > 1 && m > 0 && a == q * m + r && v * a + u * m == m0
    ensures 0 <= q * v && u + q * v <= m0 && 2 * v <= m0
    ensures (u + q * v) * m + v * r == m0
  {
    calc {
      v * a + u * m;
      v * (q * m) + v * r + u * m;
      { MulExchange(v, q, m); MulAssoc(q, v, m); }
      (q * v) * m + u * m + v * r;
      (u + q * v) * m + v * r;
    }
    assert u * m >= 0 && v * r >= 0 && q * v >= 0;
    MulMonotone(1, m, u + q * v);
    MulMonotone(2, a, v);
  }

  lemma OppositeSigns(x: int, y: int, q: int)
    requires x * y <= 0 && q >= 0
    ensures Abs(x - q * y) == Abs(x) + q * Abs(y)
    ensures y * (x - q * y) <= 0
  {
  }

  lemma EuclidResidue(a: int, m: int, q: int, x: int, y: int, a0: int, m0: int)
    requires m0 > 0 && EuclidResidues(a, m, x, y, a0, m0)
    ensures (a - q * m) % m0 == ((x - q * y) * a0) % m0
  {
    SubtractMultiple(a, x * a0, m, y * a0, q, m0);
    MulAssoc(q, y, a0);
    assert (x - q * y) * a0 == x * a0 - (q * y) * a0;
  }

  lemma SubtractMultiple(a: int, a': int, b: int, b': int, q: int, m: int)
    requires m > 0 && a % m == a' % m && b % m == b' % m
    ensures (a - q * b) % m == (a' - q * b') % m
  {
    var i := CongElim(a, a', m);
    var j := CongElim(b, b', m);
    CombineMultiples(a', b', i, j, q, m);
    CongIntro(a - q * b, a' - q * b', i - q * j, m);
  }

  lemma CombineMultiples(a: int, b: int, i: int, j: int, q: int, m: int)
    ensures (a + i * m) - q * (b + j * m) == (a - q * b) + (i - q * j) * m
  {
    MulAssoc(q, j, m);
  }

  /** When the loop stops, one correction brings the coefficient into range. */
  lemma EuclidDone(m: int, x: int, y: int, a0: int, m0: int)
    requires m0 > 1 && EuclidSizes(1, m, x, y, m0) && EuclidResidues(1, m, x, y, a0, m0)
    ensures IsInverse(if x < 0 then x + m0 else x, a0, m0)
  {
    assert x * a0 == a0 * x;
    if x < 0 {
      assert a0 * (x + m0) == a0 * x + a0 * m0;
      CongIntro(a0 * (x + m0), a0 * x, a0, m0);
    }
  }
}
