/** Python_POC/RSA.py: the same scheme on unbounded integers and Unicode code points. */
module RsaPython {
  import opened Arithmetic
  import opened Totient
  import opened Basics
  import opened RsaMath

  newtype CodePoint = x: int | 0 <= x < 0x11_0000

  /** `chr`; `None` is its exception. */
  function Chr(x: int): Option<CodePoint> {
    if 0 <= x < 0x11_0000 then Some(x as CodePoint) else None
  }

  /** `chr` never fails on an encrypted code point, and gives it back exactly when the key can carry it. */
  lemma CodePointRoundTrip(u: CodePoint, p: nat, q: nat, n: nat, e: nat, d: nat)
    requires KeyPair(p, q, n, e, d)
    ensures n > 0
    ensures var r := Chr(Primitive(Primitive(u as int, e, n), d, n));
      r.Some? && (r == Some(u) <==> Recoverable(u as int, p, q))
  {
    PrimitiveRoundTrip(u as int, p, q, n, e, d);
    TRemFixed(u as int, n);
    DivideDown(u as int, n);
  }

  class RSA {
    var p: nat
    var q: nat
    var modulus: nat
    var t: nat
    var publicKey: nat
    var privateKey: nat
    var clientPublicKey: Option<nat>
    var clientModulus: Option<nat>

    ghost predicate Valid()
      reads this
    {
      KeyPair(p, q, modulus, publicKey, privateKey) && t == Phi(modulus)
    }

    /** The initialiser once two primes were drawn; 2 and 3, the only primes for which it can
        fail, are below the range it draws from. */
    constructor (p0: nat, q0: nat)
      requires Prime(p0) && Prime(q0) && p0 >= 3 && q0 >= 3
      ensures Valid() && p == p0 && q == q0 && clientPublicKey == None && clientModulus == None
    {
      p, q, clientPublicKey, clientModulus := p0, q0, None, None;
      OddTotient(p0, q0);
      var n := p0 * q0;
      modulus := n;
      var totient := ComputeTotient(n);
      t := totient;
      var e := GenerateE(totient);
      publicKey := e.value;
      PrimeCoprime(e.value, totient);
      CoprimeSym(totient, e.value);
      var d := CalculateD(e.value, totient);
      privateKey := d;
    }

    method Encrypt(m: seq<CodePoint>) returns (r: Option<seq<nat>>)
      requires clientModulus != Some(0)
      ensures r.None? <==> clientPublicKey.None? || clientModulus.None?
      ensures r.Some? ==> |r.value| == |m| && forall i :: 0 <= i < |m| ==>
        r.value[i] == Primitive(m[i] as int, clientPublicKey.value, clientModulus.value)
    {
      if clientPublicKey.None? || clientModulus.None? {
        return None;
      }
      var e, n := clientPublicKey.value, clientModulus.value;
      var cipher: seq<nat> := [];
      for i := 0 to |m|
        invariant |cipher| == i
        invariant forall j :: 0 <= j < i ==> cipher[j] == Primitive(m[j] as int, e, n)
      {
        PowNonNegative(m[i] as int, e);
        cipher := cipher + [Primitive(m[i] as int, e, n)];
      }
      return Some(cipher);
    }

    method Decrypt(encrypted: seq<nat>) returns (r: Option<seq<CodePoint>>)
      requires Valid() && modulus > 0
      ensures r.Some? <==>
        forall i :: 0 <= i < |encrypted| ==> Chr(Primitive(encrypted[i], privateKey, modulus)).Some?
      ensures r.Some? ==> |r.value| == |encrypted| && forall i :: 0 <= i < |encrypted| ==>
        Chr(Primitive(encrypted[i], privateKey, modulus)) == Some(r.value[i])
    {
      var plaintext: seq<CodePoint> := [];
      for i := 0 to |encrypted|
        invariant |plaintext| == i
        invariant forall j :: 0 <= j < i ==>
          Chr(Primitive(encrypted[j], privateKey, modulus)) == Some(plaintext[j])
      {
        var c := Chr(Primitive(encrypted[i], privateKey, modulus));
        if c.None? {
          return None;
        }
        plaintext := plaintext + [c.value];
      }
      return Some(plaintext);
    }

    static method ComputeTotient(n0: nat) returns (result: nat)
      requires n0 >= 1
      ensures result == Phi(n0)
    {
      var n: int, i: int := n0, 2;
      result := n0;
      ghost var c: nat := 1;
      TotientStart(n);
      while i * i <= n
        invariant 1 <= n && 2 <= i && TotientLoop(n0, n, i, c, result)
        decreases n - i
      {
        MulMonotone(2, i, i);
        if n % i == 0 {
          ghost var before, n1 := result, n;
          ghost var k: nat := 0;
          DivideDown(result, i);
          result := result - result / i;
          while n % i == 0
            invariant 1 <= n <= n1 && n1 == Pow(i, k) * n
            decreases n
          {
            PeelFactor(i, k, n);
            n := n / i;
            k := k + 1;
          }
          TotientStep(n0, n1, n, i, k, c, before);
          c := c * Pow(i, k);
        } else {
          SkipNonDivisor(n, i);
        }
        i := i + 1;
      }
      TotientLast(n0, n, i, c, result);
      if n > 1 {
        DivideDown(result, n);
        result := result - result / n;
      }
    }

    static method GenerateE(num: nat) returns (r: Option<nat>)
      requires num >= 1
      ensures r.None? <==> num <= 2
      ensures r.Some? ==> 2 <= r.value < num && LeastNonDivisorPrime(r.value, num)
    {
      var e := 2;
      while e < num
        invariant 2 <= e && (e <= num || num <= 2) && NoneCoprimeBelow(num, e)
      {
        if Gcd(e, num) == 1 {
          LeastCoprimeIsPrime(e, num);
          return Some(e);
        }
        e := e + 1;
      }
      if num > 2 {
        CoprimeFromCombination(num - 1, num, -1, 1);
        assert false;
      }
      return None;
    }

    /** The search for the private exponent stops before `e` for every coprime pair. */
    static method CalculateD(e: nat, totient: nat) returns (d: nat)
      requires e >= 2 && totient > 1 && Coprime(e, totient)
      ensures IsInverse(d, e, totient)
    {
      var k := 1;
      ghost var last := SearchEnds(e, totient);
      while (k * totient + 1) % e != 0
        invariant 1 <= k <= last
        decreases last - k
      {
        k := k + 1;
      }
      MulMonotone(0, k, totient);
      SearchFindsInverse(e, totient, k);
      d := (k * totient + 1) / e;
    }
  }
}
