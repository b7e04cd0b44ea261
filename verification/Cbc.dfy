/** ServerProject/AesHandler.cpp: cipher block chaining (section 6.2 of NIST SP 800-38A) with the
    padding of section 6.3 of RFC 5652, over any block permutation. The block cipher itself is a
    parameter; nothing but its inverse law is used. */
module Cbc {
  import opened Basics
  import opened Arithmetic

  const BLOCK: nat := 16

  const ZERO_BLOCK: Bytes := seq(BLOCK, _ => 0 as Byte)

  datatype KeyPair = KeyPair(key: Bytes, iv: Bytes)

  /** Key and initialisation vector, both of the size `AesKey` gives them. */
  type AesKey = k: KeyPair | |k.key| == BLOCK && |k.iv| == BLOCK
    witness KeyPair(ZERO_BLOCK, ZERO_BLOCK)

  datatype BlockCipher = BlockCipher(encrypt: (Bytes, Bytes) -> Bytes, decrypt: (Bytes, Bytes) -> Bytes)

  /** Both directions map blocks to blocks, and decryption inverts encryption. */
  ghost predicate Permutation(c: BlockCipher) {
    (forall k, b :: |b| == BLOCK ==> |c.encrypt(k, b)| == BLOCK && c.decrypt(k, c.encrypt(k, b)) == b)
    && forall k, b :: |b| == BLOCK ==> |c.decrypt(k, b)| == BLOCK
  }

  /** Encryption inverts decryption as well, as it does for a real cipher. */
  ghost predicate Bijective(c: BlockCipher) {
    Permutation(c) && forall k, b :: |b| == BLOCK ==> c.encrypt(k, c.decrypt(k, b)) == b
  }

  // ------------------------------------------------------------- exclusive or

  function XorBits(a: nat, b: nat, bits: nat): (r: nat)
    decreases bits, a, b
  {
    if bits == 0 then 0
    else 2 * XorBits(a / 2, b / 2, bits - 1) + if a % 2 != b % 2 then 1 else 0
  }

  lemma {:induction false} XorBitsInverse(a: nat, b: nat, bits: nat)
    requires a < Pow(2, bits)
    ensures XorBits(a, b, bits) < Pow(2, bits)
    ensures XorBits(XorBits(a, b, bits), b, bits) == a
    decreases bits
  {
    if bits > 0 {
      XorBitsInverse(a / 2, b / 2, bits - 1);
      var x := XorBits(a, b, bits);
      assert x / 2 == XorBits(a / 2, b / 2, bits - 1);
      assert x % 2 == if a % 2 != b % 2 then 1 else 0;
    }
  }

  lemma EightBits()
    ensures Pow(2, 8) == 256
  {
  }

  function XorByte(a: Byte, b: Byte): Byte {
    EightBits();
    XorBitsInverse(a as nat, b as nat, 8);
    XorBits(a as nat, b as nat, 8) as Byte
  }

  function Xor(a: Bytes, b: Bytes): (r: Bytes)
    requires |a| == |b|
    ensures |r| == |a| && forall i :: 0 <= i < |a| ==> r[i] == XorByte(a[i], b[i])
  {
    seq(|a|, i requires 0 <= i < |a| => XorByte(a[i], b[i]))
  }

  lemma XorInverse(a: Bytes, b: Bytes)
    requires |a| == |b|
    ensures Xor(Xor(a, b), b) == a
  {
    forall i | 0 <= i < |a|
      ensures XorByte(XorByte(a[i], b[i]), b[i]) == a[i]
    {
      XorByteInverse(a[i], b[i]);
    }
  }

  lemma XorByteInverse(a: Byte, b: Byte)
    ensures XorByte(XorByte(a, b), b) == a
  {
    EightBits();
    XorBitsInverse(a as nat, b as nat, 8);
  }

  // ----------------------------------------------------------------- chaining

  function EncryptBlocks(c: BlockCipher, k: Bytes, previous: Bytes, s: Bytes): Bytes
    requires |previous| == BLOCK
    decreases |s|
  {
    if |s| < BLOCK then []
    else
      var b := c.encrypt(k, Xor(s[..BLOCK], previous));
      if |b| != BLOCK then [] else b + EncryptBlocks(c, k, b, s[BLOCK..])
  }

  function DecryptBlocks(c: BlockCipher, k: Bytes, previous: Bytes, s: Bytes): Bytes
    requires |previous| == BLOCK
    decreases |s|
  {
    if |s| < BLOCK then []
    else
      var b := c.decrypt(k, s[..BLOCK]);
      if |b| != BLOCK then [] else Xor(b, previous) + DecryptBlocks(c, k, s[..BLOCK], s[BLOCK..])
  }

  lemma {:induction false} ChainRoundTrip(c: BlockCipher, k: Bytes, previous: Bytes, s: Bytes)
    requires Permutation(c) && |previous| == BLOCK && |s| % BLOCK == 0
    ensures |EncryptBlocks(c, k, previous, s)| == |s|
    ensures DecryptBlocks(c, k, previous, EncryptBlocks(c, k, previous, s)) == s
    decreases |s|
  {
    if |s| >= BLOCK {
      var x := Xor(s[..BLOCK], previous);
      var b := c.encrypt(k, x);
      ChainRoundTrip(c, k, b, s[BLOCK..]);
      var rest := EncryptBlocks(c, k, b, s[BLOCK..]);
      assert (b + rest)[..BLOCK] == b && (b + rest)[BLOCK..] == rest;
      XorInverse(s[..BLOCK], previous);
    }
  }

  function Block(s: Bytes, i: nat): Bytes
    requires BLOCK * (i + 1) <= |s|
  {
    s[BLOCK * i..BLOCK * (i + 1)]
  }

  /** Cipher block chaining as section 6.2 of NIST SP 800-38A defines it: every block is combined with the
      ciphertext block before it, the first one with the initialisation vector. */
  lemma {:induction false} ChainedBlocks(c: BlockCipher, k: Bytes, iv: Bytes, s: Bytes, i: nat)
    requires Permutation(c) && |iv| == BLOCK && |s| % BLOCK == 0 && BLOCK * (i + 1) <= |s|
    ensures var e := EncryptBlocks(c, k, iv, s);
      |e| == |s| && |Block(s, i)| == BLOCK
      && (i == 0 ==> Block(e, 0) == c.encrypt(k, Xor(Block(s, 0), iv)))
      && (i > 0 ==> |Block(e, i - 1)| == BLOCK && Block(e, i) == c.encrypt(k, Xor(Block(s, i), Block(e, i - 1))))
    decreases i
  {
    ChainRoundTrip(c, k, iv, s);
    var b, e, rest := c.encrypt(k, Xor(s[..BLOCK], iv)), EncryptBlocks(c, k, iv, s), s[BLOCK..];
    var e' := EncryptBlocks(c, k, b, rest);
    assert e == b + e' && |b| == BLOCK && Block(e, 0) == b && Block(s, 0) == s[..BLOCK];
    if i > 0 {
      ChainedBlocks(c, k, b, rest, i - 1);
      ShiftBlock(b, e', i - 1);
      ShiftBlock(s[..BLOCK], rest, i - 1);
      assert s[..BLOCK] + rest == s;
      if i > 1 {
        ShiftBlock(b, e', i - 2);
      }
    }
  }

  lemma ShiftBlock(first: Bytes, rest: Bytes, i: nat)
    requires |first| == BLOCK && BLOCK * (i + 1) <= |rest|
    ensures Block(first + rest, i + 1) == Block(rest, i)
  {
  }

  lemma {:induction false} ReverseChain(c: BlockCipher, k: Bytes, previous: Bytes, s: Bytes)
    requires Bijective(c) && |previous| == BLOCK && |s| % BLOCK == 0
    ensures EncryptBlocks(c, k, previous, DecryptBlocks(c, k, previous, s)) == s
    decreases |s|
  {
    if |s| >= BLOCK {
      var b := c.decrypt(k, s[..BLOCK]);
      var first, rest := Xor(b, previous), DecryptBlocks(c, k, s[..BLOCK], s[BLOCK..]);
      assert (first + rest)[..BLOCK] == first && (first + rest)[BLOCK..] == rest;
      XorInverse(b, previous);
      ReverseChain(c, k, s[..BLOCK], s[BLOCK..]);
    }
  }

  lemma {:induction false} DecryptedLength(c: BlockCipher, k: Bytes, previous: Bytes, s: Bytes)
    requires |previous| == BLOCK
    ensures |DecryptBlocks(c, k, previous, s)| <= |s|
    decreases |s|
  {
    if |s| >= BLOCK && |c.decrypt(k, s[..BLOCK])| == BLOCK {
      DecryptedLength(c, k, s[..BLOCK], s[BLOCK..]);
    }
  }

  // ------------------------------------------------------------------ padding

  function PadLength(m: Bytes): (n: nat)
    ensures 1 <= n <= BLOCK && (|m| + n) % BLOCK == 0
  {
    BLOCK - |m| % BLOCK
  }

  function Filler(n: nat): (r: Bytes)
    requires n <= BLOCK
    ensures |r| == n
  {
    seq(n, _ => n as Byte)
  }

  function Pad(m: Bytes): (r: Bytes)
    ensures |r| % BLOCK == 0 && |m| + 1 <= |r| <= |m| + BLOCK
    ensures r[..|m|] == m && forall i :: |m| <= i < |r| ==> r[i] as int == |r| - |m|
  {
    m + Filler(PadLength(m))
  }

  /** `None` stands for the exception of a malformed ciphertext. */
  function Unpad(s: Bytes): (r: Option<Bytes>)
    ensures r.Some? ==> |r.value| < |s|
  {
    if s == [] then None
    else
      var n := s[|s| - 1] as nat;
      if 1 <= n <= BLOCK && n <= |s| && s[|s| - n..] == Filler(n) then Some(s[..|s| - n]) else None
  }

  lemma UnpadPad(m: Bytes)
    ensures Unpad(Pad(m)) == Some(m)
  {
  }

  /** And nothing else is accepted as padded. */
  lemma UnpadIff(s: Bytes, m: Bytes)
    requires |s| % BLOCK == 0
    ensures Unpad(s) == Some(m) <==> s == Pad(m)
  {
    UnpadPad(m);
    if Unpad(s) == Some(m) {
      var n := |s| - |m|;
      assert s[|s| - n..] == Filler(n) && PadLength(m) == n;
      assert s == s[..|m|] + s[|m|..];
    }
  }

  // ------------------------------------------------------------- the handlers

  function EncryptAes(c: BlockCipher, key: AesKey, m: Bytes): Bytes {
    EncryptBlocks(c, key.key, key.iv, Pad(m))
  }

  function DecryptAes(c: BlockCipher, key: AesKey, s: Bytes): (r: Option<Bytes>)
    ensures r.Some? ==> |r.value| < |s|
  {
    DecryptedLength(c, key.key, key.iv, s);
    if |s| % BLOCK != 0 then None else Unpad(DecryptBlocks(c, key.key, key.iv, s))
  }

  /** Decryption inverts encryption, and a ciphertext is 1 to 16 bytes longer than its message. */
  lemma AesRoundTrip(c: BlockCipher, key: AesKey, m: Bytes)
    requires Permutation(c)
    ensures DecryptAes(c, key, EncryptAes(c, key, m)) == Some(m)
    ensures |EncryptAes(c, key, m)| == (|m| / BLOCK + 1) * BLOCK
    ensures |m| + 1 <= |EncryptAes(c, key, m)| <= |m| + BLOCK
  {
    ChainRoundTrip(c, key.key, key.iv, Pad(m));
    UnpadPad(m);
  }

  /** A text is decrypted only if it is the encryption of the result: every other one is an exception. */
  lemma DecryptIff(c: BlockCipher, key: AesKey, s: Bytes, m: Bytes)
    requires Bijective(c)
    ensures DecryptAes(c, key, s) == Some(m) <==> s == EncryptAes(c, key, m)
  {
    AesRoundTrip(c, key, m);
    if DecryptAes(c, key, s) == Some(m) {
      var d := DecryptBlocks(c, key.key, key.iv, s);
      ReverseChain(c, key.key, key.iv, s);
      DecryptedMultiple(c, key.key, key.iv, s);
      UnpadIff(d, m);
    }
  }

  lemma {:induction false} DecryptedMultiple(c: BlockCipher, k: Bytes, previous: Bytes, s: Bytes)
    requires |previous| == BLOCK
    ensures |DecryptBlocks(c, k, previous, s)| % BLOCK == 0
    decreases |s|
  {
    if |s| >= BLOCK && |c.decrypt(k, s[..BLOCK])| == BLOCK {
      DecryptedMultiple(c, k, s[..BLOCK], s[BLOCK..]);
    }
  }

  /** The first block of a ciphertext comes from the message and the vector of the key. */
  lemma FirstBlock(c: BlockCipher, key: AesKey, m: Bytes)
    requires Permutation(c)
    ensures |EncryptAes(c, key, m)| >= BLOCK
    ensures Block(EncryptAes(c, key, m), 0) == c.encrypt(key.key, Xor(Block(Pad(m), 0), key.iv))
  {
    ChainedBlocks(c, key.key, key.iv, Pad(m), 0);
  }

  // ------------------------------------------------------- the law is satisfiable

  /** A keyed permutation of blocks, enough to instantiate everything above. */
  const XOR_CIPHER: BlockCipher := BlockCipher((k, b) => XorBlock(k, b), (k, b) => XorBlock(k, b))

  function XorBlock(k: Bytes, b: Bytes): (r: Bytes)
    ensures |r| == |b|
  {
    if |k| == |b| then Xor(b, k) else b
  }

  lemma XorCipherLawful()
    ensures Bijective(XOR_CIPHER)
  {
    forall k, b | |b| == BLOCK
      ensures XOR_CIPHER.decrypt(k, XOR_CIPHER.encrypt(k, b)) == b
      ensures XOR_CIPHER.encrypt(k, XOR_CIPHER.decrypt(k, b)) == b
    {
      if |k| == |b| {
        XorInverse(b, k);
      }
    }
  }

  const ONE_BLOCK: Bytes := [1] + seq(BLOCK - 1, _ => 0 as Byte)

  lemma FewBits()
    ensures XorByte(0, 0) == 0 && XorByte(0, 1) == 1 && XorByte(1, 0) == 1
  {
    assert XorBits(0, 0, 8) == 0 && XorBits(0, 1, 8) == 1 && XorBits(1, 0, 8) == 1;
  }

  lemma OneBlockEncrypted(key: Bytes, s: Bytes)
    requires |key| == BLOCK && |s| == BLOCK
    ensures EncryptBlocks(XOR_CIPHER, key, ZERO_BLOCK, s) == Xor(Xor(s, ZERO_BLOCK), key)
    ensures DecryptBlocks(XOR_CIPHER, key, ZERO_BLOCK, s) == Xor(Xor(s, key), ZERO_BLOCK)
  {
    assert s[..BLOCK] == s && s[BLOCK..] == [];
    var e, d := XOR_CIPHER.encrypt(key, Xor(s, ZERO_BLOCK)), XOR_CIPHER.decrypt(key, s);
    assert e == Xor(Xor(s, ZERO_BLOCK), key) && d == Xor(s, key);
    assert EncryptBlocks(XOR_CIPHER, key, e, []) == [] && DecryptBlocks(XOR_CIPHER, key, s, []) == [];
  }

  /** And another key does not undo a layer. */
  lemma OtherKeyFails()
    ensures var first, second := KeyPair(ZERO_BLOCK, ZERO_BLOCK), KeyPair(ONE_BLOCK, ZERO_BLOCK);
      DecryptAes(XOR_CIPHER, first, EncryptAes(XOR_CIPHER, second, [0])) != Some([0])
  {
    var padded := Pad([0]);
    var e := Xor(Xor(padded, ZERO_BLOCK), ONE_BLOCK);
    var d := Xor(Xor(e, ZERO_BLOCK), ZERO_BLOCK);
    OneBlockEncrypted(ONE_BLOCK, padded);
    OneBlockEncrypted(ZERO_BLOCK, e);
    FewBits();
    assert padded[0] == 0 && d[0] == 1;
  }
}
