/** Layered encryption: ClientProject/Client.cpp wraps from the exit to the entry, every node
    strips one header and one layer, and replies are wrapped on the way back. */
module Onion {
  import opened Basics
  import opened Cbc

  const UUID_SIZE: nat := 4
  const HEADER_SIZE: nat := 89
  const ZERO_DIGIT: Byte := 48

  /** The ciphers of the system: a block cipher under `Cbc`, and the public-key encryption that
      seals a conversation id for the node at an address (the last argument is its randomness). */
  datatype Suite = Suite(aes: BlockCipher,
                         seal: (Address, Bytes, int) -> Bytes,
                         open: (Address, Bytes) -> Option<Bytes>)

  ghost predicate Lawful(s: Suite) {
    Permutation(s.aes)
    && forall a, id, r {:trigger s.seal(a, id, r)} :: |id| == UUID_SIZE ==>
      |s.seal(a, id, r)| == HEADER_SIZE && s.seal(a, id, r)[0] != ZERO_DIGIT
      && s.open(a, s.seal(a, id, r)) == Some(id)
  }

  /** ClientProject/RelayObject.cpp: what the client knows of one hop after the handshake. */
  datatype Hop = Hop(address: Address, key: AesKey, id: Bytes, header: Bytes)

  ghost predicate ReadyHop(s: Suite, h: Hop) {
    |h.id| == UUID_SIZE && |h.header| == HEADER_SIZE
    && h.header[0] != ZERO_DIGIT && s.open(h.address, h.header) == Some(h.id)
  }

  ghost predicate ReadyPath(s: Suite, path: seq<Hop>) {
    forall i :: 0 <= i < |path| ==> ReadyHop(s, path[i])
  }

  // ------------------------------------------------------------- forward layers

  /** The packet entering the first hop of `path`. */
  function Wrap(s: Suite, path: seq<Hop>, m: Bytes): Bytes {
    if path == [] then m
    else path[0].header + EncryptAes(s.aes, path[0].key, Wrap(s, path[1..], m))
  }

  /** Client.cpp `encrypt`: from the last relay to the first. */
  method Encrypt(s: Suite, currentPath: seq<Hop>, plaintext: Bytes) returns (encrypted: Bytes)
    ensures encrypted == Wrap(s, currentPath, plaintext)
  {
    encrypted := plaintext;
    var i := |currentPath| - 1;
    assert currentPath[|currentPath|..] == [];
    while i >= 0
      invariant -1 <= i < |currentPath|
      invariant encrypted == Wrap(s, currentPath[i + 1..], plaintext)
    {
      var relay := currentPath[i];
      assert currentPath[i..] == [relay] + currentPath[i + 1..];
      encrypted := EncryptAes(s.aes, relay.key, encrypted);
      encrypted := relay.header + encrypted;
      i := i - 1;
    }
    assert currentPath[0..] == currentPath;
  }

  /** Node.cpp strips the header and decrypts; `None` is the exception of the cipher. */
  function Peel(s: Suite, key: AesKey, packet: Bytes): (r: Option<Bytes>)
    requires |packet| >= HEADER_SIZE
    ensures r.Some? ==> |r.value| < |packet|
  {
    DecryptAes(s.aes, key, packet[HEADER_SIZE..])
  }

  /** The first hop of a wrapped packet finds its header in front and the packet of the next hop inside. */
  lemma PeelOne(s: Suite, path: seq<Hop>, m: Bytes)
    requires Lawful(s) && path != [] && ReadyPath(s, path)
    ensures var packet := Wrap(s, path, m);
      |packet| >= HEADER_SIZE && packet[..HEADER_SIZE] == path[0].header
      && Peel(s, path[0].key, packet) == Some(Wrap(s, path[1..], m))
      && |Wrap(s, path[1..], m)| + 90 <= |packet| <= |Wrap(s, path[1..], m)| + 105
  {
    var inner := Wrap(s, path[1..], m);
    var packet := Wrap(s, path, m);
    AesRoundTrip(s.aes, path[0].key, inner);
    assert packet[..HEADER_SIZE] == path[0].header;
    assert packet[HEADER_SIZE..] == EncryptAes(s.aes, path[0].key, inner);
  }

  function PeelAll(s: Suite, path: seq<Hop>, packet: Bytes): Option<Bytes>
    decreases |path|
  {
    if path == [] then Some(packet)
    else if |packet| < HEADER_SIZE then None
    else
      var inner := Peel(s, path[0].key, packet);
      if inner.None? then None else PeelAll(s, path[1..], inner.value)
  }

  /** Peeling first to last inverts wrapping last to first, for every path. */
  lemma {:induction false} PeelAllInvertsWrap(s: Suite, path: seq<Hop>, m: Bytes)
    requires Lawful(s) && ReadyPath(s, path)
    ensures PeelAll(s, path, Wrap(s, path, m)) == Some(m)
    decreases |path|
  {
    if path != [] {
      PeelOne(s, path, m);
      PeelAllInvertsWrap(s, path[1..], m);
    }
  }

  /** Every layer adds a header and 1 to 16 bytes of padding. */
  lemma {:induction false} WrapLength(s: Suite, path: seq<Hop>, m: Bytes)
    requires Lawful(s) && ReadyPath(s, path)
    ensures |m| + 90 * |path| <= |Wrap(s, path, m)| <= |m| + 105 * |path|
    decreases |path|
  {
    if path != [] {
      PeelOne(s, path, m);
      WrapLength(s, path[1..], m);
    }
  }

  // -------------------------------------------------------------- reply layers

  /** What the entry node sends to the client: the exit encrypts first, then every relay before it. */
  function ReplyWrap(s: Suite, path: seq<Hop>, m: Bytes): Bytes {
    if path == [] then m else EncryptAes(s.aes, path[0].key, ReplyWrap(s, path[1..], m))
  }

  function Unwrap(s: Suite, path: seq<Hop>, c: Bytes): Option<Bytes>
    decreases |path|
  {
    if path == [] then Some(c)
    else
      var inner := DecryptAes(s.aes, path[0].key, c);
      if inner.None? then None else Unwrap(s, path[1..], inner.value)
  }

  /** Client.cpp `decrypt`: from the first relay to the last. */
  method Decrypt(s: Suite, currentPath: seq<Hop>, encrypted: Bytes) returns (r: Option<Bytes>)
    ensures r == Unwrap(s, currentPath, encrypted)
  {
    var decrypted := encrypted;
    var i := 0;
    assert currentPath[0..] == currentPath;
    while i < |currentPath|
      invariant 0 <= i <= |currentPath|
      invariant Unwrap(s, currentPath, encrypted) == Unwrap(s, currentPath[i..], decrypted)
    {
      assert currentPath[i..][1..] == currentPath[i + 1..];
      var inner := DecryptAes(s.aes, currentPath[i].key, decrypted);
      if inner.None? {
        return None;
      }
      decrypted := inner.value;
      i := i + 1;
    }
    return Some(decrypted);
  }

  /** The client undoes all reply layers, for every path. */
  lemma {:induction false} UnwrapInvertsReply(s: Suite, path: seq<Hop>, m: Bytes)
    requires Permutation(s.aes)
    ensures Unwrap(s, path, ReplyWrap(s, path, m)) == Some(m)
    decreases |path|
  {
    if path != [] {
      AesRoundTrip(s.aes, path[0].key, ReplyWrap(s, path[1..], m));
      UnwrapInvertsReply(s, path[1..], m);
    }
  }

  /** And it takes nothing else for a reply. */
  lemma {:induction false} UnwrapIff(s: Suite, path: seq<Hop>, c: Bytes, m: Bytes)
    requires Bijective(s.aes)
    ensures Unwrap(s, path, c) == Some(m) <==> c == ReplyWrap(s, path, m)
    decreases |path|
  {
    if path != [] {
      var inner := DecryptAes(s.aes, path[0].key, c);
      DecryptIff(s.aes, path[0].key, c, ReplyWrap(s, path[1..], m));
      if inner.Some? {
        UnwrapIff(s, path[1..], inner.value, m);
      }
    }
  }

  // ------------------------------------------------------- the laws are satisfiable

  /** A sealing that only has the format of the real one. */
  function PlainSeal(a: Address, id: Bytes, r: int): Bytes {
    seq(HEADER_SIZE - UUID_SIZE, _ => 4 as Byte) + id
  }

  function PlainOpen(a: Address, c: Bytes): Option<Bytes> {
    if |c| < HEADER_SIZE - UUID_SIZE then None else Some(c[HEADER_SIZE - UUID_SIZE..])
  }

  lemma SuiteExists()
    ensures Lawful(Suite(XOR_CIPHER, (a, id, r) => PlainSeal(a, id, r), (a, c) => PlainOpen(a, c)))
    ensures Bijective(XOR_CIPHER)
  {
    XorCipherLawful();
    var s := Suite(XOR_CIPHER, (a, id, r) => PlainSeal(a, id, r), (a, c) => PlainOpen(a, c));
    forall a, id, r | |id| == UUID_SIZE
      ensures |s.seal(a, id, r)| == HEADER_SIZE && s.seal(a, id, r)[0] != ZERO_DIGIT
      ensures s.open(a, s.seal(a, id, r)) == Some(id)
    {
      assert PlainSeal(a, id, r)[HEADER_SIZE - UUID_SIZE..] == id;
    }
  }
}
