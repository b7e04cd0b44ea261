/** Length-prefixed frames over TCP: ServerProject/IConnection.cpp and the
    client end in ServerProject/ClientConnection.cpp. */
module Framing {
  import opened Basics
  import opened Arithmetic

  const HEADER_SIZE: nat := 8
  const CHUNK_SIZE: nat := 4096
  const INT32_LIMIT: int := 0x8000_0000

  // ------------------------------------------------------------- the format

  /** The low `k` bytes of a number, least significant first. */
  function LittleEndian(n: nat, k: nat): (s: Bytes)
    ensures |s| == k
    decreases k, n
  {
    if k == 0 then [] else [(n % 256) as Byte] + LittleEndian(n / 256, k - 1)
  }

  /** The number a (possibly short) header read leaves in a zeroed `size_t`. */
  function HeaderValue(s: Bytes): nat {
    if s == [] then 0 else s[0] as nat + 256 * HeaderValue(s[1..])
  }

  lemma {:induction false} HeaderRoundTrip(n: nat, k: nat)
    ensures Pow(256, k) > 0 && HeaderValue(LittleEndian(n, k)) == n % Pow(256, k)
    decreases k
  {
    PowPositive(256, k);
    if k == 0 {
      DivModUnique(n, n, 0, 1);
    } else {
      HeaderRoundTrip(n / 256, k - 1);
      var s, w := LittleEndian(n, k), Pow(256, k - 1);
      assert s[1..] == LittleEndian(n / 256, k - 1);
      var q, r := n / 256 / w, n / 256 % w;
      assert n / 256 == q * w + r;
      assert n == q * (256 * w) + (n % 256 + 256 * r) by {
        MulExchange(q, 256, w);
      }
      DivModUnique(n, q, n % 256 + 256 * r, 256 * w);
    }
  }

  lemma HeaderOf64Bits(n: nat)
    ensures HeaderValue(LittleEndian(n, 8)) == n % TWO_64
  {
    HeaderRoundTrip(n, 8);
    assert Pow(256, 8) == TWO_64 by {
      assert Pow(256, 2) == 65536;
      PowAdd(256, 2, 2);
      PowAdd(256, 4, 4);
    }
  }

  /** `static_cast<int>(dataSize)`. */
  function Int32(n: nat): (r: int)
    ensures -INT32_LIMIT <= r < INT32_LIMIT && (n - r) % 0x1_0000_0000 == 0
    ensures n < INT32_LIMIT ==> r == n
    ensures n >= INT32_LIMIT ==> r < n
  {
    var low := n % 0x1_0000_0000;
    if low < INT32_LIMIT then low else low - 0x1_0000_0000
  }

  /** What `send` transmits of the body: a negative length is an error and sends nothing. */
  function SentBody(m: Bytes): (r: Bytes)
    ensures |m| < INT32_LIMIT ==> r == m
    ensures INT32_LIMIT <= |m| < 2 * INT32_LIMIT ==> r == []
  {
    var n := Int32(|m|);
    if n < 0 then [] else m[..n]
  }

  function Frame(m: Bytes): Bytes {
    LittleEndian(|m|, HEADER_SIZE) + SentBody(m)
  }

  function Stream(ms: seq<Bytes>): Bytes {
    if ms == [] then [] else Frame(ms[0]) + Stream(ms[1..])
  }

  /** What one receive makes of all bytes the peer sends from now on; `None` when the
      connection ends inside the body. */
  function Receive(stream: Bytes): (Option<Bytes>, Bytes) {
    var h := if |stream| < HEADER_SIZE then |stream| else HEADER_SIZE;
    var size, rest := HeaderValue(stream[..h]), stream[h..];
    if size <= |rest| then (Some(rest[..size]), rest[size..]) else (None, [])
  }

  function ReceiveMany(stream: Bytes, count: nat): (seq<Option<Bytes>>, Bytes)
    decreases count
  {
    if count == 0 then ([], stream)
    else
      var (first, rest) := Receive(stream);
      var (others, left) := ReceiveMany(rest, count - 1);
      ([first] + others, left)
  }

  // --------------------------------------------------------------- the laws

  lemma ReceiveParts(h: Bytes, body: Bytes, rest: Bytes)
    requires |h| == HEADER_SIZE && HeaderValue(h) == |body|
    ensures Receive((h + body) + rest) == (Some(body), rest)
  {
    var stream := (h + body) + rest;
    assert stream[..8] == h && stream[8..] == body + rest;
    assert (body + rest)[..|body|] == body && (body + rest)[|body|..] == rest;
  }

  lemma ReceiveFrame(m: Bytes, rest: Bytes)
    requires |m| < INT32_LIMIT
    ensures Receive(Frame(m) + rest) == (Some(m), rest)
  {
    HeaderOf64Bits(|m|);
    assert SentBody(m) == m;
    ReceiveParts(LittleEndian(|m|, HEADER_SIZE), m, rest);
  }

  /** A message alone on the wire arrives exactly when its length fits a positive `int`; a longer one
      leaves the receiver with an announced length and no end of the body. */
  lemma FrameArrivesIff(m: Bytes)
    ensures Receive(Frame(m)) == (Some(m), []) <==> |m| < INT32_LIMIT
    ensures INT32_LIMIT <= |m| < TWO_64 ==> Receive(Frame(m)) == (None, [])
  {
    if |m| < INT32_LIMIT {
      ReceiveFrame(m, []);
      assert Frame(m) + [] == Frame(m);
    } else {
      HeaderOf64Bits(|m|);
      assert Frame(m)[..8] == LittleEndian(|m|, HEADER_SIZE);
      assert Frame(m)[8..] == SentBody(m);
      assert |SentBody(m)| < |m|;
    }
  }

  lemma {:induction false} LowBytesFirst(n: nat, k: nat, j: nat)
    requires j <= k
    ensures LittleEndian(n, k)[..j] == LittleEndian(n, j)
    decreases k
  {
    if j > 0 {
      LowBytesFirst(n / 256, k - 1, j - 1);
    }
  }

  /** A connection closed inside the body makes the receive fail, whatever has arrived of it. */
  lemma CutOffBody(m: Bytes, k: nat)
    requires |m| < INT32_LIMIT && HEADER_SIZE <= k < HEADER_SIZE + |m|
    ensures Receive(Frame(m)[..k]) == (None, [])
  {
    var cut := Frame(m)[..k];
    assert cut[..8] == LittleEndian(|m|, HEADER_SIZE);
    assert |cut[8..]| < |m|;
    HeaderOf64Bits(|m|);
  }

  /** A connection closed inside the header makes it fail too, unless the bytes of the length that
      have arrived are all zero. */
  lemma CutOffHeader(m: Bytes, k: nat)
    requires k < HEADER_SIZE
    ensures Pow(256, k) > 0
    ensures Receive(Frame(m)[..k]) == (if |m| % Pow(256, k) == 0 then Some([]) else None, [])
  {
    var header, cut := LittleEndian(|m|, HEADER_SIZE), Frame(m)[..k];
    HeaderRoundTrip(|m|, k);
    LowBytesFirst(|m|, HEADER_SIZE, k);
    assert cut == header[..k] && cut[k..] == [];
    ShortHeader(cut);
  }

  lemma ShortHeader(h: Bytes)
    requires |h| < HEADER_SIZE
    ensures Receive(h) == (if HeaderValue(h) == 0 then Some([]) else None, [])
  {
    assert h[..|h|] == h;
  }

  function Delivered(ms: seq<Bytes>): (r: seq<Option<Bytes>>)
    ensures |r| == |ms| && forall i :: 0 <= i < |ms| ==> r[i] == Some(ms[i])
  {
    if ms == [] then [] else [Some(ms[0])] + Delivered(ms[1..])
  }

  /** Any sequence of messages is read back as sent, and nothing of what follows is consumed. */
  lemma {:induction false} ReceiveStream(ms: seq<Bytes>, rest: Bytes)
    requires forall i :: 0 <= i < |ms| ==> |ms[i]| < INT32_LIMIT
    ensures ReceiveMany(Stream(ms) + rest, |ms|) == (Delivered(ms), rest)
    decreases |ms|
  {
    if ms == [] {
      assert Stream(ms) + rest == rest;
    } else {
      var tail := Stream(ms[1..]) + rest;
      assert Stream(ms) + rest == Frame(ms[0]) + tail;
      ReceiveFrame(ms[0], tail);
      ReceiveStream(ms[1..], rest);
    }
  }

  // -------------------------------------------------------------- the sockets

  /** A connected socket: the bytes still to arrive before the peer closes, and the bytes written. */
  class Socket {
    var inbox: Bytes
    var outbox: Bytes

    /** `recv` returns any nonempty prefix up to the limit, or nothing once the peer has closed. */
    method Recv(limit: nat) returns (chunk: Bytes)
      requires limit > 0
      modifies this`inbox
      ensures |chunk| <= limit && |chunk| <= |old(inbox)|
      ensures chunk == old(inbox)[..|chunk|] && inbox == old(inbox)[|chunk|..]
      ensures chunk == [] <==> old(inbox) == []
    {
      if inbox == [] {
        return [];
      }
      var k: nat :| 1 <= k <= limit && k <= |inbox|;
      chunk, inbox := inbox[..k], inbox[k..];
    }

    /** The header is taken as read in one piece. */
    method RecvHeader() returns (size: nat)
      modifies this`inbox
      ensures var h := if |old(inbox)| < HEADER_SIZE then |old(inbox)| else HEADER_SIZE;
        size == HeaderValue(old(inbox)[..h]) && inbox == old(inbox)[h..]
    {
      var h := if |inbox| < HEADER_SIZE then |inbox| else HEADER_SIZE;
      size, inbox := HeaderValue(inbox[..h]), inbox[h..];
    }

    method Send(data: Bytes)
      modifies this`outbox
      ensures outbox == old(outbox) + data
    {
      outbox := outbox + data;
    }
  }

  /** IConnection.cpp `sendData`. */
  method SendData(connection: Socket, data: Bytes)
    modifies connection`outbox
    ensures connection.outbox == old(connection.outbox) + Frame(data)
  {
    connection.Send(LittleEndian(|data|, HEADER_SIZE));
    connection.Send(SentBody(data));
  }

  /** ClientConnection.cpp `sendData` compares the transmitted length with the real one
      and throws when they differ. */
  method SendDataChecked(connection: Socket, data: Bytes) returns (ok: bool)
    modifies connection`outbox
    ensures connection.outbox == old(connection.outbox) + Frame(data)
    ensures ok <==> |data| < INT32_LIMIT
  {
    connection.Send(LittleEndian(|data|, HEADER_SIZE));
    var sent := SentBody(data);
    connection.Send(sent);
    ok := |sent| == |data|;
  }

  /** What the chunk loop has read of the bytes that follow the header. */
  ghost predicate ReadSoFar(data: Bytes, inbox: Bytes, body: Bytes) {
    |data| <= |body| && data == body[..|data|] && inbox == body[|data|..]
  }

  lemma ReadMore(data: Bytes, inbox: Bytes, body: Bytes, chunk: nat)
    requires ReadSoFar(data, inbox, body) && chunk <= |inbox|
    ensures ReadSoFar(data + inbox[..chunk], inbox[chunk..], body)
  {
  }

  /** IConnection.cpp `receiveData`; `None` is the exception for a connection closed inside a body. */
  method ReceiveData(connection: Socket) returns (r: Option<Bytes>)
    modifies connection`inbox
    ensures (r, connection.inbox) == Receive(old(connection.inbox))
  {
    var dataSize := connection.RecvHeader();
    ghost var body := connection.inbox;
    var data: Bytes := [];
    var totalReceived := 0;
    assert body[0..] == body;
    while totalReceived < dataSize
      invariant totalReceived == |data| <= dataSize
      invariant ReadSoFar(data, connection.inbox, body)
      decreases dataSize - totalReceived
    {
      var bytesToReceive := if CHUNK_SIZE < dataSize - totalReceived then CHUNK_SIZE else dataSize - totalReceived;
      ghost var before := connection.inbox;
      var chunk := connection.Recv(bytesToReceive);
      if chunk == [] {
        return None;
      }
      ReadMore(data, before, body, |chunk|);
      data := data + chunk;
      totalReceived := totalReceived + |chunk|;
    }
    return Some(data);
  }

  /** ClientConnection.cpp `receiveData` reports the same failure as an empty message. */
  method ReceiveDataOrEmpty(connection: Socket) returns (data: Bytes)
    modifies connection`inbox
    ensures connection.inbox == Receive(old(connection.inbox)).1
    ensures data == match Receive(old(connection.inbox)).0 case Some(m) => m case None => []
  {
    var r := ReceiveData(connection);
    data := if r.Some? then r.value else [];
  }
}
