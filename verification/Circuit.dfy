/** The circuit protocol over a network of nodes: clients build circuits hop by hop, any number of
    them interleaved, and nodes lose conversations by timeout. */
module Circuit {
  import opened Basics
  import opened Cbc
  import opened Onion
  import opened Addresses

  // ------------------------------------------------------------ node tables

  datatype Conversation = Conversation(key: AesKey, next: NextHop)

  /** `conversationsMap` of one node. */
  type Table = map<Bytes, Conversation>

  /** `unordered_map::insert` does not overwrite. */
  function InsertConversation(t: Table, id: Bytes, key: AesKey): Table {
    if id in t then t else t[id := Conversation(key, Unset)]
  }

  /** The node decrypts the next-hop message with the key of the conversation; a failure that
      `clientHandshake` does not catch leaves the conversation as it is. */
  function ConfigureConversation(s: Suite, conv: Conversation, message: Bytes): Conversation {
    var text := DecryptAes(s.aes, conv.key, message);
    if text.None? || ParseNext(text.value).None? then conv
    else conv.(next := ParseNext(text.value).value)
  }

  /** Forwarding and delivering name the conversation the packet belongs to. */
  datatype Reaction =
    | Forward(id: Bytes, to: Address, packet: Bytes)
    | Deliver(id: Bytes, plaintext: Bytes)
    | NewHandshake
    | Fail

  /** Node.cpp `handleClient`, `handleNode` and `handleNodeAsExit` on one received packet. */
  function NodeReact(s: Suite, a: Address, t: Table, received: Bytes): Reaction {
    if received != [] && received[0] == ZERO_DIGIT then NewHandshake
    else if |received| < HEADER_SIZE then Fail
    else
      var id := s.open(a, received[..HEADER_SIZE]);
      if id.None? || id.value !in t then Fail
      else
        var conv := t[id.value];
        var decrypted := Peel(s, conv.key, received);
        if decrypted.None? then Fail
        else
          match conv.next
          case Unset => Fail
          case Next(b) => Forward(id.value, b, decrypted.value)
          case Exit => Deliver(id.value, decrypted.value)
  }

  /** The packet may cost the node the conversation it is for. */
  function TableAfter(s: Suite, a: Address, t: Table, received: Bytes): Table {
    if |received| < HEADER_SIZE || received[0] == ZERO_DIGIT then t
    else
      var id := s.open(a, received[..HEADER_SIZE]);
      if id.Some? && id.value in t && t[id.value].next.Unset? then t - {id.value} else t
  }

  /** A packet for the conversation `id` of the node at `a`, with `inner` under one layer of its key. */
  ghost predicate MadeFor(s: Suite, a: Address, t: Table, received: Bytes, id: Bytes, inner: Bytes) {
    id in t && |received| >= 89 && received[0] != 48 && s.open(a, received[..89]) == Some(id)
    && received[89..] == EncryptAes(s.aes, t[id].key, inner)
  }

  /** Exactly which packets a node acts on, and how: it takes what starts with a zero digit for a
      handshake, passes on or delivers what was made for one of its conversations, and fails otherwise. */
  lemma ReactsExactly(s: Suite, a: Address, t: Table, received: Bytes, id: Bytes, to: Address, inner: Bytes)
    requires Bijective(s.aes)
    ensures var r := NodeReact(s, a, t, received);
      (r == NewHandshake <==> received != [] && received[0] == 48)
      && (r == Forward(id, to, inner) <==> MadeFor(s, a, t, received, id, inner) && t[id].next == Next(to))
      && (r == Deliver(id, inner) <==> MadeFor(s, a, t, received, id, inner) && t[id].next == Exit)
  {
    if id in t && |received| >= HEADER_SIZE {
      DecryptIff(s.aes, t[id].key, received[HEADER_SIZE..], inner);
    }
  }

  /** What a node makes of a next-hop message: it learns what the text under its key says, and stays as it
      is when the text cannot be read or the message was not made with its key. */
  lemma ConfiguresExactly(s: Suite, conv: Conversation, message: Bytes, text: Bytes)
    requires Bijective(s.aes)
    ensures message == EncryptAes(s.aes, conv.key, text) ==>
      ConfigureConversation(s, conv, message)
      == Conversation(conv.key, if ParseNext(text).Some? then ParseNext(text).value else conv.next)
    ensures (forall other :: message != EncryptAes(s.aes, conv.key, other)) ==>
      ConfigureConversation(s, conv, message) == conv
  {
    DecryptIff(s.aes, conv.key, message, text);
    var read := DecryptAes(s.aes, conv.key, message);
    if read.Some? {
      DecryptIff(s.aes, conv.key, message, read.value);
    }
  }

  /** The mutable side of a node, method by method. */
  class Node {
    const address: Address
    var conversationsMap: Table

    constructor (address: Address)
      ensures this.address == address && conversationsMap == map[]
    {
      this.address := address;
      conversationsMap := map[];
    }

    /** First half of `clientHandshake`; returns the encrypted id for the client. */
    method InstallConversation(s: Suite, id: Bytes, key: AesKey) returns (encryptedId: Bytes)
      modifies this
      ensures conversationsMap == InsertConversation(old(conversationsMap), id, key)
      ensures encryptedId == EncryptAes(s.aes, key, id)
    {
      if id !in conversationsMap {
        conversationsMap := conversationsMap[id := Conversation(key, Unset)];
      }
      encryptedId := EncryptAes(s.aes, key, id);
    }

    /** Second half of `clientHandshake`. */
    method ReceiveNextHop(s: Suite, id: Bytes, message: Bytes)
      requires id in conversationsMap
      modifies this
      ensures conversationsMap
           == old(conversationsMap)[id := ConfigureConversation(s, old(conversationsMap)[id], message)]
    {
      var conv := conversationsMap[id];
      var text := DecryptAes(s.aes, conv.key, message);
      if text.Some? {
        var next := ParseNext(text.value);
        if next.Some? {
          conv := conv.(next := next.value);
        }
      }
      conversationsMap := conversationsMap[id := conv];
    }

    method RemoveConversation(id: Bytes)
      modifies this
      ensures conversationsMap == old(conversationsMap) - {id}
    {
      conversationsMap := conversationsMap - {id};
    }

    /** A conversation without a successor is given up: connecting to it fails. */
    method HandlePacket(s: Suite, received: Bytes) returns (r: Reaction)
      modifies this
      ensures r == NodeReact(s, address, old(conversationsMap), received)
      ensures conversationsMap == TableAfter(s, address, old(conversationsMap), received)
    {
      if received != [] && received[0] == ZERO_DIGIT {
        return NewHandshake;
      }
      if |received| < HEADER_SIZE {
        return Fail;
      }
      var id := s.open(address, received[..HEADER_SIZE]);
      if id.None? || id.value !in conversationsMap {
        return Fail;
      }
      var conv := conversationsMap[id.value];
      if conv.next.Unset? {
        RemoveConversation(id.value);
        return Fail;
      }
      var decrypted := Peel(s, conv.key, received);
      if decrypted.None? {
        return Fail;
      }
      if conv.next.Exit? {
        return Deliver(id.value, decrypted.value);
      }
      return Forward(id.value, conv.next.address, decrypted.value);
    }
  }

  // ---------------------------------------------------------- the whole network

  /** A next-hop message on its way to a node's handshake handler. */
  datatype Message = Message(address: Address, id: Bytes, body: Bytes)

  /** Key chosen for the hop being handshaken, and the node's encrypted reply. */
  datatype Offer = Offer(key: AesKey, reply: Bytes)

  /** One circuit and how far its client has come with it. A client that designs anew leaves the old
      circuit behind; the nodes do not notice. */
  datatype Chain = Chain(owner: nat, route: seq<Address>, hops: seq<Hop>, offer: Option<Offer>)

  /** History: which circuit and hop an id of a node was issued for. */
  datatype Claim = Claim(chain: nat, hop: nat)

  datatype Network = Network(tables: map<Address, Table>, chains: map<nat, Chain>,
                             pending: set<Message>, claims: map<(Address, Bytes), Claim>)

  datatype Action =
    | Design(chain: nat, owner: nat, route: seq<Address>)
    | Install(chain: nat, key: AesKey, id: Bytes)
    | Learn(chain: nat, randomness: int)
    | Configure(message: Message)
    | Expire(address: Address, id: Bytes)
    | Packet(address: Address, received: Bytes)

  /** The text hop `i` of a route is sent, and what it should make of it. */
  function NextText(route: seq<Address>, i: nat): Bytes {
    PrintNext(if i + 1 < |route| then Some(route[i + 1]) else None)
  }

  function ExpectedNext(route: seq<Address>, i: nat): NextHop {
    if i + 1 < |route| then Next(route[i + 1]) else Exit
  }

  predicate NextHopReachable(net: Network, chain: Chain) {
    |chain.hops| < |chain.route| && chain.route[|chain.hops|] in net.tables
  }

  /** The id the client reads from the node's reply. */
  function OfferedId(s: Suite, o: Offer): Option<Bytes> {
    DecryptAes(s.aes, o.key, o.reply)
  }

  predicate Enabled(s: Suite, net: Network, act: Action) {
    match act
    case Design(c, _, route) =>
      // drawn with replacement: a relay may occur several times
      c !in net.chains && MIN_PATH <= |route| <= MAX_PATH && forall a :: a in route ==> a in net.tables
    case Install(c, key, id) =>
      // the id is one the node never issued before
      c in net.chains && net.chains[c].offer.None? && NextHopReachable(net, net.chains[c])
      && |id| == UUID_SIZE && (net.chains[c].route[|net.chains[c].hops|], id) !in net.claims
    case Learn(c, _) =>
      c in net.chains && net.chains[c].offer.Some? && NextHopReachable(net, net.chains[c])
      && OfferedId(s, net.chains[c].offer.value).Some?
    case Configure(m) => m in net.pending && m.address in net.tables
    case Expire(a, id) => a in net.tables
    case Packet(a, _) => a in net.tables
  }

  function Apply(s: Suite, net: Network, act: Action): Network
    requires Enabled(s, net, act)
  {
    match act
    case Design(c, owner, route) => net.(chains := net.chains[c := Chain(owner, route, [], None)])
    case Install(c, key, id) =>
      var chain := net.chains[c];
      var i := |chain.hops|;
      var a := chain.route[i];
      net.(tables := net.tables[a := InsertConversation(net.tables[a], id, key)],
           chains := net.chains[c := chain.(offer := Some(Offer(key, EncryptAes(s.aes, key, id))))],
           claims := net.claims[(a, id) := Claim(c, i)])
    case Learn(c, r) =>
      var chain := net.chains[c];
      var i, key := |chain.hops|, chain.offer.value.key;
      var id := OfferedId(s, chain.offer.value).value;
      var a := chain.route[i];
      var hop := Hop(a, key, id, s.seal(a, id, r));
      net.(chains := net.chains[c := Chain(chain.owner, chain.route, chain.hops + [hop], None)],
           pending := net.pending + {Message(a, id, EncryptAes(s.aes, key, NextText(chain.route, i)))})
    case Configure(m) =>
      var t := net.tables[m.address];
      var t' := if m.id in t then t[m.id := ConfigureConversation(s, t[m.id], m.body)] else t;
      net.(tables := net.tables[m.address := t'], pending := net.pending - {m})
    case Expire(a, id) => net.(tables := net.tables[a := net.tables[a] - {id}])
    case Packet(a, received) => net.(tables := net.tables[a := TableAfter(s, a, net.tables[a], received)])
  }

  // ------------------------------------------------------------- the invariant

  /** The node of a known hop holds the client's key, and either the right successor or none yet
      with the right next-hop message still under way; no wrong message can reach it. */
  ghost predicate HopOk(s: Suite, net: Network, c: nat, chain: Chain, i: nat)
    requires i < |chain.hops| <= |chain.route|
  {
    var h := chain.hops[i];
    var body := EncryptAes(s.aes, h.key, NextText(chain.route, i));
    h.address == chain.route[i] && h.address in net.tables && ReadyHop(s, h)
    && (h.address, h.id) in net.claims && net.claims[(h.address, h.id)] == Claim(c, i)
    && (h.id in net.tables[h.address] ==>
          net.tables[h.address][h.id].key == h.key
          && (net.tables[h.address][h.id].next == ExpectedNext(chain.route, i)
              || (net.tables[h.address][h.id].next == Unset && Message(h.address, h.id, body) in net.pending)))
    && forall m :: m in net.pending && m.address == h.address && m.id == h.id ==> m.body == body
  }

  /** A conversation whose id the client has not read yet. */
  ghost predicate OfferOk(s: Suite, net: Network, c: nat, chain: Chain)
    requires chain.offer.Some?
  {
    var i, o := |chain.hops|, chain.offer.value;
    i < |chain.route| && OfferedId(s, o).Some?
    && var a, id := chain.route[i], OfferedId(s, o).value;
       |id| == UUID_SIZE && (a, id) in net.claims && net.claims[(a, id)] == Claim(c, i)
       && a in net.tables
       && (id in net.tables[a] ==> net.tables[a][id] == Conversation(o.key, Unset))
       && forall m :: m in net.pending ==> !(m.address == a && m.id == id)
  }

  ghost predicate RouteOk(net: Network, chain: Chain) {
    |chain.hops| <= |chain.route| && MIN_PATH <= |chain.route| <= MAX_PATH
    && forall a :: a in chain.route ==> a in net.tables
  }

  ghost predicate ChainOk(s: Suite, net: Network, c: nat, chain: Chain) {
    RouteOk(net, chain)
    && (forall i :: 0 <= i < |chain.hops| ==> HopOk(s, net, c, chain, i))
    && (chain.offer.Some? ==> OfferOk(s, net, c, chain))
  }

  /** Every stored id was issued, and every message concerns an issued id. */
  ghost predicate TablesOk(net: Network) {
    (forall a, id :: a in net.tables && id in net.tables[a] ==> (a, id) in net.claims)
    && forall m :: m in net.pending ==> m.address in net.tables && (m.address, m.id) in net.claims
  }

  ghost predicate AddressesOk(nodes: set<Address>) {
    forall a :: a in nodes ==> UsableAddress(a)
  }

  ghost predicate Inv(s: Suite, net: Network) {
    AddressesOk(net.tables.Keys) && TablesOk(net)
    && forall c :: c in net.chains ==> ChainOk(s, net, c, net.chains[c])
  }

  ghost predicate Initial(net: Network) {
    AddressesOk(net.tables.Keys) && (forall a :: a in net.tables ==> net.tables[a] == map[])
    && net.chains == map[] && net.pending == {} && net.claims == map[]
  }

  lemma InitialInv(s: Suite, net: Network)
    requires Initial(net)
    ensures Inv(s, net)
  {
  }

  // --------------------------------------------------- every step keeps it

  /** Nothing that concerns id `id` at node `a` has changed, except that the conversation may be gone. */
  ghost predicate SameView(net: Network, net': Network, a: Address, id: Bytes) {
    (a in net.tables ==> a in net'.tables)
    && ((a, id) in net.claims ==> (a, id) in net'.claims && net'.claims[(a, id)] == net.claims[(a, id)])
    && (a in net.tables && a in net'.tables && id in net'.tables[a] ==>
          id in net.tables[a] && net'.tables[a][id] == net.tables[a][id])
    && forall m :: m in net.pending + net'.pending && m.address == a && m.id == id ==>
         (m in net.pending <==> m in net'.pending)
  }

  lemma HopFrame(s: Suite, net: Network, net': Network, c: nat, chain: Chain, i: nat)
    requires i < |chain.hops| <= |chain.route| && HopOk(s, net, c, chain, i)
    requires SameView(net, net', chain.hops[i].address, chain.hops[i].id)
    ensures HopOk(s, net', c, chain, i)
  {
  }

  lemma OfferFrame(s: Suite, net: Network, net': Network, c: nat, chain: Chain)
    requires chain.offer.Some? && OfferOk(s, net, c, chain)
    requires SameView(net, net', chain.route[|chain.hops|], OfferedId(s, chain.offer.value).value)
    ensures OfferOk(s, net', c, chain)
  {
  }

  /** A client none of whose ids is affected stays as it was. */
  lemma ChainFrame(s: Suite, net: Network, net': Network, c: nat, chain: Chain)
    requires ChainOk(s, net, c, chain)
    requires forall a :: a in net.tables ==> a in net'.tables
    requires forall a, id :: (a, id) in net.claims && net.claims[(a, id)].chain == c ==> SameView(net, net', a, id)
    ensures ChainOk(s, net', c, chain)
  {
    forall i | 0 <= i < |chain.hops|
      ensures HopOk(s, net', c, chain, i)
    {
      var h := chain.hops[i];
      assert HopOk(s, net, c, chain, i);
      assert SameView(net, net', h.address, h.id);
      HopFrame(s, net, net', c, chain, i);
    }
    if chain.offer.Some? {
      var a, id := chain.route[|chain.hops|], OfferedId(s, chain.offer.value).value;
      assert SameView(net, net', a, id);
      OfferFrame(s, net, net', c, chain);
    }
  }

  lemma DesignKeeps(s: Suite, net: Network, act: Action)
    requires Inv(s, net) && act.Design? && Enabled(s, net, act)
    ensures Inv(s, Apply(s, net, act))
  {
    var net' := Apply(s, net, act);
    forall c | c in net'.chains
      ensures ChainOk(s, net', c, net'.chains[c])
    {
      if c != act.chain {
        ChainFrame(s, net, net', c, net.chains[c]);
      }
    }
  }

  lemma InstallKeeps(s: Suite, net: Network, act: Action)
    requires Lawful(s) && Inv(s, net) && act.Install? && Enabled(s, net, act)
    ensures Inv(s, Apply(s, net, act))
  {
    var net' := Apply(s, net, act);
    var chain := net.chains[act.chain];
    var a := chain.route[|chain.hops|];
    assert a in chain.route;
    AesRoundTrip(s.aes, act.key, act.id);
    InstallView(net, net', a, act.key, act.id, Claim(act.chain, |chain.hops|));
    forall c | c in net'.chains
      ensures ChainOk(s, net', c, net'.chains[c])
    {
      if c != act.chain {
        ChainFrame(s, net, net', c, net.chains[c]);
      } else {
        ChainFrame(s, net, net', c, chain);
        NewOffer(s, net', c, chain, a, act.key, act.id);
      }
    }
    InstallKeepsTables(s, net, net', a, act.key, act.id);
    assert net'.tables.Keys == net.tables.Keys;
  }

  lemma InstallView(net: Network, net': Network, a: Address, key: AesKey, id: Bytes, claim: Claim)
    requires a in net.tables && (a, id) !in net.claims
    requires net'.tables == net.tables[a := InsertConversation(net.tables[a], id, key)]
    requires net'.pending == net.pending && net'.claims == net.claims[(a, id) := claim]
    ensures forall b, other :: (b, other) in net.claims ==> SameView(net, net', b, other)
  {
  }

  lemma NewOffer(s: Suite, net: Network, c: nat, chain: Chain, a: Address, key: AesKey, id: Bytes)
    requires ChainOk(s, net, c, chain) && |chain.hops| < |chain.route| && a == chain.route[|chain.hops|]
    requires DecryptAes(s.aes, key, EncryptAes(s.aes, key, id)) == Some(id) && |id| == UUID_SIZE
    requires (a, id) in net.claims && net.claims[(a, id)] == Claim(c, |chain.hops|)
    requires a in net.tables && id in net.tables[a] && net.tables[a][id] == Conversation(key, Unset)
    requires forall m :: m in net.pending ==> !(m.address == a && m.id == id)
    ensures ChainOk(s, net, c, chain.(offer := Some(Offer(key, EncryptAes(s.aes, key, id)))))
  {
    var chain' := chain.(offer := Some(Offer(key, EncryptAes(s.aes, key, id))));
    forall i | 0 <= i < |chain.hops|
      ensures HopOk(s, net, c, chain', i)
    {
      assert HopOk(s, net, c, chain, i);
    }
  }

  lemma InstallKeepsTables(s: Suite, net: Network, net': Network, a: Address, key: AesKey, id: Bytes)
    requires TablesOk(net) && a in net.tables && id !in net.tables[a]
    requires net'.tables == net.tables[a := net.tables[a][id := Conversation(key, Unset)]]
    requires net'.pending == net.pending && (a, id) in net'.claims
    requires forall k :: k in net.claims ==> k in net'.claims
    ensures TablesOk(net')
  {
  }

  lemma LearnKeeps(s: Suite, net: Network, act: Action)
    requires Lawful(s) && Inv(s, net) && act.Learn? && Enabled(s, net, act)
    ensures Inv(s, Apply(s, net, act))
  {
    var net' := Apply(s, net, act);
    var chain := net.chains[act.chain];
    assert OfferOk(s, net, act.chain, chain);
    var a, id := chain.route[|chain.hops|], OfferedId(s, chain.offer.value).value;
    forall b, other | (b, other) in net.claims && (b, other) != (a, id)
      ensures SameView(net, net', b, other)
    {
    }
    forall c | c in net'.chains
      ensures ChainOk(s, net', c, net'.chains[c])
    {
      if c != act.chain {
        ChainFrame(s, net, net', c, net.chains[c]);
      } else {
        LearnedChain(s, net, net', act);
      }
    }
  }

  lemma LearnedChain(s: Suite, net: Network, net': Network, act: Action)
    requires Lawful(s) && Inv(s, net) && act.Learn? && Enabled(s, net, act) && net' == Apply(s, net, act)
    ensures ChainOk(s, net', act.chain, net'.chains[act.chain])
  {
    var c := act.chain;
    var chain, chain' := net.chains[c], net'.chains[c];
    assert OfferOk(s, net, c, chain);
    forall i | 0 <= i < |chain'.hops|
      ensures HopOk(s, net', c, chain', i)
    {
      if i < |chain.hops| {
        assert HopOk(s, net, c, chain, i);
        assert chain'.hops[i] == chain.hops[i];
        HopFrame(s, net, net', c, chain, i);
        assert HopOk(s, net', c, chain, i);
      }
    }
  }

  lemma ConfigureKeeps(s: Suite, net: Network, act: Action)
    requires Lawful(s) && Inv(s, net) && act.Configure? && Enabled(s, net, act)
    ensures Inv(s, Apply(s, net, act))
  {
    var net' := Apply(s, net, act);
    ConfigureKeepsTables(s, net, net', act.message);
    assert net'.tables.Keys == net.tables.Keys;
    forall c | c in net'.chains
      ensures ChainOk(s, net', c, net'.chains[c])
    {
      ConfigureKeepsChain(s, net, net', act.message, c, net.chains[c]);
    }
  }

  lemma ConfigureKeepsTables(s: Suite, net: Network, net': Network, m: Message)
    requires TablesOk(net) && m in net.pending
    requires var t := net.tables[m.address];
      net'.tables == net.tables[m.address :=
        if m.id in t then t[m.id := ConfigureConversation(s, t[m.id], m.body)] else t]
    requires net'.pending == net.pending - {m} && net'.claims == net.claims
    ensures TablesOk(net')
  {
  }

  lemma ConfigureKeepsChain(s: Suite, net: Network, net': Network, m: Message, c: nat, chain: Chain)
    requires Lawful(s) && AddressesOk(net.tables.Keys) && TablesOk(net) && ChainOk(s, net, c, chain)
    requires m in net.pending
    requires var t := net.tables[m.address];
      net'.tables == net.tables[m.address :=
        if m.id in t then t[m.id := ConfigureConversation(s, t[m.id], m.body)] else t]
    requires net'.pending == net.pending - {m} && net'.claims == net.claims
    ensures ChainOk(s, net', c, chain)
  {
    forall i | 0 <= i < |chain.hops|
      ensures HopOk(s, net', c, chain, i)
    {
      assert HopOk(s, net, c, chain, i);
      var h := chain.hops[i];
      if m.address == h.address && m.id == h.id {
        ConfiguredHop(s, net, net', m, c, chain, i);
      } else {
        ConfigureView(s, net, net', m, h.address, h.id);
        HopFrame(s, net, net', c, chain, i);
      }
    }
    if chain.offer.Some? {
      var a, id := chain.route[|chain.hops|], OfferedId(s, chain.offer.value).value;
      ConfigureView(s, net, net', m, a, id);
      OfferFrame(s, net, net', c, chain);
    }
  }

  lemma ConfigureView(s: Suite, net: Network, net': Network, m: Message, a: Address, id: Bytes)
    requires m.address in net.tables && (m.address, m.id) != (a, id)
    requires var t := net.tables[m.address];
      net'.tables == net.tables[m.address :=
        if m.id in t then t[m.id := ConfigureConversation(s, t[m.id], m.body)] else t]
    requires net'.pending == net.pending - {m} && net'.claims == net.claims
    ensures SameView(net, net', a, id)
  {
  }

  lemma ConfiguredHop(s: Suite, net: Network, net': Network, m: Message, c: nat, chain: Chain, i: nat)
    requires Lawful(s) && AddressesOk(net.tables.Keys) && TablesOk(net) && RouteOk(net, chain) && m in net.pending
    requires i < |chain.hops| && HopOk(s, net, c, chain, i)
    requires m.address == chain.hops[i].address && m.id == chain.hops[i].id
    requires var t := net.tables[m.address];
      net'.tables == net.tables[m.address :=
        if m.id in t then t[m.id := ConfigureConversation(s, t[m.id], m.body)] else t]
    requires net'.pending == net.pending - {m} && net'.claims == net.claims
    ensures HopOk(s, net', c, chain, i)
  {
    var h := chain.hops[i];
    AesRoundTrip(s.aes, h.key, NextText(chain.route, i));
    if i + 1 < |chain.route| {
      assert chain.route[i + 1] in chain.route;
      NextRoundTrip(chain.route[i + 1]);
    }
  }

  /** The network after one node has lost one conversation. */
  function Removed(net: Network, a: Address, id: Bytes): Network
    requires a in net.tables
  {
    net.(tables := net.tables[a := net.tables[a] - {id}])
  }

  lemma RemovedKeeps(s: Suite, net: Network, a: Address, id: Bytes)
    requires Inv(s, net) && a in net.tables
    ensures Inv(s, Removed(net, a, id))
  {
    var net' := Removed(net, a, id);
    assert net'.tables.Keys == net.tables.Keys;
    ExpireView(net, net', a, id);
    ExpireKeepsTables(net, net', a, id);
    ChainsFrame(s, net, net');
  }

  /** A packet changes nothing, or costs its node the conversation it is for: one that the node had
      found, and that had no successor yet. */
  lemma PacketEffect(s: Suite, net: Network, a: Address, received: Bytes)
    requires a in net.tables
    ensures var net' := Apply(s, net, Packet(a, received));
      net' == net
      || exists id :: id in net.tables[a] && net.tables[a][id].next == Unset && net' == Removed(net, a, id)
  {
    var t := TableAfter(s, a, net.tables[a], received);
    if t == net.tables[a] {
      assert net.tables[a := t] == net.tables;
    }
  }

  lemma PacketKeeps(s: Suite, net: Network, act: Action)
    requires Inv(s, net) && act.Packet? && Enabled(s, net, act)
    ensures Inv(s, Apply(s, net, act))
  {
    PacketEffect(s, net, act.address, act.received);
    if Apply(s, net, act) != net {
      var id :| Apply(s, net, act) == Removed(net, act.address, id);
      RemovedKeeps(s, net, act.address, id);
    }
  }

  lemma ExpireKeepsTables(net: Network, net': Network, a: Address, id: Bytes)
    requires TablesOk(net) && a in net.tables && net' == net.(tables := net.tables[a := net.tables[a] - {id}])
    ensures TablesOk(net') && net'.tables.Keys == net.tables.Keys
  {
  }

  lemma ChainsFrame(s: Suite, net: Network, net': Network)
    requires net'.chains == net.chains && forall a :: a in net.tables ==> a in net'.tables
    requires forall c :: c in net.chains ==> ChainOk(s, net, c, net.chains[c])
    requires forall a, id :: (a, id) in net.claims ==> SameView(net, net', a, id)
    ensures forall c :: c in net'.chains ==> ChainOk(s, net', c, net'.chains[c])
  {
    forall c | c in net'.chains
      ensures ChainOk(s, net', c, net'.chains[c])
    {
      ChainFrame(s, net, net', c, net.chains[c]);
    }
  }

  lemma ExpireView(net: Network, net': Network, a: Address, id: Bytes)
    requires a in net.tables && net' == net.(tables := net.tables[a := net.tables[a] - {id}])
    ensures forall b, other :: (b, other) in net.claims ==> SameView(net, net', b, other)
  {
  }

  lemma StepKeeps(s: Suite, net: Network, act: Action)
    requires Lawful(s) && Inv(s, net) && Enabled(s, net, act)
    ensures Inv(s, Apply(s, net, act))
  {
    match act {
      case Design(_, _, _) => DesignKeeps(s, net, act);
      case Install(_, _, _) => InstallKeeps(s, net, act);
      case Learn(_, _) => LearnKeeps(s, net, act);
      case Configure(_) => ConfigureKeeps(s, net, act);
      case Expire(a, id) => RemovedKeeps(s, net, a, id);
      case Packet(_, _) => PacketKeeps(s, net, act);
    }
  }

  // ----------------------------------------------------------------- whole runs

  /** `after` is reached from `net` by the actions in order. */
  predicate Reaches(s: Suite, net: Network, actions: seq<Action>, after: Network)
    decreases |actions|
  {
    if actions == [] then after == net
    else Enabled(s, net, actions[0]) && Reaches(s, Apply(s, net, actions[0]), actions[1..], after)
  }

  /** Any interleaving of circuit constructions, next-hop deliveries, packets and timeouts keeps the invariant. */
  lemma {:induction false} RunKeepsInv(s: Suite, net: Network, actions: seq<Action>, after: Network)
    requires Lawful(s) && Inv(s, net) && Reaches(s, net, actions, after)
    ensures Inv(s, after)
    decreases |actions|
  {
    if actions != [] {
      StepKeeps(s, net, actions[0]);
      RunKeepsInv(s, Apply(s, net, actions[0]), actions[1..], after);
    }
  }

  // ------------------------------------------------------------------ repeated ids

  /** What becomes of a conversation whose id the node had issued before: the new key is not stored,
      so a packet gets through if and only if the old key undoes the layer made with the new one. */
  lemma RepeatedId(s: Suite, a: Address, t: Table, id: Bytes, key: AesKey, header: Bytes, inner: Bytes)
    requires id in t && !t[id].next.Unset?
    requires |header| == HEADER_SIZE && header[0] != ZERO_DIGIT && s.open(a, header) == Some(id)
    ensures InsertConversation(t, id, key) == t
    ensures var r := NodeReact(s, a, InsertConversation(t, id, key), header + EncryptAes(s.aes, key, inner));
      ((r.Forward? && r.packet == inner) || (r.Deliver? && r.plaintext == inner))
      <==> DecryptAes(s.aes, t[id].key, EncryptAes(s.aes, key, inner)) == Some(inner)
  {
    var packet := header + EncryptAes(s.aes, key, inner);
    assert packet[..HEADER_SIZE] == header && packet[HEADER_SIZE..] == EncryptAes(s.aes, key, inner);
  }
}
