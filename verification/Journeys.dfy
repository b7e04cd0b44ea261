/** Packets over finished circuits: an onion is passed on by the nodes' tables alone, and a reply
    goes back through the conversations the onion came by. */
module Journeys {
  import opened Basics
  import opened Cbc
  import opened Onion
  import opened Addresses
  import opened Circuit
  import Framing
  import Packets

  /** The conversation a packet was matched with at a node. */
  datatype Visit = Visit(address: Address, id: Bytes)

  /** `stop` is where a lost packet could not be passed on. */
  datatype Journey = Arrived(trail: seq<Visit>, plaintext: Bytes) | Lost(trail: seq<Visit>, stop: Address)

  function Through(v: Visit, j: Journey): Journey {
    match j
    case Arrived(t, p) => Arrived([v] + t, p)
    case Lost(t, a) => Lost([v] + t, a)
  }

  /** A packet sent to an address, passed on by the nodes' tables alone. Other things happen while it
      is under way: `views` holds the tables as they are when it reaches each relay. */
  function Travel(s: Suite, views: seq<map<Address, Table>>, a: Address, packet: Bytes): Journey
    decreases |views|
  {
    if views == [] || a !in views[0] then Lost([], a)
    else
      match NodeReact(s, a, views[0][a], packet)
      case Forward(id, b, inner) => Through(Visit(a, id), Travel(s, views[1..], b, inner))
      case Deliver(id, p) => Arrived([Visit(a, id)], p)
      case _ => Lost([], a)
  }

  /** The visits a circuit is meant to cause. */
  function Trail(hops: seq<Hop>): (t: seq<Visit>)
    ensures |t| == |hops| && forall i :: 0 <= i < |hops| ==> t[i] == Visit(hops[i].address, hops[i].id)
  {
    seq(|hops|, i requires 0 <= i < |hops| => Visit(hops[i].address, hops[i].id))
  }

  // ------------------------------------------------------------ forward packets

  /** The node of hop `i` still has the conversation and knows its successor. */
  predicate Intact(net: Network, chain: Chain, i: nat)
    requires i < |chain.hops|
  {
    var h := chain.hops[i];
    h.address in net.tables && h.id in net.tables[h.address]
    && net.tables[h.address][h.id].next == ExpectedNext(chain.route, i)
  }

  predicate Complete(chain: Chain) {
    |chain.hops| == |chain.route| > 0
  }

  /** States of the network in the order of time, each reached from the one before. */
  predicate Unfolds(s: Suite, nets: seq<Network>, acts: seq<seq<Action>>) {
    |nets| == |acts| + 1 && forall j :: 0 <= j < |acts| ==> Reaches(s, nets[j], acts[j], nets[j + 1])
  }

  function Tables(nets: seq<Network>): (views: seq<map<Address, Table>>)
    ensures |views| == |nets| && forall i :: 0 <= i < |nets| ==> views[i] == nets[i].tables
  {
    seq(|nets|, i requires 0 <= i < |nets| => nets[i].tables)
  }

  /** The circuit `c` is the same all the time. */
  predicate Keeps(nets: seq<Network>, c: nat, chain: Chain) {
    forall j :: 0 <= j < |nets| ==> c in nets[j].chains && nets[j].chains[c] == chain
  }

  lemma CompleteStep(s: Suite, net: Network, act: Action, c: nat)
    requires Inv(s, net) && Enabled(s, net, act) && c in net.chains && Complete(net.chains[c])
    ensures c in Apply(s, net, act).chains && Apply(s, net, act).chains[c] == net.chains[c]
  {
    assert ChainOk(s, net, c, net.chains[c]);
  }

  lemma {:induction false} CompleteStays(s: Suite, net: Network, actions: seq<Action>, after: Network, c: nat)
    requires Lawful(s) && Inv(s, net) && Reaches(s, net, actions, after) && c in net.chains && Complete(net.chains[c])
    ensures c in after.chains && after.chains[c] == net.chains[c]
    decreases |actions|
  {
    if actions != [] {
      CompleteStep(s, net, actions[0], c);
      StepKeeps(s, net, actions[0]);
      CompleteStays(s, Apply(s, net, actions[0]), actions[1..], after, c);
    }
  }

  /** Hop `k` is the first one found broken when the packet gets there, or there is none when `k` is
      the length of the circuit. */
  predicate IntactUpTo(nets: seq<Network>, chain: Chain, k: nat)
    requires k <= |chain.hops| <= |nets|
  {
    (forall i :: 0 <= i < k ==> Intact(nets[i], chain, i))
    && (k < |chain.hops| ==> !Intact(nets[k], chain, k))
  }

  /** Every hop is intact in one and the same state. */
  predicate AllIntact(net: Network, chain: Chain) {
    forall i :: 0 <= i < |chain.hops| ==> Intact(net, chain, i)
  }

  lemma PathReady(s: Suite, net: Network, c: nat)
    requires Inv(s, net) && c in net.chains
    ensures ReadyPath(s, net.chains[c].hops)
  {
    var chain := net.chains[c];
    forall j | 0 <= j < |chain.hops|
      ensures ReadyHop(s, chain.hops[j])
    {
      assert HopOk(s, net, c, chain, j);
    }
  }

  /** What the node of hop `j` does with the packet meant for it when hop `k` is the first broken one. */
  ghost predicate ReactsAsPlanned(s: Suite, tables: map<Address, Table>, chain: Chain, k: nat, j: nat, m: Bytes)
    requires j < |chain.hops| == |chain.route|
  {
    var a, h := chain.route[j], chain.hops[j];
    var packet, inner := Wrap(s, chain.hops[j..], m), Wrap(s, chain.hops[j + 1..], m);
    a in tables && h.address == a && |inner| + 90 <= |packet|
    && NodeReact(s, a, tables[a], packet)
       == if j == k then Fail
          else if j + 1 < |chain.hops| then Forward(h.id, chain.route[j + 1], inner)
          else Deliver(h.id, m)
  }

  lemma HopReacts(s: Suite, net: Network, c: nat, k: nat, j: nat, m: Bytes)
    requires Lawful(s) && Inv(s, net) && c in net.chains && Complete(net.chains[c])
    requires j < |net.chains[c].hops| && (Intact(net, net.chains[c], j) <==> j != k)
    ensures ReactsAsPlanned(s, net.tables, net.chains[c], k, j, m)
  {
    var chain := net.chains[c];
    PathReady(s, net, c);
    assert HopOk(s, net, c, chain, j);
    var path := chain.hops[j..];
    assert path[1..] == chain.hops[j + 1..] && path[0] == chain.hops[j];
    PeelOne(s, path, m);
    var packet := Wrap(s, path, m);
    assert packet[0] == path[0].header[0];
  }

  lemma {:induction false} TravelFrom(s: Suite, views: seq<map<Address, Table>>, chain: Chain,
                                      k: nat, i: nat, m: Bytes)
    requires i < |chain.hops| == |chain.route| == |views| && i <= k <= |chain.hops|
    requires forall j :: i <= j < |chain.hops| && j <= k ==> ReactsAsPlanned(s, views[j], chain, k, j, m)
    ensures Travel(s, views[i..], chain.route[i], Wrap(s, chain.hops[i..], m))
         == if k == |chain.hops| then Arrived(Trail(chain.hops[i..]), m)
            else Lost(Trail(chain.hops[i..k]), chain.route[k])
    decreases |chain.hops| - i
  {
    assert ReactsAsPlanned(s, views[i], chain, k, i, m);
    var n, a, packet := |chain.hops|, chain.route[i], Wrap(s, chain.hops[i..], m);
    var id, rest := chain.hops[i].id, views[i..];
    assert rest[0] == views[i] && rest[1..] == views[i + 1..];
    if i == k {
      TravelEnds(s, rest, a, packet);
      assert Trail(chain.hops[i..k]) == [];
    } else {
      TrailFrom(chain.hops, i, k);
      if i + 1 < n {
        TravelFrom(s, views, chain, k, i + 1, m);
        TravelForward(s, rest, a, packet, id, chain.route[i + 1], Wrap(s, chain.hops[i + 1..], m));
      } else {
        TravelEnds(s, rest, a, packet);
        assert chain.hops[i + 1..] == [];
      }
    }
  }

  lemma TravelEnds(s: Suite, views: seq<map<Address, Table>>, a: Address, packet: Bytes)
    requires views != [] && a in views[0] && !NodeReact(s, a, views[0][a], packet).Forward?
    ensures var r := NodeReact(s, a, views[0][a], packet);
      Travel(s, views, a, packet) == if r.Deliver? then Arrived([Visit(a, r.id)], r.plaintext) else Lost([], a)
  {
  }

  lemma TravelForward(s: Suite, views: seq<map<Address, Table>>, a: Address, packet: Bytes,
                      id: Bytes, b: Address, inner: Bytes)
    requires views != [] && a in views[0]
    requires NodeReact(s, a, views[0][a], packet) == Forward(id, b, inner)
    ensures Travel(s, views, a, packet) == Through(Visit(a, id), Travel(s, views[1..], b, inner))
  {
  }

  lemma TrailFrom(hops: seq<Hop>, i: nat, k: nat)
    requires i < k <= |hops|
    ensures Trail(hops[i..]) == [Visit(hops[i].address, hops[i].id)] + Trail(hops[i + 1..])
    ensures Trail(hops[i..k]) == [Visit(hops[i].address, hops[i].id)] + Trail(hops[i + 1..k])
  {
  }

  lemma ReachedInv(s: Suite, start: Network, actions: seq<Action>, net: Network)
    requires Lawful(s) && Initial(start) && Reaches(s, start, actions, net)
    ensures Inv(s, net)
  {
    InitialInv(s, start);
    RunKeepsInv(s, start, actions, net);
  }

  lemma UnfoldStep(s: Suite, nets: seq<Network>, acts: seq<seq<Action>>, j: nat)
    requires Unfolds(s, nets, acts) && 0 < j < |nets|
    ensures j <= |acts| && Reaches(s, nets[j - 1], acts[j - 1], nets[j])
  {
    var i := j - 1;
    assert 0 <= i < |acts|;
  }

  lemma UnfoldKeepsInv(s: Suite, nets: seq<Network>, acts: seq<seq<Action>>, j: nat)
    requires Lawful(s) && Unfolds(s, nets, acts) && 0 < j < |nets| && Inv(s, nets[j - 1])
    ensures Inv(s, nets[j])
  {
    UnfoldStep(s, nets, acts, j);
    RunKeepsInv(s, nets[j - 1], acts[j - 1], nets[j]);
  }

  lemma {:induction false} AllReached(s: Suite, start: Network, actions: seq<Action>,
                                      nets: seq<Network>, acts: seq<seq<Action>>, j: nat)
    requires Lawful(s) && Initial(start) && nets != [] && Reaches(s, start, actions, nets[0]) && Unfolds(s, nets, acts)
    requires j < |nets|
    ensures Inv(s, nets[j])
    decreases j
  {
    if j == 0 {
      ReachedInv(s, start, actions, nets[0]);
    } else {
      AllReached(s, start, actions, nets, acts, j - 1);
      UnfoldKeepsInv(s, nets, acts, j);
    }
  }

  /** A finished circuit never changes again, whatever its client designs later. */
  lemma {:induction false} ChainKept(s: Suite, start: Network, actions: seq<Action>,
                                     nets: seq<Network>, acts: seq<seq<Action>>, c: nat, j: nat)
    requires Lawful(s) && Initial(start) && nets != [] && Reaches(s, start, actions, nets[0]) && Unfolds(s, nets, acts)
    requires j < |nets| && c in nets[0].chains && Complete(nets[0].chains[c])
    ensures c in nets[j].chains && nets[j].chains[c] == nets[0].chains[c]
    decreases j
  {
    if j > 0 {
      ChainKept(s, start, actions, nets, acts, c, j - 1);
      AllReached(s, start, actions, nets, acts, j - 1);
      UnfoldStep(s, nets, acts, j);
      CompleteStays(s, nets[j - 1], acts[j - 1], nets[j], c);
    }
  }

  lemma AllKept(s: Suite, start: Network, actions: seq<Action>, nets: seq<Network>, acts: seq<seq<Action>>, c: nat)
    requires Lawful(s) && Initial(start) && nets != [] && Reaches(s, start, actions, nets[0]) && Unfolds(s, nets, acts)
    requires c in nets[0].chains && Complete(nets[0].chains[c])
    ensures Keeps(nets, c, nets[0].chains[c])
  {
    forall j | 0 <= j < |nets|
      ensures c in nets[j].chains && nets[j].chains[c] == nets[0].chains[c]
    {
      ChainKept(s, start, actions, nets, acts, c, j);
    }
  }

  /** A finished circuit of a reachable network consists of the relays the client chose. */
  lemma CircuitFollowsRoute(s: Suite, start: Network, actions: seq<Action>, net: Network, c: nat, i: nat)
    requires Lawful(s) && Initial(start) && Reaches(s, start, actions, net)
    requires c in net.chains && i < |net.chains[c].hops|
    ensures i < |net.chains[c].route| && net.chains[c].hops[i].address == net.chains[c].route[i]
    ensures ReadyHop(s, net.chains[c].hops[i]) && 3 <= |net.chains[c].route| <= 10
  {
    ReachedInv(s, start, actions, net);
    assert HopOk(s, net, c, net.chains[c], i);
  }

  /** Main theorem, over every run: an onion injected at the entry of a finished circuit, with any
      steps of the network between its hops, a new design of its client included, visits exactly
      the chosen relays in order, also when a relay repeats, each time in the conversation made for
      that hop, and arrives with its plaintext, unless some hop has lost its conversation or not yet
      learned its successor when the packet gets there; then it stops at the first such hop. */
  lemma CircuitDelivers(s: Suite, start: Network, actions: seq<Action>, nets: seq<Network>, acts: seq<seq<Action>>,
                        c: nat, chain: Chain, k: nat, m: Bytes)
    requires Lawful(s) && Initial(start) && nets != [] && Reaches(s, start, actions, nets[0]) && Unfolds(s, nets, acts)
    requires c in nets[0].chains && nets[0].chains[c] == chain && Complete(chain) && |nets| == |chain.hops|
    requires k <= |chain.hops| && IntactUpTo(nets, chain, k)
    ensures Travel(s, Tables(nets), chain.route[0], Wrap(s, chain.hops, m))
         == if k == |chain.hops| then Arrived(Trail(chain.hops), m)
            else Lost(Trail(chain.hops[..k]), chain.route[k])
  {
    var views := Tables(nets);
    AllKept(s, start, actions, nets, acts, c);
    forall j | 0 <= j < |chain.hops| && j <= k
      ensures ReactsAsPlanned(s, views[j], chain, k, j, m)
    {
      AllReached(s, start, actions, nets, acts, j);
      HopReacts(s, nets[j], c, k, j, m);
    }
    TravelFrom(s, views, chain, k, 0, m);
    assert chain.hops[0..] == chain.hops && chain.hops[0..k] == chain.hops[..k] && views[0..] == views;
  }

  /** An intact hop passes on exactly the packet of the next relay, at least one layer longer than
      the plaintext; only the last one delivers the plaintext. */
  lemma HopPassesOn(s: Suite, start: Network, actions: seq<Action>, net: Network, c: nat, i: nat, m: Bytes)
    requires Lawful(s) && Initial(start) && Reaches(s, start, actions, net)
    requires c in net.chains && Complete(net.chains[c])
    requires i < |net.chains[c].hops| && Intact(net, net.chains[c], i)
    ensures var chain := net.chains[c];
      var inner := Wrap(s, chain.hops[i + 1..], m);
      chain.route[i] in net.tables
      && NodeReact(s, chain.route[i], net.tables[chain.route[i]], Wrap(s, chain.hops[i..], m))
         == (if i == |chain.hops| - 1 then Deliver(chain.hops[i].id, m)
             else Forward(chain.hops[i].id, chain.route[i + 1], inner))
      && (i < |chain.hops| - 1 ==> |inner| >= |m| + 90)
  {
    ReachedInv(s, start, actions, net);
    var chain := net.chains[c];
    InnerLength(s, net, c, i, m);
    HopReacts(s, net, c, |chain.hops|, i, m);
  }

  lemma InnerLength(s: Suite, net: Network, c: nat, i: nat, m: Bytes)
    requires Lawful(s) && Inv(s, net) && c in net.chains && i < |net.chains[c].hops|
    ensures i + 1 < |net.chains[c].hops| ==> |Wrap(s, net.chains[c].hops[i + 1..], m)| >= |m| + 90
  {
    PathReady(s, net, c);
    WrapLength(s, net.chains[c].hops[i + 1..], m);
  }

  /** Once its next-hop message has been processed, a hop stays intact until its conversation expires. */
  lemma SettledIntact(s: Suite, start: Network, actions: seq<Action>, net: Network, c: nat, i: nat)
    requires Lawful(s) && Initial(start) && Reaches(s, start, actions, net)
    requires c in net.chains && i < |net.chains[c].hops|
    ensures var chain := net.chains[c];
      var h := chain.hops[i];
      h.address in net.tables
      && (h.id in net.tables[h.address]
          && (forall m :: m in net.pending ==> !(m.address == h.address && m.id == h.id))
          ==> Intact(net, chain, i))
  {
    ReachedInv(s, start, actions, net);
    assert HopOk(s, net, c, net.chains[c], i);
  }

  // ------------------------------------------------------ what packets leave behind

  /** No step but its own removal takes a conversation with a successor away, or its successor. */
  lemma SettledStep(s: Suite, net: Network, act: Action, a: Address, id: Bytes)
    requires Enabled(s, net, act) && act != Expire(a, id)
    requires a in net.tables && id in net.tables[a] && net.tables[a][id].next != Unset
    ensures var net' := Apply(s, net, act);
      a in net'.tables && id in net'.tables[a] && net'.tables[a][id].next != Unset
  {
    if act.Packet? {
      PacketEffect(s, net, act.address, act.received);
    }
  }

  /** The hops a client knows stay as they are. */
  predicate Extends(chain: Chain, chain': Chain) {
    chain'.route == chain.route && chain.hops <= chain'.hops
  }

  lemma ChainExtends(s: Suite, net: Network, act: Action, c: nat)
    requires Inv(s, net) && Enabled(s, net, act) && c in net.chains
    ensures c in Apply(s, net, act).chains && Extends(net.chains[c], Apply(s, net, act).chains[c])
  {
  }

  /** Packets at any node, further handshakes and designs do not disturb a hop: over every run it stays
      intact until its own conversation expires. */
  lemma {:induction false} IntactStays(s: Suite, net: Network, actions: seq<Action>, after: Network, c: nat, i: nat)
    requires Lawful(s) && Inv(s, net) && Reaches(s, net, actions, after)
    requires c in net.chains && i < |net.chains[c].hops| && Intact(net, net.chains[c], i)
    requires Expire(net.chains[c].hops[i].address, net.chains[c].hops[i].id) !in actions
    ensures c in after.chains && Extends(net.chains[c], after.chains[c]) && Intact(after, after.chains[c], i)
    decreases |actions|
  {
    if actions != [] {
      IntactStep(s, net, actions[0], c, i);
      IntactStays(s, Apply(s, net, actions[0]), actions[1..], after, c, i);
    }
  }

  lemma IntactStep(s: Suite, net: Network, act: Action, c: nat, i: nat)
    requires Lawful(s) && Inv(s, net) && Enabled(s, net, act)
    requires c in net.chains && i < |net.chains[c].hops| && Intact(net, net.chains[c], i)
    requires act != Expire(net.chains[c].hops[i].address, net.chains[c].hops[i].id)
    ensures var net' := Apply(s, net, act);
      Inv(s, net') && c in net'.chains && Extends(net.chains[c], net'.chains[c])
      && net'.chains[c].hops[i] == net.chains[c].hops[i] && Intact(net', net'.chains[c], i)
  {
    var h := net.chains[c].hops[i];
    StepKeeps(s, net, act);
    ChainExtends(s, net, act, c);
    SettledStep(s, net, act, h.address, h.id);
    var net' := Apply(s, net, act);
    assert HopOk(s, net', c, net'.chains[c], i);
  }

  /** A conversation that was issued and is gone never comes back. */
  lemma {:induction false} GoneForGood(s: Suite, net: Network, actions: seq<Action>, after: Network,
                                       a: Address, id: Bytes)
    requires Reaches(s, net, actions, after)
    requires a in net.tables && id !in net.tables[a] && (a, id) in net.claims
    ensures a in after.tables && id !in after.tables[a]
    decreases |actions|
  {
    if actions != [] {
      GoneStep(s, net, actions[0], a, id);
      GoneForGood(s, Apply(s, net, actions[0]), actions[1..], after, a, id);
    }
  }

  lemma GoneStep(s: Suite, net: Network, act: Action, a: Address, id: Bytes)
    requires Enabled(s, net, act) && a in net.tables && id !in net.tables[a] && (a, id) in net.claims
    ensures var net' := Apply(s, net, act);
      a in net'.tables && id !in net'.tables[a] && (a, id) in net'.claims
  {
    if act.Packet? {
      PacketEffect(s, net, act.address, act.received);
    }
  }

  /** Once its conversation has expired, a hop is never intact again. */
  lemma ExpiredForGood(s: Suite, net: Network, c: nat, i: nat, actions: seq<Action>, after: Network)
    requires Inv(s, net) && c in net.chains && i < |net.chains[c].hops|
    requires net.chains[c].hops[i].address in net.tables
    requires var h := net.chains[c].hops[i]; Reaches(s, Apply(s, net, Expire(h.address, h.id)), actions, after)
    ensures !Intact(after, net.chains[c], i)
  {
    var h := net.chains[c].hops[i];
    assert HopOk(s, net, c, net.chains[c], i);
    GoneForGood(s, Apply(s, net, Expire(h.address, h.id)), actions, after, h.address, h.id);
  }

  /** What any packet with the header of a known hop does at its node: when the hop is intact nothing
      changes; when it has not learned its successor yet, the hop is lost for every run that follows. */
  lemma PacketDecides(s: Suite, net: Network, c: nat, i: nat, received: Bytes, actions: seq<Action>, after: Network)
    requires Lawful(s) && Inv(s, net) && c in net.chains && i < |net.chains[c].hops|
    requires |received| >= HEADER_SIZE && received[..HEADER_SIZE] == net.chains[c].hops[i].header
    requires net.chains[c].hops[i].address in net.tables
    requires Reaches(s, Apply(s, net, Packet(net.chains[c].hops[i].address, received)), actions, after)
    ensures var h := net.chains[c].hops[i];
      if Intact(net, net.chains[c], i) then Apply(s, net, Packet(h.address, received)) == net
      else h.address in after.tables && h.id !in after.tables[h.address]
  {
    var h := net.chains[c].hops[i];
    var net1 := Apply(s, net, Packet(h.address, received));
    assert HopOk(s, net, c, net.chains[c], i);
    assert received[0] == h.header[0];
    if Intact(net, net.chains[c], i) {
      assert net.tables[h.address := net.tables[h.address]] == net.tables;
    } else {
      GoneForGood(s, net1, actions, after, h.address, h.id);
    }
  }

  /** A packet passed on with its effects: every relay also changes its own table. */
  function Carry(s: Suite, tables: map<Address, Table>, a: Address, packet: Bytes, steps: nat)
    : (Journey, map<Address, Table>)
    decreases steps, |packet|
  {
    if steps == 0 || a !in tables then (Lost([], a), tables)
    else
      var after := tables[a := TableAfter(s, a, tables[a], packet)];
      match NodeReact(s, a, tables[a], packet)
      case Forward(id, b, inner) =>
        var (j, rest) := Carry(s, after, b, inner, steps - 1);
        (Through(Visit(a, id), j), rest)
      case Deliver(id, p) => (Arrived([Visit(a, id)], p), after)
      case _ => (Lost([], a), after)
  }

  /** Messages sent one after the other over the same circuit. */
  function CarryAll(s: Suite, tables: map<Address, Table>, hops: seq<Hop>, ms: seq<Bytes>)
    : (seq<Journey>, map<Address, Table>)
    requires hops != []
    decreases |ms|
  {
    if ms == [] then ([], tables)
    else
      var (first, between) := Carry(s, tables, hops[0].address, Wrap(s, hops, ms[0]), |hops|);
      var (others, after) := CarryAll(s, between, hops, ms[1..]);
      ([first] + others, after)
  }

  /** What hop `j` of an intact circuit does with its packet, its own table included. */
  ghost predicate CarriesOn(s: Suite, tables: map<Address, Table>, chain: Chain, j: nat, m: Bytes)
    requires j < |chain.hops| == |chain.route|
  {
    var a, packet, h := chain.route[j], Wrap(s, chain.hops[j..], m), chain.hops[j];
    a in tables && h.address == a && TableAfter(s, a, tables[a], packet) == tables[a]
    && NodeReact(s, a, tables[a], packet)
       == if j + 1 < |chain.hops| then Forward(h.id, chain.route[j + 1], Wrap(s, chain.hops[j + 1..], m))
          else Deliver(h.id, m)
  }

  lemma IntactCarriesOn(s: Suite, net: Network, c: nat, j: nat, m: Bytes)
    requires Lawful(s) && Inv(s, net) && c in net.chains && Complete(net.chains[c])
    requires j < |net.chains[c].hops| && Intact(net, net.chains[c], j)
    ensures CarriesOn(s, net.tables, net.chains[c], j, m)
  {
    HopReacts(s, net, c, |net.chains[c].hops|, j, m);
    IntactTable(s, net, c, j, m);
  }

  lemma IntactTable(s: Suite, net: Network, c: nat, j: nat, m: Bytes)
    requires Lawful(s) && Inv(s, net) && c in net.chains && Complete(net.chains[c])
    requires j < |net.chains[c].hops| && Intact(net, net.chains[c], j)
    ensures var chain := net.chains[c];
      var a := chain.route[j];
      a in net.tables && TableAfter(s, a, net.tables[a], Wrap(s, chain.hops[j..], m)) == net.tables[a]
  {
    var chain := net.chains[c];
    var packet := Wrap(s, chain.hops[j..], m);
    PathReady(s, net, c);
    PeelOne(s, chain.hops[j..], m);
    assert HopOk(s, net, c, chain, j);
    assert packet[0] == chain.hops[j].header[0];
  }

  lemma CarryForward(s: Suite, tables: map<Address, Table>, a: Address, packet: Bytes, steps: nat,
                     id: Bytes, b: Address, inner: Bytes)
    requires steps > 0 && a in tables && TableAfter(s, a, tables[a], packet) == tables[a]
    requires NodeReact(s, a, tables[a], packet) == Forward(id, b, inner)
    ensures var (j, after) := Carry(s, tables, b, inner, steps - 1);
      Carry(s, tables, a, packet, steps) == (Through(Visit(a, id), j), after)
  {
    assert tables[a := tables[a]] == tables;
  }

  lemma CarryEnds(s: Suite, tables: map<Address, Table>, a: Address, packet: Bytes, steps: nat, id: Bytes, m: Bytes)
    requires steps > 0 && a in tables && TableAfter(s, a, tables[a], packet) == tables[a]
    requires NodeReact(s, a, tables[a], packet) == Deliver(id, m)
    ensures Carry(s, tables, a, packet, steps) == (Arrived([Visit(a, id)], m), tables)
  {
    assert tables[a := tables[a]] == tables;
  }

  lemma {:induction false} CarryFrom(s: Suite, tables: map<Address, Table>, chain: Chain, i: nat, m: Bytes)
    requires i < |chain.hops| == |chain.route|
    requires forall j :: i <= j < |chain.hops| ==> CarriesOn(s, tables, chain, j, m)
    ensures Carry(s, tables, chain.route[i], Wrap(s, chain.hops[i..], m), |chain.hops| - i)
         == (Arrived(Trail(chain.hops[i..]), m), tables)
    decreases |chain.hops| - i
  {
    var n, id := |chain.hops|, chain.hops[i].id;
    var packet, inner := Wrap(s, chain.hops[i..], m), Wrap(s, chain.hops[i + 1..], m);
    assert CarriesOn(s, tables, chain, i, m);
    if i + 1 < n {
      CarryFrom(s, tables, chain, i + 1, m);
      CarryForward(s, tables, chain.route[i], packet, n - i, id, chain.route[i + 1], inner);
      TrailTail(chain.hops, i);
    } else {
      CarryEnds(s, tables, chain.route[i], packet, n - i, id, m);
      assert Trail(chain.hops[i..]) == [Visit(chain.hops[i].address, id)];
    }
  }

  lemma TrailTail(hops: seq<Hop>, i: nat)
    requires i < |hops|
    ensures Trail(hops[i..]) == [Visit(hops[i].address, hops[i].id)] + Trail(hops[i + 1..])
  {
  }

  /** An onion over an intact circuit arrives, and the tables of all nodes are the same afterwards. */
  lemma OnionArrives(s: Suite, net: Network, c: nat, m: Bytes)
    requires Lawful(s) && Inv(s, net) && c in net.chains && Complete(net.chains[c])
    requires AllIntact(net, net.chains[c])
    ensures var chain := net.chains[c];
      Carry(s, net.tables, chain.hops[0].address, Wrap(s, chain.hops, m), |chain.hops|)
      == (Arrived(Trail(chain.hops), m), net.tables)
  {
    var chain := net.chains[c];
    assert HopOk(s, net, c, chain, 0);
    forall j | 0 <= j < |chain.hops|
      ensures CarriesOn(s, net.tables, chain, j, m)
    {
      assert Intact(net, chain, j);
      IntactCarriesOn(s, net, c, j, m);
    }
    CarryWhole(s, net.tables, chain, m);
  }

  lemma CarryWhole(s: Suite, tables: map<Address, Table>, chain: Chain, m: Bytes)
    requires 0 < |chain.hops| == |chain.route|
    requires forall j :: 0 <= j < |chain.hops| ==> CarriesOn(s, tables, chain, j, m)
    ensures Carry(s, tables, chain.route[0], Wrap(s, chain.hops, m), |chain.hops|)
         == (Arrived(Trail(chain.hops), m), tables)
  {
    CarryFrom(s, tables, chain, 0, m);
    assert chain.hops[0..] == chain.hops;
  }

  function Arrivals(hops: seq<Hop>, ms: seq<Bytes>): (r: seq<Journey>)
    ensures |r| == |ms| && forall i :: 0 <= i < |ms| ==> r[i] == Arrived(Trail(hops), ms[i])
    decreases |ms|
  {
    if ms == [] then [] else [Arrived(Trail(hops), ms[0])] + Arrivals(hops, ms[1..])
  }

  /** Any number of onions sent one after the other over an intact circuit all arrive, each relay handling
      each of them, and the tables of all nodes are the same afterwards. */
  lemma {:induction false} EveryOnionArrives(s: Suite, net: Network, c: nat, ms: seq<Bytes>)
    requires Lawful(s) && Inv(s, net) && c in net.chains && Complete(net.chains[c])
    requires AllIntact(net, net.chains[c])
    ensures CarryAll(s, net.tables, net.chains[c].hops, ms) == (Arrivals(net.chains[c].hops, ms), net.tables)
    decreases |ms|
  {
    if ms != [] {
      EveryOnionArrives(s, net, c, ms[1..]);
      OnionArrives(s, net, c, ms[0]);
    }
  }

  predicate NoneExpires(acts: seq<seq<Action>>, chain: Chain) {
    forall j, i :: 0 <= j < |acts| && 0 <= i < |chain.hops| ==>
      Expire(chain.hops[i].address, chain.hops[i].id) !in acts[j]
  }

  lemma {:induction false} IntactAt(s: Suite, start: Network, actions: seq<Action>, nets: seq<Network>,
                                    acts: seq<seq<Action>>, c: nat, chain: Chain, j: nat)
    requires Lawful(s) && Initial(start) && nets != [] && Reaches(s, start, actions, nets[0]) && Unfolds(s, nets, acts)
    requires Keeps(nets, c, chain) && AllIntact(nets[0], chain) && NoneExpires(acts, chain) && j < |nets|
    ensures AllIntact(nets[j], chain)
    decreases j
  {
    if j > 0 {
      IntactAt(s, start, actions, nets, acts, c, chain, j - 1);
      AllReached(s, start, actions, nets, acts, j - 1);
      UnfoldStep(s, nets, acts, j);
      forall i | 0 <= i < |chain.hops|
        ensures Intact(nets[j], chain, i)
      {
        assert Intact(nets[j - 1], chain, i);
        IntactStays(s, nets[j - 1], acts[j - 1], nets[j], c, i);
      }
    }
  }

  lemma WindowAt(nets: seq<Network>, first: nat, n: nat, j: nat)
    requires first + n <= |nets| && j < n
    ensures Tables(nets[first..first + n])[j] == nets[first + j].tables
  {
  }

  lemma TravelWhole(s: Suite, views: seq<map<Address, Table>>, chain: Chain, m: Bytes)
    requires 0 < |chain.hops| == |chain.route| == |views|
    requires forall j :: 0 <= j < |chain.hops| ==> ReactsAsPlanned(s, views[j], chain, |chain.hops|, j, m)
    ensures Travel(s, views, chain.route[0], Wrap(s, chain.hops, m)) == Arrived(Trail(chain.hops), m)
  {
    TravelFrom(s, views, chain, |chain.hops|, 0, m);
    assert chain.hops[0..] == chain.hops && views[0..] == views;
  }

  lemma ReactsAtAnyTime(s: Suite, start: Network, actions: seq<Action>, nets: seq<Network>, acts: seq<seq<Action>>,
                        c: nat, chain: Chain, time: nat, j: nat, m: Bytes)
    requires Lawful(s) && Initial(start) && nets != [] && Reaches(s, start, actions, nets[0]) && Unfolds(s, nets, acts)
    requires Keeps(nets, c, chain) && Complete(chain) && AllIntact(nets[0], chain) && NoneExpires(acts, chain)
    requires time < |nets| && j < |chain.hops|
    ensures ReactsAsPlanned(s, nets[time].tables, chain, |chain.hops|, j, m)
  {
    IntactAt(s, start, actions, nets, acts, c, chain, time);
    AllReached(s, start, actions, nets, acts, time);
    assert Intact(nets[time], chain, j);
    HopReacts(s, nets[time], c, |chain.hops|, j, m);
  }

  /** Once intact, a circuit works until one of its conversations expires: over every run, whatever other
      packets the nodes handle, every onion arrives, whenever it is sent. */
  lemma WorksUntilExpiry(s: Suite, start: Network, actions: seq<Action>, nets: seq<Network>, acts: seq<seq<Action>>,
                         c: nat, chain: Chain, first: nat, m: Bytes)
    requires Lawful(s) && Initial(start) && nets != [] && Reaches(s, start, actions, nets[0]) && Unfolds(s, nets, acts)
    requires c in nets[0].chains && nets[0].chains[c] == chain && Complete(chain)
    requires AllIntact(nets[0], chain) && NoneExpires(acts, chain) && first + |chain.hops| <= |nets|
    ensures Travel(s, Tables(nets[first..first + |chain.hops|]), chain.route[0], Wrap(s, chain.hops, m))
         == Arrived(Trail(chain.hops), m)
  {
    var n := |chain.hops|;
    var views := Tables(nets[first..first + n]);
    AllKept(s, start, actions, nets, acts, c);
    forall j | 0 <= j < n
      ensures ReactsAsPlanned(s, views[j], chain, n, j, m)
    {
      ReactsAtAnyTime(s, start, actions, nets, acts, c, chain, first + j, j, m);
      WindowAt(nets, first, n, j);
    }
    TravelWhole(s, views, chain, m);
  }

  // ------------------------------------------------------ circuits can be finished

  /** The three steps of one handshake. */
  function HopActions(s: Suite, chain: Chain, c: nat, key: AesKey, id: Bytes, randomness: int): seq<Action>
    requires |chain.hops| < |chain.route|
  {
    var i := |chain.hops|;
    var body := EncryptAes(s.aes, key, NextText(chain.route, i));
    [Install(c, key, id), Learn(c, randomness), Configure(Message(chain.route[i], id, body))]
  }

  /** The tables after a handshake: one more conversation, everything else as it was. */
  function WithConversation(net: Network, a: Address, id: Bytes, conv: Conversation): map<Address, Table>
    requires a in net.tables
  {
    net.tables[a := net.tables[a][id := conv]]
  }

  lemma ThreeSteps(s: Suite, net: Network, c: nat, key: AesKey, id: Bytes, randomness: int)
    returns (net1: Network, net2: Network, net3: Network)
    requires c in net.chains && net.chains[c].offer.None? && NextHopReachable(net, net.chains[c])
    requires |id| == UUID_SIZE && DecryptAes(s.aes, key, EncryptAes(s.aes, key, id)) == Some(id)
    requires var a := net.chains[c].route[|net.chains[c].hops|];
      (a, id) !in net.claims && id !in net.tables[a]
      && forall m :: m in net.pending ==> !(m.address == a && m.id == id)
    ensures var chain := net.chains[c];
      var i, acts := |chain.hops|, HopActions(s, chain, c, key, id, randomness);
      var a := chain.route[i];
      Enabled(s, net, acts[0]) && net1 == Apply(s, net, acts[0])
      && Enabled(s, net1, acts[1]) && net2 == Apply(s, net1, acts[1])
      && Enabled(s, net2, acts[2]) && net3 == Apply(s, net2, acts[2])
      && net3.tables
         == WithConversation(net, a, id, ConfigureConversation(s, Conversation(key, Unset), acts[2].message.body))
      && net3.claims == net.claims[(a, id) := Claim(c, i)]
      && net3.chains
         == net.chains[c := Chain(chain.owner, chain.route,
                                  chain.hops + [Hop(a, key, id, s.seal(a, id, randomness))], None)]
  {
    var chain := net.chains[c];
    var i, acts := |chain.hops|, HopActions(s, chain, c, key, id, randomness);
    var a, conv := chain.route[i], Conversation(key, Unset);
    net1 := Apply(s, net, acts[0]);
    assert net1.tables == WithConversation(net, a, id, conv);
    assert OfferedId(s, net1.chains[c].offer.value) == Some(id);
    net2 := Apply(s, net1, acts[1]);
    assert net2.tables == net1.tables && acts[2].message in net2.pending;
    net3 := Apply(s, net2, acts[2]);
    Overwrite(net.tables, a, id, conv, ConfigureConversation(s, conv, acts[2].message.body));
  }

  lemma Overwrite(tables: map<Address, Table>, a: Address, id: Bytes, conv: Conversation, conv': Conversation)
    requires a in tables
    ensures tables[a := tables[a][id := conv]][a := tables[a][id := conv][id := conv']]
         == tables[a := tables[a][id := conv']]
  {
    assert tables[a][id := conv][id := conv'] == tables[a][id := conv'];
  }

  lemma ThreeStepsKeep(s: Suite, net: Network, acts: seq<Action>, net1: Network, net2: Network, net3: Network)
    requires Lawful(s) && Inv(s, net) && |acts| == 3
    requires Enabled(s, net, acts[0]) && net1 == Apply(s, net, acts[0])
    requires Enabled(s, net1, acts[1]) && net2 == Apply(s, net1, acts[1])
    requires Enabled(s, net2, acts[2]) && net3 == Apply(s, net2, acts[2])
    ensures Inv(s, net3)
  {
    StepKeeps(s, net, acts[0]);
    StepKeeps(s, net1, acts[1]);
    StepKeeps(s, net2, acts[2]);
  }

  /** A node makes of its next-hop message what the client meant. */
  lemma NextLearned(s: Suite, nodes: set<Address>, key: AesKey, route: seq<Address>, i: nat)
    requires Lawful(s) && AddressesOk(nodes) && i < |route| && forall a :: a in route ==> a in nodes
    ensures ConfigureConversation(s, Conversation(key, Unset), EncryptAes(s.aes, key, NextText(route, i)))
         == Conversation(key, ExpectedNext(route, i))
  {
    AesRoundTrip(s.aes, key, NextText(route, i));
    if i + 1 < |route| {
      assert route[i + 1] in route;
      NextRoundTrip(route[i + 1]);
    }
  }

  /** Ids that can be given to the remaining hops of a route. */
  predicate FreshIds(net: Network, chain: Chain, ids: seq<Bytes>) {
    |ids| == |chain.route|
    && (forall j :: |chain.hops| <= j < |ids| ==> |ids[j]| == UUID_SIZE && (chain.route[j], ids[j]) !in net.claims)
    && forall j, k :: |chain.hops| <= j < k < |ids| ==> (chain.route[j], ids[j]) != (chain.route[k], ids[k])
  }

  ghost predicate Resumable(s: Suite, net: Network, c: nat, ids: seq<Bytes>) {
    Inv(s, net) && c in net.chains && net.chains[c].offer.None?
    && |net.chains[c].route| > 0 && FreshIds(net, net.chains[c], ids)
    && forall j :: 0 <= j < |net.chains[c].hops| ==> Intact(net, net.chains[c], j)
  }

  lemma FreshIdUnused(s: Suite, net: Network, c: nat, ids: seq<Bytes>)
    requires Resumable(s, net, c, ids) && |net.chains[c].hops| < |net.chains[c].route|
    ensures var chain := net.chains[c];
      var a, id := chain.route[|chain.hops|], ids[|chain.hops|];
      NextHopReachable(net, chain) && |id| == UUID_SIZE && (a, id) !in net.claims && id !in net.tables[a]
      && forall m :: m in net.pending ==> !(m.address == a && m.id == id)
  {
  }

  predicate HopsClaimed(net: Network, chain: Chain) {
    forall j :: 0 <= j < |chain.hops| ==> (chain.hops[j].address, chain.hops[j].id) in net.claims
  }

  lemma ClaimedHops(s: Suite, net: Network, c: nat)
    requires Inv(s, net) && c in net.chains
    ensures HopsClaimed(net, net.chains[c])
  {
    var chain := net.chains[c];
    forall j | 0 <= j < |chain.hops|
      ensures (chain.hops[j].address, chain.hops[j].id) in net.claims
    {
      assert HopOk(s, net, c, chain, j);
    }
  }

  /** A new conversation leaves the earlier hops of a client intact and makes its own hop so. */
  lemma HopsIntact(net: Network, net': Network, chain: Chain, hop: Hop)
    requires HopsClaimed(net, chain) && |chain.hops| < |chain.route|
    requires forall j :: 0 <= j < |chain.hops| ==> Intact(net, chain, j)
    requires hop.address in net.tables && (hop.address, hop.id) !in net.claims
    requires net'.tables == WithConversation(net, hop.address, hop.id,
                              Conversation(hop.key, ExpectedNext(chain.route, |chain.hops|)))
    ensures var chain' := Chain(chain.owner, chain.route, chain.hops + [hop], None);
      forall j :: 0 <= j < |chain'.hops| ==> Intact(net', chain', j)
  {
    var chain' := Chain(chain.owner, chain.route, chain.hops + [hop], None);
    forall j | 0 <= j < |chain'.hops|
      ensures Intact(net', chain', j)
    {
      if j < |chain.hops| {
        assert Intact(net, chain, j) && chain'.hops[j] == chain.hops[j];
      }
    }
  }

  lemma StillResumable(s: Suite, net: Network, net': Network, c: nat, ids: seq<Bytes>, hop: Hop)
    requires Resumable(s, net, c, ids) && Inv(s, net')
    requires var chain := net.chains[c];
      var i := |chain.hops|;
      i < |chain.route| && hop.address == chain.route[i] && hop.address in net.tables && hop.id == ids[i]
      && net'.tables == WithConversation(net, hop.address, hop.id, Conversation(hop.key, ExpectedNext(chain.route, i)))
      && net'.claims == net.claims[(hop.address, hop.id) := Claim(c, i)]
      && net'.chains == net.chains[c := Chain(chain.owner, chain.route, chain.hops + [hop], None)]
    ensures Resumable(s, net', c, ids)
  {
    ClaimedHops(s, net, c);
    HopsIntact(net, net', net.chains[c], hop);
    StillFresh(net, net', net.chains[c], net'.chains[c], ids);
  }

  /** An undisturbed handshake with a fresh id adds an intact hop. */
  lemma HandshakeAddsHop(s: Suite, net: Network, c: nat, key: AesKey, ids: seq<Bytes>)
    returns (acts: seq<Action>, net1: Network, net2: Network, net3: Network)
    requires Lawful(s) && Resumable(s, net, c, ids) && |net.chains[c].hops| < |net.chains[c].route|
    ensures |acts| == 3
    ensures Enabled(s, net, acts[0]) && net1 == Apply(s, net, acts[0])
    ensures Enabled(s, net1, acts[1]) && net2 == Apply(s, net1, acts[1])
    ensures Enabled(s, net2, acts[2]) && net3 == Apply(s, net2, acts[2])
    ensures Resumable(s, net3, c, ids)
    ensures net3.chains[c].route == net.chains[c].route
    ensures |net3.chains[c].hops| == |net.chains[c].hops| + 1
  {
    var chain := net.chains[c];
    var i := |chain.hops|;
    FreshIdUnused(s, net, c, ids);
    AesRoundTrip(s.aes, key, ids[i]);
    acts := HopActions(s, chain, c, key, ids[i], 0);
    net1, net2, net3 := ThreeSteps(s, net, c, key, ids[i], 0);
    ThreeStepsKeep(s, net, acts, net1, net2, net3);
    assert RouteOk(net, chain) by { assert ChainOk(s, net, c, chain); }
    NextLearned(s, net.tables.Keys, key, chain.route, i);
    StillResumable(s, net, net3, c, ids, Hop(chain.route[i], key, ids[i], s.seal(chain.route[i], ids[i], 0)));
  }

  lemma StillFresh(net: Network, net': Network, chain: Chain, chain': Chain, ids: seq<Bytes>)
    requires FreshIds(net, chain, ids) && |chain.hops| < |chain.route|
    requires chain'.route == chain.route && |chain'.hops| == |chain.hops| + 1
    requires forall k :: k in net'.claims ==> k in net.claims || k == (chain.route[|chain.hops|], ids[|chain.hops|])
    ensures FreshIds(net', chain', ids)
  {
  }

  /** From every network that keeps the invariant a designed circuit can be finished, whatever
      route was drawn, as long as its relays have ids left: the protocol never blocks itself. */
  lemma {:induction false} CircuitCanFinish(s: Suite, net: Network, c: nat, key: AesKey, ids: seq<Bytes>)
    returns (actions: seq<Action>, after: Network)
    requires Lawful(s) && Resumable(s, net, c, ids)
    ensures Reaches(s, net, actions, after) && c in after.chains && Complete(after.chains[c])
    ensures after.chains[c].route == net.chains[c].route
    ensures AllIntact(after, after.chains[c])
    decreases |net.chains[c].route| - |net.chains[c].hops|
  {
    assert ChainOk(s, net, c, net.chains[c]);
    if |net.chains[c].hops| == |net.chains[c].route| {
      return [], net;
    }
    var acts, net1, net2, net3 := HandshakeAddsHop(s, net, c, key, ids);
    assert ChainOk(s, net3, c, net3.chains[c]);
    var rest;
    rest, after := CircuitCanFinish(s, net3, c, key, ids);
    actions := acts + rest;
    ReachesThree(s, net, acts, net1, net2, net3, rest, after);
  }

  /** So every route can still become a working circuit in every reachable network. */
  lemma AnyRouteCanFinish(s: Suite, start: Network, actions: seq<Action>, net: Network,
                          c: nat, owner: nat, route: seq<Address>, key: AesKey, ids: seq<Bytes>)
    returns (more: seq<Action>, after: Network)
    requires Lawful(s) && Initial(start) && Reaches(s, start, actions, net)
    requires Enabled(s, net, Design(c, owner, route)) && FreshIds(net, Chain(owner, route, [], None), ids)
    ensures Reaches(s, net, more, after) && c in after.chains
    ensures after.chains[c].route == route && Complete(after.chains[c])
    ensures AllIntact(after, after.chains[c])
  {
    ReachedInv(s, start, actions, net);
    var design := Design(c, owner, route);
    StepKeeps(s, net, design);
    var rest;
    rest, after := CircuitCanFinish(s, Apply(s, net, design), c, key, ids);
    more := [design] + rest;
    assert more[1..] == rest;
  }

  lemma ReachesThree(s: Suite, net: Network, acts: seq<Action>, net1: Network, net2: Network, net3: Network,
                     rest: seq<Action>, after: Network)
    requires |acts| == 3 && Reaches(s, net3, rest, after)
    requires Enabled(s, net, acts[0]) && net1 == Apply(s, net, acts[0])
    requires Enabled(s, net1, acts[1]) && net2 == Apply(s, net1, acts[1])
    requires Enabled(s, net2, acts[2]) && net3 == Apply(s, net2, acts[2])
    ensures Reaches(s, net, acts + rest, after)
  {
    var all := acts + rest;
    assert all[1..][1..][1..] == rest;
    assert Reaches(s, net2, all[1..][1..], after);
    assert Reaches(s, net1, all[1..], after);
  }

  // -------------------------------------------------------------- replies travel

  /** The exit and then every relay back to the entry encrypt with the key of the conversation
      the packet came by; `views[j]` holds the tables when the reply is at the relay of visit `j`.
      `None` when one of the conversations has been removed meanwhile. */
  function ReplyAlong(s: Suite, views: seq<map<Address, Table>>, trail: seq<Visit>, m: Bytes): Option<Bytes>
    requires |views| == |trail|
  {
    if trail == [] then Some(m)
    else
      var inner := ReplyAlong(s, views[1..], trail[1..], m);
      var v := trail[0];
      if inner.None? || !Alive(views[0], v) then None
      else Some(EncryptAes(s.aes, views[0][v.address][v.id].key, inner.value))
  }

  predicate Alive(tables: map<Address, Table>, v: Visit) {
    v.address in tables && v.id in tables[v.address]
  }

  predicate Conversing(views: seq<map<Address, Table>>, trail: seq<Visit>)
    requires |views| == |trail|
  {
    forall i :: 0 <= i < |trail| ==> Alive(views[i], trail[i])
  }

  lemma ConversingTail(views: seq<map<Address, Table>>, trail: seq<Visit>)
    requires |views| == |trail| > 0
    ensures Conversing(views, trail) <==> Alive(views[0], trail[0]) && Conversing(views[1..], trail[1..])
  {
    if Conversing(views[1..], trail[1..]) && Alive(views[0], trail[0]) {
      forall i | 0 <= i < |trail|
        ensures Alive(views[i], trail[i])
      {
        assert i > 0 ==> trail[i] == trail[1..][i - 1] && views[i] == views[1..][i - 1];
      }
    }
  }

  /** Where a hop still has its conversation, it has the client's key. */
  predicate HasKey(tables: map<Address, Table>, h: Hop) {
    Alive(tables, Visit(h.address, h.id)) ==> tables[h.address][h.id].key == h.key
  }

  predicate SameKeys(views: seq<map<Address, Table>>, hops: seq<Hop>)
    requires |views| == |hops|
  {
    forall i :: 0 <= i < |hops| ==> HasKey(views[i], hops[i])
  }

  lemma {:induction false} ReplyAlongTrail(s: Suite, views: seq<map<Address, Table>>, hops: seq<Hop>, m: Bytes)
    requires |views| == |hops| && SameKeys(views, hops)
    ensures var r := ReplyAlong(s, views, Trail(hops), m);
      (r.Some? <==> Conversing(views, Trail(hops))) && (r.Some? ==> r.value == ReplyWrap(s, hops, m))
    decreases |hops|
  {
    if hops != [] {
      var trail := Trail(hops);
      forall i | 0 <= i < |hops| - 1
        ensures hops[1..][i] == hops[i + 1] && views[1..][i] == views[i + 1]
      {
      }
      ReplyAlongTrail(s, views[1..], hops[1..], m);
      assert trail[1..] == Trail(hops[1..]) && trail[0] == Visit(hops[0].address, hops[0].id);
      ConversingTail(views, trail);
    }
  }

  /** The tables a reply meets, relay by relay: it starts at the exit, so the order of time is reversed. */
  function Backwards(nets: seq<Network>): (views: seq<map<Address, Table>>)
    ensures |views| == |nets| && forall i :: 0 <= i < |nets| ==> views[i] == nets[|nets| - 1 - i].tables
  {
    seq(|nets|, i requires 0 <= i < |nets| => nets[|nets| - 1 - i].tables)
  }

  lemma FirstPart(s: Suite, nets: seq<Network>, acts: seq<seq<Action>>, c: nat, chain: Chain, n: nat)
    requires Unfolds(s, nets, acts) && Keeps(nets, c, chain) && 1 <= n <= |nets|
    ensures Unfolds(s, nets[..n], acts[..n - 1]) && Keeps(nets[..n], c, chain)
  {
  }

  lemma ReplyKeys(s: Suite, start: Network, actions: seq<Action>, nets: seq<Network>, acts: seq<seq<Action>>,
                  c: nat, chain: Chain, n: nat)
    requires Lawful(s) && Initial(start) && nets != [] && Reaches(s, start, actions, nets[0]) && Unfolds(s, nets, acts)
    requires Keeps(nets, c, chain) && n == |chain.hops| && |nets| == 2 * n
    ensures SameKeys(Backwards(nets[n..]), chain.hops)
  {
    forall i | 0 <= i < n
      ensures HasKey(Backwards(nets[n..])[i], chain.hops[i])
    {
      AllReached(s, start, actions, nets, acts, 2 * n - 1 - i);
      HopHasKey(s, nets[2 * n - 1 - i], c, i);
      BackwardsAt(nets, n, i);
    }
  }

  lemma BackwardsAt(nets: seq<Network>, n: nat, i: nat)
    requires |nets| == 2 * n && i < n
    ensures Backwards(nets[n..])[i] == nets[2 * n - 1 - i].tables
  {
  }

  lemma HopHasKey(s: Suite, net: Network, c: nat, i: nat)
    requires Inv(s, net) && c in net.chains && i < |net.chains[c].hops|
    ensures HasKey(net.tables, net.chains[c].hops[i])
  {
    assert HopOk(s, net, c, net.chains[c], i);
  }

  /** A request and its reply over any run: the request arrives, and a reply sent back along its
      trail gets through exactly when every relay still has the conversation when the reply gets
      there; a client that still has the keys of the circuit then reads it. Between any two hops, there
      and back, the network may take any steps. */
  lemma ReplyIsRead(s: Suite, start: Network, actions: seq<Action>, nets: seq<Network>, acts: seq<seq<Action>>,
                    c: nat, chain: Chain, request: Bytes, reply: Bytes)
    requires Lawful(s) && Initial(start) && nets != [] && Reaches(s, start, actions, nets[0]) && Unfolds(s, nets, acts)
    requires c in nets[0].chains && nets[0].chains[c] == chain && Complete(chain) && |nets| == 2 * |chain.hops|
    requires forall i :: 0 <= i < |chain.hops| ==> Intact(nets[i], chain, i)
    ensures var n := |chain.hops|;
      var j := Travel(s, Tables(nets[..n]), chain.route[0], Wrap(s, chain.hops, request));
      j.Arrived? && j.plaintext == request && |j.trail| == n
      && var r := ReplyAlong(s, Backwards(nets[n..]), j.trail, reply);
         (r.Some? <==> Conversing(Backwards(nets[n..]), j.trail))
         && (r.Some? ==> Unwrap(s, chain.hops, r.value) == Some(reply))
  {
    var n := |chain.hops|;
    AllKept(s, start, actions, nets, acts, c);
    FirstPart(s, nets, acts, c, chain, n);
    CircuitDelivers(s, start, actions, nets[..n], acts[..n - 1], c, chain, n, request);
    ReplyKeys(s, start, actions, nets, acts, c, chain, n);
    ReplyAlongTrail(s, Backwards(nets[n..]), chain.hops, reply);
    UnwrapInvertsReply(s, chain.hops, reply);
  }

  // ------------------------------------------------------------- from end to end

  /** Every packet of a journey is short enough for the frame that carries it. */
  lemma PacketsFitFrames(s: Suite, path: seq<Hop>, i: nat, m: Bytes)
    requires Lawful(s) && ReadyPath(s, path) && i <= |path|
    requires |m| + 105 * |path| < Framing.INT32_LIMIT
    ensures var packet := Wrap(s, path[i..], m);
      Framing.Receive(Framing.Frame(packet)) == (Some(packet), [])
  {
    WrapLength(s, path[i..], m);
    Framing.FrameArrivesIff(Wrap(s, path[i..], m));
  }

  /** From the front end to the exit: every line the client forwards over a circuit that is intact
      when its packet passes arrives, every frame on the way gets through, and the exit makes of it
      the packet that was typed. */
  lemma LineReachesExit(s: Suite, start: Network, actions: seq<Action>, nets: seq<Network>, acts: seq<seq<Action>>,
                        c: nat, chain: Chain, line: Bytes)
    requires Lawful(s) && Initial(start) && nets != [] && Reaches(s, start, actions, nets[0]) && Unfolds(s, nets, acts)
    requires c in nets[0].chains && nets[0].chains[c] == chain && Complete(chain) && |nets| == |chain.hops|
    requires forall i :: 0 <= i < |chain.hops| ==> Intact(nets[i], chain, i)
    requires Packets.ClientDispatch(line).SendPlain?
    requires |Packets.ClientDispatch(line).plaintext| + 105 * |chain.hops| < Framing.INT32_LIMIT
    ensures var plaintext := Packets.ClientDispatch(line).plaintext;
      Travel(s, Tables(nets), chain.route[0], Wrap(s, chain.hops, plaintext))
      == Arrived(Trail(chain.hops), plaintext)
      && Packets.ExitDispatch(plaintext) == Packets.Typed(line) != Packets.Malformed
      && forall i {:trigger chain.hops[i..]} :: 0 <= i < |chain.hops| ==>
           Framing.Receive(Framing.Frame(Wrap(s, chain.hops[i..], plaintext)))
           == (Some(Wrap(s, chain.hops[i..], plaintext)), [])
  {
    var plaintext := Packets.ClientDispatch(line).plaintext;
    CircuitDelivers(s, start, actions, nets, acts, c, chain, |chain.hops|, plaintext);
    Packets.DispatchAgrees(line);
    ReachedInv(s, start, actions, nets[0]);
    PathReady(s, nets[0], c);
    forall i | 0 <= i < |chain.hops|
      ensures Framing.Receive(Framing.Frame(Wrap(s, chain.hops[i..], plaintext)))
           == (Some(Wrap(s, chain.hops[i..], plaintext)), [])
    {
      PacketsFitFrames(s, chain.hops, i, plaintext);
    }
  }
}
