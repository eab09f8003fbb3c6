/** Where a flooded block gets to: every node that can be reached over peers from the first node that has it. */
module FloodReach {
  import opened Blocks
  import opened BlockChains
  import opened Histories
  import opened PuzzlesStates
  import opened Flooding

  /** Node x has accepted b on top of h. */
  predicate Has(s: Flood, x: string, h: History, b: Block) {
    x in s.histories && s.histories[x] == h + [b]
  }

  /** Every node has h, or h and b. */
  ghost predicate Uniform(s: Flood, h: History, b: Block) {
    && s.nodes.Keys == s.histories.Keys
    && forall x :: x in s.nodes ==> UniformNode(s, x, h, b)
  }

  ghost predicate UniformNode(s: Flood, x: string, h: History, b: Block)
    requires x in s.nodes
  {
    x in s.histories && s.nodes[x].chain == ChainOf(s.histories[x]) && (s.histories[x] == h || s.histories[x] == h + [b])
  }

  predicate OnItsWay(s: Flood, x: string) {
    exists i :: 0 <= i < |s.inFlight| && s.inFlight[i].to == x
  }

  /** b has reached the address x, is on its way to it, or came from it in the first place. */
  predicate Covered(s: Flood, x: string, h: History, b: Block, from: string) {
    x == from || x !in s.nodes || Has(s, x, h, b) || OnItsWay(s, x)
  }

  ghost predicate PeersCovered(s: Flood, x: string, h: History, b: Block, from: string)
    requires x in s.nodes
  {
    forall k :: 0 <= k < |s.nodes[x].peers| ==> Covered(s, s.nodes[x].peers[k].address, h, b, from)
  }

  /** What is in flight is b, from nodes that have it; and the peers of every node that has it are covered. */
  ghost predicate Spreading(s: Flood, h: History, b: Block, from: string) {
    && (forall f :: f in s.inFlight ==> f.block == b && (f.from == from || f.from !in s.nodes || Has(s, f.from, h, b)))
    && (forall x :: x in s.nodes && Has(s, x, h, b) ==> PeersCovered(s, x, h, b, from))
  }

  /** b is a worked successor of h, in a set of blocks without collisions. */
  ghost predicate Successor(H: BlockHash, h: History, b: Block, blocks: set<Block>) {
    && CollisionFree(H, blocks) && Linked(H, h) && Within(h + [b], blocks)
    && HasProofOfWork(H, b) && b.previousHash == H(Last(h))
  }

  /** A node accepts b exactly if it still has h. */
  lemma AcceptsIffMissing(H: BlockHash, h: History, b: Block, blocks: set<Block>, g: History, now: int)
    requires Successor(H, h, b, blocks) && !Expired(b, now) && (g == h || g == h + [b])
    ensures AddVerdict(H, ChainOf(g), b, now) == if g == h then Accepted else Rejected
  {
    LinkedSnoc(H, h, b);
    if g == h + [b] {
      HashesNeverRecur(H, blocks, h + [b], |h| - 1, |h|);
      assert (h + [b])[|h| - 1] == Last(h);
    }
  }

  /** The same nodes with the same peers. */
  ghost predicate SamePeers(s: Flood, t: Flood) {
    && s.nodes.Keys == t.nodes.Keys
    && forall x :: x in s.nodes ==> t.nodes[x].peers == s.nodes[x].peers
  }

  lemma KnownBlock(s: Flood, d: Delivery, h: History, b: Block, from: string)
    requires Spreading(s, h, b, from) && Possible(s, d)
    ensures s.inFlight[d.index].block == b
  {
    assert s.inFlight[d.index] in s.inFlight;
  }

  /** What one delivery does. */
  lemma DeliverEffect(H: BlockHash, s: Flood, d: Delivery, h: History, b: Block, blocks: set<Block>)
    requires Successor(H, h, b, blocks) && Uniform(s, h, b)
    requires Possible(s, d) && !Expired(b, d.now) && s.inFlight[d.index].block == b
    ensures var f := s.inFlight[d.index]; var t := Deliver(H, s, d); var rest := RemoveAt(s.inFlight, d.index);
            && SamePeers(s, t) && Uniform(t, h, b)
            && (f.to in s.nodes ==> Has(t, f.to, h, b))
            && (forall x :: x != f.to && x in s.nodes ==> t.histories[x] == s.histories[x])
            && (f.to !in s.nodes || Has(s, f.to, h, b) ==> t.inFlight == rest && t.histories == s.histories)
            && (f.to in s.nodes && !Has(s, f.to, h, b) ==>
                 exists n: Node :: t.inFlight == rest + Flights(f.to, b, BlockPackets(n, s.nodes[f.to].peers, b, f.from)))
  {
    var f := s.inFlight[d.index];
    assert f.to in s.nodes ==> UniformNode(s, f.to, h, b);
    var t := Deliver(H, s, d);
    if f.to !in s.nodes {
      UniformStays(s, t, h, b);
    } else if Has(s, f.to, h, b) {
      DeliverRefused(H, s, d, h, b, blocks);
      UniformStays(s, t, h, b);
    } else {
      DeliverAccepted(H, s, d, h, b, blocks);
      UniformGrows(s, t, h, b, f.to);
    }
  }

  lemma UniformGrows(s: Flood, t: Flood, h: History, b: Block, x: string)
    requires Uniform(s, h, b) && x in s.nodes
    requires t.nodes == s.nodes[x := s.nodes[x].(chain := ChainOf(h + [b]))] && t.histories == s.histories[x := h + [b]]
    ensures Uniform(t, h, b) && SamePeers(s, t)
  {
    forall y | y in t.nodes
      ensures UniformNode(t, y, h, b)
    {
      assert UniformNode(s, y, h, b);
    }
  }

  lemma UniformStays(s: Flood, t: Flood, h: History, b: Block)
    requires Uniform(s, h, b) && t.nodes == s.nodes && t.histories == s.histories
    ensures Uniform(t, h, b) && SamePeers(s, t)
  {
    assert forall x :: x in s.nodes ==> UniformNode(s, x, h, b);
  }

  lemma DeliverRefused(H: BlockHash, s: Flood, d: Delivery, h: History, b: Block, blocks: set<Block>)
    requires Successor(H, h, b, blocks) && Possible(s, d) && !Expired(b, d.now)
    requires var f := s.inFlight[d.index];
             f.block == b && f.to in s.nodes && Has(s, f.to, h, b) && s.nodes[f.to].chain == ChainOf(h + [b])
    ensures var t := Deliver(H, s, d);
            t.nodes == s.nodes && t.histories == s.histories && t.inFlight == RemoveAt(s.inFlight, d.index)
  {
    var f := s.inFlight[d.index];
    AcceptsIffMissing(H, h, b, blocks, h + [b], d.now);
    assert OnBroadcast(H, s.nodes[f.to], b, f.from, d.now) == Done(s.nodes[f.to], []);
    assert s.nodes[f.to := s.nodes[f.to]] == s.nodes && s.histories[f.to := s.histories[f.to]] == s.histories;
    assert Flights(f.to, b, []) == [];
  }

  lemma DeliverAccepted(H: BlockHash, s: Flood, d: Delivery, h: History, b: Block, blocks: set<Block>)
    requires Successor(H, h, b, blocks) && Possible(s, d) && !Expired(b, d.now)
    requires var f := s.inFlight[d.index];
             f.block == b && f.to in s.nodes && f.to in s.histories
             && s.histories[f.to] == h && s.nodes[f.to].chain == ChainOf(h)
    ensures var f, t := s.inFlight[d.index], Deliver(H, s, d);
            var n := s.nodes[f.to].(chain := ChainOf(h + [b]));
            && t.nodes == s.nodes[f.to := n] && t.histories == s.histories[f.to := h + [b]]
            && t.inFlight == RemoveAt(s.inFlight, d.index) + Flights(f.to, b, BlockPackets(n, n.peers, b, f.from))
  {
    AcceptsIffMissing(H, h, b, blocks, h, d.now);
    ChainOfSnoc(h, b);
  }

  /** A flight stays unless it is the one delivered. */
  lemma FlightStays(s: Flood, d: Delivery, rest: seq<Flight>, more: seq<Flight>, x: string)
    requires Possible(s, d) && rest == RemoveAt(s.inFlight, d.index) && OnItsWay(s, x)
    ensures s.inFlight[d.index].to == x || exists i :: 0 <= i < |rest + more| && (rest + more)[i].to == x
  {
    var i :| 0 <= i < |s.inFlight| && s.inFlight[i].to == x;
    if i < d.index {
      assert (rest + more)[i].to == x;
    } else if i > d.index {
      assert (rest + more)[i - 1] == s.inFlight[i];
    }
  }

  lemma {:induction false} PacketForPeer(n: Node, peers: seq<Gossiper>, b: Block, from: string, k: nat) returns (i: nat)
    requires k < |peers| && peers[k].address != from
    ensures i < |BlockPackets(n, peers, b, from)| && BlockPackets(n, peers, b, from)[i].to == peers[k].address
  {
    if k == |peers| - 1 {
      i := |BlockPackets(n, peers, b, from)| - 1;
    } else {
      i := PacketForPeer(n, peers[..|peers| - 1], b, from, k);
    }
  }

  /** A covered address stays covered. */
  lemma StaysCovered(H: BlockHash, s: Flood, d: Delivery, h: History, b: Block, blocks: set<Block>, from: string, x: string)
    requires Successor(H, h, b, blocks) && Uniform(s, h, b) && Spreading(s, h, b, from)
    requires Possible(s, d) && !Expired(b, d.now) && Covered(s, x, h, b, from)
    ensures Covered(Deliver(H, s, d), x, h, b, from)
  {
    KnownBlock(s, d, h, b, from);
    DeliverEffect(H, s, d, h, b, blocks);
    var t, f, rest := Deliver(H, s, d), s.inFlight[d.index], RemoveAt(s.inFlight, d.index);
    if x != from && x in s.nodes && x != f.to && !Has(s, x, h, b) {
      if f.to !in s.nodes || Has(s, f.to, h, b) {
        FlightStays(s, d, rest, [], x);
        assert rest + [] == rest;
      } else {
        var n: Node :| t.inFlight == rest + Flights(f.to, b, BlockPackets(n, s.nodes[f.to].peers, b, f.from));
        FlightStays(s, d, rest, Flights(f.to, b, BlockPackets(n, s.nodes[f.to].peers, b, f.from)), x);
      }
    }
  }

  lemma SenderCovered(s: Flood, d: Delivery, h: History, b: Block, from: string)
    requires Spreading(s, h, b, from) && Possible(s, d)
    ensures Covered(s, s.inFlight[d.index].from, h, b, from)
  {
    assert s.inFlight[d.index] in s.inFlight;
  }

  lemma NewFlightCovers(t: Flood, rest: seq<Flight>, to: string, n: Node, peers: seq<Gossiper>, b: Block, sender: string,
                        k: nat)
    requires t.inFlight == rest + Flights(to, b, BlockPackets(n, peers, b, sender))
    requires k < |peers| && peers[k].address != sender
    ensures OnItsWay(t, peers[k].address)
  {
    var i := PacketForPeer(n, peers, b, sender, k);
    assert t.inFlight[|rest| + i].to == peers[k].address;
  }

  /** A node that has just accepted covers its peers: it sends to all but the one that has it already. */
  lemma NewPeersCovered(H: BlockHash, s: Flood, d: Delivery, h: History, b: Block, blocks: set<Block>, from: string)
    requires Successor(H, h, b, blocks) && Uniform(s, h, b) && Spreading(s, h, b, from)
    requires Possible(s, d) && !Expired(b, d.now)
    requires s.inFlight[d.index].to in s.nodes && !Has(s, s.inFlight[d.index].to, h, b)
    ensures var to, t := s.inFlight[d.index].to, Deliver(H, s, d);
            to in t.nodes && PeersCovered(t, to, h, b, from)
  {
    KnownBlock(s, d, h, b, from);
    DeliverEffect(H, s, d, h, b, blocks);
    SenderCovered(s, d, h, b, from);
    StaysCovered(H, s, d, h, b, blocks, from, s.inFlight[d.index].from);
    var f, t := s.inFlight[d.index], Deliver(H, s, d);
    var n: Node :| t.inFlight == RemoveAt(s.inFlight, d.index) + Flights(f.to, b, BlockPackets(n, s.nodes[f.to].peers, b, f.from));
    AllPeersCovered(t, RemoveAt(s.inFlight, d.index), f, n, s.nodes[f.to].peers, h, b, from);
  }

  lemma AllPeersCovered(t: Flood, rest: seq<Flight>, f: Flight, n: Node, peers: seq<Gossiper>, h: History, b: Block,
                        from: string)
    requires f.to in t.nodes && t.nodes[f.to].peers == peers && Covered(t, f.from, h, b, from)
    requires t.inFlight == rest + Flights(f.to, b, BlockPackets(n, peers, b, f.from))
    ensures PeersCovered(t, f.to, h, b, from)
  {
    forall k | 0 <= k < |peers|
      ensures Covered(t, peers[k].address, h, b, from)
    {
      if peers[k].address != f.from {
        NewFlightCovers(t, rest, f.to, n, peers, b, f.from, k);
      }
    }
  }

  lemma DeliverSpreads(H: BlockHash, s: Flood, d: Delivery, h: History, b: Block, blocks: set<Block>, from: string)
    requires Successor(H, h, b, blocks) && Uniform(s, h, b) && Spreading(s, h, b, from)
    requires Possible(s, d) && !Expired(b, d.now)
    ensures Uniform(Deliver(H, s, d), h, b) && Spreading(Deliver(H, s, d), h, b, from) && SamePeers(s, Deliver(H, s, d))
  {
    KnownBlock(s, d, h, b, from);
    DeliverEffect(H, s, d, h, b, blocks);
    var f, t := s.inFlight[d.index], Deliver(H, s, d);
    assert f in s.inFlight;
    forall x | x in t.nodes && Has(t, x, h, b)
      ensures PeersCovered(t, x, h, b, from)
    {
      if x == f.to && !Has(s, x, h, b) {
        NewPeersCovered(H, s, d, h, b, blocks, from);
      } else {
        assert Has(s, x, h, b) && PeersCovered(s, x, h, b, from);
        forall k | 0 <= k < |t.nodes[x].peers|
          ensures Covered(t, t.nodes[x].peers[k].address, h, b, from)
        {
          StaysCovered(H, s, d, h, b, blocks, from, s.nodes[x].peers[k].address);
        }
      }
    }
    FlightsKnown(H, s, d, h, b, blocks, from);
  }

  lemma FlightsKnown(H: BlockHash, s: Flood, d: Delivery, h: History, b: Block, blocks: set<Block>, from: string)
    requires Successor(H, h, b, blocks) && Uniform(s, h, b) && Spreading(s, h, b, from)
    requires Possible(s, d) && !Expired(b, d.now)
    ensures var t := Deliver(H, s, d);
            forall g :: g in t.inFlight ==> g.block == b && (g.from == from || g.from !in t.nodes || Has(t, g.from, h, b))
  {
    KnownBlock(s, d, h, b, from);
    DeliverEffect(H, s, d, h, b, blocks);
    var f, t, rest := s.inFlight[d.index], Deliver(H, s, d), RemoveAt(s.inFlight, d.index);
    forall g | g in t.inFlight
      ensures g.block == b && (g.from == from || g.from !in t.nodes || Has(t, g.from, h, b))
    {
      if g !in rest {
        assert f.to in s.nodes && !Has(s, f.to, h, b);
        var n: Node :| t.inFlight == rest + Flights(f.to, b, BlockPackets(n, s.nodes[f.to].peers, b, f.from));
        assert g in Flights(f.to, b, BlockPackets(n, s.nodes[f.to].peers, b, f.from));
        assert g.from == f.to;
      } else {
        assert g in s.inFlight;
      }
    }
  }

  ghost predicate Unexpired(b: Block, ds: seq<Delivery>) {
    forall i :: 0 <= i < |ds| ==> !Expired(b, ds[i].now)
  }

  lemma StaysAccepted(H: BlockHash, s: Flood, d: Delivery, h: History, b: Block, blocks: set<Block>, from: string, x: string)
    requires Successor(H, h, b, blocks) && Uniform(s, h, b) && Spreading(s, h, b, from)
    requires Possible(s, d) && !Expired(b, d.now) && x in s.nodes && Has(s, x, h, b)
    ensures x in Deliver(H, s, d).nodes && Has(Deliver(H, s, d), x, h, b)
  {
    KnownBlock(s, d, h, b, from);
    DeliverEffect(H, s, d, h, b, blocks);
  }

  lemma SamePeersChain(s: Flood, t: Flood, u: Flood)
    requires SamePeers(s, t) && SamePeers(t, u)
    ensures SamePeers(s, u)
  {
  }

  lemma {:induction false} ScheduleSpreads(H: BlockHash, s: Flood, ds: seq<Delivery>, h: History, b: Block,
                                           blocks: set<Block>, from: string, x: string)
    requires Successor(H, h, b, blocks) && Uniform(s, h, b) && Spreading(s, h, b, from)
    requires Schedule(H, s, ds) && Unexpired(b, ds) && x in s.nodes && Has(s, x, h, b)
    ensures var t := Final(H, s, ds);
            Uniform(t, h, b) && Spreading(t, h, b, from) && SamePeers(s, t) && Has(t, x, h, b)
    decreases ds
  {
    if ds != [] {
      assert !Expired(b, ds[0].now);
      DeliverSpreads(H, s, ds[0], h, b, blocks, from);
      StaysAccepted(H, s, ds[0], h, b, blocks, from, x);
      var t := Deliver(H, s, ds[0]);
      ScheduleSpreads(H, t, ds[1..], h, b, blocks, from, x);
      SamePeersChain(s, t, Final(H, s, ds));
    }
  }

  /** p leads from node to node over peers, without passing the address `from`. */
  ghost predicate Path(s: Flood, p: seq<string>, from: string) {
    && p != [] && (forall i :: 0 <= i < |p| ==> p[i] in s.nodes)
    && (forall i :: 1 <= i < |p| ==> p[i] != from && Knows(s.nodes[p[i - 1]].peers, p[i]))
  }

  lemma {:induction false} PathHas(t: Flood, p: seq<string>, h: History, b: Block, from: string, i: nat)
    requires Spreading(t, h, b, from) && t.inFlight == [] && Path(t, p, from) && Has(t, p[0], h, b) && i < |p|
    ensures Has(t, p[i], h, b)
  {
    if i > 0 {
      PathHas(t, p, h, b, from, i - 1);
      assert PeersCovered(t, p[i - 1], h, b, from);
      var k :| 0 <= k < |t.nodes[p[i - 1]].peers| && t.nodes[p[i - 1]].peers[k].address == p[i];
      assert Covered(t, t.nodes[p[i - 1]].peers[k].address, h, b, from);
    }
  }

  /** All nodes have h, and b is on its way from `from` to the node `first`. */
  ghost predicate Announced(s: Flood, h: History, b: Block, from: string, first: string) {
    && s.nodes.Keys == s.histories.Keys && first in s.nodes
    && (forall x :: x in s.nodes ==> s.histories[x] == h && s.nodes[x].chain == ChainOf(h))
    && s.inFlight == [Flight(from, first, b)]
  }

  /** A flooded block gets everywhere. Let all nodes have one history h, and a valid successor b of it be sent to
      one of them. Whatever the order of deliveries, once nothing is left in flight, and if b has not expired by
      then, every node that a path over peers leads to from the first one has accepted b. The only address a path
      must not pass is the one b came from, to which the first node does not send it back. */
  lemma FloodedBlockReachesAll(H: BlockHash, s: Flood, ds: seq<Delivery>, h: History, b: Block, blocks: set<Block>,
                               from: string, first: string, p: seq<string>)
    requires Successor(H, h, b, blocks) && Announced(s, h, b, from, first)
    requires Schedule(H, s, ds) && Unexpired(b, ds) && Final(H, s, ds).inFlight == []
    requires Path(s, p, from) && p[0] == first
    ensures Has(Final(H, s, ds), p[|p| - 1], h, b)
  {
    var d := ds[0];
    assert d.index == 0 && !Expired(b, d.now);
    AnnouncedSpreads(s, h, b, from, first);
    FirstDelivery(H, s, d, h, b, blocks, from, first);
    AfterFirst(H, s, Deliver(H, s, d), ds[1..], h, b, blocks, from, first, p);
  }

  lemma FirstDelivery(H: BlockHash, s: Flood, d: Delivery, h: History, b: Block, blocks: set<Block>, from: string,
                      first: string)
    requires Successor(H, h, b, blocks) && Uniform(s, h, b) && Spreading(s, h, b, from)
    requires Possible(s, d) && !Expired(b, d.now) && s.inFlight[d.index].to == first && first in s.nodes
    ensures var t := Deliver(H, s, d);
            Uniform(t, h, b) && Spreading(t, h, b, from) && SamePeers(s, t) && first in t.nodes && Has(t, first, h, b)
  {
    DeliverSpreads(H, s, d, h, b, blocks, from);
    KnownBlock(s, d, h, b, from);
    DeliverEffect(H, s, d, h, b, blocks);
  }

  lemma AnnouncedSpreads(s: Flood, h: History, b: Block, from: string, first: string)
    requires Announced(s, h, b, from, first)
    ensures Uniform(s, h, b) && Spreading(s, h, b, from)
  {
    assert h != h + [b] by { assert |h| != |h + [b]|; }
    forall x | x in s.nodes
      ensures UniformNode(s, x, h, b) && !Has(s, x, h, b)
    {
    }
  }

  /** The same for a node that has accepted b from a joiner and has just broadcast it. */
  ghost predicate Welcoming(s: Flood, h: History, b: Block, from: string, first: string) {
    && s.nodes.Keys == s.histories.Keys && first in s.nodes
    && (forall x :: x in s.nodes ==> s.nodes[x].chain == ChainOf(s.histories[x])
                                     && s.histories[x] == if x == first then h + [b] else h)
    && s.inFlight == Flights(first, b, BlockPackets(s.nodes[first], s.nodes[first].peers, b, from))
  }

  lemma WelcomedBlockReachesAll(H: BlockHash, s: Flood, ds: seq<Delivery>, h: History, b: Block, blocks: set<Block>,
                                from: string, first: string, p: seq<string>)
    requires Successor(H, h, b, blocks) && Welcoming(s, h, b, from, first)
    requires Schedule(H, s, ds) && Unexpired(b, ds) && Final(H, s, ds).inFlight == []
    requires Path(s, p, from) && p[0] == first
    ensures Has(Final(H, s, ds), p[|p| - 1], h, b)
  {
    WelcomingSpreads(s, h, b, from, first);
    AfterFirst(H, s, s, ds, h, b, blocks, from, first, p);
  }

  lemma WelcomingSpreads(s: Flood, h: History, b: Block, from: string, first: string)
    requires Welcoming(s, h, b, from, first)
    ensures Uniform(s, h, b) && Spreading(s, h, b, from) && Has(s, first, h, b)
  {
    assert h != h + [b] by { assert |h| != |h + [b]|; }
    forall x | x in s.nodes
      ensures UniformNode(s, x, h, b) && (Has(s, x, h, b) <==> x == first)
    {
    }
    forall k | 0 <= k < |s.nodes[first].peers|
      ensures Covered(s, s.nodes[first].peers[k].address, h, b, from)
    {
      if s.nodes[first].peers[k].address != from {
        var i := PacketForPeer(s.nodes[first], s.nodes[first].peers, b, from, k);
        assert s.inFlight[i].to == s.nodes[first].peers[k].address;
      }
    }
    assert PeersCovered(s, first, h, b, from);
  }

  lemma AfterFirst(H: BlockHash, s: Flood, t: Flood, ds: seq<Delivery>, h: History, b: Block, blocks: set<Block>,
                   from: string, first: string, p: seq<string>)
    requires Successor(H, h, b, blocks) && Uniform(t, h, b) && Spreading(t, h, b, from) && SamePeers(s, t)
    requires first in t.nodes && Has(t, first, h, b)
    requires Schedule(H, t, ds) && Unexpired(b, ds) && Final(H, t, ds).inFlight == []
    requires Path(s, p, from) && p[0] == first
    ensures Has(Final(H, t, ds), p[|p| - 1], h, b)
  {
    ScheduleSpreads(H, t, ds, h, b, blocks, from, first);
    SamePeersChain(s, t, Final(H, t, ds));
    EndHas(s, Final(H, t, ds), h, b, from, p);
  }

  lemma EndHas(s: Flood, u: Flood, h: History, b: Block, from: string, p: seq<string>)
    requires SamePeers(s, u) && Spreading(u, h, b, from) && u.inFlight == []
    requires Path(s, p, from) && Has(u, p[0], h, b)
    ensures Has(u, p[|p| - 1], h, b)
  {
    assert Path(u, p, from);
    PathHas(u, p, h, b, from, |p| - 1);
  }
}
