/** What a step of the join network can do to one node: start a join, change its id, add a peer, crash it. */
module Membership {
  import opened Bytes
  import opened Blocks
  import opened BlockChains
  import opened Histories
  import opened PuzzlesStates
  import opened JoinNetwork

  // ------------------------------------------------------------------ admission and joins

  /** The id is not the node's own and has a block in its table that has proof of work and has not expired. */
  predicate Admitted(H: BlockHash, n: Node, id: nat, now: int) {
    && id != n.myID && n.chain.Chain? && id in n.chain.blocks
    && HasProofOfWork(H, n.chain.blocks[id]) && now - n.chain.blocks[id].timestamp <= EXPIRATION
  }

  /** A packet starts a join: it is not admitted, the node has joined, and nothing is outstanding for the sender. */
  predicate StartsJoin(H: BlockHash, n: Node, id: nat, from: string, now: int) {
    !Admitted(H, n, id, now) && n.joined && n.chain.Chain? && from !in n.waiting
  }

  /** The effect of a gossip packet on the whole network. An admitted one has none; a join is started exactly under
      the condition above, by one proposal of the next id on the last block, which becomes outstanding. */
  lemma GossipStep(H: BlockHash, s: Net, at: string, from: string, id: nat)
    requires Running(s, at)
    ensures var n, t := s.nodes[at], Step(H, s, ReceiveGossip(at, from, id));
            && t.histories == s.histories && t.crashed == s.crashed && t.now == s.now
            && (!StartsJoin(H, n, id, from, s.now) ==> t.nodes == s.nodes && t.messages == s.messages)
            && (StartsJoin(H, n, id, from, s.now) ==>
                 var pp := Proposal(n.name, NextNodeID(H, n.chain, s.now), s.now, H(n.chain.last));
                 && t.nodes == s.nodes[at := n.(waiting := n.waiting[from := pp])]
                 && t.messages == s.messages + {Message(at, Packet(from, n.myID, PuzzleProposal(pp)), s.histories[at])})
  {
    var n := s.nodes[at];
    assert s.histories[at := s.histories[at]] == s.histories && s.nodes[at := n] == s.nodes;
    if StartsJoin(H, n, id, from, s.now) {
      var pp := Proposal(n.name, NextNodeID(H, n.chain, s.now), s.now, H(n.chain.last));
      OneStamp(at, Packet(from, n.myID, PuzzleProposal(pp)), s.histories[at]);
    } else {
      assert Stamp(at, [], s.histories[at]) == {};
    }
  }

  lemma OneStamp(from: string, p: Packet, h: History)
    ensures Stamp(from, [p], h) == {Message(from, p, h)}
  {
    assert p in [p];
  }

  /** m proposes a puzzle to the address j on behalf of node a. */
  predicate Proposes(m: Message, a: string, j: string) {
    m.from == a && m.packet.to == j && m.packet.payload.PuzzleProposal?
  }

  /** Nothing is outstanding at a for j, and nothing but the given messages proposes to it. */
  ghost predicate Undisturbed(s: Net, a: string, j: string, before: set<Message>) {
    && a in s.nodes && j !in s.nodes[a].waiting
    && forall m :: m in s.messages && Proposes(m, a, j) ==> m in before
  }

  /** If the event is a packet from j to a, it is admitted. */
  ghost predicate AdmittedOn(H: BlockHash, s: Net, e: Event, a: string, j: string) {
    e.ReceiveGossip? && e.at == a && e.from == j && Running(s, a) ==> Admitted(H, s.nodes[a], e.id, s.now)
  }

  lemma HandleNeverProposes(H: BlockHash, n: Node, payload: Payload, from: string, mined: Option<Block>, now: int)
    requires Handle(H, n, payload, from, mined, now).Done?
    ensures var out := Handle(H, n, payload, from, mined, now);
            && out.node.waiting.Keys <= n.waiting.Keys
            && forall p :: p in out.sent ==> !p.payload.PuzzleProposal?
  {
    SentPackets(H, n, payload, from, mined, now);
  }

  lemma ReceiveUndisturbed(H: BlockHash, s: Net, at: string, from: string, payload: Payload, snapshot: History,
                           mined: Option<Block>, a: string, j: string, before: set<Message>)
    requires Undisturbed(s, a, j, before)
    ensures Undisturbed(Receive(H, s, at, from, payload, snapshot, mined), a, j, before)
  {
    if Running(s, at) && Handle(H, s.nodes[at], payload, from, mined, s.now).Done? {
      HandleNeverProposes(H, s.nodes[at], payload, from, mined, s.now);
    }
  }

  lemma StepUndisturbed(H: BlockHash, s: Net, e: Event, a: string, j: string, before: set<Message>)
    requires Undisturbed(s, a, j, before) && AdmittedOn(H, s, e, a, j)
    ensures Undisturbed(Step(H, s, e), a, j, before)
  {
    match e
    case Tick(_) =>
    case ExpireJoining(_) =>
    case ReceiveGossip(at, from, id) =>
      if Running(s, at) {
        GossipStep(H, s, at, from, id);
      }
    case Deliver(m, mined) =>
      if m in s.messages {
        ReceiveUndisturbed(H, s, m.packet.to, m.from, m.packet.payload, m.history, mined, a, j, before);
      }
    case Forge(at, from, payload, mined) =>
      if !payload.BlockChainMessage? {
        ReceiveUndisturbed(H, s, at, from, payload, [], mined, a, j, before);
      }
  }

  lemma {:induction false} RunUndisturbed(H: BlockHash, s: Net, events: seq<Event>, a: string, j: string,
                                          before: set<Message>)
    requires Undisturbed(s, a, j, before)
    requires forall k :: 0 <= k < |events| ==> AdmittedOn(H, Run(H, s, events[..k]), events[k], a, j)
    ensures Undisturbed(Run(H, s, events), a, j, before)
  {
    if events != [] {
      var front, e := events[..|events| - 1], events[|events| - 1];
      forall k | 0 <= k < |front|
        ensures AdmittedOn(H, Run(H, s, front[..k]), front[k], a, j)
      {
        assert front[..k] == events[..k];
      }
      RunUndisturbed(H, s, front, a, j, before);
      StepUndisturbed(H, Run(H, s, front), e, a, j, before);
    }
  }

  /** An admitted neighbour is left in peace: in every run in which each packet from an address passes the admission
      test when it arrives, nothing ever becomes outstanding for the address and no puzzle is ever sent to it. */
  lemma AdmittedIsNeverProposedTo(H: BlockHash, s0: Net, events: seq<Event>, a: string, j: string)
    requires Init(H, s0) && a in s0.nodes
    requires forall k :: 0 <= k < |events| ==> AdmittedOn(H, Run(H, s0, events[..k]), events[k], a, j)
    ensures var s := Run(H, s0, events);
            a in s.nodes && j !in s.nodes[a].waiting && forall m :: m in s.messages ==> !Proposes(m, a, j)
  {
    assert InitialNode(H, s0.nodes[a], s0.histories[a], s0.now);
    RunUndisturbed(H, s0, events, a, j, {});
  }

  // ------------------------------------------------------------------------------- ids

  lemma StepKeepsId(H: BlockHash, s: Net, e: Event, a: string)
    requires a in s.nodes && s.nodes[a].joined && e != ExpireJoining(a)
    ensures var t := Step(H, s, e);
            a in t.nodes && t.nodes[a].joined && t.nodes[a].myID == s.nodes[a].myID
  {
  }

  /** A node stays joined, under the same id, until its membership expires, whatever it is sent. */
  lemma {:induction false} JoinedKeepsId(H: BlockHash, s: Net, events: seq<Event>, a: string)
    requires a in s.nodes && s.nodes[a].joined
    requires forall k :: 0 <= k < |events| ==> events[k] != ExpireJoining(a)
    ensures var t := Run(H, s, events);
            a in t.nodes && t.nodes[a].joined && t.nodes[a].myID == s.nodes[a].myID
  {
    if events != [] {
      var front := events[..|events| - 1];
      JoinedKeepsId(H, s, front, a);
      StepKeepsId(H, Run(H, s, front), events[|events| - 1], a);
    }
  }

  // -------------------------------------------------------------------------- arrivals

  /** A payload that the event brings to a running node, and the address it comes from. */
  datatype Arrival = Arrival(payload: Payload, from: string)

  function ArrivesAt(s: Net, e: Event, a: string): Option<Arrival> {
    if !Running(s, a) then None
    else match e
      case Deliver(m, _) => if m in s.messages && m.packet.to == a then Some(Arrival(m.packet.payload, m.from)) else None
      case Forge(at, from, payload, _) => if at == a && !payload.BlockChainMessage? then Some(Arrival(payload, from)) else None
      case _ => None
  }

  predicate Fresh(H: BlockHash, b: Block, now: int) {
    now - b.timestamp <= EXPIRATION && HasProofOfWork(H, b)
  }

  /** What makes a node panic: an answer to its proposal without a block; a valid block while it has no chain, be it
      in such an answer or broadcast; a snapshot that fails the check while it has not joined. */
  ghost predicate Fatal(H: BlockHash, n: Node, x: Arrival, now: int) {
    match x.payload
    case PuzzleProposal(_) => false
    case PuzzleResponse(_, destination, created) =>
      && x.from in n.waiting && destination == n.name
      && (created.None? || (&& created.value.nodeID == n.waiting[x.from].nodeID
                            && created.value.timestamp == n.waiting[x.from].timestamp
                            && n.chain.Empty? && Fresh(H, created.value, now)))
    case BlockBroadcast(_, b) => n.chain.Empty? && Fresh(H, b, now)
    case BlockChainMessage(c) =>
      !n.joined && c.Chain? && !forall id :: id in c.order ==> id in c.blocks && Fresh(H, c.blocks[id], now)
  }

  lemma OutcomePanicsIff(H: BlockHash, n: Node, payload: Payload, from: string, mined: Option<Block>, now: int)
    ensures Handle(H, n, payload, from, mined, now).Panic? <==> Fatal(H, n, Arrival(payload, from), now)
  {
  }

  /** A node crashes in a step exactly if a fatal payload arrives at it. */
  lemma StepCrashesIff(H: BlockHash, s: Net, e: Event, a: string)
    requires Running(s, a)
    ensures a in Step(H, s, e).crashed <==>
            ArrivesAt(s, e, a).Some? && Fatal(H, s.nodes[a], ArrivesAt(s, e, a).value, s.now)
  {
    match e
    case Tick(_) =>
    case ExpireJoining(_) =>
    case ReceiveGossip(at, from, id) =>
      if Running(s, at) {
        GossipStep(H, s, at, from, id);
      }
    case Deliver(m, mined) =>
      if Running(s, m.packet.to) {
        OutcomePanicsIff(H, s.nodes[m.packet.to], m.packet.payload, m.from, mined, s.now);
      }
    case Forge(at, from, payload, mined) =>
      if Running(s, at) {
        OutcomePanicsIff(H, s.nodes[at], payload, from, mined, s.now);
      }
  }

  // ----------------------------------------------------------------------------- peers

  /** A peer list without two entries of one address. */
  ghost predicate OncePerAddress(peers: seq<Gossiper>) {
    forall i, j :: 0 <= i < j < |peers| ==> peers[i].address != peers[j].address
  }

  lemma WithGossiperAdds(peers: seq<Gossiper>, address: string, identifier: string)
    ensures var ps := WithGossiper(peers, address, identifier);
            && peers <= ps && Knows(ps, address)
            && (forall x :: Knows(ps, x) <==> Knows(peers, x) || x == address)
            && (forall g :: g in ps ==> g in peers || g == Gossiper(address, identifier))
            && (OncePerAddress(peers) ==> OncePerAddress(ps))
  {
    var ps := WithGossiper(peers, address, identifier);
    if !Knows(peers, address) {
      assert ps[|peers|].address == address;
    }
    forall x | Knows(peers, x)
      ensures Knows(ps, x)
    {
      var k :| 0 <= k < |peers| && peers[k].address == x;
      assert ps[k].address == x;
    }
  }

  /** Which arrivals make the sender a peer: a proposal while the node has not joined, and an accepted solution. */
  ghost predicate Befriends(H: BlockHash, n: Node, x: Arrival, now: int) {
    || (x.payload.PuzzleProposal? && !n.joined)
    || (x.payload.PuzzleResponse? && AcceptedBlock(H, n, x.payload, x.from, now).Some?)
  }

  /** The name under which the sender of a proposal or a response presents itself. */
  function NameIn(payload: Payload): string {
    match payload
    case PuzzleProposal(pp) => pp.origin
    case PuzzleResponse(origin, _, _) => origin
    case _ => ""
  }

  /** Every packet a node sends carries the id it then has. */
  lemma PacketsCarryOwnId(H: BlockHash, n: Node, payload: Payload, from: string, mined: Option<Block>, now: int)
    requires Handle(H, n, payload, from, mined, now).Done?
    ensures var out := Handle(H, n, payload, from, mined, now);
            forall p :: p in out.sent ==> p.nodeID == out.node.myID
  {
    match payload
    case PuzzleResponse(_, _, created) =>
      if created.Some? {
        var n' := Handle(H, n, payload, from, mined, now).node;
        BlockPacketsCarryId(n', n'.peers, created.value, from);
      }
    case BlockBroadcast(_, b) =>
      var n' := Handle(H, n, payload, from, mined, now).node;
      BlockPacketsCarryId(n', n'.peers, b, from);
    case _ =>
  }

  lemma {:induction false} BlockPacketsCarryId(n: Node, peers: seq<Gossiper>, b: Block, from: string)
    ensures forall p :: p in BlockPackets(n, peers, b, from) ==> p.nodeID == n.myID
  {
    if peers != [] {
      BlockPacketsCarryId(n, peers[..|peers| - 1], b, from);
    }
  }

  /** A node never forgets a peer, never lists one twice, and gets a new one exactly by such an arrival. */
  lemma HandlePeers(H: BlockHash, n: Node, payload: Payload, from: string, mined: Option<Block>, now: int)
    requires Handle(H, n, payload, from, mined, now).Done?
    ensures var n' := Handle(H, n, payload, from, mined, now).node;
            && n.peers <= n'.peers && (OncePerAddress(n.peers) ==> OncePerAddress(n'.peers))
            && (forall x :: Knows(n'.peers, x) <==>
                  Knows(n.peers, x) || (x == from && Befriends(H, n, Arrival(payload, from), now)))
            && (forall g :: g in n'.peers ==> g in n.peers || g == Gossiper(from, NameIn(payload)))
  {
    match payload
    case PuzzleProposal(pp) => WithGossiperAdds(n.peers, from, pp.origin);
    case PuzzleResponse(origin, _, _) => WithGossiperAdds(n.peers, from, origin);
    case _ =>
  }
}
