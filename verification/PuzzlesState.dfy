/** The join protocol at one node: proposals, responses, block broadcasts and chain snapshots. */
module PuzzlesStates {
  import opened Bytes
  import opened Blocks
  import opened BlockChains

  datatype Proposal = Proposal(origin: string, nodeID: nat, timestamp: int, previousHash: seq<byte>)

  datatype Payload =
    | PuzzleProposal(proposal: Proposal)
    | PuzzleResponse(origin: string, destination: string, createdBlock: Option<Block>)
    | BlockBroadcast(sender: string, newBlock: Block)
    | BlockChainMessage(chain: Chain)

  datatype Packet = Packet(to: string, nodeID: nat, payload: Payload)

  datatype Gossiper = Gossiper(address: string, identifier: string)

  /** One node's state. */
  datatype Node = Node(
    name: string,
    myID: nat,
    joined: bool,
    chain: Chain,
    waiting: map<string, Proposal>,
    peers: seq<Gossiper>)

  /** What handling a message does: a new state and the packets sent, or the process panics. */
  datatype Outcome = Done(node: Node, sent: seq<Packet>) | Panic

  // ------------------------------------------------------------- specification

  predicate Knows(peers: seq<Gossiper>, address: string) {
    exists k :: 0 <= k < |peers| && peers[k].address == address
  }

  function WithGossiper(peers: seq<Gossiper>, address: string, identifier: string): seq<Gossiper> {
    if Knows(peers, address) then peers else peers + [Gossiper(address, identifier)]
  }

  /** One copy of the block for every peer but the one it came from. */
  function BlockPackets(n: Node, peers: seq<Gossiper>, b: Block, from: string): (s: seq<Packet>)
    ensures |s| <= |peers|
    ensures forall p :: p in s ==> p.to != from && p.payload == BlockBroadcast(n.name, b)
  {
    if peers == [] then []
    else
      var rest := BlockPackets(n, peers[..|peers| - 1], b, from);
      var last := peers[|peers| - 1];
      if last.address == from then rest else rest + [Packet(last.address, n.myID, BlockBroadcast(n.name, b))]
  }

  /** b is a solution of the puzzle pp. */
  ghost predicate Answers(H: BlockHash, pp: Proposal, b: Block) {
    && b.nodeID == pp.nodeID && b.timestamp == pp.timestamp && b.previousHash == pp.previousHash
    && HasProofOfWork(H, b)
  }

  /** The destinations of some packets, and the addresses of some peers. */
  function Destinations(packets: seq<Packet>): (r: seq<string>)
    ensures |r| == |packets| && forall k :: 0 <= k < |r| ==> r[k] == packets[k].to
  {
    seq(|packets|, k requires 0 <= k < |packets| => packets[k].to)
  }

  function Addresses(peers: seq<Gossiper>): (r: seq<string>)
    ensures |r| == |peers| && forall k :: 0 <= k < |r| ==> r[k] == peers[k].address
  {
    seq(|peers|, k requires 0 <= k < |peers| => peers[k].address)
  }

  /** These packets carry the block to every listed peer but the one at `from`, once for each time it is listed,
      and to nobody else. */
  ghost predicate ReachesAllBut(sent: seq<Packet>, peers: seq<Gossiper>, b: Block, from: string) {
    && multiset(Destinations(sent)) == multiset(Addresses(peers))[from := 0]
    && (forall p :: p in sent ==> p.payload.BlockBroadcast? && p.payload.newBlock == b)
  }

  lemma DestinationsSnoc(s: seq<Packet>, p: Packet)
    ensures Destinations(s + [p]) == Destinations(s) + [p.to]
  {
  }

  lemma AddressesSnoc(peers: seq<Gossiper>, g: Gossiper)
    ensures Addresses(peers + [g]) == Addresses(peers) + [g.address]
  {
  }

  lemma AppendedPackets(before: seq<Packet>, more: seq<Packet>, after: seq<Packet>)
    requires after == before + more
    ensures after[|before|..] == more
  {
  }

  lemma WithoutOneSnoc(s: seq<string>, x: string, from: string)
    ensures multiset(s + [x])[from := 0] == if x == from then multiset(s)[from := 0] else multiset(s)[from := 0] + multiset{x}
  {
  }

  /** A block passed on reaches every peer but its sender. */
  lemma {:induction false} BlockReachesPeers(n: Node, peers: seq<Gossiper>, b: Block, from: string)
    ensures ReachesAllBut(BlockPackets(n, peers, b, from), peers, b, from)
  {
    if peers != [] {
      var front, last := peers[..|peers| - 1], peers[|peers| - 1];
      assert peers == front + [last];
      BlockReachesPeers(n, front, b, from);
      AddressesSnoc(front, last);
      WithoutOneSnoc(Addresses(front), last.address, from);
      DestinationsSnoc(BlockPackets(n, front, b, from), Packet(last.address, n.myID, BlockBroadcast(n.name, b)));
    } else {
      assert Destinations(BlockPackets(n, peers, b, from)) == [] && Addresses(peers) == [];
    }
  }

  /** After `before`, the block was sent to every peer but the joiner, and then the last packet to the joiner. */
  ghost predicate Welcomed(before: seq<Packet>, after: seq<Packet>, peers: seq<Gossiper>, b: Block, last: Packet) {
    exists packets: seq<Packet> :: after == before + (packets + [last]) && ReachesAllBut(packets, peers, b, last.to)
  }

  lemma WelcomePackets(n: Node, before: seq<Packet>, peers: seq<Gossiper>, b: Block, last: Packet)
    ensures Welcomed(before, before + (BlockPackets(n, peers, b, last.to) + [last]), peers, b, last)
  {
    BlockReachesPeers(n, peers, b, last.to);
  }

  /** A node that has not joined mines the proposed block and takes the proposed id;
      `mined` is what mining returned, None after a timeout. */
  function OnProposal(n: Node, pp: Proposal, from: string, mined: Option<Block>): Outcome {
    if n.joined then Done(n, [])
    else
      var n' := n.(myID := pp.nodeID, peers := WithGossiper(n.peers, from, pp.origin));
      Done(n', [Packet(from, n'.myID, PuzzleResponse(n.name, pp.origin, mined))])
  }

  function OnResponse(H: BlockHash, n: Node, origin: string, destination: string, created: Option<Block>,
                      from: string, now: int): Outcome {
    if from !in n.waiting || destination != n.name then Done(n, [])
    else if created.None? then Panic
    else
      var pp, b := n.waiting[from], created.value;
      if b.nodeID != pp.nodeID || b.timestamp != pp.timestamp then Done(n, [])
      else match AddVerdict(H, n.chain, b, now)
        case Panicked => Panic
        case Rejected => Done(n, [])
        case Accepted =>
          var n' := n.(chain := Append(n.chain, b), waiting := n.waiting - {from},
                       peers := WithGossiper(n.peers, from, origin));
          Done(n', BlockPackets(n', n'.peers, b, from) + [Packet(from, n.myID, BlockChainMessage(n'.chain))])
  }

  function OnBroadcast(H: BlockHash, n: Node, b: Block, from: string, now: int): Outcome {
    match AddVerdict(H, n.chain, b, now)
    case Panicked => Panic
    case Rejected => Done(n, [])
    case Accepted =>
      var n' := n.(chain := Append(n.chain, b));
      Done(n', BlockPackets(n', n'.peers, b, from))
  }

  function OnBlockChain(H: BlockHash, n: Node, c: Chain, now: int): Outcome {
    if n.joined then Done(n, [])
    else if CheckIntegrity(H, c, now) == Intact then Done(n.(chain := c, joined := true), [])
    else Panic
  }

  /** A proposal is made only by a joined node with a chain, and only one per address is outstanding. */
  function OnJoining(H: BlockHash, n: Node, joiner: string, now: int): Outcome {
    if n.chain.Empty? || !n.joined || joiner in n.waiting then Done(n, [])
    else
      var pp := Proposal(n.name, NextNodeID(H, n.chain, now), now, H(n.chain.last));
      Done(n.(waiting := n.waiting[joiner := pp]), [Packet(joiner, n.myID, PuzzleProposal(pp))])
  }

  /** The admission test that guards every other gossip packet: the sender's id must be another node's
      and have a valid block; a sender that fails it is handed to the join protocol. */
  predicate PassesAdmission(H: BlockHash, n: Node, id: nat, now: int) {
    id != n.myID && ContainsValidNodeID(H, n.chain, id, now)
  }

  function OnGossip(H: BlockHash, n: Node, id: nat, from: string, now: int): Outcome {
    if PassesAdmission(H, n, id, now) then Done(n, []) else OnJoining(H, n, from, now)
  }

  // --------------------------------------------------------------------- class

  /** Which id an address has been given. */
  datatype AddressMatch = AddressMatch(address: string, nodeID: nat)

  class PuzzlesState {
    const myName: string
    var myID: nat
    var joined: bool
    var localChain: BlockChain
    var waiting: map<string, Proposal>
    var peers: seq<Gossiper>
    /** Packets handed to the socket so far. */
    var sent: seq<Packet>
    /** What the neighbour checks have been told. */
    var matches: seq<AddressMatch>

    ghost predicate Valid()
      reads this, localChain
    {
      localChain.Valid()
    }

    ghost function View(): Node
      reads this, localChain
    {
      Node(myName, myID, joined, localChain.View(), waiting, peers)
    }

    constructor (name: string, id: nat, joined: bool, chain: BlockChain, peers: seq<Gossiper>)
      requires chain.Valid()
      ensures Valid() && localChain == chain && sent == [] && matches == []
      ensures View() == Node(name, id, joined, chain.View(), map[], peers)
    {
      myName, myID, this.joined, localChain := name, id, joined, chain;
      waiting, this.peers, sent, matches := map[], peers, [], [];
    }

    method Send(to: string, payload: Payload)
      modifies this`sent
      ensures sent == old(sent) + [Packet(to, myID, payload)]
    {
      sent := sent + [Packet(to, myID, payload)];
    }

    method AddNewGossiper(address: string, identifier: string)
      modifies this`peers
      ensures peers == WithGossiper(old(peers), address, identifier)
    {
      var i := 0;
      while i < |peers|
        invariant 0 <= i <= |peers|
        invariant forall k :: 0 <= k < i ==> peers[k].address != address
      {
        if peers[i].address == address {
          return;
        }
        i := i + 1;
      }
      peers := peers + [Gossiper(address, identifier)];
    }

    method BroadcastBlock(b: Block, from: string)
      modifies this`sent
      ensures sent == old(sent) + BlockPackets(View(), peers, b, from)
      ensures ReachesAllBut(sent[|old(sent)|..], peers, b, from)
    {
      var i := 0;
      while i < |peers|
        invariant 0 <= i <= |peers|
        invariant sent == old(sent) + BlockPackets(View(), peers[..i], b, from)
      {
        assert peers[..i + 1][..i] == peers[..i];
        if peers[i].address != from {
          Send(peers[i].address, BlockBroadcast(myName, b));
        }
        i := i + 1;
      }
      assert peers[..i] == peers;
      ghost var n := View();
      BlockReachesPeers(n, peers, b, from);
      AppendedPackets(old(sent), BlockPackets(n, peers, b, from), sent);
    }

    /** attempts, clock: as for mining. What is sent back is nothing, or a block that answers the proposal. */
    method HandlePuzzleProposal(H: BlockHash, pp: Proposal, from: string, pub: PublicKey, attempts: nat, clock: nat -> int)
      returns (mined: Option<Block>)
      requires Valid() && attempts >= 1
      requires forall i, j :: 0 <= i <= j < attempts ==> clock(i) <= clock(j)
      modifies this`myID, this`peers, this`sent
      ensures Valid() && old(sent) <= sent
      ensures Done(View(), sent[|old(sent)|..]) == OnProposal(old(View()), pp, from, mined)
      ensures mined.Some? ==> Answers(H, pp, mined.value) && mined.value.pubKey == pub
      ensures !joined ==>
                (mined.None? <==> forall w: seq<byte> :: |w| == 8 && FromLittleEndian(w) < attempts ==>
                   !IsValid(H, Block(pp.nodeID, pp.timestamp, pub, w, pp.previousHash), clock(FromLittleEndian(w))))
    {
      mined := None;
      if !joined {
        mined := MineBlock(H, pp.nodeID, pp.timestamp, pub, pp.previousHash, attempts, clock);
        myID := pp.nodeID;
        AddNewGossiper(from, pp.origin);
        Send(from, PuzzleResponse(myName, pp.origin, mined));
      }
    }

    method HandlePuzzleResponse(H: BlockHash, origin: string, destination: string, created: Option<Block>,
                                from: string, now: int) returns (panicked: bool)
      requires Valid()
      modifies this, localChain
      ensures Valid() && localChain == old(localChain) && old(sent) <= sent
      ensures panicked <==> OnResponse(H, old(View()), origin, destination, created, from, now).Panic?
      ensures !panicked ==>
        Done(View(), sent[|old(sent)|..]) == OnResponse(H, old(View()), origin, destination, created, from, now)
      ensures var freed := from in old(waiting) && from !in waiting && created.Some?;
              matches == old(matches) + if freed then [AddressMatch(from, created.value.nodeID)] else []
      // on acceptance every other peer gets the block, and the joiner the chain
      ensures from in old(waiting) && from !in waiting && created.Some? ==>
                Welcomed(old(sent), sent, peers, created.value, Packet(from, myID, BlockChainMessage(localChain.View())))
    {
      if from in waiting && destination == myName {
        var pp := waiting[from];
        if created.None? {
          return true;
        }
        if created.value.nodeID == pp.nodeID && created.value.timestamp == pp.timestamp {
          var verdict := localChain.AddBlock(H, created.value, now);
          if verdict == Panicked {
            return true;
          }
          if verdict == Accepted {
            WelcomeJoiner(created.value, origin, from);
          }
        }
      }
      return false;
    }

    /** After the joiner's block has been added. */
    method WelcomeJoiner(b: Block, origin: string, from: string)
      requires Valid()
      modifies this`waiting, this`peers, this`sent, this`matches
      ensures waiting == old(waiting) - {from}
      ensures matches == old(matches) + [AddressMatch(from, b.nodeID)]
      ensures peers == WithGossiper(old(peers), from, origin)
      ensures Welcomed(old(sent), sent, peers, b, Packet(from, myID, BlockChainMessage(localChain.View())))
      ensures sent == old(sent) + (BlockPackets(View(), peers, b, from) +
                                   [Packet(from, myID, BlockChainMessage(localChain.View()))])
    {
      waiting := waiting - {from};
      AddNewGossiper(from, origin);
      matches := matches + [AddressMatch(from, b.nodeID)];
      ghost var n, before := View(), sent;
      BroadcastBlock(b, from);
      SendBlockChain(from);
      ghost var last := Packet(from, myID, BlockChainMessage(n.chain));
      assert sent == before + BlockPackets(n, peers, b, from) + [last] == before + (BlockPackets(n, peers, b, from) + [last]);
      WelcomePackets(n, before, peers, b, last);
    }

    method SendBlockChain(dest: string)
      requires Valid()
      modifies this`sent
      ensures sent == old(sent) + [Packet(dest, myID, BlockChainMessage(localChain.View()))]
    {
      var snapshot := localChain.Snapshot();
      Send(dest, BlockChainMessage(snapshot));
    }

    method HandleBlockBroadcast(H: BlockHash, b: Block, from: string, now: int) returns (panicked: bool)
      requires Valid()
      modifies this`sent, localChain
      ensures Valid() && localChain == old(localChain) && old(sent) <= sent
      ensures panicked <==> OnBroadcast(H, old(View()), b, from, now).Panic?
      ensures AddVerdict(H, old(View()).chain, b, now) == Accepted ==> ReachesAllBut(sent[|old(sent)|..], peers, b, from)
      ensures AddVerdict(H, old(View()).chain, b, now) != Accepted ==> sent == old(sent)
      ensures !panicked ==> Done(View(), sent[|old(sent)|..]) == OnBroadcast(H, old(View()), b, from, now)
    {
      var verdict := localChain.AddBlock(H, b, now);
      if verdict == Panicked {
        return true;
      }
      if verdict == Accepted {
        BroadcastBlock(b, from);
      }
      return false;
    }

    method HandleBlockChain(H: BlockHash, c: Chain, now: int) returns (panicked: bool)
      requires Valid()
      modifies this`joined, this`localChain
      ensures Valid() && (localChain == old(localChain) || fresh(localChain))
      ensures panicked <==> OnBlockChain(H, old(View()), c, now).Panic?
      ensures !panicked ==> Done(View(), []) == OnBlockChain(H, old(View()), c, now)
    {
      if !joined {
        var received := new BlockChain.Of(c);
        var integrity := received.IntegrityCheck(H, now);
        if integrity == Intact {
          localChain := received;
          joined := true;
        } else {
          return true;
        }
      }
      return false;
    }

    /** One tick of the expiration timer. */
    method ExpireJoining()
      requires Valid()
      modifies this`joined
      ensures Valid() && View() == old(View()).(joined := false)
    {
      joined := false;
    }

    method HandleJoining(H: BlockHash, joiner: string, now: int)
      requires Valid()
      modifies this`waiting, this`sent
      ensures Valid() && old(sent) <= sent
      ensures Done(View(), sent[|old(sent)|..]) == OnJoining(H, old(View()), joiner, now)
    {
      if localChain.lastBlock.Some? && joined {
        if joiner !in waiting {
          SendPuzzleProposal(H, joiner, now);
        }
      }
    }

    method SendPuzzleProposal(H: BlockHash, dest: string, now: int)
      requires Valid() && localChain.lastBlock.Some?
      modifies this`waiting, this`sent
      ensures var pp := Proposal(myName, NextNodeID(H, localChain.View(), now), now, H(localChain.View().last));
              waiting == old(waiting)[dest := pp] && sent == old(sent) + [Packet(dest, myID, PuzzleProposal(pp))]
    {
      var id := localChain.FindNextNodeID(H, now);
      var pp := Proposal(myName, id, now, H(localChain.lastBlock.value));
      waiting := waiting[dest := pp];
      Send(dest, PuzzleProposal(pp));
    }

    /** active: whether the sender is an active neighbour whose extra signature, if any, verifies. */
    method HandleGossipPacket(H: BlockHash, id: nat, from: string, active: bool, now: int) returns (allowed: bool)
      requires Valid()
      modifies this`waiting, this`sent
      ensures Valid() && old(sent) <= sent
      ensures allowed <==> active && PassesAdmission(H, old(View()), id, now)
      ensures Done(View(), sent[|old(sent)|..]) == OnGossip(H, old(View()), id, from, now)
    {
      var known := localChain.HasValidNodeID(H, id, now);
      if id != myID && known {
        return active;
      } else {
        HandleJoining(H, from, now);
        return false;
      }
    }
  }
}
