/** Runs in which every message comes from a node following the protocol: each node's chain is then an
    honest history, so recycling, pruning and the cost of identities apply to it. */
module HonestRuns {
  import opened Bytes
  import opened Blocks
  import opened BlockChains
  import opened Histories
  import opened Recycling
  import opened Pruning
  import opened PuzzlesStates
  import opened JoinNetwork

  /** Nothing is forged, and mining returns nothing or a solution. */
  ghost predicate HonestEvent(H: BlockHash, e: Event) {
    && !e.Forge?
    && (e.Deliver? && e.message.packet.payload.PuzzleProposal? && e.mined.Some? ==>
         Answers(H, e.message.packet.payload.proposal, e.mined.value))
  }

  ghost predicate HonestSoFar(H: BlockHash, h: History, now: int) {
    h != [] ==> Honest(H, h) && Last(h).timestamp <= now
  }

  /** q is a proposal whose puzzle b solves. */
  ghost predicate Solves(H: BlockHash, q: Message, b: Block) {
    q.packet.payload.PuzzleProposal? && Answers(H, q.packet.payload.proposal, b)
  }

  ghost predicate MessageHonest(H: BlockHash, m: Message, messages: set<Message>, now: int) {
    && HonestSoFar(H, m.history, now)
    && (m.packet.payload.PuzzleProposal? && m.history != [] ==>
         Last(m.history).timestamp <= m.packet.payload.proposal.timestamp)
    && (m.packet.payload.PuzzleResponse? && m.packet.payload.createdBlock.Some? ==>
         exists q :: q in messages && Solves(H, q, m.packet.payload.createdBlock.value))
  }

  ghost predicate HonestInvariant(H: BlockHash, s: Net) {
    && Invariant(H, s)
    && (forall a :: a in s.histories ==> HonestSoFar(H, s.histories[a], s.now))
    && (forall m :: m in s.messages ==> MessageHonest(H, m, s.messages, s.now))
  }

  lemma InitHonest(H: BlockHash, s: Net)
    requires Init(H, s)
    ensures HonestInvariant(H, s)
  {
    InitInvariant(H, s);
    forall a | a in s.histories
      ensures HonestSoFar(H, s.histories[a], s.now)
    {
      assert InitialNode(H, s.nodes[a], s.histories[a], s.now);
      var h := s.histories[a];
      if h != [] {
        assert h[..0] == [];
        NextWithin(H, Empty, 0, h[0].timestamp);
        assert CarriesNextID(H, h, 0);
      }
    }
  }

  /** A solution of a proposal, accepted by any node, extends exactly the history it was proposed on. */
  lemma AcceptedSolution(H: BlockHash, h: History, c: Chain, b: Block, q: Message, messages: set<Message>,
                         blocks: set<Block>, now: int)
    requires Sound(H, h, c, blocks) && AddVerdict(H, c, b, now) == Accepted
    requires MessageSound(H, q, blocks, now) && MessageHonest(H, q, messages, now)
    requires Solves(H, q, b) && CollisionFree(H, blocks)
    ensures h == q.history && HonestSoFar(H, h + [b], now)
  {
    LastHashDeterminesHistory(H, blocks, h, q.history);
    assert AddVerdict(H, c, b, now) == Accepted ==> b.previousHash == H(Last(h));
    HonestSnoc(H, h, b);
  }

  /** A broadcast block, accepted by any node, gives it the broadcaster's history. */
  lemma AcceptedBroadcast(H: BlockHash, h: History, c: Chain, m: Message, blocks: set<Block>, now: int)
    requires Sound(H, h, c, blocks) && MessageSound(H, m, blocks, now) && CollisionFree(H, blocks)
    requires m.packet.payload.BlockBroadcast? && AddVerdict(H, c, m.packet.payload.newBlock, now) == Accepted
    ensures h + [m.packet.payload.newBlock] == m.history
  {
    var b, n := m.packet.payload.newBlock, |m.history| - 1;
    PreviousHashLength(H, m.history, n);
    assert |b.previousHash| == 32;
    var p := m.history[..n];
    assert m.history == p + [b];
    LinkedPrefix(H, m.history, n);
    assert b.previousHash == H(Last(p));
    LastHashDeterminesHistory(H, blocks, h, p);
  }

  lemma SolutionExtendsHonest(H: BlockHash, s: Net, m: Message, b: Block)
    requires HonestInvariant(H, s) && m in s.messages && Running(s, m.packet.to) && CollisionFree(H, s.blocks)
    requires m.packet.payload.PuzzleResponse? && m.packet.payload.createdBlock == Some(b)
    requires AddVerdict(H, s.nodes[m.packet.to].chain, b, s.now) == Accepted
    ensures HonestSoFar(H, s.histories[m.packet.to] + [b], s.now)
  {
    var at := m.packet.to;
    assert NodeSound(H, s, at) && MessageHonest(H, m, s.messages, s.now);
    var q :| q in s.messages && Solves(H, q, b);
    assert MessageSound(H, q, s.blocks, s.now) && MessageHonest(H, q, s.messages, s.now);
    AcceptedSolution(H, s.histories[at], s.nodes[at].chain, b, q, s.messages, s.blocks, s.now);
  }

  /** The history a node has after handling an honest message is honest. */
  lemma HandledHistoryHonest(H: BlockHash, s: Net, m: Message)
    requires HonestInvariant(H, s) && m in s.messages && Running(s, m.packet.to) && CollisionFree(H, s.blocks)
    ensures var at := m.packet.to;
            HonestSoFar(H, HistoryAfter(H, s.nodes[at], s.histories[at], m.packet.payload, m.from, m.history, s.now), s.now)
  {
    var at, payload := m.packet.to, m.packet.payload;
    var n, h := s.nodes[at], s.histories[at];
    assert NodeSound(H, s, at) && HonestSoFar(H, h, s.now);
    assert MessageSound(H, m, s.blocks, s.now) && MessageHonest(H, m, s.messages, s.now);
    match payload {
      case PuzzleResponse(_, _, created) =>
        if AcceptedBlock(H, n, payload, m.from, s.now).Some? {
          SolutionExtendsHonest(H, s, m, created.value);
        }
      case BlockBroadcast(_, b) =>
        if AcceptedBlock(H, n, payload, m.from, s.now).Some? {
          AcceptedBroadcast(H, h, n.chain, m, s.blocks, s.now);
        }
      case BlockChainMessage(_) =>
      case PuzzleProposal(_) =>
    }
  }

  lemma MessageStaysHonest(H: BlockHash, m: Message, messages: set<Message>, now: int, more: set<Message>, later: int)
    requires MessageHonest(H, m, messages, now) && messages <= more && now <= later
    ensures MessageHonest(H, m, more, later)
  {
  }

  lemma ApplyKeepsHonest(H: BlockHash, s: Net, at: string, out: Outcome, h: History)
    requires HonestInvariant(H, s) && Running(s, at) && Invariant(H, Apply(s, at, out, h))
    requires out.Done? ==> HonestSoFar(H, h, s.now)
    requires out.Done? ==> forall p :: p in out.sent ==> MessageHonest(H, Message(at, p, h), s.messages, s.now)
    ensures HonestInvariant(H, Apply(s, at, out, h))
  {
    var s' := Apply(s, at, out, h);
    forall m | m in s'.messages
      ensures MessageHonest(H, m, s'.messages, s'.now)
    {
      MessageStaysHonest(H, m, s.messages, s.now, s'.messages, s'.now);
    }
  }

  /** What a node sends when it handles an honest message is honest. */
  lemma SentIsHonest(H: BlockHash, s: Net, m: Message, mined: Option<Block>, h: History)
    requires HonestInvariant(H, s) && m in s.messages && Running(s, m.packet.to)
    requires HonestEvent(H, Deliver(m, mined)) && HonestSoFar(H, h, s.now)
    ensures var out := Handle(H, s.nodes[m.packet.to], m.packet.payload, m.from, mined, s.now);
            out.Done? ==> forall p :: p in out.sent ==> MessageHonest(H, Message(m.packet.to, p, h), s.messages, s.now)
  {
    var out := Handle(H, s.nodes[m.packet.to], m.packet.payload, m.from, mined, s.now);
    if out.Done? {
      forall p | p in out.sent
        ensures MessageHonest(H, Message(m.packet.to, p, h), s.messages, s.now)
      {
        if p.payload.PuzzleResponse? && p.payload.createdBlock.Some? {
          assert m.packet.payload.PuzzleProposal?;
          assert Solves(H, m, p.payload.createdBlock.value);
        }
      }
    }
  }

  lemma LaterStaysHonest(H: BlockHash, s: Net, later: int)
    requires HonestInvariant(H, s) && s.now <= later && Invariant(H, s.(now := later))
    ensures HonestInvariant(H, s.(now := later))
  {
    forall m | m in s.messages
      ensures MessageHonest(H, m, s.messages, later)
    {
      MessageStaysHonest(H, m, s.messages, s.now, s.messages, later);
    }
    assert forall a :: a in s.histories ==> HonestSoFar(H, s.histories[a], s.now);
  }

  lemma DeliveryKeepsHonest(H: BlockHash, s: Net, m: Message, mined: Option<Block>)
    requires HonestInvariant(H, s) && HonestEvent(H, Deliver(m, mined)) && CollisionFree(H, s.blocks)
    requires m in s.messages && Running(s, m.packet.to) && Invariant(H, Step(H, s, Deliver(m, mined)))
    ensures HonestInvariant(H, Step(H, s, Deliver(m, mined)))
  {
    var at := m.packet.to;
    var h := HistoryAfter(H, s.nodes[at], s.histories[at], m.packet.payload, m.from, m.history, s.now);
    HandledHistoryHonest(H, s, m);
    SentIsHonest(H, s, m, mined, h);
    ApplyKeepsHonest(H, s, at, Handle(H, s.nodes[at], m.packet.payload, m.from, mined, s.now), h);
  }

  lemma StepKeepsHonest(H: BlockHash, s: Net, e: Event)
    requires HonestInvariant(H, s) && HonestEvent(H, e) && CollisionFree(H, s.blocks)
    ensures HonestInvariant(H, Step(H, s, e))
  {
    StepKeepsInvariant(H, s, e);
    var s' := Step(H, s, e);
    match e
    case Tick(_) => LaterStaysHonest(H, s, s'.now);
    case ExpireJoining(_) =>
    case ReceiveGossip(at, from, id) =>
      if Running(s, at) {
        assert HonestSoFar(H, s.histories[at], s.now) && NodeSound(H, s, at);
        ApplyKeepsHonest(H, s, at, OnGossip(H, s.nodes[at], id, from, s.now), s.histories[at]);
      }
    case Deliver(m, mined) =>
      if m in s.messages && Running(s, m.packet.to) {
        DeliveryKeepsHonest(H, s, m, mined);
      }
  }

  lemma {:induction false} RunKeepsHonest(H: BlockHash, s: Net, events: seq<Event>)
    requires HonestInvariant(H, s) && CollisionFree(H, Run(H, s, events).blocks)
    requires forall k :: 0 <= k < |events| ==> HonestEvent(H, events[k])
    ensures HonestInvariant(H, Run(H, s, events))
  {
    if events != [] {
      var front, e := events[..|events| - 1], events[|events| - 1];
      assert events == front + [e];
      RunConcat(H, s, front, [e]);
      RunGrows(H, Run(H, s, front), [e]);
      RunKeepsHonest(H, s, front);
      StepKeepsHonest(H, Run(H, s, front), e);
    }
  }

  /** In every reachable state of an honest run, every chain is the chain of an honest history. */
  lemma HonestRun(H: BlockHash, s0: Net, events: seq<Event>, a: string)
    requires Init(H, s0) && forall k :: 0 <= k < |events| ==> HonestEvent(H, events[k])
    requires var s := Run(H, s0, events);
             CollisionFree(H, s.blocks) && a in s.nodes && s.nodes[a].chain.Chain?
    ensures var s := Run(H, s0, events);
            && a in s.histories && s.nodes[a].chain == ChainOf(s.histories[a])
            && Honest(H, s.histories[a]) && Last(s.histories[a]).timestamp <= s.now
  {
    InitHonest(H, s0);
    RunKeepsHonest(H, s0, events);
    var s := Run(H, s0, events);
    assert NodeSound(H, s, a) && HonestSoFar(H, s.histories[a], s.now);
  }

  /** Ids in use at a node of an honest run: exactly 1..m, where m is the greatest number of its
      accepted blocks that are valid at one instant. */
  lemma NodeIdsEqualPeakOverlap(H: BlockHash, s0: Net, events: seq<Event>, a: string)
    requires Init(H, s0) && forall k :: 0 <= k < |events| ==> HonestEvent(H, events[k])
    requires var s := Run(H, s0, events);
             CollisionFree(H, s.blocks) && a in s.nodes && s.nodes[a].chain.Chain?
    ensures var s := Run(H, s0, events);
            var m := |s.nodes[a].chain.blocks|;
            && a in s.histories
            && (forall id :: id in s.nodes[a].chain.blocks <==> 1 <= id <= m)
            && (forall t :: |Covering(s.histories[a], t)| <= m)
            && (exists t :: |Covering(s.histories[a], t)| == m)
  {
    HonestRun(H, s0, events, a);
    IdsEqualPeakOverlap(H, Run(H, s0, events).histories[a]);
  }

  /** Pruning a node's chain in any run, forging included: when the result passes the check as designed. */
  lemma AnyNodeChainPrunesIff(H: BlockHash, s0: Net, events: seq<Event>, a: string)
    requires Init(H, s0)
    requires var s := Run(H, s0, events);
             CollisionFree(H, s.blocks) && a in s.nodes && s.nodes[a].chain.Chain?
    ensures var s := Run(H, s0, events);
            var c := s.nodes[a].chain;
            && WellFormed(c) && a in s.histories && s.histories[a] != [] && c == ChainOf(s.histories[a])
            && (Prune(c, s.now).Some? ==>
                 (IntendedIntegrity(H, Prune(c, s.now).value, s.now) <==>
                  LiveTail(s.histories[a], s.now, FirstKept(Prune(c, s.now).value, s.histories[a]))))
  {
    ReachableSound(H, s0, events);
    var s := Run(H, s0, events);
    assert NodeSound(H, s, a);
    PrunedPassesIff(H, s.blocks, s.histories[a], s.now);
  }

  /** Pruning a node's chain in an honest run: it panics exactly when the last block has expired, and
      otherwise leaves the chain of a contiguous suffix of its history, valid and linked throughout. */
  lemma NodeChainPrunes(H: BlockHash, s0: Net, events: seq<Event>, a: string)
    requires Init(H, s0) && forall k :: 0 <= k < |events| ==> HonestEvent(H, events[k])
    requires var s := Run(H, s0, events);
             CollisionFree(H, s.blocks) && a in s.nodes && s.nodes[a].chain.Chain?
    ensures var s := Run(H, s0, events);
            var c := s.nodes[a].chain;
            && WellFormed(c) && a in s.histories
            && (Prune(c, s.now).None? <==> Expired(c.last, s.now))
            && (Prune(c, s.now).Some? ==>
                && Prune(c, s.now).value == ChainOf(s.histories[a][FirstLive(s.histories[a], s.now)..])
                && IntendedIntegrity(H, Prune(c, s.now).value, s.now))
  {
    HonestRun(H, s0, events, a);
    var s := Run(H, s0, events);
    var h := s.histories[a];
    PrunedIsSuffix(H, h, s.now);
    if !Expired(Last(h), s.now) {
      PrunedPassesIntegrity(H, h, s.now);
    }
  }
}
