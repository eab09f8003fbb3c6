/** The join protocol as a network of nodes under any loss, reordering, duplication and forging of
    messages, except that chain snapshots come from real nodes. */
module JoinNetwork {
  import opened Bytes
  import opened Blocks
  import opened BlockChains
  import opened Histories
  import opened PuzzlesStates

  /** A message on the network, with the history its sender had accepted when sending it. Histories are
      bookkeeping for the proofs: no node's behaviour depends on one. */
  datatype Message = Message(from: string, packet: Packet, history: History)

  datatype Net = Net(
    nodes: map<string, Node>,         // by address
    histories: map<string, History>,  // blocks accepted by each node, as its current chain reflects them
    messages: set<Message>,           // everything ever sent: a message may arrive never, late or repeatedly
    blocks: set<Block>,               // every block any node has accepted
    crashed: set<string>,
    now: int)

  datatype Event =
    | Tick(time: int)
    | ExpireJoining(at: string)
    | ReceiveGossip(at: string, from: string, id: nat)
    | Deliver(message: Message, mined: Option<Block>)
    | Forge(at: string, from: string, payload: Payload, mined: Option<Block>)

  // -------------------------------------------------------------- transitions

  function Handle(H: BlockHash, n: Node, payload: Payload, from: string, mined: Option<Block>, now: int): Outcome {
    match payload
    case PuzzleProposal(pp) => OnProposal(n, pp, from, mined)
    case PuzzleResponse(origin, destination, created) => OnResponse(H, n, origin, destination, created, from, now)
    case BlockBroadcast(_, b) => OnBroadcast(H, n, b, from, now)
    case BlockChainMessage(c) => OnBlockChain(H, n, c, now)
  }

  /** The block the node accepts on this message, if it accepts one. */
  function AcceptedBlock(H: BlockHash, n: Node, payload: Payload, from: string, now: int): Option<Block> {
    match payload
    case PuzzleResponse(_, destination, Some(b)) =>
      if from in n.waiting && destination == n.name
         && b.nodeID == n.waiting[from].nodeID && b.timestamp == n.waiting[from].timestamp
         && AddVerdict(H, n.chain, b, now) == Accepted
      then Some(b) else None
    case BlockBroadcast(_, b) => if AddVerdict(H, n.chain, b, now) == Accepted then Some(b) else None
    case _ => None
  }

  /** The node replaces its chain by a snapshot. */
  predicate Adopts(n: Node, payload: Payload) {
    payload.BlockChainMessage? && !n.joined
  }

  function HistoryAfter(H: BlockHash, n: Node, h: History, payload: Payload, from: string, snapshot: History,
                        now: int): History {
    if Adopts(n, payload) then snapshot
    else match AcceptedBlock(H, n, payload, from, now)
      case Some(b) => h + [b]
      case None => h
  }

  lemma HandleEffect(H: BlockHash, n: Node, payload: Payload, from: string, mined: Option<Block>, now: int)
    requires Handle(H, n, payload, from, mined, now).Done?
    ensures var n' := Handle(H, n, payload, from, mined, now).node;
            && n'.name == n.name
            && match AcceptedBlock(H, n, payload, from, now)
               case Some(b) => AddVerdict(H, n.chain, b, now) == Accepted && n'.chain == Append(n.chain, b)
               case None => n'.chain == if Adopts(n, payload) then payload.chain else n.chain
  {
  }

  function Stamp(from: string, sent: seq<Packet>, h: History): set<Message> {
    set p | p in sent :: Message(from, p, h)
  }

  function Apply(s: Net, at: string, out: Outcome, h: History): Net {
    match out
    case Panic => s.(crashed := s.crashed + {at})
    case Done(n, sent) =>
      s.(nodes := s.nodes[at := n],
         histories := s.histories[at := h],
         messages := s.messages + Stamp(at, sent, h),
         blocks := s.blocks + (set b | b in h))
  }

  predicate Running(s: Net, at: string) {
    at in s.nodes && at in s.histories && at !in s.crashed
  }

  function Receive(H: BlockHash, s: Net, at: string, from: string, payload: Payload, snapshot: History,
                   mined: Option<Block>): Net {
    if !Running(s, at) then s
    else
      var n := s.nodes[at];
      Apply(s, at, Handle(H, n, payload, from, mined, s.now),
            HistoryAfter(H, n, s.histories[at], payload, from, snapshot, s.now))
  }

  function Step(H: BlockHash, s: Net, e: Event): Net {
    match e
    case Tick(time) => if time >= s.now then s.(now := time) else s
    case ExpireJoining(at) =>
      if !Running(s, at) then s else s.(nodes := s.nodes[at := s.nodes[at].(joined := false)])
    case ReceiveGossip(at, from, id) =>
      if !Running(s, at) then s else Apply(s, at, OnGossip(H, s.nodes[at], id, from, s.now), s.histories[at])
    case Deliver(m, mined) =>
      if m !in s.messages then s
      else Receive(H, s, m.packet.to, m.from, m.packet.payload, m.history, mined)
    case Forge(at, from, payload, mined) =>
      if payload.BlockChainMessage? then s else Receive(H, s, at, from, payload, [], mined)
  }

  function Run(H: BlockHash, s: Net, events: seq<Event>): Net {
    if events == [] then s else Step(H, Run(H, s, events[..|events| - 1]), events[|events| - 1])
  }

  lemma {:induction false} RunConcat(H: BlockHash, s: Net, es: seq<Event>, fs: seq<Event>)
    ensures Run(H, s, es + fs) == Run(H, Run(H, s, es), fs)
  {
    if fs == [] {
      assert es + fs == es;
    } else {
      assert (es + fs)[..|es + fs| - 1] == es + fs[..|fs| - 1];
      RunConcat(H, s, es, fs[..|fs| - 1]);
    }
  }

  // --------------------------------------------------------- what every run keeps

  /** A history and the chain that reflects it. */
  ghost predicate Sound(H: BlockHash, h: History, c: Chain, blocks: set<Block>) {
    && c == ChainOf(h)
    && (h != [] ==> Linked(H, h))
    && Within(h, blocks)
    && forall k :: 0 <= k < |h| ==> HasProofOfWork(H, h[k])
  }

  /** A proposal was made on the chain of the history it is stamped with. */
  ghost predicate ProposalSound(H: BlockHash, pp: Proposal, h: History, now: int) {
    && h != []
    && pp.previousHash == H(Last(h))
    && pp.nodeID == NextNodeID(H, ChainOf(h), pp.timestamp)
    && pp.timestamp <= now
  }

  ghost predicate MessageSound(H: BlockHash, m: Message, blocks: set<Block>, now: int) {
    && Sound(H, m.history, ChainOf(m.history), blocks)
    && match m.packet.payload
       case PuzzleProposal(pp) => ProposalSound(H, pp, m.history, now)
       case BlockBroadcast(_, b) => m.history != [] && b == Last(m.history)
       case BlockChainMessage(c) => m.history != [] && c == ChainOf(m.history)
       case PuzzleResponse(_, _, _) => true
  }

  ghost predicate NodeSound(H: BlockHash, s: Net, a: string)
    requires a in s.nodes && a in s.histories
  {
    Sound(H, s.histories[a], s.nodes[a].chain, s.blocks)
  }

  ghost predicate Invariant(H: BlockHash, s: Net) {
    && s.nodes.Keys == s.histories.Keys
    && (forall a :: a in s.nodes ==> NodeSound(H, s, a))
    && (forall m :: m in s.messages ==> MessageSound(H, m, s.blocks, s.now))
  }

  /** A node either starts its own chain with one mined genesis block of id 1, or has none. */
  ghost predicate InitialNode(H: BlockHash, n: Node, h: History, now: int) {
    && n.waiting == map[]
    && (h == [] ==> n.chain == Empty && !n.joined)
    && (h != [] ==>
         && |h| == 1 && n.chain == Genesis(h[0]) && n.joined
         && h[0].nodeID == 1 && h[0].previousHash == GenesisPreviousHash()
         && h[0].timestamp <= now && HasProofOfWork(H, h[0]))
  }

  ghost predicate Init(H: BlockHash, s: Net) {
    && s.nodes.Keys == s.histories.Keys
    && (forall a :: a in s.nodes ==> InitialNode(H, s.nodes[a], s.histories[a], s.now) && Within(s.histories[a], s.blocks))
    && s.messages == {} && s.crashed == {}
  }

  /** A net of one joined node with a chain of its own. */
  function Alone(a: string, g: Block, now: int): Net {
    Net(map[a := Node(a, 1, true, Genesis(g), map[], [])], map[a := [g]], {}, {g}, {}, now)
  }

  lemma InitInvariant(H: BlockHash, s: Net)
    requires Init(H, s)
    ensures Invariant(H, s)
  {
    forall a | a in s.nodes
      ensures NodeSound(H, s, a)
    {
      assert InitialNode(H, s.nodes[a], s.histories[a], s.now);
    }
  }

  lemma SoundGrows(H: BlockHash, h: History, c: Chain, b: Block, blocks: set<Block>, now: int)
    requires Sound(H, h, c, blocks) && AddVerdict(H, c, b, now) == Accepted
    ensures Sound(H, h + [b], Append(c, b), blocks + {b})
  {
    ChainOfSnoc(h, b);
  }

  lemma SoundMonotone(H: BlockHash, h: History, c: Chain, blocks: set<Block>, more: set<Block>)
    requires Sound(H, h, c, blocks) && blocks <= more
    ensures Sound(H, h, c, more)
  {
  }

  /** One outcome at one node, given the new history and that the packets sent are sound. */
  lemma ApplyKeepsInvariant(H: BlockHash, s: Net, at: string, out: Outcome, h: History)
    requires Invariant(H, s) && Running(s, at)
    requires out.Done? ==> Sound(H, h, out.node.chain, s.blocks + (set b | b in h))
    requires out.Done? ==> forall p :: p in out.sent ==>
             MessageSound(H, Message(at, p, h), s.blocks + (set b | b in h), s.now)
    ensures Invariant(H, Apply(s, at, out, h))
  {
    if out.Done? {
      var s' := Apply(s, at, out, h);
      forall a | a in s'.nodes
        ensures NodeSound(H, s', a)
      {
        if a != at {
          assert NodeSound(H, s, a);
          SoundMonotone(H, s.histories[a], s.nodes[a].chain, s.blocks, s'.blocks);
        }
      }
      forall m | m in s'.messages
        ensures MessageSound(H, m, s'.blocks, s'.now)
      {
        if m in s.messages {
          assert MessageSound(H, m, s.blocks, s.now);
          SoundMonotone(H, m.history, ChainOf(m.history), s.blocks, s'.blocks);
        }
      }
    } else {
      var s' := Apply(s, at, out, h);
      assert forall a :: a in s'.nodes ==> NodeSound(H, s, a) && NodeSound(H, s', a);
    }
  }

  lemma JoiningSound(H: BlockHash, at: string, n: Node, joiner: string, h: History, blocks: set<Block>, now: int)
    requires Sound(H, h, n.chain, blocks)
    ensures var out := OnJoining(H, n, joiner, now);
            && out.node.chain == n.chain
            && forall p :: p in out.sent ==> MessageSound(H, Message(at, p, h), blocks, now)
  {
  }

  /** The new history of a node that handles a message is sound. */
  lemma HistoryStaysSound(H: BlockHash, n: Node, h: History, payload: Payload, from: string,
                          snapshot: History, mined: Option<Block>, blocks: set<Block>, now: int)
    requires Sound(H, h, n.chain, blocks)
    requires Adopts(n, payload) ==> Sound(H, snapshot, payload.chain, blocks)
    requires Handle(H, n, payload, from, mined, now).Done?
    ensures var h' := HistoryAfter(H, n, h, payload, from, snapshot, now);
            && Sound(H, h', Handle(H, n, payload, from, mined, now).node.chain, blocks + (set b | b in h'))
            && (AcceptedBlock(H, n, payload, from, now).Some? ==> h' != [] && Last(h') == AcceptedBlock(H, n, payload, from, now).value)
  {
    HandleEffect(H, n, payload, from, mined, now);
    var h' := HistoryAfter(H, n, h, payload, from, snapshot, now);
    var blocks' := blocks + (set b | b in h');
    match AcceptedBlock(H, n, payload, from, now) {
      case Some(b) =>
        SoundGrows(H, h, n.chain, b, blocks, now);
        assert h'[|h|] == b;
        SoundMonotone(H, h', ChainOf(h'), blocks + {b}, blocks');
      case None =>
        SoundMonotone(H, h', ChainOf(h'), blocks, blocks');
    }
  }

  /** A handler sends broadcasts only of the block it has just accepted, and snapshots only of its new chain. */
  lemma SentPackets(H: BlockHash, n: Node, payload: Payload, from: string, mined: Option<Block>, now: int)
    requires Handle(H, n, payload, from, mined, now).Done?
    ensures var out := Handle(H, n, payload, from, mined, now);
            forall p :: p in out.sent ==>
              && !p.payload.PuzzleProposal?
              && (p.payload.BlockBroadcast? ==> AcceptedBlock(H, n, payload, from, now) == Some(p.payload.newBlock))
              && (p.payload.BlockChainMessage? ==> AcceptedBlock(H, n, payload, from, now).Some? && p.payload.chain == out.node.chain)
  {
  }

  /** So everything it sends is sound as well. */
  lemma HandleSound(H: BlockHash, at: string, n: Node, h: History, payload: Payload, from: string,
                    snapshot: History, mined: Option<Block>, blocks: set<Block>, now: int)
    requires Sound(H, h, n.chain, blocks)
    requires Adopts(n, payload) ==> Sound(H, snapshot, payload.chain, blocks)
    requires Handle(H, n, payload, from, mined, now).Done?
    ensures var out := Handle(H, n, payload, from, mined, now);
            var h' := HistoryAfter(H, n, h, payload, from, snapshot, now);
            var blocks' := blocks + (set b | b in h');
            && Sound(H, h', out.node.chain, blocks')
            && forall p :: p in out.sent ==> MessageSound(H, Message(at, p, h'), blocks', now)
  {
    HistoryStaysSound(H, n, h, payload, from, snapshot, mined, blocks, now);
    SentPackets(H, n, payload, from, mined, now);
  }

  lemma ReceiveKeepsInvariant(H: BlockHash, s: Net, at: string, from: string, payload: Payload, snapshot: History,
                              mined: Option<Block>)
    requires Invariant(H, s)
    requires payload.BlockChainMessage? ==> Sound(H, snapshot, payload.chain, s.blocks)
    ensures Invariant(H, Receive(H, s, at, from, payload, snapshot, mined))
  {
    if Running(s, at) {
      var n := s.nodes[at];
      assert NodeSound(H, s, at);
      var out := Handle(H, n, payload, from, mined, s.now);
      if out.Done? {
        HandleSound(H, at, n, s.histories[at], payload, from, snapshot, mined, s.blocks, s.now);
      }
      ApplyKeepsInvariant(H, s, at, out, HistoryAfter(H, n, s.histories[at], payload, from, snapshot, s.now));
    }
  }

  lemma StepKeepsInvariant(H: BlockHash, s: Net, e: Event)
    requires Invariant(H, s)
    ensures Invariant(H, Step(H, s, e))
  {
    match e
    case Tick(_) =>
      var s' := Step(H, s, e);
      assert forall a :: a in s'.nodes ==> NodeSound(H, s, a) && NodeSound(H, s', a);
      assert forall m :: m in s'.messages ==> MessageSound(H, m, s.blocks, s.now);
    case ExpireJoining(at) =>
      var s' := Step(H, s, e);
      assert forall a :: a in s'.nodes ==> NodeSound(H, s, a) && NodeSound(H, s', a);
    case ReceiveGossip(at, from, id) =>
      if Running(s, at) {
        assert NodeSound(H, s, at);
        var h := s.histories[at];
        var blocks' := s.blocks + (set b | b in h);
        SoundMonotone(H, h, s.nodes[at].chain, s.blocks, blocks');
        JoiningSound(H, at, s.nodes[at], from, h, blocks', s.now);
        ApplyKeepsInvariant(H, s, at, OnGossip(H, s.nodes[at], id, from, s.now), h);
      }
    case Deliver(m, mined) =>
      if m in s.messages {
        assert MessageSound(H, m, s.blocks, s.now);
        ReceiveKeepsInvariant(H, s, m.packet.to, m.from, m.packet.payload, m.history, mined);
      }
    case Forge(at, from, payload, mined) =>
      if !payload.BlockChainMessage? {
        ReceiveKeepsInvariant(H, s, at, from, payload, [], mined);
      }
  }

  lemma {:induction false} RunKeepsInvariant(H: BlockHash, s: Net, events: seq<Event>)
    requires Invariant(H, s)
    ensures Invariant(H, Run(H, s, events))
  {
    if events != [] {
      RunKeepsInvariant(H, s, events[..|events| - 1]);
      StepKeepsInvariant(H, Run(H, s, events[..|events| - 1]), events[|events| - 1]);
    }
  }

  ghost predicate Grown(s: Net, s': Net) {
    && s.messages <= s'.messages && s.blocks <= s'.blocks && s.now <= s'.now
    && (s.nodes.Keys == s.histories.Keys ==> s'.nodes.Keys == s'.histories.Keys == s.nodes.Keys)
  }

  lemma StepGrows(H: BlockHash, s: Net, e: Event)
    ensures Grown(s, Step(H, s, e))
  {
  }

  lemma {:induction false} RunGrows(H: BlockHash, s: Net, events: seq<Event>)
    ensures Grown(s, Run(H, s, events))
  {
    if events != [] {
      var front := events[..|events| - 1];
      RunGrows(H, s, front);
      StepGrows(H, Run(H, s, front), events[|events| - 1]);
    }
  }

  // --------------------------------------------- the last hash as version stamp of a node

  lemma ReachableSound(H: BlockHash, s0: Net, events: seq<Event>)
    requires Init(H, s0)
    ensures Invariant(H, Run(H, s0, events))
  {
    InitInvariant(H, s0);
    RunKeepsInvariant(H, s0, events);
  }

  /** In every reachable state, two nodes whose last blocks have one hash have accepted the same blocks
      in the same order and hold the same table and order list. */
  lemma LastHashDeterminesNode(H: BlockHash, s0: Net, events: seq<Event>, a: string, b: string)
    requires Init(H, s0)
    requires var s := Run(H, s0, events);
             && CollisionFree(H, s.blocks)
             && a in s.nodes && b in s.nodes && s.nodes[a].chain.Chain? && s.nodes[b].chain.Chain?
    ensures var s := Run(H, s0, events);
            a in s.histories && b in s.histories &&
            (H(s.nodes[a].chain.last) == H(s.nodes[b].chain.last) <==> s.histories[a] == s.histories[b])
    ensures var s := Run(H, s0, events);
            H(s.nodes[a].chain.last) == H(s.nodes[b].chain.last) ==> s.nodes[a].chain == s.nodes[b].chain
  {
    ReachableSound(H, s0, events);
    var s := Run(H, s0, events);
    assert NodeSound(H, s, a) && NodeSound(H, s, b);
    if H(s.nodes[a].chain.last) == H(s.nodes[b].chain.last) {
      LastHashDeterminesHistory(H, s.blocks, s.histories[a], s.histories[b]);
    }
  }

  /** A proposal is a compare-and-swap on its issuer's chain. In every later state and at every node, a
      block that answers the proposal names the node's last block exactly when that node's history is
      the one the proposal was made on; then the whole chain is unchanged since, and the proposed id is
      still the one to give out: absent, or its block expired. */
  lemma ProposalIsCompareAndSwap(H: BlockHash, s0: Net, before: seq<Event>, after: seq<Event>, m: Message, a: string)
    requires Init(H, s0)
    requires m in Run(H, s0, before).messages && m.packet.payload.PuzzleProposal?
    requires var s := Run(H, s0, before + after);
             CollisionFree(H, s.blocks) && a in s.nodes && s.nodes[a].chain.Chain?
    ensures var s := Run(H, s0, before + after);
            var pp := m.packet.payload.proposal;
            && a in s.histories
            && (pp.previousHash == H(s.nodes[a].chain.last) <==> s.histories[a] == m.history)
            && (pp.previousHash == H(s.nodes[a].chain.last) ==>
                && s.nodes[a].chain == ChainOf(m.history)
                && pp.nodeID == NextNodeID(H, s.nodes[a].chain, pp.timestamp)
                && (pp.nodeID in s.nodes[a].chain.blocks ==> Expired(s.nodes[a].chain.blocks[pp.nodeID], s.now)))
  {
    RunConcat(H, s0, before, after);
    RunGrows(H, Run(H, s0, before), after);
    ReachableSound(H, s0, before + after);
    var s := Run(H, s0, before + after);
    assert NodeSound(H, s, a) && MessageSound(H, m, s.blocks, s.now);
    var pp := m.packet.payload.proposal;
    if pp.previousHash == H(s.nodes[a].chain.last) {
      LastHashDeterminesHistory(H, s.blocks, s.histories[a], m.history);
      var c := s.nodes[a].chain;
      if pp.nodeID in c.blocks {
        ChainOfIsLastWriterWins(m.history);
        assert c.blocks[pp.nodeID] == m.history[LastIndex(m.history, pp.nodeID)];
        assert !ContainsValidNodeID(H, c, pp.nodeID, pp.timestamp);
      }
    }
  }

  /** In the history a node's chain reflects, no two blocks share a previous hash or a hash. */
  lemma HistoryRepeatsNoStamp(H: BlockHash, s0: Net, events: seq<Event>, a: string, i: nat, j: nat)
    requires Init(H, s0)
    requires var s := Run(H, s0, events);
             CollisionFree(H, s.blocks) && a in s.nodes && a in s.histories && i < j < |s.histories[a]|
    ensures var h := Run(H, s0, events).histories[a];
            h[i].previousHash != h[j].previousHash && H(h[i]) != H(h[j])
  {
    ReachableSound(H, s0, events);
    var s := Run(H, s0, events);
    assert NodeSound(H, s, a);
    HashesNeverRecur(H, s.blocks, s.histories[a], i, j);
  }

  // ------------------------------------------------------------ between chain adoptions

  predicate AdoptsOn(s: Net, e: Event, a: string) {
    e.Deliver? && e.message in s.messages && e.message.packet.to == a && Running(s, a)
    && Adopts(s.nodes[a], e.message.packet.payload)
  }

  /** No event of the run makes node a replace its chain. */
  ghost predicate NoAdoption(H: BlockHash, s: Net, events: seq<Event>, a: string) {
    forall k :: 0 <= k < |events| ==> !AdoptsOn(Run(H, s, events[..k]), events[k], a)
  }

  lemma StepExtends(H: BlockHash, s: Net, e: Event, a: string)
    requires s.nodes.Keys == s.histories.Keys && a in s.nodes && !AdoptsOn(s, e, a)
    ensures a in Step(H, s, e).histories && Extends(Step(H, s, e).histories[a], s.histories[a])
  {
  }

  lemma {:induction false} RunExtends(H: BlockHash, s: Net, events: seq<Event>, a: string)
    requires s.nodes.Keys == s.histories.Keys && a in s.nodes && NoAdoption(H, s, events, a)
    ensures a in Run(H, s, events).histories && Extends(Run(H, s, events).histories[a], s.histories[a])
  {
    if events != [] {
      var front := events[..|events| - 1];
      forall k | 0 <= k < |front|
        ensures !AdoptsOn(Run(H, s, front[..k]), front[k], a)
      {
        assert front[..k] == events[..k];
      }
      RunExtends(H, s, front, a);
      RunGrows(H, s, front);
      StepExtends(H, Run(H, s, front), events[|events| - 1], a);
      var h1, h2, h3 := s.histories[a], Run(H, s, front).histories[a], Run(H, s, events).histories[a];
      assert h3[..|h1|] == h3[..|h2|][..|h1|];
    }
  }

  /** The block node `a` accepts in this step, if it accepts one. */
  function AcceptedOn(H: BlockHash, s: Net, e: Event, a: string): Option<Block> {
    if !Running(s, a) then None
    else match e
      case Deliver(m, _) =>
        if m in s.messages && m.packet.to == a then AcceptedBlock(H, s.nodes[a], m.packet.payload, m.from, s.now) else None
      case Forge(at, from, payload, _) =>
        if at == a then AcceptedBlock(H, s.nodes[a], payload, from, s.now) else None
      case _ => None
  }

  lemma AcceptanceExtends(H: BlockHash, s: Net, e: Event, a: string)
    requires AcceptedOn(H, s, e, a).Some?
    ensures a in Step(H, s, e).nodes && a in Step(H, s, e).histories
    ensures Step(H, s, e).histories[a] == s.histories[a] + [AcceptedOn(H, s, e, a).value]
  {
  }

  lemma AcceptedStays(H: BlockHash, s: Net, events: seq<Event>, a: string, p: History, b: Block)
    requires s.nodes.Keys == s.histories.Keys && a in s.nodes && s.histories[a] == p + [b]
    requires NoAdoption(H, s, events, a)
    ensures var t := Run(H, s, events);
            a in t.histories && |p| < |t.histories[a]| && t.histories[a][|p|] == b
  {
    RunExtends(H, s, events, a);
    var h := Run(H, s, events).histories[a];
    assert h[|p|] == h[..|p| + 1][|p|];
  }

  /** Two acceptances in a row: the later history holds both blocks, at different places. */
  lemma SecondAcceptance(H: BlockHash, s: Net, e: Event, between: seq<Event>, f: Event, a: string)
    requires s.nodes.Keys == s.histories.Keys && AcceptedOn(H, s, e, a).Some?
    requires var t := Run(H, Step(H, s, e), between);
             NoAdoption(H, Step(H, s, e), between, a) && AcceptedOn(H, t, f, a).Some?
    ensures var t := Run(H, Step(H, s, e), between); var u := Step(H, t, f);
            && a in u.nodes && a in u.histories && |s.histories[a]| < |t.histories[a]| == |u.histories[a]| - 1
            && u.histories[a][|s.histories[a]|] == AcceptedOn(H, s, e, a).value
            && u.histories[a][|t.histories[a]|] == AcceptedOn(H, t, f, a).value
  {
    AcceptanceExtends(H, s, e, a);
    StepGrows(H, s, e);
    AcceptedStays(H, Step(H, s, e), between, a, s.histories[a], AcceptedOn(H, s, e, a).value);
    AcceptanceExtends(H, Run(H, Step(H, s, e), between), f, a);
  }

  lemma AcceptedOnLast(H: BlockHash, s: Net, e: Event, a: string)
    requires Invariant(H, s) && AcceptedOn(H, s, e, a).Some?
    ensures var h := s.histories[a];
            h != [] && AcceptedOn(H, s, e, a).value.previousHash == H(Last(h)) && Linked(H, h) && Within(h, s.blocks)
  {
    assert NodeSound(H, s, a);
  }

  /** The exact statement. Take any two acceptances in a run, at the same node or at two nodes, with anything in
      between: the blocks accepted share a previous hash if and only if the two nodes had the same history just
      before. */
  lemma AcceptancesShareStampIff(H: BlockHash, s0: Net, before: seq<Event>, between: seq<Event>,
                                 e: Event, a: string, f: Event, b: string)
    requires Init(H, s0)
    requires var s := Run(H, s0, before); var t := Run(H, s, between);
             AcceptedOn(H, s, e, a).Some? && AcceptedOn(H, t, f, b).Some? && CollisionFree(H, t.blocks)
    ensures var s := Run(H, s0, before); var t := Run(H, s, between);
            AcceptedOn(H, s, e, a).value.previousHash == AcceptedOn(H, t, f, b).value.previousHash <==>
            s.histories[a] == t.histories[b]
  {
    var s := Run(H, s0, before);
    var t := Run(H, s, between);
    ReachableSound(H, s0, before);
    RunKeepsInvariant(H, s, between);
    RunGrows(H, s, between);
    AcceptedOnLast(H, s, e, a);
    AcceptedOnLast(H, t, f, b);
    if H(Last(s.histories[a])) == H(Last(t.histories[b])) {
      LastHashDeterminesHistory(H, t.blocks, s.histories[a], t.histories[b]);
    }
  }

  /** At most one answer is ever accepted per last hash: any two blocks a node accepts in a run, in any steps with
      no adoption in between, differ in previous hash and in hash. */
  lemma OneAcceptancePerStamp(H: BlockHash, s0: Net, before: seq<Event>, e: Event, between: seq<Event>, f: Event,
                              a: string)
    requires Init(H, s0)
    requires var s := Run(H, s0, before); var t := Run(H, Step(H, s, e), between);
             && AcceptedOn(H, s, e, a).Some? && AcceptedOn(H, t, f, a).Some?
             && NoAdoption(H, Step(H, s, e), between, a) && CollisionFree(H, Step(H, t, f).blocks)
    ensures var s := Run(H, s0, before); var t := Run(H, Step(H, s, e), between);
            var b1, b2 := AcceptedOn(H, s, e, a).value, AcceptedOn(H, t, f, a).value;
            b1.previousHash != b2.previousHash && H(b1) != H(b2)
  {
    var s := Run(H, s0, before);
    var t := Run(H, Step(H, s, e), between);
    var u := Step(H, t, f);
    ReachableSound(H, s0, before);
    StepKeepsInvariant(H, s, e);
    RunKeepsInvariant(H, Step(H, s, e), between);
    StepKeepsInvariant(H, t, f);
    SecondAcceptance(H, s, e, between, f, a);
    assert NodeSound(H, u, a);
    HashesNeverRecur(H, u.blocks, u.histories[a], |s.histories[a]|, |t.histories[a]|);
  }

  /** A snapshot of h on its way to a node that has not joined. */
  ghost predicate SnapshotFor(H: BlockHash, s: Net, m: Message, a: string) {
    && m in s.messages && m.packet.to == a && m.packet.payload == BlockChainMessage(ChainOf(m.history)) && m.history != []
    && Running(s, a) && !s.nodes[a].joined && CheckIntegrity(H, ChainOf(m.history), s.now) == Intact
  }

  lemma SnapshotStep(H: BlockHash, s: Net, m: Message, a: string)
    requires SnapshotFor(H, s, m, a)
    ensures var t := Step(H, s, Deliver(m, None));
            && Running(t, a) && t.nodes[a] == s.nodes[a].(chain := ChainOf(m.history), joined := true)
            && t.histories[a] == m.history && t.now == s.now && m in t.messages
  {
  }

  lemma BroadcastStep(H: BlockHash, s: Net, a: string, from: string, b: Block, h: History)
    requires Running(s, a) && h != [] && s.nodes[a].chain == ChainOf(h) && s.histories[a] == h
    requires IsValid(H, b, s.now) && b.previousHash == H(Last(h))
    ensures var e := Forge(a, from, BlockBroadcast(from, b), None); var t := Step(H, s, e);
            && AcceptedOn(H, s, e, a) == Some(b) && Running(t, a) && t.histories[a] == h + [b]
            && t.now == s.now && s.messages <= t.messages
  {
  }

  /** Without "no adoption in between" this fails: a node accepts one successor of the snapshot's last block, its
      membership expires, the same snapshot arrives again, and it accepts another successor of that block. */
  lemma AdoptionAllowsSameStamp(H: BlockHash, s: Net, m: Message, a: string, from: string, b1: Block, b2: Block)
    requires SnapshotFor(H, s, m, a)
    requires IsValid(H, b1, s.now) && IsValid(H, b2, s.now)
    requires b1.previousHash == b2.previousHash == H(Last(m.history))
    ensures var s1 := Step(H, s, Deliver(m, None));
            var e1, e2 := Forge(a, from, BlockBroadcast(from, b1), None), Forge(a, from, BlockBroadcast(from, b2), None);
            var s2 := Step(H, Step(H, Step(H, s1, e1), ExpireJoining(a)), Deliver(m, None));
            && AcceptedOn(H, s1, e1, a) == Some(b1) && AcceptedOn(H, s2, e2, a) == Some(b2)
            && a in Step(H, s2, e2).histories && Step(H, s2, e2).histories[a] == m.history + [b2]
  {
    var s1 := Step(H, s, Deliver(m, None));
    SnapshotStep(H, s, m, a);
    BroadcastStep(H, s1, a, from, b1, m.history);
    var s3 := Step(H, Step(H, s1, Forge(a, from, BlockBroadcast(from, b1), None)), ExpireJoining(a));
    assert SnapshotFor(H, s3, m, a);
    SnapshotStep(H, s3, m, a);
    BroadcastStep(H, Step(H, s3, Deliver(m, None)), a, from, b2, m.history);
  }

  /** A proposal overtaken by another block never succeeds again: as long as its issuer adopts no other
      chain, every block carrying its previous hash is refused there at any clock reading. */
  lemma OvertakenNeverSucceeds(H: BlockHash, s0: Net, before: seq<Event>, after: seq<Event>, m: Message, a: string,
                               b: Block, now: int)
    requires Init(H, s0)
    requires var s := Run(H, s0, before);
             && m in s.messages && m.packet.payload.PuzzleProposal?
             && a in s.histories && Extends(s.histories[a], m.history) && s.histories[a] != m.history
             && NoAdoption(H, s, after, a)
    requires CollisionFree(H, Run(H, s0, before + after).blocks)
    requires b.previousHash == m.packet.payload.proposal.previousHash
    ensures a in Run(H, s0, before + after).nodes
    ensures AddVerdict(H, Run(H, s0, before + after).nodes[a].chain, b, now) == Rejected
  {
    ReachableSound(H, s0, before);
    var s1 := Run(H, s0, before);
    assert MessageSound(H, m, s1.blocks, s1.now);
    RunConcat(H, s0, before, after);
    RunExtends(H, s1, after, a);
    RunGrows(H, s1, after);
    var s := Run(H, s0, before + after);
    ReachableSound(H, s0, before + after);
    assert NodeSound(H, s, a);
    ProposalIsCompareAndSwap(H, s0, before, after, m, a);
  }

  /** Forks never re-merge: once neither of two nodes' histories extends the other, no block is accepted
      by both afterwards, as long as neither adopts another chain. */
  lemma ForksNeverMerge(H: BlockHash, s0: Net, before: seq<Event>, after: seq<Event>, a: string, b: string)
    requires Init(H, s0)
    requires var s := Run(H, s0, before);
             && a in s.histories && b in s.histories
             && !Extends(s.histories[a], s.histories[b]) && !Extends(s.histories[b], s.histories[a])
             && NoAdoption(H, s, after, a) && NoAdoption(H, s, after, b)
    requires CollisionFree(H, Run(H, s0, before + after).blocks)
    ensures var s, s' := Run(H, s0, before), Run(H, s0, before + after);
            && a in s'.histories && b in s'.histories
            && forall i, j :: |s.histories[a]| <= i < |s'.histories[a]| && |s.histories[b]| <= j < |s'.histories[b]|
                 ==> s'.histories[a][i] != s'.histories[b][j]
  {
    ReachableSound(H, s0, before);
    ReachableSound(H, s0, before + after);
    RunConcat(H, s0, before, after);
    var s, s' := Run(H, s0, before), Run(H, s0, before + after);
    RunExtends(H, s, after, a);
    RunExtends(H, s, after, b);
    RunGrows(H, s, after);
    assert NodeSound(H, s', a) && NodeSound(H, s', b);
    ForksShareNoLaterBlock(H, s'.blocks, s.histories[a], s.histories[b], s'.histories[a], s'.histories[b]);
  }

  /** A last hash never recurs at a node between chain adoptions. */
  lemma StampNeverRecurs(H: BlockHash, s0: Net, before: seq<Event>, after: seq<Event>, a: string)
    requires Init(H, s0)
    requires a in Run(H, s0, before).nodes && Run(H, s0, before).nodes[a].chain.Chain?
    requires NoAdoption(H, Run(H, s0, before), after, a)
    requires CollisionFree(H, Run(H, s0, before + after).blocks)
    ensures var s, s' := Run(H, s0, before), Run(H, s0, before + after);
            && a in s.histories && a in s'.histories && a in s'.nodes && s'.nodes[a].chain.Chain?
            && (H(s.nodes[a].chain.last) == H(s'.nodes[a].chain.last) <==> s.histories[a] == s'.histories[a])
  {
    ReachableSound(H, s0, before);
    ReachableSound(H, s0, before + after);
    RunConcat(H, s0, before, after);
    var s, s' := Run(H, s0, before), Run(H, s0, before + after);
    RunExtends(H, s, after, a);
    RunGrows(H, s, after);
    assert NodeSound(H, s, a) && NodeSound(H, s', a);
    if H(s.nodes[a].chain.last) == H(s'.nodes[a].chain.last) {
      SoundMonotone(H, s.histories[a], s.nodes[a].chain, s.blocks, s'.blocks);
      LastHashDeterminesHistory(H, s'.blocks, s.histories[a], s'.histories[a]);
    }
  }
}
