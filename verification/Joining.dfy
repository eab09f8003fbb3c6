/** One undisturbed join, from the first refused packet to the first admitted one, and what can end it. */
module Joining {
  import opened Bytes
  import opened Blocks
  import opened BlockChains
  import opened Histories
  import opened Recycling
  import opened Pruning
  import opened PuzzlesStates
  import opened JoinNetwork
  import opened HonestRuns

  /** The proposal a joined node makes at clock reading `now`. */
  function ProposalAt(H: BlockHash, n: Node, now: int): Proposal
    requires n.chain.Chain?
  {
    Proposal(n.name, NextNodeID(H, n.chain, now), now, H(n.chain.last))
  }

  /** `host` is ready to let in whoever sends from `joinerAddress`. */
  ghost predicate ReadyHost(H: BlockHash, host: Node, h: History, joinerAddress: string) {
    host.joined && h != [] && host.chain == ChainOf(h) && joinerAddress !in host.waiting
  }

  /** The host accepts the solution of its proposal exactly while it has not expired. Accepting extends the
      history, frees the joiner's address for later proposals and sends the whole chain; refusing leaves
      the proposal outstanding. */
  lemma ResponseAcceptedIffFresh(H: BlockHash, host: Node, h: History, joinerName: string, joinerAddress: string,
                                 b: Block, t1: int, t2: int)
    requires ReadyHost(H, host, h, joinerAddress) && Answers(H, ProposalAt(H, host, t1), b)
    ensures var waitingHost := host.(waiting := host.waiting[joinerAddress := ProposalAt(H, host, t1)]);
            var out := OnResponse(H, waitingHost, joinerName, host.name, Some(b), joinerAddress, t2);
            && out.Done?
            && (Expired(b, t2) ==> out == Done(waitingHost, []))
            && (!Expired(b, t2) ==>
                && out.node.chain == ChainOf(h + [b])
                && out.node.waiting == host.waiting && out.node.myID == host.myID
                && Knows(out.node.peers, joinerAddress)
                && out.sent != []
                && out.sent[|out.sent| - 1] == Packet(joinerAddress, host.myID, BlockChainMessage(ChainOf(h + [b]))))
  {
    ChainOfSnoc(h, b);
    var peers := WithGossiper(host.peers, joinerAddress, joinerName);
    assert !Knows(host.peers, joinerAddress) ==> peers[|host.peers|].address == joinerAddress;
    assert host.waiting[joinerAddress := ProposalAt(H, host, t1)] - {joinerAddress} == host.waiting;
  }

  predicate NothingExpired(c: Chain, now: int) {
    forall id :: id in BlocksOf(c) ==> !Expired(BlocksOf(c)[id], now)
  }

  /** The joiner considers itself joined exactly if no entry of the table it receives has expired;
      otherwise it panics. */
  lemma SnapshotAdoptedIffNothingExpired(H: BlockHash, joiner: Node, h: History, now: int)
    requires !joiner.joined && h != [] && AllWorked(H, h)
    ensures var out := OnBlockChain(H, joiner, ChainOf(h), now);
            && (out.Done? <==> NothingExpired(ChainOf(h), now))
            && (out.Done? ==> out == Done(joiner.(chain := ChainOf(h), joined := true), []))
  {
    FullChainAcceptedIffNothingExpired(H, h, now);
    assert BlocksOf(ChainOf(h)) == ChainOf(h).blocks;
  }

  /** It happens in honest histories: the holder of id 2 renews nothing while id 1 expires and is given out again;
      the joiner who has just solved the puzzle for id 1 is sent id 2's expired block too, and panics. */
  lemma SolverPanics(H: BlockHash, joiner: Node, g: Block, b: Block, c: Block)
    requires !joiner.joined
    requires HasProofOfWork(H, g) && HasProofOfWork(H, b) && HasProofOfWork(H, c)
    requires g.previousHash == GenesisPreviousHash() && b.previousHash == H(g) && c.previousHash == H(b)
    requires g.nodeID == 1 && b.nodeID == 2 && c.nodeID == 1
    requires g.timestamp <= b.timestamp <= g.timestamp + EXPIRATION && b.timestamp + EXPIRATION < c.timestamp
    ensures Honest(H, [g] + [b] + [c])
    ensures OnBlockChain(H, joiner, ChainOf([g] + [b] + [c]), c.timestamp) == Panic
  {
    var h := [g] + [b];
    ChainOfSnoc([], g);
    assert [] + [g] == [g];
    ChainOfSnoc([g], b);
    ChainOfSnoc(h, c);
    ThreeHonest(H, g, b, c);
    assert ChainOf(h + [c]).blocks[2] == b;
    SnapshotAdoptedIffNothingExpired(H, joiner, h + [c], c.timestamp);
  }

  lemma ThreeHonest(H: BlockHash, g: Block, b: Block, c: Block)
    requires HasProofOfWork(H, g) && HasProofOfWork(H, b) && HasProofOfWork(H, c)
    requires g.previousHash == GenesisPreviousHash() && b.previousHash == H(g) && c.previousHash == H(b)
    requires g.nodeID == 1 && b.nodeID == 2 && c.nodeID == 1
    requires g.timestamp <= b.timestamp <= g.timestamp + EXPIRATION && b.timestamp + EXPIRATION < c.timestamp
    ensures Honest(H, [g] + [b] + [c])
  {
    var none: History := [];
    LeastFreeIsNext(H, ChainOf(none), g.timestamp, 1);
    assert [g][..0] == none && CarriesNextID(H, [g], 0);
    assert Honest(H, [g]);
    ChainOfSnoc(none, g);
    assert none + [g] == [g];
    LeastFreeIsNext(H, ChainOf([g]), b.timestamp, 2);
    HonestSnoc(H, [g], b);
    ChainOfSnoc([g], b);
    LeastFreeIsNext(H, ChainOf([g] + [b]), c.timestamp, 1);
    HonestSnoc(H, [g] + [b], c);
  }

  // ------------------------------------------------------------------- the join as a run

  /** A host and a newcomer, both running; the host is ready and the packet it gets fails admission. */
  ghost predicate JoinReady(H: BlockHash, s: Net, at: string, j: string, id: nat) {
    && at != j && Running(s, at) && Running(s, j)
    && Invariant(H, s) && ReadyHost(H, s.nodes[at], s.histories[at], j)
    && !PassesAdmission(H, s.nodes[at], id, s.now) && !s.nodes[j].joined
  }

  /** The three messages of the join that starts in s. */
  function ProposalMessage(H: BlockHash, s: Net, at: string, j: string): Message
    requires at in s.nodes && at in s.histories && s.nodes[at].chain.Chain?
  {
    Message(at, Packet(j, s.nodes[at].myID, PuzzleProposal(ProposalAt(H, s.nodes[at], s.now))), s.histories[at])
  }

  function SolutionMessage(s: Net, at: string, j: string, b: Block): Message
    requires at in s.nodes && j in s.nodes && j in s.histories
  {
    Message(j, Packet(at, b.nodeID, PuzzleResponse(s.nodes[j].name, s.nodes[at].name, Some(b))), s.histories[j])
  }

  function SnapshotMessage(s: Net, at: string, j: string, b: Block): Message
    requires at in s.nodes && at in s.histories
  {
    var h := s.histories[at] + [b];
    Message(at, Packet(j, s.nodes[at].myID, BlockChainMessage(ChainOf(h))), h)
  }

  /** The state once a packet with `id` has been refused and the proposal it triggered has been delivered and
      solved with b. */
  function Solved(H: BlockHash, s: Net, at: string, j: string, id: nat, b: Block): Net
    requires at in s.nodes && at in s.histories && s.nodes[at].chain.Chain?
  {
    Step(H, Step(H, s, ReceiveGossip(at, j, id)), Deliver(ProposalMessage(H, s, at, j), Some(b)))
  }

  /** ... once the solution has been delivered at time t2, and the host's snapshot at time t3. */
  function JoinRun(H: BlockHash, s: Net, at: string, j: string, id: nat, b: Block, t2: int, t3: int): Net
    requires at in s.nodes && at in s.histories && s.nodes[at].chain.Chain? && j in s.nodes && j in s.histories
  {
    var answered := Step(H, Step(H, Solved(H, s, at, j, id, b), Tick(t2)), Deliver(SolutionMessage(s, at, j, b), None));
    Step(H, Step(H, answered, Tick(t3)), Deliver(SnapshotMessage(s, at, j, b), None))
  }

  lemma RefusedStep(H: BlockHash, s: Net, at: string, j: string, id: nat)
    requires JoinReady(H, s, at, j, id)
    ensures var t := Step(H, s, ReceiveGossip(at, j, id)); var pp := ProposalAt(H, s.nodes[at], s.now);
            && t.nodes == s.nodes[at := s.nodes[at].(waiting := s.nodes[at].waiting[j := pp])]
            && t.histories == s.histories && t.crashed == s.crashed && t.now == s.now
            && ProposalMessage(H, s, at, j) in t.messages
  {
  }

  lemma SolvedStep(H: BlockHash, s: Net, at: string, j: string, id: nat, b: Block)
    requires JoinReady(H, s, at, j, id) && b.nodeID == NextNodeID(H, s.nodes[at].chain, s.now)
    ensures var t := Solved(H, s, at, j, id, b); var pp := ProposalAt(H, s.nodes[at], s.now);
            && t.nodes.Keys == s.nodes.Keys && t.histories == s.histories && t.crashed == s.crashed && t.now == s.now
            && t.nodes[at] == s.nodes[at].(waiting := s.nodes[at].waiting[j := pp])
            && t.nodes[j].myID == b.nodeID && !t.nodes[j].joined
            && SolutionMessage(s, at, j, b) in t.messages
  {
    RefusedStep(H, s, at, j, id);
    var s1, m := Step(H, s, ReceiveGossip(at, j, id)), ProposalMessage(H, s, at, j);
    var out := OnProposal(s1.nodes[j], m.packet.payload.proposal, at, Some(b));
    assert Handle(H, s1.nodes[j], m.packet.payload, at, Some(b), s1.now) == out;
    assert HistoryAfter(H, s1.nodes[j], s1.histories[j], m.packet.payload, at, m.history, s1.now) == s1.histories[j];
    assert out.sent[0] in out.sent;
    assert SolutionMessage(s, at, j, b) == Message(j, out.sent[0], s1.histories[j]);
  }

  /** Delivering the solution. */
  lemma AnsweredStep(H: BlockHash, s: Net, t: Net, at: string, j: string, b: Block)
    requires at != j && Running(s, at) && Running(t, at) && j in s.nodes && j in s.histories && j in t.nodes &&
             j in t.histories
    requires ReadyHost(H, s.nodes[at], s.histories[at], j) && Answers(H, ProposalAt(H, s.nodes[at], s.now), b)
    requires t.nodes[at] == s.nodes[at].(waiting := s.nodes[at].waiting[j := ProposalAt(H, s.nodes[at], s.now)])
    requires t.histories[at] == s.histories[at] && SolutionMessage(s, at, j, b) in t.messages
    ensures var u := Step(H, t, Deliver(SolutionMessage(s, at, j, b), None));
            && at in u.nodes && j in u.nodes && j in u.histories && u.nodes[j] == t.nodes[j]
            && u.crashed == t.crashed && u.now == t.now && u.nodes[at].myID == s.nodes[at].myID
            && (Expired(b, t.now) ==> u.nodes[at].chain == s.nodes[at].chain)
            && (!Expired(b, t.now) ==>
                 u.nodes[at].chain == ChainOf(s.histories[at] + [b]) && SnapshotMessage(s, at, j, b) in u.messages)
  {
    var host, h := s.nodes[at], s.histories[at];
    ResponseAcceptedIffFresh(H, host, h, s.nodes[j].name, j, b, s.now, t.now);
    ChainOfSnoc(h, b);
    var m := SolutionMessage(s, at, j, b);
    var out := OnResponse(H, t.nodes[at], s.nodes[j].name, host.name, Some(b), j, t.now);
    assert Handle(H, t.nodes[at], m.packet.payload, j, None, t.now) == out;
    if !Expired(b, t.now) {
      assert HistoryAfter(H, t.nodes[at], h, m.packet.payload, j, m.history, t.now) == h + [b];
      assert out.sent[|out.sent| - 1] in out.sent;
    }
  }

  /** Delivering the snapshot, if it has been sent. */
  lemma SnapshotDelivered(H: BlockHash, s: Net, t: Net, at: string, j: string, b: Block)
    requires at != j && at in s.nodes && at in s.histories && AllWorked(H, s.histories[at] + [b])
    requires Running(t, j) && at in t.nodes && !t.nodes[j].joined
    requires SnapshotMessage(s, at, j, b) in t.messages || Expired(b, t.now)
    ensures var u := Step(H, t, Deliver(SnapshotMessage(s, at, j, b), None)); var c := ChainOf(s.histories[at] + [b]);
            && at in u.nodes && u.nodes[at] == t.nodes[at] && j in u.nodes && u.nodes[j].myID == t.nodes[j].myID
            && u.now == t.now
            && (u.nodes[j].joined <==> NothingExpired(c, t.now)) && (u.nodes[j].joined ==> u.nodes[j].chain == c)
            && (SnapshotMessage(s, at, j, b) in t.messages && !NothingExpired(c, t.now) ==> j in u.crashed)
  {
    var h := s.histories[at] + [b];
    SnapshotAdoptedIffNothingExpired(H, t.nodes[j], h, t.now);
    ChainOfSnoc(s.histories[at], b);
    assert BlocksOf(ChainOf(h))[b.nodeID] == b;
    ChainDelivered(H, t, SnapshotMessage(s, at, j, b), j);
  }

  /** What a chain message does to a node that has not joined, and to nobody else. */
  lemma ChainDelivered(H: BlockHash, t: Net, m: Message, j: string)
    requires Running(t, j) && !t.nodes[j].joined && m.packet.to == j && m.packet.payload.BlockChainMessage?
    ensures var u := Step(H, t, Deliver(m, None)); var out := OnBlockChain(H, t.nodes[j], m.packet.payload.chain, t.now);
            && u.now == t.now
            && (m !in t.messages ==> u == t)
            && (m in t.messages && out.Done? ==> u.nodes == t.nodes[j := out.node])
            && (m in t.messages && out.Panic? ==> u.nodes == t.nodes && j in u.crashed)
  {
  }

  /** Before the snapshot arrives, the join has led to a state in which it may be adopted. */
  lemma JoinSendsSnapshot(H: BlockHash, s: Net, at: string, j: string, id: nat, b: Block, t2: int)
    requires JoinReady(H, s, at, j, id) && Answers(H, ProposalAt(H, s.nodes[at], s.now), b) && s.now <= t2
    requires NothingExpired(ChainOf(s.histories[at] + [b]), t2)
    ensures var solved := Step(H, Solved(H, s, at, j, id, b), Tick(t2));
            SnapshotFor(H, Step(H, solved, Deliver(SolutionMessage(s, at, j, b), None)), SnapshotMessage(s, at, j, b), j)
  {
    var h := s.histories[at];
    assert NodeSound(H, s, at);
    assert AllWorked(H, h + [b]);
    SolvedStep(H, s, at, j, id, b);
    AnsweredStep(H, s, Step(H, Solved(H, s, at, j, id, b), Tick(t2)), at, j, b);
    ChainOfSnoc(h, b);
    assert BlocksOf(ChainOf(h + [b]))[b.nodeID] == b;
    FullChainAcceptedIffNothingExpired(H, h + [b], t2);
  }

  /** Who passes admission on the host's chain under the id just given out. */
  lemma AdmissionAfterAnswer(H: BlockHash, s: Net, at: string, b: Block, c: Chain, t2: int, t: int)
    requires Invariant(H, s) && at in s.nodes && s.nodes[at].chain.Chain? && s.now <= t2 <= t
    requires Answers(H, ProposalAt(H, s.nodes[at], s.now), b)
    requires c == if Expired(b, t2) then s.nodes[at].chain else Append(s.nodes[at].chain, b)
    ensures ContainsValidNodeID(H, c, b.nodeID, t) <==> !Expired(b, t)
  {
  }

  /** One undisturbed join, in any reachable or otherwise sound state, with any delays: a packet is refused at a
      host, the proposal is solved, the solution reaches the host at t2, and the snapshot the joiner at t3. Then the
      joiner is joined if and only if nothing in the table it was to receive has expired at t3 (if something has
      and the solution was in time, it has panicked); and from then on its packets pass the host's admission test
      exactly until its block expires, unless it was given the host's own id, which needs the host's own block to
      have expired. */
  lemma UndisturbedJoin(H: BlockHash, s: Net, at: string, j: string, id: nat, b: Block, t2: int, t3: int)
    requires JoinReady(H, s, at, j, id) && Answers(H, ProposalAt(H, s.nodes[at], s.now), b)
    requires s.now <= t2 <= t3
    ensures var host, c := s.nodes[at], ChainOf(s.histories[at] + [b]);
            var f := JoinRun(H, s, at, j, id, b, t2, t3);
            && at in f.nodes && j in f.nodes && f.now == t3 && f.nodes[j].myID == b.nodeID
            && (f.nodes[j].joined <==> NothingExpired(c, t3)) && (f.nodes[j].joined ==> f.nodes[j].chain == c)
            && (!Expired(b, t2) && !NothingExpired(c, t3) ==> j in f.crashed)
            && (forall t :: t >= t3 ==>
                 (PassesAdmission(H, f.nodes[at], f.nodes[j].myID, t) <==> host.myID != b.nodeID && !Expired(b, t)))
            && (ContainsValidNodeID(H, host.chain, host.myID, s.now) ==> host.myID != b.nodeID)
  {
    var h := s.histories[at];
    assert NodeSound(H, s, at);
    assert AllWorked(H, h + [b]);
    SolvedStep(H, s, at, j, id, b);
    var solved := Step(H, Solved(H, s, at, j, id, b), Tick(t2));
    AnsweredStep(H, s, solved, at, j, b);
    var answered := Step(H, Step(H, solved, Deliver(SolutionMessage(s, at, j, b), None)), Tick(t3));
    SnapshotDelivered(H, s, answered, at, j, b);
    ChainOfSnoc(h, b);
    forall t | t >= t3
      ensures ContainsValidNodeID(H, answered.nodes[at].chain, b.nodeID, t) <==> !Expired(b, t)
    {
      AdmissionAfterAnswer(H, s, at, b, answered.nodes[at].chain, t2, t);
    }
  }

  /** Had the host sent its chain pruned, the joiner would accept it whenever its own block is fresh, and
      would get the same answers from it as from the full one ever after. */
  lemma PrunedSnapshotAlwaysAdopted(H: BlockHash, joiner: Node, h: History, now: int)
    requires !joiner.joined && Honest(H, h) && Last(h).timestamp <= now && !Expired(Last(h), now)
    ensures WellFormed(ChainOf(h)) && Prune(ChainOf(h), now).Some?
    ensures var c := Prune(ChainOf(h), now).value;
            && OnBlockChain(H, joiner, c, now) == Done(joiner.(chain := c, joined := true), [])
            && forall qs :: ClockRises(qs, now) ==> Replies(H, c, qs) == Replies(H, ChainOf(h), qs)
  {
    PrunedPassesIntegrity(H, h, now);
    forall qs | ClockRises(qs, now)
      ensures Replies(H, Prune(ChainOf(h), now).value, qs) == Replies(H, ChainOf(h), qs)
    {
      PruningIsUnobservable(H, ChainOf(h), now, qs);
    }
  }
}
