/** When a host forgets an outstanding proposal, and when it never can again: the joiner is then locked out,
    since no second proposal is made to its address. */
module Lockout {
  import opened Bytes
  import opened Blocks
  import opened BlockChains
  import opened Histories
  import opened PuzzlesStates
  import opened JoinNetwork

  /** b solves the puzzle of pp on the last block of c, in time. Nothing is said about pp.previousHash. */
  predicate SolvesNow(H: BlockHash, c: Chain, pp: Proposal, b: Block, now: int) {
    && b.nodeID == pp.nodeID && b.timestamp == pp.timestamp && now - pp.timestamp <= EXPIRATION
    && HasProofOfWork(H, b) && c.Chain? && b.previousHash == H(c.last)
  }

  /** A payload from an address frees it: a solution, sent to this node, of the proposal outstanding for it. */
  predicate Frees(H: BlockHash, n: Node, payload: Payload, joiner: string, now: int) {
    && payload.PuzzleResponse? && payload.destination == n.name && payload.createdBlock.Some?
    && joiner in n.waiting && SolvesNow(H, n.chain, n.waiting[joiner], payload.createdBlock.value, now)
  }

  /** The exact condition under which one response frees its sender's address. The previous hash is compared
      with the last block only, never with the proposal: an overtaken joiner can still get in by mining the old
      id and timestamp on the new last block, within EXPIRATION of the proposal. */
  lemma ReleasedIffSolvedOnLast(H: BlockHash, n: Node, origin: string, destination: string, created: Option<Block>,
                                joiner: string, now: int)
    requires joiner in n.waiting
    ensures var out := OnResponse(H, n, origin, destination, created, joiner, now);
            out.Done? && joiner !in out.node.waiting <==>
              destination == n.name && created.Some? && SolvesNow(H, n.chain, n.waiting[joiner], created.value, now)
  {
  }

  ghost predicate Outstanding(s: Net, a: string, joiner: string, pp: Proposal) {
    a in s.nodes && joiner in s.nodes[a].waiting && s.nodes[a].waiting[joiner] == pp
  }

  /** The event brings node `a` a payload that frees the joiner's address. */
  ghost predicate FreesOn(H: BlockHash, s: Net, e: Event, a: string, joiner: string) {
    && Running(s, a)
    && match e
       case Deliver(m, _) =>
         m in s.messages && m.packet.to == a && m.from == joiner && Frees(H, s.nodes[a], m.packet.payload, joiner, s.now)
       case Forge(at, from, payload, _) =>
         at == a && from == joiner && Frees(H, s.nodes[a], payload, joiner, s.now)
       case _ => false
  }

  lemma HandleReleasesIff(H: BlockHash, n: Node, payload: Payload, from: string, mined: Option<Block>, now: int,
                          joiner: string)
    requires joiner in n.waiting
    ensures var out := Handle(H, n, payload, from, mined, now);
            && (out.Done? && joiner in out.node.waiting ==> out.node.waiting[joiner] == n.waiting[joiner])
            && (out.Done? && joiner !in out.node.waiting <==> from == joiner && Frees(H, n, payload, joiner, now))
  {
    if from == joiner && payload.PuzzleResponse? {
      ReleasedIffSolvedOnLast(H, n, payload.origin, payload.destination, payload.createdBlock, joiner, now);
    }
  }

  lemma ReceiveReleasesIff(H: BlockHash, s: Net, at: string, from: string, payload: Payload, snapshot: History,
                           mined: Option<Block>, a: string, joiner: string, pp: Proposal)
    requires Outstanding(s, a, joiner, pp)
    ensures Outstanding(Receive(H, s, at, from, payload, snapshot, mined), a, joiner, pp) <==>
            !(Running(s, a) && at == a && from == joiner && Frees(H, s.nodes[a], payload, joiner, s.now))
  {
    if Running(s, at) && at == a {
      HandleReleasesIff(H, s.nodes[a], payload, from, mined, s.now, joiner);
    }
  }

  /** In every state of the network a step ends a proposal exactly by such an event. */
  lemma StepReleasesIff(H: BlockHash, s: Net, e: Event, a: string, joiner: string, pp: Proposal)
    requires Outstanding(s, a, joiner, pp)
    ensures Outstanding(Step(H, s, e), a, joiner, pp) <==> !FreesOn(H, s, e, a, joiner)
  {
    match e
    case Tick(_) =>
    case ExpireJoining(_) =>
    case ReceiveGossip(_, _, _) =>
    case Deliver(m, mined) =>
      ReceiveReleasesIff(H, s, m.packet.to, m.from, m.packet.payload, m.history, mined, a, joiner, pp);
    case Forge(at, from, payload, mined) =>
      ReceiveReleasesIff(H, s, at, from, payload, [], mined, a, joiner, pp);
  }

  ghost predicate NothingFrees(H: BlockHash, s: Net, events: seq<Event>, a: string, joiner: string) {
    forall k :: 0 <= k < |events| ==> !FreesOn(H, Run(H, s, events[..k]), events[k], a, joiner)
  }

  ghost predicate OutstandingThroughout(H: BlockHash, s: Net, events: seq<Event>, a: string, joiner: string,
                                        pp: Proposal) {
    forall k :: 0 <= k <= |events| ==> Outstanding(Run(H, s, events[..k]), a, joiner, pp)
  }

  lemma RunPrefixStep(H: BlockHash, s: Net, events: seq<Event>, k: nat)
    requires k < |events|
    ensures Run(H, s, events[..k + 1]) == Step(H, Run(H, s, events[..k]), events[k])
  {
    assert events[..k + 1][..k] == events[..k];
  }

  lemma {:induction false} NothingFreesKeeps(H: BlockHash, s: Net, events: seq<Event>, a: string, joiner: string,
                                             pp: Proposal, k: nat)
    requires Outstanding(s, a, joiner, pp) && NothingFrees(H, s, events, a, joiner) && k <= |events|
    ensures Outstanding(Run(H, s, events[..k]), a, joiner, pp)
  {
    if k > 0 {
      NothingFreesKeeps(H, s, events, a, joiner, pp, k - 1);
      RunPrefixStep(H, s, events, k - 1);
      StepReleasesIff(H, Run(H, s, events[..k - 1]), events[k - 1], a, joiner, pp);
    }
  }

  /** Over whole runs: the proposal stays outstanding throughout exactly when no event frees the address. */
  lemma OutstandingIffNothingFrees(H: BlockHash, s: Net, events: seq<Event>, a: string, joiner: string, pp: Proposal)
    requires Outstanding(s, a, joiner, pp)
    ensures OutstandingThroughout(H, s, events, a, joiner, pp) <==> NothingFrees(H, s, events, a, joiner)
  {
    if NothingFrees(H, s, events, a, joiner) {
      forall k | 0 <= k <= |events|
        ensures Outstanding(Run(H, s, events[..k]), a, joiner, pp)
      {
        NothingFreesKeeps(H, s, events, a, joiner, pp, k);
      }
    }
    if OutstandingThroughout(H, s, events, a, joiner, pp) {
      forall k | 0 <= k < |events|
        ensures !FreesOn(H, Run(H, s, events[..k]), events[k], a, joiner)
      {
        assert Outstanding(Run(H, s, events[..k]), a, joiner, pp) && Outstanding(Run(H, s, events[..k + 1]), a, joiner, pp);
        RunPrefixStep(H, s, events, k);
        StepReleasesIff(H, Run(H, s, events[..k]), events[k], a, joiner, pp);
      }
    }
  }

  // ------------------------------------------------------------------- locked out for ever

  /** A proposal older than EXPIRATION is never forgotten, whatever happens. */
  lemma {:induction false} ExpiredStaysOutstanding(H: BlockHash, s: Net, events: seq<Event>, a: string, joiner: string,
                                                   pp: Proposal)
    requires Outstanding(s, a, joiner, pp) && s.now - pp.timestamp > EXPIRATION
    ensures Outstanding(Run(H, s, events), a, joiner, pp)
  {
    if events != [] {
      var front := events[..|events| - 1];
      ExpiredStaysOutstanding(H, s, front, a, joiner, pp);
      RunGrows(H, s, front);
      StepReleasesIff(H, Run(H, s, front), events[|events| - 1], a, joiner, pp);
    }
  }

  /** While it is outstanding, no other proposal is made to the address. */
  lemma OutstandingBlocksProposals(H: BlockHash, s: Net, a: string, joiner: string, pp: Proposal, t: int)
    requires Outstanding(s, a, joiner, pp)
    ensures OnJoining(H, s.nodes[a], joiner, t) == Done(s.nodes[a], [])
  {
  }

  ghost predicate OutstandingForEver(H: BlockHash, s: Net, a: string, joiner: string, pp: Proposal) {
    forall events: seq<Event> :: Outstanding(Run(H, s, events), a, joiner, pp)
  }

  /** In no continuation of the run is the address sent another proposal. */
  ghost predicate NeverProposedTo(H: BlockHash, s: Net, a: string, joiner: string) {
    forall events: seq<Event>, t: int ::
      var u := Run(H, s, events); a in u.nodes && OnJoining(H, u.nodes[a], joiner, t) == Done(u.nodes[a], [])
  }

  /** Where a solution of the proposal on the last block is at hand, the joiner is locked out for ever, in every
      continuation of the run, if and only if the proposal is older than EXPIRATION; then no further proposal is
      made to its address either. */
  lemma LockedOutForEverIffExpired(H: BlockHash, s: Net, a: string, joiner: string, pp: Proposal, b: Block)
    requires Outstanding(s, a, joiner, pp) && Running(s, a) && s.nodes[a].chain.Chain?
    requires b.nodeID == pp.nodeID && b.timestamp == pp.timestamp && HasProofOfWork(H, b)
    requires b.previousHash == H(s.nodes[a].chain.last)
    ensures OutstandingForEver(H, s, a, joiner, pp) <==> s.now - pp.timestamp > EXPIRATION
    ensures s.now - pp.timestamp > EXPIRATION ==> NeverProposedTo(H, s, a, joiner)
  {
    if s.now - pp.timestamp > EXPIRATION {
      forall events: seq<Event>
        ensures Outstanding(Run(H, s, events), a, joiner, pp)
      {
        ExpiredStaysOutstanding(H, s, events, a, joiner, pp);
      }
      forall events: seq<Event>, t: int
        ensures var u := Run(H, s, events); a in u.nodes && OnJoining(H, u.nodes[a], joiner, t) == Done(u.nodes[a], [])
      {
        ExpiredStaysOutstanding(H, s, events, a, joiner, pp);
        OutstandingBlocksProposals(H, Run(H, s, events), a, joiner, pp, t);
      }
    } else {
      var e := Forge(a, joiner, PuzzleResponse(joiner, s.nodes[a].name, Some(b)), None);
      assert FreesOn(H, s, e, a, joiner);
      StepReleasesIff(H, s, e, a, joiner, pp);
      var events := [e];
      assert events[..0] == [];
      assert !Outstanding(Run(H, s, events), a, joiner, pp);
    }
  }

  /** One packet from a newcomer to a host with a chain of its own, and then silence for EXPIRATION. */
  function SilentStart(a: string, joiner: string, now: int): seq<Event> {
    [ReceiveGossip(a, joiner, 0)] + [Tick(now + EXPIRATION + 1)]
  }

  /** It happens: from an initial state, a newcomer that does not answer its first proposal within EXPIRATION
      (or whose proposal or answer is lost) never gets another one, whatever happens afterwards. */
  lemma SilentJoinerIsLockedOut(H: BlockHash, a: string, joiner: string, g: Block, now: int, after: seq<Event>)
    requires HasProofOfWork(H, g) && g.nodeID == 1 && g.previousHash == GenesisPreviousHash() && g.timestamp <= now
    ensures Init(H, Alone(a, g, now))
    ensures var s := Run(H, Alone(a, g, now), SilentStart(a, joiner, now) + after);
            var pp := Proposal(a, NextNodeID(H, Genesis(g), now), now, H(g));
            && Outstanding(s, a, joiner, pp)
            && forall t :: OnJoining(H, s.nodes[a], joiner, t) == Done(s.nodes[a], [])
  {
    var s0, start := Alone(a, g, now), SilentStart(a, joiner, now);
    var pp := Proposal(a, NextNodeID(H, Genesis(g), now), now, H(g));
    AfterSilence(H, a, joiner, g, now);
    RunConcat(H, s0, start, after);
    ExpiredStaysOutstanding(H, Run(H, s0, start), after, a, joiner, pp);
    forall t
      ensures OnJoining(H, Run(H, s0, start + after).nodes[a], joiner, t) == Done(Run(H, s0, start + after).nodes[a], [])
    {
      OutstandingBlocksProposals(H, Run(H, s0, start + after), a, joiner, pp, t);
    }
  }

  lemma AfterSilence(H: BlockHash, a: string, joiner: string, g: Block, now: int)
    requires g.nodeID == 1
    ensures var s := Run(H, Alone(a, g, now), SilentStart(a, joiner, now));
            && Outstanding(s, a, joiner, Proposal(a, NextNodeID(H, Genesis(g), now), now, H(g)))
            && s.now == now + EXPIRATION + 1
  {
    var s0, e, tick := Alone(a, g, now), ReceiveGossip(a, joiner, 0), Tick(now + EXPIRATION + 1);
    assert !PassesAdmission(H, s0.nodes[a], 0, now);
    assert Run(H, s0, [e]) == Step(H, s0, e) by { assert [e][..0] == []; }
    assert Run(H, s0, [e] + [tick]) == Step(H, Run(H, s0, [e]), tick) by { assert ([e] + [tick])[..1] == [e]; }
  }

  // --------------------------------------------------------------------------- overtaken

  predicate CarriesStamp(payload: Payload, stamp: seq<byte>) {
    payload.PuzzleResponse? && payload.createdBlock.Some? ==> payload.createdBlock.value.previousHash == stamp
  }

  /** Every solution that reaches node `a` from the joiner's address answers a proposal with this stamp. */
  predicate AnswersStamp(e: Event, a: string, joiner: string, stamp: seq<byte>) {
    && (e.Deliver? && e.message.packet.to == a && e.message.from == joiner ==>
         CarriesStamp(e.message.packet.payload, stamp))
    && (e.Forge? && e.at == a && e.from == joiner ==> CarriesStamp(e.payload, stamp))
  }

  /** No block with this previous hash is accepted, whatever the clock reads. */
  ghost predicate RefusesStamp(H: BlockHash, c: Chain, stamp: seq<byte>) {
    forall b: Block, now: int :: b.previousHash == stamp ==> AddVerdict(H, c, b, now) == Rejected
  }

  /** The history of node `a` has moved on from the one the proposal was made on. */
  ghost predicate Overtaken(s: Net, a: string, m: Message) {
    && m in s.messages && m.packet.payload.PuzzleProposal?
    && a in s.histories && Extends(s.histories[a], m.history) && s.histories[a] != m.history
  }

  lemma PrefixHasNoAdoption(H: BlockHash, s: Net, events: seq<Event>, n: nat, a: string)
    requires NoAdoption(H, s, events, a) && n <= |events|
    ensures NoAdoption(H, s, events[..n], a)
  {
    forall k | 0 <= k < n
      ensures !AdoptsOn(Run(H, s, events[..n][..k]), events[..n][k], a)
    {
      assert events[..n][..k] == events[..k];
    }
  }

  lemma AnswersRefused(H: BlockHash, s0: Net, before: seq<Event>, after: seq<Event>, m: Message, a: string)
    requires Init(H, s0) && Overtaken(Run(H, s0, before), a, m)
    requires NoAdoption(H, Run(H, s0, before), after, a)
    requires CollisionFree(H, Run(H, s0, before + after).blocks)
    ensures a in Run(H, s0, before + after).nodes
    ensures RefusesStamp(H, Run(H, s0, before + after).nodes[a].chain, m.packet.payload.proposal.previousHash)
  {
    ReachableSound(H, s0, before);
    RunConcat(H, s0, before, after);
    RunGrows(H, Run(H, s0, before), after);
    forall b: Block, now: int | b.previousHash == m.packet.payload.proposal.previousHash
      ensures AddVerdict(H, Run(H, s0, before + after).nodes[a].chain, b, now) == Rejected
    {
      OvertakenNeverSucceeds(H, s0, before, after, m, a, b, now);
    }
  }

  lemma StampFreesNothing(H: BlockHash, s: Net, e: Event, a: string, joiner: string, stamp: seq<byte>)
    requires AnswersStamp(e, a, joiner, stamp) && a in s.nodes && RefusesStamp(H, s.nodes[a].chain, stamp)
    ensures !FreesOn(H, s, e, a, joiner)
  {
    if e.Deliver? || e.Forge? {
      var payload := if e.Deliver? then e.message.packet.payload else e.payload;
      if payload.PuzzleResponse? && payload.createdBlock.Some? {
        var b := payload.createdBlock.value;
        assert b.previousHash == stamp ==> AddVerdict(H, s.nodes[a].chain, b, s.now) == Rejected;
      }
    }
  }

  /** A joiner that loses the race and only ever answers the proposal it was sent is locked out at once: as long
      as the host adopts no other chain, nothing it sends frees its address. By the exact condition above it can
      free it only with another previous hash. */
  lemma OvertakenJoinerIsLockedOut(H: BlockHash, s0: Net, before: seq<Event>, after: seq<Event>, m: Message, a: string,
                                   joiner: string)
    requires Init(H, s0) && Overtaken(Run(H, s0, before), a, m)
    requires Outstanding(Run(H, s0, before), a, joiner, m.packet.payload.proposal)
    requires NoAdoption(H, Run(H, s0, before), after, a)
    requires forall k :: 0 <= k < |after| ==> AnswersStamp(after[k], a, joiner, m.packet.payload.proposal.previousHash)
    requires CollisionFree(H, Run(H, s0, before + after).blocks)
    ensures OutstandingThroughout(H, Run(H, s0, before), after, a, joiner, m.packet.payload.proposal)
  {
    var s := Run(H, s0, before);
    forall k | 0 <= k < |after|
      ensures !FreesOn(H, Run(H, s, after[..k]), after[k], a, joiner)
    {
      PrefixRefuses(H, s0, before, after, m, a, k);
      StampFreesNothing(H, Run(H, s, after[..k]), after[k], a, joiner, m.packet.payload.proposal.previousHash);
    }
    OutstandingIffNothingFrees(H, s, after, a, joiner, m.packet.payload.proposal);
  }

  lemma PrefixRefuses(H: BlockHash, s0: Net, before: seq<Event>, after: seq<Event>, m: Message, a: string, k: nat)
    requires Init(H, s0) && Overtaken(Run(H, s0, before), a, m) && k <= |after|
    requires NoAdoption(H, Run(H, s0, before), after, a)
    requires CollisionFree(H, Run(H, s0, before + after).blocks)
    ensures var t := Run(H, Run(H, s0, before), after[..k]);
            a in t.nodes && RefusesStamp(H, t.nodes[a].chain, m.packet.payload.proposal.previousHash)
  {
    var first, later := after[..k], after[k..];
    assert before + after == (before + first) + later;
    RunConcat(H, s0, before, first);
    RunConcat(H, s0, before + first, later);
    RunGrows(H, Run(H, s0, before + first), later);
    PrefixHasNoAdoption(H, Run(H, s0, before), after, k, a);
    AnswersRefused(H, s0, before, first, m, a);
  }
}
