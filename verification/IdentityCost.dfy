/** What it costs to hold identities: being admitted under N ids again and again takes N fresh
    proof-of-work blocks every EXPIRATION. */
module IdentityCost {
  import opened Bytes
  import opened Blocks
  import opened BlockChains
  import opened Histories
  import opened Recycling
  import opened PuzzlesStates
  import opened JoinNetwork
  import opened HonestRuns

  /** At `instant`, when the first `length` blocks of a history had been accepted, all of `ids` passed. */
  datatype Observation = Observation(length: nat, instant: int, ids: set<nat>)

  ghost predicate Observed(H: BlockHash, h: History, o: Observation) {
    && o.length <= |h|
    && (forall id :: id in o.ids ==> ContainsValidNodeID(H, ChainOf(h[..o.length]), id, o.instant))
    && Prompt(ChainOf(h[..o.length]), o.ids, o.instant)
  }

  /** The blocks behind these ids are not stamped later than t. */
  ghost predicate Prompt(c: Chain, ids: set<nat>, t: int) {
    forall id :: id in ids && id in BlocksOf(c) ==> BlocksOf(c)[id].timestamp <= t
  }

  predicate Apart(t: int, u: int) {
    t - u > EXPIRATION || u - t > EXPIRATION
  }

  ghost function WorkBlocks(H: BlockHash, h: History): set<Block> {
    set b | b in h && HasProofOfWork(H, b)
  }

  /** The blocks that made the observed ids pass. */
  ghost function Behind(H: BlockHash, h: History, o: Observation): set<Block>
    requires Observed(H, h, o)
  {
    set id | id in o.ids :: BlocksOf(ChainOf(h[..o.length]))[id]
  }

  lemma {:induction false} OneBlockPerId(m: map<nat, Block>, ids: set<nat>)
    requires forall id :: id in ids ==> id in m && m[id].nodeID == id
    ensures |set id | id in ids :: m[id]| == |ids|
    decreases ids
  {
    if ids != {} {
      var x :| x in ids;
      OneBlockPerId(m, ids - {x});
      var rest := set id | id in ids - {x} :: m[id];
      assert m[x] !in rest;
      assert (set id | id in ids :: m[id]) == rest + {m[x]};
    }
  }

  /** Each id passes on a block of its own, accepted by then and stamped within the last EXPIRATION. */
  lemma BehindObservation(H: BlockHash, h: History, o: Observation)
    requires Observed(H, h, o)
    ensures |Behind(H, h, o)| == |o.ids|
    ensures Behind(H, h, o) <= WorkBlocks(H, h)
    ensures forall b :: b in Behind(H, h, o) ==> o.instant - EXPIRATION <= b.timestamp <= o.instant
  {
    var p := h[..o.length];
    if p != [] {
      ChainOfIsLastWriterWins(p);
    }
    var m := BlocksOf(ChainOf(p));
    forall id | id in o.ids
      ensures id in m && m[id].nodeID == id && m[id] in h && IsValid(H, m[id], o.instant) &&
              m[id].timestamp <= o.instant
    {
      assert ContainsValidNodeID(H, ChainOf(p), id, o.instant);
      var l := LastIndex(p, id);
      assert m[id] == p[l] == h[l];
    }
    OneBlockPerId(m, o.ids);
  }

  ghost function BehindAll(H: BlockHash, h: History, os: seq<Observation>): set<Block>
    requires forall i :: 0 <= i < |os| ==> Observed(H, h, os[i])
  {
    if os == [] then {} else Behind(H, h, os[0]) + BehindAll(H, h, os[1..])
  }

  predicate InWindow(b: Block, t: int) {
    t - EXPIRATION <= b.timestamp <= t
  }

  /** Blocks behind instants that are far apart are different blocks. */
  lemma BehindDisjoint(H: BlockHash, h: History, o: Observation, others: set<Block>, instants: set<int>)
    requires Observed(H, h, o)
    requires forall t :: t in instants ==> Apart(o.instant, t)
    requires forall b :: b in others ==> exists t :: t in instants && InWindow(b, t)
    ensures |Behind(H, h, o) + others| == |o.ids| + |others|
  {
    BehindObservation(H, h, o);
    forall b | b in others
      ensures b !in Behind(H, h, o)
    {
      var t :| t in instants && InWindow(b, t);
      assert Apart(o.instant, t);
    }
    assert Behind(H, h, o) !! others;
  }

  ghost function Instants(os: seq<Observation>): (r: set<int>)
    ensures forall i :: 0 <= i < |os| ==> os[i].instant in r
    ensures forall t :: t in r ==> exists i :: 0 <= i < |os| && os[i].instant == t
  {
    set i | 0 <= i < |os| :: os[i].instant
  }

  lemma {:induction false} BehindAllWithin(H: BlockHash, h: History, os: seq<Observation>)
    requires forall i :: 0 <= i < |os| ==> Observed(H, h, os[i])
    ensures BehindAll(H, h, os) <= WorkBlocks(H, h)
    ensures forall b :: b in BehindAll(H, h, os) ==> exists t :: t in Instants(os) && InWindow(b, t)
  {
    if os != [] {
      var rest := os[1..];
      BehindObservation(H, h, os[0]);
      BehindAllWithin(H, h, rest);
      assert forall b :: b in Behind(H, h, os[0]) ==> InWindow(b, os[0].instant) && os[0].instant in Instants(os);
      RestInstants(os);
    }
  }

  lemma RestInstants(os: seq<Observation>)
    requires os != []
    ensures forall t :: t in Instants(os[1..]) ==> t in Instants(os)
    ensures forall t :: t in Instants(os[1..]) ==> exists i :: 1 <= i < |os| && os[i].instant == t
  {
    forall t | t in Instants(os[1..])
      ensures t in Instants(os) && exists i :: 1 <= i < |os| && os[i].instant == t
    {
      var i :| 0 <= i < |os[1..]| && os[1..][i].instant == t;
      assert os[1..][i] == os[i + 1];
    }
  }

  lemma {:induction false} BehindAllSize(H: BlockHash, h: History, os: seq<Observation>, n: nat)
    requires forall i :: 0 <= i < |os| ==> Observed(H, h, os[i]) && |os[i].ids| >= n
    requires forall i, j :: 0 <= i < j < |os| ==> Apart(os[i].instant, os[j].instant)
    ensures |BehindAll(H, h, os)| >= n * |os|
  {
    if os != [] {
      BehindAllSize(H, h, os[1..], n);
      BehindAllWithin(H, h, os[1..]);
      RestInstants(os);
      BehindDisjoint(H, h, os[0], BehindAll(H, h, os[1..]), Instants(os[1..]));
      OneMore(n, |os|);
    }
  }

  lemma OneMore(n: nat, k: nat)
    requires k > 0
    ensures n * k == n + n * (k - 1)
  {
  }

  /** N ids admitted at each of k instants pairwise more than EXPIRATION apart need N * k distinct
      proof-of-work blocks, if no block behind them is stamped later than the instant it serves at. */
  lemma IdentitiesCostWork(H: BlockHash, h: History, os: seq<Observation>, n: nat)
    requires forall i :: 0 <= i < |os| ==> Observed(H, h, os[i]) && |os[i].ids| >= n
    requires forall i, j :: 0 <= i < j < |os| ==> Apart(os[i].instant, os[j].instant)
    ensures |WorkBlocks(H, h)| >= n * |os|
  {
    BehindAllSize(H, h, os, n);
    BehindAllWithin(H, h, os);
    var all := WorkBlocks(H, h);
    assert all == BehindAll(H, h, os) + (all - BehindAll(H, h, os));
  }

  /** The state after the first `steps` events of a run, in which all of `ids` pass node a's admission test. */
  datatype Sighting = Sighting(steps: nat, ids: set<nat>)

  ghost predicate Seen(H: BlockHash, s: Net, events: seq<Event>, a: string, o: Sighting) {
    && o.steps <= |events|
    && var t := Run(H, s, events[..o.steps]);
       a in t.nodes && forall id :: id in o.ids ==> PassesAdmission(H, t.nodes[a], id, t.now)
  }

  ghost predicate SeenPromptly(H: BlockHash, s: Net, events: seq<Event>, a: string, o: Sighting) {
    && Seen(H, s, events, a, o)
    && var t := Run(H, s, events[..o.steps]);
       Prompt(t.nodes[a].chain, o.ids, t.now)
  }

  ghost function InstantOf(H: BlockHash, s: Net, events: seq<Event>, o: Sighting): int {
    if o.steps <= |events| then Run(H, s, events[..o.steps]).now else 0
  }

  /** Every sighting, with at least n ids. */
  ghost predicate AllSeen(H: BlockHash, s: Net, events: seq<Event>, a: string, os: seq<Sighting>, n: nat) {
    forall i :: 0 <= i < |os| ==> Seen(H, s, events, a, os[i]) && |os[i].ids| >= n
  }

  ghost predicate AllPrompt(H: BlockHash, s: Net, events: seq<Event>, a: string, os: seq<Sighting>) {
    forall i :: 0 <= i < |os| ==> SeenPromptly(H, s, events, a, os[i])
  }

  ghost predicate PairwiseApart(H: BlockHash, s: Net, events: seq<Event>, os: seq<Sighting>) {
    forall i, j :: 0 <= i < j < |os| ==> Apart(InstantOf(H, s, events, os[i]), InstantOf(H, s, events, os[j]))
  }

  lemma LaterHasNoAdoption(H: BlockHash, s: Net, first: seq<Event>, later: seq<Event>, a: string)
    requires NoAdoption(H, s, first + later, a)
    ensures NoAdoption(H, Run(H, s, first), later, a)
  {
    var events := first + later;
    forall k | 0 <= k < |later|
      ensures !AdoptsOn(Run(H, Run(H, s, first), later[..k]), later[k], a)
    {
      assert events[..|first| + k] == first + later[..k];
      RunConcat(H, s, first, later[..k]);
      assert !AdoptsOn(Run(H, s, events[..|first| + k]), events[|first| + k], a);
    }
  }

  lemma SeenIsObserved(H: BlockHash, t: Net, later: seq<Event>, a: string, ids: set<nat>)
    requires Invariant(H, t) && a in t.nodes && NoAdoption(H, t, later, a)
    requires forall id :: id in ids ==> PassesAdmission(H, t.nodes[a], id, t.now)
    requires Prompt(t.nodes[a].chain, ids, t.now)
    ensures a in t.histories && a in Run(H, t, later).histories
    ensures Observed(H, Run(H, t, later).histories[a], Observation(|t.histories[a]|, t.now, ids))
  {
    assert NodeSound(H, t, a);
    RunExtends(H, t, later, a);
    forall id | id in ids
      ensures ContainsValidNodeID(H, t.nodes[a].chain, id, t.now)
    {
      assert PassesAdmission(H, t.nodes[a], id, t.now);
    }
  }

  /** The run cut in two: what holds of the state in between, and of the rest. */
  lemma Midway(H: BlockHash, s: Net, events: seq<Event>, n: nat, a: string)
    requires Invariant(H, s) && NoAdoption(H, s, events, a) && n <= |events|
    ensures var t := Run(H, s, events[..n]);
            && Invariant(H, t) && NoAdoption(H, t, events[n..], a)
            && Run(H, t, events[n..]) == Run(H, s, events)
  {
    var first, later := events[..n], events[n..];
    assert first + later == events;
    RunConcat(H, s, first, later);
    RunKeepsInvariant(H, s, first);
    LaterHasNoAdoption(H, s, first, later, a);
  }

  ghost function ObservationOf(H: BlockHash, s: Net, events: seq<Event>, a: string, o: Sighting): Observation
    requires o.steps <= |events|
  {
    var t := Run(H, s, events[..o.steps]);
    Observation(if a in t.histories then |t.histories[a]| else 0, t.now, o.ids)
  }

  /** A prompt sighting, in any run, is an observation of the node's final history. */
  lemma SightingObserved(H: BlockHash, s: Net, events: seq<Event>, a: string, o: Sighting)
    requires Invariant(H, s) && NoAdoption(H, s, events, a) && SeenPromptly(H, s, events, a, o)
    ensures a in Run(H, s, events).histories
    ensures Observed(H, Run(H, s, events).histories[a], ObservationOf(H, s, events, a, o))
  {
    Midway(H, s, events, o.steps, a);
    SeenIsObserved(H, Run(H, s, events[..o.steps]), events[o.steps..], a, o.ids);
  }

  lemma SightingsCostWork(H: BlockHash, s: Net, events: seq<Event>, a: string, os: seq<Sighting>, n: nat)
    requires Invariant(H, s) && NoAdoption(H, s, events, a) && os != []
    requires AllSeen(H, s, events, a, os, n) && AllPrompt(H, s, events, a, os) && PairwiseApart(H, s, events, os)
    ensures a in Run(H, s, events).histories
    ensures |WorkBlocks(H, Run(H, s, events).histories[a])| >= n * |os|
  {
    SightingObserved(H, s, events, a, os[0]);
    var obs := seq(|os|, i requires 0 <= i < |os| => ObservationOf(H, s, events, a, os[i]));
    forall i | 0 <= i < |os|
      ensures Observed(H, Run(H, s, events).histories[a], obs[i])
    {
      SightingObserved(H, s, events, a, os[i]);
    }
    IdentitiesCostWork(H, Run(H, s, events).histories[a], obs, n);
  }

  /** In every run, whatever is forged: whoever gets N ids past a node's admission test at each of k instants
      pairwise more than EXPIRATION apart (the node adopting no other chain meanwhile) has caused N * k
      distinct proof-of-work blocks in that node's history, if no block behind a sighting is stamped later
      than the sighting. */
  lemma AdmissionCostsWork(H: BlockHash, s0: Net, before: seq<Event>, events: seq<Event>, a: string,
                           os: seq<Sighting>, n: nat)
    requires Init(H, s0) && NoAdoption(H, Run(H, s0, before), events, a) && os != []
    requires var s := Run(H, s0, before);
             AllSeen(H, s, events, a, os, n) && AllPrompt(H, s, events, a, os) && PairwiseApart(H, s, events, os)
    ensures a in Run(H, Run(H, s0, before), events).histories
    ensures |WorkBlocks(H, Run(H, Run(H, s0, before), events).histories[a])| >= n * |os|
  {
    ReachableSound(H, s0, before);
    SightingsCostWork(H, Run(H, s0, before), events, a, os, n);
  }

  // ------------------------------------------------------------------ future timestamps

  /** In two states of one run, more than EXPIRATION apart, an id passes on one and the same block b. */
  ghost predicate ServesTwice(H: BlockHash, s: Net, es: seq<Event>, fs: seq<Event>, a: string, id: nat, b: Block) {
    var t, u := Run(H, s, es), Run(H, s, es + fs);
    PassesOn(H, t, a, id, b) && PassesOn(H, u, a, id, b) && Apart(t.now, u.now)
  }

  ghost predicate PassesOn(H: BlockHash, s: Net, a: string, id: nat, b: Block) {
    && a in s.nodes && PassesAdmission(H, s.nodes[a], id, s.now)
    && id in BlocksOf(s.nodes[a].chain) && BlocksOf(s.nodes[a].chain)[id] == b
  }

  lemma EntryWorked(H: BlockHash, s: Net, a: string, id: nat)
    requires Invariant(H, s) && a in s.nodes && id in BlocksOf(s.nodes[a].chain)
    ensures HasProofOfWork(H, BlocksOf(s.nodes[a].chain)[id])
  {
    assert NodeSound(H, s, a);
    ChainOfIsLastWriterWins(s.histories[a]);
  }

  /** The exact condition. An entry of a node's table can serve at two instants more than EXPIRATION apart, in
      some continuation of the run, if and only if it is stamped later than the clock now reads. Acceptance does
      not compare the two, so whether the cost is paid depends on the sender of the block. */
  lemma ServesTwiceIffStampedInFuture(H: BlockHash, s0: Net, before: seq<Event>, a: string, id: nat)
    requires Init(H, s0)
    requires var s := Run(H, s0, before); a in s.nodes && id in BlocksOf(s.nodes[a].chain) && id != s.nodes[a].myID
    ensures var s := Run(H, s0, before);
            var b := BlocksOf(s.nodes[a].chain)[id];
            (exists es, fs :: ServesTwice(H, s, es, fs, a, id, b)) <==> b.timestamp > s.now
  {
    ReachableSound(H, s0, before);
    var s := Run(H, s0, before);
    var b := BlocksOf(s.nodes[a].chain)[id];
    EntryWorked(H, s, a, id);
    forall es, fs | ServesTwice(H, s, es, fs, a, id, b)
      ensures b.timestamp > s.now
    {
      RunGrows(H, s, es);
      RunConcat(H, s, es, fs);
      RunGrows(H, Run(H, s, es), fs);
    }
    if b.timestamp > s.now {
      var tick := Tick(b.timestamp + EXPIRATION);
      OneTick(H, s, tick);
      assert ServesTwice(H, s, [], [tick], a, id, b);
    }
  }

  lemma OneTick(H: BlockHash, s: Net, e: Event)
    ensures Run(H, s, [] + [e]) == Step(H, s, e)
  {
    assert [] + [e] == [e] && [e][..0] == [];
  }

  function FutureRun(a: string, from: string, b: Block, now: int): seq<Event> {
    [Forge(a, from, BlockBroadcast(from, b), None)] + [Tick(now + EXPIRATION + 1)] + [Tick(now + 2 * (EXPIRATION + 1))]
  }

  /** What fails without the hypothesis: one forged broadcast, stamped far enough in the future, keeps its id
      admitted at three instants pairwise more than EXPIRATION apart, with two blocks in the history. */
  lemma FutureStampPaysOnce(H: BlockHash, a: string, from: string, g: Block, b: Block, now: int)
    requires HasProofOfWork(H, g) && g.nodeID == 1 && g.previousHash == GenesisPreviousHash() && g.timestamp <= now
    requires HasProofOfWork(H, b) && b.nodeID == 2 && b.previousHash == H(g)
    requires b.timestamp == now + 2 * (EXPIRATION + 1)
    ensures var s0, events, os := Alone(a, g, now), FutureRun(a, from, b, now), FutureSightings();
            && Init(H, s0) && NoAdoption(H, s0, events, a)
            && AllSeen(H, s0, events, a, os, 1) && PairwiseApart(H, s0, events, os)
            && a in Run(H, s0, events).histories
            && |WorkBlocks(H, Run(H, s0, events).histories[a])| < 1 * |os|
  {
    AloneInit(H, a, from, g, b, now);
    FutureSeen(H, a, from, g, b, now);
    FutureHistory(H, a, from, g, b, now);
    WorkBlocksBound(H, [g] + [b]);
  }

  function FutureSightings(): seq<Sighting> {
    [Sighting(1, {2}), Sighting(2, {2}), Sighting(3, {2})]
  }

  lemma FutureSeen(H: BlockHash, a: string, from: string, g: Block, b: Block, now: int)
    requires HasProofOfWork(H, b) && b.nodeID == 2 && b.previousHash == H(g)
    requires b.timestamp == now + 2 * (EXPIRATION + 1)
    ensures var s0, events, os := Alone(a, g, now), FutureRun(a, from, b, now), FutureSightings();
            AllSeen(H, s0, events, a, os, 1) && PairwiseApart(H, s0, events, os)
  {
    var s0, events := Alone(a, g, now), FutureRun(a, from, b, now);
    FutureSighting(H, a, from, g, b, now, 1);
    FutureSighting(H, a, from, g, b, now, 2);
    FutureSighting(H, a, from, g, b, now, 3);
    ThreeSightings(H, s0, events, a, Sighting(1, {2}), Sighting(2, {2}), Sighting(3, {2}));
  }

  lemma ThreeSightings(H: BlockHash, s: Net, events: seq<Event>, a: string, o1: Sighting, o2: Sighting, o3: Sighting)
    requires Seen(H, s, events, a, o1) && Seen(H, s, events, a, o2) && Seen(H, s, events, a, o3)
    requires |o1.ids| >= 1 && |o2.ids| >= 1 && |o3.ids| >= 1
    requires InstantOf(H, s, events, o1) + EXPIRATION < InstantOf(H, s, events, o2)
    requires InstantOf(H, s, events, o2) + EXPIRATION < InstantOf(H, s, events, o3)
    ensures AllSeen(H, s, events, a, [o1, o2, o3], 1) && PairwiseApart(H, s, events, [o1, o2, o3])
  {
  }

  lemma FutureSighting(H: BlockHash, a: string, from: string, g: Block, b: Block, now: int, k: nat)
    requires HasProofOfWork(H, b) && b.nodeID == 2 && b.previousHash == H(g)
    requires b.timestamp == now + 2 * (EXPIRATION + 1) && 1 <= k <= 3
    ensures var s0, events := Alone(a, g, now), FutureRun(a, from, b, now);
            && Seen(H, s0, events, a, Sighting(k, {2}))
            && InstantOf(H, s0, events, Sighting(k, {2})) == now + (k - 1) * (EXPIRATION + 1)
  {
    FutureRunStates(H, a, from, g, b, now);
    var t := Run(H, Alone(a, g, now), FutureRun(a, from, b, now)[..k]);
    assert a in t.nodes && BlocksOf(t.nodes[a].chain)[2] == b;
    assert PassesAdmission(H, t.nodes[a], 2, t.now);
  }

  lemma AloneInit(H: BlockHash, a: string, from: string, g: Block, b: Block, now: int)
    requires HasProofOfWork(H, g) && g.nodeID == 1 && g.previousHash == GenesisPreviousHash() && g.timestamp <= now
    ensures Init(H, Alone(a, g, now)) && NoAdoption(H, Alone(a, g, now), FutureRun(a, from, b, now), a)
  {
    assert forall k :: 0 <= k < 3 ==> !FutureRun(a, from, b, now)[k].Deliver?;
  }

  lemma FutureHistory(H: BlockHash, a: string, from: string, g: Block, b: Block, now: int)
    requires HasProofOfWork(H, b) && b.nodeID == 2 && b.previousHash == H(g)
    requires b.timestamp == now + 2 * (EXPIRATION + 1)
    ensures Run(H, Alone(a, g, now), FutureRun(a, from, b, now)).histories == map[a := [g] + [b]]
  {
    FutureRunStates(H, a, from, g, b, now);
    assert FutureRun(a, from, b, now)[..3] == FutureRun(a, from, b, now);
  }

  lemma WorkBlocksBound(H: BlockHash, h: History)
    requires |h| == 2
    ensures |WorkBlocks(H, h)| <= 2
  {
    var all := {h[0], h[1]};
    assert WorkBlocks(H, h) <= all;
    assert all == WorkBlocks(H, h) + (all - WorkBlocks(H, h));
  }

  lemma FutureRunStates(H: BlockHash, a: string, from: string, g: Block, b: Block, now: int)
    requires HasProofOfWork(H, b) && b.nodeID == 2 && b.previousHash == H(g)
    requires b.timestamp == now + 2 * (EXPIRATION + 1)
    ensures var s0, events := Alone(a, g, now), FutureRun(a, from, b, now);
            && Run(H, s0, events[..0]) == s0
            && forall k :: 1 <= k <= 3 ==>
                 && Run(H, s0, events[..k]).nodes == map[a := Node(a, 1, true, Append(Genesis(g), b), map[], [])]
                 && Run(H, s0, events[..k]).histories == map[a := [g] + [b]]
                 && Run(H, s0, events[..k]).now == now + (k - 1) * (EXPIRATION + 1)
  {
    var s0, events := Alone(a, g, now), FutureRun(a, from, b, now);
    assert events[..3][..2] == events[..2] && events[..2][..1] == events[..1] && events[..1][..0] == events[..0] == [];
    assert BlockPackets(Node(a, 1, true, Append(Genesis(g), b), map[], []), [], b, from) == [];
    assert Run(H, s0, events[..1]) == Step(H, s0, events[0]);
    assert Run(H, s0, events[..2]) == Step(H, Run(H, s0, events[..1]), events[1]);
    assert Run(H, s0, events[..3]) == Step(H, Run(H, s0, events[..2]), events[2]);
  }

  // ------------------------------------------------------------------------ honest runs

  lemma HonestIsPrompt(H: BlockHash, s: Net, a: string, ids: set<nat>)
    requires HonestInvariant(H, s) && a in s.nodes
    ensures Prompt(s.nodes[a].chain, ids, s.now)
  {
    assert NodeSound(H, s, a) && HonestSoFar(H, s.histories[a], s.now);
    var h := s.histories[a];
    if h != [] {
      ChainOfIsLastWriterWins(h);
      forall id | id in s.nodes[a].chain.blocks
        ensures s.nodes[a].chain.blocks[id].timestamp <= s.now
      {
        TimestampsRise(h, LastIndex(h, id), |h| - 1);
      }
    }
  }

  lemma {:induction false} PrefixGrows(H: BlockHash, s: Net, events: seq<Event>, n: nat)
    requires n <= |events|
    ensures Run(H, s, events[..n]).blocks <= Run(H, s, events).blocks
    decreases |events|
  {
    if n < |events| {
      var front := events[..|events| - 1];
      assert front[..n] == events[..n];
      PrefixGrows(H, s, front, n);
      StepGrows(H, Run(H, s, front), events[|events| - 1]);
    } else {
      assert events[..n] == events;
    }
  }

  lemma HonestSighting(H: BlockHash, s: Net, events: seq<Event>, a: string, o: Sighting)
    requires HonestInvariant(H, s) && forall k :: 0 <= k < |events| ==> HonestEvent(H, events[k])
    requires CollisionFree(H, Run(H, s, events).blocks) && Seen(H, s, events, a, o)
    ensures SeenPromptly(H, s, events, a, o)
  {
    PrefixGrows(H, s, events, o.steps);
    RunKeepsHonest(H, s, events[..o.steps]);
    HonestIsPrompt(H, Run(H, s, events[..o.steps]), a, o.ids);
  }

  /** Without forgery no sighting needs the hypothesis: in honest runs the bound holds outright. */
  lemma HonestAdmissionCostsWork(H: BlockHash, s0: Net, before: seq<Event>, events: seq<Event>, a: string,
                                 os: seq<Sighting>, n: nat)
    requires Init(H, s0) && (forall k :: 0 <= k < |before| ==> HonestEvent(H, before[k]))
    requires forall k :: 0 <= k < |events| ==> HonestEvent(H, events[k])
    requires CollisionFree(H, Run(H, Run(H, s0, before), events).blocks)
    requires NoAdoption(H, Run(H, s0, before), events, a) && os != []
    requires var s := Run(H, s0, before); AllSeen(H, s, events, a, os, n) && PairwiseApart(H, s, events, os)
    ensures a in Run(H, Run(H, s0, before), events).histories
    ensures |WorkBlocks(H, Run(H, Run(H, s0, before), events).histories[a])| >= n * |os|
  {
    var s := Run(H, s0, before);
    RunGrows(H, s, events);
    InitHonest(H, s0);
    RunKeepsHonest(H, s0, before);
    forall i | 0 <= i < |os|
      ensures SeenPromptly(H, s, events, a, os[i])
    {
      HonestSighting(H, s, events, a, os[i]);
    }
    AdmissionCostsWork(H, s0, before, events, a, os, n);
  }
}
