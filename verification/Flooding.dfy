/** Flooding of block broadcasts on its own: no joins, no adoptions, no duplication by the network. */
module Flooding {
  import opened Blocks
  import opened BlockChains
  import opened Histories
  import opened PuzzlesStates
  import opened JoinNetwork

  /** A broadcast on its way. */
  datatype Flight = Flight(from: string, to: string, block: Block)

  /** Nodes with the histories behind their chains, and the broadcasts in flight; each is delivered
      at most once, in any order. A node that panics is removed. */
  datatype Flood = Flood(nodes: map<string, Node>, histories: map<string, History>, inFlight: seq<Flight>)

  /** Which broadcast arrives, and the receiver's clock reading. */
  datatype Delivery = Delivery(index: nat, now: int)

  function RemoveAt<T>(s: seq<T>, i: nat): (r: seq<T>)
    requires i < |s|
    ensures |r| == |s| - 1
    ensures forall x :: x in r ==> x in s
  {
    s[..i] + s[i + 1..]
  }

  function Flights(from: string, b: Block, sent: seq<Packet>): (r: seq<Flight>)
    ensures |r| == |sent|
    ensures forall f :: f in r ==> f.block == b
  {
    seq(|sent|, k requires 0 <= k < |sent| => Flight(from, sent[k].to, b))
  }

  predicate Possible(s: Flood, d: Delivery) {
    d.index < |s.inFlight|
  }

  predicate Accepts(H: BlockHash, s: Flood, d: Delivery)
    requires Possible(s, d)
  {
    var f := s.inFlight[d.index];
    f.to in s.nodes && f.to in s.histories && AddVerdict(H, s.nodes[f.to].chain, f.block, d.now) == Accepted
  }

  function Deliver(H: BlockHash, s: Flood, d: Delivery): Flood
    requires Possible(s, d)
  {
    var f := s.inFlight[d.index];
    var rest := RemoveAt(s.inFlight, d.index);
    if f.to !in s.nodes || f.to !in s.histories then s.(inFlight := rest)
    else match OnBroadcast(H, s.nodes[f.to], f.block, f.from, d.now)
      case Panic => s.(nodes := s.nodes - {f.to}, histories := s.histories - {f.to}, inFlight := rest)
      case Done(n, sent) =>
        s.(nodes := s.nodes[f.to := n],
           histories := s.histories[f.to := if Accepts(H, s, d) then s.histories[f.to] + [f.block] else s.histories[f.to]],
           inFlight := rest + Flights(f.to, f.block, sent))
  }

  ghost predicate Schedule(H: BlockHash, s: Flood, ds: seq<Delivery>)
    decreases ds
  {
    ds != [] ==> Possible(s, ds[0]) && Schedule(H, Deliver(H, s, ds[0]), ds[1..])
  }

  /** Every node's chain reflects its history, every block belongs to `blocks`, nobody has more than
      `fanout` peers. */
  ghost predicate Proper(H: BlockHash, s: Flood, blocks: set<Block>, fanout: nat) {
    && s.nodes.Keys == s.histories.Keys
    && (forall a :: a in s.nodes ==> ProperNode(H, s.histories[a], s.nodes[a], blocks, fanout))
    && (forall f :: f in s.inFlight ==> f.block in blocks)
  }

  /** The node/block pairs still missing. */
  ghost function Missing(s: Flood, blocks: set<Block>): set<(string, Block)> {
    set a, b | a in s.histories && b in blocks && b !in s.histories[a] :: (a, b)
  }

  ghost function Measure(s: Flood, blocks: set<Block>, fanout: nat): nat {
    fanout * |Missing(s, blocks)| + |s.inFlight|
  }

  /** A node never accepts a block it has accepted before, so it passes each block on at most once. */
  lemma AcceptedIsNew(H: BlockHash, h: History, c: Chain, b: Block, blocks: set<Block>, now: int)
    requires Sound(H, h, c, blocks) && b in blocks && CollisionFree(H, blocks)
    requires AddVerdict(H, c, b, now) == Accepted
    ensures b !in h
  {
    SoundGrows(H, h, c, b, blocks, now);
    assert blocks + {b} == blocks;
    if b in h {
      var i :| 0 <= i < |h| && h[i] == b;
      assert (h + [b])[i] == (h + [b])[|h|];
      HashesNeverRecur(H, blocks, h + [b], i, |h|);
      assert false;
    }
  }

  /** Accepting removes exactly one missing pair. */
  lemma MissingShrinks(s: Flood, s': Flood, blocks: set<Block>, a: string, b: Block)
    requires a in s.histories && b in blocks && b !in s.histories[a]
    requires s'.histories == s.histories[a := s.histories[a] + [b]]
    ensures |Missing(s', blocks)| == |Missing(s, blocks)| - 1
  {
    assert Missing(s', blocks) == Missing(s, blocks) - {(a, b)};
    assert (a, b) in Missing(s, blocks);
  }

  ghost predicate ProperNode(H: BlockHash, h: History, n: Node, blocks: set<Block>, fanout: nat) {
    Sound(H, h, n.chain, blocks) && |n.peers| <= fanout
  }

  lemma OnBroadcastKeepsProper(H: BlockHash, h: History, n: Node, b: Block, from: string, now: int,
                               blocks: set<Block>, fanout: nat)
    requires ProperNode(H, h, n, blocks, fanout) && b in blocks && OnBroadcast(H, n, b, from, now).Done?
    ensures var accepted := AddVerdict(H, n.chain, b, now) == Accepted;
            ProperNode(H, if accepted then h + [b] else h, OnBroadcast(H, n, b, from, now).node, blocks, fanout)
  {
    if AddVerdict(H, n.chain, b, now) == Accepted {
      SoundGrows(H, h, n.chain, b, blocks, now);
      assert blocks + {b} == blocks;
    }
  }

  lemma DeliverKeepsProper(H: BlockHash, s: Flood, d: Delivery, blocks: set<Block>, fanout: nat)
    requires Proper(H, s, blocks, fanout) && Possible(s, d)
    ensures Proper(H, Deliver(H, s, d), blocks, fanout)
  {
    var f, s' := s.inFlight[d.index], Deliver(H, s, d);
    assert f in s.inFlight;
    assert forall g :: g in s'.inFlight ==> g in s.inFlight || g.block == f.block;
    if f.to in s.nodes && OnBroadcast(H, s.nodes[f.to], f.block, f.from, d.now).Done? {
      OnBroadcastKeepsProper(H, s.histories[f.to], s.nodes[f.to], f.block, f.from, d.now, blocks, fanout);
    }
  }

  lemma AtLeastOne(fanout: nat, k: nat)
    requires k > 0
    ensures fanout * k == fanout * (k - 1) + fanout
  {
  }

  lemma AcceptLowersMeasure(H: BlockHash, s: Flood, d: Delivery, blocks: set<Block>, fanout: nat)
    requires Proper(H, s, blocks, fanout) && Possible(s, d) && CollisionFree(H, blocks) && Accepts(H, s, d)
    ensures Measure(Deliver(H, s, d), blocks, fanout) < Measure(s, blocks, fanout)
  {
    var f, s' := s.inFlight[d.index], Deliver(H, s, d);
    assert f in s.inFlight && ProperNode(H, s.histories[f.to], s.nodes[f.to], blocks, fanout);
    AcceptedIsNew(H, s.histories[f.to], s.nodes[f.to].chain, f.block, blocks, d.now);
    MissingShrinks(s, s', blocks, f.to, f.block);
    assert |s'.inFlight| <= |s.inFlight| - 1 + fanout;
    AtLeastOne(fanout, |Missing(s, blocks)|);
  }

  /** Each delivery strictly lowers the measure: a refused block only leaves the network, an accepted one
      is replaced by at most `fanout` copies but is one missing pair less. */
  lemma DeliverLowersMeasure(H: BlockHash, s: Flood, d: Delivery, blocks: set<Block>, fanout: nat)
    requires Proper(H, s, blocks, fanout) && Possible(s, d) && CollisionFree(H, blocks)
    ensures Measure(Deliver(H, s, d), blocks, fanout) < Measure(s, blocks, fanout)
  {
    if Accepts(H, s, d) {
      AcceptLowersMeasure(H, s, d, blocks, fanout);
    } else {
      var s' := Deliver(H, s, d);
      assert |s'.inFlight| == |s.inFlight| - 1;
      assert Missing(s', blocks) <= Missing(s, blocks);
      assert Missing(s, blocks) == Missing(s', blocks) + (Missing(s, blocks) - Missing(s', blocks));
      LessMissing(fanout, |Missing(s', blocks)|, |Missing(s, blocks)|);
    }
  }

  lemma LessMissing(fanout: nat, k: nat, l: nat)
    requires k <= l
    ensures fanout * k <= fanout * l
  {
  }

  /** Flooding terminates: no schedule delivers more broadcasts than the initial measure. */
  lemma {:induction false} FloodingTerminates(H: BlockHash, s: Flood, ds: seq<Delivery>, blocks: set<Block>,
                                              fanout: nat)
    requires Proper(H, s, blocks, fanout) && CollisionFree(H, blocks) && Schedule(H, s, ds)
    ensures |ds| <= Measure(s, blocks, fanout)
    decreases ds
  {
    if ds != [] {
      DeliverKeepsProper(H, s, ds[0], blocks, fanout);
      DeliverLowersMeasure(H, s, ds[0], blocks, fanout);
      FloodingTerminates(H, Deliver(H, s, ds[0]), ds[1..], blocks, fanout);
    }
  }

  function Final(H: BlockHash, s: Flood, ds: seq<Delivery>): Flood
    requires Schedule(H, s, ds)
    decreases ds
  {
    if ds == [] then s else Final(H, Deliver(H, s, ds[0]), ds[1..])
  }

  /** And it can always drain: some schedule delivers everything in flight, whatever the clocks read. */
  lemma {:induction false} FloodingDrains(H: BlockHash, s: Flood, blocks: set<Block>, fanout: nat, now: int)
    returns (ds: seq<Delivery>)
    requires Proper(H, s, blocks, fanout) && CollisionFree(H, blocks)
    ensures Schedule(H, s, ds) && Final(H, s, ds).inFlight == []
    decreases Measure(s, blocks, fanout)
  {
    if s.inFlight == [] {
      ds := [];
    } else {
      var d := Delivery(0, now);
      DeliverKeepsProper(H, s, d, blocks, fanout);
      DeliverLowersMeasure(H, s, d, blocks, fanout);
      var rest := FloodingDrains(H, Deliver(H, s, d), blocks, fanout, now);
      ds := [d] + rest;
      assert ds[1..] == rest;
    }
  }
}
