/** Ids are recycled as their blocks expire: an honest history is an optimal greedy interval colouring,
    and its unexpired blocks are a contiguous suffix. */
module Recycling {
  import opened Blocks
  import opened BlockChains
  import opened Histories

  /** Block k carries the next id of the chain before it, read at its own timestamp. */
  ghost predicate CarriesNextID(H: BlockHash, h: History, k: nat)
    requires k < |h|
  {
    h[k].nodeID == NextNodeID(H, ChainOf(h[..k]), h[k].timestamp)
  }

  ghost predicate Rising(h: History) {
    forall k :: 1 <= k < |h| ==> h[k - 1].timestamp <= h[k].timestamp
  }

  ghost predicate AllCarryNextID(H: BlockHash, h: History) {
    forall k :: 0 <= k < |h| ==> CarriesNextID(H, h, k)
  }

  ghost predicate AllWorked(H: BlockHash, h: History) {
    forall k :: 0 <= k < |h| ==> HasProofOfWork(H, h[k])
  }

  /** Every block answers a proposal made on the chain just before it: it carries that chain's next id,
      read at the block's timestamp, and no earlier timestamp than the block it follows. */
  ghost predicate Honest(H: BlockHash, h: History) {
    Linked(H, h) && AllWorked(H, h) && AllCarryNextID(H, h) && Rising(h)
  }

  lemma HonestPrefix(H: BlockHash, h: History, n: nat)
    requires Honest(H, h) && 1 <= n <= |h|
    ensures Honest(H, h[..n])
  {
    forall k | 0 <= k < n
      ensures CarriesNextID(H, h[..n], k)
    {
      assert CarriesNextID(H, h, k);
      assert h[..n][..k] == h[..k];
    }
  }

  /** A solved proposal made on h extends it to an honest history. */
  lemma HonestSnoc(H: BlockHash, h: History, b: Block)
    requires Honest(H, h) && HasProofOfWork(H, b) && b.previousHash == H(Last(h))
    requires b.nodeID == NextNodeID(H, ChainOf(h), b.timestamp) && Last(h).timestamp <= b.timestamp
    ensures Honest(H, h + [b])
  {
    AllCarried(H, h, b);
    LinkedSnoc(H, h, b);
    WorkedSnoc(H, h, b);
    RisingSnoc(h, b);
  }

  lemma WorkedSnoc(H: BlockHash, h: History, b: Block)
    requires AllWorked(H, h) && HasProofOfWork(H, b)
    ensures AllWorked(H, h + [b])
  {
  }

  lemma RisingSnoc(h: History, b: Block)
    requires h != [] && Rising(h) && Last(h).timestamp <= b.timestamp
    ensures Rising(h + [b])
  {
  }

  lemma AllCarried(H: BlockHash, h: History, b: Block)
    requires AllCarryNextID(H, h) && b.nodeID == NextNodeID(H, ChainOf(h), b.timestamp)
    ensures AllCarryNextID(H, h + [b])
  {
    forall k | 0 <= k < |h| + 1
      ensures CarriesNextID(H, h + [b], k)
    {
      CarriedBefore(H, h, b, k);
    }
  }

  lemma CarriedBefore(H: BlockHash, h: History, b: Block, k: nat)
    requires k <= |h|
    requires k < |h| ==> CarriesNextID(H, h, k)
    requires k == |h| ==> b.nodeID == NextNodeID(H, ChainOf(h), b.timestamp)
    ensures CarriesNextID(H, h + [b], k)
  {
    assert (h + [b])[..k] == h[..k];
    assert h[..|h|] == h;
  }

  lemma {:induction false} TimestampsRise(h: History, i: nat, j: nat)
    requires Rising(h) && i <= j < |h|
    ensures h[i].timestamp <= h[j].timestamp
    decreases j
  {
    if i < j {
      TimestampsRise(h, i, j - 1);
    }
  }

  /** What the table of the chain before block j holds for an id: a block not older than any h[i] with that id. */
  lemma TableEntry(h: History, j: nat, id: nat)
    requires 1 <= j <= |h|
    ensures var c := ChainOf(h[..j]); var l := LastIndex(h[..j], id);
            && (id in BlocksOf(c) <==> l >= 0)
            && (id in BlocksOf(c) ==> 0 <= l < j && BlocksOf(c)[id] == h[l] && h[l].nodeID == id)
            && forall i :: 0 <= i < j && h[i].nodeID == id ==> i <= l
  {
    ChainOfIsLastWriterWins(h[..j]);
    forall i | 0 <= i < j && h[i].nodeID == id
      ensures i <= LastIndex(h[..j], id)
    {
      assert h[..j][i].nodeID == id;
    }
  }

  /** A superseded block had already expired when its id was given out again. */
  lemma SupersededHadExpired(H: BlockHash, h: History, i: nat, j: nat)
    requires Honest(H, h) && i < j < |h| && h[i].nodeID == h[j].nodeID
    ensures Expired(h[i], h[j].timestamp)
  {
    var id := h[j].nodeID;
    TableEntry(h, j, id);
    var l := LastIndex(h[..j], id);
    assert CarriesNextID(H, h, j);
    assert !ContainsValidNodeID(H, ChainOf(h[..j]), id, h[j].timestamp);
    assert Expired(h[l], h[j].timestamp);
    TimestampsRise(h, i, l);
  }

  /** The order list is sorted by timestamp. */
  lemma OrderIsByTimestamp(H: BlockHash, h: History, i: nat, j: nat)
    requires Honest(H, h) && i < j < |ChainOf(h).order|
    ensures var c := ChainOf(h);
            && c.order[i] in c.blocks && c.order[j] in c.blocks
            && c.blocks[c.order[i]].timestamp <= c.blocks[c.order[j]].timestamp
  {
    ChainOfIsLastWriterWins(h);
    var c := ChainOf(h);
    assert c.order[i] in c.order && c.order[j] in c.order;
    TimestampsRise(h, LastIndex(h, c.order[i]), LastIndex(h, c.order[j]));
  }

  // -------------------------------------------------------- optimal interval colouring

  /** The instant t lies in the block's validity window [timestamp, timestamp + EXPIRATION]. */
  predicate Covers(b: Block, t: int) {
    b.timestamp <= t && !Expired(b, t)
  }

  /** The positions of the blocks of h whose windows cover t. */
  ghost function Covering(h: History, t: int): set<nat> {
    set k | 0 <= k < |h| && Covers(h[k], t)
  }

  ghost function Range(m: nat): (s: set<nat>)
    ensures |s| == m
    ensures forall i :: i in s <==> 1 <= i <= m
  {
    if m == 0 then {} else Range(m - 1) + {m}
  }

  ghost function Image(s: set<nat>, f: nat -> nat): set<nat> {
    set k | k in s :: f(k)
  }

  lemma {:induction false} ImageSize(s: set<nat>, f: nat -> nat)
    ensures |Image(s, f)| <= |s|
    ensures (forall i, j :: i in s && j in s && f(i) == f(j) ==> i == j) ==> |Image(s, f)| == |s|
    decreases s
  {
    if s == {} {
      assert Image(s, f) == {};
    } else {
      var x :| x in s;
      var rest := s - {x};
      ImageSize(rest, f);
      assert Image(s, f) == Image(rest, f) + {f(x)};
    }
  }

  lemma SubsetSize(s: set<nat>, t: set<nat>)
    requires s <= t
    ensures |s| <= |t|
  {
    assert t == s + (t - s);
  }

  /** The highest id in h. */
  ghost function MaxID(h: History): (m: nat)
    ensures forall k :: 0 <= k < |h| ==> h[k].nodeID <= m
  {
    if h == [] then 0
    else
      var m := MaxID(h[..|h| - 1]);
      if m >= Last(h).nodeID then m else Last(h).nodeID
  }

  lemma {:induction false} MaxIDOccurs(h: History) returns (k: nat)
    requires h != [] && MaxID(h) >= 1
    ensures k < |h| && h[k].nodeID == MaxID(h)
  {
    if MaxID(h[..|h| - 1]) >= Last(h).nodeID {
      k := MaxIDOccurs(h[..|h| - 1]);
    } else {
      k := |h| - 1;
    }
  }

  /** A table of the ids 1..m hands out at most m + 1. */
  lemma NextWithin(H: BlockHash, c: Chain, m: nat, t: int)
    requires forall id :: id in BlocksOf(c) <==> 1 <= id <= m
    ensures 1 <= NextNodeID(H, c, t) <= m + 1
  {
    assert !ContainsValidNodeID(H, c, m + 1, t);
  }

  lemma {:induction false} TableIDs(H: BlockHash, h: History)
    requires Honest(H, h)
    ensures forall id :: id in ChainOf(h).blocks <==> 1 <= id <= MaxID(h)
    decreases |h|
  {
    var front, b := h[..|h| - 1], Last(h);
    assert h == front + [b];
    ChainOfSnoc(front, b);
    assert CarriesNextID(H, h, |h| - 1);
    if |h| == 1 {
      assert front == [] && MaxID(front) == 0;
    } else {
      HonestPrefix(H, h, |h| - 1);
      TableIDs(H, front);
    }
    NextWithin(H, ChainOf(front), MaxID(front), b.timestamp);
  }

  ghost function IDAt(h: History): nat -> nat {
    (k: nat) => if k < |h| then h[k].nodeID else 0
  }

  ghost function Positions(h: History): (s: set<nat>)
    ensures forall k :: k in s <==> 0 <= k < |h|
  {
    if h == [] then {} else Positions(h[..|h| - 1]) + {|h| - 1}
  }

  /** No instant is covered by more blocks than there are ids: two blocks of one id never overlap. */
  lemma CoveringFits(H: BlockHash, h: History, t: int)
    requires Honest(H, h)
    ensures |Covering(h, t)| <= MaxID(h)
  {
    var s := Covering(h, t);
    var f := IDAt(h);
    forall i, j | i in s && j in s && f(i) == f(j)
      ensures i == j
    {
      if i < j {
        SupersededHadExpired(H, h, i, j);
        assert false;
      } else if j < i {
        SupersededHadExpired(H, h, j, i);
        assert false;
      }
    }
    ImageSize(s, f);
    TableIDs(H, h);
    forall id | id in Image(s, f)
      ensures id in Range(MaxID(h))
    {
      var k :| k in s && f(k) == id;
      TableEntry(h, |h|, id);
      assert h[..|h|] == h;
      assert id in ChainOf(h).blocks;
    }
    SubsetSize(Image(s, f), Range(MaxID(h)));
  }

  /** When block k was given its id, every smaller id belonged to a block valid at that instant. */
  lemma SmallerIdsInUse(H: BlockHash, h: History, k: nat, id: nat) returns (l: nat)
    requires Honest(H, h) && k < |h| && 1 <= id <= h[k].nodeID
    ensures l in Covering(h, h[k].timestamp) && h[l].nodeID == id
  {
    if id == h[k].nodeID {
      l := k;
    } else {
      var c, t := ChainOf(h[..k]), h[k].timestamp;
      assert CarriesNextID(H, h, k);
      assert ContainsValidNodeID(H, c, id, t);
      assert k > 0;
      TableEntry(h, k, id);
      l := LastIndex(h[..k], id);
      TimestampsRise(h, l, k);
    }
  }

  /** So that instant is covered by at least as many blocks as the id given out. */
  lemma PeakIsReached(H: BlockHash, h: History, k: nat)
    requires Honest(H, h) && k < |h|
    ensures |Covering(h, h[k].timestamp)| >= h[k].nodeID
  {
    var s, f := Covering(h, h[k].timestamp), IDAt(h);
    forall id | id in Range(h[k].nodeID)
      ensures id in Image(s, f)
    {
      var l := SmallerIdsInUse(H, h, k, id);
      assert l in s && f(l) == id;
    }
    ImageSize(s, f);
    SubsetSize(Range(h[k].nodeID), Image(s, f));
  }

  /** Recycling is exact: the table's ids are 1..m with m the greatest number of blocks valid at once. */
  lemma IdsEqualPeakOverlap(H: BlockHash, h: History)
    requires Honest(H, h)
    ensures var m := |ChainOf(h).blocks|;
            && (forall id :: id in ChainOf(h).blocks <==> 1 <= id <= m)
            && (forall t :: |Covering(h, t)| <= m)
            && (exists t :: |Covering(h, t)| == m)
  {
    TableIDs(H, h);
    assert ChainOf(h).blocks.Keys == Range(MaxID(h));
    forall t ensures |Covering(h, t)| <= MaxID(h) {
      CoveringFits(H, h, t);
    }
    assert CarriesNextID(H, h, 0);
    var k := MaxIDOccurs(h);
    PeakIsReached(H, h, k);
    assert |Covering(h, h[k].timestamp)| == MaxID(h);
  }

  /** Recycling is optimal: whatever ids one gives to the same blocks, if no two blocks valid at once
      share an id then at least as many ids are used. */
  lemma NoAssignmentUsesFewerIds(H: BlockHash, h: History, assign: nat -> nat)
    requires Honest(H, h)
    requires forall i, j, t :: i in Covering(h, t) && j in Covering(h, t) && assign(i) == assign(j) ==> i == j
    ensures |Image(Positions(h), assign)| >= |ChainOf(h).blocks|
  {
    IdsEqualPeakOverlap(H, h);
    var t :| |Covering(h, t)| == |ChainOf(h).blocks|;
    var s := Covering(h, t);
    ImageSize(s, assign);
    SubsetSize(Image(s, assign), Image(Positions(h), assign));
  }
}
