/** Cutting expired blocks off a chain: what is left of an honest chain, and why nobody can tell. */
module Pruning {
  import opened Bytes
  import opened Blocks
  import opened BlockChains
  import opened Histories
  import opened Recycling

  // ------------------------------------------- the unexpired part of an honest chain

  function NodeIDs(h: History): (s: seq<nat>)
    ensures |s| == |h|
    ensures forall k :: 0 <= k < |h| ==> s[k] == h[k].nodeID
  {
    seq(|h|, k requires 0 <= k < |h| => h[k].nodeID)
  }

  function OrderOf(c: Chain): seq<nat> {
    if c.Empty? then [] else c.order
  }

  lemma {:induction false} WithoutDistributes(s: seq<nat>, t: seq<nat>, id: nat)
    ensures Without(s + t, id) == Without(s, id) + Without(t, id)
  {
    if t == [] {
      assert s + t == s;
    } else {
      var front, x := t[..|t| - 1], t[|t| - 1];
      assert (s + t)[..|s + t| - 1] == s + front;
      WithoutDistributes(s, front, id);
      assert Without(s, id) + (Without(front, id) + [x]) == (Without(s, id) + Without(front, id)) + [x];
    }
  }

  lemma {:induction false} WithoutAbsent(s: seq<nat>, id: nat)
    requires id !in s
    ensures Without(s, id) == s
  {
    if s != [] {
      WithoutAbsent(s[..|s| - 1], id);
    }
  }

  function WithoutAll(q: seq<nat>, ids: seq<nat>): (r: seq<nat>)
    ensures forall x :: x in r <==> x in q && x !in ids
  {
    if ids == [] then q
    else
      assert ids == ids[..|ids| - 1] + [ids[|ids| - 1]];
      Without(WithoutAll(q, ids[..|ids| - 1]), ids[|ids| - 1])
  }

  lemma NodeIDsSnoc(s: History, b: Block)
    ensures NodeIDs(s + [b]) == NodeIDs(s) + [b.nodeID]
  {
  }

  lemma DistinctSnoc(ids: seq<nat>, id: nat)
    requires Distinct(ids + [id])
    ensures Distinct(ids) && id !in ids
  {
    var all := ids + [id];
    assert all[|ids|] == id;
    forall i | 0 <= i < |ids| ensures ids[i] != id {
      assert all[i] == ids[i];
    }
    forall i, j | 0 <= i < j < |ids| ensures ids[i] != ids[j] {
      assert all[i] == ids[i] && all[j] == ids[j];
    }
  }

  lemma MoveToEnd(q: seq<nat>, ids: seq<nat>, id: nat)
    requires id !in ids
    ensures Without(WithoutAll(q, ids) + ids, id) + [id] == WithoutAll(q, ids + [id]) + (ids + [id])
  {
    WithoutDistributes(WithoutAll(q, ids), ids, id);
    WithoutAbsent(ids, id);
    assert (ids + [id])[..|ids|] == ids;
  }

  /** After p, blocks s of pairwise distinct ids put exactly those ids at the end of the order list. */
  lemma {:induction false} OrderSplits(p: History, s: History)
    requires Distinct(NodeIDs(s))
    ensures OrderOf(ChainOf(p + s)) == WithoutAll(OrderOf(ChainOf(p)), NodeIDs(s)) + NodeIDs(s)
  {
    if s == [] {
      assert p + s == p;
    } else {
      var s', b := s[..|s| - 1], Last(s);
      assert s == s' + [b] && p + s == (p + s') + [b];
      NodeIDsSnoc(s', b);
      DistinctSnoc(NodeIDs(s'), b.nodeID);
      OrderSplits(p, s');
      OrderSnoc(p + s', b);
      MoveToEnd(OrderOf(ChainOf(p)), NodeIDs(s'), b.nodeID);
    }
  }

  lemma OrderSnoc(h: History, b: Block)
    ensures OrderOf(ChainOf(h + [b])) == Without(OrderOf(ChainOf(h)), b.nodeID) + [b.nodeID]
    ensures BlocksOf(ChainOf(h + [b])) == BlocksOf(ChainOf(h))[b.nodeID := b]
  {
    ChainOfSnoc(h, b);
  }

  /** The entries of s lie over those of p. */
  ghost predicate Overlay(m: map<nat, Block>, base: map<nat, Block>, s: History) {
    && (forall k :: 0 <= k < |s| ==> s[k].nodeID in m && m[s[k].nodeID] == s[k])
    && (forall id :: id !in NodeIDs(s) ==> (id in m <==> id in base))
    && (forall id :: id !in NodeIDs(s) && id in m ==> m[id] == base[id])
  }

  lemma OverlaySnoc(m: map<nat, Block>, base: map<nat, Block>, s: History, b: Block)
    requires Overlay(m, base, s) && b.nodeID !in NodeIDs(s)
    ensures Overlay(m[b.nodeID := b], base, s + [b])
  {
    NodeIDsSnoc(s, b);
    assert forall k :: 0 <= k < |s| ==> s[k].nodeID == NodeIDs(s)[k] && s[k].nodeID in NodeIDs(s);
  }

  /** ... and leave each of them as its id's table entry, other entries untouched. */
  lemma {:induction false} TableSplits(p: History, s: History)
    requires Distinct(NodeIDs(s))
    ensures Overlay(BlocksOf(ChainOf(p + s)), BlocksOf(ChainOf(p)), s)
  {
    if s == [] {
      assert p + s == p;
    } else {
      var s', b := s[..|s| - 1], Last(s);
      assert s == s' + [b] && p + s == (p + s') + [b];
      NodeIDsSnoc(s', b);
      DistinctSnoc(NodeIDs(s'), b.nodeID);
      TableSplits(p, s');
      OrderSnoc(p + s', b);
      OverlaySnoc(BlocksOf(ChainOf(p + s')), BlocksOf(ChainOf(p)), s', b);
    }
  }

  /** The first block of h that has not expired, or |h|. */
  ghost function FirstLive(h: History, now: int): (j: nat)
    ensures j <= |h|
    ensures forall i :: 0 <= i < j ==> Expired(h[i], now)
    ensures j < |h| ==> !Expired(h[j], now)
  {
    if h == [] || !Expired(h[0], now) then 0 else 1 + FirstLive(h[1..], now)
  }

  /** Two unexpired blocks never share an id. */
  lemma LiveIdsDiffer(H: BlockHash, h: History, now: int, a: nat, b: nat)
    requires Honest(H, h) && Last(h).timestamp <= now
    requires a < b < |h| && !Expired(h[a], now)
    ensures h[a].nodeID != h[b].nodeID
  {
    if h[a].nodeID == h[b].nodeID {
      SupersededHadExpired(H, h, a, b);
      TimestampsRise(h, b, |h| - 1);
      assert false;
    }
  }

  /** From the first unexpired block on, an honest history has no expired block and no repeated id. */
  lemma LiveSuffix(H: BlockHash, h: History, now: int, j: nat)
    requires Honest(H, h) && Last(h).timestamp <= now
    requires j < |h| && !Expired(h[j], now)
    ensures forall k :: j <= k < |h| ==> !Expired(h[k], now)
    ensures Distinct(NodeIDs(h[j..]))
  {
    forall k | j <= k < |h|
      ensures !Expired(h[k], now)
    {
      TimestampsRise(h, j, k);
    }
    var ids := NodeIDs(h[j..]);
    forall a, b | 0 <= a < b < |ids|
      ensures ids[a] != ids[b]
    {
      LiveIdsDiffer(H, h, now, j + a, j + b);
    }
  }

  /** Ids that only p accounts for map to blocks of p. */
  lemma EntriesOfPrefix(p: History, id: nat)
    requires id in BlocksOf(ChainOf(p))
    ensures exists i :: 0 <= i < |p| && BlocksOf(ChainOf(p))[id] == p[i]
  {
    ChainOfIsLastWriterWins(p);
    assert BlocksOf(ChainOf(p))[id] == p[LastIndex(p, id)];
  }

  /** Where all of p has expired and s, of distinct ids, starts unexpired, the cut falls before s. */
  lemma CutBetween(p: History, s: History, now: int)
    requires s != [] && Distinct(NodeIDs(s)) && !Expired(s[0], now)
    requires forall i :: 0 <= i < |p| ==> Expired(p[i], now)
    ensures WellFormed(ChainOf(p + s))
    ensures Prune(ChainOf(p + s), now) == Some(Chain(RestrictTo(ChainOf(p + s).blocks, NodeIDs(s)), NodeIDs(s), Last(s)))
  {
    ChainOfIsLastWriterWins(p + s);
    OrderSplits(p, s);
    TableSplits(p, s);
    var c, ids := ChainOf(p + s), NodeIDs(s);
    var q := WithoutAll(OrderOf(ChainOf(p)), ids);
    assert c.order == q + ids;
    forall i | 0 <= i < |q|
      ensures Expired(c.blocks[c.order[i]], now)
    {
      assert q[i] in q && c.order[i] == q[i] && q[i] in c.order;
      EntriesOfPrefix(p, q[i]);
    }
    assert c.order[|q|] == ids[0] == s[0].nodeID;
    assert FirstUnexpired(c.blocks, c.order, now) == |q|;
    assert c.order[|q|..] == ids;
  }

  /** Blocks of pairwise distinct ids, on their own, are listed and stored as they come. */
  lemma OwnChain(s: History)
    requires s != [] && Distinct(NodeIDs(s))
    ensures ChainOf(s).order == NodeIDs(s) && Overlay(ChainOf(s).blocks, map[], s)
  {
    var none: History := [];
    OrderSplits(none, s);
    TableSplits(none, s);
    assert none + s == s;
    NothingLeft(NodeIDs(s));
    assert OrderOf(ChainOf(s)) == [] + NodeIDs(s) == NodeIDs(s);
  }

  /** The entries of distinct trailing blocks are the chain of those blocks alone. */
  lemma SuffixChain(p: History, s: History)
    requires s != [] && Distinct(NodeIDs(s))
    ensures ChainOf(s) == Chain(RestrictTo(ChainOf(p + s).blocks, NodeIDs(s)), NodeIDs(s), Last(s))
  {
    OwnChain(s);
    TableSplits(p, s);
    SameOverlay(ChainOf(s).blocks, ChainOf(p + s).blocks, BlocksOf(ChainOf(p)), s);
  }

  lemma {:induction false} NothingLeft(ids: seq<nat>)
    ensures WithoutAll([], ids) == []
  {
    if ids != [] {
      NothingLeft(ids[..|ids| - 1]);
    }
  }

  lemma SameOverlay(m1: map<nat, Block>, m2: map<nat, Block>, base: map<nat, Block>, s: History)
    requires Overlay(m1, map[], s) && Overlay(m2, base, s)
    ensures m1 == RestrictTo(m2, NodeIDs(s))
  {
    forall id | id in NodeIDs(s)
      ensures id in m1 && id in m2 && m1[id] == m2[id]
    {
      var k :| 0 <= k < |s| && NodeIDs(s)[k] == id;
      assert s[k].nodeID == id;
    }
  }

  /** ... and what is left is the chain of s alone. */
  lemma CutLeaves(p: History, s: History, now: int)
    requires s != [] && Distinct(NodeIDs(s)) && !Expired(s[0], now)
    requires forall i :: 0 <= i < |p| ==> Expired(p[i], now)
    ensures WellFormed(ChainOf(p + s)) && Prune(ChainOf(p + s), now) == Some(ChainOf(s))
  {
    CutBetween(p, s, now);
    SuffixChain(p, s);
  }

  lemma LastStillLive(h: History, now: int, j: nat)
    requires Rising(h) && j < |h| && !Expired(h[j], now)
    ensures !Expired(Last(h), now)
  {
    TimestampsRise(h, j, |h| - 1);
  }

  lemma PrunedAt(H: BlockHash, h: History, now: int, j: nat)
    requires Honest(H, h) && Last(h).timestamp <= now
    requires j < |h| && !Expired(h[j], now)
    requires forall i :: 0 <= i < j ==> Expired(h[i], now)
    ensures WellFormed(ChainOf(h)) && Prune(ChainOf(h), now) == Some(ChainOf(h[j..]))
  {
    LiveSuffix(H, h, now, j);
    assert h == h[..j] + h[j..];
    CutLeaves(h[..j], h[j..], now);
  }

  /** The unexpired part is a contiguous suffix: pruning an honest chain gives the chain of exactly the
      history from its first unexpired block on, and it panics exactly when the last block has expired. */
  lemma PrunedIsSuffix(H: BlockHash, h: History, now: int)
    requires Honest(H, h) && Last(h).timestamp <= now
    ensures WellFormed(ChainOf(h))
    ensures var j := FirstLive(h, now);
            Prune(ChainOf(h), now) == if j == |h| then None else Some(ChainOf(h[j..]))
    ensures Prune(ChainOf(h), now).None? <==> Expired(Last(h), now)
  {
    ChainOfIsLastWriterWins(h);
    var j := FirstLive(h, now);
    if j < |h| {
      PrunedAt(H, h, now, j);
      LastStillLive(h, now, j);
    } else {
      AllExpired(h, now);
    }
  }

  lemma AllExpired(h: History, now: int)
    requires h != [] && WellFormed(ChainOf(h)) && forall i :: 0 <= i < |h| ==> Expired(h[i], now)
    ensures Prune(ChainOf(h), now) == None
  {
    var c := ChainOf(h);
    var i := FirstUnexpired(c.blocks, c.order, now);
    if i < |c.order| {
      assert c.order[i] in c.order;
      EntriesOfPrefix(h, c.order[i]);
      assert false;
    }
  }

  /** The pruned chain is linked and valid: it passes the integrity check as designed, links included. */
  lemma PrunedPassesIntegrity(H: BlockHash, h: History, now: int)
    requires Honest(H, h) && Last(h).timestamp <= now && !Expired(Last(h), now)
    ensures WellFormed(ChainOf(h)) && Prune(ChainOf(h), now).Some?
    ensures IntendedIntegrity(H, Prune(ChainOf(h), now).value, now)
  {
    PrunedIsSuffix(H, h, now);
    var j := FirstLive(h, now);
    LiveSuffixPasses(H, h, now, j);
  }

  lemma LiveSuffixPasses(H: BlockHash, h: History, now: int, j: nat)
    requires Honest(H, h) && Last(h).timestamp <= now
    requires j < |h| && !Expired(h[j], now)
    ensures IntendedIntegrity(H, ChainOf(h[j..]), now)
  {
    LiveSuffix(H, h, now, j);
    var s := h[j..];
    forall k | 1 <= k < |s|
      ensures s[k].previousHash == H(s[k - 1])
    {
      assert s[k] == h[j + k] && s[k - 1] == h[j + k - 1];
    }
    DistinctChain(s);
    ListedIntegrity(H, ChainOf(s), s, now);
  }

  /** c lists exactly the blocks of s, in order. */
  ghost predicate Lists(c: Chain, s: History) {
    && c.Chain? && |c.order| == |s|
    && (forall k :: 0 <= k < |s| ==> c.order[k] == s[k].nodeID)
    && (forall k :: 0 <= k < |s| ==> s[k].nodeID in c.blocks && c.blocks[s[k].nodeID] == s[k])
  }

  lemma DistinctChain(s: History)
    requires s != [] && Distinct(NodeIDs(s))
    ensures Lists(ChainOf(s), s)
  {
    OwnChain(s);
  }

  lemma ListedIntegrity(H: BlockHash, c: Chain, s: History, now: int)
    requires Lists(c, s)
    requires forall k :: 0 <= k < |s| ==> IsValid(H, s[k], now)
    requires forall k :: 1 <= k < |s| ==> s[k].previousHash == H(s[k - 1])
    ensures IntendedIntegrity(H, c, now)
  {
    forall id | id in c.order
      ensures id in c.blocks && IsValid(H, c.blocks[id], now)
    {
      var k :| 0 <= k < |c.order| && c.order[k] == id;
      assert s[k].nodeID == id;
    }
    forall k | 1 <= k < |c.order|
      ensures c.blocks[c.order[k]].previousHash == H(c.blocks[c.order[k - 1]])
    {
      assert c.blocks[c.order[k]] == s[k] && c.blocks[c.order[k - 1]] == s[k - 1];
    }
  }

  // ------------------------------------------------- pruning a chain with forged blocks

  /** c lists some of the latest blocks of h, up to its last one. */
  ghost predicate Keeps(c: Chain, h: History) {
    && h != [] && c.Chain? && c.order != [] && Distinct(c.order)
    && (forall k :: 0 <= k < |c.order| ==> KeepsAt(c, h, k))
    && c.order[|c.order| - 1] == Last(h).nodeID
  }

  ghost predicate KeepsAt(c: Chain, h: History, k: nat)
    requires c.Chain? && k < |c.order|
  {
    var id := c.order[k];
    id in c.blocks && LastIndex(h, id) >= 0 && c.blocks[id] == h[LastIndex(h, id)]
  }

  lemma OrderEndsWithLast(h: History)
    requires h != []
    ensures var order := ChainOf(h).order; order != [] && order[|order| - 1] == Last(h).nodeID
  {
  }

  /** That is what pruning leaves. */
  lemma PruneKeeps(h: History, now: int)
    requires h != [] && WellFormed(ChainOf(h)) && Prune(ChainOf(h), now).Some?
    ensures Keeps(Prune(ChainOf(h), now).value, h)
  {
    ChainOfIsLastWriterWins(h);
    OrderEndsWithLast(h);
    var c0 := ChainOf(h);
    var i := FirstUnexpired(c0.blocks, c0.order, now);
    var c := Prune(c0, now).value;
    forall k | 0 <= k < |c.order|
      ensures KeepsAt(c, h, k)
    {
      assert c.order[k] == c0.order[i + k] && c.order[k] in c.order;
    }
  }

  /** The position in h of the first block kept. */
  function FirstKept(c: Chain, h: History): int {
    if c.Chain? && c.order != [] then LastIndex(h, c.order[0]) else -1
  }

  /** From position j on, no block of h has expired and no id repeats. */
  ghost predicate LiveTail(h: History, now: int, j: int) {
    && 0 <= j < |h|
    && (forall k :: j <= k < |h| ==> !Expired(h[k], now))
    && Distinct(NodeIDs(h[j..]))
  }

  lemma TailOfDistinct(q: seq<nat>, ids: seq<nat>, i: nat)
    requires Distinct(q + ids) && ids != [] && i < |q + ids| && (q + ids)[i] == ids[0]
    ensures (q + ids)[i..] == ids
  {
    assert (q + ids)[|q|] == ids[0];
    assert i == |q|;
  }

  lemma TailListed(c: Chain, blocks: map<nat, Block>, base: map<nat, Block>, s: History)
    requires c.Chain? && c.order == NodeIDs(s) && c.blocks == RestrictTo(blocks, NodeIDs(s))
    requires Overlay(blocks, base, s)
    ensures Lists(c, s)
  {
    assert forall k :: 0 <= k < |s| ==> NodeIDs(s)[k] == s[k].nodeID && s[k].nodeID in NodeIDs(s);
  }

  /** If the tail is alive, it is exactly what pruning keeps. */
  lemma LiveTailKept(p: History, s: History, now: int)
    requires s != [] && Distinct(NodeIDs(s)) && WellFormed(ChainOf(p + s)) && Prune(ChainOf(p + s), now).Some?
    requires Prune(ChainOf(p + s), now).value.order != [] && Prune(ChainOf(p + s), now).value.order[0] == s[0].nodeID
    ensures Lists(Prune(ChainOf(p + s), now).value, s)
  {
    OrderSplits(p, s);
    TableSplits(p, s);
    var c0 := ChainOf(p + s);
    TailOfDistinct(WithoutAll(OrderOf(ChainOf(p)), NodeIDs(s)), NodeIDs(s), FirstUnexpired(c0.blocks, c0.order, now));
    TailListed(Prune(c0, now).value, c0.blocks, BlocksOf(ChainOf(p)), s);
  }

  /** A chain that lists a live tail of a linked, worked history passes. */
  lemma ListedTailPasses(H: BlockHash, c: Chain, h: History, now: int, j: nat)
    requires Linked(H, h) && AllWorked(H, h) && LiveTail(h, now, j) && Lists(c, h[j..])
    ensures IntendedIntegrity(H, c, now)
  {
    var s := h[j..];
    forall k | 0 <= k < |s|
      ensures IsValid(H, s[k], now) && (k > 0 ==> s[k].previousHash == H(s[k - 1]))
    {
      assert s[k] == h[j + k] && (k > 0 ==> s[k - 1] == h[j + k - 1]);
    }
    ListedIntegrity(H, c, s, now);
  }

  lemma OneBefore(H: BlockHash, blocks: set<Block>, h: History, i: nat, j: nat)
    requires CollisionFree(H, blocks) && Linked(H, h) && Within(h, blocks)
    requires i < |h| && j < |h| && h[i].previousHash == H(h[j])
    ensures i == j + 1
  {
    PreviousHashLength(H, h, i);
    if i - 1 < j {
      HashesNeverRecur(H, blocks, h, i - 1, j);
    } else if j < i - 1 {
      HashesNeverRecur(H, blocks, h, j, i - 1);
    }
  }

  ghost predicate ListedLinks(H: BlockHash, c: Chain, h: History)
    requires Keeps(c, h)
  {
    forall k :: 1 <= k < |c.order| ==> LinkedAt(H, c, h, k)
  }

  ghost predicate LinkedAt(H: BlockHash, c: Chain, h: History, k: nat)
    requires Keeps(c, h) && 1 <= k < |c.order|
  {
    assert KeepsAt(c, h, k) && KeepsAt(c, h, k - 1);
    h[LastIndex(h, c.order[k])].previousHash == H(h[LastIndex(h, c.order[k - 1])])
  }

  /** Links from one kept block to the next can only be the links of the history. */
  lemma {:induction false} KeptAreConsecutive(H: BlockHash, blocks: set<Block>, h: History, c: Chain, k: nat)
    requires CollisionFree(H, blocks) && Linked(H, h) && Within(h, blocks)
    requires Keeps(c, h) && ListedLinks(H, c, h) && k < |c.order|
    ensures LastIndex(h, c.order[k]) == FirstKept(c, h) + k
  {
    if k > 0 {
      KeptAreConsecutive(H, blocks, h, c, k - 1);
      assert KeepsAt(c, h, k) && KeepsAt(c, h, k - 1) && LinkedAt(H, c, h, k);
      OneBefore(H, blocks, h, LastIndex(h, c.order[k]), LastIndex(h, c.order[k - 1]));
    }
  }

  lemma IntendedMeans(H: BlockHash, c: Chain, h: History, now: int)
    requires Keeps(c, h) && IntendedIntegrity(H, c, now)
    ensures ListedLinks(H, c, h)
    ensures forall k :: 0 <= k < |c.order| ==> c.order[k] in c.blocks && !Expired(c.blocks[c.order[k]], now)
  {
    forall k | 1 <= k < |c.order|
      ensures LinkedAt(H, c, h, k)
    {
      assert KeepsAt(c, h, k) && KeepsAt(c, h, k - 1);
    }
    forall k | 0 <= k < |c.order|
      ensures c.order[k] in c.blocks && !Expired(c.blocks[c.order[k]], now)
    {
      assert c.order[k] in c.order;
    }
  }

  lemma LastPosition(h: History)
    requires h != []
    ensures LastIndex(h, Last(h).nodeID) == |h| - 1
  {
  }

  lemma PassingNeedsLiveTail(H: BlockHash, blocks: set<Block>, h: History, c: Chain, now: int)
    requires CollisionFree(H, blocks) && Linked(H, h) && Within(h, blocks)
    requires Keeps(c, h) && IntendedIntegrity(H, c, now)
    ensures LiveTail(h, now, FirstKept(c, h))
  {
    IntendedMeans(H, c, h, now);
    var j := FirstKept(c, h);
    assert KeepsAt(c, h, 0);
    KeptAreConsecutive(H, blocks, h, c, |c.order| - 1);
    LastPosition(h);
    forall k | 0 <= k < |c.order|
      ensures c.order[k] == h[j + k].nodeID && !Expired(h[j + k], now)
    {
      KeptIsLive(H, blocks, h, c, now, k);
    }
    KeptTail(h, c, now, j);
  }

  lemma KeptIsLive(H: BlockHash, blocks: set<Block>, h: History, c: Chain, now: int, k: nat)
    requires CollisionFree(H, blocks) && Linked(H, h) && Within(h, blocks)
    requires Keeps(c, h) && ListedLinks(H, c, h) && k < |c.order|
    requires c.order[k] in c.blocks && !Expired(c.blocks[c.order[k]], now)
    ensures var i := FirstKept(c, h) + k;
            0 <= i < |h| && c.order[k] == h[i].nodeID && !Expired(h[i], now)
  {
    KeptAreConsecutive(H, blocks, h, c, k);
    assert KeepsAt(c, h, k);
  }

  lemma KeptTail(h: History, c: Chain, now: int, j: nat)
    requires c.Chain? && Distinct(c.order) && c.order != [] && j + |c.order| == |h|
    requires forall k :: 0 <= k < |c.order| ==> c.order[k] == h[j + k].nodeID && !Expired(h[j + k], now)
    ensures LiveTail(h, now, j)
  {
    assert NodeIDs(h[j..]) == c.order;
    forall k | j <= k < |h|
      ensures !Expired(h[k], now)
    {
      assert c.order[k - j] == h[j + (k - j)].nodeID;
    }
  }

  lemma LiveTailPasses(H: BlockHash, h: History, now: int)
    requires Linked(H, h) && AllWorked(H, h) && WellFormed(ChainOf(h)) && Prune(ChainOf(h), now).Some?
    requires LiveTail(h, now, FirstKept(Prune(ChainOf(h), now).value, h))
    ensures IntendedIntegrity(H, Prune(ChainOf(h), now).value, now)
  {
    var c := Prune(ChainOf(h), now).value;
    var j := FirstKept(c, h);
    PruneKeeps(h, now);
    assert h == h[..j] + h[j..];
    LiveTailKept(h[..j], h[j..], now);
    ListedTailPasses(H, c, h, now, j);
  }

  /** The exact condition for any chain, forged blocks included: the pruned chain passes the check as designed if
      and only if from the first block it keeps on, no block of the history has expired and no id repeats. */
  lemma PrunedPassesIff(H: BlockHash, blocks: set<Block>, h: History, now: int)
    requires CollisionFree(H, blocks) && Linked(H, h) && Within(h, blocks) && AllWorked(H, h)
    ensures WellFormed(ChainOf(h))
    ensures Prune(ChainOf(h), now).Some? ==>
              var c := Prune(ChainOf(h), now).value;
              IntendedIntegrity(H, c, now) <==> LiveTail(h, now, FirstKept(c, h))
  {
    ChainOfIsLastWriterWins(h);
    if Prune(ChainOf(h), now).Some? {
      var c := Prune(ChainOf(h), now).value;
      if LiveTail(h, now, FirstKept(c, h)) {
        LiveTailPasses(H, h, now);
      }
      if IntendedIntegrity(H, c, now) {
        PruneKeeps(h, now);
        PassingNeedsLiveTail(H, blocks, h, c, now);
      }
    }
  }

  /** A failing input: a block stamped earlier than those before it, which only a forger sends, expires first, and
      from then on the chain does not pass, pruned or not. */
  lemma OlderStampBreaksPruned(H: BlockHash, g: Block, b: Block, c: Block)
    requires g.nodeID == 1 && b.nodeID == 2 && c.nodeID == 3
    requires c.timestamp < g.timestamp <= b.timestamp
    ensures var d, now := ChainOf([g] + [b] + [c]), c.timestamp + EXPIRATION + 1;
            && WellFormed(d) && Prune(d, now).Some? && !IntendedIntegrity(H, Prune(d, now).value, now)
  {
    var h := [g] + [b] + [c];
    ChainOfIsLastWriterWins(h);
    ThreeInOrder(g, b, c);
    StaleListedFails(H, ChainOf(h), c.timestamp + EXPIRATION + 1);
  }

  lemma ThreeInOrder(g: Block, b: Block, c: Block)
    requires g.nodeID == 1 && b.nodeID == 2 && c.nodeID == 3
    ensures var d := ChainOf([g] + [b] + [c]);
            d.Chain? && d.blocks == map[1 := g, 2 := b, 3 := c] && d.order == [1, 2, 3]
  {
    var none: History := [];
    ChainOfSnoc(none, g);
    assert none + [g] == [g];
    ChainOfSnoc([g], b);
    ChainOfSnoc([g] + [b], c);
    OwnOrder([g] + [b] + [c]);
  }

  lemma OwnOrder(s: History)
    requires s != [] && Distinct(NodeIDs(s))
    ensures ChainOf(s).order == NodeIDs(s)
  {
    OwnChain(s);
  }

  /** The first listed block is alive, the last one has expired: pruning keeps both, and the check fails. */
  lemma StaleListedFails(H: BlockHash, d: Chain, now: int)
    requires d.Chain? && WellFormed(d) && d.order != []
    requires d.order[0] in d.order && !Expired(d.blocks[d.order[0]], now)
    requires d.order[|d.order| - 1] in d.order && Expired(d.blocks[d.order[|d.order| - 1]], now)
    ensures Prune(d, now).Some? && !IntendedIntegrity(H, Prune(d, now).value, now)
  {
    assert FirstUnexpired(d.blocks, d.order, now) == 0;
    assert d.order[0..] == d.order;
  }

  /** The chain a joiner is actually sent is the full one, and the check as coded accepts it exactly
      while no table entry has expired: one id left unused for longer than EXPIRATION and joining panics. */
  lemma FullChainAcceptedIffNothingExpired(H: BlockHash, h: History, now: int)
    requires h != [] && AllWorked(H, h)
    ensures CheckIntegrity(H, ChainOf(h), now) == Intact <==>
            forall id :: id in ChainOf(h).blocks ==> !Expired(ChainOf(h).blocks[id], now)
  {
    ChainOfIsLastWriterWins(h);
    var c := ChainOf(h);
    assert forall id :: id in c.blocks ==> c.blocks[id] == h[LastIndex(h, id)] && HasProofOfWork(H, c.blocks[id]);
  }

  // ----------------------------------------------------------- pruning is a refinement

  /** Same last block; the pruned table has only entries of the full one, and lacks only expired ones. */
  ghost predicate Refines(full: Chain, pruned: Chain, t: int) {
    && full.Chain? && pruned.Chain? && pruned.last == full.last
    && (forall id :: id in pruned.blocks ==> id in full.blocks && pruned.blocks[id] == full.blocks[id])
    && (forall id :: id in full.blocks && id !in pruned.blocks ==> Expired(full.blocks[id], t))
  }

  lemma PruneRefines(c: Chain, now: int)
    requires WellFormed(c) && Prune(c, now).Some?
    ensures Refines(c, Prune(c, now).value, now)
  {
    var i := FirstUnexpired(c.blocks, c.order, now);
    assert c.order == c.order[..i] + c.order[i..];
    forall id | id in c.blocks && id !in c.order[i..]
      ensures Expired(c.blocks[id], now)
    {
      assert id in c.order[..i];
      var k :| 0 <= k < i && c.order[k] == id;
    }
  }

  /** What a node can be asked about its chain, and the offer of a block; each at a clock reading. */
  datatype Query =
    | Offer(block: Block, at: int)
    | AskNextNodeID(at: int)
    | AskValidNodeID(id: nat, at: int)
    | AskLastHash(at: int)

  datatype Answer =
    | Verdict(verdict: BlockChains.Verdict)
    | NodeID(id: nat)
    | Admitted(ok: bool)
    | LastHash(hash: Option<Digest>)

  function Reply(H: BlockHash, c: Chain, q: Query): Answer {
    match q
    case Offer(b, at) => Verdict(AddVerdict(H, c, b, at))
    case AskNextNodeID(at) => NodeID(NextNodeID(H, c, at))
    case AskValidNodeID(id, at) => Admitted(ContainsValidNodeID(H, c, id, at))
    case AskLastHash(_) => LastHash(if c.Empty? then None else Some(H(c.last)))
  }

  function After(H: BlockHash, c: Chain, q: Query): Chain {
    if q.Offer? && AddVerdict(H, c, q.block, q.at) == Accepted then Append(c, q.block) else c
  }

  function Replies(H: BlockHash, c: Chain, qs: seq<Query>): (r: seq<Answer>)
    ensures |r| == |qs|
    decreases qs
  {
    if qs == [] then [] else [Reply(H, c, qs[0])] + Replies(H, After(H, c, qs[0]), qs[1..])
  }

  ghost predicate ClockRises(qs: seq<Query>, t: int) {
    forall i :: 0 <= i < |qs| ==> t <= qs[i].at && (i > 0 ==> qs[i - 1].at <= qs[i].at)
  }

  lemma SameReply(H: BlockHash, full: Chain, pruned: Chain, t: int, q: Query)
    requires Refines(full, pruned, t) && t <= q.at
    ensures Reply(H, full, q) == Reply(H, pruned, q)
    ensures Refines(After(H, full, q), After(H, pruned, q), t)
  {
    assert forall id: nat, now | now >= t :: ContainsValidNodeID(H, full, id, now) == ContainsValidNodeID(H, pruned, id, now);
    if q.AskNextNodeID? {
      var i := NextNodeID(H, full, q.at);
      assert !ContainsValidNodeID(H, pruned, i, q.at);
      LeastFreeIsNext(H, pruned, q.at, i);
    }
  }

  lemma {:induction false} SameReplies(H: BlockHash, full: Chain, pruned: Chain, t: int, qs: seq<Query>)
    requires Refines(full, pruned, t) && ClockRises(qs, t)
    ensures Replies(H, full, qs) == Replies(H, pruned, qs)
    decreases qs
  {
    if qs != [] {
      SameReply(H, full, pruned, t, qs[0]);
      SameReplies(H, After(H, full, qs[0]), After(H, pruned, qs[0]), t, qs[1..]);
    }
  }

  /** Pruning is unobservable: from the cut on, whatever blocks are offered and whatever is asked,
      the pruned and the full chain answer alike for ever. */
  lemma PruningIsUnobservable(H: BlockHash, c: Chain, now: int, qs: seq<Query>)
    requires WellFormed(c) && Prune(c, now).Some?
    requires ClockRises(qs, now)
    ensures Replies(H, c, qs) == Replies(H, Prune(c, now).value, qs)
  {
    PruneRefines(c, now);
    SameReplies(H, c, Prune(c, now).value, now, qs);
  }
}
