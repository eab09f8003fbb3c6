/** The blocks a node has accepted, in order: what they make of its table, and how the hash links
    turn the last hash into a version stamp. */
module Histories {
  import opened Blocks
  import opened BlockChains

  type History = seq<Block>

  function Last(h: History): Block
    requires h != []
  {
    h[|h| - 1]
  }

  /** The chain that accepting the blocks of h one after the other builds. */
  function ChainOf(h: History): (c: Chain)
    ensures c.Empty? <==> h == []
    ensures c.Chain? ==> c.last == Last(h)
  {
    if h == [] then Empty
    else if |h| == 1 then Genesis(h[0])
    else Append(ChainOf(h[..|h| - 1]), Last(h))
  }

  lemma ChainOfSnoc(h: History, b: Block)
    ensures ChainOf(h + [b]) == if h == [] then Genesis(b) else Append(ChainOf(h), b)
  {
    assert (h + [b])[..|h|] == h;
  }

  // -------------------------------------------- the table is a last-writer-wins view

  /** The last position in h of a block with this id, -1 if there is none. */
  function LastIndex(h: History, id: nat): (k: int)
    ensures -1 <= k < |h|
    ensures k >= 0 ==> h[k].nodeID == id
    ensures forall j :: k < j < |h| ==> h[j].nodeID != id
  {
    if h == [] then -1
    else if Last(h).nodeID == id then |h| - 1
    else LastIndex(h[..|h| - 1], id)
  }

  ghost predicate SortedByAge(s: seq<nat>, h: History) {
    forall i, j :: 0 <= i < j < |s| ==> LastIndex(h, s[i]) < LastIndex(h, s[j])
  }

  /** Every id ever accepted maps to its latest block, and ids are listed by the age of that block. */
  ghost predicate LastWriterWins(c: Chain, h: History) {
    && h != [] && c.Chain? && c.last == Last(h)
    && (forall id :: id in c.blocks <==> LastIndex(h, id) >= 0)
    && (forall id :: id in c.blocks ==> c.blocks[id] == h[LastIndex(h, id)])
    && (forall id :: id in c.order <==> id in c.blocks)
    && SortedByAge(c.order, h)
  }

  lemma {:induction false} WithoutKeepsSorted(s: seq<nat>, id: nat, h: History)
    requires SortedByAge(s, h)
    ensures SortedByAge(Without(s, id), h)
  {
    if s != [] {
      var front := s[..|s| - 1];
      WithoutKeepsSorted(front, id, h);
      var r := Without(front, id);
      forall i | 0 <= i < |r|
        ensures LastIndex(h, r[i]) < LastIndex(h, s[|s| - 1])
      {
        assert r[i] in front;
      }
    }
  }

  lemma LastIndexSnoc(h: History, b: Block, id: nat)
    ensures LastIndex(h + [b], id) == if b.nodeID == id then |h| else LastIndex(h, id)
  {
    assert (h + [b])[..|h|] == h;
  }

  lemma AppendKeepsLastWriterWins(c: Chain, h: History, b: Block)
    requires LastWriterWins(c, h)
    ensures LastWriterWins(Append(c, b), h + [b])
  {
    forall id
      ensures LastIndex(h + [b], id) == if b.nodeID == id then |h| else LastIndex(h, id)
    {
      LastIndexSnoc(h, b, id);
    }
    SortedSnoc(c.order, h, b);
  }

  lemma SortedSnoc(order: seq<nat>, h: History, b: Block)
    requires SortedByAge(order, h)
    ensures SortedByAge(Without(order, b.nodeID) + [b.nodeID], h + [b])
  {
    WithoutKeepsSorted(order, b.nodeID, h);
    var kept := Without(order, b.nodeID);
    var r := kept + [b.nodeID];
    LastIndexSnoc(h, b, b.nodeID);
    forall i | 0 <= i < |kept|
      ensures LastIndex(h + [b], r[i]) == LastIndex(h, kept[i])
    {
      assert kept[i] in kept;
      LastIndexSnoc(h, b, kept[i]);
    }
  }

  /** The table, order list and last block of a node are determined by its history alone. */
  lemma {:induction false} ChainOfIsLastWriterWins(h: History)
    requires h != []
    ensures LastWriterWins(ChainOf(h), h)
    ensures WellFormed(ChainOf(h))
  {
    var front, b := h[..|h| - 1], Last(h);
    assert h == front + [b];
    if |h| == 1 {
      forall id
        ensures LastIndex(h, id) == if b.nodeID == id then 0 else -1
      {
        LastIndexSnoc(front, b, id);
      }
    } else {
      ChainOfIsLastWriterWins(front);
      AppendKeepsLastWriterWins(ChainOf(front), front, b);
      AppendKeepsWellFormed(ChainOf(front), b);
    }
  }

  /** No other chain is a last-writer-wins view of h. */
  lemma LastWriterWinsIsUnique(c: Chain, h: History)
    requires LastWriterWins(c, h)
    ensures c == ChainOf(h)
  {
    ChainOfIsLastWriterWins(h);
    var d := ChainOf(h);
    assert c.blocks == d.blocks;
    var rank := (id: nat) => LastIndex(h, id);
    assert SortedBy(c.order, rank) && SortedBy(d.order, rank);
    assert Elements(c.order) == Elements(d.order);
    SameSortedIds(c.order, d.order, rank);
  }

  ghost predicate SortedBy(s: seq<nat>, rank: nat -> int) {
    forall i, j :: 0 <= i < j < |s| ==> rank(s[i]) < rank(s[j])
  }

  lemma LastRanksHighest(front: seq<nat>, x: nat, rank: nat -> int)
    requires SortedBy(front + [x], rank)
    ensures SortedBy(front, rank)
    ensures forall z :: z in front ==> rank(z) < rank(x)
  {
    var s := front + [x];
    forall i | 0 <= i < |front|
      ensures rank(front[i]) < rank(x)
    {
      assert front[i] == s[i] && s[|front|] == x;
    }
    forall i, j | 0 <= i < j < |front|
      ensures rank(front[i]) < rank(front[j])
    {
      assert front[i] == s[i] && front[j] == s[j];
    }
  }

  ghost function Elements(s: seq<nat>): (r: set<nat>)
    ensures forall x :: x in r <==> x in s
    ensures s != [] ==> s[0] in r
  {
    set x | x in s
  }

  lemma SameLast(s: seq<nat>, x: nat, t: seq<nat>, y: nat, rank: nat -> int)
    requires Elements(s + [x]) == Elements(t + [y])
    requires forall z :: z in s ==> rank(z) < rank(x)
    requires forall z :: z in t ==> rank(z) < rank(y)
    ensures x == y
  {
    assert x in Elements(s + [x]) && y in Elements(t + [y]);
    assert x in t + [y] && y in s + [x];
  }

  /** Two lists of the same ids in strictly increasing rank are the same list. */
  lemma {:induction false} SameSortedIds(s: seq<nat>, t: seq<nat>, rank: nat -> int)
    requires SortedBy(s, rank) && SortedBy(t, rank)
    requires Elements(s) == Elements(t)
    ensures s == t
  {
    if s != [] && t != [] {
      var s', x := s[..|s| - 1], s[|s| - 1];
      var t', y := t[..|t| - 1], t[|t| - 1];
      assert s == s' + [x] && t == t' + [y];
      LastRanksHighest(s', x, rank);
      LastRanksHighest(t', y, rank);
      SameLast(s', x, t', y, rank);
      assert Elements(s') == Elements(s) - {x};
      assert Elements(t') == Elements(t) - {x};
      SameSortedIds(s', t', rank);
    }
  }

  // ------------------------------------------------------------- linked histories

  /** Starts with a genesis block; every later block names the hash of the one before it. */
  ghost predicate Linked(H: BlockHash, h: History) {
    && h != []
    && h[0].previousHash == GenesisPreviousHash()
    && forall k :: 1 <= k < |h| ==> h[k].previousHash == H(h[k - 1])
  }

  ghost predicate Within(h: History, blocks: set<Block>) {
    forall k :: 0 <= k < |h| ==> h[k] in blocks
  }

  lemma LinkedPrefix(H: BlockHash, h: History, n: nat)
    requires Linked(H, h) && 1 <= n <= |h|
    ensures Linked(H, h[..n])
  {
  }

  lemma LinkedSnoc(H: BlockHash, h: History, b: Block)
    requires Linked(H, h) && b.previousHash == H(Last(h))
    ensures Linked(H, h + [b])
  {
  }

  /** Only the genesis block has a previous hash that is not a digest. */
  lemma PreviousHashLength(H: BlockHash, h: History, k: nat)
    requires Linked(H, h) && k < |h|
    ensures |h[k].previousHash| == if k == 0 then 44 else 32
  {
    if k > 0 {
      assert h[k].previousHash == H(h[k - 1]);
    }
  }

  /** The last hash determines the whole history, across genesis blocks too: walking the links back
      from equal last blocks, neither history can reach its 44-byte genesis value before the other. */
  lemma {:induction false} LastHashDeterminesHistory(H: BlockHash, blocks: set<Block>, h1: History, h2: History)
    requires CollisionFree(H, blocks)
    requires Linked(H, h1) && Within(h1, blocks)
    requires Linked(H, h2) && Within(h2, blocks)
    requires H(Last(h1)) == H(Last(h2))
    ensures h1 == h2
    decreases |h1|
  {
    assert Last(h1) == Last(h2);
    var n, m := |h1| - 1, |h2| - 1;
    PreviousHashLength(H, h1, n);
    PreviousHashLength(H, h2, m);
    if n > 0 && m > 0 {
      LastHashDeterminesHistory(H, blocks, h1[..n], h2[..m]);
      assert h1 == h1[..n] + [Last(h1)];
      assert h2 == h2[..m] + [Last(h2)];
    }
  }

  /** A block of two histories marks a common prefix of both. */
  lemma SharedBlockSharedPrefix(H: BlockHash, blocks: set<Block>, h1: History, i: nat, h2: History, j: nat)
    requires CollisionFree(H, blocks)
    requires Linked(H, h1) && Within(h1, blocks) && i < |h1|
    requires Linked(H, h2) && Within(h2, blocks) && j < |h2|
    requires H(h1[i]) == H(h2[j])
    ensures i == j && h1[..i + 1] == h2[..j + 1]
  {
    LinkedPrefix(H, h1, i + 1);
    LinkedPrefix(H, h2, j + 1);
    LastHashDeterminesHistory(H, blocks, h1[..i + 1], h2[..j + 1]);
    assert |h1[..i + 1]| == i + 1 && |h2[..j + 1]| == j + 1;
  }

  /** Version stamp: within one history no hash and no previous hash ever recurs. */
  lemma HashesNeverRecur(H: BlockHash, blocks: set<Block>, h: History, i: nat, j: nat)
    requires CollisionFree(H, blocks) && Linked(H, h) && Within(h, blocks)
    requires i < j < |h|
    ensures H(h[i]) != H(h[j])
    ensures h[i] != h[j]
    ensures h[i].previousHash != h[j].previousHash
  {
    if H(h[i]) == H(h[j]) {
      SharedBlockSharedPrefix(H, blocks, h, i, h, j);
      assert false;
    }
    PreviousHashLength(H, h, i);
    PreviousHashLength(H, h, j);
    if h[i].previousHash == h[j].previousHash {
      SharedBlockSharedPrefix(H, blocks, h, i - 1, h, j - 1);
      assert false;
    }
  }

  /** h extends p. */
  predicate Extends(h: History, p: History) {
    |p| <= |h| && h[..|p|] == p
  }

  /** Histories that later share a block were comparable before: one extended the other. */
  lemma SharedBlockComparable(H: BlockHash, blocks: set<Block>, p1: History, p2: History,
                              h1: History, i: nat, h2: History, j: nat)
    requires CollisionFree(H, blocks)
    requires Linked(H, h1) && Within(h1, blocks) && Linked(H, h2) && Within(h2, blocks)
    requires Extends(h1, p1) && Extends(h2, p2)
    requires |p1| <= i < |h1| && |p2| <= j < |h2| && h1[i] == h2[j]
    ensures Extends(p1, p2) || Extends(p2, p1)
  {
    SharedBlockSharedPrefix(H, blocks, h1, i, h2, j);
    var common := h1[..i + 1];
    assert p1 == common[..|p1|];
    assert p2 == common[..|p2|];
    if |p1| <= |p2| {
      assert p2[..|p1|] == common[..|p1|];
    } else {
      assert p1[..|p2|] == common[..|p2|];
    }
  }

  /** Forks never re-merge: if neither history extends the other, then however both grow afterwards
      no block is added to both. */
  lemma ForksShareNoLaterBlock(H: BlockHash, blocks: set<Block>, p1: History, p2: History, h1: History, h2: History)
    requires CollisionFree(H, blocks)
    requires Linked(H, h1) && Within(h1, blocks) && Linked(H, h2) && Within(h2, blocks)
    requires !Extends(p1, p2) && !Extends(p2, p1)
    requires Extends(h1, p1) && Extends(h2, p2)
    ensures forall i, j :: |p1| <= i < |h1| && |p2| <= j < |h2| ==> h1[i] != h2[j]
  {
    forall i, j | |p1| <= i < |h1| && |p2| <= j < |h2|
      ensures h1[i] != h2[j]
    {
      if h1[i] == h2[j] {
        SharedBlockComparable(H, blocks, p1, p2, h1, i, h2, j);
        assert false;
      }
    }
  }
}
