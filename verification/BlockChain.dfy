/** The table of identity blocks a node keeps: value-level specification and the mutable class. */
module BlockChains {
  import opened Bytes
  import opened Blocks

  /** Any previous hash will do for the first block; this one has 44 bytes, so it is no digest. */
  function GenesisPreviousHash(): (s: seq<byte>)
    ensures |s| == 44
  {
    // "random string because prevHash cannot be nil"
    [114, 97, 110, 100, 111, 109, 32, 115, 116, 114, 105, 110, 103, 32, 98, 101, 99, 97, 117, 115, 101, 32,
     112, 114, 101, 118, 72, 97, 115, 104, 32, 99, 97, 110, 110, 111, 116, 32, 98, 101, 32, 110, 105, 108]
  }

  /** What a chain holds. Empty is the zero value: nil table, no order, nil last block. */
  datatype Chain = Empty | Chain(blocks: map<nat, Block>, order: seq<nat>, last: Block)

  /** Adding to a chain whose table is nil panics when the block is valid (assignment to a nil map). */
  datatype Verdict = Panicked | Rejected | Accepted

  function BlocksOf(c: Chain): map<nat, Block> {
    if c.Empty? then map[] else c.blocks
  }

  // ------------------------------------------------------------- specification

  /** The sequence without any occurrence of id, the rest in order. */
  function Without(s: seq<nat>, id: nat): (r: seq<nat>)
    ensures forall x :: x in r <==> x in s && x != id
    ensures |r| <= |s|
  {
    if s == [] then []
    else if s[|s| - 1] == id then Without(s[..|s| - 1], id)
    else Without(s[..|s| - 1], id) + [s[|s| - 1]]
  }

  function AddVerdict(H: BlockHash, c: Chain, b: Block, now: int): Verdict {
    if !IsValid(H, b, now) then Rejected
    else if c.Empty? then Panicked
    else if b.previousHash == H(c.last) then Accepted
    else Rejected
  }

  /** The chain after accepting b: b replaces any older block of its id and its id moves to the end. */
  function Append(c: Chain, b: Block): Chain
    requires c.Chain?
  {
    Chain(c.blocks[b.nodeID := b], Without(c.order, b.nodeID) + [b.nodeID], b)
  }

  function Genesis(b: Block): Chain {
    Chain(map[b.nodeID := b], [b.nodeID], b)
  }

  predicate ContainsValidNodeID(H: BlockHash, c: Chain, id: nat, now: int) {
    id in BlocksOf(c) && IsValid(H, BlocksOf(c)[id], now)
  }

  ghost function IdsFrom(c: Chain, i: nat): set<nat> {
    set k | k in BlocksOf(c) && k >= i
  }

  lemma IdsFromShrinks(c: Chain, i: nat)
    requires i in BlocksOf(c)
    ensures |IdsFrom(c, i + 1)| < |IdsFrom(c, i)|
  {
    assert IdsFrom(c, i + 1) == IdsFrom(c, i) - {i};
  }

  /** The least id from i on that is absent or whose block is no longer valid. */
  function FreeIdFrom(H: BlockHash, c: Chain, now: int, i: nat): (id: nat)
    ensures id >= i && !ContainsValidNodeID(H, c, id, now)
    ensures forall j :: i <= j < id ==> ContainsValidNodeID(H, c, j, now)
    decreases |IdsFrom(c, i)|
  {
    if ContainsValidNodeID(H, c, i, now) then
      IdsFromShrinks(c, i);
      FreeIdFrom(H, c, now, i + 1)
    else i
  }

  function NextNodeID(H: BlockHash, c: Chain, now: int): (id: nat)
    ensures id >= 1 && !ContainsValidNodeID(H, c, id, now)
    ensures forall j :: 1 <= j < id ==> ContainsValidNodeID(H, c, j, now)
  {
    FreeIdFrom(H, c, now, 1)
  }

  lemma LeastFreeIsNext(H: BlockHash, c: Chain, now: int, i: nat)
    requires i >= 1 && !ContainsValidNodeID(H, c, i, now)
    requires forall j :: 1 <= j < i ==> ContainsValidNodeID(H, c, j, now)
    ensures i == NextNodeID(H, c, now)
  {
    var n := NextNodeID(H, c, now);
    assert !(i < n) && !(n < i);
  }

  ghost predicate Distinct<T(!new)>(s: seq<T>) {
    forall i, j :: 0 <= i < j < |s| ==> s[i] != s[j]
  }

  /** Table and order list name the same ids, each once, and every block sits under its own id. */
  ghost predicate WellFormed(c: Chain) {
    c.Chain? ==>
      && Distinct(c.order)
      && (forall id :: id in c.order <==> id in c.blocks)
      && (forall id :: id in c.blocks ==> c.blocks[id].nodeID == id)
  }

  lemma {:induction false} WithoutKeepsDistinct(s: seq<nat>, id: nat)
    requires Distinct(s)
    ensures Distinct(Without(s, id))
  {
    if s != [] {
      var front := s[..|s| - 1];
      WithoutKeepsDistinct(front, id);
      assert s[|s| - 1] !in front;
      assert forall x :: x in Without(front, id) ==> x in front;
    }
  }

  lemma AppendKeepsWellFormed(c: Chain, b: Block)
    requires c.Chain? && WellFormed(c)
    ensures WellFormed(Append(c, b))
  {
    WithoutKeepsDistinct(c.order, b.nodeID);
    var kept := Without(c.order, b.nodeID);
    assert forall i :: 0 <= i < |kept| ==> kept[i] in kept;
  }

  /** The position of the first id in the order list whose block has not expired, or its length. */
  function FirstUnexpired(blocks: map<nat, Block>, order: seq<nat>, now: int): (i: nat)
    requires forall id :: id in order ==> id in blocks
    ensures i <= |order|
    ensures forall j :: 0 <= j < i ==> Expired(blocks[order[j]], now)
    ensures i < |order| ==> !Expired(blocks[order[i]], now)
  {
    if order == [] || !Expired(blocks[order[0]], now) then 0
    else 1 + FirstUnexpired(blocks, order[1..], now)
  }

  function RestrictTo(blocks: map<nat, Block>, ids: seq<nat>): map<nat, Block> {
    map id | id in blocks && id in ids :: blocks[id]
  }

  /** The chain cut at its first unexpired block; None where the search runs off the list and panics. */
  function Prune(c: Chain, now: int): (r: Option<Chain>)
    requires WellFormed(c)
  {
    if c.Empty? then None
    else
      var i := FirstUnexpired(c.blocks, c.order, now);
      if i == |c.order| then None
      else Some(Chain(RestrictTo(c.blocks, c.order[i..]), c.order[i..], c.last))
  }

  lemma PruneCutsAt(c: Chain, now: int, i: nat)
    requires c.Chain? && WellFormed(c) && i <= |c.order|
    requires forall j :: 0 <= j < i ==> Expired(c.blocks[c.order[j]], now)
    requires i < |c.order| ==> !Expired(c.blocks[c.order[i]], now)
    ensures Prune(c, now) == if i == |c.order| then None
                             else Some(Chain(RestrictTo(c.blocks, c.order[i..]), c.order[i..], c.last))
  {
    assert FirstUnexpired(c.blocks, c.order, now) == i;
  }

  /** The search for an unexpired block has looked at the first i listed ids; it goes on while all had expired. */
  ghost predicate Searched(c: Chain, i: nat, expired: bool, now: int)
    requires WellFormed(c)
  {
    c.Chain? ==>
      && i <= |c.order|
      && (forall j :: 0 <= j < i - 1 ==> Expired(c.blocks[c.order[j]], now))
      && (i > 0 ==> Expired(c.blocks[c.order[i - 1]], now) == expired)
  }

  /** NilBlock: an id of the order list has no table entry, and calling a method on it panics. */
  datatype Integrity = Intact | Broken | NilBlock

  /** What checkIntegrity computes: it stops at the first listed block that is missing or invalid. */
  function CheckOrder(H: BlockHash, blocks: map<nat, Block>, order: seq<nat>, now: int): (r: Integrity)
    ensures r == Intact <==> forall id :: id in order ==> id in blocks && IsValid(H, blocks[id], now)
  {
    if order == [] then Intact
    else if order[0] !in blocks then assert order[0] in order; NilBlock
    else if !IsValid(H, blocks[order[0]], now) then assert order[0] in order; Broken
    else assert forall id :: id in order <==> id == order[0] || id in order[1..]; CheckOrder(H, blocks, order[1..], now)
  }

  /** How the check ends when not all is well: at the first bad id, and by a panic if it has no block. */
  lemma {:induction false} CheckEndsAtFirstBad(H: BlockHash, blocks: map<nat, Block>, order: seq<nat>, now: int, k: nat)
    requires k < |order| && !(order[k] in blocks && IsValid(H, blocks[order[k]], now))
    requires forall j :: 0 <= j < k ==> order[j] in blocks && IsValid(H, blocks[order[j]], now)
    ensures CheckOrder(H, blocks, order, now) == if order[k] in blocks then Broken else NilBlock
  {
    if k > 0 {
      CheckEndsAtFirstBad(H, blocks, order[1..], now, k - 1);
    }
  }

  function CheckIntegrity(H: BlockHash, c: Chain, now: int): Integrity {
    if c.Empty? then Intact else CheckOrder(H, c.blocks, c.order, now)
  }

  /** The link test that checkIntegrity contains but never reaches. */
  ghost predicate LinksMatch(H: BlockHash, c: Chain)
    requires c.Chain? && forall id :: id in c.order ==> id in c.blocks
  {
    forall k :: 1 <= k < |c.order| ==> c.blocks[c.order[k]].previousHash == H(c.blocks[c.order[k - 1]])
  }

  /** The check as designed: every listed block valid and each one naming its predecessor. */
  ghost predicate IntendedIntegrity(H: BlockHash, c: Chain, now: int) {
    c.Chain? && CheckIntegrity(H, c, now) == Intact && LinksMatch(H, c)
  }

  /** The check as coded is strictly weaker: whatever the hash, it accepts every two valid blocks of different
      ids, and the check as designed accepts them only if the second names the first. */
  lemma CodedCheckIgnoresLinks(H: BlockHash, b1: Block, b2: Block, now: int)
    requires IsValid(H, b1, now) && IsValid(H, b2, now) && b1.nodeID != b2.nodeID
    ensures var c := Chain(map[b1.nodeID := b1, b2.nodeID := b2], [b1.nodeID, b2.nodeID], b2);
            && WellFormed(c) && CheckIntegrity(H, c, now) == Intact
            && (IntendedIntegrity(H, c, now) <==> b2.previousHash == H(b1))
  {
    var c := Chain(map[b1.nodeID := b1, b2.nodeID := b2], [b1.nodeID, b2.nodeID], b2);
    assert c.order[0] == b1.nodeID && c.order[1] == b2.nodeID;
  }

  // --------------------------------------------------------------------- class

  class BlockChain {
    var blocksPerNodeID: Option<map<nat, Block>>
    var orderedNodesIDs: seq<nat>
    var lastBlock: Option<Block>

    ghost predicate Valid()
      reads this
    {
      && blocksPerNodeID.Some? == lastBlock.Some?
      && (lastBlock.None? ==> orderedNodesIDs == [])
    }

    ghost function View(): Chain
      reads this
    {
      if blocksPerNodeID.None? || lastBlock.None? then Empty
      else Chain(blocksPerNodeID.value, orderedNodesIDs, lastBlock.value)
    }

    /** `&BlockChain{}` */
    constructor ()
      ensures Valid() && View() == Empty
    {
      blocksPerNodeID, orderedNodesIDs, lastBlock := None, [], None;
    }

    /** A chain decoded from a message. */
    constructor Of(c: Chain)
      ensures Valid() && View() == c
    {
      match c
      case Empty => blocksPerNodeID, orderedNodesIDs, lastBlock := None, [], None;
      case Chain(blocks, order, last) => blocksPerNodeID, orderedNodesIDs, lastBlock := Some(blocks), order, Some(last);
    }

    /** mined(i) is what the i-th attempt at mining returns; the loop ends if some attempt, at the latest the
        enough-th, succeeds. */
    method InitGenesis(id: nat, mined: nat -> Option<Block>, ghost enough: nat)
      requires forall i :: mined(i).Some? ==> mined(i).value.nodeID == id
      requires forall i :: mined(i).Some? ==> mined(i).value.previousHash == GenesisPreviousHash()
      requires mined(enough).Some?
      modifies this
      ensures Valid()
      ensures exists i :: 0 <= i <= enough && mined(i).Some? && View() == Genesis(mined(i).value)
                       && forall j :: 0 <= j < i ==> mined(j).None?
    {
      blocksPerNodeID := Some(map[]);
      var b: Option<Block> := None;
      var i := 0;
      while b.None?
        invariant 0 <= i && (b.None? ==> i <= enough)
        invariant forall j :: 0 <= j < i - 1 ==> mined(j).None?
        invariant i > 0 ==> b == mined(i - 1) && i - 1 <= enough
        invariant i == 0 ==> b.None?
        decreases b.None?, enough - i
      {
        b := mined(i);
        i := i + 1;
      }
      blocksPerNodeID := Some(map[id := b.value]);
      lastBlock := b;
      orderedNodesIDs := [id];
      assert mined(i - 1).Some? && View() == Genesis(mined(i - 1).value);
    }

    method AddBlock(H: BlockHash, b: Block, now: int) returns (verdict: Verdict)
      requires Valid()
      modifies this
      ensures Valid()
      ensures verdict == AddVerdict(H, old(View()), b, now)
      ensures View() == if verdict == Accepted then Append(old(View()), b) else old(View())
      ensures WellFormed(old(View())) ==> WellFormed(View())
    {
      var matchesLast := false;
      if lastBlock == None {
        matchesLast := true;
      } else {
        matchesLast := b.previousHash == H(lastBlock.value);
      }
      var valid := CheckValid(H, b, now);
      if valid && matchesLast {
        if blocksPerNodeID.None? {
          return Panicked;
        }
        if WellFormed(View()) {
          AppendKeepsWellFormed(View(), b);
        }
        blocksPerNodeID := Some(blocksPerNodeID.value[b.nodeID := b]);
        lastBlock := Some(b);
        orderedNodesIDs := AddNodeIDToList(b.nodeID);
        return Accepted;
      } else {
        return Rejected;
      }
    }

    method AddNodeIDToList(id: nat) returns (res: seq<nat>)
      ensures res == Without(orderedNodesIDs, id) + [id]
    {
      res := [];
      var i := 0;
      while i < |orderedNodesIDs|
        invariant 0 <= i <= |orderedNodesIDs|
        invariant res == Without(orderedNodesIDs[..i], id)
      {
        var n := orderedNodesIDs[i];
        assert orderedNodesIDs[..i + 1][..i] == orderedNodesIDs[..i];
        if n != id {
          res := res + [n];
        }
        i := i + 1;
      }
      assert orderedNodesIDs[..i] == orderedNodesIDs;
      res := res + [id];
    }

    /** The chain as a message carries it. */
    method Snapshot() returns (c: Chain)
      requires Valid()
      ensures c == View()
    {
      if blocksPerNodeID.None? || lastBlock.None? {
        return Empty;
      }
      return Chain(blocksPerNodeID.value, orderedNodesIDs, lastBlock.value);
    }

    method HasValidNodeID(H: BlockHash, id: nat, now: int) returns (ok: bool)
      requires Valid()
      ensures ok <==> ContainsValidNodeID(H, View(), id, now)
    {
      if blocksPerNodeID.None? {
        return false;
      }
      if id in blocksPerNodeID.value {
        ok := CheckValid(H, blocksPerNodeID.value[id], now);
        return;
      }
      return false;
    }

    method FindNextNodeID(H: BlockHash, now: int) returns (i: nat)
      requires Valid()
      ensures i == NextNodeID(H, View(), now)
    {
      i := 1;
      while true
        invariant i >= 1
        invariant forall j :: 1 <= j < i ==> ContainsValidNodeID(H, View(), j, now)
        decreases |IdsFrom(View(), i)|
      {
        if blocksPerNodeID.None? || i !in blocksPerNodeID.value {
          LeastFreeIsNext(H, View(), now, i);
          return;
        }
        var valid := CheckValid(H, blocksPerNodeID.value[i], now);
        if !valid {
          LeastFreeIsNext(H, View(), now, i);
          return;
        }
        IdsFromShrinks(View(), i);
        i := i + 1;
      }
    }

    /** Null stands for the index-out-of-range panic when every listed block has expired. */
    method NonExpiredBlockChain(now: int) returns (res: BlockChain?)
      requires Valid() && WellFormed(View())
      ensures res == null <==> Prune(View(), now).None?
      ensures res != null ==> fresh(res) && res.Valid() && res.View() == Prune(View(), now).value
    {
      ghost var c := View();
      var expired := true;
      var i := 0;
      while expired
        invariant 0 <= i <= |orderedNodesIDs| && (!expired ==> i > 0)
        invariant Searched(c, i, expired, now)
        decreases expired, |orderedNodesIDs| - i
      {
        if i == |orderedNodesIDs| {
          if c.Chain? {
            PruneCutsAt(c, now, i);
          }
          return null;
        }
        if !Expired(blocksPerNodeID.value[orderedNodesIDs[i]], now) {
          expired := false;
        }
        i := i + 1;
      }
      PruneCutsAt(c, now, i - 1);
      var validNodesIDs := orderedNodesIDs[i - 1..];
      var validBlocks := CopyEntries(validNodesIDs);
      res := new BlockChain.Of(Chain(validBlocks, validNodesIDs, lastBlock.value));
    }

    method CopyEntries(ids: seq<nat>) returns (entries: map<nat, Block>)
      requires blocksPerNodeID.Some? && forall id :: id in ids ==> id in blocksPerNodeID.value
      ensures entries == RestrictTo(blocksPerNodeID.value, ids)
    {
      entries := map[];
      var k := 0;
      while k < |ids|
        invariant 0 <= k <= |ids|
        invariant entries == RestrictTo(blocksPerNodeID.value, ids[..k])
      {
        var nodeID := ids[k];
        assert ids[..k + 1] == ids[..k] + [nodeID];
        entries := entries[nodeID := blocksPerNodeID.value[nodeID]];
        k := k + 1;
      }
      assert ids[..k] == ids;
    }

    method IntegrityCheck(H: BlockHash, now: int) returns (r: Integrity)
      requires Valid()
      ensures r == CheckIntegrity(H, View(), now)
    {
      var prevHash: Option<seq<byte>> := None;
      var i := 0;
      while i < |orderedNodesIDs|
        invariant 0 <= i <= |orderedNodesIDs|
        invariant prevHash.None?
        invariant CheckIntegrity(H, View(), now) ==
                  if i == |orderedNodesIDs| then Intact else CheckOrder(H, View().blocks, orderedNodesIDs[i..], now)
      {
        var id := orderedNodesIDs[i];
        if id !in blocksPerNodeID.value {
          return NilBlock;
        }
        var b := blocksPerNodeID.value[id];
        var valid := CheckValid(H, b, now);
        if !valid {
          return Broken;
        }
        // prevHash is only ever assigned under this guard, which needs it assigned already
        if prevHash != None {
          if prevHash != Some(b.previousHash) {
            return Broken;
          }
          prevHash := Some(H(b));
        }
        assert orderedNodesIDs[i..][1..] == orderedNodesIDs[i + 1..];
        i := i + 1;
      }
      return Intact;
    }
  }
}
