/** Identity blocks: their byte encoding, validity and mining. */
module Blocks {
  import opened Bytes
  import opened ProofOfWork

  const DIFFICULTY := 23
  /** 360 seconds in nanoseconds. */
  const EXPIRATION := 360 * 1_000_000_000

  datatype PublicKey = PublicKey(modulus: seq<byte>, exponent: nat)

  datatype Block = Block(
    nodeID: nat,
    timestamp: int,
    pubKey: PublicKey,
    nonce: seq<byte>,
    previousHash: seq<byte>)

  /** The digest of a block, as the rest of the model sees it. */
  type BlockHash = Block -> Digest

  // ---------------------------------------------------------------- encoding

  /** The 15 bytes of a UTC time: version, seconds, nanoseconds (both big-endian), zone marker. */
  function TimeBytes(t: nat): (s: seq<byte>)
    ensures |s| == 15
  {
    [1] + Reverse(LittleEndian(t / 1_000_000_000, 8)) + Reverse(LittleEndian(t % 1_000_000_000, 4)) + [255, 255]
  }

  function Reverse(s: seq<byte>): (r: seq<byte>)
    ensures |r| == |s|
    ensures forall i :: 0 <= i < |s| ==> r[i] == s[|s| - 1 - i]
  {
    if s == [] then [] else Reverse(s[1..]) + [s[0]]
  }

  lemma ReverseTwice(s: seq<byte>)
    ensures Reverse(Reverse(s)) == s
  {
  }

  function PublicKeyBytes(pub: PublicKey): (s: seq<byte>)
    ensures |s| == |pub.modulus| + 4
  {
    pub.modulus + LittleEndian(pub.exponent, 4)
  }

  /** The fields are concatenated without any length marker, the variable-length modulus in the middle. */
  function GetBytes(b: Block): (s: seq<byte>)
    requires b.timestamp >= 0
  {
    LittleEndian(b.nodeID, 8) + TimeBytes(b.timestamp) + PublicKeyBytes(b.pubKey) + b.nonce + b.previousHash
  }

  /** The ranges of the Go field types, and the 8-byte nonce mineBlock writes. */
  predicate Encodable(b: Block) {
    && b.nodeID < Pow2(64)
    && 0 <= b.timestamp && b.timestamp / 1_000_000_000 < Pow2(64)
    && b.pubKey.exponent < Pow2(32)
    && |b.nonce| == 8
  }

  /** Reads a block back, given the length of its last field. */
  function ParseBlock(s: seq<byte>, hashLength: nat): (r: Option<Block>)
  {
    if |s| < 35 + hashLength then None else
    var tail := |s| - hashLength;
    var seconds := FromLittleEndian(Reverse(s[9..17]));
    var nanos := FromLittleEndian(Reverse(s[17..21]));
    Some(Block(
      FromLittleEndian(s[..8]),
      seconds * 1_000_000_000 + nanos,
      PublicKey(s[23..tail - 12], FromLittleEndian(s[tail - 12..tail - 8])),
      s[tail - 8..tail],
      s[tail..]))
  }

  lemma TimeBytesFields(t: nat)
    ensures TimeBytes(t)[1..9] == Reverse(LittleEndian(t / 1_000_000_000, 8))
    ensures TimeBytes(t)[9..13] == Reverse(LittleEndian(t % 1_000_000_000, 4))
  {
  }

  lemma GetBytesFields(b: Block)
    requires b.timestamp >= 0 && |b.nonce| == 8
    ensures var s := GetBytes(b); var tail := |s| - |b.previousHash|;
            && tail == 35 + |b.pubKey.modulus|
            && s[..8] == LittleEndian(b.nodeID, 8)
            && s[8..23] == TimeBytes(b.timestamp)
            && s[23..tail - 12] == b.pubKey.modulus
            && s[tail - 12..tail - 8] == LittleEndian(b.pubKey.exponent, 4)
            && s[tail - 8..tail] == b.nonce
            && s[tail..] == b.previousHash
  {
  }

  lemma Pow2Of32()
    ensures Pow2(32) == 4294967296
  {
    Pow2Add(16, 16);
    Pow2Add(8, 8);
    assert Pow2(8) == 256;
  }

  lemma TimeRoundTrip(t: nat)
    requires t / 1_000_000_000 < Pow2(64)
    ensures FromLittleEndian(Reverse(TimeBytes(t)[1..9])) == t / 1_000_000_000
    ensures FromLittleEndian(Reverse(TimeBytes(t)[9..13])) == t % 1_000_000_000
  {
    TimeBytesFields(t);
    ReverseTwice(LittleEndian(t / 1_000_000_000, 8));
    ReverseTwice(LittleEndian(t % 1_000_000_000, 4));
    LittleEndianRoundTrip(t / 1_000_000_000, 8);
    Pow2Of32();
    LittleEndianRoundTrip(t % 1_000_000_000, 4);
  }

  lemma TimeReadBack(b: Block)
    requires Encodable(b)
    ensures var s := GetBytes(b);
            FromLittleEndian(Reverse(s[9..17])) * 1_000_000_000 + FromLittleEndian(Reverse(s[17..21])) == b.timestamp
  {
    var s := GetBytes(b);
    GetBytesFields(b);
    assert s[9..17] == s[8..23][1..9];
    assert s[17..21] == s[8..23][9..13];
    TimeRoundTrip(b.timestamp);
  }

  lemma ParsedFields(s: seq<byte>, b: Block)
    requires |s| == 35 + |b.pubKey.modulus| + |b.previousHash|
    requires var tail := 35 + |b.pubKey.modulus|;
             && FromLittleEndian(s[..8]) == b.nodeID
             && FromLittleEndian(Reverse(s[9..17])) * 1_000_000_000 + FromLittleEndian(Reverse(s[17..21])) == b.timestamp
             && s[23..tail - 12] == b.pubKey.modulus
             && FromLittleEndian(s[tail - 12..tail - 8]) == b.pubKey.exponent
             && s[tail - 8..tail] == b.nonce && s[tail..] == b.previousHash
    ensures ParseBlock(s, |b.previousHash|) == Some(b)
  {
  }

  /** The encoding is uniquely decodable once the length of the previous hash is known. */
  lemma ParseInvertsGetBytes(b: Block)
    requires Encodable(b)
    ensures ParseBlock(GetBytes(b), |b.previousHash|) == Some(b)
  {
    GetBytesFields(b);
    TimeReadBack(b);
    LittleEndianRoundTrip(b.nodeID, 8);
    LittleEndianRoundTrip(b.pubKey.exponent, 4);
    ParsedFields(GetBytes(b), b);
  }

  /** Two encodable blocks with the same bytes are the same block exactly when their previous hashes
      have the same length, or equivalently (the total length being shared) their moduli do. */
  lemma SameBytes(a: Block, b: Block)
    requires Encodable(a) && Encodable(b) && GetBytes(a) == GetBytes(b)
    ensures a == b <==> |a.previousHash| == |b.previousHash|
    ensures a == b <==> |a.pubKey.modulus| == |b.pubKey.modulus|
  {
    GetBytesFields(a);
    GetBytesFields(b);
    ParseInvertsGetBytes(a);
    ParseInvertsGetBytes(b);
  }

  function Zeros(n: nat): (s: seq<byte>)
  {
    seq(n, i => 0)
  }

  lemma ZeroTail(modulus: nat, hash: nat)
    ensures PublicKeyBytes(PublicKey(Zeros(modulus), 0)) + Zeros(8) + Zeros(hash) == Zeros(modulus + 12 + hash)
  {
    assert LittleEndian(0, 4) == [0] + LittleEndian(0, 3) == [0, 0] + LittleEndian(0, 2) == Zeros(4);
  }

  /** Without that condition the encoding is ambiguous: a longer hash can be read as a longer modulus. */
  lemma AmbiguousWithoutHashLength() returns (a: Block, b: Block)
    ensures Encodable(a) && Encodable(b)
    ensures a != b && GetBytes(a) == GetBytes(b)
  {
    a, b := ZeroBlock(0, 12), ZeroBlock(12, 0);
    assert |a.previousHash| == 12 && |b.previousHash| == 0;
    ZeroBlockEncodable(0, 12);
    ZeroBlockEncodable(12, 0);
    ZeroBlockBytes(0, 12);
    ZeroBlockBytes(12, 0);
  }

  function ZeroBlock(modulus: nat, hash: nat): Block {
    Block(1, 0, PublicKey(Zeros(modulus), 0), Zeros(8), Zeros(hash))
  }

  lemma ZeroBlockEncodable(modulus: nat, hash: nat)
    ensures Encodable(ZeroBlock(modulus, hash))
  {
    Pow2Monotone(0, 64);
  }

  lemma ZeroBlockBytes(modulus: nat, hash: nat)
    ensures GetBytes(ZeroBlock(modulus, hash)) == LittleEndian(1, 8) + TimeBytes(0) + Zeros(modulus + 12 + hash)
  {
    var b := ZeroBlock(modulus, hash);
    ZeroTail(modulus, hash);
    var front := LittleEndian(1, 8) + TimeBytes(0);
    assert GetBytes(b) == front + (PublicKeyBytes(b.pubKey) + b.nonce + b.previousHash);
  }

  // ------------------------------------------------------- collision freedom

  /** No two blocks of the set share a digest. A hash into 32 bytes cannot have this on all blocks;
      it is assumed only of the finitely many blocks of one run. */
  ghost predicate CollisionFree(H: BlockHash, blocks: set<Block>) {
    forall a, b :: a in blocks && b in blocks && H(a) == H(b) ==> a == b
  }

  /** H digests a block by digesting its encoding. */
  ghost predicate DigestsEncoding(sha: seq<byte> -> Digest, H: BlockHash, b: Block) {
    Encodable(b) && H(b) == sha(GetBytes(b))
  }

  ghost predicate SameDigestSameBytes(sha: seq<byte> -> Digest, a: Block, b: Block)
  {
    Encodable(a) && Encodable(b) && sha(GetBytes(a)) == sha(GetBytes(b)) ==> GetBytes(a) == GetBytes(b)
  }

  /** A byte-level hash without collisions on the encodings of a set of blocks, all encodable and with
      moduli of one length, gives a block hash without collisions on those blocks. */
  lemma CollisionFreedomLifts(sha: seq<byte> -> Digest, H: BlockHash, blocks: set<Block>, modulusLength: nat)
    requires forall b :: b in blocks ==> DigestsEncoding(sha, H, b) && |b.pubKey.modulus| == modulusLength
    requires forall a, b :: a in blocks && b in blocks ==> SameDigestSameBytes(sha, a, b)
    ensures CollisionFree(H, blocks)
  {
    forall a, b | a in blocks && b in blocks && H(a) == H(b)
      ensures a == b
    {
      assert DigestsEncoding(sha, H, a) && DigestsEncoding(sha, H, b) && SameDigestSameBytes(sha, a, b);
      SameBytes(a, b);
    }
  }

  // ------------------------------------------------------ validity and mining

  predicate Expired(b: Block, now: int) {
    now - b.timestamp > EXPIRATION
  }

  predicate HasProofOfWork(H: BlockHash, b: Block) {
    BigEndian(H(b)) < Pow2(256 - DIFFICULTY)
  }

  predicate IsValid(H: BlockHash, b: Block, now: int) {
    !Expired(b, now) && HasProofOfWork(H, b)
  }

  method CheckValid(H: BlockHash, b: Block, now: int) returns (ok: bool)
    ensures ok <==> IsValid(H, b, now)
  {
    if Expired(b, now) {
      return false;
    }
    ok := MeetsDifficulty(H(b), DIFFICULTY);
  }

  /** Mining tries the nonces of the numbers 0, 1, 2, ... and gives up after `attempts` of them, the number made
      before `EXPIRATION` has elapsed; clock(i) is the reading of the validity test of attempt i. A block found has
      the fields asked for and the nonce of the least number that gives proof of work. */
  method MineBlock(H: BlockHash, id: nat, timestamp: int, pub: PublicKey, previousHash: seq<byte>,
                   attempts: nat, clock: nat -> int) returns (res: Option<Block>)
    requires attempts >= 1
    requires forall i, j :: 0 <= i <= j < attempts ==> clock(i) <= clock(j)
    ensures res.None? <==>
            (forall w: seq<byte> :: |w| == 8 && FromLittleEndian(w) < attempts ==>
               !IsValid(H, Block(id, timestamp, pub, w, previousHash), clock(FromLittleEndian(w))))
    ensures res.Some? ==>
            var b := res.value;
            && b.nodeID == id && b.timestamp == timestamp && b.pubKey == pub && b.previousHash == previousHash
            && |b.nonce| == 8 && FromLittleEndian(b.nonce) < attempts && IsValid(H, b, clock(FromLittleEndian(b.nonce)))
            && forall w: seq<byte> :: |w| == 8 && FromLittleEndian(w) < FromLittleEndian(b.nonce) ==>
                 !HasProofOfWork(H, Block(id, timestamp, pub, w, previousHash))
  {
    var i := 0;
    while true
      invariant 0 <= i < attempts
      invariant forall w: seq<byte> :: |w| == 8 && FromLittleEndian(w) < i ==>
                  !IsValid(H, Block(id, timestamp, pub, w, previousHash), clock(FromLittleEndian(w)))
      decreases attempts - i
    {
      var nonce := LittleEndian(i, 8);
      var trial := Block(id, timestamp, pub, nonce, previousHash);
      var valid := CheckValid(H, trial, clock(i));
      LittleEndianAtMost(i, 8);
      if valid {
        // a nonce denoting a smaller number would have been valid then
        assert FromLittleEndian(nonce) == i;
        return Some(trial);
      }
      forall w: seq<byte> | |w| == 8 && FromLittleEndian(w) == i
        ensures w == nonce
      {
        LittleEndianOf(w);
      }
      i := i + 1;
      if i == attempts {
        return None;
      }
    }
  }
}
