/** Chunked files: sharing, fetching by hash, and rebuilding. */
module Files {
  import opened Bytes

  type ByteHash = seq<byte> -> Digest

  const CHUNK_SIZE := 8000
  const MAX_FILE_SIZE := 2000000

  /** metafile: the concatenated chunk hashes; chunks: by hexadecimal hash. */
  datatype P2PFile = P2PFile(fileName: string, size: nat, metafile: seq<byte>, metaHash: seq<byte>, chunks: map<string, seq<byte>>)

  type FileTable = map<string, P2PFile>

  /** A data reply as the downloading node sees it. */
  datatype Reply = Reply(origin: string, data: seq<byte>)

  // ------------------------------------------------------------------ hexadecimal

  function HexDigit(n: nat): char
    requires n < 16
  {
    "0123456789abcdef"[n]
  }

  function HexValue(c: char): (n: nat)
    ensures n < 16
  {
    if '0' <= c <= '9' then c as int - '0' as int
    else if 'a' <= c <= 'f' then c as int - 'a' as int + 10
    else 0
  }

  function Hex(s: seq<byte>): (r: string)
    ensures |r| == 2 * |s|
  {
    if s == [] then "" else [HexDigit(s[0] / 16), HexDigit(s[0] % 16)] + Hex(s[1..])
  }

  function FromHex(r: string): (s: seq<byte>)
  {
    if |r| < 2 then [] else [HexValue(r[0]) * 16 + HexValue(r[1])] + FromHex(r[2..])
  }

  lemma HexDigitRoundTrip(n: nat)
    requires n < 16
    ensures HexValue(HexDigit(n)) == n
  {
  }

  lemma {:induction false} HexRoundTrip(s: seq<byte>)
    ensures FromHex(Hex(s)) == s
  {
    if s != [] {
      HexRoundTrip(s[1..]);
      HexDigitRoundTrip(s[0] / 16);
      HexDigitRoundTrip(s[0] % 16);
      assert Hex(s)[2..] == Hex(s[1..]);
    }
  }

  lemma HexInjective(s: seq<byte>, t: seq<byte>)
    requires Hex(s) == Hex(t)
    ensures s == t
  {
    HexRoundTrip(s);
    HexRoundTrip(t);
  }

  // ------------------------------------------------------------------------ sharing

  function Chunks(data: seq<byte>): (cs: seq<seq<byte>>)
    ensures forall c :: c in cs ==> 0 < |c| <= CHUNK_SIZE
  {
    if data == [] then []
    else if |data| <= CHUNK_SIZE then [data]
    else [data[..CHUNK_SIZE]] + Chunks(data[CHUNK_SIZE..])
  }

  function Flatten(cs: seq<seq<byte>>): seq<byte> {
    if cs == [] then [] else cs[0] + Flatten(cs[1..])
  }

  lemma {:induction false} ChunksFlatten(data: seq<byte>)
    ensures Flatten(Chunks(data)) == data
    decreases |data|
  {
    if |data| > CHUNK_SIZE {
      ChunksFlatten(data[CHUNK_SIZE..]);
      assert Chunks(data)[1..] == Chunks(data[CHUNK_SIZE..]);
      assert data == data[..CHUNK_SIZE] + data[CHUNK_SIZE..];
    } else if data != [] {
      assert Chunks(data)[1..] == [];
    }
  }

  lemma CountGrows(n: nat)
    requires n > CHUNK_SIZE
    ensures (n + CHUNK_SIZE - 1) / CHUNK_SIZE == 1 + (n - CHUNK_SIZE + CHUNK_SIZE - 1) / CHUNK_SIZE
  {
    assert (n + 8000 - 1) / 8000 == 1 + (n - 1) / 8000;
  }

  /** All chunks but the last are full, so their number is the size over 8000, rounded up. */
  lemma {:induction false} ChunksAreFull(data: seq<byte>)
    ensures |Chunks(data)| == (|data| + CHUNK_SIZE - 1) / CHUNK_SIZE
    ensures forall i :: 0 <= i < |Chunks(data)| - 1 ==> |Chunks(data)[i]| == CHUNK_SIZE
    decreases |data|
  {
    if |data| > CHUNK_SIZE {
      ChunksAreFull(data[CHUNK_SIZE..]);
      CountGrows(|data|);
      var rest := Chunks(data[CHUNK_SIZE..]);
      assert Chunks(data) == [data[..CHUNK_SIZE]] + rest;
    }
  }

  function MetafileOf(S: ByteHash, cs: seq<seq<byte>>): (m: seq<byte>)
    ensures |m| == 32 * |cs| && |m| % 32 == 0
  {
    if cs == [] then [] else MetafileOf(S, cs[..|cs| - 1]) + S(cs[|cs| - 1])
  }

  function ChunkTable(S: ByteHash, cs: seq<seq<byte>>): map<string, seq<byte>> {
    if cs == [] then map[] else ChunkTable(S, cs[..|cs| - 1])[Hex(S(cs[|cs| - 1])) := cs[|cs| - 1]]
  }

  /** What sharing the bytes `data` under a name registers. */
  function SharedFile(S: ByteHash, name: string, data: seq<byte>): P2PFile {
    var m := MetafileOf(S, Chunks(data));
    P2PFile(name, |data|, m, S(m), ChunkTable(S, Chunks(data)))
  }

  /** The bytes a single read of at most MAX_FILE_SIZE returns. */
  function ReadOf(contents: seq<byte>): seq<byte> {
    if |contents| <= MAX_FILE_SIZE then contents else contents[..MAX_FILE_SIZE]
  }

  /** Where the chunk starting at i ends. */
  function ChunkEnd(data: seq<byte>, i: nat): (end: nat)
    requires i <= |data|
    ensures i <= end <= |data|
  {
    if i + CHUNK_SIZE > |data| then |data| else i + CHUNK_SIZE
  }

  lemma PreviousMultiple(i: nat)
    requires i % CHUNK_SIZE == 0 && i > 0
    ensures i >= CHUNK_SIZE && (i - CHUNK_SIZE) % CHUNK_SIZE == 0
  {
    assert i % 8000 == 0;
    assert (i - 8000) % 8000 == 0;
  }

  /** Beyond the first chunk, splitting goes on with the rest. */
  lemma ChunksOfPrefix(data: seq<byte>, n: nat)
    requires CHUNK_SIZE <= n <= |data|
    ensures Chunks(data[..n]) == [data[..CHUNK_SIZE]] + Chunks(data[CHUNK_SIZE..][..n - CHUNK_SIZE])
  {
    assert data[..n][..CHUNK_SIZE] == data[..CHUNK_SIZE];
    assert data[..n][CHUNK_SIZE..] == data[CHUNK_SIZE..][..n - CHUNK_SIZE];
    if n == CHUNK_SIZE {
      assert data[CHUNK_SIZE..][..0] == [];
    }
  }

  lemma SliceOfDrop(data: seq<byte>, n: nat, i: nat, j: nat)
    requires n <= i <= j <= |data|
    ensures data[n..][i - n..j - n] == data[i..j]
  {
  }

  lemma SnocAfterFirst(data: seq<byte>, i: nat, end: nat)
    requires CHUNK_SIZE <= i <= end <= |data|
    requires var rest := data[CHUNK_SIZE..];
             Chunks(rest[..end - CHUNK_SIZE]) == Chunks(rest[..i - CHUNK_SIZE]) + [rest[i - CHUNK_SIZE..end - CHUNK_SIZE]]
    ensures Chunks(data[..end]) == Chunks(data[..i]) + [data[i..end]]
  {
    SliceOfDrop(data, CHUNK_SIZE, i, end);
    ChunksOfPrefix(data, i);
    ChunksOfPrefix(data, end);
  }

  lemma {:induction false} ChunksSnoc(data: seq<byte>, i: nat)
    requires i % CHUNK_SIZE == 0 && i < |data|
    ensures Chunks(data[..ChunkEnd(data, i)]) == Chunks(data[..i]) + [data[i..ChunkEnd(data, i)]]
    decreases |data|
  {
    var end := ChunkEnd(data, i);
    if i == 0 {
      assert data[..0] == [] && data[0..end] == data[..end];
    } else {
      PreviousMultiple(i);
      ChunksSnoc(data[CHUNK_SIZE..], i - CHUNK_SIZE);
      assert ChunkEnd(data[CHUNK_SIZE..], i - CHUNK_SIZE) == end - CHUNK_SIZE;
      SnocAfterFirst(data, i, end);
    }
  }

  lemma NextMultiple(i: nat)
    requires i % CHUNK_SIZE == 0
    ensures (i + CHUNK_SIZE) % CHUNK_SIZE == 0
  {
    assert i % 8000 == 0;
    assert (i + 8000) % 8000 == 0;
  }

  lemma ListedSnoc(S: ByteHash, cs: seq<seq<byte>>, c: seq<byte>)
    ensures MetafileOf(S, cs + [c]) == MetafileOf(S, cs) + S(c)
    ensures ChunkTable(S, cs + [c]) == ChunkTable(S, cs)[Hex(S(c)) := c]
  {
    assert (cs + [c])[..|cs|] == cs;
  }

  /** metafile and chunks are those of the bytes before position i (of all bytes once i is past the end). */
  ghost predicate SharedUpTo(S: ByteHash, data: seq<byte>, i: nat, metafile: seq<byte>,
                             chunks: map<string, seq<byte>>) {
    var cs := Chunks(data[..if i <= |data| then i else |data|]);
    metafile == MetafileOf(S, cs) && chunks == ChunkTable(S, cs)
  }

  /** One more chunk of the sharing loop. */
  lemma SharedStep(S: ByteHash, data: seq<byte>, i: nat, metafile: seq<byte>, chunks: map<string, seq<byte>>)
    requires i % CHUNK_SIZE == 0 && i < |data| && SharedUpTo(S, data, i, metafile, chunks)
    ensures var chunk := data[i..ChunkEnd(data, i)];
            SharedUpTo(S, data, i + CHUNK_SIZE, metafile + S(chunk), chunks[Hex(S(chunk)) := chunk])
  {
    ChunksSnoc(data, i);
    ListedSnoc(S, Chunks(data[..i]), data[i..ChunkEnd(data, i)]);
  }

  // ---------------------------------------------------------------- splitting and storing

  function SplitMetafile(m: seq<byte>): (hs: seq<string>)
    requires |m| % 32 == 0
    ensures |hs| == |m| / 32
  {
    if m == [] then [] else SplitMetafile(m[..|m| - 32]) + [Hex(m[|m| - 32..])]
  }

  /** The metafile lists the hexadecimal hashes of the chunks in order, repetitions included. */
  lemma {:induction false} SplitMetafileOf(S: ByteHash, cs: seq<seq<byte>>)
    ensures |SplitMetafile(MetafileOf(S, cs))| == |cs|
    ensures forall i :: 0 <= i < |cs| ==> SplitMetafile(MetafileOf(S, cs))[i] == Hex(S(cs[i]))
  {
    if cs != [] {
      var front, m := cs[..|cs| - 1], MetafileOf(S, cs);
      SplitMetafileOf(S, front);
      assert m[..|m| - 32] == MetafileOf(S, front);
      assert m[|m| - 32..] == S(cs[|cs| - 1]);
    }
  }

  function GetData(files: FileTable, name: string, hash: string): Option<seq<byte>> {
    if name !in files then None
    else if Hex(files[name].metaHash) == hash then Some(files[name].metafile)
    else if hash in files[name].chunks then Some(files[name].chunks[hash])
    else None
  }

  /** The first piece stored under a name is taken for its metafile, every later one for a chunk. The size grows
      only in a copy of the entry that is then dropped: the table holds struct values, of which only the chunk
      map is shared with the copy. */
  function StoreData(files: FileTable, name: string, hash: string, data: seq<byte>): FileTable {
    if name in files then
      var f := files[name];
      files[name := f.(chunks := f.chunks[hash := data])]
    else files[name := P2PFile(name, 0, data, FromHex(hash), map[])]
  }

  /** The bytes written for a list of chunk hashes; a missing chunk contributes nothing. */
  function Assemble(chunks: map<string, seq<byte>>, hashes: seq<string>): seq<byte> {
    if hashes == [] then []
    else
      var h := hashes[|hashes| - 1];
      Assemble(chunks, hashes[..|hashes| - 1]) + if h in chunks then chunks[h] else []
  }

  // -------------------------------------------------------------------- downloading

  /** The data of the replies that pass the hash check, in order of arrival. The pending entry is not
      removed by a match, so later copies pass too. */
  function Passing(S: ByteHash, from: string, hash: string, batch: seq<Reply>): seq<seq<byte>> {
    if batch == [] then []
    else
      var r := batch[|batch| - 1];
      Passing(S, from, hash, batch[..|batch| - 1]) + if r.origin == from && hash != "" && hash == Hex(S(r.data)) then [r.data] else []
  }

  /** Fetches the listed hashes one after the other. batches[k] is what arrives between request k and the
      next one, inbox what waits in the data channel; None while the download is blocked on an empty channel. */
  function FetchAll(S: ByteHash, name: string, from: string, hashes: seq<string>, batches: seq<seq<Reply>>,
                    inbox: seq<seq<byte>>, files: FileTable): Option<FileTable>
    requires |batches| == |hashes|
    decreases hashes
  {
    if hashes == [] then Some(files)
    else
      var arrived := inbox + Passing(S, from, hashes[0], batches[0]);
      if arrived == [] then None
      else FetchAll(S, name, from, hashes[1..], batches[1..], arrived[1..], StoreData(files, name, hashes[0], arrived[0]))
  }

  /** Where a download ends: blocked, a panic on a metafile of odd length, or the new table and the bytes written. */
  datatype Download = Blocked | Panicked | Complete(files: FileTable, written: seq<byte>)

  function DownloadFile(S: ByteHash, files: FileTable, name: string, metahash: seq<byte>, from: string,
                        first: seq<Reply>, batches: nat -> seq<Reply>): Download {
    var arrived := Passing(S, from, Hex(metahash), first);
    if arrived == [] then Blocked
    else if |arrived[0]| % 32 != 0 then Panicked
    else
      DownloadChunks(S, StoreData(files, name, Hex(metahash), arrived[0]), name, SplitMetafile(arrived[0]), from, batches, arrived[1..])
  }

  /** The part after the metafile has been stored. */
  function DownloadChunks(S: ByteHash, stored: FileTable, name: string, hashes: seq<string>, from: string,
                          batches: nat -> seq<Reply>, inbox: seq<seq<byte>>): Download {
    match FetchAll(S, name, from, hashes, FirstBatches(batches, |hashes|), inbox, stored)
    case None => Blocked
    case Some(t) => Written(t, name)
  }

  function Written(t: FileTable, name: string): Download {
    if name in t && |t[name].metafile| % 32 == 0
    then Complete(t, Assemble(t[name].chunks, SplitMetafile(t[name].metafile)))
    else Panicked
  }

  function FirstBatches(batches: nat -> seq<Reply>, n: nat): (r: seq<seq<Reply>>)
    ensures |r| == n
    ensures forall i :: 0 <= i < n ==> r[i] == batches(i)
  {
    seq(n, (i: nat) => batches(i))
  }

  // --------------------------------------------------------------------- round trip

  /** Blocks of bytes hashed alike are the same, for the byte strings of one exchange. */
  ghost predicate CollisionFreeBytes(S: ByteHash, strings: set<seq<byte>>) {
    forall x, y :: x in strings && y in strings && S(x) == S(y) ==> x == y
  }

  ghost predicate DataWithin(batch: seq<Reply>, strings: set<seq<byte>>) {
    forall i :: 0 <= i < |batch| ==> batch[i].data in strings
  }

  /** Whatever else arrives, a single reply passing the check for the hash of c can only carry c. */
  lemma {:induction false} PassingCarries(S: ByteHash, from: string, c: seq<byte>, batch: seq<Reply>,
                                          strings: set<seq<byte>>)
    requires CollisionFreeBytes(S, strings) && c in strings && DataWithin(batch, strings)
    ensures forall i :: 0 <= i < |Passing(S, from, Hex(S(c)), batch)| ==> Passing(S, from, Hex(S(c)), batch)[i] == c
  {
    if batch != [] {
      var r := batch[|batch| - 1];
      PassingCarries(S, from, c, batch[..|batch| - 1], strings);
      if Hex(S(c)) == Hex(S(r.data)) {
        HexInjective(S(c), S(r.data));
      }
    }
  }

  function Stored(S: ByteHash, chunks: map<string, seq<byte>>, cs: seq<seq<byte>>): map<string, seq<byte>>
    decreases cs
  {
    if cs == [] then chunks else Stored(S, chunks[Hex(S(cs[0])) := cs[0]], cs[1..])
  }

  lemma {:induction false} StoredSnoc(S: ByteHash, chunks: map<string, seq<byte>>, cs: seq<seq<byte>>, c: seq<byte>)
    ensures Stored(S, chunks, cs + [c]) == Stored(S, chunks, cs)[Hex(S(c)) := c]
    decreases cs
  {
    if cs == [] {
      assert [c][1..] == [];
    } else {
      assert (cs + [c])[1..] == cs[1..] + [c];
      StoredSnoc(S, chunks[Hex(S(cs[0])) := cs[0]], cs[1..], c);
    }
  }

  lemma {:induction false} StoredIsChunkTable(S: ByteHash, cs: seq<seq<byte>>)
    ensures Stored(S, map[], cs) == ChunkTable(S, cs)
  {
    if cs != [] {
      var front, c := cs[..|cs| - 1], cs[|cs| - 1];
      assert cs == front + [c];
      StoredIsChunkTable(S, front);
      StoredSnoc(S, map[], front, c);
    }
  }

  ghost predicate AllWithin(cs: seq<seq<byte>>, strings: set<seq<byte>>) {
    forall i :: 0 <= i < |cs| ==> cs[i] in strings
  }

  ghost predicate AllDataWithin(batches: seq<seq<Reply>>, strings: set<seq<byte>>) {
    forall i :: 0 <= i < |batches| ==> DataWithin(batches[i], strings)
  }

  /** How many of these replies are accepted for the hash of c. */
  function AcceptedFor(S: ByteHash, from: string, c: seq<byte>, batch: seq<Reply>): nat {
    |Passing(S, from, Hex(S(c)), batch)|
  }

  /** One accepted reply for every piece but the last, and at least one for the last. */
  ghost predicate OneEachThenSome(S: ByteHash, from: string, cs: seq<seq<byte>>, batches: seq<seq<Reply>>) {
    && |batches| == |cs|
    && (forall i :: 0 <= i < |cs| - 1 ==> AcceptedFor(S, from, cs[i], batches[i]) == 1)
    && (cs != [] ==> AcceptedFor(S, from, cs[|cs| - 1], batches[|cs| - 1]) >= 1)
  }

  ghost predicate ListsHashes(S: ByteHash, hashes: seq<string>, cs: seq<seq<byte>>) {
    |hashes| == |cs| && forall i :: 0 <= i < |cs| ==> hashes[i] == Hex(S(cs[i]))
  }

  /** A file entry once the chunks cs have been stored in it. */
  function Completed(S: ByteHash, f: P2PFile, cs: seq<seq<byte>>): P2PFile {
    f.(chunks := Stored(S, f.chunks, cs))
  }

  lemma CompletedStep(S: ByteHash, files: FileTable, name: string, cs: seq<seq<byte>>)
    requires name in files && cs != []
    ensures var next := StoreData(files, name, Hex(S(cs[0])), cs[0]);
            next[name := Completed(S, next[name], cs[1..])] == files[name := Completed(S, files[name], cs)]
  {
    var next := StoreData(files, name, Hex(S(cs[0])), cs[0]);
    assert Completed(S, next[name], cs[1..]) == Completed(S, files[name], cs);
  }

  lemma TailAccepted(S: ByteHash, from: string, cs: seq<seq<byte>>, batches: seq<seq<Reply>>)
    requires |batches| == |cs| > 1
    ensures OneEachThenSome(S, from, cs, batches) <==>
            AcceptedFor(S, from, cs[0], batches[0]) == 1 && OneEachThenSome(S, from, cs[1..], batches[1..])
  {
    if AcceptedFor(S, from, cs[0], batches[0]) == 1 && OneEachThenSome(S, from, cs[1..], batches[1..]) {
      forall i | 0 <= i < |cs| - 1
        ensures AcceptedFor(S, from, cs[i], batches[i]) == 1
      {
        if i > 0 {
          assert AcceptedFor(S, from, cs[1..][i - 1], batches[1..][i - 1]) == 1;
        }
      }
    }
    if OneEachThenSome(S, from, cs, batches) {
      forall i | 0 <= i < |cs[1..]| - 1
        ensures AcceptedFor(S, from, cs[1..][i], batches[1..][i]) == 1
      {
        assert AcceptedFor(S, from, cs[i + 1], batches[i + 1]) == 1;
      }
    }
  }

  /** Every accepted reply is the piece asked for, so what has arrived is so many copies of it. */
  lemma HeadArrives(S: ByteHash, from: string, c: seq<byte>, batch: seq<Reply>, strings: set<seq<byte>>)
    requires CollisionFreeBytes(S, strings) && c in strings && DataWithin(batch, strings)
    ensures var arrived := [] + Passing(S, from, Hex(S(c)), batch);
            && |arrived| == AcceptedFor(S, from, c, batch)
            && (arrived != [] ==> arrived[0] == c)
            && (|arrived| == 1 ==> arrived[1..] == [])
            && (|arrived| > 1 ==> arrived[1..] != [] && arrived[1..][0] == c)
  {
    PassingCarries(S, from, c, batch, strings);
  }

  /** Fetching the chunks cs one after the other has the effect of storing each under its hash. */
  predicate Fetched(S: ByteHash, name: string, from: string, cs: seq<seq<byte>>, hashes: seq<string>,
                    batches: seq<seq<Reply>>, inbox: seq<seq<byte>>, files: FileTable)
    requires |batches| == |hashes| && name in files
  {
    FetchAll(S, name, from, hashes, batches, inbox, files) == Some(files[name := Completed(S, files[name], cs)])
  }

  lemma FetchedNothing(S: ByteHash, name: string, from: string, inbox: seq<seq<byte>>, files: FileTable)
    requires name in files
    ensures Fetched(S, name, from, [], [], [], inbox, files)
  {
    assert Completed(S, files[name], []) == files[name];
    assert files == files[name := files[name]];
  }

  /** One request that is answered: go on with what is left in the channel. */
  lemma FetchedStep(S: ByteHash, name: string, from: string, cs: seq<seq<byte>>, hashes: seq<string>,
                    batches: seq<seq<Reply>>, files: FileTable, rest: seq<seq<byte>>)
    requires |batches| == |hashes| && cs != [] && ListsHashes(S, hashes, cs) && name in files
    requires var arrived := [] + Passing(S, from, hashes[0], batches[0]);
             arrived != [] && arrived[0] == cs[0] && arrived[1..] == rest
    ensures Fetched(S, name, from, cs, hashes, batches, [], files) <==>
            Fetched(S, name, from, cs[1..], hashes[1..], batches[1..], rest, StoreData(files, name, hashes[0], cs[0]))
  {
    CompletedStep(S, files, name, cs);
  }

  /** The sufficient half, repeated chunks included. */
  lemma {:induction false} FetchAllStores(S: ByteHash, name: string, from: string, cs: seq<seq<byte>>,
                                          hashes: seq<string>, batches: seq<seq<Reply>>, files: FileTable,
                                          strings: set<seq<byte>>)
    requires CollisionFreeBytes(S, strings) && AllWithin(cs, strings) && AllDataWithin(batches, strings)
    requires ListsHashes(S, hashes, cs) && OneEachThenSome(S, from, cs, batches) && name in files
    ensures Fetched(S, name, from, cs, hashes, batches, [], files)
    decreases cs
  {
    if cs == [] {
      FetchedNothing(S, name, from, [], files);
    } else {
      HeadArrives(S, from, cs[0], batches[0], strings);
      var rest := ([] + Passing(S, from, hashes[0], batches[0]))[1..];
      FetchedStep(S, name, from, cs, hashes, batches, files, rest);
      var next := StoreData(files, name, hashes[0], cs[0]);
      if |cs| == 1 {
        FetchedNothing(S, name, from, rest, next);
      } else {
        TailAccepted(S, from, cs, batches);
        FetchAllStores(S, name, from, cs[1..], hashes[1..], batches[1..], next, strings);
      }
    }
  }

  /** An entry once stored stays as long as its hash is not requested again. */
  lemma {:induction false} FetchKeepsEntry(S: ByteHash, name: string, from: string, hashes: seq<string>,
                                           batches: seq<seq<Reply>>, inbox: seq<seq<byte>>, files: FileTable, h: string)
    requires |batches| == |hashes| && name in files && h in files[name].chunks && h !in hashes
    ensures var t := FetchAll(S, name, from, hashes, batches, inbox, files);
            t.Some? ==> name in t.value && h in t.value[name].chunks && t.value[name].chunks[h] == files[name].chunks[h]
    decreases hashes
  {
    if hashes != [] {
      var arrived := inbox + Passing(S, from, hashes[0], batches[0]);
      if arrived != [] {
        FetchKeepsEntry(S, name, from, hashes[1..], batches[1..], arrived[1..],
                        StoreData(files, name, hashes[0], arrived[0]), h);
      }
    }
  }

  lemma {:induction false} StoredKeeps(S: ByteHash, chunks: map<string, seq<byte>>, cs: seq<seq<byte>>, h: string)
    requires h in chunks && forall i :: 0 <= i < |cs| ==> Hex(S(cs[i])) != h
    ensures h in Stored(S, chunks, cs) && Stored(S, chunks, cs)[h] == chunks[h]
    decreases cs
  {
    if cs != [] {
      StoredKeeps(S, chunks[Hex(S(cs[0])) := cs[0]], cs[1..], h);
    }
  }

  ghost predicate DistinctHashes(S: ByteHash, cs: seq<seq<byte>>) {
    forall i, j :: 0 <= i < j < |cs| ==> Hex(S(cs[i])) != Hex(S(cs[j]))
  }

  /** A piece left over in the channel is taken for the next chunk, and nothing corrects that later. */
  lemma StaleReplySpoils(S: ByteHash, name: string, from: string, cs: seq<seq<byte>>, hashes: seq<string>,
                         batches: seq<seq<Reply>>, inbox: seq<seq<byte>>, files: FileTable)
    requires |batches| == |hashes| && ListsHashes(S, hashes, cs) && name in files
    requires cs != [] && DistinctHashes(S, cs) && inbox != [] && inbox[0] != cs[0]
    ensures !Fetched(S, name, from, cs, hashes, batches, inbox, files)
  {
    var h := hashes[0];
    var arrived := inbox + Passing(S, from, h, batches[0]);
    assert arrived[0] == inbox[0];
    var next := StoreData(files, name, h, arrived[0]);
    assert h !in hashes[1..] by {
      forall i | 0 <= i < |hashes[1..]| ensures hashes[1..][i] != h {
        assert hashes[1..][i] == Hex(S(cs[i + 1]));
      }
    }
    FetchKeepsEntry(S, name, from, hashes[1..], batches[1..], arrived[1..], next, h);
    var first := files[name].chunks[h := cs[0]];
    assert forall i :: 0 <= i < |cs[1..]| ==> Hex(S(cs[1..][i])) == Hex(S(cs[i + 1])) != h;
    StoredKeeps(S, first, cs[1..], h);
    assert Completed(S, files[name], cs).chunks[h] == cs[0];
  }

  /** The exact condition, for chunks of pairwise distinct hashes. */
  lemma {:induction false} FetchedIffOneEach(S: ByteHash, name: string, from: string, cs: seq<seq<byte>>,
                                             hashes: seq<string>, batches: seq<seq<Reply>>, files: FileTable,
                                             strings: set<seq<byte>>)
    requires CollisionFreeBytes(S, strings) && AllWithin(cs, strings) && AllDataWithin(batches, strings)
    requires |batches| == |hashes| && ListsHashes(S, hashes, cs) && DistinctHashes(S, cs) && name in files
    ensures Fetched(S, name, from, cs, hashes, batches, [], files) <==> OneEachThenSome(S, from, cs, batches)
    decreases cs
  {
    if cs == [] {
      FetchedNothing(S, name, from, [], files);
    } else {
      HeadArrives(S, from, cs[0], batches[0], strings);
      var arrived := [] + Passing(S, from, hashes[0], batches[0]);
      if arrived != [] {
        FetchedStep(S, name, from, cs, hashes, batches, files, arrived[1..]);
        var next := StoreData(files, name, hashes[0], cs[0]);
        if |cs| == 1 {
          FetchedNothing(S, name, from, arrived[1..], next);
        } else {
          TailAccepted(S, from, cs, batches);
          TailDistinct(S, cs);
          if |arrived| == 1 {
            FetchedIffOneEach(S, name, from, cs[1..], hashes[1..], batches[1..], next, strings);
          } else {
            StaleReplySpoils(S, name, from, cs[1..], hashes[1..], batches[1..], arrived[1..], next);
          }
        }
      }
    }
  }

  lemma TailDistinct(S: ByteHash, cs: seq<seq<byte>>)
    requires |cs| > 1 && DistinctHashes(S, cs)
    ensures DistinctHashes(S, cs[1..]) && cs[0] != cs[1..][0]
  {
    assert Hex(S(cs[0])) != Hex(S(cs[1]));
  }

  lemma {:induction false} ChunkTableLookup(S: ByteHash, cs: seq<seq<byte>>, strings: set<seq<byte>>, i: nat)
    requires CollisionFreeBytes(S, strings) && AllWithin(cs, strings) && i < |cs|
    ensures Hex(S(cs[i])) in ChunkTable(S, cs) && ChunkTable(S, cs)[Hex(S(cs[i]))] == cs[i]
  {
    var front, c := cs[..|cs| - 1], cs[|cs| - 1];
    if Hex(S(cs[i])) == Hex(S(c)) {
      HexInjective(S(cs[i]), S(c));
    } else {
      ChunkTableLookup(S, front, strings, i);
      assert front[i] == cs[i];
    }
  }

  lemma {:induction false} FlattenSnoc(cs: seq<seq<byte>>, c: seq<byte>)
    ensures Flatten(cs + [c]) == Flatten(cs) + c
  {
    if cs == [] {
      assert [c][1..] == [];
    } else {
      assert (cs + [c])[1..] == cs[1..] + [c];
      FlattenSnoc(cs[1..], c);
    }
  }

  lemma {:induction false} AssembleChunks(S: ByteHash, chunks: map<string, seq<byte>>, hashes: seq<string>,
                                          cs: seq<seq<byte>>)
    requires ListsHashes(S, hashes, cs)
    requires forall i :: 0 <= i < |cs| ==> Hex(S(cs[i])) in chunks && chunks[Hex(S(cs[i]))] == cs[i]
    ensures Assemble(chunks, hashes) == Flatten(cs)
    decreases |cs|
  {
    if cs != [] {
      var front, c := cs[..|cs| - 1], cs[|cs| - 1];
      assert cs == front + [c];
      AssembleChunks(S, chunks, hashes[..|hashes| - 1], front);
      FlattenSnoc(front, c);
    }
  }

  /** What the owner shared, rebuilt from the receiver's chunks. */
  lemma RebuiltFile(S: ByteHash, name: string, data: seq<byte>, strings: set<seq<byte>>)
    requires CollisionFreeBytes(S, strings) && AllWithin(Chunks(data), strings)
    ensures var f := SharedFile(S, name, data);
            |f.metafile| % 32 == 0 && Assemble(f.chunks, SplitMetafile(f.metafile)) == data
  {
    var cs, f := Chunks(data), SharedFile(S, name, data);
    SplitMetafileOf(S, cs);
    forall i | 0 <= i < |cs|
      ensures Hex(S(cs[i])) in f.chunks && f.chunks[Hex(S(cs[i]))] == cs[i]
    {
      ChunkTableLookup(S, cs, strings, i);
    }
    AssembleChunks(S, f.chunks, SplitMetafile(f.metafile), cs);
    ChunksFlatten(data);
  }

  /** What a download requests, in order: the metafile, then the chunks. */
  function Pieces(S: ByteHash, name: string, data: seq<byte>): seq<seq<byte>> {
    [SharedFile(S, name, data).metafile] + Chunks(data)
  }

  /** The replies to those requests. */
  function RepliesTo(first: seq<Reply>, batches: nat -> seq<Reply>, n: nat): (r: seq<seq<Reply>>)
    ensures |r| == n + 1
  {
    [first] + FirstBatches(batches, n)
  }

  /** Everything a download may be sent comes from a set of strings without collisions. */
  ghost predicate Exchange(S: ByteHash, name: string, data: seq<byte>, first: seq<Reply>, batches: nat -> seq<Reply>,
                           strings: set<seq<byte>>) {
    && CollisionFreeBytes(S, strings)
    && SharedFile(S, name, data).metafile in strings && AllWithin(Chunks(data), strings)
    && DataWithin(first, strings) && AllDataWithin(FirstBatches(batches, |Chunks(data)|), strings)
  }

  /** The entry a receiver can end up with: the owner's, but for the size. */
  function ReceivedFile(S: ByteHash, name: string, data: seq<byte>): P2PFile {
    SharedFile(S, name, data).(size := 0)
  }

  /** The download ends with the owner's bytes written, and the owner's metafile and chunks stored. */
  predicate EndsRight(S: ByteHash, files: FileTable, name: string, data: seq<byte>, from: string,
                      first: seq<Reply>, batches: nat -> seq<Reply>) {
    DownloadFile(S, files, name, SharedFile(S, name, data).metaHash, from, first, batches) ==
      Complete(files[name := ReceivedFile(S, name, data)], data)
  }

  /** After the metafile it does so exactly when fetching stores every chunk under its hash. */
  lemma EndsRightIffFetched(S: ByteHash, files: FileTable, name: string, data: seq<byte>, from: string,
                            batches: nat -> seq<Reply>, inbox: seq<seq<byte>>, strings: set<seq<byte>>)
    requires name !in files && CollisionFreeBytes(S, strings) && AllWithin(Chunks(data), strings)
    ensures var f := SharedFile(S, name, data); var hashes := SplitMetafile(f.metafile);
            var stored := StoreData(files, name, Hex(f.metaHash), f.metafile);
            && ListsHashes(S, hashes, Chunks(data)) && name in stored
            && (DownloadChunks(S, stored, name, hashes, from, batches, inbox) == Complete(files[name := ReceivedFile(S, name, data)], data) <==>
                Fetched(S, name, from, Chunks(data), hashes, FirstBatches(batches, |hashes|), inbox, stored))
  {
    var f := SharedFile(S, name, data);
    SplitMetafileOf(S, Chunks(data));
    CompletedIsReceived(S, files, name, data);
    RebuiltFile(S, name, data, strings);
    CompletesIff(S, StoreData(files, name, Hex(f.metaHash), f.metafile), name, SplitMetafile(f.metafile), from, batches, inbox,
                 files[name := ReceivedFile(S, name, data)], data);
  }

  lemma CompletesIff(S: ByteHash, stored: FileTable, name: string, hashes: seq<string>, from: string,
                     batches: nat -> seq<Reply>, inbox: seq<seq<byte>>, target: FileTable, data: seq<byte>)
    requires Written(target, name) == Complete(target, data)
    ensures DownloadChunks(S, stored, name, hashes, from, batches, inbox) == Complete(target, data) <==>
            FetchAll(S, name, from, hashes, FirstBatches(batches, |hashes|), inbox, stored) == Some(target)
  {
  }

  /** The first request: what is left over once the metafile is stored. */
  lemma MetafileArrives(S: ByteHash, files: FileTable, name: string, data: seq<byte>, from: string,
                        first: seq<Reply>, batches: nat -> seq<Reply>, strings: set<seq<byte>>)
    requires CollisionFreeBytes(S, strings) && DataWithin(first, strings) &&
             SharedFile(S, name, data).metafile in strings
    ensures var f := SharedFile(S, name, data); var n := AcceptedFor(S, from, f.metafile, first);
            var stored := StoreData(files, name, Hex(f.metaHash), f.metafile);
            var end := DownloadFile(S, files, name, f.metaHash, from, first, batches);
            && (n == 0 ==> end == Blocked)
            && (n > 0 ==>
                 var rest := Passing(S, from, Hex(f.metaHash), first)[1..];
                 && end == DownloadChunks(S, stored, name, SplitMetafile(f.metafile), from, batches, rest)
                 && (n == 1 ==> rest == []) && (n > 1 ==> rest != [] && rest[0] == f.metafile))
  {
    var f := SharedFile(S, name, data);
    HeadArrives(S, from, f.metafile, first, strings);
    assert [] + Passing(S, from, Hex(f.metaHash), first) == Passing(S, from, Hex(f.metaHash), first);
    FirstRequest(S, files, name, f.metaHash, from, first, batches);
  }

  lemma FirstRequest(S: ByteHash, files: FileTable, name: string, metahash: seq<byte>, from: string,
                     first: seq<Reply>, batches: nat -> seq<Reply>)
    ensures var arrived := Passing(S, from, Hex(metahash), first);
            var end := DownloadFile(S, files, name, metahash, from, first, batches);
            && (arrived == [] ==> end == Blocked)
            && (arrived != [] && |arrived[0]| % 32 == 0 ==>
                 end == DownloadChunks(S, StoreData(files, name, Hex(metahash), arrived[0]), name, SplitMetafile(arrived[0]),
                                       from, batches, arrived[1..]))
  {
  }

  lemma PiecesAccepted(S: ByteHash, name: string, data: seq<byte>, from: string, first: seq<Reply>,
                       batches: nat -> seq<Reply>)
    ensures var n := |Chunks(data)|; var m := AcceptedFor(S, from, SharedFile(S, name, data).metafile, first);
            OneEachThenSome(S, from, Pieces(S, name, data), RepliesTo(first, batches, n)) <==>
            (if data == [] then m >= 1 else m == 1 && OneEachThenSome(S, from, Chunks(data), FirstBatches(batches, n)))
  {
    var ps, rs := Pieces(S, name, data), RepliesTo(first, batches, |Chunks(data)|);
    assert ps[1..] == Chunks(data) && rs[1..] == FirstBatches(batches, |Chunks(data)|);
    if data != [] {
      assert Chunks(data) != [];
      TailAccepted(S, from, ps, rs);
    }
  }

  /** Download round trip. Under a name not in use at the receiver, if exactly one reply to each request but the
      last passes the hash check, and at least one to the last, then whatever other replies arrive, and however
      often a chunk is repeated, the bytes written are the owner's, and so are the metafile and the chunks stored. */
  lemma DownloadRoundTrip(S: ByteHash, files: FileTable, name: string, data: seq<byte>, from: string,
                          first: seq<Reply>, batches: nat -> seq<Reply>, strings: set<seq<byte>>)
    requires name !in files && Exchange(S, name, data, first, batches, strings)
    requires OneEachThenSome(S, from, Pieces(S, name, data), RepliesTo(first, batches, |Chunks(data)|))
    ensures EndsRight(S, files, name, data, from, first, batches)
  {
    PiecesAccepted(S, name, data, from, first, batches);
    MetafileArrives(S, files, name, data, from, first, batches, strings);
    if data == [] && AcceptedFor(S, from, SharedFile(S, name, data).metafile, first) > 1 {
      EmptyFileEndsRight(S, files, name, from, first, batches, strings);
    } else {
      AfterMetafile(S, files, name, data, from, batches, strings);
    }
  }

  /** With nothing left over from the metafile, one reply each is enough for the chunks. */
  lemma AfterMetafile(S: ByteHash, files: FileTable, name: string, data: seq<byte>, from: string,
                      batches: nat -> seq<Reply>, strings: set<seq<byte>>)
    requires name !in files && CollisionFreeBytes(S, strings) && AllWithin(Chunks(data), strings)
    requires AllDataWithin(FirstBatches(batches, |Chunks(data)|), strings)
    requires OneEachThenSome(S, from, Chunks(data), FirstBatches(batches, |Chunks(data)|))
    ensures var f := SharedFile(S, name, data);
            DownloadChunks(S, StoreData(files, name, Hex(f.metaHash), f.metafile), name, SplitMetafile(f.metafile), from, batches, [])
            == Complete(files[name := ReceivedFile(S, name, data)], data)
  {
    var f := SharedFile(S, name, data);
    EndsRightIffFetched(S, files, name, data, from, batches, [], strings);
    FetchAllStores(S, name, from, Chunks(data), SplitMetafile(f.metafile), FirstBatches(batches, |Chunks(data)|),
                   StoreData(files, name, Hex(f.metaHash), f.metafile), strings);
  }

  /** ... and exactly what is needed, if the chunks are distinct. */
  lemma AfterMetafileIff(S: ByteHash, files: FileTable, name: string, data: seq<byte>, from: string,
                         batches: nat -> seq<Reply>, strings: set<seq<byte>>)
    requires name !in files && CollisionFreeBytes(S, strings) && AllWithin(Chunks(data), strings)
    requires AllDataWithin(FirstBatches(batches, |Chunks(data)|), strings) && DistinctHashes(S, Chunks(data))
    ensures var f := SharedFile(S, name, data);
            DownloadChunks(S, StoreData(files, name, Hex(f.metaHash), f.metafile), name, SplitMetafile(f.metafile), from, batches, [])
            == Complete(files[name := ReceivedFile(S, name, data)], data)
            <==> OneEachThenSome(S, from, Chunks(data), FirstBatches(batches, |Chunks(data)|))
  {
    var f := SharedFile(S, name, data);
    EndsRightIffFetched(S, files, name, data, from, batches, [], strings);
    FetchedIffOneEach(S, name, from, Chunks(data), SplitMetafile(f.metafile), FirstBatches(batches, |Chunks(data)|),
                      StoreData(files, name, Hex(f.metaHash), f.metafile), strings);
  }

  lemma EmptyFileEndsRight(S: ByteHash, files: FileTable, name: string, from: string,
                           first: seq<Reply>, batches: nat -> seq<Reply>, strings: set<seq<byte>>)
    requires name !in files && CollisionFreeBytes(S, strings) && DataWithin(first, strings)
    requires SharedFile(S, name, []).metafile in strings
    requires AcceptedFor(S, from, SharedFile(S, name, []).metafile, first) > 1
    ensures EndsRight(S, files, name, [], from, first, batches)
  {
    var f := SharedFile(S, name, []);
    MetafileArrives(S, files, name, [], from, first, batches, strings);
    var rest := Passing(S, from, Hex(f.metaHash), first)[1..];
    EndsRightIffFetched(S, files, name, [], from, batches, rest, strings);
    FetchedNothing(S, name, from, rest, StoreData(files, name, Hex(f.metaHash), f.metafile));
  }

  /** A metafile left over is taken for the first chunk. */
  lemma LeftoverMetafileSpoils(S: ByteHash, files: FileTable, name: string, data: seq<byte>, from: string,
                               batches: nat -> seq<Reply>, rest: seq<seq<byte>>, strings: set<seq<byte>>)
    requires name !in files && CollisionFreeBytes(S, strings) && AllWithin(Chunks(data), strings)
    requires data != [] && DistinctHashes(S, Chunks(data)) && rest != [] && rest[0] != Chunks(data)[0]
    ensures var f := SharedFile(S, name, data);
            DownloadChunks(S, StoreData(files, name, Hex(f.metaHash), f.metafile), name, SplitMetafile(f.metafile), from, batches, rest)
            != Complete(files[name := ReceivedFile(S, name, data)], data)
  {
    var f := SharedFile(S, name, data);
    EndsRightIffFetched(S, files, name, data, from, batches, rest, strings);
    StaleReplySpoils(S, name, from, Chunks(data), SplitMetafile(f.metafile), FirstBatches(batches, |Chunks(data)|), rest,
                     StoreData(files, name, Hex(f.metaHash), f.metafile));
  }

  ghost predicate PairwiseDistinct(cs: seq<seq<byte>>) {
    forall i, j :: 0 <= i < j < |cs| ==> cs[i] != cs[j]
  }

  lemma DistinctPieces(S: ByteHash, name: string, data: seq<byte>, strings: set<seq<byte>>)
    requires CollisionFreeBytes(S, strings) && AllWithin(Chunks(data), strings)
    requires PairwiseDistinct(Pieces(S, name, data))
    ensures DistinctHashes(S, Chunks(data))
    ensures data != [] ==> SharedFile(S, name, data).metafile != Chunks(data)[0]
  {
    var ps, cs := Pieces(S, name, data), Chunks(data);
    forall i, j | 0 <= i < j < |cs|
      ensures Hex(S(cs[i])) != Hex(S(cs[j]))
    {
      assert cs[i] == ps[i + 1] && cs[j] == ps[j + 1];
      if Hex(S(cs[i])) == Hex(S(cs[j])) {
        HexInjective(S(cs[i]), S(cs[j]));
      }
    }
    if data != [] {
      assert cs[0] == ps[1] && ps[0] != ps[1];
    }
  }

  /** The exact condition. For a file whose metafile and chunks are pairwise distinct, the download ends with the
      owner's bytes, metafile and chunks if and only if every request but the last has exactly one accepted reply
      and the last has at least one: a second copy is never recognised as such. */
  lemma DownloadEndsRightIff(S: ByteHash, files: FileTable, name: string, data: seq<byte>, from: string,
                             first: seq<Reply>, batches: nat -> seq<Reply>, strings: set<seq<byte>>)
    requires name !in files && Exchange(S, name, data, first, batches, strings)
    requires PairwiseDistinct(Pieces(S, name, data))
    ensures EndsRight(S, files, name, data, from, first, batches) <==>
            OneEachThenSome(S, from, Pieces(S, name, data), RepliesTo(first, batches, |Chunks(data)|))
  {
    DistinctPieces(S, name, data, strings);
    PiecesAccepted(S, name, data, from, first, batches);
    if OneEachThenSome(S, from, Pieces(S, name, data), RepliesTo(first, batches, |Chunks(data)|)) {
      DownloadRoundTrip(S, files, name, data, from, first, batches, strings);
    } else {
      WrongCountsEndWrong(S, files, name, data, from, first, batches, strings);
    }
  }

  lemma WrongCountsEndWrong(S: ByteHash, files: FileTable, name: string, data: seq<byte>, from: string,
                            first: seq<Reply>, batches: nat -> seq<Reply>, strings: set<seq<byte>>)
    requires name !in files && CollisionFreeBytes(S, strings) && AllWithin(Chunks(data), strings)
    requires SharedFile(S, name, data).metafile in strings && DataWithin(first, strings)
    requires AllDataWithin(FirstBatches(batches, |Chunks(data)|), strings) && DistinctHashes(S, Chunks(data))
    requires data != [] ==> SharedFile(S, name, data).metafile != Chunks(data)[0]
    requires var m := AcceptedFor(S, from, SharedFile(S, name, data).metafile, first);
             !(if data == [] then m >= 1
               else m == 1 && OneEachThenSome(S, from, Chunks(data), FirstBatches(batches, |Chunks(data)|)))
    ensures !EndsRight(S, files, name, data, from, first, batches)
  {
    var f := SharedFile(S, name, data);
    MetafileArrives(S, files, name, data, from, first, batches, strings);
    var n := AcceptedFor(S, from, f.metafile, first);
    if n == 1 {
      AfterMetafileIff(S, files, name, data, from, batches, strings);
    } else if n > 1 {
      LeftoverMetafileSpoils(S, files, name, data, from, batches, Passing(S, from, Hex(f.metaHash), first)[1..], strings);
    }
  }

  lemma {:induction false} FetchKeepsFields(S: ByteHash, name: string, from: string, hashes: seq<string>,
                                          batches: seq<seq<Reply>>, inbox: seq<seq<byte>>, files: FileTable)
    requires |batches| == |hashes| && name in files
    ensures var t := FetchAll(S, name, from, hashes, batches, inbox, files);
            t.Some? ==> name in t.value && t.value[name].size == files[name].size
                        && t.value[name].metafile == files[name].metafile
    decreases hashes
  {
    if hashes != [] {
      var arrived := inbox + Passing(S, from, hashes[0], batches[0]);
      if arrived != [] {
        FetchKeepsFields(S, name, from, hashes[1..], batches[1..], arrived[1..],
                       StoreData(files, name, hashes[0], arrived[0]));
      }
    }
  }

  /** The size is lost: whatever is downloaded under an unused name, and whatever arrives, the entry keeps the
      size 0 it was created with. */
  lemma DownloadedSizeIsZero(S: ByteHash, files: FileTable, name: string, metahash: seq<byte>, from: string,
                             first: seq<Reply>, batches: nat -> seq<Reply>)
    requires name !in files
    ensures var end := DownloadFile(S, files, name, metahash, from, first, batches);
            end.Complete? ==> name in end.files && end.files[name].size == 0
  {
    var arrived := Passing(S, from, Hex(metahash), first);
    if arrived != [] && |arrived[0]| % 32 == 0 {
      var hashes := SplitMetafile(arrived[0]);
      FetchKeepsFields(S, name, from, hashes, FirstBatches(batches, |hashes|), arrived[1..],
                     StoreData(files, name, Hex(metahash), arrived[0]));
    }
  }

  /** A download under an unused name panics exactly if the first accepted reply to the metafile request is not made
      of whole hashes. */
  lemma DownloadPanicsIff(S: ByteHash, files: FileTable, name: string, metahash: seq<byte>, from: string,
                          first: seq<Reply>, batches: nat -> seq<Reply>)
    requires name !in files
    ensures var arrived := Passing(S, from, Hex(metahash), first);
            DownloadFile(S, files, name, metahash, from, first, batches).Panicked? <==>
            arrived != [] && |arrived[0]| % 32 != 0
  {
    var arrived := Passing(S, from, Hex(metahash), first);
    if arrived != [] && |arrived[0]| % 32 == 0 {
      var hashes := SplitMetafile(arrived[0]);
      FetchKeepsFields(S, name, from, hashes, FirstBatches(batches, |hashes|), arrived[1..],
                     StoreData(files, name, Hex(metahash), arrived[0]));
    }
  }

  /** So after a download that ended right, the entry is the owner's exactly if the file is empty. */
  lemma EntryIsOwnersIffEmpty(S: ByteHash, files: FileTable, name: string, data: seq<byte>, from: string,
                              first: seq<Reply>, batches: nat -> seq<Reply>)
    requires EndsRight(S, files, name, data, from, first, batches)
    ensures var f := SharedFile(S, name, data);
            var end := DownloadFile(S, files, name, f.metaHash, from, first, batches);
            end.Complete? && name in end.files && (end.files[name] == f <==> data == [])
  {
  }

  // ------------------------------------------------------------- any file, any replies

  /** The pieces a download takes from its channel, one per request; None while it is blocked. */
  function Taken(S: ByteHash, from: string, cs: seq<seq<byte>>, batches: seq<seq<Reply>>, inbox: seq<seq<byte>>):
      (r: Option<seq<seq<byte>>>)
    requires |batches| == |cs|
    ensures r.Some? ==> |r.value| == |cs|
    decreases cs
  {
    if cs == [] then Some([])
    else
      var arrived := inbox + Passing(S, from, Hex(S(cs[0])), batches[0]);
      if arrived == [] then None
      else match Taken(S, from, cs[1..], batches[1..], arrived[1..])
        case None => None
        case Some(rest) => Some([arrived[0]] + rest)
  }

  /** The chunk table once ps[i] has been stored under the hash of cs[i], for each i in turn. */
  function StoredAs(S: ByteHash, chunks: map<string, seq<byte>>, cs: seq<seq<byte>>, ps: seq<seq<byte>>):
      map<string, seq<byte>>
    requires |ps| == |cs|
    decreases cs
  {
    if cs == [] then chunks else StoredAs(S, chunks[Hex(S(cs[0])) := ps[0]], cs[1..], ps[1..])
  }

  lemma {:induction false} StoredAsItself(S: ByteHash, chunks: map<string, seq<byte>>, cs: seq<seq<byte>>)
    ensures StoredAs(S, chunks, cs, cs) == Stored(S, chunks, cs)
    decreases cs
  {
    if cs != [] {
      StoredAsItself(S, chunks[Hex(S(cs[0])) := cs[0]], cs[1..]);
    }
  }

  lemma {:induction false} FetchAllIsTaken(S: ByteHash, name: string, from: string, cs: seq<seq<byte>>,
                                           hashes: seq<string>, batches: seq<seq<Reply>>, inbox: seq<seq<byte>>,
                                           files: FileTable)
    requires ListsHashes(S, hashes, cs) && |batches| == |cs| && name in files
    ensures FetchAll(S, name, from, hashes, batches, inbox, files) ==
            match Taken(S, from, cs, batches, inbox)
            case None => None
            case Some(ps) => Some(files[name := files[name].(chunks := StoredAs(S, files[name].chunks, cs, ps))])
    decreases cs
  {
    if cs == [] {
      assert files == files[name := files[name]];
    } else {
      var arrived := inbox + Passing(S, from, hashes[0], batches[0]);
      if arrived != [] {
        var next := StoreData(files, name, hashes[0], arrived[0]);
        FetchAllIsTaken(S, name, from, cs[1..], hashes[1..], batches[1..], arrived[1..], next);
        var later := Taken(S, from, cs[1..], batches[1..], arrived[1..]);
        if later.Some? {
          var ps := [arrived[0]] + later.value;
          assert ps[1..] == later.value && Taken(S, from, cs, batches, inbox) == Some(ps);
          var table := StoredAs(S, files[name].chunks, cs, ps);
          assert table == StoredAs(S, next[name].chunks, cs[1..], later.value);
          assert next[name := next[name].(chunks := table)] == files[name := files[name].(chunks := table)];
        }
      }
    }
  }

  /** No later request has the hash of the i-th. */
  ghost predicate LastRequest(S: ByteHash, cs: seq<seq<byte>>, i: nat) {
    i < |cs| && forall j :: i < j < |cs| ==> Hex(S(cs[j])) != Hex(S(cs[i]))
  }

  ghost predicate Requested(S: ByteHash, cs: seq<seq<byte>>, h: string) {
    exists i :: 0 <= i < |cs| && Hex(S(cs[i])) == h
  }

  lemma {:induction false} StoredElsewhere(S: ByteHash, chunks: map<string, seq<byte>>, cs: seq<seq<byte>>,
                                           ps: seq<seq<byte>>, h: string)
    requires |ps| == |cs| && !Requested(S, cs, h)
    ensures h in StoredAs(S, chunks, cs, ps) <==> h in chunks
    ensures h in chunks ==> StoredAs(S, chunks, cs, ps)[h] == chunks[h]
    decreases cs
  {
    if cs != [] {
      assert forall i :: 0 <= i < |cs[1..]| ==> cs[1..][i] == cs[i + 1];
      StoredElsewhere(S, chunks[Hex(S(cs[0])) := ps[0]], cs[1..], ps[1..], h);
    }
  }

  /** The last piece stored under a hash stays. */
  lemma {:induction false} StoredAtLast(S: ByteHash, chunks: map<string, seq<byte>>, cs: seq<seq<byte>>,
                                        ps: seq<seq<byte>>, i: nat)
    requires |ps| == |cs| && LastRequest(S, cs, i)
    ensures Hex(S(cs[i])) in StoredAs(S, chunks, cs, ps) && StoredAs(S, chunks, cs, ps)[Hex(S(cs[i]))] == ps[i]
    decreases cs
  {
    var next := chunks[Hex(S(cs[0])) := ps[0]];
    assert forall j :: 0 <= j < |cs[1..]| ==> cs[1..][j] == cs[j + 1];
    if i == 0 {
      StoredElsewhere(S, next, cs[1..], ps[1..], Hex(S(cs[0])));
    } else {
      StoredAtLast(S, next, cs[1..], ps[1..], i - 1);
    }
  }

  lemma {:induction false} LastRequestExists(S: ByteHash, cs: seq<seq<byte>>, k: nat) returns (i: nat)
    requires k < |cs|
    ensures LastRequest(S, cs, i) && Hex(S(cs[i])) == Hex(S(cs[k]))
    decreases |cs| - k
  {
    if j :| k < j < |cs| && Hex(S(cs[j])) == Hex(S(cs[k])) {
      i := LastRequestExists(S, cs, j);
    } else {
      i := k;
    }
  }

  ghost predicate LastPiecesRight(S: ByteHash, cs: seq<seq<byte>>, ps: seq<seq<byte>>)
    requires |ps| == |cs|
  {
    forall i: nat :: LastRequest(S, cs, i) ==> ps[i] == cs[i]
  }

  /** Two tables agree exactly if the last piece stored under each hash is right. */
  lemma StoredRightIff(S: ByteHash, chunks: map<string, seq<byte>>, cs: seq<seq<byte>>, ps: seq<seq<byte>>)
    requires |ps| == |cs|
    ensures StoredAs(S, chunks, cs, ps) == StoredAs(S, chunks, cs, cs) <==> LastPiecesRight(S, cs, ps)
  {
    var a, b := StoredAs(S, chunks, cs, ps), StoredAs(S, chunks, cs, cs);
    if a == b {
      forall i: nat | LastRequest(S, cs, i)
        ensures ps[i] == cs[i]
      {
        StoredAtLast(S, chunks, cs, ps, i);
        StoredAtLast(S, chunks, cs, cs, i);
      }
    }
    if LastPiecesRight(S, cs, ps) {
      forall h: string
        ensures (h in a <==> h in b) && (h in a ==> a[h] == b[h])
      {
        StoredAlike(S, chunks, cs, ps, h);
      }
    }
  }

  lemma StoredAlike(S: ByteHash, chunks: map<string, seq<byte>>, cs: seq<seq<byte>>, ps: seq<seq<byte>>, h: string)
    requires |ps| == |cs| && LastPiecesRight(S, cs, ps)
    ensures h in StoredAs(S, chunks, cs, ps) <==> h in StoredAs(S, chunks, cs, cs)
    ensures h in StoredAs(S, chunks, cs, ps) ==> StoredAs(S, chunks, cs, ps)[h] == StoredAs(S, chunks, cs, cs)[h]
  {
    if k :| 0 <= k < |cs| && Hex(S(cs[k])) == h {
      var i := LastRequestExists(S, cs, k);
      StoredAtLast(S, chunks, cs, ps, i);
      StoredAtLast(S, chunks, cs, cs, i);
    } else {
      StoredElsewhere(S, chunks, cs, ps, h);
      StoredElsewhere(S, chunks, cs, cs, h);
    }
  }

  lemma FetchedIffLastPiecesRight(S: ByteHash, name: string, from: string, cs: seq<seq<byte>>, hashes: seq<string>,
                                  batches: seq<seq<Reply>>, inbox: seq<seq<byte>>, files: FileTable)
    requires ListsHashes(S, hashes, cs) && |batches| == |cs| && name in files
    ensures Fetched(S, name, from, cs, hashes, batches, inbox, files) <==>
            Taken(S, from, cs, batches, inbox).Some? && LastPiecesRight(S, cs, Taken(S, from, cs, batches, inbox).value)
  {
    FetchAllIsTaken(S, name, from, cs, hashes, batches, inbox, files);
    StoredAsItself(S, files[name].chunks, cs);
    var taken := Taken(S, from, cs, batches, inbox);
    if taken.Some? {
      StoredRightIff(S, files[name].chunks, cs, taken.value);
      SameEntryIff(files, name, StoredAs(S, files[name].chunks, cs, taken.value), Stored(S, files[name].chunks, cs));
    }
  }

  lemma SameEntryIff(files: FileTable, name: string, chunks: map<string, seq<byte>>, others: map<string, seq<byte>>)
    requires name in files
    ensures var f := files[name];
            files[name := f.(chunks := chunks)] == files[name := f.(chunks := others)] <==> chunks == others
  {
    var f := files[name];
    assert files[name := f.(chunks := chunks)][name].chunks == chunks;
    assert files[name := f.(chunks := others)][name].chunks == others;
  }

  /** The exact condition for every file, repeated chunks included: the download ends right if and only if it
      never blocks and, for each chunk, the piece it took for the last request of that chunk's hash is the chunk. */
  lemma EndsRightIffLastPiecesRight(S: ByteHash, files: FileTable, name: string, data: seq<byte>, from: string,
                                    first: seq<Reply>, batches: nat -> seq<Reply>, strings: set<seq<byte>>)
    requires name !in files && Exchange(S, name, data, first, batches, strings)
    ensures var cs := Chunks(data);
            var taken := Taken(S, from, Pieces(S, name, data), RepliesTo(first, batches, |cs|), []);
            EndsRight(S, files, name, data, from, first, batches) <==>
              taken.Some? && LastPiecesRight(S, cs, taken.value[1..])
  {
    var f, cs := SharedFile(S, name, data), Chunks(data);
    var arrived := Passing(S, from, Hex(f.metaHash), first);
    MetafileArrives(S, files, name, data, from, first, batches, strings);
    TakenAfterMetafile(S, name, data, from, first, batches);
    if arrived != [] {
      EndsRightIffFetched(S, files, name, data, from, batches, arrived[1..], strings);
      FetchedIffLastPiecesRight(S, name, from, cs, SplitMetafile(f.metafile), FirstBatches(batches, |cs|), arrived[1..],
                                StoreData(files, name, Hex(f.metaHash), f.metafile));
    }
  }

  lemma TakenAfterMetafile(S: ByteHash, name: string, data: seq<byte>, from: string, first: seq<Reply>,
                           batches: nat -> seq<Reply>)
    ensures var cs := Chunks(data);
            var arrived := Passing(S, from, Hex(SharedFile(S, name, data).metaHash), first);
            var taken := Taken(S, from, Pieces(S, name, data), RepliesTo(first, batches, |cs|), []);
            && (arrived == [] ==> taken.None?)
            && (arrived != [] ==>
                 var later := Taken(S, from, cs, FirstBatches(batches, |cs|), arrived[1..]);
                 taken.Some? == later.Some? && (taken.Some? ==> taken.value[1..] == later.value))
  {
    var cs := Chunks(data);
    var ps, rs := Pieces(S, name, data), RepliesTo(first, batches, |cs|);
    assert ps[1..] == cs && rs[1..] == FirstBatches(batches, |cs|);
    var arrived := Passing(S, from, Hex(SharedFile(S, name, data).metaHash), first);
    assert [] + arrived == arrived;
  }

  lemma CompletedIsReceived(S: ByteHash, files: FileTable, name: string, data: seq<byte>)
    requires name !in files
    ensures var f := SharedFile(S, name, data); var stored := StoreData(files, name, Hex(f.metaHash), f.metafile);
            name in stored && stored[name := Completed(S, stored[name], Chunks(data))] == files[name := ReceivedFile(S, name, data)]
  {
    var f := SharedFile(S, name, data);
    HexRoundTrip(f.metaHash);
    EntryCompleted(S, name, data);
  }

  lemma EntryCompleted(S: ByteHash, name: string, data: seq<byte>)
    ensures var f := SharedFile(S, name, data);
            Completed(S, P2PFile(name, 0, f.metafile, f.metaHash, map[]), Chunks(data)) == ReceivedFile(S, name, data)
  {
    StoredIsChunkTable(S, Chunks(data));
  }

  // ------------------------------------------------------------------- the owner's side

  /** An entry keeps its metafile and chunks under their own hashes. */
  ghost predicate Hashed(S: ByteHash, f: P2PFile) {
    f.metaHash == S(f.metafile) && forall h :: h in f.chunks ==> h == Hex(S(f.chunks[h]))
  }

  lemma {:induction false} ChunkTableHashed(S: ByteHash, cs: seq<seq<byte>>)
    ensures forall h :: h in ChunkTable(S, cs) ==> h == Hex(S(ChunkTable(S, cs)[h]))
  {
    if cs != [] {
      ChunkTableHashed(S, cs[..|cs| - 1]);
    }
  }

  /** A node that shares a file answers every request about it with bytes of the hash asked for, which therefore pass
      the asker's check, and leaves unanswered exactly the requests for other hashes. */
  lemma ServedBytesMatch(S: ByteHash, owner: FileTable, name: string, data: seq<byte>, hash: string)
    ensures var f := SharedFile(S, name, data); var answer := GetData(owner[name := f], name, hash);
            && Hashed(S, f)
            && (answer.Some? ==> Hex(S(answer.value)) == hash)
            && (answer.None? <==> hash != Hex(f.metaHash) && hash !in f.chunks)
  {
    ChunkTableHashed(S, Chunks(data));
  }

  /** The owner answers each of those requests with the bytes asked for, so its replies pass. */
  lemma OwnerServesEveryHash(S: ByteHash, files: FileTable, name: string, data: seq<byte>, strings: set<seq<byte>>,
                             i: nat)
    requires CollisionFreeBytes(S, strings) && AllWithin(Chunks(data), strings)
    requires SharedFile(S, name, data).metafile in strings && i < |Chunks(data)|
    ensures var f := SharedFile(S, name, data);
            && GetData(files[name := f], name, Hex(f.metaHash)) == Some(f.metafile)
            && GetData(files[name := f], name, Hex(S(Chunks(data)[i]))) == Some(Chunks(data)[i])
  {
    var f := SharedFile(S, name, data);
    ChunkTableLookup(S, Chunks(data), strings, i);
    if Hex(f.metaHash) == Hex(S(Chunks(data)[i])) {
      HexInjective(f.metaHash, S(Chunks(data)[i]));
    }
  }

  /** What the owner at `from` sends back for one request. */
  function Answer(owner: FileTable, name: string, hash: string, from: string): seq<Reply> {
    match GetData(owner, name, hash)
    case None => []
    case Some(data) => [Reply(from, data)]
  }

  lemma OwnReplyPasses(S: ByteHash, from: string, c: seq<byte>)
    ensures Passing(S, from, Hex(S(c)), [Reply(from, c)]) == [c]
  {
    var r := Reply(from, c);
    assert [r][..0] == [] && |Hex(S(c))| == 64;
    assert Passing(S, from, Hex(S(c)), [r]) == [] + [c];
  }

  lemma AnswersAccepted(S: ByteHash, owner: FileTable, name: string, data: seq<byte>, from: string,
                        batches: seq<seq<Reply>>, strings: set<seq<byte>>)
    requires CollisionFreeBytes(S, strings) && AllWithin(Chunks(data), strings)
    requires SharedFile(S, name, data).metafile in strings && |batches| == |Chunks(data)|
    requires forall i :: 0 <= i < |batches| ==>
      batches[i] == Answer(owner[name := SharedFile(S, name, data)], name, Hex(S(Chunks(data)[i])), from)
    ensures OneEachThenSome(S, from, Chunks(data), batches) && AllDataWithin(batches, strings)
  {
    var cs := Chunks(data);
    forall i | 0 <= i < |cs|
      ensures DataWithin(batches[i], strings) && AcceptedFor(S, from, cs[i], batches[i]) == 1
    {
      AnswerAccepted(S, owner, name, data, from, strings, i);
    }
  }

  lemma AnswerAccepted(S: ByteHash, owner: FileTable, name: string, data: seq<byte>, from: string,
                       strings: set<seq<byte>>, i: nat)
    requires CollisionFreeBytes(S, strings) && AllWithin(Chunks(data), strings)
    requires SharedFile(S, name, data).metafile in strings && i < |Chunks(data)|
    ensures var c := Chunks(data)[i];
            var batch := Answer(owner[name := SharedFile(S, name, data)], name, Hex(S(c)), from);
            DataWithin(batch, strings) && AcceptedFor(S, from, c, batch) == 1
  {
    OwnerServesEveryHash(S, owner, name, data, strings, i);
    OwnReplyPasses(S, from, Chunks(data)[i]);
  }

  function Answers(owner: FileTable, name: string, hashes: seq<string>, from: string): nat -> seq<Reply> {
    (i: nat) => if i < |hashes| then Answer(owner, name, hashes[i], from) else []
  }

  lemma ServedMetafile(S: ByteHash, owner: FileTable, name: string, data: seq<byte>, from: string)
    ensures var f := SharedFile(S, name, data);
            var answer := Answer(owner[name := f], name, Hex(f.metaHash), from);
            answer == [Reply(from, f.metafile)] && |Passing(S, from, Hex(f.metaHash), answer)| == 1
  {
    OwnReplyPasses(S, from, SharedFile(S, name, data).metafile);
  }

  lemma ServedChunks(S: ByteHash, owner: FileTable, name: string, data: seq<byte>, from: string,
                     strings: set<seq<byte>>)
    requires CollisionFreeBytes(S, strings) && AllWithin(Chunks(data), strings)
    requires SharedFile(S, name, data).metafile in strings
    ensures var f := SharedFile(S, name, data);
            var batches := FirstBatches(Answers(owner[name := f], name, SplitMetafile(f.metafile), from), |Chunks(data)|);
            OneEachThenSome(S, from, Chunks(data), batches) && AllDataWithin(batches, strings)
  {
    var f, cs := SharedFile(S, name, data), Chunks(data);
    SplitMetafileOf(S, cs);
    var batches := Answers(owner[name := f], name, SplitMetafile(f.metafile), from);
    AnswersAccepted(S, owner, name, data, from, FirstBatches(batches, |cs|), strings);
  }

  lemma ServedExchange(S: ByteHash, owner: FileTable, name: string, data: seq<byte>, from: string, first: seq<Reply>,
                       batches: nat -> seq<Reply>, strings: set<seq<byte>>)
    requires CollisionFreeBytes(S, strings) && AllWithin(Chunks(data), strings)
    requires SharedFile(S, name, data).metafile in strings
    requires var f := SharedFile(S, name, data); var sharer := owner[name := f];
             && first == Answer(sharer, name, Hex(f.metaHash), from)
             && batches == Answers(sharer, name, SplitMetafile(f.metafile), from)
    ensures Exchange(S, name, data, first, batches, strings)
    ensures OneEachThenSome(S, from, Pieces(S, name, data), RepliesTo(first, batches, |Chunks(data)|))
  {
    ServedMetafile(S, owner, name, data, from);
    ServedChunks(S, owner, name, data, from, strings);
    PiecesAccepted(S, name, data, from, first, batches);
  }

  /** From owner to receiver: answered by a node that shares the file, and by nobody else, the download
      completes and leaves the receiver with the owner's bytes, metafile and chunks. */
  lemma ServedDownload(S: ByteHash, owner: FileTable, files: FileTable, name: string, data: seq<byte>, from: string,
                       strings: set<seq<byte>>)
    requires name !in files
    requires CollisionFreeBytes(S, strings) && AllWithin(Chunks(data), strings)
    requires SharedFile(S, name, data).metafile in strings
    ensures var f := SharedFile(S, name, data);
            var sharer := owner[name := f];
            EndsRight(S, files, name, data, from, Answer(sharer, name, Hex(f.metaHash), from),
                      Answers(sharer, name, SplitMetafile(f.metafile), from))
  {
    var f := SharedFile(S, name, data);
    var sharer := owner[name := f];
    var first, batches := Answer(sharer, name, Hex(f.metaHash), from), Answers(sharer, name, SplitMetafile(f.metafile), from);
    ServedExchange(S, owner, name, data, from, first, batches, strings);
    DownloadRoundTrip(S, files, name, data, from, first, batches, strings);
  }

  /** A failing input: if the metafile's reply is accepted twice, a one-chunk file of other than 32 bytes is
      reported complete with the metafile written in its place. */
  lemma SecondCopyCorrupts(S: ByteHash, files: FileTable, name: string, data: seq<byte>, from: string,
                           batches: nat -> seq<Reply>)
    requires name !in files && 0 < |data| <= CHUNK_SIZE && |data| != 32
    ensures var f := SharedFile(S, name, data); var reply := Reply(from, f.metafile);
            match DownloadFile(S, files, name, f.metaHash, from, [reply, reply], batches)
            case Complete(_, written) => written == f.metafile != data
            case _ => false
  {
    var f := SharedFile(S, name, data);
    var m, reply := f.metafile, Reply(from, f.metafile);
    var cs := Chunks(data);
    assert cs == [data] && cs[..0] == [];
    SplitMetafileOf(S, cs);
    var h := Hex(S(data));
    var hashes := SplitMetafile(m);
    assert hashes == [h];
    assert |Hex(f.metaHash)| == 64;
    PassingTwice(S, from, Hex(f.metaHash), reply);
    var stored := StoreData(files, name, Hex(f.metaHash), m);
    var batch := FirstBatches(batches, 1)[0];
    var arrived := [m] + Passing(S, from, h, batch);
    assert arrived[0] == m;
    var t := StoreData(stored, name, h, m);
    assert FetchAll(S, name, from, hashes, FirstBatches(batches, 1), [m], stored) == Some(t);
    assert hashes[..0] == [];
    assert Assemble(t[name].chunks, hashes) == [] + m;
  }

  lemma PassingTwice(S: ByteHash, from: string, hash: string, r: Reply)
    requires r.origin == from && hash != "" && hash == Hex(S(r.data))
    ensures Passing(S, from, hash, [r, r]) == [r.data, r.data]
  {
    assert [r, r][..1] == [r] && [r][..0] == [];
    assert Passing(S, from, hash, [r]) == [] + [r.data];
  }

  // --------------------------------------------------------------------- class

  lemma SplitMetafileStep(m: seq<byte>, i: nat)
    requires i % 32 == 0 && i + 32 <= |m|
    ensures SplitMetafile(m[..i + 32]) == SplitMetafile(m[..i]) + [Hex(m[i..i + 32])]
  {
    assert m[..i + 32][..i] == m[..i] && m[..i + 32][i..] == m[i..i + 32];
  }

  lemma WholeHashes(n: nat, i: nat)
    requires i % 32 == 0 && i < n
    ensures (i + 32) % 32 == 0
    ensures i + 32 > n ==> n % 32 != 0
  {
  }

  /** None: slicing past the end of a metafile whose length is not a multiple of 32 panics. */
  method SplitMetafileInto(m: seq<byte>) returns (res: Option<seq<string>>)
    ensures res.None? <==> |m| % 32 != 0
    ensures res.Some? ==> res.value == SplitMetafile(m)
  {
    var hashes := [];
    var i := 0;
    while i < |m|
      invariant 0 <= i <= |m| && i % 32 == 0
      invariant hashes == SplitMetafile(m[..i])
    {
      WholeHashes(|m|, i);
      if i + 32 > |m| {
        return None;
      }
      SplitMetafileStep(m, i);
      hashes := hashes + [Hex(m[i..i + 32])];
      i := i + 32;
    }
    assert m[..i] == m;
    return Some(hashes);
  }

  /** The bytes storeFile writes, or None if splitting the metafile panics. */
  method StoreFile(f: P2PFile) returns (res: Option<seq<byte>>)
    ensures res.None? <==> |f.metafile| % 32 != 0
    ensures res.Some? ==> res.value == Assemble(f.chunks, SplitMetafile(f.metafile))
  {
    var split := SplitMetafileInto(f.metafile);
    if split.None? {
      return None;
    }
    var hashes := split.value;
    var data := [];
    var i := 0;
    while i < |hashes|
      invariant 0 <= i <= |hashes|
      invariant data == Assemble(f.chunks, hashes[..i])
    {
      assert hashes[..i + 1][..i] == hashes[..i];
      data := data + if hashes[i] in f.chunks then f.chunks[hashes[i]] else [];
      i := i + 1;
    }
    assert hashes[..i] == hashes;
    return Some(data);
  }

  lemma PassingStep(S: ByteHash, from: string, hash: string, batch: seq<Reply>, k: nat)
    requires k < |batch|
    ensures Passing(S, from, hash, batch[..k + 1]) == Passing(S, from, hash, batch[..k]) +
            if batch[k].origin == from && hash != "" && hash == Hex(S(batch[k].data)) then [batch[k].data] else []
  {
    assert batch[..k + 1][..k] == batch[..k];
  }

  /** The entry f describes the file, or its first 2,000,000 bytes: it has their number as size, its metafile hashes to
      the metahash, and its chunks, in the order of the metafile, are those bytes. */
  ghost predicate Registers(S: ByteHash, f: P2PFile, name: string, contents: seq<byte>) {
    var read := contents[..if |contents| <= 2_000_000 then |contents| else 2_000_000];
    && f.fileName == name && f.size == |read| && f.metaHash == S(f.metafile) && |f.metafile| % 32 == 0
    && forall strings: set<seq<byte>> :: CollisionFreeBytes(S, strings) && AllWithin(Chunks(read), strings) ==>
         Assemble(f.chunks, SplitMetafile(f.metafile)) == read
  }

  /** Sharing a file registers it. */
  lemma EntryRegisters(S: ByteHash, name: string, contents: seq<byte>)
    ensures Registers(S, SharedFile(S, name, ReadOf(contents)), name, contents)
  {
    var read := contents[..if |contents| <= 2_000_000 then |contents| else 2_000_000];
    assert read == ReadOf(contents);
    forall strings: set<seq<byte>> | CollisionFreeBytes(S, strings) && AllWithin(Chunks(read), strings)
      ensures Assemble(SharedFile(S, name, read).chunks, SplitMetafile(SharedFile(S, name, read).metafile)) == read
    {
      RebuiltFile(S, name, read, strings);
    }
  }

  /** From one disk to another: what the receiver writes is the file the owner shared, if it has at most 2,000,000
      bytes, and those bytes of a longer one. */
  lemma SharedFileArrives(S: ByteHash, owner: FileTable, files: FileTable, name: string, contents: seq<byte>,
                          from: string, strings: set<seq<byte>>)
    requires name !in files && CollisionFreeBytes(S, strings)
    requires AllWithin(Chunks(ReadOf(contents)), strings) && SharedFile(S, name, ReadOf(contents)).metafile in strings
    ensures var f := SharedFile(S, name, ReadOf(contents));
            var sharer := owner[name := f];
            var end := DownloadFile(S, files, name, f.metaHash, from, Answer(sharer, name, Hex(f.metaHash), from),
                                    Answers(sharer, name, SplitMetafile(f.metafile), from));
            && Registers(S, f, name, contents) && end.Complete?
            && end.written == contents[..if |contents| <= 2_000_000 then |contents| else 2_000_000]
  {
    EntryRegisters(S, name, contents);
    ServedDownload(S, owner, files, name, ReadOf(contents), from, strings);
  }

  /** What is awaited from a peer: the hash asked for, and the channel of the download that asked. */
  datatype Pending = Pending(hash: string, channel: nat)

  /** Downloads run one after the other, each with a channel of its own. Entries of peers asked before stay, and go
      on delivering to the channels of the downloads that made them. */
  class FileNode {
    var files: FileTable
    var pendings: map<string, Pending>
    var channels: seq<seq<seq<byte>>>

    ghost predicate Valid()
      reads this
    {
      forall p :: p in pendings ==> pendings[p].channel < |channels|
    }

    /** A channel of the download that is running, which asks nobody but `from`. */
    ghost predicate Own(channel: nat, from: string)
      reads this
    {
      Valid() && channel < |channels| && forall p :: p in pendings && p != from ==> pendings[p].channel != channel
    }

    constructor ()
      ensures Valid() && files == map[] && pendings == map[] && channels == []
    {
      files, pendings, channels := map[], map[], [];
    }

    /** False: reading an empty file fails and the process exits. */
    method AddFile(S: ByteHash, name: string, contents: seq<byte>) returns (ok: bool)
      modifies this`files
      ensures ok <==> contents != []
      ensures files == if ok then old(files)[name := SharedFile(S, name, ReadOf(contents))] else old(files)
      // whatever the entry looks like, the file can be put together from it
      ensures ok ==> name in files && Registers(S, files[name], name, contents)
    {
      EntryRegisters(S, name, contents);
      if contents == [] {
        return false;
      }
      var data := ReadOf(contents);
      var metafile, chunks := SplitIntoChunks(S, data);
      files := files[name := P2PFile(name, |data|, metafile, S(metafile), chunks)];
      return true;
    }

    method SplitIntoChunks(S: ByteHash, data: seq<byte>) returns (metafile: seq<byte>, chunks: map<string, seq<byte>>)
      ensures metafile == MetafileOf(S, Chunks(data)) && chunks == ChunkTable(S, Chunks(data))
    {
      var count := |data|;
      metafile, chunks := [], map[];
      var i := 0;
      assert data[..0] == [];
      while i < count
        invariant i % CHUNK_SIZE == 0 && SharedUpTo(S, data, i, metafile, chunks)
      {
        var end := i + CHUNK_SIZE;
        if end > count {
          end := count;
        }
        var chunk := data[i..end];
        var h := S(chunk);
        SharedStep(S, data, i, metafile, chunks);
        NextMultiple(i);
        metafile := metafile + h;
        chunks := chunks[Hex(h) := chunk];
        i := i + CHUNK_SIZE;
      }
      assert data[..count] == data;
    }

    method Serve(name: string, hash: string) returns (data: Option<seq<byte>>)
      ensures data == GetData(files, name, hash)
    {
      if name in files {
        if Hex(files[name].metaHash) == hash {
          return Some(files[name].metafile);
        } else if hash in files[name].chunks {
          return Some(files[name].chunks[hash]);
        }
      }
      return None;
    }

    method Store(name: string, hash: string, data: seq<byte>)
      modifies this`files
      ensures files == StoreData(old(files), name, hash, data)
    {
      if name in files {
        var copy := files[name];
        files := files[name := files[name].(chunks := copy.chunks[hash := data])];
        copy := copy.(size := copy.size + |data|);
      } else {
        files := files[name := P2PFile(name, 0, data, FromHex(hash), map[])];
      }
    }

    method HandleDataReply(S: ByteHash, r: Reply)
      requires Valid()
      modifies this`channels
      ensures Valid() && |channels| == |old(channels)|
      ensures var passes := r.origin in pendings && pendings[r.origin].hash != "" &&
              pendings[r.origin].hash == Hex(S(r.data));
              channels == if passes then
                            var c := pendings[r.origin].channel; old(channels)[c := old(channels)[c] + [r.data]]
                          else old(channels)
    {
      var waitingHash := if r.origin in pendings then pendings[r.origin].hash else "";
      if waitingHash != "" {
        var hashesMatch := waitingHash == Hex(S(r.data));
        if hashesMatch {
          var c := pendings[r.origin].channel;
          channels := channels[c := channels[c] + [r.data]];
        }
      }
    }

    /** Sends one request and lets a batch of replies arrive. */
    method Request(S: ByteHash, from: string, hash: string, channel: nat, batch: seq<Reply>)
      requires Own(channel, from)
      modifies this`pendings, this`channels
      ensures Own(channel, from) && pendings == old(pendings)[from := Pending(hash, channel)]
      ensures |channels| == |old(channels)| &&
              channels[channel] == old(channels)[channel] + Passing(S, from, hash, batch)
    {
      pendings := pendings[from := Pending(hash, channel)];
      var k := 0;
      while k < |batch|
        invariant 0 <= k <= |batch| && pendings == old(pendings)[from := Pending(hash, channel)]
        invariant Own(channel, from) && |channels| == |old(channels)|
        invariant channels[channel] == old(channels)[channel] + Passing(S, from, hash, batch[..k])
      {
        PassingStep(S, from, hash, batch, k);
        HandleDataReply(S, batch[k]);
        k := k + 1;
      }
      assert batch[..k] == batch;
    }

    /** Takes the next piece from a channel, if there is one. */
    method Receive(channel: nat) returns (piece: Option<seq<byte>>)
      requires Valid() && channel < |channels|
      modifies this`channels
      ensures Valid() && |channels| == |old(channels)|
      ensures piece.None? <==> old(channels)[channel] == []
      ensures piece.Some? ==> piece.value == old(channels)[channel][0]
      ensures piece.Some? ==> channels[channel] == old(channels)[channel][1..]
    {
      if channels[channel] == [] {
        return None;
      }
      piece := Some(channels[channel][0]);
      channels := channels[channel := channels[channel][1..]];
    }

    /** Requests the listed hashes one after the other; false while blocked on the empty channel. */
    method FetchChunks(S: ByteHash, name: string, from: string, hashes: seq<string>, channel: nat,
                       batches: seq<seq<Reply>>)
      returns (ok: bool)
      requires |batches| == |hashes| && Own(channel, from)
      modifies this
      ensures Own(channel, from)
      ensures ok <==> FetchAll(S, name, from, hashes, batches, old(channels)[channel], old(files)).Some?
      ensures ok ==> files == FetchAll(S, name, from, hashes, batches, old(channels)[channel], old(files)).value
    {
      var k := 0;
      while k < |hashes|
        invariant 0 <= k <= |hashes| && Own(channel, from)
        invariant FetchAll(S, name, from, hashes[k..], batches[k..], channels[channel], files) ==
                  FetchAll(S, name, from, hashes, batches, old(channels)[channel], old(files))
      {
        assert hashes[k..][1..] == hashes[k + 1..] && batches[k..][1..] == batches[k + 1..];
        Request(S, from, hashes[k], channel, batches[k]);
        var chunk := Receive(channel);
        if chunk.None? {
          return false;
        }
        Store(name, hashes[k], chunk.value);
        k := k + 1;
      }
      return true;
    }

    /** routed: whether a next hop for `from` is known. Without one no request is sent, nor sent again. */
    method Download(S: ByteHash, name: string, metahash: seq<byte>, from: string, routed: bool,
                    first: seq<Reply>, batches: nat -> seq<Reply>) returns (end: Download)
      requires Valid()
      modifies this
      ensures Valid()
      ensures end == if routed then DownloadFile(S, old(files), name, metahash, from, first, batches) else Blocked
      ensures end.Complete? ==> files == end.files
    {
      var channel := |channels|;
      channels := channels + [[]];
      if !routed {
        return Blocked;
      }
      Request(S, from, Hex(metahash), channel, first);
      var arrived := channels[channel];
      assert arrived == Passing(S, from, Hex(metahash), first);
      var metafile := Receive(channel);
      if metafile.None? {
        return Blocked;
      }
      Store(name, Hex(metahash), metafile.value);
      var hashes := SplitMetafileInto(metafile.value);
      if hashes.None? {
        return Panicked;
      }
      end := FetchAndWrite(S, name, from, hashes.value, channel, batches);
    }

    method FetchAndWrite(S: ByteHash, name: string, from: string, hashes: seq<string>, channel: nat,
                         batches: nat -> seq<Reply>)
      returns (end: Download)
      requires Own(channel, from)
      modifies this
      ensures Valid()
      ensures end == DownloadChunks(S, old(files), name, hashes, from, batches, old(channels)[channel])
      ensures end.Complete? ==> files == end.files
    {
      var fetched := FetchChunks(S, name, from, hashes, channel, FirstBatches(batches, |hashes|));
      if !fetched {
        return Blocked;
      }
      if name !in files {
        return Panicked;
      }
      var written := StoreFile(files[name]);
      if written.None? {
        return Panicked;
      }
      return Complete(files, written.value);
    }
  }
}
