# Proofs about a gossip node with proof-of-work identities

The program modelled here is a peer-to-peer node written in Go. Nodes exchange rumors, search for files and
download them in chunks; to take part, a node must own an identity block, mined on a small chain that its
neighbours keep. This project models the three state machines behind that and proves what they keep over whole
runs. `dafny verify dfyconfig.toml` verifies all of it.

**The identity chain and the join protocol.** A chain is a table from ids to blocks, an order list and a last
block. A joined node proposes (next free id, time, hash of its last block); a joiner mines a block with those
fields; whoever accepts the block appends it and broadcasts it. `BlockChain.dfy` and `PuzzlesState.dfy` hold the
two classes with their methods, each tied to a value-level specification; `History.dfy`, `Recycling.dfy` and
`Pruning.dfy` prove what a sequence of accepted blocks makes of a chain; `JoinNetwork.dfy`, `HonestRuns.dfy`,
`Joining.dfy`, `Lockout.dfy`, `Membership.dfy`, `IdentityCost.dfy`, `Flooding.dfy` and `FloodReach.dfy` prove
properties of networks of such nodes.
`Blocks.dfy` and `ProofOfWork.dfy` are about encoding, validity and mining of single blocks.

**Rumors, routes and status exchange.** `Gossip.dfy` holds the class; `VectorClocks.dfy`, `AntiEntropy.dfy` and
`Routing.dfy` prove soundness and comparison of clocks, convergence of two nodes, and that routes come about and
never loop.

**Search and files.** `SearchFlood.dfy` and `SearchCost.dfy` treat the budgeted flood, `Files.dfy` chunking,
hash-checked fetching and rebuilding.

## How to read it

- A class method is proved against a function of the old state (`Append`, `OnResponse`, `OnRumor`, `StoreData`,
  ...); the lemmas are about those functions, about folds of them over event sequences, and about networks whose
  steps are those functions.
- A network keeps every message ever sent. A message may therefore be lost, delayed, reordered or delivered any
  number of times. The `history` fields of the join network and the `adopted` field of the routing network record
  facts for the proofs; no node reads them.
- Hashing is a parameter. No hash into 32 bytes is injective on all inputs, so freedom from collisions is a
  hypothesis only about the finitely many blocks (or byte strings) of the run at hand.
- Time is an integer in nanoseconds that never decreases; a handler reads the clock once.
- Where the Go code panics, the model says so in the result (`Panicked`, `Panic`, `NilBlock`, `None`, ...).
- An honest run is one without forged messages in which mining returns nothing or a solution.

## Where the code differs from its description

- `checkIntegrity` (code/blockchain.go:213-229) assigns `prevHash` only under a guard that needs it assigned
  already, so its link test never runs. `CheckIntegrity` is the check as coded, `IntendedIntegrity` the one meant;
  `CodedCheckIgnoresLinks` separates them.
- `sendBlockChain` (code/puzzleshandler.go:105-109) sends the full chain; report.tex:93 says the chain without
  expired blocks. As coded, a join succeeds iff no table entry has expired
  (`SnapshotAdoptedIffNothingExpired`); as described it would always succeed (`PrunedSnapshotAlwaysAdopted`).
  The difference matters: `SolverPanics` is an honest history in which a joiner panics on the chain it is sent.
- Nothing compares a block's Timestamp with the clock, except to see whether it is too old (code/blockchain.go:75-117).
  A block stamped in the future is accepted and keeps its id admitted for longer than 360 s, so the work of
  report.tex:87 is not paid for it (`FutureStampPaysOnce`). The exact condition is `ServesTwiceIffStampedInFuture`;
  `AdmissionCostsWork` is the bound that does hold whatever is forged.
- An outstanding proposal is forgotten only when a solution from its address is accepted
  (code/puzzleshandler.go:73-92, 135-142), which happens exactly under the condition of `ReleasedIffSolvedOnLast`.
  After 360 s that is impossible, and the address is locked out for ever (`ExpiredStaysOutstanding`,
  `SilentJoinerIsLockedOut`). The block's previous hash is compared with the last block but never with the proposal,
  so an overtaken joiner can get in within the 360 s, but only by mining the old id and timestamp on the new last
  block.
- After its membership has expired a node adopts any snapshot that arrives, also an old one, and may then accept a
  second block with a previous hash it has accepted before (`AdoptionAllowsSameStamp`).
- The direct-route tie-break of `updateRoutingTable` (code/helper.go:393) cannot apply, because the last address
  has been overwritten before (code/gossiper.go:121-123); see `OnRumorRoutes`.
- A rumor with an empty text counts as a routing message wherever it comes from, so such a client message never
  reaches another node's store (`ReconcilableIffNoEmptyText`).
- A data reply that passes the hash check does not clear the pending entry, so a second copy is taken for the next
  chunk; `DownloadEndsRightIff` says exactly which downloads that spoils, `SecondCopyCorrupts` shows one.
- `storeData` adds a chunk's length to the Size of a struct copy and never writes the copy back
  (code/filehandler.go:265-268), so a downloaded entry keeps Size 0 (`DownloadedSizeIsZero`) and equals the owner's
  only for an empty file (`EntryIsOwnersIffEmpty`).
- report.tex:93 holds of honest chains. With forged blocks the pruned chain may fail the intended check
  (`OlderStampBreaksPruned`); `PrunedPassesIff` says exactly when it passes.
- Two searches whose keywords differ but join to one string, because of a comma, count as one (`CommaConfuses`).
- A search with budget 0 never ends (`SearchEndsIffBudgeted`), and one with budget but no peer divides by
  zero (`SplitBudget`).

## Model

| member | source | states |
|---|---|---|
| `ProofOfWork.LeadingZeroBits` | code/blockchain.go:91-97 | The first r characters of the "%08b" rendering of a byte are zeros exactly when the byte is below 2^(8-r) |
| `ProofOfWork.MeetsDifficulty` | code/blockchain.go:84-98 | For every difficulty 1..256 the byte loop plus the bit loop is a threshold test: a digest passes iff its big-endian value is below 2^(256-difficulty) |
| `Blocks.CheckValid` | code/blockchain.go:80-99 | A block is valid iff it has not expired and its digest is below 2^(256-23) |
| `Blocks.MineBlock` | code/blockchain.go:231-252 | A block mined has the id, time, key and previous hash asked for and an 8-byte nonce, below the number of attempts, that is the least one giving proof of work; none is returned iff no nonce below that number gives a block valid when it is tried |
| `Blocks.ParseInvertsGetBytes` | code/blockchain.go:50-67 | Round trip: an encodable block is read back from its bytes once the length of its previous hash is known, in spite of the unmarked variable-length modulus |
| `Blocks.SameBytes` | code/blockchain.go:50-67 | Two encodable blocks with the same bytes are equal iff their previous hashes have one length, iff their moduli have |
| `Blocks.AmbiguousWithoutHashLength` | code/blockchain.go:56-67 | That condition is needed: two different encodable blocks with identical bytes |
| `Blocks.CollisionFreedomLifts` | code/blockchain.go:69-73 | A byte hash without collisions on the encodings of a set of blocks with moduli of one length separates the blocks themselves |
| `BlockChains.BlockChain.InitGenesis` | code/blockchain.go:152-164 | Mining is retried until it returns a block, and the chain becomes the one-block chain of the first block it returns |
| `BlockChains.BlockChain.AddBlock` | code/blockchain.go:101-117 | Accepted iff valid and naming the last hash; then the block replaces the older one of its id, its id moves to the end and it is the last block; otherwise nothing changes; a valid block on a nil table panics; well-formedness is kept |
| `BlockChains.BlockChain.AddNodeIDToList` | code/blockchain.go:119-127 | The order list without the id, the id at its end |
| `BlockChains.BlockChain.HasValidNodeID` | code/blockchain.go:129-138 | True iff the id has a table entry that is still valid, also on the nil table |
| `BlockChains.BlockChain.FindNextNodeID` | code/blockchain.go:166-179 | The least positive id that is absent or whose block is no longer valid; the unbounded loop terminates |
| `BlockChains.LeastFreeIsNext` | code/blockchain.go:166-179 | Any positive id that is free and has only ids in use below it is the one given out |
| `BlockChains.AppendKeepsWellFormed` | code/blockchain.go:101-127 | Accepting a block keeps table and order list naming the same ids, each once, each block under its own id |
| `BlockChains.BlockChain.NonExpiredBlockChain` | code/blockchain.go:190-211 | Returns the chain cut at the first unexpired listed block, in a fresh object, and panics iff every listed block has expired |
| `BlockChains.BlockChain.IntegrityCheck` | code/blockchain.go:213-229 | What the check as coded decides: every listed block present and valid, nothing about links; a listed id without block panics |
| `BlockChains.CheckEndsAtFirstBad` | code/blockchain.go:215-220 | The check stops at the first bad id: false if its block is not valid, a panic if it has none |
| `BlockChains.CodedCheckIgnoresLinks` | code/blockchain.go:214-226 | For every hash and every two valid blocks of different ids: the coded check accepts the chain of the two, the intended one only if the second names the first |
| `Histories.ChainOfIsLastWriterWins` | code/blockchain.go:101-127 | Table, order list and last block are the last-writer-wins view of the accepted blocks: each id maps to its latest block, ids are listed by the age of that block |
| `Histories.LastWriterWinsIsUnique` | code/blockchain.go:101-127 | The accepted history leaves no freedom: only one chain is such a view of it |
| `Histories.LastHashDeterminesHistory` | code/blockchain.go:101-117 | Two linked histories whose last blocks hash alike are equal, across different genesis blocks, by the 44-byte genesis value |
| `Histories.HashesNeverRecur` | code/blockchain.go:101-117 | Within one history all hashes, all blocks and all previous hashes are pairwise distinct |
| `Histories.SharedBlockSharedPrefix` | code/blockchain.go:101-117 | One block in common means everything before it in common, at the same position |
| `Histories.ForksShareNoLaterBlock` | code/blockchain.go:101-117 | Histories neither of which extends the other never gain a common block however they grow |
| `Recycling.SupersededHadExpired` | code/blockchain.go:166-179 | In an honest history a block whose id is given out again had expired by then |
| `Recycling.OrderIsByTimestamp` | code/blockchain.go:119-127 | In an honest history the order list is sorted by timestamp |
| `Recycling.TableIDs` | code/blockchain.go:166-179 | The ids of an honest table are exactly 1..m, m the highest ever given out |
| `Recycling.CoveringFits` | code/blockchain.go:166-179 | No instant lies in the validity windows of more accepted blocks than there are ids |
| `Recycling.PeakIsReached` | code/blockchain.go:166-179 | The instant at which an id was given out lies in the windows of at least that many blocks |
| `Recycling.IdsEqualPeakOverlap` | code/blockchain.go:166-179 | Optimal interval colouring: the ids are 1..m with m the maximum over all instants of the number of accepted blocks valid at that instant |
| `Recycling.NoAssignmentUsesFewerIds` | code/blockchain.go:166-179 | Any assignment of ids that never gives two simultaneously valid blocks one id uses at least as many ids |
| `Pruning.LiveSuffix` | code/blockchain.go:190-205 | From the first unexpired block on, an honest history has no expired block and no id twice |
| `Pruning.OrderSplits` | code/blockchain.go:119-127 | Accepting blocks of distinct ids puts exactly those ids, in order, behind the other ids, whose order is unchanged |
| `Pruning.PrunedIsSuffix` | code/blockchain.go:190-211 | Pruning an honest chain gives the chain of exactly the contiguous history suffix that is unexpired, and panics iff the last block has expired |
| `Pruning.PrunedPassesIntegrity` | report.tex:93 | Removing expired blocks does not affect the integrity of an honest chain: pruned, it passes the intended check, links included |
| `Pruning.PrunedPassesIff` | report.tex:93 | The exact condition for every chain, forged blocks included: pruned, it passes the intended check iff from the first block kept on no block of the history has expired and no id repeats |
| `Pruning.OlderStampBreaksPruned` | code/blockchain.go:190-211 | A failing input: after a block stamped earlier than those before it has expired, the pruned chain fails the intended check |
| `Pruning.FullChainAcceptedIffNothingExpired` | code/blockchain.go:213-229 | The full chain passes the coded check iff no table entry at all has expired |
| `Pruning.PruneRefines` | code/blockchain.go:190-211 | The pruned table lacks only expired entries and keeps the last block |
| `Pruning.PruningIsUnobservable` | code/blockchain.go:190-211 | Refinement: for ever after, whatever blocks are offered and whatever is asked, the pruned and the full chain give the same next id, admission, last hash and acceptance answers |
| `PuzzlesStates.PuzzlesState.AddNewGossiper` | code/puzzleshandler.go:43-55 | A gossiper is appended only under an address not yet known |
| `PuzzlesStates.BlockReachesPeers` | code/puzzleshandler.go:94-103 | A block passed on is addressed to every listed peer except the one it came from, as often as it is listed, and to nobody else |
| `PuzzlesStates.PuzzlesState.BroadcastBlock` | code/puzzleshandler.go:94-103 | Sends the block to exactly those addresses |
| `PuzzlesStates.PuzzlesState.HandlePuzzleProposal` | code/puzzleshandler.go:57-71 | Only a node that has not joined reacts: it takes the proposed id and answers with what mining returned, which is a block of its own key that solves the proposal, or nothing if no nonce tried in time gives one |
| `PuzzlesStates.PuzzlesState.HandlePuzzleResponse` | code/puzzleshandler.go:73-92 | Whole effect on state, packets sent and the neighbour checks, including every refusal and both panics (no block mined, nil table); on acceptance every peer but the joiner gets the block, and the joiner the chain |
| `PuzzlesStates.PuzzlesState.WelcomeJoiner` | code/puzzleshandler.go:79-86 | On acceptance the proposal is forgotten, the joiner becomes a peer, address and id go to the neighbour checks, the block is broadcast and the full chain sent, in that order |
| `PuzzlesStates.PuzzlesState.SendBlockChain` | code/puzzleshandler.go:105-109 | Sends the full local chain (report.tex:93 describes the pruned one) |
| `PuzzlesStates.PuzzlesState.HandleBlockBroadcast` | code/puzzleshandler.go:126-133 | An accepted block is passed on to exactly the peers other than its sender, any other leads to no packet at all |
| `PuzzlesStates.PuzzlesState.HandleBlockChain` | code/puzzleshandler.go:111-124 | A node that has not joined adopts a chain that passes the coded check and panics on any other; a joined node ignores it |
| `PuzzlesStates.PuzzlesState.HandleJoining` | code/puzzleshandler.go:135-142 | A proposal is made only by a joined node with a chain and only if none is outstanding for the address |
| `PuzzlesStates.PuzzlesState.SendPuzzleProposal` | code/puzzleshandler.go:144-149 | The proposal records next id, time and last hash and is remembered as outstanding |
| `PuzzlesStates.PuzzlesState.HandleGossipPacket` | code/sybilresistance.go:13-55 | A packet is allowed iff its sender is active and its id is another node's with a valid block; its further effect is that of OnGossip, which Membership.GossipStep spells out |
| `PuzzlesStates.PuzzlesState.ExpireJoining` | code/puzzleshandler.go:163-173 | A tick of the expiration timer ends the membership and changes nothing else |
| `JoinNetwork.StepKeepsInvariant` | code/puzzleshandler.go:57-149 | Every step of the network (any loss, delay, duplication, forged proposals, responses and broadcasts) keeps each node's chain the view of a linked proof-of-work history, and each message sound |
| `JoinNetwork.RunKeepsInvariant` | code/puzzleshandler.go:57-149 | So does every run |
| `Membership.GossipStep` | code/sybilresistance.go:13-55 | The effect of a gossip packet on the whole network: none if it is admitted; one proposal of the next id on the last block, now outstanding, iff it is not and the node has joined, has a chain and has nothing outstanding for the sender |
| `Membership.AdmittedIsNeverProposedTo` | code/sybilresistance.go:13-55 | In every run in which each packet from an address is admitted when it arrives, nothing ever becomes outstanding for that address and no puzzle is ever sent to it |
| `Membership.JoinedKeepsId` | code/puzzleshandler.go:57-71 | Whatever it is sent, a node stays joined under the same id until its membership expires |
| `Membership.StepCrashesIff` | code/puzzleshandler.go:73-133 | A node crashes in a step iff an answer without a block, a valid block while it has no chain, or a failing snapshot while it has not joined arrives at it |
| `Membership.HandlePeers` | code/puzzleshandler.go:43-92 | A node never forgets a peer nor lists one twice, and gets a new one exactly from a proposal while not joined or from an accepted solution |
| `Membership.PacketsCarryOwnId` | code/puzzleshandler.go:151-161 | Every packet a node sends carries the id the node has after the step |
| `JoinNetwork.LastHashDeterminesNode` | code/puzzleshandler.go:111-133 | In every reachable state two nodes have equal last hashes iff they have equal histories, and then equal tables and order lists; with several genesis nodes and adoptions |
| `JoinNetwork.ProposalIsCompareAndSwap` | code/puzzleshandler.go:135-149 | In every later state and at every node, an answer to a proposal names the last hash iff the history is the one proposed on; then the table is unchanged and the proposed id is absent or expired |
| `JoinNetwork.AcceptancesShareStampIff` | code/puzzleshandler.go:73-133 | The exact statement for any two acceptances in a run, at one node or two, with anything in between: the blocks share a previous hash iff the nodes had the same history just before |
| `JoinNetwork.OneAcceptancePerStamp` | code/puzzleshandler.go:73-92 | Any two blocks a node accepts in the course of a run, with no adoption between the two acceptances, differ in previous hash and in hash: at most one answer per last hash |
| `JoinNetwork.AdoptionAllowsSameStamp` | code/puzzleshandler.go:111-124 | The exception is real: a node that adopts the same snapshot again after its membership expired accepts two blocks with one previous hash |
| `JoinNetwork.HistoryRepeatsNoStamp` | code/blockchain.go:101-117 | In every reachable state the blocks of the history behind a node's current chain have pairwise distinct previous hashes and hashes |
| `JoinNetwork.OvertakenNeverSucceeds` | code/puzzleshandler.go:73-92 | Once another block has been accepted, every block carrying an older proposal's previous hash is refused in all later states without an adoption |
| `JoinNetwork.ForksNeverMerge` | code/puzzleshandler.go:126-133 | Once two nodes' histories have diverged, no block is accepted by both afterwards without an adoption |
| `JoinNetwork.StampNeverRecurs` | code/blockchain.go:140-142 | Between adoptions a node's last hash at two moments is equal iff nothing was accepted in between |
| `Lockout.ReleasedIffSolvedOnLast` | code/puzzleshandler.go:73-80 | The exact condition under which a response frees its address: it is for this node and solves the outstanding id and timestamp on the current last block, within 360 s of the proposal; the proposal's own previous hash plays no part |
| `Lockout.StepReleasesIff` | code/puzzleshandler.go:73-92 | In every network state a step, forged or not, ends an outstanding proposal iff it brings such a response from that address |
| `Lockout.OutstandingIffNothingFrees` | code/puzzleshandler.go:73-142 | Over whole runs a proposal stays outstanding throughout iff no event brings such a response |
| `Lockout.ExpiredStaysOutstanding` | code/puzzleshandler.go:73-142 | Once older than 360 s a proposal stays outstanding in every continuation, whatever happens |
| `Lockout.LockedOutForEverIffExpired` | code/puzzleshandler.go:73-142 | With a solution on the last block at hand, a joiner is locked out in every continuation iff its proposal is older than 360 s, and then no continuation proposes to its address again |
| `Lockout.SilentJoinerIsLockedOut` | code/puzzleshandler.go:135-142 | A run from an initial state: a newcomer who sends one packet and then does not answer for 360 s never gets another proposal |
| `Lockout.OvertakenJoinerIsLockedOut` | code/puzzleshandler.go:73-92 | A joiner whose proposal was overtaken and who only ever answers that proposal frees nothing, at once and for as long as the host adopts no other chain |
| `HonestRuns.AcceptedSolution` | code/puzzleshandler.go:73-92 | A solution accepted anywhere extends exactly the history its proposal was made on |
| `HonestRuns.AcceptedBroadcast` | code/puzzleshandler.go:126-133 | A broadcast block accepted anywhere gives the receiver the broadcaster's history |
| `HonestRuns.StepKeepsHonest` | code/puzzleshandler.go:57-149 | Without forgery every step keeps every history honest: next ids, rising timestamps, proof of work, links |
| `HonestRuns.HonestRun` | code/puzzleshandler.go:57-149 | In every reachable state of an honest run every chain is the chain of an honest history |
| `HonestRuns.NodeIdsEqualPeakOverlap` | code/blockchain.go:166-179 | In every honest run each node's ids are exactly 1..m, m its peak number of simultaneously valid blocks |
| `HonestRuns.AnyNodeChainPrunesIff` | code/blockchain.go:190-229 | That condition for every node in every run, forging included |
| `HonestRuns.NodeChainPrunes` | code/blockchain.go:190-229 | In every honest run each node's pruned chain is the chain of a contiguous, linked, unexpired history suffix |
| `Joining.ResponseAcceptedIffFresh` | code/puzzleshandler.go:73-92 | An undisturbed solution is accepted iff it has not expired; accepting frees the address, refusing leaves the proposal outstanding |
| `Joining.SnapshotAdoptedIffNothingExpired` | code/puzzleshandler.go:105-124 | With the full chain sent, the join succeeds iff no table entry has expired; otherwise the joiner panics |
| `Joining.PrunedSnapshotAlwaysAdopted` | report.tex:93 | With the pruned chain sent as described, the join always succeeds while the joiner's own block is fresh, and the chain answers as the full one would |
| `Joining.SolverPanics` | code/puzzleshandler.go:105-124 | The failing case exists, for every hash: an honest history of three blocks in which the joiner that has just solved its puzzle panics on the chain it is sent |
| `Joining.UndisturbedJoin` | code/puzzleshandler.go:57-149 | One join as a run of network steps from any sound state, with any delays: the joiner ends joined iff nothing in the table has expired when the snapshot arrives, and its packets pass the host's admission test from then on exactly until its block expires |
| `Joining.JoinSendsSnapshot` | code/puzzleshandler.go:73-92 | If nothing has expired, the join reaches a state in which the snapshot of the extended history is on its way and may be adopted |
| `IdentityCost.IdentitiesCostWork` | report.tex:87 | N ids valid at each of k instants pairwise more than 360 s apart, on blocks not stamped later than those instants, need N*k distinct proof-of-work blocks |
| `IdentityCost.SightingObserved` | code/sybilresistance.go:13-14 | What passes admission promptly at any moment of any run is backed by the node's final history |
| `IdentityCost.AdmissionCostsWork` | report.tex:87 | The same over all runs, forging included and without any assumption on the hash: N ids passing at k such moments put at least N*k distinct proof-of-work blocks into the history, if no block behind a sighting is stamped later than the sighting |
| `IdentityCost.ServesTwiceIffStampedInFuture` | code/blockchain.go:75-117 | The exact condition: a table entry can serve at two instants more than 360 s apart in some continuation of the run iff it is stamped later than the clock reads, which acceptance does not check |
| `IdentityCost.FutureStampPaysOnce` | code/puzzleshandler.go:126-133 | A failing run: one forged broadcast stamped in the future passes at three instants pairwise more than 360 s apart with two proof-of-work blocks in the history |
| `IdentityCost.HonestAdmissionCostsWork` | report.tex:87 | In runs without forgery the bound holds outright |
| `Flooding.AcceptedIsNew` | code/puzzleshandler.go:126-133 | A node never accepts a block twice, so it rebroadcasts each block at most once |
| `Flooding.DeliverLowersMeasure` | code/puzzleshandler.go:94-133 | Each delivery strictly lowers fanout times missing node/block pairs plus messages in flight |
| `Flooding.FloodingTerminates` | code/puzzleshandler.go:94-133 | No schedule delivers more broadcasts than that measure initially |
| `Flooding.FloodingDrains` | code/puzzleshandler.go:94-133 | From every state some schedule delivers everything in flight |
| `FloodReach.FloodedBlockReachesAll` | code/puzzleshandler.go:94-133 | A flooded block gets everywhere: if all nodes had one history, once nothing is in flight and the block has not expired, every node on a path over peers from the first one, avoiding the address the block came from, has accepted it |
| `FloodReach.WelcomedBlockReachesAll` | code/puzzleshandler.go:73-133 | The same from a node that has just accepted a joiner's block and broadcast it |
| `Gossip.FindStatus` | code/helper.go:262-269 | The first position of an origin in a clock, or -1 when it is not listed |
| `Gossip.GossipState.UpdateVectorClock` | code/helper.go:246-260 | An unknown origin is appended, a known one advances only on its next id |
| `Gossip.GossipState.AddMsgSeen` | code/helper.go:271-277 | A message is stored once and never overwritten |
| `Gossip.GossipState.UpdateRoutingTable` | code/helper.go:383-401 | A route changes only to a later sequence number, or an equal one heard directly, and never for the node's own name |
| `Gossip.RouteChangesIff` | code/helper.go:383-401 | Exactly when that is, that the new hop is the sender, and that no other route changes |
| `Gossip.GossipState.ReceiveRumorFromPeer` | code/gossiper.go:119-146 | Whole effect on clock, store, routes, peers and awaited acknowledgements, and whether the sender gets a status: a text already stored changes nothing, anything else routes its origin iff its number is later; what is forwarded is the rumor with its sender as last hop |
| `Gossip.LastHopIsLearnt` | code/helper.go:418-428 | The peer list gains exactly the last hop, if it is new and not the node itself, and loses none |
| `Gossip.GossipState.ReceiveRumorFromClient` | code/gossiper.go:148-159 | The message gets the node's name and next number and is stored and counted |
| `Gossip.GossipState.CompareVectorClockWithOther` | code/helper.go:279-311 | Something is reported missing iff the other lists an origin not listed here or is ahead on an own entry before which there is nothing to send; a message is returned iff some own entry has one, and it is the one the other wants next of the first such entry |
| `VectorClocks.MissingReported` | code/helper.go:279-311 | Also when something is sent: an origin only the other lists is always reported, an entry on which it is ahead is unless something before it is sent, and nothing is reported unless the other is ahead on or alone in listing some origin |
| `Gossip.GossipState.ReceiveStatus` | code/gossiper.go:161-183 | What a status is answered with: an origin never heard of here is asked for whatever else is sent; the sender is no longer waited for unless mongering goes on with it |
| `VectorClocks.ClockAlwaysSound` | code/helper.go:246-277 | In every run and any delivery order origins are unique and NextID n implies messages 1..n-1 are stored |
| `VectorClocks.ClientMessagesAreNumbered` | code/gossiper.go:148-159 | A node's own messages are numbered 1, 2, 3, ... and stored under exactly those numbers |
| `VectorClocks.InSyncIffSameClock` | code/helper.go:279-311 | The comparison reports nothing missing on either side iff the clocks are equal as maps |
| `VectorClocks.MissingIsExactWhenNothingToSend` | code/helper.go:279-311 | With nothing to send, something is reported missing iff the other clock is ahead on some origin |
| `VectorClocks.ChosenIsStoredAndWanted` | code/helper.go:279-317 | A message chosen from an origin with NextID at least 2 is stored and the very one the other wants; only NextID 1 can yield the zero rumor |
| `VectorClocks.ExactIffInOrder` | code/helper.go:246-260 | An exact clock stays exact iff the accepted message is the next of its origin |
| `VectorClocks.OutOfOrderIsNotExact` | code/helper.go:246-260 | Delivery 1, 3, 2 leaves NextID at 3 although message 3 is stored |
| `AntiEntropy.AReactionEffect` | code/gossiper.go:161-183 | One reaction transfers exactly the next message of one origin and changes nothing else |
| `AntiEntropy.TransfersAreDistance` | code/gossiper.go:161-183 | Over every schedule of reactions the number of transfers is the drop in the sum of NextID differences |
| `AntiEntropy.ReactAllKeepsJoin` | code/gossiper.go:161-183 | Every schedule keeps the union of the stores and the pointwise maximum of the clocks |
| `AntiEntropy.QuietIsInSync` | code/gossiper.go:161-183 | Nothing left to send iff the distance is 0, and then clocks and stores are equal |
| `AntiEntropy.ConvergesToJoin` | code/gossiper.go:161-183 | From exact clocks, whatever the turns: at most the sum of NextID differences in transfers, exactly that many once quiet, and then both stores are the union and both clocks the maximum |
| `AntiEntropy.QuietReachable` | code/gossiper.go:161-183 | From every such pair some schedule reaches that state |
| `AntiEntropy.AlternatingReachesQuiet` | code/gossiper.go:161-198 | The fair schedule does: if the two simply take turns, as many rounds as the distance are enough |
| `AntiEntropy.ReconcilableIffNoEmptyText` | code/gossiper.go:119-127 | Two nodes can be brought together iff every message only one of them has carries a text: an empty one is taken for a routing message |
| `AntiEntropy.EmptyTextStrands` | code/gossiper.go:148-159 | A failing input from fresh nodes: a client message without a text never reaches the other node's store, whatever the turns |
| `Routing.OnRumorRoutes` | code/gossiper.go:119-146 | On receipt a route changes only to a strictly later sequence number: the last address is overwritten first, so the direct-route tie-break never applies |
| `Routing.StepKeepsInvariant` | code/helper.go:383-401 | Every step keeps each next hop the destination itself or strictly closer: a later sequence number, or the same one adopted earlier |
| `Routing.ReachableInvariant` | code/helper.go:383-401 | So does every run under any loss, reordering and duplication |
| `Routing.RoutesNeverLoop` | code/helper.go:383-401 | In every reachable state following next hops for a real name never visits a node twice |
| `Routing.RoutesReachTheirDestination` | code/helper.go:383-401 | In every reachable state, from any node with an entry, the next hops end at a node of that name, within as many nodes as there are |
| `Routing.RouteLeadsBack` | code/gossiper.go:119-146 | A new message handed on along any path of nodes that do not know it leaves each of them with the message and with a route to its origin back along that path |
| `SearchFlood.SplitIsExactAndFair` | code/filehandler.go:321-338 | The shares sum exactly to the budget, each is positive, no two differ by more than 1 and the larger ones come first |
| `SearchFlood.SplitBudget` | code/filehandler.go:321-338 | The loops compute that split; budget without peers is a division by zero, and a budget of 2^63 or more turns negative and panics |
| `SearchFlood.SearchNode.CheckDuplicate` | code/filehandler.go:390-397 | True iff a stored request has the same origin and the same joined keywords |
| `SearchFlood.DuplicateIffSameKeywords` | code/filehandler.go:390-397 | For keywords without commas that means the same origin and the same list of keywords |
| `SearchFlood.CommaConfuses` | code/filehandler.go:390-397 | With a comma in a keyword two different searches are taken for one |
| `SearchFlood.SearchNode.ForwardSearchRequest` | code/filehandler.go:443-457 | One unit of budget is kept and the rest split over the peers other than the sender; every copy carries the same origin and keywords |
| `SearchFlood.ForwardedCarries` | code/filehandler.go:443-457 | The copies go to the first of the other peers, one each, and the other peers are all peers but the sender |
| `SearchFlood.SearchNode.HandleSearchRequest` | code/filehandler.go:371-388 | Own and duplicate requests are dropped; others are remembered and, with budget left, passed on |
| `SearchFlood.SearchNode.SearchTick` | code/filehandler.go:283-318 | A round sends the whole budget split over the peers and doubles it, while it is at most 32 and fewer than two files match |
| `SearchCost.ForwardedBudget` | code/filehandler.go:443-457 | What a node passes on carries exactly one unit less than what it received |
| `SearchCost.FirstCopyConserves` | code/filehandler.go:371-397 | A first copy loses no budget: the node takes one unit, remembers the search and sends the rest to its other peers, same origin and keywords |
| `SearchCost.RoundIssuesBudget` | code/filehandler.go:283-299 | A round hands the whole budget to the searcher's peers |
| `SearchCost.StepKeepsInvariant` | code/filehandler.go:283-299 | Every step keeps deliveries plus budget in flight within the budget issued, and issued budget equal to the doublings so far |
| `SearchCost.SecondCopyIsDropped` | code/filehandler.go:371-397 | A second copy of a search changes nothing at a node that still remembers the first |
| `SearchCost.SearchCostBound` | code/filehandler.go:275-299 | A search with budget 1..32 runs at most 6 rounds and causes at most 64 minus its budget deliveries network-wide, on any changing topology and with any forgetting |
| `SearchCost.SearchEndsIffBudgeted` | code/filehandler.go:283-299 | Over every interleaving of deliveries, losses, forgetting and rewiring in which the timer fires at least 7 times without two matches, the search has ended (or its node is gone) iff its initial budget was not 0 |
| `SearchCost.BudgetedSearchEnds` | code/filehandler.go:283-299 | The first half whatever matches: with a budget, by the seventh tick |
| `Files.HexRoundTrip` | code/filehandler.go:95-95 | Decoding the hexadecimal form of a byte string gives it back |
| `Files.ChunksFlatten` | code/filehandler.go:87-96 | The chunks, joined, are the file, whatever its length |
| `Files.ChunksAreFull` | code/filehandler.go:87-96 | Every chunk but the last has 8000 bytes, so there are as many as the size over 8000, rounded up |
| `Files.SplitMetafileOf` | code/filehandler.go:472-478 | Splitting the metafile lists the chunks' hashes in order, repetitions included |
| `Files.SplitMetafileInto` | code/filehandler.go:472-478 | The loop computes that list, and panics iff the length is not a multiple of 32 |
| `Files.StoreFile` | code/filehandler.go:480-495 | The bytes written are the listed chunks in order, missing ones skipped; a metafile that cannot be split panics |
| `Files.FileNode.AddFile` | code/filehandler.go:73-100 | The registered entry has the file's length as size, at most 2,000,000, its metafile hashes to the metahash, and its chunks in metafile order are the file, or its first 2,000,000 bytes; an empty file is refused |
| `Files.EntryRegisters` | code/filehandler.go:79-98 | That property of the entry, for every file |
| `Files.FileNode.SplitIntoChunks` | code/filehandler.go:87-96 | The 8000-byte loop builds the metafile and table of exactly the chunks of the file, last short one included |
| `Files.FileNode.Serve` | code/filehandler.go:246-262 | Metafile for the metahash, chunk for a chunk hash, nothing otherwise |
| `Files.ServedBytesMatch` | code/filehandler.go:203-213 | What the owner serves always has the hash asked for, and exactly the other hashes go unanswered |
| `Files.FileNode.Store` | code/filehandler.go:264-273 | The first piece under a name becomes its metafile, later ones chunks; the size grows only in a copy that is dropped |
| `Files.FileNode.HandleDataReply` | code/filehandler.go:215-240 | Data reaches the channel of the download that asked iff it comes from the peer asked and hashes to the pending hash |
| `Files.FileNode.FetchChunks` | code/filehandler.go:119-130 | Requests the listed hashes one by one and blocks on an empty channel |
| `Files.FileNode.Download` | code/filehandler.go:112-134 | The whole download, at a node with any files and any entries left from earlier downloads: blocked, panicked, or complete with the table and bytes of its specification |
| `Files.PassingCarries` | code/filehandler.go:215-223 | Whatever other replies arrive, only the wanted bytes can pass the hash check |
| `Files.FetchAllStores` | code/filehandler.go:112-134 | Fetching all chunks stores each under its hash and changes nothing else |
| `Files.RebuiltFile` | code/filehandler.go:480-495 | What is rebuilt from a shared entry is the owner's bytes, also with repeated chunks |
| `Files.DownloadRoundTrip` | code/filehandler.go:112-134 | Round trip, repeated chunks included: with one accepted reply to every request but the last and at least one to the last, whatever else arrives, the bytes written, the metafile and the chunks stored are the owner's |
| `Files.DownloadEndsRightIff` | code/filehandler.go:112-134 | The exact condition: for a file whose metafile and chunks are pairwise distinct the download ends like that iff every request but the last has exactly one accepted reply and the last at least one |
| `Files.EndsRightIffLastPiecesRight` | code/filehandler.go:112-134 | The exact condition for every file, repeated chunks included: it never blocks, and for each chunk the piece taken for the last request of its hash is that chunk |
| `Files.DownloadedSizeIsZero` | code/filehandler.go:264-273 | Whatever is downloaded under an unused name and whatever arrives, the entry keeps size 0 |
| `Files.DownloadPanicsIff` | code/filehandler.go:472-478 | A download panics iff the first accepted metafile is not made of whole hashes |
| `Files.EntryIsOwnersIffEmpty` | code/filehandler.go:264-273 | After a download that ended right the receiver's entry equals the owner's iff the file is empty |
| `Files.FetchedIffOneEach` | code/filehandler.go:119-130 | The same for the chunk requests alone: the listed chunks end up under their hashes iff the replies are so many |
| `Files.StaleReplySpoils` | code/filehandler.go:215-240 | A piece left over in the channel is stored as the next chunk, and nothing later corrects it |
| `Files.OwnerServesEveryHash` | code/filehandler.go:203-213 | The owner answers the metahash and every chunk hash with exactly those bytes |
| `Files.ServedDownload` | code/filehandler.go:203-223 | End to end: with the replies the sharing node itself sends, the download completes with its bytes, metafile and chunks |
| `Files.SharedFileArrives` | code/filehandler.go:73-134 | From one disk to another: what the receiver writes is the file the owner shared, or its first 2,000,000 bytes |
| `Files.SecondCopyCorrupts` | code/filehandler.go:215-240 | A failing input: with the metafile accepted twice, a one-chunk file of other than 32 bytes is reported complete with the metafile written in its place |

## Left out

- UDP sockets, packet encoding and size, flags, start-up, printing and log lines: plumbing, replaced by message sets.
- HTTP handlers, the web page and the command-line client.
- SHA-256 (section 6.2 of FIPS 180-4) and RSA: foreign library calls; the hash is a parameter, signatures do not appear.
- code/node_communication.go: liveness counters over dialling and timers; whether a neighbour is active is the input
  `active` of `HandleGossipPacket`, and the channel sends there are not modelled, nor is the deactivation of a
  neighbour that a signed inactive-node packet causes.
- Timers, tickers and coin flips: steps that may happen at any moment (`Tick`, `ExpireJoining`, `Retransmit`,
  `Forget`), or inputs.
- Forged chain snapshots: a node that has not joined adopts any chain that passes the coded check, whose history then
  need not exist; in the join network snapshots come from nodes, every other kind of message may be forged.
- Two wall-clock readings within one handler, and concurrent handlers: a handler is one atomic step with one reading.
- Wrap-around of 64-bit ids and nonces: `nat` is used; reaching it would take 2^64 blocks or attempts. Budgets arrive
  from outside and can be anything below 2^64: from 2^63 on `int(budget)` is negative and `make` panics, as modelled.
- Time zones other than UTC in the encoded timestamp (15 bytes in every block).
- BlockChains.BlockChain.InitGenesis: that some attempt at mining succeeds is required, since the loop ends only then.
- Blocks.MineBlock: the number of attempts that fit into 360 s and the clock readings of the attempts are parameters.
- Block pointers and chains that are nil inside a decoded message, and decoded chains with a table but no last block.
- Peers learnt from packet senders, and the names given to them; LastIP and LastPort always occur together and are one field.
- PuzzlesStates.PuzzlesState.HandleGossipPacket: the channel sends and the deactivation of a neighbour are not modelled.
- SearchFlood.SearchNode.HandleSearchRequest: the search reply with the matching files is not modelled.
- changeOwnName: node names are fixed for a run.
- Private messages, message lists filtered by time, search replies and their aggregation, downloadGUI: list and map
  plumbing that would only add easy members.
- The flag searchInProgress, which is read and cleared but never set.
- Files.FileNode.Download: two downloads at the same time; retransmitted requests and their timers appear only as further replies, and the capacity of a channel (10,000 pieces) is not modelled.
- Files.SplitMetafileInto: a metafile whose length is not a multiple of 32 panics; a Go slice with spare capacity could be read past its length instead.
- Files.DownloadRoundTrip: the name is not in use at the receiver; under a name in use the metafile would be stored as a chunk of the old entry.
- Reading a shared file in one call of at most 2,000,000 bytes: a longer file is cut there, a read that returns less than the file is not modelled.
- AntiEntropy.ConvergesToJoin: two nodes on their own, both forwarding; the rest of the network is not running meanwhile.
- Routing.RoutesReachTheirDestination: about real node names; the zero rumor that an unstored key yields has the empty origin, for which nothing is claimed.
