# xDevice: elections, write-ahead log, storage stack and shared memory

A Dafny model of the stateful core of xDevice, with proofs of what it keeps over whole runs.
`dafny verify dfyconfig.toml` checks everything.

Each component comes twice. A state machine on values (functions such as `MockFiles.Write` or
`WalLog.Do`) says what one operation does, and lemmas prove what every run of such operations
keeps. A class has the source's own fields, arrays and loops, and each of its methods is proved to
take the object from one value of that machine to the next, with the result the machine gives.

| files | component |
|---|---|
| `RaftNode`, `RaftServer` | one node of `raft.c`: its locked regions on values, and the object |
| `RaftElection`, `RaftQuorum` | a cluster of such nodes as a step system; election safety; what the majority test needs |
| `RaftOutcomes` | what elections, votes and heartbeats come to, said without their loops |
| `RaftBackoff` | how a leader's `next_index` finds the point where two logs meet |
| `Crc`, `CrcTheorems`, `CrcInverse`, `CrcTable` | the CRC-32 register, polynomial division, burst detection; its inverse; the table-driven loop |
| `WalRecord`, `WalHeader`, `WalLog`, `WalOutcomes`, `WalEngine` | record layout, file header, log machine with crashes; what appends and syncs come to; the engine object |
| `MockFiles`, `MockStacks`, `MockStorage` | the file store on values and as a map; under paths of any length; the linked list on the heap |
| `StorageManager` | the backend registry, the choice of a backend, reads and writes through it |
| `AdapterPaths`, `RaftAdapter` | the names given to keys; the typed key store over all three layers |
| `MsgQueue` | the single-producer single-consumer ring, interleaved and sequential |
| `BlockPool` | the first-fit block allocator |
| `Base` | shared vocabulary |

## How the pieces are read

**Raft.** Every region that the source runs under the node's mutex is one function of the node; an
election's vote loop and a round of heartbeats are split into one step per peer in the cluster, and
while a node is inside its vote loop
(`asking[c].Asking?`) no step that needs that node's mutex is enabled. A call to a peer that fails
may still have been acted on: every request stays in flight for good, and its receiver may act on
it later, any number of times. A vote's reply is what the peer's handler answers; a heartbeat's reply
may say anything, its term included. An election or a round of heartbeats spread over these steps
ends where the locked region on one node would (`ElectionIsOneRegion`, `HeartbeatIsOneRegion`). The receiver's side comes from
`docs/distributed_coordination.md`: the vote handler (1168-1218) with `is_log_up_to_date` (421-438),
and for heartbeats the term rule of the append handler (1221-1253). Membership is one list of
distinct non-empty ids, the same on every node and including the node itself; nodes do not restart.

**WAL.** Structures have natural alignment on a 64-bit machine: a 40-byte file header, a 160-byte
record header with the checksum at bytes 12 to 16 and 4 bytes of tail padding. Bytes the source
leaves unset (padding, the checksum field before it is computed, the name field past its
terminator) are parameters. `msync` followed by `fsync` makes the written prefix durable; a crash
may leave anything after it.

**Storage.** Injected errors (`fault`) and failing allocations (`memory`) are parameters of the
operations. A backend is an instance of the mock store with a health flag.

**Shared memory.** The queue's steps are single loads, slot accesses and stores. A load of the
other side's counter may return any value stored since the last one loaded, so late visibility is
included; once a counter's new value has been loaded, the slots written before it are visible. The
design gives INVALID_OFFSET no value: it is taken to be 2^64 - 1, which no 32-bit offset and no
block number equals.

## What the proofs found

- The checksum of a fresh WAL file header covers bytes 0 to 36 of 40, and the field itself is at
  32 to 36. `WalHeader.CreatedValidatesExactly`: a created header validates if and only if the field
  held one particular word before, which `AcceptedStamp` computes from the 32 bytes in front of it:
  exactly one of 2^32 contents.
- The record header keeps 32 bits of the payload length. `WalLog.StreamOfAnyRun`: the log walks
  back to what was appended if and only if every payload is shorter than 2^32. A file created
  smaller than its own header has `current_offset` past its end and refuses every append.
- A refused append still consumes its LSN (`WalLog.LsnsCountAttempts`), so LSNs rise with gaps.
- The mock store cuts a path at 511 characters when it creates a file and compares the whole path
  when it looks one up. From a list of distinct paths an operation is one that a map from paths to
  bytes allows if and only if its path is shorter than 512 or it changes nothing
  (`MockFiles.RefinesExactly`). Under longer paths every write that is not refused outright, and
  every creation, adds a file under the cut name in front of any that was there, so a name stands
  for a stack of files: writes change the top, deletion takes it off and shows the one beneath
  (`MockStacks.StacksFollow`, for every operation and every path; `LongPathsHide` shows it). An
  operation leaves what all other paths show alone if and only if its path is short, or it creates
  nothing, or the cut name already showed the bytes created (`IsolatedExactly`).
- The mock store checks its size limit after creating or growing a file. A write refused for size
  changes nothing if and only if it lies inside an existing file (`RefusalKeepsExactly`), and once
  refused, no write to that path succeeds while its file is neither deleted nor hidden by one
  created through a longer path (`MockStacks.RefusedForGood`); through
  the adapter, which never deletes, that name can never be saved under again
  (`RaftAdapter.NeverSavedAgain`). The result returned, `XDEVICE_ERROR_NO_SPACE`
  (src/storage/mock_storage.c:439), is not among the codes of include/xdevice.h.
- State keys longer than the room left in a path share a file exactly when they agree on all the
  characters there is room for (`AdapterPaths.PathsCollideExactly`); log and snapshot indexes never
  collide.
- Adapters with different device prefixes are not always isolated: state key "log_1" under prefix
  "a" is log entry 1 under prefix "astate_" (`AdapterPaths.DevicesCollide`). Two prefixes have a
  path in common if and only if, cut to 63 characters, they are equal or one goes on from the
  other with "state_" (`PrefixesShareExactly`). Exactly otherwise no history of saves under one changes what any
  load under the other shows (`RaftAdapter.IsolatedExactly`).
- Registering an instance twice cleans it while it stays listed (`StorageManager.RegisteredTwice`):
  a listed instance was never cleaned if and only if it was registered once
  (`ListedIsUncleanedExactly`). Each registration is accounted for once, by a place in the list or
  by one cleanup (`RegistryConserves`). The limit of eight backends cannot be reached with four kinds.
- Adding a member to a node that leads leaves the node sound if and only if the leader indexes
  already in the arrays at that place happen to be in bounds (`RaftServer.Server.AddNode`).
- The majority test counts a node's own vote, so member lists must hold the node itself: two nodes
  that list only each other both lead term 1 (`RaftQuorum.TwoLeadersOfOneTerm`). Among n nodes with
  lists of k entries two winning counts share a voter if and only if 2 * (k / 2 + 1) > n
  (`WinnersShareExactly`).
- Heartbeats carry no entries and no two members' logs share a term, so against a real peer
  `match_index` never leaves 0 (`RaftBackoff.MembersNeverMatch`).
- The design's append handler adopts a higher term without clearing `voted_for`. A stale vote can
  only refuse a vote (`RaftNode.StaleVoteOnlyRefuses`), and election safety holds with it.
- Rounding a size up to blocks is done on 32 bits: the blocks are enough if and only if the
  rounding does not wrap (`BlockPool.EnoughExactly`), and an offset leads back to its block if and
  only if it was not cut to 32 bits (`OffsetNamesBlock`). A successful allocation takes the block it
  hands out if and only if the size is not zero and its rounding does not wrap; otherwise the next
  one of the same size gets the same block (`TakesItsBlockExactly`). Zero is such a size, and with
  4096-byte blocks so is 0xFFFFFFFF (`SizesThatTakeNothing`).

## Model

| member | source | states |
|---|---|---|
| RaftElection.ElectionSafety | src/distributed/raft.c:79-142 | In any run of any cluster, at one moment or two, two members that lead the same term are the same member. |
| RaftElection.EntriesAgree | src/distributed/raft.c:328-361 | Over a run, entries of one term are all in one member's log, and equal index and term mean equal entries. |
| RaftElection.LeadersLogIsNoOlder | docs/distributed_coordination.md:421-438 | A leader was voted for by more than half of the members, each with a log no newer than the one the leader stood with. |
| RaftElection.RunKeeps | src/distributed/raft.c:70-217 | Between any two points of a run votes, victories, terms and logs only grow, and the cluster invariant holds at both. |
| RaftElection.StepKeeps | src/distributed/raft.c:70-217 | Each of the eight steps keeps the cluster invariant: one vote a term, requests say what their sender stood with, a counted vote was cast, leaders had a majority. |
| RaftElection.OneLeaderPerTerm | src/distributed/raft.c:127-130 | Two winners of one term share a voter, hence are equal. |
| RaftElection.DeliverMoves | docs/distributed_coordination.md:1168-1218 | A granted vote is recorded for that candidate and term; a member's vote in a term never changes. |
| RaftElection.TakeReplyMoves | src/distributed/raft.c:110-124 | Votes counted never exceed the voters for this candidate among the members already asked. |
| RaftElection.AskPeerKeeps | src/distributed/raft.c:93-124 | Asking a peer keeps the invariant whether or not its reply comes back. |
| RaftElection.FinishMoves | src/distributed/raft.c:127-138 | Who leads after the loop was voted for by more than half of the members. |
| RaftElection.BeatKeeps | src/distributed/raft.c:168-206 | A heartbeat keeps the invariant whether or not its reply comes back and whatever term and success flag the reply carries. |
| RaftElection.ElectionIsOneRegion | src/distributed/raft.c:74-145 | An election spread over a run's steps, with any steps of other members in between, leaves its node at Election of the replies it heard, as the locked region does. |
| RaftElection.StepKeepsLoopEnd | src/distributed/raft.c:93-124 | No step, of the loop or of anyone else, changes what the vote loop will end with. |
| RaftElection.RepliesExist | src/distributed/raft.c:93-124 | Each peer is asked once, so for every election in a run there are replies that it heard. |
| RaftElection.HeartbeatIsOneRegion | src/distributed/raft.c:154-211 | A round of heartbeats spread over a run's steps leaves its leader at Heartbeat of the replies it heard, as the locked region does. |
| RaftElection.PeersHandle | docs/distributed_coordination.md:1168-1232 | The peer that a step reaches does exactly what its handler does with its sender's request, and only outside its own vote loop. |
| RaftElection.RequestsStay | src/distributed/raft.c:106-108 | Every request made stays in flight, whether or not a reply came. |
| RaftQuorum.WinnersShareExactly | src/distributed/raft.c:127-128 | Among n nodes with lists of k entries two winning vote counts must share a voter if and only if 2 * (k / 2 + 1) > n. |
| RaftQuorum.OwnEntryCounts | src/distributed/raft.c:91-94 | Lists that hold the node itself are long enough; lists that leave it out are exactly when the number of nodes is odd. |
| RaftQuorum.TwoLeadersOfOneTerm | src/distributed/raft.c:91-130 | Two nodes that list only each other both win term 1 though every call fails. |
| RaftNode.HappensKeeps | src/distributed/raft.c:70-217 | Any locked region, with any replies, keeps 1 <= next_index <= log_size + 1 for every member while leading, entry k has index k + 1, terms never fall along the log nor pass current_term; the log only grows, and only by a leader's entries of its term. |
| RaftNode.NodeRunKeeps | src/distributed/raft.c:328-361 | Along every run of a node the term never falls and each log is a prefix of every later one. |
| RaftNode.VoteLoopKeeps | src/distributed/raft.c:93-124 | The vote loop leaves the log alone, never lowers the term and never makes a leader. |
| RaftNode.BeatLoopKeeps | src/distributed/raft.c:168-206 | The heartbeat loop keeps the leader's indexes in bounds and the log unchanged. |
| RaftNode.AppendKeeps | src/distributed/raft.c:319-361 | Success adds exactly one entry, with the next index and the current term, on a leader; any refusal adds none; nothing else changes and the node's invariant is kept. |
| RaftNode.ReceiverKeeps | docs/distributed_coordination.md:1168-1232 | Both handlers keep the log and never lower the term. |
| RaftNode.StaleVoteOnlyRefuses | docs/distributed_coordination.md:1168-1232 | A vote is granted if and only if it would be with no vote standing, and besides the request's term is newer or the standing vote is for that candidate. |
| RaftOutcomes.LeadsExactly | src/distributed/raft.c:79-142 | After an election a node leads if and only if it led before, or no heard reply is of a term newer than its next and its own vote with the replies that grant theirs is more than half of the members. |
| RaftOutcomes.ElectionCounts | src/distributed/raft.c:79-138 | Without a newer reply: the node's term is the next one and its vote its own; it leads exactly with a majority, then with every next_index one past the log and every match_index 0, and else stays a candidate. |
| RaftOutcomes.ElectionStepsDown | src/distributed/raft.c:114-122 | With a newer reply: the first one makes the node a follower of its term without a vote, and nothing else changes. |
| RaftOutcomes.AnyoneCanLead | src/distributed/raft.c:79-142 | In a cluster of any size, for any member, there is a run in which it leads term 1. |
| RaftOutcomes.VoteOutcome | docs/distributed_coordination.md:1168-1218 | A vote is granted if and only if the term is not older, the vote of that term is free or the candidate's, and the voter's log is not newer; the whole new node and the reply's term. |
| RaftOutcomes.ConsistentExactly | docs/distributed_coordination.md:445-462 | The check holds exactly where the log carries the previous entry's term at its index, or the index is 0. |
| RaftOutcomes.BeatAdopts | docs/distributed_coordination.md:1221-1232 | A leader's heartbeat makes any member not in a newer term a follower of the leader's term and changes nothing else; its previous entry is the leader's own. |
| RaftOutcomes.AppendOutcome | src/distributed/raft.c:319-364 | A leader with data and memory gets Ok, and each refusal has exactly its own cause. |
| RaftOutcomes.HeartbeatOutcome | src/distributed/raft.c:154-211 | After a round every place below the first newer reply took its own reply, every other place is as it was, and the node leads on or follows the newer term without a vote. |
| RaftOutcomes.ReplyMovesOne | src/distributed/raft.c:195-203 | A reply moves next_index and match_index of its own member only, and how. |
| RaftOutcomes.ReplyEndsLeadership | src/distributed/raft.c:187-193 | A newer reply leaves a follower in its term without a vote, with log and indexes as they were. |
| RaftOutcomes.MatchWasHeard | src/distributed/raft.c:195-197 | Over any run a leader's match_index of a member is non-zero only because that member answered a heartbeat for that index with success in the same unbroken leadership. |
| RaftOutcomes.StartsClean | src/distributed/raft.c:231-236 | A new node is a follower in term 0 without vote, log or leader indexes, and sound. |
| RaftServer.Server.constructor | src/distributed/raft.c:220-254 | A new node is a follower in term 0 with an empty log of capacity 1024; its id is cut to 63 characters. |
| RaftServer.Server.AddNode | src/distributed/raft.c:303-317 | On any node adds one member if there is room and changes nothing else; the node stays sound if and only if it does not lead or the indexes already at that place are in bounds. |
| RaftServer.Server.Election | src/distributed/raft.c:79-142 | The election region in place equals Election on the node's value; nothing happens on a leader or before the timeout. |
| RaftServer.Server.CollectVotes | src/distributed/raft.c:91-124 | The vote loop in place equals VoteLoop, breaking off at the first higher term. |
| RaftServer.Server.BecomeLeader | src/distributed/raft.c:127-138 | Every next_index becomes log_size + 1 and every match_index 0. |
| RaftServer.Server.Heartbeat | src/distributed/raft.c:154-211 | The heartbeat region in place equals Heartbeat on the node's value. |
| RaftServer.Server.RequestFor | src/distributed/raft.c:171-176 | The previous-entry lookup is inside the log. |
| RaftServer.Server.TakeReply | src/distributed/raft.c:187-203 | One reply moves match_index and next_index as TakeBeatReply says, or ends the loop. |
| RaftServer.Server.AppendLog | src/distributed/raft.c:319-364 | Appends, or refuses with its own code and leaves the log as it was; capacity never shrinks. |
| RaftServer.Server.Store | src/distributed/raft.c:347-361 | A failed allocation after the slot was stamped leaves the log as it was. |
| RaftServer.Server.Grow | src/distributed/raft.c:335-345 | Doubles the capacity, which stays 1024 times a power of two, and keeps the node's value. |
| RaftServer.Server.HandleVoteRequest | docs/distributed_coordination.md:1168-1218 | The vote handler in place equals HandleVote. |
| RaftServer.Server.HandleHeartbeat | docs/distributed_coordination.md:1221-1232 | The append handler's term rule in place equals HandleBeat. |
| RaftBackoff.BackOffConverges | src/distributed/raft.c:195-203 | After a answers next_index is one past the largest common index m, or a places below its start if that is higher; refusals number min(a, length - m); match_index is 0 until m is confirmed, then m for good. |
| RaftBackoff.MatchIsReal | src/distributed/raft.c:195-197 | A non-zero match_index names an index where both logs carry the same term. |
| RaftBackoff.OneRound | docs/distributed_coordination.md:445-462 | One answer succeeds exactly at the meeting point, and otherwise moves next_index down by one. |
| RaftBackoff.ElectionStartsBackOff | src/distributed/raft.c:134-138 | A new leader is where the back-off starts. |
| RaftBackoff.MembersMeetAtZero | src/distributed/raft.c:171-176 | In a run no two members' logs carry the same term at any index, at any two moments. |
| RaftBackoff.MembersNeverMatch | src/distributed/raft.c:195-203 | Against a real peer match_index stays 0, next_index comes down to 1 and the refusals number the log's length at the election. |
| CrcTheorems.CrcIsPolynomialRemainder | src/storage/wal_engine.c:60-87 | For every byte sequence the CRC is the remainder of textbook long division over GF(2) of the preset message by the generator, complemented. |
| CrcTheorems.RegisterDivides | src/storage/wal_engine.c:64-86 | The shift register fed bit by bit holds the remainder of long division. |
| CrcTheorems.BurstsAreDetected | src/storage/wal_engine.c:79-86 | Two payloads of one length that differ, and only inside 32 consecutive bits, have different CRCs. |
| CrcTheorems.NoFixedPoint | src/storage/wal_engine.c:66-73 | No non-zero register comes back to itself after 1, 2, 4, 8, 16 or any power of two of shifts. |
| CrcInverse.Solve32Exactly | src/storage/wal_engine.c:66-73 | The registers that xor to y with themselves 32 shifts on are exactly one, written out as Solve32(y). |
| CrcTable.LookupIsEightSteps | src/storage/wal_engine.c:82-84 | One table lookup does the work of eight single-bit steps. |
| CrcTable.Calculator.Initialize | src/storage/wal_engine.c:64-77 | The table loops store the eight-step shift of every byte. |
| CrcTable.Calculator.Crc32 | src/storage/wal_engine.c:60-87 | The table-driven loop computes the bit-by-bit CRC of every payload, whether or not the table was already built. |
| WalRecord.WalkReadsBack | src/storage/wal_engine.c:50-58 | Walking a stream by header size plus length gives back its records if and only if every payload is shorter than 2^32. |
| WalRecord.ParseEncoded | src/storage/wal_engine.c:50-58 | A record read back has every field as written and the payload cut to its low 32 bits of length. |
| WalRecord.HeaderSlices | src/storage/wal_engine.c:50-58 | Each field lies at its own offset in the 160-byte record header. |
| WalRecord.LeAt | src/storage/wal_engine.c:50-58 | Numbers are stored least significant byte first. |
| WalRecord.NoDataNoChange | src/storage/wal_engine.c:269-273 | The CRC of no bytes is 0, so skipping the xor for empty payloads changes nothing. |
| WalHeader.CreatedValidates | src/storage/wal_engine.c:90-110 | A created header validates if and only if its checksum field already held that checksum. |
| WalHeader.CreatedValidatesExactly | src/storage/wal_engine.c:90-110 | A created header validates if and only if its checksum field held, before, the word AcceptedStamp computes from the bytes in front of it. |
| WalHeader.AtMostOneValidates | src/storage/wal_engine.c:90-110 | Of all contents of that field, at most one lets the created header validate. |
| WalHeader.LastWordDecides | src/storage/wal_engine.c:90-110 | Inputs that share all but a last word have equal CRCs only if the words are equal. |
| WalHeader.FrontReads | src/storage/wal_engine.c:90-96 | Magic, version, creation time and file size each read back from their own place in a created header. |
| WalHeader.OthersRefused | src/storage/wal_engine.c:99-110 | A header that validates has this magic and version. |
| WalHeader.DamageIsSeen | src/storage/wal_engine.c:107-110 | A validating header changed before its checksum at most inside 32 consecutive bits validates exactly if those bytes are unchanged. |
| WalLog.StreamOfAnyRun | src/storage/wal_engine.c:248-301 | After any run from a fresh file the region walks back to exactly the successful appends in order (iff lengths fit 32 bits), LSNs rise strictly, counters match, and the offset is inside the file iff the file has room for its header. |
| WalLog.CrashKeepsSynced | src/storage/wal_engine.c:303-336 | After any run and any crash the durable part reads back as exactly the successful appends with LSN at most last_sync_lsn. |
| WalLog.DurabilityGrows | src/storage/wal_engine.c:303-336 | Later events only add to the durable bytes, to last_sync_lsn and to the records written. |
| WalLog.BurstChangesStamp | src/storage/wal_engine.c:268-273 | With the same header fields, payloads differing only inside 32 consecutive bits get different stored checksums. |
| WalLog.RunKeeps | src/storage/wal_engine.c:248-336 | The log's invariant over any run of appends and syncs, refused and failing ones included. |
| WalLog.LsnsCountAttempts | src/storage/wal_engine.c:259-281 | next_lsn is one more than the appends tried, refused ones included. |
| WalOutcomes.SyncMakesDurable | src/storage/wal_engine.c:303-336 | After any run one more successful sync makes the whole prefix durable: every crash image walks back to all records so far (iff lengths fit 32 bits), last_sync_lsn is the number of appends tried, total_syncs is one more, and nothing else changes. |
| WalOutcomes.FailedSyncKeeps | src/storage/wal_engine.c:313-325 | A sync is Ok exactly when both calls succeed, and otherwise changes nothing. |
| WalOutcomes.SyncsAreCounted | src/storage/wal_engine.c:327-328 | total_syncs counts the syncs of a run whose two calls succeeded. |
| WalOutcomes.RecordsAreAppends | src/storage/wal_engine.c:248-301 | After any run the records are exactly the successful appends in order, each with its append's name, kind, time and payload, and the number of appends tried as LSN. |
| WalOutcomes.SucceededExactly | src/storage/wal_engine.c:277-281 | The appends recorded are exactly those that returned Ok. |
| WalOutcomes.AppendsFitExactly | src/storage/wal_engine.c:275-281 | After any run an append is Ok if and only if its record fits in the file behind the header and the records so far. |
| WalOutcomes.AppendOutcome | src/storage/wal_engine.c:275-296 | What an append changes, refused or not, counter by counter. |
| WalOutcomes.NothingElseWritten | src/storage/wal_engine.c:283-296 | Over any run the file header stays as created and everything past the records stays zero. |
| WalOutcomes.FieldsAgreeExactly | src/storage/wal_engine.c:265-266 | Two names give one field if and only if they agree on their first 127 bytes. |
| WalOutcomes.FieldNames | src/storage/wal_engine.c:265-266 | The name field starts with the name as far as it fits, then zeros. |
| WalOutcomes.HeaderBurstChangesStamp | src/storage/wal_engine.c:268-273 | For one payload, headers whose first 156 bytes differ at most inside 32 consecutive bits get one checksum if and only if those bytes are equal: the padding does not enter, all else does. |
| WalEngine.Engine.constructor | src/storage/wal_engine.c:112-219 | A fresh file: header at the front, zeros after it, LSN 1. |
| WalEngine.Engine.BuildFileHeader | src/storage/wal_engine.c:90-96 | The header object's bytes are the specified ones. |
| WalEngine.Engine.Append | src/storage/wal_engine.c:248-301 | An append in place equals DoAppend: the record at the old offset, or Io with only the LSN used up. |
| WalEngine.Engine.BuildHeader | src/storage/wal_engine.c:259-273 | The record header carries the checksum of its first 156 bytes, xored with the payload's. |
| WalEngine.Engine.Sync | src/storage/wal_engine.c:303-336 | A sync in place equals DoSync; a failed msync or fsync changes nothing. |
| WalEngine.Engine.GetStats | src/storage/wal_engine.c:338-358 | The statistics are those of the log's state. |
| MockFiles.RunRefines | src/storage/mock_storage.c:326-519 | At every point of every run, under any paths, at most max_files well-formed files are listed; while the listed paths are distinct, as short paths keep them, the next operation is one a map from path to bytes allows, result and contents, if and only if its path is short or it changes nothing. |
| MockFiles.RefinesExactly | src/storage/mock_storage.c:326-519 | The same equivalence for one operation from any list of distinct paths. |
| MockFiles.LongPathDoes | src/storage/mock_storage.c:326-519 | Under a path of 512 characters or more an operation finds nothing: its exact result, and it changes the list exactly when it creates a file. |
| MockFiles.DoRefines | src/storage/mock_storage.c:326-519 | Under a short path one operation is one the map allows and keeps the listed paths distinct; RefinesExactly has the other paths. |
| MockFiles.ExpandFits | src/storage/mock_storage.c:183-208 | Growing keeps the bytes, adds zeros, and keeps size <= capacity <= 2 * size, zeros past the size, and total bytes moved at most the capacity; the old capacity is counted exactly when the capacity changes. |
| MockFiles.BytesAt | src/storage/mock_storage.c:357-372 | Byte by byte: reads show the content and then zeros, growth adds zeros, a write replaces exactly the bytes it covers. |
| MockStacks.StacksFollow | src/storage/mock_storage.c:105-519 | Every operation, under any path and with any result, from any well-formed list: its result follows from the stack of contents under its path, and it changes only that stack or pushes on the one under its cut name. |
| MockStacks.RunFollowsStacks | src/storage/mock_storage.c:105-519 | The same at every point of every run from an empty store. |
| MockStacks.IsolatedExactly | src/storage/mock_storage.c:105-519 | An operation leaves what every other path shows if and only if its path is short, or it changes nothing, or the cut name already showed the bytes of the file it creates. |
| MockStacks.ShortKeepsOthers | src/storage/mock_storage.c:105-519 | Under a short path no operation, whatever its result, changes what another path shows, distinct paths or not. |
| MockStacks.WrittenReadsBack | src/storage/mock_storage.c:119-130 | From any well-formed list a successful write is read back under its own path exactly when that is short, and always under its stored name. |
| MockStacks.LongPathWrites | src/storage/mock_storage.c:119-150 | A successful write under a long path pushes zeros and then the data on the cut name's stack and moves no other. |
| MockStacks.WritesAreIsolatedExactly | src/storage/mock_storage.c:105-150 | A successful write leaves every other path alone if and only if its path is short or the cut name already showed the same bytes. |
| MockStacks.LongPathsHide | src/storage/mock_storage.c:119-178 | A refused write and a creation under a long path hide another path's bytes, and a deletion shows them again. |
| MockStacks.RefusedForGood | src/storage/mock_storage.c:427-440 | After one refusal for size no write to that path ever succeeds, through any operations, under any paths, that neither delete its file nor put another in front of it. |
| MockFiles.RefusalKeepsExactly | src/storage/mock_storage.c:427-440 | A write refused for size leaves the map as it was if and only if it lies inside an existing file. |
| MockFiles.ShapesFollow | src/storage/mock_storage.c:183-208 | The result of a write, and every file's length and capacity after it, follow from lengths and capacities alone. |
| MockFiles.MapCount | src/storage/mock_storage.c:119-154 | The map has one entry per listed file. |
| MockFiles.DeleteInMap | src/storage/mock_storage.c:159-178 | Taking a file out of the list takes exactly its path out of the map. |
| MockStorage.FileNode.Expand | src/storage/mock_storage.c:183-208 | Growing the buffer in place equals Expand, or changes nothing when the allocation fails. |
| MockStorage.FileNode.CopyOut | src/storage/mock_storage.c:365-372 | The caller's buffer gets the bytes from the offset, then zeros. |
| MockStorage.FileNode.Put | src/storage/mock_storage.c:442-443 | Writing in place equals Put. |
| MockStorage.MockStore.FindFile | src/storage/mock_storage.c:105-114 | Gives the first node with the path, or null if there is none. |
| MockStorage.MockStore.CreateNewFile | src/storage/mock_storage.c:119-154 | Puts a zero-filled file at the head of the list, or changes nothing at the limit. |
| MockStorage.MockStore.RemoveFile | src/storage/mock_storage.c:159-178 | Unlinks exactly the first node with the path and keeps the list well linked. |
| MockStorage.MockStore.WriteSync | src/storage/mock_storage.c:393-460 | A write in place equals Write on the list's value, results included. |
| MockStorage.MockStore.ReadSync | src/storage/mock_storage.c:326-388 | A read changes only the buffer and equals Read. |
| MockStorage.MockStore.CreateFile | src/storage/mock_storage.c:477-502 | Equals Create on the list's value. |
| MockStorage.MockStore.DeleteFile | src/storage/mock_storage.c:507-519 | Equals Delete on the list's value. |
| StorageManager.RegistryConserves | src/storage/storage_manager.c:76-139 | After any registrations and removals kinds are distinct, at most four are listed, and registrations equal listed plus displaced instances as multisets. |
| StorageManager.RegisteredOnce | src/storage/storage_manager.c:88-97 | An instance registered once is either listed and was never displaced, or was displaced exactly once. |
| StorageManager.ListedIsUncleanedExactly | src/storage/storage_manager.c:88-97 | A listed instance was never displaced if and only if it was registered once. |
| StorageManager.RegisteredTwice | src/storage/storage_manager.c:88-97 | Registered twice in a row, an instance is displaced by itself and stays listed. |
| StorageManager.RegistersExactly | src/storage/storage_manager.c:88-101 | A registration takes the place of the backend of its kind, which is displaced, or else goes to the end; nothing else moves. |
| StorageManager.UnregistersExactly | src/storage/storage_manager.c:112-139 | Ok if and only if the kind is listed; then that instance alone is displaced, none of the kind is left, and the others stay in order; NotFound changes nothing. |
| StorageManager.ListedIsLatest | src/storage/storage_manager.c:76-139 | After any requests the backend listed of a kind is the one last registered of it with no removal since. |
| StorageManager.StatsCount | src/storage/storage_manager.c:189-243 | Over any accesses the statistics count successful reads and writes, their bytes, and the failures. |
| StorageManager.RegistrationSucceeds | src/storage/storage_manager.c:82-85 | No registration is ever refused. |
| StorageManager.AtMostFour | include/xdevice.h:55-60 | Distinct kinds make at most four backends. |
| StorageManager.ChoiceIsBest | src/storage/storage_manager.c:144-184 | A backend is chosen if and only if some backend is healthy; it is healthy, of the primary kind if possible, else of the fallback kind if failover is on and that is possible, else the first healthy one. |
| StorageManager.Manager.RegisterBackend | src/storage/storage_manager.c:76-107 | The array registry equals Register; the displaced instance is cleaned once and unusable after, and every other listed instance is unchanged. |
| StorageManager.Manager.UnregisterBackend | src/storage/storage_manager.c:112-139 | The array registry equals Unregister: survivors keep their order and their state, slots past the count are null, only the removed one is cleaned. |
| StorageManager.Manager.ShiftDown | src/storage/storage_manager.c:125-131 | The shifting loop takes out one place and clears the last slot. |
| StorageManager.Manager.SelectBackend | src/storage/storage_manager.c:144-184 | The three searches give the Choice. |
| StorageManager.Manager.Write | src/storage/storage_manager.c:248-279 | The chosen store changes as Write says, all others stay, statistics follow the result; no data or no backend changes nothing. |
| StorageManager.Manager.Read | src/storage/storage_manager.c:212-243 | The buffer gets what the chosen store's Read gives. |
| AdapterPaths.PathsCollideExactly | src/storage/storage_manager.c:356-361 | Two keys of one device get one path if and only if they are equal or are state keys equal as far as there is room. |
| AdapterPaths.PathsInjective | src/storage/storage_manager.c:317-321 | Distinct keys whose names are not cut have distinct paths. |
| AdapterPaths.IndexesFit | src/storage/storage_manager.c:376-378 | Every 64-bit index has at most 20 digits and its name is never cut. |
| AdapterPaths.DecimalInjective | src/storage/storage_manager.c:376 | Distinct numbers have distinct decimal renderings. |
| AdapterPaths.DecimalReads | src/storage/storage_manager.c:376 | A rendering reads back as its number, without superfluous zeros. |
| AdapterPaths.PathsSpelled | src/storage/storage_manager.c:317-320 | One path of each kind, character by character. |
| AdapterPaths.PrefixesShareExactly | src/storage/storage_manager.c:356-361 | Two devices have a path in common if and only if their prefixes, cut to 63 characters, are equal or one goes on from the other with "state_". |
| AdapterPaths.EntangledPathsMeet | src/storage/storage_manager.c:356-361 | If a prefix goes on from another with "state_", every key under it has the path of a state key under the other. |
| AdapterPaths.DevicesCollide | src/storage/storage_manager.c:356-361 | Two prefixes and two keys, nothing cut, with one path. |
| RaftAdapter.LoadIsLatestSave | src/storage/storage_manager.c:366-481 | After any history of saves with any results, byte i of a load is byte i of the latest successful save under that name long enough to reach it, else zero; nothing is found if and only if no save under that name reached its file. |
| RaftAdapter.KeyHoldsHistory | src/storage/storage_manager.c:366-481 | What the file of a key holds, byte by byte, after any history. |
| RaftAdapter.NamesAreOwn | src/storage/storage_manager.c:356-361 | Keys whose names are not cut never show each other's saves. |
| RaftAdapter.StatusIsResult | src/storage/storage_manager.c:366-460 | What the store returns for a save is what the history of saves foretells, for every fault and allocation failure. |
| RaftAdapter.SucceedsExactly | src/storage/storage_manager.c:366-460 | With memory and no fault a save succeeds if and only if its name has a file or fewer than the limit do, and neither it nor any earlier save that left that file is over the size limit. |
| RaftAdapter.NeverSavedAgain | src/storage/storage_manager.c:366-460 | A name once refused for size never has a successful save again. |
| RaftAdapter.DevicesApart | src/storage/storage_manager.c:305-321 | Unless the prefixes are entangled, no history of saves by one device changes any load by the other. |
| RaftAdapter.IsolatedExactly | src/storage/storage_manager.c:305-321 | No history of saves by one device, from any store, changes any load of the other if and only if the prefixes are not entangled. |
| RaftAdapter.SharedPathShows | src/storage/storage_manager.c:356-403 | When two devices share a path, one save by the one turns the other's load from nothing found into the saved byte. |
| RaftAdapter.Adapter.constructor | src/storage/storage_manager.c:305-337 | Over an empty chosen store the adapter starts with an empty history; cutting the prefix once or twice gives the same paths. |
| RaftAdapter.Adapter.BuildFullPath | src/storage/storage_manager.c:356-361 | Builds prefix, kind and key cut to 511 characters for any kind and key, which for a modelled key is its Path. |
| RaftAdapter.Adapter.AppendLog | src/storage/storage_manager.c:366-382 | Adds one save to the history of the chosen store and returns its result, through all three layers; without data or backend it refuses and adds none. |
| RaftAdapter.Adapter.SaveState | src/storage/storage_manager.c:408-421 | The same for a state key. |
| RaftAdapter.Adapter.SaveSnapshot | src/storage/storage_manager.c:444-460 | The same for a snapshot. |
| RaftAdapter.Adapter.ReadLog | src/storage/storage_manager.c:387-403 | The buffer gets Load of the history, so LoadIsLatestSave describes it. |
| RaftAdapter.Adapter.LoadState | src/storage/storage_manager.c:426-439 | The same for a state key. |
| RaftAdapter.Adapter.LoadSnapshot | src/storage/storage_manager.c:465-481 | The same for a snapshot. |
| MsgQueue.PoppedIsPrefixOfPushed | docs/distributed_coordination.md:884-967 | In every interleaving, with late loads, popped messages and those being copied are a prefix of pushed ones in order, and tail <= head <= tail + capacity. |
| MsgQueue.WriteSparesUnread | docs/distributed_coordination.md:893-902 | The slot about to be written holds no unread message. |
| MsgQueue.StepKeeps | docs/distributed_coordination.md:884-967 | Every load, slot access and store of either side keeps the queue's invariant. |
| MsgQueue.HistoriesGrow | docs/distributed_coordination.md:884-967 | What was pushed stays pushed and what was popped stays popped. |
| MsgQueue.PushAdds | docs/distributed_coordination.md:884-908 | A push is refused if and only if there is no room as far as it sees, and else adds exactly its message. |
| MsgQueue.PopTakes | docs/distributed_coordination.md:939-967 | A batch takes the oldest messages it can see, up to its maximum. |
| MsgQueue.BatchIsPops | docs/distributed_coordination.md:912-967 | A batch pop equals that many single pops. |
| MsgQueue.SharedQueue.Push | docs/distributed_coordination.md:884-908 | In memory: appends to the unread messages unless they fill the slots. |
| MsgQueue.SharedQueue.Pop | docs/distributed_coordination.md:912-935 | In memory: takes the oldest unread message, if any. |
| MsgQueue.SharedQueue.PopBatch | docs/distributed_coordination.md:939-967 | In memory: copies out the oldest unread messages and leaves the rest. |
| BlockPool.LiveExtentsApart | docs/distributed_coordination.md:974-1023 | Over any allocations and matching frees live extents are in range and share no block, the last block is in none, and exactly the other blocks are free. |
| BlockPool.FailsExactly | docs/distributed_coordination.md:980-1008 | An allocation fails if and only if no long enough run of free blocks exists, and else takes the lowest. |
| BlockPool.FreeRestores | docs/distributed_coordination.md:1012-1023 | Freeing an extent gives the free set of the pool without that allocation, whatever came between. |
| BlockPool.BlocksConserved | docs/distributed_coordination.md:974-1023 | Free blocks and live extents always add up to all blocks but the last. |
| BlockPool.EnoughExactly | docs/distributed_coordination.md:977-978 | The blocks computed are enough if and only if the rounding up does not leave 32 bits, and then none too many. |
| BlockPool.OffsetNamesBlock | docs/distributed_coordination.md:1005-1014 | An offset leads back to its block if and only if it was not cut to 32 bits. |
| BlockPool.TakesItsBlockExactly | docs/distributed_coordination.md:974-1005 | A successful allocation takes the block it hands out if and only if its size is positive and rounds up inside 32 bits; otherwise nothing changes and the next one of that size gets the same block. |
| BlockPool.ReservedStartApart | docs/distributed_coordination.md:974-1023 | Live extents of such sizes start at different blocks. |
| BlockPool.SizesThatTakeNothing | docs/distributed_coordination.md:977-978 | Zero and, with 4096-byte blocks, 0xFFFFFFFF take no block. |
| BlockPool.EmptyAllocationTakesNothing | docs/distributed_coordination.md:983-1005 | After an allocation of no blocks the next one-block allocation gets the same block. |
| BlockPool.DataRegion.constructor | docs/distributed_coordination.md:852-860 | All blocks but the last start free. |
| BlockPool.DataRegion.Allocate | docs/distributed_coordination.md:974-1009 | The nested loops over the marks equal a first-fit allocation, its offset included. |
| BlockPool.DataRegion.RunIsLong | docs/distributed_coordination.md:984-996 | The inner loop accepts a block exactly when it starts a long enough free run. |
| BlockPool.DataRegion.Free | docs/distributed_coordination.md:1012-1023 | Giving a live extent back marks exactly its blocks free. |

## Left out

- Terms, indexes and counters of Raft, the mock store's `offset + size` and the queue's counters are unbounded; their 64-bit wrap (and the design's 32-bit terms) is not modelled.
- Timeouts, clocks, `usleep`, printing, latency averages and the mock store's own statistics: time is nondeterminism, and locked regions are atomic steps.
- Raft restart, membership change while leading, commit and apply: nothing persists term or vote, adding a member sets up no leader indexes, and `commit_index` is never advanced.
- The design's processing of non-empty append requests (docs/distributed_coordination.md:1238-1246): the code sends heartbeats without entries, and the function it calls is not part of this model.
- RaftBackoff.BackOffConverges: the follower applies the consistency check of docs/distributed_coordination.md:445-462, which the append handler at 1221-1253 does not call.
- WalLog.StreamOfAnyRun: for fewer than 2^64 - 2 events, so that no LSN wraps; the wrap itself is in the functions.
- WalEngine.Engine.constructor: a new file only; opening an existing one ends in a TODO (src/storage/wal_engine.c:202-203), and reading, truncation and checkpoints are declared without bodies.
- Validation of stored record checksums: the sources have no reader for records.
- MockStacks.StacksFollow: whether a failing reallocation is needed for a file that is there is left to MockFiles.VerdictIsStatus, which decides it from the file's capacity.
- RaftAdapter.LoadIsLatestSave: the chosen backend stays the same and only this adapter writes to its store; when another may share the store is settled by DevicesApart.
- StorageManager.Manager: every backend is a mock store; the local, NFS and NVMe-oF backends, `storage_manager_sync`, `storage_manager_cleanup` and file information are left out.
- BlockPool.LiveExtentsApart: sequential use, and frees that match an allocation; concurrent callers are not modelled.
- MsgQueue: one producer and one consumer; the initialisation order across processes is left out.
- `MsgQueue.SharedQueue.Pop` and `PopBatch` run without interruption; interleavings are in the step system.
- Null-pointer arguments, the command line, node start-up and shutdown, and the other design documents.
