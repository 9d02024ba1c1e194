# GuildPass Core: a verified model

GuildPass Core is a set of dependency-free primitives. Each file here models one of them in Dafny and proves what it
promises. Objects that the packages update in place are classes whose methods are proved against a specification
function; that function carries the theorems. Protocols whose steps interleave (circuit breaker, task pool, leases,
idempotent execution) are state machines: one step per synchronous section, theorems over every run.

| file | what it models |
|---|---|
| `PriorityQueue.dfy` | indexed stable binary heap against a plain map |
| `StrKey.dfy`, `StellarAddress.dfy`, `CrcDivision.dfy`, `StellarValidation.dfy` | base32, CRC16/XMODEM as polynomial division, and account address checking, both implementations |
| `CircuitBreaker.dfy` | three-state breaker with generations, probe tickets and late completions |
| `MerkleTree.dfy` | levels, proofs and verification over an arbitrary two-argument hash |
| `TaskPool.dfy` | workers, timeouts and cancellation as interleaved steps |
| `LeaseManager.dfy` | time-bounded ownership with lazy cleanup |
| `RoleInheritance.dfy` | cycle check and closure over a role graph |
| `PayloadMigrations.dfy` | complete bounded path search and migration |
| `DelegationGraph.dfy` | delegation chains, memoised roots and weight conservation |
| `TimeWindow.dfy` | sort-and-sweep merging of windows over real time |
| `CanonicalJson.dfy`, `Canonicalization.dfy`, `PayloadHoles.dfy`, `AuditChain.dfy` | canonical text of payloads, framing and the hash chain |
| `RuleExplanation.dfy` | permission expressions and eligibility rules with their reasons |
| `Idempotency.dfy` | the store and interleaved executions |
| `ExactAmount.dfy`, `Decimal.dfy` | decimal parsing and printing |

How the models read the code:

- A clock is a value passed in; operations that read it get the reading as a parameter. A time value is a real number.
- Hash functions are arbitrary function values. A collision is never assumed away: it is returned, or pointed at among
  the events or nodes at hand.
- Methods are proved against specification functions. What such a function answers is also stated without it, over whole
  runs or in clock readings, bytes and texts where there are any: look for names that end in `Answers`, `Means`,
  `Spelled` or `Laws`.
- Exceptions and error returns are result datatypes. Error message texts are not modelled, their kinds are.
- Where the code falls short of a documented promise, the code is kept, a lemma gives a concrete input, and another
  states exactly when the promise holds: merging windows (`WindowUnion.UnionKeptIff`, `WindowShape.MaximalIff`,
  `WindowOrder.InputOrderIsIrrelevantIff`, `WindowOrder.MergingAgainChangesNothingIff`), digesting ids
  (`ChainModel.DigestedIff`), holes in arrays (`PayloadHoles.HolesBecomeNullIff`), fingerprints of replays
  (`IdempotencyRuns.ReplaysAcrossFingerprintsIff`), `exists` (`EligibilityRules.ExistsAgreesIff`), delegations
  (`DelegationModel.NextIsEdge`).

Where the code and its comments disagree, the model follows the code: holes in arrays are encoded as nothing and not as
`null` (canonical.ts line 73); `exists` holds of a property present with an undefined value (eligibility-rules line 23);
merged windows are not always maximal or independent of input order (time-window lines 110-113); a delegation to the
empty id is ignored, because an empty target reads as none (delegation-graph lines 98 and 135).

## Model

| member | source | states |
|---|---|---|
| `PriorityQueues.PriorityQueue.Enqueue` | packages/priority-queue/src/index.ts:103-128 | map from id to (priority, insertion number, payload): a new id gets the next number; a known id is refused or replaced by policy; heap order and the inverse index are kept |
| `PriorityQueues.PriorityQueue.Dequeue` | packages/priority-queue/src/index.ts:135-142 | takes exactly the entry that is least by (priority, insertion number), or nothing from an empty queue |
| `PriorityQueues.PriorityQueue.Peek` | packages/priority-queue/src/index.ts:148-154 | shows what Dequeue would take and changes nothing |
| `PriorityQueues.PriorityQueue.UpdatePriority` | packages/priority-queue/src/index.ts:164-182 | changes the priority of that entry only and keeps its insertion number; an unknown id is refused |
| `PriorityQueues.PriorityQueue.Remove` | packages/priority-queue/src/index.ts:188-196 | removes exactly the entry with that id, from anywhere in the heap, and returns it |
| `PriorityQueues.PriorityQueue.RemoveInternal` | packages/priority-queue/src/index.ts:200-222 | filling the hole with the last node and one sift either way removes exactly that id from the map |
| `PriorityQueues.PriorityQueue.SiftUp` | packages/priority-queue/src/index.ts:224-241 | a heap broken only above one node becomes a heap with the same map, in at most floor(log2 n) moves |
| `PriorityQueues.PriorityQueue.SiftDown` | packages/priority-queue/src/index.ts:243-273 | a heap broken only below one node becomes a heap with the same map, in at most floor(log2 n) moves |
| `HeapShape.SiftUpStep` | packages/priority-queue/src/index.ts:228-237 | one turn of the upward loop moves the only possible violation up with the hole, or restores order |
| `HeapShape.SiftDownStep` | packages/priority-queue/src/index.ts:248-269 | one turn of the downward loop moves the only possible violation to the better child, one level deeper, or restores order |
| `HeapShape.FillHoleReady` | packages/priority-queue/src/index.ts:200-222 | after the last node replaces a removed one, the test against the parent tells which single sift is needed |
| `HeapShape.DepthIsLog` | packages/priority-queue/src/index.ts:283-285 | the number of parent steps from an index to the root is floor(log2(index + 1)) |
| `HeapShape.TopIsLeast` | packages/priority-queue/src/index.ts:135-154 | in a heap with an exact index the root is the least entry of the whole map |
| `QueueModel.StepWellFormed` | packages/priority-queue/src/index.ts:103-196 | every operation keeps insertion numbers distinct and already issued |
| `QueueModel.EnqueueAnswers` | packages/priority-queue/src/index.ts:103-128 | the id then holds exactly the priority and payload given, behind everything of its priority, and no other entry changes; a known id under the reject policy changes nothing |
| `QueueModel.DequeueAnswers` | packages/priority-queue/src/index.ts:135-142 | the answer is the id, priority and payload of the entry that every other follows, and that id alone leaves the queue |
| `QueueModel.UpdatePriorityAnswers` | packages/priority-queue/src/index.ts:164-182 | only that priority differs; payload, insertion number and the other entries stay |
| `QueueModel.RemoveAnswers` | packages/priority-queue/src/index.ts:188-196 | the id is gone, its priority and payload are the answer, the other entries stay |
| `QueueModel.DequeuingDrains` | packages/priority-queue/src/index.ts:135-142 | as many dequeues as there are entries answer every entry once, with its priority and payload, in the order of draining; then the queue is empty and answers nothing |
| `QueueModel.DrainSorted` | packages/priority-queue/src/index.ts:135-142 | draining lists every queued id exactly once, strictly increasing in (priority, insertion number) |
| `QueueModel.KeepsOrder` | packages/priority-queue/src/index.ts:156-162 | only an accepted enqueue gives an id a new insertion number: no update of priority, removal or refused enqueue does |
| `QueueModel.DrainIsFifo` | packages/priority-queue/src/index.ts:20-22 | of two ids enqueued or replaced one after the other, and not inserted again, the first comes out first exactly when its final priority is not greater, whatever priorities were updated and other operations run in between and after |
| `CircuitBreakers.CircuitBreaker.Execute` | packages/circuit-breaker/src/index.ts:170-206 | admission as one atomic step: refresh, refuse when open or when the half-open budget is spent, else admit with the current generation and, half-open, a new ticket |
| `CircuitBreakers.CircuitBreaker.Settle` | packages/circuit-breaker/src/index.ts:224-250 | what runs when an admitted operation ends: lifetime counter, generation-guarded transition, ticket removed |
| `CircuitBreakers.CircuitBreaker.RecordSuccess` | packages/circuit-breaker/src/index.ts:262-279 | success resets the failure count, or counts towards closing, for the admitting generation only |
| `CircuitBreakers.CircuitBreaker.RecordCountedFailure` | packages/circuit-breaker/src/index.ts:281-311 | counted failure reopens from half-open, or opens at the threshold, for the admitting generation only |
| `CircuitBreakers.CircuitBreaker.RefreshOpenState` | packages/circuit-breaker/src/index.ts:313-331 | open turns half-open exactly when the cooldown has passed on the reading taken |
| `CircuitBreakers.CircuitBreaker.CurrentGenerationProbeCount` | packages/circuit-breaker/src/index.ts:348-356 | the loop counts exactly the active tickets of this generation |
| `BreakerRuns.StepKeepsInv` | packages/circuit-breaker/src/index.ts:170-346 | every step of every interleaving keeps tickets, calls, counters and state consistent |
| `BreakerRuns.ProbeBudget` | packages/circuit-breaker/src/index.ts:182-202 | over all runs: half-open, successes plus current probes never exceed the limit; unsettled probes of all generations never exceed it; the ticket set is exactly the tickets of unsettled calls |
| `BreakerRuns.ProbesAreLive` | packages/circuit-breaker/src/index.ts:245-249 | no slot is leaked: every ticket belongs to a call that has not settled |
| `BreakerRuns.ClosesExactly` | packages/circuit-breaker/src/index.ts:262-279 | the breaker closes exactly on the step that makes as many successes in this cycle as the limit, with no counted failure among them and no other call of that generation in flight |
| `BreakerRuns.StaleIsInert` | packages/circuit-breaker/src/index.ts:262-284 | a result from an earlier generation changes only its lifetime counter and frees its own slot |
| `BreakerRuns.OpensExactly` | packages/circuit-breaker/src/index.ts:281-311 | from closed, a step opens the breaker exactly when the last failureThreshold decisive settlements of that generation were all counted failures |
| `BreakerRuns.CooldownBlocks` | packages/circuit-breaker/src/index.ts:313-338 | while every clock reading is less than cooldownMs after openedAt, no operation is admitted and the breaker stays open with the same anchor |
| `BreakerRuns.OpenExactlyUntil` | packages/circuit-breaker/src/index.ts:313-331 | over every run: an open breaker stays open, with its anchor and generation and admitting nothing, on exactly the readings less than cooldownMs after the anchor; any other reading starts a half-open cycle of the next generation |
| `BreakerRuns.AnchorIsTheOpening` | packages/circuit-breaker/src/index.ts:333-338 | over every run: the anchor is the clock reading of the settlement that opened the breaker, which has been open since |
| `BreakerRuns.ReopensExactly` | packages/circuit-breaker/src/index.ts:281-289 | half-open, a step opens the breaker exactly when it settles a call of this cycle as a counted failure |
| `BreakerRuns.AdmissionAnswers` | packages/circuit-breaker/src/index.ts:170-206 | over every run: which answer each arrival gets, by state, clock reading, free slots and the share of this cycle, and that exactly the admitted calls go live |
| `BreakerRuns.ReportedFailures` | packages/circuit-breaker/src/index.ts:208-222 | closed, the failures reported are those since the last success of the cycle; at opening they are exactly the threshold |
| `BreakerRuns.ReportedSuccesses` | packages/circuit-breaker/src/index.ts:208-222 | half-open, the successes reported are those of this cycle; otherwise there are none |
| `BreakerRuns.LifetimeCounters` | packages/circuit-breaker/src/index.ts:224-243 | over every run: each counter is the number of calls that ended so, refused and admitted calls add up to the arrivals, and admitted calls are unsettled or logged once |
| `BreakerRuns.AdmitsWhenIdle` | packages/circuit-breaker/src/index.ts:182-206 | half-open with no unsettled probe, the next call is admitted |
| `BreakerRuns.Recovers` | packages/circuit-breaker/src/index.ts:182-206 | from any reachable half-open state with nothing outstanding, exactly the missing number of successful probes, each admitted, closes the breaker |
| `Base32.DecodeBase32` | packages/stellar-utils/src/index.ts:53-80 | returns bytes exactly when the string is their unpadded base32 encoding, and nothing when no bytes encode to it |
| `Base32.DecodeBase32Unmasked` | packages/stellar-asset/src/index.ts:14-30 | with an accumulator that is never masked, the bytes are still exactly the leading whole octets of the symbol bits; fails exactly on a foreign character |
| `Base32.EncodesIffEncode` | packages/stellar-utils/src/index.ts:53-80 | the relation used for decoding is exactly "is the section 6 of RFC 4648 encoding of", with zero padding bits and minimal length |
| `Base32.DecodeStep` | packages/stellar-utils/src/index.ts:58-70 | one character keeps: symbol bits read so far = bytes out, then the pending bits |
| `Base32.DecodeDone` | packages/stellar-utils/src/index.ts:72-79 | the two final tests accept exactly the canonical encodings, and the bytes are unique |
| `Crc16.Crc16Xmodem` | packages/stellar-utils/src/index.ts:83-92 | the masked 32-bit loop computes the 16-bit register |
| `Crc16.Crc16XModemUnmasked` | packages/stellar-asset/src/index.ts:32-45 | the loop that masks only at the end computes the same checksum |
| `CrcDivision.CrcIsRemainder` | packages/stellar-utils/src/index.ts:82-92 | the checksum is the remainder, coefficient by coefficient, of the message times x^16 divided by x^16 + x^12 + x^5 + 1 |
| `CrcDivision.RemainderUnique` | packages/stellar-utils/src/index.ts:82-92 | there is only one remainder |
| `CrcDivision.CrcLinear` | packages/stellar-utils/src/index.ts:82-92 | the checksum of a bytewise exclusive or is that of the checksums, which only a register that starts at zero gives |
| `CrcDivision.CrcOfOne` | packages/stellar-utils/src/index.ts:87 | the checksum of the byte one is 0x1021 |
| `CrcDivision.OnlyChecksumChecks` | packages/stellar-utils/src/index.ts:82-92 | two bytes behind a message make the checksum zero exactly when they are its checksum, high byte first |
| `Crc16.BitStepInjective` | packages/stellar-utils/src/index.ts:86-89 | one shift of the register is one-to-one |
| `Crc16.TwoBytesInjective` | packages/stellar-utils/src/index.ts:83-92 | over any two adjacent bytes the register update is one-to-one in both bytes |
| `Crc16.AdjacentChangeDetected` | packages/stellar-utils/src/index.ts:83-92 | byte strings of one length that differ in at most two adjacent bytes have different checksums |
| `Crc16.LastNibbleChangeDetected` | packages/stellar-utils/src/index.ts:83-92 | a change in the low nibble of the last byte cannot be hidden by changing bit 7 of the checksum alone |
| `StellarAddress.ValidateStellarAddress` | packages/stellar-utils/src/index.ts:108-151 | gives the verdict, including which error code, that the trimmed input deserves |
| `StellarAddress.VerdictUnique` | packages/stellar-utils/src/index.ts:108-151 | no input deserves two verdicts |
| `StellarAddress.AcceptedIffAddressOfKey` | packages/stellar-utils/src/index.ts:108-151 | accepted are exactly the addresses spelled from 32-byte keys, and no two keys share one |
| `StellarAddress.AcceptedIffDivisible` | packages/stellar-utils/src/index.ts:108-151 | accepted is exactly what, trimmed, spells 35 bytes that start with 48 and whose polynomial, the last two bytes swapped, is a multiple of x^16 + x^12 + x^5 + 1 |
| `StellarAddress.UnsupportedIffDivisible` | packages/stellar-utils/src/index.ts:108-151 | refused as of an unsupported type is exactly what spells at least three bytes with such a checksum and another recognised version; refused as empty exactly what is blank |
| `StellarAddress.KnownVersions` | packages/stellar-utils/src/index.ts:21-34 | the recognised version bytes are eight times the alphabet positions of G, M, S, T, X, P, C, L and B |
| `Trimming.TrimIs` | packages/stellar-utils/src/index.ts:113 | trimming takes away white space at both ends, all of it and nothing else |
| `StellarAddress.SingleSubstitutionRejected` | packages/stellar-utils/src/index.ts:108-151 | replacing any one character of an accepted address by any other character makes it invalid |
| `StellarAddress.PayloadSubstituted` | packages/stellar-utils/src/index.ts:127-134 | a change among the characters of version and key is caught |
| `StellarAddress.ChecksumSubstituted` | packages/stellar-utils/src/index.ts:127-134 | a change among the characters of the checksum is caught |
| `StellarAddress.StraddleSubstituted` | packages/stellar-utils/src/index.ts:127-134 | a change of the one character that straddles key and low-byte-first checksum is caught |
| `StellarAddress.IsValidStellarAddress` | packages/stellar-asset/src/index.ts:50-68 | accepts exactly the strings the other package accepts as they stand |
| `StellarAddress.StartsWithG` | packages/stellar-asset/src/index.ts:50-53 | every account address has 56 characters and starts with G, so the early test loses none |
| `MerkleTrees.ComputeLevels` | packages/merkle-tree/src/index.ts:141-155 | each level pairs the one below left to right, a lone last node with itself, up to a single root |
| `MerkleTrees.TopIsRoot` | packages/merkle-tree/src/index.ts:189-191 | the top of the levels is the recursively defined root |
| `MerkleTrees.MerkleTree.Build` | packages/merkle-tree/src/index.ts:166-181 | an empty list is refused, and a pre-hashed leaf not of 32 bytes; otherwise the leaf hashes are, in order, the leaves as given when pre-hashed and the hashes of their bytes when not |
| `MerkleTrees.MerkleTree.GetProof` | packages/merkle-tree/src/index.ts:202-223 | the siblings on the way up, or an index error exactly out of range |
| `MerkleTrees.MerkleTree.Verify` | packages/merkle-tree/src/index.ts:231-255 | sizes are checked; then it accepts exactly when folding the proof from the leaf as given when pre-hashed, from the hash of its bytes when not, gives the root |
| `MerkleModel.ProofFoldsToRoot` | packages/merkle-tree/src/index.ts:202-223 | the proof of every leaf has ceil(log2 n) steps and verifies |
| `MerkleModel.FoldBinds` | packages/merkle-tree/src/index.ts:231-255 | two accepted proofs of one shape carry the same leaf and siblings, or a collision is returned |
| `MerkleModel.AcceptedIsAuthentic` | packages/merkle-tree/src/index.ts:231-255 | a proof of any length and sides that folds to the root carries the node its sides lead to, that many steps below the root, with the siblings of the tree; when longer than the tree is high its digest hashes down to a leaf; or a collision is returned |
| `MerkleModel.AuthenticIsAccepted` | packages/merkle-tree/src/index.ts:231-255 | and every such proof folds to the root |
| `MerkleModel.ProofLeads` | packages/merkle-tree/src/index.ts:202-223 | the sides of the proof of a position lead to that position and its hashes are the siblings there |
| `MerkleModel.AcceptedLeafIsTheLeaf` | packages/merkle-tree/src/index.ts:231-255 | the case of the length and sides of a position: that leaf and its siblings, or a collision is returned |
| `MerkleTrees.AcceptedBytesAreTheLeaf` | packages/merkle-tree/src/index.ts:231-255 | with the sides of a position, the bytes accepted are those of the leaf there, or two nodes collide, or the bytes of two leaves do |
| `MerkleTrees.AcceptedDigestIsTheLeaf` | packages/merkle-tree/src/index.ts:231-255 | the same for pre-hashed leaves: the digest there, or a collision |
| `MerkleTrees.OwnBytesAreAccepted` | packages/merkle-tree/src/index.ts:202-223 | the bytes of every leaf fold to the root with its own proof |
| `MerkleTrees.SmallRoots` | packages/merkle-tree/src/index.ts:141-155 | the roots of one, two and three leaves: left before right, a lone node with itself |
| `MerkleModel.RootBinds` | packages/merkle-tree/src/index.ts:141-155 | lists of one length with one root are equal, or a collision is returned |
| `MerkleModel.OddTailRepeats` | packages/merkle-tree/src/index.ts:141-155 | the length is needed: repeating the last leaf of an odd list leaves the root unchanged |
| `TaskPools.TaskPool.Turn` | packages/async-task-pool/src/index.ts:209-225 | a worker at its loop head leaves on cancellation or when the list is used up, else takes the next index and starts it |
| `TaskPools.TaskPool.Settle` | packages/async-task-pool/src/index.ts:141-172 | a settling task records its outcome unless one is there, frees its slot and stores the outcome in its place |
| `TaskPools.TaskPool.Timeout` | packages/async-task-pool/src/index.ts:130-139 | a timeout is recorded only if nothing was |
| `TaskPools.TaskPool.ObserveCancellation` | packages/async-task-pool/src/index.ts:187-198 | cancellation reaches exactly the running tasks, overriding no recorded outcome |
| `TaskPools.TaskPool.Finish` | packages/async-task-pool/src/index.ts:233-249 | fills the holes left by cancellation and returns one result per task in input order |
| `TaskPoolRuns.StepKeepsInv` | packages/async-task-pool/src/index.ts:93-255 | every step of every interleaving keeps workers, slots and results consistent |
| `TaskPoolRuns.ConcurrencyCeiling` | packages/async-task-pool/src/index.ts:228-230 | over all runs at most concurrency tasks are unsettled |
| `TaskPoolRuns.NoIdleWorkers` | packages/async-task-pool/src/index.ts:209-230 | over all runs: while tasks are left to start and no worker can take one, exactly min(concurrency, n) are running |
| `TaskPoolRuns.TimersRun` | packages/async-task-pool/src/index.ts:117-162 | over all runs: with a timeout configured a timer runs for exactly the running tasks without an outcome; without one no timer runs |
| `TaskPoolRuns.StartsInOrder` | packages/async-task-pool/src/index.ts:209-216 | tasks start in index order, each at most once, never after cancellation |
| `TaskPoolRuns.FirstTerminalWins` | packages/async-task-pool/src/index.ts:117-162 | from its first terminal event on, the outcome of a task is that event, whatever comes later |
| `TaskPoolRuns.ReturnedResults` | packages/async-task-pool/src/index.ts:233-249 | a returned list holds, in order, each started task's first terminal event and cancelled for each task never started |
| `TaskPoolRuns.ReturnedByFirstEnd` | packages/async-task-pool/src/index.ts:117-162 | in a returned list a task is fulfilled or rejected with the value of its promise, timed out with the configured time, or cancelled with the reason, by the first of these events that ended it |
| `TaskPoolRuns.AllSlotsFilled` | packages/async-task-pool/src/index.ts:244-249 | the error for a missing result is unreachable |
| `TaskPoolRuns.StepConsumes` | packages/async-task-pool/src/index.ts:175-255 | a measure falls on every step |
| `TaskPoolRuns.RunsEnd` | packages/async-task-pool/src/index.ts:175-255 | no run is longer than the initial measure, and a pool that has not returned can step or waits for a running task |
| `RoleInheritance.DetectCycle` | packages/permission-inheritance/src/index.ts:118-149 | a reported cycle is a real closed walk; otherwise what was visited is closed and cycle-free |
| `RoleInheritance.CheckGraphCycles` | packages/permission-inheritance/src/index.ts:154-161 | reports a cycle exactly when the graph has one |
| `RoleInheritance.ResolveRecursive` | packages/permission-inheritance/src/index.ts:250-310 | collects the permissions of exactly the newly reachable roles, each within maxDepth steps of the target; on an acyclic graph it fails only for a missing role or the depth limit, never for a cycle |
| `RoleInheritance.BuildInheritancePath` | packages/permission-inheritance/src/index.ts:222-245 | lists every role first met below, once each, all reachable, target first, depth-first: next comes always the first parent not listed yet of the latest role that has one |
| `RoleInheritance.ValidateRoles` | packages/permission-inheritance/src/index.ts:87-113 | succeeds exactly when there are not too many roles and no id is blank, and names the limit or a blank id otherwise |
| `RoleInheritance.Resolve` | packages/permission-inheritance/src/index.ts:166-217 | when it returns, permissions are exactly those of all reachable roles, and the path lists each reachable role once starting with the target, depth-first; every reachable role is within maxDepth steps; every error holds of the input: too many roles, a blank or absent id, a real cycle, a missing role or a long chain that is reachable; input of allowed size with a cycle is always refused for it |
| `RoleGraph.ExploredGrows` | packages/permission-inheritance/src/index.ts:118-149 | adding a node whose successors are all explored cannot complete a cycle |
| `RoleGraph.ClosedIsReachable` | packages/permission-inheritance/src/index.ts:250-310 | a closed set of reachable nodes around the target is the whole reachable set |
| `LeaseManagers.LeaseManager.Acquire` | packages/lease-manager/src/index.ts:347-394 | the table and verdict after acquire, including both lazy sweeps and the capacity test |
| `LeaseManagers.LeaseManager.Renew` | packages/lease-manager/src/index.ts:411-449 | extends only a valid lease of the presented token; a lapsed one is dropped |
| `LeaseManagers.LeaseManager.Release` | packages/lease-manager/src/index.ts:461-483 | removes only a valid lease of the presented token; a lapsed one is dropped |
| `LeaseManagers.LeaseManager.SweepExpired` | packages/lease-manager/src/index.ts:527-539 | removes exactly the lapsed leases and counts them |
| `LeaseRuns.AcquireByLive` | packages/lease-manager/src/index.ts:347-394 | the verdict of acquire depends only on the leases valid now, and the size stays within maxResources |
| `LeaseRuns.RenewByLive` | packages/lease-manager/src/index.ts:411-449 | renew succeeds exactly for the token of a lease valid now |
| `LeaseRuns.ReleaseByLive` | packages/lease-manager/src/index.ts:461-483 | release succeeds exactly for the token of a lease valid now |
| `LeaseRuns.CleanupInvisible` | packages/lease-manager/src/index.ts:347-539 | tables with the same valid leases answer every later call alike, whatever was swept before |
| `LeaseRuns.AcquireAnswers` | packages/lease-manager/src/index.ts:345-398 | which answer an acquisition gets, by the leases still running at the reading; a new lease runs from the reading for exactly the duration, and the others that run stay |
| `LeaseRuns.HolderAnswers` | packages/lease-manager/src/index.ts:345-483 | after an acquisition at start for a duration: until the end others find it busy, its token renews it from the reading on or frees it, other tokens do neither; from the end on it has lapsed |
| `LeaseRuns.AfterwardsAnswers` | packages/lease-manager/src/index.ts:411-483 | a renewed lease runs until exactly its new end; a released or lapsed one is not found any more and free |
| `LeaseRuns.StepKeepsInv` | packages/lease-manager/src/index.ts:347-539 | every step keeps grants disjoint, tokens distinct and the running grants held in the table |
| `LeaseRuns.MutualExclusion` | packages/lease-manager/src/index.ts:347-539 | over all runs with forward clock and fresh tokens, leases granted on one resource hold disjoint time intervals and the table never outgrows its cap |
| `LeaseRuns.StrangerChangesNothing` | packages/lease-manager/src/index.ts:411-483 | a token other than that of the lease valid now changes no valid lease |
| `LeaseRuns.OutlivedTokenChangesNothing` | packages/lease-manager/src/index.ts:411-483 | over every run, the token of a grant that has ended, was followed by another on that resource, or was made for another resource, changes no valid lease and no grant |
| `PayloadMigrations.PayloadMigrationRegistry.Register` | packages/payload-migrations/src/index.ts:87-121 | accepts exactly upward steps between versions not joined yet, and names the reason otherwise |
| `PayloadMigrations.PayloadMigrationRegistry.DetectCycles` | packages/payload-migrations/src/index.ts:229-265 | over registered steps the cycle error is unreachable |
| `PayloadMigrations.PayloadMigrationRegistry.Dfs` | packages/payload-migrations/src/index.ts:135-153 | appends, in order, every bounded path on from the current version and leaves visited set and path as they were |
| `PayloadMigrations.PayloadMigrationRegistry.FindPath` | packages/payload-migrations/src/index.ts:123-173 | a path exactly when one and only one path of at most maxPathLength steps exists; missing exactly when none; ambiguous, with all of them listed, exactly when several |
| `PayloadMigrations.PayloadMigrationRegistry.Migrate` | packages/payload-migrations/src/index.ts:175-223 | the fold of the only path's steps over the input, or the error of the search; a missing segment and a repeated step are unreachable |
| `PayloadMigrations.FoldIsComposition` | packages/payload-migrations/src/index.ts:175-223 | running the steps of a path gives each what the one before produced and returns the last |
| `PayloadMigrations.FoldStopsAtThrow` | packages/payload-migrations/src/index.ts:175-223 | the first step that throws is the failure reported |
| `MigrationGraph.PathsFromExact` | packages/payload-migrations/src/index.ts:135-153 | the search lists exactly the bounded paths to the target, none twice |
| `MigrationGraph.PathIffSteps` | packages/payload-migrations/src/index.ts:135-153 | a bounded path is what at least one and at most maxPathLength registered steps, each starting where the one before ended, pass |
| `PayloadMigrations.UniquePaths` | packages/payload-migrations/src/index.ts:267-280 | keeps the members, drops repeats, and returns a list without repeats unchanged |
| `VersionKeys.EdgeKeyInjective` | packages/payload-migrations/src/index.ts:100-106 | two edges share a text key only if they are one edge, negative versions included |
| `VersionKeys.PathKeyInjective` | packages/payload-migrations/src/index.ts:272-276 | two paths share a joined key only if they are one path |
| `DelegationGraph.EvaluateDelegationGraph` | packages/delegation-graph/src/index.ts:28-174 | returns exactly when there are not too many nodes, ids are distinct, nobody delegates to himself or twice differently, and every chain, taken in input order, ends or meets an earlier one within maxDepth steps; then there is no cycle, each mentioned id is reported once with exactly the weight of the chains ending there, delegators at zero, total weight conserved; every refusal is justified |
| `DelegationGraph.MapEdges` | packages/delegation-graph/src/index.ts:57-72 | accepts exactly edge lists without self-delegation or two different targets; repeated edges are ignored |
| `DelegationGraph.CycleScan.CheckCycleAndDepth` | packages/delegation-graph/src/index.ts:83-103 | a reported cycle is real, a depth error names a chain longer than the limit, and otherwise everything visited gets a height that falls along delegations |
| `DelegationGraph.CheckAll` | packages/delegation-graph/src/index.ts:83-110 | the scan succeeds exactly when every chain, in order, ends or meets an earlier one within maxDepth steps; then every delegation goes down in height |
| `DelegationModel.CycleReturns` | packages/delegation-graph/src/index.ts:83-103 | from everything a cycle leads to the chain comes back to it |
| `DelegationGraph.RootFinder.FindRoot` | packages/delegation-graph/src/index.ts:131-142 | the memoised search terminates and returns where plain walking ends |
| `DelegationGraph.GatherWeights` | packages/delegation-graph/src/index.ts:144-163 | each id ends with exactly the initial weight of the nodes whose chain ends there |
| `DelegationModel.RankedEnds` | packages/delegation-graph/src/index.ts:83-110 | with such heights every chain ends and no id lies on a cycle |
| `DelegationModel.ChainEndsOnce` | packages/delegation-graph/src/index.ts:131-142 | a chain has one end |
| `DelegationModel.WeightIsConserved` | packages/delegation-graph/src/index.ts:159-163 | sums over any list naming every root once add up to the total initial weight |
| `DelegationModel.DelegatorGathersNothing` | packages/delegation-graph/src/index.ts:159-163 | no chain ends at an id that delegates |
| `DelegationModel.NextIsEdge` | packages/delegation-graph/src/index.ts:97-100 | a delegation is followed exactly when it is an edge given and its target is not the empty id |
| `DelegationModel.EmptyTargetIsIgnored` | packages/delegation-graph/src/index.ts:97-100 | a concrete accepted edge that is not followed |
| `TimeWindows.MergeWindows` | packages/time-window/src/index.ts:115-143 | the sort and the mutating sweep compute the merge; output is sorted and disjoint; covered are the input instants and those of a clash |
| `TimeWindows.IsWithinWindows` | packages/time-window/src/index.ts:78-100 | any, all and the empty list, looking only as far as needed and refusing only a malformed window it looked at |
| `WindowModel.EdgeInstants` | packages/time-window/src/index.ts:60-80 | a window contains what lies between its ends, nothing beyond them, and each end exactly if it is inclusive |
| `WindowUnion.AbsorbExact` | packages/time-window/src/index.ts:128-137 | joining two overlapping or touching windows covers exactly both, but for one pair of empty windows |
| `WindowUnion.MergeExact` | packages/time-window/src/index.ts:115-143 | an instant is in a merged window exactly when it is in an input window, or an open-closed empty window precedes a closed-open one at that instant |
| `WindowUnion.UnionKeptIff` | packages/time-window/src/index.ts:109-143 | the union is kept exactly when every such clash lies inside some window |
| `WindowUnion.UnionKept` | packages/time-window/src/index.ts:109-143 | non-empty windows: an instant is covered after merging exactly when it was before |
| `WindowUnion.ClashWidens` | packages/time-window/src/index.ts:128-137 | a concrete clash: two windows that contain nothing merge to one that contains an instant |
| `WindowShape.MergeSeparated` | packages/time-window/src/index.ts:115-143 | merged windows are upward and pairwise disjoint, for all ordered input |
| `WindowShape.MaximalIff` | packages/time-window/src/index.ts:109-143 | for every input: no two output windows could be joined exactly when no window in sorted order includes its start where the sweep has cut; it cuts before a window that excludes its start when everything earlier ends by then, something ends there, and nothing includes that end |
| `WindowShape.MixedStartsMeet` | packages/time-window/src/index.ts:115-143 | three concrete windows whose merge leaves two that meet |
| `WindowOrder.MaximalIsUnique` | packages/time-window/src/index.ts:109-114 | a maximal list is determined by the instants it covers |
| `WindowOrder.ProperIsUnique` | packages/time-window/src/index.ts:109-143 | a list of disjoint windows is determined by its instants and the places where two of them meet |
| `WindowOrder.CutIffFirst` | packages/time-window/src/index.ts:109-143 | windows with an instant: the sweep cuts at a start exactly when nothing before covers it, something ends there, and the window that ends first there, or came first among those, excludes it |
| `WindowOrder.MergeAlikeIff` | packages/time-window/src/index.ts:109-143 | windows with an instant: two inputs merge alike exactly when they cover the same instants and the sweep splits them at the same places |
| `WindowOrder.SameInstantsSameMerge` | packages/time-window/src/index.ts:109-143 | with equal starts opening alike, the output depends only on the covered instants |
| `WindowOrder.InputOrderIsIrrelevantIff` | packages/time-window/src/index.ts:109-143 | windows with an instant: every order of the input merges alike exactly when, at each start that everything before stops short of, the windows that end first include or exclude the start alike |
| `WindowOrder.InputOrderMayMatter` | packages/time-window/src/index.ts:109-143 | three concrete windows whose merge depends on the order of two of them |
| `WindowOrder.MergingAgainChangesNothingIff` | packages/time-window/src/index.ts:109-143 | for every input: merging the output again changes nothing exactly when no two output windows could be joined |
| `Framing.FrameInjective` | packages/audit-chain/src/chain.ts:73-83 | length-prefixed parts joined by bars determine the list of parts, whatever the parts contain |
| `Framing.FrameWellFormed` | packages/audit-chain/src/chain.ts:73-91 | replacing lone surrogates, as encoding to UTF-8 does, goes through the frame part by part |
| `ChainModel.DigestedIff` | packages/audit-chain/src/chain.ts:73-91 | two events are digested from one text exactly when predecessor, id, sequence, timestamp and payload agree, ids and timestamps up to lone surrogates |
| `ChainModel.PreimageSpelled` | packages/audit-chain/src/chain.ts:73-83 | the text digested is the domain, the previous hash, id, sequence, timestamp and payload text in this order, framed, with bars between |
| `ChainModel.PartSpelled` | packages/audit-chain/src/chain.ts:29-82 | a part is framed by its length in decimal and a colon |
| `ChainModel.DomainText` | packages/audit-chain/src/chain.ts:29 | the domain is guildpass.audit-chain.v1 |
| `ChainModel.LoneSurrogatesMerge` | packages/audit-chain/src/chain.ts:89-91 | two ids that differ in a lone surrogate have one fingerprint under every hash function |
| `ChainModel.LastEventsAgree` | packages/audit-chain/src/chain.ts:137-181 | equal last fingerprints: same last event on the same predecessor, or a collision among these events |
| `ChainModel.LastHashBindsHistory` | packages/audit-chain/src/chain.ts:137-181 | two non-empty verified chains with one last fingerprint agree on every envelope, or contain a collision or an event hashing to the genesis value |
| `ChainModel.SameHistorySameHashes` | packages/audit-chain/src/chain.ts:115-124 | verified chains with the same history have the same fingerprints |
| `AuditChain.BuildChain` | packages/audit-chain/src/chain.ts:115-124 | chains every event in order, each anchored to the hash before it; the result verifies exactly when the sequence numbers are consecutive |
| `AuditChain.AnchoredMeans` | packages/audit-chain/src/chain.ts:98-124 | an anchored event records the hash before it, or 64 zeros, and the hash of its preimage |
| `AuditChain.VerifyChain` | packages/audit-chain/src/chain.ts:137-181 | valid exactly for valid chains; otherwise the first failing index with the first check that fails there: predecessor, then sequence, then hash |
| `JsonStrings.QuoteInjective` | packages/audit-chain/src/canonical.ts:50-51 | a quoted string (section 7 of RFC 8259) ends where it seems to and determines the string, unit by unit |
| `JsonStrings.UnescapeEscape` | packages/audit-chain/src/canonical.ts:47-52 | reading an escaped string by section 7 of RFC 8259 gives the string back |
| `JsonStrings.PlainStays` | packages/audit-chain/src/canonical.ts:47-52 | what need not be escaped is not |
| `JsonStrings.SurrogatesEscaped` | packages/audit-chain/src/canonical.ts:47-52 | a surrogate on its own is escaped by its number, a pair is kept, everything else is escaped unit by unit |
| `JsonTexts.ConstantsSpelled` | packages/audit-chain/src/canonical.ts:40-100 | null, true, false and empty lists and records have the texts JSON gives them |
| `JsonTexts.ObjectSpelled` | packages/audit-chain/src/canonical.ts:84-100 | members are quoted key, colon and value, with commas between and braces around |
| `JsonTexts.TextInjective` | packages/audit-chain/src/canonical.ts:46-101 | a canonical text followed by a delimiter determines its normal form and where it ends |
| `JsonTexts.NormalTextInjective` | packages/audit-chain/src/canonical.ts:112-114 | equal text implies equal normal form |
| `Payloads.InsertionOrderIsIrrelevant` | packages/audit-chain/src/canonical.ts:86-97 | reordering the properties of records, or adding and removing undefined ones, does not change what a payload denotes |
| `Payloads.SameTextIffSameMeaning` | packages/audit-chain/src/canonical.ts:103-114 | two payloads have one text exactly when they denote one normal form |
| `Payloads.DenotesOne` | packages/audit-chain/src/canonical.ts:46-101 | a payload denotes at most one normal form |
| `Payloads.SortedOnce` | packages/audit-chain/src/canonical.ts:86-89 | properties with distinct keys sort by code unit in one way only |
| `Payloads.FirstDifferenceDecides` | packages/audit-chain/src/canonical.ts:84-86 | keys are ordered by their first differing code unit, and a key precedes its extensions |
| `Payloads.RecordAscends` | packages/audit-chain/src/canonical.ts:84-100 | the entries of an encoded record ascend strictly in that order |
| `Payloads.EntryOfProperty` | packages/audit-chain/src/canonical.ts:84-100 | every property that is not undefined has an entry with its key and what its value denotes |
| `Payloads.PropertyOfEntry` | packages/audit-chain/src/canonical.ts:84-100 | every entry is such a property |
| `Payloads.PrimitiveTexts` | packages/audit-chain/src/canonical.ts:36-82 | the texts of null, booleans, numbers, minus zero, strings and dates, and that nothing else but objects has one |
| `PayloadHoles.HolesBecomeNullIff` | packages/audit-chain/src/canonical.ts:72-78 | a payload has the text it would have with undefined, which becomes null, in every hole, exactly when it leads through filled slots and properties to no array with a hole |
| `PayloadHoles.PluggedDenotableIff` | packages/audit-chain/src/canonical.ts:72-78 | a payload can be encoded exactly when it can with its holes so filled |
| `Payloads.LoneHoleIsLost` | packages/audit-chain/src/canonical.ts:72-78 | a concrete array of one hole that reads as the empty array |
| `Canonicalization.Encode` | packages/audit-chain/src/canonical.ts:46-101 | the walk over the object graph returns the text of what the value denotes, fails exactly when it denotes nothing, and restores the set of objects it is inside of; each kind of failure has its cause in the graph: a loop, an invalid date, an unsupported value |
| `Canonicalization.Canonicalize` | packages/audit-chain/src/canonical.ts:112-114 | succeeds exactly for payloads with a normal form, with its text |
| `CanonicalBytes.NormalTextWellFormed` | packages/audit-chain/src/canonical.ts:50-51 | canonical text has no lone surrogates, so its encoding loses nothing |
| `BooleanRules.ReasonsSuffice` | packages/permission-expression/src/index.ts:277-343 | where another side agrees on the listed leaves, the verdict is the same |
| `BooleanRules.ReasonsOfMembers` | packages/permission-expression/src/index.ts:277-343 | which members of a list are asked for leaves, and in which order: the failing ones for the denial of an all, the passing ones for a pass of an any, otherwise every one |
| `BooleanRules.UndoingUndoes` | packages/permission-expression/src/index.ts:277-343 | where the listed leaves change and every change goes against the verdict, the verdict is undone, and one already undone stays so; no all or any may be empty |
| `BooleanRules.FlippingReasonsFlips` | packages/permission-expression/src/index.ts:277-343 | flipping exactly the listed leaves turns the verdict around when no leaf stands under both an even and an odd number of nots and no all or any is empty |
| `RuleInput.SizeLaws` | packages/permission-expression/src/index.ts:105-195 | what the limits count: a node is one deeper than its deepest child, and every node counts once |
| `RuleInput.ParseNode` | packages/permission-expression/src/index.ts:105-195 | accepts exactly well-formed input within both limits, with the rule it describes; a limit error means that limit is exceeded, any other that some node has that fault |
| `RuleInput.Parse` | packages/eligibility-rules/src/index.ts:162-231 | succeeds exactly on well-formed input within both limits, and is refused only for a fault the input has |
| `RuleInput.JustifiedRefuses` | packages/eligibility-rules/src/index.ts:170-382 | what parses has no fault to be refused for |
| `RuleInput.ParsedMeans` | packages/permission-expression/src/index.ts:252-275 | said of the input: an all holds when every member does, an any when one does, a not when its child does not, a leaf when its test does |
| `PermissionExpression.ReasonsNodeIsFalse` | packages/permission-expression/src/index.ts:278-310 | the collecting loops give the specified leaves of a denial |
| `PermissionExpression.ReasonsNodeIsTrue` | packages/permission-expression/src/index.ts:313-343 | the collecting loops give the specified leaves of a grant |
| `PermissionExpression.PermissionMeans` | packages/permission-expression/src/index.ts:148-158 | a permission node is accepted exactly with a non-empty value, and holds exactly when that is granted |
| `PermissionExpression.DeniedLeavesSuffice` | packages/permission-expression/src/index.ts:277-310 | any grant set that agrees on the denied leaves is denied too |
| `PermissionExpression.FlippingDeniedLeavesGrants` | packages/permission-expression/src/index.ts:277-343 | granting and revoking exactly the denied leaves turns the denial into a grant when no permission is both required and forbidden and no all or any is empty |
| `PermissionExpression.FlippingMayFail` | packages/permission-expression/src/index.ts:277-343 | concrete expressions with a permission both required and forbidden and with an empty all for which it does not |
| `PermissionExpression.EvaluatePermissionExpression` | packages/permission-expression/src/index.ts:236-250 | input is refused or evaluated as described; explained denials carry leaves that certify them |
| `EligibilityRules.ResolveFact` | packages/eligibility-rules/src/index.ts:391-412 | the segment walk finds exactly what recursive lookup finds |
| `EligibilityRules.SplitDotsJoins` | packages/eligibility-rules/src/index.ts:395 | the segments of a field contain no dot and, joined by dots, are the field |
| `EligibilityRules.LookupFollows` | packages/eligibility-rules/src/index.ts:391-412 | what is found is where the chain of properties leads that the segments name; nothing is found exactly when there is no such chain |
| `EligibilityRules.FaultsNamed` | packages/eligibility-rules/src/index.ts:239-325 | which fault of a node each refusal names |
| `EligibilityRules.RangeMeans` | packages/eligibility-rules/src/index.ts:507-520 | a bound holds exactly when the field has a number on its side, the bound itself and the infinity there included |
| `EligibilityRules.FieldMeans` | packages/eligibility-rules/src/index.ts:486-512 | equals, exists and in, in terms of the value found |
| `EligibilityRules.CollectDenials` | packages/eligibility-rules/src/index.ts:544-620 | the guarded collecting loops give the specified tests of a denial |
| `EligibilityRules.CollectTruths` | packages/eligibility-rules/src/index.ts:626-706 | the guarded collecting loops give the specified tests of a pass |
| `EligibilityRules.DenialFieldsSuffice` | packages/eligibility-rules/src/index.ts:544-620 | any facts with the same values in the denial fields are denied too |
| `EligibilityRules.EvaluateEligibilityRule` | packages/eligibility-rules/src/index.ts:464-480 | raw input is validated and then evaluated; exactly the explained denials carry reasons, and those certify the denial |
| `EligibilityRules.ExistsAgreesIff` | packages/eligibility-rules/src/index.ts:494-497 | exists means "not undefined", as the comment at line 23 has it, exactly when the field is not there with an undefined value |
| `EligibilityRules.UndefinedExists` | packages/eligibility-rules/src/index.ts:494-497 | a concrete property present with an undefined value that exists |
| `Idempotency.InMemoryIdempotencyStore.AcquireKey` | packages/idempotency/src/index.ts:65-94 | acquires a free or lapsed key; otherwise conflict, completed or in flight by the record |
| `Idempotency.InMemoryIdempotencyStore.CompleteKey` | packages/idempotency/src/index.ts:96-113 | completes only the record of that fingerprint |
| `Idempotency.InMemoryIdempotencyStore.ReleaseKey` | packages/idempotency/src/index.ts:115-120 | removes only a processing record of that fingerprint |
| `IdempotencyModel.AcquiredUntilExpiry` | packages/idempotency/src/index.ts:65-94 | a record acquired with a time to live answers in flight, or a conflict, before its expiry, and is acquired anew from it on |
| `IdempotencyModel.CompletedUntilExpiry` | packages/idempotency/src/index.ts:65-113 | a completed record answers its result, or a conflict, before its expiry, and is acquired anew from it on |
| `IdempotencyModel.ReleasedIsFree` | packages/idempotency/src/index.ts:115-120 | a released key can be acquired by anyone; completing or releasing another fingerprint changes nothing |
| `Idempotency.IdempotencyEngine.AfterAcquireResult` | packages/idempotency/src/index.ts:210-276 | the section after acquire: conflict, replay, run with a new promise, wait, or in flight |
| `Idempotency.IdempotencyEngine.AfterComplete` | packages/idempotency/src/index.ts:241-253 | resolves the promise, forgets the one in flight for the key and returns |
| `Idempotency.IdempotencyEngine.AfterWait` | packages/idempotency/src/index.ts:256-269 | replays a resolved promise, or starts over without waiting |
| `IdempotencyRuns.StepKeepsInv` | packages/idempotency/src/index.ts:182-276 | every step of every interleaving keeps: one owner per processing record, results only as recorded, promises matching their calls |
| `IdempotencyRuns.RunsNeverOverlap` | packages/idempotency/src/index.ts:225-254 | runs of fn for one key never overlap |
| `IdempotencyRuns.AtMostOneSuccess` | packages/idempotency/src/index.ts:225-254 | over every run without time to live, fn succeeds at most once per key |
| `IdempotencyRuns.NothingRunsAfterSuccess` | packages/idempotency/src/index.ts:65-94 | after a success fn is never running again for that key |
| `IdempotencyRuns.ReplaysCarryTheSuccess` | packages/idempotency/src/index.ts:217-269 | every executed or replayed result for a key is that of its one success |
| `IdempotencyRuns.RetriesAreReplayed` | packages/idempotency/src/index.ts:205-223 | over every run: a call begun after a success is answered, when it goes on, with the result if it has the fingerprint of the success, and with a conflict otherwise |
| `IdempotencyRuns.OwnOutcomeIsAnswered` | packages/idempotency/src/index.ts:225-254 | over every run: a call whose fn resolves is answered with that result; one whose fn rejects fails and leaves the key free |
| `IdempotencyRuns.WaitersAreReplayed` | packages/idempotency/src/index.ts:256-269 | over every run: a call that waits for another is answered with its result |
| `IdempotencyRuns.NeverStuck` | packages/idempotency/src/index.ts:225-269 | while a call is not done, some fn is running or some call can go on |
| `IdempotencyRuns.ExecutionsEnd` | packages/idempotency/src/index.ts:182-276 | no execution takes more than six steps |
| `IdempotencyRuns.ReplaysAcrossFingerprintsIff` | packages/idempotency/src/index.ts:256-269 | in any run, a call that carries a result has another fingerprint than the record of its key if and only if it took the result from the promise of a call with another fingerprint than its own |
| `IdempotencyRuns.OwnFingerprintUnlessRejectedMeanwhile` | packages/idempotency/src/index.ts:256-269 | and that cannot be unless an fn of the same key is rejected after the call found it in flight and before it starts to wait |
| `IdempotencyRuns.FingerprintsAgreeUnlessRejected` | packages/idempotency/src/index.ts:65-94 | unless an fn of that key is rejected, only calls with the fingerprint of its record are let in |
| `IdempotencyRuns.RejectionMayCrossFingerprints` | packages/idempotency/src/index.ts:256-269 | a concrete interleaving after a rejection in which a waiting call is handed the result of a call with another fingerprint |
| `ExactAmount.RoundTrip` | packages/exact-amount/src/index.ts:26-82 | parsing undoes formatting for every integer and every precision; both are refused exactly outside 0 to 255 decimals |
| `ExactAmount.ParseIsExact` | packages/exact-amount/src/index.ts:26-51 | an accepted string is taken to exactly its amount times ten to the decimals; every other string is refused |
| `ExactAmount.PrecisionRefused` | packages/exact-amount/src/index.ts:26-60 | parsing and formatting are refused for their precision exactly outside 0 to 255 decimals |
| `ExactAmount.FormatAlikeIffSameAmount` | packages/exact-amount/src/index.ts:53-82 | two accepted strings format alike exactly when they denote the same amount |
| `ExactAmount.PrintedIsCanonical` | packages/exact-amount/src/index.ts:53-82 | what is printed has no leading zeros, no trailing fractional zeros and no minus zero |
| `Decimal.TextSpelled` | packages/exact-amount/src/index.ts:53-82 | the digits 0 to 9, tens before units, a minus sign in front |
| `ExactAmount.MatchIff` | packages/exact-amount/src/index.ts:33-40 | the hand-written match accepts exactly the strings written from sign, digits and optional fraction, uniquely |

## Left out

- JavaScript runtime validation (types, NaN, invalid dates, frozen objects, clocks that are not finite): inputs have the types of the model.
- The RangeError for a priority that is not an integer: priorities are integers.
- Heaps of more than 2^31 nodes, where the 32-bit shift in `parentOf` wraps.
- Error message texts, the `path` of canonicalization and expression errors, and the denial texts of eligibility rules.
- SHA-256, HMAC, random tokens and constant-time comparison: a hash is any function, a fresh token is one not issued before, equality is equality.
- UTF-8 byte layout: a digest is taken of the text after lone surrogates are replaced, since encoding is one-to-one on such text.
- How JavaScript prints a number: a finite number stands for its text; sequence numbers are exact integers with plain decimal text.
- Real timers, microtask order and AbortSignal plumbing: settlements, timeouts and aborts are steps in any order. With the in-memory store, microtask order may exclude the interleaving of `IdempotencyRuns.RejectionMayCrossFingerprints`; with another store nothing does.
- A classifier or clock that calls back into the circuit breaker while it is consulted.
- A time to live in executions: the store has it, the runs do not, since an expired record may be acquired again. Also left out are `get` and `clearExpired` of the store, custom stores that fail, and validation and hashing of keys and fingerprints.
- Results of delegation come in some order, not in that of localeCompare; permissions of a role are a set, not a sorted list.
- Exactly which role graphs the depth limit of role inheritance rejects: visited roles stop the walk, so it depends on visiting order. Stated is that on return every role is within the limit by some chain, and that a refusal has a longer chain.
- Objects that inherit enumerable properties, have symbol keys or a `toJSON` method: a record is its own string-keyed properties. A fact object maps every property it has or inherits.
- Cyclic untrusted expressions: input is a tree.
- The sorting algorithms of the library: stable insertion, whose result is the stable sort.
- Renewal and release with a blank resource or token, option normalisation, snapshots as frozen copies, `resolveMultiple`, `parseAsset`, `formatAsset`, `assertStellarAddress`.
- apps/api, Prisma, configuration and the other packages: easier relatives of what is modelled, or I/O.
- PermissionExpression.FlippingDeniedLeavesGrants: not for expressions that both require and forbid a permission or have an empty all or any, because there it can be false (`PermissionExpression.FlippingMayFail`); no exact condition on those is given.
- WindowOrder.InputOrderIsIrrelevantIff: for windows that contain an instant; half-open windows of no length may depend on order in further ways (`WindowUnion.ClashWidens`).
- WindowOrder.SameInstantsSameMerge: for windows that contain an instant and whose equal starts open alike; a window without instants is kept though it covers nothing, and otherwise `WindowOrder.MergeAlikeIff` says what more the output depends on.
- WindowOrder.MergeAlikeIff, WindowOrder.CutIffFirst: for windows that contain an instant.
