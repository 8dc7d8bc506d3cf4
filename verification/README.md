# A verified model of UDPLB

UDPLB is a session-aware UDP load balancer: an XDP program forwards the packets of a session to one backend, and a
Go control plane keeps the backend list, the lookup table and the session map of that program up to date.  This
project models the parts of it that carry its guarantees and proves those guarantees in Dafny 4.11.
`dafny verify dfyconfig.toml` checks everything.

| files | what they model |
|---|---|
| `ReverseTable`, `ReverseTableProperties`, `ReverseTableQuota`, `ReverseTableReach`, `ReverseTableExample` | the production lookup-table builder, its balance, what it leaves to the map iteration order, its wrapping 32-bit quotas, which slots it reaches, and builds worked out |
| `Primes` | the two lists of primes hold primes |
| `Probing`, `ProbingBuilders`, `ProbingFairness`, `ProbingExample` | the two probing builders: termination, exact slot counts, where the slots are, and a table worked out |
| `RoundRobin` | the Fibonacci builder and the round-robin builder |
| `Controller`, `ControllerLoops` | the control plane: backends, sessions, recomputes, and session affinity over runs |
| `Checksum`, `KernelPath`, `KernelProperties`, `Frames` | the XDP program on frames of bytes: header checksum, data-path affinity, termination of forwarding, and what becomes of every frame in terms of its header fields |
| `Coherence` | control plane and XDP program as one transition system |
| `RingBuffer`, `RingTokens`, `Histories` | the overwriting ring buffer, as a data structure and under any interleaving |
| `WorkerPool`, `Manager` | the worker pool, and the request and reply protocol of the data structure manager |
| `BoundedLog`, `WatcherMux`, `Wal`, `WalService`, `Dvds` | the pipeline from a proposal through the write-ahead log to the replicated map |
| `Basics` | 32-bit words, options, a little arithmetic |

Loops of the source are methods with invariants, proved equal to specification functions; objects that the source
updates in place are classes; concurrent code is a state machine (`Enabled`, `Apply` or `Next`, `Legal`, `Exec`) whose
runs are arbitrary interleavings of atomic steps.

Assumptions about code outside the repository:

- `SetAndDeferSwitchover` writes only the copy of a structure that the kernel does not read, and the closures it
  returns make the new copies the active ones (`Manager`, `Coherence`).
- A packet sees one value of the active pointer, as the transition window is accepted by `DESIGN.md`.
- `bpf_csum_diff` is the 32-bit ones-complement sum; an array map lookup fails exactly when the index is out of range;
  an insert into the session map or a ring buffer reservation may fail at any time.
- The host is little-endian, and `char` is signed where the session hash reads bytes.
- Encoding a map as JSON and decoding it gives the same keys and values.

Where the code and its documentation disagree, the model follows the code:

- `DESIGN.md:51` promises identical tables on nodes with identical backends.  The residue is dealt out in map
  iteration order, so this holds exactly under the condition of `IdenticalTablesIff`; `TablesDiffer` has two backends
  and seven slots for which it fails, `QuotasUsedUp` two for which it holds.
- `DESIGN.md:50` promises that removing a backend displaces less than one N-th of the sessions.  In terms of slots this
  fails on every input: `RemovalBoundFails` finds, for any backends, table size and iteration orders, a backend whose
  removal moves at least one N-th of the table.  `RemovalMovesFive` has two backends of which one moves five slots of
  seven.
- The fair share of the production builder can be exceeded, and a quota wraps then.  `BuildSolventIff` gives the exact
  condition for a build, `QuotaWraps` two backends and seven slots for which it fails.
- Session affinity is lost when a backend listed earlier goes down and comes back (`AffinityLost`), because remapped
  sessions are stored as indices into the filtered list and read as indices into the full one; `AffinityIff` is the
  exact condition.
- `README.md:89` says that existing sessions of an unschedulable backend continue; `filterAvailable` drops them
  (`RecomputeKeepsIff`).
- `README.md:78` and `DESIGN.md:115` say that the session map is keyed by the hash; the program keys it by the full
  session id.
- The comment on the packet prefix lists the bytes 55 55 49 44; the comparison of a 32-bit value on a little-endian
  host asks for 44 49 55 55 (`PrefixBytes`).
- The comment in `internal/util/ringbuffer.go:98` says that dereferencing is always safe; `NextIsSafeIff` gives the exact
  condition and `NilDereference` a run in which it is not.
- The worker pool's promise to drain needs a worker or an unbuffered queue (`DrainsIff`).
- The Fibonacci builder never leaves the first Fibonacci number, so it is a round robin.

## Model

| member | source | states |
|---|---|---|
| `ReverseTable.NextPrime` | internal/adapter/rlt/rlt.go:135-150 | the scan yields a smaller prime, at least 2, so the rounds end; there is none exactly when the current one is at most 2 |
| `ReverseTable.NextPrimeIsLargest` | internal/adapter/rlt/rlt.go:143-148 | it is the largest listed prime below the current one |
| `ReverseTable.RoundPrimesAre` | internal/adapter/rlt/rlt.go:135-150 | going from prime to prime the rounds use the table size and every listed prime below it, and no other |
| `ReverseTable.RoundPrimesDescend` | internal/adapter/rlt/rlt.go:116-119 | one after the other in descending order |
| `ReverseTable.EarlyExitIsIdle` | internal/adapter/rlt/rlt.go:116-119 | the early exit saves work and nothing else: the rounds equal one round for each of these primes |
| `Primes.BuilderPrimes` | internal/adapter/rlt/rlt.go:135-150 | every number the scan can return is prime |
| `ReverseTable.Targets` | internal/adapter/rlt/rlt.go:101-104 | every slot a coordinate leads to is inside the table, so the 32-bit index product never wraps |
| `ReverseTable.ClaimSlot` | internal/adapter/rlt/rlt.go:105-111 | claiming keeps the array, the unset set and the quota map in step with the claims: unset is exactly the free slots |
| `ReverseTable.ClaimMultiples` | internal/adapter/rlt/rlt.go:103-112 | the loop over the multiples visits exactly the specified slots in order |
| `ReverseTable.ClaimCoordinate` | internal/adapter/rlt/rlt.go:97-112 | the quota test applies once per coordinate, not per slot |
| `ReverseTable.ClaimRound` | internal/adapter/rlt/rlt.go:94-114 | one round over all backends equals the specified round |
| `ReverseTable.RoundsExtends` | internal/adapter/rlt/rlt.go:92-119 | over all rounds no claimed slot is ever claimed again, and held slots plus quota stay constant modulo 2^32 for every backend |
| `ReverseTable.ClaimRounds` | internal/adapter/rlt/rlt.go:90-119 | the outer loop terminates and equals the recursion over decreasing primes, with the same early exit |
| `ReverseTable.NotSpent` | internal/adapter/rlt/rlt.go:152-159 | the scan over the quota map says whether some wrapped quota is not zero |
| `ReverseTable.Initialise` | internal/adapter/rlt/rlt.go:71-83 | at the start every slot is unset and every quota is the fair share |
| `ReverseTable.DealtFormula` | internal/adapter/rlt/rlt.go:122-129 | the restarting counter is the position modulo the number of backends |
| `ReverseTable.FillResidue` | internal/adapter/rlt/rlt.go:121-130 | for whatever iteration order, every residue slot is written once, with the backend its position in that order gives |
| `ReverseTable.ReverseCoordinatesLookupTable` | internal/adapter/rlt/rlt.go:65-133 | the builder returns the specified table for some order of the residue, on every number of backends including none and every size |
| `ReverseTableProperties.ClaimsAccounted` | internal/adapter/rlt/rlt.go:80-113 | slots claimed plus quota left equal the fair share modulo 2^32, however often the quota wrapped |
| `ReverseTableProperties.ClaimsPartition` | internal/adapter/rlt/rlt.go:75-113 | every slot is free or owned by one listed backend |
| `ReverseTableProperties.SlotsAddUp` | internal/adapter/rlt/rlt.go:75-113 | slots held by all backends plus the residue are the whole table |
| `ReverseTableProperties.SpentMeansFair` | internal/adapter/rlt/rlt.go:116-119 | if the rounds stop because all wrapped quotas read zero, every backend claimed exactly m/n slots and m%n are left, even if quotas wrapped on the way |
| `ReverseTableProperties.TableCounts` | internal/adapter/rlt/rlt.go:92-133 | in every finished table each backend has its claims, an even share of the residue, and one more for the first backends |
| `ReverseTableProperties.PerfectBalance` | internal/adapter/rlt/rlt.go:80-133 | with the quotas used up backend c holds exactly m/n slots, one more if c is below m%n |
| `ReverseTableProperties.TableInRange` | internal/adapter/rlt/rlt.go:109-130 | every entry is the index of a backend |
| `ReverseTableProperties.OrderIndependence` | internal/adapter/rlt/rlt.go:92-130 | any two iteration orders agree on every claimed slot and give every backend the same number of slots |
| `ReverseTableProperties.IdenticalTablesIff` | DESIGN.md:51 | two nodes are sure to build the same table if and only if there is one backend or the residue has at most one slot |
| `ReverseTableProperties.IdenticalWhenSpentIff` | DESIGN.md:51 | with the quotas used up, if and only if there is one backend or m%n is at most 1 |
| `ReverseTableProperties.RemovalBoundFails` | DESIGN.md:50 | the promised bound fails on every input: for any orders before and after there is a backend whose removal moves at least one n-th of the slots |
| `ReverseTableProperties.ClaimsJustified` | internal/adapter/rlt/rlt.go:92-114 | every claimed slot is a multiple of one of its owner's coordinates modulo the table size or a listed prime |
| `ReverseTableReach.LeftoverOutOfReach` | internal/adapter/rlt/rlt.go:92-119 | conversely, a slot still free when the rounds stop is one that no coordinate of any backend with quota left leads to, at the table size or at any listed prime below it |
| `ReverseTableQuota.TouchAllGains` | internal/adapter/rlt/rlt.go:103-112 | visiting the targets of a coordinate gains exactly the distinct free ones |
| `ReverseTableQuota.OverspendsIff` | internal/adapter/rlt/rlt.go:97-112 | a coordinate visited with quota left overspends if and only if it leads to more distinct free slots than there is quota |
| `ReverseTableQuota.OverspentStays` | internal/adapter/rlt/rlt.go:92-114 | claims are never given back, so a backend over its share stays over it |
| `ReverseTableQuota.BuildSolventIff` | internal/adapter/rlt/rlt.go:80-119 | over a whole build no backend exceeds its fair share and no quota wraps if and only if every coordinate visited with quota left leads to at most that many distinct free slots |
| `ReverseTableQuota.SingleVisitsStaySolvent` | internal/adapter/rlt/rlt.go:92-114 | no quota is exceeded in a round in which m/prime is 1 |
| `ReverseTableExample.QuotaWraps` | internal/adapter/rlt/rlt.go:97-112 | a build for two backends with different ids and seven slots in which one claims four slots instead of three and its quota wraps to 2^32 - 1 |
| `ReverseTableExample.TablesDiffer` | DESIGN.md:51 | two nodes with these backends can build different tables |
| `ReverseTableExample.RemovalMovesFive` | DESIGN.md:50 | whatever the orders, removing the first of these backends moves five of the seven slots |
| `ReverseTableExample.QuotasUsedUp` | internal/adapter/rlt/rlt.go:116-119 | a build for two other backends in which the quotas are used up, so that every node builds the same table |
| `Probing.Search` | internal/adapter/rlt/rlt.go:342-354 | the wrap-around search ends at the first empty slot after the last one whenever the table is not full |
| `Probing.AllTaken` | internal/adapter/rlt/rlt.go:344-354 | a full turn without an empty slot means that all m slots are taken |
| `Probing.RoundsGrow` | internal/adapter/rlt/rlt.go:233-270 | whatever numbers of turns the rounds ask for, a backend gains exactly one slot per turn and nobody loses one |
| `Probing.HomeSlots` | internal/adapter/rlt/rlt.go:323-331 | after the homes are filled a backend holds its home slot, unless a later one has the same home, and then nothing |
| `Probing.PatchSlots` | internal/adapter/rlt/rlt.go:362-376 | the patching adds one slot to each of the first backends and takes none away |
| `Probing.PatchAt` | internal/adapter/rlt/rlt.go:362-376 | the r-th hole among the slots looked at goes to backend r while r is below the remainder; with remainder 0 the bound wraps and every such hole is filled; nothing else changes |
| `Probing.OutputCount` | internal/adapter/rlt/rlt.go:378-384 | for every backend but 0 the output has as many entries as the table has slots of it |
| `ProbingBuilders.TakeTurn` | internal/adapter/rlt/rlt.go:342-357 | a turn takes the first empty slot after the last one the backend took, around the table, and makes it the last one |
| `Probing.TurnExtendsArc` | internal/adapter/rlt/rlt.go:342-357 | that slot is also the first empty one from the home of the backend on, and the walk there never comes back past the home |
| `ProbingFairness.PlacementCompact` | internal/adapter/rlt/rlt.go:222-270 | after the placement of either builder every slot a backend got lies between its home and the last slot it took, around the table, and no slot on that way is empty |
| `ProbingExample.SevenSlots` | internal/adapter/rlt/rlt.go:301-385 | the table for first coordinates 3 and 5 and seven slots |
| `ProbingBuilders.SettleAll` | internal/adapter/rlt/rlt.go:322-331 | the loop puts each backend on its home, later ones displacing earlier ones, and spends one of each quota |
| `ProbingBuilders.PlaceSimple` | internal/adapter/rlt/rlt.go:333-360 | the placement loop terminates, after exactly quota + 1 passes |
| `ProbingBuilders.PatchHoles` | internal/adapter/rlt/rlt.go:362-376 | the patching loop with its wrapping bound rem - 1 equals its recursion |
| `ProbingBuilders.WriteOutput` | internal/adapter/rlt/rlt.go:378-384 | over the map in any order the loop writes every slot to its place and leaves 0 elsewhere |
| `ProbingBuilders.RobustSimpleLookupTable` | internal/adapter/rlt/rlt.go:301-385 | the builder returns the finished table in which every round gives every backend one turn |
| `ProbingBuilders.PlaceFib` | internal/adapter/rlt/rlt.go:233-270 | the placement loops with their ban list and early exit equal the rounds in which each backend takes fib[i] turns or what is left of its quota |
| `ProbingBuilders.RobustFibLookupTable` | internal/adapter/rlt/rlt.go:202-299 | the builder returns the finished table in which the rounds give fib[i] turns |
| `ProbingFairness.PlacementCount` | internal/adapter/rlt/rlt.go:222-270 | after the placement a backend holds one slot per turn, and its home slot unless it was displaced |
| `ProbingFairness.FinishedCount` | internal/adapter/rlt/rlt.go:222-299 | in the finished table every backend but 0 has these, and one more if the patching reached it |
| `ProbingFairness.SimplePlacement` | internal/adapter/rlt/rlt.go:322-360 | the simple builder places exactly m/n slots per backend, m/n - 1 if and only if its home was overwritten |
| `ProbingFairness.SimpleIsFair` | internal/adapter/rlt/rlt.go:301-385 | for one to m backends every backend but 0 ends within one slot of m/n |
| `ProbingFairness.FairIff` | internal/adapter/rlt/rlt.go:233-270 | with any list of turn counts the placement is fair if and only if the list allows m/n - 1 turns |
| `ProbingFairness.FibIsFairIff` | internal/adapter/rlt/rlt.go:222-270 | the placement of the Fibonacci builder gives every backend its fair share, less a lost home, if and only if m/n is at most 10936 |
| `ProbingFairness.FibOutputFairIff` | internal/adapter/rlt/rlt.go:202-299 | the exact number of slots every backend but 0 has in the output, and exactly when that is within one slot of m/n |
| `RoundRobin.SimpleLookupTable` | internal/adapter/rlt/rlt.go:468-480 | slot i belongs to backend i modulo n |
| `RoundRobin.NotBannedAtLapEnd` | internal/adapter/rlt/rlt.go:452-462 | whenever the cursor returns to backend 0, that backend has quota left, so no ban diverts it |
| `RoundRobin.NextEntry` | internal/adapter/rlt/rlt.go:444-462 | the jump always lands on the next backend of the cycle, with the Fibonacci index back at 0 |
| `RoundRobin.NaiveFibLookupTable` | internal/adapter/rlt/rlt.go:397-466 | the Fibonacci builder returns exactly the round-robin table, all zeros without backends |
| `Controller.ComputeLookupTableSize` | internal/controller/controller.go:340-352 | the size is the smallest listed one that is at least twice the number of backends, or the largest if there is none |
| `Primes.TableSizePrimes` | internal/controller/controller.go:339-340 | every listed size is prime |
| `Controller.FilteredAtRank` | internal/controller/controller.go:356-364 | a usable backend is found in the filtered list at the number of usable ones before it |
| `Controller.FilteredFrom` | internal/controller/controller.go:356-364 | every entry of the filtered list is a usable backend of the full list, at its rank |
| `Controller.RankIsIndexIff` | internal/controller/controller.go:281-289 | filtered and full index agree if and only if no earlier backend is unusable |
| `Controller.IndexById` | internal/controller/controller.go:274-277 | each id is mapped to a position at which it stands, the last one |
| `Controller.RecomputeKeepsIff` | internal/controller/controller.go:265-297 | with unique ids a session under its full index is kept if and only if its backend is usable, and is then sent to the same backend |
| `Controller.RemapKeys` | internal/controller/controller.go:279-289 | exactly the sessions whose stored index is in range and denotes a usable backend survive a recompute |
| `Controller.NoNewsNoHandover` | internal/controller/controller.go:240-257 | a health event that names nobody, or tells the status the backend already has, changes nothing and hands nothing over |
| `Controller.NewsHandsOver` | internal/controller/controller.go:240-270 | one that changes a status changes that and no other, and hands over exactly one triple if some backend is then available by specification and status, and otherwise none |
| `Controller.AssignmentStores` | internal/controller/controller.go:217-224 | an assignment stores the position of the first backend with the id, or nothing, and hands nothing over |
| `Controller.AppliedStep` | internal/controller/controller.go:229-297 | what one applied recompute sends a session to, and whether its stored index is still the full one |
| `Controller.AffinityIff` | internal/controller/controller.go:205-297 | over every run of assignments, health events and recomputes, all triples handed over send a session, stored before or assigned on the way, to a backend if and only if the run leaves it undisturbed, a condition on events and health alone |
| `Controller.AffinityKept` | internal/controller/controller.go:205-297 | a session keeps its backend through every run in which the backend stays available, no lower one is unavailable at an applied recompute, and no assignment names another |
| `Controller.AffinityLost` | internal/controller/controller.go:280-289 | if any usable lower backend goes down and comes back, the session is sent elsewhere |
| `ControllerLoops.HandedOverCoherent` | internal/controller/controller.go:265-297 | every triple handed over has the right table length and all table entries and session values below the number of backends |
| `ControllerLoops.Loops.constructor` | internal/controller/controller.go:342-352 | the initial state, with the computed table size |
| `ControllerLoops.Loops.RecomputeAndApply` | internal/controller/controller.go:262-297 | the method takes the step of the run model, hands over a triple exactly when there is a usable backend, and that triple is coherent and built from the filtered backends |
| `ControllerLoops.Loops.OnAssignment` | internal/controller/controller.go:213-224 | the loop body takes the assignment step; unknown backends change nothing |
| `ControllerLoops.Loops.OnHealth` | internal/controller/controller.go:236-257 | the loop body takes the health step; a triple is handed over if and only if the status of some backend has changed and some backend is available by specification and status, and without a change of status nothing changes |
| `ControllerLoops.BuildIndex` | internal/controller/controller.go:274-277 | the loop computes the index by id |
| `ControllerLoops.RemapSessions` | internal/controller/controller.go:279-288 | in any iteration order the loop keeps exactly the sessions whose index is in range and whose backend is available, under its new index |
| `Checksum.VerifiesIff` | internal/adapter/bpf/udplb_kern_helpers.c:108-127 | the ones-complement sum of the 16-bit words is 0xffff if and only if their plain sum is a positive multiple of 0xffff (section 1 of RFC 1071) |
| `Checksum.FoldsFit` | internal/adapter/bpf/udplb_kern_helpers.c:112-118 | two folds of a 32-bit sum already fit 16 bits, so four do, and no fold changes the residue modulo 0xffff |
| `Checksum.CsumComplements` | internal/adapter/bpf/udplb_kern_helpers.c:109-121 | the computed checksum and the sum of the 16-bit words add up to a positive multiple of 0xffff |
| `Checksum.ComputeCsum` | internal/adapter/bpf/udplb_kern_helpers.c:109-121 | the loop of four folds and the truncated complement give that checksum |
| `Checksum.OtherByteOrder` | internal/adapter/bpf/udplb_kern_helpers.c:109-121 | reading the words in the other byte order multiplies the sum by 256 modulo 0xffff (section 2(B) of RFC 1071) |
| `Checksum.VerifiesInBothOrders` | internal/adapter/bpf/udplb_kern_helpers.c:109-127 | bytes verify in host order if and only if they verify in network order |
| `Checksum.StoredChecksumVerifies` | internal/adapter/bpf/udplb_kern_helpers.c:123-127 | storing the checksum makes every 20-byte header verify, in both byte orders |
| `Checksum.OptionsVerifyIff` | internal/adapter/bpf/udplb_kern_helpers.c:123-127 | a header with options, which the program does not sum, verifies if and only if the options sum up to a multiple of 0xffff |
| `KernelPath.ComputeHash` | internal/adapter/bpf/udplb_kern_helpers.c:142-150 | the accumulator loop computes the hash in 32-bit arithmetic |
| `KernelPath.HashIsPolynomial` | internal/adapter/bpf/udplb_kern_helpers.c:142-150 | the hash is the sum of the signed bytes, each times the power of 65599 of its place, modulo 2^32 |
| `KernelPath.LupKey` | internal/adapter/bpf/udplb_kern.c:263-265 | the key of a frame is a slot of the table |
| `KernelPath.PrefixBytes` | internal/adapter/bpf/udplb_kern_helpers.c:89-97 | a frame for the balancer has the bytes 44 49 55 55 in front of the session id |
| `KernelPath.ForwardedFields` | internal/adapter/bpf/udplb_kern.c:313-340 | field by field what a forwarded frame has changed, and that every other byte is as it was |
| `KernelPath.ForwardedChecksum` | internal/adapter/bpf/udplb_kern.c:327-334 | the IPv4 header of every forwarded frame verifies, in both byte orders |
| `KernelPath.Rewrite` | internal/adapter/bpf/udplb_kern.c:313-340 | the writes in place give the forwarded frame |
| `KernelPath.Kernel.Record` | internal/adapter/bpf/udplb_kern.c:291-307 | a new session is reported and remembered as far as there is room, in the active copy only |
| `KernelPath.Kernel.Udplb` | internal/adapter/bpf/udplb_kern.c:222-349 | verdict, frame, active maps and notification are those of the specification, and the passive copies and the pointer are untouched |
| `KernelProperties.SessionDeterminesKey` | internal/adapter/bpf/udplb_kern.c:263-265 | frames of one session hash to the same slot |
| `KernelProperties.IndexNeverChanges` | internal/adapter/bpf/udplb_kern.c:267-307 | over any run of packets the index any frame would get stays what it was at the start, whichever inserts and reservations fail |
| `KernelProperties.DataPathAffinity` | internal/adapter/bpf/udplb_kern.c:259-307 | between two switchovers every forwarded packet goes to the backend initially mapped to its session, or else to the one in the table at the closed form of its hash modulo the table size |
| `KernelProperties.OneBackendPerSession` | internal/adapter/bpf/udplb_kern.c:259-307 | any two transmitted packets of a session in a run between two switchovers are forwarded to one and the same backend |
| `KernelProperties.TransmittingLowersTtl` | internal/adapter/bpf/udplb_kern.c:245-250 | transmitting needs a TTL above 1, lowers it by one and puts the own address in as source |
| `KernelProperties.ForwardingEnds` | internal/adapter/bpf/udplb_kern.c:227-250 | over any chain of load balancers a frame entering with TTL t is transmitted at most t - 1 times |
| `KernelProperties.ReflectionEnds` | internal/adapter/bpf/udplb_kern.c:233-243 | a frame reflected to the node that sent it is not transmitted again, whatever the maps are by then |
| `KernelProperties.SoundMapsNeverFail` | internal/adapter/bpf/udplb_kern.c:259-286 | with entries in range neither lookup-failure exit is reached, every passed frame is unmodified, and the entries stay in range |
| `KernelProperties.ModifiedPassIff` | internal/adapter/bpf/udplb_kern.c:248-286 | in a run the program passes on a frame it has modified if and only if the frame was to be forwarded and its lookup fails in the maps of the start |
| `Frames.EveryFrame` | internal/adapter/bpf/udplb_kern_helpers.c:54-94 | every frame of at least 62 bytes is the serialisation of its header fields |
| `Frames.ParseWire` | internal/adapter/bpf/udplb_kern_helpers.c:54-94 | reading back serialised fields gives the fields |
| `Frames.ShortFramesPass` | internal/adapter/bpf/udplb_kern_helpers.c:54-94 | a shorter frame is passed on with nothing changed |
| `Frames.VerdictIff` | internal/adapter/bpf/udplb_kern.c:222-249 | a frame is passed on with nothing changed if and only if its ether type, protocol, address, port or prefix is not that of the balancer, and dropped if and only if they are and it comes from the own address or has a TTL of at most 1 |
| `Frames.SentToBackend` | internal/adapter/bpf/udplb_kern.c:250-349 | every other frame is sent to the backend of its session, or else of its hash, with exactly the fields of the rewrite changed and a header that verifies; the session and the backend id are reported and remembered if and only if the session is new and there is room |
| `Frames.NoBackend` | internal/adapter/bpf/udplb_kern.c:271-286 | without such a backend it is passed on with its TTL lowered and nothing else changed |
| `Coherence.InvOverRuns` | internal/controller/controller.go:205-297 | every run of controller events, failing or succeeding installs and packets keeps the maps in range and the installed backends in place |
| `Coherence.EndToEnd` | internal/adapter/bpf/udplb_kern.c:222-286 | in every reachable state every passed frame is unmodified and not for the balancer, a frame is forwarded exactly when the guards let it through, and it goes to an installed backend |
| `Coherence.EndToEndFields` | internal/adapter/bpf/udplb_kern.c:222-349 | the same in header fields: in every reachable state a frame is passed, unmodified, if and only if it is not for the balancer, dropped if and only if it loops, and otherwise sent to the hardware address, address and port of an installed backend |
| `Coherence.PinnedIff` | internal/controller/controller.go:205-297 | once the kernel maps a session to a backend, and as long as installs succeed, it does so in every later state, across all switchovers, if and only if the controller events leave the session undisturbed |
| `Coherence.SessionAffinity` | internal/adapter/bpf/udplb_kern.c:259-349 | in such a run every transmitted frame of the session is the one addressed to that backend |
| `RingBuffer.WriteRefines` | internal/util/ringbuffer.go:47-82 | writing to the array with two wrapping indices is pushing to a bounded queue that drops its oldest value |
| `RingBuffer.TakeRefines` | internal/util/ringbuffer.go:92-99 | taking from a ring that holds something is taking the oldest value of that queue |
| `RingBuffer.EmptyIff` | internal/util/ringbuffer.go:92-99 | the pointer taken is nil if and only if the buffer is empty |
| `RingBuffer.Buffer.constructor` | internal/util/ringbuffer.go:22-31 | a new buffer is an empty queue without tokens |
| `RingBuffer.Buffer.Write` | internal/util/ringbuffer.go:47-82 | the contents are pushed to, and a token is added while there is room for one |
| `RingBuffer.Buffer.TakeSlot` | internal/util/ringbuffer.go:88-99 | the second half of Next gives the oldest value, or nil if the buffer is empty |
| `RingTokens.NoLostWakeup` | internal/util/ringbuffer.go:47-100 | under every interleaving tokens plus readers past the gate are at least the stored values |
| `RingTokens.CrashableIff` | internal/util/ringbuffer.go:84-100 | readers alone can bring about a nil dereference if and only if tokens plus readers past the gate exceed the stored values |
| `RingTokens.NextIsSafeIff` | internal/util/ringbuffer.go:84-100 | for every buffer and run, a nil dereference is out of reach throughout if and only if no overwriting write falls between a reader's token and its lock |
| `RingTokens.NilDereference` | internal/util/ringbuffer.go:98-99 | a run on one slot that dereferences nil |
| `RingTokens.ReadsAreWritesInOrder` | internal/util/ringbuffer.go:22-114 | over any run the reads are an in-order subsequence of the writes, writes are reads plus overwritten plus stored values, and the stored values are the latest ones |
| `WorkerPool.StepPlaces` | internal/util/workerpool.go:36-61 | each step keeps every function in exactly one place: queue, worker or done |
| `WorkerPool.AtMostOnce` | internal/util/workerpool.go:26-70 | no function is run twice, or without having been enqueued |
| `WorkerPool.DrainedBeforeDone` | internal/util/workerpool.go:26-70 | for any number of workers above 0 and any interleaving, every function enqueued before the terminate signal was run exactly once when the done channel closes |
| `WorkerPool.DrainsIff` | internal/util/workerpool.go:33-67 | the pool drains in every run if and only if it has a worker or its queue is unbuffered |
| `WorkerPool.SingleWorkerInOrder` | internal/util/workerpool.go:36-61 | a single worker runs the functions in the order in which they were enqueued |
| `Manager.RepliesAreTrue` | internal/adapter/bpf/manager.go:323-362 | a caller gets nil only if its event was handled exactly once and succeeded, an error only if it was handled once and failed with that error, and is aborted only after the end |
| `Manager.OneOutcome` | internal/adapter/bpf/manager.go:323-342 | an event does not both succeed and fail |
| `Manager.HandledInAcceptanceOrder` | internal/adapter/bpf/manager.go:254-305 | events are handled one at a time in the order in which the loop accepted them |
| `Manager.ErrorIsAwaited` | internal/adapter/bpf/manager.go:339-362 | a worker with an error to report always finds its caller waiting, so it is never stuck |
| `Manager.ActiveIsReplay` | internal/adapter/bpf/manager.go:323-342 | at any time the active structures are what the handled events in their order make of the initial ones |
| `Manager.LastSetWins` | internal/adapter/bpf/manager.go:323-342 | in every run the active backend list and table, and every session no batch has named since, are those of the last triple set with success; failed calls leave no trace |
| `Manager.NilMeansInstalled` | internal/adapter/bpf/manager.go:418-447 | a caller of SetObjects that got nil had its triple made active, and unless another was set since, it still is |
| `Manager.LastWordStands` | internal/adapter/bpf/manager.go:323-342 | in every run the entry of a session is what the last successful event with a say about it gave it: its value in the triple or in the batch, or none |
| `Manager.NilMeansBatchDone` | internal/adapter/bpf/manager.go:376-412 | a caller of a batch update or delete that got nil finds its values, or no entries, as long as no later event sets a triple or names the session |
| `Manager.FrozenAfterDone` | internal/adapter/bpf/manager.go:307-321 | nothing is applied once the done channel is closed |
| `Manager.Structures.SetObjects` | internal/adapter/bpf/manager.go:449-470 | with the one pointer all three structures share: the triple is switched to as a whole if all writes succeed, otherwise pointer and active triple are unchanged; the previous triple stays in the other copies |
| `BoundedLog.LogIsSuffix` | internal/util/linkedlist.go:27-31 | after any sequence of appends the list holds the last items, as many as the capacity allows, or all |
| `BoundedLog.LinkedList.constructor` | internal/util/linkedlist.go:127-137 | a new list is empty |
| `BoundedLog.LinkedList.PopHead` | internal/util/linkedlist.go:73-92 | the head is dropped without writing to a node |
| `BoundedLog.LinkedList.Link` | internal/util/linkedlist.go:94-124 | a new node follows the old tail, the only node written |
| `BoundedLog.LinkedList.Append` | internal/util/linkedlist.go:66-125 | the list gains the item and loses its head exactly when it was full; next and previous stay inverse between live nodes and the length right |
| `BoundedLog.LinkedList.ReadForward` | internal/util/linkedlist.go:42-46 | following next from the head gives exactly the items and ends |
| `BoundedLog.LinkedList.ReadBackward` | internal/util/linkedlist.go:48-52 | as many steps along previous from the tail as the length says give the reverse, although an evicted node may be linked behind the head |
| `WatcherMux.KeepsTheFirst` | internal/util/watchermux.go:134-147 | of any series of dispatches a watcher that does not receive has the first wanted values for which there was room |
| `WatcherMux.WatcherMux.constructor` | internal/util/watchermux.go:30-45 | a new multiplexer has no watchers |
| `WatcherMux.WatcherMux.Watch` | internal/util/watchermux.go:75-95 | a new watcher gets an id that no other watcher has |
| `WatcherMux.WatcherMux.Cancel` | internal/util/watchermux.go:88-94 | a cancelled watcher is gone and the others stay |
| `WatcherMux.WatcherMux.Dispatch` | internal/util/watchermux.go:97-147 | in any map order each watcher is offered the value exactly once, a waiting one is handed it directly, and a full or uninterested one affects nobody else |
| `Wal.InvOverRuns` | internal/adapter/wal/wal.go:150-225 | every run keeps order and conservation on both sides of the log |
| `Wal.DeliveredInOrder` | internal/adapter/wal/wal.go:150-225 | in every run the entries received are proposals in order, proposals are accounted for as received, under way, overwritten or dropped, nothing is missing if and only if nothing was overwritten or dropped, and the log holds the last accepted ones |
| `Wal.WindowIsSafeIff` | internal/adapter/wal/wal.go:119-154 | a proposer with at most k proposals outstanding loses nothing under every schedule if and only if k is 0, or the watcher is there from the start and k fits both the ring and its channel |
| `WalService.Service.constructor` | internal/adapter/wal/wal.go:121-137 | the fresh structures hold the initial state |
| `WalService.Service.Watch` | internal/adapter/wal/wal.go:163-165 | subscribing at any time is the watch step |
| `WalService.Service.Propose` | internal/adapter/wal/wal.go:150-154 | on the ring array, proposing is the propose step |
| `WalService.Service.Fetch` | internal/adapter/wal/wal.go:201-210 | on the ring array, the reader's turn is the fetch step |
| `WalService.Service.Accept` | internal/adapter/wal/wal.go:212-219 | on the linked list and the watcher map, a turn of the event loop is the accept step for the watcher looked at, whatever the others are |
| `WalService.Service.Handoff` | internal/util/watchermux.go:141-145 | a turn of the event loop while the watcher waits is the handoff step |
| `WalService.Service.Receive` | internal/controller/dvds/dvds.go:173-176 | a receive by the watcher is the receive step |
| `Dvds.HashMap.constructor` | internal/adapter/statemachine/map.go:45-58 | the machine starts with an empty map |
| `Dvds.HashMap.Execute` | internal/adapter/statemachine/map.go:86-102 | which of the outcomes occurs when, that every failure leaves the state unchanged, and that success is the step of the machine |
| `Dvds.HashMap.Decode` | internal/adapter/statemachine/map.go:67-70 | a snapshot is merged in, and a null one makes the map nil |
| `Dvds.EventLoop.OnCommands` | internal/controller/dvds/dvds.go:173-184 | a batch of entries has the effect of its puts in order, failing entries skipped, and the state then published is a copy of the map |
| `Dvds.EventLoop.OnSnapshots` | internal/controller/dvds/dvds.go:185-198 | of several snapshots the last one counts, of none nothing happens |
| `Dvds.LastWriterWins` | internal/adapter/statemachine/map.go:67-107 | after any inputs each key has the value that the last put, delete or snapshot with something to say about it left there |
| `Dvds.NilIff` | internal/adapter/statemachine/util.go:71-79 | the map is nil if and only if the last snapshot was null |
| `Dvds.CrashesIff` | internal/adapter/statemachine/map.go:95-97 | the machine panics if and only if a put follows a null snapshot before the next proper one |
| `Dvds.InvOverRuns` | internal/controller/dvds/dvds.go:163-207 | every run of both logs keeps the machine equal to the replay of what it received |
| `Dvds.StateIsLastWriter` | internal/controller/dvds/dvds.go:163-207 | in every run the state gives each key its last write among entries and snapshots that are each proposals in order |
| `Dvds.Converges` | internal/controller/dvds/dvds.go:110-117 | without snapshots, once everything has arrived without loss, the state depends on the proposals alone: the last put of each key |

## Left out

- Multi-master consensus, hashes and keys of log entries: they exist as comments only.
- The internals of `ebpfstruct` and of the eBPF library, and flips of the active pointer between the three reads of one packet.
- The UDP checksum, which the program sets to zero.
- The counter, set and array state machines, and the sharded lookup table, which is not implemented.
- The verb of a log entry inside the log: it is not passed on, and the receiver executes every entry as a put.
- Clusters and topologies, the wire protocol, health probes, remote assignments, configuration, BGP, the agent, metrics and generated code.
- JSON, SHA and UUID computations, clocks and timeouts, and the dispatch functions with a timeout.
- Calls that race with the final closing of channels, such as a watcher cancelled during a dispatch.
- The checks of event kinds and nil arguments before an event is sent, and the `running` and `closed` flags.
- An upper bound on the slots displaced by the removal of a backend; the promised one fails on every input.
- The number of slots backend 0 has in the output of the probing builders, which also give it every slot nobody took.
- ProbingBuilders.RobustSimpleLookupTable: asks for at least one backend and at most one per slot; with none the original divides by zero, with more its search does not end.
- ProbingBuilders.RobustFibLookupTable: asks for the same.
- RoundRobin.SimpleLookupTable: asks for a backend if there is a slot, as the original divides by zero without.
- ControllerLoops.Loops.constructor: asks for fewer than 2^31 backends, so that doubling their number does not wrap.
- KernelPath.Kernel.Udplb: asks for a positive table size, which the controller always configures.
- RingBuffer.Buffer.constructor: asks for a positive size, as a ring without slots panics at the first write.
- WatcherMux.WatcherMux.Cancel: does not model the closing of the watcher's two channels, so not what a receiver sees after it.
- WalService.Service.Fetch: takes a call of Next as one step; what happens between its token and its lock is the subject of `RingTokens`.
- Coherence.InvOverRuns: takes an install as one step with respect to packets, and starts from at most 64 backends, the size of the kernel's array.
