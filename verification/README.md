# Verified model of a proof-of-stake coin node

Dafny models of the parts of the node that keep redundant state in step, run a protocol, or do
arithmetic over inputs of any size, with proofs of what they are for. `dafny verify dfyconfig.toml`
checks the whole project.

| component | files | main results |
|---|---|---|
| address manager | `AddrBook`, `AddrSteps`, `AddrMan`, `AddrCheck`, `AddrRuns`, `AddrRestarts` | in every run from the empty manager, restarts included, the manager's own consistency check answers 0 after each event, no assertion fails, and the tables stay bounded |
| peers file | `AddrDisk`, `AddrReload` | writing and reading a consistent manager gives the same manager under new ids; nothing is lost |
| sync-checkpoints | `BlockTree`, `Checkpoints` | over whole runs checkpoints only move to strict descendants, and every block indexed later descends from every earlier checkpoint |
| stake modifier | `StakeModifier`, `Sorting`, `Seqs`, `Sets` | what each of the 64 rounds selects, what each bit of a modifier is, and the rule along every chain |
| block structures | `Merkle`, `Locator`, `MedianTime` | soundness and completeness of Merkle branches, exactly which lists share a root, the locator's distance bound, monotone median time |
| block assembly | `AssemblyQueue`, `BlockAssembly`, `CutShort`, `NewBlock` | every run is a schedule defined without queue or orphans: each transaction taken is a highest one of all that are ready, in the order in force, and joins exactly if admissible; order, limits, sums and termination follow, and without ties the block is unique |
| encodings | `Digits`, `BigNum`, `Base58` | round trips of the MPI form, compact form and Base58 with checksum and version |
| streaming hash | `BlakeSpec`, `Blake` | for every cutting of a message the digest is that of the padded bit string, with the counters of section 2.2.3 of the BLAKE submission to SHA-3 |
| page locks | `PageLocks` | a page is locked exactly while a live range touches it |

How the source's form is kept: objects that change in place are classes whose methods state their
whole new state through a function on values (`Now`, `Value`); loops stay loops.
Randomness is a nondeterministic choice in range (`AddrMan.GetRandInt`), hash functions are
function-valued parameters, the clock is an argument, and database, disk and script outcomes are
parameters. Floating-point priorities are `real`.

Where the code does less than its purpose suggests, the exact condition is proved:
- The address manager's check also looks at stored times. It answers 0 on a consistent manager exactly
  if every stored time is proper, and an operation keeps them proper exactly if the caller's time is
  positive (`AddrRuns.CheckDecidesTimes`, `AddrRuns.GoodTimes`, `AddrRuns.Step`).
- `SelectTried` moves the least recently successful entry it looked at to the front, but answers the place
  it drew it from. That place holds the entry exactly if the draw was its own place
  (`AddrSteps.FrontIsOldest`, `AddrSteps.LookFinds`); `AddrSteps.AnswerMayBeTheOther` is a bucket of two
  where it holds the other one.
- A transaction given up for a missing input loses its orphan, but not its names in the lists of
  dependers. The two records agree exactly if no in-pool input stands before the first missing one
  (`NewBlock.Assembler.Scan`, `BlockAssembly.MirrorIffSafe`); `BlockAssembly.UnsafePool` is a pool where a
  list names a removed orphan. Assembly is modelled up to the point where the source would use such a name,
  which happens exactly if the block comes to hold a transaction with such a list
  (`NewBlock.CreateNewBlock`). It can happen for exactly the pools in which some transactions that fit in a
  block together include such a one, hence never for a safe pool (`CutShort.CutShortIff`).
- The page loops of `LockRange` and `UnlockRange` end exactly if the last page, in the machine's
  arithmetic, is before the first or not the topmost one (`PageLocks.LoopEndsIff`, `PageLocks.FinishesIff`);
  for the last byte of the address space they do not (`PageLocks.TopNeverEnds`).
- The compact form loses less than one part in 2^15 exactly if the size of the number is below 256, and
  keeps the order of numbers up to a size exactly if that is below 256 (`BigNum.CompactLossIff`,
  `BigNum.CompactOrderIff`); `BigNum.WrappedIsLost` and `BigNum.OrderBreaks` are numbers where it does not.
- A number set from its own little-endian bytes is that number exactly below 2 GiB (`BigNum.VchRoundTrip`).
- Encoding gives the Base58 text of its bytes exactly below 2 GiB, or if they are all zero
  (`Base58.EncodedIff`, `Base58.LongIsLost`): the number library takes a buffer's size as a 32-bit signed integer and refuses a
  buffer whose header differs from it.

## Model

| member | source | states |
|---|---|---|
| AddrMan.GetRandInt | src/util.cpp:171-189 | a value in range, 0 for an empty range |
| AddrMan.ProbeFinds | src/addrman.cpp:288-304 | whatever random bucket the search starts at, an entry that is not tried is met within one round of the 256 "new" buckets |
| AddrMan.AddrMan.constructor | src/addrman.h:382-390 | the empty manager is consistent |
| AddrMan.AddrMan.Find | src/addrman.cpp:80-91 | found exactly for indexed addresses, and the entry found has that address |
| AddrMan.AddrMan.SwapRandom | src/addrman.cpp:105-123 | two places of the order change hands and both back-pointers follow |
| AddrMan.AddrMan.ForgetEntry | src/addrman.cpp:192-196 | the entry leaves the order, the index and the table, and only one other back-pointer changes |
| AddrMan.AddrMan.DropFromBucket | src/addrman.cpp:189-198 | the id leaves one "new" bucket; the entry is forgotten with its last reference |
| AddrMan.AddrMan.ShrinkNew | src/addrman.cpp:149-201 | exactly one entry leaves the bucket: one tried within the last minute only as the oldest of four picks; if another is unseen (time 0, over ten minutes ahead or over thirty days old) or failing (three attempts without success, ten without one for seven days), the first such one; consistency is kept while another entry awaits its place |
| AddrMan.AddrMan.PickOldest | src/addrman.cpp:174-188 | the oldest among four entries picked from the bucket |
| AddrMan.AddrMan.Create | src/addrman.cpp:93-103 | a fresh id enters table, index and order together |
| AddrMan.AddrMan.Enlist | src/addrman.cpp:351-354 | a created entry with the penalty taken off its time, counted as new |
| AddrMan.AddrMan.Refresh | src/addrman.cpp:323-330 | exactly the last-seen time and services of a known entry change, by the refresh rule |
| AddrMan.AddrMan.StochasticTest | src/addrman.cpp:344-349 | passes for exactly one outcome of a draw out of 2^refs |
| AddrMan.FactorIs | src/addrman.cpp:344-349 | one chance in 1, 2, 4 or 8 for an entry with 0 to 3 references |
| AddrMan.AddrMan.TakePlace | src/addrman.cpp:358-366 | the entry joins its bucket with its reference count raised; if the bucket was full one entry left it, the first terrible one or the oldest of four; consistency is restored |
| AddrMan.AddrMan.FindPlace | src/addrman.cpp:358-366 | the entry joins the bucket its address and the source select unless it is there, and whoever leaves that bucket leaves it by the rule |
| AddrMan.AddrMan.Add | src/addrman.cpp:312-368 | true exactly for a new routable address; the new state in every case; whoever leaves the full bucket that the address and the source select leaves by the same rule, in terms of its times and attempts; consistency kept |
| AddrMan.AddrMan.SelectTried | src/addrman.cpp:125-147 | for any draws: the bucket is permuted, the entry at the front place is the least recently successful of those looked at, the answer is the place it was drawn from (-1 for an empty bucket), and that place holds it exactly if the draw was its own place |
| AddrMan.AddrMan.LeaveNewBuckets | src/addrman.cpp:207-215 | the entry is in no "new" bucket and has no references |
| AddrMan.AddrMan.MakeTried | src/addrman.cpp:203-259 | the entry moves to the tried bucket its key selects, or takes the answered place of the shuffled full bucket, whose entry returns to a "new" bucket with room; consistency kept, so the assertion on the origin bucket holds |
| AddrMan.AddrMan.Evict | src/addrman.cpp:230-259 | where exactly the evicted entry goes |
| AddrMan.AddrMan.FindBucket | src/addrman.cpp:288-304 | a "new" bucket that holds the entry is always found |
| AddrMan.AddrMan.Good | src/addrman.cpp:261-310 | unknown services change nothing; a known entry has the time as last success, last try and last-seen time, no attempts, and ends in "tried"; consistency kept |
| AddrMan.AddrMan.Attempt | src/addrman.cpp:370-387 | exactly the attempt fields of a known entry change |
| AddrMan.AddrMan.Connected | src/addrman.cpp:509-527 | the last-seen time moves only when more than twenty minutes have passed |
| AddrMan.AddrMan.GetAddr | src/addrman.cpp:493-507 | exactly min(2500, 23% of the size) pairwise different known addresses; the order stays a permutation with correct back-pointers |
| AddrSteps.SwapOk | src/addrman.cpp:105-123 | swapping two places keeps all structures consistent |
| AddrSteps.DropOk | src/addrman.cpp:189-198 | dropping a bucket member keeps counters, reference counts, index and order in step |
| AddrSteps.AdmitOk | src/addrman.cpp:93-103 | a created entry is consistent with one reference pending |
| AddrSteps.SettleOk | src/addrman.cpp:358-366 | the pending reference settles into its bucket, room made if needed |
| AddrSteps.GraduateOk | src/addrman.cpp:217-228 | joining a tried bucket with room keeps all structures in step |
| AddrSteps.ExchangeOk | src/addrman.cpp:230-259 | exchanging an entry with one of a full tried bucket keeps all structures in step |
| AddrSteps.LookFinds | src/addrman.cpp:125-147 | for any draws the shuffled bucket is a permutation with the oldest entry looked at in front; the answer is the draw that brought it there, and that place holds it exactly if the draw was its own place |
| AddrSteps.AnswerMayBeTheOther | src/addrman.cpp:135-143 | two entries and draws for which the answered place holds the more recent one |
| AddrSteps.EvictedIs | src/addrman.cpp:203-259 | leaving "new", shuffling and evicting add up to the exchange |
| AddrSteps.OrderDistinct | src/addrman.cpp:105-123 | different places of the order hold different addresses |
| AddrSteps.LeavesMeans | src/addrman.cpp:149-201 | who leaves a full bucket, in terms of the entries' times and attempts |
| AddrSteps.AnnounceKnown | src/addrman.cpp:320-366 | a known entry joins the selected bucket exactly if the address is newer, it is not tried, has fewer than four references and is lucky; otherwise only its time and services may change |
| AddrSteps.AnnounceNew | src/addrman.cpp:351-366 | an unknown address gets a fresh entry with the penalty taken off its time and one reference, in the selected bucket |
| AddrSteps.PromotedMeans | src/addrman.cpp:203-259 | the promoted entry is in its tried bucket and in no "new" one; from a full bucket one returns with one reference, to its own bucket if that has room and to the origin bucket otherwise |
| AddrBook.TerribleIff | src/addrman.cpp:37-55 | terrible means not tried within a minute, and unseen or failing |
| AddrBook.RefreshedMeans | src/addrman.cpp:323-330 | the time of a known entry is renewed if it lags by over an hour for an address seen within a day, by over a day otherwise |
| AddrBook.KeyBytesAre | src/netbase.cpp:1192-1200 | the key of a service is its address and the port in two bytes, highest first |
| AddrBook.TriedSpread | src/addrman.h:113-114 | the addresses of one group go to at most four tried buckets |
| AddrBook.NewSpread | src/addrman.h:106-107 | what one group of sources announces goes to at most 32 "new" buckets |
| AddrCheck.Check | src/addrman.cpp:434-490 | answers 0 if and only if the state satisfies the declarative condition `Accepts`, and leaves a covered index alone |
| AddrCheck.CheckEntries | src/addrman.cpp:441-460 | the first loop collects exactly the tried ids and reference counts, or rejects |
| AddrCheck.CheckTried | src/addrman.cpp:465-473 | the second loop accepts exactly if the tried buckets list tried ids without repetition |
| AddrCheck.CheckNew | src/addrman.cpp:475-484 | the third loop accepts exactly if the "new" buckets use no id more often than it is counted |
| AddrRuns.OrderSize | src/addrman.cpp:439-439 | the order is as long as both tables together |
| AddrRuns.FlatTried | src/addrman.cpp:465-473 | all tried buckets in a row repeat nothing and hold at most 64 per bucket |
| AddrRuns.Bounded | src/addrman.h:122-141 | no bucket exceeds 64 entries; at most 64*64 tried and 256*64 new addresses; a new entry is in one to four buckets |
| AddrRuns.GroupBound | src/addrman.h:113-134 | in every consistent state at most 256 addresses of one group are tried |
| AddrRuns.CheckDecidesTimes | src/addrman.cpp:434-490 | on a consistent manager the check passes if and only if stored times are proper |
| AddrRuns.CheckIsSound | src/addrman.cpp:434-490 | what an answer of 0 guarantees of any state: order and back-pointers are inverse to each other, counts and reference counts are right, each tried id is in exactly one place, times are proper |
| AddrRuns.AnnounceTimes | src/addrman.cpp:312-368 | adding an address never spoils stored times |
| AddrRuns.PromoteTimes | src/addrman.cpp:203-259 | promotion leaves proper times exactly if the promoted entry's are |
| AddrRuns.GoodTimes | src/addrman.cpp:261-310 | recording a success leaves proper times exactly if its time is positive |
| AddrRuns.Step | src/addrman.cpp:261-387 | each operation keeps consistency, and proper times exactly as the caller's time allows |
| AddrDisk.WriteNews | src/addrman.h:283-295 | the new entries in table order, each with its place noted |
| AddrDisk.WriteTrieds | src/addrman.h:296-306 | the tried entries in table order |
| AddrDisk.WriteBucket | src/addrman.h:307-317 | a bucket's size and the places of exactly its members |
| AddrDisk.Write | src/addrman.h:279-317 | the stream has the written-out form: version, key, three numbers, the new and then the tried entries with their stored fields, then the buckets; every entry once |
| AddrReload.RoomForTried | src/addrman.h:341-358 | a tried bucket being rebuilt never overflows, because every tried entry sits in the bucket its key selects |
| AddrReload.RoundTrip | src/addrman.h:318-378 | the rebuilt manager is consistent and equal to the written one up to renaming of ids: entries, index, both kinds of buckets, reference counts, counters |
| AddrReload.ReadNews | src/addrman.h:327-339 | the new entries are restored under ids in stream order |
| AddrReload.ReadTrieds | src/addrman.h:340-360 | every tried entry is restored to its bucket; none is lost |
| AddrReload.ReadBucket | src/addrman.h:361-376 | one bucket's members are restored with their references counted |
| AddrReload.Read | src/addrman.h:318-378 | reading what was written loses nothing and gives the same manager under new ids |
| AddrReload.SaveAndLoad | src/addrman.h:279-378 | a saved and loaded manager is consistent and the same up to ids |
| AddrRestarts.RestartTimes | src/addrman.h:279-378 | a loaded manager has proper times if the saved one has |
| AddrRestarts.Live | src/addrman.cpp:261-527 | one operation or restart keeps consistency, and with a positive time the check answers 0 after it |
| AddrRestarts.Run | src/addrman.cpp:261-527 | any run from the empty manager with restarts and the check after every event: always consistent and bounded, and with positive times every check answers 0 |
| BlockTree.BackAdd | src/main.h:1100-1121 | walking back in two legs is walking back their sum |
| BlockTree.AncestorTransitive | src/main.h:1100-1121 | ancestry is transitive |
| BlockTree.AncestorIffChain | src/main.h:1100-1121 | ancestry by height agrees with a chain of predecessor links |
| BlockTree.AncestorGrows | src/main.h:1100-1121 | adding blocks changes no ancestry of known blocks |
| Checkpoints.Node.WalkBack | src/checkpoints.cpp:126-144 | the walk ends at the ancestor of that height and never meets a missing predecessor |
| Checkpoints.Node.Validate | src/checkpoints.cpp:111-151 | true exactly for strict descendants of the current checkpoint; marks invalid exactly the blocks on a conflicting branch |
| Checkpoints.Node.WriteSync | src/checkpoints.cpp:153-167 | the checkpoint moves exactly if the write succeeds |
| Checkpoints.Node.Process | src/checkpoints.cpp:395-443 | when a message is accepted, kept pending or refused, and the whole new protocol state in each case, field by field |
| Checkpoints.Node.AcceptPending | src/checkpoints.cpp:169-210 | when the pending checkpoint is accepted, dropped or kept, and the whole new protocol state, field by field; afterwards it is none, not indexed, or a strict descendant of the current one |
| Checkpoints.Node.CheckSync | src/checkpoints.cpp:223-248 | on the main network a new block passes exactly if it would descend from the checkpoint; an indexed one also below it |
| Checkpoints.Node.AddToIndex | src/main.cpp:2119-2202 | the checks and the gate: which block is indexed, and with which height |
| Checkpoints.Node.AcceptBlock | src/main.cpp:1996-2218 | a block is indexed exactly if it is new, linked, otherwise valid and, in strict mode on the main network, descends from the checkpoint; the whole new protocol state, field by field, also when committing it or setting the best chain fails after indexing |
| Checkpoints.FollowsTransitive | src/checkpoints.cpp:111-151 | what holds between neighbouring states of a run holds between any two |
| Checkpoints.RunSafety | src/checkpoints.cpp:169-248 | for any two states of a run: a changed checkpoint strictly descends from the earlier one, every block indexed since descends from it, and a checkpoint left never returns |
| Checkpoints.Run | src/checkpoints.cpp:169-443 | every sequence of messages, blocks (also ones whose acceptance fails after indexing) and retries on the main network in strict mode is such a run; after an accepted block or a retry the pending checkpoint stays none, unknown or a strict descendant of the current one; the messages kept are always signed ones for the two checkpoints |
| Sorting.SortSorts | src/kernel.cpp:159-160 | sorting gives an ordered permutation |
| StakeModifier.SelectionInterval | src/kernel.cpp:59-65 | the sum of the 64 sections |
| StakeModifier.SectionsGrow | src/kernel.cpp:52-56 | sections grow from a third of the interval to the whole of it |
| StakeModifier.ScanChooses | src/kernel.cpp:70-111 | the scan with early exit finds the lowest selection hash among unchosen early candidates, the first on ties, or the first unchosen one if none is that early |
| StakeModifier.SelectBlock | src/kernel.cpp:70-111 | succeeds exactly if a candidate is left, with that choice; in terms of the hashes alone, a work block wins over an early stake block only if its hash is lower even 2^32-fold, and between blocks of one kind the lower hash wins |
| StakeModifier.ChosenIsFavoured | src/kernel.cpp:86-109 | what a choice says of the hashes of the chosen and of any other early block, for each pair of kinds |
| StakeModifier.StakeGoesFirst | src/kernel.cpp:91-95 | with 256-bit hashes a work block of hash 2^224 or more is never chosen while an early stake block is left |
| StakeModifier.CandidatesGood | src/kernel.cpp:147-160 | the collected candidates are indexed, sorted and without repetition |
| StakeModifier.CandidatesAre | src/kernel.cpp:147-160 | the candidates are exactly the blocks back to the first one before the start, by time and then by hash |
| StakeModifier.StartAligned | src/kernel.cpp:150-151 | the selection ends where the interval of the block begins |
| StakeModifier.SomeLeft | src/kernel.cpp:166-176 | in every round below the candidate count a candidate is left |
| StakeModifier.SelectionRounds | src/kernel.cpp:162-179 | every round selects a block not chosen before, by that rule |
| StakeModifier.ValueBits | src/kernel.cpp:173-174 | bit r of the modifier is the r-th collected bit, all others are 0 |
| StakeModifier.ValueOr | src/kernel.cpp:173-174 | or-ing in the next bit equals appending it |
| StakeModifier.OrBitIs | src/kernel.cpp:174-174 | or-ing a shifted bit sets that one and no other |
| StakeModifier.LastModifier | src/kernel.cpp:38-49 | the modifier and time of the nearest generating ancestor-or-self |
| StakeModifier.CollectCandidates | src/kernel.cpp:147-160 | the walk back collects exactly the blocks since the start of the selection interval, sorted |
| StakeModifier.SelectRounds | src/kernel.cpp:162-179 | the modifier made of the entropy bits of the selected blocks |
| StakeModifier.ComputeNext | src/kernel.cpp:126-211 | the modifier after a block: the last one while its interval lasts, else a new one |
| StakeModifier.RegeneratedModifier | src/kernel.cpp:126-211 | a new modifier's bit r is set exactly if round r selected a block with its entropy bit set; each of min(64, candidates) rounds obeyed the rule, and its block was favoured over all that competed, in terms of the hashes |
| StakeModifier.StoresNearest | src/main.h:1294-1317 | every block stores the modifier of its nearest generating ancestor-or-self |
| StakeModifier.GeneratesIff | src/kernel.cpp:126-144 | a block regenerates the modifier exactly if its predecessor lies in a later interval than the last generator; the first block's is 0 |
| StakeModifier.GeneratorsSpaced | src/kernel.cpp:135-145 | of any two consecutive generators on a branch, the second one's parent lies in a strictly later interval than the first |
| StakeModifier.GeneratorsApart | src/kernel.cpp:135-145 | any two generators on a branch have a block between them that does not generate |
| StakeModifier.NextGrows | src/kernel.cpp:126-211 | adding blocks on any branch never changes a result |
| StakeModifier.AddedKeepsModifiers | src/main.cpp:1988-1993 | indexing a block with the computed modifier keeps the rule for all blocks |
| Merkle.BranchChecks | src/main.h:972-1001 | hashing leaf i up its branch gives the root |
| Merkle.CheckedIsLeaf | src/main.h:988-1001 | with an injective pair hash, whatever checks to the root at i with a branch of tree height is leaf i |
| Merkle.RootDetermines | src/main.h:953-970 | with an injective pair hash, lists of one length with one root are equal |
| Merkle.SameRootIff | src/main.h:953-970 | with an injective pair hash, exactly when two lists of any lengths have one root: filled up by repeating the tails of odd levels, they agree at the height of the lower tree |
| Merkle.RepeatedTail | src/main.h:961-966 | a list of odd length has the root of the list with its last element repeated |
| Merkle.Block.BuildMerkleTree | src/main.h:953-970 | the flat array is all levels in a row; the answer is the root, 0 for no transactions |
| Merkle.Block.AddLevel | src/main.h:961-967 | one round of the building loop appends exactly the level above |
| Merkle.Block.GetMerkleBranch | src/main.h:972-986 | the branch of that leaf, read off the flat tree |
| Merkle.CheckMerkleBranch | src/main.h:988-1001 | hashes up the branch; 0 for index -1 |
| Merkle.ExtractAndCheck | src/main.h:972-1001 | an extracted branch always checks |
| Locator.Spacing | src/main.h:1489-1504 | ten single steps, then doubling |
| Locator.FirstPast | src/main.h:1489-1504 | the first entry at least d back is at most d back up to 11, and 2d - 11 beyond |
| Locator.BlockLocator.Set | src/main.h:1489-1504 | the ancestors at exactly these distances, then genesis |
| Locator.OneLocator | src/main.h:1489-1504 | a block has exactly one locator |
| Locator.LocatorSize | src/main.h:1489-1504 | the number of blocks walked to: all of them up to height 10, beyond that 11 plus the whole part of the binary logarithm of the height less 9 |
| Locator.GetBlockIndex | src/main.h:1527-1541 | the first entry in the main chain, or genesis |
| Locator.GetDistanceBack | src/main.h:1506-1525 | the distance of that entry, although this loop doubles on another condition than the building loop |
| Locator.ForkExists | src/main.h:1228-1231 | with one genesis block every branch forks from the main chain somewhere |
| Locator.MainFromFork | src/main.h:1228-1231 | a block of the branch is in the main chain exactly from the fork on |
| Locator.ForkBound | src/main.h:1489-1541 | the distance bound for the entry found |
| Locator.FindFork | src/main.h:1506-1541 | with the main chain as the best block and its ancestors, and the fork d back as the nearest ancestor of the tip in it: the block found is a main-chain ancestor, exactly d back up to 11 and at most 2d - 11 beyond; the reported distance is exact for walked entries and never too small for the trailing genesis entry |
| MedianTime.MedianOfWindow | src/main.h:1245-1257 | the loop and sort compute the median of the last `span` times, fewer near the start |
| MedianTime.GetMedianTimePast | src/main.h:1243-1257 | the same for the last eleven: at most five of them are below it and at least six not above it |
| MedianTime.TimesAre | src/main.h:1251-1253 | the times collected are those of the block and its ancestors, one by one |
| MedianTime.MedianRank | src/main.h:1256-1257 | the median is below x exactly if more than half of the times are |
| MedianTime.WindowMoves | src/main.h:1238-1257 | a new time above the median, with the oldest dropped or not, keeps the median up |
| MedianTime.MedianDoesNotDecrease | src/main.h:1238-1257 | from parent to child the median never decreases, growing windows included |
| MedianTime.MedianMonotone | src/main.h:1238-1257 | nor along any branch |
| MedianTime.AddedKeepsTimes | src/miner.cpp:367-367 | a new block later than the median of its parent keeps every block so |
| AssemblyQueue.ParentsAre | src/miner.cpp:191-227 | the recorded parents are exactly the transactions not on disk that some input spends from |
| AssemblyQueue.LeftIffUnsafe | src/miner.cpp:203-213 | a given-up transaction leaves no recorded parents exactly if no in-pool input stands before the first missing one |
| AssemblyQueue.AgeIsSum | src/miner.cpp:191-230 | the age is the sum of value times depth over the inputs on disk, the total that of all input values |
| AssemblyQueue.EntryMeans | src/miner.cpp:232-239 | priority is age over size, the fee what is paid for 1000 bytes |
| AssemblyQueue.Pop | src/miner.cpp:261-267 | takes one entry off the queue: by fee none pays more, and none that pays the same has higher priority; otherwise the other way round |
| AssemblyQueue.TakenIsFree | src/miner.cpp:259-267 | what is taken off the queue has all its parents in the block and is neither in the block nor refused |
| AssemblyQueue.Refuse | src/miner.cpp:269-317 | refusing an entry leaves every other transaction in its place |
| AssemblyQueue.Join | src/miner.cpp:321-327 | joining the block, before any depender is told |
| AssemblyQueue.Tell | src/miner.cpp:336-350 | telling one depender: it waits for one parent less, and is queued exactly when none is left |
| AssemblyQueue.AllTold | src/miner.cpp:336-350 | once all dependers are told every transaction has its place again |
| BlockAssembly.TopMayBeTaken | src/miner.cpp:259-267 | the queue holds exactly what is ready, so its highest entry is what the schedule asks for |
| BlockAssembly.ScheduleAt | src/miner.cpp:259-351 | at every step of a run a highest one of all ready transactions is taken, in the order in force, and joins exactly if admissible |
| BlockAssembly.TakenRanksFirst | src/miner.cpp:87-107 | in integers: while the order is by fee, no ready transaction pays more for its size than the one taken; while it is by priority, none is older for its size; ties by the other measure |
| BlockAssembly.JoinsIff | src/miner.cpp:269-316 | the one taken joins exactly if size, signature operations, times, fee and connection allow it, written out in integers |
| BlockAssembly.OrderAtStart | src/miner.cpp:254-254 | the order is by fee from the start exactly if no space is set aside for priority |
| BlockAssembly.SwitchesIff | src/miner.cpp:291-300 | the order changes exactly at a transaction that passes the early checks and would pass the size set aside or has less than 576000 of age per byte |
| BlockAssembly.ByFeeStays | src/miner.cpp:291-300 | the order changes at most once, to fee order |
| BlockAssembly.ScheduleInOrder | src/miner.cpp:259-351 | no transaction stands twice, and each comes after all its pool parents |
| BlockAssembly.ScheduleWithin | src/miner.cpp:142-145 | size and signature operations of a block that is not empty are below their limits |
| BlockAssembly.SigopsAre | src/miner.cpp:323-327 | the signature operations add up, each transaction's as it connects to those before it |
| BlockAssembly.FeesAre | src/miner.cpp:323-327 | so do the fees |
| BlockAssembly.OneBlock | src/miner.cpp:87-107 | if no two eligible transactions tie, all finished runs are equal |
| BlockAssembly.NothingLost | src/miner.cpp:259-351 | at the end of a run every eligible pool transaction is in the block, was taken and found inadmissible at that point of the run in the order then in force, or misses a parent that is not in the block |
| BlockAssembly.GatheredAll | src/miner.cpp:181-247 | after collecting, each eligible transaction is queued once or waits for exactly its parents, and the lists of dependers name those and what is left of the ones given up |
| BlockAssembly.MirrorIffSafe | src/miner.cpp:199-224 | no list names a removed orphan exactly if every transaction gone through is safe |
| BlockAssembly.GivenUp | src/miner.cpp:203-213 | giving up one transaction leaves the records in agreement exactly if it is safe |
| BlockAssembly.UnsafePool | src/miner.cpp:203-224 | a pool of two transactions for which a list names a removed orphan |
| CutShort.SumWithin | src/miner.cpp:269-278 | different members of a list add up to no more than the list, so any of them are within its limits |
| CutShort.SizeIsSum | src/miner.cpp:323-327 | the block size is 1000 and the sizes of its transactions |
| CutShort.ListedJoin | src/miner.cpp:259-351 | if exactly the listed transactions connect, every finished run takes all of them, whatever the order |
| CutShort.Finished | src/miner.cpp:259-351 | every run can be continued to one that leaves nothing to take |
| CutShort.CutShortIff | src/miner.cpp:203-224 | some run under some options and outcomes comes to a removed orphan exactly if the pool has transactions that fit in a block together, one of which has a list with such a name; and then under some of them every finished run does |
| CutShort.UnsafeCanBeCut | src/miner.cpp:203-224 | the pool of two transactions is such a pool |
| NewBlock.Assembler.Scan | src/miner.cpp:188-229 | one pass over the inputs: completeness, age, value, and the records made; at a missing input the orphan goes and its names stay, which leaves the records in agreement exactly if the inputs are safe |
| NewBlock.Assembler.CollectOne | src/miner.cpp:183-247 | one pool transaction is queued, recorded as waiting, given up or passed over |
| NewBlock.Assembler.Collect | src/miner.cpp:181-247 | the state in which the selection loop starts, and that no list names a removed orphan exactly if the pool is safe |
| NewBlock.Assembler.Consider | src/miner.cpp:269-316 | true exactly for admissible transactions; the order changes to fee order exactly when the early checks pass and the size or priority rule holds, and never back |
| NewBlock.Assembler.TellNext | src/miner.cpp:338-350 | also for a depender listed several times, each is queued at most once |
| NewBlock.Assembler.Release | src/miner.cpp:334-350 | all dependers told, and queue and waiting orphans together stay as many; stops exactly if the list names a removed orphan |
| NewBlock.Assembler.Enter | src/miner.cpp:321-327 | block, size, signature operations and fees move together |
| NewBlock.Assembler.Take | src/miner.cpp:261-316 | the entry taken and the decision on it extend the schedule |
| NewBlock.Assembler.Step | src/miner.cpp:259-351 | one round extends the schedule by one transaction, keeps all invariants and makes queue plus waiting orphans fewer, unless a removed orphan is met |
| NewBlock.Assembler.Fill | src/miner.cpp:181-351 | the loop ends; the whole run is a schedule and its block the one built, with its sums; it is finished unless cut short, which happens exactly if the block holds a transaction whose list names a removed orphan |
| NewBlock.CreateNewBlock | src/miner.cpp:142-351 | for every pool: the block is that of a schedule in which whatever is taken ranks first among all that are ready, in what is paid or in age for its size; in order, within its limits and with its sums; unless cut short nothing is lost; cut short exactly if the block touches a removed orphan, only for a pool that can be cut and never for a safe one |
| NewBlock.MaxTransactionTime | src/main.h:945-951 | the latest transaction time |
| NewBlock.HeaderTime | src/miner.cpp:365-370 | the earliest time above the median of the last eleven, not before any transaction, ten minutes before the previous block or (for proof of work) the clock |
| NewBlock.HeaderKeepsTimes | src/miner.cpp:367-368 | a block with that time keeps median time past from going back |
| Digits.ValueShortest | src/base58.h:46-53 | the digits by repeated division have the number's value |
| Digits.ShortestValue | src/base58.h:86-102 | digits without leading zero are the shortest digits of their value |
| Digits.ConvertBack | src/base58.h:27-119 | changing the base and back gives the same digits, leading zeros included |
| BigNum.MpiRoundTrip | src/bignum.h:294-319 | the MPI form of every number reads back as that number |
| BigNum.MpiPositive | src/bignum.h:294-307 | bytes with top bit clear stand for their value |
| BigNum.MpiNegative | src/bignum.h:294-307 | with top bit set, for the negative of what is left without it |
| BigNum.Number.SetVch | src/bignum.h:294-307 | the value of little-endian bytes with sign bit, all of them below 2 GiB; above, what the 32-bit size lets through |
| BigNum.Number.GetVch | src/bignum.h:309-319 | the little-endian bytes of the number |
| BigNum.VchRoundTrip | src/bignum.h:294-319 | setting another number to what was got gives the number exactly below 2 GiB |
| BigNum.WriteAndRead | src/bignum.h:412-424 | a number written and read into a new one is the same exactly below 2 GiB |
| BigNum.Number.SetCompact | src/bignum.h:321-331 | the number a compact form stands for |
| BigNum.Number.GetCompact | src/bignum.h:333-344 | size and leading three bytes |
| BigNum.ToCompactMeans | src/bignum.h:333-344 | the size is the top byte, and the number is that many bytes with the lower three as its leading ones |
| BigNum.FromCompactMeans | src/bignum.h:321-331 | the lower 23 bits moved to the size, with bit 23 as sign |
| BigNum.KeptPart | src/bignum.h:321-344 | the three leading bytes keep all but less than one part in 2^15, with the same size |
| BigNum.CompactLoss | src/bignum.h:321-344 | compact and back never gains, loses less than n / 2^15, and has the same compact form |
| BigNum.CompactLossIff | src/bignum.h:321-344 | for n > 0 the loss bound holds exactly if the size is below 256 |
| BigNum.WrappedIsLost | src/bignum.h:321-344 | of the first power of 256 with 256 bytes nothing comes back |
| BigNum.CompactMonotone | src/bignum.h:333-344 | the compact form orders non-negative numbers of fewer than 256 bytes as they are ordered |
| BigNum.CompactOrderIff | src/bignum.h:333-344 | the order is kept for all numbers up to a size exactly if that size is below 256 |
| BigNum.OrderBreaks | src/bignum.h:333-344 | two powers of 256, with 255 and 256 bytes, whose compact forms are in the wrong order |
| Base58.LetterIff | src/base58.h:24-24 | the letters are exactly the characters of the alphabet |
| Base58.SpaceIs | src/base58.h:82-86 | the six white space characters of the "C" locale |
| Base58.DigitOfSymbol | src/base58.h:89-99 | looking a letter up gives the digit it was written for |
| Base58.TextOfBytes | src/base58.h:27-119 | a word reads as b exactly if it is the text of b |
| Base58.DivideOut | src/base58.h:46-53 | the remainders, reversed, are the digits of the number |
| Base58.Encode | src/base58.h:27-65 | one one for each leading zero and the number that was read; the text of the bytes exactly below 2 GiB or if all are zero |
| Base58.EncodedIff | src/base58.h:27-65 | exactly when encoding gives the text of the bytes |
| Base58.LongIsLost | src/base58.h:27-65 | five bytes short of 2 GiB, without leading zero, the text is empty |
| Base58.ReadableIff | src/base58.h:75-103 | a text is a word with white space around it in at most one way |
| Base58.ReadLetters | src/base58.h:86-103 | the number of the letters read |
| Base58.CountOnes | src/base58.h:112-115 | as many leading ones as leading zero digits |
| Base58.Magnitude | src/base58.h:105-110 | the sign byte is dropped exactly when it is there |
| Base58.Decode | src/base58.h:75-119 | answers b exactly for the texts that spell b; fails with no bytes exactly for the others |
| Base58.TextSpells | src/base58.h:27-119 | decoding gives back every byte string that was encoded |
| Base58.WordsAreTexts | src/base58.h:27-119 | encoding gives back every alphabet string that was decoded |
| Base58.ChecksumIs | src/base58.h:132-139 | the checksum is the lowest 32 bits of the hash, lowest byte first |
| Base58.EncodeCheck | src/base58.h:132-139 | the same for the bytes and their checksum |
| Base58.DecodeCheck | src/base58.h:143-160 | answers b exactly for the texts that spell b with its checksum; else fails with no bytes |
| Base58.Data.ToString | src/base58.h:233-238 | a text that spells version and data with checksum, exactly below 2 GiB or if all bytes are zero |
| Base58.Data.SetString | src/base58.h:210-226 | sets version and data exactly to what the text spells; else, and for an empty payload, fails and clears both |
| Blake.FeedTakes | src/blake.c:905-941 | feeding data to a context for m gives the context for m followed by the data |
| Blake.ChainFolds | src/blake.c:922-938 | compressing on from any block is the chain over the whole message with its counters |
| Blake.CutsDoNotMatter | src/blake.c:905-941 | two ways of cutting one message leave the same context |
| Blake.CountBlock | src/blake.c:933-934 | the two-word count with carry is addition modulo 2^128 |
| Blake.LastCount | src/blake.c:963-971 | all three adjustments make the next count the message length, or 0 when no message bit is left |
| Blake.EncodeWords | src/blake.c:976-977 | the two words are the 128-bit length, highest byte first |
| Blake.LastBits | src/blake.c:958-960 | the last byte holds the extra bits, a one and zeros |
| Blake.PaddedBits | src/blake.c:957-989 | the bytes hashed are, bit for bit, the padded message: a one, zeros up to 895 modulo 1024, the marker bit, the length |
| Blake.OnlyPadding | src/blake.c:957-989 | no other bytes have the bits of the padded message |
| Blake.DigestOfBits | src/blake.c:943-990 | messages with the same bits have the same digest, whatever the unused bits of the last byte are |
| Blake.EndBlock | src/blake.c:972-981 | the block with the end of the message is compressed with the message length, or 0 if it has padding only |
| Blake.ExtraStep | src/blake.c:982-989 | the extra block is compressed with counter 0 |
| Blake.Context.constructor | src/blake.c:895-903 | a context for the empty message |
| Blake.Context.Copy | src/blake.c:924-930 | the data follows the bytes waiting in the buffer |
| Blake.Context.CompressBuffer | src/blake.c:932-937 | count, then compress with the new count |
| Blake.Context.Blake64 | src/blake.c:905-941 | the copying loop feeds the data block by block |
| Blake.Context.Update | src/blake.c:1095-1099 | the message grows by the data |
| Blake.Context.SetCounter | src/blake.c:963-971 | the counter that becomes the right one at the next compression |
| Blake.Context.FinishHash | src/blake.c:943-990 | the chain value over all blocks of the padded message with the specified counters |
| Blake.OutputSpells | src/blake.c:991-993 | the bytes written are the words of the chain value in order, highest byte first |
| Blake.Context.Close | src/blake.c:1109-1114 | the digest of the whole message and extra bits, and a fresh context; eight bytes for each word, word k in place k, highest byte first, of the chain value over the padded message |
| PageLocks.PageManager.LockPage | src/allocators.h:65-74 | one more count; the system is called only for a page not yet locked |
| PageLocks.PageManager.UnlockPage | src/allocators.h:88-97 | one count less; the system is called exactly when none is left |
| PageLocks.PageManager.LockRange | src/allocators.h:56-76 | every page's count is the number of live ranges touching it, in the machine's arithmetic |
| PageLocks.PageManager.UnlockRange | src/allocators.h:79-99 | the same, and the assertion never fails for a live range |
| PageLocks.TouchesIff | src/allocators.h:56-65 | a range within the address space touches exactly the pages of its bytes |
| PageLocks.LoopEndsIff | src/allocators.h:63-86 | the loop comes to a page past the last one exactly if it starts past it or the last page is not the topmost |
| PageLocks.FinishesIff | src/allocators.h:56-99 | exactly the ranges admitted by LockRange and UnlockRange have a page loop that ends |
| PageLocks.TopNeverEnds | src/allocators.h:56-99 | the last byte of the address space is a range whose loop never passes its last page |
| PageLocks.HeldWhileTouched | src/allocators.h:47-99 | the system holds a page exactly while a live range touches it, and never locks or unlocks twice in a row |
| PageLocks.Run | src/allocators.h:47-99 | any sequence of locks and matching unlocks |

## Left out

- `Select_` and `GetChance` of the address manager: floating point and termination by probability only.
- Locks and threads: every operation modelled runs under one lock and is taken as atomic.
- Reading a peers file with another bucket count or with contents no manager wrote: there is no bound on bucket sizes on that path.
- Byte-level serialization of the peers file: the stream is a sequence of tokens, one for each integer, key and entry.
- Overflow of 32-bit counters (ids, reference counts, sizes, lock counts) and of 64-bit sums of money and sigops: these are unbounded here; the address manager's 32-bit times and the 64-bit and 128-bit hash counters do wrap.
- AddrReload.RoundTrip: the time of the last try is not written and is 0 after reading.
- `ResetSyncCheckpoint`: it deliberately goes back to a hardened checkpoint and is outside the run theorem; signing, relaying and the checkpoint database are not modelled.
- Checkpoints.Node.AcceptBlock: all block checks other than the checkpoint gate are one outcome, and outcomes of reading, connecting and writing are parameters.
- Stake kernels and their proofs, and the difficulty target.
- StakeModifier.SelectionInterval: the machine arithmetic of the interval products is not bounded.
- Merkle.CheckedIsLeaf: assumes an injective pair hash, which stands for collision resistance.
- `std::sort`, `std::make_heap`, `std::push_heap` and `std::pop_heap` are used by their contracts; among equal queue entries any one may be taken.
- NewBlock.CreateNewBlock: what the source does after using a pointer to a removed orphan is undefined and not modelled; the clock stands still during one assembly; fetching and connecting inputs, and the minimum fee, are parameters; the coinbase transaction, its reward and the difficulty bits are not built.
- BigNum.Number.SetVch: that the number library takes a buffer's size as a 32-bit signed integer and leaves the number alone when it refuses a buffer is not part of the repository.
- Base58.Decode: white space is that of the "C" locale.
- The rounds of the BLAKE compression function and its salt are one abstract function; `blake32` has the same shape with half the sizes and would add nothing new; the other hash functions are fixed bit-level data.
- PageLocks.PageManager.LockRange: pages are named by number instead of address, and ranges whose page loop does not end (`PageLocks.FinishesIff`) are excluded, since no state follows; the same for UnlockRange and Run.
- Scripts, keys, wallets, networking, alerts, `SetBestChain` and the database.
