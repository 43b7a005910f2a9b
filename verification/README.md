# Verified models of Valgrind's profilers and of three small network programs

The repository holds Valgrind 3.11.0 (with its profilers Cachegrind and Callgrind) next to course programs: a UDP
file transfer, a replicated file store, web servers and a proxy. This project models the parts of it that
compute something intricate and proves what they promise:

- `WordFM.dfy`, `WordFMap.dfy`: the AVL map of `cg_merge.c`, on linked nodes rebalanced in place, and its iterator
  with a fixed stack.
- `ProfileMap.dfy`, `ProfileText.dfy`, `ProfileFormat.dfy`, `Decimal.dfy`: the nested counter maps of `cg_merge.c` as values, merging,
  totals, and the text format.
- `CountsMap.dfy`, `FunsMap.dfy`, `ProfileFile.dfy`, `MergeRun.dfy`: the same profiles on the heap, as an outer map of
  inner maps of count vectors, with parsing, deep copies, merging, deleting and the main loop.
- `Wrappers.dfy`, `MachineWords.dfy`: what the others share.
- `CBits.dfy`, `CacheArch.dfy`: bit arithmetic and the cache geometry of `cg_arch.c`.
- `CacheSets.dfy`, `CacheSim.dfy`, `CacheTable.dfy`: the cache simulator of `cg_sim.c`, as rows of tags and as the
  tag array shifted in place, against textbook LRU.
- `BranchPred.dfy`, `BranchHistory.dfy`: the branch predictor, and its predictions told from the run alone.
- `Events.dfy`, `Instrument.dfy`, `BlockCounts.dfy`: what Cachegrind's helpers do, the instrumentation pass with its
  event queue, and what a block counts, told from its statements.
- `DumpSort.dfy`, `DumpSortArray.dfy`: the quicksort of Callgrind's `dump.c`, in place.
- `ShadowStack.dfy`, `BalancedRuns.dfy`, `BlockStep.dfy`: Callgrind's shadow call stack, inclusive costs, and the
  step that reconstructs calls and returns at every basic block.
- `ArcTable.dfy`: Callgrind's table of call arcs, on linked nodes.
- `Adler.dfy`, `DiFrames.dfy`: checksum and frames of the debuginfo server (RFC 1950, sections 2.2 and 9).
- `StopAndWait.dfy`: the UDP transfer as a state machine over lossy, duplicating FIFO channels, with its two loops.
- `StoreRequests.dfy`, `StoreAccess.dfy`, `ReplicatedStore.dfy`: requests, who may do what, placement and retrieval of
  the four-server store.

`dafny verify dfyconfig.toml` checks everything.

Where code and documentation disagree the model follows the code:

- The quicksort is not a sort when elements compare equal: the swap-back moves as many elements as are parked on the
  left, even if fewer smaller ones were found. `DumpSortArray.Qsort` states exactly when the result is sorted.
- The cache's tags start as 0, so block 0 can hit before it was ever referenced (`CacheSets.MissIsTextbook`).
- 32 iterator slots suffice exactly for trees with a LeftDepth of at most 32 (`WordFMap.FM.Walk`). That covers every
  map of fewer than 9227464 bindings, not of 2^32 (`WordFMap.SlotsSuffice`, `WordFMap.BoundIsTight`).
- Access sizes are cut to a byte, so with 256-byte lines at every level an access capped to a line can become empty
  and panic (`Instrument.WideLinesPanic`; `Instrument.CappedPanics` says exactly when).
- A UDP transfer of more than 10000 frames never completes (`StopAndWait.NeverComplete`). Neither side has a timeout, so
  a lost datagram can leave sender and receiver waiting for each other (`StopAndWait.LossDeadlocks`), and a sender
  whose last acknowledgement is lost waits for ever; `StopAndWait.FinishesExactly` says exactly when it gets through.
- A profile of desc: lines only makes the parser compare a missing line (`ProfileFile.ReadProfile`).
- A RET while only the bottom marker lies below the current function takes the underflow path even with frames on
  the shadow stack, and leaves them there (`BlockStep.SetupBbcc`). Direct recursion of the first function, or a
  skipped function that it calls, gets there in three blocks (`BlockStep.FirstFunctionReturns`).

Inputs from outside are parameters: statement lists and guard values, stack pointers and exits taken, which servers
are up, the bin of a file, what channels lose and duplicate.

## Model

| member | source | states |
|---|---|---|
| WordFM.SwingLeft | valgrind-3.11.0/cachegrind/cg_merge.c:1009-1017 | the rotation relinks two nodes and leaves exactly the rotated tree, with the same nodes and the same in-order bindings |
| WordFM.SwingRight | valgrind-3.11.0/cachegrind/cg_merge.c:1019-1027 | the mirror rotation, likewise |
| WordFM.FixNasty | valgrind-3.11.0/cachegrind/cg_merge.c:1029-1049 | the three balance fields of a double rotation are set from the one of the new root, all links and bindings staying as they are; that they are then the true height differences is part of LeftGrew, RightGrew, LeftShrank and RightShrank |
| WordFM.InsertWrk | valgrind-3.11.0/cachegrind/cg_merge.c:1064-1159 | inserting into any AVL tree gives an AVL tree whose balance fields are the true height differences and whose in-order list is the list with the binding put in; the result is true exactly when the height grew, and the old value is handed back on overwrite |
| WordFM.LeftGrew | valgrind-3.11.0/cachegrind/cg_merge.c:1091-1109 | after the left subtree grew, the balance is adjusted or a single or double rotation restores it, and the flag tells whether the height grew |
| WordFM.RightGrew | valgrind-3.11.0/cachegrind/cg_merge.c:1124-1142 | the mirror case |
| WordFM.RemoveWrk | valgrind-3.11.0/cachegrind/cg_merge.c:1164-1249 | removing a node from any AVL tree gives an AVL tree without that node and without its key; true exactly when the height shrank; a removal on the side that is not lower leaves the root node and its other subtree in place |
| WordFM.LeftShrank | valgrind-3.11.0/cachegrind/cg_merge.c:1178-1205 | after the left subtree shrank, rebalancing and the "height shrank" flag are right in all balance cases |
| WordFM.RightShrank | valgrind-3.11.0/cachegrind/cg_merge.c:1214-1241 | the mirror case |
| WordFM.RemoveRootWrk | valgrind-3.11.0/cachegrind/cg_merge.c:1254-1288 | removing the root, with the in-order neighbour from the higher side taking its place: same guarantees |
| WordFM.ReplaceRoot | valgrind-3.11.0/cachegrind/cg_merge.c:1272-1287 | with two children the neighbour is first removed from below and never rotated away from the root, so it can take the root's links and balance as they are |
| WordFM.PutMap | valgrind-3.11.0/cachegrind/cg_merge.c:77-80 | putting a binding into an ascending list is map update |
| WordFM.PutAscending | valgrind-3.11.0/cachegrind/cg_merge.c:77-80 | and keeps the list ascending |
| WordFM.DelMap | valgrind-3.11.0/cachegrind/cg_merge.c:82-83 | dropping a key from an ascending list is map removal |
| WordFM.FindSplit | valgrind-3.11.0/cachegrind/cg_merge.c:1290-1302 | seen from any binding of an ascending list, a key can only be on the side the comparison points to |
| WordFMap.FM.Add | valgrind-3.11.0/cachegrind/cg_merge.c:1450-1464 | addToFM is map update on the bindings of the object; where the key could hang on the end of its branch without unbalancing the tree it does so, and nothing is rotated |
| WordFMap.FM.FindNode | valgrind-3.11.0/cachegrind/cg_merge.c:1290-1302 | the search finds the node of a key exactly when the key is bound |
| WordFMap.FM.Lookup | valgrind-3.11.0/cachegrind/cg_merge.c:1482-1491 | lookupFM returns the bound value, or nothing exactly when the key is unbound |
| WordFMap.FM.Delete | valgrind-3.11.0/cachegrind/cg_merge.c:1467-1479 | delFromFM removes the key and returns its value, or changes nothing |
| WordFMap.FM.InitIter | valgrind-3.11.0/cachegrind/cg_merge.c:1500-1508 | starting an iteration leaves all bindings still to come |
| WordFMap.FM.NextIter | valgrind-3.11.0/cachegrind/cg_merge.c:1510-1543 | as long as the stack assertion holds each call returns the next binding in key order and no other; it fails exactly when some stacked subtree takes more slots than are left |
| WordFMap.FM.Walk | valgrind-3.11.0/cachegrind/cg_merge.c:1500-1543 | a whole iteration meets the stack assertion at every push if and only if LeftDepth of the tree is at most 32, and then yields every binding exactly once, ascending |
| WordFMap.FM.StackPush | valgrind-3.11.0/cachegrind/cg_merge.c:1316-1324 | a free slot is used, and a full stack is reported as the failing assertion with nothing changed |
| WordFMap.SlotsSuffice | valgrind-3.11.0/cachegrind/cg_merge.c:994-1004 | LeftDepth is at most 32 for every map of fewer than 9227464 bindings |
| WordFMap.AvlSize | valgrind-3.11.0/cachegrind/cg_merge.c:994-1004 | an AVL tree of height h has at least as many nodes as the Fibonacci-like minimum for h |
| WordFMap.HeightBound | valgrind-3.11.0/cachegrind/cg_merge.c:994-1004 | fewer than 9227464 bindings means height at most 32; the "2**32 entries" of the comment is not what 32 slots guarantee |
| WordFMap.Build | valgrind-3.11.0/cachegrind/cg_merge.c:1450-1464 | every balanced tree of integer keys arises by adding its keys one after the other |
| WordFMap.BoundIsTight | valgrind-3.11.0/cachegrind/cg_merge.c:994-1004 | so there is a map of 9227464 different ascending integer keys, filled by addToFM alone, on which the iteration fails at the 33rd slot: the bound cannot be raised |
| CountsMap.DopyRows | valgrind-3.11.0/cachegrind/cg_merge.c:1343-1392 | the copied tree consists of new nodes and new count vectors only, with the same shape, keys and counts |
| CountsMap.DopyInnerMap | valgrind-3.11.0/cachegrind/cg_merge.c:364-367 | the copy of an inner map has the same rows and shares no object with anything that existed before; a map between operations is not being iterated over, which is what dopyFM asserts |
| ProfileMap.FileFnOrder | valgrind-3.11.0/cachegrind/cg_merge.c:443-451 | the two-level strcmp comparison is a total order, which is what the map demands |
| ProfileMap.FileFnMeans | valgrind-3.11.0/cachegrind/cg_merge.c:443-451 | it is dictionary order by file and then by function |
| ProfileMap.AddRowMeans | valgrind-3.11.0/cachegrind/cg_merge.c:532-587 | a counts line adds its counts to the row of its (file, function, line) and leaves every other row alone |
| ProfileMap.AddRowTotal | valgrind-3.11.0/cachegrind/cg_merge.c:550-600 | and adds them, modulo 2^64, to the total over all rows |
| ProfileMap.MergeMeans | valgrind-3.11.0/cachegrind/cg_merge.c:768-839 | merging is the pointwise 64-bit sum over (file, function, line) |
| ProfileMap.MergeCommutes | valgrind-3.11.0/cachegrind/cg_merge.c:768-848 | merging two profiles gives the same map in either order |
| ProfileMap.MergeAssociates | valgrind-3.11.0/cachegrind/cg_merge.c:768-848 | and the grouping does not matter |
| ProfileMap.MergeOrder | valgrind-3.11.0/cachegrind/cg_merge.c:895-926 | any permutation of the input files merges to the same map |
| ProfileMap.MergeNothing | valgrind-3.11.0/cachegrind/cg_merge.c:915-918 | taking the first file as it is amounts to merging it into an empty map |
| ProfileMap.MergeAnyOrder | valgrind-3.11.0/cachegrind/cg_merge.c:895-926 | so whichever file comes first, merging the others into it gives the same map |
| ProfileMap.MergeTotal | valgrind-3.11.0/cachegrind/cg_merge.c:841-842 | merging adds the totals over all rows modulo 2^64 |
| CountsMap.AddInto | valgrind-3.11.0/cachegrind/cg_merge.c:523-530 | counts are added element by element, wrapping at 2^64 |
| CountsMap.InnerMap.AddCountsToMap | valgrind-3.11.0/cachegrind/cg_merge.c:532-548 | one row gains the counts; the vector is kept by the map exactly if the line had none, and is the caller's to free otherwise |
| CountsMap.InnerMap.MergeRow | valgrind-3.11.0/cachegrind/cg_merge.c:818-834 | one row of another map is added or copied, the vector itself staying outside and everything gained being new |
| ProfileFile.ScanULong | valgrind-3.11.0/cachegrind/cg_merge.c:464-481 | scanning a number stops where the specification says and has its value modulo 2^64 |
| ProfileFile.SplitLine | valgrind-3.11.0/cachegrind/cg_merge.c:488-521 | a counts line is split into its numbers, or refused for junk or too few numbers |
| ProfileFile.CacheProfFile.HandleCounts | valgrind-3.11.0/cachegrind/cg_merge.c:550-604 | after every counts line the running summary equals the sum of all rows modulo 2^64, on maps and vectors that share nothing; the new vector is freed exactly if its row was there before, which is exactly when the profile does not hold it |
| ProfileFile.CacheProfFile.MergeFrom | valgrind-3.11.0/cachegrind/cg_merge.c:768-848 | merging gives the pointwise sum and keeps the summary equal to it; afterwards the two profiles have no object in common, everything gained is new, and the source keeps its value; different events lines are refused with nothing changed, and an assertion fails exactly under !CanMerge, so never that of the copying |
| ProfileFile.CacheProfFile.MergeKnown | valgrind-3.11.0/cachegrind/cg_merge.c:809-836 | a function both profiles have gets the rows of both, within objects of its own |
| ProfileFile.CacheProfFile.MergeNew | valgrind-3.11.0/cachegrind/cg_merge.c:800-807 | a function only the source has gets a copy of the whole inner map |
| MergeRun.MergeAndDelete | valgrind-3.11.0/cachegrind/cg_merge.c:919-924 | overwriting every object of the source after the merge leaves the rows and the summary of the result as the merge made them |
| MergeRun.SmallMerges | valgrind-3.11.0/cachegrind/cg_merge.c:994-1004 | no iteration fails while the source has fewer than 9227464 functions and lines per function |
| MergeRun.Run | valgrind-3.11.0/cachegrind/cg_merge.c:893-926 | for every command line: the profile to write, the error or the crash is the one the merge of the parsed texts calls for; the iterator stops it only on a file too large |
| MergeRun.ParseProper | valgrind-3.11.0/cachegrind/cg_merge.c:612-765 | whatever the parser accepts is well-formed, with a summary equal to the sum of its rows |
| MergeRun.CombineAllMeans | valgrind-3.11.0/cachegrind/cg_merge.c:893-926 | it succeeds exactly if all files parse with one and the same events line, and gives the sum of all files' rows |
| MergeRun.AnyOrder | valgrind-3.11.0/cachegrind/cg_merge.c:893-926 | exchanging files on the command line changes neither success nor rows nor summary |
| ProfileFile.CacheProfFile.MergeRows | valgrind-3.11.0/cachegrind/cg_merge.c:815-835 | the inner loop merges the rows of one function, and leaves the vectors it reads alone |
| ProfileFile.ReadBody | valgrind-3.11.0/cachegrind/cg_merge.c:695-724 | the main loop follows the parsing function line by line and keeps the summary equal to the sum of the rows |
| ProfileFile.ReadProfile | valgrind-3.11.0/cachegrind/cg_merge.c:612-765 | parsing a text succeeds or fails exactly as specified, a file of desc: lines only running into the comparison with a missing line, and builds a profile of new objects that stands for the specified one |
| ProfileText.RowScan | valgrind-3.11.0/cachegrind/cg_merge.c:424-428 | a printed row is split into its line number and its counts |
| ProfileFormat.EventsCounted | valgrind-3.11.0/cachegrind/cg_merge.c:678-683 | the number of events is the number of names on the events line that begin with a letter |
| ProfileFormat.AcceptedExactly | valgrind-3.11.0/cachegrind/cg_merge.c:612-765 | a file with desc:, cmd: and events: lines, any fl=, fn= and counts lines and a stated summary is accepted if and only if every row has a number per event and the summary is the sum of the rows modulo 2^64; it then stands for the sums of the numbers given for each line of each function |
| ProfileText.BodyOuter | valgrind-3.11.0/cachegrind/cg_merge.c:417-432 | reading what was printed of any well-formed map rebuilds that map and its sums |
| ProfileText.ParseFails | valgrind-3.11.0/cachegrind/cg_merge.c:398-404 | a count or line of 2^63 or more is printed with a sign, and without events the summary line lacks its blank: parsing then fails |
| ProfileText.RoundTrip | valgrind-3.11.0/cachegrind/cg_merge.c:406-439 | for every profile with one-line names: parsing the printed text returns the same profile if it counts at least one event and all numbers are below 2^63, and fails otherwise |
| CBits.MaskIsMod | valgrind-3.11.0/cachegrind/cg_sim.c:62-65 | masking with 2^k - 1 is the remainder modulo 2^k |
| CBits.Log2 | valgrind-3.11.0/coregrind/m_libcbase.c:897-905 | the exponent of a power of two, and -1 for every other number |
| CBits.SmearStep | valgrind-3.11.0/cachegrind/cg_arch.c:203-207 | or-ing a number with itself shifted by s doubles its run of leading ones |
| CacheArch.FloorPowerOf2 | valgrind-3.11.0/cachegrind/cg_arch.c:201-209 | the largest power of two not above x, and 0 for 0 |
| CacheArch.CheckCache | valgrind-3.11.0/cachegrind/cg_arch.c:44-77 | accepted exactly if the line size is a power of two of at least 16, the cache holds more than one line, and size = line * assoc * 2^k; a line size or associativity of 0 ends in a division by zero |
| CacheArch.ScaledAssoc | valgrind-3.11.0/cachegrind/cg_arch.c:246-252 | the rounded associativity is at least the old one and misses the exact ratio by at most half |
| CacheArch.MaybeTweakLLc | valgrind-3.11.0/cachegrind/cg_arch.c:211-271 | without a whole set the geometry is untouched; otherwise it becomes 2^k sets, with 2^k the largest power of two not above the old set count; the assertion fails exactly on a negative part with no part 0 |
| CacheArch.TweakedFits | valgrind-3.11.0/cachegrind/cg_arch.c:246-254 | the new size differs from line * assoc * sets by at most half a line per new set |
| CacheArch.TweakExact | valgrind-3.11.0/cachegrind/cg_arch.c:234-255 | the new size divides exactly into 2^k sets if and only if it fits a signed 32-bit integer |
| CacheArch.TweakStable | valgrind-3.11.0/cachegrind/cg_arch.c:211-271 | an exact geometry is left alone |
| CacheArch.TweakTwice | valgrind-3.11.0/cachegrind/cg_arch.c:211-271 | adjusting is idempotent for every size below 2^31: a second adjustment changes nothing, and it meets its own assertion if and only if line * assoc * 2^k of the first is below 2^31 |
| CacheSets.SetHoldsRecent | valgrind-3.11.0/cachegrind/cg_sim.c:89-122 | after any references a set is its most recently used blocks in recency order, filled up with the initial zeros |
| CacheSets.MissIsTextbook | valgrind-3.11.0/cachegrind/cg_sim.c:89-122 | a reference misses exactly when the textbook rule says so, except for a first reference to block 0 while a slot is still unused, which the zero tags report as a hit |
| CacheSets.TouchPrefix | valgrind-3.11.0/cachegrind/cg_sim.c:89-122 | a row with fewer ways behaves as the front of a row with more |
| CacheSets.RecencyPlace | valgrind-3.11.0/cachegrind/cg_sim.c:89-122 | the place of a block in the recency order is the number of other blocks referenced since |
| CacheSim.LruExact | valgrind-3.11.0/cachegrind/cg_sim.c:89-163 | the exact miss rule for whole caches: only the references that map to the same set count |
| CacheSim.RefLruExact | valgrind-3.11.0/cachegrind/cg_sim.c:126-163 | the outcome of every (address, size) reference after any trace of such references, straddling ones included, is decided by that rule on the one or two blocks it touches |
| CacheSim.BlocksTouched | valgrind-3.11.0/cachegrind/cg_sim.c:126-163 | those blocks are exactly the lines of the bytes accessed, in order |
| CacheSim.SetContents | valgrind-3.11.0/cachegrind/cg_sim.c:54-163 | the contents of every set after any trace |
| CacheSim.RefKeepsInclusion | valgrind-3.11.0/cachegrind/cg_sim.c:126-163 | a reference, straddling or not, keeps the narrower cache included in the wider one, and hits in the wider if it hits in the narrower |
| CacheSim.MoreWaysFewerMisses | valgrind-3.11.0/cachegrind/cg_sim.c:89-163 | on every trace total misses never increase with associativity |
| CacheSim.NoPanic | valgrind-3.11.0/cachegrind/cg_sim.c:126-163 | references of 1 byte up to a line touch at most two lines |
| CacheSim.PanicsExactly | valgrind-3.11.0/cachegrind/cg_sim.c:126-163 | of the references up to a line exactly the empty ones at the start of a line panic |
| CacheSim.RepeatHits | valgrind-3.11.0/cachegrind/cg_main.c:914-949 | referencing the same place again hits and changes nothing, which is why a read and a write of one place may be counted as one |
| CacheTable.Cache.ShiftDown | valgrind-3.11.0/cachegrind/cg_sim.c:97-118 | the tag array is shifted in place by one slot up to the hit position |
| CacheTable.Cache.SetRefIsMiss | valgrind-3.11.0/cachegrind/cg_sim.c:89-122 | the shifted tag array of one set does what the row model does, and other sets are untouched |
| CacheTable.Cache.RefIsMiss | valgrind-3.11.0/cachegrind/cg_sim.c:126-163 | the whole reference on the flat tag array, with masks and shifts, refines the row model |
| BranchPred.CondPredictor.Predict | valgrind-3.11.0/cachegrind/cg_branchpred.c:94-132 | the in-place table does what the model does, indices stay in range and counters in 0..3 |
| BranchHistory.RegisterBits | valgrind-3.11.0/cachegrind/cg_branchpred.c:118-119 | after any run every bit of the register is the outcome as many branches back as its position says, 1 for taken, newest lowest |
| BranchHistory.SlotSelected | valgrind-3.11.0/cachegrind/cg_branchpred.c:98-110 | so the slot of every branch is the last seven outcomes and seven bits of its address |
| BranchHistory.CounterWalks | valgrind-3.11.0/cachegrind/cg_branchpred.c:121-129 | after any run every counter is its start walked up for taken and down for not taken, within 0..3, over exactly the outcomes that selected its slot |
| BranchHistory.MissesAre | valgrind-3.11.0/cachegrind/cg_branchpred.c:110-116 | the mispredictions of every run are those this rule predicts, told from addresses and outcomes alone |
| BranchHistory.PredictAll | valgrind-3.11.0/cachegrind/cg_branchpred.c:94-132 | the in-place predictor, from new, mispredicts exactly those |
| BranchHistory.LoopBranch | valgrind-3.11.0/cachegrind/cg_branchpred.c:94-132 | a branch taken n times from new is mispredicted 9 times, or n times if n < 9 |
| BranchPred.MissesArePaid | valgrind-3.11.0/cachegrind/cg_branchpred.c:94-132 | every misprediction is paid for by the distance of a counter from its goal |
| BranchPred.TwoMissesPerSlot | valgrind-3.11.0/cachegrind/cg_branchpred.c:94-132 | a run whose outcomes depend on the table index alone has at most two mispredictions per index used, from any state |
| BranchPred.UsedInRange | valgrind-3.11.0/cachegrind/cg_branchpred.c:94-132 | every index used is below the table size |
| Events.NoXIsGen | valgrind-3.11.0/cachegrind/cg_sim.c:179-234 | fetching along the no-crossing path equals the generic fetch whenever the instruction crosses no line |
| Instrument.FirstCallMeans | valgrind-3.11.0/cachegrind/cg_main.c:705-870 | one helper call, covering up to three queued events, does what its events do one after the other |
| Instrument.EquivModify | valgrind-3.11.0/cachegrind/cg_main.c:926-936 | turning a queued read into a modify keeps the meaning of queue and output |
| Instrument.CgState.FlushEvents | valgrind-3.11.0/cachegrind/cg_main.c:693-873 | flushing empties the queue and keeps the meaning; the inode-equality assertions hold |
| Instrument.CgState.Enqueue | valgrind-3.11.0/cachegrind/cg_main.c:902-911 | a full queue is flushed before the event goes in |
| Instrument.CgState.AddIr | valgrind-3.11.0/cachegrind/cg_main.c:875-892 | an instruction is queued as a fetch of the kind its line crossing calls for |
| Instrument.CgState.AddDr | valgrind-3.11.0/cachegrind/cg_main.c:894-912 | a read is queued only when caches are simulated |
| Instrument.CgState.AddDw | valgrind-3.11.0/cachegrind/cg_main.c:914-949 | a write right after a read of the same place by the same instruction joins it |
| Instrument.CgState.AddDGuarded | valgrind-3.11.0/cachegrind/cg_main.c:951-995 | a guarded access flushes first and is called under its guard |
| Instrument.CgState.ScanOne | valgrind-3.11.0/cachegrind/cg_main.c:1094-1314 | every kind of statement keeps the meaning of output and queue in step with the reference |
| Instrument.CgInstrument | valgrind-3.11.0/cachegrind/cg_main.c:1094-1337 | for every statement list, guard valuation and start state, running the emitted calls equals simulating the events one by one, including leaving through any exit |
| BlockCounts.CountsExactly | valgrind-3.11.0/cachegrind/cg_main.c:1094-1337 | for every block, guard valuation and start state that does not panic: each line gains one count per instruction, read, write that joins no read, and branch of the statements reached, counted on the statements; its misses are those of the references made, in order, each level seeing what the one above missed; mispredictions likewise; and the code leaves through the exit taken |
| BlockCounts.ReferenceStands | valgrind-3.11.0/cachegrind/cg_main.c:1094-1337 | the same of the actions of the block one by one |
| BlockCounts.EventBooked | valgrind-3.11.0/cachegrind/cg_sim.c:179-215 | one event adds one count to the right line, and one to m1 and mL exactly if the references miss there |
| Instrument.AnyCapacity | valgrind-3.11.0/cachegrind/cg_main.c:571-579 | the result does not depend on the capacity of the queue |
| Instrument.CappedPanics | valgrind-3.11.0/cachegrind/cg_main.c:1829-1833 | a capped access panics exactly if its size is 0 as a byte and it starts on a D1 line, or misses D1 and starts on an LL line |
| Instrument.CappedNeverPanics | valgrind-3.11.0/cachegrind/cg_main.c:1829-1833 | so never while some cache has lines below 256 bytes, which is what the minimum over all three caches is for |
| Instrument.WideLinesPanic | valgrind-3.11.0/cachegrind/cg_sim.c:205-234 | with lines of 256 bytes a capped access of 256 bytes does panic |
| DumpSort.GatherThreeWay | valgrind-3.11.0/callgrind/dump.c:971-977 | after the swap-back the segment is split into less, equal and greater exactly when the ties parked on the left fit beside the smaller elements |
| DumpSort.PivotBetween | valgrind-3.11.0/callgrind/dump.c:933-945 | the pivot of 8 to 40 elements is the median of the first, middle and last |
| DumpSort.AssembleParts | valgrind-3.11.0/callgrind/dump.c:1008-1009 | sorted parts around a good middle are sorted, and a bad middle never is |
| DumpSort.CleanUnfolds | valgrind-3.11.0/callgrind/dump.c:947-1009 | the condition on the input, one partitioning at a time |
| DumpSort.DistinctIsClean | valgrind-3.11.0/callgrind/dump.c:910-1010 | pairwise distinct elements always meet the condition |
| DumpSort.TiesCanBreakIt | valgrind-3.11.0/callgrind/dump.c:974-977 | [1,1,1,1,0,1,1] does not |
| DumpSortArray.InsertionSort | valgrind-3.11.0/callgrind/dump.c:918-932 | short segments are sorted in place, a permutation |
| DumpSortArray.ThreeWayPartition | valgrind-3.11.0/callgrind/dump.c:933-977 | the in-place partitioning is the specified sweep and swap-back |
| DumpSortArray.Qsort | valgrind-3.11.0/callgrind/dump.c:910-1010 | for every array and total order it terminates with a permutation that is sorted if and only if no partitioning met smaller elements fewer than the ties parked on its left |
| ShadowStack.Thread.PushCxt | valgrind-3.11.0/callgrind/context.c:274-331 | the old context and function-stack place are saved and the new function becomes current |
| ShadowStack.CxtMeans | valgrind-3.11.0/callgrind/context.c:274-331 | a context is the top function and its callers, innermost first, as many as it separates and as there are |
| ShadowStack.Thread.EnsureStackSize | valgrind-3.11.0/callgrind/callstack.c:88-112 | growing keeps all entries; slot i is certain to exist when i is at most the old size |
| ShadowStack.Thread.PushCall | valgrind-3.11.0/callgrind/callstack.c:186-268 | the new frame, the activation count and the skipped-caller pointer; no inclusive cost changes |
| ShadowStack.Thread.PopCall | valgrind-3.11.0/callgrind/callstack.c:309-370 | context, function stack and skipped-caller pointer are restored and the frame's cost moves to its arc |
| ShadowStack.Thread.Unwind | valgrind-3.11.0/callgrind/callstack.c:404-437 | the number of frames popped is the specified one, and no inclusive cost changes |
| ShadowStack.Thread.Dump | valgrind-3.11.0/callgrind/dump.c:1035-1061 | a dump moves what active calls owe to their arcs without changing any inclusive cost |
| ShadowStack.Thread.Tick | valgrind-3.11.0/callgrind/bbcc.c:604-625 | time passing is charged to each arc once per active call |
| ShadowStack.UnwoundBelow | valgrind-3.11.0/callgrind/callstack.c:420-433 | with recorded stack pointers in order, plain unwinding pops exactly the frames below the stack pointer |
| ShadowStack.UnwoundEqual | valgrind-3.11.0/callgrind/callstack.c:420-433 | at an equal stack pointer exactly the demanded number goes |
| ShadowStack.SamePopsMeans | valgrind-3.11.0/callgrind/bbcc.c:655-670 | the count found is the nearest frame at this stack pointer with the matching return address, or 0 if there is none |
| ShadowStack.PopConserved | valgrind-3.11.0/callgrind/events.c:377-400 | what a frame owes is exactly what its arc gains |
| ShadowStack.SettleConserved | valgrind-3.11.0/callgrind/dump.c:1044-1051 | the same for a frame that stays active |
| BalancedRuns.Execute | valgrind-3.11.0/callgrind/callstack.c:186-370 | any balanced run with dumps anywhere restores context, function stack, skipped-caller pointer, activation counts and frames, and accounts for all costs |
| BalancedRuns.CallAccounted | valgrind-3.11.0/callgrind/callstack.c:208-362 | entry, body and exit of one call add up |
| BalancedRuns.ArcGain | valgrind-3.11.0/callgrind/events.c:254-400 | dumps and pops together add to an arc, for each call along it, the cost at its pop minus the cost at its push |
| BlockStep.CountReturnPops | valgrind-3.11.0/callgrind/bbcc.c:641-675 | the counting loop finds the specified number of frames |
| BlockStep.ReturnExact | valgrind-3.11.0/callgrind/bbcc.c:641-764 | a return pops exactly the frames below the stack pointer, or exactly through the nearest frame whose return address matches |
| BlockStep.HandleUnderflow | valgrind-3.11.0/callgrind/bbcc.c:488-545 | the made-up call is pushed and popped with frames unchanged, and its arc is charged from the last dump on |
| BlockStep.LeaveOnJump | valgrind-3.11.0/callgrind/bbcc.c:704-721 | pop-on-jump leaves the top frame and takes over its source, exit and stack pointer |
| BlockStep.Transfer | valgrind-3.11.0/callgrind/bbcc.c:677-870 | jumps that count as calls, unwinding that turns a call into a return, and the delayed push |
| BlockStep.SetupBbcc | valgrind-3.11.0/callgrind/bbcc.c:561-870 | one step: recorded stack pointers stay in order, and frames, function stack, context, skipped caller, activation counts and cost are exactly those stated for return, underflow and every other transition; where no frame is left behind a jump or fall-through adds a frame exactly if the block is an entry or section or object differ, a call and a RET that leaves no frame always do, and the function on top, its activation count and the recorded stack pointer are given in each case; a true return pops at least one frame if and only if it is no underflow |
| BlockStep.GoBack | valgrind-3.11.0/callgrind/bbcc.c:745-764 | a true return either underflows, leaving the frames and entering the function returned to, or restores what the frames it leaves had saved |
| BlockStep.FirstFunctionReturns | valgrind-3.11.0/callgrind/bbcc.c:745-764 | three blocks on a new thread, the first function calling itself or a skipped function and returning above the recorded stack pointer: the frame of the call is still there |
| BlockStep.CallAndReturn | valgrind-3.11.0/callgrind/bbcc.c:641-764 | a call and a RET to its return address at the same stack pointer pop exactly its frame and restore function stack, context and activation counts |
| BlockStep.RunBlocks | valgrind-3.11.0/callgrind/bbcc.c:561-870 | so it is after every step of every run from a fresh thread, and the cost is the number of instructions executed |
| ArcTable.GrowthSuffices | valgrind-3.11.0/callgrind/jumps.c:141-144 | growing to 2 * size + 3 brings the table back under the load test |
| ArcTable.Table.Lookup | valgrind-3.11.0/callgrind/jumps.c:211-219 | walking the chain finds the entry of a key exactly when there is one |
| ArcTable.Table.Resize | valgrind-3.11.0/callgrind/jumps.c:83-128 | relinking every node in place into a larger table loses and duplicates nothing |
| ArcTable.Table.MoveChain | valgrind-3.11.0/callgrind/jumps.c:96-116 | one chain moved node by node |
| ArcTable.Table.NewJcc | valgrind-3.11.0/callgrind/jumps.c:136-182 | one entry is added, linked into exactly one chain and one list of its exit, or of the calls without a caller, and the load test holds |
| ArcTable.Table.LinkExit | valgrind-3.11.0/callgrind/jumps.c:155-167 | the new node goes in front of the linked list of its exit, or of the spontaneous calls, and the other lists stay |
| ArcTable.Table.GetJcc | valgrind-3.11.0/callgrind/jumps.c:186-232 | whichever shortcut answers, the entry returned is the one of the key |
| ArcTable.Calls | valgrind-3.11.0/callgrind/jumps.c:186-232 | over any sequence of calls the table is a plain map: equal arcs get one entry, different arcs different ones |
| Adler.SubtractIsMod | valgrind-3.11.0/auxprogs/valgrind-di-server.c:265-293 | the chain of conditional subtractions is the remainder modulo 65521 in its range |
| Adler.BlockFits | valgrind-3.11.0/auxprogs/valgrind-di-server.c:252-256 | 5552 bytes never overflow 32 bits |
| Adler.NmaxIsLargest | valgrind-3.11.0/auxprogs/valgrind-di-server.c:252-256 | 5553 can |
| Adler.Deferred | valgrind-3.11.0/auxprogs/valgrind-di-server.c:327-356 | reducing once at the end equals reducing after every byte |
| Adler.Adler32 | valgrind-3.11.0/auxprogs/valgrind-di-server.c:249-367 | for every buffer the result is the checksum of section 9 of RFC 1950, without overflow, if both halves of the running value are reduced |
| Adler.Accumulates | valgrind-3.11.0/auxprogs/valgrind-di-server.c:721-724 | two calls accumulate to one on the concatenation |
| Adler.OneByteNoticed | valgrind-3.11.0/auxprogs/valgrind-di-server.c:721-726 | one changed byte always changes the checksum |
| Adler.ExchangeNoticed | valgrind-3.11.0/auxprogs/valgrind-di-server.c:721-726 | so does exchanging two different neighbouring bytes |
| DiFrames.WriteLe | valgrind-3.11.0/auxprogs/valgrind-di-server.c:375-403 | little-endian bytes written in place, the rest of the buffer untouched |
| DiFrames.ReadLe | valgrind-3.11.0/auxprogs/valgrind-di-server.c:384-413 | their value read back |
| DiFrames.LeBytesValue | valgrind-3.11.0/auxprogs/valgrind-di-server.c:375-413 | reading undoes writing |
| DiFrames.LeValueBytes | valgrind-3.11.0/auxprogs/valgrind-di-server.c:375-413 | writing undoes reading |
| DiFrames.SendFrame | valgrind-3.11.0/auxprogs/valgrind-di-server.c:883-903 | what goes on the wire is checksum, length and data |
| DiFrames.WireBytes | valgrind-3.11.0/auxprogs/valgrind-di-server.c:883-903 | byte by byte: four of the checksum and four of the length, lowest first, then the data |
| DiFrames.ReceiveFrame | valgrind-3.11.0/auxprogs/valgrind-di-server.c:699-726 | a stream is accepted with data d if and only if it begins with the frame of d and d has at most 4 MB |
| DiFrames.RoundTrip | valgrind-3.11.0/auxprogs/valgrind-di-server.c:699-903 | a written frame of at most 4 MB is read back unchanged whatever follows it; a longer one is refused |
| DiFrames.CorruptByte | valgrind-3.11.0/auxprogs/valgrind-di-server.c:720-726 | a frame with one data byte changed in transit is refused |
| DiFrames.CorruptOrder | valgrind-3.11.0/auxprogs/valgrind-di-server.c:720-726 | so is one with two neighbouring data bytes exchanged |
| StopAndWait.StepKeeps | PA1/udp/udp_client.c:159-199 | every step of sender, receiver and channels keeps the invariant |
| StopAndWait.Safety | PA1/udp/udp_server.c:208-239 | for NUL-free files of at most 10000 frames, whatever is lost or duplicated: the text is a prefix of the file, holds every frame the sender is past, and is the file once the receiver leaves its loop or the sender is through |
| StopAndWait.NeverComplete | PA1/udp/udp_client.c:190-196 | beyond 10000 frames sequence numbers start over and the text stays too short in every run |
| StopAndWait.CompletesExactly | PA1/udp/udp_server.c:290-331 | a transfer can complete if and only if the file has at most 910000 characters, 10000 frames of 91 |
| StopAndWait.FinishesExactly | PA1/udp/udp_server.c:310-331 | at any point of any run the sender can still get through if and only if it is through, or the acknowledgement of the last frame is underway, or the receiver is still in its loop and sender and receiver do not both wait with nothing underway |
| StopAndWait.ReceivesExactly | PA1/udp/udp_client.c:225-255 | and the receiver can still get the whole file if and only if it has it or the two do not both wait with nothing underway |
| StopAndWait.LossDeadlocks | PA1/udp/udp_client.c:173-187 | neither side has a timeout: sending the first frame of any file and losing it leaves both waiting for ever |
| StopAndWait.LossesCanStop | PA1/udp/udp_client.c:173-187 | and so can losses at any later point, as long as the sender is not through |
| StopAndWait.StrandedForGood | PA1/udp/udp_client.c:225-255 | once the receiver has left its loop a sender whose last acknowledgement is lost never gets through |
| StopAndWait.Sender.Frame | PA1/udp/udp_client.c:159-170 | the frame sent is the one the state machine sends |
| StopAndWait.Sender.OnAck | PA1/udp/udp_client.c:172-196 | only a matching acknowledgement moves the sender on |
| StopAndWait.Sender.Finished | PA1/udp/udp_client.c:159 | the loop ends exactly when all frames are acknowledged |
| StopAndWait.Receiver.Length | PA1/udp/udp_client.c:226 | the loop condition measures the text |
| StopAndWait.Receiver.OnFrame | PA1/udp/udp_client.c:237-255 | the payload and a terminator are copied to the frame's place and the frame is acknowledged |
| Decimal.DigitsNumber | PA3/dfc.cpp:487-511 | decimal text is read back as the same number |
| StoreRequests.ParsePut | PA3/dfs.cpp:308-443 | the server reads a PUT request back field by field, data with newlines included |
| StoreRequests.ParseGet | PA3/dfs.cpp:308-412 | and a GET request |
| StoreAccess.Granted | PA3/dfs.cpp:308-443 | whatever is not refused has as its second word a user name, a colon and that user's password, is of the kind the first word says, and stays below that user's directory without dots |
| StoreAccess.RefusedExactly | PA3/dfs.cpp:340-369 | a request of a known kind is refused for user or password exactly if its second word is not that |
| StoreAccess.WrongPassword | PA3/dfs.cpp:365-369 | every GET and PUT with a wrong password or an unknown user is refused |
| StoreAccess.PathsMeet | PA3/dfs.cpp:371-395 | the paths of two users can coincide exactly if one name, with a slash after it, begins with the other, which takes a slash in a name |
| StoreAccess.FilesApart | PA3/dfs.cpp:371-395 | users without slashes in their names never share a file |
| ReplicatedStore.PiecesMakeFile | PA3/dfc.cpp:697-759 | for every length the four pieces make up the file |
| ReplicatedStore.PiecesNonempty | PA3/dfc.cpp:697-759 | no piece is empty exactly if the first three do not use the file up |
| ReplicatedStore.ShortFiles | PA3/dfc.cpp:697-759 | these are exactly the byte counts other than 0, 1, 2, 3, 5, 6 and 9 |
| ReplicatedStore.Server.HandleGet | PA3/dfs.cpp:494-538 | the first two nonempty pieces are sent, or an error if there are fewer |
| ReplicatedStore.Server.Serve | PA3/dfs.cpp:171-195 | a PUT stores its data under its piece name and changes nothing else; a GET changes nothing; a request without the right password changes nothing and is answered with that error; a file changes only below the directory of the user who asked |
| ReplicatedStore.Decode | PA3/dfc.cpp:483-527 | both pieces of an answer are entered under their numbers |
| ReplicatedStore.SendGet | PA3/dfc.cpp:456-529 | a server that is down, that has fewer than two nonempty pieces, or whose request or answer is longer than an int can say, adds nothing |
| ReplicatedStore.PutFile | PA3/dfc.cpp:690-759 | afterwards every server holds exactly its two pieces, and other files are untouched |
| ReplicatedStore.ServerHosts | PA3/dfc.cpp:697-759 | which pieces a server gets, seen from the server |
| ReplicatedStore.GetFile | PA3/dfc.cpp:575-625 | servers 0 and 2, or else 1 and 3, supply the pieces that are joined |
| ReplicatedStore.FetchWhole | PA3/dfc.cpp:575-625 | with no piece empty the file comes back exactly unless two neighbouring servers are down |
| ReplicatedStore.FetchNothing | PA3/dfs.cpp:504-546 | with an empty last piece it never does, even with all servers up |
| ReplicatedStore.StoreAndFetch | PA3/dfc.cpp:575-759 | one PUT with all servers up and a GET with any servers down return the bytes stored if and only if 3 * ceil(n/4) < n and no two neighbouring servers are down; from 10 bytes on, so for every encrypted file, the second condition alone decides |

## Left out

- PA2 web servers, PA4 proxy: network plumbing around small parsers.
- Sockets, threads, file I/O, encryption, MD5, option parsing, logging: bytes, bins and liveness of servers are given values, and messages arrive whole.
- PA1 control strings: frames are pairs of a number and a payload; the START and command exchanges around the data loops and failing receive calls are not modelled, nor is a late datagram of theirs, which would wake a waiting sender.
- PA3 LIST and MKDIR, repeated PUTs of changed content, and PUTs with a server down: stale or missing pieces make the retrieval law inapplicable.
- ReplicatedStore.StoreAndFetch: PUT messages above 2^31 - 1 bytes are excluded, because their lengths pass through an int on both sides.
- Files of fewer than 10 stored bytes, whose last quarter can be empty: the model covers them, but the client stores encrypted files, which have at least 32 bytes.
- StoreRequests.Parse: a PUT line without a newline reads past its buffer in the source; the model stores nothing then.
- ReplicatedStore.Load: that an empty std::vector has a null data pointer is taken from the usual library, as the source takes it.
- Allocation failure in all programs, in particular the out-of-memory paths of the deep copy and of profile parsing.
- ProfileFile.CacheProfFile.Ddel: freed objects are overwritten and nothing is promised of them; that they cannot be used again is not expressed. File and function names are values.
- Printing the merged profile is modelled on its value, in ProfileText.
- ProfileText.Parse: input with NUL characters, where C strings end early.
- Cachegrind's per-line counter table, its output file and debug-info lookup; the size assertions of addEvent_Dr and addEvent_Dw on accesses the front end never produces.
- CacheArch.MaybeTweakLLc: the floating-point rounding of the scaled associativity is exact real arithmetic.
- Callgrind's signal handlers and thread switches, function groups, separated recursion levels, collection toggles, jump arcs and the cost of skipped code.
- BlockStep.SetupBbcc: the assertion made on a jump out of skipped code with pop-on-jump is not modelled, and the PPC32 rule for tail calls is left out.
- ShadowStack.Thread.PushCall: costs and activation counts are unbounded numbers; the call counters kept for statistics are left out.
- Hash-consing of contexts and of block/context pairs: a context is the list of its functions.
- ArcTable.Table.NewJcc: the 32-bit overflow of ten times the entry count and the assertion on the exit number are left out.
- ArcTable.Table.GetJcc: the source reads the shortcut of the caller without asking whether there is one; the model has a shortcut for unknown callers too.
- The debuginfo server's commands, compression and CRC.
- clo.c pattern trie: insertion and lookup do not agree on wildcard children.
