# Fort Firewall driver core: verified model

A Dafny model of the parts of the Fort Firewall kernel driver whose correctness is hardest to see from the code:
the memory allocator it embeds, its path matcher, its intrusive containers, the state machines of its statistics,
log and configuration, and the lookups and records they share. Check it with `dafny verify dfyconfig.toml`.

**Allocator** (`Bits`, `TlsfMapping`, `TlsfHeap`, `TlsfLists`, `TlsfPools`, `TlsfData`, `Tlsf`, `ConfPool`). Memory is
a map of 64-bit words. Headers, flag bits, back pointers and free-list links are words of it, shared with client data as
in the source. A ghost picture says which blocks tile which pool and which lists hold the free ones; `Control.Valid`
says that memory, picture, lists, list heads and both bitmaps agree. Every operation keeps it, states the new picture,
and leaves every word of every other live block alone (`DataKept`). The constants are those of the driver build: 64-bit
words and pools of up to 16 MiB.

**Matcher** (`Glob`, `Wildmatch`). `Glob.Matches` is a declarative meaning of patterns; the matcher, with its abort
codes, its recursion on shorter patterns and its skip ahead to a literal, decides exactly that meaning.

**Containers** (`Sequences`, `StableSort`, `TommyChain`, `MergeSort`, `TommyList`, `HashDyn`, `ArrayOf`). Nodes are objects whose
links are rewritten in place; ghost sequences say what a chain, list, bucket or table holds.

**Statistics** (`Accounting`, `SlotIndex`, `StatTables`, `Stat`, `SpeedLimit`). `Accounting` is the abstract machine
(processes with bytes, a report queue, flows) with its invariant and conservation over whole runs; `Stat` is the class
of the driver's tables, slot indexes, active chain and counters, and each of its methods carries out a step of that
machine. `SpeedLimit` is the part that drains group backlogs.

**Log** (`LogBuffer`, `LogCodec`, `CalloutTimer`). A buffer with one pending read and a queue of chunks, the record
format, and the timer that moves the statistics into the log.

**Configuration** (`ExeMap`, `ConfRef`, `ConfTables`). The program index, the reference-counted configuration that is
replaced while readers hold it, and the table lookups.

`Widths` and `Wrappers` hold the integer widths and `Option`.

Facts about the code that the proofs brought out:

- `tlsf_add_pool` accepts a region of exactly `block_size_max` usable bytes, whose class is outside the table
  (`TlsfMapping.MappingInsertInTable`, `Tlsf.LargestPool`).
- An alignment of 2^63 makes the padding of `tlsf_memalign` wrap, so that it no longer covers the alignment gap
  (`TlsfMapping.PaddedRequestSpec`): every request is then padded to 24 bytes
  (`TlsfMapping.PaddedAtTop`), and the result may be unaligned and too small (`Tlsf.Control.Memalign`, and the run
  `Tlsf.ShortBlock`). The driver makes no aligned allocations.
- `fort_conf_pool_malloc` fails with a new pool in place for requests of 64513 to 65279 bytes, whose class is rounded
  up past a 64 KiB pool, and from half of the largest pool size on, where the pool is no longer doubled (entry
  sizes are 16-bit, so the driver meets only the first range). Each such call leaves one more pool behind
  (`ConfPool.ConfPools.Malloc`, and the run `ConfPool.TooSmallPool`).
- Moving an open flow to another process breaks the reference counts, and so does the 65536th flow of one process
  (`Stat.Stat.Associate`, and the runs `Stat.MovedFlow` and `Stat.ManyFlows`).
- `fort_stat_group_speed_limit` yields bit 0 only, so no flow is ever marked for the outbound limit; the model keeps
  this, and an outbound segment never changes a group (`Stat.Stat.Classify`).
- A direction without a limit keeps its flush bit for ever and releases nothing
  (`SpeedLimit.NeverReleasedWithoutLimit`).
- A record longer than `FORT_LOG_SIZE_MAX` may be written past the end of a pending read, and the unsigned comparison
  does not notice (`LogBuffer.AlwaysFits`, `LogBuffer.OverrunUnnoticed`, and the run `LogCodec.Overrun`).
  Blocked-address records with a path of more than 496 bytes and traffic records of more than 43 processes are that
  long (`LogCodec.EntrySizes`, `CalloutTimer.ShortReports`).
- `exe_apps_n` is ahead of the number of entries by the number the configuration announced, and wraps at 2^16, for
  example with a configuration of 40000 programs. This does no harm: slots go round with it, and no two paths share one
  as long as fewer than 65536 paths are known when a new one is added (`ExeMap.RunRefines`, `ExeMap.ExeMap.Add`). One
  more takes the slot of another (`ExeMap.OneTooMany`). Adding a new path returns `TRUE`, which is 1, not
  `STATUS_SUCCESS`; the model calls it `Added`.
- The prefix search needs its table in the order of bytes, with no entry a prefix of another
  (`ConfTables.FindsIffOrdered`). The writer orders paths by 16-bit units and does not remove prefixes
  (`src/ui/util/conf/confutil.h:25`), so that an entry may be missed (`ConfTables.UnitOrderMisses`).
- Two configuration changes at once can lose a configuration that nobody frees (`ConfRef.UnserialisedLeak`); an
  exchange loses the one it replaces exactly when nobody holds it (`ConfRef.SwapLeaks`).
- An address group that excludes everything still includes what its inclusion list and zones name, and one that both
  includes and excludes everything includes nothing (`ConfTables.IpIncluded`).

## Model

| member | source | states |
|---|---|---|
| `TlsfMapping.AdjustRequestSpec` | src/3rdparty/tlsf/tlsf.c:508-522 | an adjusted request is the least block size that covers the request, iff the rounding does not wrap; it is 0 iff the request is empty or above the largest block |
| `TlsfMapping.MappingInsertInTable` | src/3rdparty/tlsf/tlsf.c:529-546 | both indices are in the table iff the size is below `block_size_max` |
| `TlsfMapping.LargestOutOfTable` | src/3rdparty/tlsf/tlsf.c:529-546 | a block of exactly `block_size_max` bytes is classed one row behind the table |
| `TlsfMapping.ClassMonotone` | src/3rdparty/tlsf/tlsf.c:529-546 | a larger size is never in an earlier class |
| `TlsfMapping.SearchFits` | src/3rdparty/tlsf/tlsf.c:548-557 | any block whose class is at or above the searched class holds the request |
| `TlsfMapping.ClassOfGranule` | src/3rdparty/tlsf/tlsf.c:529-546 | a size from q to q + 1 granules, each a 32nd of a power of two, has the class of that power and q |
| `TlsfMapping.SmallClass` | src/3rdparty/tlsf/tlsf.c:532-537 | sizes below 256 have one class for every 8 bytes |
| `TlsfMapping.SearchClass` | src/3rdparty/tlsf/tlsf.c:548-557 | the searched class of a request is that of the next granule up |
| `TlsfMapping.PaddedRequestSpec` | src/3rdparty/tlsf/tlsf.c:1152-1159 | the padded request is the least multiple of 8 that covers request, alignment and header iff the alignment is below 2^63, and bounds on it |
| `TlsfMapping.PaddedAtTop` | src/3rdparty/tlsf/tlsf.c:1152-1159 | at the alignment 2^63 every request is padded to the least block size |
| `TlsfMapping.AlignmentGapSpec` | src/3rdparty/tlsf/tlsf.c:1166-1184 | the aligned address is the least multiple of the alignment that leaves no gap or room for the leading free block; the gap is 0 or between the header size and align + 24; at 2^63 it leads to that address or exceeds every block |
| `TlsfMapping.MultipleOfIsMod` | src/3rdparty/tlsf/tlsf.c:496-502 | the divisibility used in those contracts is the remainder being 0 |
| `TlsfHeap.HeaderReads` | src/3rdparty/tlsf/tlsf.c:381-459 | the header word is the size plus 1 if free plus 2 if behind a free block, a free block has its address behind it as back pointer, and the accessors read just that: size, both flags, next block |
| `TlsfHeap.MarkAsFreeOk` | src/3rdparty/tlsf/tlsf.c:469-475 | the header writes of freeing turn a correct heap into the correct heap with that block free, and keep all links |
| `TlsfHeap.MarkAsUsedOk` | src/3rdparty/tlsf/tlsf.c:477-482 | likewise for handing out |
| `TlsfHeap.AbsorbOk` | src/3rdparty/tlsf/tlsf.c:685-692 | absorbing turns two neighbours into one block over both, with the back pointer after it right |
| `TlsfHeap.SplitWritesWords` | src/3rdparty/tlsf/tlsf.c:663-682 | which words a split writes and what they hold, whatever flags the remainder's header word held before |
| `TlsfHeap.SplitFinish` | src/3rdparty/tlsf/tlsf.c:729-735 | the two further writes give the same result in either caller's order, with the remainder's header and back pointer right |
| `TlsfLists.InsertLinks` | src/3rdparty/tlsf/tlsf.c:621-639 | the three link writes put a node at the head of one list and leave all other lists correctly linked |
| `TlsfLists.RemoveLinks` | src/3rdparty/tlsf/tlsf.c:592-600 | the two link writes take a node out of its list and leave all lists correctly linked |
| `TlsfLists.MergeKeeps` | src/3rdparty/tlsf/tlsf.c:695-723 | a merge keeps the whole invariant, the merged block being off the lists |
| `TlsfLists.SplitKeeps` | src/3rdparty/tlsf/tlsf.c:726-767 | a split keeps it, with both halves off the lists, and no other free neighbours |
| `TlsfPools.LiveAreasDisjoint` | src/3rdparty/tlsf/tlsf.c:427-437 | live areas are aligned, inside their pool and disjoint from every other block and its header word |
| `TlsfPools.WalkTiles` | src/3rdparty/tlsf/tlsf.c:920-935 | walking a pool meets exactly its blocks, and sizes plus overhead always add up to the same amount |
| `TlsfPools.NothingLiveOneBlock` | src/3rdparty/tlsf/tlsf.c:694-723 | a pool without live blocks is one free block and its sentinel |
| `TlsfData.OwnIsNotData` | src/3rdparty/tlsf/tlsf.c:427-437 | the words the allocator may use are in no live area |
| `Tlsf.SearchMisses` | src/3rdparty/tlsf/tlsf.c:568-577 | clear bits from the searched class on mean that all lists from there on are empty |
| `Tlsf.Control.constructor` | src/3rdparty/tlsf/tlsf.c:813-829 | an empty allocator satisfies the invariant |
| `Tlsf.Control.SearchSuitableBlock` | src/3rdparty/tlsf/tlsf.c:559-589 | the head of the first non-empty list at or after the given one; 0 only if all of them are empty |
| `Tlsf.Control.RemoveFreeBlock` | src/3rdparty/tlsf/tlsf.c:592-618 | one node leaves one list; heads and both bitmaps stay exact |
| `Tlsf.Control.InsertFreeBlock` | src/3rdparty/tlsf/tlsf.c:621-639 | one node goes to the head of one list; heads and both bitmaps stay exact |
| `Tlsf.Control.BlockRemove` | src/3rdparty/tlsf/tlsf.c:642-647 | a free block leaves the list of its class |
| `Tlsf.Control.BlockInsert` | src/3rdparty/tlsf/tlsf.c:650-655 | a free block becomes the head of the list of its class |
| `Tlsf.Control.BlockMergePrev` | src/3rdparty/tlsf/tlsf.c:695-707 | the block is joined with a free predecessor, if it has one; the result has a used predecessor |
| `Tlsf.Control.BlockMergeNext` | src/3rdparty/tlsf/tlsf.c:710-723 | the block is joined with a free successor, if it has one; the result has a used successor |
| `Tlsf.Control.BlockTrimFree` | src/3rdparty/tlsf/tlsf.c:726-736 | the tail is split off and listed iff it can stand alone |
| `Tlsf.Control.BlockTrimFreeLeading` | src/3rdparty/tlsf/tlsf.c:753-767 | the front is split off and listed iff the rest can stand alone |
| `Tlsf.Control.BlockLocateFree` | src/3rdparty/tlsf/tlsf.c:769-797 | fails iff no free block is in the searched class or above; otherwise takes, off its list, the head of the list of the lowest such class that has any free block |
| `Tlsf.Control.BlockPrepareUsed` | src/3rdparty/tlsf/tlsf.c:799-810 | exactly one new live block, of the adjusted size or less than a header more |
| `Tlsf.Control.Malloc` | src/3rdparty/tlsf/tlsf.c:1131-1137 | fails iff no free block is in the searched class or above, changing nothing; otherwise one new aligned live block of at least the request, at the start of the head of the list of the lowest such class that has any free block, cut down to the adjusted size iff the rest can stand alone; other blocks and their data stay |
| `Tlsf.Control.AlignFront` | src/3rdparty/tlsf/tlsf.c:1166-1191 | the leading split always succeeds, and what is left is aligned and only the gap smaller; at 2^63 nothing is split off unless the rest starts there |
| `Tlsf.Control.Memalign` | src/3rdparty/tlsf/tlsf.c:1139-1194 | as allocation, for the padded request: the free block is chosen alike, and the result is the first aligned address in it that leaves no gap or one for a free block; at 2^63, one new live block cut from a free one, at that address or where the free block was, and possibly too small |
| `Tlsf.ShortBlock` | src/3rdparty/tlsf/tlsf.c:1139-1194 | a run: 1000 bytes at the alignment 2^63 are served, unaligned, by a block of 24 bytes |
| `Tlsf.Control.Free` | src/3rdparty/tlsf/tlsf.c:1196-1209 | exactly that block stops being live; joined with its free neighbours it is the head of the list of its class; coalescing is complete again; other blocks' data stay |
| `Tlsf.Control.ReleaseAll` | src/3rdparty/tlsf/tlsf.c:1196-1209 | freeing all live blocks in any order leaves each pool one free block |
| `Tlsf.Control.AddPool` | src/3rdparty/tlsf/tlsf.c:996-1043 | rejected iff misaligned or of a wrong size, changing nothing; otherwise the new pool is one free block and a sentinel, whatever the memory held before |
| `Tlsf.LargestPool` | src/3rdparty/tlsf/tlsf.c:1001-1023 | a region of 2^24 + 16 bytes passes the size check although its block has no list |
| `Tlsf.Control.ClientWrite` | src/3rdparty/tlsf/tlsf.c:427-437 | the owner of a block may write any word of it, also the last, which is the next header's back pointer; the invariant and other blocks' data stay |
| `Tlsf.Control.CheckPasses` | src/3rdparty/tlsf/tlsf.c:860-910 | all that `tlsf_check` insists on, read from memory and bitmaps |
| `ConfPool.PoolSizes` | src/driver/fortcnf.c:7-16 | pools of 64 KiB, of twice the request or of the request, with the exact limits, and the size of the free block in each |
| `ConfPool.FreshPoolServes` | src/driver/fortcnf.c:7-16 | a new pool serves the request it is made for iff the size is at most 64512, or from 65280 up to half the largest pool |
| `ConfPool.ConfPools.Init` | src/driver/fortcnf.c:88-100 | the first pool holds the control structure and then one free block; no pool iff too large or without memory |
| `ConfPool.ConfPools.Malloc` | src/driver/fortcnf.c:112-137 | fails iff there is no pool, or nothing fits and there is no new pool or it is of no use, and then nothing live changes, but the new pool stays; otherwise one new aligned live block of at least the request, cut as in the allocator from the block it chooses, or from the start of the new pool; a pool is added iff nothing fitted before; the list has exactly the allocator's pools |
| `ConfPool.FirstRequest` | src/driver/fortcnf.c:88-137 | with a first pool of 64 KiB, a first request of less than 65280 bytes fails iff it is above 64512, leaving a second pool with a free block of 65504 bytes |
| `ConfPool.TooSmallPool` | src/driver/fortcnf.c:88-137 | a run: behind the first pool, 64513 bytes are refused with a free block of 65504 bytes at hand |
| `Glob.PlainMatches` | src/driver/common/wildmatch.c:70-87 | a pattern without special characters matches exactly itself |
| `Glob.StarName` | src/driver/common/wildmatch.c:94-159 | `*name` matches exactly what ends in the name with no separator before it |
| `Glob.AnyDepthName` | src/driver/common/wildmatch.c:94-118 | `**\name` matches exactly the name, alone or behind a separator |
| `Glob.OneCharMatches` | src/driver/common/wildmatch.c:84-181 | `?`, a character, a range and their negations stand for one character other than a separator |
| `Glob.ClassMatches` | src/driver/common/wildmatch.c:160-181 | a class ends at the first closing bracket behind its first character, and `!` or `^` negates it |
| `Wildmatch.Wildmatch` | src/driver/common/wildmatch.c:65-189 | a match iff the pattern's meaning holds of the text; `WM_ABORT_ALL`: no suffix matches; `WM_ABORT_TO_STARSTAR`: no suffix from the same path segment matches (for patterns not starting with a star) |
| `Wildmatch.MatchStar` | src/driver/common/wildmatch.c:131-159 | the star loop, with its skip ahead to a literal and its early aborts, loses no match and finds only matches |
| `Wildmatch.ScanClass` | src/driver/common/wildmatch.c:160-181 | the scan finds the end of the class, or that there is none, and decides membership |
| `Wildmatch.AbortIsSound` | src/driver/common/wildmatch.c:152-156 | a failure for the rest of a pattern is one for the whole, for later starts too |
| `Wildmatch.StarSepOutcome` | src/driver/common/wildmatch.c:119-129 | a single star before a separator may move to the next separator of the text |
| `Wildmatch.TrailingStar` | src/driver/common/wildmatch.c:111-118 | a trailing double star matches everything, a single one the rest of the segment |
| `Wildmatch.CharOutcome` | src/driver/common/wildmatch.c:78-87 | a token of one character either advances both or excludes a match |
| `StableSort.MergeSorted` | src/3rdparty/tommyds/tommychain.h:86-113 | the merge of sorted runs is sorted |
| `StableSort.MergeStable` | src/3rdparty/tommyds/tommychain.h:86-113 | merging stable sorts of two adjacent segments is a stable sort of both |
| `StableSort.MergeAppends` | src/3rdparty/tommyds/tommychain.h:121-126 | the first shortcut agrees with the merge |
| `StableSort.MergePrepends` | src/3rdparty/tommyds/tommychain.h:128-134 | so does the second, which has to be strict |
| `StableSort.StableSortUnique` | src/3rdparty/tommyds/tommychain.h:139-142 | order and stability determine the result, nodes included |
| `TommyChain.ChainConcat` | src/3rdparty/tommyds/tommychain.h:74-81 | two linked chains become one |
| `TommyChain.ChainSplice` | src/3rdparty/tommyds/tommychain.h:60-69 | a chain is linked in between two parts of another |
| `TommyChain.ChainMerge` | src/3rdparty/tommyds/tommychain.h:86-113 | relinking in place yields a chain of the stable merge |
| `TommyChain.ChainMergeDegenerated` | src/3rdparty/tommyds/tommychain.h:119-137 | so does the merge with its shortcuts |
| `MergeSort.Increment` | src/3rdparty/tommyds/tommychain.h:182-196 | adding one to the counter fills the bucket above its low ones, empties those and leaves the rest |
| `MergeSort.AddNode` | src/3rdparty/tommyds/tommychain.h:176-196 | bucket i holds a sorted run of 2^i nodes iff bit i of the counter is set, older runs in higher buckets |
| `MergeSort.MergeBuckets` | src/3rdparty/tommyds/tommychain.h:203-215 | the buckets merge to a stable sort of the whole chain |
| `MergeSort.ChainMergesort` | src/3rdparty/tommyds/tommychain.h:151-216 | a chain becomes a chain of its stable sort, for every total preorder |
| `TommyList.InsertHead` | src/3rdparty/tommyds/tommylist.h:147-176 | the list with the node in front, with its circular `prev` |
| `TommyList.InsertTail` | src/3rdparty/tommyds/tommylist.h:184-221 | the list with the node at the end |
| `TommyList.Tail` | src/3rdparty/tommyds/tommylist.h:132-140 | the last node, or null |
| `TommyList.RemoveExisting` | src/3rdparty/tommyds/tommylist.h:254-269 | the list without the node, wherever it was |
| `TommyList.Concat` | src/3rdparty/tommyds/tommylist.h:278-305 | the two lists in a row, either of which may be empty |
| `TommyList.Count` | src/3rdparty/tommyds/tommylist.h:329-340 | the number of nodes |
| `TommyList.Sort` | src/3rdparty/tommyds/tommylist.c:34-59 | the list becomes a correctly linked list of its stable sort |
| `HashDyn.DoubledLookup` | src/3rdparty/tommyds/tommyhashdyn.c:72-94 | growing keeps the nodes of each hash, in their order |
| `HashDyn.HalvedLookup` | src/3rdparty/tommyds/tommyhashdyn.c:95-106 | so does shrinking |
| `HashDyn.LookupMembers` | src/3rdparty/tommyds/tommyhashdyn.h:200-211 | the bucket of a hash holds all nodes with that hash |
| `HashDyn.SplitBucket` | src/3rdparty/tommyds/tommyhashdyn.c:83-93 | a bucket's list is relinked into the two lists of its nodes' new positions |
| `HashDyn.Grow` | src/3rdparty/tommyds/tommyhashdyn.c:72-94 | the new buckets are lists of the doubled table |
| `HashDyn.Shrink` | src/3rdparty/tommyds/tommyhashdyn.c:95-106 | the new buckets are lists of the halved table |
| `HashDyn.HashDyn.constructor` | src/3rdparty/tommyds/tommyhashdyn.c:34-43 | an empty table of the least size |
| `HashDyn.HashDyn.Insert` | src/3rdparty/tommyds/tommyhashdyn.c:137-148 | the node set gains the node, last among those with its hash; the table doubles iff it is then half full; less than half full and, unless of least size, more than an eighth |
| `HashDyn.HashDyn.RemoveNode` | src/3rdparty/tommyds/tommyhashdyn.c:150-159 | the node set loses the node, all others keep their order; the table halves iff it is then no more than an eighth full and not of least size; the load bounds hold |
| `HashDyn.HashDyn.Remove` | src/3rdparty/tommyds/tommyhashdyn.c:161-181 | the first node with the hash that matches is removed and returned; null iff there is none; the table halves as above |
| `HashDyn.HashDyn.Search` | src/3rdparty/tommyds/tommyhashdyn.h:223-234 | the first node with the hash that matches; null iff there is none |
| `ArrayOf.ArrayOf.constructor` | src/3rdparty/tommyds/tommyarrayof.c:33-46 | an empty array with one segment, shared by the positions of low bits |
| `ArrayOf.ArrayOf.RefInSegment` | src/3rdparty/tommyds/tommyarrayof.h:91-104 | the cell of a position lies inside the segment of its highest bit |
| `ArrayOf.ArrayOf.RefsApart` | src/3rdparty/tommyds/tommyarrayof.h:91-104 | different positions have disjoint cells |
| `ArrayOf.ArrayOf.Grow` | src/3rdparty/tommyds/tommyarrayof.c:59-78 | the array has at least the new count, with no segment more than that takes, and no existing position changes its address |
| `Accounting.StepGood` | src/driver/fortstat.c:309-441 | every operation keeps the invariant of the accounts |
| `Accounting.StartGood` | src/driver/fortstat.c:243-252 | the empty accounts satisfy it |
| `Accounting.RunGood` | src/driver/fortstat.c:309-488 | in every reachable state the report queue has no duplicates, holds only known processes, and holds every process with bytes or without open flows; open flows' processes are known |
| `Accounting.FlushMeaning` | src/driver/fortstat.c:453-488 | a flush reports the first processes of the queue once each with all their bytes, forgets exactly those without open flows, zeroes the others and changes nothing else |
| `Accounting.FlushAll` | src/driver/fortstat.c:453-488 | a full flush leaves exactly the processes with open flows, and no bytes |
| `Accounting.FlushSplit` | src/driver/fortcout.c:752-772 | flushing in parts is flushing at once |
| `Accounting.TrafficConserved` | src/driver/fortstat.c:411-488 | over every run and for each process: bytes reported plus bytes held are the bytes classified, modulo 2^32 |
| `Accounting.CongruentBelowWrap` | src/driver/fortstat.c:426-427 | below 2^32 bytes that is plain equality |
| `SlotIndex.InsertOk` | src/driver/fortstat.c:84-102 | taking a slot from the free chain or from the end gives no slot to two ids |
| `SlotIndex.RemoveOk` | src/driver/fortstat.c:70-77 | giving a slot back keeps every slot either named or free |
| `StatTables.RefcountIsRefs` | src/driver/fortstat.c:41-55 | a process's reference count is the number of open flows pointing at it |
| `StatTables.OpenFlowWF` | src/driver/fortstat.c:227-240 | opening a flow keeps the counts iff the process has fewer than 65535 |
| `StatTables.SetOptionsWF` | src/driver/fortstat.c:226-240 | re-associating an open flow keeps the counts iff its process stays the same |
| `Stat.Stat.constructor` | src/driver/fortstat.c:243-252 | the empty tables |
| `Stat.Stat.AssociateProc` | src/driver/fortstat.c:309-334 | the process is known or newly added, or which error, with nothing changed |
| `Stat.Stat.FlowAdd` | src/driver/fortstat.c:209-241 | the flow is open to the process with exactly the speed limit, fragmentation and group asked for, no deferral, and the fragmentation state of a flow that was open, or blocked; other flows' options stay; the counts are kept iff an open flow keeps its process and no count overflows |
| `Stat.Stat.Associate` | src/driver/fortstat.c:336-363 | the exact status and new accounts; the flow has the limit and fragmentation bits of its group; the tables stay sound exactly when an open flow keeps its process and no count overflows; a refused flow never comes with a new process, so that there is none to undo |
| `Stat.FirstSegment` | src/driver/fortstat.c:336-441 | a run: the first inbound TCP segment after a successful association is charged to the group iff the group has a speed limit |
| `Stat.Stat.Delete` | src/driver/fortstat.c:167-180 | the flow goes; a process left without open flows is queued first for its last report, unless it is queued already; nothing else changes |
| `Stat.DeleteMeaning` | src/driver/fortstat.c:167-180 | the process is queued exactly when no other flow is open to it and it is not queued |
| `Stat.Stat.Classify` | src/driver/fortstat.c:411-441 | the bytes go to the flow's process, which becomes active, and to the flow's group iff it is an inbound TCP segment of a flow with the limit; nothing else changes |
| `Stat.Stat.TrafFlush` | src/driver/fortstat.c:453-488 | the reports and the new accounts are those of the abstract flush |
| `Stat.Stat.Clear` | src/driver/fortstat.c:273-281 | no process is known, all flows are closed, and the tables stay sound |
| `Stat.Stat.Update` | src/driver/fortstat.c:283-296 | statistics are on iff asked for; switching them off clears them: processes, open flows and group backlogs; nothing else changes them |
| `Stat.MovedFlow` | src/driver/fortstat.c:226-240 | a run: an open flow is moved to another process, and the tables are not sound any more |
| `Stat.ManyFlows` | src/driver/fortstat.c:41-46 | a run: a process gets 65536 flows, and the tables are not sound any more |
| `SpeedLimit.ReleasedExactlyOnce` | src/driver/fortstat.c:490-510 | with a limit, the held back packets are first released at tick max(1, backlog div limit), and the flush bit stays set until exactly then |
| `SpeedLimit.ReleasedOnce` | src/driver/fortstat.c:490-510 | and at no later tick |
| `SpeedLimit.BacklogAfter` | src/driver/fortstat.c:490-510 | before the release tick, n ticks have drained exactly n times the limit |
| `SpeedLimit.LeftAtRelease` | src/driver/fortstat.c:490-510 | at the release tick the backlog is what is left modulo the limit, or 0 if it was below the limit |
| `SpeedLimit.NeverReleasedWithoutLimit` | src/driver/fortstat.c:490-510 | with limit 0 nothing is ever released, the flush bit stays and the backlog is dropped |
| `SpeedLimit.Groups.DirMeans` | src/driver/fortstat.c:380-409 | inbound and outbound counters, limits and flush bits of a group, the inbound bit being the even one |
| `SpeedLimit.Groups.Charge` | src/driver/fortstat.c:380-409 | one direction of one group is charged, modulo 2^32; packets of the opposite direction are held back iff the limit is reached |
| `SpeedLimit.Groups.Flush` | src/driver/fortstat.c:512-548 | each direction of each group with a flush bit set ticks: a pending one drains by the limit and stays pending iff the limit is still reached, one without a flush bit is zeroed; the counterpart's release bit is set iff it is no longer pending |
| `SpeedLimit.Groups.FlushTimes` | src/driver/fortstat.c:490-548 | over a run of ticks without new traffic, each pending direction with a limit releases at that tick and no other, whatever the other directions and groups do, with the backlog exactly as above before and at the release |
| `LogBuffer.LogBuffer.constructor` | src/driver/fortbuf.c:72-75 | an empty buffer |
| `LogBuffer.LogBuffer.QueueWrite` | src/driver/fortbuf.c:29-56 | the record joins the last chunk iff it fits there and gets the first free chunk or a new one otherwise; fails iff too long, or without room, free chunk and memory |
| `LogBuffer.LogBuffer.WritePending` | src/driver/fortbuf.c:103-122 | the record is added to the pending read, which is completed iff no short record fits any more |
| `LogBuffer.LogBuffer.Write` | src/driver/fortbuf.c:98-135 | delivered, then pending, then queued records are all records written, in order; the record goes to the pending read if there is one, or to its chunk of the queue; exactly when it fails; a completed read has got exactly its records |
| `LogBuffer.LogBuffer.XMove` | src/driver/fortbuf.c:217-256 | the first chunk is delivered and becomes the first free one, or is refused because the read is too small, or the read is left pending, or refused because another one is; sound exactly when a read left pending has room for a short record |
| `LogBuffer.LogBuffer.GetLog` | src/driver/fortdev.c:166-188 | a read without room for a whole chunk is refused; therefore no other is ever too small |
| `LogBuffer.LogBuffer.CancelPending` | src/driver/fortbuf.c:258-280 | the cancelled read still gets its records; another read is not touched |
| `LogBuffer.LogBuffer.FlushPending` | src/driver/fortbuf.c:292-318 | a pending read is completed iff it has any bytes |
| `LogBuffer.LogBuffer.Clear` | src/driver/fortbuf.c:83-96 | the queued records are lost, and only those |
| `LogBuffer.AlwaysFits` | src/driver/fortbuf.c:104-122 | a pending read has room for exactly the records up to a length, never less than `FORT_LOG_SIZE_MAX`; `LogCodec.FullRead` reaches one that has no more |
| `LogBuffer.OverrunUnnoticed` | src/driver/fortbuf.c:108-119 | a record that overruns a pending read passes the unsigned comparison, so that the read is not completed |
| `LogCodec.NextEncoded` | src/driver/common/fortlog.c:5-129 | whatever follows, an encoded entry of any of the five kinds is read back with its exact size |
| `LogCodec.ReadsBack` | src/driver/common/fortlog.c:23-129 | records in a row are read back as their entries |
| `LogCodec.WrittenIsRead` | src/driver/fortbuf.c:98-318 | in every state of the buffer the bytes delivered, then those in the pending read, then those queued decode to the entries written, in order |
| `LogCodec.HeaderWords` | src/driver/common/fortlog.c:5-121 | the header words of each kind in numbers: type and option bits, length or count, and each field in its place |
| `LogCodec.EntryBytes` | src/driver/common/fortlog.c:5-129 | an encoded entry is its header words, least significant byte first, its path, and up to three bytes that make it a multiple of four |
| `LogCodec.EntrySizes` | src/driver/common/fortlog.h:21-52 | all entries fit a chunk; which are longer than `FORT_LOG_SIZE_MAX` |
| `LogCodec.FullRead` | src/driver/fortbuf.c:98-135 | a run: a pending read that takes exactly the records of up to `FORT_LOG_SIZE_MAX` bytes |
| `LogCodec.Overrun` | src/driver/fortbuf.c:163-189 | a run: a blocked-address record with a path of 512 bytes does not fit that read, unnoticed |
| `LogCodec.BlockedWrite` | src/driver/common/fortlog.c:5-21 | the written bytes encode the entry; bytes before and behind them stay |
| `LogCodec.BlockedIpWrite` | src/driver/common/fortlog.c:33-57 | likewise, with all ten fields |
| `LogCodec.ProcNewWrite` | src/driver/common/fortlog.c:76-91 | likewise |
| `LogCodec.StatTrafWrite` | src/driver/common/fortlog.c:101-106 | likewise, with the counters of each process |
| `LogCodec.TimeWrite` | src/driver/common/fortlog.c:115-121 | likewise, for every signed 64-bit time |
| `CalloutTimer.LineBack` | src/driver/fortstat.c:467-474 | a line of a report has its counters in order and its id, marked by the lowest bit; the report, the mark of a last report included, can be told back iff the process id is even |
| `CalloutTimer.FlushRecords` | src/driver/fortcout.c:752-772 | the loop ends; its records encode exactly the reports of a flush; every record but the last has 1359 processes, and a full flush of n takes (n + 1358) div 1359 records; the flush stops early only where the next record meets no room and no memory |
| `CalloutTimer.RecordCount` | src/driver/fortcout.c:752-772 | records filled in this way are as few as can hold the processes |
| `CalloutTimer.ShortReports` | src/driver/fortcout.c:752-772 | the reports of n processes stay inside every pending read iff n is at most 43 |
| `CalloutTimer.TickFitsShort` | src/driver/fortcout.c:735-772 | with at most 43 active processes, or no pending read, no record of a tick overruns |
| `CalloutTimer.Timer` | src/driver/fortcout.c:718-794 | one tick: the log gains the time iff it has changed and there is room for it, and then every active process once with the bytes it held, in as few records as can hold them, unless room and memory run out; a pending read that has bytes is completed with exactly its records; every direction of every group ticks; the release bits are those of the groups |
| `ExeMap.AddAllLast` | src/driver/fortcnf.c:222-234 | after a fill each path has the flags of its last entry not marked new behind its first, or else of its first |
| `ExeMap.OneDecides` | src/driver/fortcnf.c:222-234 | that entry is unique |
| `ExeMap.AddAllPaths` | src/driver/fortcnf.c:266-279 | after a fill exactly the paths of the entries are known |
| `ExeMap.NewSlotIffRoom` | src/driver/fortcnf.c:204-218 | the new slot is that of no known path iff fewer than 65536 paths are known, whatever has been announced and deleted |
| `ExeMap.AtMostAll` | src/driver/fortcnf.c:204-218 | known paths and free nodes are at most 65536 |
| `ExeMap.RunRefines` | src/driver/fortcnf.c:175-309 | over every run that never adds to 65536 known paths, past any number of wraps, the index holds the plain map and no two paths share a slot |
| `ExeMap.OneTooMany` | src/driver/fortcnf.c:208-218 | a run: the paths [0] to [65535] are indexed, and any other then gets the slot of the first; no choice of slots makes that index sound |
| `ExeMap.ExeMap.constructor` | src/driver/fortcnf.c:319-347 | an empty map, whatever number of entries is announced |
| `ExeMap.ExeMap.FindNode` | src/driver/fortcnf.c:139-155 | the walk of a bucket finds the path's node iff the path is known, for any hash function |
| `ExeMap.ExeMap.Find` | src/driver/fortcnf.c:157-173 | the flags of the plain map, or none |
| `ExeMap.ExeMap.Add` | src/driver/fortcnf.c:175-235 | the plain map gains the path, in the node freed last or in a new one at the counter, or its flags are replaced, or a known path marked as new is refused; sound, and without shared slots, iff a new path is not added to 65536 known ones |
| `ExeMap.ExeMap.Delete` | src/driver/fortcnf.c:281-309 | the plain map without the path, whose node becomes the last freed one |
| `ExeMap.ExeMap.Fill` | src/driver/fortcnf.c:266-279 | the plain map with all entries added in order, up to 65536 paths |
| `ExeMap.RefNew` | src/driver/fortcnf.c:332-348 | every configuration that its 16-bit count can announce is indexed |
| `ConfRef.StepSafe` | src/driver/fortcnf.c:360-431 | each locked section keeps counts equal to holders, and nothing held, current or about to be set freed |
| `ConfRef.StartSafe` | src/driver/fortcnf.c:54-57 | the device without a configuration is safe and has lost none |
| `ConfRef.RunSafe` | src/driver/fortcnf.c:360-431 | so it is in every interleaving |
| `ConfRef.FreedOnce` | src/driver/fortcnf.c:364-371 | a configuration is freed only by its last holder's put, never twice, never while current |
| `ConfRef.TakenNotFreed` | src/driver/fortcnf.c:360-390 | a configuration returned by a take is held from then on and not freed in any later state before that agent's put, in every interleaving |
| `ConfRef.StepNoLeak` | src/driver/fortcnf.c:360-390 | takes and puts lose no configuration |
| `ConfRef.SwapLeaks` | src/driver/fortcnf.c:406-424 | an exchange loses the replaced configuration iff nobody holds it |
| `ConfRef.UnserialisedLeak` | src/driver/fortcnf.c:392-431 | a run of two concurrent sets that loses a configuration |
| `ConfRef.SerialNoLeak` | src/driver/fortcnf.c:392-431 | with serialised sets none is ever lost |
| `ConfRef.OnlyCurrentLeft` | src/driver/fortcnf.c:360-431 | when all calls have returned, only the current configuration is left |
| `ConfRef.DeviceConf.RefTake` | src/driver/fortcnf.c:375-390 | returns the current configuration with its count one higher and the agent registered as its holder; nothing changes if there is none |
| `ConfRef.DeviceConf.RefPut` | src/driver/fortcnf.c:360-373 | the count is one lower and the agent no holder any more; freed iff the count was one and it is not current; what is put has not been freed |
| `ConfRef.DeviceConf.SetBegin` | src/driver/fortcnf.c:397-404 | the current configuration is held with its count one higher, and the next one waits with count 0; nothing else changes |
| `ConfRef.DeviceConf.SetExchange` | src/driver/fortcnf.c:406-424 | the next configuration is current; the prior one stays held until its put, and no count changes |
| `ConfTables.IpFind` | src/driver/common/fortconf.c:31-55 | on sorted disjoint tables: found iff the address is listed, or lies in a range |
| `ConfTables.IpInList` | src/driver/common/fortconf.c:70-74 | found iff the address is listed or lies in a range of the list |
| `ConfTables.ZonesIpIncluded` | src/driver/fortcnf.c:533-558 | iff some zone that is asked for, known and enabled lists the address |
| `ConfTables.IpIncluded` | src/driver/common/fortconf.c:84-121 | iff the inclusion list or zones name the address, or everything is included, and the exclusion list and zones do not; excluding everything yields to an inclusion by name, and prevails over including everything |
| `ConfTables.PrefixCmp` | src/driver/common/fortconf.c:162-171 | the sign of the first difference; 0 iff the two agree on their common length |
| `ConfTables.PrefixFind` | src/driver/common/fortconf.c:173-208 | the flags of the entry that the search of the table ends at; if the table is in order, those of an entry of which the path is a prefix or that is a prefix of it, whenever there is one, and none otherwise |
| `ConfTables.FindsIffOrdered` | src/driver/common/fortconf.c:188-205 | a table in which no entry is a prefix of another is searched without a miss for every path iff it is in order |
| `ConfTables.UnitOrderMisses` | src/driver/common/fortconf.c:188-205 | a table in the order of 16-bit units whose second entry is not found |
| `ConfTables.OnePrefix` | src/driver/common/fortconf.c:173-208 | for a path no shorter than the entries at most one agrees |
| `ConfTables.WildFind` | src/driver/common/fortconf.c:210-237 | the flags of the first pattern whose meaning holds of the path; none if there is none |
| `ConfTables.AppFind` | src/driver/common/fortconf.c:239-253 | the index goes before the prefixes and these before the patterns, flags that are all zero counting as not found; none if nothing is found |
| `ConfTables.PermsMaskInit` | src/driver/common/fortconf.c:333-348 | the masks select the block bit and the allow bit of each active group |
| `ConfTables.AppBlocked` | src/driver/common/fortconf.c:255-296 | the decision and its exact reason in terms of the program's flags and whether its group is active |

## Left out

- Tlsf.Control.AddPool: excludes exactly `block_size_max` usable bytes, and assumes that pools lie above the control structure and 64 MiB below the end of the address space, so that address arithmetic does not wrap.
- Tlsf.Control.ReleaseAll: the source has no such operation; it is the law that freeing in any order restores the pools.
- `tlsf_realloc`, `tlsf_remove_pool`, the walkers and the 32-bit layouts: the driver uses none of them. `block_trim_used` is used by `tlsf_realloc` only.
- ConfPool.ConfPools.Malloc: the list of pools is a sequence of their addresses; the address of a new pool is a parameter.
- Wildmatch.Wildmatch: texts and patterns are sequences without the terminating zero; wide characters are 16 bits.
- HashDyn.HashDyn.Insert: a node's hash and data are fixed when it is made rather than stored by the insertion; the hash functions are arbitrary.
- ArrayOf.ArrayOf.Grow: the addresses of new segments are a parameter, apart from those in use; allocation failure is unchecked in the source and excluded.
- LogBuffer.LogBuffer.WritePending: see the next line.
- LogBuffer.LogBuffer.Write: a record must fit the pending read, as every record of up to `FORT_LOG_SIZE_MAX` bytes does; what the source does with longer ones is stated by `LogBuffer.AlwaysFits`, `LogBuffer.OverrunUnnoticed` and the run `LogCodec.Overrun`; memory behind the read is not modelled. Chunks are values in a table, so addresses of chunks are not modelled; the free chunks are not bounded.
- CalloutTimer.Timer: requires that the tick's records stay inside the pending read, for the same reason; `CalloutTimer.ShortReports` says when they always do. As in the source a record is only begun when there is room for it, but the model composes it before writing it, all under the two locks.
- Stat.Stat.Classify: the flow contexts that lead from the system to a flow are slots. The `closed` flag, `fort_stat_close` and `fort_stat_conf_update` only switch or copy and are not modelled.
- Stat.Stat.Clear: visits the processes in any order instead of by bucket, since the source removes nodes while it walks the buckets.
- Stat.Stat.AssociateProc: the process and flow tables are maps from ids to slots here; that a hash table behaves as one is `HashDyn`.
- ExeMap.ExeMap.Fill: no entry of a fill fails for want of memory. The 16-bit truncation of the entry size is not modelled.
- ExeMap.ExeMap.Find: states behind an addition to 65536 known paths, which leaves a node in two lists, are not modelled.
- ConfRef.RunSafe: counts are unbounded; the source has 32 bits, and so fewer than 2^32 holders.
- ConfTables.AppFind: the tables of the configuration are sequences; their offsets within its data are not modelled.
- LogCodec.NextEncoded: paths of more than 512 bytes are dropped by the callers before they get to the writers.
- Configuration flags, group periods and local time: bounded and shallow.
- WFP, NDIS and WDM calls, packet injection and deferred packets (`src/driver/fortpkt.c`), request completion: foreign interfaces. Clocks, allocation results and request ids are parameters.
- The user interface, its settings and its managers.
