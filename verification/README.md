# Flash translation layers, proved

A Dafny model of the simulated solid-state drive in `OriginalFlashSim` and of the
host-managed translation layer in `host_ftl`, with proofs of what they promise
their hosts. `dafny verify dfyconfig.toml` checks everything.

The parts, each in the form of the code it models:

- **Address and drive** (`Arithmetic.dfy`, `Geometry.dfy`, `Flash.dfy`, `Ssd.dfy`).
  The mixed-radix physical address, pages and blocks with their counters, and the
  tree of packages, dies, planes and blocks. `Ssd` is a class; its ghost `view` is
  the sequence of block values by block number, and the routing lemmas show that
  the address digits lead to exactly the block that number names.
- **Block manager** (`BlockManager.dfy`). Where blocks come from and go to.
- **BAST** (`BastModel.dfy`, `Bast.dfy`). One data block per logical block and a
  bounded set of log blocks. `BastModel` holds the invariant on the value of the
  state and one lemma per kind of step; `FtlImpl_Bast` is the class, whose methods
  issue events one by one.
- **DFTL** (`DftlModel.dfy`, `DftlCache.dfy`, `Dftl.dfy`). The page map with its
  reverse, the cached mapping table, and the garbage collection pass that the
  block manager starts in the middle of a write.
- **What a host sees** (`Host.dfy`, `Finite.dfy`). A plain map from page numbers to
  bytes. Both translation layers are proved to answer every sequence of reads,
  writes and trims as that map would.
- **Bus channel** (`Channel.dfy`). The first-fit allocator of time slots.
- **Zone controller** (`ZnsRtl.dfy`, `ZnsSystem.dfy`, `ZnsDriver.dfy`,
  `ZnsManager.dfy`, `ZnsBoard.dfy`). The rule checker, the incremental open-zone
  counter and the clocked command state machine; the simulated hardware around
  them; the polling driver; the software model that counts by scanning; and the
  block RAM of the board.
- **Host layer** (`HostFtlModel.dfy`, `HostFtl.dfy`). The append-only layer over a
  socket, and the three workers that share it under a lock.
- **SPI dump** (`Spi.dfy`). The shift-out machine and a receiver on its wires.

How the model reads the code:

- `Controller::issue` is a stub in the repository. Its events are modelled as
  ssd.h:963-970 and ssd_ssd.cpp:193-226 describe: READ, WRITE followed by replace,
  and ERASE, carried out at once. The time, the random numbers, the replies of the
  other side of a socket and the thermal sensor are inputs of the modelled methods.
- The cost queue of the block manager is modelled as holding every block in
  physical order, as ssd_block.cpp:81-83 says, although the call that inserts them
  is stubbed. Where equal keys may come in either order, the model leaves the
  choice open.
- A physical page is a pair (block number, place in the block). `Geometry` and
  `Drive` relate the pair to linear addresses and to the object tree.
- `pages_valid` counts programs since the last erase, which is how the code uses it.
- Arithmetic that can leave its width in the hardware and the driver (the 4-bit
  counter, the 7-bit write pointer, the 8-bit erase count, the 32-bit halves of an
  address) is written out with its wrap-around.

Properties that turn out not to hold as one might hope, and what holds instead:

- **A zone command that is neither a write nor a reset stores a stale word.** The
  machine raises the write enable for every accepted command but computes a word
  only for two of them. `CommandKeepsInvariant` gives the exact condition, for
  every zone number, under which the counter stays right; `RereadChangesNothing`
  says exactly when such a command leaves the words alone; `StaleReadLosesPages`
  is a run of four commands after which a zone's write pointer is gone and still
  counted. `DisciplinedRun` covers every run of writes, resets, refused commands
  and reads of the zone last committed, judged from the commands and the verdicts
  the host gets.
- **A write past the last zone** is accepted and counted but stores nothing. Past
  the last zone the invariant is lost exactly by a first-page write with a
  resource left (`CommandPastTableKeepsInvariant`), and that is also exactly where
  the validator and the software model disagree (`VerdictsAgree`).
- **A refused host write that is retried after a zone reset** is mapped to the
  offset from before the reset. The maps stay sound exactly when the zone was
  empty (`RetryKeepsInvIff`).
- **Bus slots can overlap** when the table has forgotten a slot that a request can
  still reach (`StartsGoingBackOverlap`). A grant at the first fit among the live
  slots overlaps none ever granted exactly when it is the first fit among all of
  them (`GrantExact`). If no forgotten slot ends after the request starts, which
  start times that never go back ensure, it always is.
- **A bus request of length zero** is not given its own start time when a live slot
  starts there, and only then is it not the first fit (`ScheduledEarliest`). Its
  slot can tie with a longer one, and a sorted table with a tie can hand out time
  that is taken (`TieOverlaps`, with the exact condition in `ScheduledFitsIff`).
- **`cmt` falls behind** the number of cached entries by one for each trim of a
  mapped page whose entry is cached (`Dftl.FtlImpl_Dftl.Trim`); it is exact in
  runs without trim.
- **An entry that cleaning brings into the cache has no time of visit**, so it leaves
  before entries that were asked for long ago. Among entries asked for, the order of
  leaving is that of the last requests (`LeavesInOrder`); without cleaning that covers
  every entry (`PowerOnAndResolve`).
- **The loop over an evicted entry's siblings leaves the map** exactly when the
  entry is dirty and its translation page is not filled by the map
  (`EvictPageFromCache`, `Unmap`). The default drive has 64 such pages
  (`DefaultDriveHasPartialPage`). `overrun` records whether it has happened; it
  never does when every write goes to a page on a filled translation page.
- **The random victim is never the greatest logical block** while BAST holds two
  log blocks or more, because the index drawn is lowered by one; every other log
  block can be the victim (`CanBeEvictedIff`).

## Model

| member | source | states |
|---|---|---|
| Geometry.DecodeRecomposes | OriginalFlashSim/ssd_address.cpp:149-162 | for every positive geometry and every linear address the five digits are in range and recompose to the address modulo the capacity |
| Geometry.DecodeRoundTrip | OriginalFlashSim/ssd_address.cpp:149-173 | the digits recompose to the address itself exactly when it is below capacity |
| Geometry.EncodeRoundTrip | OriginalFlashSim/ssd_address.cpp:149-162 | every tuple of digits in range is the decoding of its own linear address |
| Geometry.CompareDecides | OriginalFlashSim/ssd_address.cpp:116-140 | compare answers PAGE exactly for equal page numbers, and BLOCK or better exactly for pages of one block |
| Geometry.CompareDecidesLevels | OriginalFlashSim/ssd_address.cpp:116-140 | on addresses of one drive compare answers at least PLANE, DIE or PACKAGE exactly for pages of one plane, die or package |
| Geometry.CompareUpToDeclared | OriginalFlashSim/ssd_address.cpp:116-140 | the answer never goes past the level either address declares, and does not depend on the order of the two |
| Geometry.Address.SetLinearAddress | OriginalFlashSim/ssd_address.cpp:149-162 | the fields become the digits of the address, and nothing else of the object changes |
| Geometry.Address.Advance | OriginalFlashSim/ssd_address.cpp:185-189 | adding to an address moves its linear number and re-derives all digits |
| Geometry.Address.MoveToFreePage | OriginalFlashSim/ssd_plane.cpp:346-354 | the address moves to the cursor page of the same block, all other digits kept |
| Flash.CountInvalidExtremes | OriginalFlashSim/ssd_block.cpp:213-237 | the invalid counter is 0 when no page is INVALID and the block size when all are, and only then |
| Flash.BlockStepsKeepCounters | OriginalFlashSim/ssd_block.cpp:106-237 | programming an EMPTY page, invalidating any page and erasing keep the invalid counter and the block state exact |
| Flash.BlockStepsKeepBytes | OriginalFlashSim/ssd_block.cpp:106-237 | programming replaces the bytes of its own page only; invalidating and erasing keep the bytes of every page; each step sets the page states and counters it names and no others |
| Flash.WellFormedExtremes | OriginalFlashSim/ssd_block.cpp:213-237 | a block is INACTIVE exactly when every page is INVALID |
| Flash.Block.Read | OriginalFlashSim/ssd_page.cpp:66-76 | a read returns the bytes stored for that page |
| Flash.Block.Write | OriginalFlashSim/ssd_block.cpp:106-120 | the page gets the bytes and becomes VALID, the program counter moves, the other pages stay |
| Flash.Block.InvalidatePage | OriginalFlashSim/ssd_block.cpp:213-237 | the page becomes INVALID once, keeping its bytes; the program counter does not move |
| Flash.Block.Erase | OriginalFlashSim/ssd_block.cpp:132-163 | every page becomes EMPTY and both counters 0; the bytes stay where they are |
| Flash.Plane.constructor | OriginalFlashSim/ssd_plane.cpp:34-99 | the blocks lie one after another from the plane's base address, none sharing storage |
| Drive.Die.constructor | OriginalFlashSim/ssd_die.cpp:33-76 | the planes of a die tile it without gaps |
| Drive.Package.constructor | OriginalFlashSim/ssd_package.cpp:35-72 | the dies of a package tile it without gaps |
| Drive.Ssd.constructor | OriginalFlashSim/ssd_ssd.cpp:44-117 | a new drive has one blank block for every block address, none sharing storage |
| Drive.Die.Routes | OriginalFlashSim/ssd_die.cpp:91-103 | the plane and block digits lead to that block of the die, counted plane by plane |
| Drive.Package.Routes | OriginalFlashSim/ssd_package.cpp:86-96 | the die, plane and block digits lead to that block of the package |
| Drive.Ssd.RoutesByIndex | OriginalFlashSim/ssd_ssd.cpp:193-203 | following the digits through the tree reaches the block with that number |
| Drive.Ssd.Routes | OriginalFlashSim/ssd_ssd.cpp:44-117 | for every address below capacity, the block the tree leads to has as physical address the address rounded down to the block size |
| Drive.Ssd.GetState | OriginalFlashSim/ssd_ssd.cpp:283-288 | asking through the tree answers with the state of that page |
| Drive.Ssd.GetNumValid | OriginalFlashSim/ssd_ssd.cpp:310-314 | asking through the tree answers with the program counter of that block |
| Drive.Ssd.GetNumInvalid | OriginalFlashSim/ssd_ssd.cpp:316-320 | the number is 0 exactly when the block has no INVALID page |
| Drive.Ssd.GetBlockState | OriginalFlashSim/ssd_ssd.cpp:290-295 | the answer is INACTIVE exactly when all pages of the block are INVALID |
| Drive.Ssd.Read | OriginalFlashSim/ssd_ssd.cpp:193-197 | a READ event returns the bytes of the addressed page |
| Drive.Ssd.Write | OriginalFlashSim/ssd_ssd.cpp:199-203 | a WRITE event programs the addressed page and touches no other block |
| Drive.Ssd.Replace | OriginalFlashSim/ssd_ssd.cpp:205-214 | the replaced page becomes INVALID and no other block changes |
| Drive.Ssd.Erase | OriginalFlashSim/ssd_ssd.cpp:217-226 | an ERASE event blanks the addressed block and no other |
| Drive.Ssd.IssueWrite | OriginalFlashSim/ssd_ssd.cpp:199-214 | a WRITE with a replace address programs the one page and invalidates the other |
| BlockManagement.BlockManager.InsertEvents | OriginalFlashSim/ssd_bm.cpp:177-206 | past the threshold the last five invalid blocks, or all if fewer, are erased and freed, last first; below it nothing changes |
| BlockManagement.BlockManager.GetPageBlock | OriginalFlashSim/ssd_bm.cpp:83-107 | blocks are handed out in address order first and then from the front of the free list, after one pass if at most one is left there and none is under way |
| BlockManagement.BlockManager.GetFreeBlock | OriginalFlashSim/ssd_bm.cpp:250-272 | the same, and the counter of the requested kind goes up by one |
| BlockManagement.BlockManager.GetBlock | OriginalFlashSim/ssd_bm.cpp:250-272 | with no invalid blocks listed, no block is erased on the way |
| BlockManagement.BlockManager.PromoteBlock | OriginalFlashSim/ssd_bm.cpp:119-131 | one block moves from one counter to the other |
| BlockManagement.BlockManager.EraseAndInvalidate | OriginalFlashSim/ssd_bm.cpp:297-320 | the block is blank, is last on the free list and is no longer counted |
| BlockManagement.QuietLeavesThreeFree | OriginalFlashSim/ssd_bm.cpp:177-185 | a pass that stays below the 0.9 threshold implies three blocks to spare exactly on drives of more than twenty blocks |
| BastModel.BlockAvailable | OriginalFlashSim/ssd_bm.cpp:83-107 | with a block to spare besides the data and log blocks, an allocation finds one: conservation leaves nowhere else for blocks to be |
| BastModel.AllocateLoose | OriginalFlashSim/FTLs/bast_ftl.cpp:316-329 | taking a block for a merge hands out a blank block, keeps every block held exactly once and changes no content |
| BastModel.AllocateLog | OriginalFlashSim/FTLs/bast_ftl.cpp:248-272 | a new log block is blank, keeps the log within its limit and changes no content |
| BastModel.WriteStep | OriginalFlashSim/FTLs/bast_ftl.cpp:150-191 | appending to a log block makes the written bytes the content of that page, changes no other page's content and keeps the invariant |
| BastModel.WriteInvalidates | OriginalFlashSim/FTLs/bast_ftl.cpp:153-186 | a write makes the data page INVALID unless it is EMPTY, and only then the older log page; no other page changes but the one written |
| BastModel.SwitchStep | OriginalFlashSim/FTLs/bast_ftl.cpp:280-313 | switching a sequential log block in leaves all contents, keeps every block held once and blanks the old data block |
| BastModel.MergeCopies | OriginalFlashSim/FTLs/bast_ftl.cpp:332-367 | one read and one write of a merge extend the copied part of the new block and disturb no source page still to be copied |
| BastModel.MergeSkips | OriginalFlashSim/FTLs/bast_ftl.cpp:332-367 | skipping a page that is EMPTY or INVALID loses nothing |
| BastModel.MergeStep | OriginalFlashSim/FTLs/bast_ftl.cpp:316-389 | a finished merge leaves all contents, frees and blanks both old blocks and leaves no map naming them |
| BastModel.SwitchOutcome | OriginalFlashSim/FTLs/bast_ftl.cpp:280-313 | merging away a log block with every page in its place makes it the data block, takes no block, and frees and blanks only the old data block; no other block changes |
| BastModel.FullMergeOutcome | OriginalFlashSim/FTLs/bast_ftl.cpp:316-389 | merging away any other log block makes the next block to be handed out the data block, and both old blocks end blank and last on the free list |
| BastModel.TrimLogStep | OriginalFlashSim/FTLs/bast_ftl.cpp:208-214 | trimming a page of a log block forgets that page and no other |
| BastModel.DropLogStep | OriginalFlashSim/FTLs/bast_ftl.cpp:216-220 | a log block with only INVALID pages can be freed without changing any content |
| BastModel.LogTrimmedOutcome | OriginalFlashSim/FTLs/bast_ftl.cpp:208-220 | trimming a logged page takes the log block away, blank and last on the free list, exactly when every other page of it was INVALID; otherwise exactly that page becomes INVALID |
| BastModel.TrimDataStep | OriginalFlashSim/FTLs/bast_ftl.cpp:224-228 | trimming a page of a data block forgets that page and no other |
| BastModel.DropDataStep | OriginalFlashSim/FTLs/bast_ftl.cpp:230-234 | a data block with only INVALID pages can be freed without changing any content |
| BastModel.DataTrimmedOutcome | OriginalFlashSim/FTLs/bast_ftl.cpp:224-234 | the same for the data block, whose entry in the block table is then -1 |
| BastModel.TargetHoldsContent | OriginalFlashSim/FTLs/bast_ftl.cpp:99-132 | the page a read is sent to holds the current content whenever there is one |
| Bast.SlotsDistinct | OriginalFlashSim/FTLs/bast_ftl.cpp:134-145 | the shifted block number and the page remainder identify the logical page, for any block size |
| Bast.CanBeEvictedIff | OriginalFlashSim/FTLs/bast_ftl.cpp:248-262 | some random number picks a log block exactly when it is the only one or not the one for the greatest logical block |
| Bast.VictimPrecedesDrawn | OriginalFlashSim/FTLs/bast_ftl.cpp:250-262 | the victim is the key just before the one drawn, or the first key when the draw falls on it |
| Bast.FtlImpl_Bast.constructor | OriginalFlashSim/FTLs/bast_ftl.cpp:73-92 | a fresh drive represents the empty map, no logical block is in use, and the tables are the layer's own |
| Bast.FtlImpl_Bast.IsSequential | OriginalFlashSim/FTLs/bast_ftl.cpp:280-313 | answers whether every page of the log block is in its place; if so the block has been switched in, otherwise nothing has changed |
| Bast.FtlImpl_Bast.MergeSource | OriginalFlashSim/FTLs/bast_ftl.cpp:332-352 | a merge reads a page from the log if it is there, else from the data block |
| Bast.FtlImpl_Bast.CopyLivePages | OriginalFlashSim/FTLs/bast_ftl.cpp:332-367 | the loop copies every live page of the logical block into the new block, in place |
| Bast.FtlImpl_Bast.RandomMerge | OriginalFlashSim/FTLs/bast_ftl.cpp:316-389 | the content of every logical page stays the same, the log block is gone, the invariant holds |
| Bast.FtlImpl_Bast.MergeAway | OriginalFlashSim/FTLs/bast_ftl.cpp:163-176 | a log block is switched in exactly when each of its pages is in its place, and otherwise merged in full into the next block handed out; maps, free list, counters and blocks end as that case says |
| Bast.FtlImpl_Bast.PickVictim | OriginalFlashSim/FTLs/bast_ftl.cpp:250-262 | the victim is the key whose rank is the random index lowered by one, or the first |
| Bast.FtlImpl_Bast.EvictLogBlock | OriginalFlashSim/FTLs/bast_ftl.cpp:250-265 | at the limit exactly that victim leaves the log, by a switch if it is sequential and by a full merge otherwise, with all contents kept; below it nothing happens |
| Bast.FtlImpl_Bast.AllocateNewLogblock | OriginalFlashSim/FTLs/bast_ftl.cpp:248-272 | after that eviction the logical block gets the next block handed out as an empty log block, all contents kept |
| Bast.FtlImpl_Bast.PrepareLogBlock | OriginalFlashSim/FTLs/bast_ftl.cpp:142-176 | a log block with a page to spare is used as it is; a full one is merged away first, by a switch if it is sequential, and a missing one costs the victim's; the new log block is the next block handed out, and all contents are kept |
| Bast.FtlImpl_Bast.ReplacedPage | OriginalFlashSim/FTLs/bast_ftl.cpp:153-186 | the data page is replaced unless it is EMPTY, else the older log page |
| Bast.FtlImpl_Bast.Write | OriginalFlashSim/FTLs/bast_ftl.cpp:134-192 | the host's map gains the written bytes and nothing else changes; the state after is exactly that of making room as above and then appending one page |
| Bast.FtlImpl_Bast.Read | OriginalFlashSim/FTLs/bast_ftl.cpp:99-132 | a read of a page written and not trimmed since returns the last bytes written |
| Bast.FtlImpl_Bast.Trim | OriginalFlashSim/FTLs/bast_ftl.cpp:194-245 | the host's map loses that page and nothing else changes; the log block and then the data block are erased, freed and unmapped exactly when no page of them is left that is not INVALID |
| Bast.FtlImpl_Bast.Serve | OriginalFlashSim/FTLs/bast_ftl.cpp:99-245 | every run of reads, writes and trims, with any random numbers, is answered as a plain map would, and never runs out of blocks if the logical blocks in use and to be written plus the log limit are fewer than the blocks |
| Bast.PowerOnAndServe | OriginalFlashSim/FTLs/bast_ftl.cpp:73-245 | the same from a drive just built: every run is answered as an empty plain map would |
| DftlModel.TakeBlock | OriginalFlashSim/FTLs/dftl_parent.cpp:127-138 | a block handed out for data is blank and was not in use |
| DftlModel.TakeNextPage | OriginalFlashSim/FTLs/dftl_parent.cpp:127-138 | the next page of the current block is EMPTY |
| DftlModel.WriteStep | OriginalFlashSim/FTLs/dftl_ftl.cpp:77-101 | writing the current page keeps the maps inverse on exactly the VALID pages and changes one page's content |
| DftlModel.MoveKeepsContents | OriginalFlashSim/FTLs/dftl_ftl.cpp:137-183 | rewriting a live page with its own bytes elsewhere changes no content |
| DftlModel.EraseStep | OriginalFlashSim/ssd_bm.cpp:215-240 | erasing a full block without VALID pages keeps the maps inverse, all contents, and frees the block once |
| DftlModel.TrimStep | OriginalFlashSim/FTLs/dftl_ftl.cpp:103-127 | trimming keeps the maps inverse and forgets one page |
| DftlModel.MapsRestored | OriginalFlashSim/FTLs/dftl_ftl.cpp:193-214 | the batch update after a cleaning makes the stored maps the inverse maps of the moved pages |
| DftlModel.FullBlocksAreLive | OriginalFlashSim/ssd_bm.cpp:208-247 | if only the current block has INVALID pages, the live pages fill every other block in use |
| DftlModel.ThirdFreeBlock | OriginalFlashSim/ssd_bm.cpp:208-247 | with few enough live pages, nothing left to reclaim means three free blocks |
| DftlCache.EvictedOneIsLru | OriginalFlashSim/FTLs/dftl_parent.cpp:188-234 | evicting the least key drops one entry that was visited no later than any that stays |
| DftlCache.EvictedOneIsLeastRecent | OriginalFlashSim/FTLs/dftl_parent.cpp:188-234 | an eviction takes the entry last asked for before all others, or one that cleaning brought in and nobody has asked for; if there is one of those, it takes one |
| DftlCache.LeavesInOrder | OriginalFlashSim/FTLs/dftl_parent.cpp:145-234 | in every history of requests and evictions the cache can have, an entry that leaves was last asked for no later than any entry that stays, by time and, when times do not go back, by place in the request sequence |
| DftlCache.StandingIsLastRequest | OriginalFlashSim/FTLs/dftl_parent.cpp:157-183 | while an entry stands in the cache its time of visit is that of the last request for it |
| DftlCache.EvictedOneLoses | OriginalFlashSim/FTLs/dftl_parent.cpp:198-213 | an eviction loses a dirty entry of the unfilled translation page exactly when its victim is one |
| DftlCache.EvictedOneTame | OriginalFlashSim/FTLs/dftl_parent.cpp:198-213 | while the entries of that page are clean no victim's sibling loop reaches past the map |
| DftlCache.TranslationPageInMap | OriginalFlashSim/FTLs/dftl_parent.cpp:203-213 | the sibling loop stays inside the map exactly when the map fills the page's translation page, which it always does when its size is a multiple of the entries per page |
| DftlCache.DefaultDriveHasPartialPage | OriginalFlashSim/FTLs/dftl_parent.cpp:70-74 | with the default geometry exactly the last 64 logical pages lie on a translation page that is not filled |
| DftlCache.FtlImpl_DftlParent.LeastRecentlyVisited | OriginalFlashSim/FTLs/dftl_parent.cpp:54-60 | the first entry of the index is a cached one with the least last visit, if any is cached |
| DftlCache.FtlImpl_DftlParent.WriteTranslationPage | OriginalFlashSim/FTLs/dftl_parent.cpp:196-220 | exactly the cached entries on the victim's translation page become clean; the loop leaves the map exactly when that page is not filled |
| DftlCache.FtlImpl_DftlParent.EvictPageFromCache | OriginalFlashSim/FTLs/dftl_parent.cpp:188-234 | exactly as many entries leave as make room for one more, each the least recently visited at its turn; no mapping changes, and the map was left exactly if a dirty entry of the unfilled page was evicted |
| DftlCache.FtlImpl_DftlParent.ResolveMapping | OriginalFlashSim/FTLs/dftl_parent.cpp:145-186 | no mapping changes; the page's entry is cached, visited at this time, created at it on a miss, and modified at it by a write that hits and one unit later by a write that misses; entries leave only to make room, the least recently asked for first |
| DftlCache.FtlImpl_DftlParent.EvictSpecificPageFromCache | OriginalFlashSim/FTLs/dftl_parent.cpp:236-282 | that entry leaves the cache, its cached siblings become clean if it was dirty, and no mapping changes |
| DftlCache.FtlImpl_DftlParent.UpdateTranslationMap | OriginalFlashSim/FTLs/dftl_parent.cpp:284-288 | the entry names the new page or none, and the reverse map names the entry for the new page |
| DftlCache.FtlImpl_DftlParent.ApplyMoves | OriginalFlashSim/FTLs/dftl_ftl.cpp:193-214 | all moved pages, in any order, are repointed in both maps and modified now; those not cached join the cache, created now; every other entry stays as it was |
| DftlCache.FtlImpl_DftlParent.Unmap | OriginalFlashSim/FTLs/dftl_ftl.cpp:103-127 | the mapping is dropped and the rest of the entry stays; its cached siblings become clean if it was dirty and cached; the counter falls behind by one if it was cached; the sibling loop leaves the map exactly for a dirty entry of the unfilled page |
| DftlCache.TrimLeavesMap | OriginalFlashSim/FTLs/dftl_parent.cpp:246-261 | writing and then trimming any page on an unfilled translation page makes the loop leave the map |
| DftlCache.PowerOnAndResolve | OriginalFlashSim/FTLs/dftl_parent.cpp:145-234 | from an empty cache, for every sequence of requests: exactly the entries asked for and not evicted since are cached, within the limit, and every one that left was last asked for no later than each that stayed |
| Dftl.FtlImpl_Dftl.constructor | OriginalFlashSim/FTLs/dftl_ftl.cpp:43-50 | a fresh drive of any geometry with more than twenty blocks represents the empty map with an exact cache counter, on tables of its own |
| Dftl.FtlImpl_Dftl.GetFreeDataPage | OriginalFlashSim/FTLs/dftl_parent.cpp:122-138 | within a block the page is the next one; at its end the page is EMPTY and unmapped even when cleaning has just moved the current page, at most five blocks were reclaimed, and two can still be handed out |
| Dftl.FtlImpl_Dftl.MovePage | OriginalFlashSim/FTLs/dftl_ftl.cpp:142-182 | one live page leaves the victim for a page of another block; no content changes; at most one block is taken |
| Dftl.FtlImpl_Dftl.CleanupBlock | OriginalFlashSim/FTLs/dftl_ftl.cpp:129-216 | afterwards the victim has no VALID page, both maps are inverse again, no content has changed, and at most one new block was used |
| Dftl.FtlImpl_Dftl.Reclaim | OriginalFlashSim/ssd_bm.cpp:215-240 | cleaning, erasing and freeing a victim puts it last among the free blocks, takes at most one from the front, and leaves more free blocks, or as many and more room in the current one |
| Dftl.FtlImpl_Dftl.LastByCost | OriginalFlashSim/ssd_bm.cpp:210-213 | the end of the cost order is a block with the most INVALID pages |
| Dftl.FtlImpl_Dftl.NextCandidate | OriginalFlashSim/ssd_bm.cpp:236-243 | the next block looked at is never the one being written |
| Dftl.FtlImpl_Dftl.InsertEvents | OriginalFlashSim/ssd_bm.cpp:177-248 | a pass past the threshold reclaims five blocks, or four if its first candidate was the block being written, and fewer only when no other block has an INVALID page left; the reclaimed blocks join the free ones at the back, no content changes, and one that reclaims gains free space; below the threshold nothing is reclaimed |
| Dftl.FtlImpl_Dftl.EnoughAfterPass | OriginalFlashSim/ssd_bm.cpp:177-248 | after a pass at a full block there is room, a gain, or a third free block, so the next allocation starts no second pass |
| Dftl.FtlImpl_Dftl.Write | OriginalFlashSim/FTLs/dftl_ftl.cpp:77-101 | the host's map gains the written bytes and nothing else changes, even if cleaning moved the page being overwritten; the page is looked up in the cache once, as a write, and cleaning then only touches times of entries it moves; at most five blocks are reclaimed |
| Dftl.FtlImpl_Dftl.Read | OriginalFlashSim/FTLs/dftl_ftl.cpp:57-75 | a read of a mapped page returns the last bytes written and one of any other page no data; the page is looked up in the cache once, as a read, and caching changes no content |
| Dftl.FtlImpl_Dftl.Trim | OriginalFlashSim/FTLs/dftl_ftl.cpp:103-127 | the host's map loses that page only; the entry keeps its place in the cache, and siblings become clean if it was dirty; the cache counter falls behind exactly when the page was mapped and cached; the sibling loop leaves the map exactly when it was also dirty and on the unfilled translation page |
| Dftl.FtlImpl_Dftl.Serve | OriginalFlashSim/FTLs/dftl_ftl.cpp:57-216 | every run of reads, writes and trims is answered as a plain map would, cleaning included, without running out of blocks; the cache sees exactly the reads and writes, in order; its counter stays exact without trims; no sibling loop leaves the map if every write is on a filled translation page |
| Dftl.PowerOnAndServe | OriginalFlashSim/FTLs/dftl_ftl.cpp:43-216 | the same from a drive just built; over the whole run, cleaning included, whatever left the cache after being asked for was asked for no later than any other entry asked for |
| Host.AnsweredMore | OriginalFlashSim/FTLs/bast_ftl.cpp:99-245 | a run answered as the map would, followed by one correct answer, is answered as the map would |
| BusChannel.LastingUntied | OriginalFlashSim/ssd_channel.cpp:195-213 | slots of positive length that do not overlap never start together, so sorting by start has one outcome |
| BusChannel.ScheduledFitsIff | OriginalFlashSim/ssd_channel.cpp:134-174 | on any sorted table the slot picked for a positive duration is free exactly when no slot before the one it follows ends later |
| BusChannel.ScheduledFits | OriginalFlashSim/ssd_channel.cpp:134-174 | without ties the slot picked is free, for any duration |
| BusChannel.ScheduledEarliest | OriginalFlashSim/ssd_channel.cpp:134-174 | and it is the first that fits exactly when the duration is positive or no slot starts at the request's start |
| BusChannel.TieOverlaps | OriginalFlashSim/ssd_channel.cpp:134-213 | with a tie, a sorted table of slots apart can hand out time that is taken |
| BusChannel.InsertApart | OriginalFlashSim/ssd_channel.cpp:180-208 | a slot that meets no other can go anywhere in the table |
| BusChannel.GrantKeepsApart | OriginalFlashSim/ssd_channel.cpp:123-190 | a grant that fits the live slots meets no forgotten slot either, if those ended by the request |
| BusChannel.GrantExact | OriginalFlashSim/ssd_channel.cpp:123-209 | a grant at the first fit among the live slots overlaps none ever granted exactly when it is the first fit among all of them |
| BusChannel.EarliestLiveOnly | OriginalFlashSim/ssd_channel.cpp:123-209 | the first fit among live slots and among all slots of the table are the same |
| BusChannel.PositiveIsUntied | OriginalFlashSim/ssd_channel.cpp:123-209 | with positive durations there are never ties, and with a start time that does not go back no forgotten slot ends after it |
| BusChannel.GrantKeepsBooks | OriginalFlashSim/ssd_channel.cpp:123-190 | over any run of requests: without ties the live slots never overlap, if no request could reach a forgotten slot none ever granted do, and with positive durations none do exactly if each was the first fit of all |
| BusChannel.Channel.Unlock | OriginalFlashSim/ssd_channel.cpp:195-209 | exactly the slots that end later than the request stay, each as often as before, sorted by start |
| BusChannel.Channel.FirstFit | OriginalFlashSim/ssd_channel.cpp:131-181 | the search computes the slot whose properties are above |
| BusChannel.Channel.Lock | OriginalFlashSim/ssd_channel.cpp:123-190 | one slot of the asked duration is granted and added to the live ones; without ties it is free, and the first fit with the one exception of length zero; the event accrues the wait and the wait plus duration; ready_at is the latest finish ever granted |
| BusChannel.Event.IncrBusWaitTime | OriginalFlashSim/ssd_event.cpp:198-203 | only positive increments count |
| BusChannel.Event.IncrTimeTaken | OriginalFlashSim/ssd_event.cpp:205-210 | only positive increments count |
| BusChannel.StartsGoingBackOverlap | OriginalFlashSim/ssd_channel.cpp:123-209 | three requests of positive duration, one starting earlier than the one before it, are granted overlapping slots |
| ZnsRtl.PackFields | OriginalFlashSim/zns_fsm_validator.v:27-32 | the three fields of a zone word are read back as they were packed |
| ZnsRtl.ZnsFsmValidator.TrackResources | OriginalFlashSim/zns_resources_tracker.v:15-30 | the counter moves only in the execute state; of two assignments in one clock the later wins; four bits wide |
| ZnsRtl.ZnsFsmValidator.PosEdge | OriginalFlashSim/zns_fsm_validator.v:73-137 | all registers move together, from their values before the edge; which word an accepted command stores is pinned by the lemmas on writes and resets below |
| ZnsSystem.CommandRuns | OriginalFlashSim/zns_fsm_validator.v:73-137 | from idle the polled status is 0, 2, 2, 2 and then 1 with the checker's code, or 2 and 3 with one word committed |
| ZnsSystem.CommandEnds | OriginalFlashSim/zns_fsm_validator.v:92-93 | two clocks after the trigger is dropped the machine is idle with status 0 and nothing else has changed |
| ZnsSystem.CommandEffect | OriginalFlashSim/zns_fsm_validator.v:73-137 | a rejected command changes no word and no counter; an accepted one moves the counter, and stores one word exactly when its zone exists; the fields of that word are the subject of the two lemmas that follow |
| ZnsSystem.WriteAdvancesPointer | OriginalFlashSim/zns_fsm_validator.v:118-128 | an accepted write moves its zone's pointer on by one page, keeps the erase count, and marks the zone full exactly at the 64th page |
| ZnsSystem.ResetAddsErase | OriginalFlashSim/zns_fsm_validator.v:118-128 | an accepted reset empties its zone and adds one to its erase count, to at most ten |
| ZnsSystem.AcceptedExactly | OriginalFlashSim/zns_rules_checker.v:26-55 | with the drive cool a write is accepted exactly at the pointer of a zone with room that is open or has a resource left, a reset exactly below ten erases, a read exactly below the pointer; with the drive hot nothing is |
| ZnsSystem.StoredIffInTable | OriginalFlashSim/hardware_bridge.cpp:43-48 | the word an accepted write or reset computes is read back from its zone exactly when the zone exists |
| ZnsSystem.OpenCountUpdate | OriginalFlashSim/zns_resources_tracker.v:15-30 | changing one word changes the number of partly written zones by that word alone |
| ZnsSystem.PoweredUp | OriginalFlashSim/zns_metadata_bram.v:17-22 | the zeroed machine satisfies the zone invariant |
| ZnsSystem.CommittedIsCounted | OriginalFlashSim/zns_resources_tracker.v:15-30 | an accepted write or reset commits a well-formed word, and the counter moves exactly as that word's openness does, staying within four |
| ZnsSystem.CommandPastTableKeepsInvariant | OriginalFlashSim/hardware_bridge.cpp:25-48 | past the last zone the invariant is lost exactly by a first-page write with the drive cool and a resource left; no word ever changes |
| ZnsSystem.CommandKeepsInvariant | OriginalFlashSim/zns_fsm_validator.v:118-128 | counter equals partly written zones, at most four, full exactly at pointer 64, at most ten erases: kept by a command exactly unless it stores a stale word that is open where the zone is not, or the reverse, or opens a zone that is not there |
| ZnsSystem.WriteMakesReadable | OriginalFlashSim/zns_rules_checker.v:33-44 | after an accepted write exactly the pages readable before and the page written are readable |
| ZnsSystem.ResetMakesUnreadable | OriginalFlashSim/zns_rules_checker.v:42-47 | after an accepted reset no page of the zone can be read |
| ZnsSystem.OtherZonesKept | OriginalFlashSim/hardware_bridge.cpp:43-48 | no command changes the word of another zone |
| ZnsSystem.RunKeepsInvariant | OriginalFlashSim/zns_fsm_validator.v:73-137 | the invariant holds after every command of a run exactly when each command is counted right |
| ZnsSystem.DisciplinedRun | OriginalFlashSim/zns_fsm_validator.v:118-128 | in every run whose commands other than writes and resets are refused or address the zone last committed, the invariant holds throughout and only writes and resets change a word |
| ZnsSystem.WritesAndResetsDisciplined | OriginalFlashSim/zns_fsm_validator.v:118-128 | runs of writes and resets of existing zones are such runs |
| ZnsSystem.ZonesAreReckoned | OriginalFlashSim/zns_fsm_validator.v:118-128 | from power-up, after any disciplined run, a zone's erase count is the number of its accepted resets and its pointer the number of writes accepted since the last of them |
| ZnsSystem.VerdictsAreReckoned | OriginalFlashSim/zns_rules_checker.v:26-55 | so every verdict follows from the commands and verdicts before it: a write is accepted exactly at the next page and with fewer than four other zones partly written, a reset exactly when fewer than ten were accepted before, a read exactly of a page written since |
| ZnsSystem.OpenIsReckoned | OriginalFlashSim/zns_resources_tracker.v:15-30 | the counter is the number of zones with some but not all of their pages written, by the verdicts |
| ZnsSystem.PowerUpIsBlank | OriginalFlashSim/zns_metadata_bram.v:17-22 | the machine starts where those runs start |
| ZnsSystem.CountedRightMayLosePages | OriginalFlashSim/zns_fsm_validator.v:118-128 | a stale word that is open like the one it overwrites keeps the invariant and loses pages |
| ZnsSystem.RereadChangesNothing | OriginalFlashSim/zns_fsm_validator.v:118-128 | a command that is neither a write nor a reset leaves the words as they are exactly when it is refused or the word last committed is the one there |
| ZnsSystem.StalePrefixRuns | OriginalFlashSim/zns_fsm_validator.v:118-128 | writing zones 0 and 1 and resetting zone 1 keeps the invariant and leaves the reset word in the data register |
| ZnsSystem.StaleReadLosesPages | OriginalFlashSim/zns_fsm_validator.v:118-128 | reading zone 0 next wipes its write pointer while the counter still counts it |
| ZnsSystem.WriteBeyondLastZoneLeaksResource | OriginalFlashSim/hardware_bridge.cpp:24-54 | a first-page write past zone 1023 succeeds, stores nothing and takes an open resource |
| HardwareBridge.Bridge.constructor | OriginalFlashSim/hardware_bridge.cpp:12-14 | the simulated hardware starts idle with zeroed words, satisfying the zone invariant |
| HardwareBridge.Bridge.VerilatorTickHardware | OriginalFlashSim/hardware_bridge.cpp:24-54 | one call is one clock of validator, latch and array, addressed by what the validator drove before the clock |
| HardwareBridge.Bridge.SimGetOutStatus | OriginalFlashSim/hardware_bridge.cpp:61-61 | reading the status clocks the hardware once and returns the new status |
| ZnsDriver.StatusTellsRule | OriginalFlashSim/zns_driver.c:103-113 | two refusals get the same NVMe status exactly when the same rule fired, or one is wear-out and the other overheating |
| ZnsDriver.OpcodesDecoded | OriginalFlashSim/zns_driver.c:68-83 | the host's opcodes 0x01, 0x02 and 0x79 become the validator's write, read and reset, and no other becomes a command |
| ZnsDriver.RefusalsReported | OriginalFlashSim/zns_driver.c:103-113 | which NVMe status code tells the host of a full zone, an out-of-order write, a fifth open zone, a read past the pointer and a worn zone, exactly |
| ZnsDriver.AddressesNamedZone | OriginalFlashSim/zns_driver.c:20-33 | page and zone recompose to the address exactly when it has at most 38 bits |
| ZnsDriver.HalvesMakeWhole | OriginalFlashSim/zns_driver.c:20-33 | the two half-writes leave nothing of the old accumulator |
| ZnsDriver.PollsEnd | OriginalFlashSim/zns_driver.c:93-98 | every poll before the last sees a busy status and the last one does not |
| ZnsDriver.ZnsDriver.CsrWrite32 | OriginalFlashSim/zns_driver.c:16-43 | each register write sets its own port, the address halves both ports, a doorbell its own cell, and no other |
| ZnsDriver.ZnsDriver.CsrRead32 | OriginalFlashSim/zns_driver.c:45-53 | only a status read clocks the hardware |
| ZnsDriver.ZnsDriver.StartCommand | OriginalFlashSim/zns_driver.c:85-91 | whatever the accumulator held, the validator sees the page and zone of the address and the whole command at once |
| ZnsDriver.ZnsDriver.Poll | OriginalFlashSim/zns_driver.c:93-98 | the loop ends after at most six polls, with status 3 exactly when the rules accept |
| ZnsDriver.ZnsDriver.ZnsProcessNvmeCommand | OriginalFlashSim/zns_driver.c:63-119 | for every address a supported command runs to completion and succeeds exactly when accepted, stores one word if accepted and its zone exists and none otherwise, and leaves the machine idle; an unsupported one leaves the hardware alone |
| ZnsManager.WriteKeepsZonesOk | OriginalFlashSim/zns_manager.cpp:22-48 | for any zone size, a write keeps pointers in their zones, full exact and at most four zones open |
| ZnsManager.Controller.OpenZonesCountCheck | OriginalFlashSim/zns_manager.cpp:52-58 | the scan counts the zones started and not full |
| ZnsManager.Controller.ValidateAndAdvanceZns | OriginalFlashSim/zns_manager.cpp:8-50 | a write is admitted exactly in sequence, in a zone with room and within the open limit, and then moves one pointer; a read asks only for an existing zone |
| ZnsManager.ScanIsCount | OriginalFlashSim/zns_manager.cpp:52-58 | the scan over the table and the number of partly written words agree |
| ZnsManager.VerdictsAgree | OriginalFlashSim/zns_rules_checker.v:26-55 | the validator with its running counter accepts a write exactly when the scanning model admits it, unless the write opens a zone past the last one |
| ZnsManager.WriteInLockstep | OriginalFlashSim/zns_manager.cpp:44-47 | after any write both hold the same pointer and full flag for every zone |
| ZnsManager.WritesInLockstep | OriginalFlashSim/zns_manager.cpp:8-50 | the same after every run of writes |
| ZnsManager.SameVerdicts | OriginalFlashSim/zns_manager.cpp:8-50 | every write of every run gets the same verdict from both |
| ZnsBoard.ZnsMetadataBram.PosEdge | OriginalFlashSim/zns_metadata_bram.v:24-29 | the registered output gets the word from before the write |
| ZnsBoard.BoardRuns | OriginalFlashSim/zns_metadata_bram.v:24-29 | with the board's RAM a command takes as many clocks and ends in the same registers and words as in the simulator |
| ZnsBoard.CommandMirrors | OriginalFlashSim/zns_metadata_bram.v:10-29 | board and simulator go through every command alike, and words past the last zone stay |
| HostFtlModel.FreshAppend | host_ftl/src/ftl_write_pipeline.rs:21-38 | the page an append goes to lies inside its zone and no logical page is mapped to it |
| HostFtlModel.AcceptedWrite | host_ftl/src/ftl_write_pipeline.rs:21-57 | an accepted page-sized write keeps mapped pages below the write pointers and unshared, and the page reads back |
| HostFtlModel.OthersKeepContent | host_ftl/src/ftl_write_pipeline.rs:21-57 | an accepted write changes no other page's mapping or content |
| HostFtlModel.WriteSucceedsIff | host_ftl/src/ftl_write_pipeline.rs:9-63 | for every buffer and reply a write succeeds exactly when the page exists, a zone from the current one on has room, and the first append lands or the reset and the second append do; the error is InvalidInput exactly past the table and StorageFull exactly when all those zones are full |
| HostFtlModel.WriteLeaves | host_ftl/src/ftl_write_pipeline.rs:9-63 | table, pointers and current zone after each outcome: the page mapped at the old pointer; nothing changed after a refused reset; the zone reset and, if the retry lands, the page mapped at the old offset |
| HostFtlModel.WriteStores | host_ftl/src/ftl_write_pipeline.rs:9-63 | which byte of the store each outcome leaves at every place |
| HostFtlModel.FailedWriteMapsNothing | host_ftl/src/ftl_write_pipeline.rs:9-63 | a failed write maps no page that was not mapped, and moves none |
| HostFtlModel.ReadBackNeedsWholePage | host_ftl/src/ftl_io.rs:12-65 | an accepted write reads back exactly when its buffer is one page long |
| HostFtlModel.ResetForgetsZone | host_ftl/src/core.rs:10-24 | a zone reset forgets exactly the pages mapped into the zone; the others keep their content |
| HostFtlModel.ResetKeepsInv | host_ftl/src/core.rs:10-24 | a zone reset keeps the mapping sound |
| HostFtlModel.RetryKeepsInvIff | host_ftl/src/ftl_write_pipeline.rs:33-57 | after a refusal, a reset and an accepted retry the mapping is sound exactly when the offset computed first was 0 |
| HostFtlModel.RetryForgetsZone | host_ftl/src/ftl_write_pipeline.rs:38-48 | the retry forgets every other page of the zone; pages of other zones keep their content |
| HostFtlModel.RetryInEmptyZone | host_ftl/src/ftl_write_pipeline.rs:38-57 | in an empty zone the retry loses nothing and the page reads back |
| HostFtlModel.StepRefinesMap | host_ftl/src/ftl_write_pipeline.rs:9-63 | a write without refusals sets one key of a plain map, a reset removes the zone's keys |
| HostFtlModel.RunRefinesMap | host_ftl/src/ftl_write_pipeline.rs:9-63 | every run of writes and resets without refusals is a run of that map |
| HostFtl.L2pTable.Set | host_ftl/src/l2p.rs:27-31 | one entry changes; a page past the table is ignored |
| HostFtl.L2pTable.InvalidateZone | host_ftl/src/l2p.rs:33-41 | exactly the entries of the zone are dropped |
| HostFtl.HostManagedFtl.constructor | host_ftl/src/ftl_struct.rs:15-31 | a new layer represents the empty map |
| HostFtl.HostManagedFtl.AppendToZone | host_ftl/src/ftl_io.rs:12-48 | an accepted append stores the data at the zone's write pointer and moves it; a refused one changes nothing |
| HostFtl.HostManagedFtl.ZoneReset | host_ftl/src/core.rs:10-31 | an acknowledged reset rewinds the zone and drops its entries; otherwise nothing changes |
| HostFtl.HostManagedFtl.LogicalWrite | host_ftl/src/ftl_write_pipeline.rs:9-63 | the first zone with room from the current one is used; the answer is the data exactly when an append landed, and an error otherwise; the state after every outcome is the one the lemmas on outcomes describe |
| HostFtl.HostManagedFtl.LogicalRead | host_ftl/src/ftl_io.rs:51-90 | a mapped page returns the bytes at its address, any other page zeros, one page long |
| StressTest.WriteOnTrack | host_ftl/src/main.rs:56-66 | a worker's next write goes to the next page of its own zone |
| StressTest.OtherStaysOnTrack | host_ftl/src/main.rs:56-66 | it leaves the pages of the other workers where and as they are |
| StressTest.ProgressIsTurns | host_ftl/src/main.rs:56-115 | a worker's progress depends on how many turns it got and not on when; after 128 its zone is full and checked |
| StressTest.Workers.Turn | host_ftl/src/main.rs:56-115 | no critical section ever makes a worker give up, and worker w's j-th page is at zone w, page j |
| StressTest.Workers.Matches | host_ftl/src/main.rs:96-104 | the loop finds a difference exactly when there is one |
| StressTest.Workers.Interleave | host_ftl/src/main.rs:40-129 | the same after every interleaving of the three workers |
| StressTest.FillZones | host_ftl/src/main.rs:17-129 | from a new layer, every schedule that gives each worker 128 turns ends with all 64 pages of worker w at zone w in order, and the zone full |
| Spi.ZnsEepromController.PosEdge | OriginalFlashSim/zns_eeprom_controller.v:36-109 | all registers move together, from their values before the edge |
| Spi.NextBit | OriginalFlashSim/zns_eeprom_controller.v:84-95 | at the end of a bit the next bit of the captured word is on the wire |
| Spi.StepKeepsInv | OriginalFlashSim/zns_eeprom_controller.v:36-109 | every clock, with any inputs, keeps the receiver's bits a prefix of the captured words |
| Spi.RunKeepsInv | OriginalFlashSim/zns_eeprom_controller.v:36-109 | from reset, under any triggers and data, the receiver has the captured words in order up to the one in flight |
| Spi.InFlight | OriginalFlashSim/zns_eeprom_controller.v:48-96 | later triggers and data are ignored while a word is on its way |
| Spi.TransferDelivers | OriginalFlashSim/zns_eeprom_controller.v:48-106 | exactly 265 clocks after a capture, and not before, the receiver has exactly the 32 bits of the captured word, most significant first |
| Spi.HeldTriggerSendsOnce | OriginalFlashSim/zns_eeprom_controller.v:98-106 | a trigger that stays high sends its word once, however long it is held |
| Spi.HeldAfterSent | OriginalFlashSim/zns_eeprom_controller.v:98-106 | while it is held after the word is out, nothing is captured or sent |
| Spi.ReadyAgainIff | OriginalFlashSim/zns_eeprom_controller.v:98-106 | the machine becomes ready for another word exactly when it sees the trigger low |
| Spi.IdleWires | OriginalFlashSim/zns_eeprom_controller.v:49-64 | an idle clock leaves select high and the other wires low, and starts a word exactly when it sees the trigger |

## Left out

- Dftl.FtlImpl_Dftl.Serve: drives of twenty blocks or fewer, and as many live pages as all but three blocks hold, are outside its precondition: there the 0.9 threshold lets a collection pass start with fewer than two free blocks (`QuietLeavesThreeFree`), and the nested pass that follows is not modelled.
- BlockManagement.BlockManager.GetPageBlock: the pass it starts is that of a layer without cleaning; for DFTL it is proved never to start one while two blocks are free. A pass at exactly nine tenths that must supply the only block is excluded, since rounding decides whether it happens.
- Bast.FtlImpl_Bast.Read: a page never written reads page 0 or an EMPTY page in the code; the value is left unspecified.
- DftlCache.FtlImpl_DftlParent.Unmap: the store into the reverse map at index -1 is left out.
- HostFtl.Backend.Write: a socket that fails in the middle of a request is not modelled; a refusal stores nothing.
- ZnsManager.Controller.ValidateAndAdvanceZns: the table always exists; the null check is not modelled. `reset_zns_zone` has no definition in the repository, so the lockstep is about writes.
- BusChannel.Channel.Lock: with ties, which need a request of duration zero, the order of equal start times is left open.
- Dftl.FtlImpl_Dftl.Write: once `overrun` is set the code has read or written outside its map and promises nothing; the model skips the missing entries, so what it says from then on is not about the code. The same holds for `Read`, `Trim` and `Serve`.
- ZnsBoard.CommandMirrors: on the board zones 1024 to 4095 have words of their own; the comparison with the simulator is for the zones both have.
- FAST, BDFTL, the page-mapped layer and the thin ZNS layer; `Plane::_merge`; wear statistics and their loops; the merge events.
- Erase endurance of the flash blocks: erases always succeed. The zone word's erase count is modelled.
- `free_blocks` and `next_page` of a plane, block type tags, modification times and all other statistics and times, except those of the bus channel.
- `simpleCurrentFree` and `current_writing_block` count blocks here; the code keeps addresses that are multiples of the block size. The 32-bit width of linear addresses is not modelled.
- Log blocks are values in the map here, pointers in the code; only `dispose_logblock` frees one, after it has left the map.
- `FtlImpl_Dftl` holds a `FtlImpl_DftlParent` instead of inheriting from it; bimodal layers, the other heirs, are left out.
- Floating-point rounding: times are reals. The ratio in `insert_events` is compared exactly, except that at exactly nine tenths, where the single-precision quotient lies below 0.9, the model allows either branch.
- The controller's software mirror of the zones, the thermal manager, the crypto engine, sockets and NBD framing, the management thread, configuration, printing and files.
- The asynchronous reset wires of the hardware: machines start from their reset values.
