# PostgreSQL contrib: indexes, hstore and consistency checks in Dafny

Models of the harder parts of five PostgreSQL extensions, and proofs about them:

- **btree_gist** (`BtreeGistVar`): variable-length keys whose bounds may be cut after their common prefix.
  Searches in an index of any height return exactly the values that satisfy the query.  Splitting an inner
  page can lose values; the exact condition is proved for all strategies.
- **bloom** (`BloomRandom`, `BloomSignature`, `BloomPage`, `BloomProtocol`, `BloomProgress`): the random
  number generator, signatures, pages changed in place, and a state machine of any number of inserters,
  vacuums and scans, with what holds after every interleaving and how every call can still come to its end.
- **amcheck, B-trees** (`NbtreeIndex`, `NbtreeLevel`, `NbtreeWalk`, `NbtreeTree`, `NbtreeExact`, `NbtreePasses`,
  `NbtreeChildWalk`, `NbtreeEndless`, `NbtreeExamples`, `NbtreeCheck`): what a finished check of a level, and of the
  whole index, says about its pages, on link graphs however corrupt, exactly which indexes it finds in order, and
  exactly when its walks go on for ever.
- **amcheck, heap** (`HeapToast`, `HeapXid`): chunk accounting of out-of-line values, widening of
  transaction ids and judging them by a range that may be stale.
- **hstore**: the packed format (`HstoreFormat`), its construction in one allocation (`HstoreBuild`), sorted
  lists as maps (`HstoreMap`), the operations on packed values (`HstoreOps`, `HstorePairs`,
  `HstoreArray`, `HstoreCompare`), text input and output (`HstoreText`, `HstoreParser`,
  `HstoreInOut`), the language the parser accepts and its two complaints (`HstoreGrammar`, `HstoreErrors`), the conversion of
  old values in place (`HstoreUpgrade`) and the signature tree (`HstoreGist`).
- **cube** (`Cube`, `CubeOrder`, `CubeSearch`): boxes of mixed dimension over the reals; their comparison, and
  what searches of their index return.

`Bytes` holds the order of byte strings that several of them share, `Orbit` what following a function over a
finite set comes to.

Code that works on fields, arrays and loops is modelled by classes, arrays and methods; each method is
proved against a function or a relation, and the theorems are about those.  Memory is a sequence or array
of numbers; a 32-bit word is stored low byte first.  Machine arithmetic is written out where it can differ
from the integers.  Hash functions, `qsort`, the chunks an index scan returns and the shared variables of
the server are parameters.

## Findings

The following properties turn out not to hold in general; each has a concrete input and the exact condition.

- A split of inner btree_gist pages cuts both sides at the longer common prefix, so that a side can turn
  away a value below it: `InnerSplitCanLoseAValue`.  Some strategy loses some value exactly when a member is
  endangered (`SplitSideExact`), and the side's key covers what its members covered exactly when none is
  outgrown (`SideCoversExact`).
- `mySrand` says that it leads into the range from 1 to 0x7ffffffe; it does so for the seeds below 2^31 and
  for one other: `SeededInRange`.  Two seeds bring the generator to its fixed point 0, where it draws -1:
  `DeadSeeds`; for every column some hash leads there: `DeadHashExists`.
- The rightward walk of a level goes on for ever exactly when the spots it stands on come round and every one
  up to there passes: `LevelWalkNeverEnds`, with a root leaf in `RightWalkCanGoOn`.  Below a level that passed
  without the special numbers it always ends (`LowerWalkEnds`), so that only the root's level can go on
  (`OnlyTheRootLevelGoesOn`).
- The walk along the child level goes on for ever exactly when its stands come round: `ChildWalkNeverEnds`,
  with an index in `ChildWalkCanGoOn`.
- A check of the whole index accepts a downlink to block 0 (`EmptyDownlinkPasses`); it shows the pages in use
  to be a tree exactly when there is none (`CheckedIndexIsTree`).  The check of one level also accepts a child
  whose right link is the invalid block number (`InvalidRightLinkPasses`), and is otherwise sound
  (`LevelCheckIsSound` is an equivalence); the check of the level below finds that child
  (`CheckedBelowIsClean`).
- An hstore of more than 2^24 pairs can be printed but not read back: `OutThenIn`, with a value in
  `LargeValueExists`.
- An old-format hstore is converted to the packed value of its pairs exactly when it is not both short and
  begun by a null value with an unused length of 2^15 or more: `UpgradeIsExact`.  In `OldValueTakenForNew`
  the result claims one byte more than there is.
- The comparison behind the B-tree operator class of cube is not transitive: boxes of two different dimensions
  above 0 always stand in a cycle (`CompareCycle`).  It is transitive on the boxes of a column exactly when all
  that are not empty have the same dimension (`TransitiveExactly`).
- A GiST search for the boxes contained in a query can miss one: `ContainedBoxIsMissed`.  Every tree finds a
  contained box exactly when the query spans 0 in the dimensions in which it exceeds the box
  (`ContainedSearchExact`); searches for the other strategies are exact (`CubeSearch.SearchIsExact`).
- A stored size of 0 passes the chunk check only with chunks of 2^32 bytes: `CompleteAddsUp`.

## Model

| member | source | states |
|---|---|---|
| BtreeGistVar.NodeCommonPrefix | contrib/btree_gist/btree_utils_var.c:123-173 | the loop returns the length of the longest common prefix of the two bounds |
| BtreeGistVar.MergeAll | contrib/btree_gist/btree_utils_var.c:243-288 | the loop that accumulates keys one by one computes the merged key |
| BtreeGistVar.MergedEncloses | contrib/btree_gist/btree_utils_var.c:243-288 | the accumulated bounds enclose the bounds of every member |
| BtreeGistVar.MergedIsAttained | contrib/btree_gist/btree_utils_var.c:243-288 | each of its bounds is the bound of some member, so they are the least lower and the greatest upper one |
| BtreeGistVar.Union | contrib/btree_gist/btree_utils_var.c:332-368 | the union key is the merged key, cut two bytes past its own common prefix for types that truncate |
| BtreeGistVar.TruncateCoversExact | contrib/btree_gist/btree_utils_var.c:214-239 | a cut at least two bytes past the common prefix keeps covering every value within the exact bounds |
| BtreeGistVar.UnionCovers | contrib/btree_gist/btree_utils_var.c:332-368 | a union covers whatever any member covers, even when the member's own upper bound was already cut |
| BtreeGistVar.CoversIsConsistent | contrib/btree_gist/btree_utils_var.c:564-623 | a key that covers a value lets through each of the six strategies that the value satisfies |
| BtreeGistVar.ConsistentHasReason | contrib/btree_gist/btree_utils_var.c:564-623 | for each strategy a key that passes has, between its bounds or among their extensions, a value that satisfies the query or is the query |
| BtreeGistVar.LeafIsExact | contrib/btree_gist/btree_utils_var.c:564-623 | on a leaf the test is true exactly when the value satisfies the strategy |
| BtreeGistVar.OriginCovers | contrib/btree_gist/btree_utils_var.c:332-368 | a key made from values by any nesting of unions and splits, those of inner pages too as long as no member is outgrown, covers every value it stands for |
| BtreeGistVar.LeafSplitIsMade | contrib/btree_gist/btree_utils_var.c:468-558 | splits of leaf pages are always such |
| BtreeGistVar.SearchIsExact | contrib/btree_gist/btree_utils_var.c:564-623 | a scan of an index of any height, of such keys, returns exactly the values in it that satisfy the query |
| BtreeGistVar.PickSplit | contrib/btree_gist/btree_utils_var.c:468-558 | in sorted order the first half goes left and the rest right, and nothing on the left is above anything on the right; each side has its merged key, which for types that truncate is cut at one length behind both common prefixes |
| BtreeGistVar.SideCovers | contrib/btree_gist/btree_utils_var.c:543-552 | a side covers what a member covers, unless the member is outgrown |
| BtreeGistVar.SideCoversExact | contrib/btree_gist/btree_utils_var.c:543-552 | a side covers all that its members cover if and only if none is outgrown |
| BtreeGistVar.MemberIsKept | contrib/btree_gist/btree_utils_var.c:543-552 | for each of the six strategies, a value of a member that is not endangered stays reachable through its side's key, for any cut behind the side's common prefix |
| BtreeGistVar.EndangeredIsLost | contrib/btree_gist/btree_utils_var.c:543-552 | for every endangered member there is a value it covers and its side's key turns away |
| BtreeGistVar.SplitSideExact | contrib/btree_gist/btree_utils_var.c:543-552 | a side loses no value for any of the six strategies if and only if no member is endangered |
| BtreeGistVar.LeafEntriesAreSafe | contrib/btree_gist/btree_utils_var.c:468-558 | leaf entries are neither outgrown nor endangered |
| BtreeGistVar.InnerSplitCanLoseAValue | contrib/btree_gist/btree_utils_var.c:543-552 | a split of four inner keys after which a value covered before is not found |
| NbtreeIndex.LeftChainIsDistinct | contrib/amcheck/verify_nbtree.c:1135-1187 | reverse links that agree and the refusal to return to the start exclude every cycle |
| NbtreeIndex.LeftmostIgnoringHalfDead | contrib/amcheck/verify_nbtree.c:1135-1187 | the leftward walk ends on every link graph |
| NbtreeIndex.LeftWalkIsLeftmost | contrib/amcheck/verify_nbtree.c:1135-1187 | it answers true if and only if all pages to the left are half-dead and mutually linked up to the left end |
| NbtreeLevel.MissingIsExcused | contrib/amcheck/verify_nbtree.c:2655-2821 | a page that passes without a downlink follows an incomplete split, is the root, or tops an interrupted deletion found by descending |
| NbtreeLevel.MissingExactly | contrib/amcheck/verify_nbtree.c:2655-2821 | a page passes without a downlink if and only if it follows an incomplete split, is a root, or tops an interrupted deletion, level by level down to its half-dead leaf |
| NbtreeLevel.ChildLoopFollowsChain | contrib/amcheck/verify_nbtree.c:2243-2475 | one call walks along right links up to the downlink, or to the end of the level, over excused pages only |
| NbtreeLevel.LevelCheckIsSound | contrib/amcheck/verify_nbtree.c:749-974 | after a check without error, the downlinks of the level are, in order, a subsequence of the child level's whole right-link chain with every skipped page excused, if and only if no downlink is block 0 and no named child has the invalid right link |
| NbtreeLevel.ConnectedIsClean | contrib/amcheck/verify_nbtree.c:2243-2475 | a chain that connects contains neither of the two special numbers |
| NbtreeWalk.ChainIsDistinct | contrib/amcheck/verify_nbtree.c:2243-2475 | a right-link chain that reaches the end of its level visits no page twice |
| NbtreeWalk.NoChildTwice | contrib/amcheck/verify_nbtree.c:2243-2475 | no two downlinks of a connected level name the same child |
| NbtreeWalk.RightWalkIsDistinct | contrib/amcheck/verify_nbtree.c:776-961 | without half-dead pages the walk of a level visits no block twice, so fewer than there are blocks |
| NbtreeWalk.RightWalkEnds | contrib/amcheck/verify_nbtree.c:776-961 | with as many rounds as blocks the walk has ended, raised an error, or met a half-dead page |
| NbtreeWalk.RightWalkClosesAt | contrib/amcheck/verify_nbtree.c:776-961 | a walk that meets a block again closes at a half-dead page, or at its first page through a half-dead left neighbour |
| NbtreeEndless.LevelWalkNeverEnds | contrib/amcheck/verify_nbtree.c:776-961 | for every index and level, the walk is never over if and only if the spots along it come round and every spot up to there passes its tests |
| NbtreeEndless.LevelWalkEndsSoonOrNever | contrib/amcheck/verify_nbtree.c:776-961 | the walk of a level ends within as many rounds as there are spots, or it never ends |
| NbtreeEndless.LeafSpotPasses | contrib/amcheck/verify_nbtree.c:776-961 | what these tests are on a leaf level |
| NbtreeEndless.LowerWalkEnds | contrib/amcheck/verify_nbtree.c:776-961 | below a level that passed without block 0 and invalid right links, the walk is over within as many rounds as there are blocks |
| NbtreeEndless.OnlyTheRootLevelGoesOn | contrib/amcheck/verify_nbtree.c:640-664 | then a check of the whole index is not over if and only if the walk of the root's level is not |
| NbtreeExamples.RightWalkCanGoOn | contrib/amcheck/verify_nbtree.c:640-664 | a check of an index with a root leaf, of any number of rounds, is never over |
| NbtreeChildWalk.ChildWalkNeverEnds | contrib/amcheck/verify_nbtree.c:2243-2475 | for every index and every call, the walk along the child level is never over if and only if its first step passes and what it stands on comes round, passing every test up to there |
| NbtreeExamples.ChildWalkCanGoOn | contrib/amcheck/verify_nbtree.c:640-664 | a check of an index of two levels in which the walk along the child level is never over |
| NbtreeChildWalk.ChildWalkEndsSoonOrNever | contrib/amcheck/verify_nbtree.c:2243-2475 | the walk along the child level ends within twice as many rounds as there are blocks, or it never ends |
| NbtreeExamples.EmptyDownlinkPasses | contrib/amcheck/verify_nbtree.c:640-664 | an index whose only downlink is block 0 passes as a whole and is not connected |
| NbtreeExamples.InvalidRightLinkPasses | contrib/amcheck/verify_nbtree.c:2243-2475 | a level whose child has the invalid right link passes and is not connected; the check of the level below reports it |
| NbtreeTree.LevelVisits | contrib/amcheck/verify_nbtree.c:776-961 | a finished walk of a level is a chain of right links to its end, of which exactly the pages in use were checked, all on their level |
| NbtreeTree.LevelsLink | contrib/amcheck/verify_nbtree.c:640-664 | every page in use of the next level is named by exactly one downlink of this one, or has an excuse, and every downlink names a page of the next level's walk |
| NbtreeTree.CheckedBelowIsClean | contrib/amcheck/verify_nbtree.c:640-664 | where no downlink is block 0, a check of the level below rules out invalid right links |
| NbtreeTree.CleanIndexIsTree | contrib/amcheck/verify_nbtree.c:640-664 | without the special numbers, the levels of a finished check form a tree, and reach from the root to the leaves |
| NbtreeTree.CheckedIndexIsTree | contrib/amcheck/verify_nbtree.c:640-664 | after any finished check of the whole index, the pages in use form a tree if and only if no downlink is block 0: none is visited twice on any level, each lies on its level, each below the top has one downlink or an excuse, and each downlink names a page of the next level |
| NbtreeExact.ChildCheckPasses | contrib/amcheck/verify_nbtree.c:2243-2475 | in a level that its downlinks lead through, with every gap excused, each call passes and remembers what the next one needs |
| NbtreeExact.LevelLoopPasses | contrib/amcheck/verify_nbtree.c:749-974 | a level whose links agree, over such a level below it, is walked to its end without an error |
| NbtreePasses.NoDeletedChild | contrib/amcheck/verify_nbtree.c:1413-1493 | after any finished check of a level, no downlink but the first of its page names a deleted page |
| NbtreePasses.LevelCheckExact | contrib/amcheck/verify_nbtree.c:749-974 | given as many rounds as there are blocks, a level passes without reserved numbers among its downlinks if and only if it and the level below are linked as they should be, in terms of the links and page headers alone |
| NbtreePasses.IndexCheckExact | contrib/amcheck/verify_nbtree.c:640-664 | the whole check passes with no downlink to block 0 if and only if every level, from the root down to the leaves, is so linked |
| NbtreePasses.PlainIndexPasses | contrib/amcheck/verify_nbtree.c:640-664 | an index at rest, whose levels are chains of pages in use with agreeing sibling links, each named in order by the level above, passes |
| NbtreeCheck.BtreeCheckState.DownlinkMissingCheck | contrib/amcheck/verify_nbtree.c:2655-2821 | the method computes the descent, from whose success `NbtreeLevel.MissingIsExcused` concludes |
| NbtreeCheck.BtreeCheckState.ChildHighkeyCheck | contrib/amcheck/verify_nbtree.c:2243-2475 | the loop that updates the remembered right link and split flag, for any number of rounds |
| NbtreeCheck.BtreeCheckState.TargetPageCheck | contrib/amcheck/verify_nbtree.c:1413-1493 | the items of an internal page, followed one after the other |
| NbtreeCheck.BtreeCheckState.CheckLevelFromLeftmost | contrib/amcheck/verify_nbtree.c:749-974 | the walk of a level, to whose result `NbtreeLevel.LevelCheckIsSound` applies |
| NbtreeCheck.BtreeCheckState.CheckEveryLevel | contrib/amcheck/verify_nbtree.c:640-664 | the loop over the levels, to whose result `NbtreeTree.CheckedIndexIsTree` applies |
| BloomRandom.SchrageStep | contrib/bloom/blutils.c:223-248 | for every 32-bit state no intermediate value leaves 32 bits, and the decomposition is 16807 times the state modulo 2^31-1 |
| BloomRandom.Generator.MyRand | contrib/bloom/blutils.c:223-248 | the state becomes the representative of 16807 times the old one, and the number drawn is one less |
| BloomRandom.SeededInRange | contrib/bloom/blutils.c:250-256 | the state that a seed leads to is in 1 to 0x7ffffffe, as it is meant to be, if and only if the seed is below 2^31 or is 0x80000002 |
| BloomRandom.DeadSeeds | contrib/bloom/blutils.c:250-256 | the seeded state is 0 if and only if the seed is 0xFFFFFFFF or 0x80000001 |
| BloomRandom.StepIsInvertible | contrib/bloom/blutils.c:223-248 | a step permutes the residues: multiplying by a constant undoes it |
| BloomRandom.ZeroIsIsolated | contrib/bloom/blutils.c:223-248 | a step leads to 0 only from a multiple of the modulus |
| BloomRandom.StepsClosedForm | contrib/bloom/blutils.c:223-248 | after any number of steps the state is a power of 16807 times the start |
| BloomRandom.DrawRange | contrib/bloom/blutils.c:223-256 | from any other seed every state after the first step is in 1 to 0x7ffffffe for ever, and from those the state stays 0 |
| BloomSignature.MaskIsContainment | contrib/bloom/blscan.c:126-168 | comparing words under the mask tests containment of all bits |
| BloomSignature.Matches | contrib/bloom/blscan.c:126-168 | the word loop decides containment |
| BloomSignature.DrawInRange | contrib/bloom/blutils.c:261-289 | every bit index is inside the signature if and only if the seed is not dead |
| BloomSignature.SeedsDiffer | contrib/bloom/blutils.c:269-281 | different hashes of a column's values give different seeds, and every word is the seed of some hash |
| BloomSignature.SignValue | contrib/bloom/blutils.c:261-289 | exactly the bits of the value are added, whatever state the generator was in |
| BloomSignature.DeadHashExists | contrib/bloom/blutils.c:261-289 | for every column there is a hash that leads to a dead seed |
| BloomSignature.FormTuple | contrib/bloom/blutils.c:294-313 | the signature of a row has exactly the bits of its columns that are not null |
| BloomSignature.SearchSignature | contrib/bloom/blscan.c:80-125 | the signature of a search has exactly the bits of its keys; a null key ends it |
| BloomSignature.NoFalseNegatives | contrib/bloom/blscan.c:80-172 | a row whose columns hash like the searched keys contains the search signature, for any hash and any subset and order of columns |
| BloomPage.FitsBelowCapacity | contrib/bloom/blutils.c:319-347 | a tuple fits by bytes exactly below the page's capacity |
| BloomPage.EmptyPageHasRoom | contrib/bloom/blutils.c:319-347 | every permitted signature length leaves room for at least fifteen tuples |
| BloomPage.Buffer.AddItem | contrib/bloom/blutils.c:319-347 | adds at the end if there is room, and otherwise changes nothing |
| BloomPage.Buffer.InitPage | contrib/bloom/blutils.c:400-410 | the page is empty afterwards |
| BloomPage.Buffer.Compact | contrib/bloom/blvacuum.c:84-107 | moving tuples down in place leaves those not named, in order |
| BloomPage.Buffer.BulkDelete | contrib/bloom/blvacuum.c:74-139 | a page afterwards, the number removed, and whether it goes on the free list |
| BloomPage.KeptMultiset | contrib/bloom/blvacuum.c:84-107 | exactly the named tuples go, with multiplicity |
| BloomPage.VacuumedContents | contrib/bloom/blvacuum.c:74-139 | new, deleted and emptied pages hold what they should |
| BloomPage.BuildState.BuildCallback | contrib/bloom/blinsert.c:73-115 | each row is added behind the others, on a new page when the current one is full |
| BloomPage.Build | contrib/bloom/blinsert.c:120-158 | every row once and in order, full pages but for the last, and the count |
| BloomProtocol.SoundKept | contrib/bloom/blinsert.c:173-341 | every step keeps the locking discipline and the bounds of the free list |
| BloomProtocol.TallyKept | contrib/bloom/blinsert.c:173-341 | every step keeps: a returned insertion is in the index or removed, once, and nothing else is there |
| BloomProtocol.FitsKept | contrib/bloom/blutils.c:319-347 | every step keeps: no page holds more tuples than fit on it |
| BloomProtocol.TriedExactly | contrib/bloom/blinsert.c:221-310 | a try at a page puts the tuple there and ends the call if and only if the page has room, and a listed page that took it is then first on the list |
| BloomProtocol.StaysPut | contrib/bloom/blvacuum.c:58-158 | no step moves a tuple to another page |
| BloomProtocol.InvKept | contrib/bloom/blinsert.c:173-341 | the whole invariant is kept by every step of every process |
| BloomProtocol.BuildIsInit | contrib/bloom/blinsert.c:120-158 | what a build leaves is a proper start |
| BloomProtocol.EveryTupleOnce | contrib/bloom/blinsert.c:173-341 | after any interleaving, each inserted tuple that was not removed is on exactly one page once, removed tuples were named by a vacuum and are nowhere, others are nowhere |
| BloomProtocol.NoPageOverflows | contrib/bloom/blutils.c:319-347 | after any interleaving no page holds more tuples than fit on it |
| BloomProtocol.ScanIsComplete | contrib/bloom/blscan.c:126-168 | a finished scan has every matching tuple present throughout, and nothing else |
| BloomProtocol.VacuumIsComplete | contrib/bloom/blvacuum.c:58-158 | a finished vacuum has removed every tuple its callback names that was there at the start |
| BloomProtocol.FreeListExact | contrib/bloom/blvacuum.c:74-158 | in any run the free list of a vacuum holds, in order and up to the size of the list, exactly the pages that had tuples left and room when it came to them |
| BloomProtocol.RowIsFound | contrib/bloom/blscan.c:80-172 | end to end: a row present throughout whose columns hash like the keys is found, in every interleaving |
| BloomProgress.HolderCanStep | contrib/bloom/blinsert.c:173-341 | the holder of the metapage waits for no lock: its next step is enabled in every reachable state |
| BloomProgress.FreeToStep | contrib/bloom/blinsert.c:173-341 | while nobody holds the metapage, every unfinished insertion, vacuum and scan can take its next step |
| BloomProgress.EveryCallCanFinish | contrib/bloom/blinsert.c:173-341 | from every state that keeps the invariant some continuation brings a given call to its end |
| BloomProgress.NoDeadlock | contrib/bloom/blinsert.c:173-341 | after any interleaving somebody can go on, and each call that has begun can still be finished |
| HeapToast.CheckToastTuple | contrib/amcheck/verify_heapam.c:1457-1541 | nothing is reported if and only if the chunk is the expected one, with valid data of the expected size |
| HeapToast.CheckToastedAttribute | contrib/amcheck/verify_heapam.c:1763-1814 | nothing is reported if and only if the chunks are 0 to the last, in order, each as expected |
| HeapToast.CompleteAddsUp | contrib/amcheck/verify_heapam.c:1457-1541 | then the sizes sum to the stored size; a stored size of 0 wraps to 2^32 |
| HeapToast.CompleteExists | contrib/amcheck/verify_heapam.c:1457-1541 | every stored size, 0 included, has chunks that pass |
| HeapXid.WidenRecovers | contrib/amcheck/verify_heapam.c:1882-1919 | every id from 2^31-1 below the next one to 2^31 above it is recovered from its low word |
| HeapXid.WidenedIsNear | contrib/amcheck/verify_heapam.c:1882-1919 | a normal id becomes a normal 64-bit id; it has the given low word and lies in that window, round the end of 64 bits, or is clamped to the first one exactly when it would lie before it |
| HeapXid.LiveIdIsInRange | contrib/amcheck/verify_heapam.c:2033-2050 | every id in the server's range is widened to its true full id and found in range, however stale the cached range is, while the server has moved on by at most 2^31 ids |
| HeapXid.DeadIdIsFound | contrib/amcheck/verify_heapam.c:2033-2050 | an id that has left the range since is found out exactly when the cached range does not hold it |
| HeapXid.HeapCheckContext.GetXidStatus | contrib/amcheck/verify_heapam.c:2016-2084 | each violation exactly in its case, against a range read again exactly when needed; a status exactly when one is wanted and the id is in range: the one found last for this id, or what the commit state says where it is read, or committed; commit state is read exactly for ids in range that are not cached and not before the horizon |
| HstoreFormat.ReadWords | contrib/hstore/hstore.h:18-36 | a word is read back from the bytes of consecutive words |
| HstoreFormat.EntriesOf | contrib/hstore/hstore.h:23-36 | end positions and flags share a word without disturbing each other |
| HstoreFormat.DecodePair | contrib/hstore/hstore.h:76-83 | the decoding macros read back each key and value that the format holds |
| HstoreMap.MapDetermines | contrib/hstore/hstore_io.c:325-347 | strictly sorted lists with the same map are the same list |
| Bytes.CompareExactly | contrib/hstore/hstore_io.c:325-347 | the comparison of byte strings is decided by the first byte that differs, or by the end of the shorter string |
| HstoreMap.BeforeExactly | contrib/hstore/hstore_io.c:325-347 | a shorter key comes first; of two keys of one length, the one with the smaller byte where they first differ |
| HstoreMap.MergeIsOverride | contrib/hstore/hstore_op.c:521-558 | the merge is sorted and is map override |
| HstoreMap.WithoutIsRemoval | contrib/hstore/hstore_op.c:328-361 | the merge with keys is sorted and is removal of the keys |
| HstoreMap.MinusIsRemoval | contrib/hstore/hstore_op.c:414-460 | the merge is sorted and removes exactly the equal pairs |
| HstoreBuild.CopyIn | contrib/hstore/hstore.h:101-101 | a copy replaces exactly the bytes it covers |
| HstoreBuild.MoveDown | contrib/hstore/hstore.h:137-137 | an overlapping move toward lower addresses keeps what it moves |
| HstoreBuild.Builder.CopyItem | contrib/hstore/hstore.h:99-106 | one more pair stands in memory, with its entries |
| HstoreBuild.Builder.AddItem | contrib/hstore/hstore.h:112-126 | the same from separate key and value |
| HstoreBuild.Builder.Finalize | contrib/hstore/hstore.h:129-140 | after the mark and the slide of the strings, the bytes are exactly those of the list |
| HstoreOps.FixSizeIsIdentity | contrib/hstore/hstore.h:143-147 | the size computed from the last entry is the true size |
| HstoreOps.Concat | contrib/hstore/hstore_op.c:469-563 | the result is the packed map override; out of memory exactly when the operands are too large together |
| HstoreOps.DeleteHStore | contrib/hstore/hstore_op.c:369-466 | the result is the packed map without the pairs of the other |
| HstoreOps.FindKey | contrib/hstore/hstore_op.c:35-70 | the search from a carried bound finds the key exactly when the value has it, and its new bound is right for every larger key |
| HstoreOps.Contains | contrib/hstore/hstore_op.c:960-1005 | true exactly for a submap |
| HstorePairs.UniquePairs | contrib/hstore/hstore_io.c:355-402 | in place, the first pair of every key is left, and the length is that of their strings |
| HstorePairs.DistinctSorted | contrib/hstore/hstore_io.c:355-402 | what is left of an ascending list is strictly sorted |
| HstorePairs.DistinctKeys | contrib/hstore/hstore_io.c:355-402 | what is left comes from the list and has all its keys |
| HstorePairs.DistinctKeepsFirst | contrib/hstore/hstore_io.c:355-402 | of equal keys the first pair is the one left |
| HstorePairs.DistinctOfSorted | contrib/hstore/hstore_io.c:355-402 | a strictly sorted list stays as it is |
| HstorePairs.PackPairs | contrib/hstore/hstore_io.c:445-472 | the packed value of the list; out of memory exactly when it is too large |
| HstoreArray.ArrayToPairs | contrib/hstore/hstore_op.c:72-121 | from any array, with nulls and duplicates in any order, each text once and in order; an error exactly for too many elements |
| HstoreArray.DeleteArray | contrib/hstore/hstore_op.c:290-366 | for any array, the result is the packed map without the keys the array names, with each error in its case |
| HstoreArray.ExistsAny | contrib/hstore/hstore_op.c:160-191 | for any array, true exactly when the map has a key that it names |
| HstoreArray.ExistsAll | contrib/hstore/hstore_op.c:194-225 | for any array, true exactly when the map has every key that it names |
| HstoreCompare.HstoreCmp | contrib/hstore/hstore_op.c:1080-1156 | the code computes the order on lists |
| HstoreCompare.OrderExactly | contrib/hstore/hstore_op.c:1080-1156 | a value comes before another if and only if it is the empty one, or has the smaller strings, or the same strings and fewer pairs, or at the first entry that differs ends earlier or is not null |
| HstoreCompare.OrderZero | contrib/hstore/hstore_op.c:1080-1156 | it says equal for equal lists only |
| HstoreCompare.OrderAntisymmetric | contrib/hstore/hstore_op.c:1080-1156 | swapping the operands negates the result |
| HstoreCompare.OrderTransitive | contrib/hstore/hstore_op.c:1080-1156 | it is transitive, and so a total order |
| HstoreCompare.EncodeInjective | contrib/hstore/hstore.h:76-83 | different lists have different bytes |
| HstoreCompare.EqualityAgrees | contrib/hstore/hstore_op.c:1228-1250 | equal in the order, equal as maps and equal in the hashed bytes are the same |
| HstoreText.EscapedReads | contrib/hstore/hstore_io.c:92-205 | inside quotes the escaped form of a string reads as the string |
| HstoreText.NullReads | contrib/hstore/hstore_io.c:92-205 | the unquoted null is read up to a comma or the end |
| HstoreText.PairReads | contrib/hstore/hstore_io.c:214-323 | a printed pair is read as that pair, null and quoted "null" told apart |
| HstoreText.PrintedReads | contrib/hstore/hstore_io.c:214-323 | printed pairs are read back if and only if the array of pairs can hold them |
| HstoreGrammar.TokenReads | contrib/hstore/hstore_io.c:92-205 | a word, bare or in quotes, with escapes and any white space before it, is read with the characters it means, up to what ends it |
| HstoreGrammar.WrittenReads | contrib/hstore/hstore_io.c:214-323 | every text of the language is read as the pairs it means |
| HstoreGrammar.TokenWritten | contrib/hstore/hstore_io.c:92-205 | every word that is read was written that way |
| HstoreGrammar.ParseExactly | contrib/hstore/hstore_io.c:214-323 | the parser accepts a text and reads given pairs if and only if the text is of the language, means these pairs, and they are no more than the parser can hold |
| HstoreErrors.SyntaxIsFinal | contrib/hstore/hstore_io.c:214-323 | no continuation of a text with a syntax error is read |
| HstoreErrors.EndIsOpen | contrib/hstore/hstore_io.c:214-323 | a text that ended unexpectedly has a continuation that is read, but for the parser's limits |
| HstoreErrors.NeverTooLong | contrib/hstore/hstore_io.c:404-424 | the tests of key and value length never fail in the parser: its word buffer gives out first |
| HstoreErrors.ComplaintExactly | contrib/hstore/hstore_io.c:214-323 | a syntax error is reported if and only if no continuation of the text is read, an unexpected end if and only if the text is not and some continuation is |
| HstoreParser.HSParser.Resize | contrib/hstore/hstore_io.c:47-57 | the buffer grows while the allocator allows it and always has room for a byte and one behind it |
| HstoreParser.HSParser.GetValue | contrib/hstore/hstore_io.c:92-205 | the state machine over the pointer and the buffer computes the grammar, inside the text and the buffer |
| HstoreParser.HSParser.ParseHstore | contrib/hstore/hstore_io.c:214-323 | likewise for the pairs, with every error in its case |
| HstoreInOut.RoomFitsInt | contrib/hstore/hstore_io.c:1236-1256 | for every value that exists the computed buffer size is a positive 32-bit integer |
| HstoreInOut.Cpw | contrib/hstore/hstore_io.c:1207-1219 | the escaped string, in at most twice its length |
| HstoreInOut.HstoreOut | contrib/hstore/hstore_io.c:1222-1289 | the text of the pairs, written inside the buffer sized beforehand with its terminating zero; out of memory exactly by that size |
| HstoreInOut.HstoreIn | contrib/hstore/hstore_io.c:476-496 | the packed value of the distinct pairs of the text, or the parser's error |
| HstoreInOut.SortedPermutation | contrib/hstore/hstore_io.c:355-402 | sorting a strictly sorted list changes nothing |
| HstoreInOut.OutThenIn | contrib/hstore/hstore_io.c:1222-1289 | reading what was printed gives the same packed value if and only if it has at most 2^24 pairs |
| HstoreInOut.LargeValueExists | contrib/hstore/hstore_io.c:1222-1289 | a value of 2^24 + 1 pairs that exists in memory and can be printed |
| HstoreUpgrade.ValidOldFormat | contrib/hstore/hstore_compat.c:170-229 | the loops decide contiguity, growing keys and size; exact, with slop, or invalid |
| HstoreUpgrade.ValidNewFormat | contrib/hstore/hstore_compat.c:118-162 | the loops decide the structure of the new format, for any header and any memory |
| HstoreUpgrade.OldStrings | contrib/hstore/hstore_compat.c:212-218 | contiguous old entries describe exactly the beginning of the string area |
| HstoreUpgrade.ConvertEntries | contrib/hstore/hstore_compat.c:319-341 | overwriting each entry in place gives the new entries of the same list |
| HstoreUpgrade.UpgradeOld | contrib/hstore/hstore_compat.c:316-346 | every value the old test accepts becomes, in the same memory, exactly the packed value of its list |
| HstoreUpgrade.ConversionIsNewValid | contrib/hstore/hstore_compat.c:118-162 | the result passes the structural test of the new format with exact size |
| HstoreUpgrade.PackedIsNewValid | contrib/hstore/hstore_compat.c:118-162 | every packed value passes the source's own test of the format, with exact size |
| HstoreUpgrade.PaddedSize | contrib/hstore/hstore.h:143-147 | slop behind a value in the new format is cut off |
| HstoreUpgrade.ShortOldValue | contrib/hstore/hstore_compat.c:250-256 | a short old value is taken for new if and only if its first value is a null with a length field of 2^15 or more |
| HstoreUpgrade.TakenForNewIsWrong | contrib/hstore/hstore_compat.c:250-256 | a value whose first value is a null never begins with the packed value of its pairs |
| HstoreUpgrade.UpgradeIsExact | contrib/hstore/hstore_compat.c:235-347 | a valid old value becomes the packed value of its pairs if and only if it is not short with a null first whose length field is 2^15 or more |
| HstoreUpgrade.OldValueTakenForNew | contrib/hstore/hstore_compat.c:250-256 | a valid old value of one pair that is taken for new, with a size one byte past its memory |
| HstoreUpgrade.Upgrade | contrib/hstore/hstore_compat.c:235-347 | for any header word and memory, what a value is taken for, the count, size and memory it then has, and where the source looks behind the value |
| HstoreGist.CompressLeaf | contrib/hstore/hstore_gist.c:147-183 | a leaf key has exactly the bits of its keys and values |
| HstoreGist.CompressInner | contrib/hstore/hstore_gist.c:184-206 | all ones become the all-true mark and no bit changes |
| HstoreGist.Union | contrib/hstore/hstore_gist.c:296-334 | exactly the bits of the entries, also when it stops early |
| HstoreGist.HemDistCounts | contrib/hstore/hstore_gist.c:252-294 | the distance counts differing bits, whichever way all-true is written |
| HstoreGist.Consistent | contrib/hstore/hstore_gist.c:508-611 | the loops decide whether the key has the buckets of the query |
| HstoreGist.MatchPasses | contrib/hstore/hstore_gist.c:508-611 | every key above a matching row passes, for each kind of query |
| HstoreGist.PassesHasReason | contrib/hstore/hstore_gist.c:508-611 | a key passes only if some row with no buckets but the key's would match; all ones also pass a query that names nothing |
| HstoreGist.NoRowIsLost | contrib/hstore/hstore_gist.c:508-611 | a scan of a tree of any height reaches every matching row |
| HstoreGist.UnionIsSound | contrib/hstore/hstore_gist.c:296-334 | nodes made by union, or from a side of a split, keep the tree sound |
| HstoreGist.PickSeeds | contrib/hstore/hstore_gist.c:395-423 | the seeds are a pair of greatest distance among all entries but the last |
| HstoreGist.Deal | contrib/hstore/hstore_gist.c:446-497 | the loop over the sorted costs puts every entry on one side, each seed on its own, and each side's key has exactly the bits of its members and seed |
| HstoreGist.WishBalances | contrib/hstore/hstore_gist.c:77-77 | the correction favours the side with fewer entries, and neither of two equal sides |
| HstoreGist.PickSplit | contrib/hstore/hstore_gist.c:365-505 | every entry goes to exactly one side, both sides get some, and each key has exactly its side's bits |
| Cube.Union | contrib/cube/cube.c:746-805 | the least box around both after zero padding, a point exactly when it has no extent; the same datum twice is returned as it is |
| Cube.UnionAll | contrib/cube/cube.c:424-449 | the least box around all entries |
| Cube.HullEncloses | contrib/cube/cube.c:746-805 | the union encloses both arguments |
| Cube.HullIsLeast | contrib/cube/cube.c:746-805 | and everything that encloses both encloses it |
| Cube.Overlap | contrib/cube/cube.c:1193-1229 | true exactly when the extents meet in every dimension |
| Cube.OverlapIsInherited | contrib/cube/cube.c:1193-1229 | overlap with a member implies overlap with every key above |
| Cube.Distance1DIsGap | contrib/cube/cube.c:1502-1515 | the four-way comparison is the gap between the extents |
| Cube.Distance | contrib/cube/cube.c:1252-1395 | the loops over shared and remaining dimensions compute the distance |
| Cube.DistanceIs | contrib/cube/cube.c:1252-1395 | taxicab is the sum of the gaps, the square of Euclid the sum of their squares, and Chebyshev the greatest of them or 0 |
| Cube.OneGap | contrib/cube/cube.c:1252-1395 | boxes that are apart in one dimension only are that gap apart, or its square |
| Cube.DistanceIsLowerBound | contrib/cube/cube.c:1252-1395 | taxicab, squared Euclidean and Chebyshev distance of a key bound those of everything it encloses |
| Cube.CoordinateIsLowerBound | contrib/cube/cube.c:1397-1475 | so does the coordinate, straight or inverted, of an inner key |
| Cube.CoordinateIsAttained | contrib/cube/cube.c:1397-1475 | and some box under the key attains it |
| Cube.LeafCoordinate | contrib/cube/cube.c:1397-1475 | on a leaf the coordinate is the lower or upper bound of its dimension, after zero padding, or its negation |
| Cube.UnionIsSound | contrib/cube/cube.c:424-449 | a node whose key is the union of its children's keeps the tree sound |
| Cube.KeyBoundsEverythingBelow | contrib/cube/cube.c:1397-1500 | in a tree of any height, pruning by overlap with a key and ordering by it never pass over a box below it |
| CubeOrder.CubeCmp | contrib/cube/cube.c:936-1010 | the loops compute the order by the bounds of the shared dimensions, then of the others against 0, then by the number of dimensions |
| CubeOrder.CompareIsExact | contrib/cube/cube.c:936-1010 | turning the pair round turns the sign, and the result is 0 exactly for boxes of the same extent and dimension |
| CubeOrder.OrderWithin | contrib/cube/cube.c:936-1010 | among boxes of one dimension and empty ones the comparison is transitive |
| CubeOrder.CompareCycle | contrib/cube/cube.c:936-1010 | for any two dimensions above 0 there are three boxes, each before the next and the last before the first |
| CubeOrder.TransitiveExactly | contrib/cube/cube.c:936-1010 | for any set of dimensions, the comparison is transitive on the boxes of these dimensions if and only if at most one of them is above 0 |
| CubeSearch.ContainsBox | contrib/cube/cube.c:1123-1159 | true exactly when the second box lies in the first in each of its own dimensions |
| CubeSearch.ContainsIsEncloses | contrib/cube/cube.c:1123-1159 | this is enclosing, with 0 in missing dimensions, if and only if the container spans 0 in the dimensions the other lacks |
| CubeSearch.Consistent | contrib/cube/cube.c:389-419 | the test of an entry, on a leaf what satisfies the strategy, above what lets a scan descend |
| CubeSearch.SatisfyingIsKept | contrib/cube/cube.c:708-732 | for every strategy but one, a key above a box that satisfies the query lets the scan descend |
| CubeSearch.DescendsHasReason | contrib/cube/cube.c:708-732 | a scan descends only where some box under the key would satisfy the query; for equality, would contain it |
| CubeSearch.OverlapInExcess | contrib/cube/cube.c:708-732 | a key above a contained box overlaps the query if and only if it does so in the dimensions in which the query exceeds the box |
| CubeSearch.SearchIsExact | contrib/cube/cube.c:677-732 | a scan of a tree of any height for any strategy but contained-by returns exactly the boxes that satisfy the query |
| CubeSearch.FoundSatisfies | contrib/cube/cube.c:677-732 | whatever a scan for any strategy returns is in the tree and satisfies the query |
| CubeSearch.ContainedSearchExact | contrib/cube/cube.c:677-732 | a contained box is found in every tree that holds it if and only if the query spans 0 in the dimensions in which it exceeds the box |
| CubeSearch.ContainedBoxIsMissed | contrib/cube/cube.c:677-732 | a point contained in a box that a scan does not reach |
| CubeSearch.ContainedSearchOfFullBoxes | contrib/cube/cube.c:677-732 | where no box has fewer dimensions than the query, this search is exact, too |

## Left out

- btree_gist: the byte layout of stored keys, the conversion of bit strings to their inner form, collation-aware types (they do not truncate), penalties.
- bloom: reloption parsing, cost estimates, free-space-map internals beyond the set of pages it may return, crash recovery of generic WAL.
- amcheck, B-trees: comparison of keys and high keys, posting lists, uniqueness, races without the readonly lock, and the metapage's own fields; walks that may not end take a number of rounds.
- amcheck, heap: tuple headers, visibility rules, update chains, multixacts.
- hstore: single-key deletion and slices, which repeat the merges and searches above with one key or with the results in an array; record and array conversions, binary input and output, JSON, the GIN opclass and subscripting, which are loops around these operations and around types outside the extension; `needfree` bookkeeping; the message texts.
- cube: parsing, subset and enlargement, penalty and picksplit; rounding, infinities and NaN of doubles, and the square root; the coordinate number -2^31, whose negation overflows.
- BtreeGistVar.SearchIsExact: does not include keys made by splitting inner pages of which a member was outgrown, because for those what it rests on is false (`SideCoversExact`, `InnerSplitCanLoseAValue`).
- NbtreeCheck.BtreeCheckState.ChildHighkeyCheck: does not compare the high key of each child with the pivot key of its parent; the indexes shown to pass or to go on are such that these tests say nothing, as is said beside each.
- NbtreeCheck.BtreeCheckState.TargetPageCheck: does not compare keys with each other, with the high key or with the right sibling, and of the items keeps the downlinks.
- HstorePairs.UniquePairs: does not order pairs of equal keys by `needfree`; which of several equal keys comes first is up to `qsort`.
- HstoreUpgrade.Upgrade: models little-endian entries with the null flag in the lowest bit; what lies behind a value is not part of its memory, so that reading there is a result of its own.
