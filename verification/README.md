# VoidFrame, modelled and proved in Dafny

This project models the parts of the VoidFrame kernel whose behaviour has an
exact meaning, and proves that meaning for every input, every state or every
run, or says exactly where the code departs from it. `dafny verify dfyconfig.toml` checks all of it.

| area | files | main results |
|---|---|---|
| Physical frames (`mm/PMem.c`) | `Words`, `FrameBitmap`, `PMem` | The word-wise bitmap operations are set operations on frames, in 64-bit arithmetic; the counter is the cardinality of the used set in every state, the hint-then-wrap search is sound and complete, and 2 MB allocation finds the lowest room there is |
| Page tables (`mm/VMem.cpp`) | `Sets`, `PageTable`, `PageRanges`, `MissingTables`, `VMemStates`, `VMem` | The four-level tables stay a tree and refine a flat map from page to frame; no failing call changes a translation; an unmap removes exactly its range if and only if it cuts no 2 MB page; what is mapped is what is translated, byte by byte; allocation is all or nothing and spends one frame for each page and for each table missing |
| Ext2 directories (`fs/EXT/Ext2.c`) | `Ext2Block`, `Ext2` | Records tile their blocks, insertion adds one link and removal takes one away; removal undoes insertion, which lookups each changes is stated, and lookups return the bytes on disk |
| RAM file system (`fs/VFRFS.c`) | `NodePool`, `Subtrees`, `TreeWalk`, `SiblingNames`, `Vfrfs` | The node pool is a tree after every create, delete and recursive delete; recursive delete ends and frees exactly the subtree; a new directory hides nothing, when its own path finds it is decided, and deleting it again restores every lookup |
| Path text (`fs/FsUtils.h`) | `Paths`, `PathResolver` | The in-place normaliser never overwrites unread input and computes split, stack fold and join; the normal form is idempotent, looking it up finds the node the path itself finds, also from a working directory, and when a relative path resolves to its own normal form is decided |
| FAT12 (`fs/FAT/FAT1x.c`) | `Fat12`, `FatFile` | Packed entries are independent although neighbours share a byte; chain freeing ends on every table, clears exactly the clusters reached and undoes a write; what a multi-cluster write leaves behind, also when it fails, and when it reads back |
| NVMe queues (`drivers/storage/NVMe.c`) | `Nvme` | In every run, over any number of ring wraps, the phase tag tells a new completion from an old one, a submit gives up exactly when none is pending, and the k-th submit returns the completion as many places back as earlier submits timed out; no unread command is lost exactly as long as submits leave a slot free, for which the number of timeouts allowed is sharp |
| Algorithms | `Crc32`, `Sha256`, `Rtc`, `Divisors`, `Line` | Table CRC-32 equals the bit-serial definition and leaves a constant residue; streamed SHA-256 is the FIPS 180-4 hash however the message is cut; setting the clock and reading it back is exact below a stated year; the line loop hits both ends with the nearest pixels, and the lines whose error term fits 32 bits are those of a closed form in the greatest common divisor of the sides |

Machine words are natural numbers with their width in the type, and bitwise
operators are recursive functions on them, so that masks, counters and packed
fields are reasoned about as numbers. References into fixed pools (frames, nodes,
clusters) are slot numbers. Code that updates memory in place is a class or an
array method here, and each such method is proved against functions or
predicates on values; the lemmas beside them are about those.

## Where the code departs from its intent

Each is stated as an exact condition on the input or the state before the call.
Where the condition alone does not show a failing input, a lemma gives one.

- An unmap that covers only part of a 2 MB page cannot remove exactly its range: the page stays, the rest of the range goes (`VMemUnmap`, `HugePageIsCut`).
- A 4 KB map inside a 2 MB page takes the page's own memory for a table: it reports success and overwrites a word there, or "already mapped" when that word has its present bit set, or no memory when the page is at frame 0; the translation stays (`VMemMap`, `InsideHuge`).
- A 2 MB map is refused where an unmap left an empty table, although none of its pages is mapped (`VMemMapHuge`, `EmptyTableBlocks`).
- Flag words passed to the mapping calls are or-ed in whole, so address bits in them move the frame (`FlagsKeepFrame`).
- A table frame is refused although low frames are free: a frame at or above the identity limit is given back, which moves the hint back to it, so all 32 attempts meet the same frame (`FoundAgain`, `AllocIdentityPageTable`, `FutileRetry`).
- An empty range that starts on a word boundary is treated as two whole words by the range operations, so allocating and freeing zero huge pages does not restore the bitmap (`SpanIsRange`, `AllocThenFreeHuge`, `EmptyRequestMarks`).
- The huge-page count is multiplied in 64 bits: freeing 2^55 huge pages at 2 MB passes the bounds test and clears 128 frames (`AskedIsTouched`, `WrappedRequest`, `WrappedIsAccepted`).
- Deleting an Ext2 file goes by inode: if another name is linked to it earlier in the directory, that name goes and the deleted one stays (`DeleteName`, `SecondNameStays`).
- A FAT write of more than one cluster searches for the next cluster before it marks the current one; the file reads back exactly when one cluster is enough (`WriteThenRead`).
- A FAT write that fails for lack of clusters leaves every free cluster in a chain that ends in a loop (`WriteBlocks`, `FailureLoses`).
- The lookup of the RAM file system splits a component of more than 63 characters into several steps (`ChunksAreComponents`, `LongNameIsCut`).
- A directory made as "." or ".." or under a name of more than 62 characters is created, but its path does not find it (`Mkdir`, `MkdirFinds`, `HiddenDirectory`).
- File names longer than 62 characters are cut after the duplicate check, so siblings may end up with one name. Only a direct call of FsCreateNode can do it: both of its callers pass names that are already cut (`LinkDistinct`, `LongNamesCollide`, `Mkdir`).
- The path resolver overwrites the first byte of a path that is not absolute, and an empty path in an empty directory resolves to the result of the call before (`OutputIsNormal`, `RelativeLosesFirst`, `EmptyRepeats`, `RepeatsName`).
- The clock loses the century from year 16000 on in BCD mode and from 25600 on in binary mode (`SetThenGet`).
- In 12-hour format the clock's afternoon flag is tested after BCD decoding has lost it, and noon and midnight are not adjusted (`HourIsRight`, `AfternoonIsLost`).
- After a timeout, NVMe submits return the status of an earlier command (`AnswersAreShifted`, `LateAnswer`).
- An NVMe submit into the last free slot makes the full ring look empty to the controller; this takes timeouts, at least one less than the ring has slots, and that many are enough (`SubmitIntact`, `FullLooksEmpty`, `FewTimeoutsSpaced`, `TimeoutsFillRing`).
- A line so long that its error term leaves 32 bits is drawn wrong; a horizontal one leaves its axis at the first turn from 2^30 pixels on (`FitIsExact`, `AxisLimit`, `LongLineLeaves`).

## Model

| member | source | states |
|---|---|---|
| Words.FindFirstFreeBit | mm/PMem.c:77-80 | -1 exactly for a full word, otherwise the lowest clear bit |
| FrameBitmap.TotalUpdate | mm/PMem.c:353-396 | replacing a word changes the number of set bits by the difference of the two population counts |
| FrameBitmap.TotalIsCardinality | mm/PMem.c:35-63 | the sum of the population counts is the number of used pages |
| FrameBitmap.SamePagesSameBitmap | mm/PMem.c:443-496 | two bitmaps of one size with the same used pages are equal word for word |
| FrameBitmap.OrMask | mm/PMem.c:353-396 | or-ing a mask into a word marks exactly the pages the mask selects |
| FrameBitmap.AndNotMask | mm/PMem.c:398-441 | clearing a mask in a word frees exactly the pages the mask selects |
| FrameBitmap.MaskedZero | mm/PMem.c:324-351 | a masked word is zero exactly when every selected page is free |
| FrameBitmap.BothSelect | mm/PMem.c:334-336 | the and of the two edge masks selects the pages from the first to the last |
| PMem.SpanIsRange | mm/PMem.c:324-351 | the pages touched by a range operation are the range exactly when it does not wrap past 2^64 or, if empty, starts inside a word |
| PMem.AskedIsTouched | mm/PMem.c:471-496 | the pages a huge-page call touches are those asked for exactly when the 64-bit count and sum do not wrap |
| PMem.WrappedRequest | mm/PMem.c:471-496 | 2^55 huge pages count as none, and at 2 MB that touches frames 448 to 575 |
| PMem.EmptyRequestMarks | mm/PMem.c:443-469 | in a concrete empty bitmap a request for no pages finds room and its span is 128 frames |
| PMem.FirstFreeMeans | mm/PMem.c:264-316 | the frame the search is specified by is the lowest free one in its range, if any |
| PMem.SpanByWords | mm/PMem.c:324-351 | the pages masked word by word are the pages of the span, in the one-word and the many-word path |
| PMem.FrameAllocator.CounterIsExact | mm/PMem.c:35-63 | in every valid state the counter is the number of used frames, all below the page total |
| PMem.FrameAllocator.constructor | mm/PMem.c:197-235 | after start-up exactly the low megabyte and the reserved pages are used |
| PMem.FrameAllocator.MarkPageUsed | mm/PMem.c:35-48 | adds one frame to the used set, out-of-range pages excepted, and counts it once |
| PMem.FrameAllocator.MarkPageFree | mm/PMem.c:50-63 | takes one frame from the used set and counts it once |
| PMem.FrameAllocator.IsPageFree | mm/PMem.c:65-74 | true exactly for frames below the total that are not used |
| PMem.FrameAllocator.AllocPage | mm/PMem.c:242-321 | NULL exactly when the out-of-memory guard fires or nothing at or above 1 MB is free, whatever the hint; otherwise the lowest free frame from the hint's word on, else from 1 MB on, is now used and nothing else changed |
| PMem.FrameAllocator.Search | mm/PMem.c:264-316 | the two loops together find a free frame if there is one |
| PMem.FrameAllocator.SearchUp | mm/PMem.c:272-295 | the first loop fails exactly when everything from the hint's word on is used |
| PMem.FrameAllocator.SearchLow | mm/PMem.c:297-316 | the second loop fails exactly when everything from 1 MB to the hint's word is used |
| PMem.FrameAllocator.FreePage | mm/PMem.c:499-538 | frees exactly the addressed frame; NULL, unaligned, out-of-range and repeated frees change nothing; the hint moves back to a lower frame freed |
| PMem.FrameAllocator.RangeIsFree | mm/PMem.c:324-351 | true exactly when the end of the range, in 64 bits, lies in memory and every page of its span is free |
| PMem.FrameAllocator.RangeSetUsed | mm/PMem.c:353-396 | the used set gains exactly the span, and the counter stays exact even where the span leaves memory |
| PMem.FrameAllocator.RangeSetFree | mm/PMem.c:398-441 | the used set loses exactly the span, and the counter stays exact |
| PMem.FrameAllocator.AllocHugePages | mm/PMem.c:443-469 | NULL exactly when no 2 MB boundary from 2 MB up has room; otherwise the lowest such run is now used and taking it away gives the old used set; a valid state results except for an empty request in the last word |
| PMem.FrameAllocator.FreeHugePages | mm/PMem.c:471-496 | a request is accepted exactly when it is not NULL, not empty, aligned and ends in memory in 64 bits; then the used set loses exactly its span, otherwise nothing changes |
| PMem.FrameAllocator.WrappedIsAccepted | mm/PMem.c:471-496 | the wrapping request passes every check of the call |
| PMem.FrameAllocator.AllocThenFreeHuge | mm/PMem.c:443-496 | the pair restores bitmap and counter exactly when at least one page was asked for or no boundary had room before |
| PageTable.LinkedOnce | mm/VMem.cpp:541-562 | in a tree of tables no table is linked from two slots |
| PageTable.OnTree | mm/VMem.cpp:541-562 | the table met at a level is a table of that level hanging where the path says |
| PageTable.SameTableSamePrefix | mm/VMem.cpp:541-562 | addresses that meet the same table agree on every index above it |
| PageTable.WriteLeafTree | mm/VMem.cpp:100-107 | writing an entry that is not a link over one that is not keeps the tree |
| PageTable.WriteLeafOn | mm/VMem.cpp:100-107 | such a write changes the translation of a path exactly when the path goes through the slot |
| PageTable.ZeroKeeps | mm/VMem.cpp:516-531 | clearing a frame that is not a table keeps tree and translations |
| PageTable.StrayKeeps | mm/VMem.cpp:308-316 | writing a word of a frame that is not a table keeps tree and translations |
| PageTable.LinkTree | mm/VMem.cpp:548-559 | linking an empty table keeps the tree |
| PageTable.LinkWalk | mm/VMem.cpp:548-559 | linking an empty table changes no translation |
| PageTable.LinkEntryFields | mm/VMem.cpp:557 | a link entry is present, not large, and names its frame |
| PageTable.MapEntryFields | mm/VMem.cpp:104 | a mapping entry is present and names the or of the frames in address and flags |
| PageTable.EntryBits | mm/VMem.cpp:104 | bit by bit below the address: a link is present and writable, a mapping has the caller's flags and is present |
| PageTable.FlagsKeepFrame | mm/VMem.cpp:104 | the mapped frame is the caller's exactly when the flag word has no address bit outside it |
| PageTable.PathIdentity | mm/VMem.cpp:545-546 | two pages share their four indices exactly when they agree below bit 48 |
| PageRanges.PartialIsImpossible | mm/VMem.cpp:273-321 | if a 2 MB page is only partly in the range, no clearing of words removes exactly the range |
| PageRanges.RemoveBlock | mm/VMem.cpp:295-303 | skipping 512 pages over a removed 2 MB page removes exactly those pages |
| PageRanges.MeetsAtBase | mm/VMem.cpp:295-303 | a 2 MB page that lies wholly in the range is met at its first page with room for all of it |
| PageRanges.MeetsCut | mm/VMem.cpp:282-303 | a 2 MB page that is cut is met as it was and never passes the test for a whole block |
| PageRanges.ButIsRemoved | mm/VMem.cpp:273-321 | if no 2 MB page is cut, what the loop removes is exactly the range |
| MissingTables.LinkOpens | mm/VMem.cpp:548-559 | linking a new table adds its place, and no other, to those where a table is found |
| MissingTables.MissingAfter | mm/VMem.cpp:143-164 | creating the tables of one page takes exactly the places it lacked from those the range lacks |
| VMemStates.PageEntryWrite | mm/VMem.cpp:100-107 | writing a last-level entry changes the translation of its page and of no other |
| VMemStates.DirectoryWrite | mm/VMem.cpp:130-140 | writing a directory entry changes the translation of the 512 pages of its block and of no other |
| VMemStates.AdoptFrame | mm/VMem.cpp:548-559 | clearing and linking a free frame grows the tree, changes no translation and takes that frame only |
| VMemStates.LookUpsWalk | mm/VMem.cpp:243-271 | the code's lookups compute the translation of a sound tree |
| VMemStates.AssembleIsSum | mm/VMem.cpp:255-270 | or-ing the offset in gives frame address plus offset, for 4 KB and 2 MB pages |
| VMemStates.AssembleMeans | mm/VMem.cpp:255-270 | in plain numbers: 4096 times the frame plus the low 12 bits, or the 2 MB base plus the low 21 bits |
| VMemStates.PageCount | mm/VMem.cpp:276-279 | the rounded page count, in 64-bit arithmetic up to the end of the address space, is the number of pages touched |
| VMemStates.TouchedMeans | mm/VMem.cpp:276-279 | a page is counted exactly when some byte of the range lies in it |
| VMemStates.RoundedUp | mm/VMem.cpp:145 | a size is rounded up to the next multiple of 4096 |
| VMemStates.PageAddress | mm/VMem.cpp:282-296 | the loop's address and its two tests on 2 MB pages say what they mean for the i-th page |
| VMemStates.BackedThenFreed | mm/VMem.cpp:157-164 | freeing the whole range after a partial allocation restores every translation and leaves only new tables in use |
| VMemStates.SpentMore | mm/VMem.cpp:157-164 | after every page, frames spent and tables still missing add up to the frames of the pages done and the tables missing at the start |
| VMemStates.SpentShort | mm/VMem.cpp:157-164 | if the next page cannot be had, the frames were too few for the whole range |
| VMemStates.HugePageIsCut | mm/VMem.cpp:295-316 | a concrete sound state in which one page inside a 2 MB page cannot be removed alone |
| VMemStates.InsideHuge | mm/VMem.cpp:95-107 | in that state a map inside the 2 MB page finds a free word at frame 512 |
| VMemStates.HugeAddress | mm/VMem.cpp:257-260 | in that state address 0x258000 leads to physical address 0x258000 |
| VMemStates.EmptyTableBlocks | mm/VMem.cpp:133-135 | a concrete sound state in which 512 pages are unmapped and their directory entry is taken |
| VMemStates.FoundAgain | mm/VMem.cpp:516-531 | after a frame is given back the search finds it again, unless it was the last frame, when it finds the lowest free one |
| VMemStates.FutileRetry | mm/VMem.cpp:516-531 | a concrete bitmap in which no table frame is found although the frame at 1 MB is free and below the limit |
| VMem.WindowEdges | mm/VMem.cpp:482-487 | the first and last address of each canonical window |
| VMem.AddressSpace.constructor | mm/VMem.cpp:41-70 | adopts a sound tree of tables |
| VMem.AddressSpace.TakeTableFrame | mm/VMem.cpp:516-529 | the 32 attempts fail exactly when the guard fires, memory is full, or the frame found from the hint lies at or above the limit (if it is the last frame: the lowest free one does); the frame taken is named |
| VMem.AddressSpace.AllocIdentityPageTable | mm/VMem.cpp:516-531 | that frame, cleared; 0 exactly when there is none, and then nothing changed |
| VMem.AddressSpace.EnsureTable | mm/VMem.cpp:541-562 | the next table is found or created in one frame; it fails only when no table frame can be had, or inside a 2 MB page of frame 0; translations and tree are kept and only new tables take frames |
| VMem.AddressSpace.GetPhysAddr | mm/VMem.cpp:243-271 | the physical address in plain numbers for unmapped, 4 KB and 2 MB pages: 0, the frame with the low 12 bits, or the 2 MB base with the low 21 bits |
| VMem.AddressSpace.VMemMap | mm/VMem.cpp:72-108 | alignment and address errors exactly under their conditions; out of memory exactly when the path still lacks a table, and then no table frame can be had; failure changes no translation; success outside 2 MB pages updates the flat map at one page and nowhere else, and takes one frame for each table lacked; inside a 2 MB page: no memory exactly at frame 0, already mapped exactly when the word taken for an entry is present, otherwise success, with that word overwritten and the translation kept |
| VMem.AddressSpace.VMemMapHuge | mm/VMem.cpp:110-141 | alignment and address errors exactly under their conditions; out of memory exactly when the path still lacks a directory, and then no table frame can be had; already mapped exactly when the directory entry leads to a table, empty or not, or to a 2 MB page; failure changes no translation; success maps 512 unmapped pages and no other |
| VMem.AddressSpace.MapThenTranslate | mm/VMem.cpp:72-108 | after a successful map outside 2 MB pages, with no address bits in the flags, every byte of the page translates to the same byte of the frame |
| VMem.AddressSpace.MapHugeThenTranslate | mm/VMem.cpp:110-141 | the same for each of the 2 MB of a large page |
| VMem.AddressSpace.UnmapAt | mm/VMem.cpp:282-317 | one turn of the loop removes one page, or a whole block when the range covers it, or nothing from a 2 MB page that is cut |
| VMem.AddressSpace.VMemUnmap | mm/VMem.cpp:273-321 | exactly the touched pages lose their translation if and only if no 2 MB page is cut; where some are, their pages stay and the rest of the range goes, with the tables the same tree, unless a cut page starts in the frame of a table |
| VMem.AddressSpace.VMemFree | mm/VMem.cpp:178-200 | the range is unmapped and exactly the frames behind it are given back |
| VMem.AddressSpace.VMemAlloc | mm/VMem.cpp:143-176 | an allocation needs one frame for each page and for each table missing on the range: with that many free frames, all of them below the identity limit, it cannot fail at a valid address, and with fewer it cannot succeed; on success exactly that many are taken and every page has its own frame that was free; on failure every translation is as before and only new tables hold frames |
| Ext2Block.TiledJoin | fs/EXT/Ext2.c:360-373 | adjoining tilings make one tiling with the records in order |
| Ext2Block.SameRecords | fs/EXT/Ext2.c:360-373 | records depend on their own bytes only |
| Ext2Block.RecordBytes | fs/EXT/Ext2.h:94-100 | a record is its bytes, packed and little-endian: four for the inode, two for the length, one each for name length and file type, then the name |
| Ext2Block.LookupBytes | fs/EXT/Ext2.c:360-373 | the lookup returns the four inode bytes of the first live record with the name |
| Ext2Block.OneEntryFound | fs/EXT/Ext2.c:360-373 | in a literal block the name is found with inode 12 |
| Ext2Block.FindInBlock | fs/EXT/Ext2.c:360-373 | the inode of the first live record with the name, by its first 255 bytes |
| Ext2Block.FindLast | fs/EXT/Ext2.c:758-767 | the record that ends the block |
| Ext2Block.SplitLast | fs/EXT/Ext2.c:769-784 | splitting the last record keeps the tiling and appends one record |
| Ext2Block.InsertInBlock | fs/EXT/Ext2.c:752-792 | succeeds exactly when the last record can give up enough bytes; then the tiling is kept, the links gain the new one at the end, the entry with its file type is written out last, and every other record stays, the one before it shorter |
| Ext2Block.FillBlock | fs/EXT/Ext2.c:803-809 | a new block is tiled by one record with the new link, written out with its file type |
| Ext2Block.MergeNext | fs/EXT/Ext2.c:1170-1172 | merging a record into the one before keeps the tiling and drops the record |
| Ext2Block.ClearFirst | fs/EXT/Ext2.c:1173-1175 | marking the first record unused keeps the tiling and changes nothing else |
| Ext2Block.RemoveFromBlock | fs/EXT/Ext2.c:1165-1184 | finds the inode exactly when it is linked, removes its first link and keeps the tiling |
| Ext2.InsertLookup | fs/EXT/Ext2.c:729-824 | after an insertion an absent name is found with the new inode and every other lookup is unchanged |
| Ext2.InsertThenRemove | fs/EXT/Ext2.c:729-824 | removing an inode no other link had gives back the links from before its insertion |
| Ext2.RemoveLookup | fs/EXT/Ext2.c:1160-1185 | deleting by inode changes no other name's lookup, and makes the first linked name absent exactly when no other link has that name |
| Ext2.OtherNameIsRemoved | fs/EXT/Ext2.c:1160-1185 | if the inode is linked earlier under another name, the name deleted is still found and the other link is gone |
| Ext2.DeleteName | fs/EXT/Ext2.c:1160-1185 | after deleting a name it is absent exactly when the first link with its inode has that name and no other link has it |
| Ext2.SecondNameStays | fs/EXT/Ext2.c:1160-1185 | a concrete directory with two names of one inode, where deleting the second removes the first |
| Ext2.Directory.FindInDir | fs/EXT/Ext2.c:340-379 | the lookup over the direct blocks in order, skipping missing and unreadable ones |
| Ext2.Directory.AddDirEntry | fs/EXT/Ext2.c:729-824 | succeeds exactly when a block has room or a slot and a usable new block exist; adds one link, whose bytes, file type included, end one of the blocks, and keeps every block tiled; failure changes nothing |
| Ext2.Directory.GrowDirectory | fs/EXT/Ext2.c:794-819 | the new-block path succeeds exactly when a slot is empty and the new block can be written |
| Ext2.Directory.RemoveEntry | fs/EXT/Ext2.c:1160-1185 | removes the first link with the inode, reports whether there was one, and keeps every block tiled |
| NodePool.LinkTree | fs/VFRFS.c:105-126 | linking a new last child keeps the pool a tree with both-way sibling lists and the last-child link at the tail |
| NodePool.CutForest | fs/VFRFS.c:301-319 | unlinking a node leaves the rest a tree beside it |
| Subtrees.LiveIsReachable | fs/VFRFS.c:31-50 | in every tree state the allocated slots are exactly those below the root |
| Subtrees.UnderUnique | fs/VFRFS.c:346-361 | subtrees at one level are disjoint |
| Subtrees.SubtreeSplits | fs/VFRFS.c:346-361 | a subtree is its node and the subtrees of its children |
| Subtrees.FreeTree | fs/VFRFS.c:346-361 | freeing the unlinked subtree leaves a tree with free slots cleared |
| Subtrees.PruneTree | fs/VFRFS.c:368-381 | removing a node with all below it keeps the pool a tree |
| Subtrees.PruneLive | fs/VFRFS.c:368-381 | exactly the nodes of the subtree are freed, and the others keep name, kind and parent |
| Subtrees.LeafSubtree | fs/VFRFS.c:321-331 | a node without children is its own subtree |
| SiblingNames.LinkDistinct | fs/VFRFS.c:98-109 | sibling names stay distinct exactly when the name as stored is new |
| SiblingNames.CutDistinct | fs/VFRFS.c:301-361 | deletions keep sibling names distinct |
| TreeWalk.WalkFold | fs/VFRFS.c:129-180 | going up by parent links agrees with popping a name |
| TreeWalk.ChunksAreComponents | fs/VFRFS.c:146-151 | the lookup cuts a path at its slashes exactly when every component fits its 63-character buffer |
| TreeWalk.LongNameIsCut | fs/VFRFS.c:146-151 | a name of 64 characters is looked up as two |
| TreeWalk.NormalFindsSame | fs/VFRFS.c:129-180 | if a path finds a node, its lexical normal form finds the same node, in every tree whose names fit their fields |
| TreeWalk.RelativeFindsSame | fs/VFRFS.c:129-180 | if a directory finds a node and a path finds another from there, the joined names of both find it too |
| TreeWalk.WalkGrows | fs/VFRFS.c:93-127 | what a path found, it still finds after a node is created |
| Vfrfs.FileSystem.constructor | fs/VFRFS.c:77-91 | a tree of one empty root directory |
| Vfrfs.FileSystem.AllocNode | fs/VFRFS.c:31-41 | fails exactly when no slot is free; otherwise a free slot gets the next identifier |
| Vfrfs.FileSystem.CreateNode | fs/VFRFS.c:93-127 | refused exactly for a bad parent, an empty or taken name or a full pool; otherwise a tree again, with one node more |
| Vfrfs.FileSystem.Find | fs/VFRFS.c:129-180 | the node the components lead to, ".." by parent links |
| Vfrfs.FileSystem.UnlinkNode | fs/VFRFS.c:301-319 | the neighbours, or the parent at either end, are joined around the node |
| Vfrfs.FileSystem.DeleteRecursiveI | fs/VFRFS.c:346-361 | ends, and clears exactly the subtree |
| Vfrfs.FileSystem.Delete | fs/VFRFS.c:321-331 | succeeds exactly for a node that is found, is not the root and has no children; removes it alone and keeps the tree |
| Vfrfs.FileSystem.DeleteRecursive | fs/VFRFS.c:368-381 | succeeds exactly for a found node other than the root, removes it with all below it and keeps the tree |
| Vfrfs.FileSystem.FindParent | fs/VFRFS.c:392-424 | the node of everything before the last slash and the name after it, for absolute paths without a trailing slash |
| Vfrfs.FileSystem.Mkdir | fs/VFRFS.c:292-299 | succeeds exactly when the directory part is a directory without the name as stored and a slot is free; then every path that found a node still finds it, and the path itself finds the new directory exactly when its last name is neither "." nor ".." and has at most 62 characters; failure changes nothing; sibling names stay distinct |
| Vfrfs.MkdirFinds | fs/VFRFS.c:129-180 | afterwards the path finds nothing if its last name is too long, the new node if the name can be matched, and what it found before if it is "." or ".." |
| Vfrfs.HiddenDirectory | fs/VFRFS.c:292-299 | on a fresh file system every such name is accepted and the directory made is not found |
| Vfrfs.FileSystem.MkdirThenDelete | fs/VFRFS.c:292-331 | deleting a directory just made succeeds and leaves every node and every lookup as before |
| Vfrfs.LongNamesCollide | fs/VFRFS.c:93-127 | two direct creations under names of 63 characters that differ in the last leave two siblings of one name |
| Vfrfs.WalkSurvives | fs/VFRFS.c:321-381 | a path of names to a node outside a removed subtree still leads there |
| Vfrfs.RemovedIsGone | fs/VFRFS.c:321-381 | no path leads to a removed node |
| Vfrfs.ResolveFindsSame | fs/FsUtils.h:177-306 | resolving an absolute path against "/" and looking the result up finds the same node |
| Vfrfs.FindFrom | fs/FsUtils.h:177-306 | resolving a path in a working directory and looking the result up finds what walking from that directory finds, and an absolute path finds what it finds itself |
| Paths.ComponentsOfJoin | fs/FsUtils.h:250-256 | splitting a joined path gives back its names |
| Paths.NormalIsNormal | fs/FsUtils.h:220-296 | the normal form has a leading slash, only names, and no trailing slash |
| Paths.NormalIdempotent | fs/FsUtils.h:220-296 | normalising twice is normalising once |
| Paths.NormalFits | fs/FsUtils.h:220-296 | the normal form of an absolute path is never longer than the path |
| Paths.FoldAbove | fs/FsUtils.h:234-257 | a name at the bottom of the stack stays unless the components after it unwind past it |
| Paths.LostCharacter | fs/FsUtils.h:224-225 | losing the first character leaves the normal form exactly when the first name contributes the same without it or is popped by what follows |
| Paths.NamesOfBoth | fs/FsUtils.h:198-216 | a directory, a slash and a relative path lead through the names of the directory and then those of the path |
| PathResolver.OutputIsNormal | fs/FsUtils.h:187-228 | the output is the normal form of the full path exactly when that path is absolute, its first name makes no difference or is popped later, or it is empty and the result before was the root |
| PathResolver.EmptyRepeats | fs/FsUtils.h:184-228 | an empty path in an empty directory resolves to the result before, which is right exactly when that was the root |
| PathResolver.RepeatsName | fs/FsUtils.h:184-228 | after "/a" the empty path resolves to "/a" |
| PathResolver.AbsoluteIsKept | fs/FsUtils.h:187-228 | an absolute full path is normalised as it is, whatever the buffer held |
| PathResolver.RelativeNames | fs/FsUtils.h:187-218 | a relative path in an absolute directory that fits resolves to the names of the directory folded with its own |
| PathResolver.HomeDocs | fs/FsUtils.h:198-216 | "docs" in "/home" is "/home/docs" and ".." there is "/" |
| PathResolver.RelativeLosesFirst | fs/FsUtils.h:224-225 | a concrete relative path whose output loses its first character |
| PathResolver.ResolveIdempotent | fs/FsUtils.h:177-306 | resolving a resolved path changes nothing, whatever the working directory |
| PathResolver.Resolver.constructor | fs/FsUtils.h:184 | the static buffer starts as NULs and so stands for the root |
| PathResolver.Resolver.FillWork | fs/FsUtils.h:187-218 | the buffer holds the working directory, a separator when needed and the input, cut to its size |
| PathResolver.Resolver.PopName | fs/FsUtils.h:242-249 | backing up over ".." removes the last name written |
| PathResolver.Resolver.ApplyComponent | fs/FsUtils.h:234-257 | a component is skipped, popped or appended, and no byte past the component's own end is touched |
| PathResolver.Resolver.Normalize | fs/FsUtils.h:220-296 | the in-place rewriting computes the normal form of the text as it was before |
| PathResolver.Resolver.ResolvePathH | fs/FsUtils.h:177-306 | the output is the normal form, cut to the output buffer and terminated: for a relative path the names of the working directory folded with its own, for an absolute one its own; the static buffer is left holding it |
| Fat12.EntrySet | fs/FAT/FAT1x.c:177-186 | the stored entry reads back |
| Fat12.EntryKept | fs/FAT/FAT1x.c:177-186 | no other entry changes, not even the one that shares a byte |
| Fat12.HeadOfTable | fs/FAT/FAT1x.c:162-175 | a literal head of a table and its four entries |
| Fat12.ChainMeaning | fs/FAT/FAT1x.c:786-794 | the set walked is exactly what following links reaches |
| Fat12.Volume.GetNextCluster | fs/FAT/FAT1x.c:162-175 | the 12-bit entry, or end of chain past the last cluster number |
| Fat12.Volume.SetFatEntry | fs/FAT/FAT1x.c:177-186 | one entry becomes the value cut to 12 bits and all others are kept |
| Fat12.Volume.FreeChain | fs/FAT/FAT1x.c:1056-1062 | ends on every table, cyclic and cross-linked ones included, clears exactly the clusters reached and keeps every other entry |
| FatFile.EvenStep | fs/FAT/FAT1x.c:830-834 | after an even block the search finds the current cluster again |
| FatFile.OddStep | fs/FAT/FAT1x.c:830-834 | after an odd block a new cluster is found and linked |
| FatFile.FollowWritten | fs/FAT/FAT1x.c:686-704 | following the written chain gives the surviving blocks in order |
| FatFile.FailureLoses | fs/FAT/FAT1x.c:830-834 | when the search fails every cluster that was free is in the unfinished chain |
| FatFile.ChainOfWritten | fs/FAT/FAT1x.c:786-794 | the clusters met along a written chain are the chain |
| FatFile.FileVolume.FindFreeCluster | fs/FAT/FAT1x.c:201-215 | the lowest free cluster, 0 exactly when there is none |
| FatFile.FileVolume.WriteBlocks | fs/FAT/FAT1x.c:796-839 | fails exactly when fewer clusters are free than half the blocks, rounded up, and then all of them are chained, the last to itself, and no other entry has changed; otherwise that many free clusters are chained and hold the later of each two blocks |
| FatFile.FileVolume.ReadBlocks | fs/FAT/FAT1x.c:686-704 | the blocks along the chain, up to the number asked for |
| FatFile.FileVolume.WriteThenRead | fs/FAT/FAT1x.c:796-839 | half the blocks come back, which ones is stated, and all of them exactly when there is at most one |
| FatFile.FileVolume.WriteThenDelete | fs/FAT/FAT1x.c:1056-1062 | freeing a file just written restores every entry of the table |
| Nvme.NextSlot | drivers/storage/NVMe.c:95 | the next entry's slot is one further modulo the size, and its tag flips exactly at slot 0 |
| Nvme.PreviousPass | drivers/storage/NVMe.c:111-114 | one pass earlier the same slot carried the other tag |
| Nvme.InitialInv | drivers/storage/NVMe.c:138-145 | the cleared rings satisfy the invariant |
| Nvme.PhaseTest | drivers/storage/NVMe.c:107-110 | the tag matches exactly when an unconsumed completion is at the head, and then it is the next one |
| Nvme.SubmitInv | drivers/storage/NVMe.c:92-99 | submitting keeps the invariant in every state |
| Nvme.SubmitIntact | drivers/storage/NVMe.c:92-99 | the unfetched commands stay visible and unharmed exactly when the submit leaves a slot free |
| Nvme.FullLooksEmpty | drivers/storage/NVMe.c:92-99 | otherwise a full ring of unfetched commands looks empty to the controller |
| Nvme.PollInv | drivers/storage/NVMe.c:106-120 | consuming a completion keeps the invariant and returns the next status posted |
| Nvme.TimeoutInv | drivers/storage/NVMe.c:106-124 | giving up keeps the invariant |
| Nvme.FetchInv | drivers/storage/NVMe.c:95-99 | a fetch keeps the invariant |
| Nvme.FetchIntact | drivers/storage/NVMe.c:95-99 | on an intact ring the controller sees work exactly when a command is unfetched and reads that command |
| Nvme.PostInv | drivers/storage/NVMe.c:116-117 | the controller can post exactly when a fetched command is unanswered and the completion ring is not full, and posting keeps the invariant |
| Nvme.RunInv | drivers/storage/NVMe.c:87-125 | every run keeps the invariant, however many timeouts it has |
| Nvme.RunIntact | drivers/storage/NVMe.c:87-125 | runs whose submits leave a slot free keep the ring intact |
| Nvme.FewTimeoutsSpaced | drivers/storage/NVMe.c:87-125 | runs with at most n - 2 timeouts are such runs |
| Nvme.TimeoutsFillRing | drivers/storage/NVMe.c:87-125 | for every ring size there is a run with n - 1 timeouts after which a submit makes the full ring look empty |
| Nvme.EverySubmitItsOwnStatus | drivers/storage/NVMe.c:87-125 | in every run without timeouts the k-th submit returns the k-th command's status and the controller fetched that command |
| Nvme.AnswersAreShifted | drivers/storage/NVMe.c:87-125 | in every run a submit returns the status posted as many places back as earlier submits timed out |
| Nvme.AwaitGivesUp | drivers/storage/NVMe.c:106-124 | waiting ends in a timeout exactly when no completion is pending at any poll |
| Nvme.LateAnswer | drivers/storage/NVMe.c:87-125 | a concrete run with one timeout whose second submit returns the status of the first command |
| Nvme.Driver.constructor | drivers/storage/NVMe.c:138-145 | a queue pair as set up |
| Nvme.Driver.SubmitCommand | drivers/storage/NVMe.c:87-125 | for every sequence of controller steps before each poll and any number of earlier timeouts: it gives up exactly when no completion is pending at any poll; otherwise the first poll that finds one ends it and the code returned is that of the completion named by the number of earlier timeouts; the invariant is kept, and an intact ring with a slot to spare stays intact |
| Crc32.StepsLinear | crypto/CRC32.c:9-15 | turning the shift register is linear over xor |
| Crc32.TableByteIsShift | crypto/CRC32.c:31 | one table step is eight bit-serial shifts |
| Crc32.Crc32State.CRC32Init | crypto/CRC32.c:5-18 | every table entry is its byte turned eight times |
| Crc32.Crc32State.CRC32 | crypto/CRC32.c:20-35 | the bit-serial CRC-32 of the data |
| Crc32.ConstantResidue | crypto/CRC32.c:20-35 | a message followed by its own CRC always gives the same residue |
| Crc32.TableAt128 | crypto/CRC32.c:9-15 | table entry 128 is 0xEDB88320 and the CRC of no bytes is 0 |
| Crc32.CrcOfOnes | crypto/CRC32.c:20-35 | four bytes of ones have the CRC 0xFFFFFFFF |
| Sha256.ChBit | crypto/SHA256.c:6 | bit by bit a choice of the second or third word by the first |
| Sha256.MajBit | crypto/SHA256.c:7 | bit by bit the majority |
| Sha256.RotrBit | crypto/SHA256.c:5 | bit i of the turned word is bit i + n modulo 32 |
| Sha256.Roots0 | crypto/SHA256.c:13-22 | constants 0 to 3 are fractional parts of cube roots of primes |
| Sha256.Roots4 | crypto/SHA256.c:13-22 | constants 4 to 7 are fractional parts of cube roots of primes |
| Sha256.Roots8 | crypto/SHA256.c:13-22 | constants 8 to 11 are fractional parts of cube roots of primes |
| Sha256.Roots12 | crypto/SHA256.c:13-22 | constants 12 to 15 are fractional parts of cube roots of primes |
| Sha256.Roots16 | crypto/SHA256.c:13-22 | constants 16 to 19 are fractional parts of cube roots of primes |
| Sha256.Roots20 | crypto/SHA256.c:13-22 | constants 20 to 23 are fractional parts of cube roots of primes |
| Sha256.Roots24 | crypto/SHA256.c:13-22 | constants 24 to 27 are fractional parts of cube roots of primes |
| Sha256.Roots28 | crypto/SHA256.c:13-22 | constants 28 to 31 are fractional parts of cube roots of primes |
| Sha256.Roots32 | crypto/SHA256.c:13-22 | constants 32 to 35 are fractional parts of cube roots of primes |
| Sha256.Roots36 | crypto/SHA256.c:13-22 | constants 36 to 39 are fractional parts of cube roots of primes |
| Sha256.Roots40 | crypto/SHA256.c:13-22 | constants 40 to 43 are fractional parts of cube roots of primes |
| Sha256.Roots44 | crypto/SHA256.c:13-22 | constants 44 to 47 are fractional parts of cube roots of primes |
| Sha256.Roots48 | crypto/SHA256.c:13-22 | constants 48 to 51 are fractional parts of cube roots of primes |
| Sha256.Roots52 | crypto/SHA256.c:13-22 | constants 52 to 55 are fractional parts of cube roots of primes |
| Sha256.Roots56 | crypto/SHA256.c:13-22 | constants 56 to 59 are fractional parts of cube roots of primes |
| Sha256.Roots60 | crypto/SHA256.c:13-22 | constants 60 to 63 are fractional parts of cube roots of primes |
| Sha256.RowsOfK | crypto/SHA256.c:13-22 | the constants in order |
| Sha256.InitialRoots | crypto/SHA256.c:65-76 | the initial words are fractional parts of square roots of primes |
| Sha256.PadFillsBlocks | crypto/SHA256.c:90-111 | padding fills whole blocks |
| Sha256.PadIsShortest | crypto/SHA256.c:93-101 | no shorter padding does |
| Sha256.OneBlock | crypto/SHA256.c:95-96 | the last block when the length still fits |
| Sha256.TwoBlocks | crypto/SHA256.c:97-101 | the last two blocks when it does not |
| Sha256.BigEndian | crypto/SHA256.c:104-123 | message words, length and digest are big-endian |
| Sha256.Sha256Ctx.constructor | crypto/SHA256.c:65-76 | nothing absorbed, the initial chaining value |
| Sha256.Sha256Ctx.Transform | crypto/SHA256.c:24-63 | the compression function of FIPS 180-4 on the buffered block |
| Sha256.Sha256Ctx.Update | crypto/SHA256.c:78-88 | the bytes are appended to the message absorbed |
| Sha256.Sha256Ctx.Final | crypto/SHA256.c:90-124 | the SHA-256 hash of everything absorbed |
| Sha256.HashChunks | crypto/SHA256.c:65-124 | the hash depends on the message only, not on how it is cut into updates |
| Rtc.BcdRoundTrip | drivers/RTC/Rtc.c:32-38 | BCD conversion and back is the identity modulo 160 |
| Rtc.DaysToYearClosed | drivers/RTC/Rtc.c:148-150 | the year loop's sum in closed form |
| Rtc.YearBack | drivers/RTC/Rtc.c:107-108 | the year read back is exact below the limit and below it in any case |
| Rtc.ReadBack | drivers/RTC/Rtc.c:45-131 | reading what was set gives the same date and time, the century excepted above the limit |
| Rtc.RoundTrip | drivers/RTC/Rtc.c:140-192 | the Unix time read back is the one set exactly below the limit |
| Rtc.ShownDigits | drivers/RTC/Rtc.c:45-87 | literal BCD registers and the date they show |
| Rtc.ShownBinary | drivers/RTC/Rtc.c:45-87 | literal binary registers and the date they show |
| Rtc.HourIsRight | drivers/RTC/Rtc.c:81-83 | the hour of an MC146818 clock is read right exactly in 24-hour format, from 1 to 11 in the morning, and in binary also from 1 to 11 in the afternoon |
| Rtc.AfternoonIsLost | drivers/RTC/Rtc.c:81-83 | in BCD and 12-hour format three in the afternoon is shown as 83 and midnight as 12 |
| Rtc.MarchOf2000 | drivers/RTC/Rtc.c:140-163 | the Unix time of 1 March 2000 |
| Rtc.EndOf2099 | drivers/RTC/Rtc.c:140-163 | the Unix time of the last second of 2099 |
| Rtc.Clock.ReadTime | drivers/RTC/Rtc.c:45-87 | the time the registers show, in BCD or binary, 12 or 24 hours |
| Rtc.Clock.SetTime | drivers/RTC/Rtc.c:89-131 | the seven registers hold the encoded fields and the status is restored |
| Rtc.Clock.GetUnixTime | drivers/RTC/Rtc.c:140-163 | the Unix time of the date shown |
| Rtc.Clock.FindYear | drivers/RTC/Rtc.c:176-181 | the year loop leaves a day number inside its year |
| Rtc.Clock.FindMonth | drivers/RTC/Rtc.c:183-189 | the month loop stays within 1 to 12 and gives a day of that month |
| Rtc.Clock.SetUnixTime | drivers/RTC/Rtc.c:165-192 | a valid calendar date for the day number is written |
| Rtc.Clock.SetThenGet | drivers/RTC/Rtc.c:140-192 | the time comes back exactly below the limit of the mode |
| Line.StepKeepsBalance | drivers/Vesa.c:197-205 | away from the end the longer axis always advances and neither oversteps |
| Line.EndTogether | drivers/Vesa.c:195 | both axes reach their ends together |
| Divisors.Met | drivers/Vesa.c:197-205 | along a line of n steps every multiple of the greatest common divisor is met modulo n |
| Line.FitIsExact | drivers/Vesa.c:193-205 | the turns of a line all fit 32 bits exactly when its sides satisfy a closed form in their greatest common divisor |
| Line.TurnAgrees | drivers/Vesa.c:197-205 | a turn whose terms fit is made in 32 bits as in exact arithmetic |
| Line.ShortLinesFit | drivers/Vesa.c:197-205 | every line up to 715827882 pixels fits |
| Line.AxisLimit | drivers/Vesa.c:197-205 | a horizontal line fits exactly below 2^30 pixels, a vertical one exactly up to 2^30 |
| Line.LongLineLeaves | drivers/Vesa.c:197-205 | on every longer horizontal line the first turn leaves the axis without a step along it |
| Line.DrawLine | drivers/Vesa.c:183-207 | exactly the longer side plus one pixels, from one end to the other, each nearest to the true line and adjacent to the last; no error term overflows 32 bits exactly when the sides satisfy FitsInt32, and then each pixel is what the 32-bit turn makes of the one before |

## Left out

- Port and MMIO drivers, console, compositor, editor and fonts: register plumbing and user interface with little state to reason about.
- Locks, interrupt flags, TLB invalidation, memory fences and the statistics counters: the guarded operations are modelled as sequential steps; the page counters of the address space are not kept.
- The buddy allocator behind address-space allocation: the region it chooses is a parameter of VMemAlloc, and giving it back is not modelled.
- MMIO mappings, guard pages and stacks of mm/VMem.cpp: they repeat the map and unmap calls.
- The page-table cache: nothing ever fills it.
- Parsing of the boot memory map: the constructor takes the page total and the reserved pages.
- Device errors in the middle of a directory update, indirect blocks and inode writes of Ext2: a block the device cannot transfer is skipped as the code does, and other writes succeed.
- FAT12 directory entries, partial last clusters and 16-bit tables: files are sequences of whole clusters.
- File contents, handles and time stamps of the RAM file system: no invariant links open handles to live nodes.
- ResolveSystemPath and ResolvePathS: the first measures components after restoring the separators, the second only concatenates.
- The admin queue of NVMe.c (lines 47-85): the same loop on a ring of 64 slots, covered by the model's free ring size.
- NVMe completions out of order, concurrent submitters and data transfer lists: the controller completes commands in the order it fetched them.
- NTFS, ISO9660, DevFS, ProcFS, MBR, pools, string helpers, scheduler, IPC and loaders: they would only add easier members.
- RangeIsFree: a range whose first or last page, in 64 bits, lies past the bitmap is not modelled, because the code would read outside it.
- RangeSetUsed: see RangeIsFree.
- RangeSetFree: see RangeIsFree.
- AllocHugePages: requests whose search would read past the bitmap are not modelled: one for no pages when the page total is a multiple of 512, or one whose page count is 2^64 - 512 in 64 bits.
- AllocThenFreeHuge: the same requests are not modelled.
- FreeHugePages: a request that passes the checks only by wrapping, with its last page past the bitmap, is not modelled.
- VMem.AddressSpace.constructor: the two probes of the identity mapping at start-up, and the panic when they fail, are left out; the tables found are taken to be a tree.
- VMemUnmap: ranges longer than one canonical half of the address space, or past its end, are not modelled; of ranges that cut a 2 MB page starting in the frame of a table, only that they are not exactly removed is stated.
- VMemFree: sizes above 0x7FFFFFFFF000 are not modelled; ranges that hold 2 MB pages, or pages on frame 0 or on the frame of a page table, are not modelled; allocation makes none of these.
- VMemAlloc: when some free frame from 1 MB up lies at or above the identity limit, having enough frames does not decide the outcome, since it depends on the order in which they are found; sizes above 0x7FFFFFFFF000 are not modelled, nor regions with a page mapped already; that every level of a page's path is writable is not stated, as it depends on the tables found at start-up.
- RunIntact: of runs that do fill the ring, RunInv and AnswersAreShifted are all that is stated.
- SubmitCommand: completions carry no command identifier in the model, as the code never looks at it.
- CreateNode: the 32-bit node identifier has not yet wrapped to 0, that is, fewer than 2^32 - 1 nodes have been created; the same holds for Mkdir.
- FindParent: the last slash comes before character 256, the size of the parent-path buffer, which the code does not check; the same holds for Mkdir.
- Mkdir: see CreateNode and FindParent.
- GetNextCluster: tables shorter than 6144 bytes, the size for every 12-bit cluster number, are not modelled, because the code would read past them; the same holds for SetFatEntry and FreeChain.
- SetFatEntry: see GetNextCluster.
- FreeChain: see GetNextCluster.
- ReadBlocks: the file size in the directory entry and a partial last cluster are not modelled.
- GetUnixTime: the month shown is between 1 and 12 and the day at least 1, as the month table demands.
- DrawLine: coordinates are whole numbers, so those of 2^31 and above, which the code converts to negative ones, are not modelled; of a line that overflows, only the first turn is described; clipping and the frame buffer are left out.
- FindInBlock: blocks that their records do not tile are not modelled; the same holds for FindLast, InsertInBlock and RemoveFromBlock.
- FindLast: see FindInBlock.
- InsertInBlock: see FindInBlock.
- RemoveFromBlock: see FindInBlock.
