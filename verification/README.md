# Verification model of the kernel's core

A Dafny model of the parts of the kernel whose correctness is a property of whole runs or of several functions
together. One module stands for one concern; a module that only defines what something means comes before the one that
carries the code's loops.

- **Heap** (`LiveBlocks`, `FreeList`, `FreeListHeap`, `HeapRuns`): the intrusive first-fit allocator. The class `Heap`
  rewrites a word-addressed memory in which list links and block headers overlay each other. Its free list is proved to
  be, after every call, the function `Gaps` of the live blocks; the runs are then studied on that function.
- **Pages** (`Bytes`, `PageRuns`, `PageBitmap`, `PageBlocks`, `PageTables`, `PageManager`): the bitmap allocator against
  naive first-fit, whole runs of it, and the identity page tables kept in step with it.
- **Log and screen** (`SysLog`, `Terminal`, `Paper`, `Console`, `LogPager`, `KernelLog`): the ring of logged characters, the
  machine a character stream drives, the endless sheet it is a window on, the console that implements it, and the page
  splitter that has to predict it.
- **Text** (`CStrings`, `Buffers`, `ShellArgs`, `Paths`, `PathNormalizer`, `Numbers`, `Format`): the argument splitter,
  the path normaliser, number conversion and `vsprintf`, each against an inverse or an independent meaning.
- **Storage** (`FatNames`, `FatEncoding`, `FatDirectory`, `FatTable`, `FatGeometry`, `FatChain`, `IsoFile`,
  `IdeTransfer`): FAT directory entries as raw bytes with an encoder written after the Microsoft FAT specification 1.03
  (sections "FAT Data Structure", "FAT Type Determination" and "FAT Long Directory Entries"), the table of packed entries
  and its chains, contiguous file reads and chunked sector transfers.

`Machine` holds 32-bit arithmetic and the outcome of code that may panic: a failed assertion of the kernel is
`Outcome.Panic` where callers can reach it, and a proved fact where they cannot. Unsigned wrap-around and narrowing to
`int` are written out with `ToUint32` and `ToInt32`.

## Where the model follows the intent rather than the code

- The heap's search loop stops at the end of the list, as the assertion behind it expects. `SearchAsWritten` says
  exactly when the loop as written would read the null entry.
- A block freed into an empty list gets null links, as a fresh heap does. `SoleEntryAsWritten` shows what is left there
  otherwise.
- Unmapping tests that an entry is present. `UnmapAsWritten` says exactly when the test as written panics.

Writes through null links in the list helpers are modelled as written: they land in words 0 and 4, below every heap.

## What the proofs found

- A heap request of 2^32 - 8 or more wraps and is given 12 bytes (`WasteBound`, `WrappedRequest`). Freeing a
  block more than 2 GiB above the first free one puts it in front; freeing one 2 GiB or more below the next free one, with
  nothing touching it from below, puts it last (`WalkExact`, `OrderLost`).
- Freeing pages that are not all in use breaks the page count, and nothing stops it (`BitmapAllocator.Free`).
- A page table found above the first 4 MB is cleared at an address that is not mapped: the kernel faults there
  (`FreshReachable`, `AllocPages`). The first single page above the first 4 MB runs into that unless
  it was the last page to give out (`SinglePageNeedsTable`, `FirstPageAbove`).
- With no page left for a page table, mapping goes on with a table at address 0 (`InstallTable`, `AllocPages`).
- A page block that starts in the first 4 MB and runs over 0x400000 is not mapped behind it (`LiveTranslation`).
- A log that contains a NUL is paged without end (`PagingEnds`).
- An empty argument cannot be written so that the shell reads it (`ParserInvertsPrinter`).
- Path normalisation makes some relative paths absolute, `a/../b` and `./b` among them (`AbsoluteOutput`); an absolute one
  may come out empty, as `/a/..` does (`AbsoluteStays`, `EmptyOutput`). A `..` that climbs writes in front of the buffer
  unless the path starts with it and the buffer does not start with a slash (`NormalizePath`, `FirstClimbCuts`, `SlashDotDot`).
- A long file name of a multiple of 13 characters is read with whatever the buffer held behind it, so a longer name before
  it spoils it (`LongNameText`, `DirectoryRoundTrip`, `ThirteenBehindFourteen`). Of the short
  names, a file without extension keeps its dot, a directory with one loses it, and a leading 0xE5 is read as 0x05
  (`FileKeepsDot`, `DirectoryLosesDot`, `LeadingE5`); a path lookup compares with these texts.
- The sectors per FAT of a FAT32 volume are kept in 16 bits, so a volume that declares 0x10000 or more is refused or
  misread (`FatSizeKept`, `DataStartsAsDeclared`, `LargeFatMisplaced`). The data area's size wraps when the metadata is
  larger than the volume (`DataEndsWithVolume`). With sectors above 512 bytes the FAT is loaded from the wrong place
  (`FatReadRight`).

## Model

| member | source | states |
|---|---|---|
| `HeapRuns.RunInvariant` | core/free_llist_allocator.cpp:34-118 | after any run of alloc and free calls from a valid heap the free list is sorted, every free block can hold an entry, no two touch, every byte belongs to exactly one free or live block, and the sizes add up to the heap size |
| `HeapRuns.LiveSetDetermines` | core/free_llist_allocator.cpp:34-118 | the free list is a function of the set of live blocks: two states with the same live blocks have the same list |
| `HeapRuns.AllocThenFree` | core/free_llist_allocator.cpp:34-118 | alloc followed by free of the block it gave restores the identical live blocks, hence the identical free list |
| `HeapRuns.FreesCommute` | core/free_llist_allocator.cpp:60-118 | freeing two blocks in either order ends in the same state |
| `HeapRuns.FreeAllInAnyOrder` | core/free_llist_allocator.cpp:60-118 | freeing every live block, in whatever order, ends with one free block that spans the heap |
| `HeapRuns.WasteBound` | core/free_llist_allocator.cpp:34-58 | the block is the lowest that is large enough and its recorded size exceeds max(request + 8, 12) by less than 12; the payload covers the request if and only if request + 8 does not wrap in 32 bits |
| `HeapRuns.ServedExactly` | core/free_llist_allocator.cpp:34-58 | the block given is determined to the byte: it is the front of the lowest free block with room for max(request + 8, 12), of the least size that can be cut off, which is all of the block or leaves room for a list entry; there is none if and only if no free block has the room |
| `HeapRuns.WrappedRequest` | core/free_llist_allocator.cpp:39-40 | the largest request wraps and is given a 12-byte block |
| `LiveBlocks.GapsShape` | core/free_llist_allocator.cpp:151-231 | the free blocks hold an entry each, lie in the heap in address order, and no two of them touch |
| `LiveBlocks.Tiling` | core/free_llist_allocator.cpp:34-118 | every byte of the heap is owned by a free block or by a live block, never by both, and no byte outside by either |
| `LiveBlocks.GapsAreMaximal` | core/free_llist_allocator.cpp:60-118 | the free blocks are the maximal runs: any range that meets no live block lies inside one of them |
| `LiveBlocks.InsertGaps` | core/free_llist_allocator.cpp:34-58 | giving out the front of a free block, all of it or leaving room for an entry, changes that free block alone and keeps the order |
| `LiveBlocks.RemoveGaps` | core/free_llist_allocator.cpp:60-118 | the free list without a live block is the old free list with that block coalesced with whatever it touches on either side |
| `FreeList.UnlinkChain` | core/free_llist_allocator.cpp:184-193 | unlinking an entry by its neighbours' links leaves exactly the list without it, correctly linked both ways, and touches only list entries |
| `FreeList.MoveChain` | core/free_llist_allocator.cpp:195-231 | copying an entry to a new place and repointing its neighbours leaves the same list with that entry moved and resized |
| `FreeList.InsertedChain` | core/free_llist_allocator.cpp:151-182 | writing a new entry and its neighbours' links, in whatever order, leaves the list with that entry inserted |
| `FreeListHeap.Heap.constructor` | core/free_llist_allocator.cpp:23-32 | a fresh heap of any size is one free block and satisfies the invariant |
| `FreeListHeap.Heap.ListRemove` | core/free_llist_allocator.cpp:184-193 | the list in memory becomes the list without the entry; live memory is untouched, also by the writes through null links as written |
| `FreeListHeap.Heap.ListShrink` | core/free_llist_allocator.cpp:195-218 | returns the least size from the amount on that can be cut off, all of the entry or leaving room for one, and leaves the list with the front of the entry given away, or without the entry |
| `FreeListHeap.Heap.ListGrowUp` | core/free_llist_allocator.cpp:220-231 | the entry is moved down and grown; the list is otherwise the same |
| `FreeListHeap.Heap.ListInsertBefore` | core/free_llist_allocator.cpp:151-166 | the list with the block inserted in front of the target |
| `FreeListHeap.Heap.ListInsertAfter` | core/free_llist_allocator.cpp:168-182 | the list with the block inserted behind the target |
| `FreeListHeap.Heap.Alloc` | core/free_llist_allocator.cpp:34-58 | keeps the invariant; takes exactly the step of HeapRuns; gives the front of the lowest block with room for max(request + 8, 12) bytes, of the least size that can be cut off, which its header records, and the pointer is 8 past it; a request of 0 gives null; it panics exactly when nothing fits and then changes nothing; no word inside a live block changes |
| `FreeListHeap.Heap.Free` | core/free_llist_allocator.cpp:60-118 | for a block in reach, as every block of a heap of at most 2 GiB is: keeps the invariant; succeeds exactly for a live block, which leaves and nothing else does; otherwise panics with nothing changed; a second free of the same pointer finds no header unless the heap contains the address equal to the checksum; no word inside a remaining live block changes |
| `FreeListHeap.Heap.Reclaim` | core/free_llist_allocator.cpp:78-117 | the walk over the list puts a block in reach back coalesced, whichever of the four neighbour situations it meets |
| `FreeListHeap.Heap.GetUnused` | core/free_llist_allocator.cpp:120-133 | the sum over the list is the heap size minus the sizes of the live blocks |
| `FreeListHeap.SearchAsWritten` | core/free_llist_allocator.cpp:43-46 | the search loop as written, which does not test for the end, comes to read the null entry if and only if no free block is large enough; otherwise it stops where Alloc stops |
| `FreeListHeap.SoleEntryAsWritten` | core/free_llist_allocator.cpp:69-76 | as written, freeing into an empty list leaves the size of the block in the next link, so the list does not end |
| `FreeListHeap.WalkExact` | core/free_llist_allocator.cpp:78-117 | in a heap of any size, over any list: the walk never panics, and the list it leaves is the coalesced one, and in address order at all, if and only if the first entry, when it lies below the block, starts at most 2 GiB before the block ends, and the first entry above, when nothing touches the block from below, starts less than 2 GiB behind it |
| `FreeListHeap.SmallHeapFrees` | core/free_llist_allocator.cpp:78-117 | in a heap of at most 2 GiB that holds for every live block |
| `FreeListHeap.Distances` | core/free_llist_allocator.cpp:80-84 | for a block in reach the narrowed distances never fall inside the block, and their signs say which side of the entry it lies on |
| `FreeListHeap.BlockBelowEntry` | core/free_llist_allocator.cpp:80-112 | in a heap of any size, a block below an entry is joined to it or put before it if and only if less than 2 GiB lie between them; otherwise free walks past, and behind the last entry it puts the block there |
| `FreeListHeap.BlockAboveEntry` | core/free_llist_allocator.cpp:80-112 | in a heap of any size, a block above an entry is joined to it if they touch, put before it if it ends more than 2 GiB behind its start, and otherwise walked on from or, at the last entry, put behind it |
| `FreeListHeap.OrderLost` | core/free_llist_allocator.cpp:80-112 | a block at 0xA0000000 freed while the only entry is at 0x1000 is put in front of it, and one at 0x1000 behind an entry at 0xA0000000 |
| `PageBitmap.BitmapAllocator.constructor` | core/bitmap_allocator.cpp:12-32 | a fresh allocator has no page in use, an aligned first page and satisfies the invariant |
| `PageBitmap.BitmapAllocator.Alloc` | core/bitmap_allocator.cpp:34-106 | refines naive first-fit: the lowest run of free pages below the last page, marked, or null with nothing changed exactly when there is none; the invariant with its start hint and its use count is kept |
| `PageBitmap.BitmapAllocator.FindRun` | core/bitmap_allocator.cpp:39-93 | the byte-wise scan from the hint, with whole-byte skips and runs across bytes, stands where a page-by-page scan from page 0 would stand |
| `PageBitmap.BitmapAllocator.ScanByte` | core/bitmap_allocator.cpp:62-92 | the count-trailing-zeros loop over one byte does what eight single-page steps do |
| `PageBitmap.BitmapAllocator.MarkPages` | core/bitmap_allocator.cpp:181-205 | exactly the flags of the pages named change, as far as the bitmap goes, and the use count by one for each of them, whatever they were |
| `PageBitmap.BitmapAllocator.Free` | core/bitmap_allocator.cpp:108-130 | panics exactly for an unaligned address or one outside the managed pages; otherwise exactly the pages named become free, and the invariant survives if and only if they were all in use |
| `PageBitmap.PagesLeft` | core/bitmap_allocator.cpp:95-102 | the unsigned subtraction never wraps, and the comparison behind it decides what naive first-fit decides |
| `PageRuns.CountMarked` | core/bitmap_allocator.cpp:194-200 | marking n pages changes the number of used ones by n if and only if none of them was marked before |
| `PageRuns.PlacementExact` | core/bitmap_allocator.cpp:34-106 | naive first-fit gives the lowest start of that many free pages that end below the last page, if there is one |
| `PageBlocks.RunInvariant` | core/bitmap_allocator.cpp:34-130 | after any run of alloc and matching free the outstanding blocks are pairwise disjoint, lie in the managed pages without the last one, and are together exactly the pages in use |
| `PageBlocks.AllocThenFree` | core/bitmap_allocator.cpp:34-130 | alloc followed by free of that block restores the page flags and the blocks |
| `PageTables.TranslationIsIdentity` | core/mmanager.cpp:113-149 | by the tables no page ever translates to another one, and outside the first 4 MB only pages in use translate at all |
| `PageTables.LiveTranslation` | core/mmanager.cpp:113-149 | a page of a live block translates to itself if and only if it lies in the first 4 MB or its block starts above them |
| `PageTables.StraddlingBlock` | core/mmanager.cpp:131-148 | a block that starts in the first 4 MB and crosses 0x400000 is left unmapped where it crosses: a concrete case that satisfies the invariant |
| `PageTables.FreshEntriesAbsent` | core/mmanager.cpp:136-139 | the assertion that an entry is not yet present never fires for a fresh block |
| `PageTables.UnmapAsWritten` | core/mmanager.cpp:164-168 | as written, the check in unmapping panics for a live block if and only if the block starts above the first 4 MB |
| `PageTables.FreshReachable` | core/mmanager.cpp:120-121 | with paging on, the kernel reaches a page that is in no live block if and only if it lies in the first 4 MB |
| `PageTables.TableReachable` | core/mmanager.cpp:133-134 | every table in use is reachable, so its entries can be written |
| `PageTables.DirectoryReachable` | core/mmanager.cpp:47-66 | the directory's own page is reachable with paging on if and only if it lies in the first 4 MB |
| `PageManager.SinglePageNeedsTable` | core/mmanager.cpp:69-75 | a single page that lands above the first 4 MB where a table is missing finds its table page above them too: the request faults unless there is no page left at all |
| `PageManager.FirstPageAbove` | core/mmanager.cpp:69-75 | the first 4 MB full and no table above them: a request for one page places frame 1024 and faults on its table |
| `PageManager.PageManager.constructor` | core/mmanager.cpp:47-61 | the directory maps the first 4 MB and its page is taken; the invariant holds if and only if that page lies in the first 4 MB |
| `PageManager.PageManager.AllocPages` | core/mmanager.cpp:69-75 | gives the lowest free run or null; in the first 4 MB never panics; above, panics if and only if the block reaches the last entry of its table or the page for a missing table is found outside the first 4 MB, where clearing it faults; otherwise keeps the invariant if and only if that page is found |
| `PageManager.PageManager.FreePages` | core/mmanager.cpp:77-83 | panics exactly for an address outside the managed pages; otherwise the block and its mapping leave and the invariant is kept |
| `PageManager.PageManager.PagingMap` | core/mmanager.cpp:113-149 | does nothing in the first 4 MB; above, panics if and only if clearing a missing table faults or the table has no room for the block, and otherwise keeps the invariant with the block live, hence mapped page by page to itself, if and only if a missing table finds a page |
| `PageManager.PageManager.InstallTable` | core/mmanager.cpp:118-129 | faults if and only if a page is found outside the first 4 MB; otherwise the directory entry points to a cleared table, at address 0 when no page is left |
| `PageManager.PageManager.PagingUnmap` | core/mmanager.cpp:151-172 | no assertion of it fires for a live block; the entries of the block and no others are cleared |
| `SysLog.SysLog.Append` | core/kernel.cpp:157-179 | after a portion of any length the ring holds exactly the last 2048 characters ever logged |
| `SysLog.SysLog.Flatten` | core/kernel.cpp:189-205 | the flattened log is exactly the last min(total, 2048) characters ever logged, terminated; its length is what the more test uses |
| `KernelLog.Log` | core/kernel.cpp:152-186 | one call makes the log's history grow by exactly the formatted text, and while printing is on the console shows its characters at the cursor, NULs left out |
| `LogPager.RenderLogs` | core/kernel.cpp:207-222 | page k shown on a cleared screen is exactly the k-th page, and the answer is whether the text left is non-empty |
| `LogPager.PagesTile` | core/kernel.cpp:207-219 | the first k pages put together are the log up to where page k starts: no gap, no overlap |
| `LogPager.PagesCover` | core/kernel.cpp:207-219 | page by page the whole log is shown, at most one page for each character |
| `LogPager.PageFitsScreen` | core/kernel.cpp:209-219 | no page scrolls the screen, and every printing character of it stays where it was put |
| `LogPager.PageKeepsLastLine` | core/kernel.cpp:209-219 | a page leaves the last line of the screen as it was |
| `LogPager.PageSpaceLargest` | core/kernel.cpp:205-219 | a page budget leaves the last line as it was, for every text, if and only if it is at most the one used |
| `LogPager.MoreIsExact` | core/kernel.cpp:221 | for a log without NUL the answer is true if and only if text remains |
| `LogPager.PagingEnds` | core/kernel.cpp:221 | some page is answered to be the last if and only if the log holds no NUL |
| `Console.Console.CalcFitSubstring` | core/console.cpp:51-91 | the longest prefix whose simulated cursor stays within the limit, the limit being cut to the space left on the screen |
| `Console.Console.Print` | core/console.cpp:149-204 | prints exactly the text up to its NUL or length limit, as the one-character-at-a-time machine would, with control characters, deferred wrap and scrolling; the screen is then the window on the endless sheet with the same text on it |
| `Terminal.SplitterSound` | core/console.cpp:51-91 | the splitter's position never falls behind the real cursor: text whose simulated end is on the screen does not scroll it |
| `Paper.SplitterExact` | core/console.cpp:51-91 | the splitter's position is ahead of the real cursor by one line for every line feed that comes on a full line, and by nothing else |
| `Paper.BudgetKeepsLine` | core/console.cpp:51-91 | from the top left corner a page budget leaves the last line untouched, whatever the text, if and only if it is at most 24 lines |
| `Terminal.BudgetExact` | core/console.cpp:51-91 | from the top left corner a page budget keeps every text from scrolling if and only if it is less than a full screen |
| `Terminal.GlyphShown` | core/console.cpp:149-204 | every printing character of a text that does not scroll is on the screen where it was put |
| `Paper.ScreenIsWindow` | core/console.cpp:149-204 | whatever is typed, the screen and its cursor are the last 25 lines of a sheet that never ends and on which the same text is written without scrolling |
| `Paper.GlyphFollowed` | core/console.cpp:149-204 | a printing character put at cell p stands, with its colour, at p - 80 k once k lines have left the screen, until it leaves at the top |
| `Terminal.TypeConcat` | core/console.cpp:149-204 | printing in pieces is printing at once, scrolling included |
| `Console.Console.UpdateScroll` | core/drivers/screen.cpp:38-56 | with the cursor below the screen every line moves up by one and the last is blank; otherwise nothing changes |
| `Console.Console.Putc` | core/drivers/screen.cpp:84-97 | puts one character with the wrap of the one before it |
| `Console.Console.PrintRaw` | core/drivers/screen.cpp:109-115 | puts the characters up to a NUL or the length given, control characters too |
| `ShellArgs.ParserInvertsPrinter` | core/shell.cpp:27-92 | for every list of arguments, quoting, escaping and joining it by spaces and splitting it again gives the list back if and only if none of them is empty |
| `ShellArgs.JoinRoundTrip` | core/shell.cpp:27-92 | what is read back is the list without its empty arguments |
| `ShellArgs.ArgumentsByPosition` | core/shell.cpp:27-92 | for every line the arguments are what stands between its breaks, the spaces that are neither escaped nor in quotes, without unescaped quotes and backslashes and without escaped characters other than these two |
| `ShellArgs.ParseArgs` | core/shell.cpp:27-92 | fills the argument vector with the first min(maxOutArgv - 1, n) arguments, each stored and terminated, and a NULL behind them; does nothing for maxOutArgv < 1 |
| `Paths.NormalizePreserves` | core/drivers/storage.cpp:138-183 | for every path that does not climb above its root, the components of the result are those of a push and pop machine over the path; no . or .. is left; normalising again changes nothing |
| `Paths.NoDoubledSlash` | core/drivers/storage.cpp:138-183 | no slash of the result is doubled |
| `Paths.NormRunsStack` | core/drivers/storage.cpp:138-183 | the state reached from any state is the push and pop machine started on its components |
| `Paths.AbsoluteOutput` | core/drivers/storage.cpp:145-178 | a result that is not empty starts with a slash if and only if some slash of the path has nothing left on the stack before it; so a relative path that empties on the way, or starts with ./, comes out absolute |
| `Paths.AbsoluteStays` | core/drivers/storage.cpp:138-183 | an absolute path, which is what the shell passes, comes out absolute or empty |
| `Paths.EmptyOutput` | core/drivers/storage.cpp:138-183 | the result is empty if and only if the path is empty or a single dot, or its last segment is a .. that takes away the only component left |
| `Paths.TrailingSlash` | core/drivers/storage.cpp:138-183 | the result ends with a slash if and only if the path ends with one or with a dot behind one |
| `Paths.ClimbsIff` | core/drivers/storage.cpp:163-178 | a path climbs if and only if some .. of it has nothing left on the stack before it |
| `Paths.LeadingDotsDropped` | core/drivers/storage.cpp:163-178 | a leading .. is dropped: the result is that of the rest of the path |
| `PathNormalizer.FirstClimbCuts` | core/drivers/storage.cpp:163-177 | the first .. that climbs, at index i, cuts before the start of the buffer if and only if i > 0 or the buffer happens to start with a slash |
| `PathNormalizer.SlashDotDot` | core/drivers/storage.cpp:163-177 | the path /.. is such a case, whatever else the buffer holds |
| `PathNormalizer.ShortFits` | core/drivers/storage.cpp:147-180 | a path shorter than the buffer fits, with every output on the way |
| `PathNormalizer.NormalizePath` | core/drivers/storage.cpp:138-183 | for every path whose outputs on the way fit: it cuts before the buffer if and only if the path behind a leading .. climbs, or there is a leading .. and the buffer happens to start with a slash; otherwise it writes exactly the normalised text and returns its length, terminated; for the empty path and a single dot it writes nothing |
| `CStrings.Strlcpy` | core/stdlib.cpp:77-94 | stores the string as far as it fits, always terminated, returns its length and changes nothing behind the terminator |
| `Buffers.MemCopy` | core/stdlib.cpp:8-12 | exactly the target range takes the source's elements |
| `Numbers.UnsignedRoundTrip` | core/stdlib.cpp:235-321 | every 32-bit value in every base 2 to 16 is read back from its own text |
| `Numbers.SignedRoundTrip` | core/stdlib.cpp:268-338 | every int in every base is read back from its own text, the minimum included |
| `Numbers.HexRoundTrip` | core/stdlib.cpp:223-233 | a hexadecimal field of any width parses back to the value modulo 16 to the width |
| `Numbers.ParsedIsValue` | core/stdlib.cpp:291-321 | parsing gives the positional value of the longest prefix of digits, modulo 2^32 |
| `Numbers.DigitsValue` | core/stdlib.cpp:254-264 | the digits printed have the value printed |
| `Numbers.DigitValues` | core/stdlib.cpp:291-315 | a digit is read from 0-9, A-F and a-f alone, each with its value |
| `Numbers.UnsignedIsNumeral` | core/stdlib.cpp:235-266 | the text of a number is its upper-case digits in the base, without a leading zero |
| `Numbers.SignedIsNumeral` | core/stdlib.cpp:268-277 | in base 10 a negative number is a minus and its absolute value; in every other base it is printed as its 32 bits |
| `Numbers.HexIsField` | core/stdlib.cpp:223-233 | a hexadecimal field with room for the value is that many upper-case digits with that value |
| `Numbers.SignsRead` | core/stdlib.cpp:323-338 | a minus or a plus in front of digits is read as their value negated or as it is, wrapped to int |
| `Numbers.UintToStr` | core/stdlib.cpp:235-266 | stores the text of the value; a base out of range stores a question mark |
| `Numbers.IntToStr` | core/stdlib.cpp:268-277 | stores the signed text; only base 10 has a sign |
| `Numbers.UintToHex` | core/stdlib.cpp:223-233 | stores the fixed-width text, terminated |
| `Numbers.StrToUint` | core/stdlib.cpp:291-321 | computes the parsed number, stopping at the first character that is no digit of the base |
| `Numbers.StrToInt` | core/stdlib.cpp:323-338 | the same with one optional sign, wrapped to int |
| `Format.Vsprintf` | core/stdlib.cpp:105-179 | the portions handed to the callback, in order, make up the formatted text |
| `Format.Sprintf` | core/stdlib.cpp:181-221 | stores the first min(length, maxOutLength - 1) characters and a terminator, nothing behind it, and nothing at all for maxOutLength < 1 |
| `Format.Render` | core/stdlib.cpp:126-170 | each specifier's text, produced in the 20-character buffer, fits it and is the text of its argument that the laws for the specifiers describe |
| `Format.EndsBareIsOdd` | core/stdlib.cpp:112-175 | a percent sign is left bare at the end, which reads past the terminator, if and only if the format ends in an odd number of them |
| `Format.PrintedIntReadsBack` | core/stdlib.cpp:126-131 | a number printed by a format is read back |
| `Format.DecimalPrinted` | core/stdlib.cpp:126-131 | %d and %i: the decimal digits of the absolute value, behind a minus for a negative number |
| `Format.UnsignedPrinted` | core/stdlib.cpp:132-137 | %u: the decimal digits |
| `Format.HexPrinted` | core/stdlib.cpp:138-143 | %x: eight upper-case hexadecimal digits with the value |
| `Format.PointerPrinted` | core/stdlib.cpp:144-151 | %p: the same behind 0x |
| `Format.LongPrinted` | core/stdlib.cpp:152-160 | %llx: sixteen upper-case hexadecimal digits with the value |
| `Format.CharPrinted` | core/stdlib.cpp:161-166 | %c: the character |
| `Format.StringPrinted` | core/stdlib.cpp:167-172 | %s: the string up to its NUL |
| `Format.UnknownPrinted` | core/stdlib.cpp:123-174 | an unknown specifier stands for itself with its percent sign, a second percent sign too |
| `FatEncoding.DirectoryRoundTrip` | core/filesystems/fat.cpp:443-505 | a directory of long names, 8.3 names of files and directories, labels, erased and device entries is read back name by name, as the FAT specification spells them, if and only if behind every name that fills its slots the name buffer holds a terminator, no earlier long name is longer, long names have single-byte characters, files have an extension, directories have none, and no short name starts with 0xE5 |
| `FatEncoding.TerminatedRoundTrip` | core/filesystems/fat.cpp:443-505 | with no long name of a multiple of 13 characters it is read back, whatever the buffer held, if and only if every name is one the parser spells so |
| `FatEncoding.ThirteenBehindFourteen` | core/filesystems/fat.cpp:453-469 | a name of 13 characters behind one of 14 is misread whatever the buffer held |
| `FatEncoding.FileKeepsDot` | core/filesystems/fat.cpp:484-496 | the file KERNEL without extension is read with a dot behind it |
| `FatEncoding.DirectoryLosesDot` | core/filesystems/fat.cpp:497-501 | the directory SYS.OLD is read as SYS, five spaces and OLD |
| `FatEncoding.LeadingE5` | core/filesystems/fat.cpp:484-496 | a short name that starts with 0xE5, stored as 0x05, is read with 0x05 |
| `FatEncoding.LongNameText` | core/filesystems/fat.cpp:453-469 | the long name read is the name, or, when it fills its slots, the name and whatever the buffer held behind it |
| `FatEncoding.DottedText` | core/filesystems/fat.cpp:484-496 | a file entry reads as base, dot and extension without the padding; the dot stays for an empty extension |
| `FatEncoding.UndottedText` | core/filesystems/fat.cpp:497-501 | a directory or label entry reads as its eleven characters without the padding |
| `FatNames.ChecksumSeesOneByte` | core/filesystems/fat.cpp:417-426 | changing any single byte of a short name changes its checksum |
| `FatDirectory.CalculateChecksum` | core/filesystems/fat.cpp:417-426 | the loop computes the sum that the encoder writes after the specification, on machine bytes |
| `FatEncoding.ChecksumIsNameSum` | core/filesystems/fat.cpp:417-426 | for every short name the parser's sum is that of the specification: from 0, rotate right and add each byte |
| `FatEncoding.KernelSum` | core/filesystems/fat.cpp:417-426 | the sum of KERNEL.BIN is 0xDA |
| `FatDirectory.EntryParser.HandleNext` | core/filesystems/fat.cpp:443-505 | the parser's fields, the name buffer and the answer after any entry |
| `FatNames.ClustersAreOneDirectory` | core/filesystems/fat.cpp:280-311 | where a directory is cut into clusters does not matter, even inside a long name, as long as only the last cluster has an empty entry |
| `FatNames.ClustersCut` | core/filesystems/fat.cpp:280-311 | for any clusters the names are those of one directory made of the clusters, each cut at its first empty entry: an empty entry ends its cluster, not the directory |
| `FatDirectory.EntryParser.ReadClusters` | core/filesystems/fat.cpp:280-311 | the names read cluster by cluster, each up to its own first empty entry |
| `FatDirectory.EntryParser.ReadEntries` | core/filesystems/fat.cpp:284-309 | the names of a run of entries up to the first empty one |
| `FatDirectory.SpacedStringToCStr` | core/stdlib.cpp:50-63 | cuts trailing spaces and returns where the terminator stands |
| `FatTable.NextClusterIsEntry` | core/filesystems/fat.cpp:372-391 | on FAT12, FAT16 and FAT32 entry k read is digit k of the table taken as one little-endian number, for every k |
| `FatTable.Pack12ReadsBack` | core/filesystems/fat.cpp:372-380 | every entry of a table packed two to three bytes is read back |
| `FatTable.HasExactly` | core/filesystems/fat.cpp:372-391 | an entry can be read if and only if its bits end inside the table |
| `FatChain.WalkEndsIffAcyclic` | core/filesystems/fat.cpp:507-533 | for every FAT that holds the entries the chain comes to, following the chain ends if and only if it meets no cluster twice, and then within as many steps as the table has room for |
| `FatChain.ClusterReader.ReadNext` | core/filesystems/fat.cpp:507-533 | loads the cluster's sectors, or the root region for cluster 0, and steps to the cluster that its entry in the table names; more is answered exactly when that entry is below the chain end |
| `FatChain.ClusterReader.ReadAll` | core/filesystems/fat.cpp:280-311 | the loop around it loads, in order and each once, the clusters of the one list in which every entry of the table names the next cluster and the last one ends the chain |
| `FatChain.ChainUnique` | core/filesystems/fat.cpp:507-533 | from a cluster on the table links only one such list |
| `FatChain.LoadedTile` | core/filesystems/fat.cpp:507-523 | the root region loaded for cluster 0 ends where cluster 2 starts, each cluster ends where the next one starts, and none runs over the end of the volume |
| `FatChain.VisitedSectors` | core/filesystems/fat.cpp:519-523 | the sectors of two clusters visited never overlap and lie in the data area |
| `FatGeometry.Probe` | core/filesystems/fat.cpp:35-134 | accepts exactly the boot sectors with the right signatures whose fields give a geometry, and returns that geometry; its regions follow one another without a gap, and its clusters fill the data area one behind the other |
| `FatGeometry.TypeFitsEntries` | core/filesystems/fat.cpp:76-125 | the type is the first whose entries leave the ten highest values free of clusters, the chain ends at the last nine, and only FAT32 has its root directory in clusters |
| `FatGeometry.SectorsDeclared` | core/filesystems/fat.cpp:66-68 | a volume that fills one of the two size fields has that many sectors, and the small field wins |
| `FatGeometry.Floppy` | core/filesystems/fat.cpp:35-134 | the boot sector of a 1.44 MB floppy disk gives its known layout |
| `FatGeometry.SmallDisk` | core/filesystems/fat.cpp:35-134 | a 32 MB disk with its size in the large field gives its known layout |
| `FatGeometry.PowersOfTwo` | core/filesystems/fat.cpp:51-52 | the test for the cluster size accepts 1, 2, 4 and so on up to 128, and nothing else |
| `FatGeometry.FatSizeKept` | core/filesystems/fat.cpp:57-64 | the sectors per FAT are those declared if and only if fewer than 0x10000 are declared; any multiple of 0x10000 is refused |
| `FatGeometry.FatReadRight` | core/filesystems/fat.cpp:136-141 | the sectors read as the FAT are as many as it has, and are the FAT if and only if the volume has sectors of 512 bytes |
| `FatGeometry.DataStartsAsDeclared` | core/filesystems/fat.cpp:57-73 | the data area starts where the declared sizes put it if and only if fewer than 0x10000 sectors per FAT are declared |
| `FatGeometry.LargeFatMisplaced` | core/filesystems/fat.cpp:57-73 | with 0x10001 sectors per FAT the volume is accepted and its data sought at sector 34 instead of 131106 |
| `FatGeometry.DataEndsWithVolume` | core/filesystems/fat.cpp:70-76 | the data area ends with the volume if and only if the metadata fits on it |
| `FatGeometry.ClustersBelowEnd` | core/filesystems/fat.cpp:76-125 | no valid cluster is taken for the end of a chain, exactly when a FAT32 volume has at most 0x0FFFFFF5 clusters |
| `FatGeometry.ClusterInData` | core/filesystems/fat.cpp:519-523 | a cluster is valid if and only if its sectors lie in the data area |
| `FatGeometry.ClustersDisjoint` | core/filesystems/fat.cpp:519-523 | distinct clusters share no sector |
| `FatGeometry.RootDirectoryFits` | core/filesystems/fat.cpp:72 | the root region holds its entries with less than a sector to spare |
| `IsoFile.ReadFile` | core/filesystems/iso_9660.cpp:214-238 | returns exactly min(length, size - position) bytes of the file's extent from the position, advances it, and leaves the rest of the buffer alone |
| `IsoFile.ReadRun` | core/filesystems/iso_9660.cpp:214-238 | any sequence of reads of any sizes concatenates to the file, cut nowhere and repeated nowhere |
| `IdeTransfer.LbaSplit` | core/drivers/ide.cpp:235-251 | the drive is given the low 28 bits of the address, so the sector meant is addressed if and only if it is below 2^28; the drive bit and the sector count are those asked for, in LBA mode |
| `IdeTransfer.Drive.Read` | core/drivers/ide.cpp:66-78 | the commands of at most 255 sectors make up one flat transfer and write nothing behind it |
| `IdeTransfer.Drive.Write` | core/drivers/ide.cpp:80-92 | the commands make up one flat transfer and change no other sector |
| `IdeTransfer.Drive.WriteThenRead` | core/drivers/ide.cpp:66-92 | what was written is read back, however the two requests are cut |

## Left out

- FreeListHeap.Heap.constructor: a heap that lies at address 12 or above and ends within 32 bits. The assertion on the smallest size is a precondition.
- FreeListHeap.Heap.Free: a pointer to memory that only looks like a header is excluded by precondition, because the source cannot tell it from a block; and so, in a heap of more than 2 GiB, is a block out of reach, whose release leaves the list out of order (`WalkExact`).
- FreeListHeap.Heap.GetUnused: a list that is empty is excluded by precondition, because the source reads its first entry unchecked.
- PageBitmap.BitmapAllocator.constructor: the physical end of memory; the number of pages is not reduced by the space of the bitmap, so claims are about the managed range the allocator itself uses.
- PageManager.PageManager.AllocPages: what happens after a table was put at address 0, and behind a fault, which is a panic here; the contract says exactly when each is.
- PageManager.PageManager.FreePages: only blocks that were given out, with their length; part of a block is not freed.
- LogPager.RenderLogs: the screen is taken as just cleared, as its callers leave it.
- PathNormalizer.NormalizePath: paths with an output on the way that does not fit the buffer; and what follows a write in front of the buffer, which ends the model's run.
- Format.Vsprintf: formats that end in a bare percent sign, which read past their terminator (`EndsBareIsOdd`), and arguments that do not match their specifiers; variadic arguments are a typed sequence.
- FatDirectory.EntryParser.HandleNext: long-name entries whose sequence number leads outside the name buffer are excluded by precondition (`FatNames.Fits`); for the 256 characters of its callers these are 0 and everything above 19.
- FatEncoding.DirectoryRoundTrip: long names after a checksum that does not match, names longer than 247 characters, and characters of two UTF-16 units.
- FatChain.ClusterReader.ReadAll: chains that meet a cluster twice, on which the loop does not end (`WalkEndsIffAcyclic`), and chains that come to an entry outside the loaded table; the source checks neither. The chain is that of the loaded table, which is the volume's if and only if its sectors have 512 bytes (`FatReadRight`).
- PageTables.TranslationIsIdentity: what the translation buffer of the processor still holds; unmapping does not flush it, so this and the other claims about translation are about the tables.
- IsoFile.ReadFile: positions behind the end of the file, and files whose extent is not on the disk.
- IdeTransfer.Drive.Read: device errors, polling and delays; a command is taken to succeed as an abstract copy of sectors. Requests that cross the 28-bit limit.
- FAT reading of file contents, which treats a chain as contiguous; the volume label of the boot sector; high cluster words of FAT32.
- Writing through a partition, which does not add the partition's offset.
- Port input and output, PCI, interrupts, timers, the keyboard, CPU identification, descriptor tables and the AHCI driver.
- The shell's commands, menus, memory dumper and debugger screen.
- SUSP and Rock Ridge traversal, directory lookup, volume mounting and multiboot parsing.
