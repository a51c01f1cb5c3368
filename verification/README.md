# Verified models of the AEON kernel

AEON is a small 32-bit x86 kernel.  This project models three parts of it in Dafny and proves what
they keep on every input and on every run.

**The memory manager** (`Bits`, `Align`, `PageTable`, `PageBits`, `Paging`, `Bitmap`, `Heap`, `HeapInvariant`,
`HeapRuns`, `HeapContracts`, `HeapAsWritten`, `HeapWithoutFree`, `HeapCounterexamples`, `MemoryManager`,
`HeapClient`).  `kmalloc` claims a run of 4 KiB blocks in a bitmap and
maps it in three contiguous kernel page tables.  `kfree` is given only a pointer: it reads the physical
start off the page-table entry and finds the length by an end marker in bit 10 of the last entry.
The words, the entries and the `&`, `|`, `~` on them are modelled bit by bit.  `Inv` says that the
table is partitioned into boot entries, zero entries and marked chains, and that the set bits of the
map are the disjoint union of the blocks of the live allocations.  Every legal step of `kmalloc`,
`kfree`, `page_unaligned` (which is `page` on an aligned address) and `unpage` keeps it, so it holds
in every state of every run; the theorems of `HeapRuns` follow from it.

**The printer** (`Numerals`, `Formats`, `FormatDirectives`, `Printer`, `Hexdump`, `DumpLayout`,
`DumpOnScreen`).  `itoa` writes canonical numerals, `kvprintf` prints what a recursive reading of the format says, and a hex dump printed through both
can be read back byte for byte.  `DumpOnScreen` follows such a dump onto the console and reads the last 22
data lines back from the cells of the screen.

**The text console** (`MemoryOps`, `Terminal`, `ConsoleCells`, `Textmode`).  The VGA screen with deferred wrapping
and scrolling by row copies always shows the last 24 lines of an unbounded terminal.

The classes and methods (`KernelPageTables`, `KernelMemory`, `Display`, `TextConsole`, `Memcpy`, `Itoa`,
`Khexdump`, ...) hold the loops of the C code over arrays and fields and are proved to compute the functions
that the lemmas are about.  Nested loops of the source are one method per loop where that keeps the
proofs small.

`PageBits`, `HeapContracts`, `FormatDirectives`, `DumpLayout` and `ConsoleCells` say what the operations do
in bits, addresses, characters and bytes, without the functions that compute it.

## Where the code and its documentation differ

The heap operations take a `Reading`.  `AsWritten` is the text of `kernel/memory/memory.c`;
`AsDocumented` is what its header and its own inverse operations promise.  They differ in two places, and
`HeapAsWritten` says exactly when the text does what is promised.

- `kernel/memory/memory.c:140-154` starts its count at `i * 32 + (1 << j)` instead of `i * 32 + j`,
  tolerates one taken block among the `size + 1` it looks at, and does not stop at the end of the map.
  `SearchAsWritten` says in numbers of free blocks which block it returns and when it reads past the map;
  `SearchesAgree` when that is the documented answer, and `SearchAsWrittenUnfragmented` turns it into
  arithmetic for a map without holes: from the sixteenth block of a word on, a request for two or more blocks
  always reads past the map.
- `kernel/memory/memory.c:207-208` subtracts the wrong way round.  `KfreeAsWritten`: the
  result is right exactly for the allocation that starts at `min_address`; for every other one
  bits outside the bookkeeping page are cleared.

The text can break the invariant: `DoubleAllocation` is a run of four calls after which two live
allocations share a block. (A run consists of steps that end neither in a panic nor outside the map.)
`StepAsWritten` and `RunAsWritten` say exactly when it does not: each request is answered with a block
that starts a free run (or panics for want of page-table slots), and only the allocation at block 0 is
freed. Such an answer need not be the documented one (`HarmlessButNotDocumented`). `GuardedRun` says
exactly when a run of the text is a documented run, so that everything proved in `HeapRuns` holds of it.
A run of the text without `kfree` leaves a map without holes and never shares a block (`NoFreeNoHoles`);
it is a documented run exactly when it asks for no more blocks than there are (`NoFreeIsDocumented`).

Other differences are kept as the code has them:

- `kernel/memory/memory.c:194-214` has no `return`; the count the header documents is what the model returns.
- `kernel/memory/memory.c:86` asks for one page and gets two (`kernel/memory/paging.c:160`);
  `HeaderAliasesFirstBlock` shows that the second is an alias of block 0.
- `kernel/memory/memory.c:91-94` counts blocks from the unadjusted minimum, so the last block may end one
  page past `max_address`; `HeapFramesAreSafe` bounds it by the true end of memory.
- `kernel/memory/paging.c:90` refuses an exact fit at the end of the table; `RefusedIffOnlyExactFit`.
- `kernel/memory/memory.c:93-94` wraps around when there is less memory than the kernel needs; `BookkeepingFits`.
- `kernel/drivers/display/textmode.c:29-39` scrolls in row 25, which `textmode_clear` does not clear;
  `ShowsTerminalIffRowBlank`.
- `kernel/drivers/display/display.c:49-67` never resets the width; `RenderConcat`.
- `kernel/drivers/display/textmode.c:21` sign-extends characters above 127 into the colour; `EntryParts`.

## Model

| member | source | states |
|---|---|---|
| Align.AlignDownToPower | kernel/memory/memory.c:216-222 | for a power of two the mask removes exactly the remainder |
| Align.AlignsIffPowerOfTwo | kernel/memory/memory.c:216-222 | the result is the greatest multiple not above the pointer, for all pointers, exactly when the alignment is a power of two |
| Align.PageAlignIs | kernel/memory/memory.c:224-228 | a page-aligned address is the address without its offset |
| PageTable.FirstFit | kernel/memory/paging.c:74-112 | the least slot from which the request fits below the last entry, or none exactly when there is no such slot |
| PageTable.RefusedIffOnlyExactFit | kernel/memory/paging.c:89-91 | a request is refused exactly when every free run long enough ends at the end of the table |
| PageTable.HighestFrameIsHighest | kernel/memory/paging.c:117-124 | the maximum is a frame, aligned, of some entry, and no entry points above it |
| PageTable.ChainEntryFields | kernel/memory/paging.c:171-180 | an entry decodes to its frame, is present and not locked, and carries the end marker exactly when it is the last |
| PageTable.SlotOfPointer | kernel/memory/paging.c:48-55 | directory index, table index and offset of the pointer to a slot give the slot back, in all three tables |
| PageTable.PointerOfSlot | kernel/memory/paging.c:224-239 | conversely a kernel pointer is the pointer to its slot plus its low 12 bits |
| PageTable.PageKeepsPartition | kernel/memory/paging.c:134-194 | mapping keeps boot entries, zero entries and chains apart and adds exactly one chain |
| PageTable.UnpageKeepsPartition | kernel/memory/paging.c:215-268 | on a live chain unpage stays in the table, meets no locked entry, clears that chain only and returns its length |
| PageTable.UnpageUndoesPage | kernel/memory/paging.c:134-268 | unpage after page restores the table entry for entry, also from a pointer with an offset |
| PageTable.TranslationRoundTrip | kernel/memory/paging.c:270-290 | every byte of a live chain translates to the physical start plus its offset, across table boundaries |
| PageTable.UnalignedRoundTrip | kernel/memory/paging.c:196-213 | the pointer translates to the exact unaligned address and unpage undoes it as if given the page start |
| PageTable.UnalignedCoverage | kernel/memory/paging.c:160 | an unaligned object is covered exactly when offset and size together fit in size/4096 + 1 pages |
| PageBits.ChainEntryBits | kernel/memory/paging.c:171-180 | every bit of every entry: the page address above, the caller's flags, the present bit, and the end marker on the last entry |
| PageBits.WritableEntry | kernel/memory/paging.h:7 | an entry mapped with the read-write flag is its page address plus 0x003, or 0x403 at the end |
| PageBits.PageIs | kernel/memory/paging.c:134-194 | page panics exactly for user space or when no entries in a row are free; otherwise it takes the first such entries, writes these bits and returns 0xC0000000 plus 4096 for each slot |
| PageBits.PageUnalignedIs | kernel/memory/paging.c:196-213 | page_unaligned succeeds for every physical address exactly when page has room, and returns the pointer to that very byte |
| PageBits.UnpageIs | kernel/memory/paging.c:215-268 | on any table: entries are cleared and counted up to the first end marker, and a locked entry on the way panics |
| PageBits.UnpageLeavesTable | kernel/memory/paging.c:247-263 | unpage runs off the table exactly when no entry from the pointer on is locked or marked |
| PageBits.PhysicalAddressIs | kernel/memory/paging.c:270-290 | the entry without its low 12 bits, 0 below 0xC0000000, and outside the tables from 0xC0C00000 on |
| PageBits.HighestFreeAddressIs | kernel/memory/paging.c:114-132 | 4096 above the highest page any entry points at, modulo 2^32 |
| Paging.KernelPageTables.FindFreeBlocksOffset | kernel/memory/paging.c:74-112 | the loops, with their early exit, return the least fitting offset, or all ones exactly when none fits; for a count of 0 the first free entry |
| Paging.KernelPageTables.ComputeHighestFreeAddress | kernel/memory/paging.c:114-132 | the loop returns the address 4096 above the highest page some entry points at, modulo 2^32 |
| Paging.KernelPageTables.WriteChain | kernel/memory/paging.c:171-180 | the loop and the marking step write exactly one chain |
| Paging.KernelPageTables.Page | kernel/memory/paging.c:134-194 | panics exactly for user space or without room; otherwise writes one chain at the first fit, bit for bit, and leaves every other entry |
| Paging.KernelPageTables.PageUnaligned | kernel/memory/paging.c:196-213 | for aligned and unaligned addresses alike: panics exactly for user space or without room, otherwise maps the page and returns the pointer to the byte |
| Paging.KernelPageTables.Unpage | kernel/memory/paging.c:215-268 | the do/while terminates at the first end marker or panics at a locked entry, and clears and counts what it passed |
| Paging.KernelPageTables.GetPhysicalAddress | kernel/memory/paging.c:270-290 | the frame of the entry the pointer indexes |
| Bitmap.SetOne | kernel/memory/memory.c:26-30 | setting a bit takes that block and changes no other |
| Bitmap.UnsetOne | kernel/memory/memory.c:32-36 | clearing a bit frees that block and changes no other |
| Bitmap.RangeLoops | kernel/memory/memory.c:179-180 | as sets of blocks, the marking and unmarking loops add and remove exactly their range |
| Bitmap.UnmarkUndoesMark | kernel/memory/memory.c:212-213 | unmarking restores the words exactly when the whole range was free before |
| Bitmap.FirstRun | kernel/memory/memory.c:122-159 | the least start of a free run inside the searched words, none exactly when there is none |
| Bitmap.SkipTaken | kernel/memory/memory.c:133-135 | skipping taken blocks loses no candidate of either search |
| Bitmap.FullWord | kernel/memory/memory.c:134 | in a word of all ones every block is taken |
| Bitmap.WindowOutcome | kernel/memory/memory.c:142-153 | the counting loop accepts exactly when n of the first n or n + 1 blocks of its window are free, rejects exactly when fewer than n of n + 1 are, and otherwise reads past the map |
| Bitmap.WindowOverlapsTakenBlock | kernel/memory/memory.c:143-152 | a bitmap on which the search as written returns a run with a taken block |
| Bitmap.WindowSearchFinds | kernel/memory/memory.c:131-158 | in numbers of free blocks, which block the text returns: the first free one whose window has enough, all free ones before it having too few; none exactly when all have too few |
| Bitmap.WindowSearchLeaves | kernel/memory/memory.c:131-158 | it reads past the map exactly when the first free block whose window has not too few free blocks has a window that ends behind the map undecided |
| Bitmap.WindowSearchAgrees | kernel/memory/memory.c:122-159 | the text gives the documented answer exactly when these counts single out the least free run |
| Bitmap.WindowSearchOnPrefix | kernel/memory/memory.c:131-158 | what it finds on a map without holes, and the arithmetic condition under which that is right |
| Heap.MemGetBytes | kernel/memory/memory.c:44-58 | the two CMOS bytes as KiB, at most 65535 of them |
| HeapInvariant.MallocKeepsInv | kernel/memory/memory.c:161-192 | kmalloc takes the least free run and the least free slots, adds one allocation and keeps the invariant; it panics only when one of the two is missing |
| HeapInvariant.FreeKeepsInv | kernel/memory/memory.c:194-214 | kfree of a live pointer always succeeds, releases the blocks and entries of that allocation only, and keeps the invariant |
| HeapInvariant.MapKeepsInv | kernel/memory/paging.c:196-213 | mapping by other callers succeeds exactly when it is not for user space and there is room; it adds one mapping, touches no block and keeps the invariant |
| HeapInvariant.UnmapKeepsInv | kernel/memory/paging.c:215-268 | unmapping by other callers succeeds, returns the mapped length, clears exactly its entries, touches no block and keeps the invariant |
| HeapInvariant.StepKeepsInv | kernel/memory/memory.c:161-214 | every legal step keeps the invariant and never leaves table or map |
| HeapRuns.BookkeepingFits | kernel/memory/memory.c:81-94 | the searched map fits in the bookkeeping page exactly when memory does not end below the first free address (or the difference wraps); then fewer than 16384 blocks and no word above 510 |
| HeapRuns.InitialInv | kernel/memory/memory.c:70-97 | initialisation on any well-formed boot table establishes the invariant |
| HeapRuns.RunKeepsInv | kernel/memory/memory.c:161-214 | every state of every run satisfies the invariant |
| HeapRuns.BitmapMatchesPageTable | kernel/memory/memory.c:161-214 | in every state the set bits are the disjoint union of live allocations, whose entries decode to consecutive blocks with the marker on the last |
| HeapRuns.FreeAfterAnyRun | kernel/memory/memory.c:194-214 | after any run that spares it, kfree of a pointer frees exactly the size/4096 + 1 blocks its kmalloc claimed and leaves all other blocks, entries and allocations |
| HeapRuns.FreeUndoesMalloc | kernel/memory/memory.c:161-214 | kfree directly after kmalloc restores bitmap and table word for word |
| HeapRuns.BlocksConserved | kernel/memory/memory.c:161-214 | in every state free blocks and lengths of live allocations add up to the initial number of blocks |
| HeapRuns.HeapFramesAreSafe | kernel/memory/memory.c:75-94 | every frame handed out is above all boot frames and the bookkeeping frame and ends at or below 1 MiB plus the memory size |
| HeapRuns.HeaderAliasesFirstBlock | kernel/memory/memory.c:86 | the second page of the bookkeeping mapping is block 0, on every run |
| HeapContracts.MemInitializeIs | kernel/memory/memory.c:70-97 | panics exactly when no two entries in a row are free; otherwise the bookkeeping page is mapped, writable, 4096 above the highest mapped page, the blocks start behind it, and no bit is set |
| HeapContracts.KmallocIs | kernel/memory/memory.c:161-192 | succeeds exactly when size/4096 + 1 clear bits in a row lie in the whole words and as many free entries in a row in the tables; sets those bits and writes those entries, the first of each, writable and for the kernel only |
| HeapContracts.KmallocWrites | kernel/memory/memory.c:161-192 | whichever block either search returns, the bits and the entries kmalloc writes for it |
| HeapContracts.KfreeIs | kernel/memory/memory.c:194-214 | kfree of a live pointer finds the first block in its entry and the number by the end marker, and clears exactly these bits and entries |
| HeapContracts.RunMapsWritable | kernel/memory/memory.c:187 | in every state of every run each entry of an allocation, and of the bookkeeping page, is the address of its page plus 0x003 or, at the end, 0x403: present, writable, not for users |
| HeapContracts.HeaderAboveBoot | kernel/memory/memory.c:75-87 | on every run the bookkeeping page lies above every page mapped at boot, exactly when none of these is the last page of the address space |
| HeapAsWritten.KfreeAsWritten | kernel/memory/memory.c:207-213 | the text of kfree does what is documented exactly when the physical address is min_address, otherwise it writes outside the map |
| HeapAsWritten.SearchAsWritten | kernel/memory/memory.c:122-159 | for one block the first free one; for more what the counts of free blocks single out; past the map exactly when they run out |
| HeapAsWritten.SearchesAgree | kernel/memory/memory.c:122-159 | the text of the search agrees with the documented one exactly when the counts single out the first free run |
| HeapAsWritten.SearchAsWrittenUnfragmented | kernel/memory/memory.c:142-153 | the same condition as arithmetic on a map without holes, and the blocks from which the map is always left |
| HeapAsWritten.AllocationIsFree | kernel/memory/memory.c:161-192 | whatever run of blocks kmalloc chose, the state after it satisfies the invariant exactly when that run was free |
| HeapAsWritten.StepAsWritten | kernel/memory/memory.c:161-214 | a step of the text ends in a panic or keeps the invariant exactly when the counted block starts a free run (or no slots are left), or the freed allocation starts at block 0 |
| HeapAsWritten.RunAsWritten | kernel/memory/memory.c:161-214 | a run of the text keeps the invariant in every state exactly when all its steps meet that condition |
| HeapAsWritten.GuardedRun | kernel/memory/memory.c:161-214 | a run of the text is a documented run exactly when each request is answered with the first free run and only the allocation at block 0 is freed |
| HeapWithoutFree.NoFreeNoHoles | kernel/memory/memory.c:161-192 | in every state of a run of the text without kfree the taken blocks are the first ones, as many as were asked for, they are the blocks of the live allocations, and no two of these share a block |
| HeapWithoutFree.NoFreeIsDocumented | kernel/memory/memory.c:161-192 | such a run is a documented run, and keeps the invariant, exactly when the blocks asked for add up to no more than there are |
| HeapCounterexamples.DoubleAllocation | kernel/memory/memory.c:161-214 | on every system without allocations that has room, four calls of the text after which two live allocations hold the same block |
| HeapCounterexamples.HarmlessButNotDocumented | kernel/memory/memory.c:131-158 | a map on which the text returns a free run that is not the first one |
| MemoryManager.KernelMemory.MemoryMapSet | kernel/memory/memory.c:26-30 | the word operation is the bitmap's set |
| MemoryManager.KernelMemory.MemoryMapUnset | kernel/memory/memory.c:32-36 | the word operation is the bitmap's unset |
| MemoryManager.KernelMemory.MemoryMapTest | kernel/memory/memory.c:38-42 | the test answers whether the block is taken |
| MemoryManager.KernelMemory.MemInitialize | kernel/memory/memory.c:70-97 | maps the bookkeeping page above the highest mapped page, clears it and records the bounds, or panics exactly when it cannot be mapped |
| MemoryManager.KernelMemory.FindFirstFreeBlock | kernel/memory/memory.c:99-120 | the fast path gives the answer of the general search for one block |
| MemoryManager.KernelMemory.FindFirstFreeBlockRange | kernel/memory/memory.c:122-159 | the nested loops give the answer of the search, for both readings |
| MemoryManager.KernelMemory.FindInWord | kernel/memory/memory.c:137-155 | the loop over the bits of one word carries the search from the word's first block to the next word |
| MemoryManager.KernelMemory.CountRun | kernel/memory/memory.c:142-153 | as documented, a candidate is accepted exactly when it starts a free run inside the searched words |
| MemoryManager.KernelMemory.CountWindow | kernel/memory/memory.c:142-153 | as written, the counting loop over its window |
| MemoryManager.KernelMemory.Kmalloc | kernel/memory/memory.c:161-192 | the whole new state, the pointer, and when it panics; the bits set and the bits of the entries written, in numbers |
| MemoryManager.KernelMemory.Kfree | kernel/memory/memory.c:194-214 | the whole new state and the number of blocks freed |
| HeapClient.LegalPointersAreDefined | kernel/memory/memory.c:194-214 | a pointer to a live mapping meets what kfree and unpage demand: neither leaves the page tables |
| HeapClient.Execute | kernel/memory/memory.c:161-214 | one operation on the classes makes the step of the model, returns its value and keeps the joint invariant |
| HeapClient.InitializeAndRun | kernel/memory/memory.c:70-214 | mem_initialize and any documented run on one allocator object end in the last state of the run, with the invariant |
| Numerals.NumeralValue | klibc/private/stdlib.c:8-37 | a numeral in base 2 to 16 is canonical and denotes its number |
| Numerals.CanonicalIsNumeral | klibc/private/stdlib.c:8-37 | every canonical text is the numeral of the number it denotes |
| Numerals.DigitCount | klibc/private/stdlib.c:22-27 | k digits suffice exactly for numbers below the k-th power of the base |
| Numerals.WordDigits | klibc/private/stdlib.c:4 | at most 32 digits, 10 in base 10 and 8 in base 16, so no buffer overruns |
| Printer.Itoa | klibc/private/stdlib.c:8-37 | the buffer holds the numeral and a NUL and is unchanged behind it; bases above 16 give a zero |
| Printer.GenerateDigits | klibc/private/stdlib.c:22-27 | the first loop fills the static buffer with the digits backwards, within its 32 characters |
| Printer.ReverseInto | klibc/private/stdlib.c:29-34 | the second loop reverses them into the caller's buffer |
| Printer.Strlen | klibc/private/string.c:3-12 | the index of the first NUL |
| Printer.Display.PutNumber | kernel/drivers/display/display.c:78-118 | prints the number padded with zeros to the width |
| Printer.Display.PutConversion | kernel/drivers/display/display.c:69-131 | a string argument as it is, a number padded to the width in base 10 or 16, the low byte as a character |
| Printer.Display.Kvprintf | kernel/drivers/display/display.c:46-140 | the format loop prints what the directives of the format render to |
| Formats.PaddedNumber | kernel/drivers/display/display.c:86-95 | a printed number has max(width, digits) characters and still denotes its value |
| Formats.RenderConcat | kernel/drivers/display/display.c:49-67 | directives render from left to right, each with the last width given before it |
| Formats.NumberFormat | kernel/drivers/display/display.c:56-118 | `%0`, a width digit, a number conversion and plain text print the number in base 10 or 16, padded to the width, and the text |
| Formats.CharFormat | kernel/drivers/display/display.c:120-128 | `%c` prints the low byte of its argument |
| Formats.PlainFormat | kernel/drivers/display/display.c:133-136 | text without a percent sign prints itself |
| Formats.SilentPercent | kernel/drivers/display/display.c:54-137 | a % before a character that is no conversion prints nothing, at every position of every format, with or without a width between them |
| Formats.ParsesApartIffSettled | kernel/drivers/display/display.c:54-137 | a format is read independently of what follows it exactly when it does not end inside a directive |
| Formats.FormatConcat | kernel/drivers/display/display.c:46-140 | such a format and any other print one after the other, the second with the arguments and the width the first left |
| FormatDirectives.StringAt | kernel/drivers/display/display.c:71-77 | at every position of every format, %s, with or without a width, prints its argument as it is and reading goes on behind it |
| FormatDirectives.NumberAt | kernel/drivers/display/display.c:78-118 | the same for %i, %d and %x: the number in its base, padded to the width in force |
| FormatDirectives.CharAt | kernel/drivers/display/display.c:120-128 | the same for %c: the low byte |
| FormatDirectives.LiteralAt | kernel/drivers/display/display.c:133-136 | the same for a character outside directives |
| FormatDirectives.StringFormat | kernel/drivers/display/display.c:71-77 | the format %s prints any string |
| Hexdump.RowRoundTrip | kernel/lib/hexdump.c:21-48 | every line has 75 characters and a newline and gives back its offset and its bytes |
| Hexdump.RowAt | kernel/lib/hexdump.c:16-49 | data line r is the line of the bytes from 16r on |
| Hexdump.DumpRoundTrip | kernel/lib/hexdump.c:5-52 | reading the hex columns of a dump gives back exactly the data, for every length; one line per 16 bytes or part of them |
| Hexdump.PrintCells | kernel/lib/hexdump.c:23-28 | prints the cells of at most 16 bytes and stops at the end of the data |
| Hexdump.PrintBlanks | kernel/lib/hexdump.c:31-32 | fills up the columns of an incomplete line |
| Hexdump.PrintCharacters | kernel/lib/hexdump.c:36-43 | prints the printable characters and dots |
| Hexdump.PrintRow | kernel/lib/hexdump.c:16-49 | one turn of the outer loop prints one line |
| Hexdump.Khexdump | kernel/lib/hexdump.c:5-52 | printing through kvprintf and itoa produces exactly the dump |
| DumpOnScreen.DumpLines | kernel/lib/hexdump.c:5-52 | every line of a dump is 75 printable characters and a newline, and line 3 + r shows the bytes from 16r on |
| DumpOnScreen.TextOnTerminal | kernel/drivers/display/textmode.c:72-107 | a text of such lines never wraps: the terminal has exactly its lines |
| DumpOnScreen.DumpReadableOnScreen | kernel/lib/hexdump.c:5-52 | on any screen that displays a dump, the hex columns of the last 22 data lines, or of all of them, read back the bytes from the cells |
| DumpOnScreen.ShowDump | kernel/lib/hexdump.c:5-52 | dumping through the printer onto a cleared console leaves these bytes readable in the text memory |
| DumpLayout.RowIsDataLine | kernel/lib/hexdump.c:16-49 | every character of a data line: offset, rules, two digits for each byte, and each byte as itself from 0x20 to 0x7e, as a full stop otherwise, blank past the end |
| DumpLayout.DumpIs | kernel/lib/hexdump.c:5-52 | every character of a dump: rules, a title that numbers the columns, the data lines, and a line of dashes |
| MemoryOps.Memcpy | klibc/private/memory.c:3-27 | odd byte first and then pairs is the same as byte by byte, for all ranges |
| MemoryOps.CopyUpCopies | klibc/private/memory.c:3-27 | disjoint ranges and overlaps with the destination at or below the source are copied and nothing else changes |
| MemoryOps.CopiesIffSafe | klibc/private/memory.c:3-27 | every content is copied exactly for those ranges |
| MemoryOps.Memset16 | klibc/private/memory.c:29-38 | fills a range with halfwords, low byte first, and nothing else |
| MemoryOps.Memset | klibc/private/memory.c:40-49 | fills a range with bytes and nothing else |
| Terminal.EntryParts | kernel/drivers/display/textmode.c:18-24 | an entry is the character in the low byte and the colour in the high byte, or 255 there for a character above 127 |
| Terminal.PutRefines | kernel/drivers/display/textmode.c:71-100 | one character keeps the screen a window on the last 24 lines of the terminal |
| Terminal.ScreenShowsTerminal | kernel/drivers/display/textmode.c:42-107 | after clearing, the screen shows the last 24 lines for every text, when row 25 was blank |
| Terminal.SecondScrollShowsRow25 | kernel/drivers/display/textmode.c:29-39 | 25 newlines bring the old row 25 onto the screen |
| Terminal.ShowsTerminalIffRowBlank | kernel/drivers/display/textmode.c:26-58 | the screen shows the terminal for every text exactly when row 25 was blank |
| ConsoleCells.MakeColorIs | kernel/drivers/display/textmode.c:12-16 | the background is the high digit and the foreground the low digit of the colour |
| ConsoleCells.CreateEntryIs | kernel/drivers/display/textmode.c:18-24 | a cell as a number |
| ConsoleCells.DisplayedBytes | kernel/drivers/display/textmode.c:72-100 | a screen that shows a terminal in white on black, byte for byte, and where its cursor is |
| ConsoleCells.LongLineWraps | kernel/drivers/display/textmode.c:77-81 | text without newlines is broken after every 80 characters, when another one comes |
| ConsoleCells.ConsoleStaysInRows | kernel/drivers/display/textmode.c:26-100 | clearing writes the first 4000 bytes only, and text the first 4320 |
| Textmode.TextConsole.MoveRowsUp | kernel/drivers/display/textmode.c:29-34 | 25 row copies move every row up by one |
| Textmode.TextConsole.ScrollUp | kernel/drivers/display/textmode.c:26-40 | rows move up, rows 25 and 26 become blank, nothing else changes |
| Textmode.TextConsole.Clear | kernel/drivers/display/textmode.c:42-58 | blanks 25 rows, homes the cursor, changes nothing else |
| Textmode.TextConsole.Putc | kernel/drivers/display/textmode.c:71-100 | wraps, scrolls and writes one cell, inside the buffer for every character: the character in its low byte and 16 times the background plus the foreground in its high byte |
| Textmode.TextConsole.Puts | kernel/drivers/display/textmode.c:102-107 | the characters one after the other |
| Textmode.ShowText | kernel/drivers/display/textmode.c:42-120 | initialising, clearing and printing any text leaves its last 24 lines in the memory, each character in its byte with the colour 0x0F behind it, blanks 0x0F20, and nothing written behind row 26 |

## Left out

- Heap.Kfree: the text returns no count (`kernel/memory/memory.c:194-214`); the model returns the documented one.
- MemoryManager.KernelMemory.Kmalloc: after a panic the state is not described, because `panic` never returns.
- Heap.Legal: pointers not obtained from `kmalloc` or `page` are excluded, as the headers make them undefined, and so are page flags that would overwrite the address, the end marker or the lock bit.
- Printer.Display.Kvprintf: formats that end in `%0`, and missing or mistyped arguments, are excluded because C leaves them undefined.
- Printer.Itoa: bases below 2 are excluded; the division by them fails or never ends.
- The aliasing between the bookkeeping words and block 0 (`HeaderAliasesFirstBlock`) is stated, but writes through it are not followed.
- `page` with an unaligned physical address, which its header forbids; unaligned objects go through `page_unaligned`.
- User-space mappings: `page` with that flag always panics, and their tables are not implemented.
- Page directory and table registers, CR3 reloads and the TLB: inline assembly.
- The boot page table: any table whose non-zero entries are present is accepted instead of the one `kernel/boot.s` builds.
- `itoa_s`: its argument is unsigned, so its sign branch is never taken and it is `itoa`.
- The list of displays and its function pointers: one sequence of printed characters stands for all of them.
- The print mutex: a placeholder without effect in a single thread.
- CMOS ports: their two bytes are parameters.  The VGA cursor ports, disks, interrupts and sound: hardware access without a local invariant.
