/** `mem_initialize`, `kmalloc` and `kfree` in bits and numbers: which bit of which word, which entry, which
    address.  `Heap` says how they compute it. */
module HeapContracts {
  import opened Bits
  import opened Outcomes
  import opened Align
  import opened Heap
  import opened HeapInvariant
  import opened HeapRuns
  import BM = Bitmap
  import PT = PageTable
  import PB = PageBits

  // ----- blocks

  /** The bit of block b. */
  ghost predicate Marked(words: seq<u32>, b: nat)
    requires b < 32 * |words|
  {
    Bit(words[b / 32], b % 32)
  }

  lemma MarkedIsTaken(words: seq<u32>, b: nat)
    requires b < 32 * |words|
    ensures Marked(words, b) <==> BM.Taken(words, b)
  {
    BM.TakenIsBit(words, b);
  }

  /** n blocks from `first` on are not marked, and lie in the first `count` blocks. */
  ghost predicate Unmarked(words: seq<u32>, count: nat, first: int, n: nat)
    requires count <= 32 * |words|
  {
    0 <= first && first + n <= count && forall b | first <= b < first + n :: !Marked(words, b)
  }

  lemma UnmarkedIsFree(words: seq<u32>, count: nat, first: int, n: nat)
    requires count <= 32 * |words|
    ensures Unmarked(words, count, first, n) <==> BM.FreeRun(words, count, first, n)
  {
    hide Marked, BM.Taken;
    if 0 <= first && first + n <= count {
      forall b | first <= b < first + n
        ensures Marked(words, b) <==> BM.Taken(words, b)
      {
        MarkedIsTaken(words, b);
      }
    }
  }

  ghost predicate NoneUnmarked(words: seq<u32>, count: nat, n: nat)
    requires count <= 32 * |words|
  {
    forall first :: !Unmarked(words, count, first, n)
  }

  ghost predicate LeastUnmarked(words: seq<u32>, count: nat, first: nat, n: nat)
    requires count <= 32 * |words|
  {
    Unmarked(words, count, first, n) && forall i | 0 <= i < first :: !Unmarked(words, count, i, n)
  }

  lemma FirstRunIsLeast(words: seq<u32>, count: nat, n: nat)
    requires count <= 32 * |words| && n > 0
    ensures match BM.FirstRun(words, count, n, 0)
      case Some(first) => LeastUnmarked(words, count, first, n) && !NoneUnmarked(words, count, n)
      case None => NoneUnmarked(words, count, n)
  {
    hide Unmarked, BM.FreeRun;
    forall i: int
      ensures Unmarked(words, count, i, n) <==> BM.FreeRun(words, count, i, n)
    {
      UnmarkedIsFree(words, count, i, n);
    }
    NegativeIsNoRun(words, count, n);
    assert BM.FirstRun(words, count, n, 0).Some? ==> Unmarked(words, count, BM.FirstRun(words, count, n, 0).value, n);
  }

  lemma NegativeIsNoRun(words: seq<u32>, count: nat, n: nat)
    requires count <= 32 * |words|
    ensures forall i | i < 0 :: !BM.FreeRun(words, count, i, n)
  {
  }

  /** The words differ in the marks of n blocks from `first` on only, which are `mark`. */
  ghost predicate MarksSet(words: seq<u32>, words': seq<u32>, first: nat, n: nat, mark: bool) {
    && |words'| == |words|
    && forall b: nat | b < 32 * |words| :: Marked(words', b) <==> if first <= b < first + n then mark else Marked(words, b)
  }

  lemma RangeMarks(words: seq<u32>, first: nat, n: nat)
    requires first + n <= 32 * |words|
    ensures MarksSet(words, BM.SetRange(words, first, n), first, n, true)
    ensures MarksSet(words, BM.UnsetRange(words, first, n), first, n, false)
  {
    hide Marked, BM.Taken;
    forall b: nat | b < 32 * |words|
      ensures Marked(BM.SetRange(words, first, n), b) <==> first <= b < first + n || Marked(words, b)
      ensures Marked(BM.UnsetRange(words, first, n), b) <==> !(first <= b < first + n) && Marked(words, b)
    {
      BM.SetRangeTaken(words, first, n, b);
      BM.UnsetRangeTaken(words, first, n, b);
      MarkedIsTaken(words, b);
      MarkedIsTaken(BM.SetRange(words, first, n), b);
      MarkedIsTaken(BM.UnsetRange(words, first, n), b);
    }
  }

  // ----- kmalloc

  /** The number of blocks that are searched: whole words only. */
  function Searched(m: Memory): nat {
    m.blockCount / 32 * 32
  }

  /** kmalloc marked the blocks for `size` bytes from `first` on and mapped them, writable and for the kernel
      only, from `slot` on. */
  ghost predicate Wrote(m: Memory, m': Memory, size: u32, pointer: nat, slot: nat, first: nat) {
    && MarksSet(m.words, m'.words, first, size / 4096 + 1, true)
    && PB.LeastRoom(m.table, slot, size / 4096 + 1)
    && PB.MappedAt(m.table, m'.table, slot, size / 4096 + 1, (m.minAddress + 4096 * first) % 0x1_0000_0000, 2)
    && pointer == 0xC000_0000 + 4096 * slot
    && m'.minAddress == m.minAddress && m'.maxAddress == m.maxAddress && m'.blockCount == m.blockCount
  }

  ghost predicate WroteSomewhere(m: Memory, m': Memory, size: u32, pointer: nat) {
    exists slot: nat, first: nat :: Wrote(m, m', size, pointer, slot, first)
  }

  /** Whichever block the search finds, in either reading, this is what `kmalloc` does with it. */
  lemma KmallocWrites(reading: Reading, m: Memory, size: u32)
    requires WellSized(m) && m.minAddress % 4096 == 0
    ensures match Kmalloc(reading, m, size)
      case Done((m', pointer)) => WroteSomewhere(m, m', size, pointer)
      case _ => true
  {
    hide Search, WroteSomewhere, PT.WithChain, PT.Fits, BM.SetRange, BlockAddress;
    assert PT.PageCount(size) == size / 4096 + 1;
    if Kmalloc(reading, m, size).Done? {
      AllocationWrites(m, size, PT.FirstFit(m.table, PT.PageCount(size), 0).value, Search(reading, m, PT.PageCount(size)).value.value);
    }
  }

  lemma AllocationWrites(m: Memory, size: u32, slot: nat, first: nat)
    requires m.minAddress % 4096 == 0 && |m.table| == PT.KERNEL_PAGE_TABLES_LEN
    requires first + PT.PageCount(size) <= BM.Capacity(m.words) && PT.FirstFit(m.table, PT.PageCount(size), 0) == Some(slot)
    ensures slot + PT.PageCount(size) < |m.table|
    ensures var table := PT.WithChain(m.table, slot, PT.PageCount(size), BlockAddress(m, first), PT.PTF_READ_WRITE);
      var m' := m.(table := table, words := BM.SetRange(m.words, first, PT.PageCount(size)));
      WroteSomewhere(m, m', size, PT.PointerTo(slot))
  {
    hide MarksSet, PB.LeastRoom, PB.MappedAt, PT.WithChain, BM.SetRange, BlockAddress;
    BlockAddressAligned(m, first);
    var n := PT.PageCount(size);
    assert n == size / 4096 + 1;
    PB.FirstFitIsLeastRoom(m.table, n);
    RangeMarks(m.words, first, n);
    PB.ChainIsMapped(m.table, slot, n, BlockAddress(m, first), PT.PTF_READ_WRITE);
    var table := PT.WithChain(m.table, slot, n, BlockAddress(m, first), PT.PTF_READ_WRITE);
    assert Wrote(m, m.(table := table, words := BM.SetRange(m.words, first, n)), size, PT.PointerTo(slot), slot, first);
  }

  lemma BlockAddressAligned(m: Memory, block: nat)
    requires m.minAddress % 4096 == 0
    ensures BlockAddress(m, block) == (m.minAddress + 4096 * block) % 0x1_0000_0000
    ensures BlockAddress(m, block) % 4096 == 0
  {
    BlockAddressIs(m, block);
    hide BlockAddress, PT.PageFrame;
    PT.PageFrameAligned(m.minAddress, block);
  }

  lemma BlockAddressIs(m: Memory, block: nat)
    ensures BlockAddress(m, block) == PT.PageFrame(m.minAddress, block) == (m.minAddress + 4096 * block) % 0x1_0000_0000
  {
  }

  /** That, with the first unmarked blocks there are. */
  ghost predicate Claimed(m: Memory, m': Memory, size: u32, pointer: nat, slot: nat, first: nat)
    requires Searched(m) <= 32 * |m.words|
  {
    LeastUnmarked(m.words, Searched(m), first, size / 4096 + 1) && Wrote(m, m', size, pointer, slot, first)
  }

  /** `kmalloc` succeeds exactly when there are size/4096 + 1 unmarked blocks in a row in the searched words
      and as many entries in a row in the page tables; then it marks the first such blocks and maps them,
      writable and for the kernel only, at the first such entries. */
  lemma KmallocIs(boot: seq<u32>, s: System, size: u32)
    requires Inv(boot, s)
    ensures Searched(s.mem) <= 32 * |s.mem.words|
    ensures match Step(AsDocumented, s, Malloc(size))
      case Wild => false
      case Panic => NoneUnmarked(s.mem.words, Searched(s.mem), size / 4096 + 1) || PB.NoRoom(s.mem.table, size / 4096 + 1)
      case Done((s', pointer)) =>
        exists slot: nat, first: nat :: Claimed(s.mem, s'.mem, size, pointer, slot, first)
  {
    var n := size / 4096 + 1;
    assert PT.PageCount(size) == n;
    SystemIsWellSized(boot, s);
    hide Inv, Step, NoneUnmarked, LeastUnmarked, MarksSet, PB.NoRoom, PB.LeastRoom, PB.MappedAt, BM.FirstRun, PT.FirstFit;
    MallocKeepsInv(boot, s, size);
    FirstRunIsLeast(s.mem.words, Limit(s.mem), n);
    PB.FirstFitIsLeastRoom(s.mem.table, n);
    var result := Step(AsDocumented, s, Malloc(size));
    if result.Done? {
      var (s', pointer) := result.value;
      StepKeepsBounds(AsDocumented, s, Malloc(size));
      var slot, run :| Allocated(s, s', size, pointer, slot, run);
      AllocationIsClaim(boot, s, s', size, pointer, slot, run);
      assert Claimed(s.mem, s'.mem, size, pointer, slot, run.first);
    }
  }

  lemma AllocationIsClaim(boot: seq<u32>, s: System, s': System, size: u32, pointer: nat, slot: nat, run: BlockRun)
    requires Inv(boot, s) && Allocated(s, s', size, pointer, slot, run) && SameBounds(s, s')
    ensures Searched(s.mem) <= 32 * |s.mem.words|
    ensures Claimed(s.mem, s'.mem, size, pointer, slot, run.first)
  {
    hide Inv, Limit, Searched, LeastUnmarked, MarksSet, PB.LeastRoom, PB.MappedAt, PT.WithChain, PT.Fits, BM.SetRange, BM.FreeRun, BlockAddress;
    FirstBlockAddress(boot, s, run);
    BlocksClaimed(boot, s, run);
    EntriesClaimed(boot, s, slot, run);
  }

  lemma BlocksClaimed(boot: seq<u32>, s: System, run: BlockRun)
    requires Inv(boot, s) && run.len > 0 && BM.FirstRun(s.mem.words, Limit(s.mem), run.len, 0) == Some(run.first)
    ensures Searched(s.mem) <= 32 * |s.mem.words| && run.first + run.len <= 32 * |s.mem.words|
    ensures LeastUnmarked(s.mem.words, Searched(s.mem), run.first, run.len)
    ensures MarksSet(s.mem.words, BM.SetRange(s.mem.words, run.first, run.len), run.first, run.len, true)
  {
    hide Inv, LeastUnmarked, MarksSet, BM.SetRange;
    FirstBlockAddress(boot, s, run);
    FirstRunIsLeast(s.mem.words, Limit(s.mem), run.len);
    RangeMarks(s.mem.words, run.first, run.len);
  }

  lemma EntriesClaimed(boot: seq<u32>, s: System, slot: nat, run: BlockRun)
    requires Inv(boot, s) && run.len > 0 && BM.FreeRun(s.mem.words, Limit(s.mem), run.first, run.len)
    requires PT.FirstFit(s.mem.table, run.len, 0) == Some(slot)
    ensures slot + run.len < |s.mem.table| && slot < 3072 && PT.PointerTo(slot) == 0xC000_0000 + 4096 * slot
    ensures PB.LeastRoom(s.mem.table, slot, run.len)
    ensures PB.MappedAt(s.mem.table, PT.WithChain(s.mem.table, slot, run.len, BlockAddress(s.mem, run.first), PT.PTF_READ_WRITE),
                        slot, run.len, (s.mem.minAddress + 4096 * run.first) % 0x1_0000_0000, 2)
  {
    hide Inv, Limit, PB.LeastRoom, PB.MappedAt, PT.WithChain, BM.FreeRun, BlockAddress;
    FirstBlockAddress(boot, s, run);
    PB.FirstFitIsLeastRoom(s.mem.table, run.len);
    PB.ChainIsMapped(s.mem.table, slot, run.len, BlockAddress(s.mem, run.first), PT.PTF_READ_WRITE);
  }

  lemma FirstBlockAddress(boot: seq<u32>, s: System, run: BlockRun)
    requires Inv(boot, s) && BM.FreeRun(s.mem.words, Limit(s.mem), run.first, run.len) && run.len > 0
    ensures WellSized(s.mem) && Searched(s.mem) == Limit(s.mem) <= 32 * |s.mem.words|
    ensures run.first + run.len <= 32 * |s.mem.words|
    ensures BlockAddress(s.mem, run.first) == (s.mem.minAddress + 4096 * run.first) % 0x1_0000_0000
    ensures BlockAddress(s.mem, run.first) % 4096 == 0
  {
    BlockAddressExact(s.mem, run.first);
  }

  // ----- kfree

  /** The entries from `slot` on up to the first end marker are `n`, and none is locked. */
  ghost predicate ChainLength(t: seq<u32>, slot: nat, n: nat) {
    && 0 < n && slot + n <= |t|
    && forall j | slot <= j < slot + n :: !Bit(t[j], 11) && (Bit(t[j], 10) <==> j == slot + n - 1)
  }

  /** kfree cleared the marks of the blocks that the n entries of the pointer map, and those entries. */
  ghost predicate GaveBack(m: Memory, m': Memory, pointer: u32, n: nat) {
    && 0xC000_0000 <= pointer && PB.SlotAt(pointer) < |m.table|
    && ChainLength(m.table, PB.SlotAt(pointer), n)
    && PB.ClearedAt(m.table, m'.table, PB.SlotAt(pointer), n)
    && BlocksGivenBack(m, m', PB.PageOf(m.table[PB.SlotAt(pointer)]), n)
    && m'.minAddress == m.minAddress && m'.maxAddress == m.maxAddress && m'.blockCount == m.blockCount
  }

  ghost predicate BlocksGivenBack(m: Memory, m': Memory, address: nat, n: nat) {
    && m.minAddress <= address && (address - m.minAddress) % 4096 == 0
    && MarksSet(m.words, m'.words, (address - m.minAddress) / 4096, n, false)
  }

  /** `kfree` of a live pointer always succeeds.  It finds the first block by the address in the entry of
      the pointer and the number of blocks by the end marker. */
  lemma KfreeIs(boot: seq<u32>, s: System, pointer: u32)
    requires Inv(boot, s) && Legal(s, Free(pointer))
    ensures match Step(AsDocumented, s, Free(pointer))
      case Done((s', count)) => GaveBack(s.mem, s'.mem, pointer, count)
      case _ => false
  {
    hide Inv, Step, Released, GaveBack, PT.SlotOf, PT.InKernelSpace;
    SystemIsWellSized(boot, s);
    FreeKeepsInv(boot, s, pointer);
    StepKeepsBounds(AsDocumented, s, Free(pointer));
    var (s', count) := Step(AsDocumented, s, Free(pointer)).value;
    ReleaseGivesBack(boot, s, s', pointer, count);
  }

  lemma ReleaseGivesBack(boot: seq<u32>, s: System, s': System, pointer: u32, count: nat)
    requires Inv(boot, s) && Released(s, s', pointer, count) && SameBounds(s, s')
    ensures GaveBack(s.mem, s'.mem, pointer, count)
  {
    hide Inv, MarksSet, PB.ClearedAt, ChainLength, PT.SlotOf, PT.InKernelSpace, PT.Cleared, BM.UnsetRange, PB.PageOf, PB.SlotAt;
    PB.SlotIs(pointer);
    var slot := PB.SlotAt(pointer);
    var run := s.heap[slot];
    AllocationDecodes(boot, s, slot);
    RangeMarks(s.mem.words, run.first, run.len);
    PB.ClearedChain(s.mem.table, slot, run.len);
  }

  lemma AllocationDecodes(boot: seq<u32>, s: System, slot: nat)
    requires Inv(boot, s) && slot in s.heap
    ensures slot + s.heap[slot].len <= |s.mem.table| && slot < |s.mem.table|
    ensures PB.PageOf(s.mem.table[slot]) == s.mem.minAddress + 4096 * s.heap[slot].first
    ensures ChainLength(s.mem.table, slot, s.heap[slot].len)
  {
    var run := s.heap[slot];
    InvParts(boot, s);
    PT.ChainInTable(s.mem.table, boot, s.live, slot);
    BlockAddressExact(s.mem, run.first);
    PT.FrameIs(s.mem.table[slot]);
    forall j | slot <= j < slot + run.len
      ensures !Bit(s.mem.table[j], 11) && (Bit(s.mem.table[j], 10) <==> j == slot + run.len - 1)
    {
      PT.ChainIsPresent(s.mem.table, slot, s.live[slot], j);
      PT.HasIsBit(s.mem.table[j]);
    }
  }

  // ----- mem_initialize

  /** The bookkeeping page is the one at `first`, the blocks start behind it, and none of them is marked. */
  ghost predicate SetUpAt(boot: seq<u32>, bytes: u32, m: Memory, first: u32, slot: nat) {
    && PB.LeastRoom(boot, slot, 2)
    && PB.MappedAt(boot, m.table, slot, 2, first, 2)
    && m.minAddress == (first + 4096) % 0x1_0000_0000
    && m.maxAddress == bytes
    && m.blockCount == (bytes - first) % 0x1_0000_0000 / 4096
    && NothingMarked(m.words)
  }

  ghost predicate NothingMarked(words: seq<u32>) {
    |words| == 1021 && forall b: nat | b < 32 * 1021 :: !Marked(words, b)
  }

  /** The first page behind the one that entry `highest` points at, which is the highest of all. */
  ghost predicate SetUp(boot: seq<u32>, bytes: u32, m: Memory, highest: nat, slot: nat) {
    PB.IsHighest(boot, highest) && SetUpAt(boot, bytes, m, (PB.PageOf(boot[highest]) + 4096) % 0x1_0000_0000, slot)
  }

  ghost predicate SetUpSomewhere(boot: seq<u32>, bytes: u32, m: Memory) {
    exists highest: nat, slot: nat :: SetUp(boot, bytes, m, highest, slot)
  }

  /** `mem_initialize` panics exactly when two entries in a row cannot be found. */
  lemma MemInitializeIs(boot: seq<u32>, bytes: u32)
    requires |boot| == 3072
    ensures match Initialize(boot, bytes)
      case Wild => false
      case Panic => PB.NoRoom(boot, 2)
      case Done(m) => !PB.NoRoom(boot, 2) && SetUpSomewhere(boot, bytes, m)
  {
    var highest := PB.HighestEntry(boot);
    PB.HighestFreeAddressIs(boot, highest);
    PB.FirstFitIsLeastRoom(boot, 2);
    ReadWriteIsPlain();
    HighestFreeIsAligned(boot);
    EmptyWords(seq(MAP_WORDS, _ => 0));
    hide PB.IsHighest, PB.PageOf, PB.LeastRoom, PB.NoRoom, PB.MappedAt, PT.WithChain, PT.Fits, PT.HighestFreeAddress, NothingMarked;
    var fit := PT.FirstFit(boot, 2, 0);
    if fit.Some? {
      PB.FitBounds(boot, fit.value, 2);
      PB.ChainIsMapped(boot, fit.value, 2, PT.HighestFreeAddress(boot), 2);
      assert SetUp(boot, bytes, Initialize(boot, bytes).value, highest, fit.value);
    }
  }

  lemma HighestFreeIsAligned(boot: seq<u32>)
    ensures PT.HighestFreeAddress(boot) % 4096 == 0
  {
    PT.HighestFrameIsHighest(boot);
  }

  lemma EmptyWords(words: seq<u32>)
    requires |words| == 1021 && forall i | 0 <= i < |words| :: words[i] == 0
    ensures NothingMarked(words)
  {
    forall b: nat | b < 32 * 1021
      ensures !Marked(words, b)
    {
      BitZero(b % 32);
    }
  }

  // ----- what every run maps

  /** Entry j maps a page, writable, for the kernel only, and ends its object exactly if `last`. */
  ghost predicate MapsWritable(t: seq<u32>, j: nat, address: nat, last: bool) {
    && j < |t|
    && t[j] == address + (if last then 0x403 else 0x003)
    && Bit(t[j], 0) && Bit(t[j], 1) && !Bit(t[j], 2) && !Bit(t[j], 11) && (Bit(t[j], 10) <==> last)
  }

  lemma LiveEntry(boot: seq<u32>, s: System, slot: nat, k: nat)
    requires Inv(boot, s) && slot in s.live && k < s.live[slot].len && s.live[slot].flags == PT.PTF_READ_WRITE
    ensures MapsWritable(s.mem.table, slot + k, (s.live[slot].physical + 4096 * k) % 0x1_0000_0000, k == s.live[slot].len - 1)
  {
    hide Inv, PT.ChainEntry, PT.PlainFlags, MapsWritable;
    LiveChain(boot, s, slot);
    EntryMapsWritable(s.mem.table, slot + k, s.live[slot].physical, k, s.live[slot].len);
  }

  lemma EntryMapsWritable(t: seq<u32>, j: nat, physical: u32, k: nat, n: nat)
    requires physical % 4096 == 0 && j < |t| && t[j] == PT.ChainEntry(physical, PT.PTF_READ_WRITE, k, n)
    ensures MapsWritable(t, j, (physical + 4096 * k) % 0x1_0000_0000, k == n - 1)
  {
    hide PT.ChainEntry, Bit;
    PB.WritableEntry(physical, k, n);
    WritableBits(physical, k, n);
  }

  lemma LiveChain(boot: seq<u32>, s: System, slot: nat)
    requires Inv(boot, s) && slot in s.live
    ensures PT.ChainAt(s.mem.table, slot, s.live[slot])
  {
    hide HeapMapped, HeaderMapped, HeapDisjoint, MapExact, PT.ChainAt;
  }

  lemma WritableBits(physical: u32, k: nat, n: nat)
    requires physical % 4096 == 0
    ensures var entry := PT.ChainEntry(physical, PT.PTF_READ_WRITE, k, n);
      Bit(entry, 0) && Bit(entry, 1) && !Bit(entry, 2) && !Bit(entry, 11) && (Bit(entry, 10) <==> k == n - 1)
  {
    hide Bit, PT.ChainEntry;
    WritableBit(physical, k, n, 0);
    WritableBit(physical, k, n, 1);
    WritableBit(physical, k, n, 2);
    WritableBit(physical, k, n, 10);
    WritableBit(physical, k, n, 11);
  }

  lemma WritableBit(physical: u32, k: nat, n: nat, b: nat)
    requires physical % 4096 == 0 && b < 12
    ensures Bit(PT.ChainEntry(physical, PT.PTF_READ_WRITE, k, n), b) <==> b == 0 || b == 1 || (b == 10 && k == n - 1)
  {
    hide Bit, PT.ChainEntry;
    PB.ChainEntryBits(physical, PT.PTF_READ_WRITE, k, n, b);
    PB.SingleBits(b);
  }

  /** The k-th entry of the allocation at `slot` maps its k-th block. */
  ghost predicate WritableBlock(s: System, slot: nat, k: nat) {
    && slot in s.heap
    && MapsWritable(s.mem.table, slot + k, s.mem.minAddress + 4096 * (s.heap[slot].first + k), k == s.heap[slot].len - 1)
  }

  /** In every state of every run, each entry of a live allocation maps the block it stands for, and the two
      entries of the bookkeeping page map the page below the first block and the first block; all of
      them are writable and none is accessible to users. */
  lemma RunMapsWritable(boot: seq<u32>, states: seq<System>, ops: seq<Op>, i: nat)
    requires IsRun(AsDocumented, states, ops) && Inv(boot, states[0]) && i < |states|
    ensures var s := states[i];
      && MapsWritable(s.mem.table, s.header, (s.mem.minAddress - 4096) % 0x1_0000_0000, false)
      && MapsWritable(s.mem.table, s.header + 1, s.mem.minAddress, true)
      && forall slot, k: nat | slot in s.heap && k < s.heap[slot].len :: WritableBlock(s, slot, k)
  {
    hide IsRun, Inv, MapsWritable;
    RunKeepsInv(boot, states, ops, i);
    var s := states[i];
    HeaderIsWritable(boot, s);
    forall slot, k: nat | slot in s.heap && k < s.heap[slot].len
      ensures WritableBlock(s, slot, k)
    {
      AllocationIsWritable(boot, s, slot, k);
    }
  }

  lemma HeaderIsWritable(boot: seq<u32>, s: System)
    requires Inv(boot, s)
    ensures MapsWritable(s.mem.table, s.header, (s.mem.minAddress - 4096) % 0x1_0000_0000, false)
    ensures MapsWritable(s.mem.table, s.header + 1, s.mem.minAddress, true)
  {
    hide MapsWritable, PT.Partitioned, MapExact, HeapMapped, HeapDisjoint;
    LiveEntry(boot, s, s.header, 0);
    LiveEntry(boot, s, s.header, 1);
    HeaderPages(s.mem.minAddress);
  }

  lemma HeaderPages(first: u32)
    ensures ((first - 4096) % 0x1_0000_0000 + 4096 * 0) % 0x1_0000_0000 == (first - 4096) % 0x1_0000_0000
    ensures ((first - 4096) % 0x1_0000_0000 + 4096 * 1) % 0x1_0000_0000 == first
  {
  }

  lemma AllocationIsWritable(boot: seq<u32>, s: System, slot: nat, k: nat)
    requires Inv(boot, s) && slot in s.heap && k < s.heap[slot].len
    ensures WritableBlock(s, slot, k)
  {
    AllocationMapping(boot, s, slot, k);
    hide Inv, MapsWritable;
    LiveEntry(boot, s, slot, k);
  }

  lemma AllocationMapping(boot: seq<u32>, s: System, slot: nat, k: nat)
    requires Inv(boot, s) && slot in s.heap && k < s.heap[slot].len
    ensures slot in s.live && s.live[slot].len == s.heap[slot].len && s.live[slot].flags == PT.PTF_READ_WRITE
    ensures (s.live[slot].physical + 4096 * k) % 0x1_0000_0000 == s.mem.minAddress + 4096 * (s.heap[slot].first + k)
  {
    hide PT.Partitioned, MapExact, HeapDisjoint;
    assert s.live[slot] == ChainOf(s.mem, s.heap[slot]);
    BlockFrames(s.mem, s.heap[slot], k);
  }

  /** On every run from `mem_initialize` the bookkeeping page lies above every page mapped at boot, unless the
      highest one was the last page of the address space. */
  lemma HeaderAboveBoot(boot: seq<u32>, bytes: u32, states: seq<System>, ops: seq<Op>, i: nat)
    requires PT.BootTable(boot) && Initialize(boot, bytes).Done?
    requires PT.HighestFreeAddress(boot) <= bytes <= 65535 * 1024
    requires IsRun(AsDocumented, states, ops) && states[0] == Initial(boot, bytes) && i < |states|
    ensures states[i].header < |states[i].mem.table|
    ensures (forall j | 0 <= j < |boot| :: PB.PageOf(boot[j]) < PB.PageOf(states[i].mem.table[states[i].header]))
            <==> forall j | 0 <= j < |boot| :: PB.PageOf(boot[j]) != 0xffff_f000
  {
    hide IsRun, Inv, Initial, Initialize, PT.HighestFreeAddress, PB.PageOf;
    var j := PB.HighestEntry(boot);
    PB.HighestFreeAddressIs(boot, j);
    HeaderEntryOfRun(boot, bytes, states, ops, i);
    var entry := states[i].mem.table[states[i].header];
    PageOfIsPage(boot[j]);
    HeaderPage(PB.PageOf(boot[j]), entry);
    Topmost(boot, j, PB.PageOf(entry));
  }

  lemma PageOfIsPage(entry: u32)
    ensures PB.PageOf(entry) < 0x1_0000_0000 && PB.PageOf(entry) % 4096 == 0
  {
  }

  lemma HeaderEntryOfRun(boot: seq<u32>, bytes: u32, states: seq<System>, ops: seq<Op>, i: nat)
    requires PT.BootTable(boot) && Initialize(boot, bytes).Done?
    requires PT.HighestFreeAddress(boot) <= bytes <= 65535 * 1024
    requires IsRun(AsDocumented, states, ops) && states[0] == Initial(boot, bytes) && i < |states|
    ensures states[i].header < |states[i].mem.table|
    ensures states[i].mem.table[states[i].header] ==
            (Wrap(PT.HighestFreeAddress(boot) + 4096) - 4096) % 0x1_0000_0000 + 3
  {
    hide IsRun, Inv, Initial, Initialize, PT.HighestFreeAddress;
    InitialInv(boot, bytes);
    InitialBounds(boot, bytes);
    RunKeepsInv(boot, states, ops, i);
    HeaderIsWritable(boot, states[i]);
  }

  lemma Topmost(t: seq<u32>, j: nat, bound: nat)
    requires PB.IsHighest(t, j)
    ensures (forall i | 0 <= i < |t| :: PB.PageOf(t[i]) < bound) <==> PB.PageOf(t[j]) < bound
    ensures (forall i | 0 <= i < |t| :: PB.PageOf(t[i]) != 0xffff_f000) <==> PB.PageOf(t[j]) != 0xffff_f000
  {
    assert forall i | 0 <= i < |t| :: PB.PageOf(t[i]) <= 0xffff_f000;
  }

  lemma HeaderPage(highest: nat, entry: u32)
    requires highest < 0x1_0000_0000 && highest % 4096 == 0
    requires var min := (highest + 4096) % 0x1_0000_0000;
      entry == ((min + 4096) % 0x1_0000_0000 - 4096) % 0x1_0000_0000 + 3
    ensures PB.PageOf(entry) == (highest + 4096) % 0x1_0000_0000
    ensures highest < PB.PageOf(entry) <==> highest != 0xffff_f000
  {
  }
}
