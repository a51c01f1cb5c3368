/** kernel/memory/memory.c as a state machine: what `mem_initialize`, `kmalloc` and `kfree` do to the
    page table and the block bitmap together, and what every run of them keeps.

    Two places of the source do not do what their header documents.  `Reading` chooses between the
    text as it is written and the documented behaviour; everything else is shared. */
module Heap {
  import opened Bits
  import opened Outcomes
  import opened Align
  import BM = Bitmap
  import PT = PageTable

  /** `AsWritten` searches windows that start at `i * 32 + (1 << j)` and subtracts the physical address
      from `min_address` in `kfree`.  `AsDocumented` returns a free run and inverts `kmalloc`. */
  datatype Reading = AsWritten | AsDocumented

  /** The globals: the kernel page table and the allocator's bookkeeping page. */
  datatype Memory = Memory(
    table: seq<u32>,
    words: seq<u32>,
    minAddress: u32,
    maxAddress: u32,
    blockCount: u32)

  /** `mem_map` fills the bookkeeping page behind its three header words. */
  const MAP_WORDS: nat := 1021

  /** Only whole words of the bitmap are searched. */
  function Limit(m: Memory): nat {
    32 * (m.blockCount / 32)
  }

  predicate WellSized(m: Memory) {
    |m.table| == PT.KERNEL_PAGE_TABLES_LEN && |m.words| == MAP_WORDS && Limit(m) <= BM.Capacity(m.words)
  }

  // ----- the operations

  /** The CMOS total above 1 MiB: `lowmem | highmem << 8`, in KiB. */
  function MemGetBytes(lowmem: nat, highmem: nat): (bytes: u32)
    requires lowmem < 0x100 && highmem < 0x100
    ensures bytes == lowmem * 1024 + highmem * 0x4_0000
    ensures bytes <= 65535 * 1024
  {
    Pow2Values();
    OrDisjoint(highmem * 0x100, lowmem, 8);
    OrCommutes(lowmem, highmem * 0x100);
    Or(lowmem, highmem * 0x100) * 1024
  }

  /** `mem_initialize` on a boot table: the first free page becomes the bookkeeping page. */
  function Initialize(boot: seq<u32>, bytes: u32): Outcome<Memory>
    requires |boot| == PT.KERNEL_PAGE_TABLES_LEN
  {
    var min := PT.HighestFreeAddress(boot);
    match PT.Page(boot, min, PAGE_SIZE, PT.PTF_READ_WRITE)
    case Panic => Panic
    case Wild => Wild
    case Done((table, _)) =>
      Done(Memory(table, seq(MAP_WORDS, _ => 0), Wrap(min + PAGE_SIZE), bytes, Wrap(bytes - min) / PAGE_SIZE))
  }

  function Search(reading: Reading, m: Memory, n: nat): (r: Outcome<Option<nat>>)
    requires WellSized(m)
    ensures r.Done? && r.value.Some? ==> r.value.value <= Limit(m)
  {
    if n == 1 || reading == AsDocumented then Done(BM.FirstRun(m.words, Limit(m), n, 0))
    else BM.FirstWindow(m.words, Limit(m), n, 0)
  }

  /** Whether the innermost loop of the range search accepts the free block c. */
  function Candidate(reading: Reading, words: seq<u32>, limit: nat, n: nat, c: nat): Outcome<bool>
    requires limit <= BM.Capacity(words)
  {
    match reading
    case AsDocumented => Done(BM.FreeRun(words, limit, c, n))
    case AsWritten => BM.Window(words, BM.WindowStart(c), n, 0, 0)
  }

  /** The range search from block `from` on. */
  function SearchFrom(reading: Reading, words: seq<u32>, limit: nat, n: nat, from: nat): Outcome<Option<nat>>
    requires limit <= BM.Capacity(words)
  {
    match reading
    case AsDocumented => Done(BM.FirstRun(words, limit, n, from))
    case AsWritten => BM.FirstWindow(words, limit, n, from)
  }

  lemma SearchSkips(reading: Reading, words: seq<u32>, limit: nat, n: nat, c: nat)
    requires limit <= BM.Capacity(words) && n > 0 && c < limit
    requires BM.Taken(words, c) || Candidate(reading, words, limit, n, c) == Done(false)
    ensures SearchFrom(reading, words, limit, n, c) == SearchFrom(reading, words, limit, n, c + 1)
  {
  }

  lemma SearchStops(reading: Reading, words: seq<u32>, limit: nat, n: nat, c: nat)
    requires limit <= BM.Capacity(words) && c < limit && !BM.Taken(words, c)
    requires Candidate(reading, words, limit, n, c) != Done(false)
    ensures SearchFrom(reading, words, limit, n, c) ==
            if Candidate(reading, words, limit, n, c) == Done(true) then Done(Some(c)) else Wild
  {
    WindowNeverPanics(words, BM.WindowStart(c), n, 0, 0);
  }

  lemma {:induction false} WindowNeverPanics(words: seq<u32>, start: nat, n: nat, count: nat, free: nat)
    ensures !BM.Window(words, start, n, count, free).Panic?
    decreases n + 1 - count
  {
    if count <= n && start + count < BM.Capacity(words) {
      WindowNeverPanics(words, start, n, count + 1, if BM.Taken(words, start + count) then free else free + 1);
    }
  }

  lemma SearchEnds(reading: Reading, words: seq<u32>, limit: nat, n: nat)
    requires limit <= BM.Capacity(words)
    ensures SearchFrom(reading, words, limit, n, limit) == Done(None)
  {
  }

  /** Skipping a word whose 32 blocks are all taken loses no candidate. */
  lemma SkipFullWord(reading: Reading, words: seq<u32>, limit: nat, n: nat, i: nat)
    requires limit <= BM.Capacity(words) && n > 0 && 32 * i + 32 <= limit && words[i] == WORD_MAX
    ensures SearchFrom(reading, words, limit, n, 32 * i) == SearchFrom(reading, words, limit, n, 32 * i + 32)
  {
    forall b | 32 * i <= b < 32 * i + 32
      ensures BM.Taken(words, b)
    {
      BM.FullWord(words, i, b);
    }
    BM.SkipTaken(words, limit, n, 32 * i, 32 * i + 32);
  }

  function BlockAddress(m: Memory, block: nat): u32 {
    PT.PageFrame(m.minAddress, block)
  }

  function Kmalloc(reading: Reading, m: Memory, size: u32): Outcome<(Memory, u32)>
    requires WellSized(m)
  {
    var n := PT.PageCount(size);
    match Search(reading, m, n)
    case Wild => Wild
    case Panic => Panic
    case Done(None) => Panic
    case Done(Some(first)) =>
      if first + n > BM.Capacity(m.words) then Wild
      else
        match PT.Page(m.table, BlockAddress(m, first), size, PT.PTF_READ_WRITE)
        case Panic => Panic
        case Wild => Wild
        case Done((table, pointer)) =>
          Done((m.(table := table, words := BM.SetRange(m.words, first, n)), pointer))
  }

  /** The block number `kfree` computes for a physical address. */
  function FreedFrame(reading: Reading, m: Memory, physical: u32): nat {
    match reading
    case AsWritten => Wrap(m.minAddress - physical) / PAGE_SIZE
    case AsDocumented => Wrap(physical - m.minAddress) / PAGE_SIZE
  }

  /** The state after `kfree` and the number of blocks it frees. */
  function Kfree(reading: Reading, m: Memory, pointer: u32): Outcome<(Memory, nat)>
    requires WellSized(m)
  {
    match PT.PhysicalAddress(m.table, pointer)
    case Wild => Wild
    case Panic => Panic
    case Done(physical) =>
      match PT.Unpage(m.table, pointer)
      case Wild => Wild
      case Panic => Panic
      case Done((table, count)) =>
        var frame := FreedFrame(reading, m, physical);
        if frame + count > BM.Capacity(m.words) then Wild
        else Done((m.(table := table, words := BM.UnsetRange(m.words, frame, count)), count))
  }

  // ----- the invariant

  /** n consecutive blocks from `first` on. */
  datatype BlockRun = BlockRun(first: nat, len: nat)

  /** The memory together with what only its history tells: which mappings are live, which of them
      `kmalloc` made and for which blocks, and where the bookkeeping page is mapped. */
  datatype System = System(mem: Memory, live: PT.Live, heap: map<nat, BlockRun>, header: nat)

  ghost predicate Holds(heap: map<nat, BlockRun>, slot: nat, block: nat) {
    slot in heap && BM.Within(block, heap[slot].first, heap[slot].len)
  }

  ghost predicate Held(heap: map<nat, BlockRun>, block: nat) {
    exists slot :: Holds(heap, slot, block)
  }

  ghost predicate Apart(a: BlockRun, b: BlockRun) {
    a.first + a.len <= b.first || b.first + b.len <= a.first
  }

  ghost predicate HeapDisjoint(heap: map<nat, BlockRun>) {
    forall s, s' | s in heap && s' in heap && s != s' :: Apart(heap[s], heap[s'])
  }

  /** A block is marked exactly when some live allocation holds it. */
  ghost predicate MapExact(words: seq<u32>, heap: map<nat, BlockRun>) {
    forall b: nat | b < BM.Capacity(words) :: BM.Taken(words, b) <==> Held(heap, b)
  }

  /** The chain `kmalloc` builds for a run of blocks. */
  function ChainOf(m: Memory, run: BlockRun): PT.Mapping {
    PT.Mapping(run.len, BlockAddress(m, run.first), PT.PTF_READ_WRITE)
  }

  ghost predicate HeapMapped(s: System) {
    forall slot | slot in s.heap ::
      && slot in s.live && s.live[slot] == ChainOf(s.mem, s.heap[slot])
      && s.heap[slot].first + s.heap[slot].len <= Limit(s.mem)
  }

  /** No block address wraps around. */
  ghost predicate BlocksBelowTop(m: Memory) {
    m.minAddress % PAGE_SIZE == 0 && m.minAddress + Limit(m) * PAGE_SIZE <= 0x1_0000_0000
  }

  /** The bookkeeping page is the page below the first block.  Asking `page` for exactly one page maps two. */
  ghost predicate HeaderMapped(s: System) {
    && s.header in s.live && s.header !in s.heap
    && s.live[s.header] == PT.Mapping(2, Wrap(s.mem.minAddress - PAGE_SIZE), PT.PTF_READ_WRITE)
  }

  ghost predicate Inv(boot: seq<u32>, s: System) {
    && WellSized(s.mem)
    && BlocksBelowTop(s.mem)
    && PT.Partitioned(s.mem.table, boot, s.live)
    && HeaderMapped(s)
    && HeapMapped(s)
    && HeapDisjoint(s.heap)
    && MapExact(s.mem.words, s.heap)
  }

  // ----- steps

  datatype Op =
    | Malloc(size: u32)
    | Free(pointer: u32)
    | Map(physical: u32, size: u32, flags: u32)
    | Unmap(pointer: u32)

  /** What the headers demand of a caller: `kfree` gets a pointer `kmalloc` returned and that is still
      live, `unpage` a live pointer of `page` or `page_unaligned`, and `page` plain flags. */
  ghost predicate Legal(s: System, op: Op) {
    match op
    case Malloc(_) => true
    case Free(pointer) => PT.InKernelSpace(pointer) && PT.SlotOf(pointer) in s.heap
    case Map(_, _, flags) => PT.PlainFlags(flags)
    case Unmap(pointer) =>
      PT.InKernelSpace(pointer) && PT.SlotOf(pointer) in s.live && PT.SlotOf(pointer) !in s.heap
      && PT.SlotOf(pointer) != s.header
  }

  /** One operation and the number it returns: a pointer, or a count of pages. */
  ghost function Step(reading: Reading, s: System, op: Op): Outcome<(System, nat)>
    requires WellSized(s.mem) && Legal(s, op)
  {
    match op
    case Malloc(size) => (
      match Kmalloc(reading, s.mem, size)
      case Done((mem, pointer)) =>
        var run := BlockRun(Search(reading, s.mem, PT.PageCount(size)).value.value, PT.PageCount(size));
        var slot := PT.FirstFit(s.mem.table, PT.PageCount(size), 0).value;
        Done((System(mem, s.live[slot := ChainOf(s.mem, run)], s.heap[slot := run], s.header), pointer))
      case Panic => Panic
      case Wild => Wild)
    case Free(pointer) => (
      match Kfree(reading, s.mem, pointer)
      case Done((mem, count)) =>
        Done((System(mem, s.live - {PT.SlotOf(pointer)}, s.heap - {PT.SlotOf(pointer)}, s.header), count))
      case Panic => Panic
      case Wild => Wild)
    case Map(physical, size, flags) => (
      match PT.PageUnaligned(s.mem.table, physical, size, flags)
      case Done((table, pointer)) =>
        var slot := PT.FirstFit(s.mem.table, PT.PageCount(size), 0).value;
        var mapping := PT.Mapping(PT.PageCount(size), PageAlign(physical), flags);
        Done((s.(mem := s.mem.(table := table), live := s.live[slot := mapping]), pointer))
      case Panic => Panic
      case Wild => Wild)
    case Unmap(pointer) => (
      match PT.Unpage(s.mem.table, pointer)
      case Done((table, count)) =>
        Done((s.(mem := s.mem.(table := table), live := s.live - {PT.SlotOf(pointer)}), count))
      case Panic => Panic
      case Wild => Wild)
  }

  /** Where blocks start, how many there are and where the header is. */
  ghost predicate SameBounds(s: System, s': System) {
    && s'.mem.minAddress == s.mem.minAddress && s'.mem.maxAddress == s.mem.maxAddress
    && s'.mem.blockCount == s.mem.blockCount && s'.header == s.header
  }

  lemma StepKeepsBounds(reading: Reading, s: System, op: Op)
    requires WellSized(s.mem) && Legal(s, op)
    ensures Step(reading, s, op).Done? ==> SameBounds(s, Step(reading, s, op).value.0)
  {
  }

  lemma InvParts(boot: seq<u32>, s: System)
    requires Inv(boot, s)
    ensures WellSized(s.mem) && BlocksBelowTop(s.mem) && PT.Partitioned(s.mem.table, boot, s.live)
    ensures HeaderMapped(s) && HeapMapped(s) && HeapDisjoint(s.heap) && MapExact(s.mem.words, s.heap)
  {
  }

  /** A legal operation that ends neither in a panic nor in a wild access leads from s to s'. */
  ghost predicate StepsTo(reading: Reading, s: System, op: Op, s': System) {
    && WellSized(s.mem) && Legal(s, op)
    && Step(reading, s, op).Done?
    && s' == Step(reading, s, op).value.0
  }

  /** A run: one state before each operation and one after the last. */
  ghost predicate IsRun(reading: Reading, states: seq<System>, ops: seq<Op>) {
    |states| == |ops| + 1 && forall i | 0 <= i < |ops| :: StepsTo(reading, states[i], ops[i], states[i + 1])
  }
}
