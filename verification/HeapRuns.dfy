/** What holds on every run of the memory manager from `mem_initialize` on. */
module HeapRuns {
  import opened Bits
  import opened Outcomes
  import opened Align
  import opened Heap
  import opened HeapInvariant
  import BM = Bitmap
  import PT = PageTable

  // ----- initialisation

  /** The system `mem_initialize` leaves: one mapping, of the bookkeeping page. */
  ghost function Initial(boot: seq<u32>, bytes: u32): System
    requires |boot| == PT.KERNEL_PAGE_TABLES_LEN && Initialize(boot, bytes).Done?
  {
    var slot := PT.FirstFit(boot, 2, 0).value;
    System(Initialize(boot, bytes).value,
           map[slot := PT.Mapping(2, PT.HighestFreeAddress(boot), PT.PTF_READ_WRITE)], map[], slot)
  }

  /** The searched part of the map fits in the bookkeeping page exactly when the memory size is not
      below the first free address (or so far below it that the unsigned difference wraps around to
      a small number); then no word index above 510 is ever searched. */
  lemma BookkeepingFits(boot: seq<u32>, bytes: u32)
    requires |boot| == PT.KERNEL_PAGE_TABLES_LEN && Initialize(boot, bytes).Done?
    requires bytes <= 65535 * 1024
    ensures var min, m := PT.HighestFreeAddress(boot), Initialize(boot, bytes).value;
      && (WellSized(m) <==> min <= bytes || min - bytes > 0xF804_0000)
      && (min <= bytes ==> m.blockCount < 16384 && Limit(m) <= 32 * 511)
  {
    BlockCountBound(PT.HighestFreeAddress(boot), bytes);
  }

  lemma BlockCountBound(min: u32, bytes: u32)
    requires bytes <= 65535 * 1024
    ensures 32 * (Wrap(bytes - min) / PAGE_SIZE / 32) <= 32 * MAP_WORDS <==> min <= bytes || min - bytes > 0xF804_0000
    ensures min <= bytes ==> Wrap(bytes - min) / PAGE_SIZE < 16384
    ensures min <= bytes ==> Wrap(bytes - min) / PAGE_SIZE * PAGE_SIZE <= bytes - min
  {
  }

  lemma EmptyMapIsFree(b: nat)
    requires b < 32 * MAP_WORDS
    ensures !BM.Taken(seq(MAP_WORDS, _ => 0), b)
  {
    BM.TakenIsBit(seq(MAP_WORDS, _ => 0), b);
    BitZero(b % 32);
  }

  lemma InitialInv(boot: seq<u32>, bytes: u32)
    requires PT.BootTable(boot) && Initialize(boot, bytes).Done?
    requires PT.HighestFreeAddress(boot) <= bytes <= 65535 * 1024
    ensures Inv(boot, Initial(boot, bytes))
  {
    hide PT.Partitioned, PT.HighestFreeAddress, PT.WithChain, PT.Fits, BM.Taken;
    var min := PT.HighestFreeAddress(boot);
    var s := Initial(boot, bytes);
    BookkeepingFits(boot, bytes);
    BlockCountBound(min, bytes);
    InitialTable(boot, s.header);
    forall b: nat | b < BM.Capacity(s.mem.words)
      ensures !BM.Taken(s.mem.words, b)
    {
      EmptyMapIsFree(b);
    }
  }

  lemma InitialTable(boot: seq<u32>, slot: nat)
    requires PT.BootTable(boot) && PT.Fits(boot, slot, 2)
    ensures var min := PT.HighestFreeAddress(boot);
      && min % PAGE_SIZE == 0
      && PT.Partitioned(PT.WithChain(boot, slot, 2, min, PT.PTF_READ_WRITE), boot,
                        map[slot := PT.Mapping(2, min, PT.PTF_READ_WRITE)])
  {
    var min := PT.HighestFreeAddress(boot);
    ReadWriteIsPlain();
    PT.HighestFrameIsHighest(boot);
    PT.BootIsPartitioned(boot);
    PT.PageKeepsPartition(boot, boot, map[], slot, PT.Mapping(2, min, PT.PTF_READ_WRITE));
    assert map[][slot := PT.Mapping(2, min, PT.PTF_READ_WRITE)] == map[slot := PT.Mapping(2, min, PT.PTF_READ_WRITE)];
  }

  // ----- runs

  /** Every state of a run satisfies the invariant. */
  lemma {:induction false} RunKeepsInv(boot: seq<u32>, states: seq<System>, ops: seq<Op>, i: nat)
    requires IsRun(AsDocumented, states, ops) && Inv(boot, states[0]) && i < |states|
    ensures Inv(boot, states[i]) && SameBounds(states[0], states[i])
  {
    hide Step, Legal, Inv;
    if i > 0 {
      RunKeepsInv(boot, states, ops, i - 1);
      var s, op := states[i - 1], ops[i - 1];
      assert StepsTo(AsDocumented, s, op, states[i]);
      StepKeepsInv(boot, s, op);
      StepKeepsBounds(AsDocumented, s, op);
    }
  }

  // ----- the bitmap and the page table agree

  /** The k-th page-table entry of an allocation points at its k-th block; only the last one is marked. */
  ghost predicate DecodesToBlock(s: System, slot: nat, k: nat) {
    && slot in s.heap
    && slot + k < |s.mem.table|
    && PT.FrameOf(s.mem.table[slot + k]) == s.mem.minAddress + (s.heap[slot].first + k) * PAGE_SIZE
    && (PT.Has(s.mem.table[slot + k], PT.PTF_AEON_END_OF_BLOCK) <==> k == s.heap[slot].len - 1)
  }

  /** In every state of a run the marked blocks are exactly the blocks of live allocations, no block
      belongs to two of them, and the page-table entries of an allocation decode to its blocks in order. */
  lemma BitmapMatchesPageTable(boot: seq<u32>, states: seq<System>, ops: seq<Op>, i: nat)
    requires IsRun(AsDocumented, states, ops) && Inv(boot, states[0]) && i < |states|
    ensures MapExact(states[i].mem.words, states[i].heap)
    ensures forall b, slot, slot' | Holds(states[i].heap, slot, b) && Holds(states[i].heap, slot', b) :: slot == slot'
    ensures forall slot, k: nat | slot in states[i].heap && k < states[i].heap[slot].len ::
      DecodesToBlock(states[i], slot, k)
  {
    var s := states[i];
    RunKeepsInv(boot, states, ops, i);
    forall b, slot, slot' | Holds(s.heap, slot, b) && Holds(s.heap, slot', b)
      ensures slot == slot'
    {
      OneHolder(s.heap, b, slot, slot');
    }
    forall slot, k: nat | slot in s.heap && k < s.heap[slot].len
      ensures DecodesToBlock(s, slot, k)
    {
      HeapEntry(boot, s, slot, k);
    }
  }

  lemma OneHolder(heap: map<nat, BlockRun>, b: nat, slot: nat, slot': nat)
    requires HeapDisjoint(heap) && Holds(heap, slot, b) && Holds(heap, slot', b)
    ensures slot == slot'
  {
  }

  lemma HeapEntry(boot: seq<u32>, s: System, slot: nat, k: nat)
    requires Inv(boot, s) && slot in s.heap && k < s.heap[slot].len
    ensures DecodesToBlock(s, slot, k)
  {
    var run := s.heap[slot];
    assert s.live[slot] == ChainOf(s.mem, run);
    PT.ChainInTable(s.mem.table, boot, s.live, slot);
    PT.LiveEntryFrame(s.mem.table, boot, s.live, slot, k);
    PT.ChainIsPresent(s.mem.table, slot, s.live[slot], slot + k);
    BlockFrames(s.mem, run, k);
  }

  lemma BlockFrames(m: Memory, run: BlockRun, k: nat)
    requires BlocksBelowTop(m) && run.first + run.len <= Limit(m) && k < run.len
    ensures PT.PageFrame(BlockAddress(m, run.first), k) == m.minAddress + (run.first + k) * PAGE_SIZE
  {
  }

  // ----- kfree finds what kmalloc took

  /** No operation of the run frees the allocation at `slot`. */
  ghost predicate Spares(ops: seq<Op>, slot: nat) {
    forall i | 0 <= i < |ops| :: !FreesSlot(ops[i], slot)
  }

  ghost predicate FreesSlot(op: Op, slot: nat) {
    op.Free? && PT.InKernelSpace(op.pointer) && PT.SlotOf(op.pointer) == slot
  }

  lemma {:induction false} RunKeepsAllocation(boot: seq<u32>, states: seq<System>, ops: seq<Op>, i: nat, slot: nat)
    requires IsRun(AsDocumented, states, ops) && Inv(boot, states[0]) && i < |states|
    requires slot in states[0].heap && Spares(ops, slot)
    ensures slot in states[i].heap && states[i].heap[slot] == states[0].heap[slot]
  {
    hide Step, Inv, FreesSlot;
    if i > 0 {
      RunKeepsAllocation(boot, states, ops, i - 1, slot);
      RunKeepsInv(boot, states, ops, i - 1);
      assert StepsTo(AsDocumented, states[i - 1], ops[i - 1], states[i]);
      StepKeepsAllocation(boot, states[i - 1], ops[i - 1], slot);
    }
  }

  lemma StepKeepsAllocation(boot: seq<u32>, s: System, op: Op, slot: nat)
    requires Inv(boot, s) && Legal(s, op) && Step(AsDocumented, s, op).Done? && slot in s.heap
    requires !FreesSlot(op, slot)
    ensures var s' := Step(AsDocumented, s, op).value.0;
      slot in s'.heap && s'.heap[slot] == s.heap[slot]
  {
    if op.Malloc? {
      MallocKeepsInv(boot, s, op.size);
    }
  }

  /** Whatever happens between a `kmalloc` and its `kfree`, the `kfree` succeeds, returns the number of
      blocks that `kmalloc` claimed, frees exactly those, and touches no other block, entry or allocation. */
  lemma FreeAfterAnyRun(boot: seq<u32>, s0: System, size: u32, pointer: u32, states: seq<System>, ops: seq<Op>)
    requires IsRun(AsDocumented, states, ops)
    requires Inv(boot, s0) && Step(AsDocumented, s0, Malloc(size)) == Done((states[0], pointer))
    requires PT.InKernelSpace(pointer) ==> Spares(ops, PT.SlotOf(pointer))
    ensures var s := states[|ops|];
      && WellSized(s.mem) && PT.InKernelSpace(pointer) && Legal(s, Free(pointer))
      && Step(AsDocumented, s, Free(pointer)).Done?
      && var (s', count) := Step(AsDocumented, s, Free(pointer)).value;
         FreedWhatWasTaken(s0, size, states[0], s, PT.SlotOf(pointer), s', count)
  {
    hide Step, Inv, IsRun, PT.InKernelSpace, PT.SlotOf, FreedWhatWasTaken, Spares;
    RunHasStates(states, ops);
    MallocKeepsInv(boot, s0, size);
    var s := states[|ops|];
    var slot, run :| Allocated(s0, states[0], size, pointer, slot, run);
    PT.SlotOfPointer(slot, 0);
    RunKeepsInv(boot, states, ops, |ops|);
    RunKeepsAllocation(boot, states, ops, |ops|, slot);
    InvParts(boot, s);
    FreeKeepsInv(boot, s, pointer);
    var (s', count) := Step(AsDocumented, s, Free(pointer)).value;
    AllocationReleased(s0, size, states[0], s, pointer, s', count, slot, run);
  }

  lemma RunHasStates(states: seq<System>, ops: seq<Op>)
    requires IsRun(AsDocumented, states, ops)
    ensures |states| == |ops| + 1
  {
  }

  lemma AllocationReleased(s0: System, size: u32, s1: System, s2: System, pointer: u32, s3: System, count: nat,
                           slot: nat, run: BlockRun)
    requires Allocated(s0, s1, size, pointer, slot, run) && Released(s2, s3, pointer, count)
    requires PT.SlotOf(pointer) == slot && s2.heap[slot] == run
    ensures FreedWhatWasTaken(s0, size, s1, s2, slot, s3, count)
  {
    hide PT.InKernelSpace, PT.SlotOf;
    BM.RangeLoops(s0.mem.words, run.first, run.len);
    BM.RangeLoops(s2.mem.words, run.first, run.len);
  }

  ghost predicate FreedWhatWasTaken(s0: System, size: u32, s1: System, s2: System, slot: nat, s3: System, count: nat) {
    && count == size / 4096 + 1
    && slot in s2.heap && s2.heap[slot].len == count
    && (var claimed := BM.Range(s2.heap[slot].first, count);
        && BM.TakenBlocks(s1.mem.words) == BM.TakenBlocks(s0.mem.words) + claimed
        && BM.TakenBlocks(s0.mem.words) !! claimed
        && BM.TakenBlocks(s3.mem.words) == BM.TakenBlocks(s2.mem.words) - claimed)
    && |s3.mem.table| == |s2.mem.table|
    && (forall j | 0 <= j < |s2.mem.table| ::
          s3.mem.table[j] == if slot <= j < slot + count then PT.FREE_ENTRY else s2.mem.table[j])
    && s3.heap == s2.heap - {slot}
  }

  /** `kfree(kmalloc(n))` restores bitmap and page table word for word. */
  lemma FreeUndoesMalloc(boot: seq<u32>, s0: System, size: u32, s1: System, pointer: u32)
    requires Inv(boot, s0) && Step(AsDocumented, s0, Malloc(size)) == Done((s1, pointer))
    ensures WellSized(s1.mem) && Legal(s1, Free(pointer))
    ensures Step(AsDocumented, s1, Free(pointer)) == Done((s0, PT.PageCount(size)))
  {
    hide Step, Inv, PT.InKernelSpace, PT.SlotOf;
    MallocKeepsInv(boot, s0, size);
    var slot, run :| Allocated(s0, s1, size, pointer, slot, run);
    PT.SlotOfPointer(slot, 0);
    InvParts(boot, s1);
    FreeKeepsInv(boot, s1, pointer);
    var s2 := Step(AsDocumented, s1, Free(pointer)).value.0;
    StepKeepsBounds(AsDocumented, s0, Malloc(size));
    StepKeepsBounds(AsDocumented, s1, Free(pointer));
    ReleaseUndoesAllocation(boot, s0, size, s1, pointer, s2, slot, run);
  }

  lemma ReleaseUndoesAllocation(boot: seq<u32>, s0: System, size: u32, s1: System, pointer: u32, s2: System,
                                slot: nat, run: BlockRun)
    requires Inv(boot, s0) && Allocated(s0, s1, size, pointer, slot, run) && PT.Fits(s0.mem.table, slot, run.len)
    requires Released(s1, s2, pointer, run.len) && PT.SlotOf(pointer) == slot
    requires SameBounds(s0, s1) && SameBounds(s1, s2)
    ensures s2 == s0
  {
    InvParts(boot, s0);
    hide Inv, PT.InKernelSpace, PT.SlotOf, PT.Partitioned, PT.WithChain, PT.Cleared, BM.UnsetRange, BM.SetRange, MapExact;
    WordsRestored(s0.mem.words, Limit(s0.mem), run);
    FitBecomesZero(boot, s0, slot, run);
    AddedAndRemoved(s0.live, slot, ChainOf(s0.mem, run));
    SlotIsNew(boot, s0, slot, run);
    AddedAndRemoved(s0.heap, slot, run);
  }

  lemma WordsRestored(words: seq<u32>, limit: nat, run: BlockRun)
    requires limit <= BM.Capacity(words) && BM.FreeRun(words, limit, run.first, run.len)
    ensures BM.UnsetRange(BM.SetRange(words, run.first, run.len), run.first, run.len) == words
  {
    BM.UnmarkUndoesMark(words, run.first, run.len);
  }

  lemma AddedAndRemoved<T>(m: map<nat, T>, slot: nat, value: T)
    requires slot !in m
    ensures m[slot := value] - {slot} == m
  {
  }

  lemma SlotIsNew(boot: seq<u32>, s: System, slot: nat, run: BlockRun)
    requires Inv(boot, s) && slot !in s.live
    ensures slot !in s.heap
  {
  }

  lemma FitBecomesZero(boot: seq<u32>, s: System, slot: nat, run: BlockRun)
    requires PT.Partitioned(s.mem.table, boot, s.live) && PT.Fits(s.mem.table, slot, run.len)
    ensures var t := PT.WithChain(s.mem.table, slot, run.len, BlockAddress(s.mem, run.first), PT.PTF_READ_WRITE);
      PT.Cleared(t, slot, run.len) == s.mem.table
  {
    PT.FitIsUnused(s.mem.table, boot, s.live, slot, run.len);
  }

  // ----- conservation

  ghost function HeldBlocks(heap: map<nat, BlockRun>, limit: nat): set<nat> {
    set b: nat | b < limit && Held(heap, b)
  }

  ghost function FreeBlocks(m: Memory): set<nat>
    requires WellSized(m)
  {
    set b: nat | b < Limit(m) && !BM.Taken(m.words, b)
  }

  /** The total length of a set of allocations. */
  ghost function Total(heap: map<nat, BlockRun>): nat
    decreases |heap|
  {
    if heap == map[] then 0
    else
      var slot :| slot in heap;
      heap[slot].len + Total(heap - {slot})
  }

  lemma {:induction false} RangeSize(first: nat, n: nat)
    ensures |BM.Range(first, n)| == n
    decreases n
  {
    if n == 0 {
      assert BM.Range(first, 0) == {};
    } else {
      RangeSize(first, n - 1);
      assert BM.Range(first, n) == BM.Range(first, n - 1) + {first + n - 1};
    }
  }

  lemma {:induction false} HeldBlocksCount(heap: map<nat, BlockRun>, limit: nat)
    requires HeapDisjoint(heap) && forall slot | slot in heap :: heap[slot].first + heap[slot].len <= limit
    ensures |HeldBlocks(heap, limit)| == Total(heap)
    decreases |heap|
  {
    if heap == map[] {
      assert HeldBlocks(heap, limit) == {};
    } else {
      var slot :| slot in heap && Total(heap) == heap[slot].len + Total(heap - {slot});
      var rest := heap - {slot};
      HeldBlocksCount(rest, limit);
      RangeSize(heap[slot].first, heap[slot].len);
      HeldBlocksSplit(heap, limit, slot);
    }
  }

  lemma HeldBlocksSplit(heap: map<nat, BlockRun>, limit: nat, slot: nat)
    requires HeapDisjoint(heap) && slot in heap && heap[slot].first + heap[slot].len <= limit
    ensures var own, rest := BM.Range(heap[slot].first, heap[slot].len), HeldBlocks(heap - {slot}, limit);
      own !! rest && HeldBlocks(heap, limit) == own + rest
  {
    var own, rest := BM.Range(heap[slot].first, heap[slot].len), HeldBlocks(heap - {slot}, limit);
    forall b
      ensures b in HeldBlocks(heap, limit) <==> b in own + rest
      ensures !(b in own && b in rest)
    {
      if b in HeldBlocks(heap, limit) {
        var other :| Holds(heap, other, b);
        assert other != slot ==> Holds(heap - {slot}, other, b);
      }
      if b in own {
        assert Holds(heap, slot, b);
      }
      if b in rest {
        var other :| Holds(heap - {slot}, other, b);
        assert Holds(heap, other, b) && Apart(heap[other], heap[slot]);
      }
    }
  }

  lemma HeldOrFree(boot: seq<u32>, s: System)
    requires Inv(boot, s)
    ensures |FreeBlocks(s.mem)| + Total(s.heap) == Limit(s.mem)
  {
    var limit := Limit(s.mem);
    HeldBlocksCount(s.heap, limit);
    RangeSize(0, limit);
    assert FreeBlocks(s.mem) + HeldBlocks(s.heap, limit) == BM.Range(0, limit);
  }

  /** In every state of a run, the free blocks and the lengths of the live allocations add up to the
      number of blocks there were at the start. */
  lemma BlocksConserved(boot: seq<u32>, states: seq<System>, ops: seq<Op>, i: nat)
    requires IsRun(AsDocumented, states, ops) && Inv(boot, states[0]) && i < |states|
    ensures WellSized(states[i].mem)
    ensures |FreeBlocks(states[i].mem)| + Total(states[i].heap) == Limit(states[0].mem)
  {
    hide Step, Inv, IsRun;
    RunKeepsInv(boot, states, ops, i);
    InvParts(boot, states[i]);
    HeldOrFree(boot, states[i]);
  }

  // ----- where the frames are

  /** The k-th frame of the allocation at `slot` lies above every frame mapped at boot and above the
      bookkeeping frame, and ends at or below 1 MiB + the memory size. */
  ghost predicate FrameIsSafe(boot: seq<u32>, bytes: u32, s: System, slot: nat, k: nat) {
    && slot + k < |s.mem.table| && s.header < |s.mem.table|
    && var frame := PT.FrameOf(s.mem.table[slot + k]);
      && (forall j | 0 <= j < |boot| :: PT.FrameOf(boot[j]) < frame)
      && PT.FrameOf(s.mem.table[s.header]) < frame
      && frame + PAGE_SIZE <= 0x10_0000 + bytes
  }

  /** Every frame `kmalloc` hands out on a run from `mem_initialize` is safe. */
  lemma HeapFramesAreSafe(boot: seq<u32>, bytes: u32, states: seq<System>, ops: seq<Op>, i: nat, slot: nat, k: nat)
    requires PT.BootTable(boot) && Initialize(boot, bytes).Done?
    requires PT.HighestFrame(boot) + PAGE_SIZE <= bytes <= 65535 * 1024
    requires IsRun(AsDocumented, states, ops) && states[0] == Initial(boot, bytes) && i < |states|
    requires slot in states[i].heap && k < states[i].heap[slot].len
    ensures FrameIsSafe(boot, bytes, states[i], slot, k)
  {
    hide IsRun, Inv, Initial, Initialize, FrameIsSafe;
    InitialInv(boot, bytes);
    InitialBounds(boot, bytes);
    RunKeepsInv(boot, states, ops, i);
    FrameIsSafeInState(boot, bytes, states[i], slot, k);
  }

  lemma FrameIsSafeInState(boot: seq<u32>, bytes: u32, s: System, slot: nat, k: nat)
    requires PT.HighestFrame(boot) + PAGE_SIZE <= bytes <= 65535 * 1024
    requires s.mem.minAddress == Wrap(PT.HighestFreeAddress(boot) + PAGE_SIZE)
    requires s.mem.blockCount == Wrap(bytes - PT.HighestFreeAddress(boot)) / PAGE_SIZE
    requires Inv(boot, s) && slot in s.heap && k < s.heap[slot].len
    ensures FrameIsSafe(boot, bytes, s, slot, k)
  {
    hide Inv, PT.Partitioned, PT.HighestFrame, PT.FrameOf, MapExact;
    InvParts(boot, s);
    HeapEntry(boot, s, slot, k);
    HeaderEntries(boot, s);
    PT.HighestFrameIsHighest(boot);
    FrameArithmetic(PT.HighestFrame(boot), bytes, s.heap[slot].first + k);
  }

  /** The numbers behind it: the first block starts two pages above the highest boot frame. */
  lemma FrameArithmetic(highest: u32, bytes: u32, block: nat)
    requires highest + PAGE_SIZE <= bytes <= 65535 * 1024
    requires block < 32 * (Wrap(bytes - Wrap(highest + PAGE_SIZE)) / PAGE_SIZE / 32)
    ensures var first := Wrap(Wrap(highest + PAGE_SIZE) + PAGE_SIZE); var frame := first + block * PAGE_SIZE;
      && Wrap(first - PAGE_SIZE) == highest + PAGE_SIZE
      && highest + PAGE_SIZE < frame
      && frame + PAGE_SIZE <= bytes + PAGE_SIZE
  {
    var min: u32 := highest + PAGE_SIZE;
    SmallIsUnwrapped(min);
    SmallIsUnwrapped(min + PAGE_SIZE);
    BlockCountBound(min, bytes);
    BlocksBelow(Wrap(bytes - min) / PAGE_SIZE, block);
  }

  lemma SmallIsUnwrapped(n: int)
    ensures 0 <= n < 0x1_0000_0000 ==> Wrap(n) == n
  {
  }

  lemma BlocksBelow(count: nat, block: nat)
    requires block < 32 * (count / 32)
    ensures block + 1 <= count
  {
  }

  lemma InitialBounds(boot: seq<u32>, bytes: u32)
    requires |boot| == PT.KERNEL_PAGE_TABLES_LEN && Initialize(boot, bytes).Done?
    ensures var min, m := PT.HighestFreeAddress(boot), Initial(boot, bytes).mem;
      m.minAddress == Wrap(min + PAGE_SIZE) && m.blockCount == Wrap(bytes - min) / PAGE_SIZE
  {
  }

  lemma HeaderEntries(boot: seq<u32>, s: System)
    requires Inv(boot, s)
    ensures s.header + 1 < |s.mem.table|
    ensures PT.FrameOf(s.mem.table[s.header]) == Wrap(s.mem.minAddress - PAGE_SIZE)
    ensures PT.FrameOf(s.mem.table[s.header + 1]) == s.mem.minAddress
  {
    hide Inv, PT.Partitioned, PT.FrameOf, PT.PageFrame, HeapMapped, MapExact;
    InvParts(boot, s);
    HeaderFrames(s.mem.minAddress);
    PT.LiveEntryFrame(s.mem.table, boot, s.live, s.header, 0);
    PT.LiveEntryFrame(s.mem.table, boot, s.live, s.header, 1);
  }

  lemma HeaderFrames(first: u32)
    ensures PT.PageFrame(Wrap(first - PAGE_SIZE), 0) == Wrap(first - PAGE_SIZE)
    ensures PT.PageFrame(Wrap(first - PAGE_SIZE), 1) == first
  {
  }

  /** Asking `page` for exactly one page maps two: the second slot of the bookkeeping mapping is an
      alias of block 0, on every run. */
  lemma HeaderAliasesFirstBlock(boot: seq<u32>, states: seq<System>, ops: seq<Op>, i: nat)
    requires IsRun(AsDocumented, states, ops) && Inv(boot, states[0]) && i < |states|
    ensures var s := states[i];
      s.header + 1 < |s.mem.table| && PT.FrameOf(s.mem.table[s.header + 1]) == BlockAddress(s.mem, 0)
  {
    RunKeepsInv(boot, states, ops, i);
    HeaderEntries(boot, states[i]);
    PT.NextFrame(states[i].mem.minAddress, 0);
  }
}
