/** Every step of the memory manager keeps the joint invariant of page table and bitmap. */
module HeapInvariant {
  import opened Bits
  import opened Outcomes
  import opened Align
  import opened Heap
  import BM = Bitmap
  import PT = PageTable
  import PB = PageBits

  lemma BlockAddressExact(m: Memory, block: nat)
    requires BlocksBelowTop(m) && block < Limit(m)
    ensures BlockAddress(m, block) == m.minAddress + block * PAGE_SIZE
    ensures BlockAddress(m, block) % PAGE_SIZE == 0
    ensures FreedFrame(AsDocumented, m, BlockAddress(m, block)) == block
  {
  }

  lemma ReadWriteIsPlain()
    ensures PT.PlainFlags(PT.PTF_READ_WRITE) && !PT.Has(PT.PTF_READ_WRITE, PT.PTF_USER)
  {
  }

  // ----- kmalloc

  lemma HeldIsTaken(s: System, slot: nat, b: nat)
    requires WellSized(s.mem) && HeapMapped(s) && MapExact(s.mem.words, s.heap) && Holds(s.heap, slot, b)
    ensures b < Limit(s.mem) && BM.Taken(s.mem.words, b)
  {
  }

  /** A free run shares no block with any live allocation. */
  lemma FreeRunIsApart(s: System, first: nat, n: nat, slot: nat)
    requires WellSized(s.mem) && HeapMapped(s) && MapExact(s.mem.words, s.heap)
    requires BM.FreeRun(s.mem.words, Limit(s.mem), first, n) && n > 0 && slot in s.heap && s.heap[slot].len > 0
    ensures Apart(s.heap[slot], BlockRun(first, n))
  {
    var run := s.heap[slot];
    var b := if run.first > first then run.first else first;
    if !Apart(run, BlockRun(first, n)) {
      HeldIsTaken(s, slot, b);
    }
  }

  lemma MarkingKeepsMapExact(words: seq<u32>, heap: map<nat, BlockRun>, slot: nat, run: BlockRun)
    requires MapExact(words, heap) && slot !in heap && run.first + run.len <= BM.Capacity(words)
    ensures MapExact(BM.SetRange(words, run.first, run.len), heap[slot := run])
  {
    var words', heap' := BM.SetRange(words, run.first, run.len), heap[slot := run];
    forall b: nat | b < BM.Capacity(words')
      ensures BM.Taken(words', b) <==> Held(heap', b)
    {
      BM.SetRangeTaken(words, run.first, run.len, b);
      if BM.Within(b, run.first, run.len) {
        assert Holds(heap', slot, b);
      } else if BM.Taken(words, b) {
        var s :| Holds(heap, s, b);
        assert Holds(heap', s, b);
      } else if s :| Holds(heap', s, b) {
        assert Holds(heap, s, b);
      }
    }
  }

  /** `kmalloc` never leaves the map, takes the least free run and the least free slots, and keeps the
      invariant with exactly one allocation more. */
  lemma MallocKeepsInv(boot: seq<u32>, s: System, size: u32)
    requires Inv(boot, s)
    ensures match Step(AsDocumented, s, Malloc(size))
      case Wild => false
      case Panic =>
        BM.FirstRun(s.mem.words, Limit(s.mem), PT.PageCount(size), 0).None?
        || PT.FirstFit(s.mem.table, PT.PageCount(size), 0).None?
      case Done((s', pointer)) =>
        Inv(boot, s') && exists slot, run :: Allocated(s, s', size, pointer, slot, run)
  {
    ReadWriteIsPlain();
    var n := PT.PageCount(size);
    var found := BM.FirstRun(s.mem.words, Limit(s.mem), n, 0);
    var fit := PT.FirstFit(s.mem.table, n, 0);
    if found.Some? && fit.Some? {
      var run, slot := BlockRun(found.value, n), fit.value;
      MallocPieces(boot, s, slot, run);
      assert Allocated(s, Step(AsDocumented, s, Malloc(size)).value.0, size, PT.PointerTo(slot), slot, run);
    }
  }

  /** What a successful `kmalloc` did: the least free run and the least free slots are now one allocation. */
  ghost predicate Allocated(s: System, s': System, size: u32, pointer: nat, slot: nat, run: BlockRun) {
    && run.len == PT.PageCount(size)
    && WellSized(s.mem)
    && BM.FreeRun(s.mem.words, Limit(s.mem), run.first, run.len)
    && BM.FirstRun(s.mem.words, Limit(s.mem), run.len, 0) == Some(run.first)
    && PT.FirstFit(s.mem.table, run.len, 0) == Some(slot)
    && slot !in s.live && slot < PT.KERNEL_PAGE_TABLES_LEN && PT.Fits(s.mem.table, slot, run.len)
    && pointer == PT.PointerTo(slot)
    && s'.heap == s.heap[slot := run]
    && s'.live == s.live[slot := ChainOf(s.mem, run)]
    && s'.mem.words == BM.SetRange(s.mem.words, run.first, run.len)
    && slot + run.len <= |s.mem.table|
    && s'.mem.table == PT.WithChain(s.mem.table, slot, run.len, BlockAddress(s.mem, run.first), PT.PTF_READ_WRITE)
  }

  lemma MallocPieces(boot: seq<u32>, s: System, slot: nat, run: BlockRun)
    requires Inv(boot, s) && run.len > 0
    requires BM.FreeRun(s.mem.words, Limit(s.mem), run.first, run.len)
    requires PT.Fits(s.mem.table, slot, run.len)
    ensures slot !in s.live
    ensures var table := PT.WithChain(s.mem.table, slot, run.len, BlockAddress(s.mem, run.first), PT.PTF_READ_WRITE);
      var mem := s.mem.(table := table, words := BM.SetRange(s.mem.words, run.first, run.len));
      Inv(boot, System(mem, s.live[slot := ChainOf(s.mem, run)], s.heap[slot := run], s.header))
  {
    ReadWriteIsPlain();
    BlockAddressExact(s.mem, run.first);
    PT.PageKeepsPartition(s.mem.table, boot, s.live, slot, ChainOf(s.mem, run));
    MarkingKeepsMapExact(s.mem.words, s.heap, slot, run);
    forall other | other in s.heap
      ensures Apart(s.heap[other], run)
    {
      assert PT.ChainAt(s.mem.table, other, s.live[other]);
      FreeRunIsApart(s, run.first, run.len, other);
    }
  }

  // ----- kfree

  lemma UnmarkingKeepsMapExact(words: seq<u32>, heap: map<nat, BlockRun>, slot: nat)
    requires MapExact(words, heap) && HeapDisjoint(heap) && slot in heap
    requires heap[slot].first + heap[slot].len <= BM.Capacity(words)
    ensures MapExact(BM.UnsetRange(words, heap[slot].first, heap[slot].len), heap - {slot})
  {
    var run := heap[slot];
    var words', heap' := BM.UnsetRange(words, run.first, run.len), heap - {slot};
    forall b: nat | b < BM.Capacity(words')
      ensures BM.Taken(words', b) <==> Held(heap', b)
    {
      BM.UnsetRangeTaken(words, run.first, run.len, b);
      if s :| Holds(heap', s, b) {
        assert Holds(heap, s, b);
        assert Apart(heap[s], run);
      }
      if BM.Taken(words', b) {
        var s :| Holds(heap, s, b);
        assert Holds(heap', s, b);
      }
    }
  }

  /** What `kfree` did: it released exactly the blocks and the entries of one allocation. */
  ghost predicate Released(s: System, s': System, pointer: u32, count: nat) {
    && PT.InKernelSpace(pointer) && PT.SlotOf(pointer) in s.heap
    && var slot := PT.SlotOf(pointer);
      var run := s.heap[slot];
      && count == run.len
      && run.first + run.len <= BM.Capacity(s.mem.words) && slot + run.len <= |s.mem.table|
      && s'.mem.words == BM.UnsetRange(s.mem.words, run.first, run.len)
      && s'.mem.table == PT.Cleared(s.mem.table, slot, run.len)
      && s'.heap == s.heap - {slot} && s'.live == s.live - {slot}
  }

  /** `kfree` of a live pointer always succeeds, frees what its `kmalloc` took, and keeps the invariant. */
  lemma FreeKeepsInv(boot: seq<u32>, s: System, pointer: u32)
    requires Inv(boot, s) && Legal(s, Free(pointer))
    ensures match Step(AsDocumented, s, Free(pointer))
      case Done((s', count)) => Inv(boot, s') && Released(s, s', pointer, count)
      case _ => false
  {
    PT.UnpageKeepsPartition(s.mem.table, boot, s.live, pointer);
    FreePieces(boot, s, PT.SlotOf(pointer));
  }

  lemma FreePieces(boot: seq<u32>, s: System, slot: nat)
    requires Inv(boot, s) && slot in s.heap
    requires slot + s.heap[slot].len <= |s.mem.table|
    requires PT.Partitioned(PT.Cleared(s.mem.table, slot, s.heap[slot].len), boot, s.live - {slot})
    ensures s.heap[slot].first < Limit(s.mem)
    ensures FreedFrame(AsDocumented, s.mem, s.live[slot].physical) == s.heap[slot].first
    ensures var run := s.heap[slot];
      var mem := s.mem.(table := PT.Cleared(s.mem.table, slot, run.len),
                        words := BM.UnsetRange(s.mem.words, run.first, run.len));
      Inv(boot, System(mem, s.live - {slot}, s.heap - {slot}, s.header))
  {
    var run := s.heap[slot];
    assert s.live[slot] == ChainOf(s.mem, run);
    assert PT.ChainAt(s.mem.table, slot, s.live[slot]);
    BlockAddressExact(s.mem, run.first);
    UnmarkingKeepsMapExact(s.mem.words, s.heap, slot);
  }

  // ----- page and unpage by other callers

  /** What a successful `page_unaligned` did: the least room is now one mapping of the page `physical`
      lies in, and the pointer is that of the very byte. */
  ghost predicate Mapped(s: System, s': System, physical: u32, size: u32, flags: u32, pointer: nat, slot: nat) {
    && !Bit(flags, 2)
    && slot !in s.live
    && pointer == 0xC000_0000 + 4096 * slot + physical % 4096
    && s'.live == s.live[slot := PT.Mapping(size / 4096 + 1, physical - physical % 4096, flags)]
    && PB.LeastRoom(s.mem.table, slot, size / 4096 + 1)
    && PB.MappedAt(s.mem.table, s'.mem.table, slot, size / 4096 + 1, physical - physical % 4096, flags)
  }

  /** `page_unaligned` succeeds exactly when it is not asked for user space and there is room; then it
      adds one mapping, touches no block and keeps the invariant. */
  lemma MapKeepsInv(boot: seq<u32>, s: System, physical: u32, size: u32, flags: u32)
    requires Inv(boot, s) && PT.PlainFlags(flags)
    ensures match Step(AsDocumented, s, Map(physical, size, flags))
      case Wild => false
      case Panic => Bit(flags, 2) || PB.NoRoom(s.mem.table, size / 4096 + 1)
      case Done((s', pointer)) =>
        && Inv(boot, s') && s'.heap == s.heap && s'.mem.words == s.mem.words
        && exists slot: nat :: Mapped(s, s', physical, size, flags, pointer, slot)
  {
    hide Inv, Step, WithMapping, Mapped, PT.FirstFit, PB.NoRoom, PB.LeastRoom;
    SystemIsWellSized(boot, s);
    MapStep(s, physical, size, flags);
    PB.FirstFitIsLeastRoom(s.mem.table, size / 4096 + 1);
    var fit := PT.FirstFit(s.mem.table, size / 4096 + 1, 0);
    if fit.Some? && !Bit(flags, 2) {
      MapSucceeds(boot, s, physical, size, flags, fit.value);
    }
  }

  lemma SystemIsWellSized(boot: seq<u32>, s: System)
    requires Inv(boot, s)
    ensures WellSized(s.mem)
  {
  }

  lemma MapSucceeds(boot: seq<u32>, s: System, physical: u32, size: u32, flags: u32, slot: nat)
    requires Inv(boot, s) && PT.PlainFlags(flags) && !Bit(flags, 2) && PB.LeastRoom(s.mem.table, slot, size / 4096 + 1)
    ensures slot + (size / 4096 + 1) < |s.mem.table|
    ensures var s' := WithMapping(s, slot, PT.Mapping(size / 4096 + 1, physical - physical % 4096, flags));
      && Inv(boot, s') && s'.heap == s.heap && s'.mem.words == s.mem.words
      && Mapped(s, s', physical, size, flags, 0xC000_0000 + 4096 * slot + physical % 4096, slot)
  {
    hide Inv, WithMapping, PB.MappedAt, PT.Fits, PT.PlainFlags;
    var m := PT.Mapping(size / 4096 + 1, physical - physical % 4096, flags);
    PB.RoomIsFit(s.mem.table, slot, m.len);
    MapPieces(boot, s, slot, m);
    MapParts(s, slot, m);
  }

  /** The system after `page` gave out the slots from `slot` on to m. */
  ghost function WithMapping(s: System, slot: nat, m: PT.Mapping): System
    requires slot + m.len <= |s.mem.table|
  {
    var table := PT.WithChain(s.mem.table, slot, m.len, m.physical, m.flags);
    s.(mem := s.mem.(table := table), live := s.live[slot := m])
  }

  lemma MapStep(s: System, physical: u32, size: u32, flags: u32)
    requires WellSized(s.mem) && PT.PlainFlags(flags)
    ensures var n := size / 4096 + 1;
      match PT.FirstFit(s.mem.table, n, 0)
      case Some(slot) =>
        slot + n < |s.mem.table|
        && Step(AsDocumented, s, Map(physical, size, flags)) ==
           if Bit(flags, 2) then Panic
           else Done((WithMapping(s, slot, PT.Mapping(n, physical - physical % 4096, flags)),
                      0xC000_0000 + 4096 * slot + physical % 4096))
      case None => Step(AsDocumented, s, Map(physical, size, flags)) == Panic
  {
    assert PT.PageCount(size) == size / 4096 + 1;
    PageAlignIs(physical);
    PT.HasIsBit(flags);
    hide PT.Has, PT.WithChain, PageAlign;
    var fit := PT.FirstFit(s.mem.table, size / 4096 + 1, 0);
    if fit.Some? {
      PB.SlotBytes(fit.value, physical % 4096);
    }
  }

  lemma MapParts(s: System, slot: nat, m: PT.Mapping)
    requires slot + m.len <= |s.mem.table| && m.physical % 4096 == 0
    ensures var s' := WithMapping(s, slot, m);
      && s'.heap == s.heap && s'.mem.words == s.mem.words && s'.live == s.live[slot := m]
      && PB.MappedAt(s.mem.table, s'.mem.table, slot, m.len, m.physical, m.flags)
  {
    PB.ChainIsMapped(s.mem.table, slot, m.len, m.physical, m.flags);
  }

  lemma MapPieces(boot: seq<u32>, s: System, slot: nat, m: PT.Mapping)
    requires Inv(boot, s) && PT.Fits(s.mem.table, slot, m.len) && m.len > 0
    requires m.physical % PAGE_SIZE == 0 && PT.PlainFlags(m.flags)
    ensures slot !in s.live && slot + m.len < |s.mem.table|
    ensures Inv(boot, WithMapping(s, slot, m))
  {
    PT.PageKeepsPartition(s.mem.table, boot, s.live, slot, m);
  }

  /** `unpage` of any pointer into the first page of a live mapping succeeds, clears exactly the entries of
      that mapping, touches no block and keeps the invariant. */
  lemma UnmapKeepsInv(boot: seq<u32>, s: System, pointer: u32)
    requires Inv(boot, s) && Legal(s, Unmap(pointer))
    ensures match Step(AsDocumented, s, Unmap(pointer))
      case Done((s', count)) =>
        && Inv(boot, s') && s'.heap == s.heap && s'.mem.words == s.mem.words
        && var slot := PB.SlotAt(pointer);
          && slot in s.live && count == s.live[slot].len && s'.live == s.live - {slot}
          && PB.ClearedAt(s.mem.table, s'.mem.table, slot, count)
      case _ => false
  {
    PB.SlotIs(pointer);
    PT.UnpageKeepsPartition(s.mem.table, boot, s.live, pointer);
    UnmapPieces(boot, s, PT.SlotOf(pointer));
    PB.ClearedChain(s.mem.table, PT.SlotOf(pointer), s.live[PT.SlotOf(pointer)].len);
  }

  lemma UnmapPieces(boot: seq<u32>, s: System, slot: nat)
    requires Inv(boot, s) && slot in s.live && slot !in s.heap && slot != s.header
    requires slot + s.live[slot].len <= |s.mem.table|
    requires PT.Partitioned(PT.Cleared(s.mem.table, slot, s.live[slot].len), boot, s.live - {slot})
    ensures var mem := s.mem.(table := PT.Cleared(s.mem.table, slot, s.live[slot].len));
      Inv(boot, s.(mem := mem, live := s.live - {slot}))
  {
  }

  /** One legal step of any kind keeps the invariant and never strays outside table or map. */
  lemma StepKeepsInv(boot: seq<u32>, s: System, op: Op)
    requires Inv(boot, s) && Legal(s, op)
    ensures match Step(AsDocumented, s, op)
      case Wild => false
      case Panic => op.Malloc? || op.Map?
      case Done((s', _)) => Inv(boot, s')
  {
    match op
    case Malloc(size) => MallocKeepsInv(boot, s, size);
    case Free(pointer) => FreeKeepsInv(boot, s, pointer);
    case Map(physical, size, flags) => MapKeepsInv(boot, s, physical, size, flags);
    case Unmap(pointer) => UnmapKeepsInv(boot, s, pointer);
  }
}
