/** Where the text of kernel/memory/memory.c parts from what its header documents, and exactly when it
    does not. */
module HeapAsWritten {
  import opened Bits
  import opened Outcomes
  import opened Align
  import opened Heap
  import opened HeapInvariant
  import opened HeapRuns
  import BM = Bitmap
  import PT = PageTable

  // ----- kfree

  lemma ReversedFrame(m: Memory, block: nat)
    requires BlocksBelowTop(m) && block < Limit(m) <= BM.Capacity(m.words) && |m.words| == MAP_WORDS
    ensures FreedFrame(AsWritten, m, BlockAddress(m, block)) == if block == 0 then 0 else 0x10_0000 - block
    ensures block != 0 ==> FreedFrame(AsWritten, m, BlockAddress(m, block)) > BM.Capacity(m.words)
  {
    BlockAddressExact(m, block);
  }

  /** With the subtraction reversed, `kfree` does what is documented exactly for a pointer whose physical
      address is `min_address`, that is, for the allocation that holds block 0.  For every other
      pointer it clears bits outside the bookkeeping page. */
  lemma KfreeAsWritten(boot: seq<u32>, s: System, pointer: u32)
    requires Inv(boot, s) && Legal(s, Free(pointer))
    ensures var first := s.heap[PT.SlotOf(pointer)].first;
      && (Step(AsWritten, s, Free(pointer)) == Step(AsDocumented, s, Free(pointer)) <==> first == 0)
      && (first == 0 <==> PT.PhysicalAddress(s.mem.table, pointer) == Done(s.mem.minAddress))
      && (first != 0 ==> Step(AsWritten, s, Free(pointer)) == Wild)
  {
    hide Inv, Kfree, PT.SlotOf, PT.InKernelSpace, PT.PhysicalAddress, PT.Unpage;
    var slot := PT.SlotOf(pointer);
    InvParts(boot, s);
    FreeReads(boot, s, pointer);
    KfreeReadings(s.mem, pointer, s.heap[slot].first, s.heap[slot].len);
  }

  /** The two subtractions agree at block 0 only. */
  lemma KfreeReadings(m: Memory, pointer: u32, first: nat, len: nat)
    requires WellSized(m) && BlocksBelowTop(m) && first < first + len <= Limit(m)
    requires PT.PhysicalAddress(m.table, pointer) == Done(BlockAddress(m, first))
    requires PT.Unpage(m.table, pointer).Done? && PT.Unpage(m.table, pointer).value.1 == len
    ensures BlockAddress(m, first) == m.minAddress <==> first == 0
    ensures Kfree(AsDocumented, m, pointer).Done?
    ensures Kfree(AsWritten, m, pointer) == if first == 0 then Kfree(AsDocumented, m, pointer) else Wild
  {
    hide PT.PhysicalAddress, PT.Unpage, FreedFrame, BM.UnsetRange;
    ReversedFrame(m, first);
    BlockAddressExact(m, first);
  }

  lemma FreeReads(boot: seq<u32>, s: System, pointer: u32)
    requires Inv(boot, s) && Legal(s, Free(pointer))
    ensures var run := s.heap[PT.SlotOf(pointer)];
      && run.first < run.first + run.len <= Limit(s.mem)
      && PT.PhysicalAddress(s.mem.table, pointer) == Done(BlockAddress(s.mem, run.first))
      && PT.Unpage(s.mem.table, pointer).Done? && PT.Unpage(s.mem.table, pointer).value.1 == run.len
  {
    PT.UnpageKeepsPartition(s.mem.table, boot, s.live, pointer);
    assert s.live[PT.SlotOf(pointer)] == ChainOf(s.mem, s.heap[PT.SlotOf(pointer)]);
  }

  // ----- the search

  /** The answer the bitmap's counts give a request for n blocks: the first free block for one, else the
      first block whose window holds enough free ones. */
  ghost predicate CountsAnswer(m: Memory, n: nat, r: Option<nat>)
    requires WellSized(m)
  {
    if n == 1 then BM.FirstRun(m.words, Limit(m), 1, 0) == r else BM.CountsPointTo(m.words, Limit(m), n, r)
  }

  /** The counts are not decided before the map ends. */
  ghost predicate CountsRunOut(m: Memory, n: nat)
    requires WellSized(m)
  {
    n != 1 && exists c: nat :: BM.LeavesMapAt(m.words, Limit(m), n, c)
  }

  /** What the text of the search returns, in numbers of free blocks, and when it reads past the map. */
  lemma SearchAsWritten(m: Memory, n: nat, r: Option<nat>)
    requires WellSized(m) && n > 0
    ensures Search(AsWritten, m, n) == Done(r) <==> CountsAnswer(m, n, r)
    ensures Search(AsWritten, m, n) == Wild <==> CountsRunOut(m, n)
    ensures !Search(AsWritten, m, n).Panic?
  {
    hide BM.FirstRun, BM.FirstWindow, BM.CountsPointTo, BM.LeavesMapAt;
    BM.WindowSearchFinds(m.words, Limit(m), n, r);
    BM.WindowSearchLeaves(m.words, Limit(m), n);
    BM.WindowSearchEnds(m.words, Limit(m), n);
  }

  /** The counts single out the first free run, which is what is documented. */
  ghost predicate SearchMeetsPromise(m: Memory, n: nat)
    requires WellSized(m)
  {
    CountsAnswer(m, n, BM.FirstRun(m.words, Limit(m), n, 0))
  }

  lemma SearchesAgree(m: Memory, n: nat)
    requires WellSized(m) && n > 0
    ensures Search(AsWritten, m, n) == Search(AsDocumented, m, n) <==> SearchMeetsPromise(m, n)
  {
    SearchAsWritten(m, n, BM.FirstRun(m.words, Limit(m), n, 0));
  }

  /** On a map without holes several blocks at once are found exactly when they fit and the window of
      the first free block lies inside the map.  From the sixteenth block of a word on it never does. */
  lemma SearchAsWrittenUnfragmented(m: Memory, taken: nat, n: nat)
    requires WellSized(m) && n > 1 && BM.TakenPrefix(m.words, taken)
    ensures SearchMeetsPromise(m, n)
            <==> taken >= Limit(m) || (taken + n <= Limit(m) && BM.WindowStart(taken) + n <= BM.Capacity(m.words))
    ensures taken < Limit(m) && taken % 32 >= 15 ==> Search(AsWritten, m, n) == Wild
  {
    hide BM.WindowStart, BM.FirstRun, BM.FirstWindow, BM.TakenPrefix, BM.CountsPointTo;
    SearchesAgree(m, n);
    BM.WindowSearchOnPrefix(m.words, Limit(m), taken, n);
    LateWindow(taken);
  }

  lemma LateWindow(c: nat)
    ensures c % 32 >= 15 ==> BM.WindowStart(c) >= 0x8000
  {
    if c % 32 >= 15 {
      hide Pow2;
      Pow2Grows(15, c % 32);
      HalfWord();
    }
  }

  lemma HalfWord()
    ensures Pow2(15) == 0x8000
  {
    assert Pow2(15) == 0x8000;
  }

  lemma Pow2Grows(j: nat, k: nat)
    requires j <= k
    ensures Pow2(j) <= Pow2(k)
  {
    if j < k {
      Pow2Strict(j, k);
    }
  }

  // ----- one step

  /** The text meets the documented answer to this operation. */
  ghost predicate Guarded(s: System, op: Op)
    requires WellSized(s.mem) && Legal(s, op)
  {
    match op
    case Malloc(size) => SearchMeetsPromise(s.mem, PT.PageCount(size))
    case Free(pointer) => s.heap[PT.SlotOf(pointer)].first == 0
    case Map(_, _, _) => true
    case Unmap(_) => true
  }

  /** The text gives an answer to this operation that harms nothing, the documented one or another: the
      block that the counts single out starts a free run (or the request panics for want of slots),
      and the allocation to be freed starts at block 0. */
  ghost predicate Harmless(s: System, op: Op)
    requires WellSized(s.mem) && Legal(s, op)
  {
    match op
    case Malloc(size) => HarmlessRequest(s.mem, PT.PageCount(size))
    case Free(pointer) => s.heap[PT.SlotOf(pointer)].first == 0
    case Map(_, _, _) => true
    case Unmap(_) => true
  }

  ghost predicate HarmlessRequest(m: Memory, n: nat)
    requires WellSized(m)
  {
    && !CountsRunOut(m, n)
    && forall c: nat | CountsAnswer(m, n, Some(c)) ::
         BM.FreeRun(m.words, Limit(m), c, n) || (c + n <= BM.Capacity(m.words) && PT.FirstFit(m.table, n, 0).None?)
  }

  lemma {:induction false} GuardedStep(boot: seq<u32>, s: System, op: Op)
    requires Inv(boot, s) && Legal(s, op) && Guarded(s, op)
    ensures Step(AsWritten, s, op) == Step(AsDocumented, s, op)
  {
    match op
    case Malloc(size) => SearchesAgree(s.mem, PT.PageCount(size));
    case Free(pointer) => KfreeAsWritten(boot, s, pointer);
    case Map(_, _, _) =>
    case Unmap(_) =>
  }

  lemma FitIsNew(boot: seq<u32>, s: System, slot: nat, n: nat)
    requires Inv(boot, s) && PT.Fits(s.mem.table, slot, n) && n > 0
    ensures slot !in s.heap
  {
    PT.FitIsUnused(s.mem.table, boot, s.live, slot, n);
    assert !PT.Covers(s.live, slot, slot);
    if slot in s.heap {
      PT.ChainInTable(s.mem.table, boot, s.live, slot);
    }
  }

  /** The system after `kmalloc` gave out the slots from `slot` on for the blocks of `run`. */
  ghost function WithAllocation(s: System, slot: nat, run: BlockRun): System
    requires slot + run.len <= |s.mem.table| && run.first + run.len <= BM.Capacity(s.mem.words)
  {
    var table := PT.WithChain(s.mem.table, slot, run.len, BlockAddress(s.mem, run.first), PT.PTF_READ_WRITE);
    var mem := s.mem.(table := table, words := BM.SetRange(s.mem.words, run.first, run.len));
    System(mem, s.live[slot := ChainOf(s.mem, run)], s.heap[slot := run], s.header)
  }

  /** What `kmalloc` does once both searches have answered. */
  lemma MallocAt(s: System, size: u32, slot: nat, first: nat) returns (s': System)
    requires WellSized(s.mem) && PT.FirstFit(s.mem.table, PT.PageCount(size), 0) == Some(slot)
    requires Search(AsWritten, s.mem, PT.PageCount(size)) == Done(Some(first))
    requires first + PT.PageCount(size) <= BM.Capacity(s.mem.words)
    ensures slot + PT.PageCount(size) < |s.mem.table|
    ensures s' == WithAllocation(s, slot, BlockRun(first, PT.PageCount(size)))
    ensures Step(AsWritten, s, Malloc(size)) == Done((s', PT.PointerTo(slot)))
  {
    ReadWriteIsPlain();
    s' := WithAllocation(s, slot, BlockRun(first, PT.PageCount(size)));
  }

  /** An allocation of any run of blocks keeps the invariant exactly when the run is free. */
  lemma AllocationIsFree(boot: seq<u32>, s: System, slot: nat, run: BlockRun)
    requires Inv(boot, s) && run.len > 0 && PT.Fits(s.mem.table, slot, run.len)
    requires run.first + run.len <= BM.Capacity(s.mem.words)
    ensures Inv(boot, WithAllocation(s, slot, run)) <==> BM.FreeRun(s.mem.words, Limit(s.mem), run.first, run.len)
  {
    if BM.FreeRun(s.mem.words, Limit(s.mem), run.first, run.len) {
      MallocPieces(boot, s, slot, run);
    }
    hide Inv, BM.FreeRun;
    FitIsNew(boot, s, slot, run.len);
    if Inv(boot, WithAllocation(s, slot, run)) {
      NewBlocksWereFree(boot, s, slot, run);
    }
  }

  lemma NewBlocksWereFree(boot: seq<u32>, s: System, slot: nat, run: BlockRun)
    requires Inv(boot, s) && slot !in s.heap
    requires slot + run.len <= |s.mem.table| && run.first + run.len <= BM.Capacity(s.mem.words)
    requires Inv(boot, WithAllocation(s, slot, run))
    ensures BM.FreeRun(s.mem.words, Limit(s.mem), run.first, run.len)
  {
    hide PT.WithChain, BM.SetRange;
    var s' := WithAllocation(s, slot, run);
    AllocationsAreApart(boot, s', slot);
    hide Inv;
    InvParts(boot, s);
    SameLimit(s, s');
    hide PT.Partitioned, PT.WithChain, BM.SetRange, BM.Taken, HeapMapped, HeapDisjoint, Limit;
    forall other | other in s.heap
      ensures Apart(s.heap[other], run)
    {
      assert other in s'.heap && other != slot;
    }
  }

  lemma AllocationsAreApart(boot: seq<u32>, s: System, slot: nat)
    requires Inv(boot, s) && slot in s.heap
    ensures s.heap[slot].first + s.heap[slot].len <= Limit(s.mem)
    ensures forall other | other in s.heap && other != slot :: Apart(s.heap[other], s.heap[slot])
  {
    hide PT.Partitioned, MapExact;
  }

  lemma SameLimit(s: System, s': System)
    requires SameBounds(s, s')
    ensures Limit(s.mem) == Limit(s'.mem)
  {
  }

  /** In a panic, or in a state that satisfies the invariant. */
  ghost predicate EndsWell(boot: seq<u32>, result: Outcome<(System, nat)>) {
    result.Panic? || (result.Done? && Inv(boot, result.value.0))
  }

  /** A step of the text ends in a panic or in a state that satisfies the invariant exactly when it is
      harmless. */
  lemma StepAsWritten(boot: seq<u32>, s: System, op: Op)
    requires Inv(boot, s) && Legal(s, op)
    ensures EndsWell(boot, Step(AsWritten, s, op)) <==> Harmless(s, op)
  {
    hide Inv;
    match op
    case Malloc(size) => MallocAsWritten(boot, s, size);
    case Free(pointer) => KfreeAsWritten(boot, s, pointer); FreeKeepsInv(boot, s, pointer);
    case Map(physical, size, flags) => MapKeepsInv(boot, s, physical, size, flags);
    case Unmap(pointer) => UnmapKeepsInv(boot, s, pointer);
  }

  lemma MallocAsWritten(boot: seq<u32>, s: System, size: u32)
    requires Inv(boot, s)
    ensures EndsWell(boot, Step(AsWritten, s, Malloc(size))) <==> HarmlessRequest(s.mem, PT.PageCount(size))
  {
    var n := PT.PageCount(size);
    MallocOutcome(s, size);
    HarmlessAnswer(s.mem, n);
    SearchAsWritten(s.mem, n, None);
    hide Inv, Step, HarmlessRequest, Search, Limit, WithAllocation, PT.PageCount, PT.FirstFit, BM.FreeRun;
    var found, fit := Search(AsWritten, s.mem, n), PT.FirstFit(s.mem.table, n, 0);
    if found.Done? && found.value.Some? {
      FreeRunInMap(s.mem, found.value.value, n);
      if found.value.value + n <= BM.Capacity(s.mem.words) && fit.Some? {
        var s' := MallocAt(s, size, fit.value, found.value.value);
        AllocationIsFree(boot, s, fit.value, BlockRun(found.value.value, n));
      }
    }
  }

  /** When `kmalloc` ends, in terms of the two searches. */
  lemma MallocOutcome(s: System, size: u32)
    requires WellSized(s.mem)
    ensures var n := PT.PageCount(size);
      match Search(AsWritten, s.mem, n)
      case Done(Some(first)) =>
        if first + n > BM.Capacity(s.mem.words) then Step(AsWritten, s, Malloc(size)) == Wild
        else if PT.FirstFit(s.mem.table, n, 0).None? then Step(AsWritten, s, Malloc(size)) == Panic
        else Step(AsWritten, s, Malloc(size)).Done?
      case Done(None) => Step(AsWritten, s, Malloc(size)) == Panic
      case Wild => Step(AsWritten, s, Malloc(size)) == Wild
      case Panic => true
  {
    hide Search, PT.PageCount, PT.WithChain, BM.SetRange;
    ReadWriteIsPlain();
  }

  lemma HarmlessAnswer(m: Memory, n: nat)
    requires WellSized(m) && n > 0
    ensures HarmlessRequest(m, n)
            <==> match Search(AsWritten, m, n)
                 case Done(Some(c)) =>
                   BM.FreeRun(m.words, Limit(m), c, n) || (c + n <= BM.Capacity(m.words) && PT.FirstFit(m.table, n, 0).None?)
                 case Done(None) => true
                 case Wild => false
                 case Panic => false
  {
    hide CountsAnswer, CountsRunOut, Search, BM.FreeRun, PT.FirstFit;
    var found := Search(AsWritten, m, n);
    SearchAsWritten(m, n, None);
    forall r
      ensures found == Done(r) <==> CountsAnswer(m, n, r)
    {
      SearchAsWritten(m, n, r);
    }
    if found.Done? {
      assert CountsAnswer(m, n, found.value);
    }
  }

  lemma FreeRunInMap(m: Memory, first: nat, n: nat)
    requires WellSized(m)
    ensures BM.FreeRun(m.words, Limit(m), first, n) ==> first + n <= BM.Capacity(m.words)
  {
  }

  // ----- runs

  /** A run of the text satisfies the invariant in every state exactly when each of its steps is
      harmless; then all its allocations stay apart. */
  lemma RunAsWritten(boot: seq<u32>, states: seq<System>, ops: seq<Op>)
    requires IsRun(AsWritten, states, ops) && Inv(boot, states[0])
    ensures (forall i | 0 <= i < |states| :: Inv(boot, states[i]))
            <==> forall i | 0 <= i < |ops| :: HarmlessAt(states, ops, i)
  {
    hide Inv, Step, Legal, Harmless;
    if forall i | 0 <= i < |ops| :: HarmlessAt(states, ops, i) {
      forall i | 0 <= i < |states| ensures Inv(boot, states[i]) { HarmlessPrefix(boot, states, ops, i); }
    }
    if forall i | 0 <= i < |states| :: Inv(boot, states[i]) {
      forall i | 0 <= i < |ops| ensures HarmlessAt(states, ops, i) {
        assert StepsTo(AsWritten, states[i], ops[i], states[i + 1]);
        StepAsWritten(boot, states[i], ops[i]);
      }
    }
  }

  ghost predicate HarmlessAt(states: seq<System>, ops: seq<Op>, i: nat)
    requires i < |ops| <= |states|
  {
    WellSized(states[i].mem) && Legal(states[i], ops[i]) && Harmless(states[i], ops[i])
  }

  lemma {:induction false} HarmlessPrefix(boot: seq<u32>, states: seq<System>, ops: seq<Op>, n: nat)
    requires IsRun(AsWritten, states, ops) && Inv(boot, states[0]) && n < |states|
    requires forall i | 0 <= i < |ops| :: HarmlessAt(states, ops, i)
    ensures Inv(boot, states[n])
  {
    hide Step, Inv, Legal, Harmless;
    if n > 0 {
      HarmlessPrefix(boot, states, ops, n - 1);
      assert StepsTo(AsWritten, states[n - 1], ops[n - 1], states[n]);
      assert HarmlessAt(states, ops, n - 1);
      StepAsWritten(boot, states[n - 1], ops[n - 1]);
    }
  }

  ghost predicate GuardedAt(states: seq<System>, ops: seq<Op>, i: nat)
    requires i < |ops| <= |states|
  {
    WellSized(states[i].mem) && Legal(states[i], ops[i]) && Guarded(states[i], ops[i])
  }

  /** A run of the text is a documented run, so that everything proved about those holds of it, exactly
      when each of its steps is guarded. */
  lemma GuardedRun(boot: seq<u32>, states: seq<System>, ops: seq<Op>)
    requires IsRun(AsWritten, states, ops) && Inv(boot, states[0])
    ensures IsRun(AsDocumented, states, ops) <==> forall i | 0 <= i < |ops| :: GuardedAt(states, ops, i)
  {
    hide Inv, Step, Legal, Guarded;
    if forall i | 0 <= i < |ops| :: GuardedAt(states, ops, i) {
      GuardedPrefix(boot, states, ops, |ops|);
    }
    if IsRun(AsDocumented, states, ops) {
      forall i | 0 <= i < |ops| ensures GuardedAt(states, ops, i) {
        RunKeepsInv(boot, states, ops, i);
        assert StepsTo(AsWritten, states[i], ops[i], states[i + 1]);
        assert StepsTo(AsDocumented, states[i], ops[i], states[i + 1]);
        SameStepIsGuarded(boot, states[i], ops[i], states[i + 1]);
      }
    }
  }

  lemma SameStepIsGuarded(boot: seq<u32>, s: System, op: Op, s': System)
    requires Inv(boot, s) && StepsTo(AsWritten, s, op, s') && StepsTo(AsDocumented, s, op, s')
    ensures Guarded(s, op)
  {
    hide Inv, Search, SearchMeetsPromise, PT.WithChain, BM.SetRange;
    match op
    case Malloc(size) =>
      var n := PT.PageCount(size);
      var slot := PT.FirstFit(s.mem.table, n, 0).value;
      SearchesAgree(s.mem, n);
      assert s'.heap[slot] == BlockRun(Search(AsWritten, s.mem, n).value.value, n);
      assert s'.heap[slot] == BlockRun(Search(AsDocumented, s.mem, n).value.value, n);
    case Free(pointer) => KfreeAsWritten(boot, s, pointer);
    case Map(_, _, _) =>
    case Unmap(_) =>
  }

  lemma {:induction false} GuardedPrefix(boot: seq<u32>, states: seq<System>, ops: seq<Op>, n: nat)
    requires IsRun(AsWritten, states, ops) && Inv(boot, states[0]) && n <= |ops|
    requires forall i | 0 <= i < |ops| :: GuardedAt(states, ops, i)
    ensures Inv(boot, states[n])
    ensures forall i | 0 <= i < n :: StepsTo(AsDocumented, states[i], ops[i], states[i + 1])
  {
    hide Step, Inv, Legal, Guarded;
    if n > 0 {
      GuardedPrefix(boot, states, ops, n - 1);
      assert StepsTo(AsWritten, states[n - 1], ops[n - 1], states[n]);
      assert GuardedAt(states, ops, n - 1);
      GuardedStep(boot, states[n - 1], ops[n - 1]);
      StepKeepsInv(boot, states[n - 1], ops[n - 1]);
    }
  }
}
