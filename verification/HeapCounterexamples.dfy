/** Four calls of the text of kernel/memory/memory.c that hand out one block twice, and a request that
    is answered otherwise than documented without harm. */
module HeapCounterexamples {
  import opened Bits
  import opened Outcomes
  import opened Align
  import opened Heap
  import opened HeapInvariant
  import opened HeapRuns
  import opened HeapAsWritten
  import opened HeapWithoutFree
  import BM = Bitmap
  import PT = PageTable

  /** Taking one block while `room` slots from r on are free: it gets a slot not above r. */
  lemma SingleBlock(boot: seq<u32>, s: System, r: nat, room: nat, taken: nat) returns (s': System, slot: nat)
    requires Inv(boot, s) && BM.TakenPrefix(s.mem.words, taken) && taken < Limit(s.mem)
    requires room > 0 && PT.Fits(s.mem.table, r, room)
    ensures Inv(boot, s') && StepsTo(AsWritten, s, Malloc(1), s') && slot !in s.heap && slot < PT.KERNEL_PAGE_TABLES_LEN
    ensures Step(AsWritten, s, Malloc(1)) == Done((s', PT.PointerTo(slot)))
    ensures s'.heap == s.heap[slot := BlockRun(taken, 1)]
    ensures BM.TakenPrefix(s'.mem.words, taken + 1) && Limit(s'.mem) == Limit(s.mem)
    ensures PT.Fits(s'.mem.table, r + 1, room - 1)
  {
    hide Inv, Step, PT.Partitioned, HeapMapped, HeaderMapped, HeapDisjoint, MapExact;
    InvParts(boot, s);
    FitShrinks(s.mem.table, r, room);
    slot := PT.FirstFit(s.mem.table, 1, 0).value;
    BM.WindowSearchOnPrefix(s.mem.words, Limit(s.mem), taken, 1);
    s' := MallocAt(s, 1, slot, taken);
    GuardedStep(boot, s, Malloc(1));
    StepKeepsInv(boot, s, Malloc(1));
    FitIsNew(boot, s, slot, 1);
    PrefixGrows(s.mem.words, taken, 1);
  }

  lemma FitShrinks(t: seq<u32>, r: nat, room: nat)
    requires PT.Fits(t, r, room) && room > 0
    ensures PT.Fits(t, r, 1)
  {
  }

  /** Freeing block 0, which the text gets right, leaves block 1 alone taken. */
  lemma FreeFirst(boot: seq<u32>, s: System, a: nat, b: nat, r: nat) returns (s': System)
    requires Inv(boot, s) && BM.TakenPrefix(s.mem.words, 2) && a != b && a < PT.KERNEL_PAGE_TABLES_LEN
    requires s.heap == map[a := BlockRun(0, 1), b := BlockRun(1, 1)] && PT.Fits(s.mem.table, r, 2)
    ensures Inv(boot, s') && StepsTo(AsWritten, s, Free(PT.PointerTo(a)), s')
    ensures s'.heap == map[b := BlockRun(1, 1)] && SameBounds(s, s')
    ensures forall c: nat | c < BM.Capacity(s'.mem.words) :: BM.Taken(s'.mem.words, c) <==> c == 1
    ensures PT.Fits(s'.mem.table, r, 2)
  {
    hide Inv, Step, Limit, PT.SlotOf, PT.InKernelSpace, PT.Fits, PT.Cleared, BM.Taken, BM.TakenPrefix, BM.UnsetRange;
    PT.SlotOfPointer(a, 0);
    s' := FreeBlockZero(boot, s, PT.PointerTo(a));
    FirstBlockGone(s.mem.words);
    StillFits(s.mem.table, a, 1, r, 2);
    OtherRemains(s.heap, a, b);
  }

  lemma OtherRemains(heap: map<nat, BlockRun>, a: nat, b: nat)
    requires a != b && heap == map[a := BlockRun(0, 1), b := BlockRun(1, 1)]
    ensures heap - {a} == map[b := BlockRun(1, 1)]
  {
  }

  lemma FreeBlockZero(boot: seq<u32>, s: System, pointer: u32) returns (s': System)
    requires Inv(boot, s) && Legal(s, Free(pointer)) && s.heap[PT.SlotOf(pointer)].first == 0
    ensures Inv(boot, s') && StepsTo(AsWritten, s, Free(pointer), s')
    ensures Released(s, s', pointer, s.heap[PT.SlotOf(pointer)].len) && SameBounds(s, s')
  {
    hide Inv, Step;
    InvParts(boot, s);
    GuardedStep(boot, s, Free(pointer));
    FreeKeepsInv(boot, s, pointer);
    StepKeepsBounds(AsWritten, s, Free(pointer));
    s' := Step(AsWritten, s, Free(pointer)).value.0;
  }

  lemma StillFits(t: seq<u32>, slot: nat, len: nat, r: nat, n: nat)
    requires PT.Fits(t, r, n) && slot + len <= |t|
    ensures PT.Fits(PT.Cleared(t, slot, len), r, n)
  {
    PT.ZeroIsFree();
  }

  lemma FirstBlockGone(words: seq<u32>)
    requires BM.TakenPrefix(words, 2) && BM.Capacity(words) > 0
    ensures forall c: nat | c < BM.Capacity(words) :: BM.Taken(BM.UnsetRange(words, 0, 1), c) <==> c == 1
  {
    forall c: nat | c < BM.Capacity(words)
      ensures BM.Taken(BM.UnsetRange(words, 0, 1), c) <==> c == 1
    {
      BM.UnsetRangeTaken(words, 0, 1, c);
    }
  }

  /** Two blocks at once: the window of block 0 tolerates the taken block 1. */
  lemma TwoBlocks(boot: seq<u32>, s: System, r: nat) returns (s': System, slot: nat)
    requires Inv(boot, s) && 32 <= Limit(s.mem) && PT.Fits(s.mem.table, r, 2)
    requires forall b: nat | b < BM.Capacity(s.mem.words) :: BM.Taken(s.mem.words, b) <==> b == 1
    ensures StepsTo(AsWritten, s, Malloc(4096), s') && slot !in s.heap
    ensures s'.heap == s.heap[slot := BlockRun(0, 2)]
  {
    hide Inv, Step;
    InvParts(boot, s);
    BM.WindowOverlapsTakenBlock(s.mem.words, Limit(s.mem));
    slot := PT.FirstFit(s.mem.table, 2, 0).value;
    FitIsNew(boot, s, slot, 2);
    s' := MallocAt(s, 4096, slot, 0);
  }

  /** Four calls of the text as written after which two live allocations share block 1: take two single
      blocks, free the first, take two blocks.  They go wrong on every system without allocations
      that has 32 blocks and four free slots in a row. */
  lemma DoubleAllocation(boot: seq<u32>, s: System)
    returns (states: seq<System>, ops: seq<Op>, pointer: u32, b: nat, c: nat)
    requires Inv(boot, s) && s.heap == map[] && 32 <= Limit(s.mem)
    requires PT.FirstFit(s.mem.table, 4, 0).Some?
    ensures ops == [Malloc(1), Malloc(1), Free(pointer), Malloc(4096)]
    ensures IsRun(AsWritten, states, ops) && states[0] == s
    ensures Step(AsWritten, s, Malloc(1)) == Done((states[1], pointer))
    ensures b != c && Holds(states[4].heap, b, 1) && Holds(states[4].heap, c, 1)
  {
    hide Inv, Step, Limit, PT.WithChain, PT.Fits, PT.FirstFit;
    NothingTaken(boot, s);
    var r := RoomFor(s.mem.table, 4);
    var s1, a := SingleBlock(boot, s, r, 4, 0);
    var s2;
    s2, b := SingleBlock(boot, s1, r + 1, 3, 1);
    var s3 := FreeFirst(boot, s2, a, b, r + 2);
    SameLimit(s2, s3);
    var s4;
    s4, c := TwoBlocks(boot, s3, r + 2);
    pointer := PT.PointerTo(a);
    states := [s, s1, s2, s3, s4];
    ops := [Malloc(1), Malloc(1), Free(pointer), Malloc(4096)];
  }

  lemma RoomFor(t: seq<u32>, n: nat) returns (r: nat)
    requires PT.FirstFit(t, n, 0).Some?
    ensures PT.Fits(t, r, n)
  {
    r := PT.FirstFit(t, n, 0).value;
  }

  // ----- a harmless answer that is not the documented one

  /** Blocks 0, 3, 4 and 5 are taken, and two blocks are asked for: the text answers with block 6, which
      is free, instead of block 1. */
  lemma HarmlessButNotDocumented(m: Memory)
    requires WellSized(m) && 32 <= Limit(m)
    requires forall b: nat | b < BM.Capacity(m.words) :: BM.Taken(m.words, b) <==> b in {0, 3, 4, 5}
    ensures CountsAnswer(m, 2, Some(6)) && HarmlessRequest(m, 2)
    ensures BM.FirstRun(m.words, Limit(m), 2, 0) == Some(1) && !SearchMeetsPromise(m, 2)
  {
    hide HarmlessRequest;
    EarlyWindows();
    CountOfThree(m.words, 2);
    CountOfThree(m.words, 4);
    CountOfTwo(m.words, 64);
    assert CountsAnswer(m, 2, Some(6));
    SearchAsWritten(m, 2, Some(6));
    HarmlessAnswer(m, 2);
    assert !BM.FreeRun(m.words, Limit(m), 0, 2) && BM.FreeRun(m.words, Limit(m), 1, 2);
    SearchAsWritten(m, 2, Some(1));
  }

  lemma EarlyWindows()
    ensures BM.WindowStart(1) == 2 && BM.WindowStart(2) == 4 && BM.WindowStart(6) == 64
  {
    assert Pow2(1) == 2 && Pow2(2) == 4 && Pow2(6) == 64;
  }

  lemma CountOfTwo(words: seq<u32>, start: nat)
    requires start + 2 <= BM.Capacity(words) && !BM.Taken(words, start) && !BM.Taken(words, start + 1)
    ensures BM.FreeCount(words, start, 2) == 2
  {
    assert BM.FreeCount(words, start, 1) == 1;
  }

  lemma CountOfThree(words: seq<u32>, start: nat)
    requires start + 3 <= BM.Capacity(words) && BM.Taken(words, start + 1)
    requires BM.Taken(words, start) || BM.Taken(words, start + 2)
    ensures BM.FreeCount(words, start, 3) < 2
  {
    assert BM.FreeCount(words, start, 1) <= 1;
    assert BM.FreeCount(words, start, 2) == BM.FreeCount(words, start, 1);
    assert BM.Taken(words, start) ==> BM.FreeCount(words, start, 1) == 0;
  }
}
