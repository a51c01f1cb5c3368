/** Runs of the text of kernel/memory/memory.c in which nothing is freed: no block is ever handed out
    twice, but the map is overrun exactly when more is asked for than there is. */
module HeapWithoutFree {
  import opened Bits
  import opened Outcomes
  import opened Align
  import opened Heap
  import opened HeapInvariant
  import opened HeapRuns
  import opened HeapAsWritten
  import BM = Bitmap
  import PT = PageTable

  // ----- how much was asked for

  function Demand(op: Op): nat {
    if op.Malloc? then PT.PageCount(op.size) else 0
  }

  /** The blocks that a sequence of operations asks for. */
  function Claimed(ops: seq<Op>): nat {
    if |ops| == 0 then 0 else Claimed(ops[..|ops| - 1]) + Demand(ops[|ops| - 1])
  }

  lemma ClaimedStep(ops: seq<Op>, i: nat)
    requires i < |ops|
    ensures Claimed(ops[..i + 1]) == Claimed(ops[..i]) + Demand(ops[i])
  {
    assert ops[..i + 1][..i] == ops[..i];
  }

  lemma {:induction false} ClaimedGrows(ops: seq<Op>, i: nat)
    requires i <= |ops|
    ensures Claimed(ops[..i]) <= Claimed(ops)
    decreases |ops| - i
  {
    if i < |ops| {
      ClaimedStep(ops, i);
      ClaimedGrows(ops, i + 1);
    } else {
      assert ops[..i] == ops;
    }
  }

  // ----- states

  /** The invariant without its bound: the first `taken` blocks are taken, and the allocations divide
      them up.  They may lie past the last block there is. */
  ghost predicate Packed(boot: seq<u32>, s: System, taken: nat) {
    && WellSized(s.mem) && s.mem.minAddress % PAGE_SIZE == 0
    && PT.Partitioned(s.mem.table, boot, s.live)
    && (forall slot | slot in s.heap :: slot in s.live && s.heap[slot].first + s.heap[slot].len <= taken)
    && HeapDisjoint(s.heap)
    && MapExact(s.mem.words, s.heap)
    && BM.TakenPrefix(s.mem.words, taken)
  }

  lemma PrefixGrows(words: seq<u32>, taken: nat, n: nat)
    requires BM.TakenPrefix(words, taken) && taken + n <= BM.Capacity(words)
    ensures BM.TakenPrefix(BM.SetRange(words, taken, n), taken + n)
  {
    forall b: nat | b < BM.Capacity(words)
      ensures BM.Taken(BM.SetRange(words, taken, n), b) <==> b < taken + n
    {
      BM.SetRangeTaken(words, taken, n, b);
    }
  }

  lemma NothingTaken(boot: seq<u32>, s: System)
    requires Inv(boot, s) && s.heap == map[]
    ensures BM.TakenPrefix(s.mem.words, 0)
  {
  }

  lemma StartsPacked(boot: seq<u32>, s: System)
    requires Inv(boot, s) && s.heap == map[]
    ensures Packed(boot, s, 0)
  {
    NothingTaken(boot, s);
  }

  /** On such a map the text of the search returns the first block that is not taken, if it returns one. */
  lemma SearchGivesNext(m: Memory, taken: nat, n: nat, first: nat)
    requires WellSized(m) && n > 0 && BM.TakenPrefix(m.words, taken)
    requires Search(AsWritten, m, n) == Done(Some(first))
    ensures first == taken < Limit(m)
    ensures n == 1 ==> taken + 1 <= Limit(m)
  {
    hide BM.FirstRun, BM.FirstWindow, BM.WindowStart;
    BM.WindowSearchOnPrefix(m.words, Limit(m), taken, n);
  }

  /** A step of the text without kfree takes the next blocks and keeps everything taken before. */
  lemma StepStaysPacked(boot: seq<u32>, s: System, op: Op, s': System, taken: nat)
    requires Packed(boot, s, taken) && StepsTo(AsWritten, s, op, s') && !op.Free?
    ensures Packed(boot, s', taken + Demand(op))
  {
    hide Packed, StepsTo;
    match op
    case Malloc(size) => MallocStaysPacked(boot, s, size, s', taken);
    case Map(physical, size, flags) => MapStaysPacked(boot, s, physical, size, flags, s', taken);
    case Unmap(pointer) => UnmapStaysPacked(boot, s, pointer, s', taken);
  }

  lemma UnmapStaysPacked(boot: seq<u32>, s: System, pointer: u32, s': System, taken: nat)
    requires Packed(boot, s, taken) && StepsTo(AsWritten, s, Unmap(pointer), s')
    ensures Packed(boot, s', taken)
  {
    hide PT.Partitioned, PT.Cleared, PT.Unpage, PT.SlotOf, PT.InKernelSpace, MapExact, HeapDisjoint, BM.TakenPrefix;
    PT.UnpageKeepsPartition(s.mem.table, boot, s.live, pointer);
  }

  lemma MapStaysPacked(boot: seq<u32>, s: System, physical: u32, size: u32, flags: u32, s': System, taken: nat)
    requires Packed(boot, s, taken) && StepsTo(AsWritten, s, Map(physical, size, flags), s')
    ensures Packed(boot, s', taken)
  {
    var n := PT.PageCount(size);
    hide PT.Partitioned, PT.WithChain, PT.Fits, PageAlign, MapExact, HeapDisjoint, BM.TakenPrefix;
    var slot := PT.FirstFit(s.mem.table, n, 0).value;
    PageAlignIs(physical);
    PT.PageKeepsPartition(s.mem.table, boot, s.live, slot, PT.Mapping(n, PageAlign(physical), flags));
  }

  lemma MallocStaysPacked(boot: seq<u32>, s: System, size: u32, s': System, taken: nat)
    requires Packed(boot, s, taken) && StepsTo(AsWritten, s, Malloc(size), s')
    ensures Packed(boot, s', taken + PT.PageCount(size))
  {
    var n := PT.PageCount(size);
    hide Step, PT.Fits, PT.Partitioned, MapExact, HeapDisjoint, BM.TakenPrefix;
    MallocOutcome(s, size);
    SearchAsWritten(s.mem, n, None);
    var slot := PT.FirstFit(s.mem.table, n, 0).value;
    var first := Search(AsWritten, s.mem, n).value.value;
    SearchGivesNext(s.mem, taken, n, first);
    var s'' := MallocAt(s, size, slot, first);
    PackedAllocation(boot, s, slot, BlockRun(first, n));
  }

  lemma PackedAllocation(boot: seq<u32>, s: System, slot: nat, run: BlockRun)
    requires Packed(boot, s, run.first) && run.len > 0 && PT.Fits(s.mem.table, slot, run.len)
    requires run.first + run.len <= BM.Capacity(s.mem.words)
    ensures Packed(boot, WithAllocation(s, slot, run), run.first + run.len)
  {
    hide PT.Partitioned, PT.WithChain, PT.Fits, BM.SetRange, BM.TakenPrefix, MapExact;
    ReadWriteIsPlain();
    PT.PageKeepsPartition(s.mem.table, boot, s.live, slot, ChainOf(s.mem, run));
    MarkingKeepsMapExact(s.mem.words, s.heap, slot, run);
    PrefixGrows(s.mem.words, run.first, run.len);
  }

  // ----- runs

  ghost predicate NothingFreed(ops: seq<Op>) {
    forall i | 0 <= i < |ops| :: !ops[i].Free?
  }

  lemma {:induction false} StaysPacked(boot: seq<u32>, states: seq<System>, ops: seq<Op>, i: nat)
    requires IsRun(AsWritten, states, ops) && NothingFreed(ops) && i < |states|
    requires Inv(boot, states[0]) && states[0].heap == map[]
    ensures Packed(boot, states[i], Claimed(ops[..i]))
    ensures Limit(states[i].mem) == Limit(states[0].mem)
  {
    hide Inv, Step, Packed, Legal;
    if i == 0 {
      StartsPacked(boot, states[0]);
    } else {
      StaysPacked(boot, states, ops, i - 1);
      assert StepsTo(AsWritten, states[i - 1], ops[i - 1], states[i]);
      StepKeepsBounds(AsWritten, states[i - 1], ops[i - 1]);
      ClaimedStep(ops, i - 1);
      StepStaysPacked(boot, states[i - 1], ops[i - 1], states[i], Claimed(ops[..i - 1]));
    }
  }

  /** In every state of a run of the text without `kfree` the map has no holes, it marks exactly the
      blocks of the live allocations, and no block belongs to two of them. */
  lemma NoFreeNoHoles(boot: seq<u32>, states: seq<System>, ops: seq<Op>, i: nat)
    requires IsRun(AsWritten, states, ops) && NothingFreed(ops) && i < |states|
    requires Inv(boot, states[0]) && states[0].heap == map[]
    ensures BM.TakenPrefix(states[i].mem.words, Claimed(ops[..i]))
    ensures MapExact(states[i].mem.words, states[i].heap) && HeapDisjoint(states[i].heap)
  {
    StaysPacked(boot, states, ops, i);
  }

  /** Such a step is the documented one, and a harmless one, exactly when its blocks exist. */
  lemma FittingStep(boot: seq<u32>, s: System, op: Op, s': System, taken: nat)
    requires Packed(boot, s, taken) && StepsTo(AsWritten, s, op, s') && !op.Free?
    ensures Guarded(s, op) <==> op.Malloc? ==> taken + Demand(op) <= Limit(s.mem)
    ensures Harmless(s, op) <==> op.Malloc? ==> taken + Demand(op) <= Limit(s.mem)
  {
    if op.Malloc? {
      MallocOutcome(s, op.size);
      FittingRequest(s.mem, PT.PageCount(op.size), taken);
    }
  }

  lemma FittingRequest(m: Memory, n: nat, taken: nat)
    requires WellSized(m) && n > 0 && BM.TakenPrefix(m.words, taken)
    requires Search(AsWritten, m, n).Done? && Search(AsWritten, m, n).value.Some? && PT.FirstFit(m.table, n, 0).Some?
    ensures SearchMeetsPromise(m, n) <==> taken + n <= Limit(m)
    ensures HarmlessRequest(m, n) <==> taken + n <= Limit(m)
  {
    var first := Search(AsWritten, m, n).value.value;
    SearchGivesNext(m, taken, n, first);
    SearchesAgree(m, n);
    HarmlessAnswer(m, n);
    BM.WindowSearchOnPrefix(m.words, Limit(m), taken, n);
  }

  /** Such a run is a documented run, and keeps the invariant, exactly when it asks for no more blocks
      than there are. */
  lemma NoFreeIsDocumented(boot: seq<u32>, states: seq<System>, ops: seq<Op>)
    requires IsRun(AsWritten, states, ops) && NothingFreed(ops)
    requires Inv(boot, states[0]) && states[0].heap == map[]
    ensures IsRun(AsDocumented, states, ops) <==> Claimed(ops) <= Limit(states[0].mem)
    ensures (forall i | 0 <= i < |states| :: Inv(boot, states[i])) <==> Claimed(ops) <= Limit(states[0].mem)
  {
    hide Inv, Step, Packed, Legal, IsRun, Guarded, Harmless, Limit;
    GuardedRun(boot, states, ops);
    RunAsWritten(boot, states, ops);
    RunLengths(states, ops);
    forall i | 0 <= i < |ops|
      ensures GuardedAt(states, ops, i) <==> FitsAt(states, ops, i)
      ensures HarmlessAt(states, ops, i) <==> FitsAt(states, ops, i)
    {
      StaysPacked(boot, states, ops, i);
      RunSteps(states, ops, i);
      FittingStep(boot, states[i], ops[i], states[i + 1], Claimed(ops[..i]));
    }
    AllFit(states, ops);
  }

  lemma RunLengths(states: seq<System>, ops: seq<Op>)
    requires IsRun(AsWritten, states, ops)
    ensures |states| == |ops| + 1
  {
  }

  lemma RunSteps(states: seq<System>, ops: seq<Op>, i: nat)
    requires IsRun(AsWritten, states, ops) && i < |ops|
    ensures StepsTo(AsWritten, states[i], ops[i], states[i + 1])
  {
  }

  /** Operation i gets blocks that exist. */
  ghost predicate FitsAt(states: seq<System>, ops: seq<Op>, i: nat)
    requires i < |ops| <= |states|
  {
    ops[i].Malloc? ==> Claimed(ops[..i]) + Demand(ops[i]) <= Limit(states[0].mem)
  }

  lemma AllFit(states: seq<System>, ops: seq<Op>)
    requires |ops| <= |states| && |states| > 0
    ensures (forall i | 0 <= i < |ops| :: FitsAt(states, ops, i)) <==> Claimed(ops) <= Limit(states[0].mem)
  {
    hide Limit, Claimed, Demand;
    if Claimed(ops) <= Limit(states[0].mem) {
      forall i | 0 <= i < |ops|
        ensures FitsAt(states, ops, i)
      {
        ClaimedStep(ops, i);
        ClaimedGrows(ops, i + 1);
      }
    }
    if forall i | 0 <= i < |ops| :: FitsAt(states, ops, i) {
      LastFits(states, ops, |ops|);
      assert ops[..|ops|] == ops;
    }
  }

  lemma {:induction false} LastFits(states: seq<System>, ops: seq<Op>, n: nat)
    requires n <= |ops| <= |states| && |states| > 0 && forall i | 0 <= i < |ops| :: FitsAt(states, ops, i)
    ensures Claimed(ops[..n]) <= Limit(states[0].mem)
  {
    if n > 0 {
      LastFits(states, ops, n - 1);
      ClaimedStep(ops, n - 1);
      assert FitsAt(states, ops, n - 1);
    }
  }
}
