/** The allocator in place, driven through whole runs: the classes keep the invariant that the runs of
    `HeapRuns` keep. */
module HeapClient {
  import opened Bits
  import opened Outcomes
  import opened Align
  import opened Heap
  import opened HeapInvariant
  import opened HeapRuns
  import BM = Bitmap
  import PT = PageTable
  import Paging
  import MM = MemoryManager

  /** A legal pointer meets what `Kfree` and `Unpage` demand of it. */
  lemma LegalPointersAreDefined(boot: seq<u32>, s: System, pointer: u32)
    requires Inv(boot, s) && (Legal(s, Free(pointer)) || Legal(s, Unmap(pointer)))
    ensures !PT.PhysicalAddress(s.mem.table, pointer).Wild? && !PT.Unpage(s.mem.table, pointer).Wild?
  {
    hide PT.InKernelSpace, PT.SlotOf;
    PT.UnpageKeepsPartition(s.mem.table, boot, s.live, pointer);
  }

  /** One operation of a run, on the class. */
  method Execute(memory: MM.KernelMemory, ghost boot: seq<u32>, ghost s: System, op: Op)
    returns (result: Outcome<nat>)
    requires memory.Valid() && memory.State() == s.mem && Inv(boot, s) && Legal(s, op)
    modifies memory.memMap, memory.paging.entries
    ensures match Step(AsDocumented, s, op)
      case Done((s', value)) =>
        memory.Valid() && memory.State() == s'.mem && Inv(boot, s') && result == Done(value)
      case Panic => result == Panic
      case Wild => false
  {
    hide Inv, Kmalloc, Kfree, PT.PageUnaligned, PT.Unpage, PT.PhysicalAddress;
    StepKeepsInv(boot, s, op);
    match op
    case Malloc(size) =>
      var r := memory.Kmalloc(AsDocumented, size);
      return r;
    case Free(pointer) =>
      LegalPointersAreDefined(boot, s, pointer);
      var r := memory.Kfree(AsDocumented, pointer);
      return r;
    case Map(physical, size, flags) =>
      var r := memory.paging.PageUnaligned(physical, size, flags);
      return r;
    case Unmap(pointer) =>
      LegalPointersAreDefined(boot, s, pointer);
      var r := memory.paging.Unpage(pointer);
      return r;
  }

  /** A whole run after `mem_initialize`: the memory goes through the states of the run. */
  method InitializeAndRun(memory: MM.KernelMemory, lowmem: nat, highmem: nat, ops: seq<Op>, ghost states: seq<System>)
    requires lowmem < 0x100 && highmem < 0x100
    requires PT.BootTable(memory.paging.entries[..])
    requires var boot, bytes := memory.paging.entries[..], Heap.MemGetBytes(lowmem, highmem);
      && Initialize(boot, bytes).Done? && PT.HighestFreeAddress(boot) <= bytes
      && IsRun(AsDocumented, states, ops) && states[0] == Initial(boot, bytes)
    modifies memory, memory.paging.entries
    ensures memory.Valid() && memory.State() == states[|ops|].mem
    ensures Inv(old(memory.paging.entries[..]), states[|ops|])
  {
    hide Inv, Step, Legal, Initialize, Initial;
    ghost var boot, bytes := memory.paging.entries[..], Heap.MemGetBytes(lowmem, highmem);
    InitialInv(boot, bytes);
    InitialMemory(boot, bytes);
    var started := memory.MemInitialize(lowmem, highmem);
    InvParts(boot, states[0]);
    Replay(memory, boot, ops, states);
  }

  lemma InitialMemory(boot: seq<u32>, bytes: u32)
    requires |boot| == PT.KERNEL_PAGE_TABLES_LEN && Initialize(boot, bytes).Done?
    ensures Initial(boot, bytes).mem == Initialize(boot, bytes).value
  {
  }

  method Replay(memory: MM.KernelMemory, ghost boot: seq<u32>, ops: seq<Op>, ghost states: seq<System>)
    requires IsRun(AsDocumented, states, ops) && Inv(boot, states[0])
    requires memory.Valid() && memory.State() == states[0].mem
    modifies memory.memMap, memory.paging.entries
    ensures memory.Valid() && memory.State() == states[|ops|].mem && Inv(boot, states[|ops|])
  {
    hide Inv, Step, Legal;
    for i := 0 to |ops|
      invariant memory.Valid() && memory.State() == states[i].mem && Inv(boot, states[i])
    {
      assert StepsTo(AsDocumented, states[i], ops[i], states[i + 1]);
      var result := Execute(memory, boot, states[i], ops[i]);
    }
  }
}
