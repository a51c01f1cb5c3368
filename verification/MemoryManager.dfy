/** kernel/memory/memory.c: the allocator over its bookkeeping page, in place. */
module MemoryManager {
  import opened Bits
  import opened Outcomes
  import opened Align
  import opened Heap
  import BM = Bitmap
  import PT = PageTable
  import Paging
  import PB = PageBits
  import HC = HeapContracts

  const OUT_OF_MEMORY: u32 := 0xffff_ffff

  /** How a search reports its answer: a block number, or all ones. */
  function Reported(answer: Outcome<Option<nat>>): Outcome<nat> {
    match answer
    case Done(Some(first)) => Done(first)
    case Done(None) => Done(OUT_OF_MEMORY)
    case Wild => Wild
    case Panic => Panic
  }

  class KernelMemory {
    const paging: Paging.KernelPageTables
    /** The fields of `g_memory_allocator`; `memMap` is the rest of its page. */
    var minAddress: u32
    var maxAddress: u32
    var blockCount: u32
    var memMap: array<u32>

    ghost predicate Valid()
      reads this, paging.entries, memMap
    {
      paging.entries != memMap && WellSized(State())
    }

    ghost function State(): Memory
      reads this, paging.entries, memMap
    {
      Memory(paging.entries[..], memMap[..], minAddress, maxAddress, blockCount)
    }

    constructor (tables: Paging.KernelPageTables)
      ensures paging == tables && fresh(memMap)
    {
      paging := tables;
      minAddress, maxAddress, blockCount := 0, 0, 0;
      memMap := new u32[MAP_WORDS](_ => 0);
    }

    // ----- the bitmap

    method MemoryMapSet(bit: nat)
      requires bit < BM.Capacity(memMap[..])
      modifies memMap
      ensures memMap[..] == BM.Set(old(memMap[..]), bit)
    {
      memMap[bit / 32] := Join(memMap[bit / 32], BM.Mask(bit));
    }

    method MemoryMapUnset(bit: nat)
      requires bit < BM.Capacity(memMap[..])
      modifies memMap
      ensures memMap[..] == BM.Unset(old(memMap[..]), bit)
    {
      AndBound(memMap[bit / 32], Not(BM.Mask(bit)));
      memMap[bit / 32] := And(memMap[bit / 32], Not(BM.Mask(bit)));
    }

    method MemoryMapTest(bit: nat) returns (taken: bool)
      requires bit < BM.Capacity(memMap[..])
      ensures taken <==> BM.Taken(memMap[..], bit)
    {
      taken := And(memMap[bit / 32], BM.Mask(bit)) != 0;
    }

    // ----- initialisation

    /** Maps the bookkeeping page, clears it and records where the blocks are. */
    method MemInitialize(lowmem: nat, highmem: nat) returns (result: Outcome<()>)
      requires lowmem < 0x100 && highmem < 0x100
      requires paging.entries.Length == PT.KERNEL_PAGE_TABLES_LEN
      modifies this, paging.entries
      ensures match Initialize(old(paging.entries[..]), Heap.MemGetBytes(lowmem, highmem))
        case Done(memory) => result == Done(()) && fresh(memMap) && State() == memory
        case Panic => result == Panic
        case Wild => false
      ensures result.Panic? <==> PB.NoRoom(old(paging.entries[..]), 2)
      ensures result.Done? ==>
        HC.SetUpSomewhere(old(paging.entries[..]), Heap.MemGetBytes(lowmem, highmem), State())
    {
      HC.MemInitializeIs(paging.entries[..], Heap.MemGetBytes(lowmem, highmem));
      hide HC.SetUpSomewhere, PB.NoRoom, PB.PageResult, PB.IsHighest, PB.PageOf, PT.Page, PT.HighestFreeAddress, Heap.MemGetBytes, Wrap, WellSized;
      var min := paging.ComputeHighestFreeAddress();
      var max := Heap.MemGetBytes(lowmem, highmem);
      var page := paging.Page(min, PAGE_SIZE, PT.PTF_READ_WRITE);
      if page.Panic? {
        return Panic;
      }
      SetUp(min, max);
      return Done(());
    }

    /** The bookkeeping page, cleared, and its header words. */
    method SetUp(min: u32, max: u32)
      modifies this
      ensures fresh(memMap)
      ensures State() == Memory(old(paging.entries[..]), seq(MAP_WORDS, _ => 0), Wrap(min + PAGE_SIZE), max,
                                Wrap(max - min) / PAGE_SIZE)
    {
      memMap := new u32[MAP_WORDS](_ => 0);
      assert memMap[..] == seq(MAP_WORDS, _ => 0);
      minAddress := Wrap(min + PAGE_SIZE);
      maxAddress := max;
      blockCount := Wrap(max - min) / PAGE_SIZE;
    }

    // ----- searching

    /** The fast path for a single block; it agrees with the general search. */
    method FindFirstFreeBlock() returns (block: nat)
      requires Valid()
      ensures Done(block) == Reported(Done(BM.FirstRun(memMap[..], Limit(State()), 1, 0)))
    {
      ghost var words, limit, answer := memMap[..], Limit(State()), BM.FirstRun(memMap[..], Limit(State()), 1, 0);
      assert limit == 32 * (blockCount / 32);
      var i := 0;
      while i < blockCount / 32
        invariant 0 <= i <= blockCount / 32
        invariant answer == BM.FirstRun(words, limit, 1, 32 * i)
      {
        hide BM.FirstRun, BM.Taken, SearchFrom;
        if memMap[i] == 0xffff_ffff {
          SkipFullWord(AsDocumented, words, limit, 1, i);
        } else {
          var j := FirstFreeInWord(i);
          if j < 32 {
            return i * 32 + j;
          }
        }
        i := i + 1;
      }
      return OUT_OF_MEMORY;
    }

    /** The inner loop of the fast path: the first clear bit of word i, or 32. */
    method FirstFreeInWord(i: nat) returns (j: nat)
      requires Valid() && i < blockCount / 32
      ensures j <= 32
      ensures BM.FirstRun(memMap[..], Limit(State()), 1, 32 * i) ==
              if j < 32 then Some(32 * i + j) else BM.FirstRun(memMap[..], Limit(State()), 1, 32 * i + 32)
    {
      ghost var words, limit := memMap[..], Limit(State());
      j := 0;
      while j < 32
        invariant 0 <= j <= 32
        invariant BM.FirstRun(words, limit, 1, 32 * i) == BM.FirstRun(words, limit, 1, 32 * i + j)
      {
        hide BM.FirstRun, BM.Taken, BM.Mask, And;
        BitOfWord(words, i, j);
        BM.SingleRun(words, limit, 32 * i + j);
        if And(memMap[i], BM.Mask(j)) == 0 {
          return;
        }
        j := j + 1;
      }
    }

    /** The range search, with the innermost loop of either reading. */
    method FindFirstFreeBlockRange(reading: Reading, size: nat) returns (result: Outcome<nat>)
      requires Valid() && size > 0
      ensures result == Reported(Search(reading, State(), size)) && !result.Panic?
    {
      if size == 1 {
        var block := FindFirstFreeBlock();
        return Done(block);
      }
      ghost var words, limit, answer := memMap[..], Limit(State()), Search(reading, State(), size);
      assert limit == 32 * (blockCount / 32);
      var i := 0;
      while i < blockCount / 32
        invariant 0 <= i <= blockCount / 32
        invariant answer == SearchFrom(reading, words, limit, size, 32 * i)
      {
        hide SearchFrom, Search, BM.Taken;
        if memMap[i] == 0xffff_ffff {
          SkipFullWord(reading, words, limit, size, i);
        } else {
          var j, wild := FindInWord(reading, i, size);
          if wild {
            return Wild;
          }
          if j < 32 {
            return Done(i * 32 + j);
          }
        }
        i := i + 1;
      }
      SearchEnds(reading, words, limit, size);
      return Done(OUT_OF_MEMORY);
    }

    /** The loop over the 32 blocks of word i: the first one accepted, or 32. */
    method FindInWord(reading: Reading, i: nat, size: nat) returns (j: nat, wild: bool)
      requires Valid() && size > 0 && i < blockCount / 32
      ensures var words, limit := memMap[..], Limit(State());
        SearchFrom(reading, words, limit, size, 32 * i) ==
        if wild then Wild
        else if j < 32 then Done(Some(32 * i + j))
        else SearchFrom(reading, words, limit, size, 32 * i + 32)
    {
      ghost var words, limit := memMap[..], Limit(State());
      j := 0;
      while j < 32
        invariant 0 <= j <= 32
        invariant SearchFrom(reading, words, limit, size, 32 * i) == SearchFrom(reading, words, limit, size, 32 * i + j)
      {
        hide SearchFrom, Limit;
        var accepted;
        accepted, wild := TryBlock(reading, i, j, size);
        if accepted || wild {
          return;
        }
        j := j + 1;
      }
      wild := false;
    }

    /** One turn of that loop: whether block j of word i is free and accepted. */
    method TryBlock(reading: Reading, i: nat, j: nat, size: nat) returns (accepted: bool, wild: bool)
      requires Valid() && size > 0 && j < 32 && i < blockCount / 32
      ensures var words, limit, c := memMap[..], Limit(State()), 32 * i + j;
        SearchFrom(reading, words, limit, size, c) ==
        if wild then Wild
        else if accepted then Done(Some(c))
        else SearchFrom(reading, words, limit, size, c + 1)
    {
      hide SearchFrom, Candidate, BM.Taken, BM.Mask, And;
      ghost var words, limit, c := memMap[..], Limit(State()), 32 * i + j;
      BitOfWord(words, i, j);
      if And(memMap[i], BM.Mask(j)) != 0 {
        SearchSkips(reading, words, limit, size, c);
        return false, false;
      }
      accepted, wild := CountCandidate(reading, i, j, size);
      SearchTurn(reading, words, limit, size, c, accepted, wild);
    }

    /** What the count at a free block means for the search. */
    static lemma SearchTurn(reading: Reading, words: seq<u32>, limit: nat, size: nat, c: nat, accepted: bool, wild: bool)
      requires size > 0 && c < limit <= BM.Capacity(words) && !BM.Taken(words, c)
      requires Candidate(reading, words, limit, size, c) == if wild then Wild else Done(accepted)
      ensures SearchFrom(reading, words, limit, size, c) ==
              if wild then Wild else if accepted then Done(Some(c)) else SearchFrom(reading, words, limit, size, c + 1)
    {
      if accepted || wild {
        SearchStops(reading, words, limit, size, c);
      } else {
        SearchSkips(reading, words, limit, size, c);
      }
    }

    /** The innermost loop, at the free block j of word i. */
    method CountCandidate(reading: Reading, i: nat, j: nat, size: nat) returns (accepted: bool, wild: bool)
      requires Valid() && size > 0 && j < 32 && 32 * i + j < Limit(State())
      ensures Candidate(reading, memMap[..], Limit(State()), size, 32 * i + j) == if wild then Wild else Done(accepted)
      ensures !(accepted && wild)
    {
      match reading
      case AsDocumented =>
        accepted := CountRun(i * 32 + j, size);
        wild := false;
      case AsWritten =>
        accepted, wild := CountWindow(i, j, size);
    }

    /** As documented: `size` free blocks in a row, inside the searched words. */
    method CountRun(start: nat, size: nat) returns (free: bool)
      requires Valid() && start < Limit(State())
      ensures free <==> BM.FreeRun(memMap[..], Limit(State()), start, size)
    {
      hide BM.Taken;
      ghost var words, limit := memMap[..], Limit(State());
      var end := 32 * (blockCount / 32);
      var count := 0;
      while count < size && start + count < end
        invariant 0 <= count <= size
        invariant start + count <= end == limit
        invariant forall b | start <= b < start + count :: !BM.Taken(words, b)
      {
        var taken := MemoryMapTest(start + count);
        if taken {
          return false;
        }
        count := count + 1;
      }
      return count == size;
    }

    /** As written: `size` free blocks among the `size + 1` from `i * 32 + (1 << j)` on. */
    method CountWindow(i: nat, j: nat, size: nat) returns (accepted: bool, wild: bool)
      requires size > 0 && j < 32
      ensures BM.Window(memMap[..], BM.WindowStart(32 * i + j), size, 0, 0) == if wild then Wild else Done(accepted)
      ensures !(accepted && wild)
    {
      ghost var words, answer := memMap[..], BM.Window(memMap[..], BM.WindowStart(32 * i + j), size, 0, 0);
      var free := 0;
      var startBit := i * 32 + BM.Mask(j);
      WindowStartOf(i, j);
      hide BM.Taken, BM.Mask, BM.WindowStart, BM.Window;
      var count := 0;
      while count <= size
        invariant 0 <= count <= size + 1
        invariant answer == BM.Window(words, startBit, size, count, free)
      {
        BM.WindowStep(words, startBit, size, count, free);
        if startBit + count >= 32 * memMap.Length {
          return false, true;
        }
        var taken := MemoryMapTest(startBit + count);
        free := if taken then free else free + 1;
        if free == size {
          return true, false;
        }
        count := count + 1;
      }
      BM.WindowStep(words, startBit, size, count, free);
      return false, false;
    }

    static lemma WordAndBit(i: nat, j: nat)
      requires j < 32
      ensures (32 * i + j) / 32 == i && (32 * i + j) % 32 == j
    {
    }

    static lemma WindowStartOf(i: nat, j: nat)
      requires j < 32
      ensures BM.WindowStart(32 * i + j) == i * 32 + BM.Mask(j)
    {
      WordAndBit(i, j);
    }

    static lemma BitOfWord(words: seq<u32>, i: nat, j: nat)
      requires i < |words| && j < 32
      ensures BM.Taken(words, 32 * i + j) <==> And(words[i], BM.Mask(j)) != 0
    {
      WordAndBit(i, j);
    }

    // ----- allocation

    method Kmalloc(reading: Reading, size: u32) returns (result: Outcome<u32>)
      requires Valid()
      modifies memMap, paging.entries
      ensures match Heap.Kmalloc(reading, old(State()), size)
        case Done((memory, pointer)) => State() == memory && Valid() && result == Done(pointer)
        case Panic => result == Panic
        case Wild => result == Wild
      ensures result.Done? && old(minAddress) % 4096 == 0 ==>
        HC.WroteSomewhere(old(State()), State(), size, result.value)
    {
      if minAddress % 4096 == 0 {
        HC.KmallocWrites(reading, State(), size);
      }
      hide Search, HC.WroteSomewhere, PT.Page, BM.SetRange;
      var required := size / PAGE_SIZE + 1;
      var found := FindFirstFreeBlockRange(reading, required);
      if !found.Done? {
        return Wild;
      }
      var first := found.value;
      if first == OUT_OF_MEMORY {
        return Panic;
      }
      if first + required > 32 * memMap.Length {
        return Wild;
      }
      result := MarkAndMap(first, size);
    }

    /** The rest of `kmalloc`, once the block is found: the marking loop and the mapping. */
    method MarkAndMap(first: nat, size: u32) returns (result: Outcome<u32>)
      requires Valid() && first + PT.PageCount(size) <= BM.Capacity(memMap[..])
      modifies memMap, paging.entries
      ensures match PT.Page(old(paging.entries[..]), BlockAddress(old(State()), first), size, PT.PTF_READ_WRITE)
        case Done((table, pointer)) =>
          State() == old(State()).(table := table, words := BM.SetRange(old(memMap[..]), first, PT.PageCount(size)))
          && Valid() && result == Done(pointer)
        case Panic => result == Panic
        case Wild => false
    {
      hide PB.PageResult, PB.NoRoom, PT.Page, BM.SetRange;
      MarkBlocks(first, size / PAGE_SIZE + 1);
      assert paging.entries[..] == old(paging.entries[..]);
      var physical := Wrap(minAddress + first * PAGE_SIZE);
      result := paging.Page(physical, size, PT.PTF_READ_WRITE);
    }

    /** The loop that marks the blocks. */
    method MarkBlocks(first: nat, required: nat)
      requires first + required <= BM.Capacity(memMap[..])
      modifies memMap
      ensures memMap[..] == BM.SetRange(old(memMap[..]), first, required)
    {
      hide BM.SetRange, BM.Set;
      BM.EmptyRange(memMap[..], first);
      for i := 0 to required
        invariant memMap[..] == BM.SetRange(old(memMap[..]), first, i)
      {
        BM.RangeSteps(old(memMap[..]), first, i);
        MemoryMapSet(first + i);
      }
    }

    /** The pointer must be one that `Kmalloc` returned and that is still live, as far as the page table
        can tell.  The count is what the header documents; the text itself returns nothing. */
    method Kfree(reading: Reading, pointer: u32) returns (result: Outcome<u32>)
      requires Valid()
      requires !PT.PhysicalAddress(paging.entries[..], pointer).Wild? && !PT.Unpage(paging.entries[..], pointer).Wild?
      modifies memMap, paging.entries
      ensures match Heap.Kfree(reading, old(State()), pointer)
        case Done((memory, count)) => State() == memory && Valid() && result == Done(count)
        case Panic => result == Panic
        case Wild => result == Wild
    {
      hide PT.PhysicalAddress, PT.Unpage, BM.UnsetRange, BM.Unset;
      var physical := paging.GetPhysicalAddress(pointer);
      var unpaged := paging.Unpage(pointer);
      if unpaged.Panic? {
        return Panic;
      }
      var count := unpaged.value;
      var frame := match reading {
        case AsWritten => Wrap(minAddress - physical) / PAGE_SIZE
        case AsDocumented => Wrap(physical - minAddress) / PAGE_SIZE
      };
      if frame + count > 32 * memMap.Length {
        return Wild;
      }
      BM.EmptyRange(memMap[..], frame);
      for i := 0 to count
        invariant memMap[..] == BM.UnsetRange(old(memMap[..]), frame, i)
        invariant paging.entries[..] == old(PT.Unpage(paging.entries[..], pointer)).value.0
      {
        BM.RangeSteps(old(memMap[..]), frame, i);
        MemoryMapUnset(frame + i);
      }
      return Done(count);
    }
  }
}
