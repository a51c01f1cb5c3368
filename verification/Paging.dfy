/** kernel/memory/paging.c: the loops over the kernel page tables, in place. */
module Paging {
  import opened Bits
  import opened Outcomes
  import opened Align
  import PT = PageTable
  import PB = PageBits

  class KernelPageTables {
    /** The three contiguous tables `g_page_table_C0000000` onwards. */
    const entries: array<u32>

    constructor (boot: seq<u32>)
      requires |boot| == PT.KERNEL_PAGE_TABLES_LEN
      ensures fresh(entries) && entries[..] == boot
      ensures entries.Length == PT.KERNEL_PAGE_TABLES_LEN
    {
      entries := new u32[PT.KERNEL_PAGE_TABLES_LEN](i requires 0 <= i < |boot| => boot[i]);
    }

    /** First fit over the table.  The scan gives up at the first free entry from which the request
        would reach the last entry of the table.  A request for nothing gets the first free entry. */
    method FindFreeBlocksOffset(requestedCount: nat) returns (offset: u32)
      requires entries.Length == PT.KERNEL_PAGE_TABLES_LEN
      ensures requestedCount > 0 ==> match PT.FirstFit(entries[..], requestedCount, 0)
        case Some(slot) => offset == slot
        case None => offset == PT.OUT_OF_FREE_BLOCKS
      ensures requestedCount > 0 && offset != PT.OUT_OF_FREE_BLOCKS ==>
        && PT.Fits(entries[..], offset, requestedCount)
        && forall i | 0 <= i < offset :: !PT.Fits(entries[..], i, requestedCount)
      ensures requestedCount > 0 && offset == PT.OUT_OF_FREE_BLOCKS ==>
        forall i :: !PT.Fits(entries[..], i, requestedCount)
      ensures requestedCount == 0 ==>
        if offset == PT.OUT_OF_FREE_BLOCKS then forall i | 0 <= i < entries.Length :: PT.InUse(entries[..][i])
        else offset < entries.Length && !PT.InUse(entries[..][offset])
             && forall i | 0 <= i < offset :: PT.InUse(entries[..][i])
    {
      var i := 0;
      while i < entries.Length
        invariant 0 <= i <= entries.Length
        invariant requestedCount > 0 ==> forall k | 0 <= k < i :: !PT.Fits(entries[..], k, requestedCount)
        invariant requestedCount == 0 ==> forall k | 0 <= k < i :: PT.InUse(entries[..][k])
      {
        if PT.Has(entries[i], PT.PTF_PRESENT) || PT.Has(entries[i], PT.PTF_AEON_LOCKED) {
          assert PT.InUse(entries[..][i]);
          i := i + 1;
          continue;
        }
        if i + requestedCount >= entries.Length {
          return PT.OUT_OF_FREE_BLOCKS;
        }
        var found := true;
        var j := 0;
        while j < requestedCount
          invariant 0 <= j <= requestedCount
          invariant forall k | i <= k < i + j :: !PT.InUse(entries[..][k])
          invariant found
        {
          if PT.Has(entries[i + j], PT.PTF_PRESENT) || PT.Has(entries[i + j], PT.PTF_AEON_LOCKED) {
            assert PT.InUse(entries[..][i + j]);
            found := false;
            break;
          }
          j := j + 1;
        }
        if found {
          assert PT.Fits(entries[..], i, requestedCount);
          return i;
        }
        i := i + 1;
      }
      return PT.OUT_OF_FREE_BLOCKS;
    }

    /** One page above the highest frame any kernel entry points at. */
    method ComputeHighestFreeAddress() returns (address: u32)
      requires entries.Length == PT.KERNEL_PAGE_TABLES_LEN
      ensures address == PT.HighestFreeAddress(entries[..])
      ensures exists j: nat :: PB.IsHighest(entries[..], j) && address == (PB.PageOf(entries[..][j]) + 4096) % 0x1_0000_0000
    {
      ghost var j := PB.HighestEntry(entries[..]);
      PB.HighestFreeAddressIs(entries[..], j);
      var highest: u32 := 0;
      for i := 0 to entries.Length
        invariant highest == PT.HighestFrame(entries[..i])
      {
        assert entries[..i + 1][..i] == entries[..i];
        var frame := PT.FrameOf(entries[i]);
        highest := if highest > frame then highest else frame;
      }
      assert entries[..entries.Length] == entries[..];
      address := Wrap(highest + PAGE_SIZE);
    }

    method Page(physical: u32, size: u32, flags: u32) returns (result: Outcome<u32>)
      requires entries.Length == PT.KERNEL_PAGE_TABLES_LEN
      modifies entries
      ensures match old(PT.Page(entries[..], physical, size, flags))
        case Done((table, pointer)) => entries[..] == table && result == Done(pointer)
        case Panic => entries[..] == old(entries[..]) && result == Panic
        case Wild => false
      ensures result.Panic? <==> Bit(flags, 2) || PB.NoRoom(old(entries[..]), size / 4096 + 1)
      ensures result.Done? && physical % 4096 == 0 ==>
        PB.PageResult(old(entries[..]), physical, size, flags, 0, Done((entries[..], result.value)))
    {
      PB.PageFails(entries[..], physical, size, flags);
      if physical % 4096 == 0 {
        PB.PageIs(entries[..], physical, size, flags);
      }
      hide PT.WithChain, PT.Has, PB.NoRoom, PB.PageResult;
      var required := size / PAGE_SIZE + 1;
      if PT.Has(flags, PT.PTF_USER) {
        // the table searched has length 0, so no slot is found
        return Panic;
      }
      var offset := FindFreeBlocksOffset(required);
      if offset == PT.OUT_OF_FREE_BLOCKS {
        return Panic;
      }
      WriteChain(offset, required, physical, flags);
      return Done(PT.KERNEL_FIRST_PAGE_ADDRESS + offset * PAGE_SIZE);
    }

    /** The loop that writes the entries, and the marking of the last one. */
    method WriteChain(offset: nat, required: nat, physical: u32, flags: u32)
      requires 0 < required && offset + required <= entries.Length
      modifies entries
      ensures entries[..] == PT.WithChain(old(entries[..]), offset, required, physical, flags)
    {
      hide PT.PageFrame, Join, Wrap;
      var aligned := physical;
      var i := offset;
      PT.NextFrame(physical, 0);
      while i < offset + required
        invariant offset <= i <= offset + required
        invariant aligned == PT.PageFrame(physical, i - offset)
        invariant forall k | 0 <= k < entries.Length ::
                    entries[k] == PT.Unmarked(old(entries[..]), offset, i - offset, physical, flags, k)
      {
        entries[i] := Join(Join(aligned, flags), PT.PTF_PRESENT);
        PT.NextFrame(physical, i - offset);
        aligned := Wrap(aligned + PAGE_SIZE);
        i := i + 1;
      }
      entries[i - 1] := Join(entries[i - 1], PT.PTF_AEON_END_OF_BLOCK);
      PT.MarkingCompletesChain(old(entries[..]), entries[..], offset, required, physical, flags);
    }

    method PageUnaligned(physical: u32, size: u32, flags: u32) returns (result: Outcome<u32>)
      requires entries.Length == PT.KERNEL_PAGE_TABLES_LEN
      modifies entries
      ensures match old(PT.PageUnaligned(entries[..], physical, size, flags))
        case Done((table, pointer)) => entries[..] == table && result == Done(pointer)
        case Panic => entries[..] == old(entries[..]) && result == Panic
        case Wild => false
      ensures result.Panic? <==> Bit(flags, 2) || PB.NoRoom(old(entries[..]), size / 4096 + 1)
      ensures result.Done? ==>
        PB.PageResult(old(entries[..]), physical - physical % 4096, size, flags, physical % 4096, Done((entries[..], result.value)))
    {
      PB.PageUnalignedIs(entries[..], physical, size, flags);
      hide PB.PageResult, PB.NoRoom, PT.Page;
      var aligned := PageAlign(physical);
      var offset := physical - aligned;
      var virtual := Page(aligned, size, flags);
      result := match virtual {
        case Done(pointer) => Done(Wrap(pointer + offset))
        case Panic => Panic
        case Wild => Wild
      };
    }

    /** The pointer must come from `Page` or `PageUnaligned`; any other is undefined, which is what
        `PT.Unpage` calls `Wild`. */
    method Unpage(pointer: u32) returns (result: Outcome<u32>)
      requires entries.Length == PT.KERNEL_PAGE_TABLES_LEN
      requires !PT.Unpage(entries[..], pointer).Wild?
      modifies entries
      ensures match old(PT.Unpage(entries[..], pointer))
        case Done((table, count)) => entries[..] == table && result == Done(count)
        case Panic => result == Panic
        case Wild => false
    {
      var slot := PT.SlotOf(pointer);
      ghost var stop := PT.StopIndex(entries[..], slot);
      var address := slot;
      var count := 0;
      var entry: u32 := 0;
      while true
        invariant slot <= address == slot + count <= stop
        invariant forall k | 0 <= k < entries.Length :: entries[k] == PT.ClearedEntry(old(entries[..]), slot, count, k)
        decreases stop - address
      {
        assert entries[address] == old(entries[..])[address];
        if PT.Has(entries[address], PT.PTF_AEON_LOCKED) {
          assert PT.Stops(old(entries[..])[address]);
          return Panic;
        }
        entry := entries[address];
        entries[address] := PT.FREE_ENTRY;
        address := address + 1;
        count := count + 1;
        if PT.Has(entry, PT.PTF_AEON_END_OF_BLOCK) {
          assert PT.Stops(old(entries[..])[address - 1]);
          break;
        }
      }
      assert entries[..] == PT.Cleared(old(entries[..]), slot, count);
      return Done(count);
    }

    method GetPhysicalAddress(pointer: u32) returns (physical: u32)
      requires !PT.PhysicalAddress(entries[..], pointer).Wild?
      ensures PT.PhysicalAddress(entries[..], pointer) == Done(physical)
    {
      if PT.DirIndex(pointer) >= PT.KERNEL_FIRST_PAGE_TABLE_OFFSET {
        physical := PT.FrameOf(entries[(PT.DirIndex(pointer) - PT.KERNEL_FIRST_PAGE_TABLE_OFFSET) * PT.PAGE_TABLE_LEN
                                       + PT.TableIndex(pointer)]);
      } else {
        physical := 0;
      }
    }
  }
}
