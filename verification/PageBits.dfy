/** The calls of kernel/memory/paging.c in the terms of the hardware: which bits of which entries they
    write, which addresses they return, and when they panic.

    Nothing here is stated through the functions that `PageTable` computes with. */
module PageBits {
  import opened Bits
  import opened Outcomes
  import opened Align
  import PT = PageTable

  // ----- entries

  /** Bit b of the k-th of n entries that map the pages from `physical` on: a page address above, the
      flags below, the present bit, and the end marker on the last entry. */
  ghost predicate EntryBit(physical: u32, flags: u32, k: nat, n: nat, b: nat) {
    || (b >= 12 && Bit((physical + 4096 * k) % 0x1_0000_0000, b))
    || Bit(flags, b)
    || b == 0
    || (b == 10 && k == n - 1)
  }

  lemma ChainEntryBits(physical: u32, flags: u32, k: nat, n: nat, b: nat)
    requires physical % 4096 == 0
    ensures Bit(PT.ChainEntry(physical, flags, k, n), b) <==> EntryBit(physical, flags, k, n, b)
  {
    var frame := PT.PageFrame(physical, k);
    PT.PageFrameAligned(physical, k);
    BitOr(frame, flags, b);
    BitOr(Join(frame, flags), PT.PTF_PRESENT, b);
    BitOr(PT.Entry(frame, flags), PT.PTF_AEON_END_OF_BLOCK, b);
    SingleBits(b);
    PageBitsClear(frame, b);
  }

  lemma SingleBits(b: nat)
    ensures Bit(PT.PTF_PRESENT, b) <==> b == 0
    ensures Bit(PT.PTF_READ_WRITE, b) <==> b == 1
    ensures Bit(PT.PTF_AEON_END_OF_BLOCK, b) <==> b == 10
  {
    Pow2Values();
    assert Pow2(1) == 2;
    BitPow2(0, b);
    BitPow2(1, b);
    BitPow2(10, b);
  }

  lemma PageBitsClear(frame: u32, b: nat)
    requires frame % 4096 == 0
    ensures b < 12 ==> !Bit(frame, b)
  {
    if b < 12 {
      Pow2Values();
      LowIsRemainder(frame, 12);
      PT.LowBitsClear(frame, 12, b);
    }
  }

  /** An entry of a read-write kernel mapping as a number: writable, not for users, and marked at the end. */
  lemma WritableEntry(physical: u32, k: nat, n: nat)
    requires physical % 4096 == 0
    ensures PT.ChainEntry(physical, PT.PTF_READ_WRITE, k, n)
            == (physical + 4096 * k) % 0x1_0000_0000 + (if k == n - 1 then 0x403 else 0x003)
  {
    hide Join, PT.Entry;
    PT.PageFrameAligned(physical, k);
    MarkedFrame(PT.PageFrame(physical, k));
  }

  lemma MarkedFrame(frame: u32)
    requires frame % 4096 == 0
    ensures PT.Entry(frame, PT.PTF_READ_WRITE) == frame + 3
    ensures Join(PT.Entry(frame, PT.PTF_READ_WRITE), PT.PTF_AEON_END_OF_BLOCK) == frame + 0x403
  {
    SmallJoins();
    PT.EntrySum(frame, PT.PTF_READ_WRITE);
    hide Or, PT.Entry;
    OrAssociative(frame, 3, PT.PTF_AEON_END_OF_BLOCK);
    OrPage(frame, 3);
    OrPage(frame, 0x403);
  }

  lemma SmallJoins()
    ensures Or(2, 1) == 3 && Or(3, 0x400) == 0x403
  {
    Pow2Values();
    OrCommutes(3, 0x400);
    OrDisjoint(0x400, 3, 10);
  }

  // ----- room

  /** n entries in a row from i on are neither present nor locked, and more entries follow them. */
  ghost predicate Room(t: seq<u32>, i: int, n: nat) {
    0 <= i && i + n < |t| && forall j | i <= j < i + n :: !Bit(t[j], 0) && !Bit(t[j], 11)
  }

  lemma RoomIsFit(t: seq<u32>, i: int, n: nat)
    ensures Room(t, i, n) <==> PT.Fits(t, i, n)
  {
    if 0 <= i && i + n < |t| {
      forall j | i <= j < i + n
        ensures PT.InUse(t[j]) <==> Bit(t[j], 0) || Bit(t[j], 11)
      {
        PT.HasIsBit(t[j]);
      }
    }
  }

  ghost predicate NoRoom(t: seq<u32>, n: nat) {
    forall i :: !Room(t, i, n)
  }

  ghost predicate LeastRoom(t: seq<u32>, slot: nat, n: nat) {
    Room(t, slot, n) && forall i | 0 <= i < slot :: !Room(t, i, n)
  }

  lemma FirstFitIsLeastRoom(t: seq<u32>, n: nat)
    ensures match PT.FirstFit(t, n, 0)
      case Some(slot) => LeastRoom(t, slot, n) && !NoRoom(t, n)
      case None => NoRoom(t, n)
  {
    forall i: int
      ensures Room(t, i, n) <==> PT.Fits(t, i, n)
    {
      RoomIsFit(t, i, n);
    }
    assert PT.FirstFit(t, n, 0).Some? ==> Room(t, PT.FirstFit(t, n, 0).value, n);
  }

  // ----- page and page_unaligned

  /** t' is t with n entries from `slot` on mapping the pages from `physical` on. */
  ghost predicate MappedAt(t: seq<u32>, t': seq<u32>, slot: nat, n: nat, physical: u32, flags: u32) {
    && |t'| == |t|
    && (forall j | 0 <= j < |t| && !(slot <= j < slot + n) :: t'[j] == t[j])
    && forall j, b: nat | slot <= j < slot + n && j < |t| :: Bit(t'[j], b) <==> EntryBit(physical, flags, j - slot, n, b)
  }

  lemma ChainIsMapped(t: seq<u32>, slot: nat, n: nat, physical: u32, flags: u32)
    requires slot + n <= |t| && physical % 4096 == 0
    ensures MappedAt(t, PT.WithChain(t, slot, n, physical, flags), slot, n, physical, flags)
  {
    var t' := PT.WithChain(t, slot, n, physical, flags);
    forall j, b: nat | slot <= j < slot + n
      ensures Bit(t'[j], b) <==> EntryBit(physical, flags, j - slot, n, b)
    {
      ChainEntryBits(physical, flags, j - slot, n, b);
    }
  }

  /** A request for `size` bytes at `physical` either panics, because it asks for user space or there
      is no room, or takes the least room and returns where it is mapped. */
  ghost predicate PageResult(t: seq<u32>, physical: u32, size: u32, flags: u32, low: nat, result: Outcome<(seq<u32>, u32)>) {
    match result
    case Wild => false
    case Panic => Bit(flags, 2) || NoRoom(t, size / 4096 + 1)
    case Done((t', pointer)) =>
      && !Bit(flags, 2)
      && exists slot: nat :: LeastRoom(t, slot, size / 4096 + 1)
           && pointer == 0xC000_0000 + 4096 * slot + low
           && MappedAt(t, t', slot, size / 4096 + 1, physical, flags)
  }

  /** `page`: exactly when it panics, and otherwise every bit it writes and the pointer it returns. */
  lemma PageIs(t: seq<u32>, physical: u32, size: u32, flags: u32)
    requires |t| == 3072 && physical % 4096 == 0
    ensures PageResult(t, physical, size, flags, 0, PT.Page(t, physical, size, flags))
    ensures PT.Page(t, physical, size, flags).Panic? <==> Bit(flags, 2) || NoRoom(t, size / 4096 + 1)
  {
    var n := size / 4096 + 1;
    assert PT.PageCount(size) == n;
    PT.HasIsBit(flags);
    FirstFitIsLeastRoom(t, n);
    hide PT.WithChain, LeastRoom, NoRoom, MappedAt, PT.Fits;
    var fit := PT.FirstFit(t, n, 0);
    if fit.Some? {
      FitBounds(t, fit.value, n);
      ChainIsMapped(t, fit.value, n, physical, flags);
      if !Bit(flags, 2) {
        var r := PT.Page(t, physical, size, flags);
        assert r == Done((PT.WithChain(t, fit.value, n, physical, flags), 0xC000_0000 + 4096 * fit.value));
        assert LeastRoom(t, fit.value, size / 4096 + 1);
        assert MappedAt(t, r.value.0, fit.value, size / 4096 + 1, physical, flags);
      }
    }
  }

  /** `page` panics exactly for a user-space request and when there is no room, whatever the address. */
  lemma PageFails(t: seq<u32>, physical: u32, size: u32, flags: u32)
    requires |t| == 3072
    ensures PT.Page(t, physical, size, flags).Panic? <==> Bit(flags, 2) || NoRoom(t, size / 4096 + 1)
    ensures !PT.Page(t, physical, size, flags).Wild?
  {
    assert PT.PageCount(size) == size / 4096 + 1;
    PT.HasIsBit(flags);
    FirstFitIsLeastRoom(t, size / 4096 + 1);
  }

  lemma FitBounds(t: seq<u32>, slot: nat, n: nat)
    requires PT.Fits(t, slot, n)
    ensures slot + n < |t|
  {
  }

  /** `page_unaligned` succeeds for every physical address, aligned or not, whenever there is room, and
      returns the pointer to that very byte. */
  lemma PageUnalignedIs(t: seq<u32>, physical: u32, size: u32, flags: u32)
    requires |t| == 3072
    ensures PageResult(t, physical - physical % 4096, size, flags, physical % 4096, PT.PageUnaligned(t, physical, size, flags))
    ensures PT.PageUnaligned(t, physical, size, flags).Panic? <==> Bit(flags, 2) || NoRoom(t, size / 4096 + 1)
  {
    PageAlignIs(physical);
    PageIs(t, physical - physical % 4096, size, flags);
    hide LeastRoom, NoRoom, MappedAt, PT.Page;
    var r := PT.Page(t, physical - physical % 4096, size, flags);
    if r.Done? {
      var slot: nat :| LeastRoom(t, slot, size / 4096 + 1) && r.value.1 == 0xC000_0000 + 4096 * slot
        && MappedAt(t, r.value.0, slot, size / 4096 + 1, physical - physical % 4096, flags);
      RoomBounds(t, slot, size / 4096 + 1);
    }
  }

  lemma SlotBytes(slot: nat, low: nat)
    requires slot < 3072 && low < 4096
    ensures PT.PointerTo(slot) == 0xC000_0000 + 4096 * slot
    ensures Wrap(PT.PointerTo(slot) + low) == 0xC000_0000 + 4096 * slot + low
  {
  }

  lemma RoomBounds(t: seq<u32>, slot: nat, n: nat)
    requires LeastRoom(t, slot, n)
    ensures slot + n < |t|
  {
  }

  // ----- unpage and get_physical_address

  /** t' is t with n entries from `slot` on cleared. */
  ghost predicate ClearedAt(t: seq<u32>, t': seq<u32>, slot: nat, n: nat) {
    |t'| == |t| && forall j | 0 <= j < |t| :: t'[j] == if slot <= j < slot + n then 0 else t[j]
  }

  lemma ClearedChain(t: seq<u32>, slot: nat, n: nat)
    requires slot + n <= |t|
    ensures ClearedAt(t, PT.Cleared(t, slot, n), slot, n)
  {
  }

  /** The slot of a pointer into kernel space. */
  function SlotAt(pointer: u32): int {
    (pointer - 0xC000_0000) / 4096
  }

  lemma SlotIs(pointer: u32)
    ensures PT.InKernelSpace(pointer) <==> pointer >= 0xC000_0000
    ensures PT.InKernelSpace(pointer) ==> PT.SlotOf(pointer) == SlotAt(pointer)
  {
    PT.IndexArithmetic(pointer);
    PointerParts(pointer);
  }

  /** `unpage` of the pointer to any byte of the page at `slot`: k entries that carry neither the lock
      nor the end marker, and one that carries either. */
  lemma UnpageIs(t: seq<u32>, slot: nat, low: nat, k: nat)
    requires |t| == 3072 && slot + k < |t| && low < 4096
    requires forall j | slot <= j < slot + k :: !Bit(t[j], 10) && !Bit(t[j], 11)
    requires Bit(t[slot + k], 10) || Bit(t[slot + k], 11)
    ensures var r := PT.Unpage(t, 0xC000_0000 + 4096 * slot + low);
      if Bit(t[slot + k], 11) then r == Panic
      else
        r.Done? && r.value.1 == k + 1 && ClearedAt(t, r.value.0, slot, k + 1)
  {
    PT.SlotOfPointer(slot, low);
    forall j | slot <= j <= slot + k
      ensures PT.Stops(t[j]) <==> Bit(t[j], 10) || Bit(t[j], 11)
      ensures PT.Has(t[j], PT.PTF_AEON_LOCKED) <==> Bit(t[j], 11)
    {
      PT.HasIsBit(t[j]);
    }
    assert PT.StopIndex(t, slot) == slot + k;
  }

  /** Without such an entry up to the end of the table, `unpage` leaves it. */
  lemma UnpageLeavesTable(t: seq<u32>, slot: nat, low: nat)
    requires |t| == 3072 && slot < |t| && low < 4096
    ensures PT.Unpage(t, 0xC000_0000 + 4096 * slot + low) == Wild
            <==> forall j | slot <= j < |t| :: !Bit(t[j], 10) && !Bit(t[j], 11)
  {
    PT.SlotOfPointer(slot, low);
    forall j | slot <= j < |t|
      ensures PT.Stops(t[j]) <==> Bit(t[j], 10) || Bit(t[j], 11)
    {
      PT.HasIsBit(t[j]);
    }
  }

  /** `get_physical_address`: the page address in the entry of the pointer, or 0 below kernel space. */
  lemma PhysicalAddressIs(t: seq<u32>, pointer: u32)
    requires |t| == 3072
    ensures pointer < 0xC000_0000 ==> PT.PhysicalAddress(t, pointer) == Done(0)
    ensures 0xC000_0000 <= pointer < 0xC0C0_0000 ==>
      var entry := t[(pointer - 0xC000_0000) / 4096];
      PT.PhysicalAddress(t, pointer) == Done(entry - entry % 4096)
    ensures 0xC0C0_0000 <= pointer ==> PT.PhysicalAddress(t, pointer) == Wild
  {
    PT.IndexArithmetic(pointer);
    PointerParts(pointer);
    if 0xC000_0000 <= pointer < 0xC0C0_0000 {
      PT.FrameIs(t[(pointer - 0xC000_0000) / 4096]);
    }
  }

  lemma PointerParts(pointer: u32)
    ensures pointer / 0x40_0000 % 0x400 >= 768 <==> pointer >= 0xC000_0000
    ensures pointer >= 0xC000_0000 ==>
      (pointer / 0x40_0000 % 0x400 - 768) * 1024 + pointer / 0x1000 % 0x400 == (pointer - 0xC000_0000) / 4096
  {
    PT.PageArithmetic(pointer);
  }

  // ----- the highest free address

  /** The page an entry points at. */
  function PageOf(entry: u32): nat {
    entry - entry % 4096
  }

  ghost predicate IsHighest(t: seq<u32>, j: nat) {
    j < |t| && forall i | 0 <= i < |t| :: PageOf(t[i]) <= PageOf(t[j])
  }

  /** `compute_highest_free_address` returns the page behind the highest page any entry points at, and
      the second page when none points anywhere. */
  lemma HighestFreeAddressIs(t: seq<u32>, j: nat)
    requires IsHighest(t, j)
    ensures PT.HighestFreeAddress(t) == (PageOf(t[j]) + 4096) % 0x1_0000_0000
  {
    PT.HighestFrameIsHighest(t);
    forall i | 0 <= i < |t|
      ensures PT.FrameOf(t[i]) == PageOf(t[i])
    {
      PT.FrameIs(t[i]);
    }
  }

  lemma {:induction false} HighestEntry(t: seq<u32>) returns (j: nat)
    requires |t| > 0
    ensures IsHighest(t, j)
  {
    hide PageOf;
    j := 0;
    if |t| > 1 {
      var front := t[..|t| - 1];
      j := HighestEntry(front);
      assert forall i | 0 <= i < |t| - 1 :: front[i] == t[i];
      if PageOf(t[j]) < PageOf(t[|t| - 1]) {
        j := |t| - 1;
      }
    }
  }
}
