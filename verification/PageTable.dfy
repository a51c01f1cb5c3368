/** The kernel page tables of kernel/memory/paging.c as a value: three contiguous
    tables, read as one sequence of 3072 entries that map 0xC0000000 upwards.

    This module says what `page`, `unpage`, `get_physical_address` and the slot
    search compute, and proves what they keep.  `Paging.KernelPageTables` holds
    the loops that compute it in place. */
module PageTable {
  import opened Bits
  import opened Outcomes
  import opened Align

  const PTF_PRESENT: u32 := 0x001
  const PTF_READ_WRITE: u32 := 0x002
  const PTF_USER: u32 := 0x004
  const PTF_AEON_END_OF_BLOCK: u32 := 0x400
  const PTF_AEON_LOCKED: u32 := 0x800

  const FREE_ENTRY: u32 := 0

  const PAGE_TABLE_LEN: nat := 1024
  const KERNEL_PAGE_TABLES_LEN: nat := 3072
  const KERNEL_FIRST_PAGE_ADDRESS: u32 := 0xC000_0000
  const KERNEL_FIRST_PAGE_TABLE_OFFSET: nat := 768
  const OUT_OF_FREE_BLOCKS: u32 := 0xffff_ffff

  // ----- entries

  predicate Has(entry: u32, flag: u32) {
    And(entry, flag) != 0
  }

  /** Neither a present nor a locked entry may be handed out. */
  predicate InUse(entry: u32) {
    Has(entry, PTF_PRESENT) || Has(entry, PTF_AEON_LOCKED)
  }

  function FrameOf(entry: u32): u32 {
    AndBound(entry, Not(0xfff));
    And(entry, Not(0xfff))
  }

  /** The address of the k-th page of an object that starts at `physical`. */
  function PageFrame(physical: u32, k: nat): u32 {
    Wrap(physical + k * PAGE_SIZE)
  }

  lemma NextFrame(physical: u32, k: nat)
    ensures PageFrame(physical, 0) == physical
    ensures PageFrame(physical, k + 1) == Wrap(PageFrame(physical, k) + PAGE_SIZE)
  {
  }

  function Entry(physical: u32, flags: u32): u32 {
    Join(Join(physical, flags), PTF_PRESENT)
  }

  /** The k-th of the `len` entries that map an object; the last one carries the end marker. */
  function ChainEntry(physical: u32, flags: u32, k: nat, len: nat): u32 {
    var entry := Entry(PageFrame(physical, k), flags);
    if k == len - 1 then Join(entry, PTF_AEON_END_OF_BLOCK) else entry
  }

  /** Flags a caller may pass: no address bits, and none of the two marks the kernel keeps for itself. */
  predicate PlainFlags(flags: u32) {
    flags < PAGE_SIZE && !Has(flags, PTF_AEON_END_OF_BLOCK) && !Has(flags, PTF_AEON_LOCKED)
  }

  // ----- searching for slots

  /** n free entries in a row start at i and do not reach the last entry of the table. */
  predicate Fits(t: seq<u32>, i: int, n: nat) {
    0 <= i && i + n < |t| && forall k | i <= k < i + n :: !InUse(t[k])
  }

  function FirstFit(t: seq<u32>, n: nat, from: nat): (r: Option<nat>)
    ensures r.Some? ==> from <= r.value && Fits(t, r.value, n) && forall i | from <= i < r.value :: !Fits(t, i, n)
    ensures r.None? ==> forall i | from <= i :: !Fits(t, i, n)
    decreases |t| - from
  {
    if from >= |t| then None
    else if Fits(t, from, n) then Some(from)
    else FirstFit(t, n, from + 1)
  }

  // ----- mapping and unmapping

  function PageCount(size: u32): nat {
    size / PAGE_SIZE + 1
  }

  function EntryWithChain(t: seq<u32>, slot: nat, len: nat, physical: u32, flags: u32, j: nat): u32
    requires j < |t|
  {
    if slot <= j < slot + len then ChainEntry(physical, flags, j - slot, len) else t[j]
  }

  function WithChain(t: seq<u32>, slot: nat, len: nat, physical: u32, flags: u32): (r: seq<u32>)
    requires slot + len <= |t|
    ensures |r| == |t|
  {
    seq(|t|, j requires 0 <= j < |t| => EntryWithChain(t, slot, len, physical, flags, j))
  }

  /** Entry j once `len` entries from `slot` on are written and none is marked yet. */
  function Unmarked(t: seq<u32>, slot: nat, len: nat, physical: u32, flags: u32, j: nat): u32
    requires j < |t|
  {
    if slot <= j < slot + len then Entry(PageFrame(physical, j - slot), flags) else t[j]
  }

  lemma MarkingCompletesChain(t: seq<u32>, t': seq<u32>, slot: nat, len: nat, physical: u32, flags: u32)
    requires 0 < len && slot + len <= |t| == |t'|
    requires forall j | 0 <= j < |t| && j != slot + len - 1 :: t'[j] == Unmarked(t, slot, len, physical, flags, j)
    requires t'[slot + len - 1] == Join(Unmarked(t, slot, len, physical, flags, slot + len - 1), PTF_AEON_END_OF_BLOCK)
    ensures t' == WithChain(t, slot, len, physical, flags)
  {
  }

  function ClearedEntry(t: seq<u32>, slot: nat, len: nat, j: nat): u32
    requires j < |t|
  {
    if slot <= j < slot + len then FREE_ENTRY else t[j]
  }

  function Cleared(t: seq<u32>, slot: nat, len: nat): (r: seq<u32>)
    requires slot + len <= |t|
    ensures |r| == |t|
  {
    seq(|t|, j requires 0 <= j < |t| => ClearedEntry(t, slot, len, j))
  }

  function PointerTo(slot: nat): u32
    requires slot < KERNEL_PAGE_TABLES_LEN
  {
    KERNEL_FIRST_PAGE_ADDRESS + slot * PAGE_SIZE
  }

  /** The table after `page`, and the pointer it returns.  User-space requests search an empty table. */
  function Page(t: seq<u32>, physical: u32, size: u32, flags: u32): Outcome<(seq<u32>, u32)>
    requires |t| == KERNEL_PAGE_TABLES_LEN
  {
    var slot := FirstFit(t, PageCount(size), 0);
    if Has(flags, PTF_USER) || slot.None? then Panic
    else Done((WithChain(t, slot.value, PageCount(size), physical, flags), PointerTo(slot.value)))
  }

  function PageUnaligned(t: seq<u32>, physical: u32, size: u32, flags: u32): Outcome<(seq<u32>, u32)>
    requires |t| == KERNEL_PAGE_TABLES_LEN
  {
    match Page(t, PageAlign(physical), size, flags)
    case Done((t', pointer)) => Done((t', Wrap(pointer + (physical - PageAlign(physical)))))
    case Panic => Panic
    case Wild => Wild
  }

  function DirIndex(pointer: u32): nat {
    And(pointer / 0x40_0000, 0x3ff)
  }

  function TableIndex(pointer: u32): nat {
    And(pointer / 0x1000, 0x3ff)
  }

  predicate InKernelSpace(pointer: u32) {
    DirIndex(pointer) >= KERNEL_FIRST_PAGE_TABLE_OFFSET
  }

  function SlotOf(pointer: u32): nat
    requires InKernelSpace(pointer)
  {
    (DirIndex(pointer) - KERNEL_FIRST_PAGE_TABLE_OFFSET) * PAGE_TABLE_LEN + TableIndex(pointer)
  }

  function PhysicalAddress(t: seq<u32>, pointer: u32): Outcome<u32> {
    if !InKernelSpace(pointer) then Done(0)
    else if SlotOf(pointer) >= |t| then Wild
    else Done(FrameOf(t[SlotOf(pointer)]))
  }

  /** `unpage` goes on until it meets a locked entry or an end marker. */
  predicate Stops(entry: u32) {
    Has(entry, PTF_AEON_LOCKED) || Has(entry, PTF_AEON_END_OF_BLOCK)
  }

  function StopIndex(t: seq<u32>, from: nat): (stop: nat)
    requires from <= |t|
    ensures from <= stop <= |t|
    ensures forall k | from <= k < stop :: !Stops(t[k])
    ensures stop < |t| ==> Stops(t[stop])
    decreases |t| - from
  {
    if from == |t| || Stops(t[from]) then from else StopIndex(t, from + 1)
  }

  /** The table after `unpage`, and the number of entries it cleared. */
  function Unpage(t: seq<u32>, pointer: u32): Outcome<(seq<u32>, nat)> {
    if !InKernelSpace(pointer) || SlotOf(pointer) >= |t| then Wild
    else
      var slot := SlotOf(pointer);
      var stop := StopIndex(t, slot);
      if stop == |t| then Wild
      else if Has(t[stop], PTF_AEON_LOCKED) then Panic
      else Done((Cleared(t, slot, stop + 1 - slot), stop + 1 - slot))
  }

  function HighestFrame(t: seq<u32>): u32 {
    if |t| == 0 then 0
    else
      var below, frame := HighestFrame(t[..|t| - 1]), FrameOf(t[|t| - 1]);
      if below > frame then below else frame
  }

  function HighestFreeAddress(t: seq<u32>): u32 {
    Wrap(HighestFrame(t) + PAGE_SIZE)
  }

  /** No entry of the table points above the highest frame, which is itself page aligned. */
  lemma {:induction false} HighestFrameIsHighest(t: seq<u32>)
    ensures HighestFrame(t) % PAGE_SIZE == 0
    ensures forall j | 0 <= j < |t| :: FrameOf(t[j]) <= HighestFrame(t)
    ensures HighestFrame(t) != 0 ==> exists j | 0 <= j < |t| :: FrameOf(t[j]) == HighestFrame(t)
  {
    if |t| > 0 {
      HighestFrameIsHighest(t[..|t| - 1]);
      FrameIs(t[|t| - 1]);
      assert forall j | 0 <= j < |t| - 1 :: t[..|t| - 1][j] == t[j];
    }
  }

  /** n free entries in a row, wherever in the table they end. */
  ghost predicate FreeRun(t: seq<u32>, i: int, n: nat) {
    0 <= i && i + n <= |t| && forall k | i <= k < i + n :: !InUse(t[k])
  }

  /** The search fails exactly when the only free run long enough, if there is one, is an exact fit
      at the end of the table. */
  lemma RefusedIffOnlyExactFit(t: seq<u32>, n: nat)
    ensures FirstFit(t, n, 0).None? <==> forall i :: FreeRun(t, i, n) ==> i + n == |t|
  {
    var r := FirstFit(t, n, 0);
    if r.Some? {
      assert FreeRun(t, r.value, n);
    } else {
      forall i | FreeRun(t, i, n)
        ensures i + n == |t|
      {
        assert !Fits(t, i, n);
      }
    }
  }

  // ----- what an entry decodes to

  lemma EntrySum(physical: u32, flags: u32)
    requires physical % PAGE_SIZE == 0 && flags < PAGE_SIZE
    ensures Entry(physical, flags) == physical + Or(flags, PTF_PRESENT)
    ensures Or(flags, PTF_PRESENT) < PAGE_SIZE
  {
    OrBelowPage(flags, PTF_PRESENT);
    OrAssociative(physical, flags, PTF_PRESENT);
    OrPage(physical, Or(flags, PTF_PRESENT));
  }

  lemma FrameIs(entry: u32)
    ensures FrameOf(entry) == entry - entry % PAGE_SIZE
  {
    AndPageMask(entry);
  }

  lemma FrameOfSum(physical: u32, low: nat)
    requires physical % PAGE_SIZE == 0 && low < PAGE_SIZE
    ensures physical + low < 0x1_0000_0000
    ensures FrameOf(physical + low) == physical
  {
    FrameIs(physical + low);
  }

  lemma MarkKeepsFrame(frame: u32, low: nat)
    requires frame % PAGE_SIZE == 0 && low < PAGE_SIZE
    ensures frame + low < 0x1_0000_0000
    ensures FrameOf(Join(frame + low, PTF_AEON_END_OF_BLOCK)) == frame
  {
    OrPage(frame, low);
    OrAssociative(frame, low, PTF_AEON_END_OF_BLOCK);
    OrBelowPage(low, PTF_AEON_END_OF_BLOCK);
    OrPage(frame, Or(low, PTF_AEON_END_OF_BLOCK));
    FrameOfSum(frame, Or(low, PTF_AEON_END_OF_BLOCK));
  }

  lemma FrameOfEntry(frame: u32, flags: u32)
    requires frame % PAGE_SIZE == 0 && flags < PAGE_SIZE
    ensures FrameOf(Entry(frame, flags)) == frame
    ensures FrameOf(Join(Entry(frame, flags), PTF_AEON_END_OF_BLOCK)) == frame
  {
    EntrySum(frame, flags);
    FrameOfSum(frame, Or(flags, PTF_PRESENT));
    MarkKeepsFrame(frame, Or(flags, PTF_PRESENT));
  }

  /** The end marker is a bit of its own: setting it changes neither the frame nor any other flag. */
  lemma ChainEntryFields(physical: u32, flags: u32, k: nat, len: nat)
    requires physical % PAGE_SIZE == 0 && PlainFlags(flags)
    ensures var entry := ChainEntry(physical, flags, k, len);
      && FrameOf(entry) == PageFrame(physical, k)
      && Has(entry, PTF_PRESENT)
      && !Has(entry, PTF_AEON_LOCKED)
      && (Has(entry, PTF_AEON_END_OF_BLOCK) <==> k == len - 1)
  {
    PageFrameAligned(physical, k);
    EntryFields(PageFrame(physical, k), flags);
  }

  lemma PageFrameAligned(physical: u32, k: nat)
    requires physical % PAGE_SIZE == 0
    ensures PageFrame(physical, k) % PAGE_SIZE == 0
  {
  }

  lemma EntryFields(frame: u32, flags: u32)
    requires frame % PAGE_SIZE == 0 && PlainFlags(flags)
    ensures var entry := Entry(frame, flags);
      && FrameOf(entry) == FrameOf(Join(entry, PTF_AEON_END_OF_BLOCK)) == frame
      && Has(entry, PTF_PRESENT) && Has(Join(entry, PTF_AEON_END_OF_BLOCK), PTF_PRESENT)
      && !Has(entry, PTF_AEON_LOCKED) && !Has(Join(entry, PTF_AEON_END_OF_BLOCK), PTF_AEON_LOCKED)
      && !Has(entry, PTF_AEON_END_OF_BLOCK) && Has(Join(entry, PTF_AEON_END_OF_BLOCK), PTF_AEON_END_OF_BLOCK)
  {
    FrameOfEntry(frame, flags);
    FlagsOfEntry(frame, flags);
    FlagsOfEnd(Entry(frame, flags));
  }

  lemma HasIsBit(entry: u32)
    ensures Has(entry, PTF_PRESENT) <==> Bit(entry, 0)
    ensures Has(entry, PTF_READ_WRITE) <==> Bit(entry, 1)
    ensures Has(entry, PTF_USER) <==> Bit(entry, 2)
    ensures Has(entry, PTF_AEON_END_OF_BLOCK) <==> Bit(entry, 10)
    ensures Has(entry, PTF_AEON_LOCKED) <==> Bit(entry, 11)
  {
    Pow2Values();
    assert Pow2(1) == 2 && Pow2(2) == 4;
    TestBit(entry, 0);
    TestBit(entry, 1);
    TestBit(entry, 2);
    TestBit(entry, 10);
    TestBit(entry, 11);
  }

  lemma FlagsOfEntry(physical: u32, flags: u32)
    requires physical % PAGE_SIZE == 0 && PlainFlags(flags)
    ensures Has(Entry(physical, flags), PTF_PRESENT)
    ensures !Has(Entry(physical, flags), PTF_AEON_LOCKED)
    ensures !Has(Entry(physical, flags), PTF_AEON_END_OF_BLOCK)
  {
    var both := Join(physical, flags);
    HasIsBit(Entry(physical, flags));
    HasIsBit(flags);
    HasIsBit(PTF_PRESENT);
    FrameBitsClear(physical);
    forall k | k in {0, 10, 11}
      ensures Bit(Entry(physical, flags), k) <==> Bit(flags, k) || Bit(PTF_PRESENT, k)
    {
      BitOr(both, PTF_PRESENT, k);
      BitOr(physical, flags, k);
    }
  }

  lemma FrameBitsClear(physical: u32)
    requires physical % PAGE_SIZE == 0
    ensures !Bit(physical, 0) && !Bit(physical, 10) && !Bit(physical, 11)
  {
    Pow2Values();
    LowIsRemainder(physical, 12);
    LowBitsClear(physical, 12, 0);
    LowBitsClear(physical, 12, 10);
    LowBitsClear(physical, 12, 11);
  }

  lemma {:induction false} LowBitsClear(a: nat, n: nat, k: nat)
    requires Low(a, n) == 0 && k < n
    ensures !Bit(a, k)
    decreases n
  {
    if k > 0 {
      LowBitsClear(a / 2, n - 1, k - 1);
    }
  }

  lemma FlagsOfEnd(entry: u32)
    ensures var marked := Join(entry, PTF_AEON_END_OF_BLOCK);
      && Has(marked, PTF_AEON_END_OF_BLOCK)
      && (Has(marked, PTF_PRESENT) <==> Has(entry, PTF_PRESENT))
      && (Has(marked, PTF_AEON_LOCKED) <==> Has(entry, PTF_AEON_LOCKED))
  {
    HasIsBit(entry);
    HasIsBit(PTF_AEON_END_OF_BLOCK);
    HasIsBit(Join(entry, PTF_AEON_END_OF_BLOCK));
    BitOr(entry, PTF_AEON_END_OF_BLOCK, 0);
    BitOr(entry, PTF_AEON_END_OF_BLOCK, 10);
    BitOr(entry, PTF_AEON_END_OF_BLOCK, 11);
  }

  // ----- pointers

  lemma IndexArithmetic(pointer: u32)
    ensures DirIndex(pointer) == pointer / 0x40_0000 % 0x400
    ensures TableIndex(pointer) == pointer / 0x1000 % 0x400
  {
    AndTableMask(pointer / 0x40_0000);
    AndTableMask(pointer / 0x1000);
  }

  lemma PointerArithmetic(slot: nat, offset: nat)
    requires slot < KERNEL_PAGE_TABLES_LEN && offset < PAGE_SIZE
    ensures var pointer := PointerTo(slot) + offset;
      && pointer < 0x1_0000_0000
      && pointer / 0x40_0000 % 0x400 == 768 + slot / 0x400
      && pointer / 0x1000 % 0x400 == slot % 0x400
      && pointer % PAGE_SIZE == offset
  {
    var pointer := PointerTo(slot) + offset;
    assert pointer / 0x1000 == 0xC_0000 + slot;
    assert pointer / 0x40_0000 == pointer / 0x1000 / 0x400;
  }

  /** Splitting a kernel pointer into directory index, table index and offset, and the index computed
      from the first two, finds the slot again, whichever of the three tables it lies in. */
  lemma SlotOfPointer(slot: nat, offset: nat)
    requires slot < KERNEL_PAGE_TABLES_LEN && offset < PAGE_SIZE
    ensures var pointer := PointerTo(slot) + offset;
      && pointer < 0x1_0000_0000
      && InKernelSpace(pointer)
      && SlotOf(pointer) == slot
      && pointer % PAGE_SIZE == offset
  {
    PointerArithmetic(slot, offset);
    IndexArithmetic(PointerTo(slot) + offset);
  }

  lemma PageArithmetic(pointer: u32)
    ensures pointer / 0x40_0000 == pointer / 0x1000 / 0x400
    ensures pointer / 0x40_0000 % 0x400 == pointer / 0x40_0000
    ensures pointer == pointer / 0x1000 * 0x1000 + pointer % 0x1000
  {
  }

  /** Conversely, every pointer into the mapped kernel space is the pointer to its slot plus its low 12 bits. */
  lemma PointerOfSlot(pointer: u32)
    requires InKernelSpace(pointer) && SlotOf(pointer) < KERNEL_PAGE_TABLES_LEN
    ensures pointer == PointerTo(SlotOf(pointer)) + pointer % PAGE_SIZE
  {
    IndexArithmetic(pointer);
    PageArithmetic(pointer);
    var page := pointer / 0x1000;
    assert SlotOf(pointer) == (page / 0x400 - 768) * 0x400 + page % 0x400 == page - 0xC_0000;
  }

  // ----- the table invariant

  /** What one call of `page` asked for: `len` entries for the object at `physical`. */
  datatype Mapping = Mapping(len: nat, physical: u32, flags: u32)

  /** The mappings that have been made and not yet undone, by their first slot. */
  type Live = map<nat, Mapping>

  ghost predicate ChainAt(t: seq<u32>, slot: nat, m: Mapping) {
    && 0 < m.len
    && slot + m.len < |t|
    && m.physical % PAGE_SIZE == 0
    && PlainFlags(m.flags)
    && forall j | slot <= j < slot + m.len :: t[j] == ChainEntry(m.physical, m.flags, j - slot, m.len)
  }

  ghost predicate Covers(live: Live, slot: nat, j: int) {
    slot in live && slot <= j < slot + live[slot].len
  }

  ghost predicate Disjoint(live: Live) {
    forall s, s' | s in live && s' in live && s < s' :: s + live[s].len <= s'
  }

  ghost predicate Accounted(t: seq<u32>, boot: seq<u32>, live: Live)
    requires |t| == |boot|
  {
    forall j | 0 <= j < |t| && boot[j] == 0 && t[j] != 0 :: exists s :: Covers(live, s, j)
  }

  /** The kernel table is partitioned: an entry that was there at boot is unchanged, every other
      entry either belongs to one live chain or is zero, and each chain carries the end marker on
      its last entry and nowhere else (`ChainEntry`). */
  ghost predicate Partitioned(t: seq<u32>, boot: seq<u32>, live: Live) {
    && |t| == |boot| == KERNEL_PAGE_TABLES_LEN
    && (forall j | 0 <= j < |t| && boot[j] != 0 :: t[j] == boot[j] && Has(boot[j], PTF_PRESENT))
    && (forall s | s in live :: ChainAt(t, s, live[s]))
    && (forall s, j | s in live && s <= j < s + live[s].len :: boot[j] == 0)
    && Disjoint(live)
    && Accounted(t, boot, live)
  }

  /** A table fresh from boot: every entry is zero or present. */
  ghost predicate BootTable(boot: seq<u32>) {
    |boot| == KERNEL_PAGE_TABLES_LEN && forall j | 0 <= j < |boot| && boot[j] != 0 :: Has(boot[j], PTF_PRESENT)
  }

  lemma BootIsPartitioned(boot: seq<u32>)
    requires BootTable(boot)
    ensures Partitioned(boot, boot, map[])
  {
  }

  lemma ZeroIsFree()
    ensures !Has(0, PTF_PRESENT) && !Has(0, PTF_AEON_LOCKED) && !Has(0, PTF_AEON_END_OF_BLOCK)
  {
  }

  lemma ChainIsPresent(t: seq<u32>, slot: nat, m: Mapping, j: nat)
    requires ChainAt(t, slot, m) && slot <= j < slot + m.len
    ensures Has(t[j], PTF_PRESENT) && !Has(t[j], PTF_AEON_LOCKED)
    ensures Has(t[j], PTF_AEON_END_OF_BLOCK) <==> j == slot + m.len - 1
  {
    ChainEntryFields(m.physical, m.flags, j - slot, m.len);
  }

  /** In a partitioned table the free entries are exactly the zero ones. */
  lemma FreeIsZero(t: seq<u32>, boot: seq<u32>, live: Live, j: nat)
    requires Partitioned(t, boot, live) && j < |t|
    ensures !InUse(t[j]) <==> t[j] == 0
    ensures t[j] == 0 ==> boot[j] == 0 && forall s :: !Covers(live, s, j)
  {
    ZeroIsFree();
    if s :| Covers(live, s, j) {
      ChainIsPresent(t, s, live[s], j);
    }
  }

  /** Whatever is mapped next takes entries that were zero, so they belong to nobody. */
  lemma FitIsUnused(t: seq<u32>, boot: seq<u32>, live: Live, slot: nat, n: nat)
    requires Partitioned(t, boot, live) && Fits(t, slot, n)
    ensures forall j | slot <= j < slot + n :: t[j] == 0 && boot[j] == 0
    ensures forall j, s | slot <= j < slot + n :: !Covers(live, s, j)
  {
    forall j, s | slot <= j < slot + n
      ensures t[j] == 0 && boot[j] == 0 && !Covers(live, s, j)
    {
      FreeIsZero(t, boot, live, j);
    }
  }

  lemma FitIsApart(t: seq<u32>, boot: seq<u32>, live: Live, slot: nat, n: nat, s: nat)
    requires Partitioned(t, boot, live) && Fits(t, slot, n) && n > 0 && s in live
    ensures s + live[s].len <= slot || slot + n <= s
  {
    FitIsUnused(t, boot, live, slot, n);
    assert ChainAt(t, s, live[s]);
    assert !Covers(live, s, slot);
    if slot <= s < slot + n {
      assert Covers(live, s, s);
    }
  }

  lemma ChainUnchanged(t: seq<u32>, t': seq<u32>, slot: nat, m: Mapping)
    requires ChainAt(t, slot, m) && |t'| == |t|
    requires forall j | slot <= j < slot + m.len :: t'[j] == t[j]
    ensures ChainAt(t', slot, m)
  {
  }

  /** `page` keeps the partition and adds exactly one chain. */
  lemma PageKeepsPartition(t: seq<u32>, boot: seq<u32>, live: Live, slot: nat, m: Mapping)
    requires Partitioned(t, boot, live) && Fits(t, slot, m.len) && m.len > 0
    requires m.physical % PAGE_SIZE == 0 && PlainFlags(m.flags)
    ensures slot !in live
    ensures Partitioned(WithChain(t, slot, m.len, m.physical, m.flags), boot, live[slot := m])
  {
    var t' := WithChain(t, slot, m.len, m.physical, m.flags);
    var live' := live[slot := m];
    FitIsUnused(t, boot, live, slot, m.len);
    assert !Covers(live, slot, slot);
    forall s | s in live
      ensures s + live[s].len <= slot || slot + m.len <= s
      ensures ChainAt(t', s, live[s])
    {
      FitIsApart(t, boot, live, slot, m.len, s);
      ChainUnchanged(t, t', s, live[s]);
    }
    assert ChainAt(t', slot, m);
    ChainIsCovered(t, boot, live, slot, m);
  }

  lemma ChainIsCovered(t: seq<u32>, boot: seq<u32>, live: Live, slot: nat, m: Mapping)
    requires Partitioned(t, boot, live) && slot + m.len <= |t| && slot !in live
    ensures Accounted(WithChain(t, slot, m.len, m.physical, m.flags), boot, live[slot := m])
  {
    var t' := WithChain(t, slot, m.len, m.physical, m.flags);
    var live' := live[slot := m];
    forall j | 0 <= j < |t'| && boot[j] == 0 && t'[j] != 0
      ensures exists s :: Covers(live', s, j)
    {
      if slot <= j < slot + m.len {
        assert Covers(live', slot, j);
      } else {
        var s :| Covers(live, s, j);
        assert Covers(live', s, j);
      }
    }
  }

  lemma ClearingKeepsPartition(t: seq<u32>, boot: seq<u32>, live: Live, slot: nat)
    requires Partitioned(t, boot, live) && slot in live
    ensures slot + live[slot].len < |t|
    ensures Partitioned(Cleared(t, slot, live[slot].len), boot, live - {slot})
  {
    assert ChainAt(t, slot, live[slot]);
    var t' := Cleared(t, slot, live[slot].len);
    var live' := live - {slot};
    forall s | s in live'
      ensures ChainAt(t', s, live'[s])
    {
      ChainUnchanged(t, t', s, live[s]);
    }
    forall j | 0 <= j < |t'| && boot[j] == 0 && t'[j] != 0
      ensures exists s :: Covers(live', s, j)
    {
      var s :| Covers(live, s, j);
      assert Covers(live', s, j);
    }
  }

  lemma ChainInTable(t: seq<u32>, boot: seq<u32>, live: Live, slot: nat)
    requires Partitioned(t, boot, live) && slot in live
    ensures 0 < live[slot].len && slot + live[slot].len < KERNEL_PAGE_TABLES_LEN
    ensures FrameOf(t[slot]) == live[slot].physical
    ensures ChainAt(t, slot, live[slot])
  {
    assert ChainAt(t, slot, live[slot]);
    LiveEntryFrame(t, boot, live, slot, 0);
    NextFrame(live[slot].physical, 0);
  }

  /** On a pointer into the first page of a live chain, `get_physical_address` returns the start of
      the object, and `unpage` neither leaves the table nor meets a locked entry: it clears that
      chain, returns its length, and keeps the partition. */
  lemma UnpageKeepsPartition(t: seq<u32>, boot: seq<u32>, live: Live, pointer: u32)
    requires Partitioned(t, boot, live) && InKernelSpace(pointer) && SlotOf(pointer) in live
    ensures var slot := SlotOf(pointer); var m := live[slot];
      && 0 < m.len && slot + m.len < KERNEL_PAGE_TABLES_LEN
      && PhysicalAddress(t, pointer) == Done(m.physical)
      && Unpage(t, pointer) == Done((Cleared(t, slot, m.len), m.len))
      && Partitioned(Cleared(t, slot, m.len), boot, live - {slot})
  {
    var slot := SlotOf(pointer);
    ChainInTable(t, boot, live, slot);
    UnpageChain(t, pointer, live[slot]);
    ClearingKeepsPartition(t, boot, live, slot);
  }

  lemma UnpageChain(t: seq<u32>, pointer: u32, m: Mapping)
    requires InKernelSpace(pointer) && ChainAt(t, SlotOf(pointer), m)
    ensures Unpage(t, pointer) == Done((Cleared(t, SlotOf(pointer), m.len), m.len))
  {
    StopsAtEnd(t, SlotOf(pointer), m);
    ChainIsPresent(t, SlotOf(pointer), m, SlotOf(pointer) + m.len - 1);
  }

  lemma StopsAtEnd(t: seq<u32>, slot: nat, m: Mapping)
    requires ChainAt(t, slot, m)
    ensures StopIndex(t, slot) == slot + m.len - 1
    ensures !Has(t[slot + m.len - 1], PTF_AEON_LOCKED)
  {
    var stop := StopIndex(t, slot);
    ChainIsPresent(t, slot, m, slot + m.len - 1);
    if stop < slot + m.len - 1 {
      ChainIsPresent(t, slot, m, stop);
    }
  }

  /** `unpage` undoes `page` entry for entry, also when the pointer has an offset into its first page. */
  lemma UnpageUndoesPage(t: seq<u32>, boot: seq<u32>, live: Live, slot: nat, m: Mapping, offset: nat)
    requires Partitioned(t, boot, live) && Fits(t, slot, m.len) && m.len > 0
    requires m.physical % PAGE_SIZE == 0 && PlainFlags(m.flags) && offset < PAGE_SIZE
    ensures PointerTo(slot) + offset < 0x1_0000_0000
    ensures Unpage(WithChain(t, slot, m.len, m.physical, m.flags), PointerTo(slot) + offset) == Done((t, m.len))
  {
    FitInTable(t, boot, live, slot, m.len);
    hide Partitioned, WithChain, Cleared, Unpage, Fits, SlotOf, InKernelSpace;
    var t' := WithChain(t, slot, m.len, m.physical, m.flags);
    PageKeepsPartition(t, boot, live, slot, m);
    SlotOfPointer(slot, offset);
    UnpageKeepsPartition(t', boot, live[slot := m], PointerTo(slot) + offset);
    ClearingUndoesChain(t, boot, live, slot, m);
  }

  lemma FitInTable(t: seq<u32>, boot: seq<u32>, live: Live, slot: nat, n: nat)
    requires Partitioned(t, boot, live) && Fits(t, slot, n)
    ensures |t| == KERNEL_PAGE_TABLES_LEN && slot + n < |t|
  {
  }

  lemma ClearingUndoesChain(t: seq<u32>, boot: seq<u32>, live: Live, slot: nat, m: Mapping)
    requires Partitioned(t, boot, live) && Fits(t, slot, m.len)
    ensures Cleared(WithChain(t, slot, m.len, m.physical, m.flags), slot, m.len) == t
  {
    FitIsUnused(t, boot, live, slot, m.len);
  }

  lemma LiveEntryFrame(t: seq<u32>, boot: seq<u32>, live: Live, slot: nat, k: nat)
    requires Partitioned(t, boot, live) && slot in live && k < live[slot].len
    ensures slot + k < KERNEL_PAGE_TABLES_LEN
    ensures FrameOf(t[slot + k]) == PageFrame(live[slot].physical, k)
  {
    var m := live[slot];
    assert ChainAt(t, slot, m);
    ChainEntryFields(m.physical, m.flags, k, m.len);
  }

  lemma LookUp(t: seq<u32>, slot: nat, low: nat)
    requires slot < |t| == KERNEL_PAGE_TABLES_LEN && low < PAGE_SIZE
    ensures var pointer := PointerTo(slot) + low;
      && pointer < 0x1_0000_0000
      && pointer % PAGE_SIZE == low
      && PhysicalAddress(t, pointer) == Done(FrameOf(t[slot]))
  {
    SlotOfPointer(slot, low);
  }

  lemma FramePlusOffset(physical: u32, k: nat, low: nat)
    ensures Wrap(PageFrame(physical, k) + low) == Wrap(physical + (k * PAGE_SIZE + low))
  {
  }

  lemma TranslateByte(t: seq<u32>, slot: nat, physical: u32, k: nat, low: nat)
    requires |t| == KERNEL_PAGE_TABLES_LEN && slot + k < |t| && low < PAGE_SIZE
    requires FrameOf(t[slot + k]) == PageFrame(physical, k)
    ensures var pointer := PointerTo(slot + k) + low;
      && pointer < 0x1_0000_0000
      && PhysicalAddress(t, pointer).Done?
      && Wrap(PhysicalAddress(t, pointer).value + pointer % PAGE_SIZE) == Wrap(physical + (k * PAGE_SIZE + low))
  {
    hide PhysicalAddress, FrameOf, PageFrame, Wrap;
    LookUp(t, slot + k, low);
    FramePlusOffset(physical, k, low);
  }

  /** Address translation: for every byte of a live chain, looking up the slot of its pointer and
      adding the low 12 bits gives the byte's physical address, across table boundaries as well. */
  lemma TranslationRoundTrip(t: seq<u32>, boot: seq<u32>, live: Live, slot: nat, offset: nat)
    requires Partitioned(t, boot, live) && slot in live
    requires offset < live[slot].len * PAGE_SIZE
    ensures var pointer := KERNEL_FIRST_PAGE_ADDRESS + slot * PAGE_SIZE + offset;
      && pointer < 0x1_0000_0000
      && PhysicalAddress(t, pointer).Done?
      && Wrap(PhysicalAddress(t, pointer).value + pointer % PAGE_SIZE) == Wrap(live[slot].physical + offset)
  {
    hide PhysicalAddress, FrameOf, PageFrame, Wrap, ChainAt, Accounted, Disjoint;
    var k, low := PageAndByte(offset, live[slot].len);
    LiveEntryFrame(t, boot, live, slot, k);
    TranslateByte(t, slot, live[slot].physical, k, low);
  }

  lemma PageAndByte(offset: nat, len: nat) returns (k: nat, low: nat)
    requires offset < len * PAGE_SIZE
    ensures offset == k * PAGE_SIZE + low && k < len && low < PAGE_SIZE
  {
    k, low := offset / PAGE_SIZE, offset % PAGE_SIZE;
  }

  // ----- unaligned objects

  /** `page_unaligned` returns a pointer that translates back to the exact physical address, and
      `unpage` undoes it as if it had been given the start of the page. */
  lemma UnalignedRoundTrip(t: seq<u32>, boot: seq<u32>, live: Live, physical: u32, size: u32, flags: u32)
    requires Partitioned(t, boot, live) && PlainFlags(flags) && PageUnaligned(t, physical, size, flags).Done?
    ensures var (t', pointer) := PageUnaligned(t, physical, size, flags).value;
      && PhysicalAddress(t', pointer).Done?
      && PhysicalAddress(t', pointer).value + pointer % PAGE_SIZE == physical
      && Unpage(t', pointer) == Done((t, PageCount(size)))
  {
    hide Partitioned, WithChain, Unpage, PhysicalAddress, InKernelSpace, PageAlign, Fits;
    PageAlignIs(physical);
    var slot := FirstFit(t, PageCount(size), 0).value;
    var m := Mapping(PageCount(size), PageAlign(physical), flags);
    UnalignedPieces(t, boot, live, slot, m, physical % PAGE_SIZE);
  }

  lemma UnalignedPieces(t: seq<u32>, boot: seq<u32>, live: Live, slot: nat, m: Mapping, offset: nat)
    requires Partitioned(t, boot, live) && Fits(t, slot, m.len) && m.len > 0
    requires m.physical % PAGE_SIZE == 0 && PlainFlags(m.flags) && offset < PAGE_SIZE
    ensures var t', pointer := WithChain(t, slot, m.len, m.physical, m.flags), PointerTo(slot) + offset;
      && pointer < 0x1_0000_0000 && pointer % PAGE_SIZE == offset
      && PhysicalAddress(t', pointer) == Done(m.physical)
      && Unpage(t', pointer) == Done((t, m.len))
  {
    PageKeepsPartition(t, boot, live, slot, m);
    UnpageUndoesPage(t, boot, live, slot, m, offset);
    SlotOfPointer(slot, offset);
    ChainInTable(WithChain(t, slot, m.len, m.physical, m.flags), boot, live[slot := m], slot);
  }

  /** Every byte of an object of the given size at `pointer` lies in the chain at `slot`. */
  ghost predicate ObjectCovered(slot: nat, len: nat, pointer: u32, size: nat) {
    forall o: nat | o < size :: ByteCovered(slot, len, pointer, o)
  }

  ghost predicate ByteCovered(slot: nat, len: nat, pointer: u32, o: nat) {
    InKernelSpace(Wrap(pointer + o)) && slot <= SlotOf(Wrap(pointer + o)) < slot + len
  }

  /** The page count ignores the offset: an unaligned object is covered exactly when its offset and size
      together fit in the size/4096 + 1 pages.  An object of two bytes at offset 4095 is not. */
  lemma UnalignedCoverage(slot: nat, offset: nat, size: u32)
    requires slot + PageCount(size) < KERNEL_PAGE_TABLES_LEN && offset < PAGE_SIZE
    ensures PointerTo(slot) + offset < 0x1_0000_0000
    ensures ObjectCovered(slot, PageCount(size), PointerTo(slot) + offset, size)
            <==> offset + size <= PageCount(size) * PAGE_SIZE
  {
    hide InKernelSpace, SlotOf, PageCount;
    var len, pointer := PageCount(size), PointerTo(slot) + offset;
    assert len > 0 && size < len * PAGE_SIZE by {
      CountCoversSize(size);
    }
    if offset + size <= len * PAGE_SIZE {
      forall o: nat | o < size
        ensures ByteCovered(slot, len, pointer, o)
      {
        BytePage(slot, offset + o);
      }
    } else {
      BytePage(slot, len * PAGE_SIZE);
      assert !ByteCovered(slot, len, pointer, len * PAGE_SIZE - offset);
    }
  }

  lemma CountCoversSize(size: u32)
    ensures PageCount(size) > 0 && size < PageCount(size) * PAGE_SIZE
  {
  }

  lemma BytePage(slot: nat, distance: nat)
    requires slot + distance / PAGE_SIZE < KERNEL_PAGE_TABLES_LEN
    ensures var pointer := PointerTo(slot) + distance;
      && pointer < 0x1_0000_0000 && Wrap(pointer) == pointer
      && InKernelSpace(pointer) && SlotOf(pointer) == slot + distance / PAGE_SIZE
  {
    hide InKernelSpace, SlotOf;
    var k, low := distance / PAGE_SIZE, distance % PAGE_SIZE;
    assert distance == k * PAGE_SIZE + low;
    SlotOfPointer(slot + k, low);
  }
}
