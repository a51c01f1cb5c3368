/** The block bitmap of kernel/memory/memory.c as a value: 32 blocks to a word.

    `Set`, `Unset` and `Taken` are the three accessors, `FirstRun` is the search the allocator
    documents, and `FirstWindow` the search as it is written. */
module Bitmap {
  import opened Bits
  import opened Outcomes

  /** `1 << (bit % 32)`. */
  function Mask(block: nat): u32 {
    Pow2Values();
    Pow2Strict(block % 32, 32);
    Pow2(block % 32)
  }

  function Capacity(words: seq<u32>): nat {
    32 * |words|
  }

  predicate Taken(words: seq<u32>, block: nat)
    requires block < Capacity(words)
  {
    And(words[block / 32], Mask(block)) != 0
  }

  function Set(words: seq<u32>, block: nat): (r: seq<u32>)
    requires block < Capacity(words)
    ensures |r| == |words|
  {
    words[block / 32 := Join(words[block / 32], Mask(block))]
  }

  function Unset(words: seq<u32>, block: nat): (r: seq<u32>)
    requires block < Capacity(words)
    ensures |r| == |words|
  {
    AndBound(words[block / 32], Not(Mask(block)));
    words[block / 32 := And(words[block / 32], Not(Mask(block)))]
  }

  /** The marking loop of `kmalloc` over n blocks. */
  function SetRange(words: seq<u32>, first: nat, n: nat): (r: seq<u32>)
    requires first + n <= Capacity(words)
    ensures |r| == |words|
  {
    if n == 0 then words else Set(SetRange(words, first, n - 1), first + n - 1)
  }

  /** The unmarking loop of `kfree` over n blocks. */
  function UnsetRange(words: seq<u32>, first: nat, n: nat): (r: seq<u32>)
    requires first + n <= Capacity(words)
    ensures |r| == |words|
  {
    if n == 0 then words else Unset(UnsetRange(words, first, n - 1), first + n - 1)
  }

  lemma EmptyRange(words: seq<u32>, first: nat)
    requires first <= Capacity(words)
    ensures SetRange(words, first, 0) == words == UnsetRange(words, first, 0)
  {
  }

  lemma RangeSteps(words: seq<u32>, first: nat, n: nat)
    requires first + n < Capacity(words)
    ensures SetRange(words, first, n + 1) == Set(SetRange(words, first, n), first + n)
    ensures UnsetRange(words, first, n + 1) == Unset(UnsetRange(words, first, n), first + n)
  {
  }

  // ----- the words as a set of block numbers

  ghost function TakenBlocks(words: seq<u32>): set<nat> {
    set b: nat | b < Capacity(words) && Taken(words, b)
  }

  ghost predicate Within(b: nat, first: nat, n: nat) {
    first <= b < first + n
  }

  ghost function Range(first: nat, n: nat): set<nat> {
    set b: nat | b < first + n && Within(b, first, n)
  }

  lemma SameSlot(b: nat, c: nat)
    requires b / 32 == c / 32 && b % 32 == c % 32
    ensures b == c
  {
  }

  lemma TakenIsBit(words: seq<u32>, block: nat)
    requires block < Capacity(words)
    ensures Taken(words, block) <==> Bit(words[block / 32], block % 32)
  {
    TestBit(words[block / 32], block % 32);
  }

  lemma SetOne(words: seq<u32>, b: nat, c: nat)
    requires b < Capacity(words) && c < Capacity(words)
    ensures Taken(Set(words, b), c) <==> b == c || Taken(words, c)
  {
    TakenIsBit(words, c);
    TakenIsBit(Set(words, b), c);
    if b / 32 == c / 32 {
      BitOr(words[b / 32], Mask(b), c % 32);
      BitPow2(b % 32, c % 32);
      if b % 32 == c % 32 {
        SameSlot(b, c);
      }
    }
  }

  lemma UnsetOne(words: seq<u32>, b: nat, c: nat)
    requires b < Capacity(words) && c < Capacity(words)
    ensures Taken(Unset(words, b), c) <==> b != c && Taken(words, c)
  {
    TakenIsBit(words, c);
    TakenIsBit(Unset(words, b), c);
    if b / 32 == c / 32 {
      BitAnd(words[b / 32], Not(Mask(b)), c % 32);
      BitNot(Mask(b), c % 32);
      BitPow2(b % 32, c % 32);
      if b % 32 == c % 32 {
        SameSlot(b, c);
      }
    }
  }

  lemma {:induction false} SetRangeTaken(words: seq<u32>, first: nat, n: nat, c: nat)
    requires first + n <= Capacity(words) && c < Capacity(words)
    ensures Taken(SetRange(words, first, n), c) <==> first <= c < first + n || Taken(words, c)
    decreases n
  {
    if n > 0 {
      SetRangeTaken(words, first, n - 1, c);
      SetOne(SetRange(words, first, n - 1), first + n - 1, c);
    }
  }

  lemma {:induction false} UnsetRangeTaken(words: seq<u32>, first: nat, n: nat, c: nat)
    requires first + n <= Capacity(words) && c < Capacity(words)
    ensures Taken(UnsetRange(words, first, n), c) <==> !(first <= c < first + n) && Taken(words, c)
    decreases n
  {
    if n > 0 {
      UnsetRangeTaken(words, first, n - 1, c);
      UnsetOne(UnsetRange(words, first, n - 1), first + n - 1, c);
    }
  }

  /** Marking a range adds exactly its blocks to the set; unmarking removes exactly its blocks. */
  lemma RangeLoops(words: seq<u32>, first: nat, n: nat)
    requires first + n <= Capacity(words)
    ensures TakenBlocks(SetRange(words, first, n)) == TakenBlocks(words) + Range(first, n)
    ensures TakenBlocks(UnsetRange(words, first, n)) == TakenBlocks(words) - Range(first, n)
  {
    forall c: nat | c < Capacity(words)
      ensures c in TakenBlocks(SetRange(words, first, n)) <==> c in TakenBlocks(words) + Range(first, n)
      ensures c in TakenBlocks(UnsetRange(words, first, n)) <==> c in TakenBlocks(words) - Range(first, n)
    {
      SetRangeTaken(words, first, n, c);
      UnsetRangeTaken(words, first, n, c);
    }
  }

  /** The set of taken blocks determines the words. */
  lemma SameBlocksSameWords(words: seq<u32>, words': seq<u32>)
    requires |words| == |words'|
    requires forall b: nat | b < Capacity(words) :: Taken(words, b) <==> Taken(words', b)
    ensures words == words'
  {
    Pow2Values();
    forall i | 0 <= i < |words|
      ensures words[i] == words'[i]
    {
      forall k: nat | k < 32
        ensures Bit(words[i], k) <==> Bit(words'[i], k)
      {
        var b := 32 * i + k;
        assert b / 32 == i && b % 32 == k;
        TakenIsBit(words, b);
        TakenIsBit(words', b);
      }
      BitExtensional(words[i], words'[i], 32);
    }
  }

  /** Unmarking undoes marking word for word exactly when the whole range was free before. */
  lemma UnmarkUndoesMark(words: seq<u32>, first: nat, n: nat)
    requires first + n <= Capacity(words)
    ensures UnsetRange(SetRange(words, first, n), first, n) == words
            <==> forall b | first <= b < first + n :: !Taken(words, b)
  {
    var marked := SetRange(words, first, n);
    var unmarked := UnsetRange(marked, first, n);
    forall c: nat | c < Capacity(words)
      ensures Taken(unmarked, c) <==> Taken(words, c) && !(first <= c < first + n)
    {
      SetRangeTaken(words, first, n, c);
      UnsetRangeTaken(marked, first, n, c);
    }
    if forall b | first <= b < first + n :: !Taken(words, b) {
      SameBlocksSameWords(unmarked, words);
    }
  }

  lemma FullWord(words: seq<u32>, i: nat, block: nat)
    requires i < |words| && words[i] == WORD_MAX && 32 * i <= block < 32 * i + 32
    ensures Taken(words, block)
  {
    TakenIsBit(words, block);
    BitNot(WORD_MAX, block % 32);
    BitZero(block % 32);
  }

  // ----- the documented search

  /** n blocks in a row from `first` on are free and lie below `limit`. */
  predicate FreeRun(words: seq<u32>, limit: nat, first: int, n: nat)
    requires limit <= Capacity(words)
  {
    0 <= first && first + n <= limit && forall b | first <= b < first + n :: !Taken(words, b)
  }

  /** The least start of a free run of n blocks. */
  function FirstRun(words: seq<u32>, limit: nat, n: nat, from: nat): (r: Option<nat>)
    requires limit <= Capacity(words)
    ensures r.Some? ==> from <= r.value && FreeRun(words, limit, r.value, n)
    ensures r.Some? ==> forall b | from <= b < r.value :: !FreeRun(words, limit, b, n)
    ensures r.None? ==> n == 0 || forall b | from <= b :: !FreeRun(words, limit, b, n)
    decreases limit - from
  {
    if from >= limit then None
    else if FreeRun(words, limit, from, n) then Some(from)
    else FirstRun(words, limit, n, from + 1)
  }

  lemma SingleRun(words: seq<u32>, limit: nat, c: nat)
    requires limit <= Capacity(words) && c < limit
    ensures FirstRun(words, limit, 1, c) == if Taken(words, c) then FirstRun(words, limit, 1, c + 1) else Some(c)
  {
  }

  // ----- the search as written

  /** Where the counting loop starts for candidate block c: `i * 32 + (1 << j)`. */
  function WindowStart(c: nat): nat {
    c / 32 * 32 + Mask(c)
  }

  /** The counting loop: n + 1 blocks are looked at, and n free ones among them are enough.  It
      reads past the map when the window does. */
  function Window(words: seq<u32>, start: nat, n: nat, count: nat, free: nat): Outcome<bool>
    decreases n + 1 - count
  {
    if count > n then Done(false)
    else if start + count >= Capacity(words) then Wild
    else
      var free' := if Taken(words, start + count) then free else free + 1;
      if free' == n then Done(true) else Window(words, start, n, count + 1, free')
  }

  lemma WindowStep(words: seq<u32>, start: nat, n: nat, count: nat, free: nat)
    ensures Window(words, start, n, count, free) ==
            if count > n then Done(false)
            else if start + count >= Capacity(words) then Wild
            else
              var free' := if Taken(words, start + count) then free else free + 1;
              if free' == n then Done(true) else Window(words, start, n, count + 1, free')
  {
  }

  function FirstWindow(words: seq<u32>, limit: nat, n: nat, from: nat): (r: Outcome<Option<nat>>)
    requires limit <= Capacity(words)
    ensures r.Done? && r.value.Some? ==> from <= r.value.value < limit
    decreases limit - from
  {
    if from >= limit then Done(None)
    else if Taken(words, from) then FirstWindow(words, limit, n, from + 1)
    else
      match Window(words, WindowStart(from), n, 0, 0)
      case Wild => Wild
      case Panic => Panic
      case Done(accepted) => if accepted then Done(Some(from)) else FirstWindow(words, limit, n, from + 1)
  }

  lemma SkipOne(words: seq<u32>, limit: nat, n: nat, c: nat)
    requires c < limit <= Capacity(words) && n > 0 && Taken(words, c)
    ensures FirstRun(words, limit, n, c) == FirstRun(words, limit, n, c + 1)
    ensures FirstWindow(words, limit, n, c) == FirstWindow(words, limit, n, c + 1)
  {
  }

  lemma {:induction false} SkipTaken(words: seq<u32>, limit: nat, n: nat, from: nat, upTo: nat)
    requires limit <= Capacity(words) && n > 0
    requires from <= upTo <= limit && forall b | from <= b < upTo :: Taken(words, b)
    ensures FirstRun(words, limit, n, from) == FirstRun(words, limit, n, upTo)
    ensures FirstWindow(words, limit, n, from) == FirstWindow(words, limit, n, upTo)
    decreases upTo
  {
    hide Taken, Window;
    if from < upTo {
      SkipTaken(words, limit, n, from, upTo - 1);
      SkipOne(words, limit, n, upTo - 1);
    }
  }

  // ----- what the search as written finds

  /** The number of free blocks among the `len` blocks from `start` on. */
  function FreeCount(words: seq<u32>, start: nat, len: nat): (r: nat)
    requires start + len <= Capacity(words)
    ensures r <= len
  {
    if len == 0 then 0
    else FreeCount(words, start, len - 1) + (if Taken(words, start + len - 1) then 0 else 1)
  }

  /** All of the first n blocks of the window at `start` are free, or n of its first n + 1: the count
      tolerates one taken block. */
  ghost predicate EnoughFree(words: seq<u32>, start: nat, n: nat) {
    || (start + n <= Capacity(words) && FreeCount(words, start, n) == n)
    || (start + n + 1 <= Capacity(words) && FreeCount(words, start, n + 1) >= n)
  }

  /** Fewer than n of the first n + 1 blocks of the window are free, and all of them lie in the map. */
  ghost predicate TooFewFree(words: seq<u32>, start: nat, n: nat) {
    start + n + 1 <= Capacity(words) && FreeCount(words, start, n + 1) < n
  }

  /** What the counting loop makes of a window, in numbers of free blocks; what is left is a window
      that runs past the map before it is decided. */
  lemma WindowOutcome(words: seq<u32>, start: nat, n: nat)
    requires n > 0
    ensures Window(words, start, n, 0, 0) ==
            if EnoughFree(words, start, n) then Done(true)
            else if TooFewFree(words, start, n) then Done(false)
            else Wild
  {
    if start <= Capacity(words) {
      WindowOutcomeFrom(words, start, n, 0);
    }
  }

  lemma OneMore(words: seq<u32>, start: nat, len: nat)
    requires start + len < Capacity(words)
    ensures FreeCount(words, start, len + 1) == FreeCount(words, start, len) + (if Taken(words, start + len) then 0 else 1)
  {
  }

  lemma {:induction false} WindowOutcomeFrom(words: seq<u32>, start: nat, n: nat, count: nat)
    requires count <= n + 1 && start + count <= Capacity(words) && FreeCount(words, start, count) < n
    ensures Window(words, start, n, count, FreeCount(words, start, count)) ==
            if EnoughFree(words, start, n) then Done(true)
            else if TooFewFree(words, start, n) then Done(false)
            else Wild
    decreases n + 1 - count
  {
    hide Taken;
    hide FreeCount;
    WindowStep(words, start, n, count, FreeCount(words, start, count));
    if count == n + 1 {
      OneMore(words, start, n);
    } else if start + count < Capacity(words) {
      OneMore(words, start, count);
      if FreeCount(words, start, count + 1) != n {
        WindowOutcomeFrom(words, start, n, count + 1);
      }
    }
  }

  /** A concrete bitmap on which the search as written hands out a taken block: with block 1 taken and
      all else free, a request for two blocks is given blocks 0 and 1. */
  lemma WindowOverlapsTakenBlock(words: seq<u32>, limit: nat)
    requires 32 <= limit <= Capacity(words)
    requires forall b: nat | b < Capacity(words) :: Taken(words, b) <==> b == 1
    ensures FirstWindow(words, limit, 2, 0) == Done(Some(0))
    ensures !FreeRun(words, limit, 0, 2)
    ensures FirstRun(words, limit, 2, 0) == Some(2)
  {
    assert Taken(words, 1) && !Taken(words, 0) && !Taken(words, 2) && !Taken(words, 3);
    SecondWindow(words);
    SecondRun(words, limit);
  }

  lemma SecondWindow(words: seq<u32>)
    requires 32 <= Capacity(words) && Taken(words, 1) && !Taken(words, 2) && !Taken(words, 3)
    ensures WindowStart(0) == 1 && Window(words, 1, 2, 0, 0) == Done(true)
  {
    assert Window(words, 1, 2, 2, 1) == Done(true);
    assert Window(words, 1, 2, 1, 0) == Done(true);
  }

  lemma SecondRun(words: seq<u32>, limit: nat)
    requires 32 <= limit <= Capacity(words)
    requires Taken(words, 1) && !Taken(words, 2) && !Taken(words, 3)
    ensures !FreeRun(words, limit, 0, 2) && FirstRun(words, limit, 2, 0) == Some(2)
  {
    assert !FreeRun(words, limit, 0, 2) && !FreeRun(words, limit, 1, 2);
    assert FreeRun(words, limit, 2, 2);
    assert FirstRun(words, limit, 2, 1) == FirstRun(words, limit, 2, 2);
  }

  /** Every free block before `end` has too few free blocks in its window. */
  ghost predicate ShortBefore(words: seq<u32>, n: nat, from: nat, end: nat)
    requires end <= Capacity(words)
  {
    forall c: nat | from <= c < end && !Taken(words, c) :: TooFewFree(words, WindowStart(c), n)
  }

  /** Block c is free and has enough free blocks in its window. */
  ghost predicate LooksFree(words: seq<u32>, n: nat, c: nat)
    requires c < Capacity(words)
  {
    !Taken(words, c) && EnoughFree(words, WindowStart(c), n)
  }

  /** The block the counts single out: the first that looks free, all free blocks before it being
      short.  None when every free block is short. */
  ghost predicate CountsPointTo(words: seq<u32>, limit: nat, n: nat, r: Option<nat>)
    requires limit <= Capacity(words)
  {
    match r
    case Some(c) => c < limit && ShortBefore(words, n, 0, c) && LooksFree(words, n, c)
    case None => ShortBefore(words, n, 0, limit)
  }

  /** Block c is the first free block that is not short, and its window runs past the map undecided. */
  ghost predicate LeavesMapAt(words: seq<u32>, limit: nat, n: nat, c: nat)
    requires limit <= Capacity(words)
  {
    && c < limit && ShortBefore(words, n, 0, c) && !Taken(words, c)
    && !EnoughFree(words, WindowStart(c), n) && !TooFewFree(words, WindowStart(c), n)
  }

  lemma {:induction false} WindowSearchSkips(words: seq<u32>, limit: nat, n: nat, upTo: nat)
    requires upTo <= limit <= Capacity(words) && n > 0 && ShortBefore(words, n, 0, upTo)
    ensures FirstWindow(words, limit, n, 0) == FirstWindow(words, limit, n, upTo)
    decreases upTo
  {
    hide EnoughFree, TooFewFree, Window, Taken;
    if upTo > 0 {
      WindowSearchSkips(words, limit, n, upTo - 1);
      ShortIsRejected(words, n, upTo - 1);
    }
  }

  lemma ShortIsRejected(words: seq<u32>, n: nat, c: nat)
    requires c < Capacity(words) && n > 0
    ensures TooFewFree(words, WindowStart(c), n) ==> Window(words, WindowStart(c), n, 0, 0) == Done(false)
  {
    WindowOutcome(words, WindowStart(c), n);
    EnoughIsNotTooFew(words, WindowStart(c), n);
  }

  lemma EnoughIsNotTooFew(words: seq<u32>, start: nat, n: nat)
    ensures !(EnoughFree(words, start, n) && TooFewFree(words, start, n))
  {
    if start + n + 1 <= Capacity(words) {
      assert FreeCount(words, start, n + 1) >= FreeCount(words, start, n);
    }
  }

  /** The first free block that is not short, if there is one. */
  lemma {:induction false} FirstNotShort(words: seq<u32>, n: nat, from: nat, limit: nat) returns (c: nat)
    requires from <= limit <= Capacity(words) && ShortBefore(words, n, 0, from)
    ensures from <= c <= limit && ShortBefore(words, n, 0, c)
    ensures c < limit ==> !Taken(words, c) && !TooFewFree(words, WindowStart(c), n)
    decreases limit - from
  {
    hide TooFewFree, Taken;
    c := from;
    if from < limit && (Taken(words, from) || TooFewFree(words, WindowStart(from), n)) {
      c := FirstNotShort(words, n, from + 1, limit);
    }
  }

  /** The search as written returns a block, or none, exactly when the counts single it out. */
  lemma WindowSearchFinds(words: seq<u32>, limit: nat, n: nat, r: Option<nat>)
    requires limit <= Capacity(words) && n > 0
    ensures FirstWindow(words, limit, n, 0) == Done(r) <==> CountsPointTo(words, limit, n, r)
  {
    hide EnoughFree, TooFewFree, Taken, FirstWindow, WindowStart, ShortBefore;
    var c := SearchAnswer(words, limit, n);
    if r.Some? && r.value < limit {
      EnoughIsNotTooFew(words, WindowStart(r.value), n);
      if CountsPointTo(words, limit, n, r) {
        UniqueStop(words, limit, n, c, r.value);
      }
    }
    if r.None? && ShortBefore(words, n, 0, limit) {
      UniqueStop(words, limit, n, c, limit);
    }
  }

  /** Every free block before c is short, and c is not, or is the limit. */
  ghost predicate StopsAt(words: seq<u32>, limit: nat, n: nat, c: nat)
    requires limit <= Capacity(words)
  {
    c <= limit && ShortBefore(words, n, 0, c) && (c < limit ==> !Taken(words, c) && !TooFewFree(words, WindowStart(c), n))
  }

  lemma UniqueStop(words: seq<u32>, limit: nat, n: nat, c: nat, c': nat)
    requires limit <= Capacity(words) && StopsAt(words, limit, n, c) && StopsAt(words, limit, n, c')
    ensures c == c'
  {
    hide Taken, TooFewFree, WindowStart;
  }

  /** It reads past the map exactly when the first free block that is not short has an undecided window. */
  lemma WindowSearchLeaves(words: seq<u32>, limit: nat, n: nat)
    requires limit <= Capacity(words) && n > 0
    ensures FirstWindow(words, limit, n, 0) == Wild <==> exists c: nat :: LeavesMapAt(words, limit, n, c)
  {
    hide EnoughFree, TooFewFree, Taken, FirstWindow, WindowStart, ShortBefore;
    var c := SearchAnswer(words, limit, n);
    if c < limit && !EnoughFree(words, WindowStart(c), n) {
      assert LeavesMapAt(words, limit, n, c);
    }
    if c': nat :| LeavesMapAt(words, limit, n, c') {
      UniqueStop(words, limit, n, c, c');
    }
  }

  lemma WindowSearchEnds(words: seq<u32>, limit: nat, n: nat)
    requires limit <= Capacity(words) && n > 0
    ensures !FirstWindow(words, limit, n, 0).Panic?
  {
    var c := SearchAnswer(words, limit, n);
  }

  lemma SearchAnswer(words: seq<u32>, limit: nat, n: nat) returns (c: nat)
    requires limit <= Capacity(words) && n > 0
    ensures c <= limit && ShortBefore(words, n, 0, c)
    ensures c < limit ==> !Taken(words, c) && !TooFewFree(words, WindowStart(c), n)
    ensures FirstWindow(words, limit, n, 0) ==
            if c == limit then Done(None)
            else if EnoughFree(words, WindowStart(c), n) then Done(Some(c))
            else Wild
  {
    hide EnoughFree, TooFewFree, Taken, Window;
    c := FirstNotShort(words, n, 0, limit);
    WindowSearchSkips(words, limit, n, c);
    if c < limit {
      WindowOutcome(words, WindowStart(c), n);
    }
  }

  /** The search as written gives the documented answer exactly when the counts single out the first
      free run. */
  lemma WindowSearchAgrees(words: seq<u32>, limit: nat, n: nat)
    requires limit <= Capacity(words) && n > 0
    ensures var r := FirstRun(words, limit, n, 0);
      FirstWindow(words, limit, n, 0) == Done(r) <==> CountsPointTo(words, limit, n, r)
  {
    WindowSearchFinds(words, limit, n, FirstRun(words, limit, n, 0));
  }

  // ----- unfragmented maps

  /** Blocks 0 to m-1 are taken and all others are free. */
  ghost predicate TakenPrefix(words: seq<u32>, m: nat) {
    forall b: nat | b < Capacity(words) :: Taken(words, b) <==> b < m
  }

  lemma {:induction false} ClearWindow(words: seq<u32>, start: nat, n: nat, count: nat)
    requires count < n
    requires forall b: nat | start <= b < Capacity(words) :: !Taken(words, b)
    ensures Window(words, start, n, count, count) ==
            if start + n <= Capacity(words) then Done(true) else Wild
    decreases n - count
  {
    if start + count < Capacity(words) && count + 1 < n {
      ClearWindow(words, start, n, count + 1);
    }
  }

  lemma {:induction false} Pow2AboveIndex(k: nat)
    ensures Pow2(k) > k
  {
    if k > 0 {
      Pow2AboveIndex(k - 1);
    }
  }

  /** On an unfragmented map with m blocks taken the search as written finds the right block exactly
      when the block fits and the window of block m stays inside the map; otherwise it reads past
      the map, or hands out blocks past the last one. */
  lemma WindowSearchOnPrefix(words: seq<u32>, limit: nat, m: nat, n: nat)
    requires limit <= Capacity(words) && n > 0 && TakenPrefix(words, m)
    ensures FirstWindow(words, limit, n, 0) ==
            if m >= limit then Done(None)
            else if WindowStart(m) + n <= Capacity(words) then Done(Some(m)) else Wild
    ensures FirstRun(words, limit, n, 0) == if m + n <= limit then Some(m) else None
    ensures FirstWindow(words, limit, n, 0) == Done(FirstRun(words, limit, n, 0))
            <==> m >= limit || (m + n <= limit && WindowStart(m) + n <= Capacity(words))
  {
    SkipTaken(words, limit, n, 0, if m < limit then m else limit);
    if m < limit {
      Pow2AboveIndex(m % 32);
      ClearWindow(words, WindowStart(m), n, 0);
      assert !Taken(words, m);
      if m + n <= limit {
        assert FreeRun(words, limit, m, n);
      }
    }
  }
}
