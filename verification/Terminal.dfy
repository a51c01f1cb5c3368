/** The text-mode console of kernel/drivers/display/textmode.c as a value, and the unbounded terminal
    it is a window on. */
module Terminal {
  import opened Bits
  import opened MemoryOps

  const WIDTH: nat := 80
  const HEIGHT: nat := 25
  /** Bytes in a row of cells. */
  const PITCH: nat := 160
  /** Scrolling reads row 25 and writes rows 25 and 26, below the visible ones. */
  const ROWS: nat := 27
  /** Rows text ever appears in: a cursor below them scrolls. */
  const TEXT_ROWS: nat := 24
  const NEWLINE: byte := 10
  const SPACE: byte := 32

  // ----- cells

  /** `fg | bg << 4`, as a byte. */
  function MakeColor(fg: byte, bg: byte): byte {
    Or(fg, 16 * bg) % 0x100
  }

  /** A signed character widened to 16 bits. */
  function Widen(c: byte): u16 {
    if c < 0x80 then c else 0xff00 + c
  }

  function CreateEntry(c: byte, color: byte): u16 {
    EntryBound(c, color);
    Or(Widen(c), 0x100 * color)
  }

  /** The colour byte an entry ends up with: the sign of a character above 127 overwrites it. */
  function Attribute(c: byte, color: byte): byte {
    if c < 0x80 then color else 0xff
  }

  lemma EntryBound(c: byte, color: byte)
    ensures Or(Widen(c), 0x100 * color) < 0x1_0000
  {
    EntryParts(c, color);
  }

  /** The low byte of an entry is the character, the high byte its attribute. */
  lemma EntryParts(c: byte, color: byte)
    ensures Or(Widen(c), 0x100 * color) == 0x100 * Attribute(c, color) + c
  {
    Pow2Values();
    if c < 0x80 {
      OrCommutes(c, 0x100 * color);
      OrDisjoint(0x100 * color, c, 8);
    } else {
      OrDisjoint(0xff00, c, 8);
      OrCommutes(0xff00, c);
      OrAssociative(c, 0xff00, 0x100 * color);
      OrAllOnes(color);
      OrCommutes(c, 0xff00);
    }
  }

  lemma OrAllOnes(color: byte)
    ensures Or(0xff00, 0x100 * color) == 0xff00
  {
    Pow2Values();
    OrShifted(0xff, color, 8);
    OrFull(color, 8);
  }

  /** Shifting both sides by k bits shifts the result. */
  lemma {:induction false} OrShifted(a: nat, b: nat, k: nat)
    ensures Or(Shifted(a, k), Shifted(b, k)) == Shifted(Or(a, b), k)
    ensures k == 8 ==> Shifted(a, k) == 0x100 * a && Shifted(b, k) == 0x100 * b
    ensures k == 8 ==> Shifted(Or(a, b), k) == 0x100 * Or(a, b)
  {
    if k > 0 {
      OrShifted(a, b, k - 1);
    }
    if k == 8 {
      ByteShift(a);
      ByteShift(b);
      ByteShift(Or(a, b));
    }
  }

  function Shifted(a: nat, k: nat): nat {
    if k == 0 then a else 2 * Shifted(a, k - 1)
  }

  lemma ByteShift(a: nat)
    ensures Shifted(a, 8) == 0x100 * a
  {
    assert Shifted(a, 1) == 2 * a;
    assert Shifted(a, 2) == 4 * a;
    assert Shifted(a, 3) == 8 * a;
    assert Shifted(a, 4) == 0x10 * a;
    assert Shifted(a, 5) == 0x20 * a;
    assert Shifted(a, 6) == 0x40 * a;
    assert Shifted(a, 7) == 0x80 * a;
  }

  lemma {:induction false} OrFull(b: nat, k: nat)
    requires b < Pow2(k)
    ensures Or(Pow2(k) - 1, b) == Pow2(k) - 1
    decreases k
  {
    if k > 0 {
      var p := Pow2(k - 1);
      assert (2 * p - 1) / 2 == p - 1;
      OrFull(b / 2, k - 1);
    }
  }

  // ----- the screen

  /** The text memory and the cursor. */
  datatype Screen = Screen(mem: seq<byte>, cx: nat, cy: nat)

  function Blank(color: byte): u16 {
    CreateEntry(SPACE, color)
  }

  predicate Fits(mem: seq<byte>) {
    |mem| >= ROWS * PITCH
  }

  function Cell(mem: seq<byte>, y: nat, x: nat): u16
    requires Fits(mem) && y < ROWS && x < WIDTH
  {
    var low: int, high: int := mem[y * PITCH + 2 * x], mem[y * PITCH + 2 * x + 1];
    low + 0x100 * high
  }

  function WithCell(mem: seq<byte>, y: nat, x: nat, entry: u16): (r: seq<byte>)
    requires Fits(mem) && y < ROWS && x < WIDTH
    ensures |r| == |mem|
  {
    mem[y * PITCH + 2 * x := entry % 0x100][y * PITCH + 2 * x + 1 := entry / 0x100]
  }

  function ScrolledByte(mem: seq<byte>, color: byte, a: nat): byte
    requires Fits(mem) && a < |mem|
  {
    if a < HEIGHT * PITCH then mem[a + PITCH]
    else if a < ROWS * PITCH then HalfwordByte(Blank(color), a - HEIGHT * PITCH)
    else mem[a]
  }

  function Scrolled(mem: seq<byte>, color: byte): (r: seq<byte>)
    requires Fits(mem)
    ensures |r| == |mem|
  {
    seq(|mem|, a requires 0 <= a < |mem| => ScrolledByte(mem, color, a))
  }

  /** Byte a once y rows have moved up. */
  function PartlyScrolled(mem: seq<byte>, y: nat, a: nat): byte
    requires Fits(mem) && a < |mem| && y <= HEIGHT
  {
    if a < y * PITCH then mem[a + PITCH] else mem[a]
  }

  lemma NothingScrolled(mem: seq<byte>)
    requires Fits(mem)
    ensures forall a | 0 <= a < |mem| :: mem[a] == PartlyScrolled(mem, 0, a)
  {
  }

  /** Copying row y + 1 to row y moves one more row. */
  lemma CopyingRowScrolls(mem: seq<byte>, half: seq<byte>, mem': seq<byte>, y: nat)
    requires Fits(mem) && |half| == |mem| && y < HEIGHT
    requires forall a | 0 <= a < |mem| :: half[a] == PartlyScrolled(mem, y, a)
    requires mem' == CopyUp(half, y * PITCH, (y + 1) * PITCH, PITCH)
    ensures |mem'| == |mem| && forall a | 0 <= a < |mem| :: mem'[a] == PartlyScrolled(mem, y + 1, a)
  {
    hide CopyUp;
    CopyUpCopies(half, y * PITCH, (y + 1) * PITCH, PITCH);
  }

  function ClearedByte(mem: seq<byte>, color: byte, a: nat): byte
    requires a < |mem|
  {
    if a < HEIGHT * PITCH then HalfwordByte(Blank(color), a) else mem[a]
  }

  /** Byte a once the bytes below `limit` are filled with the entry. */
  function PartlyCleared(mem: seq<byte>, entry: u16, limit: nat, a: nat): byte
    requires a < |mem|
  {
    if a < limit then HalfwordByte(entry, a) else mem[a]
  }

  lemma EntryBytes(entry: u16, index: nat)
    requires index % 2 == 0
    ensures HalfwordByte(entry, index) == entry % 0x100 && HalfwordByte(entry, index + 1) == entry / 0x100
  {
  }

  function ClearedMemory(mem: seq<byte>, color: byte): (r: seq<byte>)
    ensures |r| == |mem|
  {
    seq(|mem|, a requires 0 <= a < |mem| => ClearedByte(mem, color, a))
  }

  function Clear(mem: seq<byte>, color: byte): Screen {
    Screen(ClearedMemory(mem, color), 0, 0)
  }

  predicate CursorOk(s: Screen) {
    Fits(s.mem) && s.cx <= WIDTH && s.cy < TEXT_ROWS
  }

  /** The cursor at the start of the next row, after scrolling if there is none. */
  function LineFeed(s: Screen, color: byte): (r: Screen)
    requires CursorOk(s)
    ensures CursorOk(r) && |r.mem| == |s.mem|
  {
    if s.cy + 1 >= HEIGHT - 1 then Screen(Scrolled(s.mem, color), 0, s.cy)
    else Screen(s.mem, 0, s.cy + 1)
  }

  /** `textmode_putc`.  A full row is wrapped only when the next character comes. */
  function PutC(s: Screen, c: byte, color: byte): (r: Screen)
    requires CursorOk(s)
    ensures CursorOk(r) && |r.mem| == |s.mem|
  {
    if c == 0 then s
    else
      var s1 := if s.cx >= WIDTH || c == NEWLINE then LineFeed(s, color) else s;
      if c == NEWLINE then s1
      else Screen(WithCell(s1.mem, s1.cy, s1.cx, CreateEntry(c, color)), s1.cx + 1, s1.cy)
  }

  function PutAll(s: Screen, text: seq<byte>, color: byte): (r: Screen)
    requires CursorOk(s)
    ensures CursorOk(r) && |r.mem| == |s.mem|
  {
    if text == [] then s else PutC(PutAll(s, text[..|text| - 1], color), text[|text| - 1], color)
  }

  // ----- the unbounded terminal

  /** One character on a terminal that keeps every line: a line holds 80 characters at most. */
  function Feed(lines: seq<seq<byte>>, c: byte): (r: seq<seq<byte>>)
    requires |lines| > 0
    ensures |r| > 0
  {
    if c == 0 then lines
    else
      var lines1 := if |lines[|lines| - 1]| >= WIDTH || c == NEWLINE then lines + [[]] else lines;
      if c == NEWLINE then lines1
      else lines1[|lines1| - 1 := lines1[|lines1| - 1] + [c]]
  }

  function FeedAll(lines: seq<seq<byte>>, text: seq<byte>): (r: seq<seq<byte>>)
    requires |lines| > 0
    ensures |r| > 0
  {
    if text == [] then lines else Feed(FeedAll(lines, text[..|text| - 1]), text[|text| - 1])
  }

  /** The first of the last 24 lines. */
  function Top(lines: seq<seq<byte>>): nat {
    if |lines| <= TEXT_ROWS then 0 else |lines| - TEXT_ROWS
  }

  /** The entry that belongs at row y, column x of a window on the last 24 lines. */
  function WindowCell(lines: seq<seq<byte>>, y: nat, x: nat, color: byte): u16 {
    var r := Top(lines) + y;
    if r < |lines| && x < |lines[r]| then CreateEntry(lines[r][x], color) else Blank(color)
  }

  /** The screen is a window on the last 24 lines, with the cursor behind the last character. */
  ghost predicate Displays(s: Screen, lines: seq<seq<byte>>, color: byte) {
    && CursorOk(s) && |lines| > 0
    && s.cx == |lines[|lines| - 1]|
    && s.cy == |lines| - 1 - Top(lines)
    && forall y: nat, x: nat | y < TEXT_ROWS && x < WIDTH :: Cell(s.mem, y, x) == WindowCell(lines, y, x, color)
  }

  ghost predicate RowBlank(mem: seq<byte>, y: nat, color: byte)
    requires Fits(mem) && y < ROWS
  {
    forall x: nat | x < WIDTH :: Cell(mem, y, x) == Blank(color)
  }

  /** With the two rows that scrolling brings in still blank. */
  ghost predicate Refines(s: Screen, lines: seq<seq<byte>>, color: byte) {
    && Displays(s, lines, color)
    && RowBlank(s.mem, 24, color) && RowBlank(s.mem, 25, color)
    && forall r | 0 <= r < |lines| :: |lines[r]| <= WIDTH
  }

  // ----- cells of changed memories

  lemma CellAfterScroll(mem: seq<byte>, color: byte, y: nat, x: nat)
    requires Fits(mem) && y < ROWS && x < WIDTH
    ensures Cell(Scrolled(mem, color), y, x) == if y < HEIGHT then Cell(mem, y + 1, x) else Blank(color)
  {
    hide Blank;
    var a := y * PITCH + 2 * x;
    assert a + PITCH == (y + 1) * PITCH + 2 * x;
  }

  lemma CellAfterWrite(mem: seq<byte>, y: nat, x: nat, entry: u16, y': nat, x': nat)
    requires Fits(mem) && y < ROWS && x < WIDTH && y' < ROWS && x' < WIDTH
    ensures Cell(WithCell(mem, y, x, entry), y', x') == if y == y' && x == x' then entry else Cell(mem, y', x')
  {
  }

  lemma CellAfterClear(mem: seq<byte>, color: byte, y: nat, x: nat)
    requires Fits(mem) && y < ROWS && x < WIDTH
    ensures Cell(ClearedMemory(mem, color), y, x) == if y < HEIGHT then Blank(color) else Cell(mem, y, x)
  {
    hide Blank;
  }

  // ----- the refinement

  lemma LineFeedRefines(s: Screen, lines: seq<seq<byte>>, color: byte)
    requires Refines(s, lines, color)
    ensures Refines(LineFeed(s, color), lines + [[]], color)
  {
    var s', lines' := LineFeed(s, color), lines + [[]];
    forall y: nat, x: nat | y < 26 && x < WIDTH
      ensures Cell(s'.mem, y, x) == if y < TEXT_ROWS then WindowCell(lines', y, x, color) else Blank(color)
    {
      hide Cell, Blank, CreateEntry;
      CellAfterScroll(s.mem, color, y, x);
    }
  }

  lemma WriteRefines(s: Screen, lines: seq<seq<byte>>, c: byte, color: byte)
    requires Refines(s, lines, color) && s.cx < WIDTH
    ensures Refines(Screen(WithCell(s.mem, s.cy, s.cx, CreateEntry(c, color)), s.cx + 1, s.cy),
                    lines[|lines| - 1 := lines[|lines| - 1] + [c]], color)
  {
    var n := |lines| - 1;
    var mem', lines' := WithCell(s.mem, s.cy, s.cx, CreateEntry(c, color)), lines[n := lines[n] + [c]];
    forall y: nat, x: nat | y < 26 && x < WIDTH
      ensures Cell(mem', y, x) == if y < TEXT_ROWS then WindowCell(lines', y, x, color) else Blank(color)
    {
      hide Cell, Blank, CreateEntry, WithCell;
      CellAfterWrite(s.mem, s.cy, s.cx, CreateEntry(c, color), y, x);
    }
  }

  /** One character keeps the screen a window on the terminal. */
  lemma PutRefines(s: Screen, lines: seq<seq<byte>>, c: byte, color: byte)
    requires Refines(s, lines, color)
    ensures Refines(PutC(s, c, color), Feed(lines, c), color)
  {
    hide Refines, LineFeed, WithCell;
    if c != 0 {
      var s1, lines1 := s, lines;
      RefinesCursor(s, lines, color);
      if s.cx >= WIDTH || c == NEWLINE {
        LineFeedRefines(s, lines, color);
        s1, lines1 := LineFeed(s, color), lines + [[]];
        RefinesCursor(s1, lines1, color);
      }
      if c != NEWLINE {
        WriteRefines(s1, lines1, c, color);
      }
    }
  }

  lemma RefinesCursor(s: Screen, lines: seq<seq<byte>>, color: byte)
    requires Refines(s, lines, color)
    ensures CursorOk(s) && |lines| > 0 && s.cx == |lines[|lines| - 1]|
  {
  }

  lemma ClearRefines(mem: seq<byte>, color: byte)
    requires Fits(mem) && RowBlank(mem, 25, color)
    ensures Refines(Clear(mem, color), [[]], color)
  {
    forall y: nat, x: nat | y < 26 && x < WIDTH
      ensures Cell(ClearedMemory(mem, color), y, x) == Blank(color)
    {
      hide Cell, Blank;
      CellAfterClear(mem, color, y, x);
    }
  }

  lemma {:induction false} TextRefines(s: Screen, lines: seq<seq<byte>>, text: seq<byte>, color: byte)
    requires Refines(s, lines, color)
    ensures CursorOk(s) && |lines| > 0
    ensures Refines(PutAll(s, text, color), FeedAll(lines, text), color)
  {
    hide Refines, PutC, Feed;
    RefinesCursor(s, lines, color);
    if text != [] {
      TextRefines(s, lines, text[..|text| - 1], color);
      PutRefines(PutAll(s, text[..|text| - 1], color), FeedAll(lines, text[..|text| - 1]), text[|text| - 1], color);
    }
  }

  /** After `textmode_clear` and a text, the screen is a window on the terminal that got the text. */
  ghost predicate ShowsText(mem: seq<byte>, text: seq<byte>, color: byte)
    requires Fits(mem)
  {
    Displays(PutAll(Clear(mem, color), text, color), FeedAll([[]], text), color)
  }

  /** If row 25 was blank, this holds for every text. */
  lemma ScreenShowsTerminal(mem: seq<byte>, text: seq<byte>, color: byte)
    requires Fits(mem) && RowBlank(mem, 25, color)
    ensures ShowsText(mem, text, color)
  {
    ClearRefines(mem, color);
    TextRefines(Clear(mem, color), [[]], text, color);
  }

  // ----- row 25

  function Newlines(k: nat): seq<byte> {
    seq(k, _ => NEWLINE)
  }

  lemma {:induction false} NewlinesOnScreen(mem: seq<byte>, color: byte, k: nat)
    requires Fits(mem) && k < TEXT_ROWS
    ensures PutAll(Clear(mem, color), Newlines(k), color) == Screen(ClearedMemory(mem, color), 0, k)
  {
    if k > 0 {
      NewlinesOnScreen(mem, color, k - 1);
      assert Newlines(k)[..k - 1] == Newlines(k - 1);
    }
  }

  lemma {:induction false} NewlinesOnTerminal(k: nat)
    ensures FeedAll([[]], Newlines(k)) == seq<seq<byte>>(k + 1, _ => [])
  {
    if k > 0 {
      NewlinesOnTerminal(k - 1);
      assert Newlines(k)[..k - 1] == Newlines(k - 1);
    }
  }

  /** `textmode_clear` leaves row 25 as it is, and the second line feed past the last row brings it onto
      the screen: 25 newlines show it in row 23. */
  lemma SecondScrollShowsRow25(mem: seq<byte>, color: byte, x: nat)
    requires Fits(mem) && x < WIDTH
    ensures Cell(PutAll(Clear(mem, color), Newlines(25), color).mem, 23, x) == Cell(mem, 25, x)
    ensures WindowCell(FeedAll([[]], Newlines(25)), 23, x, color) == Blank(color)
  {
    hide Cell, Blank, ClearedMemory, Scrolled;
    var cleared := ClearedMemory(mem, color);
    NewlinesOnScreen(mem, color, 23);
    assert Newlines(24)[..23] == Newlines(23) && Newlines(25)[..24] == Newlines(24);
    var once := Scrolled(cleared, color);
    assert PutAll(Clear(mem, color), Newlines(24), color) == Screen(once, 0, 23);
    assert PutAll(Clear(mem, color), Newlines(25), color) == Screen(Scrolled(once, color), 0, 23);
    CellAfterScroll(once, color, 23, x);
    CellAfterScroll(cleared, color, 24, x);
    CellAfterClear(mem, color, 25, x);
    NewlinesOnTerminal(25);
  }

  /** The screen shows the terminal for every text exactly when row 25 was blank to begin with. */
  lemma ShowsTerminalIffRowBlank(mem: seq<byte>, color: byte)
    requires Fits(mem)
    ensures (forall text: seq<byte> :: ShowsText(mem, text, color)) <==> RowBlank(mem, 25, color)
  {
    hide ShowsText, RowBlank;
    if RowBlank(mem, 25, color) {
      forall text: seq<byte>
        ensures ShowsText(mem, text, color)
      {
        ScreenShowsTerminal(mem, text, color);
      }
    } else {
      DisplayedNewlines(mem, color);
      assert !ShowsText(mem, Newlines(25), color);
    }
  }

  lemma DisplayedNewlines(mem: seq<byte>, color: byte)
    requires Fits(mem)
    ensures ShowsText(mem, Newlines(25), color) ==> RowBlank(mem, 25, color)
  {
    if ShowsText(mem, Newlines(25), color) {
      forall x: nat | x < WIDTH
        ensures Cell(mem, 25, x) == Blank(color)
      {
        hide Cell, Blank, PutAll, FeedAll, WindowCell;
        SecondScrollShowsRow25(mem, color, x);
      }
    }
  }
}
