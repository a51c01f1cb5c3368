/** The console in bytes of the VGA text memory: white characters on black, 80 columns, 24 lines. */
module ConsoleCells {
  import opened Bits
  import opened MemoryOps
  import opened Terminal

  // ----- colours and entries

  /** The background is the high digit of the colour and the foreground the low one. */
  lemma MakeColorIs(fg: byte, bg: byte)
    requires fg < 16 && bg < 16
    ensures MakeColor(fg, bg) == 16 * bg + fg
  {
    Sixteen();
    hide Or, Pow2;
    MultipleHasNoRemainder(bg, 16);
    OrCommutes(fg, 16 * bg);
    OrDisjoint(16 * bg, fg, 4);
  }

  lemma Sixteen()
    ensures Pow2(4) == 16
  {
    assert Pow2(4) == 16;
  }

  /** A cell is the character and, above it, the colour, or 255 for a character above 127. */
  lemma CreateEntryIs(c: byte, color: byte)
    ensures CreateEntry(c, color) == 256 * (if c < 128 then color else 255) + c
  {
    EntryParts(c, color);
  }

  /** The two bytes of such a cell. */
  lemma EntryDigits(c: byte, fg: byte, bg: byte)
    ensures fg < 16 && bg < 16 ==>
      && CreateEntry(c, MakeColor(fg, bg)) % 256 == c
      && CreateEntry(c, MakeColor(fg, bg)) / 256 == if c < 128 then 16 * bg + fg else 255
  {
    if fg < 16 && bg < 16 {
      hide CreateEntry, MakeColor;
      MakeColorIs(fg, bg);
      CreateEntryIs(c, 16 * bg + fg);
      SplitBytes(if c < 128 then 16 * bg + fg else 255, c);
    }
  }

  lemma SplitBytes(high: nat, low: byte)
    ensures (256 * high + low) % 256 == low && (256 * high + low) / 256 == high
  {
  }

  // ----- the memory

  /** The two bytes at row y, column x are a character and its colour. */
  ghost predicate Shows(mem: seq<byte>, y: nat, x: nat, c: byte, color: byte) {
    160 * y + 2 * x + 1 < |mem| && mem[160 * y + 2 * x] == c && mem[160 * y + 2 * x + 1] == color
  }

  lemma CellShows(mem: seq<byte>, y: nat, x: nat, c: byte, color: byte)
    requires Fits(mem) && y < ROWS && x < WIDTH
    ensures Cell(mem, y, x) == 256 * color + c <==> Shows(mem, y, x, c, color)
  {
    TwoDigits(mem[160 * y + 2 * x], mem[160 * y + 2 * x + 1], c, color);
  }

  lemma TwoDigits(low: byte, high: byte, c: byte, color: byte)
    ensures low + 256 * high == 256 * color + c <==> low == c && high == color
  {
  }

  /** Row y holds 80 blanks, white on black. */
  ghost predicate WhiteBlanks(mem: seq<byte>, y: nat) {
    forall x: nat | x < 80 :: Shows(mem, y, x, 0x20, 0x0f)
  }

  lemma RowBlankIs(mem: seq<byte>, y: nat)
    requires Fits(mem) && y < ROWS
    ensures RowBlank(mem, y, MakeColor(15, 0)) <==> WhiteBlanks(mem, y)
  {
    MakeColorIs(15, 0);
    CreateEntryIs(SPACE, 15);
    hide Cell, CreateEntry, MakeColor, Shows;
    forall x: nat | x < 80
      ensures Cell(mem, y, x) == Blank(15) <==> Shows(mem, y, x, 0x20, 0x0f)
    {
      CellShows(mem, y, x, 0x20, 0x0f);
    }
  }

  /** The first line on the screen. */
  function FirstLine(lines: seq<seq<byte>>): nat {
    if |lines| <= 24 then 0 else |lines| - 24
  }

  /** The character that belongs at row y, column x. */
  function CharacterAt(lines: seq<seq<byte>>, y: nat, x: nat): byte {
    var l := FirstLine(lines) + y;
    if l < |lines| && x < |lines[l]| then lines[l][x] else 0x20
  }

  /** Every one of the 24 rows shows its line, white on black. */
  ghost predicate ShowsLines(mem: seq<byte>, lines: seq<seq<byte>>) {
    forall y: nat, x: nat | y < 24 && x < 80 ::
      Shows(mem, y, x, CharacterAt(lines, y, x), if CharacterAt(lines, y, x) < 128 then 0x0f else 0xff)
  }

  /** The cursor is behind the last character of the last line. */
  ghost predicate CursorAtEnd(cx: nat, cy: nat, lines: seq<seq<byte>>) {
    |lines| > 0 && cx == |lines[|lines| - 1]| && cy == |lines| - 1 - FirstLine(lines)
  }

  lemma WindowCharacter(lines: seq<seq<byte>>, y: nat, x: nat)
    ensures WindowCell(lines, y, x, 15) == CreateEntry(CharacterAt(lines, y, x), 15)
  {
    hide CreateEntry;
  }

  lemma EntryShows(mem: seq<byte>, y: nat, x: nat, c: byte)
    requires Fits(mem) && y < ROWS && x < WIDTH && Cell(mem, y, x) == CreateEntry(c, 15)
    ensures Shows(mem, y, x, c, if c < 128 then 0x0f else 0xff)
  {
    hide Cell, CreateEntry, Shows;
    CreateEntryIs(c, 15);
    CellShows(mem, y, x, c, if c < 128 then 0x0f else 0xff);
  }

  /** A window on the terminal, byte for byte. */
  lemma DisplayedBytes(s: Screen, lines: seq<seq<byte>>)
    requires Displays(s, lines, MakeColor(15, 0))
    ensures ShowsLines(s.mem, lines) && CursorAtEnd(s.cx, s.cy, lines)
  {
    MakeColorIs(15, 0);
    hide Cell, CreateEntry, MakeColor, Shows;
    forall y: nat, x: nat | y < 24 && x < 80
      ensures Shows(s.mem, y, x, CharacterAt(lines, y, x), if CharacterAt(lines, y, x) < 128 then 0x0f else 0xff)
    {
      assert Cell(s.mem, y, x) == WindowCell(lines, y, x, 15);
      WindowCharacter(lines, y, x);
      EntryShows(s.mem, y, x, CharacterAt(lines, y, x));
    }
  }

  // ----- lines

  /** The text in lines of 80 characters; no text is one empty line. */
  function Wrapped(text: seq<byte>): (lines: seq<seq<byte>>)
    ensures |lines| > 0
  {
    if |text| <= 80 then [text] else [text[..80]] + Wrapped(text[80..])
  }

  lemma {:induction false} WrappedOneMore(text: seq<byte>, c: byte)
    requires c != 0 && c != 10
    ensures Feed(Wrapped(text), c) == Wrapped(text + [c])
  {
    if |text| < 80 {
      assert Wrapped(text) == [text] && Wrapped(text + [c]) == [text + [c]];
    } else if |text| == 80 {
      assert (text + [c])[..80] == text && (text + [c])[80..] == [c];
      assert Wrapped(text) == [text] && Wrapped([c]) == [[c]];
      FeedFullLine(text, c);
    } else {
      WrappedOneMore(text[80..], c);
      assert (text + [c])[..80] == text[..80] && (text + [c])[80..] == text[80..] + [c];
      FeedBehind(text[..80], Wrapped(text[80..]), c);
    }
  }

  lemma FeedFullLine(line: seq<byte>, c: byte)
    requires |line| == 80 && c != 0 && c != 10
    ensures Feed([line], c) == [line] + [[c]]
  {
    assert [] + [c] == [c];
    assert ([line] + [[]])[1 := [c]] == [line] + [[c]];
  }

  lemma FeedBehind(line: seq<byte>, lines: seq<seq<byte>>, c: byte)
    requires |lines| > 0
    ensures Feed([line] + lines, c) == [line] + Feed(lines, c)
  {
  }

  /** Text without newlines and NULs is broken after every 80 characters, and only when another one comes. */
  lemma {:induction false} LongLineWraps(text: seq<byte>)
    requires forall i | 0 <= i < |text| :: text[i] != 0 && text[i] != 10
    ensures FeedAll([[]], text) == Wrapped(text)
  {
    if text != [] {
      var front, last := text[..|text| - 1], text[|text| - 1];
      LongLineWraps(front);
      WrappedOneMore(front, last);
      assert text == front + [last];
    }
  }

  /** A newline begins a line and a NUL does nothing. */
  lemma NewlineBeginsLine(lines: seq<seq<byte>>, text: seq<byte>)
    requires |lines| > 0
    ensures FeedAll(lines, text + [10]) == FeedAll(lines, text) + [[]]
    ensures FeedAll(lines, text + [0]) == FeedAll(lines, text)
  {
    assert (text + [10])[..|text|] == text && (text + [0])[..|text|] == text;
  }

  // ----- nothing else is written

  /** The memories differ in the 27 rows of 160 bytes only. */
  ghost predicate SameBehindRows(mem: seq<byte>, mem': seq<byte>) {
    |mem'| == |mem| && forall a | 4320 <= a < |mem| :: mem'[a] == mem[a]
  }

  lemma PutStaysInRows(s: Screen, c: byte, color: byte)
    requires CursorOk(s)
    ensures SameBehindRows(s.mem, PutC(s, c, color).mem)
  {
    hide CreateEntry, Blank, HalfwordByte;
  }

  lemma {:induction false} TextStaysInRows(s: Screen, text: seq<byte>, color: byte)
    requires CursorOk(s)
    ensures SameBehindRows(s.mem, PutAll(s, text, color).mem)
  {
    if text != [] {
      hide PutC;
      TextStaysInRows(s, text[..|text| - 1], color);
      PutStaysInRows(PutAll(s, text[..|text| - 1], color), text[|text| - 1], color);
    }
  }

  /** Clearing writes the 25 rows of the screen only, and text the two rows below it as well. */
  lemma ConsoleStaysInRows(mem: seq<byte>, text: seq<byte>, color: byte)
    requires Fits(mem)
    ensures |Clear(mem, color).mem| == |mem| && forall a | 4000 <= a < |mem| :: Clear(mem, color).mem[a] == mem[a]
    ensures SameBehindRows(mem, PutAll(Clear(mem, color), text, color).mem)
  {
    TextStaysInRows(Clear(mem, color), text, color);
  }
}
