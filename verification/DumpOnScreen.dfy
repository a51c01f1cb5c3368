/** A hex dump printed on the text console: the lines that fit on the screen can be read back from its
    cells, byte for byte. */
module DumpOnScreen {
  import opened Bits
  import opened Outcomes
  import opened Numerals
  import opened Formats
  import opened Hexdump
  import Printer
  import Terminal
  import Textmode
  import ConsoleCells
  import M = MemoryOps

  // ----- characters

  predicate IsGlyph(c: char) {
    0x20 <= c as int <= 0x7e
  }

  ghost predicate Glyphs(s: seq<char>) {
    forall i | 0 <= i < |s| :: IsGlyph(s[i])
  }

  lemma GlyphsConcat(a: seq<char>, b: seq<char>)
    requires Glyphs(a) && Glyphs(b)
    ensures Glyphs(a + b)
  {
  }

  lemma GlyphsPadded(value: u32, width: int)
    ensures Glyphs(Padded(value, 16, width))
  {
    PaddedNumber(value, 16, width);
  }

  lemma {:induction false} GlyphsCells(bytes: seq<byte>)
    ensures Glyphs(Cells(bytes))
  {
    if bytes != [] {
      hide Padded;
      GlyphsPadded(bytes[0], 2);
      GlyphsConcat(Padded(bytes[0], 16, 2), " ");
      GlyphsCells(bytes[1..]);
      GlyphsConcat(Cell(bytes[0]), Cells(bytes[1..]));
    }
  }

  /** A data line is 75 glyphs and a newline. */
  lemma RowGlyphs(offset: u32, bytes: seq<byte>)
    requires |bytes| <= 16
    ensures |Row(offset, bytes)| == LINE && LineShape(Row(offset, bytes))
  {
    RowRoundTrip(offset, bytes);
    hide Padded, Cells, Spaces, Characters, IsGlyph;
    GlyphsPadded(offset, 8);
    GlyphsCells(bytes);
    SpaceGlyphs(3 * (16 - |bytes|));
    SpaceGlyphs(16 - |bytes|);
    CharacterGlyphs(bytes);
    var a := Padded(offset, 16, 8) + "|";
    var b := a + Cells(bytes);
    var c := b + Spaces(3 * (16 - |bytes|));
    var d := c + "|";
    var e := d + Characters(bytes);
    var f := e + Spaces(16 - |bytes|);
    GlyphsConcat(Padded(offset, 16, 8), "|");
    GlyphsConcat(a, Cells(bytes));
    GlyphsConcat(b, Spaces(3 * (16 - |bytes|)));
    GlyphsConcat(c, "|");
    GlyphsConcat(d, Characters(bytes));
    GlyphsConcat(e, Spaces(16 - |bytes|));
    GlyphsConcat(f, "|");
    assert Row(offset, bytes) == f + "|" + "\n";
  }

  lemma SpaceGlyphs(n: nat)
    ensures Glyphs(Spaces(n)) && IsGlyph('|') && Glyphs("|")
  {
  }

  lemma CharacterGlyphs(bytes: seq<byte>)
    ensures Glyphs(Characters(bytes))
  {
  }

  ghost predicate LineShape(line: seq<char>)
    requires |line| == LINE
  {
    line[LINE - 1] == '\n' && Glyphs(line[..LINE - 1])
  }

  // ----- the lines of a text

  /** Line r of a text whose lines have the same length. */
  function LineOf(text: seq<char>, r: nat): (line: seq<char>)
    requires LINE * (r + 1) <= |text|
    ensures |line| == LINE
  {
    text[LINE * r..LINE * (r + 1)]
  }

  /** How many data lines a dump has. */
  function DataLines(data: seq<byte>): nat {
    (|data| + 15) / 16
  }

  /** A text of `count` lines, each of 75 glyphs and a newline. */
  ghost predicate InLines(text: seq<char>, count: nat) {
    |text| == LINE * count && forall r: nat | r < count :: LineShape(LineOf(text, r))
  }

  lemma GlyphLine(text: seq<char>)
    requires |text| == LINE && text[LINE - 1] == '\n' && Glyphs(text[..LINE - 1])
    ensures InLines(text, 1)
  {
    assert LineOf(text, 0) == text;
  }

  lemma LinesConcat(a: seq<char>, m: nat, b: seq<char>, n: nat)
    requires InLines(a, m) && InLines(b, n)
    ensures InLines(a + b, m + n)
    ensures forall r: nat | r < m :: LineOf(a + b, r) == LineOf(a, r)
    ensures forall r: nat | r < n :: LineOf(a + b, m + r) == LineOf(b, r)
  {
    hide LineShape;
    forall r: nat | r < m + n
      ensures LineOf(a + b, r) == if r < m then LineOf(a, r) else LineOf(b, r - m)
    {
    }
    forall r: nat | r < n
      ensures LineOf(a + b, m + r) == LineOf(b, r)
    {
    }
  }

  lemma FixedShapes()
    ensures InLines(Rule(), 1) && InLines(Title(), 1) && InLines(Footer(), 1)
  {
    FixedLines();
    TitleShape();
    GlyphLine(Rule());
    GlyphLine(Footer());
  }

  lemma TitleShape()
    ensures InLines(Title(), 1)
  {
    FixedLines();
    GlyphLine(Title());
  }

  lemma {:induction false} RowsInLines(data: seq<byte>, offset: nat)
    requires offset <= |data| < 0x1_0000_0000
    ensures InLines(Rows(data, offset), (|data| - offset + 15) / 16)
    decreases |data| - offset
  {
    hide Row, LineShape;
    if offset < |data| {
      var n := RowSize(data, offset);
      var row := Row(offset, data[offset..offset + n]);
      RowGlyphs(offset, data[offset..offset + n]);
      assert LineOf(row, 0) == row;
      RowsInLines(data, offset + n);
      LineCount(|data|, offset, n);
      LinesConcat(row, 1, Rows(data, offset + n), (|data| - (offset + n) + 15) / 16);
    }
  }

  /** The lines of a dump: all of one shape, the data lines in the order of the bytes. */
  lemma DumpLines(data: seq<byte>)
    requires |data| < 0x1_0000_0000
    ensures InLines(Dump(data), DataLines(data) + 4)
    ensures forall r: nat | 16 * r < |data| ::
      r < DataLines(data) && LineOf(Dump(data), 3 + r) == Row(16 * r, data[16 * r..16 * r + RowSize(data, 16 * r)])
  {
    hide Row, Rule, Title, Footer, LineShape, LineOf;
    FixedShapes();
    RowsInLines(data, 0);
    var rows := Rows(data, 0);
    LinesConcat(Rule(), 1, Title(), 1);
    LinesConcat(Rule() + Title(), 2, Rule(), 1);
    LinesConcat(Rule() + Title() + Rule(), 3, rows, DataLines(data));
    LinesConcat(Rule() + Title() + Rule() + rows, 3 + DataLines(data), Footer(), 1);
    forall r: nat | 16 * r < |data|
      ensures r < DataLines(data) && LineOf(Dump(data), 3 + r) == Row(16 * r, data[16 * r..16 * r + RowSize(data, 16 * r)])
    {
      DataLineAt(data, r);
      assert LineOf(Rule() + Title() + Rule() + rows, 3 + r) == LineOf(rows, r);
    }
  }

  lemma DataLineAt(data: seq<byte>, r: nat)
    requires 16 * r < |data| < 0x1_0000_0000
    ensures r < DataLines(data) && LINE * (r + 1) <= |Rows(data, 0)|
    ensures LineOf(Rows(data, 0), r) == Row(16 * r, data[16 * r..16 * r + RowSize(data, 16 * r)])
  {
    hide Row, Rows;
    RowAt(data, 0, r);
  }

  // ----- the lines on the terminal

  /** The characters as the console gets them. */
  function Codes(text: seq<char>): (codes: seq<M.byte>)
    ensures |codes| == |text|
  {
    seq(|text|, i requires 0 <= i < |text| => text[i] as int % 0x100)
  }

  /** Line r of the text, without its newline. */
  function CodeLine(text: seq<char>, r: nat): seq<M.byte>
    requires LINE * (r + 1) <= |text|
  {
    Codes(LineOf(text, r)[..LINE - 1])
  }

  function CodeLines(text: seq<char>, n: nat): (lines: seq<seq<M.byte>>)
    requires LINE * n <= |text|
    ensures |lines| == n
  {
    seq(n, r requires 0 <= r < n => CodeLine(text, r))
  }

  /** The terminal after the first `full` lines of the text and `part` characters of the next. */
  ghost function Fed(text: seq<char>, full: nat, part: nat): seq<seq<M.byte>>
    requires LINE * full + part <= |text|
  {
    CodeLines(text, full) + [Codes(text[LINE * full..LINE * full + part])]
  }

  lemma FeedLast(done: seq<seq<M.byte>>, last: seq<M.byte>, c: M.byte)
    requires |last| < Terminal.WIDTH && c != 0
    ensures Terminal.Feed(done + [last], c) ==
            if c == Terminal.NEWLINE then done + [last] + [[]] else done + [last + [c]]
  {
  }

  lemma CodesAppend(text: seq<char>, a: nat, b: nat)
    requires a <= b < |text|
    ensures Codes(text[a..b + 1]) == Codes(text[a..b]) + [Codes(text)[b]]
  {
  }

  /** Lines of 75 characters never wrap, so the terminal keeps them as they are. */
  lemma {:induction false} LinesOnTerminal(text: seq<char>, count: nat, full: nat, part: nat)
    requires InLines(text, count) && full <= count && part < LINE && (full == count ==> part == 0)
    ensures Terminal.FeedAll([[]], Codes(text)[..LINE * full + part]) == Fed(text, full, part)
    decreases LINE * full + part
  {
    hide Codes, Fed, LineShape, LineOf, Terminal.Feed;
    if part > 0 {
      LinesOnTerminal(text, count, full, part - 1);
      FeedGlyph(text, count, full, part - 1);
      FeedMore(Codes(text), LINE * full + part - 1);
    } else if full > 0 {
      LinesOnTerminal(text, count, full - 1, LINE - 1);
      FeedNewline(text, count, full - 1);
      FeedMore(Codes(text), LINE * full - 1);
    } else {
      NothingFed(text);
    }
  }

  lemma FeedMore(codes: seq<M.byte>, k: nat)
    requires k < |codes|
    ensures Terminal.FeedAll([[]], codes[..k + 1]) == Terminal.Feed(Terminal.FeedAll([[]], codes[..k]), codes[k])
  {
    assert codes[..k + 1][..k] == codes[..k];
  }

  lemma NothingFed(text: seq<char>)
    ensures Terminal.FeedAll([[]], Codes(text)[..0]) == [[]] == Fed(text, 0, 0)
  {
    assert Codes(text)[..0] == [] && Codes(text[0..0]) == [];
  }

  lemma FeedGlyph(text: seq<char>, count: nat, full: nat, part: nat)
    requires InLines(text, count) && full < count && part < LINE - 1
    ensures Terminal.Feed(Fed(text, full, part), Codes(text)[LINE * full + part]) == Fed(text, full, part + 1)
  {
    hide LineShape, LineOf, CodeLines, Codes, IsGlyph, Terminal.Feed;
    LineCharacters(text, count, full, part);
    GlyphCode(text, LINE * full + part);
    CodesAppend(text, LINE * full, LINE * full + part);
    FeedLast(CodeLines(text, full), Codes(text[LINE * full..LINE * full + part]), Codes(text)[LINE * full + part]);
  }

  lemma GlyphCode(text: seq<char>, p: nat)
    requires p < |text| && IsGlyph(text[p])
    ensures Codes(text)[p] != 0 && Codes(text)[p] != Terminal.NEWLINE
  {
  }

  lemma LineCharacters(text: seq<char>, count: nat, r: nat, x: nat)
    requires InLines(text, count) && r < count && x < LINE
    ensures LINE * r + x < |text|
    ensures if x < LINE - 1 then IsGlyph(text[LINE * r + x]) else text[LINE * r + x] == '\n'
  {
    assert LineShape(LineOf(text, r));
    assert LineOf(text, r)[x] == text[LINE * r + x];
    assert x < LINE - 1 ==> LineOf(text, r)[..LINE - 1][x] == text[LINE * r + x];
  }

  lemma FeedNewline(text: seq<char>, count: nat, full: nat)
    requires InLines(text, count) && full < count
    ensures Terminal.Feed(Fed(text, full, LINE - 1), Codes(text)[LINE * full + LINE - 1]) == Fed(text, full + 1, 0)
  {
    LineCharacters(text, count, full, LINE - 1);
    assert text[LINE * full..LINE * full + LINE - 1] == LineOf(text, full)[..LINE - 1];
    FeedLast(CodeLines(text, full), CodeLine(text, full), Codes(text)[LINE * full + LINE - 1]);
    OneMoreLine(text, full);
  }

  lemma OneMoreLine(text: seq<char>, n: nat)
    requires LINE * (n + 1) <= |text|
    ensures Fed(text, n + 1, 0) == CodeLines(text, n) + [CodeLine(text, n)] + [[]]
  {
    assert Codes(text[LINE * (n + 1)..LINE * (n + 1)]) == [];
  }

  lemma TextOnTerminal(text: seq<char>, count: nat)
    requires InLines(text, count)
    ensures Terminal.FeedAll([[]], Codes(text)) == CodeLines(text, count) + [[]]
  {
    LinesOnTerminal(text, count, count, 0);
    assert Codes(text)[..LINE * count] == Codes(text);
    assert Codes(text[LINE * count..LINE * count]) == [];
  }

  // ----- reading the screen

  /** Row y of the screen, as far as a line of a dump reaches. */
  function ScreenLine(mem: seq<M.byte>, y: nat): (line: seq<char>)
    requires Terminal.Fits(mem) && y < Terminal.TEXT_ROWS
    ensures |line| == LINE
  {
    seq(LINE, x requires 0 <= x < LINE => (Terminal.Cell(mem, y, x) % 0x100) as char)
  }

  /** The bytes shown in the hex columns of n rows from y on. */
  function ReadScreen(mem: seq<M.byte>, y: nat, n: nat): seq<byte>
    requires Terminal.Fits(mem) && y + n <= Terminal.TEXT_ROWS
    decreases n
  {
    if n == 0 then [] else ReadRow(ScreenLine(mem, y)) + ReadScreen(mem, y + 1, n - 1)
  }

  lemma ShownCode(c: char, color: M.byte)
    requires IsGlyph(c)
    ensures (Terminal.CreateEntry(c as int % 0x100, color) % 0x100) as char == c
  {
    hide Terminal.Widen, Or;
    Terminal.EntryParts(c as int, color);
    LowByte(Terminal.Attribute(c as int, color), c as int);
  }

  lemma LowByte(high: M.byte, low: M.byte)
    ensures (0x100 * high + low) % 0x100 == low
  {
  }

  /** A line of a text that the screen displays can be read off its row. */
  lemma LineOnScreen(text: seq<char>, count: nat, s: Terminal.Screen, color: M.byte, l: nat)
    requires InLines(text, count) && l < count
    requires Terminal.Displays(s, CodeLines(text, count) + [[]], color)
    requires Terminal.Top(CodeLines(text, count) + [[]]) <= l
    ensures var y := l - Terminal.Top(CodeLines(text, count) + [[]]);
      Terminal.Fits(s.mem) && y < Terminal.TEXT_ROWS && ScreenLine(s.mem, y)[..LINE - 1] == LineOf(text, l)[..LINE - 1]
  {
    hide Terminal.Cell, Terminal.CreateEntry, LineShape, LineOf, IsGlyph;
    var lines := CodeLines(text, count) + [[]];
    var y := l - Terminal.Top(lines);
    forall x: nat | x < LINE - 1
      ensures ScreenLine(s.mem, y)[x] == LineOf(text, l)[x]
    {
      CharacterOnScreen(text, count, s, color, l, x);
    }
  }

  lemma CharacterOnScreen(text: seq<char>, count: nat, s: Terminal.Screen, color: M.byte, l: nat, x: nat)
    requires InLines(text, count) && l < count && x < LINE - 1
    requires Terminal.Displays(s, CodeLines(text, count) + [[]], color)
    requires Terminal.Top(CodeLines(text, count) + [[]]) <= l
    ensures var y := l - Terminal.Top(CodeLines(text, count) + [[]]);
      y < Terminal.TEXT_ROWS && ScreenLine(s.mem, y)[x] == LineOf(text, l)[x]
  {
    hide Terminal.Cell, Terminal.CreateEntry, LineShape;
    var lines := CodeLines(text, count) + [[]];
    var y := l - Terminal.Top(lines);
    LineCharacters(text, count, l, x);
    ShownCode(LineOf(text, l)[x], color);
    assert lines[l] == CodeLine(text, l);
    assert Terminal.Cell(s.mem, y, x) == Terminal.WindowCell(lines, y, x, color);
  }

  lemma SameColumns(a: seq<char>, b: seq<char>)
    requires |a| == |b| == LINE && a[..LINE - 1] == b[..LINE - 1]
    ensures ReadRow(a) == ReadRow(b)
  {
    assert a[9..57] == a[..LINE - 1][9..57] && b[9..57] == b[..LINE - 1][9..57];
  }

  // ----- the dump on the screen

  /** The first data line that is still on the screen after the whole dump: the last 22 are. */
  function FirstShown(data: seq<byte>): nat {
    if DataLines(data) <= 22 then 0 else DataLines(data) - 22
  }

  /** The row that data line r is in. */
  function RowOf(data: seq<byte>, r: nat): nat
    requires FirstShown(data) <= r
  {
    if DataLines(data) <= 19 then 3 + r else r + 22 - DataLines(data)
  }

  lemma DataLineOnScreen(data: seq<byte>, s: Terminal.Screen, color: M.byte, r: nat)
    requires |data| < 0x1_0000_0000 && FirstShown(data) <= r && 16 * r < |data|
    requires Terminal.Displays(s, Terminal.FeedAll([[]], Codes(Dump(data))), color)
    ensures Terminal.Fits(s.mem) && RowOf(data, r) < Terminal.TEXT_ROWS
    ensures ReadRow(ScreenLine(s.mem, RowOf(data, r))) == data[16 * r..16 * r + RowSize(data, 16 * r)]
  {
    hide Dump, Row, ReadRow, InLines, LineOf, ScreenLine, Terminal.Displays, Codes;
    var text, count := Dump(data), DataLines(data) + 4;
    DumpLines(data);
    TextOnTerminal(text, count);
    TextHasLines(text, count);
    LineOnScreen(text, count, s, color, 3 + r);
    var bytes := data[16 * r..16 * r + RowSize(data, 16 * r)];
    RowRoundTrip(16 * r, bytes);
    SameColumns(ScreenLine(s.mem, RowOf(data, r)), Row(16 * r, bytes));
  }

  lemma TextHasLines(text: seq<char>, count: nat)
    requires InLines(text, count)
    ensures |text| == LINE * count
  {
  }

  /** Where data line r starts, or the end of the data. */
  function Offset(data: seq<byte>, r: nat): (o: nat)
    ensures o <= |data|
  {
    if 16 * r < |data| then 16 * r else |data|
  }

  lemma NextOffset(data: seq<byte>, r: nat)
    ensures r < DataLines(data) <==> 16 * r < |data|
    ensures r < DataLines(data) ==> Offset(data, r + 1) == Offset(data, r) + RowSize(data, Offset(data, r))
  {
  }

  lemma NextRow(data: seq<byte>, r: nat)
    requires FirstShown(data) <= r <= DataLines(data)
    ensures RowOf(data, r + 1) == RowOf(data, r) + 1
    ensures RowOf(data, r) + (DataLines(data) - r) <= Terminal.TEXT_ROWS
  {
  }

  lemma DisplayFits(s: Terminal.Screen, lines: seq<seq<M.byte>>, color: M.byte)
    requires Terminal.Displays(s, lines, color)
    ensures Terminal.Fits(s.mem)
  {
  }

  lemma {:induction false} ReadFromScreen(data: seq<byte>, s: Terminal.Screen, color: M.byte, r: nat)
    requires |data| < 0x1_0000_0000 && FirstShown(data) <= r <= DataLines(data)
    requires Terminal.Displays(s, Terminal.FeedAll([[]], Codes(Dump(data))), color)
    ensures RowOf(data, r) + (DataLines(data) - r) <= Terminal.TEXT_ROWS && Terminal.Fits(s.mem)
    ensures ReadScreen(s.mem, RowOf(data, r), DataLines(data) - r) == data[Offset(data, r)..]
    decreases DataLines(data) - r
  {
    hide ScreenLine, ReadRow, Dump, Codes, Terminal.FeedAll, Terminal.Displays, DataLines, RowOf, RowSize, FirstShown;
    DisplayFits(s, Terminal.FeedAll([[]], Codes(Dump(data))), color);
    NextOffset(data, r);
    NextRow(data, r);
    if r < DataLines(data) {
      var o, n := Offset(data, r), RowSize(data, Offset(data, r));
      DataLineOnScreen(data, s, color, r);
      ReadFromScreen(data, s, color, r + 1);
      SplitAt(data, o, n);
    }
  }

  lemma SplitAt(data: seq<byte>, o: nat, n: nat)
    requires o + n <= |data|
    ensures data[o..] == data[o..o + n] + data[o + n..]
  {
  }

  /** On any screen that displays the terminal after a dump, the hex columns of the last 22 data lines,
      or of all of them, read back exactly the bytes they stand for. */
  lemma DumpReadableOnScreen(data: seq<byte>, s: Terminal.Screen, color: M.byte)
    requires |data| < 0x1_0000_0000
    requires Terminal.Displays(s, Terminal.FeedAll([[]], Codes(Dump(data))), color)
    ensures var r := FirstShown(data); var n := DataLines(data) - r;
      && Terminal.Fits(s.mem) && RowOf(data, r) + n <= Terminal.TEXT_ROWS
      && ReadScreen(s.mem, RowOf(data, r), n) == data[Offset(data, r)..]
  {
    ReadFromScreen(data, s, color, FirstShown(data));
  }

  /** Dumping to a display and sending what it got to a fresh console: the bytes can be read off the screen. */
  method ShowDump(memory: array<M.byte>, data: seq<byte>) returns (console: Textmode.TextConsole)
    requires |data| < 0x1_0000_0000
    requires Terminal.Fits(memory[..]) && ConsoleCells.WhiteBlanks(memory[..], 25)
    modifies memory
    ensures console.vga == memory && Terminal.Fits(memory[..])
    ensures var r := FirstShown(data); var n := DataLines(data) - r;
      && RowOf(data, r) + n <= Terminal.TEXT_ROWS
      && ReadScreen(memory[..], RowOf(data, r), n) == data[Offset(data, r)..]
  {
    hide Dump, Codes, ReadScreen, DataLines, RowOf, FirstShown, Terminal.Displays, Terminal.FeedAll, Terminal.MakeColor;
    hide ConsoleCells.WhiteBlanks, ConsoleCells.ShowsLines, ConsoleCells.CursorAtEnd;
    var display := new Printer.Display();
    assert display.output == [];
    Khexdump(display, data);
    assert display.output == Dump(data);
    console := Textmode.ShowText(memory, Codes(display.output));
    DumpReadableOnScreen(data, console.State(), Terminal.MakeColor(15, 0));
  }
}
