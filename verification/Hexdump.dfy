/** `khexdump` of kernel/lib/hexdump.c on top of `kvprintf`: the layout it prints, and how the bytes are
    read back from it. */
module Hexdump {
  import opened Bits
  import opened Outcomes
  import opened Numerals
  import opened Formats
  import opened Printer

  type byte = b: int | 0 <= b < 0x100

  function Dashes(n: nat): seq<char> {
    seq(n, _ => '-')
  }

  function Rule(): seq<char> {
    Dashes(8) + "|" + Dashes(48) + "|" + Dashes(16) + "|\n"
  }

  function Title(): seq<char> {
    " offset |" + "00 01 02 03 04 05 06 07 " + "08 09 0A 0B 0C 0D 0E 0F " + "|0123456789" + "ABCDEF|\n"
  }

  function Footer(): seq<char> {
    Dashes(75) + "\n"
  }

  /** Characters in a line, with its newline. */
  const LINE: nat := 76

  predicate IsPrint(ch: int) {
    0x20 <= ch <= 0x7e
  }

  // ----- the layout

  function Cell(b: byte): seq<char> {
    Padded(b, 16, 2) + " "
  }

  function Cells(bytes: seq<byte>): seq<char> {
    if bytes == [] then [] else Cell(bytes[0]) + Cells(bytes[1..])
  }

  function Spaces(n: nat): seq<char> {
    seq(n, _ => ' ')
  }

  function Shown(b: byte): char {
    if IsPrint(b) then b as char else '.'
  }

  function Characters(bytes: seq<byte>): seq<char> {
    seq(|bytes|, i requires 0 <= i < |bytes| => Shown(bytes[i]))
  }

  /** The line for at most 16 bytes. */
  function Row(offset: u32, bytes: seq<byte>): seq<char>
    requires |bytes| <= 16
  {
    Padded(offset, 16, 8) + "|" + Cells(bytes) + Spaces(3 * (16 - |bytes|)) + "|"
    + Characters(bytes) + Spaces(16 - |bytes|) + "|\n"
  }

  /** How many bytes the line that starts at `offset` holds. */
  function RowSize(data: seq<byte>, offset: nat): nat
    requires offset <= |data|
  {
    if |data| - offset < 16 then |data| - offset else 16
  }

  /** The lines from byte `offset` on. */
  function Rows(data: seq<byte>, offset: nat): seq<char>
    requires offset <= |data| < 0x1_0000_0000
    decreases |data| - offset
  {
    if offset == |data| then []
    else
      var n := RowSize(data, offset);
      Row(offset, data[offset..offset + n]) + Rows(data, offset + n)
  }

  function Dump(data: seq<byte>): seq<char>
    requires |data| < 0x1_0000_0000
  {
    Rule() + Title() + Rule() + Rows(data, 0) + Footer()
  }

  // ----- reading a dump back

  /** The byte a cell shows; None for a blank cell. */
  function ReadCell(cell: seq<char>): Option<byte>
    requires |cell| == 3
  {
    if cell[0] == ' ' then None else Some(ValueOf(cell[..2], 16) % 0x100)
  }

  /** The bytes of a column of cells, up to the first blank one. */
  function ReadCells(column: seq<char>): seq<byte>
    requires |column| % 3 == 0
  {
    if column == [] || ReadCell(column[..3]).None? then []
    else [ReadCell(column[..3]).value] + ReadCells(column[3..])
  }

  /** The bytes of the 16 cells of a line. */
  function ReadRow(line: seq<char>): seq<byte>
    requires |line| == LINE
  {
    ReadCells(line[9..57])
  }

  /** The lines up to the last one, which is the footer. */
  function ReadRows(text: seq<char>): seq<byte> {
    if |text| <= LINE then [] else ReadRow(text[..LINE]) + ReadRows(text[LINE..])
  }

  function ReadDump(text: seq<char>): seq<byte>
    requires |text| >= 3 * LINE
  {
    ReadRows(text[3 * LINE..])
  }

  // ----- the round trip

  lemma FixedLines()
    ensures |Rule()| == |Title()| == |Footer()| == LINE
  {
  }

  lemma RuleIsPlain()
    ensures '%' !in Rule() && '%' !in Footer()
  {
  }

  lemma TitleIsPlain()
    ensures '%' !in Title()
  {
    assert '%' !in " offset |";
    assert '%' !in "00 01 02 03 04 05 06 07 ";
    assert '%' !in "08 09 0A 0B 0C 0D 0E 0F ";
  }

  lemma CellRoundTrip(b: byte)
    ensures |Cell(b)| == 3 && ReadCell(Cell(b)) == Some(b)
  {
    hide ValueOf, Padded, Numeral;
    PaddedNumber(b, 16, 2);
    ByteDigits(b);
    var text := Padded(b, 16, 2);
    assert Cell(b)[..2] == text;
    assert IsDigit(text[0], 16);
  }

  lemma ByteDigits(b: byte)
    ensures |Numeral(b, 16)| <= 2
  {
    DigitCount(b, 16, 2);
    assert Power(16, 2) == 256;
  }

  lemma {:induction false} CellsLength(bytes: seq<byte>)
    ensures |Cells(bytes)| == 3 * |bytes|
  {
    hide Cell;
    if bytes != [] {
      CellsLength(bytes[1..]);
      CellRoundTrip(bytes[0]);
    }
  }

  lemma {:induction false} CellsAppend(bytes: seq<byte>, b: byte)
    ensures Cells(bytes + [b]) == Cells(bytes) + Cell(b)
  {
    hide Cell;
    if bytes == [] {
      assert bytes + [b] == [b] && [b][1..] == [];
    } else {
      CellsAppend(bytes[1..], b);
      assert (bytes + [b])[1..] == bytes[1..] + [b];
    }
  }

  lemma ReadCellStep(cell: seq<char>, rest: seq<char>)
    requires |cell| == 3 && |rest| % 3 == 0 && ReadCell(cell).Some?
    ensures |cell + rest| % 3 == 0
    ensures ReadCells(cell + rest) == [ReadCell(cell).value] + ReadCells(rest)
  {
    assert (cell + rest)[..3] == cell && (cell + rest)[3..] == rest;
  }

  lemma ReadBlanks(n: nat)
    requires n % 3 == 0
    ensures ReadCells(Spaces(n)) == []
  {
    if n > 0 {
      assert Spaces(n)[..3][0] == ' ';
    }
  }

  /** Reading a column of cells, filled up with blanks, gives the bytes. */
  lemma {:induction false} CellsRoundTrip(bytes: seq<byte>, blanks: nat)
    requires blanks % 3 == 0
    ensures |Cells(bytes) + Spaces(blanks)| % 3 == 0
    ensures ReadCells(Cells(bytes) + Spaces(blanks)) == bytes
    decreases |bytes|
  {
    hide Cell, ReadCell, ReadCells;
    CellsLength(bytes);
    if bytes == [] {
      ReadBlanks(blanks);
      assert [] + Spaces(blanks) == Spaces(blanks);
    } else {
      var rest := Cells(bytes[1..]) + Spaces(blanks);
      CellRoundTrip(bytes[0]);
      CellsRoundTrip(bytes[1..], blanks);
      ReadCellStep(Cell(bytes[0]), rest);
      assert Cells(bytes) + Spaces(blanks) == Cell(bytes[0]) + rest;
    }
  }

  /** Every line has 75 characters and a newline, the last one included, and gives its offset and its
      bytes back. */
  lemma RowRoundTrip(offset: u32, bytes: seq<byte>)
    requires |bytes| <= 16
    ensures |Row(offset, bytes)| == LINE && Row(offset, bytes)[LINE - 1] == '\n'
    ensures ValueOf(Row(offset, bytes)[..8], 16) == offset
    ensures ReadRow(Row(offset, bytes)) == bytes
  {
    hide Padded, Cells, ReadCells, Shown;
    OffsetLength(offset);
    CellsLength(bytes);
    CellsRoundTrip(bytes, 3 * (16 - |bytes|));
    var column := Cells(bytes) + Spaces(3 * (16 - |bytes|));
    RowColumns(offset, bytes, column);
  }

  lemma OffsetLength(offset: u32)
    ensures |Padded(offset, 16, 8)| == 8 && ValueOf(Padded(offset, 16, 8), 16) == offset
  {
    PaddedNumber(offset, 16, 8);
    WordDigits(offset, 16);
  }

  lemma RowColumns(offset: u32, bytes: seq<byte>, column: seq<char>)
    requires |bytes| <= 16 && |Padded(offset, 16, 8)| == 8 && |Cells(bytes)| == 3 * |bytes|
    requires column == Cells(bytes) + Spaces(3 * (16 - |bytes|))
    ensures |Row(offset, bytes)| == LINE && Row(offset, bytes)[LINE - 1] == '\n'
    ensures Row(offset, bytes)[..8] == Padded(offset, 16, 8) && Row(offset, bytes)[9..57] == column
  {
    hide Padded, Cells, Shown;
  }

  lemma {:induction false} RowsRoundTrip(data: seq<byte>, offset: nat)
    requires offset <= |data| < 0x1_0000_0000
    ensures ReadRows(Rows(data, offset) + Footer()) == data[offset..]
    ensures |Rows(data, offset)| == LINE * ((|data| - offset + 15) / 16)
    decreases |data| - offset
  {
    hide Row, ReadRow, ReadRows, Footer;
    FixedLines();
    if offset == |data| {
      assert [] + Footer() == Footer();
      ReadLastLine(Footer());
    } else {
      var n := RowSize(data, offset);
      RowRoundTrip(offset, data[offset..offset + n]);
      RowsRoundTrip(data, offset + n);
      var row, rest := Row(offset, data[offset..offset + n]), Rows(data, offset + n);
      ReadLine(row, rest, Footer());
      LineCount(|data|, offset, n);
      assert data[offset..] == data[offset..offset + n] + data[offset + n..];
    }
  }

  lemma ReadLastLine(text: seq<char>)
    requires |text| == LINE
    ensures ReadRows(text) == []
  {
  }

  lemma ReadLine(line: seq<char>, rest: seq<char>, footer: seq<char>)
    requires |line| == LINE && |footer| > 0
    ensures ReadRows(line + rest + footer) == ReadRow(line) + ReadRows(rest + footer)
  {
    assert (line + rest + footer)[..LINE] == line && (line + rest + footer)[LINE..] == rest + footer;
  }

  lemma LineCount(size: nat, offset: nat, n: nat)
    requires offset < size && n == if size - offset < 16 then size - offset else 16
    ensures LINE + LINE * ((size - (offset + n) + 15) / 16) == LINE * ((size - offset + 15) / 16)
  {
    if size - offset >= 16 {
      assert (size - offset + 15) / 16 == (size - (offset + n) + 15) / 16 + 1;
    }
  }

  /** Reading the hex columns of a dump gives back exactly the bytes, for every length; the dump has
      one line for each 16 bytes or part of them, and four more. */
  lemma DumpRoundTrip(data: seq<byte>)
    requires |data| < 0x1_0000_0000
    ensures |Dump(data)| == LINE * (4 + (|data| + 15) / 16)
    ensures ReadDump(Dump(data)) == data
  {
    hide Rows, ReadRows, Rule, Title, Footer;
    RowsRoundTrip(data, 0);
    FixedLines();
    DropHeader(Rule() + Title() + Rule(), Rows(data, 0), Footer());
    assert data[0..] == data;
  }

  lemma DropHeader(header: seq<char>, rows: seq<char>, footer: seq<char>)
    ensures (header + rows + footer)[|header|..] == rows + footer
  {
  }

  /** Line r of the dump, counted from the first data line, is the line of bytes 16r and up. */
  lemma {:induction false} RowAt(data: seq<byte>, offset: nat, r: nat)
    requires offset <= |data| < 0x1_0000_0000 && offset + 16 * r < |data|
    ensures LINE * (r + 1) <= |Rows(data, offset)|
    ensures var o := offset + 16 * r;
      Rows(data, offset)[LINE * r..LINE * (r + 1)] == Row(o, data[o..o + RowSize(data, o)])
    decreases r
  {
    hide Row;
    var n := RowSize(data, offset);
    RowRoundTrip(offset, data[offset..offset + n]);
    var row, rest := Row(offset, data[offset..offset + n]), Rows(data, offset + n);
    if r > 0 {
      RowAt(data, offset + n, r - 1);
      SliceBehind(row, rest, LINE * (r - 1), LINE * r);
    }
  }

  lemma SliceBehind(front: seq<char>, rest: seq<char>, a: nat, b: nat)
    requires a <= b <= |rest|
    ensures (front + rest)[|front| + a..|front| + b] == rest[a..b]
  {
  }

  // ----- the printing loops

  lemma LineFormats(offset: u32, b: byte)
    ensures Format("%08x|", [Number(offset)]) == Some(Padded(offset, 16, 8) + "|")
    ensures Format("%02x ", [Number(b)]) == Some(Cell(b))
  {
    hide Format, Padded;
    NumberFormat("%08x|", offset);
    NumberFormat("%02x ", b);
  }

  lemma PlainText(fmt: seq<char>)
    requires '%' !in fmt
    ensures Format(fmt, []) == Some(fmt)
  {
    assert fmt[0..] == fmt;
    PlainFormat(fmt, 0, [], 0);
  }

  /** The loop over the cells of a line: at most 16 bytes from `start` on. */
  method PrintCells(display: Display, data: seq<byte>, start: nat) returns (i: nat, c: nat)
    requires start <= |data| && display.tbuf.Length == 32
    modifies display, display.tbuf
    ensures c == RowSize(data, start) && i == start + c <= |data|
    ensures display.output == old(display.output) + Cells(data[start..i])
  {
    hide Format, Cell;
    i, c := start, 0;
    NoCells(data, start);
    while c < 16 && i < |data|
      invariant 0 <= c <= 16 && i == start + c <= |data|
      invariant display.output == old(display.output) + Cells(data[start..i])
    {
      LineFormats(0, data[i]);
      CellsAppend(data[start..i], data[i]);
      OneByteMore(data, start, i);
      display.Kvprintf("%02x ", [Number(data[i])]);
      i, c := i + 1, c + 1;
    }
  }

  lemma NoCells(data: seq<byte>, start: nat)
    requires start <= |data|
    ensures Cells(data[start..start]) == []
  {
    assert data[start..start] == [];
  }

  lemma OneByteMore(data: seq<byte>, start: nat, i: nat)
    requires start <= i < |data|
    ensures data[start..i + 1] == data[start..i] + [data[i]]
  {
  }

  /** Prints a blank format until 16 columns are filled. */
  method PrintBlanks(display: Display, first: nat, blank: seq<char>)
    requires first <= 16 && display.tbuf.Length == 32 && blank == Spaces(|blank|)
    modifies display, display.tbuf
    ensures display.output == old(display.output) + Spaces(|blank| * (16 - first))
  {
    hide Format;
    PlainText(blank);
    var c := first;
    while c < 16
      invariant first <= c <= 16
      invariant display.output == old(display.output) + Spaces(|blank| * (c - first))
    {
      MoreSpaces(|blank|, c - first);
      display.Kvprintf(blank, []);
      c := c + 1;
    }
  }

  lemma MoreSpaces(n: nat, k: nat)
    ensures Spaces(n * k) + Spaces(n) == Spaces(n * (k + 1))
  {
    assert n * (k + 1) == n * k + n;
  }

  /** The loop over the text column. */
  method PrintCharacters(display: Display, data: seq<byte>, start: nat, written: nat)
    requires start + written <= |data| && display.tbuf.Length == 32
    modifies display, display.tbuf
    ensures display.output == old(display.output) + Characters(data[start..start + written])
  {
    hide Format;
    PlainText(".");
    var c := 0;
    while c < written
      invariant 0 <= c <= written
      invariant display.output == old(display.output) + Characters(data[start..start + c])
    {
      var b := data[start + c];
      assert Characters(data[start..start + c + 1]) == Characters(data[start..start + c]) + [Shown(b)];
      if IsPrint(b) {
        CharFormat(b);
        display.Kvprintf("%c", [Number(b)]);
      } else {
        display.Kvprintf(".", []);
      }
      c := c + 1;
    }
  }

  /** One turn of the outer loop: a whole line, and the index of the next one. */
  method PrintRow(display: Display, data: seq<byte>, start: nat) returns (i: nat)
    requires start < |data| < 0x1_0000_0000 && display.tbuf.Length == 32
    modifies display, display.tbuf
    ensures i == start + RowSize(data, start)
    ensures display.output == old(display.output) + Row(start, data[start..i])
  {
    hide Format, Cells, Characters, Padded, Spaces, Row;
    BlankFormats();
    LineFormats(start, 0);
    PlainText("|");
    PlainText("|\n");
    ghost var before := display.output;
    var written;
    display.Kvprintf("%08x|", [Number(start)]);
    i, written := PrintCells(display, data, start);
    PrintBlanks(display, written, "   ");
    display.Kvprintf("|", []);
    PrintCharacters(display, data, start, written);
    PrintBlanks(display, written, " ");
    display.Kvprintf("|\n", []);
    RowOfParts(before, start, data[start..i]);
  }

  lemma BlankFormats()
    ensures Spaces(3) == "   " && Spaces(1) == " "
  {
  }

  /** The pieces of a line one after the other. */
  lemma RowOfParts(before: seq<char>, offset: u32, bytes: seq<byte>)
    requires |bytes| <= 16
    ensures before + (Padded(offset, 16, 8) + "|") + Cells(bytes) + Spaces(3 * (16 - |bytes|)) + "|"
            + Characters(bytes) + Spaces(16 - |bytes|) + "|\n" == before + Row(offset, bytes)
  {
    hide Cells, Characters, Padded, Spaces;
    var blanks: nat := 3 * (16 - |bytes|);
    AppendAll(before, Padded(offset, 16, 8) + "|", Cells(bytes), Spaces(blanks), "|", Characters(bytes),
              Spaces(16 - |bytes|), "|\n");
  }

  lemma AppendAll(before: seq<char>, a: seq<char>, b: seq<char>, c: seq<char>, d: seq<char>, e: seq<char>,
                  f: seq<char>, g: seq<char>)
    ensures before + a + b + c + d + e + f + g == before + (a + b + c + d + e + f + g)
  {
    Regroup(before, a, b);
    Regroup(before, a + b, c);
    Regroup(before, a + b + c, d);
    Regroup(before, a + b + c + d, e);
    Regroup(before, a + b + c + d + e, f);
    Regroup(before, a + b + c + d + e + f, g);
  }

  lemma Regroup(a: seq<char>, b: seq<char>, c: seq<char>)
    ensures a + b + c == a + (b + c)
  {
  }

  /** Prints exactly the dump of the data. */
  method Khexdump(display: Display, data: seq<byte>)
    requires |data| < 0x1_0000_0000 && display.tbuf.Length == 32
    modifies display, display.tbuf
    ensures display.output == old(display.output) + Dump(data)
  {
    hide Format, Row, Rule, Title, Footer;
    RuleIsPlain();
    TitleIsPlain();
    PlainText(Rule());
    PlainText(Title());
    PlainText(Footer());
    display.Kvprintf(Rule(), []);
    display.Kvprintf(Title(), []);
    display.Kvprintf(Rule(), []);
    ghost var header := Rule() + Title() + Rule();
    var i := 0;
    while i < |data|
      invariant i <= |data|
      invariant display.output + Rows(data, i) == old(display.output) + (header + Rows(data, 0))
    {
      i := PrintRow(display, data, i);
    }
    display.Kvprintf(Footer(), []);
    assert display.output == old(display.output) + (header + Rows(data, 0)) + Footer();
  }
}
