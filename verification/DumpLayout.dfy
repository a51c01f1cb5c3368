/** The columns of a hex dump, character by character. */
module DumpLayout {
  import opened Bits
  import opened Outcomes
  import opened Numerals
  import opened Formats
  import opened Hexdump
  import opened DumpOnScreen

  // ----- one data line

  /** What the text column shows for the k-th byte of a line: printable characters themselves, a full stop
      for the others, and blanks past the end. */
  function TextFor(bytes: seq<byte>, k: nat): char {
    if k >= |bytes| then ' '
    else if 0x20 <= bytes[k] <= 0x7e then bytes[k] as char
    else '.'
  }

  lemma RowTextColumn(offset: u32, bytes: seq<byte>, k: nat)
    requires |bytes| <= 16 && k < 16
    ensures |Row(offset, bytes)| == 76 && Row(offset, bytes)[58 + k] == TextFor(bytes, k)
  {
    RowRoundTrip(offset, bytes);
    OffsetLength(offset);
    CellsLength(bytes);
    hide Padded, Cells;
    var front := Padded(offset, 16, 8) + "|" + Cells(bytes) + Spaces(3 * (16 - |bytes|)) + "|";
    var text := Characters(bytes) + Spaces(16 - |bytes|);
    RowFromParts(offset, bytes);
    BehindFront(front, text, "|\n", k);
  }

  lemma RowFromParts(offset: u32, bytes: seq<byte>)
    requires |bytes| <= 16
    ensures Row(offset, bytes) == Padded(offset, 16, 8) + "|" + Cells(bytes) + Spaces(3 * (16 - |bytes|)) + "|"
                                  + (Characters(bytes) + Spaces(16 - |bytes|)) + "|\n"
  {
    hide Padded, Cells, Spaces, Characters;
    Regroup(Padded(offset, 16, 8) + "|" + Cells(bytes) + Spaces(3 * (16 - |bytes|)) + "|", Characters(bytes), Spaces(16 - |bytes|));
  }

  lemma BehindFront(front: seq<char>, text: seq<char>, rest: seq<char>, k: nat)
    requires k < |text|
    ensures (front + text + rest)[|front| + k] == text[k]
  {
  }

  /** The three characters of a cell: the two digits of the byte and a blank. */
  ghost predicate ShowsByte(cell: seq<char>, b: byte) {
    && |cell| == 3 && cell[2] == ' '
    && DigitOf(cell[0]) == Some(b / 16) && DigitOf(cell[1]) == Some(b % 16)
  }

  lemma CellShowsByte(b: byte)
    ensures ShowsByte(Cell(b), b)
  {
    PaddedNumber(b, 16, 2);
    ByteDigits(b);
    hide Padded, ValueOf, DigitOf;
    var text := Padded(b, 16, 2);
    TwoDigitValue(text);
    HexDigits(b, DigitValue(text[0]), DigitValue(text[1]));
  }

  lemma HexDigits(b: byte, high: nat, low: nat)
    requires high < 16 && low < 16 && b == 16 * high + low
    ensures b / 16 == high && b % 16 == low
  {
  }

  lemma TwoDigitValue(text: seq<char>)
    requires |text| == 2 && AllDigits(text, 16)
    ensures ValueOf(text, 16) == 16 * DigitValue(text[0]) + DigitValue(text[1])
  {
    assert text[..1][..0] == [] && text[..1][0] == text[0];
    assert ValueOf(text[..1], 16) == DigitValue(text[0]);
  }

  lemma {:induction false} CellAt(bytes: seq<byte>, k: nat)
    requires k < |bytes|
    ensures 3 * k + 3 <= |Cells(bytes)| && Cells(bytes)[3 * k..3 * k + 3] == Cell(bytes[k])
  {
    hide Cell;
    CellsLength(bytes);
    CellShowsByte(bytes[0]);
    if k > 0 {
      CellAt(bytes[1..], k - 1);
      SliceBehind(Cell(bytes[0]), Cells(bytes[1..]), 3 * (k - 1), 3 * k);
    }
  }

  ghost predicate Ruled(line: seq<char>) {
    |line| == 76 && line[8] == '|' && line[57] == '|' && line[74] == '|' && line[75] == '\n'
  }

  /** The offset in hexadecimal, the bytes in hexadecimal and the bytes as text. */
  ghost predicate DataLine(line: seq<char>, offset: u32, bytes: seq<byte>) {
    && Ruled(line)
    && AllDigits(line[..8], 16) && ValueOf(line[..8], 16) == offset
    && (forall k: nat | k < 16 :: CellFor(line, bytes, k))
    && (forall k: nat | k < 16 :: line[58 + k] == TextFor(bytes, k))
  }

  ghost predicate CellFor(line: seq<char>, bytes: seq<byte>, k: nat)
    requires |line| == 76 && k < 16
  {
    if k < |bytes| then ShowsByte(line[9 + 3 * k..12 + 3 * k], bytes[k]) else line[9 + 3 * k..12 + 3 * k] == "   "
  }

  lemma RowIsDataLine(offset: u32, bytes: seq<byte>)
    requires |bytes| <= 16
    ensures DataLine(Row(offset, bytes), offset, bytes)
  {
    var line := Row(offset, bytes);
    RowRoundTrip(offset, bytes);
    RowRules(offset, bytes);
    PaddedNumber(offset, 16, 8);
    hide Row, ShowsByte, Padded;
    forall k: nat | k < 16
      ensures CellFor(line, bytes, k)
      ensures line[58 + k] == TextFor(bytes, k)
    {
      RowCell(offset, bytes, k);
      RowTextColumn(offset, bytes, k);
    }
  }

  lemma RowRules(offset: u32, bytes: seq<byte>)
    requires |bytes| <= 16
    ensures Ruled(Row(offset, bytes)) && Row(offset, bytes)[..8] == Padded(offset, 16, 8)
    ensures Row(offset, bytes)[9..57] == Cells(bytes) + Spaces(3 * (16 - |bytes|))
  {
    OffsetLength(offset);
    CellsLength(bytes);
    hide Padded, Cells, Spaces, Characters;
    SpacesLength(3 * (16 - |bytes|));
    SpacesLength(16 - |bytes|);
    CharactersLength(bytes);
    RowFromParts(offset, bytes);
    var column, text := Cells(bytes) + Spaces(3 * (16 - |bytes|)), Characters(bytes) + Spaces(16 - |bytes|);
    LinePositions(Padded(offset, 16, 8), column, text);
    Regroup(Padded(offset, 16, 8) + "|", Cells(bytes), Spaces(3 * (16 - |bytes|)));
  }

  lemma SpacesLength(n: nat)
    ensures |Spaces(n)| == n
  {
  }

  lemma CharactersLength(bytes: seq<byte>)
    ensures |Characters(bytes)| == |bytes|
  {
  }

  lemma LinePositions(offset: seq<char>, column: seq<char>, text: seq<char>)
    requires |offset| == 8 && |column| == 48 && |text| == 16
    ensures var line := offset + "|" + column + "|" + text + "|\n";
      Ruled(line) && line[..8] == offset && line[9..57] == column
  {
  }

  lemma RowCell(offset: u32, bytes: seq<byte>, k: nat)
    requires |bytes| <= 16 && k < 16
    ensures |Row(offset, bytes)| == 76 && CellFor(Row(offset, bytes), bytes, k)
  {
    RowRules(offset, bytes);
    CellsLength(bytes);
    hide Row, Cells, ShowsByte;
    var line := Row(offset, bytes);
    SliceOfSlice(line, 9, 57, 3 * k, 3 * k + 3);
    if k < |bytes| {
      CellAt(bytes, k);
      CellShowsByte(bytes[k]);
      SliceInFront(Cells(bytes), Spaces(3 * (16 - |bytes|)), 3 * k, 3 * k + 3);
    } else {
      BlankCell(Cells(bytes), 16 - |bytes|, k);
    }
  }

  lemma SliceOfSlice(s: seq<char>, a: nat, b: nat, i: nat, j: nat)
    requires a <= b <= |s| && i <= j <= b - a
    ensures s[a..b][i..j] == s[a + i..a + j]
  {
    forall x | 0 <= x < j - i
      ensures s[a..b][i..j][x] == s[a + i..a + j][x]
    {
      assert s[a..b][i..j][x] == s[a..b][i + x];
    }
  }

  lemma SliceInFront(front: seq<char>, rest: seq<char>, i: nat, j: nat)
    requires i <= j <= |front|
    ensures (front + rest)[i..j] == front[i..j]
  {
  }

  lemma BlankCell(front: seq<char>, n: nat, k: nat)
    requires |front| % 3 == 0 && |front| / 3 <= k < |front| / 3 + n
    ensures |front + Spaces(3 * n)| == |front| + 3 * n && (front + Spaces(3 * n))[3 * k..3 * k + 3] == "   "
  {
  }

  // ----- the whole dump

  /** Dashes between the rules. */
  ghost predicate RuleLine(line: seq<char>) {
    Ruled(line) && forall x | 0 <= x < 75 && x != 8 && x != 57 && x != 74 :: line[x] == '-'
  }

  /** Over the cells and over the text column stand the numbers of the bytes in the line. */
  ghost predicate TitleLine(line: seq<char>) {
    && Ruled(line) && line[..8] == " offset "
    && forall k: nat | k < 16 :: Label(line, k)
  }

  ghost predicate Label(line: seq<char>, k: nat)
    requires |line| == 76 && k < 16
  {
    && line[9 + 3 * k] == '0' && DigitOf(line[10 + 3 * k]) == Some(k) && line[11 + 3 * k] == ' '
    && DigitOf(line[58 + k]) == Some(k)
  }

  ghost predicate LastLine(line: seq<char>) {
    |line| == 76 && line[75] == '\n' && forall x | 0 <= x < 75 :: line[x] == '-'
  }

  lemma TitleParts()
    ensures |Title()| == 76 && Title()[..8] == " offset " && Title()[8] == '|' && Title()[57] == '|'
    ensures Title()[9..57] == "00 01 02 03 04 05 06 07 " + "08 09 0A 0B 0C 0D 0E 0F "
    ensures Title()[58..74] == "01234567" + "89ABCDEF" && Title()[74] == '|' && Title()[75] == '\n'
  {
  }

  lemma FirstLabels(k: nat)
    requires k < 8
    ensures var cells, digits := "00 01 02 03 04 05 06 07 ", "01234567";
      cells[3 * k] == '0' && cells[3 * k + 1] == digits[k] && cells[3 * k + 2] == ' ' && DigitOf(digits[k]) == Some(k)
  {
    assert k == 0 || k == 1 || k == 2 || k == 3 || k == 4 || k == 5 || k == 6 || k == 7;
  }

  lemma LastLabels(k: nat)
    requires k < 8
    ensures var cells, digits := "08 09 0A 0B 0C 0D 0E 0F ", "89ABCDEF";
      cells[3 * k] == '0' && cells[3 * k + 1] == digits[k] && cells[3 * k + 2] == ' ' && DigitOf(digits[k]) == Some(8 + k)
  {
    assert k == 0 || k == 1 || k == 2 || k == 3 || k == 4 || k == 5 || k == 6 || k == 7;
  }

  /** Two halves of a title, with their labels. */
  lemma LabelsAt(line: seq<char>, a: seq<char>, b: seq<char>, c: seq<char>, d: seq<char>, k: nat)
    requires |line| == 76 && |a| == |b| == 24 && |c| == |d| == 8 && k < 16
    requires line[9..57] == a + b && line[58..74] == c + d
    ensures line[9 + 3 * k] == if k < 8 then a[3 * k] else b[3 * (k - 8)]
    ensures line[10 + 3 * k] == if k < 8 then a[3 * k + 1] else b[3 * (k - 8) + 1]
    ensures line[11 + 3 * k] == if k < 8 then a[3 * k + 2] else b[3 * (k - 8) + 2]
    ensures line[58 + k] == if k < 8 then c[k] else d[k - 8]
  {
    assert line[9 + 3 * k] == line[9..57][3 * k] && line[10 + 3 * k] == line[9..57][3 * k + 1];
    assert line[11 + 3 * k] == line[9..57][3 * k + 2] && line[58 + k] == line[58..74][k];
  }

  lemma TitleIsTitleLine()
    ensures TitleLine(Title())
  {
    TitleParts();
    hide Title, DigitOf;
    forall k: nat | k < 16
      ensures Label(Title(), k)
    {
      TitleLabel(Title(), k);
    }
  }

  lemma TitleLabel(line: seq<char>, k: nat)
    requires |line| == 76 && k < 16
    requires line[9..57] == "00 01 02 03 04 05 06 07 " + "08 09 0A 0B 0C 0D 0E 0F "
    requires line[58..74] == "01234567" + "89ABCDEF"
    ensures Label(line, k)
  {
    hide DigitOf;
    LabelsAt(line, "00 01 02 03 04 05 06 07 ", "08 09 0A 0B 0C 0D 0E 0F ", "01234567", "89ABCDEF", k);
    if k < 8 {
      FirstLabels(k);
    } else {
      LastLabels(k - 8);
    }
  }

  lemma RuleIsRuleLine()
    ensures RuleLine(Rule()) && LastLine(Footer())
  {
  }

  /** Every character of a dump: two rules with the title between them, the data 16 bytes to a line, and
      a line of dashes. */
  lemma DumpIs(data: seq<byte>)
    requires |data| < 0x1_0000_0000
    ensures |Dump(data)| == 76 * (4 + (|data| + 15) / 16)
    ensures RuleLine(LineOf(Dump(data), 0)) && TitleLine(LineOf(Dump(data), 1)) && RuleLine(LineOf(Dump(data), 2))
    ensures LastLine(LineOf(Dump(data), 3 + (|data| + 15) / 16))
    ensures forall r: nat | 16 * r < |data| :: DataLineOf(data, r)
  {
    hide Dump, Row, LineShape, LineOf, Rule, Title, Footer, DataLine, RuleLine, TitleLine, LastLine;
    DumpLines(data);
    FixedLinesAt(data);
    RuleIsRuleLine();
    TitleIsTitleLine();
    forall r: nat | 16 * r < |data|
      ensures DataLineOf(data, r)
    {
      DataLineIs(data, r);
    }
  }

  lemma DataLineIs(data: seq<byte>, r: nat)
    requires |data| < 0x1_0000_0000 && 16 * r < |data|
    ensures DataLineOf(data, r)
  {
    hide Dump, Row, LineOf, DataLine, InLines, RowSize;
    DumpLines(data);
    FixedLinesAt(data);
    LineBytes(data, r);
    RowIsDataLine(16 * r, LineOfBytes(data, r));
  }

  /** The bytes in data line r: 16 of them, or what is left. */
  function LineOfBytes(data: seq<byte>, r: nat): seq<byte>
    requires 16 * r < |data|
  {
    if |data| < 16 * r + 16 then data[16 * r..] else data[16 * r..16 * r + 16]
  }

  lemma LineBytes(data: seq<byte>, r: nat)
    requires 16 * r < |data|
    ensures |LineOfBytes(data, r)| <= 16
    ensures 16 * r + RowSize(data, 16 * r) <= |data|
    ensures LineOfBytes(data, r) == data[16 * r..16 * r + RowSize(data, 16 * r)]
  {
  }

  ghost predicate DataLineOf(data: seq<byte>, r: nat)
    requires |data| < 0x1_0000_0000 && 16 * r < |data|
  {
    && 76 * (4 + r) <= |Dump(data)|
    && DataLine(LineOf(Dump(data), 3 + r), 16 * r, LineOfBytes(data, r))
  }

  lemma FixedLinesAt(data: seq<byte>)
    requires |data| < 0x1_0000_0000
    ensures |Dump(data)| == 76 * (4 + DataLines(data))
    ensures LineOf(Dump(data), 0) == Rule() && LineOf(Dump(data), 1) == Title() && LineOf(Dump(data), 2) == Rule()
    ensures LineOf(Dump(data), 3 + DataLines(data)) == Footer()
  {
    hide Rule, Title, Footer, Rows;
    FixedLines();
    DumpRoundTrip(data);
    RowsRoundTrip(data, 0);
  }
}
