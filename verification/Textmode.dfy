/** kernel/drivers/display/textmode.c: the console over the VGA text memory, in place. */
module Textmode {
  import opened MemoryOps
  import opened Terminal
  import opened ConsoleCells

  class TextConsole {
    /** The memory from 0xB8000 on, as bytes. */
    const vga: array<byte>
    var cx: nat
    var cy: nat
    const fgcol: byte
    const bgcol: byte

    /** `textmode_init`: white on black, cursor in the corner.  The memory is left as it is. */
    constructor (memory: array<byte>)
      ensures vga == memory && State() == Screen(memory[..], 0, 0)
      ensures Color() == MakeColor(15, 0) == 0x0f
    {
      MakeColorIs(15, 0);
      vga := memory;
      cx, cy := 0, 0;
      fgcol, bgcol := 15, 0;
    }

    function Color(): byte {
      MakeColor(fgcol, bgcol)
    }

    ghost function State(): Screen
      reads this, vga
    {
      Screen(vga[..], cx, cy)
    }

    /** Rows 1 to 25 move up by one, and rows 25 and 26 are blanked. */
    method ScrollUp()
      requires Fits(vga[..])
      modifies vga
      ensures vga[..] == Scrolled(old(vga[..]), Color())
    {
      ghost var before := vga[..];
      MoveRowsUp();
      hide CreateEntry;
      Memset16(vga, HEIGHT * PITCH, CreateEntry(SPACE, Color()), 2 * WIDTH);
      assert vga[..] == Scrolled(before, Color());
    }

    /** Row by row, each from the row below it. */
    method MoveRowsUp()
      requires Fits(vga[..])
      modifies vga
      ensures forall a | 0 <= a < vga.Length :: vga[a] == PartlyScrolled(old(vga[..]), HEIGHT, a)
    {
      hide PartlyScrolled, CopyUp;
      ghost var before := vga[..];
      assert forall a | 0 <= a < |before| :: before[a] == PartlyScrolled(before, 0, a) by {
        NothingScrolled(before);
      }
      for y := 0 to HEIGHT
        invariant forall a | 0 <= a < vga.Length :: vga[..][a] == PartlyScrolled(before, y, a)
      {
        CopyingRowScrolls(before, vga[..], CopyUp(vga[..], y * PITCH, (y + 1) * PITCH, PITCH), y);
        Memcpy(vga, y * PITCH, (y + 1) * PITCH, PITCH);
      }
    }

    /** Blanks the 25 rows of the screen; rows 25 and 26 below it stay as they are. */
    method Clear()
      requires Fits(vga[..])
      modifies this, vga
      ensures State() == Terminal.Clear(old(vga[..]), Color())
    {
      ghost var before := vga[..];
      var entry := CreateEntry(SPACE, Color());
      hide CreateEntry;
      for y := 0 to HEIGHT
        invariant forall a | 0 <= a < vga.Length :: vga[a] == PartlyCleared(before, entry, y * PITCH, a)
      {
        ClearRow(before, entry, y);
      }
      assert vga[..] == ClearedMemory(before, Color());
      cx, cy := 0, 0;
    }

    /** The inner loop of `Clear`: the cells of row y. */
    method ClearRow(ghost before: seq<byte>, entry: u16, y: nat)
      requires Fits(vga[..]) && y < HEIGHT && |before| == vga.Length
      requires forall a | 0 <= a < vga.Length :: vga[a] == PartlyCleared(before, entry, y * PITCH, a)
      modifies vga
      ensures forall a | 0 <= a < vga.Length :: vga[a] == PartlyCleared(before, entry, (y + 1) * PITCH, a)
    {
      hide HalfwordByte;
      for x := 0 to WIDTH
        invariant forall a | 0 <= a < vga.Length :: vga[a] == PartlyCleared(before, entry, y * PITCH + 2 * x, a)
      {
        var index := y * 2 * WIDTH + x * 2;
        EntryBytes(entry, index);
        vga[index], vga[index + 1] := entry % 0x100, entry / 0x100;
      }
    }

    /** One character. */
    method Putc(c: byte)
      requires CursorOk(State())
      modifies this, vga
      ensures State() == PutC(old(State()), c, Color())
      ensures CursorOk(State())
      ensures c != 0 && c != 10 && fgcol < 16 && bgcol < 16 ==>
        0 < cx && Shows(vga[..], cy, cx - 1, c, if c < 128 then 16 * bgcol + fgcol else 255)
    {
      hide CreateEntry, MakeColor, Scrolled, WithCell, Shows;
      if c == 0 {
        return;
      }
      if cx >= WIDTH || c == NEWLINE {
        cx := 0;
        cy := cy + 1;
      }
      if cy >= HEIGHT - 1 {
        ScrollUp();
        cy := cy - 1;
      }
      if c == NEWLINE {
        return;
      }
      PutCell(c);
    }

    /** The last step: the character at the cursor. */
    method PutCell(c: byte)
      requires Fits(vga[..]) && cx < WIDTH && cy < TEXT_ROWS
      modifies this, vga
      ensures State() == Screen(WithCell(old(vga[..]), old(cy), old(cx), CreateEntry(c, Color())), old(cx) + 1, old(cy))
      ensures fgcol < 16 && bgcol < 16 ==> Shows(vga[..], old(cy), old(cx), c, if c < 128 then 16 * bgcol + fgcol else 255)
    {
      hide CreateEntry, MakeColor;
      var index := cy * 2 * WIDTH + cx * 2;
      var entry := CreateEntry(c, Color());
      EntryDigits(c, fgcol, bgcol);
      vga[index], vga[index + 1] := entry % 0x100, entry / 0x100;
      cx := cx + 1;
    }

    /** A string, given as the characters before its NUL. */
    method Puts(s: seq<byte>)
      requires CursorOk(State())
      modifies this, vga
      ensures State() == PutAll(old(State()), s, Color())
      ensures CursorOk(State())
    {
      assert s[..0] == [];
      for i := 0 to |s|
        invariant CursorOk(State()) && State() == PutAll(old(State()), s[..i], Color())
      {
        assert s[..i + 1][..i] == s[..i];
        Putc(s[i]);
      }
      assert s[..|s|] == s;
    }
  }

  /** Initialising, clearing and printing any text shows the last 24 lines of that text, white on black,
      if the memory below the screen was blank. */
  method ShowText(memory: array<byte>, text: seq<byte>) returns (console: TextConsole)
    requires Fits(memory[..]) && WhiteBlanks(memory[..], 25)
    modifies memory
    ensures console.vga == memory
    ensures Displays(console.State(), FeedAll([[]], text), MakeColor(15, 0))
    ensures ShowsLines(memory[..], FeedAll([[]], text))
    ensures CursorAtEnd(console.cx, console.cy, FeedAll([[]], text))
    ensures SameBehindRows(old(memory[..]), memory[..])
  {
    RowBlankIs(memory[..], 25);
    ghost var before := memory[..];
    console := new TextConsole(memory);
    console.Clear();
    console.Puts(text);
    ScreenShowsTerminal(before, text, MakeColor(15, 0));
    ConsoleStaysInRows(before, text, MakeColor(15, 0));
    hide Displays, FeedAll, ShowsLines, CursorAtEnd, MakeColor, SameBehindRows, PutAll;
    DisplayedBytes(console.State(), FeedAll([[]], text));
  }
}
