/** The format language of `kvprintf` in kernel/drivers/display/display.c: a format is read into
    directives, and directives are rendered with their arguments.

    A format is the text before its NUL.  A width stays in force until the next `%0`: it is never
    reset between directives. */
module Formats {
  import opened Bits
  import opened Outcomes
  import opened Numerals

  datatype Directive =
    | Literal(c: char)
    | Width(width: int)
    | PutString
    | PutNumber(base: nat)
    | PutChar

  /** A variadic argument: a C string (without its NUL) or a 32-bit number. */
  datatype Arg = Text(text: seq<char>) | Number(value: u32)

  /** fmt[i], which is the NUL just past the end. */
  function At(fmt: seq<char>, i: nat): char
    requires i <= |fmt|
  {
    if i < |fmt| then fmt[i] else '\0'
  }

  /** `fmt[i] - '0'` for a signed char. */
  function WidthOf(c: char): int {
    var code := c as int % 0x100;
    (if code < 0x80 then code else code - 0x100) - '0' as int
  }

  /** What the second switch makes of the character after position i: a directive, or nothing. */
  function Conversion(c: char): Option<Directive> {
    match c
    case 's' => Some(PutString)
    case 'i' => Some(PutNumber(10))
    case 'd' => Some(PutNumber(10))
    case 'x' => Some(PutNumber(16))
    case 'c' => Some(PutChar)
    case _ => None
  }

  /** The directives from position i on.  A `%` that introduces no conversion prints nothing itself.
      None when the format ends in `%0`, where the code reads past the NUL. */
  function Parse(fmt: seq<char>, i: nat): Option<seq<Directive>>
    requires i <= |fmt|
    decreases |fmt| - i, 1
  {
    if i == |fmt| then Some([])
    else if fmt[i] != '%' then Then(Literal(fmt[i]), Parse(fmt, i + 1))
    else if At(fmt, i + 1) != '0' then Convert(fmt, i)
    else if i + 2 == |fmt| then None
    else Then(Width(WidthOf(fmt[i + 2])), Convert(fmt, i + 2))
  }

  /** The rest of a `%` directive whose last character so far is at position i. */
  function Convert(fmt: seq<char>, i: nat): Option<seq<Directive>>
    requires i < |fmt|
    decreases |fmt| - i, 0
  {
    var conversion := Conversion(At(fmt, i + 1));
    if conversion.None? then Parse(fmt, i + 1)
    else
      ConversionIsNotNul(At(fmt, i + 1));
      Then(conversion.value, Parse(fmt, i + 2))
  }

  lemma ConversionIsNotNul(c: char)
    ensures Conversion(c).Some? ==> c != '\0'
  {
  }

  function Then(d: Directive, rest: Option<seq<Directive>>): Option<seq<Directive>> {
    if rest.None? then None else Some([d] + rest.value)
  }

  function Zeros(n: int): seq<char> {
    if n <= 0 then [] else ['0'] + Zeros(n - 1)
  }

  /** A number with zeros in front up to the width. */
  function Padded(value: u32, base: nat, width: int): seq<char>
    requires IsBase(base)
  {
    Zeros(width - |Numeral(value, base)|) + Numeral(value, base)
  }

  predicate BasesOk(directives: seq<Directive>) {
    forall i | 0 <= i < |directives| && directives[i].PutNumber? :: IsBase(directives[i].base)
  }

  /** What a directive prints; None where the argument is missing or of the wrong kind. */
  function Emit(d: Directive, args: seq<Arg>, width: int): Option<seq<char>>
    requires d.PutNumber? ==> IsBase(d.base)
  {
    match d
    case Literal(c) => Some([c])
    case Width(_) => Some([])
    case PutString => if |args| > 0 && args[0].Text? then Some(args[0].text) else None
    case PutNumber(base) => if |args| > 0 && args[0].Number? then Some(Padded(args[0].value, base, width)) else None
    case PutChar => if |args| > 0 && args[0].Number? then Some([(args[0].value % 0x100) as char]) else None
  }

  function ArgsAfter(d: Directive, args: seq<Arg>): seq<Arg> {
    if d.Literal? || d.Width? || args == [] then args else args[1..]
  }

  function WidthAfter(d: Directive, width: int): int {
    if d.Width? then d.width else width
  }

  /** The text of a sequence of directives, from left to right, carrying the last width forward. */
  function Render(directives: seq<Directive>, args: seq<Arg>, width: int): Option<seq<char>>
    requires BasesOk(directives)
  {
    if directives == [] then Some([])
    else
      var d := directives[0];
      var text, rest := Emit(d, args, width), Render(directives[1..], ArgsAfter(d, args), WidthAfter(d, width));
      if text.None? || rest.None? then None else Some(text.value + rest.value)
  }

  /** What `kvprintf` prints. */
  function Format(fmt: seq<char>, args: seq<Arg>): Option<seq<char>> {
    FormatFrom(fmt, 0, args, 0)
  }

  /** The same from the middle of the format on. */
  function FormatFrom(fmt: seq<char>, i: nat, args: seq<Arg>, width: int): Option<seq<char>>
    requires i <= |fmt|
  {
    var directives := Parse(fmt, i);
    if directives.None? then None
    else
      ParsedBasesOk(fmt, i);
      Render(directives.value, args, width)
  }

  lemma {:induction false} ParsedBasesOk(fmt: seq<char>, i: nat)
    requires i <= |fmt|
    ensures Parse(fmt, i).Some? ==> BasesOk(Parse(fmt, i).value)
    ensures i < |fmt| && Convert(fmt, i).Some? ==> BasesOk(Convert(fmt, i).value)
    decreases |fmt| - i
  {
    if i < |fmt| {
      ParsedBasesOk(fmt, i + 1);
      ConversionIsNotNul(At(fmt, i + 1));
      if i + 1 < |fmt| {
        ParsedBasesOk(fmt, i + 2);
      }
    }
  }

  // ----- one character of the format at a time

  /** What is printed when a `%` was met and position i is its last character so far. */
  function ConvertFrom(fmt: seq<char>, i: nat, args: seq<Arg>, width: int): Option<seq<char>>
    requires i < |fmt|
  {
    var directives := Convert(fmt, i);
    if directives.None? then None
    else
      ParsedBasesOk(fmt, i);
      Render(directives.value, args, width)
  }

  lemma LiteralStep(fmt: seq<char>, i: nat, args: seq<Arg>, width: int)
    requires i < |fmt| && fmt[i] != '%'
    ensures var text, rest := FormatFrom(fmt, i, args, width), FormatFrom(fmt, i + 1, args, width);
      text.Some? ==> rest.Some? && text.value == [fmt[i]] + rest.value
  {
    ThenStep(Literal(fmt[i]), Parse(fmt, i + 1));
  }

  lemma ThenStep(d: Directive, rest: Option<seq<Directive>>)
    ensures rest.Some? ==> Then(d, rest).value[0] == d && Then(d, rest).value[1..] == rest.value
  {
  }

  lemma WidthStep(fmt: seq<char>, i: nat, args: seq<Arg>, width: int)
    requires i < |fmt| && fmt[i] == '%' && At(fmt, i + 1) == '0' && FormatFrom(fmt, i, args, width).Some?
    ensures i + 2 < |fmt|
    ensures FormatFrom(fmt, i, args, width) == ConvertFrom(fmt, i + 2, args, WidthOf(fmt[i + 2]))
  {
    ThenStep(Width(WidthOf(fmt[i + 2])), Convert(fmt, i + 2));
    var rest := ConvertFrom(fmt, i + 2, args, WidthOf(fmt[i + 2]));
    assert rest.Some? ==> [] + rest.value == rest.value;
  }

  lemma ConversionStep(fmt: seq<char>, i: nat, args: seq<Arg>, width: int)
    requires i < |fmt| && ConvertFrom(fmt, i, args, width).Some?
    ensures match Conversion(At(fmt, i + 1))
      case None => ConvertFrom(fmt, i, args, width) == FormatFrom(fmt, i + 1, args, width)
      case Some(d) =>
        && i + 2 <= |fmt| && |args| > 0 && (d.PutNumber? ==> IsBase(d.base))
        && Emit(d, args, width).Some? && FormatFrom(fmt, i + 2, args[1..], width).Some?
        && ConvertFrom(fmt, i, args, width).value
           == Emit(d, args, width).value + FormatFrom(fmt, i + 2, args[1..], width).value
  {
    var conversion := Conversion(At(fmt, i + 1));
    if conversion.Some? {
      ConversionIsNotNul(At(fmt, i + 1));
      ThenStep(conversion.value, Parse(fmt, i + 2));
    }
  }

  /** With `printed` on the display, printing the format from position i on completes the goal. */
  ghost predicate Remains(goal: seq<char>, printed: seq<char>, fmt: seq<char>, i: nat,
                            args: seq<Arg>, arg: nat, width: int)
  {
    && i <= |fmt| && arg <= |args|
    && FormatFrom(fmt, i, args[arg..], width).Some?
    && goal == printed + FormatFrom(fmt, i, args[arg..], width).value
  }

  /** The same inside a `%` directive whose last character so far is at position i. */
  ghost predicate RemainsInside(goal: seq<char>, printed: seq<char>, fmt: seq<char>, i: nat,
                                args: seq<Arg>, arg: nat, width: int)
  {
    && i < |fmt| && arg <= |args|
    && ConvertFrom(fmt, i, args[arg..], width).Some?
    && goal == printed + ConvertFrom(fmt, i, args[arg..], width).value
  }

  lemma AfterLiteral(goal: seq<char>, printed: seq<char>, fmt: seq<char>, i: nat, args: seq<Arg>, arg: nat, width: int)
    requires Remains(goal, printed, fmt, i, args, arg, width) && i < |fmt| && fmt[i] != '%'
    ensures Remains(goal, printed + [fmt[i]], fmt, i + 1, args, arg, width)
  {
    LiteralStep(fmt, i, args[arg..], width);
  }

  lemma AfterPercent(goal: seq<char>, printed: seq<char>, fmt: seq<char>, i: nat, args: seq<Arg>, arg: nat, width: int)
    requires Remains(goal, printed, fmt, i, args, arg, width) && i < |fmt| && fmt[i] == '%'
    ensures if At(fmt, i + 1) == '0'
      then i + 2 < |fmt| && RemainsInside(goal, printed, fmt, i + 2, args, arg, WidthOf(fmt[i + 2]))
      else RemainsInside(goal, printed, fmt, i, args, arg, width)
  {
    if At(fmt, i + 1) == '0' {
      WidthStep(fmt, i, args[arg..], width);
    }
  }

  lemma AfterConversion(goal: seq<char>, printed: seq<char>, fmt: seq<char>, i: nat, args: seq<Arg>, arg: nat, width: int)
    requires RemainsInside(goal, printed, fmt, i, args, arg, width)
    ensures match Conversion(At(fmt, i + 1))
      case None => Remains(goal, printed, fmt, i + 1, args, arg, width)
      case Some(d) =>
        && arg < |args| && (d.PutNumber? ==> IsBase(d.base)) && Emit(d, [args[arg]], width).Some?
        && Remains(goal, printed + Emit(d, [args[arg]], width).value, fmt, i + 2, args, arg + 1, width)
  {
    hide FormatFrom, ConvertFrom;
    ConversionStep(fmt, i, args[arg..], width);
    if Conversion(At(fmt, i + 1)).Some? {
      EmitFirst(Conversion(At(fmt, i + 1)).value, args, arg, width);
    }
  }

  lemma EmitFirst(d: Directive, args: seq<Arg>, arg: nat, width: int)
    requires arg < |args| && (d.PutNumber? ==> IsBase(d.base))
    ensures Emit(d, args[arg..], width) == Emit(d, [args[arg]], width)
    ensures args[arg..][1..] == args[arg + 1..]
  {
  }

  lemma NothingRemains(goal: seq<char>, printed: seq<char>, fmt: seq<char>, args: seq<Arg>, arg: nat, width: int)
    requires Remains(goal, printed, fmt, |fmt|, args, arg, width)
    ensures printed == goal
  {
  }

  lemma AllRemains(printed: seq<char>, fmt: seq<char>, args: seq<Arg>)
    requires Format(fmt, args).Some?
    ensures Remains(printed + Format(fmt, args).value, printed, fmt, 0, args, 0, 0)
  {
    assert args[0..] == args;
  }

  // ----- padded numbers

  lemma {:induction false} ZerosAppend(n: nat)
    ensures Zeros(n + 1) == Zeros(n) + ['0'] && |Zeros(n)| == n
  {
    if n > 0 {
      ZerosAppend(n - 1);
    }
  }

  lemma NumeralHasNoNul(value: nat, base: nat)
    requires IsBase(base)
    ensures '\0' !in Numeral(value, base)
  {
    NumeralValue(value, base);
  }

  /** A printed number has as many characters as the width or its digits need, whichever is more, and
      still denotes the number. */
  lemma PaddedNumber(value: u32, base: nat, width: int)
    requires IsBase(base)
    ensures var text, digits := Padded(value, base, width), |Numeral(value, base)|;
      && |text| == (if width > digits then width else digits)
      && AllDigits(text, base) && ValueOf(text, base) == value
  {
    NumeralValue(value, base);
    LeadingZeros(width - |Numeral(value, base)|, Numeral(value, base), base);
  }

  lemma {:induction false} LeadingZeros(n: int, s: seq<char>, base: nat)
    requires IsBase(base) && AllDigits(s, base)
    ensures |Zeros(n)| == (if n > 0 then n else 0)
    ensures AllDigits(Zeros(n) + s, base) && ValueOf(Zeros(n) + s, base) == ValueOf(s, base)
    decreases if n > 0 then n else 0
  {
    hide ValueOf, AllDigits;
    if n <= 0 {
      assert Zeros(n) + s == s;
    } else {
      LeadingZeros(n - 1, s, base);
      LeadingZero(Zeros(n - 1) + s, base);
      MoreDigits(Zeros(n - 1) + s, base);
      assert Zeros(n) + s == ['0'] + (Zeros(n - 1) + s);
    }
  }

  lemma MoreDigits(s: seq<char>, base: nat)
    requires IsBase(base) && AllDigits(s, base)
    ensures AllDigits(['0'] + s, base)
  {
  }

  lemma {:induction false} LeadingZero(s: seq<char>, base: nat)
    requires AllDigits(s, base)
    ensures ValueOf(['0'] + s, base) == ValueOf(s, base)
  {
    if s == [] {
      assert ['0'] + s == [] + ['0'];
      ValueOfAppend([], '0', base);
    } else {
      var front, last := s[..|s| - 1], s[|s| - 1];
      LeadingZero(front, base);
      ValueOfAppend(['0'] + front, last, base);
      ValueOfAppend(front, last, base);
      assert ['0'] + s == (['0'] + front) + [last] && s == front + [last];
    }
  }

  // ----- formats of a known shape

  /** A format, or the rest of one, without `%` prints itself. */
  lemma {:induction false} PlainFormat(fmt: seq<char>, i: nat, args: seq<Arg>, width: int)
    requires i <= |fmt| && '%' !in fmt[i..]
    ensures Parse(fmt, i).Some? && FormatFrom(fmt, i, args, width) == Some(fmt[i..])
    decreases |fmt| - i
  {
    if i == |fmt| {
      assert fmt[i..] == [];
    } else {
      assert fmt[i] == fmt[i..][0] && fmt[i..] == [fmt[i]] + fmt[i + 1..];
      PlainFormat(fmt, i + 1, args, width);
      ThenStep(Literal(fmt[i]), Parse(fmt, i + 1));
    }
  }

  /** `%0w` with a one-digit width, a number conversion, and plain text behind it. */
  lemma NumberFormat(fmt: seq<char>, v: u32)
    requires |fmt| >= 4 && fmt[0] == '%' && fmt[1] == '0' && '0' <= fmt[2] <= '9' && '%' !in fmt[4..]
    requires fmt[3] == 'i' || fmt[3] == 'd' || fmt[3] == 'x'
    ensures var base := if fmt[3] == 'x' then 16 else 10;
      Format(fmt, [Number(v)]) == Some(Padded(v, base, fmt[2] as int - '0' as int) + fmt[4..])
  {
    var width, base := fmt[2] as int - '0' as int, if fmt[3] == 'x' then 16 else 10;
    PlainFormat(fmt, 4, [], width);
    var tail := Parse(fmt, 4);
    ThenStep(PutNumber(base), tail);
    assert Convert(fmt, 2) == Then(PutNumber(base), tail);
    ThenStep(Width(width), Convert(fmt, 2));
    assert Parse(fmt, 0) == Then(Width(width), Convert(fmt, 2));
    ParsedBasesOk(fmt, 0);
    assert [Number(v)][1..] == [];
    assert Render(Convert(fmt, 2).value, [Number(v)], width) == Some(Padded(v, base, width) + fmt[4..]);
    assert [] + (Padded(v, base, width) + fmt[4..]) == Padded(v, base, width) + fmt[4..];
  }

  /** `%c` alone prints the low byte of its argument. */
  lemma CharFormat(v: u32)
    ensures Format("%c", [Number(v)]) == Some([(v % 0x100) as char])
  {
    var fmt := "%c";
    PlainFormat(fmt, 2, [], 0);
    ThenStep(PutChar, Parse(fmt, 2));
    assert Convert(fmt, 0) == Then(PutChar, Parse(fmt, 2));
    assert Parse(fmt, 0) == Convert(fmt, 0);
    assert [Number(v)][1..] == [] && fmt[2..] == [];
    ParsedBasesOk(fmt, 0);
    var c := [(v % 0x100) as char];
    assert Render(Convert(fmt, 0).value, [Number(v)], 0) == Some(c + []);
    assert c + [] == c;
  }

  /** A `%` before a character that is no conversion prints nothing, with or without a width between
      them, and reading goes on at that character.  So a doubled percent sign prints nothing, unlike
      that of the C library, and its second half introduces the next directive. */
  lemma SilentPercent(fmt: seq<char>, i: nat, args: seq<Arg>, width: int)
    requires i < |fmt| && fmt[i] == '%'
    ensures At(fmt, i + 1) != '0' && Conversion(At(fmt, i + 1)).None?
            ==> FormatFrom(fmt, i, args, width) == FormatFrom(fmt, i + 1, args, width)
    ensures At(fmt, i + 1) == '0' && i + 2 < |fmt| && Conversion(At(fmt, i + 3)).None?
            ==> FormatFrom(fmt, i, args, width) == FormatFrom(fmt, i + 3, args, WidthOf(fmt[i + 2]))
  {
    if At(fmt, i + 1) != '0' && Conversion(At(fmt, i + 1)).None? {
      assert Parse(fmt, i) == Convert(fmt, i) == Parse(fmt, i + 1);
    }
    if At(fmt, i + 1) == '0' && i + 2 < |fmt| && Conversion(At(fmt, i + 3)).None? {
      ThenStep(Width(WidthOf(fmt[i + 2])), Convert(fmt, i + 2));
      var rest := FormatFrom(fmt, i + 3, args, WidthOf(fmt[i + 2]));
      assert rest.Some? ==> [] + rest.value == rest.value;
    }
  }

  // ----- the width is never reset

  function WidthAfterAll(directives: seq<Directive>, width: int): int {
    if directives == [] then width else WidthAfterAll(directives[1..], WidthAfter(directives[0], width))
  }

  function ArgsAfterAll(directives: seq<Directive>, args: seq<Arg>): seq<Arg> {
    if directives == [] then args else ArgsAfterAll(directives[1..], ArgsAfter(directives[0], args))
  }

  /** Directives render one after the other, the second part with the width the first part left. */
  lemma {:induction false} RenderConcat(a: seq<Directive>, b: seq<Directive>, args: seq<Arg>, width: int)
    requires BasesOk(a) && BasesOk(b) && BasesOk(a + b)
    ensures var first, second := Render(a, args, width), Render(b, ArgsAfterAll(a, args), WidthAfterAll(a, width));
      Render(a + b, args, width) ==
      if first.Some? && second.Some? then Some(first.value + second.value) else None
    decreases |a|
  {
    if a == [] {
      assert [] + b == b;
      var second := Render(b, args, width);
      assert second.Some? ==> [] + second.value == second.value;
    } else {
      assert (a + b)[1..] == a[1..] + b;
      var args', width' := ArgsAfter(a[0], args), WidthAfter(a[0], width);
      RenderConcat(a[1..], b, args', width');
      var x, y := Emit(a[0], args, width), Render(a[1..], args', width');
      var z := Render(b, ArgsAfterAll(a, args), WidthAfterAll(a, width));
      if x.Some? && y.Some? && z.Some? {
        assert (x.value + y.value) + z.value == x.value + (y.value + z.value);
      }
    }
  }

  // ----- formats one after the other

  /** Reading f from position i on ends with f, whatever follows: f does not end inside a directive. */
  predicate Settled(f: seq<char>, i: nat)
    requires i <= |f|
    decreases |f| - i, 1
  {
    if i == |f| then true
    else if f[i] != '%' then Settled(f, i + 1)
    else if At(f, i + 1) != '0' then SettledInside(f, i)
    else i + 2 < |f| && SettledInside(f, i + 2)
  }

  predicate SettledInside(f: seq<char>, i: nat)
    requires i < |f|
    decreases |f| - i, 0
  {
    i + 1 < |f| && Settled(f, if Conversion(f[i + 1]).None? then i + 1 else i + 2)
  }

  function Joined(a: Option<seq<Directive>>, b: Option<seq<Directive>>): Option<seq<Directive>> {
    if a.None? || b.None? then None else Some(a.value + b.value)
  }

  lemma {:induction false} ParseShift(f: seq<char>, g: seq<char>, k: nat)
    requires k <= |g|
    ensures Parse(f + g, |f| + k) == Parse(g, k)
    ensures k < |g| ==> Convert(f + g, |f| + k) == Convert(g, k)
    decreases |g| - k
  {
    if k < |g| {
      ParseShift(f, g, k + 1);
      if k + 1 < |g| {
        ParseShift(f, g, k + 2);
      }
    }
  }

  lemma JoinedThen(d: Directive, a: Option<seq<Directive>>, b: Option<seq<Directive>>)
    ensures Joined(Then(d, a), b) == Then(d, Joined(a, b))
  {
    if a.Some? && b.Some? {
      assert [d] + a.value + b.value == [d] + (a.value + b.value);
    }
  }

  lemma JoinedNothing(b: Option<seq<Directive>>)
    ensures Joined(Some([]), b) == b
  {
    assert b.Some? ==> [] + b.value == b.value;
  }

  lemma NothingJoined(b: Option<seq<Directive>>)
    ensures Joined(None, b) == None
  {
  }

  /** What is read from f and then g is what is read from each. */
  lemma {:induction false} ParseConcat(f: seq<char>, g: seq<char>, i: nat)
    requires i <= |f| && Settled(f, i)
    ensures Parse(f, i).Some? && Parse(f + g, i) == Joined(Parse(f, i), Parse(g, 0))
    decreases |f| - i, 1
  {
    hide Joined;
    if i == |f| {
      ParseShift(f, g, 0);
      JoinedNothing(Parse(g, 0));
    } else if f[i] != '%' {
      ParseConcat(f, g, i + 1);
      JoinedThen(Literal(f[i]), Parse(f, i + 1), Parse(g, 0));
    } else if At(f, i + 1) != '0' {
      ConvertConcat(f, g, i);
    } else {
      ConvertConcat(f, g, i + 2);
      JoinedThen(Width(WidthOf(f[i + 2])), Convert(f, i + 2), Parse(g, 0));
    }
  }

  lemma {:induction false} ConvertConcat(f: seq<char>, g: seq<char>, i: nat)
    requires i < |f| && SettledInside(f, i)
    ensures i + 1 < |f| && Convert(f, i).Some? && Convert(f + g, i) == Joined(Convert(f, i), Parse(g, 0))
    decreases |f| - i, 0
  {
    hide Joined;
    var conversion := Conversion(f[i + 1]);
    if conversion.None? {
      ParseConcat(f, g, i + 1);
    } else {
      ParseConcat(f, g, i + 2);
      JoinedThen(conversion.value, Parse(f, i + 2), Parse(g, 0));
    }
  }

  lemma ThenInjective(d: Directive, a: Option<seq<Directive>>, b: Option<seq<Directive>>)
    ensures Then(d, a) == Then(d, b) <==> a == b
  {
    ThenStep(d, a);
    ThenStep(d, b);
  }

  lemma LastLetter(f: seq<char>)
    ensures Parse("d", 0) == Some([Literal('d')])
    ensures Parse(f + "d", |f| + 1) == Some([])
    ensures Convert(f + "d", |f|) == Some([])
  {
    var letter := "d";
    assert Parse(letter, 1) == Some([]);
    assert [Literal('d')] + [] == [Literal('d')];
  }

  /** A format that ends inside a directive is read otherwise when `d` follows it. */
  lemma {:induction false} UnsettledDiffers(f: seq<char>, i: nat)
    requires i <= |f| && !Settled(f, i)
    ensures Parse(f + "d", i) != Joined(Parse(f, i), Parse("d", 0))
    decreases |f| - i, 1
  {
    hide Joined;
    if f[i] != '%' {
      UnsettledDiffers(f, i + 1);
      JoinedThen(Literal(f[i]), Parse(f, i + 1), Parse("d", 0));
      ThenInjective(Literal(f[i]), Parse(f + "d", i + 1), Joined(Parse(f, i + 1), Parse("d", 0)));
    } else if At(f, i + 1) != '0' {
      UnsettledInsideDiffers(f, i);
    } else if i + 2 == |f| {
      LastLetter(f);
      NothingJoined(Parse("d", 0));
    } else {
      var width := Width(WidthOf(f[i + 2]));
      UnsettledInsideDiffers(f, i + 2);
      JoinedThen(width, Convert(f, i + 2), Parse("d", 0));
      ThenInjective(width, Convert(f + "d", i + 2), Joined(Convert(f, i + 2), Parse("d", 0)));
    }
  }

  lemma {:induction false} UnsettledInsideDiffers(f: seq<char>, i: nat)
    requires i < |f| && !SettledInside(f, i)
    ensures Convert(f + "d", i) != Joined(Convert(f, i), Parse("d", 0))
    decreases |f| - i, 0
  {
    hide Joined;
    if i + 1 == |f| {
      LastLetter(f);
      JoinedNothing(Parse("d", 0));
      ThenStep(PutNumber(10), Parse(f + "d", i + 2));
    } else if Conversion(f[i + 1]).None? {
      UnsettledDiffers(f, i + 1);
    } else {
      var d := Conversion(f[i + 1]).value;
      UnsettledDiffers(f, i + 2);
      JoinedThen(d, Parse(f, i + 2), Parse("d", 0));
      ThenInjective(d, Parse(f + "d", i + 2), Joined(Parse(f, i + 2), Parse("d", 0)));
    }
  }

  /** The formats that can be read apart from whatever follows them are exactly the settled ones. */
  lemma ParsesApartIffSettled(f: seq<char>)
    ensures (forall g :: Parse(f + g, 0) == Joined(Parse(f, 0), Parse(g, 0))) <==> Settled(f, 0)
  {
    if Settled(f, 0) {
      forall g
        ensures Parse(f + g, 0) == Joined(Parse(f, 0), Parse(g, 0))
      {
        ParseConcat(f, g, 0);
      }
    } else {
      UnsettledDiffers(f, 0);
    }
  }

  /** A format can be cut in two, and its halves printed one after the other with the arguments and the
      width handed on, wherever the cut is not inside a directive. */
  lemma FormatConcat(f: seq<char>, g: seq<char>, args: seq<Arg>)
    requires Settled(f, 0)
    ensures Parse(f, 0).Some?
    ensures var first := Format(f, args);
      var second := FormatFrom(g, 0, ArgsAfterAll(Parse(f, 0).value, args), WidthAfterAll(Parse(f, 0).value, 0));
      Format(f + g, args) == if first.Some? && second.Some? then Some(first.value + second.value) else None
  {
    ParseConcat(f, g, 0);
    ParsedBasesOk(f, 0);
    ParsedBasesOk(g, 0);
    ParsedBasesOk(f + g, 0);
    if Parse(g, 0).Some? {
      RenderConcat(Parse(f, 0).value, Parse(g, 0).value, args, 0);
    }
  }
}
