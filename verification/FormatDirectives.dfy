/** What each kind of directive prints, at any position of any format.  Together with `SilentPercent` these
    lemmas determine what `kvprintf` prints: text, `%s`, `%i`, `%d`, `%x`, `%c`, each with or without a width. */
module FormatDirectives {
  import opened Bits
  import opened Outcomes
  import opened Numerals
  import opened Formats

  /** The text followed by the rest, if the rest is defined. */
  function Prepend(text: seq<char>, rest: Option<seq<char>>): Option<seq<char>> {
    match rest
    case None => None
    case Some(more) => Some(text + more)
  }

  /** Where the conversion character of the `%` at position i is: behind the width, if there is one. */
  function ConversionAt(fmt: seq<char>, i: nat): nat {
    if i + 1 < |fmt| && fmt[i + 1] == '0' then i + 3 else i + 1
  }

  /** The width in force there: one character, read as a digit whatever it is. */
  function WidthAt(fmt: seq<char>, i: nat, width: int): int {
    if i + 2 < |fmt| && fmt[i + 1] == '0' then
      var code := fmt[i + 2] as int % 256;
      if code < 128 then code - 48 else code - 304
    else width
  }

  lemma LiteralAt(fmt: seq<char>, i: nat, args: seq<Arg>, width: int)
    requires i < |fmt| && fmt[i] != '%'
    ensures FormatFrom(fmt, i, args, width) == Prepend([fmt[i]], FormatFrom(fmt, i + 1, args, width))
  {
    ThenStep(Literal(fmt[i]), Parse(fmt, i + 1));
  }

  lemma ThenRenders(d: Directive, rest: seq<Directive>, args: seq<Arg>, width: int)
    requires (d.PutNumber? ==> IsBase(d.base)) && BasesOk(rest) && BasesOk([d] + rest)
    ensures Render([d] + rest, args, width) ==
            match Emit(d, args, width)
            case None => None
            case Some(text) => Prepend(text, Render(rest, ArgsAfter(d, args), WidthAfter(d, width)))
  {
    assert ([d] + rest)[0] == d && ([d] + rest)[1..] == rest;
  }

  /** The directive at position i, through what it renders to. */
  lemma ConvertAt(fmt: seq<char>, i: nat, args: seq<Arg>, width: int)
    requires i + 1 < |fmt| && Conversion(fmt[i + 1]).Some?
    ensures var d := Conversion(fmt[i + 1]).value;
      (d.PutNumber? ==> IsBase(d.base))
      && ConvertFrom(fmt, i, args, width) ==
         match Emit(d, args, width)
         case None => None
         case Some(text) => Prepend(text, FormatFrom(fmt, i + 2, ArgsAfter(d, args), width))
  {
    var d, rest := Conversion(fmt[i + 1]).value, Parse(fmt, i + 2);
    assert Convert(fmt, i) == Then(d, rest);
    if rest.Some? {
      ParsedBasesOk(fmt, i);
      ParsedBasesOk(fmt, i + 2);
      ThenRenders(d, rest.value, args, width);
    }
  }

  lemma PercentAt(fmt: seq<char>, i: nat, args: seq<Arg>, width: int)
    requires i < |fmt| && fmt[i] == '%' && ConversionAt(fmt, i) < |fmt|
    ensures FormatFrom(fmt, i, args, width) == ConvertFrom(fmt, ConversionAt(fmt, i) - 1, args, WidthAt(fmt, i, width))
  {
    if fmt[i + 1] == '0' {
      var w, rest := WidthOf(fmt[i + 2]), Convert(fmt, i + 2);
      assert Parse(fmt, i) == Then(Width(w), rest);
      if rest.Some? {
        ParsedBasesOk(fmt, i);
        ParsedBasesOk(fmt, i + 2);
        ThenRenders(Width(w), rest.value, args, width);
        NothingPrepended(Render(rest.value, args, w));
      }
    } else {
      assert Parse(fmt, i) == Convert(fmt, i);
    }
  }

  lemma NothingPrepended(rest: Option<seq<char>>)
    ensures Prepend([], rest) == rest
  {
    assert rest.Some? ==> [] + rest.value == rest.value;
  }

  /** `%s` prints its argument as it is; a width pads nothing. */
  lemma StringAt(fmt: seq<char>, i: nat, args: seq<Arg>, width: int)
    requires i < |fmt| && fmt[i] == '%' && ConversionAt(fmt, i) < |fmt| && fmt[ConversionAt(fmt, i)] == 's'
    ensures FormatFrom(fmt, i, args, width) ==
            if |args| > 0 && args[0].Text?
            then Prepend(args[0].text, FormatFrom(fmt, ConversionAt(fmt, i) + 1, args[1..], WidthAt(fmt, i, width)))
            else None
  {
    hide FormatFrom, ConvertFrom, WidthAt;
    PercentAt(fmt, i, args, width);
    ConvertAt(fmt, ConversionAt(fmt, i) - 1, args, WidthAt(fmt, i, width));
  }

  /** `%i` and `%d` print decimal, `%x` hexadecimal numbers, padded with zeros to the width in force. */
  lemma NumberAt(fmt: seq<char>, i: nat, args: seq<Arg>, width: int)
    requires i < |fmt| && fmt[i] == '%' && ConversionAt(fmt, i) < |fmt| && fmt[ConversionAt(fmt, i)] in {'i', 'd', 'x'}
    ensures var base := if fmt[ConversionAt(fmt, i)] == 'x' then 16 else 10;
      FormatFrom(fmt, i, args, width) ==
      if |args| > 0 && args[0].Number?
      then Prepend(Padded(args[0].value, base, WidthAt(fmt, i, width)),
                   FormatFrom(fmt, ConversionAt(fmt, i) + 1, args[1..], WidthAt(fmt, i, width)))
      else None
  {
    hide FormatFrom, ConvertFrom, WidthAt, Padded;
    PercentAt(fmt, i, args, width);
    ConvertAt(fmt, ConversionAt(fmt, i) - 1, args, WidthAt(fmt, i, width));
  }

  /** `%c` prints the low byte of its argument. */
  lemma CharAt(fmt: seq<char>, i: nat, args: seq<Arg>, width: int)
    requires i < |fmt| && fmt[i] == '%' && ConversionAt(fmt, i) < |fmt| && fmt[ConversionAt(fmt, i)] == 'c'
    ensures FormatFrom(fmt, i, args, width) ==
            if |args| > 0 && args[0].Number?
            then Prepend([(args[0].value % 256) as char],
                         FormatFrom(fmt, ConversionAt(fmt, i) + 1, args[1..], WidthAt(fmt, i, width)))
            else None
  {
    hide FormatFrom, ConvertFrom, WidthAt;
    PercentAt(fmt, i, args, width);
    ConvertAt(fmt, ConversionAt(fmt, i) - 1, args, WidthAt(fmt, i, width));
  }

  /** The end of the format prints nothing, whatever arguments are left. */
  lemma EndOfFormat(fmt: seq<char>, args: seq<Arg>, width: int)
    ensures FormatFrom(fmt, |fmt|, args, width) == Some([])
  {
  }

  lemma StringFormat(s: seq<char>)
    ensures Format("%s", [Text(s)]) == Some(s)
  {
    StringAt("%s", 0, [Text(s)], 0);
    EndOfFormat("%s", [], 0);
    assert [Text(s)][1..] == [] && s + [] == s;
  }
}
