/** `itoa` of klibc/private/stdlib.c and `kvprintf` of kernel/drivers/display/display.c, in place. */
module Printer {
  import opened Bits
  import opened Outcomes
  import opened Numerals
  import opened Formats

  /** The text `itoa` writes: bases above 16 get a zero. */
  function ItoaText(value: u32, base: nat): seq<char>
    requires base >= 2
  {
    if base > 16 then "0" else Numeral(value, base)
  }

  /** The first `len` characters are the number without leading zeros, and a NUL ends them. */
  ghost predicate HoldsNumber(s: seq<char>, len: nat, base: nat, value: u32) {
    len < |s| && s[len] == '\0' && Canonical(s[..len], base) && ValueOf(s[..len], base) == value
  }

  lemma ItoaTextIs(value: u32, base: nat)
    requires base >= 2
    ensures base <= 16 ==> Canonical(ItoaText(value, base), base) && ValueOf(ItoaText(value, base), base) == value
    ensures base > 16 ==> ItoaText(value, base) == "0"
  {
    if base <= 16 {
      NumeralValue(value, base);
    }
  }

  /** Digits go into `tbuf` least significant first and are then reversed into `str`. */
  method Itoa(value: u32, str: array<char>, base: nat, tbuf: array<char>)
    requires base >= 2 && tbuf.Length == 32 && str != tbuf
    requires str.Length > |ItoaText(value, base)|
    modifies str, tbuf
    ensures var text := ItoaText(value, base);
      && str[..|text|] == text && str[|text|] == '\0'
      && str[|text| + 1..] == old(str[|text| + 1..])
    ensures base > 16 ==> str[0] == '0' && str[1] == '\0'
    ensures base <= 16 ==> exists len: nat :: HoldsNumber(str[..], len, base, value)
  {
    ItoaTextIs(value, base);
    if value == 0 || base > 16 {
      str[0] := '0';
      str[1] := '\0';
      assert str[..1] == "0";
      assert base <= 16 ==> HoldsNumber(str[..], 1, base, value);
      return;
    }
    ghost var text := Digits(value, base);
    assert text == ItoaText(value, base);
    hide Digits, Numeral, ItoaText;
    var top := GenerateDigits(value, base, tbuf);
    ReverseInto(str, tbuf, top, text);
    assert str[..][..top] == text;
    assert HoldsNumber(str[..], top, base, value);
  }

  /** The first loop: the digits, last one first. */
  method GenerateDigits(value: u32, base: nat, tbuf: array<char>) returns (pos: nat)
    requires IsBase(base) && tbuf.Length == 32 && value > 0
    modifies tbuf
    ensures var text := Digits(value, base);
      pos == |text| <= 32 && forall k | 0 <= k < pos :: tbuf[k] == text[pos - 1 - k]
  {
    ghost var text := Digits(value, base);
    WordDigits(value, base);
    var v: nat := value;
    pos := 0;
    while v != 0
      invariant pos <= |text| <= 32
      invariant Digits(v, base) == text[..|text| - pos]
      invariant forall k | 0 <= k < pos :: tbuf[k] == text[|text| - 1 - k]
      decreases v
    {
      hide Digits;
      DigitsStep(v, base);
      tbuf[pos] := BCHARS[v % base];
      pos := pos + 1;
      v := v / base;
    }
  }

  /** The second loop: the buffer backwards, and a NUL. */
  method ReverseInto(str: array<char>, tbuf: array<char>, top: nat, ghost text: seq<char>)
    requires str != tbuf && top == |text| <= tbuf.Length && top < str.Length
    requires forall k | 0 <= k < top :: tbuf[k] == text[top - 1 - k]
    modifies str
    ensures str[..top] == text && str[top] == '\0' && str[top + 1..] == old(str[top + 1..])
  {
    var pos := top - 1;
    var opos := 0;
    while opos < top
      invariant 0 <= opos <= top && pos == top - 1 - opos
      invariant forall k | 0 <= k < opos :: str[k] == text[k]
      invariant forall k | opos <= k < str.Length :: str[k] == old(str[k])
    {
      str[opos] := tbuf[pos];
      pos, opos := pos - 1, opos + 1;
    }
    str[opos] := '\0';
  }

  /** The number of characters before the first NUL. */
  method Strlen(str: array<char>) returns (len: nat)
    requires '\0' in str[..]
    ensures len < str.Length && str[len] == '\0' && '\0' !in str[..len]
  {
    len := 0;
    while str[len] != '\0'
      invariant len < str.Length && '\0' !in str[..len]
      decreases str.Length - len
    {
      len := len + 1;
    }
  }

  /** The registered displays, as the one sequence of characters they all receive. */
  class Display {
    var output: seq<char>
    /** The static buffer of `itoa`. */
    const tbuf: array<char>

    constructor ()
      ensures output == [] && fresh(tbuf) && tbuf.Length == 32
    {
      output := [];
      tbuf := new char[32](_ => '\0');
    }

    method Putc(c: char)
      modifies this
      ensures output == old(output) + [c]
    {
      output := output + [c];
    }

    method Puts(s: seq<char>)
      modifies this
      ensures output == old(output) + s
    {
      output := output + s;
    }

    /** The code of the `%i`, `%d` and `%x` cases. */
    method PutNumber(value: u32, base: nat, numWidth: int)
      requires tbuf.Length == 32 && (base == 10 || base == 16)
      modifies this, tbuf
      ensures output == old(output) + Padded(value, base, numWidth)
    {
      hide Digits, Numeral, ItoaText, Padded, Zeros, HoldsNumber, Canonical, ValueOf, Power;
      ghost var text := Numeral(value, base);
      WordDigits(value, base);
      NumeralHasNoNul(value, base);
      PaddedParts(value, base, numWidth);
      ItoaTextIsNumeral(value, base);
      var str := new char[32](_ => '\0');
      Itoa(value, str, base, tbuf);
      var len := Strlen(str);
      LengthIsText(str[..], text, len);
      PutZeros(numWidth - len);
      Puts(str[..len]);
    }

    static lemma ItoaTextIsNumeral(value: u32, base: nat)
      requires IsBase(base)
      ensures ItoaText(value, base) == Numeral(value, base)
    {
    }

    static lemma PaddedParts(value: u32, base: nat, width: int)
      requires base == 10 || base == 16
      ensures Padded(value, base, width) == Zeros(width - |Numeral(value, base)|) + Numeral(value, base)
    {
    }

    method PutZeros(count: int)
      modifies this
      ensures output == old(output) + Zeros(count)
    {
      var i := 0;
      while i < count
        invariant 0 <= i && (count >= 0 ==> i <= count) && (count < 0 ==> i == 0)
        invariant output == old(output) + Zeros(i)
      {
        hide Zeros;
        ZerosAppend(i);
        Putc('0');
        i := i + 1;
      }
    }

    static lemma LengthIsText(s: seq<char>, text: seq<char>, len: nat)
      requires |text| < |s| && s[..|text|] == text && s[|text|] == '\0' && '\0' !in text
      requires len < |s| && s[len] == '\0' && '\0' !in s[..len]
      ensures len == |text|
    {
      assert s[..|text|] == text;
    }

    /** The second switch: the conversion character c prints its argument. */
    method PutConversion(c: char, argument: Arg, numWidth: int)
      requires tbuf.Length == 32 && Conversion(c).Some?
      requires Emit(Conversion(c).value, [argument], numWidth).Some?
      modifies this, tbuf
      ensures output == old(output) + Emit(Conversion(c).value, [argument], numWidth).value
      ensures c == 's' ==> argument.Text? && output == old(output) + argument.text
      ensures c == 'c' ==> argument.Number? && output == old(output) + [(argument.value % 256) as char]
      ensures c == 'i' || c == 'd' ==> argument.Number? && output == old(output) + Padded(argument.value, 10, numWidth)
      ensures c == 'x' ==> argument.Number? && output == old(output) + Padded(argument.value, 16, numWidth)
    {
      if c == 's' {
        Puts(argument.text);
      } else if c == 'i' || c == 'd' {
        PutNumber(argument.value, 10, numWidth);
      } else if c == 'x' {
        PutNumber(argument.value, 16, numWidth);
      } else {
        assert c == 'c';
        Putc((argument.value % 0x100) as char);
      }
    }

    /** The format loop.  Formats and arguments for which C leaves the outcome undefined are excluded. */
    method Kvprintf(fmt: seq<char>, args: seq<Arg>)
      requires tbuf.Length == 32 && Format(fmt, args).Some?
      modifies this, tbuf
      ensures output == old(output) + Format(fmt, args).value
    {
      ghost var goal := output + Format(fmt, args).value;
      AllRemains(output, fmt, args);
      var numWidth := 0;
      var arg := 0;
      var i := 0;
      while i < |fmt|
        invariant i <= |fmt|
        invariant Remains(goal, output, fmt, i, args, arg, numWidth)
        decreases |fmt| - i
      {
        hide Remains, RemainsInside, Emit, WidthOf;
        if fmt[i] == '%' {
          AfterPercent(goal, output, fmt, i, args, arg, numWidth);
          if At(fmt, i + 1) == '0' {
            numWidth := WidthOf(fmt[i + 2]);
            i := i + 2;
          }
          AfterConversion(goal, output, fmt, i, args, arg, numWidth);
          if Conversion(At(fmt, i + 1)).Some? {
            PutConversion(At(fmt, i + 1), args[arg], numWidth);
            arg := arg + 1;
            ConversionIsNotNul(At(fmt, i + 1));
            i := i + 2;
          } else {
            i := i + 1;
          }
        } else {
          AfterLiteral(goal, output, fmt, i, args, arg, numWidth);
          Putc(fmt[i]);
          i := i + 1;
        }
      }
      NothingRemains(goal, output, fmt, args, arg, numWidth);
    }
  }
}
