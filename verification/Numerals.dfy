/** What `itoa` of klibc/private/stdlib.c writes: canonical numerals in bases 2 to 16. */
module Numerals {
  import opened Bits
  import opened Outcomes

  const BCHARS: seq<char> := "0123456789ABCDEF"

  predicate IsBase(base: int) {
    2 <= base <= 16
  }

  /** Most significant digit first; the empty text for zero. */
  function Digits(value: nat, base: nat): seq<char>
    requires IsBase(base)
  {
    if value == 0 then [] else Digits(value / base, base) + [BCHARS[value % base]]
  }

  function Numeral(value: nat, base: nat): seq<char>
    requires IsBase(base)
  {
    if value == 0 then "0" else Digits(value, base)
  }

  /** The digit a character stands for. */
  function DigitOf(c: char): Option<nat> {
    if '0' <= c <= '9' then Some(c as int - '0' as int)
    else if 'A' <= c <= 'F' then Some(c as int - 'A' as int + 10)
    else None
  }

  predicate IsDigit(c: char, base: nat) {
    DigitOf(c).Some? && DigitOf(c).value < base
  }

  function DigitValue(c: char): nat {
    if DigitOf(c).Some? then DigitOf(c).value else 0
  }

  /** The number a text of digits denotes. */
  function ValueOf(s: seq<char>, base: nat): nat {
    if s == [] then 0 else ValueOf(s[..|s| - 1], base) * base + DigitValue(s[|s| - 1])
  }

  ghost predicate AllDigits(s: seq<char>, base: nat) {
    forall i | 0 <= i < |s| :: IsDigit(s[i], base)
  }

  /** At least one digit, and no leading zero on a longer text. */
  ghost predicate Canonical(s: seq<char>, base: nat) {
    AllDigits(s, base) && |s| > 0 && (|s| > 1 ==> s[0] != '0')
  }

  lemma DigitRoundTrip(d: nat)
    requires d < 16
    ensures DigitOf(BCHARS[d]) == Some(d) && DigitValue(BCHARS[d]) == d
    ensures BCHARS[d] == '0' <==> d == 0
    ensures BCHARS[d] != '\0' && BCHARS[d] != ' '
  {
  }

  lemma CharOfDigit(c: char, base: nat)
    requires IsBase(base) && IsDigit(c, base)
    ensures BCHARS[DigitValue(c)] == c && DigitValue(c) < base
  {
  }

  lemma ValueOfAppend(front: seq<char>, c: char, base: nat)
    ensures ValueOf(front + [c], base) == ValueOf(front, base) * base + DigitValue(c)
  {
    assert (front + [c])[..|front|] == front;
  }

  lemma DivisionParts(value: nat, base: nat)
    requires base > 1
    ensures value == value / base * base + value % base
    ensures 0 <= value / base && 0 <= value % base < base
    ensures value > 0 ==> value / base < value
  {
    var q, r := value / base, value % base;
    assert value == base * q + r;
    MultipleGap(base, q);
    MultipleGap(base - 1, q);
    assert base * q == (base - 1) * q + q;
  }

  lemma {:induction false} DigitsValue(value: nat, base: nat)
    requires IsBase(base)
    ensures AllDigits(Digits(value, base), base)
    ensures ValueOf(Digits(value, base), base) == value
    ensures value > 0 ==> |Digits(value, base)| > 0 && Digits(value, base)[0] != '0'
  {
    hide DigitOf, DigitValue, IsDigit, ValueOf;
    if value == 0 {
      ValueOfEmpty(base);
    } else {
      var front, c := Digits(value / base, base), BCHARS[value % base];
      DivisionParts(value, base);
      DigitsValue(value / base, base);
      DigitOfRemainder(value, base);
      ValueOfAppend(front, c, base);
    }
  }

  lemma ValueOfEmpty(base: nat)
    ensures ValueOf([], base) == 0
  {
  }

  lemma DigitOfRemainder(value: nat, base: nat)
    requires IsBase(base)
    ensures var c := BCHARS[value % base];
      IsDigit(c, base) && DigitValue(c) == value % base && (c == '0' <==> value % base == 0)
  {
    DigitRoundTrip(value % base);
  }

  /** Reading a numeral back gives the number, and the numeral is canonical. */
  lemma NumeralValue(value: nat, base: nat)
    requires IsBase(base)
    ensures Canonical(Numeral(value, base), base)
    ensures ValueOf(Numeral(value, base), base) == value
  {
    DigitsValue(value, base);
    ValueOfAppend([], '0', base);
    assert [] + ['0'] == "0";
  }

  /** Conversely every canonical text is the numeral of the number it denotes, so numerals and numbers
      correspond one to one. */
  lemma CanonicalIsNumeral(s: seq<char>, base: nat)
    requires IsBase(base) && Canonical(s, base)
    ensures Numeral(ValueOf(s, base), base) == s
  {
    if s[0] == '0' {
      ValueOfAppend([], '0', base);
      assert s == [] + ['0'];
    } else {
      DigitsOfValue(s, base);
    }
  }

  lemma {:induction false} DigitsOfValue(s: seq<char>, base: nat)
    requires IsBase(base) && AllDigits(s, base) && (|s| > 0 ==> s[0] != '0')
    ensures Digits(ValueOf(s, base), base) == s
    ensures |s| > 0 ==> ValueOf(s, base) > 0
  {
    hide DigitOf, DigitValue, IsDigit, ValueOf;
    if |s| == 0 {
      ValueOfEmpty(base);
    } else {
      var front, last := s[..|s| - 1], s[|s| - 1];
      var v, d := ValueOf(front, base), DigitValue(last);
      DigitsOfValue(front, base);
      CharOfDigit(last, base);
      ValueOfAppend(front, last, base);
      assert s == front + [last];
      AppendedDigit(v, base, d);
      if |s| == 1 {
        ValueOfEmpty(base);
      }
    }
  }

  lemma AppendedDigit(v: nat, base: nat, d: nat)
    requires d < base
    ensures (v * base + d) / base == v && (v * base + d) % base == d
    ensures v > 0 ==> v * base + d > 0
  {
    RemainderUnique(v * base + d, base, v, d);
    MultipleGap(base, v);
  }

  lemma DigitsStep(value: nat, base: nat)
    requires IsBase(base) && value > 0
    ensures Digits(value, base) == Digits(value / base, base) + [BCHARS[value % base]]
    ensures 0 <= value / base < value && 0 <= value % base < 16
    ensures Digits(0, base) == []
  {
    DivisionParts(value, base);
  }

  function Power(base: nat, k: nat): (p: nat)
    ensures base > 0 ==> p > 0
  {
    if k == 0 then 1
    else
      var p := Power(base, k - 1);
      if base > 0 then MultipleGap(base, p); base * p else 0
  }

  /** A numeral needs k digits at most exactly when the number is below the k-th power of the base. */
  lemma {:induction false} DigitCount(value: nat, base: nat, k: nat)
    requires IsBase(base)
    ensures |Digits(value, base)| <= k <==> value < Power(base, k)
    decreases k
  {
    if value > 0 && k > 0 {
      DigitCount(value / base, base, k - 1);
      DivideBelow(value, base, Power(base, k - 1));
    }
  }

  lemma DivideBelow(value: nat, base: nat, p: nat)
    requires base > 1
    ensures value / base < p <==> value < base * p
  {
    var q, r := value / base, value % base;
    assert value == base * q + r;
    if q < p {
      MultipleGap(base, p - q);
      assert base * (p - q) == base * p - base * q;
    } else if q > p {
      MultipleGap(base, q - p);
      assert base * (q - p) == base * q - base * p;
    }
  }

  lemma {:induction false} PowerGrows(b: nat, c: nat, k: nat)
    requires 1 <= b <= c
    ensures 1 <= Power(b, k) <= Power(c, k)
  {
    if k > 0 {
      PowerGrows(b, c, k - 1);
      ProductGrows(b, c, Power(b, k - 1), Power(c, k - 1));
    }
  }

  lemma ProductGrows(a: nat, b: nat, x: nat, y: nat)
    requires 1 <= a <= b && 1 <= x <= y
    ensures 1 <= a * x <= b * y
  {
    assert b * y == a * x + a * (y - x) + (b - a) * y;
    assert a * x >= 1 && a * (y - x) >= 0 && (b - a) * y >= 0;
  }

  /** A 32-bit number never overruns `tbuf[32]`, and in bases 10 and 16 never `str[32]`. */
  lemma WordDigits(value: u32, base: nat)
    requires IsBase(base)
    ensures |Numeral(value, base)| <= 32
    ensures base == 10 ==> |Numeral(value, base)| <= 10
    ensures base == 16 ==> |Numeral(value, base)| <= 8
  {
    PowerGrows(2, base, 32);
    SmallPowers();
    DigitCount(value, base, 32);
    DigitCount(value, base, 10);
    DigitCount(value, base, 8);
  }

  lemma {:induction false} PowerSum(base: nat, j: nat, k: nat)
    requires base > 0
    ensures Power(base, j + k) == Power(base, j) * Power(base, k)
    decreases j
  {
    if j > 0 {
      PowerSum(base, j - 1, k);
      TimesAssociates(base, Power(base, j - 1), Power(base, k));
    }
  }

  lemma TimesAssociates(a: nat, b: nat, c: nat)
    ensures a * (b * c) == (a * b) * c
  {
  }

  lemma SmallPowers()
    ensures Power(2, 32) == 0x1_0000_0000 && Power(10, 10) == 10_000_000_000 && Power(16, 8) == 0x1_0000_0000
  {
    assert Power(2, 8) == 0x100;
    PowerSum(2, 8, 8);
    PowerSum(2, 16, 16);
    assert Power(10, 5) == 100_000;
    PowerSum(10, 5, 5);
    assert Power(16, 4) == 0x1_0000;
    PowerSum(16, 4, 4);
  }
}
