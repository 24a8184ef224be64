/**
 The C library's readers of numbers, on a text that ends in a NUL. Each gives the value and how
 many characters were used, none when there is no number. Hexadecimal fractions, infinities and
 NaNs are not read.
 */
module CNumbers {
  import opened Common
  import opened NumberText
  import opened Numerals

  /** The number at the start of a text, after any white space. */
  function Strtod(s: string): (p: Parsed<real>)
    ensures p.length <= |s|
  {
    var p := ReadNumeral(s);
    Parsed(if p.length == 0 then 0.0 else NumberOf(p.value), p.length)
  }

  /** The digits of an integer, after an optional "0x" when the base is 16. */
  function Natural(s: string, base: nat): (p: Parsed<nat>)
    requires 2 <= base <= 16
    ensures p.length <= |s|
  {
    if base == 16 && HexPrefix(s) then
      var n := Run(s[2..], 16);
      Parsed(Value(s[2..][..n], 16), n + 2)
    else
      Parsed(Value(s[..Run(s, base)], base), Run(s, base))
  }

  predicate HexPrefix(s: string) {
    3 <= |s| && s[0] == '0' && (s[1] == 'x' || s[1] == 'X') && IsDigit(s[2], 16)
  }

  /** Base 0 lets the text choose: "0x" for 16, another leading zero for 8, else 10. */
  function BaseOf(s: string): (base: nat)
    ensures 2 <= base <= 16
  {
    if HexPrefix(s) then 16 else if CharAt(s, 0) == '0' then 8 else 10
  }

  /* Limits of a 64-bit long. */
  const LONG_MAX := 0x7FFF_FFFF_FFFF_FFFF
  const ULONG_MAX := 0xFFFF_FFFF_FFFF_FFFF

  function Strtol(s: string, base: nat): (p: Parsed<int>)
    requires 2 <= base <= 16
    ensures p.length <= |s|
  {
    var t := s[Spaces(s)..];
    var sign := if CharAt(t, 0) == '-' || CharAt(t, 0) == '+' then 1 else 0;
    var p := Natural(t[sign..], base);
    if p.length == 0 then Parsed(0, 0)
    else
      var v := if CharAt(t, 0) == '-' then Max(0 - p.value as int, -LONG_MAX - 1) else Min(p.value, LONG_MAX);
      Parsed(v, Spaces(s) + sign + p.length)
  }

  function Strtoul(s: string): (p: Parsed<nat>)
    ensures p.length <= |s|
  {
    var t := s[Spaces(s)..];
    var sign := if CharAt(t, 0) == '-' || CharAt(t, 0) == '+' then 1 else 0;
    var p := Natural(t[sign..], BaseOf(t[sign..]));
    if p.length == 0 then Parsed(0, 0)
    else
      var v := if ULONG_MAX < p.value then ULONG_MAX
               else if CharAt(t, 0) == '-' then (0 - p.value as int) % (ULONG_MAX + 1)
               else p.value;
      Parsed(v, Spaces(s) + sign + p.length)
  }

  lemma NaturalReads(digits: string, rest: string, base: nat)
    requires 2 <= base <= 16 && AllDigits(digits, base) && digits != []
    requires rest != [] ==> !IsDigit(rest[0], base)
    requires base == 16 && rest != [] ==> rest[0] != 'x' && rest[0] != 'X'
    ensures Natural(digits + rest, base) == Parsed(Value(digits, base), |digits|)
  {
    RunEnds(digits, rest, base);
    assert !IsDigit('x', 16) && !IsDigit('X', 16);
    assert |digits| == 1 && rest != [] ==> (digits + rest)[1] == rest[0];
    assert 1 < |digits| ==> (digits + rest)[1] == digits[1];
  }

  lemma StrtodReads(k: nat, n: Numeral, rest: string)
    requires n.Complete() && Ends(n, rest)
    ensures Strtod(Blanks(k) + (NumeralText(n) + rest)) == Parsed(NumberOf(n), k + |NumeralText(n)|)
    ensures NumeralText(n) != ""
  {
    hide ReadNumeral, NumeralText, NumberOf, Ends;
    NumeralReads(k, n, rest);
    NumeralBegins(n, "");
    assert NumeralText(n) + "" == NumeralText(n);
  }

  lemma StrtodReadsPlain(n: Numeral, rest: string)
    requires n.Complete() && Ends(n, rest)
    ensures Strtod(NumeralText(n) + rest) == Parsed(NumberOf(n), |NumeralText(n)|)
    ensures NumeralText(n) != ""
  {
    hide *;
    StrtodReads(0, n, rest);
    NoBlanks(NumeralText(n) + rest);
  }

  lemma NoBlanks(s: string)
    ensures Blanks(0) + s == s
  {
  }

  /** Without a sign an integer is read as it stands. */
  lemma NoSign(s: string)
    requires s != [] && IsDigit(s[0], 16)
    ensures Spaces(s) == 0 && s[0..] == s && s[0] != '-' && s[0] != '+'
  {
  }

  lemma StrtolReads(digits: string, rest: string, base: nat)
    requires 2 <= base <= 16 && AllDigits(digits, base) && digits != []
    requires rest != [] ==> !IsDigit(rest[0], base)
    requires base == 16 && rest != [] ==> rest[0] != 'x' && rest[0] != 'X'
    requires Value(digits, base) <= LONG_MAX
    ensures Strtol(digits + rest, base) == Parsed(Value(digits, base), |digits|)
  {
    assert IsDigit((digits + rest)[0], base);
    NoSign(digits + rest);
    NaturalReads(digits, rest, base);
  }

  /** A minus sign makes it negative. */
  lemma StrtolReadsNegative(digits: string, rest: string, base: nat)
    requires 2 <= base <= 16 && AllDigits(digits, base) && digits != []
    requires rest != [] ==> !IsDigit(rest[0], base)
    requires base == 16 && rest != [] ==> rest[0] != 'x' && rest[0] != 'X'
    requires Value(digits, base) <= LONG_MAX
    ensures Strtol("-" + (digits + rest), base) == Parsed(-(Value(digits, base) as int), 1 + |digits|)
  {
    NaturalReads(digits, rest, base);
    hide Natural, Value;
    var s := "-" + (digits + rest);
    assert Spaces(s) == 0 && s[0..] == s && s[1..] == digits + rest;
  }

  lemma NaturalReadsHex(digits: string, rest: string)
    requires AllDigits(digits, 16) && digits != []
    requires rest != [] ==> !IsDigit(rest[0], 16)
    ensures Natural("0x" + (digits + rest), 16) == Parsed(Value(digits, 16), 2 + |digits|)
  {
    hide Run, Value;
    var s := "0x" + (digits + rest);
    assert s[2..] == digits + rest && s[2] == digits[0];
    RunEnds(digits, rest, 16);
  }

  lemma StrtolReadsHex(digits: string, rest: string)
    requires AllDigits(digits, 16) && digits != []
    requires rest != [] ==> !IsDigit(rest[0], 16)
    requires Value(digits, 16) <= LONG_MAX
    ensures Strtol("0x" + (digits + rest), 16) == Parsed(Value(digits, 16), 2 + |digits|)
  {
    NaturalReadsHex(digits, rest);
    hide Natural, Value;
    NoSign("0x" + (digits + rest));
  }

  /** With base 0 the text chooses: digits behind "0x" are hexadecimal, */
  lemma StrtoulReadsHex(digits: string, rest: string)
    requires AllDigits(digits, 16) && digits != [] && Value(digits, 16) <= ULONG_MAX
    requires rest != [] ==> !IsDigit(rest[0], 16)
    ensures Strtoul("0x" + (digits + rest)) == Parsed(Value(digits, 16), 2 + |digits|)
  {
    var s := "0x" + (digits + rest);
    assert s[2] == digits[0] && IsDigit(s[2], 16);
    NaturalReadsHex(digits, rest);
    hide Natural, Value;
    NoSign(s);
  }

  /** and digits behind another zero are octal. */
  lemma StrtoulReadsOctal(digits: string, rest: string)
    requires AllDigits(digits, 8) && digits != [] && Value(digits, 8) <= ULONG_MAX
    requires rest != [] ==> !IsDigit(rest[0], 16) && rest[0] != 'x' && rest[0] != 'X'
    ensures Strtoul("0" + (digits + rest)) == Parsed(Value(digits, 8), 1 + |digits|)
  {
    hide Natural, Value, BaseOf, Pow, DigitOf;
    OctalBase(digits, rest);
    ZeroDigit(8);
    ValueOfBoth("0", digits, 8);
    assert "0" + (digits + rest) == "0" + digits + rest;
    NotInSmallerBase(rest);
    NaturalReads("0" + digits, rest, 8);
  }

  lemma OctalBase(digits: string, rest: string)
    requires AllDigits(digits, 8) && digits != []
    ensures var s := "0" + (digits + rest);
            BaseOf(s) == 8 && Spaces(s) == 0 && s[0..] == s && s[0] != '-' && s[0] != '+'
  {
    var s := "0" + (digits + rest);
    assert s[1] == digits[0] && IsDigit(s[1], 8);
  }

  lemma NotInSmallerBase(rest: string)
    requires rest != [] ==> !IsDigit(rest[0], 16)
    ensures rest != [] ==> !IsDigit(rest[0], 8)
  {
  }

  /** A number as `%u` prints it is read as decimal whatever it is, zero included. */
  lemma StrtoulReads(n: nat, rest: string)
    requires n <= ULONG_MAX
    requires rest != [] ==> !IsDigit(rest[0], 16) && rest[0] != 'x' && rest[0] != 'X'
    ensures Strtoul(Digits(n, 10, 'a') + rest) == Parsed(n, |Digits(n, 10, 'a')|)
  {
    var digits := Digits(n, 10, 'a');
    var s := digits + rest;
    assert IsDigit(s[0], 10);
    NoSign(s);
    PrintedReads(n, rest);
    hide Natural, BaseOf, Digits;
  }

  lemma PrintedReads(n: nat, rest: string)
    requires rest != [] ==> !IsDigit(rest[0], 16) && rest[0] != 'x' && rest[0] != 'X'
    ensures var digits := Digits(n, 10, 'a');
            Natural(digits + rest, BaseOf(digits + rest)) == Parsed(n, |digits|)
  {
    var digits := Digits(n, 10, 'a');
    LeadingDigit(n, 10, 'a');
    ValueOfDigits(n, 10, 'a');
    hide Natural, Value, Digits;
    var s := digits + rest;
    assert s[0] == digits[0];
    if n == 0 {
      ZeroInAnyBase(digits);
      assert !HexPrefix(s) by {
        assert |digits| == 1 && (1 < |s| ==> s[1] == rest[0]);
      }
      NaturalReads(digits, rest, 8);
    } else {
      NaturalReads(digits, rest, 10);
    }
  }

  lemma ZeroInAnyBase(digits: string)
    requires AllDigits(digits, 10) && |digits| == 1 && Value(digits, 10) == 0
    ensures digits == "0" && AllDigits(digits, 8) && Value(digits, 8) == 0
  {
    assert digits[..0] == [];
  }
}
