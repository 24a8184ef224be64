/** Numbers as text in a base up to 16: writing them, and reading the digits back. */
module NumberText {
  import opened Common

  /** What was read from a text, and how much of it was used. */
  datatype Parsed<+T> = Parsed(value: T, length: nat)

  /** The value of a digit or letter; 99 for every other character. */
  function DigitOf(c: char): nat {
    if '0' <= c <= '9' then (c - '0') as nat
    else if 'a' <= c <= 'f' then (c - 'a') as nat + 10
    else if 'A' <= c <= 'F' then (c - 'A') as nat + 10
    else 99
  }

  predicate IsDigit(c: char, base: nat) {
    DigitOf(c) < base
  }

  predicate AllDigits(s: string, base: nat) {
    forall i :: 0 <= i < |s| ==> IsDigit(s[i], base)
  }

  function Quotient(n: nat, base: nat): (q: nat)
    requires 2 <= base
    ensures base <= n ==> q < n
  {
    n / base
  }

  function Rest(n: nat, base: nat): (r: nat)
    requires 2 <= base
    ensures r < base
  {
    n % base
  }

  /** How a digit is written; the letters are those from `ten` on. */
  function DigitChar(v: nat, ten: char): (c: char)
    requires v < 16 && (ten == 'a' || ten == 'A')
    ensures DigitOf(c) == v
  {
    if v < 10 then '0' + v as char else ten + (v - 10) as char
  }

  /** `n` without leading zeros. */
  function Digits(n: nat, base: nat, ten: char): (s: string)
    requires 2 <= base <= 16 && (ten == 'a' || ten == 'A')
    ensures s != [] && AllDigits(s, base)
  {
    if n < base then [DigitChar(n, ten)] else Digits(Quotient(n, base), base, ten) + [DigitChar(Rest(n, base), ten)]
  }

  /** The last `width` digits of `n`. */
  function Padded(n: nat, base: nat, ten: char, width: nat): (s: string)
    requires 2 <= base <= 16 && (ten == 'a' || ten == 'A')
    ensures |s| == width && AllDigits(s, base)
  {
    hide DigitOf;
    if width == 0 then [] else Padded(Quotient(n, base), base, ten, width - 1) + [DigitChar(Rest(n, base), ten)]
  }

  /** The number some digits stand for. */
  function Value(s: string, base: nat): nat
    requires AllDigits(s, base)
  {
    if s == [] then 0 else Value(s[..|s| - 1], base) * base + DigitOf(s[|s| - 1])
  }

  /** How many digits a text begins with. */
  function Run(s: string, base: nat): (n: nat)
    ensures n <= |s| && AllDigits(s[..n], base)
    ensures n < |s| ==> !IsDigit(s[n], base)
  {
    if s == [] || !IsDigit(s[0], base) then 0
    else
      var n := 1 + Run(s[1..], base);
      assert forall i :: 0 < i < n ==> s[..n][i] == s[1..][..n - 1][i - 1];
      n
  }

  lemma {:induction false} RunEnds(digits: string, rest: string, base: nat)
    requires AllDigits(digits, base) && (rest != [] ==> !IsDigit(rest[0], base))
    ensures Run(digits + rest, base) == |digits| && (digits + rest)[..|digits|] == digits
  {
    hide DigitOf;
    if digits == [] {
      assert digits + rest == rest;
    } else {
      RunEnds(digits[1..], rest, base);
      assert (digits + rest)[1..] == digits[1..] + rest;
    }
  }

  lemma ValueOfSnoc(s: string, c: char, base: nat)
    requires AllDigits(s, base) && IsDigit(c, base)
    ensures AllDigits(s + [c], base) && Value(s + [c], base) == Value(s, base) * base + DigitOf(c)
  {
    assert (s + [c])[..|s|] == s;
  }

  lemma QuotientAndRest(n: nat, base: nat)
    requires 2 <= base
    ensures Quotient(n, base) * base + Rest(n, base) == n
  {
  }

  lemma {:induction false} ValueOfDigits(n: nat, base: nat, ten: char)
    requires 2 <= base <= 16 && (ten == 'a' || ten == 'A')
    ensures Value(Digits(n, base, ten), base) == n
  {
    hide Value, DigitOf, DigitChar, Quotient, Rest;
    if n < base {
      ValueOfDigit(n, base, ten);
    } else {
      ValueOfDigits(Quotient(n, base), base, ten);
      ValueOfSnoc(Digits(Quotient(n, base), base, ten), DigitChar(Rest(n, base), ten), base);
      QuotientAndRest(n, base);
    }
  }

  lemma ValueOfDigit(n: nat, base: nat, ten: char)
    requires n < base <= 16 && (ten == 'a' || ten == 'A')
    ensures Value([DigitChar(n, ten)], base) == n
  {
    var s := [DigitChar(n, ten)];
    assert s[..0] == [];
  }

  lemma {:induction false} ValueOfPadded(n: nat, base: nat, ten: char, width: nat)
    requires 2 <= base <= 16 && (ten == 'a' || ten == 'A')
    requires n < Pow(base, width)
    ensures Value(Padded(n, base, ten, width), base) == n
    decreases width
  {
    hide DigitOf, DigitChar, Padded, Quotient, Rest;
    if width == 0 {
      assert Pow(base, width) == 1;
    } else {
      QuotientBelowPower(n, base, width);
      ValueOfPadded(Quotient(n, base), base, ten, width - 1);
      PaddedOneMore(n, base, ten, width);
    }
  }

  lemma PaddedOneMore(n: nat, base: nat, ten: char, width: nat)
    requires 2 <= base <= 16 && (ten == 'a' || ten == 'A') && 0 < width
    ensures Value(Padded(n, base, ten, width), base)
            == Value(Padded(Quotient(n, base), base, ten, width - 1), base) * base + Rest(n, base)
    ensures Quotient(n, base) * base + Rest(n, base) == n
  {
    hide DigitOf, DigitChar, Value, Quotient, Rest;
    ValueOfSnoc(Padded(Quotient(n, base), base, ten, width - 1), DigitChar(Rest(n, base), ten), base);
    QuotientAndRest(n, base);
  }

  lemma QuotientBelowPower(n: nat, base: nat, width: nat)
    requires 2 <= base && 0 < width && n < Pow(base, width)
    ensures Quotient(n, base) < Pow(base, width - 1)
  {
    QuotientBelow(n, base, Pow(base, width - 1));
  }

  lemma QuotientBelow(n: nat, base: nat, p: nat)
    requires 2 <= base && n < base * p
    ensures Quotient(n, base) < p
  {
  }

  lemma {:induction false} ValueOfBoth(a: string, b: string, base: nat)
    requires AllDigits(a, base) && AllDigits(b, base)
    ensures AllDigits(a + b, base) && Value(a + b, base) == Value(a, base) * Pow(base, |b|) + Value(b, base)
  {
    hide DigitOf;
    if b == [] {
      assert a + b == a;
    } else {
      var init, last := b[..|b| - 1], b[|b| - 1];
      ValueOfBoth(a, init, base);
      assert a + b == a + init + [last] && b == init + [last];
      OneMorePlace(Value(a, base), Pow(base, |init|), Value(init, base), base, DigitOf(last));
      ValueOfSnoc(a + init, last, base);
      ValueOfSnoc(init, last, base);
    }
  }

  lemma OneMorePlace(v: nat, p: nat, w: nat, base: nat, d: nat)
    ensures (v * p + w) * base + d == v * (base * p) + (w * base + d)
  {
  }

  /** Only zero is written with a leading zero. */
  lemma {:induction false} LeadingDigit(n: nat, base: nat, ten: char)
    requires 2 <= base <= 16 && (ten == 'a' || ten == 'A')
    ensures n != 0 ==> DigitOf(Digits(n, base, ten)[0]) != 0
    ensures n == 0 ==> |Digits(n, base, ten)| == 1
  {
    if base <= n {
      LeadingDigit(Quotient(n, base), base, ten);
    }
  }

  /** Leading zeros do not change a value. */
  lemma {:induction false} ZerosBefore(k: nat, s: string, base: nat)
    requires 1 <= base && AllDigits(s, base)
    ensures AllDigits(Zeros(k) + s, base) && Value(Zeros(k) + s, base) == Value(s, base)
  {
    hide DigitOf, Value, Pow;
    if k == 0 {
      assert Zeros(k) + s == s;
    } else {
      ZerosBefore(k - 1, s, base);
      ZeroDigit(base);
      ValueOfBoth("0", Zeros(k - 1) + s, base);
      assert Zeros(k) + s == "0" + (Zeros(k - 1) + s);
    }
  }

  lemma ZeroDigit(base: nat)
    requires 1 <= base
    ensures AllDigits("0", base) && Value("0", base) == 0
  {
    assert "0"[..0] == "";
  }

  function Zeros(k: nat): string {
    if k == 0 then "" else "0" + Zeros(k - 1)
  }

  predicate IsSpace(c: char) {
    c == ' ' || '\t' <= c <= '\r'
  }

  /** How many white-space characters a text begins with. */
  function Spaces(s: string): (n: nat)
    ensures n <= |s|
  {
    if s != [] && IsSpace(s[0]) then 1 + Spaces(s[1..]) else 0
  }

  /** The character at `n`, or the terminating NUL. */
  function CharAt(s: string, n: nat): char {
    if n < |s| then s[n] else '\0'
  }

  lemma SuffixAt(text: string, cp: nat, n: nat)
    requires cp + n <= |text|
    ensures CharAt(text[cp..], n) == CharAt(text, cp + n)
    ensures cp + n < |text| ==> text[cp..][n + 1..] == text[cp + n + 1..]
  {
  }
}
