/**
 Oscillator and pilot-tone tables as text (software/src/localOscillator.c, ptGen.c): numbers in
 rows and columns, read back number by number.
 */
module CoefficientText {
  import opened Common
  import opened NumberText
  import opened CNumbers
  import opened Numerals
  import opened Coefficients
  import opened TableSum

  /** The three tables: how many columns and rows, the scale, how many values the memory's value
      field can hold, the weight of the bank number in the control word, and the bank of each
      column. */
  datatype Format = Format(cols: nat, capacity: nat, scale: nat, fieldSize: nat, bankWeight: nat, banks: seq<nat>)
  {
    predicate Valid() {
      && 0 < cols == |banks| && 0 < capacity
      && 0 < scale < MILLION && fieldSize == 2 * (scale + 1) && fieldSize <= bankWeight
      && forall c, d :: 0 <= c < d < cols && c % 2 == d % 2 ==> banks[c] != banks[d]
    }
  }

  const RF := Format(2, 1024, OSCILLATOR_SCALE, 0x4_0000, 0x4000_0000, [0, 0])
  const PT := Format(4, 8192, OSCILLATOR_SCALE, 0x4_0000, 0x4000_0000, [1, 1, 2, 2])
  const GENERATOR := Format(2, 65536, GENERATOR_SCALE, 0x1_0000, 0x8000_0000, [0, 0])

  /** Fewer rows than this are not accepted. */
  const MIN_ROWS := 29

  lemma FormatsAreValid()
    ensures RF.Valid() && PT.Valid() && GENERATOR.Valid()
  {
  }

  /** Where entry number `k` stands. */
  predicate EndsRow(f: Format, k: nat)
    requires f.Valid()
  {
    k % f.cols == f.cols - 1
  }

  predicate StartsRow(f: Format, k: nat)
    requires f.Valid()
  {
    k % f.cols == 0
  }

  function RowOf(f: Format, k: nat): nat
    requires f.Valid()
  {
    k / f.cols
  }

  function MaxEntries(f: Format): nat {
    f.cols * f.capacity
  }

  function Separator(f: Format, k: nat): char
    requires f.Valid()
  {
    if EndsRow(f, k) then '\n' else ','
  }

  /** The text of the entries from number `k` on. */
  function TextFrom(f: Format, entries: seq<int>, k: nat): string
    requires f.Valid() && k <= |entries|
    decreases |entries| - k
  {
    if k == |entries| then ""
    else Printed(entries[k], f.scale) + ([Separator(f, k)] + TextFrom(f, entries, k + 1))
  }

  /** Reads entries up to the end of the text. The separator is only checked at the end of a row,
      and only values below -1 are refused. */
  function Parse(f: Format, s: string, done: seq<int>): Option<seq<int>>
    requires f.Valid()
    decreases |s|
  {
    if MaxEntries(f) <= |done| then None
    else
      var x := Strtod(s);
      var endOfRow := EndsRow(f, |done|);
      var end := CharAt(s, x.length);
      if endOfRow && end != '\n' && end != '\r' then None
      else if x.value < -1.0 then None
      else
        var more := done + [Scale(x.value, f.scale)];
        if |s| <= x.length + 1 then
          if RowOf(f, |done|) < MIN_ROWS - 1 || !endOfRow then None else Some(more)
        else Parse(f, s[x.length + 1..], more)
  }

  /** The entries that are stored on the way, also when the text is refused in the end. */
  function Taken(f: Format, s: string, done: seq<int>): (r: seq<int>)
    requires f.Valid()
    ensures |done| <= MaxEntries(f) ==> |r| <= MaxEntries(f)
    decreases |s|
  {
    if MaxEntries(f) <= |done| then done
    else
      var x := Strtod(s);
      var end := CharAt(s, x.length);
      if (EndsRow(f, |done|) && end != '\n' && end != '\r') || x.value < -1.0 then done
      else
        var more := done + [Scale(x.value, f.scale)];
        if |s| <= x.length + 1 then more else Taken(f, s[x.length + 1..], more)
  }

  predicate InRange(f: Format, entries: seq<int>, k: nat) {
    forall i :: k <= i < |entries| ==> -(f.scale as int) <= entries[i]
  }

  /** One number read. */
  lemma ParseStep(f: Format, v: int, end: char, tail: string, done: seq<int>)
    requires f.Valid() && EndsNumber([end] + tail)
    ensures var endOfRow := EndsRow(f, |done|);
            Parse(f, Printed(v, f.scale) + ([end] + tail), done)
            == if MaxEntries(f) <= |done| || v < -(f.scale as int) || (endOfRow && end != '\n' && end != '\r') then None
               else if tail == "" then
                 if RowOf(f, |done|) < MIN_ROWS - 1 || !endOfRow then None else Some(done + [v])
               else Parse(f, tail, done + [v])
  {
    hide Strtod, Scale, Printed, EndsRow, RowOf, MaxEntries, EndsNumber;
    BeginsWithoutDigit([end] + tail);
    EntryRoundTrip(v, f.scale, [end] + tail);
    var n := |Printed(v, f.scale)|;
    var s := Printed(v, f.scale) + ([end] + tail);
    assert s[n] == end && s[n + 1..] == tail;
  }

  lemma BeginsWithoutDigit(rest: string)
    requires EndsNumber(rest)
    ensures rest != "" ==> !IsDigit(rest[0], 10)
  {
  }

  lemma PunctuationEndsNumber(end: char, tail: string)
    requires end in {',', '\n', '\r'}
    ensures EndsNumber([end] + tail)
  {
  }

  /** The character between the numbers of a row is never checked: with any other one the text is
      read just as with a comma, unless it is a digit or begins an exponent, and so belongs to the
      number. */
  lemma CommaIsNotChecked(f: Format, v: int, end: char, tail: string, done: seq<int>)
    requires f.Valid() && !EndsRow(f, |done|) && EndsNumber([end] + tail)
    ensures Parse(f, Printed(v, f.scale) + ([end] + tail), done)
            == Parse(f, Printed(v, f.scale) + ([','] + tail), done)
  {
    hide *;
    PunctuationEndsNumber(',', tail);
    ParseStep(f, v, end, tail, done);
    ParseStep(f, v, ',', tail, done);
  }

  /** At the end of a row a carriage return does as well as a line feed, and nothing else does. */
  lemma RowEnds(f: Format, v: int, end: char, tail: string, done: seq<int>)
    requires f.Valid() && EndsRow(f, |done|) && EndsNumber([end] + tail)
    ensures end == '\r' ==>
              Parse(f, Printed(v, f.scale) + ([end] + tail), done)
              == Parse(f, Printed(v, f.scale) + (['\n'] + tail), done)
    ensures end != '\r' && end != '\n' ==> Parse(f, Printed(v, f.scale) + ([end] + tail), done) == None
  {
    hide *;
    PunctuationEndsNumber('\n', tail);
    ParseStep(f, v, end, tail, done);
    ParseStep(f, v, '\n', tail, done);
  }

  /** Concretely: a letter e between two numbers makes one number of both, a semicolon does not. */
  lemma LetterJoinsNumbers()
    ensures Strtod("0.500004" + "e-0,").length == 11
    ensures Strtod("0.500004" + ";-0,").length == 8
  {
    hide NumberOf, ReadNumeral, ReadExponent, NumeralText, Blanks;
    var n := Numeral(false, "0", true, "500004", NoExponent);
    TextOfExample(n);
    ExponentsOfExample();
    MantissaThenExponent(0, n, "e-0,");
    MantissaThenExponent(0, n, ";-0,");
    NoBlanks(NumeralText(n) + "e-0,");
    NoBlanks(NumeralText(n) + ";-0,");
  }

  lemma TextOfExample(n: Numeral)
    requires n == Numeral(false, "0", true, "500004", NoExponent)
    ensures n.Complete() && NumeralText(n) == "0.500004"
  {
    assert "0" + ("." + "500004") + "" == "0.500004";
  }

  lemma ExponentsOfExample()
    ensures ReadExponent("e-0,").length == 3 && ReadExponent(";-0,").length == 0
  {
    RunEnds("0", ",", 10);
    assert "e-0,"[2..] == "0" + ",";
  }

  /** What is uploaded comes back: the printed table is read as itself exactly when it is neither
      too short nor too long and has no entry below -1; otherwise it is refused. */
  lemma {:induction false} PrintedTableParses(f: Format, entries: seq<int>, rows: nat, k: nat)
    requires f.Valid() && |entries| == rows * f.cols && k < |entries| && k <= MaxEntries(f)
    ensures Parse(f, TextFrom(f, entries, k), entries[..k])
            == if 29 <= rows <= f.capacity && InRange(f, entries, k) then Some(entries) else None
    decreases |entries| - k
  {
    hide Parse, Printed, EndsRow, RowOf, MaxEntries;
    var v, tail := entries[k], TextFrom(f, entries, k + 1);
    PunctuationEndsNumber(Separator(f, k), tail);
    ParseStep(f, v, Separator(f, k), tail, entries[..k]);
    LastEntry(f, rows, k);
    AsLong(f, rows);
    assert entries[..k] + [v] == entries[..k + 1];
    assert InRange(f, entries, k) <==> -(f.scale as int) <= v && InRange(f, entries, k + 1);
    if k + 1 < |entries| {
      TextIsLonger(f, entries, k + 1);
      if k < MaxEntries(f) {
        PrintedTableParses(f, entries, rows, k + 1);
      }
    } else {
      assert entries[..k + 1] == entries;
    }
  }

  lemma AsLong(f: Format, rows: nat)
    requires f.Valid()
    ensures rows <= f.capacity <==> rows * f.cols <= MaxEntries(f)
  {
    assert f.cols * f.capacity - rows * f.cols == (f.capacity - rows) * f.cols;
    SameSign(f.capacity - rows, f.cols);
  }

  lemma SameSign(d: int, cols: nat)
    requires 0 < cols
    ensures 0 <= d <==> 0 <= d * cols
  {
  }

  lemma TextIsLonger(f: Format, entries: seq<int>, k: nat)
    requires f.Valid() && k < |entries|
    ensures TextFrom(f, entries, k) != ""
  {
  }

  /** The last entry is the last column of the last row. */
  lemma LastEntry(f: Format, rows: nat, k: nat)
    requires f.Valid() && k < rows * f.cols
    ensures k + 1 == rows * f.cols ==> EndsRow(f, k) && RowOf(f, k) == rows - 1
  {
    if k + 1 == rows * f.cols {
      RowFits(rows - 1, rows, f.cols);
      RowAndColumn(rows - 1, f.cols - 1, f.cols);
    }
  }

  /** The same text with lines that end in carriage return and line feed. */
  function CrlfFrom(f: Format, entries: seq<int>, k: nat): string
    requires f.Valid() && k <= |entries|
    decreases |entries| - k
  {
    if k == |entries| then ""
    else Printed(entries[k], f.scale)
         + (if EndsRow(f, k) then ['\r'] + ("\n" + CrlfFrom(f, entries, k + 1))
            else [','] + CrlfFrom(f, entries, k + 1))
  }

  /** Although a carriage return is accepted at the end of a row, a table with such lines never
      is: after the last row its line feed is read as one more, empty, number. */
  lemma {:induction false} CrlfIsRefused(f: Format, entries: seq<int>, rows: nat, k: nat, feed: string)
    requires f.Valid() && 2 <= f.cols && |entries| == rows * f.cols && k <= |entries|
    requires if StartsRow(f, k) && 0 < k then feed == "\n" else feed == "" && k < |entries|
    ensures Parse(f, feed + CrlfFrom(f, entries, k), entries[..k]) == None
    decreases |entries| - k
  {
    hide Parse, Printed, RowOf, EndsRow, StartsRow, MaxEntries;
    if k == |entries| {
      assert feed + CrlfFrom(f, entries, k) == "\n" && entries[..k] == entries;
      LoneLineFeed(f, entries);
    } else {
      var v, tail := entries[k], CrlfFrom(f, entries, k + 1);
      NextColumn(f, rows, k);
      var next := if EndsRow(f, k) then "\n" else "";
      assert k + 1 < |entries| ==> tail != "";
      var end := if EndsRow(f, k) then '\r' else ',';
      assert next + tail == if EndsRow(f, k) then "\n" + tail else tail;
      CrlfStep(f, feed, v, end, next + tail, entries[..k]);
      assert entries[..k] + [v] == entries[..k + 1];
      CrlfIsRefused(f, entries, rows, k + 1, next);
    }
  }

  lemma NextColumn(f: Format, rows: nat, k: nat)
    requires f.Valid() && k < rows * f.cols
    ensures EndsRow(f, k) <==> StartsRow(f, k + 1)
    ensures k + 1 == rows * f.cols ==> EndsRow(f, k)
  {
    LastEntry(f, rows, k);
    Successor(k, f.cols);
  }

  lemma Successor(k: nat, cols: nat)
    requires 0 < cols
    ensures k % cols == cols - 1 <==> (k + 1) % cols == 0
  {
    var x := k % cols;
    AddMod(k, 1, cols);
    if x + 1 == cols {
      QuotientIsUnique(x + 1, cols, 1, 0);
    } else {
      QuotientIsUnique(x + 1, cols, 0, x + 1);
    }
  }

  lemma LoneLineFeed(f: Format, done: seq<int>)
    requires f.Valid() && 2 <= f.cols && StartsRow(f, |done|)
    ensures Parse(f, "\n", done) == None
  {
    hide MaxEntries, RowOf;
    var s := "\n";
    assert Spaces(s) == 1 by {
      assert s[1..] == "";
    }
    assert ReadNumeral(s).length == 0 by {
      assert s[Spaces(s)..] == "" && ReadMantissa("").length == 0;
    }
  }

  lemma CrlfStep(f: Format, feed: string, v: int, end: char, tail: string, done: seq<int>)
    requires f.Valid() && feed in {"", "\n"} && end in {',', '\r'} && tail != ""
    ensures Parse(f, feed + (Printed(v, f.scale) + ([end] + tail)), done) == None
         || Parse(f, feed + (Printed(v, f.scale) + ([end] + tail)), done) == Parse(f, tail, done + [v])
  {
    hide Strtod, Scale, Printed, EndsRow, RowOf, MaxEntries;
    PunctuationEndsNumber(end, tail);
    EntryRoundTrip(v, f.scale, [end] + tail);
    var t := Printed(v, f.scale) + ([end] + tail);
    PrintedIsNotEmpty(v, f.scale);
    AfterLineFeed(t);
    var s, n := feed + t, |feed| + |Printed(v, f.scale)|;
    assert feed == "" ==> s == t;
    assert s[n] == end && s[n + 1..] == tail;
  }

  lemma AfterLineFeed(t: string)
    requires 0 < Strtod(t).length
    ensures Strtod("\n" + t) == Parsed(Strtod(t).value, 1 + Strtod(t).length)
  {
    hide ReadSigned, NumberOf;
    var s := "\n" + t;
    assert s[1..] == t;
    assert Spaces(s) == 1 + Spaces(t);
    assert s[Spaces(s)..] == t[Spaces(t)..];
  }

  lemma PrintedIsNotEmpty(v: int, scale: nat)
    requires 0 < scale
    ensures Printed(v, scale) != ""
  {
  }

  /** The text grows by one number at its end. */
  lemma {:induction false} TextOfMore(f: Format, entries: seq<int>, v: int, k: nat)
    requires f.Valid() && k <= |entries|
    ensures TextFrom(f, entries + [v], k)
            == TextFrom(f, entries, k) + (Printed(v, f.scale) + [Separator(f, |entries|)])
    decreases |entries| - k
  {
    hide Printed, Separator;
    var more := entries + [v];
    if k == |entries| {
      assert TextFrom(f, more, k + 1) == "";
    } else {
      TextOfMore(f, entries, v, k + 1);
      assert more[k] == entries[k];
    }
  }

  /** Tables of fractions are printed ten characters a number. */
  lemma {:induction false} TextIsTenWide(f: Format, entries: seq<int>, k: nat)
    requires f.Valid() && k <= |entries|
    requires forall i :: k <= i < |entries| ==> Abs(entries[i]) <= f.scale
    ensures |TextFrom(f, entries, k)| == 10 * (|entries| - k)
    decreases |entries| - k
  {
    hide Printed;
    if k < |entries| {
      PrintedIsNineWide(entries[k], f.scale);
      TextIsTenWide(f, entries, k + 1);
    }
  }
}
