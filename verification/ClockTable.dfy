/**
 Register tables of the clock chips (software/src/rfclk.c): one number a line, kept with row
 count and checksum, and written to the chip in order.
 */
module ClockTable {
  import opened Common
  import opened NumberText
  import opened CNumbers
  import opened TableSum

  const CAPACITY := 512
  /* Shortest table that is accepted from a file, and shortest that is used. */
  const MIN_UPLOAD := 11
  const MIN_USED := 10

  predicate AllWords(values: seq<int>) {
    forall i :: 0 <= i < |values| ==> 0 <= values[i] < U32
  }

  /** The text of the values from number `k` on. */
  function TextFrom(values: seq<int>, k: nat): string
    requires AllWords(values) && k <= |values|
    decreases |values| - k
  {
    if k == |values| then "" else Digits(values[k], 10, 'a') + (['\n'] + TextFrom(values, k + 1))
  }

  /** The low 32 bits of a value. */
  function Word(v: nat): (w: nat)
    ensures w < U32 && (v < U32 ==> w == v)
  {
    v % U32
  }

  datatype Outcome = Refused | Finished(values: seq<int>) | More(rest: string, values: seq<int>)

  /** Reads one line; what is not a number at all reads as zero. */
  function ReadLine(s: string, done: seq<int>): (o: Outcome)
    ensures o.More? ==> |o.rest| < |s|
  {
    var x := Strtoul(s);
    if CAPACITY <= |done| then Refused
    else if CharAt(s, x.length) != '\n' && CharAt(s, x.length) != '\r' then Refused
    else
      var more := done + [Word(x.value)];
      if x.length + 1 < |s| then More(s[x.length + 1..], more)
      else if |more| < MIN_UPLOAD then Refused
      else Finished(more)
  }

  /** The values that are stored on the way, also when the text is refused in the end. */
  function Taken(s: string, done: seq<int>): (r: seq<int>)
    ensures |done| <= CAPACITY ==> |r| <= CAPACITY
    decreases |s|
  {
    var x := Strtoul(s);
    if CAPACITY <= |done| || (CharAt(s, x.length) != '\n' && CharAt(s, x.length) != '\r') then done
    else
      var more := done + [Word(x.value)];
      if x.length + 1 < |s| then Taken(s[x.length + 1..], more) else more
  }

  /** Reads values up to the end of the text. */
  function Parse(s: string, done: seq<int>): Option<seq<int>>
    decreases |s|
  {
    match ReadLine(s, done)
    case Refused => None
    case Finished(values) => Some(values)
    case More(rest, values) => Parse(rest, values)
  }

  lemma LineReads(v: nat, end: char, tail: string)
    requires v <= ULONG_MAX && end in {'\n', '\r'}
    ensures Strtoul(Digits(v, 10, 'a') + ([end] + tail)) == Parsed(v, |Digits(v, 10, 'a')|)
    ensures 0 < |Digits(v, 10, 'a')|
  {
    hide Strtoul, Digits;
    StrtoulReads(v, [end] + tail);
  }

  /** The outcome for a line that holds the value `v`. */
  function LineOutcome(v: int, tail: string, done: seq<int>): Outcome {
    if CAPACITY <= |done| then Refused
    else if tail != "" then More(tail, done + [v])
    else if |done| + 1 < MIN_UPLOAD then Refused
    else Finished(done + [v])
  }

  /** A number of more than 32 bits is cut off. */
  lemma LineIsRead(v: nat, end: char, tail: string, done: seq<int>)
    requires v <= ULONG_MAX && end in {'\n', '\r'}
    ensures ReadLine(Digits(v, 10, 'a') + ([end] + tail), done) == LineOutcome(v % U32, tail, done)
  {
    hide Strtoul, Digits, AllDigits;
    LineReads(v, end, tail);
    var n := |Digits(v, 10, 'a')|;
    var s := Digits(v, 10, 'a') + ([end] + tail);
    assert s[n] == end && s[n + 1..] == tail;
  }

  /** Downloading a table and uploading the file again restores it exactly when it has 11 to 512
      values; any other length is refused. */
  lemma {:induction false} PrintedTableParses(values: seq<int>, k: nat)
    requires AllWords(values) && k < |values| && k <= CAPACITY
    ensures Parse(TextFrom(values, k), values[..k])
            == if 11 <= |values| <= 512 then Some(values) else None
    decreases |values| - k
  {
    hide ReadLine, Digits;
    LineIsRead(values[k], '\n', TextFrom(values, k + 1), values[..k]);
    assert values[..k] + [values[k]] == values[..k + 1];
    if k + 1 < |values| {
      assert TextFrom(values, k + 1) != "";
      if k < CAPACITY {
        PrintedTableParses(values, k + 1);
      }
    } else {
      assert values[..k + 1] == values;
    }
  }

  /** The same text with lines that end in carriage return and line feed. */
  function CrlfFrom(values: seq<int>, k: nat): string
    requires AllWords(values) && k <= |values|
    decreases |values| - k
  {
    if k == |values| then "" else Digits(values[k], 10, 'a') + (['\r'] + ("\n" + CrlfFrom(values, k + 1)))
  }

  /** Although a carriage return is accepted, a file with such lines is not read as written: its
      last line feed is taken for one more value, zero. */
  lemma {:induction false} CrlfAddsAZero(values: seq<int>, k: nat, feed: string)
    requires AllWords(values) && k <= |values| && k <= CAPACITY
    requires if k == 0 then feed == "" && values != [] else feed == "\n"
    ensures Parse(feed + CrlfFrom(values, k), values[..k])
            == if 11 <= |values| + 1 <= 512 then Some(values + [0]) else None
    decreases |values| - k
  {
    hide ReadLine, Digits;
    if k == |values| {
      assert feed + CrlfFrom(values, k) == "\n" && values[..k] == values;
      LoneLineFeed(values);
    } else {
      var tail := "\n" + CrlfFrom(values, k + 1);
      CrlfStep(feed, values[k], tail, values[..k]);
      assert values[..k] + [values[k]] == values[..k + 1];
      if k < CAPACITY {
        CrlfAddsAZero(values, k + 1, "\n");
      }
    }
  }

  lemma CrlfStep(feed: string, v: nat, tail: string, done: seq<int>)
    requires v < U32 && feed in {"", "\n"}
    ensures ReadLine(feed + (Digits(v, 10, 'a') + (['\r'] + tail)), done) == LineOutcome(v, tail, done)
  {
    hide Strtoul, Digits, Word, AllDigits;
    LineReads(v, '\r', tail);
    var t := Digits(v, 10, 'a') + (['\r'] + tail);
    AfterLineFeed(t);
    var n := |feed| + |Digits(v, 10, 'a')|;
    var s := feed + t;
    assert feed == "" ==> s == t;
    assert s[n] == '\r' && s[n + 1..] == tail;
  }

  lemma AfterLineFeed(t: string)
    requires 0 < Strtoul(t).length
    ensures Strtoul("\n" + t) == Parsed(Strtoul(t).value, 1 + Strtoul(t).length)
  {
    hide Natural, BaseOf;
    var s := "\n" + t;
    assert s[1..] == t;
    assert Spaces(s) == 1 + Spaces(t);
    assert s[Spaces(s)..] == t[Spaces(t)..];
  }

  lemma LoneLineFeed(done: seq<int>)
    ensures ReadLine("\n", done) == LineOutcome(0, "", done)
  {
    hide Strtoul, Word;
    NoNumber();
  }

  lemma NoNumber()
    ensures Strtoul("\n") == Parsed(0, 0)
  {
    var s := "\n";
    assert s[1..] == "" && Spaces("") == 0;
    assert Spaces(s) == 1;
    hide Spaces;
    assert s[Spaces(s)..] == "" && ""[0..] == "" && Run("", 10) == 0;
  }

  /** The words of a table. */
  function Stored(values: seq<int>): seq<int> {
    [|values|, CheckSum(|values|, values, 1)] + values
  }

  /** The rows of a table that may be used, none if it is too short, too long or damaged. */
  function RowCount(words: seq<int>): (n: nat)
    requires |words| == 2 + CAPACITY
    ensures n < CAPACITY
  {
    if words[0] < MIN_USED || CAPACITY <= words[0] then 0
    else if words[1] != CheckSum(words[0], words[2..2 + words[0]], 1) then 0
    else words[0]
  }

  /** A stored table is used exactly when it has 10 to 511 values; the longest table that can be
      uploaded is never used. */
  lemma StoredIsUsable(values: seq<int>, words: seq<int>)
    requires |values| <= CAPACITY
    requires |words| == 2 + CAPACITY && Stored(values) <= words
    ensures RowCount(words) == if 10 <= |values| < 512 then |values| else 0
    ensures 10 <= |values| < 512 ==> words[2..2 + RowCount(words)] == values
  {
    hide CheckSum;
    assert words[0] == |values| && words[2..2 + |values|] == values;
  }

  lemma RowCountOf(words: seq<int>)
    requires |words| == 2 + CAPACITY
    ensures 0 < RowCount(words) ==> RowCount(words) == words[0]
    ensures MIN_USED <= words[0] < CAPACITY ==>
              RowCount(words) == if words[1] == CheckSum(words[0], words[2..2 + words[0]], 1) then words[0] else 0
    ensures 0 < RowCount(words) ==> MIN_USED <= words[0] < CAPACITY
  {
    hide CheckSum;
  }

  /** A refused upload has overwritten the first values of the table in use, under the old row count
      and checksum: the table can still be used if and only if the values that came and those that
      went have the same plain sum modulo 2^32. */
  lemma RefusedKeepsTableIff(words: seq<int>, read: seq<int>)
    requires |words| == 2 + CAPACITY && |read| <= CAPACITY && 0 < RowCount(words)
    ensures var n := RowCount(words);
            var k := Min(|read|, n);
            RowCount(words[..2] + Overwritten(words[2..], read))
            == if (PlainSum(read, k) - PlainSum(words[2..], k)) % U32 == 0 then n else 0
  {
    hide *;
    var n := RowCount(words);
    var k := Min(|read|, n);
    MinIsLess(|read|, n);
    RowCountOf(words);
    RowCountOf(words[..2] + Overwritten(words[2..], read));
    OverwrittenWords(words, read, n);
    OverwritingShowsIff(n, words[2..2 + n], 1, read[..k]);
    PlainSumOfPrefix(read, k, k);
    PlainSumOfPrefix(words[2..], n, k);
  }

  /** What a frequency synthesizer is given for a value: register 0 is read back and calibrates. */
  function Adjusted(v: int): int
    requires 0 <= v
  {
    if v / 0x1_0000 % 0x100 == 0 then v - v / 4 % 4 * 4 + 8 else v
  }

  /** Only bits 2 and 3 differ, and only in register 0: they become 0 and 1. */
  lemma AdjustedChangesTwoBits(v: int)
    requires 0 <= v < U32
    ensures Adjusted(v) / 16 == v / 16 && Adjusted(v) % 4 == v % 4
    ensures v / 0x1_0000 % 0x100 == 0 ==> Adjusted(v) / 4 % 4 == 2
    ensures v / 0x1_0000 % 0x100 != 0 ==> Adjusted(v) == v
  {
    var a, b, c := v / 16, v / 4 % 4, v % 4;
    assert v == 16 * a + 4 * b + c;
    Parts(a, 2, c);
  }

  lemma Parts(a: nat, b: nat, c: nat)
    requires b < 4 && c < 4
    ensures var v := 16 * a + 4 * b + c;
            v / 16 == a && v / 4 % 4 == b && v % 4 == c
  {
    var q := 4 * a + b;
    QuotientIsUnique(4 * q + c, 4, q, c);
    QuotientIsUnique(q, 4, a, b);
  }

  /** A word with one bit set, given the bit's weight. */
  function WithBit(v: int, weight: int): int
    requires 0 < weight
  {
    if v / weight % 2 == 1 then v else v + weight
  }

  /** The writes that start a frequency synthesizer whose register 0 reads back as `v0`. */
  function StartWrites(v0: int): seq<int> {
    [WithBit(v0, 8), WithBit(v0, 4)]
  }

  /** First bit 3 is set, which calibrates, and then bit 2 instead, which selects lock detection; all
      other bits are as they read back. */
  lemma StartCalibratesFirst(v0: int)
    requires 0 <= v0 < U32
    ensures var w := StartWrites(v0);
            && |w| == 2
            && w[0] / 16 == v0 / 16 && w[0] / 8 % 2 == 1 && w[0] % 8 == v0 % 8
            && w[1] / 8 == v0 / 8 && w[1] / 4 % 2 == 1 && w[1] % 4 == v0 % 4
  {
    var a, b, c, d := Nibbles(v0);
    LowBits(a, b, c, d);
    LowBits(a, 1, c, d);
    LowBits(a, b, 1, d);
    assert WithBit(v0, 8) == 16 * a + 8 + 4 * c + d;
    assert WithBit(v0, 4) == 16 * a + 8 * b + 4 + d;
  }

  lemma LowBits(a: nat, b: nat, c: nat, d: nat)
    requires b < 2 && c < 2 && d < 4
    ensures var v := 16 * a + 8 * b + 4 * c + d;
            && v / 16 == a && v / 8 == 2 * a + b && v / 8 % 2 == b && v / 4 % 2 == c
            && v % 8 == 4 * c + d && v % 4 == d
  {
    var u := 2 * a + b;
    Divided(4, 2 * u + c, d);
    Divided(2, u, c);
    Divided(8, u, 4 * c + d);
    Divided(2, a, b);
    Divided(16, a, 8 * b + 4 * c + d);
  }

  lemma Divided(n: nat, q: nat, r: nat)
    requires n in {2, 4, 8, 16} && r < n
    ensures (n * q + r) / n == q && (n * q + r) % n == r
  {
    QuotientIsUnique(n * q + r, n, q, r);
    assert n * ((n * q + r) / n) == n * q;
  }

  lemma Nibbles(v: nat) returns (a: nat, b: nat, c: nat, d: nat)
    ensures b < 2 && c < 2 && d < 4 && v == 16 * a + 8 * b + 4 * c + d
  {
    var q := v / 4;
    var u := q / 2;
    a, b, c, d := u / 2, u % 2, q % 2, v % 4;
  }

  function AllAdjusted(values: seq<int>): seq<int>
    requires AllWords(values)
  {
    seq(|values|, i requires 0 <= i < |values| => Adjusted(values[i]))
  }

  class ClockChip {
    const table: array<int>
    /** Frequency synthesizers are reset first and have their register 0 adjusted. */
    const synthesizer: bool
    /** Every register write so far. */
    var written: seq<int>

    ghost predicate Valid()
      reads table
    {
      table.Length == 2 + CAPACITY && forall i :: 0 <= i < table.Length ==> 0 <= table[i] < U32
    }

    constructor (synthesizer: bool)
      ensures Valid() && written == [] && this.synthesizer == synthesizer && fresh(table)
    {
      this.synthesizer := synthesizer;
      table := new int[2 + CAPACITY](i => 0);
      written := [];
    }

    /** Takes an uploaded file. It is accepted as a whole, with row count and checksum; or refused,
        but the values before the mistake have then been stored under the old row count and checksum. */
    method SetTable(text: string) returns (stored: Option<seq<int>>)
      requires Valid()
      modifies table
      ensures Valid()
      ensures match Parse(text, [])
              case Some(values) =>
                |values| <= CAPACITY && stored == Some(Stored(values)) && table[..2 + |values|] == Stored(values)
              case None => stored == None && table[..2] == old(table[..2])
      ensures table[2..] == Overwritten(old(table[2..]), Taken(text, []))
    {
      hide ReadLine, Strtoul, CheckSum, Word, Parse, Taken, Overwritten, Stored;
      ghost var all, taken, was, done := Parse(text, []), Taken(text, []), table[2..], [];
      OverwrittenByNothing(was);
      assert text[0..] == text;
      var cp := 0;
      for r := 0 to CAPACITY
        invariant 0 <= cp <= |text| && |done| == r
        invariant Valid() && table[2..] == Overwritten(was, done) && table[..2] == old(table[..2])
        invariant Parse(text[cp..], done) == all && Taken(text[cp..], done) == taken
      {
        NumberAt(text, cp, done);
        var x := Strtoul(text[cp..]);
        var endp := cp + x.length;
        if CharAt(text, endp) != '\n' && CharAt(text, endp) != '\r' {
          return None;
        }
        OverwrittenOneMore(was, done, Word(x.value));
        ghost var before := table[2..];
        table[2 + r] := Word(x.value);
        assert table[2..] == before[r := Word(x.value)];
        done := done + [Word(x.value)];
        cp := endp + 1;
        if |text| <= cp {
          if r < 10 {
            return None;
          }
          OverwrittenBegins(was, done);
          assert table[2..][..|done|] == table[2..2 + |done|];
          Seal(r + 1, done);
          return Some(table[..2 + (r + 1)]);
        }
      }
      NothingAfterTheLastRow(text[cp..], done);
      return None;
    }

    /** Completes a table whose values are in place. */
    method Seal(rows: nat, ghost values: seq<int>)
      requires Valid() && rows == |values| <= CAPACITY && table[2..2 + |values|] == values
      modifies table
      ensures Valid() && table[..2 + |values|] == Stored(values) && table[2..] == old(table[2..])
    {
      hide CheckSum;
      SumIsAWord(rows, values);
      table[0] := rows;
      assert table[2..2 + rows * 1] == values;
      var sum := ComputeCheckSum(table, rows, 1);
      table[1] := sum;
      assert table[2..2 + |values|] == values;
    }

    method GetTable() returns (text: string)
      requires Valid() && 0 <= table[0] <= CAPACITY
      ensures AllWords(table[2..2 + table[0]]) && text == TextFrom(table[2..2 + table[0]], 0)
    {
      hide Digits, IsDigit, AllDigits;
      ghost var values := table[2..2 + table[0]];
      text := "";
      for r := 0 to table[0]
        invariant TextFrom(values, 0) == text + TextFrom(values, r)
      {
        text := text + (Digits(table[2 + r], 10, 'a') + ['\n']);
      }
    }

    method FormatValuesToTable(values: seq<int>) returns (ok: bool)
      requires Valid() && AllWords(values)
      modifies table
      ensures Valid() && (ok <==> 2 + |values| <= CAPACITY)
      ensures if ok then table[..2 + |values|] == Stored(values) else table[..] == old(table[..])
    {
      if CAPACITY < 2 + |values| {
        return false;
      }
      for i := 0 to |values|
        invariant Valid() && table[2..2 + i] == values[..i]
      {
        table[2 + i] := values[i];
      }
      assert values[..|values|] == values;
      Seal(|values|, values);
      return true;
    }

    /** Writes the table to the chip, nothing if it may not be used. A synthesizer is reset first,
        has register 0 adjusted, and is started afterwards from what register 0, `v0`, reads back;
        between reset and start there are exactly the table's values, in order. */
    method Write(v0: int) returns (ok: bool)
      requires Valid() && 0 <= v0 < U32
      modifies `written
      ensures ok <==> 0 < RowCount(table[..])
      ensures var values := table[2..2 + RowCount(table[..])];
              AllWords(values) &&
              written == old(written)
                + if !ok then []
                  else if synthesizer then [0x2412, 0x2410] + AllAdjusted(values) + StartWrites(v0)
                  else values
    {
      hide RowCount, StartWrites;
      var rowCount := TableGetRowCount();
      if rowCount <= 0 {
        return false;
      }
      if synthesizer {
        Init2594(rowCount);
        Start2594(v0);
      } else {
        InitLmk04xx(rowCount);
      }
      return true;
    }

    method InitLmk04xx(n: nat)
      requires Valid() && n <= CAPACITY
      modifies `written
      ensures written == old(written) + table[2..2 + n]
    {
      for i := 0 to n
        invariant written == old(written) + table[2..2 + i]
      {
        written := written + [table[2 + i]];
      }
    }

    method Init2594(n: nat)
      requires Valid() && n <= CAPACITY
      modifies `written
      ensures AllWords(table[2..2 + n])
      ensures written == old(written) + ([0x2412, 0x2410] + AllAdjusted(table[2..2 + n]))
    {
      hide Adjusted;
      written := written + [0x2412];
      written := written + [0x2410];
      for i := 0 to n
        invariant written == old(written) + ([0x2412, 0x2410] + AllAdjusted(table[2..2 + i]))
      {
        written := written + [Adjusted(table[2 + i])];
      }
    }

    method Start2594(v0: int)
      requires 0 <= v0 < U32
      modifies `written
      ensures written == old(written) + StartWrites(v0)
    {
      written := written + [WithBit(v0, 8)];
      written := written + [WithBit(v0, 4)];
    }

    method TableGetRowCount() returns (rows: nat)
      requires Valid()
      ensures rows == RowCount(table[..])
    {
      hide CheckSum;
      var rowCount := table[0];
      if rowCount < 10 || CAPACITY <= rowCount {
        return 0;
      }
      var sum := ComputeCheckSum(table, rowCount, 1);
      assert table[..][2..2 + rowCount] == table[2..2 + rowCount * 1];
      if table[1] != sum {
        return 0;
      }
      return rowCount;
    }
  }

  lemma SumIsAWord(rows: int, values: seq<int>)
    ensures 0 <= CheckSum(rows, values, 1) < U32
  {
  }

  lemma NothingAfterTheLastRow(s: string, done: seq<int>)
    requires |done| == CAPACITY
    ensures Parse(s, done) == None && Taken(s, done) == done
  {
    hide Strtoul, Word;
  }

  /** One line of the text. */
  lemma NumberAt(text: string, cp: nat, done: seq<int>)
    requires cp <= |text|
    ensures var x := Strtoul(text[cp..]);
            var end := cp + x.length;
            var more := done + [Word(x.value)];
            var bad := CharAt(text, end) != '\n' && CharAt(text, end) != '\r';
            && Parse(text[cp..], done)
               == (if CAPACITY <= |done| || bad then None
                   else if end + 1 < |text| then Parse(text[end + 1..], more)
                   else if |done| < 10 then None
                   else Some(more))
            && Taken(text[cp..], done)
               == (if CAPACITY <= |done| || bad then done
                   else if end + 1 < |text| then Taken(text[end + 1..], more)
                   else more)
  {
    hide Strtoul, Word, CharAt;
    SuffixAt(text, cp, Strtoul(text[cp..]).length);
  }
}
