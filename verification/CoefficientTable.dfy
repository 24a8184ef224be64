/**
 The stored oscillator and pilot-tone tables (software/src/localOscillator.c, ptGen.c): row
 count, checksum and entries in one array, filled from text, printed, and written to memory.
 */
module CoefficientTable {
  import opened Common
  import opened NumberText
  import opened CNumbers
  import opened Coefficients
  import opened CoefficientText
  import opened TableSum

  /** The number of the first entry of a row. */
  function RowStart(f: Format, r: nat): nat {
    r * f.cols
  }

  /** The words of a table that was accepted. */
  function Stored(f: Format, entries: seq<int>): seq<int>
    requires f.Valid()
  {
    var rows := |entries| / f.cols;
    [rows, CheckSum(rows, entries, f.cols)] + entries
  }

  /** The test before a table is used. */
  predicate GateOpens(f: Format, words: seq<int>)
    requires f.Valid() && |words| == 2 + MaxEntries(f)
  {
    && MIN_ROWS <= words[0] < f.capacity
    && (SmallerRows(f, words[0]);
        words[1] == CheckSum(words[0], words[2..2 + RowStart(f, words[0])], f.cols))
  }

  /** The entries of a usable table. */
  function Entries(f: Format, words: seq<int>): seq<int>
    requires f.Valid() && |words| == 2 + MaxEntries(f) && GateOpens(f, words)
  {
    SmallerRows(f, words[0]);
    words[2..2 + RowStart(f, words[0])]
  }

  lemma SmallerRows(f: Format, rows: int)
    requires f.Valid() && 0 <= rows < f.capacity
    ensures RowStart(f, rows) <= MaxEntries(f)
  {
    AsLong(f, rows);
  }

  /** The value field of a memory word, in two's complement. */
  function Field(f: Format, v: int): nat
    requires f.Valid()
  {
    v % f.fieldSize
  }

  function Decoded(f: Format, field: nat): int
    requires f.Valid()
  {
    if f.fieldSize / 2 <= field then field - f.fieldSize else field
  }

  /** The memory word of entry `k`: its bank, and its address of row and sine flag. */
  function Cell(f: Format, k: nat): (nat, nat)
    requires f.Valid()
  {
    (f.banks[k % f.cols], 2 * (k / f.cols) + k % f.cols % 2)
  }

  /** Cosine and sine of row `r` are neighbours; those of the two pilot tones are in banks 1 and 2. */
  lemma CellsOfRow(f: Format, r: nat, c: nat)
    requires f.Valid() && c < f.cols
    ensures f == RF || f == GENERATOR ==> Cell(f, RowStart(f, r) + c) == (0, 2 * r + c)
    ensures f == PT ==> Cell(f, RowStart(f, r) + c) == (if c < 2 then 1 else 2, 2 * r + c % 2)
  {
    CellAt(f, r, c);
    hide Cell;
  }

  /** Every entry has a word of its own. */
  lemma CellsAreDistinct(f: Format, i: nat, j: nat)
    requires f.Valid() && i != j
    ensures Cell(f, i) != Cell(f, j)
  {
    if Cell(f, i) == Cell(f, j) {
      assert i / f.cols == j / f.cols && i % f.cols % 2 == j % f.cols % 2;
      assert i % f.cols == j % f.cols;
      Divided(i, f.cols);
      Divided(j, f.cols);
    }
  }

  lemma Divided(k: nat, cols: nat)
    requires 0 < cols
    ensures k == k / cols * cols + k % cols
  {
  }

  /** A value is recovered from its field exactly when it fits, as every entry within -1 and 1
      does. */
  lemma FieldRoundTrip(f: Format, v: int)
    requires f.Valid()
    ensures Decoded(f, Field(f, v)) == v <==> -(f.scale as int) - 1 <= v <= f.scale
  {
    var m := f.fieldSize;
    if 0 <= v < m {
      QuotientIsUnique(v, m, 0, v);
    } else if -(m as int) <= v < 0 {
      NegativeField(v, m);
    }
  }

  lemma NegativeField(v: int, m: nat)
    requires -(m as int) <= v < 0
    ensures v % m == v + m
  {
    var q := v / m;
    assert v == q * m + v % m;
  }

  class Table {
    const f: Format
    /** Row count, checksum, and the entries. */
    const table: array<int>
    /** The memory in the gate array: bank and address to value field. */
    var ram: Ram

    ghost predicate Valid() {
      f.Valid() && table.Length == 2 + MaxEntries(f)
    }

    constructor (f: Format)
      requires f.Valid()
      ensures Valid() && this.f == f && fresh(table)
    {
      this.f := f;
      table := new int[2 + MaxEntries(f)](i => 0);
      ram := map[];
    }

    /** Takes an uploaded file. Either the whole of it is accepted, stored with its row count and
        checksum, and returned as it is kept; or it is refused, but the entries before the mistake
        have then been stored under the old row count and checksum. */
    method SetTable(text: string) returns (stored: Option<seq<int>>)
      requires Valid()
      modifies table
      ensures match Parse(f, text, [])
              case Some(entries) =>
                |entries| <= MaxEntries(f) && stored == Some(Stored(f, entries))
                && table[..2 + |entries|] == Stored(f, entries)
              case None => stored == None && table[..2] == old(table[..2])
      ensures table[2..] == Overwritten(old(table[2..]), Taken(f, text, []))
    {
      hide Parse, Taken, Strtod, Scale, Stored, Format.Valid, Overwritten;
      ghost var all, taken, was, done := Parse(f, text, []), Taken(f, text, []), table[2..], [];
      OverwrittenByNothing(was);
      assert text[0..] == text;
      var cp, ip := 0, 2;
      for r := 0 to f.capacity
        invariant 0 <= cp <= |text| && ip == 2 + |done| && |done| == r * f.cols <= MaxEntries(f)
        invariant table[2..] == Overwritten(was, done) && table[..2] == old(table[..2])
        invariant Parse(f, text[cp..], done) == all && Taken(f, text[cp..], done) == taken
      {
        RowOfTable(f, r);
        ghost var k := r * f.cols;
        for c := 0 to f.cols
          invariant 0 <= cp <= |text| && ip == 2 + |done| && |done| == k + c <= k + f.cols <= MaxEntries(f)
          invariant table[2..] == Overwritten(was, done) && table[..2] == old(table[..2])
          invariant Parse(f, text[cp..], done) == all && Taken(f, text[cp..], done) == taken
        {
          NumberAt(f, text, cp, r, c, done);
          var x := Strtod(text[cp..]);
          var endp := cp + x.length;
          if c == f.cols - 1 && CharAt(text, endp) != '\n' && CharAt(text, endp) != '\r' {
            return None;
          }
          if x.value < -1.0 {
            return None;
          }
          OverwrittenOneMore(was, done, Scale(x.value, f.scale));
          ghost var before := table[2..];
          table[ip] := Scale(x.value, f.scale);
          assert table[2..] == before[|done| := Scale(x.value, f.scale)];
          ip := ip + 1;
          done := done + [Scale(x.value, f.scale)];
          cp := endp + 1;
          if |text| <= cp {
            if r < 28 || c != f.cols - 1 {
              return None;
            }
            OverwrittenBegins(was, done);
            assert table[2..][..|done|] == table[2..2 + |done|];
            Seal(r + 1, done);
            return Some(table[..ip]);
          }
        }
      }
      NothingAfterTheLastRow(f, text[cp..], done);
      return None;
    }

    /** How many entries the row count claims, as far as the array goes. */
    ghost function Claimed(): nat
      requires Valid()
      reads table
    {
      if table[0] <= 0 then 0 else Min(RowStart(f, table[0]), MaxEntries(f))
    }

    /** Appends one number to the text, unless the array has ended or the buffer is full. */
    method Append(text: string, capacity: nat, tp: nat, sep: char, ghost all: seq<int>)
      returns (longer: Option<string>)
      requires Valid() && all == table[2..]
      requires 2 <= tp <= table.Length && Shows(f, all, tp - 2, text, capacity)
      requires sep == Separator(f, tp - 2)
      ensures longer == None ==> Full(f, all, tp - 2, capacity)
      ensures longer != None ==> tp < table.Length && Shows(f, all, tp - 1, longer.value, capacity)
    {
      if table.Length < tp + 1 {
        return None;
      }
      var number := Printed(table[tp], f.scale) + [sep];
      ShowsMore(f, all, tp - 2, text, capacity);
      if capacity <= |text| + |number| {
        return None;
      }
      return Some(text + number);
    }

    /** Prints the table into a buffer of `capacity` bytes: number by number, up to the first that
        does not fit with its terminating NUL. */
    method GetTable(capacity: nat) returns (text: string)
      requires Valid()
      ensures IsPrintout(f, table[2..], Claimed(), capacity, text)
    {
      var rowCount := table[0];
      if rowCount <= 0 {
        assert Shows(f, table[2..], 0, "", capacity);
        return "";
      }
      text := PrintRows(rowCount, capacity);
    }

    method PrintRows(rowCount: nat, capacity: nat) returns (text: string)
      requires Valid()
      ensures IsPrintout(f, table[2..], Min(RowStart(f, rowCount), |table[2..]|), capacity, text)
    {
      var tp := 2;
      text := "";
      ghost var all := table[2..];
      assert Shows(f, all, 0, text, capacity);
      assert f.Valid() && RowStart(f, 0) == 0;
      hide Shows, Full, RowStart, MaxEntries, Format.Valid, Valid, Separator;
      for r := 0 to rowCount
        invariant RowStart(f, r) == tp - 2 <= |all| && Shows(f, all, tp - 2, text, capacity)
      {
        NextRow(f, r, rowCount);
        ghost var k := RowStart(f, r);
        for c := 0 to f.cols
          invariant k + c == tp - 2 <= |all| && Shows(f, all, tp - 2, text, capacity)
        {
          SeparatorAt(f, r, c);
          var longer := Append(text, capacity, tp, if c == f.cols - 1 then '\n' else ',', all);
          if longer == None {
            return;
          }
          text, tp := longer.value, tp + 1;
        }
      }
    }

    method WriteTable(bank: nat, row: nat, isSin: bool, value: int)
      requires Valid()
      modifies `ram
      ensures ram == old(ram)[(bank, 2 * row + if isSin then 1 else 0) := Field(f, value)]
    {
      var address := 2 * row + if isSin then 1 else 0;
      var csr := bank * f.bankWeight + value % f.fieldSize;
      FieldsDoNotOverlap(f, bank, value);
      // The gate array stores the value field at the address, in the bank.
      ram := ram[(csr / f.bankWeight, address) := csr % f.bankWeight];
    }

    /** Writes the table to memory if it passes the test: then every entry is in its word, and no
        other word changes. */
    method Write() returns (good: bool)
      requires Valid()
      modifies `ram
      ensures good <==> GateOpens(f, table[..])
      ensures !good ==> ram == old(ram)
      ensures good ==> Written(f, table[2..], |Entries(f, table[..])|, old(ram), ram)
    {
      var rowCount := table[0];
      if !(MIN_ROWS <= rowCount < f.capacity) {
        return false;
      }
      SmallerRows(f, rowCount);
      var sum := ComputeCheckSum(table, rowCount, f.cols);
      assert table[..][2..2 + RowStart(f, rowCount)] == table[2..2 + RowStart(f, rowCount)];
      if table[1] != sum {
        return false;
      }
      WriteRows(rowCount);
      return true;
    }

    method WriteRows(rows: nat)
      requires Valid() && RowStart(f, rows) <= MaxEntries(f)
      modifies `ram
      ensures Written(f, table[2..], RowStart(f, rows), old(ram), ram)
    {
      assert 0 < f.cols == |f.banks| && RowStart(f, 0) == 0;
      ghost var all, was := table[2..], ram;
      assert RowStart(f, rows) <= |all|;
      assert Written(f, all, 0, was, ram);
      hide *;
      var src := 2;
      for r := 0 to rows
        invariant src - 2 == RowStart(f, r) <= RowStart(f, rows)
        invariant Written(f, all, src - 2, was, ram)
      {
        NextRow(f, r, rows);
        ghost var k := RowStart(f, r);
        for c := 0 to f.cols
          invariant src - 2 == k + c <= k + f.cols
          invariant Written(f, all, src - 2, was, ram)
        {
          CellAt(f, r, c);
          OneMoreWritten(f, all, src - 2, was, ram);
          WriteTable(f.banks[c], r, c % 2 == 1, table[src]);
          src := src + 1;
        }
      }
    }

    /** Completes a table whose entries are in place. */
    method Seal(rows: nat, ghost entries: seq<int>)
      requires Valid() && |entries| == rows * f.cols <= MaxEntries(f) && table[2..2 + |entries|] == entries
      modifies table
      ensures table[..2 + |entries|] == Stored(f, entries) && table[2..] == old(table[2..])
    {
      table[0] := rows;
      assert table[2..2 + |entries|] == entries;
      var sum := ComputeCheckSum(table, rows, f.cols);
      table[1] := sum;
      assert table[2..2 + |entries|] == entries;
      WholeRows(rows, f.cols);
    }
  }

  lemma NextRow(f: Format, r: nat, rows: nat)
    requires r < rows
    ensures RowStart(f, r + 1) == RowStart(f, r) + f.cols <= RowStart(f, rows)
  {
    RowFits(r, rows, f.cols);
  }

  /** A text of the first `n` entries that leaves room for a NUL. */
  ghost predicate Shows(f: Format, all: seq<int>, n: nat, text: string, capacity: nat)
    requires f.Valid()
  {
    n <= |all| && text == TextFrom(f, all[..n], 0) && (text == "" || |text| < capacity)
  }

  /** Another number would not fit, or there is none. */
  ghost predicate Full(f: Format, all: seq<int>, n: nat, capacity: nat)
    requires f.Valid()
  {
    n < |all| ==> capacity <= |TextFrom(f, all[..n + 1], 0)|
  }

  /** As many of `claimed` entries as fit. */
  ghost predicate IsPrintout(f: Format, all: seq<int>, claimed: int, capacity: nat, text: string)
    requires f.Valid()
  {
    exists n :: 0 <= n <= claimed && Shows(f, all, n, text, capacity) && (n < claimed ==> Full(f, all, n, capacity))
  }

  lemma ShowsMore(f: Format, all: seq<int>, n: nat, text: string, capacity: nat)
    requires f.Valid() && n < |all| && Shows(f, all, n, text, capacity)
    ensures var longer := text + (Printed(all[n], f.scale) + [Separator(f, n)]);
            && |TextFrom(f, all[..n + 1], 0)| == |longer|
            && (|longer| < capacity ==> Shows(f, all, n + 1, longer, capacity))
  {
    hide TextFrom, Printed, Separator;
    TextOfMore(f, all[..n], all[n], 0);
    assert all[..n] + [all[n]] == all[..n + 1];
  }

  lemma SeparatorAt(f: Format, r: nat, c: nat)
    requires f.Valid() && c < f.cols
    ensures Separator(f, RowStart(f, r) + c) == if c == f.cols - 1 then '\n' else ','
  {
    RowAndColumn(r, c, f.cols);
  }

  lemma CellAt(f: Format, r: nat, c: nat)
    requires f.Valid() && c < f.cols
    ensures Cell(f, RowStart(f, r) + c) == (f.banks[c], 2 * r + c % 2)
  {
    RowAndColumn(r, c, f.cols);
  }

  lemma FieldsDoNotOverlap(f: Format, bank: nat, v: int)
    requires f.Valid()
    ensures var csr := bank * f.bankWeight + v % f.fieldSize;
            csr / f.bankWeight == bank && csr % f.bankWeight == v % f.fieldSize
  {
    RowAndColumn(bank, v % f.fieldSize, f.bankWeight);
  }

  type Ram = map<(nat, nat), nat>

  /** The first `n` entries are in their words, and every other word is as it was. */
  ghost predicate Written(f: Format, all: seq<int>, n: nat, was: Ram, now: Ram)
    requires f.Valid()
  {
    && n <= |all|
    && (forall k :: 0 <= k < n ==> Holds(f, k, all[k], now))
    && (forall cell | cell in now.Keys + was.Keys :: IsCellBelow(f, cell, n) || SameWord(cell, was, now))
  }

  ghost predicate Holds(f: Format, k: nat, v: int, ram: Ram)
    requires f.Valid()
  {
    Cell(f, k) in ram && ram[Cell(f, k)] == Field(f, v)
  }

  ghost predicate IsCellBelow(f: Format, cell: (nat, nat), n: nat)
    requires f.Valid()
  {
    exists k :: 0 <= k < n && Cell(f, k) == cell
  }

  ghost predicate SameWord(cell: (nat, nat), was: Ram, now: Ram) {
    cell in was && cell in now && was[cell] == now[cell]
  }

  lemma OneMoreWritten(f: Format, all: seq<int>, n: nat, was: Ram, before: Ram)
    requires f.Valid() && n < |all| && Written(f, all, n, was, before)
    ensures Written(f, all, n + 1, was, before[Cell(f, n) := Field(f, all[n])])
  {
    hide Cell, Field, Format.Valid;
    var now := before[Cell(f, n) := Field(f, all[n])];
    forall k | 0 <= k < n + 1
      ensures Holds(f, k, all[k], now)
    {
      if k < n {
        assert Holds(f, k, all[k], before);
        CellsAreDistinct(f, k, n);
      }
    }
    forall cell | cell in now.Keys + was.Keys
      ensures IsCellBelow(f, cell, n + 1) || SameWord(cell, was, now)
    {
      assert IsCellBelow(f, cell, n) ==> IsCellBelow(f, cell, n + 1);
      if cell != Cell(f, n) {
        assert cell in before.Keys + was.Keys;
      }
    }
  }

  lemma WholeRows(rows: nat, cols: nat)
    requires 0 < cols
    ensures rows * cols / cols == rows
  {
    RowAndColumn(rows, 0, cols);
  }

  lemma NothingAfterTheLastRow(f: Format, s: string, done: seq<int>)
    requires f.Valid() && |done| == f.capacity * f.cols
    ensures Parse(f, s, done) == None && Taken(f, s, done) == done
  {
    hide Strtod, Scale, RowOf, EndsRow;
    assert MaxEntries(f) == |done|;
  }

  /** One number of the text, at row `r` and column `c`. */
  lemma NumberAt(f: Format, text: string, cp: nat, r: nat, c: nat, done: seq<int>)
    requires f.Valid() && cp <= |text| && r < f.capacity && c < f.cols && |done| == r * f.cols + c
    ensures var x := Strtod(text[cp..]);
            var end := cp + x.length;
            var more := done + [Scale(x.value, f.scale)];
            var bad := (c == f.cols - 1 && CharAt(text, end) != '\n' && CharAt(text, end) != '\r') || x.value < -1.0;
            && Parse(f, text[cp..], done)
               == (if bad then None
                   else if |text| <= end + 1 then (if r < 28 || c != f.cols - 1 then None else Some(more))
                   else Parse(f, text[end + 1..], more))
            && Taken(f, text[cp..], done)
               == (if bad then done else if |text| <= end + 1 then more else Taken(f, text[end + 1..], more))
  {
    hide Strtod, Scale, RowOf, EndsRow, MaxEntries, CharAt;
    RowOfTable(f, r);
    ColumnOfTable(f, r, c);
    SuffixAt(text, cp, Strtod(text[cp..]).length);
  }

  lemma RowOfTable(f: Format, r: nat)
    requires f.Valid() && r < f.capacity
    ensures (r + 1) * f.cols == r * f.cols + f.cols <= MaxEntries(f)
  {
    RowFits(r, f.capacity, f.cols);
  }

  lemma ColumnOfTable(f: Format, r: nat, c: nat)
    requires f.Valid() && c < f.cols
    ensures RowOf(f, r * f.cols + c) == r && (EndsRow(f, r * f.cols + c) <==> c == f.cols - 1)
  {
    RowAndColumn(r, c, f.cols);
  }

  /** Downloading a table and uploading the file again restores it, unless the table is too short
      or too long or has an entry below -1. */
  lemma DownloadThenUpload(f: Format, entries: seq<int>, rows: nat)
    requires f.Valid() && 0 < rows && |entries| == rows * f.cols
    ensures Parse(f, TextFrom(f, entries, 0), [])
            == if 29 <= rows <= f.capacity && InRange(f, entries, 0) then Some(entries) else None
  {
    Positive(rows, f.cols);
    PrintedTableParses(f, entries, rows, 0);
    assert entries[..0] == [];
  }

  lemma Positive(rows: nat, cols: nat)
    requires 0 < rows && 0 < cols
    ensures 0 < rows * cols
  {
  }

  /** An accepted table passes the test before use, whatever lies behind it in the array, unless
      it fills the array: an upload of exactly as many rows as fit is accepted but never used. */
  lemma AcceptedIsUsable(f: Format, entries: seq<int>, rows: nat, words: seq<int>)
    requires f.Valid() && 29 <= rows <= f.capacity && |entries| == RowStart(f, rows)
    requires |words| == 2 + MaxEntries(f) && Stored(f, entries) <= words
    ensures GateOpens(f, words) <==> rows < f.capacity
    ensures rows < f.capacity ==> Entries(f, words) == entries
  {
    hide CheckSum;
    WholeRows(rows, f.cols);
    assert words[0] == rows;
    assert words[2..2 + RowStart(f, rows)] == entries;
  }

  /** A refused upload has overwritten the first entries of the table in use: it still passes the
      test if and only if the entries that came and those that went have the same plain sum modulo
      2^32. */
  lemma RefusedKeepsTableIff(f: Format, words: seq<int>, read: seq<int>)
    requires f.Valid() && |words| == 2 + MaxEntries(f) && |read| <= MaxEntries(f) && GateOpens(f, words)
    ensures var k := Min(|read|, |Entries(f, words)|);
            GateOpens(f, words[..2] + Overwritten(words[2..], read))
            <==> (PlainSum(read, k) - PlainSum(words[2..], k)) % U32 == 0
  {
    hide CheckSum, PlainSum, Overwritten;
    var entries := Entries(f, words);
    var k := Min(|read|, |entries|);
    SmallerRows(f, words[0]);
    OverwrittenWords(words, read, |entries|);
    OverwritingShowsIff(words[0], entries, f.cols, read[..k]);
    PlainSumOfPrefix(read, k, k);
    PlainSumOfPrefix(words[2..], |entries|, k);
  }

  /** The committed memory image decodes to the table. */
  lemma MemoryDecodes(f: Format, all: seq<int>, n: nat, was: Ram, now: Ram, k: nat)
    requires f.Valid() && Written(f, all, n, was, now) && k < n
    ensures Cell(f, k) in now
    ensures Decoded(f, now[Cell(f, k)]) == all[k] <==> -(f.scale as int) - 1 <= all[k] <= f.scale
  {
    assert Holds(f, k, all[k], now);
    FieldRoundTrip(f, all[k]);
  }
}
