/**
 The checksum kept in the second word of every table (software/src/localOscillator.c, ptGen.c
 and rfclk.c), and the test a table must pass before it is used.
 */
module TableSum {
  import opened Common

  const SEED := 0xF00D8421

  /** The part of the sum that the first `k` entries contribute. */
  function EntrySum(entries: seq<int>, cols: nat, k: nat): int
    requires 0 < cols && k <= |entries|
  {
    if k == 0 then 0 else EntrySum(entries, cols, k - 1) + entries[k - 1] + (k - 1) / cols + (k - 1) % cols
  }

  function SumSoFar(rows: int, entries: seq<int>, cols: nat, k: nat): nat
    requires 0 < cols && k <= |entries|
  {
    (SEED + rows + EntrySum(entries, cols, k)) % U32
  }

  /** The bits of the checksum of a table whose first word is `rows`. */
  function CheckSum(rows: int, entries: seq<int>, cols: nat): nat
    requires 0 < cols
  {
    SumSoFar(rows, entries, cols, |entries|)
  }

  /** `words` points at the whole table; the checksum word itself is passed over. */
  method ComputeCheckSum(words: array<int>, rows: nat, cols: nat) returns (sum: nat)
    requires 0 < cols && 2 + rows * cols <= words.Length
    ensures sum == CheckSum(words[0], words[2..2 + rows * cols], cols)
  {
    ghost var entries, first := words[2..2 + rows * cols], words[0];
    sum := (SEED + words[0]) % U32;
    assert sum == SumSoFar(first, entries, cols, 0);
    hide SumSoFar;
    var ip := 2;
    for r := 0 to rows
      invariant ip == 2 + r * cols <= words.Length && r * cols <= |entries|
      invariant sum == SumSoFar(first, entries, cols, r * cols)
    {
      ghost var k := r * cols;
      RowFits(r, rows, cols);
      for c := 0 to cols
        invariant ip == 2 + k + c && k + c <= k + cols <= |entries|
        invariant sum == SumSoFar(first, entries, cols, k + c)
      {
        RowAndColumn(r, c, cols);
        NextSum(first, entries, cols, k + c);
        sum := (sum + words[ip] + r + c) % U32;
        ip := ip + 1;
      }
    }
  }

  lemma RowFits(r: nat, rows: nat, cols: nat)
    requires r < rows
    ensures (r + 1) * cols == r * cols + cols <= rows * cols
  {
    assert rows * cols == (r + 1) * cols + (rows - r - 1) * cols;
  }

  lemma RowAndColumn(r: nat, c: nat, cols: nat)
    requires c < cols
    ensures (r * cols + c) / cols == r && (r * cols + c) % cols == c
  {
    QuotientIsUnique(r * cols + c, cols, r, c);
    assert cols * ((r * cols + c) / cols - r) == 0;
  }

  lemma NextSum(rows: int, entries: seq<int>, cols: nat, k: nat)
    requires 0 < cols && k < |entries|
    ensures SumSoFar(rows, entries, cols, k + 1)
            == (SumSoFar(rows, entries, cols, k) + entries[k] + k / cols + k % cols) % U32
  {
    Reduced(SEED + rows + EntrySum(entries, cols, k), entries[k] + k / cols + k % cols);
  }

  lemma Reduced(a: int, b: int)
    ensures (a % U32 + b) % U32 == (a + b) % U32
  {
  }

  /** The sum of all positions, row and column counted from zero, in closed form. */
  lemma {:induction false} CheckSumInClosedForm(rows: nat, entries: seq<int>, cols: nat)
    requires 0 < cols && |entries| == rows * cols
    ensures 2 * EntrySum(entries, cols, rows * cols)
            == 2 * PlainSum(entries, rows * cols) + rows * cols * (rows + cols - 2)
    ensures CheckSum(rows, entries, cols) == (0xF00D8421 + rows + EntrySum(entries, cols, rows * cols)) % U32
  {
    RowsSum(entries, cols, rows);
  }

  lemma {:induction false} RowsSum(entries: seq<int>, cols: nat, rows: nat)
    requires 0 < cols && rows * cols <= |entries|
    ensures 2 * EntrySum(entries, cols, rows * cols)
            == 2 * PlainSum(entries, rows * cols) + rows * cols * (rows + cols - 2)
  {
    hide EntrySum, PlainSum, Positions;
    if rows == 0 {
      NoSums(entries, cols);
    } else {
      RowFits(rows - 1, rows, cols);
      PositionsInClosedForm(rows - 1, cols);
      RowsSum(entries, cols, rows - 1);
      OneRowSum(entries, cols, rows - 1, (rows - 1) * cols, cols);
      Polynomial(rows, cols);
    }
  }

  lemma NoSums(entries: seq<int>, cols: nat)
    requires 0 < cols
    ensures EntrySum(entries, cols, 0) == 0 == PlainSum(entries, 0)
  {
  }

  lemma Polynomial(rows: int, cols: int)
    ensures (rows - 1) * cols * (rows - 1 + cols - 2) + 2 * cols * (rows - 1) + cols * (cols - 1)
            == rows * cols * (rows + cols - 2)
  {
    var a := (rows - 1) * cols;
    assert rows * cols == a + cols;
    assert rows * cols * (rows + cols - 2) == (a + cols) * (rows + cols - 2);
    assert (a + cols) * (rows + cols - 2) == a * (rows + cols - 3) + a + cols * (rows + cols - 2);
    assert cols * (rows + cols - 2) == cols * (rows - 1) + cols * (cols - 1);
  }

  /** Row `r`, which begins at entry `p`, up to column `c`. */
  lemma {:induction false} OneRowSum(entries: seq<int>, cols: nat, r: nat, p: nat, c: nat)
    requires 0 < cols && p == r * cols && c <= cols && p + c <= |entries|
    ensures EntrySum(entries, cols, p + c) - EntrySum(entries, cols, p)
            == PlainSum(entries, p + c) - PlainSum(entries, p) + Positions(r, c)
  {
    if c != 0 {
      OneRowSum(entries, cols, r, p, c - 1);
      OneMoreEntry(entries, cols, p + c - 1);
      RowAndColumn(r, c - 1, cols);
      hide EntrySum, PlainSum;
    }
  }

  lemma OneMoreEntry(entries: seq<int>, cols: nat, k: nat)
    requires 0 < cols && k < |entries|
    ensures EntrySum(entries, cols, k + 1) == EntrySum(entries, cols, k) + entries[k] + k / cols + k % cols
    ensures PlainSum(entries, k + 1) == PlainSum(entries, k) + entries[k]
  {
  }

  /** Row number and column, for the columns before `c`. */
  function Positions(r: nat, c: nat): nat {
    if c == 0 then 0 else Positions(r, c - 1) + r + c - 1
  }

  lemma {:induction false} PositionsInClosedForm(r: nat, c: nat)
    ensures 2 * Positions(r, c) == 2 * c * r + c * (c - 1)
  {
    if c != 0 {
      PositionsInClosedForm(r, c - 1);
      assert c * (c - 1) == (c - 1) * (c - 2) + 2 * (c - 1) && 2 * c * r == 2 * (c - 1) * r + 2 * r;
    }
  }

  /** The sum of the first `k` entries alone. */
  function PlainSum(entries: seq<int>, k: nat): int
    requires k <= |entries|
  {
    if k == 0 then 0 else PlainSum(entries, k - 1) + entries[k - 1]
  }

  /** Tables of the same shape differ in their sums only by the plain sums of their entries. */
  lemma {:induction false} PositionsCancel(a: seq<int>, b: seq<int>, cols: nat, k: nat)
    requires 0 < cols && k <= |a| && k <= |b|
    ensures EntrySum(a, cols, k) - EntrySum(b, cols, k) == PlainSum(a, k) - PlainSum(b, k)
  {
    if k != 0 {
      PositionsCancel(a, b, cols, k - 1);
    }
  }

  /** The checksums of two tables of the same shape agree if and only if the plain sums of their
      entries agree modulo 2^32: that each term depends on its position makes no difference. */
  lemma CheckSumsAgreeIff(rows: int, a: seq<int>, b: seq<int>, cols: nat)
    requires 0 < cols && |a| == |b|
    ensures CheckSum(rows, a, cols) == CheckSum(rows, b, cols)
            <==> (PlainSum(a, |a|) - PlainSum(b, |b|)) % U32 == 0
  {
    PositionsCancel(a, b, cols, |a|);
    var sum := SEED + rows + EntrySum(b, cols, |b|);
    SameRemainder(sum, PlainSum(a, |a|) - PlainSum(b, |b|));
  }

  lemma SameRemainder(a: int, d: int)
    ensures (a + d) % U32 == a % U32 <==> d % U32 == 0
  {
  }

  /** So a table of which the first entries have been overwritten keeps its checksum if and only if
      the entries that came and those that went have the same plain sum modulo 2^32. */
  lemma OverwritingShowsIff(rows: int, entries: seq<int>, cols: nat, read: seq<int>)
    requires 0 < cols && |read| <= |entries|
    ensures CheckSum(rows, Overwritten(entries, read), cols) == CheckSum(rows, entries, cols)
            <==> (PlainSum(read, |read|) - PlainSum(entries, |read|)) % U32 == 0
  {
    hide *;
    PlainSumOfOverwritten(entries, read, |entries|);
    ShorterIsMin(|read|, |entries|);
    CheckSumsAgreeIff(rows, Overwritten(entries, read), entries, cols);
  }

  lemma ShorterIsMin(m: nat, n: nat)
    requires m <= n
    ensures Min(n, m) == m
  {
  }

  lemma {:induction false} PlainSumOfPrefix(entries: seq<int>, n: nat, k: nat)
    requires k <= n <= |entries|
    ensures PlainSum(entries[..n], k) == PlainSum(entries, k)
  {
    if k != 0 {
      PlainSumOfPrefix(entries, n, k - 1);
    }
  }

  lemma {:induction false} PlainSumOfOverwritten(entries: seq<int>, read: seq<int>, k: nat)
    requires |read| <= |entries| && k <= |entries|
    ensures PlainSum(Overwritten(entries, read), k) - PlainSum(entries, k)
            == PlainSum(read, Min(k, |read|)) - PlainSum(entries, Min(k, |read|))
  {
    if k != 0 {
      PlainSumOfOverwritten(entries, read, k - 1);
    }
  }

  lemma {:induction false} PlainSumOfUpdate(entries: seq<int>, i: nat, v: int, k: nat)
    requires i < |entries| && k <= |entries|
    ensures PlainSum(entries[i := v], k) == PlainSum(entries, k) + if i < k then v - entries[i] else 0
  {
    if k != 0 {
      PlainSumOfUpdate(entries, i, v, k - 1);
    }
  }

  /** So a change of one entry always shows, */
  lemma OneChangeShows(rows: int, entries: seq<int>, cols: nat, i: nat, v: int)
    requires 0 < cols && i < |entries|
    ensures CheckSum(rows, entries[i := v], cols) == CheckSum(rows, entries, cols) <==> (v - entries[i]) % U32 == 0
  {
    PlainSumOfUpdate(entries, i, v, |entries|);
    CheckSumsAgreeIff(rows, entries[i := v], entries, cols);
  }

  /** and an exchange of entries never does. */
  lemma ExchangeNeverShows(rows: int, entries: seq<int>, cols: nat, i: nat, j: nat)
    requires 0 < cols && i < |entries| && j < |entries|
    ensures CheckSum(rows, entries[i := entries[j]][j := entries[i]], cols) == CheckSum(rows, entries, cols)
  {
    PlainSumOfUpdate(entries, i, entries[j], |entries|);
    PlainSumOfUpdate(entries[i := entries[j]], j, entries[i], |entries|);
    CheckSumsAgreeIff(rows, entries[i := entries[j]][j := entries[i]], entries, cols);
  }
}
