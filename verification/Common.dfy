/** Shared types and arithmetic. */
module Common {
  newtype byte = x: int | 0 <= x < 0x100

  datatype Option<+T> = None | Some(value: T)

  /* Number of values of the wrapping unsigned C type. */
  const U32 := 0x1_0000_0000

  function Min(a: int, b: int): int { if a < b then a else b }

  function Abs(v: int): nat { if v < 0 then -v else v }

  lemma MinIsLess(a: int, b: int)
    ensures Min(a, b) <= a && Min(a, b) <= b && (0 <= a && 0 <= b ==> 0 <= Min(a, b))
  {
  }

  function Max(a: int, b: int): int { if a < b then b else a }

  /** What is left of `held` when new values have been stored from its beginning on. */
  function Overwritten(held: seq<int>, read: seq<int>): (r: seq<int>)
    requires |read| <= |held|
    ensures |r| == |held|
  {
    read + held[|read|..]
  }

  lemma OverwrittenOneMore(held: seq<int>, read: seq<int>, v: int)
    requires |read| < |held|
    ensures Overwritten(held, read)[|read| := v] == Overwritten(held, read + [v])
  {
  }

  lemma OverwrittenByNothing(held: seq<int>)
    ensures Overwritten(held, []) == held
  {
  }

  lemma OverwrittenBegins(held: seq<int>, read: seq<int>)
    requires |read| <= |held|
    ensures Overwritten(held, read)[..|read|] == read
  {
  }

  /** Seen behind two words that stay. */
  lemma OverwrittenWords(words: seq<int>, read: seq<int>, n: nat)
    requires 2 + n <= |words| && 2 + |read| <= |words|
    ensures var after := words[..2] + Overwritten(words[2..], read);
            && |after| == |words| && after[0] == words[0] && after[1] == words[1]
            && words[2..][..n] == words[2..2 + n]
            && after[2..2 + n] == Overwritten(words[2..2 + n], read[..Min(|read|, n)])
  {
  }

  /** The next value of an unsigned 32-bit counter. */
  function Increment32(a: nat): nat {
    if a + 1 < U32 then a + 1 else 0
  }

  /** Difference of two unsigned 32-bit values, as C computes it. */
  function Sub32(a: int, b: int): (d: nat)
    ensures d < U32
  {
    (a - b) % U32
  }

  function Pow(b: nat, e: nat): nat {
    if e == 0 then 1 else b * Pow(b, e - 1)
  }

  lemma {:induction false} PowAdd(b: nat, m: nat, n: nat)
    ensures Pow(b, m + n) == Pow(b, m) * Pow(b, n)
  {
    if m != 0 {
      PowAdd(b, m - 1, n);
      Associative(b, Pow(b, m - 1), Pow(b, n));
    }
  }

  lemma Associative(a: int, b: int, c: int)
    ensures a * (b * c) == a * b * c
  {
  }

  lemma {:induction false} PowPositive(b: nat, e: nat)
    requires 0 < b
    ensures 0 < Pow(b, e)
  {
    if e != 0 {
      PowPositive(b, e - 1);
    }
  }

  lemma QuotientIsUnique(a: nat, cap: nat, q: int, r: nat)
    requires 0 < cap && a == cap * q + r && r < cap
    ensures a % cap == r
  {
    var d := a / cap - q;
    assert cap * d == r - a % cap;
    MultipleBeyond(cap, d);
  }

  lemma MultipleBeyond(cap: nat, d: int)
    requires 0 < cap
    ensures 1 <= d ==> cap <= cap * d
    ensures d <= -1 ==> cap * d + cap <= 0
  {
  }

  lemma AddMod(a: nat, b: nat, cap: nat)
    requires 0 < cap
    ensures (a % cap + b) % cap == (a + b) % cap
  {
    var c := a % cap + b;
    assert a + b == cap * (a / cap + c / cap) + c % cap;
    QuotientIsUnique(a + b, cap, a / cap + c / cap, c % cap);
  }
}
