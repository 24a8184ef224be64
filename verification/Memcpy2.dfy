/**
 The firmware's memory copy (software/src/memcpy2.c). Addresses are indices into one byte
 memory, so source and destination may overlap in any way. A word is an int of four bytes;
 masking an address with `wmask` is taking its remainder.
 */
module Memcpy2 {
  import opened Common

  datatype Word = Word(b0: byte, b1: byte, b2: byte, b3: byte)

  /** The region from `lo` to `hi` holds the old bytes `shift` further on; nothing else changed. */
  twostate predicate Moved(mem: array<byte>, lo: int, hi: int, shift: int)
    requires 0 <= lo <= hi <= mem.Length && 0 <= lo + shift && hi + shift <= mem.Length
    reads mem
  {
    && (forall i {:trigger mem[i]} :: lo <= i < hi ==> mem[i] == old(mem[i + shift]))
    && (forall i {:trigger mem[i]} :: 0 <= i < lo || hi <= i < mem.Length ==> mem[i] == old(mem[i]))
  }

  /** Reading or writing a word needs an aligned address: the precondition makes the verifier
      check it wherever a word is accessed. */
  method LoadWord(mem: array<byte>, address: nat) returns (word: Word)
    requires address % 4 == 0 && address + 4 <= mem.Length
    ensures word == Word(mem[address], mem[address + 1], mem[address + 2], mem[address + 3])
  {
    word := Word(mem[address], mem[address + 1], mem[address + 2], mem[address + 3]);
  }

  method StoreWord(mem: array<byte>, address: nat, word: Word)
    requires address % 4 == 0 && address + 4 <= mem.Length
    modifies mem
    ensures Word(mem[address], mem[address + 1], mem[address + 2], mem[address + 3]) == word
    ensures forall i {:trigger mem[i]} :: 0 <= i < mem.Length && !(address <= i < address + 4) ==> mem[i] == old(mem[i])
  {
    mem[address], mem[address + 1], mem[address + 2], mem[address + 3] := word.b0, word.b1, word.b2, word.b3;
  }

  /** Words are copied only when both addresses have the same remainder, and overlapping
      regions are then a whole word or more apart: no word overlaps its own copy. */
  lemma AlignedRegionsAreAWordApart(dst: nat, src: nat)
    requires dst != src && dst % 4 == src % 4
    ensures dst + 4 <= src || src + 4 <= dst
  {
  }

  method CopyBytesForward(mem: array<byte>, dst: nat, src: nat, count: nat)
    requires dst <= src && src + count <= mem.Length
    modifies mem
    ensures Moved(mem, dst, dst + count, src - dst)
  {
    var d, s, t := dst, src, count;
    while t != 0
      invariant 0 <= t && d - dst == s - src == count - t
      invariant dst <= d && Moved(mem, dst, d, src - dst)
    {
      mem[d] := mem[s];
      d, s, t := d + 1, s + 1, t - 1;
    }
  }

  method CopyWordsForward(mem: array<byte>, dst: nat, src: nat, words: nat)
    requires dst <= src && src + 4 * words <= mem.Length
    requires words != 0 ==> dst % 4 == 0 && src % 4 == 0 && dst + 4 <= src
    modifies mem
    ensures Moved(mem, dst, dst + 4 * words, src - dst)
  {
    var d, s, t := dst, src, words;
    while t != 0
      invariant 0 <= t && d - dst == s - src == 4 * (words - t)
      invariant t != 0 ==> d % 4 == 0 && s % 4 == 0
      invariant dst <= d && Moved(mem, dst, d, src - dst)
    {
      var word := LoadWord(mem, s);
      StoreWord(mem, d, word);
      d, s, t := d + 4, s + 4, t - 1;
    }
  }

  /** Copies the `count` bytes that end at `srcEnd` to those that end at `dstEnd`. */
  method CopyBytesBackward(mem: array<byte>, dstEnd: nat, srcEnd: nat, count: nat)
    requires count <= srcEnd <= dstEnd <= mem.Length
    modifies mem
    ensures Moved(mem, dstEnd - count, dstEnd, srcEnd - dstEnd)
  {
    var d: nat, s: nat, t: nat := dstEnd, srcEnd, count;
    while t != 0
      invariant dstEnd - d == srcEnd - s == count - t
      invariant d <= dstEnd && Moved(mem, d, dstEnd, srcEnd - dstEnd)
    {
      d, s := d - 1, s - 1;
      mem[d] := mem[s];
      t := t - 1;
    }
  }

  method CopyWordsBackward(mem: array<byte>, dstEnd: nat, srcEnd: nat, words: nat)
    requires 4 * words <= srcEnd <= dstEnd <= mem.Length
    requires words != 0 ==> dstEnd % 4 == 0 && srcEnd % 4 == 0 && srcEnd + 4 <= dstEnd
    modifies mem
    ensures Moved(mem, dstEnd - 4 * words, dstEnd, srcEnd - dstEnd)
  {
    var d: nat, s: nat, t: nat := dstEnd, srcEnd, words;
    while t != 0
      invariant dstEnd - d == srcEnd - s == 4 * (words - t)
      invariant t != 0 ==> d % 4 == 0 && s % 4 == 0
      invariant d <= dstEnd && Moved(mem, d, dstEnd, srcEnd - dstEnd)
    {
      d, s := d - 4, s - 4;
      var word := LoadWord(mem, s);
      StoreWord(mem, d, word);
      t := t - 1;
    }
  }

  /** Whole words in `length` bytes, and the bytes left over. */
  method Split(length: nat) returns (words: nat, tail: nat)
    ensures 4 * words + tail == length && tail < 4
  {
    words, tail := length / 4, length % 4;
  }

  method CopyAlignedForward(mem: array<byte>, dst: nat, src: nat, length: nat)
    requires dst < src && src + length <= mem.Length
    requires length != 0 ==> dst % 4 == 0 && src % 4 == 0
    modifies mem
    ensures Moved(mem, dst, dst + length, src - dst)
  {
    var words, tail := Split(length);
    if words != 0 {
      AlignedRegionsAreAWordApart(dst, src);
    }
    CopyWordsForward(mem, dst, src, words);
    var d, s := dst + 4 * words, src + 4 * words;
    assert s - d == src - dst && d + tail == dst + length;
    CopyBytesForward(mem, d, s, tail);
  }

  method CopyAlignedBackward(mem: array<byte>, dstEnd: nat, srcEnd: nat, length: nat)
    requires length <= srcEnd < dstEnd <= mem.Length
    requires length != 0 ==> dstEnd % 4 == 0 && srcEnd % 4 == 0
    modifies mem
    ensures Moved(mem, dstEnd - length, dstEnd, srcEnd - dstEnd)
  {
    var words, tail := Split(length);
    if words != 0 {
      AlignedRegionsAreAWordApart(dstEnd, srcEnd);
    }
    CopyWordsBackward(mem, dstEnd, srcEnd, words);
    CopyBytesBackward(mem, dstEnd - 4 * words, srcEnd - 4 * words, tail);
  }

  /** Bytes to copy before the words: up to the boundary if there can be words, else all. */
  function ForwardHead(dst: nat, src: nat, length: nat): (t: nat)
    requires length > 0 && (src % 4 != 0 || dst % 4 != 0)
    ensures 0 < t <= length
    ensures t < length ==> (dst + t) % 4 == 0 && (src + t) % 4 == 0
  {
    if src % 4 != dst % 4 || length < 4 then length else 4 - src % 4
  }

  /** The same from the end: the addresses are those just past the regions. */
  function BackwardHead(dst: nat, src: nat, length: nat): (t: nat)
    requires 0 < length <= dst && length <= src && (src % 4 != 0 || dst % 4 != 0)
    ensures 0 < t <= length
    ensures t < length ==> (dst - t) % 4 == 0 && (src - t) % 4 == 0
  {
    if src % 4 != dst % 4 || length <= 4 then length else src % 4
  }

  method CopyForward(mem: array<byte>, dst: nat, src: nat, length: nat)
    requires 0 < length && dst < src && src + length <= mem.Length
    modifies mem
    ensures Moved(mem, dst, dst + length, src - dst)
  {
    var head: nat := 0;
    if src % 4 != 0 || dst % 4 != 0 {
      head := ForwardHead(dst, src, length);
      CopyBytesForward(mem, dst, src, head);
    }
    CopyAlignedForward(mem, dst + head, src + head, length - head);
  }

  method CopyBackward(mem: array<byte>, dst: nat, src: nat, length: nat)
    requires 0 < length && src < dst && dst + length <= mem.Length
    modifies mem
    ensures Moved(mem, dst, dst + length, src - dst)
  {
    var head: nat := 0;
    if (src + length) % 4 != 0 || (dst + length) % 4 != 0 {
      head := BackwardHead(dst + length, src + length, length);
      CopyBytesBackward(mem, dst + length, src + length, head);
    }
    CopyAlignedBackward(mem, dst + length - head, src + length - head, length - head);
  }

  /** Memory move for every source, destination, length and overlap. */
  method Memcpy2(mem: array<byte>, dst: nat, src: nat, length: nat) returns (r: nat)
    requires dst + length <= mem.Length && src + length <= mem.Length
    modifies mem
    ensures Moved(mem, dst, dst + length, src - dst)
    ensures mem[dst..dst + length] == old(mem[src..src + length])
    ensures r == dst
  {
    r := dst;
    if length != 0 && dst != src {
      if dst < src {
        CopyForward(mem, dst, src, length);
      } else {
        CopyBackward(mem, dst, src, length);
      }
    }
  }
}
