/**
 Windows of a ring buffer and their division into fixed-size blocks: the arithmetic behind the
 waveform transfer (software/src/waveformRecorder.c).
 */
module RingWindow {
  import opened Common

  /* Bytes of sample data in one data packet (software/src/dsbpmProtocol.h). */
  const PAYLOAD := 1440

  /** The ring repeated without end. */
  ghost function At(ring: seq<byte>, i: nat): byte
    requires |ring| != 0
  {
    ring[i % |ring|]
  }

  /** `n` bytes of the ring read from offset `start`, wrapping at its end. */
  ghost function Window(ring: seq<byte>, start: nat, n: nat): (w: seq<byte>)
    requires |ring| != 0
    ensures |w| == n && forall i {:trigger w[i]} :: 0 <= i < n ==> w[i] == At(ring, start + i)
  {
    seq(n, i requires 0 <= i < n => At(ring, start + i))
  }

  /** The last `n` bytes written before the write position `next`, oldest first. */
  ghost function LastBytes(ring: seq<byte>, next: nat, n: nat): (w: seq<byte>)
    requires n <= |ring| && next < |ring|
    ensures |w| == n
  {
    if n == 0 then [] else Window(ring, (next + |ring| - n) % |ring|, n)
  }

  /** Number of blocks needed for `n` bytes. */
  function BlockCount(n: nat): (k: nat)
    ensures PAYLOAD * k < n + PAYLOAD && n <= PAYLOAD * k
  {
    (n + PAYLOAD - 1) / PAYLOAD
  }

  ghost function Block(w: seq<byte>, b: nat): (s: seq<byte>)
  {
    if PAYLOAD * b < |w| then w[PAYLOAD * b..Min(PAYLOAD * (b + 1), |w|)] else []
  }

  /** Blocks are 1440 bytes, but the last one. */
  lemma BlockSize(w: seq<byte>, b: nat)
    ensures b < BlockCount(|w|) <==> 1440 * b < |w|
    ensures 1440 * b < |w| ==> Block(w, b) == w[1440 * b..Min(1440 * (b + 1), |w|)]
  {
  }

  /** The first `k` blocks of a collection, by number. */
  ghost function Assemble(blocks: map<nat, seq<byte>>, k: nat): seq<byte>
    requires forall b :: 0 <= b < k ==> b in blocks
  {
    if k == 0 then [] else Assemble(blocks, k - 1) + blocks[k - 1]
  }

  lemma BlockExtendsPrefix(w: seq<byte>, b: nat)
    ensures w[..Min(PAYLOAD * b, |w|)] + Block(w, b) == w[..Min(PAYLOAD * (b + 1), |w|)]
  {
  }

  lemma {:induction false} AssembledPrefix(blocks: map<nat, seq<byte>>, w: seq<byte>, k: nat)
    requires forall b :: 0 <= b < k ==> b in blocks && blocks[b] == Block(w, b)
    ensures Assemble(blocks, k) == w[..Min(PAYLOAD * k, |w|)]
  {
    if k != 0 {
      AssembledPrefix(blocks, w, k - 1);
      BlockExtendsPrefix(w, k - 1);
    }
  }

  /** Collecting every block by number, in any order, rebuilds the whole window. */
  lemma CollectedBlocksRebuild(blocks: map<nat, seq<byte>>, w: seq<byte>)
    requires forall b :: 0 <= b < BlockCount(|w|) ==> b in blocks && blocks[b] == Block(w, b)
    ensures Assemble(blocks, BlockCount(|w|)) == w
  {
    AssembledPrefix(blocks, w, BlockCount(|w|));
  }

  /** Without a wrap the bytes are one slice of the ring; with one they are two. */
  lemma WindowSlices(ring: seq<byte>, offset: nat, n: nat)
    requires offset < |ring| && n <= |ring|
    ensures offset + n <= |ring| ==> Window(ring, offset, n) == ring[offset..offset + n]
    ensures |ring| < offset + n ==>
              Window(ring, offset, n) == ring[offset..] + ring[..n - (|ring| - offset)]
  {
    forall i | 0 <= i < n
      ensures Window(ring, offset, n)[i] == ring[if offset + i < |ring| then offset + i else offset + i - |ring|]
    {
      Wrapped(offset + i, |ring|);
      assert Window(ring, offset, n)[i] == At(ring, offset + i);
    }
  }

  /** One turn of the ring is subtracted at most once. */
  lemma Wrapped(a: nat, cap: nat)
    requires a < 2 * cap
    ensures a % cap == if a < cap then a else a - cap
  {
    if cap <= a {
      QuotientIsUnique(a, cap, 1, a - cap);
    }
  }

  /** Two windows that end at the same place start at the same place exactly when they are
      equally long, or one is empty and the other the whole ring. */
  lemma StartsAgreeIff(next: nat, cap: nat, m: nat, n: nat)
    requires next < cap && m <= cap && n <= cap
    ensures (next + cap - m) % cap == (next + cap - n) % cap
            <==> m == n || (m == 0 && n == cap) || (m == cap && n == 0)
  {
    Wrapped(next + cap - m, cap);
    Wrapped(next + cap - n, cap);
  }

  lemma AtWrapped(ring: seq<byte>, a: nat, i: nat)
    requires |ring| != 0
    ensures At(ring, a % |ring| + i) == At(ring, a + i)
  {
    AddMod(a, i, |ring|);
  }

  /** The bytes that go into data packet `b` of a window are that block of it. */
  lemma BlockOfWindow(ring: seq<byte>, start: nat, n: nat, b: nat)
    requires |ring| != 0 && PAYLOAD * b < n
    ensures Window(ring, (start + b * PAYLOAD) % |ring|, Min(n - PAYLOAD * b, PAYLOAD))
            == Block(Window(ring, start, n), b)
  {
    var len := Min(n - PAYLOAD * b, PAYLOAD);
    var piece := Window(ring, (start + b * PAYLOAD) % |ring|, len);
    var whole := Window(ring, start, n);
    forall i | 0 <= i < len
      ensures piece[i] == whole[PAYLOAD * b + i]
    {
      AtWrapped(ring, start + b * PAYLOAD, i);
      assert piece[i] == At(ring, start + (PAYLOAD * b + i));
    }
    assert Block(whole, b) == whole[PAYLOAD * b..PAYLOAD * b + len];
  }
}
