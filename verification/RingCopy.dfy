/**
 Copying a window of a ring into a packet buffer of the same memory
 (software/src/waveformRecorder.c, using software/src/memcpy2.c).
 */
module RingCopy {
  import opened Common
  import Memcpy2
  import opened RingWindow

  twostate predicate OnlyWritten(mem: array<byte>, lo: nat, n: nat)
    reads mem
  {
    forall i {:trigger mem[i]} :: 0 <= i < mem.Length && !(lo <= i < lo + n) ==> mem[i] == old(mem[i])
  }

  method Copy(mem: array<byte>, dst: nat, src: nat, n: nat)
    requires dst + n <= mem.Length && src + n <= mem.Length
    modifies mem
    ensures mem[dst..dst + n] == old(mem[src..src + n])
    ensures OnlyWritten(mem, dst, n)
  {
    var _ := Memcpy2.Memcpy2(mem, dst, src, n);
  }

  /** Two pieces, copied one behind the other. */
  method CopyTwo(mem: array<byte>, dst: nat, src1: nat, l1: nat, src2: nat, l2: nat)
    requires dst + l1 + l2 <= mem.Length && src1 + l1 <= mem.Length && src2 + l2 <= mem.Length
    requires dst + l1 + l2 <= src2 || src2 + l2 <= dst
    modifies mem
    ensures mem[dst..dst + l1 + l2] == old(mem[src1..src1 + l1]) + old(mem[src2..src2 + l2])
    ensures OnlyWritten(mem, dst, l1 + l2)
  {
    Copy(mem, dst, src1, l1);
    assert mem[src2..src2 + l2] == old(mem[src2..src2 + l2]);
    CopyBehind(mem, dst, l1, src2, l2);
  }

  method CopyBehind(mem: array<byte>, dst: nat, l1: nat, src2: nat, l2: nat)
    requires dst + l1 + l2 <= mem.Length && src2 + l2 <= mem.Length
    modifies mem
    ensures mem[dst..dst + l1 + l2] == old(mem[dst..dst + l1]) + old(mem[src2..src2 + l2])
    ensures OnlyWritten(mem, dst + l1, l2)
  {
    Copy(mem, dst + l1, src2, l2);
    assert mem[dst..dst + l1] == old(mem[dst..dst + l1]);
    Joined(mem, dst, l1, l2);
  }

  lemma Joined(mem: array<byte>, lo: nat, l1: nat, l2: nat)
    requires lo + l1 + l2 <= mem.Length
    ensures mem[lo..lo + l1 + l2] == mem[lo..lo + l1] + mem[lo + l1..lo + l1 + l2]
  {
  }

  lemma SliceOfRing(mem: array<byte>, base: nat, cap: nat, a: nat, b: nat)
    requires base + cap <= mem.Length && a <= b <= cap
    ensures mem[base..base + cap][a..b] == mem[base + a..base + b]
    ensures b == cap ==> mem[base..base + cap][a..] == mem[base + a..base + b]
    ensures a == 0 ==> mem[base..base + cap][..b] == mem[base..base + b]
  {
    var ring := mem[base..base + cap];
    assert |ring| == cap;
    forall i | 0 <= i < b - a
      ensures ring[a..b][i] == mem[base + a..base + b][i]
    {
      assert ring[a + i] == mem[base + (a + i)];
    }
    assert b == cap ==> ring[a..] == ring[a..b];
    assert a == 0 ==> ring[..b] == ring[a..b];
  }

  lemma WindowInMemory(mem: array<byte>, base: nat, cap: nat, offset: nat, n: nat)
    requires base + cap <= mem.Length && offset < cap && n <= cap
    ensures offset + n <= cap ==> Window(mem[base..base + cap], offset, n) == mem[base + offset..base + offset + n]
    ensures cap < offset + n ==>
              Window(mem[base..base + cap], offset, n)
              == mem[base + offset..base + offset + (cap - offset)] + mem[base..base + (n - (cap - offset))]
  {
    hide Window;
    WindowSlices(mem[base..base + cap], offset, n);
    if offset + n <= cap {
      SliceOfRing(mem, base, cap, offset, offset + n);
    } else {
      SliceOfRing(mem, base, cap, offset, cap);
      SliceOfRing(mem, base, cap, 0, n - (cap - offset));
    }
  }

  method CopyStraight(mem: array<byte>, base: nat, cap: nat, offset: nat, n: nat, dst: nat)
    requires base + cap <= mem.Length && dst + n <= mem.Length && offset + n <= cap && offset < cap
    modifies mem
    ensures mem[dst..dst + n] == Window(old(mem[base..base + cap]), offset, n)
    ensures OnlyWritten(mem, dst, n)
  {
    WindowInMemory(mem, base, cap, offset, n);
    Copy(mem, dst, base + offset, n);
  }

  method CopyWrapped(mem: array<byte>, base: nat, cap: nat, offset: nat, n: nat, dst: nat)
    requires base + cap <= mem.Length && dst + n <= mem.Length
    requires dst + n <= base || base + cap <= dst
    requires offset < cap && n <= cap < offset + n
    modifies mem
    ensures mem[dst..dst + n] == Window(old(mem[base..base + cap]), offset, n)
    ensures OnlyWritten(mem, dst, n)
  {
    WindowInMemory(mem, base, cap, offset, n);
    var l1 := cap - offset;
    CopyTwo(mem, dst, base + offset, l1, base, n - l1);
  }

  /** The window of the ring at `base` that starts at `offset`, in two pieces when it wraps. */
  method CopyWindow(mem: array<byte>, base: nat, cap: nat, offset: nat, n: nat, dst: nat)
    requires base + cap <= mem.Length && dst + n <= mem.Length
    requires dst + n <= base || base + cap <= dst
    requires offset < cap && n <= cap
    modifies mem
    ensures mem[dst..dst + n] == Window(old(mem[base..base + cap]), offset, n)
    ensures mem[base..base + cap] == old(mem[base..base + cap])
    ensures OnlyWritten(mem, dst, n)
  {
    if offset + n <= cap {
      CopyStraight(mem, base, cap, offset, n, dst);
    } else {
      CopyWrapped(mem, base, cap, offset, n, dst);
    }
  }
}
