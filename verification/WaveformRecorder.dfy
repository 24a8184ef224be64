/**
 The recorder objects of the firmware (software/src/waveformRecorder.c). Rings and packet
 buffers lie in one memory; payloads are copied with the firmware's own memory copy.
 */
module WaveformRecorder {
  import opened Common
  import opened RingCopy
  import opened RingWindow
  import opened WfrProtocol
  import opened WfrTermination

  /** Bytes for an acquisition count, multiplied out in 32 bits. */
  function BytesFor(c: Config, count: nat): (bytes: nat)
    requires c.Valid() && count <= c.samples
    ensures bytes == count * c.Unit() <= c.ByteCapacity()
  {
    MultiplyMonotone(count, c.samples, c.Unit());
    assert count * c.bytesPerSample * c.cyclesPerWord == count * c.Unit();
    (count * c.bytesPerSample * c.cyclesPerWord) % U32
  }

  class RecorderData {
    const c: Config
    const mem: array<byte>
    const acqBuf: nat                  // address of the ring

    var commState: Comm
    var csrModeBits: Mode
    var triggerMask: nat
    var pretrigCount: nat
    var acqCount: nat
    var waveformNumber: nat
    var startByteOffset: nat
    var bytesLeft: nat
    var bytesInPreviousPacket: nat
    var sysUsAtPreviousPacket: nat
    var retryCount: nat
    var txBlock: nat

    var regs: Registers                // the hardware's registers

    ghost function Ring(): seq<byte>
      requires acqBuf + c.ByteCapacity() <= mem.Length
      reads mem
    {
      mem[acqBuf..acqBuf + c.ByteCapacity()]
    }

    ghost function View(): World
      requires acqBuf + c.ByteCapacity() <= mem.Length
      reads this, mem
    {
      World(Recorder(commState, csrModeBits, triggerMask, pretrigCount, acqCount, waveformNumber,
                     startByteOffset, bytesLeft, bytesInPreviousPacket, sysUsAtPreviousPacket,
                     retryCount, txBlock),
            regs, Ring())
    }

    /** The blocks still to be sent lie inside the ring's length, so no 32-bit sum wraps. */
    ghost predicate InBounds()
      reads this
    {
      && startByteOffset < U32 / 2
      && (commState != Idle ==> PAYLOAD * txBlock + bytesLeft <= c.ByteCapacity())
      && (commState == Sending ==> bytesInPreviousPacket == Min(bytesLeft, PAYLOAD))
    }

    ghost predicate Placed()
      reads this, mem
    {
      acqBuf + c.ByteCapacity() <= mem.Length && Sound(c, View())
    }

    ghost predicate Valid()
      reads this, mem
    {
      Placed() && InBounds()
    }

    /** A packet buffer is a stretch of memory clear of the ring. */
    ghost predicate Clear(buffer: Option<nat>)
      reads this
    {
      buffer.Some? ==>
        && buffer.value + PAYLOAD <= mem.Length
        && (buffer.value + PAYLOAD <= acqBuf || acqBuf + c.ByteCapacity() <= buffer.value)
    }

    /** Nothing but the packet buffer has been written. */
    twostate predicate OnlyBufferWritten(buffer: Option<nat>)
      reads mem
    {
      match buffer
      case Some(b) => OnlyWritten(mem, b, PAYLOAD)
      case None => OnlyWritten(mem, 0, 0)
    }

    /** State after the recorder has been set up. */
    constructor (config: Config, memory: array<byte>, ring: nat, pretrigger: nat, count: nat, next: nat)
      requires config.Valid() && ring + config.ByteCapacity() <= memory.Length
      requires 1 <= count <= config.samples && next < config.ByteCapacity()
      ensures c == config && mem == memory && acqBuf == ring
      ensures Valid() && Invariant(c, View()) && Settled(View())
      ensures View().r.acqCount == count && View().r.waveform == 1
    {
      c, mem, acqBuf := config, memory, ring;
      commState, csrModeBits, triggerMask := Idle, Mode(false, false), 0;
      pretrigCount, acqCount, waveformNumber := pretrigger, count, 1;
      startByteOffset, bytesLeft, bytesInPreviousPacket, sysUsAtPreviousPacket := 0, 0, 0, 0;
      retryCount, txBlock := 0, 0;
      regs := Registers(next, 0, 0, 0, Mode(false, false), false, false, 0, 0);
    }

    /** Fills a packet buffer with the next `length` bytes of the window and returns them. */
    method CopyPayload(buffer: nat, length: nat) returns (payload: seq<byte>)
      requires Placed() && Clear(Some(buffer)) && startByteOffset < U32 / 2
      requires length <= PAYLOAD && PAYLOAD * txBlock + length <= c.ByteCapacity()
      modifies mem
      ensures OnlyBufferWritten(Some(buffer)) && Ring() == old(Ring())
      ensures payload == Window(old(Ring()), (startByteOffset + txBlock * PAYLOAD) % c.ByteCapacity(), length)
    {
      hide Window;
      var sum := (startByteOffset + txBlock * PAYLOAD) % U32;
      assert sum == startByteOffset + txBlock * PAYLOAD;
      CopyWindow(mem, acqBuf, c.ByteCapacity(), sum % c.ByteCapacity(), length, buffer);
      payload := mem[buffer..buffer + length];
    }

    method DataPacket(buffer: Option<nat>, now: nat) returns (p: Option<Packet>)
      requires Placed() && Clear(buffer) && startByteOffset < U32 / 2
      requires 0 < bytesLeft ==> PAYLOAD * txBlock + bytesLeft <= c.ByteCapacity()
      modifies `commState, `bytesInPreviousPacket, `sysUsAtPreviousPacket, mem
      ensures Valid() && OnlyBufferWritten(buffer)
      ensures (View(), p) == WfrProtocol.DataPacket(c, old(View()), now, buffer.Some?)
    {
      p := None;
      var dataLength: nat := bytesLeft;
      if dataLength > 0 {
        if dataLength > PAYLOAD {
          dataLength := PAYLOAD;
        }
        if buffer.Some? {
          var payload := CopyPayload(buffer.value, dataLength);
          p := Some(Data(c.bpm, c.recorder, waveformNumber, txBlock, payload));
          sysUsAtPreviousPacket := now;
        }
      }
      if p.Some? {
        commState, bytesInPreviousPacket := Sending, dataLength;
      } else {
        commState, bytesInPreviousPacket := Idle, 0;
      }
    }

    method AckPacket(ack: Ack, buffer: Option<nat>, now: nat) returns (p: Option<Packet>)
      requires Valid() && Clear(buffer)
      modifies `commState, `bytesInPreviousPacket, `sysUsAtPreviousPacket, `retryCount, `txBlock, `bytesLeft, mem
      ensures Valid() && OnlyBufferWritten(buffer)
      ensures (View(), p) == WfrProtocol.AckPacket(c, old(View()), ack, now, buffer.Some?)
    {
      if ack.bpm != c.bpm || ack.recorder != c.recorder
         || (commState != Sending && commState != HeaderSent)
         || ack.magic != MAGIC_ACK
         || ack.waveform != waveformNumber
         || ack.block != txBlock {
        return None;
      }
      retryCount := 0;
      if commState != HeaderSent {
        txBlock := txBlock + 1;
        if bytesInPreviousPacket < bytesLeft {
          bytesLeft := bytesLeft - bytesInPreviousPacket;
        } else {
          bytesLeft := 0;
        }
      }
      p := DataPacket(buffer, now);
    }

    method HeaderPacket(gotBuffer: bool, now: nat) returns (p: Option<Packet>)
      requires Valid() && commState != Sending
      modifies `commState, `bytesInPreviousPacket, `sysUsAtPreviousPacket, `txBlock, `bytesLeft, `startByteOffset
      ensures Valid()
      ensures (View(), p) == WfrProtocol.HeaderPacket(c, old(View()), now, gotBuffer)
    {
      var count := regs.acqCount;
      if count > acqCount {
        count := acqCount;
      }
      var acquired := BytesFor(c, acqCount);
      startByteOffset := (regs.next + c.ByteCapacity() - acquired) % c.ByteCapacity();
      p := None;
      if gotBuffer {
        bytesLeft := BytesFor(c, count);
        p := Some(Header(c.bpm, c.recorder, waveformNumber, regs.seconds, regs.fraction, bytesLeft,
                         c.bytesPerSample, c.bytesPerAtom));
        commState, txBlock, sysUsAtPreviousPacket := HeaderSent, 0, now;
      }
      bytesInPreviousPacket := 0;
    }

    /** What one visit of the scan does for this recorder. */
    method CheckForWork(buffer: Option<nat>, now: nat) returns (p: Option<Packet>)
      requires Valid() && Clear(buffer)
      modifies this, mem
      ensures Valid() && OnlyBufferWritten(buffer)
      ensures (View(), p) == ScanStep(c, old(View()), now, buffer.Some?)
    {
      p := None;
      if commState == Idle {
        if regs.full {
          regs := WriteCsr(regs, 0, csrModeBits, false);
          retryCount := 0;
          p := HeaderPacket(buffer.Some?, now);
        }
      } else if Sub32(now, sysUsAtPreviousPacket) > TIMEOUT_US {
        retryCount := retryCount + 1;
        if retryCount < RETRY_LIMIT {
          if commState == HeaderSent {
            p := HeaderPacket(buffer.Some?, now);
          } else {
            p := DataPacket(buffer, now);
          }
        } else {
          commState := Idle;
        }
      }
    }

    method ArmCommand(val: nat, diagnostic: bool)
      requires Valid()
      modifies this
      ensures Valid()
      ensures View() == ArmStep(old(View()), val, diagnostic)
    {
      if val != 0 {
        if !regs.armed {
          regs := regs.(acqCount := acqCount, pretrigCount := pretrigCount);
          waveformNumber := Increment32(waveformNumber);
        }
        commState := Idle;
      }
      csrModeBits := csrModeBits.(diagnostic := diagnostic);
      regs := WriteCsr(regs, triggerMask, csrModeBits, val != 0);
    }

    method AcquisitionCountCommand(val: nat)
      requires Valid()
      modifies this
      ensures Valid()
      ensures View() == Step(c, old(View()), SetAcquisitionCount(val)).0
    {
      if val > 0 {
        var clamped := val;
        if clamped > c.SampleCapacity() {
          clamped := c.SampleCapacity();
        }
        MultiplyMonotone(1, c.samples, c.cyclesPerWord);
        RoundedUp(clamped, c.cyclesPerWord, c.samples);
        acqCount := (clamped + c.cyclesPerWord - 1) / c.cyclesPerWord;
      }
    }

    method OtherCommand(e: Event)
      requires Valid()
      requires e.SetTriggerMask? || e.SetPretriggerCount? || e.SetAcquisitionMode?
      modifies this
      ensures Valid()
      ensures View() == Step(c, old(View()), e).0
    {
      match e
      case SetTriggerMask(val) =>
        triggerMask := val % 256;
      case SetPretriggerCount(val) =>
        var clamped := val;
        if clamped > c.maxPretrigger {
          clamped := c.maxPretrigger;
        }
        pretrigCount := (clamped + c.cyclesPerWord - 1) / c.cyclesPerWord;
      case SetAcquisitionMode(val) =>
        csrModeBits := csrModeBits.(test := val != 0);
    }
  }

  /** The scan over all recorders, one at a time, across calls. */
  class Scanner {
    const bpms: nat
    const recorders: nat
    var bpm: nat
    var recorder: nat

    ghost predicate Valid()
      reads this
    {
      bpm < bpms && recorder < recorders
    }

    /** The recorder last served, counting through all of them. */
    ghost function Index(): nat
      reads this
    {
      IndexOf((bpm, recorder), recorders)
    }

    constructor (b: nat, r: nat)
      requires 0 < b && 0 < r
      ensures Valid() && Index() == 0 && bpms == b && recorders == r
    {
      bpms, recorders, bpm, recorder := b, r, 0, 0;
    }

    method Advance()
      requires Valid()
      modifies this
      ensures Valid()
      ensures Index() == (old(Index()) + 1) % (bpms * recorders)
    {
      IndexBound(bpm, recorder, bpms, recorders);
      if recorder >= recorders - 1 {
        recorder := 0;
        if bpm >= bpms - 1 {
          bpm := 0;
        } else {
          bpm := bpm + 1;
        }
      } else {
        recorder := recorder + 1;
      }
      IndexBound(bpm, recorder, bpms, recorders);
      Wrapped(old(Index()) + 1, bpms * recorders);
    }

    /** As many consecutive calls as there are recorders serve every recorder of every chain
        exactly once. */
    method ServeAll() returns (visited: seq<(nat, nat)>)
      requires Valid()
      modifies this
      ensures Valid() && Index() == old(Index())
      ensures |visited| == bpms * recorders
      ensures forall b: nat, r: nat :: b < bpms && r < recorders ==> (b, r) in visited
      ensures forall i, j :: 0 <= i < j < |visited| ==> visited[i] != visited[j]
    {
      hide IndexOf, Served;
      visited := [];
      ghost var start, n := Index(), bpms * recorders;
      IndexBound(bpm, recorder, bpms, recorders);
      Wrapped(start, n);
      for i := 0 to bpms * recorders
        invariant Valid() && |visited| == i && Index() == (start + i) % n
        invariant forall k :: 0 <= k < i ==> visited[k].0 < bpms && visited[k].1 < recorders
        invariant forall k :: 0 <= k < i ==> IndexOf(visited[k], recorders) == Served(start, n, k)
      {
        NextIsServed(start, n, i);
        Advance();
        visited := visited + [(bpm, recorder)];
      }
      AddMod(0, start, n);
      Wrapped(start + n, n);
      AllServed(start, n, bpms, recorders, visited);
    }
  }

  lemma NextIsServed(start: nat, n: nat, i: nat)
    requires start < n
    ensures ((start + i) % n + 1) % n == (start + (i + 1)) % n == Served(start, n, i)
  {
    AddMod(start + i, 1, n);
  }

  function IndexOf(pair: (nat, nat), recorders: nat): nat {
    pair.0 * recorders + pair.1
  }

  lemma IndexIsUnique(p: (nat, nat), q: (nat, nat), recorders: nat)
    requires p.1 < recorders && q.1 < recorders && IndexOf(p, recorders) == IndexOf(q, recorders)
    ensures p == q
  {
    if p.0 < q.0 {
      MultiplyMonotone(p.0 + 1, q.0, recorders);
    } else if q.0 < p.0 {
      MultiplyMonotone(q.0 + 1, p.0, recorders);
    }
  }

  lemma AllServed(start: nat, n: nat, bpms: nat, recorders: nat, visited: seq<(nat, nat)>)
    requires start < n == |visited| == bpms * recorders
    requires forall k :: 0 <= k < n ==> visited[k].0 < bpms && visited[k].1 < recorders
    requires forall k :: 0 <= k < n ==> IndexOf(visited[k], recorders) == Served(start, n, k)
    ensures forall b: nat, r: nat :: b < bpms && r < recorders ==> (b, r) in visited
    ensures forall i, j :: 0 <= i < j < n ==> visited[i] != visited[j]
  {
    forall b: nat, r: nat | b < bpms && r < recorders
      ensures (b, r) in visited
    {
      IndexBound(b, r, bpms, recorders);
      ScanServesEachOnce(start, n, IndexOf((b, r), recorders));
      var i :| 0 <= i < n && Served(start, n, i) == IndexOf((b, r), recorders);
      IndexIsUnique(visited[i], (b, r), recorders);
    }
    forall i, j | 0 <= i < j < n
      ensures visited[i] != visited[j]
    {
      if visited[i] == visited[j] {
        IndexBound(visited[i].0, visited[i].1, bpms, recorders);
        ScanServesEachOnce(start, n, IndexOf(visited[i], recorders));
      }
    }
  }

  lemma IndexBound(b: nat, r: nat, bpms: nat, recorders: nat)
    requires b < bpms && r < recorders
    ensures b * recorders + r == IndexOf((b, r), recorders) < bpms * recorders
    ensures b == bpms - 1 ==> b * recorders + recorders == bpms * recorders
  {
    MultiplyMonotone(b + 1, bpms, recorders);
  }

  /** One ring as laid out in memory. */
  datatype Ring = Ring(base: nat, config: Config)

  ghost predicate Disjoint(a: Ring, b: Ring) {
    a.base + a.config.ByteCapacity() <= b.base || b.base + b.config.ByteCapacity() <= a.base
  }

  const RECORDERS := 7
  const SAMPLE_CAPACITY := 16 * 1024 * 1024

  /** The recorders of one chain: raw ADC samples come two to a memory word. */
  function ConfigOf(bpm: nat, i: nat): (c: Config)
    ensures c.Valid()
  {
    Config(bpm, i, SAMPLE_CAPACITY, 16, if i == 0 then 2 else 1, if i == 0 then 2 else 4, SAMPLE_CAPACITY)
  }

  /** Lays the rings of one chain out one after the other from `start`. */
  method WfrInit(bpm: nat, start: nat) returns (rings: seq<Ring>, next: nat)
    ensures |rings| == RECORDERS
    ensures forall i :: 0 <= i < RECORDERS ==> rings[i].config == ConfigOf(bpm, i)
    ensures forall i, j :: 0 <= i < j < RECORDERS ==> Disjoint(rings[i], rings[j])
    ensures forall i :: 0 <= i < RECORDERS ==>
              start <= rings[i].base && rings[i].base + rings[i].config.ByteCapacity() <= next
  {
    rings, next := [], start;
    for i := 0 to RECORDERS
      invariant |rings| == i && start <= next
      invariant forall k :: 0 <= k < i ==> rings[k].config == ConfigOf(bpm, k)
      invariant forall k :: 0 <= k < i ==>
                  start <= rings[k].base && rings[k].base + rings[k].config.ByteCapacity() <= next
      invariant forall k, l :: 0 <= k < l < i ==> Disjoint(rings[k], rings[l])
    {
      var c := ConfigOf(bpm, i);
      rings := rings + [Ring(next, c)];
      next := next + c.ByteCapacity();
    }
  }
}
