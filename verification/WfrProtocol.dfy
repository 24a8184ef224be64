/**
 The waveform transfer as a state machine (software/src/waveformRecorder.c): one recorder, its
 hardware registers and its ring buffer, driven by scans, acknowledgements, commands and the
 acquisition hardware itself.
 */
module WfrProtocol {
  import opened Common
  import opened RingWindow

  const TIMEOUT_US := 1_000_000
  const RETRY_LIMIT := 10
  const MAGIC_ACK := 0xD06F9795

  /** The mode bits of the control register. */
  datatype Mode = Mode(diagnostic: bool, test: bool)

  /** What is fixed about a recorder once it has been set up. */
  datatype Config = Config(bpm: nat, recorder: nat, samples: nat, bytesPerSample: nat,
                           cyclesPerWord: nat, bytesPerAtom: nat, maxPretrigger: nat)
  {
    /** Bytes acquired for one count of the acquisition register. */
    function Unit(): nat { bytesPerSample * cyclesPerWord }

    function ByteCapacity(): nat { samples * Unit() }

    function SampleCapacity(): nat { samples * cyclesPerWord }

    /** Rings are non-empty and at most half a gigabyte, the largest that is configured. */
    ghost predicate Valid() {
      0 < bytesPerSample && 0 < cyclesPerWord && 0 < samples && ByteCapacity() <= 0x2000_0000
    }
  }

  datatype Comm = Idle | HeaderSent | Sending

  datatype Recorder = Recorder(comm: Comm, csrModeBits: Mode, triggerMask: nat, pretrigCount: nat,
                               acqCount: nat, waveform: nat, start: nat, bytesLeft: nat,
                               bytesInPrevious: nat, lastUs: nat, retryCount: nat, txBlock: nat)

  /** The hardware's registers; `next` is the write position as an offset into the ring. */
  datatype Registers = Registers(next: nat, acqCount: nat, pretrigCount: nat, triggers: nat, mode: Mode,
                                 armed: bool, full: bool, seconds: nat, fraction: nat)

  datatype World = World(r: Recorder, hw: Registers, ring: seq<byte>)

  datatype Packet =
    | Header(bpm: nat, recorder: nat, waveform: nat, seconds: nat, fraction: nat,
             byteCount: nat, bytesPerSample: nat, bytesPerAtom: nat)
    | Data(bpm: nat, recorder: nat, waveform: nat, block: nat, payload: seq<byte>)

  datatype Ack = Ack(magic: nat, bpm: nat, recorder: nat, waveform: nat, block: nat)

  /** `gotBuffer` says whether a packet buffer was available, `now` is the microsecond clock. */
  datatype Event =
    | Scan(now: nat, gotBuffer: bool)
    | AckReceived(ack: Ack, now: nat, gotBuffer: bool)
    | Arm(val: nat, diagnostic: bool)
    | SetTriggerMask(val: nat)
    | SetPretriggerCount(val: nat)
    | SetAcquisitionCount(val: nat)
    | SetAcquisitionMode(val: nat)
    | Acquire(ring: seq<byte>, next: nat, full: bool, seconds: nat, fraction: nat)

  type Result = (World, Option<Packet>)

  /** Any write of the control register clears "full" and sets or clears "armed". */
  function WriteCsr(hw: Registers, triggers: nat, mode: Mode, arm: bool): Registers {
    hw.(triggers := triggers, mode := mode, armed := arm, full := false)
  }

  function StartOffset(c: Config, acqCount: nat, next: nat): nat
    requires c.Valid() && acqCount * c.Unit() <= next + c.ByteCapacity()
  {
    (next + c.ByteCapacity() - acqCount * c.Unit()) % c.ByteCapacity()
  }

  ghost predicate Sound(c: Config, w: World) {
    && c.Valid()
    && |w.ring| == c.ByteCapacity()
    && w.hw.next < c.ByteCapacity()
    && 1 <= w.r.acqCount <= c.samples
  }

  lemma Fits(c: Config, acqCount: nat)
    requires acqCount <= c.samples
    ensures acqCount * c.Unit() <= c.ByteCapacity()
  {
  }

  ghost function HeaderPacket(c: Config, w: World, now: nat, gotBuffer: bool): (result: Result)
    requires Sound(c, w)
    ensures Sound(c, result.0)
  {
    Fits(c, w.r.acqCount);
    var r, hw := w.r, w.hw;
    var count := Min(hw.acqCount, r.acqCount);
    var placed := r.(start := StartOffset(c, r.acqCount, hw.next), bytesInPrevious := 0);
    if gotBuffer then
      (w.(r := placed.(comm := HeaderSent, bytesLeft := count * c.Unit(), txBlock := 0, lastUs := now)),
       Some(Header(c.bpm, c.recorder, r.waveform, hw.seconds, hw.fraction, count * c.Unit(),
                   c.bytesPerSample, c.bytesPerAtom)))
    else (w.(r := placed), None)
  }

  ghost function DataPacket(c: Config, w: World, now: nat, gotBuffer: bool): (result: Result)
    requires Sound(c, w)
    ensures Sound(c, result.0)
  {
    var r := w.r;
    var length := Min(r.bytesLeft, PAYLOAD);
    if 0 < length && gotBuffer then
      (w.(r := r.(comm := Sending, bytesInPrevious := length, lastUs := now)),
       Some(Data(c.bpm, c.recorder, r.waveform, r.txBlock,
                 Window(w.ring, (r.start + r.txBlock * PAYLOAD) % c.ByteCapacity(), length))))
    else (w.(r := r.(comm := Idle, bytesInPrevious := 0)), None)
  }

  predicate Accepted(c: Config, r: Recorder, ack: Ack) {
    && ack.bpm == c.bpm && ack.recorder == c.recorder
    && r.comm != Idle
    && ack.magic == MAGIC_ACK
    && ack.waveform == r.waveform
    && ack.block == r.txBlock
  }

  ghost function AckPacket(c: Config, w: World, ack: Ack, now: nat, gotBuffer: bool): (result: Result)
    requires Sound(c, w)
    ensures Sound(c, result.0)
  {
    var r := w.r;
    if !Accepted(c, r, ack) then (w, None)
    else if r.comm == HeaderSent then DataPacket(c, w.(r := r.(retryCount := 0)), now, gotBuffer)
    else
      var left := if r.bytesInPrevious < r.bytesLeft then r.bytesLeft - r.bytesInPrevious else 0;
      DataPacket(c, w.(r := r.(retryCount := 0, txBlock := r.txBlock + 1, bytesLeft := left)), now, gotBuffer)
  }

  predicate TimedOut(r: Recorder, now: nat) {
    r.comm != Idle && Sub32(now, r.lastUs) > TIMEOUT_US
  }

  ghost function ScanStep(c: Config, w: World, now: nat, gotBuffer: bool): (result: Result)
    requires Sound(c, w)
    ensures Sound(c, result.0)
  {
    var r, hw := w.r, w.hw;
    if r.comm == Idle then
      if !hw.full then (w, None)
      else HeaderPacket(c, w.(r := r.(retryCount := 0), hw := WriteCsr(hw, 0, r.csrModeBits, false)), now, gotBuffer)
    else if !TimedOut(r, now) then (w, None)
    else
      var retried := w.(r := r.(retryCount := r.retryCount + 1));
      if r.retryCount + 1 < RETRY_LIMIT then
        if r.comm == HeaderSent then HeaderPacket(c, retried, now, gotBuffer)
        else DataPacket(c, retried, now, gotBuffer)
      else (w.(r := retried.r.(comm := Idle)), None)
  }

  function ArmStep(w: World, val: nat, diagnostic: bool): World {
    var r, hw := w.r, w.hw;
    var mode := r.csrModeBits.(diagnostic := diagnostic);
    if val == 0 then w.(r := r.(csrModeBits := mode), hw := WriteCsr(hw, r.triggerMask, mode, false))
    else
      var loaded := if hw.armed then hw else hw.(acqCount := r.acqCount, pretrigCount := r.pretrigCount);
      var number := if hw.armed then r.waveform else Increment32(r.waveform);
      w.(r := r.(comm := Idle, csrModeBits := mode, waveform := number),
         hw := WriteCsr(loaded, r.triggerMask, mode, true))
  }

  /** Counts are given in samples and stored in words, rounded up. */
  function WordsFor(val: nat, cyclesPerWord: nat): nat
    requires 0 < cyclesPerWord
  {
    (val + cyclesPerWord - 1) / cyclesPerWord
  }

  lemma MultiplyMonotone(a: int, b: int, k: nat)
    requires a <= b
    ensures a * k <= b * k
  {
  }

  lemma RoundedUp(val: nat, cpw: nat, samples: nat)
    requires 0 < cpw && 0 < val <= samples * cpw
    ensures 1 <= WordsFor(val, cpw) <= samples
  {
    var q := WordsFor(val, cpw);
    assert q * cpw < val + cpw <= q * cpw + cpw;
    if samples < q {
      MultiplyMonotone(samples + 1, q, cpw);
      assert false;
    }
  }

  /** One event. Whatever the commands, the counts keep the window inside the ring. */
  ghost function Step(c: Config, w: World, e: Event): (result: Result)
    requires Sound(c, w)
    ensures Sound(c, result.0)
  {
    var r, hw := w.r, w.hw;
    match e
    case Scan(now, gotBuffer) => ScanStep(c, w, now, gotBuffer)
    case AckReceived(ack, now, gotBuffer) => AckPacket(c, w, ack, now, gotBuffer)
    case Arm(val, diagnostic) => (ArmStep(w, val, diagnostic), None)
    case SetTriggerMask(val) => (w.(r := r.(triggerMask := val % 256)), None)
    case SetPretriggerCount(val) =>
      (w.(r := r.(pretrigCount := WordsFor(Min(val, c.maxPretrigger), c.cyclesPerWord))), None)
    case SetAcquisitionCount(val) =>
      if val == 0 then (w, None)
      else
        MultiplyMonotone(1, c.samples, c.cyclesPerWord);
        RoundedUp(Min(val, c.SampleCapacity()), c.cyclesPerWord, c.samples);
        (w.(r := r.(acqCount := WordsFor(Min(val, c.SampleCapacity()), c.cyclesPerWord))), None)
    case SetAcquisitionMode(val) =>
      (w.(r := r.(csrModeBits := r.csrModeBits.(test := val != 0))), None)
    case Acquire(ring, next, full, seconds, fraction) =>
      // The hardware writes its ring only while armed, and filling up disarms it; it is assumed to
      // have written everything when it says that it is full.
      if hw.armed && |ring| == |w.ring| && next < |ring| then
        (w.(ring := ring, hw := hw.(next := next, armed := !full, full := full,
                                    seconds := seconds, fraction := fraction)), None)
      else (w, None)
  }

  /** Bytes in the window being sent, those acknowledged included. */
  ghost function WindowBytes(w: World): nat {
    PAYLOAD * w.r.txBlock + w.r.bytesLeft
  }

  /** The window being sent, where the last header has placed it. */
  ghost function CurrentWindow(c: Config, w: World): (s: seq<byte>)
    requires Sound(c, w)
    ensures |s| == WindowBytes(w)
  {
    Window(w.ring, w.r.start, WindowBytes(w))
  }

  /** What holds between any two events, whatever they are. */
  ghost predicate Invariant(c: Config, w: World): (holds: bool)
    ensures holds ==> Sound(c, w)
  {
    && Sound(c, w)
    && var r, hw := w.r, w.hw;
    && (hw.armed || hw.full || r.comm != Idle ==> 1 <= hw.acqCount <= c.samples)
    && (r.comm != Idle ==>
          && !hw.armed && !hw.full
          && r.retryCount < RETRY_LIMIT
          && WindowBytes(w) <= hw.acqCount * c.Unit()
          && 0 < r.bytesLeft)
    && (r.comm == HeaderSent ==> r.txBlock == 0)
    && (r.comm == Sending ==> r.bytesInPrevious == Min(r.bytesLeft, PAYLOAD))
  }

  /** The window being sent is the last bytes written. */
  ghost predicate InPlace(c: Config, w: World)
    requires Sound(c, w)
  {
    w.r.comm != Idle ==>
      && WindowBytes(w) <= c.ByteCapacity()
      && w.r.start == (w.hw.next + c.ByteCapacity() - WindowBytes(w)) % c.ByteCapacity()
  }

  /** The event makes the recorder build a header, for the first time or again. */
  predicate BuildsHeader(w: World, e: Event) {
    && e.Scan?
    && ((w.r.comm == Idle && w.hw.full)
        || (w.r.comm == HeaderSent && TimedOut(w.r, e.now) && w.r.retryCount + 1 < RETRY_LIMIT))
  }

  /** A header is built with an acquisition count not above the hardware's; and if there is no
      buffer to send it again, with the count of the header sent before. */
  predicate CountFits(c: Config, w: World, e: Event) {
    BuildsHeader(w, e) ==>
      if e.gotBuffer then w.r.acqCount <= w.hw.acqCount
      else w.r.comm == HeaderSent ==> w.r.acqCount * c.Unit() == w.r.bytesLeft
  }

  /** Nothing acquired and unsent, and no acquisition under way. */
  predicate Settled(w: World) {
    w.r.comm == Idle && !w.hw.armed && !w.hw.full
  }

  /** The acquisition count is left alone from arming until the header is acknowledged. */
  predicate Calm(w: World, e: Event) {
    e.SetAcquisitionCount? ==> Settled(w) || w.r.comm == Sending
  }
}
