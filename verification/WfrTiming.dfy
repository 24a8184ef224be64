/**
 When a recorder repeats itself, in terms of what was sent and when (software/src/waveformRecorder.c).
 */
module WfrTiming {
  import opened Common
  import opened RingWindow
  import opened WfrProtocol
  import opened WfrRuns

  const SECOND := 1_000_000
  const ATTEMPTS := 10

  /** What an observer keeps of a run: the last packet, when it was sent, and how many scans have come
      too late for it since the transfer last moved on. */
  datatype Past = Past(at: nat, packet: Option<Packet>, lates: nat)

  function TimeOf(e: Event): nat {
    match e
    case Scan(now, _) => now
    case AckReceived(_, now, _) => now
    case _ => 0
  }

  /** More than a second since the last packet, as a 32-bit microsecond clock shows it. */
  predicate Overdue(now: nat, p: Past) {
    SECOND < (now - p.at) % U32
  }

  ghost function NextPast(c: Config, w: World, e: Event, p: Past): Past
    requires Sound(c, w)
  {
    var packet := Step(c, w, e).1;
    var late := e.Scan? && w.r.comm != Idle && Overdue(e.now, p);
    Past(if packet.Some? then TimeOf(e) else p.at,
         if packet.Some? then packet else p.packet,
         if late then p.lates + 1 else if packet.Some? then 0 else p.lates)
  }

  ghost function RunPast(c: Config, w: World, p: Past, events: seq<Event>): (r: (World, Past))
    requires Sound(c, w)
    ensures Sound(c, r.0)
    decreases |events|
  {
    if events == [] then (w, p)
    else RunPast(c, Step(c, w, events[0]).0, NextPast(c, w, events[0], p), events[1..])
  }

  /** While a transfer is under way the timer runs from the last packet, which is the header or the
      current block, and the retries are the scans that came too late. */
  ghost predicate OnTime(c: Config, w: World, p: Past)
    requires Sound(c, w)
  {
    w.r.comm != Idle ==>
      && w.r.lastUs == p.at && w.r.retryCount == p.lates
      && p.packet.Some? && (w.r.comm == HeaderSent ==> p.packet.value.Header?)
      && (w.r.comm == Sending ==>
            p.packet.value
            == Data(c.bpm, c.recorder, w.r.waveform, w.r.txBlock, Block(CurrentWindow(c, w), w.r.txBlock)))
  }

  lemma StepKeepsTime(c: Config, w: World, p: Past, e: Event)
    requires Invariant(c, w) && OnTime(c, w, p)
    ensures OnTime(c, Step(c, w, e).0, NextPast(c, w, e, p))
  {
    StepKeepsInvariant(c, w, e);
    PacketMatchesWindow(c, w, e);
    if !BuildsHeader(w, e) {
      StepKeepsWindow(c, w, e);
    }
    hide Block, Window;
  }

  /** What a scan does while a transfer is under way: nothing until the last packet is overdue; then
      it is sent again, unless this was the tenth time or there is no buffer. */
  ghost predicate RepeatsWhenOverdue(c: Config, w: World, p: Past, now: nat, gotBuffer: bool)
    requires Sound(c, w)
  {
    var (w', packet) := Step(c, w, Scan(now, gotBuffer));
    && ((w', packet) == (w, None) <==> !Overdue(now, p))
    && (Overdue(now, p) ==>
          if p.lates + 1 == ATTEMPTS then w'.r.comm == Idle && packet == None
          else if gotBuffer then
            && w'.r.comm == w.r.comm && packet.Some?
            && (if w.r.comm == HeaderSent then packet.value.Header? else packet == p.packet)
          else packet == None && w'.r.comm == if w.r.comm == HeaderSent then HeaderSent else Idle)
  }

  lemma ScanRepeats(c: Config, w: World, p: Past, now: nat, gotBuffer: bool)
    requires Invariant(c, w) && OnTime(c, w, p) && w.r.comm != Idle
    ensures RepeatsWhenOverdue(c, w, p, now, gotBuffer)
  {
    PacketMatchesWindow(c, w, Scan(now, gotBuffer));
    if w.r.comm == Sending {
      StepKeepsWindow(c, w, Scan(now, gotBuffer));
    }
    hide Block, Window;
  }

  /** For every run from an idle recorder, in terms of event times and packets sent: while a transfer
      is under way, a scan repeats the last packet, or gives up, if and only if more than a second has
      passed since it was sent; and it gives up exactly at the tenth time. */
  lemma EveryRunKeepsTime(c: Config, w: World, events: seq<Event>, now: nat, gotBuffer: bool)
    requires Invariant(c, w) && w.r.comm == Idle
    ensures var (w', p) := RunPast(c, w, Past(0, None, 0), events);
            w'.r.comm != Idle ==> RepeatsWhenOverdue(c, w', p, now, gotBuffer)
  {
    RunIsOnTime(c, w, Past(0, None, 0), events);
    var (w', p) := RunPast(c, w, Past(0, None, 0), events);
    if w'.r.comm != Idle {
      ScanRepeats(c, w', p, now, gotBuffer);
    }
  }

  lemma {:induction false} RunIsOnTime(c: Config, w: World, p: Past, events: seq<Event>)
    requires Invariant(c, w) && OnTime(c, w, p)
    ensures Invariant(c, RunPast(c, w, p, events).0)
    ensures OnTime(c, RunPast(c, w, p, events).0, RunPast(c, w, p, events).1)
    decreases |events|
  {
    hide Invariant, OnTime, Step, NextPast;
    if events != [] {
      StepKeepsInvariant(c, w, events[0]);
      StepKeepsTime(c, w, p, events[0]);
      RunIsOnTime(c, Step(c, w, events[0]).0, NextPast(c, w, events[0], p), events[1..]);
    }
  }

  /** Concretely: the first block is sent when the header's answer arrives after 0.9 s, and a scan
      0.1 s later leaves it alone. */
  lemma AnswerRestartsTimer()
    ensures var c := Config(0, 0, 4, 1, 1, 1, 4);
            var hw := Registers(0, 2, 0, 0, Mode(false, false), false, true, 0, 0);
            var w := World(Recorder(Idle, Mode(false, false), 0, 0, 2, 1, 0, 0, 0, 0, 0, 0), hw, [10, 11, 12, 13]);
            var w1 := Step(c, w, Scan(0, true)).0;
            var (w2, packet) := Step(c, w1, AckReceived(Ack(MAGIC_ACK, 0, 0, 1, 0), 900_000, true));
            && packet == Some(Data(0, 0, 1, 0, [12, 13]))
            && Step(c, w2, Scan(1_000_001, true)) == (w2, None)
            && Step(c, w2, Scan(1_900_001, true)).1 == packet
  {
    var ring: seq<byte> := [10, 11, 12, 13];
    assert Window(ring, 2, 2) == [12, 13];
  }

  /** `words` are as many memory words as the samples need, and no more. */
  predicate Covers(words: nat, samples: nat, cyclesPerWord: nat) {
    samples <= words * cyclesPerWord < samples + cyclesPerWord
  }

  lemma WordsCover(val: nat, cyclesPerWord: nat)
    requires 0 < cyclesPerWord
    ensures Covers(WordsFor(val, cyclesPerWord), val, cyclesPerWord)
  {
    var d := val + cyclesPerWord - 1;
    assert d == d / cyclesPerWord * cyclesPerWord + d % cyclesPerWord;
  }

  /** Arming puts the latest settings into the hardware: the trigger mask, the counts, cut off at what
      fits and rounded up to whole words, and both modes; and begins a new waveform. */
  lemma ArmTakesSettings(c: Config, w: World, mask: nat, pretrigger: nat, count: nat, test: nat, diagnostic: bool,
                         on: nat)
    requires Invariant(c, w) && !w.hw.armed && 0 < count && 0 < on
    ensures var w1 := Step(c, w, SetTriggerMask(mask)).0;
            var w2 := Step(c, w1, SetPretriggerCount(pretrigger)).0;
            var w3 := Step(c, w2, SetAcquisitionCount(count)).0;
            var w4 := Step(c, w3, SetAcquisitionMode(test)).0;
            var armed := Step(c, w4, Arm(on, diagnostic)).0;
            && armed.hw.armed && !armed.hw.full && armed.r.comm == Idle
            && armed.hw.triggers == mask % 256 && armed.hw.mode == Mode(diagnostic, test != 0)
            && Covers(armed.hw.pretrigCount, Min(pretrigger, c.maxPretrigger), c.cyclesPerWord)
            && Covers(armed.hw.acqCount, Min(count, c.SampleCapacity()), c.cyclesPerWord)
            && armed.r.acqCount == armed.hw.acqCount
            && armed.r.waveform == (if w.r.waveform + 1 < U32 then w.r.waveform + 1 else 0)
  {
    WordsCover(Min(pretrigger, c.maxPretrigger), c.cyclesPerWord);
    WordsCover(Min(count, c.SampleCapacity()), c.cyclesPerWord);
    hide WordsFor;
  }

  /** A count of zero is ignored. */
  lemma ZeroCountIsIgnored(c: Config, w: World)
    requires Sound(c, w)
    ensures Step(c, w, SetAcquisitionCount(0)) == (w, None)
  {
  }

  /** Disarming forgets an acquisition, finished or not; nothing is announced after it. */
  lemma DisarmForgets(c: Config, w: World, diagnostic: bool, now: nat, gotBuffer: bool)
    requires Invariant(c, w) && w.r.comm == Idle
    ensures var off := Step(c, w, Arm(0, diagnostic)).0;
            && !off.hw.armed && !off.hw.full
            && Step(c, off, Scan(now, gotBuffer)) == (off, None)
  {
  }
}
