/**
 Why a waveform transfer ends, how often anything is sent, which recorder is served when, and
 what goes wrong when the acquisition count is changed at a bad moment
 (software/src/waveformRecorder.c).
 */
module WfrTermination {
  import opened Common
  import opened RingWindow
  import opened WfrProtocol
  import opened WfrRuns

  /** Does the event move the transfer on: a timeout, or an acknowledgement that is accepted? */
  predicate Moves(c: Config, w: World, e: Event) {
    match e
    case Scan(now, _) => TimedOut(w.r, now)
    case AckReceived(ack, _, _) => Accepted(c, w.r, ack)
    case _ => false
  }

  /** Items still to be acknowledged at most: the header counts as one more than the blocks it can
      announce. */
  ghost function ItemsLeft(c: Config, w: World): nat {
    match w.r.comm
    case Idle => 0
    case HeaderSent => BlockCount(w.hw.acqCount * c.Unit()) + 1
    case Sending => BlockCount(w.r.bytesLeft)
  }

  ghost function RetriesLeft(r: Recorder): int {
    if r.comm == Idle then 0 else RETRY_LIMIT - r.retryCount
  }

  /** (items left, retries left) falls lexicographically at every event that moves the
      transfer, and no other event changes either of them. */
  lemma MovesDecrease(c: Config, w: World, e: Event)
    requires Invariant(c, w) && w.r.comm != Idle
    requires !(e.Arm? && e.val != 0)
    ensures var w' := Step(c, w, e).0;
            if Moves(c, w, e) then
              || ItemsLeft(c, w') < ItemsLeft(c, w)
              || (ItemsLeft(c, w') == ItemsLeft(c, w) && RetriesLeft(w'.r) < RetriesLeft(w.r))
            else
              ItemsLeft(c, w') == ItemsLeft(c, w) && RetriesLeft(w'.r) == RetriesLeft(w.r)
  {
    StepKeepsInvariant(c, w, e);
    BlockCountDrops(w.r.bytesLeft, w.hw.acqCount * c.Unit());
  }

  lemma BlockCountDrops(n: nat, most: nat)
    requires 0 < n
    ensures 0 < BlockCount(n)
    ensures PAYLOAD < n ==> BlockCount(n - PAYLOAD) == BlockCount(n) - 1
    ensures n <= most ==> BlockCount(n) <= BlockCount(most)
  {
  }

  /** The measure as one number. */
  ghost function Budget(c: Config, w: World): int {
    if w.r.comm == Idle then 0 else (ItemsLeft(c, w) - 1) * RETRY_LIMIT + RetriesLeft(w.r)
  }

  ghost function RunEnd(c: Config, w: World, events: seq<Event>): (w': World)
    requires Sound(c, w)
    ensures Sound(c, w')
    decreases |events|
  {
    if events == [] then w else RunEnd(c, Step(c, w, events[0]).0, events[1..])
  }

  ghost function MoveCount(c: Config, w: World, events: seq<Event>): nat
    requires Sound(c, w)
    decreases |events|
  {
    if events == [] then 0
    else (if Moves(c, w, events[0]) then 1 else 0) + MoveCount(c, Step(c, w, events[0]).0, events[1..])
  }

  ghost function SentCount(c: Config, w: World, events: seq<Event>): nat
    requires Sound(c, w)
    decreases |events|
  {
    if events == [] then 0
    else (if Step(c, w, events[0]).1.Some? then 1 else 0) + SentCount(c, Step(c, w, events[0]).0, events[1..])
  }

  ghost predicate NeverArmed(events: seq<Event>) {
    forall e :: e in events && e.Arm? ==> e.val == 0
  }

  ghost predicate NoneAccepted(c: Config, w: World, events: seq<Event>)
    requires Sound(c, w)
    decreases |events|
  {
    events != [] ==>
      && (events[0].AckReceived? ==> !Accepted(c, w.r, events[0].ack))
      && NoneAccepted(c, Step(c, w, events[0]).0, events[1..])
  }

  lemma BudgetFalls(c: Config, w: World, e: Event)
    requires Invariant(c, w) && !w.hw.armed && !w.hw.full
    requires !(e.Arm? && e.val != 0)
    ensures var (w', packet) := Step(c, w, e);
            && Invariant(c, w') && !w'.hw.armed && !w'.hw.full
            && Budget(c, w') + (if Moves(c, w, e) then 1 else 0) <= Budget(c, w)
            && (packet.Some? ==> Moves(c, w, e))
  {
    StepKeepsInvariant(c, w, e);
    if w.r.comm != Idle {
      MovesDecrease(c, w, e);
      var w' := Step(c, w, e).0;
      BlockCountDrops(w.r.bytesLeft, w.hw.acqCount * c.Unit());
      if w'.r.comm != Idle {
        BlockCountDrops(w'.r.bytesLeft, w'.hw.acqCount * c.Unit());
      }
    }
  }

  /** Until the recorder is armed again a run can move the transfer at most `Budget` times;
      once it has, the recorder is idle. Everything sent is paid for by such a move. */
  lemma {:induction false} EveryTransferEnds(c: Config, w: World, events: seq<Event>)
    requires Invariant(c, w) && !w.hw.armed && !w.hw.full
    requires NeverArmed(events)
    ensures Invariant(c, RunEnd(c, w, events))
    ensures Budget(c, RunEnd(c, w, events)) + MoveCount(c, w, events) <= Budget(c, w)
    ensures SentCount(c, w, events) <= MoveCount(c, w, events)
    ensures MoveCount(c, w, events) == Budget(c, w) ==> RunEnd(c, w, events).r.comm == Idle
    decreases |events|
  {
    if events != [] {
      BudgetFalls(c, w, events[0]);
      EveryTransferEnds(c, Step(c, w, events[0]).0, events[1..]);
    }
    var end := RunEnd(c, w, events);
    if end.r.comm != Idle {
      BlockCountDrops(end.r.bytesLeft, end.hw.acqCount * c.Unit());
    }
  }

  function RepeatsLeft(r: Recorder): int {
    if r.comm == Idle then 0 else RETRY_LIMIT - 1 - r.retryCount
  }

  /** Without an accepted acknowledgement nothing is sent more than RETRY_LIMIT times: the
      first sending leaves `retryCount` at zero, and this bounds the repeats. */
  lemma {:induction false} RepeatsAreBounded(c: Config, w: World, events: seq<Event>)
    requires Invariant(c, w) && !w.hw.armed && !w.hw.full
    requires NeverArmed(events) && NoneAccepted(c, w, events)
    ensures SentCount(c, w, events) <= RepeatsLeft(w.r)
    decreases |events|
  {
    hide Step, Invariant, Accepted, RepeatsLeft;
    if events != [] {
      BudgetFalls(c, w, events[0]);
      RepeatIsCounted(c, w, events[0]);
      RepeatsAreBounded(c, Step(c, w, events[0]).0, events[1..]);
    } else {
      RepeatsAreNotNegative(c, w);
    }
  }

  lemma RepeatsAreNotNegative(c: Config, w: World)
    requires Invariant(c, w)
    ensures 0 <= RepeatsLeft(w.r)
  {
  }

  lemma RepeatIsCounted(c: Config, w: World, e: Event)
    requires Invariant(c, w) && !w.hw.armed && !w.hw.full
    requires !(e.Arm? && e.val != 0) && (e.AckReceived? ==> !Accepted(c, w.r, e.ack))
    ensures var (w', packet) := Step(c, w, e);
            RepeatsLeft(w'.r) + (if packet.Some? then 1 else 0) <= RepeatsLeft(w.r)
  {
  }

  /** An acknowledgement changes nothing and causes nothing to be sent exactly when it is late,
      foreign, for another waveform, or no acknowledgement at all. */
  lemma StaleAcksChangeNothing(c: Config, w: World, ack: Ack, now: nat, gotBuffer: bool)
    requires Sound(c, w)
    ensures Step(c, w, AckReceived(ack, now, gotBuffer)) == (w, None)
            <==> || ack.bpm != c.bpm || ack.recorder != c.recorder || ack.magic != MAGIC_ACK
                 || w.r.comm == Idle || ack.waveform != w.r.waveform || ack.block != w.r.txBlock
  {
  }

  /** A second acknowledgement of the header, whether it was duplicated or answers a header that
      was sent again, also acknowledges block 0: the sender moves on to block 1. */
  lemma DuplicatedHeaderAckSkipsBlockZero(c: Config, w: World, ack: Ack, now: nat)
    requires Sound(c, w) && Accepted(c, w.r, ack)
    requires w.r.comm == HeaderSent && w.r.txBlock == 0 && PAYLOAD < w.r.bytesLeft
    ensures var w1 := Step(c, w, AckReceived(ack, now, true)).0;
            var (w2, packet) := Step(c, w1, AckReceived(ack, now, true));
            && w1.r.txBlock == 0 && w2.r.txBlock == 1
            && packet.Some? && packet.value.Data? && packet.value.block == 1
  {
  }

  /** The header places the window at the last bytes it announces exactly when the hardware
      count has not been exceeded by a later acquisition count (or nothing at all was acquired
      and the count asks for the whole ring). */
  lemma StartMatchesCountIff(c: Config, w: World)
    requires Sound(c, w)
    ensures var have := Min(w.hw.acqCount, w.r.acqCount) * c.Unit();
            var cap := c.ByteCapacity();
            have <= cap && w.r.acqCount * c.Unit() <= cap &&
            (StartOffset(c, w.r.acqCount, w.hw.next) == (w.hw.next + cap - have) % cap
             <==> w.r.acqCount <= w.hw.acqCount || (w.hw.acqCount == 0 && w.r.acqCount * c.Unit() == cap))
  {
    var count := Min(w.hw.acqCount, w.r.acqCount);
    Fits(c, w.r.acqCount);
    MultiplyMonotone(count, w.r.acqCount, c.Unit());
    StartsAgreeIff(w.hw.next, c.ByteCapacity(), count * c.Unit(), w.r.acqCount * c.Unit());
    if count < w.r.acqCount {
      MultiplyMonotone(count + 1, w.r.acqCount, c.Unit());
    }
    if 0 < count {
      MultiplyMonotone(1, count, c.Unit());
    }
  }

  /** Concretely: four one-byte samples, two acquired, then three asked for. The header
      announces two bytes, but the first data packet starts one byte too early. */
  lemma RaisedCountShiftsWindow()
    ensures var c := Config(0, 0, 4, 1, 1, 1, 4);
            var hw := Registers(0, 2, 0, 0, Mode(false, false), false, true, 0, 0);
            var w := World(Recorder(Idle, Mode(false, false), 0, 0, 3, 1, 0, 0, 0, 0, 0, 0), hw, [10, 11, 12, 13]);
            var (h, header) := Step(c, w, Scan(0, true));
            && Invariant(c, w) && InPlace(c, w)
            && header.Some? && header.value.Header? && header.value.byteCount == 2
            && DataPacket(c, h, 0, true).1 == Some(Data(0, 0, 1, 0, [11, 12]))
            && LastBytes(w.ring, 0, 2) == [12, 13]
  {
    var c := Config(0, 0, 4, 1, 1, 1, 4);
    var ring: seq<byte> := [10, 11, 12, 13];
    assert Window(ring, 1, 2) == [11, 12];
    assert Window(ring, 2, 2) == [12, 13];
    var hw := Registers(0, 2, 0, 0, Mode(false, false), false, true, 0, 0);
    var w := World(Recorder(Idle, Mode(false, false), 0, 0, 3, 1, 0, 0, 0, 0, 0, 0), hw, ring);
    var h := Step(c, w, Scan(0, true)).0;
    assert h.r.start == 1 && h.r.bytesLeft == 2 && h.ring == ring;
  }

  /** And with a lowered count: two bytes announced, one asked for, and no buffer for the second
      header. Its place in the window moves all the same, past the last byte written. */
  lemma LoweredCountMovesWindow()
    ensures var c := Config(0, 0, 4, 1, 1, 1, 4);
            var hw := Registers(0, 2, 0, 0, Mode(false, false), false, false, 0, 0);
            var r := Recorder(HeaderSent, Mode(false, false), 0, 0, 1, 1, 2, 2, 0, 0, 0, 0);
            var w := World(r, hw, [10, 11, 12, 13]);
            var (h, header) := Step(c, w, Scan(TIMEOUT_US + 1, false));
            && Invariant(c, w) && InPlace(c, w)
            && header == None && h.r.comm == HeaderSent
            && DataPacket(c, h, 0, true).1 == Some(Data(0, 0, 1, 0, [13, 10]))
            && LastBytes(w.ring, 0, 2) == [12, 13]
  {
    var c := Config(0, 0, 4, 1, 1, 1, 4);
    var ring: seq<byte> := [10, 11, 12, 13];
    assert Window(ring, 3, 2) == [13, 10];
    assert Window(ring, 2, 2) == [12, 13];
    var hw := Registers(0, 2, 0, 0, Mode(false, false), false, false, 0, 0);
    var w := World(Recorder(HeaderSent, Mode(false, false), 0, 0, 1, 1, 2, 2, 0, 0, 0, 0), hw, ring);
    var h := Step(c, w, Scan(TIMEOUT_US + 1, false)).0;
    assert h.r.start == 3 && h.r.bytesLeft == 2 && h.ring == ring;
  }

  /** The scan serves recorder `(scan + 1 + i) mod n` on its i-th call from now. */
  ghost function Served(scan: nat, n: nat, i: nat): nat
    requires 0 < n
  {
    (scan + 1 + i) % n
  }

  /** Any n consecutive calls serve each of the n recorders exactly once. */
  lemma ScanServesEachOnce(scan: nat, n: nat, k: nat)
    requires scan < n && k < n
    ensures exists i :: 0 <= i < n && Served(scan, n, i) == k
    ensures forall i, j :: 0 <= i < n && 0 <= j < n && Served(scan, n, i) == k && Served(scan, n, j) == k ==> i == j
  {
    var turn := if scan < k then k - scan - 1 else k + n - scan - 1;
    forall i | 0 <= i < n
      ensures Served(scan, n, i) == k <==> i == turn
    {
      Wrapped(scan + 1 + i, n);
    }
    assert Served(scan, n, turn) == k;
  }
}
