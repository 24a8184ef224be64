/**
 A transfer that nothing disturbs, from arming to the last acknowledgement
 (software/src/waveformRecorder.c).
 */
module WfrProgress {
  import opened Common
  import opened RingWindow
  import opened WfrProtocol
  import opened WfrRuns
  import opened WfrDelivery

  /** Block `b` arrives and its acknowledgement comes back. */
  ghost function Round(window: seq<byte>, b: nat, now: nat): seq<NetEvent> {
    [BlockArrives(b, Block(window, b)), AnswerArrives(ToBlock(b), now, true)]
  }

  ghost function Rounds(window: seq<byte>, b: nat, now: nat): seq<NetEvent>
    decreases BlockCount(|window|) - b
  {
    if BlockCount(|window|) <= b then [] else Round(window, b, now) + Rounds(window, b + 1, now)
  }

  lemma {:induction false} NetRunConcat(c: Config, y: System, a: seq<NetEvent>, b: seq<NetEvent>)
    requires Sound(c, y.w)
    ensures NetRun(c, y, a + b) == NetRun(c, NetRun(c, y, a), b)
    decreases |a|
  {
    hide NetStep;
    if a == [] {
      assert a + b == b;
    } else {
      NetRunConcat(c, NetStep(c, y, a[0]), a[1..], b);
      assert (a + b)[1..] == a[1..] + b;
    }
  }

  lemma TwoSteps(c: Config, y: System, e1: NetEvent, e2: NetEvent)
    requires Sound(c, y.w)
    ensures NetRun(c, y, [e1, e2]) == NetStep(c, NetStep(c, y, e1), e2)
  {
    hide NetStep;
    assert [e1, e2][1..] == [e2] && [e2][1..] == [];
    assert NetRun(c, NetStep(c, y, e1), [e2]) == NetRun(c, NetStep(c, NetStep(c, y, e1), e2), []);
  }

  /** Block `b` is on its way, and the receiver has those before it. */
  ghost predicate OnItsWay(c: Config, y: System, b: nat) {
    && NetInvariant(c, y) && Delivered(y)
    && y.w.r.comm == Sending && y.w.r.txBlock == b && (b, Block(y.window, b)) in y.sent
  }

  lemma RoundMovesOn(c: Config, y: System, b: nat, now: nat)
    requires OnItsWay(c, y, b) && b < BlockCount(|y.window|)
    ensures var y' := NetRun(c, y, Round(y.window, b, now));
            && y'.window == y.window && NetInvariant(c, y') && Delivered(y')
            && (if b + 1 < BlockCount(|y.window|) then OnItsWay(c, y', b + 1) else Finished(y'))
  {
    var arrival, answer := BlockArrives(b, Block(y.window, b)), AnswerArrives(ToBlock(b), now, true);
    TwoSteps(c, y, arrival, answer);
    StepKeepsNetwork(c, y, arrival);
    StepDeliversIff(c, y, arrival);
    var y1 := NetStep(c, y, arrival);
    BlockHasArrived(y1, b, Block(y.window, b));
    StepKeepsNetwork(c, y1, answer);
    StepDeliversIff(c, y1, answer);
    AnswerAdvances(c, y1, b, now);
  }

  lemma BlockHasArrived(y: System, b: nat, payload: seq<byte>)
    requires (b, payload) in y.has
    ensures Has(y, b)
  {
  }

  lemma AnswerAdvances(c: Config, y: System, b: nat, now: nat)
    requires NetInvariant(c, y) && y.w.r.comm == Sending && y.w.r.txBlock == b && Has(y, b)
    ensures var y' := NetStep(c, y, AnswerArrives(ToBlock(b), now, true));
            && y'.window == y.window
            && (if b + 1 < BlockCount(|y.window|) then
                  y'.w.r.comm == Sending && y'.w.r.txBlock == b + 1 && (b + 1, Block(y.window, b + 1)) in y'.sent
                else Finished(y'))
  {
    var ack := AckOf(c, y.w, ToBlock(b));
    var e := AckReceived(ack, now, true);
    AnswerMovesOn(c, y.w, ack, now, true);
    BlockIsLeft(c, y.w, e);
    NothingIsLeft(c, y.w, e);
    LeftAfter(c, y.w, ack, now);
    hide Step, CurrentWindow, Block;
  }

  lemma LeftAfter(c: Config, w: World, ack: Ack, now: nat)
    requires Invariant(c, w) && w.r.comm == Sending && Accepted(c, w.r, ack)
    ensures Step(c, w, AckReceived(ack, now, true)).0.r.bytesLeft
            == if w.r.bytesLeft <= PAYLOAD then 0 else w.r.bytesLeft - PAYLOAD
  {
  }

  /** Round by round the rest of the window is delivered. */
  lemma {:induction false} RoundsFinish(c: Config, y: System, b: nat, now: nat)
    requires OnItsWay(c, y, b) && b < BlockCount(|y.window|)
    ensures var y' := NetRun(c, y, Rounds(y.window, b, now));
            Finished(y') && y'.window == y.window && HasWindow(y')
    decreases BlockCount(|y.window|) - b
  {
    hide NetInvariant, Delivered, Finished, HasWindow, NetRun, OnItsWay;
    ReadyIsSound(c, y, b);
    var next := NetRun(c, y, Round(y.window, b, now));
    RoundMovesOn(c, y, b, now);
    NetRunConcat(c, y, Round(y.window, b, now), Rounds(y.window, b + 1, now));
    if b + 1 < BlockCount(|y.window|) {
      RoundsFinish(c, next, b + 1, now);
    } else {
      NothingMore(c, next);
      FinishedIsWhole(c, next);
    }
  }

  lemma ReadyIsSound(c: Config, y: System, b: nat)
    requires OnItsWay(c, y, b)
    ensures Sound(c, y.w)
  {
  }

  lemma NothingMore(c: Config, y: System)
    requires NetInvariant(c, y)
    ensures Sound(c, y.w) && NetRun(c, y, []) == y
  {
  }

  /** Armed, filled by the hardware, and scanned. */
  ghost function Announced(c: Config, y: System, on: nat, ring: seq<byte>, next: nat, seconds: nat, fraction: nat,
                           now: nat): (y': System)
    requires Sound(c, y.w)
    ensures Sound(c, y'.w)
  {
    var armed := NetStep(c, y, Local(Arm(on, false)));
    var full := NetStep(c, armed, Local(Acquire(ring, next, true, seconds, fraction)));
    NetStep(c, full, Local(Scan(now, true)))
  }

  /** Arming a recorder that is not armed, an acquisition, and one scan send the header of a new
      waveform; it announces as many of the last bytes written as the acquisition count asks for. */
  lemma HeaderFollowsAcquisition(c: Config, y: System, on: nat, ring: seq<byte>, next: nat, seconds: nat,
                                 fraction: nat, now: nat)
    requires NetInvariant(c, y) && !y.w.hw.armed && 0 < on && |ring| == |y.w.ring| && next < |ring|
    ensures var y' := Announced(c, y, on, ring, next, seconds, fraction, now);
            && NetInvariant(c, y') && y'.announced && y'.w.r.comm == HeaderSent && y'.w.r.acqCount == y.w.r.acqCount
            && y.w.r.acqCount * c.Unit() <= |ring|
            && y'.window == LastBytes(ring, next, y.w.r.acqCount * c.Unit())
            && y'.w.hw.seconds == seconds && y'.w.hw.fraction == fraction
  {
    var armed := NetStep(c, y, Local(Arm(on, false)));
    var full := NetStep(c, armed, Local(Acquire(ring, next, true, seconds, fraction)));
    StepKeepsNetwork(c, y, Local(Arm(on, false)));
    StepKeepsNetwork(c, armed, Local(Acquire(ring, next, true, seconds, fraction)));
    StepKeepsNetwork(c, full, Local(Scan(now, true)));
    RecorderFills(c, y, on, ring, next, seconds, fraction);
    HeaderOfFull(c, full, now);
    Fits(c, y.w.r.acqCount);
  }

  lemma RecorderFills(c: Config, y: System, on: nat, ring: seq<byte>, next: nat, seconds: nat, fraction: nat)
    requires NetInvariant(c, y) && !y.w.hw.armed && 0 < on && |ring| == |y.w.ring| && next < |ring|
    ensures var armed := NetStep(c, y, Local(Arm(on, false)));
            var full := NetStep(c, armed, Local(Acquire(ring, next, true, seconds, fraction)));
            && full.w.r.comm == Idle && full.w.hw.full && !full.w.hw.armed
            && full.w.ring == ring && full.w.hw.next == next
            && full.w.hw.acqCount == full.w.r.acqCount == y.w.r.acqCount
            && full.w.hw.seconds == seconds && full.w.hw.fraction == fraction
  {
  }

  lemma HeaderOfFull(c: Config, y: System, now: nat)
    requires NetInvariant(c, y) && y.w.r.comm == Idle && y.w.hw.full && y.w.hw.acqCount == y.w.r.acqCount
    ensures var y' := NetStep(c, y, Local(Scan(now, true)));
            && y'.announced && y'.w.r.comm == HeaderSent && y'.w.r.acqCount == y.w.r.acqCount
            && y.w.r.acqCount * c.Unit() <= |y.w.ring|
            && y'.window == LastBytes(y.w.ring, y.w.hw.next, y.w.r.acqCount * c.Unit())
            && y'.w.hw.seconds == y.w.hw.seconds && y'.w.hw.fraction == y.w.hw.fraction
  {
    var e := Scan(now, true);
    HeaderIsSentIff(c, y.w, now, true);
    PlacementIsKeptIff(c, y.w, e);
    HeaderAnnouncesCount(c, y.w, e);
    StepKeepsInvariant(c, y.w, e);
    WindowInPlace(c, Step(c, y.w, e).0);
    hide CurrentWindow, Window;
  }

  /** The answer to the header sends block 0. */
  lemma BlocksFollowHeader(c: Config, y: System, now: nat)
    requires NetInvariant(c, y) && y.w.r.comm == HeaderSent && Delivered(y)
    ensures var y' := NetStep(c, NetStep(c, y, HeaderArrives), AnswerArrives(ToHeader, now, true));
            y'.window == y.window && OnItsWay(c, y', 0)
  {
    var heard, answer := NetStep(c, y, HeaderArrives), AnswerArrives(ToHeader, now, true);
    StepKeepsNetwork(c, y, HeaderArrives);
    StepDeliversIff(c, y, HeaderArrives);
    StepKeepsNetwork(c, heard, answer);
    StepDeliversIff(c, heard, answer);
    AnswerMovesOn(c, heard.w, AckOf(c, heard.w, ToHeader), now, true);
    hide CurrentWindow, Block;
  }

  /** A transfer that nothing disturbs delivers: a recorder is armed, its ring fills, it is scanned,
      and every packet and acknowledgement arrives. Then the receiver has the last bytes written, as
      many as the acquisition count asked for. */
  lemma UndisturbedTransferDelivers(c: Config, y: System, on: nat, ring: seq<byte>, next: nat, seconds: nat,
                                    fraction: nat, now: nat)
    requires NetInvariant(c, y) && !y.w.hw.armed && 0 < on && |ring| == |y.w.ring| && next < |ring|
    ensures var announced := Announced(c, y, on, ring, next, seconds, fraction, now);
            var begun := NetStep(c, NetStep(c, announced, HeaderArrives), AnswerArrives(ToHeader, now, true));
            var end := NetRun(c, begun, Rounds(begun.window, 0, now));
            && y.w.r.acqCount * c.Unit() <= |ring|
            && Finished(end) && HasWindow(end)
            && end.window == LastBytes(ring, next, y.w.r.acqCount * c.Unit())
  {
    hide NetInvariant, NetStep, NetRun, HasWindow, Finished, Announced, OnItsWay;
    var announced := Announced(c, y, on, ring, next, seconds, fraction, now);
    HeaderFollowsAcquisition(c, y, on, ring, next, seconds, fraction, now);
    HeaderIsDelivered(c, announced);
    BlocksFollowHeader(c, announced, now);
    var begun := NetStep(c, NetStep(c, announced, HeaderArrives), AnswerArrives(ToHeader, now, true));
    WindowIsNotEmpty(c, begun);
    RoundsFinish(c, begun, 0, now);
  }

  lemma HeaderIsDelivered(c: Config, y: System)
    requires NetInvariant(c, y) && y.w.r.comm == HeaderSent
    ensures Delivered(y)
  {
  }

  lemma WindowIsNotEmpty(c: Config, y: System)
    requires OnItsWay(c, y, 0)
    ensures 0 < BlockCount(|y.window|)
  {
  }
}
