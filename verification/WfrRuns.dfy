/**
 Whole runs of the waveform transfer: what the packets of a transfer say, and why every
 transfer ends (software/src/waveformRecorder.c).
 */
module WfrRuns {
  import opened Common
  import opened RingWindow
  import opened WfrProtocol

  /** A data packet built between events carries its block of the current window. */
  lemma DataIsBlockOfWindow(c: Config, w: World)
    requires Sound(c, w) && 0 < w.r.bytesLeft
    ensures Window(w.ring, (w.r.start + w.r.txBlock * PAYLOAD) % c.ByteCapacity(), Min(w.r.bytesLeft, PAYLOAD))
            == Block(CurrentWindow(c, w), w.r.txBlock)
  {
    BlockOfWindow(w.ring, w.r.start, WindowBytes(w), w.r.txBlock);
  }

  /** Between header and last acknowledgement the registers, the ring and the recorder's place
      in the window stay in step, whatever happens. */
  lemma StepKeepsInvariant(c: Config, w: World, e: Event)
    requires Invariant(c, w)
    ensures Invariant(c, Step(c, w, e).0)
  {
    var count := Min(w.hw.acqCount, w.r.acqCount);
    MultiplyMonotone(count, w.hw.acqCount, c.Unit());
    if 0 < count {
      MultiplyMonotone(1, count, c.Unit());
    }
  }

  /** The window stays at the last bytes written exactly when every header is built with a
      fitting count: not above what the hardware acquired, and unchanged while a header that was
      sent cannot be sent again for want of a buffer. */
  lemma PlacementIsKeptIff(c: Config, w: World, e: Event)
    requires Invariant(c, w) && InPlace(c, w)
    ensures InPlace(c, Step(c, w, e).0) <==> CountFits(c, w, e)
  {
    if BuildsHeader(w, e) {
      HeaderPlacesIff(c, w, e);
    } else {
      StepKeepsWindow(c, w, e);
    }
  }

  lemma HeaderPlacesIff(c: Config, w: World, e: Event)
    requires Invariant(c, w) && BuildsHeader(w, e)
    ensures InPlace(c, Step(c, w, e).0) <==> CountFits(c, w, e)
  {
    var count := Min(w.hw.acqCount, w.r.acqCount);
    CountPlacesIff(c, w.hw.next, w.r.acqCount, count, if e.gotBuffer then count * c.Unit() else w.r.bytesLeft);
    Fits(c, w.hw.acqCount);
    MultiplyMonotone(1, count, c.Unit());
  }

  /** A window of `n` bytes starts where an acquisition of `acqCount` does exactly when it has
      that length. */
  lemma CountPlacesIff(c: Config, next: nat, acqCount: nat, count: nat, n: nat)
    requires c.Valid() && next < c.ByteCapacity() && 1 <= acqCount <= c.samples && count <= acqCount
    ensures acqCount * c.Unit() <= c.ByteCapacity()
    ensures 0 < n <= c.ByteCapacity() ==>
              (StartOffset(c, acqCount, next) == (next + c.ByteCapacity() - n) % c.ByteCapacity()
               <==> acqCount * c.Unit() == n)
    ensures count * c.Unit() == acqCount * c.Unit() <==> count == acqCount
  {
    Fits(c, acqCount);
    MultiplyMonotone(1, acqCount, c.Unit());
    if 0 < n <= c.ByteCapacity() {
      StartsAgreeIff(next, c.ByteCapacity(), acqCount * c.Unit(), n);
    }
    if count < acqCount {
      MultiplyMonotone(count + 1, acqCount, c.Unit());
    }
  }

  /** Other events leave a window that goes on being sent alone. */
  lemma StepKeepsWindow(c: Config, w: World, e: Event)
    requires Invariant(c, w) && !BuildsHeader(w, e)
    ensures var w' := Step(c, w, e).0;
            w'.r.comm != Idle ==>
              && w.r.comm != Idle && w'.r.start == w.r.start && WindowBytes(w') == WindowBytes(w)
              && w'.hw.next == w.hw.next && w'.ring == w.ring
  {
  }

  /** What a receiver knows of a transfer: the window announced by the last header and the
      data packets sent since. */
  datatype Session = Session(window: seq<byte>, sent: set<(nat, seq<byte>)>)

  ghost function NextSession(c: Config, w: World, packet: Option<Packet>, s: Session): Session
    requires Sound(c, w)
  {
    match packet
    case Some(Header(_, _, _, _, _, byteCount, _, _)) =>
      Session(if byteCount <= |w.ring| then LastBytes(w.ring, w.hw.next, byteCount) else [], {})
    case Some(Data(_, _, _, block, payload)) => s.(sent := s.sent + {(block, payload)})
    case None => s
  }

  /** Any collection of sent blocks that has them all gives back the window, byte for byte. */
  ghost predicate Rebuilds(s: Session) {
    forall blocks: map<nat, seq<byte>> ::
      (forall b :: b in blocks ==> (b, blocks[b]) in s.sent)
      && (forall b :: 0 <= b < BlockCount(|s.window|) ==> b in blocks)
      ==> Assemble(blocks, BlockCount(|s.window|)) == s.window
  }

  ghost predicate Truthful(c: Config, w: World, packet: Packet, s: Session)
  {
    && packet.bpm == c.bpm && packet.recorder == c.recorder && packet.waveform == w.r.waveform
    && match packet
       case Header(_, _, _, seconds, fraction, byteCount, _, _) =>
         seconds == w.hw.seconds && fraction == w.hw.fraction
         && byteCount == |s.window| == w.r.acqCount * c.Unit()
       case Data(_, _, _, block, payload) =>
         PAYLOAD * block < |s.window| && payload == Block(s.window, block)
  }

  /** Every packet of the run tells the truth about the last bytes written before the header. */
  ghost predicate RunTruthful(c: Config, w: World, s: Session, events: seq<Event>)
    requires Sound(c, w)
    decreases |events|
  {
    if events == [] then true else
      var (w', packet) := Step(c, w, events[0]);
      var s' := NextSession(c, w', packet, s);
      && (packet.Some? ==> Truthful(c, w', packet.value, s'))
      && Rebuilds(s')
      && RunTruthful(c, w', s', events[1..])
  }

  /** Every header of the run is built with a fitting count. */
  ghost predicate RunFits(c: Config, w: World, events: seq<Event>)
    requires Sound(c, w)
    decreases |events|
  {
    if events == [] then true else
      CountFits(c, w, events[0]) && RunFits(c, Step(c, w, events[0]).0, events[1..])
  }

  /** The window is in place at all times of a run. */
  ghost predicate InPlaceThroughout(c: Config, w: World, events: seq<Event>)
    requires Sound(c, w)
    decreases |events|
  {
    InPlace(c, w) && (events != [] ==> InPlaceThroughout(c, Step(c, w, events[0]).0, events[1..]))
  }

  /** For every run: the window is in place at all times if and only if every header is built with
      a fitting count. */
  lemma {:induction false} RunStaysInPlaceIff(c: Config, w: World, events: seq<Event>)
    requires Invariant(c, w) && InPlace(c, w)
    ensures InPlaceThroughout(c, w, events) <==> RunFits(c, w, events)
    decreases |events|
  {
    hide InPlace, CountFits, Step;
    if events != [] {
      var w' := Step(c, w, events[0]).0;
      StepKeepsInvariant(c, w, events[0]);
      PlacementIsKeptIff(c, w, events[0]);
      if InPlace(c, w') {
        RunStaysInPlaceIff(c, w', events[1..]);
      }
    }
  }

  ghost predicate SessionSound(c: Config, w: World, s: Session)
    requires Sound(c, w)
  {
    && (w.r.comm != Idle ==> s.window == CurrentWindow(c, w))
    && forall x :: x in s.sent ==> x.1 == Block(s.window, x.0)
  }

  lemma SoundSessionRebuilds(c: Config, w: World, s: Session)
    requires Sound(c, w) && SessionSound(c, w, s)
    ensures Rebuilds(s)
  {
    forall blocks: map<nat, seq<byte>> |
      && (forall b :: b in blocks ==> (b, blocks[b]) in s.sent)
      && (forall b :: 0 <= b < BlockCount(|s.window|) ==> b in blocks)
      ensures Assemble(blocks, BlockCount(|s.window|)) == s.window
    {
      forall b | 0 <= b < BlockCount(|s.window|)
        ensures b in blocks && blocks[b] == Block(s.window, b)
      {
        assert (b, blocks[b]) in s.sent;
      }
      CollectedBlocksRebuild(blocks, s.window);
    }
  }

  /** In place, the window is the last bytes before the write position. */
  lemma WindowInPlace(c: Config, w: World)
    requires Invariant(c, w) && InPlace(c, w) && w.r.comm != Idle
    ensures WindowBytes(w) <= |w.ring| && CurrentWindow(c, w) == LastBytes(w.ring, w.hw.next, WindowBytes(w))
  {
  }

  /** A transfer goes on sending the window it announced. */
  lemma WindowIsStable(c: Config, w: World, e: Event)
    requires Invariant(c, w) && InPlace(c, w) && CountFits(c, w, e)
    ensures var (w', packet) := Step(c, w, e);
            w'.r.comm != Idle && !(packet.Some? && packet.value.Header?) ==>
              w.r.comm != Idle && CurrentWindow(c, w') == CurrentWindow(c, w)
  {
    PlacementIsKeptIff(c, w, e);
    if !BuildsHeader(w, e) {
      StepKeepsWindow(c, w, e);
    }
  }

  /** What every packet says, in terms of the state it leaves behind. */
  lemma PacketMatchesWindow(c: Config, w: World, e: Event)
    requires Invariant(c, w)
    ensures var (w', packet) := Step(c, w, e);
            packet.Some? ==>
              && w'.r.comm == (if packet.value.Header? then HeaderSent else Sending)
              && packet.value ==
                 if packet.value.Header? then
                   Header(c.bpm, c.recorder, w'.r.waveform, w'.hw.seconds, w'.hw.fraction, WindowBytes(w'),
                          c.bytesPerSample, c.bytesPerAtom)
                 else
                   Data(c.bpm, c.recorder, w'.r.waveform, w'.r.txBlock, Block(CurrentWindow(c, w'), w'.r.txBlock))
  {
    StepKeepsInvariant(c, w, e);
    PacketSaysWhere(c, w, e);
    var (w', packet) := Step(c, w, e);
    hide Step, CurrentWindow, Window, Block;
    if w'.r.comm == Sending {
      DataIsBlockOfWindow(c, w');
    }
  }

  /** The same in terms of ring and position. */
  lemma PacketSaysWhere(c: Config, w: World, e: Event)
    requires Invariant(c, w)
    ensures var (w', packet) := Step(c, w, e);
            packet.Some? ==>
              && w'.r.comm == (if packet.value.Header? then HeaderSent else Sending)
              && packet.value ==
                 if packet.value.Header? then
                   Header(c.bpm, c.recorder, w'.r.waveform, w'.hw.seconds, w'.hw.fraction, WindowBytes(w'),
                          c.bytesPerSample, c.bytesPerAtom)
                 else
                   Data(c.bpm, c.recorder, w'.r.waveform, w'.r.txBlock,
                        Window(w'.ring, (w'.r.start + w'.r.txBlock * PAYLOAD) % c.ByteCapacity(),
                               Min(w'.r.bytesLeft, PAYLOAD)))
  {
    hide Window;
  }

  /** A full ring is announced if there is a buffer for the header, and forgotten if there is not. */
  lemma HeaderIsSentIff(c: Config, w: World, now: nat, gotBuffer: bool)
    requires Invariant(c, w) && w.r.comm == Idle
    ensures var (w', packet) := Step(c, w, Scan(now, gotBuffer));
            && (packet.Some? <==> w.hw.full && gotBuffer)
            && (w'.r.comm == HeaderSent <==> packet.Some?)
            && (w.hw.full ==> !w'.hw.armed && w'.hw.triggers == 0)
            && !w'.hw.full && w'.ring == w.ring && w'.hw.next == w.hw.next && w'.r.waveform == w.r.waveform
            && w'.hw.acqCount == w.hw.acqCount && w'.r.acqCount == w.r.acqCount
  {
  }

  /** An accepted acknowledgement is answered with the next block if there is one and a buffer for it;
      otherwise the transfer is over. */
  lemma AnswerMovesOn(c: Config, w: World, ack: Ack, now: nat, gotBuffer: bool)
    requires Invariant(c, w) && Accepted(c, w.r, ack)
    ensures var (w', packet) := Step(c, w, AckReceived(ack, now, gotBuffer));
            var block := if w.r.comm == HeaderSent then 0 else w.r.txBlock + 1;
            if gotBuffer && PAYLOAD * block < WindowBytes(w) then
              && w'.r.comm == Sending && w'.r.txBlock == block && CurrentWindow(c, w') == CurrentWindow(c, w)
              && packet == Some(Data(c.bpm, c.recorder, w.r.waveform, block, Block(CurrentWindow(c, w), block)))
            else w'.r.comm == Idle && packet == None
  {
    PacketMatchesWindow(c, w, AckReceived(ack, now, gotBuffer));
    StepKeepsWindow(c, w, AckReceived(ack, now, gotBuffer));
  }

  /** A header that is sent announces the whole acquisition count. */
  lemma HeaderAnnouncesCount(c: Config, w: World, e: Event)
    requires Invariant(c, w) && CountFits(c, w, e)
    ensures var (w', packet) := Step(c, w, e);
            packet.Some? && packet.value.Header? ==> WindowBytes(w') == w'.r.acqCount * c.Unit()
  {
  }

  lemma StepKeepsSession(c: Config, w: World, s: Session, e: Event)
    requires Invariant(c, w) && InPlace(c, w) && CountFits(c, w, e) && SessionSound(c, w, s)
    ensures var (w', packet) := Step(c, w, e);
            var s' := NextSession(c, w', packet, s);
            && SessionSound(c, w', s')
            && (packet.Some? ==> Truthful(c, w', packet.value, s'))
  {
    StepKeepsInvariant(c, w, e);
    PlacementIsKeptIff(c, w, e);
    WindowIsStable(c, w, e);
    PacketMatchesWindow(c, w, e);
    HeaderAnnouncesCount(c, w, e);
    var w' := Step(c, w, e).0;
    hide Step, CountFits;
    if w'.r.comm != Idle {
      WindowInPlace(c, w');
    }
  }

  /** For every run of scans, acknowledgements, commands and acquisitions in which headers are
      built with fitting counts. */
  lemma {:induction false} EveryRunIsTruthful(c: Config, w: World, s: Session, events: seq<Event>)
    requires Invariant(c, w) && InPlace(c, w) && SessionSound(c, w, s) && RunFits(c, w, events)
    ensures RunTruthful(c, w, s, events)
    decreases |events|
  {
    if events != [] {
      var (w', packet) := Step(c, w, events[0]);
      StepKeepsInvariant(c, w, events[0]);
      PlacementIsKeptIff(c, w, events[0]);
      StepKeepsSession(c, w, s, events[0]);
      var s' := NextSession(c, w', packet, s);
      SoundSessionRebuilds(c, w', s');
      EveryRunIsTruthful(c, w', s', events[1..]);
    }
  }

  /** The count that was armed is still in force until the header is acknowledged. */
  predicate CountsAgree(c: Config, w: World) {
    && (w.hw.armed || w.hw.full || w.r.comm == HeaderSent ==> w.hw.acqCount == w.r.acqCount)
    && (w.r.comm == HeaderSent ==> w.r.bytesLeft == w.r.acqCount * c.Unit())
  }

  ghost predicate RunCalm(c: Config, w: World, events: seq<Event>)
    requires Sound(c, w)
    decreases |events|
  {
    if events == [] then true else
      Calm(w, events[0]) && RunCalm(c, Step(c, w, events[0]).0, events[1..])
  }

  /** It is enough that the acquisition count is left alone from arming until the header is
      acknowledged. */
  lemma {:induction false} CalmRunsFit(c: Config, w: World, events: seq<Event>)
    requires Invariant(c, w) && CountsAgree(c, w) && RunCalm(c, w, events)
    ensures RunFits(c, w, events)
    decreases |events|
  {
    if events != [] {
      StepKeepsInvariant(c, w, events[0]);
      CalmStepKeepsCounts(c, w, events[0]);
      CalmRunsFit(c, Step(c, w, events[0]).0, events[1..]);
    }
  }

  lemma CalmStepKeepsCounts(c: Config, w: World, e: Event)
    requires Invariant(c, w) && CountsAgree(c, w) && Calm(w, e)
    ensures CountFits(c, w, e) && CountsAgree(c, Step(c, w, e).0)
  {
  }
}
