/**
 What a receiver has of a waveform when the sender has moved on (software/src/waveformRecorder.c):
 one recorder, a receiver that acknowledges what it gets, and a network between them that may
 lose, repeat, delay and reorder packets and acknowledgements.
 */
module WfrDelivery {
  import opened Common
  import opened RingWindow
  import opened WfrProtocol
  import opened WfrRuns
  import opened WfrTermination

  /** What an acknowledgement answers. Both answers to the header and those to block 0 carry the
      number 0. */
  datatype Answer = ToHeader | ToBlock(block: nat)

  function NumberOf(a: Answer): nat {
    if a.ToHeader? then 0 else a.block
  }

  /** The acknowledgement a receiver writes. */
  function AckOf(c: Config, w: World, a: Answer): Ack {
    Ack(MAGIC_ACK, c.bpm, c.recorder, w.r.waveform, NumberOf(a))
  }

  /** `sent` are the data packets sent for the current waveform number, `announced` says whether a
      header was; `has` and `heard` are what of that has arrived. `window` is the window that is
      being sent or was sent last. Packets of earlier waveform numbers do not matter: nothing that
      answers them is accepted, as long as none survives 2^32 waveforms. */
  datatype System = System(w: World, window: seq<byte>, announced: bool, heard: bool,
                           sent: set<(nat, seq<byte>)>, has: set<(nat, seq<byte>)>)

  /** An event of the recorder itself; or the arrival of a header, of a data packet, or of an
      acknowledgement. */
  datatype NetEvent =
    | Local(e: Event)
    | HeaderArrives
    | BlockArrives(block: nat, payload: seq<byte>)
    | AnswerArrives(to: Answer, now: nat, gotBuffer: bool)

  ghost predicate Has(y: System, block: nat) {
    exists x :: x in y.has && x.0 == block
  }

  /** Only what has been sent arrives, and the receiver only answers what has arrived. Any other
      acknowledgement is one that the recorder does not accept. */
  ghost predicate Possible(c: Config, y: System, e: NetEvent) {
    match e
    case Local(e) => e.AckReceived? ==> !Accepted(c, y.w.r, e.ack)
    case HeaderArrives => y.announced
    case BlockArrives(block, payload) => (block, payload) in y.sent
    case AnswerArrives(to, _, _) => if to.ToHeader? then y.heard else Has(y, to.block)
  }

  /** The event as the recorder sees it. */
  function Seen(c: Config, w: World, e: NetEvent): Option<Event> {
    match e
    case Local(e) => Some(e)
    case AnswerArrives(to, now, gotBuffer) => Some(AckReceived(AckOf(c, w, to), now, gotBuffer))
    case _ => None
  }

  /** What a step of the recorder means for the network: a new waveform number starts afresh. */
  ghost function AfterStep(c: Config, y: System, result: Result): System
    requires Sound(c, result.0)
  {
    var (w, packet) := result;
    var window := if w.r.comm == Idle then y.window else CurrentWindow(c, w);
    if w.r.waveform != y.w.r.waveform then System(w, window, false, false, {}, {})
    else
      match packet
      case None => y.(w := w, window := window)
      case Some(Header(_, _, _, _, _, _, _, _)) => y.(w := w, window := window, announced := true)
      case Some(Data(_, _, _, block, payload)) => y.(w := w, window := window, sent := y.sent + {(block, payload)})
  }

  ghost function NetStep(c: Config, y: System, e: NetEvent): (y': System)
    requires Sound(c, y.w)
    ensures Sound(c, y'.w)
  {
    if !Possible(c, y, e) then y
    else
      match e
      case HeaderArrives => y.(heard := true)
      case BlockArrives(block, payload) => y.(has := y.has + {(block, payload)})
      case _ => AfterStep(c, y, Step(c, y.w, Seen(c, y.w, e).value))
  }

  /** Everything sent is its block of the window. */
  ghost predicate OfWindow(sent: set<(nat, seq<byte>)>, window: seq<byte>) {
    forall x :: x in sent ==> PAYLOAD * x.0 < |window| && x.1 == Block(window, x.0)
  }

  /** The transfer has ended with the acknowledgement of its last block. */
  predicate Finished(y: System) {
    y.announced && y.w.r.comm == Idle && y.w.r.bytesLeft == 0
  }

  /** What holds between any two events. */
  ghost predicate NetInvariant(c: Config, y: System): (holds: bool)
    ensures holds ==> Sound(c, y.w)
  {
    && Invariant(c, y.w)
    && y.has <= y.sent && (y.heard ==> y.announced) && (!y.announced ==> y.sent == {})
    && (y.w.hw.armed || y.w.hw.full ==> !y.announced)
    && (y.w.r.comm != Idle ==> y.announced && y.window == CurrentWindow(c, y.w))
    && (y.w.r.comm == HeaderSent ==> y.sent == {})
    && (y.announced && y.w.r.comm != HeaderSent ==> OfWindow(y.sent, y.window))
    && (Finished(y) ==> BlockCount(|y.window|) == y.w.r.txBlock)
  }

  /** A new waveform number ends the transfer before it; without one nothing is acquired. */
  lemma NumberIsNew(c: Config, w: World, e: Event)
    requires Invariant(c, w)
    ensures var w' := Step(c, w, e).0;
            if w'.r.waveform != w.r.waveform then w'.r.comm == Idle && Step(c, w, e).1 == None
            else w'.hw.armed || w'.hw.full ==> w.hw.armed || w.hw.full
  {
  }

  /** A header is sent while nothing of the window is; data packets are blocks of the window that
      goes on being sent. */
  lemma PacketsAreOfWindow(c: Config, y: System, e: Event)
    requires NetInvariant(c, y)
    ensures var (w', packet) := Step(c, y.w, e);
            && (packet.Some? ==> w'.r.comm == if packet.value.Header? then HeaderSent else Sending)
            && (w'.r.comm == HeaderSent ==>
                  y.sent == {} && (y.announced || (packet.Some? && packet.value.Header?)))
            && (w'.r.comm == Sending ==>
                  && y.announced
                  && OfWindow(y.sent, CurrentWindow(c, w'))
                  && (packet.Some? ==>
                        && PAYLOAD * packet.value.block < WindowBytes(w')
                        && packet.value.payload == Block(CurrentWindow(c, w'), packet.value.block)))
  {
    StepKeepsInvariant(c, y.w, e);
    PacketMatchesWindow(c, y.w, e);
    SendingGoesOn(c, y.w, e);
    hide CurrentWindow, Block;
  }

  /** A window that is being sent stays as it is. */
  lemma SendingGoesOn(c: Config, w: World, e: Event)
    requires Invariant(c, w)
    ensures var (w', packet) := Step(c, w, e);
            && (w'.r.comm == Sending ==>
                  w.r.comm != Idle && (w.r.comm == Sending ==> CurrentWindow(c, w') == CurrentWindow(c, w)))
            && (w'.r.comm == HeaderSent && w.r.comm == Sending ==> false)
            && (w'.r.comm == HeaderSent && w.r.comm == Idle ==> w.hw.full && packet.Some? && packet.value.Header?)
  {
    if !BuildsHeader(w, e) {
      StepKeepsWindow(c, w, e);
    }
  }

  /** A transfer ends with nothing left only by the acknowledgement of its last block. */
  lemma NothingIsLeft(c: Config, w: World, e: Event)
    requires Invariant(c, w)
    ensures var w' := Step(c, w, e).0;
            w'.r.comm == Idle && w'.r.waveform == w.r.waveform ==>
              if w.r.comm == Idle then w'.r.bytesLeft == w.r.bytesLeft && w'.r.txBlock == w.r.txBlock
              else w'.r.bytesLeft == 0 ==>
                w.r.comm == Sending && w.r.bytesLeft <= PAYLOAD && w'.r.txBlock == w.r.txBlock + 1
  {
  }

  lemma EndsAtLastBlock(c: Config, y: System, e: Event)
    requires NetInvariant(c, y)
    ensures var y' := AfterStep(c, y, Step(c, y.w, e));
            Finished(y') ==> BlockCount(|y'.window|) == y'.w.r.txBlock
  {
    NothingIsLeft(c, y.w, e);
    NumberIsNew(c, y.w, e);
    PacketsAreOfWindow(c, y, e);
    hide Step, OfWindow, CurrentWindow;
  }

  /** However an acknowledgement came about. */
  lemma RecorderKeepsNetwork(c: Config, y: System, e: Event)
    requires NetInvariant(c, y)
    ensures NetInvariant(c, AfterStep(c, y, Step(c, y.w, e)))
  {
    StepKeepsInvariant(c, y.w, e);
    NumberIsNew(c, y.w, e);
    PacketsAreOfWindow(c, y, e);
    EndsAtLastBlock(c, y, e);
    hide Step, Invariant, CurrentWindow, Block;
  }

  lemma StepKeepsNetwork(c: Config, y: System, e: NetEvent)
    requires NetInvariant(c, y)
    ensures NetInvariant(c, NetStep(c, y, e))
  {
    hide Invariant, CurrentWindow, OfWindow, AfterStep, Step;
    if Seen(c, y.w, e).Some? {
      RecorderKeepsNetwork(c, y, Seen(c, y.w, e).value);
    }
  }

  /** The receiver has every block that the sender has left behind. */
  ghost predicate Delivered(y: System) {
    y.announced ==> forall n :: 0 <= n < y.w.r.txBlock ==> Has(y, n)
  }

  /** An answer to a header is taken for one to block 0. */
  ghost predicate Mistaken(c: Config, y: System, e: NetEvent) {
    && e.AnswerArrives? && e.to.ToHeader? && Possible(c, y, e)
    && y.w.r.comm == Sending && y.w.r.txBlock == 0
  }

  /** The sender leaves a block only for an accepted acknowledgement of its number. */
  lemma BlockIsLeft(c: Config, w: World, e: Event)
    requires Invariant(c, w)
    ensures var (w', packet) := Step(c, w, e);
            if e.AckReceived? && Accepted(c, w.r, e.ack) && w.r.comm == Sending then
              w'.r.waveform == w.r.waveform && e.ack.block == w.r.txBlock && w'.r.txBlock == w.r.txBlock + 1
            else if packet.Some? && packet.value.Header? then w'.r.txBlock == 0
            else w'.r.txBlock == w.r.txBlock
  {
  }

  /** What the receiver has when a block is left: that block, if and only if the answer was not to
      a header. */
  lemma LeavingMeansReceivedIff(c: Config, w: World, a: Answer, now: nat, gotBuffer: bool)
    requires Invariant(c, w) && w.r.comm == Sending && Accepted(c, w.r, AckOf(c, w, a))
    ensures (forall y: System :: y.w == w && NetInvariant(c, y) && Possible(c, y, AnswerArrives(a, now, gotBuffer)) ==>
               Has(y, w.r.txBlock))
            <==> !a.ToHeader?
  {
    if a.ToHeader? {
      var y := System(w, CurrentWindow(c, w), true, true, {}, {});
      assert NetInvariant(c, y) && Possible(c, y, AnswerArrives(a, now, gotBuffer)) && !Has(y, w.r.txBlock);
    }
  }

  /** Exactly one kind of event breaks delivery: a mistaken answer while the receiver has no block
      0. */
  lemma StepDeliversIff(c: Config, y: System, e: NetEvent)
    requires NetInvariant(c, y) && Delivered(y)
    ensures Delivered(NetStep(c, y, e)) <==> (Mistaken(c, y, e) ==> Has(y, 0))
  {
    hide CurrentWindow, OfWindow, Step;
    if Possible(c, y, e) && Seen(c, y.w, e).Some? {
      var seen := Seen(c, y.w, e).value;
      BlockIsLeft(c, y.w, seen);
      NumberIsNew(c, y.w, seen);
      PacketsAreOfWindow(c, y, seen);
      var y' := NetStep(c, y, e);
      assert y'.announced ==> y'.has == y.has && forall n :: Has(y', n) <==> Has(y, n);
    } else {
      assert forall n :: Has(y, n) ==> Has(NetStep(c, y, e), n);
    }
  }

  ghost function NetRun(c: Config, y: System, events: seq<NetEvent>): (y': System)
    requires Sound(c, y.w)
    ensures Sound(c, y'.w)
    decreases |events|
  {
    if events == [] then y else NetRun(c, NetStep(c, y, events[0]), events[1..])
  }

  ghost predicate DeliveredThroughout(c: Config, y: System, events: seq<NetEvent>)
    requires Sound(c, y.w)
    decreases |events|
  {
    Delivered(y) && (events != [] ==> DeliveredThroughout(c, NetStep(c, y, events[0]), events[1..]))
  }

  /** Whenever an answer to a header is mistaken for one to block 0, the receiver has block 0. */
  ghost predicate MistakesAreHarmless(c: Config, y: System, events: seq<NetEvent>)
    requires Sound(c, y.w)
    decreases |events|
  {
    events != [] ==>
      && (Mistaken(c, y, events[0]) ==> Has(y, 0))
      && MistakesAreHarmless(c, NetStep(c, y, events[0]), events[1..])
  }

  /** For every run: at all times the receiver has every block that the sender has left behind, if
      and only if no mistaken answer arrives before block 0 has. */
  lemma {:induction false} RunDeliversIff(c: Config, y: System, events: seq<NetEvent>)
    requires NetInvariant(c, y) && Delivered(y)
    ensures NetInvariant(c, NetRun(c, y, events))
    ensures DeliveredThroughout(c, y, events) <==> MistakesAreHarmless(c, y, events)
    ensures MistakesAreHarmless(c, y, events) ==> Delivered(NetRun(c, y, events))
    decreases |events|
  {
    hide NetInvariant, NetStep, Delivered, Mistaken;
    if events != [] {
      var y' := NetStep(c, y, events[0]);
      StepKeepsNetwork(c, y, events[0]);
      StepDeliversIff(c, y, events[0]);
      if Delivered(y') {
        RunDeliversIff(c, y', events[1..]);
      } else {
        RunKeepsNetwork(c, y', events[1..]);
      }
    }
  }

  lemma {:induction false} RunKeepsNetwork(c: Config, y: System, events: seq<NetEvent>)
    requires NetInvariant(c, y)
    ensures NetInvariant(c, NetRun(c, y, events))
    decreases |events|
  {
    hide NetInvariant, NetStep;
    if events != [] {
      StepKeepsNetwork(c, y, events[0]);
      RunKeepsNetwork(c, NetStep(c, y, events[0]), events[1..]);
    }
  }

  /** The receiver has all of the window, and any way of putting it together gives the window. */
  ghost predicate HasWindow(y: System) {
    && (forall n :: 0 <= n < BlockCount(|y.window|) ==> Has(y, n))
    && Rebuilds(Session(y.window, y.has))
  }

  /** A transfer that has ended with its last acknowledgement is complete. */
  lemma FinishedIsWhole(c: Config, y: System)
    requires NetInvariant(c, y) && Delivered(y) && Finished(y)
    ensures HasWindow(y)
  {
    BlocksRebuild(y.has, y.window);
  }

  lemma BlocksRebuild(sent: set<(nat, seq<byte>)>, window: seq<byte>)
    requires OfWindow(sent, window)
    ensures Rebuilds(Session(window, sent))
  {
    forall blocks: map<nat, seq<byte>> |
      && (forall b :: b in blocks ==> (b, blocks[b]) in sent)
      && (forall b :: 0 <= b < BlockCount(|window|) ==> b in blocks)
      ensures Assemble(blocks, BlockCount(|window|)) == window
    {
      forall b | 0 <= b < BlockCount(|window|)
        ensures b in blocks && blocks[b] == Block(window, b)
      {
        assert (b, blocks[b]) in sent;
      }
      CollectedBlocksRebuild(blocks, window);
    }
  }

  /** The window is the last bytes that were written, also after the transfer. */
  ghost predicate LastWritten(c: Config, y: System)
    requires Sound(c, y.w)
  {
    && InPlace(c, y.w)
    && (y.announced ==>
          |y.window| <= |y.w.ring| && y.window == LastBytes(y.w.ring, y.w.hw.next, |y.window|))
  }

  ghost predicate NetFits(c: Config, y: System, events: seq<NetEvent>)
    requires Sound(c, y.w)
    decreases |events|
  {
    events != [] ==>
      && (Seen(c, y.w, events[0]).Some? ==> CountFits(c, y.w, Seen(c, y.w, events[0]).value))
      && NetFits(c, NetStep(c, y, events[0]), events[1..])
  }

  lemma StepKeepsLastWritten(c: Config, y: System, e: NetEvent)
    requires NetInvariant(c, y) && LastWritten(c, y)
    requires Seen(c, y.w, e).Some? ==> CountFits(c, y.w, Seen(c, y.w, e).value)
    ensures LastWritten(c, NetStep(c, y, e))
  {
    if Possible(c, y, e) && Seen(c, y.w, e).Some? {
      var seen := Seen(c, y.w, e).value;
      var w' := Step(c, y.w, seen).0;
      StepKeepsInvariant(c, y.w, seen);
      PlacementIsKeptIff(c, y.w, seen);
      PacketsAreOfWindow(c, y, seen);
      RingIsKept(c, y.w, seen);
      hide Step, CountFits, OfWindow;
      if w'.r.comm != Idle {
        WindowInPlace(c, w');
      }
    }
  }

  lemma RingIsKept(c: Config, w: World, e: Event)
    requires Sound(c, w)
    ensures var w' := Step(c, w, e).0;
            !w.hw.armed ==> w'.ring == w.ring && w'.hw.next == w.hw.next
  {
  }

  /** The recorder with a network that has not carried anything for its next waveform number. */
  ghost function Start(w: World): System {
    System(w, [], false, false, {}, {})
  }

  /** End to end, for every run of commands, acquisitions, timeouts, losses, repeats and delays from
      an idle recorder: when the last acknowledgement has arrived, the receiver has the last bytes
      that were written, in time order. Headers must be built with fitting counts, and an answer to
      a header must not be mistaken for one to a block that is missing. */
  lemma EveryRunDelivers(c: Config, w: World, events: seq<NetEvent>)
    requires Invariant(c, w) && w.r.comm == Idle
    requires NetFits(c, Start(w), events) && MistakesAreHarmless(c, Start(w), events)
    ensures var y := NetRun(c, Start(w), events);
            Finished(y) ==>
              HasWindow(y) && |y.window| <= |y.w.ring| && y.window == LastBytes(y.w.ring, y.w.hw.next, |y.window|)
  {
    var y := NetRun(c, Start(w), events);
    RunDeliversIff(c, Start(w), events);
    RunKeepsLastWritten(c, Start(w), events);
    if Finished(y) {
      FinishedIsWhole(c, y);
    }
  }

  lemma {:induction false} RunKeepsLastWritten(c: Config, y: System, events: seq<NetEvent>)
    requires NetInvariant(c, y) && LastWritten(c, y) && NetFits(c, y, events)
    ensures LastWritten(c, NetRun(c, y, events))
    decreases |events|
  {
    hide NetInvariant, NetStep, LastWritten, CountFits;
    if events != [] {
      StepKeepsNetwork(c, y, events[0]);
      StepKeepsLastWritten(c, y, events[0]);
      RunKeepsLastWritten(c, NetStep(c, y, events[0]), events[1..]);
    }
  }

  lemma HeaderIsRetried(c: Config, y: System, now: nat)
    requires NetInvariant(c, y) && y.w.r.comm == HeaderSent
    requires TimedOut(y.w.r, now) && y.w.r.retryCount + 1 < RETRY_LIMIT
    ensures var y' := NetStep(c, y, Local(Scan(now, true)));
            y'.w.r.comm == HeaderSent && y'.heard == y.heard && y'.has == {}
  {
  }

  lemma HeaderIsAnswered(c: Config, y: System, now: nat)
    requires NetInvariant(c, y) && y.w.r.comm == HeaderSent && y.heard && y.has == {}
    ensures var y' := NetStep(c, y, AnswerArrives(ToHeader, now, true));
            y'.w.r.comm == Sending && y'.w.r.txBlock == 0 && y'.heard && y'.has == {}
  {
  }

  lemma AnswerIsMistaken(c: Config, y: System, now: nat)
    requires NetInvariant(c, y) && y.w.r.comm == Sending && y.w.r.txBlock == 0 && y.heard && y.has == {}
    ensures var y' := NetStep(c, y, AnswerArrives(ToHeader, now, true));
            && y'.has == {} && !Delivered(y') && y'.w.r.txBlock == 1
            && (if PAYLOAD < |y'.window| then y'.w.r.comm == Sending else Finished(y'))
  {
    StepKeepsNetwork(c, y, AnswerArrives(ToHeader, now, true));
    StepDeliversIff(c, y, AnswerArrives(ToHeader, now, true));
    SendingGoesOn(c, y.w, AckReceived(AckOf(c, y.w, ToHeader), now, true));
  }

  /** Nothing needs to be duplicated for a mistake: a header whose answer is late is sent again, and
      both are answered as they should be. Then the sender leaves block 0, or ends a transfer of one
      block, while the receiver has nothing. */
  lemma RetriedHeaderIsMistaken(c: Config, y: System, now: nat, later: nat)
    requires NetInvariant(c, y) && y.w.r.comm == HeaderSent
    requires TimedOut(y.w.r, now) && y.w.r.retryCount + 1 < RETRY_LIMIT
    ensures var answer := AnswerArrives(ToHeader, later, true);
            var retried := NetStep(c, NetStep(c, y, HeaderArrives), Local(Scan(now, true)));
            var answered := NetStep(c, retried, answer);
            var end := NetStep(c, NetStep(c, answered, HeaderArrives), answer);
            && end.has == {} && !Delivered(end) && end.w.r.txBlock == 1
            && (if PAYLOAD < |end.window| then end.w.r.comm == Sending else Finished(end))
  {
    var answer := AnswerArrives(ToHeader, later, true);
    var y1 := NetStep(c, y, HeaderArrives);
    StepKeepsNetwork(c, y, HeaderArrives);
    assert y1 == y.(heard := true);
    var y2 := NetStep(c, y1, Local(Scan(now, true)));
    HeaderIsRetried(c, y1, now);
    StepKeepsNetwork(c, y1, Local(Scan(now, true)));
    var y3 := NetStep(c, y2, answer);
    HeaderIsAnswered(c, y2, later);
    StepKeepsNetwork(c, y2, answer);
    var y4 := NetStep(c, y3, HeaderArrives);
    assert y4 == y3;
    AnswerIsMistaken(c, y4, later);
  }
}
