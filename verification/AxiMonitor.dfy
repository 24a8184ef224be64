/**
 The AXI write-channel monitor of the recorder's test bench
 (gateware/modules/genericWaveformRecorder_test/genericWaveformRecorder_test.py): a checker that
 sees one snapshot of the bus per clock. It is proved against a definition of a legal trace that
 has no state: every condition speaks of what was transferred before.
 */
module AxiMonitor {
  import opened Common

  /** The bus in one clock; write data is a sequence of 32-bit lanes, lowest lane first. */
  datatype Snapshot = Snapshot(awaddr: int, awlen: nat, awvalid: bool, awready: bool, awsize: nat,
                               wdata: seq<int>, wlast: bool, wvalid: bool, wready: bool, wstrb: nat)
  {
    predicate TakesAddress() { awvalid && awready }
    predicate TakesData() { wvalid && wready }
  }

  datatype Burst = Burst(addr: int, len: nat)
  datatype Beat = Beat(data: seq<int>, last: bool)

  /** What the monitor is told about an acquisition: the 32-bit lanes of the data bus, the bytes
      of the ring, where it starts, and whether the payload is the test pattern. */
  datatype Setup = Setup(lanes: nat, span: nat, base: int, testMode: bool)
  {
    predicate Valid() { 0 < lanes && 0 < span }
    function AxiBytes(): nat { 4 * lanes }
  }

  function Opened(s: Snapshot): seq<Burst> {
    if s.TakesAddress() then [Burst(s.awaddr, s.awlen)] else []
  }

  function Moved(s: Snapshot): seq<Beat> {
    if s.TakesData() then [Beat(s.wdata, s.wlast)] else []
  }

  function Bursts(trace: seq<Snapshot>): seq<Burst> {
    if trace == [] then []
    else Bursts(trace[..|trace| - 1]) + Opened(trace[|trace| - 1])
  }

  function Beats(trace: seq<Snapshot>): seq<Beat> {
    if trace == [] then []
    else Beats(trace[..|trace| - 1]) + Moved(trace[|trace| - 1])
  }

  /** Beats announced by some bursts. */
  function Announced(bursts: seq<Burst>): nat {
    if bursts == [] then 0 else Announced(bursts[..|bursts| - 1]) + bursts[|bursts| - 1].len + 1
  }

  function FlipBit(x: int, weight: int): int
    requires 0 < weight
  {
    if x / weight % 2 == 1 then x - weight else x + weight
  }

  /** Exclusive or with 0xA000_0000. */
  function TestPattern(x: int): int {
    FlipBit(FlipBit(x, 0x2000_0000), 0x8000_0000)
  }

  /** How the data source marks sample `n`, and how the number is read back from a lane. */
  function Lane(testMode: bool, n: int): int {
    if testMode then TestPattern(n) else (0x1000_0000 + n) % U32
  }

  function SampleNumber(testMode: bool, lane: int): int {
    if testMode then TestPattern(lane) else (lane - 0x1000_0000) % U32
  }

  lemma TestPatternTwice(x: int)
    requires 0 <= x < U32
    ensures 0 <= TestPattern(x) < U32 && TestPattern(TestPattern(x)) == x
  {
    var y := FlipBit(x, 0x2000_0000);
    assert 0 <= y < U32 && FlipBit(y, 0x2000_0000) == x;
    var z := FlipBit(y, 0x8000_0000);
    assert 0 <= z < U32;
    assert FlipBit(FlipBit(z, 0x8000_0000), 0x2000_0000) == x;
    assert FlipBit(FlipBit(z, 0x2000_0000), 0x8000_0000) == FlipBit(FlipBit(z, 0x8000_0000), 0x2000_0000);
  }

  /** It inverts bits 29 and 31 and leaves the others. */
  lemma TestPatternFlipsTwoBits(x: int)
    requires 0 <= x < U32
    ensures var y := TestPattern(x);
            && y / 0x8000_0000 == 1 - x / 0x8000_0000
            && y / 0x4000_0000 % 2 == x / 0x4000_0000 % 2
            && y / 0x2000_0000 % 2 == 1 - x / 0x2000_0000 % 2
            && y % 0x2000_0000 == x % 0x2000_0000
  {
    var a, b, c, d := x / 0x8000_0000, x / 0x4000_0000 % 2, x / 0x2000_0000 % 2, x % 0x2000_0000;
    TopBits(x);
    BitsOf(a, b, 1 - c, d);
    BitsOf(1 - a, b, 1 - c, d);
    assert FlipBit(x, 0x2000_0000) == Number(a, b, 1 - c, d);
    assert FlipBit(Number(a, b, 1 - c, d), 0x8000_0000) == Number(1 - a, b, 1 - c, d);
  }

  function Number(a: int, b: int, c: int, d: int): int {
    0x8000_0000 * a + 0x4000_0000 * b + 0x2000_0000 * c + d
  }

  lemma TopBits(x: int)
    requires 0 <= x < U32
    ensures 0 <= x / 0x8000_0000 < 2
    ensures x == Number(x / 0x8000_0000, x / 0x4000_0000 % 2, x / 0x2000_0000 % 2, x % 0x2000_0000)
  {
    var p, q := x / 0x4000_0000, x / 0x2000_0000;
    assert x == 0x2000_0000 * q + x % 0x2000_0000;
    assert q == 2 * p + q % 2 && p == 2 * (x / 0x8000_0000) + p % 2;
  }

  lemma BitsOf(a: int, b: int, c: int, d: int)
    requires 0 <= a < 2 && 0 <= b < 2 && 0 <= c < 2 && 0 <= d < 0x2000_0000
    ensures var x := Number(a, b, c, d);
            && x / 0x8000_0000 == a && x / 0x8000_0000 % 2 == a && x / 0x4000_0000 % 2 == b
            && x / 0x2000_0000 % 2 == c && x % 0x2000_0000 == d
  {
    var x := Number(a, b, c, d);
    assert x == 0x2000_0000 * (4 * a + 2 * b + c) + d;
    assert x / 0x2000_0000 == 4 * a + 2 * b + c;
    assert x / 0x4000_0000 == 2 * a + b;
  }

  lemma SampleNumberInvertsLane(testMode: bool, n: int)
    requires 0 <= n < U32
    ensures 0 <= Lane(testMode, n) < U32 && SampleNumber(testMode, Lane(testMode, n)) == n
    ensures 0 <= SampleNumber(testMode, n) < U32 && Lane(testMode, SampleNumber(testMode, n)) == n
  {
    hide TestPattern;
    TestPatternTwice(n);
    OffsetTwice(n);
  }

  lemma OffsetTwice(n: int)
    requires 0 <= n < U32
    ensures ((0x1000_0000 + n) % U32 - 0x1000_0000) % U32 == n
    ensures (0x1000_0000 + (n - 0x1000_0000) % U32) % U32 == n
  {
  }

  function Uniform(lanes: nat, value: int): seq<int> {
    seq(lanes, i => value)
  }

  /** The sample number the first of some beats carries. */
  function FirstSample(testMode: bool, beats: seq<Beat>): int
    requires beats != [] && beats[0].data != []
  {
    SampleNumber(testMode, beats[0].data[0])
  }

  function BitLength(n: nat): nat {
    if n == 0 then 0 else 1 + BitLength(n / 2)
  }

  function WaitingAddress(s: Snapshot): Option<Burst> {
    if s.awvalid && !s.awready then Some(Burst(s.awaddr, s.awlen)) else None
  }

  function WaitingData(s: Snapshot): Option<Beat> {
    if s.wvalid && !s.wready then Some(Beat(s.wdata, s.wlast)) else None
  }

  /** An offer that was not taken must be repeated unchanged for as long as it stands. */
  ghost predicate Held(past: seq<Snapshot>, s: Snapshot) {
    past != [] ==>
      var p := past[|past| - 1];
      && (p.awvalid && !p.awready && s.awvalid ==> s.awaddr == p.awaddr && s.awlen == p.awlen)
      && (p.wvalid && !p.wready && s.wvalid ==> s.wdata == p.wdata && s.wlast == p.wlast)
  }

  /** A burst starts where the announced data ends in the ring, once all of it has arrived. */
  ghost predicate AddressLegal(setup: Setup, bursts: seq<Burst>, beats: nat, s: Snapshot)
    requires setup.Valid()
  {
    s.TakesAddress() ==> beats == Announced(bursts) && s.awaddr == NextAddress(setup, beats)
  }

  function NextAddress(setup: Setup, beats: nat): int
    requires setup.Valid()
  {
    setup.base + beats * setup.AxiBytes() % setup.span
  }

  /** A beat belongs to announced data, says whether it completes it, and carries the sample
      after the one before. */
  ghost predicate DataLegal(setup: Setup, bursts: seq<Burst>, past: seq<Beat>, s: Snapshot)
    requires setup.Valid() && (past != [] ==> past[0].data != [])
  {
    s.TakesData() ==>
      && |past| < Announced(bursts)
      && (s.wlast <==> |past| + 1 == Announced(bursts))
      && PayloadLegal(setup, past, Beat(s.wdata, s.wlast))
  }

  ghost predicate PayloadLegal(setup: Setup, past: seq<Beat>, beat: Beat)
    requires setup.Valid() && (past != [] ==> past[0].data != [])
  {
    && |beat.data| == setup.lanes
    && beat.data == Uniform(setup.lanes,
                            Lane(setup.testMode, (FirstSample(setup.testMode, past + [beat]) + |past|) % U32))
  }

  ghost predicate Fits(setup: Setup, trace: seq<Snapshot>)
    requires setup.Valid()
  {
    forall t :: 0 <= t < |trace| ==> FitsOne(setup, trace[t])
  }

  ghost predicate FitsOne(setup: Setup, s: Snapshot)
    requires setup.Valid()
  {
    |s.wdata| == setup.lanes && forall i :: 0 <= i < |s.wdata| ==> 0 <= s.wdata[i] < U32
  }

  lemma {:induction false} BeatsFit(setup: Setup, trace: seq<Snapshot>)
    requires setup.Valid() && Fits(setup, trace)
    ensures forall k :: 0 <= k < |Beats(trace)| ==> |Beats(trace)[k].data| == setup.lanes
  {
    if trace != [] {
      assert FitsOne(setup, trace[|trace| - 1]);
      BeatsFit(setup, trace[..|trace| - 1]);
    }
  }

  ghost predicate Legal(setup: Setup, past: seq<Snapshot>, s: Snapshot)
    requires setup.Valid() && Fits(setup, past)
  {
    BeatsFit(setup, past);
    && SignalsLegal(setup.AxiBytes(), past, s)
    && AddressLegal(setup, Bursts(past), |Beats(past)|, s)
    && DataLegal(setup, Bursts(past) + Opened(s), Beats(past), s)
  }

  ghost predicate SignalsLegal(axiBytes: nat, past: seq<Snapshot>, s: Snapshot) {
    && s.awsize == BitLength(axiBytes) - 1
    && s.wstrb == Pow(2, axiBytes) - 1
    && Held(past, s)
  }

  /** A trace is legal when every clock is, given those before it. */
  ghost predicate Conforms(setup: Setup, trace: seq<Snapshot>)
    requires setup.Valid() && Fits(setup, trace)
  {
    trace == [] || (Conforms(setup, trace[..|trace| - 1]) && Legal(setup, trace[..|trace| - 1], trace[|trace| - 1]))
  }

  lemma NothingConforms(setup: Setup)
    requires setup.Valid()
    ensures Fits(setup, []) && Conforms(setup, [])
  {
  }

  /** A trace conforms up to and with clock `t`. */
  lemma OneMoreClock(setup: Setup, trace: seq<Snapshot>, t: nat)
    requires setup.Valid() && Fits(setup, trace) && t < |trace|
    ensures FitsOne(setup, trace[t]) && Fits(setup, trace[..t]) && Fits(setup, trace[..t + 1])
    ensures trace[..t + 1] == trace[..t] + [trace[t]]
    ensures Conforms(setup, trace[..t + 1]) <==> Conforms(setup, trace[..t]) && Legal(setup, trace[..t], trace[t])
  {
    hide Legal, FitsOne;
    assert trace[..t + 1][..t] == trace[..t];
  }

  method Repeated32(value: int, width: nat) returns (result: seq<int>)
    ensures result == Uniform(width / 32, value % U32)
  {
    result := [];
    for lane := 0 to width / 32
      invariant result == Uniform(lane, value % U32)
    {
      result := result + [value % U32];
    }
  }

  class TB {
    const lanes: nat
    const acqSpanBytes: nat
    var scoreTestMode: bool
    var scoreBaseAddr: int
    var scoreFirstAw: bool
    var expectedNextAwaddr: int
    var payloadSequenceStarted: bool
    var expectedSampleNumber: int
    var testAxiBeats: nat
    var burstActive: bool
    var burstBeatsLeft: int
    /** The offers that are waiting to be taken, if any (each a flag and its payload in the source). */
    var stalledAw: Option<Burst>
    var stalledW: Option<Beat>

    ghost function SetupNow(): Setup
      reads `scoreTestMode, `scoreBaseAddr
    {
      Setup(lanes, acqSpanBytes, scoreBaseAddr, scoreTestMode)
    }

    ghost predicate StallsKept(past: seq<Snapshot>)
      reads `stalledAw, `stalledW
    {
      if past == [] then stalledAw == None && stalledW == None
      else stalledAw == WaitingAddress(past[|past| - 1]) && stalledW == WaitingData(past[|past| - 1])
    }

    ghost predicate BurstKept(bursts: seq<Burst>, beats: nat)
      requires SetupNow().Valid()
      reads `burstActive, `burstBeatsLeft, `scoreFirstAw, `expectedNextAwaddr, `scoreTestMode, `scoreBaseAddr
    {
      && 0 <= burstBeatsLeft == Announced(bursts) - beats
      && (burstActive <==> 0 < burstBeatsLeft)
      && (scoreFirstAw <==> bursts == [])
      && (!scoreFirstAw ==> expectedNextAwaddr == NextAddress(SetupNow(), Announced(bursts)))
    }

    ghost predicate PayloadKept(beats: seq<Beat>)
      reads `payloadSequenceStarted, `expectedSampleNumber, `testAxiBeats, `scoreTestMode
    {
      && testAxiBeats == |beats|
      && (payloadSequenceStarted <==> beats != [])
      && (payloadSequenceStarted ==>
            beats[0].data != [] &&
            expectedSampleNumber == (FirstSample(scoreTestMode, beats) + |beats|) % U32)
    }

    /** The fields are what `past`, the clocks since the acquisition was programmed, makes them. */
    ghost predicate Tracks(past: seq<Snapshot>)
      reads this
    {
      && SetupNow().Valid()
      && Fits(SetupNow(), past)
      && StallsKept(past)
      && BurstKept(Bursts(past), |Beats(past)|)
      && PayloadKept(Beats(past))
    }

    constructor (lanes: nat, acqSpanBytes: nat)
      requires 0 < lanes && 0 < acqSpanBytes
      ensures Tracks([]) && this.lanes == lanes && this.acqSpanBytes == acqSpanBytes
    {
      this.lanes, this.acqSpanBytes := lanes, acqSpanBytes;
      scoreTestMode, scoreBaseAddr, scoreFirstAw, expectedNextAwaddr := false, 0, true, 0;
      payloadSequenceStarted, expectedSampleNumber, testAxiBeats := false, 0, 0;
      burstActive, burstBeatsLeft := false, 0;
      stalledAw, stalledW := None, None;
    }

    /** Starts a new acquisition; the bus must have come to rest. */
    method ProgramAcquisition(baseAddr: int, testMode: bool, ghost past: seq<Snapshot>)
      requires Tracks(past) && !burstActive && stalledAw == None && stalledW == None
      modifies this
      ensures Tracks([]) && SetupNow() == Setup(lanes, acqSpanBytes, baseAddr, testMode)
    {
      scoreBaseAddr := baseAddr;
      scoreFirstAw := true;
      scoreTestMode := testMode;
      payloadSequenceStarted := false;
      expectedSampleNumber := 0;
      testAxiBeats := 0;
    }

    method CheckStable(axi: Snapshot, ghost past: seq<Snapshot>) returns (ok: bool)
      requires StallsKept(past)
      modifies `stalledAw, `stalledW
      ensures ok <==> Held(past, axi)
      ensures ok ==> stalledAw == WaitingAddress(axi) && stalledW == WaitingData(axi)
    {
      if axi.awvalid {
        if stalledAw != None {
          if axi.awaddr != stalledAw.value.addr || axi.awlen != stalledAw.value.len {
            return false;
          }
        }
        if !axi.awready {
          stalledAw := Some(Burst(axi.awaddr, axi.awlen));
        } else {
          stalledAw := None;
        }
      } else {
        stalledAw := None;
      }
      if axi.wvalid {
        if stalledW != None {
          if axi.wdata != stalledW.value.data || axi.wlast != stalledW.value.last {
            return false;
          }
        }
        if !axi.wready {
          stalledW := Some(Beat(axi.wdata, axi.wlast));
        } else {
          stalledW := None;
        }
      } else {
        stalledW := None;
      }
      return true;
    }

    method CheckAddress(axi: Snapshot, ghost bursts: seq<Burst>, ghost beats: nat) returns (ok: bool)
      requires SetupNow().Valid() && BurstKept(bursts, beats)
      modifies `burstActive, `burstBeatsLeft, `scoreFirstAw, `expectedNextAwaddr
      ensures ok <==> AddressLegal(SetupNow(), bursts, beats, axi)
      ensures ok ==> BurstKept(bursts + Opened(axi), beats)
    {
      if axi.awvalid && axi.awready {
        if burstActive {
          return false;
        }
        burstActive := true;
        burstBeatsLeft := axi.awlen + 1;
        if scoreFirstAw {
          NothingAnnounced(SetupNow());
          if axi.awaddr != scoreBaseAddr {
            return false;
          }
          scoreFirstAw := false;
        } else if axi.awaddr != expectedNextAwaddr {
          return false;
        }
        AddressAdvances(SetupNow(), Announced(bursts), axi.awlen + 1);
        assert (bursts + Opened(axi))[..|bursts|] == bursts;
        expectedNextAwaddr := scoreBaseAddr
          + (axi.awaddr - scoreBaseAddr + (axi.awlen + 1) * (4 * lanes)) % acqSpanBytes;
      } else {
        assert bursts + Opened(axi) == bursts;
      }
      return true;
    }

    method CheckData(axi: Snapshot, ghost bursts: seq<Burst>, ghost beats: seq<Beat>) returns (ok: bool)
      requires SetupNow().Valid() && BurstKept(bursts, |beats|) && FitsOne(SetupNow(), axi)
      requires PayloadKept(beats)
      modifies `burstActive, `burstBeatsLeft, `payloadSequenceStarted, `expectedSampleNumber, `testAxiBeats
      ensures ok <==> DataLegal(SetupNow(), bursts, beats, axi)
      ensures ok ==> BurstKept(bursts, |beats + Moved(axi)|)
      ensures ok ==> PayloadKept(beats + Moved(axi))
    {
      hide NextAddress, SampleNumber, Lane;
      if axi.wvalid && axi.wready {
        if !burstActive {
          return false;
        }
        if axi.wlast != (burstBeatsLeft == 1) {
          return false;
        }
        ok := CheckPayload(axi, beats);
        if !ok {
          return;
        }
        testAxiBeats := testAxiBeats + 1;
        if burstBeatsLeft == 1 {
          burstBeatsLeft := 0;
          burstActive := false;
        } else {
          burstBeatsLeft := burstBeatsLeft - 1;
        }
      } else {
        assert beats + Moved(axi) == beats;
      }
      return true;
    }

    method CheckPayload(axi: Snapshot, ghost beats: seq<Beat>) returns (ok: bool)
      requires SetupNow().Valid() && FitsOne(SetupNow(), axi)
      requires PayloadKept(beats)
      modifies `payloadSequenceStarted, `expectedSampleNumber
      ensures ok <==> PayloadLegal(SetupNow(), beats, Beat(axi.wdata, axi.wlast))
      ensures ok ==> payloadSequenceStarted
      ensures ok ==> expectedSampleNumber
                     == (FirstSample(scoreTestMode, beats + [Beat(axi.wdata, axi.wlast)]) + |beats| + 1) % U32
    {
      var laneValue := axi.wdata[0];
      var repeatedLane := Repeated32(laneValue, 32 * lanes);
      PayloadIsUniform(SetupNow(), beats, Beat(axi.wdata, axi.wlast));
      if axi.wdata != repeatedLane {
        return false;
      }
      if !payloadSequenceStarted {
        payloadSequenceStarted := true;
        expectedSampleNumber := (SampleNumber(scoreTestMode, laneValue) + 1) % U32;
      } else {
        var expectedData := Repeated32(Lane(scoreTestMode, expectedSampleNumber), 32 * lanes);
        if axi.wdata != expectedData {
          return false;
        }
        NextNumber(FirstSample(scoreTestMode, beats) + |beats|);
        expectedSampleNumber := (expectedSampleNumber + 1) % U32;
      }
      return true;
    }

    /** Everything but the transfers themselves. */
    method CheckSignals(axi: Snapshot, ghost past: seq<Snapshot>) returns (ok: bool)
      requires StallsKept(past)
      modifies `stalledAw, `stalledW
      ensures ok <==> SignalsLegal(4 * lanes, past, axi)
      ensures ok ==> StallsKept(past + [axi])
    {
      if axi.awsize != BitLength(4 * lanes) - 1 || axi.wstrb != Pow(2, 4 * lanes) - 1 {
        return false;
      }
      ok := CheckStable(axi, past);
    }

    /** The monitor accepts a clock exactly when it is legal after what it has seen. */
    method CheckAxiSnapshot(axi: Snapshot, ghost past: seq<Snapshot>) returns (ok: bool)
      requires Tracks(past) && FitsOne(SetupNow(), axi)
      modifies `stalledAw, `stalledW, `burstActive, `burstBeatsLeft, `scoreFirstAw, `expectedNextAwaddr,
               `payloadSequenceStarted, `expectedSampleNumber, `testAxiBeats
      ensures ok <==> Legal(SetupNow(), past, axi)
      ensures ok ==> Tracks(past + [axi])
    {
      hide DataLegal, AddressLegal, BurstKept, PayloadKept, SignalsLegal;
      Extended(SetupNow(), past, axi);
      ok := CheckSignals(axi, past);
      if ok {
        ok := CheckAddress(axi, Bursts(past), |Beats(past)|);
        if ok {
          ok := CheckData(axi, Bursts(past) + Opened(axi), Beats(past));
        }
      }
    }

    /** The monitor runs clock by clock and stops at the first it does not accept. */
    method MonitorAxi(trace: seq<Snapshot>) returns (ok: bool)
      requires Tracks([]) && Fits(SetupNow(), trace)
      modifies `stalledAw, `stalledW, `burstActive, `burstBeatsLeft, `scoreFirstAw, `expectedNextAwaddr,
               `payloadSequenceStarted, `expectedSampleNumber, `testAxiBeats
      ensures ok <==> Conforms(SetupNow(), trace)
      ensures ok ==> testAxiBeats == |Beats(trace)|
    {
      hide Legal, Conforms, Fits, FitsOne, StallsKept, BurstKept, Beats, Bursts;
      ghost var setup := SetupNow();
      assert trace[..0] == [];
      NothingConforms(setup);
      for t := 0 to |trace|
        invariant SetupNow() == setup && Tracks(trace[..t]) && Conforms(setup, trace[..t])
      {
        OneMoreClock(setup, trace, t);
        ok := CheckAxiSnapshot(trace[t], trace[..t]);
        if !ok {
          PrefixConforms(setup, trace, t + 1);
          return;
        }
      }
      assert trace[..|trace|] == trace;
      return true;
    }
  }

  lemma {:induction false} PrefixConforms(setup: Setup, trace: seq<Snapshot>, t: nat)
    requires setup.Valid() && Fits(setup, trace) && t <= |trace|
    ensures Fits(setup, trace[..t]) && (Conforms(setup, trace) ==> Conforms(setup, trace[..t]))
  {
    if t == |trace| {
      assert trace[..t] == trace;
    } else {
      PrefixConforms(setup, trace[..|trace| - 1], t);
      assert trace[..|trace| - 1][..t] == trace[..t];
    }
  }

  lemma NothingAnnounced(setup: Setup)
    requires setup.Valid()
    ensures NextAddress(setup, 0) == setup.base
  {
  }

  lemma AddressAdvances(setup: Setup, beats: nat, more: nat)
    requires setup.Valid()
    ensures NextAddress(setup, beats + more)
            == setup.base + (NextAddress(setup, beats) - setup.base + more * setup.AxiBytes()) % setup.span
  {
    assert (beats + more) * setup.AxiBytes() == beats * setup.AxiBytes() + more * setup.AxiBytes();
    AddMod(beats * setup.AxiBytes(), more * setup.AxiBytes(), setup.span);
  }

  lemma NextNumber(x: int)
    ensures (x % U32 + 1) % U32 == (x + 1) % U32
  {
  }

  /** Legal data has equal lanes; the first beat may carry any sample number, a later one only
      the next. */
  lemma PayloadIsUniform(setup: Setup, past: seq<Beat>, beat: Beat)
    requires setup.Valid() && |beat.data| == setup.lanes && 0 <= beat.data[0] < U32
    requires past != [] ==> past[0].data != []
    ensures PayloadLegal(setup, past, beat) ==> beat.data == Uniform(setup.lanes, beat.data[0] % U32)
    ensures past == [] ==> (PayloadLegal(setup, past, beat) <==> beat.data == Uniform(setup.lanes, beat.data[0] % U32))
    ensures past != [] ==>
              (PayloadLegal(setup, past, beat) <==>
               beat.data == Uniform(setup.lanes,
                 Lane(setup.testMode, (FirstSample(setup.testMode, past) + |past|) % U32) % U32))
  {
    var first := FirstSample(setup.testMode, past + [beat]);
    LaneInRange(setup.testMode, first + |past|);
    UniformHead(setup.lanes, Lane(setup.testMode, (first + |past|) % U32), beat.data);
    if past == [] {
      LaneOfOwnNumber(setup.testMode, beat.data[0]);
    } else {
      assert (past + [beat])[0] == past[0];
    }
  }

  lemma LaneInRange(testMode: bool, n: int)
    ensures 0 <= Lane(testMode, n % U32) < U32
  {
    SampleNumberInvertsLane(testMode, n % U32);
  }

  lemma LaneOfOwnNumber(testMode: bool, lane: int)
    requires 0 <= lane < U32
    ensures Lane(testMode, (SampleNumber(testMode, lane) + 0) % U32) == lane
  {
    SampleNumberInvertsLane(testMode, lane);
  }

  lemma UniformHead(lanes: nat, value: int, data: seq<int>)
    requires 0 < lanes == |data| && 0 <= value < U32
    ensures value % U32 == value
    ensures data == Uniform(lanes, value) ==> data[0] == value
  {
  }

  lemma Extended(setup: Setup, trace: seq<Snapshot>, s: Snapshot)
    requires setup.Valid() && Fits(setup, trace) && FitsOne(setup, s)
    ensures Fits(setup, trace + [s])
    ensures Bursts(trace + [s]) == Bursts(trace) + Opened(s)
    ensures Beats(trace + [s]) == Beats(trace) + Moved(s)
  {
    assert (trace + [s])[..|trace|] == trace;
  }
}
