/** What a trace the AXI monitor accepts looks like as a whole. */
module AxiSoundness {
  import opened Common
  import opened AxiMonitor

  /** A burst is complete when `count` beats have been transferred. */
  ghost predicate EndsBurst(bursts: seq<Burst>, count: int) {
    exists n :: 0 < n <= |bursts| && Announced(bursts[..n]) == count
  }

  lemma {:induction false} AnnouncedGrows(bursts: seq<Burst>, m: nat, n: nat)
    requires m < n <= |bursts|
    ensures Announced(bursts[..m]) < Announced(bursts[..n])
  {
    assert bursts[..n][..n - 1] == bursts[..n - 1];
    if m < n - 1 {
      AnnouncedGrows(bursts, m, n - 1);
    }
  }

  /** The n-th burst starts at the base plus the bytes of all bursts before it, in the ring. */
  lemma {:induction false} AddressesFollow(setup: Setup, trace: seq<Snapshot>, n: nat)
    requires setup.Valid() && Fits(setup, trace) && Conforms(setup, trace)
    requires n < |Bursts(trace)|
    ensures Bursts(trace)[n].addr
            == setup.base + Announced(Bursts(trace)[..n]) * setup.AxiBytes() % setup.span
  {
    hide DataLegal, Fits, Conforms, Bursts, Beats;
    Nothing();
    LastClock(setup, trace);
    var init := trace[..|trace| - 1];
    var earlier := Bursts(init);
    if n < |earlier| {
      AddressesFollow(setup, init, n);
    }
    assert Bursts(trace)[..n] == earlier[..n];
    assert earlier[..|earlier|] == earlier;
  }

  lemma Nothing()
    ensures Beats([]) == [] && Bursts([]) == [] && Announced([]) == 0
  {
  }

  /** What the last clock of an accepted trace adds, and what it keeps to. */
  lemma LastClock(setup: Setup, trace: seq<Snapshot>)
    requires setup.Valid() && Fits(setup, trace) && Conforms(setup, trace) && trace != []
    ensures var init, s := trace[..|trace| - 1], trace[|trace| - 1];
            && Fits(setup, init) && Conforms(setup, init)
            && Bursts(trace) == Bursts(init) + Opened(s) && Beats(trace) == Beats(init) + Moved(s)
            && (forall k :: 0 <= k < |Beats(init)| ==> |Beats(init)[k].data| == setup.lanes)
            && AddressLegal(setup, Bursts(init), |Beats(init)|, s)
            && DataLegal(setup, Bursts(trace), Beats(init), s)
  {
    hide AddressLegal, DataLegal, SignalsLegal, FitsOne;
    BeatsFit(setup, trace[..|trace| - 1]);
  }

  /** On an accepted trace an address that is offered from clock `i` to clock `j` and not taken before is
      the same all the time; */
  lemma {:induction false} OfferedAddressIsStable(setup: Setup, trace: seq<Snapshot>, i: nat, j: nat)
    requires setup.Valid() && Fits(setup, trace) && Conforms(setup, trace) && i <= j < |trace|
    requires forall k :: i <= k <= j ==> trace[k].awvalid
    requires forall k :: i <= k < j ==> !trace[k].awready
    ensures trace[j].awaddr == trace[i].awaddr && trace[j].awlen == trace[i].awlen
    decreases j
  {
    if i < j {
      OfferedAddressIsStable(setup, trace, i, j - 1);
      ClockIsLegal(setup, trace, j);
      assert trace[..j][|trace[..j]| - 1] == trace[j - 1];
    }
  }

  /** and so is data. */
  lemma {:induction false} OfferedDataIsStable(setup: Setup, trace: seq<Snapshot>, i: nat, j: nat)
    requires setup.Valid() && Fits(setup, trace) && Conforms(setup, trace) && i <= j < |trace|
    requires forall k :: i <= k <= j ==> trace[k].wvalid
    requires forall k :: i <= k < j ==> !trace[k].wready
    ensures trace[j].wdata == trace[i].wdata && trace[j].wlast == trace[i].wlast
    decreases j
  {
    if i < j {
      OfferedDataIsStable(setup, trace, i, j - 1);
      ClockIsLegal(setup, trace, j);
      assert trace[..j][|trace[..j]| - 1] == trace[j - 1];
    }
  }

  /** Every clock announces beats as wide as the bus, with all bytes valid. */
  lemma SizeIsBusWidth(setup: Setup, trace: seq<Snapshot>, j: nat, e: nat)
    requires setup.Valid() && Fits(setup, trace) && Conforms(setup, trace) && j < |trace|
    requires setup.AxiBytes() == Pow(2, e)
    ensures Pow(2, trace[j].awsize) == setup.AxiBytes() && trace[j].wstrb + 1 == Pow(2, setup.AxiBytes())
  {
    ClockIsLegal(setup, trace, j);
    LengthOfPower(e);
    PowPositive(2, setup.AxiBytes());
    hide Pow;
  }

  lemma {:induction false} LengthOfPower(e: nat)
    ensures BitLength(Pow(2, e)) == e + 1
  {
    if e == 0 {
      assert Pow(2, 0) == 1 && BitLength(0) == 0;
    } else {
      LengthOfPower(e - 1);
      PowPositive(2, e - 1);
      assert Pow(2, e) / 2 == Pow(2, e - 1);
    }
  }

  lemma {:induction false} ClockIsLegal(setup: Setup, trace: seq<Snapshot>, j: nat)
    requires setup.Valid() && Fits(setup, trace) && Conforms(setup, trace) && j < |trace|
    ensures SignalsLegal(setup.AxiBytes(), trace[..j], trace[j])
    decreases |trace|
  {
    hide AddressLegal, DataLegal, SignalsLegal, FitsOne;
    var init := trace[..|trace| - 1];
    if j < |init| {
      ClockIsLegal(setup, init, j);
      assert init[..j] == trace[..j];
    }
  }

  /** All announced beats have arrived, save those of the last burst that are still due. */
  lemma {:induction false} BeatsAreAnnounced(setup: Setup, trace: seq<Snapshot>)
    requires setup.Valid() && Fits(setup, trace) && Conforms(setup, trace)
    ensures var bursts := Bursts(trace);
            if bursts == [] then Beats(trace) == []
            else Announced(bursts[..|bursts| - 1]) <= |Beats(trace)| <= Announced(bursts)
  {
    hide PayloadLegal, NextAddress, Fits, Conforms, Bursts, Beats, Announced;
    Nothing();
    if trace != [] {
      LastClock(setup, trace);
      var init := trace[..|trace| - 1];
      BeatsAreAnnounced(setup, init);
      StillAnnounced(Bursts(init), |Beats(init)|, trace[|trace| - 1]);
    }
  }

  lemma StillAnnounced(earlier: seq<Burst>, beats: nat, s: Snapshot)
    requires if earlier == [] then beats == 0
             else Announced(earlier[..|earlier| - 1]) <= beats <= Announced(earlier)
    requires s.TakesAddress() ==> beats == Announced(earlier)
    requires s.TakesData() ==> beats < Announced(earlier + Opened(s))
    ensures var bursts, now := earlier + Opened(s), beats + |Moved(s)|;
            if bursts == [] then now == 0
            else Announced(bursts[..|bursts| - 1]) <= now <= Announced(bursts)
  {
    if s.TakesAddress() {
      assert (earlier + Opened(s))[..|earlier|] == earlier;
    } else {
      assert earlier + Opened(s) == earlier;
    }
  }

  /** Each burst's last beat, and no other, is marked as last. */
  lemma {:induction false} LastMarksBurstEnds(setup: Setup, trace: seq<Snapshot>, k: nat)
    requires setup.Valid() && Fits(setup, trace) && Conforms(setup, trace)
    requires k < |Beats(trace)|
    ensures Beats(trace)[k].last <==> EndsBurst(Bursts(trace), k + 1)
  {
    hide PayloadLegal, NextAddress, Fits, Conforms, Bursts, Beats, Announced, EndsBurst;
    Nothing();
    LastClock(setup, trace);
    var init, s := trace[..|trace| - 1], trace[|trace| - 1];
    var earlier := Bursts(init);
    BeatsAreAnnounced(setup, init);
    if k < |Beats(init)| {
      LastMarksBurstEnds(setup, init, k);
      if s.TakesAddress() {
        NewBurstEndsLater(earlier, Burst(s.awaddr, s.awlen), k + 1);
      } else {
        assert earlier + Opened(s) == earlier;
      }
    } else {
      var bursts := Bursts(trace);
      assert s.TakesAddress() ==> bursts[..|bursts| - 1] == earlier;
      assert !s.TakesAddress() ==> bursts == earlier;
      OnlyTheOpenBurstEnds(bursts, k);
    }
  }

  lemma NewBurstEndsLater(bursts: seq<Burst>, next: Burst, count: nat)
    requires count <= Announced(bursts)
    ensures EndsBurst(bursts + [next], count) <==> EndsBurst(bursts, count)
  {
    var more := bursts + [next];
    forall n | 0 <= n <= |bursts| ensures more[..n] == bursts[..n] {
    }
    assert more[..|more|] == more && more[..|more| - 1] == bursts;
    assert forall n :: 0 < n <= |more| && Announced(more[..n]) == count ==> n <= |bursts|;
    if EndsBurst(bursts, count) {
      var n :| 0 < n <= |bursts| && Announced(bursts[..n]) == count;
      assert Announced(more[..n]) == count;
    }
  }

  lemma OnlyTheOpenBurstEnds(bursts: seq<Burst>, beats: nat)
    requires bursts != [] && Announced(bursts[..|bursts| - 1]) <= beats < Announced(bursts)
    ensures EndsBurst(bursts, beats + 1) <==> beats + 1 == Announced(bursts)
  {
    hide Announced;
    assert bursts[..|bursts|] == bursts;
    var open := |bursts| - 1;
    if EndsBurst(bursts, beats + 1) {
      var n :| 0 < n <= |bursts| && Announced(bursts[..n]) == beats + 1;
      if n < open {
        AnnouncedGrows(bursts, n, open);
      }
      assert n == |bursts|;
    }
  }

  /** Beat `k` carries, in every lane, the sample `k` after the first, modulo 2^32. */
  lemma {:induction false} SamplesFollow(setup: Setup, trace: seq<Snapshot>, k: nat)
    requires setup.Valid() && Fits(setup, trace) && Conforms(setup, trace)
    requires k < |Beats(trace)|
    ensures Beats(trace)[0].data != []
    ensures Beats(trace)[k].data
            == Uniform(setup.lanes,
                       Lane(setup.testMode, (FirstSample(setup.testMode, Beats(trace)) + k) % U32))
  {
    hide Lane, SampleNumber, Uniform, AddressLegal, Announced, Fits, Conforms, Bursts, Beats;
    Nothing();
    LastClock(setup, trace);
    var init := trace[..|trace| - 1];
    BeatsFit(setup, trace);
    if k < |Beats(init)| {
      SamplesFollow(setup, init, k);
    }
  }
}
