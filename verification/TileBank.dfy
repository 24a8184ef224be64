/**
 The converter tiles of one kind (ADC or DAC) together with the operator's requests, as the
 firmware drives them (software/src/rfdc.c).
 */
module TileBank {
  import opened TileTarget
  import opened TilePower

  /** Tile states, and what was last asked of each tile; a negative request was never made. */
  datatype Bank = Bank(state: seq<int>, request: seq<int>)

  ghost predicate WellFormed(b: Bank, ref: nat) {
    ref < |b.state| == |b.request|
  }

  /** The request in force for each tile: the stored one, or else whether it is running. */
  ghost function Effective(b: Bank): (e: seq<int>)
    requires |b.state| == |b.request|
    ensures |e| == |b.request|
  {
    seq(|b.request|, k requires 0 <= k < |b.request| =>
      if b.request[k] < 0 then (if b.state[k] == FULL then 1 else 0) else b.request[k])
  }

  ghost function SetRequests(req: seq<int>, ref: nat): Bank {
    Bank(Target(req, ref), req)
  }

  /** Carrying out the plan for some requests: whatever the tiles' states, they end at the targets. */
  ghost function Applied(b: Bank, ref: nat, req: seq<int>): (r: Bank)
    requires WellFormed(b, ref) && |req| == |b.state|
    ensures r == SetRequests(req, ref)
  {
    PlanReachesTarget(b.state, Target(req, ref), ref);
    Bank(Run(b.state, Plan(b.state, Target(req, ref), ref)), req)
  }

  ghost function PowerTile(b: Bank, ref: nat, tile: nat, on: bool): (r: Bank)
    requires WellFormed(b, ref) && tile < |b.state|
    ensures WellFormed(r, ref) && |r.state| == |b.state|
    ensures r == SetRequests(Effective(b)[tile := if on then 1 else 0], ref)
  {
    Applied(b, ref, Effective(b)[tile := if on then 1 else 0])
  }

  /** Synchronisation saves the requests in force, lifts tile 0, and restores what it saved. */
  ghost function Synced(b: Bank, ref: nat): (r: Bank)
    requires WellFormed(b, ref)
    ensures WellFormed(r, ref) && |r.state| == |b.state|
    ensures r == SetRequests(Effective(b), ref)
  {
    var saved := Effective(b);
    var lifted := PowerTile(b, ref, 0, true);
    Applied(lifted, ref, saved)
  }

  ghost function ShutdownMode(b: Bank, ref: nat, tile: nat, on: bool): (r: Bank)
    requires WellFormed(b, ref)
    ensures WellFormed(r, ref) && |r.state| == |b.state|
  {
    if |b.state| <= tile then b
    else
      var p := PowerTile(b, ref, tile, on);
      if on && p.state != b.state then Synced(p, ref) else p
  }

  /** What the rest of the firmware asks for: to power a tile up or down, or to synchronise. */
  datatype Call = Shutdown(tile: nat, on: bool) | Synchronise

  ghost function AfterCall(b: Bank, ref: nat, call: Call): (r: Bank)
    requires WellFormed(b, ref)
    ensures WellFormed(r, ref) && |r.state| == |b.state|
  {
    match call
    case Shutdown(tile, on) => ShutdownMode(b, ref, tile, on)
    case Synchronise => Synced(b, ref)
  }

  ghost function RunCalls(b: Bank, ref: nat, calls: seq<Call>): (r: Bank)
    requires WellFormed(b, ref)
    ensures WellFormed(r, ref) && |r.state| == |b.state|
  {
    if calls == [] then b else AfterCall(RunCalls(b, ref, calls[..|calls| - 1]), ref, calls[|calls| - 1])
  }

  /** Every call does something, except about a tile that does not exist. */
  predicate Concerns(call: Call, tiles: nat) {
    call.Shutdown? ==> call.tile < tiles
  }

  /** The latest call about tile `k`, or `before` when there was none. */
  ghost function Latest(calls: seq<Call>, k: nat, before: int): int {
    if calls == [] then before
    else
      var last := calls[|calls| - 1];
      if last.Shutdown? && last.tile == k then (if last.on then 1 else 0)
      else Latest(calls[..|calls| - 1], k, before)
  }

  ghost function LatestRequests(b: Bank, calls: seq<Call>): (r: seq<int>)
    requires |b.state| == |b.request|
    ensures |r| == |b.state|
  {
    seq(|b.state|, k requires 0 <= k < |b.state| => Latest(calls, k, Effective(b)[k]))
  }

  lemma EffectiveIsKept(b: Bank, req: seq<int>, ref: nat)
    requires WellFormed(b, ref) && |req| == |b.state| && forall k :: 0 <= k < |req| ==> 0 <= req[k]
    ensures Effective(SetRequests(req, ref)) == req
  {
  }

  /** A synchronisation keeps the requests in force, whatever the bank. */
  lemma SyncKeepsRequests(b: Bank, ref: nat)
    requires WellFormed(b, ref)
    ensures Effective(Synced(b, ref)) == Effective(b)
  {
    EffectiveIsKept(b, Effective(b), ref);
  }

  /** One call: the requests it leaves in force, and that the tiles stand at their targets. */
  lemma CallSetsRequests(b: Bank, ref: nat, call: Call)
    requires WellFormed(b, ref)
    ensures var r := AfterCall(b, ref, call);
            var req := if call.Shutdown? && call.tile < |b.state|
                       then Effective(b)[call.tile := if call.on then 1 else 0]
                       else Effective(b);
            && Effective(r) == req
            && (if Concerns(call, |b.state|) then r == SetRequests(req, ref) else r == b)
  {
    match call
    case Synchronise => SyncKeepsRequests(b, ref);
    case Shutdown(tile, on) =>
      if tile < |b.state| {
        var req := Effective(b)[tile := if on then 1 else 0];
        EffectiveIsKept(b, req, ref);
        hide Synced, PowerTile, Target;
        assert Effective(PowerTile(b, ref, tile, on)) == req;
      }
  }

  /** After any calls, at least one of them not about a missing tile, the tiles stand exactly at
      the targets of the latest request for each of them. */
  lemma {:induction false} StatesFollowLatestRequests(b: Bank, ref: nat, calls: seq<Call>)
    requires WellFormed(b, ref)
    ensures (exists c :: c in calls && Concerns(c, |b.state|)) ==>
              RunCalls(b, ref, calls) == SetRequests(LatestRequests(b, calls), ref)
    ensures (forall c :: c in calls ==> !Concerns(c, |b.state|)) ==> RunCalls(b, ref, calls) == b
    ensures Effective(RunCalls(b, ref, calls)) == LatestRequests(b, calls)
  {
    hide AfterCall, SetRequests, Effective;
    if calls == [] {
      assert RunCalls(b, ref, calls) == b;
      assert LatestRequests(b, calls) == Effective(b);
    } else {
      var front, last := calls[..|calls| - 1], calls[|calls| - 1];
      StatesFollowLatestRequests(b, ref, front);
      CallSetsRequests(RunCalls(b, ref, front), ref, last);
      assert forall c :: c in calls <==> c in front || c == last;
      LatestOfMore(b, front, last);
      assert calls == front + [last];
    }
  }

  lemma LatestOfMore(b: Bank, front: seq<Call>, last: Call)
    requires |b.state| == |b.request|
    ensures LatestRequests(b, front + [last])
            == if last.Shutdown? && last.tile < |b.state|
               then LatestRequests(b, front)[last.tile := if last.on then 1 else 0]
               else LatestRequests(b, front)
  {
    assert (front + [last])[..|front|] == front;
  }

  /** As the firmware leaves it at power-up: nothing has been requested. */
  ghost predicate Unrequested(b: Bank) {
    forall k :: 0 <= k < |b.request| ==> b.request[k] == -1
  }

  /** From power-up a synchronisation leaves states and requests exactly as they were if and only
      if some earlier call was not about a missing tile; although it powers tile 0 up on the way. */
  lemma SyncIsNeutral(b: Bank, ref: nat, calls: seq<Call>)
    requires WellFormed(b, ref) && Unrequested(b)
    ensures var now := RunCalls(b, ref, calls);
            && PowerTile(now, ref, 0, true).state[0] == FULL
            && (Synced(now, ref) == now <==> exists c :: c in calls && Concerns(c, |b.state|))
  {
    hide RunCalls, PowerTile, Synced, Effective, LatestRequests, Unrequested, Concerns;
    StatesFollowLatestRequests(b, ref, calls);
    LiftedIsFull(RunCalls(b, ref, calls), ref);
    if forall c :: c in calls ==> !Concerns(c, |b.state|) {
      FirstSyncStoresRequests(b, ref);
    }
  }

  lemma LiftedIsFull(b: Bank, ref: nat)
    requires WellFormed(b, ref)
    ensures PowerTile(b, ref, 0, true).state[0] == FULL
  {
    hide Applied;
    var lifted := Effective(b)[0 := 1];
    assert lifted[0] != 0;
    assert Target(lifted, ref)[0] == TargetAt(lifted, ref, 0);
  }

  lemma FirstSyncStoresRequests(b: Bank, ref: nat)
    requires WellFormed(b, ref) && Unrequested(b)
    ensures Synced(b, ref) != b
  {
    hide Synced, Target;
    assert b.request[0] == -1;
    assert Synced(b, ref).request == Effective(b) && 0 <= Effective(b)[0];
  }

  /** Until then it may also change states: at power-up a running tile counts as requested, and
      every tile between it and tile 0 is then kept ready. */
  lemma FirstSyncMayPowerTiles()
    ensures var b := Bank([SHUTDOWN, FULL, SHUTDOWN], [-1, -1, -1]);
            && ClockClosed(b.state, 1) && Unrequested(b)
            && Synced(b, 1).state == [CLK_DET, FULL, SHUTDOWN]
  {
    var b := Bank([SHUTDOWN, FULL, SHUTDOWN], [-1, -1, -1]);
    assert Effective(b) == [0, 1, 0];
    assert [0, 1, 0][1] != 0;
    assert Target([0, 1, 0], 1) == [CLK_DET, FULL, SHUTDOWN];
  }

  /** The request vectors that a synchronisation applies: with tile 0 lifted, and restored. */
  ghost function SyncVectors(b: Bank): (v: seq<seq<int>>)
    requires |b.state| == |b.request| != 0
    ensures forall r :: r in v ==> |r| == |b.state|
  {
    [Effective(b)[0 := 1], Effective(b)]
  }

  /** The request vectors that a call applies: its own, and those of a synchronisation. */
  ghost function CallVectors(b: Bank, ref: nat, call: Call): (v: seq<seq<int>>)
    requires WellFormed(b, ref)
    ensures forall r :: r in v ==> |r| == |b.state|
  {
    match call
    case Synchronise => SyncVectors(b)
    case Shutdown(tile, on) =>
      if |b.state| <= tile then []
      else
        var p := PowerTile(b, ref, tile, on);
        [Effective(b)[tile := if on then 1 else 0]] + if on && p.state != b.state then SyncVectors(p) else []
  }

  ghost function Vectors(b: Bank, ref: nat, calls: seq<Call>): (v: seq<seq<int>>)
    requires WellFormed(b, ref)
    ensures forall r :: r in v ==> |r| == |b.state|
  {
    if calls == [] then []
    else
      var front := calls[..|calls| - 1];
      Vectors(b, ref, front) + CallVectors(RunCalls(b, ref, front), ref, calls[|calls| - 1])
  }

  /** Some requests applied one after the other end at the targets of the last. */
  lemma HistoryEnds(s: seq<int>, before: seq<seq<int>>, last: seq<int>, ref: nat)
    requires ref < |s| == |last| && forall r :: r in before ==> |r| == |s|
    ensures Run(s, History(s, before + [last], ref)) == Target(last, ref)
  {
    hide Plan, Run, Target;
    assert (before + [last])[..|before|] == before;
    var steps := History(s, before, ref);
    RunConcat(s, steps, Plan(Run(s, steps), Target(last, ref), ref));
    TileZeroTarget(last, ref);
    PlanReachesTarget(Run(s, steps), Target(last, ref), ref);
  }

  lemma TileZeroTarget(req: seq<int>, ref: nat)
    requires req != []
    ensures Target(req, ref)[0] <= SHUTDOWN || CLK_DET <= Target(req, ref)[0]
  {
  }

  lemma CallEnds(b: Bank, ref: nat, call: Call)
    requires WellFormed(b, ref)
    ensures var v := CallVectors(b, ref, call);
            AfterCall(b, ref, call).state == if v == [] then b.state else Target(v[|v| - 1], ref)
  {
    hide PowerTile, Synced, Target, Effective;
  }

  /** Operating the tiles, with all the lifting and restoring of the synchronisations, never cuts
      a live clock path, at any single tile change; and the changes lead to the bank's states. */
  lemma {:induction false} CallsKeepClockPath(b: Bank, ref: nat, calls: seq<Call>)
    requires WellFormed(b, ref) && 0 < ref && ClockClosed(b.state, ref)
    ensures ClosedThroughout(b.state, History(b.state, Vectors(b, ref, calls), ref), ref)
    ensures Run(b.state, History(b.state, Vectors(b, ref, calls), ref)) == RunCalls(b, ref, calls).state
  {
    hide ClockClosed, ClosedThroughout, AfterCall, RunCalls, CallVectors, Vectors, Run, History, Target, Plan;
    WholeHistoryKeepsClockPath(b.state, Vectors(b, ref, calls), ref);
    if calls == [] {
      NothingRuns(b, ref);
    } else {
      var front, last := calls[..|calls| - 1], calls[|calls| - 1];
      var now := RunCalls(b, ref, front);
      CallsKeepClockPath(b, ref, front);
      CallEnds(now, ref, last);
      MoreVectors(b, ref, calls);
      var before, v := Vectors(b, ref, front), CallVectors(now, ref, last);
      if v == [] {
        assert before + v == before;
      } else {
        assert before + v == before + v[..|v| - 1] + [v[|v| - 1]];
        HistoryEnds(b.state, before + v[..|v| - 1], v[|v| - 1], ref);
      }
    }
  }

  lemma NothingRuns(b: Bank, ref: nat)
    requires WellFormed(b, ref)
    ensures Run(b.state, History(b.state, Vectors(b, ref, []), ref)) == RunCalls(b, ref, []).state
  {
  }

  lemma MoreVectors(b: Bank, ref: nat, calls: seq<Call>)
    requires WellFormed(b, ref) && calls != []
    ensures var front, last := calls[..|calls| - 1], calls[|calls| - 1];
            && RunCalls(b, ref, calls) == AfterCall(RunCalls(b, ref, front), ref, last)
            && Vectors(b, ref, calls) == Vectors(b, ref, front) + CallVectors(RunCalls(b, ref, front), ref, last)
  {
    hide AfterCall, CallVectors;
  }

  /** The tiles handed to the multi-tile synchroniser, given the states when it was called. */
  function SyncMask(state: seq<int>): set<nat> {
    set k | 0 <= k < |state| && state[k] == FULL
  }

  /** What the synchroniser is given: a group of tiles, and the states in which it finds all tiles. */
  datatype Handed = Handed(group: set<nat>, state: seq<int>)

  ghost function Handing(b: Bank, ref: nat): Handed
    requires WellFormed(b, ref)
  {
    Handed(SyncMask(b.state), PowerTile(b, ref, 0, true).state)
  }

  /** What a call hands to the synchroniser, if anything. */
  ghost function CallHands(b: Bank, ref: nat, call: Call): seq<Handed>
    requires WellFormed(b, ref)
  {
    match call
    case Synchronise => [Handing(b, ref)]
    case Shutdown(tile, on) =>
      if |b.state| <= tile then []
      else
        var p := PowerTile(b, ref, tile, on);
        if on && p.state != b.state then [Handing(p, ref)] else []
  }

  lemma ShutdownInParts(b: Bank, ref: nat, tile: nat, on: bool)
    requires WellFormed(b, ref)
    ensures tile < |b.state| ==>
              var p := PowerTile(b, ref, tile, on);
              var synced := on && p.state != b.state;
              && ShutdownMode(b, ref, tile, on) == (if synced then Synced(p, ref) else p)
              && CallHands(b, ref, Shutdown(tile, on)) == if synced then [Handing(p, ref)] else []
  {
    hide PowerTile, Synced, Handing;
  }

  /** After any calls as above, a call synchronises if and only if it switches a tile on that was not
      running; and then exactly the tiles that are running after it, this one among them, while tile 0
      runs. */
  lemma SyncFollowsPowerUpIff(b: Bank, ref: nat, calls: seq<Call>, k: nat, on: bool)
    requires WellFormed(b, ref) && 0 < ref && k < |b.state|
    requires exists c :: c in calls && Concerns(c, |b.state|)
    ensures var now := RunCalls(b, ref, calls);
            var handed := CallHands(now, ref, Shutdown(k, on));
            && |handed| == (if on && now.state[k] != FULL then 1 else 0)
            && (|handed| == 1 ==>
                  && k in handed[0].group && handed[0].state[0] == FULL
                  && handed[0].group
                     == set j | 0 <= j < |b.state| && AfterCall(now, ref, Shutdown(k, on)).state[j] == FULL)
  {
    hide RunCalls, Target, LatestRequests, CallHands, AfterCall, Handing, SetRequests;
    StatesFollowLatestRequests(b, ref, calls);
    LatestAreNotNegative(b, calls);
    var now, e := RunCalls(b, ref, calls), LatestRequests(b, calls);
    CallAtTargets(now, e, ref, k, on);
    SwitchedOnRuns(e, ref, k);
    HandingIsRunning(SetRequests(e[k := 1], ref), ref);
    assert SetRequests(e[k := 1], ref).state == Target(e[k := 1], ref) && now.state == Target(e, ref) by {
      StatesAtTargets(e[k := 1], ref);
      StatesAtTargets(e, ref);
    }
  }

  lemma StatesAtTargets(e: seq<int>, ref: nat)
    ensures SetRequests(e, ref).state == Target(e, ref)
  {
  }

  /** A call where the tiles stand at the targets of the requests in force. */
  lemma CallAtTargets(now: Bank, e: seq<int>, ref: nat, k: nat, on: bool)
    requires WellFormed(now, ref) && k < |e| == |now.state| && now == SetRequests(e, ref)
    requires forall i :: 0 <= i < |e| ==> 0 <= e[i]
    ensures AfterCall(now, ref, Shutdown(k, on)) == SetRequests(e[k := if on then 1 else 0], ref)
    ensures WellFormed(SetRequests(e[k := 1], ref), ref)
    ensures CallHands(now, ref, Shutdown(k, on))
            == if on && Target(e[k := 1], ref) != Target(e, ref) then [Handing(SetRequests(e[k := 1], ref), ref)]
               else []
  {
    EffectiveIsKept(now, e, ref);
    CallSetsRequests(now, ref, Shutdown(k, on));
    hide Target, Effective, Synced, Handing, AfterCall;
    assert PowerTile(now, ref, k, on) == SetRequests(e[k := if on then 1 else 0], ref);
  }

  lemma HandingIsRunning(b: Bank, ref: nat)
    requires WellFormed(b, ref)
    ensures Handing(b, ref).group == set j | 0 <= j < |b.state| && b.state[j] == FULL
    ensures Handing(b, ref).state != [] && Handing(b, ref).state[0] == FULL
  {
    LiftedIsFull(b, ref);
    hide PowerTile;
  }

  lemma LatestAreNotNegative(b: Bank, calls: seq<Call>)
    requires |b.state| == |b.request|
    ensures forall k :: 0 <= k < |b.state| ==> 0 <= LatestRequests(b, calls)[k]
  {
    forall k | 0 <= k < |b.state|
      ensures 0 <= LatestRequests(b, calls)[k]
    {
      LatestIsNotNegative(calls, k, Effective(b)[k]);
    }
  }

  lemma {:induction false} LatestIsNotNegative(calls: seq<Call>, k: nat, before: int)
    requires 0 <= before
    ensures 0 <= Latest(calls, k, before)
  {
    if calls != [] {
      LatestIsNotNegative(calls[..|calls| - 1], k, before);
    }
  }

  /** Requesting a tile changes the targets exactly if it was not to run before. */
  lemma SwitchedOnRuns(e: seq<int>, ref: nat, k: nat)
    requires 0 < ref < |e| && k < |e|
    ensures Target(e[k := 1], ref)[k] == FULL
    ensures Target(e[k := 1], ref) == Target(e, ref) <==> Target(e, ref)[k] == FULL
  {
    var more := e[k := 1];
    assert more[k] != 0;
    assert Target(more, ref)[k] == TargetAt(more, ref, k) && Target(e, ref)[k] == TargetAt(e, ref, k);
    if TargetAt(e, ref, k) == FULL {
      SameTargets(e, ref, k);
    }
  }

  lemma SameTargets(e: seq<int>, ref: nat, k: nat)
    requires 0 < ref < |e| && k < |e| && TargetAt(e, ref, k) == FULL
    ensures Target(e[k := 1], ref) == Target(e, ref)
  {
    var more := e[k := 1];
    if e[k] != 0 {
      assert AnyOn(e) && more[k] != 0 && AnyOn(more);
      forall j | 0 <= j < |e|
        ensures TargetAt(more, ref, j) == TargetAt(e, ref, j)
      {
        assert forall i :: 0 <= i < |e| ==> (more[i] != 0 <==> e[i] != 0);
      }
    } else {
      assert k == ref && AnyOn(e);
      assert more[k] != 0 && AnyOn(more);
      forall j | 0 <= j < |e|
        ensures TargetAt(more, ref, j) == TargetAt(e, ref, j)
      {
        assert forall i :: 0 <= i < |e| && i != k ==> more[i] == e[i];
      }
    }
  }

  /** Tile 0 is lifted to FULL for the synchronisation, but the group is taken from the states
      read before that, so it includes tile 0 only when tile 0 had been requested anyway. */
  lemma SyncGroupIsTakenBeforeTheLift(b: Bank, ref: nat)
    requires WellFormed(b, ref) && b.state == Target(Effective(b), ref)
    ensures PowerTile(b, ref, 0, true).state[0] == FULL
    ensures 0 in SyncMask(b.state) <==> Effective(b)[0] != 0
  {
    hide PowerTile;
    LiftedIsFull(b, ref);
    var e := Effective(b);
    assert e[0] != 0 ==> AnyOn(e);
    assert Target(e, ref)[0] == TargetAt(e, ref, 0);
  }

  lemma TargetsOfExample()
    ensures Target([0, 0, 1], 1) == [CLK_DET, FULL, FULL] && Target([1, 0, 1], 1) == [FULL, FULL, FULL]
  {
    assert [0, 0, 1][2] != 0 && [1, 0, 1][0] != 0;
  }

  /** Concretely: tile 2 alone is requested, so the group is tiles 1 and 2, but not tile 0, which
      is running when the group is synchronised. */
  lemma SyncGroupLacksTileZero()
    ensures var b := SetRequests([0, 0, 1], 1);
            && PowerTile(b, 1, 0, true).state == [FULL, FULL, FULL]
            && SyncMask(b.state) == {1, 2}
  {
    hide PowerTile, Target, Effective;
    var b := SetRequests([0, 0, 1], 1);
    TargetsOfExample();
    EffectiveIsKept(Bank([0, 0, 0], [0, 0, 0]), [0, 0, 1], 1);
    assert [0, 0, 1][0 := 1] == [1, 0, 1];
  }

  /** The value read back for one tile: its state, plus a flag when it differs from the request. */
  function Readback(state: int, request: int): int {
    if request != 0 && state < CLK_DET then state + REQUEST_ON_OFFSET
    else if request == 0 && SHUTDOWN < state then state + REQUEST_OFF_OFFSET
    else state
  }

  /** The value tells the state, and whether the request had to be overruled: 0x100 for a tile that was
      requested and has no clock, 0x200 for one that runs or waits without a request. */
  lemma ReadbackTells(state: int, request: int)
    requires 0 <= state < 0x100
    ensures var v := Readback(state, request);
            && v % 0x100 == state
            && (v / 0x100 == 1 <==> request != 0 && state < CLK_DET)
            && (v / 0x100 == 2 <==> request == 0 && SHUTDOWN < state)
            && v / 0x100 <= 2
  {
  }

  /** After any calls as above, "forced on" is flagged for exactly the unrequested powered
      tiles, and "forced off" is never flagged. */
  lemma ReadbackFlags(b: Bank, ref: nat, calls: seq<Call>, k: nat)
    requires WellFormed(b, ref) && 0 < ref && k < |b.state|
    requires exists c :: c in calls && Concerns(c, |b.state|)
    ensures var r := RunCalls(b, ref, calls);
            var v := Readback(r.state[k], Effective(r)[k]);
            && (REQUEST_OFF_OFFSET <= v <==> LatestRequests(b, calls)[k] == 0 && SHUTDOWN < r.state[k])
            && v == r.state[k] + if REQUEST_OFF_OFFSET <= v then REQUEST_OFF_OFFSET else 0
  {
    StatesFollowLatestRequests(b, ref, calls);
    var req := LatestRequests(b, calls);
    assert RunCalls(b, ref, calls).state[k] == TargetAt(req, ref, k);
    assert req[k] != 0 ==> AnyOn(req);
  }

  /** The two states agree except perhaps at one tile, the one whose change failed. */
  ghost predicate DifferInOneTile(a: seq<int>, b: seq<int>) {
    exists k :: 0 <= k < |a| && AgreeExceptAt(a, b, k)
  }

  ghost predicate AgreeExceptAt(a: seq<int>, b: seq<int>, k: nat) {
    && |a| == |b|
    && forall j :: 0 <= j < |a| && j != k ==> a[j] == b[j]
  }

  lemma NextDown(s: seq<int>, t: seq<int>, ref: nat, p: nat, tile: nat)
    requires ref < |s| == |t| && p < |s| && tile == DownTile(|s|, ref, p)
    ensures Downs(s, t, ref, p + 1) == Downs(s, t, ref, p) + if t[tile] < s[tile] then [Step(tile, t[tile])] else []
  {
  }

  lemma NextUp(s: seq<int>, t: seq<int>, ref: nat, p: nat, tile: nat)
    requires ref < |s| == |t| && p < |s| && tile == UpTile(|s|, ref, p)
    ensures Ups(s, t, ref, p + 1) == Ups(s, t, ref, p) + if s[tile] < t[tile] then [Step(tile, t[tile])] else []
  {
  }

  lemma NoVisits(s: seq<int>, t: seq<int>, ref: nat)
    requires ref < |s| == |t|
    ensures Downs(s, t, ref, 0) == [] && Ups(s, t, ref, 0) == [] && Run(s, []) == s
  {
  }

  lemma {:induction false} DownsPrefix(s: seq<int>, t: seq<int>, ref: nat, i: nat, j: nat)
    requires ref < |s| == |t| && i <= j <= |s|
    ensures Downs(s, t, ref, i) <= Downs(s, t, ref, j)
    decreases j
  {
    if i < j {
      DownsPrefix(s, t, ref, i, j - 1);
    }
  }

  lemma {:induction false} DownsEndAtSource(s: seq<int>, t: seq<int>, ref: nat)
    requires ref < |s| == |t|
    ensures Downs(s, t, ref, |s|) == Downs(s, t, ref, |s| - 1) + if t[ref] < s[ref] then [Step(ref, t[ref])] else []
  {
    assert DownTile(|s|, ref, |s| - 1) == ref;
  }

  lemma {:induction false} UpsPrefix(s: seq<int>, t: seq<int>, ref: nat, i: nat, j: nat)
    requires ref < |s| == |t| && i <= j <= |s|
    ensures Ups(s, t, ref, i) <= Ups(s, t, ref, j)
    decreases j
  {
    if i < j {
      UpsPrefix(s, t, ref, i, j - 1);
    }
  }

  class Tiles {
    const ref: nat                     // the tile that receives the clock
    const perTile: nat                 // converters in one tile
    const tileRequest: array<int>      // stored requests
    var state: seq<int>                // the driver's view of the hardware
    var synchronised: seq<Handed>      // what the synchroniser has been given so far
    var initDone: bool

    ghost predicate Valid()
      reads this
    {
      0 < ref < |state| == tileRequest.Length && 0 < perTile
    }

    ghost function View(): (b: Bank)
      reads this, tileRequest
    {
      Bank(state, tileRequest[..])
    }

    constructor (tiles: nat, source: nat, converters: nat, powerUp: seq<int>)
      requires 0 < source < tiles == |powerUp| && 0 < converters
      ensures Valid() && fresh(tileRequest)
      ensures ref == source && perTile == converters && initDone && synchronised == []
      ensures state == powerUp && forall k :: 0 <= k < tiles ==> tileRequest[k] == -1
    {
      ref, perTile, state, initDone, synchronised := source, converters, powerUp, true, [];
      tileRequest := new int[tiles](_ => -1);
    }

    /** One change of one tile through the driver. A failure may leave that tile anywhere.
        The ghost arguments say how the current state came about. */
    method ChangeTileState(tile: nat, requestState: int, ghost from: seq<int>, ghost steps: seq<Step>)
      returns (ok: bool)
      requires Valid() && tile < |state| && state == Run(from, steps)
      modifies `state
      ensures Valid() && |state| == |old(state)|
      ensures ok ==> state == old(state)[tile := requestState] && state == Run(from, steps + [Step(tile, requestState)])
      ensures !ok ==> DifferInOneTile(state, Run(from, steps))
    {
      ok := *;
      RunSnoc(from, steps, Step(tile, requestState));
      if ok {
        state := state[tile := requestState];
      } else {
        var left: int := *;
        state := state[tile := left];
        assert AgreeExceptAt(state, Run(from, steps), tile);
      }
    }

    /** Changes a tile only when needed; `more` is what was done. */
    method ChangeWhen(needed: bool, tile: nat, requestState: int, ghost from: seq<int>, ghost steps: seq<Step>)
      returns (ok: bool, ghost more: seq<Step>)
      requires Valid() && tile < |state| && state == Run(from, steps)
      modifies `state
      ensures Valid() && |state| == |old(state)|
      ensures ok ==> more == (if needed then [Step(tile, requestState)] else []) && state == Run(from, steps + more)
      ensures !ok ==> more == [] && DifferInOneTile(state, Run(from, steps))
    {
      more := [];
      ok := true;
      assert steps + [] == steps;
      if needed {
        ok := ChangeTileState(tile, requestState, from, steps);
        if ok {
          more := [Step(tile, requestState)];
        }
      }
    }

    /** The sweep down over all tiles but the source. */
    method PowerDownOthers(targetState: array<int>) returns (ok: bool, ghost steps: seq<Step>)
      requires Valid() && targetState.Length == |state|
      modifies `state
      ensures Valid() && |state| == |old(state)|
      ensures steps <= Downs(old(state), targetState[..], ref, |state| - 1)
      ensures ok ==> steps == Downs(old(state), targetState[..], ref, |state| - 1) && state == Run(old(state), steps)
      ensures !ok ==> DifferInOneTile(state, Run(old(state), steps))
    {
      hide Downs, Run, DifferInOneTile;
      ghost var s, t := state, targetState[..];
      NoVisits(s, t, ref);
      steps := [];
      var n := |state|;
      var tileStatus := state;
      var tile, inc := 0, 1;
      for i := 0 to n
        invariant Valid() && |state| == n && state == Run(s, steps)
        invariant i <= ref ==> tile == i && inc == 1 && steps == Downs(s, t, ref, i)
        invariant ref < i ==> tile == n - (i - ref) && inc == -1 && steps == Downs(s, t, ref, i - 1)
      {
        if tile == ref {
          tile := n;
          inc := -1;
        } else {
          ghost var p: nat := if i < ref then i else i - 1;
          NextDown(s, t, ref, p, tile);
          ghost var more;
          ok, more := ChangeWhen(targetState[tile] < tileStatus[tile], tile, targetState[tile], s, steps);
          if !ok {
            DownsPrefix(s, t, ref, p, n - 1);
            return;
          }
          steps := steps + more;
        }
        tile := tile + inc;
      }
      ok := true;
    }

    /** The sweep down. On failure `steps` are the changes made before the failing one. */
    method PowerDown(targetState: array<int>) returns (ok: bool, ghost steps: seq<Step>)
      requires Valid() && targetState.Length == |state|
      modifies `state
      ensures Valid() && |state| == |old(state)|
      ensures steps <= Downs(old(state), targetState[..], ref, |state|)
      ensures ok ==> steps == Downs(old(state), targetState[..], ref, |state|) && state == Run(old(state), steps)
      ensures !ok ==> DifferInOneTile(state, Run(old(state), steps))
    {
      hide Downs, Run, DifferInOneTile;
      ghost var s, t := state, targetState[..];
      var tileStatus := state;
      ok, steps := PowerDownOthers(targetState);
      DownsEndAtSource(s, t, ref);
      if ok {
        ghost var last;
        ok, last := ChangeWhen(targetState[ref] < tileStatus[ref], ref, targetState[ref], s, steps);
        if ok {
          steps := steps + last;
        }
      }
    }

    /** Tile 0 to at least CLK_DET, when it is needed. */
    method PromoteTile0(targetState: array<int>) returns (ok: bool, ghost steps: seq<Step>)
      requires Valid() && targetState.Length == |state|
      modifies `state
      ensures Valid() && |state| == |old(state)|
      ensures steps <= Promotion(old(state), targetState[..])
      ensures ok ==> steps == Promotion(old(state), targetState[..]) && state == Run(old(state), steps)
      ensures !ok ==> DifferInOneTile(state, Run(old(state), steps))
    {
      steps := [];
      ok := true;
      if targetState[0] > SHUTDOWN && state[0] < CLK_DET {
        ok := ChangeTileState(0, CLK_DET, state, []);
        if ok {
          steps := [Step(0, CLK_DET)];
        }
      }
    }

    /** The sweep up. */
    method PowerUp(targetState: array<int>) returns (ok: bool, ghost steps: seq<Step>)
      requires Valid() && targetState.Length == |state|
      modifies `state
      ensures Valid() && |state| == |old(state)|
      ensures steps <= Ups(old(state), targetState[..], ref, |state|)
      ensures ok ==> steps == Ups(old(state), targetState[..], ref, |state|) && state == Run(old(state), steps)
      ensures !ok ==> DifferInOneTile(state, Run(old(state), steps))
    {
      hide Ups, Run, DifferInOneTile;
      ghost var s, t := state, targetState[..];
      NoVisits(s, t, ref);
      steps := [];
      var n := |state|;
      var tileStatus := state;
      var tile, inc := ref as int, -1;
      for i := 0 to n + 1
        invariant Valid() && |state| == n && state == Run(s, steps)
        invariant i <= ref + 1 ==> tile == ref - i && inc == -1 && steps == Ups(s, t, ref, i)
        invariant ref + 1 < i ==> tile == i - 1 && inc == 1 && steps == Ups(s, t, ref, i - 1)
      {
        if tile < 0 {
          tile := ref;
          inc := 1;
        } else {
          ghost var p: nat := if i <= ref then i else i - 1;
          NextUp(s, t, ref, p, tile);
          ghost var more;
          ok, more := ChangeWhen(targetState[tile] > tileStatus[tile], tile, targetState[tile], s, steps);
          if !ok {
            UpsPrefix(s, t, ref, p, n);
            return;
          }
          steps := steps + more;
        }
        tile := tile + inc;
      }
      ok := true;
    }

    /** Carries out the plan for the targets, or a prefix of it up to a failing change. */
    method ApplyTileStates(targetState: array<int>) returns (ok: bool, ghost steps: seq<Step>)
      requires Valid() && targetState.Length == |state|
      modifies `state
      ensures Valid() && |state| == |old(state)|
      ensures steps <= Plan(old(state), targetState[..], ref)
      ensures ok ==> steps == Plan(old(state), targetState[..], ref) && state == Run(old(state), steps)
      ensures !ok ==> DifferInOneTile(state, Run(old(state), steps))
      ensures ok && (targetState[0] <= SHUTDOWN || CLK_DET <= targetState[0]) ==> state == targetState[..]
    {
      hide Run, Downs, Ups, DifferInOneTile;
      ghost var s, t := state, targetState[..];
      ghost var more;
      ok, steps := PowerDown(targetState);
      if !ok { return; }
      ghost var s1 := state;
      ok, more := PromoteTile0(targetState);
      RunConcat(s, steps, more);
      steps := steps + more;
      if !ok { return; }
      ghost var s2 := state;
      ok, more := PowerUp(targetState);
      RunConcat(s, steps, more);
      steps := steps + more;
      if ok && (t[0] <= SHUTDOWN || CLK_DET <= t[0]) {
        PlanReachesTarget(s, t, ref);
      }
    }

    /** Stores the requests, then applies the targets computed from them. */
    method ChangeTilePwrRaw(requestStatus: array<int>) returns (ok: bool, ghost steps: seq<Step>)
      requires Valid() && requestStatus.Length == |state| && requestStatus != tileRequest
      modifies `state, tileRequest, requestStatus
      ensures Valid()
      ensures tileRequest[..] == old(requestStatus[..])
      ensures ok ==> View() == SetRequests(old(requestStatus[..]), ref)
      ensures steps <= Plan(old(state), Target(old(requestStatus[..]), ref), ref)
      ensures !ok ==> DifferInOneTile(state, Run(old(state), steps))
      ensures |state| == |old(state)|
    {
      var n := |state|;
      for i := 0 to n
        invariant Valid() && state == old(state)
        invariant requestStatus[..] == old(requestStatus[..])
        invariant forall k :: 0 <= k < i ==> tileRequest[k] == requestStatus[k]
      {
        tileRequest[i] := requestStatus[i];
      }
      assert tileRequest[..] == old(requestStatus[..]);
      var targetState := new int[n];
      TileTargetState(ref, requestStatus, targetState);
      ok, steps := ApplyTileStates(targetState);
    }

    method CopyTileRequest(request: array<int>)
      requires Valid() && request.Length == |state| && request != tileRequest
      modifies request
      ensures request[..] == Effective(View())
    {
      for i := 0 to |state|
        invariant forall k :: 0 <= k < i ==> request[k] == Effective(View())[k]
      {
        var r := tileRequest[i];
        if r < 0 {
          r := if state[i] == FULL then 1 else 0;
        }
        request[i] := r;
      }
    }

    method ChangeTilePwr(tile: nat, on: bool) returns (ok: bool)
      requires Valid()
      modifies `state, tileRequest
      ensures Valid() && |state| == |old(state)|
      ensures |old(state)| <= tile ==> !ok && View() == old(View())
      ensures ok ==> View() == PowerTile(old(View()), ref, tile, on)
      ensures tile < |old(state)| ==> tileRequest[..] == Effective(old(View()))[tile := if on then 1 else 0]
    {
      if tile >= |state| {
        return false;
      }
      var request := new int[|state|];
      CopyTileRequest(request);
      request[tile] := if on then 1 else 0;
      ghost var steps;
      ok, steps := ChangeTilePwrRaw(request);
    }

    /** Multi-tile synchronisation. `sysrefOk` says whether the SYSREF configuration worked. */
    method SyncType(sysrefOk: bool) returns (ok: bool)
      requires Valid()
      modifies `state, `synchronised, tileRequest
      ensures Valid() && |state| == |old(state)|
      ensures !initDone ==> View() == old(View()) && !ok
      ensures ok ==> View() == Synced(old(View()), ref)
      ensures ok ==> synchronised == old(synchronised) + [Handing(old(View()), ref)]
      ensures !initDone || !sysrefOk ==> synchronised == old(synchronised)
      ensures initDone && !sysrefOk ==> !ok && tileRequest[..] == Effective(old(View()))[0 := 1]
    {
      hide PowerTile, Synced, SyncMask, Target, Effective;
      ok := false;
      if !initDone {
        return;
      }
      var ipStatus := state;
      var oldTileRequest := new int[|state|];
      CopyTileRequest(oldTileRequest);
      var lifted := ChangeTilePwr(0, true);
      if !lifted {
        return;
      }
      var mask := RunningTiles(ipStatus);
      assert state == PowerTile(old(View()), ref, 0, true).state;
      if !sysrefOk {
        return;
      }
      synchronised := synchronised + [Handed(mask, state)];
      ghost var steps;
      ok, steps := ChangeTilePwrRaw(oldTileRequest);
    }

    method RunningTiles(ipStatus: seq<int>) returns (mask: set<nat>)
      ensures mask == SyncMask(ipStatus)
    {
      mask := {};
      for tile := 0 to |ipStatus|
        invariant mask == SyncMask(ipStatus[..tile])
      {
        if ipStatus[tile] == FULL {
          mask := mask + {tile};
        }
      }
      assert ipStatus[..|ipStatus|] == ipStatus;
    }

    method StateChanged(oldTileStatus: seq<int>) returns (stateChanged: bool)
      requires |oldTileStatus| == |state|
      ensures stateChanged <==> state != oldTileStatus
    {
      stateChanged := false;
      var i := 0;
      while i < |state| && !stateChanged
        invariant i <= |state|
        invariant stateChanged ==> state != oldTileStatus
        invariant !stateChanged ==> state[..i] == oldTileStatus[..i]
        decreases |state| - i, !stateChanged
      {
        if oldTileStatus[i] != state[i] {
          stateChanged := true;
        } else {
          i := i + 1;
        }
      }
    }

    method SetShutdownMode(channel: nat, on: bool, sysrefOk: bool) returns (ok: bool)
      requires Valid()
      modifies `state, `synchronised, tileRequest
      ensures Valid() && |state| == |old(state)|
      ensures !initDone || |old(state)| <= channel / perTile ==> View() == old(View())
      ensures ok ==> View() == ShutdownMode(old(View()), ref, channel / perTile, on)
      ensures ok ==>
                synchronised == old(synchronised) + CallHands(old(View()), ref, Shutdown(channel / perTile, on))
    {
      if !initDone {
        return false;
      }
      hide PowerTile, Synced, Target, Effective, SyncMask, Handing, ShutdownMode, CallHands;
      var tile := channel / perTile;
      var oldTileStatus := state;
      ShutdownInParts(View(), ref, tile, on);
      ok := ChangeTilePwr(tile, on);
      if !ok {
        return;
      }
      var stateChanged := StateChanged(oldTileStatus);
      if on && stateChanged {
        ghost var powered := View();
        ok := SyncType(sysrefOk);
        assert ok ==> synchronised == old(synchronised) + [Handing(powered, ref)];
      } else {
        assert synchronised + [] == synchronised;
      }
    }

    method GetShutdownMode(channel: nat) returns (mode: int)
      requires Valid()
      ensures !initDone || |state| <= channel / perTile ==> mode == -1
      ensures initDone && channel / perTile < |state| ==>
                mode == Readback(state[channel / perTile], Effective(View())[channel / perTile])
    {
      if !initDone {
        return -1;
      }
      var tile := channel / perTile;
      if tile >= |state| {
        return -1;
      }
      var tileState := state[tile];
      var request := tileRequest[tile];
      if request < 0 {
        request := if tileState == FULL then 1 else 0;
      }
      mode := tileState;
      if request != 0 && tileState < CLK_DET {
        mode := mode + REQUEST_ON_OFFSET;
      }
      if request == 0 && tileState > SHUTDOWN {
        mode := mode + REQUEST_OFF_OFFSET;
      }
    }
  }
}
