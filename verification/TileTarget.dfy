/**
 Which power state each data-converter tile should be in (software/src/rfdc.c).

 The sampling clock enters at one source tile and is passed from tile to tile, so a tile can
 run only when the source and every tile between them forward the clock. A request vector says
 which tiles the operator wants on; a nonzero entry is a request.
 */
module TileTarget {

  /* Power states of the converter driver. Only their order, and that they stay below the
     request flags, matters; the driver's own header is not part of this model. */
  const SHUTDOWN := 1
  const CLK_DET := 6
  const FULL := 15

  /** Tile `k` forwards the clock from the source tile `ref` to tile `j`. */
  predicate Between(k: int, j: int, ref: int) {
    j < k < ref || ref < k < j
  }

  ghost predicate AnyOn(req: seq<int>) {
    exists i :: 0 <= i < |req| && req[i] != 0
  }

  /** Some requested tile, or tile 0 when anything at all is on, gets its clock through `k`. */
  ghost predicate Feeds(req: seq<int>, ref: int, k: int) {
    exists j :: 0 <= j < |req| && (req[j] != 0 || (j == 0 && AnyOn(req))) && Between(k, j, ref)
  }

  ghost function TargetAt(req: seq<int>, ref: int, k: nat): int
    requires k < |req|
  {
    if !AnyOn(req) then SHUTDOWN
    else if req[k] != 0 then FULL
    else if k == 0 then CLK_DET
    else if k == ref then FULL
    else if Feeds(req, ref, k) then CLK_DET
    else SHUTDOWN
  }

  ghost function Target(req: seq<int>, ref: int): (t: seq<int>)
    ensures |t| == |req|
  {
    seq(|req|, k requires 0 <= k < |req| => TargetAt(req, ref, k))
  }

  /** What the hardware needs from an assignment `t` for the requests `req`. */
  ghost predicate Admissible(req: seq<int>, ref: nat, t: seq<int>)
    requires ref < |req| == |t|
  {
    && (forall k :: 0 <= k < |t| ==> SHUTDOWN <= t[k])
    && (forall k :: 0 <= k < |t| && req[k] != 0 ==> FULL <= t[k])
    && (AnyOn(req) ==> CLK_DET <= t[0] && FULL <= t[ref])
    && (forall j, k :: 0 <= j < |t| && 0 <= k < |t| && CLK_DET <= t[j] && Between(k, j, ref) ==> CLK_DET <= t[k])
  }

  /** The computed targets are admissible and no admissible assignment powers any tile less. */
  lemma TargetIsLeast(req: seq<int>, ref: nat)
    requires 0 < ref < |req|
    ensures Admissible(req, ref, Target(req, ref))
    ensures forall t :: |t| == |req| && Admissible(req, ref, t) ==>
              forall k :: 0 <= k < |req| ==> Target(req, ref)[k] <= t[k]
  {
    var best := Target(req, ref);
    forall j, k | 0 <= j < |best| && 0 <= k < |best| && CLK_DET <= best[j] && Between(k, j, ref)
      ensures CLK_DET <= best[k]
    {
      PoweredFeedsInward(req, ref, j, k);
    }
    forall t, k | |t| == |req| && Admissible(req, ref, t) && 0 <= k < |req|
      ensures best[k] <= t[k]
    {
      if AnyOn(req) && req[k] == 0 && k != 0 && k != ref && Feeds(req, ref, k) {
        var j :| 0 <= j < |req| && (req[j] != 0 || (j == 0 && AnyOn(req))) && Between(k, j, ref);
        assert CLK_DET <= t[j];
      }
    }
  }

  /** A powered tile's clock path: every tile nearer the source feeds it. */
  lemma PoweredFeedsInward(req: seq<int>, ref: nat, j: nat, k: nat)
    requires ref < |req| && j < |req| && k < |req|
    requires CLK_DET <= TargetAt(req, ref, j) && Between(k, j, ref)
    ensures CLK_DET <= TargetAt(req, ref, k)
  {
    if req[j] == 0 && j != 0 {
      assert Feeds(req, ref, j);
      var i :| 0 <= i < |req| && (req[i] != 0 || (i == 0 && AnyOn(req))) && Between(j, i, ref);
      assert Between(k, i, ref);
    }
    assert k != 0 ==> Feeds(req, ref, k);
  }

  /** Asking for more tiles never lowers a tile. */
  lemma TargetIsMonotone(req: seq<int>, more: seq<int>, ref: nat)
    requires 0 < ref < |req| == |more|
    requires forall i :: 0 <= i < |req| && req[i] != 0 ==> more[i] != 0
    ensures forall k :: 0 <= k < |req| ==> Target(req, ref)[k] <= Target(more, ref)[k]
  {
    TargetIsLeast(req, ref);
    TargetIsLeast(more, ref);
    if AnyOn(req) {
      var i :| 0 <= i < |req| && req[i] != 0;
      assert more[i] != 0;
    }
    assert Admissible(req, ref, Target(more, ref));
  }

  /** The clock source is demoted exactly when it is tile 0, something is on, and it was not
      itself requested: the override for tile 0 then undoes the rule that a source stays FULL. */
  lemma SourceRunsUnlessItIsTileZero(req: seq<int>, ref: nat)
    requires ref < |req| && AnyOn(req)
    ensures Target(req, ref)[ref] == FULL <==> (ref != 0 || req[0] != 0)
  {
  }

  /** A concrete demotion: two tiles, tile 1 requested, tile 0 the source. */
  lemma SourceAtTileZeroIsDemoted()
    ensures Target([0, 1], 0) == [CLK_DET, FULL]
  {
    assert [0, 1][1] != 0;
    assert AnyOn([0, 1]);
  }

  /** The outward tiles' verdict when `forced` is the request vector with tile 0 switched on. */
  ghost function ChainAt(forced: seq<int>, ref: int, k: nat): int
    requires k < |forced|
  {
    if forced[k] != 0 then FULL
    else if exists j :: 0 <= j < |forced| && forced[j] != 0 && Between(k, j, ref) then CLK_DET
    else SHUTDOWN
  }

  method AnyRequested(requestStatus: array<int>) returns (anyOn: bool)
    ensures anyOn == AnyOn(requestStatus[..])
  {
    anyOn := false;
    for i := 0 to requestStatus.Length
      invariant anyOn <==> exists j :: 0 <= j < i && requestStatus[j] != 0
    {
      if requestStatus[i] != 0 {
        anyOn := true;
      }
    }
  }

  /** The sweep from each end of the chain inward. */
  method SweepChain(tileRefClk: nat, requestStatus: array<int>, targetState: array<int>)
    returns (clockNeedBelow: bool, clockNeedAbove: bool)
    requires tileRefClk < requestStatus.Length == targetState.Length
    requires requestStatus != targetState
    modifies targetState
    ensures forall k :: 0 <= k < targetState.Length && k != tileRefClk ==>
              targetState[k] == ChainAt(requestStatus[..], tileRefClk, k)
    ensures clockNeedBelow <==> exists j :: 0 <= j < tileRefClk && requestStatus[j] != 0
    ensures clockNeedAbove <==> exists j :: tileRefClk < j < requestStatus.Length && requestStatus[j] != 0
  {
    ghost var forced := requestStatus[..];
    var n := requestStatus.Length;
    clockNeedBelow, clockNeedAbove := false, false;
    var tile, inc := 0, 1;
    for i := 0 to n
      invariant requestStatus[..] == forced
      invariant i <= tileRefClk ==> tile == i && inc == 1 && !clockNeedAbove
      invariant tileRefClk < i ==> tile == n - (i - tileRefClk) && inc == -1
      invariant clockNeedBelow <==> exists j :: 0 <= j < i && j < tileRefClk && forced[j] != 0
      invariant clockNeedAbove <==> exists j :: tile < j < n && tileRefClk < j && inc == -1 && forced[j] != 0
      invariant forall k :: 0 <= k < i && k < tileRefClk ==> targetState[k] == ChainAt(forced, tileRefClk, k)
      invariant inc == -1 ==> forall k :: tile < k < n ==> targetState[k] == ChainAt(forced, tileRefClk, k)
    {
      if tile == tileRefClk {
        tile := n;
        inc := -1;
      } else {
        if requestStatus[tile] != 0 {
          if inc == 1 { clockNeedBelow := true; } else { clockNeedAbove := true; }
          targetState[tile] := FULL;
        } else if (if inc == 1 then clockNeedBelow else clockNeedAbove) {
          targetState[tile] := CLK_DET;
        } else {
          targetState[tile] := SHUTDOWN;
        }
        assert targetState[tile] == ChainAt(forced, tileRefClk, tile);
      }
      tile := tile + inc;
    }
  }

  /** One sweep from each end of the chain inward, then the source, then tile 0. The request
      vector is changed in place: tile 0 is switched on while anything is. */
  method TileTargetState(tileRefClk: nat, requestStatus: array<int>, targetState: array<int>)
    requires tileRefClk < requestStatus.Length == targetState.Length
    requires requestStatus != targetState
    modifies requestStatus, targetState
    ensures targetState[..] == Target(old(requestStatus[..]), tileRefClk)
    ensures AnyOn(old(requestStatus[..])) && old(requestStatus[0]) == 0
            ==> requestStatus[..] == old(requestStatus[..])[0 := 1]
    ensures !AnyOn(old(requestStatus[..])) || old(requestStatus[0]) != 0
            ==> requestStatus[..] == old(requestStatus[..])
  {
    ghost var req := requestStatus[..];
    var anyOn := AnyRequested(requestStatus);
    var oldTile0RequestStatus := requestStatus[0];
    if anyOn && oldTile0RequestStatus == 0 {
      requestStatus[0] := 1;
    }
    ghost var forced := requestStatus[..];
    assert forall j :: 0 <= j < |req| ==> (forced[j] != 0 <==> req[j] != 0 || (j == 0 && anyOn));

    var clockNeedBelow, clockNeedAbove := SweepChain(tileRefClk, requestStatus, targetState);

    if requestStatus[tileRefClk] != 0 {
      targetState[tileRefClk] := FULL;
    } else if clockNeedBelow || clockNeedAbove {
      targetState[tileRefClk] := FULL;
    } else {
      targetState[tileRefClk] := SHUTDOWN;
    }

    if requestStatus[0] != 0 && oldTile0RequestStatus == 0 {
      targetState[0] := CLK_DET;
    }
    ChainMeetsTarget(req, forced, tileRefClk);
    assert targetState[..] == Target(req, tileRefClk);
  }

  /** Away from the source and from tile 0 the sweep's verdict is the target. */
  lemma ChainMeetsTarget(req: seq<int>, forced: seq<int>, ref: nat)
    requires ref < |req| == |forced|
    requires forall j :: 0 <= j < |req| ==> (forced[j] != 0 <==> req[j] != 0 || (j == 0 && AnyOn(req)))
    ensures forall k :: 0 < k < |req| && k != ref ==> ChainAt(forced, ref, k) == TargetAt(req, ref, k)
    ensures AnyOn(req) <==> exists j :: 0 <= j < |req| && forced[j] != 0
    ensures AnyOn(req) ==> forced[0] != 0
  {
    if AnyOn(req) {
      assert forced[0] != 0;
    }
  }
}
