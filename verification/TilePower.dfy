/**
 Bringing the tiles to their targets (software/src/rfdc.c): leaves first on the way down, the
 clock source first on the way up, and the operator's requests that drive it.
 */
module TilePower {
  import opened Common
  import opened TileTarget

  const REQUEST_ON_OFFSET := 0x100
  const REQUEST_OFF_OFFSET := 0x200

  /** One successful state change of one tile. */
  datatype Step = Step(tile: nat, state: int)

  ghost function Run(s: seq<int>, steps: seq<Step>): (r: seq<int>)
    ensures |r| == |s|
  {
    if steps == [] then s
    else
      var r := Run(s, steps[..|steps| - 1]);
      var last := steps[|steps| - 1];
      if last.tile < |s| then r[last.tile := last.state] else r
  }

  /** Every powered tile has a live clock path. Tile 0 alone may wait at CLK_DET for its clock. */
  ghost predicate ClockClosed(s: seq<int>, ref: nat)
    requires ref < |s|
  {
    forall k :: 0 <= k < |s| && CLK_DET <= s[k] && !(k == 0 && s[k] == CLK_DET) ==>
      s[ref] == FULL && forall j :: 0 <= j < |s| && Between(j, k, ref) ==> CLK_DET <= s[j]
  }

  ghost predicate ClosedThroughout(s: seq<int>, steps: seq<Step>, ref: nat)
    requires ref < |s|
  {
    forall m :: 0 <= m <= |steps| ==> ClockClosed(Run(s, steps[..m]), ref)
  }

  /** The tile visited at position `i` on the way down: both ends inward, the source last. */
  function DownTile(n: nat, ref: nat, i: nat): (tile: nat)
    requires ref < n && i < n
    ensures tile < n
  {
    if i < ref then i else if i < n - 1 then n - 1 - (i - ref) else ref
  }

  /** The tile visited at position `i` on the way up: the source first, then each side outward. */
  function UpTile(n: nat, ref: nat, i: nat): (tile: nat)
    requires ref < n && i < n
    ensures tile < n
  {
    if i <= ref then ref - i else i
  }

  /** When the way down visits tile `k`. */
  function DownPosition(n: nat, ref: nat, k: nat): (p: nat)
    requires ref < n && k < n
    ensures p < n && DownTile(n, ref, p) == k
  {
    if k < ref then k else if k == ref then n - 1 else ref + (n - 1 - k)
  }

  /** When the way up visits tile `k`. */
  function UpPosition(n: nat, ref: nat, k: nat): (p: nat)
    requires ref < n && k < n
    ensures p < n && UpTile(n, ref, p) == k
  {
    if k <= ref then ref - k else k
  }

  /** Each visit is to another tile. */
  lemma PositionsInvert(n: nat, ref: nat, i: nat)
    requires ref < n && i < n
    ensures DownPosition(n, ref, DownTile(n, ref, i)) == i
    ensures UpPosition(n, ref, UpTile(n, ref, i)) == i
  {
  }

  /** The changes made by the first `i` visits on the way down from state `s`. */
  ghost function Downs(s: seq<int>, t: seq<int>, ref: nat, i: nat): seq<Step>
    requires ref < |s| == |t| && i <= |s|
  {
    if i == 0 then []
    else
      var k := DownTile(|s|, ref, i - 1);
      Downs(s, t, ref, i - 1) + if t[k] < s[k] then [Step(k, t[k])] else []
  }

  ghost function Ups(s: seq<int>, t: seq<int>, ref: nat, i: nat): seq<Step>
    requires ref < |s| == |t| && i <= |s|
  {
    if i == 0 then []
    else
      var k := UpTile(|s|, ref, i - 1);
      Ups(s, t, ref, i - 1) + if s[k] < t[k] then [Step(k, t[k])] else []
  }

  /** Tile 0 is lifted to CLK_DET between the two sweeps when it will be needed. */
  ghost function Promotion(s: seq<int>, t: seq<int>): seq<Step>
    requires 0 < |s| == |t|
  {
    if SHUTDOWN < t[0] && s[0] < CLK_DET then [Step(0, CLK_DET)] else []
  }

  ghost function Lowered(s: seq<int>, t: seq<int>, ref: nat): (r: seq<int>)
    requires ref < |s| == |t|
    ensures |r| == |s|
  {
    Run(s, Downs(s, t, ref, |s|))
  }

  ghost function Promoted(s: seq<int>, t: seq<int>, ref: nat): (r: seq<int>)
    requires ref < |s| == |t|
    ensures |r| == |s|
  {
    Run(Lowered(s, t, ref), Promotion(Lowered(s, t, ref), t))
  }

  ghost function Plan(s: seq<int>, t: seq<int>, ref: nat): seq<Step>
    requires ref < |s| == |t|
  {
    Downs(s, t, ref, |s|)
    + Promotion(Lowered(s, t, ref), t)
    + Ups(Promoted(s, t, ref), t, ref, |s|)
  }

  lemma RunSnoc(s: seq<int>, steps: seq<Step>, last: Step)
    requires last.tile < |s|
    ensures Run(s, steps + [last]) == Run(s, steps)[last.tile := last.state]
  {
    assert (steps + [last])[..|steps|] == steps;
  }

  lemma {:induction false} RunConcat(s: seq<int>, a: seq<Step>, b: seq<Step>)
    ensures Run(s, a + b) == Run(Run(s, a), b)
  {
    if b == [] {
      assert a + b == a;
    } else {
      var front := b[..|b| - 1];
      RunConcat(s, a, front);
      assert (a + b)[..|a + b| - 1] == a + front;
    }
  }

  /** State after the first `i` visits down: visited tiles hold the smaller of the two. */
  lemma {:induction false} RunDowns(s: seq<int>, t: seq<int>, ref: nat, i: nat)
    requires ref < |s| == |t| && i <= |s|
    ensures forall k :: 0 <= k < |s| ==>
              Run(s, Downs(s, t, ref, i))[k] == if DownPosition(|s|, ref, k) < i then Min(s[k], t[k]) else s[k]
  {
    if i != 0 {
      RunDowns(s, t, ref, i - 1);
      PositionsInvert(|s|, ref, i - 1);
      var k := DownTile(|s|, ref, i - 1);
      var before := Downs(s, t, ref, i - 1);
      RunSnoc(s, before, Step(k, t[k]));
      assert before + [] == before;
      var r := Run(s, Downs(s, t, ref, i));
      assert r == Run(s, before)[k := Min(s[k], t[k])];
      forall j | 0 <= j < |s| && j != k
        ensures DownPosition(|s|, ref, j) < i <==> DownPosition(|s|, ref, j) < i - 1
      {
        assert DownTile(|s|, ref, DownPosition(|s|, ref, j)) == j;
      }
    }
  }

  lemma {:induction false} RunUps(s: seq<int>, t: seq<int>, ref: nat, i: nat)
    requires ref < |s| == |t| && i <= |s|
    ensures forall k :: 0 <= k < |s| ==>
              Run(s, Ups(s, t, ref, i))[k] == if UpPosition(|s|, ref, k) < i then Max(s[k], t[k]) else s[k]
  {
    if i != 0 {
      RunUps(s, t, ref, i - 1);
      PositionsInvert(|s|, ref, i - 1);
      var k := UpTile(|s|, ref, i - 1);
      var before := Ups(s, t, ref, i - 1);
      RunSnoc(s, before, Step(k, t[k]));
      assert before + [] == before;
      var r := Run(s, Ups(s, t, ref, i));
      assert r == Run(s, before)[k := Max(s[k], t[k])];
      forall j | 0 <= j < |s| && j != k
        ensures UpPosition(|s|, ref, j) < i <==> UpPosition(|s|, ref, j) < i - 1
      {
        assert UpTile(|s|, ref, UpPosition(|s|, ref, j)) == j;
      }
    }
  }

  lemma LoweredIsMinimum(s: seq<int>, t: seq<int>, ref: nat)
    requires ref < |s| == |t|
    ensures forall k :: 0 <= k < |s| ==> Lowered(s, t, ref)[k] == Min(s[k], t[k])
  {
    RunDowns(s, t, ref, |s|);
  }

  lemma PromotedValue(s: seq<int>, t: seq<int>, ref: nat)
    requires ref < |s| == |t|
    ensures forall k :: 0 < k < |s| ==> Promoted(s, t, ref)[k] == Min(s[k], t[k])
    ensures Promoted(s, t, ref)[0] == if SHUTDOWN < t[0] && Min(s[0], t[0]) < CLK_DET then CLK_DET else Min(s[0], t[0])
  {
    LoweredIsMinimum(s, t, ref);
    var s1 := Lowered(s, t, ref);
    assert [Step(0, CLK_DET)][..0] == [];
    assert Run(s1, []) == s1;
  }

  lemma PlanRunsInPhases(s: seq<int>, t: seq<int>, ref: nat)
    requires ref < |s| == |t|
    ensures Run(s, Plan(s, t, ref)) == Run(Promoted(s, t, ref), Ups(Promoted(s, t, ref), t, ref, |s|))
  {
    var downs := Downs(s, t, ref, |s|);
    var promotion := Promotion(Lowered(s, t, ref), t);
    RunConcat(s, downs, promotion);
    RunConcat(s, downs + promotion, Ups(Promoted(s, t, ref), t, ref, |s|));
  }

  lemma PromotedIsBelowTarget(s: seq<int>, t: seq<int>, ref: nat)
    requires ref < |s| == |t|
    requires t[0] <= SHUTDOWN || CLK_DET <= t[0]
    ensures forall k :: 0 <= k < |s| ==> Promoted(s, t, ref)[k] <= t[k]
  {
    PromotedValue(s, t, ref);
  }

  lemma UpsReachTarget(s: seq<int>, t: seq<int>, ref: nat)
    requires ref < |s| == |t| && forall k :: 0 <= k < |s| ==> s[k] <= t[k]
    ensures Run(s, Ups(s, t, ref, |s|)) == t
  {
    RunUps(s, t, ref, |s|);
  }

  /** A completed plan leaves exactly the targets. */
  lemma PlanReachesTarget(s: seq<int>, t: seq<int>, ref: nat)
    requires ref < |s| == |t|
    requires t[0] <= SHUTDOWN || CLK_DET <= t[0]
    ensures Run(s, Plan(s, t, ref)) == t
  {
    PlanRunsInPhases(s, t, ref);
    PromotedIsBelowTarget(s, t, ref);
    UpsReachTarget(Promoted(s, t, ref), t, ref);
  }

  lemma {:induction false} DownsStayClosed(s: seq<int>, req: seq<int>, ref: nat, i: nat)
    requires 0 < ref < |s| == |req| && i <= |s|
    requires ClockClosed(s, ref)
    ensures ClosedThroughout(s, Downs(s, Target(req, ref), ref, i), ref)
  {
    var t := Target(req, ref);
    var steps := Downs(s, t, ref, i);
    if i == 0 {
      assert Run(s, steps[..0]) == s;
    } else {
      DownsStayClosed(s, req, ref, i - 1);
      var before := Downs(s, t, ref, i - 1);
      DownVisitStaysClosed(s, req, ref, i);
      forall m | 0 <= m <= |steps|
        ensures ClockClosed(Run(s, steps[..m]), ref)
      {
        if m <= |before| {
          assert steps[..m] == before[..m];
        } else {
          assert steps[..m] == steps;
        }
      }
    }
  }

  /** The state between two visits on the way down is closed: what lies farther out has
      already come down to targets that are closed themselves. */
  lemma DownVisitStaysClosed(s: seq<int>, req: seq<int>, ref: nat, i: nat)
    requires 0 < ref < |s| == |req| && i <= |s|
    requires ClockClosed(s, ref)
    ensures ClockClosed(Run(s, Downs(s, Target(req, ref), ref, i)), ref)
  {
    hide Run, Downs;
    var n, t := |s|, Target(req, ref);
    var r := Run(s, Downs(s, t, ref, i));
    TargetIsLeast(req, ref);
    RunDowns(s, t, ref, i);
    forall k | 0 <= k < n && CLK_DET <= r[k] && !(k == 0 && r[k] == CLK_DET)
      ensures r[ref] == FULL
      ensures forall j :: 0 <= j < n && Between(j, k, ref) ==> CLK_DET <= r[j]
    {
      assert CLK_DET <= s[k] && !(k == 0 && s[k] == CLK_DET);
      if i == n {
        assert r[k] == Min(s[k], t[k]);
        assert AnyOn(req);
      }
      forall j | 0 <= j < n && Between(j, k, ref)
        ensures CLK_DET <= r[j]
      {
        assert DownPosition(n, ref, k) < DownPosition(n, ref, j);
      }
    }
  }

  lemma {:induction false} UpsStayClosed(s: seq<int>, req: seq<int>, ref: nat, i: nat)
    requires 0 < ref < |s| == |req| && i <= |s|
    requires ClockClosed(s, ref)
    requires forall k :: 0 <= k < |s| ==> s[k] <= Target(req, ref)[k]
    ensures ClosedThroughout(s, Ups(s, Target(req, ref), ref, i), ref)
  {
    var t := Target(req, ref);
    var steps := Ups(s, t, ref, i);
    if i == 0 {
      assert Run(s, steps[..0]) == s;
    } else {
      UpsStayClosed(s, req, ref, i - 1);
      var before := Ups(s, t, ref, i - 1);
      UpVisitStaysClosed(s, req, ref, i);
      forall m | 0 <= m <= |steps|
        ensures ClockClosed(Run(s, steps[..m]), ref)
      {
        if m <= |before| {
          assert steps[..m] == before[..m];
        } else {
          assert steps[..m] == steps;
        }
      }
    }
  }

  /** The state between two visits on the way up is closed: what lies nearer the source has
      already reached its target. */
  lemma UpVisitStaysClosed(s: seq<int>, req: seq<int>, ref: nat, i: nat)
    requires 0 < ref < |s| == |req| && i <= |s|
    requires ClockClosed(s, ref)
    requires forall k :: 0 <= k < |s| ==> s[k] <= Target(req, ref)[k]
    ensures ClockClosed(Run(s, Ups(s, Target(req, ref), ref, i)), ref)
  {
    var n, t := |s|, Target(req, ref);
    var r := Run(s, Ups(s, t, ref, i));
    TargetIsLeast(req, ref);
    RunUps(s, t, ref, i);
    forall k | 0 <= k < n && CLK_DET <= r[k] && !(k == 0 && r[k] == CLK_DET)
      ensures r[ref] == FULL
      ensures forall j :: 0 <= j < n && Between(j, k, ref) ==> CLK_DET <= r[j]
    {
      assert CLK_DET <= t[k];
      if UpPosition(n, ref, k) < i {
        assert r[ref] == t[ref];
        forall j | 0 <= j < n && Between(j, k, ref)
          ensures CLK_DET <= r[j]
        {
          assert UpPosition(n, ref, j) < UpPosition(n, ref, k);
        }
      } else {
        assert r[k] == s[k];
        assert t[ref] == FULL;
      }
    }
  }

  lemma ThroughoutConcat(s: seq<int>, a: seq<Step>, b: seq<Step>, ref: nat)
    requires ref < |s|
    requires ClosedThroughout(s, a, ref) && ClosedThroughout(Run(s, a), b, ref)
    ensures ClosedThroughout(s, a + b, ref)
  {
    forall m | 0 <= m <= |a + b|
      ensures ClockClosed(Run(s, (a + b)[..m]), ref)
    {
      if m <= |a| {
        assert (a + b)[..m] == a[..m];
      } else {
        assert (a + b)[..m] == a + b[..m - |a|];
        RunConcat(s, a, b[..m - |a|]);
      }
    }
  }

  /** From any closed state, the clock path of every powered tile stays live after every
      single tile change on the way to the targets of any request vector. */
  lemma EveryStepKeepsClockPath(s: seq<int>, req: seq<int>, ref: nat)
    requires 0 < ref < |s| == |req|
    requires ClockClosed(s, ref)
    ensures ClosedThroughout(s, Plan(s, Target(req, ref), ref), ref)
  {
    var t := Target(req, ref);
    var downs := Downs(s, t, ref, |s|);
    var s1 := Lowered(s, t, ref);
    var promotion := Promotion(s1, t);
    var s2 := Promoted(s, t, ref);
    DownsStayClosed(s, req, ref, |s|);
    assert downs[..|downs|] == downs;
    assert ClockClosed(s1, ref);
    PromotedValue(s, t, ref);
    LoweredIsMinimum(s, t, ref);
    assert ClosedThroughout(s1, promotion, ref) by {
      forall m | 0 <= m <= |promotion|
        ensures ClockClosed(Run(s1, promotion[..m]), ref)
      {
        if m == 0 {
          assert promotion[..m] == [];
        } else {
          assert promotion[..m] == promotion;
          assert Run(s1, promotion) == s1[0 := CLK_DET];
        }
      }
    }
    assert promotion[..|promotion|] == promotion;
    TargetIsLeast(req, ref);
    UpsStayClosed(s2, req, ref, |s|);
    ThroughoutConcat(s, downs, promotion, ref);
    RunConcat(s, downs, promotion);
    ThroughoutConcat(s, downs + promotion, Ups(s2, t, ref, |s|), ref);
  }

  /** All changes made by applying one request vector after another from state `s`. */
  ghost function History(s: seq<int>, reqs: seq<seq<int>>, ref: nat): seq<Step>
    requires ref < |s| && forall r :: r in reqs ==> |r| == |s|
  {
    if reqs == [] then []
    else
      var before := History(s, reqs[..|reqs| - 1], ref);
      before + Plan(Run(s, before), Target(reqs[|reqs| - 1], ref), ref)
  }

  /** However often the requests change, no single tile change ever cuts a live clock path. */
  lemma {:induction false} WholeHistoryKeepsClockPath(s: seq<int>, reqs: seq<seq<int>>, ref: nat)
    requires 0 < ref < |s| && forall r :: r in reqs ==> |r| == |s|
    requires ClockClosed(s, ref)
    ensures ClosedThroughout(s, History(s, reqs, ref), ref)
  {
    if reqs == [] {
      assert Run(s, []) == s;
    } else {
      var front, last := reqs[..|reqs| - 1], reqs[|reqs| - 1];
      WholeHistoryKeepsClockPath(s, front, ref);
      var before := History(s, front, ref);
      assert before[..|before|] == before;
      EveryStepKeepsClockPath(Run(s, before), last, ref);
      ThroughoutConcat(s, before, Plan(Run(s, before), Target(last, ref), ref), ref);
    }
  }

  /** The way down changes no tile twice, and lowers every tile it changes. */
  lemma {:induction false} DownsChangeTilesOnce(s: seq<int>, t: seq<int>, ref: nat, i: nat)
    requires ref < |s| == |t| && i <= |s|
    ensures forall x :: x in Downs(s, t, ref, i) ==>
              x.tile < |s| && x.state < s[x.tile] && DownPosition(|s|, ref, x.tile) < i
    ensures forall a, b :: 0 <= a < b < |Downs(s, t, ref, i)| ==>
              Downs(s, t, ref, i)[a].tile != Downs(s, t, ref, i)[b].tile
  {
    if i != 0 {
      DownsChangeTilesOnce(s, t, ref, i - 1);
      PositionsInvert(|s|, ref, i - 1);
      var before := Downs(s, t, ref, i - 1);
      assert forall a :: 0 <= a < |before| ==> before[a] in before;
    }
  }

  /** The way up changes no tile twice, and raises every tile it changes. */
  lemma {:induction false} UpsChangeTilesOnce(s: seq<int>, t: seq<int>, ref: nat, i: nat)
    requires ref < |s| == |t| && i <= |s|
    ensures forall x :: x in Ups(s, t, ref, i) ==>
              x.tile < |s| && s[x.tile] < x.state && UpPosition(|s|, ref, x.tile) < i
    ensures forall a, b :: 0 <= a < b < |Ups(s, t, ref, i)| ==> Ups(s, t, ref, i)[a].tile != Ups(s, t, ref, i)[b].tile
  {
    if i != 0 {
      UpsChangeTilesOnce(s, t, ref, i - 1);
      PositionsInvert(|s|, ref, i - 1);
      var before := Ups(s, t, ref, i - 1);
      assert forall a :: 0 <= a < |before| ==> before[a] in before;
    }
  }
}
