/**
 Recovery of a cell controller link (software/src/cellComm.c): when the link stays down it is
 reset, first the Aurora core alone, then together with its transceiver, on timers that run on
 a wrapping 32-bit microsecond clock.
 */
module CellComm {
  import opened Common

  /** The two reset bits of the control register; the machine never sets another. */
  datatype Control = Control(aurora: bool, gt: bool)

  const NONE := Control(false, false)
  const AURORA := Control(true, false)
  const BOTH := Control(true, true)

  datatype State = Up | Down1 | AuroraReset1 | Down2 | BothReset | AuroraReset2

  /** A register write, with the true time and the number of the outage it was made in. */
  datatype Write = Write(value: Control, at: nat, outage: nat)

  /** The machine's fields and register, with history: every write so far, the true time at
      which the running timer was started, and the number of outages seen. */
  datatype World = World(state: State, control: Control, base: nat, limit: nat, register: Control,
                         trace: seq<Write>, started: nat, outage: nat)

  const INITIAL := World(Up, NONE, 0, 0, NONE, [], 0, 0)

  function Written(w: World, control: Control, t: nat, limit: nat, state: State): World {
    w.(control := control, register := control, trace := w.trace + [Write(control, t, w.outage)],
       base := t % U32, started := t, limit := limit, state := state)
  }

  /** One look at the link at true time `t`; the machine itself only sees `t` modulo 2^32. */
  function Cranked(w: World, t: nat, up: bool): World {
    var timeout := Sub32(t % U32, w.base) > w.limit;
    match w.state
    case Up =>
      if up then w
      else w.(base := t % U32, started := t, control := NONE, limit := 30_000_000, state := Down1,
              outage := w.outage + 1)
    case Down1 =>
      if up then w.(state := Up)
      else if timeout then Written(w, w.control.(aurora := true), t, 100_000, AuroraReset1)
      else w
    case AuroraReset1 =>
      if timeout then Written(w, w.control.(aurora := false), t, 1_000_000, Down2) else w
    case Down2 =>
      if up then w.(state := Up)
      else if timeout then Written(w, w.control.(aurora := true, gt := true), t, 100_000, BothReset)
      else w
    case BothReset =>
      if timeout then Written(w, w.control.(gt := false), t, 1_000_000, AuroraReset2) else w
    case AuroraReset2 =>
      if timeout then Written(w, w.control.(aurora := false), t, 30_000_000, Down1) else w
  }

  /** Time since the last timer start, as the machine sees it, is never more than it truly is. */
  lemma ClockNeverRunsAhead(t: nat, s: nat)
    requires s <= t
    ensures Sub32(t % U32, s % U32) <= t - s
  {
    var d := t - s;
    var k := t / U32 - s / U32;
    assert t % U32 - s % U32 == d - U32 * k;
    RemainderIsSmall(d - U32 * k, d, k);
  }

  lemma RemainderIsSmall(a: int, d: nat, k: int)
    requires a == d - U32 * k
    ensures a % U32 <= d
  {
    var q := a / U32;
    assert d == U32 * (q + k) + a % U32;
  }

  /** How long the value written must be held before the next write. */
  function Hold(trace: seq<Write>, i: nat): nat
    requires i + 1 < |trace|
  {
    if trace[i].value == BOTH then 100_000
    else if trace[i].value == AURORA then
      if 0 < i && trace[i - 1].value == BOTH then 1_000_000 else 100_000
    else if trace[i + 1].value == BOTH then 1_000_000
    else 30_000_000
  }

  /** One reset attempt: Aurora alone, or followed by both in the same outage. */
  function Attempt(long: bool): seq<Control> {
    if long then [AURORA, NONE, BOTH, AURORA, NONE] else [AURORA, NONE]
  }

  function Attempts(kinds: seq<bool>): seq<Control> {
    if kinds == [] then [] else Attempts(kinds[..|kinds| - 1]) + Attempt(kinds[|kinds| - 1])
  }

  function Values(trace: seq<Write>): (v: seq<Control>)
    ensures |v| == |trace|
  {
    seq(|trace|, i requires 0 <= i < |trace| => trace[i].value)
  }

  /** What is still to be written to finish the attempt under way. */
  function Pending(state: State): seq<Control> {
    match state
    case AuroraReset1 => [NONE]
    case BothReset => [AURORA, NONE]
    case AuroraReset2 => [NONE]
    case _ => []
  }

  /** The writes so far, finished, are whole attempts; in the middle of an outage after an
      Aurora-only reset the last attempt is a short one. */
  ghost predicate Shaped(w: World, kinds: seq<bool>) {
    && Values(w.trace) + Pending(w.state) == Attempts(kinds)
    && (w.state in {AuroraReset1, Down2} ==> kinds != [] && !kinds[|kinds| - 1])
  }

  ghost predicate HeldAt(trace: seq<Write>, i: nat)
    requires i + 1 < |trace|
  {
    trace[i].at + Hold(trace, i) < trace[i + 1].at
  }

  ghost predicate Timed(trace: seq<Write>) {
    forall i {:trigger HeldAt(trace, i)} :: 0 <= i < |trace| - 1 ==> HeldAt(trace, i)
  }

  ghost predicate EscalatedAt(trace: seq<Write>, i: nat)
    requires i < |trace|
  {
    trace[i].value == BOTH ==>
      && 2 <= i && trace[i - 1].value == NONE && trace[i - 2].value == AURORA
      && trace[i].outage == trace[i - 1].outage == trace[i - 2].outage
  }

  /** The transceiver is reset only after an Aurora-only reset in the same outage. */
  ghost predicate Escalates(trace: seq<Write>) {
    forall i {:trigger EscalatedAt(trace, i)} :: 0 <= i < |trace| ==> EscalatedAt(trace, i)
  }

  function ControlIn(state: State): Control {
    match state
    case AuroraReset1 => AURORA
    case BothReset => BOTH
    case AuroraReset2 => AURORA
    case _ => NONE
  }

  ghost predicate Invariant(w: World, now: nat) {
    var n := |w.trace|;
    && w.register == w.control == ControlIn(w.state)
    && w.started <= now && w.base == w.started % U32
    && (n > 0 ==> w.trace[n - 1].value == w.control && w.trace[n - 1].at <= w.started)
    && (w.state !in {Up, Down1} ==> n > 0 && w.trace[n - 1].at == w.started && w.trace[n - 1].outage == w.outage)
    && (w.state == Down2 ==> n > 1 && w.trace[n - 2].value == AURORA && w.trace[n - 2].outage == w.outage)
    && (w.state == AuroraReset1 ==> n > 1 ==> w.trace[n - 2].value == NONE)
    && (w.state == AuroraReset2 ==> n > 1 && w.trace[n - 2].value == BOTH)
    && w.limit == (match w.state
                   case Up => w.limit
                   case Down1 => 30_000_000
                   case AuroraReset1 => 100_000
                   case Down2 => 1_000_000
                   case BothReset => 100_000
                   case AuroraReset2 => 1_000_000)
  }

  lemma CrankKeepsInvariant(w: World, now: nat, t: nat, up: bool)
    requires Invariant(w, now) && now <= t
    ensures Invariant(Cranked(w, t, up), t)
  {
  }

  lemma ExtendTimed(trace: seq<Write>, x: Write)
    requires Timed(trace)
    requires trace != [] ==> trace[|trace| - 1].at + Hold(trace + [x], |trace| - 1) < x.at
    ensures Timed(trace + [x])
  {
    forall i | 0 <= i < |trace + [x]| - 1
      ensures HeldAt(trace + [x], i)
    {
      if i < |trace| - 1 {
        assert HeldAt(trace, i);
      }
    }
  }

  lemma ExtendEscalates(trace: seq<Write>, x: Write)
    requires Escalates(trace)
    requires EscalatedAt(trace + [x], |trace|)
    ensures Escalates(trace + [x])
  {
    forall i | 0 <= i < |trace + [x]|
      ensures EscalatedAt(trace + [x], i)
    {
      if i < |trace| {
        assert EscalatedAt(trace, i);
      }
    }
  }

  /** Every write comes later than the last one by more than its value had to be held. */
  lemma CrankKeepsTimed(w: World, now: nat, t: nat, up: bool)
    requires Invariant(w, now) && now <= t && Timed(w.trace)
    ensures Timed(Cranked(w, t, up).trace)
  {
    var w' := Cranked(w, t, up);
    if w'.trace != w.trace {
      ClockNeverRunsAhead(t, w.started);
      assert w.limit < t - w.started;
      ExtendTimed(w.trace, w'.trace[|w.trace|]);
    }
  }

  lemma CrankKeepsEscalates(w: World, now: nat, t: nat, up: bool)
    requires Invariant(w, now) && Escalates(w.trace)
    ensures Escalates(Cranked(w, t, up).trace)
  {
    var w' := Cranked(w, t, up);
    if w'.trace != w.trace {
      ExtendEscalates(w.trace, w'.trace[|w.trace|]);
    }
  }

  /** The attempts once the link has been looked at: a new one starts with Aurora alone, and a
      second reset in the same outage turns the last one into a long one. */
  function NextKinds(w: World, w': World, kinds: seq<bool>): seq<bool> {
    if w.state == Down1 && w'.state == AuroraReset1 then kinds + [false]
    else if w.state == Down2 && w'.state == BothReset && kinds != [] then kinds[..|kinds| - 1] + [true]
    else kinds
  }

  lemma {:induction false} AttemptsExtend(kinds: seq<bool>, long: bool)
    ensures Attempts(kinds + [long]) == Attempts(kinds) + Attempt(long)
  {
    assert (kinds + [long])[..|kinds|] == kinds;
  }

  lemma {:induction false} ShapeOfShort(v: seq<Control>, kinds: seq<bool>)
    requires v == Attempts(kinds)
    ensures v + [AURORA] + [NONE] == Attempts(kinds + [false])
  {
    AttemptsExtend(kinds, false);
  }

  lemma {:induction false} ShapeOfLong(v: seq<Control>, kinds: seq<bool>)
    requires kinds != [] && !kinds[|kinds| - 1] && v == Attempts(kinds)
    ensures v + [BOTH] + [AURORA, NONE] == Attempts(kinds[..|kinds| - 1] + [true])
  {
    var front := kinds[..|kinds| - 1];
    assert kinds == front + [false];
    AttemptsExtend(front, true);
  }

  lemma {:induction false} CrankKeepsShape(w: World, t: nat, up: bool, kinds: seq<bool>)
    requires w.control == ControlIn(w.state) && Shaped(w, kinds)
    ensures Shaped(Cranked(w, t, up), NextKinds(w, Cranked(w, t, up), kinds))
  {
    var w' := Cranked(w, t, up);
    var v := Values(w.trace);
    CrankWrites(w, t, up);
    hide Cranked, ControlIn, Values, Attempts, Attempt;
    if w'.trace != w.trace {
      if w.state == Down1 {
        assert v + [] == v;
        ShapeOfShort(v, kinds);
      } else if w.state == Down2 {
        assert v + [] == v;
        ShapeOfLong(v, kinds);
      } else {
        NextPending(v, w.state, w'.state, w'.control);
      }
    }
  }

  /** What one look at the link can do to state and writes. */
  lemma CrankWrites(w: World, t: nat, up: bool)
    requires w.control == ControlIn(w.state)
    ensures var w' := Cranked(w, t, up);
            if w'.trace == w.trace then
              w'.state == w.state
              || (w.state == Up && w'.state == Down1) || (w.state in {Down1, Down2} && w'.state == Up)
            else
              && Values(w'.trace) == Values(w.trace) + [w'.control]
              && w'.control == ControlIn(w'.state)
              && w'.state == (match w.state
                              case Up => Up
                              case Down1 => AuroraReset1
                              case AuroraReset1 => Down2
                              case Down2 => BothReset
                              case BothReset => AuroraReset2
                              case AuroraReset2 => Down1)
              && w.state != Up
  {
    var w' := Cranked(w, t, up);
    if w'.trace != w.trace {
      assert Values(w'.trace) == Values(w.trace) + [w'.control];
    }
  }

  lemma NextPending(v: seq<Control>, state: State, next: State, control: Control)
    requires Pending(state) == [control] + Pending(next)
    ensures v + [control] + Pending(next) == v + Pending(state)
  {
  }

  /** When the link was looked at, and whether it was up. */
  datatype Look = Look(t: nat, up: bool)

  predicate InTime(looks: seq<Look>) {
    forall i, j :: 0 <= i < j < |looks| ==> looks[i].t <= looks[j].t
  }

  function RunLooks(looks: seq<Look>): World {
    if looks == [] then INITIAL
    else Cranked(RunLooks(looks[..|looks| - 1]), looks[|looks| - 1].t, looks[|looks| - 1].up)
  }

  function LastTime(looks: seq<Look>): nat {
    if looks == [] then 0 else looks[|looks| - 1].t
  }

  /** For every run, however long between looks and however often the clock wraps: the
      register holds what the machine believes; its writes are attempts of the two kinds, the
      last perhaps unfinished; the transceiver is reset only after an Aurora-only reset of the
      same outage; and every value is held longer than its limit in true time. */
  lemma {:induction false} EveryRunIsOrderly(looks: seq<Look>) returns (kinds: seq<bool>)
    requires InTime(looks)
    ensures var w := RunLooks(looks);
            && Invariant(w, LastTime(looks))
            && w.register == w.control
            && Values(w.trace) + Pending(w.state) == Attempts(kinds)
            && Shaped(w, kinds)
            && Escalates(w.trace)
            && Timed(w.trace)
  {
    if looks == [] {
      kinds := [];
    } else {
      var front, last := looks[..|looks| - 1], looks[|looks| - 1];
      kinds := EveryRunIsOrderly(front);
      var w := RunLooks(front);
      assert LastTime(front) <= last.t;
      CrankKeepsInvariant(w, LastTime(front), last.t, last.up);
      CrankKeepsTimed(w, LastTime(front), last.t, last.up);
      CrankKeepsEscalates(w, LastTime(front), last.t, last.up);
      CrankKeepsShape(w, last.t, last.up, kinds);
      kinds := NextKinds(w, RunLooks(looks), kinds);
    }
  }

  predicate AllLooks(looks: seq<Look>, up: bool) {
    forall i :: 0 <= i < |looks| ==> looks[i].up == up
  }

  /** A long attempt over and over. */
  function ResetValue(i: nat): Control {
    Attempt(true)[i % 5]
  }

  /** The microseconds that have to pass before that write. */
  function WaitBefore(i: nat): nat {
    [30_000_000, 100_000, 1_000_000, 100_000, 1_000_000][i % 5]
  }

  /** Every look comes later than the one before it by more than the wait, and before the clock has
      come round. */
  predicate Patient(looks: seq<Look>) {
    forall i :: 0 <= i < |looks| - 1 ==> WaitBefore(i) < looks[i + 1].t - looks[i].t < U32
  }

  /** The writes of an outage, one at each look after the first. */
  function Resets(looks: seq<Look>, outage: nat): seq<Write> {
    if |looks| <= 1 then []
    else Resets(looks[..|looks| - 1], outage) + [Write(ResetValue(|looks| - 2), looks[|looks| - 1].t, outage)]
  }

  function StateAfter(writes: nat): State {
    match writes % 5
    case 0 => Down1
    case 1 => AuroraReset1
    case 2 => Down2
    case 3 => BothReset
    case _ => AuroraReset2
  }

  lemma RunOfMore(looks: seq<Look>, last: Look)
    ensures RunLooks(looks + [last]) == Cranked(RunLooks(looks), last.t, last.up)
  {
    assert (looks + [last])[..|looks|] == looks;
  }

  /** A wait of less than 2^32 microseconds is seen for what it is. */
  lemma ShortWaitIsSeen(t: nat, s: nat)
    requires s <= t < s + U32
    ensures Sub32(t % U32, s % U32) == t - s
  {
  }

  /** Recovery, for any run that has left the link up: once it stays down, every look after the first
      makes the next write of a long attempt, and then of another one, for as long as it does. */
  lemma {:induction false} DownLinkIsReset(front: seq<Look>, looks: seq<Look>)
    requires RunLooks(front).state == Up
    requires looks != [] && AllLooks(looks, false) && Patient(looks)
    ensures var w := RunLooks(front);
            RunLooks(front + looks).trace == w.trace + Resets(looks, w.outage + 1)
    ensures ResetUnderWay(RunLooks(front + looks), RunLooks(front).outage + 1, looks)
  {
    hide Cranked, RunLooks, ResetReached, WaitBefore, Sub32, ResetValue;
    var n := |looks| - 1;
    var w, last := RunLooks(front), looks[n];
    assert front + looks == front + looks[..n] + [last];
    RunOfMore(front + looks[..n], last);
    if n == 0 {
      assert front + looks[..n] == front && w.trace + [] == w.trace;
      OutageBegins(w, last.t);
    } else {
      DownLinkIsReset(front, looks[..n]);
      var before := RunLooks(front + looks[..n]);
      assert WaitBefore(n - 1) < last.t - looks[n - 1].t < U32;
      ShortWaitIsSeen(last.t, looks[n - 1].t);
      LimitOfReset(before, n - 1);
      NextReset(before, n - 1, last.t);
      OneMoreWrite(w.trace, Resets(looks[..n], w.outage + 1), Write(ResetValue(n - 1), last.t, w.outage + 1));
    }
  }

  lemma OutageBegins(w: World, t: nat)
    requires w.state == Up
    ensures var w' := Cranked(w, t, false);
            ResetReached(w', 0) && w'.outage == w.outage + 1 && w'.base == t % U32 && w'.trace == w.trace
  {
  }

  lemma LimitOfReset(w: World, writes: nat)
    requires ResetReached(w, writes)
    ensures w.limit == WaitBefore(writes)
  {
  }

  lemma OneMoreWrite(a: seq<Write>, b: seq<Write>, x: Write)
    ensures a + b + [x] == a + (b + [x])
  {
  }

  ghost predicate ResetUnderWay(w: World, outage: nat, looks: seq<Look>)
    requires looks != []
  {
    ResetReached(w, |looks| - 1) && w.outage == outage && w.base == looks[|looks| - 1].t % U32
  }

  ghost predicate ResetReached(w: World, writes: nat) {
    && w.state == StateAfter(writes)
    && w.control == ControlIn(w.state)
    && w.limit == WaitBefore(writes)
  }

  lemma NextReset(w: World, writes: nat, t: nat)
    requires ResetReached(w, writes) && w.limit < Sub32(t % U32, w.base)
    ensures var w' := Cranked(w, t, false);
            && ResetReached(w', writes + 1) && w'.outage == w.outage && w'.base == t % U32
            && w'.trace == w.trace + [Write(ResetValue(writes), t, w.outage)]
  {
  }

  /** A link that stays up is left alone. */
  lemma {:induction false} HealthyLinkIsLeftAlone(front: seq<Look>, looks: seq<Look>)
    requires RunLooks(front).state == Up && AllLooks(looks, true)
    ensures RunLooks(front + looks) == RunLooks(front)
  {
    if looks == [] {
      assert front + looks == front;
    } else {
      var n := |looks| - 1;
      assert front + looks == front + looks[..n] + [looks[n]];
      RunOfMore(front + looks[..n], looks[n]);
      HealthyLinkIsLeftAlone(front, looks[..n]);
    }
  }

  /** How long a state waits at least. */
  function LimitIn(state: State): nat {
    match state
    case Up => 0
    case Down1 => 30_000_000
    case AuroraReset1 => 100_000
    case Down2 => 1_000_000
    case BothReset => 100_000
    case AuroraReset2 => 1_000_000
  }

  /** A look at which the link is down begins a new outage if it was up; a look at which it is up
      ends the waits of an outage; and a waiting state writes, if and only if the time since it was
      entered, as the wrapping clock shows it, exceeds its limit. */
  lemma WritesIff(looks: seq<Look>, last: Look)
    requires InTime(looks)
    ensures var w, w' := RunLooks(looks), RunLooks(looks + [last]);
            && (w'.trace != w.trace <==>
                  w.state != Up && (w.state in {Down1, Down2} ==> !last.up)
                  && LimitIn(w.state) < (last.t - w.started) % U32)
            && (w'.outage != w.outage <==> w.state == Up && !last.up)
            && (w.state == Up && !last.up ==> w'.state == Down1 && w'.outage == w.outage + 1)
            && (w.state in {Up, Down1, Down2} && last.up ==> w'.state == Up)
  {
    RunOfMore(looks, last);
    hide Cranked, RunLooks, Invariant, Shaped, Timed, Escalates, Values, Attempts;
    var _ := EveryRunIsOrderly(looks);
    OneLook(RunLooks(looks), LastTime(looks), last.t, last.up);
  }

  lemma OneLook(w: World, now: nat, t: nat, up: bool)
    requires Invariant(w, now)
    ensures var w' := Cranked(w, t, up);
            && (w'.trace != w.trace <==>
                  w.state != Up && (w.state in {Down1, Down2} ==> !up) && LimitIn(w.state) < (t - w.started) % U32)
            && (w'.outage != w.outage <==> w.state == Up && !up)
            && (w.state == Up && !up ==> w'.state == Down1 && w'.outage == w.outage + 1)
            && (w.state in {Up, Down1, Down2} && up ==> w'.state == Up)
  {
    WrappedDifference(t, w.started);
    hide Sub32;
    assert |Cranked(w, t, up).trace| == |w.trace| ==> Cranked(w, t, up).trace == w.trace;
  }

  lemma WrappedDifference(t: int, s: int)
    ensures Sub32(t % U32, s % U32) == (t - s) % U32
  {
  }

  /** The wait is counted from the look at which the state was entered. */
  lemma {:induction false} WaitBeginsOnEntry(looks: seq<Look>) returns (k: nat)
    requires RunLooks(looks).state != Up
    ensures k < |looks| && RunLooks(looks).started == looks[k].t
    ensures RunLooks(looks[..k]).state != RunLooks(looks).state
    ensures forall j :: k < j <= |looks| ==> RunLooks(looks[..j]).state == RunLooks(looks).state
  {
    var n := |looks| - 1;
    var w := RunLooks(looks);
    assert looks[..|looks|] == looks;
    if RunLooks(looks[..n]).state != w.state {
      k := n;
    } else {
      k := WaitBeginsOnEntry(looks[..n]);
      assert forall j :: 0 <= j <= n ==> looks[..n][..j] == looks[..j];
    }
  }

  /** The link recovery object of the firmware. */
  class CellCommInfo {
    var state: State
    var control: Control
    var base: nat                      // 32-bit clock when the timer was started
    var limit: nat
    var register: Control
    ghost var trace: seq<Write>
    ghost var started: nat
    ghost var outage: nat

    ghost function View(): World
      reads this
    {
      World(state, control, base, limit, register, trace, started, outage)
    }

    constructor ()
      ensures View() == INITIAL
    {
      state, control, base, limit, register := Up, NONE, 0, 0, NONE;
      trace, started, outage := [], 0, 0;
    }

    method WriteRegister(ghost t: nat)
      modifies `register, `trace
      ensures register == control && trace == old(trace) + [Write(control, t, outage)]
    {
      register := control;
      trace := trace + [Write(control, t, outage)];
    }

    /** `usec` is the 32-bit clock at true time `t`. */
    method Crank(usec: nat, channelUp: bool, ghost t: nat)
      requires usec == t % U32
      modifies this
      ensures View() == Cranked(old(View()), t, channelUp)
    {
      var timeout := Sub32(usec, base) > limit;
      match state
      case Up =>
        if !channelUp {
          base, control, limit, state := usec, NONE, 30_000_000, Down1;
          started, outage := t, outage + 1;
        }
      case Down1 =>
        if channelUp {
          state := Up;
        } else if timeout {
          control := control.(aurora := true);
          WriteRegister(t);
          base, limit, state, started := usec, 100_000, AuroraReset1, t;
        }
      case AuroraReset1 =>
        if timeout {
          control := control.(aurora := false);
          WriteRegister(t);
          base, limit, state, started := usec, 1_000_000, Down2, t;
        }
      case Down2 =>
        if channelUp {
          state := Up;
        } else if timeout {
          control := control.(aurora := true, gt := true);
          WriteRegister(t);
          base, limit, state, started := usec, 100_000, BothReset, t;
        }
      case BothReset =>
        if timeout {
          control := control.(gt := false);
          WriteRegister(t);
          base, limit, state, started := usec, 1_000_000, AuroraReset2, t;
        }
      case AuroraReset2 =>
        if timeout {
          control := control.(aurora := false);
          WriteRegister(t);
          base, limit, state, started := usec, 30_000_000, Down1, t;
        }
    }
  }
}
