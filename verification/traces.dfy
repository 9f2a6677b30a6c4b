/**
 * Runs of the scheduler: a sequence of polls, between which the engine may
 * change any motor's running flag (motion finishing, or anything else it
 * reports). Properties of a single poll live with `Poll`; these are the
 * ones that only make sense over many.
 */
module Traces {

  import opened Clock
  import opened Actuators
  import opened Scheduler

  /** One call of `loop()`: the clock reading and each slot's running flag as the engine reports it. */
  datatype Tick = Tick(now: u32, running: seq<bool>)

  /** Where a run ends: the final state, the final bank, and the signed length of every leg started, in order. */
  datatype Trace = Trace(state: State, bank: seq<Slot>, legs: seq<int>)

  /** Every tick reports one flag per slot of a bank of `n` slots. */
  predicate WellFormed(ticks: seq<Tick>, n: nat)
  {
    forall k :: 0 <= k < |ticks| ==> |ticks[k].running| == n
  }

  /** The engine's report between polls: connected motors take the flags given; nothing else changes. */
  function Observe(bank: seq<Slot>, flags: seq<bool>): seq<Slot>
    requires |flags| == |bank|
  {
    seq(|bank|, i requires 0 <= i < |bank| =>
      match bank[i]
      case Unbound => Unbound
      case Bound(a) => Bound(a.(running := flags[i])))
  }

  /** The leg a poll started, if any, as a signed step count. */
  function LegOf(s: State, r: Outcome): seq<int>
  {
    if StartedLeg(s, r) then [MOVE_STEPS * s.dir] else []
  }

  /** The scheduler driven through the ticks, from state `s` and bank `bank`. */
  function Run(s: State, bank: seq<Slot>, ticks: seq<Tick>): Trace
    requires WellFormed(ticks, |bank|)
    decreases |ticks|
  {
    if |ticks| == 0 then Trace(s, bank, [])
    else
      var o := Poll(s, ticks[0].now, Observe(bank, ticks[0].running));
      var rest := Run(o.state, o.bank, ticks[1..]);
      Trace(rest.state, rest.bank, LegOf(s, o) + rest.legs)
  }

  /** `n` legs alternating in sign, the first one in direction `d`. */
  function Alternating(n: nat, d: int): (r: seq<int>)
    ensures |r| == n
  {
    if n == 0 then [] else [MOVE_STEPS * d] + Alternating(n - 1, -d)
  }

  /**
   * Strict alternation: whatever the clock and the engine report, the legs
   * of any run go MOVE_STEPS * d, -MOVE_STEPS * d, MOVE_STEPS * d, ...,
   * starting from the state's direction, and the direction left behind is
   * the one that continues the alternation.
   */
  lemma {:induction false} LegsAlternate(s: State, bank: seq<Slot>, ticks: seq<Tick>)
    requires Valid(s) && WellFormed(ticks, |bank|)
    ensures var r := Run(s, bank, ticks);
            && r.legs == Alternating(|r.legs|, s.dir)
            && MOVE_STEPS * r.state.dir == Alternating(|r.legs| + 1, s.dir)[|r.legs|]
            && Valid(r.state)
    decreases |ticks|
  {
    if |ticks| > 0 {
      var o := Poll(s, ticks[0].now, Observe(bank, ticks[0].running));
      LegsAlternate(o.state, o.bank, ticks[1..]);
      var rest := Run(o.state, o.bank, ticks[1..]);
      assert Run(s, bank, ticks) == Trace(rest.state, rest.bank, LegOf(s, o) + rest.legs);
      if StartedLeg(s, o) {
        assert o.state.dir == -s.dir;
        assert LegOf(s, o) + rest.legs == Alternating(|rest.legs| + 1, s.dir);
        assert Alternating(|rest.legs| + 2, s.dir)[|rest.legs| + 1] == Alternating(|rest.legs| + 1, -s.dir)[|rest.legs|];
      } else {
        assert o.state.dir == s.dir;
        assert LegOf(s, o) + rest.legs == rest.legs;
      }
    }
  }

  /** The k-th of the alternating legs (counting from 0) goes in direction `d` for even k. */
  lemma {:induction false} AlternatingAt(n: nat, d: int, k: nat)
    requires k < n
    ensures Alternating(n, d)[k] == (if k % 2 == 0 then MOVE_STEPS * d else -MOVE_STEPS * d)
    decreases n
  {
    if k > 0 {
      AlternatingAt(n - 1, -d, k - 1);
    }
  }

  /** From the initial statics, the legs run +MOVE_STEPS, -MOVE_STEPS, +MOVE_STEPS, ... */
  lemma {:induction false} FromInitialLegsAlternate(bank: seq<Slot>, ticks: seq<Tick>, r: Trace)
    requires WellFormed(ticks, |bank|) && r == Run(INITIAL, bank, ticks)
    ensures forall k :: 0 <= k < |r.legs| ==> r.legs[k] == (if k % 2 == 0 then MOVE_STEPS else -MOVE_STEPS)
  {
    LegsAlternate(INITIAL, bank, ticks);
    forall k | 0 <= k < |r.legs|
      ensures r.legs[k] == (if k % 2 == 0 then MOVE_STEPS else -MOVE_STEPS)
    {
      AlternatingAt(|r.legs|, 1, k);
    }
  }

  /**
   * `after` is `before` with `legs` appended to every connected motor's log:
   * same slots, empty ones still empty, connected ones still connected.
   */
  predicate LogsExtended(before: seq<Slot>, after: seq<Slot>, legs: seq<int>)
  {
    && |after| == |before|
    && (forall i :: 0 <= i < |before| ==> (after[i].Bound? <==> before[i].Bound?))
    && (forall i :: 0 <= i < |before| && before[i].Bound? ==> after[i].motor.log == before[i].motor.log + legs)
  }

  lemma LogsExtendedCompose(a: seq<Slot>, b: seq<Slot>, c: seq<Slot>, l1: seq<int>, l2: seq<int>)
    requires LogsExtended(a, b, l1) && LogsExtended(b, c, l2)
    ensures LogsExtended(a, c, l1 + l2)
  {
    forall i | 0 <= i < |a| && a[i].Bound?
      ensures c[i].motor.log == a[i].motor.log + (l1 + l2)
    {
      assert a[i].motor.log + l1 + l2 == a[i].motor.log + (l1 + l2);
    }
  }

  /**
   * Every connected motor receives every leg, and nothing else: its command
   * log grows by exactly the run's legs, in order. Empty slots stay empty and
   * connected ones stay connected.
   */
  lemma {:induction false} LogsFollowLegs(s: State, bank: seq<Slot>, ticks: seq<Tick>)
    requires WellFormed(ticks, |bank|)
    ensures LogsExtended(bank, Run(s, bank, ticks).bank, Run(s, bank, ticks).legs)
    decreases |ticks|
  {
    if |ticks| > 0 {
      var seen := Observe(bank, ticks[0].running);
      PollLogs(s, ticks[0].now, bank, ticks[0].running);
      var o := Poll(s, ticks[0].now, seen);
      LogsFollowLegs(o.state, o.bank, ticks[1..]);
      var rest := Run(o.state, o.bank, ticks[1..]);
      assert Run(s, bank, ticks) == Trace(rest.state, rest.bank, LegOf(s, o) + rest.legs);
      LogsExtendedCompose(bank, o.bank, rest.bank, LegOf(s, o), rest.legs);
    }
  }

  /** One poll, after the engine's report, appends the leg it started (if any) to every connected motor's log. */
  lemma PollLogs(s: State, now: u32, bank: seq<Slot>, flags: seq<bool>)
    requires |flags| == |bank|
    ensures var o := Poll(s, now, Observe(bank, flags));
            LogsExtended(bank, o.bank, LegOf(s, o))
  {
    var seen := Observe(bank, flags);
    var o := Poll(s, now, seen);
    assert forall i :: 0 <= i < |bank| ==> (seen[i].Bound? <==> bank[i].Bound?);
    assert forall i :: 0 <= i < |bank| && bank[i].Bound? ==> seen[i].motor.log == bank[i].motor.log;
    if !StartedLeg(s, o) {
      assert o.bank == seen;
      assert forall i :: 0 <= i < |bank| && bank[i].Bound? ==> bank[i].motor.log + [] == bank[i].motor.log;
    }
  }

  lemma {:induction false} SumPrepend(x: int, xs: seq<int>)
    ensures Sum([x] + xs) == x + Sum(xs)
    decreases |xs|
  {
    if |xs| > 0 {
      var n := |xs| - 1;
      assert ([x] + xs)[..n + 1] == [x] + xs[..n];
      SumPrepend(x, xs[..n]);
    } else {
      assert [x] + xs == [x];
      assert [x][..0] == [];
    }
  }

  /** The alternating legs cancel in pairs. */
  lemma {:induction false} SumAlternating(n: nat, d: int)
    ensures Sum(Alternating(n, d)) == (if n % 2 == 0 then 0 else MOVE_STEPS * d)
    decreases n
  {
    if n > 0 {
      SumPrepend(MOVE_STEPS * d, Alternating(n - 1, -d));
      SumAlternating(n - 1, -d);
    }
  }

  /**
   * The motion of the whole program: started from the initial statics with
   * motors just connected (idle, at position 0, no move issued), every
   * connected motor's commanded displacement is MOVE_STEPS after an odd
   * number of legs and back to 0 after an even number.
   */
  lemma {:induction false} DisplacementOscillates(bank: seq<Slot>, ticks: seq<Tick>, r: Trace)
    requires WellFormed(ticks, |bank|) && r == Run(INITIAL, bank, ticks)
    requires forall i :: 0 <= i < |bank| && bank[i].Bound? ==> bank[i].motor.log == []
    ensures LogsExtended(bank, r.bank, r.legs)
    ensures forall i :: 0 <= i < |r.bank| && r.bank[i].Bound? ==>
              && r.bank[i].motor.log == r.legs
              && Displacement(r.bank[i].motor) == (if |r.legs| % 2 == 0 then 0 else MOVE_STEPS)
  {
    LogsFollowLegs(INITIAL, bank, ticks);
    LegsAlternate(INITIAL, bank, ticks);
    assert LogsExtended(bank, r.bank, r.legs);
    assert r.legs == Alternating(|r.legs|, 1);
    SumAlternating(|r.legs|, 1);
    forall i | 0 <= i < |r.bank| && r.bank[i].Bound?
      ensures r.bank[i].motor.log == r.legs
      ensures Displacement(r.bank[i].motor) == (if |r.legs| % 2 == 0 then 0 else MOVE_STEPS)
    {
      assert bank[i].Bound?;
      assert r.bank[i].motor.log == [] + r.legs == r.legs;
    }
  }

  /**
   * Pause lower bound over a run: after the pause is entered at time `t`,
   * polls that all come fewer than PAUSE_MS ms after `t` start no leg and
   * leave the state exactly as it was, however often they come.
   */
  lemma {:induction false} NoLegBeforePauseElapses(s: State, t: u32, bank: seq<Slot>, ticks: seq<Tick>)
    requires s.paused && s.pauseUntil == Add(t, PAUSE_MS)
    requires WellFormed(ticks, |bank|)
    requires forall k :: 0 <= k < |ticks| ==> Sub(ticks[k].now, t) < PAUSE_MS
    ensures Run(s, bank, ticks).legs == []
    ensures Run(s, bank, ticks).state == s
    decreases |ticks|
  {
    if |ticks| > 0 {
      var seen := Observe(bank, ticks[0].running);
      PauseLowerBound(s, t, ticks[0].now, seen);
      var o := Poll(s, ticks[0].now, seen);
      NoLegBeforePauseElapses(s, t, o.bank, ticks[1..]);
    }
  }

  /** The ticks with slot `j`'s flag taken out. */
  function RemoveFlag(ticks: seq<Tick>, j: nat): seq<Tick>
    requires forall k :: 0 <= k < |ticks| ==> j < |ticks[k].running|
  {
    seq(|ticks|, k requires 0 <= k < |ticks| => Tick(ticks[k].now, Remove(ticks[k].running, j)))
  }

  lemma ObserveRemove(bank: seq<Slot>, flags: seq<bool>, j: nat)
    requires |flags| == |bank| && j < |bank|
    ensures Observe(Remove(bank, j), Remove(flags, j)) == Remove(Observe(bank, flags), j)
  {
  }

  /**
   * Empty-slot transparency: a bank with an empty slot runs exactly like the
   * bank without it, whatever the engine reports for that slot. The states,
   * the legs and every other slot's history are the same, and the slot
   * itself stays empty.
   */
  lemma {:induction false} RunIgnoresUnbound(s: State, bank: seq<Slot>, ticks: seq<Tick>, j: nat)
    requires j < |bank| && bank[j].Unbound?
    requires WellFormed(ticks, |bank|)
    ensures var r := Run(s, bank, ticks);
            var r' := Run(s, Remove(bank, j), RemoveFlag(ticks, j));
            && r'.state == r.state
            && r'.legs == r.legs
            && |r.bank| == |bank|
            && r.bank[j].Unbound?
            && r'.bank == Remove(r.bank, j)
    decreases |ticks|
  {
    var ticks' := RemoveFlag(ticks, j);
    if |ticks| > 0 {
      var seen := Observe(bank, ticks[0].running);
      ObserveRemove(bank, ticks[0].running, j);
      PollIgnoresUnbound(s, ticks[0].now, seen, j);
      var o := Poll(s, ticks[0].now, seen);
      RunIgnoresUnbound(o.state, o.bank, ticks[1..], j);
      assert ticks'[1..] == RemoveFlag(ticks[1..], j);
    }
  }
}
