/**
 * The non-blocking scheduler of `loop()`: a two-state machine (paused or
 * moving) plus the direction of the next leg. Each call of `loop()` is one
 * `Poll`: it reads the clock once and the bank's running flags once, makes
 * at most one transition, and returns at once.
 *
 * `millis()` and `anyRunning()` are each evaluated at most once per call,
 * because the `&&` of the first branch short-circuits before reaching them
 * whenever the second branch is the one evaluated; one `now` and one snapshot
 * of the bank per poll is therefore exact.
 */
module Scheduler {

  import opened Clock
  import opened Actuators

  /** Steps per leg. */
  const MOVE_STEPS: int := 1000
  /** Pause between legs, in milliseconds. */
  const PAUSE_MS: u32 := 1000

  /**
   * The three statics of `loop()`: `isPaused`, `pauseUntilMs` and `dir`
   * (an `int8_t`, the sign of the next leg).
   */
  datatype State = State(paused: bool, pauseUntil: u32, dir: int)

  /** The direction is a sign. */
  predicate Valid(s: State)
  {
    s.dir == 1 || s.dir == -1
  }

  /** The statics' initial values: paused, deadline 0, forward. */
  const INITIAL: State := State(true, 0, 1)

  /** What one poll produces: the new state, the bank after any moves, and the moves issued. */
  datatype Outcome = Outcome(state: State, bank: seq<Slot>, issued: seq<Command>)

  /** The poll left the pause and started a leg. */
  predicate StartedLeg(s: State, r: Outcome)
  {
    s.paused && !r.state.paused
  }

  /** The poll saw the last motor stop and entered the pause. */
  predicate EnteredPause(s: State, r: Outcome)
  {
    !s.paused && r.state.paused
  }

  /**
   * One call of `loop()` at clock reading `now`, with the bank as the engine
   * reports it at that moment.
   */
  function Poll(s: State, now: u32, bank: seq<Slot>): (r: Outcome)
    // A leg starts exactly when paused, the deadline has passed and nothing runs.
    ensures StartedLeg(s, r) <==> s.paused && DeadlineReached(now, s.pauseUntil) && !InMotion(bank)
    // The pause starts exactly when moving and nothing runs any more.
    ensures EnteredPause(s, r) <==> !s.paused && !InMotion(bank)
    // A leg moves every connected motor by the signed leg length and flips the direction.
    ensures StartedLeg(s, r) ==>
              && r.state.dir == -s.dir
              && r.state.pauseUntil == s.pauseUntil
              && r.bank == Burst(bank, MOVE_STEPS * s.dir)
              && r.issued == Commands(bank, MOVE_STEPS * s.dir)
    // Entering the pause sets the deadline PAUSE_MS ahead and issues nothing.
    ensures EnteredPause(s, r) ==>
              r.state == State(true, Add(now, PAUSE_MS), s.dir) && r.bank == bank && r.issued == []
    // A poll whose conditions fail changes nothing.
    ensures r.state.paused == s.paused ==> r == Outcome(s, bank, [])
    // Full barrier: no move is issued while any motor runs.
    ensures r.issued != [] ==> StartedLeg(s, r) && !InMotion(bank)
    ensures |r.bank| == |bank|
    ensures Valid(s) ==> Valid(r.state)
  {
    if s.paused && DeadlineReached(now, s.pauseUntil) && !InMotion(bank) then
      var steps := MOVE_STEPS * s.dir;
      Outcome(s.(paused := false, dir := -s.dir), Burst(bank, steps), Commands(bank, steps))
    else if !s.paused && !InMotion(bank) then
      Outcome(s.(paused := true, pauseUntil := Add(now, PAUSE_MS)), bank, [])
    else
      Outcome(s, bank, [])
  }

  /**
   * The initial deadline 0 counts as passed for the first 2^31 ms of the
   * counter, so a poll then with every motor idle starts the first leg,
   * which goes forward by MOVE_STEPS.
   */
  lemma FirstLegForward(now: u32, bank: seq<Slot>)
    requires (now as int) < HALF && !InMotion(bank)
    ensures StartedLeg(INITIAL, Poll(INITIAL, now, bank))
    ensures Poll(INITIAL, now, bank).bank == Burst(bank, MOVE_STEPS)
    ensures Poll(INITIAL, now, bank).state.dir == -1
  {
  }

  /**
   * Pause lower bound: once the pause is entered at time `t`, a leg can
   * start only when at least PAUSE_MS ms have elapsed since `t` (modulo
   * 2^32); and with nothing running it does start at any poll whose elapsed
   * time lies in `[PAUSE_MS, PAUSE_MS + 2^31)`.
   */
  lemma PauseLowerBound(s: State, t: u32, now: u32, bank: seq<Slot>)
    requires s.paused && s.pauseUntil == Add(t, PAUSE_MS)
    ensures StartedLeg(s, Poll(s, now, bank)) ==> PAUSE_MS <= Sub(now, t)
    ensures PAUSE_MS <= Sub(now, t) && (Sub(now, t) as int) < PAUSE_MS as int + HALF && !InMotion(bank)
            ==> StartedLeg(s, Poll(s, now, bank))
  {
    DeadlineWindow(t, PAUSE_MS, now);
  }

  /**
   * Repeated polls at one instant: with at least one connected motor, a
   * second poll at the same clock reading over the bank the first left
   * behind changes nothing, whatever the first one did.
   */
  lemma RepeatedPollIsQuiet(s: State, now: u32, bank: seq<Slot>)
    requires exists i :: 0 <= i < |bank| && bank[i].Bound?
    ensures var r := Poll(s, now, bank);
            Poll(r.state, now, r.bank) == Outcome(r.state, r.bank, [])
  {
    var r := Poll(s, now, bank);
    var i :| 0 <= i < |bank| && bank[i].Bound?;
    if StartedLeg(s, r) {
      assert Running(r.bank[i]);
    } else if EnteredPause(s, r) {
      DeadlineWindow(now, PAUSE_MS, now);
      assert Sub(now, now) == 0;
    }
  }

  /**
   * With every slot empty the cycle degenerates but keeps running: a leg
   * that issues no call is followed, on the very next poll, by the pause.
   */
  lemma EmptyBankStillCycles(s: State, now: u32, bank: seq<Slot>)
    requires forall i :: 0 <= i < |bank| ==> bank[i].Unbound?
    requires s.paused && DeadlineReached(now, s.pauseUntil)
    ensures var r := Poll(s, now, bank);
            StartedLeg(s, r) && r.issued == [] && EnteredPause(r.state, Poll(r.state, now, r.bank))
  {
    UnboundNeverRunning(bank);
    var r := Poll(s, now, bank);
    UnboundNeverRunning(r.bank);
    CommandsOfEmptyBank(bank, MOVE_STEPS * s.dir);
  }

  /**
   * Taking an empty slot out of the bank leaves the poll's decision, its
   * new state and every other slot's outcome as they were, and the slot
   * stays empty.
   */
  lemma PollIgnoresUnbound(s: State, now: u32, bank: seq<Slot>, j: nat)
    requires j < |bank| && bank[j].Unbound?
    ensures var r := Poll(s, now, bank);
            var r' := Poll(s, now, Remove(bank, j));
            && r'.state == r.state
            && r.bank[j].Unbound?
            && r'.bank == Remove(r.bank, j)
            && |r'.issued| == |r.issued|
  {
    InMotionIgnoresUnbound(bank, j);
    var r := Poll(s, now, bank);
    if StartedLeg(s, r) {
      var steps := MOVE_STEPS * s.dir;
      BurstRemove(bank, steps, j);
      CommandsIgnoreUnbound(bank, steps, j);
    }
  }
}
