/**
 * The whole sketch: `setup()` connects the motors, then the board calls
 * `loop()` once per tick for as long as it runs.
 */
module Program {

  import opened Actuators
  import opened Scheduler
  import opened Traces
  import Connect

  /**
   * `setup()` followed by one `loop()` per tick. Whatever the engine bound
   * and whatever it reports between polls, the legs go +MOVE_STEPS,
   * -MOVE_STEPS, ... and every connected motor sits at commanded
   * displacement 0 or MOVE_STEPS according to the number of legs so far.
   */
  method Simulate(connected: seq<bool>, ticks: seq<Tick>) returns (r: Trace)
    requires WellFormed(ticks, |connected|)
    ensures |r.bank| == |connected|
    ensures forall i :: 0 <= i < |connected| ==> (r.bank[i].Bound? <==> connected[i])
    ensures forall k :: 0 <= k < |r.legs| ==> r.legs[k] == (if k % 2 == 0 then MOVE_STEPS else -MOVE_STEPS)
    ensures forall i :: 0 <= i < |r.bank| && r.bank[i].Bound? ==>
              r.bank[i].motor.log == r.legs
              && Displacement(r.bank[i].motor) == (if |r.legs| % 2 == 0 then 0 else MOVE_STEPS)
  {
    var bank := Connect.ConnectAll(connected);
    r := Run(INITIAL, bank, ticks);
    FromInitialLegsAlternate(bank, ticks, r);
    DisplacementOscillates(bank, ticks, r);
  }
}
