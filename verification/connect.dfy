/**
 * The connect loop of `setup()`: one connection attempt per configured
 * STEP pin, in configuration order. A failed attempt leaves that slot empty
 * and the loop goes on with the remaining pins, so slot `i` is always the
 * motor on the `i`-th configured pin.
 */
module Connect {

  import opened Actuators

  /**
   * Builds the bank from the outcome of each connection attempt
   * (`connected[i]` is whether the engine bound the `i`-th STEP pin). The
   * bank starts as all empty slots, like the `nullptr`-filled array, and a
   * connected motor starts idle at position 0, with no move issued.
   */
  method ConnectAll(connected: seq<bool>) returns (bank: seq<Slot>)
    ensures |bank| == |connected|
    ensures forall i :: 0 <= i < |connected| ==> (bank[i].Bound? <==> connected[i])
    ensures forall i :: 0 <= i < |connected| && connected[i] ==> bank[i].motor == Actuator(false, [])
    ensures !InMotion(bank)
  {
    bank := seq(|connected|, _ => Unbound);
    for i := 0 to |connected|
      invariant |bank| == |connected|
      invariant forall k :: 0 <= k < i ==> (bank[k].Bound? <==> connected[k])
      invariant forall k :: 0 <= k < i && connected[k] ==> bank[k].motor == Actuator(false, [])
      invariant forall k :: i <= k < |connected| ==> bank[k].Unbound?
    {
      if !connected[i] {
        continue;
      }
      bank := bank[i := Bound(Actuator(false, []))];
    }
  }
}
