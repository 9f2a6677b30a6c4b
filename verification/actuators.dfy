/**
 * The bank of motors the scheduler drives, and the two helpers that walk it:
 * the aggregate "is anything still moving" query and the burst that starts a
 * move on every motor.
 *
 * A motor is seen only through its contract with the pulse-generation
 * engine: a flag saying whether a move is in flight, and the relative moves
 * it has been asked to perform (its command log; their sum is the motor's
 * commanded displacement from the position it was set to at connection).
 * A connection that failed leaves its slot empty, and an empty slot is inert.
 */
module Actuators {

  /** One motor: whether a move is in flight, and every relative move issued to it, oldest first. */
  datatype Actuator = Actuator(running: bool, log: seq<int>)

  /** A slot of the collection: a connected motor, or the empty slot a failed connection leaves. */
  datatype Slot = Unbound | Bound(motor: Actuator)

  /** `move(steps)` issued to the motor in slot `slot`. */
  datatype Command = MoveCmd(slot: nat, steps: int)

  /** Sum of a sequence of relative moves. */
  function Sum(xs: seq<int>): int
    decreases |xs|
  {
    if |xs| == 0 then 0 else Sum(xs[..|xs| - 1]) + xs[|xs| - 1]
  }

  /** Commanded displacement of a motor relative to its position at connection. */
  function Displacement(a: Actuator): int
  {
    Sum(a.log)
  }

  /**
   * `move(steps)` on a connected motor: the move is queued and, by the
   * engine's contract, the motor reports being in motion from that moment.
   */
  function Move(a: Actuator, steps: int): Actuator
  {
    Actuator(true, a.log + [steps])
  }

  /** The effect of `if (slot) slot->move(steps)` on one slot. */
  function MoveSlot(s: Slot, steps: int): Slot
  {
    match s
    case Unbound => Unbound
    case Bound(a) => Bound(Move(a, steps))
  }

  /** A slot reports running: it holds a motor whose move is in flight. */
  predicate Running(s: Slot)
  {
    s.Bound? && s.motor.running
  }

  /** Reference definition of the barrier: some slot of the bank reports running. */
  predicate InMotion(bank: seq<Slot>)
  {
    exists i :: 0 <= i < |bank| && Running(bank[i])
  }

  /** The bank with slot `j` taken out, the later slots moving down by one. */
  function Remove<T>(xs: seq<T>, j: nat): (r: seq<T>)
    requires j < |xs|
    ensures |r| == |xs| - 1
    ensures forall i :: 0 <= i < j ==> r[i] == xs[i]
    ensures forall i :: j <= i < |r| ==> r[i] == xs[i + 1]
  {
    xs[..j] + xs[j + 1..]
  }

  /**
   * `anyRunning()`: scans the slots in order, skipping empty ones, and stops
   * at the first motor that reports running.
   */
  method AnyRunning(bank: seq<Slot>) returns (r: bool)
    ensures r <==> InMotion(bank)
    ensures r <==> exists i :: 0 <= i < |bank| && bank[i].Bound? && bank[i].motor.running
  {
    for i := 0 to |bank|
      invariant forall k :: 0 <= k < i ==> !Running(bank[k])
    {
      if bank[i].Bound? && bank[i].motor.running {
        return true;
      }
    }
    return false;
  }

  /** Empty slots never make the barrier hold: a bank of empty slots is never in motion. */
  lemma UnboundNeverRunning(bank: seq<Slot>)
    requires forall i :: 0 <= i < |bank| ==> bank[i].Unbound?
    ensures !InMotion(bank)
  {
  }

  /** Taking an empty slot out of the bank does not change the barrier. */
  lemma InMotionIgnoresUnbound(bank: seq<Slot>, j: nat)
    requires j < |bank| && bank[j].Unbound?
    ensures InMotion(Remove(bank, j)) <==> InMotion(bank)
  {
    var r := Remove(bank, j);
    if InMotion(bank) {
      var i :| 0 <= i < |bank| && Running(bank[i]);
      assert i != j;
      if i < j {
        assert Running(r[i]);
      } else {
        assert Running(r[i - 1]);
      }
    }
    if InMotion(r) {
      var i :| 0 <= i < |r| && Running(r[i]);
      if i < j {
        assert Running(bank[i]);
      } else {
        assert Running(bank[i + 1]);
      }
    }
  }

  /**
   * The bank after `startAllMoves(steps)`: every connected motor has been
   * sent `move(steps)` exactly once and is in motion; empty slots are
   * untouched; no slot changes between empty and connected.
   */
  function Burst(bank: seq<Slot>, steps: int): (r: seq<Slot>)
    ensures |r| == |bank|
    ensures forall i :: 0 <= i < |bank| ==> (r[i].Bound? <==> bank[i].Bound?)
    ensures forall i :: 0 <= i < |bank| && bank[i].Bound? ==>
              r[i].motor.running && r[i].motor.log == bank[i].motor.log + [steps]
    decreases |bank|
  {
    if |bank| == 0 then []
    else Burst(bank[..|bank| - 1], steps) + [MoveSlot(bank[|bank| - 1], steps)]
  }

  /** The calls `startAllMoves(steps)` makes, in the order it makes them. */
  function Commands(bank: seq<Slot>, steps: int): (cmds: seq<Command>)
    decreases |bank|
  {
    if |bank| == 0 then []
    else
      var n := |bank| - 1;
      Commands(bank[..n], steps) + (if bank[n].Bound? then [MoveCmd(n, steps)] else [])
  }

  /**
   * What `startAllMoves(steps)` calls: `move(steps)` on connected slots
   * only, in strictly increasing slot order, so no slot is addressed twice.
   */
  lemma {:induction false} CommandsSound(bank: seq<Slot>, steps: int)
    ensures forall k :: 0 <= k < |Commands(bank, steps)| ==>
              && Commands(bank, steps)[k].steps == steps
              && Commands(bank, steps)[k].slot < |bank|
              && bank[Commands(bank, steps)[k].slot].Bound?
    ensures forall k, l :: 0 <= k < l < |Commands(bank, steps)| ==>
              Commands(bank, steps)[k].slot < Commands(bank, steps)[l].slot
    decreases |bank|
  {
    if |bank| > 0 {
      var n := |bank| - 1;
      CommandsSound(bank[..n], steps);
      assert forall i :: 0 <= i < n ==> bank[..n][i] == bank[i];
    }
  }

  /** The slots that hold a connected motor. */
  function BoundSlots(bank: seq<Slot>): set<nat>
  {
    set i: nat | i < |bank| && bank[i].Bound?
  }

  /** The slots a list of calls addresses. */
  function Addressed(cmds: seq<Command>): set<nat>
  {
    set k | 0 <= k < |cmds| :: cmds[k].slot
  }

  /** The burst addresses exactly the connected slots: every one of them, and no other. */
  lemma {:induction false} CommandsComplete(bank: seq<Slot>, steps: int)
    ensures Addressed(Commands(bank, steps)) == BoundSlots(bank)
    decreases |bank|
  {
    if |bank| > 0 {
      var n := |bank| - 1;
      CommandsComplete(bank[..n], steps);
      var pre := Commands(bank[..n], steps);
      var tail := if bank[n].Bound? then [MoveCmd(n, steps)] else [];
      assert Commands(bank, steps) == pre + tail;
      assert Addressed(pre + tail) == Addressed(pre) + Addressed(tail) by {
        forall x | x in Addressed(pre + tail) ensures x in Addressed(pre) + Addressed(tail) {
          var k :| 0 <= k < |pre + tail| && (pre + tail)[k].slot == x;
          if k < |pre| {
            assert pre[k].slot == x;
          } else {
            assert tail[k - |pre|].slot == x;
          }
        }
        forall x | x in Addressed(pre) + Addressed(tail) ensures x in Addressed(pre + tail) {
          if x in Addressed(pre) {
            var k :| 0 <= k < |pre| && pre[k].slot == x;
            assert (pre + tail)[k].slot == x;
          } else {
            var k :| 0 <= k < |tail| && tail[k].slot == x;
            assert (pre + tail)[|pre| + k].slot == x;
          }
        }
      }
      assert BoundSlots(bank) == BoundSlots(bank[..n]) + (if bank[n].Bound? then {n} else {}) by {
        assert forall i :: 0 <= i < n ==> bank[..n][i] == bank[i];
      }
      if bank[n].Bound? {
        assert tail[0].slot == n;
        assert Addressed(tail) == {n};
      } else {
        assert Addressed(tail) == {};
      }
    }
  }

  /** A bank of empty slots receives no call at all. */
  lemma {:induction false} CommandsOfEmptyBank(bank: seq<Slot>, steps: int)
    requires forall i :: 0 <= i < |bank| ==> bank[i].Unbound?
    ensures Commands(bank, steps) == []
    decreases |bank|
  {
    if |bank| > 0 {
      CommandsOfEmptyBank(bank[..|bank| - 1], steps);
    }
  }

  /** An empty slot contributes no call to a burst. */
  lemma {:induction false} CommandsIgnoreUnbound(bank: seq<Slot>, steps: int, j: nat)
    requires j < |bank| && bank[j].Unbound?
    ensures |Commands(Remove(bank, j), steps)| == |Commands(bank, steps)|
    decreases |bank|
  {
    var n := |bank| - 1;
    var rb := Remove(bank, j);
    if j == n {
      assert rb == bank[..n];
    } else {
      assert rb[..n - 1] == Remove(bank[..n], j);
      assert rb[n - 1] == bank[n];
      CommandsIgnoreUnbound(bank[..n], steps, j);
    }
  }

  /**
   * `startAllMoves(steps)`: one pass over the slots in index order, issuing
   * `move(steps)` to each connected motor and skipping empty slots.
   */
  method StartAllMoves(bank: seq<Slot>, steps: int) returns (after: seq<Slot>, issued: seq<Command>)
    ensures after == Burst(bank, steps)
    ensures issued == Commands(bank, steps)
  {
    after := bank;
    issued := [];
    for i := 0 to |bank|
      invariant after == Burst(bank[..i], steps) + bank[i..]
      invariant issued == Commands(bank[..i], steps)
    {
      BurstStep(bank, i, steps);
      assert bank[..i + 1][..i] == bank[..i];
      if bank[i].Bound? {
        after := after[i := Bound(Move(bank[i].motor, steps))];
        issued := issued + [MoveCmd(i, steps)];
      }
    }
    assert bank[..|bank|] == bank;
  }

  /** One more turn of the `startAllMoves` loop extends the burst by one slot. */
  lemma BurstStep(bank: seq<Slot>, i: nat, steps: int)
    requires i < |bank|
    ensures (Burst(bank[..i], steps) + bank[i..])[i := MoveSlot(bank[i], steps)]
            == Burst(bank[..i + 1], steps) + bank[i + 1..]
  {
    assert bank[..i + 1][..i] == bank[..i];
    assert Burst(bank[..i + 1], steps) == Burst(bank[..i], steps) + [MoveSlot(bank[i], steps)];
  }

  /** The effect of one command on the bank; a command to an empty slot does nothing. */
  function Dispatch(bank: seq<Slot>, c: Command): seq<Slot>
  {
    if c.slot < |bank| then bank[c.slot := MoveSlot(bank[c.slot], c.steps)] else bank
  }

  /** The bank after its motors have received the commands in order. */
  function Replay(bank: seq<Slot>, cmds: seq<Command>): seq<Slot>
    decreases |cmds|
  {
    if |cmds| == 0 then bank else Replay(Dispatch(bank, cmds[0]), cmds[1..])
  }

  lemma {:induction false} ReplayAppend(bank: seq<Slot>, c1: seq<Command>, c2: seq<Command>)
    ensures Replay(bank, c1 + c2) == Replay(Replay(bank, c1), c2)
    decreases |c1|
  {
    if |c1| > 0 {
      assert (c1 + c2)[1..] == c1[1..] + c2;
      ReplayAppend(Dispatch(bank, c1[0]), c1[1..], c2);
    } else {
      assert c1 + c2 == c2;
    }
  }

  /** Commands addressed below `|p|` leave the slots after `p` alone. */
  lemma {:induction false} ReplayFrame(p: seq<Slot>, q: seq<Slot>, cmds: seq<Command>)
    requires forall k :: 0 <= k < |cmds| ==> cmds[k].slot < |p|
    ensures Replay(p + q, cmds) == Replay(p, cmds) + q
    decreases |cmds|
  {
    if |cmds| > 0 {
      assert Dispatch(p + q, cmds[0]) == Dispatch(p, cmds[0]) + q;
      ReplayFrame(Dispatch(p, cmds[0]), q, cmds[1..]);
    }
  }

  /**
   * The command list and the burst agree: replaying the calls
   * `startAllMoves` makes, one after the other, yields exactly the bank the
   * burst describes.
   */
  lemma {:induction false} ReplayCommands(bank: seq<Slot>, steps: int)
    ensures Replay(bank, Commands(bank, steps)) == Burst(bank, steps)
    decreases |bank|
  {
    if |bank| > 0 {
      var n := |bank| - 1;
      var p, x := bank[..n], bank[n];
      assert bank == p + [x];
      var tail := if x.Bound? then [MoveCmd(n, steps)] else [];
      ReplayAppend(bank, Commands(p, steps), tail);
      CommandsSound(p, steps);
      ReplayFrame(p, [x], Commands(p, steps));
      ReplayCommands(p, steps);
      assert Replay(bank, Commands(p, steps)) == Burst(p, steps) + [x];
    }
  }

  /** The burst acts slot by slot, so taking a slot out commutes with it. */
  lemma BurstRemove(bank: seq<Slot>, steps: int, j: nat)
    requires j < |bank|
    ensures Burst(Remove(bank, j), steps) == Remove(Burst(bank, steps), j)
  {
    var a, b := Burst(Remove(bank, j), steps), Remove(Burst(bank, steps), j);
    assert |a| == |b|;
    forall i | 0 <= i < |a|
      ensures a[i] == b[i]
    {
      var k := if i < j then i else i + 1;
      assert Remove(bank, j)[i] == bank[k];
      assert b[i] == Burst(bank, steps)[k];
    }
  }
}
