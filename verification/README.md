# Non-blocking multi-motor motion scheduler, modelled in Dafny

This project models the motion scheduler of an RP2040 sketch that drives a bank
of stepper motors through FastAccelStepper. The sketch works in cycles. It
starts a move of `MOVE_STEPS` (1000) steps on every motor in one burst. It waits
until no motor reports running, then pauses `PAUSE_MS` (1000) ms. Then it starts
the opposite move, and so on forever. It never waits for a motor inside `loop()`.

The model is functional:

- `Clock` models the 32-bit `millis()` counter. It defines wrapping addition and
  subtraction, the `(long)` reinterpretation, and the deadline test
  `(long)(now - pauseUntilMs) >= 0`.
- `Actuators` models the bank. It is a sequence of slots. A slot is either a
  connected motor or `Unbound`, the `nullptr` a failed connection leaves. A motor
  is a running flag plus a log of the relative moves issued to it. The module
  also holds `anyRunning()` (`AnyRunning`, with reference predicate `InMotion`)
  and `startAllMoves()` (`StartAllMoves`, with functional counterparts `Burst`,
  the resulting bank, and `Commands`, the calls made, in order).
- `Scheduler` models the three statics of `loop()` and one call of `loop()` as
  the pure step function `Poll(state, now, bank)`.
- `Traces` models runs of many polls. Between polls the engine may set any
  connected motor's running flag to anything (`Observe`).
- `Connect` models the connect loop of `setup()`.
- `Program` composes `setup()` with a run of `loop()`.

The clock value and the running flags are inputs of each poll. Because `&&`
short-circuits, one call of `loop()` reads `millis()` at most once and calls
`anyRunning()` at most once. So one `now` and one snapshot of the bank per poll
is exact.

## Model

| member | source | states |
|---|---|---|
| Clock.Add | src/main.cpp:113 | `millis() + PAUSE_MS` wraps: the result is the true sum, less 2^32 on overflow |
| Clock.Sub | src/main.cpp:103 | `millis() - pauseUntilMs` wraps: the result is the true difference, plus 2^32 on underflow |
| Clock.ToSigned | src/main.cpp:103 | the `(long)` cast yields a value in [-2^31, 2^31) that agrees with its argument modulo 2^32 |
| Clock.DeadlineWindow | src/main.cpp:103 | the deadline test is wraparound-safe: a deadline set `p` ms after `t` passes exactly when the elapsed time `now - t` (mod 2^32) lies in `[p, p + 2^31)`, wherever `t` is |
| Actuators.AnyRunning | src/main.cpp:41-50 | the early-exit scan returns true iff some non-empty slot reports running; empty slots never make it true |
| Actuators.UnboundNeverRunning | src/main.cpp:45 | a bank of empty slots is never in motion |
| Actuators.InMotionIgnoresUnbound | src/main.cpp:43-46 | removing an empty slot leaves the aggregate query unchanged |
| Actuators.Burst | src/main.cpp:53-60 | after the burst, each connected motor's log has grown by exactly `[steps]` and the motor is in motion; empty slots stay empty; the bank keeps its size |
| Actuators.CommandsSound | src/main.cpp:55-58 | every call the burst makes is `move(steps)` on a connected slot, and the slots strictly increase, so no slot is addressed twice |
| Actuators.CommandsComplete | src/main.cpp:55-58 | the set of slots the burst addresses is exactly the set of connected slots: every connected slot receives a call and no empty slot does |
| Actuators.CommandsOfEmptyBank | src/main.cpp:57 | a bank of empty slots receives no call |
| Actuators.StartAllMoves | src/main.cpp:53-60 | the in-place loop over the slots produces exactly the burst's bank and issues exactly the burst's calls, in index order |
| Actuators.ReplayCommands | src/main.cpp:55-59 | replaying the issued calls one after the other yields the burst's bank, so the command list and the per-slot effect agree |
| Actuators.BurstRemove | src/main.cpp:57-58 | the burst acts slot by slot: taking a slot out commutes with it |
| Scheduler.Poll | src/main.cpp:103-115 | a leg starts iff paused, the deadline passed and nothing runs; it issues `MOVE_STEPS * dir` to every connected motor and negates `dir`. The pause starts iff moving and nothing runs; it sets the deadline to `now + PAUSE_MS` (mod 2^32) and issues nothing. A poll whose conditions fail changes nothing. No move is issued while a motor runs. `dir` stays in {+1, -1} |
| Scheduler.FirstLegForward | src/main.cpp:99-107 | from the initial statics (paused, deadline 0, `dir = 1`), a poll in the first 2^31 ms with every motor idle starts a leg of `+MOVE_STEPS` and leaves `dir = -1` |
| Scheduler.PauseLowerBound | src/main.cpp:103-113 | after a pause entered at `t`, a leg starts only once `PAUSE_MS` ms have elapsed since `t` (mod 2^32); with nothing running it does start whenever the elapsed time is in `[PAUSE_MS, PAUSE_MS + 2^31)` |
| Scheduler.RepeatedPollIsQuiet | src/main.cpp:103-115 | with at least one connected motor, a second poll at the same instant over the bank the first left behind changes nothing |
| Scheduler.EmptyBankStillCycles | src/main.cpp:103-113 | with every slot empty, a leg still starts, issues no call, and the next poll at the same instant enters the pause |
| Scheduler.PollIgnoresUnbound | src/main.cpp:103-113 | removing an empty slot leaves the poll's new state and every other slot's outcome unchanged, and the same number of calls is issued |
| Actuators.CommandsIgnoreUnbound | src/main.cpp:55-59 | an empty slot adds no call to a burst |
| Traces.LegsAlternate | src/main.cpp:106-107 | over any run, with any clock and engine reports, the legs alternate `MOVE_STEPS * d`, `-MOVE_STEPS * d`, ... from the state's direction, the remaining direction continues the alternation, and `dir` stays a sign |
| Traces.FromInitialLegsAlternate | src/main.cpp:99-107 | from the initial statics, leg `k` is `+1000` for even `k` and `-1000` for odd `k` |
| Traces.LogsFollowLegs | src/main.cpp:103-107 | over a run, every connected motor's log grows by exactly the run's legs, in order; empty slots stay empty |
| Traces.DisplacementOscillates | src/main.cpp:92-107 | starting from just-connected motors at position 0, every connected motor's commanded displacement is 0 after an even number of legs and `MOVE_STEPS` after an odd number |
| Traces.NoLegBeforePauseElapses | src/main.cpp:103-113 | after a pause entered at `t`, any number of polls that all come less than `PAUSE_MS` ms after `t` start no leg and leave the state as it was |
| Traces.RunIgnoresUnbound | src/main.cpp:41-60 | a run over a bank with an empty slot matches the run over the bank without it: same states, same legs, same histories for the other slots |
| Connect.ConnectAll | src/main.cpp:74-93 | slot `i` holds a motor iff attempt `i` succeeded. A failed attempt leaves an empty slot and the loop goes on, so indices are stable. Connected motors start idle with no move issued, and the bank starts not in motion |
| Program.Simulate | src/main.cpp:62-115 | `setup()` then any run of `loop()`: the legs go `+1000, -1000, ...`; slot `i` is connected iff attempt `i` succeeded; every connected motor has received every leg and sits at displacement 0 or `MOVE_STEPS` |

## Left out

- Serial output, `printf` diagnostics, the `while (!Serial)` wait and `delay()` are left out. They are I/O and timing plumbing with no effect on the state.
- Engine set-up is left out: `engine.init()`, `task_rate`, direction and enable pins, auto-enable, the forward-planning window, speed and acceleration (src/main.cpp:70-71, 85-91). These are foreign library calls. A connected motor is modelled as idle at commanded position 0, which is what `setCurrentPosition(0)` establishes.
- FastAccelStepper internals are left out: pulse generation, ramping, and how and when `isRunning()` becomes false. `Observe` lets the engine set every connected motor's running flag arbitrarily between polls. That allows more behaviours than the real engine has, so the trace properties also hold for the real engine.
- `move()` is modelled as always accepted: it appends to the motor's log and sets it running. The sketch ignores `move()`'s return code, and its step count is always ±1000, never 0.
- `millis()` is not a clock here: `now` is an input of each poll. The properties hold for every sequence of readings, monotonic or not.
- `NUM_MOTORS` is 3 in the sketch. The model works for a bank of any size, and the STEP/DIR pin tables are reduced to whether each connection attempt succeeded.
- `dir` is an `int8_t`. It is modelled as an `int` whose range is the sign set {+1, -1}, which `Poll` preserves. `MOVE_STEPS * dir` is then ±1000, so no 32-bit overflow can occur.
- `Clock.DeadlineReached` models the signed-difference test of src/main.cpp:103. Once the counter wraps, it is not the same as a plain `now >= pauseUntilMs`.
