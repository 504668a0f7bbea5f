# Switch controller: tap detection and dwell windows

This project models the core of `scripts/switch_controller.py`. That script
turns the amplitude of successive audio blocks from a single switch into tap
decisions and NEXT / SELECT commands. It has two stateful objects:

- **TapDetector** (module `TapDetection`). An amplitude strictly above
  `TAP_THRESHOLD` (0.20) is a tap block. A cooldown latch, `hasCooledDown`,
  forwards only the first tap block of each run to the Communicator. Every
  below-threshold block raises the latch again and forwards a no-tap
  notification. A failed read only increases `errorcount`.
- **Communicator** (module `Dwell`). Its one mutable field is `last_tap`. On a
  forwarded tap it computes `d = now - last_tap` and splits it four ways
  against `WAIT_THRESHOLD` (0.5), `NEXT_THRESHOLD` (1) and `SELECT_THRESHOLD`
  (2):
  - `0 <= d <= WAIT`: an initial tap, which restarts the clock.
  - `WAIT < d <= NEXT`: submit NEXT.
  - `NEXT < d <= SELECT`: submit SELECT.
  - anything else, including negative `d`: an initial tap.

  Submitting sets `last_tap = now - SELECT`. The constructor sets
  `last_tap = now - 100`. A no-tap notification uses the same four windows,
  but only to pick a user-interface callback.

Both classes are Dafny classes whose methods update their fields, as the
Python methods do. The pure decision on `d` is lifted into the functions
`Dwell.Classify`, `Dwell.OnTap` and `Dwell.CueAt`. The class methods are proved
against those functions. The function `TapDetection.Step` describes one call
of `listen` on the combined state, and `TapDetector.Listen` is proved equal to
it. Module `Traces` runs `Step` over a finite sequence of readings, and its
method `ListenAll` is proved to give exactly that run when it calls
`TapDetector.Listen` once per reading. The lemmas there cover several calls:
- Exactly one edge per run of tap blocks. At most one is forwarded, and the
  first is always forwarded once the latch is up, even across read errors.
- The error count counts the failed reads.
- On a strictly advancing clock, an initial tap comes between any two
  submissions. On a clock that steps back this can fail; see
  `Traces.ClockStepBackSubmitsTwice`.

I/O and the clock are parameters:
- Each `time.time()` call becomes a `now: real` argument. The second call made
  inside `updateLastTap` / `resetLastTap` is taken to be the same instant.
- `stream.read` becomes a `Reading` argument: either `ReadError` (the `IOError`
  path) or `Block(amplitude)`. The amplitude is the value `get_rms` would
  have returned.
- The `print` calls and the user-interface callbacks become returned values.
  A forwarded tap returns an `Action` (`Initial`, `Next`, `Select`). A no-tap
  block returns a `Cue` (`WaitingForInput`, `RegisteringNext`,
  `RegisteringSelect`).

One would expect a reset to place `last_tap` strictly more than SELECT in the
past, so that even a re-read at the same instant counts as "waiting". The code
subtracts exactly `SELECT_THRESHOLD`, and the model follows the code. A
re-read at the very same instant therefore has `d = SELECT` and falls in the
select window, which `Dwell.ResetInstantOnSelectEdge` states. Only strictly
later reads fall beyond it (`Dwell.SubmitPushesClockBack`).

## Model

| member | source | states |
|---|---|---|
| `Dwell.Classify` | scripts/switch_controller.py:99-107 | the window picked for `d` contains `d` under the interval description of the four branches; a negative `d` lands in the last, "too long" branch |
| `Dwell.WindowsPartition` | scripts/switch_controller.py:100-107 | the four windows are mutually exclusive and exhaustive: `d` lies in window `w` if and only if `w` is the one classified |
| `Dwell.OnTap` | scripts/switch_controller.py:97-137 | `Communicator.tapDetected` with the effect of `initialTap` / `submitNext` / `submitSelect` on `last_tap`; it has no contract of its own and is characterised by `Dwell.TapActionByWindow`, `Dwell.InitialTapRestartsClock` and `Dwell.SubmitPushesClockBack` |
| `Dwell.CueAt` | scripts/switch_controller.py:109-119 | `Communicator.noTapDetected`'s choice of callback; no contract of its own, characterised by `Dwell.CueFollowsWindows` together with `Dwell.TapActionByWindow` |
| `Dwell.TapActionByWindow` | scripts/switch_controller.py:99-107 | for every elapsed time, with no precondition: NEXT exactly when `WAIT < d <= NEXT`, SELECT exactly when `NEXT < d <= SELECT`, an initial tap on every other `d`, negative ones included |
| `Dwell.InitialTapRestartsClock` | scripts/switch_controller.py:100-134 | an initial tap, from either the first branch (100-101) or the `else` branch (106-107), sets `last_tap = now` through `initialTap` / `updateLastTap` (129-134), so a re-read at the same instant is in the settling window |
| `Dwell.SubmitPushesClockBack` | scripts/switch_controller.py:102-105 | after a NEXT or SELECT submission the clock is `now - SELECT`, so any strictly later tap is an initial tap and any strictly later no-tap block shows "waiting for input" |
| `Dwell.ResetInstantOnSelectEdge` | scripts/switch_controller.py:136-137 | after a submission, a read at the same instant still classifies as the select window, because the offset is exactly SELECT |
| `Dwell.CueFollowsWindows` | scripts/switch_controller.py:109-119 | the no-tap callback is "registering next" / "registering select" / "waiting" exactly when a tap at that instant would submit NEXT / submit SELECT / be an initial tap |
| `Dwell.Communicator.constructor` | scripts/switch_controller.py:90-91 | a new Communicator has `last_tap = now - 100` |
| `Dwell.Communicator.TapDetected` | scripts/switch_controller.py:97-107 | the action taken and the new `last_tap` are those of `OnTap` on the old `last_tap` |
| `Dwell.Communicator.NoTapDetected` | scripts/switch_controller.py:109-119 | the callback is `CueAt` of the current `last_tap`; "registering next" and "registering select" exactly on their windows; `last_tap` is not modified |
| `Dwell.Communicator.SubmitNext` | scripts/switch_controller.py:121-123 | `last_tap` becomes `now - SELECT` |
| `Dwell.Communicator.SubmitSelect` | scripts/switch_controller.py:125-127 | `last_tap` becomes `now - SELECT` |
| `Dwell.Communicator.InitialTap` | scripts/switch_controller.py:129-131 | `last_tap` becomes `now` |
| `Dwell.Communicator.UpdateLastTap` | scripts/switch_controller.py:133-134 | `last_tap` becomes `now` |
| `Dwell.Communicator.ResetLastTap` | scripts/switch_controller.py:136-137 | `last_tap` becomes `now - SELECT` |
| `TapDetection.Fresh` | scripts/switch_controller.py:21-26 | the combined state right after both constructors (latch up, no errors, `last_tap` 100 seconds before construction, line 91); no contract of its own, used by `Traces.FreshStartBeginsWithInitialTap` |
| `TapDetection.Step` | scripts/switch_controller.py:49-61 | one `listen` call on the combined state; no contract of its own, characterised by `TapDetection.TapBlockLowersLatch`, `TapDetection.QuietBlockRaisesLatch`, `TapDetection.ThresholdIsStrict` and `TapDetection.ReadErrorOnlyCounts` |
| `TapDetection.TapBlockLowersLatch` | scripts/switch_controller.py:31-34 | a tap block is forwarded exactly when the latch is up, carrying the Communicator's action; afterwards the latch is down; with the latch already down nothing changes and nothing is forwarded |
| `TapDetection.QuietBlockRaisesLatch` | scripts/switch_controller.py:36-38 | a below-threshold block raises the latch, forwards the no-tap callback and keeps `last_tap`; the next tap block then fires an edge again |
| `TapDetection.ThresholdIsStrict` | scripts/switch_controller.py:58-61 | an amplitude exactly equal to `TAP_THRESHOLD` is not a tap and takes the no-tap path |
| `TapDetection.ReadErrorOnlyCounts` | scripts/switch_controller.py:50-55 | a failed read increases the error count by exactly one, changes nothing else and calls nothing |
| `TapDetection.TapDetector.constructor` | scripts/switch_controller.py:21-26 | a new detector has `errorcount = 0`, the latch up and the given Communicator |
| `TapDetection.TapDetector.TapDetected` | scripts/switch_controller.py:31-34 | the latch ends down; the Communicator is called exactly when the latch was up, otherwise `last_tap` is unchanged |
| `TapDetection.TapDetector.NoTapDetected` | scripts/switch_controller.py:36-38 | the latch ends up and the callback is the Communicator's for the current `last_tap` |
| `TapDetection.TapDetector.Listen` | scripts/switch_controller.py:49-61 | the new detector and Communicator state and what was forwarded are exactly one `Step` of the old state on the reading |
| `Traces.Outcomes` | scripts/switch_controller.py:49-61 | repeated `listen` calls give one outcome per reading |
| `Traces.After` | scripts/switch_controller.py:159-160 | the combined state after repeated `listen` calls; no contract of its own, characterised by `Traces.AppendTick`, `Traces.OutcomeAt` and `Traces.ErrorCountCountsFailures` |
| `Traces.OutcomeAt` | scripts/switch_controller.py:49-61 | the k-th outcome of a run is one `listen` step from the state the earlier readings left; it is a read failure exactly on a read error, a no-tap notification exactly on a below-threshold block, and a forwarded or suppressed tap exactly on a tap block |
| `Traces.LatchUpFirstTapFires` | scripts/switch_controller.py:31-38 | with the latch up, the first tap block of a run is forwarded, whatever read errors and below-threshold blocks come before it |
| `Traces.QuietBlockRearmsNextEdge` | scripts/switch_controller.py:36-38 | after a below-threshold block, the next tap block is forwarded, even with read errors in between |
| `Traces.ErrorCountCountsFailures` | scripts/switch_controller.py:50-55 | over any run, the error count grows by the number of failed reads |
| `Traces.TapsBoundedByQuietBlocks` | scripts/switch_controller.py:31-38 | over any run, the forwarded taps are at most the below-threshold blocks, plus one if the latch started up |
| `Traces.LatchHeldUntilQuiet` | scripts/switch_controller.py:31-38 | with the latch down, a forwarded tap needs an earlier below-threshold block in the run |
| `Traces.EdgesSeparatedByQuietBlock` | scripts/switch_controller.py:31-38 | between any two forwarded taps there is a below-threshold block: at most one edge per run of tap blocks, even across read errors |
| `Traces.QuietRunKeepsClock` | scripts/switch_controller.py:109-119 | a run in which no tap is forwarded leaves `last_tap` unchanged |
| `Traces.QuietInputNeverTaps` | scripts/switch_controller.py:57-61 | input that never exceeds the threshold forwards no tap and leaves `last_tap` unchanged |
| `Traces.SubmissionNeedsInitialTap` | scripts/switch_controller.py:97-107 | if every reading comes more than SELECT after `last_tap`, every submission is preceded by an initial tap |
| `Traces.SubmissionPushesClockBack` | scripts/switch_controller.py:121-127 | a `listen` call that submits leaves `last_tap` exactly SELECT seconds before its clock |
| `Traces.FirstSubmissionThenInitialTap` | scripts/switch_controller.py:102-107 | on a strictly advancing clock, a submission at the first reading is followed by an initial tap before any further submission |
| `Traces.SubmissionsSeparated` | scripts/switch_controller.py:121-137 | on a strictly advancing clock, between any two submissions there is an initial tap |
| `Traces.FreshStartBeginsWithInitialTap` | scripts/switch_controller.py:90-91 | starting from freshly constructed objects, on a clock that has not gone back before construction, every submission is preceded by an initial tap |
| `Traces.ClockStepBackSubmitsTwice` | scripts/switch_controller.py:102-105 | if the clock steps back, two submissions (NEXT at 1.0, SELECT at 0.2) can follow each other with only a below-threshold block between them |
| `Traces.AppendTick` | scripts/switch_controller.py:49-61 | one more `listen` call extends the run's outcomes by that call's outcome and its state by that call's step |
| `Traces.ListenAll` | scripts/switch_controller.py:154-160 | calling `listen` once per reading, in order, forwards exactly `Outcomes` of the old state and leaves both objects in the state `After` gives |

## Left out

- `get_rms` (scripts/switch_controller.py:63-83) is left out: it unpacks native-order 16-bit samples and takes a floating-point square root. The amplitude is an abstract real input instead.
- The PyAudio device (`PyAudio()`, `open_mic_stream`, `stop`, `stream.read`) is I/O. A read is modelled only as a `Reading` that is an error or a block. Exceptions other than `IOError` are not modelled.
- `time.time()` is a parameter. The two clock calls made during one tap are taken as one instant, so the gap between them is not modelled.
- Python floats are modelled as exact reals. Rounding in `current_tap - last_tap` and in the threshold comparisons is not modelled.
- The `UserInterface` callbacks are no-op stubs. They are modelled only as the returned `Cue`. The `print` calls are modelled only as returned values: the three in `submitNext`, `submitSelect` and `initialTap` as the `Action`, and the read-error `print` (scripts/switch_controller.py:54) as the `ReadFailed` outcome.
- The unused `states` dictionary (scripts/switch_controller.py:93) and `current_time` (scripts/switch_controller.py:92) are never read, so they are not modelled.
- The `while True` loop in `__main__` never ends. `Traces.ListenAll` models any finite prefix of it, one reading per pass.
- `Traces.SubmissionsSeparated` needs a strictly advancing clock. `time.time()` is a wall clock and can step back. The source can then submit twice with no initial tap between them, as `Traces.ClockStepBackSubmitsTwice` shows.
- The file has no message delivery, socket or reconnect code. The NEXT / SELECT wire messages, the delivery channel and configurable thresholds or edge polarity are therefore not modelled. Submissions are the `Next` / `Select` actions.
