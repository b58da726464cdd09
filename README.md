# Countdown device core, modelled in Dafny

The program runs on a micro:bit mounted on a Kitronik Move:Motor buggy. While idle it runs
a rotating green LED animation. Pressing the logo starts a ten-second countdown with
beeps that get faster. Pressing button B cancels the countdown. If nobody cancels it, an
"explosion" runs: red LEDs and a spinning motor. The program is built from cooperative
fibres that share one global `status` register: 0 initial, 1 waiting, 2 counting,
3 exploding.

The model has these parts:

- `Arith`: exact counterparts of `Math.round` (half up) and `Math.max`, plus the
  facts that link integer division to real division.
- `SharedState`: the status register's four values.
- `Waveform`: `LED_level` and the four-slot frame that `scanLEDS` samples from it.
  Time is whole milliseconds and the phase is a whole number of quarter periods, so
  the model works in integers, with the position in the cycle in quarter-milliseconds.
  `LedLevelOfSource` writes the program's formula over exact reals, with JavaScript's
  `%` and `Math.round`. A lemma proves that the integer model agrees with it.
- `Beeper`: the beep-period decay `max(round(0.85 b), 200)`, the schedule it produces,
  and the `doBeeps` loop as a method.
- `Countdown`: the drift-corrected pause, the `runCountdown` loop with its expiry
  decision as a method, and a timing model. The timing model shows that the
  absolute-deadline pause never ends a step before its whole-second boundary. As long as
  no step's display and processing overhead exceeds a second, it ends every step exactly
  on that boundary, while a fixed 1000 ms pause would fall behind by the sum of all
  overheads.
- `Explosion`: the speed ramp of `explode`'s spin-down loop.
- `Fibres`: the whole program as a state machine. A `Machine` holds the status, the
  fibres with the locals each one resumes with, and the numbers the countdown has shown.
  An `Event` is one of three things: the logo handler, the button-B handler, or one
  fibre running from its suspension point to the next. A fibre suspends where it blocks:
  a pause, a display call, a tone. Blocking points between which a fibre reads no shared
  state are merged into one. doBeeps' tone is merged into its pause. The countdown has
  one point inside every `showNumber` (`CountShown`), whether or not the number
  scrolls. Every interleaving the scheduler could choose is a
  sequence of events. The lemmas cover the invariant of every reachable machine, the
  guards on every status change, the undisturbed countdown, cancellation, and the
  power-on-to-explosion scenario.
- `Device`: a class whose fields are the status register, the fibres and the display
  log. Its handler and fibre methods update those fields in place. Each method is tied
  to the transition function in `Fibres` and keeps that module's invariant.

Clock readings are inputs. Each `Resume` event carries the value `input.runningTime()`
returns during that turn. `RunCountdown` takes the sequence of readings of one run, and
`WakeTime` takes the overhead of each step.

What the code does, as the model shows it:

- The status changes in exactly five ways (`StatusTransitions`). The main program moves
  0→1 once. The logo handler moves 1→2. Button B moves 2→1. A countdown whose counter
  has reached 0 moves 2→3, and only if it still reads 2 at the loop condition. The end
  of the explosion moves 3→1.
- In every reachable state the activity that the status calls for is alive
  (`Inv`, `ReachableSatisfiesInv`). While waiting, a scanner is alive. While counting, a
  countdown and a beeper are alive. While exploding, exactly one explosion is running,
  and no explosion runs in any other status.
- A cancelled countdown or beeper ends at its next loop condition and leaves the
  status alone (`StaleFibreEnds`, `CancelStopsCountdown`).
- Two countdowns can run at once. Cancel and restart within one pause of the countdown,
  and the old countdown finds the status at 2 again. It keeps counting beside the new one
  (`CancelAndRestartRevivesCountdown`) and then expires on its own schedule
  (`CountdownRunsOut`).
- The waveform peaks at a third of the period (`LevelPeak`, `LedLevelLandmarks`).
- From 1000 ms the period after two updates is 723: 850 × 0.85 is 722.5, and `Math.round`
  takes a tie up (`InitialBeepSchedule`).
- An undisturbed fibre follows the loop methods. The countdown fibre shows the numbers
  and sleeps the pauses that `RunCountdown` computes (`CountdownStepsMatchLoop`). The
  beeper fibre sleeps the periods of `DoBeeps` (`BeeperFollowsSchedule`).

## Model

| member | source | states |
|---|---|---|
| `Arith.RoundHalfUp` | main.ts:46 | Math.round: the result is the integer within one half below or at x + 0.5, ties going up |
| `SharedState.Status.Code` | main.ts:141-147 | each status is stored as one of the numbers 0 to 3 |
| `SharedState.CodeIsInjective` | main.ts:141-147 | distinct statuses are stored as distinct numbers, so a test such as `status == 2` tells exactly one status apart |
| `Arith.Max` | main.ts:36 | Math.max of two integers: the result is one of them and no smaller than either |
| `Waveform.CyclePos` | main.ts:44 | the reduced time `(t + phase·period) % period`, in quarter-milliseconds, lies in [0, period) |
| `Waveform.Level` | main.ts:45-51 | the branch on the reduced time (rise, fall, dark) always yields a level in [0, 100] |
| `Waveform.LedLevel` | main.ts:43-52 | LED_level is in [0, 100] for every non-negative time, positive period and quarter phase |
| `Waveform.ReducedTimeIsCyclePos` | main.ts:44 | JavaScript's `%` of the phase-shifted time by the period equals the integer cycle position divided by four |
| `Waveform.RisingArgument` | main.ts:46 | the rising branch's argument to Math.round, plus one half, is (150·pos + period)/(2·period) |
| `Waveform.FallingArgument` | main.ts:48 | the falling branch's argument to Math.round, plus one half, is (401·period − 150·pos)/(2·period) |
| `Waveform.LedLevelMatchesSource` | main.ts:43-52 | for all inputs the integer model equals the program's formula on exact reals, with JavaScript `%` and Math.round |
| `Waveform.JsRemainderSign` | main.ts:44 | JavaScript's `%` by a positive divisor: the remainder has the sign of the dividend, is smaller in size than the divisor, and differs from the dividend by a whole multiple of it |
| `Waveform.LedLevelOfSourceRange` | main.ts:43-52 | the program's formula on exact reals gives a level in [0, 100] whenever the shifted time is non-negative, for any real phase |
| `Waveform.LedLevelPeriodic` | main.ts:44 | shifting the time by any whole number of periods leaves the level unchanged |
| `Waveform.LedLevelPhaseWraps` | main.ts:44 | a phase of one whole period more gives the same level |
| `Waveform.LedLevelPhaseShift` | main.ts:44 | with a period divisible by four, a quarter more phase equals a quarter period later in time |
| `Waveform.LevelPeak` | main.ts:45-48 | the level is 100 if and only if the reduced time is within period/600 of period/3 |
| `Waveform.LevelZero` | main.ts:45-50 | the level is 0 if and only if the reduced time is below period/600 or above 133/200 of the period |
| `Waveform.LevelRises` | main.ts:45-46 | over the first third of the cycle the level never decreases |
| `Waveform.LevelFalls` | main.ts:47-48 | over the second third of the cycle the level never increases |
| `Waveform.LedLevelLandmarks` | main.ts:44-50 | the level is 0 at reduced time 0, 100 at reduced time period/3, and 0 throughout the last third |
| `Waveform.ScanFrame` | main.ts:62-66 | the frame scanLEDS writes: slot i gets LED_level at the scan period with phase 0, 0.75, 0.5, 0.25, each a green channel value in [0, 100] |
| `Waveform.ScanFrameRotates` | main.ts:63-66 | 500 ms later each slot shows what the previous slot showed: the pattern rotates one slot per quarter period |
| `Beeper.NextBeepPeriod` | main.ts:36 | the next period is never below 200, strictly shrinks any period above 200, and is 200 for any period at or below 200 |
| `Beeper.NextBeepPeriodMatchesSource` | main.ts:36 | the integer update equals `max(Math.round(b·0.85), 200)` on exact reals, for every integer b |
| `Beeper.NextBeepPeriodDrops` | main.ts:36 | above 200 one update takes off at least 29 ms or lands on 200 |
| `Beeper.BeepPeriodAfter` | main.ts:31-37 | after one or more updates the period is at least 200, and it never exceeds a start value of 200 or more |
| `Beeper.BeepPeriodConverges` | main.ts:31-37 | after n updates the period is at most max(b − 29n, 200) |
| `Beeper.BeepPeriodReachesFloor` | main.ts:31-37 | once 29n ≥ b − 200 (n ≥ 1), the period is exactly 200 |
| `Beeper.InitialBeepSchedule` | main.ts:30-38 | from 1000 the periods are 1000, 850, 723, 615, 523, 445, 378, 321, 273, 232, 200 |
| `Beeper.InitialBeepScheduleSettles` | main.ts:30-38 | from the tenth update on, the schedule from 1000 stays at 200 |
| `Beeper.BeepSchedule` | main.ts:31-37 | the n pauses slept are the periods after 0, 1, …, n−1 updates |
| `Beeper.DoBeeps` | main.ts:30-38 | the loop sleeps exactly the schedule's pauses while it reads status 2 and stops at the first other status |
| `Countdown.CountdownPauses` | main.ts:104-109 | with status 2 throughout, step k sleeps a non-negative pause that ends at the later of its clock reading and the boundary startTime + 1000·(k+1) |
| `Countdown.CountdownPausesPrefix` | main.ts:100-110 | the pauses RunCountdown returns are a prefix of CountdownPauses on the same readings, and all of it when the count reaches 0 |
| `Countdown.PauseTime` | main.ts:107-108 | the pause is never negative; if the boundary startTime + 1000·(countLength − count) is still ahead, the pause ends exactly on it, and otherwise it is 0 |
| `Countdown.Descending` | main.ts:100-102 | the numbers c, c−1, …, 1 |
| `Countdown.RunCountdown` | main.ts:95-117 | the loop shows 10, 9, … in order, pauses by PauseTime against the start time, and stops at count 0 or at the first status other than 2; it explodes iff the count reached 0 with the status still 2; with status 2 throughout it shows 10..1, ends with count 0 and explodes |
| `Countdown.WakeTime` | main.ts:104-109 | an undisturbed countdown never wakes before step k's boundary startTime + 1000·k |
| `Countdown.WakeTimeIsExact` | main.ts:104-109 | if no step's overhead reaches 1000 ms, step k wakes exactly at startTime + 1000·k: no drift accumulates |
| `Countdown.NaiveWakeTimeDrifts` | main.ts:104-109 | a fixed 1000 ms pause would wake at startTime + 1000·k plus the sum of all overheads so far |
| `Countdown.ExpiresOnTime` | main.ts:95-110 | with overheads below a second, the expiry decision comes exactly 10 000 ms after the start, which is earlier than fixed pauses by the sum of the overheads |
| `Explosion.SpinDownSpeeds` | main.ts:13-16 | the spin-down loop passes the speeds 90, 80, …, 10 to the motor, nine values, each in (0, 100] |
| `Fibres.OnLogo` | main.ts:123-138 | the logo handler changes the status only from 1 and only to 2, launching a beeper at 1000 ms and a countdown; otherwise it does nothing |
| `Fibres.OnButtonB` | main.ts:76-82 | button B changes the status only from 2 and only to 1, relaunching the scanner; otherwise it does nothing |
| `Fibres.BeepTest` | main.ts:31-35 | doBeeps' loop test changes only its own fibre: it goes on to pause(beepPeriod) iff the status is 2, and otherwise the fibre ends |
| `Fibres.CountTest` | main.ts:100-117 | runCountdown's loop test and expiry test change only their own fibre: at status 2 with a positive count it shows the count and decrements it; at status 2 with count 0 it sets the status to 3 and starts the explosion; at any other status the fibre ends; no other status change |
| `Fibres.ResumeFibreFrame` | main.ts:8-118 | ResumeFibre, one fibre's turn: no other fibre changes, at most one fibre is launched (a scanner, with the status back at 1), at most one number is shown, and an unknown fibre number does nothing |
| `Fibres.StepFrame` | main.ts:8-138 | Step, one event: only the resumed fibre among those launched changes, at most two fibres are launched, and only a fibre's turn shows a number, at most one |
| `Fibres.RunOnlyGrows` | main.ts:141-160 | Run, a sequence of events: no fibre is ever removed, and the display log only grows, by at most one number per event |
| `Fibres.RunSnoc` | main.ts:141-160 | Run applies the events in order: one more event is one more step after the others |
| `Fibres.StepPreservesInv` | main.ts:8-138 | every handler and every fibre turn keeps the invariant: the activity the status calls for is alive, exactly one explosion runs iff the status is 3, and locals stay in range |
| `Fibres.RunPreservesInv` | main.ts:141-160 | any sequence of events keeps the invariant |
| `Fibres.ReachableSatisfiesInv` | main.ts:141-160 | every state reached from power-on satisfies the invariant |
| `Fibres.StatusTransitions` | main.ts:22-159 | a status change is one of 0→1 (main program), 1→2 (logo), 2→1 (button B), 2→3 (a countdown at count 0 still reading 2), 3→1 (end of explode); nothing else writes the status |
| `Fibres.ExplosionEnds` | main.ts:21-23 | in every reachable state the explosion's turn runs while the status is 3, sets the status to 1 and relaunches the scanner, and changes nothing else |
| `Fibres.MainStartsScanner` | main.ts:158-160 | in every reachable state the main program's turn runs while the status is 0, sets the status to 1 and launches the scanner, and changes nothing else |
| `Fibres.CountdownRunsOut` | main.ts:100-117 | a paused countdown at count c, left alone while the status stays 2, shows c, …, 1 and then sets the status to 3, whatever the clock reads |
| `Fibres.CountdownFromStart` | main.ts:95-117 | a launched countdown nobody cancels shows 10, …, 1 in 21 turns and sets the status to 3 |
| `Fibres.CountdownSteps` | main.ts:100-110 | j steps of a paused countdown reading status 2 show c, …, c−j+1 and leave it in the pause PauseTime computes from that step's clock reading |
| `Fibres.CountdownStepsMatchLoop` | main.ts:95-117 | after k+1 steps an undisturbed launched countdown has shown the first k+1 numbers of 10, …, 1 and sleeps the k-th pause of CountdownPauses on the readings it took, as RunCountdown does |
| `Fibres.BeeperFollowsSchedule` | main.ts:30-38 | a beeper launched with period p, while the status stays 2, sleeps at its n-th turn the n-th pause of BeepSchedule, which DoBeeps returns; nothing else changes |
| `Fibres.UncancelledCountdownExplodes` | main.ts:89-160 | power on, logo press, no cancel: status 2, then 3 after the count, then 1 with a fresh scanner, with 10..1 shown |
| `Fibres.CancelStopsCountdown` | main.ts:76-82 | button B during the countdown sets the status to 1 at once, and the countdown and beeper then end without touching it |
| `Fibres.StaleFibreEnds` | main.ts:31-114 | a countdown or beeper that reads a status other than 2 ends at its next loop condition, and a scanner that reads a status other than 1 ends too; nothing else changes |
| `Fibres.CancelAndRestartRevivesCountdown` | main.ts:76-138 | cancelling and restarting within one pause leaves the old countdown counting beside the new one |
| `Device.Device.constructor` | main.ts:141 | the device starts with status 0 and the main program about to run |
| `Device.Device.LogoPressed` | main.ts:123-138 | the logo handler updates the fields as OnLogo does and keeps the invariant |
| `Device.Device.ButtonBPressed` | main.ts:76-82 | the button-B handler updates the fields as OnButtonB does and keeps the invariant |
| `Device.Device.CountdownTest` | main.ts:100-117 | the countdown's loop condition and expiry decision update the fields as CountTest does and keep the invariant |
| `Device.Device.RunFibre` | main.ts:8-118 | one fibre's turn updates the fields as ResumeFibre does and keeps the invariant |
| `Device.Device.Handle` | main.ts:8-138 | one event updates the fields as Step does |
| `Device.Device.HandleAll` | main.ts:141-160 | a sequence of events applied one at a time updates the fields as Run does and keeps the invariant |

## Left out

- All Kitronik Move:Motor calls (`showColor`, `setZipLedColor`, `rotate`, `show`, `spin`, `stop`, `rgb`, `colors`, `clear`) are opaque peripheral drivers. So are the display calls (`showNumber`, `showString`, `showIcon`, `clearScreen`) and `music.playTone`. The only output the machine records is the number passed to `showNumber` by the countdown. The LED colours are not part of its state, and `ScanFrame` gives the scanner's frame separately.
- Floating point: `Math.round`, `* 0.85`, `/ period` and `/ 3` use exact arithmetic. In general IEEE doubles can fall on the other side of a rounding tie. The schedule from 1000 ms is not affected. Its only tie is 850 × 0.85, which is exactly 722.5 in double precision too, so the device also computes 723. `LED_level` is affected: at t = 190 and phase 0, `100 * (190 * 3 / 2000)` is 28.499999999999996 in doubles, so the device shows 28 where the model gives 29. Over one 2000 ms scan period, 48 of the 8000 (millisecond, slot) samples fall on such a tie.
- `Waveform.LedLevel`: the time must be non-negative and the phase a whole number of quarter periods. Every call in the program meets this. `LedLevelOfSource` takes any real phase.
- `control.inBackground` and `basic.pause`: fibres are values resumed by events in any order the scheduler might choose. The model does not tie a resumption to the moment its pause would end, and it does not require clock readings to increase. The timing of one undisturbed countdown is modelled on its own by `WakeTime`, with pauses that end on time.
- The several pauses inside `explode` after `status = 3` form one suspension point (`Explosion`). Nothing in `explode` reads shared state, so the extra points would only let other fibres run, and the model lets them run at that one point anyway.
- `scanLEDS`' 40 ms pause, `doBeeps`' tone, and the handlers' LED set-up are output only.
