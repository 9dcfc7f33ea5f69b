# PolarApp heart-rate session aggregator in Dafny

PolarApp is an Android app that shows live heart rate from a Polar sensor.
It turns the irregular stream of readings into running statistics and a chart
series of 5-second bins. This project models that logic from
`MainActivity.kt` and proves properties about it:

- the session fields `sessionStartMs`, `currentHr`, `maxHr`, `minHr` and
  `hrBins`, with `resetSession` and `onHeartRate`;
- the choice of target device in `ensurePermissionsAndConnect`, and the filter
  that passes only the target's broadcasts to `onHeartRate`.

Modules:

- `Optional` (`optional.dfy`): Kotlin's nullable values, with `GetOr` for the elvis operator `?:`.
- `Binning` (`binning.dfy`): the bin width (5000 ms), the clamped bin index, and how the bin list grows (`PlaceInBin`).
- `Aggregator` (`aggregator.dfy`): the session state as a value and `Ingest`, the effect of one reading.
  Also `Replay` over a run of readings, the invariant `Consistent`, and the lemmas about them.
- `DeviceSelection` (`device_selection.dfy`): Kotlin's `trim()`, the device-id choice and the broadcast filter.
- `Activity` (`main_activity.dfy`): `class MainActivity` with the source's fields.
  Its methods change the fields step by step, like the source, including the `while` loop that grows `hrBins`.
  Each method is proved to leave the state that `Ingest` (or `ChooseDeviceId`) describes.

Each wall-clock read becomes a `nowMs` parameter. A first reading resets the
session and computes its elapsed time from the same `nowMs`, so it always
lands in bin 0.

Four points where the code behaves differently from what one might expect:

- **Gap fill.** One might expect skipped bins to carry the previous reading forward.
  The code fills them with the NEW reading: `currentHr = hr` runs before the fill loop appends `currentHr ?: hr`.
  Readings (t=0, 70) then (t=12000, 90) give `[70, 90, 90]`, not `[70, 70, 90]` (`GapFillUsesNewReading`).
- **Session start.** One might expect the caller to start a session explicitly, with an error for a reading that arrives first.
  The code starts it implicitly: the session resets only when `currentHr` is null, and there is no error.
  Once a reading has arrived, the session is never reset again (`SessionOnlyWidens`).
- **Three readings.** First reading at 1000 ms, then 6500 ms and 9000 ms, with bpm 65, 72 and 75.
  One might expect three bins, but the last two readings fall in the same bin (elapsed 5500 and 8000 ms).
  The bins are `[65, 75]` (`ThreeReadingScenario`).
- **Bin count.** One might expect the number of bins to follow from the last reading's time.
  It is one more than the furthest bin any reading reached (`ReplayBinCount`).
  The two agree when the clock never runs backwards (`MonotoneClockBinCount`).

## Model

| member | source | states |
|---|---|---|
| `Binning.BinIndex` | app/src/main/java/com/polarapp/MainActivity.kt:118-119 | negative elapsed time gives bin 0; otherwise the bin k with k·5000 ≤ elapsed < (k+1)·5000 |
| `Binning.BinIndexMonotone` | app/src/main/java/com/polarapp/MainActivity.kt:119 | a later clock reading never gives an earlier bin |
| `Binning.PlaceInBin` | app/src/main/java/com/polarapp/MainActivity.kt:120-123 | the list's length becomes max(old length, k+1); bin k holds the reading; every other old bin is kept; every new slot below k holds the fill value |
| `Aggregator.ResetState` | app/src/main/java/com/polarapp/MainActivity.kt:98-103 | the state resetSession leaves: start at the clock reading, no current, max or min, no bins (definition, no contract) |
| `Aggregator.WidenMax` | app/src/main/java/com/polarapp/MainActivity.kt:115 | the new max is at least the reading and the old max, and equals one of them; it is the reading when there was no max |
| `Aggregator.NarrowMin` | app/src/main/java/com/polarapp/MainActivity.kt:116 | the new min is at most the reading and the old min, and equals one of them; it is the reading when there was no min |
| `Aggregator.Ingest` | app/src/main/java/com/polarapp/MainActivity.kt:108-123 | current becomes the reading. With no current reading, the session restarts at `nowMs` with bins `[hr]` and min = max = hr. Otherwise the start is kept, min and max widen, and the reading's bin holds it. The list grows to max(old length, bin+1), other old bins are kept, and every new slot holds the new reading |
| `Aggregator.IngestKeepsConsistent` | app/src/main/java/com/polarapp/MainActivity.kt:114-123 | one reading preserves the invariant: min ≤ current ≤ max, at least one bin, every bin within [min, max] |
| `Aggregator.ReplayKeepsConsistent` | app/src/main/java/com/polarapp/MainActivity.kt:114-116 | after any run of readings, min ≤ current ≤ max and every bin lies within [min, max] |
| `Aggregator.SessionOnlyWidens` | app/src/main/java/com/polarapp/MainActivity.kt:110-123 | once started, a session is never reset: the start stays, max never decreases, min never increases, the bin list never shrinks |
| `Aggregator.ReplayBinCount` | app/src/main/java/com/polarapp/MainActivity.kt:118-123 | in a started session, the bin count is the larger of the old count and one past the furthest bin a reading reached |
| `Aggregator.FirstReadingStartsSession` | app/src/main/java/com/polarapp/MainActivity.kt:110-123 | the first reading after a reset sets the session start to its own clock time, and the bin count is one past the furthest bin reached from there |
| `Aggregator.MonotoneClockReach` | app/src/main/java/com/polarapp/MainActivity.kt:118-122 | with a clock that never runs backwards, the furthest bin reached (`Reach`) is one past the latest reading's bin |
| `Aggregator.MonotoneClockBinCount` | app/src/main/java/com/polarapp/MainActivity.kt:110-123 | from a reset, with a clock that never runs backwards, the bin list is exactly one longer than the latest reading's bin, counted from the first reading's time |
| `Aggregator.BinsHoldReadings` | app/src/main/java/com/polarapp/MainActivity.kt:114-123 | every bin value is a reading that was received or a bin that was already there |
| `Aggregator.BinsHoldSessionReadings` | app/src/main/java/com/polarapp/MainActivity.kt:110-123 | after a reset, every bin value is one of the readings since |
| `Aggregator.GapFillUsesNewReading` | app/src/main/java/com/polarapp/MainActivity.kt:114-123 | (0 ms, 70) then (12000 ms, 90) give bins `[70, 90, 90]` |
| `Aggregator.LateReadingOverwrites` | app/src/main/java/com/polarapp/MainActivity.kt:120-123 | (0 ms, 80) then (1000 ms, 85) give bins `[85]`: same bin, last write wins |
| `Aggregator.EarlyReadingGoesToBinZero` | app/src/main/java/com/polarapp/MainActivity.kt:118-123 | a reading timed before the session start overwrites bin 0 |
| `Aggregator.ThreeReadingScenario` | app/src/main/java/com/polarapp/MainActivity.kt:108-123 | readings at 1000, 6500 and 9000 ms give bins `[65, 75]`, current 75, min 65, max 75 |
| `DeviceSelection.IsWhitespace` | app/src/main/java/com/polarapp/MainActivity.kt:147 | the characters Kotlin's `Char.isWhitespace` accepts, which `trim()` strips: TAB..CR, FS..US, and the Unicode space, line and paragraph separators, no-break spaces included (definition, no contract) |
| `DeviceSelection.TrimStart` | app/src/main/java/com/polarapp/MainActivity.kt:147 | the result is a suffix of the input; only whitespace was removed; it does not start with whitespace |
| `DeviceSelection.TrimEnd` | app/src/main/java/com/polarapp/MainActivity.kt:147 | the result is a prefix of the input; only whitespace was removed; it does not end with whitespace |
| `DeviceSelection.Trim` | app/src/main/java/com/polarapp/MainActivity.kt:147 | the result is a middle slice of the field text, starting at its first non-whitespace character, with only whitespace cut from either end; it neither starts nor ends with whitespace; it is empty exactly when the text is all whitespace |
| `DeviceSelection.TrimIdempotent` | app/src/main/java/com/polarapp/MainActivity.kt:147 | trimming twice gives the same result as trimming once |
| `DeviceSelection.ChooseDeviceId` | app/src/main/java/com/polarapp/MainActivity.kt:147-157 | a selected id wins; otherwise the trimmed field; there is no id exactly when nothing is selected and the field is all whitespace |
| `DeviceSelection.Delivered` | app/src/main/java/com/polarapp/MainActivity.kt:177-181 | every reading passed to onHeartRate comes from a broadcast of the target device, and every broadcast of the target device is passed on |
| `DeviceSelection.Accepts` | app/src/main/java/com/polarapp/MainActivity.kt:179 | a broadcast passes the subscription's filter exactly when its device id equals the target id (definition, no contract) |
| `DeviceSelection.DeliveredAppend` | app/src/main/java/com/polarapp/MainActivity.kt:177-181 | filtering two stretches of the stream one after the other gives the filtered stretches one after the other, so order and repetitions are kept |
| `DeviceSelection.DeliveredOne` | app/src/main/java/com/polarapp/MainActivity.kt:179-180 | one broadcast becomes one reading for onHeartRate if it is from the target, and nothing otherwise |
| `DeviceSelection.HandleBroadcasts` | app/src/main/java/com/polarapp/MainActivity.kt:175-181 | the session state after the subscription has handled each broadcast of a stream in turn, ingesting only the target's (definition, no contract; `OnlyTargetReachesAggregator` relates it to `Replay`) |
| `DeviceSelection.OnlyTargetReachesAggregator` | app/src/main/java/com/polarapp/MainActivity.kt:172-181 | handling a broadcast stream with the filter leaves the same session state as replaying only the target's readings |
| `Activity.GrownBinsArePlaced` | app/src/main/java/com/polarapp/MainActivity.kt:120-123 | the list left by the fill loop, with the target bin then overwritten by the reading, is exactly `PlaceInBin` of the list before the loop |
| `Activity.MainActivity.constructor` | app/src/main/java/com/polarapp/MainActivity.kt:32-39 | the fields start at 0 / null / empty, which satisfies the invariant |
| `Activity.MainActivity.ResetSession` | app/src/main/java/com/polarapp/MainActivity.kt:98-106 | the start time becomes `nowMs`; current, max and min become null; `hrBins` becomes empty; the selected device is unchanged |
| `Activity.MainActivity.OnHeartRate` | app/src/main/java/com/polarapp/MainActivity.kt:108-123 | the new state is `Ingest` of the old state and the reading; the invariant is preserved; the selected device is unchanged |
| `Activity.MainActivity.OnBroadcast` | app/src/main/java/com/polarapp/MainActivity.kt:177-181 | a broadcast of the target device is ingested; any other broadcast leaves the state unchanged |
| `Activity.MainActivity.OnDeviceFound` | app/src/main/java/com/polarapp/MainActivity.kt:88-89 | the device found by a scan becomes the selected device |
| `Activity.MainActivity.EnsurePermissionsAndConnect` | app/src/main/java/com/polarapp/MainActivity.kt:147-159 | returns the chosen id. No id only when nothing was selected and the field is all whitespace; then it returns early and the selection is unchanged. Otherwise the id becomes the selected device |

## Left out

- Polar BLE SDK calls are not modelled: creating the API, `startListenForPolarHrBroadcasts`, `connectToDevice` and its error report, `shutDown`.
  RxJava subscriptions and disposables are not modelled either; they are foreign library calls.
  The broadcast stream is a sequence of `Broadcast` values, and connecting is the returned target id.
- `runOnUiThread` and `AndroidSchedulers.mainThread()` are not modelled. Handlers run one at a time, in order.
- Permission requests (`permissionLauncher`, the `Build.VERSION` branches) and the status and statistics text (`updateStatsUi`, `TextView` writes) are left out as platform plumbing.
  The same goes for handing the bins to the chart (`pulseGraph.setData`).
- The wall clock is not modelled. Each `System.currentTimeMillis()` read is the caller-supplied `nowMs`.
  The reads in `resetSession` and `onHeartRate` are taken to return the same time within one call.
- `Binning.BinIndex`: does not model the `Int` truncation of `.toInt()` or the `Long` subtraction overflow, because integers are unbounded.
  The truncation only matters once the elapsed time reaches 2^31 · 5000 ms, about 124,000 days (some 340 years).
  Past that point the index could wrap to a negative value, and `hrBins[binIndex] = hr` would throw; the model has no such failure.
- `PulseGraphView.kt` is not part of this model. It is Canvas drawing with floating-point geometry and display-only clamping.
- The scan's error path and its status text are left out. Only the selection of the found id (`OnDeviceFound`) is modelled.
