# Euclidean drum machine core of fm-synth.js, in Dafny

fm-synth.js is a browser drum machine. Three voices (kick, snare and hi-hat) play Euclidean rhythms of 16 steps per beat. The tempo follows the walking distance from a locked GPS position. The device's tilt sets how many pulses each voice has, and the compass heading rotates the patterns. This project models the parts of the program that compute and keep state. Those parts are:

- the Euclidean rhythm generator (`euclid.dfy`, module `Euclid`). It has three stages: Bjorklund's division loop, the recursive `build` that pushes 0s and 1s onto a shared pattern, and the slice/concat rotation. The JavaScript `%` and `Array.prototype.slice` are written out explicitly. The generator is proved equal to the pure specification `EuclideanRhythm`, which is built on the block recursion `Bjorklund`.
- how evenly Bjorklund's patterns spread their onsets (`spacing.dfy`, module `Spacing`).
- the sensor formulas (`mapping.dfy`, module `SensorMapping`): distance to tempo, tilt to pulse count, and ambient light to gain.
- the lookahead scheduler and transport (`scheduler.dfy`, module `Scheduler`). The program's globals become the fields of the class `DrumMachine`, and its methods model:
  - `scheduleNotes`;
  - `startScheduler` and the state part of `stopAudio`;
  - the 25 ms timer tick;
  - `updateTempo`;
  - the GPS watch callback;
  - the state update of `handleOrientation`.

  The audio clock's `currentTime` is a parameter `now`. Every `playSample` call is recorded as a `Trigger(voice, time)` in the ghost log `played`. Pure functions (`StepTriggers`, `BeatTriggers`, `PassTriggers`) state which triggers one step, one beat and one pass emit. The lemmas then say how many triggers each voice gets and when they sound.

JavaScript doubles are modelled as exact `real`s, and pulse counts, steps and rotations as unbounded `int`s.

Textbook Euclidean rhythms start with an onset and rotate to the left. This program's code differs in both respects, and the model follows the code (fm-synth.js:59-87):

- **Unrotated patterns start with an onset only when `k > n / 2`.** For `1 <= k <= n` the first onset is at step `n / k - 1` (`Spacing.RhythmEvenlySpread`). The code gives `(3, 8)` as `[0,1,0,0,1,0,0,1]`, not `[1,0,0,1,0,0,1,0]`, while `(5, 8)` is `[1,0,1,1,0,1,1,0]`.
- **The pattern ends with its last onset or with one rest after it.** When `k` divides `n - k` it is `k` equal groups of `n / k - 1` rests and an onset, so it ends with the onset, as for one pulse and for `(4, 16)` (`Spacing.RhythmDivisibleEndsWithOnset`). Otherwise it may end with a rest: `(2, 5)` is `[0,1,0,1,0]`, `(5, 8)` is shown above, and `(3, 16)` is three groups `[0,0,0,0,1]` and then one rest. It may also end with an onset, as `(3, 8)` does.
- **The rotation is a right shift.** `pattern.slice(-r).concat(pattern.slice(0, -r))` moves the last `r` steps to the front; it is not a left shift.

Whichever way it starts and ends, the pattern spreads its onsets as evenly as possible: every gap between consecutive onsets, including the one that wraps round from the last onset to the first, is `n / k` or `n / k + 1` steps (`Spacing.RhythmEvenlySpread`).

## Model

| member | source | states |
|---|---|---|
| Euclid.GenerateEuclideanRhythm | fm-synth.js:46-88 | For any `k`, any `rotation` and `n >= 0`, the imperative generator returns `EuclideanRhythm(k, n, rotation)`: Bjorklund's pattern for `clamp(k, 0, n)` pulses, rotated right. The result has length `n`. |
| Euclid.Build | fm-synth.js:67-82 | `build(level)` appends exactly `Expand(level)` to the shared pattern: level -1 pushes 0, level -2 pushes 1, and other levels push `counts[level]` copies of level-1 followed by level-2 when `remainders[level] != 0`. |
| Euclid.LoopPrefixExtends | fm-synth.js:59-64 | One iteration of the division loop stores `divisor / remainder` and `divisor % remainder` as the next table row and keeps the tables consistent. |
| Euclid.LoopExitTables | fm-synth.js:59-65 | When the loop stops (remainder at most 1), storing the last divisor completes the tables, and `build` of the last level equals Bjorklund's algorithm on `n - k` rests and `k` onsets. |
| Euclid.ExpandIsBjorklund | fm-synth.js:53-82 | The level-indexed tables plus `build` describe the same pattern as the block recursion `Bjorklund`, from every level on. |
| Euclid.SlicesRotate | fm-synth.js:84-87 | The rotation code (JavaScript `%`, `+ n` when negative, then two slices joined by concat) produces `EuclideanRhythm(k, n, rotation)`, whose length is `n`. This includes `n = 0`, where `% 0` is NaN and the result is `[]`. |
| Euclid.ClampPulses | fm-synth.js:47-48 | The pulse count is never negative. For `n >= 0`, a `k` below 0 becomes 0, a `k` above `n` becomes `n`, and a `k` in range is kept. |
| Euclid.JsRemainder | fm-synth.js:85 | JavaScript's `%` with a positive divisor `b`: the remainder has the dividend's sign, lying in `[0, b)` for `a >= 0` and in `(-b, 0]` for `a < 0`, and differs from `a` by a multiple of `b`. |
| Euclid.SliceIndex | fm-synth.js:87 | `slice` turns an index into a position in `[0, len]`: an index in `[0, len]` is kept, and a negative index down to `-len` counts back from the end. |
| Euclid.JsSlice | fm-synth.js:87 | `slice(start, end)` is never longer than the array. In-range arguments select `s[start..end]`, `slice(-r)` is the last `r` elements and `slice(0, -r)` is all but the last `r`. |
| Euclid.NormalizeRotation | fm-synth.js:85-86 | After the JavaScript remainder and the `+ n` correction, the rotation lies in `[0, n)` for every integer input, including negative ones. |
| Euclid.NormalizeIsEuclideanMod | fm-synth.js:85-86 | The normalised rotation equals the mathematical `rotation mod n`. |
| Euclid.SlicesRotateRight | fm-synth.js:87 | For `0 <= r < n`, `slice(-r).concat(slice(0, -r))` is the right rotation by `r`. |
| Euclid.BjorklundMultiset | fm-synth.js:53-82 | Bjorklund's recursion loses and invents nothing: its result is a rearrangement of `d` copies of one block and `r` copies of the other. |
| Euclid.DivisionRegroups | fm-synth.js:60-61 | One division step, `count = divisor / remainder` and `next = divisor % remainder`, regroups the blocks without changing their contents. |
| Euclid.RhythmCounts | fm-synth.js:46-82 | The unrotated pattern for `k <= n` has length `n`, exactly `k` ones and `n - k` zeros, and contains nothing but 0s and 1s. |
| Euclid.RhythmIsBinary | fm-synth.js:67-82 | `build` only ever pushes 0 or 1. |
| Euclid.EuclideanRhythmCounts | fm-synth.js:46-87 | For every integer `k`, every rotation and `n >= 0`, the result has length `n`, exactly `clamp(k, 0, n)` ones and `n - clamp(k, 0, n)` zeros, and only 0s and 1s. |
| Euclid.EuclideanRhythmEdges | fm-synth.js:47-48 | `k <= 0` gives all zeros and `k >= n` gives all ones, whatever the rotation. |
| Euclid.RotateRightMultiset | fm-synth.js:87 | Rotation preserves length and contents: the number of ones and of zeros. |
| Euclid.RotateRightAt | fm-synth.js:85-87 | Right rotation by `r`, element by element: `out[i] == base[(i - r) mod n]`. |
| Euclid.EuclideanRhythmRotation | fm-synth.js:85-87 | For every rotation, positive or negative: `E(k, n, rotation)[i] == E(k, n, 0)[(i - rotation) mod n]`. |
| Euclid.EuclideanRhythmRotationZero | fm-synth.js:85-87 | Rotation 0 returns Bjorklund's pattern unchanged. |
| Euclid.EuclideanRhythmPeriodic | fm-synth.js:85-86 | Rotations `r` and `r + n` give the same pattern. |
| Euclid.EuclideanRhythmSinglePulse | fm-synth.js:59-82 | One pulse gives `n - 1` zeros followed by a single 1. |
| Euclid.EuclideanRhythmThreeOfEight | fm-synth.js:59-82 | `(3, 8)` at rotation 0 is `[0,1,0,0,1,0,0,1]`. |
| Euclid.EuclideanRhythmFourOfSixteen | fm-synth.js:59-82 | `(4, 16)` at rotation 0 is four copies of `[0,0,0,1]`, so its ones are exactly at steps 3, 7, 11 and 15. |
| Spacing.RhythmFirstLevel | fm-synth.js:59-61 | The first division step: each of the `k` onsets absorbs `(n - k) / k` rests in front of it, and `(n - k) % k` single rests remain to distribute. One pulse is `n - 1` rests and the onset. |
| Spacing.BjorklundSpread | fm-synth.js:53-82 | Each level of the block recursion keeps its blocks spread: first onset at step `c`, consecutive onsets `c + 1` or `c + 2` apart, at most one rest after the last onset. |
| Spacing.RhythmSpread | fm-synth.js:53-82 | For `1 <= k <= n` the unrotated pattern is spread with `c = (n - k) / k`. |
| Spacing.RhythmEvenlySpread | fm-synth.js:53-82 | For `1 <= k <= n` the `k` onsets are distributed as evenly as possible. The onset positions are listed exactly and in order; the first is at step `n / k - 1`; the last is at step `n - 2` or `n - 1`; every gap between consecutive onsets, and the gap that wraps from the last onset to the first, is `n / k` or `n / k + 1`. |
| Spacing.RhythmDivisible | fm-synth.js:59-82 | When `k` divides `n - k`, the pattern is `k` identical groups of `(n - k) / k` rests and one onset. |
| Spacing.RhythmDivisibleEndsWithOnset | fm-synth.js:59-82 | When `k` divides `n - k`, the last step is an onset. |
| Spacing.TwoOfFiveEndsWithRest | fm-synth.js:59-82 | `(2, 5)` at rotation 0 is `[0,1,0,1,0]`: it ends with a rest. |
| Spacing.FiveOfEightEndsWithRest | fm-synth.js:59-82 | `(5, 8)` at rotation 0 is `[1,0,1,1,0,1,1,0]`: it starts with an onset and ends with a rest. |
| Spacing.ThreeOfSixteenEndsWithRest | fm-synth.js:59-82 | `(3, 16)` at rotation 0 is three copies of `[0,0,0,0,1]` followed by one rest. |
| SensorMapping.ClampUnit | fm-synth.js:203 | `Math.min(Math.max(x, 0), 1)` lies in [0, 1] and is the identity on [0, 1]. |
| SensorMapping.TempoFor | fm-synth.js:202-206 | With a positive distance band, the tempo is always within [60, 240] BPM. |
| SensorMapping.TempoEndpoints | fm-synth.js:203-206 | Without reversal, distance <= 0 gives 60 and distance >= band gives 240; reversal swaps the two ends. |
| SensorMapping.TempoMonotone | fm-synth.js:203-206 | Tempo is non-decreasing in distance without reversal and non-increasing with it. |
| SensorMapping.TempoReversedMirrors | fm-synth.js:204-206 | The reversed tempo is `300 - ` the normal tempo. |
| SensorMapping.TempoExamples | fm-synth.js:203-206 | With a 50 m band, 25 m gives 150 BPM either way, and 50 m gives 240 normally and 60 reversed. |
| SensorMapping.Round | fm-synth.js:310 | `Math.round` returns the integer nearest `x`, with halves rounded up. |
| SensorMapping.Clamp8 | fm-synth.js:310-312 | `Math.max(1, Math.min(8, x))` lies in [1, 8] and is the identity there. |
| SensorMapping.PulsesForTilt | fm-synth.js:309-312 | The pulse count derived from tilt always lies in [1, 8]. |
| SensorMapping.TiltInRangeNeedsNoClamp | fm-synth.js:309-312 | For beta in [-180, 180] the clamp never engages. |
| SensorMapping.TiltMonotone | fm-synth.js:309-312 | Tilting further never lowers the pulse count. |
| SensorMapping.TiltExamples | fm-synth.js:309-312 | beta -180 gives 1 pulse, 0 gives 5 and 180 gives 8. |
| SensorMapping.LightGain | fm-synth.js:443-444 | The light gain always lies in [0.5, 1.0]. |
| SensorMapping.LightGainShape | fm-synth.js:443-448 | Gain is monotone in illuminance: 0.5 in darkness, 1.0 from 100000 lux. The hi-hat bus (x0.7) stays within [0.35, 0.7]. |
| SensorMapping.HiHatGain | fm-synth.js:448 | The hi-hat bus gain `gain * 0.7` lies between 0 and the gain for a non-negative gain, and within [0.35, 0.7] for a light gain in [0.5, 1]. |
| Scheduler.SecondsPerBeat | fm-synth.js:160 | `60 / tempo` is positive for a positive tempo. |
| Scheduler.SecondsPerBeatRange | fm-synth.js:160 | For a tempo in [60, 240], a beat lasts between 0.25 s and 1 s. |
| Scheduler.HeadingRotation | fm-synth.js:161-163 | `Math.floor(heading / 45)` is the integer `r` with `45 r <= heading < 45 (r + 1)`. For a heading in `[0, 360)` it lies in `[0, 8)`. |
| Scheduler.StepTime | fm-synth.js:166 | For a non-negative beat length, steps 0 to 16 sound within `[nextNoteTime, nextNoteTime + spb]`. |
| Scheduler.BeatStart | fm-synth.js:171 | For a non-negative beat length, no beat of a pass starts before the first. |
| Scheduler.BeatStartLinear | fm-synth.js:159-171 | Adding `spb` once per beat puts beat `j` at `start + j * spb`. |
| Scheduler.StepTimeOrder | fm-synth.js:166 | Step times `nextNoteTime + i * (spb / 16)` strictly increase and lie in `[nextNoteTime, nextNoteTime + spb]`; steps 0-15 lie before the next beat. |
| Scheduler.VoiceTimesAppend | fm-synth.js:167-169 | Filtering the trigger log by voice distributes over appending. |
| Scheduler.StepVoiceTimes | fm-synth.js:166-169 | Filtered by voice, one step emits that step's time exactly when the voice's pattern bit is set. |
| Scheduler.BeatVoiceTimes | fm-synth.js:165-170 | Filtered by voice, a beat's triggers are the step times of that voice's 1-bits, in step order. |
| Scheduler.OnsetTimesCount | fm-synth.js:165-170 | A 0/1 pattern yields one trigger per 1-bit. |
| Scheduler.OnsetTimesBounds | fm-synth.js:165-170 | The triggers of the first `u` steps of a beat lie in `[nextNoteTime, time of step u)`. |
| Scheduler.OnsetTimesExact | fm-synth.js:165-170 | Step `i`'s time is among the triggers exactly when bit `i` is set. |
| Scheduler.BeatVoiceCount | fm-synth.js:161-170 | Each voice gets exactly `clamp(pulses, 0, 16)` triggers per beat. |
| Scheduler.BeatVoiceOnsets | fm-synth.js:165-170 | A voice with a 0/1 pattern gets one trigger per beat for each 1 in its pattern. |
| Scheduler.BeatEmitsPulses | fm-synth.js:159-171 | In each beat, each voice gets exactly `clamp(pulses, 0, 16)` triggers. Each trigger lies in `[nextNoteTime, nextNoteTime + spb)`, and step `i` sounds exactly when bit `i` of the rotated Euclidean pattern is 1. |
| Scheduler.PassVoiceCount | fm-synth.js:159-171 | A pass of `b` beats gives each voice exactly `b * clamp(pulses, 0, 16)` triggers. |
| Scheduler.PassVoiceOnsets | fm-synth.js:159-171 | A pass of `b` beats gives a voice with a 0/1 pattern `b` times as many triggers as its pattern has 1s. |
| Scheduler.PassTriggersWithin | fm-synth.js:159-171 | Every trigger of a pass lies between the first beat's start and the beat clock the pass leaves behind. |
| Scheduler.OneBeatFromRest | fm-synth.js:175-179 | A beat (>= 0.25 s) is longer than the 0.1 s lookahead, so a pass started at the current clock schedules exactly one beat. |
| Scheduler.DrumMachine.constructor | fm-synth.js:13-24 | Initial state: 120 BPM, pulses 4/2/8, heading 0, `nextNoteTime` 0, stopped, nothing played. |
| Scheduler.DrumMachine.Pattern | fm-synth.js:161-163 | Each voice's pattern is the generator's output at the shared rotation `floor(heading / 45)` and has 16 steps. |
| Scheduler.DrumMachine.PlaySample | fm-synth.js:146-156 | Each call appends one `(voice, time)` trigger to the log. |
| Scheduler.DrumMachine.ScheduleNotes | fm-synth.js:158-173 | The pass terminates. `nextNoteTime` never decreases and advances by exactly `60/tempo` per beat. It ends at or beyond `now + 0.1`, with the last scheduled beat starting before that limit. No beat is scheduled exactly when the beat clock `nextNoteTime` is already at or past the limit `now + 0.1`. The log grows by exactly the triggers of those beats, for the current patterns. |
| Scheduler.DrumMachine.ScheduleBeat | fm-synth.js:165-170 | The 16-step loop appends exactly the beat's triggers (kick, then snare, then hi-hat within each step) at `nextNoteTime + i * (spb / 16)`. |
| Scheduler.DrumMachine.StartScheduler | fm-synth.js:175-183 | When Stopped, it starts Running, resets the beat clock to `now` and runs one pass. That pass emits exactly one beat and leaves `nextNoteTime = now + spb`. When already Running, nothing changes. |
| Scheduler.DrumMachine.StopAudio | fm-synth.js:185-192 | It becomes Stopped, and `nextNoteTime` is unchanged. |
| Scheduler.DrumMachine.Tick | fm-synth.js:180 | The 25 ms timer runs a pass while Running and changes nothing once Stopped. |
| Scheduler.DrumMachine.UpdateTempo | fm-synth.js:202-206 | It sets `tempo` to the distance mapping, which keeps it within [60, 240]. |
| Scheduler.DrumMachine.OnPosition | fm-synth.js:253-260 | A new distance sets the tempo, and a pass runs at once only while playing. |
| Scheduler.DrumMachine.HandleOrientation | fm-synth.js:295-312 | Nothing changes while orientation is off or when beta or alpha is null. Otherwise the heading becomes alpha and all three pulse counts get the same tilt value in [1, 8]. |

## Left out

- Web Audio plumbing is not modelled: `initAudio`, `loadSample`, gain-node creation, `audioCtx.suspend` in `stopAudio`, and the body of `playSample`. These are foreign calls, and a `playSample` call is modelled only as an entry in the trigger log.
- Null sample buffers (the early return in `playSample`) are not modelled. The scheduler starts only after audio initialisation has loaded the buffers, so every call is assumed to schedule a sound.
- `setInterval` and `clearInterval` are not modelled as a timer. The timer exists exactly while `isPlaying` holds, so `Tick` runs a pass when playing and does nothing otherwise. Each pass is one atomic call, and the audio clock is one value `now` for the whole pass.
- `calculateDistance` and `calculateBearing` (haversine and forward azimuth) are not modelled. The distance is an input to `OnPosition`, and the bearing only feeds a display.
- GPS watch setup, the lock-position check in the watch callback, permission prompts and sensor initialisation are not modelled. This includes the camera brightness averaging, the microphone FFT pitch, `handleMotion`, and the brightness gain path. None of them changes the scheduler's state, and the pitch is always 1.0.
- DOM wiring is not modelled, including the pulse sliders' `parseInt` assignments. Pulse fields are plain `int`s, and the generator's clamps handle any value.
- `distanceBand`, `reverseMapping` and `orientationActive` are globals toggled by the user interface. They are passed as parameters.
- Floating point is not modelled. Doubles are exact reals, with no NaN and no infinity.
- SensorMapping.TempoFor: requires `distanceBand > 0`, and so do `UpdateTempo` and `OnPosition`. The band starts at 50 (fm-synth.js:26) and changes only in the band selector's handler, which stores `parseFloat` of the chosen option (fm-synth.js:662-665). JavaScript would still compute something for other bands. With a band of 0, a positive distance gives `Infinity`, which clamps to 1, so the tempo is 240 (60 reversed). A distance of 0 gives `NaN` and a `NaN` tempo. A negative band gives a finite tempo: every positive distance clamps to 0, so the tempo is 60 (240 reversed). None of these cases is modelled.
- Scheduler.DrumMachine.ScheduleNotes: requires the tempo invariant `60 <= tempo <= 240`. Only `updateTempo` writes `tempo`, and it always keeps it in that range.
- Euclid.GenerateEuclideanRhythm: requires `n >= 0`, because `new Array(n)` throws for negative `n`. The JavaScript arrays preallocated to `n` entries are growing sequences here.
- The `log(...)` messages and status display updates are not modelled.
