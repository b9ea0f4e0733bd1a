/**
 * The lookahead scheduler and transport of fm-synth.js.
 *
 * The JavaScript keeps tempo, pulse counts, heading, the next beat's time
 * and the playing flag in globals; here they are the fields of one
 * `DrumMachine`. The audio clock's `currentTime` is passed in as `now`, and
 * every `playSample` call is recorded as a `Trigger` in the ghost log
 * `played`. The pure functions before the class say which triggers one
 * beat and one pass emit; the lemmas after them say when they sound.
 */
module Scheduler {
  import opened Euclid
  import opened SensorMapping

  /** Steps per beat, the same for every voice. */
  const Steps: int := 16

  /** How far past the audio clock one pass schedules, in seconds. */
  const ScheduleAheadTime: real := 0.1

  datatype Voice = Kick | Snare | HiHat

  /** One `playSample` call: a one-shot of `voice` starting at audio-clock
      `time` (always at the default pitch 1.0). */
  datatype Trigger = Trigger(voice: Voice, time: real)

  /** A sensor reading that may be missing (`null` in JavaScript). */
  datatype Option<T> = None | Some(value: T)

  function SecondsPerBeat(tempo: real): (spb: real)
    requires tempo > 0.0
    ensures spb > 0.0
  {
    60.0 / tempo
  }

  /** `Math.floor(currentHeading / 45)`: one step of rotation per 45
      degrees, so a compass heading in [0, 360) rotates by 0 to 7 steps. */
  function HeadingRotation(heading: real): (r: int)
    ensures (r as real) * 45.0 <= heading < (r as real + 1.0) * 45.0
    ensures 0.0 <= heading < 360.0 ==> 0 <= r < 8
  {
    (heading / 45.0).Floor
  }

  /** When step `i` of a beat starting at `start` sounds: steps 0 to 16
      lie within the beat. */
  function StepTime(start: real, spb: real, i: int): (t: real)
    ensures spb >= 0.0 && 0 <= i <= Steps ==> start <= t <= start + spb
  {
    StepOffsetRange(spb, i);
    start + StepOffset(spb, i)
  }

  /** How far into its beat step `i` sounds: `i` sixteenths of the beat. */
  function StepOffset(spb: real, i: int): real
  {
    (i as real) * (spb / (Steps as real))
  }

  /** When beat `j` of a pass starts: each beat adds `spb` to the previous,
      so with a non-negative beat length no beat starts before the first. */
  function BeatStart(start: real, spb: real, j: nat): (t: real)
    ensures spb >= 0.0 ==> start <= t
  {
    if j == 0 then start else BeatStart(start, spb, j - 1) + spb
  }

  function PatternOf(v: Voice, kick: seq<int>, snare: seq<int>, hihat: seq<int>): seq<int>
  {
    match v
    case Kick => kick
    case Snare => snare
    case HiHat => hihat
  }

  /** The triggers of step `i` at time `t`: kick, snare, hi-hat, each when
      its pattern bit is set. */
  function StepTriggers(kick: seq<int>, snare: seq<int>, hihat: seq<int>, t: real, i: nat): seq<Trigger>
    requires i < |kick| && i < |snare| && i < |hihat|
  {
    (if kick[i] != 0 then [Trigger(Kick, t)] else [])
    + (if snare[i] != 0 then [Trigger(Snare, t)] else [])
    + (if hihat[i] != 0 then [Trigger(HiHat, t)] else [])
  }

  /** The triggers of steps `0 .. upTo - 1` of a beat starting at `start`. */
  function BeatTriggers(kick: seq<int>, snare: seq<int>, hihat: seq<int>, start: real, spb: real, upTo: nat)
    : seq<Trigger>
    requires upTo <= |kick| && upTo <= |snare| && upTo <= |hihat|
  {
    if upTo == 0 then []
    else BeatTriggers(kick, snare, hihat, start, spb, upTo - 1)
         + StepTriggers(kick, snare, hihat, StepTime(start, spb, upTo - 1), upTo - 1)
  }

  /** The triggers of `beats` whole beats, the first starting at `start`. */
  function PassTriggers(kick: seq<int>, snare: seq<int>, hihat: seq<int>, start: real, spb: real, beats: nat)
    : seq<Trigger>
    requires Steps <= |kick| && Steps <= |snare| && Steps <= |hihat|
  {
    if beats == 0 then []
    else PassTriggers(kick, snare, hihat, start, spb, beats - 1)
         + BeatTriggers(kick, snare, hihat, BeatStart(start, spb, beats - 1), spb, Steps)
  }

  /** The times at which `v` is triggered in `log`, in order. */
  function VoiceTimes(log: seq<Trigger>, v: Voice): seq<real>
  {
    if log == [] then []
    else VoiceTimes(log[..|log| - 1], v) + (if log[|log| - 1].voice == v then [log[|log| - 1].time] else [])
  }

  /** The times of the set bits among steps `0 .. upTo - 1` of `pattern`. */
  function OnsetTimes(pattern: seq<int>, start: real, spb: real, upTo: nat): seq<real>
    requires upTo <= |pattern|
  {
    if upTo == 0 then []
    else OnsetTimes(pattern, start, spb, upTo - 1)
         + (if pattern[upTo - 1] != 0 then [StepTime(start, spb, upTo - 1)] else [])
  }

  // ---------------------------------------------------------------------
  // The transport: state, scheduling pass, start and stop
  // ---------------------------------------------------------------------

  class DrumMachine {
    var tempo: real
    var kickPulses: int
    var snarePulses: int
    var hihatPulses: int
    var currentHeading: real
    var nextNoteTime: real
    var isPlaying: bool
    /** Every sample trigger handed to the audio engine so far. */
    ghost var played: seq<Trigger>

    /** The tempo always lies in the distance mapping's range. */
    ghost predicate Valid()
      reads this
    {
      MinTempo <= tempo <= MaxTempo
    }

    /** The initial values of the globals. */
    constructor ()
      ensures Valid()
      ensures tempo == 120.0 && kickPulses == 4 && snarePulses == 2 && hihatPulses == 8
      ensures currentHeading == 0.0 && nextNoteTime == 0.0 && !isPlaying && played == []
    {
      tempo := 120.0;
      kickPulses, snarePulses, hihatPulses := 4, 2, 8;
      currentHeading := 0.0;
      nextNoteTime := 0.0;
      isPlaying := false;
      played := [];
    }

    function Pulses(v: Voice): int
      reads this`kickPulses, this`snarePulses, this`hihatPulses
    {
      match v
      case Kick => kickPulses
      case Snare => snarePulses
      case HiHat => hihatPulses
    }

    /** The pattern a pass derives for `v` from the current state. */
    function Pattern(v: Voice): (p: seq<int>)
      reads this`kickPulses, this`snarePulses, this`hihatPulses, this`currentHeading
      ensures |p| == Steps
    {
      EuclideanRhythmCounts(Pulses(v), Steps, HeadingRotation(currentHeading));
      EuclideanRhythm(Pulses(v), Steps, HeadingRotation(currentHeading))
    }

    /** `playSample`: the sample buffers are loaded before the scheduler
        can start, so every call schedules a one-shot. */
    method PlaySample(voice: Voice, time: real)
      modifies this`played
      ensures played == old(played) + [Trigger(voice, time)]
    {
      played := played + [Trigger(voice, time)];
    }

    /** `scheduleNotes`: while the next beat starts before `now` plus the
        lookahead, emit that beat's triggers and advance by one beat.
        `beats` is the number of beats scheduled. */
    method ScheduleNotes(now: real) returns (ghost beats: nat)
      requires Valid()
      modifies this`nextNoteTime, this`played
      ensures Valid()
      ensures old(nextNoteTime) <= nextNoteTime
      ensures nextNoteTime == BeatStart(old(nextNoteTime), SecondsPerBeat(tempo), beats)
      ensures nextNoteTime >= now + ScheduleAheadTime
      ensures beats > 0 ==> nextNoteTime - SecondsPerBeat(tempo) < now + ScheduleAheadTime
      ensures beats == 0 <==> old(nextNoteTime) >= now + ScheduleAheadTime
      ensures played == old(played) + PassTriggers(Pattern(Kick), Pattern(Snare), Pattern(HiHat),
                                                   old(nextNoteTime), SecondsPerBeat(tempo), beats)
    {
      ghost var start, spb := nextNoteTime, SecondsPerBeat(tempo);
      ghost var kick, snare, hihat := Pattern(Kick), Pattern(Snare), Pattern(HiHat);
      SecondsPerBeatRange(tempo);
      beats := 0;
      while nextNoteTime < now + ScheduleAheadTime
        invariant start <= nextNoteTime == BeatStart(start, spb, beats)
        invariant beats > 0 ==> nextNoteTime - spb < now + ScheduleAheadTime && start < now + ScheduleAheadTime
        invariant played == old(played) + PassTriggers(kick, snare, hihat, start, spb, beats)
        decreases (now + ScheduleAheadTime - nextNoteTime) * 4.0
      {
        var secondsPerBeat := SecondsPerBeat(tempo);
        var rotation := HeadingRotation(currentHeading);
        var kickPattern := GenerateEuclideanRhythm(kickPulses, Steps, rotation);
        var snarePattern := GenerateEuclideanRhythm(snarePulses, Steps, rotation);
        var hihatPattern := GenerateEuclideanRhythm(hihatPulses, Steps, rotation);
        assert secondsPerBeat == spb;
        assert kickPattern == kick && snarePattern == snare && hihatPattern == hihat;

        ScheduleBeat(kickPattern, snarePattern, hihatPattern, nextNoteTime, secondsPerBeat);
        PassTriggersStep(kickPattern, snarePattern, hihatPattern, start, spb, beats);
        ConcatAssoc(old(played), PassTriggers(kickPattern, snarePattern, hihatPattern, start, spb, beats),
                    BeatTriggers(kickPattern, snarePattern, hihatPattern, nextNoteTime, spb, Steps));
        nextNoteTime := nextNoteTime + secondsPerBeat;
        beats := beats + 1;
      }
    }

    /** One beat of `scheduleNotes`: walk the 16 steps and trigger every
        voice whose pattern bit is set, at the step's time within the beat. */
    method ScheduleBeat(kickPattern: seq<int>, snarePattern: seq<int>, hihatPattern: seq<int>,
                        beatTime: real, secondsPerBeat: real)
      requires |kickPattern| == |snarePattern| == |hihatPattern| == Steps
      modifies this`played
      ensures played == old(played) + BeatTriggers(kickPattern, snarePattern, hihatPattern, beatTime, secondsPerBeat, Steps)
    {
      ghost var before := played;
      var i := 0;
      while i < Steps
        invariant 0 <= i <= Steps
        invariant played == before + BeatTriggers(kickPattern, snarePattern, hihatPattern, beatTime, secondsPerBeat, i)
      {
        var time := StepTime(beatTime, secondsPerBeat, i);
        ghost var stepStart := played;
        ghost var k := if kickPattern[i] != 0 then [Trigger(Kick, time)] else [];
        ghost var sn := if snarePattern[i] != 0 then [Trigger(Snare, time)] else [];
        ghost var h := if hihatPattern[i] != 0 then [Trigger(HiHat, time)] else [];
        if kickPattern[i] != 0 { PlaySample(Kick, time); }
        assert played == stepStart + k;
        if snarePattern[i] != 0 { PlaySample(Snare, time); }
        assert played == stepStart + k + sn;
        if hihatPattern[i] != 0 { PlaySample(HiHat, time); }
        assert played == stepStart + k + sn + h;
        ConcatAssoc(stepStart + k, sn, h);
        ConcatAssoc(stepStart, k, sn + h);
        ConcatAssoc(k, sn, h);
        ConcatAssoc(before, BeatTriggers(kickPattern, snarePattern, hihatPattern, beatTime, secondsPerBeat, i),
                    StepTriggers(kickPattern, snarePattern, hihatPattern, time, i));
        BeatTriggersStep(kickPattern, snarePattern, hihatPattern, beatTime, secondsPerBeat, i);
        i := i + 1;
      }
    }

    /** `startScheduler`: from Stopped, switch to Running, restart the beat
        clock at `now` and run one pass at once; when already Running,
        nothing happens. */
    method StartScheduler(now: real)
      requires Valid()
      modifies this`isPlaying, this`nextNoteTime, this`played
      ensures Valid()
      ensures isPlaying
      ensures old(isPlaying) ==> nextNoteTime == old(nextNoteTime) && played == old(played)
      ensures !old(isPlaying) ==>
                && nextNoteTime == now + SecondsPerBeat(tempo)
                && played == old(played) + BeatTriggers(Pattern(Kick), Pattern(Snare), Pattern(HiHat),
                                                        now, SecondsPerBeat(tempo), Steps)
    {
      if !isPlaying {
        isPlaying := true;
        nextNoteTime := now;
        ghost var spb := SecondsPerBeat(tempo);
        ghost var kick, snare, hihat := Pattern(Kick), Pattern(Snare), Pattern(HiHat);
        ghost var beats := ScheduleNotes(now);
        SecondsPerBeatRange(tempo);
        OneBeatPass(kick, snare, hihat, now, spb, beats);
      }
    }

    /** The transport part of `stopAudio`: Running becomes Stopped; the beat
        clock is left where it was. */
    method StopAudio()
      modifies this`isPlaying
      ensures !isPlaying
      ensures nextNoteTime == old(nextNoteTime)
    {
      if isPlaying {
        isPlaying := false;
      }
    }

    /** The 25 ms interval timer: it exists exactly while Running, so a tick
        runs a pass when playing and does nothing once stopped. */
    method Tick(now: real) returns (ghost beats: nat)
      requires Valid()
      modifies this`nextNoteTime, this`played
      ensures Valid()
      ensures !isPlaying ==> nextNoteTime == old(nextNoteTime) && played == old(played) && beats == 0
      ensures isPlaying ==>
                && nextNoteTime == BeatStart(old(nextNoteTime), SecondsPerBeat(tempo), beats)
                && nextNoteTime >= now + ScheduleAheadTime
                && played == old(played) + PassTriggers(Pattern(Kick), Pattern(Snare), Pattern(HiHat),
                                                        old(nextNoteTime), SecondsPerBeat(tempo), beats)
    {
      beats := 0;
      if isPlaying {
        beats := ScheduleNotes(now);
      }
    }

    /** `updateTempo(distance)` with the distance band and the reverse flag
        of the current session. */
    method UpdateTempo(distance: real, distanceBand: real, reverseMapping: bool)
      requires distanceBand > 0.0
      modifies this`tempo
      ensures Valid()
      ensures tempo == TempoFor(distance, distanceBand, reverseMapping)
    {
      var normalizedDistance := ClampUnit(distance / distanceBand);
      tempo := if reverseMapping
               then 60.0 + (1.0 - normalizedDistance) * (240.0 - 60.0)
               else 60.0 + normalizedDistance * (240.0 - 60.0);
    }

    /** The GPS watch callback: a new distance sets the tempo, and a pass
        runs at once when playing. */
    method OnPosition(distance: real, distanceBand: real, reverseMapping: bool, now: real)
      returns (ghost beats: nat)
      requires distanceBand > 0.0
      modifies this`tempo, this`nextNoteTime, this`played
      ensures Valid()
      ensures tempo == TempoFor(distance, distanceBand, reverseMapping)
      ensures !isPlaying ==> nextNoteTime == old(nextNoteTime) && played == old(played)
      ensures isPlaying ==>
                && nextNoteTime == BeatStart(old(nextNoteTime), SecondsPerBeat(tempo), beats)
                && nextNoteTime >= now + ScheduleAheadTime
                && played == old(played) + PassTriggers(Pattern(Kick), Pattern(Snare), Pattern(HiHat),
                                                        old(nextNoteTime), SecondsPerBeat(tempo), beats)
    {
      UpdateTempo(distance, distanceBand, reverseMapping);
      beats := 0;
      if isPlaying {
        beats := ScheduleNotes(now);
      }
    }

    /** The state update of `handleOrientation`: ignored while orientation
        is off or when a reading is missing; otherwise the compass heading
        becomes the current heading and the tilt sets all three pulse counts
        to one common value. */
    method HandleOrientation(orientationActive: bool, beta: Option<real>, alpha: Option<real>)
      modifies this`currentHeading, this`kickPulses, this`snarePulses, this`hihatPulses
      ensures !orientationActive || beta.None? || alpha.None? ==>
                && currentHeading == old(currentHeading)
                && kickPulses == old(kickPulses) && snarePulses == old(snarePulses)
                && hihatPulses == old(hihatPulses)
      ensures orientationActive && beta.Some? && alpha.Some? ==>
                && currentHeading == alpha.value
                && kickPulses == snarePulses == hihatPulses == PulsesForTilt(beta.value)
                && 1 <= kickPulses <= 8
    {
      if !orientationActive {
        return;
      }
      if beta.None? || alpha.None? {
        return;
      }
      currentHeading := alpha.value;
      var normalizedBeta := (beta.value + 180.0) / 360.0;
      kickPulses := Clamp8(Round(normalizedBeta * 7.0) + 1);
      snarePulses := Clamp8(Round(normalizedBeta * 7.0) + 1);
      hihatPulses := Clamp8(Round(normalizedBeta * 7.0) + 1);
    }
  }

  // ---------------------------------------------------------------------
  // Lemmas: what one beat and one pass emit, and when
  // ---------------------------------------------------------------------

  lemma BeatTriggersStep(kick: seq<int>, snare: seq<int>, hihat: seq<int>, start: real, spb: real, i: nat)
    requires i < |kick| && i < |snare| && i < |hihat|
    ensures BeatTriggers(kick, snare, hihat, start, spb, i + 1)
         == BeatTriggers(kick, snare, hihat, start, spb, i) + StepTriggers(kick, snare, hihat, StepTime(start, spb, i), i)
  {
  }

  lemma PassTriggersStep(kick: seq<int>, snare: seq<int>, hihat: seq<int>, start: real, spb: real, beats: nat)
    requires Steps <= |kick| && Steps <= |snare| && Steps <= |hihat|
    ensures PassTriggers(kick, snare, hihat, start, spb, beats + 1)
         == PassTriggers(kick, snare, hihat, start, spb, beats)
            + BeatTriggers(kick, snare, hihat, BeatStart(start, spb, beats), spb, Steps)
  {
  }

  /** `a` groups of `c` and one more make `a + 1` groups. */
  lemma MulSucc(a: int, c: int)
    ensures a * c + c == (a + 1) * c
  {
  }

  /** With the tempo in [60, 240] a beat lasts between 0.25 s and 1 s. */
  lemma SecondsPerBeatRange(tempo: real)
    requires MinTempo <= tempo <= MaxTempo
    ensures 0.25 <= SecondsPerBeat(tempo) <= 1.0
  {
    var spb := SecondsPerBeat(tempo);
    assert spb * tempo == 60.0;
    if spb > 1.0 {
      MulStrict(spb - 1.0, tempo);
    }
    if spb < 0.25 {
      MulStrict(0.25 - spb, tempo);
    }
  }

  lemma MulStrict(x: real, y: real)
    requires x > 0.0 && y > 0.0
    ensures x * y > 0.0
  {
  }

  /** A beat lasts longer than the lookahead, so a pass that starts with
      the beat clock at `start` and stops once the clock passes
      `start + ScheduleAheadTime` schedules exactly one beat. */
  lemma OneBeatFromRest(start: real, spb: real, beats: nat)
    requires 0.25 <= spb && beats >= 1
    requires BeatStart(start, spb, beats) - spb < start + ScheduleAheadTime
    ensures beats == 1
  {
    BeatStartLinear(start, spb, beats);
    MulNonNegative((beats - 1) as real, spb - 0.25);
  }

  /** The pass that `startScheduler` runs emits exactly the first beat. */
  lemma OneBeatPass(kick: seq<int>, snare: seq<int>, hihat: seq<int>, start: real, spb: real, beats: nat)
    requires Steps <= |kick| && Steps <= |snare| && Steps <= |hihat|
    requires 0.25 <= spb && beats >= 1
    requires BeatStart(start, spb, beats) - spb < start + ScheduleAheadTime
    ensures BeatStart(start, spb, beats) == start + spb
    ensures PassTriggers(kick, snare, hihat, start, spb, beats) == BeatTriggers(kick, snare, hihat, start, spb, Steps)
  {
    OneBeatFromRest(start, spb, beats);
    PassTriggersStep(kick, snare, hihat, start, spb, 0);
  }

  /** Each beat starts exactly `spb` after the previous one. */
  lemma {:induction false} BeatStartLinear(start: real, spb: real, j: nat)
    ensures BeatStart(start, spb, j) == start + (j as real) * spb
  {
    if j > 0 {
      BeatStartLinear(start, spb, j - 1);
    }
  }

  /** Steps sound in order, the first at the start of the beat and all
      before the next beat begins. */
  lemma StepTimeOrder(start: real, spb: real, i: int, j: int)
    requires spb > 0.0 && 0 <= i < j <= Steps
    ensures start <= StepTime(start, spb, i) < StepTime(start, spb, j) <= start + spb
  {
    OffsetOrder(spb, i, j);
  }

  lemma OffsetOrder(spb: real, i: int, j: int)
    requires spb > 0.0 && i < j
    ensures StepOffset(spb, i) < StepOffset(spb, j)
  {
    var c := spb / (Steps as real);
    ScaleDifference(j as real, i as real, c);
    MulStrict(j as real - i as real, c);
  }

  lemma StepOffsetRange(spb: real, i: int)
    ensures spb >= 0.0 && 0 <= i <= Steps ==> 0.0 <= StepOffset(spb, i) <= spb
  {
    if spb >= 0.0 && 0 <= i <= Steps {
      var c := spb / (Steps as real);
      MulNonNegative(i as real, c);
      ScaleDifference(Steps as real, i as real, c);
      MulNonNegative(Steps as real - i as real, c);
    }
  }

  lemma ScaleDifference(a: real, b: real, c: real)
    ensures a * c - b * c == (a - b) * c
  {
  }

  lemma MulNonNegative(x: real, y: real)
    requires x >= 0.0 && y >= 0.0
    ensures x * y >= 0.0
  {
  }

  lemma {:induction false} VoiceTimesAppend(a: seq<Trigger>, b: seq<Trigger>, v: Voice)
    ensures VoiceTimes(a + b, v) == VoiceTimes(a, v) + VoiceTimes(b, v)
    decreases |b|
  {
    if b != [] {
      var last := b[|b| - 1];
      assert (a + b)[..|a + b| - 1] == a + b[..|b| - 1];
      VoiceTimesAppend(a, b[..|b| - 1], v);
    } else {
      assert a + b == a;
    }
  }

  lemma VoiceTimesSingleton(g: Trigger, v: Voice)
    ensures VoiceTimes([g], v) == if g.voice == v then [g.time] else []
  {
    assert [g][..0] == [];
  }

  /** Filtered by voice, one step's triggers are that step's onset, if the
      voice's bit is set. */
  lemma StepVoiceTimes(kick: seq<int>, snare: seq<int>, hihat: seq<int>, t: real, i: nat, v: Voice)
    requires i < |kick| && i < |snare| && i < |hihat|
    ensures VoiceTimes(StepTriggers(kick, snare, hihat, t, i), v)
         == if PatternOf(v, kick, snare, hihat)[i] != 0 then [t] else []
  {
    VoiceTimesOfStep(kick[i] != 0, snare[i] != 0, hihat[i] != 0, t, v);
  }

  /** The voice-`v` times of a step that emits kick, snare and hi-hat
      triggers at time `t` when `onK`, `onS` and `onH` hold. */
  lemma VoiceTimesOfStep(onK: bool, onS: bool, onH: bool, t: real, v: Voice)
    ensures VoiceTimes((if onK then [Trigger(Kick, t)] else [])
                       + (if onS then [Trigger(Snare, t)] else [])
                       + (if onH then [Trigger(HiHat, t)] else []), v)
         == if (v == Kick && onK) || (v == Snare && onS) || (v == HiHat && onH) then [t] else []
  {
    var k := if onK then [Trigger(Kick, t)] else [];
    var s := if onS then [Trigger(Snare, t)] else [];
    var h := if onH then [Trigger(HiHat, t)] else [];
    VoiceTimesAppend(k + s, h, v);
    VoiceTimesAppend(k, s, v);
    VoiceTimesOptional(onK, Trigger(Kick, t), v);
    VoiceTimesOptional(onS, Trigger(Snare, t), v);
    VoiceTimesOptional(onH, Trigger(HiHat, t), v);
  }

  /** A trigger that is emitted only when `present` holds. */
  lemma VoiceTimesOptional(present: bool, g: Trigger, v: Voice)
    ensures VoiceTimes(if present then [g] else [], v) == if present && g.voice == v then [g.time] else []
  {
    VoiceTimesSingleton(g, v);
  }

  /** Filtered by voice, a beat's triggers are exactly that voice's onset
      times, one per set bit, in step order. */
  lemma {:induction false} BeatVoiceTimes(kick: seq<int>, snare: seq<int>, hihat: seq<int>,
                                          start: real, spb: real, upTo: nat, v: Voice)
    requires upTo <= |kick| && upTo <= |snare| && upTo <= |hihat|
    ensures VoiceTimes(BeatTriggers(kick, snare, hihat, start, spb, upTo), v)
         == OnsetTimes(PatternOf(v, kick, snare, hihat), start, spb, upTo)
  {
    if upTo > 0 {
      var i := upTo - 1;
      var t := StepTime(start, spb, i);
      BeatVoiceTimes(kick, snare, hihat, start, spb, i, v);
      BeatTriggersStep(kick, snare, hihat, start, spb, i);
      VoiceTimesAppend(BeatTriggers(kick, snare, hihat, start, spb, i), StepTriggers(kick, snare, hihat, t, i), v);
      StepVoiceTimes(kick, snare, hihat, t, i, v);
      var p := PatternOf(v, kick, snare, hihat);
      assert OnsetTimes(p, start, spb, upTo) == OnsetTimes(p, start, spb, i) + (if p[i] != 0 then [t] else []);
    }
  }

  /** A 0/1 pattern yields one onset time per 1-bit. */
  lemma {:induction false} OnsetTimesCount(pattern: seq<int>, start: real, spb: real, upTo: nat)
    requires upTo <= |pattern|
    requires forall i :: 0 <= i < |pattern| ==> pattern[i] == 0 || pattern[i] == 1
    ensures |OnsetTimes(pattern, start, spb, upTo)| == multiset(pattern[..upTo])[1]
  {
    if upTo > 0 {
      OnsetTimesCount(pattern, start, spb, upTo - 1);
      assert pattern[..upTo] == pattern[..upTo - 1] + [pattern[upTo - 1]];
    }
  }

  /** Every onset time of the first `upTo` steps lies in
      `[start, StepTime(upTo))`. */
  lemma {:induction false} OnsetTimesBounds(pattern: seq<int>, start: real, spb: real, upTo: nat)
    requires upTo <= |pattern| && upTo <= Steps && spb > 0.0
    ensures forall t :: t in OnsetTimes(pattern, start, spb, upTo) ==> start <= t < StepTime(start, spb, upTo)
  {
    if upTo > 0 {
      OnsetTimesBounds(pattern, start, spb, upTo - 1);
      StepTimeOrder(start, spb, upTo - 1, upTo);
      if upTo > 1 {
        StepTimeOrder(start, spb, upTo - 2, upTo - 1);
      }
    }
  }

  /** Step `i` has an onset time exactly when its pattern bit is set. */
  lemma {:induction false} OnsetTimesExact(pattern: seq<int>, start: real, spb: real, upTo: nat, i: nat)
    requires upTo <= |pattern| && upTo <= Steps && spb > 0.0 && i < upTo
    ensures StepTime(start, spb, i) in OnsetTimes(pattern, start, spb, upTo) <==> pattern[i] != 0
  {
    var m := upTo - 1;
    OnsetTimesBounds(pattern, start, spb, m);
    if i < m {
      OnsetTimesExact(pattern, start, spb, m, i);
      StepTimeOrder(start, spb, i, m);
    }
  }

  /** One beat emits exactly `clamp(pulses, 0, 16)` triggers of a voice
      whose pattern is the generator's output for `pulses`. */
  lemma BeatVoiceCount(pulses: int, rotation: int, kick: seq<int>, snare: seq<int>, hihat: seq<int>,
                       v: Voice, start: real, spb: real)
    requires |kick| == |snare| == |hihat| == Steps
    requires PatternOf(v, kick, snare, hihat) == EuclideanRhythm(pulses, Steps, rotation)
    ensures |VoiceTimes(BeatTriggers(kick, snare, hihat, start, spb, Steps), v)| == ClampPulses(pulses, Steps)
  {
    EuclideanRhythmCounts(pulses, Steps, rotation);
    BeatVoiceOnsets(kick, snare, hihat, v, start, spb);
  }

  /** One beat emits one trigger of a voice per onset of its 0/1 pattern. */
  lemma BeatVoiceOnsets(kick: seq<int>, snare: seq<int>, hihat: seq<int>, v: Voice, start: real, spb: real)
    requires |kick| == |snare| == |hihat| == Steps
    requires forall i :: 0 <= i < Steps ==> PatternOf(v, kick, snare, hihat)[i] in {0, 1}
    ensures |VoiceTimes(BeatTriggers(kick, snare, hihat, start, spb, Steps), v)|
         == multiset(PatternOf(v, kick, snare, hihat))[1]
  {
    var p := PatternOf(v, kick, snare, hihat);
    BeatVoiceTimes(kick, snare, hihat, start, spb, Steps, v);
    OnsetTimesCount(p, start, spb, Steps);
    assert p[..Steps] == p;
  }

  /** What one beat of a pass emits for each voice: exactly
      `clamp(pulses, 0, 16)` triggers, at the steps where the voice's
      pattern has an onset, all within `[start, start + spb)`. */
  lemma BeatEmitsPulses(pulses: int, rotation: int, kick: seq<int>, snare: seq<int>, hihat: seq<int>,
                        v: Voice, start: real, spb: real)
    requires spb > 0.0 && |kick| == |snare| == |hihat| == Steps
    requires PatternOf(v, kick, snare, hihat) == EuclideanRhythm(pulses, Steps, rotation)
    ensures |VoiceTimes(BeatTriggers(kick, snare, hihat, start, spb, Steps), v)| == ClampPulses(pulses, Steps)
    ensures forall t | t in VoiceTimes(BeatTriggers(kick, snare, hihat, start, spb, Steps), v) ::
              start <= t < start + spb
    ensures forall i :: 0 <= i < Steps ==>
              (StepTime(start, spb, i) in VoiceTimes(BeatTriggers(kick, snare, hihat, start, spb, Steps), v)
               <==> EuclideanRhythm(pulses, Steps, rotation)[i] == 1)
  {
    var p := PatternOf(v, kick, snare, hihat);
    BeatVoiceCount(pulses, rotation, kick, snare, hihat, v, start, spb);
    EuclideanRhythmCounts(pulses, Steps, rotation);
    BeatVoiceTimes(kick, snare, hihat, start, spb, Steps, v);
    OnsetTimesBounds(p, start, spb, Steps);
    assert StepTime(start, spb, Steps) == start + spb;
    forall i | 0 <= i < Steps
      ensures StepTime(start, spb, i) in OnsetTimes(p, start, spb, Steps) <==> p[i] == 1
    {
      OnsetTimesExact(p, start, spb, Steps, i);
    }
  }

  /** Over a pass of `beats` beats, each voice sounds exactly
      `beats * clamp(pulses, 0, 16)` times. */
  lemma PassVoiceCount(pulses: int, rotation: int, kick: seq<int>, snare: seq<int>,
                       hihat: seq<int>, v: Voice, start: real, spb: real, beats: nat)
    requires spb > 0.0 && |kick| == |snare| == |hihat| == Steps
    requires PatternOf(v, kick, snare, hihat) == EuclideanRhythm(pulses, Steps, rotation)
    ensures |VoiceTimes(PassTriggers(kick, snare, hihat, start, spb, beats), v)| == beats * ClampPulses(pulses, Steps)
  {
    EuclideanRhythmCounts(pulses, Steps, rotation);
    PassVoiceOnsets(kick, snare, hihat, v, start, spb, beats);
  }

  /** Over a pass of `beats` beats, a voice with a 0/1 pattern sounds
      `beats` times its pattern's onset count. */
  lemma {:induction false} PassVoiceOnsets(kick: seq<int>, snare: seq<int>, hihat: seq<int>, v: Voice,
                                           start: real, spb: real, beats: nat)
    requires |kick| == |snare| == |hihat| == Steps
    requires forall i :: 0 <= i < Steps ==> PatternOf(v, kick, snare, hihat)[i] in {0, 1}
    ensures |VoiceTimes(PassTriggers(kick, snare, hihat, start, spb, beats), v)|
         == beats * multiset(PatternOf(v, kick, snare, hihat))[1]
  {
    if beats > 0 {
      var before := PassTriggers(kick, snare, hihat, start, spb, beats - 1);
      var beat := BeatTriggers(kick, snare, hihat, BeatStart(start, spb, beats - 1), spb, Steps);
      PassVoiceOnsets(kick, snare, hihat, v, start, spb, beats - 1);
      BeatVoiceOnsets(kick, snare, hihat, v, BeatStart(start, spb, beats - 1), spb);
      VoiceTimesAppend(before, beat, v);
      MulSucc(beats - 1, multiset(PatternOf(v, kick, snare, hihat))[1]);
    }
  }

  /** Every trigger of a pass of `beats` beats falls between the pass's
      first beat start and the beat clock it leaves behind. */
  lemma {:induction false} PassTriggersWithin(kick: seq<int>, snare: seq<int>, hihat: seq<int>,
                                              start: real, spb: real, beats: nat)
    requires spb > 0.0 && |kick| == |snare| == |hihat| == Steps
    ensures forall g :: g in PassTriggers(kick, snare, hihat, start, spb, beats) ==>
              start <= g.time < BeatStart(start, spb, beats)
  {
    if beats > 0 {
      var b := BeatStart(start, spb, beats - 1);
      PassTriggersWithin(kick, snare, hihat, start, spb, beats - 1);
      BeatStartLinear(start, spb, beats - 1);
      assert start <= b;
      forall g | g in BeatTriggers(kick, snare, hihat, b, spb, Steps)
        ensures b <= g.time < b + spb
      {
        BeatTriggersWithin(kick, snare, hihat, b, spb, Steps, g);
      }
    }
  }

  lemma {:induction false} BeatTriggersWithin(kick: seq<int>, snare: seq<int>, hihat: seq<int>,
                                              start: real, spb: real, upTo: nat, g: Trigger)
    requires spb > 0.0 && upTo <= Steps && upTo <= |kick| && upTo <= |snare| && upTo <= |hihat|
    requires g in BeatTriggers(kick, snare, hihat, start, spb, upTo)
    ensures start <= g.time < start + spb
  {
    var i := upTo - 1;
    StepTimeOrder(start, spb, i, Steps);
    if g in BeatTriggers(kick, snare, hihat, start, spb, i) {
      BeatTriggersWithin(kick, snare, hihat, start, spb, i, g);
    }
  }
}
