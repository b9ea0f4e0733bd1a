/**
 * The sensor-to-parameter formulas of fm-synth.js: distance to tempo,
 * device tilt to pulse count, ambient light to gain. Each is a clamped
 * linear map; JavaScript doubles are idealised as exact `real`s.
 */
module SensorMapping {

  /** The tempo range of the distance mapping, in beats per minute. */
  const MinTempo: real := 60.0
  const MaxTempo: real := 240.0

  /** Illuminance, in lux, at which the light mapping reaches full gain. */
  const FullLightLux: real := 100000.0

  /** `Math.min(Math.max(x, 0), 1)`. */
  function ClampUnit(x: real): (y: real)
    ensures 0.0 <= y <= 1.0
    ensures 0.0 <= x <= 1.0 ==> y == x
  {
    var atLeastZero := if x > 0.0 then x else 0.0;
    if atLeastZero < 1.0 then atLeastZero else 1.0
  }

  /** The tempo `updateTempo(distance)` assigns: the distance as a fraction
      of the distance band, clamped to [0, 1], placed linearly between 60 and
      240 BPM, from the top down when the mapping is reversed. */
  function TempoFor(distance: real, band: real, reversed: bool): (bpm: real)
    requires band > 0.0
    ensures MinTempo <= bpm <= MaxTempo
  {
    var normalized := ClampUnit(distance / band);
    if reversed then MinTempo + (1.0 - normalized) * (MaxTempo - MinTempo)
    else MinTempo + normalized * (MaxTempo - MinTempo)
  }

  /** `Math.round`: the nearest integer, halves rounded up. */
  function Round(x: real): (n: int)
    ensures x - 0.5 < n as real <= x + 0.5
  {
    (x + 0.5).Floor
  }

  /** The pulse count `handleOrientation` gives all three voices: the
      front-back tilt `beta`, read as a fraction of [-180, 180], scaled to
      7, rounded, plus 1, and clamped to [1, 8]. */
  function PulsesForTilt(beta: real): (pulses: int)
    ensures 1 <= pulses <= 8
  {
    Clamp8(Round((beta + 180.0) / 360.0 * 7.0) + 1)
  }

  /** `Math.max(1, Math.min(8, x))`. */
  function Clamp8(x: int): (y: int)
    ensures 1 <= y <= 8
    ensures 1 <= x <= 8 ==> y == x
  {
    var atMost8 := if x < 8 then x else 8;
    if atMost8 > 1 then atMost8 else 1
  }

  /** The gain the ambient-light handler ramps the kick and snare buses
      to: illuminance as a fraction of 100000 lux, clamped, mapped to
      [0.5, 1.0]. */
  function LightGain(lux: real): (gain: real)
    ensures 0.5 <= gain <= 1.0
  {
    0.5 + ClampUnit(lux / FullLightLux) * 0.5
  }

  /** The hi-hat bus gets the same gain attenuated to 70%. */
  function HiHatGain(gain: real): (g: real)
    ensures gain >= 0.0 ==> 0.0 <= g <= gain
    ensures 0.5 <= gain <= 1.0 ==> 0.35 <= g <= 0.7
  {
    gain * 0.7
  }

  // ---------------------------------------------------------------------
  // Tempo
  // ---------------------------------------------------------------------

  /** The ends of the band: at or before the locked position the tempo is
      60 BPM (240 reversed); at or beyond the band it is 240 (60 reversed). */
  lemma TempoEndpoints(distance: real, band: real)
    requires band > 0.0
    ensures distance <= 0.0 ==> TempoFor(distance, band, false) == MinTempo
    ensures distance <= 0.0 ==> TempoFor(distance, band, true) == MaxTempo
    ensures distance >= band ==> TempoFor(distance, band, false) == MaxTempo
    ensures distance >= band ==> TempoFor(distance, band, true) == MinTempo
  {
    if distance <= 0.0 {
      DivideMonotone(distance, 0.0, band);
    }
    if distance >= band {
      DivideMonotone(band, distance, band);
    }
  }

  /** Moving away never slows the tempo down; reversed, it never speeds
      it up. */
  lemma TempoMonotone(d1: real, d2: real, band: real)
    requires band > 0.0 && d1 <= d2
    ensures TempoFor(d1, band, false) <= TempoFor(d2, band, false)
    ensures TempoFor(d1, band, true) >= TempoFor(d2, band, true)
  {
    DivideMonotone(d1, d2, band);
  }

  /** Reversing mirrors the tempo around the middle of the range. */
  lemma TempoReversedMirrors(distance: real, band: real)
    requires band > 0.0
    ensures TempoFor(distance, band, true) == MinTempo + MaxTempo - TempoFor(distance, band, false)
  {
  }

  /** Values at the middle and at the end of a 50 m band. */
  lemma TempoExamples()
    ensures TempoFor(25.0, 50.0, false) == 150.0
    ensures TempoFor(25.0, 50.0, true) == 150.0
    ensures TempoFor(50.0, 50.0, false) == 240.0
    ensures TempoFor(50.0, 50.0, true) == 60.0
    ensures TempoFor(100.0, 50.0, false) == 240.0
    ensures TempoFor(0.0, 50.0, false) == 60.0
  {
  }

  lemma DivideMonotone(x: real, y: real, d: real)
    requires d > 0.0 && x <= y
    ensures x / d <= y / d
  {
    assert y / d - x / d == (y - x) / d;
  }

  // ---------------------------------------------------------------------
  // Tilt
  // ---------------------------------------------------------------------

  /** Within the sensor's range [-180, 180] the clamp never engages: the
      count is the rounded scaled tilt plus 1. */
  lemma TiltInRangeNeedsNoClamp(beta: real)
    requires -180.0 <= beta <= 180.0
    ensures PulsesForTilt(beta) == Round((beta + 180.0) / 360.0 * 7.0) + 1
  {
    var x := (beta + 180.0) / 360.0 * 7.0;
    assert 0.0 <= x <= 7.0;
  }

  /** Tilting further forward never lowers the pulse count. */
  lemma TiltMonotone(b1: real, b2: real)
    requires b1 <= b2
    ensures PulsesForTilt(b1) <= PulsesForTilt(b2)
  {
    var x1, x2 := (b1 + 180.0) / 360.0 * 7.0, (b2 + 180.0) / 360.0 * 7.0;
    assert x1 <= x2;
    FloorMonotone(x1 + 0.5, x2 + 0.5);
  }

  /** The two ends of the tilt range and its middle. */
  lemma TiltExamples()
    ensures PulsesForTilt(-180.0) == 1
    ensures PulsesForTilt(0.0) == 5
    ensures PulsesForTilt(180.0) == 8
  {
    assert (0.0 + 180.0) / 360.0 * 7.0 + 0.5 == 4.0;
  }

  lemma FloorMonotone(x: real, y: real)
    requires x <= y
    ensures x.Floor <= y.Floor
  {
  }

  // ---------------------------------------------------------------------
  // Light
  // ---------------------------------------------------------------------

  /** More light never lowers the gain; darkness gives 0.5 and 100000 lux
      or more gives full gain; the hi-hat bus stays within [0.35, 0.7]. */
  lemma LightGainShape(lux1: real, lux2: real)
    requires lux1 <= lux2
    ensures LightGain(lux1) <= LightGain(lux2)
    ensures lux1 <= 0.0 ==> LightGain(lux1) == 0.5
    ensures lux2 >= FullLightLux ==> LightGain(lux2) == 1.0
    ensures 0.35 <= HiHatGain(LightGain(lux1)) <= 0.7
  {
    DivideMonotone(lux1, lux2, FullLightLux);
    if lux1 <= 0.0 {
      DivideMonotone(lux1, 0.0, FullLightLux);
    }
    if lux2 >= FullLightLux {
      DivideMonotone(FullLightLux, lux2, FullLightLux);
    }
  }
}
