/** The HC-SR04 distance conversion: an echo pulse duration (or a timeout)
    becomes a distance in centimetres, clamped to the sensor's 2 cm .. 4 m range.
    How the pulse is timed on the GPIO pins is not part of this model: the
    duration arrives as an input, `None` when either edge wait timed out. */
module Sensor {
  import opened Options

  /** Speed of sound in air, centimetres per second. */
  const SpeedOfSoundCmPerSec: real := 34300.0

  /** The sensor's documented range. */
  const MinRangeCm: real := 2.0
  const MaxRangeCm: real := 400.0

  /** The reading reported when no echo arrives: "maximum range", not a fault. */
  const TimeoutCm: real := 400.0

  predicate InRange(cm: real) {
    MinRangeCm <= cm <= MaxRangeCm
  }

  /** One-way distance covered by sound during a round trip of `durationSec`. */
  function EchoToCm(durationSec: real): real {
    durationSec * SpeedOfSoundCmPerSec / 2.0
  }

  /** Round-trip echo time for an obstacle `cm` centimetres away. */
  function CmToEcho(cm: real): real {
    cm * 2.0 / SpeedOfSoundCmPerSec
  }

  /** Reference definition of the range clamp: the smaller of the value and the
      upper bound, then the larger of that and the lower bound. */
  function Clamp(x: real): real {
    var upper := if x < MaxRangeCm then x else MaxRangeCm;
    if MinRangeCm < upper then upper else MinRangeCm
  }

  /** `HCSR04.distance_cm` once the pulse has been measured. */
  function DistanceCm(pulse: Option<real>): (cm: real)
    ensures InRange(cm)
    ensures pulse.None? ==> cm == TimeoutCm
    ensures pulse.Some? && InRange(EchoToCm(pulse.value)) ==> cm == EchoToCm(pulse.value)
    ensures pulse.Some? && EchoToCm(pulse.value) < MinRangeCm ==> cm == MinRangeCm
    ensures pulse.Some? && EchoToCm(pulse.value) > MaxRangeCm ==> cm == MaxRangeCm
  {
    match pulse
    case None => TimeoutCm
    case Some(duration) =>
      var distance := EchoToCm(duration);
      if distance < MinRangeCm then MinRangeCm
      else if distance > MaxRangeCm then MaxRangeCm
      else distance
  }

  /** A measured pulse yields exactly the clamped conversion. */
  lemma DistanceIsClampedEcho(duration: real)
    ensures DistanceCm(Some(duration)) == Clamp(EchoToCm(duration))
  {
  }

  /** Converting a distance to its echo time and back gives the distance, for
      every distance the sensor can report. */
  lemma EchoRoundTrip(cm: real)
    requires InRange(cm)
    ensures DistanceCm(Some(CmToEcho(cm))) == cm
  {
  }

  /** Conversely, an in-range reading determines the pulse that produced it. */
  lemma ReadingDeterminesEcho(duration: real)
    requires InRange(EchoToCm(duration))
    ensures CmToEcho(DistanceCm(Some(duration))) == duration
  {
  }

  /** A longer echo never reads as a nearer obstacle. */
  lemma DistanceMonotonic(d1: real, d2: real)
    requires d1 <= d2
    ensures DistanceCm(Some(d1)) <= DistanceCm(Some(d2))
  {
  }

  /** The maximal reading arises exactly from a timeout or from an echo at
      least as long as a 4 m round trip, so a timeout cannot be told apart from
      an empty field of view. */
  lemma TimeoutLooksLikeFarObstacle(pulse: Option<real>)
    ensures DistanceCm(pulse) == TimeoutCm
        <==> pulse.None? || pulse.value >= CmToEcho(MaxRangeCm)
  {
  }
}
