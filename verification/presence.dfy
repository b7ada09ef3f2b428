/** The presence decision taken once per tick from the (unfiltered) distance and
    the current time. A reading below one metre starts or continues a detection;
    once a detection has lasted more than half a second, every further close
    reading asks the playback collaborator to play. Every reading of a metre or
    more ends the detection and asks it to stop, whether or not anyone had been
    detected. The decision keeps only `person_detected` and `detection_start`;
    the collaborator's own "already playing" check is what keeps a track from
    restarting. */
module Presence {
  import opened Options

  /** Readings strictly below this count as a person in front of the sensor. */
  const ThresholdCm: real := 100.0

  /** A detection must have lasted strictly longer than this before playing. */
  const SustainSec: real := 0.5

  /** What a tick asks of the playback collaborator. */
  datatype Event = Play | Stop | NoEvent

  /** The loop's detection variables. `detectionStart` is unset until the first
      detection and keeps its last value after a detection ends. */
  datatype Presence = Presence(personDetected: bool, detectionStart: Option<real>)

  /** One tick's input: a distance and the time it was taken. */
  datatype Reading = Reading(cm: real, at: real)

  /** The result of one decision. */
  datatype Outcome = Outcome(next: Presence, event: Event)

  /** Before the first tick nobody is detected and no start time is recorded. */
  function Initial(): Presence {
    Presence(false, None)
  }

  /** A detection always has a start time to measure its duration from. */
  predicate Valid(s: Presence) {
    s.personDetected ==> s.detectionStart.Some?
  }

  /** One pass through the loop's decision. */
  function Step(s: Presence, cm: real, now: real): (o: Outcome)
    requires Valid(s)
    ensures Valid(o.next)
    ensures o.next.personDetected <==> cm < ThresholdCm
    ensures o.event == Stop <==> cm >= ThresholdCm
    ensures o.event == Play <==>
              cm < ThresholdCm && s.personDetected && now - s.detectionStart.value > SustainSec
    ensures o.next.detectionStart ==
              if cm < ThresholdCm && !s.personDetected then Some(now) else s.detectionStart
  {
    if cm < ThresholdCm then
      if !s.personDetected then
        Outcome(Presence(true, Some(now)), NoEvent)
      else if now - s.detectionStart.value > SustainSec then
        Outcome(s, Play)
      else
        Outcome(s, NoEvent)
    else
      Outcome(s.(personDetected := false), Stop)
  }

  /** Entering a detection records the time and never plays on that tick. */
  lemma EnteringDetection(s: Presence, cm: real, now: real)
    requires Valid(s) && !s.personDetected && cm < ThresholdCm
    ensures Step(s, cm, now) == Outcome(Presence(true, Some(now)), NoEvent)
  {
  }

  /** The detection variables after the readings `rs` in order. */
  function Run(s: Presence, rs: seq<Reading>): (r: Presence)
    requires Valid(s)
    ensures Valid(r)
    decreases |rs|
  {
    if |rs| == 0 then s
    else
      var last := rs[|rs| - 1];
      Step(Run(s, rs[..|rs| - 1]), last.cm, last.at).next
  }

  /** The event each reading of `rs` produces, in order. */
  function Events(s: Presence, rs: seq<Reading>): (es: seq<Event>)
    requires Valid(s)
    ensures |es| == |rs|
  {
    seq(|rs|, k requires 0 <= k < |rs| => Step(Run(s, rs[..k]), rs[k].cm, rs[k].at).event)
  }

  /** Index j opens the close-reading episode that is still going on just
      before index n: readings j .. n-1 are all close and the one before j, if
      any, was not. */
  predicate EpisodeStart(rs: seq<Reading>, j: int, n: int) {
    && 0 <= j < n <= |rs|
    && (j == 0 || rs[j - 1].cm >= ThresholdCm)
    && forall i :: j <= i < n ==> rs[i].cm < ThresholdCm
  }

  /** From a state with nobody detected, the state after an ongoing episode is
      a detection that started at the episode's first reading. */
  lemma {:induction false} EpisodeState(s: Presence, rs: seq<Reading>, j: int)
    requires Valid(s) && !s.personDetected
    requires EpisodeStart(rs, j, |rs|)
    ensures Run(s, rs) == Presence(true, Some(rs[j].at))
    decreases |rs|
  {
    var p := rs[..|rs| - 1];
    if |rs| == j + 1 {
      if j > 0 {
        assert p[..|p| - 1] == rs[..j - 1];
        assert !Run(s, p).personDetected;
      }
    } else {
      assert EpisodeStart(p, j, |p|);
      EpisodeState(s, p, j);
    }
  }

  /** From a state with nobody detected, a detection in progress always belongs
      to an episode that is still going on, and its start time is that of the
      episode's first reading. */
  lemma {:induction false} DetectionHasEpisode(s: Presence, rs: seq<Reading>)
    requires Valid(s) && !s.personDetected
    requires Run(s, rs).personDetected
    ensures exists j :: EpisodeStart(rs, j, |rs|) && Run(s, rs).detectionStart == Some(rs[j].at)
    decreases |rs|
  {
    var n := |rs|;
    var p := rs[..n - 1];
    if Run(s, p).personDetected {
      DetectionHasEpisode(s, p);
      var j :| EpisodeStart(p, j, |p|) && Run(s, p).detectionStart == Some(p[j].at);
      assert EpisodeStart(rs, j, n);
    } else {
      if n - 1 > 0 {
        assert p[..|p| - 1] == rs[..n - 2];
      }
      assert EpisodeStart(rs, n - 1, n);
    }
  }

  /** Tick k's event and state are one step from the state the first k
      readings leave behind. */
  lemma EventAt(s: Presence, rs: seq<Reading>, k: int)
    requires Valid(s) && 0 <= k < |rs|
    ensures Events(s, rs)[k] == Step(Run(s, rs[..k]), rs[k].cm, rs[k].at).event
    ensures Run(s, rs[..k + 1]) == Step(Run(s, rs[..k]), rs[k].cm, rs[k].at).next
  {
    assert rs[..k + 1][..k] == rs[..k];
  }

  /** An episode open on the first k readings is the same episode on the whole
      sequence, and it continues through a close reading k. */
  lemma EpisodeOfPrefix(rs: seq<Reading>, j: int, k: int)
    requires 0 <= k <= |rs|
    ensures EpisodeStart(rs[..k], j, k) <==> EpisodeStart(rs, j, k)
    ensures k < |rs| && EpisodeStart(rs, j, k) && rs[k].cm < ThresholdCm ==> EpisodeStart(rs, j, k + 1)
  {
    var p := rs[..k];
    assert forall i :: 0 <= i < k ==> p[i] == rs[i];
  }

  /** A play request needs a detection, older than half a second, that has
      lasted through a close-reading episode up to the tick before. */
  lemma PlayOnlyWhenSustained(s: Presence, rs: seq<Reading>, k: int)
    requires Valid(s) && !s.personDetected
    requires 0 <= k < |rs|
    requires Events(s, rs)[k] == Play
    ensures exists j :: EpisodeStart(rs, j, k + 1) && j < k && rs[k].at - rs[j].at > SustainSec
  {
    EventAt(s, rs, k);
    var p := rs[..k];
    var before := Run(s, p);
    assert before.personDetected && rs[k].cm < ThresholdCm;
    assert rs[k].at - before.detectionStart.value > SustainSec;
    DetectionHasEpisode(s, p);
    var j :| EpisodeStart(p, j, |p|) && before.detectionStart == Some(p[j].at);
    assert p[j] == rs[j];
    EpisodeOfPrefix(rs, j, k);
    assert EpisodeStart(rs, j, k + 1);
  }

  /** Conversely, a close reading more than half a second into an episode that
      began at an earlier tick always asks to play. */
  lemma SustainedPlays(s: Presence, rs: seq<Reading>, k: int, j: int)
    requires Valid(s) && !s.personDetected
    requires 0 <= k < |rs|
    requires EpisodeStart(rs, j, k + 1) && j < k && rs[k].at - rs[j].at > SustainSec
    ensures Events(s, rs)[k] == Play
  {
    EventAt(s, rs, k);
    var p := rs[..k];
    assert EpisodeStart(rs, j, k);
    EpisodeOfPrefix(rs, j, k);
    EpisodeState(s, p, j);
    assert p[j] == rs[j];
  }

  /** Starting with nobody detected, tick k asks to play exactly when the
      reading is close, the close episode it belongs to began at an earlier
      tick j, and more than half a second has passed since tick j. */
  lemma PlayIffSustained(s: Presence, rs: seq<Reading>, k: int)
    requires Valid(s) && !s.personDetected
    requires 0 <= k < |rs|
    ensures Events(s, rs)[k] == Play <==>
              exists j :: EpisodeStart(rs, j, k + 1) && j < k && rs[k].at - rs[j].at > SustainSec
  {
    if Events(s, rs)[k] == Play {
      PlayOnlyWhenSustained(s, rs, k);
    }
    if exists j :: EpisodeStart(rs, j, k + 1) && j < k && rs[k].at - rs[j].at > SustainSec {
      var j :| EpisodeStart(rs, j, k + 1) && j < k && rs[k].at - rs[j].at > SustainSec;
      SustainedPlays(s, rs, k, j);
    }
  }

  /** Tick k asks to stop exactly when its reading is a metre or more, whatever
      came before. */
  lemma StopIff(s: Presence, rs: seq<Reading>, k: int)
    requires Valid(s) && 0 <= k < |rs|
    ensures Events(s, rs)[k] == Stop <==> rs[k].cm >= ThresholdCm
  {
    EventAt(s, rs, k);
  }

  /** Play is asked on every close tick, not once per detection: once a tick
      has asked to play, the next tick asks again if the reading is still close and the clock has not gone back. */
  lemma PlayRepeats(s: Presence, rs: seq<Reading>, k: int)
    requires Valid(s)
    requires 0 <= k && k + 1 < |rs|
    requires Events(s, rs)[k] == Play
    requires rs[k + 1].cm < ThresholdCm && rs[k + 1].at >= rs[k].at
    ensures Events(s, rs)[k + 1] == Play
  {
    EventAt(s, rs, k);
    EventAt(s, rs, k + 1);
    var before := Run(s, rs[..k]);
    assert Run(s, rs[..k + 1]) == before;
    assert rs[k + 1].at - before.detectionStart.value > SustainSec;
  }

  /** A person standing still in front of the sensor: the detection starts on
      the first close tick, play is asked on every close tick after the half
      second has passed, and the first far tick asks to stop. */
  lemma RepeatedPlayScenario()
    ensures Events(Initial(), [Reading(50.0, 0.0), Reading(50.0, 0.3), Reading(50.0, 0.6),
                               Reading(50.0, 0.7), Reading(150.0, 0.8)])
         == [NoEvent, NoEvent, Play, Play, Stop]
  {
    var rs := [Reading(50.0, 0.0), Reading(50.0, 0.3), Reading(50.0, 0.6),
               Reading(50.0, 0.7), Reading(150.0, 0.8)];
    assert EpisodeStart(rs[..1], 0, 1);
    EpisodeState(Initial(), rs[..1], 0);
    assert EpisodeStart(rs[..2], 0, 2);
    EpisodeState(Initial(), rs[..2], 0);
    assert EpisodeStart(rs[..3], 0, 3);
    EpisodeState(Initial(), rs[..3], 0);
    assert EpisodeStart(rs[..4], 0, 4);
    EpisodeState(Initial(), rs[..4], 0);
    assert rs[..0] == [];
    forall k | 0 <= k < 5
      ensures Events(Initial(), rs)[k] == [NoEvent, NoEvent, Play, Play, Stop][k]
    {
      EventAt(Initial(), rs, k);
    }
  }
}
