/** One pass of the main loop with the I/O taken out: measure (given here as
    the pulse duration or timeout), convert to centimetres, push the reading
    into the history window, hand the raw reading to the presence decision
    (the low-pass filter is switched off, so the "filtered" value is the raw
    one) and report the event for the playback collaborator. */
module MainLoop {
  import opened Options
  import Sensor
  import History
  import Presence

  /** Everything the loop carries from one tick to the next. */
  datatype State = State(history: seq<real>, presence: Presence.Presence)

  /** What the outside world supplies to one tick: the measured echo duration
      (None on timeout) and the clock reading used by the decision. */
  datatype TickInput = TickInput(pulse: Option<real>, at: real)

  /** The new state, the two distances the loop logs, and the event. */
  datatype TickOutput = TickOutput(next: State, rawCm: real, filteredCm: real, event: Presence.Event)

  predicate Valid(st: State) {
    |st.history| == History.WindowSize && Presence.Valid(st.presence)
  }

  /** The loop's variables before the first tick. */
  function Init(): (st: State)
    ensures Valid(st)
    ensures !st.presence.personDetected
    ensures forall i :: 0 <= i < |st.history| ==> st.history[i] > Presence.ThresholdCm
  {
    State(History.Initial(), Presence.Initial())
  }

  /** One tick of the main loop. */
  function Tick(st: State, input: TickInput): (r: TickOutput)
    requires Valid(st)
    ensures Valid(r.next)
    ensures Sensor.InRange(r.rawCm)
    ensures r.rawCm == Sensor.DistanceCm(input.pulse)
    ensures input.pulse.None? ==> r.rawCm == Sensor.TimeoutCm
    ensures r.filteredCm == r.rawCm
    ensures r.next.history[History.WindowSize - 1] == r.rawCm
    ensures forall i :: 0 <= i < History.WindowSize - 1 ==> r.next.history[i] == st.history[i + 1]
    ensures r.event == Presence.Stop <==> r.rawCm >= Presence.ThresholdCm
    ensures r.event == Presence.Play <==>
              && r.rawCm < Presence.ThresholdCm
              && st.presence.personDetected
              && input.at - st.presence.detectionStart.value > Presence.SustainSec
    ensures r.next.presence.personDetected <==> r.rawCm < Presence.ThresholdCm
    ensures r.next.presence.detectionStart ==
              if r.rawCm < Presence.ThresholdCm && !st.presence.personDetected
              then Some(input.at) else st.presence.detectionStart
  {
    var raw := Sensor.DistanceCm(input.pulse);
    var history := History.Push(st.history, raw);
    var filtered := raw;
    var o := Presence.Step(st.presence, filtered, input.at);
    TickOutput(State(history, o.next), raw, filtered, o.event)
  }

  /** The loop's state after the ticks `ins` in order. */
  function Run(st: State, ins: seq<TickInput>): (r: State)
    requires Valid(st)
    ensures Valid(r)
    decreases |ins|
  {
    if |ins| == 0 then st
    else Tick(Run(st, ins[..|ins| - 1]), ins[|ins| - 1]).next
  }

  /** The event of each tick of `ins`, in order. */
  function Events(st: State, ins: seq<TickInput>): (es: seq<Presence.Event>)
    requires Valid(st)
    ensures |es| == |ins|
  {
    seq(|ins|, k requires 0 <= k < |ins| => Tick(Run(st, ins[..k]), ins[k]).event)
  }

  /** The distances the ticks of `ins` measure. */
  function RawDistances(ins: seq<TickInput>): (ds: seq<real>)
    ensures |ds| == |ins|
    ensures forall k :: 0 <= k < |ins| ==> ds[k] == Sensor.DistanceCm(ins[k].pulse)
  {
    seq(|ins|, k requires 0 <= k < |ins| => Sensor.DistanceCm(ins[k].pulse))
  }

  /** The readings the presence decision sees for the ticks of `ins`. */
  function Readings(ins: seq<TickInput>): (rs: seq<Presence.Reading>)
    ensures |rs| == |ins|
    ensures forall k :: 0 <= k < |ins| ==>
              rs[k] == Presence.Reading(Sensor.DistanceCm(ins[k].pulse), ins[k].at)
  {
    seq(|ins|, k requires 0 <= k < |ins| => Presence.Reading(Sensor.DistanceCm(ins[k].pulse), ins[k].at))
  }

  /** The inputs of a prefix of the ticks are the prefix of the inputs. */
  lemma InputsOfPrefix(ins: seq<TickInput>, n: nat)
    requires n <= |ins|
    ensures RawDistances(ins[..n]) == RawDistances(ins)[..n]
    ensures Readings(ins[..n]) == Readings(ins)[..n]
  {
  }

  /** The window after a run is the window after pushing the raw distances. */
  lemma {:induction false} HistoryOfRun(st: State, ins: seq<TickInput>)
    requires Valid(st)
    ensures Run(st, ins).history == History.PushAll(st.history, RawDistances(ins))
    decreases |ins|
  {
    if |ins| > 0 {
      HistoryOfRun(st, ins[..|ins| - 1]);
      InputsOfPrefix(ins, |ins| - 1);
    }
  }

  /** The presence state after a run is the decision run on the readings. */
  lemma {:induction false} PresenceOfRun(st: State, ins: seq<TickInput>)
    requires Valid(st)
    ensures Run(st, ins).presence == Presence.Run(st.presence, Readings(ins))
    decreases |ins|
  {
    if |ins| > 0 {
      PresenceOfRun(st, ins[..|ins| - 1]);
      InputsOfPrefix(ins, |ins| - 1);
    }
  }

  /** Running the loop is running its two parts side by side: the window
      receives the raw distances and the presence decision sees them with
      their times. */
  lemma RunDecomposes(st: State, ins: seq<TickInput>)
    requires Valid(st)
    ensures Run(st, ins).history == History.PushAll(st.history, RawDistances(ins))
    ensures Run(st, ins).presence == Presence.Run(st.presence, Readings(ins))
  {
    HistoryOfRun(st, ins);
    PresenceOfRun(st, ins);
  }

  /** The loop emits, tick by tick, exactly the events of the presence
      decision run on the measured distances. */
  lemma EventsDecompose(st: State, ins: seq<TickInput>)
    requires Valid(st)
    ensures Events(st, ins) == Presence.Events(st.presence, Readings(ins))
  {
    var es, ps := Events(st, ins), Presence.Events(st.presence, Readings(ins));
    forall k | 0 <= k < |ins|
      ensures es[k] == ps[k]
    {
      PresenceOfRun(st, ins[..k]);
      InputsOfPrefix(ins, k);
    }
  }

  /** After at least five ticks the window holds the five latest distances. */
  lemma WindowAfterRun(st: State, ins: seq<TickInput>)
    requires Valid(st)
    requires |ins| >= History.WindowSize
    ensures Run(st, ins).history == RawDistances(ins)[|ins| - History.WindowSize..]
  {
    RunDecomposes(st, ins);
    History.WindowHoldsLatestReadings(st.history, RawDistances(ins));
  }

  /** From start-up, tick k asks to play exactly when its distance is under a
      metre and it lies more than half a second after the first tick of the
      unbroken run of close distances it belongs to, that first tick being an
      earlier one. */
  lemma PlayIffSustainedPresence(ins: seq<TickInput>, k: int)
    requires 0 <= k < |ins|
    ensures Events(Init(), ins)[k] == Presence.Play <==>
              exists j :: Presence.EpisodeStart(Readings(ins), j, k + 1) && j < k
                          && ins[k].at - ins[j].at > Presence.SustainSec
  {
    EventsDecompose(Init(), ins);
    Presence.PlayIffSustained(Init().presence, Readings(ins), k);
  }

  /** Tick k asks to stop exactly when its distance is a metre or more, and a
      timed-out measurement always asks to stop. */
  lemma StopIffFar(st: State, ins: seq<TickInput>, k: int)
    requires Valid(st) && 0 <= k < |ins|
    ensures Events(st, ins)[k] == Presence.Stop <==> Sensor.DistanceCm(ins[k].pulse) >= Presence.ThresholdCm
    ensures ins[k].pulse.None? ==> Events(st, ins)[k] == Presence.Stop
  {
    EventsDecompose(st, ins);
    Presence.StopIff(st.presence, Readings(ins), k);
  }
}
