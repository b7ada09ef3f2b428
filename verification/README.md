# Ultrasonic presence player — decision core

A Dafny model of the per-tick pipeline of `main.py`, the loop that watches an
HC-SR04 ultrasonic rangefinder and starts or stops music when someone walks up
to it. Each tick

1. converts the measured echo duration into centimetres
   (`HCSR04.distance_cm`): a timeout reads as 400 cm, otherwise
   `duration * 34300 / 2` clamped to the sensor range 2 .. 400 cm
   (module `Sensor`, `sensor.dfy`);
2. pushes the reading into the five-slot history window with a left roll
   followed by an overwrite of the last slot (module `History`, `history.dfy`);
3. feeds the raw reading (the low-pass filter call is commented out, so the
   "filtered" distance is the raw one) to the presence decision over
   `person_detected` / `detection_start`, which asks the playback collaborator
   to play, to stop, or nothing (module `Presence`, `presence.dfy`);
4. composes the three (module `MainLoop`, `loop.dfy`).

Distances and times are mathematical reals. The measured pulse is an input,
`Option<real>` (`None` for a timeout, module `Options`), and so is the clock
reading of each tick. Traces are sequences of tick inputs folded from the
left; the lemmas about traces describe the loop's whole run.

What the loop does, as modelled:

- the window holds 5 readings and is never filtered or averaged;
- the detection state is just `person_detected` and `detection_start`: once a
  detection has lasted more than 0.5 s, **every** close tick asks to play, not
  once per detection (`Presence.PlayRepeats`, `Presence.RepeatedPlayScenario`);
  it is the playback collaborator's "already playing" check that keeps a track
  from restarting;
- **every** tick reading 100 cm or more asks to stop, whether or not anyone
  had been detected, and a timeout (400 cm) is such a tick;
- `detection_start` starts unset and is not cleared when a detection ends; it
  is modelled as `Option<real>` with the invariant that a detection always has
  a start time (`Presence.Valid`).

## Model

| member | source | states |
|---|---|---|
| Sensor.DistanceCm | main.py:97-117 | The result always lies in [2, 400]; a timeout yields exactly 400; an in-range conversion `duration*34300/2` is returned unchanged, below 2 it is exactly 2, above 400 exactly 400. |
| Sensor.DistanceIsClampedEcho | main.py:109-117 | For a measured pulse the result equals an independent min/max clamp of the converted distance to [2, 400]. |
| Sensor.EchoRoundTrip | main.py:107-117 | Every distance the sensor can report is returned exactly for the echo time of that distance (conversion after its inverse is the identity on [2, 400]). |
| Sensor.ReadingDeterminesEcho | main.py:107-117 | For echoes whose conversion is in range, inverting the reported distance gives back the echo duration. |
| Sensor.DistanceMonotonic | main.py:109-117 | A longer echo never reports a smaller distance. |
| Sensor.TimeoutLooksLikeFarObstacle | main.py:104-115 | The reading is 400 exactly when the measurement timed out or the echo lasted at least as long as a 4 m round trip, so a timeout is indistinguishable from an empty field of view. |
| History.RollLeft | main.py:184 | `np.roll(h, -1)`: same length, slot i receives slot i+1 and the first slot wraps round to the last. |
| History.Push | main.py:184-185 | Length is kept, the last slot holds the new reading, and slot i < n-1 holds the old slot i+1. |
| History.PushIsShiftAppend | main.py:184-185 | The update equals dropping the oldest reading and appending the new one. |
| History.PushAll | main.py:182-185 | The window after any number of tick updates keeps its length. |
| History.PushAllKeepsLatest | main.py:182-185 | After any sequence of readings the window is the last n entries of the old window followed by those readings. |
| History.WindowHoldsLatestReadings | main.py:178-185 | Once five or more readings have arrived, the five-slot window holds exactly the five latest, oldest first. |
| Presence.Step | main.py:200-208 | The next detection flag is set iff the reading is < 100; Stop is asked iff the reading is >= 100, whatever the prior state; Play is asked iff the reading is < 100, a detection was already under way and more than 0.5 s (strict) have passed since it started; the start time changes only when a detection begins, to `now`; a detection always has a start time. |
| Presence.EnteringDetection | main.py:200-203 | A close reading with nobody detected sets the flag, records `now` as the start time and asks for nothing. |
| Presence.Run | main.py:182-208 | Over any sequence of readings the invariant "a detection has a start time" is kept. |
| Presence.Events | main.py:182-208 | The sequence of play/stop requests of a run has one entry per reading (tick k's entry is the decision taken from the state the first k readings leave). |
| Presence.EpisodeState | main.py:200-207 | After an unbroken run of close readings that began at index j (preceded by a far reading or by start-up), a detection is under way that started at reading j's time. |
| Presence.DetectionHasEpisode | main.py:200-207 | Conversely, whenever a detection is under way it belongs to such an unbroken run of close readings, and its start time is that run's first time. |
| Presence.PlayOnlyWhenSustained | main.py:200-205 | A Play at tick k implies an earlier tick j opening an unbroken run of close readings through k with more than 0.5 s between tick j and tick k. |
| Presence.SustainedPlays | main.py:200-205 | Conversely, a close tick more than 0.5 s after the first tick of its unbroken close run (an earlier tick) always asks to play. |
| Presence.PlayIffSustained | main.py:200-207 | Both directions together: Play at tick k if and only if such an episode start j < k exists. |
| Presence.StopIff | main.py:206-208 | In any run, tick k asks to stop iff its reading is >= 100. |
| Presence.PlayRepeats | main.py:204-205 | Play is asked on every close tick, not once per detection: from any valid state, after a Play, a further close reading at a later-or-equal time asks to play again. |
| Presence.RepeatedPlayScenario | main.py:200-208 | Close readings at 0.0, 0.3, 0.6, 0.7 s and a far one at 0.8 s give NoEvent, NoEvent, Play, Play, Stop. |
| MainLoop.Init | main.py:178-180 | The initial window has five slots all above the 100 cm threshold and nobody is detected. |
| MainLoop.Tick | main.py:183-208 | The tick's distance is the sensor conversion of the measured pulse, lies in [2, 400] and is 400 on timeout; the value given to the decision equals the raw distance; the window is shifted left with the raw distance last; Stop iff the distance is >= 100; Play iff the distance is < 100, a detection was already under way and more than 0.5 s (strict) have passed since its start; the detection flag is set iff the distance is < 100; the start time becomes the tick's time exactly when a detection begins and is otherwise kept. |
| MainLoop.Run | main.py:182-208 | Any number of ticks keeps the window at five slots and the detection invariant. |
| MainLoop.Events | main.py:182-208 | The loop's sequence of play/stop requests has one entry per tick. |
| MainLoop.RunDecomposes | main.py:182-208 | The loop's state after a run is the window after pushing the converted distances together with the presence state after deciding on them. |
| MainLoop.EventsDecompose | main.py:182-208 | The loop's events are exactly the presence decision's events on the converted distances with their times. |
| MainLoop.WindowAfterRun | main.py:178-185 | After at least five ticks the window holds the five latest converted distances. |
| MainLoop.PlayIffSustainedPresence | main.py:178-208 | From start-up, tick k asks to play iff its distance is < 100 and more than 0.5 s have passed since the first tick of its unbroken run of close distances, that tick being earlier than k. |
| MainLoop.StopIffFar | main.py:183-208 | Tick k asks to stop iff its converted distance is >= 100; in particular every timed-out tick asks to stop. |

## Left out

- `_send_pulse_and_wait` (main.py:69-95): GPIO busy-waits timed by the wall clock; its result is the `Option<real>` input of each tick.
- `low_pass_filter` (main.py:137-142): a Butterworth/`filtfilt` computation in a foreign numerics library, and its only call is commented out (main.py:186).
- `play_random_song` / `stop_music` (main.py:151-173): audio playback, directory listing and random track choice; they appear only as the emitted `Play` / `Stop` events, so the "already playing" suppression inside `play_random_song` is not modelled.
- Logging (CSV file and stdout, main.py:12-29, 188-198), the root-privilege check and GPIO setup (main.py:31-41, 51-67, 120-133): I/O.
- The 100 ms sleep between ticks and the `KeyboardInterrupt` clean-up (main.py:210-216): timing and process teardown. Ticks are modelled as a sequence whose times are inputs; nothing assumes they increase except where a lemma says so.
- Floating-point rounding: distances and times are exact reals, so the comparisons at 2, 400, 100 and 0.5 are exact.
