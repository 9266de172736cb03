# Hand-gesture study: a verified model of its control logic

This project models, in Dafny, the control logic of a Unity application used
for a hand-gesture learning study. The application shows a participant a
gesture and then records whether the participant can perform it. It has four
parts:

- **Dynamic gesture detection** (`DynamicGestureDetector`). Recognised static
  poses arrive one at a time. Each dynamic gesture is an ordered list of
  keyframes, and the detector keeps two tables keyed by dynamic gesture: a
  running timer, and the index of the keyframe reached (-1 means inactive).
  The detector announces a dynamic gesture when its whole keyframe sequence
  has been seen. The per-frame timer pass drops timers that ran past the
  gesture's execution time.
- **The study protocol** (`StudyController`). It walks through four gestures:
  training, static, short dynamic and long dynamic. For each one it goes
  IDLE → SHOW_TECHNIQUE → FIRST_PERFORM → REPETITIONS.
  - Buttons drive the steps.
  - In REPETITIONS an automatic trial loop alternates an expecting window and
    a 4 s neutral window. The expecting window lasts 3 s for a static
    gesture, or the gesture's execution time for a dynamic one.
  - After ten trials the protocol returns to IDLE with the next gesture.
- **The free-play demo** (`DemoController`). It handles mode and technique
  switching. A correct static detection is accepted at most once every 2 s.
  With the override hand, a 0.2 s blend brings the main hand back to its
  tracked pose, and recognitions are ignored during the blend.
- **The story timer** (`StoryController`). The hand is tracked for 10 s and
  animated until 20 s, then the cycle starts over. Each change is announced,
  and the animator runs exactly while the hand is animated.

Time is a `real` passed in as `now` (the engine's `Time.time`) or `dt` (its
`Time.deltaTime`). Gestures are values: `Static(name)` or
`Dynamic(name, orderedKeyFrames, execTime)`. They are matched by name
everywhere, as in the source.

The modules are:

- `Wrappers`: `Option`.
- `Gestures`: the gesture datatypes.
- `DynamicGestureDetection`: the reference functions `Step`, `Advance`,
  `Recognize` and `Tick`, and the class that performs them in place.
- `DynamicGestureProperties`: what the detector guarantees.
- `StudyProtocol`, `DemoProtocol` and `StoryProtocol`: one class each, with
  their reference functions and lemmas.

Points where the behaviour of the code is easy to misread:

- Expiry removes only the timer and keeps the keyframe reached, so a late
  continuation still completes the gesture
  (Assets/Scripts/DynamicGestureDetector.cs:43-46;
  `ExpiredSequenceStillCompletes`).
- A gesture with a single keyframe makes the next different pose read past
  its keyframe list (Assets/Scripts/DynamicGestureDetector.cs:67-69;
  `SingleKeyFrameOverruns`).
- FIRST_PERFORM opens no timed window: a match only turns the marker green,
  and it stops the per-frame logging (Assets/Scripts/StudyController.cs:151-156,
  301-307; `StudyController.OnRecognizeEvent`, `StudyController.Update`).
- `StartRepetitions` does not reset the repetition counter; only `StartIdle`
  does (Assets/Scripts/StudyController.cs:221-226, 280-290).
- The blend runs while `now <= start + 0.2` and ends on the first frame past
  it (Assets/Scripts/DemoController.cs:110-116; `DemoController.LateUpdate`).
  Its progression lies in [0, 1] when time does not run backwards
  (`Progression`).
- A correct static detection is accepted only strictly more than 2 s after
  the last accepted one (Assets/Scripts/DemoController.cs:224-234; `Judge`).
- The debounce and the suppression of recognitions during the blend exist
  only in the demo controller; the study controller has neither.
- An unknown gesture reference yields null, and the run goes on
  (Assets/Scripts/StudyController.cs:325-341). `Lookup`/`FindGesture` return
  `None`. The operations that dereference the expected gesture require it to
  be present, which is where the source would throw.

## Model

| member | source | states |
|---|---|---|
| DynamicGestureDetection.DynamicGestureDetector.constructor | Assets/Scripts/DynamicGestureDetector.cs:16-25 | every listed dynamic gesture gets progress -1 and no running timer; the progress table has exactly the listed gestures as keys |
| DynamicGestureDetection.DynamicGestureDetector.Update | Assets/Scripts/DynamicGestureDetector.cs:28-52 | after the collect/remove/advance passes, the timers are exactly `Tick` of the old ones: timers past `execTime` are removed, every other one advances by `dt`; no key is added and the progress table is outside the frame |
| DynamicGestureDetection.DynamicGestureDetector.KeyFrameRecognized | Assets/Scripts/DynamicGestureDetector.cs:54-89 | the loop leaves both tables, and the list of announced gestures, as the left-to-right fold `Recognize` over the definitions computes them; `threw` exactly when that fold meets an out-of-range keyframe index |
| DynamicGestureDetection.DynamicGestureDetector.ReactTo | Assets/Scripts/DynamicGestureDetector.cs:59-85 | one definition's turn: restart on the first keyframe, advance on the expected next one, announce and reset on the last one, ignore anything else, or report the out-of-range read |
| DynamicGestureDetection.Step | Assets/Scripts/DynamicGestureDetector.cs:59-85 | one definition's reaction to a pose: the keyframe list is read out of range exactly when it is empty, or when the pose is not the first keyframe and the next index is outside the list; a completion happens only on the last keyframe and resets the entry; any new progress names the keyframe just performed; a timer is only started by the first keyframe and only dropped by a completion |
| DynamicGestureDetection.Advance | Assets/Scripts/DynamicGestureDetector.cs:56-88 | one definition's turn in the loop: it stops the loop exactly when `Step` reads out of range, leaving the tables as they were; otherwise it writes `Step`'s entry for that definition, changes no other definition, and appends the definition to the announcements exactly when `Step` completes it |
| DynamicGestureDetection.Tick | Assets/Scripts/DynamicGestureDetector.cs:32-50 | one frame of the timer pass: a timer is kept exactly when its value was within `execTime`, and a kept timer grows by `dt` |
| DynamicGestureDetection.Put | Assets/Scripts/DynamicGestureDetector.cs:61-63 | writing one definition's timer and progress changes that definition's entry and nothing else in the two tables |
| DynamicGestureDetection.Recognize | Assets/Scripts/DynamicGestureDetector.cs:56-88 | a pass over the definitions never adds or removes a progress key |
| DynamicGestureDetection.RecognizeUnfold | Assets/Scripts/DynamicGestureDetector.cs:56-88 | the remaining loop from index i is one definition's turn followed by the loop from i+1 |
| DynamicGestureProperties.RecognizeLeavesOthers | Assets/Scripts/DynamicGestureDetector.cs:56-88 | a pass over definitions that do not include x leaves x's timer and progress unchanged |
| DynamicGestureProperties.RecognizePerDefinition | Assets/Scripts/DynamicGestureDetector.cs:56-88 | with a duplicate-free list and no out-of-range read, each definition ends exactly where its own step from its own entry takes it, independently of the others |
| DynamicGestureProperties.RecognizeFires | Assets/Scripts/DynamicGestureDetector.cs:71-79 | `onRecognized` is invoked, in list order, for exactly the definitions the event completes, each judged on its own entry |
| DynamicGestureProperties.AdvanceFires | Assets/Scripts/DynamicGestureDetector.cs:71-79 | the first definition's turn adds its own announcement and leaves every other definition's entry as it was |
| DynamicGestureProperties.FiredByLocal | Assets/Scripts/DynamicGestureDetector.cs:56-88 | which definitions an event completes depends only on those definitions' own entries |
| DynamicGestureProperties.FiredByCount | Assets/Scripts/DynamicGestureDetector.cs:71-74 | a listed definition is announced once if the event completes it and not at all otherwise |
| DynamicGestureProperties.FiredByAbsent | Assets/Scripts/DynamicGestureDetector.cs:56-74 | a gesture that is not listed is never announced |
| DynamicGestureProperties.RestartOnFirstKeyFrame | Assets/Scripts/DynamicGestureDetector.cs:59-64 | the first keyframe sets the definition's timer to 0 and its progress to 0, whatever its prior progress |
| DynamicGestureProperties.AdvanceOnNextKeyFrame | Assets/Scripts/DynamicGestureDetector.cs:67-69 | the expected next keyframe, when not the last, raises the progress by one and leaves the timer exactly as it was |
| DynamicGestureProperties.CompleteOnLastKeyFrame | Assets/Scripts/DynamicGestureDetector.cs:71-79 | the last keyframe announces the definition exactly once more, removes its timer and sets its progress back to -1 |
| DynamicGestureProperties.IgnoreOtherKeyFrames | Assets/Scripts/DynamicGestureDetector.cs:59-69 | a pose that is neither the first nor the expected next keyframe changes nothing for that definition and announces nothing for it |
| DynamicGestureProperties.RecognizeKeepsRange | Assets/Scripts/DynamicGestureDetector.cs:67-71 | when every definition has at least two keyframes, no event reads past the keyframe list and -1 <= progress <= Count-2 is kept |
| DynamicGestureProperties.SingleKeyFrameOverruns | Assets/Scripts/DynamicGestureDetector.cs:67-71 | a one-keyframe definition is never announced, and once its keyframe is seen any other pose reads index 1, past the list |
| DynamicGestureProperties.SingleKeyFrameScenario | Assets/Scripts/DynamicGestureDetector.cs:59-69 | a detector with one single-keyframe gesture accepts its keyframe and then fails on the next different pose |
| DynamicGestureProperties.FeedRemainingKeyFrames | Assets/Scripts/DynamicGestureDetector.cs:65-85 | from keyframe i-1 reached, performing the remaining keyframes in order announces the definition once and leaves it inactive |
| DynamicGestureProperties.FullSequenceRecognizedOnce | Assets/Scripts/DynamicGestureDetector.cs:56-88 | for one definition fed its own keyframes in order, from any prior progress: exactly one completion, and the definition ends inactive, provided the first keyframe does not recur |
| DynamicGestureProperties.RecognizeAll | Assets/Scripts/DynamicGestureDetector.cs:54-89 | successive passes over a stream of poses never add or remove a progress key |
| DynamicGestureProperties.RecognizeAllUnfold | Assets/Scripts/DynamicGestureDetector.cs:54-89 | the stream from pose i is one pass followed by the stream from pose i+1, unless that pass throws |
| DynamicGestureProperties.RecognizeFiredShift | Assets/Scripts/DynamicGestureDetector.cs:71-74 | what a pass does to the tables does not depend on earlier announcements; it only appends its own |
| DynamicGestureProperties.FeedAgrees | Assets/Scripts/DynamicGestureDetector.cs:54-89 | over any stream on which no pass throws, each definition of a duplicate-free list ends where feeding it the stream alone takes it, and is announced exactly as many times as that feeding completes it |
| DynamicGestureProperties.RecognizeAllCompletes | Assets/Scripts/DynamicGestureDetector.cs:67-71 | with at least two keyframes per definition and progress in range, no stream of poses makes a pass throw, and progress stays in range |
| DynamicGestureProperties.DetectorRecognizesSequenceOnce | Assets/Scripts/DynamicGestureDetector.cs:54-89 | across the whole detector, performing a definition's keyframes in order, from any progress in range, announces it exactly once and leaves it with no timer and progress -1, provided its first keyframe does not recur |
| DynamicGestureProperties.PerformPoses | Assets/Scripts/DynamicGestureDetector.cs:54-89 | calling `KeyFrameRecognized` once per pose leaves the detector's tables and the collected announcements as successive passes compute them, and stops exactly when a pass throws |
| DynamicGestureProperties.FreshDetectorRecognizesSequence | Assets/Scripts/DynamicGestureDetector.cs:16-25 | a freshly started detector fed a well-formed definition's keyframes in order, one call at a time, does not throw, announces that definition exactly once, and leaves it inactive |
| DynamicGestureProperties.RecurringFirstKeyFrameScenario | Assets/Scripts/DynamicGestureDetector.cs:59-64 | a sequence whose first keyframe recurs is restarted by the recurrence and is never announced |
| DynamicGestureProperties.TickAllAddsNoKeys | Assets/Scripts/DynamicGestureDetector.cs:28-52 | no number of frames adds a timer |
| DynamicGestureProperties.TimerLifetime | Assets/Scripts/DynamicGestureDetector.cs:32-50 | a timer survives a run of frames exactly while its value before each frame is within `execTime`, and then equals its start value plus every frame time since |
| DynamicGestureProperties.ExpiredSequenceStillCompletes | Assets/Scripts/DynamicGestureDetector.cs:43-46 | expiry drops only the timer: g2 at t=0, frames of 2.5 s and 0.1 s (the timer expires), then g4 still announces g3 and resets it |
| StudyProtocol.TechniqueNamed | Assets/Scripts/StudyController.cs:117-134 | "OVERRIDE" selects the override hand, "EXTERNAL" the external hand, and any other name leaves the default, the ghost hand |
| StudyProtocol.Lookup | Assets/Scripts/StudyController.cs:325-341 | no gesture exactly when no mapping has the reference; otherwise the gesture of the first mapping that has it |
| StudyProtocol.FindGesture | Assets/Scripts/StudyController.cs:325-341 | the search loop returns what `Lookup` specifies |
| StudyProtocol.StudyController.constructor | Assets/Scripts/StudyController.cs:90-143 | reads the participant's modality, resolves its four gesture references in order and enters IDLE with the training gesture selected, training on, counters at zero |
| StudyProtocol.StudyController.StartIdle | Assets/Scripts/StudyController.cs:221-246 | step IDLE, gesture index up by exactly one, repetitions and show count zeroed, marker red, training on only while the index is at most 1; selects `gestures[index-1]`, or reports running past the fourth gesture |
| StudyProtocol.StudyController.StartShowTechnique | Assets/Scripts/StudyController.cs:248-263 | step SHOW_TECHNIQUE, animation on, show count up by one |
| StudyProtocol.StudyController.StartFirstPerform | Assets/Scripts/StudyController.cs:265-278 | step FIRST_PERFORM, animation off |
| StudyProtocol.StudyController.StartRepetitions | Assets/Scripts/StudyController.cs:280-290 | step REPETITIONS, animation off, a neutral window of 4 s opened and the marker red |
| StudyProtocol.StudyController.OnGestureEnd | Assets/Scripts/StudyController.cs:178-195 | closes the expecting window, sets the marker to the outcome, and sets the neutral deadline to now+4 |
| StudyProtocol.StudyController.OnNeutralEnd | Assets/Scripts/StudyController.cs:197-212 | opens the expecting window with the marker red and the deadline now+execTime for a dynamic gesture, now+3 otherwise |
| StudyProtocol.StudyController.Update | Assets/Scripts/StudyController.cs:145-176 | logs exactly when animating, expecting or not yet successful in FIRST_PERFORM; outside REPETITIONS nothing changes; inside it a timed-out window counts one repetition and opens the neutral window, an expired neutral window opens an expecting one, and reaching 10 returns to IDLE with the next gesture; the counter stays within 0..10 |
| StudyProtocol.StudyController.OnRecognizeEvent | Assets/Scripts/StudyController.cs:292-323 | IDLE: nothing; SHOW_TECHNIQUE: only logs; FIRST_PERFORM: logs and turns the marker green on a name match; REPETITIONS: nothing outside a window, and inside one logs, and on a match counts one repetition and opens the neutral window |
| StudyProtocol.RecognizedWindowCountsOnce | Assets/Scripts/StudyController.cs:158-175 | a window ended by the expected gesture is not counted again by the next frame's timeout check; the tenth such window returns to IDLE with the next gesture |
| DemoProtocol.Judge | Assets/Scripts/DemoController.cs:212-241 | a detection is accepted exactly when no blend is running, the name matches, and, for a static expected gesture, now is strictly past the debounce timestamp; an accepted static detection pushes the timestamp to now+2, and nothing else moves it |
| DemoProtocol.Progression | Assets/Scripts/DemoController.cs:110-116 | within the blend window, with time not running backwards, the progression lies in [0, 1] |
| DemoProtocol.DemoController.constructor | Assets/Scripts/DemoController.cs:46-56 | starts with the override hand, the default gesture selected and announced, IDLE, no blend and debounce timestamp -1 |
| DemoProtocol.DemoController.Update | Assets/Scripts/DemoController.cs:58-72 | the animation named after the expected gesture is played exactly when showing the technique and the next play time has passed |
| DemoProtocol.DemoController.ScheduleNextPlay | Assets/Scripts/DemoController.cs:249-250 | the next play waits for the clip length plus 3.5 s |
| DemoProtocol.DemoController.PrepareLerp | Assets/Scripts/DemoController.cs:255-258 | a blend is requested only while the override hand shows the technique |
| DemoProtocol.DemoController.ResetMarker | Assets/Scripts/DemoController.cs:267-271 | the marker turns red again |
| DemoProtocol.DemoController.SwitchTechnique | Assets/Scripts/DemoController.cs:131-152 | selects the technique and always leaves the controller in IDLE with both blend flags cleared and the debounce reset |
| DemoProtocol.DemoController.SwitchGesture | Assets/Scripts/DemoController.cs:154-171 | selects the gesture, announces its key frames (itself if static, its ordered keyframes if dynamic) and always leaves the controller in IDLE |
| DemoProtocol.DemoController.SwitchMode | Assets/Scripts/DemoController.cs:173-208 | every mode turns the marker red; IDLE clears both blend flags and resets the debounce to -1; SHOW_TECHNIQUE plays from now on; TRAIN clears both blend flags; a blend is never pending or running outside SHOW_TECHNIQUE with the override hand |
| DemoProtocol.DemoController.OnRecognizeEvent | Assets/Scripts/DemoController.cs:212-241 | acceptance, the new debounce timestamp and the marker follow `Judge`; while blending nothing changes |
| DemoProtocol.DemoController.LateUpdate | Assets/Scripts/DemoController.cs:76-129 | a pending request captures both skeletons and starts the blend clock at now; a running blend ends once now is past start+0.2, and otherwise sets every main-hand bone to the blend of its captured start and end poses at a progression within [0, 1] |
| DemoProtocol.AcceptedStaticDetectionsApart | Assets/Scripts/DemoController.cs:224-234 | two accepted detections of a static gesture, with no reset between them, are more than 2 s apart |
| DemoProtocol.DebounceOnlyForStaticMatches | Assets/Scripts/DemoController.cs:224 | a dynamic or non-matching detection neither reads nor writes the debounce timestamp |
| DemoProtocol.FirstDetectionAfterIdle | Assets/Scripts/DemoController.cs:182-187 | after entering IDLE, the first correct detection is accepted and turns the marker green |
| DemoProtocol.SuccessiveStaticDetections | Assets/Scripts/DemoController.cs:224-234 | on the controller, two successive recognitions of a static gesture that are both accepted are more than 2 s apart |
| StoryProtocol.Tick | Assets/Scripts/StoryController.cs:30-47 | ANIM is announced exactly when tracking past 10 s; TRACKING exactly when past 20 s (so both in one frame when tracking past 20 s); the count is reset before adding the frame time exactly when TRACKING is announced |
| StoryProtocol.TickAnnounces | Assets/Scripts/StoryController.cs:34-43 | every announced state is a change, and the last one is the state reached |
| StoryProtocol.AnnouncesConcat | Assets/Scripts/StoryController.cs:34-43 | announcement sequences of consecutive frames join into one |
| StoryProtocol.RunAnnounces | Assets/Scripts/StoryController.cs:30-47 | over any number of frames, listeners hear alternating states ending in the state reached, and nothing if the state did not change |
| StoryProtocol.TickSound | Assets/Scripts/StoryController.cs:30-47 | with non-negative frame times the count stays non-negative and the hand is animated only after 10 s |
| StoryProtocol.RunSound | Assets/Scripts/StoryController.cs:23-47 | the same holds over any number of frames |
| StoryProtocol.BothChangesInOneFrame | Assets/Scripts/StoryController.cs:34-43 | a frame that starts tracking past 20 s announces ANIM then TRACKING and ends tracking with the count equal to the frame time |
| StoryProtocol.StoryController.constructor | Assets/Scripts/StoryController.cs:23-27 | starts tracking with a count of 0 |
| StoryProtocol.StoryController.Update | Assets/Scripts/StoryController.cs:30-47 | state, count and announced states are those of `Tick`, and afterwards the animator runs exactly while the hand is animated |
| StoryProtocol.StoryController.ControlState | Assets/Scripts/StoryController.cs:49-56 | the animator is enabled exactly when the state is ANIM |

## Left out

- Dictionary keys: the source keys its two tables by object reference. The model keys them by gesture value, so two distinct assets with identical fields would share one entry.
- A dynamic gesture that is not listed has no progress entry, so the source's dictionary read at Assets/Scripts/DynamicGestureDetector.cs:67 would throw. The model requires every listed gesture to be tracked, which `Start` guarantees.
- `DebugDynamicGesture`, `Debug.Log`, UI text, button and renderer changes, and animator and hand activation calls are left out. The detection marker's colour is kept, because the study's logging depends on it.
- Log rows are returned as `LogRecord` values. `HandLogger` and `MainDataLogger` (CSV writing) are not part of this model.
- `JsonLoader` (reading the study story file) is not part of this model. The story is a parameter, and the participant and modality numbers are required to index it.
- The `Application.Quit` on unset participant or modality numbers is modelled as the same precondition.
- Null gestures: the model requires the expected gesture to be present where the source would dereference null. This applies to logging, `StartShowTechnique` and comparisons in `OnRecognizeEvent`.
- Coroutines in the demo controller: their waits are not modelled. Their effects are separate methods that the caller invokes at the right time (`ScheduleNextPlay`, `PrepareLerp`, `ResetMarker`). Hiding the shown hand after the clip is UI and is left out.
- `Vector3.Lerp`/`Quaternion.Lerp` are floating-point engine calls. The interpolation is the `blend` parameter of `LateUpdate`. Bone poses are captured and written as values; skeleton transforms are an array.
- `StoryController.getHandState` is a plain getter of `state`.
- `handStateEvent`, `stateChanged`, `gestureChanged` and `onRecognized` listeners are not modelled. The events are returned (or stored) as values.
- Static pose matching through `fingerDatas` and `threshold` is not implemented in the modelled files.
- Float arithmetic is modelled as exact `real` arithmetic.
- The ordering of timer checks against recognition events within one frame is left to the caller.
- The source enables and disables its buttons by step (Assets/Scripts/StudyController.cs:233-235, 254, 285-286). The model allows every `Start*` method in any step, which is more than those buttons allow, so each invariant it proves holds for every call order the source allows.
- Recording, offset, cube and selection-collider scripts are not part of this model.
