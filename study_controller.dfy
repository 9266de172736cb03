/**
 * The study protocol: for each of four gestures (training, static, short
 * dynamic, long dynamic) the participant is shown the gesture, tries it once
 * and then repeats it ten times in an automatic expect/neutral trial loop.
 * Button presses call the `Start*` methods; the engine calls `Update` every
 * frame with the current time and `OnRecognizeEvent` for every recognised
 * gesture. UI and animator calls have no counterpart here except the colour
 * of the detection marker, which decides whether a frame is logged.
 */
module StudyProtocol {
  import opened Wrappers
  import opened Gestures

  datatype ShowingTechnique = GhostHand | ExternalHand | OverrideHand

  datatype StudyStep = Idle | ShowTechnique | FirstPerform | Repetitions

  /** A catalogue entry of the scene: a reference used by the study story and its gesture. */
  datatype Mapping = Mapping(refName: string, gesture: Gesture)

  /** One participant's configuration for one modality, as read from the story file. */
  datatype Modality = Modality(
    showTechnique: string,
    gestureTraining: string,
    gestureStatic: string,
    gestureShort: string,
    gestureLong: string)

  /** The row handed to the hand logger. */
  datatype LogRecord = LogRecord(
    participant: int,
    modality: int,
    technique: ShowingTechnique,
    time: real,
    isTraining: bool,
    step: StudyStep,
    isAnim: bool,
    repetition: int,
    showRepeats: int,
    expected: string,
    detected: string)

  const MaxRepetitions: int := 10
  /** Length of the expecting window for a static gesture, in seconds. */
  const StaticExpectWindow: real := 3.0
  /** Length of the neutral window between two trials, in seconds. */
  const NeutralWindow: real := 4.0
  /** What `Log` reports as the detected gesture when it is called from `Update`. */
  const NoDetection: string := "n/a"

  function Min(a: int, b: int): int {
    if a <= b then a else b
  }

  /** The story names the technique; an unknown name leaves the field at its default, the ghost hand. */
  function TechniqueNamed(name: string): (t: ShowingTechnique)
    ensures t == OverrideHand <==> name == "OVERRIDE"
    ensures t == ExternalHand <==> name == "EXTERNAL"
    ensures t == GhostHand <==> name != "OVERRIDE" && name != "EXTERNAL"
  {
    if name == "OVERRIDE" then OverrideHand
    else if name == "GHOST" then GhostHand
    else if name == "EXTERNAL" then ExternalHand
    else GhostHand
  }

  /** Mapping `i` is the first one whose reference is `gestureRef`. */
  predicate FirstMatch(gestureMapping: seq<Mapping>, gestureRef: string, i: int) {
    && 0 <= i < |gestureMapping|
    && gestureMapping[i].refName == gestureRef
    && forall j :: 0 <= j < i ==> gestureMapping[j].refName != gestureRef
  }

  /** The gesture of the first mapping whose reference matches, if any. */
  function Lookup(gestureMapping: seq<Mapping>, gestureRef: string): (r: Option<Gesture>)
    ensures r.None? <==> forall i :: 0 <= i < |gestureMapping| ==> gestureMapping[i].refName != gestureRef
    ensures r.Some? ==> exists i :: FirstMatch(gestureMapping, gestureRef, i) && r.value == gestureMapping[i].gesture
    decreases |gestureMapping|
  {
    if gestureMapping == [] then None
    else if gestureMapping[0].refName == gestureRef then
      assert FirstMatch(gestureMapping, gestureRef, 0);
      Some(gestureMapping[0].gesture)
    else
      var r := Lookup(gestureMapping[1..], gestureRef);
      if r.Some? then
        var i :| FirstMatch(gestureMapping[1..], gestureRef, i) && r.value == gestureMapping[1..][i].gesture;
        assert FirstMatch(gestureMapping, gestureRef, i + 1) by {
          forall j | 0 <= j < i + 1 ensures gestureMapping[j].refName != gestureRef {
            if j > 0 {
              assert gestureMapping[j] == gestureMapping[1..][j - 1];
            }
          }
        }
        r
      else
        assert forall i :: 1 <= i < |gestureMapping| ==> gestureMapping[i] == gestureMapping[1..][i - 1];
        r
  }

  /** The linear search of the scene's mappings; `None` is the source's null. */
  method FindGesture(gestureMapping: seq<Mapping>, gestureRef: string) returns (found: Option<Gesture>)
    ensures found == Lookup(gestureMapping, gestureRef)
  {
    var i := 0;
    while i < |gestureMapping|
      invariant 0 <= i <= |gestureMapping|
      invariant Lookup(gestureMapping[i..], gestureRef) == Lookup(gestureMapping, gestureRef)
    {
      assert gestureMapping[i..][1..] == gestureMapping[i + 1..];
      if gestureMapping[i].refName == gestureRef {
        return Some(gestureMapping[i].gesture);
      }
      i := i + 1;
    }
    return None;
  }

  /** The expecting window: the execution time of a dynamic gesture, 3 s otherwise (null included). */
  function ExpectWindow(g: Option<Gesture>): real {
    match g
    case Some(Dynamic(d)) => d.execTime
    case _ => StaticExpectWindow
  }

  class StudyController {
    const participantNumber: int
    const modalityNumber: int
    const showingTechnique: ShowingTechnique
    /** The four gestures of the run, in order; `None` where the lookup failed. */
    const gestures: seq<Option<Gesture>>

    var studyStep: StudyStep
    var isTraining: bool
    var isAnim: bool
    var isExpectingGesture: bool
    var currentRepetition: int
    var currentGestureIndex: int
    var showGestureRepeats: int
    var repetitionTimeout: real
    var neutralTimeout: real
    var currentExpectedGesture: Option<Gesture>
    /** The detection marker is green (otherwise red). */
    var markerGreen: bool

    /** Which gesture is selected: the one at `currentGestureIndex`, or the last once the list is exhausted. */
    ghost predicate Selection()
      reads this
    {
      && |gestures| == 4
      && 0 <= currentGestureIndex
      && (isTraining <==> currentGestureIndex <= 1)
      && currentExpectedGesture == (if currentGestureIndex == 0 then None
                                    else gestures[Min(currentGestureIndex, |gestures|) - 1])
    }

    ghost predicate Valid()
      reads this
    {
      && Selection()
      && 0 <= currentRepetition <= MaxRepetitions
      && (isExpectingGesture ==> currentRepetition < MaxRepetitions)
      && (studyStep == Idle ==> currentRepetition == 0)
      && 0 <= showGestureRepeats
    }

    /** `Update` logs during an animation, an expecting window, or a first try not yet succeeded. */
    predicate LogsThisFrame()
      reads this
    {
      isAnim || isExpectingGesture || (studyStep == FirstPerform && !markerGreen)
    }

    function LogOf(time: real, detected: string): LogRecord
      reads this
      requires currentExpectedGesture.Some?
    {
      LogRecord(participantNumber, modalityNumber, showingTechnique, time, isTraining, studyStep,
                isAnim, currentRepetition, showGestureRepeats, currentExpectedGesture.value.Name(), detected)
    }

    /**
     * Reads the participant's modality from the story, resolves its four
     * gesture references and enters IDLE with the training gesture.
     */
    constructor Start(participantNumber: int, modalityNumber: int, story: seq<seq<Modality>>, gestureMapping: seq<Mapping>)
      requires 1 <= participantNumber <= |story|
      requires 1 <= modalityNumber <= |story[participantNumber - 1]|
      ensures Valid()
      ensures var m := story[participantNumber - 1][modalityNumber - 1];
        && showingTechnique == TechniqueNamed(m.showTechnique)
        && gestures == [Lookup(gestureMapping, m.gestureTraining), Lookup(gestureMapping, m.gestureStatic),
                        Lookup(gestureMapping, m.gestureShort), Lookup(gestureMapping, m.gestureLong)]
      ensures studyStep == Idle && currentGestureIndex == 1 && isTraining
      ensures currentExpectedGesture == gestures[0]
      ensures !isAnim && !isExpectingGesture && !markerGreen
      ensures currentRepetition == 0 && showGestureRepeats == 0
      ensures repetitionTimeout == 0.0 && neutralTimeout == 0.0
    {
      this.participantNumber := participantNumber;
      this.modalityNumber := modalityNumber;
      var modality := story[participantNumber - 1][modalityNumber - 1];
      showingTechnique := TechniqueNamed(modality.showTechnique);
      var training := FindGesture(gestureMapping, modality.gestureTraining);
      var staticGesture := FindGesture(gestureMapping, modality.gestureStatic);
      var short := FindGesture(gestureMapping, modality.gestureShort);
      var long := FindGesture(gestureMapping, modality.gestureLong);
      gestures := [training, staticGesture, short, long];
      isTraining, isAnim, isExpectingGesture := true, false, false;
      currentRepetition, currentGestureIndex, showGestureRepeats := 0, 0, 0;
      repetitionTimeout, neutralTimeout := 0.0, 0.0;
      studyStep := Idle;
      currentExpectedGesture := None;
      markerGreen := false;
      new;
      var _ := StartIdle();
    }

    /**
     * Moves to the next gesture. Past the fourth one the source's list
     * indexer throws after every other field has been updated; that is
     * reported as `outOfGestures`, with the previous gesture still selected.
     */
    method StartIdle() returns (outOfGestures: bool)
      requires Selection()
      modifies this`studyStep, this`currentGestureIndex, this`currentRepetition, this`showGestureRepeats,
               this`isTraining, this`markerGreen, this`currentExpectedGesture
      ensures Valid()
      ensures studyStep == Idle && currentGestureIndex == old(currentGestureIndex) + 1
      ensures currentRepetition == 0 && showGestureRepeats == 0 && !markerGreen
      ensures isTraining == (old(isTraining) && currentGestureIndex <= 1)
      ensures outOfGestures <==> currentGestureIndex > |gestures|
      ensures !outOfGestures ==> currentExpectedGesture == gestures[currentGestureIndex - 1]
      ensures outOfGestures ==> currentExpectedGesture == old(currentExpectedGesture)
    {
      studyStep := Idle;
      currentGestureIndex := currentGestureIndex + 1;
      currentRepetition := 0;
      showGestureRepeats := 0;
      if currentGestureIndex > 1 {
        isTraining := false;
      }
      markerGreen := false;
      outOfGestures := currentGestureIndex - 1 >= |gestures|;
      if !outOfGestures {
        currentExpectedGesture := gestures[currentGestureIndex - 1];
      }
    }

    /** Shows the demonstration; plays the animation named after the expected gesture. */
    method StartShowTechnique()
      requires Valid() && currentExpectedGesture.Some?
      modifies this`studyStep, this`isAnim, this`showGestureRepeats
      ensures Valid()
      ensures studyStep == ShowTechnique && isAnim
      ensures showGestureRepeats == old(showGestureRepeats) + 1
    {
      studyStep := ShowTechnique;
      isAnim := true;
      showGestureRepeats := showGestureRepeats + 1;
    }

    method StartFirstPerform()
      requires Valid()
      modifies this`studyStep, this`isAnim
      ensures Valid()
      ensures studyStep == FirstPerform && !isAnim
    {
      studyStep := FirstPerform;
      isAnim := false;
    }

    /** Starts the trial loop with a neutral window; the repetition counter is left as it is. */
    method StartRepetitions(now: real)
      requires Valid()
      modifies this`studyStep, this`isAnim, this`isExpectingGesture, this`markerGreen, this`neutralTimeout
      ensures Valid()
      ensures studyStep == Repetitions && !isAnim
      ensures !isExpectingGesture && !markerGreen && neutralTimeout == now + NeutralWindow
    {
      studyStep := Repetitions;
      isAnim := false;
      OnGestureEnd(false, now);
    }

    /** Closes an expecting window and opens the neutral one. */
    method OnGestureEnd(isGestureRecognized: bool, now: real)
      modifies this`isExpectingGesture, this`markerGreen, this`neutralTimeout
      ensures !isExpectingGesture && markerGreen == isGestureRecognized
      ensures neutralTimeout == now + NeutralWindow
    {
      isExpectingGesture := false;
      markerGreen := isGestureRecognized;
      neutralTimeout := now + NeutralWindow;
    }

    /** Closes the neutral window and opens an expecting one. */
    method OnNeutralEnd(now: real)
      modifies this`isExpectingGesture, this`markerGreen, this`repetitionTimeout
      ensures isExpectingGesture && !markerGreen
      ensures repetitionTimeout == now + ExpectWindow(currentExpectedGesture)
      ensures currentExpectedGesture.Some? && currentExpectedGesture.value.Dynamic? ==>
        repetitionTimeout == now + currentExpectedGesture.value.dynamicGesture.execTime
      ensures !(currentExpectedGesture.Some? && currentExpectedGesture.value.Dynamic?) ==>
        repetitionTimeout == now + 3.0
    {
      isExpectingGesture := true;
      markerGreen := false;
      match currentExpectedGesture {
        case Some(Dynamic(d)) =>
          repetitionTimeout := now + d.execTime;
        case _ =>
          repetitionTimeout := now + StaticExpectWindow;
      }
    }

    /**
     * One frame. Logs first (from the state before the frame); then, in
     * REPETITIONS only, an expired expecting window counts as a failed
     * repetition, an expired neutral window opens the next expecting one,
     * and the tenth repetition moves on to the next gesture.
     */
    method Update(now: real) returns (logged: Option<LogRecord>, outOfGestures: bool)
      requires Valid()
      requires LogsThisFrame() ==> currentExpectedGesture.Some?
      modifies this`currentRepetition, this`isExpectingGesture, this`markerGreen, this`neutralTimeout,
               this`repetitionTimeout, this`studyStep, this`currentGestureIndex, this`showGestureRepeats,
               this`isTraining, this`currentExpectedGesture
      ensures Valid()
      ensures logged == if old(LogsThisFrame()) then Some(old(LogOf(now, NoDetection))) else None
      ensures old(studyStep) != Repetitions ==> unchanged(this) && !outOfGestures
      ensures old(studyStep) == Repetitions ==>
        var timedOut := old(isExpectingGesture) && now > old(repetitionTimeout);
        var rested := !old(isExpectingGesture) && now > old(neutralTimeout);
        var reps := old(currentRepetition) + if timedOut then 1 else 0;
        && isExpectingGesture == (if timedOut then false else if rested then true else old(isExpectingGesture))
        && neutralTimeout == (if timedOut then now + NeutralWindow else old(neutralTimeout))
        && repetitionTimeout == (if rested then now + ExpectWindow(old(currentExpectedGesture)) else old(repetitionTimeout))
        && markerGreen == (old(markerGreen) && !timedOut && !rested && reps < MaxRepetitions)
        && (reps < MaxRepetitions ==>
              && studyStep == Repetitions && currentRepetition == reps && !outOfGestures
              && currentGestureIndex == old(currentGestureIndex)
              && currentExpectedGesture == old(currentExpectedGesture)
              && showGestureRepeats == old(showGestureRepeats) && isTraining == old(isTraining))
        && (reps >= MaxRepetitions ==>
              && studyStep == Idle && currentRepetition == 0 && showGestureRepeats == 0
              && currentGestureIndex == old(currentGestureIndex) + 1
              && (outOfGestures <==> currentGestureIndex > |gestures|)
              && (!outOfGestures ==> currentExpectedGesture == gestures[currentGestureIndex - 1]))
    {
      logged := if LogsThisFrame() then Some(LogOf(now, NoDetection)) else None;
      outOfGestures := false;
      if studyStep == Repetitions {
        if isExpectingGesture && now > repetitionTimeout {
          currentRepetition := currentRepetition + 1;
          OnGestureEnd(false, now);
        }
        if !isExpectingGesture && now > neutralTimeout {
          OnNeutralEnd(now);
        }
        if currentRepetition >= MaxRepetitions {
          outOfGestures := StartIdle();
        }
      }
    }

    /**
     * A gesture was recognised. IDLE ignores it; SHOW_TECHNIQUE only logs it;
     * FIRST_PERFORM logs it and turns the marker green on a match;
     * REPETITIONS, inside an expecting window, logs it and on a match counts
     * a successful repetition and opens the neutral window.
     */
    method OnRecognizeEvent(detectedGesture: Gesture, now: real) returns (logged: Option<LogRecord>)
      requires Valid()
      requires studyStep in {ShowTechnique, FirstPerform} || (studyStep == Repetitions && isExpectingGesture)
               ==> currentExpectedGesture.Some?
      modifies this`markerGreen, this`currentRepetition, this`isExpectingGesture, this`neutralTimeout
      ensures Valid()
      ensures old(studyStep) == Idle ==> unchanged(this) && logged == None
      ensures old(studyStep) == ShowTechnique ==>
        unchanged(this) && logged == Some(old(LogOf(now, detectedGesture.Name())))
      ensures old(studyStep) == FirstPerform ==>
        && logged == Some(old(LogOf(now, detectedGesture.Name())))
        && markerGreen == (old(markerGreen) || detectedGesture.Name() == old(currentExpectedGesture).value.Name())
        && currentRepetition == old(currentRepetition) && isExpectingGesture == old(isExpectingGesture)
        && neutralTimeout == old(neutralTimeout)
      ensures old(studyStep) == Repetitions && !old(isExpectingGesture) ==> unchanged(this) && logged == None
      ensures old(studyStep) == Repetitions && old(isExpectingGesture) ==>
        && logged == Some(old(LogOf(now, detectedGesture.Name())))
        && (detectedGesture.Name() == old(currentExpectedGesture).value.Name() ==>
              && currentRepetition == old(currentRepetition) + 1
              && !isExpectingGesture && markerGreen && neutralTimeout == now + NeutralWindow)
        && (detectedGesture.Name() != old(currentExpectedGesture).value.Name() ==> unchanged(this))
    {
      logged := None;
      match studyStep {
        case Idle =>
        case ShowTechnique =>
          logged := Some(LogOf(now, detectedGesture.Name()));
        case FirstPerform =>
          logged := Some(LogOf(now, detectedGesture.Name()));
          if detectedGesture.Name() == currentExpectedGesture.value.Name() {
            markerGreen := true;
          }
        case Repetitions =>
          if isExpectingGesture {
            logged := Some(LogOf(now, detectedGesture.Name()));
            if detectedGesture.Name() == currentExpectedGesture.value.Name() {
              currentRepetition := currentRepetition + 1;
              OnGestureEnd(true, now);
            }
          }
      }
    }
  }

  /**
   * A window closed by the expected gesture is counted once: the frame that
   * follows, whenever it comes, does not count it again as a timeout.
   */
  method RecognizedWindowCountsOnce(study: StudyController, detectedGesture: Gesture, t1: real, t2: real)
      returns (outOfGestures: bool)
    requires study.Valid() && study.studyStep == Repetitions && study.isExpectingGesture
    requires study.currentExpectedGesture.Some?
    requires detectedGesture.Name() == study.currentExpectedGesture.value.Name()
    modifies study
    ensures old(study.currentRepetition) + 1 < MaxRepetitions ==>
      study.studyStep == Repetitions && study.currentRepetition == old(study.currentRepetition) + 1
    ensures old(study.currentRepetition) + 1 == MaxRepetitions ==>
      study.studyStep == Idle && study.currentGestureIndex == old(study.currentGestureIndex) + 1
  {
    var _ := study.OnRecognizeEvent(detectedGesture, t1);
    var _, out := study.Update(t2);
    outOfGestures := out;
  }
}
