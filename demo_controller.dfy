/**
 * The free-play demo: the user picks a showing technique, a gesture and a
 * mode (IDLE, SHOW_TECHNIQUE, TRAIN). In SHOW_TECHNIQUE the gesture's
 * animation is replayed with a pause between plays; with the override hand
 * the main hand is then blended back to its tracked pose for 0.2 s, during
 * which recognitions are ignored. A correct static detection is accepted at
 * most once every 2 s.
 */
module DemoProtocol {
  import opened Wrappers
  import opened Gestures
  import StudyProtocol

  type ShowingTechnique = StudyProtocol.ShowingTechnique

  datatype DemoMode = Idle | ShowTechnique | Train

  datatype Vec3 = Vec3(x: real, y: real, z: real)
  datatype Quat = Quat(x: real, y: real, z: real, w: real)
  /** A bone's local position and rotation. */
  datatype BonePose = BonePose(position: Vec3, rotation: Quat)

  /** Pause between two plays of the animation, in seconds. */
  const DelayBetweenAnimations: real := 3.5
  /** Shortest time between two accepted static detections, in seconds. */
  const DelayBetweenStaticDetection: real := 2.0
  /** Length of the blend back to the tracked hand, in seconds. */
  const LerpDurationAfterShow: real := 0.2

  /** What a recognised gesture does: whether it is accepted (the marker turns green) and the new debounce timestamp. */
  datatype Verdict = Verdict(accepted: bool, nextStaticDetection: real)

  /**
   * Recognitions are dropped while blending; a correct static detection is
   * accepted only strictly after the debounce timestamp, which it pushes 2 s
   * ahead; a correct dynamic detection is always accepted.
   */
  function Judge(expected: Gesture, detected: Gesture, isLerping: bool, nextStaticDetection: real, now: real): (v: Verdict)
    ensures v.accepted <==>
      && !isLerping
      && detected.Name() == expected.Name()
      && (expected.Static? ==> now > nextStaticDetection)
    ensures v.accepted && expected.Static? ==> v.nextStaticDetection == now + DelayBetweenStaticDetection
    ensures !(v.accepted && expected.Static?) ==> v.nextStaticDetection == nextStaticDetection
  {
    if isLerping then Verdict(false, nextStaticDetection)
    else if detected.Name() == expected.Name() && expected.Static? then
      if now > nextStaticDetection then Verdict(true, now + DelayBetweenStaticDetection)
      else Verdict(false, nextStaticDetection)
    else Verdict(detected.Name() == expected.Name(), nextStaticDetection)
  }

  /** How far the blend has progressed; within the blend window it lies in [0, 1]. */
  function Progression(lerpStartTime: real, now: real): (t: real)
    ensures lerpStartTime <= now ==> 0.0 <= t
    ensures now <= lerpStartTime + LerpDurationAfterShow ==> t <= 1.0
  {
    (now - lerpStartTime) / LerpDurationAfterShow
  }

  /** The key frames announced to the static detector when a gesture is selected. */
  function KeyFramesOf(g: Gesture): seq<StaticGesture> {
    match g
    case Static(s) => [s]
    case Dynamic(d) => d.orderedKeyFrames
  }

  class DemoController {
    var currentMode: DemoMode
    var currentTechnique: ShowingTechnique
    var currentExpectedGesture: Gesture
    var isPreparingLerp: bool
    var isLerping: bool
    var nextStaticGestureDetectionTimestamp: real
    var nextAnimPlayTimestamp: real
    var lerpStartTime: real
    var lerpStart: seq<BonePose>
    var lerpEnd: seq<BonePose>
    /** The detection marker is green (otherwise red). */
    var markerGreen: bool
    /** The key frames last sent to the static detector through `gestureChanged`. */
    var announcedKeyFrames: seq<StaticGesture>

    /** A blend is only ever pending or running while the override hand shows the technique. */
    ghost predicate Valid()
      reads this
    {
      (isPreparingLerp || isLerping) ==> currentMode == ShowTechnique && currentTechnique == StudyProtocol.OverrideHand
    }

    /** Selects the override hand and the default gesture. */
    constructor Start(defaultGesture: Gesture)
      ensures Valid()
      ensures currentMode == Idle && currentTechnique == StudyProtocol.OverrideHand && currentExpectedGesture == defaultGesture
      ensures !isPreparingLerp && !isLerping && !markerGreen
      ensures nextStaticGestureDetectionTimestamp == -1.0 && nextAnimPlayTimestamp == 0.0
      ensures announcedKeyFrames == KeyFramesOf(defaultGesture)
    {
      currentMode, currentTechnique := Idle, StudyProtocol.GhostHand;
      currentExpectedGesture := defaultGesture;
      isPreparingLerp, isLerping := false, false;
      nextStaticGestureDetectionTimestamp := -1.0;
      nextAnimPlayTimestamp := 0.0;
      lerpStartTime := 0.0;
      lerpStart, lerpEnd := [], [];
      markerGreen := false;
      announcedKeyFrames := [];
      new;
      SwitchTechnique(StudyProtocol.OverrideHand);
      SwitchGesture(defaultGesture);
    }

    /** Starts playing the animation when showing the technique and the pause is over. */
    method Update(now: real) returns (play: Option<string>)
      ensures play.Some? <==> currentMode == ShowTechnique && nextAnimPlayTimestamp < now
      ensures play.Some? ==> play.value == currentExpectedGesture.Name()
    {
      if currentMode == ShowTechnique && nextAnimPlayTimestamp < now {
        play := Some(currentExpectedGesture.Name());
      } else {
        play := None;
      }
    }

    /** At the end of the frame in which a play started: the next play waits for the clip and the pause. */
    method ScheduleNextPlay(now: real, clipLength: real)
      modifies this`nextAnimPlayTimestamp
      ensures nextAnimPlayTimestamp == now + clipLength + DelayBetweenAnimations
    {
      nextAnimPlayTimestamp := now + clipLength + DelayBetweenAnimations;
    }

    /** Just before the clip ends: ask for a blend back to tracking, if the override hand is showing. */
    method PrepareLerp()
      requires Valid()
      modifies this`isPreparingLerp
      ensures Valid()
      ensures isPreparingLerp == (old(isPreparingLerp) || (currentTechnique == StudyProtocol.OverrideHand && currentMode == ShowTechnique))
    {
      if currentTechnique == StudyProtocol.OverrideHand && currentMode == ShowTechnique {
        isPreparingLerp := true;
      }
    }

    /** One second after turning green, the marker turns red again. */
    method ResetMarker()
      modifies this`markerGreen
      ensures !markerGreen
    {
      markerGreen := false;
    }

    method SwitchTechnique(technique: ShowingTechnique)
      modifies this`currentTechnique, this`currentMode, this`markerGreen, this`isPreparingLerp, this`isLerping,
               this`nextStaticGestureDetectionTimestamp, this`nextAnimPlayTimestamp
      ensures Valid()
      ensures nextAnimPlayTimestamp == old(nextAnimPlayTimestamp)
      ensures currentTechnique == technique && currentMode == Idle && !markerGreen
      ensures !isPreparingLerp && !isLerping && nextStaticGestureDetectionTimestamp == -1.0
    {
      currentTechnique := technique;
      SwitchMode(Idle, 0.0);
    }

    /** Selects a gesture, announces its key frames to the static detector, and goes back to IDLE. */
    method SwitchGesture(gesture: Gesture)
      modifies this`currentExpectedGesture, this`announcedKeyFrames, this`currentMode, this`markerGreen, this`isPreparingLerp, this`isLerping,
               this`nextStaticGestureDetectionTimestamp, this`nextAnimPlayTimestamp
      ensures Valid()
      ensures nextAnimPlayTimestamp == old(nextAnimPlayTimestamp)
      ensures currentExpectedGesture == gesture && currentMode == Idle && !markerGreen
      ensures !isPreparingLerp && !isLerping && nextStaticGestureDetectionTimestamp == -1.0
      ensures announcedKeyFrames == KeyFramesOf(gesture)
    {
      currentExpectedGesture := gesture;
      match currentExpectedGesture {
        case Static(s) =>
          announcedKeyFrames := [s];
        case Dynamic(d) =>
          announcedKeyFrames := d.orderedKeyFrames;
      }
      SwitchMode(Idle, 0.0);
    }

    /**
     * Every mode turns the marker red. IDLE clears both blend flags and the
     * debounce; SHOW_TECHNIQUE plays from now on; TRAIN clears both blend flags.
     */
    method SwitchMode(newMode: DemoMode, now: real)
      requires newMode == ShowTechnique ==> Valid()
      modifies this`currentMode, this`markerGreen, this`isPreparingLerp, this`isLerping,
               this`nextStaticGestureDetectionTimestamp, this`nextAnimPlayTimestamp
      ensures Valid()
      ensures currentMode == newMode && !markerGreen
      ensures newMode in {Idle, Train} ==> !isPreparingLerp && !isLerping
      ensures newMode == ShowTechnique ==> isPreparingLerp == old(isPreparingLerp) && isLerping == old(isLerping)
      ensures nextStaticGestureDetectionTimestamp ==
        if newMode == Idle then -1.0 else old(nextStaticGestureDetectionTimestamp)
      ensures nextAnimPlayTimestamp == if newMode == ShowTechnique then now else old(nextAnimPlayTimestamp)
    {
      currentMode := newMode;
      markerGreen := false;
      match currentMode {
        case Idle =>
          isPreparingLerp := false;
          isLerping := false;
          nextStaticGestureDetectionTimestamp := -1.0;
        case ShowTechnique =>
          nextAnimPlayTimestamp := now;
        case Train =>
          isPreparingLerp := false;
          isLerping := false;
      }
    }

    /** A gesture was recognised on the main hand. */
    method OnRecognizeEvent(detectedGesture: Gesture, now: real) returns (accepted: bool)
      modifies this`nextStaticGestureDetectionTimestamp, this`markerGreen
      ensures var v := Judge(currentExpectedGesture, detectedGesture, isLerping, old(nextStaticGestureDetectionTimestamp), now);
        && accepted == v.accepted
        && nextStaticGestureDetectionTimestamp == v.nextStaticDetection
        && markerGreen == (old(markerGreen) || accepted)
      ensures isLerping ==> unchanged(this) && !accepted
    {
      accepted := false;
      if isLerping {
        return;
      }
      if detectedGesture.Name() == currentExpectedGesture.Name() && currentExpectedGesture.Static? {
        if now > nextStaticGestureDetectionTimestamp {
          nextStaticGestureDetectionTimestamp := now + DelayBetweenStaticDetection;
        } else {
          return;
        }
      }
      if detectedGesture.Name() == currentExpectedGesture.Name() {
        markerGreen := true;
        accepted := true;
      }
    }

    /**
     * After the animation: a pending blend request captures both skeletons
     * and starts the blend clock; a running blend either ends once 0.2 s
     * have passed or writes every main-hand bone as the blend of its captured
     * start and end poses. `blended` is the progression used, if any; the
     * interpolation itself is the engine's `blend`.
     */
    method LateUpdate(now: real, overrideBones: seq<BonePose>, mainBones: array<BonePose>,
                      blend: (BonePose, BonePose, real) -> BonePose)
      returns (blended: Option<real>)
      requires Valid()
      requires isPreparingLerp ==> |overrideBones| >= mainBones.Length
      requires !isPreparingLerp && isLerping ==>
        lerpStartTime <= now && |lerpStart| >= mainBones.Length && |lerpEnd| >= mainBones.Length
      modifies this`isPreparingLerp, this`isLerping, this`lerpStartTime, this`lerpStart, this`lerpEnd, mainBones
      ensures Valid() && !isPreparingLerp
      ensures old(isPreparingLerp) ==>
        lerpStartTime == now && lerpStart == overrideBones && lerpEnd == old(mainBones[..])
      ensures !old(isPreparingLerp) ==>
        lerpStartTime == old(lerpStartTime) && lerpStart == old(lerpStart) && lerpEnd == old(lerpEnd)
      ensures var running := old(isPreparingLerp) || old(isLerping);
        && isLerping == (running && now <= lerpStartTime + LerpDurationAfterShow)
        && blended == (if isLerping then Some(Progression(lerpStartTime, now)) else None)
      ensures blended.Some? ==> 0.0 <= blended.value <= 1.0
      ensures blended.Some? ==> |lerpStart| >= mainBones.Length && |lerpEnd| >= mainBones.Length
      ensures blended.Some? ==> forall i :: 0 <= i < mainBones.Length ==> mainBones[i] == blend(lerpStart[i], lerpEnd[i], blended.value)
      ensures blended.None? ==> mainBones[..] == old(mainBones[..])
    {
      blended := None;
      if isPreparingLerp {
        isPreparingLerp := false;
        isLerping := true;
        lerpStartTime := now;
        lerpStart := overrideBones;
        lerpEnd := mainBones[..];
      }
      if currentTechnique == StudyProtocol.OverrideHand && currentMode == ShowTechnique && isLerping {
        if now > lerpStartTime + LerpDurationAfterShow {
          isLerping := false;
        } else {
          var lerpProgression := Progression(lerpStartTime, now);
          var boneIndex := 0;
          while boneIndex < mainBones.Length
            modifies mainBones
            invariant 0 <= boneIndex <= mainBones.Length
            invariant forall i :: 0 <= i < boneIndex ==>
              mainBones[i] == blend(lerpStart[i], lerpEnd[i], lerpProgression)
            invariant forall i :: boneIndex <= i < mainBones.Length ==> mainBones[i] == old(mainBones[i])
          {
            mainBones[boneIndex] := blend(lerpStart[boneIndex], lerpEnd[boneIndex], lerpProgression);
            boneIndex := boneIndex + 1;
          }
          blended := Some(lerpProgression);
        }
      }
    }
  }

  /**
   * Two accepted detections of a static gesture, with nothing reset in
   * between, are more than 2 s apart (a corollary of `Judge`'s contract).
   */
  lemma AcceptedStaticDetectionsApart(expected: Gesture, first: Gesture, second: Gesture,
                                      nextStaticDetection: real, t1: real, t2: real)
    requires expected.Static?
    requires Judge(expected, first, false, nextStaticDetection, t1).accepted
    requires Judge(expected, second, false, Judge(expected, first, false, nextStaticDetection, t1).nextStaticDetection, t2).accepted
    ensures t2 > t1 + DelayBetweenStaticDetection
  {
  }

  /** A dynamic or non-matching detection neither reads nor writes the debounce timestamp (a corollary of `Judge`'s contract). */
  lemma DebounceOnlyForStaticMatches(expected: Gesture, detected: Gesture, isLerping: bool, n1: real, n2: real, now: real)
    requires !(expected.Static? && detected.Name() == expected.Name())
    ensures Judge(expected, detected, isLerping, n1, now).accepted == Judge(expected, detected, isLerping, n2, now).accepted
    ensures Judge(expected, detected, isLerping, n1, now).nextStaticDetection == n1
  {
  }

  /** After entering IDLE the first correct detection is accepted, whatever the gesture and the time (Unity time is never negative). */
  method FirstDetectionAfterIdle(demo: DemoController, detectedGesture: Gesture, t0: real, now: real)
      returns (accepted: bool)
    requires demo.Valid()
    requires detectedGesture.Name() == demo.currentExpectedGesture.Name()
    requires 0.0 <= now
    modifies demo
    ensures accepted && demo.markerGreen
  {
    demo.SwitchMode(Idle, t0);
    accepted := demo.OnRecognizeEvent(detectedGesture, now);
  }

  /** On the controller: of two successive recognitions of a static gesture, both accepted, the second is more than 2 s after the first. */
  method SuccessiveStaticDetections(demo: DemoController, first: Gesture, second: Gesture, t1: real, t2: real)
      returns (acceptedFirst: bool, acceptedSecond: bool)
    requires demo.currentExpectedGesture.Static?
    modifies demo`nextStaticGestureDetectionTimestamp, demo`markerGreen
    ensures acceptedFirst && acceptedSecond ==> t2 > t1 + DelayBetweenStaticDetection
  {
    acceptedFirst := demo.OnRecognizeEvent(first, t1);
    acceptedSecond := demo.OnRecognizeEvent(second, t2);
  }
}
