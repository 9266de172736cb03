/**
 * What the keyframe matcher guarantees: each definition progresses from its
 * own entry and the event alone; the first keyframe restarts, the next one
 * advances, the last one completes exactly once; with at least two keyframes
 * per definition the reached index stays in range; and timers expire on the
 * first frame after their accumulated time exceeds the execution time.
 */
module DynamicGestureProperties {
  import opened Wrappers
  import opened Gestures
  import opened DynamicGestureDetection

  ghost predicate Distinct(defs: seq<DynamicGesture>) {
    forall i, j :: 0 <= i < j < |defs| ==> defs[i] != defs[j]
  }

  ghost predicate Tracked(defs: seq<DynamicGesture>, t: Tables) {
    forall d :: d in defs ==> d in t.reached
  }

  /** Every definition has a first keyframe and at least one more. */
  ghost predicate WellFormed(defs: seq<DynamicGesture>) {
    forall d :: d in defs ==> |d.orderedKeyFrames| >= 2
  }

  /** -1 <= reachedKeyFrame <= Count - 2 for every definition. */
  ghost predicate InRange(defs: seq<DynamicGesture>, reached: KeyFrames) {
    forall d :: d in defs ==> d in reached && -1 <= reached[d] <= |d.orderedKeyFrames| - 2
  }

  /** The definitions that a single event completes, judged each on its own entry in `t`. */
  ghost function FiredBy(defs: seq<DynamicGesture>, t: Tables, g: StaticGesture): seq<DynamicGesture>
    requires Tracked(defs, t)
    decreases |defs|
  {
    if defs == [] then []
    else (if Recognized(defs[0], EntryOf(t, defs[0]), g) then [defs[0]] else []) + FiredBy(defs[1..], t, g)
  }

  // ---------------------------------------------------------------- locality

  /** A pass over definitions that do not include `x` leaves `x`'s entry alone. */
  lemma {:induction false} RecognizeLeavesOthers(defs: seq<DynamicGesture>, t: Tables, g: StaticGesture, x: DynamicGesture)
    requires Tracked(defs, t) && x in t.reached && x !in defs
    ensures EntryOf(Recognize(defs, t, g).tables, x) == EntryOf(t, x)
    decreases |defs|
  {
    if defs != [] {
      match Advance(defs[0], t, g)
      case Threw(_) =>
      case Completed(t') =>
        assert EntryOf(t', x) == EntryOf(t, x);
        RecognizeLeavesOthers(defs[1..], t', g, x);
    }
  }

  /**
   * With a duplicate-free list, each definition ends up exactly where its own
   * step takes it, whatever the other definitions did in the same loop.
   */
  lemma {:induction false} RecognizePerDefinition(defs: seq<DynamicGesture>, t: Tables, g: StaticGesture, d: DynamicGesture)
    requires Tracked(defs, t) && Distinct(defs) && d in defs
    requires Recognize(defs, t, g).Completed?
    ensures Step(d, EntryOf(t, d), g).Reacted?
    ensures EntryOf(Recognize(defs, t, g).tables, d) == Step(d, EntryOf(t, d), g).entry
    decreases |defs|
  {
    var t' := Advance(defs[0], t, g).tables;
    assert Distinct(defs[1..]);
    if defs[0] == d {
      assert d !in defs[1..];
      RecognizeLeavesOthers(defs[1..], t', g, d);
    } else {
      assert EntryOf(t', d) == EntryOf(t, d);
      RecognizePerDefinition(defs[1..], t', g, d);
    }
  }

  lemma {:induction false} FiredByLocal(defs: seq<DynamicGesture>, t: Tables, t': Tables, g: StaticGesture)
    requires Tracked(defs, t) && Tracked(defs, t')
    requires forall x :: x in defs ==> EntryOf(t, x) == EntryOf(t', x)
    ensures FiredBy(defs, t, g) == FiredBy(defs, t', g)
    decreases |defs|
  {
    if defs != [] {
      FiredByLocal(defs[1..], t, t', g);
    }
  }

  /** `onRecognized` is invoked, in list order, for exactly the definitions the event completes. */
  lemma {:induction false} RecognizeFires(defs: seq<DynamicGesture>, t: Tables, g: StaticGesture)
    requires Tracked(defs, t) && Distinct(defs)
    requires Recognize(defs, t, g).Completed?
    ensures Recognize(defs, t, g).tables.fired == t.fired + FiredBy(defs, t, g)
    decreases |defs|
  {
    if defs != [] {
      var t' := Advance(defs[0], t, g).tables;
      AdvanceFires(defs, t, g);
      RecognizeFires(defs[1..], t', g);
    }
  }

  /** The first definition's turn: its own announcement, and nothing changed for the rest. */
  lemma AdvanceFires(defs: seq<DynamicGesture>, t: Tables, g: StaticGesture)
    requires Tracked(defs, t) && Distinct(defs) && defs != []
    requires Advance(defs[0], t, g).Completed?
    ensures Distinct(defs[1..]) && Tracked(defs[1..], Advance(defs[0], t, g).tables)
    ensures t.fired + FiredBy(defs, t, g)
         == Advance(defs[0], t, g).tables.fired + FiredBy(defs[1..], Advance(defs[0], t, g).tables, g)
  {
    var d := defs[0];
    var t' := Advance(d, t, g).tables;
    var own := if Recognized(d, EntryOf(t, d), g) then [d] else [];
    assert t'.fired == t.fired + own;
    assert FiredBy(defs, t, g) == own + FiredBy(defs[1..], t, g);
    assert Distinct(defs[1..]);
    forall x | x in defs[1..] ensures x in t'.reached && EntryOf(t, x) == EntryOf(t', x) {
      assert x != d;
    }
    FiredByLocal(defs[1..], t, t', g);
    assert t.fired + (own + FiredBy(defs[1..], t, g)) == (t.fired + own) + FiredBy(defs[1..], t', g);
  }

  lemma {:induction false} FiredByCount(defs: seq<DynamicGesture>, t: Tables, g: StaticGesture, d: DynamicGesture)
    requires Tracked(defs, t) && Distinct(defs) && d in defs
    ensures multiset(FiredBy(defs, t, g))[d] == if Recognized(d, EntryOf(t, d), g) then 1 else 0
    decreases |defs|
  {
    assert Distinct(defs[1..]);
    if defs[0] == d {
      assert d !in defs[1..];
      FiredByAbsent(defs[1..], t, g, d);
    } else {
      FiredByCount(defs[1..], t, g, d);
    }
  }

  lemma {:induction false} FiredByAbsent(defs: seq<DynamicGesture>, t: Tables, g: StaticGesture, d: DynamicGesture)
    requires Tracked(defs, t) && d !in defs
    ensures multiset(FiredBy(defs, t, g))[d] == 0
    decreases |defs|
  {
    if defs != [] {
      FiredByAbsent(defs[1..], t, g, d);
    }
  }

  // ------------------------------------------------ per-definition behaviour

  /** The first keyframe (re)starts its definition: timer 0, keyframe 0, whatever the prior progress. */
  lemma RestartOnFirstKeyFrame(defs: seq<DynamicGesture>, t: Tables, g: StaticGesture, d: DynamicGesture)
    requires Tracked(defs, t) && Distinct(defs) && d in defs
    requires Recognize(defs, t, g).Completed?
    requires |d.orderedKeyFrames| > 0 && d.orderedKeyFrames[0].name == g.name
    ensures var r := Recognize(defs, t, g).tables;
      d in r.timers && r.timers[d] == 0.0 && r.reached[d] == 0
  {
    RecognizePerDefinition(defs, t, g, d);
  }

  /** The expected next keyframe, when it is not the last, advances the index and leaves the timer alone. */
  lemma AdvanceOnNextKeyFrame(defs: seq<DynamicGesture>, t: Tables, g: StaticGesture, d: DynamicGesture)
    requires Tracked(defs, t) && Distinct(defs) && d in defs
    requires Recognize(defs, t, g).Completed?
    requires var frames := d.orderedKeyFrames; var i := t.reached[d];
      && |frames| > 0 && frames[0].name != g.name
      && 0 <= i + 1 < |frames| - 1 && frames[i + 1].name == g.name
    ensures var r := Recognize(defs, t, g).tables;
      && r.reached[d] == t.reached[d] + 1
      && (d in r.timers <==> d in t.timers)
      && (d in t.timers ==> r.timers[d] == t.timers[d])
  {
    RecognizePerDefinition(defs, t, g, d);
  }

  /** The last keyframe completes the sequence: one announcement, timer removed, index back to -1. */
  lemma CompleteOnLastKeyFrame(defs: seq<DynamicGesture>, t: Tables, g: StaticGesture, d: DynamicGesture)
    requires Tracked(defs, t) && Distinct(defs) && d in defs
    requires Recognize(defs, t, g).Completed?
    requires var frames := d.orderedKeyFrames;
      && |frames| > 0 && frames[0].name != g.name
      && t.reached[d] + 1 == |frames| - 1 && frames[|frames| - 1].name == g.name
    ensures var r := Recognize(defs, t, g).tables;
      && d !in r.timers && r.reached[d] == -1
      && multiset(r.fired)[d] == multiset(t.fired)[d] + 1
  {
    RecognizePerDefinition(defs, t, g, d);
    RecognizeFires(defs, t, g);
    FiredByCount(defs, t, g, d);
  }

  /**
   * An event that is neither the first keyframe nor the expected next one
   * changes nothing for that definition and announces nothing for it; in
   * particular an inactive definition reacts only to its first keyframe.
   */
  lemma IgnoreOtherKeyFrames(defs: seq<DynamicGesture>, t: Tables, g: StaticGesture, d: DynamicGesture)
    requires Tracked(defs, t) && Distinct(defs) && d in defs
    requires Recognize(defs, t, g).Completed?
    requires var frames := d.orderedKeyFrames; var i := t.reached[d];
      && |frames| > 0 && frames[0].name != g.name
      && 0 <= i + 1 < |frames| && frames[i + 1].name != g.name
    ensures var r := Recognize(defs, t, g).tables;
      && EntryOf(r, d) == EntryOf(t, d)
      && multiset(r.fired)[d] == multiset(t.fired)[d]
  {
    RecognizePerDefinition(defs, t, g, d);
    RecognizeFires(defs, t, g);
    FiredByCount(defs, t, g, d);
  }

  // -------------------------------------------------------- index in range

  /**
   * If every definition has at least two keyframes, no event makes the loop
   * read past the keyframe list and -1 <= reachedKeyFrame <= Count - 2 is kept.
   * (`all` may repeat definitions; no distinctness is needed.)
   */
  lemma {:induction false} RecognizeKeepsRange(all: seq<DynamicGesture>, defs: seq<DynamicGesture>, t: Tables, g: StaticGesture)
    requires forall d :: d in defs ==> d in all
    requires WellFormed(all) && InRange(all, t.reached)
    ensures Recognize(defs, t, g).Completed?
    ensures InRange(all, Recognize(defs, t, g).tables.reached)
    decreases |defs|
  {
    if defs != [] {
      var d := defs[0];
      assert Step(d, EntryOf(t, d), g).Reacted?;
      var t' := Advance(d, t, g).tables;
      forall x | x in all ensures x in t'.reached && -1 <= t'.reached[x] <= |x.orderedKeyFrames| - 2 {
        if x != d {
          assert EntryOf(t', x) == EntryOf(t, x);
        }
      }
      RecognizeKeepsRange(all, defs[1..], t', g);
    }
  }

  /**
   * With a single keyframe the range fails: once the keyframe has been seen,
   * any other pose reads `orderedKeyFrames[1]`, and the definition can never
   * be announced.
   */
  lemma SingleKeyFrameOverruns(d: DynamicGesture, e: Entry, g: StaticGesture)
    requires |d.orderedKeyFrames| == 1
    ensures !Recognized(d, e, g)
    ensures e.reached == 0 && g.name != d.orderedKeyFrames[0].name ==> Step(d, e, g).OutOfRange?
  {
  }

  /** A detector started on one single-keyframe gesture throws on the second distinct pose. */
  lemma SingleKeyFrameScenario()
    ensures
      var a, b := StaticGesture("A"), StaticGesture("B");
      var d := DynamicGesture("D", [a], 1.0);
      var t0 := Tables(map[], map[d := -1], []);
      var r1 := Recognize([d], t0, a);
      && r1.Completed? && r1.tables.reached[d] == 0
      && Recognize([d], r1.tables, b).Threw?
  {
  }

  // ------------------------------------------------------------- sequences

  /** Feeding one definition a stream of poses; `recognitions` counts the announcements. */
  datatype Run = Overran | Ran(entry: Entry, recognitions: nat)

  function Feed(d: DynamicGesture, e: Entry, events: seq<StaticGesture>): Run
    decreases |events|
  {
    if events == [] then Ran(e, 0)
    else
      match Step(d, e, events[0])
      case OutOfRange => Overran
      case Reacted(e', recognized) =>
        match Feed(d, e', events[1..])
        case Overran => Overran
        case Ran(e'', n) => Ran(e'', n + if recognized then 1 else 0)
  }

  lemma {:induction false} FeedRemainingKeyFrames(d: DynamicGesture, i: nat)
    requires var frames := d.orderedKeyFrames;
      && 1 <= i < |frames|
      && forall k :: 1 <= k < |frames| ==> frames[k].name != frames[0].name
    ensures Feed(d, Entry(Some(0.0), i - 1), d.orderedKeyFrames[i..]) == Ran(Inactive, 1)
    decreases |d.orderedKeyFrames| - i
  {
    var frames := d.orderedKeyFrames;
    assert frames[i..][0] == frames[i];
    assert frames[i..][1..] == frames[i + 1..];
    if i < |frames| - 1 {
      FeedRemainingKeyFrames(d, i + 1);
    }
  }

  /**
   * Performing a definition's keyframes in order, from any prior progress,
   * announces it exactly once and leaves it inactive, provided its first
   * keyframe does not recur later in the sequence (otherwise the recurrence
   * restarts it).
   */
  lemma FullSequenceRecognizedOnce(d: DynamicGesture, e: Entry)
    requires |d.orderedKeyFrames| >= 2
    requires forall k :: 1 <= k < |d.orderedKeyFrames| ==> d.orderedKeyFrames[k].name != d.orderedKeyFrames[0].name
    ensures Feed(d, e, d.orderedKeyFrames) == Ran(Inactive, 1)
  {
    assert d.orderedKeyFrames[1..] == d.orderedKeyFrames[1..];
    FeedRemainingKeyFrames(d, 1);
  }

  /** A recurring first keyframe restarts the definition, which therefore never completes on that input. */
  lemma RecurringFirstKeyFrameScenario()
    ensures
      var a, b := StaticGesture("A"), StaticGesture("B");
      var d := DynamicGesture("ABA", [a, b, a], 2.0);
      Feed(d, Inactive, d.orderedKeyFrames) == Ran(Entry(Some(0.0), 0), 0)
  {
    var a, b := StaticGesture("A"), StaticGesture("B");
    var d := DynamicGesture("ABA", [a, b, a], 2.0);
    var restarted := Entry(Some(0.0), 0);
    assert Step(d, restarted, a) == Reacted(restarted, false);
    assert Feed(d, restarted, [a]) == Ran(restarted, 0);
    assert Step(d, restarted, b) == Reacted(restarted.(reached := 1), false);
    assert Step(d, restarted.(reached := 1), a) == Reacted(restarted, false);
    assert Feed(d, restarted.(reached := 1), [a]) == Ran(restarted, 0);
    assert [a, b, a][1..] == [b, a] && [b, a][1..] == [a];
    assert Feed(d, restarted, [b, a]) == Ran(restarted, 0);
  }

  // ------------------------------------------------ sequences on the detector

  /** Successive `keyFrameRecognized` passes, one per recognised pose, stopping at the first that throws. */
  function RecognizeAll(defs: seq<DynamicGesture>, t: Tables, events: seq<StaticGesture>): (r: Outcome)
    requires Tracked(defs, t)
    ensures r.tables.reached.Keys == t.reached.Keys
    decreases |events|
  {
    if events == [] then Completed(t)
    else
      match Recognize(defs, t, events[0])
      case Threw(t') => Threw(t')
      case Completed(t') => RecognizeAll(defs, t', events[1..])
  }

  lemma RecognizeAllUnfold(defs: seq<DynamicGesture>, t: Tables, events: seq<StaticGesture>, i: int)
    requires Tracked(defs, t) && 0 <= i < |events|
    ensures RecognizeAll(defs, t, events[i..]) == match Recognize(defs, t, events[i])
      case Threw(t') => Threw(t')
      case Completed(t') => RecognizeAll(defs, t', events[i + 1..])
  {
    assert events[i..][1..] == events[i + 1..];
  }

  /** A pass does the same whatever was announced before it; it only appends. */
  lemma {:induction false} RecognizeFiredShift(defs: seq<DynamicGesture>, t: Tables, g: StaticGesture, f: seq<DynamicGesture>)
    requires Tracked(defs, t)
    ensures var a := Recognize(defs, t, g);
      var b := Recognize(defs, t.(fired := f + t.fired), g);
      && b.Threw? == a.Threw?
      && b.tables == a.tables.(fired := f + a.tables.fired)
    decreases |defs|
  {
    if defs != [] {
      var shifted := t.(fired := f + t.fired);
      assert EntryOf(shifted, defs[0]) == EntryOf(t, defs[0]);
      match Advance(defs[0], t, g)
      case Threw(_) =>
      case Completed(t') =>
        assert Advance(defs[0], shifted, g) == Completed(t'.(fired := f + t'.fired));
        RecognizeFiredShift(defs[1..], t', g, f);
    }
  }

  /**
   * Over any stream of poses on which no pass throws, each definition of a
   * duplicate-free list ends where feeding it the stream alone takes it, and
   * is announced exactly as many times as that feeding completes it.
   */
  lemma {:induction false} FeedAgrees(defs: seq<DynamicGesture>, t: Tables, events: seq<StaticGesture>, d: DynamicGesture)
    requires Tracked(defs, t) && Distinct(defs) && d in defs
    requires RecognizeAll(defs, t, events).Completed?
    ensures Feed(d, EntryOf(t, d), events).Ran?
    ensures EntryOf(RecognizeAll(defs, t, events).tables, d) == Feed(d, EntryOf(t, d), events).entry
    ensures multiset(RecognizeAll(defs, t, events).tables.fired)[d]
         == multiset(t.fired)[d] + Feed(d, EntryOf(t, d), events).recognitions
    decreases |events|
  {
    if events != [] {
      var g := events[0];
      var t' := Recognize(defs, t, g).tables;
      RecognizePerDefinition(defs, t, g, d);
      RecognizeFires(defs, t, g);
      FiredByCount(defs, t, g, d);
      FeedAgrees(defs, t', events[1..], d);
    }
  }

  /** With at least two keyframes per definition, no stream of poses makes a pass throw. */
  lemma {:induction false} RecognizeAllCompletes(defs: seq<DynamicGesture>, t: Tables, events: seq<StaticGesture>)
    requires WellFormed(defs) && InRange(defs, t.reached)
    ensures Tracked(defs, t)
    ensures RecognizeAll(defs, t, events).Completed?
    ensures InRange(defs, RecognizeAll(defs, t, events).tables.reached)
    decreases |events|
  {
    if events != [] {
      RecognizeKeepsRange(defs, defs, t, events[0]);
      RecognizeAllCompletes(defs, Recognize(defs, t, events[0]).tables, events[1..]);
    }
  }

  /**
   * On the detector: performing a well-formed definition's keyframes in
   * order, from any progress in range, announces it exactly once and leaves
   * it inactive (no timer, keyframe -1), if its first keyframe does not recur.
   */
  lemma DetectorRecognizesSequenceOnce(defs: seq<DynamicGesture>, t: Tables, d: DynamicGesture)
    requires Distinct(defs) && WellFormed(defs) && InRange(defs, t.reached) && d in defs
    requires forall k :: 1 <= k < |d.orderedKeyFrames| ==> d.orderedKeyFrames[k].name != d.orderedKeyFrames[0].name
    ensures Tracked(defs, t)
    ensures var r := RecognizeAll(defs, t, d.orderedKeyFrames);
      && r.Completed?
      && d !in r.tables.timers && r.tables.reached[d] == -1
      && multiset(r.tables.fired)[d] == multiset(t.fired)[d] + 1
  {
    RecognizeAllCompletes(defs, t, d.orderedKeyFrames);
    FeedAgrees(defs, t, d.orderedKeyFrames, d);
    FullSequenceRecognizedOnce(d, EntryOf(t, d));
  }

  /** Calls `KeyFrameRecognized` once per pose, collecting every announcement, until one call throws. */
  method PerformPoses(detector: DynamicGestureDetector, events: seq<StaticGesture>)
      returns (announced: seq<DynamicGesture>, threw: bool)
    requires detector.Valid()
    modifies detector
    ensures detector.Valid()
    ensures Tracked(detector.dynamicGestures, Tables(old(detector.runningTimers), old(detector.reachedKeyFrame), []))
    ensures var r := RecognizeAll(detector.dynamicGestures,
                                  Tables(old(detector.runningTimers), old(detector.reachedKeyFrame), []), events);
      && threw == r.Threw?
      && announced == r.tables.fired
      && detector.runningTimers == r.tables.timers
      && detector.reachedKeyFrame == r.tables.reached
  {
    var defs := detector.dynamicGestures;
    ghost var start := Tables(detector.runningTimers, detector.reachedKeyFrame, []);
    announced, threw := [], false;
    var i := 0;
    while i < |events|
      invariant 0 <= i <= |events|
      invariant detector.Valid() && detector.dynamicGestures == defs
      invariant Tracked(defs, Tables(detector.runningTimers, detector.reachedKeyFrame, announced))
      invariant RecognizeAll(defs, Tables(detector.runningTimers, detector.reachedKeyFrame, announced), events[i..])
             == RecognizeAll(defs, start, events)
    {
      ghost var before := Tables(detector.runningTimers, detector.reachedKeyFrame, announced);
      RecognizeAllUnfold(defs, before, events, i);
      RecognizeFiredShift(defs, Tables(detector.runningTimers, detector.reachedKeyFrame, []), events[i], announced);
      assert Tables(detector.runningTimers, detector.reachedKeyFrame, []).(fired := announced + []) == before;
      var recognized, th := detector.KeyFrameRecognized(events[i]);
      announced := announced + recognized;
      if th {
        threw := true;
        return;
      }
      i := i + 1;
    }
    assert events[i..] == [];
  }

  /**
   * End to end: a freshly started detector, fed a well-formed definition's
   * keyframes in order through `KeyFrameRecognized`, announces that
   * definition exactly once and leaves it inactive.
   */
  method FreshDetectorRecognizesSequence(defs: seq<DynamicGesture>, d: DynamicGesture)
      returns (detector: DynamicGestureDetector, announced: seq<DynamicGesture>, threw: bool)
    requires Distinct(defs) && WellFormed(defs) && d in defs
    requires forall k :: 1 <= k < |d.orderedKeyFrames| ==> d.orderedKeyFrames[k].name != d.orderedKeyFrames[0].name
    ensures !threw && multiset(announced)[d] == 1
    ensures d !in detector.runningTimers && d in detector.reachedKeyFrame && detector.reachedKeyFrame[d] == -1
  {
    detector := new DynamicGestureDetector.Start(defs);
    ghost var t := Tables(detector.runningTimers, detector.reachedKeyFrame, []);
    assert InRange(defs, t.reached);
    DetectorRecognizesSequenceOnce(defs, t, d);
    announced, threw := PerformPoses(detector, d.orderedKeyFrames);
  }

  // ---------------------------------------------------------------- timers

  function TickAll(timers: Timers, dts: seq<real>): Timers
    decreases |dts|
  {
    if dts == [] then timers else TickAll(Tick(timers, dts[0]), dts[1..])
  }

  function Sum(s: seq<real>): real
    decreases |s|
  {
    if s == [] then 0.0 else s[0] + Sum(s[1..])
  }

  lemma {:induction false} TickAllAddsNoKeys(timers: Timers, dts: seq<real>)
    ensures TickAll(timers, dts).Keys <= timers.Keys
    decreases |dts|
  {
    if dts != [] {
      TickAllAddsNoKeys(Tick(timers, dts[0]), dts[1..]);
    }
  }

  /**
   * A timer survives a run of frames exactly while its value before each
   * frame is within the execution time, and then holds its start value plus
   * every `deltaTime` since.
   */
  lemma {:induction false} TimerLifetime(timers: Timers, dts: seq<real>, d: DynamicGesture)
    requires d in timers
    ensures d in TickAll(timers, dts) <==> forall k :: 0 <= k < |dts| ==> timers[d] + Sum(dts[..k]) <= d.execTime
    ensures d in TickAll(timers, dts) ==> TickAll(timers, dts)[d] == timers[d] + Sum(dts)
    decreases |dts|
  {
    if dts != [] {
      var next := Tick(timers, dts[0]);
      assert dts[..0] == [];
      if d in next {
        TimerLifetime(next, dts[1..], d);
        forall k | 0 <= k < |dts[1..]| ensures Sum(dts[..k + 1]) == dts[0] + Sum(dts[1..][..k]) {
          assert dts[..k + 1][1..] == dts[1..][..k];
        }
        if d in TickAll(timers, dts) {
          forall k | 0 <= k < |dts| ensures timers[d] + Sum(dts[..k]) <= d.execTime {
            if k > 0 {
              assert Sum(dts[..k]) == dts[0] + Sum(dts[1..][..k - 1]);
            }
          }
        } else {
          var k' :| 0 <= k' < |dts[1..]| && next[d] + Sum(dts[1..][..k']) > d.execTime;
          assert timers[d] + Sum(dts[..k' + 1]) > d.execTime;
        }
      } else {
        TickAllAddsNoKeys(next, dts[1..]);
      }
    }
  }

  // ---------------------------------------------------------------- expiry

  /**
   * Expiry drops the timer but keeps the reached keyframe, so a sequence
   * whose time ran out still completes: g2 at t = 0, frames of 2.5 s and
   * 0.1 s (the timer expires on the second), then g4 announces g3.
   */
  lemma ExpiredSequenceStillCompletes()
    ensures
      var g2, g4 := StaticGesture("g2"), StaticGesture("g4");
      var g3 := DynamicGesture("g3", [g2, g4], 2.0);
      var t0 := Tables(map[], map[g3 := -1], []);
      var r1 := Recognize([g3], t0, g2).tables;
      var expired := TickAll(r1.timers, [2.5, 0.1]);
      var r2 := Recognize([g3], r1.(timers := expired), g4);
      && g3 !in expired
      && r2.Completed? && r2.tables.fired == [g3] && r2.tables.reached[g3] == -1
  {
    var g2, g4 := StaticGesture("g2"), StaticGesture("g4");
    var g3 := DynamicGesture("g3", [g2, g4], 2.0);
    var t0 := Tables(map[], map[g3 := -1], []);
    assert EntryOf(t0, g3) == Inactive;
    assert Step(g3, Inactive, g2) == Reacted(Entry(Some(0.0), 0), false);
    var r1 := Recognize([g3], t0, g2).tables;
    assert [g3][1..] == [];
    assert Put(t0, g3, Entry(Some(0.0), 0)) == Tables(map[g3 := 0.0], map[g3 := 0], []);
    assert Advance(g3, t0, g2) == Completed(Tables(map[g3 := 0.0], map[g3 := 0], []));
    assert Recognize([], Tables(map[g3 := 0.0], map[g3 := 0], []), g2).Completed?;
    assert r1.timers == map[g3 := 0.0] && r1.reached == map[g3 := 0];
    assert Step(g3, Entry(None, 0), g4) == Reacted(Inactive, true);
    assert Tick(r1.timers, 2.5) == map[g3 := 2.5];
    assert Tick(map[g3 := 2.5], 0.1) == map[];
  }
}
