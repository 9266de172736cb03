/**
 * Recognition of dynamic gestures from a stream of recognised static poses.
 *
 * The detector keeps two tables keyed by dynamic gesture: a running timer and
 * the index of the last keyframe reached (-1 when the gesture is inactive).
 * The functions below specify, one definition at a time, what an event or a
 * frame does to these tables; the class performs the same updates in place.
 */
module DynamicGestureDetection {
  import opened Wrappers
  import opened Gestures

  type Timers = map<DynamicGesture, real>
  type KeyFrames = map<DynamicGesture, int>

  /** One definition's state: its running timer, if any, and the keyframe reached. */
  datatype Entry = Entry(timer: Option<real>, reached: int)

  const Inactive: Entry := Entry(None, -1)

  /**
   * What one recognised keyframe does to one definition: either the indexer
   * of `orderedKeyFrames` is read out of range (the source throws), or the
   * definition takes a new entry and possibly completes its sequence.
   */
  datatype Reaction = OutOfRange | Reacted(entry: Entry, recognized: bool)

  function Step(d: DynamicGesture, e: Entry, g: StaticGesture): (r: Reaction)
    // the list is read out of range exactly when it is empty, or the event is not the first keyframe and the next index is outside the list
    ensures r.OutOfRange? <==>
      |d.orderedKeyFrames| == 0
      || (d.orderedKeyFrames[0].name != g.name && !(0 <= e.reached + 1 < |d.orderedKeyFrames|))
    // a completion resets the entry, and only the last keyframe completes
    ensures r.Reacted? && r.recognized ==>
      r.entry == Inactive && d.orderedKeyFrames[|d.orderedKeyFrames| - 1].name == g.name
    // any new progress names the keyframe just performed
    ensures r.Reacted? && !r.recognized && r.entry != e ==>
      0 <= r.entry.reached < |d.orderedKeyFrames| && d.orderedKeyFrames[r.entry.reached].name == g.name
    // a timer is only started by the first keyframe and only dropped by a completion
    ensures r.Reacted? && r.entry.timer != e.timer ==>
      (r.entry == Entry(Some(0.0), 0) && d.orderedKeyFrames[0].name == g.name) || r.recognized
  {
    var frames := d.orderedKeyFrames;
    if |frames| == 0 then OutOfRange
    else if frames[0].name == g.name then Reacted(Entry(Some(0.0), 0), false)
    else
      var next := e.reached + 1;
      if next < 0 || next >= |frames| then OutOfRange
      else if frames[next].name != g.name then Reacted(e, false)
      else if next == |frames| - 1 then Reacted(Inactive, true)
      else Reacted(e.(reached := next), false)
  }

  predicate Recognized(d: DynamicGesture, e: Entry, g: StaticGesture) {
    Step(d, e, g).Reacted? && Step(d, e, g).recognized
  }

  /** Both tables, and the gestures announced through `onRecognized` so far. */
  datatype Tables = Tables(timers: Timers, reached: KeyFrames, fired: seq<DynamicGesture>)

  /** A pass over the definitions either finishes or stops where the indexer threw. */
  datatype Outcome = Completed(tables: Tables) | Threw(tables: Tables)

  function EntryOf(t: Tables, d: DynamicGesture): Entry
    requires d in t.reached
  {
    Entry(if d in t.timers then Some(t.timers[d]) else None, t.reached[d])
  }

  /** Writes one definition's entry back into the two tables. */
  function Put(t: Tables, d: DynamicGesture, e: Entry): (r: Tables)
    ensures r.reached.Keys == t.reached.Keys + {d}
    ensures EntryOf(r, d) == e
    ensures r.timers - {d} == t.timers - {d} && r.fired == t.fired
    ensures forall x :: x in t.reached && x != d ==> EntryOf(r, x) == EntryOf(t, x)
  {
    var timers := match e.timer
      case Some(v) => t.timers[d := v]
      case None => t.timers - {d};
    assert timers - {d} == t.timers - {d};
    Tables(timers, t.reached[d := e.reached], t.fired)
  }

  /** One definition's turn in the loop of `keyFrameRecognized`. */
  function Advance(d: DynamicGesture, t: Tables, g: StaticGesture): (r: Outcome)
    requires d in t.reached
    ensures r.tables.reached.Keys == t.reached.Keys
    ensures r.Threw? <==> Step(d, EntryOf(t, d), g).OutOfRange?
    ensures r.Threw? ==> r.tables == t
    ensures r.Completed? ==>
      && EntryOf(r.tables, d) == Step(d, EntryOf(t, d), g).entry
      && (forall x :: x in t.reached && x != d ==> EntryOf(r.tables, x) == EntryOf(t, x))
      && r.tables.fired == t.fired + if Recognized(d, EntryOf(t, d), g) then [d] else []
  {
    match Step(d, EntryOf(t, d), g)
    case OutOfRange => Threw(t)
    case Reacted(e, recognized) =>
      var t' := Put(t, d, e);
      Completed(t'.(fired := t.fired + if recognized then [d] else []))
  }

  /** The whole loop of `keyFrameRecognized`: the definitions in list order. */
  function Recognize(defs: seq<DynamicGesture>, t: Tables, g: StaticGesture): (r: Outcome)
    requires forall d :: d in defs ==> d in t.reached
    ensures r.tables.reached.Keys == t.reached.Keys
    decreases |defs|
  {
    if defs == [] then Completed(t)
    else
      match Advance(defs[0], t, g)
      case Threw(t') => Threw(t')
      case Completed(t') => Recognize(defs[1..], t', g)
  }

  /**
   * One frame of `Update`: timers that had already run past their gesture's
   * execution time are dropped, every other timer advances by `dt`.
   */
  function Tick(timers: Timers, dt: real): (r: Timers)
    ensures forall d :: d in r <==> d in timers && timers[d] <= d.execTime
    ensures forall d :: d in r ==> r[d] == timers[d] + dt
  {
    map d | d in timers && timers[d] <= d.execTime :: timers[d] + dt
  }

  lemma RecognizeUnfold(defs: seq<DynamicGesture>, i: int, t: Tables, g: StaticGesture)
    requires 0 <= i < |defs|
    requires forall d :: d in defs ==> d in t.reached
    ensures Recognize(defs[i..], t, g) == match Advance(defs[i], t, g)
      case Threw(t') => Threw(t')
      case Completed(t') => Recognize(defs[i + 1..], t', g)
  {
    assert defs[i..][1..] == defs[i + 1..];
  }

  class DynamicGestureDetector {
    const dynamicGestures: seq<DynamicGesture>
    var runningTimers: Timers
    var reachedKeyFrame: KeyFrames

    /** Every listed definition has a progress entry, and nothing else has. */
    ghost predicate Valid()
      reads this
    {
      reachedKeyFrame.Keys == set d | d in dynamicGestures
    }

    constructor Start(dynamicGestures: seq<DynamicGesture>)
      ensures Valid() && this.dynamicGestures == dynamicGestures
      ensures runningTimers == map[]
      ensures forall d :: d in dynamicGestures ==> reachedKeyFrame[d] == -1
    {
      this.dynamicGestures := dynamicGestures;
      runningTimers := map[];
      var reached: KeyFrames := map[];
      var i := 0;
      while i < |dynamicGestures|
        invariant 0 <= i <= |dynamicGestures|
        invariant reached.Keys == set d | d in dynamicGestures[..i]
        invariant forall d :: d in reached ==> reached[d] == -1
      {
        assert dynamicGestures[..i + 1] == dynamicGestures[..i] + [dynamicGestures[i]];
        reached := reached[dynamicGestures[i] := -1];
        i := i + 1;
      }
      assert dynamicGestures[..i] == dynamicGestures;
      reachedKeyFrame := reached;
    }

    /** Per frame: collect expired and live timers first, then remove and advance them. */
    method Update(dt: real)
      modifies this`runningTimers
      ensures runningTimers == Tick(old(runningTimers), dt)
      ensures runningTimers.Keys <= old(runningTimers).Keys
    {
      var timersToRemove: set<DynamicGesture> := {};
      var timersToAdvance: set<DynamicGesture> := {};
      var pending := runningTimers.Keys;
      while pending != {}
        invariant pending <= runningTimers.Keys
        invariant timersToRemove + timersToAdvance == runningTimers.Keys - pending
        invariant forall d :: d in timersToRemove ==> runningTimers[d] > d.execTime
        invariant forall d :: d in timersToAdvance ==> runningTimers[d] <= d.execTime
        decreases pending
      {
        var timer :| timer in pending;
        if runningTimers[timer] > timer.execTime {
          timersToRemove := timersToRemove + {timer};
        } else {
          timersToAdvance := timersToAdvance + {timer};
        }
        pending := pending - {timer};
      }

      var toRemove := timersToRemove;
      while toRemove != {}
        invariant toRemove <= timersToRemove
        invariant runningTimers == old(runningTimers) - (timersToRemove - toRemove)
        decreases toRemove
      {
        var d :| d in toRemove;
        runningTimers := runningTimers - {d};
        toRemove := toRemove - {d};
      }
      assert runningTimers.Keys == timersToAdvance;

      var toAdvance := timersToAdvance;
      while toAdvance != {}
        invariant toAdvance <= timersToAdvance
        invariant runningTimers.Keys == timersToAdvance
        invariant forall d :: d in timersToAdvance ==>
          runningTimers[d] == old(runningTimers)[d] + if d in toAdvance then 0.0 else dt
        decreases toAdvance
      {
        var d :| d in toAdvance;
        runningTimers := runningTimers[d := runningTimers[d] + dt];
        toAdvance := toAdvance - {d};
      }
    }

    /**
     * A static pose was recognised: every definition, in list order, restarts,
     * advances, completes or ignores it. `recognized` lists the definitions
     * announced through `onRecognized`; `threw` says the loop stopped where
     * the keyframe indexer was read out of range.
     */
    method KeyFrameRecognized(gesture: StaticGesture) returns (recognized: seq<DynamicGesture>, threw: bool)
      requires Valid()
      modifies this`runningTimers, this`reachedKeyFrame
      ensures Valid()
      ensures var r := Recognize(dynamicGestures, Tables(old(runningTimers), old(reachedKeyFrame), []), gesture);
        && threw == r.Threw?
        && runningTimers == r.tables.timers
        && reachedKeyFrame == r.tables.reached
        && recognized == r.tables.fired
    {
      ghost var start := Tables(runningTimers, reachedKeyFrame, []);
      recognized, threw := [], false;
      var i := 0;
      while i < |dynamicGestures|
        invariant 0 <= i <= |dynamicGestures|
        invariant reachedKeyFrame.Keys == old(reachedKeyFrame).Keys
        invariant Recognize(dynamicGestures[i..], Tables(runningTimers, reachedKeyFrame, recognized), gesture)
               == Recognize(dynamicGestures, start, gesture)
      {
        RecognizeUnfold(dynamicGestures, i, Tables(runningTimers, reachedKeyFrame, recognized), gesture);
        recognized, threw := ReactTo(dynamicGestures[i], gesture, recognized);
        if threw {
          return;
        }
        i := i + 1;
      }
      assert dynamicGestures[i..] == [];
    }

    /** The body of the loop above, for one definition. */
    method ReactTo(dynamicGesture: DynamicGesture, gesture: StaticGesture, announced: seq<DynamicGesture>)
      returns (recognized: seq<DynamicGesture>, threw: bool)
      requires dynamicGesture in reachedKeyFrame
      modifies this`runningTimers, this`reachedKeyFrame
      ensures var r := Advance(dynamicGesture, Tables(old(runningTimers), old(reachedKeyFrame), announced), gesture);
        && threw == r.Threw?
        && runningTimers == r.tables.timers
        && reachedKeyFrame == r.tables.reached
        && recognized == r.tables.fired
    {
      ghost var before := Tables(runningTimers, reachedKeyFrame, announced);
      ghost var entry := EntryOf(before, dynamicGesture);
      recognized, threw := announced, false;
      if |dynamicGesture.orderedKeyFrames| == 0 {
        threw := true;
        return;
      }
      if dynamicGesture.orderedKeyFrames[0].name == gesture.name {
        runningTimers := runningTimers[dynamicGesture := 0.0];
        reachedKeyFrame := reachedKeyFrame[dynamicGesture := 0];
        assert Tables(runningTimers, reachedKeyFrame, recognized) == Put(before, dynamicGesture, Entry(Some(0.0), 0));
      } else {
        var nextKeyFrame := reachedKeyFrame[dynamicGesture] + 1;
        if nextKeyFrame < 0 || nextKeyFrame >= |dynamicGesture.orderedKeyFrames| {
          threw := true;
          return;
        }
        if dynamicGesture.orderedKeyFrames[nextKeyFrame].name == gesture.name {
          if nextKeyFrame == |dynamicGesture.orderedKeyFrames| - 1 {
            recognized := recognized + [dynamicGesture];
            runningTimers := runningTimers - {dynamicGesture};
            reachedKeyFrame := reachedKeyFrame[dynamicGesture := -1];
            assert Tables(runningTimers, reachedKeyFrame, announced) == Put(before, dynamicGesture, Inactive);
          } else {
            reachedKeyFrame := reachedKeyFrame[dynamicGesture := reachedKeyFrame[dynamicGesture] + 1];
            assert Tables(runningTimers, reachedKeyFrame, recognized) == Put(before, dynamicGesture, entry.(reached := nextKeyFrame));
          }
        } else {
          assert Tables(runningTimers, reachedKeyFrame, recognized) == Put(before, dynamicGesture, entry);
        }
      }
    }
  }
}
