/**
 * The story timer: the hand is tracked for the first 10 s, animated until
 * 20 s, and then the cycle starts over. Each change is announced through
 * `handStateEvent`, and the animator runs exactly while the hand is animated.
 */
module StoryProtocol {
  datatype HandState = Anim | Tracking

  const AnimAfter: real := 10.0
  const TrackingAfter: real := 20.0

  /** The state of the timer between two frames. */
  datatype Clock = Clock(state: HandState, timeCount: real)

  /** The clock after a frame, and the states announced during it, in order. */
  datatype Frame = Frame(clock: Clock, events: seq<HandState>)

  /** One frame of `Update`: both thresholds are tested in turn, then the frame time is added. */
  function Tick(c: Clock, dt: real): (f: Frame)
    ensures Anim in f.events <==> c.state == Tracking && c.timeCount > AnimAfter
    ensures Tracking in f.events <==> c.timeCount > TrackingAfter
    ensures f.clock.timeCount == (if Tracking in f.events then 0.0 else c.timeCount) + dt
    ensures |f.events| <= 2
  {
    var toAnim := c.timeCount > AnimAfter && c.state == Tracking;
    var state := if toAnim then Anim else c.state;
    var toTracking := c.timeCount > TrackingAfter && state == Anim;
    Frame(Clock(if toTracking then Tracking else state, (if toTracking then 0.0 else c.timeCount) + dt),
          (if toAnim then [Anim] else []) + (if toTracking then [Tracking] else []))
  }

  /** Successive frames. */
  function Run(c: Clock, dts: seq<real>): (f: Frame)
    decreases |dts|
  {
    if dts == [] then Frame(c, [])
    else
      var first := Tick(c, dts[0]);
      var rest := Run(first.clock, dts[1..]);
      Frame(rest.clock, first.events + rest.events)
  }

  /**
   * `events` is what a listener hears going from state `from` to state `to`:
   * every event is a change of state, and the last one is the state reached.
   */
  predicate Announces(from: HandState, events: seq<HandState>, to: HandState) {
    && (events == [] ==> to == from)
    && (events != [] ==> events[0] != from && events[|events| - 1] == to)
    && forall i :: 0 < i < |events| ==> events[i] != events[i - 1]
  }

  lemma TickAnnounces(c: Clock, dt: real)
    ensures Announces(c.state, Tick(c, dt).events, Tick(c, dt).clock.state)
  {
  }

  lemma AnnouncesConcat(a: HandState, e1: seq<HandState>, b: HandState, e2: seq<HandState>, c: HandState)
    requires Announces(a, e1, b) && Announces(b, e2, c)
    ensures Announces(a, e1 + e2, c)
  {
    var e := e1 + e2;
    forall i | 0 < i < |e| ensures e[i] != e[i - 1] {
      if i < |e1| {
        assert e[i] == e1[i] && e[i - 1] == e1[i - 1];
      } else if i == |e1| {
        assert e[i] == e2[0] && e[i - 1] == e1[|e1| - 1];
      } else {
        assert e[i] == e2[i - |e1|] && e[i - 1] == e2[i - 1 - |e1|];
      }
    }
  }

  /** Over any run, the listener hears alternating states that end in the state reached. */
  lemma {:induction false} RunAnnounces(c: Clock, dts: seq<real>)
    ensures Announces(c.state, Run(c, dts).events, Run(c, dts).clock.state)
    decreases |dts|
  {
    if dts != [] {
      var first := Tick(c, dts[0]);
      TickAnnounces(c, dts[0]);
      RunAnnounces(first.clock, dts[1..]);
      AnnouncesConcat(c.state, first.events, first.clock.state, Run(first.clock, dts[1..]).events,
                      Run(c, dts).clock.state);
    }
  }

  /** With frame times never negative, the count never goes negative and the hand is only animated after 10 s. */
  predicate Sound(c: Clock) {
    0.0 <= c.timeCount && (c.state == Anim ==> c.timeCount > AnimAfter)
  }

  lemma TickSound(c: Clock, dt: real)
    requires Sound(c) && 0.0 <= dt
    ensures Sound(Tick(c, dt).clock)
  {
  }

  lemma {:induction false} RunSound(c: Clock, dts: seq<real>)
    requires Sound(c)
    requires forall i :: 0 <= i < |dts| ==> 0.0 <= dts[i]
    ensures Sound(Run(c, dts).clock)
    decreases |dts|
  {
    if dts != [] {
      TickSound(c, dts[0]);
      RunSound(Tick(c, dts[0]).clock, dts[1..]);
    }
  }

  /** A frame that starts tracking past 20 s announces both changes. */
  lemma BothChangesInOneFrame(timeCount: real, dt: real)
    requires timeCount > TrackingAfter
    ensures Tick(Clock(Tracking, timeCount), dt) == Frame(Clock(Tracking, dt), [Anim, Tracking])
  {
  }

  class StoryController {
    var timeCount: real
    var state: HandState
    var animatorEnabled: bool

    /** Starts tracking with an empty count; the animator keeps its initial setting until the first frame. */
    constructor Start(animatorEnabled: bool)
      ensures state == Tracking && timeCount == 0.0 && this.animatorEnabled == animatorEnabled
      ensures Sound(Clock(state, timeCount))
    {
      timeCount := 0.0;
      state := Tracking;
      this.animatorEnabled := animatorEnabled;
    }

    /** One frame; `events` are the states passed to `handStateEvent`, in order. */
    method Update(dt: real) returns (events: seq<HandState>)
      modifies this
      ensures Clock(state, timeCount) == Tick(old(Clock(state, timeCount)), dt).clock
      ensures events == Tick(old(Clock(state, timeCount)), dt).events
      ensures animatorEnabled == (state == Anim)
    {
      events := [];
      if timeCount > AnimAfter && state == Tracking {
        events := events + [Anim];
        state := Anim;
      }
      if timeCount > TrackingAfter && state == Anim {
        events := events + [Tracking];
        state := Tracking;
        timeCount := 0.0;
      }
      ControlState();
      timeCount := timeCount + dt;
    }

    /** Runs the animator exactly while the hand is animated. */
    method ControlState()
      modifies this`animatorEnabled
      ensures animatorEnabled == (state == Anim)
    {
      if state == Tracking && animatorEnabled {
        animatorEnabled := false;
      }
      if state == Anim && !animatorEnabled {
        animatorEnabled := true;
      }
    }
  }
}
