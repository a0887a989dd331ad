/**
 The countdown of the web front end's `Timer` component. Its deadline is
 fixed once, at mount, five minutes ahead; while the component is active an
 interval shows `deadline - now` and emits 'flagged' on every tick at which
 that is not positive. Becoming inactive only stops the interval: the line
 that would move the deadline is commented out, so a pause does not stop the
 clock.

 The current time `now` (milliseconds) is a parameter of every step.
 */
module DeadlineTimer {
  import opened TimeFormat

  /**
   The display, the fixed deadline, and whether the interval runs. Every
   string the component shows is `formatTime` of some number of milliseconds
   (its initial "5:00" is that of five minutes), so the display is kept as
   that number, `shown`, and `Time` renders it.
   */
  datatype Timer = Timer(shown: int, deadline: int, active: bool)

  /** The `time` state, the string on screen. */
  function Time(t: Timer): string {
    FormatTime(t.shown)
  }

  /** A timer mounted at `now`: deadline five minutes ahead, showing the time to it. */
  function Mount(now: int): (t: Timer)
    ensures t.deadline - now == 300000
    ensures t.shown == t.deadline - now
    ensures !t.active
  {
    Timer(5 * 60 * 1000, now + 5 * 60 * 1000, false)
  }

  /** The initial state of `time` is "5:00". */
  lemma MountShowsFiveMinutes(now: int)
    ensures Time(Mount(now)) == "5:00"
  {
    FormatInitialBudget();
  }

  /** The `active` prop changing: the interval starts or stops; nothing else moves. */
  function SetActive(t: Timer, active: bool): (t': Timer)
    ensures t'.active == active
    ensures t'.deadline == t.deadline && t'.shown == t.shown
  {
    t.(active := active)
  }

  /** One tick at `now`: shows the time to the deadline and emits 'flagged' once it is not positive. */
  function Tick(t: Timer, now: int): (r: (Timer, bool))
    ensures r.0.deadline == t.deadline && r.0.active == t.active
    ensures !t.active ==> r == (t, false)
    ensures t.active ==> (r.1 <==> now >= t.deadline) && r.0.shown == t.deadline - now
  {
    if !t.active then (t, false)
    else (t.(shown := t.deadline - now), t.deadline - now <= 0)
  }

  /** What can happen to a mounted timer. */
  datatype Event = Activate | Deactivate | TickAt(now: int)

  /** A sequence of events: the final timer and how many 'flagged' emissions there were. */
  function Run(t: Timer, events: seq<Event>): (Timer, nat)
    decreases |events|
  {
    if |events| == 0 then (t, 0)
    else
      var step :=
        match events[0]
        case Activate => (SetActive(t, true), false)
        case Deactivate => (SetActive(t, false), false)
        case TickAt(now) => Tick(t, now);
      var rest := Run(step.0, events[1..]);
      (rest.0, rest.1 + if step.1 then 1 else 0)
  }

  /** The number of ticks at or after `deadline` among those that find the timer active. */
  function ExpiredTicks(t: Timer, events: seq<Event>): nat
    decreases |events|
  {
    if |events| == 0 then 0
    else
      var active :=
        match events[0]
        case Activate => true
        case Deactivate => false
        case TickAt(_) => t.active;
      var expired := events[0].TickAt? && t.active && events[0].now >= t.deadline;
      ExpiredTicks(t.(active := active), events[1..]) + if expired then 1 else 0
  }

  /**
   No sequence of pauses and ticks moves the deadline, so the time shown at
   any later tick is measured from the mount, not from the time played.
   */
  lemma {:induction false} DeadlineIsFixed(t: Timer, events: seq<Event>)
    ensures Run(t, events).0.deadline == t.deadline
    decreases |events|
  {
    if |events| > 0 {
      var step :=
        match events[0]
        case Activate => (SetActive(t, true), false)
        case Deactivate => (SetActive(t, false), false)
        case TickAt(now) => Tick(t, now);
      DeadlineIsFixed(step.0, events[1..]);
    }
  }

  /** Whatever happened since the mount at `mounted`, an active tick at `now` shows the time left to `mounted` + 5 minutes. */
  lemma TickIgnoresPauses(mounted: int, events: seq<Event>, now: int)
    requires Run(Mount(mounted), events).0.active
    ensures Time(Tick(Run(Mount(mounted), events).0, now).0) == FormatTime(mounted + 300000 - now)
  {
    var t0 := Mount(mounted);
    assert t0.deadline == mounted + 300000;
    DeadlineIsFixed(t0, events);
    assert Tick(Run(t0, events).0, now).0.shown == mounted + 300000 - now;
  }

  /** 'flagged' is emitted again on every active tick at or past the deadline, not once. */
  lemma {:induction false} FlagOnEveryExpiredTick(t: Timer, events: seq<Event>)
    ensures Run(t, events).1 == ExpiredTicks(t, events)
    decreases |events|
  {
    if |events| > 0 {
      var step :=
        match events[0]
        case Activate => (SetActive(t, true), false)
        case Deactivate => (SetActive(t, false), false)
        case TickAt(now) => Tick(t, now);
      var active :=
        match events[0]
        case Activate => true
        case Deactivate => false
        case TickAt(_) => t.active;
      FlagOnEveryExpiredTick(step.0, events[1..]);
      assert ExpiredTicks(step.0, events[1..]) == ExpiredTicks(t.(active := active), events[1..]) by {
        ExpiredTicksIgnoresDisplay(step.0, t.(active := active), events[1..]);
      }
    }
  }

  /** The count of expired ticks depends on the deadline and activity, not on what is displayed. */
  lemma {:induction false} ExpiredTicksIgnoresDisplay(t: Timer, u: Timer, events: seq<Event>)
    requires t.deadline == u.deadline && t.active == u.active
    ensures ExpiredTicks(t, events) == ExpiredTicks(u, events)
    decreases |events|
  {
    if |events| > 0 {
      var active :=
        match events[0]
        case Activate => true
        case Deactivate => false
        case TickAt(_) => t.active;
      ExpiredTicksIgnoresDisplay(t.(active := active), u.(active := active), events[1..]);
    }
  }

  /** One millisecond after the deadline the display reads "-1:0-1". */
  lemma ExpiredDisplayGarbled(t: Timer)
    requires t.active
    ensures Time(Tick(t, t.deadline + 1).0) == "-1:0-1"
  {
    FormatJustExpired();
  }

  /** The tick as evidently intended: the remainder shown is clamped at zero. */
  function TickClamped(t: Timer, now: int): (r: (Timer, bool))
    ensures r.0.deadline == t.deadline && r.0.active == t.active
    ensures !t.active ==> r == (t, false)
    ensures t.active ==> (r.1 <==> now >= t.deadline)
    ensures t.active && now < t.deadline ==> r.0 == Tick(t, now).0
    ensures t.active && now >= t.deadline ==> r.0.shown == 0
  {
    if !t.active then (t, false)
    else
      var newTime := t.deadline - now;
      (t.(shown := if newTime <= 0 then 0 else newTime), newTime <= 0)
  }

  /** With the clamp, every tick shows a well-formed `m:ss`, and "0:00" once the deadline has passed. */
  lemma ClampedDisplayWellFormed(t: Timer, now: int)
    requires t.active
    ensures ParseClock(Time(TickClamped(t, now).0)).Some?
    ensures now >= t.deadline ==> Time(TickClamped(t, now).0) == "0:00"
  {
    FormatTimeRoundTrip(TickClamped(t, now).0.shown);
    FormatZero();
  }
}
