/**
 The countdown of the game client's `Timer` component. The component keeps
 the remaining budget in a ref; each time it becomes active it notes the
 start time and starts an interval whose tick recomputes the remaining time
 from the budget and the time elapsed since the start. When it becomes
 inactive the last remaining time computed becomes the new budget.

 The clock is not read by the model: every tick and every activation takes
 the current time `now` in milliseconds as a parameter.
 */
module ClientTimer {
  import opened Common
  import opened TimeFormat

  /** `OutcomeType.by`, how the game ended. */
  datatype Ending = Pending | Checkmate | Stalemate | Resigned | Flag

  /** `OutcomeType.winner`, from the point of view of the local user. */
  datatype Winner = Undecided | LocalUser | Opponent | Draw

  datatype Outcome = Outcome(ending: Ending, winner: Winner)

  /**
   One active spell of the component: when it started, the last remaining
   time a tick computed (`newTime`), and whether its interval still runs.
   */
  datatype Spell = Spell(started: int, newTime: int, ticking: bool)

  /**
   The display, the budget ref `timeLeft`, and the spell while active. Every
   string the component shows is `formatTime` of some number of milliseconds
   ("5:00" of five minutes, "0:00" of zero), so the display is kept as that
   number, `shown`, and `Time` renders it.
   */
  datatype Timer = Timer(shown: int, timeLeft: int, spell: Option<Spell>)

  /** The `time` state, the string on screen. */
  function Time(t: Timer): string {
    FormatTime(t.shown)
  }

  /** What one interval tick does: the next timer, whether 'flagged' was emitted, the outcome set. */
  datatype TickResult = TickResult(timer: Timer, flagged: bool, outcome: Option<Outcome>)

  /** A freshly mounted timer: five minutes in the budget, and the budget on display. */
  function Mount(): (t: Timer)
    ensures t.spell == None
    ensures t.shown == t.timeLeft
    ensures t.timeLeft == 300000
  {
    Timer(5 * 60 * 1000, 5 * 60 * 1000, None)
  }

  /** The initial state of `time` is "5:00". */
  lemma MountShowsFiveMinutes()
    ensures Time(Mount()) == "5:00"
  {
    FormatInitialBudget();
  }

  /** The effect on becoming active: a spell starts at `now` with the current budget. */
  function Activate(t: Timer, now: int): (t': Timer)
    ensures t.spell.Some? ==> t' == t
    ensures t.spell.None? ==> t'.spell == Some(Spell(now, t.timeLeft, true))
    ensures t'.timeLeft == t.timeLeft && t'.shown == t.shown
  {
    if t.spell.Some? then t else t.(spell := Some(Spell(now, t.timeLeft, true)))
  }

  /**
   One interval tick at `now`: remaining = budget - elapsed. A positive
   remainder is displayed; otherwise the timer emits 'flagged', shows "0:00",
   records a flag loss for whoever this timer belongs to (`me`), and stops.
   */
  function Tick(t: Timer, now: int, me: bool): (r: TickResult)
    ensures !(t.spell.Some? && t.spell.value.ticking) ==> r == TickResult(t, false, None)
    ensures r.timer.timeLeft == t.timeLeft
    ensures t.spell.Some? && t.spell.value.ticking ==>
              var remaining := t.timeLeft - (now - t.spell.value.started);
              && r.timer.spell == Some(Spell(t.spell.value.started, remaining, remaining > 0))
              && (r.flagged <==> remaining <= 0)
              && (r.flagged ==> r.timer.shown == 0 &&
                                r.outcome == Some(Outcome(Flag, if me then Opponent else LocalUser)))
              && (!r.flagged ==> r.timer.shown == remaining && r.outcome == None)
  {
    match t.spell
    case Some(spell) =>
      if !spell.ticking then TickResult(t, false, None)
      else
        var elapsed := now - spell.started;
        var newTime := t.timeLeft - elapsed;
        if newTime <= 0 then
          TickResult(t.(shown := 0, spell := Some(spell.(newTime := newTime, ticking := false))),
                     true, Some(Outcome(Flag, if me then Opponent else LocalUser)))
        else
          TickResult(t.(shown := newTime, spell := Some(spell.(newTime := newTime))), false, None)
    case None => TickResult(t, false, None)
  }

  /** What a running tick puts on screen: the remaining time while some is left, "0:00" once it is up. */
  lemma TickDisplay(t: Timer, now: int, me: bool)
    requires t.spell.Some? && t.spell.value.ticking
    ensures var remaining := t.timeLeft - (now - t.spell.value.started);
            && (remaining <= 0 ==> Time(Tick(t, now, me).timer) == "0:00")
            && (remaining > 0 ==> Time(Tick(t, now, me).timer) == FormatTime(remaining))
  {
    var r := Tick(t, now, me).timer;
    var remaining := t.timeLeft - (now - t.spell.value.started);
    assert r.shown == if remaining <= 0 then 0 else remaining;
    ShownIsFormatted(r, if remaining <= 0 then 0 else remaining);
    FormatZero();
  }

  /** The display of a timer is the formatted milliseconds it holds. */
  lemma ShownIsFormatted(t: Timer, ms: int)
    requires t.shown == ms
    ensures Time(t) == FormatTime(ms)
  {
  }

  /** The effect's cleanup on becoming inactive: the last computed remainder becomes the budget. */
  function Deactivate(t: Timer): (t': Timer)
    ensures t'.spell == None && t'.shown == t.shown
    ensures t.spell.Some? ==> t'.timeLeft == t.spell.value.newTime
    ensures t.spell.None? ==> t' == t
  {
    match t.spell
    case Some(spell) => t.(timeLeft := spell.newTime, spell := None)
    case None => t
  }

  /** A sequence of ticks: the final timer and how many of them emitted 'flagged'. */
  function Ticks(t: Timer, times: seq<int>, me: bool): (Timer, nat)
    decreases |times|
  {
    if |times| == 0 then (t, 0)
    else
      var r := Tick(t, times[0], me);
      var rest := Ticks(r.timer, times[1..], me);
      (rest.0, rest.1 + if r.flagged then 1 else 0)
  }

  /** Ticks never touch the budget or the start of the spell, nor start or end it. */
  lemma {:induction false} TicksKeepBudget(t: Timer, times: seq<int>, me: bool)
    ensures Ticks(t, times, me).0.timeLeft == t.timeLeft
    ensures Ticks(t, times, me).0.spell.Some? <==> t.spell.Some?
    ensures t.spell.Some? ==> Ticks(t, times, me).0.spell.value.started == t.spell.value.started
    decreases |times|
  {
    if |times| > 0 {
      TicksKeepBudget(Tick(t, times[0], me).timer, times[1..], me);
    }
  }

  /** Once the interval has stopped, ticks do nothing. */
  lemma {:induction false} StoppedTicksAreIdle(t: Timer, times: seq<int>, me: bool)
    requires !(t.spell.Some? && t.spell.value.ticking)
    ensures Ticks(t, times, me) == (t, 0)
    decreases |times|
  {
    if |times| > 0 {
      StoppedTicksAreIdle(t, times[1..], me);
    }
  }

  /** Within one spell 'flagged' is emitted at most once. */
  lemma {:induction false} FlagAtMostOnce(t: Timer, times: seq<int>, me: bool)
    ensures Ticks(t, times, me).1 <= 1
    decreases |times|
  {
    if |times| > 0 {
      var r := Tick(t, times[0], me);
      if r.flagged {
        StoppedTicksAreIdle(r.timer, times[1..], me);
      } else {
        FlagAtMostOnce(r.timer, times[1..], me);
      }
    }
  }

  /** Ticks that all leave time on the clock record the remainder as of the last one. */
  lemma {:induction false} TicksRecordLastRemainder(t: Timer, times: seq<int>, me: bool)
    requires t.spell.Some? && t.spell.value.ticking
    requires |times| > 0
    requires forall i :: 0 <= i < |times| ==> t.timeLeft - (times[i] - t.spell.value.started) > 0
    ensures Ticks(t, times, me).0.spell ==
            Some(Spell(t.spell.value.started, t.timeLeft - (times[|times| - 1] - t.spell.value.started), true))
    ensures Ticks(t, times, me).1 == 0
    decreases |times|
  {
    var r := Tick(t, times[0], me);
    if |times| > 1 {
      TicksRecordLastRemainder(r.timer, times[1..], me);
    }
  }

  /**
   A whole spell — activated at `start`, ticked at `times` with time left on
   each tick, then deactivated — charges the budget with the time from the
   start to the last tick.
   */
  lemma SpellChargesUpToLastTick(t: Timer, start: int, times: seq<int>, me: bool)
    requires t.spell.None?
    requires |times| > 0
    requires forall i :: 0 <= i < |times| ==> t.timeLeft - (times[i] - start) > 0
    ensures Deactivate(Ticks(Activate(t, start), times, me).0).timeLeft ==
            t.timeLeft - (times[|times| - 1] - start)
  {
    TicksRecordLastRemainder(Activate(t, start), times, me);
  }

  /**
   A spell deactivated before its first tick (the interval fires every 900 ms)
   leaves the budget as it was, however long the spell lasted.
   */
  lemma UntickedSpellIsFree(t: Timer, start: int)
    requires t.spell.None?
    ensures Deactivate(Activate(t, start)).timeLeft == t.timeLeft
  {
  }

  /** The cleanup as evidently intended: charge the whole time since the spell started. */
  function DeactivateAt(t: Timer, now: int): (t': Timer)
    ensures t'.spell == None && t'.shown == t.shown
    ensures t.spell.Some? ==> t'.timeLeft == t.timeLeft - (now - t.spell.value.started)
    ensures t.spell.None? ==> t' == t
  {
    match t.spell
    case Some(spell) => t.(timeLeft := t.timeLeft - (now - spell.started), spell := None)
    case None => t
  }

  /** With the intended cleanup, a spell costs exactly its duration, whatever ticks happened in it. */
  lemma SpellChargesItsDuration(t: Timer, start: int, times: seq<int>, stop: int, me: bool)
    requires t.spell.None?
    ensures DeactivateAt(Ticks(Activate(t, start), times, me).0, stop).timeLeft == t.timeLeft - (stop - start)
  {
    TicksKeepBudget(Activate(t, start), times, me);
  }
}
