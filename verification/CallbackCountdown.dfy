/** How long a ChoreographerThread keeps asking for choreographer callbacks. */
module CallbackCountdown {
  const MAX_CALLBACKS_BEFORE_IDLE := 10

  /** `left` is mCallbacksBeforeIdle; `outstanding` counts the callbacks that were scheduled and
      not yet taken up by onChoreographer. */
  datatype Countdown = Countdown(left: int, outstanding: int) {
    ghost predicate Valid() {
      && 0 <= left <= MAX_CALLBACKS_BEFORE_IDLE
      && outstanding == if left > 0 then 1 else 0
    }

    function Post(): Countdown {
      Countdown(MAX_CALLBACKS_BEFORE_IDLE, if left == 0 then outstanding + 1 else outstanding)
    }

    function Fire(): Countdown {
      Countdown(left - 1, outstanding - 1 + if left - 1 > 0 then 1 else 0)
    }
  }

  class ChoreographerThread {
    var callbacksBeforeIdle: int
    ghost var outstanding: int

    ghost function State(): Countdown
      reads this
    {
      Countdown(callbacksBeforeIdle, outstanding)
    }

    constructor ()
      ensures State().Valid() && State() == Countdown(0, 0)
    {
      callbacksBeforeIdle, outstanding := 0, 0;
    }

    ghost method ScheduleNextFrameCallback()
      modifies `outstanding
      ensures outstanding == old(outstanding) + 1
    {
      outstanding := outstanding + 1;
    }

    method PostFrameCallbacks()
      requires State().Valid()
      modifies this
      ensures State().Valid() && State() == old(State()).Post()
    {
      if callbacksBeforeIdle == 0 {
        ScheduleNextFrameCallback();
      }
      callbacksBeforeIdle := MAX_CALLBACKS_BEFORE_IDLE;
    }

    /** Runs once for each scheduled callback. */
    method OnChoreographer()
      requires State().Valid() && outstanding > 0
      modifies this
      ensures State().Valid() && State() == old(State()).Fire()
    {
      outstanding := outstanding - 1;
      callbacksBeforeIdle := callbacksBeforeIdle - 1;
      if callbacksBeforeIdle > 0 {
        ScheduleNextFrameCallback();
      }
    }
  }

  /** The events on one thread object: a swap posts, the choreographer fires. */
  datatype Event = Swap | Vsync

  ghost predicate Reaches(c: Countdown, events: seq<Event>, d: Countdown)
    decreases |events|
  {
    if events == [] then c == d
    else if events[0] == Swap then Reaches(c.Post(), events[1..], d)
    else c.outstanding > 0 && Reaches(c.Fire(), events[1..], d)
  }

  function TrailingVsyncs(events: seq<Event>): nat {
    if events == [] || events[|events| - 1] == Swap then 0
    else 1 + TrailingVsyncs(events[..|events| - 1])
  }

  lemma {:induction false} ReachesPrefix(c: Countdown, events: seq<Event>, d: Countdown) returns (m: Countdown)
    requires events != [] && Reaches(c, events, d)
    ensures Reaches(c, events[..|events| - 1], m)
    ensures if events[|events| - 1] == Swap then d == m.Post() else m.outstanding > 0 && d == m.Fire()
    decreases |events|
  {
    if |events| == 1 {
      m := c;
      assert Reaches(if events[0] == Swap then c.Post() else c.Fire(), events[1..], d);
    } else {
      var c' := if events[0] == Swap then c.Post() else c.Fire();
      m := ReachesPrefix(c', events[1..], d);
      assert events[1..][..|events| - 2] == events[..|events| - 1][1..];
    }
  }

  /** In every run at most one callback is outstanding, and the count left is ten minus the
      callbacks since the last swap: the thread goes idle with the tenth, not before. */
  lemma {:induction false} IdleAfterTenVsyncs(c: Countdown, events: seq<Event>, d: Countdown)
    requires c == Countdown(0, 0) && Reaches(c, events, d)
    ensures d.Valid()
    ensures d.left == if Swap in events then 10 - TrailingVsyncs(events) else 0
    ensures d.outstanding == 0 <==> Swap !in events || TrailingVsyncs(events) == 10
    decreases |events|
  {
    if events != [] {
      var front := events[..|events| - 1];
      var m := ReachesPrefix(c, events, d);
      IdleAfterTenVsyncs(c, front, m);
      assert events == front + [events[|events| - 1]];
    }
  }
}
