/** The updatable timer of updatable_timer/updatable_timer_lib.py under a clock and updates of its wake-up time. */
module UpdatableTimer {
  import opened Wrappers

  datatype Phase =
    | Awake                      // at the head of the loop
    | Parked(deadline: int)      // in wait_condition, with a timeout
    | Returned(at: int)

  datatype Timer = Timer(wakeUp: int, updated: bool, now: int, phase: Phase)

  datatype Event = Iterates | Wakes | Updated(wakeUp: int) | Ticks(now: int)

  function NewTimer(wakeUp: int, now: int): Timer {
    Timer(wakeUp, false, now, Awake)
  }

  predicate Enabled(t: Timer, e: Event) {
    match e
    case Iterates => t.phase.Awake?
    case Wakes => t.phase.Parked? && (t.updated || t.phase.deadline <= t.now)
    case Updated(_) => !t.phase.Returned?
    case Ticks(now) => t.now <= now && !t.phase.Returned?
  }

  function Apply(t: Timer, e: Event): Timer
    requires Enabled(t, e)
  {
    match e
    case Iterates =>
      var interval := t.wakeUp - t.now;
      if interval <= 0 then t.(phase := Returned(t.now))
      else t.(updated := false, phase := Parked(t.now + interval))
    case Wakes => t.(phase := Awake)
    case Updated(w) => t.(wakeUp := w, updated := true)
    case Ticks(now) => t.(now := now)
  }

  predicate Run(t: Timer, es: seq<Event>)
    decreases |es|
  {
    es == [] || (Enabled(t, es[0]) && Run(Apply(t, es[0]), es[1..]))
  }

  function Exec(t: Timer, es: seq<Event>): Timer
    requires Run(t, es)
    decreases |es|
  {
    if es == [] then t else Exec(Apply(t, es[0]), es[1..])
  }

  predicate Invariant(t: Timer) {
    match t.phase
    case Awake => true
    case Parked(deadline) => t.updated || deadline == t.wakeUp
    case Returned(at) => t.wakeUp <= at == t.now
  }

  lemma {:induction false} RunKeepsInvariant(t: Timer, es: seq<Event>)
    requires Invariant(t) && Run(t, es)
    ensures Invariant(Exec(t, es))
    decreases |es|
  {
    if es != [] {
      RunKeepsInvariant(Apply(t, es[0]), es[1..]);
    }
  }

  /** The wake-up time of the last update, or the one to begin with. */
  function LastWakeUp(wakeUp: int, es: seq<Event>): int
    decreases |es|
  {
    if es == [] then wakeUp
    else LastWakeUp(if es[0].Updated? then es[0].wakeUp else wakeUp, es[1..])
  }

  /** The time of the last tick of the clock. */
  function LastTick(now: int, es: seq<Event>): int
    decreases |es|
  {
    if es == [] then now
    else LastTick(if es[0].Ticks? then es[0].now else now, es[1..])
  }

  lemma {:induction false} LatestInForce(t: Timer, es: seq<Event>)
    requires Run(t, es)
    ensures Exec(t, es).wakeUp == LastWakeUp(t.wakeUp, es) && Exec(t, es).now == LastTick(t.now, es)
    decreases |es|
  {
    if es != [] {
      LatestInForce(Apply(t, es[0]), es[1..]);
    }
  }

  /** An update of a parked timer wakes it. */
  lemma UpdateWakes(t: Timer, w: int)
    requires t.phase.Parked?
    ensures Enabled(t, Updated(w)) && Enabled(Apply(t, Updated(w)), Wakes)
    ensures var awake := Apply(Apply(t, Updated(w)), Wakes);
            Enabled(awake, Iterates)
            && Apply(awake, Iterates).phase == if w <= t.now then Returned(t.now) else Parked(w)
  {
  }

  /** What the timer itself still has to do when nothing else happens. */
  function OwnSteps(t: Timer): seq<Event> {
    if t.phase.Awake? then [Iterates] else [Wakes, Iterates]
  }

  lemma OwnStepsEnd(t: Timer)
    requires Invariant(t) && t.wakeUp <= t.now && !t.phase.Returned?
    ensures Run(t, OwnSteps(t)) && Exec(t, OwnSteps(t)).phase == Returned(t.now)
  {
    var awake := t.(phase := Awake);
    var done := awake.(phase := Returned(t.now));
    assert Apply(awake, Iterates) == done;
    assert Run(done, []) && Exec(done, []) == done;
    assert [Iterates][1..] == [] && [Wakes, Iterates][1..] == [Iterates];
    assert Run(awake, [Iterates]) && Exec(awake, [Iterates]) == done;
    if t.phase.Parked? {
      assert Enabled(t, Wakes) && Apply(t, Wakes) == awake;
    }
  }

  /**
   For any updates and clock ticks, with the wake-up time of the last update and the time of the last
   tick: the timer has returned only at or after that wake-up time; while it is parked an update is
   pending or the deadline is that time; and once it has come the timer can return in at most two
   steps of its own.
   */
  lemma NeverEarlyNeverStuck(wakeUp: int, now: int, es: seq<Event>)
    requires Run(NewTimer(wakeUp, now), es)
    ensures var t := Exec(NewTimer(wakeUp, now), es); var due, time := LastWakeUp(wakeUp, es), LastTick(now, es);
            && (t.phase.Returned? ==> due <= t.phase.at == time)
            && (t.phase.Parked? ==> t.updated || t.phase.deadline == due)
            && (due <= time && !t.phase.Returned? ==>
                  Run(t, OwnSteps(t)) && Exec(t, OwnSteps(t)).phase == Returned(time))
            && (time < due && t.phase.Awake? ==>
                  Apply(t, Iterates).phase == Parked(due) && !Enabled(Apply(t, Iterates), Wakes))
            && (time < due && t.phase.Parked? ==> (Enabled(t, Wakes) ==> t.updated))
  {
    var t := Exec(NewTimer(wakeUp, now), es);
    LatestInForce(NewTimer(wakeUp, now), es);
    RunKeepsInvariant(NewTimer(wakeUp, now), es);
    if t.wakeUp <= t.now && !t.phase.Returned? {
      OwnStepsEnd(t);
    }
  }

  /** A parked timer stays as it is until an update is pending or its deadline has come. */
  lemma ParkedUntil(t: Timer, e: Event)
    requires t.phase.Parked? && Enabled(t, e) && Apply(t, e).phase != t.phase
    ensures (t.updated || t.phase.deadline <= t.now) && Apply(t, e).phase.Awake?
  {
  }

  /** From every reachable state a timer left alone returns exactly at the wake-up time in force. */
  lemma SleepsOut(wakeUp: int, now: int, es: seq<Event>) returns (rest: seq<Event>)
    requires Run(NewTimer(wakeUp, now), es) && !Exec(NewTimer(wakeUp, now), es).phase.Returned?
    requires LastTick(now, es) <= LastWakeUp(wakeUp, es)
    ensures var t := Exec(NewTimer(wakeUp, now), es); var due := LastWakeUp(wakeUp, es);
            rest == [Ticks(due)] + OwnSteps(t) && Run(t, rest) && Exec(t, rest).phase == Returned(due)
  {
    var t := Exec(NewTimer(wakeUp, now), es);
    RunKeepsInvariant(NewTimer(wakeUp, now), es);
    LatestInForce(NewTimer(wakeUp, now), es);
    var t' := Apply(t, Ticks(t.wakeUp));
    OwnStepsEnd(t');
    rest := [Ticks(t.wakeUp)] + OwnSteps(t);
    assert rest[1..] == OwnSteps(t');
  }

  class UpdatableTimerObject {
    var wakeUpTime: int
    var wakeUpTimeUpdated: bool

    constructor (wakeUpTime: int)
      ensures this.wakeUpTime == wakeUpTime && !wakeUpTimeUpdated
    {
      this.wakeUpTime := wakeUpTime;
      wakeUpTimeUpdated := false;
    }

    method UpdateWakeUpTime(t: int)
      modifies this
      ensures wakeUpTime == t && wakeUpTimeUpdated
      ensures forall now, phase: Phase | !phase.Returned? ::
                Apply(Timer(old(wakeUpTime), old(wakeUpTimeUpdated), now, phase), Updated(t))
                == Timer(wakeUpTime, wakeUpTimeUpdated, now, phase)
    {
      wakeUpTime := t;
      wakeUpTimeUpdated := true;
    }

    /** One turn of the loop: None when the sleep is over, else the timeout to wait with. */
    method Iterate(now: int) returns (timeout: Option<int>)
      modifies this
      ensures wakeUpTime == old(wakeUpTime)
      ensures timeout.None? <==> wakeUpTime <= now
      ensures timeout.None? ==> wakeUpTimeUpdated == old(wakeUpTimeUpdated)
      ensures timeout.Some? ==> !wakeUpTimeUpdated && now + timeout.value == wakeUpTime
      ensures Apply(Timer(old(wakeUpTime), old(wakeUpTimeUpdated), now, Awake), Iterates)
              == Timer(wakeUpTime, wakeUpTimeUpdated, now,
                       if timeout.None? then Returned(now) else Parked(now + timeout.value))
    {
      var sleepInterval := wakeUpTime - now;
      if sleepInterval <= 0 {
        return None;
      }
      wakeUpTimeUpdated := false;
      timeout := Some(sleepInterval);
    }
  }
}
