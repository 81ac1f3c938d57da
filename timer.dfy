/**
 * `FlowtimeTimer` as an object: the fields of its `state` record updated in
 * place by `updateTimer`, `startWork`, `startBreak` and `stopTimer`, and the
 * host's interval timers it starts and clears. Each method is proved to
 * perform the transition `Session` defines, so every lemma there applies.
 */
module Timer {
  import opened Common
  import opened JsText
  import Session

  /** The host's interval timers, which `setInterval` and `clearInterval` update. */
  class IntervalScheduler {
    var live: set<Session.Handle>
    var next: Session.Handle

    function Model(): Session.Scheduler
      reads this
    {
      Session.Scheduler(live, next)
    }

    constructor ()
      ensures Model() == Session.Scheduler({}, 0)
    {
      live := {};
      next := 0;
    }

    /** `setInterval(...)`: a handle never issued before, live from now on. */
    method SetInterval() returns (h: Session.Handle)
      modifies this
      ensures (h, Model()) == Session.Schedule(old(Model()))
    {
      h := next;
      live := live + {h};
      next := next + 1;
    }

    /** `clearInterval(h)`: no effect on `null` or on an interval already cleared. */
    method ClearInterval(h: Option<Session.Handle>)
      modifies this
      ensures Model() == Session.Cancel(old(Model()), h)
      ensures live <= old(live)
    {
      live := live - Session.HandleSet(h);
    }
  }

  class FlowtimeTimer {
    var interval: Option<Session.Handle>
    var startTime: Option<int>
    var elapsedSeconds: int
    var isBreak: bool
    var lastWorkDuration: int
    var recommendedBreak: int
    const scheduler: IntervalScheduler

    /** The `state` record together with the interval timers. */
    function Snapshot(): Session.Snapshot
      reads this, scheduler
    {
      Session.Snapshot(
        Session.State(interval, startTime, elapsedSeconds, isBreak, lastWorkDuration, recommendedBreak),
        scheduler.Model())
    }

    /** At most the held interval is live. */
    ghost predicate Valid()
      reads this, scheduler
    {
      Session.Valid(Snapshot())
    }

    /** `new FlowtimeTimer()`: the state of `getInitialState()`, no interval running. */
    constructor ()
      ensures Valid() && fresh(scheduler)
      ensures Snapshot() == Session.Initial()
    {
      scheduler := new IntervalScheduler();
      interval := None;
      startTime := None;
      elapsedSeconds := 0;
      isBreak := false;
      lastWorkDuration := 0;
      recommendedBreak := 0;
    }

    /** `updateTimer()` at clock reading `now`. */
    method UpdateTimer(now: int)
      modifies this
      ensures Snapshot() == Session.Tick(old(Snapshot()), now)
      ensures old(Valid()) ==> Valid()
    {
      elapsedSeconds := Session.ElapsedSeconds(Session.StartOrZero(startTime), now);
      if !isBreak {
        recommendedBreak := Session.RecommendedBreak(elapsedSeconds);
      }
    }

    /**
     * `startWork()` with the task field's text, at clock reading `now`; the
     * previous interval is cleared before the new one is set.
     */
    method StartWork(task: string, now: int)
      requires Valid()
      modifies this, scheduler
      ensures Valid()
      ensures Snapshot() == Session.StartWork(old(Snapshot()), task, now)
    {
      var taskValue := Trim(task);
      if taskValue == [] {
        return;
      }
      scheduler.ClearInterval(interval);
      startTime := Some(now);
      isBreak := false;
      elapsedSeconds := 0;
      var h := scheduler.SetInterval();
      interval := Some(h);
    }

    /** `startBreak()` at clock reading `now`, from whatever state the timer is in. */
    method StartBreak(now: int)
      requires Valid()
      modifies this, scheduler
      ensures Valid()
      ensures Snapshot() == Session.StartBreak(old(Snapshot()), now)
    {
      lastWorkDuration := elapsedSeconds;
      recommendedBreak := Session.RecommendedBreak(lastWorkDuration);
      scheduler.ClearInterval(interval);
      startTime := Some(now);
      elapsedSeconds := 0;
      isBreak := true;
      var h := scheduler.SetInterval();
      interval := Some(h);
    }

    /** `stopTimer()`: afterwards no interval is live. */
    method StopTimer()
      requires Valid()
      modifies this, scheduler
      ensures Valid() && scheduler.live == {}
      ensures Snapshot() == Session.Stop(old(Snapshot()))
    {
      scheduler.ClearInterval(interval);
      if !isBreak {
        lastWorkDuration := elapsedSeconds;
      }
      elapsedSeconds := 0;
    }
  }
}
