/**
 * The flowtime session state machine of `FlowtimeTimer`, as pure
 * transitions on a snapshot: the `state` record the class mutates, and the
 * host's interval timers (`setInterval`/`clearInterval`), which decide
 * whether ticks keep arriving. The clock is the parameter `now`, in
 * milliseconds, as `Date.now()` returns it.
 */
module Session {
  import opened Common
  import opened JsText

  // ------------------------------------------------------------ the rules

  /** `Math.floor((now - start) / 1000)`: whole seconds between two millisecond timestamps, rounded down. */
  function ElapsedSeconds(startMs: int, nowMs: int): (r: int)
    ensures r * 1000 <= nowMs - startMs < r * 1000 + 1000
  {
    (nowMs - startMs) / 1000
  }

  /** `Math.ceil(work / 5)`: the flowtime break, one fifth of the work time rounded up. */
  function RecommendedBreak(workSeconds: int): (r: int)
    ensures 5 * r - 5 < workSeconds <= 5 * r
  {
    -((-workSeconds) / 5)
  }

  /** For a non-negative work time the break is `(work + 4) / 5`, and never negative. */
  lemma RecommendedBreakOfWork(workSeconds: int)
    requires workSeconds >= 0
    ensures RecommendedBreak(workSeconds) == (workSeconds + 4) / 5
    ensures RecommendedBreak(workSeconds) >= 0
  {
  }

  /** Examples of the one-fifth rule: a second of work already earns a second of break. */
  lemma RecommendedBreakExamples()
    ensures RecommendedBreak(0) == 0
    ensures RecommendedBreak(1) == 1
    ensures RecommendedBreak(25) == 5
    ensures RecommendedBreak(26) == 6
    ensures RecommendedBreak(130) == 26
  {
  }

  // ------------------------------------------------------- interval timers

  /** An interval handle, as `setInterval` returns it. */
  type Handle = nat

  /** The host's interval timers: the live ones, and the handle the next `setInterval` returns. */
  datatype Scheduler = Scheduler(live: set<Handle>, next: Handle)

  /** The handles an optional handle denotes. */
  function HandleSet(h: Option<Handle>): set<Handle> {
    if h.Some? then {h.value} else {}
  }

  /** `setInterval`: a new handle, live from now on. */
  function Schedule(sc: Scheduler): (Handle, Scheduler) {
    (sc.next, Scheduler(sc.live + {sc.next}, sc.next + 1))
  }

  /** `clearInterval(h)`: the interval stops; clearing `null` or a stopped interval does nothing. */
  function Cancel(sc: Scheduler, h: Option<Handle>): Scheduler {
    sc.(live := sc.live - HandleSet(h))
  }

  // ------------------------------------------------------------- the state

  /** The `state` record of `FlowtimeTimer`; `None` stands for JavaScript's `null`. */
  datatype State = State(
    interval: Option<Handle>,
    startTime: Option<int>,
    elapsedSeconds: int,
    isBreak: bool,
    lastWorkDuration: int,
    recommendedBreak: int)

  /** `getInitialState()`: idle, with no interval, no start time and every count at zero. */
  function InitialState(): (r: State)
    ensures r.interval.None? && r.startTime.None? && !r.isBreak
    ensures r.elapsedSeconds == 0 && r.lastWorkDuration == 0 && r.recommendedBreak == 0
  {
    State(None, None, 0, false, 0, 0)
  }

  /** The timer's state together with the host's interval timers. */
  datatype Snapshot = Snapshot(state: State, sched: Scheduler)

  /** A freshly constructed timer on a page with no interval timers yet. */
  function Initial(): (r: Snapshot)
    ensures Valid(r) && r.sched.live == {}
  {
    Snapshot(InitialState(), Scheduler({}, 0))
  }

  /** `now - null` is `now - 0` in JavaScript. */
  function StartOrZero(t: Option<int>): int {
    if t.Some? then t.value else 0
  }

  /**
   * At most one interval is live, and it is the one the state holds, so
   * stopping that one silences the timer; the held handle has been issued.
   */
  predicate Valid(w: Snapshot) {
    && w.sched.live <= HandleSet(w.state.interval)
    && (w.state.interval.Some? ==> w.state.interval.value < w.sched.next)
  }

  // ------------------------------------------------------- the transitions

  /**
   * `updateTimer()`: the elapsed time is derived from the start time alone,
   * and during work the break preview follows it; during a break the
   * recommendation captured at the break's start stays.
   */
  function Tick(w: Snapshot, now: int): (r: Snapshot)
    ensures r.state.elapsedSeconds * 1000 <= now - StartOrZero(w.state.startTime)
                                            < r.state.elapsedSeconds * 1000 + 1000
    ensures !w.state.isBreak ==>
              5 * r.state.recommendedBreak - 5 < r.state.elapsedSeconds <= 5 * r.state.recommendedBreak
    ensures w.state.isBreak ==> r.state.recommendedBreak == w.state.recommendedBreak
    ensures r.state.(elapsedSeconds := 0, recommendedBreak := 0)
            == w.state.(elapsedSeconds := 0, recommendedBreak := 0)
    ensures r.sched == w.sched
  {
    var e := ElapsedSeconds(StartOrZero(w.state.startTime), now);
    var s := w.state.(elapsedSeconds := e);
    w.(state := if s.isBreak then s else s.(recommendedBreak := RecommendedBreak(e)))
  }

  /**
   * `startWork()` with the previous interval cleared before the new one is
   * set. A task that trims to nothing changes nothing.
   */
  function StartWork(w: Snapshot, task: string, now: int): (r: Snapshot)
    ensures Valid(w) ==> Valid(r)
    ensures r.state.lastWorkDuration == w.state.lastWorkDuration
    ensures r.state.recommendedBreak == w.state.recommendedBreak
  {
    if Trim(task) == [] then w
    else
      var (h, sc) := Schedule(Cancel(w.sched, w.state.interval));
      Snapshot(w.state.(startTime := Some(now), isBreak := false, elapsedSeconds := 0, interval := Some(h)), sc)
  }

  /**
   * `startWork()` exactly as the source has it: a new interval is set
   * without clearing the one the state already holds, which stays live
   * beside the new one.
   */
  function StartWorkAsWritten(w: Snapshot, task: string, now: int): (r: Snapshot)
    ensures Trim(task) == [] ==> r == w
    ensures Trim(task) != [] ==> r.sched.live == w.sched.live + {w.sched.next}
  {
    if Trim(task) == [] then w
    else
      var (h, sc) := Schedule(w.sched);
      Snapshot(w.state.(startTime := Some(now), isBreak := false, elapsedSeconds := 0, interval := Some(h)), sc)
  }

  /**
   * `startBreak()`, from any state: the elapsed time becomes the last work
   * duration, the break is one fifth of it, and a break session starts.
   */
  function StartBreak(w: Snapshot, now: int): (r: Snapshot)
    ensures Valid(w) ==> Valid(r)
    ensures 5 * r.state.recommendedBreak - 5 < w.state.elapsedSeconds <= 5 * r.state.recommendedBreak
  {
    var last := w.state.elapsedSeconds;
    var sc := Cancel(w.sched, w.state.interval);
    var (h, sc') := Schedule(sc);
    Snapshot(State(Some(h), Some(now), 0, true, last, RecommendedBreak(last)), sc')
  }

  /**
   * `stopTimer()`: the interval is cleared (the handle stays in the state),
   * a work session's elapsed time is kept as the last work duration, and the
   * elapsed time returns to zero.
   */
  function Stop(w: Snapshot): (r: Snapshot)
    ensures r.sched.live <= w.sched.live
    ensures Valid(w) ==> Valid(r) && r.sched.live == {}
  {
    var s := w.state;
    Snapshot(
      s.(lastWorkDuration := if s.isBreak then s.lastWorkDuration else s.elapsedSeconds,
         elapsedSeconds := 0),
      Cancel(w.sched, s.interval))
  }

  /**
   * As written and corrected, `startWork` leaves the same `state` record
   * and issues the same handle; they differ only in whether the previous
   * interval is still live.
   */
  lemma StartWorkAsWrittenDiffers(w: Snapshot, task: string, now: int)
    ensures var a, c := StartWorkAsWritten(w, task, now), StartWork(w, task, now);
            a.state == c.state && a.sched.next == c.sched.next
            && (Trim(task) != [] ==> c.sched.live == a.sched.live - HandleSet(w.state.interval) + {w.sched.next})
  {
  }

  // --------------------------------------------------------- tick lemmas

  /** Several ticks in a row: each `now` in turn. */
  function Ticks(w: Snapshot, times: seq<int>): Snapshot
    decreases |times|
  {
    if times == [] then w else Ticks(Tick(w, times[0]), times[1..])
  }

  /** A tick overwrites everything an earlier tick computed. */
  lemma TickAbsorbs(w: Snapshot, a: int, b: int)
    ensures Tick(Tick(w, a), b) == Tick(w, b)
  {
  }

  /**
   * Elapsed time does not accumulate: after any number of ticks, the state
   * is what one tick at the last instant gives.
   */
  lemma {:induction false} TicksUseLastOnly(w: Snapshot, times: seq<int>, now: int)
    ensures Ticks(w, times + [now]) == Tick(w, now)
    decreases |times|
  {
    if times != [] {
      assert (times + [now])[1..] == times[1..] + [now];
      TicksUseLastOnly(Tick(w, times[0]), times[1..], now);
      TickAbsorbs(w, times[0], now);
    }
  }

  /** Ticks during a break change only the elapsed time. */
  lemma {:induction false} TicksDuringBreak(w: Snapshot, times: seq<int>)
    requires w.state.isBreak
    ensures Ticks(w, times).state.(elapsedSeconds := 0) == w.state.(elapsedSeconds := 0)
    ensures Ticks(w, times).sched == w.sched
    decreases |times|
  {
    if times != [] {
      TicksDuringBreak(Tick(w, times[0]), times[1..]);
    }
  }

  /**
   * Once a break starts, ticks leave the captured work duration and its
   * recommended break as they were.
   */
  lemma BreakRecommendationFixed(w: Snapshot, now: int, times: seq<int>)
    ensures var r := Ticks(StartBreak(w, now), times).state;
            r.isBreak && r.lastWorkDuration == w.state.elapsedSeconds
            && r.recommendedBreak == RecommendedBreak(w.state.elapsedSeconds)
  {
    TicksDuringBreak(StartBreak(w, now), times);
  }

  /** During work, after at least one tick, the preview is one fifth of the time since the start. */
  lemma WorkPreview(w: Snapshot, task: string, start: int, times: seq<int>, now: int)
    requires Trim(task) != []
    ensures var r := Ticks(StartWork(w, task, start), times + [now]).state;
            r.elapsedSeconds == ElapsedSeconds(start, now)
            && r.recommendedBreak == RecommendedBreak(ElapsedSeconds(start, now))
  {
    TicksUseLastOnly(StartWork(w, task, start), times, now);
  }

  // --------------------------------------------------- transition lemmas

  /** `startWork` is a no-op exactly when the task is blank. */
  lemma StartWorkNoOpIffBlank(w: Snapshot, task: string, now: int)
    ensures StartWork(w, task, now) == w <==> IsBlank(task)
  {
    TrimEmptyIffBlank(task);
  }

  /**
   * A started work session: the clock restarts at `now`, the last work
   * duration and the recommendation are left as they were, and the new
   * interval is one never issued before; when the timer was valid, it is
   * the only live one.
   */
  lemma StartWorkSession(w: Snapshot, task: string, now: int)
    requires !IsBlank(task)
    ensures var r := StartWork(w, task, now);
            r.state.interval == Some(w.sched.next) && r.sched.next == w.sched.next + 1
            && r.state.startTime == Some(now) && r.state.elapsedSeconds == 0 && !r.state.isBreak
            && r.state.lastWorkDuration == w.state.lastWorkDuration
            && r.state.recommendedBreak == w.state.recommendedBreak
            && (Valid(w) ==> Valid(r) && r.sched.live == {r.state.interval.value}
                             && r.state.interval.value !in w.sched.live
                             && r.state.interval != w.state.interval)
  {
    TrimEmptyIffBlank(task);
  }

  /**
   * `startBreak` from any state: the previous elapsed time is the last
   * work duration, the break its fifth rounded up, and a break clock starts
   * at zero on a fresh interval.
   */
  lemma StartBreakSession(w: Snapshot, now: int)
    ensures var r := StartBreak(w, now);
            r.state.lastWorkDuration == w.state.elapsedSeconds
            && 5 * r.state.recommendedBreak - 5 < r.state.lastWorkDuration <= 5 * r.state.recommendedBreak
            && r.state.elapsedSeconds == 0 && r.state.isBreak && r.state.startTime == Some(now)
            && r.state.interval == Some(w.sched.next)
            && r.sched.live == w.sched.live - HandleSet(w.state.interval) + {w.sched.next}
            && (Valid(w) ==> Valid(r) && r.sched.live == {r.state.interval.value}
                             && r.state.interval.value !in w.sched.live)
  {
  }

  /**
   * `stopTimer`: the elapsed time is zero, a work session's elapsed time is
   * kept, a break's is dropped; the held interval no longer ticks, and when
   * the timer was valid nothing ticks at all.
   */
  lemma StopSession(w: Snapshot)
    ensures var r := Stop(w);
            r.state.elapsedSeconds == 0
            && r.state.lastWorkDuration == (if w.state.isBreak then w.state.lastWorkDuration else w.state.elapsedSeconds)
            && r.state.isBreak == w.state.isBreak && r.state.recommendedBreak == w.state.recommendedBreak
            && r.state.startTime == w.state.startTime && r.state.interval == w.state.interval
            && r.sched.live == w.sched.live - HandleSet(w.state.interval)
            && (Valid(w) ==> Valid(r) && r.sched.live == {})
  {
  }

  /** Stopping a fresh timer changes nothing. */
  lemma StopInitial()
    ensures Stop(Initial()) == Initial()
  {
  }

  /**
   * Stopping twice is the same as stopping once exactly when the first stop
   * left the last work duration at zero or the timer was on a break: a
   * second stop after work overwrites the duration with zero.
   */
  lemma StopTwice(w: Snapshot)
    ensures Stop(Stop(w)) == Stop(w) <==> (w.state.isBreak || w.state.elapsedSeconds == 0)
  {
    if Stop(Stop(w)) == Stop(w) && !w.state.isBreak {
      assert Stop(Stop(w)).state.lastWorkDuration == 0;
    }
  }

  /** A tick keeps the timer valid. */
  lemma TickValid(w: Snapshot, now: int)
    requires Valid(w)
    ensures Valid(Tick(w, now))
  {
  }

  // ------------------------------------------------------ event sequences

  /** What drives the timer: the task form, the two buttons, and a firing interval. */
  datatype Event = Submit(task: string, now: int) | BreakClick(now: int) | StopClick | Fire(now: int)

  function Step(w: Snapshot, e: Event): Snapshot {
    match e
    case Submit(task, now) => StartWork(w, task, now)
    case BreakClick(now) => StartBreak(w, now)
    case StopClick => Stop(w)
    case Fire(now) => Tick(w, now)
  }

  function Run(w: Snapshot, es: seq<Event>): Snapshot
    decreases |es|
  {
    if es == [] then w else Run(Step(w, es[0]), es[1..])
  }

  /** Every transition keeps the timer valid. */
  lemma StepValid(w: Snapshot, e: Event)
    requires Valid(w)
    ensures Valid(Step(w, e))
  {
    if e.Fire? {
      TickValid(w, e.now);
    }
  }

  /** Any sequence of events keeps the timer valid. */
  lemma {:induction false} RunValid(w: Snapshot, es: seq<Event>)
    requires Valid(w)
    ensures Valid(Run(w, es))
    decreases |es|
  {
    if es != [] {
      StepValid(w, es[0]);
      RunValid(Step(w, es[0]), es[1..]);
    }
  }

  /** Whatever happened since the page loaded, stopping leaves no interval ticking. */
  lemma NothingTicksAfterStop(es: seq<Event>)
    ensures Stop(Run(Initial(), es)).sched.live == {}
  {
    RunValid(Initial(), es);
    StopSession(Run(Initial(), es));
  }

  /** A task that starts with a visible character survives trimming. */
  lemma TaskNotBlank(task: string)
    requires task != [] && !IsWhitespace(task[0])
    ensures Trim(task) != []
  {
    TrimEmptyIffBlank(task);
  }

  /**
   * As written, `startWork` during a break (its button is enabled then)
   * leaves the break's interval running; after `stopTimer` it still fires,
   * and its tick moves the elapsed time off zero.
   */
  lemma OrphanedIntervalAsWritten(task: string)
    requires Trim(task) != []
    ensures var w := Stop(StartWorkAsWritten(StartBreak(StartWorkAsWritten(Initial(), task, 0), 60000), task, 120000));
            w.sched.live == {1} && w.state.elapsedSeconds == 0
            && Tick(w, 125000).state.elapsedSeconds == 5
  {
    var w1 := StartWorkAsWritten(Initial(), task, 0);
    assert w1.sched.live == {0} && w1.sched.next == 1 && w1.state.interval == Some(0);
    var w2 := StartBreak(w1, 60000);
    assert w2.sched.live == {1} && w2.sched.next == 2 && w2.state.interval == Some(1);
    var w3 := StartWorkAsWritten(w2, task, 120000);
    assert w3.sched.live == {1, 2} && w3.state.interval == Some(2);
    assert w3.state.startTime == Some(120000);
  }

  /** With the previous interval cleared first, the same clicks leave nothing running. */
  lemma NoOrphanedInterval(task: string)
    ensures Stop(StartWork(StartBreak(StartWork(Initial(), task, 0), 60000), task, 120000)).sched.live == {}
  {
    var c1 := StartWork(Initial(), task, 0);
    var c2 := StartBreak(c1, 60000);
    var c3 := StartWork(c2, task, 120000);
    assert Valid(c3);
  }

  /**
   * The flowtime scenario: 130 seconds of work on "Write report" earn a
   * 26-second break, and the break clock starts again from zero while the
   * recommendation stays.
   */
  lemma WriteReportScenario(t0: int)
    ensures var w1 := StartWork(Initial(), "Write report", t0);
            var w2 := Tick(w1, t0 + 130000);
            var w3 := StartBreak(w2, t0 + 130400);
            var w4 := Tick(w3, t0 + 131400);
            w2.state.recommendedBreak == 26
            && w3.state.lastWorkDuration == 130 && w3.state.recommendedBreak == 26
            && w3.state.elapsedSeconds == 0
            && w4.state.elapsedSeconds == 1 && w4.state.recommendedBreak == 26
  {
    TaskNotBlank("Write report");
    var w1 := StartWork(Initial(), "Write report", t0);
    assert w1.state.startTime == Some(t0) && !w1.state.isBreak;
    var w2 := Tick(w1, t0 + 130000);
    assert w2.state.elapsedSeconds == 130;
    assert w2.state.recommendedBreak == 26;
    var w3 := StartBreak(w2, t0 + 130400);
    assert w3.state.lastWorkDuration == 130 && w3.state.recommendedBreak == 26;
    assert w3.state.startTime == Some(t0 + 130400) && w3.state.isBreak;
  }
}
