/** The cooperative countdown `waitForTimeout` of the legacy game loop.

    A timer is a closure over `currentStep`; each time its scheduled host
    timeout elapses it runs `step`, which increments the counter and either
    reschedules itself or, at 100, runs the callback. Every timer shares one
    module-wide pause flag `isPaused`; here that flag is an explicit
    parameter and result. Host timeouts are explicit `Fire` events. */
module StepTimer {

  /** The callback runs when the step counter reaches this value. */
  const StepCount: nat := 100

  /** Delay between two steps: `Math.ceil(timeout / 100)` milliseconds. */
  function StepInterval(timeout: nat): (ms: nat)
    ensures 100 * ms >= timeout
    ensures ms > 0 ==> 100 * (ms - 1) < timeout
  {
    (timeout + 99) / 100
  }

  /** `currentStep` is the closure's counter; `pending` says a step is
      scheduled under `timeoutId`; `fired` counts callback runs and
      `pauseCalls` counts `onPause` runs. */
  datatype Timer = Timer(interval: nat, currentStep: nat, pending: bool, fired: nat, pauseCalls: nat)

  /** A timer together with the shared pause flag after an operation. */
  datatype Shared = Shared(timer: Timer, paused: bool)

  /** The closure `step`: does nothing while the shared flag is set;
      otherwise counts one step and either runs the callback or schedules
      the next step. */
  function Step(t: Timer, paused: bool): (r: Timer)
    ensures paused ==> r == t
    ensures !paused ==> r.currentStep == t.currentStep + 1 && r.interval == t.interval && r.pauseCalls == t.pauseCalls
    ensures !paused ==> (r.fired > t.fired <==> r.currentStep >= StepCount) && r.fired <= t.fired + 1
    ensures !paused ==> (r.pending <==> t.pending || r.currentStep < StepCount)
  {
    if paused then t
    else if t.currentStep + 1 >= StepCount then t.(currentStep := t.currentStep + 1, fired := t.fired + 1)
    else t.(currentStep := t.currentStep + 1, pending := true)
  }

  /** `waitForTimeout(timeout, callback, onPause)`: builds the closure and
      takes its first step synchronously. Created while the flag is set, the
      timer takes no step and schedules nothing. */
  function Create(timeout: nat, paused: bool): (t: Timer)
    ensures t.interval == StepInterval(timeout) && t.fired == 0 && t.pauseCalls == 0
    ensures !paused ==> t.currentStep == 1 && t.pending
    ensures paused ==> t.currentStep == 0 && !t.pending
  {
    Step(Timer(StepInterval(timeout), 0, false, 0, 0), paused)
  }

  /** The scheduled host timeout elapses and runs `step`. Without a
      scheduled step nothing happens. */
  function Fire(t: Timer, paused: bool): (r: Timer)
    ensures !t.pending ==> r == t
    ensures t.pending && paused ==> r == t.(pending := false)
    ensures t.pending && !paused ==>
              && r.currentStep == t.currentStep + 1
              && r.interval == t.interval && r.pauseCalls == t.pauseCalls
              && (r.pending <==> r.currentStep < StepCount)
              && r.fired == (if r.currentStep >= StepCount then t.fired + 1 else t.fired)
  {
    if !t.pending then t else Step(t.(pending := false), paused)
  }

  /** `pause()`: sets the shared flag, cancels the scheduled step and runs
      `onPause`, every time it is called. */
  function Pause(t: Timer): (r: Shared)
    ensures r.paused && !r.timer.pending
    ensures r.timer == t.(pending := false, pauseCalls := t.pauseCalls + 1)
  {
    Shared(t.(pending := false, pauseCalls := t.pauseCalls + 1), true)
  }

  /** `resume()`: acts only while the shared flag is set; it clears the flag
      and steps from the preserved counter. The model supposes no step is
      scheduled when the flag is set, so that at most one step chain exists. */
  function Resume(t: Timer, paused: bool): (r: Shared)
    requires paused ==> !t.pending
    ensures !r.paused
    ensures !paused ==> r.timer == t
    ensures paused ==> r.timer.currentStep == t.currentStep + 1 && r.timer.pauseCalls == t.pauseCalls
    ensures paused ==> (r.timer.pending <==> r.timer.currentStep < StepCount)
    ensures paused ==> r.timer.fired == (if r.timer.currentStep >= StepCount then t.fired + 1 else t.fired)
  {
    if paused then Shared(Step(t, false), false) else Shared(t, paused)
  }

  /** `n` consecutive host timeouts while the flag stays `paused`. */
  function Fires(t: Timer, n: nat, paused: bool): Timer
  {
    if n == 0 then t else Fire(Fires(t, n - 1, paused), paused)
  }

  /** From a running timer at step `c`, `n` more timeouts reach step `c + n`;
      the callback runs exactly when that is 100, and a step stays scheduled
      until then. */
  lemma {:induction false} RunsToCompletion(t: Timer, n: nat)
    requires t.pending && t.currentStep < StepCount && t.currentStep + n <= StepCount
    ensures Fires(t, n, false).currentStep == t.currentStep + n
    ensures Fires(t, n, false).pending <==> t.currentStep + n < StepCount
    ensures Fires(t, n, false).fired == (if t.currentStep + n == StepCount then t.fired + 1 else t.fired)
    ensures Fires(t, n, false).pauseCalls == t.pauseCalls
  {
    if n > 0 {
      RunsToCompletion(t, n - 1);
    }
  }

  /** A fresh timer has taken one step; the callback runs at the 99th host
      timeout, that is 99 step intervals after creation, and not before. */
  lemma CallbackAfter99Intervals(timeout: nat)
    ensures Fires(Create(timeout, false), 98, false).fired == 0
    ensures Fires(Create(timeout, false), 99, false).fired == 1
    ensures !Fires(Create(timeout, false), 99, false).pending
  {
    RunsToCompletion(Create(timeout, false), 98);
    RunsToCompletion(Create(timeout, false), 99);
  }

  /** Without a scheduled step, no number of host timeouts changes a timer. */
  lemma {:induction false} IdleTimerIsInert(t: Timer, n: nat, paused: bool)
    requires !t.pending
    ensures Fires(t, n, paused) == t
  {
    if n > 0 {
      IdleTimerIsInert(t, n - 1, paused);
    }
  }

  /** Driven only by its own timeouts, a fresh timer runs its callback at
      most once, and exactly once from the 99th timeout on. */
  lemma CallbackRunsOnceWithoutPause(timeout: nat, n: nat)
    ensures Fires(Create(timeout, false), n, false).fired == (if n >= 99 then 1 else 0)
  {
    var t := Create(timeout, false);
    if n <= 99 {
      RunsToCompletion(t, n);
    } else {
      RunsToCompletion(t, 99);
      var done := Fires(t, 99, false);
      IdleTimerIsInert(done, n - 99, false);
      FiresSplit(t, 99, n - 99, false);
    }
  }

  /** Timeouts compose: `a` then `b` of them is `a + b` of them. */
  lemma {:induction false} FiresSplit(t: Timer, a: nat, b: nat, paused: bool)
    ensures Fires(t, a + b, paused) == Fires(Fires(t, a, paused), b, paused)
  {
    if b > 0 {
      FiresSplit(t, a, b - 1, paused);
    }
  }

  /** Pausing a running timer and resuming it continues from the preserved
      step: the remaining timeouts to the callback are 100 minus that step,
      not a fresh countdown. */
  lemma PauseResumeKeepsProgress(t: Timer)
    requires t.pending && 0 < t.currentStep < StepCount - 1
    ensures var p := Pause(t);
            var r := Resume(p.timer, p.paused);
            && !r.paused && r.timer.currentStep == t.currentStep + 1 && r.timer.fired == t.fired
            && Fires(r.timer, StepCount - r.timer.currentStep, false).fired == t.fired + 1
            && Fires(r.timer, StepCount - r.timer.currentStep - 1, false).fired == t.fired
  {
    var p := Pause(t);
    var r := Resume(p.timer, p.paused);
    RunsToCompletion(r.timer, StepCount - r.timer.currentStep);
    RunsToCompletion(r.timer, StepCount - r.timer.currentStep - 1);
  }

  /** The flag is shared: once one timer's `resume` has cleared it, `resume`
      on a second paused timer does nothing, and that timer, having no
      scheduled step, never reaches its callback. */
  lemma SharedFlagStrandsSecondTimer(a: Timer, b: Timer, n: nat)
    requires a.pending && b.pending
    ensures var pa := Pause(a);
            var pb := Pause(b);
            var ra := Resume(pa.timer, pb.paused);
            var rb := Resume(pb.timer, ra.paused);
            && rb.timer == pb.timer && !rb.timer.pending
            && ra.timer.currentStep == a.currentStep + 1
            && Fires(rb.timer, n, false) == rb.timer
  {
    IdleTimerIsInert(Pause(b).timer, n, false);
  }

  /** The counter is not guarded against completion: pausing and resuming
      a timer whose callback already ran runs the callback again. */
  lemma ResumeAfterCompletionRerunsCallback(timeout: nat)
    ensures var done := Fires(Create(timeout, false), 99, false);
            var p := Pause(done);
            var r := Resume(p.timer, p.paused);
            done.fired == 1 && r.timer.fired == 2
  {
    CallbackAfter99Intervals(timeout);
  }

  /** Nominal delay: 99 intervals of `ceil(timeout / 100)` ms; for a multiple
      of 100 that is `timeout - timeout / 100`. */
  lemma CompletionDelay(timeout: nat)
    ensures 99 * StepInterval(timeout) < timeout + 99
    ensures timeout % 100 == 0 ==> 99 * StepInterval(timeout) == timeout - timeout / 100
  {
  }
}
