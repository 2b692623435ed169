/**
  Stopping a periodic loop by unlocking its timer (src/time.h, `TimerImpl`; src/updater.cc,
  `PollForMetadata`; src/reporter.cc, `ReportMetadata`).

  The timer is a mutex that its owner keeps locked: waiting is trying to lock it until a deadline,
  and cancelling is unlocking it.  The steps of the loop interleave with cancellations and with the
  clock.  A try on a locked mutex may fail at any moment, a try on an unlocked one succeeds.
 */
module Timer {
  import opened Wrappers

  /** `initialWait` is None for an updater; the reporter waits once before its loop. */
  datatype Config = Config(initialWait: Option<nat>, period: nat)

  datatype Place =
    | NotStarted
    | Started                                // the timer is set, the thread has yet to begin
    | Trying(wakeup: int, initial: bool)     // inside `try_lock_until(wakeup)`
    | TimedOut(wakeup: int, initial: bool)   // the try failed; the clock is still to be read
    | Working                                // a query or a send
    | Stopped

  /**
    `cancelled`: a cancellation has happened; `sinceCancel`: rounds of work begun since the latest
    one; `consumed`: the initial wait took the latest one and ignored it.
   */
  datatype State = State(
    locked: bool,
    clock: int,
    place: Place,
    cancelled: bool,
    sinceCancel: nat,
    consumed: bool)

  const INITIAL := State(false, 0, NotStarted, false, 0, false)

  datatype Step =
    | Init
    | Begin
    | Tick(elapsed: nat)
    | WorkDone
    | Acquire
    | TryFails
    | ReadClock
    | Cancel

  function BeginWork(s: State): State {
    s.(place := Working, sinceCancel := if s.cancelled then s.sinceCancel + 1 else 0)
  }

  /** The effect of a step, or None when it cannot happen; unlocking an unlocked mutex is undefined. */
  function Next(s: State, step: Step, cfg: Config): Option<State> {
    match step
    case Init =>
      if s.place.NotStarted? && !s.locked then
        (match cfg.initialWait
         case None => Some(s.(locked := true, place := Started))
         case Some(w) => Some(s.(locked := true, place := Trying(s.clock + w, true))))
      else None
    case Begin => if s.place.Started? then Some(BeginWork(s)) else None
    case Tick(elapsed) => Some(s.(clock := s.clock + elapsed))
    case WorkDone =>
      if s.place.Working? then Some(s.(place := Trying(s.clock + cfg.period, false))) else None
    case Acquire =>
      if s.place.Trying? && !s.locked then
        if s.place.initial then Some(BeginWork(s.(locked := true, consumed := true)))
        else Some(s.(locked := true, place := Stopped))
      else None
    case TryFails =>
      if s.place.Trying? && s.locked then Some(s.(place := TimedOut(s.place.wakeup, s.place.initial))) else None
    case ReadClock =>
      if s.place.TimedOut? then
        if s.clock < s.place.wakeup then Some(s.(place := Trying(s.place.wakeup, s.place.initial)))
        else Some(BeginWork(s))
      else None
    case Cancel =>
      if s.locked then Some(s.(locked := false, cancelled := true, sinceCancel := 0, consumed := false)) else None
  }

  function Run(steps: seq<Step>, cfg: Config): Option<State> {
    if steps == [] then Some(INITIAL)
    else
      match Run(steps[..|steps| - 1], cfg)
      case None => None
      case Some(s) => Next(s, steps[|steps| - 1], cfg)
  }

  // ---------------------------------------------------------------- what every run keeps

  /** A cancellation that is still in force keeps the mutex unlocked until it ends the loop. */
  ghost predicate Invariant(s: State, cfg: Config) {
    && (s.place.NotStarted? ==> !s.locked && !s.cancelled)
    && (!s.locked ==> s.place.NotStarted? || s.cancelled)
    && (!s.cancelled ==> s.sinceCancel == 0 && !s.consumed && !s.place.Stopped?)
    && (s.consumed ==> cfg.initialWait.Some?)
    && ((s.place.Trying? || s.place.TimedOut?) && s.place.initial ==> cfg.initialWait.Some? && s.sinceCancel == 0)
    && (s.cancelled && !s.consumed && !s.place.Stopped? ==> !s.locked)
    && (s.cancelled && !s.consumed ==>
         s.sinceCancel <= 1 && (s.place.Started? || s.place.TimedOut? ==> s.sinceCancel == 0))
  }

  lemma StepKeepsInvariant(s: State, step: Step, cfg: Config, t: State)
    requires Invariant(s, cfg) && Next(s, step, cfg) == Some(t)
    ensures Invariant(t, cfg)
  {
  }

  lemma {:induction false} RunKeepsInvariant(steps: seq<Step>, cfg: Config)
    requires Run(steps, cfg).Some?
    ensures Invariant(Run(steps, cfg).value, cfg)
    decreases |steps|
  {
    if steps != [] {
      var n := |steps| - 1;
      RunKeepsInvariant(steps[..n], cfg);
      StepKeepsInvariant(Run(steps[..n], cfg).value, steps[n], cfg, Run(steps, cfg).value);
    }
  }

  /**
    In every run: after a cancellation that the initial wait did not take, at most one more round of
    work begins, and a loop that waits can do nothing but stop.
   */
  lemma CancelStops(steps: seq<Step>, cfg: Config)
    requires Run(steps, cfg).Some?
    requires Run(steps, cfg).value.cancelled && !Run(steps, cfg).value.consumed
    ensures var s := Run(steps, cfg).value;
      && s.sinceCancel <= 1
      && (s.place.Trying? && !s.place.initial ==>
           && Next(s, Acquire, cfg) == Some(s.(locked := true, place := Stopped))
           && Next(s, TryFails, cfg) == None && Next(s, WorkDone, cfg) == None && Next(s, ReadClock, cfg) == None)
  {
    RunKeepsInvariant(steps, cfg);
  }

  /** A loop that no one cancels does not stop. */
  lemma StopsOnlyIfCancelled(steps: seq<Step>, cfg: Config)
    requires Run(steps, cfg).Some? && Run(steps, cfg).value.place.Stopped?
    ensures Run(steps, cfg).value.cancelled
  {
    RunKeepsInvariant(steps, cfg);
  }

  /** An updater has no initial wait, so for it every cancellation counts. */
  lemma UpdaterCancelStops(steps: seq<Step>, cfg: Config)
    requires cfg.initialWait.None?
    requires Run(steps, cfg).Some? && Run(steps, cfg).value.cancelled
    ensures !Run(steps, cfg).value.consumed && Run(steps, cfg).value.sinceCancel <= 1
  {
    RunKeepsInvariant(steps, cfg);
  }

  // ---------------------------------------------------------------- how long a wait lasts

  /** The state after the first `k` steps of a run. */
  function After(steps: seq<Step>, k: nat, cfg: Config): State
    requires Run(steps, cfg).Some? && k <= |steps|
  {
    PrefixRuns(steps, k, cfg);
    Run(steps[..k], cfg).value
  }

  lemma {:induction false} PrefixRuns(steps: seq<Step>, k: nat, cfg: Config)
    requires Run(steps, cfg).Some? && k <= |steps|
    ensures Run(steps[..k], cfg).Some?
    decreases |steps|
  {
    if k == |steps| {
      assert steps[..k] == steps;
    } else {
      PrefixRuns(steps[..|steps| - 1], k, cfg);
      assert steps[..|steps| - 1][..k] == steps[..k];
    }
  }

  /** No work between step `i` and the end of the run. */
  ghost predicate NoWorkSince(steps: seq<Step>, i: nat, cfg: Config)
    requires Run(steps, cfg).Some?
  {
    forall k: nat :: i < k < |steps| ==> !After(steps, k, cfg).place.Working?
  }

  /** While a wait that began with step `i` goes on, it is for the time it was asked for. */
  lemma {:induction false} StillWaiting(steps: seq<Step>, i: nat, initial: bool, length: nat, cfg: Config)
    requires Run(steps, cfg).Some? && i < |steps| && NoWorkSince(steps, i, cfg) && !Run(steps, cfg).value.place.Working?
    requires if initial then steps[i] == Init && cfg.initialWait == Some(length)
             else steps[i] == WorkDone && length == cfg.period
    ensures var s := Run(steps, cfg).value;
      || s.place.Stopped?
      || ((s.place.Trying? || s.place.TimedOut?) && s.place.initial == initial
          && s.place.wakeup == After(steps, i, cfg).clock + length)
    decreases |steps|
  {
    var n := |steps| - 1;
    if i < n {
      assert After(steps, n, cfg) == Run(steps[..n], cfg).value && steps[..n][..i] == steps[..i];
      forall k: nat | i < k < n ensures !After(steps[..n], k, cfg).place.Working? {
        assert steps[..n][..k] == steps[..k];
        assert !After(steps, k, cfg).place.Working?;
      }
      StillWaiting(steps[..n], i, initial, length, cfg);
    }
  }

  /**
    In every run, at least the period passes on the clock between the end of one round of work and
    the beginning of the next.
   */
  lemma RoundsAreAPeriodApart(steps: seq<Step>, i: nat, cfg: Config)
    requires Run(steps, cfg).Some? && i < |steps| && steps[i] == WorkDone
    requires NoWorkSince(steps, i, cfg) && Run(steps, cfg).value.place.Working?
    ensures Run(steps, cfg).value.clock - After(steps, i, cfg).clock >= cfg.period
  {
    EndOfWait(steps, i, false, cfg.period, cfg);
  }

  /** The first round after an initial wait begins no earlier, unless a cancellation ended that wait. */
  lemma InitialWaitIsKept(steps: seq<Step>, i: nat, wait: nat, cfg: Config)
    requires Run(steps, cfg).Some? && i < |steps| && steps[i] == Init && cfg.initialWait == Some(wait)
    requires NoWorkSince(steps, i, cfg) && Run(steps, cfg).value.place.Working?
    ensures Run(steps, cfg).value.clock - After(steps, i, cfg).clock >= wait || Run(steps, cfg).value.consumed
  {
    EndOfWait(steps, i, true, wait, cfg);
  }

  lemma EndOfWait(steps: seq<Step>, i: nat, initial: bool, length: nat, cfg: Config)
    requires Run(steps, cfg).Some? && i < |steps| && NoWorkSince(steps, i, cfg) && Run(steps, cfg).value.place.Working?
    requires if initial then steps[i] == Init && cfg.initialWait == Some(length)
             else steps[i] == WorkDone && length == cfg.period
    ensures Run(steps, cfg).value.clock - After(steps, i, cfg).clock >= length
         || (initial && Run(steps, cfg).value.consumed)
  {
    var n := |steps| - 1;
    assert i < n;
    assert After(steps, n, cfg) == Run(steps[..n], cfg).value && steps[..n][..i] == steps[..i];
    forall k: nat | i < k < n ensures !After(steps[..n], k, cfg).place.Working? {
      assert steps[..n][..k] == steps[..k];
      assert !After(steps, k, cfg).place.Working?;
    }
    StillWaiting(steps[..n], i, initial, length, cfg);
  }

  // ---------------------------------------------------------------- the cancellation that is lost

  /** Cancel during the initial wait, then `n` more rounds that time out normally. */
  function LostCancel(n: nat, cfg: Config): seq<Step> {
    if n == 0 then [Init] + [Cancel] + [Acquire]
    else LostCancel(n - 1, cfg) + [WorkDone] + [TryFails] + [Tick(cfg.period)] + [ReadClock]
  }

  function CountCancels(steps: seq<Step>): nat {
    if steps == [] then 0
    else CountCancels(steps[..|steps| - 1]) + (if steps[|steps| - 1].Cancel? then 1 else 0)
  }

  lemma RunSnoc(steps: seq<Step>, step: Step, cfg: Config)
    ensures Run(steps + [step], cfg) == match Run(steps, cfg) case None => None case Some(s) => Next(s, step, cfg)
    ensures CountCancels(steps + [step]) == CountCancels(steps) + (if step.Cancel? then 1 else 0)
  {
    assert (steps + [step])[..|steps|] == steps;
  }

  /** The reporter's loop survives such a cancellation: for every `n` some run begins n + 1 more rounds. */
  lemma {:induction false} LostCancelGoesOn(n: nat, cfg: Config)
    requires cfg.initialWait.Some?
    ensures Run(LostCancel(n, cfg), cfg).Some? && CountCancels(LostCancel(n, cfg)) == 1
    ensures var s := Run(LostCancel(n, cfg), cfg).value;
      s.cancelled && s.consumed && s.locked && s.place.Working? && s.sinceCancel == n + 1
  {
    if n == 0 {
      RunSnoc([], Init, cfg);
      assert [] + [Init] == [Init];
      RunSnoc([Init], Cancel, cfg);
      RunSnoc([Init] + [Cancel], Acquire, cfg);
    } else {
      LostCancelGoesOn(n - 1, cfg);
      OneMoreRound(LostCancel(n - 1, cfg), Run(LostCancel(n - 1, cfg), cfg).value, cfg);
    }
  }

  /** A round whose wait times out, with the mutex locked throughout. */
  lemma OneMoreRound(steps: seq<Step>, s: State, cfg: Config)
    requires Run(steps, cfg) == Some(s) && s.place.Working? && s.locked
    ensures var more := steps + [WorkDone] + [TryFails] + [Tick(cfg.period)] + [ReadClock];
      && Run(more, cfg) == Some(BeginWork(s.(clock := s.clock + cfg.period)))
      && CountCancels(more) == CountCancels(steps)
  {
    var s1 := s.(place := Trying(s.clock + cfg.period, false));
    var s2 := s.(place := TimedOut(s.clock + cfg.period, false));
    var s3 := s2.(clock := s.clock + cfg.period);
    assert Next(s, WorkDone, cfg) == Some(s1) && Next(s1, TryFails, cfg) == Some(s2);
    assert Next(s2, Tick(cfg.period), cfg) == Some(s3);
    RunSnoc(steps, WorkDone, cfg);
    RunSnoc(steps + [WorkDone], TryFails, cfg);
    RunSnoc(steps + [WorkDone] + [TryFails], Tick(cfg.period), cfg);
    RunSnoc(steps + [WorkDone] + [TryFails] + [Tick(cfg.period)], ReadClock, cfg);
  }

  /** An updater at work, `n` rounds after its first. */
  function Rounds(n: nat, cfg: Config): seq<Step> {
    if n == 0 then [Init] + [Begin]
    else Rounds(n - 1, cfg) + [WorkDone] + [TryFails] + [Tick(cfg.period)] + [ReadClock]
  }

  /** Left alone an updater can work round after round, one period apart. */
  lemma {:induction false} UpdaterGoesOn(n: nat, cfg: Config)
    requires cfg.initialWait.None?
    ensures Run(Rounds(n, cfg), cfg) == Some(State(true, n * cfg.period, Working, false, 0, false))
  {
    if n == 0 {
      RunSnoc([], Init, cfg);
      assert [] + [Init] == [Init];
      RunSnoc([Init], Begin, cfg);
    } else {
      UpdaterGoesOn(n - 1, cfg);
      OneMoreRound(Rounds(n - 1, cfg), State(true, (n - 1) * cfg.period, Working, false, 0, false), cfg);
      assert (n - 1) * cfg.period + cfg.period == n * cfg.period;
    }
  }

  ghost predicate Bounded(cfg: Config) {
    forall steps :: Run(steps, cfg).Some? && Run(steps, cfg).value.cancelled ==> Run(steps, cfg).value.sinceCancel <= 1
  }

  /** Cancellation is prompt in all runs exactly for loops without an initial wait. */
  lemma PromptIffNoInitialWait(cfg: Config)
    ensures Bounded(cfg) <==> cfg.initialWait.None?
  {
    if cfg.initialWait.None? {
      forall steps | Run(steps, cfg).Some? && Run(steps, cfg).value.cancelled
        ensures Run(steps, cfg).value.sinceCancel <= 1
      {
        UpdaterCancelStops(steps, cfg);
      }
    } else {
      LostCancelGoesOn(1, cfg);
    }
  }
}
