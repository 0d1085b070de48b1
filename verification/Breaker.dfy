/** The gateway's circuit breaker (gateway/circuitbreaker.go).

    `Do` takes the mutex up to three times per call: once to admit, and once more to
    cancel or to record a failure or a success.  Calls overlap, so the unit of
    interleaving is one lock section.  `Next` is the effect of one section on the guarded
    fields; a run is any sequence of sections with non-decreasing clock readings, and
    `At(cfg, born, steps, i)` is the breaker after the first `i` of them.
 */
module Breaker {

  datatype State = Closed | Open | HalfOpen

  /** The guarded fields of the breaker.  Times are in one arbitrary unit. */
  datatype Fields = Fields(state: State, failures: int, lastFailure: int, windowStart: int, probe: bool)

  datatype Config = Config(maxFailures: int, openTimeout: int, failureWindow: int) {
    predicate Valid() {
      maxFailures >= 1 && openTimeout >= 0 && failureWindow >= 0
    }
  }

  datatype Section = Admit | Cancel | Failure | Success

  datatype Step = Step(section: Section, now: int)

  function Initial(born: int): Fields {
    Fields(Closed, 0, 0, born, false)
  }

  /** Whether an admission section lets the call through to the upstream. */
  predicate Admits(cfg: Config, b: Fields, now: int) {
    match b.state
    case Open => now - b.lastFailure > cfg.openTimeout
    case HalfOpen => !b.probe
    case Closed => true
  }

  function AfterAdmit(cfg: Config, b: Fields, now: int): Fields {
    match b.state
    case Open => if now - b.lastFailure <= cfg.openTimeout then b else b.(state := HalfOpen, probe := true)
    case HalfOpen => b.(probe := true)
    case Closed => b
  }

  function AfterCancel(b: Fields): Fields {
    if b.state.HalfOpen? then b.(probe := false) else b
  }

  function AfterFailure(cfg: Config, b: Fields, now: int): Fields {
    if b.state.HalfOpen? then
      b.(probe := false, state := Open, lastFailure := now)
    else
      var lapsed := now - b.windowStart > cfg.failureWindow;
      var failures := if lapsed then 1 else b.failures + 1;
      var windowStart := if lapsed then now else b.windowStart;
      var state := if failures >= cfg.maxFailures then Open else b.state;
      Fields(state, failures, now, windowStart, false)
  }

  function AfterSuccess(b: Fields, now: int): Fields {
    Fields(if b.state.HalfOpen? then Closed else b.state, 0, b.lastFailure, now, false)
  }

  function Next(cfg: Config, b: Fields, step: Step): Fields {
    match step.section
    case Admit => AfterAdmit(cfg, b, step.now)
    case Cancel => AfterCancel(b)
    case Failure => AfterFailure(cfg, b, step.now)
    case Success => AfterSuccess(b, step.now)
  }

  // ----- runs

  function At(cfg: Config, born: int, steps: seq<Step>, i: nat): Fields
    requires i <= |steps|
  {
    if i == 0 then Initial(born) else Next(cfg, At(cfg, born, steps, i - 1), steps[i - 1])
  }

  /** The clock reading of the last section among the first `i`. */
  function Clock(born: int, steps: seq<Step>, i: nat): int
    requires i <= |steps|
  {
    if i == 0 then born else steps[i - 1].now
  }

  ghost predicate Ordered(born: int, steps: seq<Step>) {
    forall i :: 0 <= i < |steps| ==> Clock(born, steps, i) <= steps[i].now
  }

  ghost predicate IsRun(cfg: Config, born: int, steps: seq<Step>) {
    cfg.Valid() && Ordered(born, steps)
  }

  lemma {:induction false} ClockMonotone(born: int, steps: seq<Step>, i: nat, j: nat)
    requires Ordered(born, steps) && i <= j <= |steps|
    ensures Clock(born, steps, i) <= Clock(born, steps, j)
    decreases j
  {
    if i < j {
      ClockMonotone(born, steps, i, j - 1);
      assert Clock(born, steps, j - 1) <= steps[j - 1].now;
    }
  }

  lemma OrderedGrows(born: int, steps: seq<Step>, step: Step)
    requires Ordered(born, steps) && Clock(born, steps, |steps|) <= step.now
    ensures Ordered(born, steps + [step])
  {
    var more := steps + [step];
    forall i | 0 <= i < |more| ensures Clock(born, more, i) <= more[i].now {
      if i < |steps| {
        assert Clock(born, steps, i) <= steps[i].now;
      }
    }
  }

  /** The state after a prefix does not depend on what follows it. */
  lemma {:induction false} AtPrefix(cfg: Config, born: int, steps: seq<Step>, more: seq<Step>, i: nat)
    requires i <= |steps|
    ensures At(cfg, born, steps + more, i) == At(cfg, born, steps, i)
  {
    if i > 0 {
      AtPrefix(cfg, born, steps, more, i - 1);
    }
  }

  /** Admissions among the first `i` sections that let their call through, and reports (the
      second sections of calls). */
  function LetThrough(cfg: Config, born: int, steps: seq<Step>, i: nat): nat
    requires i <= |steps|
  {
    if i == 0 then 0
    else
      LetThrough(cfg, born, steps, i - 1)
      + if steps[i - 1].section.Admit? && Admits(cfg, At(cfg, born, steps, i - 1), steps[i - 1].now) then 1 else 0
  }

  function Reports(steps: seq<Step>, i: nat): nat
    requires i <= |steps|
  {
    if i == 0 then 0 else Reports(steps, i - 1) + if steps[i - 1].section.Admit? then 0 else 1
  }

  /** A run that calls of `Do` can make: nothing is reported that has not been let through.
      What is proved of every run needs no such restriction; the runs shown as examples meet it. */
  ghost predicate Realisable(cfg: Config, born: int, steps: seq<Step>) {
    && IsRun(cfg, born, steps)
    && forall i :: 0 <= i <= |steps| ==> Reports(steps, i) <= LetThrough(cfg, born, steps, i)
  }

  // ----- the invariant of every interleaving

  ghost predicate Sound(cfg: Config, b: Fields, clock: int) {
    && (b.probe ==> b.state.HalfOpen?)
    && (b.state.Closed? ==> b.failures < cfg.maxFailures)
    && b.failures >= 0
    && b.windowStart <= clock
  }

  /** Whatever the interleaving: the probe flag is up only in HalfOpen, and a closed
      breaker has counted fewer failures than the limit. */
  lemma {:induction false} AlwaysSound(cfg: Config, born: int, steps: seq<Step>, i: nat)
    requires IsRun(cfg, born, steps) && i <= |steps|
    ensures Sound(cfg, At(cfg, born, steps, i), Clock(born, steps, i))
  {
    if i > 0 {
      AlwaysSound(cfg, born, steps, i - 1);
      assert Clock(born, steps, i - 1) <= steps[i - 1].now;
    }
  }

  /** Only Closed-Open, Open-HalfOpen, HalfOpen-Open and HalfOpen-Closed ever occur, each
      caused by the one section kind that may cause it, and nothing is admitted into Open. */
  lemma Transitions(cfg: Config, b: Fields, step: Step)
    requires cfg.Valid()
    ensures var after := Next(cfg, b, step);
            && (after.state != b.state ==>
                  || (b.state.Closed? && after.state.Open? && step.section.Failure?)
                  || (b.state.Open? && after.state.HalfOpen? && step.section.Admit? && Admits(cfg, b, step.now))
                  || (b.state.HalfOpen? && after.state.Open? && step.section.Failure?)
                  || (b.state.HalfOpen? && after.state.Closed? && step.section.Success?))
            && (step.section.Admit? && Admits(cfg, b, step.now) ==> !after.state.Open?)
            && (step.section.Admit? && !Admits(cfg, b, step.now) ==> after == b)
  {
  }

  // ----- quarantine

  /** `lastFailure` bounds every failure recorded so far. */
  lemma {:induction false} LastFailureBounds(cfg: Config, born: int, steps: seq<Step>, k: nat, i: nat)
    requires IsRun(cfg, born, steps) && k < i <= |steps| && steps[k].section.Failure?
    ensures steps[k].now <= At(cfg, born, steps, i).lastFailure
    decreases i
  {
    if k < i - 1 {
      LastFailureBounds(cfg, born, steps, k, i - 1);
    }
    ClockMonotone(born, steps, k + 1, i);
  }

  /** An open breaker lets a call through only when more than `openTimeout` has passed since
      every failure recorded so far, stale ones included. */
  lemma {:induction false} Quarantine(cfg: Config, born: int, steps: seq<Step>, k: nat, i: nat)
    requires IsRun(cfg, born, steps) && k < i < |steps| && steps[k].section.Failure?
    requires At(cfg, born, steps, i).state.Open? && !At(cfg, born, steps, i + 1).state.Open?
    ensures At(cfg, born, steps, i + 1).state.HalfOpen?
    ensures steps[i].section.Admit? && steps[i].now - steps[k].now > cfg.openTimeout
  {
    LastFailureBounds(cfg, born, steps, k, i);
    Transitions(cfg, At(cfg, born, steps, i), steps[i]);
  }

  /** When the last failure among the first `i` sections was recorded. */
  function LastFailTime(steps: seq<Step>, i: nat): int
    requires i <= |steps|
  {
    if i == 0 then 0 else if steps[i - 1].section.Failure? then steps[i - 1].now else LastFailTime(steps, i - 1)
  }

  lemma {:induction false} LastFailureIs(cfg: Config, born: int, steps: seq<Step>, i: nat)
    requires i <= |steps|
    ensures At(cfg, born, steps, i).lastFailure == LastFailTime(steps, i)
  {
    if i > 0 {
      LastFailureIs(cfg, born, steps, i - 1);
    }
  }

  /** An open breaker lets a caller in, as a trial, exactly when more than `openTimeout` has
      passed since the last failure of the run; the trial's failure opens it again, and its
      success closes it. */
  lemma TrialLife(cfg: Config, born: int, steps: seq<Step>, i: nat)
    requires IsRun(cfg, born, steps) && i < |steps|
    ensures var before, after := At(cfg, born, steps, i).state, At(cfg, born, steps, i + 1).state;
            && (before.Open? && steps[i].section.Admit? ==>
                  (after.HalfOpen? <==> steps[i].now - LastFailTime(steps, i) > cfg.openTimeout))
            && (before.HalfOpen? && steps[i].section.Failure? ==> after.Open?)
            && (before.HalfOpen? && steps[i].section.Success? ==> after.Closed?)
            && (before.HalfOpen? && (steps[i].section.Admit? || steps[i].section.Cancel?) ==> after.HalfOpen?)
  {
    LastFailureIs(cfg, born, steps, i);
  }

  /** Number of steps among the first `i` that enter state `s`. */
  function Entries(cfg: Config, born: int, steps: seq<Step>, s: State, i: nat): nat
    requires i <= |steps|
  {
    if i == 0 then 0
    else
      Entries(cfg, born, steps, s, i - 1)
      + if At(cfg, born, steps, i - 1).state != s && At(cfg, born, steps, i).state == s then 1 else 0
  }

  /** Every trip is followed by at most one trial: the books of entries balance. */
  lemma {:induction false} EntriesBalance(cfg: Config, born: int, steps: seq<Step>, i: nat)
    requires IsRun(cfg, born, steps) && i <= |steps|
    ensures Entries(cfg, born, steps, Open, i)
         == Entries(cfg, born, steps, HalfOpen, i) + if At(cfg, born, steps, i).state.Open? then 1 else 0
  {
    if i > 0 {
      EntriesBalance(cfg, born, steps, i - 1);
      Transitions(cfg, At(cfg, born, steps, i - 1), steps[i - 1]);
    }
  }
}
