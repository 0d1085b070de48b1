/** When the breaker trips: soundness of every trip, the exact number of failures that the
    tumbling window can absorb, and when `maxFailures` failures in a row are enough. */
module BreakerTrip {
  import opened Breaker

  /** A reported outcome: success or failure, when it was recorded, and in which state. */
  datatype Outcome = Outcome(failed: bool, now: int, state: State)

  function Outcomes(cfg: Config, born: int, steps: seq<Step>, i: nat): seq<Outcome>
    requires i <= |steps|
  {
    if i == 0 then []
    else
      var before := Outcomes(cfg, born, steps, i - 1);
      var s := steps[i - 1];
      if s.section.Failure? || s.section.Success?
      then before + [Outcome(s.section.Failure?, s.now, At(cfg, born, steps, i - 1).state)]
      else before
  }

  /** The last `n` outcomes are failures recorded while closed, at times in `[from, to]`. */
  ghost predicate ClosedFailures(outcomes: seq<Outcome>, n: int, from: int, to: int) {
    && 0 <= n <= |outcomes|
    && forall k :: |outcomes| - n <= k < |outcomes| ==>
         outcomes[k].failed && outcomes[k].state.Closed? && from <= outcomes[k].now <= to
  }

  /** The counter of a closed breaker counts exactly failures of the current window. */
  lemma {:induction false} CounterMeansFailures(cfg: Config, born: int, steps: seq<Step>, i: nat)
    requires IsRun(cfg, born, steps) && i <= |steps|
    requires At(cfg, born, steps, i).state.Closed?
    ensures var b := At(cfg, born, steps, i);
            ClosedFailures(Outcomes(cfg, born, steps, i), b.failures, b.windowStart, b.windowStart + cfg.failureWindow)
  {
    if i > 0 {
      var b := At(cfg, born, steps, i - 1);
      Transitions(cfg, b, steps[i - 1]);
      if b.state.Closed? {
        CounterMeansFailures(cfg, born, steps, i - 1);
        AlwaysSound(cfg, born, steps, i - 1);
        assert Clock(born, steps, i - 1) <= steps[i - 1].now;
      }
    }
  }

  /** Every trip is justified: at a Closed-to-Open step the last `maxFailures` outcomes are
      failures, all recorded while closed and all within one failure window. */
  lemma {:induction false} TripIsJustified(cfg: Config, born: int, steps: seq<Step>, i: nat)
    requires IsRun(cfg, born, steps) && i < |steps|
    requires At(cfg, born, steps, i).state.Closed? && At(cfg, born, steps, i + 1).state.Open?
    ensures var from := At(cfg, born, steps, i + 1).windowStart;
            ClosedFailures(Outcomes(cfg, born, steps, i + 1), cfg.maxFailures, from, from + cfg.failureWindow)
  {
    var b := At(cfg, born, steps, i);
    Transitions(cfg, b, steps[i]);
    CounterMeansFailures(cfg, born, steps, i);
    AlwaysSound(cfg, born, steps, i);
    assert Clock(born, steps, i) <= steps[i].now;
  }

  // ----- how many failures a closed breaker can absorb

  /** When failures were recorded between sections `i` and `j`, past admissions,
      cancellations and whatever else other calls did. */
  function FailTimes(steps: seq<Step>, i: nat, j: nat): (times: seq<int>)
    requires i <= j <= |steps|
    decreases j
  {
    if i == j then []
    else
      var before := FailTimes(steps, i, j - 1);
      if steps[j - 1].section.Failure? then before + [steps[j - 1].now] else before
  }

  function FailuresBetween(steps: seq<Step>, i: nat, j: nat): nat
    requires i <= j <= |steps|
  {
    |FailTimes(steps, i, j)|
  }

  /** Steps `i..j` leave the breaker closed throughout, record no success, and all fall
      within one failure window starting at `from`. */
  ghost predicate StaysClosed(cfg: Config, born: int, steps: seq<Step>, i: nat, j: nat, from: int)
  {
    && i <= j <= |steps|
    && (forall k :: i <= k <= j ==> At(cfg, born, steps, k).state.Closed?)
    && (forall k :: i <= k < j ==> !steps[k].section.Success? && from <= steps[k].now <= from + cfg.failureWindow)
  }

  lemma {:induction false} AbsorbedInvariant(cfg: Config, born: int, steps: seq<Step>, i: nat, j: nat, from: int)
    requires IsRun(cfg, born, steps) && StaysClosed(cfg, born, steps, i, j, from)
    ensures var b := At(cfg, born, steps, j);
            var n := FailuresBetween(steps, i, j);
            n <= b.failures || (from <= b.windowStart && n <= cfg.maxFailures - 1 + b.failures)
    decreases j
  {
    AlwaysSound(cfg, born, steps, i);
    if i < j {
      AbsorbedInvariant(cfg, born, steps, i, j - 1, from);
      AlwaysSound(cfg, born, steps, j - 1);
    }
  }

  /** A breaker that stays closed over a failure window, with no success in between, has
      absorbed at most `2*maxFailures - 2` failures: one more always trips it. */
  lemma TwoWindowsBound(cfg: Config, born: int, steps: seq<Step>, i: nat, j: nat, from: int)
    requires IsRun(cfg, born, steps) && StaysClosed(cfg, born, steps, i, j, from)
    ensures FailuresBetween(steps, i, j) <= 2 * cfg.maxFailures - 2
  {
    AbsorbedInvariant(cfg, born, steps, i, j, from);
    AlwaysSound(cfg, born, steps, j);
  }

  /** With a window of length zero there is no second window to straddle. */
  lemma {:induction false} ZeroWindowBound(cfg: Config, born: int, steps: seq<Step>, i: nat, j: nat, from: int)
    requires IsRun(cfg, born, steps) && StaysClosed(cfg, born, steps, i, j, from) && cfg.failureWindow == 0
    ensures var b, n := At(cfg, born, steps, j), FailuresBetween(steps, i, j);
            n <= b.failures < cfg.maxFailures && (n > 0 ==> b.windowStart == from)
    decreases j
  {
    AlwaysSound(cfg, born, steps, j);
    if i < j {
      ZeroWindowBound(cfg, born, steps, i, j - 1, from);
      AlwaysSound(cfg, born, steps, j - 1);
      assert Clock(born, steps, j - 1) <= steps[j - 1].now;
    }
  }

  /** Failing calls made one after another: each is admitted, and reports before the next. */
  function FailingCalls(times: seq<int>): (steps: seq<Step>)
    ensures |steps| == 2 * |times|
  {
    seq(2 * |times|, k requires 0 <= k < 2 * |times| => Step(if k % 2 == 0 then Admit else Failure, times[k / 2]))
  }

  /** `maxFailures - 1` failures at the end of one window, as many at the start of the next. */
  function StraddlingTimes(cfg: Config): (times: seq<int>)
    requires cfg.Valid()
    ensures |times| == 2 * cfg.maxFailures - 2
  {
    seq(2 * cfg.maxFailures - 2, k => cfg.failureWindow + if k < cfg.maxFailures - 1 then 0 else 1)
  }

  function Straddling(cfg: Config): seq<Step>
    requires cfg.Valid()
  {
    FailingCalls(StraddlingTimes(cfg))
  }

  /** The breaker after `i` calls. */
  function StraddlingFields(cfg: Config, i: nat): Fields {
    var half, w := cfg.maxFailures - 1, cfg.failureWindow;
    if i == 0 then Initial(0)
    else if i <= half then Fields(Closed, i, w, 0, false)
    else Fields(Closed, i - half, w + 1, w + 1, false)
  }

  lemma StraddlingStep(cfg: Config, i: nat)
    requires cfg.Valid() && 1 <= i <= 2 * cfg.maxFailures - 2
    ensures var steps, before, now := Straddling(cfg), StraddlingFields(cfg, i - 1), StraddlingTimes(cfg)[i - 1];
            && steps[2 * i - 2] == Step(Admit, now) && Next(cfg, before, Step(Admit, now)) == before
            && Admits(cfg, before, now)
            && steps[2 * i - 1] == Step(Failure, now)
            && Next(cfg, before, Step(Failure, now)) == StraddlingFields(cfg, i)
  {
  }

  lemma {:induction false} StraddlingStates(cfg: Config, i: nat)
    requires cfg.Valid() && i <= 2 * cfg.maxFailures - 2
    ensures At(cfg, 0, Straddling(cfg), 2 * i) == StraddlingFields(cfg, i)
    ensures i > 0 ==> At(cfg, 0, Straddling(cfg), 2 * i - 1) == StraddlingFields(cfg, i - 1)
  {
    if i > 0 {
      var steps, n := Straddling(cfg), 2 * i - 2;
      StraddlingStates(cfg, i - 1);
      StraddlingStep(cfg, i);
      assert At(cfg, 0, steps, n + 1) == Next(cfg, At(cfg, 0, steps, n), steps[n]);
      assert At(cfg, 0, steps, n + 2) == Next(cfg, At(cfg, 0, steps, n + 1), steps[n + 1]);
    }
  }

  /** Sections `2*c` and `2*c + 1` are an admission that lets its call through and its report. */
  ghost predicate IsCall(cfg: Config, born: int, steps: seq<Step>, c: nat) {
    && 2 * c + 1 < |steps| && steps[2 * c].section.Admit? && !steps[2 * c + 1].section.Admit?
    && Admits(cfg, At(cfg, born, steps, 2 * c), steps[2 * c].now)
  }

  lemma {:induction false} CallCounts(cfg: Config, born: int, steps: seq<Step>, i: nat)
    requires 2 * i <= |steps| && forall c: nat :: c < i ==> IsCall(cfg, born, steps, c)
    ensures Reports(steps, 2 * i) == LetThrough(cfg, born, steps, 2 * i) == i
    ensures i > 0 ==> Reports(steps, 2 * i - 1) < LetThrough(cfg, born, steps, 2 * i - 1)
  {
    if i > 0 {
      CallCounts(cfg, born, steps, i - 1);
      assert IsCall(cfg, born, steps, i - 1);
      CountCall(cfg, born, steps, 2 * i - 2);
    }
  }

  /** One call that is let through and reports. */
  lemma CountCall(cfg: Config, born: int, steps: seq<Step>, n: nat)
    requires n + 2 <= |steps| && steps[n].section.Admit? && !steps[n + 1].section.Admit?
    requires Admits(cfg, At(cfg, born, steps, n), steps[n].now)
    ensures Reports(steps, n + 1) == Reports(steps, n) && Reports(steps, n + 2) == Reports(steps, n) + 1
    ensures LetThrough(cfg, born, steps, n + 1) == LetThrough(cfg, born, steps, n + 2)
          == LetThrough(cfg, born, steps, n) + 1
  {
    assert Reports(steps, n + 2) == Reports(steps, n + 1) + 1;
    assert LetThrough(cfg, born, steps, n + 2) == LetThrough(cfg, born, steps, n + 1);
  }

  lemma StraddlingCall(cfg: Config, c: nat)
    requires cfg.Valid() && c < 2 * cfg.maxFailures - 2
    ensures IsCall(cfg, 0, Straddling(cfg), c)
  {
    StraddlingStates(cfg, c);
    StraddlingStep(cfg, c + 1);
  }

  lemma StraddlingAt(cfg: Config, k: nat)
    requires cfg.Valid() && k <= |Straddling(cfg)|
    ensures At(cfg, 0, Straddling(cfg), k).state.Closed?
    ensures Reports(Straddling(cfg), k) <= LetThrough(cfg, 0, Straddling(cfg), k)
  {
    var i := (k + 1) / 2;
    StraddlingStates(cfg, i);
    forall c: nat | c < i ensures IsCall(cfg, 0, Straddling(cfg), c) {
      StraddlingCall(cfg, c);
    }
    CallCounts(cfg, 0, Straddling(cfg), i);
    assert k == 2 * i || k == 2 * i - 1;
  }

  lemma StraddlingIsRun(cfg: Config)
    requires cfg.Valid()
    ensures Realisable(cfg, 0, Straddling(cfg))
    ensures forall k :: 0 <= k <= |Straddling(cfg)| ==> At(cfg, 0, Straddling(cfg), k).state.Closed?
  {
    forall k | 0 <= k <= |Straddling(cfg)|
      ensures At(cfg, 0, Straddling(cfg), k).state.Closed?
      ensures Reports(Straddling(cfg), k) <= LetThrough(cfg, 0, Straddling(cfg), k)
    {
      StraddlingAt(cfg, k);
    }
    StraddlingOrdered(cfg);
  }

  lemma StraddlingOrdered(cfg: Config)
    requires cfg.Valid()
    ensures Ordered(0, Straddling(cfg))
  {
  }

  lemma {:induction false} StraddlingFailTimes(cfg: Config, n: nat)
    requires cfg.Valid() && n <= 2 * cfg.maxFailures - 2
    ensures FailTimes(Straddling(cfg), 0, 2 * n) == StraddlingTimes(cfg)[..n]
  {
    if n > 0 {
      StraddlingFailTimes(cfg, n - 1);
      StraddlingStep(cfg, n);
      assert FailTimes(Straddling(cfg), 0, 2 * n - 1) == FailTimes(Straddling(cfg), 0, 2 * n - 2);
    }
  }

  /** Some run of calls leaves a breaker closed over a window length, with no success and
      `n` failures. */
  ghost predicate Absorbs(cfg: Config, n: nat) {
    exists born, steps, i, j, from :: Absorbed(cfg, n, born, steps, i, j, from)
  }

  ghost predicate Absorbed(cfg: Config, n: nat, born: int, steps: seq<Step>, i: nat, j: nat, from: int) {
    && Realisable(cfg, born, steps) && StaysClosed(cfg, born, steps, i, j, from)
    && FailuresBetween(steps, i, j) == n
  }

  /** Calls that fail one after another attain the bound, for every limit and every window of
      positive length; with a window of length zero only the trivial limit does. */
  lemma BoundIsTight(cfg: Config)
    requires cfg.Valid()
    ensures Absorbs(cfg, 2 * cfg.maxFailures - 2) <==> cfg.maxFailures == 1 || cfg.failureWindow >= 1
  {
    var n := 2 * cfg.maxFailures - 2;
    if cfg.maxFailures == 1 || cfg.failureWindow >= 1 {
      var steps := Straddling(cfg);
      StraddlingIsRun(cfg);
      StraddlingFailTimes(cfg, n);
      assert Absorbed(cfg, n, 0, steps, 0, 2 * n, cfg.failureWindow);
    } else if Absorbs(cfg, n) {
      var born, steps, i, j, from :| Absorbed(cfg, n, born, steps, i, j, from);
      ZeroWindowBound(cfg, born, steps, i, j, from);
    }
  }

  // ----- when `maxFailures` failures in a row do trip a closed breaker

  function FailAll(cfg: Config, b: Fields, times: seq<int>): Fields
    decreases |times|
  {
    if times == [] then b else FailAll(cfg, AfterFailure(cfg, b, times[0]), times[1..])
  }

  ghost predicate Rising(times: seq<int>) {
    forall i, j :: 0 <= i < j < |times| ==> times[i] <= times[j]
  }

  /** How many of the times fall in the window that is already open. */
  function InWindow(cfg: Config, b: Fields, times: seq<int>): nat
    decreases |times|
  {
    if times == [] then 0
    else (if times[0] - b.windowStart <= cfg.failureWindow then 1 else 0) + InWindow(cfg, b, times[1..])
  }

  lemma {:induction false} OpenStaysOpen(cfg: Config, b: Fields, times: seq<int>)
    requires cfg.Valid() && b.state.Open?
    ensures FailAll(cfg, b, times).state.Open?
    decreases |times|
  {
    if times != [] {
      OpenStaysOpen(cfg, AfterFailure(cfg, b, times[0]), times[1..]);
    }
  }

  lemma {:induction false} InWindowBound(cfg: Config, b: Fields, times: seq<int>)
    requires Rising(times)
    ensures InWindow(cfg, b, times) <= |times|
    ensures times != [] && times[0] - b.windowStart > cfg.failureWindow ==> InWindow(cfg, b, times) == 0
    ensures times != [] && times[|times| - 1] - b.windowStart <= cfg.failureWindow ==>
              InWindow(cfg, b, times) == |times|
    decreases |times|
  {
    if times != [] {
      InWindowBound(cfg, b, times[1..]);
      assert times[0] <= times[|times| - 1];
      if |times| > 1 {
        assert times[0] <= times[1] && times[1..][|times| - 2] == times[|times| - 1];
      }
    }
  }

  /** Only the window matters for the count, so the other fields may differ. */
  lemma {:induction false} InWindowFrame(cfg: Config, b: Fields, c: Fields, times: seq<int>)
    requires b.windowStart == c.windowStart
    ensures InWindow(cfg, b, times) == InWindow(cfg, c, times)
    decreases |times|
  {
    if times != [] {
      InWindowFrame(cfg, b, c, times[1..]);
    }
  }

  /** A closed breaker given failures that all fall within one window's length trips if and
      only if the ones that still land in the window it has open fill the counter, or the
      ones after the reset do. */
  lemma {:induction false} FailAllOutcome(cfg: Config, b: Fields, times: seq<int>)
    requires cfg.Valid() && b.state.Closed? && 0 <= b.failures < cfg.maxFailures && Rising(times)
    requires times != [] ==> times[|times| - 1] - times[0] <= cfg.failureWindow
    ensures var q := InWindow(cfg, b, times);
            FailAll(cfg, b, times).state.Open? <==> b.failures + q >= cfg.maxFailures || |times| - q >= cfg.maxFailures
    decreases |times|
  {
    if times != [] {
      var c, rest := AfterFailure(cfg, b, times[0]), times[1..];
      InWindowBound(cfg, b, times);
      InWindowBound(cfg, c, rest);
      if rest != [] {
        assert rest[|rest| - 1] == times[|times| - 1] && times[0] <= rest[0];
      }
      if c.state.Open? {
        OpenStaysOpen(cfg, c, rest);
      } else {
        FailAllOutcome(cfg, c, rest);
        if times[0] - b.windowStart <= cfg.failureWindow {
          InWindowFrame(cfg, b, c, rest);
        }
      }
    }
  }

  /** `maxFailures` failures in a row within one window length do not always trip a closed
      breaker.  They do exactly when the first comes after the open window has lapsed, or
      when those still inside it top the counter up to the limit. */
  lemma TripCondition(cfg: Config, b: Fields, times: seq<int>)
    requires cfg.Valid() && b.state.Closed? && 0 <= b.failures < cfg.maxFailures && Rising(times)
    requires |times| == cfg.maxFailures && times[|times| - 1] - times[0] <= cfg.failureWindow
    ensures FailAll(cfg, b, times).state.Open?
       <==> times[0] > b.windowStart + cfg.failureWindow || b.failures + InWindow(cfg, b, times) >= cfg.maxFailures
  {
    InWindowBound(cfg, b, times);
    FailAllOutcome(cfg, b, times);
    if times[0] <= b.windowStart + cfg.failureWindow {
      assert InWindow(cfg, b, times) >= 1;
    }
  }

  // ----- the same, of runs

  lemma {:induction false} FailAllSnoc(cfg: Config, b: Fields, times: seq<int>, now: int)
    ensures FailAll(cfg, b, times + [now]) == AfterFailure(cfg, FailAll(cfg, b, times), now)
    decreases |times|
  {
    if times == [] {
      assert FailAll(cfg, AfterFailure(cfg, b, now), (times + [now])[1..]) == AfterFailure(cfg, b, now);
    } else {
      assert (times + [now])[1..] == times[1..] + [now];
      FailAllSnoc(cfg, AfterFailure(cfg, b, times[0]), times[1..], now);
    }
  }

  ghost predicate NoSuccess(steps: seq<Step>, i: nat, j: nat)
    requires i <= j <= |steps|
  {
    forall k :: i <= k < j ==> !steps[k].section.Success?
  }

  ghost predicate Opens(cfg: Config, born: int, steps: seq<Step>, i: nat, j: nat)
    requires i <= j <= |steps|
  {
    exists k :: i <= k <= j && At(cfg, born, steps, k).state.Open?
  }

  /** Without a success in between, a closed breaker opens exactly when its recorded failures
      alone would open it; until then they alone determine its fields. */
  lemma {:induction false} FailAllIsRun(cfg: Config, born: int, steps: seq<Step>, i: nat, j: nat)
    requires IsRun(cfg, born, steps) && i <= j <= |steps| && NoSuccess(steps, i, j)
    requires At(cfg, born, steps, i).state.Closed?
    ensures var b := FailAll(cfg, At(cfg, born, steps, i), FailTimes(steps, i, j));
            && (Opens(cfg, born, steps, i, j) <==> b.state.Open?)
            && (!Opens(cfg, born, steps, i, j) ==> At(cfg, born, steps, j) == b)
    decreases j
  {
    var b := At(cfg, born, steps, i);
    if i == j {
      assert FailAll(cfg, b, []) == b;
    } else {
      FailAllIsRun(cfg, born, steps, i, j - 1);
      FailAllGrows(cfg, b, steps, i, j);
      if Opens(cfg, born, steps, i, j - 1) {
        OpensLater(cfg, born, steps, i, j);
      } else {
        StillClosed(cfg, born, steps, i, j - 1);
        AlwaysSound(cfg, born, steps, j - 1);
        ClosedStep(cfg, At(cfg, born, steps, j - 1), steps[j - 1]);
        assert Opens(cfg, born, steps, i, j) <==> At(cfg, born, steps, j).state.Open?;
      }
    }
  }

  lemma OpensLater(cfg: Config, born: int, steps: seq<Step>, i: nat, j: nat)
    requires i < j <= |steps| && Opens(cfg, born, steps, i, j - 1)
    ensures Opens(cfg, born, steps, i, j)
  {
    var k :| i <= k <= j - 1 && At(cfg, born, steps, k).state.Open?;
    assert i <= k <= j;
  }

  lemma FailAllGrows(cfg: Config, b: Fields, steps: seq<Step>, i: nat, j: nat)
    requires cfg.Valid() && i < j <= |steps|
    ensures var before, after := FailAll(cfg, b, FailTimes(steps, i, j - 1)), FailAll(cfg, b, FailTimes(steps, i, j));
            && (steps[j - 1].section.Failure? ==> after == AfterFailure(cfg, before, steps[j - 1].now))
            && (!steps[j - 1].section.Failure? ==> after == before)
            && (before.state.Open? ==> after.state.Open?)
  {
    if steps[j - 1].section.Failure? {
      FailAllSnoc(cfg, b, FailTimes(steps, i, j - 1), steps[j - 1].now);
    }
  }

  /** Only a failure changes a closed breaker. */
  lemma ClosedStep(cfg: Config, b: Fields, step: Step)
    requires cfg.Valid() && b.state.Closed? && !step.section.Success?
    ensures Next(cfg, b, step) == if step.section.Failure? then AfterFailure(cfg, b, step.now) else b
  {
  }

  lemma {:induction false} StillClosed(cfg: Config, born: int, steps: seq<Step>, i: nat, j: nat)
    requires IsRun(cfg, born, steps) && i <= j <= |steps|
    requires At(cfg, born, steps, i).state.Closed? && !Opens(cfg, born, steps, i, j)
    ensures At(cfg, born, steps, j).state.Closed?
    decreases j
  {
    if i < j {
      StillClosed(cfg, born, steps, i, j - 1);
      Transitions(cfg, At(cfg, born, steps, j - 1), steps[j - 1]);
      assert !At(cfg, born, steps, j).state.Open?;
    }
  }

  lemma {:induction false} FailTimesRise(born: int, steps: seq<Step>, i: nat, j: nat)
    requires Ordered(born, steps) && i <= j <= |steps|
    ensures Rising(FailTimes(steps, i, j))
    ensures forall k :: 0 <= k < |FailTimes(steps, i, j)| ==> FailTimes(steps, i, j)[k] <= Clock(born, steps, j)
    decreases j
  {
    if i < j {
      FailTimesRise(born, steps, i, j - 1);
      assert Clock(born, steps, j - 1) <= steps[j - 1].now == Clock(born, steps, j);
    }
  }

  /** In every run: a closed breaker that records `maxFailures` failures within one window
      length, with no success in between, whatever other sections run, opens exactly when the
      first comes after the open window has lapsed, or those still inside it fill the counter. */
  lemma TripsExactlyWhen(cfg: Config, born: int, steps: seq<Step>, i: nat, j: nat)
    requires IsRun(cfg, born, steps) && i <= j <= |steps| && NoSuccess(steps, i, j)
    requires At(cfg, born, steps, i).state.Closed?
    requires var times := FailTimes(steps, i, j);
             |times| == cfg.maxFailures && times[|times| - 1] - times[0] <= cfg.failureWindow
    ensures var b, times := At(cfg, born, steps, i), FailTimes(steps, i, j);
            Opens(cfg, born, steps, i, j) <==>
            (times[0] > b.windowStart + cfg.failureWindow || b.failures + InWindow(cfg, b, times) >= cfg.maxFailures)
  {
    AlwaysSound(cfg, born, steps, i);
    FailAllIsRun(cfg, born, steps, i, j);
    FailTimesRise(born, steps, i, j);
    TripCondition(cfg, At(cfg, born, steps, i), FailTimes(steps, i, j));
  }

  lemma {:induction false} FailTimesSince(born: int, steps: seq<Step>, i: nat, j: nat)
    requires Ordered(born, steps) && i <= j <= |steps|
    ensures forall k :: 0 <= k < |FailTimes(steps, i, j)| ==> FailTimes(steps, i, j)[k] >= Clock(born, steps, i)
    decreases j
  {
    if i < j {
      FailTimesSince(born, steps, i, j - 1);
      ClockMonotone(born, steps, i, j);
    }
  }

  /** A window begins when the breaker is made, and with every success: if section `i - 1` was
      one and left the breaker closed, the failures of the window that begins with it, no
      success among them, open the breaker exactly when there are `maxFailures` of them. */
  lemma FreshWindow(cfg: Config, born: int, steps: seq<Step>, i: nat, j: nat)
    requires IsRun(cfg, born, steps) && i <= j <= |steps| && NoSuccess(steps, i, j)
    requires i == 0 || (steps[i - 1].section.Success? && At(cfg, born, steps, i).state.Closed?)
    requires var times, start := FailTimes(steps, i, j), if i == 0 then born else steps[i - 1].now;
             times != [] ==> times[|times| - 1] <= start + cfg.failureWindow
    ensures Opens(cfg, born, steps, i, j) <==> |FailTimes(steps, i, j)| >= cfg.maxFailures
  {
    var b, times := At(cfg, born, steps, i), FailTimes(steps, i, j);
    assert b.state.Closed? && b.failures == 0 && b.windowStart == Clock(born, steps, i);
    FailAllIsRun(cfg, born, steps, i, j);
    FailTimesRise(born, steps, i, j);
    FailTimesSince(born, steps, i, j);
    InWindowBound(cfg, b, times);
    FailAllOutcome(cfg, b, times);
  }

  /** The same of a trial's success, which closes the breaker. */
  lemma FreshAfterTrial(cfg: Config, born: int, steps: seq<Step>, i: nat, j: nat)
    requires IsRun(cfg, born, steps) && 1 <= i <= j <= |steps| && NoSuccess(steps, i, j)
    requires At(cfg, born, steps, i - 1).state.HalfOpen? && steps[i - 1].section.Success?
    requires var times := FailTimes(steps, i, j);
             times != [] ==> times[|times| - 1] <= steps[i - 1].now + cfg.failureWindow
    ensures Opens(cfg, born, steps, i, j) <==> |FailTimes(steps, i, j)| >= cfg.maxFailures
  {
    TrialLife(cfg, born, steps, i - 1);
    FreshWindow(cfg, born, steps, i, j);
  }

  /** `maxFailures` failing calls in a row within a window length always open a closed breaker. */
  ghost predicate AlwaysTrips(cfg: Config) {
    forall born, steps, i, j ::
      Realisable(cfg, born, steps) && InARow(cfg, born, steps, i, j) ==> Opens(cfg, born, steps, i, j)
  }

  ghost predicate InARow(cfg: Config, born: int, steps: seq<Step>, i: nat, j: nat) {
    && i <= j <= |steps| && NoSuccess(steps, i, j) && At(cfg, born, steps, i).state.Closed?
    && var times := FailTimes(steps, i, j);
       |times| == cfg.maxFailures >= 1 && times[|times| - 1] - times[0] <= cfg.failureWindow
  }

  /** That is what the operating instructions say.  It holds for no configuration but a limit
      of one or a window of length zero. */
  lemma AlwaysTripsIff(cfg: Config)
    requires cfg.Valid()
    ensures AlwaysTrips(cfg) <==> cfg.maxFailures == 1 || cfg.failureWindow == 0
  {
    if cfg.maxFailures == 1 || cfg.failureWindow == 0 {
      forall born, steps, i: nat, j: nat | Realisable(cfg, born, steps) && InARow(cfg, born, steps, i, j)
        ensures Opens(cfg, born, steps, i, j)
      {
        ShortRowOpens(cfg, born, steps, i, j);
      }
    } else {
      var steps, m := Straddling(cfg), cfg.maxFailures;
      StraddlingIsRun(cfg);
      StraddlingFailTimes(cfg, m);
      assert !Opens(cfg, 0, steps, 0, 2 * m);
      assert InARow(cfg, 0, steps, 0, 2 * m);
    }
  }

  lemma ShortRowOpens(cfg: Config, born: int, steps: seq<Step>, i: nat, j: nat)
    requires IsRun(cfg, born, steps) && InARow(cfg, born, steps, i, j)
    requires cfg.maxFailures == 1 || cfg.failureWindow == 0
    ensures Opens(cfg, born, steps, i, j)
  {
    var b, times := At(cfg, born, steps, i), FailTimes(steps, i, j);
    TripsExactlyWhen(cfg, born, steps, i, j);
    AlwaysSound(cfg, born, steps, i);
    FailTimesRise(born, steps, i, j);
    InWindowBound(cfg, b, times);
  }
}
