/** How many trial calls can be in flight at once.  Sections do not name their calls; a report
    may be made by any call let through earlier that has not reported, so which calls can still
    be in flight is a matter of counting. */
module BreakerTrials {
  import opened Breaker
  import opened BreakerProbe

  /** Step `k` lets a trial call through. */
  ghost predicate TrialAt(cfg: Config, born: int, steps: seq<Step>, k: int) {
    && 0 <= k < |steps| && steps[k].section.Admit? && Admits(cfg, At(cfg, born, steps, k), steps[k].now)
    && At(cfg, born, steps, k + 1).state.HalfOpen?
  }

  // ----- while nothing reports

  /** Until some call reports, the flag stays up and everyone is refused. */
  lemma {:induction false} FlagStays(cfg: Config, born: int, steps: seq<Step>, i: nat, j: nat)
    requires TrialAt(cfg, born, steps, i) && i < j <= |steps| && Reports(steps, j) == Reports(steps, i + 1)
    ensures At(cfg, born, steps, j).state.HalfOpen? && At(cfg, born, steps, j).probe
    ensures LetThrough(cfg, born, steps, j) == LetThrough(cfg, born, steps, i) + 1
    decreases j
  {
    if i + 1 < j {
      ReportsRise(steps, i + 1, j - 1);
      FlagStays(cfg, born, steps, i, j - 1);
    }
  }

  lemma {:induction false} ReportsRise(steps: seq<Step>, i: nat, j: nat)
    requires i <= j <= |steps|
    ensures Reports(steps, i) <= Reports(steps, j)
    decreases j
  {
    if i < j {
      ReportsRise(steps, i, j - 1);
    }
  }

  /** If the flag is up although some call has reported, another trial has begun since. */
  lemma {:induction false} FlagIsNew(cfg: Config, born: int, steps: seq<Step>, i: nat, j: nat) returns (k: nat)
    requires IsRun(cfg, born, steps) && i < j <= |steps|
    requires At(cfg, born, steps, j).probe && Reports(steps, j) > Reports(steps, i + 1)
    ensures i < k < j && TrialAt(cfg, born, steps, k)
    decreases j
  {
    AlwaysSound(cfg, born, steps, j);
    AlwaysSound(cfg, born, steps, j - 1);
    k := j - 1;
    if !TrialAt(cfg, born, steps, k) {
      k := FlagIsNew(cfg, born, steps, i, j - 1);
    }
  }

  // ----- continuations

  lemma {:induction false} Prefixes(cfg: Config, born: int, steps: seq<Step>, more: seq<Step>, i: nat)
    requires i <= |steps|
    ensures At(cfg, born, steps + more, i) == At(cfg, born, steps, i)
    ensures LetThrough(cfg, born, steps + more, i) == LetThrough(cfg, born, steps, i)
    ensures Reports(steps + more, i) == Reports(steps, i)
  {
    AtPrefix(cfg, born, steps, more, i);
    if i > 0 {
      Prefixes(cfg, born, steps, more, i - 1);
    }
  }

  lemma TrialInPrefix(cfg: Config, born: int, steps: seq<Step>, more: seq<Step>, k: int)
    requires 0 <= k < |steps|
    ensures TrialAt(cfg, born, steps + more, k) <==> TrialAt(cfg, born, steps, k)
  {
    Prefixes(cfg, born, steps, more, k);
    Prefixes(cfg, born, steps, more, k + 1);
  }

  /** Of the calls let through by the first `p` sections none reports later. */
  ghost predicate Fresh(cfg: Config, born: int, steps: seq<Step>, p: nat) {
    && p <= |steps|
    && forall j :: p <= j <= |steps| ==> FreshAt(cfg, born, steps, p, j)
  }

  ghost predicate FreshAt(cfg: Config, born: int, steps: seq<Step>, p: nat, j: nat)
    requires p <= |steps| && j <= |steps|
  {
    Reports(steps, j) - Reports(steps, p) <= LetThrough(cfg, born, steps, j) - LetThrough(cfg, born, steps, p)
  }

  /** A continuation in which only calls that begin in it report. */
  ghost predicate Continues(cfg: Config, born: int, steps: seq<Step>, more: seq<Step>) {
    IsRun(cfg, born, steps + more) && Fresh(cfg, born, steps + more, |steps|)
  }

  lemma ContinuesTwice(cfg: Config, born: int, steps: seq<Step>, a: seq<Step>, b: seq<Step>)
    requires Continues(cfg, born, steps, a) && Continues(cfg, born, steps + a, b)
    ensures Continues(cfg, born, steps, a + b)
  {
    var p, q, one, all := |steps|, |steps + a|, steps + a, steps + (a + b);
    assert all == one + b;
    forall j | p <= j <= |all| ensures FreshAt(cfg, born, all, p, j) {
      Prefixes(cfg, born, one, b, p);
      Prefixes(cfg, born, one, b, q);
      assert FreshAt(cfg, born, one, p, q);
      if j <= q {
        Prefixes(cfg, born, one, b, j);
        assert FreshAt(cfg, born, one, p, j);
      } else {
        assert FreshAt(cfg, born, all, q, j);
      }
    }
  }

  /** One more section. */
  lemma OneMore(cfg: Config, born: int, steps: seq<Step>, step: Step)
    requires IsRun(cfg, born, steps) && Clock(born, steps, |steps|) <= step.now
    ensures IsRun(cfg, born, steps + [step])
    ensures At(cfg, born, steps + [step], |steps| + 1) == Next(cfg, At(cfg, born, steps, |steps|), step)
    ensures Reports(steps + [step], |steps| + 1) == Reports(steps, |steps|) + if step.section.Admit? then 0 else 1
    ensures LetThrough(cfg, born, steps + [step], |steps| + 1)
         == LetThrough(cfg, born, steps, |steps|)
          + if step.section.Admit? && Admits(cfg, At(cfg, born, steps, |steps|), step.now) then 1 else 0
  {
    OrderedGrows(born, steps, step);
    Prefixes(cfg, born, steps, [step], |steps|);
  }

  /** One admission. */
  lemma AdmitNext(cfg: Config, born: int, steps: seq<Step>, now: int)
    requires IsRun(cfg, born, steps) && Clock(born, steps, |steps|) <= now
    ensures var all := steps + [Step(Admit, now)];
            && Continues(cfg, born, steps, [Step(Admit, now)])
            && At(cfg, born, all, |steps| + 1) == AfterAdmit(cfg, At(cfg, born, steps, |steps|), now)
            && (Admits(cfg, At(cfg, born, steps, |steps|), now) && !At(cfg, born, steps, |steps|).state.Closed?
                ==> TrialAt(cfg, born, all, |steps|))
  {
    var n, step := |steps|, Step(Admit, now);
    OrderedGrows(born, steps, step);
    Prefixes(cfg, born, steps, [step], n);
    assert FreshAt(cfg, born, steps + [step], n, n);
    assert FreshAt(cfg, born, steps + [step], n, n + 1);
  }

  /** One call that a closed breaker lets through, and that fails at once. */
  lemma FailNext(cfg: Config, born: int, steps: seq<Step>, now: int)
    requires IsRun(cfg, born, steps) && Clock(born, steps, |steps|) <= now
    requires At(cfg, born, steps, |steps|).state.Closed?
    ensures var call := [Step(Admit, now)] + [Step(Failure, now)];
            && Continues(cfg, born, steps, call)
            && At(cfg, born, steps + call, |steps| + 2) == AfterFailure(cfg, At(cfg, born, steps, |steps|), now)
  {
    var n, call := |steps|, [Step(Admit, now)] + [Step(Failure, now)];
    CallCounts(cfg, born, steps, now);
    forall j | n <= j <= |steps + call| ensures FreshAt(cfg, born, steps + call, n, j) {
      assert j == n || j == n + 1 || j == n + 2;
    }
  }

  lemma CallCounts(cfg: Config, born: int, steps: seq<Step>, now: int)
    requires IsRun(cfg, born, steps) && Clock(born, steps, |steps|) <= now
    requires At(cfg, born, steps, |steps|).state.Closed?
    ensures var n, all := |steps|, steps + ([Step(Admit, now)] + [Step(Failure, now)]);
            && IsRun(cfg, born, all) && At(cfg, born, all, n + 2) == AfterFailure(cfg, At(cfg, born, steps, n), now)
            && Reports(all, n) == Reports(all, n + 1) == Reports(all, n + 2) - 1
            && LetThrough(cfg, born, all, n + 1) == LetThrough(cfg, born, all, n + 2)
            && LetThrough(cfg, born, all, n + 1) == LetThrough(cfg, born, all, n) + 1
  {
    var n, one := |steps|, steps + [Step(Admit, now)];
    OneMore(cfg, born, steps, Step(Admit, now));
    OneMore(cfg, born, one, Step(Failure, now));
    assert steps + ([Step(Admit, now)] + [Step(Failure, now)]) == one + [Step(Failure, now)];
    Prefixes(cfg, born, steps, [Step(Admit, now)], n);
    Prefixes(cfg, born, one, [Step(Failure, now)], n);
    Prefixes(cfg, born, one, [Step(Failure, now)], n + 1);
  }

  function Lapsed(cfg: Config, b: Fields, now: int): nat {
    if now - b.windowStart > cfg.failureWindow then 1 else 0
  }

  /** Failing calls open a closed breaker. */
  lemma {:induction false} FailUntilOpen(cfg: Config, born: int, steps: seq<Step>) returns (more: seq<Step>)
    requires IsRun(cfg, born, steps) && At(cfg, born, steps, |steps|).state.Closed?
    ensures Continues(cfg, born, steps, more) && At(cfg, born, steps + more, |steps + more|).state.Open?
    decreases Lapsed(cfg, At(cfg, born, steps, |steps|), Clock(born, steps, |steps|)),
              cfg.maxFailures - At(cfg, born, steps, |steps|).failures
  {
    var now := Clock(born, steps, |steps|);
    var call := [Step(Admit, now)] + [Step(Failure, now)];
    AlwaysSound(cfg, born, steps, |steps|);
    FailNext(cfg, born, steps, now);
    var one := steps + call;
    if At(cfg, born, one, |one|).state.Open? {
      more := call;
    } else {
      var rest := FailUntilOpen(cfg, born, one);
      ContinuesTwice(cfg, born, steps, call, rest);
      more := call + rest;
      assert steps + more == one + rest;
    }
  }

  /** If the flag is down, fresh calls alone can bring another trial about. */
  lemma TrialFollows(cfg: Config, born: int, steps: seq<Step>) returns (more: seq<Step>)
    requires IsRun(cfg, born, steps) && !At(cfg, born, steps, |steps|).probe
    ensures Continues(cfg, born, steps, more) && |more| > 0 && TrialAt(cfg, born, steps + more, |steps + more| - 1)
  {
    if At(cfg, born, steps, |steps|).state.Closed? {
      var first := FailUntilOpen(cfg, born, steps);
      var one := steps + first;
      AlwaysSound(cfg, born, one, |one|);
      var next := TrialNow(cfg, born, one);
      ContinuesTwice(cfg, born, steps, first, [next]);
      more := first + [next];
      assert steps + more == one + [next];
    } else {
      var next := TrialNow(cfg, born, steps);
      more := [next];
    }
  }

  /** A caller that is let in as a trial, now or when the timeout is over. */
  lemma TrialNow(cfg: Config, born: int, steps: seq<Step>) returns (next: Step)
    requires IsRun(cfg, born, steps)
    requires !At(cfg, born, steps, |steps|).probe && !At(cfg, born, steps, |steps|).state.Closed?
    ensures Continues(cfg, born, steps, [next]) && TrialAt(cfg, born, steps + [next], |steps|)
  {
    var b, clock := At(cfg, born, steps, |steps|), Clock(born, steps, |steps|);
    var due := b.lastFailure + cfg.openTimeout;
    var now := if b.state.HalfOpen? || clock > due then clock else due + 1;
    AdmitNext(cfg, born, steps, now);
    next := Step(Admit, now);
  }

  // ----- when another trial can begin

  /** A continuation of `steps` in which only calls that begin in it report, and in all of
      which another trial begins after step `i`. */
  ghost predicate AnotherTrial(cfg: Config, born: int, steps: seq<Step>, i: nat, more: seq<Step>) {
    && Continues(cfg, born, steps, more)
    && exists k :: i < k < |steps + more| && TrialAt(cfg, born, steps + more, k)
  }

  /** Let a trial begin at step `i`.  Without another report of the calls let through so far,
      another trial begins in some continuation, if it has not yet, exactly when some call has
      reported since step `i`: a stale one, if the trial is still in flight. */
  lemma AnotherTrialIff(cfg: Config, born: int, steps: seq<Step>, i: nat)
    requires IsRun(cfg, born, steps) && TrialAt(cfg, born, steps, i)
    ensures (exists more :: AnotherTrial(cfg, born, steps, i, more))
       <==> Reports(steps, |steps|) > Reports(steps, i + 1)
  {
    ReportsRise(steps, i + 1, |steps|);
    if Reports(steps, |steps|) == Reports(steps, i + 1) {
      forall more | Continues(cfg, born, steps, more) ensures !AnotherTrial(cfg, born, steps, i, more) {
        NoneWithoutReport(cfg, born, steps, i, more);
      }
    } else if At(cfg, born, steps, |steps|).probe {
      var k := FlagIsNew(cfg, born, steps, i, |steps|);
      assert steps + [] == steps;
      assert Continues(cfg, born, steps, []);
      assert AnotherTrial(cfg, born, steps, i, []);
    } else {
      var more := TrialFollows(cfg, born, steps);
      assert AnotherTrial(cfg, born, steps, i, more);
    }
  }

  lemma {:induction false} StaysSilent(cfg: Config, born: int, steps: seq<Step>, i: nat, p: nat, j: nat)
    requires TrialAt(cfg, born, steps, i) && Fresh(cfg, born, steps, p) && i < p <= j <= |steps|
    requires Reports(steps, p) == Reports(steps, i + 1)
    ensures Reports(steps, j) == Reports(steps, i + 1)
    decreases j
  {
    if p < j {
      StaysSilent(cfg, born, steps, i, p, j - 1);
      FlagStays(cfg, born, steps, i, p);
      FlagStays(cfg, born, steps, i, j - 1);
      assert FreshAt(cfg, born, steps, p, j);
    }
  }

  lemma NoneWithoutReport(cfg: Config, born: int, steps: seq<Step>, i: nat, more: seq<Step>)
    requires TrialAt(cfg, born, steps, i) && Reports(steps, |steps|) == Reports(steps, i + 1)
    requires Continues(cfg, born, steps, more)
    ensures !AnotherTrial(cfg, born, steps, i, more)
  {
    var all := steps + more;
    TrialInPrefix(cfg, born, steps, more, i);
    Prefixes(cfg, born, steps, more, |steps|);
    Prefixes(cfg, born, steps, more, i + 1);
    StaysSilent(cfg, born, all, i, |steps|, |all|);
    NoneWhileSilent(cfg, born, all, i);
  }

  lemma NoneWhileSilent(cfg: Config, born: int, steps: seq<Step>, i: nat)
    requires TrialAt(cfg, born, steps, i) && Reports(steps, |steps|) == Reports(steps, i + 1)
    ensures forall k :: i < k < |steps| ==> !TrialAt(cfg, born, steps, k)
  {
    forall k | i < k < |steps| ensures !TrialAt(cfg, born, steps, k) {
      ReportsRise(steps, i + 1, k);
      ReportsRise(steps, k, |steps|);
      FlagStays(cfg, born, steps, i, k);
    }
  }

  // ----- the same, at the time a trial begins

  /** A run that calls can make without the one let through at step `i` reporting. */
  ghost predicate Awaited(cfg: Config, born: int, steps: seq<Step>, i: nat) {
    && Realisable(cfg, born, steps)
    && forall j :: i < j <= |steps| ==> Reports(steps, j) < LetThrough(cfg, born, steps, j)
  }

  ghost predicate SecondInFlight(cfg: Config, born: int, steps: seq<Step>, i: nat, more: seq<Step>) {
    && Awaited(cfg, born, steps + more, i)
    && exists k :: i < k < |steps + more| && TrialAt(cfg, born, steps + more, k)
  }

  /** When a trial begins: a second one can begin before it reports, in this episode or a later
      one, exactly when some other call is in flight. */
  lemma SecondTrialIff(cfg: Config, born: int, steps: seq<Step>, i: nat)
    requires Realisable(cfg, born, steps) && |steps| == i + 1 && TrialAt(cfg, born, steps, i)
    ensures (exists more :: SecondInFlight(cfg, born, steps, i, more))
       <==> LetThrough(cfg, born, steps, i) > Reports(steps, i)
  {
    assert Reports(steps, i) <= LetThrough(cfg, born, steps, i);
    if LetThrough(cfg, born, steps, i) > Reports(steps, i) {
      StaleGivesWay(cfg, born, steps, i);
    } else {
      forall more | Awaited(cfg, born, steps + more, i) ensures !SecondInFlight(cfg, born, steps, i, more) {
        TrialInPrefix(cfg, born, steps, more, i);
        Prefixes(cfg, born, steps, more, i);
        AloneIsSilent(cfg, born, steps + more, i, |steps + more|);
        NoneWhileSilent(cfg, born, steps + more, i);
      }
    }
  }

  lemma {:induction false} AloneIsSilent(cfg: Config, born: int, steps: seq<Step>, i: nat, j: nat)
    requires TrialAt(cfg, born, steps, i) && Awaited(cfg, born, steps, i) && i < j <= |steps|
    requires LetThrough(cfg, born, steps, i) == Reports(steps, i)
    ensures Reports(steps, j) == Reports(steps, i + 1)
    decreases j
  {
    if i + 1 < j {
      AloneIsSilent(cfg, born, steps, i, j - 1);
      FlagStays(cfg, born, steps, i, j - 1);
      assert Reports(steps, j) < LetThrough(cfg, born, steps, j);
    }
  }

  /** The other call's cancellation lets the next caller in. */
  lemma StaleGivesWay(cfg: Config, born: int, steps: seq<Step>, i: nat)
    requires Realisable(cfg, born, steps) && |steps| == i + 1 && TrialAt(cfg, born, steps, i)
    requires LetThrough(cfg, born, steps, i) > Reports(steps, i)
    ensures exists more :: SecondInFlight(cfg, born, steps, i, more)
  {
    var now := steps[i].now;
    var more := [Step(Cancel, now)] + [Step(Admit, now)];
    CancelThenAdmit(cfg, born, steps, now);
    forall j | 0 <= j <= |steps + more|
      ensures Reports(steps + more, j) <= LetThrough(cfg, born, steps + more, j)
      ensures j > i ==> Reports(steps + more, j) < LetThrough(cfg, born, steps + more, j)
    {
      if j <= i + 1 {
        Prefixes(cfg, born, steps, more, j);
        assert Reports(steps, j) <= LetThrough(cfg, born, steps, j);
      } else {
        assert j == i + 2 || j == i + 3;
      }
    }
    assert SecondInFlight(cfg, born, steps, i, more);
  }

  lemma CancelThenAdmit(cfg: Config, born: int, steps: seq<Step>, now: int)
    requires IsRun(cfg, born, steps) && Clock(born, steps, |steps|) <= now
    requires At(cfg, born, steps, |steps|).state.HalfOpen?
    ensures var n, all := |steps|, steps + ([Step(Cancel, now)] + [Step(Admit, now)]);
            && IsRun(cfg, born, all) && TrialAt(cfg, born, all, n + 1)
            && Reports(all, n + 1) == Reports(all, n + 2) == Reports(steps, n) + 1
            && LetThrough(cfg, born, all, n + 1) == LetThrough(cfg, born, steps, n)
            && LetThrough(cfg, born, all, n + 2) == LetThrough(cfg, born, steps, n) + 1
  {
    var n, one := |steps|, steps + [Step(Cancel, now)];
    OneMore(cfg, born, steps, Step(Cancel, now));
    OneMore(cfg, born, one, Step(Admit, now));
    assert steps + ([Step(Cancel, now)] + [Step(Admit, now)]) == one + [Step(Admit, now)];
    Prefixes(cfg, born, one, [Step(Admit, now)], n + 1);
    assert At(cfg, born, one, n + 1).state.HalfOpen? && !At(cfg, born, one, n + 1).probe;
  }

  // ----- two trials in flight

  /** Of `maxFailures + 1` calls admitted while closed, all but one fail and trip the breaker; a
      trial begins, and the last call reports in its stead.  If it is cancelled, the next
      caller is let in at once; if it fails, the breaker opens and lets the next caller in
      when the timeout is over. */
  function StaleReport(cfg: Config, cancelled: bool): (steps: seq<Step>)
    requires cfg.Valid()
    ensures |steps| == 2 * cfg.maxFailures + 4
  {
    var late := cfg.openTimeout + 1;
    seq(2 * cfg.maxFailures + 1, k => Step(if k <= cfg.maxFailures then Admit else Failure, 0))
    + [Step(Admit, late), Step(if cancelled then Cancel else Failure, late),
       Step(Admit, if cancelled then late else 2 * late)]
  }

  lemma {:induction false} StaleReportStates(cfg: Config, cancelled: bool, i: nat)
    requires cfg.Valid() && i <= 2 * cfg.maxFailures + 1
    ensures var steps, m := StaleReport(cfg, cancelled), cfg.maxFailures;
            if i <= m + 1 then
              At(cfg, 0, steps, i) == Initial(0) && LetThrough(cfg, 0, steps, i) == i && Reports(steps, i) == 0
            else
              var f := i - m - 1;
              && At(cfg, 0, steps, i) == Fields(if f < m then Closed else Open, f, 0, 0, false)
              && LetThrough(cfg, 0, steps, i) == m + 1 && Reports(steps, i) == f
  {
    if i > 0 {
      StaleReportStates(cfg, cancelled, i - 1);
      assert StaleReport(cfg, cancelled)[i - 1] == Step(if i - 1 <= cfg.maxFailures then Admit else Failure, 0);
    }
  }

  lemma StaleReportEnds(cfg: Config, cancelled: bool)
    requires cfg.Valid()
    ensures var steps, m, n := StaleReport(cfg, cancelled), cfg.maxFailures, 2 * cfg.maxFailures + 1;
            var late := cfg.openTimeout + 1;
            && At(cfg, 0, steps, n) == Fields(Open, m, 0, 0, false)
            && At(cfg, 0, steps, n + 1) == Fields(HalfOpen, m, 0, 0, true)
            && At(cfg, 0, steps, n + 2)
            == (if cancelled then Fields(HalfOpen, m, 0, 0, false) else Fields(Open, m, late, 0, false))
            && At(cfg, 0, steps, n + 3) == Fields(HalfOpen, m, if cancelled then 0 else late, 0, true)
            && LetThrough(cfg, 0, steps, n + 1) == LetThrough(cfg, 0, steps, n + 2) == m + 2
            && LetThrough(cfg, 0, steps, n + 3) == m + 3
            && Reports(steps, n + 1) == m && Reports(steps, n + 2) == Reports(steps, n + 3) == m + 1
  {
    var steps, n, late := StaleReport(cfg, cancelled), 2 * cfg.maxFailures + 1, cfg.openTimeout + 1;
    StaleReportStates(cfg, cancelled, n);
    assert steps[n] == Step(Admit, late) && steps[n + 1] == Step(if cancelled then Cancel else Failure, late);
    assert steps[n + 2] == Step(Admit, if cancelled then late else 2 * late);
    assert At(cfg, 0, steps, n + 1) == Next(cfg, At(cfg, 0, steps, n), steps[n]);
    assert At(cfg, 0, steps, n + 2) == Next(cfg, At(cfg, 0, steps, n + 1), steps[n + 1]);
    assert At(cfg, 0, steps, n + 3) == Next(cfg, At(cfg, 0, steps, n + 2), steps[n + 2]);
  }

  lemma StaleReportAwaits(cfg: Config, cancelled: bool)
    requires cfg.Valid()
    ensures Awaited(cfg, 0, StaleReport(cfg, cancelled), 2 * cfg.maxFailures + 1)
  {
    var steps, n := StaleReport(cfg, cancelled), 2 * cfg.maxFailures + 1;
    StaleReportEnds(cfg, cancelled);
    forall i | 0 <= i <= |steps|
      ensures Reports(steps, i) <= LetThrough(cfg, 0, steps, i)
      ensures i > n ==> Reports(steps, i) < LetThrough(cfg, 0, steps, i)
    {
      if i <= n {
        StaleReportStates(cfg, cancelled, i);
      } else {
        assert i == n + 1 || i == n + 2 || i == n + 3;
      }
    }
  }

  /** For every configuration calls can do this: a second trial begins although the first has
      not reported, within one episode after a cancellation, or in the next episode without
      any.  As many calls have reported as were let through before the first trial. */
  lemma TwoProbesInFlight(cfg: Config, cancelled: bool)
    requires cfg.Valid()
    ensures var steps, n := StaleReport(cfg, cancelled), 2 * cfg.maxFailures + 1;
            && Awaited(cfg, 0, steps, n) && TrialAt(cfg, 0, steps, n) && TrialAt(cfg, 0, steps, n + 2)
            && Reports(steps, |steps|) == LetThrough(cfg, 0, steps, n)
            && LetThrough(cfg, 0, steps, |steps|) - Reports(steps, |steps|) == 2
            && Cancels(steps, 0, |steps|) == (if cancelled then 1 else 0)
            && (Episode(cfg, 0, steps, n + 1, |steps|) <==> cancelled)
  {
    var steps, n := StaleReport(cfg, cancelled), 2 * cfg.maxFailures + 1;
    StaleReportEnds(cfg, cancelled);
    StaleReportAwaits(cfg, cancelled);
    StaleReportStates(cfg, cancelled, n);
    StaleReportCancels(cfg, cancelled);
    StaleReportEpisode(cfg, cancelled);
  }

  lemma StaleReportEpisode(cfg: Config, cancelled: bool)
    requires cfg.Valid()
    ensures var n := 2 * cfg.maxFailures + 1; Episode(cfg, 0, StaleReport(cfg, cancelled), n + 1, n + 3) <==> cancelled
  {
    var steps, n := StaleReport(cfg, cancelled), 2 * cfg.maxFailures + 1;
    StaleReportEnds(cfg, cancelled);
    if cancelled {
      forall k | n + 1 <= k <= n + 3 ensures At(cfg, 0, steps, k).state.HalfOpen? {
        assert k == n + 1 || k == n + 2 || k == n + 3;
      }
    } else {
      assert At(cfg, 0, steps, n + 2).state.Open?;
    }
  }

  lemma {:induction false} NoCancels(steps: seq<Step>, j: nat)
    requires j <= |steps| && forall k :: 0 <= k < j ==> !steps[k].section.Cancel?
    ensures Cancels(steps, 0, j) == 0
  {
    if j > 0 {
      NoCancels(steps, j - 1);
    }
  }

  lemma StaleReportCancels(cfg: Config, cancelled: bool)
    requires cfg.Valid()
    ensures var steps := StaleReport(cfg, cancelled); Cancels(steps, 0, |steps|) == if cancelled then 1 else 0
  {
    var steps, n := StaleReport(cfg, cancelled), 2 * cfg.maxFailures + 1;
    NoCancels(steps, n);
    assert Cancels(steps, 0, n + 1) == 0;
    assert Cancels(steps, 0, n + 2) == if cancelled then 1 else 0;
  }
}
