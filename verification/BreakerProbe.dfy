/** How many trial calls a HalfOpen episode lets through. */
module BreakerProbe {
  import opened Breaker

  /** The breaker is HalfOpen before and after each of the steps `i..j`. */
  ghost predicate Episode(cfg: Config, born: int, steps: seq<Step>, i: nat, j: nat) {
    && i <= j <= |steps|
    && forall k :: i <= k <= j ==> At(cfg, born, steps, k).state.HalfOpen?
  }

  /** Calls let through by the steps `i..j`. */
  function Admitted(cfg: Config, born: int, steps: seq<Step>, i: nat, j: nat): int
    requires i <= j <= |steps|
  {
    LetThrough(cfg, born, steps, j) - LetThrough(cfg, born, steps, i)
  }

  function Cancels(steps: seq<Step>, i: nat, j: nat): nat
    requires i <= j <= |steps|
    decreases j
  {
    if i == j then 0
    else Cancels(steps, i, j - 1) + if steps[j - 1].section.Cancel? then 1 else 0
  }

  /** Cancellations that found the flag up and took it down. */
  function Releases(cfg: Config, born: int, steps: seq<Step>, i: nat, j: nat): nat
    requires i <= j <= |steps|
    decreases j
  {
    if i == j then 0
    else
      Releases(cfg, born, steps, i, j - 1)
      + if steps[j - 1].section.Cancel? && At(cfg, born, steps, j - 1).probe then 1 else 0
  }

  function Flag(b: Fields): nat {
    if b.probe then 1 else 0
  }

  /** Within an episode admissions are paid for exactly, by the flag and by its releases. */
  lemma {:induction false} AdmissionsAreAccounted(cfg: Config, born: int, steps: seq<Step>, i: nat, j: nat)
    requires Episode(cfg, born, steps, i, j)
    ensures Admitted(cfg, born, steps, i, j) + Flag(At(cfg, born, steps, i))
         == Releases(cfg, born, steps, i, j) + Flag(At(cfg, born, steps, j))
    ensures Releases(cfg, born, steps, i, j) <= Cancels(steps, i, j)
    decreases j
  {
    if i < j {
      AdmissionsAreAccounted(cfg, born, steps, i, j - 1);
      assert At(cfg, born, steps, j - 1).state.HalfOpen? && At(cfg, born, steps, j).state.HalfOpen?;
    }
  }

  lemma {:induction false} CancelsSplit(steps: seq<Step>, i: nat, k: nat, j: nat)
    requires i <= k <= j <= |steps|
    ensures Cancels(steps, i, j) == Cancels(steps, i, k) + Cancels(steps, k, j)
    decreases j
  {
    if k < j {
      CancelsSplit(steps, i, k, j - 1);
    }
  }

  /** The step that leaves Open is an admission, and the admitted call holds the flag. */
  lemma EpisodeOpens(cfg: Config, born: int, steps: seq<Step>, i: nat)
    requires IsRun(cfg, born, steps) && i < |steps|
    requires At(cfg, born, steps, i).state.Open? && At(cfg, born, steps, i + 1).state.HalfOpen?
    ensures Admitted(cfg, born, steps, i, i + 1) == 1 && Flag(At(cfg, born, steps, i + 1)) == 1
  {
    Transitions(cfg, At(cfg, born, steps, i), steps[i]);
  }

  /** From the step that leaves Open, an episode admits at most one call plus the
      cancellation sections executed in it, whichever calls execute them. */
  lemma EpisodeAdmissions(cfg: Config, born: int, steps: seq<Step>, i: nat, j: nat)
    requires IsRun(cfg, born, steps) && i < j <= |steps|
    requires At(cfg, born, steps, i).state.Open? && Episode(cfg, born, steps, i + 1, j)
    ensures 1 <= Admitted(cfg, born, steps, i, j) <= 1 + Cancels(steps, i, j)
  {
    EpisodeOpens(cfg, born, steps, i);
    AdmissionsAreAccounted(cfg, born, steps, i + 1, j);
    LetThroughRises(cfg, born, steps, i + 1, j);
    CancelsSplit(steps, i, i + 1, j);
  }

  /** Within one episode: after an admission at step `i`, with none since, the next caller is
      let in as well if and only if some cancellation section has run in between, be it the
      admitted call's own or a stale one.  How many trials are in flight is another matter: see
      `BreakerTrials`. */
  lemma {:induction false} NextProbeCondition(cfg: Config, born: int, steps: seq<Step>, i: nat, j: nat, now: int)
    requires i < j <= |steps| && Episode(cfg, born, steps, i + 1, j)
    requires steps[i].section.Admit? && Admits(cfg, At(cfg, born, steps, i), steps[i].now)
    requires Admitted(cfg, born, steps, i + 1, j) == 0
    ensures Admits(cfg, At(cfg, born, steps, j), now) <==> Cancels(steps, i + 1, j) > 0
    decreases j
  {
    assert At(cfg, born, steps, j).state.HalfOpen?;
    if i + 1 < j {
      LetThroughRises(cfg, born, steps, i + 1, j - 1);
      NextProbeCondition(cfg, born, steps, i, j - 1, now);
      assert At(cfg, born, steps, j - 1).state.HalfOpen?;
    }
  }

  lemma {:induction false} LetThroughRises(cfg: Config, born: int, steps: seq<Step>, i: nat, j: nat)
    requires i <= j <= |steps|
    ensures LetThrough(cfg, born, steps, i) <= LetThrough(cfg, born, steps, j)
    decreases j
  {
    if i < j {
      LetThroughRises(cfg, born, steps, i, j - 1);
    }
  }
}
