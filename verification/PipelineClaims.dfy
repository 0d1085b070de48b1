/** The outbox half of the pipeline: leases, claims and marks. */
module PipelineClaims {
  import opened Events
  import opened Outbox
  import opened Pipeline

  ghost predicate ClaimOk(s: Sys, claim: Claim) {
    && claim.job.id in s.outbox
    && s.outbox[claim.job.id].payload == claim.job.payload
    && claim.at <= s.now
    && (claim.status.Published? || claim.status.Done? ==> claim.sent)
    && (claim.sent ==> claim.status.Published? || claim.status.Done? || claim.status.Failed?)
    && (s.outbox[claim.job.id].publishedAt.None? ==>
          s.outbox[claim.job.id].lockedUntil.Some? && s.outbox[claim.job.id].lockedUntil.value >= claim.at + LEASE)
  }

  ghost predicate ClaimsOk(s: Sys) {
    forall i :: 0 <= i < |s.claims| ==> ClaimOk(s, s.claims[i])
  }

  ghost predicate Apart(a: Claim, b: Claim) {
    a.job.id == b.job.id ==> b.at > a.at + LEASE
  }

  /** Two claims of one row are more than a lease apart. */
  ghost predicate LeasesExclude(claims: seq<Claim>) {
    forall i, j :: 0 <= i < j < |claims| ==> Apart(claims[i], claims[j])
  }

  /** Row `r` was marked by claim `i`, after publishing. */
  ghost predicate MarkedBy(s: Sys, r: string, i: int)
    requires r in s.outbox
  {
    && 0 <= i < |s.claims| && s.claims[i].job.id == r && s.claims[i].status.Done? && s.claims[i].sent
    && s.outbox[r].publishedAt.Some? && s.claims[i].at <= s.outbox[r].publishedAt.value <= s.now
  }

  ghost predicate MarksJustified(s: Sys) {
    forall r :: r in s.outbox && s.outbox[r].publishedAt.Some? ==> exists i :: MarkedBy(s, r, i)
  }

  ghost predicate EventsUnique(outbox: Table) {
    && (forall r :: r in outbox ==> WellFormed(outbox[r].payload))
    && forall r, q :: r in outbox && q in outbox ==>
         EventIdOf(outbox[r].payload) == EventIdOf(outbox[q].payload) ==> r == q
  }

  ghost predicate OutboxInv(s: Sys) {
    ClaimsOk(s) && LeasesExclude(s.claims) && MarksJustified(s) && EventsUnique(s.outbox)
  }

  // ----- one lemma per kind of step

  /** Steps of the clock, the broker and the consumer leave rows and claims alone. */
  lemma UntouchedKeeps(s: Sys, t: Sys)
    requires OutboxInv(s) && t.outbox == s.outbox && t.claims == s.claims && s.now <= t.now
    ensures OutboxInv(t)
  {
    forall i | 0 <= i < |t.claims| ensures ClaimOk(t, t.claims[i]) {
      assert ClaimOk(s, s.claims[i]);
    }
    forall r | r in t.outbox && t.outbox[r].publishedAt.Some? ensures exists i :: MarkedBy(t, r, i) {
      var i :| MarkedBy(s, r, i);
      assert MarkedBy(t, r, i);
    }
  }

  lemma InsertKeeps(s: Sys, a: Action)
    requires OutboxInv(s) && a.Insert? && Enabled(s, a)
    ensures OutboxInv(Apply(s, a))
  {
    var t := Apply(s, a);
    forall i | 0 <= i < |t.claims| ensures ClaimOk(t, t.claims[i]) {
      assert ClaimOk(s, s.claims[i]);
    }
    forall r | r in t.outbox && t.outbox[r].publishedAt.Some? ensures exists i :: MarkedBy(t, r, i) {
      var i :| MarkedBy(s, r, i);
      assert MarkedBy(t, r, i);
    }
  }

  /** A claim that changes only its progress keeps everything, rows being as they were. */
  lemma ProgressKeeps(s: Sys, t: Sys, c: nat)
    requires OutboxInv(s) && c < |s.claims|
    requires t.outbox == s.outbox && t.now == s.now && |t.claims| == |s.claims|
    requires forall i :: 0 <= i < |s.claims| && i != c ==> t.claims[i] == s.claims[i]
    requires t.claims[c].job == s.claims[c].job && t.claims[c].at == s.claims[c].at
    requires ClaimOk(t, t.claims[c])
    requires !s.claims[c].status.Done?
    ensures OutboxInv(t)
  {
    forall i | 0 <= i < |t.claims| ensures ClaimOk(t, t.claims[i]) {
      assert ClaimOk(s, s.claims[i]);
    }
    forall i, j | 0 <= i < j < |t.claims| ensures Apart(t.claims[i], t.claims[j]) {
      assert Apart(s.claims[i], s.claims[j]);
    }
    forall r | r in t.outbox && t.outbox[r].publishedAt.Some? ensures exists i :: MarkedBy(t, r, i) {
      var i :| MarkedBy(s, r, i);
      assert MarkedBy(t, r, i);
    }
  }

  lemma MarkKeeps(s: Sys, a: Action)
    requires OutboxInv(s) && a.MarkRow? && Enabled(s, a)
    ensures OutboxInv(Apply(s, a))
  {
    var moved := Moved(s, a.c, Done);
    assert ClaimOk(s, s.claims[a.c]);
    ProgressKeeps(s, moved, a.c);
    if a.applied {
      var t, id := Apply(s, a), s.claims[a.c].job.id;
      forall i | 0 <= i < |t.claims| ensures ClaimOk(t, t.claims[i]) {
        assert ClaimOk(moved, moved.claims[i]);
      }
      forall r | r in t.outbox && t.outbox[r].publishedAt.Some? ensures exists i :: MarkedBy(t, r, i) {
        if moved.outbox[r].publishedAt.Some? {
          var i :| MarkedBy(moved, r, i);
          assert MarkedBy(t, r, i);
        } else {
          assert MarkedBy(t, r, a.c);
        }
      }
    }
  }

  lemma FetchKeepsClaims(s: Sys, picked: seq<string>)
    requires OutboxInv(s) && Enabled(s, Fetch(picked))
    ensures ClaimsOk(Apply(s, Fetch(picked)))
    ensures LeasesExclude(Apply(s, Fetch(picked)).claims)
  {
    var t, n := Apply(s, Fetch(picked)), |s.claims|;
    forall i | 0 <= i < |t.claims| ensures ClaimOk(t, t.claims[i]) {
      if i < n {
        assert ClaimOk(s, s.claims[i]);
      } else {
        assert picked[i - n] in Elements(picked);
      }
    }
    forall i, j | 0 <= i < j < |t.claims| ensures Apart(t.claims[i], t.claims[j]) {
      if j < n {
        assert Apart(s.claims[i], s.claims[j]);
      } else {
        assert picked[j - n] in Elements(picked);
        if i < n {
          assert ClaimOk(s, s.claims[i]);
        }
      }
    }
  }

  lemma FetchKeeps(s: Sys, picked: seq<string>)
    requires OutboxInv(s) && Enabled(s, Fetch(picked))
    ensures OutboxInv(Apply(s, Fetch(picked)))
  {
    FetchKeepsClaims(s, picked);
    var t := Apply(s, Fetch(picked));
    forall r | r in t.outbox && t.outbox[r].publishedAt.Some? ensures exists i :: MarkedBy(t, r, i) {
      var i :| MarkedBy(s, r, i);
      assert MarkedBy(t, r, i);
    }
  }

  lemma StepKeepsOutbox(s: Sys, a: Action)
    requires OutboxInv(s) && Enabled(s, a)
    ensures OutboxInv(Apply(s, a))
  {
    match a
    case Insert(_, _, _) => InsertKeeps(s, a);
    case Fetch(picked) => FetchKeeps(s, picked);
    case Enqueue(c) => assert ClaimOk(s, s.claims[c]); ProgressKeeps(s, Apply(s, a), c);
    case Take(c) => assert ClaimOk(s, s.claims[c]); ProgressKeeps(s, Apply(s, a), c);
    case Drop(c) => assert ClaimOk(s, s.claims[c]); ProgressKeeps(s, Apply(s, a), c);
    case Publish(c, _, _) => assert ClaimOk(s, s.claims[c]); ProgressKeeps(s, Apply(s, a), c);
    case MarkRow(_, _) => MarkKeeps(s, a);
    case _ => UntouchedKeeps(s, Apply(s, a));
  }

  lemma {:induction false} OutboxAlways(actions: seq<Action>)
    requires IsRun(actions)
    ensures OutboxInv(Reach(actions))
    decreases |actions|
  {
    if actions != [] {
      OutboxAlways(actions[..|actions| - 1]);
      StepKeepsOutbox(Reach(actions[..|actions| - 1]), actions[|actions| - 1]);
    }
  }

  // ----- the duplicate bound

  /** When row `r` was claimed, among the first `n` claims. */
  function ClaimsOf(claims: seq<Claim>, r: string, n: nat): seq<int>
    requires n <= |claims|
  {
    if n == 0 then []
    else ClaimsOf(claims, r, n - 1) + if claims[n - 1].job.id == r then [claims[n - 1].at] else []
  }

  ghost predicate Spaced(times: seq<int>) {
    forall i :: 0 <= i < |times| - 1 ==> times[i] + LEASE < times[i + 1]
  }

  lemma {:induction false} ClaimsOfSpaced(claims: seq<Claim>, r: string, n: nat)
    requires LeasesExclude(claims) && n <= |claims|
    ensures var times := ClaimsOf(claims, r, n);
            && Spaced(times)
            && (times != [] ==> exists i :: 0 <= i < n && claims[i].job.id == r && claims[i].at == times[|times| - 1])
  {
    if n > 0 {
      ClaimsOfSpaced(claims, r, n - 1);
      var times := ClaimsOf(claims, r, n - 1);
      if claims[n - 1].job.id == r && times != [] {
        var i :| 0 <= i < n - 1 && claims[i].job.id == r && claims[i].at == times[|times| - 1];
        assert Apart(claims[i], claims[n - 1]);
      }
    }
  }

  lemma {:induction false} SpacedSpan(times: seq<int>)
    requires Spaced(times) && times != []
    ensures times[|times| - 1] - times[0] >= (|times| - 1) * LEASE
    decreases |times|
  {
    if |times| > 1 {
      var m := |times| - 1;
      SpacedSpan(times[..m]);
      assert times[m - 1] + LEASE < times[(m - 1) + 1];
    }
  }

  /** Any stretch of consecutive claims of one row that spans at most `span` milliseconds has
      at most `1 + span / 30_000` of them, however many coordinators poll. */
  lemma DuplicateBound(actions: seq<Action>, r: string, i: nat, j: nat, span: nat)
    requires IsRun(actions)
    requires var times := ClaimsOf(Reach(actions).claims, r, |Reach(actions).claims|);
             i < j <= |times| && times[j - 1] - times[i] <= span
    ensures j - i <= 1 + span / 30_000
  {
    var s := Reach(actions);
    var times := ClaimsOf(s.claims, r, |s.claims|);
    OutboxAlways(actions);
    ClaimsOfSpaced(s.claims, r, |s.claims|);
    SpacedPart(times, i, j);
    AtMost(j - i, times[j - 1] - times[i], span);
  }

  lemma SpacedPart(times: seq<int>, i: nat, j: nat)
    requires Spaced(times) && i < j <= |times|
    ensures times[j - 1] - times[i] >= (j - i - 1) * LEASE
  {
    var part := times[i..j];
    forall k | 0 <= k < |part| - 1 ensures part[k] + LEASE < part[k + 1] {
      assert times[i + k] + LEASE < times[(i + k) + 1];
    }
    SpacedSpan(part);
  }

  lemma AtMost(n: int, elapsed: int, span: nat)
    requires (n - 1) * LEASE <= elapsed <= span
    ensures n <= 1 + span / LEASE
  {
  }

  // ----- a mark is final

  lemma MarkStep(s: Sys, a: Action, r: string)
    requires Enabled(s, a) && r in s.outbox
    ensures r in Apply(s, a).outbox && Apply(s, a).outbox[r].payload == s.outbox[r].payload
    ensures s.outbox[r].publishedAt.Some? ==> Apply(s, a).outbox[r].publishedAt == s.outbox[r].publishedAt
  {
  }

  /** Rows are never lost, rewritten or unpublished, and the time of publication is set once. */
  lemma {:induction false} MarkIsFinal(actions: seq<Action>, more: seq<Action>, r: string)
    requires IsRun(actions) && IsRun(actions + more) && r in Reach(actions).outbox
    ensures var row, later := Reach(actions).outbox[r], Reach(actions + more).outbox;
            && r in later && later[r].payload == row.payload
            && (row.publishedAt.Some? ==> later[r].publishedAt == row.publishedAt)
    decreases |more|
  {
    if more == [] {
      assert actions + more == actions;
    } else {
      var m := |more| - 1;
      assert (actions + more)[..|actions + more| - 1] == actions + more[..m];
      MarkIsFinal(actions, more[..m], r);
      MarkStep(Reach(actions + more[..m]), more[m], r);
    }
  }
}
