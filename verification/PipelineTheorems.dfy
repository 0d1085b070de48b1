/** What the pipeline promises over every run. */
module PipelineTheorems {
  import opened Options
  import opened Events
  import opened Outbox
  import opened Sets
  import opened Settlements
  import opened Analytics
  import opened Pipeline
  import opened PipelineClaims
  import opened PipelineBroker
  import opened PipelineLedger

  /** The committed url.clicked outbox rows for a code. */
  function ClickedRows(outbox: Table, code: string): set<string> {
    set r | r in outbox && outbox[r].payload.UrlClicked? && outbox[r].payload.click.shortCode == code
  }

  /** Those whose event has been processed. */
  function CountedRows(s: Sys, code: string): set<string> {
    set r | r in ClickedRows(s.outbox, code) && s.outbox[r].payload.click.eventId in s.db.processed
  }

  // ----- exactly-once effect

  function RowsOf(outbox: Table, events: seq<ClickEvent>, code: string): set<string> {
    set r | r in ClickedRows(outbox, code) && outbox[r].payload.click in events
  }

  lemma RowsOfSnoc(outbox: Table, events: seq<ClickEvent>, e: ClickEvent, r: string, code: string)
    requires EventsUnique(outbox) && r in outbox && outbox[r].payload == UrlClicked(e)
    ensures RowsOf(outbox, events + [e], code)
         == RowsOf(outbox, events, code) + if e.shortCode == code then {r} else {}
  {
    forall q | q in RowsOf(outbox, events + [e], code)
      ensures q in RowsOf(outbox, events, code) + if e.shortCode == code then {r} else {}
    {
      if outbox[q].payload.click == e {
        assert EventIdOf(outbox[q].payload) == EventIdOf(outbox[r].payload);
      }
    }
  }

  /** Distinct events of outbox rows, each with its click row. */
  ghost predicate Paired(outbox: Table, events: seq<ClickEvent>, clicks: seq<ClickRow>) {
    && |clicks| == |events|
    && (forall k :: 0 <= k < |events| ==> clicks[k] == ClickRecordFromEvent(events[k]) && InOutbox(outbox, events[k]))
    && (forall j, k :: 0 <= j < k < |events| ==> events[j].eventId != events[k].eventId)
  }

  lemma PairedSplit(outbox: Table, events: seq<ClickEvent>, clicks: seq<ClickRow>)
    requires Paired(outbox, events, clicks) && events != []
    ensures var m := |events| - 1;
            && Paired(outbox, events[..m], clicks[..m])
            && clicks[m].shortCode == events[m].shortCode
            && InOutbox(outbox, events[m]) && events[m] !in events[..m]
            && events[..m] + [events[m]] == events
  {
    var m := |events| - 1;
    forall j | 0 <= j < m ensures events[..m][j] != events[m] {
      assert events[j].eventId != events[m].eventId;
    }
  }

  /** One row for each click of the code. */
  lemma {:induction false} RowsOfCount(outbox: Table, events: seq<ClickEvent>, clicks: seq<ClickRow>, code: string)
    requires EventsUnique(outbox) && Paired(outbox, events, clicks)
    ensures |RowsOf(outbox, events, code)| == CountClicks(clicks, code)
    decreases |events|
  {
    if events == [] {
      assert RowsOf(outbox, events, code) == {};
    } else {
      var m := |events| - 1;
      PairedSplit(outbox, events, clicks);
      RowsOfCount(outbox, events[..m], clicks[..m], code);
      var r :| r in outbox && outbox[r].payload == UrlClicked(events[m]);
      RowsOfSnoc(outbox, events[..m], events[m], r, code);
    }
  }

  /** Processing an id means having counted its row's event. */
  lemma CountedAreLedgerRows(s: Sys, code: string)
    requires Inv(s)
    ensures CountedRows(s, code) == RowsOf(s.outbox, s.ledger, code)
  {
    forall r | r in CountedRows(s, code) ensures s.outbox[r].payload.click in s.ledger {
      var k :| 0 <= k < |s.ledger| && s.ledger[k].eventId == s.outbox[r].payload.click.eventId;
      assert InOutbox(s.outbox, s.ledger[k]);
      var q :| q in s.outbox && s.outbox[q].payload == UrlClicked(s.ledger[k]);
      assert EventIdOf(s.outbox[q].payload) == EventIdOf(s.outbox[r].payload);
    }
  }

  /** In every reachable state the clicks counted for a code are as many as its outbox rows
      whose event has been processed: no row counts twice, and clicks never exceed rows,
      whatever has been republished, redelivered, rolled back or committed in doubt. */
  lemma ExactlyOnce(actions: seq<Action>, code: string)
    requires IsRun(actions)
    ensures var s := Reach(actions);
            CountClicks(s.db.clicks, code) == |CountedRows(s, code)| <= |ClickedRows(s.outbox, code)|
  {
    var s := Reach(actions);
    Always(actions);
    CountedAreLedgerRows(s, code);
    RowsOfCount(s.outbox, s.ledger, s.db.clicks, code);
    SubsetSize(CountedRows(s, code), ClickedRows(s.outbox, code));
  }

  // ----- no loss

  /** Every marked click row is still on its way, or has been counted, or was given up by
      the consumer's panic handler. */
  lemma NoLoss(actions: seq<Action>, r: string)
    requires IsRun(actions) && r in Reach(actions).outbox
    requires Reach(actions).outbox[r].payload.UrlClicked? && Reach(actions).outbox[r].publishedAt.Some?
    ensures var s := Reach(actions);
            var e := s.outbox[r].payload.click;
            e in s.queue || Held(s, e) || e.eventId in s.db.processed || e.eventId in s.recovered
  {
    var s := Reach(actions);
    Always(actions);
    var i :| MarkedBy(s, r, i);
    assert ClaimOk(s, s.claims[i]) && s.claims[i].sent;
  }

  /** Everything marked, nothing queued and nothing at the consumer. */
  ghost predicate Drained(s: Sys) {
    && (forall r :: r in s.outbox && s.outbox[r].payload.UrlClicked? ==> s.outbox[r].publishedAt.Some?)
    && s.queue == multiset{} && s.flight.None?
  }

  /** The rows whose event the panic handler acked and that were never counted. */
  function GivenUpRows(s: Sys, code: string): set<string> {
    set r | r in ClickedRows(s.outbox, code)
            && s.outbox[r].payload.click.eventId in s.recovered - s.db.processed
  }

  /** Once drained, the count of a code falls short of its outbox rows by exactly the rows
      given up by the panic handler. */
  lemma DrainedCount(actions: seq<Action>, code: string)
    requires IsRun(actions) && Drained(Reach(actions))
    ensures var s := Reach(actions);
            CountClicks(s.db.clicks, code) + |GivenUpRows(s, code)| == |ClickedRows(s.outbox, code)|
  {
    var s := Reach(actions);
    ExactlyOnce(actions, code);
    forall r | r in ClickedRows(s.outbox, code) ensures r in CountedRows(s, code) + GivenUpRows(s, code) {
      NoLoss(actions, r);
    }
    assert ClickedRows(s.outbox, code) == CountedRows(s, code) + GivenUpRows(s, code);
    assert CountedRows(s, code) !! GivenUpRows(s, code);
  }

  predicate NeverPanics(env: Env) {
    && !env.begin.Panic? && !env.lookup.Panic? && !env.insertEvent.Panic? && !env.insertClick.Panic?
    && !env.count.Panic? && !env.commit.Panic?
    && forall m :: m in env.marks ==> !m.has.Panic? && !m.insert.Panic? && !m.publish.Panic?
  }

  lemma {:induction false} CheckNeverPanics(thresholds: seq<int>, milestones: set<(string, int)>,
                                            e: ClickEvent, total: int, marks: seq<MarkEnv>, k: nat)
    requires k <= |thresholds| == |marks|
    requires forall m :: m in marks ==> !m.has.Panic? && !m.insert.Panic? && !m.publish.Panic?
    ensures !CheckFrom(thresholds, milestones, e, total, marks, k).call.Panic?
    decreases |thresholds| - k
  {
    if k < |thresholds| {
      assert marks[k] in marks;
      CheckNeverPanics(thresholds, milestones, e, total, marks, k + 1);
      CheckNeverPanics(thresholds, CheckOne(milestones, e, thresholds[k], total, marks[k]).milestones,
                       e, total, marks, k + 1);
    }
  }

  ghost predicate Calm(actions: seq<Action>) {
    forall k :: 0 <= k < |actions| && actions[k].Consume? ==> NeverPanics(actions[k].env)
  }

  lemma {:induction false} CalmRecoversNothing(actions: seq<Action>)
    requires IsRun(actions) && Calm(actions)
    ensures Reach(actions).recovered == {}
    decreases |actions|
  {
    if actions != [] {
      var before, a := actions[..|actions| - 1], actions[|actions| - 1];
      CalmRecoversNothing(before);
      if a.Consume? {
        var s := Reach(before);
        var e := s.flight.value.event;
        assert NeverPanics(a.env);
        CheckNeverPanics(THRESHOLDS, s.db.milestones, e,
                         CountClicks(s.db.clicks + [ClickRecordFromEvent(e)], e.shortCode), a.env.marks, 0);
      }
    }
  }

  /** Without panics in the consumer, a drained pipeline has counted every click row once. */
  lemma CalmDrainedExact(actions: seq<Action>, code: string)
    requires IsRun(actions) && Calm(actions) && Drained(Reach(actions))
    ensures CountClicks(Reach(actions).db.clicks, code) == |ClickedRows(Reach(actions).outbox, code)|
  {
    CalmRecoversNothing(actions);
    DrainedCount(actions, code);
    assert GivenUpRows(Reach(actions), code) == {};
  }

  // ----- a panic does lose a click

  function Fine(): Env {
    var mark := MarkEnv(Ok, Ok, Ok);
    Env(Ok, Ok, Ok, Ok, Ok, [mark, mark, mark], Ok, true)
  }

  function RunToFetch(e: ClickEvent): seq<Action> {
    [] + [Insert("row", UrlClicked(e), 0)] + [Fetch(["row"])]
  }

  function RunToMark(e: ClickEvent): seq<Action> {
    RunToFetch(e) + [Enqueue(0)] + [Take(0)] + [Publish(0, true, false)] + [MarkRow(0, true)]
  }

  /** One click, published and marked, whose delivery panics at the duplicate check. */
  function PanickyRun(e: ClickEvent): seq<Action> {
    RunToMark(e) + [Deliver(e)] + [Consume(Fine().(lookup := Panic))] + [Settle]
  }

  lemma Extend(actions: seq<Action>, s: Sys, a: Action)
    requires IsRun(actions) && Reach(actions) == s && Enabled(s, a)
    ensures IsRun(actions + [a]) && Reach(actions + [a]) == Apply(s, a)
  {
    assert (actions + [a])[..|actions|] == actions;
  }

  function OneClaim(e: ClickEvent, status: Status, sent: bool): seq<Claim> {
    [Claim(Job("row", UrlClicked(e)), 0, status, sent)]
  }

  function OneRow(e: ClickEvent, lockedUntil: Option<int>, publishedAt: Option<int>): Table {
    map["row" := Row(UrlClicked(e), 0, lockedUntil, publishedAt)]
  }

  lemma ReachFetch(e: ClickEvent)
    requires e.eventId != "" && e.shortCode != ""
    ensures IsRun(RunToFetch(e))
    ensures Reach(RunToFetch(e)) == START.(outbox := OneRow(e, Some(LEASE), None),
                                         claims := OneClaim(e, Fetched, false))
  {
    Extend([], START, Insert("row", UrlClicked(e), 0));
    var s := START.(outbox := OneRow(e, None, None));
    assert Apply(START, Insert("row", UrlClicked(e), 0)) == s;
    assert Ids(s.outbox, 0) == {"row"} == Elements(["row"]);
    Extend([] + [Insert("row", UrlClicked(e), 0)], s, Fetch(["row"]));
    assert NewClaims(s.outbox, ["row"], 0) == OneClaim(e, Fetched, false);
    assert Lease(s.outbox, {"row"}, 0) == OneRow(e, Some(LEASE), None);
  }

  lemma ReachMark(e: ClickEvent)
    requires e.eventId != "" && e.shortCode != ""
    ensures IsRun(RunToMark(e))
    ensures Reach(RunToMark(e)) == START.(outbox := OneRow(e, None, Some(0)), claims := OneClaim(e, Done, true),
                                        queue := multiset{e})
  {
    ReachFetch(e);
    var run, s := RunToFetch(e), Reach(RunToFetch(e));
    Extend(run, s, Enqueue(0));
    run, s := run + [Enqueue(0)], s.(claims := OneClaim(e, Queued, false));
    Extend(run, s, Take(0));
    run, s := run + [Take(0)], s.(claims := OneClaim(e, Working, false));
    Extend(run, s, Publish(0, true, false));
    run, s := run + [Publish(0, true, false)], s.(claims := OneClaim(e, Status.Published, true), queue := multiset{e});
    Extend(run, s, MarkRow(0, true));
    assert Marked(s.outbox, "row", 0) == OneRow(e, None, Some(0));
  }

  /** "Marked and drained means counted" fails when the consumer panics: its handler acks. */
  lemma PanicLosesAClick(e: ClickEvent)
    requires e.eventId != "" && e.shortCode != ""
    ensures var run := PanickyRun(e);
            && IsRun(run) && Drained(Reach(run))
            && ClickedRows(Reach(run).outbox, e.shortCode) == {"row"}
            && CountClicks(Reach(run).db.clicks, e.shortCode) == 0
  {
    ReachMark(e);
    var run, s, env := RunToMark(e), Reach(RunToMark(e)), Fine().(lookup := Panic);
    Extend(run, s, Deliver(e));
    run, s := run + [Deliver(e)], s.(queue := multiset{}, flight := Some(Flight(e, Unprocessed)));
    assert Process(s.db, Click(e), env) == Stop(s.db, Panic, []);
    Extend(run, s, Consume(env));
    run, s := run + [Consume(env)], s.(flight := Some(Flight(e, Decided(Ack))), recovered := {e.eventId});
    Extend(run, s, Settle);
  }

  // ----- copies and milestones

  lemma {:induction false} SentAtMostClaims(s: Sys, r: string, e: ClickEvent, n: nat)
    requires OutboxInv(s) && n <= |s.claims| && r in s.outbox && s.outbox[r].payload == UrlClicked(e)
    ensures Sent(s.claims[..n], e) <= |ClaimsOf(s.claims, r, n)|
  {
    if n > 0 {
      SentAtMostClaims(s, r, e, n - 1);
      assert s.claims[..n][..n - 1] == s.claims[..n - 1];
      assert ClaimOk(s, s.claims[n - 1]);
      if Carries(s.claims[n - 1], e) {
        assert EventIdOf(s.outbox[s.claims[n - 1].job.id].payload) == EventIdOf(s.outbox[r].payload);
      }
    }
  }

  /** The broker never has more copies of a row's message than the row has been claimed. */
  lemma CopiesAtMostClaims(actions: seq<Action>, r: string, e: ClickEvent)
    requires IsRun(actions) && r in Reach(actions).outbox && Reach(actions).outbox[r].payload == UrlClicked(e)
    ensures var s := Reach(actions); Copies(s, e) <= |ClaimsOf(s.claims, r, |s.claims|)|
  {
    var s := Reach(actions);
    Always(actions);
    SentAtMostClaims(s, r, e, |s.claims|);
    assert s.claims[..|s.claims|] == s.claims;
    assert Copies(s, e) <= Sent(s.claims, e);
  }

  function Announced(attempts: seq<Logged>, code: string, n: int): nat {
    if attempts == [] then 0
    else
      var last := attempts[|attempts| - 1].milestone;
      Announced(attempts[..|attempts| - 1], code, n) + if last.shortCode == code && last.milestone == n then 1 else 0
  }

  function RolledBack(attempts: seq<Logged>, code: string, n: int): nat {
    if attempts == [] then 0
    else
      var last := attempts[|attempts| - 1];
      RolledBack(attempts[..|attempts| - 1], code, n)
      + if !last.durable && last.milestone.shortCode == code && last.milestone.milestone == n then 1 else 0
  }

  lemma {:induction false} AnnouncedSplit(attempts: seq<Logged>, code: string, n: int)
    ensures Announced(attempts, code, n) == Durable(attempts, code, n) + RolledBack(attempts, code, n)
  {
    if attempts != [] {
      AnnouncedSplit(attempts[..|attempts| - 1], code, n);
    }
  }

  /** In every reachable state: the milestones on record are exactly the thresholds reached;
      every announcement ever made, even one rolled back later, told the truth; and each
      milestone was announced once for its record plus once per rolled-back attempt. */
  lemma MilestonesAreExact(actions: seq<Action>, code: string, n: int)
    requires IsRun(actions)
    ensures var s := Reach(actions);
            && ((code, n) in s.db.milestones <==> n in {10, 100, 1000} && CountClicks(s.db.clicks, code) >= n)
            && (forall k :: 0 <= k < |s.attempts| ==>
                  var m := s.attempts[k].milestone; m.totalClicks == m.milestone && m.milestone in {10, 100, 1000})
            && Announced(s.attempts, code, n)
            == (if (code, n) in s.db.milestones then 1 else 0) + RolledBack(s.attempts, code, n)
  {
    var s := Reach(actions);
    Always(actions);
    AnnouncedSplit(s.attempts, code, n);
    forall k | 0 <= k < |s.attempts|
      ensures var m := s.attempts[k].milestone; m.totalClicks == m.milestone && m.milestone in THRESHOLDS
    {
      assert Truthful(s.attempts[k].milestone);
    }
  }
}
