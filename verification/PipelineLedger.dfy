/** The counting half of the pipeline: the clicks table, the processed events and the
    milestones against the history of committed transactions. */
module PipelineLedger {
  import opened Events
  import opened Outbox
  import opened Analytics
  import opened AnalyticsFacts
  import opened Pipeline
  import opened PipelineClaims
  import opened PipelineBroker

  ghost predicate InOutbox(outbox: Table, e: ClickEvent) {
    exists r :: r in outbox && outbox[r].payload == UrlClicked(e)
  }

  /** Rows of the clicks table, processed event ids and committed click events correspond
      one to one: the k-th click row is the k-th event's, no event occurs twice, and the
      processed ids are exactly theirs. */
  ghost predicate Bijection(clicks: seq<ClickRow>, processed: set<string>, ledger: seq<ClickEvent>) {
    && |clicks| == |ledger|
    && (forall k :: 0 <= k < |ledger| ==>
          clicks[k] == ClickRecordFromEvent(ledger[k]) && ledger[k].eventId in processed)
    && (forall j, k :: 0 <= j < k < |ledger| ==> ledger[j].eventId != ledger[k].eventId)
    && (forall id :: id in processed ==> exists k :: 0 <= k < |ledger| && ledger[k].eventId == id)
  }

  ghost predicate Sourced(s: Sys) {
    forall k :: 0 <= k < |s.ledger| ==> InOutbox(s.outbox, s.ledger[k])
  }

  function Durable(attempts: seq<Logged>, code: string, n: int): nat {
    if attempts == [] then 0
    else
      var last := attempts[|attempts| - 1];
      Durable(attempts[..|attempts| - 1], code, n)
      + if last.durable && last.milestone.shortCode == code && last.milestone.milestone == n then 1 else 0
  }

  predicate Truthful(m: Milestone) {
    m.totalClicks == m.milestone && m.milestone in THRESHOLDS
  }

  /** Every announcement ever made states a threshold and that very total; and each milestone
      on record was announced once by the transaction that recorded it, all other
      announcements having been rolled back. */
  ghost predicate AttemptsExact(s: Sys) {
    && (forall k :: 0 <= k < |s.attempts| ==> Truthful(s.attempts[k].milestone))
    && (forall code, n :: Durable(s.attempts, code, n) == if (code, n) in s.db.milestones then 1 else 0)
  }

  ghost predicate LedgerInv(s: Sys) {
    Bijection(s.db.clicks, s.db.processed, s.ledger) && Sourced(s) && MilestonesExact(s.db) && AttemptsExact(s)
  }

  ghost predicate Inv(s: Sys) {
    OutboxInv(s) && BrokerInv(s) && LedgerInv(s)
  }

  /** The consumer only ever holds well-formed events that some outbox row carries. */
  lemma HeldIsSourced(s: Sys)
    requires OutboxInv(s) && BrokerInv(s) && s.flight.Some?
    ensures InOutbox(s.outbox, s.flight.value.event)
    ensures !IsPoison(Click(s.flight.value.event))
  {
    var e := s.flight.value.event;
    assert Copies(s, e) <= Sent(s.claims, e);
    var i := SentMeansClaim(s.claims, e);
    assert ClaimOk(s, s.claims[i]);
    var r := s.claims[i].job.id;
    assert s.outbox[r].payload == UrlClicked(e) && WellFormed(s.outbox[r].payload);
  }

  lemma SourcedStays(s: Sys, a: Action)
    requires Enabled(s, a) && Sourced(s)
    ensures forall e :: InOutbox(s.outbox, e) ==> InOutbox(Apply(s, a).outbox, e)
  {
    forall e | InOutbox(s.outbox, e) ensures InOutbox(Apply(s, a).outbox, e) {
      var r :| r in s.outbox && s.outbox[r].payload == UrlClicked(e);
      MarkStep(s, a, r);
    }
  }

  lemma DurableSnoc(attempts: seq<Logged>, l: Logged, code: string, n: int)
    ensures Durable(attempts + [l], code, n) == Durable(attempts, code, n)
         + if l.durable && l.milestone.shortCode == code && l.milestone.milestone == n then 1 else 0
  {
    assert (attempts + [l])[..|attempts|] == attempts;
  }

  lemma CountOneMore(clicks: seq<ClickRow>, processed: set<string>, ledger: seq<ClickEvent>, e: ClickEvent)
    requires Bijection(clicks, processed, ledger) && e.eventId !in processed
    ensures Bijection(clicks + [ClickRecordFromEvent(e)], processed + {e.eventId}, ledger + [e])
  {
    var more := ledger + [e];
    forall id | id in processed + {e.eventId} ensures exists k :: 0 <= k < |more| && more[k].eventId == id {
      if id == e.eventId {
        assert more[|ledger|].eventId == id;
      } else {
        var k :| 0 <= k < |ledger| && ledger[k].eventId == id;
        assert more[k].eventId == id;
      }
    }
  }

  lemma ConsumeKeepsBijection(s: Sys, e: ClickEvent, env: Env)
    requires env.Valid() && MilestonesExact(s.db)
    requires Bijection(s.db.clicks, s.db.processed, s.ledger) && Sourced(s) && InOutbox(s.outbox, e)
    ensures var t := Consumed(s, e, env); Bijection(t.db.clicks, t.db.processed, t.ledger) && Sourced(t)
  {
    ProcessEffect(s.db, Click(e), env);
    if Process(s.db, Click(e), env).end.Durable() {
      CountOneMore(s.db.clicks, s.db.processed, s.ledger, e);
    }
  }

  lemma ConsumeKeepsAttempts(s: Sys, e: ClickEvent, env: Env)
    requires env.Valid() && MilestonesExact(s.db) && AttemptsExact(s)
    ensures AttemptsExact(Consumed(s, e, env))
  {
    ProcessEffect(s.db, Click(e), env);
    var o, t := Process(s.db, Click(e), env), Consumed(s, e, env);
    var total := CountClicks(s.db.clicks, e.shortCode) + 1;
    var d := o.end.Durable();
    if o.attempts == [] {
      assert t.attempts == s.attempts;
    } else {
      assert o.attempts == [Reached(e, total, total)];
      assert Log(o.attempts[1..], d) == [];
      assert t.attempts == s.attempts + [Logged(Reached(e, total, total), d)];
      assert (e.shortCode, total) !in s.db.milestones;
      forall code, n ensures Durable(t.attempts, code, n) == if (code, n) in t.db.milestones then 1 else 0 {
        DurableSnoc(s.attempts, Logged(Reached(e, total, total), d), code, n);
      }
    }
  }

  lemma StepKeepsLedger(s: Sys, a: Action)
    requires Inv(s) && Enabled(s, a)
    ensures LedgerInv(Apply(s, a))
  {
    SourcedStays(s, a);
    if a.Consume? {
      HeldIsSourced(s);
      var e := s.flight.value.event;
      ConsumeKeepsBijection(s, e, a.env);
      ConsumeKeepsAttempts(s, e, a.env);
      ProcessKeepsMilestones(s.db, Click(e), a.env);
    }
  }

  lemma StepKeepsBroker(s: Sys, a: Action)
    requires Inv(s) && Enabled(s, a)
    ensures BrokerInv(Apply(s, a))
  {
    match a
    case Tick(_) => QuietKeepsBroker(s, Apply(s, a));
    case Insert(_, _, _) => QuietKeepsBroker(s, Apply(s, a));
    case Fetch(picked) => FetchKeepsBroker(s, picked);
    case Enqueue(c) => ProgressKeepsBroker(s, c, Queued);
    case Take(c) => ProgressKeepsBroker(s, c, Working);
    case Drop(c) => ProgressKeepsBroker(s, c, Dropped);
    case Publish(c, ok, delivered) => assert ClaimOk(s, s.claims[c]); PublishKeepsBroker(s, c, ok, delivered);
    case MarkRow(c, _) =>
      ProgressKeepsBroker(s, c, Done);
      QuietKeepsBroker(Moved(s, c, Done), Apply(s, a));
    case Deliver(e) => DeliverKeepsBroker(s, e);
    case Consume(env) => HeldIsSourced(s); ConsumeKeepsBroker(s, env);
    case Settle => SettleKeepsBroker(s);
    case Disconnect => RequeueKeepsBroker(s);
  }

  lemma StartOk()
    ensures Inv(START)
  {
  }

  /** Every reachable state satisfies all three groups of invariants. */
  lemma {:induction false} Always(actions: seq<Action>)
    requires IsRun(actions)
    ensures Inv(Reach(actions))
    decreases |actions|
  {
    if actions == [] {
      StartOk();
    } else {
      var before, a := actions[..|actions| - 1], actions[|actions| - 1];
      Always(before);
      StepKeepsOutbox(Reach(before), a);
      StepKeepsBroker(Reach(before), a);
      StepKeepsLedger(Reach(before), a);
    }
  }
}
