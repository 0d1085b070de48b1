/** What one delivery does, in closed form. */
module AnalyticsFacts {
  import opened Events
  import opened Analytics

  /** The milestones on record are exactly the thresholds the click counts have reached. */
  ghost predicate MilestonesExact(db: Db) {
    forall code, n :: (code, n) in db.milestones <==> n in THRESHOLDS && CountClicks(db.clicks, code) >= n
  }

  ghost predicate Distinct(thresholds: seq<int>) {
    forall i, j :: 0 <= i < j < |thresholds| ==> thresholds[i] != thresholds[j]
  }

  /** The attempts of a check that had just reached `total`: none, or the one for `total`. */
  function Announcement(e: ClickEvent, total: int, thresholds: seq<int>): seq<Milestone> {
    if total in thresholds then [Reached(e, total, total)] else []
  }

  /** If the records were exact before this click, the check announces and records nothing
      but the threshold that the click reaches. */
  lemma {:induction false} CheckExact(thresholds: seq<int>, milestones: set<(string, int)>, e: ClickEvent,
                                      total: int, marks: seq<MarkEnv>, k: nat)
    requires k <= |thresholds| == |marks| && Distinct(thresholds)
    requires forall j :: k <= j < |thresholds| ==>
               ((e.shortCode, thresholds[j]) in milestones <==> thresholds[j] <= total - 1)
    ensures var check := CheckFrom(thresholds, milestones, e, total, marks, k);
            var due := Announcement(e, total, thresholds[k..]);
            && (check.attempts == [] || check.attempts == due)
            && (check.call.Ok? ==>
                  && check.attempts == due
                  && check.milestones == milestones + if due == [] then {} else {(e.shortCode, total)})
    decreases |thresholds| - k
  {
    if k < |thresholds| {
      var threshold := thresholds[k];
      assert thresholds[k..] == [threshold] + thresholds[k + 1..];
      assert threshold !in thresholds[k + 1..];
      var one := CheckOne(milestones, e, threshold, total, marks[k]);
      if total < threshold {
        CheckExact(thresholds, milestones, e, total, marks, k + 1);
      } else if one.call.Ok? {
        CheckExact(thresholds, one.milestones, e, total, marks, k + 1);
      }
    }
  }

  lemma CountSnoc(clicks: seq<ClickRow>, row: ClickRow, code: string)
    ensures CountClicks(clicks + [row], code) == CountClicks(clicks, code) + if row.shortCode == code then 1 else 0
  {
    assert (clicks + [row])[..|clicks|] == clicks;
  }

  /** The check that a delivery runs, given exact records. */
  lemma CheckAfterClick(db: Db, e: ClickEvent, marks: seq<MarkEnv>)
    requires MilestonesExact(db) && |marks| == |THRESHOLDS|
    ensures var total := CountClicks(db.clicks, e.shortCode) + 1;
            var check := CheckFrom(THRESHOLDS, db.milestones, e, CountClicks(db.clicks + [ClickRecordFromEvent(e)],
              e.shortCode), marks, 0);
            var due := Announcement(e, total, THRESHOLDS);
            && (check.attempts == [] || check.attempts == due)
            && (check.call.Ok? ==>
                  && check.attempts == due
                  && check.milestones == db.milestones + if total in THRESHOLDS then {(e.shortCode, total)} else {})
  {
    var total := CountClicks(db.clicks, e.shortCode) + 1;
    CountSnoc(db.clicks, ClickRecordFromEvent(e), e.shortCode);
    forall j | 0 <= j < |THRESHOLDS|
      ensures (e.shortCode, THRESHOLDS[j]) in db.milestones <==> THRESHOLDS[j] <= total - 1
    {
      assert THRESHOLDS[j] in THRESHOLDS;
    }
    CheckExact(THRESHOLDS, db.milestones, e, total, marks, 0);
    assert THRESHOLDS[0..] == THRESHOLDS;
  }

  /** One delivery either leaves the tables alone or adds exactly the event id, its click
      row and the milestone just reached; and whatever it announces, even in a transaction
      that is rolled back, is a threshold not on record, with that very total. */
  lemma ProcessEffect(db: Db, body: Body, env: Env)
    requires env.Valid() && MilestonesExact(db)
    ensures var o := Process(db, body, env);
            if o.end.Durable() then
              var e := body.event;
              var total := CountClicks(db.clicks, e.shortCode) + 1;
              && !IsPoison(body) && e.eventId !in db.processed
              && o.db.processed == db.processed + {e.eventId}
              && o.db.clicks == db.clicks + [ClickRecordFromEvent(e)]
              && o.db.milestones == db.milestones + (if total in THRESHOLDS then {(e.shortCode, total)} else {})
              && o.attempts == Announcement(e, total, THRESHOLDS)
            else
              && o.db == db
              && (o.attempts == [] ||
                    (body.Click? && o.attempts ==
                      Announcement(body.event, CountClicks(db.clicks, body.event.shortCode) + 1, THRESHOLDS)))
  {
    if !IsPoison(body) {
      CheckAfterClick(db, body.event, env.marks);
    }
  }

  /** One more click, with the milestone it reaches, keeps the records exact. */
  lemma ClickKeepsMilestones(db: Db, after: Db, row: ClickRow)
    requires MilestonesExact(db) && after.clicks == db.clicks + [row]
    requires var total := CountClicks(db.clicks, row.shortCode) + 1;
             after.milestones == db.milestones + if total in THRESHOLDS then {(row.shortCode, total)} else {}
    ensures MilestonesExact(after)
  {
    forall code, n
      ensures (code, n) in after.milestones <==> n in THRESHOLDS && CountClicks(after.clicks, code) >= n
    {
      CountSnoc(db.clicks, row, code);
      assert (code, n) in db.milestones <==> n in THRESHOLDS && CountClicks(db.clicks, code) >= n;
    }
  }

  lemma ProcessKeepsMilestones(db: Db, body: Body, env: Env)
    requires env.Valid() && MilestonesExact(db)
    ensures MilestonesExact(Process(db, body, env).db)
  {
    ProcessEffect(db, body, env);
    var o := Process(db, body, env);
    if o.end.Durable() {
      ClickKeepsMilestones(db, o.db, ClickRecordFromEvent(body.event));
    }
  }

  /** A nack means nothing was committed, unless it was the commit itself that reported the
      error; an ack of a well-formed event outside the panic handler means that the event is
      on record; a durable transaction is nacked only if its commit reported an error. */
  lemma Settled(db: Db, body: Body, env: Env)
    requires env.Valid()
    ensures var o := Process(db, body, env);
            && (o.settlement.Nack? ==> o.db == db || (o.end.Committing? && o.end.call.Err? && o.end.durable))
            && (o.settlement.Ack? && !IsPoison(body) && !o.end.Panicked() ==> body.event.eventId in o.db.processed)
            && (o.end.Durable() && o.settlement.Nack? ==> env.commit.Err?)
            && (o.settlement.Ack? && o.db == db ==>
                  IsPoison(body) || o.end.Panicked() || body.event.eventId in db.processed)
  {
  }

  /** Delivering again what is on record changes nothing and announces nothing. */
  lemma RedeliveryIsHarmless(db: Db, body: Body, env: Env, again: Env)
    requires env.Valid() && again.Valid() && !IsPoison(body)
    requires Process(db, body, env).end.Durable()
    ensures var o := Process(Process(db, body, env).db, body, again);
            o.db == Process(db, body, env).db && o.attempts == []
  {
  }
}
