/** How each click delivery is settled and recorded, told by the calls it makes and by the fields
    of its event, for every way those calls can end. */
module ClickSettlement {
  import opened Options
  import opened Events
  import opened Settlements
  import opened Analytics
  import opened AnalyticsFacts

  /** The calls of the milestone check from threshold `k` on: a look at each threshold reached,
      and an insert and a publish for each that is not on record.  An error of the publisher is
      no failure. */
  function CheckCalls(thresholds: seq<int>, recorded: set<(string, int)>, code: string, total: int,
                      marks: seq<MarkEnv>, k: nat): seq<Call>
    requires k <= |thresholds| == |marks|
    decreases |thresholds| - k
  {
    if k == |thresholds| then []
    else
      var mark := marks[k];
      var rest := CheckCalls(thresholds, recorded, code, total, marks, k + 1);
      if total < thresholds[k] then rest
      else if (code, thresholds[k]) in recorded then [mark.has] + rest
      else [mark.has, mark.insert, if mark.publish.Panic? then Panic else Ok] + rest
  }

  /** The calls made for an event that is not on record, up to the commit. */
  function CallsBeforeCommit(db: Db, e: ClickEvent, env: Env): seq<Call>
    requires env.Valid()
  {
    [env.begin, env.lookup, env.insertEvent, env.insertClick, env.count]
    + CheckCalls([10, 100, 1000], db.milestones, e.shortCode, CountClicks(db.clicks, e.shortCode) + 1, env.marks, 0)
  }

  lemma {:induction false} CheckCallsFrame(thresholds: seq<int>, recorded: set<(string, int)>, code: string, total: int,
                                           marks: seq<MarkEnv>, k: nat, n: int)
    requires k <= |thresholds| == |marks| && n !in thresholds[k..]
    ensures CheckCalls(thresholds, recorded + {(code, n)}, code, total, marks, k)
         == CheckCalls(thresholds, recorded, code, total, marks, k)
    decreases |thresholds| - k
  {
    if k < |thresholds| {
      assert thresholds[k..] == [thresholds[k]] + thresholds[k + 1..];
      CheckCallsFrame(thresholds, recorded, code, total, marks, k + 1, n);
    }
  }

  /** The check ends as the first of its calls that does not end normally. */
  lemma {:induction false} CheckEnds(thresholds: seq<int>, milestones: set<(string, int)>, e: ClickEvent, total: int,
                                     marks: seq<MarkEnv>, k: nat)
    requires k <= |thresholds| == |marks| && Distinct(thresholds)
    ensures CheckFrom(thresholds, milestones, e, total, marks, k).call
         == EndOf(CheckCalls(thresholds, milestones, e.shortCode, total, marks, k))
    decreases |thresholds| - k
  {
    if k < |thresholds| {
      var n, mark := thresholds[k], marks[k];
      var rest := CheckCalls(thresholds, milestones, e.shortCode, total, marks, k + 1);
      if total < n {
        CheckEnds(thresholds, milestones, e, total, marks, k + 1);
      } else if (e.shortCode, n) in milestones {
        CheckEnds(thresholds, milestones, e, total, marks, k + 1);
        EndOfCons(mark.has, rest);
      } else {
        CheckEnds(thresholds, milestones + {(e.shortCode, n)}, e, total, marks, k + 1);
        CheckCallsFrame(thresholds, milestones, e.shortCode, total, marks, k + 1, n);
        EndOfThree(mark.has, mark.insert, if mark.publish.Panic? then Panic else Ok, rest);
      }
    }
  }

  lemma BeforeCheck(env: Env, rest: seq<Call>)
    ensures EndOf([env.begin, env.lookup, env.insertEvent, env.insertClick, env.count] + rest)
         == if !env.begin.Ok? then env.begin else if !env.lookup.Ok? then env.lookup
            else if !env.insertEvent.Ok? then env.insertEvent else if !env.insertClick.Ok? then env.insertClick
            else if !env.count.Ok? then env.count else EndOf(rest)
  {
    assert [env.begin, env.lookup, env.insertEvent, env.insertClick, env.count] + rest
        == [env.begin, env.lookup, env.insertEvent] + ([env.insertClick, env.count] + rest);
    EndOfThree(env.begin, env.lookup, env.insertEvent, [env.insertClick, env.count] + rest);
    EndOfTwo(env.insertClick, env.count, rest);
  }

  /** A poison body, and an event on record that is found to be, are acked and change nothing;
      failing to find out is settled as it ends. */
  lemma SettledEarly(db: Db, body: Body, env: Env)
    requires env.Valid()
    requires body.Garbled? || body.event.eventId == "" || body.event.shortCode == ""
             || body.event.eventId in db.processed
    ensures var o := Process(db, body, env);
            && o.db == db && o.attempts == []
            && (body.Garbled? || body.event.eventId == "" || body.event.shortCode == "" ==> o.settlement.Ack?)
            && (env.begin.Ok? && env.lookup.Ok? ==> o.settlement.Ack?)
            && (body.Click? && body.event.eventId != "" && body.event.shortCode != "" ==>
                  (o.settlement.Nack? <==> EndOf([env.begin, env.lookup]).Err?))
  {
    EndOfTwo(env.begin, env.lookup, []);
    assert [env.begin, env.lookup] + [] == [env.begin, env.lookup];
  }

  /** An event that is not on record is settled by how its calls end, in their order: nacked
      exactly when the first failure is an error; and it is recorded exactly when all calls
      before the commit end normally and the commit does, or took effect all the same. */
  lemma SettledExactly(db: Db, e: ClickEvent, env: Env)
    requires env.Valid() && e.eventId != "" && e.shortCode != "" && e.eventId !in db.processed
    ensures var o := Process(db, Click(e), env);
            var before := EndOf(CallsBeforeCommit(db, e, env));
            && (o.settlement.Nack? <==> (if before.Ok? then env.commit else before).Err?)
            && (e.eventId in o.db.processed <==> before.Ok? && (env.commit.Ok? || env.durable))
            && (e.eventId !in o.db.processed ==> o.db == db)
  {
    var row := ClickRecordFromEvent(e);
    var total := CountClicks(db.clicks, e.shortCode) + 1;
    CountSnoc(db.clicks, row, e.shortCode);
    assert THRESHOLDS == [10, 100, 1000];
    CheckEnds(THRESHOLDS, db.milestones, e, total, env.marks, 0);
    BeforeCheck(env, CheckCalls(THRESHOLDS, db.milestones, e.shortCode, total, env.marks, 0));
  }

  /** Recording a click adds its event id and one row, each column from the event's own field. */
  lemma RecordedRow(db: Db, e: ClickEvent, env: Env)
    requires env.Valid() && e.eventId != "" && e.shortCode != "" && e.eventId !in db.processed
    requires e.eventId in Process(db, Click(e), env).db.processed
    ensures var after := Process(db, Click(e), env).db;
            && after.processed == db.processed + {e.eventId}
            && |after.clicks| == |db.clicks| + 1 && after.clicks[..|db.clicks|] == db.clicks
            && var row := after.clicks[|db.clicks|];
               && row.shortCode == e.shortCode && row.clickedAt == e.clickedAt
               && row.ipHash == e.ipHash && row.userAgent == e.userAgent
               && (e.referer == "" ==> row.referer == None) && (e.referer != "" ==> row.referer == Some(e.referer))
  {
    SettledExactly(db, e, env);
  }

  /** A milestone names the code, owner and address of the click that reached it. */
  ghost predicate NamesOwner(m: Milestone, e: ClickEvent) {
    && m.shortCode == e.shortCode && m.userId == e.userId && m.userEmail == e.userEmail
    && m.correlationId == e.correlationId
  }

  lemma {:induction false} CheckNamesOwner(thresholds: seq<int>, milestones: set<(string, int)>, e: ClickEvent,
                                           total: int, marks: seq<MarkEnv>, k: nat)
    requires k <= |thresholds| == |marks|
    ensures forall m :: m in CheckFrom(thresholds, milestones, e, total, marks, k).attempts ==> NamesOwner(m, e)
    decreases |thresholds| - k
  {
    if k < |thresholds| {
      CheckNamesOwner(thresholds, milestones, e, total, marks, k + 1);
      var one := CheckOne(milestones, e, thresholds[k], total, marks[k]);
      CheckNamesOwner(thresholds, one.milestones, e, total, marks, k + 1);
    }
  }

  lemma AnnouncementsNameOwner(db: Db, body: Body, env: Env)
    requires env.Valid()
    ensures forall m :: m in Process(db, body, env).attempts ==> body.Click? && NamesOwner(m, body.event)
  {
    if body.Click? {
      var clicks := db.clicks + [ClickRecordFromEvent(body.event)];
      CheckNamesOwner(THRESHOLDS, db.milestones, body.event, CountClicks(clicks, body.event.shortCode), env.marks, 0);
    }
  }
}
