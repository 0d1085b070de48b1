/** The analytics consumer (services/analytics-service/consumer.go, milestone.go, store.go):
    one delivery is one transaction that deduplicates, counts, checks milestones and
    commits, and is then acked or nacked.  How each database, publisher or commit call ends
    is chosen by the environment. */
module Analytics {
  import opened Options
  import opened Events
  import opened Settlements

  /** A message body: not the JSON of a click event, or one. */
  datatype Body = Garbled | Click(event: ClickEvent)

  datatype ClickRow = ClickRow(shortCode: string, clickedAt: int, ipHash: string,
                            userAgent: string, referer: Option<string>)

  /** The milestone.reached event handed to the publisher. */
  datatype Milestone = Milestone(
    shortCode: string, userId: string, userEmail: string, correlationId: string, milestone: int, totalClicks: int)

  datatype Db = Db(processed: set<string>, clicks: seq<ClickRow>, milestones: set<(string, int)>)

  datatype MarkEnv = MarkEnv(has: Call, insert: Call, publish: Call)

  /** How every call of one delivery would end.  `durable` says whether a commit that does
      not report success took effect all the same. */
  datatype Env = Env(begin: Call, lookup: Call, insertEvent: Call, insertClick: Call, count: Call,
                     marks: seq<MarkEnv>, commit: Call, durable: bool) {
    predicate Valid() {
      |marks| == |THRESHOLDS|
    }
  }

  datatype Outcome = Outcome(db: Db, settlement: Settlement, attempts: seq<Milestone>, end: End)

  const THRESHOLDS: seq<int> := [10, 100, 1000]

  function NullString(value: string): Option<string> {
    if value == "" then None else Some(value)
  }

  function ClickRecordFromEvent(e: ClickEvent): ClickRow {
    ClickRow(e.shortCode, e.clickedAt, e.ipHash, e.userAgent, NullString(e.referer))
  }

  predicate IsPoison(body: Body) {
    body.Garbled? || body.event.eventId == "" || body.event.shortCode == ""
  }

  function CountClicks(clicks: seq<ClickRow>, code: string): nat {
    if clicks == [] then 0
    else CountClicks(clicks[..|clicks| - 1], code) + if clicks[|clicks| - 1].shortCode == code then 1 else 0
  }

  function Reached(e: ClickEvent, threshold: int, total: int): Milestone {
    Milestone(e.shortCode, e.userId, e.userEmail, e.correlationId, threshold, total)
  }

  // ----- the milestone check

  datatype Check = Check(call: Call, milestones: set<(string, int)>, attempts: seq<Milestone>)

  /** One threshold that the total has reached. */
  function CheckOne(milestones: set<(string, int)>, e: ClickEvent, threshold: int, total: int, env: MarkEnv): Check {
    if !env.has.Ok? then Check(env.has, milestones, [])
    else if (e.shortCode, threshold) in milestones then Check(Ok, milestones, [])
    else if !env.insert.Ok? then Check(env.insert, milestones, [])
    else Check(if env.publish.Panic? then Panic else Ok,
               milestones + {(e.shortCode, threshold)}, [Reached(e, threshold, total)])
  }

  /** The thresholds from index `k` on, until one of them fails. */
  function CheckFrom(thresholds: seq<int>, milestones: set<(string, int)>, e: ClickEvent, total: int,
                     marks: seq<MarkEnv>, k: nat): Check
    requires k <= |thresholds| == |marks|
    decreases |thresholds| - k
  {
    if k == |thresholds| then Check(Ok, milestones, [])
    else if total < thresholds[k] then CheckFrom(thresholds, milestones, e, total, marks, k + 1)
    else
      var one := CheckOne(milestones, e, thresholds[k], total, marks[k]);
      if !one.call.Ok? then one
      else
        var rest := CheckFrom(thresholds, one.milestones, e, total, marks, k + 1);
        rest.(attempts := one.attempts + rest.attempts)
  }

  // ----- one delivery

  function Stop(db: Db, call: Call, attempts: seq<Milestone>): Outcome {
    Outcome(db, if call.Panic? then Ack else Nack, attempts, Aborted(call))
  }

  function Process(db: Db, body: Body, env: Env): Outcome
    requires env.Valid()
  {
    if IsPoison(body) then Outcome(db, Ack, [], Poison)
    else if !env.begin.Ok? then Stop(db, env.begin, [])
    else if !env.lookup.Ok? then Stop(db, env.lookup, [])
    else if body.event.eventId in db.processed then Outcome(db, Ack, [], Duplicate)
    else if !env.insertEvent.Ok? then Stop(db, env.insertEvent, [])
    else if !env.insertClick.Ok? then Stop(db, env.insertClick, [])
    else if !env.count.Ok? then Stop(db, env.count, [])
    else
      var e := body.event;
      var clicks := db.clicks + [ClickRecordFromEvent(e)];
      var check := CheckFrom(THRESHOLDS, db.milestones, e, CountClicks(clicks, e.shortCode), env.marks, 0);
      if !check.call.Ok? then Stop(db, check.call, check.attempts)
      else
        var durable := env.commit.Ok? || env.durable;
        Outcome(
          if durable then Db(db.processed + {e.eventId}, clicks, check.milestones) else db,
          if env.commit.Err? then Nack else Ack,
          check.attempts,
          Committing(env.commit, durable))
  }

  // ----- the same, as the program runs it

  /** A database transaction: its private view of the tables.  A call that does not end
      normally changes nothing. */
  class Transaction {
    var processed: set<string>
    var clicks: seq<ClickRow>
    var milestones: set<(string, int)>

    constructor (db: Db)
      ensures View() == db
    {
      processed, clicks, milestones := db.processed, db.clicks, db.milestones;
    }

    function View(): Db
      reads this
    {
      Db(processed, clicks, milestones)
    }

    method InsertProcessedEvent(eventId: string, call: Call)
      modifies this
      ensures View() == if call.Ok? then old(View()).(processed := old(processed) + {eventId}) else old(View())
    {
      if call.Ok? {
        processed := processed + {eventId};
      }
    }

    method InsertClick(row: ClickRow, call: Call)
      modifies this
      ensures View() == if call.Ok? then old(View()).(clicks := old(clicks) + [row]) else old(View())
    {
      if call.Ok? {
        clicks := clicks + [row];
      }
    }

    method InsertMilestone(code: string, threshold: int, call: Call)
      modifies this
      ensures View() == if call.Ok? then old(View()).(milestones := old(milestones) + {(code, threshold)})
                        else old(View())
    {
      if call.Ok? {
        milestones := milestones + {(code, threshold)};
      }
    }
  }

  /** The consumer, the tables it owns, what it has handed to the publisher, and how often
      it has acked and nacked. */
  class ClickConsumer {
    var processed: set<string>
    var clicks: seq<ClickRow>
    var milestones: set<(string, int)>
    var attempts: seq<Milestone>
    var acks: nat
    var nacks: nat

    function Tables(): Db
      reads this
    {
      Db(processed, clicks, milestones)
    }

    constructor ()
      ensures Tables() == Db({}, [], {}) && attempts == [] && acks == 0 && nacks == 0
    {
      processed, clicks, milestones, attempts, acks, nacks := {}, [], {}, [], 0, 0;
    }

    method PublishIfNewMilestone(tx: Transaction, e: ClickEvent, threshold: int, total: int, env: MarkEnv)
      returns (call: Call)
      modifies tx, `attempts
      ensures tx.processed == old(tx.processed) && tx.clicks == old(tx.clicks)
      ensures var one := CheckOne(old(tx.milestones), e, threshold, total, env);
              call == one.call && tx.milestones == one.milestones && attempts == old(attempts) + one.attempts
    {
      if !env.has.Ok? {
        return env.has;
      }
      if (e.shortCode, threshold) in tx.milestones {
        return Ok;
      }
      tx.InsertMilestone(e.shortCode, threshold, env.insert);
      if !env.insert.Ok? {
        return env.insert;
      }
      attempts := attempts + [Reached(e, threshold, total)];
      // an error of the publisher is only logged
      return if env.publish.Panic? then Panic else Ok;
    }

    method CheckAndPublish(tx: Transaction, e: ClickEvent, env: Env) returns (call: Call)
      requires env.Valid()
      modifies tx, `attempts
      ensures tx.processed == old(tx.processed) && tx.clicks == old(tx.clicks)
      ensures if !env.count.Ok? then
                call == env.count && tx.milestones == old(tx.milestones) && attempts == old(attempts)
              else
                var check := CheckFrom(THRESHOLDS, old(tx.milestones), e, CountClicks(old(tx.clicks), e.shortCode),
                                       env.marks, 0);
                call == check.call && tx.milestones == check.milestones && attempts == old(attempts) + check.attempts
    {
      if !env.count.Ok? {
        return env.count;
      }
      var total := CountClicks(tx.clicks, e.shortCode);
      call := CheckThresholds(tx, e, THRESHOLDS, total, env.marks);
    }

    /** The loop of `CheckAndPublish`. */
    method CheckThresholds(tx: Transaction, e: ClickEvent, thresholds: seq<int>, total: int, marks: seq<MarkEnv>)
      returns (call: Call)
      requires |thresholds| == |marks|
      modifies tx, `attempts
      ensures tx.processed == old(tx.processed) && tx.clicks == old(tx.clicks)
      ensures var check := CheckFrom(thresholds, old(tx.milestones), e, total, marks, 0);
              call == check.call && tx.milestones == check.milestones && attempts == old(attempts) + check.attempts
    {
      ghost var goal := CheckFrom(thresholds, tx.milestones, e, total, marks, 0);
      ghost var made := [];
      for k := 0 to |thresholds|
        invariant tx.processed == old(tx.processed) && tx.clicks == old(tx.clicks)
        invariant attempts == old(attempts) + made
        invariant var rest := CheckFrom(thresholds, tx.milestones, e, total, marks, k);
                  goal == rest.(attempts := made + rest.attempts)
      {
        var threshold := thresholds[k];
        if total < threshold {
          continue;
        }
        ghost var one := CheckOne(tx.milestones, e, threshold, total, marks[k]);
        ghost var was := made;
        call := PublishIfNewMilestone(tx, e, threshold, total, marks[k]);
        made := made + one.attempts;
        if !call.Ok? {
          return;
        }
        ghost var rest := CheckFrom(thresholds, tx.milestones, e, total, marks, k + 1);
        assert was + (one.attempts + rest.attempts) == made + rest.attempts;
      }
      return Ok;
    }

    /** `deferred` rollback, then either the nack of an error return or the ack of the
        panic handler. */
    method GiveUp(call: Call)
      requires !call.Ok?
      modifies `acks, `nacks
      ensures acks == old(acks) + if call.Panic? then 1 else 0
      ensures nacks == old(nacks) + if call.Err? then 1 else 0
    {
      if call.Panic? {
        acks := acks + 1;
      } else {
        nacks := nacks + 1;
      }
    }

    method ProcessDelivery(body: Body, env: Env)
      requires env.Valid()
      modifies this
      ensures var o := Process(old(Tables()), body, env);
              && Tables() == o.db
              && attempts == old(attempts) + o.attempts
              && acks == old(acks) + (if o.settlement.Ack? then 1 else 0)
              && nacks == old(nacks) + (if o.settlement.Nack? then 1 else 0)
    {
      if body.Garbled? {
        acks := acks + 1;
        return;
      }
      var e := body.event;
      if e.eventId == "" || e.shortCode == "" {
        acks := acks + 1;
        return;
      }
      if !env.begin.Ok? {
        GiveUp(env.begin);
        return;
      }
      var tx := new Transaction(Tables());
      if !env.lookup.Ok? {
        GiveUp(env.lookup);
        return;
      }
      if e.eventId in tx.processed {
        acks := acks + 1;
        return;
      }
      RecordClick(tx, e, env);
    }

    /** The transaction of a new event, from its dedup row on. */
    method RecordClick(tx: Transaction, e: ClickEvent, env: Env)
      requires env.Valid() && env.begin.Ok? && env.lookup.Ok? && !IsPoison(Click(e))
      requires tx.View() == Tables() && e.eventId !in processed
      modifies this, tx
      ensures var o := Process(old(Tables()), Click(e), env);
              && Tables() == o.db
              && attempts == old(attempts) + o.attempts
              && acks == old(acks) + (if o.settlement.Ack? then 1 else 0)
              && nacks == old(nacks) + (if o.settlement.Nack? then 1 else 0)
    {
      tx.InsertProcessedEvent(e.eventId, env.insertEvent);
      if !env.insertEvent.Ok? {
        GiveUp(env.insertEvent);
        return;
      }
      tx.InsertClick(ClickRecordFromEvent(e), env.insertClick);
      if !env.insertClick.Ok? {
        GiveUp(env.insertClick);
        return;
      }
      var call := CheckAndPublish(tx, e, env);
      if !call.Ok? {
        GiveUp(call);
        return;
      }
      if env.commit.Ok? || env.durable {
        processed, clicks, milestones := tx.processed, tx.clicks, tx.milestones;
      }
      if !env.commit.Ok? {
        GiveUp(env.commit);
        return;
      }
      acks := acks + 1;
    }
  }
}
