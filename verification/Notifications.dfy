/** The notification consumer (services/notification-service/consumer.go, store.go): decode,
    insert a pending row and mark it sent in one transaction, then ack or nack. */
module Notifications {
  import opened Options
  import opened Sets
  import opened Settlements

  /** What decoding can find in a body: not JSON at all, or an envelope with an event id, of
      which the routed event type may or may not be decodable. */
  datatype Content = NotJson | Envelope(eventId: string, decodes: bool, userId: string, userEmail: string)

  datatype Delivery = Delivery(routingKey: string, content: Content, raw: seq<bv8>)

  const CREATED := "url.created"
  const DELETED := "url.deleted"
  const MILESTONE := "milestone.reached"

  datatype Status = Pending | Sent

  datatype Notification = Notification(userId: string, eventType: string, payload: seq<bv8>, status: Status,
                                       createdAt: int, sentAt: Option<int>)

  datatype Record = Record(userId: string, userEmail: string, eventType: string, payload: seq<bv8>)

  /** The table, by row id. */
  type Table = map<int, Notification>

  /** How each call of one delivery would end, the id and the database time of its transaction;
      `durable` as for the analytics consumer. */
  datatype Env = Env(begin: Call, insert: Call, mark: Call, commit: Call, durable: bool, id: int, now: int)

  /** The record a delivery asks for, if it is well formed. */
  function Decode(d: Delivery): Option<Record> {
    match d.content
    case NotJson => None
    case Envelope(eventId, decodes, userId, userEmail) =>
      if eventId == "" then None
      else if d.routingKey !in {CREATED, DELETED, MILESTONE} then None
      else if !decodes || userId == "" || userEmail == "" then None
      else Some(Record(userId, userEmail, d.routingKey, d.raw))
  }

  /** The row that one transaction leaves: inserted as pending, then marked sent. */
  function SentRow(rec: Record, now: int): Notification {
    Notification(rec.userId, rec.eventType, rec.payload, Sent, now, Some(now))
  }

  /** The same, column by column. */
  predicate IsSent(row: Notification, rec: Record, now: int) {
    && row.userId == rec.userId && row.eventType == rec.eventType && row.payload == rec.payload
    && row.status == Sent && row.createdAt == now && row.sentAt == Some(now)
  }

  datatype Outcome = Outcome(table: Table, settlement: Settlement, end: End)

  function Handle(table: Table, d: Delivery, env: Env): Outcome {
    var rec := Decode(d);
    if rec.None? then Outcome(table, Ack, Poison)
    else
      var first := if !env.begin.Ok? then env.begin else if !env.insert.Ok? then env.insert else env.mark;
      if !first.Ok? then Outcome(table, if first.Panic? then Ack else Nack, Aborted(first))
      else
        var durable := env.commit.Ok? || env.durable;
        Outcome(
          if durable then table[env.id := SentRow(rec.value, env.now)] else table,
          if env.commit.Err? then Nack else Ack,
          Committing(env.commit, durable))
  }

  // ----- the same, as the program runs it

  class NotificationConsumer {
    var table: Table
    var acks: nat
    var nacks: nat

    constructor ()
      ensures table == map[] && acks == 0 && nacks == 0
    {
      table, acks, nacks := map[], 0, 0;
    }

    /** The transaction.  `id` is generated by the database, so it is new. */
    method InsertNotification(rec: Record, env: Env) returns (call: Call)
      requires env.id !in table
      modifies `table
      ensures call == (if !env.begin.Ok? then env.begin else if !env.insert.Ok? then env.insert
                       else if !env.mark.Ok? then env.mark else env.commit)
      ensures table == if env.begin.Ok? && env.insert.Ok? && env.mark.Ok? && (env.commit.Ok? || env.durable)
                       then old(table)[env.id := SentRow(rec, env.now)] else old(table)
      ensures env.id in table ==> IsSent(table[env.id], rec, env.now)
    {
      if !env.begin.Ok? {
        return env.begin;
      }
      var tx := table;
      if !env.insert.Ok? {
        return env.insert;
      }
      tx := tx[env.id := Notification(rec.userId, rec.eventType, rec.payload, Pending, env.now, None)];
      if !env.mark.Ok? {
        return env.mark;
      }
      tx := tx[env.id := tx[env.id].(status := Sent, sentAt := Some(env.now))];
      if env.commit.Ok? || env.durable {
        table := tx;
      }
      return env.commit;
    }

    method ProcessDelivery(d: Delivery, env: Env)
      requires env.id !in table
      modifies this
      ensures var o := Handle(old(table), d, env);
              && table == o.table
              && acks == old(acks) + (if o.settlement.Ack? then 1 else 0)
              && nacks == old(nacks) + (if o.settlement.Nack? then 1 else 0)
    {
      var rec := NotificationFromDelivery(d);
      if rec.None? {
        acks := acks + 1;
        return;
      }
      var call := InsertNotification(rec.value, env);
      if call.Err? {
        nacks := nacks + 1;
        return;
      }
      // success, or the panic handler
      acks := acks + 1;
    }

    /** `None` when the delivery is discarded with an ack. */
    method NotificationFromDelivery(d: Delivery) returns (rec: Option<Record>)
      ensures rec == Decode(d)
      ensures rec.Some? <==> && d.content.Envelope? && d.content.eventId != "" && d.content.decodes
                             && d.routingKey in {"url.created", "url.deleted", "milestone.reached"}
                             && d.content.userId != "" && d.content.userEmail != ""
      ensures rec.Some? ==> && rec.value.userId == d.content.userId && rec.value.userEmail == d.content.userEmail
                            && rec.value.eventType == d.routingKey && rec.value.payload == d.raw
    {
      if d.content.NotJson? || d.content.eventId == "" {
        return None;
      }
      if d.routingKey != CREATED && d.routingKey != DELETED && d.routingKey != MILESTONE {
        return None;
      }
      if !d.content.decodes || d.content.userId == "" || d.content.userEmail == "" {
        return None;
      }
      return Some(Record(d.content.userId, d.content.userEmail, d.routingKey, d.raw));
    }
  }

  // ----- what the consumer promises

  /** A nack means that nothing was committed, unless it was the commit that reported the
      error; an ack outside the panic handler of a delivery that decodes means that its
      notification is on record, sent. */
  lemma Settled(table: Table, d: Delivery, env: Env)
    requires env.id !in table
    ensures var o := Handle(table, d, env);
            && (o.settlement.Nack? ==> o.table == table || (o.end.Committing? && o.end.call.Err? && o.end.durable))
            && (o.settlement.Ack? && Decode(d).Some? && !o.end.Panicked() ==>
                  env.id in o.table && o.table[env.id] == SentRow(Decode(d).value, env.now))
            && (o.end.Durable() <==> o.table != table)
  {
  }

  /** How a delivery is settled, by the calls it makes in their order: acked at once if it does
      not decode, and otherwise nacked exactly when the first of its calls not to end normally
      ends in an error.  It is recorded exactly when those before the commit end normally and
      the commit does, or took effect all the same. */
  lemma SettledExactly(table: Table, d: Delivery, env: Env)
    requires env.id !in table
    ensures var o, before := Handle(table, d, env), EndOf([env.begin, env.insert, env.mark]);
            && (Decode(d).None? ==> o.settlement.Ack? && o.table == table)
            && (Decode(d).Some? ==>
                  && (o.settlement.Nack? <==> (if before.Ok? then env.commit else before).Err?)
                  && (env.id in o.table <==> before.Ok? && (env.commit.Ok? || env.durable))
                  && (env.id in o.table ==> IsSent(o.table[env.id], Decode(d).value, env.now))
                  && (forall id :: id in o.table && id != env.id <==> id in table)
                  && (forall id :: id in table ==> o.table[id] == table[id]))
  {
    EndOfThree(env.begin, env.insert, env.mark, []);
    assert [env.begin, env.insert, env.mark] + [] == [env.begin, env.insert, env.mark];
  }

  datatype Step = Step(delivery: Delivery, env: Env)

  function TableAt(steps: seq<Step>, i: nat): Table
    requires i <= |steps|
  {
    if i == 0 then map[] else Handle(TableAt(steps, i - 1), steps[i - 1].delivery, steps[i - 1].env).table
  }

  ghost predicate FreshId(steps: seq<Step>, i: nat)
    requires i < |steps|
  {
    steps[i].env.id !in TableAt(steps, i)
  }

  /** Deliveries, redeliveries included, with database-generated ids. */
  ghost predicate IsRun(steps: seq<Step>) {
    forall i :: 0 <= i < |steps| ==> FreshId(steps, i)
  }

  function Effective(steps: seq<Step>, i: nat): nat
    requires i <= |steps|
  {
    if i == 0 then 0
    else
      var s := steps[i - 1];
      Effective(steps, i - 1) + if Handle(TableAt(steps, i - 1), s.delivery, s.env).end.Durable() then 1 else 0
  }

  /** No row is ever visible as pending, and there is one row per transaction that took
      effect: nothing is lost, and nothing is deduplicated either. */
  lemma {:induction false} OneRowPerTransaction(steps: seq<Step>, i: nat)
    requires IsRun(steps) && i <= |steps|
    ensures |TableAt(steps, i)| == Effective(steps, i)
    ensures forall id :: id in TableAt(steps, i) ==>
              TableAt(steps, i)[id].status.Sent? && TableAt(steps, i)[id].sentAt.Some?
  {
    if i > 0 {
      OneRowPerTransaction(steps, i - 1);
      assert FreshId(steps, i - 1);
      Settled(TableAt(steps, i - 1), steps[i - 1].delivery, steps[i - 1].env);
    }
  }

  /** The row tells of what a delivery asks for: same user, same event, same body. */
  predicate TellsOf(row: Notification, d: Delivery) {
    var rec := Decode(d);
    rec.Some? && row.userId == rec.value.userId && row.eventType == rec.value.eventType
    && row.payload == rec.value.payload
  }

  function RowsFor(table: Table, d: Delivery): set<int> {
    set id | id in table && TellsOf(table[id], d)
  }

  /** The delivery of step `i` asks for the same as `d`, and its transaction took effect. */
  predicate Repeats(steps: seq<Step>, i: nat, d: Delivery)
    requires i < |steps|
  {
    var s := steps[i];
    && Handle(TableAt(steps, i), s.delivery, s.env).end.Durable()
    && Decode(s.delivery).Some? && TellsOf(SentRow(Decode(s.delivery).value, s.env.now), d)
  }

  function EffectiveFor(steps: seq<Step>, i: nat, d: Delivery): nat
    requires i <= |steps|
  {
    if i == 0 then 0 else EffectiveFor(steps, i - 1, d) + if Repeats(steps, i - 1, d) then 1 else 0
  }

  lemma RowsForStep(table: Table, step: Step, d: Delivery)
    requires step.env.id !in table
    ensures var o := Handle(table, step.delivery, step.env);
            var rec := Decode(step.delivery);
            RowsFor(o.table, d) == RowsFor(table, d) +
              if o.end.Durable() && rec.Some? && TellsOf(SentRow(rec.value, step.env.now), d) then {step.env.id} else {}
  {
  }

  /** Over every run, what a delivery asks for is on record once for each transaction of its
      deliveries that took effect. */
  lemma {:induction false} RowsPerDelivery(steps: seq<Step>, i: nat, d: Delivery)
    requires IsRun(steps) && i <= |steps|
    ensures |RowsFor(TableAt(steps, i), d)| == EffectiveFor(steps, i, d)
  {
    if i == 0 {
      assert RowsFor(map[], d) == {};
    } else {
      RowsPerDelivery(steps, i - 1, d);
      assert FreshId(steps, i - 1);
      RowsForStep(TableAt(steps, i - 1), steps[i - 1], d);
    }
  }

  /** So the user sees it twice exactly when two of them took effect. */
  lemma DuplicatedIff(steps: seq<Step>, d: Delivery)
    requires IsRun(steps)
    ensures var rows := RowsFor(TableAt(steps, |steps|), d);
            (exists a, b :: a != b && a in rows && b in rows) <==> EffectiveFor(steps, |steps|, d) >= 2
  {
    var rows := RowsFor(TableAt(steps, |steps|), d);
    RowsPerDelivery(steps, |steps|, d);
    if |rows| >= 2 {
      var a, b := TwoElements(rows);
    } else if a, b :| a != b && a in rows && b in rows {
      SubsetSize({a, b}, rows);
    }
  }
}
