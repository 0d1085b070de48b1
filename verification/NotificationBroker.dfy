/** The notification consumer behind its broker: a queue that redelivers, one delivery at a time.
    How often a delivery ends up on record, against how often it was published. */
module NotificationBroker {
  import opened Options
  import opened Settlements
  import opened Notifications

  /** Handled, with the settlement decided but not yet with the broker, and whether the
      transaction took effect. */
  datatype Phase = Unprocessed | Decided(settlement: Settlement, durable: bool) {
    predicate Took() {
      Decided? && durable
    }
  }

  datatype Flight = Flight(delivery: Delivery, phase: Phase)

  /** `origin` tells which delivery left a row.  The history counts, of each delivery, the
      copies published, those put back although their transaction had taken effect, and those
      acked although none had. */
  datatype Sys = Sys(
    queue: multiset<Delivery>, flight: Option<Flight>, table: Table, origin: map<int, Delivery>,
    published: multiset<Delivery>, repeated: multiset<Delivery>, forgone: multiset<Delivery>)

  datatype Action =
    | Publish(delivery: Delivery)
    | Deliver(delivery: Delivery)
    | Consume(env: Env)                     // the transaction, up to ack or nack
    | Settle                                // the ack or nack reaches the broker
    | Disconnect                            // crash or lost settlement: the broker requeues

  const START: Sys := Sys(multiset{}, None, map[], map[], multiset{}, multiset{}, multiset{})

  predicate Enabled(s: Sys, a: Action) {
    match a
    case Publish(_) => true
    case Deliver(d) => s.flight.None? && d in s.queue
    case Consume(env) => s.flight.Some? && s.flight.value.phase.Unprocessed? && env.id !in s.table
    case Settle => s.flight.Some? && s.flight.value.phase.Decided?
    case Disconnect => s.flight.Some?
  }

  function Consumed(s: Sys, d: Delivery, env: Env): Sys {
    var o := Handle(s.table, d, env);
    s.(table := o.table,
       flight := Some(Flight(d, Decided(o.settlement, o.end.Durable()))),
       origin := if o.end.Durable() then s.origin[env.id := d] else s.origin)
  }

  /** The copy goes back to the queue. */
  function PutBack(s: Sys): Sys
    requires s.flight.Some?
  {
    var f := s.flight.value;
    s.(flight := None, queue := s.queue + multiset{f.delivery},
       repeated := s.repeated + if f.phase.Took() then multiset{f.delivery} else multiset{})
  }

  function Acked(s: Sys): Sys
    requires s.flight.Some? && s.flight.value.phase.Decided?
  {
    var f := s.flight.value;
    s.(flight := None, forgone := s.forgone + if f.phase.durable then multiset{} else multiset{f.delivery})
  }

  function Apply(s: Sys, a: Action): Sys
    requires Enabled(s, a)
  {
    match a
    case Publish(d) => s.(queue := s.queue + multiset{d}, published := s.published + multiset{d})
    case Deliver(d) => s.(queue := s.queue - multiset{d}, flight := Some(Flight(d, Unprocessed)))
    case Consume(env) => Consumed(s, s.flight.value.delivery, env)
    case Settle => if s.flight.value.phase.settlement.Ack? then Acked(s) else PutBack(s)
    case Disconnect => PutBack(s)
  }

  predicate IsRunFrom(s: Sys, actions: seq<Action>)
    decreases |actions|
  {
    actions == [] || (Enabled(s, actions[0]) && IsRunFrom(Apply(s, actions[0]), actions[1..]))
  }

  function Reach(s: Sys, actions: seq<Action>): Sys
    requires IsRunFrom(s, actions)
    decreases |actions|
  {
    if actions == [] then s else Reach(Apply(s, actions[0]), actions[1..])
  }

  // ----- the balance of copies and rows

  /** The rows that a delivery left. */
  function Rows(s: Sys, d: Delivery): set<int> {
    set id | id in s.origin && s.origin[id] == d
  }

  /** Copies at the consumer whose transaction has not taken effect. */
  function Pending(s: Sys, d: Delivery): nat {
    if s.flight.Some? && s.flight.value.delivery == d && !s.flight.value.phase.Took() then 1 else 0
  }

  ghost predicate Balanced(s: Sys, d: Delivery) {
    s.published[d] + s.repeated[d] == |Rows(s, d)| + s.queue[d] + Pending(s, d) + s.forgone[d]
  }

  /** Every row is what its delivery asks for, marked sent. */
  ghost predicate Original(s: Sys) {
    && s.origin.Keys == s.table.Keys
    && forall id :: id in s.origin ==> Shows(s.table[id], s.origin[id])
  }

  predicate Shows(row: Notification, d: Delivery) {
    Decode(d).Some? && row == SentRow(Decode(d).value, row.createdAt)
  }

  ghost predicate Inv(s: Sys) {
    Original(s) && forall d :: Balanced(s, d)
  }

  lemma RowsGrow(s: Sys, id: int, e: Delivery, d: Delivery)
    requires id !in s.origin
    ensures |Rows(s.(origin := s.origin[id := e]), d)| == |Rows(s, d)| + if d == e then 1 else 0
  {
    var t := s.(origin := s.origin[id := e]);
    if d == e {
      assert Rows(t, d) == Rows(s, d) + {id};
    } else {
      assert Rows(t, d) == Rows(s, d);
    }
  }

  lemma ConsumeKeeps(s: Sys, env: Env)
    requires Inv(s) && Enabled(s, Consume(env))
    ensures Inv(Apply(s, Consume(env)))
  {
    var e, t := s.flight.value.delivery, Apply(s, Consume(env));
    Settled(s.table, e, env);
    forall d ensures Balanced(t, d) {
      assert Balanced(s, d);
      RowsGrow(s, env.id, e, d);
      assert t.origin == s.origin ==> Rows(t, d) == Rows(s, d);
      assert t.origin == s.origin[env.id := e] ==> Rows(t, d) == Rows(s.(origin := s.origin[env.id := e]), d);
    }
  }

  lemma PutBackKeeps(s: Sys)
    requires Inv(s) && s.flight.Some?
    ensures Inv(PutBack(s))
  {
    forall d ensures Balanced(PutBack(s), d) {
      assert Balanced(s, d);
      assert Rows(PutBack(s), d) == Rows(s, d);
    }
  }

  lemma AckedKeeps(s: Sys)
    requires Inv(s) && s.flight.Some? && s.flight.value.phase.Decided?
    ensures Inv(Acked(s))
  {
    forall d ensures Balanced(Acked(s), d) {
      assert Balanced(s, d);
      assert Rows(Acked(s), d) == Rows(s, d);
    }
  }

  lemma QueueKeeps(s: Sys, a: Action)
    requires Inv(s) && Enabled(s, a) && (a.Publish? || a.Deliver?)
    ensures Inv(Apply(s, a))
  {
    forall d ensures Balanced(Apply(s, a), d) {
      assert Balanced(s, d);
      assert Rows(Apply(s, a), d) == Rows(s, d);
    }
  }

  lemma StepKeeps(s: Sys, a: Action)
    requires Inv(s) && Enabled(s, a)
    ensures Inv(Apply(s, a))
  {
    match a
    case Publish(_) => QueueKeeps(s, a);
    case Deliver(_) => QueueKeeps(s, a);
    case Consume(env) => ConsumeKeeps(s, env);
    case Settle => if s.flight.value.phase.settlement.Ack? { AckedKeeps(s); } else { PutBackKeeps(s); }
    case Disconnect => PutBackKeeps(s);
  }

  lemma StartKeeps()
    ensures Inv(START)
  {
    forall d ensures Balanced(START, d) {
      assert Rows(START, d) == {};
    }
  }

  /** In every reachable state the copies and rows of each delivery balance. */
  lemma {:induction false} AlwaysBalanced(s: Sys, actions: seq<Action>)
    requires Inv(s) && IsRunFrom(s, actions)
    ensures Original(Reach(s, actions))
    ensures forall d :: Balanced(Reach(s, actions), d)
    decreases |actions|
  {
    if actions != [] {
      StepKeeps(s, actions[0]);
      AlwaysBalanced(Apply(s, actions[0]), actions[1..]);
    }
  }

  /** Nothing queued and nothing at the consumer. */
  predicate Drained(s: Sys) {
    s.queue == multiset{} && s.flight.None?
  }

  /** In every run that has drained: a delivery is on record once for each copy published, once
      more for each copy put back although it had been recorded (a commit that reported an
      error, or a connection lost after the commit), and once less for each copy that was
      acked unrecorded (a poison body, or a panic).  So it is on record as often as it was
      published exactly when the latter two are as many. */
  lemma DrainedRows(actions: seq<Action>, d: Delivery)
    requires IsRunFrom(START, actions) && Drained(Reach(START, actions))
    ensures var s := Reach(START, actions);
            && |Rows(s, d)| + s.forgone[d] == s.published[d] + s.repeated[d]
            && (|Rows(s, d)| == s.published[d] <==> s.repeated[d] == s.forgone[d])
            && (forall id :: id in Rows(s, d) ==> id in s.table && Shows(s.table[id], d))
  {
    StartKeeps();
    AlwaysBalanced(START, actions);
    assert Balanced(Reach(START, actions), d);
  }

  // ----- when copies are repeated or forgone

  /** How a step changes the history: copies are repeated and forgone in these ways only. */
  lemma HistoryStep(s: Sys, a: Action, d: Delivery)
    requires Enabled(s, a)
    ensures var t := Apply(s, a);
            var held := s.flight.Some? && s.flight.value.delivery == d && s.flight.value.phase.Decided?;
            var acked := held && a.Settle? && s.flight.value.phase.settlement.Ack?;
            var back := held && (a.Disconnect? || (a.Settle? && s.flight.value.phase.settlement.Nack?));
            && t.repeated[d] == s.repeated[d] + (if back && s.flight.value.phase.durable then 1 else 0)
            && t.forgone[d] == s.forgone[d] + (if acked && !s.flight.value.phase.durable then 1 else 0)
  {
  }

  /** What the consumer decides: it nacks a transaction that took effect exactly when the
      commit reported an error all the same, and acks one that did not exactly for a poison
      body or a panic. */
  lemma DecidedHow(s: Sys, env: Env)
    requires Enabled(s, Consume(env))
    ensures var d, phase := s.flight.value.delivery, Apply(s, Consume(env)).flight.value.phase;
            var o := Handle(s.table, d, env);
            && (phase.durable && phase.settlement.Nack? <==>
                  Decode(d).Some? && env.begin.Ok? && env.insert.Ok? && env.mark.Ok? && env.commit.Err? && env.durable)
            && (!phase.durable && phase.settlement.Ack? <==> Decode(d).None? || (o.end.Panicked() && !o.end.Durable()))
  {
  }

  function Fine(id: int): Env {
    Env(Ok, Ok, Ok, Ok, true, id, 0)
  }

  /** One copy is published; its commit takes effect but reports an error; it is nacked,
      redelivered, and recorded again. */
  function InDoubt(d: Delivery): seq<Action> {
    [Publish(d), Deliver(d), Consume(Fine(0).(commit := Err)), Settle, Deliver(d), Consume(Fine(1)), Settle]
  }

  lemma RunCons(s: Sys, a: Action, t: Sys, rest: seq<Action>, last: Sys)
    requires Enabled(s, a) && Apply(s, a) == t && IsRunFrom(t, rest) && Reach(t, rest) == last
    ensures IsRunFrom(s, [a] + rest) && Reach(s, [a] + rest) == last
  {
    assert ([a] + rest)[1..] == rest;
  }

  function OneRow(d: Delivery): Table
    requires Decode(d).Some?
  {
    map[0 := SentRow(Decode(d).value, 0)]
  }

  /** "One notification per event" fails. */
  lemma RedeliveryDuplicates(d: Delivery)
    requires Decode(d).Some?
    ensures var actions := InDoubt(d);
            && IsRunFrom(START, actions) && Drained(Reach(START, actions))
            && Reach(START, actions).published == multiset{d}
            && Rows(Reach(START, actions), d) == {0, 1}
  {
    var a2, a5 := Consume(Fine(0).(commit := Err)), Consume(Fine(1));
    var one, two := OneRow(d), OneRow(d)[1 := SentRow(Decode(d).value, 0)];
    var s1 := START.(queue := multiset{d}, published := multiset{d});
    var s2 := s1.(queue := multiset{}, flight := Some(Flight(d, Unprocessed)));
    var s3 := s2.(table := one, origin := map[0 := d], flight := Some(Flight(d, Decided(Nack, true))));
    var s4 := s3.(flight := None, queue := multiset{d}, repeated := multiset{d});
    var s5 := s4.(queue := multiset{}, flight := Some(Flight(d, Unprocessed)));
    var s6 := s5.(table := two, origin := map[0 := d, 1 := d], flight := Some(Flight(d, Decided(Ack, true))));
    var s7 := s6.(flight := None);
    var all := InDoubt(d);
    RunCons(s6, Settle, s7, [], s7);
    RunCons(s5, a5, s6, all[6..], s7);
    RunCons(s4, Deliver(d), s5, all[5..], s7);
    RunCons(s3, Settle, s4, all[4..], s7);
    RunCons(s2, a2, s3, all[3..], s7);
    RunCons(s1, Deliver(d), s2, all[2..], s7);
    RunCons(START, Publish(d), s1, all[1..], s7);
  }
}
