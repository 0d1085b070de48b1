/** The life of a click, end to end: an outbox row is leased by any number of coordinators,
    published, marked; the broker queues and redelivers; one analytics consumer (prefetch 1)
    processes and settles.  Every hop may fail, repeat or stop halfway.

    Assumed of the environment: event ids are fresh; a statement and a commit are atomic; the
    database clock does not run backwards; a publish that reports success has put the message
    on the bound durable queue, and the broker loses no message; one analytics consumer. */
module Pipeline {
  import opened Options
  import opened Events
  import opened Outbox
  import opened Settlements
  import opened Analytics

  /** Where one claim of one row has got to. */
  datatype Status = Fetched | Queued | Working | Dropped | Failed | Published | Done

  /** One claim: the job handed out, when, where it has got to, and whether the broker has
      received its message. */
  datatype Claim = Claim(job: Job, at: int, status: Status, sent: bool)

  datatype Phase = Unprocessed | Decided(settlement: Settlement)

  /** The message the consumer holds. */
  datatype Flight = Flight(event: ClickEvent, phase: Phase)

  /** A milestone announcement, and whether its transaction took effect. */
  datatype Logged = Logged(milestone: Milestone, durable: bool)

  /** `claims`, `ledger`, `recovered` and `attempts` are the history of the run: every claim
      ever made, the events whose transaction took effect in commit order, the ids settled by
      the panic handler, and every milestone announcement. */
  datatype Sys = Sys(
    now: int, outbox: Table, claims: seq<Claim>,
    queue: multiset<ClickEvent>, flight: Option<Flight>,
    db: Db, ledger: seq<ClickEvent>, recovered: set<string>, attempts: seq<Logged>)

  datatype Action =
    | Tick(elapsed: nat)
    | Insert(id: string, payload: Payload, createdAt: int)
    | Fetch(picked: seq<string>)                                // one poll by some coordinator
    | Enqueue(c: nat)                                           // the poll sends a job to its channel
    | Take(c: nat)                                              // a worker receives it
    | Drop(c: nat)                                              // shutdown or crash before publishing
    | Publish(c: nat, ok: bool, delivered: bool)                // `delivered`: received although reported failed
    | MarkRow(c: nat, applied: bool)                            // `applied`: the statement took effect
    | Deliver(event: ClickEvent)
    | Consume(env: Env)                                         // the transaction, up to ack or nack
    | Settle                                                    // the ack or nack reaches the broker
    | Disconnect                                                // crash or lost ack: the broker requeues

  const START: Sys := Sys(0, map[], [], multiset{}, None, Db({}, [], {}), [], {}, [])

  predicate WellFormed(payload: Payload) {
    payload.UrlClicked? ==> payload.click.eventId != "" && payload.click.shortCode != ""
  }

  ghost predicate Enabled(s: Sys, a: Action) {
    match a
    case Tick(_) => true
    case Insert(id, payload, _) =>
      && id !in s.outbox && WellFormed(payload)
      && forall r :: r in s.outbox ==> EventIdOf(s.outbox[r].payload) != EventIdOf(payload)
    case Fetch(picked) =>
      && (forall i, j :: 0 <= i < j < |picked| ==> picked[i] != picked[j])
      && ValidPick(s.outbox, Elements(picked), BATCH_SIZE, s.now)
    case Enqueue(c) => c < |s.claims| && s.claims[c].status.Fetched?
    case Take(c) => c < |s.claims| && s.claims[c].status.Queued?
    case Drop(c) => c < |s.claims|
      && (s.claims[c].status.Fetched? || s.claims[c].status.Queued? || s.claims[c].status.Working?)
    case Publish(c, _, _) => c < |s.claims| && s.claims[c].status.Working?
    case MarkRow(c, _) => c < |s.claims| && s.claims[c].status.Published?
    case Deliver(event) => s.flight.None? && event in s.queue
    case Consume(env) => env.Valid() && s.flight.Some? && s.flight.value.phase.Unprocessed?
    case Settle => s.flight.Some? && s.flight.value.phase.Decided?
    case Disconnect => s.flight.Some?
  }

  function Elements(picked: seq<string>): set<string> {
    set r | r in picked
  }

  /** The claims of one poll. */
  function NewClaims(outbox: Table, picked: seq<string>, now: int): (cs: seq<Claim>)
    requires Elements(picked) <= outbox.Keys
    ensures |cs| == |picked|
  {
    seq(|picked|, i requires 0 <= i < |picked| =>
      assert picked[i] in Elements(picked);
      Claim(Job(picked[i], outbox[picked[i]].payload), now, Fetched, false))
  }

  function Moved(s: Sys, c: nat, status: Status): Sys
    requires c < |s.claims|
  {
    s.(claims := s.claims[c := s.claims[c].(status := status)])
  }

  function AfterPublish(s: Sys, c: nat, ok: bool, delivered: bool): Sys
    requires c < |s.claims|
  {
    var claim, sent := s.claims[c], ok || delivered;
    s.(claims := s.claims[c := claim.(status := if ok then Status.Published else Failed, sent := sent)],
       queue := s.queue + if sent && claim.job.payload.UrlClicked? then multiset{claim.job.payload.click}
                          else multiset{})
  }

  function Log(milestones: seq<Milestone>, durable: bool): seq<Logged> {
    if milestones == [] then [] else [Logged(milestones[0], durable)] + Log(milestones[1..], durable)
  }

  function Consumed(s: Sys, event: ClickEvent, env: Env): Sys
    requires env.Valid()
  {
    var o := Process(s.db, Click(event), env);
    s.(db := o.db,
       flight := Some(Flight(event, Decided(o.settlement))),
       ledger := if o.end.Durable() then s.ledger + [event] else s.ledger,
       recovered := if o.end.Panicked() then s.recovered + {event.eventId} else s.recovered,
       attempts := s.attempts + Log(o.attempts, o.end.Durable()))
  }

  ghost function Apply(s: Sys, a: Action): Sys
    requires Enabled(s, a)
  {
    match a
    case Tick(elapsed) => s.(now := s.now + elapsed)
    case Insert(id, payload, createdAt) => s.(outbox := s.outbox[id := Row(payload, createdAt, None, None)])
    case Fetch(picked) =>
      s.(outbox := Lease(s.outbox, Elements(picked), s.now),
         claims := s.claims + NewClaims(s.outbox, picked, s.now))
    case Enqueue(c) => Moved(s, c, Queued)
    case Take(c) => Moved(s, c, Working)
    case Drop(c) => Moved(s, c, Dropped)
    case Publish(c, ok, delivered) => AfterPublish(s, c, ok, delivered)
    case MarkRow(c, applied) =>
      var moved := Moved(s, c, Done);
      if applied then moved.(outbox := Marked(s.outbox, s.claims[c].job.id, s.now)) else moved
    case Deliver(event) => s.(queue := s.queue - multiset{event}, flight := Some(Flight(event, Unprocessed)))
    case Consume(env) => Consumed(s, s.flight.value.event, env)
    case Settle =>
      if s.flight.value.phase.settlement.Ack? then s.(flight := None)
      else s.(queue := s.queue + multiset{s.flight.value.event}, flight := None)
    case Disconnect => s.(queue := s.queue + multiset{s.flight.value.event}, flight := None)
  }

  // ----- runs

  ghost predicate IsRun(actions: seq<Action>)
    decreases |actions|, 0
  {
    actions == []
    || (IsRun(actions[..|actions| - 1]) && Enabled(Reach(actions[..|actions| - 1]), actions[|actions| - 1]))
  }

  /** The state after a run. */
  ghost function Reach(actions: seq<Action>): Sys
    requires IsRun(actions)
    decreases |actions|, 1
  {
    if actions == [] then START
    else Apply(Reach(actions[..|actions| - 1]), actions[|actions| - 1])
  }
}
