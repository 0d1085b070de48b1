/** The broker half of the pipeline: no message is lost, and there are never more copies than
    claims that sent one. */
module PipelineBroker {
  import opened Events
  import opened Settlements
  import opened Analytics
  import opened Pipeline

  predicate Carries(claim: Claim, e: ClickEvent) {
    claim.sent && claim.job.payload == UrlClicked(e)
  }

  predicate Held(s: Sys, e: ClickEvent) {
    s.flight.Some? && s.flight.value.event == e
  }

  /** The event has been dealt with: counted, or given up by the panic handler. */
  predicate Handled(s: Sys, e: ClickEvent) {
    e.eventId in s.db.processed || e.eventId in s.recovered
  }

  /** A sent message is queued, held by the consumer, or handled. */
  ghost predicate NoneLost(s: Sys) {
    forall i :: 0 <= i < |s.claims| ==>
      s.claims[i].sent && s.claims[i].job.payload.UrlClicked? ==>
        var e := s.claims[i].job.payload.click;
        e in s.queue || Held(s, e) || Handled(s, e)
  }

  ghost predicate AcksJustified(s: Sys) {
    s.flight.Some? && s.flight.value.phase == Decided(Ack) ==> Handled(s, s.flight.value.event)
  }

  function Sent(claims: seq<Claim>, e: ClickEvent): nat {
    if claims == [] then 0
    else Sent(claims[..|claims| - 1], e) + if Carries(claims[|claims| - 1], e) then 1 else 0
  }

  /** Copies of the message that the broker has, the one at the consumer included. */
  function Copies(s: Sys, e: ClickEvent): nat {
    s.queue[e] + if Held(s, e) then 1 else 0
  }

  ghost predicate CopiesBounded(s: Sys) {
    forall e :: Copies(s, e) <= Sent(s.claims, e)
  }

  ghost predicate BrokerInv(s: Sys) {
    NoneLost(s) && AcksJustified(s) && CopiesBounded(s)
  }

  // ----- counting sent messages

  lemma {:induction false} SentUpdate(claims: seq<Claim>, c: nat, claim: Claim, e: ClickEvent)
    requires c < |claims|
    ensures Sent(claims[c := claim], e)
         == Sent(claims, e) - (if Carries(claims[c], e) then 1 else 0) + (if Carries(claim, e) then 1 else 0)
    decreases |claims|
  {
    var m := |claims| - 1;
    if c == m {
      assert claims[c := claim][..m] == claims[..m];
    } else {
      assert claims[c := claim][..m] == claims[..m][c := claim];
      SentUpdate(claims[..m], c, claim, e);
    }
  }

  lemma {:induction false} SentAppend(claims: seq<Claim>, more: seq<Claim>, e: ClickEvent)
    requires forall i :: 0 <= i < |more| ==> !more[i].sent
    ensures Sent(claims + more, e) == Sent(claims, e)
    decreases |more|
  {
    if more == [] {
      assert claims + more == claims;
    } else {
      var m := |more| - 1;
      assert (claims + more)[..|claims + more| - 1] == claims + more[..m];
      SentAppend(claims, more[..m], e);
    }
  }

  // ----- preservation

  lemma ProgressKeepsBroker(s: Sys, c: nat, status: Status)
    requires BrokerInv(s) && c < |s.claims|
    ensures BrokerInv(Moved(s, c, status))
  {
    var t := Moved(s, c, status);
    forall e ensures Copies(t, e) <= Sent(t.claims, e) {
      SentUpdate(s.claims, c, t.claims[c], e);
      assert Copies(s, e) <= Sent(s.claims, e);
    }
    forall i | 0 <= i < |t.claims| && t.claims[i].sent && t.claims[i].job.payload.UrlClicked?
      ensures var e := t.claims[i].job.payload.click; e in t.queue || Held(t, e) || Handled(t, e)
    {
      assert s.claims[i].sent;
    }
  }

  lemma PublishKeepsBroker(s: Sys, c: nat, ok: bool, delivered: bool)
    requires BrokerInv(s) && c < |s.claims| && !s.claims[c].sent
    ensures BrokerInv(AfterPublish(s, c, ok, delivered))
  {
    var t := AfterPublish(s, c, ok, delivered);
    forall e ensures Copies(t, e) <= Sent(t.claims, e) {
      SentUpdate(s.claims, c, t.claims[c], e);
      assert Copies(s, e) <= Sent(s.claims, e);
    }
    forall i | 0 <= i < |t.claims| && t.claims[i].sent && t.claims[i].job.payload.UrlClicked?
      ensures var e := t.claims[i].job.payload.click; e in t.queue || Held(t, e) || Handled(t, e)
    {
      assert i != c ==> s.claims[i].sent;
    }
  }

  lemma FetchKeepsBroker(s: Sys, picked: seq<string>)
    requires BrokerInv(s) && Enabled(s, Fetch(picked))
    ensures BrokerInv(Apply(s, Fetch(picked)))
  {
    var t := Apply(s, Fetch(picked));
    forall e ensures Copies(t, e) <= Sent(t.claims, e) {
      SentAppend(s.claims, NewClaims(s.outbox, picked, s.now), e);
      assert Copies(s, e) <= Sent(s.claims, e);
    }
  }

  /** Steps between broker and consumer move one message and forget it only when acked. */
  lemma TransferKeepsBroker(s: Sys, t: Sys)
    requires BrokerInv(s) && t.claims == s.claims
    requires s.db.processed <= t.db.processed && s.recovered <= t.recovered
    requires forall e :: Copies(t, e) <= Copies(s, e)
    requires forall e :: Copies(s, e) > 0 ==> Copies(t, e) > 0 || Handled(s, e)
    requires AcksJustified(t)
    ensures BrokerInv(t)
  {
    forall e ensures Copies(t, e) <= Sent(t.claims, e) {
      assert Copies(s, e) <= Sent(s.claims, e);
    }
    forall i | 0 <= i < |t.claims| && t.claims[i].sent && t.claims[i].job.payload.UrlClicked?
      ensures var e := t.claims[i].job.payload.click; e in t.queue || Held(t, e) || Handled(t, e)
    {
      var e := s.claims[i].job.payload.click;
      assert s.claims[i].sent;
      assert Copies(s, e) > 0 || Handled(s, e);
    }
  }

  lemma QuietKeepsBroker(s: Sys, t: Sys)
    requires BrokerInv(s) && t.claims == s.claims && t.queue == s.queue && t.flight == s.flight
    requires t.db == s.db && t.recovered == s.recovered
    ensures BrokerInv(t)
  {
    forall e ensures Copies(t, e) == Copies(s, e) {
      assert Held(t, e) == Held(s, e);
    }
    TransferKeepsBroker(s, t);
  }

  lemma DeliverKeepsBroker(s: Sys, event: ClickEvent)
    requires BrokerInv(s) && Enabled(s, Deliver(event))
    ensures BrokerInv(Apply(s, Deliver(event)))
  {
    var t := Apply(s, Deliver(event));
    forall e ensures Copies(t, e) == Copies(s, e) {
      assert Held(t, e) <==> e == event;
    }
    TransferKeepsBroker(s, t);
  }

  /** A nack and a lost connection put the message back. */
  lemma RequeueKeepsBroker(s: Sys)
    requires BrokerInv(s) && s.flight.Some?
    ensures BrokerInv(Apply(s, Disconnect))
  {
    var t := Apply(s, Disconnect);
    forall e ensures Copies(t, e) == Copies(s, e) {
      assert Held(s, e) <==> e == s.flight.value.event;
    }
    TransferKeepsBroker(s, t);
  }

  lemma SettleKeepsBroker(s: Sys)
    requires BrokerInv(s) && Enabled(s, Settle)
    ensures BrokerInv(Apply(s, Settle))
  {
    var t := Apply(s, Settle);
    if s.flight.value.phase.settlement.Ack? {
      forall e ensures Copies(t, e) <= Copies(s, e) && (Copies(s, e) > 0 ==> Copies(t, e) > 0 || Handled(s, e)) {
        assert Held(s, e) <==> e == s.flight.value.event;
      }
      TransferKeepsBroker(s, t);
    } else {
      RequeueKeepsBroker(s);
    }
  }

  lemma ConsumeKeepsBroker(s: Sys, env: Env)
    requires BrokerInv(s) && Enabled(s, Consume(env))
    requires !IsPoison(Click(s.flight.value.event))
    ensures BrokerInv(Apply(s, Consume(env)))
  {
    var t := Apply(s, Consume(env));
    forall e ensures Copies(t, e) == Copies(s, e) {
      assert Held(t, e) == Held(s, e);
    }
    TransferKeepsBroker(s, t);
  }

  /** Whatever the consumer holds or the queue contains was sent by some claim. */
  lemma {:induction false} SentMeansClaim(claims: seq<Claim>, e: ClickEvent) returns (i: nat)
    requires Sent(claims, e) > 0
    ensures i < |claims| && Carries(claims[i], e)
    decreases |claims|
  {
    var m := |claims| - 1;
    if Carries(claims[m], e) {
      return m;
    }
    i := SentMeansClaim(claims[..m], e);
  }
}
