/** The transactional outbox: url rows and their events correspond in every interleaving. */
module UrlWrites {
  import opened Options
  import opened Events
  import opened Outbox
  import opened UrlService

  /** The url.created rows of a code, and its url.deleted rows. */
  function CreatedRows(outbox: Table, code: string): set<string> {
    set r | r in outbox && outbox[r].payload.UrlCreated? && outbox[r].payload.shortCode == code
  }

  function DeletedRows(outbox: Table, code: string): set<string> {
    set r | r in outbox && outbox[r].payload.UrlDeleted? && outbox[r].payload.shortCode == code
  }

  /** The event tells what the row says. */
  predicate Announces(payload: Payload, row: UrlRow) {
    && payload.UrlCreated? && payload.originalUrl == row.originalUrl
    && payload.userId == row.userId && payload.userEmail == row.userEmail && row.expiresAt == Some(payload.expiresAt)
  }

  ghost predicate CodeOk(db: Db, code: string) {
    && (code in db.urls ==> db.urls[code].shortCode == code)
    && |CreatedRows(db.outbox, code)| == (if code in db.urls then 1 else 0)
    && (forall r :: r in CreatedRows(db.outbox, code) ==>
          code in db.urls && Announces(db.outbox[r].payload, db.urls[code]))
    && |DeletedRows(db.outbox, code)| == (if code in db.urls && !db.urls[code].active then 1 else 0)
  }

  /** Each url row has exactly one url.created event, which agrees with it; it has one
      url.deleted event exactly when it is inactive; no other code has any. */
  ghost predicate Corresponds(db: Db) {
    forall code :: CodeOk(db, code)
  }

  // ----- one transaction

  lemma RowsAfterInsert(outbox: Table, id: string, row: Row, code: string)
    requires id !in outbox
    ensures CreatedRows(outbox[id := row], code)
         == CreatedRows(outbox, code) + if row.payload.UrlCreated? && row.payload.shortCode == code then {id} else {}
    ensures DeletedRows(outbox[id := row], code)
         == DeletedRows(outbox, code) + if row.payload.UrlDeleted? && row.payload.shortCode == code then {id} else {}
  {
  }

  lemma InsertedKeepsCode(db: Db, req: Request, expiresAt: int, t: Try, code: string)
    requires CodeOk(db, code) && t.code !in db.urls && t.outboxId !in db.outbox
    ensures CodeOk(Inserted(db, req, expiresAt, t), code)
  {
    var row := Row(CreatedEvent(req, expiresAt, t), t.now, None, None);
    var after := Inserted(db, req, expiresAt, t);
    RowsAfterInsert(db.outbox, t.outboxId, row, code);
    if code == t.code {
      assert CreatedRows(after.outbox, code) == {t.outboxId};
      assert Announces(row.payload, after.urls[code]);
    } else {
      assert CreatedRows(after.outbox, code) == CreatedRows(db.outbox, code);
    }
  }

  lemma InsertedKeeps(db: Db, req: Request, expiresAt: int, t: Try)
    requires Corresponds(db) && t.code !in db.urls && t.outboxId !in db.outbox
    ensures Corresponds(Inserted(db, req, expiresAt, t))
  {
    forall code ensures CodeOk(Inserted(db, req, expiresAt, t), code) {
      assert CodeOk(db, code);
      InsertedKeepsCode(db, req, expiresAt, t, code);
    }
  }

  lemma TryKeeps(db: Db, req: Request, expiresAt: int, t: Try)
    requires Corresponds(db)
    ensures Corresponds(TryShorten(db, req, expiresAt, t).0)
  {
    if t.code !in db.urls && t.outboxId !in db.outbox {
      InsertedKeeps(db, req, expiresAt, t);
    }
  }

  lemma DeactivatedKeepsCode(db: Db, c: string, userId: string, userEmail: string, t: DeleteTry, code: string)
    requires CodeOk(db, code) && c in db.urls && db.urls[c].active && t.outboxId !in db.outbox
    ensures CodeOk(Deactivated(db, c, userId, userEmail, t), code)
  {
    var after := Deactivated(db, c, userId, userEmail, t);
    RowsAfterInsert(db.outbox, t.outboxId, Row(UrlDeleted(t.eventId, c, userId, userEmail), t.now, None, None), code);
    assert CreatedRows(after.outbox, code) == CreatedRows(db.outbox, code);
    if code == c {
      assert DeletedRows(db.outbox, code) == {};
      assert DeletedRows(after.outbox, code) == {t.outboxId};
    } else {
      assert DeletedRows(after.outbox, code) == DeletedRows(db.outbox, code);
    }
  }

  lemma DeactivateKeeps(db: Db, c: string, userId: string, userEmail: string, t: DeleteTry)
    requires Corresponds(db)
    ensures Corresponds(Deactivate(db, c, userId, userEmail, t).0)
  {
    var after := Deactivate(db, c, userId, userEmail, t).0;
    if after != db {
      forall code ensures CodeOk(after, code) {
        assert CodeOk(db, code);
        DeactivatedKeepsCode(db, c, userId, userEmail, t, code);
      }
    }
  }

  // ----- every interleaving

  /** A step is one transaction: one attempt of some shorten call, one deactivation, a click
      event, or whatever the outbox coordinators do to leases and marks. */
  datatype Step =
    | Shorten(req: Request, expiresAt: int, t: Try)
    | Delete(code: string, userId: string, userEmail: string, d: DeleteTry)
    | Click(outboxId: string, click: ClickEvent, now: int)
    | Coordinate(outbox: Table)

  ghost predicate Enabled(db: Db, step: Step) {
    match step
    case Coordinate(outbox) =>
      outbox.Keys == db.outbox.Keys && forall r :: r in outbox ==> outbox[r].payload == db.outbox[r].payload
    case _ => true
  }

  function Next(db: Db, step: Step): Db {
    match step
    case Shorten(req, expiresAt, t) => TryShorten(db, req, expiresAt, t).0
    case Delete(code, userId, userEmail, d) => Deactivate(db, code, userId, userEmail, d).0
    case Click(id, click, now) =>
      if id in db.outbox then db else db.(outbox := db.outbox[id := Row(UrlClicked(click), now, None, None)])
    case Coordinate(outbox) => db.(outbox := outbox)
  }

  ghost predicate IsRun(steps: seq<Step>)
    decreases |steps|
  {
    steps == [] || (IsRun(steps[..|steps| - 1]) && Enabled(Reach(steps[..|steps| - 1]), steps[|steps| - 1]))
  }

  function Reach(steps: seq<Step>): Db
    decreases |steps|
  {
    if steps == [] then Db(map[], map[]) else Next(Reach(steps[..|steps| - 1]), steps[|steps| - 1])
  }

  lemma StepKeeps(db: Db, step: Step)
    requires Corresponds(db) && Enabled(db, step)
    ensures Corresponds(Next(db, step))
  {
    match step
    case Shorten(req, expiresAt, t) => TryKeeps(db, req, expiresAt, t);
    case Delete(code, userId, userEmail, d) => DeactivateKeeps(db, code, userId, userEmail, d);
    case _ =>
      var after := Next(db, step);
      forall code ensures CodeOk(after, code) {
        assert CodeOk(db, code);
        assert CreatedRows(after.outbox, code) == CreatedRows(db.outbox, code);
        assert DeletedRows(after.outbox, code) == DeletedRows(db.outbox, code);
      }
  }

  /** In every interleaving of shorten attempts, deactivations, clicks and coordinators, with
      any failures and commits in doubt, rows and events correspond. */
  lemma {:induction false} AlwaysCorresponds(steps: seq<Step>)
    requires IsRun(steps)
    ensures Corresponds(Reach(steps))
    decreases |steps|
  {
    if steps != [] {
      AlwaysCorresponds(steps[..|steps| - 1]);
      StepKeeps(Reach(steps[..|steps| - 1]), steps[|steps| - 1]);
    }
  }

  ghost predicate IdsUnique(urls: map<string, UrlRow>) {
    forall c, d :: c in urls && d in urls && urls[c].id == urls[d].id ==> c == d
  }

  /** Row ids identify rows as well as short codes do, so listing by id is listing rows. */
  lemma {:induction false} AlwaysIdsUnique(steps: seq<Step>)
    requires IsRun(steps)
    ensures IdsUnique(Reach(steps).urls)
    decreases |steps|
  {
    if steps != [] {
      AlwaysIdsUnique(steps[..|steps| - 1]);
      IdsStayUnique(Reach(steps[..|steps| - 1]), steps[|steps| - 1]);
    }
  }

  lemma IdsStayUnique(db: Db, step: Step)
    requires IdsUnique(db.urls)
    ensures IdsUnique(Next(db, step).urls)
  {
    if step.Shorten? {
      var row := NewRow(step.req, step.expiresAt, step.t);
      if !HasId(db.urls, row.id) {
        OneMoreId(db.urls, step.t.code, row);
      }
    }
  }

  lemma OneMoreId(urls: map<string, UrlRow>, code: string, row: UrlRow)
    requires IdsUnique(urls) && !HasId(urls, row.id)
    ensures IdsUnique(urls[code := row])
  {
  }

  // ----- one shorten call

  predicate Collides(db: Db, t: Try) {
    t.beginOk && (t.code in db.urls || HasId(db.urls, t.urlId) || (t.insertOk && t.outboxId in db.outbox))
  }

  /** A committed attempt leaves an event that polls can claim at once, and at any later time
      until one does. */
  lemma NewEventIsClaimable(db: Db, req: Request, expiresAt: int, t: Try, now: int)
    requires TryShorten(db, req, expiresAt, t).1.Committed?
    ensures var after := TryShorten(db, req, expiresAt, t).0;
            Stored(db, req, expiresAt, t, after) && t.outboxId in Ids(after.outbox, now)
  {
  }

  // ----- one deactivation

  /** Only the owner of an active row deactivates it; anyone else, and anyone for a row that is
      missing or inactive, is told that it is forbidden, and changes nothing. */
  lemma DeactivateOutcome(db: Db, code: string, userId: string, userEmail: string, t: DeleteTry)
    ensures var (after, answer) := Deactivate(db, code, userId, userEmail, t);
            var allowed := code in db.urls && db.urls[code].userId == userId && db.urls[code].active;
            && (answer.Forbidden? <==> t.beginOk && t.updateOk && !allowed)
            && (answer.NoContent? <==>
                  t.beginOk && t.updateOk && allowed && t.outboxId !in db.outbox && t.eventOk && t.commitOk)
            && (answer.NoContent? ==> Retired(db, code, userId, userEmail, t, after))
            && (after != db ==> allowed && Retired(db, code, userId, userEmail, t, after) && (t.commitOk || t.durable))
            && (answer.NoContent? ==> forall now :: t.outboxId in Ids(after.outbox, now))
  {
  }

  /** Rows of the outbox are leased or published by its coordinators only. */
  lemma OnlyCoordinatorsTouch(db: Db, step: Step, r: string)
    requires Enabled(db, step) && !step.Coordinate? && r in Next(db, step).outbox
    ensures r in db.outbox ==> Next(db, step).outbox[r] == db.outbox[r]
    ensures r !in db.outbox ==> Next(db, step).outbox[r].publishedAt.None? && Next(db, step).outbox[r].lockedUntil.None?
  {
  }

  // ----- one shorten call, attempt by attempt

  /** Whatever others do between its attempts: attempts before the one that settles a call
      collide and change nothing; that one stores exactly one row and its event under a code
      that was free, or changes nothing unless its commit was in doubt; and the call gives up
      with a conflict exactly when every attempt collides with what it finds. */
  lemma {:induction false} ShortenOutcome(dbs: seq<Db>, req: Request, expiresAt: int, tries: seq<Try>, k: nat)
    requires k <= |tries| == |dbs|
    ensures var (last, answer) := ShortenAmid(dbs, req, expiresAt, tries, k);
            && k <= last <= |tries| && !answer.InvalidUrl?
            && (answer.AlreadyExists? <==> last == |tries|)
            && (answer.AlreadyExists? <==> forall i :: k <= i < |tries| ==> Collides(dbs[i], tries[i]))
            && (forall i :: k <= i < last ==> TryShorten(dbs[i], req, expiresAt, tries[i]) == (dbs[i], Collision))
            && (last < |tries| ==>
                  var t, after := tries[last], TryShorten(dbs[last], req, expiresAt, tries[last]).0;
                  && (answer.Shortened? ==>
                        Stored(dbs[last], req, expiresAt, t, after) && answer == Shortened(t.code, expiresAt))
                  && (answer.DatabaseError? <==> !(t.beginOk && t.insertOk && t.eventOk && t.commitOk))
                  && (answer.DatabaseError? && after != dbs[last] ==>
                        Stored(dbs[last], req, expiresAt, t, after) && !t.commitOk && t.durable))
    decreases |tries| - k
  {
    if k < |tries| {
      if TryShorten(dbs[k], req, expiresAt, tries[k]).1.Collision? {
        ShortenOutcome(dbs, req, expiresAt, tries, k + 1);
        assert Collides(dbs[k], tries[k]);
      } else {
        assert !Collides(dbs[k], tries[k]);
      }
    }
  }

  /** With nothing in between, all attempts find the same database, and the call is the one
      that the object's `ShortenURL` runs. */
  lemma {:induction false} ShortenAlone(db: Db, req: Request, expiresAt: int, tries: seq<Try>, k: nat)
    requires k <= |tries|
    ensures var (last, answer) := ShortenAmid(seq(|tries|, _ => db), req, expiresAt, tries, k);
            var after := if last < |tries| then TryShorten(db, req, expiresAt, tries[last]).0 else db;
            ShortenFrom(db, req, expiresAt, tries, k) == (after, answer)
    decreases |tries| - k
  {
    if k < |tries| {
      if TryShorten(db, req, expiresAt, tries[k]).1.Collision? {
        ShortenAlone(db, req, expiresAt, tries, k + 1);
      }
    } else {
      assert ShortenAmid(seq(|tries|, _ => db), req, expiresAt, tries, k).0 == |tries|;
    }
  }
}
