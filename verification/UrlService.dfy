/** The url-service operations (services/url-service/service.go, store.go, cache.go): shorten and
    deactivate write the row and its event in one transaction, redirect reads through the cache.
    How each store or cache call ends is chosen by the environment.  Times are in milliseconds;
    row ids are UUIDs, taken as the 128-bit numbers they denote. */
module UrlService {
  import opened Options
  import opened Events
  import opened Outbox

  const HOUR: int := 3_600_000

  datatype UrlRow = UrlRow(id: int, shortCode: string, originalUrl: string, userId: string, userEmail: string,
                           createdAt: int, expiresAt: Option<int>, active: bool)

  /** The urls table, by its unique short code (its other key is the row id), and the outbox
      table. */
  datatype Db = Db(urls: map<string, UrlRow>, outbox: Table)

  datatype Request = Request(url: string, userId: string, userEmail: string)

  /** One attempt: the generated code and identifiers, the time, which calls fail, and whether a
      commit that reports an error took effect all the same. */
  datatype Try = Try(code: string, urlId: int, eventId: string, outboxId: string, now: int,
                     beginOk: bool, insertOk: bool, eventOk: bool, commitOk: bool, durable: bool)

  datatype TxResult = Committed | Collision | Failed

  datatype Answer =
    | Shortened(shortCode: string, expiresAt: int)
    | InvalidUrl
    | AlreadyExists
    | DatabaseError

  function NormalizedHours(expiresInHours: int): int {
    if expiresInHours <= 0 || expiresInHours > 24 * 365 then 24 else expiresInHours
  }

  function NewRow(req: Request, expiresAt: int, t: Try): UrlRow {
    UrlRow(t.urlId, t.code, req.url, req.userId, req.userEmail, t.now, Some(expiresAt), true)
  }

  function CreatedEvent(req: Request, expiresAt: int, t: Try): Payload {
    UrlCreated(t.eventId, t.code, req.url, req.userId, req.userEmail, expiresAt)
  }

  function Inserted(db: Db, req: Request, expiresAt: int, t: Try): Db {
    Db(db.urls[t.code := NewRow(req, expiresAt, t)],
       db.outbox[t.outboxId := Row(CreatedEvent(req, expiresAt, t), t.now, None, None)])
  }

  predicate HasId(urls: map<string, UrlRow>, id: int) {
    exists code :: code in urls && urls[code].id == id
  }

  /** The transaction of one attempt; a duplicate key of either table is a collision. */
  function TryShorten(db: Db, req: Request, expiresAt: int, t: Try): (Db, TxResult) {
    if !t.beginOk then (db, Failed)
    else if t.code in db.urls || HasId(db.urls, t.urlId) then (db, Collision)
    else if !t.insertOk then (db, Failed)
    else if t.outboxId in db.outbox then (db, Collision)
    else if !t.eventOk then (db, Failed)
    else if t.commitOk then (Inserted(db, req, expiresAt, t), Committed)
    else (if t.durable then Inserted(db, req, expiresAt, t) else db, Failed)
  }

  /** Attempts `k` and later, attempt `i` finding the database as `dbs[i]`: others may change it
      between attempts.  Also returns the attempt that settled it, or |tries|. */
  function ShortenAmid(dbs: seq<Db>, req: Request, expiresAt: int, tries: seq<Try>, k: nat): (nat, Answer)
    requires k <= |tries| == |dbs|
    decreases |tries| - k
  {
    if k == |tries| then (k, AlreadyExists)
    else
      match TryShorten(dbs[k], req, expiresAt, tries[k]).1
      case Committed => (k, Shortened(tries[k].code, expiresAt))
      case Collision => ShortenAmid(dbs, req, expiresAt, tries, k + 1)
      case Failed => (k, DatabaseError)
  }

  /** Attempts `k` and later, with nothing in between. */
  function ShortenFrom(db: Db, req: Request, expiresAt: int, tries: seq<Try>, k: nat): (Db, Answer)
    requires k <= |tries|
    decreases |tries| - k
  {
    if k == |tries| then (db, AlreadyExists)
    else
      var (after, result) := TryShorten(db, req, expiresAt, tries[k]);
      match result
      case Committed => (after, Shortened(tries[k].code, expiresAt))
      case Collision => ShortenFrom(after, req, expiresAt, tries, k + 1)
      case Failed => (after, DatabaseError)
  }

  // ----- deactivation

  datatype DeleteTry = DeleteTry(eventId: string, outboxId: string, now: int,
                                 beginOk: bool, updateOk: bool, eventOk: bool, commitOk: bool, durable: bool)

  datatype DeleteAnswer = NoContent | Forbidden | DeleteError

  function Deactivated(db: Db, code: string, userId: string, userEmail: string, t: DeleteTry): Db
    requires code in db.urls
  {
    Db(db.urls[code := db.urls[code].(active := false)],
       db.outbox[t.outboxId := Row(UrlDeleted(t.eventId, code, userId, userEmail), t.now, None, None)])
  }

  function Deactivate(db: Db, code: string, userId: string, userEmail: string, t: DeleteTry): (Db, DeleteAnswer) {
    if !t.beginOk || !t.updateOk then (db, DeleteError)
    else if code !in db.urls || db.urls[code].userId != userId || !db.urls[code].active then (db, Forbidden)
    else if t.outboxId in db.outbox || !t.eventOk then (db, DeleteError)
    else if t.commitOk then (Deactivated(db, code, userId, userEmail, t), NoContent)
    else (if t.durable then Deactivated(db, code, userId, userEmail, t) else db, DeleteError)
  }

  // ----- what the two transactions leave, column by column

  /** One row and one event more, and nothing else, each with what was asked for in every
      column: the row active, the event neither published nor leased. */
  ghost predicate Stored(db: Db, req: Request, expiresAt: int, t: Try, after: Db) {
    && t.code !in db.urls && !HasId(db.urls, t.urlId) && t.outboxId !in db.outbox
    && AddsOnly(db, after, {t.code}, {t.outboxId})
    && var row, event := after.urls[t.code], after.outbox[t.outboxId];
       && row.id == t.urlId && row.shortCode == t.code && row.originalUrl == req.url
       && row.userId == req.userId && row.userEmail == req.userEmail
       && row.createdAt == t.now && row.expiresAt == Some(expiresAt) && row.active
       && IsNew(event, t.now) && event.payload.UrlCreated?
       && event.payload.eventId == t.eventId && event.payload.shortCode == t.code
       && event.payload.originalUrl == req.url
       && event.payload.userId == req.userId && event.payload.userEmail == req.userEmail
       && event.payload.expiresAt == expiresAt
  }

  ghost predicate AddsOnly(db: Db, after: Db, codes: set<string>, ids: set<string>) {
    && after.urls.Keys == db.urls.Keys + codes && after.outbox.Keys == db.outbox.Keys + ids
    && (forall code :: code in db.urls && code !in codes ==> after.urls[code] == db.urls[code])
    && (forall r :: r in db.outbox && r !in ids ==> after.outbox[r] == db.outbox[r])
  }

  predicate IsNew(event: Row, now: int) {
    event.createdAt == now && event.publishedAt.None? && event.lockedUntil.None?
  }

  /** The row is cleared of its active bit only, and one event more, neither published nor
      leased, says so. */
  ghost predicate Retired(db: Db, code: string, userId: string, userEmail: string, t: DeleteTry, after: Db) {
    && code in db.urls && db.urls[code].active && t.outboxId !in db.outbox
    && AddsOnly(db, after, {code}, {t.outboxId})
    && var row, was, event := after.urls[code], db.urls[code], after.outbox[t.outboxId];
       && row.id == was.id && row.shortCode == was.shortCode && row.originalUrl == was.originalUrl
       && row.userId == was.userId && row.userEmail == was.userEmail
       && row.createdAt == was.createdAt && row.expiresAt == was.expiresAt && !row.active
       && IsNew(event, t.now) && event.payload.UrlDeleted?
       && event.payload.eventId == t.eventId && event.payload.shortCode == code
       && event.payload.userId == userId && event.payload.userEmail == userEmail
  }

  // ----- redirection

  datatype CachedUrl = CachedUrl(originalUrl: string, userId: string, userEmail: string, expiresAt: Option<int>,
                                 active: bool)

  datatype Target = Target(originalUrl: string, userId: string, userEmail: string)

  /** What a redirect answers.  `Crash` is the nil dereference of a missing row. */
  datatype Redirect = Found(target: Target) | GoneDeactivated | GoneExpired | NotFound | RedirectError | Crash

  function CachedFrom(row: UrlRow): CachedUrl {
    CachedUrl(row.originalUrl, row.userId, row.userEmail, row.expiresAt, row.active)
  }

  predicate Expired(expiresAt: Option<int>, now: int) {
    expiresAt.Some? && now > expiresAt.value
  }

  function Check(c: CachedUrl, now: int): Redirect {
    if !c.active then GoneDeactivated
    else if Expired(c.expiresAt, now) then GoneExpired
    else Found(Target(c.originalUrl, c.userId, c.userEmail))
  }

  /** The answer, given what the cache and then the database came up with. */
  function RedirectAnswer(cached: Option<CachedUrl>, dbOk: bool, row: Option<UrlRow>, now: int): Redirect {
    if cached.Some? then Check(cached.value, now)
    else if !dbOk then RedirectError
    else if row.None? then Crash
    else Check(CachedFrom(row.value), now)
  }

  function RowOf(urls: map<string, UrlRow>, code: string): Option<UrlRow> {
    if code in urls then Some(urls[code]) else None
  }

  /** The lifetime asked of Redis; 0 means for ever. */
  function TtlOf(expiresAt: Option<int>, now: int): int {
    if expiresAt.None? then HOUR else if expiresAt.value < now then 0 else expiresAt.value - now
  }

  // ----- the objects

  datatype Entry = Entry(cached: CachedUrl, deadline: Option<int>)

  class RedisCache {
    var entries: map<string, Entry>

    constructor ()
      ensures entries == map[]
    {
      entries := map[];
    }

    predicate Holds(code: string, now: int)
      reads this
    {
      code in entries && (entries[code].deadline.None? || now <= entries[code].deadline.value)
    }

    /** An error of Redis or of decoding reads as a miss. */
    method Get(code: string, now: int, readable: bool) returns (cached: Option<CachedUrl>)
      ensures cached == if readable && Holds(code, now) then Some(entries[code].cached) else None
      ensures cached.Some? <==>
                && readable && code in entries
                && (entries[code].deadline.Some? ==> now <= entries[code].deadline.value)
    {
      if !readable || !Holds(code, now) {
        return None;
      }
      return Some(entries[code].cached);
    }

    /** A command may report an error although Redis carried it out: `applied`. */
    method Set(code: string, cached: CachedUrl, ttl: int, now: int, ok: bool, applied: bool) returns (err: bool)
      requires ttl >= 0
      modifies this
      ensures err <==> !ok
      ensures entries == if ok || applied
                         then old(entries)[code := Entry(cached, if ttl == 0 then None else Some(now + ttl))]
                         else old(entries)
    {
      if ok || applied {
        entries := entries[code := Entry(cached, if ttl == 0 then None else Some(now + ttl))];
      }
      return !ok;
    }

    method Delete(code: string, ok: bool, applied: bool) returns (err: bool)
      modifies this
      ensures err <==> !ok
      ensures entries == if ok || applied then old(entries) - {code} else old(entries)
    {
      if ok || applied {
        entries := entries - {code};
      }
      return !ok;
    }
  }

  /** A cache write handed to a goroutine of its own. */
  datatype PendingSet = PendingSet(code: string, cached: CachedUrl, ttl: int)

  class URLService {
    var db: Db
    const cache: RedisCache
    var pending: seq<PendingSet>

    constructor (cache: RedisCache)
      ensures this.cache == cache && db == Db(map[], map[]) && pending == []
    {
      this.cache := cache;
      db, pending := Db(map[], map[]), [];
    }

    /** BeginFunc around the two inserts: rolled back on any error, else committed. */
    method InsertInTransaction(req: Request, expiresAt: int, t: Try) returns (result: TxResult)
      modifies `db
      ensures (db, result) == TryShorten(old(db), req, expiresAt, t)
      ensures result.Committed? ==> Stored(old(db), req, expiresAt, t, db)
      ensures result.Collision? ==> db == old(db)
      ensures result.Failed? ==> db == old(db) || (Stored(old(db), req, expiresAt, t, db) && !t.commitOk && t.durable)
    {
      if !t.beginOk {
        return Failed;
      }
      var urls, outbox := db.urls, db.outbox;
      if t.code in urls || HasId(urls, t.urlId) {
        return Collision;
      }
      if !t.insertOk {
        return Failed;
      }
      urls := urls[t.code := NewRow(req, expiresAt, t)];
      if t.outboxId in outbox {
        return Collision;
      }
      if !t.eventOk {
        return Failed;
      }
      outbox := outbox[t.outboxId := Row(CreatedEvent(req, expiresAt, t), t.now, None, None)];
      if t.commitOk || t.durable {
        db := Db(urls, outbox);
      }
      return if t.commitOk then Committed else Failed;
    }

    method ShortenURL(req: Request, valid: bool, expiresInHours: int, now: int, tries: seq<Try>)
      returns (answer: Answer)
      requires |tries| == 3
      modifies `db, `pending
      ensures var expiresAt := now + NormalizedHours(expiresInHours) * HOUR;
              (db, answer) == if !valid then (old(db), InvalidUrl) else ShortenFrom(old(db), req, expiresAt, tries, 0)
      ensures answer.Shortened? ==>
                exists i :: 0 <= i < 3 && answer.shortCode == tries[i].code
                            && Stored(old(db), req, answer.expiresAt, tries[i], db)
      ensures answer.InvalidUrl? || answer.AlreadyExists? ==> db == old(db)
      ensures answer.Shortened? ==>
                answer.expiresAt - now == 3_600_000 * if 1 <= expiresInHours <= 8760 then expiresInHours else 24
      ensures pending == if answer.Shortened?
                         then old(pending) + [PendingSet(answer.shortCode,
                                CachedUrl(req.url, req.userId, req.userEmail, Some(answer.expiresAt), true),
                                NormalizedHours(expiresInHours) * HOUR)]
                         else old(pending)
    {
      if !valid {
        return InvalidUrl;
      }
      var hours := expiresInHours;
      if hours <= 0 || hours > 24 * 365 {
        hours := 24;
      }
      var expiresAt := now + hours * HOUR;
      var shortCode, success := "", false;
      var attempt := 0;
      while attempt < |tries|
        invariant 0 <= attempt <= |tries| && !success && pending == old(pending) && db == old(db)
        invariant ShortenFrom(old(db), req, expiresAt, tries, 0) == ShortenFrom(db, req, expiresAt, tries, attempt)
      {
        shortCode := tries[attempt].code;
        var result := InsertInTransaction(req, expiresAt, tries[attempt]);
        if result == Committed {
          success := true;
          break;
        }
        if result == Failed {
          return DatabaseError;
        }
        attempt := attempt + 1;
      }
      if !success {
        return AlreadyExists;
      }
      var cached := CachedUrl(req.url, req.userId, req.userEmail, Some(expiresAt), true);
      pending := pending + [PendingSet(shortCode, cached, hours * HOUR)];
      return Shortened(shortCode, expiresAt);
    }

    /** `deleteOk`, `deleted`: whether the cache delete reports success, and whether it took
        effect although it did not. */
    method DeactivateURL(code: string, userId: string, userEmail: string, t: DeleteTry, deleteOk: bool, deleted: bool)
      returns (answer: DeleteAnswer)
      modifies `db, cache
      ensures (db, answer) == Deactivate(old(db), code, userId, userEmail, t)
      ensures answer.NoContent? ==> Retired(old(db), code, userId, userEmail, t, db)
      ensures answer.NoContent? ==> old(db).urls[code].userId == userId
      ensures answer.Forbidden? ==> db == old(db)
      ensures code !in old(db).urls || old(db).urls[code].userId != userId || !old(db).urls[code].active ==>
                db == old(db) && !answer.NoContent?
      ensures cache.entries == if answer.NoContent? && (deleteOk || deleted) then old(cache.entries) - {code}
                               else old(cache.entries)
    {
      if !t.beginOk || !t.updateOk {
        return DeleteError;
      }
      var urls, outbox := db.urls, db.outbox;
      if code !in urls || urls[code].userId != userId || !urls[code].active {
        return Forbidden;
      }
      urls := urls[code := urls[code].(active := false)];
      if t.outboxId in outbox || !t.eventOk {
        return DeleteError;
      }
      outbox := outbox[t.outboxId := Row(UrlDeleted(t.eventId, code, userId, userEmail), t.now, None, None)];
      if t.commitOk || t.durable {
        db := Db(urls, outbox);
      }
      if !t.commitOk {
        return DeleteError;
      }
      // an error is ignored
      var _ := cache.Delete(code, deleteOk, deleted);
      return NoContent;
    }

    /** One of the goroutines runs: its write is done or refused, and forgotten either way. */
    method RunCacheWrite(i: nat, now: int, ok: bool, applied: bool)
      requires i < |pending| && pending[i].ttl >= 0
      modifies `pending, cache
      ensures pending == old(pending)[..i] + old(pending)[i + 1..]
      ensures var write := old(pending)[i];
              cache.entries ==
              if ok || applied
              then old(cache.entries)[write.code :=
                    Entry(write.cached, if write.ttl == 0 then None else Some(now + write.ttl))]
              else old(cache.entries)
    {
      var write := pending[i];
      pending := pending[..i] + pending[i + 1..];
      var _ := cache.Set(write.code, write.cached, write.ttl, now, ok, applied);
    }

    /** After a redirect: the click event, with the target's owner; errors are ignored.  `ok`
        and `applied` as for any insert. */
    method WriteAnalyticsEvent(code: string, target: Target, ipHash: string, userAgent: string, referer: string,
                               eventId: string, outboxId: string, now: int, ok: bool, applied: bool)
      modifies `db
      ensures db.urls == old(db).urls
      ensures outboxId in old(db).outbox || !(ok || applied) ==> db == old(db)
      ensures outboxId !in old(db).outbox && (ok || applied) ==>
                && db.outbox.Keys == old(db).outbox.Keys + {outboxId}
                && (forall r :: r in old(db).outbox ==> db.outbox[r] == old(db).outbox[r])
                && var event := db.outbox[outboxId];
                   && IsNew(event, now) && event.payload.UrlClicked?
                   && event.payload.click.eventId == eventId && event.payload.click.shortCode == code
                   && event.payload.click.userId == target.userId && event.payload.click.userEmail == target.userEmail
                   && event.payload.click.clickedAt == now && event.payload.click.ipHash == ipHash
                   && event.payload.click.userAgent == userAgent && event.payload.click.referer == referer
    {
      var click := ClickEvent(eventId, code, target.userId, target.userEmail, "", now, ipHash, userAgent, referer);
      if outboxId !in db.outbox && (ok || applied) {
        db := db.(outbox := db.outbox[outboxId := Row(UrlClicked(click), now, None, None)]);
      }
    }

    /** A missing row is reported as no row and no error. */
    method FindByCode(code: string, ok: bool) returns (row: Option<UrlRow>, err: bool)
      ensures err <==> !ok
      ensures row == if ok then RowOf(db.urls, code) else None
    {
      if !ok {
        return None, true;
      }
      if code !in db.urls {
        return None, false;
      }
      return Some(db.urls[code]), false;
    }

    /** One redirect with no other operation in between. */
    method RedirectToURL(code: string, now: int, readable: bool, dbOk: bool) returns (answer: Redirect)
      modifies `pending
      ensures var cached := if readable && cache.Holds(code, now) then Some(cache.entries[code].cached) else None;
              answer == RedirectAnswer(cached, dbOk, RowOf(db.urls, code), now)
      ensures readable && cache.Holds(code, now) ==>
                var c := cache.entries[code].cached;
                answer == if !c.active then GoneDeactivated
                          else if c.expiresAt.Some? && now > c.expiresAt.value then GoneExpired
                          else Found(Target(c.originalUrl, c.userId, c.userEmail))
      ensures !(readable && cache.Holds(code, now)) && dbOk && code in db.urls ==>
                var row := db.urls[code];
                answer == if !row.active then GoneDeactivated
                          else if row.expiresAt.Some? && now > row.expiresAt.value then GoneExpired
                          else Found(Target(row.originalUrl, row.userId, row.userEmail))
      ensures answer.Crash? <==> !(readable && cache.Holds(code, now)) && dbOk && code !in db.urls
      ensures !answer.NotFound?
      ensures (readable && cache.Holds(code, now)) || !answer.Found? ==> pending == old(pending)
      ensures !(readable && cache.Holds(code, now)) && answer.Found? ==>
                var row := db.urls[code];
                var copy := CachedUrl(row.originalUrl, row.userId, row.userEmail, row.expiresAt, true);
                var ttl := if row.expiresAt.Some? then row.expiresAt.value - now else 3_600_000;
                pending == old(pending) + [PendingSet(code, copy, ttl)]
    {
      var cached := cache.Get(code, now, readable);
      if cached.Some? {
        if !cached.value.active {
          return GoneDeactivated;
        }
        if cached.value.expiresAt.Some? && now > cached.value.expiresAt.value {
          return GoneExpired;
        }
        return Found(Target(cached.value.originalUrl, cached.value.userId, cached.value.userEmail));
      }
      var found, err := FindByCode(code, dbOk);
      if err {
        // the store never reports ErrNoRows, so the 404 branch is dead
        return RedirectError;
      }
      if found.None? {
        return Crash;
      }
      var row := found.value;
      if !row.active {
        return GoneDeactivated;
      }
      if row.expiresAt.Some? && now > row.expiresAt.value {
        return GoneExpired;
      }
      var ttl := HOUR;
      if row.expiresAt.Some? {
        ttl := row.expiresAt.value - now;
        if ttl < 0 {
          ttl := 0;
        }
      }
      var entry := CachedUrl(row.originalUrl, row.userId, row.userEmail, row.expiresAt, row.active);
      pending := pending + [PendingSet(code, entry, ttl)];
      return Found(Target(row.originalUrl, row.userId, row.userEmail));
    }
  }
}
