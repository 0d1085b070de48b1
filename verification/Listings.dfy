/** The two listings: a user's URLs (services/url-service/store.go, service.go) by id, and a
    user's notifications (services/notification-service/store.go) by creation time and id.
    UUIDs are the 128-bit numbers they denote, in the database's order. */
module Listings {
  import opened Options
  import opened Pagination
  import UrlService
  import Notifications

  ghost function Take(keys: seq<Key>, n: nat): seq<Key> {
    if |keys| <= n then keys else keys[..n]
  }

  /** ORDER BY ... DESC LIMIT n: the row cursor yields the greatest key not yet seen. */
  method RowCursor(keys: set<Key>, n: nat) returns (rows: seq<Key>)
    ensures rows == Take(Descending(keys), n)
  {
    rows := [];
    var left := keys;
    while |rows| < n && left != {}
      invariant |rows| <= n && rows + Descending(left) == Descending(keys)
      decreases |left|
    {
      GreatestExists(left);
      var k :| IsGreatest(k, left);
      assert k == Greatest(left);
      rows, left := rows + [k], left - {k};
    }
  }

  lemma InTake(keys: seq<Key>, n: nat)
    ensures forall i :: 0 <= i < n && i < |keys| ==> keys[i] in Take(keys, n)
  {
    forall i | 0 <= i < n && i < |keys| ensures keys[i] in Take(keys, n) {
      assert n < |keys| ==> keys[..n][i] == keys[i];
    }
  }

  lemma NotTaken(keys: seq<Key>, n: nat, k: Key)
    requires Sorted(keys) && k in keys && k !in Take(keys, n)
    ensures |Take(keys, n)| == n && forall t :: t in Take(keys, n) ==> Less(k, t)
  {
    InTake(keys, n);
    var i :| 0 <= i < |keys| && keys[i] == k;
    forall t | t in Take(keys, n) ensures Less(k, t) {
      var j :| 0 <= j < n && keys[j] == t;
    }
  }

  /** What a row cursor delivers: the greatest keys, in order, and all of them if fewer than `n`. */
  lemma TakeFacts(keys: set<Key>, n: nat)
    ensures var taken := Take(Descending(keys), n);
            && Sorted(taken) && |taken| <= n
            && (forall k :: k in taken ==> k in keys)
            && (forall k :: k in keys && k !in taken ==> |taken| == n && forall t :: t in taken ==> Less(k, t))
            && (|taken| < n ==> |taken| == |keys|)
  {
    var all := Descending(keys);
    DescendingIsSorted(keys);
    forall k | k in Take(all, n) ensures k in keys {
      assert k in Elements(all);
    }
    forall k | k in keys && k !in Take(all, n)
      ensures |Take(all, n)| == n && forall t :: t in Take(all, n) ==> Less(k, t)
    {
      assert k in Elements(all);
      NotTaken(all, n, k);
    }
  }

  // ----- URLs

  type UrlRow = UrlService.UrlRow

  predicate Eligible(row: UrlRow, userId: string, now: int) {
    row.userId == userId && row.active && (row.expiresAt.None? || row.expiresAt.value > now)
  }

  function UrlKeys(rows: map<int, UrlRow>, userId: string, now: int): set<Key> {
    set id | id in rows && Eligible(rows[id], userId, now) :: Key(0, id)
  }

  function UrlCursor(after: Option<int>): Option<Key> {
    if after.None? then None else Some(Key(0, after.value))
  }

  const DEFAULT_LIMIT: nat := 20

  /** The requested page size, held to 1..100; `None` if there was none, or no number. */
  function ClampLimit(parsed: Option<int>): (limit: int)
    ensures 1 <= limit <= 100
    ensures parsed.None? ==> limit == 20
    ensures parsed.Some? && 1 <= parsed.value <= 100 ==> limit == parsed.value
    ensures parsed.Some? && parsed.value < 1 ==> limit == 1
    ensures parsed.Some? && parsed.value > 100 ==> limit == 100
  {
    if parsed.None? then DEFAULT_LIMIT
    else if parsed.value < 1 then 1 else if parsed.value > 100 then 100 else parsed.value
  }

  datatype Listed<T> = Listed(id: int, row: T)

  /** Records and keys tell of the same rows, in the same order. */
  ghost predicate Shows<T>(listed: seq<Listed<T>>, rows: map<int, T>, keys: seq<Key>) {
    && |listed| == |keys|
    && forall i :: 0 <= i < |keys| ==>
         listed[i].id == keys[i].minor && keys[i].minor in rows && listed[i].row == rows[keys[i].minor]
  }

  ghost predicate Lists<T>(listed: seq<Listed<T>>, id: int) {
    exists i :: 0 <= i < |listed| && listed[i].id == id
  }

  /** Cutting a descending list leaves out what is below its last record. */
  lemma CutShort<T>(listed: seq<Listed<T>>, limit: nat, id: int)
    requires 1 <= limit < |listed| && forall i, j :: 0 <= i < j < |listed| ==> listed[i].id > listed[j].id
    requires Lists(listed, id) || forall i :: 0 <= i < |listed| ==> id < listed[i].id
    ensures Lists(listed[..limit], id) || id < listed[limit - 1].id
  {
    if Lists(listed, id) {
      var i :| 0 <= i < |listed| && listed[i].id == id;
      assert i < limit ==> listed[..limit][i].id == id;
    }
  }

  /** The rows listed are the user's own, active and not expired, below the cursor, in descending
      order of id. */
  lemma UrlListing(listed: seq<Listed<UrlRow>>, rows: map<int, UrlRow>, userId: string, after: Option<int>, n: nat,
                   now: int)
    requires Shows(listed, rows, Take(Descending(Below(UrlKeys(rows, userId, now), UrlCursor(after))), n))
    ensures |listed| <= n && forall i, j :: 0 <= i < j < |listed| ==> listed[i].id > listed[j].id
    ensures forall i :: 0 <= i < |listed| ==>
              && listed[i].id in rows && listed[i].row == rows[listed[i].id]
              && listed[i].row.userId == userId && listed[i].row.active
              && (listed[i].row.expiresAt.Some? ==> listed[i].row.expiresAt.value > now)
              && (after.Some? ==> listed[i].id < after.value)
  {
    var keys := Below(UrlKeys(rows, userId, now), UrlCursor(after));
    var taken := Take(Descending(keys), n);
    TakeFacts(keys, n);
    forall i | 0 <= i < |listed|
      ensures taken[i] == Key(0, listed[i].id) && Eligible(listed[i].row, userId, now)
      ensures after.Some? ==> listed[i].id < after.value
    {
      assert taken[i] in keys;
    }
  }

  /** Such a row that is left out is below all that are listed, the list being full. */
  lemma UrlLeftOut(listed: seq<Listed<UrlRow>>, rows: map<int, UrlRow>, userId: string, after: Option<int>, n: nat,
                   now: int, id: int)
    requires Shows(listed, rows, Take(Descending(Below(UrlKeys(rows, userId, now), UrlCursor(after))), n))
    requires id in rows && rows[id].userId == userId && rows[id].active
    requires rows[id].expiresAt.Some? ==> rows[id].expiresAt.value > now
    requires after.Some? ==> id < after.value
    ensures || Lists(listed, id)
            || (|listed| == n && forall i :: 0 <= i < n ==> id < listed[i].id)
  {
    var keys := Below(UrlKeys(rows, userId, now), UrlCursor(after));
    var taken := Take(Descending(keys), n);
    TakeFacts(keys, n);
    assert Key(0, id) in keys;
    if Key(0, id) in taken {
      var i :| 0 <= i < |taken| && taken[i] == Key(0, id);
      assert listed[i].id == id;
    } else {
      forall i | 0 <= i < n ensures id < listed[i].id {
        assert taken[i] in taken;
      }
    }
  }

  class UrlStore {
    var rows: map<int, UrlRow>

    constructor ()
      ensures rows == map[]
    {
      rows := map[];
    }

    method FindByUserID(userId: string, after: Option<int>, limit: nat, now: int) returns (results: seq<Listed<UrlRow>>)
      ensures Shows(results, rows, Take(Descending(Below(UrlKeys(rows, userId, now), UrlCursor(after))), limit + 1))
      ensures |results| <= limit + 1
      ensures forall i, j :: 0 <= i < j < |results| ==> results[i].id > results[j].id
      ensures forall i :: 0 <= i < |results| ==>
                && results[i].id in rows && results[i].row == rows[results[i].id]
                && results[i].row.userId == userId && results[i].row.active
                && (results[i].row.expiresAt.Some? ==> results[i].row.expiresAt.value > now)
                && (after.Some? ==> results[i].id < after.value)
      ensures forall id ::
                (&& id in rows && rows[id].userId == userId && rows[id].active
                 && (rows[id].expiresAt.Some? ==> rows[id].expiresAt.value > now)
                 && (after.Some? ==> id < after.value)) ==>
                  || Lists(results, id)
                  || (|results| == limit + 1 && forall i :: 0 <= i < |results| ==> id < results[i].id)
    {
      var keys := Below(UrlKeys(rows, userId, now), UrlCursor(after));
      var cursor := RowCursor(keys, limit + 1);
      DescendingIsSorted(keys);
      results := [];
      for i := 0 to |cursor|
        invariant Shows(results, rows, cursor[..i])
      {
        assert cursor[i] in Elements(Descending(keys));
        results := results + [Listed(cursor[i].minor, rows[cursor[i].minor])];
      }
      assert cursor[..|cursor|] == cursor;
      UrlListing(results, rows, userId, after, limit + 1, now);
      forall id | && id in rows && rows[id].userId == userId && rows[id].active
                  && (rows[id].expiresAt.Some? ==> rows[id].expiresAt.value > now)
                  && (after.Some? ==> id < after.value)
        ensures || Lists(results, id)
                || (|results| == limit + 1 && forall i :: 0 <= i < |results| ==> id < results[i].id)
      {
        UrlLeftOut(results, rows, userId, after, limit + 1, now, id);
      }
    }

    /** One page, its cursor, and whether there is more. */
    method GetUserUrls(userId: string, after: Option<int>, limit: nat, now: int)
      returns (urls: seq<Listed<UrlRow>>, nextCursor: Option<int>, hasMore: bool)
      requires limit >= 1
      ensures var page := PageOf(UrlKeys(rows, userId, now), UrlCursor(after), limit);
              && Shows(urls, rows, page.keys)
              && hasMore == page.next.Some?
              && nextCursor == (if page.next.Some? then Some(page.next.value.minor) else None)
      ensures |urls| <= limit && (hasMore ==> |urls| == limit && nextCursor == Some(urls[limit - 1].id))
      ensures !hasMore ==> nextCursor == None
      ensures forall i, j :: 0 <= i < j < |urls| ==> urls[i].id > urls[j].id
      ensures forall i :: 0 <= i < |urls| ==>
                && urls[i].id in rows && urls[i].row == rows[urls[i].id]
                && urls[i].row.userId == userId && urls[i].row.active
                && (urls[i].row.expiresAt.Some? ==> urls[i].row.expiresAt.value > now)
                && (after.Some? ==> urls[i].id < after.value)
      ensures forall id ::
                (&& id in rows && rows[id].userId == userId && rows[id].active
                 && (rows[id].expiresAt.Some? ==> rows[id].expiresAt.value > now)
                 && (after.Some? ==> id < after.value)) ==>
                  || Lists(urls, id)
                  || (hasMore && id < nextCursor.value)
    {
      urls := FindByUserID(userId, after, limit, now);
      ghost var fetched := urls;
      nextCursor := None;
      hasMore := |urls| > limit;
      if hasMore {
        urls := urls[..limit];
        nextCursor := Some(urls[|urls| - 1].id);
        forall id | && id in rows && rows[id].userId == userId && rows[id].active
                    && (rows[id].expiresAt.Some? ==> rows[id].expiresAt.value > now)
                    && (after.Some? ==> id < after.value)
          ensures Lists(urls, id) || id < nextCursor.value
        {
          CutShort(fetched, limit, id);
        }
      }
    }
  }

  /** The id that request `i` sends as its cursor. */
  function AfterOf(pages: seq<Page>, i: nat): Option<int>
    requires i <= |pages| && forall j :: 0 <= j < i ==> pages[j].next.Some?
  {
    if i == 0 then None else Some(pages[i - 1].next.value.minor)
  }

  ghost predicate UrlRequestAt(tables: seq<map<int, UrlRow>>, times: seq<int>, userId: string, limit: nat,
                               pages: seq<Page>, i: nat)
    requires limit >= 1 && i < |tables| == |times| == |pages|
    requires forall j :: 0 <= j < |pages| - 1 ==> pages[j].next.Some?
  {
    pages[i] == PageOf(UrlKeys(tables[i], userId, times[i]), UrlCursor(AfterOf(pages, i)), limit)
  }

  /** Requests that follow the cursor, each on the table and at the time it finds. */
  ghost predicate UrlRequests(tables: seq<map<int, UrlRow>>, times: seq<int>, userId: string, limit: nat,
                              pages: seq<Page>) {
    && limit >= 1 && |tables| == |times| == |pages| && |pages| >= 1
    && (forall i :: 0 <= i < |pages| - 1 ==> pages[i].next.Some?)
    && (forall i :: 0 <= i < |pages| ==> UrlRequestAt(tables, times, userId, limit, pages, i))
  }

  function UrlSnapshots(tables: seq<map<int, UrlRow>>, times: seq<int>, userId: string): seq<set<Key>>
    requires |tables| == |times|
  {
    seq(|tables|, i requires 0 <= i < |tables| => UrlKeys(tables[i], userId, times[i]))
  }

  /** Following `next_cursor` of the URL list is a walk, however the table changes. */
  lemma UrlRequestsWalk(tables: seq<map<int, UrlRow>>, times: seq<int>, userId: string, limit: nat, pages: seq<Page>)
    requires UrlRequests(tables, times, userId, limit, pages)
    ensures IsWalk(UrlSnapshots(tables, times, userId), limit, pages)
  {
    var snapshots := UrlSnapshots(tables, times, userId);
    assert UrlRequestAt(tables, times, userId, limit, pages, 0);
    forall i | 1 <= i < |pages| ensures Follows(snapshots, limit, pages, i) {
      assert UrlRequestAt(tables, times, userId, limit, pages, i - 1);
      assert UrlRequestAt(tables, times, userId, limit, pages, i);
      PageIsSorted(snapshots[i - 1], UrlCursor(AfterOf(pages, i - 1)), limit);
      PageKeys(snapshots[i - 1], UrlCursor(AfterOf(pages, i - 1)), limit, pages[i - 1].next.value);
      assert pages[i - 1].next.value.major == 0;
    }
  }

  /** A finished walk has returned every row that was the user's, active and not expired at each
      request, and returned it once. */
  lemma EveryRowIsListed(tables: seq<map<int, UrlRow>>, times: seq<int>, userId: string, limit: nat, pages: seq<Page>,
                         id: int)
    requires UrlRequests(tables, times, userId, limit, pages) && Finished(pages)
    requires forall i :: 0 <= i < |tables| ==>
               && id in tables[i] && tables[i][id].userId == userId && tables[i][id].active
               && (tables[i][id].expiresAt.Some? ==> tables[i][id].expiresAt.value > times[i])
    ensures exists j :: 0 <= j < |pages| && Key(0, id) in pages[j].keys
    ensures forall i, j :: 0 <= i < j < |pages| ==> !(Key(0, id) in pages[i].keys && Key(0, id) in pages[j].keys)
  {
    var snapshots := UrlSnapshots(tables, times, userId);
    UrlRequestsWalk(tables, times, userId, limit, pages);
    NothingMissed(snapshots, limit, pages, Key(0, id));
    forall i, j | 0 <= i < j < |pages| ensures !(Key(0, id) in pages[i].keys && Key(0, id) in pages[j].keys) {
      if Key(0, id) in pages[i].keys && Key(0, id) in pages[j].keys {
        NothingTwice(snapshots, limit, pages, i, j, Key(0, id), Key(0, id));
      }
    }
  }

  // ----- notifications

  type NoteRow = Notifications.Notification

  type Notes = Notifications.Table

  function NoteKeys(rows: Notes, userId: string): set<Key> {
    set id | id in rows && rows[id].userId == userId :: Key(rows[id].createdAt, id)
  }

  /** The page for a cursor id; an id that is not the user's compares with nothing. */
  ghost function NotePage(rows: Notes, userId: string, after: Option<int>, limit: nat): Page
    requires limit >= 1
  {
    if after.None? then PageOf(NoteKeys(rows, userId), None, limit)
    else if after.value in rows && rows[after.value].userId == userId
    then PageOf(NoteKeys(rows, userId), Some(Key(rows[after.value].createdAt, after.value)), limit)
    else Page([], None)
  }

  /** The keys that the query ranges over. */
  function NoteCandidates(rows: Notes, userId: string, after: Option<int>): set<Key> {
    if after.None? then NoteKeys(rows, userId)
    else if after.value in rows && rows[after.value].userId == userId
    then Below(NoteKeys(rows, userId), Some(Key(rows[after.value].createdAt, after.value)))
    else {}
  }

  /** Row `a` comes after row `b`: it is older, or as old and of a lower id. */
  predicate After(rows: Notes, a: int, b: int)
    requires a in rows && b in rows
  {
    rows[a].createdAt < rows[b].createdAt || (rows[a].createdAt == rows[b].createdAt && a < b)
  }

  /** Rows of the user's own, after the cursor row, newest first. */
  lemma NoteListing(listed: seq<Listed<NoteRow>>, rows: Notes, userId: string, after: Option<int>, n: nat)
    requires Shows(listed, rows, Take(Descending(NoteCandidates(rows, userId, after)), n))
    ensures |listed| <= n
    ensures forall i :: 0 <= i < |listed| ==>
              && listed[i].id in rows && listed[i].row == rows[listed[i].id] && listed[i].row.userId == userId
              && (after.Some? ==> after.value in rows && rows[after.value].userId == userId
                                  && After(rows, listed[i].id, after.value))
    ensures forall i, j :: 0 <= i < j < |listed| ==> After(rows, listed[j].id, listed[i].id)
  {
    var keys := NoteCandidates(rows, userId, after);
    var taken := Take(Descending(keys), n);
    TakeFacts(keys, n);
    forall i | 0 <= i < |listed|
      ensures taken[i] == Key(listed[i].row.createdAt, listed[i].id) && taken[i] in keys
    {
      assert taken[i] in taken;
    }
  }

  /** A row of the kind that is left out comes after them all, the list being full. */
  lemma NoteLeftOut(listed: seq<Listed<NoteRow>>, rows: Notes, userId: string, after: Option<int>, n: nat, id: int)
    requires Shows(listed, rows, Take(Descending(NoteCandidates(rows, userId, after)), n))
    requires id in rows && rows[id].userId == userId
    requires after.Some? ==> after.value in rows && rows[after.value].userId == userId && After(rows, id, after.value)
    ensures || Lists(listed, id)
            || (|listed| == n && forall i :: 0 <= i < n ==> After(rows, id, listed[i].id))
  {
    var keys, k := NoteCandidates(rows, userId, after), Key(rows[id].createdAt, id);
    var taken := Take(Descending(keys), n);
    TakeFacts(keys, n);
    assert k in keys;
    if k in taken {
      var i :| 0 <= i < |taken| && taken[i] == k;
      assert listed[i].id == id;
    } else {
      forall i | 0 <= i < n ensures After(rows, id, listed[i].id) {
        assert taken[i] in taken && taken[i] in keys;
      }
    }
  }

  /** The page, by the list of one more than its size. */
  lemma NotePageIs(rows: Notes, userId: string, after: Option<int>, size: nat)
    requires size >= 1
    ensures var page := NotePage(rows, userId, after, size);
            var more := Take(Descending(NoteCandidates(rows, userId, after)), size + 1);
            if |more| > size then page == Page(more[..size], Some(more[size - 1])) else page == Page(more, None)
  {
    assert Below(NoteKeys(rows, userId), None) == NoteKeys(rows, userId);
    assert Descending({}) == [];
  }

  /** What a page shows is what its list shows, and what it leaves out comes after its cursor. */
  lemma NotePageListing(listed: seq<Listed<NoteRow>>, rows: Notes, userId: string, after: Option<int>, size: nat)
    requires size >= 1 && Shows(listed, rows, NotePage(rows, userId, after, size).keys)
    ensures var page := NotePage(rows, userId, after, size);
            && |listed| <= size
            && (page.next.Some? ==> |listed| == size && page.next.value.minor == listed[size - 1].id)
    ensures forall i :: 0 <= i < |listed| ==>
              && listed[i].id in rows && listed[i].row == rows[listed[i].id] && listed[i].row.userId == userId
              && (after.Some? ==> after.value in rows && rows[after.value].userId == userId
                                  && After(rows, listed[i].id, after.value))
    ensures forall i, j :: 0 <= i < j < |listed| ==> After(rows, listed[j].id, listed[i].id)
    ensures forall id ::
              (&& id in rows && rows[id].userId == userId
               && (after.Some? ==> after.value in rows && rows[after.value].userId == userId
                                   && After(rows, id, after.value))) ==>
                || Lists(listed, id)
                || (NotePage(rows, userId, after, size).next.Some? && |listed| == size
                    && After(rows, id, listed[size - 1].id))
  {
    NotePageIs(rows, userId, after, size);
    var keys, page := NoteCandidates(rows, userId, after), NotePage(rows, userId, after, size);
    TakeFacts(keys, size);
    TakeFacts(keys, size + 1);
    assert page.keys == Take(Descending(keys), size);
    NoteListing(listed, rows, userId, after, size);
    forall id | && id in rows && rows[id].userId == userId
                && (after.Some? ==> after.value in rows && rows[after.value].userId == userId
                                    && After(rows, id, after.value))
      ensures || Lists(listed, id)
              || (page.next.Some? && |listed| == size && After(rows, id, listed[size - 1].id))
    {
      NoteLeftOut(listed, rows, userId, after, size, id);
      if !Lists(listed, id) {
        NoteMore(listed, rows, userId, after, size, id);
      }
    }
  }

  /** A row left out means that there is a next page. */
  lemma NoteMore(listed: seq<Listed<NoteRow>>, rows: Notes, userId: string, after: Option<int>, size: nat, id: int)
    requires size >= 1 && Shows(listed, rows, NotePage(rows, userId, after, size).keys)
    requires id in rows && rows[id].userId == userId
    requires after.Some? ==> after.value in rows && rows[after.value].userId == userId && After(rows, id, after.value)
    requires !Lists(listed, id)
    ensures NotePage(rows, userId, after, size).next.Some?
  {
    var keys, k := NoteCandidates(rows, userId, after), Key(rows[id].createdAt, id);
    var page := NotePage(rows, userId, after, size);
    NotePageIs(rows, userId, after, size);
    TakeFacts(keys, size + 1);
    assert k in keys;
    forall i | 0 <= i < |page.keys| ensures page.keys[i] != k {
      assert listed[i].id == page.keys[i].minor;
    }
    assert k !in page.keys;
  }

  class NotificationStore {
    var rows: Notes

    constructor ()
      ensures rows == map[]
    {
      rows := map[];
    }

    method QueryNotifications(userId: string, after: Option<int>, limit: nat) returns (results: seq<Listed<NoteRow>>)
      ensures Shows(results, rows, Take(Descending(NoteCandidates(rows, userId, after)), limit))
      ensures |results| <= limit
      ensures forall i :: 0 <= i < |results| ==>
                && results[i].id in rows && results[i].row == rows[results[i].id] && results[i].row.userId == userId
                && (after.Some? ==> after.value in rows && rows[after.value].userId == userId
                                    && After(rows, results[i].id, after.value))
      ensures forall i, j :: 0 <= i < j < |results| ==> After(rows, results[j].id, results[i].id)
      ensures forall id ::
                (&& id in rows && rows[id].userId == userId
                 && (after.Some? ==> after.value in rows && rows[after.value].userId == userId
                                     && After(rows, id, after.value))) ==>
                  || Lists(results, id)
                  || (|results| == limit && forall i :: 0 <= i < limit ==> After(rows, id, results[i].id))
    {
      var keys := NoteCandidates(rows, userId, after);
      var cursor := RowCursor(keys, limit);
      DescendingIsSorted(keys);
      results := [];
      for i := 0 to |cursor|
        invariant Shows(results, rows, cursor[..i])
      {
        assert cursor[i] in Elements(Descending(keys));
        results := results + [Listed(cursor[i].minor, rows[cursor[i].minor])];
      }
      assert cursor[..|cursor|] == cursor;
      NoteListing(results, rows, userId, after, limit);
      forall id | && id in rows && rows[id].userId == userId
                  && (after.Some? ==> after.value in rows && rows[after.value].userId == userId
                                      && After(rows, id, after.value))
        ensures || Lists(results, id)
                || (|results| == limit && forall i :: 0 <= i < limit ==> After(rows, id, results[i].id))
      {
        NoteLeftOut(results, rows, userId, after, limit, id);
      }
    }

    method ListByUser(userId: string, after: Option<int>, limit: int)
      returns (notifications: seq<Listed<NoteRow>>, nextCursor: Option<int>)
      ensures var page := NotePage(rows, userId, after, if limit <= 0 then DEFAULT_LIMIT else limit);
              && Shows(notifications, rows, page.keys)
              && nextCursor == (if page.next.Some? then Some(page.next.value.minor) else None)
      ensures |notifications| <= if limit <= 0 then 20 else limit
      ensures nextCursor.Some? ==> |notifications| == (if limit <= 0 then 20 else limit)
                                   && nextCursor.value == notifications[|notifications| - 1].id
      ensures forall i :: 0 <= i < |notifications| ==>
                && notifications[i].id in rows && notifications[i].row == rows[notifications[i].id]
                && notifications[i].row.userId == userId
                && (after.Some? ==> after.value in rows && rows[after.value].userId == userId
                                    && After(rows, notifications[i].id, after.value))
      ensures forall i, j :: 0 <= i < j < |notifications| ==> After(rows, notifications[j].id, notifications[i].id)
      ensures forall id ::
                (&& id in rows && rows[id].userId == userId
                 && (after.Some? ==> after.value in rows && rows[after.value].userId == userId
                                     && After(rows, id, after.value))) ==>
                  || Lists(notifications, id)
                  || (nextCursor.Some? && nextCursor.value in rows && After(rows, id, nextCursor.value))
    {
      var size: nat := if limit <= 0 then DEFAULT_LIMIT else limit;
      notifications := QueryNotifications(userId, after, size + 1);
      NotePageIs(rows, userId, after, size);
      nextCursor := None;
      if |notifications| > size {
        notifications := notifications[..size];
        nextCursor := Some(notifications[|notifications| - 1].id);
      }
      NotePageListing(notifications, rows, userId, after, size);
    }
  }

  /** Notifications are never deleted, and keep their owner and creation time. */
  ghost predicate Persists(earlier: Notes, later: Notes) {
    forall id :: id in earlier ==>
      id in later && later[id].userId == earlier[id].userId && later[id].createdAt == earlier[id].createdAt
  }

  ghost predicate NoteRequestAt(tables: seq<Notes>, userId: string, limit: nat, pages: seq<Page>, i: nat)
    requires limit >= 1 && i < |tables| == |pages|
    requires forall j :: 0 <= j < |pages| - 1 ==> pages[j].next.Some?
  {
    pages[i] == NotePage(tables[i], userId, AfterOf(pages, i), limit)
  }

  ghost predicate NoteRequests(tables: seq<Notes>, userId: string, limit: nat, pages: seq<Page>) {
    && limit >= 1 && |tables| == |pages| && |pages| >= 1
    && (forall i :: 0 <= i < |tables| - 1 ==> Persists(tables[i], tables[i + 1]))
    && (forall i :: 0 <= i < |pages| - 1 ==> pages[i].next.Some?)
    && (forall i :: 0 <= i < |pages| ==> NoteRequestAt(tables, userId, limit, pages, i))
  }

  function NoteSnapshots(tables: seq<Notes>, userId: string): seq<set<Key>> {
    seq(|tables|, i requires 0 <= i < |tables| => NoteKeys(tables[i], userId))
  }

  lemma NotePageFacts(rows: Notes, userId: string, after: Option<int>, limit: nat)
    requires limit >= 1 && NotePage(rows, userId, after, limit).next.Some?
    ensures var k := NotePage(rows, userId, after, limit).next.value;
            k.minor in rows && rows[k.minor].userId == userId && rows[k.minor].createdAt == k.major
  {
    var cursor := if after.None? then None else Some(Key(rows[after.value].createdAt, after.value));
    PageIsSorted(NoteKeys(rows, userId), cursor, limit);
    PageKeys(NoteKeys(rows, userId), cursor, limit, PageOf(NoteKeys(rows, userId), cursor, limit).next.value);
  }

  /** Following `next_cursor` of the notification list is a walk, although the cursor is an id
      whose position is looked up again at every request. */
  lemma NoteRequestsWalk(tables: seq<Notes>, userId: string, limit: nat, pages: seq<Page>)
    requires NoteRequests(tables, userId, limit, pages)
    ensures IsWalk(NoteSnapshots(tables, userId), limit, pages)
  {
    var snapshots := NoteSnapshots(tables, userId);
    assert NoteRequestAt(tables, userId, limit, pages, 0);
    forall i | 1 <= i < |pages| ensures Follows(snapshots, limit, pages, i) {
      assert NoteRequestAt(tables, userId, limit, pages, i - 1);
      assert NoteRequestAt(tables, userId, limit, pages, i);
      NotePageFacts(tables[i - 1], userId, AfterOf(pages, i - 1), limit);
      assert Persists(tables[i - 1], tables[(i - 1) + 1]);
    }
  }
}
