/** The outbox table and the coordinator that drains it
    (services/url-service/outbox_store.go, outbox.go).  Times are the database clock in
    milliseconds. */
module Outbox {
  import opened Options
  import opened Events

  const LEASE: int := 30_000
  const BATCH_SIZE: nat := 50

  datatype Row = Row(payload: Payload, createdAt: int, lockedUntil: Option<int>, publishedAt: Option<int>)

  type Table = map<string, Row>

  predicate Claimable(row: Row, now: int) {
    row.publishedAt.None? && (row.lockedUntil.None? || row.lockedUntil.value < now)
  }

  function Ids(table: Table, now: int): set<string> {
    set r | r in table && Claimable(table[r], now)
  }

  /** What the claim statement may select: at most `limit` claimable rows, oldest first;
      fewer only if there are no more.  Rows of equal age may come in any order. */
  ghost predicate ValidPick(table: Table, picked: set<string>, limit: nat, now: int) {
    && picked <= Ids(table, now)
    && |picked| <= limit
    && (|picked| < limit ==> picked == Ids(table, now))
    && NoneOlder(table, picked, Ids(table, now) - picked)
  }

  ghost predicate NoneOlder(table: Table, picked: set<string>, left: set<string>)
    requires picked <= table.Keys && left <= table.Keys
  {
    forall p, r :: p in picked && r in left ==> table[p].createdAt <= table[r].createdAt
  }

  /** The claim statement's update. */
  function Lease(table: Table, picked: set<string>, now: int): Table {
    map r | r in table :: if r in picked then table[r].(lockedUntil := Some(now + LEASE)) else table[r]
  }

  function Marked(table: Table, id: string, now: int): Table {
    if id in table && table[id].publishedAt.None?
    then table[id := table[id].(publishedAt := Some(now), lockedUntil := None)]
    else table
  }

  /** The statements, column by column: a claim takes unpublished rows whose lease, if any, has
      run out, oldest first, all of them if there is room, and changes only their lease, to 30
      seconds from now. */
  lemma ClaimMeans(table: Table, picked: set<string>, limit: nat, now: int)
    requires ValidPick(table, picked, limit, now)
    ensures |picked| <= limit && Lease(table, picked, now).Keys == table.Keys
    ensures forall r :: r in picked ==>
              && r in table && table[r].publishedAt.None?
              && (table[r].lockedUntil.Some? ==> table[r].lockedUntil.value < now)
              && var row := Lease(table, picked, now)[r];
                 && row.payload == table[r].payload && row.createdAt == table[r].createdAt
                 && row.publishedAt.None? && row.lockedUntil == Some(now + 30_000)
    ensures forall r :: r in table && r !in picked ==> Lease(table, picked, now)[r] == table[r]
    ensures forall r :: r in table && r !in picked && table[r].publishedAt.None?
                        && (table[r].lockedUntil.Some? ==> table[r].lockedUntil.value < now) ==>
              |picked| == limit && forall p :: p in picked ==> table[p].createdAt <= table[r].createdAt
  {
    forall r | r in table && r !in picked && table[r].publishedAt.None?
               && (table[r].lockedUntil.Some? ==> table[r].lockedUntil.value < now)
      ensures |picked| == limit && forall p :: p in picked ==> table[p].createdAt <= table[r].createdAt
    {
      assert r in Ids(table, now) - picked;
    }
  }

  /** A mark sets the publication time of one unpublished row and clears its lease. */
  lemma MarkMeans(table: Table, id: string, now: int)
    ensures Marked(table, id, now).Keys == table.Keys
    ensures forall r :: r in table && (r != id || table[r].publishedAt.Some?) ==> Marked(table, id, now)[r] == table[r]
    ensures id in table && table[id].publishedAt.None? ==>
              var row := Marked(table, id, now)[id];
              && row.payload == table[id].payload && row.createdAt == table[id].createdAt
              && row.publishedAt == Some(now) && row.lockedUntil.None?
  {
  }

  // ----- the store

  datatype Job = Job(id: string, payload: Payload)

  /** Distinct picked rows, each with its own payload. */
  ghost predicate Faithful(table: Table, results: seq<Job>, picked: set<string>) {
    && (forall k :: 0 <= k < |results| ==>
          results[k].id in picked && results[k].id in table && results[k].payload == table[results[k].id].payload)
    && (forall j, k :: 0 <= j < k < |results| ==> results[j].id != results[k].id)
  }

  predicate Oldest(table: Table, ids: set<string>, id: string)
    requires ids <= table.Keys
  {
    id in ids && forall r :: r in ids ==> table[id].createdAt <= table[r].createdAt
  }

  lemma {:induction false} OldestExists(table: Table, ids: set<string>)
    requires ids <= table.Keys && ids != {}
    ensures exists id :: Oldest(table, ids, id)
    decreases |ids|
  {
    var some :| some in ids;
    if ids == {some} {
      assert Oldest(table, ids, some);
    } else {
      OldestExists(table, ids - {some});
      var best :| Oldest(table, ids - {some}, best);
      assert Oldest(table, ids, if table[some].createdAt <= table[best].createdAt then some else best);
    }
  }

  lemma TakeOldest(table: Table, picked: set<string>, left: set<string>, id: string)
    requires picked <= table.Keys && left <= table.Keys && NoneOlder(table, picked, left) && Oldest(table, left, id)
    ensures NoneOlder(table, picked + {id}, left - {id})
  {
  }

  lemma FaithfulSnoc(table: Table, results: seq<Job>, picked: set<string>, id: string)
    requires Faithful(table, results, picked) && id in table && id !in picked
    ensures Faithful(table, results + [Job(id, table[id].payload)], picked + {id})
  {
  }

  lemma MoveOver(picked: set<string>, left: set<string>, id: string)
    requires picked !! left && id in left
    ensures (picked + {id}) + (left - {id}) == picked + left && (picked + {id}) !! (left - {id})
    ensures |picked + {id}| == |picked| + 1
  {
  }

  /** The row cursor: it hands out the oldest claimable row not yet handed out, until the
      limit or until there are no more. */
  method SelectClaimable(table: Table, limit: nat, now: int) returns (results: seq<Job>, picked: set<string>)
    ensures ValidPick(table, picked, limit, now)
    ensures |results| == |picked| && Faithful(table, results, picked)
  {
    results, picked := [], {};
    var left := Ids(table, now);
    while |results| < limit && left != {}
      invariant picked + left == Ids(table, now) && picked !! left
      invariant |results| == |picked| <= limit
      invariant Faithful(table, results, picked)
      invariant NoneOlder(table, picked, left)
      decreases |left|
    {
      OldestExists(table, left);
      var id :| Oldest(table, left, id);
      TakeOldest(table, picked, left, id);
      FaithfulSnoc(table, results, picked, id);
      MoveOver(picked, left, id);
      results := results + [Job(id, table[id].payload)];
      picked, left := picked + {id}, left - {id};
    }
    assert Ids(table, now) - picked == left;
  }

  class OutboxStore {
    var rows: Table

    constructor ()
      ensures rows == map[]
    {
      rows := map[];
    }

    /** An insert outside or at the end of a transaction; the primary key may already be taken,
        and other errors of the database may keep the statement from running or, outside a
        transaction, hide that it did. */
    method InsertEvent(id: string, payload: Payload, createdAt: int, ok: bool, applied: bool) returns (err: bool)
      modifies this
      ensures err <==> !ok || id in old(rows)
      ensures rows == if id !in old(rows) && (ok || applied) then old(rows)[id := Row(payload, createdAt, None, None)]
                      else old(rows)
    {
      if id in rows {
        return true;
      }
      if ok || applied {
        rows := rows[id := Row(payload, createdAt, None, None)];
      }
      return !ok;
    }

    /** The claim: the selected rows are leased and returned.  `ran` says whether the statement
        took effect, `scanned` whether its result could be read; rows whose result is lost stay
        leased.  `None` is the error. */
    method FetchUnpublished(limit: nat, now: int, ran: bool, scanned: bool)
      returns (results: Option<seq<Job>>, picked: set<string>)
      modifies this
      ensures if ran then ValidPick(old(rows), picked, limit, now) else picked == {}
      ensures rows == Lease(old(rows), picked, now)
      ensures results.Some? <==> ran && scanned
      ensures results.Some? ==> |results.value| == |picked| && Faithful(old(rows), results.value, picked)
      ensures forall r :: r in picked ==>
                && r in old(rows) && old(rows)[r].publishedAt.None?
                && (old(rows)[r].lockedUntil.Some? ==> old(rows)[r].lockedUntil.value < now)
                && r in rows && rows[r] == old(rows)[r].(lockedUntil := Some(now + 30_000))
    {
      if !ran {
        return None, {};
      }
      var selected;
      selected, picked := SelectClaimable(rows, limit, now);
      rows := Lease(rows, picked, now);
      return if scanned then Some(selected) else None, picked;
    }

    /** `found` is false when no unpublished row has that id: the caller sees ErrNoRows. */
    method MarkPublished(id: string, now: int) returns (found: bool)
      modifies this
      ensures found <==> id in old(rows) && old(rows)[id].publishedAt.None?
      ensures rows == Marked(old(rows), id, now)
      ensures found ==> rows == old(rows)[id := old(rows)[id].(publishedAt := Some(now), lockedUntil := None)]
      ensures !found ==> rows == old(rows)
    {
      found := id in rows && rows[id].publishedAt.None?;
      if found {
        rows := rows[id := rows[id].(publishedAt := Some(now), lockedUntil := None)];
      }
    }
  }

  // ----- the coordinator

  /** One coordinator: its bounded channel, the store it shares with the others, and what it
      has put on the broker. */
  class OutboxCoordinator {
    const store: OutboxStore
    var jobs: seq<Job>
    var sent: seq<Payload>

    constructor (store: OutboxStore)
      ensures this.store == store && jobs == [] && sent == []
    {
      this.store := store;
      jobs, sent := [], [];
    }

    /** `ran` and `scanned` as for the claim; `room` is how many sends to the channel succeed
        before the context is done.  What is not sent is dropped, still leased. */
    method Poll(now: int, ran: bool, scanned: bool, room: nat) returns (picked: set<string>)
      modifies this, store
      ensures if ran then ValidPick(old(store.rows), picked, BATCH_SIZE, now) else picked == {}
      ensures store.rows == Lease(old(store.rows), picked, now)
      ensures sent == old(sent)
      ensures old(jobs) <= jobs
      ensures |picked| <= 50
      ensures |jobs| - |old(jobs)| == if !scanned then 0 else if room < |picked| then room else |picked|
      ensures Faithful(old(store.rows), jobs[|old(jobs)|..], picked)
    {
      var fetched;
      fetched, picked := store.FetchUnpublished(BATCH_SIZE, now, ran, scanned);
      if fetched.None? {
        return;
      }
      var records := fetched.value;
      for i := 0 to |records|
        invariant jobs == old(jobs) + records[..i] && i <= room
        invariant sent == old(sent) && store.rows == Lease(old(store.rows), picked, now)
      {
        if i == room {
          return;
        }
        jobs := jobs + [records[i]];
      }
    }

    /** A worker takes the next job, publishes it and, only if that succeeded, marks the row.
        `delivered` says whether a failed publish reached the broker all the same,
        `markApplied` whether the marking statement took effect. */
    method Work(publishOk: bool, delivered: bool, markApplied: bool, now: int)
      requires jobs != []
      modifies this, store
      ensures jobs == old(jobs)[1..]
      ensures sent == old(sent) + if publishOk || delivered then [old(jobs)[0].payload] else []
      ensures store.rows == if publishOk && markApplied then Marked(old(store.rows), old(jobs)[0].id, now)
                            else old(store.rows)
    {
      var job := jobs[0];
      jobs := jobs[1..];
      if publishOk || delivered {
        sent := sent + [job.payload];
      }
      if !publishOk {
        return;
      }
      if markApplied {
        var _ := store.MarkPublished(job.id, now);
      }
    }
  }
}
