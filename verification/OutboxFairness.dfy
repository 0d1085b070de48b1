/** No head-of-line blocking: a batch whose publishes all fail does not keep younger rows
    from being claimed, because its lease takes it out of the next polls. */
module OutboxFairness {
  import opened Events
  import opened Options
  import opened Sets
  import opened Outbox

  /** What can happen to the table during a lease period: polls by any coordinator, inserts of
      new rows, and marks by workers. */
  datatype Change = Poll(picked: set<string>) | Arrive(id: string, row: Row) | Mark(id: string)

  datatype Event = Event(change: Change, now: int)

  function After(table: Table, event: Event): Table {
    match event.change
    case Poll(picked) => Lease(table, picked, event.now)
    case Arrive(id, row) => table[id := row]
    case Mark(id) => Marked(table, id, event.now)
  }

  function TableAt(start: Table, events: seq<Event>, i: nat): Table
    requires i <= |events|
  {
    if i == 0 then start else After(TableAt(start, events, i - 1), events[i - 1])
  }

  ghost predicate Legal(table: Table, event: Event) {
    match event.change
    case Poll(picked) => ValidPick(table, picked, BATCH_SIZE, event.now)
    case Arrive(id, row) =>
      && id !in table && row.publishedAt.None? && row.lockedUntil.None?
      && forall r :: r in table ==> EventIdOf(table[r].payload) != EventIdOf(row.payload)
    case Mark(id) => true
  }

  ghost predicate InPeriod(start: Table, events: seq<Event>, t0: int, i: nat)
    requires i < |events|
  {
    t0 <= events[i].now <= t0 + LEASE && Legal(TableAt(start, events, i), events[i])
  }

  /** A history within one lease period from `t0`. */
  ghost predicate Period(start: Table, events: seq<Event>, t0: int) {
    forall i :: 0 <= i < |events| ==> InPeriod(start, events, t0, i)
  }

  /** The rows that compete for the polls of the period: those claimable at its start, and
      those whose lease lapses before it ends. */
  function Competing(start: Table, t0: int): set<string> {
    Ids(start, t0 + LEASE)
  }

  /** The competing rows that may be picked before `r`: those no younger than it, itself
      included. */
  function Ahead(start: Table, t0: int, r: string): set<string>
    requires r in start
  {
    set c | c in Competing(start, t0) && start[c].createdAt <= start[r].createdAt
  }

  /** The arrival of a row created no later than `age`: creation times are set before the
      commit, so rows may turn up that are older than some already there. */
  function LateBy(event: Event, age: int): set<string> {
    if event.change.Arrive? && event.change.row.createdAt <= age then {event.change.id} else {}
  }

  /** Such rows among the first `i` events. */
  function Late(events: seq<Event>, age: int, i: nat): set<string>
    requires i <= |events|
  {
    if i == 0 then {} else Late(events, age, i - 1) + LateBy(events[i - 1], age)
  }

  /** All the rows that may be picked before `r`, itself included. */
  function Rivals(start: Table, events: seq<Event>, t0: int, r: string): set<string>
    requires r in start
  {
    Ahead(start, t0, r) + Late(events, start[r].createdAt, |events|)
  }

  function Polls(events: seq<Event>, i: nat): nat
    requires i <= |events|
  {
    if i == 0 then 0 else Polls(events, i - 1) + if events[i - 1].change.Poll? then 1 else 0
  }

  function PickedBy(event: Event): set<string> {
    if event.change.Poll? then event.change.picked else {}
  }

  /** The rows taken by the polls among the first `i` events. */
  function Taken(events: seq<Event>, i: nat): set<string>
    requires i <= |events|
  {
    if i == 0 then {} else Taken(events, i - 1) + PickedBy(events[i - 1])
  }

  /** What the period has done so far to a row that was there at its start. */
  ghost predicate Tracked(start: Table, table: Table, taken: set<string>, t0: int, r: string)
    requires r in start
  {
    && r in table && table[r].createdAt == start[r].createdAt
    && (table[r].publishedAt.None? ==>
          if r in taken then table[r].lockedUntil.Some? && table[r].lockedUntil.value >= t0 + LEASE
          else table[r] == start[r])
  }

  /** And to a row that has arrived since: it is known if it is old, and leased once taken. */
  ghost predicate Followed(table: Table, taken: set<string>, late: set<string>, age: int, t0: int, c: string)
    requires c in table
  {
    && (table[c].createdAt <= age ==> c in late)
    && (c in taken && table[c].publishedAt.None? ==>
          table[c].lockedUntil.Some? && table[c].lockedUntil.value >= t0 + LEASE)
  }

  ghost predicate Consistent(start: Table, table: Table, taken: set<string>, late: set<string>, age: int, t0: int) {
    && (forall r :: r in start ==> Tracked(start, table, taken, t0, r))
    && (forall c :: c in table && c !in start ==> Followed(table, taken, late, age, t0, c))
    && taken <= table.Keys
  }

  lemma TrackedStep(start: Table, table: Table, taken: set<string>, t0: int, event: Event, r: string)
    requires r in start && Tracked(start, table, taken, t0, r)
    requires t0 <= event.now <= t0 + LEASE && Legal(table, event)
    ensures Tracked(start, After(table, event), taken + PickedBy(event), t0, r)
  {
  }

  lemma FollowedStep(table: Table, taken: set<string>, late: set<string>, age: int, t0: int, event: Event, c: string)
    requires t0 <= event.now <= t0 + LEASE && Legal(table, event) && taken <= table.Keys
    requires c in table ==> Followed(table, taken, late, age, t0, c)
    requires c in After(table, event)
    ensures Followed(After(table, event), taken + PickedBy(event), late + LateBy(event, age), age, t0, c)
  {
  }

  lemma ConsistentStep(start: Table, table: Table, taken: set<string>, late: set<string>, age: int, t0: int,
                       event: Event)
    requires Consistent(start, table, taken, late, age, t0)
    requires t0 <= event.now <= t0 + LEASE && Legal(table, event)
    ensures Consistent(start, After(table, event), taken + PickedBy(event), late + LateBy(event, age), age, t0)
  {
    var after, more, later := After(table, event), taken + PickedBy(event), late + LateBy(event, age);
    forall r | r in start ensures Tracked(start, after, more, t0, r) {
      TrackedStep(start, table, taken, t0, event, r);
    }
    forall c | c in after && c !in start ensures Followed(after, more, later, age, t0, c) {
      FollowedStep(table, taken, late, age, t0, event, c);
    }
  }

  lemma {:induction false} AlwaysConsistent(start: Table, events: seq<Event>, age: int, t0: int, i: nat)
    requires Period(start, events, t0) && i <= |events|
    ensures Consistent(start, TableAt(start, events, i), Taken(events, i), Late(events, age, i), age, t0)
  {
    if i > 0 {
      AlwaysConsistent(start, events, age, t0, i - 1);
      assert InPeriod(start, events, t0, i - 1);
      ConsistentStep(start, TableAt(start, events, i - 1), Taken(events, i - 1), Late(events, age, i - 1), age, t0,
                     events[i - 1]);
    }
  }

  /** While an initially claimable row waits, every poll takes a full batch of rows ahead of it
      that no earlier poll of the period has taken. */
  lemma PollTakesCompetitors(start: Table, table: Table, taken: set<string>, late: set<string>, t0: int, r: string,
                             picked: set<string>, now: int)
    requires r in Ids(start, t0) && Consistent(start, table, taken, late, start[r].createdAt, t0)
    requires t0 <= now <= t0 + LEASE
    requires r !in taken + picked && r in table && table[r].publishedAt.None?
    requires ValidPick(table, picked, BATCH_SIZE, now)
    ensures |picked| == BATCH_SIZE && picked !! taken && picked <= Ahead(start, t0, r) + late
  {
    assert Tracked(start, table, taken, t0, r);
    assert r in Ids(table, now) - picked;
    forall p | p in picked ensures p !in taken && p in Ahead(start, t0, r) + late {
      assert p in Ids(table, now);
      assert table[p].createdAt <= table[r].createdAt;
      if p in start {
        assert Tracked(start, table, taken, t0, p);
      } else {
        assert Followed(table, taken, late, start[r].createdAt, t0, p);
      }
    }
  }

  lemma WaitingStep(start: Table, table: Table, taken: set<string>, late: set<string>, rivals: set<string>,
                    t0: int, r: string, event: Event)
    requires r in Ids(start, t0) && Consistent(start, table, taken, late, start[r].createdAt, t0)
    requires t0 <= event.now <= t0 + LEASE && Legal(table, event) && Ahead(start, t0, r) + late <= rivals
    requires r !in taken + PickedBy(event)
    requires r in After(table, event) && After(table, event)[r].publishedAt.None?
    ensures r in table && table[r].publishedAt.None?
    ensures |(taken + PickedBy(event)) * rivals| == |taken * rivals| + if event.change.Poll? then BATCH_SIZE else 0
  {
    assert Tracked(start, table, taken, t0, r);
    StillWaiting(table, event, r);
    if event.change.Poll? {
      PollTakesCompetitors(start, table, taken, late, t0, r, event.change.picked, event.now);
      AddDisjoint(taken, event.change.picked, rivals);
    } else {
      assert taken + PickedBy(event) == taken;
    }
  }

  ghost predicate Waits(start: Table, events: seq<Event>, r: string, i: nat)
    requires i <= |events|
  {
    && r !in Taken(events, i)
    && r in TableAt(start, events, i) && TableAt(start, events, i)[r].publishedAt.None?
  }

  /** How many of the rows ahead of `r` the first `i` events have taken. */
  function Progress(start: Table, events: seq<Event>, t0: int, r: string, i: nat): nat
    requires i <= |events| && r in start
  {
    |Taken(events, i) * Rivals(start, events, t0, r)|
  }

  lemma WaitedBefore(start: Table, events: seq<Event>, t0: int, r: string, i: nat)
    requires Period(start, events, t0) && 1 <= i <= |events|
    requires r in Ids(start, t0) && Waits(start, events, r, i)
    ensures Waits(start, events, r, i - 1)
    ensures Progress(start, events, t0, r, i)
         == Progress(start, events, t0, r, i - 1) + if events[i - 1].change.Poll? then BATCH_SIZE else 0
  {
    var age := start[r].createdAt;
    AlwaysConsistent(start, events, age, t0, i - 1);
    assert InPeriod(start, events, t0, i - 1);
    LateGrows(events, age, i - 1, |events|);
    WaitingStep(start, TableAt(start, events, i - 1), Taken(events, i - 1), Late(events, age, i - 1),
                Rivals(start, events, t0, r), t0, r, events[i - 1]);
  }

  lemma {:induction false} LateGrows(events: seq<Event>, age: int, i: nat, j: nat)
    requires i <= j <= |events|
    ensures Late(events, age, i) <= Late(events, age, j)
    decreases j
  {
    if i < j {
      LateGrows(events, age, i, j - 1);
    }
  }

  lemma {:induction false} WaitingMeansFullBatches(start: Table, events: seq<Event>, t0: int, r: string, i: nat)
    requires Period(start, events, t0) && i <= |events|
    requires r in Ids(start, t0) && Waits(start, events, r, i)
    ensures Progress(start, events, t0, r, i) >= BATCH_SIZE * Polls(events, i)
  {
    if i > 0 {
      WaitedBefore(start, events, t0, r, i);
      WaitingMeansFullBatches(start, events, t0, r, i - 1);
    }
  }

  /** Nothing unpublishes a row. */
  lemma StillWaiting(table: Table, event: Event, r: string)
    requires Legal(table, event) && r in table && After(table, event)[r].publishedAt.None?
    ensures table[r].publishedAt.None?
  {
  }

  ghost predicate Claimed(start: Table, events: seq<Event>, r: string) {
    r in Taken(events, |events|) || IsMarked(start, events, r)
  }

  ghost predicate IsMarked(start: Table, events: seq<Event>, r: string) {
    var table := TableAt(start, events, |events|);
    r in table && table[r].publishedAt.Some?
  }

  /** After as many polls as the rows ahead of it fill batches, a row that was claimable at the
      start has been claimed, or marked by the holder of an older claim, even if no publish of
      the period succeeds and other rows keep arriving. */
  lemma EveryRowIsClaimed(start: Table, events: seq<Event>, t0: int, r: string)
    requires Period(start, events, t0) && r in Ids(start, t0)
    requires BATCH_SIZE * Polls(events, |events|) >= |Rivals(start, events, t0, r)|
    ensures Claimed(start, events, r)
  {
    var n := |events|;
    AlwaysConsistent(start, events, start[r].createdAt, t0, n);
    assert Tracked(start, TableAt(start, events, n), Taken(events, n), t0, r);
    if !Claimed(start, events, r) {
      WaitingMeansFullBatches(start, events, t0, r, n);
      var c := Rivals(start, events, t0, r);
      assert r in c;
      SubsetSize(Taken(events, n) * c, c - {r});
    }
  }

  // ----- if all goes well

  /** Every claim of the period is followed by its mark. */
  ghost predicate ClaimsAreMarked(events: seq<Event>) {
    forall i, r :: 0 <= i < |events| && r in PickedBy(events[i]) ==> MarkFollows(events, i, r)
  }

  ghost predicate MarkFollows(events: seq<Event>, i: nat, r: string) {
    exists j :: i < j < |events| && events[j].change == Mark(r)
  }

  lemma {:induction false} PublishedStays(start: Table, events: seq<Event>, t0: int, r: string, i: nat, j: nat)
    requires Period(start, events, t0) && i <= j <= |events|
    requires r in TableAt(start, events, i) && TableAt(start, events, i)[r].publishedAt.Some?
    ensures r in TableAt(start, events, j) && TableAt(start, events, j)[r].publishedAt.Some?
    decreases j
  {
    if i < j {
      PublishedStays(start, events, t0, r, i, j - 1);
      assert InPeriod(start, events, t0, j - 1);
    }
  }

  lemma {:induction false} TakenByPoll(events: seq<Event>, i: nat, r: string) returns (k: nat)
    requires i <= |events| && r in Taken(events, i)
    ensures k < i && r in PickedBy(events[k])
  {
    if r in PickedBy(events[i - 1]) {
      k := i - 1;
    } else {
      k := TakenByPoll(events, i - 1, r);
    }
  }

  /** If moreover every claim of the period is published and marked, every row that was
      claimable at the start ends marked. */
  lemma EveryRowEndsMarked(start: Table, events: seq<Event>, t0: int, r: string)
    requires Period(start, events, t0) && r in Ids(start, t0) && ClaimsAreMarked(events)
    requires BATCH_SIZE * Polls(events, |events|) >= |Rivals(start, events, t0, r)|
    ensures IsMarked(start, events, r)
  {
    EveryRowIsClaimed(start, events, t0, r);
    if r in Taken(events, |events|) {
      var i := TakenByPoll(events, |events|, r);
      assert MarkFollows(events, i, r);
      var j :| i < j < |events| && events[j].change == Mark(r);
      AlwaysConsistent(start, events, start[r].createdAt, t0, j);
      assert Tracked(start, TableAt(start, events, j), Taken(events, j), t0, r);
      PublishedStays(start, events, t0, r, j + 1, |events|);
    }
  }

  // ----- how many polls it takes, exactly

  /** The clock does not run backwards. */
  ghost predicate InOrder(events: seq<Event>) {
    forall i :: 0 < i < |events| ==> events[i - 1].now <= events[i].now
  }

  /** A period with at least `p` polls and at most `late` arrivals of rows no younger than `r`. */
  ghost predicate Sample(start: Table, events: seq<Event>, t0: int, r: string, p: nat, late: nat)
    requires r in start
  {
    && Period(start, events, t0) && InOrder(events) && Polls(events, |events|) >= p
    && |Late(events, start[r].createdAt, |events|)| <= late
  }

  /** `p` polls are enough for `r`, whatever else happens in such a period. */
  ghost predicate Suffices(start: Table, t0: int, r: string, p: nat, late: nat)
    requires r in start
  {
    forall events :: Sample(start, events, t0, r, p, late) ==> Claimed(start, events, r)
  }

  /** The same, for being marked in periods in which every claim is. */
  ghost predicate SufficesToMark(start: Table, t0: int, r: string, p: nat, late: nat)
    requires r in start
  {
    forall events :: Sample(start, events, t0, r, p, late) && ClaimsAreMarked(events) ==> IsMarked(start, events, r)
  }

  lemma {:induction false} Prefixes(start: Table, events: seq<Event>, event: Event, age: int, i: nat)
    requires i <= |events|
    ensures TableAt(start, events + [event], i) == TableAt(start, events, i)
    ensures Taken(events + [event], i) == Taken(events, i) && Polls(events + [event], i) == Polls(events, i)
    ensures Late(events + [event], age, i) == Late(events, age, i)
  {
    if i > 0 {
      Prefixes(start, events, event, age, i - 1);
    }
  }

  lemma PrefixInPeriod(start: Table, events: seq<Event>, t0: int, event: Event, i: nat)
    requires i < |events| && InPeriod(start, events, t0, i)
    ensures InPeriod(start, events + [event], t0, i)
  {
    Prefixes(start, events, event, 0, i);
  }

  lemma LastInPeriod(start: Table, events: seq<Event>, t0: int, event: Event)
    requires t0 <= event.now <= t0 + LEASE && Legal(TableAt(start, events, |events|), event)
    ensures InPeriod(start, events + [event], t0, |events|)
  {
    Prefixes(start, events, event, 0, |events|);
  }

  /** One more event. */
  lemma PeriodGrows(start: Table, events: seq<Event>, t0: int, event: Event, age: int)
    requires Period(start, events, t0) && t0 <= event.now <= t0 + LEASE
    requires Legal(TableAt(start, events, |events|), event)
    ensures Period(start, events + [event], t0)
    ensures TableAt(start, events + [event], |events| + 1) == After(TableAt(start, events, |events|), event)
    ensures Taken(events + [event], |events| + 1) == Taken(events, |events|) + PickedBy(event)
    ensures Polls(events + [event], |events| + 1) == Polls(events, |events|) + if event.change.Poll? then 1 else 0
    ensures Late(events + [event], age, |events| + 1) == Late(events, age, |events|) + LateBy(event, age)
  {
    forall i | 0 <= i < |events + [event]| ensures InPeriod(start, events + [event], t0, i) {
      if i < |events| {
        PrefixInPeriod(start, events, t0, event, i);
      } else {
        LastInPeriod(start, events, t0, event);
      }
    }
    Prefixes(start, events, event, age, |events|);
  }

  // ----- rows that arrive

  function Name(k: nat): (name: string)
    ensures |name| == k
  {
    seq(k, _ => 'x')
  }

  lemma {:induction false} Longest(names: set<string>) returns (n: nat)
    ensures forall name :: name in names ==> |name| <= n
    decreases |names|
  {
    if names == {} {
      n := 0;
    } else {
      var name :| name in names;
      n := Longest(names - {name});
      if |name| > n {
        n := |name|;
      }
    }
  }

  function EventIds(table: Table): set<string> {
    set r | r in table :: EventIdOf(table[r].payload)
  }

  /** An arrival of a row created at `age`, with a new id and a new event. */
  lemma NewArrival(table: Table, age: int, now: int) returns (event: Event)
    ensures Legal(table, event) && event.now == now && event.change.Arrive? && event.change.row.createdAt == age
  {
    var n := Longest(table.Keys + EventIds(table));
    var name := Name(n + 1);
    event := Event(Arrive(name, Row(UrlDeleted(name, "", "", ""), age, None, None)), now);
    assert name !in table.Keys + EventIds(table);
  }

  /** What arrivals alone make of `start`: one more row ahead of `r` with each. */
  ghost predicate Crowded(start: Table, events: seq<Event>, t0: int, r: string, late: nat)
    requires r in start
  {
    var n, age := |events|, start[r].createdAt;
    var table := TableAt(start, events, n);
    && Period(start, events, t0) && Polls(events, n) == 0 && Taken(events, n) == {}
    && AllLast(events, t0) && |Late(events, age, n)| <= late
    && r in table && table[r] == start[r] && |Ahead(table, t0, r)| == |Ahead(start, t0, r)| + late
  }

  lemma OneMoreAhead(table: Table, id: string, row: Row, t0: int, r: string)
    requires r in table && id !in table && row.createdAt == table[r].createdAt
    requires row.publishedAt.None? && row.lockedUntil.None?
    ensures |Ahead(table[id := row], t0, r)| == |Ahead(table, t0, r)| + 1
  {
    assert Ahead(table[id := row], t0, r) == Ahead(table, t0, r) + {id};
  }

  lemma {:induction false} AddArrivals(start: Table, t0: int, r: string, late: nat) returns (events: seq<Event>)
    requires r in start
    ensures Crowded(start, events, t0, r, late)
  {
    var age := start[r].createdAt;
    if late == 0 {
      events := [];
    } else {
      var fewer := AddArrivals(start, t0, r, late - 1);
      var table := TableAt(start, fewer, |fewer|);
      var event := NewArrival(table, age, t0 + LEASE);
      PeriodGrows(start, fewer, t0, event, age);
      OneMoreAhead(table, event.change.id, event.change.row, t0, r);
      events := fewer + [event];
    }
  }

  // ----- polls that pass a row over

  lemma {:induction false} PickOldest(table: Table, ids: set<string>, n: nat) returns (picked: set<string>)
    requires ids <= table.Keys && n <= |ids|
    ensures picked <= ids && |picked| == n && NoneOlder(table, picked, ids - picked)
  {
    if n == 0 {
      picked := {};
    } else {
      var fewer := PickOldest(table, ids, n - 1);
      var left := ids - fewer;
      assert left != {} by {
        assert left == {} ==> ids == fewer;
      }
      OldestExists(table, left);
      var id :| Oldest(table, left, id);
      TakeOldest(table, fewer, left, id);
      picked := fewer + {id};
      assert ids - picked == left - {id};
    }
  }

  /** A batch of rows ahead of `r` other than `r` itself is a valid pick at the end of the
      period, of the rows not yet taken. */
  lemma BatchAhead(start: Table, t0: int, r: string, taken: set<string>) returns (picked: set<string>)
    requires r in Ids(start, t0) && taken <= Ahead(start, t0, r) - {r}
    requires |taken| + BATCH_SIZE < |Ahead(start, t0, r)|
    ensures picked <= Ahead(start, t0, r) - {r} - taken && |picked| == BATCH_SIZE
    ensures ValidPick(Lease(start, taken, t0 + LEASE), picked, BATCH_SIZE, t0 + LEASE)
  {
    var now, ids := t0 + LEASE, Ahead(start, t0, r) - {r} - taken;
    assert |ids| == |Ahead(start, t0, r)| - 1 - |taken|;
    picked := PickOldest(start, ids, BATCH_SIZE);
    var table := Lease(start, taken, now);
    assert Ids(table, now) == Competing(start, t0) - taken;
    forall c, d | c in picked && d in Ids(table, now) - picked ensures table[c].createdAt <= table[d].createdAt {
      assert d in ids ==> start[c].createdAt <= start[d].createdAt;
    }
  }

  lemma LeaseTwice(start: Table, a: set<string>, b: set<string>, now: int)
    ensures Lease(Lease(start, a, now), b, now) == Lease(start, a + b, now)
  {
  }

  /** `events` is `arrivals` followed by `p` polls that all pass `r` over. */
  ghost predicate Starved(start: Table, arrivals: seq<Event>, events: seq<Event>, t0: int, r: string, p: nat)
    requires r in start
  {
    && Period(start, events, t0) && Polls(events, |events|) == p && AllLast(events, t0)
    && Late(events, start[r].createdAt, |events|) == Late(arrivals, start[r].createdAt, |arrivals|)
    && PassedOver(TableAt(start, arrivals, |arrivals|), Taken(events, |events|), TableAt(start, events, |events|), t0,
                  r, p)
  }

  /** All at the end of the period. */
  ghost predicate AllLast(events: seq<Event>, t0: int) {
    forall k :: 0 <= k < |events| ==> events[k].now == t0 + LEASE
  }

  /** `p` batches of rows ahead of `r` have been leased, and nothing else. */
  ghost predicate PassedOver(table: Table, taken: set<string>, after: Table, t0: int, r: string, p: nat) {
    && r in table && taken <= Ahead(table, t0, r) - {r} && |taken| == BATCH_SIZE * p
    && after == Lease(table, taken, t0 + LEASE)
  }

  lemma PassedAgain(table: Table, taken: set<string>, after: Table, t0: int, r: string, p: nat, picked: set<string>)
    requires PassedOver(table, taken, after, t0, r, p)
    requires picked <= Ahead(table, t0, r) - {r} - taken && |picked| == BATCH_SIZE
    ensures PassedOver(table, taken + picked, Lease(after, picked, t0 + LEASE), t0, r, p + 1)
  {
    LeaseTwice(table, taken, picked, t0 + LEASE);
    assert |taken + picked| == |taken| + |picked|;
  }

  /** While fewer rows than those ahead fit the batches, polls at the end of the period can all
      pass `r` over. */
  lemma {:induction false} Starve(start: Table, arrivals: seq<Event>, t0: int, r: string, late: nat, p: nat)
    returns (events: seq<Event>)
    requires r in Ids(start, t0) && Crowded(start, arrivals, t0, r, late)
    requires BATCH_SIZE * p < |Ahead(start, t0, r)| + late
    ensures Starved(start, arrivals, events, t0, r, p)
  {
    var table := TableAt(start, arrivals, |arrivals|);
    if p == 0 {
      events := arrivals;
      assert Lease(table, {}, t0 + LEASE) == table;
    } else {
      var fewer := Starve(start, arrivals, t0, r, late, p - 1);
      var taken := Taken(fewer, |fewer|);
      var picked := BatchAhead(table, t0, r, taken);
      StarveOnce(start, arrivals, fewer, t0, r, p, picked);
      events := fewer + [Event(Poll(picked), t0 + LEASE)];
    }
  }

  lemma StarveOnce(start: Table, arrivals: seq<Event>, fewer: seq<Event>, t0: int, r: string, p: nat,
                   picked: set<string>)
    requires p >= 1 && r in start && Starved(start, arrivals, fewer, t0, r, p - 1) && |picked| == BATCH_SIZE
    requires picked <= Ahead(TableAt(start, arrivals, |arrivals|), t0, r) - {r} - Taken(fewer, |fewer|)
    requires ValidPick(TableAt(start, fewer, |fewer|), picked, BATCH_SIZE, t0 + LEASE)
    ensures Starved(start, arrivals, fewer + [Event(Poll(picked), t0 + LEASE)], t0, r, p)
  {
    var n := |fewer|;
    PollLast(start, fewer, t0, picked, start[r].createdAt);
    PassedAgain(TableAt(start, arrivals, |arrivals|), Taken(fewer, n), TableAt(start, fewer, n), t0, r, p - 1, picked);
  }

  lemma PollLast(start: Table, fewer: seq<Event>, t0: int, picked: set<string>, age: int)
    requires Period(start, fewer, t0) && AllLast(fewer, t0)
    requires ValidPick(TableAt(start, fewer, |fewer|), picked, BATCH_SIZE, t0 + LEASE)
    ensures var events, n := fewer + [Event(Poll(picked), t0 + LEASE)], |fewer|;
            && Period(start, events, t0) && AllLast(events, t0) && Polls(events, |events|) == Polls(fewer, n) + 1
            && Taken(events, |events|) == Taken(fewer, n) + picked && Late(events, age, |events|) == Late(fewer, age, n)
            && TableAt(start, events, |events|) == Lease(TableAt(start, fewer, n), picked, t0 + LEASE)
  {
    PeriodGrows(start, fewer, t0, Event(Poll(picked), t0 + LEASE), age);
    LastGrows(fewer, t0, Poll(picked));
    NothingLate(Late(fewer, age, |fewer|), Event(Poll(picked), t0 + LEASE), age);
  }

  lemma LastGrows(events: seq<Event>, t0: int, change: Change)
    requires AllLast(events, t0)
    ensures AllLast(events + [Event(change, t0 + LEASE)], t0)
    ensures |events + [Event(change, t0 + LEASE)]| == |events| + 1
  {
  }

  lemma NothingLate(late: set<string>, event: Event, age: int)
    requires !event.change.Arrive?
    ensures late + LateBy(event, age) == late
  {
  }

  /** `more` is `events` followed by marks, all of other rows than `r`. */
  ghost predicate MarksAfter(start: Table, events: seq<Event>, more: seq<Event>, t0: int, r: string, age: int) {
    && |events| <= |more| && more[..|events|] == events
    && Period(start, more, t0) && Waits(start, more, r, |more|) && Polls(more, |more|) == Polls(events, |events|)
    && Late(more, age, |more|) == Late(events, age, |events|)
    && forall k :: |events| <= k < |more| ==> more[k].change.Mark? && more[k].now == t0 + LEASE
  }

  ghost predicate MarkFrom(events: seq<Event>, n: nat, r: string) {
    exists j :: n <= j < |events| && events[j].change == Mark(r)
  }

  lemma MarkOneMore(start: Table, events: seq<Event>, less: seq<Event>, t0: int, r: string, age: int, c: string)
    requires MarksAfter(start, events, less, t0, r, age) && c != r
    ensures MarksAfter(start, events, less + [Event(Mark(c), t0 + LEASE)], t0, r, age)
  {
    var event := Event(Mark(c), t0 + LEASE);
    PeriodGrows(start, less, t0, event, age);
    assert (less + [event])[..|events|] == less[..|events|];
  }

  lemma MarkStays(events: seq<Event>, n: nat, r: string, event: Event)
    requires MarkFrom(events, n, r)
    ensures MarkFrom(events + [event], n, r)
  {
    var j :| n <= j < |events| && events[j].change == Mark(r);
    assert (events + [event])[j].change == Mark(r);
  }

  /** Marks of the rows in `todo`, appended. */
  lemma {:induction false} AddMarks(start: Table, events: seq<Event>, t0: int, r: string, age: int, todo: set<string>)
    returns (more: seq<Event>)
    requires Period(start, events, t0) && Waits(start, events, r, |events|) && r !in todo
    ensures MarksAfter(start, events, more, t0, r, age)
    ensures forall c :: c in todo ==> MarkFrom(more, |events|, c)
    decreases |todo|
  {
    if todo == {} {
      more := events;
    } else {
      var c :| c in todo;
      var less := AddMarks(start, events, t0, r, age, todo - {c});
      MarkOneMore(start, events, less, t0, r, age, c);
      more := less + [Event(Mark(c), t0 + LEASE)];
      forall d | d in todo ensures MarkFrom(more, |events|, d) {
        if d == c {
          assert more[|less|].change == Mark(d);
        } else {
          MarkStays(less, |events|, d, Event(Mark(c), t0 + LEASE));
        }
      }
    }
  }

  lemma {:induction false} PicksAreTaken(events: seq<Event>, i: nat, n: nat)
    requires i < n <= |events|
    ensures PickedBy(events[i]) <= Taken(events, n)
    decreases n
  {
    if i < n - 1 {
      PicksAreTaken(events, i, n - 1);
    }
  }

  /** A period in which every claim is marked and `r` is passed over. */
  lemma StarveAndMark(start: Table, t0: int, r: string, p: nat, late: nat) returns (events: seq<Event>)
    requires r in Ids(start, t0) && BATCH_SIZE * p < |Ahead(start, t0, r)| + late
    ensures Sample(start, events, t0, r, p, late) && ClaimsAreMarked(events) && !Claimed(start, events, r)
  {
    var arrivals := AddArrivals(start, t0, r, late);
    var polls := Starve(start, arrivals, t0, r, late, p);
    events := AddMarks(start, polls, t0, r, start[r].createdAt, Taken(polls, |polls|));
    forall k | 0 <= k < |events| ensures events[k].now == t0 + LEASE {
      assert k < |polls| ==> events[k] == events[..|polls|][k] == polls[k];
    }
    forall i, c | 0 <= i < |events| && c in PickedBy(events[i]) ensures MarkFollows(events, i, c) {
      assert i < |polls|;
      assert events[i] == events[..|polls|][i] == polls[i];
      PicksAreTaken(polls, i, |polls|);
      assert MarkFrom(events, |polls|, c);
      var j :| |polls| <= j < |events| && events[j].change == Mark(c);
      assert i < j;
    }
  }

  /** `p` polls are enough for a row that was claimable at the start exactly when the rows
      ahead of it, those whose lease lapses and those that arrive late included, fit `p`
      batches. */
  lemma PollsNeeded(start: Table, t0: int, r: string, p: nat, late: nat)
    requires r in Ids(start, t0)
    ensures Suffices(start, t0, r, p, late) <==> BATCH_SIZE * p >= |Ahead(start, t0, r)| + late
    ensures SufficesToMark(start, t0, r, p, late) <==> BATCH_SIZE * p >= |Ahead(start, t0, r)| + late
  {
    if BATCH_SIZE * p >= |Ahead(start, t0, r)| + late {
      forall events | Sample(start, events, t0, r, p, late)
        ensures Claimed(start, events, r) && (ClaimsAreMarked(events) ==> IsMarked(start, events, r))
      {
        EveryRowIsClaimed(start, events, t0, r);
        if ClaimsAreMarked(events) {
          EveryRowEndsMarked(start, events, t0, r);
        }
      }
    } else {
      var events := StarveAndMark(start, t0, r, p, late);
      assert !IsMarked(start, events, r);
    }
  }

  // ----- ceil(n/50) polls for n claimable rows

  /** How many batches `n` rows fill. */
  function Batches(n: nat): nat {
    (n + BATCH_SIZE - 1) / BATCH_SIZE
  }

  ghost predicate NoLeases(start: Table, t0: int) {
    forall r :: r in start && start[r].publishedAt.None? && start[r].lockedUntil.Some? ==>
      start[r].lockedUntil.value < t0
  }

  /** With no lease outstanding, the claimable rows are all the competitors there are, and as
      many polls as they and the late arrivals fill batches are enough for each of them. */
  lemma NoLeasesNoCompetitors(start: Table, t0: int, r: string, late: nat)
    requires NoLeases(start, t0) && r in Ids(start, t0)
    ensures Competing(start, t0) == Ids(start, t0)
    ensures Suffices(start, t0, r, Batches(|Ids(start, t0)| + late), late)
    ensures SufficesToMark(start, t0, r, Batches(|Ids(start, t0)| + late), late)
  {
    SubsetSize(Ahead(start, t0, r), Ids(start, t0));
    PollsNeeded(start, t0, r, Batches(|Ids(start, t0)| + late), late);
  }

  function Names(n: nat): set<string> {
    if n == 0 then {} else Names(n - 1) + {Name(n)}
  }

  lemma {:induction false} NamesAreMany(n: nat)
    ensures |Names(n)| == n && forall name :: name in Names(n) ==> 1 <= |name| <= n
  {
    if n > 0 {
      NamesAreMany(n - 1);
      assert Name(n) !in Names(n - 1);
    }
  }

  /** One claimable row, and `n` older rows whose lease is about to lapse, each with an event of
      its own. */
  function Crowd(t0: int, n: nat): Table {
    map id | id in Names(n) + {""} ::
      Row(UrlDeleted("event " + id, "", "", ""), if id == "" then 1 else 0, if id == "" then None else Some(t0), None)
  }

  lemma CrowdEvents(t0: int, n: nat, a: string, b: string)
    requires a in Crowd(t0, n) && b in Crowd(t0, n)
    requires EventIdOf(Crowd(t0, n)[a].payload) == EventIdOf(Crowd(t0, n)[b].payload)
    ensures a == b
  {
    assert ("event " + a)[6..] == a && ("event " + b)[6..] == b;
  }

  lemma CrowdFacts(t0: int, n: nat)
    ensures var start, picked := Crowd(t0, n), Names(n);
            && Ids(start, t0) == {""} && Ids(start, t0 + 1) == picked + {""}
            && "" !in picked && |picked| == n && NoneOlder(start, picked, {""})
  {
    NamesAreMany(n);
  }

  /** The claimable rows at the start do not count what a row may have to wait for: the only
      claimable row is passed over by one poll, which takes a batch of older rows. */
  lemma ClaimableRowsDoNotCount(t0: int)
    ensures var start, events := Crowd(t0, BATCH_SIZE), [Event(Poll(Names(BATCH_SIZE)), t0 + 1)];
            && Ids(start, t0) == {""} && Batches(|Ids(start, t0)|) == 1
            && Period(start, events, t0) && Polls(events, 1) == 1
            && !Claimed(start, events, "")
  {
    CrowdFacts(t0, BATCH_SIZE);
    OnePoll(Crowd(t0, BATCH_SIZE), t0, Names(BATCH_SIZE), t0 + 1, "");
  }

  /** A poll that takes all claimable rows but one, the youngest. */
  lemma OnePoll(start: Table, t0: int, picked: set<string>, now: int, r: string)
    requires t0 <= now <= t0 + LEASE && |picked| == BATCH_SIZE && r !in picked
    requires Ids(start, now) == picked + {r} && NoneOlder(start, picked, {r})
    ensures var events := [Event(Poll(picked), now)];
            Period(start, events, t0) && Polls(events, 1) == 1 && !Claimed(start, events, r)
  {
    var event := Event(Poll(picked), now);
    assert r in Ids(start, now) && Ids(start, now) - picked == {r};
    PeriodGrows(start, [], t0, event, 0);
    assert [] + [event] == [event];
  }
}
