/** Redirects through the cache.  Cache writes run on goroutines of their own and may land
    arbitrarily late; deletes may fail; Redis may drop an entry at any time, or, for a lifetime
    of 0, never. */
module UrlCache {
  import opened Options
  import opened UrlService

  /** A redirect: started, missed the cache, holding a cache hit, holding a row, or answered. */
  datatype Phase = Started | Missed | Hit(cached: CachedUrl) | Loaded(row: UrlRow) | Done

  datatype Reading = Reading(code: string, phase: Phase)

  datatype Write = Write(code: string, cached: CachedUrl)

  datatype Reply = Reply(code: string, at: int, answer: Redirect)

  /** `readings` lists every redirect so far, `replies` is the history of answers. */
  datatype Sys = Sys(now: int, urls: map<string, UrlRow>, cache: map<string, CachedUrl>,
                     writes: multiset<Write>, readings: seq<Reading>, replies: seq<Reply>)

  datatype Action =
    | Tick(elapsed: nat)
    | Create(row: UrlRow, announced: bool)     // a shorten commit; `announced`: it reported success
    | Disable(code: string)                    // a deactivation commit
    | Forget(code: string)                     // a successful cache delete, or an eviction
    | Land(write: Write, ok: bool)             // a cache write runs
    | Begin(code: string)
    | Lookup(id: nat, hit: bool)
    | Load(id: nat)                            // the row is read
    | Reject(id: nat, read: bool)              // the database read fails, or finds no row
    | Finish(id: nat)                          // the checks and the answer

  predicate Enabled(s: Sys, a: Action) {
    match a
    case Tick(_) => true
    case Create(row, _) => row.shortCode !in s.urls && row.active
    case Disable(code) => code in s.urls && s.urls[code].active
    case Forget(_) => true
    case Land(write, _) => write in s.writes
    case Begin(_) => true
    case Lookup(id, hit) =>
      id < |s.readings| && s.readings[id].phase.Started? && (hit ==> s.readings[id].code in s.cache)
    case Load(id) => id < |s.readings| && s.readings[id].phase.Missed? && s.readings[id].code in s.urls
    case Reject(id, read) =>
      id < |s.readings| && s.readings[id].phase.Missed? && (read ==> s.readings[id].code !in s.urls)
    case Finish(id) => id < |s.readings| && (s.readings[id].phase.Hit? || s.readings[id].phase.Loaded?)
  }

  function Held(phase: Phase): CachedUrl
    requires phase.Hit? || phase.Loaded?
  {
    if phase.Hit? then phase.cached else CachedFrom(phase.row)
  }

  function Apply(s: Sys, a: Action): Sys
    requires Enabled(s, a)
  {
    match a
    case Tick(elapsed) => s.(now := s.now + elapsed)
    case Create(row, announced) =>
      s.(urls := s.urls[row.shortCode := row],
         writes := s.writes + if announced then multiset{Write(row.shortCode, CachedFrom(row))} else multiset{})
    case Disable(code) => s.(urls := s.urls[code := s.urls[code].(active := false)])
    case Forget(code) => s.(cache := s.cache - {code})
    case Land(write, ok) =>
      s.(writes := s.writes - multiset{write}, cache := if ok then s.cache[write.code := write.cached] else s.cache)
    case Begin(code) => s.(readings := s.readings + [Reading(code, Started)])
    case Lookup(id, hit) =>
      var r := s.readings[id];
      s.(readings := s.readings[id := r.(phase := if hit then Hit(s.cache[r.code]) else Missed)])
    case Load(id) =>
      var r := s.readings[id];
      s.(readings := s.readings[id := r.(phase := Loaded(s.urls[r.code]))])
    case Reject(id, read) =>
      var r := s.readings[id];
      s.(readings := s.readings[id := r.(phase := Done)],
         replies := s.replies + [Reply(r.code, s.now, if read then Crash else RedirectError)])
    case Finish(id) =>
      var r := s.readings[id];
      var answer := Check(Held(r.phase), s.now);
      s.(readings := s.readings[id := r.(phase := Done)],
         replies := s.replies + [Reply(r.code, s.now, answer)],
         writes := s.writes + if r.phase.Loaded? && answer.Found? then multiset{Write(r.code, Held(r.phase))}
                              else multiset{})
  }

  const START: Sys := Sys(0, map[], map[], multiset{}, [], [])

  predicate IsRunFrom(s: Sys, actions: seq<Action>)
    decreases |actions|
  {
    actions == [] || (Enabled(s, actions[0]) && IsRunFrom(Apply(s, actions[0]), actions[1..]))
  }

  function Reach(s: Sys, actions: seq<Action>): Sys
    requires IsRunFrom(s, actions)
    decreases |actions|
  {
    if actions == [] then s else Reach(Apply(s, actions[0]), actions[1..])
  }

  // ----- one redirect with nothing in between

  /** The steps of one redirect that is read from the cache (`hit`) or the database. */
  function Alone(s: Sys, code: string, hit: bool, dbOk: bool): seq<Action> {
    [Begin(code)] + ([Lookup(|s.readings|, hit)] + Rest(s, code, hit, dbOk))
  }

  function Rest(s: Sys, code: string, hit: bool, dbOk: bool): seq<Action> {
    var id := |s.readings|;
    if hit then [Finish(id)] + []
    else if dbOk && code in s.urls then [Load(id)] + ([Finish(id)] + [])
    else [Reject(id, dbOk)] + []
  }

  /** A redirect started in `s` that has got to `phase`, nothing else having happened. */
  function With(s: Sys, code: string, phase: Phase): Sys {
    s.(readings := s.readings + [Reading(code, phase)])
  }

  function Replied(s: Sys, code: string, answer: Redirect, write: Option<CachedUrl>): Sys {
    With(s, code, Done).(replies := s.replies + [Reply(code, s.now, answer)],
                         writes := s.writes + if write.Some? then multiset{Write(code, write.value)} else multiset{})
  }

  lemma AloneLooksUp(s: Sys, code: string, hit: bool)
    requires hit ==> code in s.cache
    ensures var t, a := With(s, code, Started), Lookup(|s.readings|, hit);
            Enabled(t, a) && Apply(t, a) == With(s, code, LookedUp(s, code, hit))
  {
  }

  lemma AloneLoads(s: Sys, code: string)
    requires code in s.urls
    ensures var t, a := With(s, code, Missed), Load(|s.readings|);
            Enabled(t, a) && Apply(t, a) == With(s, code, Loaded(s.urls[code]))
  {
  }

  lemma AloneRejects(s: Sys, code: string, read: bool)
    requires read ==> code !in s.urls
    ensures var t, a := With(s, code, Missed), Reject(|s.readings|, read);
            Enabled(t, a) && Apply(t, a) == Replied(s, code, if read then Crash else RedirectError, None)
  {
  }

  lemma AloneFinishes(s: Sys, code: string, phase: Phase)
    requires phase.Hit? || phase.Loaded?
    ensures var t, a := With(s, code, phase), Finish(|s.readings|);
            var answer := Check(Held(phase), s.now);
            && Enabled(t, a)
            && Apply(t, a) == Replied(s, code, answer,
                                 if phase.Loaded? && answer.Found? then Some(Held(phase)) else None)
  {
  }

  lemma RunCons(s: Sys, a: Action, t: Sys, rest: seq<Action>, last: Sys)
    requires Enabled(s, a) && Apply(s, a) == t && IsRunFrom(t, rest) && Reach(t, rest) == last
    ensures IsRunFrom(s, [a] + rest) && Reach(s, [a] + rest) == last
  {
    assert ([a] + rest)[1..] == rest;
  }

  function LookedUp(s: Sys, code: string, hit: bool): Phase
    requires hit ==> code in s.cache
  {
    if hit then Hit(s.cache[code]) else Missed
  }

  /** The state after an undisturbed redirect, as `URLService.RedirectToURL` has it. */
  function Redirected(s: Sys, code: string, hit: bool, dbOk: bool): Sys
    requires hit ==> code in s.cache
  {
    var answer := RedirectAnswer(if hit then Some(s.cache[code]) else None, dbOk, RowOf(s.urls, code), s.now);
    Replied(s, code, answer, if !hit && answer.Found? then Some(CachedFrom(s.urls[code])) else None)
  }

  lemma RestRefines(s: Sys, code: string, hit: bool, dbOk: bool)
    requires hit ==> code in s.cache
    ensures var u, rest := With(s, code, LookedUp(s, code, hit)), Rest(s, code, hit, dbOk);
            IsRunFrom(u, rest) && Reach(u, rest) == Redirected(s, code, hit, dbOk)
  {
    var id, u, last := |s.readings|, With(s, code, LookedUp(s, code, hit)), Redirected(s, code, hit, dbOk);
    if hit {
      AloneFinishes(s, code, Hit(s.cache[code]));
      RunCons(u, Finish(id), last, [], last);
    } else if dbOk && code in s.urls {
      var v := With(s, code, Loaded(s.urls[code]));
      AloneLoads(s, code);
      AloneFinishes(s, code, Loaded(s.urls[code]));
      RunCons(v, Finish(id), last, [], last);
      RunCons(u, Load(id), v, [Finish(id)] + [], last);
    } else {
      AloneRejects(s, code, dbOk);
      RunCons(u, Reject(id, dbOk), last, [], last);
    }
  }

  /** Undisturbed, the steps of a redirect give the answer and schedule the cache write that
      the object's `RedirectToURL` gives and schedules. */
  lemma AloneRefines(s: Sys, code: string, hit: bool, dbOk: bool)
    requires hit ==> code in s.cache
    ensures IsRunFrom(s, Alone(s, code, hit, dbOk))
    ensures Reach(s, Alone(s, code, hit, dbOk)) == Redirected(s, code, hit, dbOk)
  {
    var id, last, rest := |s.readings|, Redirected(s, code, hit, dbOk), Rest(s, code, hit, dbOk);
    var t, u := With(s, code, Started), With(s, code, LookedUp(s, code, hit));
    RestRefines(s, code, hit, dbOk);
    AloneLooksUp(s, code, hit);
    RunCons(t, Lookup(id, hit), u, rest, last);
    RunCons(s, Begin(code), t, [Lookup(id, hit)] + rest, last);
  }

  // ----- agreement up to the active bit

  /** A copy agrees with the row for its code in everything, and says that it is active. */
  predicate Agrees(s: Sys, code: string, c: CachedUrl) {
    && code in s.urls && c.active
    && c.originalUrl == s.urls[code].originalUrl && c.userId == s.urls[code].userId
    && c.userEmail == s.urls[code].userEmail && c.expiresAt == s.urls[code].expiresAt
  }

  predicate ReadingOk(s: Sys, r: Reading) {
    match r.phase
    case Hit(c) => Agrees(s, r.code, c)
    case Loaded(row) => Agrees(s, r.code, CachedFrom(row).(active := true))
    case _ => true
  }

  /** The target is the row's. */
  predicate TargetsRow(target: Target, row: UrlRow) {
    target.originalUrl == row.originalUrl && target.userId == row.userId && target.userEmail == row.userEmail
  }

  /** No later than the expiry, if there is one. */
  predicate InTime(expiresAt: Option<int>, at: int) {
    expiresAt.Some? ==> at <= expiresAt.value
  }

  predicate ReplyOk(s: Sys, reply: Reply) {
    && reply.at <= s.now && reply.answer != NotFound
    && (reply.answer.Found? ==>
          && reply.code in s.urls && TargetsRow(reply.answer.target, s.urls[reply.code])
          && InTime(s.urls[reply.code].expiresAt, reply.at))
    && (reply.code !in s.urls ==> reply.answer.Crash? || reply.answer.RedirectError?)
  }

  /** Cache, writes under way, redirects under way and every answer given so far agree with the
      database on everything but the active bit; no answer came after the expiry. */
  ghost predicate Inv(s: Sys) {
    && (forall code :: code in s.urls ==> s.urls[code].shortCode == code)
    && (forall code :: code in s.cache ==> Agrees(s, code, s.cache[code]))
    && (forall w :: w in s.writes ==> Agrees(s, w.code, w.cached))
    && (forall id :: 0 <= id < |s.readings| ==> ReadingOk(s, s.readings[id]))
    && (forall k :: 0 <= k < |s.replies| ==> ReplyOk(s, s.replies[k]))
  }

  /** The database changes by new codes and by clearing active bits only. */
  ghost predicate Extends(s: Sys, t: Sys) {
    forall code :: code in s.urls ==> code in t.urls && t.urls[code] == s.urls[code].(active := t.urls[code].active)
  }

  lemma StepExtends(s: Sys, a: Action)
    requires Enabled(s, a)
    ensures Extends(s, Apply(s, a)) && s.now <= Apply(s, a).now
  {
  }

  lemma CacheKept(s: Sys, a: Action)
    requires Inv(s) && Enabled(s, a)
    ensures var t := Apply(s, a); forall code :: code in t.cache ==> Agrees(t, code, t.cache[code])
  {
    StepExtends(s, a);
    var t := Apply(s, a);
    forall code | code in t.cache ensures Agrees(t, code, t.cache[code]) {
      if a.Land? && a.ok && code == a.write.code {
        assert Agrees(s, a.write.code, a.write.cached);
      } else {
        assert Agrees(s, code, s.cache[code]);
      }
    }
  }

  lemma WritesKept(s: Sys, a: Action)
    requires Inv(s) && Enabled(s, a)
    ensures var t := Apply(s, a); forall w :: w in t.writes ==> Agrees(t, w.code, w.cached)
  {
    StepExtends(s, a);
    var t := Apply(s, a);
    forall w | w in t.writes ensures Agrees(t, w.code, w.cached) {
      if w in s.writes {
        assert Agrees(s, w.code, w.cached);
      } else if a.Finish? {
        assert ReadingOk(s, s.readings[a.id]);
      }
    }
  }

  lemma ReadingsKept(s: Sys, a: Action)
    requires Inv(s) && Enabled(s, a)
    ensures var t := Apply(s, a); forall id :: 0 <= id < |t.readings| ==> ReadingOk(t, t.readings[id])
  {
    StepExtends(s, a);
    var t := Apply(s, a);
    forall id | 0 <= id < |t.readings| ensures ReadingOk(t, t.readings[id]) {
      if id < |s.readings| && t.readings[id] == s.readings[id] {
        assert ReadingOk(s, s.readings[id]);
        ReadingKept(s, t, s.readings[id]);
      }
    }
  }

  /** Agreement outlives any change of the database. */
  lemma ReadingKept(s: Sys, t: Sys, r: Reading)
    requires Extends(s, t) && ReadingOk(s, r)
    ensures ReadingOk(t, r)
  {
  }

  lemma ReplyKept(s: Sys, t: Sys, reply: Reply)
    requires Extends(s, t) && s.now <= t.now && ReplyOk(s, reply)
    ensures ReplyOk(t, reply)
  {
  }

  lemma RepliesKept(s: Sys, a: Action)
    requires Inv(s) && Enabled(s, a)
    ensures var t := Apply(s, a); forall k :: 0 <= k < |t.replies| ==> ReplyOk(t, t.replies[k])
  {
    StepExtends(s, a);
    var t := Apply(s, a);
    if a.Finish? {
      assert ReadingOk(s, s.readings[a.id]);
    }
    forall k | 0 <= k < |t.replies| ensures ReplyOk(t, t.replies[k]) {
      if k < |s.replies| {
        ReplyKept(s, t, s.replies[k]);
      }
    }
  }

  lemma StepKeeps(s: Sys, a: Action)
    requires Inv(s) && Enabled(s, a)
    ensures Inv(Apply(s, a))
  {
    CacheKept(s, a);
    WritesKept(s, a);
    ReadingsKept(s, a);
    RepliesKept(s, a);
  }

  lemma {:induction false} AlwaysInv(s: Sys, actions: seq<Action>)
    requires Inv(s) && IsRunFrom(s, actions)
    ensures Inv(Reach(s, actions))
    decreases |actions|
  {
    if actions != [] {
      StepKeeps(s, actions[0]);
      AlwaysInv(Apply(s, actions[0]), actions[1..]);
    }
  }

  /** In every run, every successful redirect gave the target of the one row with that code, at
      a time when the row had not expired, however stale the copy it was answered from. */
  lemma RedirectsRefineTheDatabase(actions: seq<Action>, k: nat)
    requires IsRunFrom(START, actions) && k < |Reach(START, actions).replies|
    requires Reach(START, actions).replies[k].answer.Found?
    ensures var s := Reach(START, actions);
            var reply := s.replies[k];
            && reply.code in s.urls && s.urls[reply.code].shortCode == reply.code
            && var row := s.urls[reply.code];
               && reply.answer.target.originalUrl == row.originalUrl
               && reply.answer.target.userId == row.userId && reply.answer.target.userEmail == row.userEmail
               && (row.expiresAt.Some? ==> reply.at <= row.expiresAt.value)
  {
    AlwaysInv(START, actions);
    assert ReplyOk(Reach(START, actions), Reach(START, actions).replies[k]);
  }

  /** A redirect that holds a copy, from the cache or the database, answers by its active bit
      and its expiry: gone, gone as expired exactly after the expiry, and otherwise found. */
  lemma HeldAnswers(s: Sys, id: nat)
    requires Enabled(s, Finish(id))
    ensures var t, c := Apply(s, Finish(id)), Held(s.readings[id].phase);
            && |t.replies| == |s.replies| + 1
            && var reply := t.replies[|s.replies|];
               && reply.code == s.readings[id].code && reply.at == s.now
               && (reply.answer.GoneDeactivated? <==> !c.active)
               && (reply.answer.GoneExpired? <==> c.active && c.expiresAt.Some? && s.now > c.expiresAt.value)
               && (reply.answer.Found? <==> c.active && (c.expiresAt.Some? ==> s.now <= c.expiresAt.value))
  {
  }

  /** No redirect is ever answered "not found": in every run, whatever was answered for a code
      that does not exist is a crash or a database error. */
  lemma MissingCodes(actions: seq<Action>, k: nat)
    requires IsRunFrom(START, actions) && k < |Reach(START, actions).replies|
    ensures var reply := Reach(START, actions).replies[k];
            && reply.answer != NotFound
            && (reply.code !in Reach(START, actions).urls ==> reply.answer.Crash? || reply.answer.RedirectError?)
  {
    AlwaysInv(START, actions);
    assert ReplyOk(Reach(START, actions), Reach(START, actions).replies[k]);
  }

  /** The first redirect of all, of any code, with a readable database: it crashes. */
  lemma MissingCodeCrashes(code: string)
    ensures var actions := Alone(START, code, false, true);
            IsRunFrom(START, actions) && Reach(START, actions).replies == [Reply(code, 0, Crash)]
  {
    AloneRefines(START, code, false, true);
  }

  ghost predicate ActiveAfter(s: Sys, actions: seq<Action>, code: string) {
    IsRunFrom(s, actions) && code in Reach(s, actions).urls && Reach(s, actions).urls[code].active
  }

  /** Every row, and so every row that a redirect was answered from, was active at some moment
      no later than now: after the first `i` steps. */
  lemma {:induction false} WasActive(s: Sys, actions: seq<Action>, code: string) returns (i: nat)
    requires IsRunFrom(s, actions) && code !in s.urls && code in Reach(s, actions).urls
    ensures i <= |actions| && ActiveAfter(s, actions[..i], code)
    decreases |actions|
  {
    var t, rest := Apply(s, actions[0]), actions[1..];
    if code in t.urls {
      i := 1;
      assert actions[..1] == [actions[0]] && [actions[0]][1..] == [];
      assert IsRunFrom(t, []) && Reach(t, []) == t;
    } else {
      var j := WasActive(t, rest, code);
      i := j + 1;
      assert actions[..i][1..] == rest[..j] && actions[..i][0] == actions[0];
    }
  }

  // ----- after a deactivation

  /** The row is inactive and no copy that says otherwise is cached, about to be written, or
      held by a redirect. */
  ghost predicate Quiet(s: Sys, code: string) {
    && code in s.urls && !s.urls[code].active
    && code !in s.cache
    && (forall w :: w in s.writes ==> w.code != code)
    && (forall id :: 0 <= id < |s.readings| && s.readings[id].code == code ==> !Stale(s.readings[id].phase))
  }

  predicate Stale(phase: Phase) {
    phase.Hit? || (phase.Loaded? && phase.row.active)
  }

  /** From the n-th answer on, the code is answered with "gone", or a database error, only. */
  ghost predicate RefusedSince(code: string, replies: seq<Reply>, n: nat) {
    forall k :: n <= k < |replies| && replies[k].code == code ==> Refusal(replies[k].answer)
  }

  predicate Refusal(answer: Redirect) {
    answer.GoneDeactivated? || answer.RedirectError?
  }

  ghost predicate ServedSince(code: string, replies: seq<Reply>, n: nat) {
    exists k :: n <= k < |replies| && replies[k].code == code && replies[k].answer.Found?
  }

  lemma QuietStep(s: Sys, a: Action, code: string)
    requires Quiet(s, code) && Enabled(s, a)
    ensures Quiet(Apply(s, a), code)
    ensures RefusedSince(code, Apply(s, a).replies, |s.replies|)
  {
    QuietReadings(s, a, code);
    QuietWrites(s, a, code);
    if a.Finish? {
      assert s.readings[a.id].code == code ==> !Stale(s.readings[a.id].phase);
    }
  }

  lemma QuietReadings(s: Sys, a: Action, code: string)
    requires Quiet(s, code) && Enabled(s, a)
    ensures var t := Apply(s, a);
            forall id :: 0 <= id < |t.readings| && t.readings[id].code == code ==> !Stale(t.readings[id].phase)
  {
    var t := Apply(s, a);
    forall id | 0 <= id < |t.readings| && t.readings[id].code == code ensures !Stale(t.readings[id].phase) {
      if id < |s.readings| {
        assert !Stale(s.readings[id].phase);
      }
    }
  }

  lemma QuietWrites(s: Sys, a: Action, code: string)
    requires Quiet(s, code) && Enabled(s, a)
    ensures forall w :: w in Apply(s, a).writes ==> w.code != code
  {
    if a.Finish? {
      assert s.readings[a.id].code == code ==> !Stale(s.readings[a.id].phase);
    }
  }

  lemma {:induction false} RepliesGrow(s: Sys, actions: seq<Action>)
    requires IsRunFrom(s, actions)
    ensures |s.replies| <= |Reach(s, actions).replies| && Reach(s, actions).replies[..|s.replies|] == s.replies
    decreases |actions|
  {
    if actions != [] {
      var t := Apply(s, actions[0]);
      RepliesGrow(t, actions[1..]);
      StepReplies(s, actions[0]);
      assert Reach(s, actions).replies[..|t.replies|][..|s.replies|] == Reach(s, actions).replies[..|s.replies|];
    }
  }

  /** Once a deactivated code is quiet, every later redirect for it is answered "gone", unless
      the database read fails. */
  lemma {:induction false} QuietForever(s: Sys, actions: seq<Action>, code: string)
    requires Quiet(s, code) && IsRunFrom(s, actions)
    ensures Quiet(Reach(s, actions), code)
    ensures RefusedSince(code, Reach(s, actions).replies, |s.replies|)
    decreases |actions|
  {
    if actions != [] {
      var t := Apply(s, actions[0]);
      QuietStep(s, actions[0], code);
      QuietForever(t, actions[1..], code);
      RepliesGrow(t, actions[1..]);
      StepReplies(s, actions[0]);
      StillRefused(code, t.replies, Reach(s, actions).replies, |s.replies|);
    }
  }

  lemma StepReplies(s: Sys, a: Action)
    requires Enabled(s, a)
    ensures |s.replies| <= |Apply(s, a).replies| && Apply(s, a).replies[..|s.replies|] == s.replies
  {
  }

  lemma StillRefused(code: string, mid: seq<Reply>, last: seq<Reply>, n: nat)
    requires n <= |mid| <= |last| && last[..|mid|] == mid
    requires RefusedSince(code, mid, n) && RefusedSince(code, last, |mid|)
    ensures RefusedSince(code, last, n)
  {
    forall k | n <= k < |last| && last[k].code == code ensures Refusal(last[k].answer) {
      if k < |mid| {
        assert last[k] == mid[k];
      }
    }
  }

  ghost predicate CanServe(s: Sys, code: string) {
    exists actions :: IsRunFrom(s, actions) && ServedSince(code, Reach(s, actions).replies, |s.replies|)
  }

  /** A redirect holding an active copy answers with it. */
  lemma FinishServes(s: Sys, id: nat)
    requires Inv(s) && id < |s.readings| && Stale(s.readings[id].phase)
    requires InTime(s.urls[s.readings[id].code].expiresAt, s.now)
    ensures CanServe(s, s.readings[id].code)
  {
    assert ReadingOk(s, s.readings[id]);
    var a := Finish(id);
    var t := Apply(s, a);
    assert [a][1..] == [];
    assert IsRunFrom(t, []) && Reach(t, []) == t;
    assert IsRunFrom(s, [a]) && Reach(s, [a]) == t;
    assert t.replies[|s.replies|].answer.Found?;
    assert ServedSince(s.readings[id].code, t.replies, |s.replies|);
  }

  lemma ServeLater(s: Sys, a: Action, code: string)
    requires Enabled(s, a) && CanServe(Apply(s, a), code)
    requires |Apply(s, a).replies| == |s.replies|
    ensures CanServe(s, code)
  {
    var t := Apply(s, a);
    var more :| IsRunFrom(t, more) && ServedSince(code, Reach(t, more).replies, |t.replies|);
    var actions := [a] + more;
    assert actions[1..] == more;
    assert IsRunFrom(s, actions) && Reach(s, actions) == Reach(t, more);
  }

  lemma CachedServes(s: Sys, code: string)
    requires Inv(s) && code in s.cache && InTime(s.urls[code].expiresAt, s.now)
    ensures CanServe(s, code)
  {
    var id := |s.readings|;
    var a, b := Begin(code), Lookup(id, true);
    var t := Apply(s, a);
    var u := Apply(t, b);
    StepKeeps(s, a);
    StepKeeps(t, b);
    FinishServes(u, id);
    ServeLater(t, b, code);
    ServeLater(s, a, code);
  }

  lemma WriteServes(s: Sys, w: Write)
    requires Inv(s) && w in s.writes && InTime(s.urls[w.code].expiresAt, s.now)
    ensures CanServe(s, w.code)
  {
    var a := Land(w, true);
    StepKeeps(s, a);
    CachedServes(Apply(s, a), w.code);
    ServeLater(s, a, w.code);
  }

  /** Deactivation is final exactly when no copy is around: for an inactive row that has not
      expired, some continuation still redirects if and only if the code is cached, or a write
      of it or a redirect holding an active copy is under way. */
  lemma DeactivationIsFinalIff(s: Sys, code: string)
    requires Inv(s) && code in s.urls && !s.urls[code].active
    requires s.urls[code].expiresAt.Some? ==> s.now <= s.urls[code].expiresAt.value
    ensures CanServe(s, code) <==> !Quiet(s, code)
  {
    if Quiet(s, code) {
      forall actions | IsRunFrom(s, actions) ensures !ServedSince(code, Reach(s, actions).replies, |s.replies|) {
        QuietForever(s, actions, code);
      }
    } else if code in s.cache {
      CachedServes(s, code);
    } else if w :| w in s.writes && w.code == code {
      WriteServes(s, w);
    } else {
      var id: nat :| id < |s.readings| && s.readings[id].code == code && Stale(s.readings[id].phase);
      FinishServes(s, id);
    }
  }
}
