/** The fixed-window rate limiter (gateway/ratelimit.go) on one Redis key.

    A call runs INCR, then EXPIRE if it was the first, as separate commands; calls interleave,
    replies get lost, EXPIRE may come late or never.  Times are Redis's clock in milliseconds;
    a key with a deadline is gone once the clock is past it. */
module RateLimiter {
  import opened Arithmetic
  import opened Options

  datatype Key = Absent | Live(count: nat, startedAt: int, expireAt: Option<int>)

  datatype Config = Config(limit: int, window: int) {
    predicate Valid() {
      window >= 1
    }
  }

  predicate Present(key: Key, now: int) {
    key.Live? && (key.expireAt.None? || now <= key.expireAt.value)
  }

  function AfterIncr(key: Key, now: int): (k: Key)
    ensures k.Live?
  {
    if Present(key, now) then key.(count := key.count + 1) else Live(1, now, None)
  }

  function AfterExpire(cfg: Config, key: Key, now: int): Key {
    if Present(key, now) then key.(expireAt := Some(now + cfg.window)) else key
  }

  /** The answer of a call whose INCR returned `count`. */
  predicate Allowed(cfg: Config, count: int, expireErr: bool) {
    count <= cfg.limit || (count == 1 && expireErr)
  }

  /** What TTL says of a key, as the caller reads it: the rest of its life in seconds, to the
      nearest one; 0 if the key is gone or has no deadline. */
  function WaitSeconds(key: Key, now: int): (wait: int)
    ensures wait >= 0
    ensures Present(key, now) && key.expireAt.Some? ==> -500 <= key.expireAt.value - now - 1000 * wait < 500
    ensures !(Present(key, now) && key.expireAt.Some?) ==> wait == 0
  {
    if Present(key, now) && key.expireAt.Some? then (key.expireAt.value - now + 500) / 1000 else 0
  }

  // ----- the object

  /** How a command ends: with its reply, without it although it took effect, or not at all. */
  datatype Reply = Received | Lost | NotRun

  class RateLimiter {
    const cfg: Config
    var key: Key

    constructor (limit: int, window: int)
      ensures cfg == Config(limit, window) && key == Absent
    {
      cfg := Config(limit, window);
      key := Absent;
    }

    /** One call, no other call's command in between; `t1`, `t2`, `t3` are the times of its
        three commands, of which the last two may not be issued. */
    method Allow(t1: int, t2: int, t3: int, incr: Reply, expire: Reply, ttl: Reply)
      returns (allowed: bool, retryAfter: int, err: bool)
      requires t1 <= t2 <= t3
      modifies this
      ensures !incr.Received? ==> allowed && err && key == if incr.Lost? then AfterIncr(old(key), t1) else old(key)
      ensures incr.Received? ==>
                var counted := AfterIncr(old(key), t1);
                && allowed == Allowed(cfg, counted.count, !expire.Received?)
                && err == (counted.count == 1 && !expire.Received?)
                && key == if counted.count == 1 && !expire.NotRun? then AfterExpire(cfg, counted, t2) else counted
      ensures incr.Received? ==>
                var lives := old(key).Live? && (old(key).expireAt.Some? ==> t1 <= old(key).expireAt.value);
                && key.Live? && key.count == (if lives then old(key).count + 1 else 1)
                && (allowed <==> key.count <= cfg.limit || (key.count == 1 && !expire.Received?))
                && (lives && key.count > 1 ==> key.expireAt == old(key).expireAt)
                && (!lives ==> key.startedAt == t1
                               && key.expireAt == if expire.NotRun? then None else Some(t2 + cfg.window))
      ensures allowed ==> retryAfter == 0
      ensures !allowed ==> retryAfter == if ttl.Received? then WaitSeconds(key, t3) else 0
    {
      if !incr.NotRun? {
        key := AfterIncr(key, t1);
      }
      if !incr.Received? {
        return true, 0, true;
      }
      var count := key.count;
      if count == 1 {
        if !expire.NotRun? {
          key := AfterExpire(cfg, key, t2);
        }
        if !expire.Received? {
          return true, 0, true;
        }
      }
      if count > cfg.limit {
        if !ttl.Received? {
          return false, 0, false;
        }
        var wait := 0;
        if Present(key, t3) && key.expireAt.Some? {
          wait := (key.expireAt.value - t3 + 500) / 1000;
        }
        return false, wait, false;
      }
      return true, 0, false;
    }
  }

  // ----- every interleaving of commands

  /** `Incr` is an INCR that took effect, whether its reply arrived, and whether the EXPIRE its
      call may send will report an error; `Expire` is an EXPIRE that takes effect. */
  datatype Step = Incr(now: int, replied: bool, expireErr: bool) | Expire(now: int)

  function Next(cfg: Config, key: Key, step: Step): Key {
    match step
    case Incr(now, _, _) => AfterIncr(key, now)
    case Expire(now) => AfterExpire(cfg, key, now)
  }

  function KeyAt(cfg: Config, steps: seq<Step>, i: nat): Key
    requires i <= |steps|
  {
    if i == 0 then Absent else Next(cfg, KeyAt(cfg, steps, i - 1), steps[i - 1])
  }

  /** Any commands in any order, the clock not running backwards: an EXPIRE may come late, be
      retried, or even hit a later lifetime than that of the call that sent it. */
  ghost predicate IsRun(cfg: Config, steps: seq<Step>) {
    cfg.Valid() && forall i :: 0 < i < |steps| ==> steps[i - 1].now <= steps[i].now
  }

  /** The call behind step `i` got its count and was let through. */
  predicate Granted(cfg: Config, steps: seq<Step>, i: nat)
    requires i < |steps|
  {
    && steps[i].Incr? && steps[i].replied
    && Allowed(cfg, AfterIncr(KeyAt(cfg, steps, i), steps[i].now).count, steps[i].expireErr)
  }

  function Min(a: int, b: int): int {
    if a < b then a else b
  }

  function Max(a: int, b: int): int {
    if a < b then b else a
  }

  /** What one lifetime may grant; a limit below 1 still lets the first call through when its
      EXPIRE reports an error. */
  function Cap(cfg: Config): int {
    Max(cfg.limit, 1)
  }

  /** Calls granted at times in `[from, to]` among the first `i` steps. */
  function Grants(cfg: Config, steps: seq<Step>, i: nat, from: int, to: int): nat
    requires i <= |steps|
  {
    if i == 0 then 0
    else
      Grants(cfg, steps, i - 1, from, to)
      + if Granted(cfg, steps, i - 1) && from <= steps[i - 1].now <= to then 1 else 0
  }

  /** Lifetimes begun since the first grant of the interval. */
  function Renewals(cfg: Config, steps: seq<Step>, i: nat, from: int, to: int): nat
    requires i <= |steps|
  {
    if i == 0 then 0
    else
      Renewals(cfg, steps, i - 1, from, to)
      + if Grants(cfg, steps, i - 1, from, to) > 0 && steps[i - 1].Incr?
           && !Present(KeyAt(cfg, steps, i - 1), steps[i - 1].now)
        then 1 else 0
  }

  /** The key's own bookkeeping: its deadline is at least a window after its start. */
  ghost predicate Sane(cfg: Config, key: Key, clock: int) {
    key.Live? ==>
      && key.count >= 1 && key.startedAt <= clock
      && (key.expireAt.Some? ==> key.expireAt.value >= key.startedAt + cfg.window)
  }

  /** How the grants `g` of an interval from `from`, spread over `m` renewals, are bounded.
      If the first lifetime began before the interval, its first call is not among them. */
  ghost predicate Bounded(cfg: Config, key: Key, from: int, g: nat, m: nat) {
    key.Live? &&
    (|| (g <= m * Cap(cfg) + Min(key.count, Cap(cfg)) && key.startedAt >= from + m * (cfg.window + 1))
     || (&& g <= m * Cap(cfg) + Min(key.count, Cap(cfg)) - 1
         && (if m == 0 then key.expireAt.Some? ==> key.expireAt.value >= from
             else key.startedAt > from + (m - 1) * (cfg.window + 1))))
  }

  lemma KeyStep(cfg: Config, key: Key, step: Step, clock: int)
    requires cfg.Valid() && Sane(cfg, key, clock) && clock <= step.now
    ensures Sane(cfg, Next(cfg, key, step), step.now)
  {
  }

  lemma BoundedIncr(cfg: Config, key: Key, now: int, clock: int, from: int, g: nat, m: nat, granted: bool)
    requires cfg.Valid() && Sane(cfg, key, clock) && clock <= now && from <= clock && Bounded(cfg, key, from, g, m)
    requires granted ==> AfterIncr(key, now).count <= Cap(cfg)
    ensures var g' := if granted then g + 1 else g;
            var m' := if Present(key, now) then m else m + 1;
            Bounded(cfg, AfterIncr(key, now), from, g', m')
  {
    if !Present(key, now) {
      OneMore(m, Cap(cfg));
      OneMore(m, cfg.window + 1);
      OneMore(m - 1, cfg.window + 1);
    }
  }

  lemma BoundedExpire(cfg: Config, key: Key, now: int, from: int, g: nat, m: nat)
    requires cfg.Valid() && from <= now && Bounded(cfg, key, from, g, m)
    ensures Bounded(cfg, AfterExpire(cfg, key, now), from, g, m)
  {
  }

  /** The first grant of the interval. */
  lemma BoundedFirst(cfg: Config, key: Key, now: int, clock: int, from: int)
    requires cfg.Valid() && Sane(cfg, key, clock) && clock <= now && from <= now
    requires AfterIncr(key, now).count <= Cap(cfg)
    ensures Bounded(cfg, AfterIncr(key, now), from, 1, 0)
  {
  }

  lemma {:induction false} AlwaysSane(cfg: Config, steps: seq<Step>, i: nat)
    requires IsRun(cfg, steps) && i < |steps|
    ensures Sane(cfg, KeyAt(cfg, steps, i), steps[i].now)
    ensures Sane(cfg, KeyAt(cfg, steps, i + 1), steps[i].now)
  {
    if i > 0 {
      AlwaysSane(cfg, steps, i - 1);
    }
    KeyStep(cfg, KeyAt(cfg, steps, i), steps[i], steps[i].now);
  }

  lemma {:induction false} AlwaysBounded(cfg: Config, steps: seq<Step>, i: nat, from: int, to: int)
    requires IsRun(cfg, steps) && i < |steps|
    ensures var g, m := Grants(cfg, steps, i + 1, from, to), Renewals(cfg, steps, i + 1, from, to);
            g > 0 ==> from <= steps[i].now && Bounded(cfg, KeyAt(cfg, steps, i + 1), from, g, m)
  {
    AlwaysSane(cfg, steps, i);
    var key, now := KeyAt(cfg, steps, i), steps[i].now;
    if i > 0 {
      AlwaysBounded(cfg, steps, i - 1, from, to);
    }
    var g, m := Grants(cfg, steps, i, from, to), Renewals(cfg, steps, i, from, to);
    if g > 0 {
      if steps[i].Incr? {
        BoundedIncr(cfg, key, now, now, from, g, m, Granted(cfg, steps, i) && from <= now <= to);
      } else {
        BoundedExpire(cfg, key, now, from, g, m);
      }
    } else if Granted(cfg, steps, i) && from <= now <= to {
      NoGrantsNoRenewals(cfg, steps, i, from, to);
      BoundedFirst(cfg, key, now, now, from);
    }
  }

  lemma {:induction false} NoGrantsNoRenewals(cfg: Config, steps: seq<Step>, i: nat, from: int, to: int)
    requires i <= |steps| && Grants(cfg, steps, i, from, to) == 0
    ensures Renewals(cfg, steps, i, from, to) == 0
  {
    if i > 0 {
      NoGrantsNoRenewals(cfg, steps, i - 1, from, to);
    }
  }

  /** A grant at a time no later than `from + k * window` limits the renewals before it. */
  lemma GrantTimeBound(cfg: Config, key: Key, now: int, from: int, g: nat, m: nat, k: nat)
    requires cfg.Valid() && k >= 1 && Bounded(cfg, key, from, g, m)
    requires key.startedAt <= now <= from + k * cfg.window
    ensures g <= (k + 1) * Cap(cfg) - 1
    ensures k > cfg.window && Cap(cfg) >= 2 ==> g < (k + 1) * Cap(cfg) - 1
  {
    var w, cap := cfg.window, Cap(cfg);
    OneMore(m, cap);
    OneMore(k, cap);
    OneMore(k, w);
    if g <= m * cap + Min(key.count, cap) && key.startedAt >= from + m * (w + 1) {
      Fewer(m, k, w);
      MulMono(m + 1, k, cap);
    } else if m == 0 {
      MulMono(1, k, cap);
    } else {
      Fewer(m - 1, k, w);
      MulMono(m + 1, k + 1, cap);
      if m < k {
        MulMono(m + 1, k, cap);
      } else if k > w {
        assert m == k;
        TooSlow(k, w);
      }
    }
  }

  lemma TooSlow(k: nat, w: int)
    requires k > w >= 1
    ensures (k - 1) * (w + 1) >= k * w
  {
    assert (k - 1) * (w + 1) == k * w + (k - w - 1);
  }

  lemma Cancel(a: nat, b: nat, w: int)
    requires w >= 1 && a * w < b * w
    ensures a < b
  {
  }

  lemma Fewer(m: nat, k: nat, w: int)
    requires w >= 1 && k >= 1 && m * (w + 1) <= k * w
    ensures m < k
  {
    assert m * (w + 1) == m * w + m;
    if m > 0 {
      Cancel(m, k, w);
    }
  }

  /** In every interleaving, whatever happens to EXPIRE and to replies, the calls granted after
      a successful INCR in any interval of length at most `k` windows are fewer than `k + 1`
      times the limit.  Only calls whose INCR reported an error escape the bound. */
  lemma {:induction false} SlidingBound(cfg: Config, steps: seq<Step>, i: nat, from: int, to: int, k: nat)
    requires IsRun(cfg, steps) && i <= |steps| && k >= 1 && to - from <= k * cfg.window
    ensures Grants(cfg, steps, i, from, to) <= (k + 1) * Cap(cfg) - 1
    ensures k > cfg.window && Cap(cfg) >= 2 ==> Grants(cfg, steps, i, from, to) < (k + 1) * Cap(cfg) - 1
  {
    if i == 0 {
      MulMono(1, k + 1, Cap(cfg));
    } else {
      SlidingBound(cfg, steps, i - 1, from, to, k);
      if Granted(cfg, steps, i - 1) && from <= steps[i - 1].now <= to {
        AlwaysBounded(cfg, steps, i - 1, from, to);
        AlwaysSane(cfg, steps, i - 1);
        GrantTimeBound(cfg, KeyAt(cfg, steps, i), steps[i - 1].now, from,
                       Grants(cfg, steps, i, from, to), Renewals(cfg, steps, i, from, to), k);
      }
    }
  }

  // ----- one lifetime

  /** The grants of the lifetime that is current after `i` steps. */
  function LifetimeGrants(cfg: Config, steps: seq<Step>, i: nat): nat
    requires i <= |steps|
  {
    if i == 0 then 0
    else
      var renewed := steps[i - 1].Incr? && !Present(KeyAt(cfg, steps, i - 1), steps[i - 1].now);
      (if renewed then 0 else LifetimeGrants(cfg, steps, i - 1)) + if Granted(cfg, steps, i - 1) then 1 else 0
  }

  /** One lifetime of the key grants at most the limit, even if its EXPIRE never happens. */
  lemma {:induction false} LifetimeBound(cfg: Config, steps: seq<Step>, i: nat)
    requires IsRun(cfg, steps) && i <= |steps|
    ensures LifetimeGrants(cfg, steps, i) <= Cap(cfg)
    ensures KeyAt(cfg, steps, i).Live? ==> LifetimeGrants(cfg, steps, i) <= KeyAt(cfg, steps, i).count
    ensures KeyAt(cfg, steps, i).Absent? ==> LifetimeGrants(cfg, steps, i) == 0
  {
    if i > 0 {
      LifetimeBound(cfg, steps, i - 1);
    }
  }

  // ----- the bound is attained

  lemma {:induction false} Prefixes(cfg: Config, steps: seq<Step>, more: seq<Step>, i: nat, from: int, to: int)
    requires i <= |steps|
    ensures KeyAt(cfg, steps + more, i) == KeyAt(cfg, steps, i)
    ensures Grants(cfg, steps + more, i, from, to) == Grants(cfg, steps, i, from, to)
  {
    if i > 0 {
      Prefixes(cfg, steps, more, i - 1, from, to);
    }
  }

  function Calls(at: int, n: nat): seq<Step> {
    if n == 0 then [] else Calls(at, n - 1) + [Incr(at, true, false)]
  }

  /** Where a run has got to: the key, and the grants in `[from, to]`. */
  ghost predicate EndsWith(cfg: Config, steps: seq<Step>, key: Key, from: int, to: int, g: nat) {
    KeyAt(cfg, steps, |steps|) == key && Grants(cfg, steps, |steps|, from, to) == g
  }

  /** One more command. */
  lemma Extend(cfg: Config, steps: seq<Step>, key: Key, from: int, to: int, g: nat, step: Step)
    requires EndsWith(cfg, steps, key, from, to, g)
    ensures var granted := step.Incr? && step.replied && from <= step.now <= to
                           && Allowed(cfg, AfterIncr(key, step.now).count, step.expireErr);
            EndsWith(cfg, steps + [step], Next(cfg, key, step), from, to, if granted then g + 1 else g)
  {
    Prefixes(cfg, steps, [step], |steps|, from, to);
  }

  /** `n` more calls at one time within the life of the key. */
  lemma {:induction false} ExtendCalls(cfg: Config, steps: seq<Step>, key: Key, from: int, to: int, g: nat,
                                       at: int, n: nat)
    requires EndsWith(cfg, steps, key, from, to, g)
    requires Present(key, at) && key.count + n <= cfg.limit
    ensures EndsWith(cfg, steps + Calls(at, n), key.(count := key.count + n), from, to,
                     if from <= at <= to then g + n else g)
  {
    if n == 0 {
      assert steps + [] == steps;
    } else {
      ExtendCalls(cfg, steps, key, from, to, g, at, n - 1);
      Extend(cfg, steps + Calls(at, n - 1), key.(count := key.count + n - 1), from, to,
             if from <= at <= to then g + n - 1 else g, Incr(at, true, false));
      assert steps + Calls(at, n) == steps + Calls(at, n - 1) + [Incr(at, true, false)];
    }
  }

  /** When lifetime `k` of a burst begins. */
  function Start(cfg: Config, k: nat): int {
    if k == 0 then 0 else Start(cfg, k - 1) + cfg.window + 1
  }

  /** A call that begins a lifetime, its EXPIRE, perhaps late, and `n` more calls. */
  function Lived(steps: seq<Step>, begin: int, expire: int, at: int, n: nat): seq<Step> {
    steps + [Incr(begin, true, false)] + [Expire(expire)] + Calls(at, n)
  }

  /** One full lifetime after another: one call starts the first, and at its end come the rest
      of its calls; each of the `k` others is used up when it begins. */
  function Burst(cfg: Config, k: nat): seq<Step>
    requires cfg.limit >= 1
  {
    if k == 0 then Lived([], 0, 0, cfg.window, cfg.limit - 1)
    else Lived(Burst(cfg, k - 1), Start(cfg, k), Start(cfg, k), Start(cfg, k), cfg.limit - 1)
  }

  function BurstGrants(cfg: Config, k: nat): nat
    requires cfg.limit >= 1
  {
    if k == 0 then cfg.limit - 1 else BurstGrants(cfg, k - 1) + cfg.limit
  }

  /** A lifetime that is used up. */
  lemma Lifetime(cfg: Config, steps: seq<Step>, key: Key, from: int, to: int, g: nat, begin: int, expire: int, at: int)
    requires cfg.Valid() && cfg.limit >= 1 && EndsWith(cfg, steps, key, from, to, g) && !Present(key, begin)
    requires begin <= expire <= at <= expire + cfg.window && at <= to
    ensures var first, rest := if from <= begin then 1 else 0, if from <= at then cfg.limit - 1 else 0;
            EndsWith(cfg, Lived(steps, begin, expire, at, cfg.limit - 1),
                     Live(cfg.limit, begin, Some(expire + cfg.window)), from, to, g + first + rest)
  {
    var one := steps + [Incr(begin, true, false)];
    var h := if from <= begin then g + 1 else g;
    Extend(cfg, steps, key, from, to, g, Incr(begin, true, false));
    Extend(cfg, one, Live(1, begin, None), from, to, h, Expire(expire));
    ExtendCalls(cfg, one + [Expire(expire)], Live(1, begin, Some(expire + cfg.window)), from, to, h, at, cfg.limit - 1);
  }

  lemma {:induction false} BurstEnds(cfg: Config, k: nat, from: int, to: int)
    requires cfg.Valid() && cfg.limit >= 1 && 1 <= from <= cfg.window <= to && Start(cfg, k) <= to
    ensures EndsWith(cfg, Burst(cfg, k), Live(cfg.limit, Start(cfg, k), Some(Start(cfg, k) + cfg.window)), from, to,
                     BurstGrants(cfg, k))
    ensures Start(cfg, k) >= 0
  {
    if k == 0 {
      Lifetime(cfg, [], Absent, from, to, 0, 0, 0, cfg.window);
    } else {
      BurstEnds(cfg, k - 1, from, to);
      var last := Start(cfg, k - 1);
      Lifetime(cfg, Burst(cfg, k - 1), Live(cfg.limit, last, Some(last + cfg.window)), from, to,
               BurstGrants(cfg, k - 1), Start(cfg, k), Start(cfg, k), Start(cfg, k));
    }
  }

  /** Times rise to at most `last`. */
  ghost predicate Timely(steps: seq<Step>, last: int)
    decreases |steps|
  {
    steps == [] || (steps[|steps| - 1].now <= last && Timely(steps[..|steps| - 1], steps[|steps| - 1].now))
  }

  lemma TimelyGrows(steps: seq<Step>, last: int, step: Step)
    requires Timely(steps, last) && last <= step.now
    ensures Timely(steps + [step], step.now)
  {
    TimelyLater(steps, last, step.now);
    assert (steps + [step])[..|steps|] == steps;
  }

  lemma TimelyLater(steps: seq<Step>, last: int, later: int)
    requires Timely(steps, last) && last <= later
    ensures Timely(steps, later)
  {
  }

  lemma {:induction false} TimelyIsRun(cfg: Config, steps: seq<Step>, last: int)
    requires cfg.Valid() && Timely(steps, last)
    ensures IsRun(cfg, steps)
    decreases |steps|
  {
    if steps != [] {
      var n := |steps| - 1;
      TimelyIsRun(cfg, steps[..n], steps[n].now);
      forall i | 0 < i < |steps| ensures steps[i - 1].now <= steps[i].now {
        if i < n {
          assert steps[..n][i - 1] == steps[i - 1] && steps[..n][i] == steps[i];
        } else {
          assert steps[..n][n - 1] == steps[n - 1];
        }
      }
    }
  }

  lemma {:induction false} TimelyCalls(steps: seq<Step>, last: int, at: int, n: nat)
    requires Timely(steps, last) && last <= at
    ensures Timely(steps + Calls(at, n), at)
  {
    if n == 0 {
      TimelyLater(steps, last, at);
      assert steps + Calls(at, n) == steps;
    } else {
      var before := steps + Calls(at, n - 1);
      TimelyCalls(steps, last, at, n - 1);
      TimelyGrows(before, at, Incr(at, true, false));
      assert steps + Calls(at, n) == before + [Incr(at, true, false)];
    }
  }

  lemma TimelyLifetime(steps: seq<Step>, last: int, begin: int, expire: int, at: int, n: nat, later: int)
    requires Timely(steps, last) && last <= begin <= expire <= at <= later
    ensures Timely(Lived(steps, begin, expire, at, n), later)
  {
    var one := steps + [Incr(begin, true, false)];
    TimelyGrows(steps, last, Incr(begin, true, false));
    TimelyGrows(one, begin, Expire(expire));
    TimelyCalls(one + [Expire(expire)], expire, at, n);
    TimelyLater(Lived(steps, begin, expire, at, n), at, later);
  }

  lemma {:induction false} BurstIsTimely(cfg: Config, k: nat)
    requires cfg.Valid() && cfg.limit >= 1
    ensures Timely(Burst(cfg, k), Start(cfg, k) + cfg.window)
  {
    if k == 0 {
      TimelyLifetime([], 0, 0, 0, cfg.window, cfg.limit - 1, cfg.window);
    } else {
      var before, last, at := Burst(cfg, k - 1), Start(cfg, k - 1) + cfg.window, Start(cfg, k);
      BurstIsTimely(cfg, k - 1);
      TimelyLifetime(before, last, at, at, at, cfg.limit - 1, at + cfg.window);
      assert Burst(cfg, k) == Lived(before, at, at, at, cfg.limit - 1);
    }
  }

  lemma BurstIsRun(cfg: Config, k: nat)
    requires cfg.Valid() && cfg.limit >= 1
    ensures IsRun(cfg, Burst(cfg, k))
  {
    BurstIsTimely(cfg, k);
    TimelyIsRun(cfg, Burst(cfg, k), Start(cfg, k) + cfg.window);
  }

  lemma {:induction false} BurstNumbers(cfg: Config, k: nat)
    requires cfg.limit >= 1
    ensures BurstGrants(cfg, k) == (k + 1) * cfg.limit - 1 && Start(cfg, k) == k * (cfg.window + 1)
  {
    if k > 0 {
      BurstNumbers(cfg, k - 1);
      OneMore(k, cfg.limit);
      OneMore(k - 1, cfg.window + 1);
    }
  }

  /** Some run has as many grants within `k` windows as the sliding bound allows. */
  ghost predicate Attained(cfg: Config, k: nat) {
    exists steps, from :: Attains(cfg, k, steps, from)
  }

  ghost predicate Attains(cfg: Config, k: nat, steps: seq<Step>, from: int) {
    && IsRun(cfg, steps)
    && Grants(cfg, steps, |steps|, from, from + k * cfg.window) == (k + 1) * cfg.limit - 1
  }

  lemma BurstAttains(cfg: Config, k: nat)
    requires cfg.Valid() && cfg.limit >= 1 && 1 <= k <= cfg.window
    ensures Attains(cfg, k, Burst(cfg, k), cfg.window)
  {
    var span := k * cfg.window;
    BurstNumbers(cfg, k);
    Spread(k, cfg.window);
    BurstEnds(cfg, k, cfg.window, cfg.window + span);
    BurstIsRun(cfg, k);
  }

  lemma Spread(k: nat, w: nat)
    requires 1 <= k <= w
    ensures k * (w + 1) <= w + k * w && 0 <= k * w
  {
    assert k * (w + 1) == k * w + k;
  }

  /** The sliding bound is attained for intervals of up to `window` windows (times being in
      milliseconds), and for limits above 1 for no longer ones. */
  lemma BoundIsTight(cfg: Config, k: nat)
    requires cfg.Valid() && cfg.limit >= 1 && k >= 1
    ensures k <= cfg.window ==> Attained(cfg, k)
    ensures cfg.limit >= 2 ==> (Attained(cfg, k) <==> k <= cfg.window)
  {
    if k <= cfg.window {
      BurstAttains(cfg, k);
    } else if cfg.limit >= 2 && Attained(cfg, k) {
      var steps, from :| Attains(cfg, k, steps, from);
      SlidingBound(cfg, steps, |steps|, from, from + k * cfg.window, k);
    }
  }

  // ----- when one window's length sees no more than the limit

  /** Step `b` begins a lifetime. */
  ghost predicate Begins(cfg: Config, steps: seq<Step>, b: nat) {
    b < |steps| && steps[b].Incr? && !Present(KeyAt(cfg, steps, b), steps[b].now)
  }

  /** Every window's length that begins `d` after a lifetime does has at most `limit` grants. */
  ghost predicate WithinLimit(cfg: Config, d: nat) {
    forall steps, b :: IsRun(cfg, steps) && Begins(cfg, steps, b) ==> GrantsFrom(cfg, steps, b, d) <= cfg.limit
  }

  function GrantsFrom(cfg: Config, steps: seq<Step>, b: nat, d: nat): nat
    requires b < |steps|
  {
    Grants(cfg, steps, |steps|, steps[b].now + d, steps[b].now + d + cfg.window)
  }

  lemma {:induction false} TimesRise(cfg: Config, steps: seq<Step>, i: nat, j: nat)
    requires IsRun(cfg, steps) && i <= j < |steps|
    ensures steps[i].now <= steps[j].now
    decreases j
  {
    if i < j {
      TimesRise(cfg, steps, i, j - 1);
    }
  }

  /** A key that is present at some time is so until the clock moves on. */
  lemma {:induction false} PresentMeanwhile(cfg: Config, steps: seq<Step>, i: nat, j: nat, now: int)
    requires IsRun(cfg, steps) && i <= j < |steps| && Present(KeyAt(cfg, steps, i), now)
    requires steps[i].now >= now && steps[j].now == now
    ensures Present(KeyAt(cfg, steps, j), now)
    decreases j
  {
    if i < j {
      TimesRise(cfg, steps, i, j - 1);
      PresentMeanwhile(cfg, steps, i, j - 1, now);
    }
  }

  /** Nothing is granted at the time a lifetime begins before it does. */
  lemma {:induction false} NoneBefore(cfg: Config, steps: seq<Step>, b: nat, i: nat, to: int)
    requires IsRun(cfg, steps) && Begins(cfg, steps, b) && i <= b
    ensures Grants(cfg, steps, i, steps[b].now, to) == 0
  {
    if i > 0 {
      NoneBefore(cfg, steps, b, i - 1, to);
      TimesRise(cfg, steps, i - 1, b);
      TimesRise(cfg, steps, i, b);
      if steps[i - 1].Incr? && steps[i - 1].now == steps[b].now {
        PresentMeanwhile(cfg, steps, i, b, steps[b].now);
      }
    }
  }

  /** The lifetime begun at step `b` lasts a window's length, and grants at most the limit. */
  lemma {:induction false} FirstWindow(cfg: Config, steps: seq<Step>, b: nat, i: nat)
    requires IsRun(cfg, steps) && Begins(cfg, steps, b) && b < i <= |steps|
    ensures var t, key := steps[b].now, KeyAt(cfg, steps, i);
            var g := Grants(cfg, steps, i, t, t + cfg.window);
            && g <= Cap(cfg)
            && (steps[i - 1].now <= t + cfg.window ==>
                  && key.Live? && (key.expireAt.Some? ==> key.expireAt.value >= t + cfg.window)
                  && g <= key.count)
    decreases i
  {
    var t := steps[b].now;
    if i == b + 1 {
      NoneBefore(cfg, steps, b, b, t + cfg.window);
    } else {
      FirstWindow(cfg, steps, b, i - 1);
      TimesRise(cfg, steps, b, i - 1);
    }
  }

  /** "At most `limit` calls per window" is true of the window's lengths that begin with a
      lifetime of the key, and at no later offset from one unless the limit is 1. */
  lemma WithinLimitIff(cfg: Config, d: nat)
    requires cfg.Valid() && cfg.limit >= 1
    ensures WithinLimit(cfg, d) <==> d == 0 || cfg.limit == 1
  {
    if d == 0 || cfg.limit == 1 {
      forall steps, b: nat | IsRun(cfg, steps) && Begins(cfg, steps, b)
        ensures GrantsFrom(cfg, steps, b, d) <= cfg.limit
      {
        AlignedOrOne(cfg, steps, b, d);
      }
    } else {
      LateBurstExceeds(cfg, d);
    }
  }

  lemma AlignedOrOne(cfg: Config, steps: seq<Step>, b: nat, d: nat)
    requires cfg.limit >= 1 && IsRun(cfg, steps) && Begins(cfg, steps, b) && (d == 0 || cfg.limit == 1)
    ensures GrantsFrom(cfg, steps, b, d) <= cfg.limit
  {
    if d == 0 {
      FirstWindow(cfg, steps, b, |steps|);
    } else {
      SlidingBound(cfg, steps, |steps|, steps[b].now + d, steps[b].now + d + cfg.window, 1);
    }
  }

  /** A lifetime whose EXPIRE comes `late - window` after it begins, used up when it ends, and a
      full one right after it. */
  function LateBurst(cfg: Config, late: int): seq<Step>
    requires cfg.limit >= 1
  {
    Lived(Lived([], 0, late - cfg.window, late, cfg.limit - 1), late + 1, late + 1, late + 1, cfg.limit - 1)
  }

  lemma LateBurstIsRun(cfg: Config, late: int)
    requires cfg.Valid() && cfg.limit >= 1 && late >= cfg.window
    ensures IsRun(cfg, LateBurst(cfg, late))
  {
    var first := Lived([], 0, late - cfg.window, late, cfg.limit - 1);
    TimelyLifetime([], 0, 0, late - cfg.window, late, cfg.limit - 1, late);
    TimelyLifetime(first, late, late + 1, late + 1, late + 1, cfg.limit - 1, late + 1);
    TimelyIsRun(cfg, Lived(first, late + 1, late + 1, late + 1, cfg.limit - 1), late + 1);
  }

  lemma LateBurstEnds(cfg: Config, late: int, from: int, to: int)
    requires cfg.Valid() && cfg.limit >= 1 && cfg.window <= late < to && 0 < from <= late
    ensures EndsWith(cfg, LateBurst(cfg, late), Live(cfg.limit, late + 1, Some(late + 1 + cfg.window)), from, to,
                     2 * cfg.limit - 1)
  {
    var first := Lived([], 0, late - cfg.window, late, cfg.limit - 1);
    Lifetime(cfg, [], Absent, from, to, 0, 0, late - cfg.window, late);
    Lifetime(cfg, first, Live(cfg.limit, 0, Some(late)), from, to, cfg.limit - 1, late + 1, late + 1, late + 1);
  }

  lemma LivedBegins(steps: seq<Step>, begin: int, expire: int, at: int, n: nat)
    ensures var all := Lived(steps, begin, expire, at, n);
            |all| > |steps| && all[0] == if steps == [] then Incr(begin, true, false) else steps[0]
  {
  }

  lemma LateBurstExceeds(cfg: Config, d: nat)
    requires cfg.Valid() && cfg.limit >= 1 && d >= 1
    ensures var steps := LateBurst(cfg, Max(d, cfg.window));
            IsRun(cfg, steps) && Begins(cfg, steps, 0) && GrantsFrom(cfg, steps, 0, d) == 2 * cfg.limit - 1
  {
    var late := Max(d, cfg.window);
    LateBurstIsRun(cfg, late);
    LateBurstEnds(cfg, late, d, d + cfg.window);
    LivedBegins([], 0, late - cfg.window, late, cfg.limit - 1);
    LivedBegins(Lived([], 0, late - cfg.window, late, cfg.limit - 1), late + 1, late + 1, late + 1, cfg.limit - 1);
  }

  // ----- when the EXPIRE is lost

  /** No deadline, and no call left. */
  predicate Stuck(cfg: Config, key: Key) {
    key.Live? && key.expireAt.None? && key.count >= Cap(cfg)
  }

  /** The INCR of step `j` finds the count below the limit. */
  predicate Room(cfg: Config, steps: seq<Step>, j: nat)
    requires j < |steps|
  {
    steps[j].Incr? && AfterIncr(KeyAt(cfg, steps, j), steps[j].now).count <= cfg.limit
  }

  /** Then the call is granted, if it gets its reply; and only then. */
  lemma GrantedIff(cfg: Config, steps: seq<Step>, j: nat)
    requires cfg.limit >= 1 && j < |steps|
    ensures Granted(cfg, steps, j) <==> Room(cfg, steps, j) && steps[j].replied
  {
  }

  ghost predicate Expires(steps: seq<Step>, p: nat, n: nat)
    requires n <= |steps|
  {
    exists e :: p <= e < n && steps[e].Expire?
  }

  lemma {:induction false} StaysStuck(cfg: Config, steps: seq<Step>, p: nat, j: nat)
    requires p <= j <= |steps| && Stuck(cfg, KeyAt(cfg, steps, p)) && !Expires(steps, p, j)
    ensures Stuck(cfg, KeyAt(cfg, steps, j))
    decreases j
  {
    if p < j {
      assert !steps[j - 1].Expire?;
      StaysStuck(cfg, steps, p, j - 1);
    }
  }

  /** After an EXPIRE that takes effect, until a call finds room there is a deadline. */
  lemma {:induction false} DeadlineStays(cfg: Config, steps: seq<Step>, e: nat, j: nat)
    requires e < j <= |steps| && cfg.limit >= 1 && Stuck(cfg, KeyAt(cfg, steps, e)) && steps[e].Expire?
    requires forall k :: e < k < j ==> !Room(cfg, steps, k)
    ensures KeyAt(cfg, steps, j).Live? && KeyAt(cfg, steps, j).expireAt.Some?
    decreases j
  {
    if e + 1 < j {
      DeadlineStays(cfg, steps, e, j - 1);
      assert !Room(cfg, steps, j - 1);
    }
  }

  lemma {:induction false} FirstExpire(steps: seq<Step>, p: nat, n: nat) returns (e: nat)
    requires n <= |steps| && Expires(steps, p, n)
    ensures p <= e < n && steps[e].Expire? && !Expires(steps, p, e)
    decreases n
  {
    if Expires(steps, p, n - 1) {
      e := FirstExpire(steps, p, n - 1);
    } else {
      e := n - 1;
    }
  }

  /** Further calls, and no other commands, among which or before which, but not before step
      `p`, one finds room. */
  ghost predicate Recovers(cfg: Config, steps: seq<Step>, p: nat, calls: seq<Step>) {
    && IsRun(cfg, steps + calls)
    && (forall k :: 0 <= k < |calls| ==> calls[k].Incr?)
    && exists j :: p <= j < |steps + calls| && Room(cfg, steps + calls, j)
  }

  /** A key that has used up its count without getting a deadline refuses every call until an
      EXPIRE takes effect, which only the first call of a lifetime sends: from such a key on,
      a later call finds room in some continuation by calls if and only if one has. */
  lemma RecoversIff(cfg: Config, steps: seq<Step>, p: nat)
    requires IsRun(cfg, steps) && cfg.limit >= 1 && p <= |steps| && Stuck(cfg, KeyAt(cfg, steps, p))
    ensures (exists calls :: Recovers(cfg, steps, p, calls)) <==> Expires(steps, p, |steps|)
  {
    if Expires(steps, p, |steps|) {
      CallRecovers(cfg, steps, p);
    } else {
      forall calls ensures !Recovers(cfg, steps, p, calls) {
        NeverRecovers(cfg, steps, p, calls);
      }
    }
  }

  lemma NeverRecovers(cfg: Config, steps: seq<Step>, p: nat, calls: seq<Step>)
    requires cfg.limit >= 1 && p <= |steps| && Stuck(cfg, KeyAt(cfg, steps, p)) && !Expires(steps, p, |steps|)
    ensures !Recovers(cfg, steps, p, calls)
  {
    var all := steps + calls;
    Prefixes(cfg, steps, calls, p, 0, 0);
    if forall k :: 0 <= k < |calls| ==> calls[k].Incr? {
      forall j | p <= j < |all| ensures !Room(cfg, all, j) {
        forall e | p <= e < j ensures !all[e].Expire? {
          assert all[e] == if e < |steps| then steps[e] else calls[e - |steps|];
        }
        StaysStuck(cfg, all, p, j);
      }
    }
  }

  lemma CallRecovers(cfg: Config, steps: seq<Step>, p: nat)
    requires IsRun(cfg, steps) && cfg.limit >= 1 && p <= |steps| && Stuck(cfg, KeyAt(cfg, steps, p))
    requires Expires(steps, p, |steps|)
    ensures exists calls :: Recovers(cfg, steps, p, calls)
  {
    var n := |steps|;
    var e := FirstExpire(steps, p, n);
    StaysStuck(cfg, steps, p, e);
    if j :| e < j < n && Room(cfg, steps, j) {
      assert steps + [] == steps;
      assert Recovers(cfg, steps, p, []);
    } else {
      DeadlineStays(cfg, steps, e, n);
      var call := Incr(Max(KeyAt(cfg, steps, n).expireAt.value, steps[n - 1].now) + 1, true, false);
      Prefixes(cfg, steps, [call], n, 0, 0);
      assert Room(cfg, steps + [call], n);
      assert Recovers(cfg, steps, p, [call]);
    }
  }

  // ----- keys

  function RateLimitKey(route: string, ip: string): string {
    route + ":" + ip
  }

  lemma FirstColon(route: string, ip: string)
    requires ':' !in route
    ensures var key := RateLimitKey(route, ip);
            && key[|route|] == ':' && (forall k :: 0 <= k < |route| ==> key[k] != ':')
            && key[..|route|] == route && key[|route| + 1..] == ip
  {
    forall k | 0 <= k < |route| ensures RateLimitKey(route, ip)[k] != ':' {
      assert route[k] in route;
    }
  }

  /** Different routes and addresses never share a counter, route names having no colon. */
  lemma KeysAreDistinct(route1: string, ip1: string, route2: string, ip2: string)
    requires ':' !in route1 && ':' !in route2
    requires RateLimitKey(route1, ip1) == RateLimitKey(route2, ip2)
    ensures route1 == route2 && ip1 == ip2
  {
    FirstColon(route1, ip1);
    FirstColon(route2, ip2);
  }
}
