/**
 * The fixed-window rate limiter of backend/internal/ratelimit/store.go and its
 * middleware in backend/internal/api/ratelimit.go.
 *
 * Time is the database clock, in integer microseconds, and never decreases.
 */
module RateLimit {
  import opened Bytes

  type Key = string
  type Time = int

  datatype Counter = Counter(count: nat, expiresAt: Time)
  type Table = map<Key, Counter>

  datatype Answer = Answer(count: int, resetIn: int)

  // ---------------------------------------------------------------- the store

  /** The upsert of `Hit` on one row. */
  function HitCounter(row: Option<Counter>, window: int, now: Time): Counter {
    match row
    case None => Counter(1, now + window)
    case Some(r) =>
      Counter(if r.expiresAt <= now then 1 else r.count + 1,
              if r.expiresAt <= now then now + window else r.expiresAt)
  }

  function Row(t: Table, key: Key): Option<Counter> {
    if key in t then Some(t[key]) else None
  }

  function HitTable(t: Table, key: Key, window: int, now: Time): Table {
    t[key := HitCounter(Row(t, key), window, now)]
  }

  function PruneTable(t: Table, now: Time): Table {
    map k | k in t && t[k].expiresAt > now :: t[k]
  }

  class Store {
    var rateLimits: Table

    method Hit(key: Key, window: int, now: Time) returns (count: int, resetIn: int)
      modifies this
      ensures rateLimits == HitTable(old(rateLimits), key, window, now)
      ensures rateLimits == old(rateLimits)[key := if key in old(rateLimits) && now < old(rateLimits)[key].expiresAt
                                                   then Counter(old(rateLimits)[key].count + 1, old(rateLimits)[key].expiresAt)
                                                   else Counter(1, now + window)]
      ensures count == rateLimits[key].count && resetIn == rateLimits[key].expiresAt - now
    {
      if key !in rateLimits {
        rateLimits := rateLimits[key := Counter(1, now + window)];
      } else {
        var r := rateLimits[key];
        var over := r.expiresAt <= now;
        rateLimits := rateLimits[key := Counter(if over then 1 else r.count + 1,
                                                if over then now + window else r.expiresAt)];
      }
      count, resetIn := rateLimits[key].count, rateLimits[key].expiresAt - now;
    }

    method Prune(now: Time) returns (removed: nat)
      modifies this
      ensures rateLimits == PruneTable(old(rateLimits), now)
      ensures forall k :: k in rateLimits <==> k in old(rateLimits) && now < old(rateLimits)[k].expiresAt
      ensures forall k :: k in rateLimits ==> rateLimits[k] == old(rateLimits)[k]
      ensures removed == |old(rateLimits)| - |rateLimits|
    {
      var before := rateLimits;
      rateLimits := map k | k in before && before[k].expiresAt > now :: before[k];
      assert rateLimits.Keys <= before.Keys;
      SubsetSize(rateLimits.Keys, before.Keys);
      removed := |before| - |rateLimits|;
    }
  }

  lemma SubsetSize<T>(a: set<T>, b: set<T>)
    requires a <= b
    ensures |a| <= |b|
  {
    assert b == a + (b - a);
  }

  // ---------------------------------------------------------------- runs

  datatype Event = Hit(key: Key, window: int, now: Time) | Prune(now: Time)

  function After(t: Table, e: Event): Table {
    match e
    case Hit(key, window, now) => HitTable(t, key, window, now)
    case Prune(now) => PruneTable(t, now)
  }

  function AnswerOf(t: Table, e: Event): Answer
    requires e.Hit?
  {
    var c := HitCounter(Row(t, e.key), e.window, e.now);
    Answer(c.count, c.expiresAt - e.now)
  }

  /** What the hits of a run return, in order. */
  function Answers(t: Table, events: seq<Event>): seq<Answer>
    decreases |events|
  {
    if events == [] then []
    else (if events[0].Hit? then [AnswerOf(t, events[0])] else []) + Answers(After(t, events[0]), events[1..])
  }

  ghost predicate Timed(events: seq<Event>, start: Time) {
    && (forall i :: 0 <= i < |events| ==> start <= events[i].now)
    && (forall i, j :: 0 <= i < j < |events| ==> events[i].now <= events[j].now)
  }

  lemma TimedTail(events: seq<Event>, start: Time)
    requires Timed(events, start) && events != []
    ensures Timed(events[1..], events[0].now)
  {
  }

  function WithoutPrunes(events: seq<Event>): seq<Event> {
    if events == [] then []
    else (if events[0].Hit? then [events[0]] else []) + WithoutPrunes(events[1..])
  }

  // ---------------------------------------------------------------- pruning is invisible

  /** The counter of `key` while its window lasts. */
  function Live(t: Table, key: Key, now: Time): Option<Counter> {
    if key in t && t[key].expiresAt > now then Some(t[key]) else None
  }

  ghost predicate LiveEqual(t: Table, u: Table, now: Time) {
    forall k :: Live(t, k, now) == Live(u, k, now)
  }

  /** A hit sees nothing of a row but its live counter. */
  lemma {:induction false} HitSeesLive(t: Table, key: Key, window: int, now: Time)
    ensures HitCounter(Row(t, key), window, now) == HitCounter(Live(t, key, now), window, now)
  {
  }

  lemma LiveLater(t: Table, u: Table, now: Time, later: Time)
    requires LiveEqual(t, u, now) && now <= later
    ensures LiveEqual(t, u, later)
  {
    forall k ensures Live(t, k, later) == Live(u, k, later) {
      assert Live(t, k, now) == Live(u, k, now);
    }
  }

  lemma HitKeepsLiveEqual(t: Table, u: Table, key: Key, window: int, now: Time)
    requires LiveEqual(t, u, now)
    ensures HitCounter(Row(t, key), window, now) == HitCounter(Row(u, key), window, now)
    ensures LiveEqual(HitTable(t, key, window, now), HitTable(u, key, window, now), now)
  {
    assert Live(t, key, now) == Live(u, key, now);
    HitSeesLive(t, key, window, now);
    HitSeesLive(u, key, window, now);
    hide HitCounter;
    var t', u' := HitTable(t, key, window, now), HitTable(u, key, window, now);
    forall k ensures Live(t', k, now) == Live(u', k, now) {
      assert Live(t, k, now) == Live(u, k, now);
    }
  }

  lemma PruneKeepsLiveEqual(t: Table, u: Table, now: Time)
    requires LiveEqual(t, u, now)
    ensures LiveEqual(PruneTable(t, now), u, now)
  {
    forall k ensures Live(PruneTable(t, now), k, now) == Live(u, k, now) {
      assert Live(t, k, now) == Live(u, k, now);
    }
  }

  lemma {:induction false} PruneInvisibleFrom(t: Table, u: Table, events: seq<Event>, start: Time)
    requires LiveEqual(t, u, start) && Timed(events, start)
    ensures Answers(t, events) == Answers(u, WithoutPrunes(events))
    decreases |events|
  {
    hide LiveEqual, HitCounter, HitTable, PruneTable;
    if events != [] {
      var e := events[0];
      TimedTail(events, start);
      LiveLater(t, u, start, e.now);
      if e.Hit? {
        HitKeepsLiveEqual(t, u, e.key, e.window, e.now);
        PruneInvisibleFrom(After(t, e), After(u, e), events[1..], e.now);
        var w := WithoutPrunes(events);
        assert w[0] == e && w[1..] == WithoutPrunes(events[1..]);
      } else {
        PruneKeepsLiveEqual(t, u, e.now);
        PruneInvisibleFrom(After(t, e), u, events[1..], e.now);
        assert WithoutPrunes(events) == WithoutPrunes(events[1..]);
        assert Answers(t, events) == Answers(After(t, e), events[1..]);
      }
    }
  }

  /** Two runs with the same hits return the same counts and remaining times, wherever they prune. */
  lemma {:induction false} PruneInvisible(t: Table, first: seq<Event>, second: seq<Event>, start: Time)
    requires Timed(first, start) && Timed(second, start)
    requires WithoutPrunes(first) == WithoutPrunes(second)
    ensures Answers(t, first) == Answers(t, second)
  {
    PruneInvisibleFrom(t, t, first, start);
    PruneInvisibleFrom(t, t, second, start);
  }

  // ---------------------------------------------------------------- windows

  function State(t: Table, events: seq<Event>): Table
    decreases |events|
  {
    if events == [] then t else State(After(t, events[0]), events[1..])
  }

  function Hits(events: seq<Event>, key: Key): nat {
    if events == [] then 0
    else (if events[0].Hit? && events[0].key == key then 1 else 0) + Hits(events[1..], key)
  }

  /**
   * While a window lasts its end stays where it was when the window opened, and
   * every hit on the key is counted once, whatever else happens.
   */
  lemma {:induction false} WindowEndFixed(t: Table, events: seq<Event>, key: Key, start: Time)
    requires Timed(events, start)
    requires Live(t, key, start).Some?
    requires forall i :: 0 <= i < |events| ==> events[i].now < t[key].expiresAt
    ensures key in State(t, events)
    ensures State(t, events)[key] == Counter(t[key].count + Hits(events, key), t[key].expiresAt)
    decreases |events|
  {
    if events != [] {
      TimedTail(events, start);
      var e := events[0];
      var t' := After(t, e);
      assert t'[key].expiresAt == t[key].expiresAt;
      WindowEndFixed(t', events[1..], key, e.now);
    }
  }

  // ---------------------------------------------------------------- the rate bound

  /** How many hits on `key` in the half-open interval from `a` to `b` are admitted. */
  function Admitted(t: Table, events: seq<Event>, key: Key, limit: int, a: Time, b: Time): nat
    decreases |events|
  {
    if events == [] then 0
    else
      var e := events[0];
      (if e.Hit? && e.key == key && a <= e.now < b && AnswerOf(t, e).count <= limit then 1 else 0)
      + Admitted(After(t, e), events[1..], key, limit, a, b)
  }

  /** What windows that open at `x` or later can still admit before `b`; all of it if `x` is before `a`. */
  function Openings(x: Time, a: Time, b: Time, window: int, limit: int, all: int): int
    requires window >= 1
    decreases b - x
  {
    if x < a then all else if x >= b then 0 else limit + Openings(x + window, a, b, window, limit, all)
  }

  lemma {:induction false} OpeningsBound(x: Time, a: Time, b: Time, window: int, limit: int, all: int, m: nat)
    requires window >= 1 && limit >= 0 && a <= x && x >= b - m * window
    ensures 0 <= Openings(x, a, b, window, limit, all) <= m * limit
    decreases m
  {
    if x < b {
      if m == 0 {
        assert false;
      } else {
        assert m * window == (m - 1) * window + window && m * limit == (m - 1) * limit + limit;
        OpeningsBound(x + window, a, b, window, limit, all, m - 1);
      }
    } else {
      ProductNotNegative(m, limit);
    }
  }

  lemma ProductNotNegative(m: nat, n: int)
    requires n >= 0
    ensures m * n >= 0
  {
  }

  lemma {:induction false} OpeningsShrink(x: Time, y: Time, a: Time, b: Time, window: int, limit: int, all: int, n: nat)
    requires window >= 1 && limit >= 0 && x <= y && b == a + n * window && all == n * limit + limit
    ensures 0 <= Openings(y, a, b, window, limit, all) <= Openings(x, a, b, window, limit, all) <= all
    decreases b - x
  {
    ProductNotNegative(n, limit);
    if y >= a {
      OpeningsBound(y, a, b, window, limit, all, n);
    }
    if a <= x < b {
      OpeningsBound(x, a, b, window, limit, all, n);
      if y < b {
        OpeningsShrink(x + window, y + window, a, b, window, limit, all, n);
      }
    }
  }

  /** What the key can still be admitted between `a` and `b`, from time `now` on. */
  function Budget(c: Option<Counter>, now: Time, a: Time, b: Time, window: int, limit: int, all: int): int
    requires window >= 1
  {
    if now >= b then 0
    else match c
      case None => Openings(now, a, b, window, limit, all)
      case Some(r) =>
        (if r.expiresAt <= a || r.count >= limit then 0 else limit - r.count)
        + Openings(r.expiresAt, a, b, window, limit, all)
  }

  ghost predicate Interval(a: Time, b: Time, window: int, limit: int, all: int, n: nat) {
    window >= 1 && limit >= 1 && b == a + n * window && all == n * limit + limit
  }

  /** Letting time pass never raises the budget. */
  lemma BudgetShrinks(t: Table, key: Key, now: Time, later: Time, a: Time, b: Time, window: int, limit: int, all: int, n: nat)
    requires Interval(a, b, window, limit, all, n) && now <= later
    ensures 0 <= Budget(Live(t, key, later), later, a, b, window, limit, all)
    ensures Budget(Live(t, key, later), later, a, b, window, limit, all)
         <= Budget(Live(t, key, now), now, a, b, window, limit, all)
  {
    hide Openings;
    OpeningsShrink(now, later, a, b, window, limit, all, n);
    if Live(t, key, now).Some? {
      var e := t[key].expiresAt;
      OpeningsShrink(e, if e <= later then later else e, a, b, window, limit, all, n);
    }
  }

  /** A hit spends its own admission out of the budget. */
  lemma HitSpends(t: Table, key: Key, now: Time, a: Time, b: Time, window: int, limit: int, all: int, n: nat)
    requires Interval(a, b, window, limit, all, n)
    ensures var c := HitCounter(Row(t, key), window, now);
      (if a <= now < b && c.count <= limit then 1 else 0)
      + Budget(Live(HitTable(t, key, window, now), key, now), now, a, b, window, limit, all)
      <= Budget(Live(t, key, now), now, a, b, window, limit, all)
  {
    if Live(t, key, now).None? && now < b {
      if now < a {
        var e := now + window;
        if e > a {
          OpeningsBound(e, a, b, window, limit, all, n);
        } else {
          OpeningsShrink(now, e, a, b, window, limit, all, n);
        }
      }
    }
  }

  lemma {:induction false} AdmittedWithinBudget(t: Table, events: seq<Event>, key: Key, start: Time,
                                               a: Time, b: Time, window: int, limit: int, all: int, n: nat)
    requires Interval(a, b, window, limit, all, n)
    requires Timed(events, start)
    requires forall i :: 0 <= i < |events| && events[i].Hit? && events[i].key == key ==> events[i].window == window
    ensures Admitted(t, events, key, limit, a, b) <= Budget(Live(t, key, start), start, a, b, window, limit, all)
    decreases |events|
  {
    hide Budget, Interval, HitCounter;
    if events == [] {
      BudgetShrinks(t, key, start, start, a, b, window, limit, all, n);
    } else {
      var e := events[0];
      TimedTail(events, start);
      BudgetShrinks(t, key, start, e.now, a, b, window, limit, all, n);
      AdmittedWithinBudget(After(t, e), events[1..], key, e.now, a, b, window, limit, all, n);
      if e.Hit? && e.key == key {
        HitSpends(t, key, e.now, a, b, window, limit, all, n);
      } else {
        assert Live(After(t, e), key, e.now) == Live(t, key, e.now);
      }
    }
  }

  /**
   * Any half-open interval of `n` windows admits at most n + 1 times the limit,
   * from any state, with hits on other keys and prunes anywhere in between.
   */
  lemma RateBound(t: Table, events: seq<Event>, key: Key, start: Time, a: Time, window: int, limit: int, n: nat)
    requires window >= 1 && limit >= 1
    requires Timed(events, start)
    requires forall i :: 0 <= i < |events| && events[i].Hit? && events[i].key == key ==> events[i].window == window
    ensures Admitted(t, events, key, limit, a, a + n * window) <= (n + 1) * limit
  {
    var b, all := a + n * window, n * limit + limit;
    AdmittedWithinBudget(t, events, key, start, a, b, window, limit, all, n);
    assert (n + 1) * limit == all;
    BudgetBound(Live(t, key, start), start, a, b, window, limit, all, n);
  }

  lemma BudgetBound(c: Option<Counter>, now: Time, a: Time, b: Time, window: int, limit: int, all: int, n: nat)
    requires Interval(a, b, window, limit, all, n)
    ensures Budget(c, now, a, b, window, limit, all) <= all
  {
    ProductNotNegative(n, limit);
    OpeningsShrink(now, now, a, b, window, limit, all, n);
    if c.Some? {
      var e := c.value.expiresAt;
      OpeningsShrink(e, e, a, b, window, limit, all, n);
      if e > a {
        OpeningsBound(e, a, b, window, limit, all, n);
      }
    }
  }

  // ---------------------------------------------------------------- the middleware

  const SECOND: int := 1_000_000

  datatype Config = Config(window: int, apiLimit: int, authLimit: int)

  datatype Bucket = Bucket(name: string, limit: int)

  function RateLimitBucket(path: string, cfg: Config): Bucket {
    if !("/api/" <= path) || path == "/api/v1/health" then Bucket("", 0)
    else if "/api/v1/auth/" <= path then Bucket("auth", cfg.authLimit)
    else Bucket("api", cfg.apiLimit)
  }

  /** The whole seconds a refused client is told to wait: `resetIn` rounded up, at least one. */
  function RetryAfter(resetIn: int): (seconds: int)
    ensures seconds >= 1 && seconds * 1_000_000 >= resetIn
    ensures seconds == 1 || (seconds - 1) * 1_000_000 < resetIn
  {
    var up := (resetIn + SECOND - 1) / SECOND;
    if up >= 1 then up else 1
  }

  /** How the counter lookup ended; after a failure the hit may or may not have been recorded. */
  datatype Lookup = Answered | Failed(recorded: bool)

  datatype Decision =
    | Unlimited
    | Unchecked
    | Admit(limit: int, remaining: int)
    | Refuse(limit: int, retryAfter: int)

  /** One request through the middleware: what it draws on, what is recorded, and the answer. */
  method Limit(store: Store, cfg: Config, path: string, client: string, now: Time, lookup: Lookup)
    returns (d: Decision)
    modifies store
    ensures !("/api/" <= path) || path == "/api/v1/health" ==> d == Unlimited && store.rateLimits == old(store.rateLimits)
    ensures "/api/" <= path && path != "/api/v1/health" ==>
      var auth := "/api/v1/auth/" <= path;
      var limit, key := if auth then cfg.authLimit else cfg.apiLimit, (if auth then "auth:" else "api:") + client;
      var before, after := old(store.rateLimits), store.rateLimits;
      if limit <= 0 then d == Unlimited && after == before
      else if lookup == Failed(false) then d == Unchecked && after == before
      else
        && key in after
        && after == before[key := after[key]]
        && after[key] == (if key in before && now < before[key].expiresAt
                          then Counter(before[key].count + 1, before[key].expiresAt)
                          else Counter(1, now + cfg.window))
        && d == (if lookup.Failed? then Unchecked
                 else if after[key].count > limit then Refuse(limit, RetryAfter(after[key].expiresAt - now))
                 else Admit(limit, limit - after[key].count))
  {
    var bucket := RateLimitBucket(path, cfg);
    if bucket.limit <= 0 {
      return Unlimited;
    }
    if lookup == Failed(false) {
      return Unchecked;
    }
    assert "auth" + ":" == "auth:" && "api" + ":" == "api:";
    var count, resetIn := store.Hit(bucket.name + ":" + client, cfg.window, now);
    if lookup.Failed? {
      return Unchecked;
    }
    var remaining := if bucket.limit - count > 0 then bucket.limit - count else 0;
    if count > bucket.limit {
      return Refuse(bucket.limit, RetryAfter(resetIn));
    }
    return Admit(bucket.limit, remaining);
  }

  /** Two limited requests share a counter exactly when they share the bucket and the client. */
  lemma CountersAreSeparate(cfg: Config, path: string, client: string, path': string, client': string)
    requires RateLimitBucket(path, cfg).name != "" && RateLimitBucket(path', cfg).name != ""
    ensures RateLimitBucket(path, cfg).name + ":" + client == RateLimitBucket(path', cfg).name + ":" + client'
        <==> RateLimitBucket(path, cfg).name == RateLimitBucket(path', cfg).name && client == client'
  {
    var n, n' := RateLimitBucket(path, cfg).name, RateLimitBucket(path', cfg).name;
    var k, k' := n + ":" + client, n' + ":" + client';
    assert k[1] == n[1] && k'[1] == n'[1];
    assert k[|n| + 1..] == client && k'[|n'| + 1..] == client';
  }

  /** The row of a key nobody hits after its window's end. */
  lemma {:induction false} NoHitPastEnd(t: Table, events: seq<Event>, key: Key, start: Time, end: Time)
    requires Timed(events, start)
    requires if key in t then t[key].expiresAt == end else start >= end
    requires forall i :: 0 <= i < |events| && events[i].Hit? && events[i].key == key ==> events[i].now < end
    ensures key in State(t, events) ==> State(t, events)[key].expiresAt == end
    decreases |events|
  {
    if events != [] {
      TimedTail(events, start);
      NoHitPastEnd(After(t, events[0]), events[1..], key, events[0].now, end);
    }
  }

  /**
   * A client told to wait is counted 1 when it comes back after that wait, whatever
   * retries it made before its window ended, and whatever other keys and prunes did.
   */
  lemma {:induction false} RetryAfterSuffices(t: Table, key: Key, window: int, now: Time, events: seq<Event>, later: Time)
    requires Timed(events, now)
    requires var resetIn := AnswerOf(t, Hit(key, window, now)).resetIn;
      && later >= now + RetryAfter(resetIn) * 1_000_000
      && forall i :: 0 <= i < |events| && events[i].Hit? && events[i].key == key ==> events[i].now < now + resetIn
    ensures AnswerOf(State(HitTable(t, key, window, now), events), Hit(key, window, later)).count == 1
  {
    var t' := HitTable(t, key, window, now);
    NoHitPastEnd(t', events, key, now, t'[key].expiresAt);
  }
}
