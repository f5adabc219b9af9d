/** The fixed-window rate limiter: an in-memory map, a database row written by one
    atomic upsert, and the hourly purge of ended windows. Times are integer milliseconds. */
module RateLimit {
  import opened Options

  datatype Verdict = Verdict(ok: bool, remaining: int, retryAfterSeconds: int)

  /** One key's window, in either store. */
  datatype Window = Window(count: int, resetAt: int)

  type Store = map<string, Window>

  function Lookup(store: Store, key: string): Option<Window> {
    if key in store then Some(store[key]) else None
  }

  /** Math.ceil(ms / 1000). */
  function CeilSeconds(ms: int): int {
    -((-ms) / 1000)
  }

  // ----- One hit on one key -----

  function MemoryHit(window: Option<Window>, limit: int, windowMs: int, now: int): (Window, Verdict) {
    if window.None? || window.value.resetAt <= now then
      (Window(1, now + windowMs), Verdict(true, limit - 1, 0))
    else if window.value.count >= limit then
      (window.value, Verdict(false, 0, CeilSeconds(window.value.resetAt - now)))
    else
      var next := window.value.(count := window.value.count + 1);
      (next, Verdict(true, limit - next.count, 0))
  }

  function Upsert(row: Option<Window>, windowMs: int, now: int): Window {
    if row.None? || row.value.resetAt <= now then Window(1, now + windowMs)
    else row.value.(count := row.value.count + 1)
  }

  function DatabaseHit(row: Option<Window>, limit: int, windowMs: int, now: int): (Window, Verdict) {
    var bucket := Upsert(row, windowMs, now);
    if bucket.count > limit then
      var wait := CeilSeconds(bucket.resetAt - now);
      (bucket, Verdict(false, 0, if wait < 0 then 0 else wait))
    else
      (bucket, Verdict(true, limit - bucket.count, 0))
  }

  /** The refusal asks for the least number of whole seconds that covers the milliseconds left. */
  ghost predicate WaitsFor(verdict: Verdict, left: int) {
    && verdict.remaining == 0 && verdict.retryAfterSeconds >= 1
    && 1000 * (verdict.retryAfterSeconds - 1) < left <= 1000 * verdict.retryAfterSeconds
  }

  function Purged(rows: Store, now: int): Store {
    map key | key in rows && !(rows[key].resetAt < now) :: rows[key]
  }

  // ----- The module's mutable stores -----

  /** What one database call did: answered, failed without effect, or committed
      while the caller saw an error. */
  datatype Database = Answers | Fails | CommitsThenFails

  class Limiter {
    var fallbackWindows: Store
    var buckets: Store

    constructor ()
      ensures fallbackWindows == map[] && buckets == map[]
    {
      fallbackWindows, buckets := map[], map[];
    }

    method RateLimitInMemory(key: string, limit: int, windowMs: int, now: int) returns (verdict: Verdict)
      modifies `fallbackWindows
      ensures var hit := MemoryHit(old(Lookup(fallbackWindows, key)), limit, windowMs, now);
              fallbackWindows == old(fallbackWindows)[key := hit.0] && verdict == hit.1
      ensures !verdict.ok ==> WaitsFor(verdict, fallbackWindows[key].resetAt - now)
    {
      if key !in fallbackWindows || fallbackWindows[key].resetAt <= now {
        fallbackWindows := fallbackWindows[key := Window(1, now + windowMs)];
        return Verdict(true, limit - 1, 0);
      }
      var state := fallbackWindows[key];
      if state.count >= limit {
        assert fallbackWindows == fallbackWindows[key := state];
        return Verdict(false, 0, CeilSeconds(state.resetAt - now));
      }
      state := state.(count := state.count + 1);
      fallbackWindows := fallbackWindows[key := state];
      return Verdict(true, limit - state.count, 0);
    }

    method RateLimitInDb(key: string, limit: int, windowMs: int, now: int) returns (verdict: Verdict)
      modifies `buckets
      ensures var hit := DatabaseHit(old(Lookup(buckets, key)), limit, windowMs, now);
              buckets == old(buckets)[key := hit.0] && verdict == hit.1
      ensures !verdict.ok && windowMs >= 1 ==> WaitsFor(verdict, buckets[key].resetAt - now)
    {
      var bucket := Upsert(Lookup(buckets, key), windowMs, now);
      buckets := buckets[key := bucket];
      if bucket.count > limit {
        var wait := CeilSeconds(bucket.resetAt - now);
        return Verdict(false, 0, if wait < 0 then 0 else wait);
      }
      return Verdict(true, limit - bucket.count, 0);
    }

    /** The exported entry point: the database answers, or this process's map does. */
    method RateLimit(key: string, limit: int, windowMs: int, now: int, database: Database) returns (verdict: Verdict)
      modifies this
      ensures var row := DatabaseHit(old(Lookup(buckets, key)), limit, windowMs, now);
              var own := MemoryHit(old(Lookup(fallbackWindows, key)), limit, windowMs, now);
              && buckets == (if database.Fails? then old(buckets) else old(buckets)[key := row.0])
              && fallbackWindows ==
                 (if database.Answers? then old(fallbackWindows) else old(fallbackWindows)[key := own.0])
              && verdict == (if database.Answers? then row.1 else own.1)
    {
      if !database.Fails? {
        verdict := RateLimitInDb(key, limit, windowMs, now);
      }
      if !database.Answers? {
        verdict := RateLimitInMemory(key, limit, windowMs, now);
      }
    }

    method PurgeExpiredRateLimits(now: int) returns (deleted: int)
      modifies `buckets
      ensures buckets == Purged(old(buckets), now)
      ensures forall key :: key in buckets <==> key in old(buckets) && old(buckets)[key].resetAt >= now
      ensures forall key | key in buckets :: buckets[key] == old(buckets)[key]
      ensures deleted == |old(buckets)| - |buckets|
    {
      var before := |buckets|;
      buckets := Purged(buckets, now);
      deleted := before - |buckets|;
    }
  }

  // ----- Whole runs -----

  datatype Call =
    | Hit(key: string, limit: int, windowMs: int, now: int)
    | Purge(now: int)

  /** A hit together with the answer it got. */
  datatype Served = Served(hit: Call, verdict: Verdict)

  /** Only the database is purged, so the memory run skips purges. */
  ghost function MemoryRun(windows: Store, calls: seq<Call>): seq<Served>
    decreases |calls|
  {
    if calls == [] then []
    else match calls[0]
      case Purge(_) => MemoryRun(windows, calls[1..])
      case Hit(key, limit, windowMs, now) =>
        var (next, verdict) := MemoryHit(Lookup(windows, key), limit, windowMs, now);
        [Served(calls[0], verdict)] + MemoryRun(windows[key := next], calls[1..])
  }

  ghost function DatabaseRun(rows: Store, calls: seq<Call>): seq<Served>
    decreases |calls|
  {
    if calls == [] then []
    else match calls[0]
      case Purge(now) => DatabaseRun(Purged(rows, now), calls[1..])
      case Hit(key, limit, windowMs, now) =>
        var (next, verdict) := DatabaseHit(Lookup(rows, key), limit, windowMs, now);
        [Served(calls[0], verdict)] + DatabaseRun(rows[key := next], calls[1..])
  }

  /** Every hit on a key carries that key's own limit; windows may differ. */
  ghost predicate Follows(calls: seq<Call>, limits: string -> int) {
    forall i | 0 <= i < |calls| && calls[i].Hit? :: calls[i].limit == limits(calls[i].key)
  }

  /** No purge reads a clock more than one millisecond ahead of a later hit. */
  ghost predicate PurgesBehind(calls: seq<Call>) {
    forall i, j | 0 <= i < j < |calls| && calls[i].Purge? && calls[j].Hit? :: calls[i].now <= calls[j].now + 1
  }

  ghost predicate Nondecreasing(calls: seq<Call>) {
    forall i, j | 0 <= i < j < |calls| :: calls[i].now <= calls[j].now
  }

  /** Hits of `key` that were let through in the half-open interval [from, to). */
  ghost function Accepted(log: seq<Served>, key: string, from: int, to: int): nat {
    if log == [] then 0
    else
      (if log[0].hit.Hit? && log[0].hit.key == key && from <= log[0].hit.now < to && log[0].verdict.ok then 1 else 0)
      + Accepted(log[1..], key, from, to)
  }

  // ----- The two stores answer alike -----

  /** The row counts past the limit where the map stops; a purged row's window is over
      for every hit still to come. */
  ghost predicate Alike(windows: Store, rows: Store, limits: string -> int, calls: seq<Call>) {
    && (forall key | key in rows ::
          && key in windows
          && windows[key].resetAt == rows[key].resetAt
          && 1 <= windows[key].count
          && windows[key].count == (if rows[key].count < limits(key) then rows[key].count else limits(key)))
    && (forall key, i | key in windows && key !in rows && 0 <= i < |calls| && calls[i].Hit? ::
          windows[key].resetAt <= calls[i].now)
  }

  lemma {:induction false} AlikeRuns(windows: Store, rows: Store, limits: string -> int, calls: seq<Call>)
    requires forall key :: limits(key) >= 1
    requires Follows(calls, limits) && PurgesBehind(calls)
    requires Alike(windows, rows, limits, calls)
    ensures MemoryRun(windows, calls) == DatabaseRun(rows, calls)
    decreases |calls|
  {
    if calls == [] {
    } else {
      var rest := calls[1..];
      match calls[0]
      case Purge(now) =>
        forall key, i | key in windows && key !in Purged(rows, now) && 0 <= i < |rest| && rest[i].Hit?
          ensures windows[key].resetAt <= rest[i].now
        {
          assert rest[i] == calls[i + 1];
        }
        AlikeRuns(windows, Purged(rows, now), limits, rest);
      case Hit(key, limit, windowMs, now) =>
        var own := MemoryHit(Lookup(windows, key), limit, windowMs, now);
        var row := DatabaseHit(Lookup(rows, key), limit, windowMs, now);
        assert own.1 == row.1;
        AlikeRuns(windows[key := own.0], rows[key := row.0], limits, rest);
    }
  }

  lemma RunsUnfold(windows: Store, rows: Store, hit: Call, rest: seq<Call>)
    requires hit.Hit?
    ensures var own := MemoryHit(Lookup(windows, hit.key), hit.limit, hit.windowMs, hit.now);
            MemoryRun(windows, [hit] + rest) == [Served(hit, own.1)] + MemoryRun(windows[hit.key := own.0], rest)
    ensures var row := DatabaseHit(Lookup(rows, hit.key), hit.limit, hit.windowMs, hit.now);
            DatabaseRun(rows, [hit] + rest) == [Served(hit, row.1)] + DatabaseRun(rows[hit.key := row.0], rest)
  {
    assert ([hit] + rest)[1..] == rest;
  }

  function Burst(n: nat, hit: Call): seq<Call> {
    seq(n, _ => hit)
  }

  lemma BurstUnfolds(n: nat, hit: Call, more: seq<Call>)
    requires n > 0
    ensures Burst(n, hit) + more == [hit] + (Burst(n - 1, hit) + more)
  {
  }

  /** More hits with the smaller limit push the row, and not the map, up to the larger limit:
      the next hit, with the larger limit, passes the map alone. */
  lemma {:induction false} BurstSeparates(n: nat, one: Call, two: Call, inMap: int, inRow: int, resetAt: int)
    requires one.Hit? && two.Hit? && one.key == two.key && one.now == two.now < resetAt
    requires inMap <= one.limit < two.limit && inRow + n == two.limit
    ensures var calls := Burst(n, one) + [two];
            var m := MemoryRun(map[one.key := Window(inMap, resetAt)], calls);
            var d := DatabaseRun(map[one.key := Window(inRow, resetAt)], calls);
            |m| == |d| == n + 1 && m[n].verdict.ok && !d[n].verdict.ok
  {
    var windows, rows := map[one.key := Window(inMap, resetAt)], map[one.key := Window(inRow, resetAt)];
    if n == 0 {
      assert Burst(0, one) + [two] == [two] + [];
      RunsUnfold(windows, rows, two, []);
    } else {
      BurstUnfolds(n, one, [two]);
      RunsUnfold(windows, rows, one, Burst(n - 1, one) + [two]);
      var next := if inMap < one.limit then inMap + 1 else inMap;
      assert windows[one.key := Window(next, resetAt)] == map[one.key := Window(next, resetAt)];
      assert rows[one.key := Window(inRow + 1, resetAt)] == map[one.key := Window(inRow + 1, resetAt)];
      BurstSeparates(n - 1, one, two, next, inRow + 1, resetAt);
    }
  }

  /** Any two positive limits on one key separate the stores: fill the row to the larger limit
      with hits of the smaller one, then ask with the larger. */
  lemma TwoLimitsSeparateTheStores(key: string, low: int, high: int, now: int)
    requires 1 <= low < high
    ensures var calls := Burst(high, Hit(key, low, 1000, now)) + [Hit(key, high, 1000, now)];
            MemoryRun(map[], calls) != DatabaseRun(map[], calls)
  {
    var one, two := Hit(key, low, 1000, now), Hit(key, high, 1000, now);
    var rest := Burst(high - 1, one) + [two];
    BurstUnfolds(high, one, [two]);
    RunsUnfold(map[], map[], one, rest);
    var first := Window(1, now + 1000);
    assert map[][key := first] == map[key := first];
    BurstSeparates(high - 1, one, two, 1, 1, now + 1000);
    var m, d := MemoryRun(map[], [one] + rest), DatabaseRun(map[], [one] + rest);
    assert m[high] == MemoryRun(map[key := first], rest)[high - 1];
    assert d[high] == DatabaseRun(map[key := first], rest)[high - 1];
  }

  /** Every hit carries a limit its key may be called with. */
  ghost predicate Obeys(calls: seq<Call>, allows: (string, int) -> bool) {
    forall i | 0 <= i < |calls| && calls[i].Hit? :: allows(calls[i].key, calls[i].limit)
  }

  ghost predicate AgreeUnder(allows: (string, int) -> bool) {
    forall calls | Obeys(calls, allows) && PurgesBehind(calls) :: MemoryRun(map[], calls) == DatabaseRun(map[], calls)
  }

  /** Every limit allows a hit at all, and no key has two. */
  ghost predicate OnePositiveLimitEach(allows: (string, int) -> bool) {
    && (forall key, limit | allows(key, limit) :: limit >= 1)
    && (forall key, limit, other | allows(key, limit) && allows(key, other) :: limit == other)
  }

  lemma SomeLimitSeparates(allows: (string, int) -> bool)
    requires !OnePositiveLimitEach(allows)
    ensures !AgreeUnder(allows)
  {
    if key, limit :| allows(key, limit) && limit < 1 {
      var calls := [Hit(key, limit, 1000, 0)];
      assert Obeys(calls, allows) && PurgesBehind(calls);
      assert MemoryRun(map[], calls)[0].verdict.ok;
      assert !DatabaseRun(map[], calls)[0].verdict.ok;
    } else {
      var key, low, high :| allows(key, low) && allows(key, high) && low < high;
      TwoLimitsSeparateTheStores(key, low, high, 0);
      var calls := Burst(high, Hit(key, low, 1000, 0)) + [Hit(key, high, 1000, 0)];
      assert Obeys(calls, allows) && PurgesBehind(calls);
    }
  }

  ghost function TheLimit(allows: (string, int) -> bool, key: string): int {
    if exists limit :: allows(key, limit) then (var limit :| allows(key, limit); limit) else 1
  }

  /** Starting empty, the stores give the same answers on every run that keeps to the allowed
      limits and never purges ahead of a hit, exactly when every allowed limit is positive and
      each key has at most one. */
  lemma StoresAgreeExactly(allows: (string, int) -> bool)
    ensures AgreeUnder(allows) <==> OnePositiveLimitEach(allows)
  {
    if OnePositiveLimitEach(allows) {
      var limits := key => TheLimit(allows, key);
      forall calls | Obeys(calls, allows) && PurgesBehind(calls)
        ensures MemoryRun(map[], calls) == DatabaseRun(map[], calls)
      {
        assert Follows(calls, limits);
        AlikeRuns(map[], map[], limits, calls);
      }
    } else {
      SomeLimitSeparates(allows);
    }
  }

  ghost predicate PositiveLimits(calls: seq<Call>) {
    forall i | 0 <= i < |calls| && calls[i].Hit? :: calls[i].limit >= 1
  }

  /** Even then the database is never the more generous store. */
  ghost predicate NoMoreGenerous(strict: seq<Served>, lax: seq<Served>) {
    && |strict| == |lax|
    && forall i | 0 <= i < |strict| ::
         && strict[i].hit == lax[i].hit
         && (strict[i].verdict.ok ==> lax[i].verdict.ok && strict[i].verdict.remaining <= lax[i].verdict.remaining)
  }

  ghost predicate Dominates(windows: Store, rows: Store, calls: seq<Call>) {
    && (forall key | key in rows ::
          && key in windows
          && windows[key].resetAt == rows[key].resetAt
          && windows[key].count <= rows[key].count)
    && (forall key, i | key in windows && key !in rows && 0 <= i < |calls| && calls[i].Hit? ::
          windows[key].resetAt <= calls[i].now)
  }

  lemma {:induction false} DominatedRuns(windows: Store, rows: Store, calls: seq<Call>)
    requires PositiveLimits(calls) && PurgesBehind(calls) && Dominates(windows, rows, calls)
    ensures NoMoreGenerous(DatabaseRun(rows, calls), MemoryRun(windows, calls))
    decreases |calls|
  {
    if calls == [] {
    } else {
      var rest := calls[1..];
      match calls[0]
      case Purge(now) =>
        forall key, i | key in windows && key !in Purged(rows, now) && 0 <= i < |rest| && rest[i].Hit?
          ensures windows[key].resetAt <= rest[i].now
        {
          assert rest[i] == calls[i + 1];
        }
        DominatedRuns(windows, Purged(rows, now), rest);
      case Hit(key, limit, windowMs, now) =>
        var own := MemoryHit(Lookup(windows, key), limit, windowMs, now);
        var row := DatabaseHit(Lookup(rows, key), limit, windowMs, now);
        DominatedRuns(windows[key := own.0], rows[key := row.0], rest);
        var strict, lax := DatabaseRun(rows[key := row.0], rest), MemoryRun(windows[key := own.0], rest);
        assert forall i | 0 < i < |strict| + 1 ::
          DatabaseRun(rows, calls)[i] == strict[i - 1] && MemoryRun(windows, calls)[i] == lax[i - 1];
    }
  }

  /** Whatever limits a key is called with, a hit the database lets through is one the map
      would let through, with at least as much remaining. */
  lemma DatabaseNeverMoreGenerous(calls: seq<Call>)
    requires PositiveLimits(calls) && PurgesBehind(calls)
    ensures NoMoreGenerous(DatabaseRun(map[], calls), MemoryRun(map[], calls))
  {
    DominatedRuns(map[], map[], calls);
  }

  // ----- The purge -----

  /** A purge at `purgedAt` goes unnoticed by a hit at `now`, whatever the row held,
      exactly when it is no more than one millisecond ahead of the hit's clock. */
  lemma PurgeIsNeutralExactly(limit: int, windowMs: int, purgedAt: int, now: int)
    requires limit >= 1
    ensures (forall rows: Store, key: string ::
               DatabaseHit(Lookup(Purged(rows, purgedAt), key), limit, windowMs, now)
               == DatabaseHit(Lookup(rows, key), limit, windowMs, now))
            <==> purgedAt <= now + 1
  {
    if purgedAt > now + 1 {
      var rows: Store := map["k" := Window(limit, now + 1)];
      assert Lookup(Purged(rows, purgedAt), "k") == None;
      assert Lookup(rows, "k") == Some(Window(limit, now + 1));
      assert !DatabaseHit(Lookup(rows, "k"), limit, windowMs, now).1.ok;
      assert DatabaseHit(Lookup(Purged(rows, purgedAt), "k"), limit, windowMs, now).1.ok;
    }
  }

  function WithoutPurges(calls: seq<Call>): seq<Call> {
    if calls == [] then []
    else if calls[0].Purge? then WithoutPurges(calls[1..])
    else [calls[0]] + WithoutPurges(calls[1..])
  }

  lemma {:induction false} MemoryIgnoresPurges(windows: Store, calls: seq<Call>)
    ensures MemoryRun(windows, WithoutPurges(calls)) == MemoryRun(windows, calls)
    decreases |calls|
  {
    if calls == [] {
    } else {
      match calls[0]
      case Purge(_) =>
        MemoryIgnoresPurges(windows, calls[1..]);
      case Hit(key, limit, windowMs, now) =>
        var next := MemoryHit(Lookup(windows, key), limit, windowMs, now).0;
        MemoryIgnoresPurges(windows[key := next], calls[1..]);
        assert WithoutPurges(calls)[1..] == WithoutPurges(calls[1..]);
    }
  }

  lemma {:induction false} OnlyHitsRemain(calls: seq<Call>, limits: string -> int)
    requires Follows(calls, limits)
    ensures Follows(WithoutPurges(calls), limits)
    ensures forall i | 0 <= i < |WithoutPurges(calls)| :: WithoutPurges(calls)[i].Hit?
  {
    if calls == [] {
    } else {
      OnlyHitsRemain(calls[1..], limits);
    }
  }

  /** Inserting purges anywhere in a run with a nondecreasing clock changes no answer. */
  lemma PurgesChangeNothing(calls: seq<Call>, limits: string -> int)
    requires forall key :: limits(key) >= 1
    requires Follows(calls, limits) && Nondecreasing(calls)
    ensures DatabaseRun(map[], calls) == DatabaseRun(map[], WithoutPurges(calls))
  {
    OnlyHitsRemain(calls, limits);
    MemoryIgnoresPurges(map[], calls);
    AlikeRuns(map[], map[], limits, calls);
    AlikeRuns(map[], map[], limits, WithoutPurges(calls));
  }

  // ----- How much gets through -----

  /** Every hit on `key` uses the one limit and the one window length. */
  ghost predicate Uses(calls: seq<Call>, key: string, limit: int, windowMs: int) {
    forall i | 0 <= i < |calls| && calls[i].Hit? && calls[i].key == key ::
      calls[i].limit == limit && calls[i].windowMs == windowMs
  }

  /** Hits the interval [from, from + windowMs) can still let through when the clock has
      reached `clock` and the key's row is `row`. */
  ghost function Allowance(row: Option<Window>, limit: int, windowMs: int, from: int, clock: int): int {
    var left := if row.Some? && row.value.count < limit then limit - row.value.count else 0;
    if clock >= from + windowMs then 0
    else if clock < from then 2 * limit - 1
    else if row.None? || row.value.resetAt <= clock then limit
    else if row.value.resetAt >= from + windowMs then left
    else left + limit
  }

  lemma {:induction false} WithinAllowance(
      rows: Store, calls: seq<Call>, key: string, limit: int, windowMs: int, from: int, clock: int)
    requires limit >= 1 && windowMs >= 1
    requires Nondecreasing(calls) && Uses(calls, key, limit, windowMs)
    requires forall i | 0 <= i < |calls| :: clock <= calls[i].now
    requires key in rows ==> rows[key].count >= 1
    ensures Accepted(DatabaseRun(rows, calls), key, from, from + windowMs)
            <= Allowance(Lookup(rows, key), limit, windowMs, from, clock)
    decreases |calls|
  {
    if calls == [] {
    } else {
      var rest, now := calls[1..], calls[0].now;
      if calls[0].Purge? {
        WithinAllowance(Purged(rows, now), rest, key, limit, windowMs, from, now);
      } else {
        var hit := calls[0];
        var (next, verdict) := DatabaseHit(Lookup(rows, hit.key), hit.limit, hit.windowMs, now);
        WithinAllowance(rows[hit.key := next], rest, key, limit, windowMs, from, now);
        assert DatabaseRun(rows, calls)[1..] == DatabaseRun(rows[hit.key := next], rest);
      }
    }
  }

  /** Any interval as long as the window lets through at most 2 * limit - 1 hits of a key. */
  lemma SlidingBound(calls: seq<Call>, key: string, limit: int, windowMs: int, from: int)
    requires limit >= 1 && windowMs >= 1
    requires Nondecreasing(calls) && Uses(calls, key, limit, windowMs)
    ensures Accepted(DatabaseRun(map[], calls), key, from, from + windowMs) <= 2 * limit - 1
  {
    var clock := if calls == [] then from else calls[0].now;
    WithinAllowance(map[], calls, key, limit, windowMs, from, clock);
  }

  /** Hits of `key` made in the half-open interval [from, to), let through or not. */
  ghost function Hits(calls: seq<Call>, key: string, from: int, to: int): nat {
    if calls == [] then 0
    else
      (if calls[0].Hit? && calls[0].key == key && from <= calls[0].now < to then 1 else 0)
      + Hits(calls[1..], key, from, to)
  }

  lemma {:induction false} NothingAfterTheEnd(rows: Store, calls: seq<Call>, key: string, from: int, to: int)
    requires forall i | 0 <= i < |calls| :: to <= calls[i].now
    ensures Accepted(DatabaseRun(rows, calls), key, from, to) == 0 && Hits(calls, key, from, to) == 0
    decreases |calls|
  {
    if calls == [] {
    } else {
      var rest := calls[1..];
      if calls[0].Purge? {
        NothingAfterTheEnd(Purged(rows, calls[0].now), rest, key, from, to);
      } else {
        var hit := calls[0];
        var next := DatabaseHit(Lookup(rows, hit.key), hit.limit, hit.windowMs, hit.now).0;
        NothingAfterTheEnd(rows[hit.key := next], rest, key, from, to);
        assert DatabaseRun(rows, calls)[1..] == DatabaseRun(rows[hit.key := next], rest);
      }
    }
  }

  ghost function Least(x: int, y: int): int {
    if x < y then x else y
  }

  lemma {:induction false} OpenWindowExactly(
      rows: Store, calls: seq<Call>, key: string, limit: int, windowMs: int, from: int)
    requires key in rows && limit >= 1
    requires Nondecreasing(calls) && Uses(calls, key, limit, windowMs)
    requires forall i | 0 <= i < |calls| :: from <= calls[i].now
    ensures var window := rows[key];
            var left := if window.count < limit then limit - window.count else 0;
            Accepted(DatabaseRun(rows, calls), key, from, window.resetAt)
            == Least(left, Hits(calls, key, from, window.resetAt))
    decreases |calls|
  {
    if calls == [] {
    } else {
      var rest, to := calls[1..], rows[key].resetAt;
      if calls[0].now >= to {
        NothingAfterTheEnd(rows, calls, key, from, to);
      } else if calls[0].Purge? {
        OpenWindowExactly(Purged(rows, calls[0].now), rest, key, limit, windowMs, from);
      } else {
        var hit := calls[0];
        var next := DatabaseHit(Lookup(rows, hit.key), hit.limit, hit.windowMs, hit.now).0;
        OpenWindowExactly(rows[hit.key := next], rest, key, limit, windowMs, from);
        assert DatabaseRun(rows, calls)[1..] == DatabaseRun(rows[hit.key := next], rest);
      }
    }
  }

  /** The window a hit opens lets through exactly the limit, or every hit made in it if those
      are fewer. */
  lemma WindowAllowsExactly(rows: Store, calls: seq<Call>, key: string, limit: int, windowMs: int)
    requires limit >= 1 && windowMs >= 1
    requires Nondecreasing(calls) && Uses(calls, key, limit, windowMs)
    requires calls != [] && calls[0].Hit? && calls[0].key == key
    requires key in rows ==> rows[key].resetAt <= calls[0].now
    ensures var start := calls[0].now;
            Accepted(DatabaseRun(rows, calls), key, start, start + windowMs)
            == Least(limit, Hits(calls, key, start, start + windowMs))
  {
    var start, rest := calls[0].now, calls[1..];
    var next := DatabaseHit(Lookup(rows, key), limit, windowMs, start).0;
    OpenWindowExactly(rows[key := next], rest, key, limit, windowMs, start);
    assert DatabaseRun(rows, calls)[1..] == DatabaseRun(rows[key := next], rest);
  }

  lemma HitAccepted(hit: Call, row: Window, others: seq<Call>, from: int, to: int)
    requires hit.Hit? && from <= hit.now < to && hit.now < row.resetAt && row.count < hit.limit
    ensures Accepted(DatabaseRun(map[hit.key := row], [hit] + others), hit.key, from, to)
            == 1 + Accepted(DatabaseRun(map[hit.key := row.(count := row.count + 1)], others), hit.key, from, to)
  {
    RunsUnfold(map[], map[hit.key := row], hit, others);
    var next := row.(count := row.count + 1);
    assert map[hit.key := row][hit.key := next] == map[hit.key := next];
  }

  lemma {:induction false} BurstAccepted(n: nat, hit: Call, row: Window, more: seq<Call>, from: int, to: int)
    requires hit.Hit? && from <= hit.now < to && hit.now < row.resetAt && row.count + n <= hit.limit
    ensures Accepted(DatabaseRun(map[hit.key := row], Burst(n, hit) + more), hit.key, from, to)
            == n + Accepted(DatabaseRun(map[hit.key := row.(count := row.count + n)], more), hit.key, from, to)
  {
    if n == 0 {
      assert Burst(0, hit) + more == more;
    } else {
      BurstUnfolds(n, hit, more);
      HitAccepted(hit, row, Burst(n - 1, hit) + more, from, to);
      BurstAccepted(n - 1, hit, row.(count := row.count + 1), more, from, to);
    }
  }

  /** The run that meets the bound: one hit opens a window, the rest of its allowance is spent
      just before it ends, and a full new allowance right after. */
  function EdgeRun(key: string, limit: nat, windowMs: nat): seq<Call>
    requires limit >= 1 && windowMs >= 2
  {
    [Hit(key, limit, windowMs, 0)]
    + Burst(limit - 1, Hit(key, limit, windowMs, windowMs - 1))
    + ([Hit(key, limit, windowMs, windowMs)] + Burst(limit - 1, Hit(key, limit, windowMs, windowMs)))
  }

  /** Where the early burst has used the window up, the late calls open and fill a new one. */
  lemma LateHitsAccepted(key: string, limit: nat, windowMs: nat)
    requires limit >= 1 && windowMs >= 2
    ensures var late := Hit(key, limit, windowMs, windowMs);
            Accepted(DatabaseRun(map[key := Window(limit, windowMs)], [late] + Burst(limit - 1, late)),
                     key, 1, 1 + windowMs) == limit
  {
    var late := Hit(key, limit, windowMs, windowMs);
    var reopened := Window(1, 2 * windowMs);
    RunsUnfold(map[], map[key := Window(limit, windowMs)], late, Burst(limit - 1, late));
    assert map[key := Window(limit, windowMs)][key := reopened] == map[key := reopened];
    BurstAccepted(limit - 1, late, reopened, [], 1, 1 + windowMs);
    assert Burst(limit - 1, late) + [] == Burst(limit - 1, late);
  }

  lemma EdgeRunIsOrdered(key: string, limit: nat, windowMs: nat)
    requires limit >= 1 && windowMs >= 2
    ensures Nondecreasing(EdgeRun(key, limit, windowMs)) && Uses(EdgeRun(key, limit, windowMs), key, limit, windowMs)
  {
    var calls := EdgeRun(key, limit, windowMs);
    forall i | 0 <= i < |calls|
      ensures calls[i] == Hit(key, limit, windowMs, if i == 0 then 0 else if i < limit then windowMs - 1 else windowMs)
    {
    }
  }

  lemma SlidingBoundIsReached(key: string, limit: nat, windowMs: nat)
    requires limit >= 1 && windowMs >= 2
    ensures var calls := EdgeRun(key, limit, windowMs);
            && Nondecreasing(calls) && Uses(calls, key, limit, windowMs)
            && Accepted(DatabaseRun(map[], calls), key, 1, 1 + windowMs) == 2 * limit - 1
  {
    EdgeRunIsOrdered(key, limit, windowMs);
    var opening, early := Hit(key, limit, windowMs, 0), Hit(key, limit, windowMs, windowMs - 1);
    var late := Hit(key, limit, windowMs, windowMs);
    var tail := [late] + Burst(limit - 1, late);
    assert EdgeRun(key, limit, windowMs) == [opening] + (Burst(limit - 1, early) + tail);
    RunsUnfold(map[], map[], opening, Burst(limit - 1, early) + tail);
    assert map[][key := Window(1, windowMs)] == map[key := Window(1, windowMs)];
    BurstAccepted(limit - 1, early, Window(1, windowMs), tail, 1, 1 + windowMs);
    LateHitsAccepted(key, limit, windowMs);
  }

  /** In a window of one millisecond an interval of its length is a single instant. */
  lemma {:induction false} WithinOneMillisecond(
      rows: Store, calls: seq<Call>, key: string, limit: int, from: int, clock: int)
    requires limit >= 1 && Nondecreasing(calls) && Uses(calls, key, limit, 1)
    requires forall i | 0 <= i < |calls| :: clock <= calls[i].now
    requires key in rows ==> rows[key].count >= 1 && rows[key].resetAt <= clock + 1
    ensures Accepted(DatabaseRun(rows, calls), key, from, from + 1)
            <= if clock > from then 0
               else if clock == from && key in rows && rows[key].resetAt > from then
                 (if rows[key].count < limit then limit - rows[key].count else 0)
               else limit
    decreases |calls|
  {
    if calls == [] {
    } else {
      var rest, now := calls[1..], calls[0].now;
      if calls[0].Purge? {
        WithinOneMillisecond(Purged(rows, now), rest, key, limit, from, now);
      } else {
        var hit := calls[0];
        var next := DatabaseHit(Lookup(rows, hit.key), hit.limit, hit.windowMs, now).0;
        WithinOneMillisecond(rows[hit.key := next], rest, key, limit, from, now);
        assert DatabaseRun(rows, calls)[1..] == DatabaseRun(rows[hit.key := next], rest);
      }
    }
  }

  ghost predicate MeetsSlidingBound(calls: seq<Call>, key: string, limit: int, windowMs: int, from: int) {
    && Nondecreasing(calls) && Uses(calls, key, limit, windowMs)
    && Accepted(DatabaseRun(map[], calls), key, from, from + windowMs) == 2 * limit - 1
  }

  /** The bound is met by some run unless a window of one millisecond allows several hits. */
  lemma SlidingBoundIsMetExactly(key: string, limit: nat, windowMs: nat)
    requires limit >= 1 && windowMs >= 1
    ensures (exists calls: seq<Call>, from: int :: MeetsSlidingBound(calls, key, limit, windowMs, from))
        <==> windowMs >= 2 || limit == 1
  {
    if windowMs >= 2 {
      SlidingBoundIsReached(key, limit, windowMs);
      assert MeetsSlidingBound(EdgeRun(key, limit, windowMs), key, limit, windowMs, 1);
    } else if limit == 1 {
      assert MeetsSlidingBound([Hit(key, 1, 1, 0)], key, 1, 1, 0);
    } else if calls: seq<Call>, from: int :| MeetsSlidingBound(calls, key, limit, windowMs, from) {
      WithinOneMillisecond(map[], calls, key, limit, from, if calls == [] then from else calls[0].now);
    }
  }

  // ----- What a verdict promises -----

  /** Where a run of hits and purges leaves the rows. */
  ghost function RowsAfter(rows: Store, calls: seq<Call>): Store
    decreases |calls|
  {
    if calls == [] then rows
    else match calls[0]
      case Purge(now) => RowsAfter(Purged(rows, now), calls[1..])
      case Hit(key, limit, windowMs, now) =>
        RowsAfter(rows[key := DatabaseHit(Lookup(rows, key), limit, windowMs, now).0], calls[1..])
  }

  /** What one more hit is told after a run. */
  ghost function Told(calls: seq<Call>, hit: Call): Verdict
    requires hit.Hit?
  {
    DatabaseHit(Lookup(RowsAfter(map[], calls), hit.key), hit.limit, hit.windowMs, hit.now).1
  }

  lemma {:induction false} RunGoesOn(rows: Store, calls: seq<Call>, more: seq<Call>)
    ensures DatabaseRun(rows, calls + more) == DatabaseRun(rows, calls) + DatabaseRun(RowsAfter(rows, calls), more)
    ensures RowsAfter(rows, calls + more) == RowsAfter(RowsAfter(rows, calls), more)
    decreases |calls|
  {
    if calls == [] {
      assert calls + more == more;
    } else {
      assert (calls + more)[1..] == calls[1..] + more;
      match calls[0]
      case Purge(now) => RunGoesOn(Purged(rows, now), calls[1..], more);
      case Hit(key, limit, windowMs, now) =>
        RunGoesOn(rows[key := DatabaseHit(Lookup(rows, key), limit, windowMs, now).0], calls[1..], more);
    }
  }

  /** So it is the last answer of the run with that hit. */
  lemma ToldIsServed(calls: seq<Call>, hit: Call)
    requires hit.Hit?
    ensures DatabaseRun(map[], calls + [hit]) == DatabaseRun(map[], calls) + [Served(hit, Told(calls, hit))]
  {
    RunGoesOn(map[], calls, [hit]);
    RunsUnfold(map[], RowsAfter(map[], calls), hit, []);
    assert [hit] + [] == [hit];
  }

  /** And of the same run against the map, under one limit for each key. */
  lemma MapTellsTheSame(calls: seq<Call>, hit: Call, limits: string -> int)
    requires hit.Hit? && Follows(calls + [hit], limits) && PurgesBehind(calls + [hit])
    requires forall key :: limits(key) >= 1
    ensures MemoryRun(map[], calls + [hit]) == DatabaseRun(map[], calls) + [Served(hit, Told(calls, hit))]
  {
    AlikeRuns(map[], map[], limits, calls + [hit]);
    ToldIsServed(calls, hit);
  }

  /** Calls on other keys, and purges before its window ends, leave a key's row alone. */
  lemma {:induction false} RowStays(rows: Store, calls: seq<Call>, key: string)
    requires key in rows
    requires forall i | 0 <= i < |calls| :: if calls[i].Hit? then calls[i].key != key else calls[i].now <= rows[key].resetAt
    ensures key in RowsAfter(rows, calls) && RowsAfter(rows, calls)[key] == rows[key]
    decreases |calls|
  {
    if calls == [] {
    } else {
      match calls[0]
      case Purge(now) => RowStays(Purged(rows, now), calls[1..], key);
      case Hit(other, limit, windowMs, now) =>
        RowStays(rows[other := DatabaseHit(Lookup(rows, other), limit, windowMs, now).0], calls[1..], key);
    }
  }

  /** A window that is over by `later` is over then, or its row purged, whatever other keys do. */
  lemma {:induction false} EndedRowStaysEnded(rows: Store, calls: seq<Call>, key: string, later: int)
    requires key in rows ==> rows[key].resetAt <= later
    requires forall i | 0 <= i < |calls| && calls[i].Hit? :: calls[i].key != key
    ensures key in RowsAfter(rows, calls) ==> RowsAfter(rows, calls)[key].resetAt <= later
    decreases |calls|
  {
    if calls == [] {
    } else {
      match calls[0]
      case Purge(now) => EndedRowStaysEnded(Purged(rows, now), calls[1..], key, later);
      case Hit(other, limit, windowMs, now) =>
        EndedRowStaysEnded(rows[other := DatabaseHit(Lookup(rows, other), limit, windowMs, now).0], calls[1..], key, later);
    }
  }

  lemma WaitSpansWindow(row: Option<Window>, limit: int, windowMs: int, now: int)
    requires limit >= 1 && windowMs >= 1 && !DatabaseHit(row, limit, windowMs, now).1.ok
    ensures var (next, verdict) := DatabaseHit(row, limit, windowMs, now);
            WaitsFor(verdict, next.resetAt - now) && next.count > limit
  {
  }

  /** After any run, a refused hit is told to wait at least a second. If the key is left alone, a
      hit after that many seconds is let through, and one a second or more earlier is not. */
  lemma WaitIsExact(before: seq<Call>, hit: Call, between: seq<Call>, later: int)
    requires hit.Hit? && hit.limit >= 1 && hit.windowMs >= 1 && !Told(before, hit).ok
    requires forall i | 0 <= i < |between| ::
               hit.now <= between[i].now <= later && (between[i].Hit? ==> between[i].key != hit.key)
    ensures var wait := Told(before, hit).retryAfterSeconds;
            var answer := Told(before + [hit] + between, hit.(now := later));
            && wait >= 1
            && (later >= hit.now + 1000 * wait ==> answer.ok)
            && (later <= hit.now + 1000 * (wait - 1) ==> !answer.ok)
  {
    var rows := RowsAfter(map[], before);
    var next := DatabaseHit(Lookup(rows, hit.key), hit.limit, hit.windowMs, hit.now).0;
    WaitSpansWindow(Lookup(rows, hit.key), hit.limit, hit.windowMs, hit.now);
    RunGoesOn(map[], before, [hit]);
    RunGoesOn(map[], before + [hit], between);
    var after := RowsAfter(map[], before + [hit]);
    assert [hit][1..] == [] && after == rows[hit.key := next];
    if later <= next.resetAt {
      RowStays(after, between, hit.key);
    } else {
      EndedRowStaysEnded(after, between, hit.key, later);
    }
  }

  /** After any run, a hit that is let through is told exactly how many more hits of that limit can
      be: so many of those that follow before its window ends are let through, or all if fewer. */
  lemma RemainingIsExact(before: seq<Call>, hit: Call, more: seq<Call>)
    requires hit.Hit? && hit.limit >= 1 && hit.windowMs >= 1 && Told(before, hit).ok
    requires Nondecreasing(more) && Uses(more, hit.key, hit.limit, hit.windowMs)
    requires forall i | 0 <= i < |more| :: hit.now <= more[i].now
    ensures var rows := RowsAfter(map[], before + [hit]);
            && hit.key in rows && Told(before, hit).remaining >= 0 && Told(before, hit).retryAfterSeconds == 0
            && var end := rows[hit.key].resetAt;
               Accepted(DatabaseRun(rows, more), hit.key, hit.now, end)
               == Least(Told(before, hit).remaining, Hits(more, hit.key, hit.now, end))
  {
    var rows := RowsAfter(map[], before);
    var next := DatabaseHit(Lookup(rows, hit.key), hit.limit, hit.windowMs, hit.now).0;
    RunGoesOn(map[], before, [hit]);
    assert [hit][1..] == [] && RowsAfter(map[], before + [hit]) == rows[hit.key := next];
    OpenWindowExactly(rows[hit.key := next], more, hit.key, hit.limit, hit.windowMs, hit.now);
  }

  // ----- Falling back: one database and the maps of several processes -----

  /** A call made by one of the processes, with what the database did about it. A hit the
      database failed is answered by the calling process's own map. */
  datatype FleetCall = FleetCall(call: Call, process: nat, database: Database)

  ghost function FleetRun(rows: Store, maps: seq<Store>, calls: seq<FleetCall>): seq<Served>
    requires forall c | c in calls :: c.process < |maps|
    decreases |calls|
  {
    if calls == [] then []
    else
      var FleetCall(call, process, database) := calls[0];
      match call
      case Purge(now) => FleetRun(Purged(rows, now), maps, calls[1..])
      case Hit(key, limit, windowMs, now) =>
        var row := DatabaseHit(Lookup(rows, key), limit, windowMs, now);
        var own := MemoryHit(Lookup(maps[process], key), limit, windowMs, now);
        var rows' := if database.Fails? then rows else rows[key := row.0];
        var maps' := if database.Answers? then maps else maps[process := maps[process][key := own.0]];
        [Served(call, if database.Answers? then row.1 else own.1)] + FleetRun(rows', maps', calls[1..])
  }

  function Seen(calls: seq<FleetCall>, reaches: FleetCall -> bool): seq<Call> {
    if calls == [] then []
    else if reaches(calls[0]) then [calls[0].call] + Seen(calls[1..], reaches)
    else Seen(calls[1..], reaches)
  }

  function ReachesDatabase(): FleetCall -> bool {
    (c: FleetCall) => c.call.Purge? || !c.database.Fails?
  }

  function ReachesMap(process: nat): FleetCall -> bool {
    (c: FleetCall) => c.call.Hit? && !c.database.Answers? && c.process == process
  }

  /** Hits the maps of processes 0..n let through, each run on its own. */
  ghost function MapsAccepted(maps: seq<Store>, calls: seq<FleetCall>, n: nat, key: string, from: int, to: int): nat
    requires n <= |maps|
  {
    if n == 0 then 0
    else
      MapsAccepted(maps, calls, n - 1, key, from, to)
      + Accepted(MemoryRun(maps[n - 1], Seen(calls, ReachesMap(n - 1))), key, from, to)
  }

  lemma {:induction false} MapsAcceptedStep(
      maps: seq<Store>, calls: seq<FleetCall>, n: nat, key: string, from: int, to: int)
    requires n <= |maps| && calls != [] && calls[0].process < |maps| && calls[0].call.Hit?
    ensures
      var FleetCall(hit, process, database) := calls[0];
      var own := MemoryHit(Lookup(maps[process], hit.key), hit.limit, hit.windowMs, hit.now);
      var maps' := if database.Answers? then maps else maps[process := maps[process][hit.key := own.0]];
      MapsAccepted(maps, calls, n, key, from, to)
      == MapsAccepted(maps', calls[1..], n, key, from, to)
         + (if !database.Answers? && process < n && hit.key == key && from <= hit.now < to && own.1.ok then 1 else 0)
  {
    if n == 0 {
    } else {
      MapsAcceptedStep(maps, calls, n - 1, key, from, to);
      if ReachesMap(n - 1)(calls[0]) {
        RunsUnfold(maps[n - 1], map[], calls[0].call, Seen(calls[1..], ReachesMap(n - 1)));
      }
    }
  }

  lemma {:induction false} MapsIgnorePurge(
      maps: seq<Store>, calls: seq<FleetCall>, n: nat, key: string, from: int, to: int)
    requires n <= |maps| && calls != [] && calls[0].call.Purge?
    ensures MapsAccepted(maps, calls, n, key, from, to) == MapsAccepted(maps, calls[1..], n, key, from, to)
  {
    if n == 0 {
    } else {
      MapsIgnorePurge(maps, calls, n - 1, key, from, to);
    }
  }

  lemma {:induction false} FleetSplits(
      rows: Store, maps: seq<Store>, calls: seq<FleetCall>, key: string, from: int, to: int)
    requires forall c | c in calls :: c.process < |maps|
    ensures Accepted(FleetRun(rows, maps, calls), key, from, to)
            <= Accepted(DatabaseRun(rows, Seen(calls, ReachesDatabase())), key, from, to)
               + MapsAccepted(maps, calls, |maps|, key, from, to)
    decreases |calls|
  {
    if calls == [] {
    } else {
      var FleetCall(call, process, database) := calls[0];
      assert calls[0] in calls;
      var rest := calls[1..];
      if call.Purge? {
        MapsIgnorePurge(maps, calls, |maps|, key, from, to);
        FleetSplits(Purged(rows, call.now), maps, rest, key, from, to);
      } else {
        var row := DatabaseHit(Lookup(rows, call.key), call.limit, call.windowMs, call.now);
        var own := MemoryHit(Lookup(maps[process], call.key), call.limit, call.windowMs, call.now);
        var rows' := if database.Fails? then rows else rows[call.key := row.0];
        var maps' := if database.Answers? then maps else maps[process := maps[process][call.key := own.0]];
        MapsAcceptedStep(maps, calls, |maps|, key, from, to);
        FleetSplits(rows', maps', rest, key, from, to);
        if !database.Fails? {
          RunsUnfold(map[], rows, call, Seen(rest, ReachesDatabase()));
        }
        assert FleetRun(rows, maps, calls)[1..] == FleetRun(rows', maps', rest);
      }
    }
  }

  function Calls(calls: seq<FleetCall>): seq<Call> {
    seq(|calls|, i requires 0 <= i < |calls| => calls[i].call)
  }

  lemma {:induction false} SeenKeepsOrder(calls: seq<FleetCall>, reaches: FleetCall -> bool)
    requires Nondecreasing(Calls(calls))
    ensures Nondecreasing(Seen(calls, reaches))
    ensures forall c | c in Seen(calls, reaches) :: c in Calls(calls)
  {
    if calls == [] {
    } else {
      var rest := calls[1..];
      assert Calls(rest) == Calls(calls)[1..];
      SeenKeepsOrder(rest, reaches);
      forall c | c in Seen(rest, reaches) ensures calls[0].call.now <= c.now && c in Calls(calls) {
        var k :| 0 <= k < |rest| && Calls(rest)[k] == c;
        assert Calls(calls)[0].now <= Calls(calls)[k + 1].now;
      }
      assert calls[0].call == Calls(calls)[0];
    }
  }

  /** Hits seen by one store are called the way the whole fleet calls them. */
  lemma SeenKeepsPolicy(
      calls: seq<FleetCall>, reaches: FleetCall -> bool, limits: string -> int, key: string, windowMs: int)
    requires Nondecreasing(Calls(calls)) && Follows(Calls(calls), limits)
    requires Uses(Calls(calls), key, limits(key), windowMs)
    ensures var seen := Seen(calls, reaches);
            Nondecreasing(seen) && Follows(seen, limits) && Uses(seen, key, limits(key), windowMs)
  {
    SeenKeepsOrder(calls, reaches);
    var seen := Seen(calls, reaches);
    forall i | 0 <= i < |seen| && seen[i].Hit?
      ensures seen[i].limit == limits(seen[i].key)
      ensures seen[i].key == key ==> seen[i].windowMs == windowMs
    {
      assert seen[i] in seen;
      var k :| 0 <= k < |Calls(calls)| && Calls(calls)[k] == seen[i];
    }
  }

  lemma OneMapBound(
      calls: seq<FleetCall>, process: nat, limits: string -> int, key: string, windowMs: int, from: int)
    requires windowMs >= 1 && forall k :: limits(k) >= 1
    requires Nondecreasing(Calls(calls)) && Follows(Calls(calls), limits)
    requires Uses(Calls(calls), key, limits(key), windowMs)
    ensures Accepted(MemoryRun(map[], Seen(calls, ReachesMap(process))), key, from, from + windowMs)
            <= 2 * limits(key) - 1
  {
    var own := Seen(calls, ReachesMap(process));
    SeenKeepsPolicy(calls, ReachesMap(process), limits, key, windowMs);
    OnlyHitsSeen(calls, process);
    AlikeRuns(map[], map[], limits, own);
    SlidingBound(own, key, limits(key), windowMs, from);
  }

  lemma {:induction false} OnlyHitsSeen(calls: seq<FleetCall>, process: nat)
    ensures PurgesBehind(Seen(calls, ReachesMap(process)))
    ensures forall c | c in Seen(calls, ReachesMap(process)) :: c.Hit?
  {
    if calls == [] {
    } else {
      OnlyHitsSeen(calls[1..], process);
    }
  }

  lemma {:induction false} MapsBound(
      maps: seq<Store>, calls: seq<FleetCall>, n: nat, limits: string -> int, key: string, windowMs: int, from: int)
    requires n <= |maps| && windowMs >= 1 && forall k :: limits(k) >= 1
    requires forall p | 0 <= p < |maps| :: maps[p] == map[]
    requires Nondecreasing(Calls(calls)) && Follows(Calls(calls), limits)
    requires Uses(Calls(calls), key, limits(key), windowMs)
    ensures MapsAccepted(maps, calls, n, key, from, from + windowMs) <= n * (2 * limits(key) - 1)
  {
    if n == 0 {
    } else {
      MapsBound(maps, calls, n - 1, limits, key, windowMs, from);
      OneMapBound(calls, n - 1, limits, key, windowMs, from);
      assert n * (2 * limits(key) - 1) == (n - 1) * (2 * limits(key) - 1) + (2 * limits(key) - 1);
    }
  }

  /** Whatever calls the database fails, the whole fleet lets through at most one sliding
      bound for the database and one for each process. */
  lemma FleetBound(processes: nat, calls: seq<FleetCall>, limits: string -> int, key: string, windowMs: int, from: int)
    requires windowMs >= 1 && forall k :: limits(k) >= 1
    requires forall c | c in calls :: c.process < processes
    requires Nondecreasing(Calls(calls)) && Follows(Calls(calls), limits)
    requires Uses(Calls(calls), key, limits(key), windowMs)
    ensures Accepted(FleetRun(map[], seq(processes, _ => map[]), calls), key, from, from + windowMs)
            <= (processes + 1) * (2 * limits(key) - 1)
  {
    var maps: seq<Store> := seq(processes, _ => map[]);
    FleetSplits(map[], maps, calls, key, from, from + windowMs);
    MapsBound(maps, calls, processes, limits, key, windowMs, from);
    SeenKeepsPolicy(calls, ReachesDatabase(), limits, key, windowMs);
    SlidingBound(Seen(calls, ReachesDatabase()), key, limits(key), windowMs, from);
    assert (processes + 1) * (2 * limits(key) - 1)
           == processes * (2 * limits(key) - 1) + (2 * limits(key) - 1);
  }

  // ----- A fleet that meets the bound -----

  /** One hit that the database answers, and one for each process that the database fails. */
  function Broadcast(hit: Call, processes: nat): seq<FleetCall> {
    if processes == 0 then [FleetCall(hit, 0, Answers)]
    else Broadcast(hit, processes - 1) + [FleetCall(hit, processes - 1, Fails)]
  }

  function Broadcasts(calls: seq<Call>, processes: nat): seq<FleetCall> {
    if calls == [] then [] else Broadcast(calls[0], processes) + Broadcasts(calls[1..], processes)
  }

  /** Where each hit reaches one store only, the split is exact. */
  lemma {:induction false} FleetSplitsExactly(
      rows: Store, maps: seq<Store>, calls: seq<FleetCall>, key: string, from: int, to: int)
    requires forall c | c in calls :: c.process < |maps| && c.call.Hit? && !c.database.CommitsThenFails?
    ensures Accepted(FleetRun(rows, maps, calls), key, from, to)
         == Accepted(DatabaseRun(rows, Seen(calls, ReachesDatabase())), key, from, to)
            + MapsAccepted(maps, calls, |maps|, key, from, to)
    decreases |calls|
  {
    if calls == [] {
      NothingInMaps(maps, |maps|, key, from, to);
    } else {
      var FleetCall(call, process, database) := calls[0];
      assert calls[0] in calls;
      var rest := calls[1..];
      var row := DatabaseHit(Lookup(rows, call.key), call.limit, call.windowMs, call.now);
      var own := MemoryHit(Lookup(maps[process], call.key), call.limit, call.windowMs, call.now);
      var rows' := if database.Fails? then rows else rows[call.key := row.0];
      var maps' := if database.Answers? then maps else maps[process := maps[process][call.key := own.0]];
      MapsAcceptedStep(maps, calls, |maps|, key, from, to);
      FleetSplitsExactly(rows', maps', rest, key, from, to);
      if !database.Fails? {
        RunsUnfold(map[], rows, call, Seen(rest, ReachesDatabase()));
      }
      assert FleetRun(rows, maps, calls)[1..] == FleetRun(rows', maps', rest);
    }
  }

  lemma {:induction false} NothingInMaps(maps: seq<Store>, n: nat, key: string, from: int, to: int)
    requires n <= |maps|
    ensures MapsAccepted(maps, [], n, key, from, to) == 0
  {
    if n == 0 {
    } else {
      NothingInMaps(maps, n - 1, key, from, to);
    }
  }

  lemma {:induction false} SeenConcat(one: seq<FleetCall>, two: seq<FleetCall>, reaches: FleetCall -> bool)
    ensures Seen(one + two, reaches) == Seen(one, reaches) + Seen(two, reaches)
  {
    if one == [] {
      assert one + two == two;
    } else {
      assert (one + two)[1..] == one[1..] + two;
      SeenConcat(one[1..], two, reaches);
    }
  }

  /** Of a broadcast the database and every process see the one hit. */
  lemma {:induction false} BroadcastSeen(hit: Call, processes: nat, process: nat)
    requires hit.Hit?
    ensures Seen(Broadcast(hit, processes), ReachesDatabase()) == [hit]
    ensures Seen(Broadcast(hit, processes), ReachesMap(process)) == if process < processes then [hit] else []
    ensures forall c | c in Broadcast(hit, processes) ::
              c.call == hit && !c.database.CommitsThenFails? && (c.process == 0 || c.process < processes)
  {
    if processes == 0 {
      assert Broadcast(hit, 0)[1..] == [];
    } else {
      BroadcastSeen(hit, processes - 1, process);
      var last := [FleetCall(hit, processes - 1, Fails)];
      assert last[1..] == [];
      SeenConcat(Broadcast(hit, processes - 1), last, ReachesDatabase());
      SeenConcat(Broadcast(hit, processes - 1), last, ReachesMap(process));
    }
  }

  lemma {:induction false} BroadcastsSeen(calls: seq<Call>, processes: nat, process: nat)
    requires process < processes && forall c | c in calls :: c.Hit?
    ensures Seen(Broadcasts(calls, processes), ReachesDatabase()) == calls
    ensures Seen(Broadcasts(calls, processes), ReachesMap(process)) == calls
    ensures forall c | c in Broadcasts(calls, processes) ::
              c.call in calls && !c.database.CommitsThenFails? && c.process < processes
  {
    if calls == [] {
    } else {
      assert calls[0] in calls;
      BroadcastSeen(calls[0], processes, process);
      BroadcastsSeen(calls[1..], processes, process);
      SeenConcat(Broadcast(calls[0], processes), Broadcasts(calls[1..], processes), ReachesDatabase());
      SeenConcat(Broadcast(calls[0], processes), Broadcasts(calls[1..], processes), ReachesMap(process));
    }
  }

  lemma JoinOrdered(one: seq<Call>, two: seq<Call>)
    requires Nondecreasing(one) && Nondecreasing(two)
    requires forall a, b | a in one && b in two :: a.now <= b.now
    ensures Nondecreasing(one + two)
  {
    forall i, j | 0 <= i < j < |one + two| ensures (one + two)[i].now <= (one + two)[j].now {
      if i < |one| <= j { assert one[i] in one && two[j - |one|] in two; }
    }
  }

  lemma {:induction false} BroadcastsOrdered(calls: seq<Call>, processes: nat)
    requires processes > 0 && Nondecreasing(calls) && forall c | c in calls :: c.Hit?
    ensures Nondecreasing(Calls(Broadcasts(calls, processes)))
  {
    if calls == [] {
    } else {
      var first, others := Calls(Broadcast(calls[0], processes)), Calls(Broadcasts(calls[1..], processes));
      BroadcastsOrdered(calls[1..], processes);
      BroadcastCalls(calls[0], processes);
      BroadcastsCalls(calls[1..], processes);
      forall b | b in others ensures calls[0].now <= b.now {
        var k :| 0 <= k < |calls[1..]| && calls[1..][k] == b;
        assert calls[k + 1] == b;
      }
      JoinOrdered(first, others);
      assert Calls(Broadcasts(calls, processes)) == first + others;
    }
  }

  lemma BroadcastCalls(hit: Call, processes: nat)
    requires hit.Hit?
    ensures forall c | c in Calls(Broadcast(hit, processes)) :: c == hit
    ensures Nondecreasing(Calls(Broadcast(hit, processes)))
  {
    BroadcastSeen(hit, processes, 0);
    var calls := Calls(Broadcast(hit, processes));
    forall i | 0 <= i < |calls| ensures calls[i] == hit {
      assert Broadcast(hit, processes)[i] in Broadcast(hit, processes);
    }
  }

  lemma BroadcastsCalls(calls: seq<Call>, processes: nat)
    requires processes > 0 && forall c | c in calls :: c.Hit?
    ensures forall c | c in Calls(Broadcasts(calls, processes)) :: c in calls
  {
    BroadcastsSeen(calls, processes, 0);
    var all := Calls(Broadcasts(calls, processes));
    forall i | 0 <= i < |all| ensures all[i] in calls {
      assert Broadcasts(calls, processes)[i] in Broadcasts(calls, processes);
    }
  }

  lemma {:induction false} MapsMeetBound(
      maps: seq<Store>, calls: seq<Call>, n: nat, key: string, from: int, to: int)
    requires n <= |maps| && forall p | 0 <= p < |maps| :: maps[p] == map[]
    requires forall c | c in calls :: c.Hit?
    ensures MapsAccepted(maps, Broadcasts(calls, |maps|), n, key, from, to)
         == n * Accepted(MemoryRun(map[], calls), key, from, to)
  {
    if n == 0 {
    } else {
      MapsMeetBound(maps, calls, n - 1, key, from, to);
      BroadcastsSeen(calls, |maps|, n - 1);
      var one := Accepted(MemoryRun(map[], calls), key, from, to);
      assert n * one == (n - 1) * one + one;
    }
  }

  lemma BroadcastsAccepted(maps: seq<Store>, calls: seq<Call>, key: string, from: int, to: int)
    requires |maps| >= 1 && forall p | 0 <= p < |maps| :: maps[p] == map[]
    requires forall c | c in calls :: c.Hit?
    ensures (forall c | c in Broadcasts(calls, |maps|) :: c.process < |maps|)
            && Accepted(FleetRun(map[], maps, Broadcasts(calls, |maps|)), key, from, to)
               == Accepted(DatabaseRun(map[], calls), key, from, to)
                  + |maps| * Accepted(MemoryRun(map[], calls), key, from, to)
  {
    BroadcastsSeen(calls, |maps|, 0);
    forall c | c in Broadcasts(calls, |maps|) ensures c.call.Hit? { assert c.call in calls; }
    MapsMeetBound(maps, calls, |maps|, key, from, to);
    FleetSplitsExactly(map[], maps, Broadcasts(calls, |maps|), key, from, to);
  }

  lemma SameInBothStores(calls: seq<Call>, limit: int)
    requires limit >= 1 && forall c | c in calls :: c.Hit? && c.limit == limit
    ensures MemoryRun(map[], calls) == DatabaseRun(map[], calls)
  {
    var limits := (_: string) => limit;
    assert forall i | 0 <= i < |calls| :: calls[i] in calls;
    AlikeRuns(map[], map[], limits, calls);
  }

  lemma BroadcastsUse(calls: seq<Call>, processes: nat, key: string, limit: int, windowMs: int)
    requires processes >= 1 && forall c | c in calls :: c.Hit? && c.limit == limit && c.windowMs == windowMs
    ensures Uses(Calls(Broadcasts(calls, processes)), key, limit, windowMs)
  {
    var all := Calls(Broadcasts(calls, processes));
    BroadcastsCalls(calls, processes);
    assert forall i | 0 <= i < |all| :: all[i] in all;
  }

  /** The fleet's bound is sharp too: the run at the edge of two windows, made once against the
      database and once against each process while the database fails it. */
  lemma FleetBoundIsReached(processes: nat, key: string, limit: nat, windowMs: nat)
    requires processes >= 1 && limit >= 1 && windowMs >= 2
    ensures var calls := Broadcasts(EdgeRun(key, limit, windowMs), processes);
            && (forall c | c in calls :: c.process < processes)
            && Nondecreasing(Calls(calls)) && Uses(Calls(calls), key, limit, windowMs)
            && Accepted(FleetRun(map[], seq(processes, _ => map[]), calls), key, 1, 1 + windowMs)
               == (processes + 1) * (2 * limit - 1)
  {
    var edge := EdgeRun(key, limit, windowMs);
    SlidingBoundIsReached(key, limit, windowMs);
    SameInBothStores(edge, limit);
    BroadcastsAccepted(seq(processes, _ => map[]), edge, key, 1, 1 + windowMs);
    BroadcastsOrdered(edge, processes);
    BroadcastsUse(edge, processes, key, limit, windowMs);
  }
}
