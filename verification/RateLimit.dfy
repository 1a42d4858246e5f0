/** The fixed-window rate limiter: its two stores, the fail-open wrapper around
    them, and the older limiter that stopped counting once the limit was hit. */
module RateLimit {
  import opened Wrappers

  /** One key's window: calls counted in it, and the first instant after it. */
  datatype Bucket = Bucket(count: int, resetAt: int)

  type Buckets = map<string, Bucket>

  /** A call at `now` finds no live window and so starts one. */
  predicate Opens(buckets: Buckets, key: string, now: int) {
    key !in buckets || buckets[key].resetAt <= now
  }

  /** The bucket a counted call leaves behind. */
  function Hit(buckets: Buckets, key: string, windowMs: int, now: int): Bucket {
    if Opens(buckets, key, now)
    then Bucket(1, now + windowMs)
    else buckets[key].(count := buckets[key].count + 1)
  }

  class InMemoryRateLimitStore {
    var buckets: Buckets
    var failNext: bool
    var failNextWith: Option<string>

    constructor ()
      ensures buckets == map[] && !failNext && failNextWith == None
    {
      buckets, failNext, failNextWith := map[], false, None;
    }

    method IncrementAndCheck(key: string, windowMs: int, now: int) returns (r: Result<int, string>)
      modifies this
      ensures old(failNext) ==>
        && r.Failure? && !failNext && failNextWith == None && buckets == old(buckets)
        && r.error == (if old(failNextWith).Some? then old(failNextWith).value
                       else "simulated_rate_limit_store_failure")
      ensures !old(failNext) ==>
        && r == Success(Hit(old(buckets), key, windowMs, now).count)
        && buckets == old(buckets)[key := Hit(old(buckets), key, windowMs, now)]
        && !failNext && failNextWith == old(failNextWith)
    {
      if failNext {
        failNext := false;
        var error := if failNextWith.Some? then failNextWith.value else "simulated_rate_limit_store_failure";
        failNextWith := None;
        return Failure(error);
      }
      if key !in buckets || buckets[key].resetAt <= now {
        buckets := buckets[key := Bucket(1, now + windowMs)];
        return Success(1);
      }
      buckets := buckets[key := buckets[key].(count := buckets[key].count + 1)];
      return Success(buckets[key].count);
    }
  }

  /** A row of `rate_limit_bucket`; `count` is a Postgres `integer`. */
  datatype Row = Row(count: int, resetAt: int, updatedAt: int)

  type Table = map<string, Row>

  /** Why the database path can reject. */
  datatype StoreError = InvalidTimeValue | IntegerOutOfRange | StatementFailed | Simulated(message: string)

  const MAX_INT4 := 0x7FFF_FFFF

  /** Largest magnitude a JavaScript Date can hold; `toISOString` throws beyond it. */
  const MAX_TIME_VALUE := 8_640_000_000_000_000

  predicate IsTimeValue(t: int) {
    -MAX_TIME_VALUE <= t <= MAX_TIME_VALUE
  }

  /** The `INSERT ... ON CONFLICT (key) DO UPDATE` statement, as one atomic step:
      either the whole row is written or the table is left alone. */
  function Upsert(table: Table, key: string, windowMs: int, now: int): Result<Table, StoreError> {
    if !IsTimeValue(now) || !IsTimeValue(now + windowMs) then Failure(InvalidTimeValue)
    else if key !in table then Success(table[key := Row(1, now + windowMs, now)])
    else
      var row := table[key];
      var expired := row.resetAt <= now;
      var count := if expired then 1 else row.count + 1;
      var resetAt := if expired then now + windowMs else row.resetAt;
      if count > MAX_INT4 then Failure(IntegerOutOfRange)
      else Success(table[key := Row(count, resetAt, now)])
  }

  /** In numbers: the statement goes through exactly when both instants are within 8.64e15
      milliseconds of the epoch and a live row has not reached 2^31 - 1; it then writes
      this row and leaves every other. */
  lemma UpsertIs(table: Table, key: string, windowMs: int, now: int)
    ensures var r := Upsert(table, key, windowMs, now);
            var live := key in table && now < table[key].resetAt;
            && (r.Success? <==>
                  && -8640000000000000 <= now <= 8640000000000000
                  && -8640000000000000 <= now + windowMs <= 8640000000000000
                  && (live ==> table[key].count < 2147483647))
            && (r.Success? ==> r.value == table[key :=
                  if live then Row(table[key].count + 1, table[key].resetAt, now) else Row(1, now + windowMs, now)])
  {
  }

  /** What the in-memory store would hold for the same rows. */
  function Abstract(table: Table): Buckets {
    map key | key in table :: Bucket(table[key].count, table[key].resetAt)
  }

  /** The upsert refines the in-memory store exactly when both instants are
      representable dates and the live count has not reached the column's limit;
      in every other case it rejects. */
  lemma UpsertRefinesInMemory(table: Table, key: string, windowMs: int, now: int)
    ensures var r := Upsert(table, key, windowMs, now);
            var hit := Hit(Abstract(table), key, windowMs, now);
            && (r.Success? <==> IsTimeValue(now) && IsTimeValue(now + windowMs) && hit.count <= MAX_INT4)
            && (r.Success? ==> key in r.value && r.value[key].count == hit.count)
            && (r.Success? ==> Abstract(r.value) == Abstract(table)[key := hit])
  {
    var r := Upsert(table, key, windowMs, now);
    assert Opens(Abstract(table), key, now) <==> key !in table || table[key].resetAt <= now;
    if r.Success? {
      var hit := Hit(Abstract(table), key, windowMs, now);
      assert forall k | k in table && k != key :: Abstract(r.value)[k] == Abstract(table)[k];
      assert Abstract(r.value) == Abstract(table)[key := hit];
    }
  }

  /** The shared database behind every instance. */
  class Database {
    var rows: Table

    constructor ()
      ensures rows == map[]
    {
      rows := map[];
    }
  }

  class DrizzleRateLimitStore {
    const db: Database

    constructor (db: Database)
      ensures this.db == db
    {
      this.db := db;
    }

    /** `outage` says whether the statement is lost to something outside the model
        (a refused connection, a permission error). */
    method IncrementAndCheck(key: string, windowMs: int, now: int, outage: bool)
      returns (r: Result<int, StoreError>)
      modifies db
      ensures r.Failure? ==> db.rows == old(db.rows)
      ensures r.Failure? <==> outage || Upsert(old(db.rows), key, windowMs, now).Failure?
      ensures r.Success? <==>
        && !outage
        && -8640000000000000 <= now <= 8640000000000000
        && -8640000000000000 <= now + windowMs <= 8640000000000000
        && (key in old(db.rows) && now < old(db.rows)[key].resetAt ==> old(db.rows)[key].count < 2147483647)
      ensures r.Success? ==>
        && Upsert(old(db.rows), key, windowMs, now) == Success(db.rows)
        && r.value == Hit(Abstract(old(db.rows)), key, windowMs, now).count
        && Abstract(db.rows) == Abstract(old(db.rows))[key := Hit(Abstract(old(db.rows)), key, windowMs, now)]
    {
      UpsertRefinesInMemory(db.rows, key, windowMs, now);
      UpsertIs(db.rows, key, windowMs, now);
      var upserted := Upsert(db.rows, key, windowMs, now);
      if outage {
        return Failure(StatementFailed);
      }
      if upserted.Failure? {
        return Failure(upserted.error);
      }
      db.rows := upserted.value;
      return Success(db.rows[key].count);
    }
  }

  /** The verdict of `checkRateLimit`: a store that rejected lets the call through. */
  predicate Admits<E>(counted: Result<int, E>, limit: int) {
    counted.Failure? || counted.value <= limit
  }

  /** The module-level state of `rate-limit.ts`. */
  class RateLimiter {
    const db: Database
    var defaultStore: DrizzleRateLimitStore?
    var testStoreOverride: InMemoryRateLimitStore?

    ghost predicate Valid()
      reads this
    {
      defaultStore != null ==> defaultStore.db == db
    }

    constructor (db: Database)
      ensures Valid() && this.db == db && testStoreOverride == null
    {
      this.db := db;
      defaultStore, testStoreOverride := null, null;
    }

    /** Against the database: a counted call is admitted exactly when its count is
        within the limit; a failed one is admitted and leaves every row alone. */
    method CheckRateLimit(key: string, limit: int, windowMs: int, now: int, outage: bool)
      returns (allowed: bool)
      requires Valid()
      modifies this, db, testStoreOverride
      ensures Valid() && testStoreOverride == old(testStoreOverride)
      ensures testStoreOverride == null ==>
        var before := Abstract(old(db.rows));
        var failed := outage || Upsert(old(db.rows), key, windowMs, now).Failure?;
        && (allowed <==> failed || Hit(before, key, windowMs, now).count <= limit)
        && Abstract(db.rows) == if failed then before else before[key := Hit(before, key, windowMs, now)]
      ensures testStoreOverride == null && !outage
              && 0 <= now <= 8640000000000000 && 0 <= now + windowMs <= 8640000000000000 ==>
        var rows := old(db.rows);
        if key in rows && now < rows[key].resetAt && rows[key].count < 2147483647 then
          && (allowed <==> rows[key].count + 1 <= limit)
          && db.rows == rows[key := Row(rows[key].count + 1, rows[key].resetAt, now)]
        else if key in rows && now < rows[key].resetAt then allowed && db.rows == rows
        else (allowed <==> 1 <= limit) && db.rows == rows[key := Row(1, now + windowMs, now)]
      ensures testStoreOverride != null ==>
        var store := testStoreOverride;
        && db.rows == old(db.rows) && !store.failNext
        && (allowed <==> old(store.failNext) || Hit(old(store.buckets), key, windowMs, now).count <= limit)
        && store.buckets == if old(store.failNext) then old(store.buckets)
                            else old(store.buckets)[key := Hit(old(store.buckets), key, windowMs, now)]
    {
      if testStoreOverride != null {
        var counted := testStoreOverride.IncrementAndCheck(key, windowMs, now);
        return Admits(counted, limit);
      }
      UpsertIs(db.rows, key, windowMs, now);
      if defaultStore == null {
        defaultStore := new DrizzleRateLimitStore(db);
      }
      var counted := defaultStore.IncrementAndCheck(key, windowMs, now, outage);
      return Admits(counted, limit);
    }

    method ResetRateLimits() returns (store: InMemoryRateLimitStore)
      requires Valid()
      modifies this
      ensures Valid() && fresh(store) && testStoreOverride == store
      ensures store.buckets == map[] && !store.failNext
    {
      store := new InMemoryRateLimitStore();
      testStoreOverride := store;
    }
  }

  /** The older limiter's bucket after a call: it stops counting at the limit. */
  function LegacyHit(buckets: Buckets, key: string, limit: int, windowMs: int, now: int): Bucket {
    if Opens(buckets, key, now) then Bucket(1, now + windowMs)
    else if buckets[key].count >= limit then buckets[key]
    else buckets[key].(count := buckets[key].count + 1)
  }

  /** The older limiter's verdict. */
  predicate LegacyAdmits(buckets: Buckets, key: string, limit: int, now: int) {
    Opens(buckets, key, now) || buckets[key].count < limit
  }

  /** The module-level state of the older `rate-limit.ts`. */
  class LegacyRateLimiter {
    var buckets: Buckets

    constructor ()
      ensures buckets == map[]
    {
      buckets := map[];
    }

    method CheckRateLimit(key: string, limit: int, windowMs: int, now: int) returns (allowed: bool)
      modifies this
      ensures allowed == LegacyAdmits(old(buckets), key, limit, now)
      ensures buckets == old(buckets)[key := LegacyHit(old(buckets), key, limit, windowMs, now)]
    {
      if key !in buckets || buckets[key].resetAt <= now {
        buckets := buckets[key := Bucket(1, now + windowMs)];
        return true;
      }
      if buckets[key].count >= limit {
        assert buckets == buckets[key := buckets[key]];
        return false;
      }
      buckets := buckets[key := buckets[key].(count := buckets[key].count + 1)];
      return true;
    }
  }
}
