/** Per-key request quotas over billing periods anchored to the key's creation. */
module ApiKeyQuota {
  import opened Arithmetic
  import opened Wrappers
  import opened Metering

  const DAY_MS := 86_400_000

  datatype Period = Period(periodStart: int, periodEnd: int)

  function ResolveBillingPeriod(keyCreatedAt: int, periodDays: int, now: int): Period
    requires periodDays > 0
  {
    var periodMs := periodDays * DAY_MS;
    var elapsed := Max(0, now - keyCreatedAt);
    var periodStart := keyCreatedAt + elapsed / periodMs * periodMs;
    Period(periodStart, periodStart + periodMs)
  }

  /** Period `k` of a key, counted from its creation. */
  function NthPeriod(keyCreatedAt: int, periodDays: int, k: nat): Period {
    var periodMs := periodDays * 86_400_000;
    Period(keyCreatedAt + k * periodMs, keyCreatedAt + (k + 1) * periodMs)
  }

  predicate Within(p: Period, t: int) {
    p.periodStart <= t < p.periodEnd
  }

  lemma Quotient(e: nat, p: int) returns (k: nat)
    requires p > 0
    ensures k == e / p && e / p * p == k * p && k * p <= e < (k + 1) * p
  {
    k := e / p;
    assert e == p * (e / p) + e % p;
  }

  lemma MultiplesOrdered(j: nat, k: nat, p: int)
    requires p > 0 && j < k
    ensures (j + 1) * p <= k * p
  {
  }

  /** The resolved period is one of the key's periods; it holds the instant exactly when
      the key already existed, and an earlier instant resolves to the first period. */
  lemma PeriodHoldsTheInstant(keyCreatedAt: int, periodDays: int, now: int)
    requires periodDays > 0
    ensures var p := ResolveBillingPeriod(keyCreatedAt, periodDays, now);
            && (exists k :: p == NthPeriod(keyCreatedAt, periodDays, k))
            && (Within(p, now) <==> now >= keyCreatedAt)
            && (now < keyCreatedAt ==> p == NthPeriod(keyCreatedAt, periodDays, 0))
  {
    var elapsed := Max(0, now - keyCreatedAt);
    var k := Quotient(elapsed, periodDays * DAY_MS);
    assert (k + 1) * (periodDays * DAY_MS) == k * (periodDays * DAY_MS) + periodDays * DAY_MS;
    assert ResolveBillingPeriod(keyCreatedAt, periodDays, now) == NthPeriod(keyCreatedAt, periodDays, k);
  }

  /** The periods tile all time from creation: consecutive ones meet, and an instant lies
      in no period but the one resolved for it. */
  lemma PeriodsTileTime(keyCreatedAt: int, periodDays: int, now: int, k: nat)
    requires periodDays > 0
    ensures NthPeriod(keyCreatedAt, periodDays, k).periodEnd == NthPeriod(keyCreatedAt, periodDays, k + 1).periodStart
    ensures Within(NthPeriod(keyCreatedAt, periodDays, k), now) ==>
              ResolveBillingPeriod(keyCreatedAt, periodDays, now) == NthPeriod(keyCreatedAt, periodDays, k)
  {
    var p := periodDays * DAY_MS;
    if Within(NthPeriod(keyCreatedAt, periodDays, k), now) {
      MultipleNonNegative(k, p);
      var j := Quotient(now - keyCreatedAt, p);
      if j < k {
        MultiplesOrdered(j, k, p);
      } else if k < j {
        MultiplesOrdered(k, j, p);
      }
      assert (k + 1) * p == k * p + p;
    }
  }

  lemma MultipleNonNegative(k: nat, p: int)
    requires p > 0
    ensures k * p >= 0
  {
  }

  // ---- the counter rows ----

  datatype Row = Row(periodEnd: int, requestCount: nat)

  /** A usage row is identified by the key and the start of the period. */
  type RowId = (string, int)

  datatype Key = Key(id: string, plan: string, createdAt: int)
  datatype Config = Config(periodDays: int, defaultQuota: int, quotaByPlan: map<string, int>)

  function QuotaForPlan(config: Config, plan: string): int {
    if plan in config.quotaByPlan then config.quotaByPlan[plan] else config.defaultQuota
  }

  function RowIdOf(key: Key, config: Config, now: int): RowId
    requires config.periodDays > 0
  {
    (key.id, ResolveBillingPeriod(key.createdAt, config.periodDays, now).periodStart)
  }

  function CountOf(rows: map<RowId, Row>, id: RowId): nat {
    if id in rows then rows[id].requestCount else 0
  }

  datatype Verdict = NotMetered | Allowed(remaining: nat) | Exceeded(retryAfter: int)

  /** Two instants of a key's life share a usage row exactly when one period holds both. */
  lemma RowsArePeriods(key: Key, config: Config, t: int, u: int)
    requires config.periodDays > 0 && t >= key.createdAt && u >= key.createdAt
    ensures RowIdOf(key, config, t) == RowIdOf(key, config, u) <==>
            exists k ::
              && Within(NthPeriod(key.createdAt, config.periodDays, k), t)
              && Within(NthPeriod(key.createdAt, config.periodDays, k), u)
  {
    PeriodHoldsTheInstant(key.createdAt, config.periodDays, t);
    PeriodHoldsTheInstant(key.createdAt, config.periodDays, u);
    var p := ResolveBillingPeriod(key.createdAt, config.periodDays, t);
    var q := ResolveBillingPeriod(key.createdAt, config.periodDays, u);
    var j :| p == NthPeriod(key.createdAt, config.periodDays, j);
    if p.periodStart == q.periodStart {
      assert Within(NthPeriod(key.createdAt, config.periodDays, j), u);
    }
    forall k | Within(NthPeriod(key.createdAt, config.periodDays, k), t)
           && Within(NthPeriod(key.createdAt, config.periodDays, k), u)
      ensures p == q
    {
      PeriodsTileTime(key.createdAt, config.periodDays, t, k);
      PeriodsTileTime(key.createdAt, config.periodDays, u, k);
    }
  }

  /** Two keys never share a row. */
  lemma KeysNeverShareRows(key: Key, other: Key, config: Config, t: int, u: int)
    requires config.periodDays > 0 && key.id != other.id
    ensures RowIdOf(key, config, t) != RowIdOf(other, config, u)
  {
  }

  // ---- runs ----

  /** Calls on the store, each on the row its key and instant resolve to. */
  datatype Event = Recorded(row: RowId) | Read(row: RowId)

  /** The counters after a run, as the two methods leave them. */
  function Counters(events: seq<Event>): map<RowId, nat> {
    if events == [] then map[]
    else
      var n := |events| - 1;
      var before := Counters(events[..n]);
      match events[n]
      case Read(_) => before
      case Recorded(id) => before[id := (if id in before then before[id] else 0) + 1]
  }

  function CounterOf(events: seq<Event>, id: RowId): nat {
    if id in Counters(events) then Counters(events)[id] else 0
  }

  /** The rows that the run's increments go to, in order. */
  function Increments(events: seq<Event>): seq<RowId> {
    if events == [] then []
    else
      var n := |events| - 1;
      if events[n].Read? then Increments(events[..n]) else Increments(events[..n]) + [events[n].row]
  }

  // ---- the store ----

  /** The rows hold the counters of the calls so far. */
  ghost predicate Mirrors(rows: map<RowId, Row>, events: seq<Event>) {
    forall id :: CountOf(rows, id) == CounterOf(events, id)
  }

  lemma MirrorsRecorded(rows: map<RowId, Row>, events: seq<Event>, id: RowId, periodEnd: int)
    requires Mirrors(rows, events)
    ensures Mirrors(rows[id := Row(if id in rows then rows[id].periodEnd else periodEnd, CountOf(rows, id) + 1)],
                    events + [Recorded(id)])
  {
    var events' := events + [Recorded(id)];
    assert events'[..|events|] == events;
    forall other ensures CounterOf(events', other) == CounterOf(events, other) + if other == id then 1 else 0 {
    }
  }

  lemma MirrorsRead(rows: map<RowId, Row>, events: seq<Event>, id: RowId)
    requires Mirrors(rows, events)
    ensures Mirrors(rows, events + [Read(id)])
  {
    assert (events + [Read(id)])[..|events|] == events;
  }

  class ApiKeyUsage {
    var rows: map<RowId, Row>

    ghost var events: seq<Event> // every call so far

    ghost predicate Valid()
      reads this
    {
      Mirrors(rows, events)
    }

    constructor ()
      ensures Valid() && rows == map[] && events == []
    {
      rows := map[];
      events := [];
    }

    /** The atomic upsert: one more request in the current period of the key. */
    method RecordApiKeyRequest(key: Key, config: Config, now: int) returns (requestCount: nat, period: Period)
      requires Valid() && config.periodDays > 0
      modifies this
      ensures Valid() && events == old(events) + [Recorded(RowIdOf(key, config, now))]
      ensures period == ResolveBillingPeriod(key.createdAt, config.periodDays, now)
      ensures requestCount == CounterOf(events, RowIdOf(key, config, now))
      ensures var id := RowIdOf(key, config, now);
              var end := if id in old(rows) then old(rows)[id].periodEnd else period.periodEnd;
              rows == old(rows)[id := Row(end, requestCount)]
    {
      period := ResolveBillingPeriod(key.createdAt, config.periodDays, now);
      var id := (key.id, period.periodStart);
      MirrorsRecorded(rows, events, id, period.periodEnd);
      if id in rows {
        rows := rows[id := rows[id].(requestCount := rows[id].requestCount + 1)];
      } else {
        rows := rows[id := Row(period.periodEnd, 1)];
      }
      requestCount := rows[id].requestCount;
      events := events + [Recorded(id)];
      assert CountOf(rows, id) == CounterOf(events, id);
    }

    /** Reading the current usage changes no row. */
    method ReadApiKeyUsage(key: Key, config: Config, now: int) returns (requestCount: nat, period: Period)
      requires Valid() && config.periodDays > 0
      modifies this`events
      ensures Valid() && events == old(events) + [Read(RowIdOf(key, config, now))]
      ensures period == ResolveBillingPeriod(key.createdAt, config.periodDays, now)
      ensures requestCount == CounterOf(events, RowIdOf(key, config, now))
    {
      period := ResolveBillingPeriod(key.createdAt, config.periodDays, now);
      var id := (key.id, period.periodStart);
      requestCount := if id in rows then rows[id].requestCount else 0;
      MirrorsRead(rows, events, id);
      events := events + [Read(id)];
      assert CountOf(rows, id) == CounterOf(events, id);
    }

    /** No key, or a store that fails, lets the request through; otherwise it is counted
        and admitted while the count stays within the plan's quota.  A refusal names a wait
        after which the period is over, and less than two seconds more than it takes;
        `later` is the second reading of the clock. */
    method Middleware(apiKey: Option<Key>, config: Config, now: int, later: int, storeFails: bool)
      returns (verdict: Verdict)
      requires Valid() && config.periodDays > 0 && now <= later
      modifies this
      ensures Valid()
      ensures verdict.NotMetered? <==> apiKey.None? || storeFails
      ensures verdict.NotMetered? ==> rows == old(rows) && events == old(events)
      ensures !verdict.NotMetered? ==>
                var id := RowIdOf(apiKey.value, config, now);
                var plan, byPlan := apiKey.value.plan, config.quotaByPlan;
                var quota := if plan in byPlan then byPlan[plan] else config.defaultQuota;
                && events == old(events) + [Recorded(id)]
                && (verdict.Allowed? <==> CounterOf(events, id) <= quota)
                && (verdict.Allowed? ==> verdict.remaining == quota - CounterOf(events, id))
      ensures verdict.Exceeded? ==>
                var end := ResolveBillingPeriod(apiKey.value.createdAt, config.periodDays, now).periodEnd;
                && verdict.retryAfter >= 1
                && later + 1000 * verdict.retryAfter >= end
                && (verdict.retryAfter > 1 ==> later + 1000 * (verdict.retryAfter - 2) < end)
    {
      if apiKey.None? || storeFails {
        return NotMetered;
      }
      var quota := QuotaForPlan(config, apiKey.value.plan);
      var requestCount, period := RecordApiKeyRequest(apiKey.value, config, now);
      if requestCount > quota {
        CeilSecondsMeans(period.periodEnd);
        return Exceeded(Max(1, CeilSeconds(period.periodEnd) - later / 1000));
      }
      return Allowed(quota - requestCount);
    }
  }

  // ---- what every run admits ----

  /** How many requests of a row are admitted under a quota. */
  function AllowedIn(events: seq<Event>, id: RowId, quota: int): nat {
    if events == [] then 0
    else
      var n := |events| - 1;
      AllowedIn(events[..n], id, quota) + if events[n] == Recorded(id) && CounterOf(events, id) <= quota then 1 else 0
  }

  /** A row counts exactly the increments of its own key and period; reads and other rows
      leave it alone. */
  lemma {:induction false} CounterCountsIncrements(events: seq<Event>, id: RowId)
    ensures CounterOf(events, id) == Requests(Increments(events), id)
    decreases |events|
  {
    if events != [] {
      var n := |events| - 1;
      CounterCountsIncrements(events[..n], id);
      if events[n].Recorded? {
        RequestsStep(Increments(events[..n]), events[n].row, id);
      }
    }
  }

  /** For any interleaving with reads and with other keys and periods, exactly min(n, quota)
      of the n requests a key makes in one period are admitted. */
  lemma PeriodAdmitsExactlyTheQuota(events: seq<Event>, id: RowId, quota: nat)
    ensures AllowedIn(events, id, quota) == Min(Requests(Increments(events), id), quota)
  {
    AllowedIsAdmitted(events, id, quota);
    AdmitsExactlyTheLimit(Increments(events), id, quota);
  }

  lemma {:induction false} AllowedIsAdmitted(events: seq<Event>, id: RowId, quota: nat)
    ensures AllowedIn(events, id, quota) == Admitted(Increments(events), id, quota)
    decreases |events|
  {
    if events != [] {
      var n := |events| - 1;
      AllowedIsAdmitted(events[..n], id, quota);
      CounterCountsIncrements(events, id);
      if events[n].Recorded? {
        var before := Increments(events[..n]);
        assert (before + [events[n].row])[..|before|] == before;
      }
    }
  }
}
