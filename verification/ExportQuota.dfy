/** The rolling-window tally of exported rows: a tracker that prunes what has aged
    out, the never-pruned history it stands for, and the wait it announces. */
module ExportQuota {
  import opened Arithmetic

  datatype Entry = Entry(at: int, rows: int)

  // ---- windows over a list of entries ----

  /** The entries younger than the window that ends at `now`, in order. */
  function Live(entries: seq<Entry>, now: int, windowMs: int): seq<Entry> {
    if entries == [] then []
    else (if entries[0].at > now - windowMs then [entries[0]] else []) + Live(entries[1..], now, windowMs)
  }

  function Total(entries: seq<Entry>): int {
    if entries == [] then 0 else entries[0].rows + Total(entries[1..])
  }

  /** Rows exported within the window that ends at `now`. */
  function Usage(entries: seq<Entry>, now: int, windowMs: int): int {
    Total(Live(entries, now, windowMs))
  }

  /** Entries as a non-decreasing clock and `record` leave them. */
  predicate Chronological(entries: seq<Entry>, now: int) {
    entries == [] ||
    (&& entries[0].rows > 0 && entries[0].at <= now
     && (|entries| > 1 ==> entries[0].at <= entries[1].at)
     && Chronological(entries[1..], now))
  }

  lemma {:induction false} ChronologicalAppend(entries: seq<Entry>, now: int, e: Entry)
    requires Chronological(entries, now) && now <= e.at && e.rows > 0
    ensures Chronological(entries + [e], e.at)
  {
    if entries != [] {
      ChronologicalAppend(entries[1..], now, e);
      assert (entries + [e])[1..] == entries[1..] + [e];
      assert |entries| > 1 ==> (entries + [e])[1] == entries[1];
    }
  }

  lemma {:induction false} ChronologicalLater(entries: seq<Entry>, now: int, later: int)
    requires Chronological(entries, now) && now <= later
    ensures Chronological(entries, later)
  {
    if entries != [] {
      ChronologicalLater(entries[1..], now, later);
    }
  }

  lemma {:induction false} SuffixChronological(entries: seq<Entry>, now: int, k: nat)
    requires Chronological(entries, now) && k <= |entries|
    ensures Chronological(entries[k..], now)
  {
    if k > 0 {
      SuffixChronological(entries[1..], now, k - 1);
      assert entries[1..][k - 1..] == entries[k..];
    } else {
      assert entries[0..] == entries;
    }
  }

  lemma {:induction false} LiveAppend(a: seq<Entry>, b: seq<Entry>, now: int, windowMs: int)
    ensures Live(a + b, now, windowMs) == Live(a, now, windowMs) + Live(b, now, windowMs)
  {
    if a == [] {
      assert a + b == b;
    } else {
      assert (a + b)[1..] == a[1..] + b;
      LiveAppend(a[1..], b, now, windowMs);
    }
  }

  lemma {:induction false} TotalAppend(a: seq<Entry>, b: seq<Entry>)
    ensures Total(a + b) == Total(a) + Total(b)
  {
    if a == [] {
      assert a + b == b;
    } else {
      assert (a + b)[1..] == a[1..] + b;
      TotalAppend(a[1..], b);
    }
  }

  /** Pruning at one moment forgets nothing that counts at a later one. */
  lemma {:induction false} PruningIsSafe(entries: seq<Entry>, earlier: int, now: int, windowMs: int)
    requires earlier <= now
    ensures Live(Live(entries, earlier, windowMs), now, windowMs) == Live(entries, now, windowMs)
  {
    if entries != [] {
      PruningIsSafe(entries[1..], earlier, now, windowMs);
      var rest := Live(entries[1..], earlier, windowMs);
      if entries[0].at > earlier - windowMs {
        assert ([entries[0]] + rest)[1..] == rest;
      } else {
        assert [] + rest == rest;
      }
    }
  }

  /** How many of a chronological list's entries have expired. */
  function Expired(entries: seq<Entry>, now: int, windowMs: int): (k: nat)
    ensures k <= |entries|
  {
    if entries == [] || entries[0].at > now - windowMs then 0 else 1 + Expired(entries[1..], now, windowMs)
  }

  lemma {:induction false} ExpiredMeans(entries: seq<Entry>, clock: int, i: nat, now: int, windowMs: int)
    requires Chronological(entries, clock) && i < |entries|
    ensures i < Expired(entries, now, windowMs) <==> entries[i].at <= now - windowMs
    ensures entries[i].at >= entries[0].at
  {
    if i > 0 {
      ExpiredMeans(entries[1..], clock, i - 1, now, windowMs);
    }
  }

  lemma {:induction false} AllLive(entries: seq<Entry>, clock: int, now: int, windowMs: int)
    requires Chronological(entries, clock)
    requires entries != [] ==> entries[0].at > now - windowMs
    ensures Live(entries, now, windowMs) == entries
  {
    if entries != [] {
      AllLive(entries[1..], clock, now, windowMs);
    }
  }

  /** In a chronological list the live entries are what the expired ones leave. */
  lemma {:induction false} LiveIsSuffix(entries: seq<Entry>, clock: int, now: int, windowMs: int)
    requires Chronological(entries, clock)
    ensures Live(entries, now, windowMs) == entries[Expired(entries, now, windowMs)..]
  {
    if Expired(entries, now, windowMs) == 0 {
      AllLive(entries, clock, now, windowMs);
    } else {
      LiveIsSuffix(entries[1..], clock, now, windowMs);
    }
  }

  lemma LiveChronological(entries: seq<Entry>, clock: int, now: int, windowMs: int)
    requires Chronological(entries, clock)
    ensures Chronological(Live(entries, now, windowMs), clock)
  {
    LiveIsSuffix(entries, clock, now, windowMs);
    SuffixChronological(entries, clock, Expired(entries, now, windowMs));
  }

  lemma {:induction false} TotalNonNegative(entries: seq<Entry>, clock: int)
    requires Chronological(entries, clock)
    ensures Total(entries) >= 0
  {
    if entries != [] {
      TotalNonNegative(entries[1..], clock);
    }
  }

  /** The longer tail holds at least the rows of the shorter. */
  lemma {:induction false} TailsShrink(entries: seq<Entry>, clock: int, i: nat, j: nat)
    requires Chronological(entries, clock) && i <= j <= |entries|
    ensures Total(entries[i..]) >= Total(entries[j..])
    decreases j - i
  {
    if i < j {
      TailsShrink(entries, clock, i + 1, j);
      SuffixChronological(entries, clock, i);
      assert entries[i..][1..] == entries[i + 1..];
    }
  }

  // ---- waiting ----

  /** The whole seconds, at least one, until `entry` leaves the window. */
  function WaitFor(entry: Entry, windowMs: int, now: int): int {
    Max(1, CeilSeconds(entry.at + windowMs - now))
  }

  /** Entry `k` of the live list is the one whose expiry brings usage below `maxRows`. */
  predicate Decisive(live: seq<Entry>, k: nat, maxRows: int) {
    k < |live| && Total(live[k..]) >= maxRows && Total(live[k + 1..]) < maxRows
  }

  /** What an announced wait must be for a key whose full history is `history`:
      usage is below the quota once it is over, and still at the quota a second
      earlier; `sampled` and `answered` are the two moments the clock is read. */
  ghost predicate IsExactWait(history: seq<Entry>, seconds: int, maxRows: int, sampled: int, answered: int,
                              windowMs: int)
  {
    && seconds >= 1
    && Usage(history, answered + 1000 * seconds, windowMs) < maxRows
    && Usage(history, sampled, windowMs) >= maxRows
    && (seconds > 1 ==> Usage(history, answered + 1000 * (seconds - 1), windowMs) >= maxRows)
  }

  /** Usage of a live list at a later moment, seen from its decisive entry. */
  lemma UsageAfterWait(live: seq<Entry>, clock: int, k: nat, maxRows: int, later: int, windowMs: int)
    requires Chronological(live, clock) && Decisive(live, k, maxRows)
    ensures Usage(live, later, windowMs) < maxRows <==> later >= live[k].at + windowMs
  {
    var e := Expired(live, later, windowMs);
    LiveIsSuffix(live, clock, later, windowMs);
    ExpiredMeans(live, clock, k, later, windowMs);
    if k < e {
      TailsShrink(live, clock, k + 1, e);
    } else {
      TailsShrink(live, clock, e, k);
    }
  }

  lemma WaitIsExact(history: seq<Entry>, clock: int, k: nat, maxRows: int, sampled: int, answered: int, windowMs: int)
    requires Chronological(history, clock) && clock <= sampled <= answered
    requires Decisive(Live(history, sampled, windowMs), k, maxRows)
    ensures IsExactWait(history, WaitFor(Live(history, sampled, windowMs)[k], windowMs, answered), maxRows, sampled,
                        answered, windowMs)
  {
    var live := Live(history, sampled, windowMs);
    var due := live[k].at + windowMs;
    var s := WaitFor(live[k], windowMs, answered);
    WaitCovers(live[k], windowMs, answered);
    UsageLater(history, clock, k, maxRows, sampled, answered + 1000 * s, windowMs);
    if s > 1 {
      UsageLater(history, clock, k, maxRows, sampled, answered + 1000 * (s - 1), windowMs);
    }
    LiveChronological(history, clock, sampled, windowMs);
    DecisiveIsOver(live, clock, k, maxRows);
  }

  /** The wait ends no earlier than the entry expires, and less than a second later. */
  lemma WaitCovers(entry: Entry, windowMs: int, now: int)
    ensures var s := WaitFor(entry, windowMs, now);
            && s >= 1 && now + 1000 * s >= entry.at + windowMs
            && (s > 1 ==> now + 1000 * (s - 1) < entry.at + windowMs)
  {
    CeilSecondsMeans(entry.at + windowMs - now);
  }

  lemma DecisiveIsOver(live: seq<Entry>, clock: int, k: nat, maxRows: int)
    requires Chronological(live, clock) && Decisive(live, k, maxRows)
    ensures Total(live) >= maxRows
  {
    TailsShrink(live, clock, 0, k);
    assert live[0..] == live;
  }

  lemma UsageLater(history: seq<Entry>, clock: int, k: nat, maxRows: int, sampled: int, later: int, windowMs: int)
    requires Chronological(history, clock) && clock <= sampled <= later
    requires Decisive(Live(history, sampled, windowMs), k, maxRows)
    ensures Usage(history, later, windowMs) < maxRows <==> later >= Live(history, sampled, windowMs)[k].at + windowMs
  {
    var live := Live(history, sampled, windowMs);
    LiveChronological(history, clock, sampled, windowMs);
    PruningIsSafe(history, sampled, later, windowMs);
    UsageAfterWait(live, clock, k, maxRows, later, windowMs);
  }

  /** No two waits are exact for the same question. */
  lemma ExactWaitIsUnique(history: seq<Entry>, s: int, s': int, maxRows: int, clock: int, sampled: int, answered: int,
                          windowMs: int)
    requires Chronological(history, clock)
    requires IsExactWait(history, s, maxRows, sampled, answered, windowMs)
    requires IsExactWait(history, s', maxRows, sampled, answered, windowMs)
    ensures s == s'
  {
    if s < s' {
      UsageOnlyFalls(history, clock, answered + 1000 * s, answered + 1000 * (s' - 1), windowMs);
    } else if s' < s {
      UsageOnlyFalls(history, clock, answered + 1000 * s', answered + 1000 * (s - 1), windowMs);
    }
  }

  /** Without new records, usage never rises. */
  lemma UsageOnlyFalls(history: seq<Entry>, clock: int, earlier: int, later: int, windowMs: int)
    requires Chronological(history, clock) && earlier <= later
    ensures Usage(history, later, windowMs) <= Usage(history, earlier, windowMs)
  {
    var i, j := Expired(history, earlier, windowMs), Expired(history, later, windowMs);
    LiveIsSuffix(history, clock, earlier, windowMs);
    LiveIsSuffix(history, clock, later, windowMs);
    if j < i {
      ExpiredMeans(history, clock, j, earlier, windowMs);
      ExpiredMeans(history, clock, j, later, windowMs);
    }
    TailsShrink(history, clock, i, j);
  }

  // ---- the tracker ----

  function Of(entries: map<string, seq<Entry>>, key: string): seq<Entry> {
    if key in entries then entries[key] else []
  }

  /** What is stored for a key counts, from `clock` on, exactly as its whole history does. */
  ghost predicate Agrees(stored: seq<Entry>, history: seq<Entry>, clock: int, windowMs: int) {
    && Chronological(stored, clock) && Chronological(history, clock)
    && Live(stored, clock, windowMs) == Live(history, clock, windowMs)
  }

  ghost predicate Consistent(usage: map<string, seq<Entry>>, history: map<string, seq<Entry>>, clock: int,
                             windowMs: int)
  {
    forall key :: Agrees(Of(usage, key), Of(history, key), clock, windowMs)
  }

  lemma AgreesLater(stored: seq<Entry>, history: seq<Entry>, clock: int, now: int, windowMs: int)
    requires Agrees(stored, history, clock, windowMs) && clock <= now
    ensures Agrees(stored, history, now, windowMs)
  {
    ChronologicalLater(stored, clock, now);
    ChronologicalLater(history, clock, now);
    PruningIsSafe(stored, clock, now, windowMs);
    PruningIsSafe(history, clock, now, windowMs);
  }

  lemma AgreesPruned(stored: seq<Entry>, history: seq<Entry>, now: int, windowMs: int)
    requires Agrees(stored, history, now, windowMs)
    ensures Agrees(Live(stored, now, windowMs), history, now, windowMs)
  {
    LiveChronological(stored, now, now, windowMs);
    PruningIsSafe(stored, now, now, windowMs);
  }

  lemma AgreesRecorded(stored: seq<Entry>, history: seq<Entry>, now: int, later: int, rows: int, windowMs: int)
    requires Agrees(stored, history, now, windowMs) && now <= later && rows > 0
    ensures Agrees(stored + [Entry(later, rows)], history + [Entry(later, rows)], later, windowMs)
  {
    AgreesLater(stored, history, now, later, windowMs);
    ChronologicalAppend(stored, now, Entry(later, rows));
    ChronologicalAppend(history, now, Entry(later, rows));
    LiveAppend(stored, [Entry(later, rows)], later, windowMs);
    LiveAppend(history, [Entry(later, rows)], later, windowMs);
  }

  lemma ConsistentPruned(usage: map<string, seq<Entry>>, history: map<string, seq<Entry>>, clock: int,
                         key: string, now: int, usage': map<string, seq<Entry>>, windowMs: int)
    requires Consistent(usage, history, clock, windowMs) && clock <= now
    requires Of(usage', key) == Live(Of(usage, key), now, windowMs)
    requires forall other :: other != key ==> Of(usage', other) == Of(usage, other)
    ensures Consistent(usage', history, now, windowMs)
    ensures Of(usage', key) == Live(Of(history, key), now, windowMs)
  {
    forall other ensures Agrees(Of(usage', other), Of(history, other), now, windowMs) {
      AgreesLater(Of(usage, other), Of(history, other), clock, now, windowMs);
      AgreesPruned(Of(usage, other), Of(history, other), now, windowMs);
    }
    AgreesLater(Of(usage, key), Of(history, key), clock, now, windowMs);
  }

  lemma ConsistentRecorded(usage: map<string, seq<Entry>>, history: map<string, seq<Entry>>, now: int,
                           key: string, later: int, rows: int, windowMs: int)
    requires Consistent(usage, history, now, windowMs) && now <= later && rows > 0
    ensures Consistent(usage[key := Of(usage, key) + [Entry(later, rows)]],
                       history[key := Of(history, key) + [Entry(later, rows)]], later, windowMs)
  {
    var usage' := usage[key := Of(usage, key) + [Entry(later, rows)]];
    var history' := history[key := Of(history, key) + [Entry(later, rows)]];
    forall other ensures Agrees(Of(usage', other), Of(history', other), later, windowMs) {
      AgreesLater(Of(usage, other), Of(history, other), now, later, windowMs);
      AgreesRecorded(Of(usage, key), Of(history, key), now, later, rows, windowMs);
    }
  }

  lemma DropOldest(live: seq<Entry>, clock: int, i: nat)
    requires Chronological(live, clock) && i < |live|
    ensures Total(live[i..]) - live[i].rows == Total(live[i + 1..]) >= 0
  {
    assert live[i..][0] == live[i] && live[i..][1..] == live[i + 1..];
    SuffixChronological(live, clock, i + 1);
    TotalNonNegative(live[i + 1..], clock);
  }

  class ExportQuotaTracker {
    const windowMs: int
    var usage: map<string, seq<Entry>>

    ghost var history: map<string, seq<Entry>> // everything ever recorded
    ghost var clock: int // the latest moment the clock was read

    ghost predicate Valid()
      reads this
    {
      Consistent(usage, history, clock, windowMs) && forall key :: key in usage ==> usage[key] != []
    }

    constructor (windowMs: int, ghost start: int)
      ensures Valid() && this.windowMs == windowMs && history == map[] && clock == start
    {
      this.windowMs := windowMs;
      usage := map[];
      history := map[];
      clock := start;
    }

    /** The live entries of `key`; everything older is dropped from the map, and a
        key without live entries is dropped altogether. */
    method Entries(key: string, now: int) returns (live: seq<Entry>)
      requires Valid() && clock <= now
      modifies this
      ensures Valid() && history == old(history) && clock == now
      ensures live == Live(Of(history, key), now, windowMs)
      ensures Of(usage, key) == live
      ensures forall other :: other != key ==> Of(usage, other) == old(Of(usage, other))
    {
      live := Live(Of(usage, key), now, windowMs);
      ghost var before := usage;
      if |live| > 0 {
        usage := usage[key := live];
      } else {
        usage := map k | k in usage && k != key :: usage[k];
      }
      ConsistentPruned(before, history, clock, key, now, usage, windowMs);
      clock := now;
    }

    /** The windowed total over the full history, whatever was pruned before. */
    method Used(key: string, now: int) returns (rows: int)
      requires Valid() && clock <= now
      modifies this
      ensures Valid() && history == old(history) && clock == now
      ensures rows == Usage(Of(history, key), now, windowMs)
    {
      var live := Entries(key, now);
      rows := Total(live);
    }

    /** `now` and `later` are the two readings of the clock. */
    method Record(key: string, rows: int, now: int, later: int)
      requires Valid() && clock <= now <= later
      modifies this
      ensures Valid()
      ensures rows <= 0 ==> history == old(history) && usage == old(usage) && clock == old(clock)
      ensures rows > 0
              ==> history == old(history)[key := old(Of(history, key)) + [Entry(later, rows)]] && clock == later
    {
      if rows <= 0 {
        return;
      }
      var live := Entries(key, now);
      ConsistentRecorded(usage, history, now, key, later, rows, windowMs);
      usage := usage[key := live + [Entry(later, rows)]];
      history := history[key := Of(history, key) + [Entry(later, rows)]];
      clock := later;
    }

    /** Zero under the quota; over it, the exact wait; the source's last return is
        reached only for a quota that is not positive. */
    method RetryAfterSeconds(key: string, maxRows: int, now: int, later: int) returns (seconds: int)
      requires Valid() && clock <= now <= later
      modifies this
      ensures Valid() && history == old(history) && clock == now
      ensures Usage(Of(history, key), now, windowMs) < maxRows ==> seconds == 0
      ensures Usage(Of(history, key), now, windowMs) >= maxRows && maxRows > 0 ==>
                IsExactWait(Of(history, key), seconds, maxRows, now, later, windowMs)
      ensures Usage(Of(history, key), now, windowMs) >= maxRows && maxRows <= 0 ==>
                seconds == Max(1, CeilSeconds(windowMs))
    {
      var live := Entries(key, now);
      ghost var entries := Of(history, key);
      assert Agrees(live, entries, now, windowMs);
      var used := Total(live);
      if used < maxRows {
        return 0;
      }
      assert live[0..] == live;
      for i := 0 to |live|
        invariant used == Total(live[i..]) >= maxRows
        modifies {}
      {
        DropOldest(live, now, i);
        used := used - live[i].rows;
        if used < maxRows {
          WaitIsExact(entries, now, i, maxRows, now, later, windowMs);
          return WaitFor(live[i], windowMs, later);
        }
      }
      assert maxRows <= 0; // a positive quota never gets here
      return Max(1, CeilSeconds(windowMs));
    }
  }

  // ---- admission under concurrency ----

  /** What one key's requests do: the limiter admits or refuses, an admitted request
      later records the rows it returns, or ends without recording any. */
  datatype Event =
    | Request(now: int)
    | Recorded(now: int, rows: int)
    | Abandoned(now: int)

  /** `pending` requests were admitted and have not finished. */
  datatype KeyState = KeyState(history: seq<Entry>, pending: nat, clock: int)

  const EMPTY := KeyState([], 0, 0)

  /** `>=` the quota is refused with status 429. */
  predicate Admitted(s: KeyState, now: int, maxRows: int, windowMs: int) {
    Usage(s.history, now, windowMs) < maxRows
  }

  function Step(s: KeyState, e: Event, maxRows: int, windowMs: int): KeyState {
    match e
    case Request(now) =>
      s.(pending := if Admitted(s, now, maxRows, windowMs) then s.pending + 1 else s.pending, clock := now)
    case Recorded(now, rows) =>
      s.(history := if rows <= 0 then s.history else s.history + [Entry(now, rows)],
         pending := if s.pending == 0 then 0 else s.pending - 1, clock := now)
    case Abandoned(now) =>
      s.(pending := if s.pending == 0 then 0 else s.pending - 1, clock := now)
  }

  function Run(events: seq<Event>, maxRows: int, windowMs: int): KeyState {
    if events == [] then EMPTY
    else Step(Run(events[..|events| - 1], maxRows, windowMs), events[|events| - 1], maxRows, windowMs)
  }

  /** The clock never goes back, only admitted requests finish, a page holds at most
      `page` rows, and never more than `k` admitted requests are unfinished. */
  predicate Lawful(events: seq<Event>, maxRows: int, windowMs: int, page: nat, k: nat) {
    events == [] ||
    var before := Run(events[..|events| - 1], maxRows, windowMs);
    var e := events[|events| - 1];
    && Lawful(events[..|events| - 1], maxRows, windowMs, page, k)
    && before.clock <= e.now
    && (e.Recorded? ==> before.pending > 0 && e.rows <= page)
    && (e.Abandoned? ==> before.pending > 0)
    && Run(events, maxRows, windowMs).pending <= k
  }

  lemma RunStep(events: seq<Event>, e: Event, maxRows: int, windowMs: int)
    ensures Run(events + [e], maxRows, windowMs) == Step(Run(events, maxRows, windowMs), e, maxRows, windowMs)
  {
    assert (events + [e])[..|events|] == events;
  }

  lemma LawfulStep(events: seq<Event>, e: Event, maxRows: int, windowMs: int, page: nat, k: nat)
    requires Lawful(events, maxRows, windowMs, page, k) && Run(events, maxRows, windowMs).clock <= e.now
    requires Run(events + [e], maxRows, windowMs).pending <= k
    requires e.Recorded? ==> Run(events, maxRows, windowMs).pending > 0 && e.rows <= page
    requires e.Abandoned? ==> Run(events, maxRows, windowMs).pending > 0
    ensures Lawful(events + [e], maxRows, windowMs, page, k)
  {
    assert (events + [e])[..|events|] == events;
  }

  /** A request keeps a run lawful if it is refused or fewer than `k` are unfinished. */
  lemma LawfulRequest(events: seq<Event>, now: int, maxRows: int, windowMs: int, page: nat, k: nat)
    requires Lawful(events, maxRows, windowMs, page, k) && Run(events, maxRows, windowMs).clock <= now
    requires Admitted(Run(events, maxRows, windowMs), now, maxRows, windowMs)
             ==> Run(events, maxRows, windowMs).pending < k
    ensures Lawful(events + [Request(now)], maxRows, windowMs, page, k)
    ensures Run(events + [Request(now)], maxRows, windowMs)
            == Step(Run(events, maxRows, windowMs), Request(now), maxRows, windowMs)
  {
    RunStep(events, Request(now), maxRows, windowMs);
    LawfulStep(events, Request(now), maxRows, windowMs, page, k);
  }

  lemma {:induction false} RunChronological(events: seq<Event>, maxRows: int, windowMs: int, page: nat, k: nat)
    requires Lawful(events, maxRows, windowMs, page, k)
    ensures var s := Run(events, maxRows, windowMs); Chronological(s.history, s.clock)
  {
    if events != [] {
      var init, e := events[..|events| - 1], events[|events| - 1];
      RunChronological(init, maxRows, windowMs, page, k);
      var before := Run(init, maxRows, windowMs);
      ChronologicalLater(before.history, before.clock, e.now);
      if e.Recorded? && e.rows > 0 {
        ChronologicalAppend(before.history, before.clock, Entry(e.now, e.rows));
      }
    }
  }

  /** The rows `n` unfinished requests may still record. */
  function Outstanding(page: nat, n: nat): nat {
    if n == 0 then 0 else Outstanding(page, n - 1) + page
  }

  lemma {:induction false} OutstandingIsProduct(page: nat, n: nat)
    ensures Outstanding(page, n) == page * n
  {
    if n > 0 {
      OutstandingIsProduct(page, n - 1);
      assert page * n == page * (n - 1) + page;
    }
  }

  lemma {:induction false} OutstandingMonotone(page: nat, m: nat, n: nat)
    requires m <= n
    ensures Outstanding(page, m) <= Outstanding(page, n)
  {
    if m < n {
      OutstandingMonotone(page, m, n - 1);
    }
  }

  lemma UsageOfOneMore(history: seq<Entry>, e: Entry, now: int, windowMs: int)
    requires e.rows > 0
    ensures Usage(history + [e], now, windowMs) <= Usage(history, now, windowMs) + e.rows
  {
    LiveAppend(history, [e], now, windowMs);
    TotalAppend(Live(history, now, windowMs), Live([e], now, windowMs));
    assert Live([e], now, windowMs) == [e] || Live([e], now, windowMs) == [];
  }

  /** At every moment of every run, rows within the window plus the rows the
      unfinished requests may still record stay within the quota and one page for
      each of the `k`. */
  lemma {:induction false} OvershootIsBounded(events: seq<Event>, maxRows: int, windowMs: int, page: nat, k: nat,
                                              now: int)
    requires maxRows > 0 && Lawful(events, maxRows, windowMs, page, k)
    requires Run(events, maxRows, windowMs).clock <= now
    ensures var s := Run(events, maxRows, windowMs);
            Usage(s.history, now, windowMs) + Outstanding(page, s.pending) <= maxRows - 1 + Outstanding(page, k)
    decreases |events|
  {
    var s := Run(events, maxRows, windowMs);
    if events != [] {
      var init, e := events[..|events| - 1], events[|events| - 1];
      var before := Run(init, maxRows, windowMs);
      if e.Request? && Admitted(before, e.now, maxRows, windowMs) {
        RunChronological(init, maxRows, windowMs, page, k);
        UsageOnlyFalls(before.history, before.clock, e.now, now, windowMs);
        OutstandingMonotone(page, s.pending, k);
      } else {
        OvershootIsBounded(init, maxRows, windowMs, page, k, now);
        if e.Recorded? && e.rows > 0 {
          UsageOfOneMore(before.history, Entry(e.now, e.rows), now, windowMs);
        }
      }
    }
  }

  /** Usage over the window never exceeds `maxRows - 1` and one page per request in flight. */
  lemma WindowedUsageBound(events: seq<Event>, maxRows: int, windowMs: int, page: nat, k: nat, now: int)
    requires maxRows > 0 && Lawful(events, maxRows, windowMs, page, k)
    requires Run(events, maxRows, windowMs).clock <= now
    ensures Usage(Run(events, maxRows, windowMs).history, now, windowMs) <= maxRows - 1 + page * k
  {
    OvershootIsBounded(events, maxRows, windowMs, page, k, now);
    OutstandingIsProduct(page, k);
  }

  // ---- the limiter ----

  function EventsOf(log: map<string, seq<Event>>, key: string): seq<Event> {
    if key in log then log[key] else []
  }

  /** The log of a key explains its history in the tracker, and obeys the rules of a run. */
  ghost predicate Explains(events: seq<Event>, history: seq<Entry>, clock: int, maxRows: int, windowMs: int,
                           page: nat, k: nat)
  {
    && Lawful(events, maxRows, windowMs, page, k)
    && Run(events, maxRows, windowMs).history == history
    && (events == [] || Run(events, maxRows, windowMs).clock <= clock)
  }

  ghost predicate AllExplained(log: map<string, seq<Event>>, history: map<string, seq<Entry>>, clock: int,
                               maxRows: int, windowMs: int, page: nat, k: nat)
  {
    forall key :: Explains(EventsOf(log, key), Of(history, key), clock, maxRows, windowMs, page, k)
  }

  /** One more event of one key. */
  lemma ExplainedStep(log: map<string, seq<Event>>, history: map<string, seq<Entry>>, clock: int,
                      key: string, e: Event, history': map<string, seq<Entry>>, clock': int,
                      maxRows: int, windowMs: int, page: nat, k: nat)
    requires AllExplained(log, history, clock, maxRows, windowMs, page, k) && clock <= clock'
    requires Explains(EventsOf(log, key) + [e], Of(history', key), clock', maxRows, windowMs, page, k)
    requires forall other :: other != key ==> Of(history', other) == Of(history, other)
    ensures AllExplained(log[key := EventsOf(log, key) + [e]], history', clock', maxRows, windowMs, page, k)
  {
    var log' := log[key := EventsOf(log, key) + [e]];
    forall other ensures Explains(EventsOf(log', other), Of(history', other), clock', maxRows, windowMs, page, k) {
      assert Explains(EventsOf(log, other), Of(history, other), clock, maxRows, windowMs, page, k);
    }
  }

  /** The limiter of one scope in front of its exports, which return at most `page` rows;
      at most `inFlight` admitted requests of a key are unfinished at a time. */
  class ExportLimiter {
    const tracker: ExportQuotaTracker
    const maxRows: int
    const page: nat

    ghost const inFlight: nat
    ghost var log: map<string, seq<Event>> // what every key's requests did

    ghost predicate Valid()
      reads this, tracker
    {
      && tracker.Valid() && maxRows > 0 && tracker.clock >= 0
      && AllExplained(log, tracker.history, tracker.clock, maxRows, tracker.windowMs, page, inFlight)
    }

    ghost function StateOf(key: string): KeyState
      reads this, tracker
    {
      Run(EventsOf(log, key), maxRows, tracker.windowMs)
    }

    constructor (maxRows: int, windowMs: int, page: nat, ghost inFlight: nat, ghost start: nat)
      requires maxRows > 0
      ensures Valid() && fresh(tracker) && log == map[]
      ensures this.maxRows == maxRows && tracker.windowMs == windowMs && this.page == page && this.inFlight == inFlight
    {
      tracker := new ExportQuotaTracker(windowMs, start);
      this.maxRows, this.page, this.inFlight := maxRows, page, inFlight;
      log := map[];
    }

    /** Lets a request through exactly while the key's windowed usage is below its quota,
        and otherwise answers with the wait, which is zero if enough usage aged out between
        the two looks at the clock. */
    method Limit(key: string, t0: int, t1: int, t2: int) returns (admitted: bool, retryAfter: int)
      requires Valid() && tracker.clock <= t0 <= t1 <= t2
      requires Usage(Of(tracker.history, key), t0, tracker.windowMs) < maxRows ==> StateOf(key).pending < inFlight
      modifies this, tracker
      ensures Valid() && tracker.history == old(tracker.history)
      ensures log == old(log)[key := EventsOf(old(log), key) + [Request(t0)]]
      ensures StateOf(key).pending == old(StateOf(key)).pending + if admitted then 1 else 0
      ensures admitted <==> Usage(Of(tracker.history, key), t0, tracker.windowMs) < maxRows
      ensures !admitted && Usage(Of(tracker.history, key), t1, tracker.windowMs) >= maxRows ==>
                IsExactWait(Of(tracker.history, key), retryAfter, maxRows, t1, t2, tracker.windowMs)
      ensures !admitted && Usage(Of(tracker.history, key), t1, tracker.windowMs) < maxRows ==> retryAfter == 0
    {
      admitted := Admit(key, t0);
      retryAfter := 0;
      if !admitted {
        retryAfter := Wait(key, t1, t2);
      }
    }

    method Admit(key: string, now: int) returns (admitted: bool)
      requires Valid() && tracker.clock <= now
      requires Usage(Of(tracker.history, key), now, tracker.windowMs) < maxRows ==> StateOf(key).pending < inFlight
      modifies this, tracker
      ensures Valid() && tracker.history == old(tracker.history) && tracker.clock == now
      ensures log == old(log)[key := EventsOf(old(log), key) + [Request(now)]]
      ensures StateOf(key).pending == old(StateOf(key)).pending + if admitted then 1 else 0
      ensures admitted <==> Usage(Of(tracker.history, key), now, tracker.windowMs) < maxRows
    {
      assert Explains(EventsOf(log, key), Of(tracker.history, key), tracker.clock, maxRows, tracker.windowMs, page,
                      inFlight);
      var used := tracker.Used(key, now);
      LawfulRequest(EventsOf(log, key), now, maxRows, tracker.windowMs, page, inFlight);
      ExplainedStep(log, tracker.history, old(tracker.clock), key, Request(now), tracker.history, now,
                    maxRows, tracker.windowMs, page, inFlight);
      log := log[key := EventsOf(log, key) + [Request(now)]];
      admitted := used < maxRows;
    }

    method Wait(key: string, now: int, later: int) returns (seconds: int)
      requires Valid() && tracker.clock <= now <= later
      modifies tracker
      ensures Valid() && tracker.history == old(tracker.history)
      ensures Usage(Of(tracker.history, key), now, tracker.windowMs) < maxRows ==> seconds == 0
      ensures Usage(Of(tracker.history, key), now, tracker.windowMs) >= maxRows ==>
                IsExactWait(Of(tracker.history, key), seconds, maxRows, now, later, tracker.windowMs)
    {
      seconds := tracker.RetryAfterSeconds(key, maxRows, now, later);
    }

    /** An admitted request records the rows it returns; none is recorded as finishing
        without any, and does not look at the clock. */
    method RecordExportedRows(key: string, rows: nat, now: int, later: int)
      requires Valid() && tracker.clock <= now <= later && StateOf(key).pending > 0 && rows <= page
      modifies this, tracker
      ensures Valid()
      ensures var e := Recorded(if rows > 0 then later else old(tracker.clock), rows);
              log == old(log)[key := EventsOf(old(log), key) + [e]]
    {
      ghost var e := Recorded(if rows > 0 then later else tracker.clock, rows);
      RunStep(EventsOf(log, key), e, maxRows, tracker.windowMs);
      LawfulStep(EventsOf(log, key), e, maxRows, tracker.windowMs, page, inFlight);
      tracker.Record(key, rows, now, later);
      ExplainedStep(log, old(tracker.history), old(tracker.clock), key, e, tracker.history, tracker.clock,
                    maxRows, tracker.windowMs, page, inFlight);
      log := log[key := EventsOf(log, key) + [e]];
    }

    /** An admitted request ends in an error before it records anything. */
    ghost method Abandon(key: string)
      requires Valid() && StateOf(key).pending > 0
      modifies this
      ensures Valid() && log == old(log)[key := EventsOf(old(log), key) + [Abandoned(tracker.clock)]]
    {
      var e := Abandoned(tracker.clock);
      RunStep(EventsOf(log, key), e, maxRows, tracker.windowMs);
      LawfulStep(EventsOf(log, key), e, maxRows, tracker.windowMs, page, inFlight);
      ExplainedStep(log, tracker.history, tracker.clock, key, e, tracker.history, tracker.clock,
                    maxRows, tracker.windowMs, page, inFlight);
      log := log[key := EventsOf(log, key) + [e]];
    }

    /** Whatever the requests of any keys do, a key's windowed usage never exceeds
        `maxRows - 1` and one page for each request in flight. */
    lemma UsageIsBounded(key: string, now: int)
      requires Valid() && tracker.clock <= now
      ensures Usage(Of(tracker.history, key), now, tracker.windowMs) <= maxRows - 1 + page * inFlight
    {
      assert Explains(EventsOf(log, key), Of(tracker.history, key), tracker.clock, maxRows, tracker.windowMs, page,
                      inFlight);
      WindowedUsageBound(EventsOf(log, key), maxRows, tracker.windowMs, page, inFlight, now);
    }
  }

  /** The bound is tight for every positive quota and page: after `maxRows - 1` rows, `k`
      requests admitted together can each record a full page within the same window. */
  lemma BoundIsReached(maxRows: int, windowMs: int, page: nat, k: nat)
    requires maxRows > 0 && page >= 1 && windowMs > 0 && k >= 1
    ensures exists events, now ::
              && Lawful(events, maxRows, windowMs, page, k) && Run(events, maxRows, windowMs).clock <= now
              && Usage(Run(events, maxRows, windowMs).history, now, windowMs) == maxRows - 1 + page * k
  {
    BurstRuns(maxRows, windowMs, page, k, k, k);
    OutstandingIsProduct(page, k);
  }

  lemma {:induction false} BurstRuns(maxRows: int, windowMs: int, page: nat, k: nat, admitted: nat, recorded: nat)
    requires maxRows > 0 && page >= 1 && windowMs > 0 && k >= 1 && recorded <= admitted <= k
             && (recorded == 0 || admitted == k)
    ensures InBurst(Burst(maxRows, page, admitted, recorded), maxRows, windowMs, page, k, admitted - recorded,
                    maxRows - 1 + Outstanding(page, recorded))
    decreases admitted + recorded
  {
    if recorded > 0 {
      BurstRuns(maxRows, windowMs, page, k, admitted, recorded - 1);
      assert Burst(maxRows, page, admitted, recorded)
             == Burst(maxRows, page, admitted, recorded - 1) + [Recorded(0, page)];
      RowsRecorded(Burst(maxRows, page, admitted, recorded - 1), maxRows, windowMs, page, k, admitted - recorded + 1,
                   maxRows - 1 + Outstanding(page, recorded - 1), page);
    } else if admitted > 0 {
      BurstRuns(maxRows, windowMs, page, k, admitted - 1, 0);
      assert Burst(maxRows, page, admitted, recorded) == Burst(maxRows, page, admitted - 1, 0) + [Request(0)];
      RequestAdmitted(Burst(maxRows, page, admitted - 1, 0), maxRows, windowMs, page, k, admitted - 1, maxRows - 1);
    } else {
      FillRuns(maxRows, windowMs, page, k, maxRows - 1);
    }
  }

  lemma {:induction false} FillRuns(maxRows: int, windowMs: int, page: nat, k: nat, rows: nat)
    requires rows < maxRows && page >= 1 && windowMs > 0 && k >= 1
    ensures InBurst(Fill(rows), maxRows, windowMs, page, k, 0, rows)
  {
    if rows > 0 {
      var before := Fill(rows - 1);
      FillRuns(maxRows, windowMs, page, k, rows - 1);
      FilledStep(before, maxRows, windowMs, page, k, rows);
    }
  }

  lemma FilledStep(before: seq<Event>, maxRows: int, windowMs: int, page: nat, k: nat, rows: nat)
    requires 0 < rows < maxRows && page >= 1 && windowMs > 0 && k >= 1
    requires InBurst(before, maxRows, windowMs, page, k, 0, rows - 1)
    ensures InBurst(before + [Request(0)] + [Recorded(0, 1)], maxRows, windowMs, page, k, 0, rows)
  {
    var asked := before + [Request(0)];
    RequestAdmitted(before, maxRows, windowMs, page, k, 0, rows - 1);
    RowsRecorded(asked, maxRows, windowMs, page, k, 1, rows - 1, 1);
  }

  /** A lawful run at time 0 with `pending` requests in flight and `rows` rows recorded. */
  predicate InBurst(events: seq<Event>, maxRows: int, windowMs: int, page: nat, k: nat, pending: nat, rows: int) {
    var s := Run(events, maxRows, windowMs);
    && Lawful(events, maxRows, windowMs, page, k)
    && s.pending == pending && s.clock == 0
    && Usage(s.history, 0, windowMs) == rows
  }

  lemma RequestAdmitted(events: seq<Event>, maxRows: int, windowMs: int, page: nat, k: nat, pending: nat, rows: int)
    requires InBurst(events, maxRows, windowMs, page, k, pending, rows) && rows < maxRows && pending < k
    ensures InBurst(events + [Request(0)], maxRows, windowMs, page, k, pending + 1, rows)
  {
    assert (events + [Request(0)])[..|events|] == events;
  }

  lemma RowsRecorded(events: seq<Event>, maxRows: int, windowMs: int, page: nat, k: nat, pending: nat, rows: int,
                     n: nat)
    requires InBurst(events, maxRows, windowMs, page, k, pending, rows) && 0 < pending <= k && 0 < n <= page
             && windowMs > 0
    ensures InBurst(events + [Recorded(0, n)], maxRows, windowMs, page, k, pending - 1, rows + n)
  {
    assert (events + [Recorded(0, n)])[..|events|] == events;
    UsageNow(Run(events, maxRows, windowMs).history, Entry(0, n), windowMs);
  }

  lemma UsageNow(history: seq<Entry>, e: Entry, windowMs: int)
    requires e.at == 0 && windowMs > 0
    ensures Usage(history + [e], 0, windowMs) == Usage(history, 0, windowMs) + e.rows
  {
    LiveAppend(history, [e], 0, windowMs);
    TotalAppend(Live(history, 0, windowMs), Live([e], 0, windowMs));
    assert Live([e], 0, windowMs) == [e];
  }

  /** `rows` requests one after the other, each recording a single row. */
  function Fill(rows: nat): seq<Event> {
    if rows == 0 then [] else Fill(rows - 1) + [Request(0)] + [Recorded(0, 1)]
  }

  /** Then `admitted` requests, then `recorded` full pages. */
  function Burst(maxRows: int, page: nat, admitted: nat, recorded: nat): seq<Event>
    requires maxRows > 0
  {
    if recorded > 0 then Burst(maxRows, page, admitted, recorded - 1) + [Recorded(0, page)]
    else if admitted > 0 then Burst(maxRows, page, admitted - 1, 0) + [Request(0)]
    else Fill(maxRows - 1)
  }
}
