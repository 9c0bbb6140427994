/** Fixed one-minute windows per tenant. */
module TenantRateLimit {
  import opened Arithmetic
  import opened Metering
  import opened Wrappers

  const WINDOW_MS := 60_000
  const GLOBAL_RATE_LIMIT_MAX := 300
  const MAX_TENANT_REQUESTS_PER_MINUTE := GLOBAL_RATE_LIMIT_MAX * 8 / 10
  const MAX_SAFE_INTEGER := 9_007_199_254_740_991

  datatype Window = Window(windowStart: int, requestCount: nat)

  /** What the middleware does with a request: it passes requests it does not meter. */
  datatype Verdict =
    | Unmetered
    | Allowed(remaining: nat)
    | Exceeded(retryAfter: int)
    | InvalidPlan

  function WindowStart(now: int): int {
    now / 60_000 * 60_000
  }

  predicate ValidPlanLimit(planLimit: int) {
    0 < planLimit <= MAX_SAFE_INTEGER
  }

  /** The plan's limit, kept below the share one tenant may take. */
  function RequestLimit(planLimit: int): int {
    Min(planLimit, MAX_TENANT_REQUESTS_PER_MINUTE)
  }

  /** The tenant's window after one more request. */
  function Counted(windows: map<string, Window>, tenant: string, now: int): Window {
    var start := WindowStart(now);
    if tenant in windows && windows[tenant].windowStart == start
    then Window(start, windows[tenant].requestCount + 1)
    else Window(start, 1)
  }

  /** The parts of a request the middleware looks at. */
  class Request {
    var identified: bool // `user` or `adminAuth` is set
    var tenantRateLimitApplied: bool

    constructor ()
      ensures !identified && !tenantRateLimitApplied
    {
      identified, tenantRateLimitApplied := false, false;
    }
  }

  // ---- runs ----

  /** A metered request, with its tenant's plan limit at that time. */
  datatype Event = Event(request: Request, tenant: string, planLimit: int, now: int)

  function Windows(events: seq<Event>): map<string, Window> {
    if events == [] then map[]
    else
      var n := |events| - 1;
      var before := Windows(events[..n]);
      before[events[n].tenant := Counted(before, events[n].tenant, events[n].now)]
  }

  /** The count that decides the last request. */
  function LastCount(events: seq<Event>): nat
    requires events != []
  {
    Windows(events)[events[|events| - 1].tenant].requestCount
  }

  lemma WindowsStep(events: seq<Event>, e: Event)
    ensures Windows(events + [e]) == Windows(events)[e.tenant := Counted(Windows(events), e.tenant, e.now)]
  {
    assert (events + [e])[..|events|] == events;
  }

  // ---- the middleware ----

  /** A call of the middleware, with what it finds. */
  datatype Call = Call(request: Request, identified: bool, tenant: string, planLimit: int, now: int)

  predicate Identifies(c: Call, r: Request) {
    c.request == r && c.identified
  }

  /** The first call that finds the request identified. */
  function FirstCall(calls: seq<Call>, r: Request): (first: Option<Call>)
    ensures first.None? <==> forall i :: 0 <= i < |calls| ==> !Identifies(calls[i], r)
    ensures first.Some? ==> exists i :: 0 <= i < |calls| && calls[i] == first.value && Identifies(calls[i], r)
                                     && forall j :: 0 <= j < i ==> !Identifies(calls[j], r)
  {
    if calls == [] then None
    else
      var n := |calls| - 1;
      var first := FirstCall(calls[..n], r);
      assert forall i :: 0 <= i < n ==> calls[..n][i] == calls[i];
      if first.Some? then first
      else if Identifies(calls[n], r) then Some(calls[n]) else None
  }

  /** What calls leave behind: the requests that one of them found identified, and the
      requests counted, in order. */
  datatype Tally = Tally(identified: set<Request>, events: seq<Event>)

  function EventOf(c: Call): Event {
    Event(c.request, c.tenant, c.planLimit, c.now)
  }

  /** A call counts its request if it is the first to find it identified, under a plan
      whose limit is valid. */
  function Tallied(t: Tally, c: Call): Tally {
    if !c.identified || c.request in t.identified then t
    else Tally(t.identified + {c.request},
               if ValidPlanLimit(c.planLimit) then t.events + [EventOf(c)] else t.events)
  }

  function TallyOf(calls: seq<Call>): Tally {
    if calls == [] then Tally({}, []) else Tallied(TallyOf(calls[..|calls| - 1]), calls[|calls| - 1])
  }

  lemma TallyStep(calls: seq<Call>, c: Call)
    ensures TallyOf(calls + [c]) == Tallied(TallyOf(calls), c)
  {
    assert (calls + [c])[..|calls|] == calls;
  }

  /** Among these requests, exactly the identified ones carry the mark. */
  ghost predicate Marked(identified: set<Request>, requests: set<Request>)
    reads requests`tenantRateLimitApplied
  {
    identified <= requests && forall r :: r in requests ==> (r.tenantRateLimitApplied <==> r in identified)
  }

  class TenantWindows {
    var windows: map<string, Window>

    ghost var calls: seq<Call> // every call of the middleware so far
    ghost var requests: set<Request> // the requests of these calls
    ghost var tally: Tally // what these calls leave behind

    /** The windows hold the counted requests. */
    ghost predicate Valid()
      reads this, requests`tenantRateLimitApplied
    {
      windows == Windows(tally.events) && Logged()
    }

    ghost predicate Logged()
      reads this`tally, this`calls, this`requests, requests`tenantRateLimitApplied
    {
      tally == TallyOf(calls) && Marked(tally.identified, requests)
    }

    constructor ()
      ensures Valid() && calls == [] && requests == {}
    {
      windows := map[];
      calls, requests, tally := [], {}, Tally({}, []);
    }

    /** Meters an identified request once.  A request arrives without the mark. */
    method Middleware(req: Request, tenant: string, planLimit: int, now: int) returns (verdict: Verdict)
      requires Valid()
      requires req !in requests ==> !req.tenantRateLimitApplied
      modifies this, req`tenantRateLimitApplied
      ensures Valid() && calls == old(calls) + [Call(req, req.identified, tenant, planLimit, now)]
              && requests == old(requests) + {req}
      ensures verdict == Unmetered <==> !req.identified || req in old(tally.identified)
      ensures verdict == InvalidPlan <==> verdict != Unmetered && !(0 < planLimit <= 9_007_199_254_740_991)
      ensures verdict.Unmetered? || verdict.InvalidPlan?
              ==> tally.events == old(tally.events) && windows == old(windows)
      ensures verdict != Unmetered && verdict != InvalidPlan ==>
                && tally.events == old(tally.events) + [Event(req, tenant, planLimit, now)]
                && IsDecision(verdict, LastCount(tally.events), RequestLimit(planLimit), now)
                && (verdict.Allowed? <==> LastCount(tally.events) <= if planLimit <= 240 then planLimit else 240)
    {
      var first := Mark(req, tenant, planLimit, now);
      if !first {
        return Unmetered;
      }
      if !ValidPlanLimit(planLimit) {
        return InvalidPlan;
      }
      verdict := Meter(Event(req, tenant, planLimit, now), tenant, now, RequestLimit(planLimit), old(tally.events));
    }

    /** Marks a request that is identified for the first time. */
    method Mark(req: Request, tenant: string, planLimit: int, now: int) returns (first: bool)
      requires Logged()
      requires req !in requests ==> !req.tenantRateLimitApplied
      modifies this`calls, this`tally, this`requests, req`tenantRateLimitApplied
      ensures Logged() && requests == old(requests) + {req}
      ensures calls == old(calls) + [Call(req, req.identified, tenant, planLimit, now)]
      ensures first <==> req.identified && req !in old(tally.identified)
      ensures tally == Tallied(old(tally), Call(req, req.identified, tenant, planLimit, now))
    {
      ghost var call := Call(req, req.identified, tenant, planLimit, now);
      TallyStep(calls, call);
      first := req.identified && !req.tenantRateLimitApplied;
      if first {
        req.tenantRateLimitApplied := true;
      }
      tally := Tallied(tally, call);
      calls, requests := calls + [call], requests + {req};
    }

    /** Counts the request in its tenant's current window, which starts anew when its
        minute is over. */
    method Meter(ghost event: Event, tenant: string, now: int, limit: int, ghost before: seq<Event>)
      returns (verdict: Verdict)
      requires event.tenant == tenant && event.now == now
      requires windows == Windows(before)
      modifies this`windows
      ensures windows == Windows(before + [event])
      ensures IsDecision(verdict, LastCount(before + [event]), limit, now)
    {
      WindowsStep(before, event);
      var windowStart := WindowStart(now);
      if tenant !in windows || windows[tenant].windowStart != windowStart {
        windows := windows[tenant := Window(windowStart, 0)];
      }
      windows := windows[tenant := Window(windowStart, windows[tenant].requestCount + 1)];
      verdict := Decide(windows[tenant].requestCount, limit, now);
    }
  }

  /** A count within the limit passes; a refusal names the number of seconds, rounded up,
      until the window is over. */
  predicate IsDecision(verdict: Verdict, count: nat, limit: int, now: int) {
    match verdict
    case Allowed(remaining) => count <= limit && remaining == limit - count
    case Exceeded(retryAfter) =>
      && count > limit && retryAfter >= 1
      && now + 1000 * retryAfter >= WindowStart(now) + WINDOW_MS
      && now + 1000 * (retryAfter - 1) < WindowStart(now) + WINDOW_MS
    case _ => false
  }

  /** In numbers: the window ends with the clock's minute. */
  lemma DecisionMeans(verdict: Verdict, count: nat, limit: int, now: int)
    requires IsDecision(verdict, count, limit, now)
    ensures verdict.Allowed? || verdict.Exceeded?
    ensures verdict.Allowed? <==> count <= limit
    ensures verdict.Allowed? ==> verdict.remaining == limit - count
    ensures verdict.Exceeded? ==>
              var end := now - now % 60_000 + 60_000;
              verdict.retryAfter >= 1 && 0 <= now + 1000 * verdict.retryAfter - end < 1000
  {
  }

  method Decide(count: nat, limit: int, now: int) returns (verdict: Verdict)
    ensures IsDecision(verdict, count, limit, now)
  {
    if count > limit {
      var resetAt := WindowStart(now) + WINDOW_MS;
      CeilSecondsMeans(resetAt - now);
      return Exceeded(Max(1, CeilSeconds(resetAt - now)));
    }
    return Allowed(limit - count);
  }

  /** How often a request was counted. */
  function Times(events: seq<Event>, r: Request): nat {
    if events == [] then 0
    else
      var n := |events| - 1;
      Times(events[..n], r) + if events[n].request == r then 1 else 0
  }

  lemma TimesStep(events: seq<Event>, e: Event, r: Request)
    ensures Times(events + [e], r) == Times(events, r) + if e.request == r then 1 else 0
  {
    assert (events + [e])[..|events|] == events;
  }

  lemma FirstCallStep(calls: seq<Call>, c: Call, r: Request)
    ensures FirstCall(calls + [c], r)
         == if FirstCall(calls, r).Some? then FirstCall(calls, r) else if Identifies(c, r) then Some(c) else None
  {
    assert (calls + [c])[..|calls|] == calls;
  }

  /** Whatever guards call the middleware, and however often: a request is counted at most
      once, and it is counted exactly if some call finds it identified and the plan's limit
      is valid at the first such call. */
  lemma {:induction false} MeteredAtMostOnce(calls: seq<Call>, r: Request)
    ensures r in TallyOf(calls).identified <==> FirstCall(calls, r).Some?
    ensures Times(TallyOf(calls).events, r)
         == var first := FirstCall(calls, r); if first.Some? && ValidPlanLimit(first.value.planLimit) then 1 else 0
    decreases |calls|
  {
    if calls != [] {
      var init, c := calls[..|calls| - 1], calls[|calls| - 1];
      MeteredAtMostOnce(init, r);
      assert calls == init + [c];
      TallyStep(init, c);
      FirstCallStep(init, c, r);
      TimesStep(TallyOf(init).events, EventOf(c), r);
    }
  }

  /** Identified twice and counted never: an invalid plan limit at the first call spends
      the mark. */
  lemma InvalidPlanIsNeverMetered(r: Request, first: Call, second: Call)
    requires Identifies(first, r) && Identifies(second, r) && !ValidPlanLimit(first.planLimit)
    ensures TallyOf([first, second]).events == []
  {
    TallyStep([], first);
    TallyStep([first], second);
    assert [] + [first] == [first] && [first] + [second] == [first, second];
  }

  // ---- what every run allows ----

  predicate ClockForward(events: seq<Event>) {
    forall i, j :: 0 <= i < j < |events| ==> events[i].now <= events[j].now
  }

  type Bucket = (string, int)

  function BucketOf(e: Event): Bucket {
    (e.tenant, WindowStart(e.now))
  }

  function Buckets(events: seq<Event>): (b: seq<Bucket>)
    ensures |b| == |events|
  {
    if events == [] then [] else Buckets(events[..|events| - 1]) + [BucketOf(events[|events| - 1])]
  }

  lemma BucketsInit(events: seq<Event>)
    requires events != []
    ensures Buckets(events)[..|events| - 1] == Buckets(events[..|events| - 1])
    ensures Buckets(events)[|events| - 1] == BucketOf(events[|events| - 1])
  {
  }

  /** The tenant's window counts its requests of the aligned minute it stands in, and no
      request of the tenant is in a later minute. */
  ghost predicate Tracks(events: seq<Event>, tenant: string) {
    var windows := Windows(events);
    if tenant in windows then
      && windows[tenant].requestCount == Requests(Buckets(events), (tenant, windows[tenant].windowStart))
      && forall start :: start > windows[tenant].windowStart ==> Requests(Buckets(events), (tenant, start)) == 0
    else forall start: int :: Requests(Buckets(events), (tenant, start)) == 0
  }

  lemma {:induction false} WindowsTrack(events: seq<Event>, tenant: string)
    requires ClockForward(events)
    ensures Tracks(events, tenant)
    ensures events != [] && tenant in Windows(events) ==>
              Windows(events)[tenant].windowStart <= WindowStart(events[|events| - 1].now)
    decreases |events|
  {
    if events != [] {
      var n := |events| - 1;
      var init, e := events[..n], events[n];
      WindowsTrack(init, tenant);
      BucketsInit(events);
      if n > 0 && tenant in Windows(init) {
        WindowStartMonotone(init[n - 1].now, e.now);
      }
      forall start: int
        ensures Requests(Buckets(events), (tenant, start))
             == Requests(Buckets(init), (tenant, start))
                + if e.tenant == tenant && WindowStart(e.now) == start then 1 else 0
      {
      }
    }
  }

  /** Windows are the minutes of the clock. */
  lemma WindowIsAMinute(now: int)
    ensures WindowStart(now) <= now < WindowStart(now) + 60_000 && WindowStart(now) % 60_000 == 0
  {
  }

  lemma WindowStartMonotone(a: int, b: int)
    requires a <= b
    ensures WindowStart(a) <= WindowStart(b)
  {
  }

  /** Under a clock that never goes back, the count a request meets is the number of its
      tenant's requests in its own aligned minute so far. */
  lemma CountIsRequestsInMinute(events: seq<Event>)
    requires ClockForward(events) && events != []
    ensures LastCount(events) == Requests(Buckets(events), BucketOf(events[|events| - 1]))
  {
    WindowsTrack(events, events[|events| - 1].tenant);
  }

  /** The requests of a bucket that the middleware allows in a run. */
  function AllowedIn(events: seq<Event>, b: Bucket, limit: int): nat {
    if events == [] then 0
    else
      var n := |events| - 1;
      AllowedIn(events[..n], b, limit) + if BucketOf(events[n]) == b && LastCount(events) <= limit then 1 else 0
  }

  /** Each tenant is allowed exactly min(requests, limit) in each aligned minute, however
      its requests interleave with those of others. */
  lemma MinuteAllowsExactlyTheLimit(events: seq<Event>, tenant: string, start: int, limit: nat)
    requires ClockForward(events)
    ensures AllowedIn(events, (tenant, start), limit) == Min(Requests(Buckets(events), (tenant, start)), limit)
  {
    AllowedIsAdmitted(events, (tenant, start), limit);
    AdmitsExactlyTheLimit(Buckets(events), (tenant, start), limit);
  }

  lemma {:induction false} AllowedIsAdmitted(events: seq<Event>, b: Bucket, limit: nat)
    requires ClockForward(events)
    ensures AllowedIn(events, b, limit) == Admitted(Buckets(events), b, limit)
    decreases |events|
  {
    if events != [] {
      AllowedIsAdmitted(events[..|events| - 1], b, limit);
      BucketsInit(events);
      CountIsRequestsInMinute(events);
    }
  }

  /** The tenant's requests allowed at times in [from, from + one minute). */
  function AllowedSince(events: seq<Event>, tenant: string, from: int, limit: int): nat {
    if events == [] then 0
    else
      var n := |events| - 1;
      var e := events[n];
      AllowedSince(events[..n], tenant, from, limit)
      + if e.tenant == tenant && from <= e.now < from + WINDOW_MS && LastCount(events) <= limit then 1 else 0
  }

  lemma MinuteSpansTwoWindows(from: int, now: int)
    requires from <= now < from + WINDOW_MS
    ensures WindowStart(now) == WindowStart(from) || WindowStart(now) == WindowStart(from) + WINDOW_MS
  {
  }

  lemma {:induction false} SinceIsCoveredByTwo(events: seq<Event>, tenant: string, from: int, limit: int)
    ensures AllowedSince(events, tenant, from, limit)
         <= AllowedIn(events, (tenant, WindowStart(from)), limit)
            + AllowedIn(events, (tenant, WindowStart(from) + WINDOW_MS), limit)
    decreases |events|
  {
    if events != [] {
      var e := events[|events| - 1];
      SinceIsCoveredByTwo(events[..|events| - 1], tenant, from, limit);
      if from <= e.now < from + WINDOW_MS {
        MinuteSpansTwoWindows(from, e.now);
      }
    }
  }

  /** Over any interval one minute long, aligned or not, a tenant is allowed at most twice
      its limit, and so at most 480 requests. */
  lemma AnyMinuteAllowsAtMostTwice(events: seq<Event>, tenant: string, from: int, planLimit: int)
    requires ClockForward(events) && ValidPlanLimit(planLimit)
    ensures AllowedSince(events, tenant, from, RequestLimit(planLimit)) <= 2 * RequestLimit(planLimit) <= 480
  {
    var limit := RequestLimit(planLimit);
    SinceIsCoveredByTwo(events, tenant, from, limit);
    MinuteAllowsExactlyTheLimit(events, tenant, WindowStart(from), limit);
    MinuteAllowsExactlyTheLimit(events, tenant, WindowStart(from) + WINDOW_MS, limit);
  }

  /** The same when the plan may change from request to request. */
  function PermittedSince(events: seq<Event>, tenant: string, from: int): nat {
    if events == [] then 0
    else
      var n := |events| - 1;
      var e := events[n];
      PermittedSince(events[..n], tenant, from)
      + if e.tenant == tenant && from <= e.now < from + WINDOW_MS && LastCount(events) <= RequestLimit(e.planLimit)
        then 1 else 0
  }

  lemma {:induction false} PermittedIsAllowed(events: seq<Event>, tenant: string, from: int)
    ensures PermittedSince(events, tenant, from) <= AllowedSince(events, tenant, from, MAX_TENANT_REQUESTS_PER_MINUTE)
    decreases |events|
  {
    if events != [] {
      PermittedIsAllowed(events[..|events| - 1], tenant, from);
    }
  }

  /** Whatever plans a tenant has in the course of a run, any interval one minute long
      allows it at most 480 requests. */
  lemma AnyMinutePermitsAtMost480(events: seq<Event>, tenant: string, from: int)
    requires ClockForward(events)
    ensures PermittedSince(events, tenant, from) <= 480
  {
    PermittedIsAllowed(events, tenant, from);
    AnyMinuteAllowsAtMostTwice(events, tenant, from, MAX_TENANT_REQUESTS_PER_MINUTE);
  }

  /** Requests of one tenant: the first `limit` in the last millisecond of a minute, the
      others in the first of the next. */
  function Edge(rs: seq<Request>, tenant: string, planLimit: int, limit: int): (events: seq<Event>)
    ensures |events| == |rs|
    ensures forall i :: 0 <= i < |rs| ==>
              events[i] == Event(rs[i], tenant, planLimit, if i < limit then WINDOW_MS - 1 else WINDOW_MS)
  {
    seq(|rs|,
        i requires 0 <= i < |rs| => Event(rs[i], tenant, planLimit, if i < limit then WINDOW_MS - 1 else WINDOW_MS))
  }

  /** The window that the last of `n` such requests leaves. */
  function EdgeWindow(n: nat, limit: int): Window {
    if n <= limit then Window(0, n) else Window(WINDOW_MS, n - limit)
  }

  lemma EdgeStep(rs: seq<Request>, tenant: string, planLimit: int, limit: int)
    requires rs != []
    ensures var n := |rs| - 1; Edge(rs, tenant, planLimit, limit)[..n] == Edge(rs[..n], tenant, planLimit, limit)
  {
  }

  lemma {:induction false} EdgeWindows(rs: seq<Request>, tenant: string, planLimit: int, limit: nat)
    ensures var windows := Windows(Edge(rs, tenant, planLimit, limit));
            if rs == [] then windows == map[] else windows == map[tenant := EdgeWindow(|rs|, limit)]
  {
    if rs != [] {
      var n := |rs| - 1;
      EdgeStep(rs, tenant, planLimit, limit);
      EdgeWindows(rs[..n], tenant, planLimit, limit);
      CountedOnEdge(Windows(Edge(rs[..n], tenant, planLimit, limit)), tenant, n, limit);
    }
  }

  lemma CountedOnEdge(windows: map<string, Window>, tenant: string, n: nat, limit: nat)
    requires if n == 0 then windows == map[] else windows == map[tenant := EdgeWindow(n, limit)]
    ensures windows[tenant := Counted(windows, tenant, if n < limit then WINDOW_MS - 1 else WINDOW_MS)]
         == map[tenant := EdgeWindow(n + 1, limit)]
  {
    assert WindowStart(WINDOW_MS - 1) == 0 && WindowStart(WINDOW_MS) == WINDOW_MS;
  }

  lemma {:induction false} EdgeIsAllowed(rs: seq<Request>, tenant: string, planLimit: int, limit: nat)
    requires |rs| <= 2 * limit
    ensures AllowedSince(Edge(rs, tenant, planLimit, limit), tenant, WINDOW_MS - 1, limit) == |rs|
  {
    if rs != [] {
      EdgeStep(rs, tenant, planLimit, limit);
      EdgeWindows(rs, tenant, planLimit, limit);
      EdgeIsAllowed(rs[..|rs| - 1], tenant, planLimit, limit);
    }
  }

  /** The bound is tight: under every valid plan, twice the limit of requests can all be
      allowed within a minute. */
  lemma TwiceTheLimitIsReached(rs: seq<Request>, tenant: string, planLimit: int)
    requires ValidPlanLimit(planLimit) && |rs| == 2 * RequestLimit(planLimit)
    ensures exists events: seq<Event>, from ::
              && ClockForward(events)
              && |events| == |rs|
              && (forall i :: 0 <= i < |rs| ==> events[i].request == rs[i] && events[i].tenant == tenant)
              && AllowedSince(events, tenant, from, RequestLimit(planLimit)) == |rs|
  {
    var limit := RequestLimit(planLimit);
    EdgeIsAllowed(rs, tenant, planLimit, limit);
    assert ClockForward(Edge(rs, tenant, planLimit, limit));
  }

  // ---- independence ----

  function OnlyTenant(events: seq<Event>, tenant: string): seq<Event> {
    if events == [] then []
    else
      var n := |events| - 1;
      OnlyTenant(events[..n], tenant) + if events[n].tenant == tenant then [events[n]] else []
  }

  /** Other tenants' traffic has no effect: a tenant's window after any run is the window
      after its own requests alone. */
  lemma {:induction false} OtherTenantsHaveNoEffect(events: seq<Event>, tenant: string)
    ensures tenant in Windows(events) <==> tenant in Windows(OnlyTenant(events, tenant))
    ensures tenant in Windows(events) ==> Windows(events)[tenant] == Windows(OnlyTenant(events, tenant))[tenant]
    decreases |events|
  {
    if events != [] {
      var n := |events| - 1;
      OtherTenantsHaveNoEffect(events[..n], tenant);
      var own := OnlyTenant(events[..n], tenant);
      if events[n].tenant == tenant {
        assert (own + [events[n]])[..|own|] == own;
      } else {
        assert own + [] == own;
      }
    }
  }
}
