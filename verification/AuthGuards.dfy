/** The guards in front of a route: each may identify the caller, and either answers
    the request itself or hands it to the tenant rate limit. */
module AuthGuards {
  import opened TenantRateLimit
  import opened Wrappers

  /** What verifying a session token came to; `isAdmin` compares its wallet with the admin's. */
  datatype Token = Missing | Invalid | Verified(isAdmin: bool)

  /** What the support-session cookie came to: absent, ended or unsafe or invalid, or active. */
  datatype Impersonation = NoSession | Refused | Active

  /** Where a request's traffic is counted. */
  datatype Traffic = Traffic(tenant: string, planLimit: int, now: int)

  /** A guard and the credentials it is shown. */
  datatype Guard =
    | Auth(impersonation: Impersonation, token: Token)
    | OptionalAuth(token: Token)
    | Admin(hasApiKey: bool, token: Token)

  datatype Pass = Pass(request: Request, guard: Guard, traffic: Traffic)

  /** The guard sets `user` or `adminAuth`. */
  predicate Authenticates(g: Guard) {
    match g
    case Auth(impersonation, token) => impersonation.Active? || (impersonation.NoSession? && token.Verified?)
    case OptionalAuth(token) => token.Verified?
    case Admin(hasApiKey, token) => hasApiKey || token.Verified?
  }

  /** The guard hands the request on instead of answering it. */
  predicate Reaches(g: Guard) {
    match g
    case Auth(impersonation, token) => impersonation.Active? || (impersonation.NoSession? && token.Verified?)
    case OptionalAuth(_) => true
    case Admin(hasApiKey, token) => hasApiKey || token == Verified(true)
  }

  // ---- the calls that guards make ----

  /** The requests that some guard has identified. */
  function IdentifiedBy(passes: seq<Pass>): set<Request> {
    if passes == [] then {}
    else
      var n := |passes| - 1;
      IdentifiedBy(passes[..n]) + if Authenticates(passes[n].guard) then {passes[n].request} else {}
  }

  function CallOf(p: Pass, identified: bool): Call {
    Call(p.request, identified, p.traffic.tenant, p.traffic.planLimit, p.traffic.now)
  }

  function CallsOf(passes: seq<Pass>): seq<Call> {
    if passes == [] then []
    else
      var n := |passes| - 1;
      var p := passes[n];
      if Reaches(p.guard) then CallsOf(passes[..n]) + [CallOf(p, p.request in IdentifiedBy(passes))]
      else CallsOf(passes[..n])
  }

  lemma PassesStep(passes: seq<Pass>, p: Pass)
    ensures var after := passes + [p];
            && IdentifiedBy(after) == IdentifiedBy(passes) + (if Authenticates(p.guard) then {p.request} else {})
            && CallsOf(after)
               == if Reaches(p.guard) then CallsOf(passes) + [CallOf(p, p.request in IdentifiedBy(after))]
                 else CallsOf(passes)
  {
    assert (passes + [p])[..|passes|] == passes;
  }

  class Guards {
    const meter: TenantWindows

    ghost var passes: seq<Pass> // every call of a guard so far
    ghost var requests: set<Request> // the requests of these calls

    /** The meter has been called as the guards' log says, and a request is identified
        exactly if some guard identified it. */
    ghost predicate Valid()
      reads this, meter, meter.requests, requests
    {
      && meter.Valid() && meter.requests <= requests && meter.calls == CallsOf(passes)
      && IdentifiedBy(passes) <= requests
      && (forall r :: r in requests ==> (r.identified <==> r in IdentifiedBy(passes)))
      && forall r :: r in requests - meter.requests ==> !r.tenantRateLimitApplied
    }

    constructor ()
      ensures Valid() && passes == [] && requests == {} && fresh(meter)
    {
      meter := new TenantWindows();
      passes, requests := [], {};
    }

    /** A request arrives unidentified and without the mark. */
    ghost predicate Admissible(req: Request)
      reads this, req
    {
      req in requests || (!req.identified && !req.tenantRateLimitApplied)
    }

    /** Each guard returns `None` where it answers the request itself. */
    method AuthMiddleware(req: Request, impersonation: Impersonation, token: Token, t: Traffic)
      returns (verdict: Option<Verdict>)
      requires Valid() && Admissible(req)
      modifies this, meter, req
      ensures Valid() && passes == old(passes) + [Pass(req, Auth(impersonation, token), t)]
              && requests == old(requests) + {req}
      ensures verdict.Some? <==> Reaches(Auth(impersonation, token))
      ensures verdict.Some? <==> impersonation == Active || (impersonation == NoSession && token.Verified?)
      ensures req.identified <==> old(req.identified) || verdict.Some?
    {
      ghost var pass := Pass(req, Auth(impersonation, token), t);
      if impersonation != NoSession {
        if impersonation.Refused? {
          Answered(pass);
          return None;
        }
        req.identified := true;
        verdict := HandOn(req, t, pass);
        return;
      }
      if !token.Verified? {
        Answered(pass);
        return None;
      }
      req.identified := true;
      verdict := HandOn(req, t, pass);
    }

    method OptionalAuthMiddleware(req: Request, token: Token, t: Traffic) returns (verdict: Option<Verdict>)
      requires Valid() && Admissible(req)
      modifies this, meter, req
      ensures Valid() && passes == old(passes) + [Pass(req, OptionalAuth(token), t)]
              && requests == old(requests) + {req}
      ensures verdict.Some?
      ensures req.identified <==> old(req.identified) || token.Verified?
    {
      ghost var pass := Pass(req, OptionalAuth(token), t);
      if token.Verified? {
        req.identified := true;
      }
      verdict := HandOn(req, t, pass);
    }

    method RequireAdmin(req: Request, hasApiKey: bool, token: Token, t: Traffic) returns (verdict: Option<Verdict>)
      requires Valid() && Admissible(req)
      modifies this, meter, req
      ensures Valid() && passes == old(passes) + [Pass(req, Admin(hasApiKey, token), t)]
              && requests == old(requests) + {req}
      ensures verdict.Some? <==> Reaches(Admin(hasApiKey, token))
      ensures verdict.Some? <==> hasApiKey || token == Verified(true)
      ensures req.identified <==> old(req.identified) || hasApiKey || token.Verified?
    {
      ghost var pass := Pass(req, Admin(hasApiKey, token), t);
      if hasApiKey {
        req.identified := true;
        verdict := HandOn(req, t, pass);
        return;
      }
      if !token.Verified? {
        Answered(pass);
        return None;
      }
      req.identified := true;
      if !token.isAdmin {
        Answered(pass);
        return None;
      }
      verdict := HandOn(req, t, pass);
    }

    /** Within a guard, when it has identified the request if it does. */
    ghost predicate Within(pass: Pass)
      reads this, meter, meter.requests, requests, pass.request
    {
      var req := pass.request;
      && meter.Valid() && meter.requests <= requests && meter.calls == CallsOf(passes)
      && IdentifiedBy(passes) <= requests
      && (forall r :: r in requests && r != req ==> (r.identified <==> r in IdentifiedBy(passes)))
      && (req.identified <==> req in IdentifiedBy(passes) || Authenticates(pass.guard))
      && forall r :: r in requests + {req} - meter.requests ==> !r.tenantRateLimitApplied
    }

    ghost method Answered(pass: Pass)
      requires Within(pass) && !Reaches(pass.guard)
      modifies this
      ensures Valid() && passes == old(passes) + [pass] && requests == old(requests) + {pass.request}
    {
      PassesStep(passes, pass);
      passes, requests := passes + [pass], requests + {pass.request};
    }

    /** `tenantRateLimitMiddleware(req, res, next)` */
    method HandOn(req: Request, t: Traffic, ghost pass: Pass) returns (verdict: Option<Verdict>)
      requires pass.request == req && pass.traffic == t && Within(pass) && Reaches(pass.guard)
      modifies this, meter, req`tenantRateLimitApplied
      ensures Valid() && passes == old(passes) + [pass] && requests == old(requests) + {req}
      ensures verdict.Some?
    {
      PassesStep(passes, pass);
      var metered := meter.Middleware(req, t.tenant, t.planLimit, t.now);
      passes, requests := passes + [pass], requests + {req};
      return Some(metered);
    }
  }

  // ---- which requests are counted ----

  /** Guard `i` hands `r` on, identified by itself or by an earlier guard. */
  ghost predicate HandsOnIdentified(passes: seq<Pass>, i: nat, r: Request) {
    && i < |passes| && passes[i].request == r && Reaches(passes[i].guard)
    && exists j :: 0 <= j <= i && Proves(passes, j, r)
  }

  /** Guard `j` identifies `r`. */
  predicate Proves(passes: seq<Pass>, j: nat, r: Request) {
    j < |passes| && passes[j].request == r && Authenticates(passes[j].guard)
  }

  lemma {:induction false} IdentifiedByMeans(passes: seq<Pass>, r: Request)
    ensures r in IdentifiedBy(passes) <==> exists j: nat :: Proves(passes, j, r)
    decreases |passes|
  {
    if passes != [] {
      var n := |passes| - 1;
      IdentifiedByMeans(passes[..n], r);
      assert forall j: nat :: j < n ==> Proves(passes[..n], j, r) == Proves(passes, j, r);
      assert Proves(passes, n, r) <==> passes[n].request == r && Authenticates(passes[n].guard);
    }
  }

  lemma HandsOnLast(passes: seq<Pass>, r: Request)
    requires passes != []
    ensures var n := |passes| - 1;
            HandsOnIdentified(passes, n, r) <==>
            passes[n].request == r && Reaches(passes[n].guard) && r in IdentifiedBy(passes)
  {
    IdentifiedByMeans(passes, r);
  }

  lemma HandsOnEarlier(passes: seq<Pass>, i: nat, r: Request)
    requires i < |passes| - 1
    ensures HandsOnIdentified(passes, i, r) <==> HandsOnIdentified(passes[..|passes| - 1], i, r)
  {
    var init := passes[..|passes| - 1];
    assert forall j: nat :: j <= i ==> Proves(init, j, r) == Proves(passes, j, r);
  }

  /** The first guard that does so decides what the meter sees. */
  lemma {:induction false} FirstCallIsFirstHandOn(passes: seq<Pass>, r: Request) returns (i: int)
    ensures FirstCall(CallsOf(passes), r).None? ==> i == |passes|
    ensures FirstCall(CallsOf(passes), r).Some? ==>
              && 0 <= i < |passes| && HandsOnIdentified(passes, i, r)
              && FirstCall(CallsOf(passes), r) == Some(CallOf(passes[i], true))
    ensures forall j: nat :: j < i ==> !HandsOnIdentified(passes, j, r)
    decreases |passes|
  {
    if passes == [] {
      i := 0;
    } else {
      var init, p := passes[..|passes| - 1], passes[|passes| - 1];
      i := FirstCallIsFirstHandOn(init, r);
      assert passes == init + [p];
      PassesStep(init, p);
      FirstCallStep(CallsOf(init), CallOf(p, p.request in IdentifiedBy(passes)), r);
      HandsOnLast(passes, r);
      forall j: nat | j < |init| ensures HandsOnIdentified(passes, j, r) <==> HandsOnIdentified(init, j, r) {
        HandsOnEarlier(passes, j, r);
      }
      if i == |init| && !HandsOnIdentified(passes, i, r) {
        i := i + 1;
      }
    }
  }

  /** Over any sequence of guard calls, on any requests: a request is counted at most once,
      and it is counted exactly if some guard hands it on identified and the plan limit is
      valid at the first guard that does. */
  lemma CountedExactlyWhen(passes: seq<Pass>, r: Request)
    ensures Times(TallyOf(CallsOf(passes)).events, r) <= 1
    ensures Times(TallyOf(CallsOf(passes)).events, r) == 1 <==>
            exists i: nat ::
              && HandsOnIdentified(passes, i, r) && (forall j: nat :: j < i ==> !HandsOnIdentified(passes, j, r))
              && ValidPlanLimit(passes[i].traffic.planLimit)
  {
    MeteredAtMostOnce(CallsOf(passes), r);
    var i := FirstCallIsFirstHandOn(passes, r);
  }

  /** A session that is not the admin's is identified, refused, and not counted. */
  lemma RefusedSessionIsNotCounted(r: Request, t: Traffic)
    ensures var passes := [Pass(r, Admin(false, Verified(false)), t)];
            r in IdentifiedBy(passes) && TallyOf(CallsOf(passes)).events == []
  {
    PassesStep([], Pass(r, Admin(false, Verified(false)), t));
    assert [] + [Pass(r, Admin(false, Verified(false)), t)] == [Pass(r, Admin(false, Verified(false)), t)];
  }
}
