/** Choosing the payload limits of a request path. */
module RouteLimits {
  import opened Wrappers
  import opened Text

  datatype PayloadLimits = PayloadLimits(maxBytes: int, maxDepth: int, maxArrayLength: int)

  /** A route override: any omitted limit inherits the default. */
  datatype RouteLimit =
    RouteLimit(prefix: string, maxBytes: Option<int>, maxDepth: Option<int>, maxArrayLength: Option<int>)

  datatype ResolvedLimits = ResolvedLimits(limits: PayloadLimits, route: string)

  function OrElse(o: Option<int>, fallback: int): int {
    if o.Some? then o.value else fallback
  }

  /** The prefix without its optional trailing slash. */
  function Normalized(prefix: string): string {
    if |prefix| > 1 && EndsWith(prefix, "/") then prefix[..|prefix| - 1] else prefix
  }

  predicate MatchesPrefix(path: string, prefix: string) {
    path == Normalized(prefix) || StartsWith(path, Normalized(prefix) + "/")
  }

  function Overridden(rule: RouteLimit, defaults: PayloadLimits): ResolvedLimits {
    ResolvedLimits(
      PayloadLimits(OrElse(rule.maxBytes, defaults.maxBytes),
                    OrElse(rule.maxDepth, defaults.maxDepth),
                    OrElse(rule.maxArrayLength, defaults.maxArrayLength)),
      rule.prefix)
  }

  /** `routes[i]` matches, no matching rule is longer, and no earlier one as long. */
  ghost predicate Wins(path: string, routes: seq<RouteLimit>, i: nat) {
    && i < |routes|
    && MatchesPrefix(path, routes[i].prefix)
    && forall j :: 0 <= j < |routes| && MatchesPrefix(path, routes[j].prefix) ==>
         |routes[j].prefix| < |routes[i].prefix| || (|routes[j].prefix| == |routes[i].prefix| && i <= j)
  }

  /** The value that applies: the rule's own, or the default where it has none. */
  ghost predicate Applies(value: int, own: Option<int>, fallback: int) {
    (own.Some? ==> value == own.value) && (own.None? ==> value == fallback)
  }

  ghost predicate Follows(r: ResolvedLimits, rule: RouteLimit, defaults: PayloadLimits) {
    && r.route == rule.prefix
    && Applies(r.limits.maxBytes, rule.maxBytes, defaults.maxBytes)
    && Applies(r.limits.maxDepth, rule.maxDepth, defaults.maxDepth)
    && Applies(r.limits.maxArrayLength, rule.maxArrayLength, defaults.maxArrayLength)
  }

  /** What a resolution of `path` must be. */
  ghost predicate IsResolution(path: string, defaults: PayloadLimits, routes: seq<RouteLimit>, r: ResolvedLimits) {
    if exists rule :: rule in routes && MatchesPrefix(path, rule.prefix)
    then exists i: nat :: Wins(path, routes, i) && Follows(r, routes[i], defaults)
    else r == ResolvedLimits(defaults, "default")
  }

  method ResolveLimits(path: string, defaults: PayloadLimits, routes: seq<RouteLimit>) returns (r: ResolvedLimits)
    ensures IsResolution(path, defaults, routes, r)
  {
    var best: Option<RouteLimit> := None;
    ghost var at := 0;
    for n := 0 to |routes|
      invariant best.None? ==> forall j :: 0 <= j < n ==> !MatchesPrefix(path, routes[j].prefix)
      invariant best.Some? ==> at < n && Wins(path, routes[..n], at) && routes[at] == best.value
    {
      var rule := routes[n];
      if MatchesPrefix(path, rule.prefix) && (best.None? || |rule.prefix| > |best.value.prefix|) {
        best := Some(rule);
        at := n;
      }
    }
    assert routes[..|routes|] == routes;
    if best.None? {
      return ResolvedLimits(defaults, "default");
    }
    return Overridden(best.value, defaults);
  }

  // ---- what matching means ----

  predicate IsPrefix(a: seq<string>, b: seq<string>) {
    |a| <= |b| && b[..|a|] == a
  }

  /** A prefix matches exactly the paths whose `/`-separated segments begin with its own. */
  lemma MatchIsOnSegmentBoundaries(path: string, prefix: string)
    ensures MatchesPrefix(path, prefix) <==> IsPrefix(Split(Normalized(prefix), "/"), Split(path, "/"))
  {
    var n := Normalized(prefix);
    if MatchesPrefix(path, prefix) {
      MatchGivesSegments(path, n);
    }
    if IsPrefix(Split(n, "/"), Split(path, "/")) {
      SegmentsGiveMatch(path, n);
    }
  }

  /** A prefix matches the path that equals it and every path below it; one slash at the
      end of the prefix makes no difference. */
  lemma MatchMeans(path: string, q: string)
    requires q != "" && (q == "/" || q[|q| - 1] != '/')
    ensures MatchesPrefix(path, q) <==> path == q || (|path| > |q| && path[..|q|] == q && path[|q|] == '/')
    ensures MatchesPrefix(path, q + "/") <==> MatchesPrefix(path, q)
  {
    assert (q + "/")[..|q|] == q && (q + "/")[|q|..] == "/";
    if q != "/" {
      assert q[|q| - 1..] == [q[|q| - 1]];
    }
    assert StartsWith(path, q + "/") <==> |path| > |q| && path[..|q|] == q && path[|q|] == '/' by {
      if |path| > |q| {
        assert path[..|q| + 1] == path[..|q|] + [path[|q|]];
        assert (q + "/")[|q|] == '/';
      }
    }
  }

  lemma MatchGivesSegments(path: string, n: string)
    requires path == n || StartsWith(path, n + "/")
    ensures IsPrefix(Split(n, "/"), Split(path, "/"))
  {
    if path != n {
      var rest := path[|n| + 1..];
      assert path == n + "/" + rest;
      SplitAt(n, "/", rest);
    }
  }

  lemma SegmentsGiveMatch(path: string, n: string)
    requires IsPrefix(Split(n, "/"), Split(path, "/"))
    ensures path == n || StartsWith(path, n + "/")
  {
    var a, b := Split(n, "/"), Split(path, "/");
    JoinSplit(n, "/");
    JoinSplit(path, "/");
    if |a| < |b| {
      var rest := b[|a|..];
      assert b == a + rest;
      JoinAppend(a, rest, "/");
      assert path == (n + "/") + Join(rest, "/");
    } else {
      assert b == b[..|a|];
    }
  }

  /** Two equally long prefixes that both match a path are the same prefix. */
  lemma EqualLengthMatchesAreEqual(path: string, p: string, q: string)
    requires MatchesPrefix(path, p) && MatchesPrefix(path, q) && |p| == |q|
    ensures p == q
  {
    MatchedPrefixText(path, p);
    MatchedPrefixText(path, q);
  }

  lemma MatchedPrefixText(path: string, p: string)
    requires MatchesPrefix(path, p)
    ensures p == path + "/" || (|p| <= |path| && p == path[..|p|])
  {
    var n := Normalized(p);
    if n != p {
      assert p == n + "/";
      if path != n {
        assert path[..|n| + 1] == n + "/";
      }
    } else if path != n {
      assert path[..|n|] == path[..|n| + 1][..|n|] == n;
    }
  }

  lemma FollowsOnce(r: ResolvedLimits, r': ResolvedLimits, rule: RouteLimit, defaults: PayloadLimits)
    requires Follows(r, rule, defaults) && Follows(r', rule, defaults)
    ensures r == r'
  {
  }

  /** The same rules, listed in any order and with no prefix twice. */
  ghost predicate SameRules(routes: seq<RouteLimit>, routes': seq<RouteLimit>) {
    && (forall rule :: rule in routes <==> rule in routes')
    && forall rule, rule' :: rule in routes && rule' in routes && rule.prefix == rule'.prefix ==> rule == rule'
  }

  lemma WinnersAgree(path: string, routes: seq<RouteLimit>, routes': seq<RouteLimit>, i: nat, j: nat)
    requires SameRules(routes, routes') && Wins(path, routes, i) && Wins(path, routes', j)
    ensures routes[i] == routes'[j]
  {
    assert routes[i] in routes' && routes'[j] in routes;
    var i' :| 0 <= i' < |routes'| && routes'[i'] == routes[i];
    var j' :| 0 <= j' < |routes| && routes[j'] == routes'[j];
    EqualLengthMatchesAreEqual(path, routes[i].prefix, routes'[j].prefix);
  }

  /** With distinct prefixes the order in which rules are listed does not matter. */
  lemma OrderOfRulesIsIrrelevant(path: string, defaults: PayloadLimits,
                                 routes: seq<RouteLimit>, routes': seq<RouteLimit>,
                                 r: ResolvedLimits, r': ResolvedLimits)
    requires SameRules(routes, routes')
    requires IsResolution(path, defaults, routes, r) && IsResolution(path, defaults, routes', r')
    ensures r == r'
  {
    if exists rule :: rule in routes && MatchesPrefix(path, rule.prefix) {
      var i: nat :| Wins(path, routes, i) && Follows(r, routes[i], defaults);
      var j: nat :| Wins(path, routes', j) && Follows(r', routes'[j], defaults);
      WinnersAgree(path, routes, routes', i, j);
      FollowsOnce(r, r', routes[i], defaults);
    }
  }
}
