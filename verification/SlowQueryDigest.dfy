/** The slow-query digest: one pass groups the records of a window by fingerprint,
    and a comparator ranks the groups.  Averages are exact. */
module SlowQueryDigest {
  import opened Arithmetic
  import opened Wrappers

  datatype Record = Record(query: string, fingerprint: string, model: Option<string>, operation: Option<string>,
                           durationMs: int, occurredAt: int)

  datatype Group = Group(fingerprint: string, query: string, model: Option<string>, operation: Option<string>,
                         count: nat, totalDurationMs: int, maxDurationMs: int, minDurationMs: int, lastOccurredAt: int)

  datatype Pattern = Pattern(group: Group, averageDurationMs: real)

  datatype RankBy = Frequency | Duration

  datatype Digest = Digest(totalSlowQueries: nat, patterns: seq<Pattern>)

  // ---- the members of a group, and what a group says about them ----

  function InWindow(records: seq<Record>, windowStart: int, windowEnd: int): seq<Record> {
    if records == [] then []
    else
      var n := |records| - 1;
      InWindow(records[..n], windowStart, windowEnd)
      + if windowStart <= records[n].occurredAt <= windowEnd then [records[n]] else []
  }

  function Members(records: seq<Record>, fingerprint: string): seq<Record> {
    if records == [] then []
    else
      var n := |records| - 1;
      Members(records[..n], fingerprint) + if records[n].fingerprint == fingerprint then [records[n]] else []
  }

  /** The fingerprints in order of first appearance: the insertion order of the map. */
  function Keys(records: seq<Record>): seq<string> {
    if records == [] then []
    else
      var n := |records| - 1;
      var keys := Keys(records[..n]);
      if records[n].fingerprint in keys then keys else keys + [records[n].fingerprint]
  }

  function NewGroup(r: Record): Group {
    Group(r.fingerprint, r.query, r.model, r.operation, 1, r.durationMs, r.durationMs, r.durationMs, r.occurredAt)
  }

  function Merged(g: Group, r: Record): Group {
    g.(count := g.count + 1,
       totalDurationMs := g.totalDurationMs + r.durationMs,
       maxDurationMs := Max(g.maxDurationMs, r.durationMs),
       minDurationMs := Min(g.minDurationMs, r.durationMs),
       lastOccurredAt := if r.occurredAt > g.lastOccurredAt then r.occurredAt else g.lastOccurredAt)
  }

  /** A group as the pass leaves it, from its members in order. */
  function Summary(members: seq<Record>): Group
    requires members != []
  {
    var n := |members| - 1;
    if n == 0 then NewGroup(members[0]) else Merged(Summary(members[..n]), members[n])
  }

  function ToPattern(g: Group): Pattern
    requires g.count > 0
  {
    Pattern(g, g.totalDurationMs as real / g.count as real)
  }

  // ---- the grouping pass ----

  /** The map's entry for `k` is the summary of its members, or absent if there are none. */
  ghost predicate Holds(groups: map<string, Group>, records: seq<Record>, k: string) {
    var members := Members(records, k);
    if members == [] then k !in groups else k in groups && groups[k] == Summary(members)
  }

  ghost predicate Grouped(groups: map<string, Group>, order: seq<string>, records: seq<Record>) {
    order == Keys(records) && forall k :: Holds(groups, records, k)
  }

  method GroupRecords(records: seq<Record>) returns (groups: map<string, Group>, order: seq<string>)
    ensures Grouped(groups, order, records)
  {
    groups, order := map[], [];
    for i := 0 to |records|
      invariant Grouped(groups, order, records[..i])
    {
      var record := records[i];
      assert records[..i + 1] == records[..i] + [record];
      GroupedStep(groups, order, records[..i], record);
      if record.fingerprint in groups {
        groups := groups[record.fingerprint := Merged(groups[record.fingerprint], record)];
      } else {
        groups := groups[record.fingerprint := NewGroup(record)];
        order := order + [record.fingerprint];
      }
    }
    assert records[..|records|] == records;
  }

  lemma MembersStep(records: seq<Record>, r: Record, k: string)
    ensures Members(records + [r], k) == Members(records, k) + if r.fingerprint == k then [r] else []
  {
    assert (records + [r])[..|records|] == records;
  }

  lemma GroupedStep(groups: map<string, Group>, order: seq<string>, records: seq<Record>, r: Record)
    requires Grouped(groups, order, records)
    ensures var k := r.fingerprint;
            if k in groups then Grouped(groups[k := Merged(groups[k], r)], order, records + [r])
            else Grouped(groups[k := NewGroup(r)], order + [k], records + [r])
  {
    var k := r.fingerprint;
    assert (records + [r])[..|records|] == records;
    assert Holds(groups, records, k);
    KeysAreThoseWithMembers(records, k);
    var members := Members(records, k);
    var groups' := groups[k := if k in groups then Merged(groups[k], r) else NewGroup(r)];
    forall other ensures Holds(groups', records + [r], other) {
      MembersStep(records, r, other);
      assert Holds(groups, records, other);
      if other != k {
        assert Members(records + [r], other) == Members(records, other);
      } else if members != [] {
        SummaryStep(members, r);
      } else {
        assert Members(records + [r], k) == [r] && Summary([r]) == NewGroup(r);
      }
    }
  }

  lemma {:induction false} KeysAreThoseWithMembers(records: seq<Record>, k: string)
    ensures k in Keys(records) <==> Members(records, k) != []
    decreases |records|
  {
    if records != [] {
      KeysAreThoseWithMembers(records[..|records| - 1], k);
    }
  }

  lemma SummaryStep(members: seq<Record>, r: Record)
    requires members != []
    ensures Summary(members + [r]) == Merged(Summary(members), r)
  {
    assert (members + [r])[..|members|] == members;
  }

  /** The window keeps the order of the records. */
  lemma {:induction false} InWindowAppend(a: seq<Record>, b: seq<Record>, windowStart: int, windowEnd: int)
    ensures InWindow(a + b, windowStart, windowEnd)
         == InWindow(a, windowStart, windowEnd) + InWindow(b, windowStart, windowEnd)
    decreases |b|
  {
    if b == [] {
      assert a + b == a;
      assert InWindow(a, windowStart, windowEnd) + [] == InWindow(a, windowStart, windowEnd);
    } else {
      var n := |b| - 1;
      InWindowAppend(a, b[..n], windowStart, windowEnd);
      assert (a + b)[..|a| + n] == a + b[..n] && (a + b)[|a| + n] == b[n];
    }
  }

  lemma InWindowOne(r: Record, windowStart: int, windowEnd: int)
    ensures InWindow([r], windowStart, windowEnd)
         == if r.occurredAt < windowStart || r.occurredAt > windowEnd then [] else [r]
  {
    assert [r][..0] == [];
  }

  // ---- the group-by it refines ----

  function Sum(records: seq<Record>): int {
    if records == [] then 0 else Sum(records[..|records| - 1]) + records[|records| - 1].durationMs
  }

  /** `g` states the count, the total, the extremes and the latest time of `members`. */
  ghost predicate Describes(g: Group, members: seq<Record>) {
    && g.count == |members| && g.totalDurationMs == Sum(members)
    && (forall r :: r in members ==>
          g.minDurationMs <= r.durationMs <= g.maxDurationMs && r.occurredAt <= g.lastOccurredAt
          && r.fingerprint == g.fingerprint)
    && (exists r :: r in members && r.durationMs == g.maxDurationMs)
    && (exists r :: r in members && r.durationMs == g.minDurationMs)
    && (exists r :: r in members && r.occurredAt == g.lastOccurredAt)
  }

  lemma {:induction false} SummaryDescribes(members: seq<Record>, fingerprint: string)
    requires members != [] && forall r :: r in members ==> r.fingerprint == fingerprint
    ensures Describes(Summary(members), members) && Summary(members).fingerprint == fingerprint
    ensures var g, first := Summary(members), members[0];
            g.query == first.query && g.model == first.model && g.operation == first.operation
    decreases |members|
  {
    var n := |members| - 1;
    assert members == members[..n] + [members[n]];
    if n == 0 {
      assert members[0] in members && Sum(members[..0]) == 0;
    } else {
      SummaryDescribes(members[..n], fingerprint);
      DescribesStep(Summary(members[..n]), members[..n], members[n]);
    }
  }

  lemma DescribesStep(g: Group, members: seq<Record>, r: Record)
    requires Describes(g, members) && r.fingerprint == g.fingerprint
    ensures Describes(Merged(g, r), members + [r])
  {
    var all := members + [r];
    assert all[..|members|] == members;
    assert forall x :: x in all <==> x in members || x == r;
    var max :| max in members && max.durationMs == g.maxDurationMs;
    var min :| min in members && min.durationMs == g.minDurationMs;
    var last :| last in members && last.occurredAt == g.lastOccurredAt;
    assert max in all && min in all && last in all && r in all;
  }

  lemma InInit(records: seq<Record>, r: Record)
    requires records != []
    ensures multiset(records)[r] == multiset(records[..|records| - 1])[r] + if records[|records| - 1] == r then 1 else 0
  {
    assert records == records[..|records| - 1] + [records[|records| - 1]];
  }

  lemma {:induction false} MembersMean(records: seq<Record>, k: string, r: Record)
    ensures multiset(Members(records, k))[r] == if r.fingerprint == k then multiset(records)[r] else 0
    ensures r in Members(records, k) <==> r in records && r.fingerprint == k
    decreases |records|
  {
    if records != [] {
      MembersMean(records[..|records| - 1], k, r);
      InInit(records, r);
    }
    assert r in Members(records, k) <==> multiset(Members(records, k))[r] > 0;
    assert r in records <==> multiset(records)[r] > 0;
  }

  lemma {:induction false} WindowMeans(records: seq<Record>, windowStart: int, windowEnd: int, r: Record)
    ensures multiset(InWindow(records, windowStart, windowEnd))[r]
         == if windowStart <= r.occurredAt <= windowEnd then multiset(records)[r] else 0
    decreases |records|
  {
    if records != [] {
      WindowMeans(records[..|records| - 1], windowStart, windowEnd, r);
      InInit(records, r);
    }
  }

  lemma {:induction false} KeysMean(records: seq<Record>)
    ensures forall k :: k in Keys(records) <==> exists r :: r in records && r.fingerprint == k
    ensures forall i, j :: 0 <= i < j < |Keys(records)| ==> Keys(records)[i] != Keys(records)[j]
    decreases |records|
  {
    if records != [] {
      var n := |records| - 1;
      KeysMean(records[..n]);
      assert records == records[..n] + [records[n]];
      assert forall r :: r in records <==> r in records[..n] || r == records[n];
    }
  }

  lemma KeyHasMembers(records: seq<Record>, k: string)
    requires k in Keys(records)
    ensures Members(records, k) != []
    ensures Describes(Summary(Members(records, k)), Members(records, k))
            && Summary(Members(records, k)).fingerprint == k
  {
    KeysMean(records);
    var r :| r in records && r.fingerprint == k;
    MembersMean(records, k, r);
    forall x | x in Members(records, k) ensures x.fingerprint == k {
      MembersMean(records, k, x);
    }
    SummaryDescribes(Members(records, k), k);
  }

  /** The members of all groups together. */
  function AllMembers(records: seq<Record>, keys: seq<string>): multiset<Record> {
    if keys == [] then multiset{} else multiset(Members(records, keys[0])) + AllMembers(records, keys[1..])
  }

  function CountAll(records: seq<Record>, keys: seq<string>): nat {
    if keys == [] then 0 else |Members(records, keys[0])| + CountAll(records, keys[1..])
  }

  lemma {:induction false} AllMembersMultiplicity(records: seq<Record>, keys: seq<string>, r: Record)
    requires forall i, j :: 0 <= i < j < |keys| ==> keys[i] != keys[j]
    ensures AllMembers(records, keys)[r] == if r.fingerprint in keys then multiset(records)[r] else 0
    ensures |AllMembers(records, keys)| == CountAll(records, keys)
  {
    if keys != [] {
      AllMembersMultiplicity(records, keys[1..], r);
      MembersMean(records, keys[0], r);
      assert forall k :: k in keys <==> k == keys[0] || k in keys[1..];
    }
  }

  /** The groups partition the records: together their members are the records, each as
      often as it occurs, and their counts add up to the number of records. */
  lemma GroupsPartition(records: seq<Record>)
    ensures AllMembers(records, Keys(records)) == multiset(records)
    ensures CountAll(records, Keys(records)) == |records|
  {
    KeysMean(records);
    var all := AllMembers(records, Keys(records));
    forall r ensures all[r] == multiset(records)[r] {
      AllMembersMultiplicity(records, Keys(records), r);
      assert multiset(records)[r] > 0 ==> r in records;
    }
    assert all == multiset(records);
    if records != [] {
      AllMembersMultiplicity(records, Keys(records), records[0]);
    }
  }

  // ---- the comparator ----

  /** Alphabetic comparison of fingerprints; the source asks the locale. */
  function CompareText(a: string, b: string): int {
    if a == [] then (if b == [] then 0 else -1)
    else if b == [] then 1
    else if a[0] != b[0] then (if a[0] < b[0] then -1 else 1)
    else CompareText(a[1..], b[1..])
  }

  function Comparator(a: Pattern, b: Pattern, rankBy: RankBy): real {
    var byAverage := b.averageDurationMs - a.averageDurationMs;
    var byCount := b.group.count as real - a.group.count as real;
    var primary := if rankBy.Duration? then byAverage else byCount;
    if primary != 0.0 then primary
    else
      var secondary := if rankBy.Duration? then byCount else byAverage;
      if secondary != 0.0 then secondary else CompareText(a.group.fingerprint, b.group.fingerprint) as real
  }

  predicate Before(a: Pattern, b: Pattern, rankBy: RankBy) {
    Comparator(a, b, rankBy) < 0.0
  }

  lemma {:induction false} CompareTextOrder(a: string, b: string, c: string)
    ensures CompareText(a, b) == 0 <==> a == b
    ensures CompareText(a, b) == -CompareText(b, a)
    ensures CompareText(a, b) <= 0 && CompareText(b, c) <= 0 ==> CompareText(a, c) <= 0
    ensures CompareText(a, b) < 0 && CompareText(b, c) < 0 ==> CompareText(a, c) < 0
  {
    if a != [] && b != [] {
      CompareTextOrder(a[1..], b[1..], if c == [] then [] else c[1..]);
      assert a == [a[0]] + a[1..] && b == [b[0]] + b[1..];
    }
  }

  /** On patterns with different fingerprints the comparator is a strict total order. */
  lemma RankingIsAStrictTotalOrder(a: Pattern, b: Pattern, c: Pattern, rankBy: RankBy)
    ensures !Before(a, a, rankBy)
    ensures !(Before(a, b, rankBy) && Before(b, a, rankBy))
    ensures a.group.fingerprint != b.group.fingerprint ==> Before(a, b, rankBy) || Before(b, a, rankBy)
    ensures Before(a, b, rankBy) && Before(b, c, rankBy) ==> Before(a, c, rankBy)
  {
    CompareTextOrder(a.group.fingerprint, b.group.fingerprint, c.group.fingerprint);
    CompareTextOrder(b.group.fingerprint, c.group.fingerprint, a.group.fingerprint);
    CompareTextOrder(a.group.fingerprint, a.group.fingerprint, a.group.fingerprint);
  }

  // ---- ranking ----

  function Insert(p: Pattern, ranked: seq<Pattern>, rankBy: RankBy): seq<Pattern> {
    if ranked == [] || Before(p, ranked[0], rankBy) then [p] + ranked
    else [ranked[0]] + Insert(p, ranked[1..], rankBy)
  }

  /** `patterns.sort(...)` */
  function Rank(patterns: seq<Pattern>, rankBy: RankBy): seq<Pattern> {
    if patterns == [] then [] else Insert(patterns[0], Rank(patterns[1..], rankBy), rankBy)
  }

  ghost predicate Ordered(patterns: seq<Pattern>, rankBy: RankBy) {
    patterns == [] ||
    ((forall p :: p in patterns[1..] ==> Before(patterns[0], p, rankBy)) && Ordered(patterns[1..], rankBy))
  }

  ghost predicate DistinctFingerprints(patterns: seq<Pattern>) {
    forall i, j :: 0 <= i < j < |patterns| ==> patterns[i].group.fingerprint != patterns[j].group.fingerprint
  }

  lemma {:induction false} InsertMeans(p: Pattern, ranked: seq<Pattern>, rankBy: RankBy)
    ensures forall x :: x in Insert(p, ranked, rankBy) <==> x == p || x in ranked
    ensures multiset(Insert(p, ranked, rankBy)) == multiset{p} + multiset(ranked)
  {
    if ranked != [] && !Before(p, ranked[0], rankBy) {
      InsertMeans(p, ranked[1..], rankBy);
      assert ranked == [ranked[0]] + ranked[1..];
    }
  }

  lemma {:induction false} InsertKeepsOrder(p: Pattern, ranked: seq<Pattern>, rankBy: RankBy)
    requires Ordered(ranked, rankBy) && forall x :: x in ranked ==> x.group.fingerprint != p.group.fingerprint
    ensures Ordered(Insert(p, ranked, rankBy), rankBy)
  {
    if ranked == [] {
      assert ([p] + ranked)[1..] == [];
    } else if Before(p, ranked[0], rankBy) {
      assert ([p] + ranked)[1..] == ranked;
      assert forall x :: x in ranked <==> x == ranked[0] || x in ranked[1..];
      forall x | x in ranked[1..] ensures Before(p, x, rankBy) {
        RankingIsAStrictTotalOrder(p, ranked[0], x, rankBy);
      }
    } else {
      var rest := Insert(p, ranked[1..], rankBy);
      InsertKeepsOrder(p, ranked[1..], rankBy);
      InsertMeans(p, ranked[1..], rankBy);
      assert ([ranked[0]] + rest)[1..] == rest;
      RankingIsAStrictTotalOrder(p, ranked[0], p, rankBy);
    }
  }

  lemma RestIsDistinct(patterns: seq<Pattern>)
    requires patterns != [] && DistinctFingerprints(patterns)
    ensures DistinctFingerprints(patterns[1..])
    ensures forall x :: x in patterns[1..] ==> x.group.fingerprint != patterns[0].group.fingerprint
  {
  }

  lemma {:induction false} RankMeans(patterns: seq<Pattern>, rankBy: RankBy)
    ensures forall x :: x in Rank(patterns, rankBy) <==> x in patterns
    ensures multiset(Rank(patterns, rankBy)) == multiset(patterns) && |Rank(patterns, rankBy)| == |patterns|
    ensures DistinctFingerprints(patterns) ==> Ordered(Rank(patterns, rankBy), rankBy)
  {
    if patterns != [] {
      RankMeans(patterns[1..], rankBy);
      InsertMeans(patterns[0], Rank(patterns[1..], rankBy), rankBy);
      if DistinctFingerprints(patterns) {
        RestIsDistinct(patterns);
        InsertKeepsOrder(patterns[0], Rank(patterns[1..], rankBy), rankBy);
      }
      assert patterns == [patterns[0]] + patterns[1..];
      assert forall x :: x in patterns <==> x == patterns[0] || x in patterns[1..];
      assert |Rank(patterns, rankBy)| == |multiset(Rank(patterns, rankBy))| == |multiset(patterns)|;
    }
  }

  /** An order on the patterns leaves no choice: any two lists of the same patterns that
      respect it are the same list, so the sorting algorithm does not matter. */
  lemma {:induction false} OrderIsUnique(p: seq<Pattern>, q: seq<Pattern>, rankBy: RankBy)
    requires Ordered(p, rankBy) && Ordered(q, rankBy)
    requires forall x :: x in p <==> x in q
    ensures p == q
  {
    assert (p != [] ==> p[0] in p) && (q != [] ==> q[0] in q);
    if p != [] && q != [] {
      assert forall x :: x in p <==> x == p[0] || x in p[1..];
      assert forall x :: x in q <==> x == q[0] || x in q[1..];
      RankingIsAStrictTotalOrder(p[0], q[0], p[0], rankBy);
      assert p[0] == q[0];
      assert p[0] !in p[1..] && q[0] !in q[1..];
      OrderIsUnique(p[1..], q[1..], rankBy);
    }
  }

  lemma {:induction false} OrderedPairs(patterns: seq<Pattern>, rankBy: RankBy, i: nat, j: nat)
    requires Ordered(patterns, rankBy) && i < j < |patterns|
    ensures Before(patterns[i], patterns[j], rankBy)
  {
    if i == 0 {
      assert patterns[j] == patterns[1..][j - 1];
    } else {
      OrderedPairs(patterns[1..], rankBy, i - 1, j - 1);
    }
  }

  // ---- the digest ----

  function PatternOf(records: seq<Record>, k: string): Pattern
    requires k in Keys(records)
  {
    KeyHasMembers(records, k);
    ToPattern(Summary(Members(records, k)))
  }

  /** The group records in insertion order, with their averages. */
  function Patterns(records: seq<Record>): (ps: seq<Pattern>)
    ensures |ps| == |Keys(records)| && forall i :: 0 <= i < |ps| ==> ps[i] == PatternOf(records, Keys(records)[i])
  {
    seq(|Keys(records)|, i requires 0 <= i < |Keys(records)| => PatternOf(records, Keys(records)[i]))
  }

  function Kept(ranked: seq<Pattern>, topN: int): seq<Pattern> {
    ranked[..Min(|ranked|, Max(0, topN))]
  }

  /** The map's values in insertion order, with their averages. */
  function Averaged(groups: map<string, Group>, order: seq<string>): (ps: seq<Pattern>)
    requires forall k :: k in order ==> k in groups && groups[k].count > 0
    ensures |ps| == |order| && forall i :: 0 <= i < |ps| ==> ps[i] == ToPattern(groups[order[i]])
  {
    seq(|order|, i requires 0 <= i < |order| => ToPattern(groups[order[i]]))
  }

  lemma GroupsGivePatterns(groups: map<string, Group>, order: seq<string>, records: seq<Record>)
    requires Grouped(groups, order, records)
    ensures forall k :: k in order ==> k in groups && groups[k].count > 0
    ensures Averaged(groups, order) == Patterns(records)
  {
    forall k | k in order
      ensures k in groups && Members(records, k) != [] && groups[k] == Summary(Members(records, k))
              && groups[k].count > 0
    {
      assert Holds(groups, records, k);
      KeyHasMembers(records, k);
    }
  }

  lemma PatternsAreDistinct(records: seq<Record>)
    ensures DistinctFingerprints(Patterns(records))
  {
    KeysMean(records);
    var ps := Patterns(records);
    forall i | 0 <= i < |ps| ensures ps[i].group.fingerprint == Keys(records)[i] {
      KeyHasMembers(records, Keys(records)[i]);
    }
  }

  /** Every pattern of the digest states its own members exactly, with their mean. */
  lemma PatternsDescribeTheirMembers(records: seq<Record>, p: Pattern, rankBy: RankBy)
    requires p in Rank(Patterns(records), rankBy)
    ensures Describes(p.group, Members(records, p.group.fingerprint))
    ensures p.group.count > 0 && p.averageDurationMs == p.group.totalDurationMs as real / p.group.count as real
  {
    RankMeans(Patterns(records), rankBy);
    var i :| 0 <= i < |Patterns(records)| && Patterns(records)[i] == p;
    PatternDescribes(records, Keys(records)[i]);
  }

  lemma PatternDescribes(records: seq<Record>, k: string)
    requires k in Keys(records)
    ensures var p := PatternOf(records, k);
            && Describes(p.group, Members(records, k)) && p.group.fingerprint == k
            && p.group.count > 0 && p.averageDurationMs == p.group.totalDurationMs as real / p.group.count as real
  {
    KeyHasMembers(records, k);
  }

  /** Every pattern that `topN` cuts ranks after every one it keeps. */
  lemma CutRanksAfterKept(records: seq<Record>, topN: int, rankBy: RankBy, i: nat, j: nat)
    requires i < |Kept(Rank(Patterns(records), rankBy), topN)| <= j < |Rank(Patterns(records), rankBy)|
    ensures Before(Kept(Rank(Patterns(records), rankBy), topN)[i], Rank(Patterns(records), rankBy)[j], rankBy)
  {
    PatternsAreDistinct(records);
    RankMeans(Patterns(records), rankBy);
    OrderedPairs(Rank(Patterns(records), rankBy), rankBy, i, j);
  }

  // ---- which pattern comes first ----

  /** The texts agree up to some point, where the first ends or has the smaller character. */
  ghost predicate TextBefore(a: string, b: string) {
    exists k :: 0 <= k <= |a| && DiffersAt(a, b, k)
  }

  ghost predicate DiffersAt(a: string, b: string, k: nat)
    requires k <= |a|
  {
    k < |b| && a[..k] == b[..k] && (k == |a| || a[k] < b[k])
  }

  /** By frequency the more frequent pattern comes first, then the slower; by duration the
      slower on average, then the more frequent; and at last the fingerprints decide. */
  ghost predicate ComesFirst(a: Pattern, b: Pattern, rankBy: RankBy) {
    var more, slower := a.group.count > b.group.count, a.averageDurationMs > b.averageDurationMs;
    var asMany, asSlow := a.group.count == b.group.count, a.averageDurationMs == b.averageDurationMs;
    var byText := asMany && asSlow && TextBefore(a.group.fingerprint, b.group.fingerprint);
    match rankBy
    case Frequency => more || (asMany && slower) || byText
    case Duration => slower || (asSlow && more) || byText
  }

  lemma {:induction false} CompareTextMeans(a: string, b: string)
    ensures CompareText(a, b) < 0 ==> TextBefore(a, b)
  {
    if CompareText(a, b) < 0 {
      if a == [] {
        assert DiffersAt(a, b, 0);
      } else if a[0] != b[0] {
        assert DiffersAt(a, b, 0);
      } else {
        CompareTextMeans(a[1..], b[1..]);
        var k :| 0 <= k <= |a[1..]| && DiffersAt(a[1..], b[1..], k);
        assert a[..k + 1] == [a[0]] + a[1..][..k] && b[..k + 1] == [b[0]] + b[1..][..k];
        assert DiffersAt(a, b, k + 1);
      }
    }
  }

  lemma BeforeComesFirst(a: Pattern, b: Pattern, rankBy: RankBy)
    requires Before(a, b, rankBy)
    ensures ComesFirst(a, b, rankBy)
  {
    CompareTextMeans(a.group.fingerprint, b.group.fingerprint);
  }

  ghost predicate Shown(patterns: seq<Pattern>, fingerprint: string) {
    exists i :: 0 <= i < |patterns| && patterns[i].group.fingerprint == fingerprint
  }

  /** What a digest of the records must show: `topN` groups, or all if there are fewer, each
      described exactly, in order of rank and in front of every group that is not shown. */
  ghost predicate IsTopOf(patterns: seq<Pattern>, records: seq<Record>, topN: int, rankBy: RankBy) {
    var groups := |Keys(records)|;
    && |patterns| == (if topN <= 0 then 0 else if topN < groups then topN else groups)
    && (forall i :: 0 <= i < |patterns| ==> IsPatternOf(patterns[i], records))
    && (forall i, j :: 0 <= i < j < |patterns| ==> ComesFirst(patterns[i], patterns[j], rankBy))
    && forall i, r :: 0 <= i < |patterns| && IsPatternOf(r, records) && !Shown(patterns, r.group.fingerprint) ==>
         ComesFirst(patterns[i], r, rankBy)
  }

  /** The pattern describes the records of its fingerprint, of which there are some. */
  ghost predicate IsPatternOf(p: Pattern, records: seq<Record>) {
    && Describes(p.group, Members(records, p.group.fingerprint)) && p.group.count > 0
    && p.averageDurationMs == p.group.totalDurationMs as real / p.group.count as real
  }

  /** Two patterns of the same records and fingerprint differ in their texts at most. */
  lemma PatternIsUnique(records: seq<Record>, p: Pattern, q: Pattern)
    requires IsPatternOf(p, records) && IsPatternOf(q, records) && p.group.fingerprint == q.group.fingerprint
    ensures p.group.count == q.group.count && p.averageDurationMs == q.averageDurationMs
  {
  }

  /** A full ranking: every group's pattern, in order. */
  ghost predicate IsRanking(ranked: seq<Pattern>, records: seq<Record>, rankBy: RankBy) {
    && |ranked| == |Keys(records)| && Ordered(ranked, rankBy)
    && (forall i :: 0 <= i < |ranked| ==> IsPatternOf(ranked[i], records))
    && forall r :: IsPatternOf(r, records) ==> Shown(ranked, r.group.fingerprint)
  }

  lemma RankIsRanking(records: seq<Record>, rankBy: RankBy)
    ensures IsRanking(Rank(Patterns(records), rankBy), records, rankBy)
  {
    var ranked := Rank(Patterns(records), rankBy);
    PatternsAreDistinct(records);
    RankMeans(Patterns(records), rankBy);
    forall i | 0 <= i < |ranked| ensures IsPatternOf(ranked[i], records) {
      PatternsDescribeTheirMembers(records, ranked[i], rankBy);
    }
    forall r | IsPatternOf(r, records) ensures Shown(ranked, r.group.fingerprint) {
      GroupIsRanked(records, rankBy, r);
    }
  }

  lemma GroupIsRanked(records: seq<Record>, rankBy: RankBy, r: Pattern)
    requires IsPatternOf(r, records)
    ensures Shown(Rank(Patterns(records), rankBy), r.group.fingerprint)
  {
    var k := r.group.fingerprint;
    KeysAreThoseWithMembers(records, k);
    var j := KeyRanked(records, rankBy, k);
    PatternDescribes(records, k);
    assert Rank(Patterns(records), rankBy)[j].group.fingerprint == k;
  }

  lemma RankedComeInOrder(ranked: seq<Pattern>, rankBy: RankBy, i: nat, j: nat)
    requires Ordered(ranked, rankBy) && i < j < |ranked|
    ensures ComesFirst(ranked[i], ranked[j], rankBy)
  {
    OrderedPairs(ranked, rankBy, i, j);
    BeforeComesFirst(ranked[i], ranked[j], rankBy);
  }

  lemma CutPosition(ranked: seq<Pattern>, n: nat, fingerprint: string) returns (j: nat)
    requires n <= |ranked| && Shown(ranked, fingerprint) && !Shown(ranked[..n], fingerprint)
    ensures n <= j < |ranked| && ranked[j].group.fingerprint == fingerprint
  {
    j :| 0 <= j < |ranked| && ranked[j].group.fingerprint == fingerprint;
    assert forall m :: 0 <= m < n ==> ranked[..n][m] == ranked[m];
  }

  /** Only the numbers and the fingerprint decide. */
  lemma ComesFirstOfSame(a: Pattern, b: Pattern, c: Pattern, rankBy: RankBy)
    requires ComesFirst(a, b, rankBy)
    requires b.group.fingerprint == c.group.fingerprint && b.group.count == c.group.count
    requires b.averageDurationMs == c.averageDurationMs
    ensures ComesFirst(a, c, rankBy)
  {
  }

  lemma KeptBeatsCut(ranked: seq<Pattern>, records: seq<Record>, rankBy: RankBy, n: nat, i: nat, r: Pattern)
    requires IsRanking(ranked, records, rankBy) && i < n <= |ranked|
    requires IsPatternOf(r, records) && !Shown(ranked[..n], r.group.fingerprint)
    ensures ComesFirst(ranked[i], r, rankBy)
  {
    var j := CutPosition(ranked, n, r.group.fingerprint);
    PatternIsUnique(records, ranked[j], r);
    RankedComeInOrder(ranked, rankBy, i, j);
    ComesFirstOfSame(ranked[i], ranked[j], r, rankBy);
  }

  lemma TopOfRanking(ranked: seq<Pattern>, n: nat, records: seq<Record>, topN: int, rankBy: RankBy)
    requires IsRanking(ranked, records, rankBy)
    requires n == if topN <= 0 then 0 else if topN < |ranked| then topN else |ranked|
    ensures IsTopOf(ranked[..n], records, topN, rankBy)
  {
    var kept := ranked[..n];
    forall i, j | 0 <= i < j < |kept| ensures ComesFirst(kept[i], kept[j], rankBy) {
      RankedComeInOrder(ranked, rankBy, i, j);
    }
    forall i, r | 0 <= i < |kept| && IsPatternOf(r, records) && !Shown(kept, r.group.fingerprint)
      ensures ComesFirst(kept[i], r, rankBy)
    {
      KeptBeatsCut(ranked, records, rankBy, n, i, r);
    }
  }

  lemma KeptIsTop(records: seq<Record>, topN: int, rankBy: RankBy)
    ensures IsTopOf(Kept(Rank(Patterns(records), rankBy), topN), records, topN, rankBy)
  {
    var ranked := Rank(Patterns(records), rankBy);
    RankIsRanking(records, rankBy);
    TopOfRanking(ranked, |Kept(ranked, topN)|, records, topN, rankBy);
  }

  method AggregateSlowQueries(records: seq<Record>, since: int, until: int, topN: int, rankBy: RankBy)
    returns (d: Digest)
    ensures var inWindow := InWindow(records, since, until);
            d == Digest(|inWindow|, Kept(Rank(Patterns(inWindow), rankBy), topN))
    ensures IsTopOf(d.patterns, InWindow(records, since, until), topN, rankBy)
  {
    var inWindow := InWindow(records, since, until);
    var groups, order := GroupRecords(inWindow);
    GroupsGivePatterns(groups, order, inWindow);
    var patterns := Rank(Averaged(groups, order), rankBy);
    KeptIsTop(inWindow, topN, rankBy);
    return Digest(|inWindow|, Kept(patterns, topN));
  }

  // ---- the order of the records does not matter ----

  /** A pattern without the texts it took from its first record. */
  function Bare(p: Pattern): Pattern {
    p.(group := p.group.(query := "", model := None, operation := None))
  }

  function BareAll(ps: seq<Pattern>): (r: seq<Pattern>)
    ensures |r| == |ps| && forall i :: 0 <= i < |r| ==> r[i] == Bare(ps[i])
  {
    seq(|ps|, i requires 0 <= i < |ps| => Bare(ps[i]))
  }

  lemma {:induction false} SumAppend(a: seq<Record>, b: seq<Record>)
    ensures Sum(a + b) == Sum(a) + Sum(b)
    decreases |b|
  {
    if b == [] {
      assert a + b == a;
    } else {
      SumAppend(a, b[..|b| - 1]);
      assert (a + b)[..|a + b| - 1] == a + b[..|b| - 1];
    }
  }

  lemma SumAround(front: seq<Record>, r: Record, back: seq<Record>)
    ensures Sum(front + [r] + back) == Sum(front + back) + r.durationMs
  {
    assert [r][..0] == [];
    SumAppend(front, back);
    SumAppend(front + [r], back);
    SumAppend(front, [r]);
  }

  lemma AroundOne(b: seq<Record>, i: nat)
    requires i < |b|
    ensures b == b[..i] + [b[i]] + b[i + 1..]
  {
  }

  /** Taking one element out of a list. */
  lemma RemovedSum(b: seq<Record>, i: nat)
    requires i < |b|
    ensures Sum(b) == Sum(b[..i] + b[i + 1..]) + b[i].durationMs
  {
    var front, r, back := b[..i], b[i], b[i + 1..];
    AroundOne(b, i);
    SumAround(front, r, back);
  }

  lemma RemovedMultiset(b: seq<Record>, i: nat)
    requires i < |b|
    ensures multiset(b[..i] + b[i + 1..]) == multiset(b) - multiset{b[i]}
  {
    var front, one, back := b[..i], [b[i]], b[i + 1..];
    AroundOne(b, i);
    assert multiset(b) == multiset(front) + multiset(one) + multiset(back);
  }

  lemma {:induction false} SumOfPermutation(a: seq<Record>, b: seq<Record>)
    requires multiset(a) == multiset(b)
    ensures Sum(a) == Sum(b)
    decreases |a|
  {
    if a == [] {
      assert |multiset(b)| == 0;
    } else {
      assert a[0] in multiset(b);
      var i :| 0 <= i < |b| && b[i] == a[0];
      RemovedSum(a, 0);
      RemovedSum(b, i);
      RemovedMultiset(a, 0);
      RemovedMultiset(b, i);
      SumOfPermutation(a[..0] + a[1..], b[..i] + b[i + 1..]);
    }
  }

  /** Two descriptions of the same members agree but for the texts. */
  lemma DescriptionIsUnique(g: Group, members: seq<Record>, g': Group, members': seq<Record>)
    requires members != [] && multiset(members) == multiset(members') && Describes(g, members)
             && Describes(g', members')
    ensures g.(query := "", model := None, operation := None) == g'.(query := "", model := None, operation := None)
  {
    SumOfPermutation(members, members');
    assert |members| == |multiset(members)| == |multiset(members')| == |members'|;
    assert forall r :: r in members <==> r in multiset(members);
    assert forall r :: r in members' <==> r in multiset(members');
    assert members[0] in members;
  }

  lemma MembersPermute(records: seq<Record>, records': seq<Record>, k: string)
    requires multiset(records) == multiset(records')
    ensures multiset(Members(records, k)) == multiset(Members(records', k))
  {
    forall r ensures multiset(Members(records, k))[r] == multiset(Members(records', k))[r] {
      MembersMean(records, k, r);
      MembersMean(records', k, r);
    }
  }

  lemma KeysPermute(records: seq<Record>, records': seq<Record>, k: string)
    requires multiset(records) == multiset(records') && k in Keys(records)
    ensures k in Keys(records')
  {
    KeysMean(records);
    KeysMean(records');
    var r :| r in records && r.fingerprint == k;
    assert r in multiset(records');
  }

  lemma SamePattern(records: seq<Record>, records': seq<Record>, k: string)
    requires multiset(records) == multiset(records') && k in Keys(records)
    ensures k in Keys(records') && Bare(PatternOf(records, k)) == Bare(PatternOf(records', k))
  {
    KeysPermute(records, records', k);
    MembersPermute(records, records', k);
    KeyHasMembers(records, k);
    KeyHasMembers(records', k);
    DescriptionIsUnique(Summary(Members(records, k)), Members(records, k), Summary(Members(records', k)),
                        Members(records', k));
  }

  lemma BareKeepsOrder(ps: seq<Pattern>, rankBy: RankBy)
    requires Ordered(ps, rankBy)
    ensures Ordered(BareAll(ps), rankBy)
  {
    if ps != [] {
      BareKeepsOrder(ps[1..], rankBy);
      assert BareAll(ps)[1..] == BareAll(ps[1..]);
      forall x | x in BareAll(ps)[1..] ensures Before(BareAll(ps)[0], x, rankBy) {
        var i :| 0 <= i < |ps| - 1 && BareAll(ps)[1..][i] == x;
        assert ps[i + 1] in ps[1..];
      }
    }
  }

  lemma RankedKey(records: seq<Record>, rankBy: RankBy, i: nat) returns (k: string)
    requires i < |Rank(Patterns(records), rankBy)|
    ensures k in Keys(records) && Rank(Patterns(records), rankBy)[i] == PatternOf(records, k)
  {
    RankMeans(Patterns(records), rankBy);
    var p := Rank(Patterns(records), rankBy)[i];
    assert p in Patterns(records);
    var n :| 0 <= n < |Patterns(records)| && Patterns(records)[n] == p;
    k := Keys(records)[n];
  }

  lemma KeyRanked(records: seq<Record>, rankBy: RankBy, k: string) returns (i: nat)
    requires k in Keys(records)
    ensures i < |Rank(Patterns(records), rankBy)| && Rank(Patterns(records), rankBy)[i] == PatternOf(records, k)
  {
    RankMeans(Patterns(records), rankBy);
    var n :| 0 <= n < |Keys(records)| && Keys(records)[n] == k;
    assert Patterns(records)[n] in Patterns(records);
    i :| 0 <= i < |Rank(Patterns(records), rankBy)| && Rank(Patterns(records), rankBy)[i] == Patterns(records)[n];
  }

  lemma BareRankMembers(records: seq<Record>, records': seq<Record>, rankBy: RankBy, x: Pattern)
    requires multiset(records) == multiset(records') && x in BareAll(Rank(Patterns(records), rankBy))
    ensures x in BareAll(Rank(Patterns(records'), rankBy))
  {
    var bare, bare' := BareAll(Rank(Patterns(records), rankBy)), BareAll(Rank(Patterns(records'), rankBy));
    var i :| 0 <= i < |bare| && bare[i] == x;
    var k := RankedKey(records, rankBy, i);
    SamePattern(records, records', k);
    var j := KeyRanked(records', rankBy, k);
    assert bare'[j] == x;
  }

  /** Any permutation of the records gives the same total and the same ranking: the
      counts, totals, averages, extremes, latest times and their order. */
  lemma RecordOrderIsIrrelevant(records: seq<Record>, records': seq<Record>, since: int, until: int, rankBy: RankBy)
    requires multiset(records) == multiset(records')
    ensures var w, w' := InWindow(records, since, until), InWindow(records', since, until);
            |w| == |w'| && BareAll(Rank(Patterns(w), rankBy)) == BareAll(Rank(Patterns(w'), rankBy))
  {
    var w, w' := InWindow(records, since, until), InWindow(records', since, until);
    forall r ensures multiset(w)[r] == multiset(w')[r] {
      WindowMeans(records, since, until, r);
      WindowMeans(records', since, until, r);
    }
    assert multiset(w) == multiset(w');
    assert |w| == |multiset(w)| && |w'| == |multiset(w')|;
    PatternsAreDistinct(w);
    PatternsAreDistinct(w');
    RankMeans(Patterns(w), rankBy);
    RankMeans(Patterns(w'), rankBy);
    BareKeepsOrder(Rank(Patterns(w), rankBy), rankBy);
    BareKeepsOrder(Rank(Patterns(w'), rankBy), rankBy);
    forall x ensures x in BareAll(Rank(Patterns(w), rankBy)) <==> x in BareAll(Rank(Patterns(w'), rankBy)) {
      if x in BareAll(Rank(Patterns(w), rankBy)) {
        BareRankMembers(w, w', rankBy, x);
      }
      if x in BareAll(Rank(Patterns(w'), rankBy)) {
        BareRankMembers(w', w, rankBy, x);
      }
    }
    OrderIsUnique(BareAll(Rank(Patterns(w), rankBy)), BareAll(Rank(Patterns(w'), rankBy)), rankBy);
  }
}
