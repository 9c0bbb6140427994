/** The one-pass byte scanner that bounds nesting depth and array length before
    a request body is parsed, and its agreement with the parsed tree. */
module ShapeScanner {
  import opened Wrappers
  import opened JsonText

  datatype Limits = Limits(maxDepth: int, maxArrayLength: int)
  datatype Reason = TooDeep | ArrayTooLong
  datatype Violation = Violation(reason: Reason, at: nat)

  // ---- the scanner as a byte automaton ----

  /** `Escape` is the byte after a backslash, which the loop below skips. */
  datatype Mode = Normal | InString | Escape

  datatype Scan =
    | Going(mode: Mode, stack: seq<int>, at: nat)
    | Failed(violation: Violation)

  const START := Going(Normal, [], 0)

  /** Stack entries: -1 an array with no element yet, n >= 1 an array in its
      n-th element, -2 an object. */
  function StartValue(stack: seq<int>): seq<int> {
    var top := |stack| - 1;
    if top >= 0 && stack[top] == -1 then stack[top := 1] else stack
  }

  function Pop(stack: seq<int>): seq<int> {
    if |stack| == 0 then stack else stack[..|stack| - 1]
  }

  function StepNormal(b: byte, stack: seq<int>, at: nat, limits: Limits): Scan {
    if IsWhitespace(b) then Going(Normal, stack, at + 1)
    else if b == QUOTE then Going(InString, StartValue(stack), at + 1)
    else if b == OPEN_BRACE || b == OPEN_BRACKET then
      if |stack| + 1 > limits.maxDepth then Failed(Violation(TooDeep, at))
      else Going(Normal, StartValue(stack) + [if b == OPEN_BRACKET then -1 else -2], at + 1)
    else if b == CLOSE_BRACE || b == CLOSE_BRACKET then Going(Normal, Pop(stack), at + 1)
    else if b == COMMA then
      var top := |stack| - 1;
      if top >= 0 && stack[top] >= 0 then
        if stack[top] + 1 > limits.maxArrayLength then Failed(Violation(ArrayTooLong, at))
        else Going(Normal, stack[top := stack[top] + 1], at + 1)
      else Going(Normal, stack, at + 1)
    else if b == COLON then Going(Normal, stack, at + 1)
    else Going(Normal, StartValue(stack), at + 1)
  }

  function Step(b: byte, s: Scan, limits: Limits): Scan {
    match s
    case Failed(_) => s
    case Going(Normal, stack, at) => StepNormal(b, stack, at, limits)
    case Going(InString, stack, at) =>
      Going(if b == BACKSLASH then Escape else if b == QUOTE then Normal else InString, stack, at + 1)
    case Going(Escape, stack, at) => Going(InString, stack, at + 1)
  }

  function Feed(bytes: seq<byte>, s: Scan, limits: Limits): Scan {
    if bytes == [] then s else Feed(bytes[1..], Step(bytes[0], s, limits), limits)
  }

  /** What the scanner's memory holds while it runs. */
  predicate Bounded(stack: seq<int>, limits: Limits) {
    && (|stack| == 0 || |stack| <= limits.maxDepth)
    && forall i :: 0 <= i < |stack| ==>
         stack[i] == -2 || stack[i] == -1 || stack[i] == 1 || 1 <= stack[i] <= limits.maxArrayLength
  }

  /** What the scan of the text of a document must come to: nothing is thrown exactly if the
      value nests no deeper than `maxDepth` (a scalar always passes) and has no array longer
      than `maxArrayLength` (an array of one always passes); and what is thrown is the reason
      of the violation whose byte comes first of all in the text. */
  ghost predicate IsRightFor(thrown: Option<Reason>, d: Document, limits: Limits) {
    var t := TreeOf(d.value);
    && (thrown.None? <==>
        && (t.Leaf? || Depth(t) <= limits.maxDepth)
        && ArraysAtMost(t, if limits.maxArrayLength < 1 then 1 else limits.maxArrayLength))
    && (thrown.Some? ==>
        exists w :: DocumentWitness(d, w, limits) && w.reason == thrown.value && LeadsAll(d, w, limits))
    && (thrown == Some(TooDeep) ==> Depth(t) > limits.maxDepth)
    && (thrown == Some(ArrayTooLong) ==> !ArraysAtMost(t, limits.maxArrayLength))
  }

  ghost predicate LeadsAll(d: Document, w: Violation, limits: Limits) {
    forall other :: DocumentWitness(d, other, limits) ==> other == w || w.at < other.at
  }

  /** The check in front of the parser, on any bytes and on the text of any document. */
  method AssertJsonShape(body: array<byte>, limits: Limits) returns (thrown: Option<Reason>)
    ensures thrown.Some? <==> Feed(body[..], START, limits).Failed?
    ensures thrown.Some? ==> thrown.value == Feed(body[..], START, limits).violation.reason
    ensures forall d :: DocumentText(d) == body[..] ==> IsRightFor(thrown, d, limits)
  {
    thrown := ScanShape(body, limits);
    ScanIsRight(body[..], thrown, limits);
  }

  /** The source's loop: the index skips an escaped byte, the stack is updated in
      place, and the first violation ends the scan. */
  method ScanShape(body: array<byte>, limits: Limits) returns (thrown: Option<Reason>)
    ensures thrown.Some? <==> Feed(body[..], START, limits).Failed?
    ensures thrown.Some? ==> thrown.value == Feed(body[..], START, limits).violation.reason
  {
    var stack: seq<int> := [];
    var inString := false;
    var i := 0;
    while i < body.Length
      invariant 0 <= i <= body.Length + 1
      invariant Bounded(stack, limits)
      invariant i <= body.Length ==>
        Feed(body[..], START, limits) == Feed(body[i..], Going(if inString then InString else Normal, stack, i), limits)
      invariant i > body.Length ==> Feed(body[..], START, limits).Going?
      decreases body.Length + 1 - i
    {
      var b := body[i];
      ghost var before := Going(if inString then InString else Normal, stack, i);
      assert body[i..][0] == b && body[i..][1..] == body[i + 1..];
      assert Feed(body[i..], before, limits) == Feed(body[i + 1..], Step(b, before, limits), limits);
      if inString {
        if b == BACKSLASH {
          i := i + 1;
          if i < body.Length {
            assert body[i..][0] == body[i] && body[i..][1..] == body[i + 1..];
          }
        } else if b == QUOTE {
          inString := false;
        }
      } else if IsWhitespace(b) {
      } else if b == QUOTE {
        stack := StartValue(stack);
        inString := true;
      } else if b == OPEN_BRACE || b == OPEN_BRACKET {
        stack := StartValue(stack);
        stack := stack + [if b == OPEN_BRACKET then -1 else -2];
        if |stack| > limits.maxDepth {
          FailedStays(body[i + 1..], Step(b, before, limits), limits);
          return Some(TooDeep);
        }
      } else if b == CLOSE_BRACE || b == CLOSE_BRACKET {
        stack := Pop(stack);
      } else if b == COMMA {
        var top := |stack| - 1;
        if top >= 0 && stack[top] >= 0 {
          stack := stack[top := stack[top] + 1];
          if stack[top] > limits.maxArrayLength {
            FailedStays(body[i + 1..], Step(b, before, limits), limits);
            return Some(ArrayTooLong);
          }
        }
      } else if b != COLON {
        stack := StartValue(stack);
      }
      i := i + 1;
    }
    return None;
  }

  lemma {:induction false} FailedStays(bytes: seq<byte>, s: Scan, limits: Limits)
    requires s.Failed?
    ensures Feed(bytes, s, limits) == s
  {
    if bytes != [] {
      FailedStays(bytes[1..], s, limits);
    }
  }

  /** Scanning a concatenation is scanning its parts in turn. */
  lemma {:induction false} FeedConcat(a: seq<byte>, b: seq<byte>, s: Scan, limits: Limits)
    ensures Feed(a + b, s, limits) == Feed(b, Feed(a, s, limits), limits)
  {
    if a == [] {
      assert a + b == b;
    } else {
      assert (a + b)[0] == a[0] && (a + b)[1..] == a[1..] + b;
      FeedConcat(a[1..], b, Step(a[0], s, limits), limits);
    }
  }

  /** On any bytes at all, well formed or not, the memory stays bounded. */
  lemma {:induction false} MemoryStaysBounded(bytes: seq<byte>, s: Scan, limits: Limits)
    requires s.Going? ==> Bounded(s.stack, limits)
    ensures var end := Feed(bytes, s, limits); end.Going? ==> Bounded(end.stack, limits)
  {
    if bytes != [] {
      MemoryStaysBounded(bytes[1..], Step(bytes[0], s, limits), limits);
    }
  }

  // ---- what the text of a value contains ----

  /** `w` is a byte that shows a broken limit: a bracket that opens a container
      below `maxDepth`, or a comma that follows element `maxArrayLength` or a later
      one.  `depth` containers are open around the value and its text starts at `at`. */
  predicate Witness(j: Json, depth: nat, at: nat, w: Violation, limits: Limits)
    decreases j
  {
    match j
    case Array(gap, es) => ContainerWitness(true, gap, es, depth, at, w, limits)
    case Object(gap, ms) => ContainerWitness(false, gap, ms, depth, at, w, limits)
    case _ => false
  }

  predicate ContainerWitness(inArray: bool, gap: Ws, items: Items, depth: nat, at: nat, w: Violation, limits: Limits)
    decreases items, 1
  {
    || (depth + 1 > limits.maxDepth && w == Violation(TooDeep, at))
    || ItemWitness(items, inArray, 1, depth + 1, at + 1 + |gap|, w, limits)
  }

  predicate ItemWitness(items: Items, inArray: bool, k: nat, depth: nat, at: nat, w: Violation, limits: Limits)
    decreases items, 0
  {
    match items
    case Nil => false
    case Cons(lead, v, after, tail) =>
      var comma := at + |ItemText(lead, v, after)|;
      || Witness(v, depth, at + |LeadText(lead)|, w, limits)
      || (inArray && tail.Cons? && k + 1 > limits.maxArrayLength && w == Violation(ArrayTooLong, comma))
      || ItemWitness(tail, inArray, k + 1, depth, comma + 1, w, limits)
  }

  predicate DocumentWitness(d: Document, w: Violation, limits: Limits) {
    Witness(d.value, 0, |d.before|, w, limits)
  }

  /** The one the scanner meets first, if any. */
  function First(j: Json, depth: nat, at: nat, limits: Limits): Option<Violation>
    decreases j
  {
    match j
    case Array(gap, es) => ContainerFirst(true, gap, es, depth, at, limits)
    case Object(gap, ms) => ContainerFirst(false, gap, ms, depth, at, limits)
    case _ => None
  }

  function ContainerFirst(inArray: bool, gap: Ws, items: Items, depth: nat, at: nat, limits: Limits): Option<Violation>
    decreases items, 1
  {
    Or(OpeningFirst(depth, at, limits), ItemFirst(items, inArray, 1, depth + 1, at + 1 + |gap|, limits))
  }

  function OpeningFirst(depth: nat, at: nat, limits: Limits): Option<Violation> {
    if depth + 1 > limits.maxDepth then Some(Violation(TooDeep, at)) else None
  }

  function CommaFirst(inArray: bool, k: nat, at: nat, limits: Limits): Option<Violation> {
    if inArray && k + 1 > limits.maxArrayLength then Some(Violation(ArrayTooLong, at)) else None
  }

  function ItemFirst(items: Items, inArray: bool, k: nat, depth: nat, at: nat, limits: Limits): Option<Violation>
    decreases items, 0
  {
    match items
    case Nil => None
    case Cons(lead, v, after, tail) =>
      var comma := at + |ItemText(lead, v, after)|;
      Or(First(v, depth, at + |LeadText(lead)|, limits),
         if tail.Nil? then None
         else Or(CommaFirst(inArray, k, comma, limits), ItemFirst(tail, inArray, k + 1, depth, comma + 1, limits)))
  }

  function Or(a: Option<Violation>, b: Option<Violation>): Option<Violation> {
    if a.Some? then a else b
  }

  /** The state after a piece of text whose first violation is `v`. */
  function After(v: Option<Violation>, stack: seq<int>, at: nat): Scan {
    if v.None? then Going(Normal, stack, at) else Failed(v.value)
  }

  // ---- the scanner run over each piece of text ----

  lemma {:induction false} FeedWhitespace(ws: Ws, stack: seq<int>, at: nat, limits: Limits)
    ensures Feed(ws, Going(Normal, stack, at), limits) == Going(Normal, stack, at + |ws|)
  {
    if ws != [] {
      var rest: Ws := ws[1..];
      FeedWhitespace(rest, stack, at + 1, limits);
    }
  }

  lemma {:induction false} FeedUnits(us: seq<Unit>, stack: seq<int>, at: nat, limits: Limits)
    ensures Feed(UnitsText(us), Going(InString, stack, at), limits) == Going(InString, stack, at + |UnitsText(us)|)
  {
    if us != [] {
      var first := UnitText(us[0]);
      FeedUnit(us[0], stack, at, limits);
      FeedConcat(first, UnitsText(us[1..]), Going(InString, stack, at), limits);
      FeedUnits(us[1..], stack, at + |first|, limits);
    }
  }

  lemma {:induction false} FeedUnescaped(bytes: seq<byte>, stack: seq<int>, at: nat, limits: Limits)
    requires forall i :: 0 <= i < |bytes| ==> bytes[i] != QUOTE && bytes[i] != BACKSLASH
    ensures Feed(bytes, Going(InString, stack, at), limits) == Going(InString, stack, at + |bytes|)
  {
    if bytes != [] {
      FeedUnescaped(bytes[1..], stack, at + 1, limits);
    }
  }

  lemma FeedUnit(u: Unit, stack: seq<int>, at: nat, limits: Limits)
    ensures Feed(UnitText(u), Going(InString, stack, at), limits) == Going(InString, stack, at + |UnitText(u)|)
  {
    var t := UnitText(u);
    if u.Plain? {
      FeedUnescaped(t, stack, at, limits);
    } else {
      assert t[1..][1..] == t[2..];
      FeedUnescaped(t[2..], stack, at + 2, limits);
    }
  }

  lemma FeedString(us: seq<Unit>, stack: seq<int>, at: nat, limits: Limits)
    ensures Feed(StringText(us), Going(Normal, stack, at), limits)
         == Going(Normal, StartValue(stack), at + |StringText(us)|)
  {
    var s0, s1 := Going(Normal, stack, at), Going(InString, StartValue(stack), at + 1);
    assert StringText(us) == [QUOTE] + (UnitsText(us) + [QUOTE]);
    FeedConcat([QUOTE], UnitsText(us) + [QUOTE], s0, limits);
    FeedConcat(UnitsText(us), [QUOTE], s1, limits);
    FeedUnits(us, StartValue(stack), at + 1, limits);
  }

  /** A byte of a number or of `true`, `false`, `null`. */
  predicate Inert(b: byte) {
    !IsWhitespace(b) && b !in {QUOTE, OPEN_BRACE, OPEN_BRACKET, CLOSE_BRACE, CLOSE_BRACKET, COMMA, COLON}
  }

  lemma {:induction false} FeedInert(bytes: seq<byte>, stack: seq<int>, at: nat, limits: Limits)
    requires bytes != [] && forall i :: 0 <= i < |bytes| ==> Inert(bytes[i])
    ensures Feed(bytes, Going(Normal, stack, at), limits) == Going(Normal, StartValue(stack), at + |bytes|)
  {
    assert Step(bytes[0], Going(Normal, stack, at), limits) == Going(Normal, StartValue(stack), at + 1);
    if |bytes| > 1 {
      FeedInert(bytes[1..], StartValue(stack), at + 1, limits);
      assert StartValue(StartValue(stack)) == StartValue(stack);
    }
  }

  lemma ScalarsAreInert(j: Json)
    requires j.Literal? || j.Number?
    ensures Text(j) != [] && forall i :: 0 <= i < |Text(j)| ==> Inert(Text(j)[i])
  {
  }

  lemma FeedLead(lead: Lead, stack: seq<int>, at: nat, limits: Limits)
    ensures Feed(LeadText(lead), Going(Normal, stack, at), limits)
         == Going(Normal, if lead.Bare? then stack else StartValue(stack), at + |LeadText(lead)|)
  {
    FeedWhitespace(lead.before, stack, at, limits);
    if lead.Keyed? {
      var key := StringText(lead.key);
      var p0 := lead.before;
      var p1 := p0 + key;
      var p2 := p1 + lead.afterKey;
      var p3 := p2 + [COLON];
      var s0 := Going(Normal, stack, at);
      var started := StartValue(stack);
      FeedConcat(p0, key, s0, limits);
      FeedString(lead.key, stack, at + |p0|, limits);
      FeedConcat(p1, lead.afterKey, s0, limits);
      FeedWhitespace(lead.afterKey, started, at + |p1|, limits);
      FeedConcat(p2, [COLON], s0, limits);
      assert Feed([COLON], Going(Normal, started, at + |p2|), limits) == Going(Normal, started, at + |p3|);
      FeedConcat(p3, lead.beforeValue, s0, limits);
      FeedWhitespace(lead.beforeValue, started, at + |p3|, limits);
    }
  }

  /** The top of the stack between the items of a container: before item `k`, and after it. */
  function TopBefore(inArray: bool, k: nat): int {
    if !inArray then -2 else if k == 1 then -1 else k
  }

  function TopAfter(inArray: bool, k: nat): int {
    if !inArray then -2 else k
  }

  /** The top of the stack after all of the items, the first being item `k`. */
  function TopAtEnd(items: Items, inArray: bool, k: nat): int {
    match items
    case Nil => TopBefore(inArray, k)
    case Cons(_, _, _, tail) => if tail.Nil? then TopAfter(inArray, k) else TopAtEnd(tail, inArray, k + 1)
  }

  /** Two consecutive pieces of text: the first violation is the first piece's, if it has one. */
  lemma Chain(a: seq<byte>, b: seq<byte>, s: Scan,
              va: Option<Violation>, middle: seq<int>, at: nat,
              vb: Option<Violation>, last: seq<int>, end: nat, limits: Limits)
    requires Feed(a, s, limits) == After(va, middle, at)
    requires va.None? ==> Feed(b, Going(Normal, middle, at), limits) == After(vb, last, end)
    ensures Feed(a + b, s, limits) == After(Or(va, vb), last, end)
  {
    FeedConcat(a, b, s, limits);
    if va.Some? {
      FailedStays(b, Failed(va.value), limits);
    }
  }

  /** Three pieces, the last without violations. */
  lemma Chain3(a: seq<byte>, b: seq<byte>, c: seq<byte>, s: Scan,
               va: Option<Violation>, m1: seq<int>, p1: nat,
               vb: Option<Violation>, m2: seq<int>, p2: nat, last: seq<int>, end: nat, limits: Limits)
    requires Feed(a, s, limits) == After(va, m1, p1)
    requires Feed(b, Going(Normal, m1, p1), limits) == After(vb, m2, p2)
    requires Feed(c, Going(Normal, m2, p2), limits) == Going(Normal, last, end)
    ensures Feed(a + (b + c), s, limits) == After(Or(va, vb), last, end)
  {
    Chain(b, c, Going(Normal, m1, p1), vb, m2, p2, None, last, end, limits);
    Chain(a, b + c, s, va, m1, p1, vb, last, end, limits);
  }

  lemma FeedOpening(inArray: bool, gap: Ws, stack: seq<int>, at: nat, limits: Limits)
    ensures Feed(OpeningText(inArray, gap), Going(Normal, stack, at), limits)
         == After(OpeningFirst(|stack|, at, limits), StartValue(stack) + [TopBefore(inArray, 1)], at + 1 + |gap|)
  {
    var open := if inArray then OPEN_BRACKET else OPEN_BRACE;
    var inner := StartValue(stack) + [TopBefore(inArray, 1)];
    assert [open][1..] == [];
    FeedWhitespace(gap, inner, at + 1, limits);
    Chain([open], gap, Going(Normal, stack, at), OpeningFirst(|stack|, at, limits), inner, at + 1,
          None, inner, at + 1 + |gap|, limits);
  }

  lemma FeedClosing(inArray: bool, stack: seq<int>, at: nat, limits: Limits)
    ensures Feed(Closing(inArray), Going(Normal, stack, at), limits)
         == Going(Normal, Pop(stack), at + 1)
  {
  }

  lemma FeedComma(inArray: bool, k: nat, outer: seq<int>, at: nat, limits: Limits)
    requires k >= 1
    ensures Feed([COMMA], Going(Normal, outer + [TopAfter(inArray, k)], at), limits)
         == After(CommaFirst(inArray, k, at, limits), outer + [TopBefore(inArray, k + 1)], at + 1)
  {
    var s := Going(Normal, outer + [TopAfter(inArray, k)], at);
    assert [COMMA][1..] == [];
    var next := Step(COMMA, s, limits);
    if next.Going? {
      assert next.stack == outer + [TopBefore(inArray, k + 1)];
    }
  }

  /** The heart of the agreement: scanning the text of a value leaves the stack as
      it was, but for the count of the array around it, or stops at the value's
      first violation. */
  lemma {:induction false} FeedValue(j: Json, stack: seq<int>, at: nat, limits: Limits)
    ensures Feed(Text(j), Going(Normal, stack, at), limits)
         == After(First(j, |stack|, at, limits), StartValue(stack), at + |Text(j)|)
    decreases j, 0
  {
    match j
    case Literal(_) =>
      ScalarsAreInert(j);
      FeedInert(Text(j), stack, at, limits);
    case Number(_, _, _, _) =>
      ScalarsAreInert(j);
      FeedInert(Text(j), stack, at, limits);
    case String(us) =>
      FeedString(us, stack, at, limits);
    case Array(gap, es) =>
      FeedContainer(true, gap, es, stack, at, limits);
    case Object(gap, ms) =>
      FeedContainer(false, gap, ms, stack, at, limits);
  }

  lemma {:induction false} FeedContainer(inArray: bool, gap: Ws, items: Items, stack: seq<int>, at: nat, limits: Limits)
    ensures Feed(ContainerText(inArray, gap, items), Going(Normal, stack, at), limits)
         == After(ContainerFirst(inArray, gap, items, |stack|, at, limits), StartValue(stack),
                  at + |ContainerText(inArray, gap, items)|)
    decreases items, 1
  {
    var start := at + 1 + |gap|;
    var last := StartValue(stack) + [TopAtEnd(items, inArray, 1)];
    assert Pop(last) == StartValue(stack);
    if items.Nil? {
      FeedNoItems(StartValue(stack) + [TopBefore(inArray, 1)], start, limits);
    } else {
      FeedItems(items, inArray, 1, StartValue(stack), start, limits);
    }
    FeedEnclosed(inArray, gap, ItemsText(items), ItemFirst(items, inArray, 1, |stack| + 1, start, limits),
                 last, stack, at, limits);
  }

  lemma FeedNoItems(stack: seq<int>, at: nat, limits: Limits)
    ensures Feed(ItemsText(Nil), Going(Normal, stack, at), limits) == After(None, stack, at)
    ensures |ItemsText(Nil)| == 0
  {
  }

  /** A container around a body that ends with the stack `last`. */
  lemma FeedEnclosed(inArray: bool, gap: Ws, body: seq<byte>, first: Option<Violation>, last: seq<int>,
                     stack: seq<int>, at: nat, limits: Limits)
    requires Pop(last) == StartValue(stack)
    requires Feed(body, Going(Normal, StartValue(stack) + [TopBefore(inArray, 1)], at + 1 + |gap|), limits)
          == After(first, last, at + 1 + |gap| + |body|)
    ensures Feed(OpeningText(inArray, gap) + (body + Closing(inArray)), Going(Normal, stack, at), limits)
         == After(Or(OpeningFirst(|stack|, at, limits), first), StartValue(stack), at + |gap| + |body| + 2)
  {
    var inner, start := StartValue(stack) + [TopBefore(inArray, 1)], at + 1 + |gap|;
    FeedOpening(inArray, gap, stack, at, limits);
    FeedClosed(inArray, body, first, inner, last, start, limits);
    Chain(OpeningText(inArray, gap), body + Closing(inArray), Going(Normal, stack, at),
          OpeningFirst(|stack|, at, limits), inner, start, first, Pop(last), start + |body| + 1, limits);
  }

  /** The items of a container and its closing bracket. */
  lemma FeedClosed(inArray: bool, body: seq<byte>, first: Option<Violation>, inner: seq<int>, last: seq<int>,
                   start: nat, limits: Limits)
    requires Feed(body, Going(Normal, inner, start), limits) == After(first, last, start + |body|)
    ensures Feed(body + Closing(inArray), Going(Normal, inner, start), limits)
            == After(first, Pop(last), start + |body| + 1)
  {
    FeedClosing(inArray, last, start + |body|, limits);
    Chain(body, Closing(inArray), Going(Normal, inner, start), first, last, start + |body|,
          None, Pop(last), start + |body| + 1, limits);
  }

  lemma StartedTop(inArray: bool, k: nat, outer: seq<int>)
    requires k >= 1
    ensures var started := StartValue(outer + [TopBefore(inArray, k)]);
            started == outer + [TopAfter(inArray, k)] && StartValue(started) == started
    ensures |StartValue(outer + [TopBefore(inArray, k)])| == |outer| + 1
  {
  }

  lemma {:induction false} FeedItem(lead: Lead, v: Json, after: Ws, inArray: bool, k: nat, outer: seq<int>, at: nat,
                                    limits: Limits)
    requires k >= 1
    ensures Feed(ItemText(lead, v, after), Going(Normal, outer + [TopBefore(inArray, k)], at), limits)
         == After(First(v, |outer| + 1, at + |LeadText(lead)|, limits),
                  outer + [TopAfter(inArray, k)], at + |ItemText(lead, v, after)|)
    decreases v, 1
  {
    var inner := outer + [TopBefore(inArray, k)];
    var started := if lead.Bare? then inner else StartValue(inner);
    StartedTop(inArray, k, outer);
    FeedValue(v, started, at + |LeadText(lead)|, limits);
    FeedSurrounded(lead, Text(v), after, First(v, |outer| + 1, at + |LeadText(lead)|, limits), inner, at, limits);
  }

  /** An item around the text of its value. */
  lemma FeedSurrounded(lead: Lead, text: seq<byte>, after: Ws, first: Option<Violation>, inner: seq<int>, at: nat,
                       limits: Limits)
    requires var started := if lead.Bare? then inner else StartValue(inner);
             var value := at + |LeadText(lead)|;
             Feed(text, Going(Normal, started, value), limits) == After(first, StartValue(started), value + |text|)
    ensures Feed(LeadText(lead) + (text + after), Going(Normal, inner, at), limits)
         == After(first, StartValue(inner), at + |LeadText(lead)| + |text| + |after|)
  {
    var started := if lead.Bare? then inner else StartValue(inner);
    var counted := StartValue(started);
    assert counted == StartValue(inner);
    var value := at + |LeadText(lead)|;
    var gap := value + |text|;
    FeedLead(lead, inner, at, limits);
    FeedWhitespace(after, counted, gap, limits);
    Chain3(LeadText(lead), text, after, Going(Normal, inner, at), None, started, value, first, counted, gap, counted,
           gap + |after|, limits);
  }

  lemma {:induction false} FeedItems(items: Items, inArray: bool, k: nat, outer: seq<int>, at: nat, limits: Limits)
    requires items.Cons? && k >= 1
    ensures Feed(ItemsText(items), Going(Normal, outer + [TopBefore(inArray, k)], at), limits)
         == After(ItemFirst(items, inArray, k, |outer| + 1, at, limits),
                  outer + [TopAtEnd(items, inArray, k)], at + |ItemsText(items)|)
    decreases items, 0
  {
    var Cons(lead, v, after, tail) := items;
    var item := ItemText(lead, v, after);
    FeedItem(lead, v, after, inArray, k, outer, at, limits);
    if tail.Nil? {
      assert ItemsText(items) == item;
      assert ItemFirst(items, inArray, k, |outer| + 1, at, limits)
             == First(v, |outer| + 1, at + |LeadText(lead)|, limits);
    } else {
      FeedItems(tail, inArray, k + 1, outer, at + |item| + 1, limits);
      FeedContinued(item, First(v, |outer| + 1, at + |LeadText(lead)|, limits),
                    ItemsText(tail), ItemFirst(tail, inArray, k + 1, |outer| + 1, at + |item| + 1, limits),
                    outer + [TopAtEnd(items, inArray, k)], inArray, k, outer, at, limits);
    }
  }

  /** An item, a comma, and the items that follow. */
  lemma FeedContinued(item: seq<byte>, first: Option<Violation>, rest: seq<byte>, others: Option<Violation>,
                      last: seq<int>, inArray: bool, k: nat, outer: seq<int>, at: nat, limits: Limits)
    requires k >= 1
    requires Feed(item, Going(Normal, outer + [TopBefore(inArray, k)], at), limits)
          == After(first, outer + [TopAfter(inArray, k)], at + |item|)
    requires Feed(rest, Going(Normal, outer + [TopBefore(inArray, k + 1)], at + |item| + 1), limits)
          == After(others, last, at + |item| + 1 + |rest|)
    ensures Feed(item + ([COMMA] + rest), Going(Normal, outer + [TopBefore(inArray, k)], at), limits)
         == After(Or(first, Or(CommaFirst(inArray, k, at + |item|, limits), others)), last, at + |item| + 1 + |rest|)
  {
    var counted, next, comma := outer + [TopAfter(inArray, k)], outer + [TopBefore(inArray, k + 1)], at + |item|;
    var end := comma + 1 + |rest|;
    var middle := CommaFirst(inArray, k, comma, limits);
    FeedComma(inArray, k, outer, comma, limits);
    Chain([COMMA], rest, Going(Normal, counted, comma), middle, next, comma + 1, others, last, end, limits);
    Chain(item, [COMMA] + rest, Going(Normal, outer + [TopBefore(inArray, k)], at), first, counted, comma,
          Or(middle, others), last, end, limits);
  }

  // ---- the first violation and the others ----

  /** `first` is a witness, and the first of them as far as `w` goes. */
  predicate Leads(first: Option<Violation>, w: Violation) {
    first.Some? && (first.value == w || first.value.at < w.at)
  }

  lemma {:induction false} FirstLeads(j: Json, depth: nat, at: nat, w: Violation, limits: Limits)
    requires Witness(j, depth, at, w, limits)
    ensures at <= w.at < at + |Text(j)|
    ensures Leads(First(j, depth, at, limits), w)
    decreases j
  {
    match j
    case Array(gap, es) => ContainerFirstLeads(true, gap, es, depth, at, w, limits);
    case Object(gap, ms) => ContainerFirstLeads(false, gap, ms, depth, at, w, limits);
  }

  lemma {:induction false} ContainerFirstLeads(inArray: bool, gap: Ws, items: Items, depth: nat, at: nat,
                                               w: Violation, limits: Limits)
    requires ContainerWitness(inArray, gap, items, depth, at, w, limits)
    ensures at <= w.at < at + |ContainerText(inArray, gap, items)|
    ensures Leads(ContainerFirst(inArray, gap, items, depth, at, limits), w)
    decreases items, 1
  {
    if ItemWitness(items, inArray, 1, depth + 1, at + 1 + |gap|, w, limits) {
      ItemFirstLeads(items, inArray, 1, depth + 1, at + 1 + |gap|, w, limits);
    }
  }

  lemma {:induction false} ItemFirstLeads(items: Items, inArray: bool, k: nat, depth: nat, at: nat, w: Violation,
                                          limits: Limits)
    requires ItemWitness(items, inArray, k, depth, at, w, limits)
    ensures at <= w.at < at + |ItemsText(items)|
    ensures Leads(ItemFirst(items, inArray, k, depth, at, limits), w)
    decreases items, 0
  {
    var Cons(lead, v, after, tail) := items;
    var value, comma := at + |LeadText(lead)|, at + |ItemText(lead, v, after)|;
    FirstIsWitness(v, depth, value, limits);
    var first := First(v, depth, value, limits);
    if Witness(v, depth, value, w, limits) {
      FirstLeads(v, depth, value, w, limits);
    } else {
      if first.Some? {
        FirstLeads(v, depth, value, first.value, limits);
      }
      if ItemWitness(tail, inArray, k + 1, depth, comma + 1, w, limits) {
        ItemFirstLeads(tail, inArray, k + 1, depth, comma + 1, w, limits);
      }
    }
  }

  lemma {:induction false} FirstIsWitness(j: Json, depth: nat, at: nat, limits: Limits)
    ensures var v := First(j, depth, at, limits); v.Some? ==> Witness(j, depth, at, v.value, limits)
    decreases j
  {
    match j
    case Array(_, es) => ItemFirstIsWitness(es, true, 1, depth + 1, at + 1 + |j.gap|, limits);
    case Object(_, ms) => ItemFirstIsWitness(ms, false, 1, depth + 1, at + 1 + |j.gap|, limits);
    case _ =>
  }

  lemma {:induction false} ItemFirstIsWitness(items: Items, inArray: bool, k: nat, depth: nat, at: nat, limits: Limits)
    ensures var v := ItemFirst(items, inArray, k, depth, at, limits);
            v.Some? ==> ItemWitness(items, inArray, k, depth, at, v.value, limits)
    decreases items
  {
    if items.Cons? {
      FirstIsWitness(items.value, depth, at + |LeadText(items.lead)|, limits);
      ItemFirstIsWitness(items.tail, inArray, k + 1, depth,
                         at + |ItemText(items.lead, items.value, items.after)| + 1, limits);
    }
  }

  /** The byte at a violation's position is one that can break the limit. */
  predicate Marks(b: byte, reason: Reason) {
    match reason
    case TooDeep => b == OPEN_BRACKET || b == OPEN_BRACE
    case ArrayTooLong => b == COMMA
  }

  /** On any bytes, a failed scan points at a bracket or comma it has read. */
  lemma {:induction false} FailurePointsAtItsByte(bytes: seq<byte>, s: Scan, limits: Limits)
    requires s.Going? && Feed(bytes, s, limits).Failed?
    ensures var v := Feed(bytes, s, limits).violation;
            s.at <= v.at < s.at + |bytes| && Marks(bytes[v.at - s.at], v.reason)
  {
    var next := Step(bytes[0], s, limits);
    if next.Failed? {
      FailedStays(bytes[1..], next, limits);
    } else {
      FailurePointsAtItsByte(bytes[1..], next, limits);
    }
  }

  // ---- which limits a value breaks ----

  /** The array limit the scanner enforces: a one-element array has no comma. */
  function Effective(maxArrayLength: int): int {
    if maxArrayLength < 1 then 1 else maxArrayLength
  }

  predicate DepthFits(depth: nat, height: nat, limits: Limits) {
    height == 0 || depth + height <= limits.maxDepth
  }

  predicate Fits(t: Tree, depth: nat, limits: Limits) {
    DepthFits(depth, Depth(t), limits) && ArraysAtMost(t, Effective(limits.maxArrayLength))
  }

  /** The trees fit, and so does the number of separators after tree `k`. */
  predicate AllFit(ts: Trees, inArray: bool, k: nat, depth: nat, limits: Limits) {
    match ts
    case NoTrees => true
    case Trees(t, rest) =>
      && Fits(t, depth, limits)
      && (inArray && rest.Trees? ==> k + 1 <= limits.maxArrayLength)
      && AllFit(rest, inArray, k + 1, depth, limits)
  }

  lemma {:induction false} FirstDecidesFit(j: Json, depth: nat, at: nat, limits: Limits)
    ensures First(j, depth, at, limits).None? <==> Fits(TreeOf(j), depth, limits)
    decreases j
  {
    match j
    case Array(_, es) =>
      ItemFirstDecidesFit(es, true, 1, depth + 1, at + 1 + |j.gap|, limits);
      AllFitMeans(TreesOf(es), true, 1, depth + 1, limits);
    case Object(_, ms) =>
      ItemFirstDecidesFit(ms, false, 1, depth + 1, at + 1 + |j.gap|, limits);
      AllFitMeans(TreesOf(ms), false, 1, depth + 1, limits);
    case _ =>
  }

  lemma {:induction false} ItemFirstDecidesFit(items: Items, inArray: bool, k: nat, depth: nat, at: nat, limits: Limits)
    ensures ItemFirst(items, inArray, k, depth, at, limits).None? <==> AllFit(TreesOf(items), inArray, k, depth, limits)
    decreases items
  {
    if items.Cons? {
      FirstDecidesFit(items.value, depth, at + |LeadText(items.lead)|, limits);
      ItemFirstDecidesFit(items.tail, inArray, k + 1, depth,
                          at + |ItemText(items.lead, items.value, items.after)| + 1, limits);
    }
  }

  lemma {:induction false} AllFitMeans(ts: Trees, inArray: bool, k: nat, depth: nat, limits: Limits)
    requires k >= 1
    ensures AllFit(ts, inArray, k, depth, limits) <==>
            && DepthFits(depth, DepthOfAll(ts), limits)
            && AllArraysAtMost(ts, Effective(limits.maxArrayLength))
            && (inArray && Length(ts) >= 2 ==> k + Length(ts) - 1 <= limits.maxArrayLength)
  {
    if ts.Trees? {
      AllFitMeans(ts.rest, inArray, k + 1, depth, limits);
    }
  }

  /** A witness's reason is true of the value. */
  predicate Justified(w: Violation, depth: nat, height: nat, arraysFit: bool, limits: Limits) {
    match w.reason
    case TooDeep => depth + height > limits.maxDepth
    case ArrayTooLong => !arraysFit
  }

  lemma {:induction false} WitnessJustified(j: Json, depth: nat, at: nat, w: Violation, limits: Limits)
    requires Witness(j, depth, at, w, limits)
    ensures Justified(w, depth, Depth(TreeOf(j)), ArraysAtMost(TreeOf(j), limits.maxArrayLength), limits)
    decreases j
  {
    match j
    case Array(gap, es) =>
      if ItemWitness(es, true, 1, depth + 1, at + 1 + |gap|, w, limits) {
        ItemWitnessJustified(es, true, 1, depth + 1, at + 1 + |gap|, w, limits);
      }
    case Object(gap, ms) =>
      if ItemWitness(ms, false, 1, depth + 1, at + 1 + |gap|, w, limits) {
        ItemWitnessJustified(ms, false, 1, depth + 1, at + 1 + |gap|, w, limits);
      }
  }

  lemma {:induction false} ItemWitnessJustified(items: Items, inArray: bool, k: nat, depth: nat, at: nat,
                                                w: Violation, limits: Limits)
    requires k >= 1 && ItemWitness(items, inArray, k, depth, at, w, limits)
    ensures var ts := TreesOf(items);
            Justified(w, depth, DepthOfAll(ts),
                      AllArraysAtMost(ts, limits.maxArrayLength)
                      && (inArray ==> k + Length(ts) - 1 <= limits.maxArrayLength), limits)
    decreases items
  {
    var Cons(lead, v, after, tail) := items;
    var value, comma := at + |LeadText(lead)|, at + |ItemText(lead, v, after)|;
    if Witness(v, depth, value, w, limits) {
      WitnessJustified(v, depth, value, w, limits);
    } else if ItemWitness(tail, inArray, k + 1, depth, comma + 1, w, limits) {
      ItemWitnessJustified(tail, inArray, k + 1, depth, comma + 1, w, limits);
    }
  }

  // ---- the promises ----

  predicate Accepts(d: Document, limits: Limits) {
    Feed(DocumentText(d), START, limits).Going?
  }

  lemma FeedDocument(d: Document, limits: Limits)
    ensures Feed(DocumentText(d), START, limits) == After(First(d.value, 0, |d.before|, limits), [], |DocumentText(d)|)
  {
    var first := First(d.value, 0, |d.before|, limits);
    var close := |d.before| + |Text(d.value)|;
    FeedWhitespace(d.before, [], 0, limits);
    FeedValue(d.value, [], |d.before|, limits);
    FeedWhitespace(d.after, [], close, limits);
    Chain3(d.before, Text(d.value), d.after, START, None, [], |d.before|, first, [], close,
           [], close + |d.after|, limits);
  }

  /** For every JSON text and any limits, the scanner accepts exactly when the value
      nests no deeper than `maxDepth` (a scalar always passes) and no array is longer
      than `maxArrayLength` (an array of one always passes). */
  lemma ScannerAgreesWithTree(d: Document, limits: Limits)
    ensures Accepts(d, limits) <==>
            && (Depth(TreeOf(d.value)) == 0 || Depth(TreeOf(d.value)) <= limits.maxDepth)
            && ArraysAtMost(TreeOf(d.value), Effective(limits.maxArrayLength))
  {
    FeedDocument(d, limits);
    FirstDecidesFit(d.value, 0, |d.before|, limits);
  }

  /** The rule as the source states it: at most `maxDepth` deep, at most `maxArrayLength` long. */
  predicate WithinLimits(t: Tree, limits: Limits) {
    Depth(t) <= limits.maxDepth && ArraysAtMost(t, limits.maxArrayLength)
  }

  /** The stated rule is met on every JSON text exactly for these limits; the
      deployed ones are all positive. */
  lemma StatedRuleHoldsExactlyWhen(limits: Limits)
    ensures (forall d: Document :: Accepts(d, limits) <==> WithinLimits(TreeOf(d.value), limits))
       <==> limits.maxDepth == 0 || (limits.maxDepth > 0 && limits.maxArrayLength >= 1)
  {
    if limits.maxDepth < 0 {
      var scalar := Document([], Literal(Null), []);
      ScannerAgreesWithTree(scalar, limits);
      assert Accepts(scalar, limits) && !WithinLimits(TreeOf(scalar.value), limits);
    } else if limits.maxDepth > 0 && limits.maxArrayLength < 1 {
      OneElementArray(limits);
    } else {
      forall d: Document ensures Accepts(d, limits) <==> WithinLimits(TreeOf(d.value), limits) {
        ScannerAgreesWithTree(d, limits);
        if limits.maxDepth == 0 && Depth(TreeOf(d.value)) == 0 {
          assert TreeOf(d.value).Leaf?;
        }
      }
    }
  }

  const ONE_ELEMENT := Document([], Array([], Cons(Bare([]), Literal(Null), [], Nil)), [])

  /** The text `[null]` is accepted under any array limit, even a zero one it exceeds. */
  lemma OneElementArray(limits: Limits)
    requires limits.maxDepth > 0
    ensures Accepts(ONE_ELEMENT, limits)
    ensures limits.maxArrayLength < 1 ==> !WithinLimits(TreeOf(ONE_ELEMENT.value), limits)
  {
    var t := ArrayOf(Trees(Leaf, NoTrees));
    assert TreeOf(ONE_ELEMENT.value) == t;
    assert Length(t.children) == 1 && Depth(t) == 1;
    assert forall n :: AllArraysAtMost(NoTrees, n) && ArraysAtMost(Leaf, n);
    assert AllArraysAtMost(t.children, Effective(limits.maxArrayLength));
    ScannerAgreesWithTree(ONE_ELEMENT, limits);
  }

  /** When a JSON text is refused, the reason given is true of its value, and it is
      the violation whose byte comes first of all in the text. */
  lemma RefusalIsTheFirstViolation(d: Document, limits: Limits)
    requires !Accepts(d, limits)
    ensures var t, v := TreeOf(d.value), Feed(DocumentText(d), START, limits).violation;
            && DocumentWitness(d, v, limits)
            && (forall w :: DocumentWitness(d, w, limits) ==> w == v || v.at < w.at)
            && v.at < |DocumentText(d)| && Marks(DocumentText(d)[v.at], v.reason)
            && (v.reason == TooDeep ==> Depth(t) > limits.maxDepth)
            && (v.reason == ArrayTooLong ==> !ArraysAtMost(t, limits.maxArrayLength))
  {
    FeedDocument(d, limits);
    var v := Feed(DocumentText(d), START, limits).violation;
    FailurePointsAtItsByte(DocumentText(d), START, limits);
    FirstIsWitness(d.value, 0, |d.before|, limits);
    WitnessJustified(d.value, 0, |d.before|, v, limits);
    forall w | DocumentWitness(d, w, limits) ensures w == v || v.at < w.at {
      FirstLeads(d.value, 0, |d.before|, w, limits);
    }
  }

  lemma ScanIsRight(bytes: seq<byte>, thrown: Option<Reason>, limits: Limits)
    requires var s := Feed(bytes, START, limits); thrown == if s.Failed? then Some(s.violation.reason) else None
    ensures forall d :: DocumentText(d) == bytes ==> IsRightFor(thrown, d, limits)
  {
    forall d | DocumentText(d) == bytes ensures IsRightFor(thrown, d, limits) {
      DocumentIsRight(d, thrown, limits);
    }
  }

  lemma DocumentIsRight(d: Document, thrown: Option<Reason>, limits: Limits)
    requires var s := Feed(DocumentText(d), START, limits);
             thrown == if s.Failed? then Some(s.violation.reason) else None
    ensures IsRightFor(thrown, d, limits)
  {
    ScannerAgreesWithTree(d, limits);
    if thrown.Some? {
      RefusalIsTheFirstViolation(d, limits);
      assert LeadsAll(d, Feed(DocumentText(d), START, limits).violation, limits);
    }
  }

  // ---- one text, byte by byte ----

  /** The document `{"a":[1, 2]}` after each kind of white space. */
  const TWO_ELEMENTS := Document(
    [0x09, 0x0a, 0x0d, 0x20],
    Object([], Cons(
      Keyed([], [Plain(0x61)], [], []),
      Array([], Cons(Bare([]), Number(false, [0x31], None, None), [],
                     Cons(Bare([0x20]), Number(false, [0x32], None, None), [], Nil))),
      [], Nil)),
    [])

  lemma NumbersText()
    ensures Text(Number(false, [0x31], None, None)) == [0x31] && Text(Number(false, [0x32], None, None)) == [0x32]
  {
  }

  /** Its bytes. */
  lemma TwoElementsText()
    ensures DocumentText(TWO_ELEMENTS)
         == [0x09, 0x0a, 0x0d, 0x20, 0x7b, 0x22, 0x61, 0x22, 0x3a, 0x5b, 0x31, 0x2c, 0x20, 0x32, 0x5d, 0x7d]
  {
    var one, two := Number(false, [0x31], None, None), Number(false, [0x32], None, None);
    var second := Cons(Bare([0x20]), two, [], Nil);
    var items := Cons(Bare([]), one, [], second);
    NumbersText();
    assert ItemsText(second) == [0x20, 0x32];
    assert ItemsText(items) == [0x31, 0x2c, 0x20, 0x32];
    assert Text(Array([], items)) == [0x5b, 0x31, 0x2c, 0x20, 0x32, 0x5d];
    var key := [Plain(0x61)];
    assert UnitsText(key) == [0x61];
    var members := Cons(Keyed([], key, [], []), Array([], items), [], Nil);
    assert LeadText(members.lead) == [0x22, 0x61, 0x22, 0x3a];
    assert ItemsText(members) == [0x22, 0x61, 0x22, 0x3a, 0x5b, 0x31, 0x2c, 0x20, 0x32, 0x5d];
  }
}
