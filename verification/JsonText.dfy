/** JSON texts as RFC 8259 defines them (sections 2 to 7), with every choice a
    serialiser has: the whitespace around each structural character and the
    escapes inside each string.  A `Json` is one such choice; `Text` gives its
    bytes and `TreeOf` forgets everything but the nesting of arrays and objects. */
module JsonText {
  import opened Wrappers

  newtype byte = x: int | 0 <= x < 256

  const QUOTE: byte := 0x22
  const BACKSLASH: byte := 0x5c
  const COMMA: byte := 0x2c
  const COLON: byte := 0x3a
  const OPEN_BRACE: byte := 0x7b
  const CLOSE_BRACE: byte := 0x7d
  const OPEN_BRACKET: byte := 0x5b
  const CLOSE_BRACKET: byte := 0x5d

  predicate IsWhitespace(b: byte) {
    b == 0x20 || b == 0x0a || b == 0x0d || b == 0x09
  }

  type Ws = s: seq<byte> | forall i :: 0 <= i < |s| ==> IsWhitespace(s[i])

  // ---- strings (section 7) ----

  type PlainChar = b: byte | 0x20 <= b && b != QUOTE && b != BACKSLASH witness 0x61
  type EscapeChar = b: byte | b in {0x22, 0x5c, 0x2f, 0x62, 0x66, 0x6e, 0x72, 0x74} witness 0x6e
  type HexDigit = b: byte | 0x30 <= b <= 0x39 || 0x41 <= b <= 0x46 || 0x61 <= b <= 0x66 witness 0x30

  datatype Unit =
    | Plain(c: PlainChar)
    | Escaped(e: EscapeChar)
    | CodePoint(h0: HexDigit, h1: HexDigit, h2: HexDigit, h3: HexDigit)

  function UnitText(u: Unit): seq<byte> {
    match u
    case Plain(c) => [c]
    case Escaped(e) => [BACKSLASH, e]
    case CodePoint(h0, h1, h2, h3) => [BACKSLASH, 0x75, h0, h1, h2, h3]
  }

  function UnitsText(us: seq<Unit>): seq<byte> {
    if us == [] then [] else UnitText(us[0]) + UnitsText(us[1..])
  }

  function StringText(us: seq<Unit>): seq<byte> {
    [QUOTE] + UnitsText(us) + [QUOTE]
  }

  // ---- numbers and literal names (sections 3 and 6) ----

  type Digits = s: seq<byte> | |s| >= 1 && forall i :: 0 <= i < |s| ==> 0x30 <= s[i] <= 0x39 witness [0x30]
  type IntPart = s: Digits | |s| == 1 || s[0] != 0x30 witness [0x30]

  datatype Word = True | False | Null
  datatype Sign = NoSign | Plus | Minus
  datatype Exponent = Exponent(upper: bool, sign: Sign, digits: Digits)

  function WordText(w: Word): seq<byte> {
    match w
    case True => [0x74, 0x72, 0x75, 0x65]
    case False => [0x66, 0x61, 0x6c, 0x73, 0x65]
    case Null => [0x6e, 0x75, 0x6c, 0x6c]
  }

  function SignText(s: Sign): seq<byte> {
    match s
    case NoSign => []
    case Plus => [0x2b]
    case Minus => [0x2d]
  }

  function NumberText(minus: bool, whole: IntPart, frac: Option<Digits>, exp: Option<Exponent>): seq<byte> {
    (if minus then [0x2d] else []) + whole +
    (if frac.Some? then [0x2e] + frac.value else []) +
    (if exp.Some? then [if exp.value.upper then 0x45 else 0x65] + SignText(exp.value.sign) + exp.value.digits else [])
  }

  // ---- values (sections 2 to 5) ----

  datatype Json =
    | Literal(word: Word)
    | Number(minus: bool, whole: IntPart, frac: Option<Digits>, exp: Option<Exponent>)
    | String(units: seq<Unit>)
    | Array(gap: Ws, elements: Items)
    | Object(gap: Ws, members: Items)

  /** What precedes a value in a container: only whitespace in an array, a
      member name and its colon in an object.  Nothing below depends on the two
      being used in the right place, so the theorems cover all JSON and a little more. */
  datatype Lead =
    | Bare(before: Ws)
    | Keyed(before: Ws, key: seq<Unit>, afterKey: Ws, beforeValue: Ws)

  datatype Items = Nil | Cons(lead: Lead, value: Json, after: Ws, tail: Items)

  /** JSON-text = ws value ws */
  datatype Document = Document(before: Ws, value: Json, after: Ws)

  function LeadText(l: Lead): seq<byte> {
    match l
    case Bare(ws) => ws
    case Keyed(ws, key, ws1, ws2) => ws + StringText(key) + ws1 + [COLON] + ws2
  }

  function Text(j: Json): seq<byte>
    decreases j, 0
  {
    match j
    case Literal(w) => WordText(w)
    case Number(m, i, f, e) => NumberText(m, i, f, e)
    case String(us) => StringText(us)
    case Array(gap, es) => ContainerText(true, gap, es)
    case Object(gap, ms) => ContainerText(false, gap, ms)
  }

  function OpeningText(inArray: bool, gap: Ws): seq<byte> {
    [if inArray then OPEN_BRACKET else OPEN_BRACE] + gap
  }

  function Closing(inArray: bool): seq<byte> {
    [if inArray then CLOSE_BRACKET else CLOSE_BRACE]
  }

  function ContainerText(inArray: bool, gap: Ws, items: Items): seq<byte>
    decreases items, 1
  {
    OpeningText(inArray, gap) + (ItemsText(items) + Closing(inArray))
  }

  function ItemsText(items: Items): seq<byte>
    decreases items, 0
  {
    match items
    case Nil => []
    case Cons(lead, v, after, tail) =>
      ItemText(lead, v, after) + if tail.Nil? then [] else [COMMA] + ItemsText(tail)
  }

  function ItemText(lead: Lead, v: Json, after: Ws): seq<byte>
    decreases v, 1
  {
    LeadText(lead) + (Text(v) + after)
  }

  function DocumentText(d: Document): seq<byte> {
    d.before + (Text(d.value) + d.after)
  }

  // ---- the value tree behind a text ----

  datatype Tree = Leaf | ArrayOf(children: Trees) | ObjectOf(children: Trees)
  datatype Trees = NoTrees | Trees(first: Tree, rest: Trees)

  function TreeOf(j: Json): Tree {
    match j
    case Array(_, es) => ArrayOf(TreesOf(es))
    case Object(_, ms) => ObjectOf(TreesOf(ms))
    case _ => Leaf
  }

  function TreesOf(items: Items): Trees {
    match items
    case Nil => NoTrees
    case Cons(_, v, _, tail) => Trees(TreeOf(v), TreesOf(tail))
  }

  function Length(ts: Trees): nat {
    match ts
    case NoTrees => 0
    case Trees(_, rest) => 1 + Length(rest)
  }

  /** Nesting depth: `{"a":1}` has depth 1 and a scalar depth 0. */
  function Depth(t: Tree): nat {
    if t.Leaf? then 0 else 1 + DepthOfAll(t.children)
  }

  function DepthOfAll(ts: Trees): nat {
    match ts
    case NoTrees => 0
    case Trees(t, rest) => if Depth(t) > DepthOfAll(rest) then Depth(t) else DepthOfAll(rest)
  }

  /** No array in the tree has more than `n` elements. */
  predicate ArraysAtMost(t: Tree, n: int) {
    match t
    case Leaf => true
    case ArrayOf(cs) => Length(cs) <= n && AllArraysAtMost(cs, n)
    case ObjectOf(cs) => AllArraysAtMost(cs, n)
  }

  predicate AllArraysAtMost(ts: Trees, n: int) {
    match ts
    case NoTrees => true
    case Trees(t, rest) => ArraysAtMost(t, n) && AllArraysAtMost(rest, n)
  }
}
