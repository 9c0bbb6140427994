/** The textual forms of IPv4 and IPv6 addresses (RFC 4291 section 2.2) and the
    numbers they stand for. */
module IpAddress {
  import opened Wrappers
  import opened Text

  const TWO_32 := 0x1_0000_0000
  const TWO_128 := 0x1_0000_0000_0000_0000_0000_0000_0000_0000

  // ---- IPv4 ----

  /** One to three decimal digits. */
  predicate OctetText(part: string) {
    1 <= |part| <= 3 && AllDigits(part)
  }

  /** Four such parts around three dots; the value of each part is not looked at. */
  predicate DottedShape(s: string) {
    var parts := Split(s, ".");
    |parts| == 4 && forall i :: 0 <= i < 4 ==> OctetText(parts[i])
  }

  predicate ValidOctet(part: string) {
    OctetText(part) && Decimal(part) <= 255
  }

  function FoldOctets(parts: seq<string>, value: nat): Option<nat> {
    if parts == [] then Some(value)
    else if !ValidOctet(parts[0]) then None
    else FoldOctets(parts[1..], (value * 256 + Decimal(parts[0])) % 0x1_0000_0000)
  }

  function IPv4(address: string): Option<nat> {
    var parts := Split(address, ".");
    if |parts| != 4 then None else FoldOctets(parts, 0)
  }

  method ParseIPv4(address: string) returns (r: Option<nat>)
    ensures r == IPv4(address)
  {
    var parts := Split(address, ".");
    if |parts| != 4 {
      return None;
    }
    var value: nat := 0;
    for i := 0 to |parts|
      invariant FoldOctets(parts, 0) == FoldOctets(parts[i..], value)
    {
      var part := parts[i];
      assert parts[i..][0] == part && parts[i..][1..] == parts[i + 1..];
      if !OctetText(part) {
        return None;
      }
      var octet := Decimal(part);
      if octet > 255 {
        return None;
      }
      value := (value * 256 + octet) % 0x1_0000_0000; // `>>> 0`
    }
    return Some(value);
  }

  predicate ValidOctets(parts: seq<string>) {
    forall i :: 0 <= i < |parts| ==> ValidOctet(parts[i])
  }

  /** The octets read as one number, without any wrap. */
  function BigEndian(parts: seq<string>, value: nat): nat
    requires ValidOctets(parts)
  {
    if parts == [] then value else BigEndian(parts[1..], value * 256 + Decimal(parts[0]))
  }

  function Room(octets: nat): nat {
    if octets == 0 then TWO_32
    else if octets == 1 then 0x1000000
    else if octets == 2 then 0x10000
    else if octets == 3 then 0x100
    else 1
  }

  lemma FirstOctet(parts: seq<string>)
    requires parts != []
    ensures ValidOctets(parts) <==> ValidOctet(parts[0]) && ValidOctets(parts[1..])
  {
    assert forall i :: 1 <= i < |parts| ==> parts[i] == parts[1..][i - 1];
  }

  /** The 32-bit wrap of the accumulator never bites. */
  lemma {:induction false} FoldIsBigEndian(parts: seq<string>, value: nat)
    requires |parts| <= 4 && value < Room(|parts|)
    ensures FoldOctets(parts, value).Some? <==> ValidOctets(parts)
    ensures ValidOctets(parts)
            ==> FoldOctets(parts, value) == Some(BigEndian(parts, value)) && BigEndian(parts, value) < TWO_32
  {
    if parts != [] {
      FirstOctet(parts);
      if ValidOctet(parts[0]) {
        FoldIsBigEndian(parts[1..], value * 256 + Decimal(parts[0]));
      }
    }
  }

  lemma BigEndianStep(p: seq<string>, n: nat, value: nat)
    requires ValidOctets(p) && n < |p|
    ensures BigEndian(p[n..], value) == BigEndian(p[n + 1..], value * 256 + Decimal(p[n]))
  {
    assert p[n..][0] == p[n] && p[n..][1..] == p[n + 1..];
  }

  lemma BigEndianOfFour(p: seq<string>)
    requires |p| == 4 && ValidOctets(p)
    ensures BigEndian(p, 0)
            == Decimal(p[0]) * 0x1000000 + Decimal(p[1]) * 0x10000 + Decimal(p[2]) * 0x100 + Decimal(p[3])
  {
    var v1 := 0 * 256 + Decimal(p[0]);
    var v2 := v1 * 256 + Decimal(p[1]);
    var v3 := v2 * 256 + Decimal(p[2]);
    BigEndianStep(p, 0, 0);
    BigEndianStep(p, 1, v1);
    BigEndianStep(p, 2, v2);
    BigEndianStep(p, 3, v3);
    assert p[0..] == p && p[4..] == [];
  }

  /** The value is the four octets in network order, and nothing else is accepted. */
  lemma IPv4Value(address: string)
    ensures var p := Split(address, ".");
            && (IPv4(address).Some? <==> |p| == 4 && ValidOctets(p))
            && (IPv4(address).Some? ==>
                 && DottedShape(address)
                 && IPv4(address).value < TWO_32
                 && IPv4(address).value
                    == Decimal(p[0]) * 0x1000000 + Decimal(p[1]) * 0x10000 + Decimal(p[2]) * 0x100 + Decimal(p[3]))
  {
    var p := Split(address, ".");
    if |p| == 4 {
      FoldIsBigEndian(p, 0);
      if ValidOctets(p) {
        BigEndianOfFour(p);
      }
    }
  }

  function Dotted(a: string, b: string, c: string, d: string): string {
    a + "." + (b + "." + (c + "." + d))
  }

  lemma SplitDotted(a: string, b: string, c: string, d: string)
    requires AllDigits(a) && AllDigits(b) && AllDigits(c) && AllDigits(d)
    ensures Split(Dotted(a, b, c, d), ".") == [a, b, c, d]
  {
    SplitWhole(a, ".");
    SplitWhole(b, ".");
    SplitWhole(c, ".");
    SplitWhole(d, ".");
    SplitAt(c, ".", d);
    SplitAt(b, ".", c + "." + d);
    SplitAt(a, ".", b + "." + (c + "." + d));
    assert [a] + ([b] + ([c] + [d])) == [a, b, c, d];
  }

  lemma IPv4OfParts(address: string, p: seq<string>)
    requires Split(address, ".") == p && |p| == 4
    requires ValidOctet(p[0]) && ValidOctet(p[1]) && ValidOctet(p[2]) && ValidOctet(p[3])
    ensures IPv4(address)
         == Some(Decimal(p[0]) * 0x1000000 + Decimal(p[1]) * 0x10000 + Decimal(p[2]) * 0x100 + Decimal(p[3]))
  {
    assert ValidOctets(p);
    IPv4Value(address);
  }

  lemma DottedValue(a: string, b: string, c: string, d: string)
    requires ValidOctet(a) && ValidOctet(b) && ValidOctet(c) && ValidOctet(d)
    ensures IPv4(Dotted(a, b, c, d))
         == Some(Decimal(a) * 0x1000000 + Decimal(b) * 0x10000 + Decimal(c) * 0x100 + Decimal(d))
  {
    SplitDotted(a, b, c, d);
    IPv4OfParts(Dotted(a, b, c, d), [a, b, c, d]);
  }

  lemma JoinDotted(a: string, b: string, c: string, d: string)
    ensures Join([a, b, c, d], ".") == Dotted(a, b, c, d)
  {
    assert [a, b, c, d][1..] == [b, c, d] && [b, c, d][1..] == [c, d] && [c, d][1..] == [d];
    assert Join([c, d], ".") == c + "." + d;
    assert Join([b, c, d], ".") == b + "." + (c + "." + d);
  }

  /** The text of four octets, most significant first. */
  function PrintOctets(a: nat, b: nat, c: nat, d: nat): string {
    Dotted(ToDecimal(a), ToDecimal(b), ToDecimal(c), ToDecimal(d))
  }

  function PrintIPv4(v: nat): string {
    var v1 := v / 256;
    var v2 := v1 / 256;
    var v3 := v2 / 256;
    PrintOctets(v3, v2 % 256, v1 % 256, v % 256)
  }

  lemma OctetsRoundTrip(a: nat, b: nat, c: nat, d: nat)
    requires a < 256 && b < 256 && c < 256 && d < 256
    ensures IPv4(PrintOctets(a, b, c, d)) == Some(a * 0x1000000 + b * 0x10000 + c * 0x100 + d)
  {
    DecimalRoundTrip(a);
    DecimalRoundTrip(b);
    DecimalRoundTrip(c);
    DecimalRoundTrip(d);
    DottedValue(ToDecimal(a), ToDecimal(b), ToDecimal(c), ToDecimal(d));
  }

  /** Parsing undoes printing on every 32-bit address. */
  lemma IPv4RoundTrip(v: nat)
    requires v < TWO_32
    ensures IPv4(PrintIPv4(v)) == Some(v)
  {
    OctetsRoundTrip(v / 256 / 256 / 256, v / 256 / 256 % 256, v / 256 % 256, v % 256);
  }

  lemma OctetsOf(a: nat, b: nat, c: nat, d: nat)
    requires a < 256 && b < 256 && c < 256 && d < 256
    ensures PrintIPv4(a * 0x1000000 + b * 0x10000 + c * 0x100 + d) == PrintOctets(a, b, c, d)
  {
    var v2 := a * 256 + b;
    var v1 := v2 * 256 + c;
    var v := v1 * 256 + d;
    assert v / 256 == v1 && v % 256 == d;
    assert v1 / 256 == v2 && v1 % 256 == c;
    assert v2 / 256 == a && v2 % 256 == b;
  }

  predicate NoLeadingZeros(parts: seq<string>) {
    forall i :: 0 <= i < |parts| ==> !HasLeadingZero(parts[i])
  }

  lemma DottedParts(s: string, p: seq<string>)
    requires p == Split(s, ".") && |p| == 4
    ensures s == Dotted(p[0], p[1], p[2], p[3])
  {
    JoinSplit(s, ".");
    assert p == [p[0], p[1], p[2], p[3]];
    JoinDotted(p[0], p[1], p[2], p[3]);
  }

  lemma PrintedParts(s: string, p: seq<string>)
    requires p == Split(s, ".") && |p| == 4 && ValidOctets(p)
    ensures IPv4(s).Some?
    ensures PrintIPv4(IPv4(s).value) == PrintOctets(Decimal(p[0]), Decimal(p[1]), Decimal(p[2]), Decimal(p[3]))
  {
    IPv4OfParts(s, p);
    OctetsOf(Decimal(p[0]), Decimal(p[1]), Decimal(p[2]), Decimal(p[3]));
  }

  /** Printing undoes parsing exactly when no octet has a leading zero. */
  lemma IPv4PrintsBackExactlyWhen(s: string)
    requires IPv4(s).Some?
    ensures PrintIPv4(IPv4(s).value) == s <==> NoLeadingZeros(Split(s, "."))
  {
    var p := Split(s, ".");
    IPv4Value(s);
    DottedParts(s, p);
    PrintedParts(s, p);
    PartsPrintBack(p);
  }

  lemma PartsPrintBack(p: seq<string>)
    requires |p| == 4 && ValidOctets(p)
    ensures PrintOctets(Decimal(p[0]), Decimal(p[1]), Decimal(p[2]), Decimal(p[3])) == Dotted(p[0], p[1], p[2], p[3])
       <==> NoLeadingZeros(p)
  {
    DottedPrintsBack(p[0], p[1], p[2], p[3]);
    assert NoLeadingZeros(p)
      <==> !HasLeadingZero(p[0]) && !HasLeadingZero(p[1]) && !HasLeadingZero(p[2]) && !HasLeadingZero(p[3]);
  }

  lemma DottedPrintsBack(a: string, b: string, c: string, d: string)
    requires ValidOctet(a) && ValidOctet(b) && ValidOctet(c) && ValidOctet(d)
    ensures PrintOctets(Decimal(a), Decimal(b), Decimal(c), Decimal(d)) == Dotted(a, b, c, d)
       <==> !HasLeadingZero(a) && !HasLeadingZero(b) && !HasLeadingZero(c) && !HasLeadingZero(d)
  {
    var a', b', c', d' := ToDecimal(Decimal(a)), ToDecimal(Decimal(b)), ToDecimal(Decimal(c)), ToDecimal(Decimal(d));
    DecimalPrintsBack(a);
    DecimalPrintsBack(b);
    DecimalPrintsBack(c);
    DecimalPrintsBack(d);
    DecimalRoundTrip(Decimal(a));
    DecimalRoundTrip(Decimal(b));
    DecimalRoundTrip(Decimal(c));
    DecimalRoundTrip(Decimal(d));
    if Dotted(a', b', c', d') == Dotted(a, b, c, d) {
      SplitDotted(a, b, c, d);
      SplitDotted(a', b', c', d');
      assert [a, b, c, d] == [a', b', c', d'];
      assert [a, b, c, d][0] == a' && [a, b, c, d][1] == b' && [a, b, c, d][2] == c' && [a, b, c, d][3] == d';
    }
  }

  /** A leading zero does not change how an octet is read. */
  lemma {:induction false} LeadingZeroIgnored(s: string)
    requires AllDigits(s)
    ensures AllDigits("0" + s) && Decimal("0" + s) == Decimal(s)
  {
    var t := "0" + s;
    if s == "" {
      assert t[..|t| - 1] == "";
    } else {
      LeadingZeroIgnored(s[..|s| - 1]);
      assert t[..|t| - 1] == "0" + s[..|s| - 1];
    }
  }

  /** The parser takes an octet with a leading zero and reads it as decimal, here `0a.0.0.d`
      for any digits `a` and `d`, although its own comment says such an octet is refused. */
  lemma LeadingZeroAccepted(a: nat, d: nat)
    requires a < 10 && d < 10
    ensures IPv4(Dotted("0" + ToDecimal(a), "0", "0", ToDecimal(d))) == Some(a * 0x1000000 + d)
  {
    DecimalRoundTrip(a);
    DecimalRoundTrip(d);
    DecimalRoundTrip(0);
    LeadingZeroIgnored(ToDecimal(a));
    DottedValue("0" + ToDecimal(a), ToDecimal(0), ToDecimal(0), ToDecimal(d));
    assert ToDecimal(0) == "0";
  }

  // ---- IPv6 ----

  predicate HexGroup(group: string) {
    1 <= |group| <= 4 && AllHex(group)
  }

  function FoldGroups(groups: seq<string>, value: nat): Option<nat> {
    if groups == [] then Some(value)
    else if !HexGroup(groups[0]) then None
    else FoldGroups(groups[1..], value * 0x10000 + Hexadecimal(groups[0]))
  }

  method ToBigInt(groups: seq<string>) returns (r: Option<nat>)
    ensures r == FoldGroups(groups, 0)
  {
    var value: nat := 0;
    for i := 0 to |groups|
      invariant FoldGroups(groups, 0) == FoldGroups(groups[i..], value)
    {
      var group := groups[i];
      assert groups[i..][0] == group && groups[i..][1..] == groups[i + 1..];
      if !HexGroup(group) {
        return None;
      }
      value := value * 0x10000 + Hexadecimal(group);
    }
    return Some(value);
  }

  /** Everything before the first `%`. */
  function WithoutZone(s: string): string {
    if s == "" || s[0] == '%' then "" else [s[0]] + WithoutZone(s[1..])
  }

  predicate QuadAt(s: string, i: nat)
    requires i <= |s|
  {
    DottedShape(s[i..])
  }

  /** Where a dotted quad that ends the text begins, leftmost first. */
  function QuadStart(s: string, i: nat): (r: Option<nat>)
    requires i <= |s|
    ensures r.Some? ==> i <= r.value <= |s|
    decreases |s| - i
  {
    if QuadAt(s, i) then Some(i)
    else if i == |s| then None
    else QuadStart(s, i + 1)
  }

  /** The two sixteen-bit halves of a 32-bit number. */
  function QuadText(v4: nat): string {
    ToHex(v4 / 0x10000 % 0x10000) + ":" + ToHex(v4 % 0x10000)
  }

  /** The text with a trailing dotted quad rewritten as two groups. */
  function WithoutQuad(s: string): Option<string>
  {
    match QuadStart(s, 0)
    case None => Some(s)
    case Some(i) =>
      match IPv4(s[i..])
      case None => None
      case Some(v4) => Some(s[..i] + QuadText(v4))
  }

  function Groups(half: string): seq<string> {
    if half == "" then [] else Split(half, ":")
  }

  function Zeros(n: nat): seq<string> {
    seq(n, _ => "0")
  }

  /** Eight groups: as many zeros in the middle as are missing. */
  function Filled(head: seq<string>, tail: seq<string>): seq<string>
    requires |head| + |tail| <= 8
  {
    head + Zeros(8 - |head| - |tail|) + tail
  }

  function HexText(s: string): Option<nat> {
    if !Includes(s, "::") then
      var groups := Split(s, ":");
      if |groups| != 8 then None else FoldGroups(groups, 0)
    else
      var halves := Split(s, "::");
      if |halves| != 2 then None
      else
        var head, tail := Groups(halves[0]), Groups(halves[1]);
        if |head| + |tail| > 7 then None
        else FoldGroups(Filled(head, tail), 0)
  }

  function IPv6(address: string): Option<nat> {
    match WithoutQuad(WithoutZone(address))
    case None => None
    case Some(text) => HexText(text)
  }

  method ParseIPv6(address: string) returns (r: Option<nat>)
    ensures r == IPv6(address)
  {
    var text := WithoutZone(address);
    var embedded := QuadStart(text, 0);
    if embedded.Some? {
      var v4 := ParseIPv4(text[embedded.value..]);
      if v4.None? {
        return None;
      }
      var high := ToHex(v4.value / 0x10000 % 0x10000);
      var low := ToHex(v4.value % 0x10000);
      text := text[..embedded.value] + (high + ":" + low);
    }
    if !Includes(text, "::") {
      var groups := Split(text, ":");
      if |groups| != 8 {
        return None;
      }
      r := ToBigInt(groups);
      return;
    }
    var halves := Split(text, "::");
    if |halves| != 2 {
      return None;
    }
    var head, tail := Groups(halves[0]), Groups(halves[1]);
    if |head| + |tail| > 7 {
      return None;
    }
    r := ToBigInt(Filled(head, tail));
  }

  // ---- the number eight groups stand for ----

  /** Groups in network order, sixteen bits each. */
  function Value(g: seq<nat>): nat {
    if g == [] then 0 else Value(g[..|g| - 1]) * 0x10000 + g[|g| - 1]
  }

  predicate AllHexGroups(h: seq<string>) {
    forall i :: 0 <= i < |h| ==> HexGroup(h[i])
  }

  /** `h` writes the numbers `g`, in either case and with or without leading zeros. */
  predicate Spells(h: seq<string>, g: seq<nat>) {
    |h| == |g| && forall i :: 0 <= i < |h| ==> HexGroup(h[i]) && Hexadecimal(h[i]) == g[i]
  }

  function Numbers(h: seq<string>): (g: seq<nat>)
    requires AllHexGroups(h)
    ensures Spells(h, g)
  {
    seq(|h|, i requires 0 <= i < |h| => Hexadecimal(h[i]))
  }

  /** The sum of g_i * 65536^(7-i), written out. */
  lemma ValueOfEight(g: seq<nat>)
    requires |g| == 8
    ensures Value(g) == g[0] * 0x10000_0000_0000_0000_0000_0000_0000 + g[1] * 0x1_0000_0000_0000_0000_0000_0000
                      + g[2] * 0x10000_0000_0000_0000_0000 + g[3] * 0x1_0000_0000_0000_0000
                      + g[4] * 0x10000_0000_0000 + g[5] * 0x1_0000_0000 + g[6] * 0x10000 + g[7]
  {
    assert g[..8] == g;
    ValueStep(g, 7); ValueStep(g, 6); ValueStep(g, 5); ValueStep(g, 4);
    ValueStep(g, 3); ValueStep(g, 2); ValueStep(g, 1); ValueStep(g, 0);
    assert g[..0] == [];
  }

  lemma ValueStep(g: seq<nat>, n: nat)
    requires n < |g|
    ensures Value(g[..n + 1]) == Value(g[..n]) * 0x10000 + g[n]
  {
    assert g[..n + 1][..n] == g[..n];
  }

  lemma {:induction false} FoldSpelled(h: seq<string>, g: seq<nat>, n: nat, value: nat)
    requires Spells(h, g) && n <= |h| && value == Value(g[..n])
    ensures FoldGroups(h[n..], value) == Some(Value(g))
    decreases |h| - n
  {
    if n < |h| {
      assert h[n..][0] == h[n] && h[n..][1..] == h[n + 1..];
      ValueStep(g, n);
      FoldSpelled(h, g, n + 1, value * 0x10000 + g[n]);
    } else {
      assert g[..n] == g;
    }
  }

  lemma FoldIsValue(h: seq<string>, g: seq<nat>)
    requires Spells(h, g)
    ensures FoldGroups(h, 0) == Some(Value(g))
  {
    assert h[0..] == h && g[..0] == [];
    FoldSpelled(h, g, 0, 0);
  }

  lemma {:induction false} FoldNeedsGroups(h: seq<string>, value: nat)
    ensures FoldGroups(h, value).Some? <==> AllHexGroups(h)
  {
    if h != [] {
      FoldNeedsGroups(h[1..], value * 0x10000 + if HexGroup(h[0]) then Hexadecimal(h[0]) else 0);
      assert AllHexGroups(h) <==> HexGroup(h[0]) && AllHexGroups(h[1..]) by {
        assert forall i :: 1 <= i < |h| ==> h[i] == h[1..][i - 1];
      }
    }
  }

  // ---- hexadecimal texts ----

  lemma HexHoldsNo(s: string, c: char)
    requires AllHex(s) && HexDigit(c).None?
    ensures c !in s
  {
  }

  lemma GroupsHoldNo(h: seq<string>, c: char)
    requires AllHexGroups(h) && HexDigit(c).None?
    ensures forall i :: 0 <= i < |h| ==> h[i] != "" && c !in h[i]
  {
    forall i | 0 <= i < |h| ensures c !in h[i] {
      HexHoldsNo(h[i], c);
    }
  }

  lemma JoinedGroups(h: seq<string>)
    requires AllHexGroups(h)
    ensures var s := Join(h, ":");
            && Groups(s) == h && !Includes(s, "::")
            && (s != "" ==> s[0] != ':' && s[|s| - 1] != ':' && Split(s, ":") == h)
            && '%' !in s && '.' !in s
  {
    GroupsHoldNo(h, ':');
    GroupsHoldNo(h, '%');
    GroupsHoldNo(h, '.');
    JoinHasNoDouble(h, ':');
    JoinFree(h, ":", '%');
    JoinFree(h, ":", '.');
    if h != [] {
      SplitJoin(h, ":");
    }
    assert ":" == [':'] && "::" == [':', ':'];
  }

  lemma HexTextFull(h: seq<string>, g: seq<nat>)
    requires |h| == 8 && Spells(h, g)
    ensures HexText(Join(h, ":")) == Some(Value(g))
  {
    JoinedGroups(h);
    FoldIsValue(h, g);
  }

  lemma HexTextCompressed(head: seq<string>, tail: seq<string>, g: seq<nat>)
    requires |head| + |tail| <= 7 && AllHexGroups(head) && AllHexGroups(tail)
    requires Spells(Filled(head, tail), g)
    ensures HexText(Join(head, ":") + "::" + Join(tail, ":")) == Some(Value(g))
  {
    FoldIsValue(Filled(head, tail), g);
    JoinedGroups(head);
    JoinedGroups(tail);
    HexTextOfHalves(Join(head, ":"), Join(tail, ":"), head, tail);
  }

  lemma HexTextOfHalves(a: string, b: string, head: seq<string>, tail: seq<string>)
    requires !Includes(a, "::") && (a != "" ==> a[|a| - 1] != ':')
    requires !Includes(b, "::") && (b != "" ==> b[0] != ':')
    requires Groups(a) == head && Groups(b) == tail && |head| + |tail| <= 7
    ensures HexText(a + "::" + b) == FoldGroups(Filled(head, tail), 0)
  {
    SplitDouble(a, b);
  }

  lemma SplitDouble(a: string, b: string)
    requires !Includes(a, "::") && (a != "" ==> a[|a| - 1] != ':')
    requires !Includes(b, "::") && (b != "" ==> b[0] != ':')
    ensures Split(a + "::" + b, "::") == [a, b] && Includes(a + "::" + b, "::")
  {
    assert "::" == [':', ':'];
    SplitTwo(a, ':', "::", b);
  }

  ghost predicate IsFullText(s: string) {
    exists h :: |h| == 8 && AllHexGroups(h) && s == Join(h, ":")
  }

  ghost predicate IsCompressedText(s: string) {
    exists head, tail :: |head| + |tail| <= 7 && AllHexGroups(head) && AllHexGroups(tail)
                      && s == Join(head, ":") + "::" + Join(tail, ":")
  }

  /** Eight groups, or at most seven around one `::`. */
  ghost predicate IsHexForm(s: string) {
    IsFullText(s) || IsCompressedText(s)
  }

  lemma HexTextAcceptsOnly(s: string)
    requires HexText(s).Some?
    ensures IsHexForm(s)
  {
    if !Includes(s, "::") {
      var h := Split(s, ":");
      JoinSplit(s, ":");
      FoldNeedsGroups(h, 0);
      FoldIsValue(h, Numbers(h));
    } else {
      var halves := Split(s, "::");
      JoinSplit(s, "::");
      assert halves[1..] == [halves[1]];
      var head, tail := Groups(halves[0]), Groups(halves[1]);
      GroupsJoin(halves[0]);
      GroupsJoin(halves[1]);
      FoldNeedsGroups(Filled(head, tail), 0);
      AllHexGroupsParts(head, Zeros(8 - |head| - |tail|), tail);
    }
  }

  lemma FilledIsHex(head: seq<string>, tail: seq<string>)
    requires |head| + |tail| <= 7 && AllHexGroups(head) && AllHexGroups(tail)
    ensures AllHexGroups(Filled(head, tail))
  {
    var all, n := Filled(head, tail), 8 - |tail|;
    forall i | 0 <= i < 8 ensures HexGroup(all[i]) {
      assert all[i] == if i < |head| then head[i] else if i < n then "0" else tail[i - n];
    }
  }

  /** Without a zone and a dotted quad, these two forms are what the parser accepts. */
  lemma HexTextAcceptsExactly(s: string)
    ensures HexText(s).Some? <==> IsHexForm(s)
  {
    if HexText(s).Some? {
      HexTextAcceptsOnly(s);
    }
    if IsFullText(s) {
      var h :| |h| == 8 && AllHexGroups(h) && s == Join(h, ":");
      HexTextFull(h, Numbers(h));
    }
    if IsCompressedText(s) {
      var head, tail :| |head| + |tail| <= 7 && AllHexGroups(head) && AllHexGroups(tail)
                     && s == Join(head, ":") + "::" + Join(tail, ":");
      FilledIsHex(head, tail);
      HexTextCompressed(head, tail, Numbers(Filled(head, tail)));
    }
  }

  lemma GroupsJoin(half: string)
    ensures Join(Groups(half), ":") == half
  {
    JoinSplit(half, ":");
  }

  lemma AllHexGroupsParts(a: seq<string>, b: seq<string>, c: seq<string>)
    requires AllHexGroups(a + b + c)
    ensures AllHexGroups(a) && AllHexGroups(c)
  {
    var all := a + b + c;
    assert forall i :: 0 <= i < |a| ==> a[i] == all[i];
    assert forall i :: 0 <= i < |c| ==> c[i] == all[|a| + |b| + i];
  }

  // ---- zones and dotted quads ----

  lemma DigitsHoldNo(s: string, c: char)
    requires AllDigits(s) && !IsDigit(c)
    ensures c !in s
  {
  }

  lemma {:induction false} ZoneDropped(s: string, zone: string)
    requires '%' !in s
    ensures WithoutZone(s) == s && WithoutZone(s + "%" + zone) == s
  {
    if s != "" {
      assert s[0] in s;
      ZoneDropped(s[1..], zone);
      assert (s + "%" + zone)[1..] == s[1..] + "%" + zone;
      assert [s[0]] + s[1..] == s;
    }
  }

  /** A dotted quad holds digits and dots only. */
  lemma DottedHoldsNo(s: string, c: char)
    requires DottedShape(s) && !IsDigit(c) && c != '.'
    ensures c !in s && '.' in s
  {
    var parts := Split(s, ".");
    forall i | 0 <= i < 4 ensures c !in parts[i] {
      DigitsHoldNo(parts[i], c);
    }
    JoinFree(parts, ".", c);
    JoinSplit(s, ".");
    if '.' !in s {
      SplitWhole(s, ".");
    }
  }

  lemma {:induction false} NoQuadWithoutDot(s: string, i: nat)
    requires '.' !in s && i <= |s|
    ensures QuadStart(s, i) == None
    decreases |s| - i
  {
    if QuadAt(s, i) {
      DottedHoldsNo(s[i..], ':');
      assert false;
    }
    if i < |s| {
      NoQuadWithoutDot(s, i + 1);
    }
  }

  /** The text ends in a dotted quad that begins at `i`, and in no longer one. */
  predicate QuadBegins(s: string, i: nat) {
    i <= |s| && QuadAt(s, i) && forall j :: 0 <= j < i ==> !QuadAt(s, j)
  }

  lemma {:induction false} QuadStartMeans(s: string, from: nat)
    requires from <= |s|
    ensures var r := QuadStart(s, from);
            && (r.None? ==> forall j :: from <= j <= |s| ==> !QuadAt(s, j))
            && (r.Some? ==> QuadAt(s, r.value) && forall j :: from <= j < r.value ==> !QuadAt(s, j))
    decreases |s| - from
  {
    if QuadAt(s, from) {
      assert QuadStart(s, from) == Some(from);
    } else if from < |s| {
      QuadStartMeans(s, from + 1);
    }
  }

  /** Exactly what is accepted: up to a zone, one of the two forms, where a dotted quad at
      the end has first been rewritten as the text of its two halves.  Nothing asks for a
      colon in front of the quad. */
  lemma IPv6AcceptsExactly(address: string)
    ensures var t := WithoutZone(address);
            IPv6(address).Some? <==>
            if exists i: nat :: QuadBegins(t, i)
            then exists i: nat ::
                   && QuadBegins(t, i) && IPv4(t[i..]).Some?
                   && IsHexForm(t[..i] + QuadText(IPv4(t[i..]).value))
            else IsHexForm(t)
  {
    var t := WithoutZone(address);
    QuadStartMeans(t, 0);
    match QuadStart(t, 0)
    case None =>
      HexTextAcceptsExactly(t);
    case Some(i) =>
      assert QuadBegins(t, i);
      assert forall j: nat :: QuadBegins(t, j) ==> j == i;
      if IPv4(t[i..]).Some? {
        HexTextAcceptsExactly(t[..i] + QuadText(IPv4(t[i..]).value));
      }
  }

  /** A character that cannot stand in a dotted quad. */
  predicate EndsQuads(before: string) {
    before != "" && !IsDigit(before[|before| - 1]) && before[|before| - 1] != '.'
  }

  /** After such a character, the leftmost quad is the whole quad. */
  lemma {:induction false} QuadFound(before: string, quad: string, i: nat)
    requires EndsQuads(before) && DottedShape(quad)
    requires i <= |before|
    ensures QuadStart(before + quad, i) == Some(|before|)
    decreases |before| - i
  {
    var s, c := before + quad, before[|before| - 1];
    if i == |before| {
      assert s[i..] == quad;
    } else {
      assert s[i..][|before| - 1 - i] == c;
      if QuadAt(s, i) {
        DottedHoldsNo(s[i..], c);
        assert false;
      }
      QuadFound(before, quad, i + 1);
    }
  }

  lemma QuadAfter(before: string, quad: string)
    requires EndsQuads(before) && DottedShape(quad)
    ensures QuadBegins(before + quad, |before|)
  {
    QuadFound(before, quad, 0);
    QuadStartMeans(before + quad, 0);
  }

  /** The longest quad at the end reads as its two sixteen-bit halves. */
  lemma QuadRewritten(before: string, quad: string, v4: nat)
    requires QuadBegins(before + quad, |before|) && '%' !in before
    requires IPv4(quad) == Some(v4)
    ensures IPv6(before + quad) == HexText(before + QuadText(v4))
    ensures v4 < TWO_32
  {
    var s := before + quad;
    IPv4Value(quad);
    DottedHoldsNo(quad, '%');
    ZoneDropped(s, "");
    QuadStartMeans(s, 0);
    assert s[..|before|] == before && s[|before|..] == quad;
  }

  lemma EmbeddedQuad(before: string, quad: string, v4: nat)
    requires EndsQuads(before) && '%' !in before
    requires IPv4(quad) == Some(v4)
    ensures IPv6(before + quad) == HexText(before + QuadText(v4))
    ensures v4 < TWO_32
  {
    IPv4Value(quad);
    QuadAfter(before, quad);
    QuadRewritten(before, quad, v4);
  }

  lemma PlainText(s: string)
    requires '%' !in s && '.' !in s
    ensures IPv6(s) == HexText(s)
  {
    ZoneDropped(s, "");
    NoQuadWithoutDot(s, 0);
  }

  /** A zone index never changes the address. */
  lemma ZoneIsIgnored(s: string, zone: string)
    requires '%' !in s
    ensures IPv6(s + "%" + zone) == IPv6(s)
  {
    ZoneDropped(s, zone);
  }

  // ---- the three conventional forms (RFC 4291 section 2.2) ----

  /** x:x:x:x:x:x:x:x */
  lemma FullForm(h: seq<string>, g: seq<nat>)
    requires |h| == 8 && Spells(h, g)
    ensures IPv6(Join(h, ":")) == Some(Value(g))
  {
    JoinedGroups(h);
    PlainText(Join(h, ":"));
    HexTextFull(h, g);
  }

  lemma CompressedText(h: seq<string>, g: seq<nat>, from: nat, to: nat)
    requires |h| == 8 && Spells(h, g)
    requires from < to <= 8 && forall i :: from <= i < to ==> g[i] == 0
    ensures HexText(Join(h[..from], ":") + "::" + Join(h[to..], ":")) == Some(Value(g))
  {
    CompressedSpells(h, g, from, to);
    HexTextCompressed(h[..from], h[to..], g);
  }

  /** Any non-empty run of zero groups written as `::`. */
  lemma CompressedForm(h: seq<string>, g: seq<nat>, from: nat, to: nat)
    requires |h| == 8 && Spells(h, g)
    requires from < to <= 8 && forall i :: from <= i < to ==> g[i] == 0
    ensures IPv6(Join(h[..from], ":") + "::" + Join(h[to..], ":")) == Some(Value(g))
  {
    JoinedGroups(h[..from]);
    JoinedGroups(h[to..]);
    CompressedText(h, g, from, to);
    PlainText(Join(h[..from], ":") + "::" + Join(h[to..], ":"));
  }

  lemma CompressedSpells(h: seq<string>, g: seq<nat>, from: nat, to: nat)
    requires |h| == 8 && Spells(h, g)
    requires from < to <= 8 && forall i :: from <= i < to ==> g[i] == 0
    ensures Spells(h[..from] + Zeros(8 - from - (8 - to)) + h[to..], g)
  {
    assert Hexadecimal("0") == 0 by {
      assert "0"[..0] == "";
    }
    var all := h[..from] + Zeros(to - from) + h[to..];
    forall i | 0 <= i < 8 ensures HexGroup(all[i]) && Hexadecimal(all[i]) == g[i] {
      if i < from {
        assert all[i] == h[i];
      } else if i < to {
        assert all[i] == "0";
      } else {
        assert all[i] == h[i];
      }
    }
  }

  /** The two groups a dotted quad stands for. */
  function QuadNumbers(v4: nat): seq<nat> {
    [v4 / 0x10000 % 0x10000, v4 % 0x10000]
  }

  function QuadGroups(v4: nat): seq<string> {
    [ToHex(v4 / 0x10000 % 0x10000), ToHex(v4 % 0x10000)]
  }

  lemma QuadGroupsJoin(v4: nat)
    ensures Join(QuadGroups(v4), ":") == QuadText(v4)
  {
    assert QuadGroups(v4)[1..] == [ToHex(v4 % 0x10000)];
  }

  lemma QuadGroupsSpell(v4: nat)
    ensures Spells(QuadGroups(v4), QuadNumbers(v4))
  {
    HexRoundTrip(v4 / 0x10000 % 0x10000);
    HexRoundTrip(v4 % 0x10000);
  }

  lemma SpellsAppend(h: seq<string>, g: seq<nat>, h': seq<string>, g': seq<nat>)
    requires Spells(h, g) && Spells(h', g')
    ensures Spells(h + h', g + g')
  {
  }

  /** x:x:x:x:x:x:d.d.d.d */
  lemma MixedForm(h: seq<string>, g: seq<nat>, quad: string, v4: nat)
    requires |h| == 6 && Spells(h, g) && IPv4(quad) == Some(v4)
    ensures IPv6(Join(h, ":") + ":" + quad) == Some(Value(g) * 0x1_0000_0000 + v4)
  {
    MixedGroups(h, g, quad, v4);
    ValueWithQuad(g, v4);
  }

  lemma MixedGroups(h: seq<string>, g: seq<nat>, quad: string, v4: nat)
    requires |h| == 6 && Spells(h, g) && IPv4(quad) == Some(v4)
    ensures IPv6(Join(h, ":") + ":" + quad) == Some(Value(g + QuadNumbers(v4)))
    ensures v4 < TWO_32
  {
    FullAppended(h, g, v4);
    JoinedGroups(h);
    EmbeddedQuad(Join(h, ":") + ":", quad, v4);
  }

  lemma FullAppended(h: seq<string>, g: seq<nat>, v4: nat)
    requires |h| == 6 && Spells(h, g)
    ensures HexText(Join(h, ":") + ":" + QuadText(v4)) == Some(Value(g + QuadNumbers(v4)))
  {
    QuadGroupsSpell(v4);
    QuadGroupsJoin(v4);
    SpellsAppend(h, g, QuadGroups(v4), QuadNumbers(v4));
    JoinAppend(h, QuadGroups(v4), ":");
    HexTextFull(h + QuadGroups(v4), g + QuadNumbers(v4));
  }

  lemma ValueWithQuad(g: seq<nat>, v4: nat)
    requires v4 < TWO_32
    ensures Value(g + QuadNumbers(v4)) == Value(g) * 0x1_0000_0000 + v4
  {
    var all := g + QuadNumbers(v4);
    assert all[..|g| + 1][..|g|] == g && all[..|all| - 1] == all[..|g| + 1];
    assert v4 / 0x10000 % 0x10000 == v4 / 0x10000;
  }

  /** A `::` in front of a dotted quad, for any non-empty run of zeros among the first six groups. */
  lemma CompressedMixedForm(h: seq<string>, g: seq<nat>, from: nat, to: nat, quad: string, v4: nat)
    requires |h| == 6 && Spells(h, g) && IPv4(quad) == Some(v4)
    requires from < to <= 6 && forall i :: from <= i < to ==> g[i] == 0
    ensures IPv6(Join(h[..from], ":") + "::" + Join(h[to..] + [quad], ":")) == Some(Value(g) * 0x1_0000_0000 + v4)
  {
    CompressedMixedGroups(h, g, from, to, quad, v4);
    ValueWithQuad(g, v4);
  }

  lemma CompressedMixedGroups(h: seq<string>, g: seq<nat>, from: nat, to: nat, quad: string, v4: nat)
    requires |h| == 6 && Spells(h, g) && IPv4(quad) == Some(v4)
    requires from < to <= 6 && forall i :: from <= i < to ==> g[i] == 0
    ensures IPv6(Join(h[..from], ":") + "::" + Join(h[to..] + [quad], ":")) == Some(Value(g + QuadNumbers(v4)))
    ensures v4 < TWO_32
  {
    QuadGroupsSpell(v4);
    CompressedAppended(h, g, QuadGroups(v4), QuadNumbers(v4), from, to);
    CompressedQuadText(h[..from], h[to..], quad, v4);
  }

  lemma CompressedAppended(h: seq<string>, g: seq<nat>, h': seq<string>, g': seq<nat>, from: nat, to: nat)
    requires |h| == 6 && Spells(h, g) && |h'| == 2 && Spells(h', g')
    requires from < to <= 6 && forall i :: from <= i < to ==> g[i] == 0
    ensures HexText(Join(h[..from], ":") + "::" + Join(h[to..] + h', ":")) == Some(Value(g + g'))
  {
    SpellsAppend(h, g, h', g');
    CompressedText(h + h', g + g', from, to);
    assert (h + h')[..from] == h[..from];
    assert (h + h')[to..] == h[to..] + h';
  }

  lemma CompressedQuadText(head: seq<string>, mid: seq<string>, quad: string, v4: nat)
    requires AllHexGroups(head) && AllHexGroups(mid) && IPv4(quad) == Some(v4)
    ensures IPv6(Join(head, ":") + "::" + Join(mid + [quad], ":"))
         == HexText(Join(head, ":") + "::" + Join(mid + QuadGroups(v4), ":"))
    ensures v4 < TWO_32
  {
    var start := Join(head, ":") + "::";
    var before := if mid == [] then start else start + Join(mid, ":") + ":";
    JoinedGroups(head);
    JoinedGroups(mid);
    EmbeddedQuad(before, quad, v4);
    JoinLast(start, mid, [quad]);
    JoinLast(start, mid, QuadGroups(v4));
    QuadGroupsJoin(v4);
  }

  lemma JoinLast(start: string, mid: seq<string>, last: seq<string>)
    requires last != []
    ensures start + Join(mid + last, ":")
            == (if mid == [] then start else start + Join(mid, ":") + ":") + Join(last, ":")
  {
    if mid == [] {
      assert mid + last == last;
    } else {
      JoinAppend(mid, last, ":");
    }
  }

  // ---- quads glued to hexadecimal digits ----

  /** Hexadecimal digits in front of a quad run into its upper half, as long as the group
      they make has four digits at most. */
  lemma GluedQuadAccepted(p: string, quad: string, v4: nat)
    requires AllHex(p) && QuadBegins("::" + p + quad, |"::" + p|) && IPv4(quad) == Some(v4)
    requires |p + ToHex(v4 / 0x10000 % 0x10000)| <= 4
    ensures AllHex(p + ToHex(v4 / 0x10000 % 0x10000))
    ensures IPv6("::" + p + quad) == Some(Hexadecimal(p + ToHex(v4 / 0x10000 % 0x10000)) * 0x10000 + v4 % 0x10000)
  {
    HexHoldsNo(p, '%');
    QuadRewritten("::" + p, quad, v4);
    GluedHex(p, v4);
  }

  lemma GluedHex(p: string, v4: nat)
    requires AllHex(p) && |p + ToHex(v4 / 0x10000 % 0x10000)| <= 4
    ensures AllHex(p + ToHex(v4 / 0x10000 % 0x10000))
    ensures HexText("::" + p + QuadText(v4))
         == Some(Hexadecimal(p + ToHex(v4 / 0x10000 % 0x10000)) * 0x10000 + v4 % 0x10000)
  {
    var high, low := v4 / 0x10000 % 0x10000, v4 % 0x10000;
    HalfIsGroup(high);
    HalfIsGroup(low);
    GluedText(p, ToHex(high), ToHex(low), low);
  }

  lemma HalfIsGroup(n: nat)
    requires n < 0x10000
    ensures HexGroup(ToHex(n)) && Hexadecimal(ToHex(n)) == n
  {
    HexRoundTrip(n);
  }

  lemma GluedText(p: string, high: string, low: string, y: nat)
    requires AllHex(p) && AllHex(high) && 1 <= |p + high| <= 4 && HexGroup(low) && Hexadecimal(low) == y
    ensures AllHex(p + high)
    ensures HexText("::" + p + (high + ":" + low)) == Some(Hexadecimal(p + high) * 0x10000 + y)
  {
    var a := p + high;
    GluedAssociates(p, high, low);
    GluedGroups("::" + p + (high + ":" + low), a, low, Hexadecimal(a), y);
  }

  lemma GluedAssociates(p: string, high: string, low: string)
    ensures "::" + p + (high + ":" + low) == "::" + ((p + high) + ":" + low)
  {
  }

  lemma GluedGroups(s: string, a: string, b: string, x: nat, y: nat)
    requires HexGroup(a) && HexGroup(b) && Hexadecimal(a) == x && Hexadecimal(b) == y && s == "::" + (a + ":" + b)
    ensures HexText(s) == Some(x * 0x10000 + y)
  {
    var tail := [a, b];
    var g := [0, 0, 0, 0, 0, 0, x, y];
    GluedSpell(tail, g);
    GluedJoin(s, a, b);
    HexTextCompressed([], tail, g);
    ValueOfEight(g);
  }

  lemma GluedJoin(s: string, a: string, b: string)
    requires s == "::" + (a + ":" + b)
    ensures s == Join([], ":") + "::" + Join([a, b], ":")
  {
    assert [a, b][1..] == [b];
    assert "" + "::" == "::";
  }

  lemma GluedSpell(tail: seq<string>, g: seq<nat>)
    requires |tail| == 2 && AllHexGroups(tail)
    requires g == [0, 0, 0, 0, 0, 0, Hexadecimal(tail[0]), Hexadecimal(tail[1])]
    ensures Spells(Filled([], tail), g)
  {
    assert Hexadecimal("0") == 0 by {
      assert "0"[..0] == "";
    }
    var all := Filled([], tail);
    forall i | 0 <= i < 8 ensures HexGroup(all[i]) && Hexadecimal(all[i]) == g[i] {
      assert all[i] == if i < 6 then "0" else tail[i - 6];
    }
  }

  /** For example, `::a1.2.3.4` is read as `::a102:304`. */
  lemma GluedExample(text: string)
    requires text == "::a1.2.3.4"
    ensures IPv6(text) == Some(0xa102_0304)
  {
    var quad := Dotted("1", "2", "3", "4");
    assert text == "::" + "a" + quad;
    OneDigit("1", 1);
    QuadOf("1", quad);
    IPv4Value(quad);
    QuadAfter("::" + "a", quad);
    GluedToDigit("a", 0xa, quad, 0x0102_0304, text);
  }

  lemma OneHexDigit(s: string, d: nat)
    requires |s| == 1 && HexDigit(s[0]) == Some(d)
    ensures AllHex(s) && Hexadecimal(s) == d
  {
    HexAppend("", s[0]);
    assert [] + [s[0]] == s;
  }

  lemma HexOf102(n: nat)
    requires n == 0x102
    ensures ToHex(n) == "102"
  {
    assert ToHex(n / 16 / 16) == "1";
    assert ToHex(n / 16) == "10";
  }

  lemma HexWith102(p: string, n: nat)
    requires n == 0x102 && AllHex(p)
    ensures |ToHex(n)| == 3 && AllHex(p + ToHex(n)) && Hexadecimal(p + ToHex(n)) == Hexadecimal(p) * 0x1000 + n
  {
    HexOf102(n);
    HexAppend(p, '1');
    HexAppend(p + ['1'], '0');
    HexAppend(p + ['1'] + ['0'], '2');
    assert p + "102" == p + ['1'] + ['0'] + ['2'];
  }

  lemma QuadOf(a: string, quad: string)
    requires ValidOctet(a) && Decimal(a) == 1 && quad == Dotted(a, "2", "3", "4")
    ensures IPv4(quad) == Some(0x0102_0304)
  {
    OneDigit("2", 2);
    OneDigit("3", 3);
    OneDigit("4", 4);
    DottedValue(a, "2", "3", "4");
  }

  lemma OneDigit(s: string, d: nat)
    requires |s| == 1 && IsDigit(s[0]) && d == (s[0] - '0') as nat
    ensures ValidOctet(s) && Decimal(s) == d
  {
    assert s[..0] == "";
  }

  lemma GluedToDigit(p: string, d: nat, quad: string, v4: nat, text: string)
    requires |p| == 1 && HexDigit(p[0]) == Some(d) && IPv4(quad) == Some(v4) && v4 == 0x0102_0304
    requires text == "::" + p + quad && QuadBegins(text, |"::" + p|)
    ensures IPv6(text) == Some((d * 0x1000 + 0x102) * 0x10000 + 0x304)
  {
    HalvesOf01020304(v4);
    OneHexDigit(p, d);
    HexWith102(p, v4 / 0x10000 % 0x10000);
    GluedQuadAccepted(p, quad, v4);
  }

  lemma HalvesOf01020304(v4: nat)
    requires v4 == 0x0102_0304
    ensures v4 / 0x10000 % 0x10000 == 0x102 && v4 % 0x10000 == 0x304
  {
  }

  /** Digits can be glued as well, once the quad's first octet has three: in
      `::1001.2.3.4` the quad is `001.2.3.4`. */
  lemma GluedDigitExample(text: string)
    requires text == "::1001.2.3.4"
    ensures QuadBegins(text, 3) && IPv6(text) == Some(0x1102_0304)
  {
    var quad := Dotted("001", "2", "3", "4");
    assert text == "::" + "1" + quad;
    GluedDigit(quad, text);
  }

  lemma GluedDigit(quad: string, text: string)
    requires quad == Dotted("001", "2", "3", "4") && text == "::" + "1" + quad
    ensures QuadBegins(text, 3) && IPv6(text) == Some(0x1102_0304)
  {
    ThreeDigits("001");
    QuadOf("001", quad);
    IPv4Value(quad);
    FirstGrows("1", "001", "2", "3", "4");
    LongFirst("1" + quad, "1" + "001", "2", "3", "4");
    LongQuadBegins("::1", quad, text);
    GluedToDigit("1", 1, quad, 0x0102_0304, text);
  }

  lemma ThreeDigits(s: string)
    requires |s| == 3 && s[0] == '0' && s[1] == '0' && s[2] == '1'
    ensures ValidOctet(s) && Decimal(s) == 1
  {
    assert s[..2][..1][..0] == "";
    assert Decimal(s[..2][..1]) == 0;
    assert Decimal(s[..2]) == 0;
  }

  lemma FirstGrows(x: string, a: string, b: string, c: string, d: string)
    ensures x + Dotted(a, b, c, d) == Dotted(x + a, b, c, d)
  {
  }

  lemma LongFirst(s: string, a: string, b: string, c: string, d: string)
    requires s == Dotted(a, b, c, d) && |a| > 3 && AllDigits(a) && AllDigits(b) && AllDigits(c) && AllDigits(d)
    ensures !DottedShape(s)
  {
    SplitDotted(a, b, c, d);
    assert !OctetText(Split(s, ".")[0]);
  }

  lemma LongQuadBegins(before: string, quad: string, text: string)
    requires before == "::1" && text == before + quad && DottedShape(quad) && !DottedShape("1" + quad)
    ensures QuadBegins(text, 3)
  {
    assert text[3..] == quad && text[2..] == "1" + quad;
    forall j | 0 <= j < 3 ensures !QuadAt(text, j) {
      if j < 2 {
        assert text[j..][1 - j] == ':';
        if QuadAt(text, j) {
          DottedHoldsNo(text[j..], ':');
          assert false;
        }
      }
    }
  }

  // ---- which accepted texts are the mixed forms of RFC 4291 ----

  ghost predicate IsFullMixed(t: string) {
    exists h, quad :: |h| == 6 && AllHexGroups(h) && IPv4(quad).Some? && t == Join(h, ":") + ":" + quad
  }

  ghost predicate IsCompressedMixed(t: string) {
    exists head, mid, quad ::
      && |head| + |mid| <= 5 && AllHexGroups(head) && AllHexGroups(mid) && IPv4(quad).Some?
      && t == Join(head, ":") + "::" + Join(mid + [quad], ":")
  }

  /** x:x:x:x:x:x:d.d.d.d, or the same with at least one group left out around a `::`. */
  ghost predicate IsMixedText(t: string) {
    IsFullMixed(t) || IsCompressedMixed(t)
  }

  lemma QuadBeginsAtColon(t: string, i: nat, before: string, quad: string)
    requires QuadBegins(t, i) && IPv4(quad).Some? && t == before + quad
    requires before != "" && before[|before| - 1] == ':'
    ensures i > 0 && t[i - 1] == ':'
  {
    IPv4Value(quad);
    QuadAfter(before, quad);
    assert QuadBegins(t, |before|);
  }

  lemma MixedHasColon(t: string, i: nat)
    requires QuadBegins(t, i) && IsMixedText(t)
    ensures i > 0 && t[i - 1] == ':'
  {
    if IsFullMixed(t) {
      var h, quad :| |h| == 6 && AllHexGroups(h) && IPv4(quad).Some? && t == Join(h, ":") + ":" + quad;
      QuadBeginsAtColon(t, i, Join(h, ":") + ":", quad);
    } else {
      var head, mid, quad :|
        && |head| + |mid| <= 5 && AllHexGroups(head) && AllHexGroups(mid) && IPv4(quad).Some?
        && t == Join(head, ":") + "::" + Join(mid + [quad], ":");
      var start := Join(head, ":") + "::";
      JoinLast(start, mid, [quad]);
      QuadBeginsAtColon(t, i, if mid == [] then start else start + Join(mid, ":") + ":", quad);
    }
  }

  /** The pieces of a text around its colons, where the rewritten quad ends it. */
  lemma SplitBeforeQuad(b: string, high: string, low: string)
    requires AllHex(high) && AllHex(low)
    ensures Split(b + ":" + (high + ":" + low), ":") == Split(b, ":") + [high, low]
  {
    HexHoldsNo(high, ':');
    HexHoldsNo(low, ':');
    SplitAt(b, ":", high + ":" + low);
    SplitAt(high, ":", low);
    SplitWhole(high, ":");
    SplitWhole(low, ":");
    assert [high] + [low] == [high, low];
  }

  /** What splitting a joined half gives. */
  function Whole(h: seq<string>): seq<string> {
    if h == [] then [""] else h
  }

  lemma SplitHalf(h: seq<string>)
    requires AllHexGroups(h)
    ensures Split(Join(h, ":"), ":") == Whole(h)
  {
    GroupsHoldNo(h, ':');
    if h == [] {
      SplitWhole("", ":");
    } else {
      SplitJoin(h, ":");
    }
  }

  lemma SplitCompressed(head: seq<string>, tail: seq<string>)
    requires AllHexGroups(head) && AllHexGroups(tail)
    ensures Split(Join(head, ":") + "::" + Join(tail, ":"), ":") == Whole(head) + ([""] + Whole(tail))
  {
    var a, b := Join(head, ":"), Join(tail, ":");
    SplitHalf(head);
    SplitHalf(tail);
    assert a + "::" + b == a + ":" + ("" + ":" + b);
    SplitAt(a, ":", "" + ":" + b);
    SplitAt("", ":", b);
    SplitWhole("", ":");
  }

  /** Eight groups that end in the quad's two leave six in front. */
  lemma FullWithQuad(b: string, high: string, low: string, h: seq<string>)
    requires AllHex(high) && AllHex(low) && |h| == 8 && AllHexGroups(h)
    requires b + ":" + (high + ":" + low) == Join(h, ":")
    ensures b == Join(h[..6], ":") && AllHexGroups(h[..6])
  {
    SplitBeforeQuad(b, high, low);
    SplitHalf(h);
    assert Split(b, ":") == h[..6];
    JoinSplit(b, ":");
  }

  lemma JoinBeforeEmpty(h: seq<string>, mid: seq<string>)
    ensures Join(Whole(h) + ([""] + mid), ":") + ":"
         == if mid == [] then Join(h, ":") + "::" else Join(h, ":") + "::" + Join(mid, ":") + ":"
  {
    JoinAppend(Whole(h), [""] + mid, ":");
    assert Join(Whole(h), ":") == Join(h, ":");
    assert "::" == ":" + ":";
    if mid == [] {
      assert [""] + mid == [""];
    } else {
      JoinEmptyFirst(mid, ":");
    }
  }

  /** With a `::`, the quad's two groups are the last of the second half. */
  lemma CompressedWithQuad(b: string, high: string, low: string, head: seq<string>, tail: seq<string>)
    returns (mid: seq<string>)
    requires HexGroup(high) && HexGroup(low) && AllHexGroups(head) && AllHexGroups(tail)
    requires b + ":" + (high + ":" + low) == Join(head, ":") + "::" + Join(tail, ":")
    ensures AllHexGroups(mid) && |mid| + 2 == |tail|
    ensures b + ":" == if mid == [] then Join(head, ":") + "::" else Join(head, ":") + "::" + Join(mid, ":") + ":"
  {
    SplitBeforeQuad(b, high, low);
    SplitCompressed(head, tail);
    LastTwo(Split(b, ":"), high, low, Whole(head), Whole(tail));
    mid := tail[..|tail| - 2];
    JoinSplit(b, ":");
    JoinBeforeEmpty(head, mid);
  }

  lemma LastTwo(front: seq<string>, high: string, low: string, a: seq<string>, b: seq<string>)
    requires front + [high, low] == a + ([""] + b) && high != "" && low != "" && b != []
    ensures |b| >= 2 && b != [""] && front == a + ([""] + b[..|b| - 2])
  {
    var all, n := front + [high, low], |front|;
    assert all[n] == high && all[n + 1] == low;
    assert n + 2 == |a| + 1 + |b|;
    assert all[|a|] == ([""] + b)[0] == "";
    assert front == all[..n];
    assert (a + ([""] + b))[..n] == a + ([""] + b[..|b| - 2]);
  }

  lemma ColonIsMixed(t: string, b: string, quad: string, v4: nat)
    requires t == b + ":" + quad && IPv4(quad) == Some(v4) && IsHexForm(b + ":" + QuadText(v4))
    ensures IsMixedText(t)
  {
    var high, low := ToHex(v4 / 0x10000 % 0x10000), ToHex(v4 % 0x10000);
    HalfIsGroup(v4 / 0x10000 % 0x10000);
    HalfIsGroup(v4 % 0x10000);
    var s := b + ":" + (high + ":" + low);
    if IsFullText(s) {
      var h :| |h| == 8 && AllHexGroups(h) && s == Join(h, ":");
      FullWithQuad(b, high, low, h);
      assert IsFullMixed(t);
    } else {
      var head, tail :| |head| + |tail| <= 7 && AllHexGroups(head) && AllHexGroups(tail)
                     && s == Join(head, ":") + "::" + Join(tail, ":");
      var mid := CompressedWithQuad(b, high, low, head, tail);
      JoinLast(Join(head, ":") + "::", mid, [quad]);
      assert IsCompressedMixed(t);
    }
  }

  lemma AcceptedWithQuad(t: string, i: nat)
    requires '%' !in t && IPv6(t).Some? && QuadBegins(t, i)
    ensures IPv4(t[i..]).Some? && IsHexForm(t[..i] + QuadText(IPv4(t[i..]).value))
  {
    ZoneDropped(t, "");
    QuadStartMeans(t, 0);
    assert QuadStart(t, 0) == Some(i);
    HexTextAcceptsExactly(t[..i] + QuadText(IPv4(t[i..]).value));
  }

  lemma ColonHasMixed(t: string, i: nat)
    requires '%' !in t && IPv6(t).Some? && QuadBegins(t, i) && i > 0 && t[i - 1] == ':'
    ensures IsMixedText(t)
  {
    AcceptedWithQuad(t, i);
    AroundColon(t, i);
    ColonIsMixed(t, t[..i - 1], t[i..], IPv4(t[i..]).value);
  }

  lemma AroundColon(t: string, i: nat)
    requires 0 < i <= |t| && t[i - 1] == ':'
    ensures t == t[..i - 1] + ":" + t[i..] && t[..i] == t[..i - 1] + ":"
  {
  }

  /** Of the accepted texts that end in a quad, the mixed forms of the standard are exactly
      those with a colon in front of it; the others are glued. */
  lemma MixedExactlyAfterColon(t: string, i: nat)
    requires '%' !in t && IPv6(t).Some? && QuadBegins(t, i)
    ensures IsMixedText(t) <==> i > 0 && t[i - 1] == ':'
  {
    if IsMixedText(t) {
      MixedHasColon(t, i);
    }
    if i > 0 && t[i - 1] == ':' {
      ColonHasMixed(t, i);
    }
  }

  // ---- round trip ----

  /** The `n` sixteen-bit groups of a number. */
  function GroupsOf(v: nat, n: nat): (g: seq<nat>)
    ensures |g| == n && forall i :: 0 <= i < n ==> g[i] < 0x10000
  {
    if n == 0 then [] else GroupsOf(v / 0x10000, n - 1) + [v % 0x10000]
  }

  function PrintGroups(g: seq<nat>): (h: seq<string>)
    ensures |h| == |g| && forall i :: 0 <= i < |g| ==> h[i] == ToHex(g[i])
  {
    seq(|g|, i requires 0 <= i < |g| => ToHex(g[i]))
  }

  function PrintIPv6(v: nat): string {
    Join(PrintGroups(GroupsOf(v, 8)), ":")
  }

  /** Printing with the zero groups `from..to` compressed. */
  function PrintCompressed(v: nat, from: nat, to: nat): string
    requires from < to <= 8
  {
    var h := PrintGroups(GroupsOf(v, 8));
    Join(h[..from], ":") + "::" + Join(h[to..], ":")
  }

  lemma PrintedGroupsSpell(g: seq<nat>)
    requires forall i :: 0 <= i < |g| ==> g[i] < 0x10000
    ensures Spells(PrintGroups(g), g)
  {
    forall i | 0 <= i < |g| ensures HexGroup(ToHex(g[i])) && Hexadecimal(ToHex(g[i])) == g[i] {
      HexRoundTrip(g[i]);
    }
  }

  lemma {:induction false} GroupsOfValue(v: nat, n: nat)
    requires v < Scale(n)
    ensures Value(GroupsOf(v, n)) == v
  {
    if n > 0 {
      GroupsOfValue(v / 0x10000, n - 1);
      GroupsStep(v, n - 1);
    }
  }

  lemma ScaleOfEight()
    ensures Scale(8) == TWO_128
  {
    assert Scale(2) == 0x1_0000_0000 && Scale(4) == 0x1_0000_0000_0000_0000
           && Scale(6) == 0x1_0000_0000_0000_0000_0000_0000;
  }

  lemma GroupsOfEight(v: nat)
    requires v < TWO_128
    ensures Value(GroupsOf(v, 8)) == v
  {
    ScaleOfEight();
    GroupsOfValue(v, 8);
  }

  lemma GroupsStep(v: nat, n: nat)
    ensures Value(GroupsOf(v, n + 1)) == Value(GroupsOf(v / 0x10000, n)) * 0x10000 + v % 0x10000
  {
    assert GroupsOf(v, n + 1)[..n] == GroupsOf(v / 0x10000, n);
  }

  /** Parsing undoes printing over all 2^128 addresses, compressed or not. */
  lemma IPv6RoundTrip(v: nat)
    requires v < TWO_128
    ensures IPv6(PrintIPv6(v)) == Some(v)
    ensures forall from: nat, to: nat ::
              from < to <= 8 && (forall i :: from <= i < to ==> GroupsOf(v, 8)[i] == 0) ==>
              IPv6(PrintCompressed(v, from, to)) == Some(v)
  {
    var g := GroupsOf(v, 8);
    var h := PrintGroups(g);
    GroupsOfEight(v);
    PrintedGroupsSpell(g);
    FullForm(h, g);
    forall from: nat, to: nat | from < to <= 8 && (forall i :: from <= i < to ==> g[i] == 0)
      ensures IPv6(PrintCompressed(v, from, to)) == Some(v)
    {
      CompressedForm(h, g, from, to);
    }
  }

  // ---- upper case ----

  function PrintUpperGroups(g: seq<nat>): (h: seq<string>)
    ensures |h| == |g| && forall i :: 0 <= i < |g| ==> h[i] == ToUpperHex(g[i])
  {
    seq(|g|, i requires 0 <= i < |g| => ToUpperHex(g[i]))
  }

  lemma UpperGroupsSpell(g: seq<nat>)
    requires forall i :: 0 <= i < |g| ==> g[i] < 0x10000
    ensures Spells(PrintUpperGroups(g), g)
  {
    forall i | 0 <= i < |g| ensures HexGroup(ToUpperHex(g[i])) && Hexadecimal(ToUpperHex(g[i])) == g[i] {
      UpperHexRoundTrip(g[i]);
    }
  }

  /** Parsing undoes printing in upper case just as well, compressed or not. */
  lemma IPv6UpperRoundTrip(v: nat)
    requires v < TWO_128
    ensures var h := PrintUpperGroups(GroupsOf(v, 8));
            && IPv6(Join(h, ":")) == Some(v)
            && forall from: nat, to: nat ::
                 from < to <= 8 && (forall i :: from <= i < to ==> GroupsOf(v, 8)[i] == 0) ==>
                 IPv6(Join(h[..from], ":") + "::" + Join(h[to..], ":")) == Some(v)
  {
    var g := GroupsOf(v, 8);
    var h := PrintUpperGroups(g);
    GroupsOfEight(v);
    UpperGroupsSpell(g);
    FullForm(h, g);
    forall from: nat, to: nat | from < to <= 8 && (forall i :: from <= i < to ==> g[i] == 0)
      ensures IPv6(Join(h[..from], ":") + "::" + Join(h[to..], ":")) == Some(v)
    {
      CompressedForm(h, g, from, to);
    }
  }

  /** `n` groups in front and those of the list: the fold stays within their bits. */
  lemma {:induction false} FoldBounded(groups: seq<string>, value: nat, n: nat)
    requires value < Scale(n)
    ensures var r := FoldGroups(groups, value); r.Some? ==> r.value < Scale(n + |groups|)
    decreases |groups|
  {
    if groups != [] && HexGroup(groups[0]) {
      HexGroupSmall(groups[0]);
      FoldBounded(groups[1..], value * 0x10000 + Hexadecimal(groups[0]), n + 1);
    }
  }

  function Scale(n: nat): nat {
    if n == 0 then 1 else 0x10000 * Scale(n - 1)
  }

  lemma HexGroupSmall(group: string)
    requires HexGroup(group)
    ensures Hexadecimal(group) < 0x10000
  {
    HexBound(group, |group|);
  }

  lemma {:induction false} HexBound(s: string, n: nat)
    requires AllHex(s) && |s| == n && n <= 4
    ensures Hexadecimal(s) < [1, 0x10, 0x100, 0x1000, 0x10000][n]
  {
    if n > 0 {
      HexBound(s[..n - 1], n - 1);
    }
  }

  lemma HexTextBounded(s: string)
    ensures HexText(s).Some? ==> HexText(s).value < Scale(8)
  {
    if !Includes(s, "::") {
      FoldBounded(Split(s, ":"), 0, 0);
    } else {
      var halves := Split(s, "::");
      if |halves| == 2 && |Groups(halves[0])| + |Groups(halves[1])| <= 7 {
        var head, tail := Groups(halves[0]), Groups(halves[1]);
        FoldBounded(Filled(head, tail), 0, 0);
      }
    }
  }

  /** Whatever is accepted is a 128-bit number. */
  lemma IPv6Bounded(address: string)
    ensures IPv6(address).Some? ==> IPv6(address).value < TWO_128
  {
    var text := WithoutQuad(WithoutZone(address));
    if text.Some? {
      HexTextBounded(text.value);
      ScaleOfEight();
    }
  }
}
