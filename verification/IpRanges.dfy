/** The admin allowlist's CIDR ranges: mask construction and matching as the
    32-bit and BigInt operators compute them, and the blocks they denote
    (RFC 4632 section 3.1). */
module IpRanges {
  import opened Wrappers
  import opened Text
  import opened IpAddress

  // ---- the operators the source uses ----

  /** `x << n` on a BigInt: doubled `n` times. */
  function ShiftLeft(x: int, n: nat): (r: int)
    ensures x >= 0 ==> r >= 0
  {
    if n == 0 then x else 2 * ShiftLeft(x, n - 1)
  }

  /** Bitwise and of two naturals of any width. */
  function And(a: nat, b: nat): nat {
    if a == 0 then 0 else (if a % 2 == 1 && b % 2 == 1 then 1 else 0) + 2 * And(a / 2, b / 2)
  }

  /** The signed 32-bit value JavaScript's bit operators work on. */
  function ToInt32(x: int): int {
    var m := x % 0x1_0000_0000;
    if m >= 0x8000_0000 then m - 0x1_0000_0000 else m
  }

  /** `x >>> 0` */
  function ToUint32(x: int): nat {
    x % 0x1_0000_0000
  }

  /** `x << n` on a number: the count is taken modulo 32. */
  function ShiftLeft32(x: int, n: nat): int {
    ToInt32(ShiftLeft(ToInt32(x), n % 32))
  }

  /** `a & b` on numbers. */
  function And32(a: nat, b: nat): int {
    ToInt32(And(ToUint32(a), ToUint32(b)))
  }

  // ---- ranges ----

  const BITS_4 := 32
  const BITS_6 := 128

  datatype IpRange = V4(network: nat, mask: nat) | V6(network: nat, mask: nat)

  /** Node's `net.isIP`: 4, 6, or 0 for neither.  Its grammar is not modelled. */
  type IpFamily = n: nat | n == 0 || n == 4 || n == 6
  type IpVersion = string -> IpFamily

  predicate IsMapped(address: string) {
    && |address| >= 7 && address[..2] == "::"
    && (forall i :: 2 <= i < 6 ==> address[i] == 'f' || address[i] == 'F')
    && address[6] == ':' && DottedShape(address[7..])
  }

  /** An IPv4-mapped IPv6 address collapses to its dotted quad. */
  function NormalizeAddress(address: string): string {
    if IsMapped(address) then address[7..] else address
  }

  function Mask4(prefix: nat): nat
    requires prefix <= 32
  {
    if prefix == 0 then 0 else ToUint32(ShiftLeft32(0xffffffff, 32 - prefix))
  }

  const ALL_ONES := TWO_128 - 1

  function Mask6(prefix: nat): nat
    requires prefix <= 128
  {
    if prefix == 0 then 0 else And(ShiftLeft(ALL_ONES, 128 - prefix), ALL_ONES)
  }

  function RangeAt(address: string, version: IpFamily, prefix: nat): Option<IpRange>
    requires prefix <= if version == 4 then 32 else 128
  {
    if version == 4 then
      match IPv4(address)
      case None => None
      case Some(network) => Some(V4(network, Mask4(prefix)))
    else
      match IPv6(address)
      case None => None
      case Some(network) => Some(V6(network, Mask6(prefix)))
  }

  /** The text of an entry before its slash, and after it if there is one. */
  function AddressPart(entry: string): string {
    var trimmed := Trim(entry);
    var slash := IndexOf(trimmed, '/');
    if slash == -1 then trimmed else trimmed[..slash]
  }

  function PrefixPart(entry: string): Option<string> {
    var trimmed := Trim(entry);
    var slash := IndexOf(trimmed, '/');
    if slash == -1 then None else Some(trimmed[slash + 1..])
  }

  function ParseRange(entry: string, isIP: IpVersion): Option<IpRange> {
    if Trim(entry) == "" then None
    else
      var address := NormalizeAddress(AddressPart(entry));
      var version := isIP(address);
      if version == 0 then None
      else
        var maxBits := if version == 4 then 32 else 128;
        match PrefixPart(entry)
        case None => RangeAt(address, version, maxBits)
        case Some(digits) =>
          if !OctetText(digits) || Decimal(digits) > maxBits then None
          else RangeAt(address, version, Decimal(digits))
  }

  predicate RangeMatches(range: IpRange, address: string, isIP: IpVersion) {
    var normalized := NormalizeAddress(address);
    match range
    case V4(network, mask) =>
      isIP(normalized) == 4 && IPv4(normalized).Some? && And32(IPv4(normalized).value, mask) == And32(network, mask)
    case V6(network, mask) =>
      isIP(normalized) == 6 && IPv6(normalized).Some? && And(IPv6(normalized).value, mask) == And(network, mask)
  }

  // ---- masks are runs of leading ones ----

  function Pow2(n: nat): (p: int)
    ensures p >= 1
  {
    if n == 0 then 1 else 2 * Pow2(n - 1)
  }

  lemma {:induction false} Pow2Monotone(a: nat, b: nat)
    requires a <= b
    ensures Pow2(a) <= Pow2(b)
  {
    if a < b {
      Pow2Monotone(a, b - 1);
    }
  }

  lemma Pow2Byte(n: nat)
    ensures Pow2(n + 8) == 0x100 * Pow2(n)
  {
    assert Pow2(n + 4) == 0x10 * Pow2(n) by {
      assert Pow2(n + 2) == 4 * Pow2(n);
    }
    assert Pow2(n + 6) == 4 * Pow2(n + 4);
  }

  lemma Pow2Word(n: nat)
    ensures Pow2(n + 32) == 0x1_0000_0000 * Pow2(n)
  {
    Pow2Byte(n);
    Pow2Byte(n + 8);
    Pow2Byte(n + 16);
    Pow2Byte(n + 24);
  }

  lemma Pow2Values()
    ensures Pow2(BITS_4) == TWO_32 && Pow2(BITS_6) == TWO_128
  {
    var n := 0;
    Pow2Word(n);
    Pow2Word(n + 32);
    Pow2Word(n + 64);
    Pow2Word(n + 96);
  }

  /** The low `w` bits. */
  function Low(v: nat, w: nat): nat {
    if w == 0 then 0 else v % 2 + 2 * Low(v / 2, w - 1)
  }

  /** `v >> h`: halved `h` times. */
  function ShiftRight(v: nat, h: nat): nat {
    if h == 0 then v else ShiftRight(v / 2, h - 1)
  }

  lemma {:induction false} AndZero(v: nat)
    ensures And(v, 0) == 0
  {
    if v != 0 {
      AndZero(v / 2);
    }
  }

  /** `and` with all ones keeps the low bits. */
  lemma {:induction false} AndOnes(v: nat, w: nat)
    ensures And(v, Pow2(w) - 1) == Low(v, w)
    decreases w
  {
    if w == 0 {
      AndZero(v);
    } else {
      var p := Pow2(w - 1);
      assert (2 * p - 1) % 2 == 1 && (2 * p - 1) / 2 == p - 1;
      AndOnes(v / 2, w - 1);
      if v == 0 {
        LowOfSmall(0, w);
      }
    }
  }

  lemma {:induction false} LowOfSmall(v: nat, w: nat)
    requires v < Pow2(w)
    ensures Low(v, w) == v
  {
    if w > 0 {
      LowOfSmall(v / 2, w - 1);
    }
  }

  lemma AndEven(v: nat, m: nat)
    ensures And(v, 2 * m) == 2 * And(v / 2, m)
  {
    assert (2 * m) % 2 == 0 && (2 * m) / 2 == m;
  }

  /** `and` with a run of leading ones clears the low `h` bits. */
  lemma {:induction false} AndLeadingOnes(v: nat, w: nat, h: nat)
    requires h <= w && v < Pow2(w)
    ensures Pow2(h) <= Pow2(w)
    ensures And(v, Pow2(w) - Pow2(h)) == ShiftLeft(ShiftRight(v, h), h) <= v
    decreases h
  {
    Pow2Monotone(h, w);
    if h == 0 {
      AndOnes(v, w);
      LowOfSmall(v, w);
    } else {
      Pow2Monotone(h - 1, w - 1);
      var m := Pow2(w - 1) - Pow2(h - 1);
      AndLeadingOnes(v / 2, w - 1, h - 1);
      AndEven(v, m);
      assert Pow2(w) - Pow2(h) == 2 * m;
    }
  }

  lemma {:induction false} ShiftLeftInjective(a: int, b: int, h: nat)
    requires ShiftLeft(a, h) == ShiftLeft(b, h)
    ensures a == b
  {
    if h > 0 {
      ShiftLeftInjective(a, b, h - 1);
    }
  }

  lemma {:induction false} ShiftLeftMinusOne(n: nat)
    ensures ShiftLeft(-1, n) == -Pow2(n)
  {
    if n > 0 {
      ShiftLeftMinusOne(n - 1);
    }
  }

  lemma Mask4Value(prefix: nat)
    requires prefix <= 32
    ensures Pow2(BITS_4 - prefix) <= Pow2(BITS_4) && Mask4(prefix) == Pow2(BITS_4) - Pow2(BITS_4 - prefix)
  {
    Pow2Values();
    Pow2Monotone(32 - prefix, 32);
    if prefix > 0 {
      var n := 32 - prefix;
      ShiftLeftMinusOne(n);
      NegativeWraps(Pow2(n));
      assert ToInt32(0xffffffff) == -1;
      assert n % 32 == n;
    }
  }

  lemma NegativeWraps(p: int)
    requires 1 <= p <= TWO_32
    ensures ToUint32(ToInt32(-p)) == 0x1_0000_0000 - p
  {
    assert (-p) % 0x1_0000_0000 == if p == 0x1_0000_0000 then 0 else 0x1_0000_0000 - p;
  }

  /** Without the source's special case a shift by 32 would leave the mask all ones. */
  lemma ShiftBy32KeepsAllOnes()
    ensures ToUint32(ShiftLeft32(0xffffffff, 32 - 0)) == 0xffffffff && Mask4(0) == 0
  {
    assert ToInt32(0xffffffff) == -1 && 32 % 32 == 0;
    NegativeWraps(1);
  }

  lemma {:induction false} LowOfOnes(w: nat, a: nat)
    requires w <= a
    ensures Low(Pow2(a) - 1, w) == Pow2(w) - 1
  {
    if w > 0 {
      var p := Pow2(a - 1);
      assert (2 * p - 1) % 2 == 1 && (2 * p - 1) / 2 == p - 1;
      LowOfOnes(w - 1, a - 1);
    }
  }

  lemma {:induction false} LowOfShifted(x: nat, w: nat, n: nat)
    requires n <= w
    ensures Low(ShiftLeft(x, n), w) == ShiftLeft(Low(x, w - n), n)
    decreases n
  {
    if n > 0 {
      var y := ShiftLeft(x, n - 1);
      assert 2 * y % 2 == 0 && 2 * y / 2 == y;
      LowOfShifted(x, w - 1, n - 1);
    }
  }

  lemma {:induction false} ShiftedOnes(w: nat, n: nat)
    ensures ShiftLeft(Pow2(w) - 1, n) == Pow2(w + n) - Pow2(n)
  {
    if n > 0 {
      ShiftedOnes(w, n - 1);
    }
  }

  lemma Mask6Value(prefix: nat)
    requires prefix <= 128
    ensures Pow2(BITS_6 - prefix) <= Pow2(BITS_6) && Mask6(prefix) == Pow2(BITS_6) - Pow2(BITS_6 - prefix)
  {
    Pow2Values();
    Pow2Monotone(128 - prefix, 128);
    if prefix > 0 {
      LowOfShifted(ALL_ONES, 128, 128 - prefix);
      LowOfOnes(prefix, 128);
      ShiftedOnes(prefix, 128 - prefix);
      AndOnes(ShiftLeft(ALL_ONES, 128 - prefix), 128);
    }
  }

  // ---- blocks ----

  /** The index of the aligned block of 2^(bits - prefix) addresses that holds `v`. */
  function Block(v: nat, bits: nat, prefix: nat): nat
    requires prefix <= bits
  {
    ShiftRight(v, bits - prefix)
  }

  /** Block `k` is the interval [k * 2^h, (k + 1) * 2^h). */
  lemma {:induction false} BlockBounds(v: nat, bits: nat, prefix: nat)
    requires prefix <= bits
    ensures var k, size := Block(v, bits, prefix), Pow2(bits - prefix);
            k * size <= v < (k + 1) * size
    decreases bits - prefix
  {
    if prefix < bits {
      var k, size := Block(v / 2, bits, prefix + 1), Pow2(bits - prefix - 1);
      BlockBounds(v / 2, bits, prefix + 1);
      DoubledBounds(k, size, v);
    }
  }

  lemma DoubledBounds(k: nat, size: int, v: nat)
    requires k * size <= v / 2 < (k + 1) * size
    ensures k * (2 * size) <= v < (k + 1) * (2 * size)
  {
    var x := k * size;
    assert (k + 1) * size == x + size;
    assert k * (2 * size) == 2 * x && (k + 1) * (2 * size) == 2 * x + 2 * size;
  }

  lemma MaskedEqual(v: nat, n: nat, bits: nat, prefix: nat, mask: nat)
    requires prefix <= bits && v < Pow2(bits) && n < Pow2(bits)
    requires mask == Pow2(bits) - Pow2(bits - prefix)
    ensures And(v, mask) == And(n, mask) <==> Block(v, bits, prefix) == Block(n, bits, prefix)
    ensures And(v, mask) <= v && And(n, mask) <= n
  {
    var h := bits - prefix;
    AndLeadingOnes(v, bits, h);
    AndLeadingOnes(n, bits, h);
    if And(v, mask) == And(n, mask) {
      ShiftLeftInjective(ShiftRight(v, h), ShiftRight(n, h), h);
    }
  }

  /** What a parsed range is: an address of its family and a prefix length. */
  ghost predicate IsRange(r: IpRange, prefix: nat) {
    match r
    case V4(network, mask) => prefix <= 32 && network < TWO_32 && mask == Mask4(prefix)
    case V6(network, mask) => prefix <= 128 && network < TWO_128 && mask == Mask6(prefix)
  }

  function Bits(r: IpRange): nat {
    if r.V4? then BITS_4 else BITS_6
  }

  /** The number an address text stands for in the range's family, if it has one. */
  function AddressIn(r: IpRange, address: string, isIP: IpVersion): (v: Option<nat>) {
    var normalized := NormalizeAddress(address);
    if r.V4? then (if isIP(normalized) == 4 then IPv4(normalized) else None)
    else if isIP(normalized) == 6 then IPv6(normalized) else None
  }

  lemma RangeAtIsRange(address: string, version: IpFamily, prefix: nat)
    requires prefix <= (if version == 4 then 32 else 128)
    ensures var r := RangeAt(address, version, prefix);
            r.Some? ==>
              && IsRange(r.value, prefix) && (r.value.V4? <==> version == 4)
              && Some(r.value.network) == if version == 4 then IPv4(address) else IPv6(address)
  {
    if version == 4 {
      IPv4Value(address);
    } else {
      IPv6Bounded(address);
    }
  }

  /** The prefix length a range's text names, or the full width when it names none. */
  function PrefixLength(entry: string, r: IpRange): nat
    requires PrefixPart(entry).Some? ==> AllDigits(PrefixPart(entry).value)
  {
    match PrefixPart(entry)
    case None => Bits(r)
    case Some(digits) => Decimal(digits)
  }

  /** Every range the parser returns has the prefix length its text names, and its
      network is the value of the text's own address. */
  lemma ParsedRangeIsRange(entry: string, isIP: IpVersion)
    requires ParseRange(entry, isIP).Some?
    ensures PrefixPart(entry).Some? ==> AllDigits(PrefixPart(entry).value)
    ensures var r := ParseRange(entry, isIP).value;
            && IsRange(r, PrefixLength(entry, r))
            && AddressIn(r, AddressPart(entry), isIP) == Some(r.network)
  {
    var address := NormalizeAddress(AddressPart(entry));
    var version := isIP(address);
    RangeAtIsRange(address, version,
                   if PrefixPart(entry).Some? then Decimal(PrefixPart(entry).value)
                   else if version == 4 then 32 else 128);
  }

  // ---- what the text of an entry comes to ----

  /** An address text with nothing to trim and no slash. */
  predicate PlainAddress(a: string) {
    a != "" && !IsSpace(a[0]) && !IsSpace(a[|a| - 1]) && '/' !in a
  }

  lemma FirstSlash(a: string, tail: string)
    requires '/' !in a
    ensures IndexOf(a + "/" + tail, '/') == |a|
  {
    var entry := a + "/" + tail;
    assert entry[|a|] == '/' && entry[..|a|] == a;
  }

  lemma SlashedParts(a: string, tail: string)
    requires PlainAddress(a) && (tail != "" ==> !IsSpace(tail[|tail| - 1]))
    ensures Trim(a + "/" + tail) == a + "/" + tail
    ensures AddressPart(a + "/" + tail) == a && PrefixPart(a + "/" + tail) == Some(tail)
  {
    var entry := a + "/" + tail;
    assert entry[0] == a[0] && entry[|a|] == '/';
    assert entry[|entry| - 1] == if tail == "" then '/' else tail[|tail| - 1];
    FirstSlash(a, tail);
    assert entry[..|a|] == a && entry[|a| + 1..] == tail;
  }

  /** The range of `n` leading bits around address `a`: there is one exactly if the family's
      parser takes the address and `n` is at most the family's width. */
  predicate IsRangeOf(parsed: Option<IpRange>, a: string, n: nat, isIP: IpVersion) {
    var address := NormalizeAddress(a);
    if isIP(address) == 4 && n <= 32 && IPv4(address).Some? then
      && parsed.Some? && parsed.value.V4? && parsed.value.network == IPv4(address).value
      && parsed.value.mask == 0x1_0000_0000 - Pow2(32 - n)
    else if isIP(address) == 6 && n <= 128 && IPv6(address).Some? then
      && parsed.Some? && parsed.value.V6? && parsed.value.network == IPv6(address).value
      && parsed.value.mask == 0x1_0000_0000_0000_0000_0000_0000_0000_0000 - Pow2(128 - n)
    else
      parsed.None?
  }

  lemma RangeAtIsRangeOf(a: string, n: nat, isIP: IpVersion)
    requires var version := isIP(NormalizeAddress(a)); version != 0 && n <= if version == 4 then 32 else 128
    ensures IsRangeOf(RangeAt(NormalizeAddress(a), isIP(NormalizeAddress(a)), n), a, n, isIP)
  {
    Pow2Values();
    if isIP(NormalizeAddress(a)) == 4 {
      Mask4Value(n);
    } else {
      Mask6Value(n);
    }
  }

  /** An address and a slash: one to three digits after it name the prefix length, and
      anything else is refused. */
  lemma SlashedEntry(a: string, tail: string, isIP: IpVersion)
    requires PlainAddress(a) && (tail != "" ==> !IsSpace(tail[|tail| - 1]))
    ensures var parsed := ParseRange(a + "/" + tail, isIP);
            if 1 <= |tail| <= 3 && forall i :: 0 <= i < |tail| ==> '0' <= tail[i] <= '9'
            then IsRangeOf(parsed, a, Decimal(tail), isIP)
            else parsed.None?
  {
    SlashedParts(a, tail);
    var version := isIP(NormalizeAddress(a));
    if version != 0 && OctetText(tail) && Decimal(tail) <= (if version == 4 then 32 else 128) {
      RangeAtIsRangeOf(a, Decimal(tail), isIP);
    }
  }

  /** So an address with the number `n` after the slash is the range of `n` leading bits. */
  lemma NumberedEntry(a: string, n: nat, isIP: IpVersion)
    requires PlainAddress(a)
    ensures IsRangeOf(ParseRange(a + "/" + ToDecimal(n), isIP), a, n, isIP)
  {
    DecimalRoundTrip(n);
    var digits := ToDecimal(n);
    assert IsDigit(digits[|digits| - 1]);
    SlashedEntry(a, digits, isIP);
  }

  /** An address alone is a range of itself. */
  lemma AddressEntry(a: string, isIP: IpVersion)
    requires PlainAddress(a)
    ensures IsRangeOf(ParseRange(a, isIP), a, if isIP(NormalizeAddress(a)) == 4 then 32 else 128, isIP)
  {
    assert AddressPart(a) == a && PrefixPart(a) == None;
    if isIP(NormalizeAddress(a)) != 0 {
      RangeAtIsRangeOf(a, if isIP(NormalizeAddress(a)) == 4 then 32 else 128, isIP);
    }
  }

  /** White space around an entry does not matter. */
  lemma PaddedEntry(before: string, entry: string, after: string, isIP: IpVersion)
    requires AllSpace(before) && AllSpace(after)
    requires entry != "" ==> !IsSpace(entry[0]) && !IsSpace(entry[|entry| - 1])
    ensures ParseRange(before + entry + after, isIP) == ParseRange(entry, isIP)
  {
    TrimPadded(before, entry, after);
    SameTrimSameRange(before + entry + after, entry, isIP);
  }

  lemma SameTrimSameRange(e: string, e': string, isIP: IpVersion)
    requires Trim(e) == Trim(e')
    ensures ParseRange(e, isIP) == ParseRange(e', isIP)
  {
    assert AddressPart(e) == AddressPart(e') && PrefixPart(e) == PrefixPart(e');
  }

  /** Exactly the dotted-mapped texts, with the four letters in either case, are shortened
      to their quads. */
  lemma NormalizedMappedText(letters: string, quad: string)
    requires |letters| == 4 && (forall i :: 0 <= i < 4 ==> letters[i] == 'f' || letters[i] == 'F') && DottedShape(quad)
    ensures NormalizeAddress("::" + letters + ":" + quad) == quad
  {
    var a := "::" + letters + ":" + quad;
    DottedHoldsNo(quad, ':');
    assert a[..2] == "::" && a[6] == ':' && a[7..] == quad;
    assert forall i :: 2 <= i < 6 ==> a[i] == letters[i - 2];
  }

  lemma NormalizedOtherText(a: string)
    requires NormalizeAddress(a) != a
    ensures exists letters, quad ::
              && |letters| == 4 && (forall i :: 0 <= i < 4 ==> letters[i] == 'f' || letters[i] == 'F')
              && DottedShape(quad) && a == "::" + letters + ":" + quad
  {
    var letters, quad := a[2..6], a[7..];
    assert forall i :: 0 <= i < 4 ==> letters[i] == a[i + 2];
    assert a == a[..2] + letters + [a[6]] + quad;
  }

  lemma AddressFits(r: IpRange, address: string, isIP: IpVersion)
    ensures AddressIn(r, address, isIP).Some? ==> AddressIn(r, address, isIP).value < Pow2(Bits(r))
  {
    Pow2Values();
    var normalized := NormalizeAddress(address);
    if r.V4? {
      IPv4Value(normalized);
    } else {
      IPv6Bounded(normalized);
    }
  }

  /** The comparison the source makes on the two numbers. */
  predicate SameUnderMask(r: IpRange, value: nat) {
    match r
    case V4(network, mask) => And32(value, mask) == And32(network, mask)
    case V6(network, mask) => And(value, mask) == And(network, mask)
  }

  lemma SameUnderMaskIsSameBlock(r: IpRange, prefix: nat, value: nat)
    requires IsRange(r, prefix) && value < Pow2(Bits(r))
    ensures SameUnderMask(r, value) <==> Block(value, Bits(r), prefix) == Block(r.network, Bits(r), prefix)
  {
    Pow2Values();
    if r.V4? {
      Mask4Value(prefix);
      MaskedEqual(value, r.network, BITS_4, prefix, r.mask);
      Int32Injective(And(value, r.mask), And(r.network, r.mask));
      ToUint32Small(value);
      ToUint32Small(r.network);
      ToUint32Small(r.mask);
    } else {
      Mask6Value(prefix);
      MaskedEqual(value, r.network, BITS_6, prefix, r.mask);
    }
  }

  lemma ToUint32Small(a: nat)
    requires a < TWO_32
    ensures ToUint32(a) == a
  {
  }

  /** The signed results of `&` compare as the unsigned ones do. */
  lemma Int32Injective(a: nat, b: nat)
    requires a < TWO_32 && b < TWO_32
    ensures ToInt32(a) == ToInt32(b) <==> a == b
  {
  }

  /** An address matches a range exactly when both lie in the same aligned block of
      2^(bits - prefix) addresses of the range's family. */
  lemma MatchIsSameBlock(r: IpRange, prefix: nat, address: string, isIP: IpVersion)
    requires IsRange(r, prefix)
    ensures var v := AddressIn(r, address, isIP);
            RangeMatches(r, address, isIP)
            <==> v.Some? && Block(v.value, Bits(r), prefix) == Block(r.network, Bits(r), prefix)
  {
    var v := AddressIn(r, address, isIP);
    AddressFits(r, address, isIP);
    assert RangeMatches(r, address, isIP) <==> v.Some? && SameUnderMask(r, v.value);
    if v.Some? {
      SameUnderMaskIsSameBlock(r, prefix, v.value);
    }
  }

  /** End to end: a parsed entry matches an address exactly when the address and the one
      the entry names lie in the same block of the prefix length it names. */
  lemma EntryMatchesItsBlock(entry: string, address: string, isIP: IpVersion)
    requires ParseRange(entry, isIP).Some?
    ensures PrefixPart(entry).Some? ==> AllDigits(PrefixPart(entry).value)
    ensures var r := ParseRange(entry, isIP).value;
            var prefix := PrefixLength(entry, r);
            var own, v := AddressIn(r, AddressPart(entry), isIP), AddressIn(r, address, isIP);
            && prefix <= Bits(r) && own.Some?
            && (RangeMatches(r, address, isIP)
                <==> v.Some? && Block(v.value, Bits(r), prefix) == Block(own.value, Bits(r), prefix))
  {
    ParsedRangeIsRange(entry, isIP);
    var r := ParseRange(entry, isIP).value;
    MatchIsSameBlock(r, PrefixLength(entry, r), address, isIP);
  }

  lemma {:induction false} ShiftRightAll(v: nat, w: nat)
    requires v < Pow2(w)
    ensures ShiftRight(v, w) == 0
  {
    if w > 0 {
      ShiftRightAll(v / 2, w - 1);
    }
  }

  /** A zero prefix matches the whole family. */
  lemma ZeroPrefixMatchesAll(r: IpRange, address: string, isIP: IpVersion)
    requires IsRange(r, 0)
    ensures RangeMatches(r, address, isIP) <==> AddressIn(r, address, isIP).Some?
  {
    var v := AddressIn(r, address, isIP);
    MatchIsSameBlock(r, 0, address, isIP);
    AddressFits(r, address, isIP);
    Pow2Values();
    ShiftRightAll(r.network, Bits(r));
    if v.Some? {
      ShiftRightAll(v.value, Bits(r));
    }
  }

  // ---- nesting ----

  lemma {:induction false} ShiftRightTwice(v: nat, a: nat, b: nat)
    ensures ShiftRight(v, a + b) == ShiftRight(ShiftRight(v, a), b)
    decreases a
  {
    if a > 0 {
      ShiftRightTwice(v / 2, a - 1, b);
    }
  }

  lemma BlockOfBlock(v: nat, bits: nat, wide: nat, narrow: nat)
    requires wide <= narrow <= bits
    ensures Block(v, bits, wide) == ShiftRight(Block(v, bits, narrow), narrow - wide)
  {
    ShiftRightTwice(v, bits - narrow, narrow - wide);
  }

  ghost predicate Inside(inner: IpRange, outer: IpRange, isIP: IpVersion) {
    forall a: string :: RangeMatches(inner, a, isIP) ==> RangeMatches(outer, a, isIP)
  }

  ghost predicate Disjoint(r: IpRange, s: IpRange, isIP: IpVersion) {
    forall a: string :: !(RangeMatches(r, a, isIP) && RangeMatches(s, a, isIP))
  }

  /** Of two ranges of one family, the narrower lies inside the wider or outside it. */
  lemma NarrowerInsideOrDisjoint(wide: IpRange, p: nat, narrow: IpRange, q: nat, isIP: IpVersion)
    requires IsRange(wide, p) && IsRange(narrow, q) && p <= q && wide.V4? == narrow.V4?
    ensures Inside(narrow, wide, isIP) || Disjoint(wide, narrow, isIP)
  {
    var bits := Bits(wide);
    var same := Block(narrow.network, bits, p) == Block(wide.network, bits, p);
    forall a: string
      ensures same && RangeMatches(narrow, a, isIP) ==> RangeMatches(wide, a, isIP)
      ensures !same ==> !(RangeMatches(wide, a, isIP) && RangeMatches(narrow, a, isIP))
    {
      MatchIsSameBlock(wide, p, a, isIP);
      MatchIsSameBlock(narrow, q, a, isIP);
      var v := AddressIn(wide, a, isIP);
      if v.Some? {
        BlockOfBlock(v.value, bits, p, q);
        BlockOfBlock(narrow.network, bits, p, q);
      }
    }
  }

  /** Any two configured ranges are nested or disjoint. */
  lemma RangesNestOrAreDisjoint(entry: string, entry': string, isIP: IpVersion)
    requires ParseRange(entry, isIP).Some? && ParseRange(entry', isIP).Some?
    ensures var r, s := ParseRange(entry, isIP).value, ParseRange(entry', isIP).value;
            Inside(r, s, isIP) || Inside(s, r, isIP) || Disjoint(r, s, isIP)
  {
    var r, s := ParseRange(entry, isIP).value, ParseRange(entry', isIP).value;
    ParsedRangeIsRange(entry, isIP);
    ParsedRangeIsRange(entry', isIP);
    var p, q := PrefixLength(entry, r), PrefixLength(entry', s);
    if r.V4? == s.V4? {
      if p <= q {
        NarrowerInsideOrDisjoint(r, p, s, q, isIP);
      } else {
        NarrowerInsideOrDisjoint(s, q, r, p, isIP);
      }
    }
  }

  // ---- IPv4-mapped addresses (RFC 4291 section 2.5.5.2) ----

  /** The mapped text of a dotted quad matches every range exactly as the quad does. */
  lemma MappedMatchesAsIPv4(r: IpRange, mapped: string, isIP: IpVersion)
    requires IsMapped(mapped)
    ensures NormalizeAddress(mapped[7..]) == NormalizeAddress(mapped) == mapped[7..]
    ensures RangeMatches(r, mapped, isIP) == RangeMatches(r, mapped[7..], isIP)
  {
    DottedHoldsNo(mapped[7..], ':');
    assert !IsMapped(mapped[7..]) by {
      assert |mapped[7..]| >= 7 ==> mapped[7..][6] in mapped[7..];
    }
  }

  /** Matching is a matter of the text, not of the 128-bit value alone: for an IPv6 range, an
      address accepted as IPv6 matches by its value exactly if it is not dotted-mapped text,
      since that is matched as an IPv4 address.  Nothing made of digits and dots is IPv6. */
  lemma IPv6MatchIsByValueExactlyWhen(r: IpRange, prefix: nat, address: string, isIP: IpVersion)
    requires r.V6? && IsRange(r, prefix) && isIP(address) == 6 && IPv6(address).Some?
    requires IsMapped(address) ==> isIP(address[7..]) != 6
    ensures RangeMatches(r, address, isIP) <==>
            !IsMapped(address) && Block(IPv6(address).value, BITS_6, prefix) == Block(r.network, BITS_6, prefix)
  {
    MatchIsSameBlock(r, prefix, address, isIP);
  }

  /** For example, `::ffff:d.d.d.d` matches no IPv6 range, not even one that holds every
      address, although its value lies in it. */
  lemma MappedTextIsInNoIPv6Range(quad: string, isIP: IpVersion)
    requires IPv4(quad).Some? && isIP(quad) != 6
    ensures forall r: IpRange :: r.V6? ==> !RangeMatches(r, "::ffff:" + quad, isIP)
    ensures IPv6("::ffff:" + quad).Some? && Block(IPv6("::ffff:" + quad).value, BITS_6, 0) == Block(0, BITS_6, 0)
  {
    var text := "::ffff:" + quad;
    IPv4Value(quad);
    assert text[7..] == quad && text[..2] == "::";
    assert IsMapped(text);
    MappedValue(quad);
    Pow2Values();
    ShiftRightAll(IPv6(text).value, BITS_6);
    ShiftRightAll(0, BITS_6);
  }

  /** Read as an IPv6 address, the mapped text is ::ffff:0:0/96 plus the quad. */
  lemma MappedValue(quad: string)
    requires IPv4(quad).Some?
    ensures IPv6("::ffff:" + quad) == Some(0xffff_0000_0000 + IPv4(quad).value)
  {
    var h := Zeros(5) + ["ffff"];
    var g: seq<nat> := [0, 0, 0, 0, 0, 0xffff];
    MappedGroupsSpell(h, g);
    MappedText(h, g, quad, "::ffff:" + quad, IPv4(quad).value);
    ValueOfFfff(g);
  }

  lemma MappedText(h: seq<string>, g: seq<nat>, quad: string, text: string, v4: nat)
    requires h == Zeros(5) + ["ffff"] && Spells(h, g) && IPv4(quad) == Some(v4) && text == "::ffff:" + quad
    requires forall i :: 0 <= i < 5 ==> g[i] == 0
    ensures IPv6(text) == Some(Value(g) * 0x1_0000_0000 + v4)
  {
    MappedTextJoin(h, quad);
    CompressedMixedForm(h, g, 0, 5, quad, v4);
  }

  lemma MappedGroupsSpell(h: seq<string>, g: seq<nat>)
    requires h == Zeros(5) + ["ffff"] && g == [0, 0, 0, 0, 0, 0xffff]
    ensures Spells(h, g)
  {
    FfffGroup();
    assert "0"[..0] == "";
    assert Hexadecimal("0") == 0;
  }

  lemma MappedTextJoin(h: seq<string>, quad: string)
    requires h == Zeros(5) + ["ffff"]
    ensures Join(h[..0], ":") + "::" + Join(h[5..] + [quad], ":") == "::ffff:" + quad
  {
    assert h[5..] + [quad] == ["ffff", quad];
    assert ["ffff", quad][1..] == [quad];
    assert Join(["ffff", quad], ":") == "ffff:" + quad;
  }

  lemma FfffGroup()
    ensures HexGroup("ffff") && Hexadecimal("ffff") == 0xffff
  {
    assert "ffff"[..3] == "fff" && "fff"[..2] == "ff" && "ff"[..1] == "f" && "f"[..0] == "";
    assert Hexadecimal("f") == 0xf;
    assert Hexadecimal("ff") == 0xff;
    assert Hexadecimal("fff") == 0xfff;
  }

  lemma ValueOfFfff(g: seq<nat>)
    requires g == [0, 0, 0, 0, 0, 0xffff]
    ensures Value(g) == 0xffff
  {
    ValueStep(g, 5); ValueStep(g, 4); ValueStep(g, 3); ValueStep(g, 2); ValueStep(g, 1); ValueStep(g, 0);
    assert g[..6] == g && g[..0] == [];
  }

  // ---- loading the list ----

  /** The parsed ranges and the rejected texts of a list of entries, each in order. */
  function Parsed(entries: seq<string>, isIP: IpVersion): seq<IpRange> {
    if entries == [] then [] else Kept(ParseRange(entries[0], isIP)) + Parsed(entries[1..], isIP)
  }

  function Rejected(entries: seq<string>, isIP: IpVersion): seq<string> {
    if entries == [] then [] else Dropped(entries[0], ParseRange(entries[0], isIP)) + Rejected(entries[1..], isIP)
  }

  function Kept(parsed: Option<IpRange>): seq<IpRange> {
    if parsed.Some? then [parsed.value] else []
  }

  function Dropped(entry: string, parsed: Option<IpRange>): seq<string> {
    if parsed.Some? then [] else [entry]
  }

  function Entries(raw: string): seq<string> {
    NonEmpty(Split(raw, ","))
  }

  function NonEmpty(parts: seq<string>): seq<string> {
    if parts == [] then [] else Item(Trim(parts[0])) + NonEmpty(parts[1..])
  }

  function Item(trimmed: string): seq<string> {
    if trimmed != "" then [trimmed] else []
  }

  /** The list is in force only while it holds a range. */
  datatype AllowlistConfig = AllowlistConfig(ranges: seq<IpRange>, invalidEntries: seq<string>, enabled: bool)

  method ParseEntries(entries: seq<string>, isIP: IpVersion)
    returns (ranges: seq<IpRange>, invalidEntries: seq<string>)
    ensures ranges == Parsed(entries, isIP)
    ensures invalidEntries == Rejected(entries, isIP)
  {
    ranges, invalidEntries := [], [];
    assert entries[0..] == entries;
    for i := 0 to |entries|
      invariant Sorted(entries, i, ranges, invalidEntries, isIP)
    {
      AllowlistStep(entries, i, ranges, invalidEntries, isIP);
      var parsed := ParseRange(entries[i], isIP);
      if parsed.Some? {
        ranges := ranges + [parsed.value];
      } else {
        invalidEntries := invalidEntries + [entries[i]];
      }
    }
  }

  /** After the first `i` entries, what is left to sort completes the two lists. */
  predicate Sorted(entries: seq<string>, i: nat, ranges: seq<IpRange>, invalidEntries: seq<string>, isIP: IpVersion)
    requires i <= |entries|
  {
    && Parsed(entries, isIP) == ranges + Parsed(entries[i..], isIP)
    && Rejected(entries, isIP) == invalidEntries + Rejected(entries[i..], isIP)
  }

  method LoadAllowlist(raw: string, isIP: IpVersion) returns (config: AllowlistConfig)
    ensures config == ConfigOf(raw, isIP)
  {
    var ranges, invalidEntries := ParseEntries(Entries(raw), isIP);
    config := AllowlistConfig(ranges, invalidEntries, |ranges| > 0);
  }

  function ConfigOf(raw: string, isIP: IpVersion): AllowlistConfig {
    AllowlistConfig(Parsed(Entries(raw), isIP), Rejected(Entries(raw), isIP), Parsed(Entries(raw), isIP) != [])
  }

  lemma AllowlistStep(entries: seq<string>, i: nat, ranges: seq<IpRange>, invalidEntries: seq<string>, isIP: IpVersion)
    requires i < |entries| && Sorted(entries, i, ranges, invalidEntries, isIP)
    ensures match ParseRange(entries[i], isIP)
            case Some(range) => Sorted(entries, i + 1, ranges + [range], invalidEntries, isIP)
            case None => Sorted(entries, i + 1, ranges, invalidEntries + [entries[i]], isIP)
  {
    var parsed := ParseRange(entries[i], isIP);
    assert entries[i..][0] == entries[i] && entries[i..][1..] == entries[i + 1..];
    Associate(ranges, Kept(parsed), Parsed(entries[i + 1..], isIP));
    Associate(invalidEntries, Dropped(entries[i], parsed), Rejected(entries[i + 1..], isIP));
    assert ranges + Kept(parsed) == if parsed.Some? then ranges + [parsed.value] else ranges;
    assert invalidEntries + Dropped(entries[i], parsed)
        == if parsed.Some? then invalidEntries else invalidEntries + [entries[i]];
  }

  lemma Associate<T>(a: seq<T>, b: seq<T>, c: seq<T>)
    ensures a + (b + c) == a + b + c
  {
  }

  lemma ParsedFirst(a: seq<string>, b: seq<string>, isIP: IpVersion)
    requires a != []
    ensures var first := ParseRange(a[0], isIP);
            && Parsed(a, isIP) == Kept(first) + Parsed(a[1..], isIP)
            && Parsed(a + b, isIP) == Kept(first) + Parsed(a[1..] + b, isIP)
            && Rejected(a, isIP) == Dropped(a[0], first) + Rejected(a[1..], isIP)
            && Rejected(a + b, isIP) == Dropped(a[0], first) + Rejected(a[1..] + b, isIP)
  {
    assert (a + b)[0] == a[0] && (a + b)[1..] == a[1..] + b;
  }

  /** Both lists keep the order of the entries. */
  lemma {:induction false} OrderIsKept(a: seq<string>, b: seq<string>, isIP: IpVersion)
    ensures Parsed(a + b, isIP) == Parsed(a, isIP) + Parsed(b, isIP)
    ensures Rejected(a + b, isIP) == Rejected(a, isIP) + Rejected(b, isIP)
  {
    if a == [] {
      NothingInFront(Parsed(b, isIP));
      NothingInFront(Rejected(b, isIP));
      NothingInFront(b);
    } else {
      var first := ParseRange(a[0], isIP);
      ParsedFirst(a, b, isIP);
      OrderIsKept(a[1..], b, isIP);
      Associate(Kept(first), Parsed(a[1..], isIP), Parsed(b, isIP));
      Associate(Dropped(a[0], first), Rejected(a[1..], isIP), Rejected(b, isIP));
    }
  }

  lemma NothingInFront<T>(b: seq<T>)
    ensures [] + b == b
  {
  }

  /** A single entry gives its range, or is rejected. */
  lemma OneEntry(entry: string, isIP: IpVersion)
    ensures match ParseRange(entry, isIP)
            case Some(range) => Parsed([entry], isIP) == [range] && Rejected([entry], isIP) == []
            case None => Parsed([entry], isIP) == [] && Rejected([entry], isIP) == [entry]
  {
    assert [entry][1..] == [];
  }

  /** `ranges.some(...)` */
  predicate Admits(ranges: seq<IpRange>, address: string, isIP: IpVersion) {
    ranges != [] && (RangeMatches(ranges[0], address, isIP) || Admits(ranges[1..], address, isIP))
  }

  predicate Covers(entry: string, address: string, isIP: IpVersion) {
    var r := ParseRange(entry, isIP);
    r.Some? && RangeMatches(r.value, address, isIP)
  }

  predicate Covered(entries: seq<string>, address: string, isIP: IpVersion) {
    entries != [] && (Covers(entries[0], address, isIP) || Covered(entries[1..], address, isIP))
  }

  /** An address is on the list exactly when some well-formed entry covers it, and no
      entry is lost.  Whether the list is in force at all is up to the gate below. */
  lemma OnlyValidEntriesAdmit(entries: seq<string>, address: string, isIP: IpVersion)
    ensures Admits(Parsed(entries, isIP), address, isIP) <==> exists e :: e in entries && Covers(e, address, isIP)
    ensures |Parsed(entries, isIP)| + |Rejected(entries, isIP)| == |entries|
  {
    AdmitsIsCovered(entries, address, isIP);
    if e :| e in entries && Covers(e, address, isIP) {
      CoveredByOne(entries, e, address, isIP);
    }
    if Covered(entries, address, isIP) {
      var e := CoveringEntry(entries, address, isIP);
    }
  }

  lemma {:induction false} AdmitsIsCovered(entries: seq<string>, address: string, isIP: IpVersion)
    ensures Admits(Parsed(entries, isIP), address, isIP) <==> Covered(entries, address, isIP)
    ensures |Parsed(entries, isIP)| + |Rejected(entries, isIP)| == |entries|
  {
    if entries != [] {
      AdmitsIsCovered(entries[1..], address, isIP);
      AdmitsFirst(ParseRange(entries[0], isIP), Parsed(entries[1..], isIP), address, isIP);
    }
  }

  lemma AdmitsFirst(first: Option<IpRange>, rest: seq<IpRange>, address: string, isIP: IpVersion)
    ensures Admits(Kept(first) + rest, address, isIP) <==>
            (first.Some? && RangeMatches(first.value, address, isIP)) || Admits(rest, address, isIP)
  {
    if first.Some? {
      assert ([first.value] + rest)[1..] == rest;
    } else {
      assert [] + rest == rest;
    }
  }

  lemma {:induction false} CoveredByOne(entries: seq<string>, e: string, address: string, isIP: IpVersion)
    requires e in entries && Covers(e, address, isIP)
    ensures Covered(entries, address, isIP)
  {
    if e != entries[0] {
      CoveredByOne(entries[1..], e, address, isIP);
    }
  }

  lemma {:induction false} CoveringEntry(entries: seq<string>, address: string, isIP: IpVersion) returns (e: string)
    requires Covered(entries, address, isIP)
    ensures e in entries && Covers(e, address, isIP)
  {
    if Covers(entries[0], address, isIP) {
      e := entries[0];
    } else {
      e := CoveringEntry(entries[1..], address, isIP);
    }
  }

  // ---- reading the list ----

  lemma {:induction false} NonEmptyOfTrimmed(parts: seq<string>, es: seq<string>)
    requires |parts| == |es| && forall i :: 0 <= i < |es| ==> Trim(parts[i]) == es[i] != ""
    ensures NonEmpty(parts) == es
  {
    if parts != [] {
      NonEmptyOfTrimmed(parts[1..], es[1..]);
      assert [es[0]] + es[1..] == es;
    }
  }

  /** The entries of a comma-separated list are its items in order, without the white
      space around them. */
  lemma EntriesOfList(parts: seq<string>, es: seq<string>)
    requires parts != [] && |parts| == |es|
    requires forall i :: 0 <= i < |es| ==> ',' !in parts[i] && Trim(parts[i]) == es[i] != ""
    ensures Entries(Join(parts, ",")) == es
  {
    EntriesOfJoined(parts);
    NonEmptyOfTrimmed(parts, es);
  }

  predicate NoCommas(parts: seq<string>) {
    forall i :: 0 <= i < |parts| ==> ',' !in parts[i]
  }

  lemma EntriesOfJoined(parts: seq<string>)
    requires parts != [] && NoCommas(parts)
    ensures Entries(Join(parts, ",")) == NonEmpty(parts)
  {
    SplitJoin(parts, ",");
  }

  lemma {:induction false} NonEmptyAppend(a: seq<string>, b: seq<string>)
    ensures NonEmpty(a + b) == NonEmpty(a) + NonEmpty(b)
  {
    if a == [] {
      assert a + b == b;
      assert [] + NonEmpty(b) == NonEmpty(b);
    } else {
      NonEmptyAppend(a[1..], b);
      assert (a + b)[0] == a[0] && (a + b)[1..] == a[1..] + b;
      Associate(Item(Trim(a[0])), NonEmpty(a[1..]), NonEmpty(b));
    }
  }

  lemma NonEmptySkips(a: seq<string>, blank: string, b: seq<string>)
    requires Trim(blank) == ""
    ensures NonEmpty(a + [blank] + b) == NonEmpty(a + b)
  {
    NonEmptyAppend(a + [blank], b);
    NonEmptyAppend(a, [blank]);
    NonEmptyAppend(a, b);
    assert [blank][1..] == [];
    assert NonEmpty([blank]) == [];
    assert NonEmpty(a) + [] == NonEmpty(a);
  }

  /** Blank items are skipped. */
  lemma BlankItemsAreSkipped(a: seq<string>, blank: string, b: seq<string>)
    requires AllSpace(blank) && a + b != []
    requires NoCommas(a) && NoCommas(b)
    ensures Entries(Join(a + [blank] + b, ",")) == Entries(Join(a + b, ","))
  {
    BlankTrimmed(blank);
    assert NoCommas([blank]);
    EntriesOfJoined(a + [blank] + b);
    EntriesOfJoined(a + b);
    NonEmptySkips(a, blank, b);
  }

  lemma BlankTrimmed(blank: string)
    requires AllSpace(blank)
    ensures Trim(blank) == "" && ',' !in blank
  {
    TrimPadded(blank, "", "");
    assert blank + "" + "" == blank;
  }

  // ---- the gate ----

  /** Who gets past: anyone while the list is not in force, an address on the list, and
      whoever carries a valid signed override. */
  predicate PassesGate(config: AllowlistConfig, clientIp: string, overridden: bool, isIP: IpVersion) {
    !config.enabled || (clientIp != "" && Admits(config.ranges, clientIp, isIP)) || overridden
  }

  ghost predicate SomeEntryParses(raw: string, isIP: IpVersion) {
    exists e :: e in Entries(raw) && ParseRange(e, isIP).Some?
  }

  ghost predicate SomeEntryCovers(raw: string, clientIp: string, isIP: IpVersion) {
    exists e :: e in Entries(raw) && Covers(e, clientIp, isIP)
  }

  lemma {:induction false} ParsedIsEmptyExactlyWhen(entries: seq<string>, isIP: IpVersion)
    ensures Parsed(entries, isIP) == [] <==> forall e :: e in entries ==> ParseRange(e, isIP).None?
  {
    if entries != [] {
      ParsedIsEmptyExactlyWhen(entries[1..], isIP);
      assert forall e :: e in entries <==> e == entries[0] || e in entries[1..];
    }
  }

  /** The gate over the configured text: without an override, it lets an address through
      exactly if an entry covers it or no entry parses at all. */
  lemma GatePassesExactlyWhen(raw: string, clientIp: string, overridden: bool, isIP: IpVersion)
    ensures PassesGate(ConfigOf(raw, isIP), clientIp, overridden, isIP) <==>
            overridden || !SomeEntryParses(raw, isIP) || (clientIp != "" && SomeEntryCovers(raw, clientIp, isIP))
  {
    ParsedIsEmptyExactlyWhen(Entries(raw), isIP);
    OnlyValidEntriesAdmit(Entries(raw), clientIp, isIP);
  }

  /** That a bad entry never widens the policy - whoever passes without an override is
      covered by a well-formed entry - holds exactly if some entry parses. */
  lemma PolicyHoldsExactlyWhen(raw: string, clientIp: string, isIP: IpVersion)
    ensures (PassesGate(ConfigOf(raw, isIP), clientIp, false, isIP) ==> SomeEntryCovers(raw, clientIp, isIP))
       <==> SomeEntryParses(raw, isIP)
  {
    GatePassesExactlyWhen(raw, clientIp, false, isIP);
  }

  /** A list of one entry that is no address lets everyone through. */
  lemma BadListAdmitsEveryone(raw: string, clientIp: string, isIP: IpVersion)
    requires raw != "" && !IsSpace(raw[0]) && !IsSpace(raw[|raw| - 1])
    requires forall c :: c in raw ==> c !in {',', '.', ':', '/', '%'}
    ensures ConfigOf(raw, isIP).invalidEntries == [raw]
    ensures PassesGate(ConfigOf(raw, isIP), clientIp, false, isIP) && !SomeEntryCovers(raw, clientIp, isIP)
  {
    SplitWhole(raw, ",");
    assert NonEmpty([raw]) == [raw] by {
      assert [raw][1..] == [];
    }
    WordIsMalformed(raw, isIP);
    assert Rejected([raw], isIP) == [raw] by {
      assert [raw][1..] == [];
    }
    PolicyHoldsExactlyWhen(raw, clientIp, isIP);
    GatePassesExactlyWhen(raw, clientIp, false, isIP);
  }

  lemma WordIsMalformed(entry: string, isIP: IpVersion)
    requires entry != "" && !IsSpace(entry[0]) && !IsSpace(entry[|entry| - 1])
    requires forall c :: c in entry ==> c !in {',', '.', ':', '/', '%'}
    ensures ParseRange(entry, isIP).None?
  {
    assert NormalizeAddress(entry) == entry by {
      assert |entry| >= 7 ==> entry[6] in entry;
    }
    SplitWhole(entry, ".");
    PlainText(entry);
    SplitWhole(entry, ":");
    FreeHasNoDouble(entry, ':');
    assert "::" == [':', ':'];
  }

  /** For example, this one. */
  lemma GarbageAdmitsEveryone(clientIp: string, isIP: IpVersion)
    ensures PassesGate(ConfigOf("garbage", isIP), clientIp, false, isIP) && !SomeEntryCovers("garbage", clientIp, isIP)
  {
    BadListAdmitsEveryone("garbage", clientIp, isIP);
  }
}
