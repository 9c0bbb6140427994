/** The string operations the configuration and address parsers rest on. */
module Text {
  import opened Wrappers

  predicate StartsWith(s: string, prefix: string) {
    |prefix| <= |s| && s[..|prefix|] == prefix
  }

  predicate EndsWith(s: string, suffix: string) {
    |suffix| <= |s| && s[|s| - |suffix|..] == suffix
  }

  predicate Includes(s: string, part: string) {
    StartsWith(s, part) || (s != "" && Includes(s[1..], part))
  }

  /** JavaScript's `s.split(sep)` for a non-empty separator. */
  function Split(s: string, sep: string): (parts: seq<string>)
    requires sep != ""
    ensures parts != []
    decreases |s|
  {
    if StartsWith(s, sep) then [""] + Split(s[|sep|..], sep)
    else if s == "" then [""]
    else Prepended(s[0], Split(s[1..], sep))
  }

  function Prepended(c: char, parts: seq<string>): (r: seq<string>)
    requires parts != []
    ensures |r| == |parts|
  {
    [[c] + parts[0]] + parts[1..]
  }

  lemma PrependedAppend(c: char, a: seq<string>, b: seq<string>)
    requires a != []
    ensures Prepended(c, a + b) == Prepended(c, a) + b
  {
    assert (a + b)[1..] == a[1..] + b;
  }

  function Join(parts: seq<string>, sep: string): string {
    if parts == [] then ""
    else if |parts| == 1 then parts[0]
    else parts[0] + sep + Join(parts[1..], sep)
  }

  lemma JoinPrepended(c: char, parts: seq<string>, sep: string)
    requires parts != []
    ensures Join(Prepended(c, parts), sep) == [c] + Join(parts, sep)
  {
    assert Prepended(c, parts)[1..] == parts[1..];
  }

  lemma {:induction false} JoinSplit(s: string, sep: string)
    requires sep != ""
    ensures Join(Split(s, sep), sep) == s
    decreases |s|
  {
    if StartsWith(s, sep) {
      var tail := s[|sep|..];
      JoinSplit(tail, sep);
      JoinEmptyFirst(Split(tail, sep), sep);
      assert s == sep + tail;
    } else if s != "" {
      JoinSplit(s[1..], sep);
      JoinPrepended(s[0], Split(s[1..], sep), sep);
      assert s == [s[0]] + s[1..];
    }
  }

  lemma JoinEmptyFirst(parts: seq<string>, sep: string)
    requires parts != []
    ensures Join([""] + parts, sep) == sep + Join(parts, sep)
  {
    assert ([""] + parts)[1..] == parts;
  }

  /** Splitting at one character separates what the character separates. */
  lemma {:induction false} SplitAt(a: string, sep: string, b: string)
    requires |sep| == 1
    ensures Split(a + sep + b, sep) == Split(a, sep) + Split(b, sep)
  {
    var s := a + sep + b;
    if a == "" {
      assert s[..1] == sep && s[1..] == b;
    } else {
      assert s[..1] == a[..1] && s[1..] == a[1..] + sep + b;
      SplitAt(a[1..], sep, b);
      PrependedAppend(a[0], Split(a[1..], sep), Split(b, sep));
    }
  }

  lemma {:induction false} SplitWhole(s: string, sep: string)
    requires |sep| == 1 && sep[0] !in s
    ensures Split(s, sep) == [s]
  {
    if s != "" {
      assert s[0] in s && s[..1] == [s[0]];
      SplitWhole(s[1..], sep);
      assert [s[0]] + s[1..] == s;
    }
  }

  lemma {:induction false} SplitJoin(parts: seq<string>, sep: string)
    requires |sep| == 1 && parts != [] && forall i :: 0 <= i < |parts| ==> sep[0] !in parts[i]
    ensures Split(Join(parts, sep), sep) == parts
  {
    SplitWhole(parts[0], sep);
    if |parts| > 1 {
      SplitJoin(parts[1..], sep);
      SplitAt(parts[0], sep, Join(parts[1..], sep));
    }
  }

  /** Characters of the pieces come from the whole. */
  lemma {:induction false} JoinFree(parts: seq<string>, sep: string, c: char)
    requires c !in sep && forall i :: 0 <= i < |parts| ==> c !in parts[i]
    ensures c !in Join(parts, sep)
  {
    if |parts| > 1 {
      JoinFree(parts[1..], sep, c);
    }
  }

  lemma {:induction false} JoinAppend(a: seq<string>, b: seq<string>, sep: string)
    requires a != [] && b != []
    ensures Join(a + b, sep) == Join(a, sep) + sep + Join(b, sep)
  {
    if |a| == 1 {
      assert (a + b)[1..] == b;
    } else {
      assert (a + b)[1..] == a[1..] + b;
      JoinAppend(a[1..], b, sep);
    }
  }

  // ---- the double-colon separator ----

  /** Two texts around a lone separator `cc`: neither holds one, nor touches it with a `c`. */
  lemma {:induction false} SplitTwo(a: string, c: char, sep: string, b: string)
    requires sep == [c, c] && !Includes(a, sep) && !Includes(b, sep)
    requires a != "" ==> a[|a| - 1] != c
    requires b != "" ==> b[0] != c
    ensures Split(a + sep + b, sep) == [a, b]
    ensures Includes(a + sep + b, sep)
  {
    var s := a + sep + b;
    if a == "" {
      assert s[..2] == sep && s[2..] == b;
      SplitNone(b, sep);
    } else {
      assert s[1..] == a[1..] + sep + b;
      if |a| > 1 {
        assert a[1..][|a| - 2] == a[|a| - 1];
      }
      SplitTwo(a[1..], c, sep, b);
      assert s[0] == a[0];
      assert !StartsWith(s, sep) by {
        assert s[..2] == [s[0], s[1]];
        if |a| > 1 {
          assert a[..2] == s[..2];
        }
      }
      assert [a[0]] + a[1..] == a;
    }
  }

  lemma {:induction false} SplitNone(s: string, sep: string)
    requires sep != ""
    ensures !Includes(s, sep) ==> Split(s, sep) == [s]
    ensures Includes(s, sep) ==> |Split(s, sep)| > 1
  {
    if s != "" {
      SplitNone(s[1..], sep);
      assert [s[0]] + s[1..] == s;
    }
  }

  /** Non-empty pieces without `c`, joined by single `c`s, hold no double one. */
  lemma {:induction false} JoinHasNoDouble(parts: seq<string>, c: char)
    requires forall i :: 0 <= i < |parts| ==> parts[i] != "" && c !in parts[i]
    ensures var s := Join(parts, [c]); !Includes(s, [c, c]) && (s != "" ==> s[0] != c && s[|s| - 1] != c)
    ensures Join(parts, [c]) == "" <==> parts == []
  {
    if |parts| == 1 {
      FreeHasNoDouble(parts[0], c);
    } else if |parts| > 1 {
      JoinHasNoDouble(parts[1..], c);
      NoDoubleAcross(parts[0], c, Join(parts[1..], [c]));
    }
  }

  lemma {:induction false} FreeHasNoDouble(s: string, c: char)
    requires c !in s
    ensures !Includes(s, [c, c])
  {
    if s != "" {
      FreeHasNoDouble(s[1..], c);
      assert s[0] in s;
    }
  }

  lemma {:induction false} NoDoubleAcross(a: string, c: char, b: string)
    requires c !in a && !Includes(b, [c, c])
    requires b != "" && b[0] != c
    ensures !Includes(a + [c] + b, [c, c])
  {
    var s := a + [c] + b;
    if a == "" {
      assert s[1..] == b;
      assert s[1] == b[0] && (|s| >= 2 ==> s[..2] == [s[0], s[1]]);
    } else {
      NoDoubleAcross(a[1..], c, b);
      assert s[1..] == a[1..] + [c] + b;
      assert s[0] == a[0] && a[0] in a;
      assert s[..2] == [s[0], s[1]];
    }
  }

  // ---- trimming and searching ----

  /** The white space and line terminators that `String.prototype.trim` removes. */
  predicate IsSpace(c: char) {
    var n := c as int;
    n in {0x09, 0x0a, 0x0b, 0x0c, 0x0d, 0x20, 0xa0, 0x1680, 0x2028, 0x2029, 0x202f, 0x205f, 0x3000, 0xfeff}
      || 0x2000 <= n <= 0x200a
  }

  /** The ASCII white space is trimmed, and nothing that is printed in ASCII. */
  lemma AsciiSpace(c: char)
    ensures 0x21 <= c as int <= 0x7e ==> !IsSpace(c)
    ensures c in " \t\n\r" ==> IsSpace(c)
  {
  }

  function Trim(s: string): (t: string)
    ensures t != "" ==> !IsSpace(t[0]) && !IsSpace(t[|t| - 1])
    ensures s != "" && !IsSpace(s[0]) && !IsSpace(s[|s| - 1]) ==> t == s
    decreases |s|
  {
    if s == "" then ""
    else if IsSpace(s[0]) then Trim(s[1..])
    else if IsSpace(s[|s| - 1]) then Trim(s[..|s| - 1])
    else s
  }

  predicate AllSpace(s: string) {
    forall i :: 0 <= i < |s| ==> IsSpace(s[i])
  }

  /** Trimming takes off the white space around a text and nothing else. */
  lemma {:induction false} TrimPadded(before: string, s: string, after: string)
    requires AllSpace(before) && AllSpace(after)
    requires s != "" ==> !IsSpace(s[0]) && !IsSpace(s[|s| - 1])
    ensures Trim(before + s + after) == s
    decreases |before| + |after|
  {
    var all := before + s + after;
    if before != "" {
      assert all[1..] == before[1..] + s + after;
      TrimPadded(before[1..], s, after);
    } else if after != "" {
      assert all == s + after;
      if s == "" {
        assert all == after && after[1..] + "" + "" == after[1..];
        TrimPadded(after[1..], "", "");
        assert all[1..] == after[1..];
      } else {
        assert all[..|all| - 1] == "" + s + after[..|after| - 1];
        TrimPadded("", s, after[..|after| - 1]);
      }
    } else {
      assert all == s;
    }
  }

  lemma {:induction false} TrimSplits(s: string) returns (before: string, after: string)
    ensures AllSpace(before) && AllSpace(after) && s == before + Trim(s) + after
    decreases |s|
  {
    before, after := "", "";
    if s != "" && IsSpace(s[0]) {
      before, after := TrimSplits(s[1..]);
      PutBefore(s, before, Trim(s[1..]), after);
      before := [s[0]] + before;
    } else if s != "" && IsSpace(s[|s| - 1]) {
      before, after := TrimSplits(s[..|s| - 1]);
      PutAfter(s, before, Trim(s[..|s| - 1]), after);
      after := after + [s[|s| - 1]];
    }
  }

  lemma PutBefore(s: string, before: string, middle: string, after: string)
    requires s != "" && s[1..] == before + middle + after
    ensures s == ([s[0]] + before) + middle + after
  {
    assert s == [s[0]] + s[1..];
  }

  lemma PutAfter(s: string, before: string, middle: string, after: string)
    requires s != "" && s[..|s| - 1] == before + middle + after
    ensures s == before + middle + (after + [s[|s| - 1]])
  {
    assert s == s[..|s| - 1] + [s[|s| - 1]];
  }

  /** The first index of `c`, or -1. */
  function IndexOf(s: string, c: char): (i: int)
    ensures -1 <= i < |s|
    ensures i == -1 <==> c !in s
    ensures i >= 0 ==> s[i] == c && c !in s[..i]
  {
    if s == "" then -1
    else if s[0] == c then 0
    else
      var i := IndexOf(s[1..], c);
      assert i >= 0 ==> s[..i + 1] == [s[0]] + s[1..][..i];
      if i == -1 then -1 else i + 1
  }

  // ---- digits ----

  predicate IsDigit(c: char) {
    '0' <= c <= '9'
  }

  predicate AllDigits(s: string) {
    forall i :: 0 <= i < |s| ==> IsDigit(s[i])
  }

  function Decimal(s: string): nat
    requires AllDigits(s)
  {
    if s == "" then 0 else 10 * Decimal(s[..|s| - 1]) + (s[|s| - 1] - '0') as nat
  }

  function HexDigit(c: char): Option<nat> {
    if '0' <= c <= '9' then Some((c - '0') as nat)
    else if 'a' <= c <= 'f' then Some(10 + (c - 'a') as nat)
    else if 'A' <= c <= 'F' then Some(10 + (c - 'A') as nat)
    else None
  }

  const LOWER_DIGITS := "0123456789abcdef"
  const UPPER_DIGITS := "0123456789ABCDEF"

  /** The sixteen digits, in either case, have these values. */
  lemma HexDigitValues(d: nat)
    requires d < 16
    ensures HexDigit(LOWER_DIGITS[d]) == Some(d) && HexDigit(UPPER_DIGITS[d]) == Some(d)
  {
    if d < 10 {
      assert LOWER_DIGITS[d] == UPPER_DIGITS[d] == '0' + d as char;
    } else {
      assert LOWER_DIGITS[d] == 'a' + (d - 10) as char && UPPER_DIGITS[d] == 'A' + (d - 10) as char;
    }
  }

  /** And there is no other digit. */
  lemma OnlyHexDigits(c: char)
    requires HexDigit(c).Some?
    ensures var d := HexDigit(c).value; d < 16 && (c == LOWER_DIGITS[d] || c == UPPER_DIGITS[d])
  {
    var d := HexDigit(c).value;
    HexDigitValues(d);
    assert d < 10 ==> LOWER_DIGITS[d] == '0' + d as char;
    assert d >= 10 ==> LOWER_DIGITS[d] == 'a' + (d - 10) as char && UPPER_DIGITS[d] == 'A' + (d - 10) as char;
  }

  predicate AllHex(s: string) {
    forall i :: 0 <= i < |s| ==> HexDigit(s[i]).Some?
  }

  function Hexadecimal(s: string): nat
    requires AllHex(s)
  {
    if s == "" then 0 else 16 * Hexadecimal(s[..|s| - 1]) + HexDigit(s[|s| - 1]).value
  }

  /** `n.toString(16)` */
  function ToHex(n: nat): (s: string)
    ensures s != ""
  {
    var last := if n % 16 < 10 then '0' + (n % 16) as char else 'a' + (n % 16 - 10) as char;
    if n < 16 then [last] else ToHex(n / 16) + [last]
  }

  lemma {:induction false} HexRoundTrip(n: nat)
    ensures AllHex(ToHex(n)) && Hexadecimal(ToHex(n)) == n
    ensures n < 0x10 ==> |ToHex(n)| == 1
    ensures n < 0x100 ==> |ToHex(n)| <= 2
    ensures n < 0x1000 ==> |ToHex(n)| <= 3
    ensures n < 0x10000 ==> |ToHex(n)| <= 4
  {
    var s := ToHex(n);
    if n >= 16 {
      HexRoundTrip(n / 16);
    }
    assert s[..|s| - 1] == if n < 16 then "" else ToHex(n / 16);
  }

  /** Hexadecimal in upper case. */
  function ToUpperHex(n: nat): (s: string)
    ensures s != ""
  {
    (if n < 16 then "" else ToUpperHex(n / 16)) + [UPPER_DIGITS[n % 16]]
  }

  lemma HexAppend(s: string, c: char)
    requires AllHex(s) && HexDigit(c).Some?
    ensures AllHex(s + [c]) && Hexadecimal(s + [c]) == 16 * Hexadecimal(s) + HexDigit(c).value
  {
    assert (s + [c])[..|s|] == s;
  }

  lemma {:induction false} UpperHexRoundTrip(n: nat)
    ensures AllHex(ToUpperHex(n)) && Hexadecimal(ToUpperHex(n)) == n
    ensures n < 0x10 ==> |ToUpperHex(n)| == 1
    ensures n < 0x100 ==> |ToUpperHex(n)| <= 2
    ensures n < 0x1000 ==> |ToUpperHex(n)| <= 3
    ensures n < 0x10000 ==> |ToUpperHex(n)| <= 4
  {
    HexDigitValues(n % 16);
    if n >= 16 {
      UpperHexRoundTrip(n / 16);
    }
    HexAppend(if n < 16 then "" else ToUpperHex(n / 16), UPPER_DIGITS[n % 16]);
  }

  /** The shortest decimal text of a number. */
  function ToDecimal(n: nat): (s: string)
    ensures s != ""
  {
    var last := '0' + (n % 10) as char;
    if n < 10 then [last] else ToDecimal(n / 10) + [last]
  }

  lemma {:induction false} DecimalRoundTrip(n: nat)
    ensures AllDigits(ToDecimal(n)) && Decimal(ToDecimal(n)) == n
    ensures n < 1000 ==> |ToDecimal(n)| <= 3
    ensures n < 100 ==> |ToDecimal(n)| <= 2
    ensures n < 10 ==> |ToDecimal(n)| == 1
  {
    var s := ToDecimal(n);
    if n >= 10 {
      DecimalRoundTrip(n / 10);
    }
    assert s[..|s| - 1] == if n < 10 then "" else ToDecimal(n / 10);
  }

  predicate HasLeadingZero(s: string) {
    |s| > 1 && s[0] == '0'
  }

  /** Printing undoes reading exactly on texts without a leading zero. */
  lemma {:induction false} DecimalPrintsBack(s: string)
    requires s != "" && AllDigits(s)
    ensures ToDecimal(Decimal(s)) == s <==> !HasLeadingZero(s)
    ensures Decimal(s) == 0 && !HasLeadingZero(s) ==> |s| == 1
  {
    var init, d := s[..|s| - 1], (s[|s| - 1] - '0') as nat;
    if init == "" {
      assert s == [s[0]];
    } else {
      DecimalPrintsBack(init);
      DecimalNoLeadingZero(Decimal(s));
      var n := Decimal(s);
      assert n / 10 == Decimal(init) && n % 10 == d;
      assert s == init + [s[|s| - 1]];
      assert HasLeadingZero(s) <==> s[0] == '0';
      assert init[0] == s[0];
      if n < 10 {
        assert Decimal(init) == 0;
      }
    }
  }

  lemma {:induction false} DecimalNoLeadingZero(n: nat)
    ensures !HasLeadingZero(ToDecimal(n))
    ensures n > 0 ==> ToDecimal(n)[0] != '0'
  {
    if n >= 10 {
      DecimalNoLeadingZero(n / 10);
    }
  }
}
