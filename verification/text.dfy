/**
 The string operations the connector relies on: splitting, joining, trimming, and decimal integers.
 */
module Text {
  import opened Json

  // ----- splitting and joining -----

  /** The list with c put before its first piece. */
  function PutBefore(c: char, parts: seq<string>): (longer: seq<string>)
    requires parts != []
    ensures |longer| == |parts|
  {
    [[c] + parts[0]] + parts[1..]
  }

  /** All the pieces between separators; always at least one. */
  function Split(s: string, sep: char): (parts: seq<string>)
    ensures |parts| >= 1
  {
    if s == [] then [""]
    else
      var rest := Split(s[1..], sep);
      if s[0] == sep then [""] + rest else PutBefore(s[0], rest)
  }

  function Join(parts: seq<string>, sep: char): string {
    if parts == [] then ""
    else if |parts| == 1 then parts[0]
    else parts[0] + [sep] + Join(parts[1..], sep)
  }

  lemma {:induction false} SplitConcat(a: string, sep: char, b: string)
    ensures Split(a + [sep] + b, sep) == Split(a, sep) + Split(b, sep)
  {
    hide PutBefore;
    var whole := a + [sep] + b;
    if a == [] {
      assert whole[1..] == b;
    } else {
      SplitConcat(a[1..], sep, b);
      assert whole[0] == a[0] && whole[1..] == a[1..] + [sep] + b;
      var first, second := Split(a[1..], sep), Split(b, sep);
      assert Split(whole[1..], sep) == first + second;
      if a[0] == sep {
        assert [""] + (first + second) == [""] + first + second;
      } else {
        PutBeforeConcat(a[0], first, second);
      }
    }
  }

  lemma PutBeforeConcat(c: char, a: seq<string>, b: seq<string>)
    requires a != []
    ensures PutBefore(c, a + b) == PutBefore(c, a) + b
  {
    assert (a + b)[1..] == a[1..] + b;
  }

  lemma {:induction false} SplitWhole(s: string, sep: char)
    requires sep !in s
    ensures Split(s, sep) == [s]
  {
    if s == [] {
    } else {
      assert s == [s[0]] + s[1..];
      SplitWhole(s[1..], sep);
    }
  }

  lemma {:induction false} SplitLeavesNone(s: string, sep: char)
    ensures forall part | part in Split(s, sep) :: sep !in part
  {
    if s == [] {
    } else {
      var rest := Split(s[1..], sep);
      SplitLeavesNone(s[1..], sep);
      assert rest[0] in rest;
    }
  }

  function Occurrences(s: string, c: char): nat {
    if s == [] then 0 else (if s[0] == c then 1 else 0) + Occurrences(s[1..], c)
  }

  lemma {:induction false} SplitCount(s: string, sep: char)
    ensures |Split(s, sep)| == Occurrences(s, sep) + 1
    ensures sep in s <==> Occurrences(s, sep) > 0
  {
    if s == [] {
    } else {
      SplitCount(s[1..], sep);
    }
  }

  /** Splitting a joined list yields the pieces of its parts, in order. */
  function SplitAll(parts: seq<string>, sep: char): seq<string> {
    if parts == [] then [] else Split(parts[0], sep) + SplitAll(parts[1..], sep)
  }

  lemma {:induction false} SplitOfJoin(parts: seq<string>, sep: char)
    requires parts != []
    ensures Split(Join(parts, sep), sep) == SplitAll(parts, sep)
  {
    if |parts| == 1 {
      assert SplitAll(parts[1..], sep) == [];
    } else {
      SplitOfJoin(parts[1..], sep);
      SplitConcat(parts[0], sep, Join(parts[1..], sep));
    }
  }

  lemma {:induction false} SplitAllCount(parts: seq<string>, sep: char)
    ensures |SplitAll(parts, sep)| >= |parts|
    ensures SplitAll(parts, sep) == parts <==> forall part | part in parts :: sep !in part
  {
    if parts == [] {
    } else {
      SplitAllCount(parts[1..], sep);
      SplitCount(parts[0], sep);
      assert parts == [parts[0]] + parts[1..];
      if sep !in parts[0] {
        SplitWhole(parts[0], sep);
        assert SplitAll(parts, sep)[1..] == SplitAll(parts[1..], sep);
      } else {
        assert |SplitAll(parts, sep)| > |parts|;
        assert parts[0] in parts;
      }
    }
  }

  /** Join and split are inverse exactly when no part contains the separator, the empty list apart. */
  lemma JoinThenSplit(parts: seq<string>, sep: char)
    requires parts != []
    ensures Split(Join(parts, sep), sep) == parts <==> forall part | part in parts :: sep !in part
  {
    SplitOfJoin(parts, sep);
    SplitAllCount(parts, sep);
  }

  lemma JoinIsEmptyExactly(parts: seq<string>, sep: char)
    ensures Join(parts, sep) == "" <==> parts == [] || parts == [""]
  {
  }

  /** The text before and after the first separator. */
  function Cut(s: string, sep: char): Option<(string, string)> {
    if s == [] then None
    else if s[0] == sep then Some(("", s[1..]))
    else match Cut(s[1..], sep)
      case Some((before, after)) => Some(([s[0]] + before, after))
      case None => None
  }

  lemma {:induction false} CutConcat(a: string, sep: char, b: string)
    requires sep !in a
    ensures Cut(a + [sep] + b, sep) == Some((a, b))
  {
    if a == [] {
      assert a + [sep] + b == [sep] + b;
    } else {
      assert a == [a[0]] + a[1..];
      CutConcat(a[1..], sep, b);
      assert (a + [sep] + b)[1..] == a[1..] + [sep] + b;
    }
  }

  lemma {:induction false} CutNothing(s: string, sep: char)
    requires sep !in s
    ensures Cut(s, sep) == None
  {
    if s == [] {
    } else {
      CutNothing(s[1..], sep);
    }
  }

  // ----- trimming -----

  predicate IsSpace(c: char) {
    || c in {'\t', '\n', '\U{0B}', '\U{0C}', '\r', ' ', '\U{85}', '\U{A0}', '\U{1680}'}
    || '\U{2000}' <= c <= '\U{200A}'
    || c in {'\U{2028}', '\U{2029}', '\U{202F}', '\U{205F}', '\U{3000}'}
  }

  function TrimSpaceLeft(s: string): string {
    if s != [] && IsSpace(s[0]) then TrimSpaceLeft(s[1..]) else s
  }

  function TrimSpaceRight(s: string): string {
    if s != [] && IsSpace(s[|s| - 1]) then TrimSpaceRight(s[..|s| - 1]) else s
  }

  function TrimSpace(s: string): string {
    TrimSpaceRight(TrimSpaceLeft(s))
  }

  function TrimLeft(s: string, c: char): string {
    if s != [] && s[0] == c then TrimLeft(s[1..], c) else s
  }

  function TrimRight(s: string, c: char): string {
    if s != [] && s[|s| - 1] == c then TrimRight(s[..|s| - 1], c) else s
  }

  /** s without any c at its two ends. */
  function Trim(s: string, c: char): string {
    TrimRight(TrimLeft(s, c), c)
  }

  predicate Blank(s: string) {
    forall c | c in s :: IsSpace(c)
  }

  /** No whitespace at either end. */
  predicate Tight(s: string) {
    s == [] || (!IsSpace(s[0]) && !IsSpace(s[|s| - 1]))
  }

  lemma {:induction false} TrimLeading(before: string, s: string)
    requires Blank(before)
    ensures TrimSpaceLeft(before + s) == TrimSpaceLeft(s)
  {
    hide IsSpace;
    if before == [] {
      assert before + s == s;
    } else {
      TrimLeading(before[1..], s);
      assert (before + s)[1..] == before[1..] + s;
    }
  }

  lemma {:induction false} TrimTrailing(s: string, after: string)
    requires Blank(after)
    ensures TrimSpaceRight(s + after) == TrimSpaceRight(s)
  {
    hide IsSpace;
    if after == [] {
      assert s + after == s;
    } else {
      var shorter := after[..|after| - 1];
      TrimTrailing(s, shorter);
      assert (s + after)[..|s + after| - 1] == s + shorter;
    }
  }

  /** Trimming takes the whitespace around a text and nothing of the text. */
  lemma TrimPadding(before: string, s: string, after: string)
    requires Blank(before) && Blank(after) && Tight(s)
    ensures TrimSpace(before + s + after) == s
  {
    hide IsSpace;
    assert before + s + after == before + (s + after);
    TrimLeading(before, s + after);
    if s == [] {
      assert s + after == after && after + [] == after;
      TrimLeading(after, []);
    } else {
      TrimTrailing(s, after);
    }
  }

  lemma {:induction false} TrimLeftKeepsOut(s: string, c: char)
    requires c !in s
    ensures c !in TrimSpaceLeft(s)
  {
    if s == [] {
    } else {
      TrimLeftKeepsOut(s[1..], c);
    }
  }

  lemma {:induction false} TrimRightKeepsOut(s: string, c: char)
    requires c !in s
    ensures c !in TrimSpaceRight(s)
  {
    if s == [] {
    } else {
      TrimRightKeepsOut(s[..|s| - 1], c);
    }
  }

  lemma TrimSpaceKeepsOut(s: string, c: char)
    requires c !in s
    ensures c !in TrimSpace(s)
  {
    TrimLeftKeepsOut(s, c);
    TrimRightKeepsOut(TrimSpaceLeft(s), c);
  }

  // ----- decimal integers -----

  const MAX_INT64: int := 0x7FFF_FFFF_FFFF_FFFF
  const MIN_INT64: int := -0x8000_0000_0000_0000

  predicate IsDigit(c: char) {
    '0' <= c <= '9'
  }

  function DigitValue(c: char): (d: nat)
    requires IsDigit(c)
    ensures d < 10
  {
    c as int - '0' as int
  }

  function DigitChar(d: nat): (c: char)
    requires d < 10
    ensures IsDigit(c) && DigitValue(c) == d
  {
    ('0' as int + d) as char
  }

  predicate AllDigits(s: string) {
    forall c | c in s :: IsDigit(c)
  }

  function DigitsValue(s: string): (n: int)
    requires AllDigits(s)
    ensures n >= 0
  {
    if s == [] then 0
    else
      assert forall c | c in s[..|s| - 1] :: c in s;
      DigitsValue(s[..|s| - 1]) * 10 + DigitValue(s[|s| - 1])
  }

  /** A decimal number with an optional sign, if it fits 64 bits. */
  function ParseInt(s: string): (n: Option<int>)
    ensures n.Some? ==> MIN_INT64 <= n.value <= MAX_INT64
  {
    var signed := s != [] && (s[0] == '+' || s[0] == '-');
    var digits := if signed then s[1..] else s;
    if digits == [] || !AllDigits(digits) then None
    else
      var n := if signed && s[0] == '-' then -DigitsValue(digits) else DigitsValue(digits);
      if MIN_INT64 <= n <= MAX_INT64 then Some(n) else None
  }

  function Itoa(n: nat): (s: string)
    ensures s != []
  {
    if n < 10 then [DigitChar(n)] else Itoa(n / 10) + [DigitChar(n % 10)]
  }

  lemma {:induction false} ItoaDigits(n: nat)
    ensures AllDigits(Itoa(n))
    ensures DigitsValue(Itoa(n)) == n
  {
    if n >= 10 {
      ItoaDigits(n / 10);
      assert Itoa(n)[..|Itoa(n)| - 1] == Itoa(n / 10);
    } else {
      assert Itoa(n)[..0] == [];
    }
  }

  lemma {:induction false} ItoaIsShort(n: nat)
    ensures n > 0 ==> Itoa(n)[0] != '0'
    ensures n == 0 ==> Itoa(n) == "0"
  {
    if n >= 10 {
      ItoaIsShort(n / 10);
    }
  }

  /** A printed number has no leading zero and parses back to itself, with a sign too, as far as 64 bits go. */
  lemma ItoaRoundTrip(n: nat)
    ensures ParseInt(Itoa(n)) == ParseInt(['+'] + Itoa(n)) == if n <= MAX_INT64 then Some(n) else None
    ensures ParseInt(['-'] + Itoa(n)) == if n <= -MIN_INT64 then Some(0 - n) else None
    ensures Itoa(n) == "0" || Itoa(n)[0] != '0'
  {
    ItoaDigits(n);
    ItoaIsShort(n);
    assert Itoa(n)[0] in Itoa(n);
    assert (['+'] + Itoa(n))[1..] == Itoa(n) && (['-'] + Itoa(n))[1..] == Itoa(n);
    hide Itoa, DigitsValue;
  }

  lemma {:induction false} LeadingZero(s: string)
    requires AllDigits(s)
    ensures AllDigits(['0'] + s) && DigitsValue(['0'] + s) == DigitsValue(s)
  {
    var longer := ['0'] + s;
    if s == [] {
      assert longer[..0] == [];
    } else {
      assert forall c | c in s[..|s| - 1] :: c in s;
      LeadingZero(s[..|s| - 1]);
      assert longer[..|s|] == ['0'] + s[..|s| - 1];
    }
  }

  /** A number is digits behind at most one sign, and not too large; leading zeros do not count. */
  lemma ParseIntExactly(s: string)
    ensures var digits := if s != [] && s[0] in {'+', '-'} then s[1..] else s;
            && (ParseInt(s).Some? ==> digits != [] && AllDigits(digits))
            && (digits != [] && AllDigits(digits) ==>
                  && ParseInt(['0'] + digits) == ParseInt(digits)
                  && (ParseInt(s).None? <==>
                      DigitsValue(digits) > if s[0] == '-' then 0x8000_0000_0000_0000 else MAX_INT64))
  {
    var digits := if s != [] && s[0] in {'+', '-'} then s[1..] else s;
    if digits != [] && AllDigits(digits) {
      LeadingZero(digits);
      assert digits[0] in digits;
    }
    hide DigitsValue;
  }
}
