/** Strings as the C library sees them: character classes, decimal numbers, splitting. */
module Text {
  import opened Options

  predicate IsDigit(c: char) {
    '0' <= c <= '9'
  }

  predicate IsXDigit(c: char) {
    IsDigit(c) || 'a' <= c <= 'f' || 'A' <= c <= 'F'
  }

  predicate IsAlnum(c: char) {
    IsDigit(c) || 'a' <= c <= 'z' || 'A' <= c <= 'Z'
  }

  predicate AllDigits(s: string) {
    forall i :: 0 <= i < |s| ==> IsDigit(s[i])
  }

  predicate AllXDigits(s: string) {
    forall i :: 0 <= i < |s| ==> IsXDigit(s[i])
  }

  function DigitValue(c: char): nat
    requires IsDigit(c)
  {
    c as int - '0' as int
  }

  function XDigitValue(c: char): (v: nat)
    requires IsXDigit(c)
    ensures v < 16
  {
    if IsDigit(c) then DigitValue(c) else if c >= 'a' then c as int - 'a' as int + 10 else c as int - 'A' as int + 10
  }

  function Number(s: string): nat
    requires AllDigits(s)
  {
    if s == "" then 0 else 10 * Number(s[..|s| - 1]) + DigitValue(s[|s| - 1])
  }

  function XNumber(s: string): nat
    requires AllXDigits(s)
  {
    if s == "" then 0 else 16 * XNumber(s[..|s| - 1]) + XDigitValue(s[|s| - 1])
  }

  lemma {:induction false} XNumberBound(s: string)
    requires AllXDigits(s) && |s| <= 4
    ensures XNumber(s) < 0x1_0000
  {
    XNumberBoundBy(s);
    assert SixteenTo(4) == 0x1_0000;
    SixteenGrows(|s|, 4);
  }

  function SixteenTo(n: nat): nat {
    if n == 0 then 1 else 16 * SixteenTo(n - 1)
  }

  lemma {:induction false} SixteenGrows(m: nat, n: nat)
    requires m <= n
    ensures SixteenTo(m) <= SixteenTo(n)
  {
    if m < n {
      SixteenGrows(m, n - 1);
    }
  }

  lemma {:induction false} XNumberBoundBy(s: string)
    requires AllXDigits(s)
    ensures XNumber(s) < SixteenTo(|s|)
  {
    if s != "" {
      XNumberBoundBy(s[..|s| - 1]);
    }
  }

  /** "%u" of a number. */
  function Decimal(n: nat): (s: string)
    ensures s != "" && AllDigits(s)
    ensures s[0] == '0' <==> n == 0
    ensures n < 10 ==> |s| == 1
  {
    var d := [(n % 10 + '0' as int) as char];
    if n < 10 then d else Decimal(n / 10) + d
  }

  lemma {:induction false} NumberOfDecimal(n: nat)
    ensures Number(Decimal(n)) == n
  {
    var s := Decimal(n);
    if n < 10 {
      assert s[..0] == "";
    } else {
      NumberOfDecimal(n / 10);
      assert s[..|s| - 1] == Decimal(n / 10);
    }
  }

  /** The parts of s around its first c, as strchr finds it. */
  function CutAt(s: string, c: char): (r: Option<(string, string)>)
    ensures r.Some? ==> s == r.value.0 + [c] + r.value.1 && c !in r.value.0
    ensures r.None? <==> c !in s
  {
    if s == "" then None
    else if s[0] == c then Some(("", s[1..]))
    else
      match CutAt(s[1..], c)
      case None => None
      case Some((a, b)) => Some(([s[0]] + a, b))
  }

  lemma {:induction false} CutAtIs(a: string, c: char, b: string)
    requires c !in a
    ensures CutAt(a + [c] + b, c) == Some((a, b))
  {
    var s := a + [c] + b;
    if a == "" {
      assert s == [c] + b && s[1..] == b;
    } else {
      assert s[1..] == a[1..] + [c] + b;
      CutAtIs(a[1..], c, b);
      assert a == [a[0]] + a[1..];
    }
  }

  /** g_strsplit with one separator character; the empty string has no parts there, and one empty part here. */
  function Split(s: string, c: char): (r: seq<string>)
    ensures r != []
    ensures forall i :: 0 <= i < |r| ==> c !in r[i]
    decreases |s|
  {
    match CutAt(s, c)
    case None => [s]
    case Some((a, b)) => [a] + Split(b, c)
  }

  function Join(parts: seq<string>, c: char): string
    requires parts != []
  {
    if |parts| == 1 then parts[0] else parts[0] + [c] + Join(parts[1..], c)
  }

  lemma {:induction false} SplitJoin(parts: seq<string>, c: char)
    requires parts != []
    requires forall i :: 0 <= i < |parts| ==> c !in parts[i]
    ensures Split(Join(parts, c), c) == parts
  {
    if |parts| > 1 {
      CutAtIs(parts[0], c, Join(parts[1..], c));
      SplitJoin(parts[1..], c);
      assert parts == [parts[0]] + parts[1..];
    } else {
      assert parts == [parts[0]];
    }
  }

  lemma {:induction false} JoinHasOnly(parts: seq<string>, c: char, x: char)
    requires parts != [] && x != c
    requires forall i :: 0 <= i < |parts| ==> x !in parts[i]
    ensures x !in Join(parts, c)
  {
    if |parts| > 1 {
      JoinHasOnly(parts[1..], c, x);
    }
  }

  /** g_ascii_isspace */
  predicate IsGSpace(c: char) {
    c == ' ' || c == '\t' || c == '\n' || c == '\r' || c == '\U{000C}'
  }

  /** g_strstrip */
  function Strip(s: string): (r: string)
    ensures |r| <= |s|
    ensures r != "" ==> !IsGSpace(r[0]) && !IsGSpace(r[|r| - 1])
  {
    if s == "" then ""
    else if IsGSpace(s[0]) then Strip(s[1..])
    else StripEnd(s)
  }

  function StripEnd(s: string): (r: string)
    ensures |r| <= |s|
    ensures r != "" ==> !IsGSpace(r[|r| - 1]) && r[0] == s[0]
  {
    if s == "" then ""
    else if IsGSpace(s[|s| - 1]) then StripEnd(s[..|s| - 1])
    else s
  }

  lemma {:induction false} StripNothing(s: string)
    requires s == "" || (!IsGSpace(s[0]) && !IsGSpace(s[|s| - 1]))
    ensures Strip(s) == s
  {
  }

  /** Newlines count as commas. */
  function Normalised(s: string): (r: string)
    ensures |r| == |s|
  {
    seq(|s|, i requires 0 <= i < |s| => if s[i] == '\n' then ',' else s[i])
  }
}
