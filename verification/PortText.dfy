/**
 Port range texts (base/openvas_networking.c): what one element of the list means to the
 validator and to the parser, which read it independently.
 */
module PortText {
  import opened Options
  import opened Text

  const MAX_PORT := 65535
  const LONG_MAX := 0x7FFF_FFFF_FFFF_FFFF
  const LONG_MIN := -0x8000_0000_0000_0000

  predicate IsBlank(c: char) {
    c == ' ' || c == '\t'
  }

  /** isspace */
  predicate IsSpace(c: char) {
    c == ' ' || ('\t' <= c <= '\r')
  }

  function SkipBlanks(s: string): string {
    if s != "" && IsBlank(s[0]) then SkipBlanks(s[1..]) else s
  }

  function SkipSpaces(s: string): string {
    if s != "" && IsSpace(s[0]) then SkipSpaces(s[1..]) else s
  }

  function CountDigits(s: string): (n: nat)
    ensures n <= |s| && AllDigits(s[..n])
    ensures n < |s| ==> !IsDigit(s[n])
  {
    if s != "" && IsDigit(s[0]) then
      var n := CountDigits(s[1..]);
      assert s[..n + 1] == [s[0]] + s[1..][..n];
      n + 1
    else 0
  }

  /** What strtol found: the number, and what follows it; the whole text when there is no number. */
  datatype Parsed = Parsed(value: int, rest: string)

  predicate Signed(s: string) {
    s != "" && (s[0] == '+' || s[0] == '-')
  }

  /** strtol (s, &end, 10), without its clamping: Overflows tells when errno is set. */
  function Strtol(s: string): Parsed {
    var t := SkipSpaces(s);
    var u := if Signed(t) then t[1..] else t;
    var k := CountDigits(u);
    if k == 0 then Parsed(0, s)
    else Parsed(if t[0] == '-' then -(Number(u[..k]) as int) else Number(u[..k]), u[k..])
  }

  predicate Overflows(n: int) {
    n > LONG_MAX || n < LONG_MIN
  }

  /** atoi: the clamped long, truncated to an int. */
  function Atoi(s: string): int {
    var n := Strtol(s).value;
    var c := if n > LONG_MAX then LONG_MAX else if n < LONG_MIN then LONG_MIN else n;
    var m := c % 0x1_0000_0000;
    if m < 0x8000_0000 then m else m - 0x1_0000_0000
  }

  lemma {:induction false} AtoiSmall(s: string)
    requires 0 <= Strtol(s).value <= MAX_PORT
    ensures Atoi(s) == Strtol(s).value
  {
  }

  // ----- prefixes

  datatype Protocol = Tcp | Udp

  predicate HasPrefix(e: string) {
    |e| >= 2 && (e[0] == 'T' || e[0] == 'U') && e[1] == ':'
  }

  function PrefixProtocol(e: string): Protocol
    requires HasPrefix(e)
  {
    if e[0] == 'T' then Tcp else Udp
  }

  function Body(e: string): string {
    if HasPrefix(e) then e[2..] else e
  }

  // ----- the validator

  predicate InPortRange(n: int) {
    !Overflows(n) && n != 0 && n <= MAX_PORT
  }

  predicate StartsWithHyphen(s: string) {
    s != "" && s[0] == '-'
  }

  /** The checks of validate_port_range on one stripped element. */
  predicate ElementValid(e: string) {
    var b := Body(e);
    match CutAt(b, '-')
    case Some((_, after)) =>
      var first := SkipBlanks(b);
      var one := Strtol(first);
      var h := SkipBlanks(after);
      var two := Strtol(h);
      && !StartsWithHyphen(first)
      && StartsWithHyphen(SkipBlanks(one.rest)) && InPortRange(one.value)
      && h != ""
      && SkipBlanks(two.rest) == "" && InPortRange(two.value)
      && one.value <= two.value
    case None =>
      var only := SkipBlanks(b);
      var n := Strtol(only);
      only == "" || (SkipBlanks(n.rest) == "" && InPortRange(n.value))
  }

  // ----- the parser

  datatype Element = Nothing | Ports(start: int, end: int) | AssertFails

  /** What port_range_ranges makes of one stripped element. */
  function ParseElement(e: string): Element {
    var b := SkipBlanks(Body(e));
    match CutAt(b, '-')
    case Some((before, after)) =>
      var h := SkipBlanks(after);
      if h == "" then AssertFails else Ports(Atoi(before), Atoi(h))
    case None =>
      if b == "" then Nothing else Ports(Atoi(b), Atoi(b))
  }

  // ----- agreement

  lemma {:induction false} SkipBlanksCut(s: string)
    ensures CutAt(SkipBlanks(s), '-').None? <==> CutAt(s, '-').None?
    ensures CutAt(s, '-').Some? ==>
      CutAt(SkipBlanks(s), '-').value.1 == CutAt(s, '-').value.1
  {
    if s != "" && IsBlank(s[0]) {
      SkipBlanksCut(s[1..]);
    }
  }

  lemma {:induction false} SkipSpacesAppend(a: string, b: string)
    requires b != "" && !IsSpace(b[0])
    ensures SkipSpaces(a + b) == SkipSpaces(a) + b
  {
    if a == "" {
      assert a + b == b;
    } else if IsSpace(a[0]) {
      SkipSpacesAppend(a[1..], b);
      assert (a + b)[1..] == a[1..] + b;
    }
  }

  lemma {:induction false} CountDigitsAppend(a: string, b: string)
    requires b == "" || !IsDigit(b[0])
    ensures CountDigits(a + b) == CountDigits(a)
  {
    if a == "" {
      assert a + b == b;
    } else if IsDigit(a[0]) {
      CountDigitsAppend(a[1..], b);
      assert (a + b)[1..] == a[1..] + b;
    }
  }

  /** strtol up to the first hyphen reads the same number, unless the hyphen is the sign of the number. */
  lemma {:induction false} StrtolUpToHyphen(a: string, b: string)
    requires '-' !in a && SkipSpaces(a) != ""
    ensures Strtol(a + ['-'] + b).value == Strtol(a).value >= 0
  {
    var s := a + ['-'] + b;
    assert s == a + (['-'] + b);
    SkipSpacesAppend(a, ['-'] + b);
    SkipSpacesSuffix(a);
    SignAndDigitsUpTo(a, SkipSpaces(a), s, ['-'] + b);
  }

  /** What strtol reads after the spaces, with other text behind the digits or without. */
  lemma {:induction false} SignAndDigitsUpTo(a: string, t: string, s: string, r: string)
    requires t == SkipSpaces(a) != "" && SkipSpaces(s) == t + r && r != "" && !IsDigit(r[0]) && t[0] != '-'
    ensures Strtol(s).value == Strtol(a).value >= 0
  {
    var u := if Signed(t) then t[1..] else t;
    assert Signed(t) ==> (t + r)[1..] == u + r;
    CountDigitsAppend(u, r);
    assert (u + r)[..CountDigits(u)] == u[..CountDigits(u)];
  }

  lemma {:induction false} SkipSpacesSuffix(s: string)
    ensures forall c :: c in SkipSpaces(s) ==> c in s
    ensures SkipSpaces(s) != "" ==> !IsSpace(SkipSpaces(s)[0])
  {
    if s != "" && IsSpace(s[0]) {
      SkipSpacesSuffix(s[1..]);
    }
  }

  lemma {:induction false} SkipBlanksSuffix(s: string)
    ensures |SkipBlanks(s)| <= |s|
    ensures SkipBlanks(s) != "" ==> !IsBlank(SkipBlanks(s)[0]) && SkipBlanks(s)[|SkipBlanks(s)| - 1] == s[|s| - 1]
    ensures forall c :: c in s && !IsBlank(c) ==> c in SkipBlanks(s)
  {
    if s != "" && IsBlank(s[0]) {
      SkipBlanksSuffix(s[1..]);
    }
  }

  /** A hyphen that is the sign of the first number makes the second number end in a hyphen. */
  lemma {:induction false} SignedFirstNumberFails(a: string, b: string)
    requires '-' !in a && SkipSpaces(a) == ""
    requires StartsWithHyphen(SkipBlanks(Strtol(a + ['-'] + b).rest)) && Strtol(a + ['-'] + b).value != 0
    ensures SkipBlanks(Strtol(SkipBlanks(b)).rest) != ""
  {
    SignedFirst(a, b);
    DigitsFirst(b);
    assert Strtol(b).rest == b[CountDigits(b)..];
  }

  lemma {:induction false} SignedFirst(a: string, b: string)
    requires '-' !in a && SkipSpaces(a) == ""
    ensures CountDigits(b) == 0 ==> Strtol(a + ['-'] + b).value == 0
    ensures CountDigits(b) > 0 ==> Strtol(a + ['-'] + b).rest == b[CountDigits(b)..]
  {
    var s := a + ['-'] + b;
    assert s == a + (['-'] + b);
    SkipSpacesAppend(a, ['-'] + b);
    assert SkipSpaces(s) == ['-'] + b && (['-'] + b)[1..] == b;
  }

  lemma {:induction false} DigitsFirst(b: string)
    requires CountDigits(b) > 0
    ensures b != "" && IsDigit(b[0]) && SkipBlanks(b) == b && SkipSpaces(b) == b
  {
  }

  /**
   Whatever the validator accepts, the parser reads without failing its assertion, and as
   ports in order and in range.
   */
  lemma {:induction false} ElementAgrees(e: string)
    requires ElementValid(e)
    ensures var p := ParseElement(e);
      !p.AssertFails? && (p.Ports? ==> 1 <= p.start <= p.end <= MAX_PORT)
  {
    var b := Body(e);
    SkipBlanksCut(b);
    var first := SkipBlanks(b);
    match CutAt(b, '-') {
      case Some((_, after)) =>
        var before := CutAt(first, '-').value.0;
        assert first == before + ['-'] + after;
        if SkipSpaces(before) == "" {
          SignedFirstNumberFails(before, after);
          assert false;
        }
        StrtolUpToHyphen(before, after);
        AtoiSmall(before);
        AtoiSmall(SkipBlanks(after));
      case None =>
        if first != "" {
          NoHyphenNotNegative(first);
          AtoiSmall(first);
        }
    }
  }

  lemma {:induction false} NoHyphenNotNegative(s: string)
    requires '-' !in s
    ensures Strtol(s).value >= 0
  {
    SkipSpacesSuffix(s);
  }
}
