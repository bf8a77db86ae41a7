/** Port lists (base/openvas_networking.c): validation, parsing, and lookup. */
module Ports {
  import opened Options
  import opened Text
  import opened PortText

  datatype Range = Range(start: int, end: int, proto: Protocol)

  /** The stripped elements of a port list, after any leading blanks. */
  function Elements(s: string): seq<string> {
    StripAll(Split(Normalised(SkipBlanks(s)), ','))
  }

  function StripAll(parts: seq<string>): (r: seq<string>)
    ensures |r| == |parts|
  {
    seq(|parts|, i requires 0 <= i < |parts| => Strip(parts[i]))
  }

  /** What validate_port_range accepts: not only blanks, and every element valid. */
  predicate Acceptable(s: string) {
    SkipBlanks(s) != "" && forall i :: 0 <= i < |Elements(s)| ==> ElementValid(Elements(s)[i])
  }

  /** The protocol in force at element i: that of the last prefix at or before it. */
  function ProtocolAt(els: seq<string>, i: int): Protocol
    requires -1 <= i < |els|
    decreases i + 1
  {
    if i < 0 then Tcp
    else if HasPrefix(els[i]) then PrefixProtocol(els[i])
    else ProtocolAt(els, i - 1)
  }

  /** The ranges of the first n elements. */
  function RangesOf(els: seq<string>, n: nat): seq<Range>
    requires n <= |els|
  {
    if n == 0 then []
    else
      match ParseElement(els[n - 1])
      case Ports(a, b) => RangesOf(els, n - 1) + [Range(a, b, ProtocolAt(els, n - 1))]
      case _ => RangesOf(els, n - 1)
  }

  /** validate_port_range: 0 for an acceptable text, 1 for any other and for NULL. */
  method ValidatePortRange(portRange: Option<string>) returns (ret: int)
    ensures ret == if portRange.Some? && Acceptable(portRange.value) then 0 else 1
  {
    if portRange.None? || SkipBlanks(portRange.value) == "" {
      return 1;
    }
    var split := Split(Normalised(SkipBlanks(portRange.value)), ',');
    ghost var els := Elements(portRange.value);
    var point := 0;
    while point < |split|
      invariant 0 <= point <= |split| == |els|
      invariant forall i :: 0 <= i < point ==> ElementValid(els[i])
    {
      var element := Strip(split[point]);
      assert element == els[point];
      if !ElementValid(element) {
        return 1;
      }
      point := point + 1;
    }
    return 0;
  }

  /** port_range_ranges on a valid text; `tcp` is carried from element to element. */
  method PortRangeRanges(portRange: string) returns (ranges: seq<Range>)
    requires forall i :: 0 <= i < |Elements(portRange)| ==> !ParseElement(Elements(portRange)[i]).AssertFails?
    ensures ranges == RangesOf(Elements(portRange), |Elements(portRange)|)
  {
    ranges := [];
    var tcp := true;
    var split := Split(Normalised(SkipBlanks(portRange)), ',');
    ghost var els := Elements(portRange);
    var point := 0;
    while point < |split|
      invariant 0 <= point <= |split| == |els|
      invariant tcp <==> ProtocolAt(els, point - 1) == Tcp
      invariant ranges == RangesOf(els, point)
    {
      var element := Strip(split[point]);
      assert element == els[point];
      if HasPrefix(element) {
        tcp := element[0] == 'T';
      }
      match ParseElement(element) {
        case Ports(start, end) => ranges := ranges + [Range(start, end, if tcp then Tcp else Udp)];
        case Nothing =>
      }
      point := point + 1;
    }
  }

  ghost predicate WellFormed(r: Range) {
    1 <= r.start <= r.end <= MAX_PORT
  }

  lemma {:induction false} RangesWellFormed(els: seq<string>, n: nat)
    requires n <= |els| && forall i :: 0 <= i < n ==> ElementValid(els[i])
    ensures forall r :: r in RangesOf(els, n) ==> WellFormed(r)
  {
    if n > 0 {
      RangesWellFormed(els, n - 1);
      ElementAgrees(els[n - 1]);
    }
  }

  /** Every accepted text can be parsed, to ranges of ports in order and in range. */
  lemma {:induction false} ValidatedParses(s: string)
    requires Acceptable(s)
    ensures forall i :: 0 <= i < |Elements(s)| ==> !ParseElement(Elements(s)[i]).AssertFails?
    ensures forall r :: r in RangesOf(Elements(s), |Elements(s)|) ==> WellFormed(r)
  {
    forall i | 0 <= i < |Elements(s)| ensures !ParseElement(Elements(s)[i]).AssertFails? {
      ElementAgrees(Elements(s)[i]);
    }
    RangesWellFormed(Elements(s), |Elements(s)|);
  }

  /** port_in_port_ranges */
  method PortInPortRanges(pnum: int, ptype: Protocol, pranges: Option<seq<Range>>) returns (found: bool)
    ensures found <==> pranges.Some? && 0 <= pnum <= 65536 &&
                       exists r :: r in pranges.value && r.proto == ptype && r.start <= pnum <= r.end
  {
    if pranges.None? || pnum < 0 || pnum > 65536 {
      return false;
    }
    var rs := pranges.value;
    for i := 0 to |rs|
      invariant forall k :: 0 <= k < i ==> !(rs[k].proto == ptype && rs[k].start <= pnum <= rs[k].end)
    {
      var range := rs[i];
      if range.proto != ptype {
        continue;
      }
      if range.start <= pnum && pnum <= range.end {
        return true;
      }
    }
    return false;
  }

  // ----- canonical texts

  /** "T:80-443" */
  function RangeText(r: Range): (s: string)
    requires WellFormed(r)
    ensures s != "" && HasPrefix(s) && PrefixProtocol(s) == r.proto
  {
    (if r.proto.Tcp? then ['T', ':'] else ['U', ':']) + (Decimal(r.start) + ['-'] + Decimal(r.end))
  }

  function Texts(rs: seq<Range>): (ps: seq<string>)
    requires forall r :: r in rs ==> WellFormed(r)
    ensures |ps| == |rs| && forall i :: 0 <= i < |rs| ==> ps[i] == RangeText(rs[i])
  {
    if rs == [] then [] else Texts(rs[..|rs| - 1]) + [RangeText(rs[|rs| - 1])]
  }

  /** A text for any list of ranges; a lone comma for the empty list. */
  function Canonical(rs: seq<Range>): string
    requires forall r :: r in rs ==> WellFormed(r)
  {
    if rs == [] then [','] else Join(Texts(rs), ',')
  }

  lemma {:induction false} DecimalStrtol(n: nat)
    requires 1 <= n <= MAX_PORT
    ensures Strtol(Decimal(n)) == Parsed(n, "") && SkipBlanks(Decimal(n)) == Decimal(n)
    ensures '-' !in Decimal(n)
  {
    var d := Decimal(n);
    assert IsDigit(d[0]) && SkipSpaces(d) == d;
    CountAllDigits(d);
    NumberOfDecimal(n);
    assert d[..|d|] == d;
  }

  lemma {:induction false} CountAllDigits(s: string)
    requires AllDigits(s)
    ensures CountDigits(s) == |s|
  {
    if s != "" {
      CountAllDigits(s[1..]);
    }
  }

  lemma {:induction false} DecimalHyphen(a: nat, b: string)
    requires 1 <= a <= MAX_PORT
    ensures Strtol(Decimal(a) + ['-'] + b) == Parsed(a, ['-'] + b)
    ensures SkipBlanks(Decimal(a) + ['-'] + b) == Decimal(a) + ['-'] + b
  {
    DecimalStrtol(a);
    var d := Decimal(a);
    var s := d + ['-'] + b;
    assert s == d + (['-'] + b);
    assert IsDigit(d[0]) && SkipSpaces(s) == s;
    CountAllDigits(d);
    CountDigitsAppend(d, ['-'] + b);
    assert s[..|d|] == d && s[|d|..] == ['-'] + b;
    NumberOfDecimal(a);
  }

  /** The text of one range is accepted, and read back as that range. */
  lemma {:induction false} RangeTextParses(r: Range)
    requires WellFormed(r)
    ensures ElementValid(RangeText(r)) && ParseElement(RangeText(r)) == Ports(r.start, r.end)
  {
    var a, b := Decimal(r.start), Decimal(r.end);
    assert Body(RangeText(r)) == a + ['-'] + b;
    DecimalStrtol(r.start);
    DecimalStrtol(r.end);
    DecimalHyphen(r.start, b);
    CutAtIs(a, '-', b);
    TwoNumbers(RangeText(r), a, b);
    AtoiSmall(a);
    AtoiSmall(b);
  }

  /** An element of two numbers, for the validator and for the parser. */
  lemma {:induction false} TwoNumbers(e: string, a: string, b: string)
    requires Body(e) == a + ['-'] + b && CutAt(Body(e), '-') == Some((a, b)) && SkipBlanks(Body(e)) == Body(e)
    requires Strtol(Body(e)).rest == ['-'] + b && Strtol(b).rest == "" && SkipBlanks(b) == b != ""
    requires InPortRange(Strtol(Body(e)).value) && InPortRange(Strtol(b).value)
    requires Strtol(Body(e)).value <= Strtol(b).value && !StartsWithHyphen(Body(e))
    ensures ElementValid(e) && ParseElement(e) == Ports(Atoi(a), Atoi(b))
  {
    assert SkipBlanks(['-'] + b) == ['-'] + b;
  }

  lemma {:induction false} RangeTextPlain(r: Range)
    requires WellFormed(r)
    ensures Strip(RangeText(r)) == RangeText(r)
    ensures ',' !in RangeText(r) && '\n' !in RangeText(r)
    ensures !IsBlank(RangeText(r)[0])
  {
    var e := RangeText(r);
    var b := Decimal(r.end);
    assert e[|e| - 1] == b[|b| - 1] && IsDigit(e[|e| - 1]);
    StripNothing(e);
  }

  lemma {:induction false} NormalisedNothing(s: string)
    requires '\n' !in s
    ensures Normalised(s) == s
  {
  }

  lemma {:induction false} TextsPlain(rs: seq<Range>)
    requires forall r :: r in rs ==> WellFormed(r)
    ensures forall i :: 0 <= i < |rs| ==> ',' !in Texts(rs)[i] && '\n' !in Texts(rs)[i]
    ensures StripAll(Texts(rs)) == Texts(rs)
  {
    var ps := Texts(rs);
    forall i | 0 <= i < |rs| ensures ',' !in ps[i] && '\n' !in ps[i] && Strip(ps[i]) == ps[i] {
      RangeTextPlain(rs[i]);
    }
  }

  lemma {:induction false} NoLeadingBlanks(s: string)
    requires s != "" && !IsBlank(s[0])
    ensures SkipBlanks(s) == s
  {
  }

  lemma {:induction false} CanonicalElements(rs: seq<Range>)
    requires rs != [] && forall r :: r in rs ==> WellFormed(r)
    ensures Elements(Canonical(rs)) == Texts(rs) && SkipBlanks(Canonical(rs)) != ""
  {
    var ps := Texts(rs);
    TextsPlain(rs);
    var s := Canonical(rs);
    JoinHasOnly(ps, ',', '\n');
    NormalisedNothing(s);
    RangeTextPlain(rs[0]);
    assert s[0] == ps[0][0];
    NoLeadingBlanks(s);
    SplitJoin(ps, ',');
  }

  /** An element that reads as the range r by itself. */
  predicate Reads(e: string, r: Range) {
    HasPrefix(e) && PrefixProtocol(e) == r.proto && ParseElement(e) == Ports(r.start, r.end)
  }

  lemma {:induction false} OneMore(rs: seq<Range>, n: nat)
    requires n < |rs|
    ensures rs[..n + 1] == rs[..n] + [rs[n]]
  {
  }

  lemma {:induction false} RangesOfTexts(rs: seq<Range>, els: seq<string>, n: nat)
    requires n <= |rs| == |els|
    requires forall i :: 0 <= i < |els| ==> Reads(els[i], rs[i])
    ensures RangesOf(els, n) == rs[..n]
  {
    if n > 0 {
      RangesOfTexts(rs, els, n - 1);
      assert Reads(els[n - 1], rs[n - 1]);
      OneMore(rs, n - 1);
    }
  }

  lemma {:induction false} TextsRead(rs: seq<Range>)
    requires forall r :: r in rs ==> WellFormed(r)
    ensures forall i :: 0 <= i < |rs| ==> ElementValid(Texts(rs)[i]) && Reads(Texts(rs)[i], rs[i])
  {
    forall i | 0 <= i < |rs| ensures ElementValid(Texts(rs)[i]) && Reads(Texts(rs)[i], rs[i]) {
      RangeTextParses(rs[i]);
    }
  }

  /** Every list of well-formed ranges has a text that is accepted and parses back to it. */
  lemma {:induction false} CanonicalRoundTrip(rs: seq<Range>)
    requires forall r :: r in rs ==> WellFormed(r)
    ensures Acceptable(Canonical(rs))
    ensures RangesOf(Elements(Canonical(rs)), |Elements(Canonical(rs))|) == rs
  {
    if rs == [] {
      CommaElements();
    } else {
      CanonicalElements(rs);
      var ps := Texts(rs);
      TextsRead(rs);
      RangesOfTexts(rs, ps, |rs|);
      assert rs[..|rs|] == rs;
    }
  }

  lemma {:induction false} CommaElements()
    ensures Elements([',']) == ["", ""] && SkipBlanks([',']) == [',']
    ensures Acceptable([',']) && RangesOf(["", ""], 2) == []
  {
    NormalisedNothing([',']);
    SplitJoin(["", ""], ',');
    assert Join(["", ""], ',') == [','];
    assert StripAll(["", ""]) == ["", ""];
    assert RangesOf(["", ""], 1) == [];
  }
}
