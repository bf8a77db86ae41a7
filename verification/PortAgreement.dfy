/** When getpts (module PortArrays) and port_range_ranges (module Ports) read a port list alike. */
module PortAgreement {
  import opened Options
  import opened Text
  import opened PortText
  import opened Ports
  import opened PortArrays

  /** The only white space is the space. */
  predicate Tidy(s: string) {
    forall i :: 0 <= i < |s| && (IsSpace(s[i]) || IsGSpace(s[i])) ==> s[i] == ' '
  }

  // ----- compaction

  lemma {:induction false} CompactConcat(a: string, b: string)
    ensures Compact(a + b) == Compact(a) + Compact(b)
  {
    if b == "" {
      assert a + b == a;
    } else {
      var c, last := b[..|b| - 1], b[|b| - 1];
      CompactConcat(a, c);
      CompactLast(b, c, last);
      CompactLast(a + b, a + c, last);
      Together(Compact(a), Compact(c), if last == ' ' then "" else [last]);
    }
  }

  lemma {:induction false} Together(a: string, b: string, c: string)
    ensures a + (b + c) == (a + b) + c
  {
  }

  lemma {:induction false} CompactLast(s: string, init: string, last: char)
    requires s == init + [last]
    ensures Compact(s) == Compact(init) + if last == ' ' then "" else [last]
  {
    assert s[..|s| - 1] == init;
  }

  lemma {:induction false} CompactOne(c: char)
    ensures Compact([c]) == if c == ' ' then "" else [c]
  {
    assert [c][..0] == "";
  }

  lemma {:induction false} CompactNothing(s: string)
    requires ' ' !in s
    ensures Compact(s) == s
  {
    if s != "" {
      CompactNothing(s[..|s| - 1]);
    }
  }

  lemma {:induction false} CompactHead(s: string)
    requires s != ""
    ensures Compact(s) == (if s[0] == ' ' then "" else [s[0]]) + Compact(s[1..])
  {
    assert s == [s[0]] + s[1..];
    CompactConcat([s[0]], s[1..]);
    CompactOne(s[0]);
  }

  lemma {:induction false} CompactSkipsBlanks(s: string)
    requires Tidy(s)
    ensures Compact(SkipBlanks(s)) == Compact(s) && Tidy(SkipBlanks(s))
    ensures Compact(SkipSpaces(s)) == Compact(s) && Tidy(SkipSpaces(s))
    ensures SkipSpaces(s) == SkipBlanks(s)
  {
    if s != "" && s[0] == ' ' {
      CompactHead(s);
      CompactSkipsBlanks(s[1..]);
    }
  }

  lemma {:induction false} CompactStripEnd(s: string)
    requires Tidy(s)
    ensures Compact(StripEnd(s)) == Compact(s)
  {
    if s != "" && s[|s| - 1] == ' ' {
      CompactStripEnd(s[..|s| - 1]);
    }
  }

  lemma {:induction false} CompactStrip(s: string)
    requires Tidy(s)
    ensures Compact(Strip(s)) == Compact(s)
  {
    if s != "" {
      if s[0] == ' ' {
        CompactHead(s);
        CompactStrip(s[1..]);
      } else {
        CompactStripEnd(s);
      }
    }
  }

  function CompactAll(ps: seq<string>): (r: seq<string>)
    ensures |r| == |ps| && forall i :: 0 <= i < |ps| ==> r[i] == Compact(ps[i])
  {
    seq(|ps|, i requires 0 <= i < |ps| => Compact(ps[i]))
  }

  lemma {:induction false} NotInCompact(s: string, c: char)
    requires c !in s
    ensures c !in Compact(s)
  {
  }

  lemma {:induction false} CompactComma(a: string, b: string)
    ensures Compact(a + [','] + b) == Compact(a) + [','] + Compact(b)
  {
    CompactConcat(a + [','], b);
    CompactConcat(a, [',']);
    CompactOne(',');
  }

  lemma {:induction false} CompactAllFirst(a: string, ps: seq<string>)
    ensures CompactAll([a] + ps) == [Compact(a)] + CompactAll(ps)
  {
  }

  /** Compaction and splitting at commas can be exchanged. */
  lemma {:induction false} SplitCompact(s: string)
    ensures Split(Compact(s), ',') == CompactAll(Split(s, ','))
    decreases |s|
  {
    match CutAt(s, ',') {
      case None =>
        NotInCompact(s, ',');
        assert CutAt(Compact(s), ',').None?;
      case Some((a, b)) =>
        SplitCompact(b);
        CompactComma(a, b);
        NotInCompact(a, ',');
        CutAtIs(Compact(a), ',', Compact(b));
        CompactAllFirst(a, Split(b, ','));
    }
  }

  lemma {:induction false} SplitTidy(s: string)
    requires Tidy(s)
    ensures forall i :: 0 <= i < |Split(s, ',')| ==> Tidy(Split(s, ',')[i])
    decreases |s|
  {
    match CutAt(s, ',') {
      case None =>
      case Some((a, b)) =>
        CutTidy(s, a, b);
        SplitTidy(b);
    }
  }

  lemma {:induction false} CutTidy(s: string, a: string, b: string)
    requires Tidy(s) && s == a + [','] + b
    ensures Tidy(a) && Tidy(b)
  {
    assert forall i :: 0 <= i < |a| ==> a[i] == s[i];
    assert forall i :: 0 <= i < |b| ==> b[i] == s[|a| + 1 + i];
  }

  /** The elements of the one parser, without their spaces, are those of the compacted text. */
  lemma {:induction false} ElementsCompact(s: string)
    requires Tidy(s)
    ensures CompactAll(Elements(s)) == Split(Compact(s), ',')
  {
    var t := SkipBlanks(s);
    CompactSkipsBlanks(s);
    assert '\n' !in t by {
      assert forall i :: 0 <= i < |t| ==> t[i] != '\n';
    }
    NormalisedNothing(t);
    SplitCompact(t);
    SplitTidy(t);
    var ps := Split(t, ',');
    forall i | 0 <= i < |ps| ensures CompactAll(Elements(s))[i] == Compact(ps[i]) {
      CompactStrip(ps[i]);
    }
  }

  // ----- one element

  /** A positive number: sign and digits, after any spaces. */
  lemma {:induction false} NumberShape(x: string) returns (sign: string, digits: string)
    requires Tidy(x) && Strtol(x).value > 0
    ensures (sign == "" || sign == ['+']) && digits != "" && AllDigits(digits)
    ensures SkipSpaces(x) == sign + digits + Strtol(x).rest && Number(digits) == Strtol(x).value
  {
    var t := SkipSpaces(x);
    var u := if Signed(t) then t[1..] else t;
    sign, digits := if Signed(t) then [t[0]] else "", u[..CountDigits(u)];
    Reassembled(t, sign, u, CountDigits(u));
  }

  lemma {:induction false} Reassembled(t: string, sign: string, u: string, k: nat)
    requires u == (if Signed(t) then t[1..] else t) && sign == (if Signed(t) then [t[0]] else "") && k <= |u|
    ensures t == sign + u[..k] + u[k..]
  {
    assert t == sign + u && u == u[..k] + u[k..];
  }

  /** strtol reads the same positive number in a compacted text, when no digit comes after it. */
  lemma {:induction false} NumberLead(x: string) returns (lead: string)
    requires Tidy(x) && Strtol(x).value > 0
    requires var r := Compact(Strtol(x).rest); r == "" || !IsDigit(r[0])
    ensures Compact(x) == lead + Compact(Strtol(x).rest) && Strtol(Compact(x)).value == Strtol(x).value
    ensures lead != "" && '-' !in lead && Numeric(lead)
  {
    var sign, digits := NumberShape(x);
    lead := sign + digits;
    LeadFacts(x, sign, digits, Strtol(x).rest);
  }

  lemma {:induction false} LeadFacts(x: string, sign: string, digits: string, rest: string)
    requires Tidy(x) && SkipSpaces(x) == sign + digits + rest && (Compact(rest) == "" || !IsDigit(Compact(rest)[0]))
    requires (sign == "" || sign == ['+']) && digits != "" && AllDigits(digits)
    ensures Compact(x) == sign + digits + Compact(rest) && Strtol(Compact(x)).value == Number(digits)
    ensures '-' !in sign + digits && Numeric(sign + digits)
  {
    LeadCompact(x, sign + digits, rest);
    LeadReads(sign, digits, Compact(rest));
  }

  lemma {:induction false} LeadCompact(x: string, lead: string, rest: string)
    requires Tidy(x) && SkipSpaces(x) == lead + rest && ' ' !in lead
    ensures Compact(x) == lead + Compact(rest)
  {
    CompactSkipsBlanks(x);
    CompactConcat(lead, rest);
    CompactNothing(lead);
  }

  lemma {:induction false} LeadReads(sign: string, digits: string, r: string)
    requires (sign == "" || sign == ['+']) && digits != "" && AllDigits(digits)
    requires r == "" || !IsDigit(r[0])
    ensures Strtol(sign + digits + r).value == Number(digits)
  {
    var s := sign + digits + r;
    assert SkipSpaces(s) == s;
    var u := if Signed(s) then s[1..] else s;
    assert u == digits + r;
    CountDigitsAppend(digits, r);
    CountAllDigits(digits);
    assert u[..|digits|] == digits;
  }

  predicate Numeric(s: string) {
    forall i :: 0 <= i < |s| ==> IsDigit(s[i]) || s[i] == '+' || s[i] == '-'
  }

  /** What the validator accepts is not an empty element. */
  predicate Given(e: string) {
    SkipBlanks(Body(e)) != ""
  }

  lemma {:induction false} TidySuffix(s: string, i: nat)
    requires Tidy(s) && i <= |s|
    ensures Tidy(s[i..])
  {
  }

  lemma {:induction false} RestTidy(x: string)
    requires Tidy(x) && Strtol(x).value > 0
    ensures Tidy(Strtol(x).rest) && '-' !in SkipSpaces(x)[..|SkipSpaces(x)| - |Strtol(x).rest|]
    ensures |Strtol(x).rest| < |SkipSpaces(x)| && SkipSpaces(x)[|SkipSpaces(x)| - |Strtol(x).rest|..] == Strtol(x).rest
  {
    var sign, digits := NumberShape(x);
    CompactSkipsBlanks(x);
    var t, k := SkipSpaces(x), |sign + digits|;
    assert t[k..] == Strtol(x).rest && t[..k] == sign + digits;
    TidySuffix(t, k);
  }

  /** A field with a hyphen in it: after a first number, and with something behind it. */
  predicate TwoNumbersIn(x: string) {
    x != "" && x[0] != '-' && CutAt(x, '-').Some? && CutAt(x, '-').value.1 != ""
  }

  /** A single port. */
  lemma {:induction false} SingleAgrees(e: string)
    requires Tidy(e) && ElementValid(e) && Given(e) && CutAt(Body(e), '-').None?
    ensures ParseElement(e).Ports? && FieldPorts(Compact(Body(e))) == Interval(ParseElement(e).start, ParseElement(e).end)
    ensures Numeric(Compact(Body(e))) && Compact(Body(e)) != "" && CutAt(Compact(Body(e)), '-').None?
  {
    ElementAgrees(e);
    var b := Body(e);
    TidySuffix(e, |e| - |b|);
    SkipBlanksCut(b);
    CompactSkipsBlanks(b);
    var x := SkipBlanks(b);
    NoHyphenNotNegative(x);
    AtoiSmall(x);
    RestTidy(x);
    CompactSkipsBlanks(Strtol(x).rest);
    var lead := NumberLead(x);
    assert Compact(b) == lead;
    AtoiSmall(Compact(b));
    assert CutAt(lead, '-').None?;
  }

  /** Blanks, a hyphen, and what comes after it. */
  lemma {:induction false} BlanksThenHyphen(rest: string) returns (tail: string)
    requires Tidy(rest) && StartsWithHyphen(SkipBlanks(rest))
    ensures CutAt(rest, '-').Some? && CutAt(rest, '-').value.1 == tail
    ensures Compact(rest) == ['-'] + Compact(tail)
  {
    var s := SkipBlanks(rest);
    tail := s[1..];
    CompactSkipsBlanks(rest);
    SkipBlanksCut(rest);
    CompactHead(s);
    assert s == "" + ['-'] + tail;
    CutAtIs("", '-', tail);
  }

  lemma {:induction false} FirstHyphen(lead: string, rest: string)
    requires '-' !in lead && CutAt(rest, '-').Some?
    ensures CutAt(lead + rest, '-').Some? && CutAt(lead + rest, '-').value.1 == CutAt(rest, '-').value.1
  {
    var (m, tail) := CutAt(rest, '-').value;
    assert lead + rest == (lead + m) + ['-'] + tail;
    CutAtIs(lead + m, '-', tail);
  }

  /** In a tidy text the hyphen after the first number is the first hyphen. */
  lemma {:induction false} HyphenAfterNumber(first: string, after: string)
    requires Tidy(first) && Strtol(first).value > 0 && SkipBlanks(first) == first
    requires CutAt(first, '-').Some? && CutAt(first, '-').value.1 == after
    requires StartsWithHyphen(SkipBlanks(Strtol(first).rest))
    ensures Compact(Strtol(first).rest) == ['-'] + Compact(after)
  {
    var rest := Strtol(first).rest;
    CompactSkipsBlanks(first);
    var sign, digits := NumberShape(first);
    RestTidy(first);
    var tail := BlanksThenHyphen(rest);
    FirstHyphen(sign + digits, rest);
  }

  /** The first number of a valid range. */
  lemma {:induction false} FirstNumber(first: string, before: string, after: string)
    requires Tidy(first) && SkipBlanks(first) == first && !StartsWithHyphen(first)
    requires first == before + ['-'] + after && '-' !in before && Strtol(first).value != 0
    ensures Strtol(before).value == Strtol(first).value > 0
  {
    assert before != "" && before[0] == first[0];
    SkipBlanksSuffix(first);
    assert SkipSpaces(before) == before;
    StrtolUpToHyphen(before, after);
  }

  /** The second number of a valid range. */
  lemma {:induction false} SecondNumber(after: string)
    requires Tidy(after)
    requires var two := Strtol(SkipBlanks(after)); two.value > 0 && SkipBlanks(two.rest) == ""
    ensures Compact(after) != "" && Strtol(Compact(after)).value == Strtol(SkipBlanks(after)).value
    ensures Numeric(Compact(after))
  {
    var h := SkipBlanks(after);
    CompactSkipsBlanks(after);
    RestTidy(h);
    CompactSkipsBlanks(Strtol(h).rest);
    var lead := NumberLead(h);
  }

  /** A range of ports. */
  lemma {:induction false} RangeAgrees(e: string)
    requires Tidy(e) && ElementValid(e) && CutAt(Body(e), '-').Some?
    ensures ParseElement(e).Ports? && FieldPorts(Compact(Body(e))) == Interval(ParseElement(e).start, ParseElement(e).end)
    ensures Numeric(Compact(Body(e))) && TwoNumbersIn(Compact(Body(e)))
  {
    var b := Body(e);
    TidySuffix(e, |e| - |b|);
    SkipBlanksCut(b);
    CompactSkipsBlanks(b);
    var first := SkipBlanks(b);
    SkipTwice(b);
    var (before, after) := CutAt(first, '-').value;
    assert first == before + ['-'] + after;
    FirstNumber(first, before, after);
    HyphenAfterNumber(first, after);
    TidySuffix(first, |before| + 1);
    assert first[|before| + 1..] == after;
    SecondNumber(after);
    RangeField(first, after);
    AtoiSmall(before);
    AtoiSmall(SkipBlanks(after));
  }

  /** The two numbers of a range, compacted. */
  lemma {:induction false} RangeField(first: string, after: string)
    requires Tidy(first) && 0 < Strtol(first).value <= MAX_PORT
    requires Compact(Strtol(first).rest) == ['-'] + Compact(after)
    requires Compact(after) != "" && Numeric(Compact(after)) && 0 < Strtol(Compact(after)).value <= MAX_PORT
    ensures FieldPorts(Compact(first)) == Interval(Strtol(first).value, Strtol(Compact(after)).value)
    ensures Numeric(Compact(first)) && TwoNumbersIn(Compact(first))
  {
    var lead := NumberLead(first);
    FieldOfRange(lead, Compact(after), Compact(first));
    NumericJoined(lead, Compact(after));
    AtoiSmall(Compact(first));
    AtoiSmall(Compact(after));
  }

  lemma {:induction false} SkipTwice(s: string)
    ensures SkipBlanks(SkipBlanks(s)) == SkipBlanks(s)
  {
    if s != "" && IsBlank(s[0]) {
      SkipTwice(s[1..]);
    }
  }

  lemma {:induction false} FieldOfRange(lead: string, after: string, x: string)
    requires lead != "" && '-' !in lead && after != "" && x == lead + (['-'] + after)
    ensures FieldPorts(x) == AtLeastOne(Atoi(x), Atoi(after)) && TwoNumbersIn(x)
  {
    assert x == lead + ['-'] + after;
    CutAtIs(lead, '-', after);
    assert x[0] == lead[0];
  }

  lemma {:induction false} NumericJoined(lead: string, after: string)
    requires Numeric(lead) && Numeric(after)
    ensures Numeric(lead + (['-'] + after))
  {
  }

  /** The two parsers read a valid element alike. */
  lemma {:induction false} ElementReadAlike(e: string)
    requires Tidy(e) && ElementValid(e) && Given(e)
    ensures ParseElement(e).Ports? && FieldPorts(Compact(Body(e))) == Interval(ParseElement(e).start, ParseElement(e).end)
    ensures Numeric(Compact(Body(e))) && Compact(Body(e)) != ""
    ensures if CutAt(Body(e), '-').Some? then TwoNumbersIn(Compact(Body(e))) else CutAt(Compact(Body(e)), '-').None?
  {
    if CutAt(Body(e), '-').Some? {
      RangeAgrees(e);
    } else {
      SingleAgrees(e);
    }
  }

  // ----- all elements

  lemma {:induction false} StripTidy(s: string)
    requires Tidy(s)
    ensures Tidy(Strip(s))
  {
    if s != "" {
      if IsGSpace(s[0]) {
        TidySuffix(s, 1);
        StripTidy(s[1..]);
      } else {
        StripEndTidy(s);
      }
    }
  }

  lemma {:induction false} StripEndTidy(s: string)
    requires Tidy(s)
    ensures Tidy(StripEnd(s))
  {
    if s != "" && IsGSpace(s[|s| - 1]) {
      StripEndTidy(s[..|s| - 1]);
    }
  }

  lemma {:induction false} ElementsTidy(s: string)
    requires Tidy(s)
    ensures forall i :: 0 <= i < |Elements(s)| ==> Tidy(Elements(s)[i])
  {
    var t := SkipBlanks(s);
    CompactSkipsBlanks(s);
    assert '\n' !in t by {
      assert forall i :: 0 <= i < |t| ==> t[i] != '\n';
    }
    NormalisedNothing(t);
    SplitTidy(t);
    var ps := Split(t, ',');
    forall i | 0 <= i < |ps| ensures Tidy(Elements(s)[i]) {
      StripTidy(ps[i]);
    }
  }
}
