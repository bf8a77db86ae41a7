/** Which port lists getpts (module PortArrays) and port_range_ranges (module Ports) read alike: the places of the prefixes. */
module PortPlaces {
  import opened Options
  import opened Text
  import opened PortText
  import opened Ports
  import opened PortArrays
  import opened PortAgreement

  /** An element without its spaces: its prefix, its numbers as text and as ports, and whether there are two. */
  datatype Part = Part(prefix: Option<Protocol>, body: string, start: int, end: int, two: bool)

  predicate IsTcp(p: Part) {
    p.prefix == Some(Tcp)
  }

  predicate IsUdp(p: Part) {
    p.prefix == Some(Udp)
  }

  function PartText(p: Part): string {
    match p.prefix
    case None => p.body
    case Some(Tcp) => ['T', ':'] + p.body
    case Some(Udp) => ['U', ':'] + p.body
  }

  function PartTexts(ps: seq<Part>): (r: seq<string>)
    ensures |r| == |ps| && forall i :: 0 <= i < |ps| ==> r[i] == PartText(ps[i])
  {
    seq(|ps|, i requires 0 <= i < |ps| => PartText(ps[i]))
  }

  /** The letters of the prefixes and the comma occur nowhere else. */
  ghost predicate Plain(s: string) {
    'T' !in s && 'U' !in s && ',' !in s
  }

  ghost predicate Proper(p: Part) {
    Plain(p.body) && 1 <= p.start <= p.end <= MAX_PORT
  }

  // ----- the parts of a text

  /** A validated text without empty elements and without white space other than spaces. */
  predicate Comparable(s: string) {
    && Acceptable(s) && Tidy(s)
    && forall i :: 0 <= i < |Elements(s)| ==> Given(Elements(s)[i])
  }

  function PrefixOf(e: string): Option<Protocol> {
    if HasPrefix(e) then Some(PrefixProtocol(e)) else None
  }

  /** p is what the element e is made of. */
  ghost predicate PartOf(e: string, p: Part) {
    && p.prefix == PrefixOf(e)
    && ParseElement(e) == Ports(p.start, p.end) && Proper(p)
    && Compact(e) == PartText(p) && p.two == CutAt(Body(e), '-').Some?
    && ReadAsField(p)
  }

  /** What getpts makes of the part: the number 1 in place of the first when a "T:" is left before it. */
  ghost predicate ReadAsField(p: Part) {
    && FieldPorts(p.body) == Interval(p.start, p.end)
    && FieldPorts(['T', ':'] + p.body) == Interval(1, if p.two then p.end else 0)
  }

  ghost predicate PartsOf(els: seq<string>, ps: seq<Part>) {
    |ps| == |els| && forall i :: 0 <= i < |els| ==> PartOf(els[i], ps[i])
  }

  lemma {:induction false} NoLetters(s: string)
    requires Numeric(s)
    ensures Plain(s)
  {
  }

  lemma {:induction false} PrefixCompact(e: string)
    requires HasPrefix(e)
    ensures Compact(e) == [e[0], ':'] + Compact(Body(e))
  {
    CompactHead(e);
    CompactHead(e[1..]);
    assert e[1..][1..] == e[2..];
  }

  lemma {:induction false} AtoiOfLetter(x: string)
    ensures Atoi(['T', ':'] + x) == 0
  {
    var s := ['T', ':'] + x;
    assert SkipSpaces(s) == s && CountDigits(s) == 0;
  }

  /** getpts reads the "T:" before a later element as the number 0. */
  lemma {:induction false} InnerPrefix(x: string)
    requires TwoNumbersIn(x) || CutAt(x, '-').None?
    ensures FieldPorts(['T', ':'] + x) == Interval(1, if TwoNumbersIn(x) then FieldPorts(x).end else 0)
  {
    var s := ['T', ':'] + x;
    AtoiOfLetter(x);
    assert s[0] == 'T';
    if TwoNumbersIn(x) {
      FirstHyphen(['T', ':'], x);
    } else {
      NoHyphen(x);
    }
  }

  lemma {:induction false} NoHyphen(x: string)
    requires CutAt(x, '-').None?
    ensures CutAt(['T', ':'] + x, '-').None?
  {
  }

  /** A valid element that is given, with no white space but spaces. */
  predicate Plainly(e: string) {
    Tidy(e) && ElementValid(e) && Given(e)
  }

  function PartFrom(e: string): Part {
    var r := ParseElement(e);
    Part(PrefixOf(e), Compact(Body(e)), if r.Ports? then r.start else 0, if r.Ports? then r.end else 0, CutAt(Body(e), '-').Some?)
  }

  lemma {:induction false} ElementPart(e: string)
    requires Plainly(e)
    ensures PartOf(e, PartFrom(e))
  {
    ElementReadAlike(e);
    ElementAgrees(e);
    NoLetters(Compact(Body(e)));
    ElementField(e);
    ElementText(e);
  }

  lemma {:induction false} ElementField(e: string)
    requires Plainly(e)
    ensures ReadAsField(PartFrom(e))
  {
    ElementReadAlike(e);
    InnerPrefix(Compact(Body(e)));
  }

  lemma {:induction false} ElementText(e: string)
    ensures Compact(e) == PartText(PartFrom(e))
  {
    if HasPrefix(e) {
      PrefixCompact(e);
    }
  }

  /** The parts of all elements. */
  function PartsFrom(els: seq<string>): (ps: seq<Part>)
    ensures |ps| == |els| && forall i :: 0 <= i < |els| ==> ps[i] == PartFrom(els[i])
  {
    seq(|els|, i requires 0 <= i < |els| => PartFrom(els[i]))
  }

  // ----- what getpts looks at

  /** The first part from i on with that prefix, or the number of parts. */
  function FirstWith(ps: seq<Part>, proto: Protocol, i: nat): (k: nat)
    requires i <= |ps|
    ensures i <= k <= |ps| && (k < |ps| ==> ps[k].prefix == Some(proto))
    ensures forall j :: i <= j < k ==> ps[j].prefix != Some(proto)
    decreases |ps| - i
  {
    if i == |ps| || ps[i].prefix == Some(proto) then i else FirstWith(ps, proto, i + 1)
  }

  /** Whether some "T:" is cut off, and where the parts begin that are looked at. */
  function Stripped(ps: seq<Part>): bool {
    FirstWith(ps, Tcp, 0) < |ps|
  }

  function First(ps: seq<Part>): (a: nat)
    ensures a <= |ps|
  {
    if Stripped(ps) then FirstWith(ps, Tcp, 0) else 0
  }

  /** Where they end: before the next "U:", or with the text. */
  function End(ps: seq<Part>): (b: nat)
    ensures First(ps) <= b <= |ps|
  {
    FirstWith(ps, Udp, if Stripped(ps) then First(ps) + 1 else 0)
  }

  /** The parts that are looked at are those from a to b; stripped tells whether a "T:" was cut off at a. */
  ghost predicate Span(ps: seq<Part>, a: nat, b: nat, stripped: bool) {
    && a <= b <= |ps| && (if stripped then a < b && IsTcp(ps[a]) else a == 0)
    && (forall i :: 0 <= i < (if stripped then a else |ps|) ==> !IsTcp(ps[i]))
    && (forall i :: a <= i < b ==> !IsUdp(ps[i]))
    && (b < |ps| ==> IsUdp(ps[b]))
  }

  lemma {:induction false} IsSpan(ps: seq<Part>)
    ensures Span(ps, First(ps), End(ps), Stripped(ps))
  {
  }

  /** The fields from the first "T:" on, which is itself cut off. */
  function FromT(ps: seq<Part>, a: nat, stripped: bool): (fs: seq<string>)
    requires a <= |ps| && (stripped ==> a < |ps|) && (!stripped ==> a == 0)
    ensures |fs| == |ps| - a
    ensures forall i :: 0 <= i < |fs| ==> fs[i] == if stripped && i == 0 then ps[a].body else PartText(ps[a + i])
  {
    seq(|ps| - a, i requires 0 <= i < |ps| - a => if stripped && i == 0 then ps[a].body else PartText(ps[a + i]))
  }

  lemma {:induction false} FromTIs(ps: seq<Part>, a: nat)
    requires a < |ps|
    ensures FromT(ps, a, true) == [ps[a].body] + PartTexts(ps)[a + 1..]
    ensures FromT(ps, 0, false) == PartTexts(ps)
  {
  }

  /** The fields getpts looks at; one empty field when "U:" stands in front and no "T:" follows. */
  function Looked(ps: seq<Part>, a: nat, b: nat, stripped: bool): seq<string>
    requires a <= b <= |ps| && (stripped ==> a < |ps|) && (!stripped ==> a == 0)
  {
    if a == b then [""] else FromT(ps, a, stripped)[..b - a]
  }

  lemma {:induction false} JoinSplit(s: string, c: char)
    ensures Join(Split(s, c), c) == s
    decreases |s|
  {
    match CutAt(s, c) {
      case None =>
      case Some((a, b)) => JoinSplit(b, c);
    }
  }

  lemma {:induction false} JoinParts(a: seq<string>, b: seq<string>, c: char)
    requires a != [] && b != []
    ensures Join(a + b, c) == Join(a, c) + [c] + Join(b, c)
  {
    if |a| == 1 {
      assert (a + b)[1..] == b;
    } else {
      JoinParts(a[1..], b, c);
      assert (a + b)[1..] == a[1..] + b;
    }
  }

  lemma {:induction false} JoinFirst(p: string, x: string, rest: seq<string>, c: char)
    ensures Join([p + x] + rest, c) == p + Join([x] + rest, c)
  {
    assert ([p + x] + rest)[1..] == rest == ([x] + rest)[1..];
  }

  lemma {:induction false} PairNowhere(s: string, a: char, b: char)
    requires a !in s
    ensures PairFrom(s, a, b, 0) == |s|
  {
  }

  lemma {:induction false} PairAt(s: string, a: char, b: char, k: nat)
    requires k + 1 < |s| && s[k] == a && s[k + 1] == b && a !in s[..k]
    ensures PairFrom(s, a, b, 0) == k
  {
    assert forall j :: 0 <= j < k ==> s[j] == s[..k][j];
  }

  /** A prefix behind parts without its letter: where it is found. */
  lemma {:induction false} PrefixFound(before: string, c: char, after: string)
    requires c !in before && c != ','
    ensures var s := before + [','] + ([c, ':'] + after);
      var k := |before| + 1;
      PairFrom(s, c, ':', 0) == k && s[k - 1] == ',' && s[..k - 1] == before && s[k + 2..] == after
  {
    var s := before + [','] + ([c, ':'] + after);
    var k := |before| + 1;
    assert s[..k] == before + [','];
    PairAt(s, c, ':', k);
  }

  lemma {:induction false} PrefixInFront(c: char, after: string)
    ensures PairFrom([c, ':'] + after, c, ':', 0) == 0 && ([c, ':'] + after)[2..] == after
  {
    var s := [c, ':'] + after;
    assert s[..0] == "";
    PairAt(s, c, ':', 0);
  }

  /** The text around the part k, whose field starts with a prefix. */
  lemma {:induction false} AroundPart(fs: seq<string>, k: nat, c: char, body: string)
    requires 0 < k < |fs| && fs[k] == [c, ':'] + body
    ensures Join(fs, ',') == Join(fs[..k], ',') + [','] + ([c, ':'] + Join([body] + fs[k + 1..], ','))
  {
    assert fs[k..] == [[c, ':'] + body] + fs[k + 1..];
    JoinFirst([c, ':'], body, fs[k + 1..], ',');
    assert fs == fs[..k] + fs[k..];
    JoinParts(fs[..k], fs[k..], ',');
  }

  lemma {:induction false} InFront(fs: seq<string>, c: char, body: string)
    requires fs != [] && fs[0] == [c, ':'] + body
    ensures Join(fs, ',') == [c, ':'] + Join([body] + fs[1..], ',')
  {
    assert fs == [[c, ':'] + body] + fs[1..];
    JoinFirst([c, ':'], body, fs[1..], ',');
  }

  /** Cutting at the first "T:". */
  lemma {:induction false} AfterTCuts(fs: seq<string>, k: nat, body: string)
    requires k < |fs| && fs[k] == ['T', ':'] + body && forall i :: 0 <= i < k ==> 'T' !in fs[i]
    ensures AfterT(Join(fs, ',')) == Join([body] + fs[k + 1..], ',')
  {
    if k == 0 {
      InFront(fs, 'T', body);
      PrefixInFront('T', Join([body] + fs[1..], ','));
    } else {
      AroundPart(fs, k, 'T', body);
      JoinHasOnly(fs[..k], ',', 'T');
      PrefixFound(Join(fs[..k], ','), 'T', Join([body] + fs[k + 1..], ','));
    }
  }

  lemma {:induction false} AfterTKeeps(fs: seq<string>)
    requires fs != [] && forall i :: 0 <= i < |fs| ==> 'T' !in fs[i]
    ensures AfterT(Join(fs, ',')) == Join(fs, ',')
  {
    JoinHasOnly(fs, ',', 'T');
    PairNowhere(Join(fs, ','), 'T', ':');
  }

  /** Cutting at the first "U:". */
  lemma {:induction false} BeforeUCuts(fs: seq<string>, k: nat, body: string)
    requires k < |fs| && fs[k] == ['U', ':'] + body && forall i :: 0 <= i < k ==> 'U' !in fs[i]
    ensures BeforeU(Join(fs, ',')) == if k == 0 then "" else Join(fs[..k], ',')
  {
    if k == 0 {
      InFront(fs, 'U', body);
      PrefixInFront('U', Join([body] + fs[1..], ','));
    } else {
      AroundPart(fs, k, 'U', body);
      JoinHasOnly(fs[..k], ',', 'U');
      PrefixFound(Join(fs[..k], ','), 'U', Join([body] + fs[k + 1..], ','));
    }
  }

  lemma {:induction false} BeforeUKeeps(fs: seq<string>)
    requires fs != [] && forall i :: 0 <= i < |fs| ==> 'U' !in fs[i]
    ensures BeforeU(Join(fs, ',')) == Join(fs, ',')
  {
    JoinHasOnly(fs, ',', 'U');
    PairNowhere(Join(fs, ','), 'U', ':');
  }

  ghost predicate AllProper(ps: seq<Part>) {
    forall i :: 0 <= i < |ps| ==> Proper(ps[i])
  }

  lemma {:induction false} LettersOfPart(p: Part)
    requires Proper(p)
    ensures 'T' in PartText(p) ==> IsTcp(p)
    ensures 'U' in PartText(p) ==> IsUdp(p)
    ensures ',' !in PartText(p)
  {
  }

  lemma {:induction false} CutAtT(ps: seq<Part>, a: nat, b: nat, stripped: bool)
    requires ps != [] && AllProper(ps) && Span(ps, a, b, stripped)
    ensures AfterT(Join(PartTexts(ps), ',')) == Join(FromT(ps, a, stripped), ',')
  {
    var fs := PartTexts(ps);
    forall i | 0 <= i < (if stripped then a else |ps|) ensures 'T' !in fs[i] {
      LettersOfPart(ps[i]);
    }
    FromTIs(ps, a);
    if stripped {
      AfterTCuts(fs, a, ps[a].body);
    } else {
      AfterTKeeps(fs);
    }
  }

  lemma {:induction false} FieldLetters(ps: seq<Part>, a: nat, b: nat, stripped: bool, i: nat)
    requires AllProper(ps) && Span(ps, a, b, stripped) && i < |ps| - a
    ensures ',' !in FromT(ps, a, stripped)[i]
    ensures a + i < b ==> 'U' !in FromT(ps, a, stripped)[i]
  {
    LettersOfPart(ps[a + i]);
  }

  /** The first k fields with commas between them. */
  function FirstJoined(fs: seq<string>, k: nat): string
    requires k <= |fs|
  {
    if k == 0 then "" else Join(fs[..k], ',')
  }

  lemma {:induction false} CutAtU(ps: seq<Part>, a: nat, b: nat, stripped: bool)
    requires ps != [] && AllProper(ps) && Span(ps, a, b, stripped)
    ensures BeforeU(Join(FromT(ps, a, stripped), ',')) == FirstJoined(FromT(ps, a, stripped), b - a)
  {
    var fs, body := SomeFields(ps, a, b, stripped);
    CutFields(fs, b - a, body);
  }

  lemma {:induction false} SomeFields(ps: seq<Part>, a: nat, b: nat, stripped: bool) returns (fs: seq<string>, body: string)
    requires ps != [] && AllProper(ps) && Span(ps, a, b, stripped)
    ensures fs == FromT(ps, a, stripped) && fs != [] && b - a <= |fs|
    ensures b - a < |fs| ==> fs[b - a] == ['U', ':'] + body
    ensures forall i :: 0 <= i < b - a ==> 'U' !in fs[i]
  {
    fs := FromT(ps, a, stripped);
    NoUBefore(ps, a, b, stripped);
    body := FieldAtU(ps, a, b, stripped);
  }

  lemma {:induction false} NoUBefore(ps: seq<Part>, a: nat, b: nat, stripped: bool)
    requires AllProper(ps) && Span(ps, a, b, stripped)
    ensures forall i :: 0 <= i < b - a ==> 'U' !in FromT(ps, a, stripped)[i]
  {
    forall i | 0 <= i < b - a ensures 'U' !in FromT(ps, a, stripped)[i] {
      FieldLetters(ps, a, b, stripped, i);
    }
  }

  lemma {:induction false} FieldAtU(ps: seq<Part>, a: nat, b: nat, stripped: bool) returns (body: string)
    requires Span(ps, a, b, stripped)
    ensures b < |ps| ==> FromT(ps, a, stripped)[b - a] == ['U', ':'] + body
  {
    body := if b < |ps| then ps[b].body else "";
  }

  lemma {:induction false} CutFields(fs: seq<string>, k: nat, body: string)
    requires fs != [] && k <= |fs| && (k < |fs| ==> fs[k] == ['U', ':'] + body)
    requires forall i :: 0 <= i < k ==> 'U' !in fs[i]
    ensures BeforeU(Join(fs, ',')) == FirstJoined(fs, k)
  {
    if k < |fs| {
      BeforeUCuts(fs, k, body);
    } else {
      BeforeUKeeps(fs);
      assert fs[..k] == fs;
    }
  }

  lemma {:induction false} SplitLooked(ps: seq<Part>, a: nat, b: nat, stripped: bool)
    requires AllProper(ps) && Span(ps, a, b, stripped) && a < b
    ensures Split(Join(Looked(ps, a, b, stripped), ','), ',') == Looked(ps, a, b, stripped)
  {
    var fs := Looked(ps, a, b, stripped);
    forall i | 0 <= i < |fs| ensures ',' !in fs[i] {
      FieldLetters(ps, a, b, stripped, i);
    }
    SplitJoin(fs, ',');
  }

  lemma {:induction false} SplitNothing()
    ensures Split("", ',') == [""]
  {
  }

  lemma {:induction false} PartsLooked(ps: seq<Part>, a: nat, b: nat, stripped: bool)
    requires ps != [] && AllProper(ps) && Span(ps, a, b, stripped)
    ensures Split(BeforeU(AfterT(Join(PartTexts(ps), ','))), ',') == Looked(ps, a, b, stripped)
  {
    CutAtT(ps, a, b, stripped);
    CutAtU(ps, a, b, stripped);
    if a < b {
      SplitLooked(ps, a, b, stripped);
    } else {
      SplitNothing();
    }
  }

  lemma {:induction false} PartsJoined(s: string, ps: seq<Part>)
    requires Tidy(s) && PartsOf(Elements(s), ps)
    ensures Compact(s) == Join(PartTexts(ps), ',') && AllProper(ps) && ps != []
  {
    ElementsCompact(s);
    assert PartTexts(ps) == CompactAll(Elements(s));
    JoinSplit(Compact(s), ',');
  }

  /** getpts looks at the parts from the first "T:" to the next "U:", or at nothing. */
  lemma {:induction false} FieldsAre(s: string, ps: seq<Part>, a: nat, b: nat, stripped: bool)
    requires Tidy(s) && PartsOf(Elements(s), ps) && Span(ps, a, b, stripped)
    ensures Fields(s) == Looked(ps, a, b, stripped) && AllProper(ps) && ps != []
  {
    PartsJoined(s, ps);
    PartsLooked(ps, a, b, stripped);
  }

  // ----- the intervals

  /** What getpts makes of a part: the number 1 in place of the first when a "T:" is left before it. */
  function Raw(p: Part, stripped: bool): Interval {
    if stripped || !IsTcp(p) then Interval(p.start, p.end) else Interval(1, if p.two then p.end else 0)
  }

  function RawIntervals(ps: seq<Part>, a: nat, b: nat, stripped: bool): (vs: seq<Interval>)
    requires a <= b <= |ps|
    ensures |vs| == b - a && forall i :: 0 <= i < b - a ==> vs[i] == Raw(ps[a + i], stripped && i == 0)
  {
    seq(b - a, i requires 0 <= i < b - a => Raw(ps[a + i], stripped && i == 0))
  }

  lemma {:induction false} FieldInterval(p: Part, stripped: bool)
    requires ReadAsField(p) && !IsUdp(p)
    ensures FieldPorts(if stripped then p.body else PartText(p)) == Raw(p, stripped)
  {
    if stripped || p.prefix.None? {
      assert FieldPorts(p.body) == Raw(p, stripped);
    } else {
      assert PartText(p) == ['T', ':'] + p.body;
    }
  }

  lemma {:induction false} IntervalsAre(s: string, ps: seq<Part>, a: nat, b: nat, stripped: bool)
    requires Tidy(s) && PartsOf(Elements(s), ps) && Span(ps, a, b, stripped) && a < b
    ensures TextIntervals(s) == RawIntervals(ps, a, b, stripped)
  {
    FieldsAre(s, ps, a, b, stripped);
    AllReadAsFields(Elements(s), ps);
    SeenIntervals(ps, a, b, stripped);
  }

  lemma {:induction false} LookedIs(ps: seq<Part>, a: nat, b: nat, stripped: bool, i: nat)
    requires Span(ps, a, b, stripped) && i < b - a
    ensures Looked(ps, a, b, stripped)[i] == if stripped && i == 0 then ps[a + i].body else PartText(ps[a + i])
    ensures !IsUdp(ps[a + i])
  {
  }

  lemma {:induction false} SeenInterval(ps: seq<Part>, a: nat, b: nat, stripped: bool, i: nat)
    requires Span(ps, a, b, stripped) && i < b - a && ReadAsField(ps[a + i])
    ensures FieldPorts(Looked(ps, a, b, stripped)[i]) == Raw(ps[a + i], stripped && i == 0)
  {
    LookedIs(ps, a, b, stripped, i);
    FieldInterval(ps[a + i], stripped && i == 0);
  }

  lemma {:induction false} SeenIntervals(ps: seq<Part>, a: nat, b: nat, stripped: bool)
    requires Span(ps, a, b, stripped) && a < b && forall i :: 0 <= i < |ps| ==> ReadAsField(ps[i])
    ensures Intervals(Looked(ps, a, b, stripped)) == RawIntervals(ps, a, b, stripped)
  {
    var vs, ws := Intervals(Looked(ps, a, b, stripped)), RawIntervals(ps, a, b, stripped);
    assert |vs| == |ws|;
    forall i | 0 <= i < |ws| ensures vs[i] == ws[i] {
      SeenInterval(ps, a, b, stripped, i);
    }
  }

  lemma {:induction false} AllReadAsFields(els: seq<string>, ps: seq<Part>)
    requires PartsOf(els, ps)
    ensures forall i :: 0 <= i < |ps| ==> ReadAsField(ps[i])
  {
    forall i | 0 <= i < |ps| ensures ReadAsField(ps[i]) {
      assert PartOf(els[i], ps[i]);
    }
  }

  lemma {:induction false} NothingLooked(s: string, ps: seq<Part>, a: nat)
    requires Tidy(s) && PartsOf(Elements(s), ps) && Span(ps, a, a, false)
    ensures Meaning(s) == None
  {
    FieldsAre(s, ps, a, a, false);
    EmptyField();
    assert Inverted(TextIntervals(s)[0]);
  }

  lemma {:induction false} EmptyField()
    ensures FieldPorts("") == Interval(1, 0)
  {
    assert Atoi("") == 0;
  }

  // ----- the ports

  /** The protocol in force at a part. */
  function InForce(ps: seq<Part>, i: int): Protocol
    requires -1 <= i < |ps|
    decreases i + 1
  {
    if i < 0 then Tcp else if ps[i].prefix.Some? then ps[i].prefix.value else InForce(ps, i - 1)
  }

  function Within(a: int, x: int, b: int): nat {
    if a <= x <= b then 1 else 0
  }

  /** How many TCP parts among those from lo to hi have the port x. */
  function TcpBetween(ps: seq<Part>, lo: nat, hi: nat, x: int): nat
    requires lo <= hi <= |ps|
  {
    if lo == hi then 0
    else
      var p := ps[hi - 1];
      TcpBetween(ps, lo, hi - 1, x) + if InForce(ps, hi - 1) == Tcp then Within(p.start, x, p.end) else 0
  }

  lemma {:induction false} TcpBetweenConcat(ps: seq<Part>, lo: nat, mid: nat, hi: nat, x: int)
    requires lo <= mid <= hi <= |ps|
    ensures TcpBetween(ps, lo, hi, x) == TcpBetween(ps, lo, mid, x) + TcpBetween(ps, mid, hi, x)
  {
    if mid < hi {
      TcpBetweenConcat(ps, lo, mid, hi - 1, x);
    }
  }

  lemma {:induction false} NumbersCount(a: int, b: int, x: int)
    ensures multiset(Numbers(a, b))[x] == Within(a, x, b)
    decreases b - a
  {
    if a <= b {
      NumbersCount(a, b - 1, x);
    }
  }

  /** The ports of the TCP ranges, in order. */
  function TcpPorts(rs: seq<Range>): seq<int> {
    if rs == [] then []
    else
      var r := rs[|rs| - 1];
      TcpPorts(rs[..|rs| - 1]) + if r.proto == Tcp then Numbers(r.start, r.end) else []
  }

  lemma {:induction false} TcpPortsAppend(rs: seq<Range>, r: Range)
    ensures TcpPorts(rs + [r]) == TcpPorts(rs) + if r.proto == Tcp then Numbers(r.start, r.end) else []
  {
    assert (rs + [r])[..|rs|] == rs;
  }

  lemma {:induction false} RangesOfStep(els: seq<string>, n: nat, start: int, end: int)
    requires n < |els| && ParseElement(els[n]) == Ports(start, end)
    ensures RangesOf(els, n + 1) == RangesOf(els, n) + [Range(start, end, ProtocolAt(els, n))]
  {
  }

  lemma {:induction false} InForceIs(els: seq<string>, ps: seq<Part>, i: int)
    requires |ps| == |els| && -1 <= i < |els| && forall k :: 0 <= k < |els| ==> ps[k].prefix == PrefixOf(els[k])
    ensures ProtocolAt(els, i) == InForce(ps, i)
    decreases i + 1
  {
    if i >= 0 {
      InForceIs(els, ps, i - 1);
    }
  }

  lemma {:induction false} PrefixesAre(els: seq<string>, ps: seq<Part>)
    requires PartsOf(els, ps)
    ensures forall k :: 0 <= k < |els| ==> ps[k].prefix == PrefixOf(els[k])
  {
    forall k | 0 <= k < |els| ensures ps[k].prefix == PrefixOf(els[k]) {
      assert PartOf(els[k], ps[k]);
    }
  }

  /** The range of a part. */
  function PartRange(ps: seq<Part>, i: nat): Range
    requires i < |ps|
  {
    Range(ps[i].start, ps[i].end, InForce(ps, i))
  }

  /** The ranges of the first n parts. */
  function PartRanges(ps: seq<Part>, n: nat): seq<Range>
    requires n <= |ps|
  {
    if n == 0 then []
    else PartRanges(ps, n - 1) + [PartRange(ps, n - 1)]
  }

  lemma {:induction false} RangeStep(els: seq<string>, ps: seq<Part>, n: nat)
    requires PartsOf(els, ps) && n < |els|
    ensures RangesOf(els, n + 1) == RangesOf(els, n) + [PartRange(ps, n)]
  {
    assert PartOf(els[n], ps[n]);
    PrefixesAre(els, ps);
    InForceIs(els, ps, n);
    RangesOfStep(els, n, ps[n].start, ps[n].end);
  }

  lemma {:induction false} RangesAre(els: seq<string>, ps: seq<Part>, n: nat)
    requires n <= |els| == |ps|
    requires forall k {:trigger PartRange(ps, k)} :: 0 <= k < |els| ==>
      RangesOf(els, k + 1) == RangesOf(els, k) + [PartRange(ps, k)]
    ensures RangesOf(els, n) == PartRanges(ps, n)
  {
    if n > 0 {
      RangesAre(els, ps, n - 1);
      assert PartRanges(ps, n) == PartRanges(ps, n - 1) + [PartRange(ps, n - 1)];
    }
  }

  lemma {:induction false} TextRangesAre(els: seq<string>, ps: seq<Part>)
    requires PartsOf(els, ps)
    ensures RangesOf(els, |els|) == PartRanges(ps, |ps|)
  {
    forall k | 0 <= k < |els| ensures RangesOf(els, k + 1) == RangesOf(els, k) + [PartRange(ps, k)] {
      RangeStep(els, ps, k);
    }
    RangesAre(els, ps, |els|);
  }

  lemma {:induction false} TcpPortsMore(rs: seq<Range>, r: Range, x: int)
    ensures multiset(TcpPorts(rs + [r]))[x] ==
            multiset(TcpPorts(rs))[x] + if r.proto == Tcp then Within(r.start, x, r.end) else 0
  {
    TcpPortsAppend(rs, r);
    NumbersCount(r.start, r.end, x);
  }

  lemma {:induction false} TcpPortsAre(ps: seq<Part>, n: nat, x: int)
    requires n <= |ps|
    ensures multiset(TcpPorts(PartRanges(ps, n)))[x] == TcpBetween(ps, 0, n, x)
  {
    if n > 0 {
      TcpPortsAre(ps, n - 1, x);
      TcpPortsMore(PartRanges(ps, n - 1), PartRange(ps, n - 1), x);
    }
  }

  /** How often getpts adds the number x in front of the ports after a "T:" that is not cut off. */
  function AddedBetween(ps: seq<Part>, lo: nat, hi: nat, x: int): nat
    requires lo <= hi <= |ps|
  {
    if lo == hi then 0
    else AddedBetween(ps, lo, hi - 1, x) + if IsTcp(ps[hi - 1]) then Within(1, x, ps[hi - 1].start - 1) else 0
  }

  lemma {:induction false} AllTcp(ps: seq<Part>, a: nat, b: nat, stripped: bool, i: nat)
    requires Span(ps, a, b, stripped) && a <= i < b
    ensures InForce(ps, i) == Tcp
  {
    if !(stripped && i == a) {
      if i > a {
        AllTcp(ps, a, b, stripped, i - 1);
      }
    }
  }

  lemma {:induction false} CountOfBoth(a: seq<int>, b: seq<int>, x: int)
    ensures multiset(a + b)[x] == multiset(a)[x] + multiset(b)[x]
  {
  }

  lemma {:induction false} WrittenMore(vs: seq<Interval>, n: nat, x: int)
    requires 0 < n <= |vs|
    ensures multiset(Written(vs, n))[x] == multiset(Written(vs, n - 1))[x] + Within(vs[n - 1].start, x, vs[n - 1].end)
  {
    var v := vs[n - 1];
    CountOfBoth(Written(vs, n - 1), Numbers(v.start, v.end), x);
    NumbersCount(v.start, v.end, x);
  }

  /** A part that is written gives its ports, and the numbers before them when a "T:" is left before it. */
  lemma {:induction false} RawPorts(p: Part, stripped: bool, x: int)
    requires Proper(p) && !Inverted(Raw(p, stripped))
    ensures var v := Raw(p, stripped);
      Within(v.start, x, v.end) ==
      Within(p.start, x, p.end) + if IsTcp(p) && !stripped then Within(1, x, p.start - 1) else 0
  {
  }

  lemma {:induction false} FirstWritten(ps: seq<Part>, a: nat, x: int)
    requires a < |ps| && InForce(ps, a) == Tcp
    ensures TcpBetween(ps, a, a + 1, x) == Within(ps[a].start, x, ps[a].end) && AddedBetween(ps, a + 1, a + 1, x) == 0
  {
    assert TcpBetween(ps, a, a, x) == 0;
  }

  lemma {:induction false} NextWritten(ps: seq<Part>, a: nat, n: nat, x: int)
    requires 0 < n && a + n < |ps| && InForce(ps, a + n) == Tcp
    ensures TcpBetween(ps, a, a + n + 1, x) == TcpBetween(ps, a, a + n, x) + Within(ps[a + n].start, x, ps[a + n].end)
    ensures AddedBetween(ps, a + 1, a + n + 1, x) ==
            AddedBetween(ps, a + 1, a + n, x) + if IsTcp(ps[a + n]) then Within(1, x, ps[a + n].start - 1) else 0
  {
  }

  /** The intervals vs are those of the TCP parts from a on. */
  ghost predicate AllRaw(ps: seq<Part>, a: nat, stripped: bool, vs: seq<Interval>) {
    a + |vs| <= |ps| && forall k :: 0 <= k < |vs| ==> RawAt(ps, a, stripped, vs[k], k)
  }

  ghost predicate RawAt(ps: seq<Part>, a: nat, stripped: bool, v: Interval, k: nat)
    requires a + k < |ps|
  {
    && v == Raw(ps[a + k], stripped && k == 0) && !Inverted(v)
    && Proper(ps[a + k]) && InForce(ps, a + k) == Tcp && (k == 0 ==> stripped || !IsTcp(ps[a]))
  }

  lemma {:induction false} RawCount(ps: seq<Part>, a: nat, stripped: bool, vs: seq<Interval>, k: nat, x: int)
    requires AllRaw(ps, a, stripped, vs) && k < |vs|
    ensures InForce(ps, a + k) == Tcp
    ensures Within(vs[k].start, x, vs[k].end) ==
            Within(ps[a + k].start, x, ps[a + k].end)
            + if k > 0 && IsTcp(ps[a + k]) then Within(1, x, ps[a + k].start - 1) else 0
  {
    assert RawAt(ps, a, stripped, vs[k], k);
    RawPorts(ps[a + k], stripped && k == 0, x);
  }

  /** How often the first n intervals have the number x. */
  function WrittenCount(vs: seq<Interval>, n: nat, x: int): nat
    requires n <= |vs|
  {
    if n == 0 then 0 else WrittenCount(vs, n - 1, x) + Within(vs[n - 1].start, x, vs[n - 1].end)
  }

  lemma {:induction false} WrittenCountIs(vs: seq<Interval>, n: nat, x: int)
    requires n <= |vs|
    ensures multiset(Written(vs, n))[x] == WrittenCount(vs, n, x)
  {
    if n > 0 {
      WrittenCountIs(vs, n - 1, x);
      WrittenMore(vs, n, x);
    }
  }

  /** What getpts writes is the ports of the TCP parts looked at, and the numbers added. */
  lemma {:induction false} WrittenIs(ps: seq<Part>, a: nat, stripped: bool, vs: seq<Interval>, n: nat, x: int)
    requires AllRaw(ps, a, stripped, vs) && 0 < n <= |vs|
    ensures WrittenCount(vs, n, x) == TcpBetween(ps, a, a + n, x) + AddedBetween(ps, a + 1, a + n, x)
  {
    RawCount(ps, a, stripped, vs, n - 1, x);
    if n > 1 {
      WrittenIs(ps, a, stripped, vs, n - 1, x);
      NextWritten(ps, a, n - 1, x);
    } else {
      FirstWritten(ps, a, x);
    }
  }

  // ----- the condition

  /** Some "T:" stands before a single port among the parts looked at, after the one that is cut off. */
  predicate SingleAfterT(ps: seq<Part>) {
    exists i :: First(ps) < i < End(ps) && IsTcp(ps[i]) && !ps[i].two
  }

  /** How often the port x is given by TCP parts that are not looked at. */
  function Lost(ps: seq<Part>, x: int): nat {
    TcpBetween(ps, 0, First(ps), x) + TcpBetween(ps, End(ps), |ps|, x)
  }

  /** How often the number x is added. */
  function Added(ps: seq<Part>, x: int): nat {
    if First(ps) < End(ps) then AddedBetween(ps, First(ps) + 1, End(ps), x) else 0
  }

  /** What is lost is what is added. */
  ghost predicate Balanced(ps: seq<Part>) {
    forall x :: Lost(ps, x) == Added(ps, x)
  }

  /** Two ascending lists of the same numbers are equal. */
  lemma {:induction false} SortedUnique(a: seq<int>, b: seq<int>)
    requires Ascending(a) && Ascending(b) && multiset(a) == multiset(b)
    ensures a == b
  {
    SameLength(a, b);
    if a != [] {
      var n := |a| - 1;
      LastAgrees(a, b);
      AllButLast(a, b);
      SortedUnique(a[..n], b[..n]);
      assert a == a[..n] + [a[n]] && b == b[..n] + [b[n]];
    }
  }

  lemma {:induction false} SameLength(a: seq<int>, b: seq<int>)
    requires multiset(a) == multiset(b)
    ensures |a| == |b|
  {
    assert |multiset(a)| == |a| && |multiset(b)| == |b|;
  }

  lemma {:induction false} AllButLast(a: seq<int>, b: seq<int>)
    requires a != [] && |a| == |b| && multiset(a) == multiset(b) && a[|a| - 1] == b[|b| - 1]
    ensures multiset(a[..|a| - 1]) == multiset(b[..|b| - 1])
  {
    var n := |a| - 1;
    assert a == a[..n] + [a[n]] && b == b[..n] + [b[n]];
    assert multiset(a[..n]) == multiset(a) - multiset{a[n]} && multiset(b[..n]) == multiset(b) - multiset{b[n]};
  }

  lemma {:induction false} LastAgrees(a: seq<int>, b: seq<int>)
    requires a != [] && |a| == |b| && Ascending(a) && Ascending(b) && multiset(a) == multiset(b)
    ensures a[|a| - 1] == b[|b| - 1]
  {
    var n := |a| - 1;
    assert a[n] in multiset(b) && b[n] in multiset(a);
    var i :| 0 <= i < |b| && b[i] == a[n];
    var j :| 0 <= j < |a| && a[j] == b[n];
    assert b[i] <= b[n] && a[j] <= a[n];
  }

  /** Sorted arrays are equal exactly for the same numbers. */
  lemma {:induction false} SameArrayIff(a: seq<int>, b: seq<int>)
    requires (forall i :: 0 <= i < |a| ==> a[i] > 0) && forall i :: 0 <= i < |b| ==> b[i] > 0
    ensures Sort(a + [0]) == Sort(b) + [0] <==> multiset(a) == multiset(b)
  {
    SortSorts(a);
    SortSorts(b);
    SortWithZero(a);
    if multiset(a) == multiset(b) {
      SortedUnique(Sort(a), Sort(b));
    }
    if Sort(a) + [0] == Sort(b) + [0] {
      assert (Sort(a) + [0])[..|Sort(a)|] == Sort(a) && (Sort(b) + [0])[..|Sort(b)|] == Sort(b);
    }
  }

  lemma {:induction false} NumbersPositive(rs: seq<Range>)
    requires forall i :: 0 <= i < |rs| ==> rs[i].start >= 1
    ensures forall i :: 0 <= i < |TcpPorts(rs)| ==> TcpPorts(rs)[i] > 0
  {
    if rs != [] {
      NumbersPositive(rs[..|rs| - 1]);
    }
  }

  /** An inverted interval among those looked at, exactly for a single port after a "T:". */
  lemma {:induction false} InvertedIff(ps: seq<Part>, a: nat, b: nat, stripped: bool, vs: seq<Interval>)
    requires AllProper(ps) && Span(ps, a, b, stripped) && a < b && vs == RawIntervals(ps, a, b, stripped)
    requires a == First(ps) && b == End(ps) && stripped == Stripped(ps)
    ensures (exists i :: 0 <= i < |vs| && Inverted(vs[i])) <==> SingleAfterT(ps)
  {
    if i :| 0 <= i < |vs| && Inverted(vs[i]) {
      assert Proper(ps[a + i]);
      assert a < a + i < b && IsTcp(ps[a + i]) && !ps[a + i].two;
    }
    if i :| a < i < b && IsTcp(ps[i]) && !ps[i].two {
      assert Proper(ps[i]) && vs[i - a] == Raw(ps[i], false);
    }
  }

  lemma {:induction false} SoundIff(vs: seq<Interval>)
    ensures Sound(vs) < |vs| <==> exists i :: 0 <= i < |vs| && Inverted(vs[i])
  {
  }

  lemma {:induction false} IntervalRaw(ps: seq<Part>, a: nat, b: nat, stripped: bool, vs: seq<Interval>, k: nat)
    requires AllProper(ps) && Span(ps, a, b, stripped) && vs == RawIntervals(ps, a, b, stripped) && k < |vs|
    ensures vs[k] == Raw(ps[a + k], stripped && k == 0) && Proper(ps[a + k]) && InForce(ps, a + k) == Tcp
    ensures k == 0 ==> stripped || !IsTcp(ps[a])
  {
    AllTcp(ps, a, b, stripped, a + k);
  }

  lemma {:induction false} IntervalsRaw(ps: seq<Part>, a: nat, b: nat, stripped: bool, vs: seq<Interval>)
    requires AllProper(ps) && Span(ps, a, b, stripped) && vs == RawIntervals(ps, a, b, stripped)
    requires forall i :: 0 <= i < |vs| ==> !Inverted(vs[i])
    ensures AllRaw(ps, a, stripped, vs)
  {
    forall k | 0 <= k < |vs| ensures RawAt(ps, a, stripped, vs[k], k) {
      IntervalRaw(ps, a, b, stripped, vs, k);
    }
  }

  lemma {:induction false} TcpSplit(ps: seq<Part>, a: nat, b: nat, x: int)
    requires a <= b <= |ps|
    ensures TcpBetween(ps, 0, |ps|, x) == TcpBetween(ps, 0, a, x) + TcpBetween(ps, a, b, x) + TcpBetween(ps, b, |ps|, x)
  {
    TcpBetweenConcat(ps, 0, a, b, x);
    TcpBetweenConcat(ps, 0, b, |ps|, x);
  }

  lemma {:induction false} RangesPositive(ps: seq<Part>, n: nat)
    requires AllProper(ps) && n <= |ps|
    ensures forall i :: 0 <= i < |PartRanges(ps, n)| ==> PartRanges(ps, n)[i].start >= 1
  {
    if n > 0 {
      RangesPositive(ps, n - 1);
      assert Proper(ps[n - 1]);
    }
  }

  /** The ports of the TCP ranges of the text, counted. */
  lemma {:induction false} TcpOfText(els: seq<string>, ps: seq<Part>, tcp: seq<int>)
    requires PartsOf(els, ps) && AllProper(ps) && tcp == TcpPorts(RangesOf(els, |els|))
    ensures forall x :: multiset(tcp)[x] == TcpBetween(ps, 0, |ps|, x)
    ensures forall i :: 0 <= i < |tcp| ==> tcp[i] > 0
  {
    TextRangesAre(els, ps);
    RangesPositive(ps, |ps|);
    NumbersPositive(PartRanges(ps, |ps|));
    forall x ensures multiset(tcp)[x] == TcpBetween(ps, 0, |ps|, x) {
      TcpPortsAre(ps, |ps|, x);
    }
  }

  /** What is written, counted. */
  lemma {:induction false} WrittenOfText(ps: seq<Part>, a: nat, b: nat, stripped: bool, vs: seq<Interval>, w: seq<int>)
    requires AllProper(ps) && Span(ps, a, b, stripped) && a < b && vs == RawIntervals(ps, a, b, stripped)
    requires (forall i :: 0 <= i < |vs| ==> !Inverted(vs[i])) && w == Written(vs, |vs|)
    ensures forall x :: multiset(w)[x] == TcpBetween(ps, a, b, x) + AddedBetween(ps, a + 1, b, x)
    ensures forall i :: 0 <= i < |w| ==> w[i] > 0
  {
    IntervalsRaw(ps, a, b, stripped, vs);
    WrittenCounts(ps, a, b, stripped, vs, w);
    PositiveWritten(ps, a, stripped, vs);
  }

  lemma {:induction false} WrittenCounts(ps: seq<Part>, a: nat, b: nat, stripped: bool, vs: seq<Interval>, w: seq<int>)
    requires AllRaw(ps, a, stripped, vs) && vs != [] && b == a + |vs| && w == Written(vs, |vs|)
    ensures forall x :: multiset(w)[x] == TcpBetween(ps, a, b, x) + AddedBetween(ps, a + 1, b, x)
  {
    forall x ensures multiset(w)[x] == TcpBetween(ps, a, b, x) + AddedBetween(ps, a + 1, b, x) {
      WrittenCountIs(vs, |vs|, x);
      WrittenIs(ps, a, stripped, vs, |vs|, x);
    }
  }

  lemma {:induction false} PositiveWritten(ps: seq<Part>, a: nat, stripped: bool, vs: seq<Interval>)
    requires AllRaw(ps, a, stripped, vs)
    ensures forall i :: 0 <= i < |Written(vs, |vs|)| ==> Written(vs, |vs|)[i] > 0
  {
    forall i | 0 <= i < |vs| ensures vs[i].start >= 1 {
      assert RawAt(ps, a, stripped, vs[i], i);
    }
    WrittenPositive(vs, |vs|);
  }

  lemma {:induction false} SameCountsIff(ps: seq<Part>, w: seq<int>, tcp: seq<int>)
    requires First(ps) < End(ps)
    requires forall x :: multiset(tcp)[x] == TcpBetween(ps, 0, |ps|, x)
    requires forall x :: multiset(w)[x] == TcpBetween(ps, First(ps), End(ps), x) + AddedBetween(ps, First(ps) + 1, End(ps), x)
    ensures multiset(w) == multiset(tcp) <==> Balanced(ps)
  {
    forall x ensures multiset(w)[x] - Added(ps, x) == multiset(tcp)[x] - Lost(ps, x) {
      TcpSplit(ps, First(ps), End(ps), x);
    }
    if Balanced(ps) {
      forall x ensures multiset(w)[x] == multiset(tcp)[x] {
        assert Lost(ps, x) == Added(ps, x);
      }
    } else {
      var x :| Lost(ps, x) != Added(ps, x);
      assert multiset(w)[x] != multiset(tcp)[x];
    }
  }

  /**
   On a comparable text with the TCP ports tcp, as port_range_ranges gives them, getpts returns
   these sorted, with one 0 behind them, exactly when it looks at something, no single port stands
   after an inner "T:", and the TCP ports it does not look at are the numbers it adds. Where more
   than 65535 numbers are written, this is about the list of them: the C function then writes
   outside its array, and only texts that fit (Fits) are covered by GetPts.
   */
  lemma {:induction false} AgreeIff(s: string, ps: seq<Part>, tcp: seq<int>)
    requires Comparable(s) && PartsOf(Elements(s), ps) && tcp == TcpPorts(RangesOf(Elements(s), |Elements(s)|))
    ensures Meaning(s) == Some(Sort(tcp) + [0]) <==> First(ps) < End(ps) && !SingleAfterT(ps) && Balanced(ps)
  {
    IsSpan(ps);
    FieldsAre(s, ps, First(ps), End(ps), Stripped(ps));
    if First(ps) == End(ps) {
      NothingLooked(s, ps, First(ps));
    } else {
      IntervalsAre(s, ps, First(ps), End(ps), Stripped(ps));
      TcpOfText(Elements(s), ps, tcp);
      ArrayAgreesIff(ps, TextIntervals(s), tcp);
    }
  }

  lemma {:induction false} ArrayAgreesIff(ps: seq<Part>, vs: seq<Interval>, tcp: seq<int>)
    requires AllProper(ps) && First(ps) < End(ps) && vs == RawIntervals(ps, First(ps), End(ps), Stripped(ps))
    requires forall x :: multiset(tcp)[x] == TcpBetween(ps, 0, |ps|, x)
    requires forall i :: 0 <= i < |tcp| ==> tcp[i] > 0
    ensures ArrayOf(vs) == Some(Sort(tcp) + [0]) <==> !SingleAfterT(ps) && Balanced(ps)
  {
    IsSpan(ps);
    InvertedIff(ps, First(ps), End(ps), Stripped(ps), vs);
    SoundIff(vs);
    if !SingleAfterT(ps) {
      SoundArrayAgreesIff(ps, vs, Written(vs, |vs|), tcp);
    }
  }

  lemma {:induction false} SoundArrayAgreesIff(ps: seq<Part>, vs: seq<Interval>, w: seq<int>, tcp: seq<int>)
    requires AllProper(ps) && First(ps) < End(ps) && vs == RawIntervals(ps, First(ps), End(ps), Stripped(ps))
    requires (forall i :: 0 <= i < |vs| ==> !Inverted(vs[i])) && w == Written(vs, |vs|)
    requires forall x :: multiset(tcp)[x] == TcpBetween(ps, 0, |ps|, x)
    requires forall i :: 0 <= i < |tcp| ==> tcp[i] > 0
    ensures Sort(w + [0]) == Sort(tcp) + [0] <==> Balanced(ps)
  {
    IsSpan(ps);
    WrittenOfText(ps, First(ps), End(ps), Stripped(ps), vs, w);
    SameCountsIff(ps, w, tcp);
    SameArrayIff(w, tcp);
  }

  lemma {:induction false} PartsExist(s: string) returns (ps: seq<Part>)
    requires Comparable(s)
    ensures PartsOf(Elements(s), ps)
  {
    ElementsTidy(s);
    ps := PartsFrom(Elements(s));
    PlainParts(Elements(s), ps);
  }

  lemma {:induction false} PlainParts(els: seq<string>, ps: seq<Part>)
    requires (forall i :: 0 <= i < |els| ==> Plainly(els[i])) && ps == PartsFrom(els)
    ensures PartsOf(els, ps)
  {
    forall i | 0 <= i < |els| ensures PartOf(els[i], ps[i]) {
      ElementPart(els[i]);
    }
  }

  // ----- when the places of the prefixes decide

  /** No "T:" is left among the parts looked at. */
  predicate NoInnerT(ps: seq<Part>) {
    forall i :: First(ps) < i < End(ps) ==> !IsTcp(ps[i])
  }

  /** Every TCP part is looked at. */
  predicate AllTcpLooked(ps: seq<Part>) {
    forall i :: 0 <= i < |ps| && InForce(ps, i) == Tcp ==> First(ps) <= i < End(ps)
  }

  lemma {:induction false} NothingAdded(ps: seq<Part>, lo: nat, hi: nat, x: int)
    requires lo <= hi <= |ps| && forall i :: lo <= i < hi ==> !IsTcp(ps[i])
    ensures AddedBetween(ps, lo, hi, x) == 0
  {
    if lo < hi {
      NothingAdded(ps, lo, hi - 1, x);
    }
  }

  lemma {:induction false} NoTcpBetween(ps: seq<Part>, lo: nat, hi: nat, x: int)
    requires lo <= hi <= |ps| && forall i :: lo <= i < hi ==> InForce(ps, i) != Tcp
    ensures TcpBetween(ps, lo, hi, x) == 0
  {
    if lo < hi {
      NoTcpBetween(ps, lo, hi - 1, x);
    }
  }

  lemma {:induction false} TcpCounts(ps: seq<Part>, lo: nat, i: nat, hi: nat)
    requires lo <= i < hi <= |ps| && InForce(ps, i) == Tcp && Proper(ps[i])
    ensures TcpBetween(ps, lo, hi, ps[i].start) > 0
  {
    if i < hi - 1 {
      TcpCounts(ps, lo, i, hi - 1);
    }
  }

  lemma {:induction false} BalancedIff(ps: seq<Part>)
    requires AllProper(ps) && NoInnerT(ps)
    ensures Balanced(ps) <==> AllTcpLooked(ps)
  {
    if AllTcpLooked(ps) {
      forall x ensures Lost(ps, x) == Added(ps, x) {
        NoTcpBetween(ps, 0, First(ps), x);
        NoTcpBetween(ps, End(ps), |ps|, x);
        if First(ps) < End(ps) {
          NothingAdded(ps, First(ps) + 1, End(ps), x);
        }
      }
    } else {
      var i :| 0 <= i < |ps| && InForce(ps, i) == Tcp && !(First(ps) <= i < End(ps));
      var x := ps[i].start;
      assert Proper(ps[i]);
      if i < First(ps) {
        TcpCounts(ps, 0, i, First(ps));
      } else {
        TcpCounts(ps, End(ps), i, |ps|);
      }
      if First(ps) < End(ps) {
        NothingAdded(ps, First(ps) + 1, End(ps), x);
      }
      assert Lost(ps, x) > Added(ps, x);
    }
  }

  /** Without an inner "T:" the two agree exactly when something is looked at and no TCP part is left out. */
  lemma {:induction false} PlacesDecide(s: string, ps: seq<Part>, tcp: seq<int>)
    requires Comparable(s) && PartsOf(Elements(s), ps) && tcp == TcpPorts(RangesOf(Elements(s), |Elements(s)|))
    requires NoInnerT(ps)
    ensures Meaning(s) == Some(Sort(tcp) + [0]) <==> First(ps) < End(ps) && AllTcpLooked(ps)
  {
    AgreeIff(s, ps, tcp);
    IsSpan(ps);
    FieldsAre(s, ps, First(ps), End(ps), Stripped(ps));
    BalancedIff(ps);
  }

  /** "T:" stands at most before the first part, and "U:" only before later ones. */
  predicate PrefixesInOrder(ps: seq<Part>) {
    ps != [] && !IsUdp(ps[0]) && forall i :: 0 < i < |ps| ==> !IsTcp(ps[i])
  }

  lemma {:induction false} UdpBehind(ps: seq<Part>, u: nat, i: nat)
    requires PrefixesInOrder(ps) && 0 < u <= i < |ps| && IsUdp(ps[u])
    ensures InForce(ps, i) == Udp
  {
    if i > u {
      UdpBehind(ps, u, i - 1);
    }
  }

  lemma {:induction false} InOrderLooked(ps: seq<Part>)
    requires PrefixesInOrder(ps)
    ensures First(ps) == 0 < End(ps) && NoInnerT(ps) && AllTcpLooked(ps)
  {
    IsSpan(ps);
    forall i | 0 <= i < |ps| && InForce(ps, i) == Tcp ensures i < End(ps) {
      if i >= End(ps) {
        UdpBehind(ps, End(ps), i);
      }
    }
  }

  /**
   With the prefixes in order, and at most 65535 TCP ports, getpts stays inside its array and
   returns the ports of the TCP ranges in ascending order, as often as they are given, with a
   single 0 after them.
   */
  lemma {:induction false} ParsersAgree(s: string, ps: seq<Part>, tcp: seq<int>)
    requires Comparable(s) && PartsOf(Elements(s), ps) && tcp == TcpPorts(RangesOf(Elements(s), |Elements(s)|))
    requires PrefixesInOrder(ps) && |tcp| <= 65535
    ensures Fits(s) && Meaning(s) == Some(Sort(tcp) + [0])
    ensures Ascending(Sort(tcp)) && multiset(Sort(tcp)) == multiset(tcp)
  {
    InOrderLooked(ps);
    PlacesDecide(s, ps, tcp);
    SortedPorts(s, ps, tcp);
    InOrderIntervals(s, ps);
    HasRoom(ps, TextIntervals(s), tcp);
  }

  lemma {:induction false} SortedPorts(s: string, ps: seq<Part>, tcp: seq<int>)
    requires Comparable(s) && PartsOf(Elements(s), ps) && tcp == TcpPorts(RangesOf(Elements(s), |Elements(s)|))
    ensures Ascending(Sort(tcp)) && multiset(Sort(tcp)) == multiset(tcp) && |Sort(tcp)| == |tcp|
  {
    PartsJoined(s, ps);
    TcpOfText(Elements(s), ps, tcp);
    SortSorts(tcp);
    SameLength(Sort(tcp), tcp);
  }

  lemma {:induction false} InOrderIntervals(s: string, ps: seq<Part>)
    requires Comparable(s) && PartsOf(Elements(s), ps) && First(ps) < End(ps)
    ensures AllProper(ps) && TextIntervals(s) == RawIntervals(ps, First(ps), End(ps), Stripped(ps))
  {
    PartsJoined(s, ps);
    IsSpan(ps);
    IntervalsAre(s, ps, First(ps), End(ps), Stripped(ps));
  }

  lemma {:induction false} HasRoom(ps: seq<Part>, vs: seq<Interval>, tcp: seq<int>)
    requires AllProper(ps) && vs == RawIntervals(ps, First(ps), End(ps), Stripped(ps)) && First(ps) < End(ps)
    requires ArrayOf(vs) == Some(Sort(tcp) + [0]) && |tcp| <= 65535 && |Sort(tcp)| == |tcp|
    ensures |Written(vs, Sound(vs))| <= 65535 && forall i :: 0 <= i < Sound(vs) ==> vs[i].end <= MAX_PORT
  {
    RawEnds(ps, First(ps), End(ps), Stripped(ps), vs);
    WrittenLength(vs, Sort(tcp));
  }

  lemma {:induction false} RawEnds(ps: seq<Part>, a: nat, b: nat, stripped: bool, vs: seq<Interval>)
    requires AllProper(ps) && a <= b <= |ps| && vs == RawIntervals(ps, a, b, stripped)
    ensures forall i :: 0 <= i < |vs| ==> vs[i].start >= 1 && vs[i].end <= MAX_PORT
  {
    forall i | 0 <= i < |vs| ensures vs[i].start >= 1 && vs[i].end <= MAX_PORT {
      assert Proper(ps[a + i]);
    }
  }

  lemma {:induction false} WrittenLength(vs: seq<Interval>, sorted: seq<int>)
    requires ArrayOf(vs) == Some(sorted + [0]) && forall i :: 0 <= i < |vs| ==> vs[i].start >= 1
    ensures Sound(vs) == |vs| && |Written(vs, |vs|)| == |sorted|
  {
    ArrayIsSorted(vs);
  }

  // ----- canonical texts

  /** The parts of the canonical text of TCP ranges. */
  ghost predicate CanonicalParts(rs: seq<Range>, ps: seq<Part>) {
    && |ps| == |rs| > 0
    && forall i :: 0 <= i < |rs| ==> IsTcp(ps[i]) && ps[i].two && ps[i].start == rs[i].start && Proper(ps[i])
  }

  lemma {:induction false} CanonicalPart(r: Range, p: Part)
    requires WellFormed(r) && r.proto == Tcp && PartOf(RangeText(r), p)
    ensures IsTcp(p) && p.two && p.start == r.start && Proper(p)
  {
    RangeTextParses(r);
    var b := Body(RangeText(r));
    assert b[|Decimal(r.start)|] == '-';
    assert '-' in b;
  }

  lemma {:induction false} RangeTextGiven(r: Range)
    requires WellFormed(r)
    ensures Given(RangeText(r))
  {
    var b := Body(RangeText(r));
    assert b[0] == Decimal(r.start)[0];
  }

  lemma {:induction false} RangeTextTidy(r: Range, x: char)
    requires WellFormed(r) && (IsSpace(x) || IsGSpace(x))
    ensures x !in RangeText(r)
  {
  }

  lemma {:induction false} NoneOfThem(s: string)
    requires forall x: char :: IsSpace(x) || IsGSpace(x) ==> x !in s
    ensures Tidy(s)
  {
  }

  lemma {:induction false} CanonicalTidy(rs: seq<Range>, x: char)
    requires rs != [] && (forall r :: r in rs ==> WellFormed(r)) && (IsSpace(x) || IsGSpace(x))
    ensures x !in Canonical(rs)
  {
    forall i | 0 <= i < |rs| ensures x !in Texts(rs)[i] {
      RangeTextTidy(rs[i], x);
    }
    JoinHasOnly(Texts(rs), ',', x);
  }

  lemma {:induction false} CanonicalComparable(rs: seq<Range>)
    requires rs != [] && forall r :: r in rs ==> WellFormed(r)
    ensures Comparable(Canonical(rs)) && Elements(Canonical(rs)) == Texts(rs)
  {
    CanonicalRoundTrip(rs);
    CanonicalElements(rs);
    var s := Canonical(rs);
    forall x: char | IsSpace(x) || IsGSpace(x) ensures x !in s {
      CanonicalTidy(rs, x);
    }
    NoneOfThem(s);
    forall i | 0 <= i < |rs| ensures Given(Texts(rs)[i]) {
      RangeTextGiven(rs[i]);
    }
  }

  lemma {:induction false} AllTcpInForce(ps: seq<Part>)
    requires ps != [] && forall i :: 0 <= i < |ps| ==> IsTcp(ps[i])
    ensures First(ps) == 0 && Stripped(ps) && End(ps) == |ps|
  {
  }

  lemma {:induction false} OneIsAdded(ps: seq<Part>, lo: nat, i: nat, hi: nat)
    requires lo <= i < hi <= |ps| && IsTcp(ps[i]) && ps[i].start > 1
    ensures AddedBetween(ps, lo, hi, 1) > 0
  {
    if i < hi - 1 {
      OneIsAdded(ps, lo, i, hi - 1);
    }
  }

  lemma {:induction false} NoneIsAdded(ps: seq<Part>, lo: nat, hi: nat, x: int)
    requires lo <= hi <= |ps| && forall i :: lo <= i < hi ==> ps[i].start == 1
    ensures AddedBetween(ps, lo, hi, x) == 0
  {
    if lo < hi {
      NoneIsAdded(ps, lo, hi - 1, x);
    }
  }

  lemma {:induction false} CanonicalBalancedIff(rs: seq<Range>, ps: seq<Part>)
    requires CanonicalParts(rs, ps)
    ensures First(ps) < End(ps) && !SingleAfterT(ps)
    ensures Balanced(ps) <==> forall i :: 0 < i < |rs| ==> rs[i].start == 1
  {
    AllTcpInForce(ps);
    if forall i :: 0 < i < |rs| ==> rs[i].start == 1 {
      forall x ensures Lost(ps, x) == Added(ps, x) {
        NoneIsAdded(ps, 1, |ps|, x);
      }
    } else {
      var i :| 0 < i < |rs| && rs[i].start != 1;
      assert Proper(ps[i]);
      OneIsAdded(ps, 1, i, |ps|);
      assert Lost(ps, 1) == 0;
    }
  }

  /** getpts reads the canonical text of TCP ranges as these ranges exactly when all but the first start at port 1. */
  lemma {:induction false} CanonicalAgreesIff(rs: seq<Range>)
    requires rs != [] && forall r :: r in rs ==> WellFormed(r) && r.proto == Tcp
    ensures Acceptable(Canonical(rs)) && RangesOf(Elements(Canonical(rs)), |Elements(Canonical(rs))|) == rs
    ensures Meaning(Canonical(rs)) == Some(Sort(TcpPorts(rs)) + [0]) <==> forall i :: 0 < i < |rs| ==> rs[i].start == 1
  {
    CanonicalRoundTrip(rs);
    CanonicalComparable(rs);
    var ps := PartsExist(Canonical(rs));
    forall i | 0 <= i < |rs| ensures IsTcp(ps[i]) && ps[i].two && ps[i].start == rs[i].start && Proper(ps[i]) {
      assert PartOf(Texts(rs)[i], ps[i]);
      CanonicalPart(rs[i], ps[i]);
    }
    CanonicalBalancedIff(rs, ps);
    AgreeIff(Canonical(rs), ps, TcpPorts(rs));
  }

  /** Two ports in canonical form are such a text on which they differ. */
  lemma {:induction false} TwoPortsDiffer()
    ensures var rs := [Range(80, 80, Tcp), Range(443, 443, Tcp)];
      Acceptable(Canonical(rs)) && Meaning(Canonical(rs)) != Some(Sort(TcpPorts(rs)) + [0])
  {
    var rs := [Range(80, 80, Tcp), Range(443, 443, Tcp)];
    assert rs[1].start != 1;
    CanonicalAgreesIff(rs);
  }
}
