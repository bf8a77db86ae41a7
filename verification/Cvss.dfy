/** The CVSS base score (base/cvss.c) in exact reals: the equations, and what the scanner makes of a vector. */
module Cvss {
  import opened Options
  import opened Text

  datatype Metric = A | I | C | Au | AC | AV

  /** struct cvss */
  datatype Vector = Vector(conf: real, integ: real, avail: real, vector: real, complexity: real, auth: real)

  const Nothing := Vector(0.0, 0.0, 0.0, 0.0, 0.0, 0.0)

  datatype ImpactItem = ImpactItem(name: string, nvalue: real)

  /** impact_map */
  function ImpactMap(m: Metric): (items: seq<ImpactItem>)
    ensures |items| == 3
  {
    match m
    case Au => [ImpactItem("N", 0.704), ImpactItem("M", 0.45), ImpactItem("S", 0.56)]
    case AV => [ImpactItem("N", 1.0), ImpactItem("A", 0.646), ImpactItem("L", 0.395)]
    case AC => [ImpactItem("L", 0.71), ImpactItem("M", 0.61), ImpactItem("H", 0.35)]
    case _ => [ImpactItem("N", 0.0), ImpactItem("P", 0.275), ImpactItem("C", 0.660)]
  }

  /** toenum, letter by letter. */
  function ToEnum(str: string): Option<Metric> {
    if |str| == 1 then
      if str[0] == 'A' then Some(A) else if str[0] == 'I' then Some(I) else if str[0] == 'C' then Some(C) else None
    else if |str| == 2 && str[0] == 'A' then
      if str[1] == 'u' || str[1] == 'U' then Some(Au)
      else if str[1] == 'V' then Some(AV) else if str[1] == 'C' then Some(AC) else None
    else None
  }

  /** The texts that toenum compares with. */
  lemma {:induction false} ToEnumIs(str: string)
    ensures ToEnum(str) ==
            if str == "A" then Some(A)
            else if str == "I" then Some(I)
            else if str == "C" then Some(C)
            else if str == "Au" || str == "AU" then Some(Au)
            else if str == "AV" then Some(AV)
            else if str == "AC" then Some(AC)
            else None
  {
    if |str| == 1 {
      assert str == [str[0]];
    } else if |str| == 2 {
      assert str == [str[0], str[1]];
    }
  }

  function ValueOf(m: Metric, value: string): (r: Option<real>)
    ensures r.Some? ==> exists i :: 0 <= i < 3 && ImpactMap(m)[i] == ImpactItem(value, r.value)
  {
    ValueFrom(ImpactMap(m), value, 0)
  }

  /** The value with that name among the items from i on. */
  function ValueFrom(items: seq<ImpactItem>, value: string, i: nat): (r: Option<real>)
    requires i <= |items|
    ensures r.Some? ==> exists j :: i <= j < |items| && items[j] == ImpactItem(value, r.value)
    decreases |items| - i
  {
    if i == |items| then None
    else if items[i].name == value then Some(items[i].nvalue)
    else ValueFrom(items, value, i + 1)
  }

  function Get(x: Vector, m: Metric): real {
    match m
    case A => x.avail
    case I => x.integ
    case C => x.conf
    case Au => x.auth
    case AC => x.complexity
    case AV => x.vector
  }

  function Set(x: Vector, m: Metric, v: real): (y: Vector)
    ensures Get(y, m) == v && forall n :: n != m ==> Get(y, n) == Get(x, n)
  {
    match m
    case A => x.(avail := v)
    case I => x.(integ := v)
    case C => x.(conf := v)
    case Au => x.(auth := v)
    case AC => x.(complexity := v)
    case AV => x.(vector := v)
  }

  // ----- the equations

  /** get_impact_subscore */
  function Impact(x: Vector): real {
    10.41 * (1.0 - (1.0 - x.conf) * (1.0 - x.integ) * (1.0 - x.avail))
  }

  /** get_exploitability_subscore */
  function Exploitability(x: Vector): real {
    20.0 * x.vector * x.complexity * x.auth
  }

  /** __get_cvss_score */
  function Score(x: Vector): real {
    (0.6 * Impact(x) + 0.4 * Exploitability(x) - 1.5) * if Impact(x) < 0.1 then 0.0 else 1.176
  }

  /** A value of the table, or the 0 of a metric that was not given. */
  ghost predicate Known(m: Metric, v: real) {
    v == 0.0 || exists i :: 0 <= i < 3 && ImpactMap(m)[i].nvalue == v
  }

  ghost predicate Sensible(x: Vector) {
    forall m :: Known(m, Get(x, m))
  }

  lemma {:induction false} Bounds(x: Vector)
    requires Sensible(x)
    ensures 0.0 <= x.vector <= 1.0 && 0.0 <= x.complexity <= 0.71 && 0.0 <= x.auth <= 0.704
    ensures x.conf in {0.0, 0.275, 0.66} && x.integ in {0.0, 0.275, 0.66} && x.avail in {0.0, 0.275, 0.66}
  {
    assert Known(AV, Get(x, AV)) && Known(AC, Get(x, AC)) && Known(Au, Get(x, Au));
    assert Known(C, Get(x, C)) && Known(I, Get(x, I)) && Known(A, Get(x, A));
  }

  lemma {:induction false} Product(a: real, b: real, a0: real, b0: real, a1: real, b1: real)
    requires 0.0 <= a0 <= a <= a1 && 0.0 <= b0 <= b <= b1
    ensures a0 * b0 <= a * b <= a1 * b1
  {
  }

  /** The impact is 0 exactly when nothing is affected; otherwise a score is above 0.25. */
  lemma {:induction false} ScoreInRange(x: Vector)
    requires Sensible(x)
    ensures 0.0 <= Score(x) <= 10.0
    ensures Score(x) == 0.0 <==> x.conf == 0.0 && x.integ == 0.0 && x.avail == 0.0
    ensures Score(x) > 0.0 ==> Score(x) > 0.25
  {
    Bounds(x);
    var k := (1.0 - x.conf) * (1.0 - x.integ);
    Product(1.0 - x.conf, 1.0 - x.integ, 0.34, 0.34, 1.0, 1.0);
    Product(k, 1.0 - x.avail, 0.1156, 0.34, 1.0, 1.0);
    if x.avail != 0.0 {
      Product(k, 1.0 - x.avail, 0.1156, 0.34, 1.0, 0.725);
    } else if x.integ != 0.0 {
      Product(1.0 - x.conf, 1.0 - x.integ, 0.34, 0.34, 1.0, 0.725);
    }
    ExploitabilityInRange(x);
  }

  lemma {:induction false} ExploitabilityInRange(x: Vector)
    requires Sensible(x)
    ensures 0.0 <= Exploitability(x) <= 9.9968
  {
    Bounds(x);
    Product(x.vector, x.complexity, 0.0, 0.0, 1.0, 0.71);
    Product(x.vector * x.complexity, x.auth, 0.0, 0.0, 0.71, 0.704);
    assert Exploitability(x) == 20.0 * (x.vector * x.complexity * x.auth);
  }

  ghost predicate AtMost(x: Vector, y: Vector) {
    && x.conf <= y.conf && x.integ <= y.integ && x.avail <= y.avail
    && x.vector <= y.vector && x.complexity <= y.complexity && x.auth <= y.auth
  }

  lemma {:induction false} ImpactMonotone(x: Vector, y: Vector)
    requires Sensible(x) && Sensible(y) && AtMost(x, y)
    ensures Impact(x) <= Impact(y)
  {
    Bounds(x);
    Bounds(y);
    var k, l := (1.0 - x.conf) * (1.0 - x.integ), (1.0 - y.conf) * (1.0 - y.integ);
    Product(1.0 - x.conf, 1.0 - x.integ, 1.0 - y.conf, 1.0 - y.integ, 1.0, 1.0);
    Product(1.0 - y.conf, 1.0 - y.integ, 0.0, 0.0, 1.0, 1.0);
    Product(k, 1.0 - x.avail, l, 1.0 - y.avail, 1.0, 1.0);
  }

  lemma {:induction false} ExploitabilityMonotone(x: Vector, y: Vector)
    requires Sensible(x) && Sensible(y) && AtMost(x, y)
    ensures Exploitability(x) <= Exploitability(y)
  {
    Bounds(x);
    Bounds(y);
    Product(x.vector, x.complexity, 0.0, 0.0, y.vector, y.complexity);
    Product(x.vector * x.complexity, x.auth, 0.0, 0.0, y.vector * y.complexity, y.auth);
    assert Exploitability(x) == 20.0 * (x.vector * x.complexity * x.auth);
    assert Exploitability(y) == 20.0 * (y.vector * y.complexity * y.auth);
  }

  /** Making metrics worse never lowers the score. */
  lemma {:induction false} ScoreIsMonotone(x: Vector, y: Vector)
    requires Sensible(x) && Sensible(y) && AtMost(x, y)
    ensures Score(x) <= Score(y)
  {
    ScoreInRange(y);
    ImpactMonotone(x, y);
    ExploitabilityMonotone(x, y);
  }

  // ----- rounding

  function Tenths(k: int): real {
    k as real / 10.0
  }

  /** The share a metric leaves unaffected, in two-hundredths. */
  function Left(v: real): int {
    if v == 0.275 then 145 else if v == 0.66 then 68 else 200
  }

  /** The score in units of 10 to the power -12, from the shares left and the exploitability as integers. */
  function Units(p: int, e: int): int {
    147 * (37968000000 - 6246 * p + 640 * e)
  }

  const SHARES: set<int> := {314432, 670480, 924800, 1429700, 1972000, 2720000, 3048625, 4205000, 5800000}

  lemma {:induction false} SharesLeft(a: int, b: int, c: int)
    requires a in {68, 145, 200} && b in {68, 145, 200} && c in {68, 145, 200} && !(a == b == c == 200)
    ensures a * b * c in SHARES
  {
  }

  lemma {:induction false} ImpactUnits(x: Vector)
    requires Sensible(x)
    ensures Impact(x) == 10.41 * (1.0 - (Left(x.conf) * Left(x.integ) * Left(x.avail)) as real / 8000000.0)
    ensures Left(x.conf) in {68, 145, 200} && Left(x.integ) in {68, 145, 200} && Left(x.avail) in {68, 145, 200}
  {
    Bounds(x);
    var a, b, c := Left(x.conf), Left(x.integ), Left(x.avail);
    assert 1.0 - x.conf == a as real / 200.0 && 1.0 - x.integ == b as real / 200.0 && 1.0 - x.avail == c as real / 200.0;
    Cubed(a, b, c);
  }

  lemma {:induction false} Cubed(a: int, b: int, c: int)
    ensures (a as real / 200.0) * (b as real / 200.0) * (c as real / 200.0) == (a * b * c) as real / 8000000.0
  {
    assert (a * b) as real == a as real * b as real;
    assert (a * b * c) as real == (a * b) as real * c as real;
  }

  lemma {:induction false} ExploitabilityUnits(x: Vector) returns (a: int, b: int, c: int)
    requires Sensible(x)
    ensures a in {0, 395, 646, 1000} && b in {0, 35, 61, 71} && c in {0, 450, 560, 704}
    ensures Exploitability(x) == 20.0 * ((a * b * c) as real / 100000000.0)
  {
    assert Known(AV, Get(x, AV)) && Known(AC, Get(x, AC)) && Known(Au, Get(x, Au));
    a := if x.vector == 1.0 then 1000 else if x.vector == 0.646 then 646 else if x.vector == 0.395 then 395 else 0;
    b := if x.complexity == 0.71 then 71 else if x.complexity == 0.61 then 61 else if x.complexity == 0.35 then 35 else 0;
    c := if x.auth == 0.704 then 704 else if x.auth == 0.45 then 450 else if x.auth == 0.56 then 560 else 0;
    assert x.vector == a as real / 1000.0 && x.complexity == b as real / 100.0 && x.auth == c as real / 1000.0;
    Multiplied(a, b, c);
    assert Exploitability(x) == 20.0 * (x.vector * x.complexity * x.auth);
  }

  lemma {:induction false} Multiplied(a: int, b: int, c: int)
    ensures (a as real / 1000.0) * (b as real / 100.0) * (c as real / 1000.0) == (a * b * c) as real / 100000000.0
  {
    assert (a * b) as real == a as real * b as real;
    assert (a * b * c) as real == (a * b) as real * c as real;
  }

  /** No combination of the table's values comes out at a multiple of a tenth. */
  lemma {:induction false} NeverTenths(p: int, a: int, b: int, c: int)
    requires p in SHARES
    requires a in {0, 395, 646, 1000} && b in {0, 35, 61, 71} && c in {0, 450, 560, 704}
    ensures Units(p, a * b * c) % 78125 != 0
  {
  }

  /**
   The documented equation rounds to one decimal. The code does not round: its score is a
   multiple of 0.1 exactly when it is 0, that is when nothing is affected.
   */
  lemma {:induction false} ScoreIsRoundIff(x: Vector)
    requires Sensible(x)
    ensures (exists k :: Score(x) == Tenths(k)) <==> x.conf == 0.0 && x.integ == 0.0 && x.avail == 0.0
  {
    ScoreInRange(x);
    if Score(x) == 0.0 {
      assert Score(x) == Tenths(0);
    } else {
      ImpactUnits(x);
      var a, b, c := ExploitabilityUnits(x);
      var p := Left(x.conf) * Left(x.integ) * Left(x.avail);
      SharesLeft(Left(x.conf), Left(x.integ), Left(x.avail));
      NeverTenths(p, a, b, c);
      ScoreUnits(x, p, a * b * c);
      forall k ensures Score(x) != Tenths(k) {
        TenthUnits(Units(p, a * b * c), k);
      }
    }
  }

  lemma {:induction false} ScoreUnits(x: Vector, p: int, e: int)
    requires Impact(x) == 10.41 * (1.0 - p as real / 8000000.0) && Exploitability(x) == 20.0 * (e as real / 100000000.0)
    requires Score(x) != 0.0
    ensures Score(x) == Units(p, e) as real / 1000000000000.0
  {
  }

  lemma {:induction false} TenthUnits(u: int, k: int)
    requires u % 78125 != 0
    ensures u as real / 1000000000000.0 != Tenths(k)
  {
    if u as real / 1000000000000.0 == Tenths(k) {
      WholeUnits(u, k);
      NoMultiple(u, k * 1280000);
    }
  }

  lemma {:induction false} WholeUnits(u: int, k: int)
    requires u as real / 1000000000000.0 == Tenths(k)
    ensures u == 78125 * (k * 1280000)
  {
    assert (k * 100000000000) as real == k as real * 100000000000.0;
    assert u as real == (k * 100000000000) as real;
  }

  lemma {:induction false} NoMultiple(u: int, j: int)
    requires u % 78125 != 0
    ensures u != 78125 * j
  {
  }

  // ----- the scanner

  datatype Assignment = Assignment(metric: Metric, value: real)

  /** The place of the first c at or after i, or |t|. */
  function FindFrom(t: string, c: char, i: nat): (k: nat)
    requires i <= |t|
    ensures i <= k <= |t| && (k < |t| ==> t[k] == c) && forall j :: i <= j < k ==> t[j] != c
    decreases |t| - i
  {
    if i == |t| || t[i] == c then i else FindFrom(t, c, i + 1)
  }

  /** The place of the first c, or |t|. */
  function Find(t: string, c: char): (k: nat)
    ensures k <= |t| && (k < |t| ==> t[k] == c) && forall j :: 0 <= j < k ==> t[j] != c
  {
    FindFrom(t, c, 0)
  }

  function ColonsFrom(t: string, i: nat): (k: nat)
    requires i <= |t|
    ensures i <= k <= |t| && (k < |t| ==> t[k] != ':') && forall j :: i <= j < k ==> t[j] == ':'
    decreases |t| - i
  {
    if i == |t| || t[i] != ':' then i else ColonsFrom(t, i + 1)
  }

  /** The number of colons strtok skips. */
  function Colons(t: string): (k: nat)
    ensures k <= |t| && (k < |t| ==> t[k] != ':') && forall j :: 0 <= j < k ==> t[j] == ':'
  {
    ColonsFrom(t, 0)
  }

  /** The end of the first token of strtok in t. */
  function TokenEnd(t: string): (q: nat)
    ensures Colons(t) <= q <= |t|
  {
    FindFrom(t, ':', Colons(t))
  }

  function Token(t: string): string {
    t[Colons(t)..TokenEnd(t)]
  }

  /** What the second call of strtok has before it, after the slash at p was cut out. */
  function AfterToken(t: string, p: nat): string
    requires p < |t|
  {
    var q := TokenEnd(t);
    if q < p then t[q + 1..p] else if q < |t| then t[q + 1..] else ""
  }

  /** What the next turn of the loop works on: a colon that strtok cut out ends the string. */
  function Rest(t: string, p: nat): string
    requires p < |t|
  {
    var q := TokenEnd(t);
    if p < q then t[p + 1..q] else t[p + 1..]
  }

  function MetricName(t: string, p: nat): string
    requires p < |t| && t[p] == '/'
  {
    var q := TokenEnd(t);
    if q < p then t[Colons(t)..q] else t[Colons(t)..p]
  }

  function Meant(name: string, value: string): Option<Assignment> {
    if value == "" || ToEnum(name) == None then None
    else
      var v := ValueOf(ToEnum(name).value, value);
      if v == None then None else Some(Assignment(ToEnum(name).value, v.value))
  }

  /** One assignment, and then those of the turns after it; none when either is missing. */
  function First(a: Option<Assignment>, l: Option<seq<Assignment>>): Option<seq<Assignment>> {
    if a == None || l == None then None else Some([a.value] + l.value)
  }

  /** The assignments the loop makes, or None when it gives up. */
  function Scan(t: string): Option<seq<Assignment>>
    decreases |t|
  {
    var p := Find(t, '/');
    if p == |t| then Some([])
    else First(Meant(MetricName(t, p), Token(AfterToken(t, p))), Scan(Rest(t, p)))
  }

  function Apply(l: seq<Assignment>): Vector {
    if l == [] then Nothing
    else Set(Apply(l[..|l| - 1]), l[|l| - 1].metric, l[|l| - 1].value)
  }

  /** get_cvss_score_from_base_metrics */
  function BaseScore(s: Option<string>): real {
    if s == None then -1.0
    else
      var l := Scan(s.value + "/");
      if l == None then -1.0 else Score(Apply(l.value))
  }

  // ----- what any input gives

  ghost predicate AllKnown(l: seq<Assignment>) {
    forall i :: 0 <= i < |l| ==> Known(l[i].metric, l[i].value)
  }

  lemma {:induction false} ScanGivesKnown(t: string)
    ensures Scan(t).Some? ==> AllKnown(Scan(t).value)
    decreases |t|
  {
    var p := Find(t, '/');
    if p < |t| {
      ScanGivesKnown(Rest(t, p));
    }
  }

  lemma {:induction false} ApplySensible(l: seq<Assignment>)
    requires AllKnown(l)
    ensures Sensible(Apply(l))
  {
    if l != [] {
      ApplySensible(l[..|l| - 1]);
    }
  }

  /** Every input gives -1 or a score from 0 to 10, whatever metrics are missing or repeated. */
  lemma {:induction false} EveryInputScores(s: Option<string>)
    ensures BaseScore(s) == -1.0 || 0.0 <= BaseScore(s) <= 10.0
    ensures BaseScore(s) == -1.0 <==> s == None || Scan(s.value + "/") == None
  {
    if s.Some? && Scan(s.value + "/").Some? {
      var l := Scan(s.value + "/").value;
      ScanGivesKnown(s.value + "/");
      ApplySensible(l);
      ScoreInRange(Apply(l));
    }
  }

  /** The last values given leave confidentiality, integrity and availability alone. */
  ghost predicate NothingAffected(l: seq<Assignment>) {
    Last(l, C) == 0.0 && Last(l, I) == 0.0 && Last(l, A) == 0.0
  }

  lemma {:induction false} AppliedIsRoundIff(l: seq<Assignment>)
    requires AllKnown(l)
    ensures (exists k :: Score(Apply(l)) == Tenths(k)) <==> NothingAffected(l)
  {
    ApplySensible(l);
    ScoreIsRoundIff(Apply(l));
    LastValueCounts(l, C);
    LastValueCounts(l, I);
    LastValueCounts(l, A);
  }

  /** What is returned for any input is a rounded number exactly when it is refused or affects nothing. */
  lemma {:induction false} BaseScoreIsRoundIff(s: Option<string>)
    ensures (exists k :: BaseScore(s) == Tenths(k)) <==>
            s == None || Scan(s.value + "/") == None || NothingAffected(Scan(s.value + "/").value)
  {
    EveryInputScores(s);
    if BaseScore(s) == -1.0 {
      assert BaseScore(s) == Tenths(-10);
    } else {
      ScanGivesKnown(s.value + "/");
      AppliedIsRoundIff(Scan(s.value + "/").value);
    }
  }

  /** The value of the last assignment to a metric, or 0. */
  function Last(l: seq<Assignment>, m: Metric): real {
    if l == [] then 0.0
    else if l[|l| - 1].metric == m then l[|l| - 1].value
    else Last(l[..|l| - 1], m)
  }

  lemma {:induction false} LastValueCounts(l: seq<Assignment>, m: Metric)
    ensures Get(Apply(l), m) == Last(l, m)
  {
    if l != [] {
      LastValueCounts(l[..|l| - 1], m);
    }
  }

  /** Only the last value of each metric matters. */
  lemma {:induction false} OnlyLastValuesMatter(l: seq<Assignment>, k: seq<Assignment>)
    requires forall m :: Last(l, m) == Last(k, m)
    ensures Score(Apply(l)) == Score(Apply(k))
  {
    forall m ensures Get(Apply(l), m) == Get(Apply(k), m) {
      LastValueCounts(l, m);
      LastValueCounts(k, m);
    }
    var x, y := Apply(l), Apply(k);
    assert Get(x, A) == Get(y, A) && Get(x, I) == Get(y, I) && Get(x, C) == Get(y, C);
    assert Get(x, Au) == Get(y, Au) && Get(x, AC) == Get(y, AC) && Get(x, AV) == Get(y, AV);
  }

  // ----- canonical vectors

  datatype Choice = Choice(metric: Metric, value: nat)

  function NameOf(m: Metric): (s: string)
    ensures ToEnum(s) == Some(m) && s != "" && ':' !in s && '/' !in s
  {
    match m
    case A => "A"
    case I => "I"
    case C => "C"
    case Au => "Au"
    case AC => "AC"
    case AV => "AV"
  }

  ghost predicate Choosable(l: seq<Choice>) {
    forall i :: 0 <= i < |l| ==> l[i].value < 3
  }

  /** A metric as it stands in a vector, for example "AV:N". */
  function ChoiceText(c: Choice): string
    requires c.value < 3
  {
    NameOf(c.metric) + ":" + ImpactMap(c.metric)[c.value].name
  }

  /** The choices with a slash after each. */
  function ChoicesText(l: seq<Choice>): string
    requires Choosable(l)
  {
    if l == [] then "" else ChoiceText(l[0]) + "/" + ChoicesText(l[1..])
  }

  function Chosen(c: Choice): Assignment
    requires c.value < 3
  {
    Assignment(c.metric, ImpactMap(c.metric)[c.value].nvalue)
  }

  function AllChosen(l: seq<Choice>): (r: seq<Assignment>)
    requires Choosable(l)
    ensures |r| == |l| && forall i :: 0 <= i < |l| ==> r[i] == Chosen(l[i])
  {
    if l == [] then [] else [Chosen(l[0])] + AllChosen(l[1..])
  }

  lemma {:induction false} FindIs(t: string, c: char, i: nat)
    requires i < |t| && t[i] == c && forall j :: 0 <= j < i ==> t[j] != c
    ensures Find(t, c) == i
  {
    assert Find(t, c) >= i;
    assert Find(t, c) <= i;
  }

  /** a colons, then a token up to the colon at q or to the end. */
  ghost predicate TokenHere(t: string, a: nat, q: nat) {
    && a <= q <= |t|
    && (forall j :: 0 <= j < a ==> t[j] == ':')
    && (forall j :: a <= j < q ==> t[j] != ':')
    && (q < |t| ==> t[q] == ':' && a < q)
  }

  lemma {:induction false} TokenIs(t: string, a: nat, q: nat)
    requires TokenHere(t, a, q)
    ensures Colons(t) == a && TokenEnd(t) == q && Token(t) == t[a..q]
  {
    assert a < |t| ==> t[a] != ':';
    assert Colons(t) == a;
    assert TokenEnd(t) == q;
  }

  lemma {:induction false} TokenAlways(t: string)
    ensures TokenHere(t, Colons(t), TokenEnd(t))
  {
  }

  lemma {:induction false} OneSegment(name: string, value: string, rest: string)
    requires name != "" && ':' !in name && '/' !in name
    requires value != "" && ':' !in value && '/' !in value
    ensures var t := name + ":" + value + "/" + rest;
      var p := |name| + 1 + |value|;
      Find(t, '/') == p && MetricName(t, p) == name && Token(AfterToken(t, p)) == value && Rest(t, p) == rest
  {
    var t := name + ":" + value + "/" + rest;
    var n, p := |name|, |name| + 1 + |value|;
    assert forall j :: 0 <= j < n ==> t[j] == name[j];
    assert forall j :: n < j < p ==> t[j] == value[j - n - 1];
    assert t[n] == ':' && t[p] == '/';
    FindIs(t, '/', p);
    TokenIs(t, 0, n);
    assert t[..n] == name && t[n + 1..p] == value && t[p + 1..] == rest;
    TokenIs(value, 0, |value|);
  }

  lemma {:induction false} ChoiceMeant(c: Choice)
    requires c.value < 3
    ensures Meant(NameOf(c.metric), ImpactMap(c.metric)[c.value].name) == Some(Chosen(c))
    ensures var v := ImpactMap(c.metric)[c.value].name; v != "" && ':' !in v && '/' !in v
  {
  }

  lemma {:induction false} ChoicesTextIs(l: seq<Choice>, value: string)
    requires Choosable(l) && l != [] && value == ImpactMap(l[0].metric)[l[0].value].name
    ensures ChoicesText(l) == NameOf(l[0].metric) + ":" + value + "/" + ChoicesText(l[1..])
  {
  }

  /** One turn of the loop. */
  lemma {:induction false} ScanStep(t: string, p: nat, a: Option<Assignment>, l: Option<seq<Assignment>>)
    requires p == Find(t, '/') < |t| && a == Meant(MetricName(t, p), Token(AfterToken(t, p))) && l == Scan(Rest(t, p))
    ensures Scan(t) == First(a, l)
  {
  }

  lemma {:induction false} ScanSegment(name: string, value: string, rest: string, a: Assignment, l: seq<Assignment>)
    requires name != "" && ':' !in name && '/' !in name
    requires value != "" && ':' !in value && '/' !in value
    requires Meant(name, value) == Some(a) && Scan(rest) == Some(l)
    ensures Scan(name + ":" + value + "/" + rest) == Some([a] + l)
  {
    OneSegment(name, value, rest);
    ScanParts(name + ":" + value + "/" + rest, |name| + 1 + |value|, name, value, rest, a, l);
  }

  lemma {:induction false} ScanParts(t: string, p: nat, name: string, value: string, rest: string, a: Assignment, l: seq<Assignment>)
    requires p == Find(t, '/') < |t| && MetricName(t, p) == name && Token(AfterToken(t, p)) == value && Rest(t, p) == rest
    requires Meant(name, value) == Some(a) && Scan(rest) == Some(l)
    ensures Scan(t) == Some([a] + l)
  {
    ScanStep(t, p, Some(a), Some(l));
  }

  lemma {:induction false} CanonicalScans(l: seq<Choice>)
    requires Choosable(l)
    ensures Scan(ChoicesText(l)) == Some(AllChosen(l))
  {
    if l != [] {
      var c, rest := l[0], ChoicesText(l[1..]);
      var value := ImpactMap(c.metric)[c.value].name;
      ChoicesTextIs(l, value);
      ChoiceMeant(c);
      CanonicalScans(l[1..]);
      ScanSegment(NameOf(c.metric), value, rest, Chosen(c), AllChosen(l[1..]));
    }
  }

  ghost predicate NoMetricTwice(l: seq<Choice>) {
    forall i, j :: 0 <= i < j < |l| ==> l[i].metric != l[j].metric
  }

  lemma {:induction false} LastIs(l: seq<Assignment>, i: nat)
    requires i < |l| && forall j :: 0 <= j < |l| && j != i ==> l[j].metric != l[i].metric
    ensures Last(l, l[i].metric) == l[i].value
  {
    if i < |l| - 1 {
      LastIs(l[..|l| - 1], i);
    }
  }

  lemma {:induction false} LastNone(l: seq<Assignment>, m: Metric)
    requires forall j :: 0 <= j < |l| ==> l[j].metric != m
    ensures Last(l, m) == 0.0
  {
    if l != [] {
      LastNone(l[..|l| - 1], m);
    }
  }

  lemma {:induction false} LastOfSameChoices(l: seq<Choice>, k: seq<Choice>, m: Metric)
    requires Choosable(l) && Choosable(k) && NoMetricTwice(l) && NoMetricTwice(k)
    requires forall c :: c in l <==> c in k
    ensures Last(AllChosen(l), m) == Last(AllChosen(k), m)
  {
    if i :| 0 <= i < |l| && l[i].metric == m {
      assert l[i] in k;
      var j :| 0 <= j < |k| && k[j] == l[i];
      LastIs(AllChosen(l), i);
      LastIs(AllChosen(k), j);
    } else {
      LastNone(AllChosen(l), m);
      forall j | 0 <= j < |k| ensures k[j].metric != m {
        assert k[j] in l;
      }
      LastNone(AllChosen(k), m);
    }
  }

  /** The vector itself, without a slash after the last choice. */
  function VectorText(l: seq<Choice>): string
    requires Choosable(l) && l != []
  {
    ChoiceText(l[0]) + if |l| == 1 then "" else "/" + VectorText(l[1..])
  }

  lemma {:induction false} VectorTextIs(l: seq<Choice>)
    requires Choosable(l) && l != []
    ensures VectorText(l) + "/" == ChoicesText(l)
  {
    if |l| == 1 {
      assert ChoicesText(l[1..]) == "";
    } else {
      VectorTextIs(l[1..]);
      assert VectorText(l) + "/" == ChoiceText(l[0]) + "/" + (VectorText(l[1..]) + "/");
    }
  }

  /** A canonical vector is scored by the equations, for the last choice of each metric. */
  lemma {:induction false} CanonicalScore(l: seq<Choice>)
    requires Choosable(l) && l != []
    ensures BaseScore(Some(VectorText(l))) == Score(Apply(AllChosen(l))) >= 0.0
    ensures forall m :: Get(Apply(AllChosen(l)), m) == Last(AllChosen(l), m)
  {
    VectorTextIs(l);
    CanonicalScans(l);
    EveryInputScores(Some(VectorText(l)));
    forall m ensures Get(Apply(AllChosen(l)), m) == Last(AllChosen(l), m) {
      LastValueCounts(AllChosen(l), m);
    }
  }

  /** A canonical vector has a rounded score exactly when it leaves C, I and A out or says "N" for them. */
  lemma {:induction false} CanonicalIsRoundIff(l: seq<Choice>)
    requires Choosable(l) && l != []
    ensures (exists k :: BaseScore(Some(VectorText(l))) == Tenths(k)) <==> NothingAffected(AllChosen(l))
  {
    CanonicalScore(l);
    forall i | 0 <= i < |l| ensures Known(AllChosen(l)[i].metric, AllChosen(l)[i].value) {
      assert AllChosen(l)[i] == Chosen(l[i]);
    }
    AppliedIsRoundIff(AllChosen(l));
  }

  /** "C:P" has no rounded score. */
  lemma {:induction false} PartialIsNotRound(l: seq<Choice>)
    requires l == [Choice(C, 1)]
    ensures VectorText(l) == "C:P" && forall k :: BaseScore(Some(VectorText(l))) != Tenths(k)
  {
    CanonicalIsRoundIff(l);
    assert AllChosen(l)[0] == Chosen(l[0]) == Assignment(C, 0.275);
    LastIs(AllChosen(l), 0);
  }

  /** The order of the metrics of a canonical vector does not matter. */
  lemma {:induction false} AnyOrderScoresTheSame(l: seq<Choice>, k: seq<Choice>)
    requires Choosable(l) && Choosable(k) && NoMetricTwice(l) && NoMetricTwice(k) && l != []
    requires k != [] && forall c :: c in l <==> c in k
    ensures BaseScore(Some(VectorText(l))) == BaseScore(Some(VectorText(k)))
  {
    CanonicalScore(l);
    CanonicalScore(k);
    forall m ensures Last(AllChosen(l), m) == Last(AllChosen(k), m) {
      LastOfSameChoices(l, k, m);
    }
    OnlyLastValuesMatter(AllChosen(l), AllChosen(k));
  }

  // ----- segments

  /** One segment between slashes read on its own. */
  function SegmentAlone(s: string): Option<Assignment> {
    var q := TokenEnd(s);
    if q == |s| then None else Meant(s[Colons(s)..q], Token(s[q + 1..]))
  }

  function BySegments(t: string): Option<seq<Assignment>> {
    EachSegment(t, SegmentAlone)
  }

  /** The segments before the slashes, each read on its own. */
  function EachSegment(t: string, alone: string -> Option<Assignment>): Option<seq<Assignment>>
    decreases |t|
  {
    var p := Find(t, '/');
    if p == |t| then Some([]) else First(alone(t[..p]), EachSegment(t[p + 1..], alone))
  }

  /**
   The first segment without a colon after its metric is followed by text whose first colon comes
   before any other slash, and from which strtok takes an acceptable value.
   */
  predicate Strays(t: string) {
    Straying(t).Some?
  }

  /** What a later segment has, when this one stands on its own, and otherwise what strays into this one. */
  function Further(alone: Option<Assignment>, later: Option<Assignment>, here: Option<Assignment>): Option<Assignment> {
    if alone.Some? then later else here
  }

  /** The assignment made from a value that strays in. */
  function Straying(t: string): Option<Assignment> {
    FirstStraying(t, SegmentAlone, StrayingHere)
  }

  /** The first segment that does not stand on its own, as here reads the text from it on. */
  function FirstStraying(t: string, alone: string -> Option<Assignment>, here: string -> Option<Assignment>): Option<Assignment>
    decreases |t|
  {
    var p := Find(t, '/');
    if p == |t| then None else Further(alone(t[..p]), FirstStraying(t[p + 1..], alone, here), here(t))
  }

  /** The assignment made from a value that strays into the first segment. */
  function StrayingHere(t: string): Option<Assignment> {
    var p := Find(t, '/');
    if p == |t| then None else StrayingIn(t, p)
  }

  function StrayingIn(t: string, p: nat): Option<Assignment>
    requires p < |t| && t[p] == '/'
  {
    var q := TokenEnd(t);
    if p < q < |t| && q <= FindFrom(t, '/', p + 1) then Meant(MetricName(t, p), Token(AfterToken(t, p))) else None
  }

  lemma {:induction false} TokenOfPrefix(t: string, p: nat)
    requires Colons(t) <= p <= |t|
    ensures var q := TokenEnd(t);
      Colons(t[..p]) == Colons(t) && TokenEnd(t[..p]) == if q < p then q else p
  {
    TokenAlways(t);
    TokenIs(t[..p], Colons(t), if TokenEnd(t) < p then TokenEnd(t) else p);
  }

  lemma {:induction false} SegmentAloneIs(s: string, name: string, after: string)
    requires TokenEnd(s) < |s| && s[Colons(s)..TokenEnd(s)] == name && s[TokenEnd(s) + 1..] == after
    ensures SegmentAlone(s) == Meant(name, Token(after))
  {
  }

  lemma {:induction false} NoSegmentAlone(s: string)
    requires TokenEnd(s) == |s|
    ensures SegmentAlone(s) == None
  {
  }

  lemma {:induction false} SlicesOfPrefix(t: string, p: nat, a: nat, q: nat)
    requires a <= q < p <= |t|
    ensures t[..p][a..q] == t[a..q] && t[..p][q + 1..] == t[q + 1..p]
  {
  }

  lemma {:induction false} SegmentIs(t: string)
    requires Find(t, '/') < |t|
    ensures var p, q := Find(t, '/'), TokenEnd(t);
      if q < p then SegmentAlone(t[..p]) == Meant(MetricName(t, p), Token(AfterToken(t, p))) && Rest(t, p) == t[p + 1..]
      else SegmentAlone(t[..p]) == None
  {
    var p, q, a := Find(t, '/'), TokenEnd(t), Colons(t);
    assert t[p] == '/' && a <= p;
    TokenOfPrefix(t, p);
    if q < p {
      SlicesOfPrefix(t, p, a, q);
      SegmentAloneIs(t[..p], MetricName(t, p), AfterToken(t, p));
    } else {
      NoSegmentAlone(t[..p]);
    }
  }

  lemma {:induction false} NoColonNoValue(t: string)
    requires ':' !in t
    ensures Scan(t) == if '/' in t then None else Some([])
  {
    var p := Find(t, '/');
    if p < |t| {
      assert TokenEnd(t) == |t|;
      assert Token("") == "";
    }
  }

  /** A metric without a value of its own gets the value that strays in, if one does. */
  lemma {:induction false} NoValueOfItsOwn(t: string)
    requires Find(t, '/') < |t| && TokenEnd(t) >= Find(t, '/')
    ensures BySegments(t) == None
    ensures Scan(t).Some? <==> Strays(t)
  {
    NoSegment(t);
    if TokenEnd(t) < |t| {
      StrayValue(t);
    } else {
      NothingStrays(t);
    }
  }

  lemma {:induction false} StrayValue(t: string)
    requires Find(t, '/') <= TokenEnd(t) < |t|
    ensures Scan(t).Some? <==> Strays(t)
  {
    assert t[Find(t, '/')] == '/' && t[TokenEnd(t)] == ':';
    StrayScan(t, Find(t, '/'), TokenEnd(t));
    StraysHere(t, Find(t, '/'), TokenEnd(t));
  }

  lemma {:induction false} StrayScan(t: string, p: nat, q: nat)
    requires p == Find(t, '/') < q == TokenEnd(t) < |t|
    ensures Scan(t).Some? <==> '/' !in t[p + 1..q] && Meant(MetricName(t, p), Token(AfterToken(t, p))).Some?
  {
    ScanStep(t, p, Meant(MetricName(t, p), Token(AfterToken(t, p))), Scan(Rest(t, p)));
    NoColonNoValue(t[p + 1..q]);
  }

  lemma {:induction false} NoneBetween(t: string, c: char, i: nat, q: nat)
    requires i <= q <= |t|
    ensures q <= FindFrom(t, c, i) <==> c !in t[i..q]
  {
    var k := FindFrom(t, c, i);
    if k < q {
      assert t[i..q][k - i] == c;
    }
  }

  lemma {:induction false} StraysHere(t: string, p: nat, q: nat)
    requires p == Find(t, '/') < q == TokenEnd(t) < |t|
    ensures Strays(t) <==> '/' !in t[p + 1..q] && Meant(MetricName(t, p), Token(AfterToken(t, p))).Some?
  {
    NoneBetween(t, '/', p + 1, q);
  }

  lemma {:induction false} NothingStrays(t: string)
    requires Find(t, '/') < |t| == TokenEnd(t)
    ensures Scan(t).None? && !Strays(t)
  {
    var p := Find(t, '/');
    assert AfterToken(t, p) == "" && Token("") == "";
    ScanStep(t, p, Meant(MetricName(t, p), ""), Scan(Rest(t, p)));
  }

  lemma {:induction false} NoSegment(t: string)
    requires Find(t, '/') < |t| && TokenEnd(t) >= Find(t, '/')
    ensures BySegments(t) == None
  {
    SegmentIs(t);
  }

  lemma {:induction false} SegmentTurn(t: string, p: nat)
    requires TokenEnd(t) < p == Find(t, '/') < |t|
    ensures SegmentAlone(t[..p]) == Meant(MetricName(t, p), Token(AfterToken(t, p))) && Rest(t, p) == t[p + 1..]
  {
    SegmentIs(t);
  }

  lemma {:induction false} ScanSegmentStep(t: string, p: nat, a: Option<Assignment>, l: Option<seq<Assignment>>)
    requires TokenEnd(t) < p == Find(t, '/') < |t| && a == SegmentAlone(t[..p]) && l == Scan(t[p + 1..])
    ensures Scan(t) == First(a, l)
  {
    SegmentTurn(t, p);
    ScanStep(t, p, a, l);
  }

  lemma {:induction false} EachSegmentStep(t: string, p: nat, alone: string -> Option<Assignment>,
                                           a: Option<Assignment>, l: Option<seq<Assignment>>)
    requires p == Find(t, '/') < |t| && a == alone(t[..p]) && l == EachSegment(t[p + 1..], alone)
    ensures EachSegment(t, alone) == First(a, l)
  {
  }

  lemma {:induction false} FirstStrayingStep(t: string, p: nat, alone: string -> Option<Assignment>, here: string -> Option<Assignment>,
                                             a: Option<Assignment>, b: Option<Assignment>)
    requires p == Find(t, '/') < |t| && a == alone(t[..p]) && b == FirstStraying(t[p + 1..], alone, here)
    ensures FirstStraying(t, alone, here) == Further(a, b, here(t))
  {
  }

  /** The code reads a vector segment by segment exactly when no value strays from one segment to another. */
  lemma {:induction false} SegmentsReadAloneIff(t: string)
    ensures Scan(t) == BySegments(t) <==> !Strays(t)
    ensures Strays(t) ==> Scan(t).Some? && BySegments(t) == None
    decreases |t|
  {
    var p, q := Find(t, '/'), TokenEnd(t);
    if p < |t| && q < p {
      SegmentsReadAloneIff(t[p + 1..]);
      ScanSegmentStep(t, p, SegmentAlone(t[..p]), Scan(t[p + 1..]));
      EachSegmentStep(t, p, SegmentAlone, SegmentAlone(t[..p]), BySegments(t[p + 1..]));
      FirstStrayingStep(t, p, SegmentAlone, StrayingHere, SegmentAlone(t[..p]), Straying(t[p + 1..]));
    } else if p < |t| {
      NoValueOfItsOwn(t);
    }
  }

  /**
   Such vectors, with their first slash at n and their first colons at q and r: the metric of the
   first segment takes the value between the colons, and the rest is never looked at.
   */
  lemma {:induction false} StrayVectors(t: string, n: nat, q: nat, r: nat)
    requires 0 < n < q && q + 1 < r < |t| && t[n] == '/' && t[q] == ':' && t[r] == ':'
    requires forall j :: 0 <= j < q && j != n ==> t[j] != '/' && t[j] != ':'
    requires forall j :: q < j < r ==> t[j] != ':'
    requires Meant(t[..n], t[q + 1..r]).Some?
    ensures Scan(t) == Some([Meant(t[..n], t[q + 1..r]).value]) && BySegments(t) == None
  {
    StrayPieces(t, n, q, r);
    NoColonNoValue(t[n + 1..q]);
    SegmentIs(t);
    OneTurn(t, n, Meant(t[..n], t[q + 1..r]).value);
  }

  lemma {:induction false} StrayPieces(t: string, n: nat, q: nat, r: nat)
    requires 0 < n < q && q + 1 < r < |t| && t[n] == '/' && t[q] == ':' && t[r] == ':'
    requires forall j :: 0 <= j < q && j != n ==> t[j] != '/' && t[j] != ':'
    requires forall j :: q < j < r ==> t[j] != ':'
    ensures Find(t, '/') == n && TokenEnd(t) == q && MetricName(t, n) == t[..n]
    ensures Token(AfterToken(t, n)) == t[q + 1..r] && Rest(t, n) == t[n + 1..q]
    ensures ':' !in t[n + 1..q] && '/' !in t[n + 1..q]
  {
    FindIs(t, '/', n);
    TokenIs(t, 0, q);
    TokenOfSuffix(t, q + 1, r);
  }

  lemma {:induction false} TokenOfSuffix(t: string, b: nat, r: nat)
    requires b < r < |t| && t[r] == ':' && forall j :: b <= j < r ==> t[j] != ':'
    ensures Token(t[b..]) == t[b..r]
  {
    TokenIs(t[b..], 0, r - b);
  }

  lemma {:induction false} OneTurn(t: string, p: nat, a: Assignment)
    requires Find(t, '/') == p < |t| && Meant(MetricName(t, p), Token(AfterToken(t, p))) == Some(a)
    requires Scan(Rest(t, p)) == Some([]) && SegmentAlone(t[..p]) == None
    ensures Scan(t) == Some([a]) && BySegments(t) == None
  {
    assert [a] + [] == [a];
  }

  lemma {:induction false} StrayVector()
    ensures Scan("C/x:C:/") == Some([Assignment(C, 0.660)]) && BySegments("C/x:C:/") == None
  {
    var t := "C/x:C:/";
    assert t[..1] == "C" && t[4..5] == "C";
    StrayVectors(t, 1, 3, 5);
  }
}
