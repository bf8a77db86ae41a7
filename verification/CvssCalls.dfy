/** The CVSS calculator (base/cvss.c) in place: it cuts its copy of the vector with strtok as it goes. */
module CvssCalls {
  import opened Options
  import opened Text
  import opened Cvss

  const NUL: char := 0 as char

  /** At i in memory there is the C string t. */
  ghost predicate Holds(s: seq<char>, i: int, t: string) {
    0 <= i && i + |t| < |s| && s[i..i + |t|] == t && s[i + |t|] == NUL && NUL !in t
  }

  lemma {:induction false} HoldsAt(s: seq<char>, i: nat, t: string)
    requires Holds(s, i, t)
    ensures forall j :: 0 <= j < |t| ==> s[i + j] == t[j] != NUL
  {
    forall j | 0 <= j < |t| ensures s[i + j] == t[j] != NUL {
      assert s[i..i + |t|][j] == t[j];
      assert t[j] in t;
    }
  }

  /** strchr */
  method Strchr(buf: array<char>, i: nat, c: char, ghost t: string) returns (p: int)
    requires Holds(buf[..], i, t) && c != NUL
    ensures p == if Find(t, c) < |t| then i + Find(t, c) else -1
  {
    HoldsAt(buf[..], i, t);
    p := i;
    while buf[p] != c && buf[p] != NUL
      invariant i <= p <= i + |t| && Find(t, c) >= p - i
      decreases i + |t| - p
    {
      assert buf[..][i + (p - i)] == t[p - i];
      p := p + 1;
    }
    if buf[p] == NUL {
      p := -1;
    }
  }

  /** The place of the first character that is no colon. */
  method SkipColons(buf: array<char>, start: nat, ghost t: string) returns (tok: nat)
    requires Holds(buf[..], start, t)
    ensures tok == start + Colons(t) < buf.Length
    ensures buf[tok] == NUL <==> Colons(t) == |t|
  {
    HoldsAt(buf[..], start, t);
    tok := start;
    while buf[tok] == ':'
      invariant start <= tok <= start + |t| && Colons(t) >= tok - start
      decreases start + |t| - tok
    {
      assert buf[..][start + (tok - start)] == t[tok - start];
      tok := tok + 1;
    }
  }

  /** One call of strtok with ":", on the string at start; save is where the next call goes on. */
  method Strtok(buf: array<char>, start: nat, ghost t: string) returns (tok: int, save: nat)
    requires Holds(buf[..], start, t)
    modifies buf
    ensures tok == if Colons(t) < |t| then start + Colons(t) else -1
    ensures save == start + if TokenEnd(t) < |t| then TokenEnd(t) + 1 else |t|
    ensures buf[..] == if TokenEnd(t) < |t| then old(buf[..])[start + TokenEnd(t) := NUL] else old(buf[..])
  {
    tok := SkipColons(buf, start, t);
    HoldsAt(buf[..], start, t);
    if buf[tok] == NUL {
      return -1, tok;
    }
    ghost var u := t[Colons(t)..];
    Part(buf[..], start, t, Colons(t), |t|);
    var q := Strchr(buf, tok, ':', u);
    if q < 0 {
      save := EndOf(buf, tok, u);
    } else {
      buf[q] := NUL;
      save := q + 1;
    }
  }

  method EndOf(buf: array<char>, i: nat, ghost t: string) returns (e: nat)
    requires Holds(buf[..], i, t)
    ensures e == i + |t|
  {
    HoldsAt(buf[..], i, t);
    e := i;
    while buf[e] != NUL
      invariant i <= e <= i + |t|
      decreases i + |t| - e
    {
      assert buf[..][i + (e - i)] == t[e - i];
      e := e + 1;
    }
  }

  /** Part of the text t at i is a string where memory has that part and then a NUL. */
  lemma {:induction false} Part(s: seq<char>, i: nat, t: string, a: nat, b: nat)
    requires a <= b <= |t| && i + b < |s| && s[i + b] == NUL
    requires forall j :: a <= j < b ==> s[i + j] == t[j] != NUL
    ensures Holds(s, i + a, t[a..b])
  {
    assert s[i + a..i + b] == t[a..b];
  }

  /** The string at i, as strcmp reads it. */
  method StringAt(buf: array<char>, i: nat, ghost t: string) returns (s: string)
    requires Holds(buf[..], i, t)
    ensures s == t
  {
    var e := EndOf(buf, i, t);
    s := buf[i..e];
  }

  /** struct cvss */
  class Struct {
    var x: Vector

    constructor ()
      ensures x == Nothing
    {
      x := Nothing;
    }

    /** set_impact_from_str */
    method SetImpact(value: string, metric: Metric) returns (rc: int)
      modifies this
      ensures rc == if ValueOf(metric, value).Some? then 0 else -1
      ensures x == if rc == 0 then Set(old(x), metric, ValueOf(metric, value).value) else old(x)
    {
      for i := 0 to 3
        invariant x == old(x) && forall j :: 0 <= j < i ==> ImpactMap(metric)[j].name != value
      {
        var impact := ImpactMap(metric)[i];
        if impact.name == value {
          x := Set(x, metric, impact.nvalue);
          return 0;
        }
      }
      rc := -1;
    }
  }

  /** Memory after the colon at q, if there is one, and the slash at p were cut out of the text at i. */
  ghost function Cut(s: seq<char>, i: nat, p: nat, q: nat, end: nat): seq<char>
    requires i + p < |s| && i + end <= |s| && q <= end
  {
    var s1 := if q < end then s[i + q := NUL] else s;
    s1[i + p := NUL]
  }

  lemma {:induction false} PartToEnd(s: seq<char>, i: nat, t: string, a: nat)
    requires a <= |t| && i + |t| < |s| && s[i + |t|] == NUL
    requires forall j :: a <= j < |t| ==> s[i + j] == t[j] != NUL
    ensures Holds(s, i + a, t[a..])
  {
    assert s[i + a..i + |t|] == t[a..];
  }

  lemma {:induction false} PieceBefore(s: seq<char>, i: nat, t: string, a: nat, q: nat, p: nat)
    requires Holds(s, i, t) && a <= p < |t| && a <= q <= |t| && p != q
    ensures Holds(Cut(s, i, p, q, |t|), i + a, t[a..if q < p then q else p])
  {
    HoldsAt(s, i, t);
    Part(Cut(s, i, p, q, |t|), i, t, a, if q < p then q else p);
  }

  /** The text after the first cut, up to the second one. */
  lemma {:induction false} PieceBetween(s: seq<char>, i: nat, t: string, q: nat, p: nat)
    requires Holds(s, i, t) && p < |t| && q <= |t| && p != q
    ensures var s' := Cut(s, i, p, q, |t|);
      if q < p then Holds(s', i + q + 1, t[q + 1..p]) else Holds(s', i + p + 1, t[p + 1..q])
  {
    HoldsAt(s, i, t);
    Part(Cut(s, i, p, q, |t|), i, t, (if q < p then q else p) + 1, if q < p then p else q);
  }

  /** The text after the second cut. */
  lemma {:induction false} PieceAfter(s: seq<char>, i: nat, t: string, q: nat, p: nat)
    requires Holds(s, i, t) && p < |t| && q <= |t| && p != q
    ensures var s' := Cut(s, i, p, q, |t|);
      if q < p then Holds(s', i + p + 1, t[p + 1..])
      else if q < |t| then Holds(s', i + q + 1, t[q + 1..])
      else Holds(s', i + |t|, "")
  {
    HoldsAt(s, i, t);
    if q < |t| {
      PartToEnd(Cut(s, i, p, q, |t|), i, t, (if q < p then p else q) + 1);
    }
  }

  /** After the cuts there is the name of the metric ... */
  lemma {:induction false} NamePiece(s: seq<char>, base: nat, t: string, p: nat, q: nat)
    requires Holds(s, base, t) && p == Find(t, '/') < |t| && q == TokenEnd(t)
    ensures Holds(Cut(s, base, p, q, |t|), base + Colons(t), MetricName(t, p))
  {
    SlashBesideToken(t);
    PieceBefore(s, base, t, Colons(t), q, p);
  }

  /** ... the text for the next strtok ... */
  lemma {:induction false} AfterPiece(s: seq<char>, base: nat, t: string, p: nat, q: nat)
    requires Holds(s, base, t) && p == Find(t, '/') < |t| && q == TokenEnd(t)
    ensures Holds(Cut(s, base, p, q, |t|), base + if q < |t| then q + 1 else |t|, AfterToken(t, p))
  {
    SlashBesideToken(t);
    if q < p {
      PieceBetween(s, base, t, q, p);
    } else {
      PieceAfter(s, base, t, q, p);
    }
  }

  /** ... and the text for the next turn. */
  lemma {:induction false} RestPiece(s: seq<char>, base: nat, t: string, p: nat, q: nat)
    requires Holds(s, base, t) && p == Find(t, '/') < |t| && q == TokenEnd(t)
    ensures Holds(Cut(s, base, p, q, |t|), base + p + 1, Rest(t, p))
  {
    SlashBesideToken(t);
    if q < p {
      PieceAfter(s, base, t, q, p);
    } else {
      PieceBetween(s, base, t, q, p);
    }
  }

  lemma {:induction false} SlashBesideToken(t: string)
    requires Find(t, '/') < |t|
    ensures t[Find(t, '/')] == '/' && Colons(t) <= Find(t, '/') && Find(t, '/') != TokenEnd(t)
  {
    TokenAlways(t);
  }

  /** The value, after strtok took it. */
  lemma {:induction false} ValuePart(s: seq<char>, i: nat, r: string, a: nat, q: nat)
    requires Holds(s, i, r) && a <= q <= |r|
    ensures Holds(if q < |r| then s[i + q := NUL] else s, i + a, r[a..q])
  {
    HoldsAt(s, i, r);
    Part(if q < |r| then s[i + q := NUL] else s, i, r, a, q);
  }

  lemma {:induction false} TokenEmpty(r: string)
    ensures Colons(r) < |r| <==> Token(r) != ""
    ensures TokenEnd(r) < |r| ==> TokenEnd(r) > 0
  {
    TokenAlways(r);
  }

  /** Writing elsewhere does not change a string. */
  lemma {:induction false} HoldsElsewhere(s: seq<char>, i: nat, t: string, k: nat)
    requires Holds(s, i, t) && k < |s| && (k < i || k > i + |t|)
    ensures Holds(s[k := NUL], i, t)
  {
    assert s[k := NUL][i..i + |t|] == s[i..i + |t|];
  }

  /** toenum */
  method MetricOf(str: string) returns (res: Option<Metric>)
    ensures res == ToEnum(str)
  {
    ToEnumIs(str);
    res := None;
    if str == "A" {
      res := Some(A);
    } else if str == "I" {
      res := Some(I);
    } else if str == "C" {
      res := Some(C);
    } else if str == "Au" || str == "AU" {
      res := Some(Au);
    } else if str == "AV" {
      res := Some(AV);
    } else if str == "AC" {
      res := Some(AC);
    }
  }

  /** One turn of the loop of get_cvss_score_from_base_metrics: t is the text at base, slash the place of its first slash. */
  method Turn(buf: array<char>, base: nat, slash: nat, cvss: Struct, ghost t: string) returns (ok: bool, base': nat)
    requires Holds(buf[..], base, t) && Find(t, '/') < |t| && slash == base + Find(t, '/')
    modifies buf, cvss
    ensures base' == slash + 1
    ensures var p := Find(t, '/');
      var a := Meant(MetricName(t, p), Token(AfterToken(t, p)));
      && ok == a.Some?
      && (ok ==> cvss.x == Set(old(cvss.x), a.value.metric, a.value.value) && Holds(buf[..], base', Rest(t, p)))
  {
    ghost var p := Find(t, '/');
    var metricName, metricValue;
    metricName, metricValue, base' := CutSegment(buf, base, slash, t);
    ok := false;
    if metricValue >= 0 {
      var n := StringAt(buf, metricName, MetricName(t, p));
      var v := StringAt(buf, metricValue, Token(AfterToken(t, p)));
      var metric := MetricOf(n);
      if metric.Some? {
        var rc := cvss.SetImpact(v, metric.value);
        ok := rc == 0;
      }
    }
  }

  /** The two calls of strtok, with the slash cut out between them. */
  method CutSegment(buf: array<char>, base: nat, slash: nat, ghost t: string)
    returns (name: nat, value: int, base': nat)
    requires Holds(buf[..], base, t) && Find(t, '/') < |t| && slash == base + Find(t, '/')
    modifies buf
    ensures base' == slash + 1
    ensures var p := Find(t, '/');
      var r := AfterToken(t, p);
      && Holds(buf[..], base', Rest(t, p)) && Holds(buf[..], name, MetricName(t, p))
      && (value >= 0 <==> Token(r) != "") && (value >= 0 ==> Holds(buf[..], value, Token(r)))
  {
    ghost var p := Find(t, '/');
    name, value := CutBoth(buf, base, slash, t, MetricName(t, p), AfterToken(t, p), Rest(t, p));
    base' := slash + 1;
  }

  /** These two calls, with the texts they leave behind. */
  method CutBoth(buf: array<char>, base: nat, slash: nat, ghost t: string,
                 ghost nameText: string, ghost after: string, ghost rest: string)
    returns (name: nat, value: int)
    requires Holds(buf[..], base, t) && Find(t, '/') < |t| && slash == base + Find(t, '/')
    requires var p := Find(t, '/'); nameText == MetricName(t, p) && after == AfterToken(t, p) && rest == Rest(t, p)
    modifies buf
    ensures Holds(buf[..], slash + 1, rest) && Holds(buf[..], name, nameText)
    ensures (value >= 0 <==> Token(after) != "") && (value >= 0 ==> Holds(buf[..], value, Token(after)))
  {
    var save;
    name, save := CutMetric(buf, base, slash, t, nameText, after, rest);
    value := TakeValue(buf, save, after, name, nameText, slash + 1, rest);
  }

  /** The first call of strtok, with the texts it leaves behind. */
  method CutMetric(buf: array<char>, base: nat, slash: nat, ghost t: string,
                   ghost nameText: string, ghost after: string, ghost rest: string)
    returns (name: nat, save: nat)
    requires Holds(buf[..], base, t) && Find(t, '/') < |t| && slash == base + Find(t, '/')
    requires var p := Find(t, '/'); nameText == MetricName(t, p) && after == AfterToken(t, p) && rest == Rest(t, p)
    modifies buf
    ensures Holds(buf[..], slash + 1, rest) && Holds(buf[..], name, nameText) && Holds(buf[..], save, after)
    ensures name + |nameText| <= save && (slash + 1 + |rest| <= save || slash + 1 > save + |after|)
  {
    ghost var s, p, q := buf[..], Find(t, '/'), TokenEnd(t);
    NamePiece(s, base, t, p, q);
    AfterPiece(s, base, t, p, q);
    RestPiece(s, base, t, p, q);
    PieceSizes(t, p, q);
    name, save := CutName(buf, base, slash, t, p, q, nameText, after, rest);
  }

  /** The first call of strtok, for the texts that are there after the cuts. */
  method CutName(buf: array<char>, base: nat, slash: nat, ghost t: string, ghost p: nat, ghost q: nat,
                 ghost nameText: string, ghost after: string, ghost rest: string)
    returns (name: nat, save: nat)
    requires Holds(buf[..], base, t) && p == Find(t, '/') < |t| && slash == base + p && q == TokenEnd(t)
    requires var s' := Cut(buf[..], base, p, q, |t|);
      && Holds(s', base + Colons(t), nameText) && Holds(s', slash + 1, rest)
      && Holds(s', base + if q < |t| then q + 1 else |t|, after)
    requires Colons(t) + |nameText| <= q && (if q < p then q + 1 + |after| == p else p + 1 + |rest| == q)
    modifies buf
    ensures Holds(buf[..], slash + 1, rest) && Holds(buf[..], name, nameText) && Holds(buf[..], save, after)
    ensures name + |nameText| <= save && (slash + 1 + |rest| <= save || slash + 1 > save + |after|)
  {
    name, save := TakeName(buf, base, slash, t);
  }

  lemma {:induction false} PieceSizes(t: string, p: nat, q: nat)
    requires p == Find(t, '/') < |t| && q == TokenEnd(t)
    ensures |MetricName(t, p)| == (if q < p then q else p) - Colons(t)
    ensures if q < p then |AfterToken(t, p)| == p - q - 1 else |Rest(t, p)| == q - p - 1
  {
    SlashBesideToken(t);
  }

  /** The first call of strtok, and the cut at the slash. */
  method TakeName(buf: array<char>, base: nat, slash: nat, ghost t: string) returns (name: nat, save: nat)
    requires Holds(buf[..], base, t) && Find(t, '/') < |t| && slash == base + Find(t, '/')
    modifies buf
    ensures name == base + Colons(t) && save == base + if TokenEnd(t) < |t| then TokenEnd(t) + 1 else |t|
    ensures buf[..] == Cut(old(buf[..]), base, Find(t, '/'), TokenEnd(t), |t|)
  {
    SlashBesideToken(t);
    var tok;
    tok, save := Strtok(buf, base, t);
    name := tok;
    buf[slash] := NUL;
  }

  /** The second call of strtok; two strings beside its own stay. */
  method TakeValue(buf: array<char>, save: nat, ghost r: string, ghost i: nat, ghost t: string, ghost j: nat, ghost u: string)
    returns (value: int)
    requires Holds(buf[..], save, r) && Holds(buf[..], i, t) && Holds(buf[..], j, u)
    requires i + |t| <= save && (j + |u| <= save || j > save + |r|)
    modifies buf
    ensures value >= 0 <==> Token(r) != ""
    ensures value >= 0 ==> Holds(buf[..], value, Token(r))
    ensures Holds(buf[..], i, t) && Holds(buf[..], j, u)
  {
    ghost var s := buf[..];
    var rest;
    value, rest := Strtok(buf, save, r);
    TokenEmpty(r);
    ValuePart(s, save, r, Colons(r), TokenEnd(r));
    if TokenEnd(r) < |r| {
      HoldsElsewhere(s, i, t, save + TokenEnd(r));
      HoldsElsewhere(s, j, u, save + TokenEnd(r));
    }
  }

  /** get_cvss_score_from_base_metrics */
  method GetCvssScoreFromBaseMetrics(cvssStr: Option<string>) returns (score: real)
    requires cvssStr.Some? ==> NUL !in cvssStr.value
    ensures score == BaseScore(cvssStr)
  {
    if cvssStr == None {
      return -1.0;
    }
    var cvss := new Struct();
    ghost var t := cvssStr.value + "/";
    ghost var whole: string, done: seq<Assignment> := t, [];
    var buf := new char[|cvssStr.value| + 2];
    Fill(buf, cvssStr.value);
    var base := 0;
    var ok := true;
    NothingDone(t);
    var token := Strchr(buf, base, '/', t);
    while ok && token >= 0
      invariant ok ==> Looking(buf, base, token, t) && cvss.x == Apply(done)
      invariant if ok then Remains(whole, done, t) else Scan(whole) == None
      decreases ok, |t|
    {
      ok, base, token, done, t := Round(buf, base, token, cvss, whole, done, t);
    }
    if !ok {
      return -1.0;
    }
    assert done + [] == done;
    score := Score(cvss.x);
  }

  /** What is left of the vector is t, after these assignments. */
  ghost predicate Remains(whole: string, done: seq<Assignment>, t: string) {
    Scan(whole) == if Scan(t) == None then None else Some(done + Scan(t).value)
  }

  /** The text t is at base, and its first slash at token. */
  ghost predicate Looking(buf: array<char>, base: nat, token: int, t: string)
    reads buf
  {
    Holds(buf[..], base, t) && token == if Find(t, '/') < |t| then base + Find(t, '/') else -1
  }

  /** The loop body: a turn, and the search for the next slash. */
  method Round(buf: array<char>, base: nat, token: int, cvss: Struct, ghost whole: string, ghost done: seq<Assignment>, ghost t: string)
    returns (ok: bool, base': nat, token': int, ghost done': seq<Assignment>, ghost t': string)
    requires Looking(buf, base, token, t) && token >= 0 && Remains(whole, done, t) && cvss.x == Apply(done)
    modifies buf, cvss
    ensures if ok then Remains(whole, done', t') && |t'| < |t| else Scan(whole) == None
    ensures ok ==> Looking(buf, base', token', t') && cvss.x == Apply(done')
  {
    ghost var p := Find(t, '/');
    ghost var a := Meant(MetricName(t, p), Token(AfterToken(t, p)));
    RoundStep(whole, done, t, p, a);
    ok, base' := Turn(buf, base, token, cvss, t);
    token', done', t' := -1, done, t;
    if ok {
      t', done' := Rest(t, p), done + [a.value];
      token' := Strchr(buf, base', '/', t');
    }
  }

  lemma {:induction false} RoundStep(whole: string, done: seq<Assignment>, t: string, p: nat, a: Option<Assignment>)
    requires Remains(whole, done, t)
    requires p == Find(t, '/') < |t| && a == Meant(MetricName(t, p), Token(AfterToken(t, p)))
    ensures |Rest(t, p)| < |t|
    ensures a == None ==> Scan(whole) == None
    ensures a.Some? ==> Remains(whole, done + [a.value], Rest(t, p))
    ensures a.Some? ==> Apply(done + [a.value]) == Set(Apply(done), a.value.metric, a.value.value)
  {
    ScanTurn(whole, done, t, p, a);
    if a.Some? {
      ApplyOneMore(done, a.value);
    }
  }

  method Fill(buf: array<char>, s: string)
    requires buf.Length == |s| + 2 && NUL !in s
    modifies buf
    ensures Holds(buf[..], 0, s + "/")
  {
    forall i | 0 <= i < |s| { buf[i] := s[i]; }
    buf[|s|], buf[|s| + 1] := '/', NUL;
    assert buf[..][0..|s| + 1] == s + "/";
  }

  lemma {:induction false} ApplyOneMore(l: seq<Assignment>, a: Assignment)
    ensures Apply(l + [a]) == Set(Apply(l), a.metric, a.value)
  {
    assert (l + [a])[..|l|] == l;
  }

  lemma {:induction false} NothingDone(t: string)
    ensures Scan(t).Some? ==> [] + Scan(t).value == Scan(t).value
  {
  }

  /** A turn of the loop, seen from the whole vector. */
  lemma {:induction false} ScanTurn(whole: string, done: seq<Assignment>, t: string, p: nat, a: Option<Assignment>)
    requires Scan(whole) == if Scan(t) == None then None else Some(done + Scan(t).value)
    requires p == Find(t, '/') < |t| && a == Meant(MetricName(t, p), Token(AfterToken(t, p)))
    ensures a == None ==> Scan(whole) == None
    ensures a.Some? ==>
              Scan(whole) == (if Scan(Rest(t, p)) == None then None else Some(done + [a.value] + Scan(Rest(t, p)).value))
  {
    var l := Scan(Rest(t, p));
    ScanStep(t, p, a, l);
    if a.Some? && l.Some? {
      Associate(done, a.value, l.value);
    }
  }

  lemma {:induction false} Associate(done: seq<Assignment>, a: Assignment, l: seq<Assignment>)
    ensures done + ([a] + l) == done + [a] + l
  {
  }
}
