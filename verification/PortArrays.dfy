/** The port scanner's reading of a port list (getpts of misc/scanners_utils.c): a zero-terminated sorted array. */
module PortArrays {
  import opened Options
  import opened Text
  import opened PortText

  // ----- the text

  /** Without its spaces. */
  function Compact(s: string): (r: string)
    ensures ' ' !in r && |r| <= |s|
    ensures forall c :: c in r ==> c in s
  {
    if s == "" then ""
    else Compact(s[..|s| - 1]) + if s[|s| - 1] == ' ' then "" else [s[|s| - 1]]
  }

  /** The loop that compacts the copy in place. */
  method CompactInPlace(expr: array<char>) returns (i: nat)
    modifies expr
    ensures i <= expr.Length && expr[..i] == Compact(old(expr[..]))
  {
    i := 0;
    ghost var s := expr[..];
    for j := 0 to expr.Length
      invariant i <= j && expr[..i] == Compact(s[..j])
      invariant forall k :: j <= k < expr.Length ==> expr[k] == s[k]
    {
      assert s[..j + 1][..j] == s[..j];
      if expr[j] != ' ' {
        expr[i] := expr[j];
        i := i + 1;
      }
    }
    assert s[..expr.Length] == s;
  }

  /** strstr for a two-letter text, from i on: its place, or |s|. */
  function PairFrom(s: string, a: char, b: char, i: nat): (k: nat)
    requires i <= |s|
    ensures i <= k <= |s| && (k < |s| ==> k + 1 < |s| && s[k] == a && s[k + 1] == b)
    ensures forall j :: i <= j < k && j + 1 < |s| ==> !(s[j] == a && s[j + 1] == b)
    decreases |s| - i
  {
    if i + 1 >= |s| then |s|
    else if s[i] == a && s[i + 1] == b then i
    else PairFrom(s, a, b, i + 1)
  }

  /** What follows the first "T:", or everything. */
  function AfterT(s: string): string {
    var k := PairFrom(s, 'T', ':', 0);
    if k < |s| then s[k + 2..] else s
  }

  /** What precedes the first "U:" and a comma right before it, or everything. */
  function BeforeU(s: string): string {
    var k := PairFrom(s, 'U', ':', 0);
    if k == |s| then s else if k > 0 && s[k - 1] == ',' then s[..k - 1] else s[..k]
  }

  /** The elements getpts looks at. */
  function Fields(origexpr: string): seq<string> {
    Split(BeforeU(AfterT(Compact(origexpr))), ',')
  }

  // ----- one element

  datatype Interval = Interval(start: int, end: int)

  /** The ports of one element; an open end is the last port. */
  function FieldPorts(x: string): (v: Interval)
    ensures v.start >= 1
  {
    if x != "" && x[0] == '-' then Interval(1, Atoi(x[1..]))
    else
      match CutAt(x, '-')
      case None => AtLeastOne(Atoi(x), Atoi(x))
      case Some((_, after)) => AtLeastOne(Atoi(x), if after == "" then 65535 else Atoi(after))
  }

  function AtLeastOne(start: int, end: int): (v: Interval)
    ensures v.start >= 1
  {
    Interval(if start < 1 then 1 else start, end)
  }

  function Intervals(fs: seq<string>): (vs: seq<Interval>)
    ensures |vs| == |fs| && forall i :: 0 <= i < |fs| ==> vs[i] == FieldPorts(fs[i])
  {
    seq(|fs|, i requires 0 <= i < |fs| => FieldPorts(fs[i]))
  }

  predicate Inverted(v: Interval) {
    v.start > v.end
  }

  /** The numbers from a to b. */
  function Numbers(a: int, b: int): (r: seq<int>)
    ensures |r| == if a <= b then b - a + 1 else 0
    ensures forall i :: 0 <= i < |r| ==> r[i] == a + i
    decreases b - a
  {
    if a > b then [] else Numbers(a, b - 1) + [b]
  }

  // ----- all elements

  /** The intervals of the elements getpts looks at. */
  function TextIntervals(origexpr: string): seq<Interval> {
    Intervals(Fields(origexpr))
  }

  /** The number of elements before the first inverted one. */
  function Sound(vs: seq<Interval>): (n: nat)
    ensures n <= |vs| && (n < |vs| ==> Inverted(vs[n]))
    ensures forall i :: 0 <= i < n ==> !Inverted(vs[i])
  {
    if vs == [] || Inverted(vs[0]) then 0 else 1 + Sound(vs[1..])
  }

  /** What the first n elements write, in order. */
  function Written(vs: seq<Interval>, n: nat): (r: seq<int>)
    requires n <= |vs|
  {
    if n == 0 then [] else Written(vs, n - 1) + Numbers(vs[n - 1].start, vs[n - 1].end)
  }

  /** Everything written is a port, and there is room for it in the array and for the 0 after it. */
  ghost predicate Fits(origexpr: string) {
    var vs := TextIntervals(origexpr);
    && |Written(vs, Sound(vs))| <= 65535
    && forall i :: 0 <= i < Sound(vs) ==> vs[i].end <= MAX_PORT
  }

  // ----- the order

  /** qsort_compar: 0 is the biggest. */
  function Compar(a: int, b: int): int {
    if a == 0 then 1 else if b == 0 then -1 else a - b
  }

  function Insert(x: int, s: seq<int>): seq<int> {
    if s == [] || Compar(x, s[0]) < 0 then [x] + s else [s[0]] + Insert(x, s[1..])
  }

  /** qsort with that order. */
  function Sort(s: seq<int>): seq<int> {
    if s == [] then [] else Insert(s[|s| - 1], Sort(s[..|s| - 1]))
  }

  /** The array for these intervals, or none when one is inverted. */
  function ArrayOf(vs: seq<Interval>): Option<seq<int>> {
    if Sound(vs) < |vs| then None else Some(Sort(Written(vs, |vs|) + [0]))
  }

  /** What getpts returns. */
  function Meaning(origexpr: string): Option<seq<int>> {
    ArrayOf(TextIntervals(origexpr))
  }

  ghost predicate Ascending(s: seq<int>) {
    forall i, j :: 0 <= i < j < |s| ==> s[i] <= s[j]
  }

  lemma {:induction false} InsertAscending(x: int, s: seq<int>, low: int)
    requires 0 < low <= x && Ascending(s) && forall i :: 0 <= i < |s| ==> s[i] >= low
    ensures Ascending(Insert(x, s)) && forall i :: 0 <= i < |Insert(x, s)| ==> Insert(x, s)[i] >= low
  {
    if s != [] && Compar(x, s[0]) >= 0 {
      InsertAscending(x, s[1..], s[0]);
    }
  }

  lemma {:induction false} InsertKeeps(x: int, s: seq<int>)
    ensures multiset(Insert(x, s)) == multiset(s) + multiset{x}
  {
    if s != [] && Compar(x, s[0]) >= 0 {
      InsertKeeps(x, s[1..]);
      assert s == [s[0]] + s[1..];
    }
  }

  /** Sorting puts positive numbers in ascending order, and keeps each as often as it is there. */
  lemma {:induction false} SortSorts(s: seq<int>)
    requires forall i :: 0 <= i < |s| ==> s[i] > 0
    ensures Ascending(Sort(s)) && multiset(Sort(s)) == multiset(s)
    ensures forall i :: 0 <= i < |Sort(s)| ==> Sort(s)[i] > 0
  {
    if s != [] {
      SortSorts(s[..|s| - 1]);
      InsertAscending(s[|s| - 1], Sort(s[..|s| - 1]), 1);
      InsertKeeps(s[|s| - 1], Sort(s[..|s| - 1]));
      assert s == s[..|s| - 1] + [s[|s| - 1]];
    }
  }

  lemma {:induction false} InsertZero(s: seq<int>)
    ensures Insert(0, s) == s + [0]
  {
    if s != [] {
      InsertZero(s[1..]);
    }
  }

  lemma {:induction false} SortWithZero(s: seq<int>)
    ensures Sort(s + [0]) == Sort(s) + [0]
  {
    assert (s + [0])[..|s|] == s;
    InsertZero(Sort(s));
  }

  lemma {:induction false} WrittenPositive(vs: seq<Interval>, n: nat)
    requires n <= |vs| && forall i :: 0 <= i < n ==> vs[i].start >= 1
    ensures forall i :: 0 <= i < |Written(vs, n)| ==> Written(vs, n)[i] >= 1
  {
    if n > 0 {
      WrittenPositive(vs, n - 1);
    }
  }

  /** The array holds the ports in ascending order, as often as they were written, and then the only 0. */
  lemma {:induction false} ArrayIsSorted(vs: seq<Interval>)
    requires ArrayOf(vs).Some? && forall i :: 0 <= i < |vs| ==> vs[i].start >= 1
    ensures var r := ArrayOf(vs).value;
      var k := |r| - 1;
      && k >= 0 && r[k] == 0 && k == |Written(vs, |vs|)|
      && Ascending(r[..k]) && multiset(r[..k]) == multiset(Written(vs, |vs|))
      && forall i :: 0 <= i < k ==> r[i] >= 1
  {
    var w := Written(vs, |vs|);
    WrittenPositive(vs, |vs|);
    SortSorts(w);
    SortWithZero(w);
    var r := ArrayOf(vs).value;
    assert r[..|r| - 1] == Sort(w);
    assert |multiset(Sort(w))| == |multiset(w)|;
  }

  // ----- the call

  /** The writes of one element. */
  method Write(ports: array<int>, i0: nat, a: int, b: int) returns (i: nat)
    requires a <= b && i0 + (b - a + 1) <= ports.Length
    modifies ports
    ensures i == i0 + (b - a + 1)
    ensures ports[..i] == old(ports[..i0]) + Numbers(a, b)
  {
    i := i0;
    ghost var before := ports[..i0];
    for j := a to b + 1
      invariant i == i0 + (j - a) && ports[..i] == before + Numbers(a, j - 1)
    {
      ports[i] := j;
      i := i + 1;
    }
  }

  lemma {:induction false} WrittenGrows(vs: seq<Interval>, m: nat, n: nat)
    requires m <= n <= |vs|
    ensures |Written(vs, m)| <= |Written(vs, n)|
  {
    if m < n {
      WrittenGrows(vs, m, n - 1);
    }
  }

  /** strchr for a comma: the element, and what follows. */
  method NextField(expr: string, ghost fs: seq<string>, ghost k: nat) returns (field: string, more: bool, expr': string)
    requires k < |fs| && fs[k..] == Split(expr, ',')
    ensures field == fs[k] && (more <==> k + 1 < |fs|)
    ensures more ==> |expr'| < |expr| && fs[k + 1..] == Split(expr', ',')
  {
    assert fs[k..][0] == fs[k] && fs[k..][1..] == fs[k + 1..];
    match CutAt(expr, ',') {
      case Some((a, b)) => field, more, expr' := a, true, b;
      case None => field, more, expr' := expr, false, "";
    }
  }

  /** Writes one element after the first k. */
  method WriteOne(v: Interval, ports: array<int>, i0: nat, ghost vs: seq<Interval>, ghost k: nat) returns (i: nat)
    requires ports.Length == 65536 && |Written(vs, Sound(vs))| <= 65535
    requires k < Sound(vs) && v == vs[k]
    requires i0 == |Written(vs, k)| && i0 < 65536 && ports[..i0] == Written(vs, k)
    modifies ports
    ensures i == |Written(vs, k + 1)| && i < 65536 && ports[..i] == Written(vs, k + 1)
  {
    WrittenGrows(vs, k + 1, Sound(vs));
    i := Write(ports, i0, v.start, v.end);
  }

  /** The walk over the elements: their ports in the array, or failure at the first inverted one. */
  method WriteAll(expr0: string, ports: array<int>) returns (ok: bool, i: nat)
    requires ports.Length == 65536
    requires var vs := Intervals(Split(expr0, ',')); |Written(vs, Sound(vs))| <= 65535
    modifies ports
    ensures var vs := Intervals(Split(expr0, ','));
      ok == (Sound(vs) == |vs|) && (ok ==> i == |Written(vs, |vs|)| < 65536 && ports[..i] == Written(vs, |vs|))
  {
    ghost var fs, k := Split(expr0, ','), 0;
    ghost var vs := Intervals(fs);
    var expr := expr0;
    var more := true;
    ok, i := true, 0;
    while ok && more
      invariant k <= |vs| && k <= Sound(vs)
      invariant ok ==> if more then k < |vs| && fs[k..] == Split(expr, ',') else k == |vs|
      invariant ok ==> i == |Written(vs, k)| && i < 65536 && ports[..i] == Written(vs, k)
      invariant !ok ==> k < |vs| && Inverted(vs[k])
      decreases ok, more, |expr|
    {
      var field;
      field, more, expr := NextField(expr, fs, k);
      var v := FieldPorts(field);
      if v.start > v.end {
        ok := false;
      } else {
        assert !Inverted(vs[k]);
        i := WriteOne(v, ports, i, vs, k);
        k := k + 1;
      }
    }
  }

  /** getpts, with its memory of the last text it was called for. */
  class PortMemo {
    var lastExpr: Option<string>
    var lastRet: seq<int>
    var lastNum: int

    ghost predicate Valid()
      reads this
    {
      lastExpr.Some? ==> Meaning(lastExpr.value) == Some(lastRet) && lastNum == |lastRet| - 1
    }

    constructor ()
      ensures Valid()
    {
      lastExpr := None;
    }

    /** The array, and the number of ports in it; the memory never changes the answer. */
    method GetPts(origexpr: string) returns (ret: Option<seq<int>>, len: int)
      requires Valid() && Fits(origexpr)
      modifies this
      ensures Valid() && ret == Meaning(origexpr)
      ensures ret.Some? ==> len == |ret.value| - 1
    {
      len := 0;
      if lastExpr.Some? {
        if lastExpr.value == origexpr {
          return Some(lastRet), lastNum;
        }
        lastExpr := None;
      }
      ret, len := Compute(origexpr);
      if ret.Some? {
        lastRet, lastExpr, lastNum := ret.value, Some(origexpr), len;
      }
    }
  }

  /** getpts without the memory. */
  method Compute(origexpr: string) returns (ret: Option<seq<int>>, len: int)
    requires Fits(origexpr)
    ensures ret == Meaning(origexpr)
    ensures ret.Some? ==> len == |ret.value| - 1
  {
    var text := CopyLooked(origexpr);
    ghost var vs := TextIntervals(origexpr);
    var ports := new int[65536];
    var ok, n := WriteAll(text, ports);
    if !ok {
      return None, 0;
    }
    var r := Finish(ports, n, vs);
    ret, len := Some(r), n;
  }

  /** The part of the compacted copy that is looked at. */
  method CopyLooked(origexpr: string) returns (text: string)
    ensures text == BeforeU(AfterT(Compact(origexpr)))
  {
    var expr := new char[|origexpr|](i requires 0 <= i < |origexpr| => origexpr[i]);
    assert expr[..] == origexpr;
    var i := CompactInPlace(expr);
    text := BeforeU(AfterT(expr[..i]));
  }

  /** Puts the 0 after the ports, and sorts. */
  method Finish(ports: array<int>, n: nat, ghost vs: seq<Interval>) returns (r: seq<int>)
    requires n < ports.Length && Sound(vs) == |vs| && ports[..n] == Written(vs, |vs|)
    requires forall i :: 0 <= i < |vs| ==> vs[i].start >= 1
    modifies ports
    ensures Some(r) == ArrayOf(vs) && |r| == n + 1
  {
    ports[n] := 0;
    assert ports[..n + 1] == ports[..n] + [0];
    r := Sort(ports[..n + 1]);
    ArrayIsSorted(vs);
  }
}
