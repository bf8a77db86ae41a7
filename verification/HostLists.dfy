/**
 Lists of hosts (base/openvas_hosts.c) on values: what a specification expands to, what the
 operations on a collection do to its list, and what they keep.
 */
module HostLists {
  import opened Seqs
  import opened Options
  import opened Bytes
  import opened Addresses
  import opened Ipv6
  import opened Text
  import opened HostText

  // ----- enumeration

  /** n addresses from first on. */
  function Run4(first: nat, n: nat): (r: seq<Host>)
    ensures |r| == n && forall k :: 0 <= k < n ==> r[k] == V4(first + k)
  {
    if n == 0 then [] else Run4(first, n - 1) + [V4(first + n - 1)]
  }

  /** The address after k rounds of the carry loop. */
  function IncTimes(a: seq<Byte>, k: nat): (r: seq<Byte>)
    ensures |r| == |a|
  {
    if k == 0 then a else Inc(IncTimes(a, k - 1))
  }

  function Run6(first: seq<Byte>, n: nat): (r: seq<Host>)
    ensures |r| == n && forall k :: 0 <= k < n ==> r[k] == V6(IncTimes(first, k))
  {
    if n == 0 then [] else Run6(first, n - 1) + [V6(IncTimes(first, n - 1))]
  }

  lemma {:induction false} IncTimesVal(a: seq<Byte>, k: nat)
    requires Val(a) + k < Pow2(8 * |a|)
    ensures Val(IncTimes(a, k)) == Val(a) + k
  {
    if k > 0 {
      IncTimesVal(a, k - 1);
      IncVal(IncTimes(a, k - 1));
    }
  }

  const MAX6: nat := Pow2(128) - 1

  /** Whether the enumeration loop of a range leaves it: it wraps past the all-ones address. */
  predicate Ends(m: Spec) {
    match m
    case Range4(first, last) => first > last || last < MAX4
    case Range6(first, last) => Val(first) > Val(last) || Val(last) < MAX6
    case _ => true
  }

  /** current after k rounds of the IPv4 loop, in 32-bit arithmetic. */
  function Current4(first: nat, k: nat): nat {
    if k == 0 then first else (Current4(first, k - 1) + 1) % TWO32
  }

  lemma {:induction false} Current4Is(first: nat, k: nat)
    requires first + k < TWO32
    ensures Current4(first, k) == first + k
  {
    if k > 0 {
      Current4Is(first, k - 1);
    }
  }

  lemma {:induction false} Current4Bound(first: nat, k: nat)
    requires first < TWO32
    ensures Current4(first, k) <= MAX4
  {
  }

  /** The IPv4 loop ends exactly when the range is inverted or stops below 255.255.255.255. */
  lemma {:induction false} Enumeration4EndsIff(first: nat, last: nat)
    requires first < TWO32 && last < TWO32
    ensures (exists k: nat :: Current4(first, k) > last) <==> Ends(Range4(first, last))
  {
    if first > last {
      assert Current4(first, 0) > last;
    } else if last < MAX4 {
      Current4Is(first, last + 1 - first);
    } else {
      forall k: nat ensures Current4(first, k) <= last {
        Current4Bound(first, k);
      }
    }
  }

  lemma {:induction false} Enumeration6Ends(first: seq<Byte>, last: seq<Byte>, k: nat)
    requires |first| == |last| && Val(first) <= Val(last) && Val(last) + 1 < Pow2(8 * |last|)
    requires k == Val(last) + 1 - Val(first)
    ensures Memcmp(IncTimes(first, k), last) > 0
  {
    IncTimesVal(first, k);
    MemcmpVal(IncTimes(first, k), last);
  }

  lemma {:induction false} Enumeration6Continues(first: seq<Byte>, last: seq<Byte>, k: nat)
    requires |first| == |last| && Val(last) + 1 >= Pow2(8 * |last|)
    ensures Memcmp(IncTimes(first, k), last) <= 0
  {
    ValBound(IncTimes(first, k));
    MemcmpVal(IncTimes(first, k), last);
  }

  /** The IPv6 loop ends exactly when the range is inverted or stops below the all-ones address. */
  lemma {:induction false} Enumeration6EndsIff(first: seq<Byte>, last: seq<Byte>)
    requires |first| == 16 == |last|
    ensures (exists k: nat :: Memcmp(IncTimes(first, k), last) > 0) <==> Ends(Range6(first, last))
  {
    if Val(first) > Val(last) {
      MemcmpVal(IncTimes(first, 0), last);
      assert Memcmp(IncTimes(first, 0), last) > 0;
    } else if Val(last) + 1 < Pow2(8 * |last|) {
      Enumeration6Ends(first, last, Val(last) + 1 - Val(first));
    } else {
      forall k: nat ensures Memcmp(IncTimes(first, k), last) <= 0 {
        Enumeration6Continues(first, last, k);
      }
    }
  }

  /** A short range up to the last address is never left. */
  lemma {:induction false} RunawayText(net: Inet6, a: nat, e: nat)
    requires Sane(net) && a <= MAX4 && e <= 255 && WithLastByte(a, e) == MAX4
    ensures Meaning(net, Ntop4(a) + ['-'] + Decimal(e)) == Range4(a, MAX4) && !Ends(Range4(a, MAX4))
  {
    ShortRangeText(net, a, e);
  }

  lemma {:induction false} DecimalOf255()
    ensures Decimal(255) == "255" && Decimal(0) == "0"
  {
    assert Decimal(2) == "2" && Decimal(25) == Decimal(2) + "5" && Decimal(255) == Decimal(25) + "5";
  }

  lemma {:induction false} LastNetworkText(a: nat)
    requires a == MAX4 - 255
    ensures Ntop4(a) == "255.255.255.0"
  {
    DecimalOf255();
    var q := Quad(a);
    assert q == ["255", "255", "255", "0"];
    assert q[1..] == ["255", "255", "0"] && q[1..][1..] == ["255", "0"] && q[1..][1..][1..] == ["0"];
    assert Join(["255", "0"], '.') == "255.0" && Join(["255", "255", "0"], '.') == "255.255.0";
  }

  lemma {:induction false} ExampleParts(s: string) returns (a: nat, e: nat)
    requires s == "255.255.255.0-255"
    ensures s == Ntop4(a) + ['-'] + Decimal(e) && a <= MAX4 && e <= 255 && WithLastByte(a, e) == MAX4
  {
    a, e := MAX4 - 255, 255;
    LastNetworkText(a);
    DecimalOf255();
    var x := "255.255.255.0";
    assert s == x + ['-'] + "255";
  }

  /** A text a user can write for a range that is never left. */
  lemma {:induction false} RunawayExample(net: Inet6, s: string)
    requires Sane(net) && s == "255.255.255.0-255"
    ensures Meaning(net, s).Range4? && !Ends(Meaning(net, s))
  {
    var a, e := ExampleParts(s);
    RunawayText(net, a, e);
  }

  /** The all-ones address. */
  function Ones(n: nat): (s: seq<Byte>)
    ensures |s| == n
  {
    if n == 0 then [] else Ones(n - 1) + [255]
  }

  lemma {:induction false} OnesVal(n: nat)
    ensures Val(Ones(n)) == Pow2(8 * n) - 1
  {
    if n > 0 {
      OnesVal(n - 1);
      ValSplit(Ones(n - 1), 255);
      Pow2Byte(8 * n);
    }
  }

  /** The same for IPv6: any address, a hyphen, and the all-ones address. */
  lemma {:induction false} RunawayText6(net: Inet6, a: seq<Byte>)
    requires Separable(net) && |a| == 16
    ensures !Ends(Meaning(net, net.ntop(a) + ['-'] + net.ntop(Ones(16))))
  {
    LongRange6Text(net, a, Ones(16));
    OnesVal(16);
    ValBound(a);
  }

  /** The hosts one element stands for, in order. */
  function Expansion(m: Spec): seq<Host> {
    match m
    case One(h) => [h]
    case Range4(first, last) => if first > last then [] else Run4(first, last - first + 1)
    case Range6(first, last) => if Val(first) > Val(last) then [] else Run6(first, Val(last) - Val(first) + 1)
    case _ => []
  }

  lemma {:induction false} ExpansionProper(net: Inet6, m: Spec)
    requires Sane(net) && ProperSpec(net, m)
    ensures forall h :: h in Expansion(m) ==> Proper(net, h)
  {
  }

  /** A range is expanded to exactly the addresses from first to last, ascending, each once. */
  lemma {:induction false} RangeMeaning(m: Spec)
    requires m.Range4? || (m.Range6? && |m.first6| == 16 == |m.last6|)
    ensures m.Range4? ==>
      var e := Expansion(m);
      && (forall a: nat :: V4(a) in e <==> m.first <= a <= m.last)
      && (forall i, j :: 0 <= i < j < |e| ==> e[i].V4? && e[j].V4? && e[i].addr < e[j].addr)
    ensures m.Range6? ==>
      var e := Expansion(m);
      && (forall a: seq<Byte> :: |a| == 16 ==> (V6(a) in e <==> Val(m.first6) <= Val(a) <= Val(m.last6)))
      && (forall i, j :: 0 <= i < j < |e| ==> e[i].V6? && e[j].V6? && Val(e[i].addr6) < Val(e[j].addr6))
  {
    var e := Expansion(m);
    if m.Range4? {
      forall a: nat | m.first <= a <= m.last ensures V4(a) in e {
        assert e[a - m.first] == V4(a);
      }
    } else {
      ValBound(m.last6);
      forall k | 0 <= k < |e| ensures Val(e[k].addr6) == Val(m.first6) + k {
        IncTimesVal(m.first6, k);
      }
      forall a: seq<Byte> | |a| == 16 && Val(m.first6) <= Val(a) <= Val(m.last6) ensures V6(a) in e {
        var k := Val(a) - Val(m.first6);
        ValInjective(e[k].addr6, a);
        assert e[k] == V6(a);
      }
    }
  }

  // ----- the whole specification

  function Elements(str: string): seq<string> {
    Split(Normalised(str), ',')
  }

  /** The expansions of the elements in order; None when a non-blank element means nothing. */
  function Wanted(net: Inet6, els: seq<string>): Option<seq<Host>> {
    if els == [] then Some([])
    else
      var el := Strip(Last(els));
      match Wanted(net, Init(els))
      case None => None
      case Some(w) =>
        if el == "" then Some(w)
        else if Meaning(net, el).Bad? then None
        else Some(w + Expansion(Meaning(net, el)))
  }

  /** A non-blank element that means nothing. */
  ghost predicate Unclassifiable(net: Inet6, el: string) {
    Strip(el) != "" && Meaning(net, Strip(el)).Bad?
  }

  lemma {:induction false} WantedLast(net: Inet6, els: seq<string>)
    requires els != []
    ensures Wanted(net, els).None? <==> Wanted(net, Init(els)).None? || Unclassifiable(net, Last(els))
  {
  }

  /** Wanted fails exactly on an unclassifiable element. */
  lemma {:induction false} WantedNoneIff(net: Inet6, els: seq<string>)
    ensures Wanted(net, els).None? <==> exists el :: el in els && Unclassifiable(net, el)
  {
    if els != [] {
      WantedNoneIff(net, Init(els));
      WantedLast(net, els);
      LastOrBefore(els);
    }
  }

  lemma {:induction false} WantedPrefix(net: Inet6, els: seq<string>, i: nat)
    requires i <= |els|
    ensures Wanted(net, els[..i]).None? ==> Wanted(net, els).None?
    ensures Wanted(net, els).Some? ==> |Wanted(net, els[..i]).value| <= |Wanted(net, els).value|
    ensures Wanted(net, els).Some? ==> Wanted(net, els[..i]).Some?
  {
    if i < |els| {
      WantedPrefix(net, Init(els), i);
      assert Init(els)[..i] == els[..i];
    } else {
      assert els[..i] == els;
    }
  }

  lemma {:induction false} WantedProper(net: Inet6, els: seq<string>)
    requires Sane(net)
    ensures Wanted(net, els).Some? ==> forall h :: h in Wanted(net, els).value ==> Proper(net, h)
  {
    if els != [] {
      WantedProper(net, Init(els));
      MeaningProper(net, Strip(Last(els)));
      ExpansionProper(net, Meaning(net, Strip(Last(els))));
    }
  }

  // ----- de-duplication

  /** hs without the hosts that occur earlier in it. */
  function FirstOccurrences(hs: seq<Host>): seq<Host> {
    if hs == [] then []
    else if Last(hs) in Init(hs) then FirstOccurrences(Init(hs))
    else FirstOccurrences(Init(hs)) + [Last(hs)]
  }

  ghost predicate Distinct(hs: seq<Host>) {
    forall i, j :: 0 <= i < j < |hs| ==> hs[i] != hs[j]
  }

  /** s is what hs has at the places ps, which ascend: a selection that keeps the order. */
  ghost predicate Selected(s: seq<Host>, hs: seq<Host>, ps: seq<nat>) {
    && |s| == |ps| && (forall i :: 0 <= i < |ps| ==> ps[i] < |hs| && s[i] == hs[ps[i]])
    && forall i, j :: 0 <= i < j < |ps| ==> ps[i] < ps[j]
  }

  /** These places are those that keep says. */
  ghost predicate ExactlyWhere(ps: seq<nat>, keep: seq<bool>) {
    forall k: nat :: k in ps <==> k < |keep| && keep[k]
  }

  lemma {:induction false} OneMorePlace(s: seq<Host>, hs: seq<Host>, ps: seq<nat>)
    requires hs != [] && Selected(s, Init(hs), ps)
    ensures Selected(s, hs, ps) && Selected(s + [Last(hs)], hs, ps + [|hs| - 1])
  {
    assert hs == Init(hs) + [Last(hs)];
  }

  /** Which hosts stand at their first place. */
  function FirstHere(hs: seq<Host>): (r: seq<bool>)
    ensures |r| == |hs|
  {
    if hs == [] then [] else FirstHere(Init(hs)) + [Last(hs) !in Init(hs)]
  }

  lemma {:induction false} FirstHereAt(hs: seq<Host>, k: nat)
    requires k < |hs|
    ensures FirstHere(hs)[k] <==> hs[k] !in hs[..k]
  {
    if k < |hs| - 1 {
      FirstHereAt(Init(hs), k);
      PrefixOfInit(hs, k);
    }
  }

  lemma {:induction false} PrefixOfInit(hs: seq<Host>, k: nat)
    requires k < |hs| - 1
    ensures Init(hs)[..k] == hs[..k] && Init(hs)[k] == hs[k]
  {
  }

  lemma {:induction false} PlacesStep(ps: seq<nat>, keep: seq<bool>, last: bool)
    requires ExactlyWhere(ps, keep)
    ensures ExactlyWhere(if last then ps + [|keep|] else ps, keep + [last])
  {
  }

  /** De-duplication keeps the order, and each host at its first place. */
  lemma {:induction false} FirstOccurrencesPlaces(hs: seq<Host>) returns (ps: seq<nat>)
    ensures Selected(FirstOccurrences(hs), hs, ps) && ExactlyWhere(ps, FirstHere(hs))
  {
    ps := [];
    if hs != [] {
      ps := FirstOccurrencesPlaces(Init(hs));
      OneMorePlace(FirstOccurrences(Init(hs)), hs, ps);
      PlacesStep(ps, FirstHere(Init(hs)), Last(hs) !in Init(hs));
      if Last(hs) !in Init(hs) {
        ps := ps + [|hs| - 1];
      }
    }
  }

  /** De-duplication keeps every host once, where it stands first, in the order of these places. */
  lemma {:induction false} FirstOccurrencesOrder(hs: seq<Host>)
    ensures exists ps :: Selected(FirstOccurrences(hs), hs, ps) && ExactlyWhere(ps, FirstHere(hs))
    ensures forall k :: 0 <= k < |hs| ==> (FirstHere(hs)[k] <==> hs[k] !in hs[..k])
  {
    var ps := FirstOccurrencesPlaces(hs);
    forall k | 0 <= k < |hs| ensures FirstHere(hs)[k] <==> hs[k] !in hs[..k] {
      FirstHereAt(hs, k);
    }
  }

  lemma {:induction false} FirstOccurrencesMeaning(hs: seq<Host>)
    ensures Distinct(FirstOccurrences(hs))
    ensures forall h :: h in FirstOccurrences(hs) <==> h in hs
    ensures |FirstOccurrences(hs)| <= |hs|
  {
    if hs != [] {
      FirstOccurrencesMeaning(Init(hs));
      assert hs == Init(hs) + [Last(hs)];
    }
  }

  // ----- filters

  /** The hosts that are not dropped, in their order. */
  function Without(hs: seq<Host>, drop: set<Host>): seq<Host> {
    if hs == [] then []
    else if Last(hs) in drop then Without(Init(hs), drop)
    else Without(Init(hs), drop) + [Last(hs)]
  }

  lemma {:induction false} WithoutMembers(hs: seq<Host>, drop: set<Host>, h: Host)
    ensures h in Without(hs, drop) <==> h in hs && h !in drop
  {
    if hs != [] {
      WithoutMembers(Init(hs), drop, h);
      assert hs == Init(hs) + [Last(hs)];
    }
  }

  lemma {:induction false} WithoutLength(hs: seq<Host>, drop: set<Host>)
    ensures |Without(hs, drop)| <= |hs|
  {
    if hs != [] {
      WithoutLength(Init(hs), drop);
    }
  }

  lemma {:induction false} WithoutNothing(hs: seq<Host>, drop: set<Host>)
    requires forall h :: h in hs ==> h !in drop
    ensures Without(hs, drop) == hs
  {
    if hs != [] {
      WithoutNothing(Init(hs), drop);
      assert Last(hs) in hs;
      assert Without(hs, drop) == Without(Init(hs), drop) + [Last(hs)];
    }
  }

  lemma {:induction false} WithoutDistinct(hs: seq<Host>, drop: set<Host>)
    requires Distinct(hs)
    ensures Distinct(Without(hs, drop))
  {
    if hs != [] {
      WithoutDistinct(Init(hs), drop);
      WithoutMembers(Init(hs), drop, Last(hs));
      assert Last(hs) !in Init(hs);
    }
  }

  lemma {:induction false} WithoutMeaning(hs: seq<Host>, drop: set<Host>)
    ensures forall h :: h in Without(hs, drop) <==> h in hs && h !in drop
    ensures |Without(hs, drop)| <= |hs|
    ensures Distinct(hs) ==> Distinct(Without(hs, drop))
    ensures drop == {} ==> Without(hs, drop) == hs
  {
    forall h ensures h in Without(hs, drop) <==> h in hs && h !in drop {
      WithoutMembers(hs, drop, h);
    }
    WithoutLength(hs, drop);
    if drop == {} {
      WithoutNothing(hs, drop);
    }
    if Distinct(hs) {
      WithoutDistinct(hs, drop);
    }
  }

  /** Which hosts are not dropped. */
  function Kept(hs: seq<Host>, drop: set<Host>): (r: seq<bool>)
    ensures |r| == |hs| && forall k :: 0 <= k < |hs| ==> r[k] == (hs[k] !in drop)
  {
    seq(|hs|, k requires 0 <= k < |hs| => hs[k] !in drop)
  }

  lemma {:induction false} WithoutPlaces(hs: seq<Host>, drop: set<Host>) returns (ps: seq<nat>)
    ensures Selected(Without(hs, drop), hs, ps) && ExactlyWhere(ps, Kept(hs, drop))
  {
    ps := [];
    if hs != [] {
      ps := WithoutPlaces(Init(hs), drop);
      OneMorePlace(Without(Init(hs), drop), hs, ps);
      assert Kept(hs, drop) == Kept(Init(hs), drop) + [Last(hs) !in drop];
      PlacesStep(ps, Kept(Init(hs), drop), Last(hs) !in drop);
      if Last(hs) !in drop {
        ps := ps + [|hs| - 1];
      }
    }
  }

  /** What is left is what stands at the places of the hosts that are not dropped, in their order. */
  lemma {:induction false} WithoutOrder(hs: seq<Host>, drop: set<Host>)
    ensures exists ps :: Selected(Without(hs, drop), hs, ps) && ExactlyWhere(ps, Kept(hs, drop))
  {
    var ps := WithoutPlaces(hs, drop);
  }

  /** The hosts whose reverse lookup fails. */
  function Nameless(hs: seq<Host>, lookup: Host -> Option<string>): set<Host> {
    set h | h in hs && lookup(h).None?
  }

  /** openvas_hosts_reverse_lookup_unify: drops a host whose name an earlier kept host has. */
  function Unify(hs: seq<Host>, lookup: Host -> Option<string>): seq<Host> {
    if hs == [] then []
    else if lookup(Last(hs)).Some? && lookup(Last(hs)) in Lookups(Init(hs), lookup) then Unify(Init(hs), lookup)
    else Unify(Init(hs), lookup) + [Last(hs)]
  }

  function Lookups(hs: seq<Host>, lookup: Host -> Option<string>): set<Option<string>> {
    set h | h in hs :: lookup(h)
  }

  lemma {:induction false} UnifyMembers(hs: seq<Host>, lookup: Host -> Option<string>, h: Host)
    ensures h in Unify(hs, lookup) ==> h in hs
    ensures h in hs && lookup(h).None? ==> h in Unify(hs, lookup)
  {
    if hs != [] {
      UnifyMembers(Init(hs), lookup, h);
      LastOrBefore(hs);
    }
  }

  lemma {:induction false} UnifyDistinct(hs: seq<Host>, lookup: Host -> Option<string>)
    ensures |Unify(hs, lookup)| <= |hs|
    ensures Distinct(hs) ==> Distinct(Unify(hs, lookup))
  {
    if hs != [] {
      UnifyDistinct(Init(hs), lookup);
      UnifyMembers(Init(hs), lookup, Last(hs));
      assert Distinct(hs) ==> Last(hs) !in Init(hs);
    }
  }

  lemma {:induction false} UnifyKeeps(hs: seq<Host>, lookup: Host -> Option<string>)
    ensures forall h :: h in Unify(hs, lookup) ==> h in hs
    ensures forall h :: h in hs && lookup(h).None? ==> h in Unify(hs, lookup)
    ensures |Unify(hs, lookup)| <= |hs|
    ensures Distinct(hs) ==> Distinct(Unify(hs, lookup))
  {
    UnifyDistinct(hs, lookup);
    forall h ensures (h in Unify(hs, lookup) ==> h in hs) && (h in hs && lookup(h).None? ==> h in Unify(hs, lookup)) {
      UnifyMembers(hs, lookup, h);
    }
  }

  lemma {:induction false} LookupsAppend(hs: seq<Host>, h: Host, lookup: Host -> Option<string>)
    ensures Lookups(hs + [h], lookup) == Lookups(hs, lookup) + {lookup(h)}
  {
    var v := hs + [h];
    assert v[|hs|] == h && forall i :: 0 <= i < |hs| ==> v[i] == hs[i];
  }

  /** Every looked-up name survives, on exactly one host. */
  lemma {:induction false} UnifyMeaning(hs: seq<Host>, lookup: Host -> Option<string>)
    ensures Lookups(Unify(hs, lookup), lookup) == Lookups(hs, lookup)
    ensures forall i, j :: 0 <= i < j < |Unify(hs, lookup)| && lookup(Unify(hs, lookup)[i]).Some? ==>
              lookup(Unify(hs, lookup)[i]) != lookup(Unify(hs, lookup)[j])
  {
    if hs != [] {
      var u := Unify(Init(hs), lookup);
      UnifyMeaning(Init(hs), lookup);
      assert hs == Init(hs) + [Last(hs)];
      LookupsAppend(Init(hs), Last(hs), lookup);
      LookupsAppend(u, Last(hs), lookup);
      forall i | 0 <= i < |u| ensures lookup(u[i]) in Lookups(u, lookup) {
        assert u[i] in u;
      }
    }
  }

  // ----- shuffling and reversing

  /** Indices g_rand_int_range can return for a list of n elements. */
  predicate Picks(picks: seq<nat>, n: nat) {
    if picks == [] then n == 0 else n > 0 && picks[0] < n && Picks(picks[1..], n - 1)
  }

  /** Each picked element goes to the front of the new list. */
  function Shuffled(hs: seq<Host>, picks: seq<nat>): seq<Host>
    requires Picks(picks, |hs|)
    decreases |hs|
  {
    if picks == [] then [] else Shuffled(Remove(hs, picks[0]), picks[1..]) + [hs[picks[0]]]
  }

  lemma {:induction false} RemoveMultiset(s: seq<Host>, i: nat)
    requires i < |s|
    ensures multiset(s) == multiset(Remove(s, i)) + multiset{s[i]}
  {
    assert s == s[..i] + [s[i]] + s[i + 1..];
  }

  lemma {:induction false} ShuffledIsPermutation(hs: seq<Host>, picks: seq<nat>)
    requires Picks(picks, |hs|)
    ensures multiset(Shuffled(hs, picks)) == multiset(hs)
    decreases |hs|
  {
    if picks != [] {
      RemoveMultiset(hs, picks[0]);
      ShuffledIsPermutation(Remove(hs, picks[0]), picks[1..]);
    }
  }

  /** The place of the last host of an order, and what is left of both lists without it. */
  lemma {:induction false} TakeLast(hs: seq<Host>, order: seq<Host>) returns (i: nat)
    requires multiset(order) == multiset(hs) && order != []
    ensures i < |hs| && hs[i] == Last(order) && multiset(Init(order)) == multiset(Remove(hs, i))
  {
    var x := Last(order);
    assert x in multiset(hs);
    i :| 0 <= i < |hs| && hs[i] == x;
    assert order == Init(order) + [x];
    RemoveMultiset(hs, i);
    assert multiset(Init(order)) == multiset(order) - multiset{x};
  }

  lemma {:induction false} ShuffledFirst(hs: seq<Host>, i: nat, rest: seq<nat>)
    requires i < |hs| && Picks(rest, |hs| - 1)
    ensures Picks([i] + rest, |hs|) && Shuffled(hs, [i] + rest) == Shuffled(Remove(hs, i), rest) + [hs[i]]
  {
    assert ([i] + rest)[1..] == rest;
  }

  /** Every order of the hosts is the outcome of some random indices. */
  lemma {:induction false} EveryPermutationArises(hs: seq<Host>, order: seq<Host>) returns (picks: seq<nat>)
    requires multiset(order) == multiset(hs)
    ensures Picks(picks, |hs|) && Shuffled(hs, picks) == order
    decreases |hs|
  {
    assert |multiset(order)| == |order| && |multiset(hs)| == |hs|;
    if hs == [] {
      picks := [];
    } else {
      var i := TakeLast(hs, order);
      var rest := EveryPermutationArises(Remove(hs, i), Init(order));
      picks := [i] + rest;
      ShuffledFirst(hs, i, rest);
    }
  }

  lemma {:induction false} ReverseMembers(s: seq<Host>)
    ensures forall h :: h in Reverse(s) <==> h in s
    ensures Distinct(s) ==> Distinct(Reverse(s))
  {
    var r := Reverse(s);
    forall h | h in s ensures h in r {
      var i :| 0 <= i < |s| && s[i] == h;
      assert r[|s| - 1 - i] == h;
    }
  }

  lemma {:induction false} DistinctCounts(hs: seq<Host>)
    ensures Distinct(hs) <==> forall h :: multiset(hs)[h] <= 1
  {
    if hs != [] {
      DistinctCounts(Init(hs));
      assert hs == Init(hs) + [Last(hs)];
      assert Last(hs) in Init(hs) <==> multiset(Init(hs))[Last(hs)] >= 1;
      if !Distinct(hs) && Distinct(Init(hs)) {
        assert Last(hs) in Init(hs);
        assert multiset(hs)[Last(hs)] >= 2;
      }
      if !Distinct(Init(hs)) {
        var h :| multiset(Init(hs))[h] > 1;
        assert multiset(hs)[h] > 1;
        var i, j :| 0 <= i < j < |Init(hs)| && Init(hs)[i] == Init(hs)[j];
        assert hs[i] == hs[j];
      }
    }
  }

  // ----- histories of a collection

  datatype Step = Exclude(excluded: set<Host>) | Shuffle(picks: seq<nat>) | Turn
                | LookupOnly(lookup: Host -> Option<string>) | LookupUnify(lookup: Host -> Option<string>)

  predicate Possible(hs: seq<Host>, s: Step) {
    s.Shuffle? ==> Picks(s.picks, |hs|)
  }

  function After(hs: seq<Host>, s: Step): seq<Host>
    requires Possible(hs, s)
  {
    match s
    case Exclude(ex) => Without(hs, ex)
    case Shuffle(picks) => Shuffled(hs, picks)
    case Turn => Reverse(hs)
    case LookupOnly(lookup) => Without(hs, Nameless(hs, lookup))
    case LookupUnify(lookup) => Unify(hs, lookup)
  }

  lemma {:induction false} StepKeeps(hs: seq<Host>, s: Step)
    requires Possible(hs, s)
    ensures forall h :: h in After(hs, s) ==> h in hs
    ensures |After(hs, s)| <= |hs|
    ensures Distinct(hs) ==> Distinct(After(hs, s))
  {
    match s
    case Exclude(ex) => WithoutMeaning(hs, ex);
    case Shuffle(picks) =>
      ShuffledIsPermutation(hs, picks);
      var r := Shuffled(hs, picks);
      assert |multiset(r)| == |r| && |multiset(hs)| == |hs|;
      assert forall h :: h in r <==> h in multiset(r);
      DistinctCounts(hs);
      DistinctCounts(r);
    case Turn => ReverseMembers(hs);
    case LookupOnly(lookup) => WithoutMeaning(hs, Nameless(hs, lookup));
    case LookupUnify(lookup) => UnifyKeeps(hs, lookup);
  }

  ghost predicate IsHistory(lists: seq<seq<Host>>, steps: seq<Step>) {
    && |lists| == |steps| + 1
    && forall i :: 0 <= i < |steps| ==> Possible(lists[i], steps[i]) && lists[i + 1] == After(lists[i], steps[i])
  }

  /** Through any history no duplicate appears and no host that was not there at the start. */
  lemma {:induction false} HistoryKeeps(lists: seq<seq<Host>>, steps: seq<Step>)
    requires IsHistory(lists, steps) && Distinct(lists[0])
    ensures Distinct(lists[|steps|])
    ensures forall h :: h in lists[|steps|] ==> h in lists[0]
    ensures |lists[|steps|]| <= |lists[0]|
  {
    var n := |steps|;
    if n > 0 {
      HistoryKeeps(lists[..n], steps[..n - 1]);
      assert lists[n - 1 + 1] == After(lists[n - 1], steps[n - 1]);
      StepKeeps(lists[n - 1], steps[n - 1]);
    }
  }
}
