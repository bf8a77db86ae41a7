/**
 The host collections of base/openvas_hosts.c, changed in place. Module HostLists says what
 happens to the list of hosts.
 */
module Hosts {
  import opened Seqs
  import opened Options
  import opened Bytes
  import opened Ipv6
  import opened Text
  import opened HostText
  import opened HostLists

  /** An element that is blank, or whose enumeration ends. */
  ghost predicate Ending(net: Inet6, el: string) {
    Strip(el) == "" || Ends(Meaning(net, Strip(el)))
  }

  /** The loop over the elements gets to element i: all before it are taken, within the maximum. */
  ghost predicate Reached(net: Inet6, els: seq<string>, i: nat, max: nat)
    requires i < |els|
  {
    && Wanted(net, els[..i]).Some? && (forall k :: 0 <= k < i ==> Ending(net, els[k]))
    && (max > 0 ==> |Wanted(net, els[..i]).value| <= max)
  }

  /**
   Of the elements the loop gets to, none has a prefix length that is misread as one C leaves
   undefined, and without a maximum every enumeration ends.
   */
  ghost predicate Enumerable(net: Inet6, els: seq<string>, max: nat) {
    forall i :: 0 <= i < |els| && Reached(net, els, i, max) ==>
      (Strip(els[i]) != "" ==> !Meaning(net, Strip(els[i])).Undefined?) && (max > 0 || Ending(net, els[i]))
  }

  /** openvas_hosts_new_with_max succeeds with these hosts, counted before de-duplication. */
  ghost predicate Accepted(net: Inet6, els: seq<string>, max: nat) {
    && Wanted(net, els).Some? && (forall i :: 0 <= i < |els| ==> Ending(net, els[i]))
    && (max > 0 ==> |Wanted(net, els).value| <= max)
  }

  class Collection {
    const net: Inet6
    var hosts: seq<Host>
    var current: nat         // place of the next host; |hosts| at the end
    var count: int
    var removed: int

    ghost predicate Valid()
      reads this
    {
      && Sane(net) && count == |hosts| && current <= |hosts| && removed >= 0
      && forall h :: h in hosts ==> Proper(net, h)
    }

    constructor (net: Inet6)
      requires Sane(net)
      ensures Valid() && this.net == net && hosts == [] && removed == 0
    {
      this.net := net;
      hosts, current, count, removed := [], 0, 0, 0;
    }

    // ----- building

    method Prepend(h: Host)
      modifies `hosts, `count
      ensures hosts == [h] + old(hosts) && count == old(count) + 1
    {
      hosts := [h] + hosts;
      count := count + 1;
    }

    /**
     The IPv4 enumeration loop; ok is false when it gave up because of max, as it always does on
     a range it never leaves.
     */
    method AddRange4(first: nat, last: nat, max: nat) returns (ok: bool)
      requires first < TWO32 && last < TWO32 && count >= 0 && (max > 0 || Ends(Range4(first, last)))
      modifies `hosts, `count
      ensures ok ==> Ends(Range4(first, last)) && hosts == Reverse(Expansion(Range4(first, last))) + old(hosts)
      ensures ok ==> count == old(count) + |Expansion(Range4(first, last))|
      ensures !ok ==> max > 0 && max < count
      ensures !ok && Ends(Range4(first, last)) ==> count <= old(count) + |Expansion(Range4(first, last))|
    {
      var current: nat := first;
      ghost var run, ends := [], Ends(Range4(first, last));
      ok := true;
      while ok && current <= last
        invariant ok && ends ==> current == first + |run| && (first <= last ==> current <= last + 1)
        invariant ends ==> first + |run| <= (if first <= last then last + 1 else first) && run == Run4(first, |run|)
        invariant hosts == Reverse(run) + old(hosts) && count == old(count) + |run|
        invariant !ends ==> current <= last
        invariant if ok then max > 0 ==> |run| == 0 || count <= max else max > 0 && count > max
        decreases ok, if ends then last + 1 - current else max + 1 - |run|
      {
        PutFirst(run, V4(current), old(hosts));
        Prepend(V4(current));
        run := run + [V4(current)];
        ok := !(max > 0 && count > max);
        if ok {
          current := (current + 1) % TWO32;
        }
      }
    }

    static lemma {:induction false} PutFirst(run: seq<Host>, h: Host, base: seq<Host>)
      ensures [h] + (Reverse(run) + base) == Reverse(run + [h]) + base
    {
      assert (run + [h])[..|run|] == run;
    }

    /** The IPv6 enumeration loop: memcmp and the carry loop on a 16-byte buffer. */
    method AddRange6(first: seq<Byte>, last: seq<Byte>, max: nat) returns (ok: bool)
      requires |first| == 16 == |last| && count >= 0 && (max > 0 || Ends(Range6(first, last)))
      modifies `hosts, `count
      ensures ok ==> Ends(Range6(first, last)) && hosts == Reverse(Expansion(Range6(first, last))) + old(hosts)
      ensures ok ==> count == old(count) + |Expansion(Range6(first, last))|
      ensures !ok ==> max > 0 && max < count
      ensures !ok && Ends(Range6(first, last)) ==> count <= old(count) + |Expansion(Range6(first, last))|
    {
      MemcmpVal(first, last);
      Expansion6(first, last);
      if Memcmp(first, last) > 0 {
        return true;
      }
      ok := Enumerate6(first, last, max);
    }

    static lemma {:induction false} Expansion6(first: seq<Byte>, last: seq<Byte>)
      ensures var e := Expansion(Range6(first, last));
        if Val(first) > Val(last) then e == []
        else e == Run6(first, Val(last) - Val(first) + 1)
    {
    }

    method Enumerate6(first: seq<Byte>, last: seq<Byte>, max: nat) returns (ok: bool)
      requires |first| == 16 == |last| && Val(first) <= Val(last) && count >= 0 && (max > 0 || Val(last) < MAX6)
      modifies `hosts, `count
      ensures ok ==> Val(last) < MAX6 && hosts == Reverse(Run6(first, Val(last) - Val(first) + 1)) + old(hosts)
      ensures ok ==> count == old(count) + Val(last) - Val(first) + 1
      ensures !ok ==> max > 0 && max < count
      ensures !ok && Val(last) < MAX6 ==> count <= old(count) + Val(last) - Val(first) + 1
    {
      var current := new Byte[16](i requires 0 <= i < 16 => first[i]);
      assert current[..] == first;
      AtStart(first, last);
      ok := Loop6(current, last, max, first, Val(last) < MAX6, Val(last) - Val(first) + 1);
    }

    /** That loop; total is the length of the range, and ends whether the loop passes it. */
    method Loop6(current: array<Byte>, last: seq<Byte>, max: nat, ghost first: seq<Byte>, ghost ends: bool, ghost total: nat)
      returns (ok: bool)
      requires Span(first, last, ends, total) && count >= 0 && (max > 0 || ends)
      requires OnTrack(first, last, ends, total, [], current[..])
      modifies `hosts, `count, current
      ensures ok ==> ends && hosts == Reverse(Run6(first, total)) + old(hosts) && count == old(count) + total
      ensures !ok ==> max > 0 && max < count && (ends ==> count <= old(count) + total)
    {
      ghost var run, base := [], hosts;
      ok := true;
      while ok && Memcmp(current[..], last) <= 0
        invariant hosts == Reverse(run) + base && count == old(count) + |run|
        invariant if ok then OnTrack(first, last, ends, total, run, current[..]) else max > 0 && max < count && |run| > 0
        invariant ends ==> |run| <= total
        invariant ok && max > 0 ==> |run| == 0 || count <= max
        decreases ok, if ends then total - |run| else max + 1 - |run|
      {
        ok, run := Step6(current, last, max, first, ends, total, run, base);
      }
      if ok {
        AtEnd(first, last, ends, total, run, current[..]);
      }
    }

    /** One turn of that loop. */
    method Step6(current: array<Byte>, last: seq<Byte>, max: nat, ghost first: seq<Byte>, ghost ends: bool, ghost total: nat,
                 ghost run0: seq<Host>, ghost base: seq<Host>)
      returns (ok: bool, ghost run: seq<Host>)
      requires Span(first, last, ends, total)
      requires OnTrack(first, last, ends, total, run0, current[..]) && Memcmp(current[..], last) <= 0
      modifies `hosts, `count, current
      requires hosts == Reverse(run0) + base
      ensures |run| == |run0| + 1 && hosts == Reverse(run) + base && count == old(count) + 1
      ensures if ok then OnTrack(first, last, ends, total, run, current[..]) && (max > 0 ==> count <= max)
              else max > 0 && max < count
      ensures ends ==> |run| <= total
    {
      ghost var before := current[..];
      PutFirst(run0, V6(before), base);
      Prepend(V6(current[..]));
      run := run0 + [V6(before)];
      ok := !(max > 0 && count > max);
      if ok {
        Increment(current);
        Further(first, last, ends, total, run0, before);
      }
    }

    static ghost predicate Span(first: seq<Byte>, last: seq<Byte>, ends: bool, total: int) {
      |first| == |last| == 16 && Val(first) <= Val(last) && ends == (Val(last) < MAX6) && total == Val(last) - Val(first) + 1
    }

    /** The loop after the addresses of run: on its way to last, or on a way without end. */
    static ghost predicate OnTrack(first: seq<Byte>, last: seq<Byte>, ends: bool, total: int, run: seq<Host>, current: seq<Byte>)
      requires |first| == |last| == 16
    {
      && |current| == 16
      && if ends then
           && |run| <= total && run == Run6(first, |run|) && current == IncTimes(first, |run|)
           && (Memcmp(current, last) <= 0 <==> |run| < total)
         else Memcmp(current, last) <= 0
    }

    static lemma {:induction false} AtStart(first: seq<Byte>, last: seq<Byte>)
      requires |first| == |last| == 16 && Val(first) <= Val(last)
      ensures OnTrack(first, last, Val(last) < MAX6, Val(last) - Val(first) + 1, [], first)
    {
      if Val(last) < MAX6 {
        InRange(first, last, 0);
      } else {
        NeverPast(first, last);
      }
    }

    static lemma {:induction false} AtEnd(first: seq<Byte>, last: seq<Byte>, ends: bool, total: int, run: seq<Host>, current: seq<Byte>)
      requires |first| == |last| == 16 && OnTrack(first, last, ends, total, run, current) && Memcmp(current, last) > 0
      ensures ends && |run| == total && run == Run6(first, total)
    {
    }

    static lemma {:induction false} Further(first: seq<Byte>, last: seq<Byte>, ends: bool, total: int, run: seq<Host>, current: seq<Byte>)
      requires Span(first, last, ends, total)
      requires OnTrack(first, last, ends, total, run, current) && Memcmp(current, last) <= 0
      ensures OnTrack(first, last, ends, total, run + [V6(current)], Inc(current))
    {
      if ends {
        Run6Next(first, |run|);
        InRange(first, last, |run| + 1);
      } else {
        NeverPast(Inc(current), last);
      }
    }

    /** No address is past the all-ones address. */
    static lemma {:induction false} NeverPast(a: seq<Byte>, last: seq<Byte>)
      requires |a| == |last| == 16 && Val(last) >= MAX6
      ensures Memcmp(a, last) <= 0
    {
      ValBound(a);
      MemcmpVal(a, last);
    }

    static lemma {:induction false} Run6Next(first: seq<Byte>, n: nat)
      ensures Run6(first, n + 1) == Run6(first, n) + [V6(IncTimes(first, n))]
      ensures IncTimes(first, n + 1) == Inc(IncTimes(first, n))
    {
    }

    /** The loop test of the enumeration, while it has not passed the range. */
    static lemma {:induction false} InRange(first: seq<Byte>, last: seq<Byte>, n: nat)
      requires |first| == |last| == 16 && Val(first) <= Val(last) < MAX6 && Val(first) + n <= Val(last) + 1
      ensures Memcmp(IncTimes(first, n), last) <= 0 <==> n < Val(last) - Val(first) + 1
    {
      IncTimesVal(first, n);
      MemcmpVal(IncTimes(first, n), last);
    }

    /** One round of the loop over the elements; ok is false when the whole result is NULL. */
    method AddElement(el: string, max: nat) returns (ok: bool)
      requires Valid()
      requires el != "" ==> !Meaning(net, el).Undefined? && (max > 0 || Ends(Meaning(net, el)))
      modifies `hosts, `count
      ensures !ok ==> el != ""
      ensures !ok ==> Meaning(net, el).Bad? || !Ends(Meaning(net, el)) || (0 < max < old(count) + |Expansion(Meaning(net, el))|)
      ensures ok && el == "" ==> hosts == old(hosts) && count == old(count)
      ensures ok && el != "" ==>
        && !Meaning(net, el).Bad? && Ends(Meaning(net, el))
        && hosts == Reverse(Expansion(Meaning(net, el))) + old(hosts)
        && count == old(count) + |Expansion(Meaning(net, el))|
        && (max > 0 ==> count <= max)
    {
      if el == "" {
        return true;
      }
      var m := Meaning(net, el);
      MeaningProper(net, el);
      match m {
        case One(h) =>
          Prepend(h);
          assert Reverse([h]) == [h];
        case Range4(first, last) =>
          ok := AddRange4(first, last, max);
          if !ok {
            return;
          }
        case Range6(first, last) =>
          ok := AddRange6(first, last, max);
          if !ok {
            return;
          }
        case Bad => return false;
      }
      ok := !(max > 0 && count > max);
    }

    /** openvas_hosts_remove_element: the element at place i goes. */
    method RemoveElement(i: nat)
      requires i < |hosts|
      modifies `hosts
      ensures hosts == Remove(old(hosts), i)
    {
      hosts := hosts[..i] + hosts[i + 1..];
    }

    /** The texts of the hosts of hs. */
    static function TextsOf(net: Inet6, hs: seq<Host>): set<string> {
      set g | g in hs :: ValueStr(net, g)
    }

    /** One more host: whether its text is known tells whether the host is. */
    static lemma {:induction false} TextsStep(net: Inet6, hs: seq<Host>, h: Host)
      requires Sane(net) && Proper(net, h) && forall g :: g in hs ==> Proper(net, g)
      ensures ValueStr(net, h) in TextsOf(net, hs) <==> h in hs
      ensures TextsOf(net, hs + [h]) == TextsOf(net, hs) + {ValueStr(net, h)}
    {
      if ValueStr(net, h) in TextsOf(net, hs) {
        var g :| g in hs && ValueStr(net, g) == ValueStr(net, h);
        ValueStrInjective(net, g, h);
      }
      var v := hs + [h];
      assert v[|hs|] == h && forall i :: 0 <= i < |hs| ==> v[i] == hs[i];
    }

    /** One turn of a loop that drops hosts: kept are the hosts it has kept so far, and host p of hs is next. */
    method KeepOrRemove(i: nat, gone: bool, n: nat, ghost kept: seq<Host>, ghost hs: seq<Host>, ghost p: nat)
      returns (i': nat, n': nat)
      requires p < |hs| && i == |kept| && hosts == kept + hs[p..]
      modifies `hosts
      ensures hosts == (if gone then kept else kept + [hs[p]]) + hs[p + 1..]
      ensures i' == (if gone then i else i + 1) && n' == if gone then n + 1 else n
    {
      assert kept + hs[p..] == kept + [hs[p]] + hs[p + 1..];
      i', n' := i, n;
      if gone {
        RemoveElement(i);
        n' := n + 1;
      } else {
        i' := i + 1;
      }
    }

    static lemma {:induction false} NextHost(kept: seq<Host>, hs: seq<Host>, p: nat)
      requires p <= |hs|
      ensures |kept| < |kept + hs[p..]| <==> p < |hs|
      ensures p < |hs| ==> (kept + hs[p..])[|kept|] == hs[p]
      ensures p == |hs| ==> hs[..p] == hs && kept + hs[p..] == kept
    {
    }

    static lemma {:induction false} FirstOccurrencesStep(hs: seq<Host>, p: nat)
      requires p < |hs|
      ensures hs[..p + 1] == hs[..p] + [hs[p]]
      ensures FirstOccurrences(hs[..p + 1]) ==
              if hs[p] in hs[..p] then FirstOccurrences(hs[..p]) else FirstOccurrences(hs[..p]) + [hs[p]]
    {
      assert Init(hs[..p + 1]) == hs[..p] && Last(hs[..p + 1]) == hs[p];
    }

    /** The loop of openvas_hosts_deduplicate, with a hash table of the texts seen so far. */
    method DropDuplicates() returns (duplicates: nat)
      requires Valid()
      modifies `hosts
      ensures hosts == FirstOccurrences(old(hosts)) && duplicates == |old(hosts)| - |hosts|
    {
      ghost var hs, p, kept := hosts, 0, [];
      var i := 0;
      duplicates := 0;
      var table: set<string> := {};
      while i < |hosts|
        invariant 0 <= p <= |hs| && i == |kept| && duplicates == p - i
        invariant hosts == kept + hs[p..] && kept == FirstOccurrences(hs[..p])
        invariant table == TextsOf(net, hs[..p])
        decreases |hs| - p
      {
        NextHost(kept, hs, p);
        FirstOccurrencesStep(hs, p);
        TextsStep(net, hs[..p], hs[p]);
        var name := ValueStr(net, hosts[i]);
        i, duplicates := KeepOrRemove(i, name in table, duplicates, kept, hs, p);
        table := table + {name};
        p, kept := p + 1, FirstOccurrences(hs[..p + 1]);
      }
      NextHost(kept, hs, p);
    }

    /** openvas_hosts_deduplicate */
    method Deduplicate()
      requires Valid()
      modifies this
      ensures Valid() && current == 0
      ensures hosts == FirstOccurrences(old(hosts))
      ensures count + removed == old(count + removed)
    {
      FirstOccurrencesMeaning(hosts);
      var duplicates := DropDuplicates();
      count := count - duplicates;
      removed := removed + duplicates;
      current := 0;
    }

    // ----- operations on a finished collection

    /** openvas_hosts_next */
    method Next() returns (r: Option<Host>)
      requires Valid()
      modifies `current
      ensures Valid()
      ensures if old(current) == |hosts| then r == None && current == old(current)
              else r == Some(hosts[old(current)]) && current == old(current) + 1
    {
      if current == |hosts| {
        return None;
      }
      r := Some(hosts[current]);
      current := current + 1;
    }

    /** openvas_hosts_resolve, with dns for the name lookup: names that resolve become IPv4 addresses. */
    method Resolve(dns: string -> Option<nat>)
      requires Valid() && forall s :: dns(s).Some? ==> dns(s).value < TWO32
      modifies `hosts, `current
      ensures Valid() && current == 0
      ensures |hosts| == |old(hosts)| && forall k :: 0 <= k < |hosts| ==> hosts[k] == Resolved(dns, old(hosts)[k])
    {
      ghost var hs := hosts;
      current := 0;
      var h := Next();
      ghost var p := 0;
      while h.Some?
        invariant Valid() && |hosts| == |hs| && p <= |hs|
        invariant if h.Some? then current == p + 1 && p < |hs| && h.value == hs[p] else p == |hs|
        invariant forall k :: 0 <= k < |hs| ==> hosts[k] == if k < p then Resolved(dns, hs[k]) else hs[k]
        decreases |hs| - p
      {
        if h.value.Name? && dns(h.value.name).Some? {
          hosts := hosts[current - 1 := V4(dns(h.value.name).value)];
        }
        p := p + 1;
        h := Next();
      }
      current := 0;
    }

    static function Resolved(dns: string -> Option<nat>, h: Host): Host {
      if h.Name? && dns(h.name).Some? then V4(dns(h.name).value) else h
    }

    static lemma {:induction false} WithoutStep(hs: seq<Host>, p: nat, drop: set<Host>)
      requires p < |hs|
      ensures Without(hs[..p + 1], drop) ==
              if hs[p] in drop then Without(hs[..p], drop) else Without(hs[..p], drop) + [hs[p]]
    {
      assert Init(hs[..p + 1]) == hs[..p] && Last(hs[..p + 1]) == hs[p];
    }

    /** The end of every operation that removes hosts. */
    method Removed(n: nat)
      requires Sane(net) && count == |hosts| + n && removed >= 0
      requires forall h :: h in hosts ==> Proper(net, h)
      modifies `count, `removed, `current
      ensures Valid() && current == 0 && count + removed == old(count + removed) && removed == old(removed) + n
    {
      count := count - n;
      removed := removed + n;
      current := 0;
    }

    /** The first loop of openvas_hosts_exclude: a hash table of the texts of the excluded hosts. */
    static method Tabulate(net: Inet6, others: seq<Host>) returns (table: set<string>)
      requires Sane(net) && forall h :: h in others ==> Proper(net, h)
      ensures table == TextsOf(net, others)
    {
      table := {};
      for k := 0 to |others|
        invariant table == TextsOf(net, others[..k])
      {
        TextsStep(net, others[..k], others[k]);
        assert others[..k + 1] == others[..k] + [others[k]];
        table := table + {ValueStr(net, others[k])};
      }
      assert others[..|others|] == others;
    }

    /** The second loop: drops the hosts whose text is in the table. */
    method DropTexts(table: set<string>, ghost others: seq<Host>) returns (excluded: nat)
      requires Valid() && table == TextsOf(net, others) && forall h :: h in others ==> Proper(net, h)
      modifies `hosts
      ensures hosts == Without(old(hosts), set h | h in others)
      ensures excluded == |old(hosts)| - |hosts|
    {
      ghost var hs, p, kept, drop := hosts, 0, [], set h | h in others;
      var i := 0;
      excluded := 0;
      while i < |hosts|
        invariant 0 <= p <= |hs| && i == |kept| && excluded == p - i
        invariant hosts == kept + hs[p..] && kept == Without(hs[..p], drop)
        decreases |hs| - p
      {
        NextHost(kept, hs, p);
        WithoutStep(hs, p, drop);
        TextsStep(net, others, hs[p]);
        i, excluded := KeepOrRemove(i, ValueStr(net, hosts[i]) in table, excluded, kept, hs, p);
        p, kept := p + 1, Without(hs[..p + 1], drop);
      }
      NextHost(kept, hs, p);
    }

    /**
     openvas_hosts_exclude: drops the hosts of another specification, keeping the order of
     the others, and returns how many it dropped; -1 when the other one is not accepted.
     */
    method Exclude(str: string, resolve: bool, dns: string -> Option<nat>) returns (excluded: int)
      requires Valid() && Enumerable(net, Elements(str), 0)
      requires forall s :: dns(s).Some? ==> dns(s).value < TWO32
      modifies this
      ensures Valid() && count + removed == old(count + removed)
      ensures excluded == -1 <==> !Accepted(net, Elements(str), 0)
      ensures excluded == -1 ==> hosts == old(hosts)
      ensures excluded > 0 ==> current == 0
      ensures Accepted(net, Elements(str), 0) ==>
        var w := FirstOccurrences(Wanted(net, Elements(str)).value);
        && excluded == |old(hosts)| - |hosts|
        && var others := if resolve then ResolvedAll(dns, w) else w;
        && hosts == Without(old(hosts), set h | h in others)
    {
      var others := NewWithMax(net, str, 0);
      if others == null {
        return -1;
      }
      ghost var w := others.hosts;
      if resolve {
        others.Resolve(dns);
        assert others.hosts == ResolvedAll(dns, w);
      }
      if others.count == 0 {
        WithoutNothing(hosts, set h | h in others.hosts);
        return 0;
      }
      excluded := ExcludeHosts(others.hosts);
    }

    static lemma {:induction false} WithoutNothing(hs: seq<Host>, drop: set<Host>)
      requires drop == {}
      ensures Without(hs, drop) == hs
    {
      WithoutMeaning(hs, drop);
    }

    /** The two loops of openvas_hosts_exclude. */
    method ExcludeHosts(others: seq<Host>) returns (excluded: nat)
      requires Valid() && forall h :: h in others ==> Proper(net, h)
      modifies this
      ensures Valid() && current == 0 && count + removed == old(count + removed)
      ensures excluded == |old(hosts)| - |hosts|
      ensures hosts == Without(old(hosts), set h | h in others)
    {
      WithoutMeaning(hosts, set h | h in others);
      var table := Tabulate(net, others);
      excluded := DropTexts(table, others);
      Removed(excluded);
    }

    static function ResolvedAll(dns: string -> Option<nat>, hs: seq<Host>): seq<Host> {
      seq(|hs|, k requires 0 <= k < |hs| => Resolved(dns, hs[k]))
    }

    /** Two names of one address become the same host: resolving is the operation that can bring a duplicate back. */
    static lemma {:induction false} ResolveCanDuplicate(dns: string -> Option<nat>, a: string, b: string)
      requires a != b && dns(a).Some? && dns(a) == dns(b)
      ensures Distinct([Name(a), Name(b)]) && !Distinct(ResolvedAll(dns, [Name(a), Name(b)]))
    {
      var r := ResolvedAll(dns, [Name(a), Name(b)]);
      assert r[0] == r[1];
    }

    /** openvas_hosts_reverse_lookup_only, with lookup for the reverse lookup of a host. */
    method ReverseLookupOnly(lookup: Host -> Option<string>) returns (n: int)
      requires Valid()
      modifies this
      ensures Valid() && current == 0 && count + removed == old(count + removed)
      ensures hosts == Without(old(hosts), Nameless(old(hosts), lookup)) && n == |old(hosts)| - |hosts|
    {
      WithoutMeaning(hosts, Nameless(hosts, lookup));
      n := DropNameless(lookup, Nameless(hosts, lookup));
      Removed(n);
    }

    /** The loop of openvas_hosts_reverse_lookup_only; drop is the set of hosts without a name. */
    method DropNameless(lookup: Host -> Option<string>, ghost drop: set<Host>) returns (n: nat)
      requires forall k :: 0 <= k < |hosts| ==> (lookup(hosts[k]).None? <==> hosts[k] in drop)
      modifies `hosts
      ensures hosts == Without(old(hosts), drop) && n == |old(hosts)| - |hosts|
    {
      ghost var hs, p, kept := hosts, 0, [];
      var i := 0;
      n := 0;
      while i < |hosts|
        invariant 0 <= p <= |hs| && i == |kept| && n == p - i
        invariant hosts == kept + hs[p..] && kept == Without(hs[..p], drop)
        decreases |hs| - p
      {
        NextHost(kept, hs, p);
        WithoutStep(hs, p, drop);
        i, n := KeepOrRemove(i, lookup(hosts[i]).None?, n, kept, hs, p);
        p, kept := p + 1, Without(hs[..p + 1], drop);
      }
      NextHost(kept, hs, p);
    }

    static lemma {:induction false} UnifyStep(hs: seq<Host>, p: nat, lookup: Host -> Option<string>)
      requires p < |hs|
      ensures hs[..p + 1] == hs[..p] + [hs[p]]
      ensures Unify(hs[..p + 1], lookup) ==
              if lookup(hs[p]).Some? && lookup(hs[p]) in Lookups(hs[..p], lookup) then Unify(hs[..p], lookup)
              else Unify(hs[..p], lookup) + [hs[p]]
    {
      assert Init(hs[..p + 1]) == hs[..p] && Last(hs[..p + 1]) == hs[p];
    }

    static lemma {:induction false} LookupTable(table: set<Option<string>>, hs: seq<Host>, p: nat, lookup: Host -> Option<string>)
      requires p < |hs| && table == Lookups(hs[..p], lookup) - {None}
      ensures lookup(hs[p]).Some? ==> (lookup(hs[p]) in table <==> lookup(hs[p]) in Lookups(hs[..p], lookup))
      ensures Lookups(hs[..p + 1], lookup) - {None} ==
              if lookup(hs[p]).Some? then table + {lookup(hs[p])} else table
    {
      LookupsAppend(hs[..p], hs[p], lookup);
      assert hs[..p + 1] == hs[..p] + [hs[p]];
    }

    method DropRepeatedLookups(lookup: Host -> Option<string>) returns (n: nat)
      modifies `hosts
      ensures hosts == Unify(old(hosts), lookup) && n == |old(hosts)| - |hosts|
    {
      ghost var hs, p, kept := hosts, 0, [];
      var i := 0;
      var table: set<Option<string>> := {};
      n := 0;
      while i < |hosts|
        invariant 0 <= p <= |hs| && i == |kept| && n == p - i
        invariant hosts == kept + hs[p..] && kept == Unify(hs[..p], lookup)
        invariant table == Lookups(hs[..p], lookup) - {None}
        decreases |hs| - p
      {
        NextHost(kept, hs, p);
        i, n, table := DropIfRepeated(lookup, i, n, table, kept, hs, p);
        p, kept := p + 1, Unify(hs[..p + 1], lookup);
      }
      NextHost(kept, hs, p);
    }

    /** One turn of that loop. */
    method DropIfRepeated(lookup: Host -> Option<string>, i: nat, n: nat, table: set<Option<string>>,
                          ghost kept: seq<Host>, ghost hs: seq<Host>, ghost p: nat)
      returns (i': nat, n': nat, table': set<Option<string>>)
      requires p < |hs| && i == |kept| < |hosts| && hosts[i] == hs[p] && n == p - i
      requires hosts == kept + hs[p..] && kept == Unify(hs[..p], lookup)
      requires table == Lookups(hs[..p], lookup) - {None}
      modifies `hosts
      ensures hosts == Unify(hs[..p + 1], lookup) + hs[p + 1..]
      ensures i' == |Unify(hs[..p + 1], lookup)| && n' == p + 1 - i'
      ensures table' == Lookups(hs[..p + 1], lookup) - {None}
    {
      UnifyStep(hs, p, lookup);
      LookupTable(table, hs, p, lookup);
      var name := lookup(hosts[i]);
      i', n' := KeepOrRemove(i, name.Some? && name in table, n, kept, hs, p);
      table' := if name.Some? then table + {name} else table;
    }

    /** openvas_hosts_reverse_lookup_unify */
    method ReverseLookupUnify(lookup: Host -> Option<string>) returns (n: int)
      requires Valid()
      modifies this
      ensures Valid() && current == 0 && count + removed == old(count + removed)
      ensures hosts == Unify(old(hosts), lookup) && n == |old(hosts)| - |hosts|
    {
      UnifyKeeps(hosts, lookup);
      n := DropRepeatedLookups(lookup);
      Removed(n);
    }

    /** openvas_hosts_reverse; an empty collection keeps its (trivial) iterator. */
    method Turn()
      requires Valid()
      modifies `hosts, `current
      ensures Valid() && current == 0 && hosts == Reverse(old(hosts))
    {
      if hosts == [] {
        return;
      }
      ReverseMembers(hosts);
      hosts := Reverse(hosts);
      current := 0;
    }

    /** openvas_hosts_shuffle, with the indices the random generator returns. */
    method Shuffle(picks: seq<nat>)
      requires Valid() && Picks(picks, |hosts|)
      modifies `hosts, `current
      ensures Valid() && current == 0
      ensures hosts == Shuffled(old(hosts), picks) && multiset(hosts) == multiset(old(hosts))
    {
      PermutedProper(net, hosts, picks);
      Rebuild(picks);
      current := 0;
    }

    /** The loop of openvas_hosts_shuffle: moves the picked elements to a new list until none is left. */
    method Rebuild(picks: seq<nat>)
      requires Picks(picks, |hosts|) && count == |hosts|
      modifies `hosts
      ensures hosts == Shuffled(old(hosts), picks)
    {
      ghost var hs := hosts;
      var left, newList, k := count, [], 0;
      while left > 0
        invariant 0 <= k <= |picks| && Picks(picks[k..], |hosts|) && left == |hosts|
        invariant Shuffled(hosts, picks[k..]) + newList == Shuffled(hs, picks)
        decreases left
      {
        var element := hosts[picks[k]];
        assert picks[k..][1..] == picks[k + 1..];
        hosts := Remove(hosts, picks[k]);
        newList := [element] + newList;
        left, k := left - 1, k + 1;
      }
      hosts := newList;
    }

    static lemma {:induction false} PermutedProper(net: Inet6, hs: seq<Host>, picks: seq<nat>)
      requires Picks(picks, |hs|) && forall h :: h in hs ==> Proper(net, h)
      ensures multiset(Shuffled(hs, picks)) == multiset(hs) && |Shuffled(hs, picks)| == |hs|
      ensures forall h :: h in Shuffled(hs, picks) ==> Proper(net, h)
    {
      ShuffledIsPermutation(hs, picks);
      var r := Shuffled(hs, picks);
      assert |multiset(r)| == |r| && |multiset(hs)| == |hs|;
      assert forall h :: h in r ==> h in multiset(r);
    }
  }

  /**
   openvas_hosts_new_with_max: the first occurrences of everything the specification asks
   for, in order; or null, exactly when an element means nothing or there is too much.
   */
  method NewWithMax(net: Inet6, str: string, max: nat) returns (r: Collection?)
    requires Sane(net) && Enumerable(net, Elements(str), max)
    ensures r == null <==> !Accepted(net, Elements(str), max)
    ensures r != null ==> fresh(r) && r.Valid() && r.net == net && r.current == 0
    ensures r != null ==> r.hosts == FirstOccurrences(Wanted(net, Elements(str)).value)
    ensures r != null ==> r.count + r.removed == |Wanted(net, Elements(str)).value|
  {
    var c := new Collection(net);
    var split := Elements(str);
    var i := 0;
    while i < |split|
      invariant 0 <= i <= |split| && fresh(c) && c.net == net && Building(c, split, i, max)
    {
      var ok := AddNext(c, split, i, max);
      if !ok {
        return null;
      }
      i := i + 1;
    }
    AllBuilt(c, split, max);
    Finish(c, Wanted(net, split).value);
    return c;
  }

  lemma {:induction false} AllBuilt(c: Collection, split: seq<string>, max: nat)
    requires Building(c, split, |split|, max)
    ensures Accepted(c.net, split, max) && c.hosts == Reverse(Wanted(c.net, split).value)
  {
    assert split[..|split|] == split;
  }

  /** Turns the list round and removes the duplicates. */
  method Finish(c: Collection, ghost w: seq<Host>)
    requires c.Valid() && c.removed == 0 && c.hosts == Reverse(w)
    modifies c
    ensures c.Valid() && c.current == 0 && c.hosts == FirstOccurrences(w) && c.count + c.removed == |w|
  {
    TurnRound(c, w);
    c.Deduplicate();
  }

  method TurnRound(c: Collection, ghost w: seq<Host>)
    requires c.Valid() && c.removed == 0 && c.hosts == Reverse(w)
    modifies c
    ensures c.Valid() && c.removed == 0 && c.hosts == w && c.count == |w|
  {
    ReverseTwice(w);
    TurnedProper(c.net, w);
    c.hosts := Reverse(c.hosts);
  }

  lemma {:induction false} TurnedProper(net: Inet6, w: seq<Host>)
    requires forall h :: h in Reverse(w) ==> Proper(net, h)
    ensures forall h :: h in w ==> Proper(net, h)
  {
    ReverseMembers(w);
  }

  /** The collection after the first i elements, in reverse. */
  ghost predicate Building(c: Collection, split: seq<string>, i: nat, max: nat)
    requires i <= |split|
    reads c
  {
    && c.Valid() && c.removed == 0
    && Wanted(c.net, split[..i]).Some? && c.hosts == Reverse(Wanted(c.net, split[..i]).value)
    && (max > 0 ==> c.count <= max)
    && forall k :: 0 <= k < i ==> Ending(c.net, split[k])
  }

  /** One turn of the loop over the elements. */
  method AddNext(c: Collection, split: seq<string>, i: nat, max: nat) returns (ok: bool)
    requires i < |split| && Enumerable(c.net, split, max) && Building(c, split, i, max)
    modifies c
    ensures ok ==> Building(c, split, i + 1, max)
    ensures !ok ==> !Accepted(c.net, split, max)
  {
    ghost var w := Wanted(c.net, split[..i]).value;
    var el := Strip(split[i]);
    WantedStep(c.net, split, i);
    WantedProper(c.net, split[..i + 1]);
    ok := c.AddElement(el, max);
    if !ok {
      Refused(c.net, split, i, max);
    } else if el != "" {
      ReverseConcat(w, Expansion(Meaning(c.net, el)));
      ReverseMembers(Wanted(c.net, split[..i + 1]).value);
    }
  }

  /** A specification with such an element is not accepted. */
  lemma {:induction false} Refused(net: Inet6, els: seq<string>, i: nat, max: nat)
    requires i < |els| && Strip(els[i]) != "" && Wanted(net, els[..i]).Some?
    requires var m := Meaning(net, Strip(els[i]));
      m.Bad? || !Ends(m) || 0 < max < |Wanted(net, els[..i]).value| + |Expansion(m)|
    ensures !Accepted(net, els, max)
  {
    WantedStep(net, els, i);
    WantedPrefix(net, els, i + 1);
    if !Ends(Meaning(net, Strip(els[i]))) {
      assert !Ending(net, els[i]);
    }
  }

  lemma {:induction false} WantedStep(net: Inet6, els: seq<string>, i: nat)
    requires i < |els| && Wanted(net, els[..i]).Some?
    ensures var el := Strip(els[i]);
      Wanted(net, els[..i + 1]) ==
        if el == "" then Wanted(net, els[..i])
        else if Meaning(net, el).Bad? then None
        else Some(Wanted(net, els[..i]).value + Expansion(Meaning(net, el)))
  {
    assert Init(els[..i + 1]) == els[..i] && Last(els[..i + 1]) == els[i];
  }
}
