/**
 The knowledge base (misc/kb.c) on values: a hash table of items, and the simple list of
 values per name that it implements.
 */
module KbLists {
  const HASH_MAX: nat := 65537

  datatype Val = Str(s: string) | Int(i: int)
  datatype Item = Item(name: string, val: Val)

  /** The type argument of a lookup; 0 is any type. */
  datatype Kind = AnyKind | StrKind | IntKind

  predicate OfKind(v: Val, k: Kind) {
    match k
    case AnyKind => true
    case StrKind => v.Str?
    case IntKind => v.Int?
  }

  // ----- the hash

  /** The accumulator of mkkey after a name, in 32-bit arithmetic. */
  function KeySum(name: string): (h: nat)
    ensures h < 0x1_0000_0000
  {
    if name == "" then 0
    else (8 * KeySum(name[..|name| - 1]) + name[|name| - 1] as int % 256) % 0x1_0000_0000
  }

  function MkKey(name: string): (h: nat)
    ensures h < HASH_MAX
  {
    KeySum(name) % HASH_MAX
  }

  /** The loop of mkkey. */
  method ComputeKey(name: string) returns (h: nat)
    ensures h == MkKey(name)
  {
    h := 0;
    for p := 0 to |name|
      invariant h == KeySum(name[..p])
    {
      assert name[..p + 1][..p] == name[..p];
      h := (8 * h + name[p] as int % 256) % 0x1_0000_0000;
    }
    assert name[..|name|] == name;
    h := h % HASH_MAX;
  }

  // ----- one bucket

  /** The values of the items with that name, in bucket order. */
  function Vals(b: seq<Item>, n: string): seq<Val> {
    if b == [] then []
    else (if b[0].name == n then [b[0].val] else []) + Vals(b[1..], n)
  }

  /** The place of the first item with that name and kind, or |b|. */
  function Find(b: seq<Item>, n: string, k: Kind): (i: nat)
    ensures i <= |b|
    ensures i < |b| ==> b[i].name == n && OfKind(b[i].val, k)
    ensures forall j :: 0 <= j < i ==> !(b[j].name == n && OfKind(b[j].val, k))
  {
    if b == [] || (b[0].name == n && OfKind(b[0].val, k)) then 0 else 1 + Find(b[1..], n, k)
  }

  /** kb_item_addset_str and kb_item_addset_int: the bucket afterwards. */
  function AddSet(b: seq<Item>, n: string, v: Val, replace: bool): seq<Item> {
    var i := Find(b, n, AnyKind);
    if replace && i < |b| then b[i := Item(n, v)]
    else if Item(n, v) in b then b
    else [Item(n, v)] + b
  }

  function AddSetResult(b: seq<Item>, n: string, v: Val, replace: bool): int {
    var i := Find(b, n, AnyKind);
    if replace && i < |b| then (if b[i].val == v then -1 else 0)
    else if Item(n, v) in b then -1
    else 0
  }

  /** kb_item_rm_all */
  function RmAll(b: seq<Item>, n: string): seq<Item> {
    if b == [] then []
    else (if b[0].name == n then [] else [b[0]]) + RmAll(b[1..], n)
  }

  lemma {:induction false} ValsFind(b: seq<Item>, n: string)
    ensures Vals(b, n) == [] <==> Find(b, n, AnyKind) == |b|
    ensures Find(b, n, AnyKind) < |b| ==> Vals(b, n)[0] == b[Find(b, n, AnyKind)].val
  {
    if b != [] {
      ValsFind(b[1..], n);
    }
  }

  lemma {:induction false} ValsMember(b: seq<Item>, n: string, v: Val)
    ensures v in Vals(b, n) <==> Item(n, v) in b
  {
    if b != [] {
      ValsMember(b[1..], n, v);
      assert b == [b[0]] + b[1..];
    }
  }

  lemma {:induction false} ValsReplace(b: seq<Item>, n: string, v: Val, m: string)
    requires Find(b, n, AnyKind) < |b|
    ensures Vals(b, n) != []
    ensures var i := Find(b, n, AnyKind);
      Vals(b[i := Item(n, v)], m) == if m == n then [v] + Vals(b, n)[1..] else Vals(b, m)
  {
    ValsReplaceOwn(b, n, v);
    if m != n {
      ValsReplaceOther(b, n, v, m);
    }
  }

  lemma {:induction false} ValsReplaceOwn(b: seq<Item>, n: string, v: Val)
    requires Find(b, n, AnyKind) < |b|
    ensures Vals(b, n) != [] && Vals(b[Find(b, n, AnyKind) := Item(n, v)], n) == [v] + Vals(b, n)[1..]
  {
    var i, rest := Find(b, n, AnyKind), b[1..];
    var c := b[i := Item(n, v)];
    ValsFirst(b, b[0], rest, n);
    if i == 0 {
      ValsFirst(c, Item(n, v), rest, n);
    } else {
      ValsReplaceOwn(rest, n, v);
      ValsFirst(c, b[0], rest[i - 1 := Item(n, v)], n);
    }
  }

  lemma {:induction false} ValsReplaceOther(b: seq<Item>, n: string, v: Val, m: string)
    requires Find(b, n, AnyKind) < |b| && m != n
    ensures Vals(b[Find(b, n, AnyKind) := Item(n, v)], m) == Vals(b, m)
  {
    var i, rest := Find(b, n, AnyKind), b[1..];
    var c := b[i := Item(n, v)];
    ValsFirst(b, b[0], rest, m);
    if i == 0 {
      ValsFirst(c, Item(n, v), rest, m);
    } else {
      ValsReplaceOther(rest, n, v, m);
      ValsFirst(c, b[0], rest[i - 1 := Item(n, v)], m);
    }
  }

  lemma {:induction false} ValsFirst(b: seq<Item>, x: Item, rest: seq<Item>, n: string)
    requires b == [x] + rest
    ensures Vals(b, n) == (if x.name == n then [x.val] else []) + Vals(rest, n)
  {
    assert b[1..] == rest;
  }

  lemma {:induction false} ValsRmAll(b: seq<Item>, n: string, m: string)
    ensures Vals(RmAll(b, n), m) == if m == n then [] else Vals(b, m)
  {
    if b != [] {
      ValsRmAll(b[1..], n, m);
      if b[0].name != n {
        assert RmAll(b, n)[1..] == RmAll(b[1..], n);
      } else {
        assert RmAll(b, n) == RmAll(b[1..], n);
      }
    }
  }

  // ----- the table

  /** Every item is in the bucket of its name. */
  ghost predicate Hashed(t: seq<seq<Item>>) {
    && |t| == HASH_MAX
    && forall h, i :: 0 <= h < |t| && 0 <= i < |t[h]| ==> MkKey(t[h][i].name) == h
  }

  /** All the items in the order kb_item_get_pattern meets them. */
  function Whole(t: seq<seq<Item>>): seq<Item> {
    if t == [] then [] else Whole(t[..|t| - 1]) + t[|t| - 1]
  }

  /** What the table says about a name. */
  function Values(t: seq<seq<Item>>, n: string): seq<Val>
    requires |t| == HASH_MAX
  {
    Vals(t[MkKey(n)], n)
  }

  lemma {:induction false} ValsConcat(a: seq<Item>, b: seq<Item>, n: string)
    ensures Vals(a + b, n) == Vals(a, n) + Vals(b, n)
  {
    if a == [] {
      assert a + b == b;
    } else {
      ValsConcat(a[1..], b, n);
      assert (a + b)[1..] == a[1..] + b;
      var first := if a[0].name == n then [a[0].val] else [];
      assert first + (Vals(a[1..], n) + Vals(b, n)) == (first + Vals(a[1..], n)) + Vals(b, n);
    }
  }

  lemma {:induction false} ValsElsewhere(b: seq<Item>, n: string)
    requires forall i :: 0 <= i < |b| ==> b[i].name != n
    ensures Vals(b, n) == []
  {
    if b != [] {
      ValsElsewhere(b[1..], n);
    }
  }

  lemma {:induction false} WholeStep(t: seq<seq<Item>>, k: nat)
    requires 0 < k <= |t|
    ensures Whole(t[..k]) == Whole(t[..k - 1]) + t[k - 1]
  {
    assert t[..k][..k - 1] == t[..k - 1];
  }

  /** A bucket other than the name's own has no value of it. */
  lemma {:induction false} ValsOtherBucket(t: seq<seq<Item>>, n: string, h: nat)
    requires Hashed(t) && h < |t| && MkKey(n) != h
    ensures Vals(t[h], n) == []
  {
    ValsElsewhere(t[h], n);
  }

  lemma {:induction false} ValsWholeStep(t: seq<seq<Item>>, n: string, k: nat)
    requires 0 < k <= |t|
    ensures Vals(Whole(t[..k]), n) == Vals(Whole(t[..k - 1]), n) + Vals(t[k - 1], n)
  {
    WholeStep(t, k);
    ValsConcat(Whole(t[..k - 1]), t[k - 1], n);
  }

  lemma {:induction false} ValsWholePart(t: seq<seq<Item>>, n: string, k: nat)
    requires Hashed(t) && k <= |t|
    ensures Vals(Whole(t[..k]), n) == if MkKey(n) < k then Values(t, n) else []
  {
    if k == 0 {
      assert t[..0] == [];
    } else {
      ValsWholePart(t, n, k - 1);
      ValsWholeStep(t, n, k);
      if MkKey(n) != k - 1 {
        ValsOtherBucket(t, n, k - 1);
      }
    }
  }

  /** Looking in one bucket is looking in the whole table. */
  lemma {:induction false} BucketLookup(t: seq<seq<Item>>, n: string)
    requires Hashed(t)
    ensures Values(t, n) == Vals(Whole(t), n)
  {
    ValsWholePart(t, n, |t|);
    assert t[..|t|] == t;
  }

  // ----- the calls, and the simple lists they implement

  datatype Call = Add(n: string, v: Val) | Set(n: string, v: Val) | Rm(n: string)

  function Perform(t: seq<seq<Item>>, c: Call): seq<seq<Item>>
    requires |t| == HASH_MAX
  {
    var h := MkKey(c.n);
    match c
    case Add(n, v) => t[h := AddSet(t[h], n, v, false)]
    case Set(n, v) => t[h := AddSet(t[h], n, v, true)]
    case Rm(n) => t[h := RmAll(t[h], n)]
  }

  /** The list of values of the name a call is about, afterwards. */
  function ListAfter(l: seq<Val>, c: Call): seq<Val> {
    match c
    case Add(_, v) => if v in l then l else [v] + l
    case Set(_, v) => if l == [] then [v] else [v] + l[1..]
    case Rm(_) => []
  }

  lemma {:induction false} HashedAfter(t: seq<seq<Item>>, c: Call)
    requires Hashed(t)
    ensures Hashed(Perform(t, c))
  {
    var h := MkKey(c.n);
    var b' := Perform(t, c)[h];
    RmAllSubset(t[h], c.n);
    forall i | 0 <= i < |b'| ensures MkKey(b'[i].name) == h {
      assert b'[i] in b';
      assert b'[i] in t[h] || b'[i].name == c.n;
    }
  }

  lemma {:induction false} RmAllSubset(b: seq<Item>, n: string)
    ensures forall x :: x in RmAll(b, n) ==> x in b
    ensures |RmAll(b, n)| <= |b|
  {
    if b != [] {
      RmAllSubset(b[1..], n);
    }
  }

  /** Each call changes the list of its own name as on simple lists, and no other list. */
  lemma {:induction false} Refines(t: seq<seq<Item>>, c: Call, m: string)
    requires Hashed(t)
    ensures Values(Perform(t, c), m) == if m == c.n then ListAfter(Values(t, m), c) else Values(t, m)
  {
    var b := t[MkKey(c.n)];
    ValsFind(b, c.n);
    match c
    case Add(n, v) =>
      ValsMember(b, n, v);
      assert ([Item(n, v)] + b)[1..] == b;
      if Find(b, n, AnyKind) == |b| { }
    case Set(n, v) =>
      ValsMember(b, n, v);
      assert ([Item(n, v)] + b)[1..] == b;
      if Find(b, n, AnyKind) < |b| {
        ValsReplace(b, n, v, m);
      }
    case Rm(n) =>
      ValsRmAll(b, n, m);
  }

  /** After a set, a lookup of the value's own type finds that value, whatever was there before. */
  lemma {:induction false} SetThenGet(b: seq<Item>, n: string, v: Val)
    ensures var b' := AddSet(b, n, v, true);
      var i := Find(b', n, if v.Str? then StrKind else IntKind);
      i < |b'| && b'[i] == Item(n, v)
  {
    var b' := AddSet(b, n, v, true);
    var i := Find(b, n, AnyKind);
    FindIs(b', n, if v.Str? then StrKind else IntKind, if i < |b| then i else 0);
  }

  lemma {:induction false} FindIs(b: seq<Item>, n: string, k: Kind, i: nat)
    requires i < |b| && b[i].name == n && OfKind(b[i].val, k)
    requires forall j :: 0 <= j < i ==> b[j].name != n
    ensures Find(b, n, k) == i
  {
    if i > 0 {
      FindIs(b[1..], n, k, i - 1);
    }
  }

  // ----- histories

  ghost predicate Unique(l: seq<Val>) {
    forall i, j :: 0 <= i < j < |l| ==> l[i] != l[j]
  }

  /** A replacing set keeps the values of a name unique exactly when the value is not one of the later ones. */
  lemma {:induction false} SetKeepsUniqueIff(l: seq<Val>, n: string, v: Val)
    requires Unique(l)
    ensures Unique(ListAfter(l, Set(n, v))) <==> l == [] || v !in l[1..]
  {
    if l != [] && v in l[1..] {
      var i :| 0 <= i < |l| - 1 && l[1..][i] == v;
      var l' := ListAfter(l, Set(n, v));
      assert l'[i + 1] == v && l'[0] == v;
    } else if l != [] {
      var l' := ListAfter(l, Set(n, v));
      forall i, j | 0 <= i < j < |l'| ensures l'[i] != l'[j] {
        assert l'[j] == l[j] == l[1..][j - 1];
      }
    }
  }

  /** Two adds and a set leave the same value twice. */
  lemma {:induction false} MixedCallsDuplicate(n: string, v: Val, w: Val)
    requires v != w
    ensures ListAfter(ListAfter(ListAfter([], Add(n, v)), Add(n, w)), Set(n, v)) == [v, v]
  {
  }

  ghost predicate IsRun(run: seq<seq<seq<Item>>>, calls: seq<Call>) {
    && |run| == |calls| + 1 && |run[0]| == HASH_MAX
    && (forall h :: 0 <= h < HASH_MAX ==> run[0][h] == [])
    && forall i :: 0 <= i < |calls| ==> |run[i]| == HASH_MAX && run[i + 1] == Perform(run[i], calls[i])
  }

  /**
   Over any run items stay in their buckets; without set, no name has the same value twice;
   without add, no name has two values.
   */
  lemma {:induction false} RunKeeps(run: seq<seq<seq<Item>>>, calls: seq<Call>)
    requires IsRun(run, calls)
    ensures Hashed(run[|calls|])
    ensures (forall i :: 0 <= i < |calls| ==> !calls[i].Set?) ==> forall n :: Unique(Values(run[|calls|], n))
    ensures (forall i :: 0 <= i < |calls| ==> !calls[i].Add?) ==> forall n :: |Values(run[|calls|], n)| <= 1
  {
    var k := |calls|;
    if k > 0 {
      RunKeeps(run[..k], calls[..k - 1]);
      assert run[k - 1 + 1] == Perform(run[k - 1], calls[k - 1]);
      CallKeeps(run[k - 1], calls[k - 1]);
    }
  }

  /** What every call keeps. */
  lemma {:induction false} CallKeeps(t: seq<seq<Item>>, c: Call)
    requires Hashed(t)
    ensures Hashed(Perform(t, c))
    ensures !c.Set? && (forall n :: Unique(Values(t, n))) ==> forall n :: Unique(Values(Perform(t, c), n))
    ensures !c.Add? && (forall n :: |Values(t, n)| <= 1) ==> forall n :: |Values(Perform(t, c), n)| <= 1
  {
    HashedAfter(t, c);
    forall n ensures Values(Perform(t, c), n) == if n == c.n then ListAfter(Values(t, n), c) else Values(t, n) {
      Refines(t, c, n);
    }
  }
}
