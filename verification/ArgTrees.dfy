/**
 Argument lists (misc/arglists.c) on values: what the operations mean, and how much each call
 changes the number of cells that carry a name, over any number of lists.
 */
module ArgTrees {
  import opened Seqs

  const ARG_STRING := 1
  const ARG_PTR := 2
  const ARG_INT := 3
  const ARG_ARGLIST := 4
  const ARG_STRUCT := 5

  /** A value pointer, by what it points to. */
  datatype Value = Nothing | Number(n: int) | Text(s: string) | Block(bytes: seq<int>) | Sub(list: seq<Entry>)

  datatype Entry = Entry(name: string, kind: int, length: int, value: Value)

  /** The type tag says what the value is; other tags hold plain numbers. */
  predicate Typed(e: Entry) {
    match e.value
    case Nothing => true
    case Number(_) => e.kind !in {ARG_STRING, ARG_ARGLIST, ARG_STRUCT}
    case Text(_) => e.kind == ARG_STRING
    case Block(b) => e.kind == ARG_STRUCT && e.length == |b|
    case Sub(_) => e.kind == ARG_ARGLIST
  }

  predicate WellTyped(l: seq<Entry>) {
    forall i :: 0 <= i < |l| ==> Typed(l[i]) && (l[i].value.Sub? ==> WellTyped(l[i].value.list))
  }

  function One(a: string, b: string): nat {
    if a == b then 1 else 0
  }

  /** How many cells of l and of the lists nested in it carry the name n. */
  function Carriers(l: seq<Entry>, n: string): nat {
    if l == [] then 0
    else
      var e := l[|l| - 1];
      Carriers(l[..|l| - 1], n) + One(e.name, n) + if e.value.Sub? then Carriers(e.value.list, n) else 0
  }

  function EntryCarriers(e: Entry, n: string): nat {
    One(e.name, n) + ValueCarriers(e.value, n)
  }

  function ValueCarriers(v: Value, n: string): nat {
    if v.Sub? then Carriers(v.list, n) else 0
  }

  lemma {:induction false} CarriersConcat(a: seq<Entry>, b: seq<Entry>, n: string)
    ensures Carriers(a + b, n) == Carriers(a, n) + Carriers(b, n)
  {
    if b == [] {
      assert a + b == a;
    } else {
      assert (a + b)[..|a + b| - 1] == a + b[..|b| - 1];
      CarriersConcat(a, b[..|b| - 1], n);
    }
  }

  lemma {:induction false} CarriersAppend(l: seq<Entry>, e: Entry, n: string)
    ensures Carriers(l + [e], n) == Carriers(l, n) + EntryCarriers(e, n)
  {
    assert (l + [e])[..|l|] == l;
  }

  lemma {:induction false} CarriersAt(l: seq<Entry>, i: nat, n: string)
    requires i < |l|
    ensures Carriers(l, n) == Carriers(l[..i] + l[i + 1..], n) + EntryCarriers(l[i], n)
  {
    var a, b := l[..i], l[i + 1..];
    assert l == (a + [l[i]]) + b;
    CarriersConcat(a + [l[i]], b, n);
    CarriersConcat(a, b, n);
    CarriersAppend(a, l[i], n);
  }

  // ----- lookup and deletion

  /** The place of the first entry with that name, or |l|. */
  function Find(l: seq<Entry>, name: string): (i: nat)
    ensures i <= |l|
    ensures i < |l| ==> l[i].name == name
    ensures forall j :: 0 <= j < i ==> l[j].name != name
  {
    if l == [] || l[0].name == name then 0 else 1 + Find(l[1..], name)
  }

  /** arg_del_value */
  function Delete(l: seq<Entry>, name: string): seq<Entry> {
    var i := Find(l, name);
    if i == |l| then l else l[..i] + l[i + 1..]
  }

  // ----- arg_dup

  /** The value arg_dup gives the copy: a null list becomes an empty one, and unknown types lose their value. */
  function CopyValue(kind: int, v: Value): Value
    decreases v
  {
    if kind == ARG_INT || kind == ARG_PTR then v
    else if kind == ARG_STRING || kind == ARG_STRUCT then v
    else if kind == ARG_ARGLIST then Sub(if v.Sub? then Copy(v.list) else [])
    else Nothing
  }

  function Copy(l: seq<Entry>): (r: seq<Entry>)
    ensures |r| == |l|
    decreases l
  {
    if l == [] then []
    else
      var e := l[|l| - 1];
      Copy(l[..|l| - 1]) + [e.(value := CopyValue(e.kind, e.value))]
  }

  /** Only known types, and no null list. */
  predicate Duplicable(l: seq<Entry>) {
    forall i :: 0 <= i < |l| ==> EntryDuplicable(l[i])
  }

  predicate EntryDuplicable(e: Entry) {
    if e.kind == ARG_ARGLIST then e.value.Sub? && Duplicable(e.value.list)
    else e.kind in {ARG_STRING, ARG_PTR, ARG_INT, ARG_STRUCT} || e.value == Nothing
  }

  lemma {:induction false} DuplicableAppend(l: seq<Entry>, e: Entry)
    ensures Duplicable(l + [e]) <==> Duplicable(l) && EntryDuplicable(e)
  {
    assert (l + [e])[|l|] == e;
    assert forall i :: 0 <= i < |l| ==> (l + [e])[i] == l[i];
  }

  /** arg_dup makes an equal list exactly when every nested list is there and every type is known. */
  lemma {:induction false} CopyEqualIff(l: seq<Entry>)
    requires WellTyped(l)
    ensures Copy(l) == l <==> Duplicable(l)
  {
    if l != [] {
      var init, e := l[..|l| - 1], l[|l| - 1];
      assert l == init + [e];
      CopyEqualIff(init);
      DuplicableAppend(init, e);
      if e.value.Sub? {
        CopyEqualIff(e.value.list);
      }
      assert CopyValue(e.kind, e.value) == e.value <==> EntryDuplicable(e);
      var c := Copy(l);
      assert c[..|l| - 1] == Copy(init) && c[|l| - 1] == e.(value := CopyValue(e.kind, e.value));
      assert c == l <==> Copy(init) == init && c[|l| - 1] == e;
    }
  }

  /** A copy holds the same names, so freeing it entirely gives back exactly what duplicating took. */
  lemma {:induction false} CopyCarriers(l: seq<Entry>, n: string)
    requires WellTyped(l)
    ensures Carriers(Copy(l), n) == Carriers(l, n)
  {
    if l != [] {
      var init, e := l[..|l| - 1], l[|l| - 1];
      CopyCarriers(init, n);
      if e.value.Sub? {
        CopyCarriers(e.value.list, n);
      }
      CarriersAppend(Copy(init), e.(value := CopyValue(e.kind, e.value)), n);
    }
  }

  // ----- the lists nested directly in a list

  function Subs(l: seq<Entry>): seq<seq<Entry>> {
    if l == [] then []
    else Subs(l[..|l| - 1]) + Detached(l[|l| - 1].value)
  }

  function Detached(v: Value): seq<seq<Entry>> {
    if v.Sub? then [v.list] else []
  }

  /** How many cells of l itself carry the name n. */
  function OwnCarriers(l: seq<Entry>, n: string): nat {
    if l == [] then 0 else OwnCarriers(l[..|l| - 1], n) + One(l[|l| - 1].name, n)
  }

  function AllCarriers(forest: seq<seq<Entry>>, n: string): nat {
    if forest == [] then 0 else AllCarriers(forest[..|forest| - 1], n) + Carriers(forest[|forest| - 1], n)
  }

  lemma {:induction false} AllCarriersConcat(a: seq<seq<Entry>>, b: seq<seq<Entry>>, n: string)
    ensures AllCarriers(a + b, n) == AllCarriers(a, n) + AllCarriers(b, n)
  {
    if b == [] {
      assert a + b == a;
    } else {
      assert (a + b)[..|a + b| - 1] == a + b[..|b| - 1];
      AllCarriersConcat(a, b[..|b| - 1], n);
    }
  }

  lemma {:induction false} AllCarriersAppend(f: seq<seq<Entry>>, l: seq<Entry>, n: string)
    ensures AllCarriers(f + [l], n) == AllCarriers(f, n) + Carriers(l, n)
  {
    assert (f + [l])[..|f|] == f;
  }

  lemma {:induction false} AllCarriersDetached(f: seq<seq<Entry>>, v: Value, n: string)
    ensures AllCarriers(f + Detached(v), n) == AllCarriers(f, n) + ValueCarriers(v, n)
  {
    if v.Sub? {
      AllCarriersAppend(f, v.list, n);
    } else {
      assert f + Detached(v) == f;
    }
  }

  lemma {:induction false} CarriersSplit(l: seq<Entry>, n: string)
    ensures Carriers(l, n) == OwnCarriers(l, n) + AllCarriers(Subs(l), n)
  {
    if l != [] {
      CarriersSplit(l[..|l| - 1], n);
      AllCarriersDetached(Subs(l[..|l| - 1]), l[|l| - 1].value, n);
    }
  }

  lemma {:induction false} AllCarriersAt(f: seq<seq<Entry>>, i: nat, n: string)
    requires i < |f|
    ensures AllCarriers(f, n) == AllCarriers(Remove(f, i), n) + Carriers(f[i], n)
  {
    var a, b := f[..i], f[i + 1..];
    assert f == (a + [f[i]]) + b;
    AllCarriersConcat(a + [f[i]], b, n);
    AllCarriersConcat(a, b, n);
    AllCarriersAppend(a, f[i], n);
  }

  lemma {:induction false} AllCarriersUpdate(f: seq<seq<Entry>>, i: nat, l: seq<Entry>, n: string)
    requires i < |f|
    ensures AllCarriers(f[i := l], n) == AllCarriers(f, n) - Carriers(f[i], n) + Carriers(l, n)
  {
    AllCarriersAt(f, i, n);
    AllCarriersAt(f[i := l], i, n);
    assert Remove(f[i := l], i) == Remove(f, i);
  }

  // ----- calls on any number of lists

  datatype Call =
    | NewList                                              // a caller allocates an empty list
    | Add(i: nat, e: Entry)                                // arg_add_value of a value that is no list
    | AddSub(i: nat, name: string, length: int, j: nat)    // arg_add_value of list j
    | Set(i: nat, name: string, length: int, value: Value) // arg_set_value
    | SetSub(i: nat, name: string, length: int, j: nat)    // arg_set_value with list j
    | Del(i: nat, name: string)                            // arg_del_value
    | Dup(i: nat)                                          // arg_dup to a new list
    | Free(i: nat)                                         // arg_free
    | FreeAll(i: nat)                                      // arg_free_all

  /** What a caller has to see to: that the lists are there, and that a value is of the type it is called. */
  predicate Possible(f: seq<seq<Entry>>, c: Call) {
    match c
    case NewList => true
    case Add(i, e) => i < |f| && !e.value.Sub? && Storable(e)
    case AddSub(i, _, _, j) => i < |f| && j < |f| && i != j
    case Set(i, name, length, value) => i < |f| && !value.Sub? && Settable(f[i], name, length, value)
    case SetSub(i, name, _, j) => i < |f| && j < |f| && i != j && HoldsLists(f[i], name)
    case Del(i, _) => i < |f|
    case Dup(i) => i < |f|
    case Free(i) => i < |f|
    case FreeAll(i) => i < |f|
  }

  /** A structure is copied, so there has to be one. */
  predicate Storable(e: Entry) {
    Typed(e) && (e.kind == ARG_STRUCT ==> e.value.Block?)
  }

  predicate Settable(l: seq<Entry>, name: string, length: int, value: Value) {
    Find(l, name) < |l| ==> Storable(l[Find(l, name)].(length := length, value := value))
  }

  /** The first entry with that name, if there is one, is of the type of lists. */
  predicate HoldsLists(l: seq<Entry>, name: string) {
    Find(l, name) < |l| ==> l[Find(l, name)].kind == ARG_ARGLIST
  }

  /** arg_set_value */
  function Updated(l: seq<Entry>, name: string, length: int, value: Value): seq<Entry> {
    var k := Find(l, name);
    if k == |l| then l else l[k := l[k].(length := length, value := value)]
  }

  /** The value of the first entry with that name. */
  function ValueNamed(l: seq<Entry>, name: string): Value {
    var k := Find(l, name);
    if k == |l| then Nothing else l[k].value
  }

  /** All lists whose cells are allocated, also those nothing points to any more, after a call. */
  function ForestAfter(f: seq<seq<Entry>>, c: Call): seq<seq<Entry>>
    requires Possible(f, c)
  {
    match c
    case NewList => f + [[]]
    case Add(i, e) => f[i := f[i] + [e]]
    case AddSub(i, name, length, j) => Remove(f[i := f[i] + [Entry(name, ARG_ARGLIST, length, Sub(f[j]))]], j)
    case Set(i, name, length, value) => f[i := Updated(f[i], name, length, value)] + Detached(ValueNamed(f[i], name))
    case SetSub(i, name, length, j) =>
      if Find(f[i], name) == |f[i]| then f
      else Remove(f[i := Updated(f[i], name, length, Sub(f[j]))], j) + Detached(ValueNamed(f[i], name))
    case Del(i, name) => f[i := Delete(f[i], name)] + Detached(ValueNamed(f[i], name))
    case Dup(i) => f + [Copy(f[i])]
    case Free(i) => Remove(f, i) + Subs(f[i])
    case FreeAll(i) => Remove(f, i)
  }

  /** How much more often the name n is counted after a call: its cache_inc calls less its cache_dec calls. */
  function Change(f: seq<seq<Entry>>, c: Call, n: string): int
    requires Possible(f, c)
  {
    match c
    case NewList => 0
    case Add(i, e) => One(e.name, n)
    case AddSub(i, name, length, j) => One(name, n)
    case Set(i, name, length, value) => 0
    case SetSub(i, name, length, j) => 0
    case Del(i, name) => if Find(f[i], name) < |f[i]| then 0 - One(name, n) else 0
    case Dup(i) => Carriers(Copy(f[i]), n)
    case Free(i) => 0 - OwnCarriers(f[i], n)
    case FreeAll(i) => 0 - Carriers(f[i], n)
  }

  lemma {:induction false} AddBalanced(f: seq<seq<Entry>>, i: nat, e: Entry, n: string)
    requires i < |f|
    ensures AllCarriers(f[i := f[i] + [e]], n) == AllCarriers(f, n) + EntryCarriers(e, n)
  {
    AllCarriersUpdate(f, i, f[i] + [e], n);
    CarriersAppend(f[i], e, n);
  }

  lemma {:induction false} AddSubBalanced(f: seq<seq<Entry>>, i: nat, name: string, length: int, j: nat, n: string)
    requires i < |f| && j < |f| && i != j
    ensures AllCarriers(Remove(f[i := f[i] + [Entry(name, ARG_ARGLIST, length, Sub(f[j]))]], j), n) ==
            AllCarriers(f, n) + One(name, n)
  {
    var e := Entry(name, ARG_ARGLIST, length, Sub(f[j]));
    AddBalanced(f, i, e, n);
    AllCarriersAt(f[i := f[i] + [e]], j, n);
  }

  lemma {:induction false} UpdatedCarriers(l: seq<Entry>, k: nat, e: Entry, n: string)
    requires k < |l| && e.name == l[k].name
    ensures Carriers(l[k := e], n) + ValueCarriers(l[k].value, n) == Carriers(l, n) + ValueCarriers(e.value, n)
  {
    CarriersAt(l, k, n);
    CarriersAt(l[k := e], k, n);
    assert l[k := e][..k] + l[k := e][k + 1..] == l[..k] + l[k + 1..];
  }

  lemma {:induction false} SetBalanced(f: seq<seq<Entry>>, i: nat, name: string, length: int, value: Value, n: string)
    requires i < |f| && !value.Sub?
    ensures AllCarriers(f[i := Updated(f[i], name, length, value)] + Detached(ValueNamed(f[i], name)), n) == AllCarriers(f, n)
  {
    var l, k := f[i], Find(f[i], name);
    var l' := Updated(l, name, length, value);
    AllCarriersDetached(f[i := l'], ValueNamed(l, name), n);
    AllCarriersUpdate(f, i, l', n);
    if k < |l| {
      UpdatedCarriers(l, k, l[k].(length := length, value := value), n);
    }
  }

  lemma {:induction false} SetSubBalanced(f: seq<seq<Entry>>, i: nat, name: string, length: int, j: nat, n: string)
    requires i < |f| && j < |f| && i != j && Find(f[i], name) < |f[i]|
    ensures AllCarriers(Remove(f[i := Updated(f[i], name, length, Sub(f[j]))], j) + Detached(ValueNamed(f[i], name)), n) ==
            AllCarriers(f, n)
  {
    var l, k := f[i], Find(f[i], name);
    var e := l[k].(length := length, value := Sub(f[j]));
    AllCarriersDetached(Remove(f[i := l[k := e]], j), l[k].value, n);
    AllCarriersAt(f[i := l[k := e]], j, n);
    AllCarriersUpdate(f, i, l[k := e], n);
    UpdatedCarriers(l, k, e, n);
  }

  lemma {:induction false} DelBalanced(f: seq<seq<Entry>>, i: nat, name: string, n: string)
    requires i < |f|
    ensures AllCarriers(f[i := Delete(f[i], name)] + Detached(ValueNamed(f[i], name)), n) ==
            AllCarriers(f, n) - if Find(f[i], name) < |f[i]| then One(name, n) else 0
  {
    var l, k := f[i], Find(f[i], name);
    AllCarriersDetached(f[i := Delete(l, name)], ValueNamed(l, name), n);
    AllCarriersUpdate(f, i, Delete(l, name), n);
    if k < |l| {
      CarriersAt(l, k, n);
    }
  }

  lemma {:induction false} FreeBalanced(f: seq<seq<Entry>>, i: nat, n: string)
    requires i < |f|
    ensures AllCarriers(Remove(f, i) + Subs(f[i]), n) == AllCarriers(f, n) - OwnCarriers(f[i], n)
  {
    AllCarriersAt(f, i, n);
    CarriersSplit(f[i], n);
    AllCarriersConcat(Remove(f, i), Subs(f[i]), n);
  }

  /** Each call changes the count of a name by the number of allocated cells that carry it more than before. */
  lemma {:induction false} ChangeBalanced(f: seq<seq<Entry>>, c: Call, n: string)
    requires Possible(f, c)
    ensures AllCarriers(ForestAfter(f, c), n) == AllCarriers(f, n) + Change(f, c, n)
  {
    match c
    case NewList => AllCarriersAppend(f, [], n);
    case Add(i, e) => AddBalanced(f, i, e, n);
    case AddSub(i, name, length, j) => AddSubBalanced(f, i, name, length, j, n);
    case Set(i, name, length, value) => SetBalanced(f, i, name, length, value, n);
    case SetSub(i, name, length, j) =>
      if Find(f[i], name) < |f[i]| {
        SetSubBalanced(f, i, name, length, j, n);
      }
    case Del(i, name) => DelBalanced(f, i, name, n);
    case Dup(i) => AllCarriersAppend(f, Copy(f[i]), n);
    case Free(i) => FreeBalanced(f, i, n);
    case FreeAll(i) => AllCarriersAt(f, i, n);
  }

  lemma {:induction false} ChangesBalanced(f: seq<seq<Entry>>, c: Call)
    requires Possible(f, c)
    ensures forall n :: AllCarriers(ForestAfter(f, c), n) == AllCarriers(f, n) + Change(f, c, n)
  {
    forall n ensures AllCarriers(ForestAfter(f, c), n) == AllCarriers(f, n) + Change(f, c, n) {
      ChangeBalanced(f, c, n);
    }
  }

  lemma {:induction false} ChangeOfDel(f: seq<seq<Entry>>, i: nat, name: string)
    requires i < |f|
    ensures Find(f[i], name) == |f[i]| ==> forall n :: Change(f, Del(i, name), n) == 0
    ensures Find(f[i], name) < |f[i]| ==> forall n :: Change(f, Del(i, name), n) == 0 - One(name, n)
  {
  }

  // ----- types

  ghost predicate EntryWellTyped(e: Entry) {
    Typed(e) && (e.value.Sub? ==> WellTyped(e.value.list))
  }

  lemma {:induction false} TypedAppend(l: seq<Entry>, e: Entry)
    requires WellTyped(l) && EntryWellTyped(e)
    ensures WellTyped(l + [e])
  {
  }

  lemma {:induction false} TypedUpdate(l: seq<Entry>, k: nat, e: Entry)
    requires WellTyped(l) && k < |l| && EntryWellTyped(e)
    ensures WellTyped(l[k := e])
  {
  }

  lemma {:induction false} TypedWithout(l: seq<Entry>, k: nat)
    requires WellTyped(l) && k < |l|
    ensures WellTyped(l[..k] + l[k + 1..])
  {
  }

  lemma {:induction false} TypedCopy(l: seq<Entry>)
    requires WellTyped(l)
    ensures WellTyped(Copy(l))
  {
    if l != [] {
      var init, e := l[..|l| - 1], l[|l| - 1];
      TypedCopy(init);
      if e.value.Sub? {
        TypedCopy(e.value.list);
      }
      TypedAppend(Copy(init), e.(value := CopyValue(e.kind, e.value)));
    }
  }

  // ----- histories

  /** Each call can be made after those before it. */
  predicate AllPossible(f: seq<seq<Entry>>, calls: seq<Call>)
    decreases |calls|
  {
    calls == [] || (Possible(f, calls[0]) && AllPossible(ForestAfter(f, calls[0]), calls[1..]))
  }

  /** The lists after these calls. */
  function ForestAfterAll(f: seq<seq<Entry>>, calls: seq<Call>): seq<seq<Entry>>
    requires AllPossible(f, calls)
    decreases |calls|
  {
    if calls == [] then f else ForestAfterAll(ForestAfter(f, calls[0]), calls[1..])
  }
}
