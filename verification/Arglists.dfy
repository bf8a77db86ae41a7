/**
 Argument lists (misc/arglists.c) in place: cells linked by next pointers and closed by a
 blank cell, sharing their names through the name cache. Module ArgTrees says what the
 operations mean.
 */
module Arglists {
  import opened ArgTrees
  import opened NameCache

  /** A value pointer: a plain value, or the first cell of a nested list. */
  datatype CellValue = Plain(v: Value) | Pointer(head: Cell)

  /** struct arglist; a cell from emalloc is blank. */
  class Cell {
    var name: string
    var named: bool       // whether the name pointer is set
    var kind: int
    var value: CellValue
    var length: int
    var next: Cell?
    var hash: int

    constructor ()
      ensures Blank()
    {
      name, named, kind, value, length, next, hash := "", false, 0, Plain(Nothing), 0, null, 0;
    }

    predicate Blank()
      reads this
    {
      !named && kind == 0 && value == Plain(Nothing) && length == 0 && next == null && hash == 0
    }
  }

  /** How a list lies in memory: its cells, its entries, the lists nested in it, and all their cells. */
  datatype Shape = Shape(cells: seq<Cell>, entries: seq<Entry>, kids: seq<Shape>, foot: set<Cell>)

  const NO_LIST := Shape([], [], [], {})

  /** Cell c, followed by the cell n, holds the entry e, whose nested list is k. */
  ghost predicate Holds(c: Cell, n: Cell, e: Entry, k: Shape, gStrHash: string -> nat)
    reads c
  {
    && c.named && c.name == e.name && c.kind == e.kind && c.length == e.length && c.next == n
    && c.hash == MkHash(gStrHash, e.name)
    && match c.value
       case Plain(v) => v == e.value && !v.Sub? && k == NO_LIST
       case Pointer(h) => e.kind == ARG_ARGLIST && e.value == Sub(k.entries) && k.cells != [] && k.cells[0] == h
  }

  /** Cell c and the list nested in it are in memory. */
  ghost predicate Entered(c: Cell, n: Cell, e: Entry, k: Shape, gStrHash: string -> nat)
    reads c, k.foot
    decreases k, 1
  {
    Holds(c, n, e, k, gStrHash) && (k == NO_LIST || InMemory(k, gStrHash))
  }

  /** A shape without gaps: distinct cells, one more than entries, and nested lists apart from these cells. */
  ghost predicate Laid(t: Shape) {
    && |t.cells| == |t.entries| + 1 == |t.kids| + 1
    && (forall i :: 0 <= i < |t.cells| ==> t.cells[i] in t.foot)
    && (forall i, j :: 0 <= i < j < |t.cells| ==> t.cells[i] != t.cells[j])
    && (forall i :: 0 <= i < |t.kids| ==> Within(t.kids[i], t))
  }

  /** The cells of k are among those of t, but not in the row of t itself. */
  ghost predicate Within(k: Shape, t: Shape) {
    k.foot <= t.foot && forall i :: 0 <= i < |t.cells| ==> t.cells[i] !in k.foot
  }

  /** The list t is in memory, closed by a blank cell, and so are the lists nested in it. */
  ghost predicate InMemory(t: Shape, gStrHash: string -> nat)
    reads t.foot
    decreases t, 0
  {
    && Laid(t) && t.cells[|t.entries|].Blank()
    && forall i :: 0 <= i < |t.entries| ==> Entered(t.cells[i], t.cells[i + 1], t.entries[i], t.kids[i], gStrHash)
  }

  lemma {:induction false} At(t: Shape, i: nat, gStrHash: string -> nat)
    requires InMemory(t, gStrHash) && i < |t.cells|
    ensures i < |t.entries| ==>
      && Entered(t.cells[i], t.cells[i + 1], t.entries[i], t.kids[i], gStrHash)
      && Holds(t.cells[i], t.cells[i + 1], t.entries[i], t.kids[i], gStrHash)
      && Within(t.kids[i], t) && (t.kids[i] == NO_LIST || InMemory(t.kids[i], gStrHash))
    ensures i == |t.entries| ==> t.cells[i].Blank()
    ensures t.cells[i].next == null <==> i == |t.entries|
  {
  }

  /** No cell is in two of the lists. */
  ghost predicate Apart(ts: seq<Shape>) {
    forall i, j :: 0 <= i < j < |ts| ==> ts[i].foot !! ts[j].foot
  }

  /** No two lists nested in t, at any depth, share a cell. */
  ghost predicate Tree(t: Shape) {
    Apart(t.kids) && forall i :: 0 <= i < |t.kids| ==> Tree(t.kids[i])
  }

  /** arg_get: the first cell with that name; comparing hashes first changes nothing. */
  method Get(arg: Cell?, name: string, gStrHash: string -> nat, ghost t: Shape) returns (r: Cell?)
    requires arg != null ==> InMemory(t, gStrHash) && t.cells[0] == arg
    ensures arg == null ==> r == null
    ensures arg != null ==> r == if Find(t.entries, name) < |t.entries| then t.cells[Find(t.entries, name)] else null
  {
    var h := MkHash(gStrHash, name);
    if arg == null {
      return null;
    }
    var c := arg;
    ghost var i := 0;
    At(t, 0, gStrHash);
    while c.next != null
      invariant InMemory(t, gStrHash) && 0 <= i <= |t.entries| && c == t.cells[i]
      invariant c.next == null <==> i == |t.entries|
      invariant forall j :: 0 <= j < i ==> t.entries[j].name != name
      decreases |t.entries| - i
    {
      At(t, i, gStrHash);
      At(t, i + 1, gStrHash);
      if c.hash == h && c.name == name {
        FindIs(t.entries, name, i);
        return c;
      }
      c, i := c.next, i + 1;
    }
    FindIs(t.entries, name, i);
    return null;
  }

  lemma {:induction false} FindIs(l: seq<Entry>, name: string, i: nat)
    requires i <= |l| && (i < |l| ==> l[i].name == name)
    requires forall j :: 0 <= j < i ==> l[j].name != name
    ensures Find(l, name) == i
  {
  }

  /** The last cell of a list. */
  method Last(arg: Cell, gStrHash: string -> nat, ghost t: Shape) returns (c: Cell)
    requires InMemory(t, gStrHash) && t.cells[0] == arg
    ensures c == t.cells[|t.entries|]
  {
    c := arg;
    ghost var i := 0;
    At(t, 0, gStrHash);
    while c.next != null
      invariant InMemory(t, gStrHash) && 0 <= i <= |t.entries| && c == t.cells[i]
      invariant c.next == null <==> i == |t.entries|
      decreases |t.entries| - i
    {
      At(t, i, gStrHash);
      At(t, i + 1, gStrHash);
      c, i := c.next, i + 1;
    }
  }

  /** The value a cell of type kind stores for the caller's value: a structure is copied. */
  function Stored(kind: int, length: int, value: CellValue): CellValue
    requires kind == ARG_STRUCT ==> value.Plain? && value.v.Block? && 0 <= length <= |value.v.bytes|
  {
    if kind == ARG_STRUCT then Plain(Block(value.v.bytes[..length])) else value
  }

  /** What a stored value means, when a pointer leads to the list sub. */
  function Meaning(value: CellValue, sub: Shape): Value {
    if value.Plain? then value.v else Sub(sub.entries)
  }

  /** sub is the nested list that value points to, apart from the cells of t. */
  ghost predicate Attachable(value: CellValue, kind: int, sub: Shape, t: Shape, gStrHash: string -> nat)
    reads sub.foot
  {
    match value
    case Plain(v) => !v.Sub? && sub == NO_LIST
    case Pointer(h) =>
      && kind == ARG_ARGLIST && InMemory(sub, gStrHash) && sub.cells[0] == h
      && forall i :: 0 <= i < |t.cells| ==> t.cells[i] !in sub.foot
  }

  function Extended(t: Shape, n: Cell, e: Entry, sub: Shape): Shape {
    Shape(t.cells + [n], t.entries + [e], t.kids + [sub], t.foot + {n} + sub.foot)
  }

  /** Writes an entry into the blank cell at the end of a list and closes the list with a new cell. */
  method Fill(c: Cell, name: string, kind: int, length: int, v: CellValue, gStrHash: string -> nat,
              ghost t: Shape, ghost sub: Shape)
    returns (n: Cell, ghost t': Shape)
    requires InMemory(t, gStrHash) && c == t.cells[|t.entries|]
    requires Attachable(v, kind, sub, t, gStrHash)
    modifies c
    ensures fresh(n) && t' == Extended(t, n, Entry(name, kind, length, Meaning(v, sub)), sub)
    ensures InMemory(t', gStrHash)
  {
    assert c in t.cells;
    n := new Cell();
    ghost var e := Entry(name, kind, length, Meaning(v, sub));
    FillCell(c, n, name, kind, length, v, gStrHash, e, sub);
    t' := Extended(t, n, e, sub);
    forall i | 0 <= i < |t.entries| ensures Entered(t.cells[i], t.cells[i + 1], t.entries[i], t.kids[i], gStrHash) {
      assert Within(t.kids[i], t);
    }
    ExtendedInMemory(t, n, e, sub, gStrHash);
  }

  method FillCell(c: Cell, n: Cell, name: string, kind: int, length: int, v: CellValue, gStrHash: string -> nat,
                  ghost e: Entry, ghost sub: Shape)
    requires e == Entry(name, kind, length, Meaning(v, sub))
    requires match v
             case Plain(p) => !p.Sub? && sub == NO_LIST
             case Pointer(h) => kind == ARG_ARGLIST && sub.cells != [] && sub.cells[0] == h
    modifies c
    ensures Holds(c, n, e, sub, gStrHash)
  {
    c.name, c.named, c.value, c.length, c.kind := name, true, v, length, kind;
    c.next := n;
    c.hash := MkHash(gStrHash, c.name);
  }

  lemma {:induction false} ExtendedInMemory(t: Shape, n: Cell, e: Entry, sub: Shape, gStrHash: string -> nat)
    requires Laid(t) && n !in t.foot && n !in sub.foot && n.Blank()
    requires forall i :: 0 <= i < |t.cells| ==> t.cells[i] !in sub.foot
    requires forall i :: 0 <= i < |t.entries| ==> Entered(t.cells[i], t.cells[i + 1], t.entries[i], t.kids[i], gStrHash)
    requires Entered(t.cells[|t.entries|], n, e, sub, gStrHash)
    ensures InMemory(Extended(t, n, e, sub), gStrHash)
  {
    var t' := Extended(t, n, e, sub);
    forall i | 0 <= i < |t'.kids| ensures Within(t'.kids[i], t') {
      assert i < |t.kids| ==> Within(t.kids[i], t);
    }
    forall i | 0 <= i < |t'.entries| ensures Entered(t'.cells[i], t'.cells[i + 1], t'.entries[i], t'.kids[i], gStrHash) {
      if i < |t.entries| {
        assert t'.cells[i + 1] == t.cells[i + 1] && t'.kids[i] == t.kids[i];
      }
    }
  }

  /**
   arg_add_value: one more entry at the end, in the cell that closed the list; a new cell n
   closes it now. One more holder of the name.
   */
  method AddValue(cache: Cache, arglst: Cell?, name: string, kind: int, length: int, value: CellValue,
                  ghost t: Shape, ghost sub: Shape)
    returns (ghost t': Shape, ghost n: Cell?)
    requires cache.Valid()
    requires arglst != null ==> InMemory(t, cache.gStrHash) && t.cells[0] == arglst
    requires arglst != null ==> Attachable(value, kind, sub, t, cache.gStrHash)
    requires kind == ARG_STRUCT ==> value.Plain? && value.v.Block? && 0 <= length <= |value.v.bytes|
    modifies cache.table, set x: Node | x.bucket in cache.table, if arglst == null then {} else {t.cells[|t.entries|]}
    ensures cache.Valid()
    ensures arglst == null ==> t' == t && forall n :: cache.Count(n) == old(cache.Count(n))
    ensures arglst != null ==> n != null && fresh(n) && InMemory(t', cache.gStrHash) && t'.cells[0] == arglst
    ensures arglst != null ==> t' == Extended(t, n, Entry(name, kind, length, Meaning(Stored(kind, length, value), sub)), sub)
    ensures arglst != null ==> forall n :: cache.Count(n) == old(cache.Count(n)) + One(name, n)
  {
    t', n := t, null;
    if arglst == null {
      return;
    }
    n, t' := Append(cache, arglst, name, kind, length, Stored(kind, length, value), t, sub);
  }

  /** The part of arg_add_value that changes the list. */
  method Append(cache: Cache, arglst: Cell, name: string, kind: int, length: int, v: CellValue, ghost t: Shape, ghost sub: Shape)
    returns (ghost n: Cell, ghost t': Shape)
    requires cache.Valid() && InMemory(t, cache.gStrHash) && t.cells[0] == arglst
    requires Attachable(v, kind, sub, t, cache.gStrHash)
    modifies cache.table, set x: Node | x.bucket in cache.table, {t.cells[|t.entries|]}
    ensures cache.Valid() && fresh(n) && InMemory(t', cache.gStrHash)
    ensures t' == Extended(t, n, Entry(name, kind, length, Meaning(v, sub)), sub)
    ensures forall n :: cache.Count(n) == old(cache.Count(n)) + One(name, n)
  {
    var c := Last(arglst, cache.gStrHash, t);
    var held := HoldName(cache, name, kind, v, t, sub);
    var last;
    last, t' := Fill(c, held, kind, length, v, cache.gStrHash, t, sub);
    n := last;
  }

  /** cache_inc, which does not touch the cells. */
  method HoldName(cache: Cache, name: string, ghost kind: int, ghost v: CellValue, ghost t: Shape, ghost sub: Shape)
    returns (held: string)
    requires cache.Valid() && InMemory(t, cache.gStrHash) && Attachable(v, kind, sub, t, cache.gStrHash)
    modifies cache.table, set x: Node | x.bucket in cache.table
    ensures cache.Valid() && InMemory(t, cache.gStrHash) && Attachable(v, kind, sub, t, cache.gStrHash)
    ensures held == name && forall n :: cache.Count(n) == old(cache.Count(n)) + One(name, n)
  {
    held := cache.Inc(name);
  }

  // ----- arg_set_value

  function Replaced(t: Shape, i: nat, e: Entry, sub: Shape): Shape
    requires i < |t.entries| && i < |t.kids|
  {
    Shape(t.cells, t.entries[i := e], t.kids[i := sub], t.foot + sub.foot)
  }

  /** arg_set_value: the first entry with that name gets the value, and keeps its type. */
  method SetValue(arglst: Cell?, name: string, length: int, value: CellValue, gStrHash: string -> nat,
                  ghost t: Shape, ghost sub: Shape)
    returns (ret: int, ghost t': Shape)
    requires arglst != null ==> InMemory(t, gStrHash) && t.cells[0] == arglst
    requires arglst != null && Find(t.entries, name) < |t.entries| ==>
      var kind := t.entries[Find(t.entries, name)].kind;
      && Attachable(value, kind, sub, t, gStrHash)
      && (kind == ARG_STRUCT ==> value.Plain? && value.v.Block? && 0 <= length <= |value.v.bytes|)
    modifies if arglst == null then [] else t.cells
    ensures ret == if arglst != null && Find(t.entries, name) < |t.entries| then 0 else -1
    ensures ret == -1 ==> t' == t && (arglst != null ==> InMemory(t, gStrHash))
    ensures ret == 0 ==> InMemory(t', gStrHash) && t'.cells[0] == arglst
    ensures ret == 0 ==>
      var i := Find(t.entries, name);
      var e := t.entries[i];
      t' == Replaced(t, i, e.(length := length, value := Meaning(Stored(e.kind, length, value), sub)), sub)
  {
    t' := t;
    ghost var k := Find(t.entries, name);
    var c := Get(arglst, name, gStrHash, t);
    if c == null {
      return -1, t';
    }
    At(t, k, gStrHash);
    var v := Stored(c.kind, length, value);
    t' := Overwrite(c, length, v, gStrHash, t, sub, k);
    return 0, t';
  }

  method Overwrite(c: Cell, length: int, v: CellValue, gStrHash: string -> nat, ghost t: Shape, ghost sub: Shape, ghost k: nat)
    returns (ghost t': Shape)
    requires InMemory(t, gStrHash) && k < |t.entries| && c == t.cells[k]
    requires Attachable(v, t.entries[k].kind, sub, t, gStrHash)
    modifies c
    ensures InMemory(t', gStrHash)
    ensures t' == Replaced(t, k, t.entries[k].(length := length, value := Meaning(v, sub)), sub)
  {
    At(t, k, gStrHash);
    assert c in t.cells;
    c.value, c.length := v, length;
    ghost var e := t.entries[k].(length := length, value := Meaning(v, sub));
    t' := Replaced(t, k, e, sub);
    forall i | 0 <= i < |t.entries| && i != k
      ensures Entered(t.cells[i], t.cells[i + 1], t.entries[i], t.kids[i], gStrHash)
    {
      assert Within(t.kids[i], t);
    }
    ReplacedInMemory(t, k, e, sub, gStrHash);
  }

  lemma {:induction false} ReplacedInMemory(t: Shape, k: nat, e: Entry, sub: Shape, gStrHash: string -> nat)
    requires Laid(t) && k < |t.entries| && t.cells[|t.entries|].Blank()
    requires forall i :: 0 <= i < |t.cells| ==> t.cells[i] !in sub.foot
    requires forall i :: 0 <= i < |t.entries| && i != k ==>
      Entered(t.cells[i], t.cells[i + 1], t.entries[i], t.kids[i], gStrHash)
    requires Entered(t.cells[k], t.cells[k + 1], e, sub, gStrHash)
    ensures InMemory(Replaced(t, k, e, sub), gStrHash)
  {
    var t' := Replaced(t, k, e, sub);
    forall i | 0 <= i < |t'.kids| ensures Within(t'.kids[i], t') {
      assert i != k ==> Within(t.kids[i], t);
    }
  }

  // ----- other views of a list in memory

  /** The cells of t lie in a smaller set as well. */
  lemma {:induction false} Shrunk(t: Shape, foot: set<Cell>, gStrHash: string -> nat)
    requires InMemory(t, gStrHash)
    requires (forall i :: 0 <= i < |t.cells| ==> t.cells[i] in foot) && forall i :: 0 <= i < |t.kids| ==> t.kids[i].foot <= foot
    ensures InMemory(t.(foot := foot), gStrHash)
  {
    var u := t.(foot := foot);
    forall i | 0 <= i < |u.kids| ensures Within(u.kids[i], u) {
      assert Within(t.kids[i], t);
    }
  }

  /** A list in memory is a row of cells. */
  lemma {:induction false} IsRow(t: Shape, gStrHash: string -> nat)
    requires InMemory(t, gStrHash)
    ensures Row(t.cells, t.entries)
  {
    forall i | 0 <= i < |t.cells|
      ensures t.cells[i].next == if i + 1 < |t.cells| then t.cells[i + 1] else null
      ensures if i < |t.entries| then t.cells[i].named && t.cells[i].name == t.entries[i].name else !t.cells[i].named
    {
      At(t, i, gStrHash);
    }
  }

  // ----- arg_free and arg_del_value

  lemma {:induction false} OwnCarriersPrefix(l: seq<Entry>, i: nat, n: string)
    requires i <= |l|
    ensures OwnCarriers(l[..i], n) <= OwnCarriers(l, n)
  {
    if i < |l| {
      OwnCarriersPrefix(l[..|l| - 1], i, n);
      assert l[..|l| - 1][..i] == l[..i];
    } else {
      assert l[..i] == l;
    }
  }

  lemma {:induction false} OwnCarriersStep(l: seq<Entry>, i: nat, n: string)
    requires i < |l|
    ensures OwnCarriers(l[..i + 1], n) == OwnCarriers(l[..i], n) + One(l[i].name, n)
  {
    assert l[..i + 1][..i] == l[..i];
  }

  lemma {:induction false} OwnCarriersSteps(l: seq<Entry>, i: nat)
    requires i < |l|
    ensures forall n :: OwnCarriers(l[..i + 1], n) == OwnCarriers(l[..i], n) + One(l[i].name, n)
    ensures forall n :: OwnCarriers(l[..i + 1], n) <= OwnCarriers(l, n)
  {
    forall n ensures OwnCarriers(l[..i + 1], n) == OwnCarriers(l[..i], n) + One(l[i].name, n) <= OwnCarriers(l, n) {
      OwnCarriersStep(l, i, n);
      OwnCarriersPrefix(l, i + 1, n);
    }
  }

  /** Cells linked by next, of which the first |l| carry the names of l and the others none. */
  ghost predicate Row(cells: seq<Cell>, l: seq<Entry>)
    reads cells
  {
    && |l| <= |cells|
    && (forall i {:trigger cells[i].next} :: 0 <= i < |cells| ==>
          cells[i].next == if i + 1 < |cells| then cells[i + 1] else null)
    && (forall i {:trigger cells[i].named} :: 0 <= i < |cells| ==>
          if i < |l| then cells[i].named && cells[i].name == l[i].name else !cells[i].named)
  }

  /** One round of arg_free: cache_dec of a cell's name, which is NULL in a blank cell. */
  method Release(cache: Cache, c: Cell, ghost cells: seq<Cell>, ghost l: seq<Entry>, ghost i: nat) returns (next: Cell?)
    requires cache.Valid() && Row(cells, l) && i < |cells| && c == cells[i]
    requires i < |l| ==> cache.Count(l[i].name) > 0
    modifies cache.table, set x: Node | x.bucket in cache.table
    ensures cache.Valid() && Row(cells, l)
    ensures next == if i + 1 < |cells| then cells[i + 1] else null
    ensures forall n :: cache.Count(n) == old(cache.Count(n)) - if i < |l| then One(l[i].name, n) else 0
  {
    next := c.next;
    if c.named {
      cache.Dec(c.name);
    }
  }

  /** arg_free: the cells of one list give up their names; lists nested in it are not touched. */
  method Free(cache: Cache, arg: Cell?, ghost cells: seq<Cell>, ghost l: seq<Entry>)
    requires cache.Valid()
    requires Row(cells, l) && arg == if cells == [] then null else cells[0]
    requires forall n :: cache.Count(n) >= OwnCarriers(l, n)
    modifies cache.table, set x: Node | x.bucket in cache.table
    ensures cache.Valid()
    ensures forall n :: cache.Count(n) == old(cache.Count(n)) - OwnCarriers(l, n)
  {
    var c := arg;
    ghost var i := 0;
    while c != null
      invariant 0 <= i <= |cells| && c == if i < |cells| then cells[i] else null
      invariant Row(cells, l) && cache.Valid()
      invariant forall n :: cache.Count(n) == old(cache.Count(n)) - FirstOwn(l, i, n)
      decreases |cells| - i
    {
      FirstOwnSteps(l, i);
      c := Release(cache, c, cells, l, i);
      i := i + 1;
    }
    AllOwn(l, i);
  }

  /** How many of the first i cells of l carry the name n. */
  function FirstOwn(l: seq<Entry>, i: nat, n: string): nat {
    OwnCarriers(l[..if i < |l| then i else |l|], n)
  }

  lemma {:induction false} FirstOwnSteps(l: seq<Entry>, i: nat)
    ensures forall n :: FirstOwn(l, i + 1, n) == FirstOwn(l, i, n) + if i < |l| then One(l[i].name, n) else 0
    ensures forall n :: FirstOwn(l, i + 1, n) <= OwnCarriers(l, n)
  {
    if i < |l| {
      OwnCarriersSteps(l, i);
    } else {
      assert l[..|l|] == l;
    }
  }

  lemma {:induction false} AllOwn(l: seq<Entry>, i: nat)
    requires i >= |l|
    ensures forall n :: FirstOwn(l, i, n) == OwnCarriers(l, n)
  {
    assert l[..|l|] == l;
  }

  function Removed(t: Shape, k: nat): Shape
    requires k < |t.entries| && k < |t.kids| && k < |t.cells|
  {
    Shape(t.cells[..k] + t.cells[k + 1..], t.entries[..k] + t.entries[k + 1..], t.kids[..k] + t.kids[k + 1..], t.foot - {t.cells[k]})
  }

  /** Deleting the head keeps the caller's pointer: the second cell goes in its place. */
  function HeadRemoved(t: Shape): Shape
    requires |t.entries| > 0 && |t.kids| > 0 && |t.cells| > 1
  {
    Shape([t.cells[0]] + t.cells[2..], t.entries[1..], t.kids[1..], t.foot - {t.cells[1]})
  }

  /** memcpy of one struct arglist over another. */
  method CopyCell(to: Cell, from: Cell)
    modifies to
    ensures to.name == from.name && to.named == from.named && to.kind == from.kind && to.value == from.value
    ensures to.length == from.length && to.hash == from.hash && to.next == old(from.next)
  {
    to.name, to.named, to.kind, to.value, to.length := from.name, from.named, from.kind, from.value, from.length;
    to.next, to.hash := from.next, from.hash;
  }

  /** The branch of arg_del_value for the first cell: swaps it with the second, which is returned for freeing. */
  method SwapOut(args: Cell, gStrHash: string -> nat, ghost t: Shape) returns (element: Cell, ghost t': Shape)
    requires InMemory(t, gStrHash) && |t.entries| > 0 && t.cells[0] == args
    modifies args, t.cells[1]
    ensures t' == HeadRemoved(t) && InMemory(t', gStrHash)
    ensures element == t.cells[1]
    ensures element.named && element.name == t.entries[0].name
  {
    At(t, 0, gStrHash);
    At(t, 1, gStrHash);
    element := args.next;
    assert args in t.cells && element in t.cells;
    var store := new Cell();
    CopyCell(store, element);
    CopyCell(element, args);
    CopyCell(args, store);
    t' := HeadRemoved(t);
    forall i | 1 < i < |t.entries| ensures Entered(t.cells[i], t.cells[i + 1], t.entries[i], t.kids[i], gStrHash) {
      assert Within(t.kids[i], t);
    }
    HeadRemovedInMemory(t, gStrHash);
  }

  lemma {:induction false} HeadRemovedInMemory(t: Shape, gStrHash: string -> nat)
    requires Laid(t) && |t.entries| > 0
    requires if |t.entries| == 1 then t.cells[0].Blank() else t.cells[|t.entries|].Blank()
    requires |t.entries| > 1 ==> Entered(t.cells[0], t.cells[2], t.entries[1], t.kids[1], gStrHash)
    requires forall i :: 1 < i < |t.entries| ==> Entered(t.cells[i], t.cells[i + 1], t.entries[i], t.kids[i], gStrHash)
    ensures InMemory(HeadRemoved(t), gStrHash)
  {
    var t' := HeadRemoved(t);
    forall i | 0 <= i < |t'.kids| ensures Within(t'.kids[i], t') {
      assert Within(t.kids[i + 1], t);
    }
    forall i | 0 <= i < |t'.entries| ensures Entered(t'.cells[i], t'.cells[i + 1], t'.entries[i], t'.kids[i], gStrHash) {
      assert t'.cells[i + 1] == t.cells[i + 2] && t'.kids[i] == t.kids[i + 1] && (i > 0 ==> t'.cells[i] == t.cells[i + 1]);
    }
  }

  /** The other branch: unlinks the cell at place k from its predecessor. */
  method UnlinkCell(args: Cell, element: Cell, gStrHash: string -> nat, ghost t: Shape, ghost k: nat) returns (ghost t': Shape)
    requires InMemory(t, gStrHash) && 0 < k < |t.entries| && t.cells[0] == args && t.cells[k] == element
    modifies t.cells[k - 1]
    ensures t' == Removed(t, k) && InMemory(t', gStrHash)
    ensures element.named && element.name == t.entries[k].name
  {
    var pivot := Before(args, element, gStrHash, t, k);
    At(t, k - 1, gStrHash);
    At(t, k, gStrHash);
    assert pivot in t.cells && element in t.cells;
    pivot.next := element.next;
    t' := Removed(t, k);
    forall i | 0 <= i < |t.entries| && i != k - 1
      ensures Entered(t.cells[i], t.cells[i + 1], t.entries[i], t.kids[i], gStrHash)
    {
      assert Within(t.kids[i], t);
    }
    RemovedInMemory(t, k, gStrHash);
  }

  lemma {:induction false} RemovedInMemory(t: Shape, k: nat, gStrHash: string -> nat)
    requires Laid(t) && 0 < k < |t.entries| && t.cells[|t.entries|].Blank()
    requires forall i :: 0 <= i < |t.entries| && i != k - 1 ==>
      Entered(t.cells[i], t.cells[i + 1], t.entries[i], t.kids[i], gStrHash)
    requires Entered(t.cells[k - 1], t.cells[k + 1], t.entries[k - 1], t.kids[k - 1], gStrHash)
    ensures InMemory(Removed(t, k), gStrHash)
  {
    var t' := Removed(t, k);
    RemovedLaid(t, k);
    forall j | 0 <= j < |t'.entries| ensures Entered(t'.cells[j], t'.cells[j + 1], t'.entries[j], t'.kids[j], gStrHash) {
      if j < k {
        assert t'.cells[j] == t.cells[j] && t'.kids[j] == t.kids[j];
        assert t'.cells[j + 1] == t.cells[if j == k - 1 then k + 1 else j + 1];
      } else {
        assert t'.cells[j] == t.cells[j + 1] && t'.cells[j + 1] == t.cells[j + 2] && t'.kids[j] == t.kids[j + 1];
      }
    }
  }

  lemma {:induction false} RemovedLaid(t: Shape, k: nat)
    requires Laid(t) && 0 < k < |t.entries|
    ensures Laid(Removed(t, k))
  {
    var t' := Removed(t, k);
    forall j | 0 <= j < |t'.kids| ensures Within(t'.kids[j], t') {
      assert Within(t.kids[if j < k then j else j + 1], t);
    }
  }

  method Before(args: Cell, element: Cell, gStrHash: string -> nat, ghost t: Shape, ghost k: nat) returns (pivot: Cell)
    requires InMemory(t, gStrHash) && 0 < k < |t.entries| && t.cells[0] == args && t.cells[k] == element
    ensures pivot == t.cells[k - 1]
  {
    pivot := args;
    ghost var i := 0;
    At(t, 0, gStrHash);
    while pivot.next != null && pivot.next != element
      invariant 0 <= i < k && pivot == t.cells[i] && InMemory(t, gStrHash)
      invariant pivot.next == t.cells[i + 1]
      decreases k - i
    {
      At(t, i + 1, gStrHash);
      pivot, i := pivot.next, i + 1;
    }
  }

  /**
   arg_del_value: the first entry with that name goes and the others keep their order; the
   caller's pointer stays good; a nested list of the entry stays in memory, unattached.
   */
  method DelValue(cache: Cache, args: Cell?, name: string, ghost t: Shape) returns (ghost t': Shape)
    requires cache.Valid()
    requires args != null ==> InMemory(t, cache.gStrHash) && t.cells[0] == args
    requires args != null && Find(t.entries, name) < |t.entries| ==> cache.Count(name) > 0
    modifies cache.table, set x: Node | x.bucket in cache.table
    modifies if args == null then [] else t.cells
    ensures cache.Valid()
    ensures args == null ==> t' == t
    ensures args != null ==> t' == WithoutNamed(t, name) && t'.entries == Delete(t.entries, name)
    ensures args != null ==> InMemory(t', cache.gStrHash) && t'.cells[0] == args
    ensures args == null || Find(t.entries, name) == |t.entries| ==>
      forall n :: cache.Count(n) == old(cache.Count(n))
    ensures args != null && Find(t.entries, name) < |t.entries| ==>
      forall n :: cache.Count(n) == old(cache.Count(n)) - One(name, n)
  {
    t' := t;
    if args == null {
      return;
    }
    var element;
    element, t' := DetachBeside(cache, args, name, t);
    if element != null {
      FreeCell(cache, element, name, t');
    }
  }

  /** Detach, which does not touch the cache. */
  method DetachBeside(cache: Cache, args: Cell, name: string, ghost t: Shape)
    returns (element: Cell?, ghost t': Shape)
    requires cache.Valid() && InMemory(t, cache.gStrHash) && t.cells[0] == args
    modifies t.cells
    ensures cache.Valid() && forall n :: cache.Count(n) == old(cache.Count(n))
    ensures InMemory(t', cache.gStrHash) && t'.cells[0] == args && t'.entries == Delete(t.entries, name)
    ensures t' == WithoutNamed(t, name)
    ensures element != null <==> Find(t.entries, name) < |t.entries|
    ensures element != null ==> element.named && element.name == name && element.next == null
  {
    element, t' := Detach(args, name, cache.gStrHash, t);
  }

  /** arg_free of a single cell, which is not one of the list t. */
  method FreeCell(cache: Cache, element: Cell, ghost name: string, ghost t: Shape)
    requires cache.Valid() && element.named && element.name == name && element.next == null && cache.Count(name) > 0
    requires InMemory(t, cache.gStrHash)
    modifies cache.table, set x: Node | x.bucket in cache.table
    ensures cache.Valid() && InMemory(t, cache.gStrHash)
    ensures forall n :: cache.Count(n) == old(cache.Count(n)) - One(name, n)
  {
    ghost var e := Entry(name, 0, 0, Nothing);
    OwnCarriersOfOne(e);
    Free(cache, element, [element], [e]);
  }

  /** The shape after arg_del_value. */
  function WithoutNamed(t: Shape, name: string): Shape
    requires |t.cells| == |t.entries| + 1 == |t.kids| + 1
  {
    var k := Find(t.entries, name);
    if k == |t.entries| then t else if k == 0 then HeadRemoved(t) else Removed(t, k)
  }

  /** The part of arg_del_value before arg_free: takes the cell to be freed out of the list. */
  method Detach(args: Cell, name: string, gStrHash: string -> nat, ghost t: Shape)
    returns (element: Cell?, ghost t': Shape)
    requires InMemory(t, gStrHash) && t.cells[0] == args
    modifies t.cells
    ensures InMemory(t', gStrHash) && t'.cells[0] == args && t'.entries == Delete(t.entries, name)
    ensures t' == WithoutNamed(t, name)
    ensures element != null <==> Find(t.entries, name) < |t.entries|
    ensures element != null ==> element.named && element.name == name && element.next == null
    ensures element != null ==> element !in t'.foot
  {
    t' := t;
    ghost var k := Find(t.entries, name);
    element := Get(args, name, gStrHash, t);
    if element == null {
      return;
    }
    element, t' := TakeOut(args, element, gStrHash, t, k);
    CutOff(element, gStrHash, t');
  }

  /** The freed cell points nowhere. */
  method CutOff(element: Cell, gStrHash: string -> nat, ghost t: Shape)
    requires InMemory(t, gStrHash) && element !in t.foot
    modifies element
    ensures InMemory(t, gStrHash) && element.next == null
    ensures element.named == old(element.named) && element.name == old(element.name)
  {
    element.next := null;
  }

  /** Takes the entry at place k out of the list; element is the cell left over. */
  method TakeOut(args: Cell, found: Cell, gStrHash: string -> nat, ghost t: Shape, ghost k: nat)
    returns (element: Cell, ghost t': Shape)
    requires InMemory(t, gStrHash) && t.cells[0] == args && k < |t.entries| && t.cells[k] == found
    modifies t.cells
    ensures InMemory(t', gStrHash) && t'.cells[0] == args && t' == if k == 0 then HeadRemoved(t) else Removed(t, k)
    ensures element in t.cells && element !in t'.foot && element.named && element.name == t.entries[k].name
  {
    assert args in t.cells && found in t.cells;
    if args == found {
      assert t.cells[1] in t.cells;
      element, t' := SwapOut(args, gStrHash, t);
    } else {
      assert t.cells[k - 1] in t.cells;
      element := found;
      t' := UnlinkCell(args, found, gStrHash, t, k);
    }
  }

  lemma {:induction false} OwnCarriersOfOne(e: Entry)
    ensures forall n :: OwnCarriers([e], n) == One(e.name, n)
  {
    assert [e][..0] == [];
  }

  // ----- arg_free_all

  /** arg_free_all: every name of the list and of the lists nested in it is given up. */
  method FreeAll(cache: Cache, arg: Cell?, ghost t: Shape)
    requires cache.Valid()
    requires if arg == null then t == NO_LIST else InMemory(t, cache.gStrHash) && t.cells[0] == arg
    requires forall n :: cache.Count(n) >= Carriers(t.entries, n)
    modifies cache.table, set x: Node | x.bucket in cache.table
    ensures cache.Valid()
    ensures forall n :: cache.Count(n) == old(cache.Count(n)) - Carriers(t.entries, n)
    decreases t, 1
  {
    var c := arg;
    ghost var i := 0;
    while c != null
      invariant arg != null ==> InMemory(t, cache.gStrHash)
      invariant 0 <= i <= |t.cells| && c == if i < |t.cells| then t.cells[i] else null
      invariant cache.Valid()
      invariant forall n :: cache.Count(n) == old(cache.Count(n)) - FirstCarriers(t.entries, i, n)
      decreases |t.cells| - i
    {
      FirstCarriersSteps(t.entries, i);
      c := FreeAllCell(cache, c, t, i);
      i := i + 1;
    }
    AllCarriersFirst(t.entries, i);
  }

  /** One round of arg_free_all: a nested list goes with its names, and then the name of the cell itself. */
  method FreeAllCell(cache: Cache, c: Cell, ghost t: Shape, ghost i: nat) returns (next: Cell?)
    requires cache.Valid() && InMemory(t, cache.gStrHash) && i < |t.cells| && c == t.cells[i]
    requires i < |t.entries| ==> forall n :: cache.Count(n) >= EntryCarriers(t.entries[i], n)
    modifies cache.table, set x: Node | x.bucket in cache.table
    ensures cache.Valid() && InMemory(t, cache.gStrHash)
    ensures next == if i + 1 < |t.cells| then t.cells[i + 1] else null
    ensures forall n :: cache.Count(n) == old(cache.Count(n)) - if i < |t.entries| then EntryCarriers(t.entries[i], n) else 0
    decreases t, 0
  {
    At(t, i, cache.gStrHash);
    next := c.next;
    if c.kind == ARG_ARGLIST {
      FreeAll(cache, if c.value.Pointer? then c.value.head else null, t.kids[i]);
    }
    if c.named {
      cache.Dec(c.name);
    }
  }

  /** How often the first i entries carry the name n. */
  function FirstCarriers(l: seq<Entry>, i: nat, n: string): nat {
    Carriers(l[..if i < |l| then i else |l|], n)
  }

  lemma {:induction false} FirstCarriersSteps(l: seq<Entry>, i: nat)
    ensures forall n :: FirstCarriers(l, i + 1, n) == FirstCarriers(l, i, n) + if i < |l| then EntryCarriers(l[i], n) else 0
    ensures forall n :: FirstCarriers(l, i + 1, n) <= Carriers(l, n)
  {
    if i < |l| {
      CarriersSteps(l, i);
    } else {
      assert l[..|l|] == l;
    }
  }

  lemma {:induction false} AllCarriersFirst(l: seq<Entry>, i: nat)
    requires i >= |l|
    ensures forall n :: FirstCarriers(l, i, n) == Carriers(l, n)
  {
    assert l[..|l|] == l;
  }

  lemma {:induction false} CarriersSteps(l: seq<Entry>, i: nat)
    requires i < |l|
    ensures forall n :: Carriers(l[..i + 1], n) == Carriers(l[..i], n) + EntryCarriers(l[i], n) <= Carriers(l, n)
  {
    forall n ensures Carriers(l[..i + 1], n) == Carriers(l[..i], n) + EntryCarriers(l[i], n) <= Carriers(l, n) {
      assert l[..i + 1] == l[..i] + [l[i]];
      CarriersAppend(l[..i], l[i], n);
      assert l == l[..i + 1] + l[i + 1..];
      CarriersConcat(l[..i + 1], l[i + 1..], n);
    }
  }

  // ----- arg_dup

  lemma {:induction false} CopyStep(l: seq<Entry>, i: nat)
    requires i < |l|
    ensures Copy(l[..i + 1]) == Copy(l[..i]) + [l[i].(value := CopyValue(l[i].kind, l[i].value))]
  {
    assert l[..i + 1][..i] == l[..i];
  }

  lemma {:induction false} CarriersAppendAll(l: seq<Entry>, e: Entry)
    ensures forall n :: Carriers(l + [e], n) == Carriers(l, n) + EntryCarriers(e, n)
  {
    forall n ensures Carriers(l + [e], n) == Carriers(l, n) + EntryCarriers(e, n) {
      CarriersAppend(l, e, n);
    }
  }

  /** Whether u lies in the cell dst and in cells allocated since. */
  twostate predicate NewExcept(new u: Shape, dst: Cell) {
    forall c :: c in u.foot && c != dst ==> fresh(c)
  }

  lemma {:induction false} ExtendedTree(t: Shape, n: Cell, e: Entry, sub: Shape)
    requires Tree(t) && Tree(sub) && (forall i :: 0 <= i < |t.kids| ==> t.kids[i].foot <= t.foot) && sub.foot !! t.foot
    ensures Tree(Extended(t, n, e, sub))
  {
    var t' := Extended(t, n, e, sub);
    assert forall i :: 0 <= i < |t.kids| ==> t'.kids[i] == t.kids[i];
  }

  /**
   arg_dup into a blank cell: the copy of the list, in new cells, with its names counted
   once more. A nested list is copied into a new list of its own.
   */
  method Dup(cache: Cache, dst: Cell, src: Cell?, ghost t: Shape) returns (ghost u: Shape)
    requires cache.Valid() && dst.Blank()
    requires if src == null then t == NO_LIST else InMemory(t, cache.gStrHash) && t.cells[0] == src
    requires dst !in t.foot && WellTyped(t.entries)
    modifies dst, cache.table, set x: Node | x.bucket in cache.table
    ensures cache.Valid()
    ensures InMemory(u, cache.gStrHash) && u.cells[0] == dst && NewExcept(u, dst) && Tree(u)
    ensures u.entries == Copy(t.entries)
    ensures forall n :: cache.Count(n) == old(cache.Count(n)) + Carriers(u.entries, n)
    decreases t, 3
  {
    u := Shape([dst], [], [], {dst});
    EmptyList(dst, cache.gStrHash);
    if src == null {
      return;
    }
    var s, d := src, dst;
    ghost var i := 0;
    At(t, 0, cache.gStrHash);
    while s.next != null
      invariant 0 <= i <= |t.entries| && InMemory(t, cache.gStrHash) && s == t.cells[i]
      invariant s.next == null <==> i == |t.entries|
      invariant cache.Valid()
      invariant InMemory(u, cache.gStrHash) && u.cells[0] == dst && d == u.cells[|u.entries|] && Tree(u)
      invariant NewExcept(u, dst) && d in u.foot
      invariant u.entries == Copy(t.entries[..i])
      invariant forall n :: cache.Count(n) == old(cache.Count(n)) + Carriers(u.entries, n)
      decreases |t.entries| - i
    {
      d, s, u := DupRound(cache, d, s, t, i, u);
      i := i + 1;
    }
    assert t.entries[..i] == t.entries;
  }

  lemma {:induction false} EmptyList(c: Cell, gStrHash: string -> nat)
    requires c.Blank()
    ensures InMemory(Shape([c], [], [], {c}), gStrHash) && Tree(Shape([c], [], [], {c}))
  {
  }

  /** One round of arg_dup. */
  method DupRound(cache: Cache, d: Cell, s: Cell, ghost t: Shape, ghost i: nat, ghost u: Shape)
    returns (d': Cell, s': Cell, ghost u': Shape)
    requires cache.Valid() && InMemory(t, cache.gStrHash) && i < |t.entries| && s == t.cells[i]
    requires WellTyped(t.entries)
    requires InMemory(u, cache.gStrHash) && d == u.cells[|u.entries|] && d !in t.foot && Tree(u)
    requires u.foot !! t.foot && u.entries == Copy(t.entries[..i])
    modifies d, cache.table, set x: Node | x.bucket in cache.table
    ensures cache.Valid() && InMemory(t, cache.gStrHash)
    ensures s' == t.cells[i + 1] && (s'.next == null <==> i + 1 == |t.entries|)
    ensures InMemory(u', cache.gStrHash) && u'.cells[0] == u.cells[0] && d' == u'.cells[|u'.entries|] && Tree(u')
    ensures d' in u'.foot && forall c :: c in u'.foot && c !in u.foot ==> fresh(c)
    ensures u'.entries == Copy(t.entries[..i + 1])
    ensures forall n :: cache.Count(n) == old(cache.Count(n)) + Carriers(u'.entries, n) - Carriers(u.entries, n)
    decreases t, 2
  {
    CopyStep(t.entries, i);
    d', u' := DupEntry(cache, d, s, t, i, u);
    s' := Next(s, t, i, cache.gStrHash);
  }

  /** The cell after the one at i. */
  method Next(s: Cell, ghost t: Shape, ghost i: nat, gStrHash: string -> nat) returns (n: Cell)
    requires InMemory(t, gStrHash) && i < |t.entries| && s == t.cells[i]
    ensures n == t.cells[i + 1] && (n.next == null <==> i + 1 == |t.entries|)
  {
    At(t, i, gStrHash);
    At(t, i + 1, gStrHash);
    n := s.next;
  }

  /** One round of arg_dup: copies the entry in s to the blank cell d at the end of u. */
  method DupEntry(cache: Cache, d: Cell, s: Cell, ghost t: Shape, ghost i: nat, ghost u: Shape)
    returns (n: Cell, ghost u': Shape)
    requires cache.Valid() && InMemory(t, cache.gStrHash) && i < |t.entries| && s == t.cells[i]
    requires WellTyped(t.entries)
    requires InMemory(u, cache.gStrHash) && d == u.cells[|u.entries|] && d !in t.foot && Tree(u)
    requires u.foot !! t.foot
    modifies d, cache.table, set x: Node | x.bucket in cache.table
    ensures cache.Valid() && InMemory(t, cache.gStrHash)
    ensures InMemory(u', cache.gStrHash) && u'.cells[0] == u.cells[0] && n == u'.cells[|u'.entries|] && Tree(u')
    ensures n in u'.foot && forall c :: c in u'.foot && c !in u.foot ==> fresh(c)
    ensures var e := t.entries[i]; u'.entries == u.entries + [e.(value := CopyValue(e.kind, e.value))]
    ensures forall n :: cache.Count(n) == old(cache.Count(n)) + Carriers(u'.entries, n) - Carriers(u.entries, n)
    decreases t, 1
  {
    ghost var e := t.entries[i];
    ghost var copy := e.(value := CopyValue(e.kind, e.value));
    var held, v;
    ghost var sub;
    held, v, sub := DupFields(cache, s, t, i);
    n, u' := Fill(d, held, s.kind, s.length, v, cache.gStrHash, u, sub);
    ExtendedTree(u, n, copy, sub);
    CarriersAppendAll(u.entries, copy);
  }

  /** What the copy of a value of type kind consists of: a plain value, or a list of its own. */
  ghost predicate Copied(v: CellValue, kind: int, sub: Shape, gStrHash: string -> nat)
    reads sub.foot
  {
    && Tree(sub)
    && match v
       case Plain(p) => !p.Sub? && sub == NO_LIST
       case Pointer(h) => kind == ARG_ARGLIST && InMemory(sub, gStrHash) && sub.cells[0] == h
  }

  /** The name and the value for the copy of the cell s at place i of t. */
  method DupFields(cache: Cache, s: Cell, ghost t: Shape, ghost i: nat)
    returns (held: string, v: CellValue, ghost sub: Shape)
    requires cache.Valid() && InMemory(t, cache.gStrHash) && i < |t.entries| && s == t.cells[i]
    requires WellTyped(t.entries)
    modifies cache.table, set x: Node | x.bucket in cache.table
    ensures cache.Valid() && InMemory(t, cache.gStrHash)
    ensures var e := t.entries[i];
      held == e.name && fresh(sub.foot) && Meaning(v, sub) == CopyValue(e.kind, e.value)
    ensures s.kind == t.entries[i].kind && s.length == t.entries[i].length
    ensures Copied(v, t.entries[i].kind, sub, cache.gStrHash)
    ensures var e := t.entries[i];
      forall n :: cache.Count(n) == old(cache.Count(n)) + One(e.name, n) + ValueCarriers(Meaning(v, sub), n)
    decreases t, 0
  {
    At(t, i, cache.gStrHash);
    held := cache.Inc(s.name);
    v, sub := Plain(Nothing), NO_LIST;
    if s.kind == ARG_INT || s.kind == ARG_PTR || s.kind == ARG_STRING || s.kind == ARG_STRUCT {
      v := s.value;
    } else if s.kind == ARG_ARGLIST {
      var head;
      head, sub := DupList(cache, if s.value.Pointer? then s.value.head else null, t.kids[i]);
      v := Pointer(head);
    }
  }

  /** The list for the copy of a nested list, which may be NULL. */
  method DupList(cache: Cache, src: Cell?, ghost t: Shape) returns (head: Cell, ghost u: Shape)
    requires cache.Valid()
    requires if src == null then t == NO_LIST else InMemory(t, cache.gStrHash) && t.cells[0] == src
    requires WellTyped(t.entries)
    modifies cache.table, set x: Node | x.bucket in cache.table
    ensures cache.Valid()
    ensures InMemory(u, cache.gStrHash) && u.cells[0] == head && fresh(u.foot) && Tree(u)
    ensures u.entries == Copy(t.entries)
    ensures forall n :: cache.Count(n) == old(cache.Count(n)) + Carriers(u.entries, n)
    decreases t, 4
  {
    head := new Cell();
    u := Dup(cache, head, src, t);
  }
}
