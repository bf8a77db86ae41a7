/** The knowledge base (misc/kb.c) in place: buckets of linked items. Module KbLists says what it means. */
module Kb {
  import opened Seqs
  import opened KbLists

  /** struct kb_item */
  class Cell {
    ghost const bucket: Bucket
    var name: string
    var val: Val
    var next: Cell?

    constructor (ghost bucket: Bucket, name: string, val: Val, next: Cell?)
      ensures this.bucket == bucket && this.name == name && this.val == val && this.next == next
    {
      this.bucket, this.name, this.val, this.next := bucket, name, val, next;
    }
  }

  /** The cells are linked in this order, carry these items, and are all different. */
  ghost predicate Linked(cells: seq<Cell>, items: seq<Item>, bucket: Bucket)
    reads cells
  {
    && |cells| == |items|
    && (forall i {:trigger cells[i].next} :: 0 <= i < |cells| ==>
          cells[i].next == if i + 1 < |cells| then cells[i + 1] else null)
    && (forall i :: 0 <= i < |cells| ==>
          cells[i].bucket == bucket && cells[i].name == items[i].name && cells[i].val == items[i].val)
    && (forall i, j :: 0 <= i < j < |cells| ==> cells[i] != cells[j])
  }

  /** The cells without the one at i, when the cell before it points past it. */
  lemma {:induction false} LinkedWithout(cells: seq<Cell>, items: seq<Item>, bucket: Bucket, i: nat)
    requires i < |cells| == |items| && forall j, k :: 0 <= j < k < |cells| ==> cells[j] != cells[k]
    requires forall j {:trigger cells[j].next} :: 0 <= j < |cells| ==>
      var k := if j == i - 1 then i + 1 else j + 1; cells[j].next == if k < |cells| then cells[k] else null
    requires forall j :: 0 <= j < |cells| ==>
      cells[j].bucket == bucket && cells[j].name == items[j].name && cells[j].val == items[j].val
    ensures Linked(Remove(cells, i), Remove(items, i), bucket)
  {
    var cs, ls := Remove(cells, i), Remove(items, i);
    assert forall j :: 0 <= j < |cs| ==> cs[j] == cells[if j < i then j else j + 1] && ls[j] == items[if j < i then j else j + 1];
  }

  /** One entry of the table. */
  class Bucket {
    var head: Cell?
    ghost const slot: int
    ghost var cells: seq<Cell>
    ghost var items: seq<Item>

    ghost predicate Valid()
      reads this, set x | x in cells
    {
      && head == (if cells == [] then null else cells[0])
      && Linked(cells, items, this)
    }

    constructor (ghost slot: int)
      ensures Valid() && items == [] && this.slot == slot
    {
      this.slot := slot;
      head, cells, items := null, [], [];
    }

    /** The search loop of kb_item_get_single. */
    method GetSingle(name: string, kind: Kind) returns (r: Cell?)
      requires Valid()
      ensures r == if Find(items, name, kind) < |items| then cells[Find(items, name, kind)] else null
    {
      r := head;
      ghost var i := 0;
      while r != null
        invariant 0 <= i <= |cells| && r == if i < |cells| then cells[i] else null
        invariant Find(items, name, kind) == i + Find(items[i..], name, kind)
        decreases |cells| - i
      {
        assert items[i..][0] == items[i] && items[i..][1..] == items[i + 1..];
        if r.name == name && OfKind(r.val, kind) {
          return;
        }
        r, i := r.next, i + 1;
      }
    }

    /** The loop of kb_item_get_all and of kb_item_get_pattern: copies are put in front of ret. */
    method Collect(matches: string -> bool, ret0: seq<Item>) returns (ret: seq<Item>)
      requires Valid()
      ensures ret == Reverse(Matching(items, matches)) + ret0
    {
      ret := ret0;
      var k := head;
      ghost var i := 0;
      while k != null
        invariant 0 <= i <= |cells| && k == At(i)
        invariant ret == Reverse(Matching(items[..i], matches)) + ret0
        decreases |cells| - i
      {
        ret := CollectOne(k, i, matches, ret, ret0);
        k, i := k.next, i + 1;
      }
      assert items[..i] == items;
    }

    /** One turn of that loop. */
    method CollectOne(k: Cell, ghost i: nat, matches: string -> bool, ret: seq<Item>, ghost ret0: seq<Item>)
      returns (ret': seq<Item>)
      requires Valid() && i < |cells| && k == cells[i]
      requires ret == Reverse(Matching(items[..i], matches)) + ret0
      ensures ret' == Reverse(Matching(items[..i + 1], matches)) + ret0
    {
      ghost var found := Reverse(Matching(items[..i], matches));
      CollectStep(items, i, matches);
      assert items[i] == Item(k.name, k.val);
      InFront(items[i], found, ret0);
      ret' := if matches(k.name) then [Item(k.name, k.val)] + ret else ret;
    }

    static lemma {:induction false} InFront(x: Item, found: seq<Item>, ret0: seq<Item>)
      ensures [x] + (found + ret0) == [x] + found + ret0
    {
    }

    /** The loop of the addset functions: the first item of that name that is equal, or any when replacing. */
    method Search(name: string, v: Val, replace: bool) returns (item: Cell?, ghost i: nat)
      requires Valid()
      ensures i <= |items| && item == if i < |cells| then cells[i] else null
      ensures forall j :: 0 <= j < i ==> items[j] != Item(name, v) && (replace ==> items[j].name != name)
      ensures i < |items| ==> items[i].name == name && (replace || items[i].val == v)
    {
      item, i := head, 0;
      while item != null
        invariant 0 <= i <= |cells| && item == if i < |cells| then cells[i] else null
        invariant forall j :: 0 <= j < i ==> items[j] != Item(name, v) && (replace ==> items[j].name != name)
        decreases |cells| - i
      {
        if item.name == name && (item.val == v || replace) {
          return;
        }
        item, i := item.next, i + 1;
      }
    }

    /** kb_item_addset_str and kb_item_addset_int on their bucket. */
    method AddSetHere(name: string, v: Val, replace: bool) returns (ret: int)
      requires Valid()
      modifies this, set x: Cell | x.bucket == this
      ensures Valid() && items == AddSet(old(items), name, v, replace)
      ensures ret == AddSetResult(old(items), name, v, replace)
    {
      var item;
      ghost var i;
      item, i := Search(name, v, replace);
      Found(items, name, v, replace, i);
      if item != null {
        if item.val == v {
          return -1;
        }
        Overwrite(item, i, v);
        return 0;
      }
      Push(name, v);
      return 0;
    }

    method Overwrite(item: Cell, ghost i: nat, v: Val)
      requires Valid() && i < |cells| && item == cells[i]
      modifies this, item
      ensures Valid() && items == old(items)[i := Item(old(items)[i].name, v)]
    {
      item.val := v;
      items := items[i := Item(items[i].name, v)];
    }

    method Push(name: string, v: Val)
      requires Valid()
      modifies this
      ensures Valid() && items == [Item(name, v)] + old(items)
    {
      var item := new Cell(this, name, v, head);
      head := item;
      cells, items := [item] + cells, [Item(name, v)] + items;
    }

    /** What the search says about adding the item. */
    static lemma {:induction false} Found(b: seq<Item>, name: string, v: Val, replace: bool, i: nat)
      requires i <= |b| && forall j :: 0 <= j < i ==> b[j] != Item(name, v) && (replace ==> b[j].name != name)
      requires i < |b| ==> b[i].name == name && (replace || b[i].val == v)
      ensures i < |b| && b[i].val == v ==> AddSet(b, name, v, replace) == b && AddSetResult(b, name, v, replace) == -1
      ensures i < |b| && b[i].val != v ==>
        AddSet(b, name, v, replace) == b[i := Item(name, v)] && AddSetResult(b, name, v, replace) == 0
      ensures i == |b| ==> AddSet(b, name, v, replace) == [Item(name, v)] + b && AddSetResult(b, name, v, replace) == 0
    {
      if i < |b| {
        assert b[i] == Item(name, b[i].val);
        if replace {
          FindIs(b, name, AnyKind, i);
          assert b[i := b[i]] == b;
        }
      } else if replace {
        FindNone(b, name);
      }
    }

    static lemma {:induction false} FindNone(b: seq<Item>, n: string)
      requires forall j :: 0 <= j < |b| ==> b[j].name != n
      ensures Find(b, n, AnyKind) == |b|
    {
      if b != [] {
        FindNone(b[1..], n);
      }
    }

    /** Takes the cell k at place i out of the bucket; prev is the cell before it. */
    method Unlink(prev: Cell?, k: Cell, ghost i: nat)
      requires Valid() && i < |cells| && k == cells[i] && prev == At(i - 1)
      modifies this, set x: Cell | x.bucket == this
      ensures Valid() && cells == Remove(old(cells), i) && items == Remove(old(items), i)
    {
      var next := k.next;
      if prev != null {
        prev.next := next;
      } else {
        head := next;
      }
      LinkedWithout(cells, items, this, i);
      cells, items := Remove(cells, i), Remove(items, i);
    }

    /** The cell at place i, or the one before it. */
    ghost function At(i: int): Cell?
      reads this
    {
      if 0 <= i < |cells| then cells[i] else null
    }

    /** One turn of the loop of kb_item_rm_all: drops or passes the cell at place i. */
    method RmOrPass(prev: Cell?, k: Cell, name: string, ghost i: nat)
      returns (prev': Cell?, k': Cell?, ghost i': nat)
      requires Valid() && i < |cells| && k == At(i) && prev == At(i - 1)
      modifies this, set x: Cell | x.bucket == this
      ensures Valid() && prev' == At(i' - 1) && k' == At(i')
      ensures i' == if old(items[i].name) == name then i else i + 1
      ensures items == if old(items[i].name) == name then Remove(old(items), i) else old(items)
    {
      if k.name == name {
        k', prev', i' := k.next, prev, i;
        Unlink(prev, k, i);
      } else {
        prev', k', i' := k, k.next, i + 1;
      }
    }

    /** kb_item_rm_all on its bucket. */
    method RmAllHere(name: string)
      requires Valid()
      modifies this, set x: Cell | x.bucket == this
      ensures Valid() && items == RmAll(old(items), name)
    {
      var k, prev: Cell? := head, null;
      ghost var b: seq<Item>, p: int, i: int := items, 0, 0;
      while k != null
        invariant Valid() && 0 <= p <= |b|
        invariant i == |RmAll(b[..p], name)| && items == RmAll(b[..p], name) + b[p..]
        invariant k == At(i) && prev == At(i - 1)
        decreases |b| - p
      {
        prev, k, i := RmTurn(prev, k, name, i, b, p);
        p := p + 1;
      }
      assert b[..p] == b && b[p..] == [];
    }

    /** That turn, in terms of what the loop has passed of b. */
    method RmTurn(prev: Cell?, k: Cell, name: string, ghost i: nat, ghost b: seq<Item>, ghost p: nat)
      returns (prev': Cell?, k': Cell?, ghost i': nat)
      requires Valid() && p < |b| && k == At(i) && prev == At(i - 1)
      requires i == |RmAll(b[..p], name)| && items == RmAll(b[..p], name) + b[p..]
      modifies this, set x: Cell | x.bucket == this
      ensures Valid() && prev' == At(i' - 1) && k' == At(i')
      ensures i' == |RmAll(b[..p + 1], name)| && items == RmAll(b[..p + 1], name) + b[p + 1..]
    {
      RmAllStep(b, p, name);
      prev', k', i' := RmOrPass(prev, k, name, i);
    }

    static lemma {:induction false} RmAllAppend(a: seq<Item>, c: seq<Item>, n: string)
      ensures RmAll(a + c, n) == RmAll(a, n) + RmAll(c, n)
    {
      if a == [] {
        assert a + c == c;
      } else {
        RmAllAppend(a[1..], c, n);
        RmAllFirst(a, a[0], a[1..], n);
        RmAllFirst(a + c, a[0], a[1..] + c, n);
        Associate(if a[0].name == n then [] else [a[0]], RmAll(a[1..], n), RmAll(c, n));
      }
    }

    static lemma {:induction false} RmAllFirst(b: seq<Item>, x: Item, rest: seq<Item>, n: string)
      requires b == [x] + rest
      ensures RmAll(b, n) == (if x.name == n then [] else [x]) + RmAll(rest, n)
    {
      assert b[1..] == rest;
    }

    static lemma {:induction false} Associate(a: seq<Item>, b: seq<Item>, c: seq<Item>)
      ensures a + (b + c) == (a + b) + c
    {
    }

    static lemma {:induction false} RmAllStep(b: seq<Item>, p: nat, n: string)
      requires p < |b|
      ensures RmAll(b[..p + 1], n) == RmAll(b[..p], n) + if b[p].name == n then [] else [b[p]]
      ensures var l := RmAll(b[..p], n) + b[p..];
        && var i := |RmAll(b[..p], n)|;
        && l[i] == b[p]
        && (if b[p].name == n then Remove(l, i) else l) == RmAll(b[..p + 1], n) + b[p + 1..]
    {
      assert b[..p + 1] == b[..p] + [b[p]];
      RmAllAppend(b[..p], [b[p]], n);
      Middle(RmAll(b[..p], n), b, p);
    }

    static lemma {:induction false} Middle(kept: seq<Item>, b: seq<Item>, p: nat)
      requires p < |b|
      ensures (kept + b[p..])[|kept|] == b[p]
      ensures Remove(kept + b[p..], |kept|) == kept + b[p + 1..]
      ensures kept + b[p..] == kept + [b[p]] + b[p + 1..]
    {
    }
  }

  /** The pattern that one name matches. */
  function NameIs(n: string): string -> bool {
    x => x == n
  }

  /** The knowledge base: the table of buckets. */
  class Kb {
    const table: seq<Bucket>

    ghost function Cells(): set<Cell>
      reads table
    {
      set b, x | b in table && x in b.cells :: x
    }

    ghost predicate Valid()
      reads table, Cells()
    {
      && |table| == HASH_MAX
      && (forall h :: 0 <= h < |table| ==> table[h].slot == h && table[h].Valid())
      && Hashed(View())
    }

    /** The items of every bucket. */
    ghost function View(): (t: seq<seq<Item>>)
      reads table
      ensures |t| == |table|
    {
      seq(|table|, h requires 0 <= h < |table| reads table => table[h].items)
    }

    /** kb_new */
    constructor ()
      ensures Valid() && fresh(table)
      ensures forall h :: 0 <= h < HASH_MAX ==> View()[h] == []
    {
      var t: seq<Bucket> := [];
      while |t| < HASH_MAX
        invariant |t| <= HASH_MAX && fresh(t)
        invariant forall h :: 0 <= h < |t| ==> t[h].Valid() && t[h].items == [] && t[h].slot == h
      {
        var b := new Bucket(|t|);
        t := t + [b];
      }
      table := t;
    }

    /** kb_item_get_single: the first item with that name and type. */
    method GetSingle(name: string, kind: Kind) returns (r: Cell?)
      requires Valid()
      ensures var b := View()[MkKey(name)];
        var i := Find(b, name, kind);
        if i < |b| then r != null && Item(r.name, r.val) == b[i] else r == null
    {
      var h := ComputeKey(name);
      r := table[h].GetSingle(name, kind);
    }

    /** kb_item_get_all */
    method GetAll(name: string) returns (ret: seq<Item>)
      requires Valid()
      ensures ret == Reverse(Matching(Whole(View()), NameIs(name)))
      ensures |ret| == |Values(View(), name)|
      ensures forall i :: 0 <= i < |ret| ==> ret[i] == Item(name, Values(View(), name)[|ret| - 1 - i])
    {
      var h := ComputeKey(name);
      ret := table[h].Collect(NameIs(name), []);
      AllOfName(View(), name, ret);
    }

    static lemma {:induction false} AllOfName(t: seq<seq<Item>>, name: string, ret: seq<Item>)
      requires Hashed(t) && ret == Reverse(Matching(t[MkKey(name)], NameIs(name))) + []
      ensures ret == Reverse(Matching(Whole(t), NameIs(name)))
      ensures |ret| == |Values(t, name)|
      ensures forall i :: 0 <= i < |ret| ==> ret[i] == Item(name, Values(t, name)[|ret| - 1 - i])
    {
      MatchingOneBucket(t, name);
      MatchingVals(t[MkKey(name)], name);
    }

    /** kb_item_get_pattern, for any pattern. */
    method GetPattern(matches: string -> bool) returns (ret: seq<Item>)
      requires Valid()
      ensures ret == Reverse(Matching(Whole(View()), matches))
    {
      ret := [];
      for i := 0 to HASH_MAX
        invariant ret == Reverse(Matching(Whole(View()[..i]), matches))
      {
        var before := ret;
        ret := table[i].Collect(matches, ret);
        WholeStep(View(), i + 1);
        MatchingConcat(Whole(View()[..i]), View()[i], matches);
        ReverseConcat(Matching(Whole(View()[..i]), matches), Matching(View()[i], matches));
      }
      assert View()[..HASH_MAX] == View();
    }

    /** kb_item_add_str, kb_item_add_int (replace false), kb_item_set_str, kb_item_set_int (replace true). */
    method AddSetItem(name: string, v: Val, replace: bool) returns (ret: int)
      requires Valid()
      modifies table, set x: Cell | x.bucket in table
      ensures Valid()
      ensures View() == Perform(old(View()), if replace then Set(name, v) else Add(name, v))
      ensures ret == AddSetResult(old(View())[MkKey(name)], name, v, replace)
    {
      HashedAfter(View(), if replace then Set(name, v) else Add(name, v));
      var h := ComputeKey(name);
      ret := table[h].AddSetHere(name, v, replace);
      assert View() == old(View())[h := AddSet(old(View())[h], name, v, replace)];
    }

    /** kb_item_rm_all */
    method RmAllItems(name: string)
      requires Valid()
      modifies table, set x: Cell | x.bucket in table
      ensures Valid()
      ensures View() == Perform(old(View()), Rm(name))
    {
      HashedAfter(View(), Rm(name));
      var h := ComputeKey(name);
      table[h].RmAllHere(name);
      assert View() == old(View())[h := RmAll(old(View())[h], name)];
    }
  }

  /** The items whose name matches a pattern. */
  function Matching(b: seq<Item>, matches: string -> bool): seq<Item> {
    if b == [] then []
    else Matching(b[..|b| - 1], matches) + if matches(b[|b| - 1].name) then [b[|b| - 1]] else []
  }

  lemma {:induction false} CollectStep(b: seq<Item>, i: nat, matches: string -> bool)
    requires i < |b|
    ensures Reverse(Matching(b[..i + 1], matches)) ==
            if matches(b[i].name) then [b[i]] + Reverse(Matching(b[..i], matches)) else Reverse(Matching(b[..i], matches))
  {
    assert b[..i + 1][..i] == b[..i];
    var m := Matching(b[..i], matches);
    assert (m + [b[i]])[..|m|] == m && m + [] == m;
  }

  lemma {:induction false} MatchingConcat(a: seq<Item>, b: seq<Item>, matches: string -> bool)
    ensures Matching(a + b, matches) == Matching(a, matches) + Matching(b, matches)
  {
    if b == [] {
      assert a + b == a;
    } else {
      MatchingConcat(a, b[..|b| - 1], matches);
      assert (a + b)[..|a + b| - 1] == a + b[..|b| - 1];
    }
  }

  lemma {:induction false} MatchingNone(b: seq<Item>, matches: string -> bool)
    requires forall i :: 0 <= i < |b| ==> !matches(b[i].name)
    ensures Matching(b, matches) == []
  {
    if b != [] {
      MatchingNone(b[..|b| - 1], matches);
    }
  }

  /** A bucket other than the name's own has no item of it. */
  lemma {:induction false} MatchingElsewhere(t: seq<seq<Item>>, n: string, h: nat)
    requires Hashed(t) && h < |t| && MkKey(n) != h
    ensures Matching(t[h], NameIs(n)) == []
  {
    MatchingNone(t[h], NameIs(n));
  }

  lemma {:induction false} MatchingWholeStep(t: seq<seq<Item>>, n: string, k: nat)
    requires 0 < k <= |t|
    ensures Matching(Whole(t[..k]), NameIs(n)) == Matching(Whole(t[..k - 1]), NameIs(n)) + Matching(t[k - 1], NameIs(n))
  {
    WholeStep(t, k);
    MatchingConcat(Whole(t[..k - 1]), t[k - 1], NameIs(n));
  }

  lemma {:induction false} MatchingWholePart(t: seq<seq<Item>>, n: string, k: nat)
    requires Hashed(t) && k <= |t|
    ensures Matching(Whole(t[..k]), NameIs(n)) == if MkKey(n) < k then Matching(t[MkKey(n)], NameIs(n)) else []
  {
    if k == 0 {
      assert t[..0] == [];
    } else {
      MatchingWholePart(t, n, k - 1);
      MatchingWholeStep(t, n, k);
      if MkKey(n) != k - 1 {
        MatchingElsewhere(t, n, k - 1);
      }
    }
  }

  /** The scan over all buckets restricted to one name is the scan of that name's bucket. */
  lemma {:induction false} MatchingOneBucket(t: seq<seq<Item>>, n: string)
    requires Hashed(t)
    ensures Matching(Whole(t), NameIs(n)) == Matching(t[MkKey(n)], NameIs(n))
  {
    MatchingWholePart(t, n, |t|);
    assert t[..|t|] == t;
  }

  lemma {:induction false} MatchingVals(b: seq<Item>, n: string)
    ensures var m := Matching(b, NameIs(n));
      |m| == |Vals(b, n)| && forall i :: 0 <= i < |m| ==> m[i] == Item(n, Vals(b, n)[i])
  {
    if b != [] {
      var k := |b| - 1;
      MatchingVals(b[..k], n);
      assert b[..k] + [b[k]] == b;
      ValsConcat(b[..k], [b[k]], n);
    }
  }
}
