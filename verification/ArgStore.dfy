/**
 Any number of argument lists (misc/arglists.c) in memory with the one name cache they share:
 over every sequence of calls the cache counts each name once for every cell that carries it.
 */
module ArgStore {
  import opened Seqs
  import opened ArgTrees
  import opened NameCache
  import opened Arglists

  function Forest(ts: seq<Shape>): (f: seq<seq<Entry>>)
    ensures |f| == |ts| && forall i :: 0 <= i < |ts| ==> f[i] == ts[i].entries
  {
    seq(|ts|, i requires 0 <= i < |ts| => ts[i].entries)
  }

  /** The cells of all lists. */
  function Feet(ts: seq<Shape>): set<Cell> {
    set i, c | 0 <= i < |ts| && c in ts[i].foot :: c
  }

  /** The list t is in memory at head, and no list is nested in it twice. */
  ghost predicate Rooted(head: Cell, t: Shape, gStrHash: string -> nat)
    reads t.foot
  {
    InMemory(t, gStrHash) && t.cells[0] == head && Tree(t) && WellTyped(t.entries)
  }

  ghost predicate AllRooted(heads: seq<Cell>, ts: seq<Shape>, gStrHash: string -> nat)
    reads Feet(ts)
  {
    |heads| == |ts| && Apart(ts) && forall i :: 0 <= i < |ts| ==> Rooted(heads[i], ts[i], gStrHash)
  }

  /** All lists but list i, which a call is changing. */
  ghost predicate OthersRooted(heads: seq<Cell>, ts: seq<Shape>, i: nat, gStrHash: string -> nat)
    reads Feet(ts)
  {
    && |heads| == |ts| && i < |ts| && Apart(ts)
    && forall k :: 0 <= k < |ts| && k != i ==> Rooted(heads[k], ts[k], gStrHash)
  }

  // ----- sets of lists

  lemma {:induction false} RootedUpdate(heads: seq<Cell>, ts: seq<Shape>, i: nat, u: Shape, gStrHash: string -> nat)
    requires OthersRooted(heads, ts, i, gStrHash) && Rooted(heads[i], u, gStrHash)
    requires forall k :: 0 <= k < |ts| && k != i ==> ts[k].foot !! u.foot
    ensures AllRooted(heads, ts[i := u], gStrHash)
  {
  }

  lemma {:induction false} RootedAppend(heads: seq<Cell>, ts: seq<Shape>, h: Cell, u: Shape, gStrHash: string -> nat)
    requires AllRooted(heads, ts, gStrHash) && Rooted(h, u, gStrHash)
    requires forall k :: 0 <= k < |ts| ==> ts[k].foot !! u.foot
    ensures AllRooted(heads + [h], ts + [u], gStrHash)
  {
  }

  lemma {:induction false} RootedRemove(heads: seq<Cell>, ts: seq<Shape>, j: nat, gStrHash: string -> nat)
    requires |heads| == |ts| && j < |ts|
    requires forall i, k :: 0 <= i < k < |ts| && i != j && k != j ==> ts[i].foot !! ts[k].foot
    requires forall k :: 0 <= k < |ts| && k != j ==> Rooted(heads[k], ts[k], gStrHash)
    ensures AllRooted(Remove(heads, j), Remove(ts, j), gStrHash)
  {
    var hs, us := Remove(heads, j), Remove(ts, j);
    assert forall k :: 0 <= k < |us| ==> us[k] == ts[if k < j then k else k + 1] && hs[k] == heads[if k < j then k else k + 1];
  }

  lemma {:induction false} RootedConcat(hs: seq<Cell>, ts: seq<Shape>, ks: seq<Cell>, us: seq<Shape>, gStrHash: string -> nat)
    requires AllRooted(hs, ts, gStrHash) && AllRooted(ks, us, gStrHash)
    requires forall i, j :: 0 <= i < |ts| && 0 <= j < |us| ==> ts[i].foot !! us[j].foot
    ensures AllRooted(hs + ks, ts + us, gStrHash)
  {
  }

  /** A list falls into the list u and a list k that was nested in it. */
  lemma {:induction false} RootedSplit(heads: seq<Cell>, ts: seq<Shape>, i: nat, u: Shape, h: Cell, k: Shape, gStrHash: string -> nat)
    requires OthersRooted(heads, ts, i, gStrHash) && Rooted(heads[i], u, gStrHash) && Rooted(h, k, gStrHash)
    requires u.foot <= ts[i].foot && k.foot <= ts[i].foot && u.foot !! k.foot
    ensures AllRooted(heads + [h], ts[i := u] + [k], gStrHash)
  {
    RootedUpdate(heads, ts, i, u, gStrHash);
    RootedAppend(heads, ts[i := u], h, k, gStrHash);
  }

  lemma {:induction false} ForestUpdate(ts: seq<Shape>, i: nat, u: Shape)
    requires i < |ts|
    ensures Forest(ts[i := u]) == Forest(ts)[i := u.entries]
  {
  }

  lemma {:induction false} ForestConcat(ts: seq<Shape>, us: seq<Shape>)
    ensures Forest(ts + us) == Forest(ts) + Forest(us)
  {
  }

  lemma {:induction false} ForestRemove(ts: seq<Shape>, i: nat)
    requires i < |ts|
    ensures Forest(Remove(ts, i)) == Remove(Forest(ts), i)
  {
  }

  lemma {:induction false} FeetUpdate(ts: seq<Shape>, i: nat, u: Shape)
    requires i < |ts|
    ensures Feet(ts[i := u]) <= Feet(ts) + u.foot
  {
    var us := ts[i := u];
    forall c | c in Feet(us) ensures c in Feet(ts) + u.foot {
      var k :| 0 <= k < |us| && c in us[k].foot;
      assert k != i ==> us[k] == ts[k];
    }
  }

  lemma {:induction false} FeetRemove(ts: seq<Shape>, i: nat)
    requires i < |ts|
    ensures Feet(Remove(ts, i)) <= Feet(ts)
  {
    var us := Remove(ts, i);
    forall c | c in Feet(us) ensures c in Feet(ts) {
      var k :| 0 <= k < |us| && c in us[k].foot;
      assert us[k] == ts[if k < i then k else k + 1];
    }
  }

  lemma {:induction false} FeetConcat(ts: seq<Shape>, us: seq<Shape>)
    ensures Feet(ts + us) <= Feet(ts) + Feet(us)
  {
    forall c | c in Feet(ts + us) ensures c in Feet(ts) + Feet(us) {
      var k :| 0 <= k < |ts + us| && c in (ts + us)[k].foot;
      assert k >= |ts| ==> (ts + us)[k] == us[k - |ts|];
    }
  }

  lemma {:induction false} FootInFeet(ts: seq<Shape>, i: nat)
    requires i < |ts|
    ensures ts[i].foot <= Feet(ts)
  {
  }

  // ----- what the counts allow

  lemma {:induction false} CountedInAll(f: seq<seq<Entry>>, i: nat, n: string)
    requires i < |f|
    ensures OwnCarriers(f[i], n) <= Carriers(f[i], n) <= AllCarriers(f, n)
  {
    AllCarriersAt(f, i, n);
    CarriersSplit(f[i], n);
  }

  lemma {:induction false} NamedIsCounted(l: seq<Entry>, name: string)
    requires Find(l, name) < |l|
    ensures Carriers(l, name) > 0
  {
    CarriersAt(l, Find(l, name), name);
  }

  // ----- the shapes after a call

  /** The cells of u are cells of t, and so are its nested lists, without the one at k. */
  ghost predicate PartOf(u: Shape, t: Shape, k: nat) {
    && (forall i :: 0 <= i < |u.cells| ==> u.cells[i] in t.cells)
    && forall i :: 0 <= i < |u.kids| ==> u.kids[i] == NO_LIST || KidBesides(t, k, u.kids[i])
  }

  ghost predicate KidBesides(t: Shape, k: nat, kid: Shape) {
    exists j :: 0 <= j < |t.kids| && j != k && kid == t.kids[j]
  }

  /** The nested list k is apart from what remains. */
  lemma {:induction false} RestOfTree(t: Shape, u: Shape, k: nat)
    requires Laid(t) && Tree(t) && k < |t.kids|
    requires PartOf(u, t, k)
    ensures forall i :: 0 <= i < |u.kids| ==> u.kids[i].foot <= t.foot - t.kids[k].foot
    ensures forall i :: 0 <= i < |u.cells| ==> u.cells[i] in t.foot - t.kids[k].foot
  {
    assert Within(t.kids[k], t);
    forall i | 0 <= i < |u.kids| && u.kids[i] != NO_LIST ensures u.kids[i].foot <= t.foot - t.kids[k].foot {
      var j :| 0 <= j < |t.kids| && j != k && u.kids[i] == t.kids[j];
      assert Within(t.kids[j], t) && t.kids[j].foot !! t.kids[k].foot;
    }
  }

  function Trimmed(t: Shape, u: Shape, k: nat): Shape
    requires k < |t.kids|
  {
    u.(foot := u.foot - t.kids[k].foot)
  }

  lemma {:induction false} RestRooted(head: Cell, t: Shape, u: Shape, k: nat, gStrHash: string -> nat)
    requires Laid(t) && Tree(t) && k < |t.kids|
    requires Rooted(head, u, gStrHash) && u.foot <= t.foot
    requires PartOf(u, t, k)
    ensures Rooted(head, Trimmed(t, u, k), gStrHash)
    ensures Trimmed(t, u, k).foot <= t.foot && Trimmed(t, u, k).foot !! t.kids[k].foot
  {
    RestOfTree(t, u, k);
    forall i | 0 <= i < |u.kids| ensures u.kids[i].foot <= u.foot - t.kids[k].foot {
      assert Within(u.kids[i], u);
    }
    Shrunk(u, u.foot - t.kids[k].foot, gStrHash);
  }

  lemma {:induction false} KidRooted(t: Shape, k: nat, gStrHash: string -> nat)
    requires InMemory(t, gStrHash) && Tree(t) && WellTyped(t.entries) && k < |t.entries| && t.entries[k].value.Sub?
    ensures t.kids[k].cells != [] && Rooted(t.kids[k].cells[0], t.kids[k], gStrHash) && t.kids[k].foot <= t.foot
    ensures t.entries[k].value == Sub(t.kids[k].entries)
  {
    At(t, k, gStrHash);
  }

  /** Changing the cells of a list itself leaves the cells of other lists, and of the list nested at k, alone. */
  lemma {:induction false} RowApart(t: Shape, k: nat)
    requires Laid(t)
    ensures forall c :: c in t.cells ==> c in t.foot
    ensures k < |t.kids| ==> forall c :: c in t.cells ==> c !in t.kids[k].foot
  {
    assert k < |t.kids| ==> Within(t.kids[k], t);
  }

  lemma {:induction false} ReplacedParts(t: Shape, k: nat, e: Entry)
    requires Laid(t) && Tree(t) && WellTyped(t.entries) && k < |t.entries| && EntryWellTyped(e)
    ensures var u := Replaced(t, k, e, NO_LIST);
      Tree(u) && WellTyped(u.entries) && PartOf(u, t, k) && u.foot == t.foot
  {
    var u := Replaced(t, k, e, NO_LIST);
    TypedUpdate(t.entries, k, e);
    forall i | 0 <= i < |u.kids| && i != k ensures KidBesides(t, k, u.kids[i]) {
      assert u.kids[i] == t.kids[i];
    }
  }

  /** The shape after arg_set_value with a plain value. */
  function UpdatedShape(t: Shape, name: string, length: int, value: Value): Shape
    requires |t.entries| == |t.kids|
  {
    var k := Find(t.entries, name);
    if k == |t.entries| then t else Replaced(t, k, t.entries[k].(length := length, value := value), NO_LIST)
  }

  lemma {:induction false} UpdatedParts(t: Shape, name: string, length: int, value: Value)
    requires Laid(t) && Tree(t) && WellTyped(t.entries) && Settable(t.entries, name, length, value) && !value.Sub?
    ensures var u := UpdatedShape(t, name, length, value);
      Tree(u) && WellTyped(u.entries) && u.foot == t.foot && u.entries == Updated(t.entries, name, length, value)
    ensures Find(t.entries, name) < |t.entries| ==> PartOf(UpdatedShape(t, name, length, value), t, Find(t.entries, name))
  {
    var k := Find(t.entries, name);
    if k < |t.entries| {
      ReplacedParts(t, k, t.entries[k].(length := length, value := value));
    }
  }

  lemma {:induction false} RemovedTree(t: Shape, k: nat)
    requires Laid(t) && Tree(t) && k < |t.entries|
    ensures Tree(Removed(t, k))
  {
    var u := Removed(t, k);
    assert forall i :: 0 <= i < |u.kids| ==> u.kids[i] == t.kids[if i < k then i else i + 1];
  }

  lemma {:induction false} WithoutNamedTree(t: Shape, name: string)
    requires Laid(t) && Tree(t)
    ensures Tree(WithoutNamed(t, name))
  {
    var k := Find(t.entries, name);
    if k < |t.entries| {
      RemovedTree(t, k);
      if k == 0 {
        assert HeadRemoved(t).kids == Removed(t, 0).kids;
      }
    }
  }

  lemma {:induction false} WithoutNamedPart(t: Shape, name: string, k: nat)
    requires Laid(t) && k == Find(t.entries, name) < |t.entries|
    ensures PartOf(WithoutNamed(t, name), t, k) && WithoutNamed(t, name).foot <= t.foot
  {
    var u := WithoutNamed(t, name);
    forall i | 0 <= i < |u.kids| ensures KidBesides(t, k, u.kids[i]) {
      var j := if i < k then i else i + 1;
      assert u.kids[i] == t.kids[j] && j != k;
    }
    forall i | 0 <= i < |u.cells| ensures u.cells[i] in t.cells {
      assert u.cells[i] == t.cells[if k == 0 then if i == 0 then 0 else i + 1 else if i < k then i else i + 1];
    }
  }

  lemma {:induction false} WithoutNamedParts(t: Shape, name: string)
    requires Laid(t) && Tree(t) && WellTyped(t.entries)
    ensures var u := WithoutNamed(t, name);
      Tree(u) && WellTyped(ArgTrees.Delete(t.entries, name)) && u.foot <= t.foot
    ensures Find(t.entries, name) < |t.entries| ==> PartOf(WithoutNamed(t, name), t, Find(t.entries, name))
  {
    WithoutNamedTree(t, name);
    if Find(t.entries, name) < |t.entries| {
      TypedWithout(t.entries, Find(t.entries, name));
      WithoutNamedPart(t, name, Find(t.entries, name));
    }
  }

  lemma {:induction false} ExtendedPlain(t: Shape, last: Cell, e: Entry)
    requires Laid(t) && Tree(t) && WellTyped(t.entries) && EntryWellTyped(e)
    ensures Tree(Extended(t, last, e, NO_LIST)) && WellTyped(t.entries + [e])
  {
    assert forall k :: 0 <= k < |t.kids| ==> Within(t.kids[k], t);
    ExtendedTree(t, last, e, NO_LIST);
    TypedAppend(t.entries, e);
  }

  /** The lists after a plain entry e was written into list i. */
  lemma {:induction false} ExtendedRooted(heads: seq<Cell>, ts: seq<Shape>, i: nat, last: Cell, e: Entry, gStrHash: string -> nat)
    requires OthersRooted(heads, ts, i, gStrHash) && last !in Feet(ts)
    requires Rooted(heads[i], Extended(ts[i], last, e, NO_LIST), gStrHash)
    ensures AllRooted(heads, ts[i := Extended(ts[i], last, e, NO_LIST)], gStrHash)
  {
    var u := Extended(ts[i], last, e, NO_LIST);
    forall k | 0 <= k < |ts| && k != i ensures ts[k].foot !! u.foot {
      FootInFeet(ts, k);
    }
    RootedUpdate(heads, ts, i, u, gStrHash);
  }

  lemma {:induction false} ExtendedForest(ts: seq<Shape>, i: nat, last: Cell, e: Entry)
    requires i < |ts|
    ensures Forest(ts[i := Extended(ts[i], last, e, NO_LIST)]) == Forest(ts)[i := ts[i].entries + [e]]
    ensures Feet(ts[i := Extended(ts[i], last, e, NO_LIST)]) <= Feet(ts) + {last}
  {
    ForestUpdate(ts, i, Extended(ts[i], last, e, NO_LIST));
    FeetUpdate(ts, i, Extended(ts[i], last, e, NO_LIST));
    FootInFeet(ts, i);
  }

  /** The lists after list j was nested in list i. */
  function Attached(ts: seq<Shape>, i: nat, last: Cell, e: Entry, j: nat): seq<Shape>
    requires i < |ts| && j < |ts|
  {
    Remove(ts[i := Extended(ts[i], last, e, ts[j])], j)
  }

  lemma {:induction false} AttachedTree(ts: seq<Shape>, i: nat, last: Cell, e: Entry, j: nat)
    requires i < |ts| && j < |ts| && i != j && Apart(ts) && Laid(ts[i]) && Tree(ts[i]) && Tree(ts[j])
    requires WellTyped(ts[i].entries) && WellTyped(ts[j].entries) && e.kind == ARG_ARGLIST && e.value == Sub(ts[j].entries)
    ensures Tree(Extended(ts[i], last, e, ts[j])) && WellTyped(ts[i].entries + [e])
  {
    assert forall k :: 0 <= k < |ts[i].kids| ==> Within(ts[i].kids[k], ts[i]);
    ExtendedTree(ts[i], last, e, ts[j]);
    TypedAppend(ts[i].entries, e);
  }

  lemma {:induction false} AttachedRooted(heads: seq<Cell>, ts: seq<Shape>, i: nat, last: Cell, e: Entry, j: nat, gStrHash: string -> nat)
    requires OthersRooted(heads, ts, i, gStrHash) && j < |ts| && i != j && last !in Feet(ts)
    requires Rooted(heads[i], Extended(ts[i], last, e, ts[j]), gStrHash)
    ensures AllRooted(Remove(heads, j), Attached(ts, i, last, e, j), gStrHash)
  {
    var u := Extended(ts[i], last, e, ts[j]);
    forall k | 0 <= k < |ts| && k != i && k != j ensures ts[k].foot !! u.foot {
      FootInFeet(ts, k);
    }
    RootedRemove(heads, ts[i := u], j, gStrHash);
  }

  lemma {:induction false} AttachedForest(ts: seq<Shape>, i: nat, last: Cell, e: Entry, j: nat)
    requires i < |ts| && j < |ts| && i != j && e.kind == ARG_ARGLIST && e.value == Sub(ts[j].entries)
    ensures Forest(Attached(ts, i, last, e, j)) == ForestAfter(Forest(ts), AddSub(i, e.name, e.length, j))
    ensures Feet(Attached(ts, i, last, e, j)) <= Feet(ts) + {last}
  {
    var u := Extended(ts[i], last, e, ts[j]);
    ForestUpdate(ts, i, u);
    ForestRemove(ts[i := u], j);
    FeetUpdate(ts, i, u);
    FeetRemove(ts[i := u], j);
    FootInFeet(ts, i);
    FootInFeet(ts, j);
  }

  /** The lists after an entry with a nested list was replaced or taken out. */
  function Split(ts: seq<Shape>, i: nat, u: Shape, k: nat): seq<Shape>
    requires i < |ts| && k < |ts[i].kids| && k < |ts[i].entries|
  {
    ts[i := Trimmed(ts[i], u, k)] + if ts[i].entries[k].value.Sub? then [ts[i].kids[k]] else []
  }

  /** The pointer kid leads to the list nested in entry k, if there is one. */
  ghost predicate KidAt(t: Shape, k: nat, kid: seq<Cell>, gStrHash: string -> nat)
    reads if k < |t.kids| then t.kids[k].foot else {}
  {
    if k < |t.kids| && k < |t.entries| && t.entries[k].value.Sub? then
      |kid| == 1 && Rooted(kid[0], t.kids[k], gStrHash) && t.entries[k].value == Sub(t.kids[k].entries)
    else kid == []
  }

  lemma {:induction false} Unchanged(heads: seq<Cell>, ts: seq<Shape>, i: nat, kid: seq<Cell>, gStrHash: string -> nat)
    requires OthersRooted(heads, ts, i, gStrHash) && Rooted(heads[i], ts[i], gStrHash) && kid == []
    ensures AllRooted(heads + kid, ts, gStrHash)
    ensures Forest(ts) == Forest(ts)[i := ts[i].entries]
  {
    assert heads + kid == heads;
  }

  lemma {:induction false} SplitRooted(heads: seq<Cell>, ts: seq<Shape>, i: nat, u: Shape, k: nat, kid: seq<Cell>, gStrHash: string -> nat)
    requires OthersRooted(heads, ts, i, gStrHash) && Laid(ts[i]) && Tree(ts[i]) && k < |ts[i].entries|
    requires Rooted(heads[i], u, gStrHash) && u.foot <= ts[i].foot && PartOf(u, ts[i], k)
    requires KidAt(ts[i], k, kid, gStrHash)
    ensures AllRooted(heads + kid, Split(ts, i, u, k), gStrHash)
  {
    var v := Trimmed(ts[i], u, k);
    RestRooted(heads[i], ts[i], u, k, gStrHash);
    if ts[i].entries[k].value.Sub? {
      assert Within(ts[i].kids[k], ts[i]);
      RootedSplit(heads, ts, i, v, kid[0], ts[i].kids[k], gStrHash);
      assert kid == [kid[0]];
    } else {
      RootedUpdate(heads, ts, i, v, gStrHash);
      assert heads + kid == heads && Split(ts, i, u, k) == ts[i := v];
    }
  }

  lemma {:induction false} SplitForest(ts: seq<Shape>, i: nat, u: Shape, k: nat)
    requires i < |ts| && Laid(ts[i]) && k < |ts[i].entries| && u.foot <= ts[i].foot
    requires ts[i].entries[k].value.Sub? ==> ts[i].entries[k].value == Sub(ts[i].kids[k].entries)
    ensures Forest(Split(ts, i, u, k)) == Forest(ts)[i := u.entries] + Detached(ts[i].entries[k].value)
    ensures Feet(Split(ts, i, u, k)) <= Feet(ts)
  {
    var v := Trimmed(ts[i], u, k);
    ForestUpdate(ts, i, v);
    FeetUpdate(ts, i, v);
    FootInFeet(ts, i);
    if ts[i].entries[k].value.Sub? {
      assert Within(ts[i].kids[k], ts[i]);
      ForestConcat(ts[i := v], [ts[i].kids[k]]);
      FeetConcat(ts[i := v], [ts[i].kids[k]]);
    } else {
      assert Split(ts, i, u, k) == ts[i := v];
    }
  }

  /** The lists after the first entry of that name in list i was changed, or none because there is no such entry. */
  lemma {:induction false} ChangedRooted(heads: seq<Cell>, ts: seq<Shape>, i: nat, u: Shape, name: string, kid: seq<Cell>, gStrHash: string -> nat)
    returns (us: seq<Shape>)
    requires OthersRooted(heads, ts, i, gStrHash) && Laid(ts[i]) && Tree(ts[i])
    requires Rooted(heads[i], u, gStrHash) && KidAt(ts[i], Find(ts[i].entries, name), kid, gStrHash)
    requires var k := Find(ts[i].entries, name);
      if k < |ts[i].entries| then PartOf(u, ts[i], k) && u.foot <= ts[i].foot else u == ts[i]
    ensures AllRooted(heads + kid, us, gStrHash) && Feet(us) <= Feet(ts)
    ensures Forest(us) == Forest(ts)[i := u.entries] + Detached(ValueNamed(ts[i].entries, name))
  {
    var k := Find(ts[i].entries, name);
    if k < |ts[i].entries| {
      SplitRooted(heads, ts, i, u, k, kid, gStrHash);
      SplitForest(ts, i, u, k);
      us := Split(ts, i, u, k);
    } else {
      Unchanged(heads, ts, i, kid, gStrHash);
      us := ts;
    }
  }

  lemma {:induction false} DeletedRooted(heads: seq<Cell>, ts: seq<Shape>, i: nat, u: Shape, name: string, kid: seq<Cell>, gStrHash: string -> nat)
    returns (us: seq<Shape>)
    requires OthersRooted(heads, ts, i, gStrHash) && Laid(ts[i]) && Tree(ts[i])
    requires Rooted(heads[i], u, gStrHash) && KidAt(ts[i], Find(ts[i].entries, name), kid, gStrHash)
    requires var k := Find(ts[i].entries, name);
      if k < |ts[i].entries| then PartOf(u, ts[i], k) && u.foot <= ts[i].foot else u == ts[i]
    requires u.entries == ArgTrees.Delete(ts[i].entries, name)
    ensures AllRooted(heads + kid, us, gStrHash) && Feet(us) <= Feet(ts)
    ensures Forest(us) == ForestAfter(Forest(ts), Del(i, name))
  {
    us := ChangedRooted(heads, ts, i, u, name, kid, gStrHash);
  }

  lemma {:induction false} SetRooted(heads: seq<Cell>, ts: seq<Shape>, i: nat, u: Shape, name: string, length: int, value: Value,
                                     kid: seq<Cell>, gStrHash: string -> nat)
    returns (us: seq<Shape>)
    requires OthersRooted(heads, ts, i, gStrHash) && Laid(ts[i]) && Tree(ts[i])
    requires Rooted(heads[i], u, gStrHash) && KidAt(ts[i], Find(ts[i].entries, name), kid, gStrHash)
    requires var k := Find(ts[i].entries, name);
      if k < |ts[i].entries| then PartOf(u, ts[i], k) && u.foot <= ts[i].foot else u == ts[i]
    requires u.entries == Updated(ts[i].entries, name, length, value) && Possible(Forest(ts), Call.Set(i, name, length, value))
    ensures AllRooted(heads + kid, us, gStrHash) && Feet(us) <= Feet(ts)
    ensures Forest(us) == ForestAfter(Forest(ts), Call.Set(i, name, length, value))
  {
    us := ChangedRooted(heads, ts, i, u, name, kid, gStrHash);
  }

  /** The lists after list j took the place of the value of entry k in list i, which e then is. */
  function Nested(ts: seq<Shape>, i: nat, k: nat, e: Entry, j: nat): seq<Shape>
    requires i < |ts| && j < |ts| && k < |ts[i].entries| && k < |ts[i].kids|
  {
    Remove(ts[i := Trimmed(ts[i], Replaced(ts[i], k, e, ts[j]), k)], j)
    + if ts[i].entries[k].value.Sub? then [ts[i].kids[k]] else []
  }

  lemma {:induction false} ReplacedByListTree(t: Shape, k: nat, e: Entry, sub: Shape)
    requires Laid(t) && Tree(t) && k < |t.entries| && Tree(sub) && sub.foot !! t.foot
    ensures Tree(Replaced(t, k, e, sub))
  {
    var u := Replaced(t, k, e, sub);
    forall a, b | 0 <= a < b < |u.kids| ensures u.kids[a].foot !! u.kids[b].foot {
      assert Within(t.kids[a], t) && Within(t.kids[b], t);
    }
  }

  lemma {:induction false} NestedTrimmed(head: Cell, t: Shape, k: nat, e: Entry, sub: Shape, gStrHash: string -> nat)
    requires Laid(t) && Tree(t) && k < |t.entries| && sub.foot !! t.foot
    requires Rooted(head, Replaced(t, k, e, sub), gStrHash)
    ensures Rooted(head, Trimmed(t, Replaced(t, k, e, sub), k), gStrHash)
    ensures t.kids[k].foot <= t.foot
  {
    var u := Replaced(t, k, e, sub);
    assert Within(t.kids[k], t);
    forall i | 0 <= i < |u.kids| ensures u.kids[i].foot <= u.foot - t.kids[k].foot {
      assert Within(t.kids[i], t);
    }
    Shrunk(u, u.foot - t.kids[k].foot, gStrHash);
  }

  lemma {:induction false} NestedRooted(heads: seq<Cell>, ts: seq<Shape>, i: nat, k: nat, e: Entry, j: nat, kid: seq<Cell>,
                                        gStrHash: string -> nat)
    requires OthersRooted(heads, ts, i, gStrHash) && Laid(ts[i]) && Tree(ts[i]) && k < |ts[i].entries|
    requires j < |ts| && i != j && Rooted(heads[i], Replaced(ts[i], k, e, ts[j]), gStrHash) && KidAt(ts[i], k, kid, gStrHash)
    ensures AllRooted(Remove(heads, j) + kid, Nested(ts, i, k, e, j), gStrHash)
  {
    var v := Trimmed(ts[i], Replaced(ts[i], k, e, ts[j]), k);
    NestedTrimmed(heads[i], ts[i], k, e, ts[j], gStrHash);
    RootedRemove(heads, ts[i := v], j, gStrHash);
    var hs, us := Remove(heads, j), Remove(ts[i := v], j);
    if ts[i].entries[k].value.Sub? {
      forall m | 0 <= m < |us| ensures us[m].foot !! ts[i].kids[k].foot {
        assert us[m] == ts[i := v][if m < j then m else m + 1];
      }
      RootedAppend(hs, us, kid[0], ts[i].kids[k], gStrHash);
      assert kid == [kid[0]];
    } else {
      assert hs + kid == hs && us + [] == us;
    }
  }

  lemma {:induction false} NestedListForest(ts: seq<Shape>, i: nat, k: nat, e: Entry, j: nat)
    requires i < |ts| && j < |ts| && Laid(ts[i]) && k < |ts[i].entries|
    requires ts[i].entries[k].value.Sub? ==> ts[i].entries[k].value == Sub(ts[i].kids[k].entries)
    ensures Forest(Nested(ts, i, k, e, j)) ==
            Remove(Forest(ts)[i := ts[i].entries[k := e]], j) + Detached(ts[i].entries[k].value)
    ensures Feet(Nested(ts, i, k, e, j)) <= Feet(ts)
  {
    var v := Trimmed(ts[i], Replaced(ts[i], k, e, ts[j]), k);
    var us, ks := Remove(ts[i := v], j), if ts[i].entries[k].value.Sub? then [ts[i].kids[k]] else [];
    ForestUpdate(ts, i, v);
    ForestRemove(ts[i := v], j);
    ForestConcat(us, ks);
    FeetUpdate(ts, i, v);
    FeetRemove(ts[i := v], j);
    FeetConcat(us, ks);
    FootInFeet(ts, i);
    FootInFeet(ts, j);
    assert Within(ts[i].kids[k], ts[i]);
  }

  /** The shape after arg_set_value with the list sub. */
  function NestedShape(t: Shape, name: string, length: int, sub: Shape): Shape
    requires |t.entries| == |t.kids|
  {
    var k := Find(t.entries, name);
    if k == |t.entries| then t else Replaced(t, k, t.entries[k].(length := length, value := Sub(sub.entries)), sub)
  }

  lemma {:induction false} NestedShapeParts(t: Shape, name: string, length: int, sub: Shape)
    requires Laid(t) && Tree(t) && WellTyped(t.entries) && HoldsLists(t.entries, name)
    requires Tree(sub) && WellTyped(sub.entries) && sub.foot !! t.foot
    ensures Tree(NestedShape(t, name, length, sub)) && WellTyped(NestedShape(t, name, length, sub).entries)
    ensures NestedShape(t, name, length, sub).cells == t.cells
  {
    var k := Find(t.entries, name);
    if k < |t.entries| {
      var e := t.entries[k].(length := length, value := Sub(sub.entries));
      ReplacedByListTree(t, k, e, sub);
      TypedUpdate(t.entries, k, e);
    }
  }

  lemma {:induction false} ListNested(heads: seq<Cell>, ts: seq<Shape>, i: nat, name: string, length: int, j: nat,
                                      kid: seq<Cell>, gStrHash: string -> nat)
    returns (us: seq<Shape>)
    requires OthersRooted(heads, ts, i, gStrHash) && Laid(ts[i]) && Tree(ts[i]) && j < |ts| && i != j
    requires Find(ts[i].entries, name) < |ts[i].entries| && HoldsLists(ts[i].entries, name)
    requires Rooted(heads[i], NestedShape(ts[i], name, length, ts[j]), gStrHash)
    requires KidAt(ts[i], Find(ts[i].entries, name), kid, gStrHash)
    ensures AllRooted(Remove(heads, j) + kid, us, gStrHash) && Feet(us) <= Feet(ts)
    ensures Forest(us) == ForestAfter(Forest(ts), SetSub(i, name, length, j))
  {
    var k := Find(ts[i].entries, name);
    var e := ts[i].entries[k].(length := length, value := Sub(ts[j].entries));
    NestedRooted(heads, ts, i, k, e, j, kid, gStrHash);
    NestedListForest(ts, i, k, e, j);
    us := Nested(ts, i, k, e, j);
  }

  // ----- the calls

  class Store {
    const cache: Cache
    var heads: seq<Cell>          // a pointer to each list
    ghost var shapes: seq<Shape>  // how these lists lie in memory

    /** The lists are in memory, apart from each other, and the cache counts the cells that carry a name. */
    ghost predicate Valid()
      reads this, cache.table, cache.Nodes(), Feet(shapes)
    {
      && cache.Valid() && AllRooted(heads, shapes, cache.gStrHash)
      && forall n :: cache.Count(n) == AllCarriers(Forest(shapes), n)
    }

    constructor (gStrHash: string -> nat)
      ensures Valid() && Forest(shapes) == [] && fresh(cache.table)
    {
      cache := new Cache(gStrHash);
      heads, shapes := [], [];
    }

    /** Nothing is counted that no cell carries. */
    lemma {:induction false} Counted(i: nat)
      requires Valid() && i < |shapes|
      ensures forall n :: cache.Count(n) >= Carriers(shapes[i].entries, n) >= OwnCarriers(shapes[i].entries, n)
    {
      forall n ensures cache.Count(n) >= Carriers(shapes[i].entries, n) >= OwnCarriers(shapes[i].entries, n) {
        CountedInAll(Forest(shapes), i, n);
      }
    }

    method AddList() returns (hs: seq<Cell>, ghost ts: seq<Shape>)
      requires Valid()
      ensures cache.Valid() && AllRooted(hs, ts, cache.gStrHash)
      ensures Forest(ts) == ForestAfter(Forest(shapes), NewList)
      ensures forall n :: cache.Count(n) == old(cache.Count(n))
      ensures forall c :: c in Feet(ts) && c !in Feet(shapes) ==> fresh(c)
    {
      var c := new Cell();
      ghost var u := Shape([c], [], [], {c});
      RootedAppend(heads, shapes, c, u, cache.gStrHash);
      ForestConcat(shapes, [u]);
      FeetConcat(shapes, [u]);
      hs, ts := heads + [c], shapes + [u];
    }

    method AddPlain(i: nat, e: Entry) returns (hs: seq<Cell>, ghost ts: seq<Shape>)
      requires Valid() && Possible(Forest(shapes), Add(i, e))
      modifies shapes[i].foot, cache.table, set x: Node | x.bucket in cache.table
      ensures cache.Valid() && AllRooted(hs, ts, cache.gStrHash)
      ensures Forest(ts) == ForestAfter(Forest(shapes), Add(i, e))
      ensures forall n :: cache.Count(n) == old(cache.Count(n)) + One(e.name, n)
      ensures forall c :: c in Feet(ts) && c !in Feet(shapes) ==> fresh(c)
    {
      ghost var last := AppendPlain(i, e);
      ExtendedRooted(heads, shapes, i, last, e, cache.gStrHash);
      ExtendedForest(shapes, i, last, e);
      hs, ts := heads, shapes[i := Extended(shapes[i], last, e, NO_LIST)];
    }

    method AppendPlain(i: nat, e: Entry) returns (ghost last: Cell)
      requires Valid() && Possible(Forest(shapes), Add(i, e))
      modifies shapes[i].foot, cache.table, set x: Node | x.bucket in cache.table
      ensures cache.Valid() && OthersRooted(heads, shapes, i, cache.gStrHash)
      ensures fresh(last) && Rooted(heads[i], Extended(shapes[i], last, e, NO_LIST), cache.gStrHash)
      ensures forall n :: cache.Count(n) == old(cache.Count(n)) + One(e.name, n)
    {
      assert e.kind == ARG_STRUCT ==> e.value.bytes[..e.length] == e.value.bytes;
      ghost var u, n := AddValue(cache, heads[i], e.name, e.kind, e.length, Plain(e.value), shapes[i], NO_LIST);
      ExtendedPlain(shapes[i], n, e);
      last := n;
    }

    /** arg_add_value with one of the lists as the value. */
    method AddSubList(i: nat, name: string, length: int, j: nat) returns (hs: seq<Cell>, ghost ts: seq<Shape>)
      requires Valid() && Possible(Forest(shapes), AddSub(i, name, length, j))
      modifies shapes[i].foot, cache.table, set x: Node | x.bucket in cache.table
      ensures cache.Valid() && AllRooted(hs, ts, cache.gStrHash)
      ensures Forest(ts) == ForestAfter(Forest(shapes), AddSub(i, name, length, j))
      ensures forall n :: cache.Count(n) == old(cache.Count(n)) + One(name, n)
      ensures forall c :: c in Feet(ts) && c !in Feet(shapes) ==> fresh(c)
    {
      ghost var e := Entry(name, ARG_ARGLIST, length, Sub(shapes[j].entries));
      ghost var last := AppendSub(i, name, length, j, e);
      AttachedRooted(heads, shapes, i, last, e, j, cache.gStrHash);
      AttachedForest(shapes, i, last, e, j);
      hs, ts := Remove(heads, j), Attached(shapes, i, last, e, j);
    }

    method AppendSub(i: nat, name: string, length: int, j: nat, ghost e: Entry) returns (ghost last: Cell)
      requires Valid() && i < |shapes| && j < |shapes| && i != j
      requires e == Entry(name, ARG_ARGLIST, length, Sub(shapes[j].entries))
      modifies shapes[i].foot, cache.table, set x: Node | x.bucket in cache.table
      ensures cache.Valid() && OthersRooted(heads, shapes, i, cache.gStrHash)
      ensures fresh(last) && Rooted(heads[i], Extended(shapes[i], last, e, shapes[j]), cache.gStrHash)
      ensures forall n :: cache.Count(n) == old(cache.Count(n)) + One(name, n)
    {
      assert Rooted(heads[j], shapes[j], cache.gStrHash) && Rooted(heads[i], shapes[i], cache.gStrHash);
      ghost var u, n := AddValue(cache, heads[i], name, ARG_ARGLIST, length, Pointer(heads[j]), shapes[i], shapes[j]);
      AttachedTree(shapes, i, n, e, j);
      last := n;
    }

    /** The pointer that a caller finds under that name, when it leads to a list. */
    method NestedList(i: nat, name: string) returns (kid: seq<Cell>)
      requires Valid() && i < |shapes|
      ensures KidAt(shapes[i], Find(shapes[i].entries, name), kid, cache.gStrHash)
    {
      ghost var t, k := shapes[i], Find(shapes[i].entries, name);
      assert Rooted(heads[i], t, cache.gStrHash);
      var c := Get(heads[i], name, cache.gStrHash, t);
      kid := [];
      if c != null {
        At(t, k, cache.gStrHash);
        if c.value.Pointer? {
          KidRooted(t, k, cache.gStrHash);
          kid := [c.value.head];
        }
      }
    }

    /** arg_set_value with a value that is no list; a list it replaces stays in memory. */
    method SetPlain(i: nat, name: string, length: int, value: Value) returns (hs: seq<Cell>, ghost ts: seq<Shape>)
      requires Valid() && Possible(Forest(shapes), Call.Set(i, name, length, value))
      modifies shapes[i].cells
      ensures cache.Valid() && AllRooted(hs, ts, cache.gStrHash)
      ensures Forest(ts) == ForestAfter(Forest(shapes), Call.Set(i, name, length, value))
      ensures forall n :: cache.Count(n) == old(cache.Count(n))
      ensures Feet(ts) <= Feet(shapes)
    {
      var kid;
      ghost var u;
      kid, u := Overwritten(i, name, length, value);
      hs := heads + kid;
      ts := SetRooted(heads, shapes, i, u, name, length, value, kid, cache.gStrHash);
    }

    method Overwritten(i: nat, name: string, length: int, value: Value) returns (kid: seq<Cell>, ghost u: Shape)
      requires Valid() && Possible(Forest(shapes), Call.Set(i, name, length, value))
      modifies shapes[i].cells
      ensures cache.Valid() && forall n :: cache.Count(n) == old(cache.Count(n))
      ensures OthersRooted(heads, shapes, i, cache.gStrHash)
      ensures KidAt(shapes[i], Find(shapes[i].entries, name), kid, cache.gStrHash)
      ensures Rooted(heads[i], u, cache.gStrHash) && u.entries == Updated(shapes[i].entries, name, length, value)
      ensures Laid(shapes[i])
      ensures if Find(shapes[i].entries, name) < |shapes[i].entries|
              then PartOf(u, shapes[i], Find(shapes[i].entries, name)) && u.foot == shapes[i].foot else u == shapes[i]
    {
      kid := NestedList(i, name);
      assert Rooted(heads[i], shapes[i], cache.gStrHash);
      UpdatedParts(shapes[i], name, length, value);
      u := SetNamedBesides(i, name, length, value, kid);
    }

    method SetNamedBesides(i: nat, name: string, length: int, value: Value, ghost kid: seq<Cell>) returns (ghost u: Shape)
      requires Valid() && Possible(Forest(shapes), Call.Set(i, name, length, value))
      requires KidAt(shapes[i], Find(shapes[i].entries, name), kid, cache.gStrHash)
      modifies shapes[i].cells
      ensures cache.Valid() && forall n :: cache.Count(n) == old(cache.Count(n))
      ensures OthersRooted(heads, shapes, i, cache.gStrHash)
      ensures KidAt(shapes[i], Find(shapes[i].entries, name), kid, cache.gStrHash)
      ensures Laid(shapes[i]) && u == UpdatedShape(shapes[i], name, length, value)
      ensures InMemory(u, cache.gStrHash) && u.cells[0] == heads[i]
    {
      assert Rooted(heads[i], shapes[i], cache.gStrHash);
      RowApart(shapes[i], Find(shapes[i].entries, name));
      u := SetNamed(i, name, length, value);
    }

    method SetNamed(i: nat, name: string, length: int, value: Value) returns (ghost u: Shape)
      requires Valid() && Possible(Forest(shapes), Call.Set(i, name, length, value))
      modifies shapes[i].cells
      ensures cache.Valid() && forall n :: cache.Count(n) == old(cache.Count(n))
      ensures Laid(shapes[i]) && u == UpdatedShape(shapes[i], name, length, value)
      ensures InMemory(u, cache.gStrHash) && u.cells[0] == heads[i]
    {
      assert Rooted(heads[i], shapes[i], cache.gStrHash);
      ghost var k := Find(shapes[i].entries, name);
      assert k < |shapes[i].entries| && shapes[i].entries[k].kind == ARG_STRUCT ==> value.bytes[..length] == value.bytes;
      var ret;
      ret, u := SetValue(heads[i], name, length, Plain(value), cache.gStrHash, shapes[i], NO_LIST);
    }

    /** arg_set_value with one of the lists as the value; a list it replaces stays in memory. */
    method SetList(i: nat, name: string, length: int, j: nat) returns (hs: seq<Cell>, ghost ts: seq<Shape>)
      requires Valid() && Possible(Forest(shapes), SetSub(i, name, length, j))
      modifies shapes[i].cells
      ensures cache.Valid() && AllRooted(hs, ts, cache.gStrHash)
      ensures Forest(ts) == ForestAfter(Forest(shapes), SetSub(i, name, length, j))
      ensures forall n :: cache.Count(n) == old(cache.Count(n))
      ensures Feet(ts) <= Feet(shapes)
    {
      var kid, ret := OverwrittenByList(i, name, length, j);
      if ret == 0 {
        hs := Remove(heads, j) + kid;
        ts := ListNested(heads, shapes, i, name, length, j, kid, cache.gStrHash);
      } else {
        hs, ts := heads, shapes;
      }
    }

    method OverwrittenByList(i: nat, name: string, length: int, j: nat) returns (kid: seq<Cell>, ret: int)
      requires Valid() && Possible(Forest(shapes), SetSub(i, name, length, j))
      modifies shapes[i].cells
      ensures cache.Valid() && forall n :: cache.Count(n) == old(cache.Count(n))
      ensures OthersRooted(heads, shapes, i, cache.gStrHash) && Laid(shapes[i])
      ensures KidAt(shapes[i], Find(shapes[i].entries, name), kid, cache.gStrHash)
      ensures ret == if Find(shapes[i].entries, name) < |shapes[i].entries| then 0 else -1
      ensures Rooted(heads[i], NestedShape(shapes[i], name, length, shapes[j]), cache.gStrHash)
    {
      kid := NestedList(i, name);
      assert Rooted(heads[i], shapes[i], cache.gStrHash) && Rooted(heads[j], shapes[j], cache.gStrHash);
      NestedShapeParts(shapes[i], name, length, shapes[j]);
      ret := SetNamedListBesides(i, name, length, j, kid);
    }

    method SetNamedListBesides(i: nat, name: string, length: int, j: nat, ghost kid: seq<Cell>) returns (ret: int)
      requires Valid() && Possible(Forest(shapes), SetSub(i, name, length, j))
      requires KidAt(shapes[i], Find(shapes[i].entries, name), kid, cache.gStrHash)
      modifies shapes[i].cells
      ensures cache.Valid() && forall n :: cache.Count(n) == old(cache.Count(n))
      ensures OthersRooted(heads, shapes, i, cache.gStrHash)
      ensures KidAt(shapes[i], Find(shapes[i].entries, name), kid, cache.gStrHash)
      ensures Laid(shapes[i]) && shapes[i].cells[0] == heads[i]
      ensures ret == if Find(shapes[i].entries, name) < |shapes[i].entries| then 0 else -1
      ensures InMemory(NestedShape(shapes[i], name, length, shapes[j]), cache.gStrHash)
    {
      assert Rooted(heads[i], shapes[i], cache.gStrHash);
      RowApart(shapes[i], Find(shapes[i].entries, name));
      ret := SetNamedList(i, name, length, j);
    }

    method SetNamedList(i: nat, name: string, length: int, j: nat) returns (ret: int)
      requires Valid() && Possible(Forest(shapes), SetSub(i, name, length, j))
      modifies shapes[i].cells
      ensures cache.Valid() && forall n :: cache.Count(n) == old(cache.Count(n))
      ensures Laid(shapes[i]) && shapes[i].cells[0] == heads[i]
      ensures ret == if Find(shapes[i].entries, name) < |shapes[i].entries| then 0 else -1
      ensures InMemory(NestedShape(shapes[i], name, length, shapes[j]), cache.gStrHash)
    {
      assert Rooted(heads[i], shapes[i], cache.gStrHash) && Rooted(heads[j], shapes[j], cache.gStrHash);
      ghost var u;
      ret, u := SetValue(heads[i], name, length, Pointer(heads[j]), cache.gStrHash, shapes[i], shapes[j]);
    }

    /** arg_del_value; a list nested in the deleted entry stays in memory. */
    method Delete(i: nat, name: string) returns (hs: seq<Cell>, ghost ts: seq<Shape>)
      requires Valid() && Possible(Forest(shapes), Del(i, name))
      modifies shapes[i].cells, cache.table, set x: Node | x.bucket in cache.table
      ensures cache.Valid() && AllRooted(hs, ts, cache.gStrHash)
      ensures Forest(ts) == ForestAfter(Forest(shapes), Del(i, name))
      ensures forall n :: cache.Count(n) == old(cache.Count(n)) + Change(Forest(shapes), Del(i, name), n)
      ensures Feet(ts) <= Feet(shapes)
    {
      ChangeOfDel(Forest(shapes), i, name);
      var kid;
      ghost var u;
      kid, u := Deleted(i, name);
      hs := heads + kid;
      ts := DeletedRooted(heads, shapes, i, u, name, kid, cache.gStrHash);
    }

    method Deleted(i: nat, name: string) returns (kid: seq<Cell>, ghost u: Shape)
      requires Valid() && i < |shapes|
      modifies shapes[i].cells, cache.table, set x: Node | x.bucket in cache.table
      ensures cache.Valid()
      ensures Find(shapes[i].entries, name) == |shapes[i].entries| ==> forall n :: cache.Count(n) == old(cache.Count(n))
      ensures Find(shapes[i].entries, name) < |shapes[i].entries| ==>
        forall n :: cache.Count(n) == old(cache.Count(n)) - One(name, n)
      ensures OthersRooted(heads, shapes, i, cache.gStrHash)
      ensures KidAt(shapes[i], Find(shapes[i].entries, name), kid, cache.gStrHash)
      ensures Rooted(heads[i], u, cache.gStrHash) && u.entries == ArgTrees.Delete(shapes[i].entries, name)
      ensures Laid(shapes[i])
      ensures if Find(shapes[i].entries, name) < |shapes[i].entries|
              then PartOf(u, shapes[i], Find(shapes[i].entries, name)) && u.foot <= shapes[i].foot else u == shapes[i]
    {
      kid := NestedList(i, name);
      assert Rooted(heads[i], shapes[i], cache.gStrHash);
      WithoutNamedParts(shapes[i], name);
      u := DeletedBesides(i, name, kid);
    }

    method DeletedBesides(i: nat, name: string, ghost kid: seq<Cell>) returns (ghost u: Shape)
      requires Valid() && i < |shapes|
      requires KidAt(shapes[i], Find(shapes[i].entries, name), kid, cache.gStrHash)
      modifies shapes[i].cells, cache.table, set x: Node | x.bucket in cache.table
      ensures cache.Valid()
      ensures Find(shapes[i].entries, name) == |shapes[i].entries| ==> forall n :: cache.Count(n) == old(cache.Count(n))
      ensures Find(shapes[i].entries, name) < |shapes[i].entries| ==>
        forall n :: cache.Count(n) == old(cache.Count(n)) - One(name, n)
      ensures OthersRooted(heads, shapes, i, cache.gStrHash)
      ensures KidAt(shapes[i], Find(shapes[i].entries, name), kid, cache.gStrHash)
      ensures Laid(shapes[i]) && u == WithoutNamed(shapes[i], name)
      ensures u.entries == ArgTrees.Delete(shapes[i].entries, name)
      ensures InMemory(u, cache.gStrHash) && u.cells[0] == heads[i]
    {
      assert Rooted(heads[i], shapes[i], cache.gStrHash);
      RowApart(shapes[i], Find(shapes[i].entries, name));
      u := DeleteNamed(i, name);
    }

    method DeleteNamed(i: nat, name: string) returns (ghost u: Shape)
      requires Valid() && i < |shapes|
      modifies shapes[i].cells, cache.table, set x: Node | x.bucket in cache.table
      ensures cache.Valid()
      ensures Find(shapes[i].entries, name) == |shapes[i].entries| ==> forall n :: cache.Count(n) == old(cache.Count(n))
      ensures Find(shapes[i].entries, name) < |shapes[i].entries| ==>
        forall n :: cache.Count(n) == old(cache.Count(n)) - One(name, n)
      ensures Laid(shapes[i]) && u == WithoutNamed(shapes[i], name)
      ensures u.entries == ArgTrees.Delete(shapes[i].entries, name)
      ensures InMemory(u, cache.gStrHash) && u.cells[0] == heads[i]
    {
      assert Rooted(heads[i], shapes[i], cache.gStrHash);
      MayDelete(i, name);
      u := DelValue(cache, heads[i], name, shapes[i]);
    }

    lemma {:induction false} MayDelete(i: nat, name: string)
      requires Valid() && i < |shapes|
      ensures Find(shapes[i].entries, name) < |shapes[i].entries| ==> cache.Count(name) > 0
    {
      if Find(shapes[i].entries, name) < |shapes[i].entries| {
        NamedIsCounted(shapes[i].entries, name);
        CountedInAll(Forest(shapes), i, name);
      }
    }

    /** arg_dup into a new list. */
    method Duplicate(i: nat) returns (hs: seq<Cell>, ghost ts: seq<Shape>)
      requires Valid() && i < |shapes|
      modifies cache.table, set x: Node | x.bucket in cache.table
      ensures cache.Valid() && AllRooted(hs, ts, cache.gStrHash)
      ensures Forest(ts) == ForestAfter(Forest(shapes), Call.Dup(i))
      ensures forall n :: cache.Count(n) == old(cache.Count(n)) + Change(Forest(shapes), Call.Dup(i), n)
      ensures forall c :: c in Feet(ts) && c !in Feet(shapes) ==> fresh(c)
    {
      assert Rooted(heads[i], shapes[i], cache.gStrHash);
      TypedCopy(shapes[i].entries);
      var head;
      ghost var u;
      head, u := DupList(cache, heads[i], shapes[i]);
      RootedAppend(heads, shapes, head, u, cache.gStrHash);
      ForestConcat(shapes, [u]);
      FeetConcat(shapes, [u]);
      hs, ts := heads + [head], shapes + [u];
    }

    /** arg_free_all */
    method FreeEverything(i: nat) returns (hs: seq<Cell>, ghost ts: seq<Shape>)
      requires Valid() && i < |shapes|
      modifies cache.table, set x: Node | x.bucket in cache.table
      ensures cache.Valid() && AllRooted(hs, ts, cache.gStrHash)
      ensures Forest(ts) == ForestAfter(Forest(shapes), Call.FreeAll(i))
      ensures forall n :: cache.Count(n) == old(cache.Count(n)) + Change(Forest(shapes), Call.FreeAll(i), n)
      ensures Feet(ts) <= Feet(shapes)
    {
      assert Rooted(heads[i], shapes[i], cache.gStrHash);
      Counted(i);
      Arglists.FreeAll(cache, heads[i], shapes[i]);
      RootedRemove(heads, shapes, i, cache.gStrHash);
      ForestRemove(shapes, i);
      FeetRemove(shapes, i);
      hs, ts := Remove(heads, i), Remove(shapes, i);
    }

    /** arg_free, after the caller took the pointers to the nested lists, which stay in memory. */
    method FreeOne(i: nat) returns (hs: seq<Cell>, ghost ts: seq<Shape>)
      requires Valid() && i < |shapes|
      modifies cache.table, set x: Node | x.bucket in cache.table
      ensures cache.Valid() && AllRooted(hs, ts, cache.gStrHash)
      ensures Forest(ts) == ForestAfter(Forest(shapes), Call.Free(i))
      ensures forall n :: cache.Count(n) == old(cache.Count(n)) + Change(Forest(shapes), Call.Free(i), n)
      ensures Feet(ts) <= Feet(shapes)
    {
      assert Rooted(heads[i], shapes[i], cache.gStrHash);
      var ks;
      ghost var us;
      ks, us := NestedLists(heads[i], cache.gStrHash, shapes[i]);
      FreeRow(i, ks, us);
      NestedBesides(heads, shapes, i, ks, us, cache.gStrHash);
      NestedForest(shapes, i, us);
      hs, ts := Remove(heads, i) + ks, Remove(shapes, i) + us;
    }

    method FreeRow(i: nat, ghost ks: seq<Cell>, ghost us: seq<Shape>)
      requires Valid() && i < |shapes| && AllRooted(ks, us, cache.gStrHash)
      modifies cache.table, set x: Node | x.bucket in cache.table
      ensures cache.Valid() && AllRooted(heads, shapes, cache.gStrHash) && AllRooted(ks, us, cache.gStrHash)
      ensures forall n :: cache.Count(n) == old(cache.Count(n)) - OwnCarriers(shapes[i].entries, n)
    {
      assert Rooted(heads[i], shapes[i], cache.gStrHash);
      Counted(i);
      IsRow(shapes[i], cache.gStrHash);
      Arglists.Free(cache, heads[i], shapes[i].cells, shapes[i].entries);
    }

    /** One call. */
    method Perform(c: Call)
      requires Valid() && Possible(Forest(shapes), c)
      modifies this, Feet(shapes), cache.table, set x: Node | x.bucket in cache.table
      ensures Valid() && Forest(shapes) == ForestAfter(old(Forest(shapes)), c)
      ensures forall x :: x in Feet(shapes) && x !in old(Feet(shapes)) ==> fresh(x)
    {
      var hs;
      ghost var ts;
      hs, ts := Compute(c);
      ChangesBalanced(Forest(shapes), c);
      Keep(hs, ts);
    }

    method Keep(hs: seq<Cell>, ghost ts: seq<Shape>)
      requires cache.Valid() && AllRooted(hs, ts, cache.gStrHash)
      requires forall n :: cache.Count(n) == AllCarriers(Forest(ts), n)
      modifies this
      ensures Valid() && shapes == ts
    {
      heads, shapes := hs, ts;
    }

    method Compute(c: Call) returns (hs: seq<Cell>, ghost ts: seq<Shape>)
      requires Valid() && Possible(Forest(shapes), c)
      modifies Feet(shapes), cache.table, set x: Node | x.bucket in cache.table
      ensures cache.Valid() && AllRooted(hs, ts, cache.gStrHash)
      ensures Forest(ts) == ForestAfter(Forest(shapes), c)
      ensures forall n :: cache.Count(n) == old(cache.Count(n)) + Change(Forest(shapes), c, n)
      ensures forall x :: x in Feet(ts) && x !in Feet(shapes) ==> fresh(x)
    {
      match c
      case NewList => hs, ts := AddList();
      case Add(i, e) => hs, ts := AddPlain(i, e);
      case AddSub(i, name, length, j) => hs, ts := AddSubList(i, name, length, j);
      case Set(i, name, length, value) => hs, ts := SetPlain(i, name, length, value);
      case SetSub(i, name, length, j) => hs, ts := SetList(i, name, length, j);
      case Del(i, name) => hs, ts := Delete(i, name);
      case Dup(i) => hs, ts := Duplicate(i);
      case Free(i) => hs, ts := FreeOne(i);
      case FreeAll(i) => hs, ts := FreeEverything(i);
    }

    /** Any sequence of calls: each name is counted once for every cell that carries it, in all lists there are. */
    method Run(calls: seq<Call>)
      requires Valid() && AllPossible(Forest(shapes), calls)
      modifies this, Feet(shapes), cache.table, set x: Node | x.bucket in cache.table
      ensures Valid() && Forest(shapes) == ForestAfterAll(old(Forest(shapes)), calls)
    {
      var i := 0;
      while i < |calls|
        invariant 0 <= i <= |calls| && Valid() && AllPossible(Forest(shapes), calls[i..])
        invariant ForestAfterAll(Forest(shapes), calls[i..]) == ForestAfterAll(old(Forest(shapes)), calls)
        invariant forall x :: x in Feet(shapes) && x !in old(Feet(shapes)) ==> fresh(x)
      {
        assert calls[i..][1..] == calls[i + 1..];
        Perform(calls[i]);
        i := i + 1;
      }
    }
  }

  /** From an empty cache on: after any calls each name is counted once for every cell that carries it. */
  method History(gStrHash: string -> nat, calls: seq<Call>) returns (store: Store)
    requires AllPossible([], calls)
    ensures store.Valid() && Forest(store.shapes) == ForestAfterAll([], calls)
    ensures forall n :: store.cache.Count(n) == AllCarriers(ForestAfterAll([], calls), n)
  {
    store := new Store(gStrHash);
    store.Run(calls);
  }

  // ----- the lists nested in a list

  /** The pointers to the lists nested in a list. */
  method NestedLists(arg: Cell, gStrHash: string -> nat, ghost t: Shape) returns (ks: seq<Cell>, ghost us: seq<Shape>)
    requires Rooted(arg, t, gStrHash)
    ensures AllRooted(ks, us, gStrHash) && Forest(us) == Subs(t.entries)
    ensures forall m :: 0 <= m < |us| ==> us[m].foot <= t.foot
  {
    var c := arg;
    ks, us := [], [];
    ghost var i := 0;
    At(t, 0, gStrHash);
    while c.next != null
      invariant 0 <= i <= |t.entries| && c == t.cells[i] && (c.next == null <==> i == |t.entries|)
      invariant AllRooted(ks, us, gStrHash) && Forest(us) == Subs(t.entries[..i])
      invariant forall m :: 0 <= m < |us| ==> us[m].foot <= t.foot
      invariant forall m, j :: 0 <= m < |us| && i <= j < |t.kids| ==> us[m].foot !! t.kids[j].foot
      decreases |t.entries| - i
    {
      ks, us := TakeNested(c, gStrHash, t, i, ks, us);
      c := Next(c, t, i, gStrHash);
      i := i + 1;
    }
    assert t.entries[..i] == t.entries;
  }

  method TakeNested(c: Cell, gStrHash: string -> nat, ghost t: Shape, ghost i: nat, ks: seq<Cell>, ghost us: seq<Shape>)
    returns (ks': seq<Cell>, ghost us': seq<Shape>)
    requires InMemory(t, gStrHash) && Tree(t) && WellTyped(t.entries) && i < |t.entries| && c == t.cells[i]
    requires AllRooted(ks, us, gStrHash) && Forest(us) == Subs(t.entries[..i])
    requires forall m :: 0 <= m < |us| ==> us[m].foot <= t.foot
    requires forall m, j :: 0 <= m < |us| && i <= j < |t.kids| ==> us[m].foot !! t.kids[j].foot
    ensures AllRooted(ks', us', gStrHash) && Forest(us') == Subs(t.entries[..i + 1])
    ensures forall m :: 0 <= m < |us'| ==> us'[m].foot <= t.foot
    ensures forall m, j :: 0 <= m < |us'| && i < j < |t.kids| ==> us'[m].foot !! t.kids[j].foot
  {
    At(t, i, gStrHash);
    SubsStep(t.entries, i);
    ks', us' := ks, us;
    if c.value.Pointer? {
      KidRooted(t, i, gStrHash);
      RootedAppend(ks, us, c.value.head, t.kids[i], gStrHash);
      ForestConcat(us, [t.kids[i]]);
      ks', us' := ks + [c.value.head], us + [t.kids[i]];
    }
  }

  lemma {:induction false} SubsStep(l: seq<Entry>, i: nat)
    requires i < |l|
    ensures Subs(l[..i + 1]) == Subs(l[..i]) + Detached(l[i].value)
  {
    assert l[..i + 1][..i] == l[..i];
  }

  lemma {:induction false} NestedBesides(heads: seq<Cell>, ts: seq<Shape>, i: nat, ks: seq<Cell>, us: seq<Shape>, gStrHash: string -> nat)
    requires AllRooted(heads, ts, gStrHash) && i < |ts| && AllRooted(ks, us, gStrHash)
    requires forall m :: 0 <= m < |us| ==> us[m].foot <= ts[i].foot
    ensures AllRooted(Remove(heads, i) + ks, Remove(ts, i) + us, gStrHash)
  {
    RootedRemove(heads, ts, i, gStrHash);
    var rs := Remove(ts, i);
    forall k, m | 0 <= k < |rs| && 0 <= m < |us| ensures rs[k].foot !! us[m].foot {
      assert rs[k] == ts[if k < i then k else k + 1];
    }
    RootedConcat(Remove(heads, i), rs, ks, us, gStrHash);
  }

  lemma {:induction false} NestedForest(ts: seq<Shape>, i: nat, us: seq<Shape>)
    requires i < |ts| && Forest(us) == Subs(ts[i].entries) && forall m :: 0 <= m < |us| ==> us[m].foot <= ts[i].foot
    ensures Forest(Remove(ts, i) + us) == Remove(Forest(ts), i) + Subs(ts[i].entries)
    ensures Feet(Remove(ts, i) + us) <= Feet(ts)
  {
    ForestRemove(ts, i);
    FeetRemove(ts, i);
    ForestConcat(Remove(ts, i), us);
    FeetConcat(Remove(ts, i), us);
    FootInFeet(ts, i);
    assert forall c :: c in Feet(us) ==> c in ts[i].foot;
  }

  // ----- a copy that is freed

  /** arg_dup, and then arg_free_all of the copy: the list and every count are as before. */
  method DupThenFreeAll(cache: Cache, src: Cell, ghost t: Shape)
    requires cache.Valid() && InMemory(t, cache.gStrHash) && t.cells[0] == src && WellTyped(t.entries)
    modifies cache.table, set x: Node | x.bucket in cache.table
    ensures cache.Valid() && InMemory(t, cache.gStrHash)
    ensures forall n :: cache.Count(n) == old(cache.Count(n))
  {
    var copy := new Cell();
    cache.CountNotNegative();
    ghost var u := Arglists.Dup(cache, copy, src, t);
    Arglists.FreeAll(cache, copy, u);
  }
}
