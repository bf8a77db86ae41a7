/**
 The shared cache of argument names (misc/arglists.c): a hash table of doubly linked,
 reference-counted nodes, updated in place.
 */
module NameCache {
  const HASH_MAX: nat := 2713

  /** mkhash, for any hash function g_str_hash. */
  function MkHash(gStrHash: string -> nat, name: string): (h: nat)
    ensures h < HASH_MAX
  {
    gStrHash(name) % HASH_MAX
  }

  /** A struct name_cache inside a chain. */
  class Node {
    ghost const bucket: Bucket
    ghost const rank: int      // grows along the chain
    var name: string
    var occurences: int
    var next: Node?
    var prev: Node?

    constructor (ghost bucket: Bucket, ghost rank: int, name: string, next: Node?)
      ensures this.bucket == bucket && this.rank == rank
      ensures this.name == name && occurences == 1 && this.next == next && prev == null
    {
      this.bucket, this.rank := bucket, rank;
      this.name, occurences, this.next, prev := name, 1, next, null;
    }
  }

  ghost predicate Before(x: Node, y: Node) {
    x.rank < y.rank
  }

  /** The struct name_cache at the head of a chain: an entry of the table. */
  class Bucket {
    var next: Node?
    ghost const gStrHash: string -> nat
    ghost const slot: int                // its place in the table
    ghost var nodes: set<Node>           // the chain
    ghost var index: map<string, Node>   // the node of each name

    /** The nodes hang together: next and prev are inverse, and following next from the head meets every node. */
    ghost predicate Linked()
      reads `next, `nodes, nodes`next, nodes`prev
    {
      && (next == null <==> nodes == {})
      && (next != null ==> next in nodes && next.prev == null)
      && (forall x :: x in nodes ==> x.bucket == this)
      && (forall x {:trigger x.next} :: x in nodes && x.next != null ==>
            x.next in nodes && x.next.prev == x && Before(x, x.next))
      && (forall x {:trigger x.prev} :: x in nodes ==>
            if x.prev == null then x == next else x.prev in nodes && x.prev.next == x)
      && (forall x, y {:trigger Before(x, y)} :: x in nodes && y in nodes && Before(x, y) ==>
            x.next != null && x.next.rank <= y.rank)
      && (forall x, y {:trigger Before(x, y)} :: x in nodes && y in nodes && x.rank == y.rank ==> Before(x, y) || x == y)
      && (forall y :: next != null && y in nodes ==> next.rank <= y.rank)
    }

    /** The index lists each node under its own name, which hashes to this bucket. */
    ghost predicate Indexed()
      reads `nodes, `index, nodes`name, nodes`occurences
    {
      && (forall n :: n in index ==>
            index[n] in nodes && index[n].name == n && index[n].occurences > 0 && MkHash(gStrHash, n) == slot)
      && (forall x :: x in nodes ==> x.name in index && index[x.name] == x)
    }

    /** How often a name is held. */
    ghost function Count(name: string): int
      reads `nodes, `index, nodes`occurences
    {
      if name in index && index[name] in nodes then index[name].occurences else 0
    }

    ghost predicate Valid()
      reads this, nodes
    {
      Linked() && Indexed()
    }

    constructor (ghost gStrHash: string -> nat, ghost slot: int)
      ensures Valid() && nodes == {} && index == map[] && this.slot == slot && this.gStrHash == gStrHash
    {
      this.gStrHash, this.slot := gStrHash, slot;
      next, nodes, index := null, {}, map[];
    }

    /** cache_get_name: the one node with that name, if it is held. */
    method GetName(name: string) returns (nc: Node?)
      requires Valid()
      ensures nc == if name in index then index[name] else null
      ensures nc == null <==> Count(name) == 0
    {
      nc := next;
      ghost var left := nodes;
      while nc != null
        invariant nc != null ==> nc in nodes
        invariant forall x :: x in left <==> x in nodes && nc != null && nc.rank <= x.rank
        invariant forall x :: x in nodes && x !in left ==> x.name != name
        decreases left
      {
        if nc.name == name {
          return;
        }
        forall x | x in nodes && Before(nc, x) ensures nc.next != null && nc.next.rank <= x.rank {}
        left := left - {nc};
        nc := nc.next;
      }
    }

    /** A new node in front of the chain. */
    method PushFront(name: string) returns (nc: Node)
      requires Linked()
      modifies `next, `nodes, if next == null then {} else {next}`prev
      ensures fresh(nc) && nc.name == name && nc.occurences == 1
      ensures Linked() && nodes == old(nodes) + {nc}
    {
      nc := new Node(this, if next == null then 0 else next.rank - 1, name, next);
      if next != null {
        next.prev := nc;
      }
      next := nc;
      nodes := nodes + {nc};
    }

    /** cache_add_name */
    method AddName(name: string) returns (nc: Node)
      requires Valid() && name !in index && MkHash(gStrHash, name) == slot
      modifies this, nodes`prev
      ensures Valid()
      ensures fresh(nc) && nc.name == name && nodes == old(nodes) + {nc} && index == old(index)[name := nc]
      ensures forall n :: Count(n) == old(Count(n)) + if n == name then 1 else 0
    {
      nc := PushFront(name);
      File(nc);
    }

    /** The index lists each node but nc. */
    ghost predicate IndexedBut(nc: Node)
      reads `nodes, `index, nodes`name, nodes`occurences
    {
      && (forall n :: n in index ==>
            index[n] in nodes && index[n] != nc && index[n].name == n && index[n].occurences > 0 && MkHash(gStrHash, n) == slot)
      && (forall x :: x in nodes && x != nc ==> x.name in index && index[x.name] == x)
    }

    /** Lists a new node. */
    ghost method File(nc: Node)
      requires Linked() && IndexedBut(nc) && nc in nodes && nc.name !in index
      requires nc.occurences == 1 && MkHash(gStrHash, nc.name) == slot
      modifies `index
      ensures Valid() && index == old(index)[nc.name := nc]
      ensures forall n :: Count(n) == old(Count(n)) + if n == nc.name then 1 else 0
    {
      index := index[nc.name := nc];
    }

    method Increment(nc: Node)
      requires Valid() && nc in nodes
      modifies nc`occurences
      ensures Valid()
      ensures forall n :: Count(n) == old(Count(n)) + if n == nc.name then 1 else 0
    {
      nc.occurences := nc.occurences + 1;
    }

    /** The only node of a chain. */
    lemma {:induction false} Alone(nc: Node)
      requires Linked() && nc in nodes && nc.prev == null && nc.next == null
      ensures nodes == {nc}
    {
      forall y | y in nodes ensures y == nc {
        assert nc.rank <= y.rank && !Before(nc, y);
      }
    }

    /** Takes a node out of the chain. */
    method Unlink(nc: Node)
      requires Linked() && nc in nodes
      modifies `next, `nodes, if nc.next == null then {} else {nc.next}`prev, if nc.prev == null then {} else {nc.prev}`next
      ensures Linked() && nodes == old(nodes) - {nc}
    {
      ghost var p := nc.prev;
      if p == null && nc.next == null {
        Alone(nc);
      }
      forall y | y in nodes && Before(nc, y) ensures nc.next != null && nc.next.rank <= y.rank {}
      forall y | p != null && y in nodes && Before(p, y) ensures nc.rank <= y.rank {}
      if nc.next != null {
        nc.next.prev := nc.prev;
      }
      if nc.prev != null {
        nc.prev.next := nc.next;
      } else {
        next := nc.next;
      }
      nodes := nodes - {nc};
      assert nc.next != null ==> nc.next in nodes;
      assert p != null ==> p in nodes;
      assert p == null && nc.next == null ==> nodes == {};
    }

    /** The end of cache_dec: the node is unlinked exactly when its name is no longer held. */
    method Decrement(nc: Node)
      requires Valid() && nc in nodes
      modifies this, nodes`next, nodes`prev, nc`occurences
      ensures Valid()
      ensures forall n :: Count(n) == old(Count(n)) - if n == nc.name then 1 else 0
      ensures if nc.name in index then nodes == old(nodes) && index == old(index)
              else nodes == old(nodes) - {nc} && index == old(index) - {nc.name}
    {
      nc.occurences := nc.occurences - 1;
      if nc.occurences == 0 {
        Drop(nc);
      }
    }

    /** The index lists each node, and only nc is not held. */
    ghost predicate IndexedUnheld(nc: Node)
      reads `nodes, `index, nodes`name, nodes`occurences
    {
      && (forall n :: n in index ==>
            && index[n] in nodes && index[n].name == n && MkHash(gStrHash, n) == slot
            && if index[n] == nc then nc.occurences == 0 else index[n].occurences > 0)
      && (forall x :: x in nodes ==> x.name in index && index[x.name] == x)
    }

    /** Unlinks a node that is not held any more. */
    method Drop(nc: Node)
      requires Linked() && nc in nodes && IndexedUnheld(nc)
      modifies this, nodes`next, nodes`prev
      ensures Valid() && nodes == old(nodes) - {nc} && index == old(index) - {nc.name}
      ensures forall n :: Count(n) == old(Count(n))
    {
      Unlink(nc);
      index := index - {nc.name};
    }

    /** cache_inc on its bucket. */
    method Inc(name: string) returns (nc: Node)
      requires Valid() && MkHash(gStrHash, name) == slot
      modifies this, nodes
      ensures Valid() && nc in nodes && nc.name == name
      ensures fresh(nodes - old(nodes))
      ensures index.Keys == old(index).Keys + {name}
      ensures forall n :: Count(n) == old(Count(n)) + if n == name then 1 else 0
    {
      var found := GetName(name);
      if found != null {
        nc := found;
        Increment(nc);
      } else {
        nc := AddName(name);
      }
    }

    /** cache_dec on its bucket. */
    method Dec(name: string)
      requires Valid()
      modifies this, nodes
      ensures Valid()
      ensures nodes <= old(nodes) && index.Keys <= old(index).Keys
      ensures forall n :: Count(n) == old(Count(n)) - if n == name && old(Count(n)) > 0 then 1 else 0
    {
      var nc := GetName(name);
      if nc != null {
        Decrement(nc);
      }
    }
  }

  /** The static table of misc/arglists.c, for any hash function. */
  class Cache {
    const gStrHash: string -> nat
    const table: seq<Bucket>

    ghost function Nodes(): set<Node>
      reads table
    {
      set b, x | b in table && x in b.nodes :: x
    }

    /** Every bucket is a chain, and every name is filed under its hash. */
    ghost predicate Valid()
      reads table, Nodes()
    {
      && |table| == HASH_MAX + 1
      && (forall h :: 0 <= h < |table| ==> table[h].slot == h && table[h].gStrHash == gStrHash && table[h].Valid())
    }

    /** How often a name is held by live cells. */
    ghost function Count(name: string): int
      requires |table| == HASH_MAX + 1
      reads table[MkHash(gStrHash, name)], table[MkHash(gStrHash, name)].nodes
    {
      table[MkHash(gStrHash, name)].Count(name)
    }

    constructor (gStrHash: string -> nat)
      ensures Valid() && this.gStrHash == gStrHash && fresh(table) && Nodes() == {}
      ensures forall n :: Count(n) == 0
    {
      this.gStrHash := gStrHash;
      var t: seq<Bucket> := [];
      while |t| < HASH_MAX + 1
        invariant |t| <= HASH_MAX + 1 && fresh(t)
        invariant forall h :: 0 <= h < |t| ==> t[h].Valid() && t[h].nodes == {} && t[h].index == map[] && t[h].slot == h && t[h].gStrHash == gStrHash
      {
        var b := new Bucket(gStrHash, |t|);
        t := t + [b];
      }
      table := t;
    }

    lemma {:induction false} CountNotNegative()
      requires Valid()
      ensures forall n :: Count(n) >= 0
    {
    }

    /** cache_inc: one more cell holds the name. */
    method Inc(name: string) returns (r: string)
      requires Valid()
      modifies table, set x: Node | x.bucket in table
      ensures Valid() && r == name
      ensures forall n :: Count(n) == old(Count(n)) + if n == name then 1 else 0
    {
      var nc := table[MkHash(gStrHash, name)].Inc(name);
      r := nc.name;
    }

    /** cache_dec: one cell less holds the name. */
    method Dec(name: string)
      requires Valid()
      modifies table, set x: Node | x.bucket in table
      ensures Valid()
      ensures forall n :: Count(n) == old(Count(n)) - if n == name && old(Count(n)) > 0 then 1 else 0
    {
      table[MkHash(gStrHash, name)].Dec(name);
    }
  }
}
