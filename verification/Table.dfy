/** The hash table of table.c: pointer chains, a free list cut from slabs, deletion deferred
    while an iteration is under way. */
module Table {
  import opened Octets
  import opened TableSpec
  import opened TableIterate
  import opened TableRuns

  class Node {
    var key: Datum
    var value: Datum
    var deleted: bool
    var next: Node?
    /** The chain the node is on; FREE on the free list, HELD between the two. */
    ghost var home: int
    /** How many nodes follow it there. */
    ghost var rank: int

    constructor ()
      ensures key == [] && value == [] && !deleted && next == null && home == HELD
    {
      key, value, deleted, next := [], [], false, null;
      home, rank := HELD, 0;
    }
  }

  const FREE := -1
  const HELD := -2

  /** The nodes of a chain, read as entries. */
  ghost function ChainView(c: seq<Node>): (v: Chain)
    reads c`key, c`value, c`deleted
    ensures |v| == |c|
    ensures forall j :: 0 <= j < |c| ==> v[j] == Entry(c[j].key, c[j].value, c[j].deleted)
  {
    if c == [] then [] else
      var last := c[|c| - 1];
      ChainView(c[..|c| - 1]) + [Entry(last.key, last.value, last.deleted)]
  }

  ghost function ViewOf(chains: seq<seq<Node>>, nodes: set<Node>): (b: Buckets)
    requires forall i, j :: 0 <= i < |chains| && 0 <= j < |chains[i]| ==> chains[i][j] in nodes
    reads nodes`key, nodes`value, nodes`deleted
    ensures |b| == |chains|
    ensures forall i :: 0 <= i < |b| ==> b[i] == ChainView(chains[i])
  {
    if chains == [] then [] else ViewOf(chains[..|chains| - 1], nodes) + [ChainView(chains[|chains| - 1])]
  }

  /** A list linked from its head. Every node knows its home and its place in the list, so the
      nodes of all lists are distinct. */
  ghost predicate Linked(head: Node?, c: seq<Node>, home: int)
    reads c`next, c`home, c`rank
  {
    && head == (if c == [] then null else c[0])
    && (forall j {:trigger c[j]} :: 0 <= j < |c| ==> c[j].home == home && c[j].rank == |c| - 1 - j)
    && (forall j {:trigger c[j].next} :: 0 <= j < |c| ==> c[j].next == if j + 1 < |c| then c[j + 1] else null)
  }

  class HashTable {
    const scheme: Scheme
    const hint: nat
    const buckets: array<Node?>
    var length: uint32
    var deleteNodes: uint32
    var inIterate: bool
    var freelist: Node?
    /** The slabs: size_alist slots, the first num_alist of them in use. */
    var alist: seq<seq<Node>>
    var numAlist: nat
    ghost var chains: seq<seq<Node>>
    ghost var free: seq<Node>
    ghost var nodes: set<Node>

    ghost predicate Owned()
      reads `chains, `free, `nodes
    {
      && (forall i, j :: 0 <= i < |chains| && 0 <= j < |chains[i]| ==> chains[i][j] in nodes)
      && (forall j :: 0 <= j < |free| ==> free[j] in nodes)
    }

    /** Every list is well linked, so that no node is on two lists or twice on one. */
    ghost predicate Shape(held: set<Node>)
      reads `chains, `free, `nodes, `freelist, buckets, nodes`next, nodes`home, nodes`rank
      ensures Shape(held) ==> Owned()
    {
      && Owned() && held <= nodes
      && 0 < |chains| == buckets.Length
      && (forall i :: 0 <= i < |chains| ==> Linked(buckets[i], chains[i], i))
      && Linked(freelist, free, FREE)
      && (forall n :: n in held ==> n.home == HELD)
    }

    /** Slab memory: every node comes from a slab in use, and each slab gave hint nodes. */
    ghost predicate Slabs()
      reads `nodes, `alist, `numAlist
    {
      && 0 < hint < TWO_32 && numAlist <= |alist|
      && nodes == SlabNodes(alist, numAlist) && |nodes| == hint * numAlist
    }

    /** The lists account for every node. */
    ghost predicate Accounted(held: nat)
      reads `chains, `free, `nodes
    {
      |nodes| == Total(chains) + |free| + held
    }

    ghost function View(): (b: Buckets)
      requires Owned()
      reads `chains, `free, `nodes, nodes`key, nodes`value, nodes`deleted
      ensures |b| == |chains|
      ensures forall i :: 0 <= i < |b| ==> b[i] == ChainView(chains[i])
    {
      ViewOf(chains, nodes)
    }

    /** Everything but the count of entries. */
    ghost predicate Sound()
      reads this, buckets, nodes
      ensures Sound() ==> Owned()
    {
      && scheme.Lawful()
      && Shape({}) && Slabs() && Accounted(0)
      && WellFormed(scheme, View()) && |chains| < 0xFFFF_FFFF
      && deleteNodes == Marked(View())
      && (!inIterate ==> deleteNodes == 0)
    }

    ghost predicate Valid()
      reads this, buckets, nodes
      ensures Valid() ==> Owned()
    {
      Sound() && length == Total(chains)
    }

    lemma SomeBuckets()
      requires Valid()
      ensures Owned() && 0 < |chains| == buckets.Length == |View()| < 0xFFFF_FFFF
    {
    }

    lemma ChainLinked(i: nat)
      requires Valid() && i < buckets.Length
      ensures Owned() && |chains| == buckets.Length == |View()| && Linked(buckets[i], chains[i], i)
      ensures View()[i] == ChainView(chains[i])
      ensures forall n :: n in chains[i] ==> n in nodes
    {
    }

    /** I2HashFetch, allowed at any time. */
    method Fetch(key: Datum) returns (r: Option<Datum>)
      requires Valid()
      ensures r == Lookup(scheme, View(), key)
    {
      hide *;
      SomeBuckets();
      var i := Slot(scheme, buckets.Length, key);
      ChainLinked(i);
      ghost var j;
      var prev, p;
      prev, p, j := WalkLive(scheme, buckets[i], key, chains[i], i);
      LookupAt(scheme, View(), key, j);
      r := if p == null then None else Some(p.value);
    }

    /** free_binding. */
    method FreeBinding(node: Node, ghost held: set<Node>)
      requires Shape(held) && node in held
      modifies `freelist, `free, node`next, node`home, node`rank
      ensures Shape(held - {node}) && free == [node] + old(free)
    {
      hide *;
      ListsLinked(held);
      node.next := freelist;
      freelist := node;
      node.home, node.rank := FREE, |free|;
      free := [node] + free;
      forall x | 0 <= x < |chains| ensures Linked(buckets[x], chains[x], x) {
        assert old(Linked(buckets[x], chains[x], x));
      }
      ChainLonger(node, old(freelist), old(free), FREE);
      ListsShape(held - {node});
    }

    /** Take a node off its chain, by way of the link p. */
    method Unlink(i: nat, prev: Node?, q: Node, ghost j: nat, ghost before: seq<seq<Node>>)
      requires before == chains && Shape({}) && i < |before| && j < |before[i]| && q == before[i][j]
      requires prev == if j == 0 then null else before[i][j - 1]
      modifies `chains, buckets, nodes`next, nodes`home, nodes`rank
      ensures chains == before[i := RemoveAt(before[i], j)]
      ensures Shape({q})
    {
      hide *;
      ListsLinked({});
      NodesApart(i, j);
      ghost var c := chains[i];
      Cut(buckets, i, prev, q, c, j);
      q.home := HELD;
      chains := chains[i := RemoveAt(c, j)];
      RemoveAtIs(c, j);
      forall x | 0 <= x < |chains| && x != i ensures Linked(buckets[x], chains[x], x) {
        assert old(Linked(buckets[x], before[x], x));
      }
      assert old(Linked(freelist, free, FREE));
      OwnedSmaller(i, RemoveAt(c, j), before);
      ListsShape({q});
    }

    /** The parts of Shape, and where every listed node says it is. */
    lemma ListsLinked(held: set<Node>)
      requires Shape(held)
      ensures held <= nodes && forall n :: n in held ==> n.home == HELD == -2
      ensures 0 < |chains| == buckets.Length && Linked(freelist, free, FREE)
      ensures forall x :: 0 <= x < |chains| ==> Linked(buckets[x], chains[x], x)
      ensures forall x, k :: 0 <= x < |chains| && 0 <= k < |chains[x]| ==>
                chains[x][k] in nodes && chains[x][k].home == x
      ensures forall k :: 0 <= k < |free| ==> free[k] in nodes && free[k].home == -1
    {
    }

    lemma ListsShape(held: set<Node>)
      requires Owned() && held <= nodes && 0 < |chains| == buckets.Length
      requires forall x :: 0 <= x < |chains| ==> Linked(buckets[x], chains[x], x)
      requires Linked(freelist, free, FREE) && forall n :: n in held ==> n.home == HELD
      ensures Shape(held)
    {
    }

    lemma OwnedSmaller(i: nat, c: seq<Node>, before: seq<seq<Node>>)
      requires i < |before| && chains == before[i := c]
      requires forall x, k :: 0 <= x < |before| && 0 <= k < |before[x]| ==> before[x][k] in nodes
      requires forall k :: 0 <= k < |c| ==> c[k] in nodes
      requires forall k :: 0 <= k < |free| ==> free[k] in nodes
      ensures Owned()
    {
    }

    /** Unlink a node and free its binding. */
    method Detach(i: nat, prev: Node?, q: Node, ghost j: nat, ghost before: seq<seq<Node>>)
      requires before == chains && Shape({}) && Accounted(0) && i < |before| && j < |before[i]| && q == before[i][j]
      requires prev == if j == 0 then null else before[i][j - 1]
      modifies `chains, `freelist, `free, buckets, nodes`next, nodes`home, nodes`rank
      ensures Shape({}) && Accounted(0)
      ensures chains == before[i := RemoveAt(before[i], j)]
      ensures Total(chains) == Total(before) - 1
    {
      hide Shape, Total, RemoveAt;
      RemoveAtIs(chains[i], j);
      TotalUpdate(chains, i, RemoveAt(chains[i], j));
      Unlink(i, prev, q, j, before);
      FreeBinding(q, {q});
      assert {q} - {q} == {};
    }

    /** In terms of entries: one less in its chain. */
    method RemoveNode(i: nat, prev: Node?, q: Node, ghost j: nat, ghost before: seq<seq<Node>>, ghost b: Buckets)
      requires before == chains && Shape({}) && Accounted(0) && i < |before| && j < |before[i]| && q == before[i][j]
      requires prev == if j == 0 then null else before[i][j - 1]
      requires b == View()
      modifies `chains, `freelist, `free, buckets, nodes`next, nodes`home, nodes`rank
      ensures Shape({}) && Accounted(0)
      ensures chains == before[i := RemoveAt(before[i], j)]
      ensures View() == b[i := RemoveAt(b[i], j)]
      ensures Total(chains) == Total(before) - 1
      ensures Marked(View()) == Marked(b) - if b[i][j].deleted then 1 else 0
    {
      hide *;
      RemoveAtIs(b[i], j);
      RemoveAtIs(before[i], j);
      MarkedUpdate(b, i, RemoveAt(b[i], j));
      MarkedInRemoved(b[i], j);
      Detach(i, prev, q, j, before);
      ShapeOwned();
      ViewIs(chains[i], RemoveAt(b[i], j));
      assert View() == b[i := RemoveAt(b[i], j)];
    }

    lemma ShapeOwned()
      requires Shape({})
      ensures Owned() && 0 < |chains| == buckets.Length
    {
    }

    /** (*p)->delete = True. */
    method MarkNode(i: nat, p: Node, ghost j: nat, ghost b: Buckets)
      requires Shape({}) && i < |chains| && j < |chains[i]| && p == chains[i][j] && !p.deleted
      requires b == View()
      modifies p`deleted
      ensures Shape({})
      ensures View() == b[i := b[i][j := b[i][j].(deleted := true)]]
      ensures Marked(View()) == Marked(b) + 1
    {
      hide *;
      ShapeOwned();
      NodesApart(i, j);
      ghost var e: Entry := b[i][j].(deleted := true);
      MarkedUpdate(b, i, b[i][j := e]);
      MarkedInReplaced(b[i], j, e);
      p.deleted := true;
      ViewIs(chains[i], b[i][j := e]);
      forall x | 0 <= x < |chains| && x != i ensures View()[x] == b[x] {
        ViewIs(chains[x], b[x]);
      }
      assert View() == b[i := b[i][j := e]];
    }

    /** A node of a chain stands nowhere else. */
    lemma NodesApart(i: nat, j: nat)
      requires Shape({}) && i < |chains| && j < |chains[i]|
      ensures forall x, k :: 0 <= x < |chains| && 0 <= k < |chains[x]| && (x != i || k != j) ==>
                chains[x][k] != chains[i][j]
    {
      assert Linked(buckets[i], chains[i], i);
      forall x, k | 0 <= x < |chains| && 0 <= k < |chains[x]| && (x != i || k != j)
        ensures chains[x][k] != chains[i][j]
      {
        assert Linked(buckets[x], chains[x], x);
      }
    }

    /** The two ways I2HashDelete ends when it has found its node. */
    method MarkFound(i: nat, p: Node, ghost j: nat, ghost key: Datum, ghost b: Buckets)
      requires Valid() && b == View() && inIterate
      requires i == Slot(scheme, |b|, key) && j == FindLive(scheme, b[i], key) < |chains[i]| && p == chains[i][j]
      modifies `deleteNodes, p`deleted
      ensures Valid() && View() == Mark(scheme, b, key)
    {
      hide *;
      Parts();
      MarkOrDelete(scheme, b, key, j);
      MarkKeepsForm(scheme, b, key);
      MarkNode(i, p, j, b);
      SameTotal(View(), chains);
      MarkedAtMostTotal(View());
      deleteNodes := deleteNodes + 1;
      Whole();
    }

    method RemoveFound(i: nat, prev: Node?, p: Node, ghost j: nat, ghost key: Datum, ghost b: Buckets)
      requires Valid() && b == View() && !inIterate
      requires i == Slot(scheme, |b|, key) && j == FindLive(scheme, b[i], key) < |chains[i]| && p == chains[i][j]
      requires prev == if j == 0 then null else chains[i][j - 1]
      modifies `chains, `freelist, `free, `length, buckets, nodes`next, nodes`home, nodes`rank
      ensures Valid() && View() == TableSpec.Delete(scheme, b, key)
    {
      hide *;
      Parts();
      MarkOrDelete(scheme, b, key, j);
      MarkedIsZero(b);
      DeleteKeepsForm(scheme, b, key);
      RemoveNode(i, prev, p, j, chains, b);
      length := length - 1;
      Whole();
    }

    /** calloc of a slab: hint fresh nodes. */
    method NewSlab() returns (t: seq<Node>)
      ensures |t| == hint
      ensures forall k :: 0 <= k < |t| ==> fresh(t[k]) && t[k].home == HELD
      ensures forall k, l :: 0 <= k < l < |t| ==> t[k] != t[l]
    {
      t := [];
      while |t| < hint
        invariant |t| <= hint
        invariant forall k :: 0 <= k < |t| ==> fresh(t[k]) && t[k].home == HELD
        invariant forall k, l :: 0 <= k < l < |t| ==> t[k] != t[l]
      {
        var n := new Node();
        t := t + [n];
      }
    }

    /** The slab half of alloc_freelist: make room in the slab array, then take a new slab. Either
        allocation may fail. */
    method GrowSlabs(reallocOk: bool, callocOk: bool) returns (ok: bool, t: seq<Node>)
      requires Slabs()
      modifies `alist, `numAlist, `nodes
      ensures Slabs() && nodes == old(nodes) + Members(t) && ok == (reallocOk && callocOk)
      ensures |t| == if ok then hint else 0
      ensures numAlist == old(numAlist) + if ok then 1 else 0
      ensures forall k :: 0 <= k < |t| ==> fresh(t[k]) && t[k].home == HELD
      ensures forall k, l :: 0 <= k < l < |t| ==> t[k] != t[l]
      ensures |nodes| == |old(nodes)| + |t|
    {
      hide SlabNodes, Members;
      t := [];
      if numAlist <= |alist| {
        if !reallocOk {
          return false, t;
        }
        alist := alist + seq(hint, _ => []);
        SlabsBelow(old(alist), alist, numAlist);
      }
      if !callocOk {
        return false, t;
      }
      t := NewSlab();
      MembersCount(t);
      ghost var before := alist;
      alist := alist[numAlist := t];
      SlabsBelow(before, alist, numAlist);
      NextSlab(alist, numAlist);
      numAlist := numAlist + 1;
      nodes := nodes + Members(t);
      assert old(nodes) !! Members(t);
      assert hint * numAlist == hint * (numAlist - 1) + hint;
      return true, t;
    }

    /** alloc_freelist: one more slab of hint nodes, chained onto the free list. The loop counter is an
        unsigned int: by LoopEnds, a hint from 2^32 on, which a valid table does not have, would not do. */
    method AllocFreelist(reallocOk: bool, callocOk: bool) returns (ok: bool)
      requires Shape({}) && Slabs() && Accounted(0)
      modifies `alist, `numAlist, `nodes, `free, `freelist
      ensures Shape({}) && Slabs() && Accounted(0)
      ensures fresh(nodes - old(nodes)) && old(nodes) <= nodes
      ensures ok == (reallocOk && callocOk)
      ensures numAlist == old(numAlist) + (if ok then 1 else 0) && |free| == |old(free)| + if ok then hint else 0
    {
      hide *;
      RoomForSlabs();
      ListsLinked({});
      NoneHeld();
      var t;
      ok, t := GrowSlabs(reallocOk, callocOk);
      assert old(Linked(freelist, free, FREE));
      ListsShape(Members(t));
      ChainSlab(t);
      AllAccounted(0);
    }

    method ChainSlab(t: seq<Node>)
      requires |t| < TWO_32 && Shape(Members(t)) && forall k, l :: 0 <= k < l < |t| ==> t[k] != t[l]
      modifies `free, `freelist, t`next, t`home, t`rank
      ensures Shape({}) && |free| == |old(free)| + |t|
    {
      var i: uint32 := 0;
      hide *;
      assert t[i..] == t;
      while i < |t|
        invariant 0 <= i <= |t| && Shape(Members(t[i..])) && |free| == |old(free)| + i
      {
        MembersRest(t, i);
        FreeBinding(t[i], Members(t[i..]));
        TickBelow(i, |t|);
        i := Tick(i);
      }
      assert t[i..] == [];
      NoMembers();
    }

    /** alloc_binding: a node off the free list, which gets a new slab when it is empty. */
    method AllocBinding(reallocOk: bool, callocOk: bool) returns (node: Node?)
      requires Shape({}) && Slabs() && Accounted(0)
      modifies `alist, `numAlist, `nodes, `free, `freelist, nodes`next, nodes`home
      ensures Slabs() && fresh(nodes - old(nodes)) && old(nodes) <= nodes
      ensures node == null ==> Shape({}) && Accounted(0) && !(reallocOk && callocOk)
      ensures node != null ==> Shape({node}) && Accounted(1) && node in nodes
      ensures forall n :: n in old(nodes) && n != node ==> n.home == old(n.home)
    {
      hide *;
      ListsLinked({});
      if freelist == null {
        RoomForSlabs();
        var ok := AllocFreelist(reallocOk, callocOk);
        if !ok {
          return null;
        }
        ListsLinked({});
      }
      NoneHeld();
      LinkedHead(freelist, free, FREE);
      LinkedTail(freelist, free, FREE);
      var n: Node := freelist;
      freelist := n.next;
      n.next := null;
      n.home := HELD;
      free := free[1..];
      forall x | 0 <= x < |chains| ensures Linked(buckets[x], chains[x], x) {
        assert old(Linked(buckets[x], chains[x], x));
      }
      ListsShape({n});
      AllAccounted(1);
      return n;
    }

    lemma RoomForSlabs()
      requires Slabs()
      ensures 0 < hint < TWO_32 && numAlist <= |alist|
    {
    }

    lemma NoneHeld()
      requires Accounted(0)
      ensures |nodes| == Total(chains) + |free|
    {
    }

    lemma AllAccounted(held: nat)
      requires |nodes| == Total(chains) + |free| + held
      ensures Accounted(held)
    {
    }

    /** The links of a held node put at the head of its chain. */
    method LinkFront(i: nat, q: Node, ghost before: seq<seq<Node>>)
      requires before == chains && Shape({q}) && Accounted(1) && i < |before|
      modifies `chains, buckets, q`next, q`home, q`rank
      ensures Shape({}) && Accounted(0)
      ensures chains == before[i := [q] + before[i]]
      ensures Total(chains) == Total(before) + 1
    {
      hide *;
      ListsLinked({q});
      OneHeld();
      TotalUpdate(before, i, [q] + before[i]);
      q.next := buckets[i];
      buckets[i] := q;
      q.home, q.rank := i, |chains[i]|;
      chains := chains[i := [q] + chains[i]];
      forall x | 0 <= x < |chains| && x != i ensures Linked(buckets[x], chains[x], x) {
        assert old(Linked(buckets[x], before[x], x));
      }
      assert old(Linked(buckets[i], before[i], i)) && old(Linked(freelist, free, FREE));
      ChainLonger(q, old(buckets[i]), before[i], i);
      ListsShape({});
      AllAccounted(0);
    }

    /** Put a held node at the head of its chain. */
    method PushFront(i: nat, q: Node, key: Datum, ghost before: seq<seq<Node>>, ghost b: Buckets)
      requires before == chains && Shape({q}) && Accounted(1) && i < |before| && b == View()
      modifies `chains, buckets, q
      ensures Shape({}) && Accounted(0)
      ensures chains == before[i := [q] + before[i]]
      ensures View() == b[i := [Entry(key, q.value, false)] + b[i]]
      ensures Total(chains) == Total(before) + 1
      ensures Marked(View()) == Marked(b)
    {
      hide *;
      ListsLinked({q});
      q.key := key;
      q.deleted := false;
      forall x | 0 <= x < |chains| ensures ChainView(chains[x]) == b[x] {
        ViewIs(chains[x], b[x]);
      }
      LinkFront(i, q, before);
      ghost var e := Entry(key, q.value, false);
      ViewIs(chains[i], [e] + b[i]);
      assert View() == b[i := [e] + b[i]];
      MarkedUpdate(b, i, [e] + b[i]);
      MarkedInLive(e, b[i]);
    }

    lemma OneHeld()
      requires Accounted(1)
      ensures |nodes| == Total(chains) + |free| + 1
    {
    }

    /** q->value = value. */
    method SetValue(i: nat, q: Node, value: Datum, ghost j: nat, ghost b: Buckets)
      requires Shape({}) && i < |chains| && j < |chains[i]| && q == chains[i][j] && b == View()
      modifies q`value
      ensures Shape({}) && View() == b[i := b[i][j := b[i][j].(value := value)]]
      ensures Marked(View()) == Marked(b)
    {
      hide *;
      ShapeOwned();
      NodesApart(i, j);
      ghost var e: Entry := b[i][j].(value := value);
      MarkedUpdate(b, i, b[i][j := e]);
      MarkedInReplaced(b[i], j, e);
      q.value := value;
      ViewIs(chains[i], b[i][j := e]);
      forall x | 0 <= x < |chains| && x != i ensures View()[x] == b[x] {
        ViewIs(chains[x], b[x]);
      }
      assert View() == b[i := b[i][j := e]];
    }

    /** The two ways I2HashStore ends when it does not fail. */
    method ReplaceFound(i: nat, q: Node, value: Datum, ghost j: nat, ghost key: Datum, ghost b: Buckets)
      requires Valid() && !inIterate && b == View()
      requires i == Slot(scheme, |b|, key) && j == FindAny(scheme, b[i], key) < |chains[i]| && q == chains[i][j]
      modifies q`value
      ensures Valid() && View() == TableSpec.Store(scheme, b, key, value)
    {
      hide *;
      Parts();
      MarkedIsZero(b);
      StoreKeepsForm(scheme, b, key, value);
      StoreIs(scheme, b, key, value, j);
      SetValue(i, q, value, j, b);
      Whole();
    }

    /** A new node at the head of its chain. */
    method InsertNode(i: nat, q: Node, key: Datum, value: Datum, ghost b: Buckets)
      requires Shape({q}) && Accounted(1) && b == View() && 0 < |b| && Marked(b) == 0
      requires i == Slot(scheme, |b|, key) && FindAny(scheme, b[i], key) == |b[i]|
      modifies `chains, buckets, q
      ensures Shape({}) && Accounted(0) && |chains| == |b|
      ensures View() == TableSpec.Store(scheme, b, key, value) && Marked(View()) == 0
      ensures Total(chains) == Total(old(chains)) + 1
    {
      hide *;
      StoreIs(scheme, b, key, value, |b[i]|);
      PushFront(i, q, key, chains, b);
      FrontValue(b, i, Entry(key, q.value, false), value);
      SetValue(i, q, value, 0, View());
    }

    /** Its count wraps with the uint32_t. */
    method InsertNew(i: nat, q: Node, key: Datum, value: Datum, ghost b: Buckets)
      requires scheme.Lawful() && Shape({q}) && Slabs() && Accounted(1) && b == View() && WellFormed(scheme, b)
      requires length == Total(chains) && deleteNodes == 0 == Marked(b) && |b| < 0xFFFF_FFFF
      requires i == Slot(scheme, |b|, key) && FindAny(scheme, b[i], key) == |b[i]|
      modifies `chains, `length, buckets, q
      ensures Sound() && View() == TableSpec.Store(scheme, b, key, value)
      ensures Valid() <==> old(length) + 1 < TWO_32
    {
      hide *;
      MarkedIsZero(b);
      StoreKeepsForm(scheme, b, key, value);
      InsertNode(i, q, key, value, b);
      length := (length + 1) % TWO_32;
      SoundWhole();
      ValidIs();
    }

    lemma SoundWhole()
      requires scheme.Lawful() && Shape({}) && Slabs() && Accounted(0) && WellFormed(scheme, View())
      requires |chains| < 0xFFFF_FFFF
      requires deleteNodes == Marked(View()) && (!inIterate ==> deleteNodes == 0)
      ensures Sound()
    {
    }

    lemma ValidIs()
      requires Sound()
      ensures Valid() <==> length == Total(chains)
    {
    }

    lemma ValidSound()
      requires Valid()
      ensures Sound()
    {
    }

    lemma LengthIs(b: Buckets)
      requires Valid() && b == View()
      ensures length == Total(b)
    {
      SameTotal(b, chains);
    }

    /** I2HashStore: 0, or -1 when there is no memory for a new node; then nothing is stored. The
        guard against a full table compares the number of buckets, which never gets that large. So the
        count stays right if and only if the key was present or there is room for one more in it. */
    method Store(key: Datum, value: Datum, reallocOk: bool, callocOk: bool, ghost b: Buckets) returns (ret: int)
      requires Valid() && !inIterate && b == View()
      modifies `chains, `freelist, `free, `length, `alist, `numAlist, `nodes, buckets, nodes
      ensures Sound() && fresh(nodes - old(nodes))
      ensures ret == 0 || (ret == -1 && !(reallocOk && callocOk))
      ensures View() == if ret == 0 then TableSpec.Store(scheme, b, key, value) else b
      ensures Valid() <==> ret == -1 || Lookup(scheme, b, key).Some? || old(length) + 1 < TWO_32
    {
      hide *;
      SomeBuckets();
      ValidSound();
      if buckets.Length == 0xFFFF_FFFF {
        return -1;
      }
      var i := Slot(scheme, buckets.Length, key);
      ChainLinked(i);
      Parts();
      MarkedIsZero(b);
      FoundIsLive(scheme, b, key);
      var q;
      ghost var j;
      q, j := WalkAny(scheme, buckets[i], key, chains[i], i);
      if q != null {
        ReplaceFound(i, q, value, j, key, b);
        ValidSound();
        return 0;
      }
      q := AllocBinding(reallocOk, callocOk);
      assert View() == b;
      if q == null {
        Whole();
        ValidSound();
        return -1;
      }
      InsertNew(i, q, key, value, b);
      return 0;
    }

    /** I2HashDelete: 0 if the key was present, -1 if not. During an iteration the node stays,
        marked, and the chains are left as they are. */
    method Delete(key: Datum, ghost b: Buckets) returns (ret: int)
      requires Valid() && b == View()
      modifies `chains, `freelist, `free, `length, `deleteNodes, buckets, nodes
      ensures Valid()
      ensures ret == if Lookup(scheme, b, key).Some? then 0 else -1
      ensures View() == if inIterate then Mark(scheme, b, key) else TableSpec.Delete(scheme, b, key)
      ensures inIterate ==> chains == old(chains)
    {
      hide *;
      SomeBuckets();
      var i := Slot(scheme, buckets.Length, key);
      ChainLinked(i);
      var prev, p;
      ghost var j;
      prev, p, j := WalkLive(scheme, buckets[i], key, chains[i], i);
      LookupAt(scheme, b, key, j);
      if p == null {
        MarkOrDelete(scheme, b, key, j);
        return -1;
      }
      if inIterate {
        MarkFound(i, p, j, key, b);
      } else {
        RemoveFound(i, prev, p, j, key, b);
      }
      return 0;
    }

    // -------------------------------------------------------------- iteration

    /** The deletions of one callback. */
    method DeleteEach(keys: seq<Datum>, ghost b: Buckets)
      requires Valid() && inIterate && b == View()
      modifies `chains, `freelist, `free, `length, `deleteNodes, buckets, nodes
      ensures Valid() && View() == MarkAll(scheme, b, keys) && chains == old(chains)
    {
      hide *;
      SomeBuckets();
      MarkNone(scheme, b);
      assert keys[..0] == [];
      for k := 0 to |keys|
        invariant Valid() && View() == MarkAll(scheme, b, keys[..k]) && chains == old(chains)
      {
        MarkOneMore(scheme, b, keys, k);
        var ret := Delete(keys[k], View());
      }
      assert keys[..|keys|] == keys;
    }

    /** The visiting loops of I2HashIterate, left early when the callback returns False. */
    method VisitAll(f: Callback, ghost b: Buckets) returns (visits: seq<Visit>)
      requires Valid() && inIterate && b == View()
      modifies `chains, `freelist, `free, `length, `deleteNodes, buckets, nodes
      ensures Valid() && View() == IterateAll(scheme, b, f).b && visits == IterateAll(scheme, b, f).visits
    {
      hide *;
      SomeBuckets();
      visits := [];
      AllFromStart(scheme, b, f);
      ghost var whole := IterateAll(scheme, b, f);
      ghost var now: Buckets := b;
      var i := 0;
      while i < buckets.Length
        invariant Valid() && now == View() && chains == old(chains) && |now| == buckets.Length && 0 <= i <= |now|
        invariant TableIterate.Iterate(scheme, now, i, 0, f, visits) == whole
      {
        ChainLinked(i);
        var q := buckets[i];
        ghost var j := 0;
        LinkedHead(q, chains[i], i);
        while q != null
          invariant Valid() && now == View() && chains == old(chains) && |now| == buckets.Length
          invariant |now[i]| == |chains[i]| && 0 <= j <= |chains[i]|
          invariant q == (if j == |chains[i]| then null else chains[i][j])
          invariant TableIterate.Iterate(scheme, now, i, j, f, visits) == whole
          decreases |chains[i]| - j
        {
          ChainLinked(i);
          LinkedNext(buckets[i], chains[i], i, j);
          if q.deleted {
            SkipMarked(scheme, now, i, j, f, visits);
          } else {
            var r := f(visits, q.key, q.value);
            VisitLive(scheme, now, i, j, f, visits);
            visits := visits + [Visit(q.key, q.value, r.deletes)];
            DeleteEach(r.deletes, now);
            now := View();
            if !r.go {
              return;
            }
            ChainLinked(i);
            LinkedNext(buckets[i], chains[i], i, j);
          }
          q, j := q.next, j + 1;
        }
        NextChain(scheme, now, i, f, visits);
        i := i + 1;
      }
      NoChain(scheme, now, f, visits);
    }

    /** One step of a sweep or a clean: a node of a chain is unlinked, freed and no longer counted. */
    method DropNode(i: nat, prev: Node?, q: Node, ghost j: nat, ghost b: Buckets)
      requires Valid() && b == View() && i < |chains| && j < |chains[i]| && q == chains[i][j]
      requires prev == (if j == 0 then null else chains[i][j - 1]) && (q.deleted ==> inIterate)
      modifies `chains, `freelist, `free, `length, `deleteNodes, buckets, nodes`next, nodes`home, nodes`rank
      ensures Valid() && View() == b[i := RemoveAt(b[i], j)]
      ensures chains == old(chains)[i := RemoveAt(old(chains[i]), j)] && length == old(length) - 1
      ensures deleteNodes == old(deleteNodes) - if q.deleted then 1 else 0
    {
      hide *;
      Parts();
      RemoveKeepsForm(scheme, b, i, j);
      RemoveNode(i, prev, q, j, chains, b);
      if q.deleted {
        deleteNodes := deleteNodes - 1;
      }
      length := length - 1;
      Whole();
    }

    /** A marked node is taken off its chain; the link p stays and leads to the node behind it. */
    method DropMarked(i: nat, prev: Node?, q: Node, ghost j: nat, ghost b: Buckets) returns (q': Node?)
      requires Valid() && inIterate && b == View() && i < |chains| && j < |chains[i]| && q == chains[i][j] && q.deleted
      requires prev == if j == 0 then null else chains[i][j - 1]
      modifies `chains, `freelist, `free, `length, `deleteNodes, buckets, nodes`next, nodes`home, nodes`rank
      ensures Valid() && View() == b[i := RemoveAt(b[i], j)] && Sweep(View()) == Sweep(b)
      ensures |chains| == |old(chains)| && |chains[i]| == |old(chains[i])| - 1
      ensures q' == if j == |chains[i]| then null else chains[i][j]
      ensures prev == if j == 0 then null else chains[i][j - 1]
    {
      hide *;
      SomeBuckets();
      ChainLinked(i);
      SweepRemoved(b, i, j);
      RemoveAtIs(chains[i], j);
      DropNode(i, prev, q, j, b);
      SomeBuckets();
      ChainLinked(i);
      if prev == null {
        LinkedHead(buckets[i], chains[i], i);
        q' := buckets[i];
      } else {
        LinkedNext(buckets[i], chains[i], i, j - 1);
        q' := prev.next;
      }
    }

    /** The inner loop of the sweep, on one chain. */
    method SweepOne(i: nat, ghost b: Buckets)
      requires Valid() && inIterate && b == View() && i < |chains|
      modifies `chains, `freelist, `free, `length, `deleteNodes, buckets, nodes`next, nodes`home, nodes`rank
      ensures Valid() && |View()| == |b| && Sweep(View()) == Sweep(b)
      ensures forall x :: 0 <= x < |b| && x != i ==> View()[x] == b[x]
      ensures Unmarked(View()[i]) || deleteNodes == 0
    {
      hide *;
      SomeBuckets();
      ChainLinked(i);
      var prev: Node?, q := null, buckets[i];
      ghost var j, now := 0, b;
      LinkedHead(q, chains[i], i);
      NothingSwept(b[i]);
      while q != null && deleteNodes > 0
        invariant Valid() && now == View() && |now| == |b| == |chains| == buckets.Length && |now[i]| == |chains[i]|
        invariant 0 <= j <= |chains[i]| && q == (if j == |chains[i]| then null else chains[i][j])
        invariant prev == if j == 0 then null else chains[i][j - 1]
        invariant Sweep(now) == Sweep(b) && now == b[i := now[i]] && SweptTo(now[i], j)
        decreases |chains[i]| - j
      {
        ChainLinked(i);
        if q.deleted {
          SweptRemoved(now[i], j);
          q := DropMarked(i, prev, q, j, now);
          SomeBuckets();
          now := View();
        } else {
          SweptLive(now[i], j);
          LinkedNext(buckets[i], chains[i], i, j);
          prev, q, j := q, q.next, j + 1;
        }
      }
      if q == null {
        SweptAll(now[i], j);
      }
    }

    /** The sweep at the end of I2HashIterate, which stops as soon as the counter says that no
        marked node is left. */
    method SweepAll(ghost b: Buckets)
      requires Valid() && inIterate && b == View()
      modifies `chains, `freelist, `free, `length, `deleteNodes, buckets, nodes`next, nodes`home, nodes`rank
      ensures Valid() && View() == Sweep(b) && deleteNodes == 0
    {
      hide *;
      SomeBuckets();
      ghost var now: Buckets := b;
      var i := 0;
      while i < buckets.Length && deleteNodes > 0
        invariant Valid() && now == View() && |now| == |chains| == buckets.Length && 0 <= i <= |now|
        invariant Sweep(now) == Sweep(b)
        invariant deleteNodes == 0 || forall x :: 0 <= x < i ==> Unmarked(now[x])
      {
        SweepOne(i, now);
        SomeBuckets();
        now := View();
        i := i + 1;
      }
      Parts();
      if deleteNodes > 0 {
        NoMarksTo(now);
      }
      MarkedIsZero(now);
      SweepNothing(now);
    }

    /** I2HashIterate. */
    method Iterate(f: Callback, ghost b: Buckets) returns (visits: seq<Visit>)
      requires Valid() && !inIterate && b == View()
      modifies `chains, `freelist, `free, `length, `deleteNodes, `inIterate, buckets, nodes
      ensures Valid() && !inIterate && deleteNodes == 0
      ensures visits == IterateAll(scheme, b, f).visits && View() == AfterIterate(scheme, b, f)
    {
      hide *;
      Parts();
      inIterate := true;
      deleteNodes := 0;
      Whole();
      visits := VisitAll(f, b);
      SweepAll(View());
      Parts();
      inIterate := false;
      Whole();
      AfterIterateIs(scheme, b, f);
    }

    /** I2HashClean. The assertion at its end always holds. */
    method Clean(ghost b: Buckets)
      requires Valid() && !inIterate && b == View()
      modifies `chains, `freelist, `free, `length, `deleteNodes, buckets, nodes`next, nodes`home, nodes`rank
      ensures Valid() && length == 0 && View() == EmptyTable(|b|)
    {
      hide *;
      SomeBuckets();
      ghost var now: Buckets := b;
      var i := 0;
      while i < buckets.Length && length > 0
        invariant Valid() && now == View() && |now| == |b| == |chains| == buckets.Length && 0 <= i <= |now|
        invariant length == 0 || forall x :: 0 <= x < i ==> now[x] == []
      {
        CleanOne(i, now);
        SomeBuckets();
        now := View();
        i := i + 1;
      }
      Parts();
      SameTotal(now, chains);
      EveryChainEmpty(now);
      assert length == 0;
    }

    method CleanOne(i: nat, ghost b: Buckets)
      requires Valid() && !inIterate && b == View() && i < |chains|
      modifies `chains, `freelist, `free, `length, `deleteNodes, buckets, nodes`next, nodes`home, nodes`rank
      ensures Valid() && |View()| == |b| && View()[i] == []
      ensures forall x :: 0 <= x < |b| && x != i ==> View()[x] == b[x]
    {
      hide *;
      SomeBuckets();
      ghost var now: Buckets := b;
      ChainLinked(i);
      LinkedHead(buckets[i], chains[i], i);
      while buckets[i] != null
        invariant Valid() && now == View() && |now| == |b| == |chains| == buckets.Length && |now[i]| == |chains[i]|
        invariant buckets[i] == if chains[i] == [] then null else chains[i][0]
        invariant forall x :: 0 <= x < |b| && x != i ==> now[x] == b[x]
        decreases |chains[i]|
      {
        NeverMarked(i);
        RemoveAtIs(now[i], 0);
        RemoveAtIs(chains[i], 0);
        DropNode(i, null, buckets[i], 0, now);
        now := View();
        ChainLinked(i);
        LinkedHead(buckets[i], chains[i], i);
      }
    }

    /** I2HashNumEntries: one for each class of keys present. */
    method NumEntries() returns (n: int)
      requires Valid()
      ensures n == |Keys(View(), |View()|)|
    {
      hide *;
      Parts();
      ghost var b: Buckets := View();
      SameTotal(b, chains);
      MarkedAtMostTotal(b);
      KeysCount(scheme, b, |b|);
      assert b[..|b|] == b;
      if deleteNodes > length {
        return 0;
      }
      n := length - deleteNodes;
    }

    /** I2HashInit: as many buckets as the largest listed prime not above the hint, the smallest if
        there is none, and a first slab, for which the hint must be below 2^32. */
    constructor (hint: nat, scheme: Scheme)
      requires scheme.Lawful() && hint < TWO_32
      ensures Valid() && !inIterate && length == 0 && fresh(buckets) && fresh(nodes)
      ensures this.scheme == scheme && View() == EmptyTable(BucketCount(hint))
    {
      hide HashTable.Valid, HashTable.View, BucketCount, EmptyTable, Scheme.Lawful;
      this.scheme := scheme;
      var size := BucketCount(hint);
      this.hint := if hint != 0 then hint else size;
      buckets := new Node?[size](_ => null);
      length, deleteNodes, inIterate, freelist := 0, 0, false, null;
      alist, numAlist := [], 0;
      chains, free, nodes := NoChains(size), [], {};
      new;
      FirstSlab(size);
    }

    /** The end of I2HashInit: the first slab makes the empty table valid. */
    method FirstSlab(ghost size: nat)
      requires scheme.Lawful() && size == |chains| == buckets.Length < 0xFFFF_FFFF && 0 < size && 0 < hint < TWO_32
      requires nodes == {} && free == [] && freelist == null && alist == [] && numAlist == 0
      requires length == deleteNodes == 0 && !inIterate
      requires forall i :: 0 <= i < size ==> chains[i] == [] && buckets[i] == null
      modifies `alist, `numAlist, `nodes, `free, `freelist
      ensures Valid() && fresh(nodes) && View() == EmptyTable(size)
    {
      hide *;
      FirstParts();
      var ok := AllocFreelist(true, true);
      FirstView();
      EmptyAnswers(scheme, size, []);
      MarkedIsZero(View());
      NoNodes(chains);
      Whole();
    }

    lemma FirstParts()
      requires 0 < |chains| == buckets.Length && 0 < hint < TWO_32 && nodes == {} && free == [] && freelist == null
      requires alist == [] && numAlist == 0
      requires forall i :: 0 <= i < |chains| ==> chains[i] == [] && buckets[i] == null
      ensures Shape({}) && Slabs() && Accounted(0)
    {
      NoNodes(chains);
    }

    lemma FirstView()
      requires Owned() && forall i :: 0 <= i < |chains| ==> chains[i] == []
      ensures View() == EmptyTable(|chains|)
    {
    }

    /** The nodes on the first k chains. */
    ghost function Listed(k: nat): set<Node>
      requires k <= |chains|
      reads `chains
    {
      if k == 0 then {} else Listed(k - 1) + Members(chains[k - 1])
    }

    lemma {:induction false} ListedAre(k: nat, n: Node)
      requires k <= |chains|
      ensures n in Listed(k) <==> exists i :: 0 <= i < k && n in chains[i]
    {
      if k > 0 {
        ListedAre(k - 1, n);
        if n in chains[k - 1] {
          assert n in Members(chains[k - 1]);
        }
      }
    }

    lemma {:induction false} ListedCount(k: nat)
      requires Shape({}) && k <= |chains|
      ensures Listed(k) <= nodes && |Listed(k)| == Total(chains[..k])
      ensures forall n :: n in Listed(k) ==> 0 <= n.home < k
    {
      hide *;
      ListsLinked({});
      if k == 0 {
        NothingListed();
      } else {
        ListedCount(k - 1);
        assert chains[..k][..k - 1] == chains[..k - 1];
        LinkedDistinct(buckets[k - 1], chains[k - 1], k - 1);
        MembersCount(chains[k - 1]);
        OneMoreListed(k);
        assert Listed(k - 1) !! Members(chains[k - 1]);
      }
    }

    lemma NothingListed()
      ensures Listed(0) == {} && Total(chains[..0]) == 0
    {
    }

    lemma OneMoreListed(k: nat)
      requires 0 < k <= |chains| && chains[..k][..k - 1] == chains[..k - 1]
      ensures Listed(k) == Listed(k - 1) + Members(chains[k - 1])
      ensures Total(chains[..k]) == Total(chains[..k - 1]) + |chains[k - 1]|
    {
    }

    /** Every node of every slab is on the free list or on exactly one chain, never on both. */
    lemma NodeConservation(n: Node)
      requires Valid() && n in nodes
      ensures n in free <==> !exists i :: 0 <= i < |chains| && n in chains[i]
      ensures forall i, k :: 0 <= i < k < |chains| ==> n !in chains[i] || n !in chains[k]
    {
      hide *;
      Parts();
      ListsLinked({});
      NoneHeld();
      ListedCount(|chains|);
      assert chains[..|chains|] == chains;
      LinkedDistinct(freelist, free, FREE);
      MembersCount(free);
      assert Members(free) <= nodes;
      assert Listed(|chains|) !! Members(free);
      SubsetFills(Listed(|chains|) + Members(free), nodes);
      ListedAre(|chains|, n);
    }

    lemma NeverMarked(i: nat)
      requires Valid() && !inIterate && i < |chains|
      ensures forall k :: 0 <= k < |chains[i]| ==> !chains[i][k].deleted
    {
      hide Marked;
      MarkedIsZero(View());
      assert Unmarked(View()[i]);
      forall k | 0 <= k < |chains[i]| ensures !chains[i][k].deleted {
        assert View()[i][k] == Entry(chains[i][k].key, chains[i][k].value, chains[i][k].deleted);
      }
    }

    lemma Parts()
      requires Valid()
      ensures scheme.Lawful() && Shape({}) && Slabs() && Accounted(0) && WellFormed(scheme, View())
      ensures |chains| < 0xFFFF_FFFF
      ensures length == Total(chains) && deleteNodes == Marked(View()) && (!inIterate ==> deleteNodes == 0)
    {
    }

    lemma Whole()
      requires scheme.Lawful() && Shape({}) && Slabs() && Accounted(0) && WellFormed(scheme, View())
      requires |chains| < 0xFFFF_FFFF
      requires length == Total(chains) && deleteNodes == Marked(View()) && (!inIterate ==> deleteNodes == 0)
      ensures Valid()
    {
    }
  }

  lemma FrontValue(b: Buckets, i: nat, e: Entry, value: Datum)
    requires i < |b|
    ensures var b1: Buckets := b[i := [e] + b[i]];
            b1[i := b1[i][0 := b1[i][0].(value := value)]] == b[i := [e.(value := value)] + b[i]]
  {
    assert ([e] + b[i])[0 := e.(value := value)] == [e.(value := value)] + b[i];
  }

  /** Where no node is marked, the search that ignores marks finds what the lookup finds. */
  lemma FoundIsLive(s: Scheme, b: Buckets, key: Datum)
    requires WellFormed(s, b) && NoMarks(b)
    ensures var c := b[Slot(s, |b|, key)]; Lookup(s, b, key).Some? <==> FindAny(s, c, key) < |c|
  {
    var c := b[Slot(s, |b|, key)];
    assert Unmarked(c);
    hide FindAny, FindLive;
  }

  lemma RemoveKeepsForm(s: Scheme, b: Buckets, i: nat, j: nat)
    requires WellFormed(s, b) && i < |b| && j < |b[i]|
    ensures WellFormed(s, b[i := RemoveAt(b[i], j)])
  {
    hide RemoveAt;
    RemoveAtIs(b[i], j);
    var b' := b[i := RemoveAt(b[i], j)];
    assert ChainOk(s, |b|, i, b[i]);
    assert ChainOk(s, |b'|, i, b'[i]);
  }

  lemma {:induction false} SweepChainRemoved(c: Chain, j: nat)
    requires j < |c| && c[j].deleted
    ensures SweepChain(RemoveAt(c, j)) == SweepChain(c)
  {
    if j == 0 {
      assert RemoveAt(c, 0) == c[1..];
    } else {
      SweepChainRemoved(c[1..], j - 1);
      assert RemoveAt(c, j) == [c[0]] + RemoveAt(c[1..], j - 1);
    }
  }

  lemma SweepRemoved(b: Buckets, i: nat, j: nat)
    requires i < |b| && j < |b[i]| && b[i][j].deleted
    ensures Sweep(b[i := RemoveAt(b[i], j)]) == Sweep(b)
  {
    SweepChainRemoved(b[i], j);
  }

  lemma {:induction false} SweepUnmarked(c: Chain)
    requires Unmarked(c)
    ensures SweepChain(c) == c
  {
    if c != [] { SweepUnmarked(c[1..]); }
  }

  lemma SweepNothing(b: Buckets)
    requires NoMarks(b)
    ensures Sweep(b) == b
  {
    hide SweepChain;
    forall i | 0 <= i < |b| ensures SweepChain(b[i]) == b[i] {
      SweepUnmarked(b[i]);
    }
  }

  /** The sweep has left no mark before position j. */
  predicate SweptTo(c: Chain, j: nat) {
    j <= |c| && forall k :: 0 <= k < j ==> !c[k].deleted
  }

  lemma NothingSwept(c: Chain)
    ensures SweptTo(c, 0)
  {
  }

  lemma SweptRemoved(c: Chain, j: nat)
    requires SweptTo(c, j) && j < |c|
    ensures SweptTo(RemoveAt(c, j), j) && |RemoveAt(c, j)| == |c| - 1
  {
    RemoveAtIs(c, j);
    hide RemoveAt;
  }

  lemma SweptLive(c: Chain, j: nat)
    requires SweptTo(c, j) && j < |c| && !c[j].deleted
    ensures SweptTo(c, j + 1)
  {
  }

  lemma SweptAll(c: Chain, j: nat)
    requires SweptTo(c, j) && j == |c|
    ensures Unmarked(c)
  {
  }

  lemma NoMarksTo(b: Buckets)
    requires forall x :: 0 <= x < |b| ==> Unmarked(b[x])
    ensures NoMarks(b)
  {
  }

  lemma AfterIterateIs(s: Scheme, b: Buckets, f: Callback)
    requires 0 < |b|
    ensures AfterIterate(s, b, f) == Sweep(IterateAll(s, b, f).b)
  {
    hide Sweep, IterateAll;
  }

  lemma {:induction false} SameTotal<S, T>(a: seq<seq<S>>, b: seq<seq<T>>)
    requires |a| == |b| && forall i :: 0 <= i < |a| ==> |a[i]| == |b[i]|
    ensures Total(a) == Total(b)
  {
    if a != [] {
      SameTotal(a[..|a| - 1], b[..|b| - 1]);
    }
  }

  lemma EveryChainEmpty(b: Buckets)
    requires Total(b) == 0 || forall x :: 0 <= x < |b| ==> b[x] == []
    ensures Total(b) == 0 && b == EmptyTable(|b|)
  {
    TotalIsZero(b);
  }

  lemma LinkedDistinct(head: Node?, c: seq<Node>, home: int)
    requires Linked(head, c, home)
    ensures forall k, l :: 0 <= k < l < |c| ==> c[k] != c[l]
  {
  }

  /** A subset as large as the whole set is the whole set. */
  lemma SubsetFills<T>(a: set<T>, b: set<T>)
    requires a <= b && |a| == |b|
    ensures a == b
  {
    assert |b - a| == |b| - |a|;
  }

  ghost function NoChains(size: nat): (c: seq<seq<Node>>)
    ensures |c| == size && forall i :: 0 <= i < size ==> c[i] == []
  {
    seq(size, _ => [])
  }

  /** The primes of I2HashInit. */
  const PRIMES := [31, 67, 127, 251, 509, 1021, 2053, 4093, 8191, 16381, 32771, 65521]

  /** The search of I2HashInit, from the largest prime down to the first. */
  function BucketCount(hint: nat): (size: nat)
    ensures 31 <= size <= 65521
  {
    BucketCountFrom(hint, |PRIMES| - 1)
  }

  function BucketCountFrom(hint: nat, i: nat): (size: nat)
    requires i < |PRIMES|
    ensures 31 <= size <= 65521
  {
    if i > 0 && PRIMES[i] > hint then BucketCountFrom(hint, i - 1) else PRIMES[i]
  }

  /** It finds the largest listed prime not above the hint, or the first prime if there is none. */
  lemma BucketCountIs(hint: nat)
    ensures var size := BucketCount(hint); size in PRIMES && (size <= hint || size == 31)
    ensures forall p :: p in PRIMES && p <= hint ==> p <= BucketCount(hint)
  {
    LargestPrime(hint, |PRIMES| - 1);
  }

  /** All its values. */
  lemma BucketCounts(hint: nat)
    ensures BucketCount(hint)
            == if hint < 67 then 31 else if hint < 127 then 67 else if hint < 251 then 127 else if hint < 509 then 251
               else if hint < 1021 then 509 else if hint < 2053 then 1021 else if hint < 4093 then 2053
               else if hint < 8191 then 4093 else if hint < 16381 then 8191 else if hint < 32771 then 16381
               else if hint < 65521 then 32771 else 65521
  {
    LargestPrime(hint, 11);
    assert BucketCount(hint) == BucketCountFrom(hint, 11);
    hide BucketCount, BucketCountFrom;
    assert PRIMES[0] == 31 && PRIMES[1] == 67 && PRIMES[2] == 127 && PRIMES[3] == 251 && PRIMES[4] == 509;
    assert PRIMES[5] == 1021 && PRIMES[6] == 2053 && PRIMES[7] == 4093 && PRIMES[8] == 8191 && PRIMES[9] == 16381;
    assert PRIMES[10] == 32771 && PRIMES[11] == 65521;
  }

  lemma {:induction false} LargestPrime(hint: nat, i: nat)
    requires i < |PRIMES|
    ensures var size := BucketCountFrom(hint, i); size in PRIMES && (size <= hint || size == 31)
    ensures forall k :: 0 <= k <= i && PRIMES[k] <= hint ==> PRIMES[k] <= BucketCountFrom(hint, i)
  {
    if i > 0 && PRIMES[i] > hint {
      LargestPrime(hint, i - 1);
    }
  }

  lemma NoNodes(chains: seq<seq<Node>>)
    requires forall i :: 0 <= i < |chains| ==> chains[i] == []
    ensures Total(chains) == 0
  {
    TotalIsZero(chains);
  }

  lemma MarkNone(s: Scheme, b: Buckets)
    requires 0 < |b|
    ensures MarkAll(s, b, []) == b
  {
  }

  lemma MarkOneMore(s: Scheme, b: Buckets, keys: seq<Datum>, k: nat)
    requires 0 < |b| && k < |keys|
    ensures MarkAll(s, b, keys[..k + 1]) == Mark(s, MarkAll(s, b, keys[..k]), keys[k])
  {
    hide Mark;
    assert keys[..k + 1][..k] == keys[..k];
  }

  /** The equations of Iterate, one for each way through the loops. */
  lemma AllFromStart(s: Scheme, b: Buckets, f: Callback)
    requires 0 < |b|
    ensures IterateAll(s, b, f) == Iterate(s, b, 0, 0, f, [])
  {
  }

  lemma SkipMarked(s: Scheme, b: Buckets, i: nat, j: nat, f: Callback, visits: seq<Visit>)
    requires i < |b| && j < |b[i]| && b[i][j].deleted
    ensures Iterate(s, b, i, j, f, visits) == Iterate(s, b, i, j + 1, f, visits)
  {
  }

  lemma VisitLive(s: Scheme, b: Buckets, i: nat, j: nat, f: Callback, visits: seq<Visit>)
    requires i < |b| && j < |b[i]| && !b[i][j].deleted
    ensures var e := b[i][j];
            var r := f(visits, e.key, e.value);
            var b', visits' := MarkAll(s, b, r.deletes), visits + [Visit(e.key, e.value, r.deletes)];
            Iterate(s, b, i, j, f, visits)
            == if r.go then Iterate(s, b', i, j + 1, f, visits') else Trace(b', visits', true)
  {
    hide MarkAll;
  }

  lemma NextChain(s: Scheme, b: Buckets, i: nat, f: Callback, visits: seq<Visit>)
    requires i < |b|
    ensures Iterate(s, b, i, |b[i]|, f, visits) == Iterate(s, b, i + 1, 0, f, visits)
  {
  }

  lemma NoChain(s: Scheme, b: Buckets, f: Callback, visits: seq<Visit>)
    requires 0 < |b|
    ensures Iterate(s, b, |b|, 0, f, visits) == Trace(b, visits, false)
  {
  }

  lemma MarkOrDelete(s: Scheme, b: Buckets, key: Datum, j: nat)
    requires 0 < |b| && j == FindLive(s, b[Slot(s, |b|, key)], key)
    ensures var i := Slot(s, |b|, key);
            if j < |b[i]| then
              !b[i][j].deleted && Mark(s, b, key) == b[i := b[i][j := b[i][j].(deleted := true)]]
              && TableSpec.Delete(s, b, key) == b[i := RemoveAt(b[i], j)]
            else Mark(s, b, key) == b == TableSpec.Delete(s, b, key)
  {
    hide RemoveAt, Slot;
  }

  /** The nodes of the first n slabs. */
  ghost function SlabNodes(alist: seq<seq<Node>>, n: nat): set<Node>
    requires n <= |alist|
  {
    if n == 0 then {} else SlabNodes(alist, n - 1) + Members(alist[n - 1])
  }

  lemma {:induction false} SlabsBelow(a: seq<seq<Node>>, b: seq<seq<Node>>, n: nat)
    requires n <= |a| && n <= |b| && a[..n] == b[..n]
    ensures SlabNodes(a, n) == SlabNodes(b, n)
  {
    if n > 0 {
      assert a[n - 1] == a[..n][n - 1] == b[..n][n - 1] == b[n - 1];
      assert a[..n - 1] == a[..n][..n - 1] == b[..n][..n - 1] == b[..n - 1];
      SlabsBelow(a, b, n - 1);
    }
  }

  lemma NextSlab(alist: seq<seq<Node>>, n: nat)
    requires n < |alist|
    ensures SlabNodes(alist, n + 1) == SlabNodes(alist, n) + Members(alist[n])
  {
  }

  /** The nodes of a sequence. */
  ghost function Members(c: seq<Node>): (m: set<Node>)
    ensures forall n :: n in m ==> n in c
    ensures forall k :: 0 <= k < |c| ==> c[k] in m
  {
    if c == [] then {} else Members(c[..|c| - 1]) + {c[|c| - 1]}
  }

  lemma NoMembers()
    ensures Members([]) == {}
  {
  }

  lemma {:induction false} MembersCount(c: seq<Node>)
    requires forall k, l :: 0 <= k < l < |c| ==> c[k] != c[l]
    ensures |Members(c)| == |c|
  {
    if c != [] {
      MembersCount(c[..|c| - 1]);
    }
  }

  lemma MembersRest(c: seq<Node>, i: nat)
    requires i < |c| && forall k, l :: 0 <= k < l < |c| ==> c[k] != c[l]
    ensures c[i] in Members(c[i..]) && Members(c[i + 1..]) == Members(c[i..]) - {c[i]}
  {
    assert c[i..][0] == c[i];
    forall n | n in Members(c[i..]) - {c[i]} ensures n in Members(c[i + 1..]) {
      var k :| 0 <= k < |c[i..]| && c[i..][k] == n;
      assert c[i + 1..][k - 1] == n;
    }
    forall n | n in Members(c[i + 1..]) ensures n in Members(c[i..]) - {c[i]} {
      var k :| 0 <= k < |c[i + 1..]| && c[i + 1..][k] == n;
      assert c[i..][k + 1] == n;
    }
  }

  lemma ViewIs(c: seq<Node>, v: Chain)
    requires |v| == |c| && forall j :: 0 <= j < |c| ==> v[j] == Entry(c[j].key, c[j].value, c[j].deleted)
    ensures ChainView(c) == v
  {
    hide ChainView;
  }

  /** The walk of I2HashFetch and I2HashDelete down a chain. */
  method WalkLive(s: Scheme, head: Node?, key: Datum, ghost c: seq<Node>, ghost home: int)
    returns (prev: Node?, p: Node?, ghost j: nat)
    requires Linked(head, c, home)
    ensures j == FindLive(s, ChainView(c), key) && p == (if j == |c| then null else c[j])
    ensures prev == if j == 0 then null else c[j - 1]
  {
    prev, p, j := null, head, 0;
    while p != null
      invariant 0 <= j <= |c| && p == (if j == |c| then null else c[j])
      invariant prev == if j == 0 then null else c[j - 1]
      invariant forall k :: 0 <= k < j ==> c[k].deleted || !s.same(key, c[k].key)
      decreases |c| - j
    {
      if !p.deleted && s.same(key, p.key) {
        break;
      }
      prev, p, j := p, p.next, j + 1;
    }
    FindLiveIs(s, ChainView(c), key, j);
  }

  /** The walk of I2HashStore, which does not look at the mark. */
  method WalkAny(s: Scheme, head: Node?, key: Datum, ghost c: seq<Node>, ghost home: int)
    returns (q: Node?, ghost j: nat)
    requires Linked(head, c, home)
    ensures j == FindAny(s, ChainView(c), key) && q == (if j == |c| then null else c[j])
  {
    q, j := head, 0;
    while q != null
      invariant 0 <= j <= |c| && q == (if j == |c| then null else c[j])
      invariant forall k :: 0 <= k < j ==> !s.same(key, c[k].key)
      decreases |c| - j
    {
      if s.same(key, q.key) {
        break;
      }
      q, j := q.next, j + 1;
    }
    FindAnyIs(s, ChainView(c), key, j);
  }

  lemma FindAnyIs(s: Scheme, c: Chain, key: Datum, j: nat)
    requires j <= |c| && (j < |c| ==> s.same(key, c[j].key))
    requires forall k :: 0 <= k < j ==> !s.same(key, c[k].key)
    ensures FindAny(s, c, key) == j
  {
  }

  lemma StoreIs(s: Scheme, b: Buckets, key: Datum, value: Datum, j: nat)
    requires 0 < |b| && j == FindAny(s, b[Slot(s, |b|, key)], key)
    ensures var i := Slot(s, |b|, key);
            TableSpec.Store(s, b, key, value)
            == if j < |b[i]| then b[i := b[i][j := b[i][j].(value := value)]]
               else b[i := [Entry(key, value, false)] + b[i]]
  {
    hide Slot;
  }

  lemma MarkedInLive(e: Entry, c: Chain)
    requires !e.deleted
    ensures MarkedIn([e] + c) == MarkedIn(c)
  {
    MarkedInJoined([e], c);
    assert [e][..0] == [];
  }

  /** *p = q->next, where p is the link to q: the bucket itself or the node before. */
  method Cut(buckets: array<Node?>, i: nat, prev: Node?, q: Node, ghost c: seq<Node>, ghost j: nat)
    requires i < buckets.Length && Linked(buckets[i], c, i) && j < |c| && q == c[j]
    requires prev == if j == 0 then null else c[j - 1]
    modifies buckets, (if prev == null then {} else {prev})`next, (set k | 0 <= k < j :: c[k])`rank
    ensures Linked(buckets[i], RemoveAt(c, j), i)
    ensures forall x :: 0 <= x < buckets.Length && x != i ==> buckets[x] == old(buckets[x])
  {
    hide RemoveAt;
    RemoveAtIs(c, j);
    if prev == null {
      buckets[i] := q.next;
    } else {
      prev.next := q.next;
    }
    forall k | 0 <= k < j {
      c[k].rank := c[k].rank - 1;
    }
  }

  lemma ChainLonger(node: Node, next: Node?, rest: seq<Node>, home: int)
    requires Linked(next, rest, home) && node.next == next && node.home == home && node.rank == |rest|
    ensures Linked(node, [node] + rest, home)
  {
  }

  lemma LinkedHead(head: Node?, c: seq<Node>, home: int)
    requires Linked(head, c, home)
    ensures head == if c == [] then null else c[0]
  {
  }

  lemma LinkedNext(head: Node?, c: seq<Node>, home: int, j: nat)
    requires Linked(head, c, home) && j < |c|
    ensures c[j].next == if j + 1 < |c| then c[j + 1] else null
  {
  }

  lemma LinkedTail(head: Node?, c: seq<Node>, home: int)
    requires Linked(head, c, home) && c != []
    ensures Linked(c[0].next, c[1..], home) && forall k :: 0 < k < |c| ==> c[k] != c[0]
  {
  }

  lemma LookupAt(s: Scheme, b: Buckets, key: Datum, j: nat)
    requires 0 < |b| && j == FindLive(s, b[Slot(s, |b|, key)], key)
    ensures var c := b[Slot(s, |b|, key)]; Lookup(s, b, key) == if j < |c| then Some(c[j].value) else None
  {
  }

  lemma FindLiveIs(s: Scheme, c: Chain, key: Datum, j: nat)
    requires j <= |c| && (j < |c| ==> !c[j].deleted && s.same(key, c[j].key))
    requires forall k :: 0 <= k < j ==> c[k].deleted || !s.same(key, c[k].key)
    ensures FindLive(s, c, key) == j
  {
  }
}
