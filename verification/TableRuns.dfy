/** Whole runs of the hash table: what any sequence of operations answers, and what it counts. */
module TableRuns {
  import opened Octets
  import opened TableSpec
  import opened TableIterate

  // ---------------------------------------------------------------- counting

  /** The nodes on all chains. */
  function Total<T>(b: seq<seq<T>>): nat {
    if b == [] then 0 else Total(b[..|b| - 1]) + |b[|b| - 1]|
  }

  function MarkedIn(c: Chain): nat {
    if c == [] then 0 else MarkedIn(c[..|c| - 1]) + if c[|c| - 1].deleted then 1 else 0
  }

  function Marked(b: Buckets): nat {
    if b == [] then 0 else Marked(b[..|b| - 1]) + MarkedIn(b[|b| - 1])
  }

  lemma {:induction false} TotalUpdate<T>(b: seq<seq<T>>, i: nat, c: seq<T>)
    requires i < |b|
    ensures Total(b[i := c]) == Total(b) - |b[i]| + |c|
  {
    var last := |b| - 1;
    if i < last {
      TotalUpdate(b[..last], i, c);
      assert b[i := c][..last] == b[..last][i := c];
    } else {
      assert b[i := c][..last] == b[..last];
    }
  }

  lemma {:induction false} MarkedUpdate(b: Buckets, i: nat, c: Chain)
    requires i < |b|
    ensures Marked(b[i := c]) == Marked(b) - MarkedIn(b[i]) + MarkedIn(c)
  {
    var last := |b| - 1;
    if i < last {
      MarkedUpdate(b[..last], i, c);
      assert b[i := c][..last] == b[..last][i := c];
    } else {
      assert b[i := c][..last] == b[..last];
    }
  }

  lemma {:induction false} MarkedInJoined(c: Chain, d: Chain)
    ensures MarkedIn(c + d) == MarkedIn(c) + MarkedIn(d)
  {
    if d == [] {
      assert c + d == c;
    } else {
      MarkedInJoined(c, d[..|d| - 1]);
      assert (c + d)[..|c + d| - 1] == c + d[..|d| - 1];
    }
  }

  /** One node of a chain, and the rest. */
  lemma MarkedInAt(c: Chain, j: nat)
    requires j < |c|
    ensures MarkedIn(c) == MarkedIn(c[..j]) + (if c[j].deleted then 1 else 0) + MarkedIn(c[j + 1..])
  {
    MarkedInOne(c[j]);
    hide MarkedIn;
    var front, rest := c[..j], c[j + 1..];
    MarkedInJoined(front, [c[j]]);
    MarkedInJoined(front + [c[j]], rest);
    assert c == front + [c[j]] + rest;
  }

  lemma MarkedInOne(e: Entry)
    ensures MarkedIn([e]) == if e.deleted then 1 else 0
  {
    assert [e][..0] == [];
  }

  lemma MarkedInReplaced(c: Chain, j: nat, e: Entry)
    requires j < |c|
    ensures MarkedIn(c[j := e]) == MarkedIn(c) - (if c[j].deleted then 1 else 0) + (if e.deleted then 1 else 0)
  {
    MarkedInAt(c, j);
    MarkedInAt(c[j := e], j);
    assert c[j := e][..j] == c[..j] && c[j := e][j + 1..] == c[j + 1..];
  }

  lemma MarkedInRemoved(c: Chain, j: nat)
    requires j < |c|
    ensures MarkedIn(RemoveAt(c, j)) == MarkedIn(c) - if c[j].deleted then 1 else 0
  {
    MarkedInAt(c, j);
    MarkedInJoined(c[..j], c[j + 1..]);
  }

  lemma {:induction false} UnmarkedIn(c: Chain)
    ensures MarkedIn(c) == 0 <==> Unmarked(c)
  {
    if c != [] {
      UnmarkedIn(c[..|c| - 1]);
      assert forall j :: 0 <= j < |c| - 1 ==> c[..|c| - 1][j] == c[j];
      assert Unmarked(c) <==> Unmarked(c[..|c| - 1]) && !c[|c| - 1].deleted;
    }
  }

  /** The counter is zero exactly when no node is marked: what lets the sweep stop early. */
  lemma {:induction false} MarkedIsZero(b: Buckets)
    ensures Marked(b) == 0 <==> NoMarks(b)
  {
    if b != [] {
      MarkedIsZero(b[..|b| - 1]);
      UnmarkedIn(b[|b| - 1]);
      assert forall i :: 0 <= i < |b| - 1 ==> b[..|b| - 1][i] == b[i];
      assert NoMarks(b) <==> NoMarks(b[..|b| - 1]) && Unmarked(b[|b| - 1]);
    }
  }

  lemma {:induction false} TotalIsZero<T>(b: seq<seq<T>>)
    ensures Total(b) == 0 <==> forall i :: 0 <= i < |b| ==> b[i] == []
  {
    if b != [] {
      TotalIsZero(b[..|b| - 1]);
      assert forall i :: 0 <= i < |b| - 1 ==> b[..|b| - 1][i] == b[i];
    }
  }

  lemma {:induction false} MarkedAtMostTotal(b: Buckets)
    ensures Marked(b) <= Total(b)
  {
    if b != [] {
      MarkedAtMostTotal(b[..|b| - 1]);
      MarkedInAtMost(b[|b| - 1]);
    }
  }

  lemma {:induction false} MarkedInAtMost(c: Chain)
    ensures MarkedIn(c) <= |c|
  {
    if c != [] { MarkedInAtMost(c[..|c| - 1]); }
  }

  // ---------------------------------------------------------------- the number of classes

  /** The stored key of every class present in a chain, and in the first n chains. */
  function KeysIn(c: Chain): set<Datum> {
    if c == [] then {} else
      var e := c[|c| - 1];
      KeysIn(c[..|c| - 1]) + if e.deleted then {} else {e.key}
  }

  function Keys(b: Buckets, n: nat): set<Datum>
    requires n <= |b|
  {
    if n == 0 then {} else Keys(b, n - 1) + KeysIn(b[n - 1])
  }

  lemma {:induction false} KeysInAre(c: Chain, k: Datum)
    ensures k in KeysIn(c) <==> exists j :: 0 <= j < |c| && !c[j].deleted && c[j].key == k
  {
    if c != [] {
      var front := c[..|c| - 1];
      KeysInAre(front, k);
      assert forall j :: 0 <= j < |front| ==> front[j] == c[j];
    }
  }

  lemma {:induction false} KeysInCount(s: Scheme, size: nat, i: nat, c: Chain)
    requires s.Lawful() && 0 < size && ChainOk(s, size, i, c)
    ensures |KeysIn(c)| == |c| - MarkedIn(c)
  {
    if c != [] {
      var front, e := c[..|c| - 1], c[|c| - 1];
      KeysInCount(s, size, i, front);
      KeysInAre(front, e.key);
      assert forall j :: 0 <= j < |front| ==> front[j] == c[j];
      assert e.key !in KeysIn(front);
    }
  }

  lemma {:induction false} KeysAre(b: Buckets, n: nat, k: Datum)
    requires n <= |b|
    ensures k in Keys(b, n) <==> exists i :: 0 <= i < n && k in KeysIn(b[i])
  {
    if n > 0 {
      KeysAre(b, n - 1, k);
    }
  }

  lemma KeysApart(s: Scheme, b: Buckets, n: nat, k: Datum)
    requires WellFormed(s, b) && n < |b| && k in Keys(b, n)
    ensures k !in KeysIn(b[n])
  {
    KeysAre(b, n, k);
    var i :| 0 <= i < n && k in KeysIn(b[i]);
    assert ChainOk(s, |b|, i, b[i]) && ChainOk(s, |b|, n, b[n]);
    KeysInAre(b[i], k);
    KeysInAre(b[n], k);
  }

  /** length - delete_nodes is the number of stored keys, one for each class present. */
  lemma {:induction false} KeysCount(s: Scheme, b: Buckets, n: nat)
    requires s.Lawful() && WellFormed(s, b) && n <= |b|
    ensures |Keys(b, n)| == Total(b[..n]) - Marked(b[..n])
  {
    if n > 0 {
      hide Scheme.Lawful, WellFormed, Keys;
      KeysCount(s, b, n - 1);
      KeysMore(s, b, n);
      assert b[..n][..n - 1] == b[..n - 1];
    }
  }

  lemma KeysMore(s: Scheme, b: Buckets, n: nat)
    requires s.Lawful() && WellFormed(s, b) && 0 < n <= |b|
    ensures |Keys(b, n)| == |Keys(b, n - 1)| + |b[n - 1]| - MarkedIn(b[n - 1])
  {
    var before, here := Keys(b, n - 1), KeysIn(b[n - 1]);
    assert ChainOk(s, |b|, n - 1, b[n - 1]);
    KeysInCount(s, |b|, n - 1, b[n - 1]);
    forall k | k in before ensures k !in here {
      KeysApart(s, b, n - 1, k);
    }
    hide Scheme.Lawful, WellFormed, KeysIn, MarkedIn;
    assert |before + here| == |before| + |here|;
  }

  /** A key is answered exactly if its class is present, by one stored key only. */
  lemma KeysAnswer(s: Scheme, b: Buckets, q: Datum)
    requires s.Lawful() && WellFormed(s, b)
    ensures Lookup(s, b, q).Some? <==> exists k :: k in Keys(b, |b|) && s.same(q, k)
    ensures forall k, k' :: k in Keys(b, |b|) && k' in Keys(b, |b|) && s.same(k, k') ==> k == k'
  {
    if Lookup(s, b, q).Some? {
      LookedUpKey(s, b, q);
    }
    forall k | k in Keys(b, |b|) && s.same(q, k) ensures Lookup(s, b, q).Some? {
      var i, j := KeyPlace(b, k);
      KeyAnswered(s, b, q, i, j);
    }
    forall k, k' | k in Keys(b, |b|) && k' in Keys(b, |b|) && s.same(k, k') ensures k == k' {
      var i, j := KeyPlace(b, k);
      var i', j' := KeyPlace(b, k');
      KeyOnce(s, b, i, j, i', j');
    }
  }

  lemma LookedUpKey(s: Scheme, b: Buckets, q: Datum)
    requires 0 < |b| && Lookup(s, b, q).Some?
    ensures exists k :: k in Keys(b, |b|) && s.same(q, k)
  {
    var slot := Slot(s, |b|, q);
    var j := FindLive(s, b[slot], q);
    KeysInAre(b[slot], b[slot][j].key);
    KeysAre(b, |b|, b[slot][j].key);
  }

  /** Where a present key is stored. */
  lemma KeyPlace(b: Buckets, k: Datum) returns (i: nat, j: nat)
    requires k in Keys(b, |b|)
    ensures i < |b| && j < |b[i]| && !b[i][j].deleted && b[i][j].key == k
  {
    hide Keys, KeysIn;
    KeysAre(b, |b|, k);
    i :| i < |b| && k in KeysIn(b[i]);
    KeysInAre(b[i], k);
    j :| j < |b[i]| && !b[i][j].deleted && b[i][j].key == k;
  }

  lemma KeyAnswered(s: Scheme, b: Buckets, q: Datum, i: nat, j: nat)
    requires s.Lawful() && WellFormed(s, b) && i < |b| && j < |b[i]| && !b[i][j].deleted && s.same(q, b[i][j].key)
    ensures Lookup(s, b, q).Some?
  {
    assert ChainOk(s, |b|, i, b[i]);
    assert Slot(s, |b|, q) == i;
    hide ChainOk, Scheme.Lawful, Slot, WellFormed;
    LookupIs(s, b, q, j);
  }

  lemma KeyOnce(s: Scheme, b: Buckets, i: nat, j: nat, i': nat, j': nat)
    requires s.Lawful() && WellFormed(s, b) && i < |b| && j < |b[i]| && i' < |b| && j' < |b[i']|
    requires s.same(b[i][j].key, b[i'][j'].key)
    ensures b[i][j].key == b[i'][j'].key
  {
    assert ChainOk(s, |b|, i, b[i]) && ChainOk(s, |b|, i', b[i']);
    assert i == i';
    assert s.same(b[i'][j'].key, b[i][j].key);
  }

  // ---------------------------------------------------------------- runs

  datatype Op = OpStore(key: Datum, value: Datum) | OpFetch(key: Datum) | OpDelete(key: Datum)
              | OpIterate(f: Callback) | OpClean

  function EmptyTable(size: nat): (b: Buckets) {
    seq(size, _ => [])
  }

  function Apply(s: Scheme, b: Buckets, op: Op): (b': Buckets)
    requires 0 < |b|
    ensures |b'| == |b|
  {
    match op
    case OpStore(k, v) => Store(s, b, k, v)
    case OpFetch(_) => b
    case OpDelete(k) => Delete(s, b, k)
    case OpIterate(f) => AfterIterate(s, b, f)
    case OpClean => EmptyTable(|b|)
  }

  function Run(s: Scheme, size: nat, ops: seq<Op>): (b: Buckets)
    requires 0 < size
    ensures |b| == size
  {
    if ops == [] then EmptyTable(size) else Apply(s, Run(s, size, ops[..|ops| - 1]), ops[|ops| - 1])
  }

  /** The finite map the operations describe: the value last stored for a class, unless the
      class has been deleted since. */
  ghost function Expected(s: Scheme, size: nat, ops: seq<Op>, q: Datum): Option<Datum>
    requires 0 < size
  {
    if ops == [] then None else
      var before := ops[..|ops| - 1];
      match ops[|ops| - 1]
      case OpStore(k, v) => if s.same(k, q) then Some(v) else Expected(s, size, before, q)
      case OpFetch(_) => Expected(s, size, before, q)
      case OpDelete(k) => if s.same(k, q) then None else Expected(s, size, before, q)
      case OpIterate(f) =>
        if DeletedIn(s, IterateAll(s, Run(s, size, before), f).visits, q) then None
        else Expected(s, size, before, q)
      case OpClean => None
  }

  /** The map from one operation to the next. */
  lemma ExpectedNext(s: Scheme, size: nat, ops: seq<Op>, op: Op, q: Datum)
    requires 0 < size
    ensures Expected(s, size, [], q) == None
    ensures Expected(s, size, ops + [op], q)
            == if op.OpStore? && s.same(op.key, q) then Some(op.value)
               else if op.OpDelete? && s.same(op.key, q) then None
               else if op.OpIterate? && DeletedIn(s, IterateAll(s, Run(s, size, ops), op.f).visits, q) then None
               else if op.OpClean? then None
               else Expected(s, size, ops, q)
  {
    assert (ops + [op])[..|ops|] == ops;
    hide IterateAll, DeletedIn, Run;
  }

  /** Over every run the table answers as that map does, and between operations no node is marked. */
  lemma {:induction false} RunIsMap(s: Scheme, size: nat, ops: seq<Op>, q: Datum)
    requires s.Lawful() && 0 < size
    ensures WellFormed(s, Run(s, size, ops)) && NoMarks(Run(s, size, ops))
    ensures Lookup(s, Run(s, size, ops), q) == Expected(s, size, ops, q)
  {
    if ops == [] {
      EmptyAnswers(s, size, q);
    } else {
      var b, op := Run(s, size, ops[..|ops| - 1]), ops[|ops| - 1];
      RunIsMap(s, size, ops[..|ops| - 1], q);
      match op {
        case OpStore(k, v) =>
          StoreKeepsForm(s, b, k, v);
          StoreThenLookup(s, b, k, v, q);
        case OpFetch(_) =>
        case OpDelete(k) =>
          DeleteKeepsForm(s, b, k);
          DeleteThenLookup(s, b, k, q);
        case OpIterate(f) =>
          IterateKeepsForm(s, b, f);
          IterateThenLookup(s, b, f, q);
        case OpClean =>
          EmptyAnswers(s, size, q);
      }
    }
  }

  lemma EmptyAnswers(s: Scheme, size: nat, q: Datum)
    requires 0 < size
    ensures WellFormed(s, EmptyTable(size)) && NoMarks(EmptyTable(size)) && Lookup(s, EmptyTable(size), q) == None
  {
  }
}
