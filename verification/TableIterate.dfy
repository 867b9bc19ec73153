/** I2HashIterate on values: visits in chain order, with deletions that only mark until the
    final sweep. */
module TableIterate {
  import opened Octets
  import opened TableSpec

  /** What a callback does when it is shown an entry: delete some keys, then ask for more or not. */
  datatype Response = Response(deletes: seq<Datum>, go: bool)

  datatype Visit = Visit(key: Datum, value: Datum, deletes: seq<Datum>)

  /** Any callback that only deletes and fetches: all it can have learnt when it is called follows
      from the table it started on and from the visits so far. */
  type Callback = (seq<Visit>, Datum, Datum) -> Response

  function MarkAll(s: Scheme, b: Buckets, keys: seq<Datum>): (b': Buckets)
    requires 0 < |b|
    ensures SameShape(b, b')
  {
    if keys == [] then b else Mark(s, MarkAll(s, b, keys[..|keys| - 1]), keys[|keys| - 1])
  }

  ghost predicate Hit(s: Scheme, keys: seq<Datum>, key: Datum) {
    exists k :: 0 <= k < |keys| && s.same(keys[k], key)
  }

  /** The class of this key was deleted on one of the visits. */
  ghost predicate DeletedIn(s: Scheme, visits: seq<Visit>, key: Datum) {
    exists n :: 0 <= n < |visits| && Hit(s, visits[n].deletes, key)
  }

  datatype Trace = Trace(b: Buckets, visits: seq<Visit>, stopped: bool)

  /** The visiting loops from position j of chain i on. */
  function Iterate(s: Scheme, b: Buckets, i: nat, j: nat, f: Callback, visits: seq<Visit>): (t: Trace)
    requires 0 < |b| && i <= |b| && (i < |b| ==> j <= |b[i]|)
    ensures visits <= t.visits && SameShape(b, t.b)
    decreases |b| - i, if i < |b| then |b[i]| - j else 0
  {
    if i == |b| then Trace(b, visits, false)
    else if j == |b[i]| then Iterate(s, b, i + 1, 0, f, visits)
    else if b[i][j].deleted then Iterate(s, b, i, j + 1, f, visits)
    else
      var e := b[i][j];
      var r := f(visits, e.key, e.value);
      var b', visits' := MarkAll(s, b, r.deletes), visits + [Visit(e.key, e.value, r.deletes)];
      if r.go then Iterate(s, b', i, j + 1, f, visits') else Trace(b', visits', true)
  }

  function IterateAll(s: Scheme, b: Buckets, f: Callback): Trace
    requires 0 < |b|
  {
    Iterate(s, b, 0, 0, f, [])
  }

  lemma {:induction false} MarkAllIs(s: Scheme, b: Buckets, keys: seq<Datum>)
    requires s.Lawful() && WellFormed(s, b)
    ensures WellFormed(s, MarkAll(s, b, keys))
    ensures forall i, j :: 0 <= i < |b| && 0 <= j < |b[i]| ==>
              MarkAll(s, b, keys)[i][j] == b[i][j].(deleted := b[i][j].deleted || Hit(s, keys, b[i][j].key))
  {
    if keys != [] {
      var front, last := keys[..|keys| - 1], keys[|keys| - 1];
      var b' := MarkAll(s, b, front);
      MarkAllIs(s, b, front);
      MarkKeepsForm(s, b', last);
      forall i, j | 0 <= i < |b| && 0 <= j < |b[i]|
        ensures MarkAll(s, b, keys)[i][j] == b[i][j].(deleted := b[i][j].deleted || Hit(s, keys, b[i][j].key))
      {
        MarkIs(s, b', last, i, j);
        HitSplit(s, keys, b[i][j].key);
      }
    }
  }

  lemma HitSplit(s: Scheme, keys: seq<Datum>, key: Datum)
    requires keys != []
    ensures Hit(s, keys, key) <==> Hit(s, keys[..|keys| - 1], key) || s.same(keys[|keys| - 1], key)
  {
    var front := keys[..|keys| - 1];
    if Hit(s, front, key) {
      var k :| 0 <= k < |front| && s.same(front[k], key);
      assert s.same(keys[k], key);
    }
  }

  /** Position (x, y) is not before position (i, j). */
  predicate NotBefore(i: nat, j: nat, x: nat, y: nat) {
    i < x || (i == x && j <= y)
  }

  /** A visit shows an entry that is live in b and not before (i, j). */
  ghost predicate Shows(b: Buckets, i: nat, j: nat, v: Visit) {
    exists x: nat, y: nat :: x < |b| && y < |b[x]| && NotBefore(i, j, x, y)
                             && b[x][y] == Entry(v.key, v.value, false)
  }

  /** The visits the loops add from a position on. */
  ghost function Added(s: Scheme, b: Buckets, i: nat, j: nat, f: Callback, visits: seq<Visit>): seq<Visit>
    requires 0 < |b| && i <= |b| && (i < |b| ==> j <= |b[i]|)
  {
    Iterate(s, b, i, j, f, visits).visits[|visits|..]
  }

  /** The visit made at a live position, and the table it leaves behind. */
  function VisitAt(s: Scheme, b: Buckets, i: nat, j: nat, f: Callback, visits: seq<Visit>): (Visit, Buckets)
    requires i < |b| && j < |b[i]|
  {
    var e := b[i][j];
    var r := f(visits, e.key, e.value);
    (Visit(e.key, e.value, r.deletes), MarkAll(s, b, r.deletes))
  }

  /** The loops from a live position: one visit, then the loops from the next position. */
  lemma AddedAtLive(s: Scheme, b: Buckets, i: nat, j: nat, f: Callback, visits: seq<Visit>)
    requires i < |b| && j < |b[i]| && !b[i][j].deleted
    ensures var (v, b') := VisitAt(s, b, i, j, f, visits);
            var t := Iterate(s, b, i, j, f, visits);
            if f(visits, v.key, v.value).go then
              t == Iterate(s, b', i, j + 1, f, visits + [v]) &&
              Added(s, b, i, j, f, visits) == [v] + Added(s, b', i, j + 1, f, visits + [v])
            else
              t == Trace(b', visits + [v], true) && Added(s, b, i, j, f, visits) == [v]
  {
  }

  lemma DeletedInJoined(s: Scheme, v: Visit, rest: seq<Visit>, key: Datum)
    ensures DeletedIn(s, [v] + rest, key) <==> Hit(s, v.deletes, key) || DeletedIn(s, rest, key)
  {
    var all := [v] + rest;
    if Hit(s, v.deletes, key) {
      assert Hit(s, all[0].deletes, key);
    }
    if DeletedIn(s, rest, key) {
      var n :| 0 <= n < |rest| && Hit(s, rest[n].deletes, key);
      assert Hit(s, all[n + 1].deletes, key);
    }
  }

  /** In the end exactly the classes deleted on some visit have been marked, whatever the order. */
  lemma {:induction false} IterateMarks(s: Scheme, b: Buckets, i: nat, j: nat, f: Callback, visits: seq<Visit>,
      x: nat, y: nat)
    requires s.Lawful() && WellFormed(s, b) && i <= |b| && (i < |b| ==> j <= |b[i]|) && x < |b| && y < |b[x]|
    ensures WellFormed(s, Iterate(s, b, i, j, f, visits).b)
    ensures var e := b[x][y];
            Iterate(s, b, i, j, f, visits).b[x][y]
            == e.(deleted := e.deleted || DeletedIn(s, Added(s, b, i, j, f, visits), e.key))
    decreases |b| - i, if i < |b| then |b[i]| - j else 0
  {
    if i == |b| {
    } else if j == |b[i]| {
      IterateMarks(s, b, i + 1, 0, f, visits, x, y);
    } else if b[i][j].deleted {
      IterateMarks(s, b, i, j + 1, f, visits, x, y);
    } else {
      var (v, b') := VisitAt(s, b, i, j, f, visits);
      AddedAtLive(s, b, i, j, f, visits);
      MarkAllIs(s, b, v.deletes);
      if f(visits, v.key, v.value).go {
        IterateMarks(s, b', i, j + 1, f, visits + [v], x, y);
        DeletedInJoined(s, v, Added(s, b', i, j + 1, f, visits + [v]), b[x][y].key);
      } else {
        DeletedInJoined(s, v, [], b[x][y].key);
        assert [v] + [] == [v];
      }
    }
  }

  /** What a later visit shows, an earlier one could have shown too. */
  lemma ShowsEarlier(s: Scheme, b: Buckets, keys: seq<Datum>, i: nat, j: nat, i': nat, j': nat, v: Visit)
    requires s.Lawful() && WellFormed(s, b) && NotBefore(i, j, i', j') && Shows(MarkAll(s, b, keys), i', j', v)
    ensures Shows(b, i, j, v) && !Hit(s, keys, v.key)
  {
    var b' := MarkAll(s, b, keys);
    var x: nat, y: nat :| x < |b'| && y < |b'[x]| && NotBefore(i', j', x, y)
                            && b'[x][y] == Entry(v.key, v.value, false);
    MarkAllIs(s, b, keys);
    assert b'[x][y] == b[x][y].(deleted := b[x][y].deleted || Hit(s, keys, b[x][y].key));
    assert b[x][y] == Entry(v.key, v.value, false);
  }

  lemma ShowsFurther(b: Buckets, i: nat, j: nat, i': nat, j': nat, v: Visit)
    requires NotBefore(i, j, i', j') && Shows(b, i', j', v)
    ensures Shows(b, i, j, v)
  {
    var x: nat, y: nat :| x < |b| && y < |b[x]| && NotBefore(i', j', x, y) && b[x][y] == Entry(v.key, v.value, false);
    assert NotBefore(i, j, x, y);
  }

  /** Every visit shows a live entry at or after the position the loops start from. */
  lemma {:induction false} IterateShows(s: Scheme, b: Buckets, i: nat, j: nat, f: Callback, visits: seq<Visit>,
      n: nat)
    requires s.Lawful() && WellFormed(s, b) && i <= |b| && (i < |b| ==> j <= |b[i]|)
    requires n < |Added(s, b, i, j, f, visits)|
    ensures Shows(b, i, j, Added(s, b, i, j, f, visits)[n])
    decreases |b| - i, if i < |b| then |b[i]| - j else 0
  {
    hide Scheme.Lawful, WellFormed, Shows;
    var added := Added(s, b, i, j, f, visits);
    if i == |b| {
    } else if j == |b[i]| {
      IterateShows(s, b, i + 1, 0, f, visits, n);
      ShowsFurther(b, i, j, i + 1, 0, added[n]);
    } else if b[i][j].deleted {
      IterateShows(s, b, i, j + 1, f, visits, n);
      ShowsFurther(b, i, j, i, j + 1, added[n]);
    } else {
      var (v, b') := VisitAt(s, b, i, j, f, visits);
      AddedAtLive(s, b, i, j, f, visits);
      if n == 0 {
        ShowsHere(b, i, j, v);
      } else {
        MarkAllIs(s, b, v.deletes);
        IterateShows(s, b', i, j + 1, f, visits + [v], n - 1);
        ShowsEarlier(s, b, v.deletes, i, j, i, j + 1, added[n]);
      }
    }
  }

  lemma ShowsHere(b: Buckets, i: nat, j: nat, v: Visit)
    requires i < |b| && j < |b[i]| && b[i][j] == Entry(v.key, v.value, false)
    ensures Shows(b, i, j, v)
  {
    assert NotBefore(i, j, i, j);
  }

  /** Two positions of a well-formed table never hold the same class. */
  lemma ShowsAnother(s: Scheme, b: Buckets, i: nat, j: nat, v: Visit)
    requires s.Lawful() && WellFormed(s, b) && i < |b| && j < |b[i]| && Shows(b, i, j + 1, v)
    ensures !s.same(b[i][j].key, v.key)
  {
    var x: nat, y: nat :| x < |b| && y < |b[x]| && NotBefore(i, j + 1, x, y) && b[x][y] == Entry(v.key, v.value, false);
    assert ChainOk(s, |b|, i, b[i]) && ChainOk(s, |b|, x, b[x]);
  }

  /** No two visits show the same class, and none shows a class deleted on an earlier visit. */
  lemma {:induction false} IterateSeparates(s: Scheme, b: Buckets, i: nat, j: nat, f: Callback, visits: seq<Visit>,
      m: nat, n: nat)
    requires s.Lawful() && WellFormed(s, b) && i <= |b| && (i < |b| ==> j <= |b[i]|)
    requires m < n < |Added(s, b, i, j, f, visits)|
    ensures var added := Added(s, b, i, j, f, visits);
            !s.same(added[m].key, added[n].key) && !Hit(s, added[m].deletes, added[n].key)
    decreases |b| - i, if i < |b| then |b[i]| - j else 0
  {
    hide Scheme.Lawful, WellFormed, Shows;
    var added := Added(s, b, i, j, f, visits);
    if i == |b| {
    } else if j == |b[i]| {
      IterateSeparates(s, b, i + 1, 0, f, visits, m, n);
    } else if b[i][j].deleted {
      IterateSeparates(s, b, i, j + 1, f, visits, m, n);
    } else {
      var (v, b') := VisitAt(s, b, i, j, f, visits);
      AddedAtLive(s, b, i, j, f, visits);
      MarkAllIs(s, b, v.deletes);
      if m > 0 {
        IterateSeparates(s, b', i, j + 1, f, visits + [v], m - 1, n - 1);
      } else {
        IterateShows(s, b', i, j + 1, f, visits + [v], n - 1);
        ShowsEarlier(s, b, v.deletes, i, j + 1, i, j + 1, added[n]);
        ShowsAnother(s, b, i, j, added[n]);
      }
    }
  }

  /** Some visit shows this entry. */
  ghost predicate Visited(visits: seq<Visit>, e: Entry) {
    exists n :: 0 <= n < |visits| && visits[n].key == e.key && visits[n].value == e.value
  }

  /** Unless the callback stopped it, the iteration visits every entry that survives it. */
  lemma {:induction false} IterateReaches(s: Scheme, b: Buckets, i: nat, j: nat, f: Callback, visits: seq<Visit>,
      x: nat, y: nat)
    requires s.Lawful() && WellFormed(s, b) && i <= |b| && (i < |b| ==> j <= |b[i]|)
    requires x < |b| && y < |b[x]| && NotBefore(i, j, x, y)
    requires var t := Iterate(s, b, i, j, f, visits); !t.stopped && !t.b[x][y].deleted
    ensures Visited(Added(s, b, i, j, f, visits), b[x][y])
    decreases |b| - i, if i < |b| then |b[i]| - j else 0
  {
    hide Scheme.Lawful, WellFormed;
    IterateMarks(s, b, i, j, f, visits, x, y);
    if j == |b[i]| {
      IterateReaches(s, b, i + 1, 0, f, visits, x, y);
    } else if b[i][j].deleted {
      IterateReaches(s, b, i, j + 1, f, visits, x, y);
    } else {
      var (v, b') := VisitAt(s, b, i, j, f, visits);
      var added := Added(s, b, i, j, f, visits);
      AddedAtLive(s, b, i, j, f, visits);
      MarkAllIs(s, b, v.deletes);
      if x == i && y == j {
        assert added[0] == v;
      } else {
        IterateReaches(s, b', i, j + 1, f, visits + [v], x, y);
        var rest := Added(s, b', i, j + 1, f, visits + [v]);
        var n :| 0 <= n < |rest| && rest[n].key == b[x][y].key && rest[n].value == b[x][y].value;
        assert added[n + 1] == rest[n];
      }
    }
  }

  // ---------------------------------------------------------------- the order of the visits

  /** These two visits show entries of b, the first one at an earlier position. */
  ghost predicate InOrder(b: Buckets, v: Visit, w: Visit) {
    exists x: nat, y: nat, x': nat, y': nat ::
      && x < |b| && y < |b[x]| && x' < |b| && y' < |b[x']| && (x < x' || (x == x' && y < y'))
      && b[x][y] == Entry(v.key, v.value, false) && b[x'][y'] == Entry(w.key, w.value, false)
  }

  lemma InOrderHere(b: Buckets, i: nat, j: nat, v: Visit, w: Visit)
    requires i < |b| && j < |b[i]| && b[i][j] == Entry(v.key, v.value, false) && Shows(b, i, j + 1, w)
    ensures InOrder(b, v, w)
  {
    var x: nat, y: nat :| x < |b| && y < |b[x]| && NotBefore(i, j + 1, x, y) && b[x][y] == Entry(w.key, w.value, false);
    assert i < x || (i == x && j < y);
  }

  lemma InOrderEarlier(s: Scheme, b: Buckets, keys: seq<Datum>, v: Visit, w: Visit)
    requires s.Lawful() && WellFormed(s, b) && InOrder(MarkAll(s, b, keys), v, w)
    ensures InOrder(b, v, w)
  {
    MarkAllIs(s, b, keys);
    var b' := MarkAll(s, b, keys);
    var x: nat, y: nat, x': nat, y': nat :|
      && x < |b'| && y < |b'[x]| && x' < |b'| && y' < |b'[x']| && (x < x' || (x == x' && y < y'))
      && b'[x][y] == Entry(v.key, v.value, false) && b'[x'][y'] == Entry(w.key, w.value, false);
    assert b'[x][y] == b[x][y].(deleted := b[x][y].deleted || Hit(s, keys, b[x][y].key));
    assert b'[x'][y'] == b[x'][y'].(deleted := b[x'][y'].deleted || Hit(s, keys, b[x'][y'].key));
  }

  lemma {:induction false} IterateOrders(s: Scheme, b: Buckets, i: nat, j: nat, f: Callback, visits: seq<Visit>,
      m: nat, n: nat)
    requires s.Lawful() && WellFormed(s, b) && i <= |b| && (i < |b| ==> j <= |b[i]|)
    requires m < n < |Added(s, b, i, j, f, visits)|
    ensures var added := Added(s, b, i, j, f, visits); InOrder(b, added[m], added[n])
    decreases |b| - i, if i < |b| then |b[i]| - j else 0
  {
    hide Scheme.Lawful, WellFormed, Shows, InOrder;
    var added := Added(s, b, i, j, f, visits);
    if i == |b| {
    } else if j == |b[i]| {
      IterateOrders(s, b, i + 1, 0, f, visits, m, n);
    } else if b[i][j].deleted {
      IterateOrders(s, b, i, j + 1, f, visits, m, n);
    } else {
      var (v, b') := VisitAt(s, b, i, j, f, visits);
      AddedAtLive(s, b, i, j, f, visits);
      MarkAllIs(s, b, v.deletes);
      if m > 0 {
        IterateOrders(s, b', i, j + 1, f, visits + [v], m - 1, n - 1);
        InOrderEarlier(s, b, v.deletes, added[m], added[n]);
      } else {
        IterateShows(s, b', i, j + 1, f, visits + [v], n - 1);
        ShowsEarlier(s, b, v.deletes, i, j + 1, i, j + 1, added[n]);
        InOrderHere(b, i, j, v, added[n]);
      }
    }
  }

  /** Chains are visited in order, and their nodes from the head on. */
  lemma VisitsInOrder(s: Scheme, b: Buckets, f: Callback, m: nat, n: nat)
    requires s.Lawful() && WellFormed(s, b) && m < n < |IterateAll(s, b, f).visits|
    ensures var v, w := IterateAll(s, b, f).visits[m], IterateAll(s, b, f).visits[n];
            exists x: nat, y: nat, x': nat, y': nat ::
              && x < |b| && y < |b[x]| && x' < |b| && y' < |b[x']| && (x < x' || (x == x' && y < y'))
              && b[x][y] == Entry(v.key, v.value, false) && b[x'][y'] == Entry(w.key, w.value, false)
  {
    assert Added(s, b, 0, 0, f, []) == IterateAll(s, b, f).visits;
    hide Scheme.Lawful, WellFormed, Added, IterateAll;
    IterateOrders(s, b, 0, 0, f, [], m, n);
  }

  /** The classes deleted on visits are those of the keys the callback named. */
  lemma DeletedIs(s: Scheme, visits: seq<Visit>, key: Datum)
    ensures DeletedIn(s, visits, key)
            <==> exists n, k :: 0 <= n < |visits| && 0 <= k < |visits[n].deletes| && s.same(visits[n].deletes[k], key)
  {
    if DeletedIn(s, visits, key) {
      var n :| 0 <= n < |visits| && Hit(s, visits[n].deletes, key);
      var k :| 0 <= k < |visits[n].deletes| && s.same(visits[n].deletes[k], key);
    }
    if n, k :| 0 <= n < |visits| && 0 <= k < |visits[n].deletes| && s.same(visits[n].deletes[k], key) {
      assert Hit(s, visits[n].deletes, key);
    }
  }

  // ---------------------------------------------------------------- the whole iteration

  /** The table a whole iteration leaves, after its sweep. */
  function AfterIterate(s: Scheme, b: Buckets, f: Callback): (b': Buckets)
    requires 0 < |b|
    ensures |b'| == |b|
  {
    Sweep(IterateAll(s, b, f).b)
  }

  lemma IterateKeepsForm(s: Scheme, b: Buckets, f: Callback)
    requires s.Lawful() && WellFormed(s, b)
    ensures WellFormed(s, IterateAll(s, b, f).b)
    ensures WellFormed(s, AfterIterate(s, b, f)) && NoMarks(AfterIterate(s, b, f))
  {
    IterateFormFrom(s, b, 0, 0, f, []);
    SweepKeepsForm(s, IterateAll(s, b, f).b);
  }

  lemma {:induction false} IterateFormFrom(s: Scheme, b: Buckets, i: nat, j: nat, f: Callback, visits: seq<Visit>)
    requires s.Lawful() && WellFormed(s, b) && i <= |b| && (i < |b| ==> j <= |b[i]|)
    ensures WellFormed(s, Iterate(s, b, i, j, f, visits).b)
    decreases |b| - i, if i < |b| then |b[i]| - j else 0
  {
    hide Scheme.Lawful, WellFormed;
    if i == |b| {
    } else if j == |b[i]| {
      IterateFormFrom(s, b, i + 1, 0, f, visits);
    } else if b[i][j].deleted {
      IterateFormFrom(s, b, i, j + 1, f, visits);
    } else {
      var (v, b') := VisitAt(s, b, i, j, f, visits);
      AddedAtLive(s, b, i, j, f, visits);
      MarkAllIs(s, b, v.deletes);
      if f(visits, v.key, v.value).go {
        IterateFormFrom(s, b', i, j + 1, f, visits + [v]);
      }
    }
  }

  /** On return the map is the old map without exactly the classes deleted on the visits. */
  lemma IterateThenLookup(s: Scheme, b: Buckets, f: Callback, q: Datum)
    requires s.Lawful() && WellFormed(s, b) && NoMarks(b)
    ensures Lookup(s, AfterIterate(s, b, f), q)
            == if DeletedIn(s, IterateAll(s, b, f).visits, q) then None else Lookup(s, b, q)
  {
    var t := IterateAll(s, b, f);
    IterateKeepsForm(s, b, f);
    SweepThenLookup(s, t.b, q);
    var i := Slot(s, |b|, q);
    assert Added(s, b, 0, 0, f, []) == t.visits;
    forall y | 0 <= y < |b[i]|
      ensures t.b[i][y] == b[i][y].(deleted := DeletedIn(s, t.visits, b[i][y].key))
    {
      IterateMarks(s, b, 0, 0, f, [], i, y);
      assert Unmarked(b[i]);
    }
    var j := FindLive(s, b[i], q);
    if j < |b[i]| {
      SameFate(s, t.visits, q, b[i][j].key);
      if DeletedIn(s, t.visits, q) {
        assert ChainOk(s, |b|, i, b[i]);
        AllOthersDiffer(s, |b|, i, b[i], q, q, j);
        LookupIsNone(s, t.b, q);
      } else {
        LookupIs(s, t.b, q, j);
      }
    } else {
      assert Unmarked(b[i]);
      LookupIsNone(s, t.b, q);
    }
  }

  /** Keys of one class are deleted together. */
  lemma SameFate(s: Scheme, visits: seq<Visit>, q: Datum, key: Datum)
    requires s.Lawful() && s.same(q, key)
    ensures DeletedIn(s, visits, q) <==> DeletedIn(s, visits, key)
  {
    forall n | 0 <= n < |visits| ensures Hit(s, visits[n].deletes, q) <==> Hit(s, visits[n].deletes, key) {
      var keys := visits[n].deletes;
      assert forall k :: 0 <= k < |keys| ==> (s.same(keys[k], q) <==> s.same(keys[k], key));
    }
  }

  /** Each class is visited at most once, with its value, and never after it has been deleted. */
  lemma VisitsOnce(s: Scheme, b: Buckets, f: Callback, m: nat, n: nat)
    requires s.Lawful() && WellFormed(s, b) && m < n < |IterateAll(s, b, f).visits|
    ensures var visits := IterateAll(s, b, f).visits;
            !s.same(visits[m].key, visits[n].key) && !Hit(s, visits[m].deletes, visits[n].key)
  {
    assert Added(s, b, 0, 0, f, []) == IterateAll(s, b, f).visits;
    IterateSeparates(s, b, 0, 0, f, [], m, n);
  }

  lemma VisitsEntries(s: Scheme, b: Buckets, f: Callback, n: nat)
    requires s.Lawful() && WellFormed(s, b) && n < |IterateAll(s, b, f).visits|
    ensures var v := IterateAll(s, b, f).visits[n]; Lookup(s, b, v.key) == Some(v.value)
  {
    var v := IterateAll(s, b, f).visits[n];
    assert Added(s, b, 0, 0, f, []) == IterateAll(s, b, f).visits;
    IterateShows(s, b, 0, 0, f, [], n);
    var x: nat, y: nat :| x < |b| && y < |b[x]| && NotBefore(0, 0, x, y) && b[x][y] == Entry(v.key, v.value, false);
    assert ChainOk(s, |b|, x, b[x]);
    LookupIs(s, b, v.key, y);
  }

  /** Without an early stop every surviving class has been visited, with its value. */
  lemma VisitsAllSurvivors(s: Scheme, b: Buckets, f: Callback, q: Datum)
    requires s.Lawful() && WellFormed(s, b) && NoMarks(b)
    requires !IterateAll(s, b, f).stopped && Lookup(s, AfterIterate(s, b, f), q).Some?
    ensures exists n :: 0 <= n < |IterateAll(s, b, f).visits| &&
              var v := IterateAll(s, b, f).visits[n];
              s.same(q, v.key) && Lookup(s, AfterIterate(s, b, f), q) == Some(v.value)
  {
    var t := IterateAll(s, b, f);
    assert Added(s, b, 0, 0, f, []) == t.visits;
    IterateThenLookup(s, b, f, q);
    var i := Slot(s, |b|, q);
    var y := FindLive(s, b[i], q);
    IterateMarks(s, b, 0, 0, f, [], i, y);
    SameFate(s, t.visits, q, b[i][y].key);
    IterateReaches(s, b, 0, 0, f, [], i, y);
    var n :| 0 <= n < |t.visits| && t.visits[n].key == b[i][y].key && t.visits[n].value == b[i][y].value;
  }

  /** The callback was asked on the visits so far each time, and it alone decides when to stop. */
  lemma {:induction false} VisitsFollowCallback(s: Scheme, b: Buckets, i: nat, j: nat, f: Callback, visits: seq<Visit>,
      n: nat)
    requires 0 < |b| && i <= |b| && (i < |b| ==> j <= |b[i]|)
    requires |visits| <= n < |Iterate(s, b, i, j, f, visits).visits|
    ensures var t := Iterate(s, b, i, j, f, visits);
            var v := t.visits[n];
            f(t.visits[..n], v.key, v.value) == Response(v.deletes, n + 1 < |t.visits| || !t.stopped)
    decreases |b| - i, if i < |b| then |b[i]| - j else 0
  {
    if i == |b| {
    } else if j == |b[i]| {
      VisitsFollowCallback(s, b, i + 1, 0, f, visits, n);
    } else if b[i][j].deleted {
      VisitsFollowCallback(s, b, i, j + 1, f, visits, n);
    } else {
      var (v, b') := VisitAt(s, b, i, j, f, visits);
      AddedAtLive(s, b, i, j, f, visits);
      var t := Iterate(s, b, i, j, f, visits);
      if |visits| < n {
        VisitsFollowCallback(s, b', i, j + 1, f, visits + [v], n);
      } else {
        assert t.visits[..n] == visits && t.visits[n] == v;
        if f(visits, v.key, v.value).go { StoppedNeedsVisit(s, b', i, j + 1, f, visits + [v]); }
      }
    }
  }

  lemma {:induction false} StoppedNeedsVisit(s: Scheme, b: Buckets, i: nat, j: nat, f: Callback, visits: seq<Visit>)
    requires 0 < |b| && i <= |b| && (i < |b| ==> j <= |b[i]|)
    ensures Iterate(s, b, i, j, f, visits).stopped ==> |visits| < |Iterate(s, b, i, j, f, visits).visits|
    decreases |b| - i, if i < |b| then |b[i]| - j else 0
  {
    if i == |b| {
    } else if j == |b[i]| {
      StoppedNeedsVisit(s, b, i + 1, 0, f, visits);
    } else if b[i][j].deleted {
      StoppedNeedsVisit(s, b, i, j + 1, f, visits);
    }
  }
}
