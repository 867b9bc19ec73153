/** The hash table of table.c on values: what each operation does to the chains, and what the
    chains mean as a finite map over classes of equal keys. */
module TableSpec {
  import opened Octets

  /** An I2Datum: the octets it points to. */
  type Datum = seq<byte>

  /** The two function pointers of a table: same(x, y) is cmp(x, y) == 0. */
  datatype Scheme = Scheme(same: (Datum, Datum) -> bool, hash: Datum -> uint32) {
    /** What the table asks of them: an equivalence, and equal hashes for equal keys. */
    ghost predicate Lawful() {
      && (forall x :: same(x, x))
      && (forall x, y :: same(x, y) ==> same(y, x) && hash(x) == hash(y))
      && (forall x, y, z :: same(x, y) && same(y, z) ==> same(x, z))
    }
  }

  /** cmpatom and hashatom, the defaults: compare octets, add octets. */
  function CmpAtom(x: Datum, y: Datum): bool {
    |x| == |y| && forall k :: 0 <= k < |x| ==> x[k] == y[k]
  }

  function HashAtom(key: Datum): uint32 {
    OctetSum(key) % TWO_32
  }

  function OctetSum(key: Datum): nat {
    if key == [] then 0 else OctetSum(key[..|key| - 1]) + key[|key| - 1] as nat
  }

  const ATOMS := Scheme(CmpAtom, HashAtom)

  lemma AtomsLawful()
    ensures ATOMS.Lawful()
  {
    forall x, y | CmpAtom(x, y) ensures x == y {
    }
  }

  /** One node of a chain. */
  datatype Entry = Entry(key: Datum, value: Datum, deleted: bool)

  type Chain = seq<Entry>
  type Buckets = seq<Chain>

  function Slot(s: Scheme, size: nat, key: Datum): (i: nat)
    requires 0 < size
    ensures i < size
  {
    s.hash(key) % size
  }

  /** Each chain holds only keys that hash to it, and at most one of each class. */
  ghost predicate ChainOk(s: Scheme, size: nat, i: nat, c: Chain)
    requires 0 < size
  {
    && (forall j :: 0 <= j < |c| ==> Slot(s, size, c[j].key) == i)
    && (forall j, k :: 0 <= j < k < |c| ==> !s.same(c[j].key, c[k].key))
  }

  ghost predicate WellFormed(s: Scheme, b: Buckets) {
    0 < |b| && forall i :: 0 <= i < |b| ==> ChainOk(s, |b|, i, b[i])
  }

  predicate Unmarked(c: Chain) {
    forall j :: 0 <= j < |c| ==> !c[j].deleted
  }

  predicate NoMarks(b: Buckets) {
    forall i :: 0 <= i < |b| ==> Unmarked(b[i])
  }

  /** Where I2HashFetch and I2HashDelete stop: the first matching node not marked, if any. */
  function FindLive(s: Scheme, c: Chain, key: Datum): (j: nat)
    ensures j <= |c| && (j < |c| ==> !c[j].deleted && s.same(key, c[j].key))
    ensures forall k :: 0 <= k < j ==> c[k].deleted || !s.same(key, c[k].key)
  {
    if c == [] then 0
    else if !c[0].deleted && s.same(key, c[0].key) then 0
    else 1 + FindLive(s, c[1..], key)
  }

  /** Where I2HashStore stops: the first matching node, marked or not. */
  function FindAny(s: Scheme, c: Chain, key: Datum): (j: nat)
    ensures j <= |c| && (j < |c| ==> s.same(key, c[j].key))
    ensures forall k :: 0 <= k < j ==> !s.same(key, c[k].key)
  {
    if c == [] then 0
    else if s.same(key, c[0].key) then 0
    else 1 + FindAny(s, c[1..], key)
  }

  /** What the table answers for a key. */
  function Lookup(s: Scheme, b: Buckets, key: Datum): Option<Datum>
    requires 0 < |b|
  {
    var c := b[Slot(s, |b|, key)];
    var j := FindLive(s, c, key);
    if j < |c| then Some(c[j].value) else None
  }

  function RemoveAt<T>(c: seq<T>, j: nat): seq<T>
    requires j < |c|
  {
    c[..j] + c[j + 1..]
  }

  function Store(s: Scheme, b: Buckets, key: Datum, value: Datum): (b': Buckets)
    requires 0 < |b|
    ensures |b'| == |b|
  {
    var i := Slot(s, |b|, key);
    var j := FindAny(s, b[i], key);
    if j < |b[i]| then b[i := b[i][j := b[i][j].(value := value)]]
    else b[i := [Entry(key, value, false)] + b[i]]
  }

  function Delete(s: Scheme, b: Buckets, key: Datum): (b': Buckets)
    requires 0 < |b|
    ensures |b'| == |b|
  {
    var i := Slot(s, |b|, key);
    var j := FindLive(s, b[i], key);
    if j < |b[i]| then b[i := RemoveAt(b[i], j)] else b
  }

  /** I2HashDelete while an iteration is under way: the node is only marked. */
  function Mark(s: Scheme, b: Buckets, key: Datum): (b': Buckets)
    requires 0 < |b|
    ensures SameShape(b, b')
  {
    var i := Slot(s, |b|, key);
    var j := FindLive(s, b[i], key);
    if j < |b[i]| then b[i := b[i][j := b[i][j].(deleted := true)]] else b
  }

  predicate SameShape(b: Buckets, b': Buckets) {
    |b| == |b'| && forall i :: 0 <= i < |b| ==> |b[i]| == |b'[i]|
  }

  function SweepChain(c: Chain): Chain {
    if c == [] then [] else (if c[0].deleted then [] else [c[0]]) + SweepChain(c[1..])
  }

  function Sweep(b: Buckets): (b': Buckets)
    ensures |b'| == |b|
  {
    seq(|b|, i requires 0 <= i < |b| => SweepChain(b[i]))
  }

  // ---------------------------------------------------------------- single operations

  /** A well-formed chain has at most one live answer for a key, wherever it stands. */
  lemma LookupIs(s: Scheme, b: Buckets, key: Datum, j: nat)
    requires s.Lawful() && WellFormed(s, b)
    requires j < |b[Slot(s, |b|, key)]|
    requires var e := b[Slot(s, |b|, key)][j]; !e.deleted && s.same(key, e.key)
    ensures Lookup(s, b, key) == Some(b[Slot(s, |b|, key)][j].value)
  {
    var c := b[Slot(s, |b|, key)];
    assert FindLive(s, c, key) <= j;
    assert s.same(c[FindLive(s, c, key)].key, key);
  }

  lemma LookupIsNone(s: Scheme, b: Buckets, key: Datum)
    requires WellFormed(s, b)
    requires forall j :: 0 <= j < |b[Slot(s, |b|, key)]| ==>
                           b[Slot(s, |b|, key)][j].deleted || !s.same(key, b[Slot(s, |b|, key)][j].key)
    ensures Lookup(s, b, key) == None
  {
  }

  lemma SameSlot(s: Scheme, size: nat, key: Datum, q: Datum)
    requires s.Lawful() && 0 < size && s.same(key, q)
    ensures Slot(s, size, key) == Slot(s, size, q)
  {
  }

  /** Where a class is found, no other class is. */
  lemma OtherClass(s: Scheme, key: Datum, q: Datum, stored: Datum)
    requires s.Lawful() && s.same(key, stored) && !s.same(key, q)
    ensures !s.same(q, stored)
  {
  }

  lemma StoreKeepsForm(s: Scheme, b: Buckets, key: Datum, value: Datum)
    requires s.Lawful() && WellFormed(s, b) && NoMarks(b)
    ensures WellFormed(s, Store(s, b, key, value)) && NoMarks(Store(s, b, key, value))
  {
    var i := Slot(s, |b|, key);
    var b' := Store(s, b, key, value);
    assert ChainOk(s, |b|, i, b[i]) && Unmarked(b[i]);
    if FindAny(s, b[i], key) == |b[i]| {
      assert forall k :: 0 < k < |b'[i]| ==> b'[i][k] == b[i][k - 1];
    }
    assert ChainOk(s, |b|, i, b'[i]);
  }

  /** Storing sets one class and leaves every other alone. */
  lemma StoreThenLookup(s: Scheme, b: Buckets, key: Datum, value: Datum, q: Datum)
    requires s.Lawful() && WellFormed(s, b) && NoMarks(b)
    ensures Lookup(s, Store(s, b, key, value), q) == if s.same(key, q) then Some(value) else Lookup(s, b, q)
  {
    var i, b' := Slot(s, |b|, q), Store(s, b, key, value);
    StoreKeepsForm(s, b, key, value);
    if Slot(s, |b|, key) == i {
      var j, m := FindAny(s, b[i], key), FindLive(s, b[i], q);
      var shift := if j == |b[i]| then 1 else 0;
      if s.same(key, q) {
        LookupIs(s, b', q, if j == |b[i]| then 0 else j);
      } else if m < |b[i]| {
        if j < |b[i]| { OtherClass(s, key, q, b[i][j].key); }
        LookupIs(s, b', q, m + shift);
      } else {
        if j < |b[i]| { OtherClass(s, key, q, b[i][j].key); }
        LookupIsNone(s, b', q);
      }
    }
  }

  /** Where a value is stored: in chain number hash % size, in the one node of its class, whose key stays, or in
      a new node at the head. */
  lemma StorePlaces(s: Scheme, b: Buckets, key: Datum, value: Datum, i: nat)
    requires s.Lawful() && WellFormed(s, b) && NoMarks(b) && i < |b|
    ensures var c, c' := b[i], Store(s, b, key, value)[i];
            if s.hash(key) % |b| != i then c' == c
            else if exists j :: 0 <= j < |c| && s.same(key, c[j].key) then
              |c'| == |c| && forall j :: 0 <= j < |c| ==>
                c'[j] == if s.same(key, c[j].key) then Entry(c[j].key, value, false) else c[j]
            else c' == [Entry(key, value, false)] + c
  {
    var c := b[i];
    assert ChainOk(s, |b|, i, c) && Unmarked(c);
    if s.hash(key) % |b| == i {
      var n := FindAny(s, c, key);
      forall j | 0 <= j < |c| && s.same(key, c[j].key) ensures j == n {
        OneOfClass(s, |b|, i, c, key, n, j);
      }
    }
  }

  lemma OneOfClass(s: Scheme, size: nat, i: nat, c: Chain, key: Datum, n: nat, j: nat)
    requires s.Lawful() && 0 < size && ChainOk(s, size, i, c) && n < |c| && j < |c|
    requires s.same(key, c[n].key) && s.same(key, c[j].key)
    ensures j == n
  {
    assert s.same(c[n].key, c[j].key) && s.same(c[j].key, c[n].key);
  }

  lemma DeleteKeepsForm(s: Scheme, b: Buckets, key: Datum)
    requires WellFormed(s, b) && NoMarks(b)
    ensures WellFormed(s, Delete(s, b, key)) && NoMarks(Delete(s, b, key))
  {
    var i := Slot(s, |b|, key);
    var b' := Delete(s, b, key);
    var j := FindLive(s, b[i], key);
    assert ChainOk(s, |b|, i, b[i]) && Unmarked(b[i]);
    if j < |b[i]| {
      assert forall k :: 0 <= k < |b'[i]| ==> b'[i][k] == b[i][if k < j then k else k + 1];
    }
    assert ChainOk(s, |b|, i, b'[i]) && Unmarked(b'[i]);
  }

  /** Deleting removes one class and leaves every other alone. */
  lemma DeleteThenLookup(s: Scheme, b: Buckets, key: Datum, q: Datum)
    requires s.Lawful() && WellFormed(s, b) && NoMarks(b)
    ensures Lookup(s, Delete(s, b, key), q) == if s.same(key, q) then None else Lookup(s, b, q)
  {
    var i, b' := Slot(s, |b|, q), Delete(s, b, key);
    var c, c' := b[i], b'[i];
    DeleteKeepsForm(s, b, key);
    assert ChainOk(s, |b|, i, c);
    hide Scheme.Lawful, WellFormed, NoMarks, ChainOk;
    if s.same(key, q) {
      SameSlot(s, |b|, key, q);
      var j := FindLive(s, c, key);
      AllOthersDiffer(s, |b|, i, c, key, q, j);
      if j < |c| { RemoveAtIs(c, j); }
      LookupIsNone(s, b', q);
    } else if Slot(s, |b|, key) == i {
      DeleteOther(s, b, key, q);
    }
  }

  lemma DeleteOther(s: Scheme, b: Buckets, key: Datum, q: Datum)
    requires s.Lawful() && WellFormed(s, b) && WellFormed(s, Delete(s, b, key))
    requires !s.same(key, q) && Slot(s, |b|, key) == Slot(s, |b|, q)
    ensures Lookup(s, Delete(s, b, key), q) == Lookup(s, b, q)
  {
    hide Scheme.Lawful, WellFormed, NoMarks;
    var i, b' := Slot(s, |b|, q), Delete(s, b, key);
    var j, m := FindLive(s, b[i], key), FindLive(s, b[i], q);
    if j < |b[i]| {
      RemoveAtIs(b[i], j);
      OtherClass(s, key, q, b[i][j].key);
      if m < |b[i]| {
        LookupIs(s, b', q, if m < j then m else m - 1);
      } else {
        LookupIsNone(s, b', q);
      }
    }
  }

  lemma RemoveAtIs<T>(c: seq<T>, j: nat)
    requires j < |c|
    ensures |RemoveAt(c, j)| == |c| - 1
    ensures forall k :: 0 <= k < |c| - 1 ==> RemoveAt(c, j)[k] == c[if k < j then k else k + 1]
  {
  }

  /** Apart from the node found for a class, no live node of its chain belongs to the class. */
  lemma AllOthersDiffer(s: Scheme, size: nat, i: nat, c: Chain, key: Datum, q: Datum, j: nat)
    requires s.Lawful() && 0 < size && ChainOk(s, size, i, c) && s.same(key, q) && j == FindLive(s, c, key)
    ensures forall k :: 0 <= k < |c| && k != j ==> c[k].deleted || !s.same(q, c[k].key)
  {
    forall k | 0 <= k < |c| && k != j ensures c[k].deleted || !s.same(q, c[k].key) {
      assert s.same(q, c[k].key) ==> s.same(key, c[k].key);
      assert j < |c| ==> s.same(c[j].key, key);
    }
  }

  /** Marking keeps every chain's keys. */
  lemma MarkKeepsForm(s: Scheme, b: Buckets, key: Datum)
    requires WellFormed(s, b)
    ensures WellFormed(s, Mark(s, b, key))
  {
    var i := Slot(s, |b|, key);
    assert ChainOk(s, |b|, i, b[i]) && ChainOk(s, |b|, i, Mark(s, b, key)[i]);
  }

  /** What marking does to every entry: exactly the class of the key is marked. */
  lemma MarkIs(s: Scheme, b: Buckets, key: Datum, i: nat, j: nat)
    requires s.Lawful() && WellFormed(s, b) && i < |b| && j < |b[i]|
    ensures var e := b[i][j];
            Mark(s, b, key)[i][j] == e.(deleted := e.deleted || s.same(key, e.key))
  {
    var slot := Slot(s, |b|, key);
    assert ChainOk(s, |b|, i, b[i]);
    if i == slot {
      AllOthersDiffer(s, |b|, i, b[i], key, key, FindLive(s, b[i], key));
    }
  }

  lemma {:induction false} SweepChainHas(c: Chain)
    ensures forall e :: e in SweepChain(c) <==> e in c && !e.deleted
  {
    if c != [] {
      SweepChainHas(c[1..]);
    }
  }

  lemma {:induction false} SweepChainOk(s: Scheme, size: nat, i: nat, c: Chain)
    requires 0 < size && ChainOk(s, size, i, c)
    ensures ChainOk(s, size, i, SweepChain(c))
  {
    if c != [] {
      TailOk(s, size, i, c);
      hide ChainOk;
      SweepChainHas(c[1..]);
      SweepChainOk(s, size, i, c[1..]);
      if !c[0].deleted {
        ConsOk(s, size, i, c[0], SweepChain(c[1..]));
        assert SweepChain(c) == [c[0]] + SweepChain(c[1..]);
      } else {
        assert SweepChain(c) == SweepChain(c[1..]);
      }
    }
  }

  lemma SweepChainIs(s: Scheme, size: nat, i: nat, c: Chain)
    requires 0 < size && ChainOk(s, size, i, c)
    ensures ChainOk(s, size, i, SweepChain(c)) && Unmarked(SweepChain(c))
    ensures forall e :: e in SweepChain(c) <==> e in c && !e.deleted
  {
    SweepChainOk(s, size, i, c);
    SweepChainHas(c);
    hide ChainOk, SweepChain;
  }

  lemma TailOk(s: Scheme, size: nat, i: nat, c: Chain)
    requires 0 < size && ChainOk(s, size, i, c) && c != []
    ensures ChainOk(s, size, i, c[1..]) && Slot(s, size, c[0].key) == i
    ensures forall e :: e in c[1..] ==> !s.same(c[0].key, e.key)
  {
    assert forall j :: 0 <= j < |c[1..]| ==> c[1..][j] == c[j + 1];
  }

  lemma ConsOk(s: Scheme, size: nat, i: nat, e: Entry, c: Chain)
    requires 0 < size && ChainOk(s, size, i, c) && Slot(s, size, e.key) == i
    requires forall x :: x in c ==> !s.same(e.key, x.key)
    ensures ChainOk(s, size, i, [e] + c)
  {
    assert forall k :: 0 < k < |[e] + c| ==> ([e] + c)[k] == c[k - 1];
  }

  lemma SweepKeepsForm(s: Scheme, b: Buckets)
    requires WellFormed(s, b)
    ensures WellFormed(s, Sweep(b)) && NoMarks(Sweep(b))
  {
    forall i | 0 <= i < |b| ensures ChainOk(s, |b|, i, Sweep(b)[i]) && Unmarked(Sweep(b)[i]) {
      SweepChainIs(s, |b|, i, b[i]);
    }
  }

  /** Sweeping the marked nodes away changes no answer. */
  lemma SweepThenLookup(s: Scheme, b: Buckets, q: Datum)
    requires s.Lawful() && WellFormed(s, b)
    ensures Lookup(s, Sweep(b), q) == Lookup(s, b, q)
  {
    var i := Slot(s, |b|, q);
    var c, c' := b[i], SweepChain(b[i]);
    SweepKeepsForm(s, b);
    SweepChainIs(s, |b|, i, c);
    hide Scheme.Lawful, WellFormed, NoMarks, ChainOk, SweepChain;
    var j := FindLive(s, c, q);
    if j < |c| {
      SweptFound(s, b, q);
    } else {
      SweptAbsent(s, b, q);
    }
  }

  lemma SweptFound(s: Scheme, b: Buckets, q: Datum)
    requires s.Lawful() && WellFormed(s, b) && WellFormed(s, Sweep(b))
    requires var c := b[Slot(s, |b|, q)]; FindLive(s, c, q) < |c| && c[FindLive(s, c, q)] in SweepChain(c)
    ensures Lookup(s, Sweep(b), q) == Lookup(s, b, q)
  {
    hide Scheme.Lawful, WellFormed, SweepChain;
    var c := b[Slot(s, |b|, q)];
    var c', e := SweepChain(c), c[FindLive(s, c, q)];
    var k :| 0 <= k < |c'| && c'[k] == e;
    LookupIs(s, Sweep(b), q, k);
  }

  lemma SweptAbsent(s: Scheme, b: Buckets, q: Datum)
    requires s.Lawful() && WellFormed(s, b) && WellFormed(s, Sweep(b))
    requires var c := b[Slot(s, |b|, q)];
             FindLive(s, c, q) == |c| && forall e :: e in SweepChain(c) ==> e in c && !e.deleted
    ensures Lookup(s, Sweep(b), q) == Lookup(s, b, q)
  {
    hide Scheme.Lawful, WellFormed, SweepChain;
    var c := b[Slot(s, |b|, q)];
    var c' := SweepChain(c);
    forall k | 0 <= k < |c'| ensures !s.same(q, c'[k].key) {
      assert c'[k] in c;
    }
    LookupIsNone(s, Sweep(b), q);
  }
}
