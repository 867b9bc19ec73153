/** A table with the default functions of table.c: keys are compared and hashed octet by octet. */
module TableAtoms {
  import opened Octets
  import opened TableSpec
  import opened TableRuns

  /** cmpatom: equal sizes and equal octets, which is to say the same key. */
  lemma CmpAtomIs(x: Datum, y: Datum)
    ensures CmpAtom(x, y) <==> x == y
  {
  }

  /** hashatom is the sum of the octets in 32 bits: none for the empty key, the octet for one, and the sum for
      keys that are joined. */
  lemma HashAtomIs(x: Datum, y: Datum, c: byte)
    ensures HashAtom([]) == 0 && HashAtom([c]) == c as int
    ensures HashAtom(x + y) == (HashAtom(x) + HashAtom(y)) % TWO_32
  {
    hide *;
    OneOctet(c);
    SumJoined(x, y);
    HashIs([]);
    HashIs([c]);
    HashIs(x);
    HashIs(y);
    HashIs(x + y);
    SumModulo(OctetSum(x), OctetSum(y));
  }

  lemma HashIs(key: Datum)
    ensures HashAtom(key) == OctetSum(key) % TWO_32
  {
  }

  lemma OneOctet(c: byte)
    ensures OctetSum([]) == 0 && OctetSum([c]) == c as int && 0 % TWO_32 == 0 && c as int % TWO_32 == c as int
  {
    assert [c][..0] == [];
  }

  lemma SumModulo(a: nat, b: nat)
    ensures (a + b) % TWO_32 == (a % TWO_32 + b % TWO_32) % TWO_32
  {
    var q, r := a / TWO_32, b / TWO_32;
    assert a + b == TWO_32 * (q + r) + (a % TWO_32 + b % TWO_32);
    Quotient(q + r, a % TWO_32 + b % TWO_32);
  }

  lemma Quotient(q: nat, r: nat)
    ensures (TWO_32 * q + r) % TWO_32 == r % TWO_32
  {
  }

  lemma {:induction false} SumJoined(x: Datum, y: Datum)
    ensures OctetSum(x + y) == OctetSum(x) + OctetSum(y)
  {
    if y == [] {
      assert x + y == x;
    } else {
      var front := y[..|y| - 1];
      SumJoined(x, front);
      assert (x + y)[..|x + y| - 1] == x + front;
    }
  }

  /** The loop of hashatom: an unsigned long of 64 bits takes the sum, and 32 of them are returned. */
  method Hash(key: Datum) returns (h: uint32)
    ensures h == HashAtom(key)
  {
    var ret: nat := 0;
    for i := 0 to |key|
      invariant ret == OctetSum(key[..i]) % TWO_64
    {
      assert key[..i + 1][..i] == key[..i];
      SumWraps(OctetSum(key[..i]), key[i] as int);
      ret := (ret + key[i] as int) % TWO_64;
    }
    assert key[..|key|] == key;
    LowHalf(OctetSum(key));
    h := ret % TWO_32;
  }

  lemma SumWraps(a: nat, b: nat)
    ensures (a % TWO_64 + b) % TWO_64 == (a + b) % TWO_64
  {
    var q := a / TWO_64;
    assert a + b == TWO_64 * q + (a % TWO_64 + b);
  }

  lemma LowHalf(n: nat)
    ensures n % TWO_64 % TWO_32 == n % TWO_32
  {
    var q := n / TWO_64;
    assert n == TWO_32 * (TWO_32 * q) + n % TWO_64;
    Quotient(TWO_32 * q, n % TWO_64);
  }

  /** So storing sets the value of one key, and deleting removes one key. */
  lemma AtomStore(b: Buckets, key: Datum, value: Datum, q: Datum)
    requires WellFormed(ATOMS, b) && NoMarks(b)
    ensures Lookup(ATOMS, Store(ATOMS, b, key, value), q) == if q == key then Some(value) else Lookup(ATOMS, b, q)
  {
    AtomsLawful();
    CmpAtomIs(key, q);
    hide WellFormed, NoMarks, Lookup, TableSpec.Store, CmpAtom;
    StoreThenLookup(ATOMS, b, key, value, q);
  }

  lemma AtomDelete(b: Buckets, key: Datum, q: Datum)
    requires WellFormed(ATOMS, b) && NoMarks(b)
    ensures Lookup(ATOMS, Delete(ATOMS, b, key), q) == if q == key then None else Lookup(ATOMS, b, q)
  {
    AtomsLawful();
    CmpAtomIs(key, q);
    hide WellFormed, NoMarks, Lookup, TableSpec.Delete, CmpAtom;
    DeleteThenLookup(ATOMS, b, key, q);
  }

  /** After every run of operations, a value that is stored is found under its own octets only: whatever is done
      with other keys, but for clearing the table or iterating over it, leaves it there. */
  lemma {:induction false} AtomStays(size: nat, before: seq<Op>, key: Datum, value: Datum, after: seq<Op>)
    requires 0 < size
    requires forall op :: op in after ==>
               op.OpFetch? || (op.OpStore? && op.key != key) || (op.OpDelete? && op.key != key)
    ensures Lookup(ATOMS, Run(ATOMS, size, before + [OpStore(key, value)] + after), key) == Some(value)
  {
    hide *;
    AtomsLawful();
    if after == [] {
      assert before + [OpStore(key, value)] + after == before + [OpStore(key, value)];
      RunIsMap(ATOMS, size, before + [OpStore(key, value)], key);
      ExpectedNext(ATOMS, size, before, OpStore(key, value), key);
      AtomsSame(key, key);
    } else {
      var front, op := after[..|after| - 1], after[|after| - 1];
      AtomStays(size, before, key, value, front);
      OtherKept(size, before + [OpStore(key, value)] + front, op, key);
      assert before + [OpStore(key, value)] + after == before + [OpStore(key, value)] + front + [op];
    }
  }

  lemma AtomsSame(x: Datum, y: Datum)
    ensures ATOMS.same(x, y) <==> x == y
  {
  }

  lemma OtherKept(size: nat, ops: seq<Op>, op: Op, key: Datum)
    requires 0 < size && (op.OpFetch? || (op.OpStore? && op.key != key) || (op.OpDelete? && op.key != key))
    ensures Lookup(ATOMS, Run(ATOMS, size, ops + [op]), key) == Lookup(ATOMS, Run(ATOMS, size, ops), key)
  {
    hide *;
    AtomsLawful();
    RunIsMap(ATOMS, size, ops, key);
    RunIsMap(ATOMS, size, ops + [op], key);
    ExpectedNext(ATOMS, size, ops, op, key);
    if !op.OpFetch? {
      AtomsSame(op.key, key);
    }
  }
}
