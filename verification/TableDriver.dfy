/** A table put through a sequence of operations, as a program would use it. */
module TableDriver {
  import opened Octets
  import opened TableSpec
  import opened TableIterate
  import opened TableRuns
  import opened Table

  /** What an operation gives back to its caller. */
  datatype Answer = Stored(ret: int) | Fetched(value: Option<Datum>) | Deleted(ret: int)
                  | Visited(visits: seq<Visit>) | Cleaned

  /** What it should give back, in terms of the finite map the operations before it describe. */
  ghost function AnswerOf(s: Scheme, size: nat, ops: seq<Op>, n: nat): Answer
    requires 0 < size && n < |ops|
  {
    match ops[n]
    case OpStore(_, _) => Stored(0)
    case OpFetch(k) => Fetched(Expected(s, size, ops[..n], k))
    case OpDelete(k) => Deleted(if Expected(s, size, ops[..n], k).Some? then 0 else -1)
    case OpIterate(f) => Visited(IterateAll(s, Run(s, size, ops[..n]), f).visits)
    case OpClean => Cleaned
  }

  /** Whenever a new key is stored, there is room for one more entry in the count. */
  ghost predicate Roomy(s: Scheme, size: nat, ops: seq<Op>)
    requires 0 < size
  {
    forall n :: 0 <= n < |ops| && ops[n].OpStore? ==> HasRoom(s, Run(s, size, ops[..n]), ops[n].key)
  }

  ghost predicate HasRoom(s: Scheme, b: Buckets, key: Datum)
    requires 0 < |b|
  {
    Lookup(s, b, key).Some? || Total(b) + 1 < TWO_32
  }

  /** One operation on a table. */
  method Perform(t: HashTable, op: Op, ghost b: Buckets) returns (a: Answer)
    requires t.Valid() && !t.inIterate && b == t.View()
    requires op.OpStore? ==> HasRoom(t.scheme, b, op.key)
    modifies t, t.buckets, t.nodes
    ensures t.Valid() && !t.inIterate && t.View() == Apply(t.scheme, b, op) && fresh(t.nodes - old(t.nodes))
    ensures match op
            case OpStore(_, _) => a == Stored(0)
            case OpFetch(k) => a == Fetched(Lookup(t.scheme, b, k))
            case OpDelete(k) => a == Deleted(if Lookup(t.scheme, b, k).Some? then 0 else -1)
            case OpIterate(f) => a == Visited(IterateAll(t.scheme, b, f).visits)
            case OpClean => a == Cleaned
  {
    hide HashTable.Valid, HashTable.View, Lookup, TableSpec.Store, TableSpec.Delete, IterateAll, AfterIterate, Total;
    t.SomeBuckets();
    match op {
      case OpStore(k, v) =>
        t.LengthIs(b);
        var ret := t.Store(k, v, true, true, b);
        a := Stored(ret);
      case OpFetch(k) =>
        var r := t.Fetch(k);
        a := Fetched(r);
      case OpDelete(k) =>
        var ret := t.Delete(k, b);
        a := Deleted(ret);
      case OpIterate(f) =>
        var visits := t.Iterate(f, b);
        a := Visited(visits);
      case OpClean =>
        t.Clean(b);
        a := Cleaned;
    }
  }

  /** From a new table on, every sequence of operations leaves the table of its run, and every answer is
      that of the finite map which the operations before it describe. */
  method PerformAll(hint: nat, s: Scheme, ops: seq<Op>) returns (t: HashTable, answers: seq<Answer>)
    requires s.Lawful() && hint < TWO_32 && Roomy(s, BucketCount(hint), ops)
    ensures fresh(t) && t.Valid() && t.View() == Run(s, BucketCount(hint), ops)
    ensures |answers| == |ops| && forall n :: 0 <= n < |ops| ==> answers[n] == AnswerOf(s, BucketCount(hint), ops, n)
  {
    hide *;
    ghost var size := BucketCount(hint);
    t := new HashTable(hint, s);
    answers := [];
    RunStarts(s, size, ops);
    for n := 0 to |ops|
      invariant fresh(t) && fresh(t.buckets) && fresh(t.nodes) && t.scheme == s
      invariant t.Valid() && !t.inIterate && t.View() == Run(s, size, ops[..n])
      invariant |answers| == n && forall k :: 0 <= k < n ==> answers[k] == AnswerOf(s, size, ops, k)
    {
      RunNext(s, size, ops, n);
      var a := Perform(t, ops[n], t.View());
      answers := answers + [a];
    }
    assert ops[..|ops|] == ops;
  }

  /** The iteration that operation n is. */
  ghost function TraceOf(s: Scheme, size: nat, ops: seq<Op>, n: nat): Trace
    requires 0 < size && n < |ops| && ops[n].OpIterate?
  {
    IterateAll(s, Run(s, size, ops[..n]), ops[n].f)
  }

  /** What an iteration shows in terms of that map: entries of it, and none twice. */
  lemma IterationShows(s: Scheme, size: nat, ops: seq<Op>, n: nat, j: nat)
    requires s.Lawful() && 0 < size && n < |ops| && ops[n].OpIterate?
    requires j < |TraceOf(s, size, ops, n).visits|
    ensures var visits := TraceOf(s, size, ops, n).visits;
            && AnswerOf(s, size, ops, n) == Visited(visits)
            && Expected(s, size, ops[..n], visits[j].key) == Some(visits[j].value)
            && forall k :: j < k < |visits| ==> !s.same(visits[j].key, visits[k].key)
  {
    var b, visits := Run(s, size, ops[..n]), TraceOf(s, size, ops, n).visits;
    RunIsMap(s, size, ops[..n], visits[j].key);
    hide Run, Lookup, Expected, IterateAll, Scheme.Lawful, WellFormed;
    VisitsEntries(s, b, ops[n].f, j);
    forall k | j < k < |visits| ensures !s.same(visits[j].key, visits[k].key) {
      VisitsOnce(s, b, ops[n].f, j, k);
    }
  }

  /** And every entry that is there afterwards, if the callback stopped nothing. */
  lemma IterationShowsAll(s: Scheme, size: nat, ops: seq<Op>, n: nat, q: Datum)
    requires s.Lawful() && 0 < size && n < |ops| && ops[n].OpIterate?
    requires !TraceOf(s, size, ops, n).stopped && Expected(s, size, ops[..n + 1], q).Some?
    ensures var visits := TraceOf(s, size, ops, n).visits;
            exists j :: 0 <= j < |visits| && s.same(q, visits[j].key)
                        && Expected(s, size, ops[..n + 1], q) == Some(visits[j].value)
  {
    var b := Run(s, size, ops[..n]);
    RunIsMap(s, size, ops[..n], q);
    RunIsMap(s, size, ops[..n + 1], q);
    AfterIteration(s, size, ops, n);
    hide Run, Lookup, Expected, IterateAll, Scheme.Lawful, WellFormed, AfterIterate;
    VisitsAllSurvivors(s, b, ops[n].f, q);
  }

  lemma AfterIteration(s: Scheme, size: nat, ops: seq<Op>, n: nat)
    requires 0 < size && n < |ops| && ops[n].OpIterate?
    ensures Run(s, size, ops[..n + 1]) == AfterIterate(s, Run(s, size, ops[..n]), ops[n].f)
  {
    assert ops[..n + 1][..n] == ops[..n];
    hide AfterIterate;
  }

  lemma RunStarts(s: Scheme, size: nat, ops: seq<Op>)
    requires 0 < size
    ensures Run(s, size, ops[..0]) == EmptyTable(size)
  {
  }

  lemma RunNext(s: Scheme, size: nat, ops: seq<Op>, n: nat)
    requires s.Lawful() && 0 < size && n < |ops| && Roomy(s, size, ops)
    ensures var b := Run(s, size, ops[..n]);
            Run(s, size, ops[..n + 1]) == Apply(s, b, ops[n])
            && (ops[n].OpStore? ==> HasRoom(s, b, ops[n].key))
            && AnswerOf(s, size, ops, n) == match ops[n]
               case OpStore(_, _) => Stored(0)
               case OpFetch(k) => Fetched(Lookup(s, b, k))
               case OpDelete(k) => Deleted(if Lookup(s, b, k).Some? then 0 else -1)
               case OpIterate(f) => Visited(IterateAll(s, b, f).visits)
               case OpClean => Cleaned
  {
    assert ops[..n + 1][..n] == ops[..n];
    if ops[n].OpFetch? || ops[n].OpDelete? {
      RunIsMap(s, size, ops[..n], ops[n].key);
    }
    hide Lookup, Expected, Apply, IterateAll, Scheme.Lawful, HasRoom;
  }
}
