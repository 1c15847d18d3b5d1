/// The chained hash table (kern/lib/util/hashtable.c), over the bucket lists of list.c.

module HashTables {
  import opened Options
  import opened Queues

  /// An element is known by its address.
  type Elem = nat

  /// The two functions a table is made with.
  datatype Keys = Keys(hash: Elem -> nat, eq: (Elem, Elem) -> bool)

  /// What the table relies on: an equivalence whose classes share one hash.
  ghost predicate Proper(k: Keys) {
    && (forall a :: k.eq(a, a))
    && (forall a, b {:trigger k.eq(a, b)} :: k.eq(a, b) ==> k.eq(b, a) && k.hash(a) == k.hash(b))
    && (forall a, b, c {:trigger k.eq(a, b), k.eq(b, c)} :: k.eq(a, b) && k.eq(b, c) ==> k.eq(a, c))
  }

  datatype Table = Table(con: seq<seq<Elem>>, entries: nat)

  function BucketOf(k: Keys, e: Elem): (b: nat)
    ensures b < 10
  {
    k.hash(e) % 10
  }

  // ---- one bucket ----

  /// The first element of the bucket that is equal to `e`.
  function FirstIn(k: Keys, b: seq<Elem>, e: Elem): Option<Elem> {
    if b == [] then None else if k.eq(e, b[0]) then Some(b[0]) else FirstIn(k, b[1..], e)
  }

  /// The bucket without that element.
  function Drop(k: Keys, b: seq<Elem>, e: Elem): seq<Elem> {
    if b == [] then [] else if k.eq(e, b[0]) then b[1..] else [b[0]] + Drop(k, b[1..], e)
  }

  /// One element of each class at most.
  ghost predicate Apart(k: Keys, b: seq<Elem>) {
    forall i, j :: 0 <= i < j < |b| ==> !k.eq(b[i], b[j])
  }

  lemma {:induction false} FirstInIs(k: Keys, b: seq<Elem>, e: Elem)
    ensures match FirstIn(k, b, e)
            case None => forall x <- b :: !k.eq(e, x)
            case Some(y) => y in b && k.eq(e, y)
  {
    if b != [] {
      FirstInIs(k, b[1..], e);
    }
  }

  /// In a bucket with its classes apart, dropping takes out exactly the class of `e`.
  lemma {:induction false} DropIs(k: Keys, b: seq<Elem>, e: Elem)
    requires Proper(k) && Apart(k, b)
    ensures Apart(k, Drop(k, b, e))
    ensures Elements<Elem>(Drop(k, b, e)) == set x | x in b && !k.eq(e, x)
    ensures |Drop(k, b, e)| == |b| - (if FirstIn(k, b, e).Some? then 1 else 0)
  {
    if b != [] {
      DropIs(k, b[1..], e);
      if k.eq(e, b[0]) {
        DropFirst(k, b, e);
      } else {
        DropLater(k, b, e, Drop(k, b[1..], e));
      }
    }
  }

  lemma DropFirst(k: Keys, b: seq<Elem>, e: Elem)
    requires Proper(k) && Apart(k, b) && b != [] && k.eq(e, b[0])
    ensures Elements<Elem>(b[1..]) == set x | x in b && !k.eq(e, x)
  {
    assert forall j :: 0 < j < |b| ==> !k.eq(b[0], b[j]) && !k.eq(e, b[j]);
    assert forall x <- b :: x == b[0] || exists j :: 0 < j < |b| && b[j] == x;
    assert forall x <- b :: !k.eq(e, x) <==> x in b[1..];
  }

  lemma DropLater(k: Keys, b: seq<Elem>, e: Elem, t: seq<Elem>)
    requires Apart(k, b) && b != [] && !k.eq(e, b[0]) && Apart(k, t)
    requires Elements<Elem>(t) == set x | x in b[1..] && !k.eq(e, x)
    ensures Apart(k, [b[0]] + t) && Elements<Elem>([b[0]] + t) == set x | x in b && !k.eq(e, x)
  {
    assert forall j :: 0 <= j < |t| ==> t[j] in Elements<Elem>(t);
    assert forall x <- b[1..] :: !k.eq(b[0], x);
    assert Elements<Elem>([b[0]] + t) == {b[0]} + Elements<Elem>(t);
  }

  // ---- the table ----

  function Init(): Table {
    Table(seq(10, i => []), 0)
  }

  function Find(k: Keys, t: Table, e: Elem): Option<Elem>
    requires |t.con| == 10
  {
    FirstIn(k, t.con[BucketOf(k, e)], e)
  }

  datatype Op = Insert(e: Elem) | Remove(e: Elem)

  /// `hashtable_insert` and `hashtable_remove`. The code never decrements `entries`; with
  /// `counting` a removal does.
  function Apply(k: Keys, t: Table, op: Op, counting: bool): (u: Table)
    requires |t.con| == 10
    ensures |u.con| == 10
  {
    var b := BucketOf(k, op.e);
    var found := FirstIn(k, t.con[b], op.e).Some?;
    var rest := Drop(k, t.con[b], op.e);
    match op
    case Insert(e) => Table(t.con[b := rest + [e]], if found then t.entries else t.entries + 1)
    case Remove(_) =>
      Table(t.con[b := rest], if counting && found && t.entries > 0 then t.entries - 1 else t.entries)
  }

  /// The table after these operations on an empty one.
  function Run(k: Keys, ops: seq<Op>, counting: bool): (u: Table)
    ensures |u.con| == 10
    decreases |ops|
  {
    if ops == [] then Init() else Apply(k, Run(k, ops[..|ops| - 1], counting), ops[|ops| - 1], counting)
  }

  /// All elements, in the order foreach visits them.
  function Visits(con: seq<seq<Elem>>): seq<Elem> {
    if con == [] then [] else con[0] + Visits(con[1..])
  }

  function Members(t: Table): set<Elem> {
    Elements<Elem>(Visits(t.con))
  }

  /// The set the table stands for: one element of each class that was inserted and not removed.
  function ApplyToSet(k: Keys, s: set<Elem>, op: Op): set<Elem> {
    (set x | x in s && !k.eq(op.e, x)) + (if op.Insert? then {op.e} else {})
  }

  function RunOnSet(k: Keys, ops: seq<Op>): set<Elem>
    decreases |ops|
  {
    if ops == [] then {} else ApplyToSet(k, RunOnSet(k, ops[..|ops| - 1]), ops[|ops| - 1])
  }

  /// What the last operation on the class of `e` left.
  function Latest(k: Keys, ops: seq<Op>, e: Elem): Option<Elem>
    decreases |ops|
  {
    if ops == [] then None
    else
      var op := ops[|ops| - 1];
      if k.eq(e, op.e) then (if op.Insert? then Some(op.e) else None) else Latest(k, ops[..|ops| - 1], e)
  }

  /// How many of the removals found an element.
  function Removals(k: Keys, ops: seq<Op>): nat
    decreases |ops|
  {
    if ops == [] then 0
    else
      var before := ops[..|ops| - 1];
      var op := ops[|ops| - 1];
      Removals(k, before) + if op.Remove? && Latest(k, before, op.e).Some? then 1 else 0
  }

  /// Every element is in the bucket of its hash, and no two are equal.
  ghost predicate Good(k: Keys, t: Table) {
    && |t.con| == 10
    && (forall b :: 0 <= b < 10 ==> Apart(k, t.con[b]))
    && (forall b, x :: 0 <= b < 10 && x in t.con[b] ==> BucketOf(k, x) == b)
  }

  lemma InitIsGood(k: Keys)
    ensures Good(k, Init()) && Members(Init()) == {}
  {
    NoVisits(Init().con);
  }

  lemma {:induction false} NoVisits(con: seq<seq<Elem>>)
    requires forall i :: 0 <= i < |con| ==> con[i] == []
    ensures Visits(con) == []
  {
    if con != [] {
      NoVisits(con[1..]);
    }
  }

  lemma ApplyKeeps(k: Keys, t: Table, op: Op, counting: bool)
    requires Proper(k) && Good(k, t)
    ensures Good(k, Apply(k, t, op, counting))
  {
    var b := BucketOf(k, op.e);
    var rest := Drop(k, t.con[b], op.e);
    DropIs(k, t.con[b], op.e);
    assert forall x <- rest :: x in Elements<Elem>(rest);
    assert forall x <- rest :: !k.eq(x, op.e);
  }

  /// A lookup sees the last operation on its class and nothing else.
  lemma ApplyFinds(k: Keys, t: Table, op: Op, counting: bool, e: Elem)
    requires Proper(k) && Good(k, t)
    ensures Find(k, Apply(k, t, op, counting), e)
         == if k.eq(e, op.e) then (if op.Insert? then Some(op.e) else None) else Find(k, t, e)
  {
    var b := BucketOf(k, op.e);
    var rest := Drop(k, t.con[b], op.e);
    DropIs(k, t.con[b], op.e);
    assert forall x <- rest :: x in Elements<Elem>(rest);
    if k.eq(e, op.e) {
      assert BucketOf(k, e) == b;
      assert forall x <- rest :: !k.eq(e, x);
      FirstOfAppend(k, rest, op.e, e);
    } else if BucketOf(k, e) == b {
      DropKeepsOthers(k, t.con[b], op.e, e);
      FirstOfAppend(k, rest, op.e, e);
    }
  }

  lemma {:induction false} FirstOfAppend(k: Keys, b: seq<Elem>, x: Elem, e: Elem)
    ensures FirstIn(k, b + [x], e)
         == if FirstIn(k, b, e).Some? then FirstIn(k, b, e) else if k.eq(e, x) then Some(x) else None
    ensures (forall y <- b :: !k.eq(e, y)) ==> FirstIn(k, b, e) == None
  {
    if b != [] {
      FirstOfAppend(k, b[1..], x, e);
      assert (b + [x])[1..] == b[1..] + [x];
    }
  }

  lemma {:induction false} DropKeepsOthers(k: Keys, b: seq<Elem>, x: Elem, e: Elem)
    requires Proper(k) && !k.eq(e, x)
    ensures FirstIn(k, Drop(k, b, x), e) == FirstIn(k, b, e)
  {
    if b != [] {
      if !k.eq(x, b[0]) {
        DropKeepsOthers(k, b[1..], x, e);
        assert Drop(k, b, x)[1..] == Drop(k, b[1..], x);
      } else {
        assert !k.eq(e, b[0]);
      }
    }
  }

  // ---- foreach ----

  lemma {:induction false} VisitsEach(con: seq<seq<Elem>>, x: Elem)
    ensures x in Visits(con) <==> exists b :: 0 <= b < |con| && x in con[b]
  {
    if con != [] {
      VisitsEach(con[1..], x);
      assert forall b :: 0 < b < |con| ==> con[b] == con[1..][b - 1];
    }
  }

  lemma MemberIsInItsBucket(k: Keys, t: Table, x: Elem)
    requires Good(k, t)
    ensures x in Members(t) <==> x in t.con[BucketOf(k, x)]
  {
    VisitsEach(t.con, x);
  }

  lemma {:induction false} VisitsOnce(con: seq<seq<Elem>>)
    requires forall b :: 0 <= b < |con| ==> NoDup<Elem>(con[b])
    requires forall b, c, x :: 0 <= b < c < |con| && x in con[b] ==> x !in con[c]
    ensures NoDup<Elem>(Visits(con))
  {
    if con != [] {
      VisitsOnce(con[1..]);
      var rest := Visits(con[1..]);
      forall x <- con[0]
        ensures x !in rest
      {
        VisitsEach(con[1..], x);
      }
      assert forall i :: 0 <= i < |con[0]| ==> con[0][i] in con[0];
      assert forall j :: 0 <= j < |rest| ==> rest[j] in rest;
    }
  }

  /// foreach visits each element of the table once.
  lemma ForeachVisitsOnce(k: Keys, t: Table)
    requires Proper(k) && Good(k, t)
    ensures NoDup<Elem>(Visits(t.con)) && |Visits(t.con)| == |Members(t)|
  {
    forall b | 0 <= b < 10
      ensures NoDup<Elem>(t.con[b])
    {
      assert Apart(k, t.con[b]);
      assert forall x :: k.eq(x, x);
    }
    forall b, c, x | 0 <= b < c < 10 && x in t.con[b]
      ensures x !in t.con[c]
    {
      assert BucketOf(k, x) == b;
    }
    VisitsOnce(t.con);
    NoDupCount<Elem>(Visits(t.con));
  }

  lemma {:induction false} VisitsUpdate(con: seq<seq<Elem>>, b: nat, c: seq<Elem>)
    requires b < |con|
    ensures |Visits(con[b := c])| == |Visits(con)| - |con[b]| + |c|
  {
    if b > 0 {
      VisitsUpdate(con[1..], b - 1, c);
      assert con[b := c][1..] == con[1..][b - 1 := c];
    } else {
      assert con[b := c][1..] == con[1..];
    }
  }

  // ---- the order of the visits ----

  /// The number of the last insertion of `x`, counted from one; 0 if there is none.
  function LastInsertion(ops: seq<Op>, x: Elem): nat
    decreases |ops|
  {
    if ops == [] then 0
    else if ops[|ops| - 1] == Insert(x) then |ops| else LastInsertion(ops[..|ops| - 1], x)
  }

  /// The bucket is in the order of insertion.
  ghost predicate InOrder(ops: seq<Op>, q: seq<Elem>) {
    forall i, j :: 0 <= i < j < |q| ==> LastInsertion(ops, q[i]) < LastInsertion(ops, q[j])
  }

  lemma LastInsertionBound(ops: seq<Op>, x: Elem)
    ensures LastInsertion(ops, x) <= |ops|
    decreases |ops|
  {
    if ops != [] {
      LastInsertionBound(ops[..|ops| - 1], x);
    }
  }

  lemma {:induction false} DropKeepsOrder(k: Keys, ops: seq<Op>, q: seq<Elem>, e: Elem)
    requires InOrder(ops, q)
    ensures InOrder(ops, Drop(k, q, e)) && forall x <- Drop(k, q, e) :: x in q
  {
    if q != [] && !k.eq(e, q[0]) {
      DropKeepsOrder(k, ops, q[1..], e);
      var r := Drop(k, q[1..], e);
      forall j | 0 <= j < |r| ensures LastInsertion(ops, q[0]) < LastInsertion(ops, r[j]) {
        assert r[j] in q[1..];
      }
    }
  }

  lemma OrderAfter(k: Keys, ops: seq<Op>, q: seq<Elem>, op: Op)
    requires Proper(k) && InOrder(ops, q) && forall x <- q :: !k.eq(op.e, x)
    ensures InOrder(ops + [op], q) && (op.Insert? ==> InOrder(ops + [op], q + [op.e]))
  {
    assert (ops + [op])[..|ops|] == ops;
    forall x <- q
      ensures LastInsertion(ops + [op], x) == LastInsertion(ops, x) <= |ops|
    {
      LastInsertionBound(ops, x);
      assert k.eq(op.e, op.e);
    }
  }

  lemma {:induction false} BucketsInOrder(k: Keys, ops: seq<Op>, counting: bool, b: nat)
    requires Proper(k) && b < 10
    ensures b < |Run(k, ops, counting).con| && InOrder(ops, Run(k, ops, counting).con[b])
    decreases |ops|
  {
    RunKeeps(k, ops, counting);
    if ops != [] {
      var before, op := ops[..|ops| - 1], ops[|ops| - 1];
      var q := Run(k, before, counting).con[b];
      BucketsInOrder(k, before, counting, b);
      RunKeeps(k, before, counting);
      assert before + [op] == ops;
      if b == k.hash(op.e) % 10 {
        DropIs(k, q, op.e);
        DropKeepsOrder(k, before, q, op.e);
        assert forall x <- Drop(k, q, op.e) :: x in Elements<Elem>(Drop(k, q, op.e));
        OrderAfter(k, before, Drop(k, q, op.e), op);
      } else {
        forall x <- q ensures !k.eq(op.e, x) {
          assert BucketOf(k, x) == b;
        }
        OrderAfter(k, before, q, op);
      }
    }
  }

  lemma {:induction false} SplitVisits(con: seq<seq<Elem>>, i: nat) returns (b: nat, k: nat)
    requires i < |Visits(con)|
    ensures b < |con| && k < |con[b]| && con[b][k] == Visits(con)[i]
    ensures i == |Visits(con[..b])| + k
    decreases con
  {
    if i < |con[0]| {
      b, k := 0, i;
      assert con[..0] == [];
    } else {
      b, k := SplitVisits(con[1..], i - |con[0]|);
      assert con[..b + 1][1..] == con[1..][..b];
      b := b + 1;
    }
  }

  lemma {:induction false} VisitsGrow(con: seq<seq<Elem>>, b: nat, c: nat)
    requires b < c <= |con|
    ensures |Visits(con[..b])| + |con[b]| <= |Visits(con[..c])|
    decreases b
  {
    assert con[..c][0] == con[0] && con[..c][1..] == con[1..][..c - 1];
    if b == 0 {
      assert con[..0] == [];
    } else {
      assert con[..b][0] == con[0] && con[..b][1..] == con[1..][..b - 1];
      VisitsGrow(con[1..], b - 1, c - 1);
    }
  }

  /// foreach visits the elements by the last digit of their hashes, and those that share it in
  /// the order in which they were last inserted.
  lemma VisitsInOrder(k: Keys, ops: seq<Op>, counting: bool, i: nat, j: nat)
    requires Proper(k) && i < j < |Visits(Run(k, ops, counting).con)|
    ensures var v := Visits(Run(k, ops, counting).con);
      && k.hash(v[i]) % 10 <= k.hash(v[j]) % 10
      && (k.hash(v[i]) % 10 == k.hash(v[j]) % 10 ==> LastInsertion(ops, v[i]) < LastInsertion(ops, v[j]))
  {
    var con := Run(k, ops, counting).con;
    RunKeeps(k, ops, counting);
    var b, x := SplitVisits(con, i);
    var c, y := SplitVisits(con, j);
    assert BucketOf(k, con[b][x]) == b && BucketOf(k, con[c][y]) == c;
    if c < b {
      VisitsGrow(con, c, b);
    } else if b == c {
      BucketsInOrder(k, ops, counting, b);
    }
  }

  // ---- what every sequence of operations keeps ----

  /// The table follows the set it stands for.
  lemma ApplyFollowsSet(k: Keys, t: Table, op: Op, counting: bool)
    requires Proper(k) && Good(k, t)
    ensures Members(Apply(k, t, op, counting)) == ApplyToSet(k, Members(t), op)
  {
    var u := Apply(k, t, op, counting);
    var b := BucketOf(k, op.e);
    ApplyKeeps(k, t, op, counting);
    DropIs(k, t.con[b], op.e);
    forall x
      ensures x in Members(u) <==> x in ApplyToSet(k, Members(t), op)
    {
      MemberIsInItsBucket(k, t, x);
      MemberIsInItsBucket(k, u, x);
      assert x in Drop(k, t.con[b], op.e) <==> x in Elements<Elem>(Drop(k, t.con[b], op.e));
    }
  }

  lemma {:induction false} RunKeeps(k: Keys, ops: seq<Op>, counting: bool)
    requires Proper(k)
    ensures Good(k, Run(k, ops, counting))
    decreases |ops|
  {
    if ops == [] {
      InitIsGood(k);
    } else {
      RunKeeps(k, ops[..|ops| - 1], counting);
      ApplyKeeps(k, Run(k, ops[..|ops| - 1], counting), ops[|ops| - 1], counting);
    }
  }

  /// Whatever was done to the table, a lookup returns what the last operation on the class
  /// of its argument left.
  lemma {:induction false} FindReturnsLatest(k: Keys, ops: seq<Op>, counting: bool, e: Elem)
    requires Proper(k)
    ensures Find(k, Run(k, ops, counting), e) == Latest(k, ops, e)
    decreases |ops|
  {
    if ops != [] {
      FindReturnsLatest(k, ops[..|ops| - 1], counting, e);
      RunKeeps(k, ops[..|ops| - 1], counting);
      ApplyFinds(k, Run(k, ops[..|ops| - 1], counting), ops[|ops| - 1], counting, e);
    }
  }

  lemma {:induction false} RunFollowsSet(k: Keys, ops: seq<Op>, counting: bool)
    requires Proper(k)
    ensures Members(Run(k, ops, counting)) == RunOnSet(k, ops)
    decreases |ops|
  {
    if ops == [] {
      InitIsGood(k);
    } else {
      RunFollowsSet(k, ops[..|ops| - 1], counting);
      RunKeeps(k, ops[..|ops| - 1], counting);
      ApplyFollowsSet(k, Run(k, ops[..|ops| - 1], counting), ops[|ops| - 1], counting);
    }
  }

  /// `entries` drifts from the number of elements by one for each removal that the code does
  /// not count.
  lemma ApplyCounts(k: Keys, t: Table, op: Op, counting: bool)
    requires Proper(k) && Good(k, t) && t.entries >= |Visits(t.con)|
    ensures var u := Apply(k, t, op, counting);
            u.entries - |Visits(u.con)| == t.entries - |Visits(t.con)|
              + if !counting && op.Remove? && Find(k, t, op.e).Some? then 1 else 0
  {
    var b := BucketOf(k, op.e);
    var rest := Drop(k, t.con[b], op.e);
    DropIs(k, t.con[b], op.e);
    VisitsUpdate(t.con, b, rest);
    VisitsUpdate(t.con, b, rest + [op.e]);
    VisitsUpdate(t.con, b, []);
  }

  lemma {:induction false} EntriesDrift(k: Keys, ops: seq<Op>, counting: bool)
    requires Proper(k)
    ensures Run(k, ops, counting).entries
         == |Visits(Run(k, ops, counting).con)| + if counting then 0 else Removals(k, ops)
    decreases |ops|
  {
    if ops == [] {
      NoVisits(Init().con);
    } else {
      var before := ops[..|ops| - 1];
      EntriesDrift(k, before, counting);
      RunKeeps(k, before, counting);
      ApplyCounts(k, Run(k, before, counting), ops[|ops| - 1], counting);
      FindReturnsLatest(k, before, counting, ops[|ops| - 1].e);
    }
  }

  /// With the missing decrement `entries` is the number of elements in the set the table
  /// stands for; as written it is that number exactly when no removal has found anything.
  lemma EntriesIsSize(k: Keys, ops: seq<Op>)
    requires Proper(k)
    ensures Run(k, ops, true).entries == |RunOnSet(k, ops)|
    ensures Run(k, ops, false).entries == |RunOnSet(k, ops)| <==> Removals(k, ops) == 0
  {
    EntriesDrift(k, ops, true);
    EntriesDrift(k, ops, false);
    RunKeeps(k, ops, true);
    RunKeeps(k, ops, false);
    ForeachVisitsOnce(k, Run(k, ops, true));
    ForeachVisitsOnce(k, Run(k, ops, false));
    RunFollowsSet(k, ops, true);
    RunFollowsSet(k, ops, false);
  }
}

/// The code: a table of bucket lists changed in place.
module HashTableCode {
  import opened HashTables
  import opened Options

  lemma CutAt(bucket: seq<Elem>, i: nat)
    requires i < |bucket|
    ensures bucket[i..][1..] == bucket[i + 1..] && bucket[..i + 1] == bucket[..i] + [bucket[i]]
  {
  }

  lemma DropPast(q: seq<Elem>, x: Elem, r: seq<Elem>)
    ensures q + ([x] + r) == (q + [x]) + r
  {
  }

  class HashTable {
    const keys: Keys
    var buckets: nat
    var entries: nat
    var con: seq<seq<Elem>>

    ghost predicate Sized()
      reads this
    {
      buckets == 10 && |con| == 10
    }

    function Now(): Table
      reads this
    {
      Table(con, entries)
    }

    constructor (keys: Keys)
      ensures this.keys == keys && Sized() && Now() == Init()
    {
      this.keys := keys;
      con := [];
      buckets := 10;
      entries := 0;
      new;
      var i := 0;
      while i < 10
        invariant 0 <= i <= 10 && con == seq(i, j => []) && buckets == 10 && entries == 0
        invariant this.keys == keys
      {
        con := con + [[]];
        i := i + 1;
      }
    }

    /// The walk along a bucket that find, insert and remove share.
    method Walk(bucket: seq<Elem>, e: Elem) returns (i: nat)
      ensures i <= |bucket|
      ensures FirstIn(keys, bucket, e) == if i == |bucket| then None else Some(bucket[i])
      ensures Drop(keys, bucket, e) == if i == |bucket| then bucket else bucket[..i] + bucket[i + 1..]
    {
      i := 0;
      while i != |bucket| && !keys.eq(e, bucket[i])
        invariant i <= |bucket|
        invariant FirstIn(keys, bucket, e) == FirstIn(keys, bucket[i..], e)
        invariant Drop(keys, bucket, e) == bucket[..i] + Drop(keys, bucket[i..], e)
        decreases |bucket| - i
      {
        CutAt(bucket, i);
        DropPast(bucket[..i], bucket[i], Drop(keys, bucket[i + 1..], e));
        i := i + 1;
      }
      if i < |bucket| {
        CutAt(bucket, i);
      } else {
        assert bucket[..i] == bucket && bucket[i..] == [];
      }
    }

    method Lookup(e: Elem) returns (found: Option<Elem>)
      requires Sized()
      ensures found == Find(keys, Now(), e)
    {
      var b := keys.hash(e) % buckets;
      var i := Walk(con[b], e);
      found := if i == |con[b]| then None else Some(con[b][i]);
    }

    method InsertElem(e: Elem)
      requires Sized()
      modifies this
      ensures Sized() && Now() == Apply(keys, old(Now()), Insert(e), true)
    {
      var b := keys.hash(e) % buckets;
      var bucket := con[b];
      var i := Walk(bucket, e);
      if i == |bucket| {
        con := con[b := bucket + [e]];
        entries := entries + 1;
      } else {
        con := con[b := bucket[..i] + bucket[i + 1..] + [e]];
      }
    }

    /// The code is the case without `counting`.
    method RemoveElem(e: Elem, counting: bool)
      requires Sized()
      modifies this
      ensures Sized() && Now() == Apply(keys, old(Now()), Remove(e), counting)
    {
      var b := keys.hash(e) % buckets;
      var bucket := con[b];
      var i := Walk(bucket, e);
      if i != |bucket| {
        con := con[b := bucket[..i] + bucket[i + 1..]];
        if counting && entries > 0 {
          entries := entries - 1;
        }
      } else {
        assert con[b := bucket] == con;
      }
    }

    /// hashtable_foreach, with the action recorded as a visit.
    method Foreach() returns (visited: seq<Elem>)
      requires Sized()
      ensures visited == Visits(con)
    {
      visited := [];
      var b := 0;
      while b < buckets
        invariant 0 <= b <= 10
        invariant visited + Visits(con[b..]) == Visits(con)
      {
        var i := 0;
        ghost var before := visited;
        while i < |con[b]|
          invariant 0 <= i <= |con[b]| && visited == before + con[b][..i]
        {
          visited := visited + [con[b][i]];
          i := i + 1;
        }
        assert con[b..][1..] == con[b + 1..];
        assert before + (con[b] + Visits(con[b + 1..])) == (before + con[b]) + Visits(con[b + 1..]);
        assert con[b][..i] == con[b];
        b := b + 1;
      }
    }
  }
}
