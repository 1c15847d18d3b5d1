/// Deep copies of page tables (`_pml_copy` in kern/lib/mem/pml4.c).

module PageCopies {
  import opened Options
  import opened PageTables

  /// The entry the copy holds: the same frame and flags, but writable only without
  /// copy-on-write.
  function Copied(e: Entry, cow: bool): Entry {
    Entry(e.frame, (e.flags - {WRITABLE}) + if cow then {} else {WRITABLE})
  }

  function Row(m: Memory, f: nat): (t: seq<Entry>)
    ensures |t| == ENTRIES
  {
    if f in m && |m[f]| == ENTRIES then m[f] else ZeroTable()
  }

  function Put(s: State, f: nat, i: Index, e: Entry): State {
    s.(mem := s.mem[f := Row(s.mem, f)[i := e]])
  }

  function Fresh(s: State): State {
    State(s.mem[s.pool := ZeroTable()], s.pool + 1)
  }

  /// The loop of the copy from entry i on. `levels` counts this table and those below it,
  /// so it is one less than the source's level.
  function Copy(s: State, dest: nat, src: nat, cow: bool, levels: nat, i: nat): State
    requires levels > 0
    decreases levels, 512 - i, dest
  {
    if i >= 512 then s
    else Copy(CopyEntry(s, dest, Row(s.mem, src)[i], cow, levels, i), dest, src, cow, levels, i + 1)
  }

  /// One round: a directory entry is copied, a table behind an entry is copied first.
  function CopyEntry(s: State, dest: nat, e: Entry, cow: bool, levels: nat, i: Index): State
    requires levels > 0
    decreases levels, 0
  {
    if levels == 1 then Put(s, dest, i, Copied(e, cow))
    else if e.frame == 0 then s
    else Put(Copy(Fresh(s), s.pool, e.frame, cow, levels - 1, 0), dest, i, Copied(Entry(s.pool, e.flags), cow))
  }

  /// The leaf entry at the end of a walk, or nothing where a table is missing.
  function Find(m: Memory, e: Entry, q: seq<Index>): Option<Entry>
    decreases |q|
  {
    if q == [] then Some(e)
    else if e.frame == 0 then None
    else Find(m, Row(m, e.frame)[q[0]], q[1..])
  }

  function CopiedOption(o: Option<Entry>, cow: bool): Option<Entry> {
    match o
    case None => None
    case Some(e) => Some(Copied(e, cow))
  }

  // ---- what a copy leaves alone ----

  /// Tables older than the pool mark, other than dest, are as they were.
  ghost predicate Untouched(s: State, t: State, dest: nat) {
    && s.pool <= t.pool
    && (forall f: nat :: f < s.pool && f != dest ==> (f in t.mem <==> f in s.mem))
    && (forall f: nat :: f < s.pool && f != dest && f in s.mem ==> t.mem[f] == s.mem[f])
  }

  lemma {:induction false} CopyLeavesRest(s: State, dest: nat, src: nat, cow: bool, levels: nat, i: nat)
    requires levels > 0 && dest < s.pool
    ensures Untouched(s, Copy(s, dest, src, cow, levels, i), dest)
    decreases levels, 512 - i
  {
    if i < 512 {
      var e := Row(s.mem, src)[i];
      var s1 := CopyEntry(s, dest, e, cow, levels, i);
      if levels > 1 && e.frame != 0 {
        CopyLeavesRest(Fresh(s), s.pool, e.frame, cow, levels - 1, 0);
      }
      CopyLeavesRest(s1, dest, src, cow, levels, i + 1);
    }
  }

  // ---- the tables of a copy ----

  /// `new` lists tables below the path p, each under the one path leading to it, with page
  /// numbers from lo up to hi, hanging below entries from i on.
  ghost predicate Listing(m: Memory, added: Paths, p: seq<Index>, lo: nat, hi: nat, i: nat) {
    && (forall r {:trigger Table(m, added, r)} :: r in added ==> Table(m, added, r))
    && (forall r {:trigger added[r]} :: r in added ==>
          |p| < |r| && r[..|p|] == p && i <= r[|p|] && lo <= added[r] < hi)
    && (forall r, q {:trigger added[r], added[q]} :: r in added && q in added && added[r] == added[q] ==> r == q)
    && (forall r {:trigger r[..|r| - 1]} :: r in added && |r| > |p| + 1 ==> r[..|r| - 1] in added)
  }

  /// What the loop from entry i on has achieved when it ends in t.
  ghost predicate CopyDone(m0: Memory, src: nat, t: State, dest: nat, added: Paths,
                           p: seq<Index>, lo: nat, cow: bool, levels: nat, i: nat) {
    && levels > 0
    && dest in t.mem && |t.mem[dest]| == ENTRIES
    && Listing(t.mem, added, p, lo, t.pool, i)
    && (levels > 1 ==> forall j: Index {:trigger EntryLinked(t.mem[dest][j], added, p + [j])} ::
          i <= j ==> EntryLinked(t.mem[dest][j], added, p + [j]))
    && (forall j: Index, q: seq<Index> {:trigger Find(t.mem, t.mem[dest][j], q)} ::
          i <= j && |q| == levels - 1 ==>
            Find(t.mem, t.mem[dest][j], q) == CopiedOption(Find(m0, Row(m0, src)[j], q), cow))
  }

  lemma {:induction false} EarlierEntriesKept(s: State, dest: nat, src: nat, cow: bool, levels: nat, i: nat, j: Index)
    requires levels > 0 && dest in s.mem && |s.mem[dest]| == ENTRIES && dest < s.pool && j < i
    ensures var t := Copy(s, dest, src, cow, levels, i);
      dest in t.mem && |t.mem[dest]| == ENTRIES && t.mem[dest][j] == s.mem[dest][j]
    decreases 512 - i
  {
    if i < 512 {
      var e := Row(s.mem, src)[i];
      if levels > 1 && e.frame != 0 {
        CopyLeavesRest(Fresh(s), s.pool, e.frame, cow, levels - 1, 0);
      }
      EarlierEntriesKept(CopyEntry(s, dest, e, cow, levels, i), dest, src, cow, levels, i + 1, j);
    }
  }

  /// A walk inside listed tables sees only those tables.
  lemma {:induction false} FindStable(m: Memory, m': Memory, at: Paths, r: seq<Index>, e: Entry, q: seq<Index>)
    requires forall x {:trigger Table(m, at, x)} :: x in at ==> Table(m, at, x)
    requires forall x {:trigger at[x]} :: x in at && at[x] in m ==> at[x] in m' && m'[at[x]] == m[at[x]]
    requires |r| + |q| == DEPTH && (q != [] ==> EntryLinked(e, at, r))
    ensures Find(m', e, q) == Find(m, e, q)
    decreases |q|
  {
    if q != [] && e.frame != 0 {
      assert Table(m, at, r);
      var x := m[e.frame][q[0]];
      if |q| > 1 {
        assert EntryLinked(x, at, r + [q[0]]);
      }
      FindStable(m, m', at, r + [q[0]], x, q[1..]);
    }
  }

  /// The source tree stands in s as it did in m0, apart from dest and below the pool mark.
  ghost predicate SourceIn(s: State, m0: Memory, at0: Paths, dest: nat) {
    && (forall r {:trigger Table(m0, at0, r)} :: r in at0 ==> Table(m0, at0, r))
    && (forall r {:trigger at0[r]} :: r in at0 ==>
          at0[r] < s.pool && at0[r] != dest && at0[r] in m0 && at0[r] in s.mem && s.mem[at0[r]] == m0[at0[r]])
  }

  lemma SourceStays(s: State, t: State, m0: Memory, at0: Paths, dest: nat, dest': nat)
    requires SourceIn(s, m0, at0, dest) && Untouched(s, t, dest)
    requires dest' == dest || s.pool <= dest'
    ensures SourceIn(t, m0, at0, dest')
  {
  }

  /// Two listings agree on a path.
  ghost predicate Same(a: Paths, b: Paths, r: seq<Index>) {
    (r in a <==> r in b) && (r in a ==> a[r] == b[r])
  }

  lemma TableMoves(m: Memory, m': Memory, a: Paths, b: Paths, r: seq<Index>)
    requires r in a && r in b && a[r] == b[r] && Table(m, a, r)
    requires a[r] in m' && m'[a[r]] == m[a[r]]
    requires forall j: Index :: Same(a, b, r + [j])
    ensures Table(m', b, r)
  {
    if |r| + 1 < DEPTH {
      forall j: Index ensures EntryLinked(m'[b[r]][j], b, r + [j]) {
        assert EntryLinked(m[a[r]][j], a, r + [j]) && Same(a, b, r + [j]);
      }
    }
  }

  /// A copied table together with what hangs below it, as one listing.
  lemma ChildListing(m0: Memory, src: nat, t: State, child: nat, below: Paths,
                     p: seq<Index>, i: Index, cow: bool, levels: nat) returns (at: Paths)
    requires CopyDone(m0, src, t, child, below, p + [i], child + 1, cow, levels, 0)
    requires |p| + 1 + levels == DEPTH && child < t.pool
    ensures at == below[p + [i] := child]
    ensures forall r {:trigger Table(t.mem, at, r)} :: r in at ==> Table(t.mem, at, r)
    ensures forall r {:trigger at[r]} :: r in at ==>
      |p| < |r| && r[..|p|] == p && r[|p|] == i && child <= at[r] < t.pool
    ensures forall r, q {:trigger at[r], at[q]} :: r in at && q in at && at[r] == at[q] ==> r == q
    ensures forall r {:trigger r[..|r| - 1]} :: r in at && |r| > |p| + 1 ==> r[..|r| - 1] in at
  {
    at := below[p + [i] := child];
    forall r | r in at ensures |p| < |r| && r[..|p|] == p && r[|p|] == i && child <= at[r] < t.pool {
      if r != p + [i] {
        assert child + 1 <= below[r] < t.pool;
        assert r[..|p|] == r[..|p| + 1][..|p|] && r[|p|] == r[..|p| + 1][|p|];
      }
    }
    forall r | r in at ensures Table(t.mem, at, r) {
      if r == p + [i] {
        forall j: Index | |r| + 1 < DEPTH ensures EntryLinked(t.mem[child][j], at, r + [j]) {
          assert EntryLinked(t.mem[child][j], below, p + [i] + [j]);
        }
      } else {
        assert Table(t.mem, below, r);
        forall j: Index ensures Same(below, at, r + [j]) {
          assert below[r] == at[r];
        }
        TableMoves(t.mem, t.mem, below, at, r);
      }
    }
    forall r | r in at && |r| > |p| + 1 ensures r[..|r| - 1] in at {
      assert below[r] == at[r] && Table(t.mem, below, r);
      assert r[..|r| - 1] == p + [i];
    }
  }

  /// The listing of one child put together with that of the entries after it.
  lemma JoinListings(t: State, m1: Memory, at: Paths, rest: Paths,
                     p: seq<Index>, i: Index, lo: nat, mid: nat) returns (added: Paths)
    requires lo <= mid <= t.pool
    requires forall r {:trigger Table(m1, at, r)} :: r in at ==> Table(m1, at, r)
    requires forall r {:trigger at[r]} :: r in at ==>
      && |p| < |r| && r[..|p|] == p && r[|p|] == i && lo <= at[r] < mid
      && at[r] in m1 && at[r] in t.mem && t.mem[at[r]] == m1[at[r]]
    requires forall r, q {:trigger at[r], at[q]} :: r in at && q in at && at[r] == at[q] ==> r == q
    requires forall r {:trigger r[..|r| - 1]} :: r in at && |r| > |p| + 1 ==> r[..|r| - 1] in at
    requires Listing(t.mem, rest, p, mid, t.pool, i + 1)
    ensures added == at + rest
    ensures Listing(t.mem, added, p, lo, t.pool, i)
    ensures forall r {:trigger Same(at, added, r)} :: |p| < |r| && r[|p|] <= i ==> Same(at, added, r)
    ensures forall r {:trigger Same(rest, added, r)} :: |p| < |r| && r[|p|] > i ==> Same(rest, added, r)
  {
    added := at + rest;
    forall r | r in rest ensures |p| < |r| && i < r[|p|] {
      assert rest[r] < t.pool;
    }
    forall r | r in at ensures |p| < |r| && r[|p|] == i {
      assert at[r] < mid;
    }
    forall r | r in added ensures Table(t.mem, added, r) {
      if r in rest {
        assert rest[r] < t.pool && Table(t.mem, rest, r);
        forall j: Index ensures Same(rest, added, r + [j]) {
        }
        TableMoves(t.mem, t.mem, rest, added, r);
      } else {
        assert at[r] < mid && Table(m1, at, r);
        forall j: Index ensures Same(at, added, r + [j]) {
        }
        TableMoves(m1, t.mem, at, added, r);
      }
    }
    forall r | r in added ensures |p| < |r| && r[..|p|] == p && i <= r[|p|] && lo <= added[r] < t.pool {
      if r in rest { assert rest[r] < t.pool; } else { assert at[r] < mid; }
    }
    forall r, q | r in added && q in added && added[r] == added[q] ensures r == q {
      if r in rest { assert mid <= rest[r]; } else { assert at[r] < mid; }
      if q in rest { assert mid <= rest[q]; } else { assert at[q] < mid; }
    }
    forall r | r in added && |r| > |p| + 1 ensures r[..|r| - 1] in added {
      if r in rest { assert r[..|r| - 1] in rest; } else { assert r[..|r| - 1] in at; }
    }
  }

  /// An entry without a table behind it joins what the later entries achieved.
  lemma PlainEntry(m0: Memory, src: nat, t: State, dest: nat, added: Paths,
                   p: seq<Index>, lo: nat, cow: bool, levels: nat, i: Index)
    requires CopyDone(m0, src, t, dest, added, p, lo, cow, levels, i + 1)
    requires var e := Row(m0, src)[i];
      if levels == 1 then t.mem[dest][i] == Copied(e, cow) else e.frame == 0 && t.mem[dest][i] == ZERO
    ensures CopyDone(m0, src, t, dest, added, p, lo, cow, levels, i)
  {
    forall r | r in added ensures |p| < |r| && r[..|p|] == p && i < r[|p|] && lo <= added[r] < t.pool {
      assert added[r] < t.pool;
    }
    if levels > 1 {
      forall j: Index | i <= j ensures EntryLinked(t.mem[dest][j], added, p + [j]) {
        assert p + [i] !in added;
      }
    }
    forall j: Index, q: seq<Index> | i <= j && |q| == levels - 1
      ensures Find(t.mem, t.mem[dest][j], q) == CopiedOption(Find(m0, Row(m0, src)[j], q), cow)
    {
    }
  }

  /// An entry with a table behind it, whose copy was made first, joins the later entries.
  lemma TableEntry(m0: Memory, src: nat, s2: State, child: nat, t: State, dest: nat,
                   below: Paths, rest: Paths,
                   p: seq<Index>, cow: bool, levels: nat, i: Index) returns (added: Paths)
    requires |p| + levels == DEPTH && levels > 1 && dest < child < s2.pool
    requires var e := Row(m0, src)[i];
      && e.frame != 0 && Present(e)
      && CopyDone(m0, e.frame, s2, child, below, p + [i], child + 1, cow, levels - 1, 0)
      && dest in t.mem && |t.mem[dest]| == ENTRIES && t.mem[dest][i] == Copied(Entry(child, e.flags), cow)
    requires CopyDone(m0, src, t, dest, rest, p, s2.pool, cow, levels, i + 1)
    requires forall f: nat :: f < s2.pool && f != dest && f in s2.mem ==> f in t.mem && t.mem[f] == s2.mem[f]
    requires s2.pool <= t.pool
    ensures CopyDone(m0, src, t, dest, added, p, child, cow, levels, i)
  {
    var e := Row(m0, src)[i];
    var at: Paths := ChildListing(m0, e.frame, s2, child, below, p, i, cow, levels - 1);
    forall r | r in at
      ensures |p| < |r| && r[..|p|] == p && r[|p|] == i && child <= at[r] < s2.pool
      ensures at[r] in s2.mem && at[r] in t.mem && t.mem[at[r]] == s2.mem[at[r]]
    {
      assert Table(s2.mem, at, r) && at[r] < s2.pool;
    }
    added := JoinListings(t, s2.mem, at, rest, p, i, child, s2.pool);
    forall j: Index | i <= j ensures EntryLinked(t.mem[dest][j], added, p + [j]) {
      if j == i {
        assert Same(at, added, p + [i]);
      } else {
        assert EntryLinked(t.mem[dest][j], rest, p + [j]);
        assert Same(rest, added, p + [j]);
      }
    }
    forall j: Index, q: seq<Index> | i <= j && |q| == levels - 1
      ensures Find(t.mem, t.mem[dest][j], q) == CopiedOption(Find(m0, Row(m0, src)[j], q), cow)
    {
      if j == i {
        var x := t.mem[dest][i];
        assert EntryLinked(x, at, p + [i]);
        FindStable(s2.mem, t.mem, at, p + [i], x, q);
        assert Find(s2.mem, s2.mem[child][q[0]], q[1..]) == CopiedOption(Find(m0, Row(m0, e.frame)[q[0]], q[1..]), cow);
      }
    }
  }

  /// The table that is being filled, and the tree it is filled from.
  ghost predicate CopyReady(s: State, m0: Memory, at0: Paths, dest: nat, p: seq<Index>, levels: nat, i: nat) {
    && SourceIn(s, m0, at0, dest)
    && p in at0 && levels > 0 && |p| + levels == DEPTH && i <= 512
    && dest in s.mem && |s.mem[dest]| == ENTRIES && dest < s.pool
    && (levels > 1 ==> forall j: Index :: i <= j ==> s.mem[dest][j] == ZERO)
  }

  /// One round of the loop leaves everything ready for the next.
  lemma ReadyForNext(s: State, m0: Memory, at0: Paths, dest: nat, p: seq<Index>, cow: bool, levels: nat, i: Index)
    requires CopyReady(s, m0, at0, dest, p, levels, i)
    ensures var s1 := CopyEntry(s, dest, Row(s.mem, at0[p])[i], cow, levels, i);
      && CopyReady(s1, m0, at0, dest, p, levels, i + 1)
      && Untouched(s, s1, dest)
      && (levels == 1 ==> s1.mem[dest][i] == Copied(Row(s.mem, at0[p])[i], cow))
  {
    var e := Row(s.mem, at0[p])[i];
    var s1 := CopyEntry(s, dest, e, cow, levels, i);
    if levels > 1 && e.frame != 0 {
      CopyLeavesRest(Fresh(s), s.pool, e.frame, cow, levels - 1, 0);
    }
    SourceStays(s, s1, m0, at0, dest, dest);
  }

  /// The child's table is ready to be filled from the table behind the entry.
  lemma ReadyForChild(s: State, m0: Memory, at0: Paths, dest: nat, p: seq<Index>, levels: nat, i: Index)
    requires CopyReady(s, m0, at0, dest, p, levels, i) && levels > 1
    requires at0[p] in s.mem && Row(s.mem, at0[p])[i].frame != 0
    ensures p + [i] in at0 && at0[p + [i]] == Row(s.mem, at0[p])[i].frame && Present(Row(s.mem, at0[p])[i])
    ensures CopyReady(Fresh(s), m0, at0, s.pool, p + [i], levels - 1, 0)
  {
    assert Table(m0, at0, p) && s.mem[at0[p]] == m0[at0[p]];
    assert EntryLinked(m0[at0[p]][i], at0, p + [i]);
    SourceStays(s, Fresh(s), m0, at0, dest, s.pool);
  }

  lemma SourceRow(s: State, m0: Memory, at0: Paths, dest: nat, p: seq<Index>)
    requires SourceIn(s, m0, at0, dest) && p in at0
    ensures at0[p] in s.mem && Row(s.mem, at0[p]) == Row(m0, at0[p])
  {
    assert at0[p] < s.pool;
  }

  /// The copy of a tree: same leaf entries up to the writable flag, in tables of its own.
  lemma {:induction false} CopyWorks(s: State, m0: Memory, at0: Paths, dest: nat,
                                     p: seq<Index>, cow: bool, levels: nat, i: nat) returns (added: Paths)
    requires CopyReady(s, m0, at0, dest, p, levels, i)
    ensures CopyDone(m0, at0[p], Copy(s, dest, at0[p], cow, levels, i), dest, added, p, s.pool, cow, levels, i)
    decreases levels, 512 - i, 1
  {
    var src := at0[p];
    SourceRow(s, m0, at0, dest, p);
    if i == 512 {
      added := map[];
    } else {
      var e := Row(s.mem, src)[i];
      if levels == 1 || e.frame == 0 {
        var s1 := CopyEntry(s, dest, e, cow, levels, i);
        ReadyForNext(s, m0, at0, dest, p, cow, levels, i);
        EarlierEntriesKept(s1, dest, src, cow, levels, i + 1, i);
        added := CopyWorks(s1, m0, at0, dest, p, cow, levels, i + 1);
        PlainEntry(m0, src, Copy(s, dest, src, cow, levels, i), dest, added, p, s.pool, cow, levels, i);
      } else {
        added := CopyTableEntry(s, m0, at0, dest, p, cow, levels, i);
      }
    }
  }

  /// The rest of the loop keeps the entry and the tables of the round before it.
  lemma RestKeepsEntry(s: State, dest: nat, src: nat, cow: bool, levels: nat, i: Index)
    requires levels > 1 && dest in s.mem && |s.mem[dest]| == ENTRIES && dest < s.pool
    requires Row(s.mem, src)[i].frame != 0
    ensures var e := Row(s.mem, src)[i];
      var s2 := Copy(Fresh(s), s.pool, e.frame, cow, levels - 1, 0);
      var t := Copy(s, dest, src, cow, levels, i);
      && dest in t.mem && |t.mem[dest]| == ENTRIES && t.mem[dest][i] == Copied(Entry(s.pool, e.flags), cow)
      && s.pool < s2.pool <= t.pool
      && forall f: nat :: f < s2.pool && f != dest && f in s2.mem ==> f in t.mem && t.mem[f] == s2.mem[f]
  {
    var e := Row(s.mem, src)[i];
    var s1 := CopyEntry(s, dest, e, cow, levels, i);
    CopyLeavesRest(Fresh(s), s.pool, e.frame, cow, levels - 1, 0);
    CopyLeavesRest(s1, dest, src, cow, levels, i + 1);
    EarlierEntriesKept(s1, dest, src, cow, levels, i + 1, i);
  }

  lemma {:induction false} CopyTableEntry(s: State, m0: Memory, at0: Paths, dest: nat,
                                          p: seq<Index>, cow: bool, levels: nat, i: Index) returns (added: Paths)
    requires CopyReady(s, m0, at0, dest, p, levels, i) && levels > 1
    requires Row(s.mem, at0[p])[i].frame != 0
    ensures CopyDone(m0, at0[p], Copy(s, dest, at0[p], cow, levels, i), dest, added, p, s.pool, cow, levels, i)
    decreases levels, 512 - i, 0
  {
    SourceRow(s, m0, at0, dest, p);
    var src, e := at0[p], Row(m0, at0[p])[i];
    var s2 := Copy(Fresh(s), s.pool, e.frame, cow, levels - 1, 0);
    var t := Copy(s, dest, src, cow, levels, i);
    ReadyForChild(s, m0, at0, dest, p, levels, i);
    var below := CopyChild(s, m0, at0, dest, p, e, s2, cow, levels, i);
    var rest := CopyRest(s, m0, at0, dest, p, s2, t, cow, levels, i);
    RestKeepsEntry(s, dest, src, cow, levels, i);
    added := TableEntry(m0, src, s2, s.pool, t, dest, below, rest, p, cow, levels, i);
  }

  lemma {:induction false} CopyChild(s: State, m0: Memory, at0: Paths, dest: nat, p: seq<Index>,
                                     e: Entry, s2: State, cow: bool, levels: nat, i: Index) returns (below: Paths)
    requires CopyReady(s, m0, at0, dest, p, levels, i) && levels > 1
    requires e == Row(s.mem, at0[p])[i] && e.frame != 0 && at0[p] in s.mem
    requires s2 == Copy(Fresh(s), s.pool, e.frame, cow, levels - 1, 0)
    ensures CopyDone(m0, e.frame, s2, s.pool, below, p + [i], s.pool + 1, cow, levels - 1, 0)
    decreases levels - 1, 512, 2
  {
    ReadyForChild(s, m0, at0, dest, p, levels, i);
    below := CopyWorks(Fresh(s), m0, at0, s.pool, p + [i], cow, levels - 1, 0);
  }

  lemma {:induction false} CopyRest(s: State, m0: Memory, at0: Paths, dest: nat, p: seq<Index>,
                                    s2: State, t: State, cow: bool, levels: nat, i: Index) returns (rest: Paths)
    requires CopyReady(s, m0, at0, dest, p, levels, i) && levels > 1 && Row(s.mem, at0[p])[i].frame != 0
    requires s2 == Copy(Fresh(s), s.pool, Row(s.mem, at0[p])[i].frame, cow, levels - 1, 0)
    requires t == Copy(s, dest, at0[p], cow, levels, i)
    ensures CopyDone(m0, at0[p], t, dest, rest, p, s2.pool, cow, levels, i + 1)
    decreases levels, 512 - (i + 1), 2
  {
    ReadyForNext(s, m0, at0, dest, p, cow, levels, i);
    var s1 := CopyEntry(s, dest, Row(s.mem, at0[p])[i], cow, levels, i);
    rest := CopyWorks(s1, m0, at0, dest, p, cow, levels, i + 1);
  }

  // ---- pml4_copy ----

  function FindPath(m: Memory, root: nat, q: seq<Index>): Option<Entry>
    requires q != []
  {
    Find(m, Row(m, root)[q[0]], q[1..])
  }

  lemma {:induction false} LeafIsFind(m: Memory, f: nat, q: seq<Index>)
    requires q != []
    ensures Leaf(m, f, q) == match FindPath(m, f, q) case None => ZERO case Some(e) => e
    decreases |q|
  {
    if |q| > 1 && Row(m, f)[q[0]].frame != 0 {
      LeafIsFind(m, Row(m, f)[q[0]].frame, q[1..]);
    }
  }

  /// The destination may be used: an empty table that is not part of the source.
  ghost predicate Target(s: State, at: Paths, dest: nat) {
    && 0 < dest < s.pool && dest in s.mem && s.mem[dest] == ZeroTable()
    && forall p {:trigger at[p]} :: p in at ==> at[p] != dest
  }

  lemma TargetReady(s: State, root: nat, at: Paths, dest: nat)
    requires IsTree(s, at, root) && Target(s, at, dest)
    ensures CopyReady(s, s.mem, at, dest, [], DEPTH, 0)
  {
    forall r | r in at
      ensures Table(s.mem, at, r) && at[r] < s.pool && at[r] in s.mem
    {
      assert Node(s, at, r);
    }
  }

  /// The source is what it was.
  lemma SourceUnchanged(s: State, root: nat, at: Paths, dest: nat, cow: bool, q: seq<Index>)
    requires IsTree(s, at, root) && Target(s, at, dest) && |q| == DEPTH
    ensures IsTree(Copy(s, dest, root, cow, DEPTH, 0), at, root)
    ensures Leaf(Copy(s, dest, root, cow, DEPTH, 0).mem, root, q) == Leaf(s.mem, root, q)
  {
    var t := Copy(s, dest, root, cow, DEPTH, 0);
    CopyLeavesRest(s, dest, root, cow, DEPTH, 0);
    forall r | r in at
      ensures Node(t, at, r) && Table(s.mem, at, r) && t.mem[at[r]] == s.mem[at[r]]
    {
      assert Node(s, at, r);
      forall j: Index ensures Same(at, at, r + [j]) {
      }
      TableMoves(s.mem, t.mem, at, at, r);
    }
    assert Node(t, at, []);
    var e := s.mem[root][q[0]];
    assert EntryLinked(e, at, [] + [q[0]]);
    assert [] + [q[0]] == [q[0]];
    FindStable(s.mem, t.mem, at, [q[0]], e, q[1..]);
    LeafIsFind(s.mem, root, q);
    LeafIsFind(t.mem, root, q);
  }

  /// The copy has the source's leaf entries at every path, up to the writable flag.
  lemma CopyFinds(s: State, root: nat, at: Paths, dest: nat, cow: bool, q: seq<Index>)
    requires IsTree(s, at, root) && Target(s, at, dest) && |q| == DEPTH
    ensures FindPath(Copy(s, dest, root, cow, DEPTH, 0).mem, dest, q) == CopiedOption(FindPath(s.mem, root, q), cow)
  {
    TargetReady(s, root, at, dest);
    var added := CopyWorks(s, s.mem, at, dest, [], cow, DEPTH, 0);
    var t := Copy(s, dest, root, cow, DEPTH, 0);
    assert Find(t.mem, t.mem[dest][q[0]], q[1..]) == CopiedOption(Find(s.mem, Row(s.mem, root)[q[0]], q[1..]), cow);
  }

  /// The copy is a tree of its own: it shares no table with the source.
  lemma CopyIsTree(s: State, root: nat, at: Paths, dest: nat, cow: bool) returns (at': Paths)
    requires IsTree(s, at, root) && Target(s, at, dest)
    ensures IsTree(Copy(s, dest, root, cow, DEPTH, 0), at', dest)
    ensures forall p, q {:trigger at[p], at'[q]} :: p in at && q in at' ==> at[p] != at'[q]
    ensures forall r {:trigger at'[r]} ::
      r in at' ==> at'[r] == dest || s.pool <= at'[r] < Copy(s, dest, root, cow, DEPTH, 0).pool
  {
    TargetReady(s, root, at, dest);
    var added := CopyWorks(s, s.mem, at, dest, [], cow, DEPTH, 0);
    CopyLeavesRest(s, dest, root, cow, DEPTH, 0);
    var t := Copy(s, dest, root, cow, DEPTH, 0);
    at' := added[[] := dest];
    forall r | r in at' ensures Node(t, at', r) {
      if r == [] {
        forall j: Index ensures EntryLinked(t.mem[dest][j], at', r + [j]) {
          assert EntryLinked(t.mem[dest][j], added, [] + [j]);
        }
      } else {
        assert added[r] < t.pool && Table(t.mem, added, r);
        forall j: Index ensures Same(added, at', r + [j]) {
        }
        TableMoves(t.mem, t.mem, added, at', r);
      }
    }
    forall r, q | r in at' && q in at' && at'[r] == at'[q] ensures r == q {
      if r != [] { assert added[r] < t.pool; }
      if q != [] { assert added[q] < t.pool; }
    }
    forall r | r in at' && r != [] ensures r[..|r| - 1] in at' {
      if |r| > 1 { assert added[r] < t.pool && r[..|r| - 1] in added; } else { assert r[..|r| - 1] == []; }
    }
    forall p, q | p in at && q in at' ensures at[p] != at'[q] {
      assert Node(s, at, p);
      if q != [] { assert added[q] < t.pool; }
    }
  }

  // ---- the writable flag ----

  /// An entry of a copied table: under copy-on-write never writable, otherwise writable
  /// unless it is empty.
  predicate FlagIsCopied(e: Entry, cow: bool) {
    if cow then WRITABLE !in e.flags else e == ZERO || WRITABLE in e.flags
  }

  predicate RowIsCopied(m: Memory, f: nat, cow: bool) {
    forall j: Index {:trigger FlagIsCopied(Row(m, f)[j], cow)} :: FlagIsCopied(Row(m, f)[j], cow)
  }

  /// dest and the tables from lo up to the pool mark.
  ghost predicate AllCopied(s: State, dest: nat, lo: nat, cow: bool) {
    forall f: nat {:trigger RowIsCopied(s.mem, f, cow)} :: f == dest || lo <= f < s.pool ==> RowIsCopied(s.mem, f, cow)
  }

  lemma PutIsCopied(s: State, dest: nat, lo: nat, cow: bool, i: Index, e: Entry)
    requires AllCopied(s, dest, lo, cow) && FlagIsCopied(e, cow)
    ensures AllCopied(Put(s, dest, i, e), dest, lo, cow)
  {
    var t := Put(s, dest, i, e);
    forall f: nat {:trigger RowIsCopied(t.mem, f, cow)} | f == dest || lo <= f < t.pool
      ensures RowIsCopied(t.mem, f, cow)
    {
      assert RowIsCopied(s.mem, f, cow);
      forall j: Index {:trigger FlagIsCopied(Row(t.mem, f)[j], cow)}
        ensures FlagIsCopied(Row(t.mem, f)[j], cow)
      {
        assert FlagIsCopied(Row(s.mem, f)[j], cow);
      }
    }
  }

  /// Every entry of every table that the copy writes gets its flag.
  lemma {:induction false} CopySetsFlags(s: State, dest: nat, src: nat, cow: bool, levels: nat, i: nat, lo: nat)
    requires levels > 0 && dest < s.pool && lo <= s.pool && AllCopied(s, dest, lo, cow)
    ensures AllCopied(Copy(s, dest, src, cow, levels, i), dest, lo, cow)
    decreases levels, 512 - i
  {
    if i < 512 {
      var e := Row(s.mem, src)[i];
      var s1 := CopyEntry(s, dest, e, cow, levels, i);
      if levels == 1 {
        PutIsCopied(s, dest, lo, cow, i, Copied(e, cow));
      } else if e.frame != 0 {
        ChildSetsFlags(s, dest, e.frame, cow, levels, lo);
        CopyLeavesRest(Fresh(s), s.pool, e.frame, cow, levels - 1, 0);
        var u := Copy(Fresh(s), s.pool, e.frame, cow, levels - 1, 0);
        PutIsCopied(u, dest, lo, cow, i, Copied(Entry(s.pool, e.flags), cow));
      }
      CopyLeavesRest(s, dest, src, cow, levels, i);
      EntryAdvancesPool(s, dest, e, cow, levels, i);
      CopySetsFlags(s1, dest, src, cow, levels, i + 1, lo);
    }
  }

  lemma EntryAdvancesPool(s: State, dest: nat, e: Entry, cow: bool, levels: nat, i: Index)
    requires levels > 0
    ensures s.pool <= CopyEntry(s, dest, e, cow, levels, i).pool
  {
    if levels > 1 && e.frame != 0 {
      CopyLeavesRest(Fresh(s), s.pool, e.frame, cow, levels - 1, 0);
    }
  }

  lemma {:induction false} ChildSetsFlags(s: State, dest: nat, src: nat, cow: bool, levels: nat, lo: nat)
    requires levels > 1 && dest < s.pool && lo <= s.pool && AllCopied(s, dest, lo, cow)
    ensures AllCopied(Copy(Fresh(s), s.pool, src, cow, levels - 1, 0), dest, lo, cow)
    decreases levels - 1, 513
  {
    var u, t := Fresh(s), Copy(Fresh(s), s.pool, src, cow, levels - 1, 0);
    forall f: nat {:trigger RowIsCopied(u.mem, f, cow)} | f == s.pool || lo <= f < u.pool
      ensures RowIsCopied(u.mem, f, cow)
    {
      if f != s.pool { assert RowIsCopied(s.mem, f, cow) && Row(u.mem, f) == Row(s.mem, f); }
    }
    CopySetsFlags(u, s.pool, src, cow, levels - 1, 0, lo);
    CopyLeavesRest(u, s.pool, src, cow, levels - 1, 0);
    assert RowIsCopied(s.mem, dest, cow) && Row(t.mem, dest) == Row(s.mem, dest);
  }

  /// Under copy-on-write no entry of any table of the copy is writable, upper entries
  /// included; otherwise every entry that is not empty is.
  lemma EveryEntryIsCopied(s: State, root: nat, at: Paths, dest: nat, cow: bool, f: nat, j: Index)
    requires IsTree(s, at, root) && Target(s, at, dest)
    requires f == dest || s.pool <= f < Copy(s, dest, root, cow, DEPTH, 0).pool
    ensures FlagIsCopied(Row(Copy(s, dest, root, cow, DEPTH, 0).mem, f)[j], cow)
  {
    CopySetsFlags(s, dest, root, cow, DEPTH, 0, s.pool);
    assert RowIsCopied(Copy(s, dest, root, cow, DEPTH, 0).mem, f, cow);
  }

  /// So the processor allows writing through the copy nowhere, or wherever it finds a page.
  lemma {:induction false} CopyRights(s: State, root: nat, at: Paths, dest: nat, cow: bool,
                                      at': Paths, p: seq<Index>, q: seq<Index>)
    requires IsTree(s, at, root) && Target(s, at, dest) && p in at' && |p| + |q| == DEPTH && q != []
    requires var t := Copy(s, dest, root, cow, DEPTH, 0);
      IsTree(t, at', dest) && forall r {:trigger at'[r]} :: r in at' ==> at'[r] == dest || s.pool <= at'[r] < t.pool
    ensures match Hardware(Copy(s, dest, root, cow, DEPTH, 0).mem, at'[p], q)
            case None => true
            case Some(r) => r.writable == !cow
    decreases |q|
  {
    var t := Copy(s, dest, root, cow, DEPTH, 0);
    assert Node(t, at', p);
    var e := t.mem[at'[p]][q[0]];
    EveryEntryIsCopied(s, root, at, dest, cow, at'[p], q[0]);
    if |q| > 1 {
      assert EntryLinked(e, at', p + [q[0]]);
      if e.frame != 0 {
        CopyRights(s, root, at, dest, cow, at', p + [q[0]], q[1..]);
      }
    }
  }

  function CopiedReach(o: Option<Reach>, cow: bool): Option<Reach> {
    match o
    case None => None
    case Some(r) => Some(Reach(Copied(r.entry, cow), !cow))
  }

  /// For every address the processor finds in the copy the frame it finds in the source,
  /// with the same flags except the writable one; it allows writing nowhere under
  /// copy-on-write, and everywhere otherwise.
  lemma CopyTranslates(s: State, root: nat, at: Paths, dest: nat, cow: bool, q: seq<Index>)
    requires IsTree(s, at, root) && Target(s, at, dest) && |q| == DEPTH
    ensures Hardware(Copy(s, dest, root, cow, DEPTH, 0).mem, dest, q) == CopiedReach(Hardware(s.mem, root, q), cow)
  {
    var t := Copy(s, dest, root, cow, DEPTH, 0);
    var at' := CopyIsTree(s, root, at, dest, cow);
    CopyFinds(s, root, at, dest, cow, q);
    LeafIsFind(s.mem, root, q);
    LeafIsFind(t.mem, dest, q);
    HardwareFindsLeaf(s, at, root, [], q);
    HardwareFindsLeaf(t, at', dest, [], q);
    CopyRights(s, root, at, dest, cow, at', [], q);
  }

  /// Without copy-on-write the copy is writable everywhere, so it is exact only where every
  /// entry of the source's path is writable.
  lemma PlainCopyIsExact(s: State, root: nat, at: Paths, dest: nat, q: seq<Index>)
    requires IsTree(s, at, root) && Target(s, at, dest) && |q| == DEPTH
    ensures Hardware(Copy(s, dest, root, false, DEPTH, 0).mem, dest, q) == Hardware(s.mem, root, q)
      <==> Hardware(s.mem, root, q).None? || WritableAlong(s.mem, root, q)
  {
    CopyTranslates(s, root, at, dest, false, q);
    HardwareFindsLeaf(s, at, root, [], q);
    match Hardware(s.mem, root, q)
    case None =>
    case Some(r) =>
      if WritableAlong(s.mem, root, q) {
        assert q[..3] == q;
        assert WRITABLE in Leaf(s.mem, root, q[..3]).flags;
        assert r.entry.flags - {WRITABLE} + {WRITABLE} == r.entry.flags;
      }
  }

  /// pml4_set_writable sets the flag of a leaf entry alone. In a copy made for copy-on-write
  /// the entries above it stay as they are, so the page does not become writable.
  lemma CowPageStaysReadOnly(s: State, root: nat, at: Paths, dest: nat, q: seq<Index>, e: Entry)
    requires IsTree(s, at, root) && Target(s, at, dest) && |q| == DEPTH
    requires Rooted(Copy(s, dest, root, true, DEPTH, 0), dest)
    requires TableAt(Copy(s, dest, root, true, DEPTH, 0).mem, dest, q[..2]) != 0
    ensures var u := Update(Copy(s, dest, root, true, DEPTH, 0), dest, q, e);
      match Hardware(u.mem, dest, q) case None => true case Some(r) => !r.writable
  {
    var t := Copy(s, dest, root, true, DEPTH, 0);
    var u := Update(t, dest, q, e);
    var at' := CopyIsTree(s, root, at, dest, true);
    DirectoryIsTable(t, dest, q);
    if TableAt(t.mem, dest, q[..2]) == dest {
      NoSharing(t, at', dest, [], q[..2]);
    }
    EveryEntryIsCopied(s, root, at, dest, true, dest, q[0]);
    assert Node(t, at', []);
    assert u.mem[dest] == t.mem[dest];
  }

  /// The flags of an entry of the copy, by bit number: writable as asked, and all others as in
  /// the source.
  ghost predicate FlagsAsAsked(flags: set<nat>, source: set<nat>, cow: bool) {
    (1 in flags <==> !cow) && forall g :: g != 1 ==> (g in flags <==> g in source)
  }

  /// A translation of the copy, written out.
  lemma CopyKeepsFrames(s: State, root: nat, at: Paths, dest: nat, cow: bool, q: seq<Index>)
    requires IsTree(s, at, root) && Target(s, at, dest) && |q| == DEPTH
    ensures var a, b := Hardware(s.mem, root, q), Hardware(Copy(s, dest, root, cow, DEPTH, 0).mem, dest, q);
      && a.Some? == b.Some?
      && (a.Some? ==>
            && b.value.entry.frame == a.value.entry.frame && b.value.writable == !cow
            && FlagsAsAsked(b.value.entry.flags, a.value.entry.flags, cow))
  {
    CopyTranslates(s, root, at, dest, cow, q);
  }

  /// What becomes of entry k: it leads to a copy of its table, made in some state u that still
  /// has the source, and nothing touches that copy later.
  lemma {:induction false} EntryOfCopy(s: State, dest: nat, src: nat, cow: bool, levels: nat, i: nat, k: Index)
    returns (u: State)
    requires levels > 1 && i <= k && dest in s.mem && |s.mem[dest]| == ENTRIES && dest < s.pool
    requires src != dest && src < s.pool && Row(s.mem, src)[k].frame != 0
    ensures s.pool <= u.pool && RowsStay(s, u, dest)
    ensures MadeIn(u, dest, Row(s.mem, src)[k], cow, levels, k, Copy(s, dest, src, cow, levels, i))
    decreases k - i
  {
    if i == k {
      u := s;
      RestKeepsEntry(s, dest, src, cow, levels, k);
      TopOfCopy(Fresh(s), s.pool, Row(s.mem, src)[i].frame, cow, levels - 1, 0);
    } else {
      var s1 := CopyEntry(s, dest, Row(s.mem, src)[i], cow, levels, i);
      EntryStays(s, dest, Row(s.mem, src)[i], cow, levels, i);
      u := EntryOfCopy(s1, dest, src, cow, levels, i + 1, k);
    }
  }

  ghost predicate RowsStay(s: State, u: State, dest: nat) {
    forall f: nat {:trigger Row(u.mem, f)} :: f < s.pool && f != dest ==> Row(u.mem, f) == Row(s.mem, f)
  }

  /// Entry k at dest leads to the copy of the table behind e that starts in state u.
  ghost predicate MadeIn(u: State, dest: nat, e: Entry, cow: bool, levels: nat, k: Index, t: State)
    requires levels > 1
  {
    && dest in t.mem && |t.mem[dest]| == ENTRIES && t.mem[dest][k] == Copied(Entry(u.pool, e.flags), cow)
    && Row(t.mem, u.pool) == Row(Copy(Fresh(u), u.pool, e.frame, cow, levels - 1, 0).mem, u.pool)
  }

  lemma {:induction false} TopOfCopy(s: State, dest: nat, src: nat, cow: bool, levels: nat, i: nat)
    requires levels > 0 && dest in s.mem && |s.mem[dest]| == ENTRIES && dest < s.pool
    ensures dest in Copy(s, dest, src, cow, levels, i).mem
    decreases 512 - i
  {
    if i < 512 {
      EntryStays(s, dest, Row(s.mem, src)[i], cow, levels, i);
      TopOfCopy(CopyEntry(s, dest, Row(s.mem, src)[i], cow, levels, i), dest, src, cow, levels, i + 1);
    }
  }

  lemma EntryStays(s: State, dest: nat, e: Entry, cow: bool, levels: nat, i: Index)
    requires levels > 0 && dest in s.mem && |s.mem[dest]| == ENTRIES && dest < s.pool
    ensures var u := CopyEntry(s, dest, e, cow, levels, i);
      && s.pool <= u.pool && RowsStay(s, u, dest) && dest in u.mem && |u.mem[dest]| == ENTRIES
  {
    if levels > 1 && e.frame != 0 {
      CopyLeavesRest(Fresh(s), s.pool, e.frame, cow, levels - 1, 0);
    }
  }

  lemma TwoLevels(s: State, dest: nat, src: nat, cow: bool, levels: nat, i: Index, j: Index)
    requires levels > 2 && dest in s.mem && |s.mem[dest]| == ENTRIES && dest < s.pool
    requires src != dest && src < s.pool && Row(s.mem, src)[i].frame != 0
    requires Row(s.mem, src)[i].frame < s.pool && Row(s.mem, src)[i].frame != dest
    ensures var e, t := Row(s.mem, src)[i], Copy(s, dest, src, cow, levels, 0);
      var f := Row(t.mem, dest)[i];
      && FlagsAsAsked(f.flags, e.flags, cow)
      && (Row(s.mem, e.frame)[j].frame != 0 ==>
            FlagsAsAsked(Row(t.mem, f.frame)[j].flags, Row(s.mem, e.frame)[j].flags, cow))
  {
    var e := Row(s.mem, src)[i];
    var u := EntryOfCopy(s, dest, src, cow, levels, 0, i);
    if Row(s.mem, e.frame)[j].frame != 0 {
      assert Row(u.mem, e.frame) == Row(s.mem, e.frame) && Row(Fresh(u).mem, e.frame) == Row(u.mem, e.frame);
      var v := EntryOfCopy(Fresh(u), u.pool, e.frame, cow, levels - 1, 0, j);
    }
  }

  /// The entries above the pages keep their flags too.
  lemma UpperFlagsAsAsked(s: State, root: nat, at: Paths, dest: nat, cow: bool, i: Index, j: Index)
    requires IsTree(s, at, root) && Target(s, at, dest) && Row(s.mem, root)[i].frame != 0
    ensures var e, t := Row(s.mem, root)[i], Copy(s, dest, root, cow, DEPTH, 0);
      var f := Row(t.mem, dest)[i];
      && FlagsAsAsked(f.flags, e.flags, cow)
      && (Row(s.mem, e.frame)[j].frame != 0 ==>
            FlagsAsAsked(Row(t.mem, f.frame)[j].flags, Row(s.mem, e.frame)[j].flags, cow))
  {
    assert Node(s, at, []);
    assert EntryLinked(s.mem[root][i], at, [] + [i]);
    assert Node(s, at, [] + [i]) && at[[] + [i]] != dest;
    TwoLevels(s, dest, root, cow, DEPTH, i, j);
  }

  // ---- the copy as it is written ----

  /// What the processor sees of a table from kcalloc, which starts three entries behind a
  /// page boundary: three words of something else, and then the table's entries three places
  /// late.
  function Skewed(row: seq<Entry>, foreign: seq<Entry>): (t: seq<Entry>)
    requires |row| == ENTRIES && |foreign| == 3
    ensures |t| == ENTRIES
  {
    foreign + row[..509]
  }

  function ForeignAt(foreign: map<nat, seq<Entry>>, f: nat): (t: seq<Entry>)
    ensures |t| == 3
  {
    if f in foreign && |foreign[f]| == 3 then foreign[f] else [ZERO, ZERO, ZERO]
  }

  /// Memory as the processor reads it when the tables from lo up to hi are from kcalloc. The
  /// two flag bits that their addresses add to the entries above do not affect a walk.
  function Seen(m: Memory, lo: nat, hi: nat, foreign: map<nat, seq<Entry>>): Memory {
    map f | f in m && |m[f]| == ENTRIES :: if lo <= f < hi then Skewed(m[f], ForeignAt(foreign, f)) else m[f]
  }

  /// The walk through the copy that `_pml_copy` makes.
  function HardwareAsWritten(s: State, root: nat, dest: nat, cow: bool, foreign: map<nat, seq<Entry>>,
                             q: seq<Index>): Option<Reach> {
    var t := Copy(s, dest, root, cow, DEPTH, 0);
    Hardware(Seen(t.mem, s.pool, t.pool, foreign), dest, q)
  }

  ghost predicate HasTable(s: State, root: nat) {
    exists i: Index :: Row(s.mem, root)[i].frame != 0
  }

  lemma {:induction false} NothingToCopy(s: State, dest: nat, src: nat, cow: bool, levels: nat, i: nat)
    requires levels > 1 && forall j: Index :: Row(s.mem, src)[j].frame == 0
    ensures Copy(s, dest, src, cow, levels, i) == s
    decreases 512 - i
  {
    if i < 512 {
      NothingToCopy(s, dest, src, cow, levels, i + 1);
    }
  }

  /// Where the source has a table, some foreign words make some address translate otherwise.
  lemma SkewedCopyFails(s: State, root: nat, at: Paths, dest: nat, cow: bool, i: Index)
    returns (foreign: map<nat, seq<Entry>>, q: seq<Index>)
    requires IsTree(s, at, root) && Target(s, at, dest) && Row(s.mem, root)[i].frame != 0
    ensures |q| == DEPTH
    ensures HardwareAsWritten(s, root, dest, cow, foreign, q) != CopiedReach(Hardware(s.mem, root, q), cow)
  {
    q := [i, 0, 0];
    var t := Copy(s, dest, root, cow, DEPTH, 0);
    var child := ChildOfCopy(s, root, at, dest, cow, i);
    if Hardware(s.mem, root, q).None? {
      // the first foreign word leads back to the table itself
      foreign := map[child := [Entry(child, {PRESENT}), ZERO, ZERO]];
      var m := Seen(t.mem, s.pool, t.pool, foreign);
      assert m[child][0] == Entry(child, {PRESENT});
      assert q[1..] == [0, 0] && q[1..][1..] == [0];
      assert Hardware(m, child, [0]) == Some(Reach(Entry(child, {PRESENT}), false));
      assert Hardware(m, child, [0, 0]).Some?;
    } else {
      foreign := map[];
      var m := Seen(t.mem, s.pool, t.pool, foreign);
      assert m[child][0] == ZERO;
      assert q[1..] == [0, 0];
      assert Hardware(m, child, [0, 0]) == None;
    }
  }

  lemma {:induction false} TableBehindEntry(s: State, dest: nat, src: nat, cow: bool, levels: nat, i: nat, k: Index)
    requires levels > 1 && i <= k && dest in s.mem && |s.mem[dest]| == ENTRIES && dest < s.pool
    requires src != dest && src < s.pool && Row(s.mem, src)[k].frame != 0
    ensures var t := Copy(s, dest, src, cow, levels, i);
      dest in t.mem && |t.mem[dest]| == ENTRIES && s.pool <= t.mem[dest][k].frame
    decreases k - i
  {
    var e := Row(s.mem, src)[i];
    if i == k {
      RestKeepsEntry(s, dest, src, cow, levels, k);
    } else {
      var s1 := CopyEntry(s, dest, e, cow, levels, i);
      if e.frame != 0 {
        CopyLeavesRest(Fresh(s), s.pool, e.frame, cow, levels - 1, 0);
      }
      TableBehindEntry(s1, dest, src, cow, levels, i + 1, k);
    }
  }

  lemma ChildOfCopy(s: State, root: nat, at: Paths, dest: nat, cow: bool, i: Index) returns (child: nat)
    requires IsTree(s, at, root) && Target(s, at, dest) && Row(s.mem, root)[i].frame != 0
    ensures var t := Copy(s, dest, root, cow, DEPTH, 0);
      && dest in t.mem && |t.mem[dest]| == ENTRIES && t.mem[dest][i].frame == child && Present(t.mem[dest][i])
      && s.pool <= child < t.pool && child in t.mem && |t.mem[child]| == ENTRIES && dest < s.pool
  {
    var t := Copy(s, dest, root, cow, DEPTH, 0);
    var at' := CopyIsTree(s, root, at, dest, cow);
    assert Node(t, at', []) && Node(s, at, []) && at[[]] == root;
    TableBehindEntry(s, dest, root, cow, DEPTH, 0, i);
    child := t.mem[dest][i].frame;
    assert EntryLinked(t.mem[dest][i], at', [] + [i]);
    assert Node(t, at', [] + [i]);
  }

  /// Every address translates as it should, whatever the foreign words are.
  ghost predicate AlwaysTranslates(s: State, root: nat, dest: nat, cow: bool) {
    forall foreign: map<nat, seq<Entry>>, q: seq<Index>
      {:trigger HardwareAsWritten(s, root, dest, cow, foreign, q)} ::
      |q| == DEPTH ==>
        HardwareAsWritten(s, root, dest, cow, foreign, q) == CopiedReach(Hardware(s.mem, root, q), cow)
  }

  /// The copy as written preserves every translation, whatever lies before its tables,
  /// exactly when the source has no table at all.
  lemma CopyAsWrittenIff(s: State, root: nat, at: Paths, dest: nat, cow: bool)
    requires IsTree(s, at, root) && Target(s, at, dest)
    ensures AlwaysTranslates(s, root, dest, cow) <==> !HasTable(s, root)
  {
    if HasTable(s, root) {
      var i: Index :| Row(s.mem, root)[i].frame != 0;
      var foreign, q := SkewedCopyFails(s, root, at, dest, cow, i);
    } else {
      NothingToCopy(s, dest, root, cow, DEPTH, 0);
      forall foreign: map<nat, seq<Entry>>, q: seq<Index> {:trigger HardwareAsWritten(s, root, dest, cow, foreign, q)}
        | |q| == DEPTH
        ensures HardwareAsWritten(s, root, dest, cow, foreign, q) == CopiedReach(Hardware(s.mem, root, q), cow)
      {
        EmptyRootFindsNothing(s, root, at, q);
      }
    }
  }

  lemma EmptyRootFindsNothing(s: State, root: nat, at: Paths, q: seq<Index>)
    requires IsTree(s, at, root) && !HasTable(s, root) && |q| == DEPTH
    ensures Hardware(s.mem, root, q) == None
  {
    assert Node(s, at, []);
    assert EntryLinked(s.mem[root][q[0]], at, [] + [q[0]]);
    assert Row(s.mem, root)[q[0]].frame == 0;
  }

  // ---- the copy as it is written, with harmless foreign words ----

  /// No foreign word is marked present.
  ghost predicate Unmarked(foreign: map<nat, seq<Entry>>) {
    forall f, i {:trigger foreign[f][i]} :: f in foreign && 0 <= i < |foreign[f]| ==> !Present(foreign[f][i])
  }

  predicate Early(q: seq<Index>) {
    q != [] && (q[0] < 3 || Early(q[1..]))
  }

  /// The indices that reach in a table what `q` reaches three entries late.
  function Shifted(q: seq<Index>): (r: seq<Index>)
    requires !Early(q)
    ensures |r| == |q|
  {
    if q == [] then []
    else
      var i: Index := q[0] - 3;
      [i] + Shifted(q[1..])
  }

  lemma SkewedEntry(row: seq<Entry>, foreign: map<nat, seq<Entry>>, f: nat, i: Index)
    requires |row| == ENTRIES && Unmarked(foreign)
    ensures i < 3 ==> !Present(Skewed(row, ForeignAt(foreign, f))[i])
    ensures i >= 3 ==> Skewed(row, ForeignAt(foreign, f))[i] == row[i - 3]
  {
  }

  /// A walk through late tables finds what a walk with earlier indices finds in the tables.
  lemma {:induction false} LateWalk(t: State, at: Paths, root: nat, lo: nat, hi: nat,
                                    foreign: map<nat, seq<Entry>>, p: seq<Index>, q: seq<Index>)
    requires IsTree(t, at, root) && Unmarked(foreign) && p in at && p != [] && |p| + |q| == DEPTH && q != []
    requires forall r {:trigger at[r]} :: r in at && r != [] ==> lo <= at[r] < hi
    ensures Hardware(Seen(t.mem, lo, hi, foreign), at[p], q)
         == if Early(q) then None else Hardware(t.mem, at[p], Shifted(q))
    decreases |q|
  {
    var m := Seen(t.mem, lo, hi, foreign);
    assert Node(t, at, p);
    SkewedEntry(t.mem[at[p]], foreign, at[p], q[0]);
    if |q| == 1 {
      assert q[1..] == [];
    } else if q[0] >= 3 {
      var j: Index := q[0] - 3;
      assert EntryLinked(t.mem[at[p]][j], at, p + [j]);
      if t.mem[at[p]][j].frame != 0 {
        LateWalk(t, at, root, lo, hi, foreign, p + [j], q[1..]);
      }
    }
  }

  /// The address that the copy as written reads when it is asked for `q`: the root is where
  /// it should be, and the tables below it are late.
  lemma CopyIsRead(s: State, root: nat, at: Paths, dest: nat, cow: bool, foreign: map<nat, seq<Entry>>, q: seq<Index>)
    requires IsTree(s, at, root) && Target(s, at, dest) && Unmarked(foreign) && |q| == DEPTH
    ensures HardwareAsWritten(s, root, dest, cow, foreign, q)
         == if Early(q[1..]) then None
            else CopiedReach(Hardware(s.mem, root, [q[0]] + Shifted(q[1..])), cow)
  {
    var t := Copy(s, dest, root, cow, DEPTH, 0);
    var at' := CopyIsTree(s, root, at, dest, cow);
    assert Node(t, at', []) && Node(s, at, []);
    assert EntryLinked(t.mem[dest][q[0]], at', [] + [q[0]]);
    forall r {:trigger at'[r]} | r in at' && r != []
      ensures s.pool <= at'[r] < t.pool
    {
      assert at'[r] != at'[[]];
    }
    if t.mem[dest][q[0]].frame != 0 {
      LateWalk(t, at', dest, s.pool, t.pool, foreign, [] + [q[0]], q[1..]);
    }
    if !Early(q[1..]) {
      var r := [q[0]] + Shifted(q[1..]);
      assert r[1..] == Shifted(q[1..]);
      CopyTranslates(s, root, at, dest, cow, r);
    }
  }

  ghost predicate Translates(s: State, root: nat, dest: nat, cow: bool, foreign: map<nat, seq<Entry>>) {
    forall q: seq<Index> {:trigger Hardware(s.mem, root, q)} ::
      |q| == DEPTH ==> HardwareAsWritten(s, root, dest, cow, foreign, q) == CopiedReach(Hardware(s.mem, root, q), cow)
  }

  ghost predicate MapsNothing(s: State, root: nat) {
    forall q: seq<Index> {:trigger Hardware(s.mem, root, q)} :: |q| == DEPTH ==> Hardware(s.mem, root, q) == None
  }

  /// If the copy translates like the source, each page comes with one three entries earlier,
  /// so there is none.
  lemma {:induction false} NoFirstPage(s: State, root: nat, at: Paths, dest: nat, cow: bool,
                                       foreign: map<nat, seq<Entry>>, q: seq<Index>)
    requires IsTree(s, at, root) && Target(s, at, dest) && Unmarked(foreign) && |q| == DEPTH
    requires Translates(s, root, dest, cow, foreign)
    ensures Hardware(s.mem, root, q) == None
    decreases q[1]
  {
    CopyIsRead(s, root, at, dest, cow, foreign, q);
    if !Early(q[1..]) {
      var r := [q[0]] + Shifted(q[1..]);
      NoFirstPage(s, root, at, dest, cow, foreign, r);
    }
  }

  /// Even with foreign words that are all unmarked the copy as written translates like the
  /// source exactly when the source maps no page at all.
  lemma CopyTranslatesNothingIff(s: State, root: nat, at: Paths, dest: nat, cow: bool, foreign: map<nat, seq<Entry>>)
    requires IsTree(s, at, root) && Target(s, at, dest) && Unmarked(foreign)
    ensures Translates(s, root, dest, cow, foreign) <==> MapsNothing(s, root)
  {
    if Translates(s, root, dest, cow, foreign) {
      forall q: seq<Index> {:trigger Hardware(s.mem, root, q)} | |q| == DEPTH
        ensures Hardware(s.mem, root, q) == None
      {
        NoFirstPage(s, root, at, dest, cow, foreign, q);
      }
    } else if MapsNothing(s, root) {
      forall q: seq<Index> {:trigger Hardware(s.mem, root, q)} | |q| == DEPTH
        ensures HardwareAsWritten(s, root, dest, cow, foreign, q) == CopiedReach(Hardware(s.mem, root, q), cow)
      {
        CopyIsRead(s, root, at, dest, cow, foreign, q);
      }
    }
  }
}
