/// The page-table code itself, on one object that holds the tables and the pool.

module PageMaps {
  import opened Options
  import opened PageTables
  import opened PageCopies

  class PageMap {
    var mem: Memory
    var pool: nat

    function Now(): State
      reads this
    {
      State(mem, pool)
    }

    /// A fresh zero table for entry i of table f, unless there is a table already.
    method Descend(f: nat, i: Index) returns (child: nat)
      requires f in mem && |mem[f]| == ENTRIES && pool > 0 && f < pool
      modifies this
      ensures Now() == Ensure(old(Now()), f, i)
      ensures f in mem && |mem[f]| == ENTRIES && child == mem[f][i].frame
    {
      child := mem[f][i].frame;
      if child == 0 {
        child := pool;
        mem := mem[f := mem[f][i := Entry(child, {WRITABLE, PRESENT})]][child := ZeroTable()];
        pool := pool + 1;
      }
    }

    method MapAddressBuffer(root: nat, addr: nat, frame: nat)
      requires Rooted(Now(), root)
      modifies this
      ensures Now() == Map(old(Now()), root, PathOf(addr), LeafEntry(frame, LEAF_FLAGS))
      ensures Rooted(Now(), root)
    {
      var q := PathOf(addr);
      MapSteps(Now(), root, q);
      MapIsFlatUpdate(Now(), root, q, LeafEntry(frame, LEAF_FLAGS), q);
      BelowPool(Now(), root, q);
      var pdp := Descend(root, q[0]);
      var pgd := Descend(pdp, q[1]);
      mem := mem[pgd := mem[pgd][q[2] := LeafEntry(frame, LEAF_FLAGS)]];
    }

    /// The directory that holds the entry of an address.
    method Directory(root: nat, addr: nat) returns (pgd: nat)
      requires Rooted(Now(), root) && HasDirectory(Now(), root, addr)
      ensures pgd == TableAt(mem, root, PathOf(addr)[..2]) && pgd in mem && |mem[pgd]| == ENTRIES
    {
      var q := PathOf(addr);
      MapSteps(Now(), root, q);
      DirectoryIsTable(Now(), root, q);
      TwoSteps(mem, root, q);
      var pdp := mem[root][q[0]].frame;
      pgd := mem[pdp][q[1]].frame;
    }

    method ClearMapping(root: nat, addr: nat)
      requires Rooted(Now(), root) && HasDirectory(Now(), root, addr)
      modifies this
      ensures Now() == Apply(old(Now()), root, Clear(addr)) && EntryOf(Now(), root, addr) == Entry(0, {})
    {
      ClearLeavesNothing(Now(), root, addr);
      var pgd := Directory(root, addr);
      mem := mem[pgd := mem[pgd][PathOf(addr)[2] := ZERO]];
    }

    method SetFlagOf(root: nat, addr: nat, flag: nat, on: bool)
      requires Rooted(Now(), root) && HasDirectory(Now(), root, addr)
      modifies this
      ensures Now() == Apply(old(Now()), root, SetFlag(addr, flag, on))
      ensures flag in EntryOf(Now(), root, addr).flags <==> on
    {
      FlagChangesFlag(Now(), root, addr, flag, on);
      var pgd := Directory(root, addr);
      DirectoryLeaf(Now(), root, PathOf(addr));
      var e := mem[pgd][PathOf(addr)[2]];
      mem := mem[pgd := mem[pgd][PathOf(addr)[2] :=
        Entry(e.frame, if on then e.flags + {flag} else e.flags - {flag})]];
    }

    method GetFlag(root: nat, addr: nat, flag: nat) returns (on: bool)
      requires Rooted(Now(), root) && HasDirectory(Now(), root, addr)
      ensures on <==> flag in EntryOf(Now(), root, addr).flags
    {
      var pgd := Directory(root, addr);
      DirectoryLeaf(Now(), root, PathOf(addr));
      on := flag in mem[pgd][PathOf(addr)[2]].flags;
    }

    /// The mapping loop of init_paging.
    method MapKernel(root: nat, base: nat, pages: nat)
      requires Rooted(Now(), root)
      modifies this
      ensures Now() == MapList(old(Now()), root, KernelPages(base, pages))
      ensures Rooted(Now(), root)
    {
      var pgno := 0;
      while pgno < pages
        invariant pgno <= pages && Rooted(Now(), root)
        invariant Now() == MapList(old(Now()), root, KernelPages(base, pgno))
      {
        var kernaddr := base + pgno * 0x20_0000;
        OneMorePage(old(Now()), root, base, pgno);
        MapAddressBuffer(root, kernaddr, KernelToPhys(kernaddr));
        pgno := pgno + 1;
      }
    }

    /// `_pml_copy`. Level 4 is a root table, level 2 a directory of leaves.
    method CopyTable(dest: nat, src: nat, cow: bool, level: nat)
      requires level >= 2
      modifies this
      ensures Now() == Copy(old(Now()), dest, src, cow, level - 1, 0)
      decreases level, 1
    {
      var i := 0;
      while i < 512
        invariant 0 <= i <= 512
        invariant Copy(Now(), dest, src, cow, level - 1, i) == Copy(old(Now()), dest, src, cow, level - 1, 0)
      {
        CopyOne(dest, Row(mem, src)[i], cow, level, i);
        i := i + 1;
      }
    }

    /// The body of its loop.
    method CopyOne(dest: nat, e: Entry, cow: bool, level: nat, i: Index)
      requires level >= 2
      modifies this
      ensures Now() == CopyEntry(old(Now()), dest, e, cow, level - 1, i)
      decreases level, 0
    {
      if level > 2 {
        if e.frame != 0 {
          var child := pool;
          mem := mem[child := ZeroTable()];
          pool := pool + 1;
          CopyTable(child, e.frame, cow, level - 1);
          mem := mem[dest := Row(mem, dest)[i := Copied(Entry(child, e.flags), cow)]];
        }
      } else {
        mem := mem[dest := Row(mem, dest)[i := Copied(e, cow)]];
      }
    }
  }

  lemma OneMorePage(s: State, root: nat, base: nat, k: nat)
    requires Rooted(s, root)
    ensures MapList(s, root, KernelPages(base, k + 1))
         == Map(MapList(s, root, KernelPages(base, k)), root, PathOf(base + k * 0x20_0000),
                LeafEntry(KernelToPhys(base + k * 0x20_0000), LEAF_FLAGS))
  {
    OneMoreKernelPage(base, k);
    MapListAppend(s, root, KernelPages(base, k),
                  (PathOf(base + k * 0x20_0000), LeafEntry(KernelToPhys(base + k * 0x20_0000), LEAF_FLAGS)));
  }

  lemma OneMoreKernelPage(base: nat, k: nat)
    ensures var addr := base + k * 0x20_0000;
      KernelPages(base, k + 1) == KernelPages(base, k) + [(PathOf(addr), LeafEntry(KernelToPhys(addr), LEAF_FLAGS))]
  {
  }

  lemma MapListAppend(s: State, root: nat, pages: seq<Mapping>, m: Mapping)
    requires Rooted(s, root)
    ensures MapList(s, root, pages + [m]) == Map(MapList(s, root, pages), root, m.0, m.1)
  {
    assert (pages + [m])[..|pages|] == pages;
  }

  lemma BelowPool(s: State, root: nat, q: seq<Index>)
    requires Rooted(s, root) && |q| == DEPTH
    ensures 0 < root < s.pool
    ensures root in s.mem && |s.mem[root]| == ENTRIES
    ensures var s1 := Ensure(s, root, q[0]); 0 < s1.mem[root][q[0]].frame < s1.pool
  {
    var at :| IsTree(s, at, root);
    assert Node(s, at, []);
    assert EntryLinked(s.mem[root][q[0]], at, [] + [q[0]]);
    if s.mem[root][q[0]].frame != 0 {
      assert Node(s, at, [] + [q[0]]);
    }
  }

  lemma TwoSteps(m: Memory, root: nat, q: seq<Index>)
    requires |q| == DEPTH && TableAt(m, root, q[..2]) != 0
    ensures root in m && |m[root]| == ENTRIES
    ensures var pdp := m[root][q[0]].frame;
      pdp in m && |m[pdp]| == ENTRIES && m[pdp][q[1]].frame == TableAt(m, root, q[..2])
  {
    var r := q[..2];
    assert r[1..] == [q[1]] && r[1..][1..] == [];
    var pdp := m[root][q[0]].frame;
    assert TableAt(m, root, r) == TableAt(m, pdp, [q[1]]);
    assert [q[1]][1..] == [];
    assert TableAt(m, pdp, [q[1]]) == TableAt(m, m[pdp][q[1]].frame, []);
  }

  lemma DirectoryLeaf(s: State, root: nat, q: seq<Index>)
    requires Rooted(s, root) && |q| == DEPTH && TableAt(s.mem, root, q[..2]) != 0
    ensures var pgd := TableAt(s.mem, root, q[..2]);
      pgd in s.mem && |s.mem[pgd]| == ENTRIES && Leaf(s.mem, root, q) == s.mem[pgd][q[2]]
  {
    DirectoryIsTable(s, root, q);
    TwoSteps(s.mem, root, q);
    var pdp := s.mem[root][q[0]].frame;
    var r := q[1..];
    assert r[1..] == [q[2]];
    assert Leaf(s.mem, root, q) == Leaf(s.mem, pdp, r);
    assert Leaf(s.mem, pdp, r) == Leaf(s.mem, s.mem[pdp][r[0]].frame, [q[2]]);
  }

  // ---- pml4_map_address as it is written ----

  /// The kcalloc variant tests the pointer table again where it means the directory, so a
  /// missing directory is taken to lie at page 0.
  datatype Outcome = Stored(state: State) | WildWrite

  function MapAsWritten(s: State, root: nat, q: seq<Index>, frame: nat): Outcome
    requires Rooted(s, root) && |q| == DEPTH
  {
    MapSteps(s, root, q);
    var s1 := Ensure(s, root, q[0]);
    var pdp := s1.mem[root][q[0]].frame;
    var pgd := s1.mem[pdp][q[1]].frame;
    if pgd == 0 || pgd !in s1.mem || |s1.mem[pgd]| != ENTRIES then WildWrite
    else Stored(s1.(mem := SetEntry(s1.mem, pgd, q[2], LeafEntry(frame, {WRITABLE, PRESENT}))))
  }

  /// It is safe exactly when the directory already exists; the entry it then writes is no
  /// 2 MiB page.
  lemma MapAsWrittenNeedsDirectory(s: State, root: nat, q: seq<Index>, frame: nat, r: seq<Index>)
    requires Rooted(s, root) && |q| == DEPTH && |r| == DEPTH
    ensures MapAsWritten(s, root, q, frame).Stored? <==> TableAt(s.mem, root, q[..2]) != 0
    ensures MapAsWritten(s, root, q, frame).Stored? ==>
      var t := MapAsWritten(s, root, q, frame).state;
      && Rooted(t, root)
      && Leaf(t.mem, root, r) == (if r == q then LeafEntry(frame, {WRITABLE, PRESENT}) else Leaf(s.mem, root, r))
      && (frame % 4096 == 0 ==> Translate(t, root, q, 0) == None)
  {
    var at :| IsTree(s, at, root);
    MapSteps(s, root, q);
    var s1 := Ensure(s, root, q[0]);
    var at1 := EnsureKeepsTree(s, at, root, [], q[0]) by { assert Node(s, at, []); }
    assert [] + [q[0]] == [q[0]] && q[..2] == [q[0]] + [q[1]];
    assert Node(s, at, []) && EntryLinked(s.mem[root][q[0]], at, [] + [q[0]]);
    assert Node(s1, at1, [q[0]]);
    var pdp := s1.mem[root][q[0]].frame;
    assert EntryLinked(s1.mem[pdp][q[1]], at1, [q[0]] + [q[1]]);
    TableIsListed(s, at, root, [], q[..2]);
    assert [] + q[..2] == q[..2];
    if TableAt(s.mem, root, q[..2]) != 0 {
      var e := LeafEntry(frame, {WRITABLE, PRESENT});
      TwoSteps(s.mem, root, q);
      DirectoryIsTable(s, root, q);
      assert s1 == s;
      UpdateIsFlatUpdate(s, root, q, e, r);
      UpdateIsFlatUpdate(s, root, q, e, q);
      if frame % 4096 == 0 {
        NoLowBits(frame);
        var t := Update(s, root, q, e);
        var at2 :| IsTree(t, at2, root);
        HardwareFindsLeaf(t, at2, root, [], q);
      }
    }
  }

  function Onward(o: Option<Reach>, writable: bool): Option<Reach> {
    match o
    case None => None
    case Some(r) => Some(Reach(r.entry, r.writable && writable))
  }

  /// A walk with one more index goes on from where the shorter one ends.
  lemma {:induction false} WalkGoesOn(m: Memory, f: nat, q: seq<Index>, k: Index)
    requires q != []
    ensures Hardware(m, f, q + [k]) == match Hardware(m, f, q)
      case None => None
      case Some(r) => Onward(Hardware(m, r.entry.frame, [k]), r.writable)
    decreases |q|
  {
    assert (q + [k])[0] == q[0] && (q + [k])[1..] == q[1..] + [k];
    if |q| == 1 {
      assert q[1..] + [k] == [k];
    } else if f in m && |m[f]| == ENTRIES {
      WalkGoesOn(m, m[f][q[0]].frame, q[1..], k);
    }
  }

  /// So the processor goes on and takes the page that was to be mapped for a table: which 4 KiB
  /// page an address gets is read from that page's own words.
  lemma MapAsWrittenMakesTable(s: State, root: nat, q: seq<Index>, frame: nat, k: Index)
    requires Rooted(s, root) && |q| == DEPTH && frame % 4096 == 0
    requires MapAsWritten(s, root, q, frame).Stored?
    ensures var t := MapAsWritten(s, root, q, frame).state;
      && Hardware(t.mem, root, q).Some?
      && Hardware(t.mem, root, q + [k])
           == Onward(Hardware(t.mem, frame / 4096, [k]), Hardware(t.mem, root, q).value.writable)
  {
    MapAsWrittenNeedsDirectory(s, root, q, frame, q);
    NoLowBits(frame);
    var t := MapAsWritten(s, root, q, frame).state;
    var at :| IsTree(t, at, root);
    HardwareFindsLeaf(t, at, root, [], q);
    WalkGoesOn(t.mem, root, q, k);
  }
}
