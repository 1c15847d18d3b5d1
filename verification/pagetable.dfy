/// The page tables (kern/lib/mem/pml4.c, the mapping loop of kern/lib/mem/paging.c).
///
/// A table is 512 entries. Three tables are walked for an address: the root (PML4), the
/// page directory pointer table and the page directory, whose entries map 2 MiB pages
/// (Intel 64 and IA-32 Architectures SDM, volume 3A, section 4.5).

module PageTables {
  import opened Options
  import opened Words

  const ENTRIES := 512
  /// The root, the pointer table and the directory.
  const DEPTH: nat := 3

  /// The flags of an entry, by bit number.
  const PRESENT: nat := 0
  const WRITABLE: nat := 1
  const PGSIZE: nat := 7

  /// A 64-bit entry: `e & ~0xFFF` as a page number, and which of the twelve low bits are set.
  datatype Entry = Entry(frame: nat, flags: set<nat>)

  const ZERO := Entry(0, {})

  function ZeroTable(): (t: seq<Entry>)
    ensures |t| == ENTRIES && forall i :: 0 <= i < ENTRIES ==> t[i] == ZERO
  {
    seq(ENTRIES, i => ZERO)
  }

  /// Physical memory as far as it holds tables, by page number.
  type Memory = map<nat, seq<Entry>>

  /// Tables together with the next unused table of the pool. Pool tables are zero.
  datatype State = State(mem: Memory, pool: nat)

  type Index = i: nat | i < 512

  /// The leaf entry that the walk from table f along the indices q ends at, or zero where
  /// a table on the way is missing.
  function Leaf(m: Memory, f: nat, q: seq<Index>): Entry
    decreases |q|
  {
    if f !in m || |m[f]| != ENTRIES || q == [] then ZERO
    else if |q| == 1 then m[f][q[0]]
    else if m[f][q[0]].frame == 0 then ZERO
    else Leaf(m, m[f][q[0]].frame, q[1..])
  }

  predicate Present(e: Entry) {
    PRESENT in e.flags
  }

  /// What a walk of the processor ends with: the leaf entry, and whether a write is allowed,
  /// which takes the writable flag of every entry on the way.
  datatype Reach = Reach(entry: Entry, writable: bool)

  /// What the processor does: every entry on the way must be marked present.
  function Hardware(m: Memory, f: nat, q: seq<Index>): Option<Reach>
    decreases |q|
  {
    if f !in m || |m[f]| != ENTRIES || q == [] || !Present(m[f][q[0]]) then None
    else if |q| == 1 then Some(Reach(m[f][q[0]], WRITABLE in m[f][q[0]].flags))
    else
      match Hardware(m, m[f][q[0]].frame, q[1..])
      case None => None
      case Some(r) => Some(Reach(r.entry, r.writable && WRITABLE in m[f][q[0]].flags))
  }

  /// Every entry that the walk passes has the writable flag.
  ghost predicate WritableAlong(m: Memory, f: nat, q: seq<Index>) {
    forall k {:trigger q[..k]} :: 0 < k <= |q| ==> WRITABLE in Leaf(m, f, q[..k]).flags
  }

  // ---- the tables form a tree ----

  type Path = p: seq<Index> | |p| < DEPTH

  /// Tables by the paths that lead to them.
  type Paths = map<seq<Index>, nat>

  /// The table reached by p: there is a table behind each of its nonzero entries, under the
  /// longer path, and nothing under that path behind a zero entry.
  ghost predicate Table(m: Memory, at: Paths, p: seq<Index>)
    requires p in at
  {
    && at[p] in m && |m[at[p]]| == ENTRIES && |p| < DEPTH
    && (|p| + 1 < DEPTH ==>
          forall i: Index {:trigger EntryLinked(m[at[p]][i], at, p + [i])} ::
            EntryLinked(m[at[p]][i], at, p + [i]))
  }

  ghost predicate Node(s: State, at: Paths, p: seq<Index>)
    requires p in at
  {
    0 < at[p] < s.pool && Table(s.mem, at, p)
  }

  ghost predicate EntryLinked(e: Entry, at: Paths, p: seq<Index>) {
    if e.frame != 0 then Present(e) && p in at && at[p] == e.frame
    else e == ZERO && p !in at
  }

  /// `at` lists the tables of the tree by the paths that lead to them from the root. Two
  /// paths never lead to the same table.
  ghost predicate IsTree(s: State, at: Paths, root: nat) {
    && [] in at && at[[]] == root
    && (forall p {:trigger Node(s, at, p)} :: p in at ==> Node(s, at, p))
    && (forall p, q {:trigger at[p], at[q]} :: p in at && q in at && at[p] == at[q] ==> p == q)
    && (forall p {:trigger p[..|p| - 1]} :: p in at && p != [] ==> p[..|p| - 1] in at)
  }

  /// The table that the walk from f along p ends at, 0 where it breaks off.
  function TableAt(m: Memory, f: nat, p: seq<Index>): nat
    decreases |p|
  {
    if p == [] then f
    else if f !in m || |m[f]| != ENTRIES || m[f][p[0]].frame == 0 then 0
    else TableAt(m, m[f][p[0]].frame, p[1..])
  }

  lemma {:induction false} WalkStaysInside(s: State, at: Paths, root: nat, p: seq<Index>, q: seq<Index>)
    requires IsTree(s, at, root) && p in at && |p| + |q| < DEPTH
    ensures var t := TableAt(s.mem, at[p], q); t != 0 ==> p + q in at && at[p + q] == t
    decreases |q|
  {
    if q != [] {
      assert Node(s, at, p);
      if s.mem[at[p]][q[0]].frame != 0 {
        assert EntryLinked(s.mem[at[p]][q[0]], at, p + [q[0]]);
        WalkStaysInside(s, at, root, p + [q[0]], q[1..]);
        assert p + [q[0]] + q[1..] == p + q;
      }
    } else {
      assert p + q == p;
    }
  }

  /// No table is reachable by two paths.
  lemma NoSharing(s: State, at: Paths, root: nat, p: Path, q: Path)
    requires IsTree(s, at, root)
    requires TableAt(s.mem, root, p) == TableAt(s.mem, root, q) != 0
    ensures p == q
  {
    WalkStaysInside(s, at, root, [], p);
    WalkStaysInside(s, at, root, [], q);
    assert [] + p == p && [] + q == q;
  }

  lemma WritableAlongUnfolds(m: Memory, f: nat, q: seq<Index>)
    requires f in m && |m[f]| == ENTRIES && |q| > 1 && m[f][q[0]].frame != 0
    ensures WritableAlong(m, f, q)
       <==> WRITABLE in m[f][q[0]].flags && WritableAlong(m, m[f][q[0]].frame, q[1..])
  {
    var g, r := m[f][q[0]].frame, q[1..];
    assert q[..1] == [q[0]];
    forall k | 1 < k <= |q|
      ensures Leaf(m, f, q[..k]) == Leaf(m, g, r[..k - 1])
    {
      assert q[..k][0] == q[0] && q[..k][1..] == r[..k - 1];
    }
    if WRITABLE in m[f][q[0]].flags && WritableAlong(m, g, r) {
      forall k {:trigger q[..k]} | 0 < k <= |q|
        ensures WRITABLE in Leaf(m, f, q[..k]).flags
      {
        if k > 1 { assert WRITABLE in Leaf(m, g, r[..k - 1]).flags; }
      }
    }
    if WritableAlong(m, f, q) {
      assert WRITABLE in Leaf(m, f, q[..1]).flags;
      forall k {:trigger r[..k]} | 0 < k <= |r|
        ensures WRITABLE in Leaf(m, g, r[..k]).flags
      {
        assert WRITABLE in Leaf(m, f, q[..k + 1]).flags;
      }
    }
  }

  /// The processor finds exactly the leaf entries marked present, and allows writing where
  /// every entry of the path does.
  lemma {:induction false} HardwareFindsLeaf(s: State, at: Paths, root: nat,
                                             p: seq<Index>, q: seq<Index>)
    requires IsTree(s, at, root) && p in at && |p| + |q| == DEPTH
    ensures Hardware(s.mem, at[p], q)
         == if Present(Leaf(s.mem, at[p], q))
            then Some(Reach(Leaf(s.mem, at[p], q), WritableAlong(s.mem, at[p], q))) else None
    decreases |q|
  {
    assert Node(s, at, p);
    if |q| > 1 {
      var e := s.mem[at[p]][q[0]];
      assert EntryLinked(e, at, p + [q[0]]);
      if e.frame != 0 {
        HardwareFindsLeaf(s, at, root, p + [q[0]], q[1..]);
        WritableAlongUnfolds(s.mem, at[p], q);
      }
    } else {
      assert q[..1] == q;
    }
  }

  // ---- one step of a mapping ----

  function SetEntry(m: Memory, f: nat, i: Index, e: Entry): Memory
    requires f in m && |m[f]| == ENTRIES
  {
    m[f := m[f][i := e]]
  }

  /// The table behind entry i of f, taken from the pool if there is none.
  function Ensure(s: State, f: nat, i: Index): State
    requires f in s.mem && |s.mem[f]| == ENTRIES
  {
    if s.mem[f][i].frame == 0 then
      State(SetEntry(s.mem, f, i, Entry(s.pool, {WRITABLE, PRESENT}))[s.pool := ZeroTable()], s.pool + 1)
    else s
  }

  lemma {:induction false} EmptyTableLeaf(m: Memory, f: nat, q: seq<Index>)
    requires f in m && m[f] == ZeroTable()
    ensures Leaf(m, f, q) == ZERO
  {
  }

  /// Adding an empty table keeps the tree; it is the new table under the path p + [i].
  lemma EnsureKeepsTree(s: State, at: Paths, root: nat, p: seq<Index>, i: Index)
    returns (at': Paths)
    requires IsTree(s, at, root) && p in at && |p| + 1 < DEPTH && Node(s, at, p)
    ensures IsTree(Ensure(s, at[p], i), at', root)
    ensures p + [i] in at' && at'[p + [i]] == Ensure(s, at[p], i).mem[at[p]][i].frame
    ensures at' == at[p + [i] := at'[p + [i]]]
  {
    var t := Ensure(s, at[p], i);
    assert Node(s, at, p) && EntryLinked(s.mem[at[p]][i], at, p + [i]);
    if s.mem[at[p]][i].frame != 0 {
      at' := at;
    } else {
      at' := at[p + [i] := s.pool];
      forall r | r in at' ensures Node(t, at', r) {
        if r != p + [i] {
          EnsureKeepsNode(s, at, root, p, i, r);
        } else {
          forall j: Index | |r| + 1 < DEPTH ensures EntryLinked(t.mem[s.pool][j], at', r + [j]) {
            NoOrphans(s, at, root, p, i, j);
          }
        }
      }
      forall r, q | r in at' && q in at' && at'[r] == at'[q] ensures r == q {
        if r in at { assert Node(s, at, r); }
        if q in at { assert Node(s, at, q); }
      }
      assert (p + [i])[..|p|] == p;
    }
  }

  lemma EnsureKeepsNode(s: State, at: Paths, root: nat, p: seq<Index>, i: Index, r: seq<Index>)
    requires IsTree(s, at, root) && p in at && |p| + 1 < DEPTH && r in at
    requires at[p] in s.mem && |s.mem[at[p]]| == ENTRIES && s.mem[at[p]][i].frame == 0
    ensures Node(Ensure(s, at[p], i), at[p + [i] := s.pool], r)
  {
    var t, at' := Ensure(s, at[p], i), at[p + [i] := s.pool];
    assert Node(s, at, r) && Node(s, at, p);
    assert EntryLinked(s.mem[at[p]][i], at, p + [i]);
    forall j: Index | |r| + 1 < DEPTH ensures EntryLinked(t.mem[at[r]][j], at', r + [j]) {
      assert EntryLinked(s.mem[at[r]][j], at, r + [j]);
      LastStep(r, j, p, i);
    }
  }

  /// Nothing hangs below an entry that leads nowhere.
  lemma NoOrphans(s: State, at: Paths, root: nat, p: seq<Index>, i: Index, j: Index)
    requires IsTree(s, at, root) && p in at && p + [i] !in at
    ensures p + [i] + [j] !in at
  {
    var r := p + [i] + [j];
    assert r[..|r| - 1] == p + [i];
  }

  lemma LastStep(p: seq<Index>, i: Index, q: seq<Index>, j: Index)
    ensures p + [i] == q + [j] <==> p == q && i == j
  {
    if p + [i] == q + [j] {
      assert (p + [i])[..|p|] == p && (q + [j])[..|q|] == q;
      assert (p + [i])[|p|] == i && (q + [j])[|q|] == j;
    }
  }

  lemma {:induction false} EnsureKeepsLeaves(s: State, at: Paths, root: nat,
                                             p: seq<Index>, i: Index, r: seq<Index>, q: seq<Index>)
    requires IsTree(s, at, root) && p in at && |p| + 1 < DEPTH && Node(s, at, p)
    requires r in at && |r| + |q| == DEPTH
    ensures Leaf(Ensure(s, at[p], i).mem, at[r], q) == Leaf(s.mem, at[r], q)
    decreases |q|
  {
    var t := Ensure(s, at[p], i);
    assert Node(s, at, p) && Node(s, at, r);
    if |q| > 1 {
      var e := s.mem[at[r]][q[0]];
      assert EntryLinked(e, at, r + [q[0]]);
      if e.frame != 0 {
        EnsureKeepsLeaves(s, at, root, p, i, r + [q[0]], q[1..]);
      } else if at[r] == at[p] && q[0] == i {
        EmptyTableLeaf(t.mem, s.pool, q[1..]);
      }
    }
  }

  /// Writing one directory entry keeps the tree.
  lemma WriteKeepsTree(s: State, at: Paths, root: nat, p: seq<Index>, i: Index, e: Entry)
    requires IsTree(s, at, root) && p in at && |p| + 1 == DEPTH && Node(s, at, p)
    ensures IsTree(s.(mem := SetEntry(s.mem, at[p], i, e)), at, root)
  {
    var t := s.(mem := SetEntry(s.mem, at[p], i, e));
    forall r | r in at ensures Node(t, at, r) {
      assert Node(s, at, r);
      forall j: Index | |r| + 1 < DEPTH ensures EntryLinked(t.mem[at[r]][j], at, r + [j]) {
        assert EntryLinked(s.mem[at[r]][j], at, r + [j]);
      }
    }
  }

  /// It changes the leaf of exactly one path.
  lemma {:induction false} WriteChangesOneLeaf(s: State, at: Paths, root: nat,
                                               p: seq<Index>, i: Index, e: Entry, r: seq<Index>, q: seq<Index>)
    requires IsTree(s, at, root) && p in at && |p| + 1 == DEPTH && Node(s, at, p)
    requires r in at && |r| + |q| == DEPTH
    ensures Leaf(SetEntry(s.mem, at[p], i, e), at[r], q) == if r + q == p + [i] then e else Leaf(s.mem, at[r], q)
    decreases |q|
  {
    assert Node(s, at, r);
    if |q| == 1 {
      assert r + q == r + [q[0]];
      LastStep(r, q[0], p, i);
    } else {
      var c := s.mem[at[r]][q[0]];
      assert EntryLinked(c, at, r + [q[0]]);
      if c.frame != 0 {
        WriteChangesOneLeaf(s, at, root, p, i, e, r + [q[0]], q[1..]);
        assert r + [q[0]] + q[1..] == r + q;
      } else {
        OffTree(s, at, root, r, q, p, i);
      }
    }
  }

  /// A path that breaks off does not run through a table of the tree.
  lemma OffTree(s: State, at: Paths, root: nat, r: seq<Index>, q: seq<Index>, p: seq<Index>, i: Index)
    requires IsTree(s, at, root) && r in at && p in at && |p| + 1 == DEPTH
    requires |r| + |q| == DEPTH && 1 < |q| && r + [q[0]] !in at
    ensures r + q != p + [i]
  {
    if r + q == p + [i] {
      assert p == (r + q)[..DEPTH - 1];
      assert p[..|r| + 1] == r + [q[0]];
      Prefix(s, at, root, p, |r| + 1);
    }
  }

  lemma {:induction false} Prefix(s: State, at: Paths, root: nat, p: seq<Index>, n: nat)
    requires IsTree(s, at, root) && p in at && n <= |p|
    ensures p[..n] in at
    decreases |p|
  {
    if n < |p| {
      Prefix(s, at, root, p[..|p| - 1], n);
      assert p[..|p| - 1][..n] == p[..n];
    } else {
      assert p[..n] == p;
    }
  }

  // ---- addresses ----

  /// The indices that the masks and shifts of the source cut out of an address.
  function PathOf(addr: nat): (q: seq<Index>)
    ensures |q| == DEPTH
  {
    [addr / 0x80_0000_0000 % 512, addr / 0x4000_0000 % 512, addr / 0x20_0000 % 512]
  }

  /// The virtual page number, 27 bits.
  function Vpn(addr: nat): (v: nat)
    ensures v < 0x800_0000
  {
    addr / 0x20_0000 % 0x800_0000
  }

  /// The digits of a page number in base 512.
  function Digits(v: nat): (q: seq<Index>)
    requires v < 0x800_0000
    ensures |q| == DEPTH
  {
    [v / 262144, v / 512 % 512, v % 512]
  }

  /// The three indices are the digits of the page number.
  lemma PathIsVpn(addr: nat)
    ensures PathOf(addr) == Digits(Vpn(addr))
  {
    var v := addr / 0x20_0000;
    assert addr / 0x4000_0000 == v / 512;
    assert addr / 0x80_0000_0000 == v / 262144;
    LowDigits(v);
  }

  lemma LowDigits(v: nat)
    ensures var w := v % 0x800_0000;
      w / 262144 == v / 262144 % 512 && w / 512 % 512 == v / 512 % 512 && w % 512 == v % 512
  {
    var k, w := v / 0x800_0000, v % 0x800_0000;
    assert v == 0x800_0000 * k + w;
    HighPart(k, w);
    Mod512(k, w / 262144);
    Mod512(512 * k, w / 512);
    Mod512(262144 * k, w);
  }

  lemma HighPart(k: nat, w: nat)
    ensures (0x800_0000 * k + w) / 262144 == 512 * k + w / 262144
    ensures (0x800_0000 * k + w) / 512 == 262144 * k + w / 512
  {
  }

  lemma Mod512(k: nat, a: nat)
    ensures (512 * k + a) % 512 == a % 512
  {
  }

  lemma DigitsValue(v: nat)
    requires v < 0x800_0000
    ensures var q := Digits(v);
      v == 262144 * q[0] as int + 512 * q[1] as int + q[2] && v / 512 == 512 * q[0] as int + q[1] && v / 262144 == q[0]
  {
    assert v / 512 / 512 == v / 262144;
  }

  /// So they tell two addresses apart exactly when the addresses lie in different 2 MiB pages.
  lemma PathsTellPages(a: nat, b: nat)
    ensures PathOf(a) == PathOf(b) <==> Vpn(a) == Vpn(b)
  {
    PathIsVpn(a);
    PathIsVpn(b);
    DigitsValue(Vpn(a));
    DigitsValue(Vpn(b));
  }

  lemma Prefixes(v: nat, w: nat)
    requires v < 0x800_0000 && w < 0x800_0000
    ensures Digits(v)[..2] == Digits(w)[..2] <==> v / 512 == w / 512
    ensures Digits(v)[..1] == Digits(w)[..1] <==> v / 262144 == w / 262144
  {
    DigitsValue(v);
    DigitsValue(w);
    var p, q := Digits(v), Digits(w);
    assert p[..2] == [p[0], p[1]] && q[..2] == [q[0], q[1]];
    assert p[..1] == [p[0]] && q[..1] == [q[0]];
    if p[..2] == q[..2] {
      assert p[..2][0] == q[..2][0] && p[..2][1] == q[..2][1];
    }
    if p[..1] == q[..1] {
      assert p[..1][0] == q[..1][0];
    }
  }

  /// Two addresses share a directory exactly when they lie in the same gigabyte.
  lemma DirectoryPath(a: nat, b: nat)
    ensures PathOf(a)[..2] == PathOf(b)[..2] <==> Vpn(a) / 512 == Vpn(b) / 512
  {
    PathIsVpn(a);
    PathIsVpn(b);
    Prefixes(Vpn(a), Vpn(b));
  }

  // ---- the operations ----

  const LEAF_FLAGS: set<nat> := {PGSIZE, WRITABLE, PRESENT}

  /// `(size_t)frame | flags`: address bits from 12 up, and the low bits joined with the flags.
  function LeafEntry(frame: nat, flags: set<nat>): Entry {
    Entry(frame / 4096, LowBits(frame) + flags)
  }

  function LowBits(addr: nat): set<nat> {
    set i: nat | i < 12 && BitOf(addr % 4096, i)
  }

  /// The memory and root are such that the walk for a path can be made.
  ghost predicate Rooted(s: State, root: nat) {
    exists at :: IsTree(s, at, root)
  }

  /// pml4_map_address_buffer: find or make the two lower tables, then write the leaf.
  function Map(s: State, root: nat, q: seq<Index>, e: Entry): State
    requires Rooted(s, root) && |q| == DEPTH
  {
    MapSteps(s, root, q);
    var s1 := Ensure(s, root, q[0]);
    var pdp := s1.mem[root][q[0]].frame;
    var s2 := Ensure(s1, pdp, q[1]);
    var pgd := s2.mem[pdp][q[1]].frame;
    s2.(mem := SetEntry(s2.mem, pgd, q[2], e))
  }

  lemma MapSteps(s: State, root: nat, q: seq<Index>)
    requires Rooted(s, root) && |q| == DEPTH
    ensures root in s.mem && |s.mem[root]| == ENTRIES
    ensures var s1 := Ensure(s, root, q[0]);
      var pdp := s1.mem[root][q[0]].frame;
      && pdp in s1.mem && |s1.mem[pdp]| == ENTRIES
      && var s2 := Ensure(s1, pdp, q[1]);
         var pgd := s2.mem[pdp][q[1]].frame;
         pgd in s2.mem && |s2.mem[pgd]| == ENTRIES
  {
    var at :| IsTree(s, at, root);
    assert Node(s, at, []);
    var s1 := Ensure(s, root, q[0]);
    var at1 := EnsureKeepsTree(s, at, root, [], q[0]);
    assert [] + [q[0]] == [q[0]];
    assert Node(s1, at1, [q[0]]);
    var pdp := s1.mem[root][q[0]].frame;
    var s2 := Ensure(s1, pdp, q[1]);
    var at2 := EnsureKeepsTree(s1, at1, root, [q[0]], q[1]);
    assert Node(s2, at2, [q[0]] + [q[1]]);
  }

  /// A mapping gives exactly the mapped page the new entry and leaves every other
  /// translation alone, and the tables still form a tree.
  lemma MapIsFlatUpdate(s: State, root: nat, q: seq<Index>, e: Entry, r: seq<Index>)
    requires Rooted(s, root) && |q| == DEPTH && |r| == DEPTH
    ensures Rooted(Map(s, root, q, e), root)
    ensures Leaf(Map(s, root, q, e).mem, root, r) == if r == q then e else Leaf(s.mem, root, r)
  {
    var at :| IsTree(s, at, root);
    MapSteps(s, root, q);
    assert Node(s, at, []);
    var s1 := Ensure(s, root, q[0]);
    var at1 := EnsureKeepsTree(s, at, root, [], q[0]);
    EnsureKeepsLeaves(s, at, root, [], q[0], [], r);
    assert [] + [q[0]] == [q[0]];
    assert Node(s1, at1, [q[0]]);
    var pdp := s1.mem[root][q[0]].frame;
    var s2 := Ensure(s1, pdp, q[1]);
    var at2 := EnsureKeepsTree(s1, at1, root, [q[0]], q[1]);
    EnsureKeepsLeaves(s1, at1, root, [q[0]], q[1], [], r);
    var p := [q[0]] + [q[1]];
    assert Node(s2, at2, p);
    WriteKeepsTree(s2, at2, root, p, q[2], e);
    WriteChangesOneLeaf(s2, at2, root, p, q[2], e, [], r);
    assert [] + r == r && p + [q[2]] == q;
  }

  /// The directory entry of an address is replaced where it is (clearing and flag updates).
  function Update(s: State, root: nat, q: seq<Index>, e: Entry): State
    requires Rooted(s, root) && |q| == DEPTH && TableAt(s.mem, root, q[..2]) != 0
  {
    DirectoryIsTable(s, root, q);
    s.(mem := SetEntry(s.mem, TableAt(s.mem, root, q[..2]), q[2], e))
  }

  lemma DirectoryIsTable(s: State, root: nat, q: seq<Index>)
    requires Rooted(s, root) && |q| == DEPTH && TableAt(s.mem, root, q[..2]) != 0
    ensures var t := TableAt(s.mem, root, q[..2]); t in s.mem && |s.mem[t]| == ENTRIES
  {
    var at :| IsTree(s, at, root);
    WalkStaysInside(s, at, root, [], q[..2]);
    assert [] + q[..2] == q[..2];
    assert Node(s, at, q[..2]);
  }

  lemma UpdateIsFlatUpdate(s: State, root: nat, q: seq<Index>, e: Entry, r: seq<Index>)
    requires Rooted(s, root) && |q| == DEPTH && TableAt(s.mem, root, q[..2]) != 0 && |r| == DEPTH
    ensures Rooted(Update(s, root, q, e), root)
    ensures Leaf(Update(s, root, q, e).mem, root, r) == if r == q then e else Leaf(s.mem, root, r)
  {
    var at :| IsTree(s, at, root);
    WalkStaysInside(s, at, root, [], q[..2]);
    assert [] + q[..2] == q[..2];
    assert Node(s, at, q[..2]);
    WriteKeepsTree(s, at, root, q[..2], q[2], e);
    WriteChangesOneLeaf(s, at, root, q[..2], q[2], e, [], r);
    assert [] + r == r && q[..2] + [q[2]] == q;
  }

  // ---- whole runs ----

  datatype Op =
    | MapPage(addr: nat, frame: nat)
    | Clear(addr: nat)
    | SetFlag(addr: nat, flag: nat, on: bool)

  /// The entry an operation leaves behind at its own page.
  function NewEntry(op: Op, e: Entry): Entry {
    match op
    case MapPage(_, frame) => LeafEntry(frame, LEAF_FLAGS)
    case Clear(_) => ZERO
    case SetFlag(_, flag, on) => Entry(e.frame, if on then e.flags + {flag} else e.flags - {flag})
  }

  function EntryOf(s: State, root: nat, addr: nat): Entry {
    Leaf(s.mem, root, PathOf(addr))
  }

  predicate HasDirectory(s: State, root: nat, addr: nat) {
    TableAt(s.mem, root, PathOf(addr)[..2]) != 0
  }

  /// Clearing and flag updates follow the table pointers without testing them.
  ghost predicate Possible(s: State, root: nat, op: Op) {
    Rooted(s, root) && (op.MapPage? || HasDirectory(s, root, op.addr))
  }

  function Apply(s: State, root: nat, op: Op): State
    requires Possible(s, root, op)
  {
    var e := NewEntry(op, EntryOf(s, root, op.addr));
    if op.MapPage? then Map(s, root, PathOf(op.addr), e) else Update(s, root, PathOf(op.addr), e)
  }

  ghost predicate AllPossible(s: State, root: nat, ops: seq<Op>)
    decreases |ops|
  {
    ops == [] || (Possible(s, root, ops[0]) && AllPossible(Apply(s, root, ops[0]), root, ops[1..]))
  }

  function Run(s: State, root: nat, ops: seq<Op>): State
    requires AllPossible(s, root, ops)
    decreases |ops|
  {
    if ops == [] then s else Run(Apply(s, root, ops[0]), root, ops[1..])
  }

  /// The same run on a flat map: what becomes of the entry of page v.
  function FlatRun(ops: seq<Op>, v: nat, e: Entry): Entry
    decreases |ops|
  {
    if ops == [] then e
    else FlatRun(ops[1..], v, if Vpn(ops[0].addr) == v then NewEntry(ops[0], e) else e)
  }

  lemma ApplyIsFlat(s: State, root: nat, op: Op, addr: nat)
    requires Possible(s, root, op)
    ensures Rooted(Apply(s, root, op), root)
    ensures EntryOf(Apply(s, root, op), root, addr)
         == if Vpn(op.addr) == Vpn(addr) then NewEntry(op, EntryOf(s, root, addr)) else EntryOf(s, root, addr)
  {
    var e := NewEntry(op, EntryOf(s, root, op.addr));
    PathsTellPages(op.addr, addr);
    if op.MapPage? {
      MapIsFlatUpdate(s, root, PathOf(op.addr), e, PathOf(addr));
    } else {
      UpdateIsFlatUpdate(s, root, PathOf(op.addr), e, PathOf(addr));
    }
  }

  /// Over every run of mappings, clears and flag updates, walking the tables agrees with a
  /// flat map from page number to entry, and the tables still form a tree.
  lemma {:induction false} RunIsFlat(s: State, root: nat, ops: seq<Op>, addr: nat)
    requires Rooted(s, root) && AllPossible(s, root, ops)
    ensures Rooted(Run(s, root, ops), root)
    ensures EntryOf(Run(s, root, ops), root, addr) == FlatRun(ops, Vpn(addr), EntryOf(s, root, addr))
    decreases |ops|
  {
    if ops != [] {
      ApplyIsFlat(s, root, ops[0], addr);
      RunIsFlat(Apply(s, root, ops[0]), root, ops[1..], addr);
    }
  }

  // ---- what each operation leaves behind ----

  /// A cleared page has a zero entry, and the processor finds nothing.
  lemma ClearLeavesNothing(s: State, root: nat, addr: nat)
    requires Possible(s, root, Clear(addr))
    ensures EntryOf(Apply(s, root, Clear(addr)), root, addr) == Entry(0, {})
    ensures Hardware(Apply(s, root, Clear(addr)).mem, root, PathOf(addr)) == None
  {
    var t := Apply(s, root, Clear(addr));
    ApplyIsFlat(s, root, Clear(addr), addr);
    var at :| IsTree(t, at, root);
    HardwareFindsLeaf(t, at, root, [], PathOf(addr));
  }

  /// A flag change is about that flag alone.
  lemma FlagChangesFlag(s: State, root: nat, addr: nat, flag: nat, on: bool)
    requires Possible(s, root, SetFlag(addr, flag, on))
    ensures var e, f := EntryOf(s, root, addr), EntryOf(Apply(s, root, SetFlag(addr, flag, on)), root, addr);
      f.frame == e.frame && (flag in f.flags <==> on) && forall g :: g != flag ==> (g in f.flags <==> g in e.flags)
  {
    ApplyIsFlat(s, root, SetFlag(addr, flag, on), addr);
  }

  /// The flags of the entry on the way to p after a mapping: those it had, or present and
  /// writable for a new table.
  function UpperFlags(s: State, root: nat, p: seq<Index>): set<nat> {
    if TableAt(s.mem, root, p) == 0 then {0, 1} else Leaf(s.mem, root, p).flags
  }

  /// Every table that was there before on the way is behind a writable entry.
  predicate UpperWritable(s: State, root: nat, q: seq<Index>)
    requires |q| == DEPTH
  {
    1 in UpperFlags(s, root, q[..1]) && 1 in UpperFlags(s, root, q[..2])
  }

  /// A mapped page has the frame and the flags present, writable and page-size, and no others;
  /// new tables do not take the right to write away.
  lemma MapLeavesPage(s: State, root: nat, addr: nat, frame: nat)
    requires Possible(s, root, MapPage(addr, frame)) && frame % 4096 == 0
    ensures EntryOf(Apply(s, root, MapPage(addr, frame)), root, addr) == Entry(frame / 4096, {0, 1, 7})
    ensures Hardware(Apply(s, root, MapPage(addr, frame)).mem, root, PathOf(addr))
         == Some(Reach(Entry(frame / 4096, {0, 1, 7}), UpperWritable(s, root, PathOf(addr))))
    ensures forall k {:trigger PathOf(addr)[..k]} :: 0 < k < DEPTH ==>
      Leaf(Apply(s, root, MapPage(addr, frame)).mem, root, PathOf(addr)[..k]).flags
        == UpperFlags(s, root, PathOf(addr)[..k])
  {
    NoLowBits(frame);
    ApplyIsFlat(s, root, MapPage(addr, frame), addr);
    MapReaches(s, root, PathOf(addr), LeafEntry(frame, LEAF_FLAGS));
  }

  lemma MapReaches(s: State, root: nat, q: seq<Index>, e: Entry)
    requires Rooted(s, root) && |q| == DEPTH && 0 in e.flags
    ensures Hardware(Map(s, root, q, e).mem, root, q)
         == Some(Reach(e, WRITABLE in e.flags && UpperWritable(s, root, q)))
    ensures Leaf(Map(s, root, q, e).mem, root, q[..1]).flags == UpperFlags(s, root, q[..1])
    ensures Leaf(Map(s, root, q, e).mem, root, q[..2]).flags == UpperFlags(s, root, q[..2])
  {
    MapSteps(s, root, q);
    PathTables(s, root, q);
    var s1 := Ensure(s, root, q[0]);
    var pdp := s1.mem[root][q[0]].frame;
    var s2 := Ensure(s1, pdp, q[1]);
    var pgd := s2.mem[pdp][q[1]].frame;
    UpperEntries(s, root, q, s1, pdp, s2);
    WalkOfThree(s2.(mem := SetEntry(s2.mem, pgd, q[2], e)).mem, root, q, pdp, pgd);
  }

  /// The three tables of a mapping are different, and the entries that lead to them present.
  lemma PathTables(s: State, root: nat, q: seq<Index>)
    requires Rooted(s, root) && |q| == DEPTH
    ensures root in s.mem && |s.mem[root]| == ENTRIES && 0 < root < s.pool
    ensures var s1 := Ensure(s, root, q[0]);
      var pdp := s1.mem[root][q[0]].frame;
      && pdp in s1.mem && |s1.mem[pdp]| == ENTRIES && root < s1.pool && pdp < s1.pool
      && var s2 := Ensure(s1, pdp, q[1]);
         var pgd := s2.mem[pdp][q[1]].frame;
         && root in s2.mem && |s2.mem[root]| == ENTRIES && pdp in s2.mem && |s2.mem[pdp]| == ENTRIES
         && root != pdp && root != pgd && pdp != pgd
         && s2.mem[root][q[0]].frame == pdp && 0 in s2.mem[root][q[0]].flags && 0 in s2.mem[pdp][q[1]].flags
  {
    var at :| IsTree(s, at, root);
    MapSteps(s, root, q);
    assert Node(s, at, []);
    var s1 := Ensure(s, root, q[0]);
    var at1 := EnsureKeepsTree(s, at, root, [], q[0]);
    PathPrefixes(q);
    assert Node(s1, at1, []) && Node(s1, at1, [q[0]]);
    var pdp := s1.mem[root][q[0]].frame;
    var s2 := Ensure(s1, pdp, q[1]);
    var at2 := EnsureKeepsTree(s1, at1, root, [q[0]], q[1]);
    assert at2[[]] == root && at2[[q[0]]] == pdp && at2[q[..2]] == s2.mem[pdp][q[1]].frame;
    assert Node(s2, at2, []) && EntryLinked(s2.mem[root][q[0]], at2, [] + [q[0]]);
    assert Node(s2, at2, [q[0]]) && EntryLinked(s2.mem[pdp][q[1]], at2, [q[0]] + [q[1]]);
  }

  /// What the two upper entries of a mapped page say about writing.
  lemma UpperEntries(s: State, root: nat, q: seq<Index>, s1: State, pdp: nat, s2: State)
    requires |q| == DEPTH && root in s.mem && |s.mem[root]| == ENTRIES && s.pool != root && s.pool > 0
    requires s1 == Ensure(s, root, q[0]) && pdp == s1.mem[root][q[0]].frame && root != pdp
    requires pdp in s1.mem && |s1.mem[pdp]| == ENTRIES && s2 == Ensure(s1, pdp, q[1]) && s1.pool !in {root, pdp}
    ensures s2.mem[root][q[0]].flags == UpperFlags(s, root, q[..1])
    ensures s2.mem[pdp][q[1]].flags == UpperFlags(s, root, q[..2])
  {
    var p := s.mem[root][q[0]].frame;
    assert q[..1][1..] == [] && q[..2][1..] == [q[1]] && [q[1]][1..] == [];
    assert TableAt(s.mem, root, q[..1]) == p;
    assert Leaf(s.mem, root, q[..1]) == s.mem[root][q[0]];
    if p != 0 {
      assert TableAt(s.mem, root, q[..2]) == TableAt(s.mem, p, [q[1]]);
      assert TableAt(s.mem, p, [q[1]]) == s.mem[p][q[1]].frame;
      assert Leaf(s.mem, root, q[..2]) == Leaf(s.mem, p, [q[1]]);
    } else {
      assert TableAt(s.mem, root, q[..2]) == 0;
    }
  }

  lemma WalkOfThree(m: Memory, root: nat, q: seq<Index>, pdp: nat, pgd: nat)
    requires |q| == DEPTH && root in m && |m[root]| == ENTRIES && pdp in m && |m[pdp]| == ENTRIES
    requires pgd in m && |m[pgd]| == ENTRIES && m[root][q[0]].frame == pdp && m[pdp][q[1]].frame == pgd
    requires 0 in m[root][q[0]].flags && 0 in m[pdp][q[1]].flags && 0 in m[pgd][q[2]].flags
    ensures Hardware(m, root, q)
         == Some(Reach(m[pgd][q[2]], 1 in m[root][q[0]].flags && 1 in m[pdp][q[1]].flags && 1 in m[pgd][q[2]].flags))
    ensures pdp != 0 ==> Leaf(m, root, q[..1]) == m[root][q[0]] && Leaf(m, root, q[..2]) == m[pdp][q[1]]
  {
    assert q[..2][1..] == [q[1]];
    assert Leaf(m, pdp, [q[1]]) == m[pdp][q[1]];
    var r := q[1..];
    assert r[1..] == [q[2]];
    assert Hardware(m, pgd, [q[2]]) == Some(Reach(m[pgd][q[2]], 1 in m[pgd][q[2]].flags));
    assert Hardware(m, pdp, r).Some?;
  }

  /// The last operation on a page decides its entry.
  lemma {:induction false} LastOneDecides(ops: seq<Op>, v: nat, e: Entry, i: nat)
    requires i < |ops| && Vpn(ops[i].addr) == v && forall j :: i < j < |ops| ==> Vpn(ops[j].addr) != v
    ensures match ops[i]
            case Clear(_) => FlatRun(ops, v, e) == Entry(0, {})
            case MapPage(_, frame) => frame % 4096 == 0 ==> FlatRun(ops, v, e) == Entry(frame / 4096, {0, 1, 7})
            case SetFlag(_, flag, on) =>
              var before, after := FlatRun(ops[..i], v, e), FlatRun(ops, v, e);
              && after.frame == before.frame && (flag in after.flags <==> on)
              && forall g :: g != flag ==> (g in after.flags <==> g in before.flags)
    decreases i
  {
    if i == 0 {
      Untouched(ops[1..], v, NewEntry(ops[0], e));
      if ops[0].MapPage? && ops[0].frame % 4096 == 0 {
        NoLowBits(ops[0].frame);
      }
    } else {
      assert ops[..i][1..] == ops[1..][..i - 1] && ops[..i][0] == ops[0];
      LastOneDecides(ops[1..], v, if Vpn(ops[0].addr) == v then NewEntry(ops[0], e) else e, i - 1);
    }
  }

  lemma {:induction false} Untouched(ops: seq<Op>, v: nat, e: Entry)
    requires forall op <- ops :: Vpn(op.addr) != v
    ensures FlatRun(ops, v, e) == e
    decreases |ops|
  {
    if ops != [] {
      Untouched(ops[1..], v, e);
    }
  }

  // ---- which directories exist, and how many tables a mapping takes ----

  lemma TableIsListed(s: State, at: Paths, root: nat, p: seq<Index>, q: seq<Index>)
    requires IsTree(s, at, root) && p in at && |p| + |q| < DEPTH
    ensures TableAt(s.mem, at[p], q) != 0 <==> p + q in at
    decreases |q|
  {
    WalkStaysInside(s, at, root, p, q);
    assert Node(s, at, p);
    if q == [] {
      assert p + q == p;
    } else {
      assert EntryLinked(s.mem[at[p]][q[0]], at, p + [q[0]]);
      assert p + [q[0]] + q[1..] == p + q;
      if p + q in at {
        Prefix(s, at, root, p + q, |p| + 1);
        assert (p + q)[..|p| + 1] == p + [q[0]];
        TableIsListed(s, at, root, p + [q[0]], q[1..]);
      }
    }
  }

  /// A mapping takes one pool table for each of the two lower levels that was missing,
  /// and afterwards the tables on its path exist besides those that did before.
  lemma MapTakes(s: State, root: nat, q: seq<Index>, e: Entry, p: seq<Index>)
    requires Rooted(s, root) && |q| == DEPTH && |p| < DEPTH
    ensures Map(s, root, q, e).pool == s.pool
      + (if TableAt(s.mem, root, q[..1]) == 0 then 1 else 0)
      + (if TableAt(s.mem, root, q[..2]) == 0 then 1 else 0)
    ensures TableAt(Map(s, root, q, e).mem, root, p) != 0 <==> (TableAt(s.mem, root, p) != 0 || p == q[..|p|])
  {
    var at :| IsTree(s, at, root);
    var at2 := MapTree(s, at, root, q, e);
    TableIsListed(s, at, root, [], q[..1]);
    TableIsListed(s, at, root, [], q[..2]);
    TableIsListed(s, at, root, [], p);
    TableIsListed(Map(s, root, q, e), at2, root, [], p);
    assert [] + p == p && [] + q[..1] == q[..1] && [] + q[..2] == q[..2];
  }

  /// The tables listed after a mapping are those from before and the two on its path.
  lemma MapTree(s: State, at: Paths, root: nat, q: seq<Index>, e: Entry)
    returns (at2: Paths)
    requires IsTree(s, at, root) && |q| == DEPTH
    ensures IsTree(Map(s, root, q, e), at2, root)
    ensures forall p :: p in at2 <==> p in at || (|p| < DEPTH && p == q[..|p|])
    ensures Map(s, root, q, e).pool == s.pool + (if q[..1] in at then 0 else 1) + (if q[..2] in at then 0 else 1)
  {
    MapSteps(s, root, q);
    assert Node(s, at, []);
    var s1 := Ensure(s, root, q[0]);
    var at1 := EnsureKeepsTree(s, at, root, [], q[0]);
    assert EntryLinked(s.mem[root][q[0]], at, [] + [q[0]]);
    PathPrefixes(q);
    assert Node(s1, at1, [q[0]]);
    var pdp := s1.mem[root][q[0]].frame;
    var s2 := Ensure(s1, pdp, q[1]);
    at2 := EnsureKeepsTree(s1, at1, root, [q[0]], q[1]);
    assert EntryLinked(s1.mem[pdp][q[1]], at1, [q[0]] + [q[1]]);
    assert Node(s2, at2, q[..2]);
    WriteKeepsTree(s2, at2, root, q[..2], q[2], e);
    forall p | |p| < DEPTH && p == q[..|p|] ensures p == [] || p == q[..1] || p == q[..2] {
    }
  }

  lemma PathPrefixes(q: seq<Index>)
    requires |q| == DEPTH
    ensures [] + [q[0]] == [q[0]] == q[..1] && [q[0]] + [q[1]] == q[..2]
  {
  }

  /// A directory exists after a run exactly when it did before, or some page of its
  /// gigabyte was mapped. So a caller can tell beforehand where clearing is safe.
  lemma {:induction false} DirectoriesComeFromMappings(s: State, root: nat, ops: seq<Op>, addr: nat)
    requires Rooted(s, root) && AllPossible(s, root, ops)
    ensures HasDirectory(Run(s, root, ops), root, addr) <==>
      HasDirectory(s, root, addr)
      || exists i :: 0 <= i < |ops| && ops[i].MapPage? && Vpn(ops[i].addr) / 512 == Vpn(addr) / 512
    decreases |ops|
  {
    if ops != [] {
      var op := ops[0];
      var t := Apply(s, root, op);
      ApplyIsFlat(s, root, op, addr);
      DirectoriesComeFromMappings(t, root, ops[1..], addr);
      DirectoryStep(s, root, op, addr);
      forall i | 0 <= i < |ops| && ops[i].MapPage? && Vpn(ops[i].addr) / 512 == Vpn(addr) / 512
        ensures HasDirectory(Run(s, root, ops), root, addr)
      {
        if i > 0 { assert ops[1..][i - 1] == ops[i]; }
      }
      if i :| 0 <= i < |ops[1..]| && ops[1..][i].MapPage? && Vpn(ops[1..][i].addr) / 512 == Vpn(addr) / 512 {
        assert ops[i + 1] == ops[1..][i];
      }
    }
  }

  lemma DirectoryStep(s: State, root: nat, op: Op, addr: nat)
    requires Possible(s, root, op)
    ensures HasDirectory(Apply(s, root, op), root, addr) <==>
      HasDirectory(s, root, addr) || (op.MapPage? && Vpn(op.addr) / 512 == Vpn(addr) / 512)
  {
    var e := NewEntry(op, EntryOf(s, root, op.addr));
    var q, r := PathOf(op.addr), PathOf(addr);
    DirectoryPath(op.addr, addr);
    if op.MapPage? {
      MapTakes(s, root, q, e, r[..2]);
    } else {
      UpdateKeepsTables(s, root, q, e, r[..2]);
    }
  }

  lemma UpdateKeepsTables(s: State, root: nat, q: seq<Index>, e: Entry, p: seq<Index>)
    requires Rooted(s, root) && |q| == DEPTH && TableAt(s.mem, root, q[..2]) != 0 && |p| < DEPTH
    ensures TableAt(Update(s, root, q, e).mem, root, p) != 0 <==> TableAt(s.mem, root, p) != 0
  {
    var at :| IsTree(s, at, root);
    DirectoryIsTable(s, root, q);
    WalkStaysInside(s, at, root, [], q[..2]);
    assert [] + q[..2] == q[..2] && [] + p == p;
    assert Node(s, at, q[..2]);
    WriteKeepsTree(s, at, root, q[..2], q[2], e);
    TableIsListed(s, at, root, [], p);
    TableIsListed(Update(s, root, q, e), at, root, [], p);
  }

  // ---- mapping consecutive pages ----

  /// A page, by its path, and the entry it is to get.
  type Mapping = m: (seq<Index>, Entry) | |m.0| == DEPTH witness ([0, 0, 0], ZERO)

  /// Mappings made one after the other, the last one last.
  function MapList(s: State, root: nat, pages: seq<Mapping>): (t: State)
    requires Rooted(s, root)
    ensures Rooted(t, root)
    decreases |pages|
  {
    if pages == [] then s
    else
      var t := MapList(s, root, pages[..|pages| - 1]);
      var m := pages[|pages| - 1];
      MapIsFlatUpdate(t, root, m.0, m.1, m.0);
      Map(t, root, m.0, m.1)
  }

  /// The processor's translation through a 2 MiB leaf.
  function Translate(s: State, root: nat, q: seq<Index>, offset: nat): Option<nat> {
    match Hardware(s.mem, root, q)
    case None => None
    case Some(r) => if PGSIZE in r.entry.flags then Some(r.entry.frame * 4096 + offset) else None
  }

  lemma TranslateLeaf(s: State, root: nat, q: seq<Index>, offset: nat)
    requires Rooted(s, root) && |q| == DEPTH
    ensures var e := Leaf(s.mem, root, q);
      Present(e) && PGSIZE in e.flags ==> Translate(s, root, q, offset) == Some(e.frame * 4096 + offset)
  {
    var at :| IsTree(s, at, root);
    HardwareFindsLeaf(s, at, root, [], q);
  }

  /// A page that one mapping of the list is for has that mapping's entry in the end.
  lemma {:induction false} ListEntry(s: State, root: nat, pages: seq<Mapping>, k: nat, q: seq<Index>)
    requires Rooted(s, root) && k < |pages| && |q| == DEPTH
    requires forall i :: 0 <= i < |pages| ==> (pages[i].0 == q <==> i == k)
    ensures Leaf(MapList(s, root, pages).mem, root, q) == pages[k].1
    decreases |pages|
  {
    var n := |pages| - 1;
    MapIsFlatUpdate(MapList(s, root, pages[..n]), root, pages[n].0, pages[n].1, q);
    if k < n {
      ListEntry(s, root, pages[..n], k, q);
    }
  }

  lemma ListTranslates(s: State, root: nat, pages: seq<Mapping>, k: nat, q: seq<Index>, offset: nat, r: nat)
    requires Rooted(s, root) && k < |pages| && |q| == DEPTH
    requires forall i :: 0 <= i < |pages| ==> (pages[i].0 == q <==> i == k)
    requires MapsTo(pages[k].1, offset, r)
    ensures Translate(MapList(s, root, pages), root, q, offset) == Some(r)
  {
    ListEntry(s, root, pages, k, q);
    TranslateLeaf(MapList(s, root, pages), root, q, offset);
  }

  /// A present 2 MiB leaf that takes the offset to r.
  predicate MapsTo(e: Entry, offset: nat, r: nat) {
    Present(e) && PGSIZE in e.flags && e.frame * 4096 + offset == r
  }

  /// Both lower tables of a path exist.
  predicate Walkable(s: State, root: nat, q: seq<Index>)
    requires |q| == DEPTH
  {
    TableAt(s.mem, root, q[..1]) != 0 && TableAt(s.mem, root, q[..2]) != 0
  }

  /// Mapping a page after one whose tables exist takes a table only where the path prefix
  /// is a different one.
  lemma NextTakes(s: State, root: nat, p: seq<Index>, q: seq<Index>, e: Entry)
    requires Rooted(s, root) && |p| == DEPTH && |q| == DEPTH && Walkable(s, root, p)
    ensures var t := Map(s, root, q, e);
      && t.pool - s.pool <= (if p[..1] == q[..1] then 0 else 1) + (if p[..2] == q[..2] then 0 else 1)
      && Walkable(t, root, q)
  {
    MapTakes(s, root, q, e, q[..1]);
    MapTakes(s, root, q, e, q[..2]);
    assert q[..|q[..1]|] == q[..1] && q[..|q[..2]|] == q[..2];
  }

  /// How often the first d indices change along the list.
  function Changes(pages: seq<Mapping>, d: nat): nat
    requires d <= DEPTH
    decreases |pages|
  {
    if |pages| <= 1 then 0
    else
      var n := |pages| - 1;
      Changes(pages[..n], d) + if pages[n - 1].0[..d] == pages[n].0[..d] then 0 else 1
  }

  /// A list takes at most one pointer table and one directory, and one more of either where
  /// the path leaves the last one.
  lemma {:induction false} ListTakes(s: State, root: nat, pages: seq<Mapping>)
    requires Rooted(s, root) && pages != []
    ensures var t := MapList(s, root, pages);
      && t.pool - s.pool <= 2 + Changes(pages, 1) + Changes(pages, 2)
      && Walkable(t, root, pages[|pages| - 1].0)
    decreases |pages|
  {
    var n := |pages| - 1;
    var q, e := pages[n].0, pages[n].1;
    if n == 0 {
      assert pages[..n] == [];
      MapTakes(s, root, q, e, q[..1]);
      MapTakes(s, root, q, e, q[..2]);
      assert q[..|q[..1]|] == q[..1] && q[..|q[..2]|] == q[..2];
    } else {
      ListTakes(s, root, pages[..n]);
      NextTakes(MapList(s, root, pages[..n]), root, pages[n - 1].0, q, e);
    }
  }

  /// Consecutive pages change directory once per gigabyte and pointer table once per 512 GiB.
  lemma {:induction false} ConsecutiveChanges(pages: seq<Mapping>, v: nat)
    requires pages != [] && v + |pages| <= 0x800_0000
    requires forall i :: 0 <= i < |pages| ==> pages[i].0 == Digits(v + i)
    ensures Changes(pages, 1) == (v + |pages| - 1) / 262144 - v / 262144
    ensures Changes(pages, 2) == (v + |pages| - 1) / 512 - v / 512
    decreases |pages|
  {
    if |pages| > 1 {
      ConsecutiveChanges(pages[..|pages| - 1], v);
      NextPrefix(v + |pages| - 2);
    }
  }

  lemma NextPrefix(v: nat)
    requires v + 1 < 0x800_0000
    ensures var p, q := Digits(v), Digits(v + 1);
      && (if p[..1] == q[..1] then 0 else 1) == (v + 1) / 262144 - v / 262144
      && (if p[..2] == q[..2] then 0 else 1) == (v + 1) / 512 - v / 512
  {
    Prefixes(v, v + 1);
    NextQuotient(v, 512);
    NextQuotient(v, 262144);
  }

  lemma NextQuotient(w: nat, d: nat)
    requires d == 512 || d == 262144
    ensures (w + 1) / d == w / d || (w + 1) / d == w / d + 1
  {
  }

  /// Mapping n consecutive pages takes at most n/512 + n/262144 + 4 tables.
  lemma ListBound(s: State, root: nat, pages: seq<Mapping>, v: nat)
    requires Rooted(s, root) && v + |pages| <= 0x800_0000
    requires forall i :: 0 <= i < |pages| ==> pages[i].0 == Digits(v + i)
    ensures MapList(s, root, pages).pool <= s.pool + |pages| / 512 + |pages| / 262144 + 4
  {
    if pages != [] {
      ListTakes(s, root, pages);
      ConsecutiveChanges(pages, v);
      Spread512(v, |pages|);
      Spread262144(v, |pages|);
    }
  }

  lemma Spread512(v: nat, n: nat)
    requires 0 < n
    ensures (v + n - 1) / 512 - v / 512 + 1 <= n / 512 + 2
  {
  }

  lemma Spread262144(v: nat, n: nat)
    requires 0 < n
    ensures (v + n - 1) / 262144 - v / 262144 + 1 <= n / 262144 + 2
  {
  }

  // ---- the kernel's window on physical memory ----

  const PHYSBASE: nat := 0xFFFF_8000_0000_0000
  const ADDRESSES: nat := 0x1_0000_0000_0000_0000

  /// kernel_to_phys: subtracting PHYSBASE modulo 2^64, which is adding 2^47.
  function KernelToPhys(addr: nat): (r: nat)
    ensures addr >= PHYSBASE && addr < ADDRESSES ==> r == addr - PHYSBASE
  {
    (addr + 0x8000_0000_0000) % 0x1_0000_0000_0000_0000
  }

  /// Pages base, base + 2 MiB, ... with the entries for their physical addresses.
  function KernelPages(base: nat, n: nat): (pages: seq<Mapping>)
    ensures |pages| == n
  {
    seq(n, i requires 0 <= i < n =>
      (PathOf(base + i * 0x20_0000), LeafEntry(KernelToPhys(base + i * 0x20_0000), LEAF_FLAGS)))
  }

  /// A run of whole pages inside the kernel half of the address space.
  predicate KernelRange(base: nat, n: nat) {
    PHYSBASE <= base && base % 0x20_0000 == 0 && base + n * 0x20_0000 <= ADDRESSES
  }

  lemma LeafFlags(frame: nat)
    requires frame % 4096 == 0
    ensures LeafEntry(frame, LEAF_FLAGS) == Entry(frame / 4096, LEAF_FLAGS)
  {
    NoLowBits(frame);
  }

  lemma NoLowBits(frame: nat)
    requires frame % 4096 == 0
    ensures LowBits(frame) == {}
  {
    forall i: nat ensures !BitOf(0, i) {
      ZeroBit(i);
    }
  }

  /// The kernel half starts at page number 2^26, and there the numbering does not wrap.
  lemma KernelVpn(base: nat, n: nat, i: nat, x: nat)
    requires KernelRange(base, n) && i < n
    requires base + i * 0x20_0000 <= x < base + (i + 1) * 0x20_0000
    ensures Vpn(x) == Vpn(base) + i
    ensures x / 0x20_0000 == base / 0x20_0000 + i && x % 0x20_0000 == x - (base + i * 0x20_0000)
  {
    var d := base / 0x20_0000 - 0x7_FFFC_00_0000;
    assert base == 0x20_0000 * (0x7_FFFC_00_0000 + d);
    PageSplit(0x7_FFFC_00_0000 + d + i, x - 0x20_0000 * (0x7_FFFC_00_0000 + d + i));
    Wrap(d);
    Wrap(d + i);
  }

  lemma Wrap(d: nat)
    requires d < 0x400_0000
    ensures (0x7_FFFC_00_0000 + d) % 0x800_0000 == 0x400_0000 + d
  {
    assert 0x7_FFFC_00_0000 + d == 0x800_0000 * 0xFFFF + (0x400_0000 + d);
  }

  lemma PageSplit(b: nat, off: nat)
    requires off < 0x20_0000
    ensures (0x20_0000 * b + off) / 0x20_0000 == b && (0x20_0000 * b + off) % 0x20_0000 == off
  {
  }

  lemma KernelPath(base: nat, n: nat, i: nat)
    requires KernelRange(base, n) && i < n
    ensures Vpn(base) + i < 0x800_0000 && KernelPages(base, n)[i].0 == Digits(Vpn(base) + i)
  {
    KernelVpn(base, n, i, base + i * 0x20_0000);
    PathIsVpn(base + i * 0x20_0000);
  }

  lemma KernelFrame(b: nat)
    requires PHYSBASE <= 0x20_0000 * b < ADDRESSES
    ensures var frame := KernelToPhys(0x20_0000 * b);
      frame == 0x20_0000 * b - PHYSBASE && frame % 4096 == 0 && frame / 4096 * 4096 == frame
  {
    var f := b - 0x7_FFFC_00_0000;
    assert 0x20_0000 * b - PHYSBASE == 4096 * (512 * f);
  }

  lemma KernelLeaf(base: nat, n: nat, k: nat, x: nat)
    requires KernelRange(base, n) && k < n
    requires base + k * 0x20_0000 <= x < base + (k + 1) * 0x20_0000
    ensures MapsTo(KernelPages(base, n)[k].1, x % 0x20_0000, x - PHYSBASE)
  {
    KernelVpn(base, n, k, x);
    var b := base / 0x20_0000 + k;
    assert base + k * 0x20_0000 == 0x20_0000 * b;
    KernelFrame(b);
    LeafFlags(KernelToPhys(0x20_0000 * b));
  }

  /// Exactly one mapping of the range is for the page of x, and it takes x to its
  /// physical address.
  lemma KernelMapping(base: nat, n: nat, x: nat) returns (k: nat)
    requires KernelRange(base, n) && base <= x < base + n * 0x20_0000
    ensures k < n && MapsTo(KernelPages(base, n)[k].1, x % 0x20_0000, x - PHYSBASE)
    ensures forall i :: 0 <= i < n ==> (KernelPages(base, n)[i].0 == PathOf(x) <==> i == k)
  {
    k := (x - base) / 0x20_0000;
    KernelLeaf(base, n, k, x);
    KernelVpn(base, n, k, x);
    PathIsVpn(x);
    forall i | 0 <= i < n ensures KernelPages(base, n)[i].0 == PathOf(x) <==> i == k {
      KernelPath(base, n, i);
      DigitsValue(Vpn(base) + i);
      DigitsValue(Vpn(x));
    }
  }

  /// After the boot loop every address of the range translates to its physical address.
  lemma KernelRangeTranslates(s: State, root: nat, base: nat, n: nat, x: nat)
    requires Rooted(s, root)
    requires KernelRange(base, n)
    requires base <= x < base + n * 0x20_0000
    ensures Translate(MapList(s, root, KernelPages(base, n)), root, PathOf(x), x % 0x20_0000) == Some(KernelToPhys(x))
  {
    var k := KernelMapping(base, n, x);
    ListTranslates(s, root, KernelPages(base, n), k, PathOf(x), x % 0x20_0000, KernelToPhys(x));
  }

  lemma KernelRangeBound(s: State, root: nat, base: nat, n: nat)
    requires Rooted(s, root) && KernelRange(base, n)
    ensures MapList(s, root, KernelPages(base, n)).pool <= s.pool + n / 512 + n / 262144 + 4
  {
    if n > 0 {
      KernelPath(base, n, n - 1);
      forall i | 0 <= i < n ensures Vpn(base) + i < 0x800_0000 && KernelPages(base, n)[i].0 == Digits(Vpn(base) + i) {
        KernelPath(base, n, i);
      }
      ListBound(s, root, KernelPages(base, n), Vpn(base));
    }
  }

  /// With 4 GiB of memory of which the first 8 MiB are reserved, the boot loop takes at
  /// most 7 of the 512 tables between the pool's start and the next reserved region.
  lemma BootPoolSuffices(s: State, root: nat)
    requires Rooted(s, root)
    ensures var pages := KernelPages(PHYSBASE + 0x80_0000, (0x1_0000_0000 - 0x80_0000) / 0x20_0000);
      MapList(s, root, pages).pool <= s.pool + 7
  {
    KernelRangeBound(s, root, PHYSBASE + 0x80_0000, 2044);
  }
}
