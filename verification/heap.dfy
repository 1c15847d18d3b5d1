/// The size-class heap (kern/lib/mem/heap.c, kern/lib/include/shared/heapstruct.h).
///
/// `Heaps` describes kmalloc and kfree on free lists that are sequences, and proves what every
/// run keeps. That the linked lists of the code are those sequences is in heapwords.dfy.

module Heaps {
  import opened Queues
  import opened Words

  const CLASSES := 16
  /// sizeof (struct heap_arena), and sizeof (struct heap_block): two links.
  const HEADER: nat := 24
  const LINKS: nat := 16
  /// HEAPBLOCKSZ, one page.
  const PAGE: nat := 0x20_0000

  // ---- address arithmetic ----

  /// `8 << c`
  function BlockSize(c: nat): nat {
    8 * Pow2(c)
  }

  function ArenaSize(c: nat): nat {
    QuotientIsNat(0x20_0000 - 24, BlockSize(c));
    (0x20_0000 - 24) / BlockSize(c)
  }

  lemma QuotientIsNat(n: nat, d: nat)
    requires d > 0
    ensures n / d >= 0
  {
  }

  /// block_get_arena
  function ArenaOf(b: nat): nat {
    b / 0x20_0000 * 0x20_0000
  }

  /// arena_get_block
  function BlockAt(a: nat, c: nat, i: nat): nat {
    a + 24 + i * BlockSize(c)
  }

  lemma ClassBounds(c: nat)
    requires c < CLASSES
    ensures 8 <= BlockSize(c) <= 262144 && ArenaSize(c) >= 7
    ensures c > 0 ==> LINKS <= BlockSize(c)
  {
    assert Pow2(15) == 32768 by { assert Pow2(5) == 32; Pow2Sum(5, 5); Pow2Sum(5, 10); }
    Pow2Mono(0, c);
    Pow2Mono(c, 15);
    if c > 0 { Pow2Mono(1, c); }
    DivideBound(0x20_0000 - 24, BlockSize(c), 7);
  }

  lemma DivideBound(n: nat, d: nat, k: nat)
    requires 0 < d && k * d <= n
    ensures n / d >= k
  {
    if n / d < k {
      assert n < (n / d + 1) * d;
      MulMono(n / d + 1, k, d);
      assert false;
    }
  }

  lemma MulMono(a: nat, b: nat, d: nat)
    requires a <= b
    ensures a * d <= b * d
  {
  }

  /// Block i lies inside its page, behind the header and behind the blocks before it.
  lemma BlockInPage(a: nat, c: nat, i: nat)
    requires c < CLASSES && i < ArenaSize(c)
    ensures a + 24 <= BlockAt(a, c, i) && BlockAt(a, c, i) + BlockSize(c) <= a + 0x20_0000
  {
    ClassBounds(c);
    MulMono(i + 1, ArenaSize(c), BlockSize(c));
  }

  /// block_get_arena undoes arena_get_block.
  lemma ArenaOfBlock(a: nat, c: nat, i: nat)
    requires c < CLASSES && i < ArenaSize(c) && a % 0x20_0000 == 0
    ensures ArenaOf(BlockAt(a, c, i)) == a
  {
    ClassBounds(c);
    BlockInPage(a, c, i);
    WithinPage(a / 0x20_0000, BlockAt(a, c, i) - a);
  }

  lemma WithinPage(k: nat, off: nat)
    requires off < 0x20_0000
    ensures (k * 0x20_0000 + off) / 0x20_0000 == k
  {
  }

  /// Two blocks of one arena do not overlap.
  lemma BlocksApart(a: nat, c: nat, i: nat, j: nat)
    requires c < CLASSES && i < j
    ensures BlockAt(a, c, i) + BlockSize(c) <= BlockAt(a, c, j)
  {
    MulMono(i + 1, j, BlockSize(c));
  }

  ghost function Blocks(a: nat, c: nat): set<nat> {
    set i: nat | i < ArenaSize(c) :: BlockAt(a, c, i)
  }

  lemma BlocksAre(a: nat, c: nat, b: nat)
    requires c < CLASSES && a % 0x20_0000 == 0 && b in Blocks(a, c)
    ensures ArenaOf(b) == a && a + 24 <= b && b + BlockSize(c) <= a + 0x20_0000
  {
    var i: nat :| i < ArenaSize(c) && b == BlockAt(a, c, i);
    ArenaOfBlock(a, c, i);
    BlockInPage(a, c, i);
  }

  lemma TwoBlocksApart(a: nat, c: nat, b: nat, b': nat)
    requires c < CLASSES && b in Blocks(a, c) && b' in Blocks(a, c) && b != b'
    ensures b + BlockSize(c) <= b' || b' + BlockSize(c) <= b
  {
    var i: nat :| i < ArenaSize(c) && b == BlockAt(a, c, i);
    var j: nat :| j < ArenaSize(c) && b' == BlockAt(a, c, j);
    if i < j { BlocksApart(a, c, i, j); } else { BlocksApart(a, c, j, i); }
  }

  /// The blocks of an arena from number i on, as kmalloc pushes them.
  function Carved(a: nat, c: nat, i: nat): seq<nat>
    requires i <= ArenaSize(c)
    decreases ArenaSize(c) - i
  {
    if i == ArenaSize(c) then [] else [BlockAt(a, c, i)] + Carved(a, c, i + 1)
  }

  lemma {:induction false} CarvedMember(a: nat, c: nat, i: nat, b: nat)
    requires c < CLASSES && i <= ArenaSize(c)
    ensures b in Carved(a, c, i) <==> exists j: nat :: i <= j < ArenaSize(c) && b == BlockAt(a, c, j)
    decreases ArenaSize(c) - i
  {
    if i < ArenaSize(c) {
      CarvedMember(a, c, i + 1, b);
    }
  }

  lemma NotCarvedYet(a: nat, c: nat, i: nat)
    requires c < CLASSES && i < ArenaSize(c)
    ensures BlockAt(a, c, i) !in Carved(a, c, i + 1)
  {
    CarvedMember(a, c, i + 1, BlockAt(a, c, i));
    ClassBounds(c);
    forall j: nat | i < j < ArenaSize(c)
      ensures BlockAt(a, c, j) != BlockAt(a, c, i)
    {
      BlocksApart(a, c, i, j);
    }
  }

  lemma {:induction false} CarvedIsAll(a: nat, c: nat, i: nat)
    requires c < CLASSES && i <= ArenaSize(c)
    ensures |Carved(a, c, i)| == ArenaSize(c) - i && NoDup(Carved(a, c, i))
    decreases ArenaSize(c) - i
  {
    if i < ArenaSize(c) {
      CarvedIsAll(a, c, i + 1);
      NotCarvedYet(a, c, i);
    }
  }

  lemma BlockCount(a: nat, c: nat)
    requires c < CLASSES
    ensures |Blocks(a, c)| == ArenaSize(c) && Elements(Carved(a, c, 0)) == Blocks(a, c)
  {
    CarvedIsAll(a, c, 0);
    NoDupCount(Carved(a, c, 0));
    forall b: nat ensures b in Elements(Carved(a, c, 0)) <==> b in Blocks(a, c) {
      CarvedMember(a, c, 0, b);
    }
    assert Elements(Carved(a, c, 0)) == Blocks(a, c);
  }

  // ---- the heap ----

  datatype Arena = Arena(kind: nat, freeCount: nat)

  /// Free lists by class, the arenas by address, the pages the page pool still has, and the
  /// outstanding blocks with the size that was asked for.
  datatype Heap = Heap(free: seq<seq<nat>>, arenas: map<nat, Arena>, pool: set<nat>, live: map<nat, nat>)

  /// The first class whose blocks are large enough, or CLASSES.
  function FirstClass(size: nat, c: nat): nat
    requires c <= CLASSES
    decreases CLASSES - c
  {
    if c == CLASSES || BlockSize(c) >= size then c else FirstClass(size, c + 1)
  }

  /// What kmalloc does: for size 0 it returns a null pointer, above the largest class it
  /// returns an uninitialised one, and with no page left it writes an arena header to the
  /// null page.
  datatype Outcome = Null | Undefined | NoPage | Block(addr: nat)

  /// A new arena on the given page, its blocks in order on the empty free list.
  function Carve(h: Heap, c: nat, page: nat): Heap
    requires c < |h.free|
  {
    h.(free := h.free[c := Carved(page, c, 0)],
       arenas := h.arenas[page := Arena(c, ArenaSize(c))],
       pool := h.pool - {page})
  }

  /// The first free block of the class is handed out.
  function HandOut(h: Heap, c: nat, size: nat): Heap
    requires c < |h.free| && h.free[c] != [] && ArenaOf(h.free[c][0]) in h.arenas
    requires h.arenas[ArenaOf(h.free[c][0])].freeCount > 0
  {
    var b := h.free[c][0];
    var a := ArenaOf(b);
    h.(free := h.free[c := h.free[c][1..]],
       arenas := h.arenas[a := h.arenas[a].(freeCount := h.arenas[a].freeCount - 1)],
       live := h.live[b := size])
  }

  /// The free list after each block of the arena from number i on has been unlinked.
  function Unlink(q: seq<nat>, a: nat, c: nat, i: nat): seq<nat>
    requires i <= ArenaSize(c)
    decreases ArenaSize(c) - i
  {
    if i == ArenaSize(c) then q else Unlink(Without<nat>(q, BlockAt(a, c, i)), a, c, i + 1)
  }

  /// A block goes back to the end of its class list.
  function PutBack(h: Heap, b: nat): Heap
    requires ArenaOf(b) in h.arenas && h.arenas[ArenaOf(b)].kind < |h.free|
  {
    var a := ArenaOf(b);
    var c := h.arenas[a].kind;
    Heap(h.free[c := h.free[c] + [b]], h.arenas[a := Arena(c, h.arenas[a].freeCount + 1)], h.pool, h.live - {b})
  }

  /// An arena's blocks leave the class list and its page goes back to the pool.
  function Retire(h: Heap, a: nat): Heap
    requires a in h.arenas && h.arenas[a].kind < |h.free|
  {
    var c := h.arenas[a].kind;
    Heap(h.free[c := Unlink(h.free[c], a, c, 0)], h.arenas - {a}, h.pool + {a}, h.live)
  }

  function Kfree(h: Heap, b: nat): Heap
    requires ArenaOf(b) in h.arenas && h.arenas[ArenaOf(b)].kind < |h.free|
  {
    var a, g := ArenaOf(b), PutBack(h, b);
    if g.arenas[a].freeCount == ArenaSize(g.arenas[a].kind) then Retire(g, a) else g
  }

  // ---- what every run keeps ----

  /// b is a block of a live arena of class c.
  ghost predicate Belongs(h: Heap, c: nat, b: nat) {
    ArenaOf(b) in h.arenas && h.arenas[ArenaOf(b)].kind == c && b in Blocks(ArenaOf(b), c)
  }

  ghost predicate Account(h: Heap, a: nat)
    requires a in h.arenas
  {
    var c := h.arenas[a].kind;
    && 0 < c < CLASSES == |h.free| && a % 0x20_0000 == 0 && a > 0 && a !in h.pool
    && (forall b {:trigger b in h.live} {:trigger b in h.free[c]} ::
          b in Blocks(a, c) ==> b in h.free[c] || b in h.live)
    && h.arenas[a].freeCount == |Blocks(a, c) * Elements(h.free[c])|
  }

  /// Free blocks belong to arenas of their class, are listed once, and are not outstanding.
  ghost predicate Lists(h: Heap) {
    && |h.free| == CLASSES
    && (forall c {:trigger h.free[c]} :: 0 <= c < CLASSES ==> NoDup(h.free[c]))
    && (forall c, b {:trigger b in h.free[c]} ::
          0 <= c < CLASSES && b in h.free[c] ==> Belongs(h, c, b) && b !in h.live)
  }

  /// Outstanding blocks belong to arenas whose blocks are large enough for the request.
  ghost predicate Lives(h: Heap) {
    forall b {:trigger b in h.live} :: b in h.live ==>
      && ArenaOf(b) in h.arenas && Belongs(h, h.arenas[ArenaOf(b)].kind, b)
      && 0 < h.live[b] <= BlockSize(h.arenas[ArenaOf(b)].kind)
  }

  ghost predicate Accounts(h: Heap) {
    && (forall p :: p in h.pool ==> p % 0x20_0000 == 0 && p > 0)
    && (forall a {:trigger Account(h, a)} :: a in h.arenas ==> Account(h, a))
  }

  /// No arena is all free; `full` names one that may be, for the moment, and 0 none.
  ghost predicate InUse(h: Heap, full: nat) {
    forall a {:trigger h.arenas[a]} ::
      a in h.arenas && a != full ==> h.arenas[a].freeCount < ArenaSize(h.arenas[a].kind)
  }

  ghost predicate Good(h: Heap, full: nat) {
    Lists(h) && Lives(h) && Accounts(h) && InUse(h, full)
  }

  ghost predicate Inv(h: Heap) {
    Good(h, 0)
  }

  lemma EmptyIsGood(pool: set<nat>)
    requires forall p :: p in pool ==> p % 0x20_0000 == 0 && p > 0
    ensures Inv(Heap(seq(CLASSES, i => []), map[], pool, map[]))
  {
  }

  /// An arena none of whose blocks moves keeps its account.
  lemma AccountSame(h: Heap, u: Heap, a: nat)
    requires a in h.arenas && Account(h, a) && a in u.arenas && u.arenas[a] == h.arenas[a]
    requires |u.free| == CLASSES && a !in u.pool
    requires forall b :: b in Blocks(a, h.arenas[a].kind) ==>
      (b in u.free[h.arenas[a].kind] <==> b in h.free[h.arenas[a].kind]) && (b in h.live ==> b in u.live)
    ensures Account(u, a)
  {
    var c := h.arenas[a].kind;
    assert Blocks(a, c) * Elements(u.free[c]) == Blocks(a, c) * Elements(h.free[c]);
  }

  lemma FreshArena(page: nat, c: nat)
    requires c < CLASSES && page % 0x20_0000 == 0
    ensures var q := Carved(page, c, 0);
      && |q| == ArenaSize(c) >= 7 && NoDup(q)
      && Blocks(page, c) * Elements(q) == Blocks(page, c) && |Blocks(page, c)| == ArenaSize(c)
      && (forall b :: b in Blocks(page, c) <==> b in q)
      && (forall b :: b in q ==> ArenaOf(b) == page)
      && q != [] && ArenaOf(q[0]) == page
  {
    CarvedIsAll(page, c, 0);
    BlockCount(page, c);
    ClassBounds(c);
    var q := Carved(page, c, 0);
    forall b ensures b in Blocks(page, c) <==> b in q {
      assert b in Elements(q) <==> b in q;
    }
    forall b | b in q ensures ArenaOf(b) == page {
      BlocksAre(page, c, b);
    }
    assert q[0] in q;
  }

  lemma PageIsNew(h: Heap, page: nat)
    requires Accounts(h) && page in h.pool
    ensures page !in h.arenas && page > 0 && page % 0x20_0000 == 0
  {
    assert page in h.arenas ==> Account(h, page);
  }

  lemma CarveLists(h: Heap, c: nat, page: nat)
    requires Lists(h) && Lives(h) && c < CLASSES && h.free[c] == [] && page !in h.arenas && page % 0x20_0000 == 0
    ensures Lists(Carve(h, c, page)) && Lives(Carve(h, c, page))
  {
    var u := Carve(h, c, page);
    FreshArena(page, c);
    forall k, b | 0 <= k < CLASSES && b in u.free[k] ensures Belongs(u, k, b) && b !in u.live {
      if k == c { assert ArenaOf(b) == page; } else { assert b in h.free[k]; }
    }
  }

  lemma CarveAccounts(h: Heap, c: nat, page: nat)
    requires Lists(h) && Accounts(h) && 0 < c < CLASSES && h.free[c] == [] && page in h.pool
    ensures Accounts(Carve(h, c, page))
  {
    var u := Carve(h, c, page);
    PageIsNew(h, page);
    FreshArena(page, c);
    forall a | a in u.arenas ensures Account(u, a) {
      if a != page {
        assert Account(h, a);
        forall b | b in Blocks(a, h.arenas[a].kind) ensures ArenaOf(b) == a {
          BlocksAre(a, h.arenas[a].kind, b);
        }
        AccountSame(h, u, a);
      }
    }
  }

  lemma CarveKeeps(h: Heap, c: nat, page: nat)
    requires Inv(h) && 0 < c < CLASSES && h.free[c] == [] && page in h.pool
    ensures Good(Carve(h, c, page), page) && Carve(h, c, page).free[c] != []
    ensures ArenaOf(Carve(h, c, page).free[c][0]) == page
  {
    PageIsNew(h, page);
    CarveLists(h, c, page);
    CarveAccounts(h, c, page);
    FreshArena(page, c);
    var u := Carve(h, c, page);
    forall a | a in u.arenas && a != page ensures u.arenas[a].freeCount < ArenaSize(u.arenas[a].kind) {
      assert Account(h, a) && h.arenas[a] == u.arenas[a];
    }
  }

  // ---- kmalloc ----

  /// Taking one block off the class list.
  lemma HandOutAccount(h: Heap, c: nat, size: nat, a: nat)
    requires Lists(h) && Lives(h) && Accounts(h) && c < CLASSES && h.free[c] != []
    requires ArenaOf(h.free[c][0]) in h.arenas && h.arenas[ArenaOf(h.free[c][0])].freeCount > 0 && a in h.arenas
    ensures Account(HandOut(h, c, size), a)
  {
    var u, b := HandOut(h, c, size), h.free[c][0];
    assert b in h.free[c] && Account(h, a) && Belongs(h, c, b);
    var k := h.arenas[a].kind;
    TailElements(h.free[c]);
    forall x | x in Blocks(a, k) ensures ArenaOf(x) == a {
      BlocksAre(a, k, x);
    }
    if a == ArenaOf(b) {
      var before, after := Blocks(a, c) * Elements(h.free[c]), Blocks(a, c) * Elements(u.free[c]);
      assert after == before - {b} && b in before;
      forall x | x in Blocks(a, c) ensures x in u.free[c] || x in u.live {
        assert x in h.free[c] || x in h.live;
        assert x in Elements(h.free[c]) <==> x in h.free[c];
        assert x in Elements(u.free[c]) <==> x in u.free[c];
      }
    } else {
      forall x | x in Blocks(a, k) ensures x in u.free[k] <==> x in h.free[k] {
        assert x in Elements(h.free[c]) <==> x in h.free[c];
        assert x in Elements(u.free[c]) <==> x in u.free[c];
      }
      AccountSame(h, u, a);
    }
  }

  lemma TailElements(q: seq<nat>)
    requires NoDup(q) && q != []
    ensures NoDup(q[1..]) && Elements(q[1..]) == Elements(q) - {q[0]} && q[0] !in q[1..]
  {
    assert q == [q[0]] + q[1..];
  }

  lemma HandOutLists(h: Heap, c: nat, size: nat)
    requires Lists(h) && Lives(h) && Accounts(h) && c < CLASSES && h.free[c] != [] && 0 < size <= BlockSize(c)
    requires ArenaOf(h.free[c][0]) in h.arenas && h.arenas[ArenaOf(h.free[c][0])].freeCount > 0
    ensures Lists(HandOut(h, c, size))
  {
    var u, b := HandOut(h, c, size), h.free[c][0];
    assert b in h.free[c] && Belongs(h, c, b);
    TailElements(h.free[c]);
    forall k, x | 0 <= k < CLASSES && x in u.free[k] ensures Belongs(u, k, x) && x !in u.live {
      assert x in Elements(u.free[c]) <==> x in u.free[c];
      assert x in h.free[k] by { if k == c { assert x in Elements(h.free[c]); } }
      assert Belongs(h, k, x);
    }
  }

  lemma HandOutLives(h: Heap, c: nat, size: nat)
    requires Lists(h) && Lives(h) && c < CLASSES && h.free[c] != [] && 0 < size <= BlockSize(c)
    requires ArenaOf(h.free[c][0]) in h.arenas && h.arenas[ArenaOf(h.free[c][0])].freeCount > 0
    ensures Lives(HandOut(h, c, size))
  {
    var u, b := HandOut(h, c, size), h.free[c][0];
    assert b in h.free[c] && Belongs(h, c, b);
    forall x | x in u.live
      ensures ArenaOf(x) in u.arenas && Belongs(u, u.arenas[ArenaOf(x)].kind, x)
      ensures 0 < u.live[x] <= BlockSize(u.arenas[ArenaOf(x)].kind)
    {
      if x != b { assert x in h.live; }
    }
  }

  /// A free block's arena counts it.
  lemma ListedIsCounted(h: Heap, c: nat)
    requires Lists(h) && Accounts(h) && c < CLASSES && h.free[c] != []
    ensures ArenaOf(h.free[c][0]) in h.arenas && h.arenas[ArenaOf(h.free[c][0])].freeCount > 0
    ensures h.arenas[ArenaOf(h.free[c][0])].kind == c
  {
    var b := h.free[c][0];
    assert b in h.free[c] && Belongs(h, c, b);
    assert Account(h, ArenaOf(b));
    assert b in Blocks(ArenaOf(b), c) * Elements(h.free[c]);
  }

  lemma HandOutKeeps(h: Heap, c: nat, size: nat, full: nat)
    requires Good(h, full) && c < CLASSES && h.free[c] != [] && 0 < size <= BlockSize(c)
    requires full == 0 || ArenaOf(h.free[c][0]) == full
    ensures ArenaOf(h.free[c][0]) in h.arenas && h.arenas[ArenaOf(h.free[c][0])].freeCount > 0
    ensures Inv(HandOut(h, c, size))
  {
    ListedIsCounted(h, c);
    var u, b := HandOut(h, c, size), h.free[c][0];
    HandOutLists(h, c, size);
    HandOutLives(h, c, size);
    forall a | a in u.arenas ensures Account(u, a) {
      HandOutAccount(h, c, size, a);
    }
    forall a | a in u.arenas && a != 0 ensures u.arenas[a].freeCount < ArenaSize(u.arenas[a].kind) {
      assert Account(h, a);
      if a == ArenaOf(b) {
        BlockCount(a, c);
        SubsetCount(Blocks(a, c) * Elements(h.free[c]), Blocks(a, c));
      }
    }
  }

  lemma SubsetCount(a: set<nat>, b: set<nat>)
    requires a <= b
    ensures |a| <= |b|
    ensures |a| == |b| ==> a == b
  {
    assert b == a + (b - a);
  }

  /// A request for the 8-byte class, whose blocks are too short for the links of a free
  /// block. What the code does with those is in `HeapWords`; nothing here is about them.
  predicate Tiny(size: nat) {
    0 < size <= 8
  }

  lemma SmallestClass(size: nat)
    ensures FirstClass(size, 0) == 0 <==> size <= 8
  {
    assert BlockSize(0) == 8;
    if size > 8 {
      FirstClassFits(size, 1);
    }
  }

  /// `page` is the page that the page pool would give out.
  function Kmalloc(h: Heap, size: nat, page: nat): (Heap, Outcome)
    requires Inv(h) && (h.pool != {} ==> page in h.pool) && !Tiny(size)
  {
    var c := FirstClass(size, 0);
    FirstClassFits(size, 0);
    SmallestClass(size);
    if size == 0 then (h, Null)
    else if c == CLASSES then (h, Undefined)
    else if h.free[c] != [] then
      HandOutKeeps(h, c, size, 0);
      (HandOut(h, c, size), Block(h.free[c][0]))
    else if h.pool == {} then (h, NoPage)
    else
      CarveKeeps(h, c, page);
      var g := Carve(h, c, page);
      HandOutKeeps(g, c, size, page);
      (HandOut(g, c, size), Block(g.free[c][0]))
  }

  /// The class chosen is the smallest that is large enough; there is none exactly for
  /// requests above 256 KiB.
  lemma {:induction false} FirstClassFits(size: nat, c: nat)
    requires c <= CLASSES && (c > 0 ==> BlockSize(c - 1) < size)
    ensures var k := FirstClass(size, c);
      && c <= k <= CLASSES
      && (k < CLASSES ==> size <= BlockSize(k))
      && (k > 0 ==> BlockSize(k - 1) < size)
      && (k == CLASSES <==> size > 262144)
    decreases CLASSES - c
  {
    if c == CLASSES {
      assert BlockSize(15) == 262144 by { LargestClass(); }
    } else if BlockSize(c) < size {
      FirstClassFits(size, c + 1);
    } else {
      ClassBounds(c);
    }
  }

  lemma LargestClass()
    ensures BlockSize(15) == 262144
  {
    assert Pow2(5) == 32;
    Pow2Sum(5, 5);
    Pow2Sum(5, 10);
  }

  // ---- kfree ----

  lemma {:induction false} UnlinkElements(q: seq<nat>, a: nat, c: nat, i: nat)
    requires NoDup(q) && i <= ArenaSize(c)
    ensures NoDup(Unlink(q, a, c, i))
    ensures forall b :: b in Unlink(q, a, c, i) <==>
      b in q && forall j: nat :: i <= j < ArenaSize(c) ==> b != BlockAt(a, c, j)
    decreases ArenaSize(c) - i
  {
    if i < ArenaSize(c) {
      var r := Without<nat>(q, BlockAt(a, c, i));
      WithoutElements<nat>(q, BlockAt(a, c, i));
      UnlinkElements(r, a, c, i + 1);
      forall b ensures b in r <==> b in q && b != BlockAt(a, c, i) {
        assert b in r <==> b in Elements(r);
        assert b in q <==> b in Elements(q);
      }
    }
  }

  /// Unlinking every block of an arena leaves the others.
  lemma UnlinkAll(q: seq<nat>, a: nat, c: nat)
    requires NoDup(q) && c < CLASSES
    ensures NoDup(Unlink(q, a, c, 0))
    ensures forall b :: b in Unlink(q, a, c, 0) <==> b in q && b !in Blocks(a, c)
  {
    UnlinkElements(q, a, c, 0);
  }

  lemma AppendElements(q: seq<nat>, b: nat)
    requires NoDup(q) && b !in q
    ensures NoDup(q + [b]) && Elements(q + [b]) == Elements(q) + {b}
    ensures forall x :: x in q + [b] <==> x in q || x == b
  {
    assert forall i :: 0 <= i < |q| ==> q[i] in q;
  }

  /// What the caller of kfree hands back: an outstanding block.
  lemma LiveBlock(h: Heap, b: nat)
    requires Inv(h) && b in h.live
    ensures var a := ArenaOf(b);
      && a in h.arenas && Account(h, a) && h.arenas[a].kind < CLASSES
      && b in Blocks(a, h.arenas[a].kind) && b !in h.free[h.arenas[a].kind]
      && h.arenas[a].freeCount < ArenaSize(h.arenas[a].kind)
  {
    var a := ArenaOf(b);
    assert Account(h, a);
    assert Belongs(h, h.arenas[a].kind, b);
  }

  /// The free blocks of the arena of an outstanding block are among the others.
  lemma OthersListed(h: Heap, b: nat) returns (others: set<nat>, listed: set<nat>)
    requires Inv(h) && b in h.live
    ensures var a := ArenaOf(b);
      && a in h.arenas && h.arenas[a].kind < CLASSES == |h.free|
      && others == Blocks(a, h.arenas[a].kind) - {b}
      && listed == Blocks(a, h.arenas[a].kind) * Elements(h.free[h.arenas[a].kind])
      && listed <= others && |others| == ArenaSize(h.arenas[a].kind) - 1 && |listed| == h.arenas[a].freeCount
  {
    LiveBlock(h, b);
    var a := ArenaOf(b);
    var c := h.arenas[a].kind;
    BlockCount(a, c);
    others, listed := Blocks(a, c) - {b}, Blocks(a, c) * Elements(h.free[c]);
  }

  /// A block of the arena is outstanding exactly when it is not on the free list.
  lemma ListedOrLive(h: Heap, a: nat, x: nat)
    requires Inv(h) && a in h.arenas
    ensures h.arenas[a].kind < CLASSES == |h.free|
    ensures x in h.live && ArenaOf(x) == a <==> x in Blocks(a, h.arenas[a].kind) && x !in h.free[h.arenas[a].kind]
  {
    assert Account(h, a);
    var c := h.arenas[a].kind;
    if x in Blocks(a, c) {
      BlocksAre(a, c, x);
      assert x in h.free[c] || x in h.live;
    }
    assert x in h.live && ArenaOf(x) == a ==> Belongs(h, c, x);
  }

  /// The arena becomes all free exactly when no other block of it is outstanding.
  lemma LastBlock(h: Heap, b: nat)
    requires Inv(h) && b in h.live
    ensures var a := ArenaOf(b);
      && a in h.arenas
      && (h.arenas[a].freeCount + 1 == ArenaSize(h.arenas[a].kind)
          <==> forall x :: x in h.live && x != b ==> ArenaOf(x) != a)
  {
    var others, listed := OthersListed(h, b);
    var a := ArenaOf(b);
    SubsetCount(listed, others);
    if h.arenas[a].freeCount + 1 == ArenaSize(h.arenas[a].kind) {
      assert listed == others;
      forall x | x in h.live && x != b ensures ArenaOf(x) != a {
        ListedOrLive(h, a, x);
        assert x in listed <==> x in others;
      }
    } else {
      assert listed != others;
      var x :| x in others && x !in listed;
      ListedOrLive(h, a, x);
      assert x in h.live && x != b && ArenaOf(x) == a;
    }
  }

  // ---- kfree keeps the invariant ----

  lemma PutBackLists(h: Heap, b: nat)
    requires Inv(h) && b in h.live
    ensures ArenaOf(b) in h.arenas && h.arenas[ArenaOf(b)].kind < |h.free|
    ensures Lists(PutBack(h, b))
  {
    LiveBlock(h, b);
    var c := h.arenas[ArenaOf(b)].kind;
    var u := PutBack(h, b);
    AppendElements(h.free[c], b);
    forall k, x | 0 <= k < CLASSES && x in u.free[k] ensures Belongs(u, k, x) && x !in u.live {
      assert x == b || x in h.free[k];
      assert x != b ==> Belongs(h, k, x);
    }
  }

  lemma PutBackLives(h: Heap, b: nat)
    requires Lives(h) && ArenaOf(b) in h.arenas && h.arenas[ArenaOf(b)].kind < |h.free|
    ensures Lives(PutBack(h, b))
  {
    var u := PutBack(h, b);
    forall x | x in u.live
      ensures ArenaOf(x) in u.arenas && Belongs(u, u.arenas[ArenaOf(x)].kind, x)
      ensures 0 < u.live[x] <= BlockSize(u.arenas[ArenaOf(x)].kind)
    {
      assert x in h.live;
    }
  }

  lemma PutBackOwnAccount(h: Heap, b: nat)
    requires Inv(h) && b in h.live
    ensures ArenaOf(b) in h.arenas && h.arenas[ArenaOf(b)].kind < |h.free|
    ensures Account(PutBack(h, b), ArenaOf(b))
  {
    LiveBlock(h, b);
    var a := ArenaOf(b);
    var c := h.arenas[a].kind;
    var u := PutBack(h, b);
    AppendElements(h.free[c], b);
    assert Blocks(a, c) * Elements(u.free[c]) == Blocks(a, c) * Elements(h.free[c]) + {b};
  }

  lemma PutBackAccount(h: Heap, b: nat, x: nat)
    requires Inv(h) && b in h.live && ArenaOf(b) in h.arenas && h.arenas[ArenaOf(b)].kind < |h.free|
    requires x in h.arenas
    ensures Account(PutBack(h, b), x)
  {
    if x == ArenaOf(b) {
      PutBackOwnAccount(h, b);
      return;
    }
    var k := h.arenas[x].kind;
    var u := PutBack(h, b);
    assert Account(h, x);
    forall y | y in Blocks(x, k) ensures (y in u.free[k] <==> y in h.free[k]) && (y in h.live ==> y in u.live) {
      BlocksAre(x, k, y);
    }
    AccountSame(h, u, x);
  }

  lemma PutBackKeeps(h: Heap, b: nat)
    requires Inv(h) && b in h.live
    ensures ArenaOf(b) in h.arenas && h.arenas[ArenaOf(b)].kind < |h.free|
    ensures Good(PutBack(h, b), ArenaOf(b)) && ArenaOf(b) > 0
  {
    LiveBlock(h, b);
    PutBackLists(h, b);
    PutBackLives(h, b);
    var u := PutBack(h, b);
    forall x | x in u.arenas ensures Account(u, x) {
      PutBackAccount(h, b, x);
    }
    forall x | x in u.arenas && x != ArenaOf(b) ensures u.arenas[x].freeCount < ArenaSize(u.arenas[x].kind) {
      assert Account(h, x) && h.arenas[x] == u.arenas[x];
    }
  }

  /// An arena whose count has reached its size has every block on the free list, and none
  /// outstanding.
  lemma AllFree(h: Heap, a: nat)
    requires Good(h, a) && a in h.arenas && h.arenas[a].freeCount == ArenaSize(h.arenas[a].kind)
    ensures h.arenas[a].kind < CLASSES
    ensures forall x :: x in h.live ==> ArenaOf(x) != a
  {
    assert Account(h, a);
    var c := h.arenas[a].kind;
    BlockCount(a, c);
    SubsetCount(Blocks(a, c) * Elements(h.free[c]), Blocks(a, c));
    forall x | x in Blocks(a, c) ensures x in h.free[c] {
      assert x in Blocks(a, c) * Elements(h.free[c]);
    }
    forall x | x in h.live ensures ArenaOf(x) != a {
      assert Belongs(h, h.arenas[ArenaOf(x)].kind, x);
    }
  }

  lemma RetireKeeps(h: Heap, a: nat)
    requires Good(h, a) && a in h.arenas && h.arenas[a].freeCount == ArenaSize(h.arenas[a].kind)
    ensures h.arenas[a].kind < |h.free| && Inv(Retire(h, a))
  {
    AllFree(h, a);
    assert Account(h, a);
    var c := h.arenas[a].kind;
    var u := Retire(h, a);
    UnlinkAll(h.free[c], a, c);
    forall k, x | 0 <= k < CLASSES && x in u.free[k] ensures Belongs(u, k, x) && x !in u.live {
      assert x in h.free[k] && Belongs(h, k, x);
    }
    forall x | x in u.arenas ensures Account(u, x) {
      assert Account(h, x);
      RetireAccount(h, a, x);
    }
  }

  lemma RetireAccount(h: Heap, a: nat, x: nat)
    requires Lists(h) && a in h.arenas && Account(h, a) && x in h.arenas && Account(h, x) && x != a
    ensures Account(Retire(h, a), x)
  {
    var c, k := h.arenas[a].kind, h.arenas[x].kind;
    UnlinkAll(h.free[c], a, c);
    forall y | y in Blocks(x, k) ensures y in Retire(h, a).free[k] <==> y in h.free[k] {
      BlocksAre(x, k, y);
      if y in Blocks(a, c) { BlocksAre(a, c, y); assert false; }
    }
    AccountSame(h, Retire(h, a), x);
  }

  lemma KfreeKeeps(h: Heap, b: nat)
    requires Inv(h) && b in h.live
    ensures ArenaOf(b) in h.arenas && h.arenas[ArenaOf(b)].kind < |h.free|
    ensures Inv(Kfree(h, b))
  {
    PutBackKeeps(h, b);
    var g := PutBack(h, b);
    if g.arenas[ArenaOf(b)].freeCount == ArenaSize(g.arenas[ArenaOf(b)].kind) {
      RetireKeeps(g, ArenaOf(b));
    } else {
      NoneFull(g, ArenaOf(b));
    }
  }

  lemma NoneFull(h: Heap, a: nat)
    requires Good(h, a) && a in h.arenas && h.arenas[a].freeCount != ArenaSize(h.arenas[a].kind)
    ensures Inv(h)
  {
    assert Account(h, a);
    var c := h.arenas[a].kind;
    BlockCount(a, c);
    SubsetCount(Blocks(a, c) * Elements(h.free[c]), Blocks(a, c));
  }

  // ---- every reachable state ----

  datatype Op = Malloc(size: nat, page: nat) | Free(b: nat)

  ghost predicate Allowed(h: Heap, op: Op) {
    Inv(h) && match op
              case Malloc(size, page) => !Tiny(size) && (h.pool != {} ==> page in h.pool)
              case Free(b) => b in h.live
  }

  ghost function Apply(h: Heap, op: Op): Heap
    requires Allowed(h, op)
  {
    match op
    case Malloc(size, page) => Kmalloc(h, size, page).0
    case Free(b) => KfreeKeeps(h, b); Kfree(h, b)
  }

  ghost predicate AllAllowed(h: Heap, ops: seq<Op>)
    decreases |ops|
  {
    ops == [] || (Allowed(h, ops[0]) && AllAllowed(Apply(h, ops[0]), ops[1..]))
  }

  ghost function Run(h: Heap, ops: seq<Op>): Heap
    requires AllAllowed(h, ops)
    decreases |ops|
  {
    if ops == [] then h else Run(Apply(h, ops[0]), ops[1..])
  }

  /// What giving out a block changes besides the lists.
  lemma HandOutEffect(h: Heap, c: nat, size: nat, full: nat)
    requires Good(h, full) && c < CLASSES && h.free[c] != [] && 0 < size <= BlockSize(c)
    requires full == 0 || ArenaOf(h.free[c][0]) == full
    ensures ArenaOf(h.free[c][0]) in h.arenas && h.arenas[ArenaOf(h.free[c][0])].freeCount > 0
    ensures var g, b := HandOut(h, c, size), h.free[c][0];
      && Inv(g) && b !in h.live && g.live == h.live[b := size]
      && g.pool == h.pool && g.arenas.Keys == h.arenas.Keys
  {
    HandOutKeeps(h, c, size, full);
    assert h.free[c][0] in h.free[c];
  }

  lemma NewArenaEffect(h: Heap, c: nat, size: nat, page: nat)
    requires Inv(h) && 0 < c < CLASSES && h.free[c] == [] && page in h.pool && 0 < size <= BlockSize(c)
    ensures var u := Carve(h, c, page);
      && u.free[c] != [] && ArenaOf(u.free[c][0]) in u.arenas && u.arenas[ArenaOf(u.free[c][0])].freeCount > 0
      && var g, b := HandOut(u, c, size), u.free[c][0];
      && Inv(g) && b !in h.live && g.live == h.live[b := size]
      && g.pool + g.arenas.Keys == h.pool + h.arenas.Keys
  {
    CarveKeeps(h, c, page);
    HandOutEffect(Carve(h, c, page), c, size, page);
  }

  /// kmalloc keeps the invariant; it gives out a block that was not outstanding, and no
  /// other block's standing changes. The pages of the pool and of the arenas together stay
  /// the same.
  lemma KmallocKeeps(h: Heap, size: nat, page: nat)
    requires Inv(h) && (h.pool != {} ==> page in h.pool) && !Tiny(size)
    ensures var (g, o) := Kmalloc(h, size, page);
      && Inv(g)
      && (o.Null? <==> size == 0) && (o.Undefined? <==> size > 262144)
      && (o.NoPage? ==> h.pool == {})
      && (if o.Block? then o.addr !in h.live && g.live == h.live[o.addr := size] else g == h)
      && g.pool + g.arenas.Keys == h.pool + h.arenas.Keys
  {
    FirstClassFits(size, 0);
    SmallestClass(size);
    var c := FirstClass(size, 0);
    if 0 < size && c < CLASSES {
      if h.free[c] != [] {
        HandOutEffect(h, c, size, 0);
      } else if h.pool != {} {
        NewArenaEffect(h, c, size, page);
      }
    }
  }

  lemma {:induction false} CarvedAt(a: nat, c: nat, i: nat, k: nat)
    requires c < CLASSES && i + k < ArenaSize(c)
    ensures k < |Carved(a, c, i)| && Carved(a, c, i)[k] == BlockAt(a, c, i + k)
    decreases k
  {
    CarvedIsAll(a, c, i);
    if k > 0 {
      CarvedAt(a, c, i + 1, k - 1);
    }
  }

  /// Free blocks are handed out in the order in which they became free; a new page gives its
  /// first block, and its others follow in the order of their addresses.
  lemma KmallocTakesFirst(h: Heap, size: nat, page: nat)
    requires Inv(h) && (h.pool != {} ==> page in h.pool) && !Tiny(size) && 0 < size <= 262144
    ensures FirstClass(size, 0) < CLASSES == |h.free|
    ensures var (g, o) := Kmalloc(h, size, page);
      var c := FirstClass(size, 0);
      && (h.free[c] != [] ==>
            o == Block(h.free[c][0]) && g.free == h.free[c := h.free[c][1..]] && g.pool == h.pool)
      && (h.free[c] == [] && h.pool != {} ==>
            && o == Block(page + 24) && g.pool == h.pool - {page} && |g.free[c]| == ArenaSize(c) - 1
            && forall i :: 0 <= i < |g.free[c]| ==> g.free[c][i] == page + 24 + (i + 1) * BlockSize(c))
  {
    FirstClassFits(size, 0);
    SmallestClass(size);
    var c := FirstClass(size, 0);
    CarvedInOrder(page, c);
  }

  lemma CarvedInOrder(page: nat, c: nat)
    requires c < CLASSES
    ensures var q := Carved(page, c, 0);
      && |q| == ArenaSize(c) > 0 && q[0] == page + 24
      && forall i :: 0 <= i < |q[1..]| ==> q[1..][i] == page + 24 + (i + 1) * BlockSize(c)
  {
    CarvedIsAll(page, c, 0);
    ClassBounds(c);
    CarvedAt(page, c, 0, 0);
    var q := Carved(page, c, 0);
    forall j: nat | 0 < j < ArenaSize(c)
      ensures q[j] == page + 24 + j * BlockSize(c)
    {
      CarvedAt(page, c, 0, j);
    }
  }

  /// A block that is freed, and is not the last one of its page, goes behind the free ones.
  lemma KfreeQueuesLast(h: Heap, b: nat)
    requires Inv(h) && b in h.live
    requires exists x :: x in h.live && x != b && ArenaOf(x) == ArenaOf(b)
    ensures ArenaOf(b) in h.arenas && h.arenas[ArenaOf(b)].kind < |h.free|
    ensures var c := h.arenas[ArenaOf(b)].kind;
      Kfree(h, b).free == h.free[c := h.free[c] + [b]] && Kfree(h, b).pool == h.pool
  {
    LiveBlock(h, b);
    LastBlock(h, b);
  }

  lemma {:induction false} RunKeeps(h: Heap, ops: seq<Op>)
    requires Inv(h) && AllAllowed(h, ops)
    ensures Inv(Run(h, ops))
    ensures Run(h, ops).pool + Run(h, ops).arenas.Keys == h.pool + h.arenas.Keys
    decreases |ops|
  {
    if ops != [] {
      match ops[0] {
        case Malloc(size, page) => KmallocKeeps(h, size, page);
        case Free(b) => KfreeKeeps(h, b);
      }
      assert Apply(h, ops[0]).pool + Apply(h, ops[0]).arenas.Keys == h.pool + h.arenas.Keys;
      RunKeeps(Apply(h, ops[0]), ops[1..]);
    }
  }

  // ---- what the invariant says about bytes ----

  ghost predicate Overlap(a: nat, n: nat, b: nat, m: nat) {
    a < b + m && b < a + n
  }

  ghost function SizeOf(h: Heap, b: nat): nat
    requires ArenaOf(b) in h.arenas
  {
    BlockSize(h.arenas[ArenaOf(b)].kind)
  }

  lemma BlockPlace(h: Heap, c: nat, b: nat)
    requires Accounts(h) && Belongs(h, c, b)
    ensures c < CLASSES && ArenaOf(b) + 24 <= b && b + BlockSize(c) <= ArenaOf(b) + 0x20_0000
    ensures ArenaOf(b) % 0x20_0000 == 0
  {
    assert Account(h, ArenaOf(b));
    BlocksAre(ArenaOf(b), c, b);
  }

  lemma PagesApart(a: nat, b: nat)
    requires a % 0x20_0000 == 0 && b % 0x20_0000 == 0 && a < b
    ensures a + 0x20_0000 <= b
  {
  }

  lemma BelongingApart(h: Heap, c: nat, b: nat, k: nat, x: nat)
    requires Accounts(h) && Belongs(h, c, b) && Belongs(h, k, x) && b != x
    ensures !Overlap(b, BlockSize(c), x, BlockSize(k))
  {
    BlockPlace(h, c, b);
    BlockPlace(h, k, x);
    if ArenaOf(b) == ArenaOf(x) {
      TwoBlocksApart(ArenaOf(b), c, b, x);
    } else if ArenaOf(b) < ArenaOf(x) {
      PagesApart(ArenaOf(b), ArenaOf(x));
    } else {
      PagesApart(ArenaOf(x), ArenaOf(b));
    }
  }

  /// Outstanding blocks hold what was asked for, lie inside their page behind its header,
  /// and overlap neither each other, nor a free block, nor any arena header.
  lemma LiveBlocksAreApart(h: Heap, b: nat, x: nat, a: nat)
    requires Inv(h) && b in h.live && a in h.arenas
    ensures ArenaOf(b) in h.arenas && h.live[b] <= SizeOf(h, b)
    ensures ArenaOf(b) + HEADER <= b && b + SizeOf(h, b) <= ArenaOf(b) + PAGE
    ensures !Overlap(b, SizeOf(h, b), a, HEADER)
    ensures x in h.live && x != b ==> ArenaOf(x) in h.arenas && !Overlap(b, SizeOf(h, b), x, SizeOf(h, x))
    ensures forall c :: 0 <= c < CLASSES && x in h.free[c] ==> !Overlap(b, SizeOf(h, b), x, BlockSize(c))
  {
    var k := h.arenas[ArenaOf(b)].kind;
    assert Belongs(h, k, b);
    BlockPlace(h, k, b);
    assert Account(h, a);
    if ArenaOf(b) < a { PagesApart(ArenaOf(b), a); } else if a < ArenaOf(b) { PagesApart(a, ArenaOf(b)); }
    if x in h.live && x != b {
      BelongingApart(h, k, b, h.arenas[ArenaOf(x)].kind, x);
    }
    forall c | 0 <= c < CLASSES && x in h.free[c] ensures !Overlap(b, SizeOf(h, b), x, BlockSize(c)) {
      BelongingApart(h, k, b, c, x);
    }
  }

  /// The two links of a free block stay inside it in every class but the first. There they
  /// run into the next block exactly, and those of the last block into the next page.
  lemma LinksHitNeighbour(a: nat, c: nat, i: nat, j: nat)
    requires c < CLASSES && i < ArenaSize(c) && j < ArenaSize(c) && i != j
    ensures Overlap(BlockAt(a, c, i), LINKS, BlockAt(a, c, j), BlockSize(c)) <==> c == 0 && j == i + 1
    ensures Overlap(BlockAt(a, c, i), LINKS, a + PAGE, HEADER) <==> c == 0 && i == ArenaSize(0) - 1
  {
    ClassBounds(c);
    BlockInPage(a, c, i);
    if c == 0 {
      assert BlockSize(0) == 8 && ArenaSize(0) == 262141;
    } else if i < j {
      BlocksApart(a, c, i, j);
    } else {
      BlocksApart(a, c, j, i);
    }
  }

  /// A page table from kcalloc(512, 8) starts 24 bytes into a multiple of its size, so the
  /// page number taken from its address is not its own.
  lemma TablesAreMisaligned(a: nat, i: nat)
    requires a % 0x20_0000 == 0
    ensures FirstClass(512 * 8, 0) == 9 && BlockSize(9) == 4096
    ensures BlockAt(a, 9, i) % 4096 == 24
  {
    Pow2Sum(4, 5);
    assert Pow2(4) == 16 && Pow2(5) == 32;
    assert BlockSize(9) == 4096 && BlockSize(8) == 2048 by { assert Pow2(9) == 2 * Pow2(8); }
    FirstClassIs(4096, 0, 9);
    assert BlockAt(a, 9, i) == 4096 * (512 * (a / 0x20_0000) + i) + 24;
  }

  lemma {:induction false} FirstClassIs(size: nat, c: nat, k: nat)
    requires c <= k < CLASSES && 0 < k && BlockSize(k) >= size && BlockSize(k - 1) < size
    ensures FirstClass(size, c) == k
    decreases k - c
  {
    if c < k {
      Pow2Mono(c, k - 1);
      FirstClassIs(size, c + 1, k);
    }
  }

  // ---- arenas and outstanding blocks ----

  ghost function ArenasOf(h: Heap, c: nat): set<nat> {
    set a | a in h.arenas && h.arenas[a].kind == c
  }

  ghost function LiveOf(h: Heap, c: nat): set<nat> {
    set b | b in h.live && ArenaOf(b) in h.arenas && h.arenas[ArenaOf(b)].kind == c
  }

  /// Every live arena has an outstanding block.
  lemma ArenaHasLive(h: Heap, a: nat) returns (b: nat)
    requires Inv(h) && a in h.arenas
    ensures b in h.live && ArenaOf(b) == a
  {
    assert Account(h, a);
    var c := h.arenas[a].kind;
    BlockCount(a, c);
    var listed := Blocks(a, c) * Elements(h.free[c]);
    assert listed != Blocks(a, c);
    b :| b in Blocks(a, c) && b !in listed;
    ListedOrLive(h, a, b);
  }

  lemma {:induction false} PickLive(h: Heap, arenas: set<nat>, c: nat)
    requires Inv(h) && arenas <= ArenasOf(h, c)
    ensures |arenas| <= |set b | b in LiveOf(h, c) && ArenaOf(b) in arenas|
    decreases |arenas|
  {
    if arenas != {} {
      var a :| a in arenas;
      PickLive(h, arenas - {a}, c);
      var b := ArenaHasLive(h, a);
      OneMoreLive(h, arenas, c, a, b);
    }
  }

  lemma OneMoreLive(h: Heap, arenas: set<nat>, c: nat, a: nat, b: nat)
    requires a in arenas && b in LiveOf(h, c) && ArenaOf(b) == a
    ensures |set x | x in LiveOf(h, c) && ArenaOf(x) in arenas - {a}|
          < |set x | x in LiveOf(h, c) && ArenaOf(x) in arenas|
  {
    var fewer := set x | x in LiveOf(h, c) && ArenaOf(x) in arenas - {a};
    var more := set x | x in LiveOf(h, c) && ArenaOf(x) in arenas;
    assert fewer + {b} <= more && b !in fewer;
    SubsetCount(fewer + {b}, more);
  }

  /// The live arenas of a class never outnumber its outstanding blocks.
  lemma ArenasBoundedByBlocks(h: Heap, c: nat)
    requires Inv(h)
    ensures |ArenasOf(h, c)| <= |LiveOf(h, c)|
  {
    PickLive(h, ArenasOf(h, c), c);
    assert (set b | b in LiveOf(h, c) && ArenaOf(b) in ArenasOf(h, c)) == LiveOf(h, c);
  }

  /// A page goes back to the pool exactly when the last outstanding block on it is freed.
  lemma PageReturnedWithLast(h: Heap, b: nat)
    requires Inv(h) && b in h.live
    ensures ArenaOf(b) in h.arenas && h.arenas[ArenaOf(b)].kind < |h.free|
    ensures ArenaOf(b) in Kfree(h, b).pool <==> forall x :: x in h.live && x != b ==> ArenaOf(x) != ArenaOf(b)
    ensures Kfree(h, b).pool <= h.pool + {ArenaOf(b)} && Kfree(h, b).live == h.live - {b}
  {
    LiveBlock(h, b);
    LastBlock(h, b);
  }

  /// Freeing what kmalloc has just given out restores the arenas, the pool, the outstanding
  /// blocks and what is on every free list.
  lemma FreeUndoesMalloc(h: Heap, size: nat, page: nat)
    requires Inv(h) && (h.pool != {} ==> page in h.pool) && !Tiny(size) && Kmalloc(h, size, page).1.Block?
    ensures var (g, o) := Kmalloc(h, size, page);
      && ArenaOf(o.addr) in g.arenas && g.arenas[ArenaOf(o.addr)].kind < |g.free|
      && var u := Kfree(g, o.addr);
      && u.live == h.live && u.pool == h.pool && u.arenas == h.arenas && |u.free| == CLASSES
      && forall c :: 0 <= c < CLASSES ==> Elements(u.free[c]) == Elements(h.free[c])
  {
    FirstClassFits(size, 0);
    SmallestClass(size);
    var c := FirstClass(size, 0);
    if h.free[c] != [] {
      FreeUndoesHandOut(h, c, size);
    } else {
      FreeUndoesNewArena(h, c, size, page);
    }
  }

  /// Giving out the first block of a class and freeing it again moves it to the end of its
  /// list, or takes the whole arena out if nothing else of it is outstanding.
  lemma FreeAfterHandOut(h: Heap, c: nat, size: nat)
    requires c < |h.free| && h.free[c] != [] && ArenaOf(h.free[c][0]) in h.arenas
    requires h.arenas[ArenaOf(h.free[c][0])].freeCount > 0 && h.arenas[ArenaOf(h.free[c][0])].kind == c
    requires h.free[c][0] !in h.live
    ensures var b := h.free[c][0];
      var a, q := ArenaOf(b), h.free[c][1..] + [b];
      Kfree(HandOut(h, c, size), b) ==
        if h.arenas[a].freeCount == ArenaSize(c)
        then Heap(h.free[c := Unlink(q, a, c, 0)], h.arenas - {a}, h.pool + {a}, h.live)
        else Heap(h.free[c := q], h.arenas, h.pool, h.live)
  {
    var b, g := h.free[c][0], HandOut(h, c, size);
    assert g.live - {b} == h.live;
    assert PutBack(g, b).arenas == h.arenas;
  }

  lemma FreeUndoesHandOut(h: Heap, c: nat, size: nat)
    requires Inv(h) && c < CLASSES && h.free[c] != [] && 0 < size <= BlockSize(c)
    ensures ArenaOf(h.free[c][0]) in h.arenas && h.arenas[ArenaOf(h.free[c][0])].freeCount > 0
    ensures var g, b := HandOut(h, c, size), h.free[c][0];
      && ArenaOf(b) in g.arenas && g.arenas[ArenaOf(b)].kind < |g.free|
      && var u := Kfree(g, b);
      && u.live == h.live && u.pool == h.pool && u.arenas == h.arenas && |u.free| == CLASSES
      && forall k :: 0 <= k < CLASSES ==> Elements(u.free[k]) == Elements(h.free[k])
  {
    ListedIsCounted(h, c);
    var b := h.free[c][0];
    assert b in h.free[c] && Account(h, ArenaOf(b));
    FreeAfterHandOut(h, c, size);
    TailElements(h.free[c]);
    AppendElements(h.free[c][1..], b);
  }

  lemma FreeUndoesNewArena(h: Heap, c: nat, size: nat, page: nat)
    requires Inv(h) && 0 < c < CLASSES && h.free[c] == [] && page in h.pool && 0 < size <= BlockSize(c)
    ensures var v := Carve(h, c, page);
      && v.free[c] != [] && ArenaOf(v.free[c][0]) in v.arenas && v.arenas[ArenaOf(v.free[c][0])].freeCount > 0
      && var g, b := HandOut(v, c, size), v.free[c][0];
      && ArenaOf(b) in g.arenas && g.arenas[ArenaOf(b)].kind < |g.free|
      && var u := Kfree(g, b);
      && u.live == h.live && u.pool == h.pool && u.arenas == h.arenas && |u.free| == CLASSES
      && forall k :: 0 <= k < CLASSES ==> Elements(u.free[k]) == Elements(h.free[k])
  {
    PageIsNew(h, page);
    CarveKeeps(h, c, page);
    FreshArena(page, c);
    var v := Carve(h, c, page);
    var b := v.free[c][0];
    assert b !in h.live by {
      assert b in v.free[c];
    }
    FreeAfterHandOut(v, c, size);
    RotatedArenaIsUnlinked(page, c);
    assert v.arenas - {page} == h.arenas;
    assert v.pool + {page} == h.pool;
  }

  lemma RotatedArenaIsUnlinked(page: nat, c: nat)
    requires c < CLASSES && page % 0x20_0000 == 0
    ensures var q := Carved(page, c, 0); q != [] && Unlink(q[1..] + [q[0]], page, c, 0) == []
  {
    FreshArena(page, c);
    var q := Carved(page, c, 0);
    TailElements(q);
    AppendElements(q[1..], q[0]);
    var r := Unlink(q[1..] + [q[0]], page, c, 0);
    UnlinkAll(q[1..] + [q[0]], page, c);
    forall x ensures x !in r {
      assert x in q[1..] + [q[0]] <==> x in q;
    }
    NoDupCount<nat>(r);
    assert Elements<nat>(r) == {};
  }
}
