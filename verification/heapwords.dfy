/// The heap's code on memory: free lists whose links lie in the free blocks, arenas whose
/// headers lie in their pages (kern/lib/mem/heap.c, kern/lib/shared/list.c).

module HeapWords {
  import opened Queues
  import opened Heaps
  import opened Links

  /// The free list of a class. The descriptors are static data, away from every page; here
  /// they are at low addresses.
  function ListAt(c: nat): nat {
    64 * (c + 1)
  }

  function ClassAt(li: nat): nat {
    if li < 64 then 0 else li / 64 - 1
  }

  const MAGIC: nat := 0x9A54_8EED

  /// memset (…, 0, n)
  function Cleared(m: WordMap, start: nat, n: nat): WordMap {
    map w | w in m :: if start <= w < start + n then 0 else m[w]
  }

  /// Memory, the pages that page_allocate still has, and the outstanding blocks.
  datatype Machine = Machine(words: WordMap, pool: set<nat>, live: map<nat, nat>)

  /// The loop that pushes the first n blocks of an arena.
  function Pushed(m: WordMap, c: nat, a: nat, n: nat): WordMap
    decreases n
  {
    if n == 0 then m else PushBack(Pushed(m, c, a, n - 1), ListAt(c), BlockAt(a, c, n - 1))
  }

  /// A zeroed page with an arena header: magic, descriptor, free count.
  function Blank(m: WordMap, c: nat, a: nat): WordMap {
    Cleared(m, a, PAGE)[a := MAGIC][a + 8 := ListAt(c)][a + 16 := ArenaSize(c)]
  }

  function NewArena(m: WordMap, c: nat, a: nat): WordMap {
    Pushed(Blank(m, c, a), c, a, ArenaSize(c))
  }

  /// Popping a block, zeroing it, and counting it.
  function Taken(m: WordMap, c: nat): WordMap {
    var b := Front(m, ListAt(c));
    var u := Cleared(Detach(m, ListAt(c), b), b, BlockSize(c));
    u[ArenaOf(b) + 16 := Less(Get(u, ArenaOf(b) + 16))]
  }

  /// kmalloc. `page` is what page_allocate would return. Without a page the code goes on to
  /// write to the null page; nothing is said of what happens then.
  function Alloc(s: Machine, size: nat, page: nat): (Machine, Outcome) {
    var c := FirstClass(size, 0);
    if size == 0 then (s, Null)
    else if c == CLASSES then (s, Undefined)
    else if Empty(s.words, ListAt(c)) && s.pool == {} then (s, NoPage)
    else
      var u := if Empty(s.words, ListAt(c)) then NewArena(s.words, c, page) else s.words;
      var b := Front(u, ListAt(c));
      (Machine(Taken(u, c), if Empty(s.words, ListAt(c)) then s.pool - {page} else s.pool, s.live[b := size]), Block(b))
  }

  /// The loop that unlinks the blocks of an arena from number i on.
  function Unlinked(m: WordMap, c: nat, a: nat, i: nat): WordMap
    requires i <= ArenaSize(c)
    decreases ArenaSize(c) - i
  {
    if i == ArenaSize(c) then m else Unlinked(Remove(m, ListAt(c), BlockAt(a, c, i)), c, a, i + 1)
  }

  /// kfree up to the test of the free count.
  function Counted(m: WordMap, b: nat): WordMap {
    var a := ArenaOf(b);
    var u := PushBack(m, Get(m, a + 8), b);
    u[a + 16 := Get(u, a + 16) + 1]
  }

  /// kfree. As written it pushes the block a second time unless its arena is retired.
  function Release(s: Machine, b: nat, twice: bool): Machine {
    var a := ArenaOf(b);
    var c, u := ClassAt(Get(s.words, a + 8)), Counted(s.words, b);
    if Get(u, a + 16) == ArenaSize(c) then Machine(Unlinked(u, c, a, 0), s.pool + {a}, s.live - {b})
    else Machine(if twice then PushBack(u, ListAt(c), b) else u, s.pool, s.live - {b})
  }

  // ---- when memory holds a heap ----

  predicate Header(m: WordMap, a: nat, arena: Arena) {
    Get(m, a) == MAGIC && Get(m, a + 8) == ListAt(arena.kind) && Get(m, a + 16) == arena.freeCount
  }

  /// The lists and headers in memory are those of the heap `h`.
  ghost predicate Holds(m: WordMap, h: Heap) {
    && |h.free| == CLASSES
    && (forall c {:trigger h.free[c]} :: 0 <= c < CLASSES ==> Represents(m, ListAt(c), h.free[c]))
    && (forall a {:trigger h.arenas[a]} :: a in h.arenas ==> Header(m, a, h.arenas[a]))
  }

  ghost predicate Refines(s: Machine, h: Heap) {
    Inv(h) && Holds(s.words, h) && s.pool == h.pool && s.live == h.live
  }

  // ---- where things lie ----

  ghost predicate Placed(h: Heap) {
    Lists(h) && Accounts(h)
  }

  lemma FreeNode(h: Heap, c: nat, f: nat)
    requires Placed(h) && c < CLASSES && f in h.free[c]
    ensures c > 0 && Belongs(h, c, f) && ArenaOf(f) + 24 <= f && f + BlockSize(c) <= ArenaOf(f) + PAGE
    ensures PAGE <= f && LINKS <= BlockSize(c)
  {
    assert Belongs(h, c, f);
    assert Account(h, ArenaOf(f));
    BlockPlace(h, c, f);
    ClassBounds(c);
  }

  /// The block of a free node shares no word with another free node.
  lemma FreeNodesApart(h: Heap, c: nat, f: nat, k: nat, g: nat)
    requires Placed(h) && c < CLASSES && f in h.free[c] && k < CLASSES && g in h.free[k] && f != g
    ensures g + LINKS <= f || f + BlockSize(c) <= g
    ensures NodesApart(f, g)
  {
    FreeNode(h, c, f);
    FreeNode(h, k, g);
    BelongingApart(h, c, f, k, g);
  }

  lemma ListIsApart(h: Heap, c: nat)
    requires Placed(h) && c < CLASSES
    ensures Apart(ListAt(c), h.free[c])
  {
    var q := h.free[c];
    forall i {:trigger q[i]} | 0 <= i < |q|
      ensures OutsideList(ListAt(c), q[i])
    {
      FreeNode(h, c, q[i]);
    }
    forall i, j {:trigger q[i], q[j]} | 0 <= i < j < |q|
      ensures NodesApart(q[i], q[j])
    {
      assert NoDup<nat>(q);
      FreeNodesApart(h, c, q[i], c, q[j]);
    }
  }

  lemma ListsShareNothing(h: Heap, c: nat, k: nat, w: nat)
    requires Placed(h) && c < CLASSES && k < CLASSES && c != k && Footprint(ListAt(c), h.free[c], w)
    ensures !Footprint(ListAt(k), h.free[k], w)
  {
    forall i | 0 <= i < |h.free[c]|
      ensures PAGE <= h.free[c][i] && h.free[c][i] !in h.free[k]
    {
      FreeNode(h, c, h.free[c][i]);
      if h.free[c][i] in h.free[k] {
        FreeNode(h, k, h.free[c][i]);
      }
    }
    forall i | 0 <= i < |h.free[k]|
      ensures !(h.free[k][i] <= w < h.free[k][i] + 16)
    {
      var g := h.free[k][i];
      FreeNode(h, k, g);
      if j :| 0 <= j < |h.free[c]| && h.free[c][j] <= w < h.free[c][j] + 16 {
        FreeNodesApart(h, c, h.free[c][j], k, g);
      }
    }
  }

  lemma HeaderIsApart(h: Heap, a: nat, c: nat, w: nat)
    requires Placed(h) && a in h.arenas && c < CLASSES && a <= w < a + 24
    ensures !Footprint(ListAt(c), h.free[c], w)
  {
    assert Account(h, a);
    forall i | 0 <= i < |h.free[c]|
      ensures !(h.free[c][i] <= w < h.free[c][i] + 16)
    {
      var f := h.free[c][i];
      FreeNode(h, c, f);
      assert Account(h, ArenaOf(f));
      if a < ArenaOf(f) { PagesApart(a, ArenaOf(f)); } else if ArenaOf(f) < a { PagesApart(ArenaOf(f), a); }
    }
  }

  lemma HeadersApart(h: Heap, a: nat, x: nat)
    requires Accounts(h) && a in h.arenas && x in h.arenas && a != x
    ensures a + PAGE <= x || x + PAGE <= a
  {
    assert Account(h, a) && Account(h, x);
    if a < x { PagesApart(a, x); } else { PagesApart(x, a); }
  }

  lemma HeaderWords(h: Heap, a: nat, x: nat)
    requires Accounts(h) && a in h.arenas && x in h.arenas
    ensures a != x + 16 && a + 8 != x + 16
  {
    if a != x {
      HeadersApart(h, a, x);
    }
  }

  /// Memory that agrees on the words of the lists and headers holds the same heap.
  lemma HoldsDependsOn(m: WordMap, u: WordMap, h: Heap)
    requires Holds(m, h)
    requires forall c, w: nat {:trigger Footprint(ListAt(c), h.free[c], w)} ::
      0 <= c < CLASSES && Footprint(ListAt(c), h.free[c], w) ==> Get(u, w) == Get(m, w)
    requires forall a, w: nat {:trigger Get(u, w), h.arenas[a]} ::
      a in h.arenas && a <= w < a + 24 ==> Get(u, w) == Get(m, w)
    ensures Holds(u, h)
  {
    forall c {:trigger h.free[c]} | 0 <= c < CLASSES
      ensures Represents(u, ListAt(c), h.free[c])
    {
      RepresentsDependsOn(m, u, ListAt(c), h.free[c]);
    }
  }

  // ---- taking a block ----

  lemma ClearedIs(m: WordMap, start: nat, n: nat, w: nat)
    ensures Get(Cleared(m, start, n), w) == if start <= w < start + n then 0 else Get(m, w)
  {
  }

  /// The words that taking the front block of a class leaves alone.
  lemma TakenWrites(m: WordMap, c: nat, q: seq<nat>, w: nat)
    requires c < CLASSES && Represents(m, ListAt(c), q) && q != [] && !Footprint(ListAt(c), q, w)
    requires !(q[0] <= w < q[0] + BlockSize(c)) && w != ArenaOf(q[0]) + 16
    ensures Front(m, ListAt(c)) == q[0] && Get(Taken(m, c), w) == Get(m, w)
  {
    LastOf(m, ListAt(c), q);
    DetachWrites(m, ListAt(c), q, 0, w);
    ClearedIs(Detach(m, ListAt(c), q[0]), q[0], BlockSize(c), w);
  }

  /// The class's own list after that.
  lemma TakenList(m: WordMap, h: Heap, c: nat)
    requires Placed(h) && Holds(m, h) && c < CLASSES && h.free[c] != []
    ensures Represents(Taken(m, c), ListAt(c), h.free[c][1..])
  {
    var q, li := h.free[c], ListAt(c);
    var b := q[0];
    LastOf(m, li, q);
    ListIsApart(h, c);
    DetachIs(m, li, q, 0);
    assert Except(q, 0) == q[1..];
    var t := Detach(m, li, b);
    assert b in h.free[c];
    FreeNode(h, c, b);
    forall w: nat {:trigger Get(Taken(m, c), w)} | Footprint(li, q[1..], w)
      ensures Get(Taken(m, c), w) == Get(t, w)
    {
      TailFootprint(h, c, w);
      ClearedIs(t, b, BlockSize(c), w);
    }
    RepresentsDependsOn(t, Taken(m, c), li, q[1..]);
  }

  lemma TailFootprint(h: Heap, c: nat, w: nat)
    requires Placed(h) && c < CLASSES && h.free[c] != [] && Footprint(ListAt(c), h.free[c][1..], w)
    ensures !(h.free[c][0] <= w < h.free[c][0] + BlockSize(c)) && w != ArenaOf(h.free[c][0]) + 16
  {
    var q := h.free[c];
    var b := q[0];
    assert b in h.free[c];
    FreeNode(h, c, b);
    if i :| 0 <= i < |q[1..]| && q[1..][i] <= w < q[1..][i] + 16 {
      assert NoDup<nat>(q) && q[i + 1] == q[1..][i];
      FreeNodesApart(h, c, b, c, q[i + 1]);
      assert Footprint(ListAt(c), q, w);
    }
    if ArenaOf(b) <= w < ArenaOf(b) + 24 {
      HeaderIsApart(h, ArenaOf(b), c, w);
    }
  }

  lemma OtherListOutsideBlock(h: Heap, c: nat, b: nat, k: nat, w: nat)
    requires Placed(h) && c < CLASSES && b in h.free[c] && k < CLASSES && k != c
    requires Footprint(ListAt(k), h.free[k], w)
    ensures !(b <= w < b + BlockSize(c)) && w != ArenaOf(b) + 16 && !Footprint(ListAt(c), h.free[c], w)
  {
    FreeNode(h, c, b);
    ListsShareNothing(h, k, c, w);
    if i :| 0 <= i < |h.free[k]| && h.free[k][i] <= w < h.free[k][i] + 16 {
      FreeNode(h, k, h.free[k][i]);
      FreeNodesApart(h, c, b, k, h.free[k][i]);
    }
    if ArenaOf(b) <= w < ArenaOf(b) + 24 {
      HeaderIsApart(h, ArenaOf(b), k, w);
    }
  }

  lemma HeaderOutsideBlock(h: Heap, c: nat, b: nat, a: nat, w: nat)
    requires Placed(h) && c < CLASSES && b in h.free[c] && a in h.arenas && a <= w < a + 24
    ensures !(b <= w < b + BlockSize(c)) && !Footprint(ListAt(c), h.free[c], w)
    ensures w == ArenaOf(b) + 16 <==> a == ArenaOf(b) && w == a + 16
  {
    FreeNode(h, c, b);
    HeaderIsApart(h, a, c, w);
    if a != ArenaOf(b) {
      HeadersApart(h, a, ArenaOf(b));
    }
  }

  lemma TakenKeepsWord(m: WordMap, h: Heap, c: nat, a: nat, w: nat)
    requires Placed(h) && c < CLASSES && Represents(m, ListAt(c), h.free[c]) && h.free[c] != []
    requires a in h.arenas && a <= w < a + 24
    requires w != ArenaOf(h.free[c][0]) + 16
    ensures Get(Taken(m, c), w) == Get(m, w)
  {
    assert h.free[c][0] in h.free[c];
    HeaderOutsideBlock(h, c, h.free[c][0], a, w);
    TakenWrites(m, c, h.free[c], w);
  }

  lemma TakenCount(m: WordMap, h: Heap, c: nat)
    requires Placed(h) && c < CLASSES && Represents(m, ListAt(c), h.free[c]) && h.free[c] != []
    requires ArenaOf(h.free[c][0]) in h.arenas
    ensures var a := ArenaOf(h.free[c][0]); Get(Taken(m, c), a + 16) == Less(Get(m, a + 16))
  {
    var b := h.free[c][0];
    assert b in h.free[c];
    LastOf(m, ListAt(c), h.free[c]);
    HeaderOutsideBlock(h, c, b, ArenaOf(b), ArenaOf(b) + 16);
    DetachWrites(m, ListAt(c), h.free[c], 0, ArenaOf(b) + 16);
    ClearedIs(Detach(m, ListAt(c), b), b, BlockSize(c), ArenaOf(b) + 16);
  }

  lemma HandOutArena(h: Heap, c: nat, size: nat, a: nat)
    requires c < |h.free| && h.free[c] != [] && ArenaOf(h.free[c][0]) in h.arenas && a in h.arenas
    requires h.arenas[ArenaOf(h.free[c][0])].freeCount > 0
    ensures a in HandOut(h, c, size).arenas
    ensures var x := h.arenas[a];
      HandOut(h, c, size).arenas[a] == if a == ArenaOf(h.free[c][0]) then Arena(x.kind, x.freeCount - 1) else x
  {
  }

  lemma TakenHeader(m: WordMap, h: Heap, c: nat, size: nat, a: nat)
    requires Placed(h) && Holds(m, h) && c < CLASSES && h.free[c] != [] && a in h.arenas
    requires ArenaOf(h.free[c][0]) in h.arenas && h.arenas[ArenaOf(h.free[c][0])].freeCount > 0
    ensures Header(Taken(m, c), a, HandOut(h, c, size).arenas[a])
  {
    assert Header(m, a, h.arenas[a]);
    HandOutArena(h, c, size, a);
    TakenKeepsHeader(m, h, c, a);
    TakenFreeCount(m, h, c, a);
  }

  lemma TakenKeepsHeader(m: WordMap, h: Heap, c: nat, a: nat)
    requires Placed(h) && c < CLASSES && Represents(m, ListAt(c), h.free[c]) && h.free[c] != [] && a in h.arenas
    requires ArenaOf(h.free[c][0]) in h.arenas
    ensures Get(Taken(m, c), a) == Get(m, a) && Get(Taken(m, c), a + 8) == Get(m, a + 8)
  {
    HeaderWords(h, a, ArenaOf(h.free[c][0]));
    TakenKeepsWord(m, h, c, a, a);
    TakenKeepsWord(m, h, c, a, a + 8);
  }

  lemma TakenFreeCount(m: WordMap, h: Heap, c: nat, a: nat)
    requires Placed(h) && c < CLASSES && Represents(m, ListAt(c), h.free[c]) && h.free[c] != [] && a in h.arenas
    requires ArenaOf(h.free[c][0]) in h.arenas
    ensures Get(Taken(m, c), a + 16) == if a == ArenaOf(h.free[c][0]) then Less(Get(m, a + 16)) else Get(m, a + 16)
  {
    if a == ArenaOf(h.free[c][0]) {
      TakenCount(m, h, c);
    } else {
      TakenKeepsWord(m, h, c, a, a + 16);
    }
  }

  lemma TakenHolds(m: WordMap, h: Heap, c: nat, size: nat)
    requires Placed(h) && Holds(m, h) && c < CLASSES && h.free[c] != []
    requires ArenaOf(h.free[c][0]) in h.arenas && h.arenas[ArenaOf(h.free[c][0])].freeCount > 0
    ensures Front(m, ListAt(c)) == h.free[c][0] && Holds(Taken(m, c), HandOut(h, c, size))
  {
    var u, g := Taken(m, c), HandOut(h, c, size);
    LastOf(m, ListAt(c), h.free[c]);
    assert h.free[c][0] in h.free[c];
    forall k {:trigger g.free[k]} | 0 <= k < CLASSES
      ensures Represents(u, ListAt(k), g.free[k])
    {
      if k == c {
        TakenList(m, h, c);
      } else {
        forall w: nat {:trigger Get(u, w)} | Footprint(ListAt(k), h.free[k], w)
          ensures Get(u, w) == Get(m, w)
        {
          OtherListOutsideBlock(h, c, h.free[c][0], k, w);
          TakenWrites(m, c, h.free[c], w);
        }
        RepresentsDependsOn(m, u, ListAt(k), h.free[k]);
      }
    }
    forall a {:trigger g.arenas[a]} | a in g.arenas
      ensures Header(u, a, g.arenas[a])
    {
      TakenHeader(m, h, c, size, a);
    }
  }

  // ---- a new arena ----

  lemma {:induction false} CarvedPrefix(a: nat, c: nat, n: nat)
    requires c < CLASSES && n <= ArenaSize(c)
    ensures |Carved(a, c, 0)| == ArenaSize(c) && forall i :: 0 <= i < n ==> Carved(a, c, 0)[i] == BlockAt(a, c, i)
  {
    CarvedIsAll(a, c, 0);
    if n > 0 {
      CarvedPrefix(a, c, n - 1);
      CarvedAt(a, c, 0, n - 1);
    }
  }

  /// Pushing the blocks in turn lists them.
  lemma {:induction false} PushedIs(m: WordMap, c: nat, a: nat, n: nat)
    requires c < CLASSES && n <= ArenaSize(c) && Represents(m, ListAt(c), [])
    requires Apart(ListAt(c), Carved(a, c, 0))
    ensures |Carved(a, c, 0)| == ArenaSize(c)
    ensures Represents(Pushed(m, c, a, n), ListAt(c), Carved(a, c, 0)[..n])
    decreases n
  {
    CarvedPrefix(a, c, n);
    if n > 0 {
      PushedIs(m, c, a, n - 1);
      var q := Carved(a, c, 0);
      assert q[..n] == q[..n - 1] + [BlockAt(a, c, n - 1)];
      PushBackIs(Pushed(m, c, a, n - 1), ListAt(c), q[..n - 1], BlockAt(a, c, n - 1));
    } else {
      assert Carved(a, c, 0)[..0] == [];
    }
  }

  lemma {:induction false} PushedWrites(m: WordMap, c: nat, a: nat, n: nat, w: nat)
    requires c < CLASSES && n <= ArenaSize(c) && Represents(m, ListAt(c), [])
    requires Apart(ListAt(c), Carved(a, c, 0)) && !Footprint(ListAt(c), Carved(a, c, 0), w)
    ensures Get(Pushed(m, c, a, n), w) == Get(m, w)
    decreases n
  {
    if n > 0 {
      CarvedPrefix(a, c, n);
      PushedIs(m, c, a, n - 1);
      PushedWrites(m, c, a, n - 1, w);
      var q := Carved(a, c, 0);
      assert q[..n] == q[..n - 1] + [BlockAt(a, c, n - 1)];
      PushBackWrites(Pushed(m, c, a, n - 1), ListAt(c), q[..n - 1], BlockAt(a, c, n - 1), w);
    }
  }

  lemma BlankIs(m: WordMap, c: nat, a: nat, w: nat)
    ensures !(a <= w < a + PAGE) ==> Get(Blank(m, c, a), w) == Get(m, w)
    ensures Header(Blank(m, c, a), a, Arena(c, ArenaSize(c)))
  {
  }

  lemma BlankIsEmpty(m: WordMap, h: Heap, c: nat, page: nat)
    requires Inv(h) && Holds(m, h) && 0 < c < CLASSES && h.free[c] == [] && page in h.pool
    ensures Represents(Blank(m, c, page), ListAt(c), []) && Apart(ListAt(c), Carved(page, c, 0))
  {
    CarveKeeps(h, c, page);
    ListIsApart(Carve(h, c, page), c);
    PageIsNew(h, page);
    assert Represents(m, ListAt(c), h.free[c]);
    BlankIs(m, c, page, ListAt(c) + 32);
  }

  /// Carving changes only the page and the list of the class.
  lemma NewArenaWrites(m: WordMap, h: Heap, c: nat, page: nat, w: nat)
    requires Inv(h) && Holds(m, h) && 0 < c < CLASSES && h.free[c] == [] && page in h.pool
    requires !(ListAt(c) <= w < ListAt(c) + 40) && !(page <= w < page + PAGE)
    ensures Get(NewArena(m, c, page), w) == Get(m, w)
  {
    var u := Carve(h, c, page);
    BlankIsEmpty(m, h, c, page);
    CarveKeeps(h, c, page);
    forall i | 0 <= i < |u.free[c]|
      ensures page <= u.free[c][i] && u.free[c][i] + 16 <= page + PAGE
    {
      FreshArena(page, c);
      FreeNode(u, c, u.free[c][i]);
    }
    BlankIs(m, c, page, w);
    PushedWrites(Blank(m, c, page), c, page, ArenaSize(c), w);
  }

  lemma ArenaOutsidePage(h: Heap, a: nat, page: nat)
    requires Accounts(h) && a in h.arenas && page in h.pool
    ensures a + PAGE <= page || page + PAGE <= a
  {
    PageIsNew(h, page);
    assert Account(h, a);
    if a < page { PagesApart(a, page); } else { PagesApart(page, a); }
  }

  lemma ListOutsidePage(h: Heap, k: nat, page: nat, w: nat)
    requires Placed(h) && k < CLASSES && page in h.pool && Footprint(ListAt(k), h.free[k], w)
    ensures !(page <= w < page + PAGE)
  {
    PageIsNew(h, page);
    if i :| 0 <= i < |h.free[k]| && h.free[k][i] <= w < h.free[k][i] + 16 {
      FreeNode(h, k, h.free[k][i]);
      ArenaOutsidePage(h, ArenaOf(h.free[k][i]), page);
    }
  }

  lemma NewArenaList(m: WordMap, h: Heap, c: nat, page: nat)
    requires Inv(h) && Holds(m, h) && 0 < c < CLASSES && h.free[c] == [] && page in h.pool
    ensures Represents(NewArena(m, c, page), ListAt(c), Carved(page, c, 0))
  {
    BlankIsEmpty(m, h, c, page);
    PushedIs(Blank(m, c, page), c, page, ArenaSize(c));
    assert Carved(page, c, 0)[..ArenaSize(c)] == Carved(page, c, 0);
  }

  lemma NewArenaHeader(m: WordMap, h: Heap, c: nat, page: nat)
    requires Inv(h) && Holds(m, h) && 0 < c < CLASSES && h.free[c] == [] && page in h.pool
    ensures Header(NewArena(m, c, page), page, Arena(c, ArenaSize(c)))
  {
    var u, t := Carve(h, c, page), Blank(m, c, page);
    BlankIsEmpty(m, h, c, page);
    CarveKeeps(h, c, page);
    BlankIs(m, c, page, page);
    HeaderIsApart(u, page, c, page);
    PushedWrites(t, c, page, ArenaSize(c), page);
    HeaderIsApart(u, page, c, page + 8);
    PushedWrites(t, c, page, ArenaSize(c), page + 8);
    HeaderIsApart(u, page, c, page + 16);
    PushedWrites(t, c, page, ArenaSize(c), page + 16);
  }

  lemma OtherListAfterCarving(m: WordMap, h: Heap, c: nat, page: nat, k: nat)
    requires Inv(h) && Holds(m, h) && 0 < c < CLASSES && h.free[c] == [] && page in h.pool
    requires k < CLASSES && k != c
    ensures Represents(NewArena(m, c, page), ListAt(k), h.free[k])
  {
    var u := NewArena(m, c, page);
    forall w: nat {:trigger Get(u, w)} | Footprint(ListAt(k), h.free[k], w)
      ensures Get(u, w) == Get(m, w)
    {
      ListOutsidePage(h, k, page, w);
      ListsShareNothing(h, k, c, w);
      NewArenaWrites(m, h, c, page, w);
    }
    RepresentsDependsOn(m, u, ListAt(k), h.free[k]);
  }

  lemma ArenaIsPage(h: Heap, a: nat)
    requires Accounts(h) && a in h.arenas
    ensures PAGE <= a
  {
    assert Account(h, a);
  }

  lemma OtherWordAfterCarving(m: WordMap, h: Heap, c: nat, page: nat, a: nat, w: nat)
    requires Inv(h) && Holds(m, h) && 0 < c < CLASSES && h.free[c] == [] && page in h.pool
    requires a in h.arenas && a <= w < a + 24
    ensures Get(NewArena(m, c, page), w) == Get(m, w)
  {
    ArenaIsPage(h, a);
    ArenaOutsidePage(h, a, page);
    NewArenaWrites(m, h, c, page, w);
  }

  lemma OtherHeaderAfterCarving(m: WordMap, h: Heap, c: nat, page: nat, a: nat)
    requires Inv(h) && Holds(m, h) && 0 < c < CLASSES && h.free[c] == [] && page in h.pool
    requires a in h.arenas
    ensures a != page && Header(NewArena(m, c, page), a, h.arenas[a])
  {
    assert Header(m, a, h.arenas[a]);
    PageIsNew(h, page);
    OtherWordAfterCarving(m, h, c, page, a, a);
    OtherWordAfterCarving(m, h, c, page, a, a + 8);
    OtherWordAfterCarving(m, h, c, page, a, a + 16);
  }

  lemma NewArenaHolds(m: WordMap, h: Heap, c: nat, page: nat)
    requires Inv(h) && Holds(m, h) && 0 < c < CLASSES && h.free[c] == [] && page in h.pool
    ensures Holds(NewArena(m, c, page), Carve(h, c, page))
  {
    var u, g := NewArena(m, c, page), Carve(h, c, page);
    NewArenaList(m, h, c, page);
    NewArenaHeader(m, h, c, page);
    forall k {:trigger g.free[k]} | 0 <= k < CLASSES
      ensures Represents(u, ListAt(k), g.free[k])
    {
      if k != c {
        OtherListAfterCarving(m, h, c, page, k);
      }
    }
    forall a {:trigger g.arenas[a]} | a in g.arenas
      ensures Header(u, a, g.arenas[a])
    {
      if a != page {
        OtherHeaderAfterCarving(m, h, c, page, a);
      }
    }
  }

  lemma TakeRefines(s: Machine, h: Heap, c: nat, size: nat)
    requires Refines(s, h) && c < CLASSES && h.free[c] != []
    ensures !Empty(s.words, ListAt(c)) && Front(s.words, ListAt(c)) == h.free[c][0]
    ensures ArenaOf(h.free[c][0]) in h.arenas && h.arenas[ArenaOf(h.free[c][0])].freeCount > 0
    ensures Holds(Taken(s.words, c), HandOut(h, c, size))
  {
    assert Represents(s.words, ListAt(c), h.free[c]);
    ListedIsCounted(h, c);
    TakenHolds(s.words, h, c, size);
  }

  lemma CarveRefines(s: Machine, h: Heap, c: nat, size: nat, page: nat)
    requires Refines(s, h) && 0 < c < CLASSES && h.free[c] == [] && page in h.pool
    ensures Empty(s.words, ListAt(c)) && Carve(h, c, page).free[c] != []
    ensures Front(NewArena(s.words, c, page), ListAt(c)) == Carve(h, c, page).free[c][0]
    ensures ArenaOf(Carve(h, c, page).free[c][0]) in Carve(h, c, page).arenas
    ensures Carve(h, c, page).arenas[ArenaOf(Carve(h, c, page).free[c][0])].freeCount > 0
    ensures Holds(Taken(NewArena(s.words, c, page), c), HandOut(Carve(h, c, page), c, size))
  {
    assert Represents(s.words, ListAt(c), h.free[c]);
    CarveKeeps(h, c, page);
    NewArenaHolds(s.words, h, c, page);
    ListedIsCounted(Carve(h, c, page), c);
    TakenHolds(NewArena(s.words, c, page), Carve(h, c, page), c, size);
  }

  /// For every request that is not tiny the code on memory does what the heap of sequences
  /// does.
  lemma AllocRefines(s: Machine, h: Heap, size: nat, page: nat)
    requires Refines(s, h) && (h.pool != {} ==> page in h.pool) && !Tiny(size)
    ensures Refines(Alloc(s, size, page).0, Kmalloc(h, size, page).0)
    ensures Alloc(s, size, page).1 == Kmalloc(h, size, page).1
  {
    KmallocKeeps(h, size, page);
    FirstClassFits(size, 0);
    SmallestClass(size);
    var c := FirstClass(size, 0);
    if size > 0 && c < CLASSES {
      if h.free[c] != [] {
        TakeRefines(s, h, c, size);
      } else if h.pool != {} {
        CarveRefines(s, h, c, size, page);
      } else {
        assert Represents(s.words, ListAt(c), h.free[c]);
      }
    }
  }

  // ---- giving a block back ----

  lemma PutBackPlaced(h: Heap, b: nat) returns (c: nat)
    requires Inv(h) && b in h.live
    ensures ArenaOf(b) in h.arenas && c == h.arenas[ArenaOf(b)].kind && c < CLASSES == |h.free|
    ensures Placed(PutBack(h, b)) && PutBack(h, b).free[c] == h.free[c] + [b]
  {
    PutBackKeeps(h, b);
    LiveBlock(h, b);
    c := h.arenas[ArenaOf(b)].kind;
  }

  lemma CountedWrites(m: WordMap, c: nat, q: seq<nat>, b: nat, w: nat)
    requires Represents(m, ListAt(c), q) && Get(m, ArenaOf(b) + 8) == ListAt(c)
    requires w != ArenaOf(b) + 16 && !Footprint(ListAt(c), q + [b], w)
    ensures Get(Counted(m, b), w) == Get(m, w)
  {
    PushBackWrites(m, ListAt(c), q, b, w);
  }

  lemma CountedList(m: WordMap, h: Heap, b: nat, k: nat)
    requires Inv(h) && Holds(m, h) && b in h.live && k < CLASSES
    ensures ArenaOf(b) in h.arenas && h.arenas[ArenaOf(b)].kind < |h.free|
    ensures Represents(Counted(m, b), ListAt(k), PutBack(h, b).free[k])
  {
    var c := PutBackPlaced(h, b);
    var g, a := PutBack(h, b), ArenaOf(b);
    assert Header(m, a, h.arenas[a]);
    var u := Counted(m, b);
    if k == c {
      var t := PushBack(m, ListAt(c), b);
      ListIsApart(g, c);
      PushBackIs(m, ListAt(c), h.free[c], b);
      forall w: nat {:trigger Get(u, w)} | Footprint(ListAt(c), g.free[c], w)
        ensures Get(u, w) == Get(t, w)
      {
        if w == a + 16 { HeaderIsApart(g, a, c, w); }
      }
      RepresentsDependsOn(t, u, ListAt(c), g.free[c]);
    } else {
      forall w: nat {:trigger Get(u, w)} | Footprint(ListAt(k), h.free[k], w)
        ensures Get(u, w) == Get(m, w)
      {
        ListsShareNothing(g, k, c, w);
        if w == a + 16 { HeaderIsApart(g, a, k, w); }
        CountedWrites(m, c, h.free[c], b, w);
      }
      RepresentsDependsOn(m, u, ListAt(k), h.free[k]);
    }
  }

  lemma CountedKeepsWord(m: WordMap, h: Heap, b: nat, x: nat, w: nat)
    requires Inv(h) && Holds(m, h) && b in h.live && x in h.arenas && x <= w < x + 24 && w != ArenaOf(b) + 16
    ensures Get(Counted(m, b), w) == Get(m, w)
  {
    var c := PutBackPlaced(h, b);
    assert Header(m, ArenaOf(b), h.arenas[ArenaOf(b)]);
    HeaderIsApart(PutBack(h, b), x, c, w);
    CountedWrites(m, c, h.free[c], b, w);
  }

  lemma CountedCount(m: WordMap, h: Heap, b: nat)
    requires Inv(h) && Holds(m, h) && b in h.live
    ensures var a := ArenaOf(b); Get(Counted(m, b), a + 16) == Get(m, a + 16) + 1
  {
    var c := PutBackPlaced(h, b);
    var a := ArenaOf(b);
    assert Header(m, a, h.arenas[a]);
    HeaderIsApart(PutBack(h, b), a, c, a + 16);
    PushBackWrites(m, ListAt(c), h.free[c], b, a + 16);
  }

  lemma CountedHeader(m: WordMap, h: Heap, b: nat, x: nat)
    requires Inv(h) && Holds(m, h) && b in h.live && x in h.arenas
    ensures ArenaOf(b) in h.arenas && h.arenas[ArenaOf(b)].kind < |h.free|
    ensures Header(Counted(m, b), x, PutBack(h, b).arenas[x])
  {
    var c := PutBackPlaced(h, b);
    assert Header(m, x, h.arenas[x]);
    CountedKeepsHeader(m, h, b, x);
    if x == ArenaOf(b) {
      CountedCount(m, h, b);
    }
  }

  lemma CountedKeepsHeader(m: WordMap, h: Heap, b: nat, x: nat)
    requires Inv(h) && Holds(m, h) && b in h.live && x in h.arenas
    ensures Get(Counted(m, b), x) == Get(m, x) && Get(Counted(m, b), x + 8) == Get(m, x + 8)
    ensures x != ArenaOf(b) ==> Get(Counted(m, b), x + 16) == Get(m, x + 16)
  {
    var c := PutBackPlaced(h, b);
    HeaderWords(h, x, ArenaOf(b));
    CountedKeepsWord(m, h, b, x, x);
    CountedKeepsWord(m, h, b, x, x + 8);
    if x != ArenaOf(b) {
      CountedKeepsWord(m, h, b, x, x + 16);
    }
  }

  lemma CountedHolds(m: WordMap, h: Heap, b: nat)
    requires Inv(h) && Holds(m, h) && b in h.live
    ensures ArenaOf(b) in h.arenas && h.arenas[ArenaOf(b)].kind < |h.free|
    ensures Holds(Counted(m, b), PutBack(h, b))
  {
    var c := PutBackPlaced(h, b);
    var g := PutBack(h, b);
    forall k {:trigger g.free[k]} | 0 <= k < CLASSES
      ensures Represents(Counted(m, b), ListAt(k), g.free[k])
    {
      CountedList(m, h, b, k);
    }
    forall x {:trigger g.arenas[x]} | x in g.arenas
      ensures Header(Counted(m, b), x, g.arenas[x])
    {
      CountedHeader(m, h, b, x);
    }
  }

  // ---- retiring an arena ----

  lemma ExceptIs(li: nat, q: seq<nat>, k: nat)
    requires Apart(li, q) && k < |q|
    ensures Except(q, k) == Without<nat>(q, q[k])
  {
    forall j | 0 <= j < k
      ensures q[j] != q[k]
    {
      assert NodesApart(q[j], q[k]);
    }
    WithoutAt<nat>(q, k);
  }

  lemma OthersAreKept(q: seq<nat>, k: nat, x: nat)
    requires k < |q| && x in q && x != q[k]
    ensures x in Except(q, k)
  {
    var i :| 0 <= i < |q| && q[i] == x;
    assert Except(q, k)[if i < k then i else i - 1] == x;
  }

  lemma FootprintShrinks(li: nat, q: seq<nat>, k: nat, w: nat)
    requires k < |q| && Footprint(li, Except(q, k), w)
    ensures Footprint(li, q, w)
  {
    if i :| 0 <= i < |Except(q, k)| && Except(q, k)[i] <= w < Except(q, k)[i] + 16 {
      assert Except(q, k)[i] == q[if i < k then i else i + 1];
    }
  }

  lemma RemoveIs(m: WordMap, li: nat, q: seq<nat>, k: nat)
    requires Represents(m, li, q) && Apart(li, q) && k < |q|
    ensures Represents(Remove(m, li, q[k]), li, Except(q, k)) && Apart(li, Except(q, k))
  {
    LastOf(m, li, q);
    DetachIs(m, li, q, k);
    DetachApart(li, q, k);
  }

  lemma RemoveWrites(m: WordMap, li: nat, q: seq<nat>, k: nat, w: nat)
    requires Represents(m, li, q) && k < |q| && !Footprint(li, q, w)
    ensures Get(Remove(m, li, q[k]), w) == Get(m, w) && !Footprint(li, Except(q, k), w)
  {
    DetachWrites(m, li, q, k, w);
    if Footprint(li, Except(q, k), w) {
      FootprintShrinks(li, q, k, w);
    }
  }

  /// The next block to unlink is on the list, and so are those after it.
  lemma NextToUnlink(c: nat, a: nat, i: nat, q: seq<nat>) returns (k: nat)
    requires i < ArenaSize(c) && c < CLASSES && Apart(ListAt(c), q)
    requires forall j: nat :: i <= j < ArenaSize(c) ==> BlockAt(a, c, j) in q
    ensures k < |q| && q[k] == BlockAt(a, c, i) && Except(q, k) == Without<nat>(q, q[k])
    ensures forall j: nat :: i + 1 <= j < ArenaSize(c) ==> BlockAt(a, c, j) in Except(q, k)
  {
    var f := BlockAt(a, c, i);
    assert f in q;
    k :| k < |q| && q[k] == f;
    ExceptIs(ListAt(c), q, k);
    forall j: nat | i + 1 <= j < ArenaSize(c)
      ensures BlockAt(a, c, j) in Except(q, k)
    {
      ClassBounds(c);
      BlocksApart(a, c, i, j);
      OthersAreKept(q, k, BlockAt(a, c, j));
    }
  }

  lemma UnlinkedStep(m: WordMap, q: seq<nat>, c: nat, a: nat, i: nat)
    requires i < ArenaSize(c)
    ensures var f := BlockAt(a, c, i);
      && Unlinked(m, c, a, i) == Unlinked(Remove(m, ListAt(c), f), c, a, i + 1)
      && Unlink(q, a, c, i) == Unlink(Without<nat>(q, f), a, c, i + 1)
  {
  }

  /// Memory holds the list q of the class, and the blocks from number i on are on it.
  ghost predicate Unlinkable(m: WordMap, c: nat, a: nat, i: nat, q: seq<nat>) {
    && c < CLASSES && i <= ArenaSize(c) && Represents(m, ListAt(c), q) && Apart(ListAt(c), q)
    && forall j: nat :: i <= j < ArenaSize(c) ==> BlockAt(a, c, j) in q
  }

  /// One round of the loop; `w` is any word.
  lemma UnlinkOne(m: WordMap, c: nat, a: nat, i: nat, q: seq<nat>, w: nat) returns (u: WordMap, r: seq<nat>)
    requires Unlinkable(m, c, a, i, q) && i < ArenaSize(c)
    ensures Unlinkable(u, c, a, i + 1, r)
    ensures Unlinked(m, c, a, i) == Unlinked(u, c, a, i + 1) && Unlink(q, a, c, i) == Unlink(r, a, c, i + 1)
    ensures !Footprint(ListAt(c), q, w) ==> Get(u, w) == Get(m, w) && !Footprint(ListAt(c), r, w)
  {
    var k := NextToUnlink(c, a, i, q);
    RemoveIs(m, ListAt(c), q, k);
    UnlinkedStep(m, q, c, a, i);
    u, r := Remove(m, ListAt(c), q[k]), Except(q, k);
    if !Footprint(ListAt(c), q, w) {
      RemoveWrites(m, ListAt(c), q, k, w);
    }
  }

  lemma {:induction false} UnlinkedIs(m: WordMap, c: nat, a: nat, i: nat, q: seq<nat>)
    requires Unlinkable(m, c, a, i, q)
    ensures Represents(Unlinked(m, c, a, i), ListAt(c), Unlink(q, a, c, i))
    decreases ArenaSize(c) - i
  {
    if i < ArenaSize(c) {
      var u, r := UnlinkOne(m, c, a, i, q, 0);
      UnlinkedIs(u, c, a, i + 1, r);
    }
  }

  lemma {:induction false} UnlinkedWrites(m: WordMap, c: nat, a: nat, i: nat, q: seq<nat>, w: nat)
    requires Unlinkable(m, c, a, i, q) && !Footprint(ListAt(c), q, w)
    ensures Get(Unlinked(m, c, a, i), w) == Get(m, w)
    decreases ArenaSize(c) - i
  {
    if i < ArenaSize(c) {
      var u, r := UnlinkOne(m, c, a, i, q, w);
      UnlinkedWrites(u, c, a, i + 1, r, w);
    }
  }

  lemma AllListed(h: Heap, a: nat, j: nat)
    requires Good(h, a) && a in h.arenas && h.arenas[a].freeCount == ArenaSize(h.arenas[a].kind)
    requires j < ArenaSize(h.arenas[a].kind)
    ensures h.arenas[a].kind < CLASSES == |h.free| && BlockAt(a, h.arenas[a].kind, j) in h.free[h.arenas[a].kind]
  {
    AllFree(h, a);
    assert Account(h, a);
    var c := h.arenas[a].kind;
    var b := BlockAt(a, c, j);
    ArenaOfBlock(a, c, j);
    assert b in Blocks(a, c);
    assert b in h.free[c] || b in h.live;
  }

  lemma RetireHolds(m: WordMap, h: Heap, a: nat)
    requires Good(h, a) && Holds(m, h) && a in h.arenas
    requires h.arenas[a].freeCount == ArenaSize(h.arenas[a].kind) && h.arenas[a].kind < |h.free|
    ensures Holds(Unlinked(m, h.arenas[a].kind, a, 0), Retire(h, a))
  {
    var c, g := h.arenas[a].kind, Retire(h, a);
    var u, li := Unlinked(m, c, a, 0), ListAt(c);
    ListIsApart(h, c);
    forall j: nat | j < ArenaSize(c)
      ensures BlockAt(a, c, j) in h.free[c]
    {
      AllListed(h, a, j);
    }
    UnlinkedIs(m, c, a, 0, h.free[c]);
    forall k {:trigger g.free[k]} | 0 <= k < CLASSES
      ensures Represents(u, ListAt(k), g.free[k])
    {
      if k != c {
        forall w: nat {:trigger Get(u, w)} | Footprint(ListAt(k), h.free[k], w)
          ensures Get(u, w) == Get(m, w)
        {
          ListsShareNothing(h, k, c, w);
          UnlinkedWrites(m, c, a, 0, h.free[c], w);
        }
        RepresentsDependsOn(m, u, ListAt(k), h.free[k]);
      }
    }
    forall x {:trigger g.arenas[x]} | x in g.arenas
      ensures Header(u, x, g.arenas[x])
    {
      assert Header(m, x, h.arenas[x]);
      HeaderIsApart(h, x, c, x);
      UnlinkedWrites(m, c, a, 0, h.free[c], x);
      HeaderIsApart(h, x, c, x + 8);
      UnlinkedWrites(m, c, a, 0, h.free[c], x + 8);
      HeaderIsApart(h, x, c, x + 16);
      UnlinkedWrites(m, c, a, 0, h.free[c], x + 16);
    }
  }

  /// kfree with one push.
  lemma ReleaseRefines(s: Machine, h: Heap, b: nat)
    requires Refines(s, h) && b in s.live
    ensures ArenaOf(b) in h.arenas && h.arenas[ArenaOf(b)].kind < |h.free|
    ensures Refines(Release(s, b, false), Kfree(h, b))
  {
    var a := ArenaOf(b);
    KfreeKeeps(h, b);
    PutBackKeeps(h, b);
    CountedHolds(s.words, h, b);
    var c, g := h.arenas[a].kind, PutBack(h, b);
    assert Header(s.words, a, h.arenas[a]) && Header(Counted(s.words, b), a, g.arenas[a]);
    assert ClassAt(ListAt(c)) == c;
    if g.arenas[a].freeCount == ArenaSize(c) {
      RetireHolds(Counted(s.words, b), g, a);
    }
  }

  // ---- runs ----

  /// A store writes one word of an outstanding block, among the bytes that were asked for.
  datatype Event = Request(size: nat, page: nat) | Return(b: nat) | Store(b: nat, w: nat, value: nat)

  predicate Possible(s: Machine, e: Event) {
    match e
    case Request(_, page) => s.pool != {} ==> page in s.pool
    case Return(b) => b in s.live
    case Store(b, w, _) => b in s.live && b <= w < b + s.live[b] && (w - b) % 8 == 0
  }

  function Step(s: Machine, e: Event): Machine {
    match e
    case Request(size, page) => Alloc(s, size, page).0
    case Return(b) => Release(s, b, false)
    case Store(_, w, value) => s.(words := s.words[w := value])
  }

  predicate Runs(s: Machine, es: seq<Event>)
    decreases |es|
  {
    es == [] || (Possible(s, es[0]) && Runs(Step(s, es[0]), es[1..]))
  }

  function Run(s: Machine, es: seq<Event>): Machine
    decreases |es|
  {
    if es == [] then s else Run(Step(s, es[0]), es[1..])
  }

  predicate NoTiny(es: seq<Event>) {
    forall i :: 0 <= i < |es| ==> !(es[i].Request? && Tiny(es[i].size))
  }

  /// The heap of sequences that goes with the next state.
  ghost function Next(h: Heap, e: Event): Heap
    requires Inv(h)
    requires match e
             case Request(size, page) => !Tiny(size) && (h.pool != {} ==> page in h.pool)
             case Return(b) => b in h.live
             case Store(_, _, _) => true
  {
    match e
    case Request(size, page) => Kmalloc(h, size, page).0
    case Return(b) => KfreeKeeps(h, b); Kfree(h, b)
    case Store(_, _, _) => h
  }

  /// A word of an outstanding block belongs to no list and no header, and to no other block.
  lemma LiveWord(h: Heap, y: nat, w: nat)
    requires Inv(h) && y in h.live && y <= w < y + h.live[y]
    ensures forall c {:trigger h.free[c]} :: 0 <= c < CLASSES ==> !Footprint(ListAt(c), h.free[c], w)
    ensures forall a :: a in h.arenas ==> !(a <= w < a + 24)
    ensures forall x :: x in h.live && x != y ==> ArenaOf(x) in h.arenas && !(x <= w < x + SizeOf(h, x))
    ensures PAGE <= w && ArenaOf(y) in h.arenas && w < ArenaOf(y) + PAGE && ArenaOf(y) <= w
  {
    LiveBlocksAreApart(h, y, y, ArenaOf(y));
    assert Account(h, ArenaOf(y));
    forall c {:trigger h.free[c]} | 0 <= c < CLASSES
      ensures !Footprint(ListAt(c), h.free[c], w)
    {
      forall i | 0 <= i < |h.free[c]|
        ensures !(h.free[c][i] <= w < h.free[c][i] + 16)
      {
        FreeNode(h, c, h.free[c][i]);
        LiveBlocksAreApart(h, y, h.free[c][i], ArenaOf(y));
      }
    }
    forall a | a in h.arenas
      ensures !(a <= w < a + 24)
    {
      LiveBlocksAreApart(h, y, y, a);
    }
    forall x | x in h.live && x != y
      ensures ArenaOf(x) in h.arenas && !(x <= w < x + SizeOf(h, x))
    {
      LiveBlocksAreApart(h, y, x, ArenaOf(y));
    }
  }

  /// A store into an outstanding block leaves the heap alone.
  lemma StoreRefines(s: Machine, h: Heap, b: nat, w: nat, value: nat)
    requires Refines(s, h) && Possible(s, Store(b, w, value))
    ensures Refines(Step(s, Store(b, w, value)), h)
  {
    var u := s.words[w := value];
    LiveWord(h, b, w);
    HoldsDependsOn(s.words, u, h);
  }

  lemma StepRefines(s: Machine, h: Heap, e: Event)
    requires Refines(s, h) && Possible(s, e) && !(e.Request? && Tiny(e.size))
    ensures Refines(Step(s, e), Next(h, e))
  {
    match e
    case Request(size, page) => AllocRefines(s, h, size, page);
    case Return(b) => ReleaseRefines(s, h, b);
    case Store(b, w, value) => StoreRefines(s, h, b, w, value);
  }

  /// Over every run without tiny requests, with any stores into outstanding blocks, memory
  /// holds a heap that satisfies the invariant.
  lemma {:induction false} RunRefines(s: Machine, h: Heap, es: seq<Event>) returns (g: Heap)
    requires Refines(s, h) && Runs(s, es) && NoTiny(es)
    ensures Refines(Run(s, es), g)
    decreases |es|
  {
    if es == [] {
      g := h;
    } else {
      assert !(es[0].Request? && Tiny(es[0].size));
      StepRefines(s, h, es[0]);
      assert NoTiny(es[1..]);
      g := RunRefines(Step(s, es[0]), Next(h, es[0]), es[1..]);
    }
  }

  // ---- a caller's data ----

  predicate Concerns(e: Event, y: nat) {
    !e.Request? && e.b == y
  }

  lemma RequestSpares(s: Machine, h: Heap, size: nat, page: nat, y: nat, w: nat)
    requires Refines(s, h) && (h.pool != {} ==> page in h.pool) && !Tiny(size)
    requires y in h.live && y <= w < y + h.live[y]
    ensures Get(Alloc(s, size, page).0.words, w) == Get(s.words, w)
  {
    FirstClassFits(size, 0);
    SmallestClass(size);
    var c := FirstClass(size, 0);
    LiveWord(h, y, w);
    if size > 0 && c < CLASSES {
      assert Represents(s.words, ListAt(c), h.free[c]);
      if h.free[c] != [] {
        TakingSpares(s.words, h, c, y, w);
      } else if h.pool != {} {
        CarvingSpares(s.words, h, c, page, y, w);
      }
    }
  }

  lemma TakingSpares(m: WordMap, h: Heap, c: nat, y: nat, w: nat)
    requires Placed(h) && Lives(h) && Holds(m, h) && c < CLASSES && h.free[c] != [] && y in h.live
    requires !Footprint(ListAt(c), h.free[c], w) && y <= w < y + h.live[y]
    requires forall a :: a in h.arenas ==> !(a <= w < a + 24)
    ensures Get(Taken(m, c), w) == Get(m, w)
  {
    var b := h.free[c][0];
    assert b in h.free[c];
    FreeNode(h, c, b);
    assert Belongs(h, h.arenas[ArenaOf(y)].kind, y);
    BelongingApart(h, c, b, h.arenas[ArenaOf(y)].kind, y);
    TakenWrites(m, c, h.free[c], w);
  }

  lemma CarvingSpares(m: WordMap, h: Heap, c: nat, page: nat, y: nat, w: nat)
    requires Inv(h) && Holds(m, h) && 0 < c < CLASSES && h.free[c] == [] && page in h.pool
    requires y in h.live && y <= w < y + h.live[y]
    ensures Get(Taken(NewArena(m, c, page), c), w) == Get(m, w)
  {
    var u := Carve(h, c, page);
    LiveWord(h, y, w);
    CarveKeeps(h, c, page);
    NewArenaHolds(m, h, c, page);
    ArenaOutsidePage(h, ArenaOf(y), page);
    NewArenaWrites(m, h, c, page, w);
    forall i | 0 <= i < |u.free[c]|
      ensures page <= u.free[c][i] && u.free[c][i] + 16 <= page + PAGE
    {
      FreshArena(page, c);
      FreeNode(u, c, u.free[c][i]);
    }
    TakingSpares(NewArena(m, c, page), u, c, y, w);
  }

  lemma ReturnSpares(s: Machine, h: Heap, b: nat, y: nat, w: nat)
    requires Refines(s, h) && b in h.live && y in h.live && y != b && y <= w < y + h.live[y]
    ensures Get(Release(s, b, false).words, w) == Get(s.words, w)
  {
    var c := PutBackPlaced(h, b);
    var g, a := PutBack(h, b), ArenaOf(b);
    LiveWord(h, y, w);
    PutBackKeeps(h, b);
    LiveBlock(h, b);
    ClassBounds(c);
    CountedHolds(s.words, h, b);
    assert h.live[y] > 0;
    forall i | 0 <= i < |g.free[c]|
      ensures !(g.free[c][i] <= w < g.free[c][i] + 16)
    {
      if i < |h.free[c]| {
        assert g.free[c][i] == h.free[c][i];
      } else {
        assert g.free[c][i] == b;
      }
    }
    assert Header(s.words, a, h.arenas[a]) && ClassAt(ListAt(c)) == c;
    CountedWrites(s.words, c, h.free[c], b, w);
    if g.arenas[a].freeCount == ArenaSize(c) {
      ListIsApart(g, c);
      forall j: nat | j < ArenaSize(c)
        ensures BlockAt(a, c, j) in g.free[c]
      {
        AllListed(g, a, j);
      }
      UnlinkedWrites(Counted(s.words, b), c, a, 0, g.free[c], w);
    }
  }

  lemma StepKeepsLive(s: Machine, h: Heap, e: Event, y: nat)
    requires Refines(s, h) && Possible(s, e) && !(e.Request? && Tiny(e.size)) && !Concerns(e, y) && y in h.live
    ensures y in Next(h, e).live && Next(h, e).live[y] == h.live[y]
  {
    match e
    case Request(size, page) => KmallocKeeps(h, size, page);
    case Return(b) => PageReturnedWithLast(h, b);
    case Store(_, _, _) =>
  }

  lemma StepSpares(s: Machine, h: Heap, e: Event, y: nat, w: nat)
    requires Refines(s, h) && Possible(s, e) && !(e.Request? && Tiny(e.size)) && !Concerns(e, y)
    requires y in h.live && y <= w < y + h.live[y] && (w - y) % 8 == 0
    ensures Get(Step(s, e).words, w) == Get(s.words, w)
  {
    match e
    case Request(size, page) => RequestSpares(s, h, size, page, y, w);
    case Return(b) => ReturnSpares(s, h, b, y, w);
    case Store(b, v, _) =>
      LiveWord(h, y, w);
      LiveWord(h, b, v);
  }

  /// What the owner of a block has stored stays there, whatever is requested, returned and
  /// stored elsewhere meanwhile, as long as nobody makes a tiny request.
  lemma {:induction false} DataSurvives(s: Machine, h: Heap, es: seq<Event>, y: nat, w: nat)
    requires Refines(s, h) && Runs(s, es) && NoTiny(es) && forall e <- es :: !Concerns(e, y)
    requires y in h.live && y <= w < y + h.live[y] && (w - y) % 8 == 0
    ensures Get(Run(s, es).words, w) == Get(s.words, w)
    decreases |es|
  {
    if es != [] {
      assert !(es[0].Request? && Tiny(es[0].size)) && !Concerns(es[0], y);
      StepRefines(s, h, es[0]);
      StepKeepsLive(s, h, es[0], y);
      StepSpares(s, h, es[0], y, w);
      assert NoTiny(es[1..]);
      DataSurvives(Step(s, es[0]), Next(h, es[0]), es[1..], y, w);
    }
  }

  /// A block is zero on return and stays so until its owner stores into it.
  lemma FreshBlockStaysZero(s: Machine, h: Heap, size: nat, page: nat, es: seq<Event>, w: nat)
    requires Refines(s, h) && Possible(s, Request(size, page)) && !Tiny(size)
    requires Kmalloc(h, size, page).1.Block?
    requires Runs(Step(s, Request(size, page)), es) && NoTiny(es)
    requires var b := Kmalloc(h, size, page).1.addr;
             b <= w < b + size && (w - b) % 8 == 0 && forall e <- es :: !Concerns(e, b)
    ensures Get(Run(Step(s, Request(size, page)), es).words, w) == 0
  {
    var t, b := Step(s, Request(size, page)), Kmalloc(h, size, page).1.addr;
    AllocRefines(s, h, size, page);
    KmallocKeeps(h, size, page);
    ReturnedZero(s, h, size, page, w);
    DataSurvives(t, Kmalloc(h, size, page).0, es, b, w);
  }

  lemma ReturnedZero(s: Machine, h: Heap, size: nat, page: nat, w: nat)
    requires Refines(s, h) && (h.pool != {} ==> page in h.pool) && !Tiny(size)
    requires Kmalloc(h, size, page).1.Block?
    requires var b := Kmalloc(h, size, page).1.addr; b <= w < b + size
    ensures Get(Alloc(s, size, page).0.words, w) == 0
  {
    FirstClassFits(size, 0);
    SmallestClass(size);
    AllocRefines(s, h, size, page);
    KmallocKeeps(h, size, page);
    var c, g := FirstClass(size, 0), Kmalloc(h, size, page).0;
    var b := Kmalloc(h, size, page).1.addr;
    var u := if Empty(s.words, ListAt(c)) then NewArena(s.words, c, page) else s.words;
    LiveWord(g, b, w);
    ClearedIs(Detach(u, ListAt(c), b), b, BlockSize(c), w);
  }

  // ---- the class of 8-byte blocks ----

  /// Block i of an arena of 8-byte blocks.
  function TinyAt(a: nat, i: nat): nat {
    a + 24 + 8 * i
  }

  lemma TinyBlock(a: nat, i: nat)
    ensures BlockAt(a, 0, i) == TinyAt(a, i)
  {
    assert BlockSize(0) == 8;
  }

  /// The list of n neighbouring 8-byte blocks: each but the first points back at itself.
  ghost predicate TinyList(m: WordMap, a: nat, n: nat) {
    && Get(m, TinyAt(a, 0)) == 64 && Get(m, 72) == TinyAt(a, 0)
    && (forall i: nat {:trigger TinyAt(a, i)} :: 0 < i < n ==> Get(m, TinyAt(a, i)) == TinyAt(a, i))
    && Get(m, TinyAt(a, n)) == 80 && n > 0 && Get(m, 80) == TinyAt(a, n - 1) && Get(m, 96) == n
  }

  lemma TinyFirst(m: WordMap, a: nat)
    requires Get(m, 96) == 0 && PAGE <= a
    ensures TinyList(PushBack(m, 64, TinyAt(a, 0)), a, 1)
  {
  }

  lemma TinyNext(m: WordMap, a: nat, n: nat)
    requires TinyList(m, a, n) && PAGE <= a
    ensures TinyList(PushBack(m, 64, TinyAt(a, n)), a, n + 1)
  {
    var u := PushBack(m, 64, TinyAt(a, n));
    assert TinyAt(a, n - 1) + 8 == TinyAt(a, n) && TinyAt(a, n) + 8 == TinyAt(a, n + 1);
    forall i: nat {:trigger TinyAt(a, i)} | 0 < i < n + 1
      ensures Get(u, TinyAt(a, i)) == TinyAt(a, i)
    {
    }
  }

  lemma {:induction false} TinyPushed(m: WordMap, a: nat, n: nat)
    requires 0 < n && Get(m, 96) == 0 && PAGE <= a
    ensures TinyList(Pushed(m, 0, a, n), a, n)
    decreases n
  {
    TinyBlock(a, n - 1);
    if n == 1 {
      assert Pushed(m, 0, a, 0) == m;
      TinyFirst(m, a);
    } else {
      TinyPushed(m, a, n - 1);
      TinyNext(Pushed(m, 0, a, n - 1), a, n - 1);
    }
  }

  lemma TinyListIsNone(m: WordMap, a: nat, n: nat, q: seq<nat>)
    requires TinyList(m, a, n) && |q| > 1 && q[0] == TinyAt(a, 0) && q[1] == TinyAt(a, 1) && 1 < n
    ensures !Represents(m, 64, q)
  {
    var d := Chain(64, q);
    assert d[1] == q[0] && d[2] == q[1];
    assert !LinkAt(m, d, 1);
  }

  /// The list that carving makes is the sequence of the blocks exactly when a block has room
  /// for the two links.
  lemma CarvedListIff(m: WordMap, c: nat, a: nat)
    requires c < CLASSES && a % 0x20_0000 == 0 && PAGE <= a && Represents(m, ListAt(c), [])
    ensures Represents(Pushed(m, c, a, ArenaSize(c)), ListAt(c), Carved(a, c, 0)) <==> LINKS <= BlockSize(c)
  {
    ClassBounds(c);
    CarvedPrefix(a, c, 2);
    if c == 0 {
      TinyPushed(m, a, ArenaSize(0));
      TinyBlock(a, 0);
      TinyBlock(a, 1);
      assert BlockSize(0) == 8;
      TinyListIsNone(Pushed(m, 0, a, ArenaSize(0)), a, ArenaSize(0), Carved(a, 0, 0));
    } else {
      CarvedApart(c, a);
      PushedIs(m, c, a, ArenaSize(c));
      assert Carved(a, c, 0)[..ArenaSize(c)] == Carved(a, c, 0);
    }
  }

  lemma CarvedNodesApart(c: nat, a: nat, i: nat, j: nat)
    requires 0 < c < CLASSES && i < j < ArenaSize(c)
    ensures NodesApart(BlockAt(a, c, i), BlockAt(a, c, j))
  {
    ClassBounds(c);
    BlocksApart(a, c, i, j);
  }

  lemma CarvedApart(c: nat, a: nat)
    requires 0 < c < CLASSES && PAGE <= a
    ensures Apart(ListAt(c), Carved(a, c, 0))
  {
    CarvedPrefix(a, c, ArenaSize(c));
    var q, n := Carved(a, c, 0), ArenaSize(c);
    forall i {:trigger q[i]} | 0 <= i < n
      ensures OutsideList(ListAt(c), q[i])
    {
      assert a <= BlockAt(a, c, i);
    }
    forall i, j {:trigger q[i], q[j]} | 0 <= i < j < n
      ensures NodesApart(q[i], q[j])
    {
      CarvedNodesApart(c, a, i, j);
    }
  }

  // What four requests for 8 bytes and one return do to the words of the arena at a. T stands
  // for TinyAt below: 72 is the head's next, 80 and 88 are the tail's links, 96 is the size.

  ghost predicate TinyArena(m: WordMap, a: nat, free: nat) {
    Get(m, a + 8) == 64 && Get(m, a + 16) == free && Get(m, TinyAt(a, 3)) == TinyAt(a, 3)
  }

  lemma TinyArenaOf(a: nat, i: nat)
    requires a % 0x20_0000 == 0 && i < 262141
    ensures ArenaOf(TinyAt(a, i)) == a
  {
    WithinPage(a / 0x20_0000, 24 + 8 * i);
  }

  lemma TinyClass()
    ensures FirstClass(8, 0) == 0 && BlockSize(0) == 8 && ArenaSize(0) == 262141
  {
    SmallestClass(8);
    assert BlockSize(0) == 8;
  }

  lemma TinyCarved(m: WordMap, a: nat)
    requires Get(m, 96) == 0 && PAGE <= a
    ensures TinyList(NewArena(m, 0, a), a, 262141) && TinyArena(NewArena(m, 0, a), a, 262141)
  {
    TinyClass();
    BlankIs(m, 0, a, 96);
    TinyPushed(Blank(m, 0, a), a, 262141);
    TinyHeader(Blank(m, 0, a), a, 262141);
  }

  lemma TinyPushKeepsHeader(m: WordMap, a: nat, n: nat)
    requires PAGE <= a && ((Get(m, 96) == 0 && n == 0) || TinyList(m, a, n))
    ensures Get(PushBack(m, 64, TinyAt(a, n)), a + 8) == Get(m, a + 8)
    ensures Get(PushBack(m, 64, TinyAt(a, n)), a + 16) == Get(m, a + 16)
  {
  }

  lemma {:induction false} TinyHeader(m: WordMap, a: nat, n: nat)
    requires 0 < n && Get(m, 96) == 0 && PAGE <= a
    ensures Get(Pushed(m, 0, a, n), a + 8) == Get(m, a + 8) && Get(Pushed(m, 0, a, n), a + 16) == Get(m, a + 16)
    decreases n
  {
    TinyBlock(a, n - 1);
    var u := Pushed(m, 0, a, n - 1);
    if n == 1 {
      assert u == m;
    } else {
      TinyHeader(m, a, n - 1);
      TinyPushed(m, a, n - 1);
    }
    TinyPushKeepsHeader(u, a, n - 1);
  }

  /// A request takes block i, whose links lie in its own word and in that of block i + 1.
  lemma TinyTaken(m: WordMap, a: nat, i: nat)
    requires PAGE <= a && a % 0x20_0000 == 0 && i < 262140 && Get(m, 72) == TinyAt(a, i)
    requires Get(m, TinyAt(a, i)) == 64 && Get(m, TinyAt(a, i + 1)) == TinyAt(a, i + 1)
    ensures var u := Taken(m, 0);
      && Get(u, 72) == TinyAt(a, i + 1) && Get(u, TinyAt(a, i + 1)) == 64
      && Get(u, 96) == Less(Get(m, 96)) && Get(u, a + 16) == Less(Get(m, a + 16))
    ensures forall w: nat {:trigger Get(Taken(m, 0), w)} ::
      w !in {72, 96, a + 16} && !(TinyAt(a, i) <= w <= TinyAt(a, i + 1)) ==> Get(Taken(m, 0), w) == Get(m, w)
  {
    TinyClass();
    TinyArenaOf(a, i);
    assert TinyAt(a, i) + 8 == TinyAt(a, i + 1);
  }

  /// The first request takes block 0.
  lemma TinyOne(m: WordMap, a: nat)
    requires TinyList(m, a, 262141) && TinyArena(m, a, 262141) && PAGE <= a && a % 0x20_0000 == 0
    ensures var u := Taken(m, 0);
      && Front(m, 64) == TinyAt(a, 0) && TinyArena(u, a, 262140) && Get(u, 72) == TinyAt(a, 1)
      && Get(u, TinyAt(a, 1)) == 64 && Get(u, TinyAt(a, 2)) == TinyAt(a, 2)
      && Get(u, 80) == TinyAt(a, 262140) && Get(u, 96) == 262140
  {
    assert Get(m, TinyAt(a, 1)) == TinyAt(a, 1) && Get(m, TinyAt(a, 2)) == TinyAt(a, 2);
    TinyTaken(m, a, 0);
  }

  /// The second takes block 1.
  lemma TinyTwo(m: WordMap, a: nat)
    requires TinyArena(m, a, 262140) && PAGE <= a && a % 0x20_0000 == 0 && Get(m, 72) == TinyAt(a, 1)
    requires Get(m, TinyAt(a, 1)) == 64 && Get(m, TinyAt(a, 2)) == TinyAt(a, 2)
    requires Get(m, 80) == TinyAt(a, 262140) && Get(m, 96) == 262140
    ensures var u := Taken(m, 0);
      && Front(m, 64) == TinyAt(a, 1) && TinyArena(u, a, 262139) && Get(u, 72) == TinyAt(a, 2)
      && Get(u, 80) == TinyAt(a, 262140) && Get(u, 96) == 262139
  {
    TinyTaken(m, a, 1);
  }

  /// Returning block 1 writes the tail into block 2, which is in front.
  lemma TinyThree(m: WordMap, a: nat)
    requires TinyArena(m, a, 262139) && PAGE <= a && a % 0x20_0000 == 0
    requires Get(m, 72) == TinyAt(a, 2) && Get(m, 80) == TinyAt(a, 262140) && Get(m, 96) == 262139
    ensures var u := Counted(m, TinyAt(a, 1));
      && TinyArena(u, a, 262140) && Get(u, 72) == TinyAt(a, 2) && Get(u, TinyAt(a, 2)) == 80 && Get(u, 96) == 262140
  {
    TinyArenaOf(a, 1);
    assert TinyAt(a, 1) + 8 == TinyAt(a, 2) && TinyAt(a, 262140) + 8 == TinyAt(a, 262141);
  }

  /// The third request takes block 2 and leaves it in front.
  lemma TinyFour(m: WordMap, a: nat)
    requires TinyArena(m, a, 262140) && PAGE <= a && a % 0x20_0000 == 0
    requires Get(m, 72) == TinyAt(a, 2) && Get(m, TinyAt(a, 2)) == 80 && Get(m, 96) == 262140
    ensures var u := Taken(m, 0);
      && Front(m, 64) == TinyAt(a, 2) && Get(u, 72) == TinyAt(a, 2)
      && Get(u, TinyAt(a, 3)) == 80 && Get(u, 96) == 262139
  {
    TinyClass();
    TinyArenaOf(a, 2);
    assert TinyAt(a, 2) + 8 == TinyAt(a, 3);
  }

  lemma PoolPage(h: Heap, page: nat)
    requires Inv(h) && page in h.pool
    ensures PAGE <= page && page % 0x20_0000 == 0 && page !in h.arenas
  {
    PageIsNew(h, page);
  }

  /// No block of the 8-byte class exists in a heap that satisfies the invariant.
  lemma NoTinyBlocks(s: Machine, h: Heap)
    requires Refines(s, h)
    ensures Get(s.words, 96) == 0
  {
    assert Represents(s.words, ListAt(0), h.free[0]);
    if h.free[0] != [] {
      assert h.free[0][0] in h.free[0];
      FreeNode(h, 0, h.free[0][0]);
    }
  }

  /// The state after requesting two 8-byte blocks, returning the second, and requesting
  /// another one.
  function TinyRun(s: Machine, page: nat): Machine {
    var s2 := Alloc(Alloc(s, 8, page).0, 8, page).0;
    Alloc(Release(s2, TinyAt(page, 1), false), 8, page).0
  }

  lemma TinyAlloc(s: Machine, page: nat)
    requires Get(s.words, 96) > 0
    ensures var b := Front(s.words, 64);
      Alloc(s, 8, page) == (Machine(Taken(s.words, 0), s.pool, s.live[b := 8]), Block(b))
  {
    TinyClass();
  }

  lemma TinyFirstAlloc(s: Machine, page: nat)
    requires Get(s.words, 96) == 0 && page in s.pool
    ensures var u := NewArena(s.words, 0, page);
      Alloc(s, 8, page).0 == Machine(Taken(u, 0), s.pool - {page}, s.live[Front(u, 64) := 8])
  {
    TinyClass();
  }

  lemma TinyRelease(s: Machine, page: nat)
    requires page % 0x20_0000 == 0 && TinyArena(Counted(s.words, TinyAt(page, 1)), page, 262140)
    requires Get(s.words, page + 8) == 64
    ensures Release(s, TinyAt(page, 1), false)
         == Machine(Counted(s.words, TinyAt(page, 1)), s.pool, s.live - {TinyAt(page, 1)})
  {
    TinyClass();
    TinyArenaOf(page, 1);
  }

  lemma TinyRunIs(s: Machine, h: Heap, page: nat)
    requires Refines(s, h) && page in h.pool
    ensures var u := TinyRun(s, page);
      && Get(u.words, 72) == TinyAt(page, 2) && Get(u.words, TinyAt(page, 3)) == 80 && Get(u.words, 96) == 262139
      && TinyAt(page, 2) in u.live && u.live[TinyAt(page, 2)] == 8
  {
    PoolPage(h, page);
    NoTinyBlocks(s, h);
    var m0 := NewArena(s.words, 0, page);
    TinyCarved(s.words, page);
    TinyFirstAlloc(s, page);
    TinyOne(m0, page);
    var m1 := Taken(m0, 0);
    TinyAlloc(Alloc(s, 8, page).0, page);
    TinyTwo(m1, page);
    var m2 := Taken(m1, 0);
    var s2 := Alloc(Alloc(s, 8, page).0, 8, page).0;
    TinyThree(m2, page);
    TinyRelease(s2, page);
    TinyAlloc(Release(s2, TinyAt(page, 1), false), page);
    TinyFour(Counted(m2, TinyAt(page, 1)), page);
  }

  // The last 8-byte block ends with its page, and its second link lies behind it.

  lemma TinyPushWrites(m: WordMap, a: nat, n: nat, w: nat)
    requires PAGE <= a && ((Get(m, 96) == 0 && n == 0) || TinyList(m, a, n))
    requires w !in {72, 80, 96} && (w < a || TinyAt(a, n + 1) < w)
    ensures Get(PushBack(m, 64, TinyAt(a, n)), w) == Get(m, w)
  {
    assert n > 0 ==> Get(m, 80) + 8 == TinyAt(a, n);
  }

  lemma {:induction false} TinyPushedWrites(m: WordMap, a: nat, n: nat, w: nat)
    requires Get(m, 96) == 0 && PAGE <= a && w !in {72, 80, 96} && (w < a || TinyAt(a, n) < w)
    ensures Get(Pushed(m, 0, a, n), w) == Get(m, w)
    decreases n
  {
    if n > 0 {
      TinyBlock(a, n - 1);
      TinyPushedWrites(m, a, n - 1, w);
      if n > 1 {
        TinyPushed(m, a, n - 1);
      }
      TinyPushWrites(Pushed(m, 0, a, n - 1), a, n - 1, w);
    }
  }

  /// Carving for 8 bytes leaves all words outside the page alone, but for those of the list and
  /// the first word of the next page, where the tail of the list ends up.
  lemma TinyArenaWrites(m: WordMap, a: nat, w: nat)
    requires Get(m, 96) == 0 && PAGE <= a && PAGE <= w && (w < a || a + PAGE <= w)
    ensures Get(NewArena(m, 0, a), w) == if w == a + PAGE then 80 else Get(m, w)
  {
    TinyClass();
    BlankIs(m, 0, a, 96);
    BlankIs(m, 0, a, w);
    TinyPushedSpares(Blank(m, 0, a), a, ArenaSize(0), w);
  }

  lemma TinyPushedSpares(m: WordMap, a: nat, n: nat, w: nat)
    requires Get(m, 96) == 0 && PAGE <= a && PAGE <= w && 0 < n && (w < a || TinyAt(a, n) <= w)
    ensures Get(Pushed(m, 0, a, n), w) == if w == TinyAt(a, n) then 80 else Get(m, w)
  {
    if w == TinyAt(a, n) {
      TinyPushed(m, a, n);
    } else {
      TinyPushedWrites(m, a, n, w);
    }
  }

  lemma TinyAllocWrites(s: Machine, h: Heap, page: nat, w: nat)
    requires Refines(s, h) && page in h.pool && PAGE <= w && (w < page || page + PAGE <= w)
    ensures Get(Alloc(s, 8, page).0.words, w) == if w == page + PAGE then 80 else Get(s.words, w)
  {
    PoolPage(h, page);
    NoTinyBlocks(s, h);
    TinyFirstAlloc(s, page);
    TinyCarved(s.words, page);
    TinyTakenSpares(NewArena(s.words, 0, page), page, w);
    TinyArenaWrites(s.words, page, w);
  }

  lemma TinyTakenSpares(m: WordMap, a: nat, w: nat)
    requires TinyList(m, a, 262141) && PAGE <= a && a % 0x20_0000 == 0 && PAGE <= w && (w < a || a + PAGE <= w)
    ensures Get(Taken(m, 0), w) == Get(m, w)
  {
    assert Get(m, TinyAt(a, 1)) == TinyAt(a, 1);
    TinyTaken(m, a, 0);
  }

  /// One request for 8 bytes destroys the magic word of another arena exactly when the page
  /// behind the one it carves is an arena.
  lemma MagicDestroyedIff(s: Machine, h: Heap, page: nat)
    requires Refines(s, h) && page in h.pool
    ensures (exists x: nat {:trigger h.arenas[x]} :: x in h.arenas && Get(Alloc(s, 8, page).0.words, x) != MAGIC)
       <==> page + PAGE in h.arenas
  {
    if page + PAGE in h.arenas {
      MagicAfterCarving(s, h, page, page + PAGE);
      assert h.arenas[page + PAGE] == h.arenas[page + PAGE];
    } else {
      forall x: nat {:trigger h.arenas[x]} | x in h.arenas
        ensures Get(Alloc(s, 8, page).0.words, x) == MAGIC
      {
        MagicAfterCarving(s, h, page, x);
      }
    }
  }

  lemma MagicAfterCarving(s: Machine, h: Heap, page: nat, x: nat)
    requires Refines(s, h) && page in h.pool && x in h.arenas
    ensures Get(Alloc(s, 8, page).0.words, x) == if x == page + PAGE then 80 else MAGIC
  {
    assert Header(s.words, x, h.arenas[x]);
    ArenaOutsidePage(h, x, page);
    ArenaIsPage(h, x);
    TinyAllocWrites(s, h, page, x);
  }

  /// From every good heap with a page left: after two requests for 8 bytes and one return, a
  /// third and a fourth request both get the same block.
  lemma TinyBlockGivenTwice(s: Machine, h: Heap, page: nat)
    requires Refines(s, h) && page in h.pool
    ensures var u := TinyRun(s, page);
      TinyAt(page, 2) in u.live && Alloc(u, 8, page).1 == Block(TinyAt(page, 2))
  {
    TinyRunIs(s, h, page);
    TinyAlloc(TinyRun(s, page), page);
  }

  lemma TinyTake(m: WordMap, a: nat, y: nat)
    requires Get(m, 72) == TinyAt(a, 2) && Get(m, TinyAt(a, 2)) == y && Get(m, TinyAt(a, 3)) == 80
    requires Get(m, 96) == 262139 && PAGE <= a && a % 0x20_0000 == 0 && PAGE <= y
    requires y + 8 < a || a + PAGE <= y
    ensures Get(Taken(m, 0), y + 8) == 80
  {
    TinyClass();
    TinyArenaOf(a, 2);
    assert TinyAt(a, 2) + 8 == TinyAt(a, 3);
  }

  lemma TinyStoreThenTake(t: Machine, page: nat, y: nat)
    requires Get(t.words, 72) == TinyAt(page, 2) && Get(t.words, TinyAt(page, 3)) == 80 && Get(t.words, 96) == 262139
    requires TinyAt(page, 2) in t.live && t.live[TinyAt(page, 2)] == 8
    requires PAGE <= page && page % 0x20_0000 == 0 && PAGE <= y && (y + 8 < page || page + PAGE <= y)
    ensures Possible(t, Store(TinyAt(page, 2), TinyAt(page, 2), y))
    ensures Get(Alloc(Step(t, Store(TinyAt(page, 2), TinyAt(page, 2), y)), 8, page).0.words, y + 8) == 80
  {
    var u := Step(t, Store(TinyAt(page, 2), TinyAt(page, 2), y));
    TinyTake(u.words, page, y);
    TinyAlloc(u, page);
  }

  /// Once the owner of that block has stored the number y in it, the next request for 8 bytes
  /// writes into the outstanding block y.
  lemma TinyRequestOverwrites(s: Machine, h: Heap, page: nat, y: nat)
    requires Refines(s, h) && page in h.pool && y in h.live
    ensures Possible(TinyRun(s, page), Store(TinyAt(page, 2), TinyAt(page, 2), y))
    ensures var u := Step(TinyRun(s, page), Store(TinyAt(page, 2), TinyAt(page, 2), y));
      Get(Alloc(u, 8, page).0.words, y + 8) == 80
  {
    TinyRunIs(s, h, page);
    OutsidePoolPage(h, page, y);
    PoolPage(h, page);
    TinyStoreThenTake(TinyRun(s, page), page, y);
  }

  lemma OutsidePoolPage(h: Heap, page: nat, y: nat)
    requires Inv(h) && page in h.pool && y in h.live
    ensures PAGE <= y && (y + 8 < page || page + PAGE <= y)
  {
    LiveBlock(h, y);
    ClassBounds(h.arenas[ArenaOf(y)].kind);
    BlocksAre(ArenaOf(y), h.arenas[ArenaOf(y)].kind, y);
    ArenaOutsidePage(h, ArenaOf(y), page);
  }

  // ---- kfree as it is written ----

  /// With both pushes, memory still holds a good heap exactly when the block was the last
  /// outstanding one of its arena.
  lemma DoublePushUnlessLast(s: Machine, h: Heap, b: nat)
    requires Refines(s, h) && b in h.live
    ensures (exists g: Heap :: Refines(Release(s, b, true), g))
       <==> forall x :: x in h.live && x != b ==> ArenaOf(x) != ArenaOf(b)
  {
    LastBlock(h, b);
    ReleaseRefines(s, h, b);
    var a := ArenaOf(b);
    var c := PutBackPlaced(h, b);
    CountedHolds(s.words, h, b);
    assert Header(s.words, a, h.arenas[a]) && ClassAt(ListAt(c)) == c;
    assert Header(Counted(s.words, b), a, PutBack(h, b).arenas[a]);
    if h.arenas[a].freeCount + 1 == ArenaSize(c) {
      assert Release(s, b, true) == Release(s, b, false);
    } else {
      forall g: Heap
        ensures !Refines(Release(s, b, true), g)
      {
        DoublePushHoldsNone(s, h, b, g);
      }
    }
  }

  lemma DoublePushHoldsNone(s: Machine, h: Heap, b: nat, g: Heap)
    requires Refines(s, h) && b in h.live && ArenaOf(b) in h.arenas
    requires h.arenas[ArenaOf(b)].freeCount + 1 != ArenaSize(h.arenas[ArenaOf(b)].kind)
    ensures !Refines(Release(s, b, true), g)
  {
    var c := DoublePushDoubles(s, h, b);
    if |g.free| == CLASSES {
      DoubledIsNoList(Release(s, b, true).words, ListAt(c), h.free[c], b, g.free[c]);
    }
  }

  /// The list of the class after both pushes.
  lemma DoublePushDoubles(s: Machine, h: Heap, b: nat) returns (c: nat)
    requires Refines(s, h) && b in h.live && ArenaOf(b) in h.arenas
    requires h.arenas[ArenaOf(b)].freeCount + 1 != ArenaSize(h.arenas[ArenaOf(b)].kind)
    ensures c < CLASSES == |h.free| && c == h.arenas[ArenaOf(b)].kind && Apart(ListAt(c), h.free[c] + [b])
    ensures Doubled(Release(s, b, true).words, ListAt(c), h.free[c], b) && Get(Release(s, b, true).words, b) == b
  {
    c := PutBackPlaced(h, b);
    var a, g := ArenaOf(b), PutBack(h, b);
    CountedHolds(s.words, h, b);
    ListIsApart(g, c);
    assert Header(s.words, a, h.arenas[a]) && ClassAt(ListAt(c)) == c;
    assert Header(Counted(s.words, b), a, g.arenas[a]);
    assert Represents(Counted(s.words, b), ListAt(c), g.free[c]);
    SecondPush(Counted(s.words, b), ListAt(c), h.free[c], b);
  }

  /// Otherwise, on a list that was not empty, popping gives its blocks, the freed block, and
  /// then the list's own tail sentinel as if it were a block; on an empty list it gives the
  /// freed block again and again.
  lemma DoublePushOutcome(s: Machine, h: Heap, b: nat, k: nat)
    requires Refines(s, h) && b in h.live && ArenaOf(b) in h.arenas && h.arenas[ArenaOf(b)].kind < |h.free|
    requires exists x :: x in h.live && x != b && ArenaOf(x) == ArenaOf(b)
    ensures var m, c := Release(s, b, true).words, h.arenas[ArenaOf(b)].kind;
      var q, li := h.free[c], ListAt(c);
      && (q != [] && k <= |q| + 1 ==>
            !Empty(Pops(m, li, k), li) && Front(Pops(m, li, k), li) == (q + [b] + [li + 16])[k])
      && (q == [] ==> Front(m, li) == b && Front(Detach(m, li, b), li) == b && !Empty(Detach(m, li, b), li))
  {
    LastBlock(h, b);
    var c := DoublePushDoubles(s, h, b);
    var m, li := Release(s, b, true).words, ListAt(c);
    if h.free[c] != [] {
      if k <= |h.free[c]| + 1 {
        DoubledGivesSentinel(m, li, h.free[c], b, k);
      }
    } else {
      assert h.free[c] + [b] == [b];
      DoubledStaysInFront(m, li, b);
    }
  }
}

/// The functions of heap.c, statement by statement.
module KernelHeaps {
  import opened Heaps
  import opened Links
  import opened HeapWords

  /// list_init: the sentinels point at each other.
  predicate EmptyList(m: WordMap, li: nat) {
    && Get(m, li) == 0 && Get(m, li + 8) == li + 16
    && Get(m, li + 16) == li && Get(m, li + 24) == 0
    && Get(m, li + 32) == 0
  }

  class KernelHeap {
    var words: WordMap
    var pool: set<nat>
    ghost var live: map<nat, nat>

    ghost function Now(): Machine
      reads this
    {
      Machine(words, pool, live)
    }

    /// init_heap, whatever memory held before: every free list is empty.
    constructor (memory: WordMap, pages: set<nat>)
      requires forall p :: p in pages ==> p % 0x20_0000 == 0 && p > 0
      ensures forall c {:trigger ListAt(c)} :: 0 <= c < CLASSES ==> EmptyList(words, ListAt(c))
      ensures Refines(Now(), Heap(seq(CLASSES, i => []), map[], pages, map[]))
    {
      words := memory;
      pool := pages;
      live := map[];
      new;
      var c := 0;
      while c < CLASSES
        invariant c <= CLASSES && pool == pages && live == map[]
        invariant forall k {:trigger ListAt(k)} :: 0 <= k < c ==> EmptyList(words, ListAt(k))
      {
        ListInit(ListAt(c));
        c := c + 1;
      }
      EmptyIsGood(pages);
    }

    method ListInit(li: nat)
      modifies this`words
      ensures EmptyList(words, li)
      ensures forall w: nat {:trigger Get(words, w)} :: w < li || li + 40 <= w ==> Get(words, w) == Get(old(words), w)
    {
      words := words[li := 0];
      words := words[li + 8 := li + 16];
      words := words[li + 16 := li];
      words := words[li + 24 := 0];
      words := words[li + 32 := 0];
    }

    method ListPushBack(li: nat, el: nat)
      modifies this`words
      ensures words == PushBack(old(words), li, el)
    {
      if Get(words, li + 32) == 0 {
        words := words[el := li];
        words := words[li + 8 := el];
      } else {
        var tp := Get(words, li + 16);
        words := words[el := tp];
        words := words[tp + 8 := el];
      }
      words := words[li + 16 := el];
      words := words[el + 8 := li + 16];
      words := words[li + 32 := Get(words, li + 32) + 1];
    }

    /// The links around a node are joined, as list_pop_front and list_remove do.
    method JoinAround(li: nat, el: nat)
      modifies this`words
      ensures words == Detach(old(words), li, el)
    {
      var pr, ne := Get(words, el), Get(words, el + 8);
      words := words[pr + 8 := ne];
      words := words[ne := pr];
      words := words[li + 32 := Less(Get(words, li + 32))];
    }

    method ListRemove(li: nat, el: nat)
      modifies this`words
      ensures words == Remove(old(words), li, el)
    {
      if Get(words, li + 32) != 0 {
        JoinAround(li, el);
      }
    }

    method ClassFor(size: nat) returns (c: nat)
      ensures c == FirstClass(size, 0)
    {
      c := 0;
      while c < CLASSES && BlockSize(c) < size
        invariant 0 <= c <= CLASSES && FirstClass(size, 0) == FirstClass(size, c)
      {
        c := c + 1;
      }
    }

    /// kmalloc; `page` is what page_allocate would return.
    method Malloc(size: nat, page: nat) returns (o: Outcome)
      modifies this
      ensures (Now(), o) == Alloc(old(Now()), size, page)
    {
      if size == 0 {
        return Null;
      }
      var c := ClassFor(size);
      if c == CLASSES {
        return Undefined;
      }
      if Get(words, ListAt(c) + 32) == 0 {
        if pool == {} {
          return NoPage;
        }
        CarveArena(c, page);
      }
      o := PopFirst(c, size);
    }

    /// The loop that turns a page into an arena.
    method CarveArena(c: nat, page: nat)
      modifies this`words, this`pool
      ensures words == NewArena(old(words), c, page) && pool == old(pool) - {page}
    {
      pool := pool - {page};
      words := Cleared(words, page, PAGE);
      words := words[page := MAGIC][page + 8 := ListAt(c)][page + 16 := ArenaSize(c)];
      ghost var blank := words;
      var i := 0;
      while i < ArenaSize(c)
        invariant 0 <= i <= ArenaSize(c) && words == Pushed(blank, c, page, i) && pool == old(pool) - {page}
      {
        ListPushBack(ListAt(c), BlockAt(page, c, i));
        i := i + 1;
      }
    }

    method PopFirst(c: nat, size: nat) returns (o: Outcome)
      modifies this`words, this`live
      ensures words == Taken(old(words), c)
      ensures o == Block(Front(old(words), ListAt(c)))
      ensures live == old(live)[Front(old(words), ListAt(c)) := size]
    {
      var b := Get(words, ListAt(c) + 8);
      JoinAround(ListAt(c), b);
      words := Cleared(words, b, BlockSize(c));
      var a := ArenaOf(b);
      words := words[a + 16 := Less(Get(words, a + 16))];
      live := live[b := size];
      o := Block(b);
    }

    /// The loop that takes an arena's blocks off the list, and page_free.
    method RetireArena(c: nat, a: nat)
      modifies this`words, this`pool
      ensures words == Unlinked(old(words), c, a, 0) && pool == old(pool) + {a}
    {
      var i := 0;
      while i < ArenaSize(c)
        invariant 0 <= i <= ArenaSize(c) && Unlinked(words, c, a, i) == Unlinked(old(words), c, a, 0)
        invariant pool == old(pool)
      {
        ListRemove(ListAt(c), BlockAt(a, c, i));
        i := i + 1;
      }
      pool := pool + {a};
    }

    method PushAndCount(b: nat)
      modifies this`words
      ensures words == Counted(old(words), b)
    {
      var a := ArenaOf(b);
      ListPushBack(Get(words, a + 8), b);
      words := words[a + 16 := Get(words, a + 16) + 1];
    }

    /// kfree; with `twice` as it is written.
    method Free(b: nat, twice: bool)
      modifies this
      ensures Now() == Release(old(Now()), b, twice)
    {
      var a := ArenaOf(b);
      var c := ClassAt(Get(words, a + 8));
      PushAndCount(b);
      live := live - {b};
      if Get(words, a + 16) == ArenaSize(c) {
        RetireArena(c, a);
      } else if twice {
        ListPushBack(ListAt(c), b);
      }
    }
  }
}
