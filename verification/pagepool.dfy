/// The page pools (kern/lib/mem/paging.c) and the buffers of bitmaps
/// (kern/lib/include/kern/util/bitmap.h).

module BitmapBuffers {
  import opened Heaps
  import Words

  /// bitmap_bufsize, in bytes.
  function BufSize(bits: nat): nat {
    (bits + 7) / 8
  }

  /// The bytes of the words that hold the bits.
  function WordBytes(bits: nat): nat {
    (bits + 63) / 64 * 8
  }

  /// sizeof (struct bitmap)
  const BITMAP_HEADER: nat := 16

  /// The byte count covers every word that is accessed exactly when the last word is full
  /// or its last byte is in use.
  lemma BufferCoversWords(bits: nat)
    ensures WordBytes(bits) <= BufSize(bits) <==> bits % 64 == 0 || bits % 64 > 56
  {
    var k, r := bits / 64, bits % 64;
    assert bits == 64 * k + r;
    assert (bits + 7) / 8 == 8 * k + (r + 7) / 8;
    assert (bits + 63) / 64 == k + (r + 63) / 64;
  }

  /// A bitmap from bitmap_create is safe all the same: the block that kmalloc returns for
  /// the header and the byte count reaches to the end of the last word.
  lemma BlockCoversWords(bits: nat)
    ensures var c := FirstClass(BITMAP_HEADER + BufSize(bits), 0);
      c < CLASSES ==> BITMAP_HEADER + WordBytes(bits) <= BlockSize(c)
  {
    var n := BITMAP_HEADER + BufSize(bits);
    var c := FirstClass(n, 0);
    FirstClassFits(n, 0);
    if c < CLASSES {
      RoundToEight(bits);
      HeaderIsTwoWords(BufSize(bits));
      RoundBelow(n, Words.Pow2(c));
    }
  }

  lemma HeaderIsTwoWords(size: nat)
    ensures 8 * ((16 + size + 7) / 8) == 16 + 8 * ((size + 7) / 8)
  {
  }

  lemma RoundBelow(n: nat, p: nat)
    requires n <= 8 * p
    ensures 8 * ((n + 7) / 8) <= 8 * p
  {
  }

  lemma RoundToEight(bits: nat)
    ensures WordBytes(bits) == 8 * ((BufSize(bits) + 7) / 8)
  {
    var k, r := bits / 64, bits % 64;
    assert bits == 64 * k + r;
    assert (bits + 7) / 8 == 8 * k + (r + 7) / 8;
    assert (8 * k + (r + 7) / 8 + 7) / 8 == k + ((r + 7) / 8 + 7) / 8;
    assert (bits + 63) / 64 == k + (r + 63) / 64;
  }
}

module PagePools {
  import opened Bits
  import opened Bitmaps
  import opened Extents
  import opened PageTables
  import opened Words

  const NULL: nat := 0

  /// page_round_up, which adds a whole page even to a multiple.
  function RoundUp(addr: nat): nat {
    addr / 0x20_0000 * 0x20_0000 + 0x20_0000
  }

  /// The page's distance from base in pages; the subtraction wraps at 64 bits.
  function PageNumber(page: nat, base: nat): nat
    requires base < ADDRESSES
  {
    (page + (ADDRESSES - base)) % 0x1_0000_0000_0000_0000 / 0x20_0000
  }

  lemma PageNumberInside(page: nat, base: nat)
    requires base <= page < ADDRESSES
    ensures PageNumber(page, base) == (page - base) / 0x20_0000
  {
    assert (page + (ADDRESSES - base)) % 0x1_0000_0000_0000_0000 == page - base;
  }

  class PagePool {
    const occupancy: Bitmap
    const base: nat
    const pages: nat

    /// The map has one bit more than the pool has pages.
    ghost predicate Valid() {
      occupancy.Valid() && occupancy.bitcount == pages + 1
    }

    ghost function Contents(): seq<bool>
      requires Valid()
      reads occupancy.words
    {
      occupancy.Contents()
    }

    /// The occupancy map lies in the first page, behind a header; `buffer` is what that memory
    /// holds, and nobody clears it. The map has one bit for each page given, although one of
    /// them is the map's own. How many pages the map takes is computed from the pool's page
    /// count before that is set, when it is still zero.
    constructor (pageCount: nat, start: nat, buffer: array<Word>)
      requires 0 < pageCount <= NPOS && pageCount <= ELEM_BITS * buffer.Length
      ensures Valid() && occupancy.bitcount == pageCount && occupancy.words == buffer
      ensures base == start + 0x20_0000 && pages == pageCount - 1
      ensures Contents() == BitsOf(buffer[..], pageCount)
    {
      var unset := 0;
      var bitmapPages := RoundUp(unset) / 0x20_0000;
      var bits := new Bitmap.FromBuffer(pageCount, buffer);
      occupancy := bits;
      base := start + bitmapPages * 0x20_0000;
      pages := pageCount - bitmapPages;
    }

    method Alloc(npages: nat) returns (page: nat)
      requires Valid() && base > 0
      modifies occupancy.words
      ensures var n := FirstRun(old(Contents()), 0, npages, false);
        && page == (if n == NPOS then NULL else base + n * 0x20_0000)
        && Contents() == (if n == NPOS then old(Contents()) else Fill(old(Contents()), n, npages, true))
      ensures npages > 0 ==>
        (page != NULL && !Contains(page + (npages - 1) * 0x20_0000) <==> LeavesPool(old(Contents()), pages, npages))
    {
      if npages > 0 {
        LeavesPoolIff(Contents(), pages, npages);
      }
      var n := occupancy.ScanAndFlip(0, npages, false);
      page := if n == NPOS then NULL else base + n * 0x20_0000;
    }

    /// The subtraction is on 64-bit addresses and wraps.
    method Free(page: nat, npages: nat)
      requires Valid() && page < ADDRESSES && base < ADDRESSES
      modifies occupancy.words
      ensures Contents() == Fill(old(Contents()), PageNumber(page, base), npages, false)
    {
      occupancy.Set(PageNumber(page, base), npages, false);
    }

    /// page_pool_reserve; returns false for a page that is taken, where the kernel panics.
    method Reserve(page: nat) returns (ok: bool)
      requires Valid() && base <= page && (page / 0x20_0000 - base / 0x20_0000) < occupancy.bitcount
      modifies occupancy.words
      ensures var n := page / 0x20_0000 - base / 0x20_0000;
        && ok == !old(Contents())[n]
        && Contents() == (if ok then Fill(old(Contents()), n, 1, true) else old(Contents()))
    {
      var n := page / 0x20_0000 - base / 0x20_0000;
      var taken := occupancy.All(n, 1, true);
      ok := !taken;
      if ok {
        occupancy.Set(n, 1, true);
      }
    }

    predicate Contains(page: nat) {
      base <= page < base + pages * 0x20_0000
    }
  }

  /// No run of the pool's own pages is free, and a run that ends with the bit too many is.
  ghost predicate LeavesPool(s: seq<bool>, pages: nat, npages: nat)
    requires |s| == pages + 1 <= NPOS
  {
    && FirstRun(s[..pages], 0, npages, false) == NPOS
    && npages <= |s| && RunAt(s, |s| - npages, npages, false)
  }

  /// The scan finds a run that ends with the bit too many exactly then. That bit stands for
  /// the page behind the pool, which is where the next pool keeps its own map.
  lemma LeavesPoolIff(s: seq<bool>, pages: nat, npages: nat)
    requires |s| == pages + 1 <= NPOS && npages > 0
    ensures var n := FirstRun(s, 0, npages, false);
      n != NPOS && n + npages > pages <==> LeavesPool(s, pages, npages)
  {
    FirstRunIsScan(s, 0, npages, false);
    FirstRunIsScan(s[..pages], 0, npages, false);
    var n, m := FirstRun(s, 0, npages, false), FirstRun(s[..pages], 0, npages, false);
    if m != NPOS {
      assert RunAt(s, m, npages, false);
    } else if n != NPOS && n + npages <= pages {
      assert RunAt(s[..pages], n, npages, false);
    }
  }

  /// A pool whose pages are all taken gives out the page behind it, once.
  lemma FullPoolGivesOneMore(p: PagePool, s: seq<bool>)
    requires |s| == p.pages + 1 <= NPOS && (forall k :: 0 <= k < p.pages ==> s[k]) && !s[p.pages]
    ensures FirstRun(s, 0, 1, false) == p.pages
    ensures !p.Contains(p.base + p.pages * 0x20_0000)
    ensures FirstRun(Fill(s, p.pages, 1, true), 0, 1, false) == NPOS
  {
    var t := Fill(s, p.pages, 1, true);
    FirstRunIsScan(s, 0, 1, false);
    FirstRunIsScan(t, 0, 1, false);
    assert RunAt(s, p.pages, 1, false);
    forall i: nat
      ensures RunAt(s, i, 1, false) ==> i == p.pages
      ensures !RunAt(t, i, 1, false)
    {
      assert RunAt(s, i, 1, false) ==> !s[i];
      assert RunAt(t, i, 1, false) ==> !t[i];
    }
  }

  /// Two runs that are both allocated are of different pages.
  lemma AllocatedRunsAreDisjoint(s: seq<bool>, i: nat, n: nat, j: nat, m: nat)
    requires |s| <= NPOS && i + n <= |s| && n > 0 && m > 0
    requires j == FirstRun(Fill(s, i, n, true), 0, m, false) && j != NPOS
    ensures i + n <= j || j + m <= i
  {
    var t := Fill(s, i, n, true);
    FirstRunIsScan(t, 0, m, false);
    var k := if i < j then j else i;
    assert RunAt(t, j, m, false);
    assert k < j + m ==> !t[k];
    assert k < i + n ==> t[k];
  }

  /// Allocating and freeing the same run restores the map.
  lemma FreeUndoesAlloc(s: seq<bool>, n: nat, npages: nat)
    requires |s| <= NPOS && n == FirstRun(s, 0, npages, false) && n != NPOS
    ensures Fill(Fill(s, n, npages, true), n, npages, false) == s
  {
    FirstRunIsScan(s, 0, npages, false);
  }

  // ---- runs of one pool ----

  /// The occupancy map and what callers hold: runs they were given, pages they reserved.
  datatype Pool = Pool(marks: seq<bool>, held: seq<Extent>)

  datatype Op = Allocate(npages: nat) | Keep(page: nat) | Return(which: nat) | ReturnPage(which: nat, page: nat)

  predicate Allowed(p: Pool, op: Op) {
    match op
    case Allocate(_) => true
    case Keep(k) => k < |p.marks|
    case Return(i) => i < |p.held|
    case ReturnPage(i, k) => i < |p.held| && Inside(p.held[i], k)
  }

  function Apply(p: Pool, op: Op): (q: Pool)
    requires |p.marks| <= NPOS && Allowed(p, op)
    ensures |q.marks| == |p.marks|
  {
    match op
    case Allocate(n) =>
      var j := FirstRun(p.marks, 0, n, false);
      if j == NPOS then p else Pool(Fill(p.marks, j, n, true), p.held + [Extent(j, n)])
    case Keep(k) =>
      if p.marks[k] then p else Pool(Fill(p.marks, k, 1, true), p.held + [Extent(k, 1)])
    case Return(i) =>
      Pool(Fill(p.marks, p.held[i].start, p.held[i].sectors, false), p.held[..i] + p.held[i + 1..])
    case ReturnPage(i, k) =>
      Pool(Fill(p.marks, k, 1, false), p.held[..i] + [Before(p.held[i], k)] + p.held[i + 1..] + [Behind(p.held[i], k)])
  }

  /// What is left of a run on both sides of a page.
  function Before(e: Extent, k: nat): Extent
    requires Inside(e, k)
  {
    Extent(e.start, k - e.start)
  }

  function Behind(e: Extent, k: nat): Extent
    requires Inside(e, k)
  {
    Extent(k + 1, e.start + e.sectors - (k + 1))
  }

  ghost predicate AllAllowed(p: Pool, ops: seq<Op>)
    requires |p.marks| <= NPOS
    decreases |ops|
  {
    ops == [] || (Allowed(p, ops[0]) && AllAllowed(Apply(p, ops[0]), ops[1..]))
  }

  ghost function Run(p: Pool, ops: seq<Op>): (q: Pool)
    requires |p.marks| <= NPOS && AllAllowed(p, ops)
    ensures |q.marks| == |p.marks|
    decreases |ops|
  {
    if ops == [] then p else Run(Apply(p, ops[0]), ops[1..])
  }

  /// The map marks exactly the pages that somebody holds, and nobody holds another's page.
  ghost predicate Inv(p: Pool) {
    && |p.marks| <= NPOS
    && (forall k, i {:trigger Inside(p.held[i], k)} ::
          0 <= i < |p.held| && 0 <= k && Inside(p.held[i], k) ==> k < |p.marks| && p.marks[k])
    && (forall k {:trigger p.marks[k]} ::
          0 <= k < |p.marks| && p.marks[k] ==> exists i :: 0 <= i < |p.held| && Inside(p.held[i], k))
    && (forall i, j, k {:trigger Inside(p.held[i], k), Inside(p.held[j], k)} ::
          0 <= i < j < |p.held| && 0 <= k && Inside(p.held[i], k) ==> !Inside(p.held[j], k))
  }

  lemma TakeKeeps(p: Pool, e: Extent)
    requires Inv(p) && FreeRun(p.marks, e)
    ensures Inv(Pool(Fill(p.marks, e.start, e.sectors, true), p.held + [e]))
  {
    var q := Pool(Fill(p.marks, e.start, e.sectors, true), p.held + [e]);
    forall k | 0 <= k < |q.marks| && q.marks[k]
      ensures exists i :: 0 <= i < |q.held| && Inside(q.held[i], k)
    {
      if Inside(e, k) {
        assert Inside(q.held[|p.held|], k);
      } else {
        var i :| 0 <= i < |p.held| && Inside(p.held[i], k);
        assert Inside(q.held[i], k);
      }
    }
    forall i, j, k | 0 <= i < j < |q.held| && 0 <= k && Inside(q.held[i], k)
      ensures !Inside(q.held[j], k)
    {
      assert Inside(p.held[i], k);
      assert p.marks[k];
    }
  }

  /// The bits that are set when the pool is made, as pages that somebody holds.
  function Stale(marks: seq<bool>, n: nat): seq<Extent>
    requires n <= |marks|
  {
    if n == 0 then [] else Stale(marks, n - 1) + if marks[n - 1] then [Extent(n - 1, 1)] else []
  }

  lemma {:induction false} TotalAppend(p: seq<Extent>, e: Extent)
    ensures Total(p + [e]) == Total(p) + e.sectors
  {
    if p == [] {
      assert p + [e] == [e] && [e][1..] == [];
    } else {
      assert (p + [e])[0] == p[0] && (p + [e])[1..] == p[1..] + [e];
      TotalAppend(p[1..], e);
    }
  }

  lemma {:induction false} StaleTotal(marks: seq<bool>, n: nat)
    requires n <= |marks|
    ensures Total(Stale(marks, n)) == |Stale(marks, n)|
  {
    if n > 0 {
      StaleTotal(marks, n - 1);
      if marks[n - 1] {
        TotalAppend(Stale(marks, n - 1), Extent(n - 1, 1));
      } else {
        assert Stale(marks, n) == Stale(marks, n - 1);
      }
    }
  }

  /// The first n bits of a map.
  function Kept(marks: seq<bool>, n: nat): (s: seq<bool>)
    requires n <= |marks|
    ensures |s| == |marks|
  {
    Fill(marks, n, |marks| - n, false)
  }

  /// Making the set bits one by one, as if each page had been reserved.
  lemma {:induction false} StaleIsGood(marks: seq<bool>, n: nat)
    requires |marks| <= NPOS && n <= |marks|
    ensures Inv(Pool(Kept(marks, n), Stale(marks, n)))
  {
    if n > 0 {
      StaleIsGood(marks, n - 1);
      if marks[n - 1] {
        TakeKeeps(Pool(Kept(marks, n - 1), Stale(marks, n - 1)), Extent(n - 1, 1));
        assert Fill(Kept(marks, n - 1), n - 1, 1, true) == Kept(marks, n);
      } else {
        assert Kept(marks, n) == Kept(marks, n - 1);
        assert Stale(marks, n) == Stale(marks, n - 1);
      }
    }
  }

  /// A new pool is good whatever its memory held: the bits that happen to be set count as
  /// pages held, which nobody will return, and the free pages and those together are all.
  lemma NewPoolIsGood(marks: seq<bool>)
    requires |marks| <= NPOS
    ensures Inv(Pool(marks, Stale(marks, |marks|)))
    ensures |Free(marks)| + |Stale(marks, |marks|)| == |marks|
  {
    StaleIsGood(marks, |marks|);
    assert Kept(marks, |marks|) == marks;
    HeldAndFreeAreAll(Pool(marks, Stale(marks, |marks|)));
    StaleTotal(marks, |marks|);
  }

  /// Where a hold that is left was before one was returned.
  function Origin(i: nat, j: nat): nat {
    if j < i then j else j + 1
  }

  lemma LeftOver(p: Pool, i: nat, j: nat)
    requires |p.marks| <= NPOS && i < |p.held| && j + 1 < |p.held|
    ensures Apply(p, Return(i)).held[j] == p.held[Origin(i, j)]
  {
  }

  lemma ReturnKeepsMarks(p: Pool, i: nat)
    requires Inv(p) && i < |p.held|
    ensures var q := Apply(p, Return(i));
      forall k: nat :: k < |q.marks| && q.marks[k] ==> exists j :: 0 <= j < |q.held| && Inside(q.held[j], k)
  {
    var q := Apply(p, Return(i));
    forall k: nat | k < |q.marks| && q.marks[k]
      ensures exists j :: 0 <= j < |q.held| && Inside(q.held[j], k)
    {
      var j :| 0 <= j < |p.held| && Inside(p.held[j], k);
      var l := if j < i then j else j - 1;
      LeftOver(p, i, l);
      assert Inside(q.held[l], k);
    }
  }

  lemma ReturnKeeps(p: Pool, i: nat)
    requires Inv(p) && i < |p.held|
    ensures Inv(Apply(p, Return(i)))
  {
    var q := Apply(p, Return(i));
    forall k, j | 0 <= j < |q.held| && 0 <= k && Inside(q.held[j], k)
      ensures k < |q.marks| && q.marks[k]
    {
      LeftOver(p, i, j);
      assert Inside(p.held[Origin(i, j)], k);
      assert !Inside(p.held[i], k);
    }
    ReturnKeepsMarks(p, i);
    forall j, l, k | 0 <= j < l < |q.held| && 0 <= k && Inside(q.held[j], k)
      ensures !Inside(q.held[l], k)
    {
      LeftOver(p, i, j);
      LeftOver(p, i, l);
      assert Inside(p.held[Origin(i, j)], k);
      assert !Inside(p.held[Origin(i, l)], k);
    }
  }

  lemma ReturnPageKeeps(p: Pool, i: nat, k: nat)
    requires Inv(p) && i < |p.held| && Inside(p.held[i], k)
    ensures Inv(Apply(p, ReturnPage(i, k)))
  {
    var q, e := Apply(p, ReturnPage(i, k)), p.held[i];
    forall x, j | 0 <= j < |q.held| && 0 <= x && Inside(q.held[j], x)
      ensures x != k && Inside(p.held[if j == |p.held| then i else j], x)
    {
      if j == |p.held| { assert q.held[j] == Behind(e, k); }
      else if j == i { assert q.held[j] == Before(e, k); }
      else {
        assert q.held[j] == p.held[j];
        assert Inside(p.held[i], k);
      }
    }
    forall x | 0 <= x < |q.marks| && q.marks[x]
      ensures exists j :: 0 <= j < |q.held| && Inside(q.held[j], x)
    {
      assert p.marks[x];
      var j :| 0 <= j < |p.held| && Inside(p.held[j], x);
      if j == i && x > k { assert Inside(q.held[|p.held|], x); } else { assert Inside(q.held[j], x); }
    }
    forall j, l, x | 0 <= j < l < |q.held| && 0 <= x && Inside(q.held[j], x)
      ensures !Inside(q.held[l], x)
    {
      assert Inside(p.held[j], x);
      if l == |p.held| {
        assert q.held[l] == Behind(e, k);
        if j == i { assert q.held[j] == Before(e, k); }
      }
    }
  }

  /// Over every run of allocations, reservations and returns the pages that callers hold
  /// are pairwise disjoint and are exactly those marked in the map.
  lemma {:induction false} RunKeeps(p: Pool, ops: seq<Op>)
    requires Inv(p) && AllAllowed(p, ops)
    ensures Inv(Run(p, ops))
    decreases |ops|
  {
    if ops != [] {
      match ops[0] {
        case Allocate(n) =>
          FirstRunIsScan(p.marks, 0, n, false);
          var j := FirstRun(p.marks, 0, n, false);
          if j != NPOS {
            TakeKeeps(p, Extent(j, n));
          }
        case Keep(k) =>
          if !p.marks[k] {
            TakeKeeps(p, Extent(k, 1));
          }
        case Return(i) =>
          ReturnKeeps(p, i);
        case ReturnPage(i, k) =>
          ReturnPageKeeps(p, i, k);
      }
      RunKeeps(Apply(p, ops[0]), ops[1..]);
    }
  }

  lemma HeldIsDisjoint(p: Pool)
    requires Inv(p)
    ensures Disjoint(p.held)
  {
    forall i, j | 0 <= i < j < |p.held|
      ensures Sectors(p.held[i]) !! Sectors(p.held[j])
    {
      forall k | k in Sectors(p.held[i])
        ensures k !in Sectors(p.held[j])
      {
        assert Inside(p.held[i], k);
      }
    }
  }

  lemma HeldIsMarked(p: Pool, k: nat)
    requires Inv(p)
    ensures k in Cover(p.held) <==> k < |p.marks| && p.marks[k]
  {
    CoverMember(p.held, k);
    if k < |p.marks| && p.marks[k] {
      var i :| 0 <= i < |p.held| && Inside(p.held[i], k);
      assert k in Sectors(p.held[i]);
    }
    if i :| 0 <= i < |p.held| && k in Sectors(p.held[i]) {
      assert Inside(p.held[i], k);
    }
  }

  lemma HeldAndFreeAreAll(p: Pool)
    requires Inv(p)
    ensures |Free(p.marks)| + Total(p.held) == |p.marks|
  {
    HeldIsDisjoint(p);
    DisjointCount(p.held);
    var all := Sectors(Extent(0, |p.marks|));
    SectorCount(0, |p.marks|);
    forall k
      ensures k in all <==> k in Free(p.marks) + Cover(p.held)
    {
      if k >= 0 { HeldIsMarked(p, k); }
    }
    assert all == Free(p.marks) + Cover(p.held);
    assert Free(p.marks) !! Cover(p.held) by {
      forall k | k in Free(p.marks) ensures k !in Cover(p.held) {
        HeldIsMarked(p, k);
      }
    }
  }

  /// Free pages and held pages together are always all pages.
  lemma PagesAreConserved(p: Pool, ops: seq<Op>)
    requires Inv(p) && AllAllowed(p, ops)
    ensures |Free(Run(p, ops).marks)| + Total(Run(p, ops).held) == |p.marks|
  {
    RunKeeps(p, ops);
    HeldAndFreeAreAll(Run(p, ops));
  }

  class Paging {
    const kernelPool: PagePool
    const userPool: PagePool

    ghost predicate Valid() {
      && kernelPool.Valid() && userPool.Valid() && kernelPool.occupancy.words != userPool.occupancy.words
      && PHYSBASE <= kernelPool.base && kernelPool.base + kernelPool.pages * 0x20_0000 <= userPool.base
      && userPool.base < PHYSBASE + 0x1_0000_0000
      && userPool.occupancy.bitcount * 0x20_0000 <= 0x1_0000_0000
    }

    constructor (kernel: PagePool, user: PagePool)
      ensures kernelPool == kernel && userPool == user
    {
      kernelPool, userPool := kernel, user;
    }

    /// page_free as it is written compares the physical address with the virtual base of
    /// the kernel pool, and subtracts the virtual base of the user pool from it. The page
    /// number is far outside the map, so no page is ever freed.
    method PageFreeAsWritten(page: nat)
      requires Valid() && PHYSBASE <= page < PHYSBASE + 0x1_0000_0000
      modifies kernelPool.occupancy.words, userPool.occupancy.words
      ensures kernelPool.Contents() == old(kernelPool.Contents())
      ensures userPool.Contents() == old(userPool.Contents())
    {
      var frame := KernelToPhys(page);
      WrapsOutside(frame, userPool.base, userPool.occupancy.bitcount);
      var pool := if kernelPool.Contains(frame) then kernelPool else userPool;
      pool.Free(frame, 1);
    }

    /// With the page's own address it clears the bit of the page in the pool that has it.
    method PageFree(page: nat)
      requires Valid() && page < ADDRESSES && (kernelPool.Contains(page) || userPool.Contains(page))
      modifies kernelPool.occupancy.words, userPool.occupancy.words
      ensures kernelPool.Contents() == if kernelPool.Contains(page)
        then Fill(old(kernelPool.Contents()), (page - kernelPool.base) / 0x20_0000, 1, false)
        else old(kernelPool.Contents())
      ensures userPool.Contents() == if kernelPool.Contains(page)
        then old(userPool.Contents())
        else Fill(old(userPool.Contents()), (page - userPool.base) / 0x20_0000, 1, false)
    {
      if kernelPool.Contains(page) {
        PageNumberInside(page, kernelPool.base);
        kernelPool.Free(page, 1);
      } else {
        PageNumberInside(page, userPool.base);
        userPool.Free(page, 1);
      }
    }
  }

  lemma WrapsOutside(frame: nat, base: nat, bits: nat)
    requires frame < 0x1_0000_0000 && PHYSBASE <= base < PHYSBASE + 0x1_0000_0000
    requires bits * 0x20_0000 <= 0x1_0000_0000
    ensures PageNumber(frame, base) >= bits
  {
    var d := frame + (ADDRESSES - base);
    assert d % 0x1_0000_0000_0000_0000 == d;
  }
}

/// Both pools in one memory: the user pool starts right behind the kernel pool, with the page
/// that holds its `struct bitmap`.
module TwoPools {
  import opened Bits
  import opened Extents
  import opened PagePools

  const PAGE_SIZE: nat := 0x20_0000

  /// The two occupancy maps, as far as their bit counts reach, and where the kernel pool
  /// starts. The first page of each pool holds its map.
  datatype Pools = Pools(start: nat, kernel: seq<bool>, user: seq<bool>)

  predicate Valid(p: Pools) {
    0 < |p.kernel| <= NPOS && |p.user| <= NPOS
  }

  function UserMapPage(p: Pools): nat {
    p.start + |p.kernel| * PAGE_SIZE
  }

  /// memset (page, 0, …): if the header of the user map is hit, its bit count is zero.
  function Zeroed(p: Pools, page: nat, npages: nat): Pools {
    if page <= UserMapPage(p) < page + npages * PAGE_SIZE then p.(user := []) else p
  }

  datatype Op =
    | TakeKernel(npages: nat, zero: bool)
    | TakeUser(npages: nat, zero: bool)
    | GiveKernel(at: nat, npages: nat)
    | GiveUser(at: nat, npages: nat)

  /// page_allocate_multiple, and page_pool_free with the number of the page.
  function Apply(p: Pools, op: Op): (r: (Pools, nat))
    requires Valid(p)
    ensures Valid(r.0) && |r.0.kernel| == |p.kernel|
  {
    match op
    case TakeKernel(n, zero) =>
      var j := FirstRun(p.kernel, 0, n, false);
      if j == NPOS then (p, NULL)
      else
        var page := p.start + (1 + j) * PAGE_SIZE;
        var q := p.(kernel := Fill(p.kernel, j, n, true));
        (if zero then Zeroed(q, page, n) else q, page)
    case TakeUser(n, zero) =>
      var j := FirstRun(p.user, 0, n, false);
      if j == NPOS then (p, NULL)
      else
        var page := UserMapPage(p) + (1 + j) * PAGE_SIZE;
        var q := p.(user := Fill(p.user, j, n, true));
        (if zero then Zeroed(q, page, n) else q, page)
    case GiveKernel(j, n) => (p.(kernel := Fill(p.kernel, j, n, false)), NULL)
    case GiveUser(j, n) => (p.(user := Fill(p.user, j, n, false)), NULL)
  }

  /// An allocation from the kernel pool that asks for zeroed pages wipes out the user pool's
  /// map exactly when it leaves the kernel pool.
  lemma UserMapLostIff(p: Pools, npages: nat)
    requires Valid(p) && npages > 0 && p.user != []
    ensures Apply(p, TakeKernel(npages, true)).0.user == [] <==> LeavesPool(p.kernel, |p.kernel| - 1, npages)
  {
    LeavesPoolIff(p.kernel, |p.kernel| - 1, npages);
    var j := FirstRun(p.kernel, 0, npages, false);
    if j != NPOS {
      FirstRunIsScan(p.kernel, 0, npages, false);
      Reaches(p.start, |p.kernel|, j, npages);
    }
  }

  lemma Reaches(start: nat, count: nat, j: nat, n: nat)
    requires j + n <= count
    ensures var page := start + (1 + j) * PAGE_SIZE;
      page <= start + count * PAGE_SIZE < page + n * PAGE_SIZE <==> j + n == count && n > 0
  {
    var d := count - (j + n);
    assert count * PAGE_SIZE == (1 + j) * PAGE_SIZE + (d + n - 1) * PAGE_SIZE;
    if d == 0 {
    } else {
      assert (d + n - 1) * PAGE_SIZE >= n * PAGE_SIZE;
    }
  }

  /// A request for user pages gets the first free run of the user pool, in pages behind its map.
  lemma UserPagesAreFirst(p: Pools, npages: nat, zero: bool)
    requires Valid(p) && npages > 0
    ensures var (q, page) := Apply(p, TakeUser(npages, zero));
      if exists i: nat :: RunAt(p.user, i, npages, false) then
        exists i: nat ::
          && RunAt(p.user, i, npages, false) && (forall k: nat :: k < i ==> !RunAt(p.user, k, npages, false))
          && page == UserMapPage(p) + PAGE_SIZE + i * PAGE_SIZE && q == p.(user := Fill(p.user, i, npages, true))
      else q == p && page == NULL
  {
    FirstRunIsScan(p.user, 0, npages, false);
    var j := FirstRun(p.user, 0, npages, false);
    if i: nat :| RunAt(p.user, i, npages, false) {
      assert i < |p.user|;
      assert RunAt(p.user, j, npages, false);
    }
  }

  /// No other operation of either pool changes how far the user pool's map reaches.
  lemma OthersKeepUserMap(p: Pools, op: Op)
    requires Valid(p) && !(op.TakeKernel? && op.zero)
    ensures |Apply(p, op).0.user| == |p.user|
  {
  }

  ghost function Results(p: Pools, ops: seq<Op>): seq<nat>
    requires Valid(p)
    decreases |ops|
  {
    if ops == [] then []
    else [Apply(p, ops[0]).1] + Results(Apply(p, ops[0]).0, ops[1..])
  }

  /// Once the map is lost, every later request for user pages fails, whatever happens in
  /// between.
  lemma {:induction false} UserPoolIsDead(p: Pools, ops: seq<Op>, i: nat)
    requires Valid(p) && p.user == [] && i < |ops| && ops[i].TakeUser?
    ensures |Results(p, ops)| == |ops| && Results(p, ops)[i] == NULL
    decreases |ops|
  {
    ResultsLength(p, ops);
    if i > 0 {
      var q := Apply(p, ops[0]).0;
      assert q.user == [];
      UserPoolIsDead(q, ops[1..], i - 1);
    }
  }

  lemma {:induction false} ResultsLength(p: Pools, ops: seq<Op>)
    requires Valid(p)
    ensures |Results(p, ops)| == |ops|
    decreases |ops|
  {
    if ops != [] {
      ResultsLength(Apply(p, ops[0]).0, ops[1..]);
    }
  }

  /// With every page of the kernel pool taken, one request for a zeroed kernel page is enough.
  lemma FullKernelPoolKillsUserPool(p: Pools, ops: seq<Op>, i: nat)
    requires Valid(p) && (forall k :: 0 <= k < |p.kernel| - 1 ==> p.kernel[k]) && !p.kernel[|p.kernel| - 1]
    requires i < |ops| && ops[i].TakeUser?
    ensures var (q, page) := Apply(p, TakeKernel(1, true));
      page == UserMapPage(p) && |Results(q, ops)| == |ops| && Results(q, ops)[i] == NULL
  {
    FirstRunIsScan(p.kernel, 0, 1, false);
    assert RunAt(p.kernel, |p.kernel| - 1, 1, false);
    forall k: nat | k < |p.kernel| - 1
      ensures !RunAt(p.kernel, k, 1, false)
    {
      assert p.kernel[k];
    }
    var q := Apply(p, TakeKernel(1, true)).0;
    Reaches(p.start, |p.kernel|, |p.kernel| - 1, 1);
    UserPoolIsDead(q, ops, i);
  }
}
