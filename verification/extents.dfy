/// Extent allocation over the free map (kern/lib/io/filesys.c).
///
/// `Extents` states what the nested loops of inode_disk_allocate_space compute on a
/// `seq<bool>` (true = allocated) and proves that the result is the best possible;
/// `FileSystem` holds the imperative code.

module Extents {
  import opened Bits

  datatype Extent = Extent(start: nat, sectors: nat)

  predicate Inside(e: Extent, i: nat) {
    e.start <= i < e.start + e.sectors
  }

  ghost function Sectors(e: Extent): set<nat> {
    set i: nat | i < e.start + e.sectors && Inside(e, i)
  }

  ghost function Cover(p: seq<Extent>): set<nat> {
    if p == [] then {} else Sectors(p[0]) + Cover(p[1..])
  }

  ghost function Free(s: seq<bool>): set<nat> {
    set i | 0 <= i < |s| && !s[i]
  }

  function Total(p: seq<Extent>): nat {
    if p == [] then 0 else p[0].sectors + Total(p[1..])
  }

  predicate FreeRun(s: seq<bool>, e: Extent) {
    RunAt(s, e.start, e.sectors, false)
  }

  ghost predicate Disjoint(p: seq<Extent>) {
    forall i, j :: 0 <= i < j < |p| ==> Sectors(p[i]) !! Sectors(p[j])
  }

  function Take(s: seq<bool>, e: Extent): (t: seq<bool>)
    ensures |t| == |s|
  {
    Fill(s, e.start, e.sectors, true)
  }

  function TakeAll(s: seq<bool>, p: seq<Extent>): (t: seq<bool>)
    ensures |t| == |s|
    decreases |p|
  {
    if p == [] then s else TakeAll(Take(s, p[0]), p[1..])
  }

  // ---- the loops ----

  /// Where the inner loop stops: the longest request not above n that the map can serve.
  function BestAttempt(s: seq<bool>, n: nat): (k: nat)
    requires |s| <= NPOS
    ensures k <= n
  {
    if n == 0 || FirstRun(s, 0, n, false) != NPOS then n else BestAttempt(s, n - 1)
  }

  /// It is the longest one: it is served where the scan says, and nothing longer fits anywhere.
  lemma {:induction false} BestAttemptIsBest(s: seq<bool>, n: nat)
    requires |s| <= NPOS
    ensures BestAttempt(s, n) > 0 ==> FreeRun(s, Round(s, n))
    ensures forall i: nat, m: nat :: BestAttempt(s, n) < m <= n ==> !RunAt(s, i, m, false)
  {
    FirstRunIsScan(s, 0, n, false);
    if n > 0 && FirstRun(s, 0, n, false) == NPOS {
      BestAttemptIsBest(s, n - 1);
    }
  }

  /// The extent one round of the outer loop allocates.
  function Round(s: seq<bool>, n: nat): Extent
    requires |s| <= NPOS
  {
    var k := BestAttempt(s, n);
    Extent(FirstRun(s, 0, k, false), k)
  }

  /// The extents of a request for n sectors, in the order the loop finds them.
  function Greedy(s: seq<bool>, n: nat): seq<Extent>
    requires |s| <= NPOS && n <= |Free(s)|
    decreases n
  {
    if n == 0 then []
    else
      RoundProgress(s, n);
      [Round(s, n)] + Greedy(Take(s, Round(s, n)), n - Round(s, n).sectors)
  }

  /// One round, seen from what the whole loop computes.
  lemma GreedyUnfolds(s: seq<bool>, n: nat)
    requires |s| <= NPOS && 0 < n <= |Free(s)|
    ensures var e := Round(s, n);
      var t := Take(s, e);
      && 0 < e.sectors <= n && n - e.sectors <= |Free(t)|
      && Greedy(s, n) == [e] + Greedy(t, n - e.sectors)
      && TakeAll(s, Greedy(s, n)) == TakeAll(t, Greedy(t, n - e.sectors))
  {
    RoundProgress(s, n);
    var e := Round(s, n);
    assert Greedy(s, n)[1..] == Greedy(Take(s, e), n - e.sectors);
  }

  // ---- sets of sectors ----

  lemma {:induction false} SectorCount(start: nat, n: nat)
    ensures |Sectors(Extent(start, n))| == n
  {
    if n == 0 {
      assert Sectors(Extent(start, 0)) == {};
    } else {
      SectorCount(start, n - 1);
      assert Sectors(Extent(start, n)) == Sectors(Extent(start, n - 1)) + {start + n - 1};
    }
  }

  lemma SubsetCount<T>(a: set<T>, b: set<T>)
    requires a <= b
    ensures |a| <= |b|
  {
    assert b == a + (b - a);
  }

  lemma TakeRemoves(s: seq<bool>, e: Extent)
    requires FreeRun(s, e)
    ensures Sectors(e) <= Free(s) && Free(Take(s, e)) == Free(s) - Sectors(e)
    ensures |Free(Take(s, e))| == |Free(s)| - e.sectors
  {
    SectorCount(e.start, e.sectors);
  }

  /// A round with something left to place and something left to take takes at least one
  /// sector, all of them free.
  lemma RoundProgress(s: seq<bool>, n: nat)
    requires |s| <= NPOS && 0 < n && Free(s) != {}
    ensures var e := Round(s, n);
      0 < e.sectors <= n && FreeRun(s, e) && |Free(Take(s, e))| == |Free(s)| - e.sectors
  {
    var i :| i in Free(s);
    assert RunAt(s, i, 1, false);
    BestAttemptIsBest(s, n);
    TakeRemoves(s, Round(s, n));
  }

  lemma {:induction false} CoverMember(p: seq<Extent>, x: nat)
    ensures x in Cover(p) <==> exists i :: 0 <= i < |p| && x in Sectors(p[i])
  {
    if p != [] {
      CoverMember(p[1..], x);
      if i :| 0 <= i < |p| && x in Sectors(p[i]) {
        assert i == 0 || x in Sectors(p[1..][i - 1]);
      }
    }
  }

  lemma {:induction false} DisjointCount(p: seq<Extent>)
    requires Disjoint(p)
    ensures |Cover(p)| == Total(p)
  {
    if p != [] {
      DisjointCount(p[1..]);
      SectorCount(p[0].start, p[0].sectors);
      forall x | x in Cover(p[1..]) ensures x !in Sectors(p[0]) {
        CoverMember(p[1..], x);
      }
      assert Sectors(p[0]) * Cover(p[1..]) == {};
    }
  }

  // ---- optimality ----

  lemma RunInside(s: seq<bool>, i: nat, n: nat, j: nat, m: nat)
    requires RunAt(s, i, n, false) && i <= j && j + m <= i + n
    ensures RunAt(s, j, m, false)
  {
  }

  /// When a round could not serve the whole rest, no free run is longer than the one it took.
  lemma RoundIsLongest(s: seq<bool>, n: nat, e: Extent)
    requires |s| <= NPOS && FreeRun(s, e) && Round(s, n).sectors < n
    ensures e.sectors <= Round(s, n).sectors
  {
    var k := Round(s, n).sectors;
    BestAttemptIsBest(s, n);
    RunInside(s, e.start, e.sectors, e.start, if e.sectors > k then k + 1 else 0);
  }

  /// Such a round took a maximal run, so a free run that touches it lies inside it.
  lemma TouchingRunIsInside(s: seq<bool>, n: nat, e: Extent)
    requires |s| <= NPOS && 0 < Round(s, n).sectors < n
    requires FreeRun(s, e) && Sectors(e) * Sectors(Round(s, n)) != {}
    ensures Sectors(e) <= Sectors(Round(s, n))
  {
    var g := Round(s, n);
    BestAttemptIsBest(s, n);
    if e.start < g.start {
      var wider := Extent(g.start - 1, g.sectors + 1);
      assert FreeRun(s, wider);
      RoundIsLongest(s, n, wider);
    }
    if e.start + e.sectors > g.start + g.sectors {
      var wider := Extent(g.start, g.sectors + 1);
      assert FreeRun(s, wider);
      RoundIsLongest(s, n, wider);
    }
  }

  /// Remove entry `drop`, and empty every other run that lies inside g.
  function Trim(p: seq<Extent>, g: Extent, drop: nat): (q: seq<Extent>)
    requires drop < |p|
    ensures |q| == |p| - 1
  {
    seq(|p| - 1, i requires 0 <= i < |p| - 1 =>
      var e := p[if i < drop then i else i + 1];
      if g.start <= e.start && e.start + e.sectors <= g.start + g.sectors then Extent(0, 0) else e)
  }

  lemma TrimmedRunsAreFree(s: seq<bool>, n: nat, p: seq<Extent>, drop: nat)
    requires |s| <= NPOS && 0 < Round(s, n).sectors < n && drop < |p|
    requires forall e :: e in p ==> FreeRun(s, e)
    ensures forall e :: e in Trim(p, Round(s, n), drop) ==> FreeRun(Take(s, Round(s, n)), e)
  {
    var g := Round(s, n);
    var q := Trim(p, g, drop);
    forall i | 0 <= i < |q| ensures FreeRun(Take(s, g), q[i]) {
      var e := p[if i < drop then i else i + 1];
      assert FreeRun(s, e);
      if q[i] == e && e.sectors > 0 {
        if Sectors(e) * Sectors(g) != {} {
          TouchingRunIsInside(s, n, e);
          InsideBounds(e, g);
          assert false;
        }
        forall k: nat | e.start <= k < e.start + e.sectors ensures !Take(s, g)[k] {
          assert k in Sectors(e) && k !in Sectors(e) * Sectors(g);
          assert !Inside(g, k);
        }
      }
    }
  }

  lemma InsideBounds(e: Extent, g: Extent)
    requires Sectors(e) <= Sectors(g) && e.sectors > 0
    ensures g.start <= e.start && e.start + e.sectors <= g.start + g.sectors
  {
    assert e.start in Sectors(e) && e.start + e.sectors - 1 in Sectors(e);
  }

  lemma TrimKeeps(p: seq<Extent>, g: Extent, drop: nat, i: nat, x: nat)
    requires drop < |p| && i < |p| && i != drop && x in Sectors(p[i]) && x !in Sectors(g)
    ensures Trim(p, g, drop)[if i < drop then i else i - 1] == p[i]
  {
    assert Inside(p[i], x) && !Inside(g, x);
  }

  /// The sectors given up: those the round took, or those of the dropped run.
  ghost function Lost(g: Extent, dropped: Extent): set<nat> {
    if Sectors(dropped) * Sectors(g) != {} then Sectors(g) else Sectors(dropped)
  }

  lemma TrimmedCoverMember(s: seq<bool>, n: nat, p: seq<Extent>, drop: nat, x: nat)
    requires |s| <= NPOS && 0 < Round(s, n).sectors < n && drop < |p|
    requires forall e :: e in p ==> FreeRun(s, e)
    requires Sectors(p[drop]) * Sectors(Round(s, n)) != {}
      || forall e :: e in p ==> Sectors(e) * Sectors(Round(s, n)) == {}
    requires x in Cover(p) && x !in Lost(Round(s, n), p[drop])
    ensures x in Cover(Trim(p, Round(s, n), drop))
  {
    var g := Round(s, n);
    var q := Trim(p, g, drop);
    CoverMember(p, x);
    var i :| 0 <= i < |p| && x in Sectors(p[i]);
    if Sectors(p[drop]) * Sectors(g) != {} {
      TouchingRunIsInside(s, n, p[drop]);
    }
    assert p[i] in p && x !in Sectors(p[i]) * Sectors(g);
    TrimKeeps(p, g, drop, i, x);
    CoverMember(q, x);
  }

  lemma UnionCount<T>(a: set<T>, b: set<T>)
    ensures |a + b| <= |a| + |b|
  {
    assert a + b == a + (b - a);
    SubsetCount(b - a, b);
  }

  lemma TrimmedCover(s: seq<bool>, n: nat, p: seq<Extent>, drop: nat)
    requires |s| <= NPOS && 0 < Round(s, n).sectors < n && drop < |p|
    requires forall e :: e in p ==> FreeRun(s, e)
    requires Sectors(p[drop]) * Sectors(Round(s, n)) != {}
      || forall e :: e in p ==> Sectors(e) * Sectors(Round(s, n)) == {}
    ensures |Cover(Trim(p, Round(s, n), drop))| >= |Cover(p)| - Round(s, n).sectors
  {
    var g := Round(s, n);
    var q := Trim(p, g, drop);
    var lost := Lost(g, p[drop]);
    forall x | x in Cover(p) && x !in lost ensures x in Cover(q) {
      TrimmedCoverMember(s, n, p, drop, x);
    }
    SubsetCount(Cover(p), Cover(q) + lost);
    UnionCount(Cover(q), lost);
    SectorCount(g.start, g.sectors);
    SectorCount(p[drop].start, p[drop].sectors);
    RoundIsLongest(s, n, p[drop]);
  }

  /// What a round took can stand in for one member of a family of free runs: one that
  /// touches it, or any member if none does. The others still cover the rest.
  lemma ExchangeStep(s: seq<bool>, n: nat, p: seq<Extent>) returns (q: seq<Extent>)
    requires |s| <= NPOS && 0 < Round(s, n).sectors < n && p != []
    requires forall e :: e in p ==> FreeRun(s, e)
    ensures |q| == |p| - 1
    ensures forall e :: e in q ==> FreeRun(Take(s, Round(s, n)), e)
    ensures |Cover(q)| >= |Cover(p)| - Round(s, n).sectors
  {
    var g := Round(s, n);
    var drop := 0;
    if i :| 0 <= i < |p| && Sectors(p[i]) * Sectors(g) != {} {
      drop := i;
    }
    q := Trim(p, g, drop);
    TrimmedRunsAreFree(s, n, p, drop);
    TrimmedCover(s, n, p, drop);
  }

  /// No family of free runs that covers n sectors has fewer members than the loop produces.
  lemma {:induction false} GreedyIsOptimal(s: seq<bool>, n: nat, p: seq<Extent>)
    requires |s| <= NPOS && n <= |Free(s)|
    requires forall e :: e in p ==> FreeRun(s, e)
    requires |Cover(p)| >= n
    ensures |Greedy(s, n)| <= |p|
    decreases n
  {
    if n > 0 {
      RoundProgress(s, n);
      var g := Round(s, n);
      if g.sectors < n {
        var q := ExchangeStep(s, n, p);
        GreedyIsOptimal(Take(s, g), n - g.sectors, q);
      } else {
        assert Greedy(Take(s, g), 0) == [];
      }
    }
  }

  // ---- what is taken, and giving it back ----

  /// Each extent is free when its turn comes.
  predicate Served(s: seq<bool>, p: seq<Extent>)
    decreases |p|
  {
    p == [] || (FreeRun(s, p[0]) && p[0].sectors > 0 && Served(Take(s, p[0]), p[1..]))
  }

  lemma {:induction false} GreedyServed(s: seq<bool>, n: nat)
    requires |s| <= NPOS && n <= |Free(s)|
    ensures Served(s, Greedy(s, n)) && Total(Greedy(s, n)) == n
    decreases n
  {
    if n > 0 {
      RoundProgress(s, n);
      GreedyServed(Take(s, Round(s, n)), n - Round(s, n).sectors);
    }
  }

  // ---- where the extents lie ----

  /// A round takes the longest run that the rest allows, at the least start there is.
  lemma RoundIsFirst(s: seq<bool>, n: nat)
    requires |s| <= NPOS && 0 < n <= |Free(s)|
    ensures IsScan(s, 0, Round(s, n).sectors, false, Round(s, n).start)
    ensures First(s, n, Round(s, n))
  {
    var e := Round(s, n);
    RoundProgress(s, n);
    BestAttemptIsBest(s, n);
    FirstRunIsScan(s, 0, e.sectors, false);
    forall i: nat | i < e.start
      ensures !RunAt(s, i, e.sectors, false)
    {
    }
  }

  /// The extent is free, no run of its length is free further ahead, and no longer run that
  /// the rest allows is free anywhere.
  ghost predicate First(s: seq<bool>, rest: nat, e: Extent) {
    && 0 < e.sectors <= rest && RunAt(s, e.start, e.sectors, false)
    && (forall i: nat :: i < e.start ==> !RunAt(s, i, e.sectors, false))
    && (forall i: nat, m: nat :: e.sectors < m <= rest ==> !RunAt(s, i, m, false))
  }

  /// Extent i is the first longest one in the map that those before it have left.
  ghost predicate FirstAt(s: seq<bool>, n: nat, p: seq<Extent>, i: nat)
    requires i < |p|
  {
    Total(p[..i]) <= n && First(TakeAll(s, p[..i]), n - Total(p[..i]), p[i])
  }

  ghost predicate FirstLongest(s: seq<bool>, n: nat, p: seq<Extent>) {
    Total(p) == n && forall i: nat :: i < |p| ==> FirstAt(s, n, p, i)
  }

  lemma FirstAtTail(s: seq<bool>, n: nat, p: seq<Extent>, i: nat)
    requires i + 1 < |p| && p[0].sectors <= n
    ensures FirstAt(s, n, p, i + 1) <==> FirstAt(Take(s, p[0]), n - p[0].sectors, p[1..], i)
  {
    assert p[..i + 1][0] == p[0] && p[..i + 1][1..] == p[1..][..i];
    assert p[1..][i] == p[i + 1];
  }

  lemma FirstAtHead(s: seq<bool>, n: nat, p: seq<Extent>)
    requires p != []
    ensures FirstAt(s, n, p, 0) <==> First(s, n, p[0])
  {
    assert p[..0] == [];
  }

  lemma FirstLongestTail(s: seq<bool>, n: nat, p: seq<Extent>)
    requires p != [] && FirstLongest(s, n, p)
    ensures First(s, n, p[0]) && FirstLongest(Take(s, p[0]), n - p[0].sectors, p[1..])
  {
    assert FirstAt(s, n, p, 0);
    FirstAtHead(s, n, p);
    var t, m, q := Take(s, p[0]), n - p[0].sectors, p[1..];
    forall i: nat | i < |q|
      ensures FirstAt(t, m, q, i)
    {
      assert FirstAt(s, n, p, i + 1);
      FirstAtTail(s, n, p, i);
    }
  }

  lemma FirstLongestCons(s: seq<bool>, n: nat, p: seq<Extent>)
    requires p != [] && First(s, n, p[0]) && FirstLongest(Take(s, p[0]), n - p[0].sectors, p[1..])
    ensures FirstLongest(s, n, p)
  {
    forall i: nat | i < |p|
      ensures FirstAt(s, n, p, i)
    {
      if i == 0 {
        FirstAtHead(s, n, p);
      } else {
        assert FirstAt(Take(s, p[0]), n - p[0].sectors, p[1..], i - 1);
        FirstAtTail(s, n, p, i - 1);
      }
    }
  }

  /// So the loop records each extent where the first longest run is,
  lemma {:induction false} GreedyIsFirstLongest(s: seq<bool>, n: nat)
    requires |s| <= NPOS && n <= |Free(s)|
    ensures FirstLongest(s, n, Greedy(s, n))
    decreases n
  {
    if n > 0 {
      var e := Round(s, n);
      RoundIsFirst(s, n);
      GreedyUnfolds(s, n);
      GreedyIsFirstLongest(Take(s, e), n - e.sectors);
      assert Greedy(s, n)[1..] == Greedy(Take(s, e), n - e.sectors);
      FirstLongestCons(s, n, Greedy(s, n));
    }
  }

  /// and there is no other way to do that.
  lemma {:induction false} FirstLongestIsUnique(s: seq<bool>, n: nat, p: seq<Extent>, q: seq<Extent>)
    requires FirstLongest(s, n, p) && FirstLongest(s, n, q)
    ensures p == q
    decreases |p|
  {
    if p == [] || q == [] {
      NothingToPlace(s, n, p);
      NothingToPlace(s, n, q);
    } else {
      FirstLongestTail(s, n, p);
      FirstLongestTail(s, n, q);
      FirstIsUnique(s, n, p[0], q[0]);
      FirstLongestIsUnique(Take(s, p[0]), n - p[0].sectors, p[1..], q[1..]);
      assert p == [p[0]] + p[1..] && q == [q[0]] + q[1..];
    }
  }

  lemma NothingToPlace(s: seq<bool>, n: nat, p: seq<Extent>)
    requires FirstLongest(s, n, p)
    ensures n == 0 <==> p == []
  {
    if p != [] {
      FirstLongestTail(s, n, p);
    }
  }

  lemma FirstIsUnique(s: seq<bool>, n: nat, e: Extent, g: Extent)
    requires First(s, n, e) && First(s, n, g)
    ensures e == g
  {
    assert e.sectors < g.sectors ==> !RunAt(s, g.start, g.sectors, false);
    assert g.sectors < e.sectors ==> !RunAt(s, e.start, e.sectors, false);
  }

  lemma FreeBefore(s: seq<bool>, e: Extent, r: Extent)
    requires FreeRun(Take(s, e), r)
    ensures FreeRun(s, r)
  {
    forall k | r.start <= k < r.start + r.sectors ensures !s[k] {
      assert !Take(s, e)[k];
    }
  }

  /// Extents served in turn are free runs of the initial map, pairwise disjoint, and
  /// exactly their sectors are gone afterwards.
  lemma {:induction false} ServedIsDisjoint(s: seq<bool>, p: seq<Extent>)
    requires Served(s, p)
    ensures Disjoint(p) && forall e :: e in p ==> FreeRun(s, e) && e.sectors > 0
    ensures Cover(p) <= Free(s) && Free(TakeAll(s, p)) == Free(s) - Cover(p)
    decreases |p|
  {
    if p != [] {
      var t := Take(s, p[0]);
      ServedIsDisjoint(t, p[1..]);
      TakeRemoves(s, p[0]);
      forall i | 0 < i < |p| ensures Sectors(p[0]) !! Sectors(p[i]) {
        assert p[i] == p[1..][i - 1];
        TakeRemoves(t, p[i]);
      }
      forall i, j | 0 <= i < j < |p| ensures Sectors(p[i]) !! Sectors(p[j]) {
        if i > 0 {
          assert p[i] == p[1..][i - 1] && p[j] == p[1..][j - 1];
        }
      }
      forall e | e in p ensures FreeRun(s, e) && e.sectors > 0 {
        if e != p[0] {
          assert e in p[1..];
          FreeBefore(s, p[0], e);
        }
      }
    }
  }

  lemma NonIncreasing(s: seq<bool>, n: nat, i: nat, j: nat)
    requires |s| <= NPOS && n <= |Free(s)| && i < j < |Greedy(s, n)|
    ensures Greedy(s, n)[i].sectors >= Greedy(s, n)[j].sectors
    decreases n
  {
    var p, g := Greedy(s, n), Round(s, n);
    RoundProgress(s, n);
    if i == 0 {
      GreedyServed(s, n);
      ServedIsDisjoint(s, p);
      assert p[j] in p;
      assert g.sectors < n;
      RoundIsLongest(s, n, p[j]);
    } else {
      NonIncreasing(Take(s, g), n - g.sectors, i - 1, j - 1);
    }
  }

  datatype Released = Done(left: seq<bool>) | Panic

  /// The walk over the recorded extents: each must be wholly allocated, and is cleared.
  function Release(s: seq<bool>, p: seq<Extent>): Released
    decreases |p|
  {
    if p == [] then Done(s)
    else if p[0].start < |s| && RunAt(s, p[0].start, p[0].sectors, true) then
      Release(Fill(s, p[0].start, p[0].sectors, false), p[1..])
    else Panic
  }

  /// What can be given back: extents that are allocated throughout, and no two of the same
  /// sector.
  ghost predicate Releasable(s: seq<bool>, p: seq<Extent>) {
    && (forall e <- p :: e.start < |s| && RunAt(s, e.start, e.sectors, true))
    && Disjoint(p)
  }

  lemma RunAfterRelease(s: seq<bool>, g: Extent, e: Extent)
    ensures RunAt(Fill(s, g.start, g.sectors, false), e.start, e.sectors, true)
       <==> RunAt(s, e.start, e.sectors, true) && Sectors(g) !! Sectors(e)
  {
    var t := Fill(s, g.start, g.sectors, false);
    if RunAt(t, e.start, e.sectors, true) {
      forall k | k in Sectors(e) ensures k !in Sectors(g) && s[k] {
        assert t[k];
      }
    } else if RunAt(s, e.start, e.sectors, true) && Sectors(g) !! Sectors(e) {
      forall k | e.start <= k < e.start + e.sectors ensures t[k] {
        assert k in Sectors(e);
      }
    }
  }

  lemma ReleasableTail(s: seq<bool>, p: seq<Extent>)
    requires p != []
    ensures Releasable(s, p)
       <==> p[0].start < |s| && RunAt(s, p[0].start, p[0].sectors, true)
            && Releasable(Fill(s, p[0].start, p[0].sectors, false), p[1..])
  {
    var t, q := Fill(s, p[0].start, p[0].sectors, false), p[1..];
    forall e <- q
      ensures RunAt(t, e.start, e.sectors, true)
         <==> RunAt(s, e.start, e.sectors, true) && Sectors(p[0]) !! Sectors(e)
    {
      RunAfterRelease(s, p[0], e);
    }
    assert forall e <- p :: e == p[0] || e in q;
    assert forall i :: 0 < i < |p| ==> p[i] == q[i - 1];
    if Releasable(s, p) {
      forall i | 0 < i < |p| ensures Sectors(p[0]) !! Sectors(p[i]) {
      }
      assert forall e <- q :: e in p && exists i :: 0 < i < |p| && p[i] == e;
    } else if Releasable(t, q) {
      forall i | 0 < i < |p| ensures Sectors(p[0]) !! Sectors(p[i]) {
        assert q[i - 1] in q;
      }
    }
  }

  /// The walk succeeds exactly on those, and then their sectors and no others are cleared.
  lemma {:induction false} ReleaseIff(s: seq<bool>, p: seq<Extent>)
    ensures Release(s, p).Done? <==> Releasable(s, p)
    ensures match Release(s, p)
            case Panic => true
            case Done(t) => |t| == |s| && forall k :: 0 <= k < |s| ==> (t[k] <==> s[k] && k !in Cover(p))
    decreases |p|
  {
    if p != [] {
      ReleasableTail(s, p);
      if p[0].start < |s| && RunAt(s, p[0].start, p[0].sectors, true) {
        ReleaseIff(Fill(s, p[0].start, p[0].sectors, false), p[1..]);
      }
    }
  }

  /// Giving back an extent that was taken first undoes that step alone.
  lemma {:induction false} UndoFirst(s: seq<bool>, e: Extent, p: seq<Extent>)
    requires FreeRun(s, e) && Served(Take(s, e), p)
    ensures var t := TakeAll(Take(s, e), p);
      RunAt(t, e.start, e.sectors, true) && Fill(t, e.start, e.sectors, false) == TakeAll(s, p)
    ensures Served(s, p)
    decreases |p|
  {
    if p == [] {
      assert Fill(Take(s, e), e.start, e.sectors, false) == s;
    } else {
      var u := Take(s, p[0]);
      assert FreeRun(u, e) by {
        forall k | e.start <= k < e.start + e.sectors ensures !u[k] {
          assert Take(s, e)[k];
        }
      }
      FreeBefore(s, e, p[0]);
      assert Take(Take(s, e), p[0]) == Take(u, e);
      UndoFirst(u, e, p[1..]);
    }
  }

  lemma {:induction false} ReleaseRestores(s: seq<bool>, p: seq<Extent>)
    requires Served(s, p)
    ensures Release(TakeAll(s, p), p) == Done(s)
    decreases |p|
  {
    if p != [] {
      UndoFirst(s, p[0], p[1..]);
      ReleaseRestores(s, p[1..]);
    }
  }

  /// A request fits the header slots of an inode exactly when some choice of free runs does.
  lemma HeaderSuffices(s: seq<bool>, n: nat, slots: nat)
    requires |s| <= NPOS && n <= |Free(s)|
    ensures |Greedy(s, n)| <= slots <==>
      exists p: seq<Extent> :: |p| <= slots && Disjoint(p) && Total(p) == n && forall e :: e in p ==> FreeRun(s, e)
  {
    GreedyServed(s, n);
    ServedIsDisjoint(s, Greedy(s, n));
    forall p: seq<Extent> | Disjoint(p) && Total(p) == n && forall e :: e in p ==> FreeRun(s, e)
      ensures |Greedy(s, n)| <= |p|
    {
      DisjointCount(p);
      GreedyIsOptimal(s, n, p);
    }
  }

  // ---- termination ----

  /// The outer loop after at most t rounds: the map and the sectors still wanted.
  function AfterRounds(s: seq<bool>, n: nat, t: nat): (seq<bool>, nat)
    requires |s| <= NPOS
    decreases t
  {
    if t == 0 || n == 0 then (s, n)
    else AfterRounds(Take(s, Round(s, n)), n - Round(s, n).sectors, t - 1)
  }

  lemma {:induction false} ShortageIsConstant(s: seq<bool>, n: nat, t: nat)
    requires 0 < |s| <= NPOS
    ensures AfterRounds(s, n, t).1 - |Free(AfterRounds(s, n, t).0)| == n - |Free(s)|
    decreases t
  {
    if t > 0 && n > 0 {
      var e := Round(s, n);
      if Free(s) != {} {
        RoundProgress(s, n);
      } else {
        assert e.sectors == 0 by {
          BestAttemptIsBest(s, n);
          if e.sectors > 0 { TakeRemoves(s, e); }
        }
        assert Take(s, e) == s;
      }
      ShortageIsConstant(Take(s, e), n - e.sectors, t - 1);
    }
  }

  lemma {:induction false} EnoughRounds(s: seq<bool>, n: nat)
    requires |s| <= NPOS && n <= |Free(s)|
    ensures AfterRounds(s, n, |Greedy(s, n)|) == (TakeAll(s, Greedy(s, n)), 0)
    decreases n
  {
    if n > 0 {
      RoundProgress(s, n);
      EnoughRounds(Take(s, Round(s, n)), n - Round(s, n).sectors);
    }
  }

  /// The loop ends exactly for requests the map can hold. Beyond that it keeps recording
  /// extents of zero sectors, which is why the guard needs a true free count.
  lemma LoopFinishes(s: seq<bool>, n: nat)
    requires 0 < |s| <= NPOS
    ensures (exists t: nat :: AfterRounds(s, n, t).1 == 0) <==> n <= |Free(s)|
  {
    if t: nat :| AfterRounds(s, n, t).1 == 0 {
      ShortageIsConstant(s, n, t);
    }
    if n <= |Free(s)| {
      EnoughRounds(s, n);
    }
  }

  // ---- the 32-bit extent record ----

  const WIDTH: nat := 0x1_0000_0000

  /// An extent as stored: both members are cut to 32 bits.
  type StoredExtent = e: Extent | e.start < WIDTH && e.sectors < WIDTH witness Extent(0, 0)

  function Stored(e: Extent): StoredExtent {
    Extent(e.start % WIDTH, e.sectors % WIDTH)
  }

  function StoredAll(p: seq<Extent>): (q: seq<StoredExtent>)
    ensures |q| == |p|
  {
    seq(|p|, i requires 0 <= i < |p| => Stored(p[i]))
  }

  // ---- the outer loop on the inode's record ----

  /// The loop from a given point: what the inode has recorded, the map, and the rest.
  function Finish(record: seq<StoredExtent>, now: seq<bool>, rest: nat): (seq<StoredExtent>, seq<bool>)
    requires |now| <= NPOS && rest <= |Free(now)|
    decreases rest
  {
    if rest == 0 then (record, now)
    else
      RoundProgress(now, rest);
      Finish(record + [Stored(Round(now, rest))], Take(now, Round(now, rest)), rest - Round(now, rest).sectors)
  }

  lemma {:induction false} FinishIsGreedy(record: seq<StoredExtent>, now: seq<bool>, rest: nat)
    requires |now| <= NPOS && rest <= |Free(now)|
    ensures Finish(record, now, rest) == (record + StoredAll(Greedy(now, rest)), TakeAll(now, Greedy(now, rest)))
    decreases rest
  {
    if rest > 0 {
      GreedyUnfolds(now, rest);
      var e := Round(now, rest);
      var p := Greedy(Take(now, e), rest - e.sectors);
      FinishIsGreedy(record + [Stored(e)], Take(now, e), rest - e.sectors);
      assert record + StoredAll([e] + p) == record + [Stored(e)] + StoredAll(p);
    } else {
      assert StoredAll(Greedy(now, rest)) == [];
      assert record + [] == record;
    }
  }

  /// On a volume of at most 2^32 sectors whose root sector is taken, nothing is cut.
  lemma StoredExactly(s: seq<bool>, p: seq<Extent>)
    requires 0 < |s| <= WIDTH && s[0] && Served(s, p)
    ensures StoredAll(p) == p
  {
    ServedIsDisjoint(s, p);
    forall i | 0 <= i < |p| ensures StoredAll(p)[i] == p[i] {
      assert p[i] in p && FreeRun(s, p[i]);
      RunIsStored(s, p[i]);
    }
  }

  lemma RunIsStored(s: seq<bool>, e: Extent)
    requires 0 < |s| <= WIDTH && s[0] && FreeRun(s, e) && e.sectors > 0
    ensures Stored(e) == e
  {
    assert !s[e.start];
  }

  /// There, allocating and then freeing what the inode recorded restores the free map.
  lemma AllocateThenFree(s: seq<bool>, n: nat)
    requires 0 < |s| <= WIDTH && s[0] && n <= |Free(s)|
    ensures Release(TakeAll(s, Greedy(s, n)), StoredAll(Greedy(s, n))) == Done(s)
  {
    GreedyServed(s, n);
    StoredExactly(s, Greedy(s, n));
    ReleaseRestores(s, Greedy(s, n));
  }

  // ---- when the record is enough ----

  /// The sum of the numbers of the allocated sectors, and of those in an extent.
  function Weight(s: seq<bool>): nat {
    if s == [] then 0 else Weight(s[..|s| - 1]) + if s[|s| - 1] then |s| - 1 else 0
  }

  function Numbers(start: nat, n: nat): nat {
    if n == 0 then 0 else Numbers(start, n - 1) + start + n - 1
  }

  function AllNumbers(p: seq<Extent>): nat {
    if p == [] then 0 else Numbers(p[0].start, p[0].sectors) + AllNumbers(p[1..])
  }

  lemma {:induction false} WeightOfUpdate(s: seq<bool>, k: nat)
    requires k < |s| && s[k]
    ensures Weight(s[k := false]) + k == Weight(s)
  {
    var t, n := s[k := false], |s| - 1;
    if k == n {
      assert t[..n] == s[..n];
    } else {
      WeightOfUpdate(s[..n], k);
      assert t[..n] == s[..n][k := false];
    }
  }

  lemma {:induction false} WeightOfFill(s: seq<bool>, i: nat, n: nat)
    requires RunAt(s, i, n, true)
    ensures Weight(Fill(s, i, n, false)) + Numbers(i, n) == Weight(s)
  {
    if n == 0 {
      assert Fill(s, i, 0, false) == s;
    } else {
      WeightOfFill(s, i, n - 1);
      FillOne(s, i, n - 1, false);
      WeightOfUpdate(Fill(s, i, n - 1, false), i + n - 1);
    }
  }

  /// What a release that goes through takes off the weight.
  lemma {:induction false} ReleaseWeight(s: seq<bool>, p: seq<Extent>)
    requires Release(s, p).Done?
    ensures Weight(Release(s, p).left) + AllNumbers(p) == Weight(s)
    decreases |p|
  {
    if p != [] {
      WeightOfFill(s, p[0].start, p[0].sectors);
      ReleaseWeight(Fill(s, p[0].start, p[0].sectors, false), p[1..]);
    }
  }

  lemma {:induction false} NumbersGrow(a: nat, m: nat, b: nat, n: nat)
    requires a <= b && m <= n
    ensures Numbers(a, m) <= Numbers(b, n)
    ensures a < b && 0 < m == n ==> Numbers(a, m) < Numbers(b, n)
    ensures m < n && n > 1 ==> Numbers(a, m) < Numbers(b, n)
    decreases n
  {
    if n > 0 {
      if m == n {
        NumbersGrow(a, m - 1, b, n - 1);
      } else {
        NumbersGrow(a, m, b, n - 1);
      }
    }
  }

  predicate Fits(e: Extent) {
    e.start < WIDTH && e.sectors < WIDTH
  }

  /// Cutting an extent that does not fit loses weight.
  lemma CutLosesWeight(e: Extent)
    requires e.sectors > 0
    ensures var c := Stored(e); Numbers(c.start, c.sectors) <= Numbers(e.start, e.sectors)
    ensures var c := Stored(e); Numbers(c.start, c.sectors) == Numbers(e.start, e.sectors) <==> Fits(e)
  {
    var c := Stored(e);
    assert c.start <= e.start && c.sectors <= e.sectors;
    assert c.start == e.start <==> e.start < WIDTH;
    assert c.sectors == e.sectors <==> e.sectors < WIDTH;
    NumbersGrow(c.start, c.sectors, e.start, e.sectors);
  }

  lemma {:induction false} CutsLoseWeight(p: seq<Extent>)
    requires forall e <- p :: e.sectors > 0
    ensures AllNumbers(StoredAll(p)) <= AllNumbers(p)
    ensures AllNumbers(StoredAll(p)) == AllNumbers(p) <==> forall e <- p :: Fits(e)
  {
    if p != [] {
      CutLosesWeight(p[0]);
      CutsLoseWeight(p[1..]);
      assert StoredAll(p)[1..] == StoredAll(p[1..]);
      assert (forall e <- p :: Fits(e)) <==> Fits(p[0]) && forall e <- p[1..] :: Fits(e);
    }
  }

  lemma FittingIsStored(p: seq<Extent>)
    requires forall e <- p :: Fits(e)
    ensures StoredAll(p) == p
  {
    forall i | 0 <= i < |p| ensures StoredAll(p)[i] == p[i] {
      assert p[i] in p;
    }
  }

  lemma RestoredFits(s: seq<bool>, t: seq<bool>, p: seq<Extent>)
    requires Release(t, p) == Done(s) && Release(t, StoredAll(p)) == Done(s) && forall e <- p :: e.sectors > 0
    ensures forall e <- p :: Fits(e)
  {
    ReleaseWeight(t, p);
    ReleaseWeight(t, StoredAll(p));
    CutsLoseWeight(p);
  }

  /// On every volume, allocating and then freeing what the inode recorded restores the free
  /// map exactly when every extent fits the record's 32-bit members.
  lemma AllocateThenFreeIff(s: seq<bool>, n: nat)
    requires |s| <= NPOS && n <= |Free(s)|
    ensures Release(TakeAll(s, Greedy(s, n)), StoredAll(Greedy(s, n))) == Done(s)
       <==> forall e <- Greedy(s, n) :: Fits(e)
  {
    GreedyServed(s, n);
    var p := Greedy(s, n);
    var t := TakeAll(s, p);
    ServedIsDisjoint(s, p);
    ReleaseRestores(s, p);
    if Release(t, StoredAll(p)) == Done(s) {
      RestoredFits(s, t, p);
    } else if forall e <- p :: Fits(e) {
      FittingIsStored(p);
    }
  }

  /// A list of one extent.
  lemma OneStep(s: seq<bool>, e: Extent)
    ensures TakeAll(s, [e]) == Take(s, e)
    ensures e.start < |s| && RunAt(s, e.start, e.sectors, true) ==>
              Release(s, [e]) == Done(Fill(s, e.start, e.sectors, false))
  {
    assert [e][1..] == [];
  }

  lemma FillTwice(s: seq<bool>, w: nat)
    requires 0 < w < |s|
    ensures Fill(Fill(s, w, 1, true), 0, 1, false) == Fill(s, 0, 1, false)[w := true]
  {
    var t, u := Fill(Fill(s, w, 1, true), 0, 1, false), Fill(s, 0, 1, false)[w := true];
    forall k | 0 <= k < |s|
      ensures t[k] == u[k]
    {
    }
  }

  /// With one sector free, a request for one sector gets it.
  lemma OnlyChoice(s: seq<bool>)
    requires WIDTH < |s| <= NPOS && forall i :: 0 <= i < |s| ==> (s[i] <==> i != WIDTH)
    ensures Free(s) == {WIDTH} && Greedy(s, 1) == [Extent(WIDTH, 1)]
  {
    assert Free(s) == {WIDTH};
    RoundProgress(s, 1);
    var e := Round(s, 1);
    TakeRemoves(s, e);
    assert e.start in Sectors(e);
    GreedyUnfolds(s, 1);
    assert Greedy(Take(s, e), 0) == [];
  }

  /// On every larger volume some map and some request fail: with only sector 2^32 free, one
  /// sector comes back as the root directory's, and freeing the file frees the root.
  lemma CutExtentFreesRoot(s: seq<bool>)
    requires WIDTH < |s| <= NPOS && forall i :: 0 <= i < |s| ==> (s[i] <==> i != WIDTH)
    ensures Free(s) == {WIDTH}
    ensures var p := Greedy(s, 1);
      p == [Extent(WIDTH, 1)] && Release(TakeAll(s, p), StoredAll(p)) == Done(Fill(s, 0, 1, false)[WIDTH := true])
  {
    OnlyChoice(s);
    var e := Extent(WIDTH, 1);
    OneStep(s, e);
    assert StoredAll([e]) == [Extent(0, 1)];
    OneStep(Take(s, e), Extent(0, 1));
    FillTwice(s, WIDTH);
  }

  lemma LargerVolumesFail(size: nat) returns (s: seq<bool>)
    requires WIDTH < size <= NPOS
    ensures |s| == size && 1 <= |Free(s)|
    ensures Release(TakeAll(s, Greedy(s, 1)), StoredAll(Greedy(s, 1))) != Done(s)
  {
    s := seq(size, i => i != WIDTH);
    CutExtentFreesRoot(s);
    assert s[0] && !Fill(s, 0, 1, false)[WIDTH := true][0];
  }
}

module FileSystem {
  import opened Bits
  import opened Extents
  import opened Bitmaps

  const ROOT_DIR_SECTOR: nat := 0

  /// The extent list of an on-disk inode. Insertion appends.
  class InodeDisk {
    var extents: seq<StoredExtent>

    constructor ()
      ensures extents == []
    {
      extents := [];
    }

    method InsertExtent(e: StoredExtent)
      modifies this
      ensures extents == old(extents) + [e]
    {
      extents := extents + [e];
    }
  }

  /// The free map with its lock, seen as the value of its binary semaphore, and the count
  /// of free sectors.
  class FreeMap {
    const bits: Bitmap
    var freeSectors: nat
    var lockValue: nat

    ghost predicate Valid()
      reads this, bits.words
    {
      bits.Valid() && freeSectors == |Free(Contents())|
    }

    ghost predicate RootHeld()
      requires bits.Valid()
      reads bits.words
    {
      0 < bits.bitcount && Contents()[ROOT_DIR_SECTOR]
    }

    ghost function Contents(): (s: seq<bool>)
      requires bits.Valid()
      reads bits.words
    {
      bits.Contents()
    }

    /// A volume whose only allocated sector is the root directory's.
    constructor (sectors: nat)
      requires 0 < sectors <= NPOS
      ensures Valid() && RootHeld() && fresh(bits.words) && lockValue == 1
      ensures Contents() == seq(sectors, i => i == ROOT_DIR_SECTOR)
    {
      var b := new Bitmap(sectors);
      b.Set(ROOT_DIR_SECTOR, 1, true);
      bits, freeSectors, lockValue := b, sectors - 1, 1;
      new;
      assert Contents() == seq(sectors, i => i == ROOT_DIR_SECTOR);
      SectorCount(1, sectors - 1);
      assert Free(Contents()) == Sectors(Extent(1, sectors - 1));
    }

    /// Allocates the first run of the given length, if there is one.
    method Allocate(sectors: nat) returns (sector: nat)
      requires Valid() && lockValue > 0 && sectors < bits.bitcount
      modifies this, bits.words
      ensures Valid() && lockValue == old(lockValue)
      ensures sector == FirstRun(old(Contents()), 0, sectors, false)
      ensures sector == NPOS ==> Contents() == old(Contents())
      ensures sector != NPOS ==> Contents() == Take(old(Contents()), Extent(sector, sectors))
    {
      lockValue := lockValue - 1;
      sector := bits.ScanAndFlip(0, sectors, false);
      FirstRunIsScan(old(Contents()), 0, sectors, false);
      if sector != NPOS {
        TakeRemoves(old(Contents()), Extent(sector, sectors));
        freeSectors := freeSectors - sectors;
      }
      lockValue := lockValue + 1;
    }

    /// Returns false when the range is not wholly allocated, where the kernel panics.
    method ReleaseExtent(e: StoredExtent) returns (ok: bool)
      requires Valid() && lockValue > 0
      modifies this, bits.words
      ensures Valid() && lockValue == old(lockValue)
      ensures ok == (e.start < bits.bitcount && RunAt(old(Contents()), e.start, e.sectors, true))
      ensures Contents() == if ok then Fill(old(Contents()), e.start, e.sectors, false) else old(Contents())
    {
      lockValue := lockValue - 1;
      ok := bits.All(e.start, e.sectors, true);
      if ok {
        ghost var before := Contents();
        bits.Set(e.start, e.sectors, false);
        assert Take(Contents(), e) == before;
        TakeRemoves(Contents(), e);
        freeSectors := freeSectors + e.sectors;
      }
      lockValue := lockValue + 1;
    }

    /// The inner loop: ask for the whole rest, then for one sector less until a run is found.
    method AllocateBest(rest: nat) returns (start: nat, best: nat)
      requires Valid() && RootHeld() && lockValue > 0 && 0 < rest <= |Free(Contents())|
      modifies this, bits.words
      ensures Valid() && RootHeld() && lockValue == old(lockValue)
      ensures Extent(start, best) == Round(old(Contents()), rest)
      ensures First(old(Contents()), rest, Extent(start, best))
      ensures Contents() == Take(old(Contents()), Extent(start, best))
    {
      ghost var now := Contents();
      RoundProgress(now, rest);
      FreeBelowSize(now);
      best := rest;
      start := Allocate(best);
      while start == NPOS
        invariant 0 < best <= rest && Valid() && lockValue == old(lockValue)
        invariant BestAttempt(now, best) == BestAttempt(now, rest)
        invariant start == FirstRun(now, 0, best, false)
        invariant Contents() == if start == NPOS then now else Take(now, Extent(start, best))
        decreases best
      {
        best := best - 1;
        start := Allocate(best);
      }
      RoundIsFirst(now, rest);
    }

    /// The outer loop.
    method PlaceAll(inode: InodeDisk, sectors: nat)
      requires Valid() && RootHeld() && lockValue > 0 && sectors <= |Free(Contents())|
      modifies this, bits.words, inode
      ensures Valid() && RootHeld() && lockValue == old(lockValue)
      ensures inode.extents == old(inode.extents) + StoredAll(Greedy(old(Contents()), sectors))
      ensures Contents() == TakeAll(old(Contents()), Greedy(old(Contents()), sectors))
    {
      var rest: nat := sectors;
      while rest > 0
        invariant Valid() && RootHeld() && lockValue == old(lockValue) && rest <= |Free(Contents())|
        invariant Finish(inode.extents, Contents(), rest) == Finish(old(inode.extents), old(Contents()), sectors)
        decreases rest
      {
        RoundProgress(Contents(), rest);
        var best := PlaceOne(inode, rest);
        rest := rest - best;
      }
      FinishIsGreedy(old(inode.extents), old(Contents()), sectors);
    }

    /// One round of it.
    method PlaceOne(inode: InodeDisk, rest: nat) returns (best: nat)
      requires Valid() && RootHeld() && lockValue > 0 && 0 < rest <= |Free(Contents())|
      modifies this, bits.words, inode
      ensures Valid() && RootHeld() && lockValue == old(lockValue)
      ensures var e := Round(old(Contents()), rest);
        best == e.sectors && Contents() == Take(old(Contents()), e) && inode.extents == old(inode.extents) + [Stored(e)]
    {
      var start, length := AllocateBest(rest);
      inode.InsertExtent(Stored(Extent(start, length)));
      best := length;
    }

    /// The whole request. The lock is released once when the request is admitted and once more
    /// at the end, so a success leaves the semaphore one too high.
    method AllocateSpace(inode: InodeDisk, sectors: nat) returns (success: bool)
      requires Valid() && RootHeld() && lockValue > 0
      modifies this, bits.words, inode
      ensures Valid() && RootHeld()
      ensures success <==> sectors <= |Free(old(Contents()))|
      ensures success ==> inode.extents == old(inode.extents) + StoredAll(Greedy(old(Contents()), sectors))
      ensures success ==> Contents() == TakeAll(old(Contents()), Greedy(old(Contents()), sectors))
      ensures success ==> exists p {:trigger StoredAll(p)} ::
                && FirstLongest(old(Contents()), sectors, p)
                && inode.extents == old(inode.extents) + StoredAll(p)
      ensures !success ==> inode.extents == old(inode.extents) && Contents() == old(Contents())
      ensures lockValue == old(lockValue) + if success then 1 else 0
    {
      success := false;
      lockValue := lockValue - 1;
      if sectors <= freeSectors {
        success := true;
        lockValue := lockValue + 1;
        GreedyIsFirstLongest(Contents(), sectors);
        PlaceAll(inode, sectors);
      }
      lockValue := lockValue + 1;
    }

    /// Frees the recorded extents in order; stops with false at the first failed check.
    method FreeData(inode: InodeDisk) returns (ok: bool)
      requires Valid() && lockValue > 0
      modifies this, bits.words
      ensures Valid() && lockValue == old(lockValue)
      ensures ok <==> Releasable(old(Contents()), inode.extents)
      ensures ok ==> Release(old(Contents()), inode.extents) == Done(Contents())
    {
      ReleaseIff(Contents(), inode.extents);
      var i := 0;
      ok := true;
      while i < |inode.extents| && ok
        invariant 0 <= i <= |inode.extents|
        invariant Valid() && lockValue == old(lockValue)
        invariant ok ==> Release(old(Contents()), inode.extents) == Release(Contents(), inode.extents[i..])
        invariant !ok ==> Release(old(Contents()), inode.extents).Panic?
      {
        ok := ReleaseExtent(inode.extents[i]);
        i := i + 1;
      }
    }
  }

  /// The root sector is never free, so a request that fits is smaller than the map.
  lemma FreeBelowSize(s: seq<bool>)
    requires 0 < |s| && s[ROOT_DIR_SECTOR]
    ensures |Free(s)| < |s|
  {
    SectorCount(1, |s| - 1);
    SubsetCount(Free(s), Sectors(Extent(1, |s| - 1)));
  }
}
