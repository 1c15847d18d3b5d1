/// The linked list of list.c in a memory of 64-bit words, where a node is an address and two
/// nodes can overlap (kern/lib/shared/list.c, kern/lib/include/shared/util/list.h).

module Links {
  import opened Queues

  /// Memory by word address. What was never written is zero.
  type WordMap = map<nat, nat>

  function Get(m: WordMap, a: nat): nat {
    if a in m then m[a] else 0
  }

  // A node at e has prev at e and next at e + 8. A list at li has its head sentinel at li,
  // its tail sentinel at li + 16, and its size at li + 32.

  function Empty(m: WordMap, li: nat): bool {
    Get(m, li + 32) == 0
  }

  function PushBack(m: WordMap, li: nat, el: nat): WordMap {
    var tp := if Empty(m, li) then li else Get(m, li + 16);
    var u := m[el := tp][tp + 8 := el][li + 16 := el][el + 8 := li + 16];
    u[li + 32 := Get(u, li + 32) + 1]
  }

  /// A size of zero wraps.
  function Less(size: nat): nat {
    if size == 0 then 0xFFFF_FFFF_FFFF_FFFF else size - 1
  }

  /// The two links around a node are joined, whatever the node's own links say.
  function Detach(m: WordMap, li: nat, el: nat): WordMap {
    var pr, ne := Get(m, el), Get(m, el + 8);
    var u := m[pr + 8 := ne][ne := pr];
    u[li + 32 := Less(Get(u, li + 32))]
  }

  /// The front element, which list_pop_front unlinks.
  function Front(m: WordMap, li: nat): nat {
    Get(m, li + 8)
  }

  function Remove(m: WordMap, li: nat, el: nat): WordMap {
    if Empty(m, li) then m else Detach(m, li, el)
  }

  // ---- when memory holds a sequence ----

  ghost function Chain(li: nat, q: seq<nat>): seq<nat> {
    [li] + q + [li + 16]
  }

  /// Node i of the chain and the next one point at each other.
  predicate LinkAt(m: WordMap, c: seq<nat>, i: nat)
    requires i + 1 < |c|
  {
    Get(m, c[i] + 8) == c[i + 1] && Get(m, c[i + 1]) == c[i]
  }

  ghost predicate Linked(m: WordMap, c: seq<nat>) {
    forall i: nat {:trigger LinkAt(m, c, i)} :: i + 1 < |c| ==> LinkAt(m, c, i)
  }

  /// The list at li is the sequence q.
  ghost predicate Represents(m: WordMap, li: nat, q: seq<nat>) {
    && Get(m, li + 32) == |q|
    && NoDup<nat>(Chain(li, q))
    && (q != [] ==> Linked(m, Chain(li, q)))
  }

  predicate NodesApart(x: nat, y: nat) {
    x + 16 <= y || y + 16 <= x
  }

  predicate OutsideList(li: nat, x: nat) {
    x + 16 <= li || li + 40 <= x
  }

  /// No two nodes share a word, and none lies in the list's own words.
  ghost predicate Apart(li: nat, q: seq<nat>) {
    && (forall i {:trigger q[i]} :: 0 <= i < |q| ==> OutsideList(li, q[i]))
    && (forall i, j {:trigger q[i], q[j]} :: 0 <= i < j < |q| ==> NodesApart(q[i], q[j]))
  }

  /// The words of the list and its nodes.
  ghost predicate Footprint(li: nat, q: seq<nat>, w: nat) {
    li <= w < li + 40 || exists i :: 0 <= i < |q| && q[i] <= w < q[i] + 16
  }

  /// Two different places of a chain hold nodes that share no word, and none holds the size.
  lemma PlacesApart(li: nat, q: seq<nat>, i: nat, j: nat)
    requires Apart(li, q) && i < |q| + 2 && j < |q| + 2
    ensures i != j ==> NodesApart(Chain(li, q)[i], Chain(li, q)[j])
    ensures Chain(li, q)[i] + 16 <= li + 32 || li + 40 <= Chain(li, q)[i]
  {
    var c := Chain(li, q);
    assert 0 < i <= |q| ==> c[i] == q[i - 1];
    assert 0 < j <= |q| ==> c[j] == q[j - 1];
  }

  lemma ChainNoDup(li: nat, q: seq<nat>)
    requires Apart(li, q)
    ensures NoDup<nat>(Chain(li, q))
  {
    forall i, j | 0 <= i < j < |q| + 2
      ensures Chain(li, q)[i] != Chain(li, q)[j]
    {
      PlacesApart(li, q, i, j);
    }
  }

  /// A nonempty list's last node, or the head sentinel.
  lemma LastOf(m: WordMap, li: nat, q: seq<nat>)
    requires Represents(m, li, q)
    ensures Empty(m, li) <==> q == []
    ensures (if Empty(m, li) then li else Get(m, li + 16)) == Chain(li, q)[|q|]
    ensures q != [] ==> Front(m, li) == q[0]
  {
    var c := Chain(li, q);
    if q != [] {
      assert LinkAt(m, c, |q|) && LinkAt(m, c, 0);
    }
  }

  lemma PushBackKeeps(m: WordMap, li: nat, el: nat, tp: nat, w: nat)
    requires tp == (if Empty(m, li) then li else Get(m, li + 16))
    requires w != el && w != tp + 8 && w != li + 16 && w != el + 8 && w != li + 32
    ensures Get(PushBack(m, li, el), w) == Get(m, w)
  {
  }

  lemma PushBackSize(m: WordMap, li: nat, el: nat, tp: nat)
    requires tp == (if Empty(m, li) then li else Get(m, li + 16))
    requires (tp + 16 <= li + 32 || li + 40 <= tp) && (el + 16 <= li + 32 || li + 40 <= el)
    ensures Get(PushBack(m, li, el), li + 32) == Get(m, li + 32) + 1
  {
  }

  lemma OldLinkStays(m: WordMap, li: nat, q: seq<nat>, el: nat, i: nat)
    requires Represents(m, li, q) && Apart(li, q + [el]) && i < |q|
    ensures LinkAt(PushBack(m, li, el), Chain(li, q + [el]), i)
  {
    var c, d, n := Chain(li, q), Chain(li, q + [el]), |q|;
    LastOf(m, li, q);
    assert LinkAt(m, c, i) && d[i] == c[i] && d[i + 1] == c[i + 1] && d[n] == c[n];
    assert d[n + 1] == el && d[n + 2] == li + 16;
    PlacesApart(li, q + [el], i, n);
    PlacesApart(li, q + [el], i, n + 1);
    PlacesApart(li, q + [el], i, n + 2);
    PushBackKeeps(m, li, el, c[n], c[i] + 8);
    PlacesApart(li, q + [el], i + 1, n);
    PlacesApart(li, q + [el], i + 1, n + 1);
    PlacesApart(li, q + [el], i + 1, n + 2);
    PushBackKeeps(m, li, el, c[n], c[i + 1]);
  }

  lemma PushedLink(m: WordMap, li: nat, q: seq<nat>, el: nat, i: nat)
    requires Represents(m, li, q) && Apart(li, q + [el]) && i < |q| + 2
    ensures LinkAt(PushBack(m, li, el), Chain(li, q + [el]), i)
  {
    if i < |q| {
      OldLinkStays(m, li, q, el, i);
    } else {
      var c, d, n := Chain(li, q), Chain(li, q + [el]), |q|;
      LastOf(m, li, q);
      assert d[n] == c[n] && d[n + 1] == el && d[n + 2] == li + 16;
      PlacesApart(li, q + [el], n, n + 1);
      PlacesApart(li, q + [el], n + 1, n + 2);
      PlacesApart(li, q + [el], n, n + 2);
    }
  }

  /// list_push_back appends.
  lemma PushBackIs(m: WordMap, li: nat, q: seq<nat>, el: nat)
    requires Represents(m, li, q) && Apart(li, q + [el])
    ensures Represents(PushBack(m, li, el), li, q + [el])
  {
    ChainNoDup(li, q + [el]);
    var c := Chain(li, q);
    LastOf(m, li, q);
    PlacesApart(li, q + [el], |q|, |q| + 1);
    assert Chain(li, q + [el])[|q|] == c[|q|] && Chain(li, q + [el])[|q| + 1] == el;
    forall i: nat {:trigger LinkAt(PushBack(m, li, el), Chain(li, q + [el]), i)} | i + 1 < |q| + 3
      ensures LinkAt(PushBack(m, li, el), Chain(li, q + [el]), i)
    {
      PushedLink(m, li, q, el, i);
    }
  }

  ghost function Except(q: seq<nat>, k: nat): seq<nat>
    requires k < |q|
  {
    q[..k] + q[k + 1..]
  }

  lemma DetachKeeps(m: WordMap, li: nat, el: nat, w: nat)
    requires w != Get(m, el) + 8 && w != Get(m, el + 8) && w != li + 32
    ensures Get(Detach(m, li, el), w) == Get(m, w)
  {
  }

  lemma OtherLinkStays(m: WordMap, li: nat, q: seq<nat>, k: nat, j: nat)
    requires Represents(m, li, q) && Apart(li, q) && k < |q| && j < |q| + 1 && j != k && j != k + 1
    ensures LinkAt(Detach(m, li, q[k]), Chain(li, q), j)
  {
    var c := Chain(li, q);
    assert LinkAt(m, c, k) && LinkAt(m, c, k + 1) && LinkAt(m, c, j);
    assert c[k + 1] == q[k];
    PlacesApart(li, q, j, k);
    PlacesApart(li, q, j, k + 2);
    DetachKeeps(m, li, q[k], c[j] + 8);
    PlacesApart(li, q, j + 1, k);
    PlacesApart(li, q, j + 1, k + 2);
    DetachKeeps(m, li, q[k], c[j + 1]);
  }

  lemma DetachedLink(m: WordMap, li: nat, q: seq<nat>, k: nat, i: nat)
    requires Represents(m, li, q) && Apart(li, q) && k < |q| && i < |q|
    ensures LinkAt(Detach(m, li, q[k]), Chain(li, Except(q, k)), i)
  {
    var c, d := Chain(li, q), Chain(li, Except(q, k));
    var j := if i <= k then i else i + 1;
    assert d[i] == c[j] && d[i + 1] == c[if i < k then i + 1 else i + 2];
    if i == k {
      assert LinkAt(m, c, k) && LinkAt(m, c, k + 1) && c[k + 1] == q[k];
      PlacesApart(li, q, k, k + 2);
    } else {
      OtherLinkStays(m, li, q, k, j);
    }
  }

  lemma DetachApart(li: nat, q: seq<nat>, k: nat)
    requires Apart(li, q) && k < |q|
    ensures Apart(li, Except(q, k))
  {
    var r := Except(q, k);
    assert forall i :: 0 <= i < |r| ==> r[i] == q[if i < k then i else i + 1];
  }

  /// Unlinking a member takes it out.
  lemma DetachIs(m: WordMap, li: nat, q: seq<nat>, k: nat)
    requires Represents(m, li, q) && Apart(li, q) && k < |q|
    ensures Represents(Detach(m, li, q[k]), li, Except(q, k))
  {
    var r := Except(q, k);
    var c := Chain(li, q);
    DetachApart(li, q, k);
    ChainNoDup(li, r);
    assert LinkAt(m, c, k) && LinkAt(m, c, k + 1);
    assert c[k + 1] == q[k];
    PlacesApart(li, q, k, k + 2);
    forall i: nat {:trigger LinkAt(Detach(m, li, q[k]), Chain(li, r), i)} | i + 1 < |r| + 2
      ensures LinkAt(Detach(m, li, q[k]), Chain(li, r), i)
    {
      DetachedLink(m, li, q, k, i);
    }
  }

  // ---- which words an operation writes ----

  lemma PlaceInFootprint(li: nat, q: seq<nat>, i: nat, w: nat)
    requires i < |q| + 2
    ensures Chain(li, q)[i] <= w < Chain(li, q)[i] + 16 ==> Footprint(li, q, w)
  {
    assert 0 < i <= |q| ==> Chain(li, q)[i] == q[i - 1];
  }

  lemma PushBackWrites(m: WordMap, li: nat, q: seq<nat>, el: nat, w: nat)
    requires Represents(m, li, q) && !Footprint(li, q + [el], w)
    ensures Get(PushBack(m, li, el), w) == Get(m, w)
  {
    LastOf(m, li, q);
    assert Chain(li, q + [el])[|q|] == Chain(li, q)[|q|];
    assert Chain(li, q + [el])[|q| + 1] == el;
    PlaceInFootprint(li, q + [el], |q|, w);
    PlaceInFootprint(li, q + [el], |q| + 1, w);
    PushBackKeeps(m, li, el, Chain(li, q)[|q|], w);
  }

  lemma DetachWrites(m: WordMap, li: nat, q: seq<nat>, k: nat, w: nat)
    requires Represents(m, li, q) && k < |q| && !Footprint(li, q, w)
    ensures Get(Detach(m, li, q[k]), w) == Get(m, w)
  {
    var c := Chain(li, q);
    assert LinkAt(m, c, k) && LinkAt(m, c, k + 1) && c[k + 1] == q[k];
    PlaceInFootprint(li, q, k, w);
    PlaceInFootprint(li, q, k + 2, w);
    DetachKeeps(m, li, q[k], w);
  }

  /// A list does not change when none of its words does.
  lemma RepresentsDependsOn(m: WordMap, u: WordMap, li: nat, q: seq<nat>)
    requires Represents(m, li, q)
    requires forall w: nat {:trigger Get(u, w)} :: Footprint(li, q, w) ==> Get(u, w) == Get(m, w)
    ensures Represents(u, li, q)
  {
    var c := Chain(li, q);
    if q != [] {
      forall i: nat {:trigger LinkAt(u, c, i)} | i + 1 < |c|
        ensures LinkAt(u, c, i)
      {
        assert LinkAt(m, c, i);
        PlaceInFootprint(li, q, i, c[i] + 8);
        PlaceInFootprint(li, q, i + 1, c[i + 1]);
      }
    }
  }

  // ---- a node that is already on a list ----

  /// The chain q + [b] as it is after b was pushed twice: the size is one too high, and
  /// nothing is said of where b points back to.
  ghost predicate Doubled(m: WordMap, li: nat, q: seq<nat>, b: nat) {
    var d := Chain(li, q + [b]);
    && Get(m, li + 32) == |q| + 2
    && (forall i: nat {:trigger NextIs(m, d, i)} :: i < |q| + 2 ==> NextIs(m, d, i))
    && (forall i: nat {:trigger BackIs(m, d, i)} :: i < |q| + 2 && i != |q| ==> BackIs(m, d, i))
  }

  predicate NextIs(m: WordMap, d: seq<nat>, i: nat)
    requires i + 1 < |d|
  {
    Get(m, d[i] + 8) == d[i + 1]
  }

  predicate BackIs(m: WordMap, d: seq<nat>, i: nat)
    requires i + 1 < |d|
  {
    Get(m, d[i + 1]) == d[i]
  }

  lemma SecondPush(t: WordMap, li: nat, q: seq<nat>, b: nat)
    requires Represents(t, li, q + [b]) && Apart(li, q + [b])
    ensures Doubled(PushBack(t, li, b), li, q, b) && Get(PushBack(t, li, b), b) == b
  {
    var r, n := q + [b], |q|;
    LastOf(t, li, r);
    var u, d := PushBack(t, li, b), Chain(li, r);
    assert d[n + 1] == b && d[n + 2] == li + 16;
    PlacesApart(li, r, n + 1, n + 2);
    PushBackSize(t, li, b, b);
    forall i: nat {:trigger NextIs(u, d, i)} {:trigger BackIs(u, d, i)} | i < n + 2
      ensures NextIs(u, d, i) && (i != n ==> BackIs(u, d, i))
    {
      SecondPushLink(t, li, r, i);
    }
  }

  /// Pushing the last node again leaves every link but the one from it backwards.
  lemma SecondPushLink(t: WordMap, li: nat, r: seq<nat>, i: nat)
    requires Represents(t, li, r) && Apart(li, r) && r != [] && i < |r| + 1
    ensures var u, d := PushBack(t, li, r[|r| - 1]), Chain(li, r);
            NextIs(u, d, i) && (i + 1 != |r| ==> BackIs(u, d, i))
  {
    var d, b := Chain(li, r), r[|r| - 1];
    LastOf(t, li, r);
    assert d[|r|] == b && d[|r| + 1] == li + 16;
    assert LinkAt(t, d, i);
    PlacesApart(li, r, |r|, |r| + 1);
    PlacesApart(li, r, i, |r|);
    PlacesApart(li, r, i, |r| + 1);
    if i < |r| {
      PushBackKeeps(t, li, b, b, d[i] + 8);
      if i + 1 < |r| {
        PlacesApart(li, r, i + 1, |r|);
        PlacesApart(li, r, i + 1, |r| + 1);
        PushBackKeeps(t, li, b, b, d[i + 1]);
      }
    }
  }

  lemma WalkBoundsList(m: WordMap, li: nat, q: seq<nat>, b: nat, r: seq<nat>)
    requires Doubled(m, li, q, b) && Linked(m, Chain(li, r)) && NoDup<nat>(Chain(li, r))
    ensures |r| <= |q| + 1
  {
    var c, d, n := Chain(li, r), Chain(li, q + [b]), |q| + 2;
    assert d[n] == li + 16 && c[|r| + 1] == li + 16;
    if |r| + 1 >= n {
      SameWalk(m, c, d, n);
    }
  }

  /// What is left is no list: no sequence of that size has these links.
  lemma DoubledIsNoList(m: WordMap, li: nat, q: seq<nat>, b: nat, r: seq<nat>)
    requires Doubled(m, li, q, b)
    ensures !Represents(m, li, r)
  {
    if Linked(m, Chain(li, r)) && NoDup<nat>(Chain(li, r)) {
      WalkBoundsList(m, li, q, b, r);
    }
  }

  lemma {:induction false} SameWalk(m: WordMap, c: seq<nat>, d: seq<nat>, k: nat)
    requires k < |c| && k < |d| && c[0] == d[0]
    requires Linked(m, c) && forall i: nat {:trigger NextIs(m, d, i)} :: i < k ==> NextIs(m, d, i)
    ensures c[k] == d[k]
  {
    if k > 0 {
      SameWalk(m, c, d, k - 1);
      assert LinkAt(m, c, k - 1) && NextIs(m, d, k - 1);
    }
  }

  /// After that many pops.
  function Pops(m: WordMap, li: nat, k: nat): WordMap
    decreases k, li
  {
    if k == 0 then m else Pops(Detach(m, li, Front(m, li)), li, k - 1)
  }

  lemma PopDoubled(m: WordMap, li: nat, q: seq<nat>, b: nat)
    requires Doubled(m, li, q, b) && Apart(li, q + [b]) && q != []
    ensures Front(m, li) == q[0] && Doubled(Detach(m, li, q[0]), li, q[1..], b)
    ensures |q| == 1 ==> Get(Detach(m, li, q[0]), b) == li
  {
    var d, e, u := Chain(li, q + [b]), Chain(li, q[1..] + [b]), Detach(m, li, q[0]);
    assert d[0] == li && d[1] == q[0] && NextIs(m, d, 0) && NextIs(m, d, 1) && BackIs(m, d, 0);
    PlacesApart(li, q + [b], 0, 2);
    PlacesApart(li, q + [b], 2, 0);
    forall i: nat {:trigger NextIs(u, e, i)} {:trigger BackIs(u, e, i)} | i < |q| + 1
      ensures NextIs(u, e, i) && (i != |q| - 1 ==> BackIs(u, e, i))
    {
      PoppedNext(m, li, q, b, i);
      if i != |q| - 1 {
        PoppedBack(m, li, q, b, i);
      }
    }
  }

  lemma PoppedNext(m: WordMap, li: nat, q: seq<nat>, b: nat, i: nat)
    requires Doubled(m, li, q, b) && Apart(li, q + [b]) && q != [] && i < |q| + 1
    ensures NextIs(Detach(m, li, q[0]), Chain(li, q[1..] + [b]), i)
  {
    var d, e := Chain(li, q + [b]), Chain(li, q[1..] + [b]);
    assert d[0] == li && d[1] == q[0] && NextIs(m, d, 0) && NextIs(m, d, 1) && BackIs(m, d, 0);
    PlacesApart(li, q + [b], 0, 2);
    assert e[i + 1] == d[i + 2];
    if i > 0 {
      assert e[i] == d[i + 1] && NextIs(m, d, i + 1);
      PlacesApart(li, q + [b], i + 1, 0);
      PlacesApart(li, q + [b], i + 1, 2);
      DetachKeeps(m, li, q[0], d[i + 1] + 8);
    }
  }

  lemma PoppedBack(m: WordMap, li: nat, q: seq<nat>, b: nat, i: nat)
    requires Doubled(m, li, q, b) && Apart(li, q + [b]) && q != [] && i < |q| + 1 && i != |q| - 1
    ensures BackIs(Detach(m, li, q[0]), Chain(li, q[1..] + [b]), i)
  {
    var d, e := Chain(li, q + [b]), Chain(li, q[1..] + [b]);
    assert d[0] == li && d[1] == q[0] && NextIs(m, d, 1) && BackIs(m, d, 0);
    PlacesApart(li, q + [b], 0, 2);
    assert e[i + 1] == d[i + 2];
    if i > 0 {
      assert e[i] == d[i + 1] && BackIs(m, d, i + 1);
      PlacesApart(li, q + [b], i + 2, 0);
      PlacesApart(li, q + [b], i + 2, 2);
      DetachKeeps(m, li, q[0], d[i + 2]);
    }
  }

  lemma TailApart(li: nat, q: seq<nat>, b: nat)
    requires Apart(li, q + [b]) && q != []
    ensures Apart(li, q[1..] + [b])
  {
    DetachApart(li, q + [b], 0);
    assert Except(q + [b], 0) == q[1..] + [b];
  }

  /// On a list that was not empty, popping gives its members, then the node once, and then
  /// the tail sentinel.
  lemma {:induction false} DoubledGivesSentinel(m: WordMap, li: nat, q: seq<nat>, b: nat, k: nat)
    requires Doubled(m, li, q, b) && Apart(li, q + [b]) && q != [] && k <= |q| + 1
    ensures var u := Pops(m, li, k); !Empty(u, li) && Front(u, li) == (q + [b] + [li + 16])[k]
    decreases |q|
  {
    if k == 0 {
      PopDoubled(m, li, q, b);
    } else {
      var u := Detach(m, li, q[0]);
      PopDoubled(m, li, q, b);
      TailApart(li, q, b);
      if |q| > 1 {
        DoubledGivesSentinel(u, li, q[1..], b, k - 1);
      } else {
        assert q[1..] == [] && q[1..] + [b] == [b];
        LastTwoPops(u, li, b);
        if k == 2 {
          assert Pops(m, li, k) == Pops(u, li, k - 1) == Pops(Detach(u, li, b), li, k - 2);
        }
      }
    }
  }

  lemma LastTwoPops(m: WordMap, li: nat, b: nat)
    requires Doubled(m, li, [], b) && Apart(li, [b]) && Get(m, b) == li
    ensures Get(m, li + 32) == 2 && Front(m, li) == b
    ensures var u := Detach(m, li, b); Get(u, li + 32) == 1 && Front(u, li) == li + 16
  {
    var q: seq<nat> := [];
    var d := Chain(li, q + [b]);
    assert d[0] == li && d[1] == b && d[2] == li + 16;
    assert NextIs(m, d, 0) && NextIs(m, d, 1);
    assert OutsideList(li, [b][0]);
  }

  /// On an empty list, popping gives the node, and the node is still in front.
  lemma DoubledStaysInFront(m: WordMap, li: nat, b: nat)
    requires Doubled(m, li, [], b) && Apart(li, [b]) && Get(m, b) == b
    ensures Front(m, li) == b && Front(Detach(m, li, b), li) == b && !Empty(Detach(m, li, b), li)
  {
    var q: seq<nat> := [];
    var d := Chain(li, q + [b]);
    assert d[0] == li && d[1] == b && d[2] == li + 16;
    assert NextIs(m, d, 0) && NextIs(m, d, 1);
    assert OutsideList(li, [b][0]);
  }

  /// list_remove on a member of another list: both lists stay what they were exactly when
  /// the first one is empty, for then nothing is done.
  lemma RemoveFromOtherIff(m: WordMap, li: nat, q: seq<nat>, lj: nat, r: seq<nat>, k: nat)
    requires Represents(m, li, q) && Represents(m, lj, r) && Apart(lj, r) && k < |r|
    requires forall w {:trigger Footprint(lj, r, w)} :: li <= w < li + 40 ==> !Footprint(lj, r, w)
    ensures var u := Remove(m, li, r[k]);
            Represents(u, li, q) && Represents(u, lj, r) <==> q == []
  {
    var c := Chain(lj, r);
    assert LinkAt(m, c, k) && LinkAt(m, c, k + 1) && c[k + 1] == r[k];
    PlaceInFootprint(lj, r, k, li + 32);
    PlaceInFootprint(lj, r, k + 2, li + 32);
    assert !Footprint(lj, r, li + 32);
  }
}
