/// The intrusive doubly linked list with two sentinels (kern/lib/shared/list.c).

module Lists {
  import opened Queues

  class Elem {
    var prev: Elem?
    var next: Elem?

    /// An element fresh from zeroed memory.
    constructor ()
      ensures prev == null && next == null
    {
      prev := null;
      next := null;
    }
  }

  /// Neighbours in the sequence point at each other.
  ghost predicate Linked(c: seq<Elem>)
    reads c
  {
    forall i {:trigger c[i].next} :: 0 <= i < |c| - 1 ==> c[i].next == c[i + 1] && c[i + 1].prev == c[i]
  }

  ghost function Inserted(c: seq<Elem>, k: nat, el: Elem): (d: seq<Elem>)
    requires k <= |c|
    ensures |d| == |c| + 1
    ensures forall i {:trigger d[i]} :: 0 <= i < |d| ==>
      d[i] == if i < k then c[i] else if i == k then el else c[i - 1]
  {
    c[..k] + [el] + c[k..]
  }

  lemma InsertedNoDup(c: seq<Elem>, k: nat, el: Elem)
    requires k <= |c| && NoDup<Elem>(c) && el !in c
    ensures NoDup<Elem>(Inserted(c, k, el))
  {
  }

  ghost function Removed(c: seq<Elem>, k: nat): (d: seq<Elem>)
    requires k < |c|
    ensures |d| == |c| - 1
    ensures forall i {:trigger d[i]} :: 0 <= i < |d| ==> d[i] == if i < k then c[i] else c[i + 1]
  {
    c[..k] + c[k + 1..]
  }

  lemma RemovedNoDup(c: seq<Elem>, k: nat)
    requires k < |c| && NoDup<Elem>(c)
    ensures NoDup<Elem>(Removed(c, k))
  {
  }

  /// All links of the chain but those at some places.
  ghost predicate LinkedBut(c: seq<Elem>, cut: set<int>)
    reads c
  {
    forall i {:trigger c[i].next} :: 0 <= i < |c| - 1 && i !in cut ==> c[i].next == c[i + 1] && c[i + 1].prev == c[i]
  }

  lemma InsertedLinked(c: seq<Elem>, k: nat, el: Elem)
    requires 0 < k < |c| && LinkedBut(c, {k - 1})
    requires c[k - 1].next == el && el.prev == c[k - 1] && el.next == c[k] && c[k].prev == el
    ensures Linked(Inserted(c, k, el))
  {
    var d := Inserted(c, k, el);
    forall i {:trigger d[i].next} | 0 <= i < |d| - 1
      ensures d[i].next == d[i + 1] && d[i + 1].prev == d[i]
    {
      assert i < k - 1 ==> c[i].next == c[i + 1];
      assert i > k ==> c[i - 1].next == c[i];
    }
  }

  lemma RemovedLinked(c: seq<Elem>, k: nat)
    requires 0 < k < |c| - 1 && LinkedBut(c, {k - 1, k})
    requires c[k - 1].next == c[k + 1] && c[k + 1].prev == c[k - 1]
    ensures Linked(Removed(c, k))
  {
    var d := Removed(c, k);
    forall i {:trigger d[i].next} | 0 <= i < |d| - 1
      ensures d[i].next == d[i + 1] && d[i + 1].prev == d[i]
    {
      assert i < k - 1 ==> c[i].next == c[i + 1];
      assert i >= k ==> c[i + 1].next == c[i + 2];
    }
  }

  /// Exchanging two members that are not neighbours rewrites eight links.
  lemma SwappedLinked(c: seq<Elem>, i: nat, j: nat)
    requires 0 < i < |c| - 1 && 0 < j < |c| - 1 && i != j + 1 && j != i + 1 && LinkedBut(c, {i - 1, i, j - 1, j})
    requires c[i - 1].next == c[j] && c[j].prev == c[i - 1] && c[j].next == c[i + 1] && c[i + 1].prev == c[j]
    requires c[j - 1].next == c[i] && c[i].prev == c[j - 1] && c[i].next == c[j + 1] && c[j + 1].prev == c[i]
    ensures Linked(c[i := c[j]][j := c[i]])
  {
    var d := c[i := c[j]][j := c[i]];
    forall x | 0 <= x < |d| - 1
      ensures d[x].next == d[x + 1] && d[x + 1].prev == d[x]
    {
      assert x !in {i - 1, i, j - 1, j} ==> c[x].next == c[x + 1];
    }
  }

  lemma SwappedNoDup(c: seq<Elem>, i: nat, j: nat)
    requires NoDup<Elem>(c) && i < |c| && j < |c|
    ensures NoDup<Elem>(c[i := c[j]][j := c[i]])
  {
  }

  /// What is met by following `next`, at most that many steps and inside `within`.
  ghost function Forward(within: set<Elem>, e: Elem?, steps: nat): seq<Elem>
    reads within
    decreases steps
  {
    if steps == 0 || e == null || e !in within then [] else [e] + Forward(within, e.next, steps - 1)
  }

  ghost function Backward(within: set<Elem>, e: Elem?, steps: nat): seq<Elem>
    reads within
    decreases steps
  {
    if steps == 0 || e == null || e !in within then [] else [e] + Backward(within, e.prev, steps - 1)
  }

  ghost function Reverse(q: seq<Elem>): seq<Elem> {
    if q == [] then [] else Reverse(q[1..]) + [q[0]]
  }

  lemma {:induction false} ForwardIsSlice(c: seq<Elem>, within: set<Elem>, i: nat, n: nat)
    requires Linked(c) && (forall e <- c :: e in within) && i + n < |c|
    ensures Forward(within, c[i], n) == c[i..i + n]
    decreases n
  {
    if n > 0 {
      assert c[i].next == c[i + 1];
      ForwardIsSlice(c, within, i + 1, n - 1);
    }
  }

  lemma {:induction false} BackwardIsReverse(c: seq<Elem>, within: set<Elem>, i: nat, n: nat)
    requires Linked(c) && (forall e <- c :: e in within) && n <= i < |c|
    ensures Backward(within, c[i], n) == Reverse(c[i - n + 1..i + 1])
    decreases n
  {
    if n > 0 {
      assert c[i - 1].next == c[i];
      BackwardIsReverse(c, within, i - 1, n - 1);
      var q := c[i - n + 1..i + 1];
      ReverseLast(q);
      assert |q| == n && q[n - 1] == c[i];
      assert q[..n - 1] == c[i - n + 1..i];
    }
  }

  lemma {:induction false} ReverseLast(q: seq<Elem>)
    requires q != []
    ensures Reverse(q) == [q[|q| - 1]] + Reverse(q[..|q| - 1])
  {
    if |q| > 1 {
      ReverseLast(q[1..]);
      assert q[1..][..|q| - 2] == q[..|q| - 1][1..];
    } else {
      assert q[..|q| - 1] == [] && q[1..] == [];
    }
  }

  /// elem_swap
  method SwapElems(lf: Elem, ri: Elem)
    requires lf.prev != null && lf.next != null && ri.prev != null && ri.next != null
    modifies lf, ri, lf.prev, lf.next, ri.prev, ri.next
    ensures ri.next == old(lf.next) && lf.next == if lf == ri then ri.next else old(ri.next)
    ensures old(ri.prev) != lf && old(ri.prev) != ri ==> old(ri.prev).next == lf
    ensures old(lf.prev) != lf && old(lf.prev) != ri && old(lf.prev) != old(ri.prev) ==> old(lf.prev).next == ri
    ensures old(ri.next).prev == lf
    ensures old(lf.next) != old(ri.next) ==> old(lf.next).prev == ri
    ensures ri != old(lf.next) && ri != old(ri.next) ==> ri.prev == old(lf.prev)
    ensures lf != old(lf.next) && lf != old(ri.next) && lf != ri ==> lf.prev == old(ri.prev)
    ensures old(lf.next) !in {lf, ri, old(lf.prev), old(ri.prev)} ==> old(lf.next).next == old(lf.next.next)
    ensures old(ri.next) !in {lf, ri, old(lf.prev), old(ri.prev)} ==> old(ri.next).next == old(ri.next.next)
    ensures old(lf.prev) !in {lf, ri, old(lf.next), old(ri.next)} ==> old(lf.prev).prev == old(lf.prev.prev)
    ensures old(ri.prev) !in {lf, ri, old(lf.next), old(ri.next)} ==> old(ri.prev).prev == old(ri.prev.prev)
  {
    var lpr := lf.prev;
    var rpr := ri.prev;
    var rne := ri.next;
    var lne := lf.next;
    lpr.next := ri;
    rpr.next := lf;
    lf.prev := rpr;
    ri.prev := lpr;
    lne.prev := ri;
    rne.prev := lf;
    lf.next := rne;
    ri.next := lne;
  }

  /// elem_swap on neighbours, in either order: each ends up pointing at itself, and the walk
  /// that came in over the one that was first enters the other one and never leaves it.
  method SwapNeighbours(lf: Elem, ri: Elem)
    requires lf != ri && lf.prev != null && lf.next != null && ri.prev != null && ri.next != null
    requires (lf.next == ri && ri.prev == lf) || (ri.next == lf && lf.prev == ri)
    requires lf.next == ri ==> lf.prev !in {lf, ri} && ri.next !in {lf, ri}
    requires ri.next == lf ==> ri.prev !in {lf, ri} && lf.next !in {lf, ri}
    modifies lf, ri, lf.prev, lf.next, ri.prev, ri.next
    ensures old(lf.next) == ri ==> old(lf.prev).next == ri && ri.next == ri && old(ri.next).prev == lf && lf.prev == lf
    ensures old(ri.next) == lf ==> old(ri.prev).next == lf && lf.next == lf && old(lf.next).prev == ri && ri.prev == ri
  {
    SwapElems(lf, ri);
  }

  /// Following `next` from an element that points at itself never leaves it.
  lemma {:induction false} LoopTrapsWalk(within: set<Elem>, e: Elem, n: nat)
    requires e in within && e.next == e
    ensures |Forward(within, e, n)| == n && forall x <- Forward(within, e, n) :: x == e
  {
    if n > 0 {
      LoopTrapsWalk(within, e, n - 1);
    }
  }

  method SwapInChain(lf: Elem, ri: Elem, ghost c: seq<Elem>, ghost i: nat, ghost j: nat)
    requires NoDup<Elem>(c) && Linked(c) && 0 < i < |c| - 1 && 0 < j < |c| - 1 && i != j + 1 && j != i + 1
    requires lf == c[i] && ri == c[j]
    modifies c
    ensures Linked(c[i := ri][j := lf])
  {
    assert c[i - 1].next == c[i] && c[i].next == c[i + 1] && c[j - 1].next == c[j] && c[j].next == c[j + 1];
    SwapElems(lf, ri);
    forall x {:trigger c[x].next} | 0 <= x < |c| - 1 && x !in {i - 1, i, j - 1, j}
      ensures c[x].next == c[x + 1] && c[x + 1].prev == c[x]
    {
      assert old(c[x].next) == c[x + 1];
      assert c[x] !in {c[i - 1], c[i], c[j - 1], c[j]};
      assert c[x + 1] !in {c[i], c[i + 1], c[j], c[j + 1]};
    }
    SwappedLinked(c, i, j);
  }

  /// Taking a member out of its chain, as pop and remove do.
  method Unlink(el: Elem, ghost c: seq<Elem>, ghost k: nat)
    requires NoDup<Elem>(c) && Linked(c) && 0 < k < |c| - 1 && c[k] == el
    modifies c
    ensures Linked(Removed(c, k))
  {
    assert c[k - 1].next == c[k] && c[k].next == c[k + 1];
    var ne := el.next;
    var pr := el.prev;
    pr.next := ne;
    ne.prev := pr;
    forall x {:trigger c[x].next} | 0 <= x < |c| - 1 && x !in {k - 1, k}
      ensures c[x].next == c[x + 1] && c[x + 1].prev == c[x]
    {
      assert old(c[x].next) == c[x + 1];
    }
    RemovedLinked(c, k);
  }

  class List {
    const head: Elem
    const tail: Elem
    var size: nat
    ghost var elems: seq<Elem>

    ghost function Chain(): seq<Elem>
      reads this
    {
      [head] + elems + [tail]
    }

    ghost function Nodes(): set<Elem>
      reads this
    {
      set e | e in Chain()
    }

    /// The sentinels' pointers mean nothing while the list is empty, so a list in zeroed
    /// memory is already an empty list.
    ghost predicate Valid()
      reads this, Nodes()
    {
      && size == |elems|
      && NoDup<Elem>(Chain())
      && (size > 0 ==> Linked(Chain()))
    }

    /// A list that is part of a zeroed object.
    constructor Zeroed()
      ensures Valid() && elems == [] && fresh(Nodes())
    {
      head := new Elem();
      tail := new Elem();
      size := 0;
      elems := [];
    }

    /// list_init
    constructor ()
      ensures Valid() && elems == [] && fresh(Nodes())
      ensures Linked(Chain())
    {
      head := new Elem();
      tail := new Elem();
      size := 0;
      elems := [];
      new;
      head.next := tail;
      tail.prev := head;
    }

    method PushBack(el: Elem)
      requires Valid() && el !in Chain()
      modifies this, Nodes(), el
      ensures Valid() && elems == old(elems) + [el]
    {
      ghost var c: seq<Elem> := Chain();
      if size == 0 {
        el.prev := head;
        head.next := el;
      } else {
        assert c[size].next == c[size + 1];
        var tp := tail.prev;
        el.prev := tp;
        tp.next := el;
      }
      tail.prev := el;
      el.next := tail;
      size := size + 1;
      elems := elems + [el];
      ghost var k: nat := |c| - 1;
      forall x {:trigger c[x].next} | 0 <= x < |c| - 1 && x !in {k - 1}
        ensures c[x].next == c[x + 1] && c[x + 1].prev == c[x]
      {
        assert old(c[x].next) == c[x + 1];
      }
      InsertedNoDup(c, k, el);
      InsertedLinked(c, k, el);
      assert Chain() == Inserted(c, k, el);
    }

    method PushFront(el: Elem)
      requires Valid() && el !in Chain()
      modifies this, Nodes(), el
      ensures Valid() && elems == [el] + old(elems)
    {
      ghost var c: seq<Elem> := Chain();
      if size == 0 {
        el.next := tail;
        tail.prev := el;
      } else {
        assert c[0].next == c[1];
        var hn := head.next;
        el.next := hn;
        hn.prev := el;
      }
      head.next := el;
      el.prev := head;
      size := size + 1;
      elems := [el] + elems;
      forall x {:trigger c[x].next} | 0 <= x < |c| - 1 && x !in {0}
        ensures c[x].next == c[x + 1] && c[x + 1].prev == c[x]
      {
        assert old(c[x].next) == c[x + 1];
      }
      InsertedNoDup(c, 1, el);
      InsertedLinked(c, 1, el);
      assert Chain() == Inserted(c, 1, el);
    }

    method PopBack() returns (el: Elem?)
      requires Valid()
      modifies this, Nodes()
      ensures Valid()
      ensures old(elems) == [] ==> el == null && elems == []
      ensures old(elems) != [] ==> el == old(elems)[|old(elems)| - 1] && elems == old(elems)[..|old(elems)| - 1]
    {
      el := null;
      if size != 0 {
        ghost var c: seq<Elem> := Chain();
        assert c[size].next == c[size + 1];
        el := tail.prev;
        Unlink(el, c, size);
        RemovedNoDup(c, size);
        size := size - 1;
        elems := elems[..|elems| - 1];
        assert Chain() == Removed(c, |c| - 2);
      }
    }

    method PopFront() returns (el: Elem?)
      requires Valid()
      modifies this, Nodes()
      ensures Valid()
      ensures old(elems) == [] ==> el == null && elems == []
      ensures old(elems) != [] ==> el == old(elems)[0] && elems == old(elems)[1..]
    {
      el := null;
      if size != 0 {
        ghost var c: seq<Elem> := Chain();
        assert c[0].next == c[1];
        el := head.next;
        Unlink(el, c, 1);
        RemovedNoDup(c, 1);
        size := size - 1;
        elems := elems[1..];
        assert Chain() == Removed(c, 1);
      }
    }

    /// On an empty list this does nothing.
    method Remove(el: Elem)
      requires Valid() && (elems != [] ==> el in elems)
      modifies this, Nodes()
      ensures Valid() && elems == Without<Elem>(old(elems), el)
    {
      if size != 0 {
        ghost var c: seq<Elem> := Chain();
        ghost var k: nat := Where(el);
        Unlink(el, c, k);
        RemovedNoDup(c, k);
        size := size - 1;
        elems := elems[..k - 1] + elems[k..];
        assert Chain() == Removed(c, k);
      }
    }

    /// list_foreach, with the action recorded as a visit.
    method Foreach() returns (visited: seq<Elem>)
      requires Valid()
      ensures visited == elems
    {
      visited := [];
      var el := Begin();
      ghost var i := 0;
      TailIsLast();
      while el != tail
        invariant 0 <= i <= |elems| && el == Chain()[i + 1] && visited == elems[..i]
        invariant i < |elems| ==> el == elems[i]
        decreases |elems| - i
      {
        assert Chain()[i + 1] == elems[i] && Chain()[i + 1].next == Chain()[i + 2];
        visited := visited + [el];
        el := el.next;
        i := i + 1;
      }
    }

    lemma TailIsLast()
      requires Valid()
      ensures tail !in elems
    {
      assert forall k :: 0 <= k < |elems| ==> elems[k] == Chain()[k + 1];
      assert Chain()[|elems| + 1] == tail;
    }

    method Begin() returns (el: Elem)
      requires Valid()
      ensures el == Chain()[1]
    {
      if size == 0 {
        el := tail;
      } else {
        assert Chain()[0].next == Chain()[1];
        el := head.next;
      }
    }

    /// elem_swap on two members that are not neighbours: they change places.
    method Swap(lf: Elem, ri: Elem, ghost i: nat, ghost j: nat)
      requires Valid() && i < |elems| && j < |elems| && lf == elems[i] && ri == elems[j]
      requires i != j + 1 && j != i + 1
      modifies this, Nodes()
      ensures Valid() && elems == old(elems)[i := ri][j := lf]
    {
      ghost var c: seq<Elem> := Chain();
      SwapInChain(lf, ri, c, i + 1, j + 1);
      SwappedNoDup(c, i + 1, j + 1);
      elems := elems[i := ri][j := lf];
      ghost var d: seq<Elem> := c[i + 1 := ri][j + 1 := lf];
      assert Chain() == d;
    }

    /// The forward and the backward chain hold the same members, in opposite orders.
    lemma ChainsAreReverses()
      requires Valid()
      ensures size > 0 ==> Forward(Nodes(), head.next, size) == elems
      ensures size > 0 ==> Backward(Nodes(), tail.prev, size) == Reverse(elems)
    {
      if size > 0 {
        var c: seq<Elem> := Chain();
        assert c[0].next == c[1] && c[size].next == c[size + 1];
        ForwardIsSlice(c, Nodes(), 1, size);
        BackwardIsReverse(c, Nodes(), size, size);
        assert c[1..size + 1] == elems;
      }
    }

    /// The position of a member in the chain.
    lemma Where(el: Elem) returns (k: nat)
      requires NoDup<Elem>(Chain()) && el in elems
      ensures 0 < k <= |elems| && Chain()[k] == el
      ensures Without<Elem>(elems, el) == elems[..k - 1] + elems[k..]
    {
      var i :| 0 <= i < |elems| && elems[i] == el;
      assert forall j :: 0 <= j < |elems| ==> elems[j] == Chain()[j + 1];
      WithoutAt<Elem>(elems, i);
      k := i + 1;
    }
  }
}
