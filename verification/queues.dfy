/// Queues as sequences: taking one element out.

module Queues {
  function Without<T(==)>(q: seq<T>, t: T): seq<T> {
    if q == [] then [] else if q[0] == t then q[1..] else [q[0]] + Without(q[1..], t)
  }

  function Elements<T>(q: seq<T>): set<T> {
    set b | b in q
  }

  ghost predicate NoDup<T>(q: seq<T>) {
    forall i, j :: 0 <= i < j < |q| ==> q[i] != q[j]
  }

  lemma {:induction false} NoDupCount<T>(q: seq<T>)
    requires NoDup(q)
    ensures |Elements(q)| == |q|
  {
    if q != [] {
      NoDupCount(q[1..]);
      assert q[0] !in q[1..];
      assert Elements(q) == Elements(q[1..]) + {q[0]};
    } else {
      assert Elements(q) == {};
    }
  }

  lemma MultisetTail<T>(q: seq<T>)
    requires q != []
    ensures multiset(q) == multiset{q[0]} + multiset(q[1..])
  {
    assert q == [q[0]] + q[1..];
  }

  lemma {:induction false} WithoutMultiset<T>(q: seq<T>, t: T)
    requires t in q
    ensures multiset(q) == multiset(Without(q, t)) + multiset{t}
  {
    MultisetTail(q);
    if q[0] != t {
      WithoutMultiset(q[1..], t);
    }
  }

  /// Taking an element out of a queue without repetitions.
  lemma {:induction false} WithoutElements<T>(q: seq<T>, t: T)
    requires NoDup(q)
    ensures NoDup(Without(q, t)) && Elements(Without(q, t)) == Elements(q) - {t}
  {
    if q != [] {
      assert q[0] !in q[1..];
      if q[0] != t {
        WithoutElements(q[1..], t);
        assert Elements(q) == Elements(q[1..]) + {q[0]};
        assert Elements(Without(q, t)) == Elements(Without(q[1..], t)) + {q[0]};
        assert forall k :: 0 <= k < |Without(q[1..], t)| ==> Without(q[1..], t)[k] in Elements(q[1..]);
      } else {
        assert Elements(q) == Elements(q[1..]) + {q[0]};
      }
    }
  }

  lemma {:induction false} WithoutAt<T>(q: seq<T>, i: nat)
    requires i < |q| && forall j :: 0 <= j < i ==> q[j] != q[i]
    ensures Without(q, q[i]) == q[..i] + q[i + 1..]
  {
    if i > 0 {
      WithoutAt(q[1..], i - 1);
      assert q[..i] == [q[0]] + q[1..][..i - 1];
    }
  }
}
