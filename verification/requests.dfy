/// Requests for sectors at the same time (kern/lib/io/filesys.c): the loop that places an
/// admitted request runs with the lock released, and takes it for each attempt only.

module Requests {
  import opened Bits
  import opened Extents

  /// A request in its loop: sectors still to place, and the length it tries next.
  datatype Request = Request(rest: nat, best: nat)

  datatype State = State(marks: seq<bool>, requests: seq<Request>)

  function Admitted(sectors: nat): Request {
    Request(sectors, sectors)
  }

  function AllAdmitted(sectors: seq<nat>): seq<Request> {
    seq(|sectors|, i requires 0 <= i < |sectors| => Admitted(sectors[i]))
  }

  /// One call of free_map_allocate and what the loop makes of its result.
  function Attempt(s: seq<bool>, r: Request): (seq<bool>, Request)
    requires |s| <= NPOS
  {
    if r.rest == 0 then (s, r)
    else
      var j := FirstRun(s, 0, r.best, false);
      if j == NPOS then (s, Request(r.rest, if r.best == 0 then NPOS else r.best - 1))
      else
        var left := if r.best <= r.rest then r.rest - r.best else 0;
        (Take(s, Extent(j, r.best)), Request(left, left))
  }

  /// The turn of request i; a turn of nobody changes nothing.
  function Turn(t: State, i: nat): (u: State)
    requires |t.marks| <= NPOS
    ensures |u.marks| == |t.marks| && |u.requests| == |t.requests|
  {
    if i < |t.requests| then
      var (s, r) := Attempt(t.marks, t.requests[i]);
      State(s, t.requests[i := r])
    else t
  }

  function Turns(t: State, schedule: seq<nat>): (u: State)
    requires |t.marks| <= NPOS
    ensures |u.marks| == |t.marks| && |u.requests| == |t.requests|
    decreases |schedule|
  {
    if schedule == [] then t else Turns(Turn(t, schedule[0]), schedule[1..])
  }

  predicate AllPlaced(t: State) {
    forall r <- t.requests :: r.rest == 0
  }

  /// What the requests still want together.
  function Wanted(rs: seq<Request>): nat {
    if rs == [] then 0 else Wanted(rs[..|rs| - 1]) + rs[|rs| - 1].rest
  }

  lemma {:induction false} WantedUpdate(rs: seq<Request>, i: nat, r: Request)
    requires i < |rs|
    ensures Wanted(rs[i := r]) + rs[i].rest == Wanted(rs) + r.rest
  {
    var n := |rs| - 1;
    if i == n {
      assert rs[i := r][..n] == rs[..n];
    } else {
      WantedUpdate(rs[..n], i, r);
      assert rs[i := r][..n] == rs[..n][i := r];
    }
  }

  lemma {:induction false} NothingWantedIff(rs: seq<Request>)
    ensures Wanted(rs) == 0 <==> forall r <- rs :: r.rest == 0
  {
    if rs != [] {
      var n := |rs| - 1;
      NothingWantedIff(rs[..n]);
      assert forall r <- rs :: r in rs[..n] || r == rs[n];
      assert rs[n] in rs;
    }
  }

  /// The length tried is at least one and at most what is left to place.
  predicate Sensible(r: Request) {
    r.rest > 0 ==> 0 < r.best <= r.rest
  }

  predicate AllSensible(t: State) {
    forall r <- t.requests :: Sensible(r)
  }

  /// An attempt takes from the free sectors what it places, and gets closer to the end.
  lemma AttemptProgress(s: seq<bool>, r: Request)
    requires |s| <= NPOS && Sensible(r)
    ensures var (t, q) := Attempt(s, r);
      && |Free(t)| + r.rest == |Free(s)| + q.rest
      && (Free(s) != {} ==> Sensible(q) && (r.rest > 0 ==> Effort(q) < Effort(r)))
  {
    if r.rest > 0 {
      FirstRunIsScan(s, 0, r.best, false);
      var j := FirstRun(s, 0, r.best, false);
      if j != NPOS {
        TakeRemoves(s, Extent(j, r.best));
        EffortFalls(r.rest, r.best);
      } else if Free(s) != {} {
        var i :| i in Free(s);
        assert RunAt(s, i, 1, false);
        assert r.best > 1;
      }
    }
  }

  /// A bound on the attempts that a request still needs.
  function Effort(r: Request): nat {
    if r.rest == 0 then 0 else r.rest * r.rest + r.best
  }

  lemma EffortFalls(rest: nat, best: nat)
    requires 0 < best <= rest
    ensures Effort(Admitted(rest - best)) < Effort(Request(rest, best))
  {
    var q := rest - best;
    if q > 0 {
      assert q * q + q == q * (q + 1) <= (rest - 1) * rest by { Product(q, rest - 1); }
    }
  }

  lemma Product(a: nat, b: nat)
    requires a <= b
    ensures a * (a + 1) <= b * (b + 1)
  {
    assert b * (b + 1) - a * (a + 1) == (b - a) * (a + b + 1);
  }

  /// An attempt takes the first run of the length it tries, if there is one, and tries one
  /// sector less otherwise.
  lemma AttemptIsFirst(s: seq<bool>, r: Request)
    requires |s| <= NPOS && Sensible(r) && r.rest > 0
    ensures var (t, q) := Attempt(s, r);
      if exists i: nat :: RunAt(s, i, r.best, false) then
        && q == Admitted(r.rest - r.best)
        && exists i: nat ::
             && RunAt(s, i, r.best, false) && (forall k: nat :: k < i ==> !RunAt(s, k, r.best, false))
             && t == Fill(s, i, r.best, true)
      else t == s && q == Request(r.rest, r.best - 1)
  {
    FirstRunIsScan(s, 0, r.best, false);
    var j := FirstRun(s, 0, r.best, false);
    if i: nat :| RunAt(s, i, r.best, false) {
      assert i < |s|;
      assert RunAt(s, j, r.best, false);
    }
  }

  /// By how much the requests together want more than is free does not change.
  lemma TurnKeeps(t: State, i: nat)
    requires |t.marks| <= NPOS && AllSensible(t)
    ensures var u := Turn(t, i);
      && |Free(u.marks)| + Wanted(t.requests) == |Free(t.marks)| + Wanted(u.requests)
      && (Free(t.marks) != {} ==> AllSensible(u))
  {
    if i < |t.requests| {
      var r := Attempt(t.marks, t.requests[i]).1;
      assert t.requests[i] in t.requests;
      AttemptProgress(t.marks, t.requests[i]);
      WantedUpdate(t.requests, i, r);
      assert forall q <- t.requests[i := r] :: q == r || q in t.requests;
    }
  }

  /// How many turns request i has.
  function Count(schedule: seq<nat>, i: nat): nat {
    if schedule == [] then 0 else (if schedule[0] == i then 1 else 0) + Count(schedule[1..], i)
  }

  /// The schedule has enough turns for every request.
  ghost predicate Enough(t: State, schedule: seq<nat>) {
    forall i {:trigger t.requests[i]} :: 0 <= i < |t.requests| ==> Effort(t.requests[i]) <= Count(schedule, i)
  }

  lemma TurnIsEnough(t: State, schedule: seq<nat>)
    requires |t.marks| <= NPOS && AllSensible(t) && Free(t.marks) != {} && schedule != [] && Enough(t, schedule)
    ensures Enough(Turn(t, schedule[0]), schedule[1..])
  {
    var u := Turn(t, schedule[0]);
    forall i {:trigger u.requests[i]} | 0 <= i < |u.requests|
      ensures Effort(u.requests[i]) <= Count(schedule[1..], i)
    {
      assert t.requests[i] in t.requests && Effort(t.requests[i]) <= Count(schedule, i);
      if i == schedule[0] {
        AttemptProgress(t.marks, t.requests[i]);
      }
    }
  }

  /// If together they fit, every schedule with enough turns for each of them places all.
  lemma {:induction false} AllArePlaced(t: State, schedule: seq<nat>)
    requires |t.marks| <= NPOS && AllSensible(t) && Wanted(t.requests) <= |Free(t.marks)| && Enough(t, schedule)
    ensures AllPlaced(Turns(t, schedule))
    decreases |schedule|
  {
    if schedule == [] {
      forall r <- t.requests
        ensures r.rest == 0
      {
        var i :| 0 <= i < |t.requests| && t.requests[i] == r;
        assert Effort(r) == 0;
      }
    } else if Free(t.marks) == {} {
      NothingLeft(t, schedule);
      NothingWantedIff(t.requests);
      NothingWantedIff(Turns(t, schedule).requests);
    } else {
      TurnKeeps(t, schedule[0]);
      TurnIsEnough(t, schedule);
      AllArePlaced(Turn(t, schedule[0]), schedule[1..]);
    }
  }

  /// If together they do not fit, no schedule places all: however long they run, more is
  /// wanted than is free.
  lemma {:induction false} NeverAllPlaced(t: State, schedule: seq<nat>)
    requires |t.marks| <= NPOS && AllSensible(t) && Wanted(t.requests) > |Free(t.marks)|
    ensures !AllPlaced(Turns(t, schedule))
    decreases |schedule|
  {
    if schedule == [] {
      NothingWantedIff(t.requests);
    } else if Free(t.marks) != {} {
      TurnKeeps(t, schedule[0]);
      NeverAllPlaced(Turn(t, schedule[0]), schedule[1..]);
    } else {
      NothingLeft(t, schedule);
      NothingWantedIff(Turns(t, schedule).requests);
    }
  }

  /// With nothing free, no request gets anything.
  lemma {:induction false} NothingLeft(t: State, schedule: seq<nat>)
    requires |t.marks| <= NPOS && Free(t.marks) == {}
    ensures Wanted(Turns(t, schedule).requests) == Wanted(t.requests)
    decreases |schedule|
  {
    if schedule != [] {
      var i := schedule[0];
      if i < |t.requests| {
        NothingTaken(t.marks, t.requests[i]);
        WantedUpdate(t.requests, i, Attempt(t.marks, t.requests[i]).1);
      }
      NothingLeft(Turn(t, i), schedule[1..]);
    }
  }

  lemma RunIsFree(s: seq<bool>, j: nat, n: nat)
    requires RunAt(s, j, n, false) && n > 0
    ensures Free(s) != {}
  {
    assert j in Free(s);
  }

  lemma NothingTaken(s: seq<bool>, r: Request)
    requires |s| <= NPOS && Free(s) == {}
    ensures Free(Attempt(s, r).0) == {} && Attempt(s, r).1.rest == r.rest
  {
    FirstRunIsScan(s, 0, r.best, false);
    var j := FirstRun(s, 0, r.best, false);
    if j != NPOS && r.best > 0 {
      RunIsFree(s, j, r.best);
    }
    if r.best == 0 && j != NPOS {
      assert Take(s, Extent(j, 0)) == s;
    }
  }

  // ---- a schedule with enough turns ----

  lemma {:induction false} CountAppend(a: seq<nat>, b: seq<nat>, i: nat)
    ensures Count(a + b, i) == Count(a, i) + Count(b, i)
  {
    if a == [] {
      assert a + b == b;
    } else {
      assert (a + b)[0] == a[0] && (a + b)[1..] == a[1..] + b;
      CountAppend(a[1..], b, i);
    }
  }

  function Repeated(i: nat, n: nat): seq<nat> {
    if n == 0 then [] else [i] + Repeated(i, n - 1)
  }

  lemma {:induction false} CountRepeated(i: nat, n: nat)
    ensures Count(Repeated(i, n), i) == n
  {
    if n > 0 {
      assert Repeated(i, n)[1..] == Repeated(i, n - 1);
      CountRepeated(i, n - 1);
    }
  }

  /// One request after the other.
  function OneByOne(rs: seq<Request>): seq<nat> {
    if rs == [] then [] else OneByOne(rs[..|rs| - 1]) + Repeated(|rs| - 1, Effort(rs[|rs| - 1]))
  }

  lemma {:induction false} OneByOneIsEnough(rs: seq<Request>, i: nat)
    requires i < |rs|
    ensures Effort(rs[i]) <= Count(OneByOne(rs), i)
    decreases |rs|
  {
    var n := |rs| - 1;
    CountAppend(OneByOne(rs[..n]), Repeated(n, Effort(rs[n])), i);
    if i == n {
      CountRepeated(n, Effort(rs[n]));
    } else {
      OneByOneIsEnough(rs[..n], i);
    }
  }

  /// Some schedule places all.
  ghost predicate CanAllBePlaced(t: State)
    requires |t.marks| <= NPOS
  {
    exists schedule :: AllPlaced(Turns(t, schedule))
  }

  function Sum(sectors: seq<nat>): nat {
    if sectors == [] then 0 else Sum(sectors[..|sectors| - 1]) + sectors[|sectors| - 1]
  }

  lemma {:induction false} AdmittedWantSum(sectors: seq<nat>)
    ensures Wanted(AllAdmitted(sectors)) == Sum(sectors)
  {
    if sectors != [] {
      var n := |sectors| - 1;
      AdmittedWantSum(sectors[..n]);
      assert AllAdmitted(sectors)[..n] == AllAdmitted(sectors[..n]);
    }
  }

  /// Any number of admitted requests can all be placed exactly when their sum is within the
  /// free count, and then every schedule with enough turns for each does it.
  lemma AllPlacedIff(s: seq<bool>, sectors: seq<nat>)
    requires |s| <= NPOS
    ensures CanAllBePlaced(State(s, AllAdmitted(sectors))) <==> Sum(sectors) <= |Free(s)|
  {
    var t := State(s, AllAdmitted(sectors));
    AdmittedWantSum(sectors);
    if Sum(sectors) <= |Free(s)| {
      forall i {:trigger t.requests[i]} | 0 <= i < |t.requests|
        ensures Effort(t.requests[i]) <= Count(OneByOne(t.requests), i)
      {
        OneByOneIsEnough(t.requests, i);
      }
      AllArePlaced(t, OneByOne(t.requests));
    } else {
      forall schedule
        ensures !AllPlaced(Turns(t, schedule))
      {
        NeverAllPlaced(t, schedule);
      }
    }
  }
}
