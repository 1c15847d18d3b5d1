/// Processes: fork, and the wait/exit handshake (kern/lib/thr/process.c and syscall.c).
///
/// Every statement of `wait` and `exit_process` that touches another process is a step of
/// its own, so the results hold for every interleaving. A semaphore decrement is a step that
/// is possible when the value is positive; a process that finds it at zero blocks first. The
/// parameter `reread` selects the form of semaphore_dec: as written, without it, a process
/// whose first test found zero never decrements.

module Handshake {
  import opened Options
  import opened Queues

  type Pid = nat

  /// How far a process is. `Still` is a process that fork created and never made ready. A
  /// process that is `Advancing` or `Passing` has released a child and now reads that child's
  /// list element to find the next one, as the loop headers of `wait` and `exit_process` do.
  datatype Phase =
    | Still
    | Live
    | Waiting(child: Pid)
    | Reading(child: Pid)
    | Unlinking(child: Pid, status: int)
    | Releasing(child: Pid, status: int)
    | Advancing(child: Pid)
    | Exiting(next: nat)
    | Passing(next: nat)
    | AwaitReap
    | Gone

  /// `blocked` marks a process whose first test of the semaphore it stands at found zero.
  /// `parent` is the process whose child list this one was put on; `delivered` lists the
  /// statuses that `wait` has returned for it.
  datatype Process = Process(
    parent: Option<Pid>,
    phase: Phase,
    blocked: bool,
    exitCode: int,
    waitSema: nat,
    reapSema: nat,
    children: seq<Pid>,
    delivered: seq<int>)

  type State = map<Pid, Process>

  function NewProcess(parent: Option<Pid>, phase: Phase): Process {
    Process(parent, phase, false, -1, 0, 0, [], [])
  }

  datatype Event =
    | Fork(a: Pid, started: Pid, still: Pid)
    | WaitBegin(a: Pid, p: Pid)
    | WaitBlocks(a: Pid)
    | WaitDec(a: Pid)
    | WaitRead(a: Pid)
    | WaitUnlink(a: Pid)
    | WaitRelease(a: Pid)
    | WaitNext(a: Pid)
    | ExitBegin(a: Pid, status: int)
    | ExitChild(a: Pid)
    | ExitNext(a: Pid)
    | ExitAnnounce(a: Pid)
    | ReapBlocks(a: Pid)
    | Reaped(a: Pid)

  predicate Enabled(s: State, e: Event) {
    && e.a in s
    && var q := s[e.a].phase;
       match e
       case Fork(_, c, d) => q.Live? && c != d && c !in s && d !in s
       case WaitBegin(_, _) => q.Live?
       case WaitBlocks(_) => q.Waiting? && q.child in s && s[q.child].waitSema == 0 && !s[e.a].blocked
       case WaitDec(_) => q.Waiting? && q.child in s && s[q.child].waitSema > 0
       case WaitRead(_) => q.Reading? && q.child in s
       case WaitUnlink(_) => q.Unlinking?
       case WaitRelease(_) => q.Releasing? && q.child in s
       case WaitNext(_) => q.Advancing?
       case ExitBegin(_, _) => q.Live?
       case ExitChild(_) => q.Exiting? && q.next < |s[e.a].children| && s[e.a].children[q.next] in s
       case ExitNext(_) => q.Passing?
       case ExitAnnounce(_) => q.Exiting? && q.next == |s[e.a].children|
       case ReapBlocks(_) => q.AwaitReap? && s[e.a].reapSema == 0 && !s[e.a].blocked
       case Reaped(_) => q.AwaitReap? && s[e.a].reapSema > 0
  }

  /// The process decrements a semaphore that it found at zero before.
  predicate Retries(s: State, e: Event) {
    (e.WaitDec? || e.Reaped?) && e.a in s && s[e.a].blocked
  }

  /// A step that is possible in the given form of semaphore_dec.
  predicate Possible(s: State, e: Event, reread: bool) {
    Enabled(s, e) && (reread || !Retries(s, e))
  }

  /// A process and one of its children change.
  function Touched(s: State, a: Pid, p: Process, c: Pid, q: Process): State {
    s[a := p][c := q]
  }

  /// One step. A `wait` for a process that is not on the child list returns at once.
  function Step(s: State, e: Event): State
    requires Enabled(s, e)
  {
    var p := s[e.a];
    match e
    case Fork(a, c, d) =>
      // fork calls fork_process twice and makes only the first child ready
      s[a := p.(children := p.children + [c, d])][c := NewProcess(Some(a), Live)][d := NewProcess(Some(a), Still)]
    case WaitBegin(a, c) => if c in p.children then s[a := p.(phase := Waiting(c))] else s
    case WaitBlocks(a) => s[a := p.(blocked := true)]
    case WaitDec(a) =>
      var c := p.phase.child;
      Touched(s, a, p.(phase := Reading(c), blocked := false), c, s[c].(waitSema := s[c].waitSema - 1))
    case WaitRead(a) => s[a := p.(phase := Unlinking(p.phase.child, s[p.phase.child].exitCode))]
    case WaitUnlink(a) =>
      s[a := p.(children := Without<Pid>(p.children, p.phase.child), phase := Releasing(p.phase.child, p.phase.status))]
    case WaitRelease(a) =>
      var c := p.phase.child;
      Touched(s, a, p.(phase := Advancing(c)),
              c, s[c].(reapSema := s[c].reapSema + 1, delivered := s[c].delivered + [p.phase.status]))
    case WaitNext(a) => s[a := p.(phase := Live)]
    case ExitBegin(a, status) => s[a := p.(exitCode := status, phase := Exiting(0))]
    case ExitChild(a) =>
      var c := p.children[p.phase.next];
      Touched(s, a, p.(phase := Passing(p.phase.next)), c, s[c].(reapSema := s[c].reapSema + 1))
    case ExitNext(a) => s[a := p.(phase := Exiting(p.phase.next + 1))]
    case ExitAnnounce(a) => s[a := p.(waitSema := p.waitSema + 1, phase := AwaitReap)]
    case ReapBlocks(a) => s[a := p.(blocked := true)]
    case Reaped(a) => s[a := p.(reapSema := p.reapSema - 1, phase := Gone, blocked := false)]
  }

  /// A run of the form that reads the value again; every run of the code as written is one.
  ghost predicate Runs(s: State, es: seq<Event>)
    decreases |es|
  {
    es == [] || (Enabled(s, es[0]) && Runs(Step(s, es[0]), es[1..]))
  }

  ghost function Run(s: State, es: seq<Event>): State
    requires Runs(s, es)
    decreases |es|
  {
    if es == [] then s else Run(Step(s, es[0]), es[1..])
  }

  /// No process decrements a semaphore that it found at zero before.
  ghost predicate NeverRetries(s: State, es: seq<Event>)
    requires Runs(s, es)
    decreases |es|
  {
    es == [] || (!Retries(s, es[0]) && NeverRetries(Step(s, es[0]), es[1..]))
  }

  /// A run of the code as written.
  ghost predicate RunsAsWritten(s: State, es: seq<Event>) {
    Runs(s, es) && NeverRetries(s, es)
  }

  /// The system starts with processes that nobody forked.
  ghost predicate Boot(s: State) {
    forall c <- s :: s[c] == NewProcess(None, Live)
  }

  // ---- what every run keeps ----

  predicate Announced(q: Process) {
    q.phase.AwaitReap? || q.phase.Gone?
  }

  /// A parent in phase `f` is past its decrement of the child's wait_sema and has not yet
  /// released the child.
  predicate Collecting(f: Phase, c: Pid) {
    (f.Reading? || f.Unlinking? || f.Releasing?) && f.child == c
  }

  predicate Held(f: Phase, children: seq<Pid>, c: Pid) {
    c in children || (f.Releasing? && f.child == c)
  }

  /// The exit loop of a parent in phase `f` has passed the child.
  predicate Passed(f: Phase, children: seq<Pid>, c: Pid) {
    match f
    case Exiting(i) => c in children[..if i <= |children| then i else |children|]
    case Passing(i) => c in children[..if i < |children| then i + 1 else |children|]
    case AwaitReap => c in children
    case Gone => c in children
    case _ => false
  }

  function Count(b: bool): nat {
    if b then 1 else 0
  }

  /// How often reap_sema of the process has been incremented.
  function Releases(q: Process): nat {
    q.reapSema + Count(q.phase.Gone?)
  }

  /// The parent has let go of the process, by `wait` or by exiting.
  predicate LetGo(f: Phase, children: seq<Pid>, c: Pid) {
    Passed(f, children, c) || !Held(f, children, c)
  }

  /// What holds between a process and its parent, in phase `f` with these children: each
  /// semaphore counts what the other side has done.
  predicate Bond(f: Phase, children: seq<Pid>, q: Process, c: Pid) {
    && Releases(q) == Count(LetGo(f, children, c))
    && q.delivered == (if Held(f, children, c) then [] else [q.exitCode])
    && q.waitSema + Count(Collecting(f, c) || !Held(f, children, c)) == Count(Announced(q))
    && ((f.Unlinking? || f.Releasing?) && f.child == c ==> f.status == q.exitCode)
  }

  ghost predicate Custody(s: State, c: Pid)
    requires c in s
  {
    match s[c].parent
    case None => s[c].delivered == [] && s[c].waitSema == Count(Announced(s[c])) && Releases(s[c]) == 0
    case Some(a) => a in s && a != c && Bond(s[a].phase, s[a].children, s[c], c)
  }

  ghost predicate Siblings(s: State, a: Pid)
    requires a in s
  {
    NoDup<Pid>(s[a].children) && forall c <- s[a].children :: c in s && s[c].parent == Some(a)
  }

  /// `wait` works on one child; the exit loop stays inside the list; a process blocks only at
  /// one of the two semaphores.
  predicate AtWork(s: State, a: Pid)
    requires a in s
  {
    var f := s[a].phase;
    && (s[a].blocked ==> f.Waiting? || f.AwaitReap?)
    && (f.Waiting? || f.Reading? || f.Unlinking? ==> f.child in s[a].children)
    && (f.Releasing? || f.Advancing? ==> f.child !in s[a].children && f.child in s && s[f.child].parent == Some(a))
    && (f.Exiting? ==> f.next <= |s[a].children|)
    && (f.Passing? ==> f.next < |s[a].children|)
  }

  ghost predicate Good(s: State, x: Pid)
    requires x in s
  {
    Siblings(s, x) && AtWork(s, x) && Custody(s, x)
  }

  ghost predicate Inv(s: State) {
    forall x {:trigger Good(s, x)} :: x in s ==> Good(s, x)
  }

  lemma BootIsGood(s: State)
    requires Boot(s)
    ensures Inv(s)
  {
  }

  ghost predicate SameLinks(s: State, t: State) {
    forall c <- s :: c in t && t[c].parent == s[c].parent
  }

  lemma SiblingsDependOn(s: State, t: State, x: Pid)
    requires SameLinks(s, t) && x in s && Siblings(s, x) && t[x].children == s[x].children
    ensures Siblings(t, x)
  {
  }

  /// The custody of a process whose own counters and whose parent's phase and children stay.
  lemma CustodyStays(s: State, t: State, x: Pid)
    requires x in s && Custody(s, x) && SameLinks(s, t)
    requires t[x].waitSema == s[x].waitSema && t[x].reapSema == s[x].reapSema
    requires t[x].delivered == s[x].delivered && t[x].exitCode == s[x].exitCode
    requires t[x].phase.Gone? == s[x].phase.Gone? && Announced(t[x]) == Announced(s[x])
    requires s[x].parent.Some? ==> t[s[x].parent.value].children == s[s[x].parent.value].children
    requires s[x].parent.Some? ==> t[s[x].parent.value].phase == s[s[x].parent.value].phase
    ensures Custody(t, x)
  {
  }

  /// In phases `f` and `g` the parent sees the child in the same way.
  predicate SameView(f: Phase, g: Phase, children: seq<Pid>, q: Process, c: Pid) {
    && Passed(f, children, c) == Passed(g, children, c)
    && Held(f, children, c) == Held(g, children, c)
    && Collecting(f, c) == Collecting(g, c)
    && ((g.Unlinking? || g.Releasing?) && g.child == c ==> g.status == q.exitCode)
  }

  lemma BondStays(f: Phase, g: Phase, children: seq<Pid>, q: Process, c: Pid)
    requires Bond(f, children, q, c) && SameView(f, g, children, q, c)
    ensures Bond(g, children, q, c)
  {
  }

  /// A step that changes only the phase, the mark and the exit code of `a`, and that looks the
  /// same to the parent of `a` and to its children.
  lemma MoveKeeps(s: State, a: Pid, p: Process, x: Pid)
    requires a in s && x in s && Good(s, a) && Good(s, x)
    requires p == s[a].(phase := p.phase, blocked := p.blocked, exitCode := p.exitCode)
    requires p.phase.Gone? == s[a].phase.Gone? && Announced(p) == Announced(s[a])
    requires p.exitCode == s[a].exitCode || s[a].delivered == []
    requires p.exitCode == s[a].exitCode || !Announced(s[a])
    requires AtWork(s[a := p], a)
    requires s[x].parent == Some(a) ==> SameView(s[a].phase, p.phase, s[a].children, s[x], x)
    ensures Good(s[a := p], x)
  {
    var t := s[a := p];
    SiblingsDependOn(s, t, x);
    if s[x].parent == Some(a) {
      BondStays(s[a].phase, p.phase, s[a].children, s[x], x);
    } else if x != a || p.exitCode == s[a].exitCode {
      CustodyStays(s, t, x);
    }
  }

  /// The same for a step that also changes the counters of one child of `a`.
  lemma TouchKeeps(s: State, a: Pid, p: Process, c: Pid, q: Process, x: Pid)
    requires a in s && c in s && x in s && Good(s, a) && Good(s, c) && Good(s, x) && s[c].parent == Some(a)
    requires p == s[a].(phase := p.phase, blocked := p.blocked)
    requires q == s[c].(waitSema := q.waitSema, reapSema := q.reapSema, delivered := q.delivered)
    requires p.phase.Gone? == s[a].phase.Gone? && Announced(p) == Announced(s[a])
    requires AtWork(Touched(s, a, p, c, q), a) && Bond(p.phase, p.children, q, c)
    requires s[x].parent == Some(a) && x != c ==> SameView(s[a].phase, p.phase, s[a].children, s[x], x)
    ensures Good(Touched(s, a, p, c, q), x)
  {
    var t := Touched(s, a, p, c, q);
    SiblingsDependOn(s, t, x);
    if x == c {
    } else if s[x].parent == Some(a) {
      BondStays(s[a].phase, p.phase, s[a].children, s[x], x);
    } else {
      CustodyStays(s, t, x);
    }
  }

  lemma WaitBeginKeeps(s: State, a: Pid, p: Pid, x: Pid)
    requires Enabled(s, WaitBegin(a, p)) && x in s && Good(s, a) && Good(s, x)
    ensures Good(Step(s, WaitBegin(a, p)), x)
  {
    if p in s[a].children {
      MoveKeeps(s, a, s[a].(phase := Waiting(p)), x);
    }
  }

  lemma BlocksKeeps(s: State, a: Pid, x: Pid)
    requires a in s && (s[a].phase.Waiting? || s[a].phase.AwaitReap?) && x in s && Good(s, a) && Good(s, x)
    ensures Good(s[a := s[a].(blocked := true)], x)
  {
    if s[x].parent == Some(a) {
      assert Bond(s[a].phase, s[a].children, s[x], x);
    }
    MoveKeeps(s, a, s[a].(blocked := true), x);
  }

  lemma DecBond(children: seq<Pid>, q: Process, c: Pid)
    requires Bond(Waiting(c), children, q, c) && c in children && q.waitSema > 0
    ensures Bond(Reading(c), children, q.(waitSema := q.waitSema - 1), c)
  {
  }

  lemma WaitDecKeeps(s: State, a: Pid, x: Pid)
    requires Enabled(s, WaitDec(a)) && x in s && Good(s, a) && Good(s, x) && Good(s, s[a].phase.child)
    ensures Good(Step(s, WaitDec(a)), x)
  {
    var c := s[a].phase.child;
    DecBond(s[a].children, s[c], c);
    TouchKeeps(s, a, s[a].(phase := Reading(c), blocked := false), c, s[c].(waitSema := s[c].waitSema - 1), x);
  }

  lemma WaitReadKeeps(s: State, a: Pid, x: Pid)
    requires Enabled(s, WaitRead(a)) && x in s && Good(s, a) && Good(s, x)
    ensures Good(Step(s, WaitRead(a)), x)
  {
    MoveKeeps(s, a, s[a].(phase := Unlinking(s[a].phase.child, s[s[a].phase.child].exitCode)), x);
  }

  lemma ReleaseBond(children: seq<Pid>, q: Process, c: Pid, status: int)
    requires Bond(Releasing(c, status), children, q, c) && c !in children
    ensures Bond(Advancing(c), children, q.(reapSema := q.reapSema + 1, delivered := q.delivered + [status]), c)
  {
  }

  lemma ReleaseStep(s: State, a: Pid, c: Pid, status: int)
    requires Enabled(s, WaitRelease(a)) && s[a].phase == Releasing(c, status)
    ensures Step(s, WaitRelease(a)) == Touched(s, a, s[a].(phase := Advancing(c)),
              c, s[c].(reapSema := s[c].reapSema + 1, delivered := s[c].delivered + [status]))
  {
  }

  lemma WaitReleaseKeeps(s: State, a: Pid, x: Pid)
    requires Enabled(s, WaitRelease(a)) && x in s && Good(s, a) && Good(s, x) && Good(s, s[a].phase.child)
    ensures Good(Step(s, WaitRelease(a)), x)
  {
    var c := s[a].phase.child;
    var status := s[a].phase.status;
    ReleaseStep(s, a, c, status);
    ReleaseBond(s[a].children, s[c], c, status);
    TouchKeeps(s, a, s[a].(phase := Advancing(c)), c,
               s[c].(reapSema := s[c].reapSema + 1, delivered := s[c].delivered + [status]), x);
  }

  lemma WaitNextKeeps(s: State, a: Pid, x: Pid)
    requires Enabled(s, WaitNext(a)) && x in s && Good(s, a) && Good(s, x)
    ensures Good(Step(s, WaitNext(a)), x)
  {
    MoveKeeps(s, a, s[a].(phase := Live), x);
  }

  lemma NextView(children: seq<Pid>, i: nat, q: Process, x: Pid)
    requires i < |children|
    ensures SameView(Passing(i), Exiting(i + 1), children, q, x)
  {
  }

  lemma NextStep(s: State, a: Pid, i: nat)
    requires Enabled(s, ExitNext(a)) && s[a].phase == Passing(i)
    ensures Step(s, ExitNext(a)) == s[a := s[a].(phase := Exiting(i + 1))]
  {
  }

  lemma ExitNextKeeps(s: State, a: Pid, x: Pid)
    requires Enabled(s, ExitNext(a)) && x in s && Good(s, a) && Good(s, x)
    ensures Good(Step(s, ExitNext(a)), x)
  {
    var i := s[a].phase.next;
    NextStep(s, a, i);
    if s[x].parent == Some(a) {
      NextView(s[a].children, i, s[x], x);
    }
    MoveKeeps(s, a, s[a].(phase := Exiting(i + 1)), x);
  }

  lemma ExitBeginKeeps(s: State, a: Pid, status: int, x: Pid)
    requires Enabled(s, ExitBegin(a, status)) && x in s && Good(s, a) && Good(s, x)
    ensures Good(Step(s, ExitBegin(a, status)), x)
  {
    MoveKeeps(s, a, s[a].(exitCode := status, phase := Exiting(0)), x);
  }

  lemma NextIsPassed(children: seq<Pid>, i: nat, x: Pid)
    requires i < |children| && NoDup<Pid>(children)
    ensures x in children[..i + 1] <==> x in children[..i] || x == children[i]
    ensures children[i] !in children[..i]
  {
    assert children[..i + 1] == children[..i] + [children[i]];
  }

  lemma PassBond(children: seq<Pid>, i: nat, q: Process)
    requires i < |children| && NoDup<Pid>(children) && Bond(Exiting(i), children, q, children[i])
    ensures Bond(Passing(i), children, q.(reapSema := q.reapSema + 1), children[i])
  {
    NextIsPassed(children, i, children[i]);
  }

  lemma PassView(children: seq<Pid>, i: nat, q: Process, x: Pid)
    requires i < |children| && NoDup<Pid>(children) && x != children[i]
    ensures SameView(Exiting(i), Passing(i), children, q, x)
  {
    NextIsPassed(children, i, x);
  }

  lemma PassStep(s: State, a: Pid, i: nat, c: Pid)
    requires Enabled(s, ExitChild(a)) && i == s[a].phase.next && c == s[a].children[i]
    ensures Step(s, ExitChild(a)) == Touched(s, a, s[a].(phase := Passing(i)), c, s[c].(reapSema := s[c].reapSema + 1))
  {
  }

  lemma ExitChildKeeps(s: State, a: Pid, x: Pid)
    requires Enabled(s, ExitChild(a)) && x in s && Good(s, a) && Good(s, x)
    requires Good(s, s[a].children[s[a].phase.next])
    ensures Good(Step(s, ExitChild(a)), x)
  {
    var i := s[a].phase.next;
    var c := s[a].children[i];
    PassStep(s, a, i, c);
    PassBond(s[a].children, i, s[c]);
    if x != c {
      PassView(s[a].children, i, s[x], x);
    }
    TouchKeeps(s, a, s[a].(phase := Passing(i)), c, s[c].(reapSema := s[c].reapSema + 1), x);
  }

  /// A step of an exiting process that only its parent can see: its announcement, or its end.
  lemma EndKeeps(s: State, a: Pid, p: Process, x: Pid)
    requires a in s && x in s && Good(s, a) && Good(s, x)
    requires p == s[a].(phase := p.phase, blocked := p.blocked, waitSema := p.waitSema, reapSema := p.reapSema)
    requires p.waitSema == s[a].waitSema + Count(Announced(p)) - Count(Announced(s[a])) && Releases(p) == Releases(s[a])
    requires AtWork(s[a := p], a)
    requires s[x].parent == Some(a) ==> SameView(s[a].phase, p.phase, s[a].children, s[x], x)
    ensures Good(s[a := p], x)
  {
    var t := s[a := p];
    SiblingsDependOn(s, t, x);
    if s[x].parent == Some(a) {
      BondStays(s[a].phase, p.phase, s[a].children, s[x], x);
    } else if x != a {
      CustodyStays(s, t, x);
    }
  }

  lemma EndView(children: seq<Pid>, q: Process, x: Pid)
    ensures SameView(Exiting(|children|), AwaitReap, children, q, x)
  {
    assert children[..|children|] == children;
  }

  lemma AnnounceStep(s: State, a: Pid)
    requires Enabled(s, ExitAnnounce(a))
    ensures Step(s, ExitAnnounce(a)) == s[a := s[a].(waitSema := s[a].waitSema + 1, phase := AwaitReap)]
  {
  }

  lemma ExitAnnounceKeeps(s: State, a: Pid, x: Pid)
    requires Enabled(s, ExitAnnounce(a)) && x in s && Good(s, a) && Good(s, x)
    ensures Good(Step(s, ExitAnnounce(a)), x)
  {
    AnnounceStep(s, a);
    EndView(s[a].children, s[x], x);
    EndKeeps(s, a, s[a].(waitSema := s[a].waitSema + 1, phase := AwaitReap), x);
  }

  lemma ReapedKeeps(s: State, a: Pid, x: Pid)
    requires Enabled(s, Reaped(a)) && x in s && Good(s, a) && Good(s, x)
    ensures Good(Step(s, Reaped(a)), x)
  {
    EndKeeps(s, a, s[a].(reapSema := s[a].reapSema - 1, phase := Gone, blocked := false), x);
  }

  lemma UnlinkStep(s: State, a: Pid, c: Pid, status: int)
    requires Enabled(s, WaitUnlink(a)) && s[a].phase == Unlinking(c, status)
    ensures Step(s, WaitUnlink(a))
         == s[a := s[a].(children := Without<Pid>(s[a].children, c), phase := Releasing(c, status))]
  {
  }

  /// Taking a child off the list while its parent is at it changes nothing for the children.
  lemma UnlinkBond(children: seq<Pid>, rest: seq<Pid>, c: Pid, status: int, q: Process, x: Pid)
    requires Bond(Unlinking(c, status), children, q, x) && Elements<Pid>(rest) == Elements<Pid>(children) - {c}
    requires c in children
    ensures Bond(Releasing(c, status), rest, q, x)
  {
    assert x in rest <==> x in Elements<Pid>(rest);
  }

  lemma UnlinkSiblings(s: State, a: Pid, c: Pid, p: Process)
    requires a in s && Siblings(s, a) && p.children == Without<Pid>(s[a].children, c) && p.parent == s[a].parent
    ensures Siblings(s[a := p], a) && c !in p.children
    ensures Elements<Pid>(p.children) == Elements<Pid>(s[a].children) - {c}
  {
    WithoutElements<Pid>(s[a].children, c);
    assert forall y :: y in p.children <==> y in Elements<Pid>(p.children);
  }

  lemma WaitUnlinkKeeps(s: State, a: Pid, x: Pid)
    requires Enabled(s, WaitUnlink(a)) && x in s && Good(s, a) && Good(s, x) && Good(s, s[a].phase.child)
    ensures Good(Step(s, WaitUnlink(a)), x)
  {
    var c := s[a].phase.child;
    var p := s[a].(children := Without<Pid>(s[a].children, c), phase := Releasing(c, s[a].phase.status));
    UnlinkStep(s, a, c, s[a].phase.status);
    UnlinkSiblings(s, a, c, p);
    if x != a {
      SiblingsDependOn(s, s[a := p], x);
    }
    if s[x].parent == Some(a) {
      UnlinkBond(s[a].children, p.children, c, s[a].phase.status, s[x], x);
    } else {
      CustodyStays(s, s[a := p], x);
    }
  }

  lemma ForkKeepsOthers(s: State, a: Pid, c: Pid, d: Pid, x: Pid)
    requires Enabled(s, Fork(a, c, d)) && x in s && x != a && Good(s, a) && Good(s, x)
    ensures Good(Step(s, Fork(a, c, d)), x)
  {
    var t := Step(s, Fork(a, c, d));
    SiblingsDependOn(s, t, x);
    if s[x].parent == Some(a) {
      assert x in t[a].children <==> x in s[a].children;
    } else {
      CustodyStays(s, t, x);
    }
  }

  lemma ForkKeepsParent(s: State, a: Pid, c: Pid, d: Pid)
    requires Enabled(s, Fork(a, c, d)) && Good(s, a)
    ensures Good(Step(s, Fork(a, c, d)), a)
  {
    var t := Step(s, Fork(a, c, d));
    assert c !in s[a].children && d !in s[a].children;
    CustodyStays(s, t, a);
  }

  lemma ForkMakesGood(s: State, a: Pid, c: Pid, d: Pid, x: Pid)
    requires Enabled(s, Fork(a, c, d)) && (x == c || x == d)
    ensures Good(Step(s, Fork(a, c, d)), x)
  {
    var t := Step(s, Fork(a, c, d));
    assert t[a].children[|s[a].children|] == c && t[a].children[|s[a].children| + 1] == d;
  }

  lemma StepKeeps(s: State, e: Event)
    requires Inv(s) && Enabled(s, e)
    ensures Inv(Step(s, e))
  {
    forall x <- Step(s, e)
      ensures Good(Step(s, e), x)
    {
      match e
      case Fork(a, c, d) =>
        if x == a {
          ForkKeepsParent(s, a, c, d);
        } else if x in s {
          ForkKeepsOthers(s, a, c, d, x);
        } else {
          ForkMakesGood(s, a, c, d, x);
        }
      case WaitBegin(a, p) => WaitBeginKeeps(s, a, p, x);
      case WaitBlocks(a) => BlocksKeeps(s, a, x);
      case WaitDec(a) => WaitDecKeeps(s, a, x);
      case WaitRead(a) => WaitReadKeeps(s, a, x);
      case WaitUnlink(a) => WaitUnlinkKeeps(s, a, x);
      case WaitRelease(a) => WaitReleaseKeeps(s, a, x);
      case WaitNext(a) => WaitNextKeeps(s, a, x);
      case ExitBegin(a, status) => ExitBeginKeeps(s, a, status, x);
      case ExitChild(a) => ExitChildKeeps(s, a, x);
      case ExitNext(a) => ExitNextKeeps(s, a, x);
      case ExitAnnounce(a) => ExitAnnounceKeeps(s, a, x);
      case ReapBlocks(a) => BlocksKeeps(s, a, x);
      case Reaped(a) => ReapedKeeps(s, a, x);
    }
  }

  /// Over every interleaving of every tree of processes.
  lemma {:induction false} RunKeeps(s: State, es: seq<Event>)
    requires Inv(s) && Runs(s, es)
    ensures Inv(Run(s, es))
    decreases |es|
  {
    if es != [] {
      StepKeeps(s, es[0]);
      RunKeeps(Step(s, es[0]), es[1..]);
    }
  }

  // ---- what the two sides can count on in a reachable state ----

  /// A child at reap_sema can go on exactly when its parent has collected its status or has
  /// passed it in its own exit, and, as written, the child has not blocked before; nothing that
  /// happens meanwhile takes that away.
  lemma ReapedIffLetGo(s: State, c: Pid, reread: bool)
    requires Inv(s) && c in s && s[c].phase.AwaitReap? && s[c].parent.Some?
    ensures s[c].parent.value in s
    ensures var p := s[s[c].parent.value];
            (Possible(s, Reaped(c), reread)
             <==> (reread || !s[c].blocked) && (s[c].delivered == [s[c].exitCode] || Passed(p.phase, p.children, c)))
  {
    assert Good(s, c) && Good(s, s[c].parent.value);
    var p := s[s[c].parent.value];
    assert Passed(p.phase, p.children, c) ==> c in p.children;
  }

  lemma StaysReapable(s: State, e: Event, c: Pid, reread: bool)
    requires Inv(s) && Enabled(s, e) && Possible(s, Reaped(c), reread) && e != Reaped(c)
    ensures Possible(Step(s, e), Reaped(c), reread)
  {
    assert Good(s, e.a);
  }

  /// A process that nobody forked is never let go.
  lemma OrphanOfNobodyIsNotReaped(s: State, c: Pid)
    requires Inv(s) && c in s && s[c].parent.None?
    ensures !s[c].phase.Gone? && !Enabled(s, Reaped(c))
  {
    assert Good(s, c);
  }

  /// A child that is gone was collected by `wait`, with its exit code, or passed by its
  /// parent's exit.
  lemma GoneWasLetGo(s: State, c: Pid)
    requires Inv(s) && c in s && s[c].phase.Gone?
    ensures s[c].parent.Some? && s[c].parent.value in s
    ensures var p := s[s[c].parent.value];
            s[c].delivered == [s[c].exitCode] || Passed(p.phase, p.children, c)
  {
    assert Good(s, c);
    var p := s[s[c].parent.value];
    assert Good(s, s[c].parent.value);
  }

  /// `wait` gets past its decrement exactly when the child has announced its exit, and, as
  /// written, the parent has not blocked before.
  lemma WaitPassesIffAnnounced(s: State, a: Pid, reread: bool)
    requires Inv(s) && a in s && s[a].phase.Waiting?
    ensures s[a].phase.child in s
    ensures Possible(s, WaitDec(a), reread) <==> (reread || !s[a].blocked) && Announced(s[s[a].phase.child])
  {
    assert Good(s, a) && Good(s, s[a].phase.child);
  }

  /// The process that `wait` or the exit loop works on and has not released yet, if any.
  function Target(s: State, a: Pid): Option<Pid>
    requires a in s
  {
    match s[a].phase
    case Reading(c) => Some(c)
    case Unlinking(c, _) => Some(c)
    case Releasing(c, _) => Some(c)
    case Exiting(i) => if i < |s[a].children| then Some(s[a].children[i]) else None
    case _ => None
  }

  /// Up to its release a child is not gone, and `wait` reads the code of a process that has
  /// exited.
  lemma TargetIsThere(s: State, a: Pid)
    requires Inv(s) && a in s && Target(s, a).Some?
    ensures Target(s, a).value in s
    ensures !s[Target(s, a).value].phase.Gone?
    ensures !s[a].phase.Exiting? ==> s[Target(s, a).value].phase.AwaitReap?
  {
    var c := Target(s, a).value;
    assert Good(s, a) && Good(s, c);
    if s[a].phase.Exiting? {
      NextIsPassed(s[a].children, s[a].phase.next, c);
    }
  }

  /// The parent of the process has let go of it.
  predicate IsLetGo(s: State, c: Pid)
    requires c in s
  {
    s[c].parent.Some? && s[c].parent.value in s
    && LetGo(s[s[c].parent.value].phase, s[s[c].parent.value].children, c)
  }

  /// Only a process that has never been made ready, that is gone, or that has blocked is unable
  /// to take a step: as written for good, and otherwise as long as the child has not announced
  /// its exit, or the parent has not let go.
  predicate Stuck(s: State, a: Pid, reread: bool)
    requires a in s
  {
    match s[a].phase
    case Still => true
    case Waiting(c) => s[a].blocked && !(reread && c in s && Announced(s[c]))
    case AwaitReap => s[a].blocked && !(reread && IsLetGo(s, a))
    case Gone => true
    case _ => false
  }

  /// The step a process takes next.
  function Next(s: State, a: Pid): Event
    requires a in s
  {
    match s[a].phase
    case Waiting(c) => if s[a].blocked || (c in s && s[c].waitSema > 0) then WaitDec(a) else WaitBlocks(a)
    case Reading(_) => WaitRead(a)
    case Unlinking(_, _) => WaitUnlink(a)
    case Releasing(_, _) => WaitRelease(a)
    case Advancing(_) => WaitNext(a)
    case Passing(_) => ExitNext(a)
    case Exiting(i) => if i < |s[a].children| then ExitChild(a) else ExitAnnounce(a)
    case AwaitReap => if s[a].blocked || s[a].reapSema > 0 then Reaped(a) else ReapBlocks(a)
    case _ => ExitBegin(a, 0)
  }

  lemma EnabledIffNotStuck(s: State, a: Pid, reread: bool)
    requires Inv(s) && a in s
    ensures Possible(s, Next(s, a), reread) <==> !Stuck(s, a, reread)
  {
    assert Good(s, a);
    if s[a].phase.Waiting? {
      WaitPassesIffAnnounced(s, a, reread);
    }
  }

  // ---- what happens to one process over a whole run ----

  /// The process whose reap_sema the step increments.
  function Releasee(s: State, e: Event): Option<Pid>
    requires Enabled(s, e)
  {
    match e
    case WaitRelease(a) => Some(s[a].phase.child)
    case ExitChild(a) => Some(s[a].children[s[a].phase.next])
    case _ => None
  }

  /// How many steps of the run increment reap_sema of `c`.
  ghost function ReleasesIn(s: State, es: seq<Event>, c: Pid): nat
    requires Runs(s, es)
    decreases |es|
  {
    if es == [] then 0
    else Count(Releasee(s, es[0]) == Some(c)) + ReleasesIn(Step(s, es[0]), es[1..], c)
  }

  /// The status that the step returns from a `wait` for `c`, if any.
  function DeliveredBy(s: State, e: Event, c: Pid): seq<int>
    requires Enabled(s, e)
  {
    if e.WaitRelease? && s[e.a].phase.child == c then [s[e.a].phase.status] else []
  }

  /// The statuses that `wait` returns for `c` in the run.
  ghost function Returned(s: State, es: seq<Event>, c: Pid): seq<int>
    requires Runs(s, es)
    decreases |es|
  {
    if es == [] then []
    else DeliveredBy(s, es[0], c) + Returned(Step(s, es[0]), es[1..], c)
  }

  /// The statuses that `c` exits with in the run.
  function ExitedWith(es: seq<Event>, c: Pid): seq<int> {
    if es == [] then []
    else (if es[0].ExitBegin? && es[0].a == c then [es[0].status] else []) + ExitedWith(es[1..], c)
  }

  function ReleasesOf(s: State, c: Pid): nat {
    if c in s then Releases(s[c]) else 0
  }

  function DeliveredOf(s: State, c: Pid): seq<int> {
    if c in s then s[c].delivered else []
  }

  /// The exit status of a process that has begun exiting.
  function ExitOf(s: State, c: Pid): seq<int> {
    if c in s && (s[c].phase.Exiting? || s[c].phase.Passing? || Announced(s[c])) then [s[c].exitCode] else []
  }

  lemma StepCounts(s: State, e: Event, c: Pid)
    requires Inv(s) && Enabled(s, e)
    ensures ReleasesOf(Step(s, e), c) == ReleasesOf(s, c) + Count(Releasee(s, e) == Some(c))
  {
    assert Good(s, e.a);
  }

  lemma StepDelivers(s: State, e: Event, c: Pid)
    requires Inv(s) && Enabled(s, e)
    ensures DeliveredOf(Step(s, e), c) == DeliveredOf(s, c) + DeliveredBy(s, e, c)
  {
    assert Good(s, e.a);
  }

  lemma StepExits(s: State, e: Event, c: Pid)
    requires Inv(s) && Enabled(s, e)
    ensures ExitOf(Step(s, e), c) == ExitOf(s, c) + ExitedWith([e], c)
  {
    if e.a == c {
      assert Good(s, e.a);
    } else if c in s {
      OthersStay(s, e, c);
    }
  }

  lemma {:induction false} RunCounts(s: State, es: seq<Event>, c: Pid)
    requires Inv(s) && Runs(s, es)
    ensures ReleasesOf(Run(s, es), c) == ReleasesOf(s, c) + ReleasesIn(s, es, c)
    decreases |es|
  {
    if es != [] {
      StepKeeps(s, es[0]);
      StepCounts(s, es[0], c);
      RunCounts(Step(s, es[0]), es[1..], c);
    }
  }

  lemma Associate(p: seq<int>, q: seq<int>, r: seq<int>)
    ensures (p + q) + r == p + (q + r)
  {
  }

  lemma {:induction false} RunDelivers(s: State, es: seq<Event>, c: Pid)
    requires Inv(s) && Runs(s, es)
    ensures DeliveredOf(Run(s, es), c) == DeliveredOf(s, c) + Returned(s, es, c)
    decreases |es|
  {
    if es != [] {
      StepKeeps(s, es[0]);
      StepDelivers(s, es[0], c);
      var t := Step(s, es[0]);
      RunDelivers(t, es[1..], c);
      Associate(DeliveredOf(s, c), DeliveredBy(s, es[0], c), Returned(t, es[1..], c));
    }
  }

  lemma {:induction false} RunExits(s: State, es: seq<Event>, c: Pid)
    requires Inv(s) && Runs(s, es)
    ensures ExitOf(Run(s, es), c) == ExitOf(s, c) + ExitedWith(es, c)
    decreases |es|
  {
    if es != [] {
      StepKeeps(s, es[0]);
      StepExits(s, es[0], c);
      RunExits(Step(s, es[0]), es[1..], c);
      Associate(ExitOf(s, c), ExitedWith([es[0]], c), ExitedWith(es[1..], c));
    }
  }

  lemma AtMostOnce(s: State, c: Pid)
    requires Inv(s)
    ensures ReleasesOf(s, c) <= 1
    ensures DeliveredOf(s, c) == [] || DeliveredOf(s, c) == ExitOf(s, c)
  {
    if c in s {
      assert Good(s, c);
    }
  }

  /// In no run is reap_sema of a process incremented more than once.
  lemma ReleasedAtMostOnce(s: State, es: seq<Event>, c: Pid)
    requires Boot(s) && Runs(s, es)
    ensures ReleasesIn(s, es, c) <= 1
  {
    BootIsGood(s);
    RunKeeps(s, es);
    RunCounts(s, es, c);
    AtMostOnce(Run(s, es), c);
  }

  /// In every run a process exits at most once, and what `wait` returns for it is that
  /// status, at most once.
  lemma WaitReturnsTheExitOnce(s: State, es: seq<Event>, c: Pid)
    requires Boot(s) && Runs(s, es)
    ensures |ExitedWith(es, c)| <= 1
    ensures Returned(s, es, c) == [] || Returned(s, es, c) == ExitedWith(es, c)
  {
    BootIsGood(s);
    RunKeeps(s, es);
    FromNothing(s, es, c);
    AtMostOnce(Run(s, es), c);
  }

  lemma FromNothing(s: State, es: seq<Event>, c: Pid)
    requires Inv(s) && Runs(s, es) && DeliveredOf(s, c) == [] && ExitOf(s, c) == []
    ensures DeliveredOf(Run(s, es), c) == Returned(s, es, c) && ExitOf(Run(s, es), c) == ExitedWith(es, c)
  {
    RunDelivers(s, es, c);
    RunExits(s, es, c);
    NothingBefore(DeliveredOf(s, c), Returned(s, es, c));
    NothingBefore(ExitOf(s, c), ExitedWith(es, c));
  }

  lemma NothingBefore(p: seq<int>, q: seq<int>)
    requires p == []
    ensures p + q == q
  {
  }

  // ---- the read after the release ----

  /// The released child whose list element is read next.
  function Released(s: State, a: Pid): Option<Pid>
    requires a in s
  {
    match s[a].phase
    case Advancing(c) => Some(c)
    case Passing(i) => if i < |s[a].children| then Some(s[a].children[i]) else None
    case _ => None
  }

  function IsGone(s: State, c: Pid): bool {
    c in s && s[c].phase.Gone?
  }

  lemma StepGone(s: State, e: Event, c: Pid)
    requires Inv(s) && Enabled(s, e)
    ensures IsGone(Step(s, e), c) <==> IsGone(s, c) || e == Reaped(c)
  {
    assert Good(s, e.a);
  }

  lemma {:induction false} RunGone(s: State, es: seq<Event>, c: Pid)
    requires Inv(s) && Runs(s, es)
    ensures IsGone(Run(s, es), c) <==> IsGone(s, c) || Reaped(c) in es
    decreases |es|
  {
    if es != [] {
      StepKeeps(s, es[0]);
      StepGone(s, es[0], c);
      RunGone(Step(s, es[0]), es[1..], c);
    }
  }

  /// After releasing a child, `wait` and the exit loop read that child's list element. However
  /// long the read is delayed, the child is gone by then exactly when it took its reap in the
  /// meantime.
  lemma ReadTouchesGoneIff(s: State, e: Event, es: seq<Event>)
    requires Inv(s) && Enabled(s, e) && (e.WaitRelease? || e.ExitChild?) && Runs(Step(s, e), es)
    ensures Releasee(s, e).Some? && Released(Step(s, e), e.a) == Releasee(s, e)
    ensures IsGone(Run(Step(s, e), es), Releasee(s, e).value) <==> Reaped(Releasee(s, e).value) in es
  {
    var c := Releasee(s, e).value;
    assert Good(s, e.a);
    TargetIsThere(s, e.a);
    StepGone(s, e, c);
    StepKeeps(s, e);
    RunGone(Step(s, e), es, c);
  }

  /// The reap can come first: a child that waits for it may take it at once, unless, as
  /// written, it has blocked before.
  lemma ReapCanComeFirst(s: State, e: Event, reread: bool)
    requires Inv(s) && Enabled(s, e) && (e.WaitRelease? || e.ExitChild?)
    requires Releasee(s, e).value in s && s[Releasee(s, e).value].phase.AwaitReap?
    ensures Possible(Step(s, e), Reaped(Releasee(s, e).value), reread)
       <==> reread || !s[Releasee(s, e).value].blocked
  {
    assert Good(s, e.a) && Good(s, Releasee(s, e).value);
  }

  // ---- as written: the first test decides ----

  /// A child that blocked at reap_sema stays there.
  lemma {:induction false} BlockedIsNotReaped(s: State, es: seq<Event>, c: Pid)
    requires Inv(s) && RunsAsWritten(s, es) && c in s && s[c].phase.AwaitReap? && s[c].blocked
    ensures c in Run(s, es) && Run(s, es)[c].phase.AwaitReap?
    decreases |es|
  {
    if es != [] {
      StepKeeps(s, es[0]);
      BlockedStays(s, es[0], c);
      BlockedIsNotReaped(Step(s, es[0]), es[1..], c);
    }
  }

  lemma BlockedStays(s: State, e: Event, c: Pid)
    requires Inv(s) && Possible(s, e, false) && c in s && s[c].blocked
    ensures c in Step(s, e) && Step(s, e)[c].blocked && Step(s, e)[c].phase == s[c].phase
  {
    assert Good(s, e.a) && Good(s, c);
  }

  /// As written, a forked process gets past reap_sema exactly when its parent had let go of it
  /// by the time of its first test, whatever the parent does later.
  lemma ReapedAsWrittenIff(s: State, e: Event, es: seq<Event>)
    requires Inv(s) && (e.Reaped? || e.ReapBlocks?) && Possible(s, e, false) && RunsAsWritten(Step(s, e), es)
    ensures IsGone(Run(Step(s, e), es), e.a) <==> IsLetGo(s, e.a)
  {
    assert Good(s, e.a);
    StepKeeps(s, e);
    if e.Reaped? {
      RunGone(Step(s, e), es, e.a);
    } else {
      BlockedIsNotReaped(Step(s, e), es, e.a);
    }
  }

  /// A parent that blocked at wait_sema stays there.
  lemma {:induction false} BlockedDoesNotReturn(s: State, es: seq<Event>, a: Pid, c: Pid)
    requires Inv(s) && RunsAsWritten(s, es) && a in s && s[a].phase == Waiting(c) && s[a].blocked
    ensures a in Run(s, es) && Run(s, es)[a].phase == Waiting(c)
    decreases |es|
  {
    if es != [] {
      StepKeeps(s, es[0]);
      BlockedStays(s, es[0], a);
      BlockedDoesNotReturn(Step(s, es[0]), es[1..], a, c);
    }
  }

  /// A parent that is past its decrement does not come back to it for the same child.
  predicate PastWait(s: State, a: Pid, c: Pid) {
    a in s && c in s && !(s[a].phase.Waiting? && s[a].phase.child == c)
    && (Collecting(s[a].phase, c) || c !in s[a].children)
  }

  lemma OthersStay(s: State, e: Event, a: Pid)
    requires Enabled(s, e) && a in s && e.a != a
    ensures a in Step(s, e) && Step(s, e)[a].phase == s[a].phase && Step(s, e)[a].children == s[a].children
    ensures Step(s, e)[a].exitCode == s[a].exitCode
  {
  }

  lemma StaysPastWait(s: State, e: Event, a: Pid, c: Pid)
    requires Inv(s) && Enabled(s, e) && PastWait(s, a, c)
    ensures PastWait(Step(s, e), a, c)
  {
    if e.a != a {
      OthersStay(s, e, a);
      return;
    }
    assert Good(s, a);
    if e.WaitUnlink? {
      UnlinkSiblings(s, a, s[a].phase.child, Step(s, e)[a]);
      assert c in Step(s, e)[a].children <==> c in Elements<Pid>(Step(s, e)[a].children);
    }
  }

  lemma {:induction false} RunStaysPastWait(s: State, es: seq<Event>, a: Pid, c: Pid)
    requires Inv(s) && Runs(s, es) && PastWait(s, a, c)
    ensures PastWait(Run(s, es), a, c)
    decreases |es|
  {
    if es != [] {
      StepKeeps(s, es[0]);
      StaysPastWait(s, es[0], a, c);
      RunStaysPastWait(Step(s, es[0]), es[1..], a, c);
    }
  }

  /// As written, `wait` gets past its decrement exactly when the child had announced its exit by
  /// the time of the first test; otherwise it never returns.
  lemma WaitAsWrittenIff(s: State, e: Event, es: seq<Event>)
    requires Inv(s) && (e.WaitDec? || e.WaitBlocks?) && Possible(s, e, false) && RunsAsWritten(Step(s, e), es)
    ensures s[e.a].phase.child in s && e.a in Run(Step(s, e), es)
    ensures Run(Step(s, e), es)[e.a].phase != Waiting(s[e.a].phase.child) <==> Announced(s[s[e.a].phase.child])
  {
    var c := s[e.a].phase.child;
    assert Good(s, e.a) && Good(s, c);
    StepKeeps(s, e);
    if e.WaitDec? {
      RunStaysPastWait(Step(s, e), es, e.a, c);
    } else {
      BlockedDoesNotReturn(Step(s, e), es, e.a, c);
    }
  }

  // ---- what a forked child can do ----

  /// The first child of `fork` runs: it can exit, wait and fork at once. The second can take no
  /// step.
  lemma ForkStartsFirst(s: State, a: Pid, c: Pid, d: Pid, e: Event)
    requires Inv(s) && Enabled(s, Fork(a, c, d))
    ensures var t := Step(s, Fork(a, c, d));
      && (e.a == c && (e.ExitBegin? || e.WaitBegin?) ==> Enabled(t, e))
      && (e.a == c && e.Fork? && e.started != e.still && e.started !in t && e.still !in t ==> Enabled(t, e))
      && (e.a == d ==> !Enabled(t, e))
  {
  }

  /// Both are children of the caller, with nothing to their name.
  lemma ForkAddsTwo(s: State, a: Pid, c: Pid, d: Pid)
    requires Inv(s) && Enabled(s, Fork(a, c, d))
    ensures var t := Step(s, Fork(a, c, d));
      && t.Keys == s.Keys + {c, d} && t[a].children == s[a].children + [c, d] && t[a].phase == Live
      && (forall x <- [c, d] :: t[x].parent == Some(a) && t[x].children == [] && t[x].waitSema == t[x].reapSema == 0)
      && forall x <- s :: x != a ==> t[x] == s[x]
  {
  }

  // ---- the value fork returns ----

  lemma StillStays(s: State, e: Event, d: Pid)
    requires Inv(s) && Enabled(s, e) && d in s && s[d].phase.Still?
    ensures d in Step(s, e) && Step(s, e)[d].phase.Still?
  {
    assert Good(s, e.a);
  }

  /// A child that has not announced its exit stays on the list.
  lemma StillListed(s: State, e: Event, a: Pid, d: Pid)
    requires Inv(s) && Enabled(s, e) && d in s && s[d].phase.Still? && a in s && d in s[a].children
    ensures a in Step(s, e) && d in Step(s, e)[a].children
  {
    assert Good(s, a) && Good(s, d);
    if e.a != a {
      OthersStay(s, e, a);
    } else if e.WaitUnlink? {
      UnlinkSiblings(s, a, s[a].phase.child, Step(s, e)[a]);
      assert d in Elements<Pid>(Step(s, e)[a].children);
    }
  }

  lemma StillIsSilent(s: State, a: Pid, d: Pid)
    requires Inv(s) && a in s && d in s && s[d].phase.Still? && s[a].phase == Waiting(d)
    ensures s[d].waitSema == 0
  {
    assert Good(s, a) && Good(s, d);
  }

  lemma StillBlocks(s: State, e: Event, a: Pid, d: Pid)
    requires Inv(s) && Enabled(s, e) && a in s && d in s
    requires s[d].phase.Still? && s[a].phase == Waiting(d)
    ensures a in Step(s, e) && Step(s, e)[a].phase == Waiting(d)
  {
    if e.a != a {
      OthersStay(s, e, a);
    } else {
      StillIsSilent(s, a, d);
    }
  }

  /// Nothing makes the second child of `fork` ready, so `wait` for it never returns.
  lemma {:induction false} WaitForStillNeverReturns(s: State, es: seq<Event>, a: Pid, d: Pid)
    requires Inv(s) && Runs(s, es) && a in s && d in s
    requires s[d].phase.Still? && s[a].phase == Waiting(d)
    ensures a in Run(s, es) && Run(s, es)[a].phase == Waiting(d)
    decreases |es|
  {
    if es != [] {
      StillStays(s, es[0], d);
      StillBlocks(s, es[0], a, d);
      StepKeeps(s, es[0]);
      WaitForStillNeverReturns(Step(s, es[0]), es[1..], a, d);
    }
  }

  lemma {:induction false} StillStaysInRun(s: State, es: seq<Event>, a: Pid, d: Pid)
    requires Inv(s) && Runs(s, es) && d in s && s[d].phase.Still? && a in s && d in s[a].children
    ensures d in Run(s, es) && Run(s, es)[d].phase.Still?
    ensures a in Run(s, es) && d in Run(s, es)[a].children
    decreases |es|
  {
    if es != [] {
      StepKeeps(s, es[0]);
      StillStays(s, es[0], d);
      StillListed(s, es[0], a, d);
      StillStaysInRun(Step(s, es[0]), es[1..], a, d);
    }
  }

  /// `fork` returns the identifier of its second child. A later `wait` with that value, after
  /// any number of steps of anyone, blocks for good.
  lemma WaitForForkResultNeverReturns(s: State, a: Pid, c: Pid, d: Pid, es: seq<Event>, fs: seq<Event>)
    requires Inv(s) && Enabled(s, Fork(a, c, d)) && Runs(Step(s, Fork(a, c, d)), es)
    requires var t := Run(Step(s, Fork(a, c, d)), es);
             Enabled(t, WaitBegin(a, d)) && Runs(Step(t, WaitBegin(a, d)), fs)
    ensures var t := Run(Step(s, Fork(a, c, d)), es);
            var u := Run(Step(t, WaitBegin(a, d)), fs);
            a in u && u[a].phase == Waiting(d)
  {
    var r := Step(s, Fork(a, c, d));
    StepKeeps(s, Fork(a, c, d));
    assert r[a].children[|s[a].children| + 1] == d;
    RunKeeps(r, es);
    StillStaysInRun(r, es, a, d);
    var t := Run(r, es);
    StepKeeps(t, WaitBegin(a, d));
    WaitForStillNeverReturns(Step(t, WaitBegin(a, d)), fs, a, d);
  }
}

/// `fork`, `wait` and `exit_process` as the code runs them when nobody interrupts: each call
/// is one of the runs of `Handshake`.
module ProcessTables {
  import opened Handshake
  import opened Options
  import opened Queues

  /// The code as written gets from `s` to `t` by these steps.
  ghost predicate Reaches(s: State, es: seq<Event>, t: State) {
    RunsAsWritten(s, es) && t == Run(s, es)
  }

  lemma {:induction false} RunAppend(s: State, es: seq<Event>, e: Event)
    requires RunsAsWritten(s, es) && Possible(Run(s, es), e, false)
    ensures RunsAsWritten(s, es + [e]) && Run(s, es + [e]) == Step(Run(s, es), e)
    decreases |es|
  {
    if es == [] {
      assert es + [e] == [e];
      assert [e][1..] == [];
    } else {
      RunAppend(Step(s, es[0]), es[1..], e);
      assert (es + [e])[1..] == es[1..] + [e];
    }
  }

  /// The steps of exit_process up to the point where it has passed that many children.
  function ExitSteps(a: Pid, status: int, passed: nat): seq<Event> {
    if passed == 0 then [ExitBegin(a, status)]
    else ExitSteps(a, status, passed - 1) + [ExitChild(a)] + [ExitNext(a)]
  }

  /// One round of the exit loop: the child is released, and its list element read.
  lemma RoundRuns(s: State, a: Pid, status: int, i: nat)
    requires RunsAsWritten(s, ExitSteps(a, status, i)) && Enabled(Run(s, ExitSteps(a, status, i)), ExitChild(a))
    requires var u := Run(s, ExitSteps(a, status, i)); u[a].children[u[a].phase.next] != a
    ensures RunsAsWritten(s, ExitSteps(a, status, i + 1))
    ensures var t := Step(Run(s, ExitSteps(a, status, i)), ExitChild(a));
            Enabled(t, ExitNext(a)) && Run(s, ExitSteps(a, status, i + 1)) == Step(t, ExitNext(a))
  {
    RunAppend(s, ExitSteps(a, status, i), ExitChild(a));
    var t := Step(Run(s, ExitSteps(a, status, i)), ExitChild(a));
    RunAppend(s, ExitSteps(a, status, i) + [ExitChild(a)], ExitNext(a));
  }

  /// The steps of a wait that finds the child.
  function WaitSteps(a: Pid, p: Pid): seq<Event> {
    [WaitBegin(a, p)] + [WaitDec(a)] + [WaitRead(a)] + [WaitUnlink(a)] + [WaitRelease(a)] + [WaitNext(a)]
  }

  lemma RunOne(s: State, e: Event)
    requires Possible(s, e, false)
    ensures RunsAsWritten(s, [e]) && Run(s, [e]) == Step(s, e)
  {
    assert [e][1..] == [];
  }

  /// The steps of a wait that finds the semaphore at zero.
  function BlockSteps(a: Pid, p: Pid): seq<Event> {
    [WaitBegin(a, p)] + [WaitBlocks(a)]
  }

  lemma BlockRuns(s: State, a: Pid, p: Pid)
    requires a in s && p in s && a != p && s[p].waitSema == 0 && s[a].phase.Live? && !s[a].blocked && p in s[a].children
    ensures RunsAsWritten(s, BlockSteps(a, p))
    ensures Run(s, BlockSteps(a, p)) == s[a := s[a].(phase := Waiting(p), blocked := true)]
  {
    RunOne(s, WaitBegin(a, p));
    RunAppend(s, [WaitBegin(a, p)], WaitBlocks(a));
  }

  /// `a` has read the status of `p`.
  function WithStatus(s: State, a: Pid, p: Pid): State
    requires a in s && p in s && a != p && s[p].waitSema > 0
  {
    s[a := s[a].(phase := Unlinking(p, s[p].exitCode))][p := s[p].(waitSema := s[p].waitSema - 1)]
  }

  lemma ReadsStatus(s: State, a: Pid, p: Pid)
    requires a in s && p in s && a != p && s[p].waitSema > 0 && s[a].phase.Live? && !s[a].blocked && p in s[a].children
    ensures RunsAsWritten(s, [WaitBegin(a, p)] + [WaitDec(a)] + [WaitRead(a)])
    ensures Run(s, [WaitBegin(a, p)] + [WaitDec(a)] + [WaitRead(a)]) == WithStatus(s, a, p)
  {
    RunOne(s, WaitBegin(a, p));
    RunAppend(s, [WaitBegin(a, p)], WaitDec(a));
    RunAppend(s, [WaitBegin(a, p)] + [WaitDec(a)], WaitRead(a));
  }

  /// What the steps of a wait do together.
  function Collected(s: State, a: Pid, p: Pid): State
    requires a in s && p in s && a != p && s[p].waitSema > 0
  {
    s[a := s[a].(children := Without<Pid>(s[a].children, p), phase := Live)]
     [p := s[p].(waitSema := s[p].waitSema - 1, reapSema := s[p].reapSema + 1,
                 delivered := s[p].delivered + [s[p].exitCode])]
  }

  lemma CollectRuns(s: State, a: Pid, p: Pid)
    requires a in s && p in s && a != p && s[p].waitSema > 0 && s[a].phase.Live? && !s[a].blocked && p in s[a].children
    ensures RunsAsWritten(s, WaitSteps(a, p)) && Run(s, WaitSteps(a, p)) == Collected(s, a, p)
  {
    var es := [WaitBegin(a, p)] + [WaitDec(a)] + [WaitRead(a)];
    ReadsStatus(s, a, p);
    RunAppend(s, es, WaitUnlink(a));
    RunAppend(s, es + [WaitUnlink(a)], WaitRelease(a));
    RunAppend(s, es + [WaitUnlink(a)] + [WaitRelease(a)], WaitNext(a));
    assert WaitSteps(a, p) == es + [WaitUnlink(a)] + [WaitRelease(a)] + [WaitNext(a)];
  }

  lemma AnnouncedIffPositive(s: State, a: Pid, p: Pid)
    requires Inv(s) && a in s && s[a].phase.Live? && p in s[a].children && p in s
    ensures a != p && !s[a].blocked && (s[p].waitSema > 0 <==> Announced(s[p]))
  {
    assert Good(s, a) && Good(s, p);
  }

  lemma CanCollect(s: State, a: Pid, p: Pid)
    requires Inv(s) && a in s && s[a].phase.Live? && p in s[a].children && p in s && Announced(s[p])
    ensures a != p && !s[a].blocked && s[p].waitSema > 0
  {
    assert Good(s, a) && Good(s, p);
  }

  /// A process that has finished the exit loop has released each of its children once.
  lemma ExitReleasesChildren(s: State, a: Pid, c: Pid)
    requires Inv(s) && a in s && s[a].phase.AwaitReap? && c in s[a].children
    ensures c in s && Releases(s[c]) == 1
  {
    assert Good(s, a) && Good(s, c);
  }

  lemma NextChild(s: State, a: Pid)
    requires Inv(s) && a in s && s[a].phase.Exiting? && s[a].phase.next < |s[a].children|
    ensures s[a].children[s[a].phase.next] in s && s[a].children[s[a].phase.next] != a
  {
    var c := s[a].children[s[a].phase.next];
    assert Good(s, a) && Good(s, c);
  }

  lemma {:induction false} RunsAppend(s: State, es: seq<Event>, fs: seq<Event>)
    requires RunsAsWritten(s, es) && RunsAsWritten(Run(s, es), fs)
    ensures RunsAsWritten(s, es + fs) && Run(s, es + fs) == Run(Run(s, es), fs)
    decreases |es|
  {
    if es == [] {
      assert es + fs == fs;
    } else {
      RunsAppend(Step(s, es[0]), es[1..], fs);
      assert (es + fs)[0] == es[0] && (es + fs)[1..] == es[1..] + fs;
    }
  }

  /// The steps of a process that has no children and exits.
  lemma ChildlessExits(s: State, c: Pid, status: int)
    requires c in s && s[c].phase.Live? && s[c].children == []
    ensures var es := [ExitBegin(c, status)] + [ExitAnnounce(c)];
      && RunsAsWritten(s, es)
      && Run(s, es) == s[c := s[c].(exitCode := status, phase := AwaitReap, waitSema := s[c].waitSema + 1)]
  {
    RunOne(s, ExitBegin(c, status));
    RunAppend(s, [ExitBegin(c, status)], ExitAnnounce(c));
  }

  /// A forked child can exit at once.
  lemma ForkExits(s: State, a: Pid, c: Pid, d: Pid, status: int)
    requires Inv(s) && Enabled(s, Fork(a, c, d))
    ensures var es := [Fork(a, c, d)] + ([ExitBegin(c, status)] + [ExitAnnounce(c)]);
      && RunsAsWritten(s, es) && c in Run(s, es) && a in Run(s, es)
      && var t := Run(s, es);
         && t[c].exitCode == status && t[c].phase == AwaitReap && !t[c].blocked
         && t[c].waitSema == 1 && t[c].delivered == []
         && t[a].phase == Live && c in t[a].children
  {
    var s1 := Step(s, Fork(a, c, d));
    assert Good(s, a);
    RunOne(s, Fork(a, c, d));
    ForkAddsTwo(s, a, c, d);
    assert s1[a].children[|s[a].children|] == c;
    ChildlessExits(s1, c, status);
    RunsAppend(s, [Fork(a, c, d)], [ExitBegin(c, status)] + [ExitAnnounce(c)]);
  }

  /// A wait for a child that has announced its exit collects it, and the child can go.
  lemma WaitReaps(s: State, a: Pid, c: Pid)
    requires Inv(s) && a in s && c in s && s[a].phase.Live? && c in s[a].children
    requires s[c].phase.AwaitReap? && !s[c].blocked && s[c].waitSema > 0
    ensures var es := WaitSteps(a, c) + [Reaped(c)];
      && RunsAsWritten(s, es) && IsGone(Run(s, es), c) && a in Run(s, es) && Run(s, es)[a].phase == Live
      && Run(s, es)[c].exitCode == s[c].exitCode && Run(s, es)[c].delivered == s[c].delivered + [s[c].exitCode]
  {
    assert Good(s, a) && Good(s, c);
    CollectRuns(s, a, c);
    RunAppend(s, WaitSteps(a, c), Reaped(c));
  }

  /// From every good state a process can fork a child, the child exit, and a `wait` for it return
  /// its status, after which the child is gone; all of it as written.
  lemma ForkExitWait(s: State, a: Pid, c: Pid, d: Pid, status: int) returns (es: seq<Event>)
    requires Inv(s) && Enabled(s, Fork(a, c, d))
    ensures RunsAsWritten(s, es) && Returned(s, es, c) == [status] && ExitedWith(es, c) == [status]
    ensures a in Run(s, es) && Run(s, es)[a].phase == Live && IsGone(Run(s, es), c)
  {
    var fs := [Fork(a, c, d)] + ([ExitBegin(c, status)] + [ExitAnnounce(c)]);
    ForkExits(s, a, c, d, status);
    var t := Run(s, fs);
    RunKeeps(s, fs);
    var gs := WaitSteps(a, c) + [Reaped(c)];
    WaitReaps(t, a, c);
    RunsAppend(s, fs, gs);
    es := fs + gs;
    FromNothing(s, es, c);
  }

  class ProcessTable {
    var processes: State

    method ForkTwice(a: Pid, first: Pid, second: Pid) returns (id: Pid)
      requires Enabled(processes, Fork(a, first, second))
      modifies this
      ensures processes == Step(old(processes), Fork(a, first, second)) && id == second
      ensures first in processes && second in processes
      ensures processes[first].phase == Live && processes[second].phase == Still
    {
      ForkProcess(a, first);
      processes := processes[first := processes[first].(phase := Live)];
      ForkProcess(a, second);
      id := second;
      assert old(processes)[a].children + [first, second] == (old(processes)[a].children + [first]) + [second];
    }

    /// fork_process: a child on the list of its parent, not yet ready.
    method ForkProcess(a: Pid, child: Pid)
      requires a in processes && child !in processes
      modifies this
      ensures processes == old(processes)[a := old(processes)[a].(children := old(processes)[a].children + [child])]
                                         [child := NewProcess(Some(a), Still)]
    {
      processes := processes[child := NewProcess(Some(a), Still)];
      processes := processes[a := processes[a].(children := processes[a].children + [child])];
    }

    method Exit(a: Pid, status: int)
      requires Inv(processes) && a in processes && processes[a].phase.Live?
      modifies this
      ensures a in old(processes)
      ensures var es := ExitSteps(a, status, |old(processes)[a].children|) + [ExitAnnounce(a)];
              Reaches(old(processes), es, processes)
      ensures Inv(processes) && a in processes
      ensures processes[a].phase.AwaitReap? && processes[a].exitCode == status
      ensures processes[a].children == old(processes)[a].children
      ensures forall c <- processes[a].children :: c in processes && Releases(processes[c]) == 1
    {
      BeginExit(a, status);
      ReleaseAll(a, status, old(processes));
      ghost var n := |processes[a].children|;
      RunAppend(old(processes), ExitSteps(a, status, n), ExitAnnounce(a));
      Announce(a);
      forall c <- processes[a].children
        ensures c in processes && Releases(processes[c]) == 1
      {
        ExitReleasesChildren(processes, a, c);
      }
    }

    method BeginExit(a: Pid, status: int)
      requires Inv(processes) && a in processes && processes[a].phase.Live?
      modifies this
      ensures a in old(processes) && a in processes && processes[a].phase == Exiting(0)
      ensures processes[a].exitCode == status && processes[a].children == old(processes)[a].children
      ensures Reaches(old(processes), ExitSteps(a, status, 0), processes)
      ensures Inv(processes)
    {
      RunOne(processes, ExitBegin(a, status));
      StepKeeps(processes, ExitBegin(a, status));
      processes := processes[a := processes[a].(exitCode := status, phase := Exiting(0))];
    }

    /// The exit loop.
    method ReleaseAll(a: Pid, status: int, ghost start: State)
      requires Inv(processes) && a in processes && processes[a].phase == Exiting(0)
      requires Reaches(start, ExitSteps(a, status, 0), processes)
      modifies this
      ensures Inv(processes) && a in old(processes) && a in processes
      ensures processes[a].children == old(processes)[a].children
      ensures processes[a].exitCode == old(processes)[a].exitCode
      ensures processes[a].phase == Exiting(|processes[a].children|)
      ensures var es := ExitSteps(a, status, |processes[a].children|); Reaches(start, es, processes)
    {
      var i := 0;
      while i < |processes[a].children|
        invariant a in processes && processes[a].phase == Exiting(i) && i <= |processes[a].children|
        invariant processes[a].children == old(processes)[a].children
        invariant processes[a].exitCode == old(processes)[a].exitCode && Inv(processes)
        invariant Reaches(start, ExitSteps(a, status, i), processes)
        decreases |processes[a].children| - i
      {
        ReleaseNext(a, status, i, start);
        i := i + 1;
      }
    }

    /// One round of it.
    method ReleaseNext(a: Pid, status: int, i: nat, ghost start: State)
      requires Inv(processes) && a in processes && processes[a].phase == Exiting(i) && i < |processes[a].children|
      requires Reaches(start, ExitSteps(a, status, i), processes)
      modifies this
      ensures Inv(processes) && a in old(processes) && a in processes && processes[a].phase == Exiting(i + 1)
      ensures processes[a].children == old(processes)[a].children
      ensures processes[a].exitCode == old(processes)[a].exitCode
      ensures Reaches(start, ExitSteps(a, status, i + 1), processes)
    {
      NextChild(processes, a);
      RoundRuns(start, a, status, i);
      ReleaseChild(a, i);
    }

    method Announce(a: Pid)
      requires Inv(processes) && Enabled(processes, ExitAnnounce(a))
      modifies this
      ensures a in old(processes) && a in processes && processes == Step(old(processes), ExitAnnounce(a))
      ensures Inv(processes) && processes[a].phase.AwaitReap?
      ensures processes[a].exitCode == old(processes)[a].exitCode
      ensures processes[a].children == old(processes)[a].children
    {
      StepKeeps(processes, ExitAnnounce(a));
      processes := processes[a := processes[a].(waitSema := processes[a].waitSema + 1, phase := AwaitReap)];
    }

    method ReleaseChild(a: Pid, i: nat)
      requires Inv(processes) && a in processes && processes[a].phase == Exiting(i)
      requires i < |processes[a].children| && processes[a].children[i] in processes
      modifies this
      ensures Enabled(old(processes), ExitChild(a)) && Enabled(Step(old(processes), ExitChild(a)), ExitNext(a))
      ensures processes == Step(Step(old(processes), ExitChild(a)), ExitNext(a))
      ensures Inv(processes) && a in processes && processes[a].phase == Exiting(i + 1)
      ensures processes[a].children == old(processes)[a].children
      ensures processes[a].exitCode == old(processes)[a].exitCode
    {
      var c := processes[a].children[i];
      NextChild(processes, a);
      PassStep(processes, a, i, c);
      StepKeeps(processes, ExitChild(a));
      processes := processes[a := processes[a].(phase := Passing(i))];
      processes := processes[c := processes[c].(reapSema := processes[c].reapSema + 1)];
      StepKeeps(processes, ExitNext(a));
      processes := processes[a := processes[a].(phase := Exiting(i + 1))];
    }

    /// wait. For a child that has not announced its exit it blocks at its decrement, and the
    /// result is None.
    method Wait(a: Pid, p: Pid) returns (status: Option<int>)
      requires Inv(processes) && a in processes && processes[a].phase.Live?
      modifies this
      ensures a in old(processes) && Inv(processes)
      ensures p !in old(processes)[a].children ==> status == Some(-1) && processes == old(processes)
      ensures p in old(processes)[a].children ==> p in old(processes)
      ensures p in old(processes)[a].children && Announced(old(processes)[p]) ==>
                && status == Some(old(processes)[p].exitCode)
                && Reaches(old(processes), WaitSteps(a, p), processes)
      ensures p in old(processes)[a].children && !Announced(old(processes)[p]) ==>
                && status == None
                && Reaches(old(processes), BlockSteps(a, p), processes)
                && !Enabled(processes, WaitDec(a))
    {
      status := Some(-1);
      var list := processes[a].children;
      var i := 0;
      assert Good(processes, a);
      while i < |list|
        invariant 0 <= i <= |list|
        invariant p !in list[..i] ==> status == Some(-1) && processes == old(processes)
        invariant p in list[..i] ==> p in old(processes) && Announced(old(processes)[p])
        invariant p in list[..i] ==> status == Some(old(processes)[p].exitCode)
        invariant p in list[..i] ==>
                    Reaches(old(processes), WaitSteps(a, p), processes)
        invariant Inv(processes)
      {
        assert list[i] == p ==> p !in list[..i];
        if list[i] == p {
          if processes[p].waitSema == 0 {
            Block(a, p);
            return None;
          }
          AnnouncedIffPositive(processes, a, p);
          var code := Collect(a, p);
          status := Some(code);
        }
        i := i + 1;
      }
    }

    method Block(a: Pid, p: Pid)
      requires Inv(processes) && a in processes && processes[a].phase.Live? && p in processes[a].children
      requires p in processes && processes[p].waitSema == 0
      modifies this
      ensures Inv(processes) && !Announced(old(processes)[p]) && !Enabled(processes, WaitDec(a))
      ensures Reaches(old(processes), BlockSteps(a, p), processes)
    {
      AnnouncedIffPositive(processes, a, p);
      BlockRuns(processes, a, p);
      RunKeeps(processes, BlockSteps(a, p));
      processes := processes[a := processes[a].(phase := Waiting(p), blocked := true)];
    }

    method Collect(a: Pid, p: Pid) returns (status: int)
      requires Inv(processes) && a in processes && processes[a].phase.Live? && p in processes[a].children
      requires p in processes && Announced(processes[p])
      modifies this
      ensures p in old(processes) && status == old(processes)[p].exitCode && Inv(processes)
      ensures Reaches(old(processes), WaitSteps(a, p), processes)
    {
      CanCollect(processes, a, p);
      CollectRuns(processes, a, p);
      RunKeeps(processes, WaitSteps(a, p));
      var q := processes[p];
      processes := processes[p := q.(waitSema := q.waitSema - 1)];
      status := processes[p].exitCode;
      processes := processes[a := processes[a].(children := Without<Pid>(processes[a].children, p))];
      q := processes[p];
      processes := processes[p := q.(reapSema := q.reapSema + 1, delivered := q.delivered + [status])];
      assert processes == Collected(old(processes), a, p);
    }
  }
}
