/// Threads and semaphores (kern/lib/thr/thread.c).
///
/// Each stretch of code that runs with interrupts off is one step. `Scheduling` describes the
/// steps on values and proves what every run keeps; `Kernels` holds the code.

module Scheduling {
  import opened Queues

  type Tid = nat
  type Sid = nat

  /// THRSTAT_RUNNING exists but is never assigned: the running thread keeps READY.
  datatype Status = BLOCKED | READY | RUNNING | DEAD

  /// Where a thread goes on when it next runs: in its own code, or in the loop of
  /// semaphore_dec on some semaphore.
  datatype Mode = Normal | InDec(sema: Sid)

  datatype Sema = Sema(value: nat, waiters: seq<Tid>)

  datatype State = State(
    ready: seq<Tid>,
    running: Tid,
    idle: Tid,
    status: map<Tid, Status>,
    mode: map<Tid, Mode>,
    semas: seq<Sema>)

  // ---- the code, as functions on states ----

  /// The head of the ready queue takes over, or the idle thread if there is none.
  function ScheduleNext(s: State): State {
    if s.ready == [] then s.(running := s.idle)
    else s.(running := s.ready[0], ready := s.ready[1..])
  }

  function StatusOf(s: State, t: Tid): Status {
    if t in s.status then s.status[t] else BLOCKED
  }

  function ModeOf(s: State, t: Tid): Mode {
    if t in s.mode then s.mode[t] else Normal
  }

  function YieldCurrent(s: State): State {
    ScheduleNext(if StatusOf(s, s.running) != BLOCKED then s.(ready := s.ready + [s.running]) else s)
  }

  function BlockCurrent(s: State): State {
    YieldCurrent(s.(status := s.status[s.running := BLOCKED]))
  }

  function ThreadUnblock(s: State, t: Tid): State {
    s.(ready := if t != s.idle then s.ready + [t] else s.ready, status := s.status[t := READY])
  }

  function ThreadBlock(s: State, t: Tid): State {
    if t == s.running then BlockCurrent(s)
    else s.(status := s.status[t := BLOCKED], ready := Without<Tid>(s.ready, t))
  }

  function ExitThread(s: State): State {
    ScheduleNext(s.(status := s.status[s.running := DEAD]))
  }

  function CreateThread(s: State, t: Tid): State {
    ThreadUnblock(s.(mode := s.mode[t := Normal], status := s.status[t := BLOCKED]), t)
  }

  function SemaphoreInc(s: State, x: Sid): State
    requires x < |s.semas|
  {
    var q := s.semas[x].waiters;
    if q == [] then s.(semas := s.semas[x := Sema(s.semas[x].value + 1, [])])
    else ThreadUnblock(s.(semas := s.semas[x := Sema(s.semas[x].value + 1, q[1..])]), q[0])
  }

  /// One pass of the loop of semaphore_dec that has seen `value`: take a unit, or queue up
  /// and give way.
  function TryDec(s: State, x: Sid, value: nat): State
    requires x < |s.semas|
  {
    var q := s.semas[x];
    if value > 0 then
      s.(semas := s.semas[x := Sema(value - 1, q.waiters)], mode := s.mode[s.running := Normal])
    else
      BlockCurrent(s.(semas := s.semas[x := Sema(q.value, q.waiters + [s.running])],
                      mode := s.mode[s.running := InDec(x)]))
  }

  datatype Event =
    | Yield
    | Dec(x: Sid)
    | Resume
    | Inc(x: Sid)
    | Create(t: Tid)
    | Exit
    | BlockSelf
    | Block(t: Tid)
    | Unblock(t: Tid)

  /// A thread inside semaphore_dec runs with interrupts off, so nothing else can happen until
  /// it has looked at the value again. The idle thread only spins. `Inc` may also come from
  /// an interrupt. Blocking and unblocking another thread is for threads that are in the
  /// ready queue, or in no queue.
  predicate Enabled(s: State, e: Event) {
    match e
    case Resume => ModeOf(s, s.running).InDec? && ModeOf(s, s.running).sema < |s.semas|
    case Yield => ModeOf(s, s.running).Normal?
    case Dec(x) => ModeOf(s, s.running).Normal? && x < |s.semas| && s.running != s.idle
    case Inc(x) => ModeOf(s, s.running).Normal? && x < |s.semas|
    case Create(t) => ModeOf(s, s.running).Normal? && t !in s.status
    case Exit => ModeOf(s, s.running).Normal? && s.running != s.idle
    case BlockSelf => ModeOf(s, s.running).Normal? && s.running != s.idle
    case Block(t) => ModeOf(s, s.running).Normal? && t in s.ready && t != s.idle && t != s.running
    case Unblock(t) =>
      && ModeOf(s, s.running).Normal? && t in s.status && s.status[t] == BLOCKED
      && forall x :: 0 <= x < |s.semas| ==> t !in s.semas[x].waiters
  }

  /// `reread` tells whether the loop of semaphore_dec reads the value again after the thread
  /// was woken. As written it tests the copy it took on entry, which was zero.
  function Step(s: State, e: Event, reread: bool): State
    requires Enabled(s, e)
  {
    match e
    case Yield => YieldCurrent(s)
    case Dec(x) => TryDec(s, x, s.semas[x].value)
    case Resume =>
      var x := ModeOf(s, s.running).sema;
      TryDec(s, x, if reread then s.semas[x].value else 0)
    case Inc(x) => SemaphoreInc(s, x)
    case Create(t) => CreateThread(s, t)
    case Exit => ExitThread(s)
    case BlockSelf => BlockCurrent(s)
    case Block(t) => ThreadBlock(s, t)
    case Unblock(t) => ThreadUnblock(s, t)
  }

  predicate Runs(s: State, es: seq<Event>, reread: bool)
    decreases |es|
  {
    es == [] || (Enabled(s, es[0]) && Runs(Step(s, es[0], reread), es[1..], reread))
  }

  function Run(s: State, es: seq<Event>, reread: bool): State
    requires Runs(s, es, reread)
    decreases |es|
  {
    if es == [] then s else Run(Step(s, es[0], reread), es[1..], reread)
  }

  // ---- every thread in one place ----

  function Waiting(semas: seq<Sema>): multiset<Tid> {
    if semas == [] then multiset{} else Waiting(semas[..|semas| - 1]) + multiset(semas[|semas| - 1].waiters)
  }

  /// All places a thread's queue element can be in, with multiplicity.
  function Places(s: State): multiset<Tid> {
    multiset{s.running} + multiset(s.ready) + Waiting(s.semas)
  }

  lemma {:induction false} WaitingUpdate(semas: seq<Sema>, x: Sid, q: Sema, t: Tid)
    requires x < |semas|
    ensures Waiting(semas[x := q])[t] + multiset(semas[x].waiters)[t] == Waiting(semas)[t] + multiset(q.waiters)[t]
  {
    var n := |semas| - 1;
    if x == n {
      assert semas[x := q][..n] == semas[..n];
    } else {
      WaitingUpdate(semas[..n], x, q, t);
      assert semas[x := q][..n] == semas[..n][x := q];
    }
  }

  lemma {:induction false} WaitingMember(semas: seq<Sema>, t: Tid)
    ensures t in Waiting(semas) <==> exists x :: 0 <= x < |semas| && t in semas[x].waiters
  {
    if semas != [] {
      var n := |semas| - 1;
      WaitingMember(semas[..n], t);
      assert t in Waiting(semas) <==> t in Waiting(semas[..n]) || t in semas[n].waiters;
      if x :| 0 <= x < |semas[..n]| && t in semas[..n][x].waiters {
        assert t in semas[x].waiters;
      }
      if x :| 0 <= x < |semas| && t in semas[x].waiters {
        assert x == n || t in semas[..n][x].waiters;
      }
    }
  }

  /// Threads woken from x that have not looked at its value since.
  ghost function Woken(s: State, x: Sid): set<Tid>
    requires x < |s.semas|
  {
    set t | t in s.mode && s.mode[t] == InDec(x) && t !in s.semas[x].waiters
  }

  /// Every thread knows its state: its status and mode match its place.
  ghost predicate Consistent(s: State) {
    && s.mode.Keys == s.status.Keys
    && s.idle in s.status && s.status[s.idle] == READY && s.mode[s.idle] == Normal
    && (forall t {:trigger t in s.ready} :: t in s.ready ==> StatusOf(s, t) == READY && t in s.status)
    && (forall t {:trigger StatusOf(s, t)} :: StatusOf(s, t) != RUNNING)
    && (forall x, t {:trigger t in s.semas[x].waiters} :: 0 <= x < |s.semas| && t in s.semas[x].waiters ==>
          t in s.status && StatusOf(s, t) == BLOCKED && ModeOf(s, t) == InDec(x))
    && (forall t {:trigger ModeOf(s, t)} :: ModeOf(s, t).InDec? ==>
          ModeOf(s, t).sema < |s.semas| && StatusOf(s, t) != DEAD)
  }

  /// Between steps: each thread in at most one place, and the ready ones are running,
  /// queued or idle.
  ghost predicate Inv(s: State) {
    && Consistent(s)
    && (forall t :: Places(s)[t] <= 1)
    && s.running in s.status && StatusOf(s, s.running) == READY
    && (forall t {:trigger StatusOf(s, t)} :: StatusOf(s, t) == READY ==>
          t == s.running || t in s.ready || t == s.idle)
  }

  /// The same, at the moment the running thread has given up the processor.
  ghost predicate Between(s: State) {
    && Consistent(s)
    && (forall t :: multiset(s.ready)[t] + Waiting(s.semas)[t] <= 1)
    && (forall t {:trigger StatusOf(s, t)} :: StatusOf(s, t) == READY ==> t in s.ready || t == s.idle)
  }

  /// No wake-up is lost: while threads wait, at least as many have been woken and not yet
  /// taken their unit as there are units.
  ghost predicate NoLostWakeUp(s: State) {
    forall x :: 0 <= x < |s.semas| && s.semas[x].waiters != [] ==> s.semas[x].value <= |Woken(s, x)|
  }

  lemma SchedulePlaces(s: State)
    requires Between(s)
    ensures forall t :: Places(ScheduleNext(s))[t] <= 1
  {
    forall t ensures Places(ScheduleNext(s))[t] <= 1 {
      if s.ready != [] {
        MultisetTail(s.ready);
      } else {
        WaitingMember(s.semas, s.idle);
      }
    }
  }

  lemma TailElements(q: seq<Tid>)
    requires q != []
    ensures q[0] in q && forall t :: t in q <==> t == q[0] || t in q[1..]
  {
  }

  lemma ScheduleRestores(s: State)
    requires Between(s)
    ensures Inv(ScheduleNext(s))
  {
    var u := ScheduleNext(s);
    SchedulePlaces(s);
    if s.ready != [] {
      TailElements(s.ready);
    }
    forall t ensures StatusOf(u, t) == StatusOf(s, t) && ModeOf(u, t) == ModeOf(s, t) {
    }
  }

  /// The running thread is in no queue.
  lemma RunningAlone(s: State)
    requires Inv(s)
    ensures s.running !in s.ready && Waiting(s.semas)[s.running] == 0
    ensures forall x :: 0 <= x < |s.semas| ==> s.running !in s.semas[x].waiters
  {
    assert Places(s)[s.running] <= 1;
    assert s.running in s.ready ==> multiset(s.ready)[s.running] >= 1;
    WaitingMember(s.semas, s.running);
  }

  lemma YieldKeeps(s: State)
    requires Inv(s)
    ensures Inv(YieldCurrent(s))
  {
    var u := s.(ready := s.ready + [s.running]);
    forall t ensures multiset(u.ready)[t] + Waiting(u.semas)[t] <= 1 {
      assert Places(s)[t] <= 1;
    }
    forall t ensures StatusOf(u, t) == StatusOf(s, t) && ModeOf(u, t) == ModeOf(s, t) {
    }
    assert forall t :: t in u.ready <==> t in s.ready || t == s.running;
    ScheduleRestores(u);
  }

  /// The running thread leaves with another status: exiting, or blocking outside any queue.
  lemma LeaveKeeps(s: State, status: Status)
    requires Inv(s) && s.running != s.idle && (status == BLOCKED || (status == DEAD && ModeOf(s, s.running).Normal?))
    ensures Inv(ScheduleNext(s.(status := s.status[s.running := status])))
  {
    var u := s.(status := s.status[s.running := status]);
    RunningAlone(s);
    forall t ensures multiset(u.ready)[t] + Waiting(u.semas)[t] <= 1 {
      assert Places(s)[t] <= 1;
    }
    forall t ensures ModeOf(u, t) == ModeOf(s, t) && (t != s.running ==> StatusOf(u, t) == StatusOf(s, t)) {
    }
    ScheduleRestores(u);
  }

  /// The running thread has queued up at x and is about to give way.
  function QueuedUp(s: State, x: Sid): State
    requires x < |s.semas|
  {
    s.(semas := s.semas[x := Sema(s.semas[x].value, s.semas[x].waiters + [s.running])],
       mode := s.mode[s.running := InDec(x)],
       status := s.status[s.running := BLOCKED])
  }

  lemma QueuedUpWaiters(s: State, x: Sid, y: Sid, t: Tid)
    requires Inv(s) && s.running != s.idle && x < |s.semas| && y < |s.semas|
    requires t in QueuedUp(s, x).semas[y].waiters
    ensures var u := QueuedUp(s, x); t in u.status && StatusOf(u, t) == BLOCKED && ModeOf(u, t) == InDec(y)
  {
    RunningAlone(s);
    if t != s.running {
      assert t in s.semas[y].waiters;
    } else {
      assert y == x;
    }
  }

  lemma QueuedUpConsistent(s: State, x: Sid)
    requires Inv(s) && s.running != s.idle && x < |s.semas|
    ensures Consistent(QueuedUp(s, x))
  {
    var u := QueuedUp(s, x);
    RunningAlone(s);
    forall t ensures t != s.running ==> ModeOf(u, t) == ModeOf(s, t) && StatusOf(u, t) == StatusOf(s, t) {
    }
    forall y, t {:trigger t in u.semas[y].waiters} | 0 <= y < |u.semas| && t in u.semas[y].waiters
      ensures t in u.status && StatusOf(u, t) == BLOCKED && ModeOf(u, t) == InDec(y)
    {
      QueuedUpWaiters(s, x, y, t);
    }
  }

  /// The running thread queues up at x and gives way.
  lemma WaitKeeps(s: State, x: Sid)
    requires Inv(s) && s.running != s.idle && x < |s.semas|
    ensures Inv(TryDec(s, x, 0))
  {
    var u := QueuedUp(s, x);
    QueuedUpConsistent(s, x);
    forall t ensures multiset(u.ready)[t] + Waiting(u.semas)[t] <= 1 {
      assert Places(s)[t] <= 1;
      WaitingUpdate(s.semas, x, u.semas[x], t);
    }
    forall t ensures t != s.running ==> StatusOf(u, t) == StatusOf(s, t) {
    }
    ScheduleRestores(u);
  }

  lemma SemaphorePlaces(s: State, x: Sid, q: Sema)
    requires x < |s.semas|
    ensures forall t :: Places(s.(semas := s.semas[x := q]))[t] + multiset(s.semas[x].waiters)[t]
                     == Places(s)[t] + multiset(q.waiters)[t]
  {
    var u := s.(semas := s.semas[x := q]);
    forall t ensures Places(u)[t] + multiset(s.semas[x].waiters)[t] == Places(s)[t] + multiset(q.waiters)[t] {
      WaitingUpdate(s.semas, x, q, t);
    }
  }

  lemma SemaphoreConsistent(s: State, x: Sid, q: Sema)
    requires Consistent(s) && x < |s.semas| && forall t :: t in q.waiters ==> t in s.semas[x].waiters
    ensures Consistent(s.(semas := s.semas[x := q]))
  {
    var u := s.(semas := s.semas[x := q]);
    forall t ensures StatusOf(u, t) == StatusOf(s, t) && ModeOf(u, t) == ModeOf(s, t) {
    }
    forall y, t | 0 <= y < |u.semas| && t in u.semas[y].waiters
      ensures t in s.semas[y].waiters
    {
    }
  }

  /// A semaphore loses waiters, if anything, and its value changes.
  lemma SemaphoreKeeps(s: State, x: Sid, q: Sema)
    requires Inv(s) && x < |s.semas|
    requires forall t :: multiset(q.waiters)[t] <= multiset(s.semas[x].waiters)[t]
    ensures Inv(s.(semas := s.semas[x := q]))
  {
    SemaphorePlaces(s, x, q);
    forall t | t in q.waiters ensures t in s.semas[x].waiters {
      assert multiset(q.waiters)[t] > 0;
    }
    SemaphoreConsistent(s, x, q);
    var u := s.(semas := s.semas[x := q]);
    forall t ensures StatusOf(u, t) == StatusOf(s, t) {
    }
    forall t ensures Places(u)[t] <= 1 {
      assert Places(u)[t] + multiset(s.semas[x].waiters)[t] == Places(s)[t] + multiset(q.waiters)[t];
    }
  }

  lemma TakeKeeps(s: State, x: Sid, value: nat)
    requires Inv(s) && x < |s.semas| && value > 0
    ensures Inv(TryDec(s, x, value))
  {
    SemaphoreKeeps(s, x, Sema(value - 1, s.semas[x].waiters));
    LeavesLoop(s.(semas := s.semas[x := Sema(value - 1, s.semas[x].waiters)]));
  }

  lemma LeavesLoop(s: State)
    requires Inv(s)
    ensures Inv(s.(mode := s.mode[s.running := Normal]))
  {
    var u := s.(mode := s.mode[s.running := Normal]);
    RunningAlone(s);
    forall t ensures StatusOf(u, t) == StatusOf(s, t) && (t != s.running ==> ModeOf(u, t) == ModeOf(s, t)) {
    }
    assert forall t :: Places(u)[t] == Places(s)[t];
  }

  lemma UnblockPlaces(s: State, t: Tid)
    requires (forall u :: Places(s)[u] <= 1) && Places(s)[t] == 0
    ensures forall u :: Places(ThreadUnblock(s, t))[u] <= 1
  {
    forall u ensures Places(ThreadUnblock(s, t))[u] <= 1 {
      assert Places(s)[u] <= 1;
    }
  }

  lemma UnblockConsistent(s: State, t: Tid)
    requires Consistent(s) && t in s.status && StatusOf(s, t) == BLOCKED && Waiting(s.semas)[t] == 0
    ensures Consistent(ThreadUnblock(s, t))
  {
    var v := ThreadUnblock(s, t);
    forall u ensures ModeOf(v, u) == ModeOf(s, u) && (u != t ==> StatusOf(v, u) == StatusOf(s, u)) {
    }
    assert forall u :: u in v.ready ==> u in s.ready || u == t;
    WaitingMember(s.semas, t);
  }

  /// A thread that is in no queue becomes ready.
  lemma UnblockKeeps(s: State, t: Tid)
    requires Inv(s) && t in s.status && StatusOf(s, t) == BLOCKED && Places(s)[t] == 0
    ensures Inv(ThreadUnblock(s, t))
  {
    var v := ThreadUnblock(s, t);
    UnblockPlaces(s, t);
    UnblockConsistent(s, t);
    forall u ensures u != t ==> StatusOf(v, u) == StatusOf(s, u) {
    }
    assert forall u :: u in s.ready ==> u in v.ready;
    assert t != s.idle ==> t in v.ready;
  }

  lemma IncKeeps(s: State, x: Sid)
    requires Inv(s) && x < |s.semas|
    ensures Inv(SemaphoreInc(s, x))
  {
    var q := s.semas[x].waiters;
    var v := SemaphoreInc(s, x);
    if q == [] {
      var r := Sema(s.semas[x].value + 1, []);
      assert v == s.(semas := s.semas[x := r]);
      SemaphoreKeeps(s, x, r);
    } else {
      var u := FirstWaiterFreed(s, x);
      assert v == ThreadUnblock(u, q[0]);
      UnblockKeeps(u, q[0]);
    }
  }

  /// The first waiter is taken off the semaphore, and then is in no place.
  lemma FirstWaiterFreed(s: State, x: Sid) returns (u: State)
    requires Inv(s) && x < |s.semas| && s.semas[x].waiters != []
    ensures var q := s.semas[x].waiters;
      && u == s.(semas := s.semas[x := Sema(s.semas[x].value + 1, q[1..])])
      && Inv(u) && q[0] in u.status && StatusOf(u, q[0]) == BLOCKED && Places(u)[q[0]] == 0
  {
    var q := s.semas[x].waiters;
    var r := Sema(s.semas[x].value + 1, q[1..]);
    u := s.(semas := s.semas[x := r]);
    MultisetTail(q);
    SemaphoreKeeps(s, x, r);
    assert q[0] in s.semas[x].waiters;
    FirstWaiterPlace(s, x, r);
  }

  lemma FirstWaiterPlace(s: State, x: Sid, r: Sema)
    requires x < |s.semas| && s.semas[x].waiters != [] && r.waiters == s.semas[x].waiters[1..]
    requires Places(s)[s.semas[x].waiters[0]] <= 1
    ensures Places(s.(semas := s.semas[x := r]))[s.semas[x].waiters[0]] == 0
  {
    SemaphorePlaces(s, x, r);
    MultisetTail(s.semas[x].waiters);
  }

  lemma CreateKeeps(s: State, t: Tid)
    requires Inv(s) && t !in s.status
    ensures Inv(CreateThread(s, t))
  {
    var u := s.(mode := s.mode[t := Normal], status := s.status[t := BLOCKED]);
    forall r ensures StatusOf(u, r) == StatusOf(s, r) && ModeOf(u, r) == ModeOf(s, r) {
    }
    assert t !in s.ready;
    WaitingMember(s.semas, t);
    assert forall r :: Places(u)[r] == Places(s)[r];
    UnblockKeeps(u, t);
  }

  lemma WithoutMember(q: seq<Tid>, t: Tid, u: Tid)
    requires t in q
    ensures multiset(Without<Tid>(q, t))[u] + (if u == t then 1 else 0) == multiset(q)[u]
  {
    WithoutMultiset<Tid>(q, t);
    assert multiset(q)[u] == (multiset(Without<Tid>(q, t)) + multiset{t})[u];
  }

  lemma BlockKeeps(s: State, t: Tid)
    requires Inv(s) && t in s.ready && t != s.idle && t != s.running
    ensures Inv(ThreadBlock(s, t))
  {
    var u := ThreadBlock(s, t);
    forall r ensures Places(u)[r] + (if r == t then 1 else 0) == Places(s)[r] {
      WithoutMember(s.ready, t, r);
    }
    forall r ensures ModeOf(u, r) == ModeOf(s, r) && (r != t ==> StatusOf(u, r) == StatusOf(s, r)) {
    }
    assert Places(s)[t] <= 1;
    forall r ensures r in u.ready <==> r in s.ready && r != t {
      WithoutMember(s.ready, t, r);
      InMultiset(u.ready, r);
      InMultiset(s.ready, r);
    }
  }

  lemma InMultiset(q: seq<Tid>, t: Tid)
    ensures t in q <==> multiset(q)[t] > 0
  {
  }

  lemma StepKeeps(s: State, e: Event, reread: bool)
    requires Inv(s) && Enabled(s, e)
    ensures Inv(Step(s, e, reread))
  {
    match e
    case Yield => YieldKeeps(s);
    case Dec(x) => if s.semas[x].value > 0 { TakeKeeps(s, x, s.semas[x].value); } else { WaitKeeps(s, x); }
    case Resume =>
      var x := ModeOf(s, s.running).sema;
      assert s.running != s.idle;
      if reread && s.semas[x].value > 0 { TakeKeeps(s, x, s.semas[x].value); } else { WaitKeeps(s, x); }
    case Inc(x) => IncKeeps(s, x);
    case Create(t) => CreateKeeps(s, t);
    case Exit => LeaveKeeps(s, DEAD);
    case BlockSelf => LeaveKeeps(s, BLOCKED);
    case Block(t) => BlockKeeps(s, t);
    case Unblock(t) =>
      WaitingMember(s.semas, t);
      assert t in s.ready ==> StatusOf(s, t) == READY;
      UnblockKeeps(s, t);
  }

  /// In every reachable state, whichever way semaphore_dec tests the value.
  lemma {:induction false} RunKeeps(s: State, es: seq<Event>, reread: bool)
    requires Inv(s) && Runs(s, es, reread)
    ensures Inv(Run(s, es, reread))
    decreases |es|
  {
    if es != [] {
      StepKeeps(s, es[0], reread);
      RunKeeps(Step(s, es[0], reread), es[1..], reread);
    }
  }

  datatype Place =
    | OnProcessor
    | Queued(i: nat)
    | Resting
    | WaitingAt(x: Sid, i: nat)
    | Parked

  /// Parked is a thread that thread_block or block_current stopped outside every queue,
  /// resting an idle thread that is not queued.
  ghost predicate In(s: State, t: Tid, p: Place) {
    match p
    case OnProcessor => t == s.running
    case Queued(i) => i < |s.ready| && s.ready[i] == t
    case Resting => t == s.idle && t != s.running && t !in s.ready
    case WaitingAt(x, i) => x < |s.semas| && i < |s.semas[x].waiters| && s.semas[x].waiters[i] == t
    case Parked => StatusOf(s, t) == BLOCKED && t != s.running && t !in s.ready && Waiting(s.semas)[t] == 0
  }

  lemma TwiceInSequence(q: seq<Tid>, i: nat, j: nat)
    requires i < j < |q| && q[i] == q[j]
    ensures multiset(q)[q[i]] >= 2
  {
    assert q == q[..j] + q[j..];
    assert q[i] in q[..j] && q[j] in q[j..];
  }

  lemma {:induction false} WaitingAtLeast(semas: seq<Sema>, x: Sid, t: Tid)
    requires x < |semas|
    ensures Waiting(semas)[t] >= multiset(semas[x].waiters)[t]
  {
    var n := |semas| - 1;
    if x < n { WaitingAtLeast(semas[..n], x, t); }
  }

  lemma {:induction false} WaitingTwice(semas: seq<Sema>, x: Sid, y: Sid, t: Tid)
    requires x < y < |semas| && t in semas[x].waiters && t in semas[y].waiters
    ensures Waiting(semas)[t] >= 2
  {
    var n := |semas| - 1;
    if y < n {
      WaitingTwice(semas[..n], x, y, t);
    } else {
      WaitingAtLeast(semas[..n], x, t);
    }
  }

  /// Every live thread is in exactly one place, once, and its status matches the place.
  lemma OnePlace(s: State, t: Tid) returns (p: Place)
    requires Inv(s) && t in s.status && StatusOf(s, t) != DEAD
    ensures In(s, t, p) && forall q :: In(s, t, q) ==> q == p
    ensures StatusOf(s, t) == if p.WaitingAt? || p.Parked? then BLOCKED else READY
  {
    p := SomePlace(s, t);
    forall q | In(s, t, q) ensures q == p {
      SamePlace(s, t, p, q);
    }
  }

  lemma SomePlace(s: State, t: Tid) returns (p: Place)
    requires Inv(s) && t in s.status && StatusOf(s, t) != DEAD
    ensures In(s, t, p)
    ensures StatusOf(s, t) == if p.WaitingAt? || p.Parked? then BLOCKED else READY
  {
    WaitingMember(s.semas, t);
    if t == s.running {
      p := OnProcessor;
    } else if t in s.ready {
      var i :| 0 <= i < |s.ready| && s.ready[i] == t;
      p := Queued(i);
    } else if t in Waiting(s.semas) {
      var x :| 0 <= x < |s.semas| && t in s.semas[x].waiters;
      var i :| 0 <= i < |s.semas[x].waiters| && s.semas[x].waiters[i] == t;
      p := WaitingAt(x, i);
    } else {
      p := if t == s.idle then Resting else Parked;
    }
  }

  lemma SamePlace(s: State, t: Tid, p: Place, q: Place)
    requires Inv(s) && In(s, t, p) && In(s, t, q)
    ensures p == q
  {
    assert Places(s)[t] <= 1;
    WaitingMember(s.semas, t);
    assert t in s.ready <==> multiset(s.ready)[t] > 0;
    match (p, q)
    case (Queued(i), Queued(j)) =>
      if i < j { TwiceInSequence(s.ready, i, j); } else if j < i { TwiceInSequence(s.ready, j, i); }
    case (WaitingAt(x, i), WaitingAt(y, j)) =>
      WaitingAtLeast(s.semas, x, t);
      if x < y { WaitingTwice(s.semas, x, y, t); } else if y < x { WaitingTwice(s.semas, y, x, t); }
      else if i < j { TwiceInSequence(s.semas[x].waiters, i, j); }
      else if j < i { TwiceInSequence(s.semas[x].waiters, j, i); }
    case _ =>
  }

  // ---- the initial thread ----

  /// The state init_threads leaves: the initial thread runs with the given status.
  function Boot(initial: Tid, idle: Tid, status: Status, semas: seq<nat>): State {
    State([], initial, idle, map[initial := status, idle := READY], map[initial := Normal, idle := Normal],
          seq(|semas|, i requires 0 <= i < |semas| => Sema(semas[i], [])))
  }

  lemma BootIsGood(initial: Tid, idle: Tid, semas: seq<nat>)
    requires initial != idle
    ensures Inv(Boot(initial, idle, READY, semas)) && NoLostWakeUp(Boot(initial, idle, READY, semas))
    ensures var s := Boot(initial, idle, READY, semas);
      && s.running == initial && s.idle == idle && |s.semas| == |semas|
      && forall x :: 0 <= x < |semas| ==> s.semas[x] == Sema(semas[x], [])
  {
    var s := Boot(initial, idle, READY, semas);
    forall t ensures Waiting(s.semas)[t] == 0 {
      WaitingMember(s.semas, t);
    }
  }

  /// Yielding keeps the running thread schedulable exactly when its status is not BLOCKED.
  lemma YieldNeedsStatus(s: State)
    requires s.running != s.idle && s.running !in s.ready
    ensures var u := YieldCurrent(s);
      (u.running == s.running || s.running in u.ready) <==> StatusOf(s, s.running) != BLOCKED
  {
    var t := s.running;
    if StatusOf(s, t) != BLOCKED {
      var q := s.ready + [t];
      assert q[|q| - 1] == t;
      if |q| > 1 { assert q[1..][|q| - 2] == t; }
    }
  }

  /// As written the initial thread keeps status zero, BLOCKED, so its first yield drops it
  /// from every queue.
  lemma BootAsWritten(initial: Tid, idle: Tid, semas: seq<nat>)
    requires initial != idle
    ensures var s := Boot(initial, idle, BLOCKED, semas);
      var u := Step(s, Yield, true);
      Enabled(s, Yield) && u.running == idle && initial !in u.ready && Waiting(u.semas)[initial] == 0
  {
    var s := Boot(initial, idle, BLOCKED, semas);
    WaitingMember(s.semas, initial);
  }

  // ---- semaphores: no lost wake-up ----

  /// Steps that change neither modes nor waiters change no set of woken threads.
  lemma WokenSame(s: State, u: State)
    requires Inv(s) && |u.semas| == |s.semas|
    requires forall x :: 0 <= x < |s.semas| ==>
      u.semas[x].waiters == s.semas[x].waiters && u.semas[x].value <= s.semas[x].value
    requires forall t :: t in s.mode ==> t in u.mode && u.mode[t] == s.mode[t]
    requires forall t :: t in u.mode && t !in s.mode ==> u.mode[t] == Normal
    requires NoLostWakeUp(s)
    ensures NoLostWakeUp(u)
  {
    forall x | 0 <= x < |s.semas| ensures Woken(u, x) == Woken(s, x) {
    }
  }

  lemma WaitWokenElsewhere(s: State, x: Sid, y: Sid)
    requires Inv(s) && x < |s.semas| && y < |s.semas| && y != x
    requires ModeOf(s, s.running).Normal? || ModeOf(s, s.running) == InDec(x)
    ensures Woken(TryDec(s, x, 0), y) == Woken(s, y)
  {
    RunningAlone(s);
  }

  lemma WakeUpsWait(s: State, x: Sid)
    requires Inv(s) && NoLostWakeUp(s) && x < |s.semas| && s.semas[x].value == 0
    requires ModeOf(s, s.running).Normal? || ModeOf(s, s.running) == InDec(x)
    ensures NoLostWakeUp(TryDec(s, x, 0))
  {
    var u := TryDec(s, x, 0);
    forall y | 0 <= y < |u.semas| && u.semas[y].waiters != [] ensures u.semas[y].value <= |Woken(u, y)| {
      if y != x {
        WaitWokenElsewhere(s, x, y);
      }
    }
  }

  /// Taking a unit changes who is woken at that semaphore only, and only by the taker.
  lemma TakeWokenElsewhere(s: State, x: Sid, y: Sid)
    requires Inv(s) && x < |s.semas| && y < |s.semas| && y != x && s.semas[x].value > 0
    requires ModeOf(s, s.running).Normal? || ModeOf(s, s.running) == InDec(x)
    ensures Woken(TryDec(s, x, s.semas[x].value), y) == Woken(s, y)
  {
  }

  lemma TakeWokenByNewcomer(s: State, x: Sid)
    requires Inv(s) && x < |s.semas| && s.semas[x].value > 0 && ModeOf(s, s.running).Normal?
    ensures Woken(TryDec(s, x, s.semas[x].value), x) == Woken(s, x)
  {
  }

  lemma TakeWokenByWaiter(s: State, x: Sid)
    requires Inv(s) && x < |s.semas| && s.semas[x].value > 0 && ModeOf(s, s.running) == InDec(x)
    ensures Woken(TryDec(s, x, s.semas[x].value), x) == Woken(s, x) - {s.running} && s.running in Woken(s, x)
  {
    RunningAlone(s);
  }

  lemma WakeUpsTake(s: State, x: Sid)
    requires Inv(s) && NoLostWakeUp(s) && x < |s.semas| && s.semas[x].value > 0
    requires ModeOf(s, s.running).Normal? || ModeOf(s, s.running) == InDec(x)
    ensures NoLostWakeUp(TryDec(s, x, s.semas[x].value))
  {
    var u := TryDec(s, x, s.semas[x].value);
    forall y | 0 <= y < |u.semas| && u.semas[y].waiters != [] ensures u.semas[y].value <= |Woken(u, y)| {
      if y != x {
        TakeWokenElsewhere(s, x, y);
      } else if ModeOf(s, s.running).Normal? {
        TakeWokenByNewcomer(s, x);
      } else {
        TakeWokenByWaiter(s, x);
      }
    }
  }

  lemma WaitersAreDistinct(s: State, x: Sid)
    requires Inv(s) && x < |s.semas| && s.semas[x].waiters != []
    ensures var q := s.semas[x].waiters;
      q[0] in q && q[0] !in q[1..] && forall t :: t in q <==> t == q[0] || t in q[1..]
  {
    var q := s.semas[x].waiters;
    MultisetTail(q);
    TailElements(q);
    assert Places(s)[q[0]] <= 1;
    WaitingAtLeast(s.semas, x, q[0]);
  }

  /// An increment wakes the first waiter of that semaphore.
  lemma IncWoken(s: State, x: Sid)
    requires Inv(s) && x < |s.semas| && s.semas[x].waiters != []
    ensures Woken(SemaphoreInc(s, x), x) == Woken(s, x) + {s.semas[x].waiters[0]}
    ensures s.semas[x].waiters[0] !in Woken(s, x)
  {
    WaitersAreDistinct(s, x);
  }

  lemma IncWokenElsewhere(s: State, x: Sid, y: Sid)
    requires x < |s.semas| && y < |s.semas| && y != x
    ensures Woken(SemaphoreInc(s, x), y) == Woken(s, y)
  {
  }

  lemma WakeUpsInc(s: State, x: Sid)
    requires Inv(s) && NoLostWakeUp(s) && x < |s.semas|
    ensures NoLostWakeUp(SemaphoreInc(s, x))
  {
    var u := SemaphoreInc(s, x);
    forall y | 0 <= y < |u.semas| && u.semas[y].waiters != [] ensures u.semas[y].value <= |Woken(u, y)| {
      if y == x {
        IncWoken(s, x);
      } else {
        IncWokenElsewhere(s, x, y);
      }
    }
  }

  lemma StepKeepsWakeUps(s: State, e: Event)
    requires Inv(s) && Enabled(s, e) && NoLostWakeUp(s)
    ensures NoLostWakeUp(Step(s, e, true))
  {
    match e
    case Dec(x) => if s.semas[x].value > 0 { WakeUpsTake(s, x); } else { WakeUpsWait(s, x); }
    case Resume =>
      var x := ModeOf(s, s.running).sema;
      if s.semas[x].value > 0 { WakeUpsTake(s, x); } else { WakeUpsWait(s, x); }
    case Inc(x) => WakeUpsInc(s, x);
    case _ => WokenSame(s, Step(s, e, true));
  }

  lemma {:induction false} RunKeepsWakeUps(s: State, es: seq<Event>)
    requires Inv(s) && NoLostWakeUp(s) && Runs(s, es, true)
    ensures NoLostWakeUp(Run(s, es, true))
    decreases |es|
  {
    if es != [] {
      StepKeeps(s, es[0], true);
      StepKeepsWakeUps(s, es[0]);
      RunKeepsWakeUps(Step(s, es[0], true), es[1..]);
    }
  }

  /// A positive value with waiters means a thread is on its way to take a unit: it is
  /// running, queued, or was parked by thread_block on the way.
  lemma UnitHasTaker(s: State, x: Sid) returns (t: Tid)
    requires Inv(s) && NoLostWakeUp(s) && x < |s.semas| && s.semas[x].waiters != [] && s.semas[x].value > 0
    ensures ModeOf(s, t) == InDec(x) && (t == s.running || t in s.ready || In(s, t, Parked))
  {
    assert |Woken(s, x)| > 0;
    t :| t in Woken(s, x);
    assert ModeOf(s, t) == InDec(x) && StatusOf(s, t) != RUNNING;
    WaitingMember(s.semas, t);
    assert forall y :: 0 <= y < |s.semas| ==> t !in s.semas[y].waiters;
  }

  /// Threads blocked inside semaphore_dec are all waiting in a queue.
  ghost predicate LoopersWait(s: State) {
    forall t {:trigger ModeOf(s, t)} :: ModeOf(s, t).InDec? && StatusOf(s, t) == BLOCKED ==>
      ModeOf(s, t).sema < |s.semas| && t in s.semas[ModeOf(s, t).sema].waiters
  }

  lemma StepKeepsLoopers(s: State, e: Event)
    requires Inv(s) && Enabled(s, e) && LoopersWait(s) && !e.Block?
    ensures LoopersWait(Step(s, e, true))
  {
    var u := Step(s, e, true);
    RunningAlone(s);
    forall t | ModeOf(u, t).InDec? && StatusOf(u, t) == BLOCKED
      ensures ModeOf(u, t).sema < |u.semas| && t in u.semas[ModeOf(u, t).sema].waiters
    {
      LooperStep(s, e, t);
    }
  }

  lemma LooperStep(s: State, e: Event, t: Tid)
    requires Inv(s) && Enabled(s, e) && LoopersWait(s) && !e.Block?
    requires var u := Step(s, e, true); ModeOf(u, t).InDec? && StatusOf(u, t) == BLOCKED
    ensures var u := Step(s, e, true); ModeOf(u, t).sema < |u.semas| && t in u.semas[ModeOf(u, t).sema].waiters
  {
    var before := ModeOf(s, t);
    match e
    case Inc(x) => LooperInc(s, x, t);
    case Dec(x) => LooperTry(s, x, t);
    case Resume => LooperTry(s, ModeOf(s, s.running).sema, t);
    case _ =>
  }

  lemma LooperInc(s: State, x: Sid, t: Tid)
    requires Inv(s) && x < |s.semas| && LoopersWait(s)
    requires var u := SemaphoreInc(s, x); ModeOf(u, t).InDec? && StatusOf(u, t) == BLOCKED
    ensures var u := SemaphoreInc(s, x); ModeOf(u, t).sema < |u.semas| && t in u.semas[ModeOf(u, t).sema].waiters
  {
    var y := ModeOf(s, t).sema;
    assert t in s.semas[y].waiters;
    if s.semas[x].waiters != [] { MultisetTail(s.semas[x].waiters); }
  }

  lemma LooperTry(s: State, x: Sid, t: Tid)
    requires Inv(s) && x < |s.semas| && LoopersWait(s)
    requires var u := TryDec(s, x, s.semas[x].value); ModeOf(u, t).InDec? && StatusOf(u, t) == BLOCKED
    ensures var u := TryDec(s, x, s.semas[x].value);
      ModeOf(u, t).sema < |u.semas| && t in u.semas[ModeOf(u, t).sema].waiters
  {
    if t != s.running {
      assert t in s.semas[ModeOf(s, t).sema].waiters;
    }
  }

  lemma {:induction false} RunKeepsLoopers(s: State, es: seq<Event>)
    requires Inv(s) && LoopersWait(s) && Runs(s, es, true)
    requires forall e :: e in es ==> !e.Block?
    ensures LoopersWait(Run(s, es, true))
    decreases |es|
  {
    if es != [] {
      StepKeeps(s, es[0], true);
      StepKeepsLoopers(s, es[0]);
      RunKeepsLoopers(Step(s, es[0], true), es[1..]);
    }
  }

  /// So without thread_block on other threads, a positive value with waiters means that
  /// some thread that can run will take a unit.
  lemma UnitHasRunnableTaker(s: State, es: seq<Event>, x: Sid) returns (t: Tid)
    requires Inv(s) && NoLostWakeUp(s) && LoopersWait(s) && Runs(s, es, true)
    requires forall e :: e in es ==> !e.Block?
    requires var u := Run(s, es, true); x < |u.semas| && u.semas[x].waiters != [] && u.semas[x].value > 0
    ensures var u := Run(s, es, true); ModeOf(u, t) == InDec(x) && (t == u.running || t in u.ready)
  {
    var u := Run(s, es, true);
    RunKeeps(s, es, true);
    RunKeepsWakeUps(s, es);
    RunKeepsLoopers(s, es);
    t := UnitHasTaker(u, x);
    WaitingMember(u.semas, t);
  }

  // ---- the stale test ----

  lemma StaleStep(s: State, e: Event, t: Tid)
    requires Inv(s) && Enabled(s, e) && ModeOf(s, t).InDec?
    ensures ModeOf(Step(s, e, false), t) == ModeOf(s, t)
  {
  }

  /// As written, a thread that found the value at zero never leaves semaphore_dec.
  lemma {:induction false} StaleNeverReturns(s: State, es: seq<Event>, t: Tid)
    requires Inv(s) && Runs(s, es, false) && ModeOf(s, t).InDec?
    ensures ModeOf(Run(s, es, false), t) == ModeOf(s, t)
    decreases |es|
  {
    if es != [] {
      StaleStep(s, es[0], t);
      StepKeeps(s, es[0], false);
      StaleNeverReturns(Step(s, es[0], false), es[1..], t);
    }
  }

  /// So it returns at all exactly when the value was positive on entry.
  lemma StaleReturnsIff(s: State, x: Sid, es: seq<Event>)
    requires Inv(s) && Enabled(s, Dec(x)) && Runs(Step(s, Dec(x), false), es, false)
    ensures s.semas[x].value > 0 ==> ModeOf(Step(s, Dec(x), false), s.running) == Normal
    ensures s.semas[x].value == 0 ==> ModeOf(Run(Step(s, Dec(x), false), es, false), s.running) == InDec(x)
  {
    StepKeeps(s, Dec(x), false);
    if s.semas[x].value == 0 {
      StaleNeverReturns(Step(s, Dec(x), false), es, s.running);
    }
  }

  // ---- conservation and mutual exclusion ----

  /// The step completes a decrement of x.
  predicate Completes(s: State, e: Event, reread: bool, x: Sid)
    requires Enabled(s, e)
  {
    match e
    case Dec(y) => y == x && s.semas[x].value > 0
    case Resume => ModeOf(s, s.running).sema == x && reread && s.semas[x].value > 0
    case _ => false
  }

  function Taken(s: State, es: seq<Event>, reread: bool, x: Sid): nat
    requires Runs(s, es, reread)
    decreases |es|
  {
    if es == [] then 0
    else (if Completes(s, es[0], reread, x) then 1 else 0) + Taken(Step(s, es[0], reread), es[1..], reread, x)
  }

  function Given(es: seq<Event>, x: Sid): nat {
    if es == [] then 0 else (if es[0] == Inc(x) then 1 else 0) + Given(es[1..], x)
  }

  lemma StepCounts(s: State, e: Event, reread: bool, x: Sid)
    requires Enabled(s, e) && x < |s.semas|
    ensures var u := Step(s, e, reread);
      && |u.semas| == |s.semas|
      && u.semas[x].value == s.semas[x].value + (if e == Inc(x) then 1 else 0)
                                              - (if Completes(s, e, reread, x) then 1 else 0)
  {
  }

  /// Value plus completed decrements is initial value plus increments.
  lemma {:induction false} UnitsAreConserved(s: State, es: seq<Event>, reread: bool, x: Sid)
    requires x < |s.semas| && Runs(s, es, reread)
    ensures |Run(s, es, reread).semas| == |s.semas|
    ensures Run(s, es, reread).semas[x].value + Taken(s, es, reread, x) == s.semas[x].value + Given(es, x)
    decreases |es|
  {
    if es != [] {
      StepCounts(s, es[0], reread, x);
      UnitsAreConserved(Step(s, es[0], reread), es[1..], reread, x);
    }
  }

  /// Who holds the lock x: acquired by completing a decrement, given up by an increment.
  function Holders(s: State, es: seq<Event>, reread: bool, x: Sid, held: set<Tid>): set<Tid>
    requires Runs(s, es, reread)
    decreases |es|
  {
    if es == [] then held
    else Holders(Step(s, es[0], reread), es[1..], reread, x,
                 if Completes(s, es[0], reread, x) then held + {s.running}
                 else if es[0] == Inc(x) then held - {s.running} else held)
  }

  /// Only holders release.
  predicate Disciplined(s: State, es: seq<Event>, reread: bool, x: Sid, held: set<Tid>)
    requires Runs(s, es, reread)
    decreases |es|
  {
    es == [] ||
    ((es[0] == Inc(x) ==> s.running in held) &&
     Disciplined(Step(s, es[0], reread), es[1..], reread, x,
                 if Completes(s, es[0], reread, x) then held + {s.running}
                 else if es[0] == Inc(x) then held - {s.running} else held))
  }

  /// Lock value plus number of holders is always one, so there is never a second holder.
  lemma {:induction false} MutualExclusion(s: State, es: seq<Event>, reread: bool, x: Sid, held: set<Tid>)
    requires x < |s.semas| && Runs(s, es, reread)
    requires s.semas[x].value + |held| == 1 && Disciplined(s, es, reread, x, held)
    ensures x < |Run(s, es, reread).semas|
    ensures Run(s, es, reread).semas[x].value + |Holders(s, es, reread, x, held)| == 1
    decreases |es|
  {
    if es != [] {
      StepCounts(s, es[0], reread, x);
      var next := if Completes(s, es[0], reread, x) then held + {s.running}
                  else if es[0] == Inc(x) then held - {s.running} else held;
      if Completes(s, es[0], reread, x) {
        assert held == {};
      }
      MutualExclusion(Step(s, es[0], reread), es[1..], reread, x, next);
    }
  }

  // ---- round robin ----

  /// The step ends in schedule_next.
  predicate Schedules(s: State, e: Event, reread: bool)
    requires Enabled(s, e)
  {
    match e
    case Yield => true
    case Exit => true
    case BlockSelf => true
    case Dec(x) => !Completes(s, e, reread, x)
    case Resume => !Completes(s, e, reread, ModeOf(s, s.running).sema)
    case _ => false
  }

  function Switches(s: State, es: seq<Event>, reread: bool): nat
    requires Runs(s, es, reread)
    decreases |es|
  {
    if es == [] then 0
    else (if Schedules(s, es[0], reread) then 1 else 0) + Switches(Step(s, es[0], reread), es[1..], reread)
  }

  /// thread_block takes out nobody at or ahead of the thread that starts at position k.
  predicate Undisturbed(s: State, es: seq<Event>, reread: bool, k: nat)
    requires Runs(s, es, reread)
    decreases |es|
  {
    if es == [] then true
    else
      var u := Step(s, es[0], reread);
      && (es[0].Block? && k < |s.ready| ==> es[0].t !in s.ready[..k + 1])
      && (if !Schedules(s, es[0], reread) then Undisturbed(u, es[1..], reread, k)
          else k == 0 || Undisturbed(u, es[1..], reread, k - 1))
  }

  lemma {:induction false} WithoutKeepsPrefix(q: seq<Tid>, t: Tid, k: nat)
    requires k < |q| && t !in q[..k + 1]
    ensures k < |Without<Tid>(q, t)| && Without<Tid>(q, t)[k] == q[k]
  {
    assert q[0] in q[..k + 1];
    if k > 0 {
      assert q[1..][..k] == q[..k + 1][1..];
      WithoutKeepsPrefix(q[1..], t, k - 1);
    }
  }

  lemma SwitchTakesFirst(s: State, e: Event, reread: bool)
    requires Enabled(s, e) && Schedules(s, e, reread) && s.ready != []
    ensures Step(s, e, reread).running == s.ready[0]
  {
    assert (s.ready + [s.running])[0] == s.ready[0];
  }

  lemma PositionStep(s: State, e: Event, reread: bool, k: nat)
    requires Enabled(s, e) && k < |s.ready| && (e.Block? ==> e.t !in s.ready[..k + 1])
    ensures var u := Step(s, e, reread);
      if Schedules(s, e, reread) then k > 0 ==> k - 1 < |u.ready| && u.ready[k - 1] == s.ready[k]
      else k < |u.ready| && u.ready[k] == s.ready[k]
  {
    if e.Block? {
      WithoutKeepsPrefix(s.ready, e.t, k);
    }
  }

  /// A thread at position k of the ready queue moves up by one at each switch, whatever
  /// wake-ups, creations, yields and blocks happen meanwhile, and does not run before its turn.
  lemma MovesUp(s: State, es: seq<Event>, reread: bool, k: nat)
    requires Inv(s) && Runs(s, es, reread) && k < |s.ready|
    requires Undisturbed(s, es, reread, k) && Switches(s, es, reread) <= k
    ensures var m, u := Switches(s, es, reread), Run(s, es, reread);
      k - m < |u.ready| && u.ready[k - m] == s.ready[k] && u.running != s.ready[k]
  {
    Position(s, es, reread, k);
    RunKeeps(s, es, reread);
    RunningAlone(Run(s, es, reread));
  }

  lemma Position(s: State, es: seq<Event>, reread: bool, k: nat)
    requires Runs(s, es, reread) && k < |s.ready|
    requires Undisturbed(s, es, reread, k) && Switches(s, es, reread) <= k
    ensures var m, u := Switches(s, es, reread), Run(s, es, reread);
      k - m < |u.ready| && u.ready[k - m] == s.ready[k]
  {
    PositionCounts(s, es, reread, k);
    PositionKept(s, es, reread, k);
  }

  /// Where the thread at position k stands after the run; -1 once it had its turn.
  function PositionAfter(s: State, es: seq<Event>, reread: bool, k: nat): int
    requires Runs(s, es, reread)
    decreases |es|
  {
    if es == [] then k
    else if es[0].Block? && k < |s.ready| && es[0].t in s.ready[..k + 1] then -1
    else if !Schedules(s, es[0], reread) then PositionAfter(Step(s, es[0], reread), es[1..], reread, k)
    else if k == 0 then -1
    else PositionAfter(Step(s, es[0], reread), es[1..], reread, k - 1)
  }

  lemma {:induction false} PositionCounts(s: State, es: seq<Event>, reread: bool, k: nat)
    requires Runs(s, es, reread) && Undisturbed(s, es, reread, k) && Switches(s, es, reread) <= k
    ensures PositionAfter(s, es, reread, k) == k - Switches(s, es, reread)
    decreases |es|
  {
    if es != [] {
      PositionCounts(Step(s, es[0], reread), es[1..], reread, if Schedules(s, es[0], reread) then k - 1 else k);
    }
  }

  lemma {:induction false} PositionKept(s: State, es: seq<Event>, reread: bool, k: nat)
    requires Runs(s, es, reread) && k < |s.ready|
    ensures var j, u := PositionAfter(s, es, reread, k), Run(s, es, reread);
      j >= 0 ==> j < |u.ready| && u.ready[j] == s.ready[k]
    decreases |es|
  {
    if es != [] && PositionAfter(s, es, reread, k) >= 0 {
      PositionStep(s, es[0], reread, k);
      PositionKept(Step(s, es[0], reread), es[1..], reread, if Schedules(s, es[0], reread) then k - 1 else k);
    }
  }

  // ---- semaphores are first come, first served ----

  /// How many steps of the run increment semaphore x.
  function Increments(es: seq<Event>, x: Sid): nat {
    if es == [] then 0 else (if es[0] == Inc(x) then 1 else 0) + Increments(es[1..], x)
  }

  /// A thread that finds the value at zero is BLOCKED and waits behind all who already wait.
  lemma WaitsBehind(s: State, e: Event, reread: bool, x: Sid)
    requires Enabled(s, e) && x < |s.semas|
    requires e == Dec(x) || (e == Resume && ModeOf(s, s.running) == InDec(x))
    requires s.semas[x].value == 0 || (e == Resume && !reread)
    ensures var u := Step(s, e, reread);
      && |u.semas| == |s.semas| && u.semas[x].waiters == s.semas[x].waiters + [s.running]
      && In(u, s.running, WaitingAt(x, |s.semas[x].waiters|)) && StatusOf(u, s.running) == BLOCKED
  {
  }

  /// The waiters of a semaphore change at their ends only.
  lemma WaitersStep(s: State, e: Event, reread: bool, x: Sid)
    requires Enabled(s, e) && x < |s.semas| && s.semas[x].waiters != []
    ensures |Step(s, e, reread).semas| == |s.semas|
    ensures var q, r := s.semas[x].waiters, Step(s, e, reread).semas[x].waiters;
      if e == Inc(x) then r == q[1..] else r == q || r == q + [s.running]
  {
  }

  /// A thread at position k of a semaphore's waiters moves up by one at each increment of that
  /// semaphore and by nothing else, whatever happens meanwhile.
  lemma {:induction false} WaiterMovesUp(s: State, es: seq<Event>, reread: bool, x: Sid, k: nat)
    requires Runs(s, es, reread) && x < |s.semas| && k < |s.semas[x].waiters| && Increments(es, x) <= k
    ensures In(Run(s, es, reread), s.semas[x].waiters[k], WaitingAt(x, k - Increments(es, x)))
    decreases |es|
  {
    if es != [] {
      WaitersStep(s, es[0], reread, x);
      WaiterMovesUp(Step(s, es[0], reread), es[1..], reread, x, if es[0] == Inc(x) then k - 1 else k);
    }
  }

  /// Increment number k + 1 makes it ready, behind all who are, and it waits no more.
  lemma WokenAtItsTurn(s: State, es: seq<Event>, reread: bool, x: Sid, k: nat)
    requires Inv(s) && Runs(s, es, reread) && x < |s.semas| && k < |s.semas[x].waiters|
    requires Increments(es, x) == k && Enabled(Run(s, es, reread), Inc(x))
    ensures var t, before, after := s.semas[x].waiters[k], Run(s, es, reread), Step(Run(s, es, reread), Inc(x), reread);
      && In(after, t, Queued(|before.ready|)) && after.ready == before.ready + [t] && StatusOf(after, t) == READY
      && forall p :: In(after, t, p) ==> p == Queued(|before.ready|)
  {
    var t, before := s.semas[x].waiters[k], Run(s, es, reread);
    WaiterMovesUp(s, es, reread, x, k);
    RunKeeps(s, es, reread);
    assert t in before.semas[x].waiters;
    StepKeeps(before, Inc(x), reread);
    var after := Step(before, Inc(x), reread);
    forall p | In(after, t, p) ensures p == Queued(|before.ready|) {
      SamePlace(after, t, p, Queued(|before.ready|));
    }
  }

  // ---- what becomes of a thread that is created, unblocked, blocked or done ----

  /// Created, or unblocked, a thread is READY at the end of the queue.
  lemma JoinsTheQueue(s: State, e: Event, reread: bool, t: Tid)
    requires Inv(s) && Enabled(s, e) && (e == Create(t) || e == Unblock(t)) && t != s.idle
    ensures var u := Step(s, e, reread);
      && u.ready == s.ready + [t] && In(u, t, Queued(|s.ready|)) && StatusOf(u, t) == READY && t in u.status
      && (e == Create(t) ==> ModeOf(u, t) == Normal) && u.running == s.running
  {
  }

  /// A thread that yields goes behind all who are ready.
  lemma YieldsToAll(s: State, reread: bool)
    requires Inv(s) && Enabled(s, Yield) && s.ready != []
    ensures var u := Step(s, Yield, reread);
      && u.running == s.ready[0] && u.ready == s.ready[1..] + [s.running]
      && In(u, s.running, Queued(|s.ready| - 1)) && StatusOf(u, s.running) == READY
  {
  }

  /// A thread that is blocked, by itself or by another, is BLOCKED and in no queue.
  lemma BlockedIsParked(s: State, e: Event, reread: bool, t: Tid)
    requires Inv(s) && Enabled(s, e) && (e == Block(t) || (e.BlockSelf? && t == s.running))
    ensures var u := Step(s, e, reread);
      In(u, t, Parked) && forall p :: In(u, t, p) ==> p == Parked
  {
    var u := Step(s, e, reread);
    StepKeeps(s, e, reread);
    if e == Block(t) {
      BlockLeavesQueue(s, t);
    } else {
      RunningAlone(s);
    }
    forall p | In(u, t, p) ensures p == Parked {
      SamePlace(u, t, p, Parked);
    }
  }

  lemma BlockLeavesQueue(s: State, t: Tid)
    requires Inv(s) && t in s.ready && t != s.idle && t != s.running
    ensures t !in ThreadBlock(s, t).ready && Waiting(s.semas)[t] == 0
  {
    assert Places(s)[t] <= 1;
    InMultiset(s.ready, t);
    WithoutMember(s.ready, t, t);
    InMultiset(ThreadBlock(s, t).ready, t);
  }

  /// It stays there until it is unblocked.
  lemma {:induction false} StaysParked(s: State, es: seq<Event>, reread: bool, t: Tid)
    requires Inv(s) && Runs(s, es, reread) && In(s, t, Parked) && t in s.status && Unblock(t) !in es
    ensures In(Run(s, es, reread), t, Parked)
    decreases |es|
  {
    if es != [] {
      ParkedStep(s, es[0], reread, t);
      StepKeeps(s, es[0], reread);
      StaysParked(Step(s, es[0], reread), es[1..], reread, t);
    }
  }

  lemma ParkedIs(s: State, t: Tid)
    requires Inv(s)
    ensures In(s, t, Parked)
       <==> StatusOf(s, t) == BLOCKED && forall x :: 0 <= x < |s.semas| ==> t !in s.semas[x].waiters
  {
    WaitingMember(s.semas, t);
  }

  lemma ParkedStep(s: State, e: Event, reread: bool, t: Tid)
    requires Inv(s) && Enabled(s, e) && In(s, t, Parked) && t in s.status && e != Unblock(t)
    ensures In(Step(s, e, reread), t, Parked) && t in Step(s, e, reread).status
  {
    StepKeeps(s, e, reread);
    ParkedIs(s, t);
    ParkedIs(Step(s, e, reread), t);
    StillBlocked(s, e, reread, t);
  }

  lemma StillBlocked(s: State, e: Event, reread: bool, t: Tid)
    requires Enabled(s, e) && StatusOf(s, t) == BLOCKED && t in s.status && e != Unblock(t) && t != s.running
    requires forall x :: 0 <= x < |s.semas| ==> t !in s.semas[x].waiters
    ensures var u := Step(s, e, reread);
      t in u.status && StatusOf(u, t) == BLOCKED && forall x :: 0 <= x < |u.semas| ==> t !in u.semas[x].waiters
  {
    if e.Inc? && s.semas[e.x].waiters != [] {
      assert s.semas[e.x].waiters[0] in s.semas[e.x].waiters;
    }
  }

  /// A thread that has exited is DEAD for good, and has the processor no more.
  lemma {:induction false} DeadForGood(s: State, es: seq<Event>, reread: bool, t: Tid)
    requires Inv(s) && Runs(s, es, reread) && t in s.status && StatusOf(s, t) == DEAD
    ensures var u := Run(s, es, reread); StatusOf(u, t) == DEAD && u.running != t && t !in u.ready
    decreases |es|
  {
    if es != [] {
      StepKeeps(s, es[0], reread);
      DeadStep(s, es[0], reread, t);
      DeadForGood(Step(s, es[0], reread), es[1..], reread, t);
    }
  }

  lemma DeadStep(s: State, e: Event, reread: bool, t: Tid)
    requires Inv(s) && Enabled(s, e) && t in s.status && StatusOf(s, t) == DEAD
    ensures t in Step(s, e, reread).status && StatusOf(Step(s, e, reread), t) == DEAD
  {
    if e.Inc? && s.semas[e.x].waiters != [] {
      assert s.semas[e.x].waiters[0] in s.semas[e.x].waiters;
    }
  }

  lemma ExitIsDeath(s: State, reread: bool)
    requires Enabled(s, Exit)
    ensures StatusOf(Step(s, Exit, reread), s.running) == DEAD
  {
  }

  /// It has the processor right after switch number k + 1.
  lemma RunsAtItsTurn(s: State, es: seq<Event>, e: Event, reread: bool, k: nat)
    requires Runs(s, es, reread) && k < |s.ready|
    requires Undisturbed(s, es, reread, k) && Switches(s, es, reread) == k
    requires Enabled(Run(s, es, reread), e) && Schedules(Run(s, es, reread), e, reread)
    ensures Step(Run(s, es, reread), e, reread).running == s.ready[k]
  {
    Position(s, es, reread, k);
    SwitchTakesFirst(Run(s, es, reread), e, reread);
  }
}

module Kernels {
  import opened Queues
  import opened Scheduling

  /// The globals of thread.c, the status of every thread, and where each thread's saved
  /// context will go on.
  class Kernel {
    var ready: seq<Tid>
    var running: Tid
    var idle: Tid
    var status: map<Tid, Status>
    var mode: map<Tid, Mode>
    var semas: seq<Sema>

    function Now(): State
      reads this
    {
      State(ready, running, idle, status, mode, semas)
    }

    /// init_threads, with the initial thread's status as a parameter: the source leaves it
    /// at zero, BLOCKED.
    constructor (initial: Tid, idleThread: Tid, initialStatus: Status, values: seq<nat>)
      requires initial != idleThread
      ensures Now() == Boot(initial, idleThread, initialStatus, values)
    {
      ready := [];
      running := initial;
      idle := idleThread;
      status := map[initial := initialStatus, idleThread := READY];
      mode := map[initial := Normal, idleThread := Normal];
      semas := seq(|values|, i requires 0 <= i < |values| => Sema(values[i], []));
    }

    method NextThread() returns (t: Tid)
      modifies this`ready
      ensures State(ready, t, idle, status, mode, semas) == ScheduleNext(old(Now()))
    {
      if ready == [] {
        t := idle;
      } else {
        t := ready[0];
        ready := ready[1..];
      }
    }

    method Schedule()
      modifies this
      ensures Now() == ScheduleNext(old(Now()))
    {
      var next := NextThread();
      running := next;
    }

    method Yield()
      modifies this
      ensures Now() == YieldCurrent(old(Now()))
    {
      if StatusOf(Now(), running) != BLOCKED {
        ready := ready + [running];
      }
      Schedule();
    }

    method BlockRunning()
      modifies this
      ensures Now() == BlockCurrent(old(Now()))
    {
      status := status[running := BLOCKED];
      Yield();
    }

    method Remove(t: Tid)
      modifies this`ready
      ensures Now() == old(Now()).(ready := Without<Tid>(old(ready), t))
    {
      var i := 0;
      while i < |ready| && ready[i] != t
        invariant 0 <= i <= |ready|
        invariant Without<Tid>(ready, t) == ready[..i] + Without<Tid>(ready[i..], t)
      {
        i := i + 1;
      }
      if i < |ready| {
        ready := ready[..i] + ready[i + 1..];
      } else {
        assert ready[..i] == ready && ready[i..] == [];
      }
    }

    method BlockThread(t: Tid)
      modifies this
      ensures Now() == ThreadBlock(old(Now()), t)
    {
      if t == running {
        BlockRunning();
      } else {
        status := status[t := BLOCKED];
        Remove(t);
      }
    }

    method UnblockThread(t: Tid)
      modifies this
      ensures Now() == ThreadUnblock(old(Now()), t)
    {
      if t != idle {
        ready := ready + [t];
      }
      status := status[t := READY];
    }

    method Create(t: Tid)
      modifies this
      ensures Now() == CreateThread(old(Now()), t)
    {
      mode := mode[t := Normal];
      status := status[t := BLOCKED];
      UnblockThread(t);
    }

    method Exit()
      modifies this
      ensures Now() == ExitThread(old(Now()))
    {
      status := status[running := DEAD];
      Schedule();
    }

    method SemaphoreIncrement(x: Sid)
      requires x < |semas|
      modifies this
      ensures Now() == SemaphoreInc(old(Now()), x)
    {
      var waiters := semas[x].waiters;
      semas := semas[x := semas[x].(value := semas[x].value + 1)];
      if waiters != [] {
        semas := semas[x := semas[x].(waiters := waiters[1..])];
        UnblockThread(waiters[0]);
      }
    }

    /// semaphore_dec from the call up to its return or to the switch inside its loop.
    method SemaphoreDecrement(x: Sid)
      requires x < |semas|
      modifies this
      ensures Now() == TryDec(old(Now()), x, old(semas[x].value))
    {
      var value := semas[x].value;
      Attempt(x, value);
    }

    /// The same from the point where a woken thread finds itself back in the loop. Without
    /// `reread` it tests the copy that was zero when it went to wait.
    method SemaphoreDecrementResumed(x: Sid, reread: bool)
      requires x < |semas|
      modifies this
      ensures Now() == TryDec(old(Now()), x, if reread then old(semas[x].value) else 0)
    {
      var value := 0;
      if reread {
        value := semas[x].value;
      }
      Attempt(x, value);
    }

    method Attempt(x: Sid, value: nat)
      requires x < |semas|
      modifies this
      ensures Now() == TryDec(old(Now()), x, value)
    {
      if value == 0 {
        semas := semas[x := semas[x].(waiters := semas[x].waiters + [running])];
        mode := mode[running := InDec(x)];
        BlockRunning();
      } else {
        semas := semas[x := semas[x].(value := value - 1)];
        mode := mode[running := Normal];
      }
    }
  }
}
