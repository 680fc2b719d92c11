/**
  The protocol of TaskPool in src/net4cxx/common/threading/taskpool.{h,cpp} and of ConcurrentQueue in
  src/net4cxx/common/threading/concurrentqueue.h: a list under a mutex, and a condition variable. A step is
  one pass through a critical section; any thread may take the next step. The i-th item pushed is called i.
*/
module TaskPools {

  /** Where a worker is: between calls of pop, blocked, woken but not yet back under the mutex, running an
      item, or done. */
  datatype Thread = Outside | Waiting | Notified | Holding(task: nat) | Exited

  datatype Pool = Pool(
    list: seq<nat>, stopped: bool, terminated: bool,
    threads: map<nat, Thread>,
    pushed: nat, started: nat, // how many items were accepted, how many taken off the list
    executed: seq<nat>, // the items run to the end
    disposed: seq<nat>, destroyed: bool,
    exits: bool, // some worker has returned
    graceful: bool) // no terminate, no reset, and nothing accepted after stop, so far

  datatype Event =
    | Start(count: nat)
    | Push(woken: nat) // notify_one wakes this thread, if any is blocked
    | Pop(t: nat) | Finish(t: nat) | Stop | Terminate | Reset
    | Wait
    | Call(t: nat) // dequeue is called again
    | TryPop(t: nat) // tryDequeue
    | Destroy

  /** Whether the list refuses items once it is stopped: ConcurrentQueue does, TaskPool does not. */
  datatype Kind = TaskPool | ConcurrentQueue

  function Waiters(p: Pool): set<nat> { set t | t in p.threads && p.threads[t].Waiting? }

  function Woken(p: Pool): set<nat> { set t | t in p.threads && p.threads[t].Notified? }

  function Wake(threads: map<nat, Thread>): map<nat, Thread> {
    map t | t in threads :: if threads[t].Waiting? then Notified else threads[t]
  }

  predicate AllExited(p: Pool) { forall t :: t in p.threads ==> p.threads[t].Exited? }

  predicate Enabled(k: Kind, p: Pool, e: Event) {
    !p.destroyed &&
    match e
    case Push(w) => Waiters(p) != {} ==> w in Waiters(p)
    // a blocked thread may also wake up by itself
    case Pop(t) => t in p.threads && (p.threads[t].Outside? || p.threads[t].Notified? || p.threads[t].Waiting?)
    case Finish(t) => t in p.threads && p.threads[t].Holding?
    case Call(t) => k.ConcurrentQueue? && t in p.threads && p.threads[t].Exited?
    case TryPop(t) => k.ConcurrentQueue? && t in p.threads && p.threads[t].Outside?
    // wait returns when every worker is done; the destructor terminates and waits before it disposes
    case Wait => k.TaskPool? && AllExited(p)
    case Destroy => k.TaskPool? && p.terminated && AllExited(p)
    case _ => true
  }

  function Refuses(k: Kind, p: Pool): bool { k.ConcurrentQueue? && (p.stopped || p.terminated) }

  function Take(p: Pool, t: nat): Pool
    requires p.list != []
  {
    p.(list := p.list[1..], started := p.started + 1, threads := p.threads[t := Holding(p.list[0])])
  }

  function Exit(p: Pool, t: nat): Pool { p.(threads := p.threads[t := Exited], exits := true) }

  function PopStep(p: Pool, t: nat): Pool {
    if p.terminated then Exit(p, t)
    else if p.list != [] then Take(p, t)
    else if p.stopped then Exit(p, t)
    else p.(threads := p.threads[t := Waiting])
  }

  function PushStep(k: Kind, p: Pool, woken: nat): Pool {
    if Refuses(k, p) then p
    else p.(list := p.list + [p.pushed], pushed := p.pushed + 1,
            threads := if Waiters(p) != {} then p.threads[woken := Notified] else p.threads,
            graceful := p.graceful && !p.stopped)
  }

  function Next(k: Kind, p: Pool, e: Event): Pool
    requires Enabled(k, p, e)
  {
    match e
    case Start(n) =>
      if n == 0 || p.threads != map[] || p.stopped || p.terminated then p
      else p.(threads := map t | t in Range(0, n) :: Outside)
    case Push(w) => PushStep(k, p, w)
    case Pop(t) => PopStep(p, t)
    case Finish(t) => p.(threads := p.threads[t := Outside], executed := p.executed + [p.threads[t].task])
    case Stop => p.(stopped := true, threads := Wake(p.threads))
    case Terminate => p.(terminated := true, threads := Wake(p.threads), graceful := false)
    case Reset => p.(stopped := false, terminated := false, graceful := false)
    case Call(t) => p.(threads := p.threads[t := Outside])
    case TryPop(t) => if p.terminated || p.list == [] then p else Take(p, t)
    case Wait => p.(threads := map[])
    case Destroy => p.(threads := map[], list := [], disposed := p.list, destroyed := true)
  }

  const EMPTY: Pool := Pool([], false, false, map[], 0, 0, [], [], false, false, true)

  // ----- what every step keeps -----

  function Range(a: nat, b: nat): (r: seq<nat>)
    requires a <= b
    ensures |r| == b - a && forall i :: 0 <= i < |r| ==> r[i] == a + i
    decreases b - a
  {
    if a == b then [] else [a] + Range(a + 1, b)
  }

  predicate Held(p: Pool, t: nat, i: nat) { t in p.threads && p.threads[t] == Holding(i) }

  /** Items leave the list in the order they were pushed, and the rest are disposed. */
  ghost predicate InOrder(p: Pool) {
    && p.started <= p.pushed && p.list + p.disposed == Range(p.started, p.pushed)
    && (if p.destroyed then p.list == [] else p.disposed == [])
  }

  /** An item taken off the list is being run by one thread, or has been run once. */
  ghost predicate Accounted(p: Pool) {
    && (forall t: nat, i: nat :: Held(p, t, i) ==> i < p.started && i !in p.executed)
    && (forall t: nat, u: nat, i: nat :: Held(p, t, i) && Held(p, u, i) ==> t == u)
    && (forall i :: 0 <= i < |p.executed| ==> p.executed[i] < p.started)
    && (forall i, j :: 0 <= i < j < |p.executed| ==> p.executed[i] != p.executed[j])
    && (forall i: nat :: i < p.started ==> i in p.executed || exists t :: Held(p, t, i))
  }

  /** While a thread is blocked, enough others have been woken for the items on the list; and none is blocked
      once the list is stopped. */
  ghost predicate NoLostWakeUp(p: Pool) {
    && (Waiters(p) != {} ==> |Woken(p)| >= |p.list|)
    && (p.stopped || p.terminated ==> Waiters(p) == {})
  }

  /** A worker of a list that was only ever stopped returned because the list was stopped and empty. */
  ghost predicate Graceful(p: Pool) {
    (p.terminated ==> !p.graceful) && (p.graceful && p.exits ==> p.stopped && p.list == [])
  }

  ghost predicate Inv(p: Pool) {
    InOrder(p) && Accounted(p) && NoLostWakeUp(p) && Graceful(p)
  }

  // ----- order -----

  lemma {:induction false} RangeLast(a: nat, b: nat)
    requires a <= b
    ensures Range(a, b) + [b] == Range(a, b + 1)
  {
    var x, y := Range(a, b) + [b], Range(a, b + 1);
    assert forall i :: 0 <= i < |x| ==> x[i] == y[i];
  }

  lemma {:induction false} FirstInOrder(p: Pool)
    requires InOrder(p) && !p.destroyed && p.list != []
    ensures p.started < p.pushed && p.list[0] == p.started && p.list[1..] == Range(p.started + 1, p.pushed)
  {
    assert p.list + [] == p.list;
    assert Range(p.started, p.pushed)[1..] == Range(p.started + 1, p.pushed);
  }

  lemma {:induction false} SameOrder(p: Pool, q: Pool)
    requires InOrder(p) && q.list == p.list && q.disposed == p.disposed && q.destroyed == p.destroyed
    requires q.started == p.started && q.pushed == p.pushed
    ensures InOrder(q)
  {
  }

  lemma {:induction false} TakeInOrder(p: Pool, t: nat)
    requires InOrder(p) && !p.destroyed && p.list != []
    ensures InOrder(Take(p, t))
  {
    hide Range;
    FirstInOrder(p);
    assert p.list[1..] + [] == p.list[1..];
  }

  lemma {:induction false} PushInOrder(k: Kind, p: Pool, w: nat)
    requires InOrder(p) && Enabled(k, p, Push(w))
    ensures InOrder(PushStep(k, p, w))
  {
    hide Range, Waiters;
    RangeLast(p.started, p.pushed);
    assert p.list + [] == p.list && p.list + [p.pushed] + [] == p.list + [p.pushed];
  }

  lemma {:induction false} InOrderNext(k: Kind, p: Pool, e: Event)
    requires InOrder(p) && Enabled(k, p, e)
    ensures InOrder(Next(k, p, e))
  {
    hide InOrder, Wake, AllExited, Take, PushStep;
    var q := Next(k, p, e);
    match e
    case Push(w) => PushInOrder(k, p, w);
    case Pop(t) => if !p.terminated && p.list != [] { TakeInOrder(p, t); } else { SameOrder(p, q); }
    case TryPop(t) => if !p.terminated && p.list != [] { TakeInOrder(p, t); } else { SameOrder(p, q); }
    case Destroy => DestroyInOrder(p);
    case _ => SameOrder(p, q);
  }

  lemma {:induction false} DestroyInOrder(p: Pool)
    requires InOrder(p) && !p.destroyed
    ensures InOrder(p.(threads := map[], list := [], disposed := p.list, destroyed := true))
  {
    assert [] + p.list == p.list == p.list + [];
  }

  // ----- every item once -----

  lemma {:induction false} TakeAccounted(p: Pool, t: nat)
    requires InOrder(p) && Accounted(p) && !p.destroyed && p.list != []
    requires t in p.threads && !p.threads[t].Holding?
    ensures Accounted(Take(p, t))
  {
    hide InOrder;
    var q := Take(p, t);
    FirstInOrder(p);
    assert forall u, i :: Held(q, u, i) <==> Held(p, u, i) || (u == t && i == p.started);
    assert Held(q, t, p.started);
  }

  lemma {:induction false} FinishAccounted(k: Kind, p: Pool, t: nat)
    requires Accounted(p) && Enabled(k, p, Finish(t))
    ensures Accounted(Next(k, p, Finish(t)))
  {
    var q := Next(k, p, Finish(t));
    var i := p.threads[t].task;
    assert Held(p, t, i);
    assert forall u, j :: Held(q, u, j) <==> Held(p, u, j) && u != t;
    assert forall j :: j in q.executed <==> j in p.executed || j == i;
    forall j: nat | j < q.started ensures j in q.executed || exists u :: Held(q, u, j) {
      if j !in p.executed && j != i {
        var u :| Held(p, u, j);
        assert Held(q, u, j);
      }
    }
  }

  /** Steps that leave held items alone keep the account. */
  lemma {:induction false} SameHolders(p: Pool, q: Pool)
    requires Accounted(p) && q.started == p.started && q.executed == p.executed
    requires forall t, i :: Held(q, t, i) <==> Held(p, t, i)
    ensures Accounted(q)
  {
  }

  lemma {:induction false} AccountedNext(k: Kind, p: Pool, e: Event)
    requires InOrder(p) && Accounted(p) && Enabled(k, p, e)
    ensures Accounted(Next(k, p, e))
  {
    hide Accounted, InOrder;
    var q := Next(k, p, e);
    match e
    case Finish(t) => FinishAccounted(k, p, t);
    case Pop(t) =>
      if !p.terminated && p.list != [] { TakeAccounted(p, t); } else { SameHolders(p, q); }
    case TryPop(t) =>
      if !p.terminated && p.list != [] { TakeAccounted(p, t); } else { SameHolders(p, q); }
    case _ => SameHolders(p, q);
  }

  // ----- wake-ups -----

  /** Moving one thread changes the sets of blocked and woken threads by that thread. */
  lemma {:induction false} MoveOne(p: Pool, q: Pool, t: nat, s: Thread)
    requires t in p.threads && q.threads == p.threads[t := s]
    ensures Waiters(q) == if s.Waiting? then Waiters(p) + {t} else Waiters(p) - {t}
    ensures Woken(q) == if s.Notified? then Woken(p) + {t} else Woken(p) - {t}
  {
  }

  lemma {:induction false} PopCounts(p: Pool, q: Pool, t: nat)
    requires NoLostWakeUp(p) && q == PopStep(p, t)
    requires q.threads[t].Waiting? ==> Waiters(q) == Waiters(p) + {t}
    requires !q.threads[t].Waiting? ==> Waiters(q) == Waiters(p) - {t}
    requires Woken(q) == Woken(p) - {t}
    ensures NoLostWakeUp(q)
  {
    hide Waiters, Woken;
    assert |Woken(q)| >= |Woken(p)| - 1;
  }

  lemma {:induction false} PopWakes(p: Pool, t: nat)
    requires NoLostWakeUp(p) && t in p.threads && !p.threads[t].Holding? && !p.threads[t].Exited?
    ensures NoLostWakeUp(PopStep(p, t))
  {
    var q := PopStep(p, t);
    MoveOne(p, q, t, q.threads[t]);
    if t !in Woken(p) { NotWoken(p, t); }
    PopCounts(p, q, t);
  }

  lemma {:induction false} PushWakes(k: Kind, p: Pool, w: nat)
    requires NoLostWakeUp(p) && Enabled(k, p, Push(w))
    ensures NoLostWakeUp(PushStep(k, p, w))
  {
    var q := PushStep(k, p, w);
    if !Refuses(k, p) {
      if Waiters(p) != {} {
        assert w in p.threads && p.threads[w].Waiting?;
        MoveOne(p, q, w, Notified);
        assert w !in Woken(p);
      } else {
        assert q.threads == p.threads;
        assert Waiters(q) == Waiters(p);
      }
    }
  }

  /** A thread that is neither blocked nor woken moves, and blocks nobody and wakes nobody. */
  lemma {:induction false} MoveWakes(p: Pool, q: Pool, t: nat, s: Thread)
    requires NoLostWakeUp(p) && t in p.threads && !p.threads[t].Waiting? && !p.threads[t].Notified?
    requires !s.Waiting? && !s.Notified? && q.threads == p.threads[t := s] && |q.list| <= |p.list|
    requires q.stopped == p.stopped && q.terminated == p.terminated
    ensures NoLostWakeUp(q)
  {
    MoveOne(p, q, t, s);
    assert t !in Waiters(p) && Waiters(p) - {t} == Waiters(p);
    NotWoken(p, t);
  }

  lemma {:induction false} SameWakes(p: Pool, q: Pool)
    requires NoLostWakeUp(p) && q.threads == p.threads && q.list == p.list
    requires (q.stopped || q.terminated) ==> p.stopped || p.terminated
    ensures NoLostWakeUp(q)
  {
    assert Waiters(q) == Waiters(p);
    SameWoken(p, q);
  }

  lemma {:induction false} NoneBlocked(p: Pool)
    requires forall t :: t in p.threads ==> !p.threads[t].Waiting?
    ensures NoLostWakeUp(p)
  {
    assert Waiters(p) == {};
  }

  lemma {:induction false} WakesNext(k: Kind, p: Pool, e: Event)
    requires NoLostWakeUp(p) && Enabled(k, p, e)
    ensures NoLostWakeUp(Next(k, p, e))
  {
    hide NoLostWakeUp, PushStep, PopStep, Waiters, Woken;
    var q := Next(k, p, e);
    match e
    case Pop(t) => PopWakes(p, t);
    case Push(w) => PushWakes(k, p, w);
    case Finish(t) => MoveWakes(p, q, t, Outside);
    case Call(t) => MoveWakes(p, q, t, Outside);
    case TryPop(t) =>
      if !p.terminated && p.list != [] { MoveWakes(p, q, t, q.threads[t]); } else { SameWakes(p, q); }
    case Reset => SameWakes(p, q);
    case Start(n) =>
      if n == 0 || p.threads != map[] || p.stopped || p.terminated { SameWakes(p, q); } else { NoneBlocked(q); }
    case _ => NoneBlocked(q);
  }

  lemma {:induction false} NotWoken(p: Pool, t: nat)
    requires t in p.threads && !p.threads[t].Notified?
    ensures Woken(p) - {t} == Woken(p)
  {
  }

  lemma {:induction false} SameWoken(p: Pool, q: Pool)
    requires p.threads == q.threads
    ensures Woken(p) == Woken(q)
  {
  }

  lemma {:induction false} NextKeeps(k: Kind, p: Pool, e: Event)
    requires Inv(p) && Enabled(k, p, e)
    ensures Inv(Next(k, p, e))
  {
    hide InOrder, Accounted, NoLostWakeUp, Graceful, Next, Enabled;
    InOrderNext(k, p, e);
    AccountedNext(k, p, e);
    WakesNext(k, p, e);
    GracefulNext(k, p, e);
  }

  lemma {:induction false} GracefulNext(k: Kind, p: Pool, e: Event)
    requires Graceful(p) && Enabled(k, p, e)
    ensures Graceful(Next(k, p, e))
  {
    hide Waiters, Woken, Wake;
  }

  // ----- every run -----

  ghost predicate Possible(k: Kind, events: seq<Event>)
    decreases |events|, 0
  {
    events != [] ==>
      && Possible(k, events[..|events| - 1])
      && Enabled(k, After(k, events[..|events| - 1]), events[|events| - 1])
  }

  /** The state after steps of any threads in any order. */
  ghost function After(k: Kind, events: seq<Event>): (p: Pool)
    requires Possible(k, events)
    ensures Inv(p)
    decreases |events|, 1
  {
    if events == [] then EMPTY
    else
      var p, e := After(k, events[..|events| - 1]), events[|events| - 1];
      NextKeeps(k, p, e);
      Next(k, p, e)
  }

  predicate CanStep(p: Pool, t: nat) {
    t in p.threads && (p.threads[t].Outside? || p.threads[t].Notified? || p.threads[t].Holding?)
  }

  /** No wake-up is lost: if there are items and a thread is blocked, some other thread is on its way. */
  lemma {:induction false} BlockedMeansServed(k: Kind, events: seq<Event>)
    requires Possible(k, events)
    ensures var p := After(k, events);
      Waiters(p) != {} && p.list != [] ==> exists t :: CanStep(p, t) && p.threads[t].Notified?
  {
    hide Possible, After;
    var p := After(k, events);
    assert Inv(p);
    if Waiters(p) != {} && p.list != [] {
      assert |Woken(p)| > 0;
      var t :| t in Woken(p);
      assert CanStep(p, t);
    }
  }

  /** Each accepted item is on the list, being run, run once, or disposed, and in no two of these. */
  lemma {:induction false} EachItemOnce(k: Kind, events: seq<Event>, i: nat)
    requires Possible(k, events)
    ensures var p := After(k, events);
      i < p.pushed <==> i in p.list || i in p.disposed || i in p.executed || exists t :: Held(p, t, i)
    ensures var p := After(k, events);
      && !(i in p.executed && exists t :: Held(p, t, i))
      && ((i in p.list || i in p.disposed) ==> i !in p.executed && !exists t :: Held(p, t, i))
      && !(i in p.list && i in p.disposed)
      && multiset(p.executed)[i] <= 1
  {
    hide Possible, After;
    var p := After(k, events);
    assert Inv(p);
    var r := p.list + p.disposed;
    assert r == Range(p.started, p.pushed);
    assert i in r <==> p.started <= i < p.pushed by {
      if p.started <= i < p.pushed { assert r[i - p.started] == i; }
    }
    assert i in r <==> i in p.list || i in p.disposed;
    NoneTwice(p.executed, i);
  }

  lemma {:induction false} NoneTwice(s: seq<nat>, i: nat)
    requires forall a, b :: 0 <= a < b < |s| ==> s[a] != s[b]
    ensures multiset(s)[i] <= 1
  {
    if s != [] {
      var front, last := s[..|s| - 1], s[|s| - 1];
      assert s == front + [last];
      NoneTwice(front, i);
    }
  }

  /** Both kinds of pop take the oldest accepted item off the list, if there is one and the list is not terminated,
      and leave the list alone otherwise. */
  lemma {:induction false} TakenInOrder(k: Kind, events: seq<Event>, e: Event, t: nat)
    requires Possible(k, events) && Enabled(k, After(k, events), e) && (e == Pop(t) || e == TryPop(t))
    ensures var p := After(k, events); var q := Next(k, p, e);
      if p.list != [] && !p.terminated then
        && p.list[0] == p.started && q.started == p.started + 1 && q.list == p.list[1..]
        && q.threads == p.threads[t := Holding(p.started)]
      else
        q.list == p.list && q.started == p.started && t in q.threads && !q.threads[t].Holding?
  {
    hide Possible, After;
    var p := After(k, events);
    assert Inv(p);
    if p.list != [] { FirstInOrder(p); }
  }

  // ----- what the events alone determine -----

  /** The last stop came after the last reset. */
  function StoppedBy(events: seq<Event>): bool {
    if events == [] then false
    else
      match events[|events| - 1]
      case Stop => true
      case Reset => false
      case _ => StoppedBy(events[..|events| - 1])
  }

  function TerminatedBy(events: seq<Event>): bool {
    if events == [] then false
    else
      match events[|events| - 1]
      case Terminate => true
      case Reset => false
      case _ => TerminatedBy(events[..|events| - 1])
  }

  /** How many items have been pushed; ConcurrentQueue takes none while it is stopped or terminated. */
  function AcceptedBy(k: Kind, events: seq<Event>): nat {
    if events == [] then 0
    else
      var front := events[..|events| - 1];
      var takes := k.TaskPool? || !(StoppedBy(front) || TerminatedBy(front));
      AcceptedBy(k, front) + if events[|events| - 1].Push? && takes then 1 else 0
  }

  lemma {:induction false} EventsDetermine(k: Kind, events: seq<Event>)
    requires Possible(k, events)
    ensures var p := After(k, events);
      p.stopped == StoppedBy(events) && p.terminated == TerminatedBy(events) && p.pushed == AcceptedBy(k, events)
  {
    hide Inv, Enabled, Next;
    if events != [] {
      var front := events[..|events| - 1];
      EventsDetermine(k, front);
      EventDetermines(k, After(k, front), events[|events| - 1]);
    }
  }

  lemma {:induction false} EventDetermines(k: Kind, p: Pool, e: Event)
    requires Enabled(k, p, e)
    ensures var q := Next(k, p, e);
      && q.stopped == (e.Stop? || (!e.Reset? && p.stopped))
      && q.terminated == (e.Terminate? || (!e.Reset? && p.terminated))
      && q.pushed == p.pushed + if e.Push? && (k.TaskPool? || !(p.stopped || p.terminated)) then 1 else 0
  {
    hide Wake, Waiters, AllExited;
  }

  /** Starting makes the workers asked for, if there are none and the list was not stopped. */
  lemma {:induction false} StartMakesWorkers(k: Kind, p: Pool, n: nat, t: nat)
    requires Enabled(k, p, Start(n))
    ensures var q := Next(k, p, Start(n));
      if p.threads == map[] && !p.stopped && !p.terminated then
        (t in q.threads <==> t < n) && (t in q.threads ==> q.threads[t] == Outside)
      else
        q == p
  {
    if t < n { assert Range(0, n)[t] == t; }
  }

  // ----- when workers return -----

  /** There is nothing more to wait for. */
  predicate Over(p: Pool) { p.terminated || (p.stopped && p.list == []) }

  /** Makes a worker that has returned call again, or forgets it. */
  predicate Recalls(e: Event, t: nat) { e == Call(t) || e.Wait? || e.Destroy? }

  /** With its j-th step thread t found the list over, and it has not been called again. */
  ghost predicate ReturnedAt(k: Kind, events: seq<Event>, t: nat, j: nat) {
    && j < |events| && events[j] == Pop(t)
    && Possible(k, events[..j]) && Over(After(k, events[..j]))
    && forall i :: j < i < |events| ==> !Recalls(events[i], t)
  }

  predicate HasReturned(p: Pool, t: nat) { t in p.threads && p.threads[t].Exited? }

  /** One step of a thread, or of another. */
  lemma {:induction false} ReturnStep(k: Kind, p: Pool, e: Event, t: nat)
    requires Enabled(k, p, e)
    ensures HasReturned(Next(k, p, e), t) <==> (e == Pop(t) && Over(p)) || (HasReturned(p, t) && !Recalls(e, t))
  {
    hide Waiters;
    if e.Push? && Waiters(p) != {} { WaiterWaits(p, e.woken); }
  }

  lemma {:induction false} WaiterWaits(p: Pool, w: nat)
    requires w in Waiters(p)
    ensures w in p.threads && p.threads[w].Waiting?
  {
  }

  /** In every run a worker has returned if and only if at one of its steps the list was terminated, or
      stopped and empty, and it has not been called again since. */
  lemma {:induction false} ReturnsOnlyWhenDone(k: Kind, events: seq<Event>, t: nat)
    requires Possible(k, events)
    ensures HasReturned(After(k, events), t) <==> exists j :: ReturnedAt(k, events, t, j)
  {
    hide Enabled, Next, HasReturned, ReturnedAt, Over;
    if events == [] {
      NobodyReturned(k, t);
    } else {
      var front, e := events[..|events| - 1], events[|events| - 1];
      ReturnsOnlyWhenDone(k, front, t);
      ReturnStep(k, After(k, front), e, t);
      ReturnedLater(k, events, t);
    }
  }

  lemma {:induction false} NobodyReturned(k: Kind, t: nat)
    ensures Possible(k, []) && !HasReturned(After(k, []), t) && !exists j :: ReturnedAt(k, [], t, j)
  {
  }

  lemma {:induction false} ReturnedBefore(k: Kind, events: seq<Event>, t: nat, j: nat)
    requires j < |events| - 1
    ensures var n := |events| - 1;
      ReturnedAt(k, events, t, j) <==> ReturnedAt(k, events[..n], t, j) && !Recalls(events[n], t)
  {
    hide Over, After, Recalls, Possible;
    assert events[..|events| - 1][..j] == events[..j];
  }

  lemma {:induction false} ReturnedLast(k: Kind, events: seq<Event>, t: nat)
    requires events != [] && Possible(k, events)
    ensures var n := |events| - 1;
      Possible(k, events[..n]) && (ReturnedAt(k, events, t, n) <==> events[n] == Pop(t) && Over(After(k, events[..n])))
  {
    hide Over, Recalls, After;
  }

  lemma {:induction false} ReturnedLater(k: Kind, events: seq<Event>, t: nat)
    requires events != [] && Possible(k, events)
    ensures var n := |events| - 1; var front, e := events[..n], events[n];
      Possible(k, front) &&
      ((exists j :: ReturnedAt(k, events, t, j))
        <==> (e == Pop(t) && Over(After(k, front))) || (!Recalls(e, t) && exists j :: ReturnedAt(k, front, t, j)))
  {
    hide Over, After, Recalls, ReturnedAt, Possible;
    ReturnedLast(k, events, t);
    var n := |events| - 1;
    forall j: nat | j < n
      ensures ReturnedAt(k, events, t, j) <==> ReturnedAt(k, events[..n], t, j) && !Recalls(events[n], t)
    {
      ReturnedBefore(k, events, t, j);
    }
    forall j: nat ensures ReturnedAt(k, events, t, j) ==> j <= n { ReturnedIn(k, events, t, j); }
    forall j: nat ensures ReturnedAt(k, events[..n], t, j) ==> j < n { ReturnedIn(k, events[..n], t, j); }
  }

  lemma {:induction false} ReturnedIn(k: Kind, events: seq<Event>, t: nat, j: nat)
    ensures ReturnedAt(k, events, t, j) ==> j < |events|
  {
  }

  lemma {:induction false} GracefulStep(p: Pool, e: Event)
    requires Enabled(ConcurrentQueue, p, e)
    ensures Next(ConcurrentQueue, p, e).graceful <==> p.graceful && !e.Terminate? && !e.Reset?
    ensures !p.destroyed && !Next(ConcurrentQueue, p, e).destroyed
  {
    hide Waiters, Wake, AllExited;
  }

  /** A run of ConcurrentQueue is graceful if and only if nobody terminates or resets it: once stopped it
      accepts nothing. */
  lemma {:induction false} QueueIsGraceful(events: seq<Event>)
    requires Possible(ConcurrentQueue, events)
    ensures !After(ConcurrentQueue, events).destroyed
    ensures After(ConcurrentQueue, events).graceful
      <==> forall i :: 0 <= i < |events| ==> !events[i].Terminate? && !events[i].Reset?
  {
    hide Next, Enabled, Inv;
    if events != [] {
      var front, e := events[..|events| - 1], events[|events| - 1];
      QueueIsGraceful(front);
      GracefulStep(After(ConcurrentQueue, front), e);
      assert forall i :: 0 <= i < |front| ==> front[i] == events[i];
    }
  }

  /** After a graceful stop, when every worker has returned, every accepted item has been run. */
  lemma {:induction false} GracefulStopLosesNothing(k: Kind, events: seq<Event>, i: nat)
    requires Possible(k, events)
    requires var p := After(k, events); p.graceful && p.exits && !p.destroyed && AllExited(p)
    ensures var p := After(k, events); i < p.pushed <==> i in p.executed
  {
    hide Possible, After;
    EachItemOnce(k, events, i);
    var p := After(k, events);
    assert Inv(p);
    assert !exists t :: Held(p, t, i);
  }

  /** So ConcurrentQueue never loses an accepted item to stop. */
  lemma {:induction false} StoppedQueueLosesNothing(events: seq<Event>, i: nat)
    requires Possible(ConcurrentQueue, events)
    requires forall j :: 0 <= j < |events| ==> !events[j].Terminate? && !events[j].Reset?
    requires var p := After(ConcurrentQueue, events); p.exits && AllExited(p)
    ensures var p := After(ConcurrentQueue, events); i < p.pushed <==> i in p.executed
  {
    hide Possible, After, AllExited;
    QueueIsGraceful(events);
    GracefulStopLosesNothing(ConcurrentQueue, events, i);
  }

  lemma {:induction false} Extend(k: Kind, events: seq<Event>, e: Event)
    requires Possible(k, events) && Enabled(k, After(k, events), e)
    ensures Possible(k, events + [e]) && After(k, events + [e]) == Next(k, After(k, events), e)
  {
    hide Next, Enabled;
    assert (events + [e])[..|events|] == events;
  }

  // ----- an item pushed late -----

  lemma {:induction false} PrefixPossible(k: Kind, events: seq<Event>, n: nat)
    requires Possible(k, events) && n <= |events|
    ensures Possible(k, events[..n])
    ensures n < |events| ==> Enabled(k, After(k, events[..n]), events[n])
    ensures n < |events| ==>
      Possible(k, events[..n + 1]) && After(k, events[..n + 1]) == Next(k, After(k, events[..n]), events[n])
    decreases |events|
  {
    hide Enabled, Next, Inv;
    if n == |events| {
      assert events[..n] == events;
    } else if n == |events| - 1 {
      assert events[..n + 1] == events;
    } else {
      var front := events[..|events| - 1];
      PrefixPossible(k, front, n);
      assert front[..n] == events[..n] && front[..n + 1] == events[..n + 1];
    }
  }

  /** Pushes, stops, and what the workers do. */
  predicate Working(e: Event) { !e.Terminate? && !e.Reset? && !e.Wait? && !e.Destroy? }

  /** Once every worker of a started pool has returned nothing is taken off the list any more. */
  lemma {:induction false} ExitedStep(p: Pool, e: Event)
    requires Enabled(TaskPool, p, e) && Working(e) && AllExited(p) && p.threads != map[]
    ensures var q := Next(TaskPool, p, e); AllExited(q) && q.threads != map[] && q.started == p.started
  {
    assert Waiters(p) == {};
    if e.Stop? { assert Wake(p.threads).Keys == p.threads.Keys; }
  }

  lemma {:induction false} ExitedStays(events: seq<Event>, n: nat)
    requires Possible(TaskPool, events) && n <= |events| && Possible(TaskPool, events[..n])
    requires forall i :: n <= i < |events| ==> Working(events[i])
    requires var p := After(TaskPool, events[..n]); AllExited(p) && p.threads != map[]
    ensures AllExited(After(TaskPool, events))
    ensures After(TaskPool, events).started == After(TaskPool, events[..n]).started
    decreases |events|
  {
    hide Enabled, Next, Inv, AllExited, Working;
    if n == |events| {
      assert events[..n] == events;
    } else {
      ExitedStaysLonger(events, n);
    }
  }

  lemma {:induction false} ExitedStaysLonger(events: seq<Event>, n: nat)
    requires Possible(TaskPool, events) && n < |events| && Possible(TaskPool, events[..n])
    requires forall i :: n <= i < |events| ==> Working(events[i])
    requires var p := After(TaskPool, events[..n]); AllExited(p) && p.threads != map[]
    ensures var q := After(TaskPool, events);
      AllExited(q) && q.threads != map[] && q.started == After(TaskPool, events[..n]).started
    decreases |events|
  {
    hide Enabled, Next, Inv, AllExited, Working, After, Possible;
    var m := |events| - 1;
    var front := events[..m];
    PrefixPossible(TaskPool, events, m);
    assert events[..m + 1] == events && front[..n] == events[..n];
    if n < m {
      ExitedStaysLonger(front, n);
    }
    ExitedStep(After(TaskPool, front), events[m]);
  }

  /** The item i has been accepted, and some worker has still to return unless it has been taken. */
  predicate Served(p: Pool, i: nat) { !p.terminated && i < p.pushed && (!AllExited(p) || i < p.started) }

  /** The last worker returns only when the list is empty. */
  lemma {:induction false} ServedStep(p: Pool, e: Event, i: nat)
    requires InOrder(p) && Enabled(TaskPool, p, e) && Working(e) && Served(p, i)
    ensures Served(Next(TaskPool, p, e), i)
  {
    hide Range, Wake, InOrder, Waiters;
    var q := Next(TaskPool, p, e);
    if p.list == [] { NothingLeft(p); }
    if !AllExited(p) {
      var t: nat :| t in p.threads && !p.threads[t].Exited?;
      match e
      case Stop => WakesOne(p.threads, t);
      case Push(w) => assert t in q.threads && !q.threads[t].Exited?;
      case Pop(u) => if u != t || p.list != [] || !p.stopped { assert t in q.threads && !q.threads[t].Exited?; }
      case Finish(_) => assert t in q.threads && !q.threads[t].Exited?;
      case Start(_) => assert t in q.threads && !q.threads[t].Exited?;
      case _ =>
    }
  }

  lemma {:induction false} WakesOne(threads: map<nat, Thread>, t: nat)
    requires t in threads
    ensures t in Wake(threads) && (Wake(threads)[t].Exited? <==> threads[t].Exited?)
  {
  }

  lemma {:induction false} NothingLeft(p: Pool)
    requires InOrder(p) && !p.destroyed && p.list == []
    ensures p.started == p.pushed
  {
    assert |Range(p.started, p.pushed)| == 0;
  }

  lemma {:induction false} ServedStays(events: seq<Event>, n: nat, i: nat)
    requires Possible(TaskPool, events) && n <= |events| && Possible(TaskPool, events[..n])
    requires forall j :: n <= j < |events| ==> Working(events[j])
    requires Served(After(TaskPool, events[..n]), i)
    ensures Served(After(TaskPool, events), i)
    decreases |events|
  {
    hide Enabled, Next, Served, Working, After, Possible, InOrder, Accounted, NoLostWakeUp;
    if n == |events| {
      assert events[..n] == events;
    } else {
      var m := |events| - 1;
      var front := events[..m];
      PrefixPossible(TaskPool, events, m);
      assert events[..m + 1] == events && front[..n] == events[..n];
      ServedStays(front, n, i);
      assert Inv(After(TaskPool, front));
      ServedStep(After(TaskPool, front), events[m], i);
    }
  }

  lemma {:induction false} NeverTerminated(events: seq<Event>)
    requires Possible(TaskPool, events) && forall i :: 0 <= i < |events| ==> Working(events[i])
    ensures !After(TaskPool, events).terminated
  {
    hide Enabled, Inv, Wake, Waiters;
    if events != [] {
      var front := events[..|events| - 1];
      assert forall i :: 0 <= i < |front| ==> front[i] == events[i];
      NeverTerminated(front);
      assert Working(events[|events| - 1]);
    }
  }

  lemma {:induction false} PushServes(p: Pool, w: nat)
    requires Enabled(TaskPool, p, Push(w)) && !p.terminated && !AllExited(p)
    ensures Served(Next(TaskPool, p, Push(w)), p.pushed)
  {
    if Waiters(p) != {} { WaiterWaits(p, w); }
    var t :| t in p.threads && !p.threads[t].Exited?;
    assert t in Next(TaskPool, p, Push(w)).threads;
  }

  /** An item that TaskPool accepts, before or after stop, has been run when all workers have returned, if and
      only if some worker had not yet returned when it was pushed. */
  lemma {:induction false} PushedInTime(events: seq<Event>, n: nat)
    requires Possible(TaskPool, events) && n < |events| && events[n].Push?
    requires forall i :: 0 <= i < |events| ==> Working(events[i])
    requires Possible(TaskPool, events[..n]) && After(TaskPool, events[..n]).threads != map[]
    requires AllExited(After(TaskPool, events))
    ensures var p, q := After(TaskPool, events[..n]), After(TaskPool, events);
      p.pushed in q.executed <==> !AllExited(p)
  {
    hide Enabled, Next, Served, Working, After, Possible, InOrder, NoLostWakeUp, AllExited;
    var p, q := After(TaskPool, events[..n]), After(TaskPool, events);
    PrefixPossible(TaskPool, events, n);
    assert Inv(p) && Inv(q);
    if AllExited(p) {
      ExitedStays(events, n);
      StartedIsAccepted(p);
    } else {
      assert forall i :: 0 <= i < n ==> events[..n][i] == events[i];
      NeverTerminated(events[..n]);
      PushServes(p, events[n].woken);
      ServedStays(events, n + 1, p.pushed);
      ServedIsExecuted(q, p.pushed);
    }
  }

  lemma {:induction false} StartedIsAccepted(p: Pool)
    requires InOrder(p)
    ensures p.started <= p.pushed
  {
  }

  lemma {:induction false} ServedIsExecuted(p: Pool, i: nat)
    requires Accounted(p) && Served(p, i) && AllExited(p)
    ensures i in p.executed
  {
    assert !exists t :: Held(p, t, i);
  }

  /** TaskPool accepts an item after stop, and then nobody may be left to run it. */
  lemma {:induction false} LatePushIsLost()
    ensures exists events :: Possible(TaskPool, events) && var p := After(TaskPool, events);
      AllExited(p) && p.exits && !p.terminated && p.list == [0]
  {
    hide Possible, After, Next, Enabled;
    Begin();
    var e1, e2, e3, e4 := Start(1), Stop, Pop(0), Push(0);
    LateSteps();
    Extend(TaskPool, [], e1);
    Extend(TaskPool, [] + [e1], e2);
    Extend(TaskPool, [] + [e1] + [e2], e3);
    Extend(TaskPool, [] + [e1] + [e2] + [e3], e4);
    assert After(TaskPool, [] + [e1] + [e2] + [e3] + [e4]) == LATE[4];
    assert LATE[4].threads[0] == Exited;
  }

  /** A pool of one worker is started, stopped, left by its worker, and given an item. */
  const LATE: seq<Pool> := [
    EMPTY,
    EMPTY.(threads := map[0 := Outside]),
    EMPTY.(threads := map[0 := Outside], stopped := true),
    EMPTY.(threads := map[0 := Exited], stopped := true, exits := true),
    EMPTY.(threads := map[0 := Exited], stopped := true, exits := true, graceful := false, list := [0], pushed := 1)]

  lemma {:induction false} LateSteps()
    ensures Enabled(TaskPool, LATE[0], Start(1)) && Next(TaskPool, LATE[0], Start(1)) == LATE[1]
    ensures Enabled(TaskPool, LATE[1], Stop) && Next(TaskPool, LATE[1], Stop) == LATE[2]
    ensures Enabled(TaskPool, LATE[2], Pop(0)) && Next(TaskPool, LATE[2], Pop(0)) == LATE[3]
    ensures Enabled(TaskPool, LATE[3], Push(0)) && Next(TaskPool, LATE[3], Push(0)) == LATE[4]
  {
    assert Range(0, 1) == [0];
    assert Next(TaskPool, LATE[0], Start(1)).threads == map[0 := Outside];
    assert Wake(map[0 := Outside]) == map[0 := Outside];
    assert map[0 := Outside][0 := Exited] == map[0 := Exited];
    assert Waiters(LATE[3]) == {} && [] + [0] == [0];
  }

  lemma {:induction false} Begin()
    ensures Possible(TaskPool, []) && After(TaskPool, []) == EMPTY
  {
  }
}
