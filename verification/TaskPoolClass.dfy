/**
  TaskPool and ConcurrentQueue with their fields. Each method is one critical section, and does what the
  protocol of TaskPools says.
*/
module TaskPoolClasses {
  import opened TaskPools

  /** What has happened so far. */
  datatype Log = Log(pushed: nat, started: nat, executed: seq<nat>, disposed: seq<nat>, destroyed: bool, exits: bool,
                     graceful: bool)

  class TaskQueue {
    const kind: Kind
    var list: seq<nat>
    var stopped: bool
    var terminated: bool
    var threads: map<nat, Thread>
    ghost var log: Log

    ghost function View(): Pool
      reads this
    {
      Pool(list, stopped, terminated, threads, log.pushed, log.started, log.executed, log.disposed, log.destroyed,
           log.exits, log.graceful)
    }

    constructor (kind: Kind)
      ensures this.kind == kind && View() == EMPTY
    {
      this.kind := kind;
      list, stopped, terminated, threads := [], false, false, map[];
      log := Log(0, 0, [], [], false, false, true);
    }

    /** Some blocked thread, if there is one; which is up to the system. */
    method NotifyOne(woken: nat)
      requires Waiters(View()) != {} ==> woken in Waiters(View())
      modifies `threads
      ensures threads == if Waiters(old(View())) != {} then old(threads)[woken := Notified] else old(threads)
    {
      if t :| t in threads && threads[t].Waiting? {
        assert t in Waiters(View());
        threads := threads[woken := Notified];
      }
    }

    method NotifyAll()
      modifies `threads
      ensures threads == Wake(old(threads))
    {
      threads := map t | t in threads :: if threads[t].Waiting? then Notified else threads[t];
    }

    /** TaskPool::start. */
    method StartWorkers(count: nat) returns (ok: bool)
      requires kind.TaskPool? && Enabled(kind, View(), Start(count))
      modifies this
      ensures View() == Next(kind, old(View()), Start(count))
      ensures ok <==> count != 0 && old(threads) == map[] && !old(stopped) && !old(terminated)
    {
      if count == 0 || threads != map[] || stopped || terminated {
        return false;
      }
      var i := 0;
      while i != count
        invariant i <= count && threads == map t | t in Range(0, i) :: Outside
        invariant View() == old(View()).(threads := threads)
      {
        RangeLast(0, i);
        threads := threads[i := Outside];
        i := i + 1;
      }
      ok := true;
    }

    /** TaskPool::push and ConcurrentQueue::enqueue. */
    method Enqueue(item: nat, woken: nat) returns (ok: bool)
      requires item == log.pushed && Enabled(kind, View(), Push(woken))
      modifies this
      ensures View() == Next(kind, old(View()), Push(woken))
      ensures ok == !Refuses(kind, old(View()))
    {
      hide Waiters;
      if kind.ConcurrentQueue? && (terminated || stopped) {
        return false;
      }
      NotifyOne(woken);
      list := list + [item];
      log := log.(pushed := log.pushed + 1, graceful := log.graceful && !stopped);
      ok := true;
    }

    /** One pass of the loop of TaskPool::pop and ConcurrentQueue::dequeue: an item, or nothing because the
        thread returns or blocks. */
    method PopOnce(t: nat) returns (item: seq<nat>)
      requires Enabled(kind, View(), Pop(t))
      modifies this
      ensures View() == Next(kind, old(View()), Pop(t))
      ensures item == if old(terminated) || old(list) == [] then [] else [old(list)[0]]
    {
      item := [];
      if terminated {
        Return(t);
      } else if list != [] {
        item := [list[0]];
        TakeFront(t);
      } else if stopped {
        Return(t);
      } else {
        threads := threads[t := Waiting];
      }
    }

    method Return(t: nat)
      modifies `threads, `log
      ensures View() == Exit(old(View()), t)
    {
      threads := threads[t := Exited];
      log := log.(exits := true);
    }

    method TakeFront(t: nat)
      requires list != []
      modifies `threads, `list, `log
      ensures View() == Take(old(View()), t)
    {
      threads := threads[t := Holding(list[0])];
      list := list[1..];
      log := log.(started := log.started + 1);
    }

    /** ConcurrentQueue::tryDequeue. */
    method TryDequeue(t: nat) returns (item: seq<nat>)
      requires Enabled(kind, View(), TryPop(t))
      modifies this
      ensures View() == Next(kind, old(View()), TryPop(t))
      ensures item == if old(terminated) || old(list) == [] then [] else [old(list)[0]]
    {
      if terminated || list == [] {
        return [];
      }
      item := [list[0]];
      TakeFront(t);
    }

    /** The worker has run its item. */
    method Execute(t: nat)
      requires Enabled(kind, View(), Finish(t))
      modifies `threads, `log
      ensures View() == Next(kind, old(View()), Finish(t))
    {
      log := log.(executed := log.executed + [threads[t].task]);
      threads := threads[t := Outside];
    }

    method StopAll()
      requires Enabled(kind, View(), Stop)
      modifies this
      ensures View() == Next(kind, old(View()), Stop)
    {
      stopped := true;
      NotifyAll();
    }

    method TerminateAll()
      requires Enabled(kind, View(), Terminate)
      modifies this
      ensures View() == Next(kind, old(View()), Terminate)
    {
      terminated := true;
      NotifyAll();
      log := log.(graceful := false);
    }

    method ResetAll()
      requires Enabled(kind, View(), Reset)
      modifies this
      ensures View() == Next(kind, old(View()), Reset)
    {
      stopped := false;
      terminated := false;
      log := log.(graceful := false);
    }

    /** TaskPool::wait, once every worker can be joined. */
    method JoinAll()
      requires Enabled(kind, View(), Wait)
      modifies `threads
      ensures View() == Next(kind, old(View()), Wait)
    {
      threads := map[];
    }

    /** The destructor, once every worker can be joined: what is left on the list is disposed. */
    method Dispose()
      requires Enabled(kind, View(), Destroy)
      modifies `threads, `list, `log
      ensures View() == Next(kind, old(View()), Destroy)
    {
      JoinAll();
      log := log.(disposed := list, destroyed := true);
      list := [];
    }

    /** TaskPool::process, undisturbed by other threads: the worker runs every item on the list, in order, and
        then returns or blocks. A terminated list is left as it is. */
    method Process(t: nat)
      requires Inv(View()) && !log.destroyed && t in threads && threads[t].Outside?
      modifies this
      ensures Inv(View()) && t in threads
      ensures threads[t] == if old(terminated) || old(stopped) then Exited else Waiting
      ensures if old(terminated) then list == old(list) && log.executed == old(log.executed)
              else list == [] && log.executed == old(log.executed) + old(list)
    {
      hide Inv;
      assert [] + list == list && log.executed + [] == log.executed;
      while true
        invariant Inv(View()) && !log.destroyed && t in threads && threads[t].Outside?
        invariant stopped == old(stopped) && terminated == old(terminated)
        invariant log.executed + list == old(log.executed) + old(list)
        invariant terminated ==> list == old(list) && log.executed == old(log.executed)
        decreases |list|
      {
        ghost var before := View();
        NextKeeps(kind, before, Pop(t));
        var item := PopOnce(t);
        if item == [] {
          assert log.executed + [] == log.executed;
          break;
        }
        assert before.list == item + list;
        assert before.executed + before.list == before.executed + item + list;
        NextKeeps(kind, View(), Finish(t));
        Execute(t);
      }
    }
  }
}
