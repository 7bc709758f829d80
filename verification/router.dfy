/** `Router` (http/httphi/router.go): the steps of the exchange pool, each an atomic method. */
module Routers {
  import opened Options
  import opened ExchangePool

  class Router {
    var gen: nat
    const workers: nat
    var size: nat
    var acquired: set<nat>
    var conn: map<nat, Conn>
    var nextFree: map<nat, nat>
    var freeList: Option<nat>
    var open: bool
    var pending: seq<Task>
    var draining: seq<Task>
    var running: seq<Task>

    ghost function View(): Pool
      reads this
    {
      Pool(gen, workers, size, acquired, conn, nextFree, freeList, open, pending, draining, running)
    }

    ghost predicate Valid()
      reads this
    {
      Inv(View())
    }

    /** The connections taken and not yet done with. */
    ghost function Tasks(): multiset<Task>
      reads this
    {
      multiset(View().Tasks())
    }

    constructor (workers: nat)
      ensures View() == Configured(workers) && Valid() && Tasks() == multiset{}
    {
      ConfiguredInOrder(workers);
      gen, this.workers, size, acquired, conn, nextFree, freeList := 1, workers, workers, {}, map[], map[], None;
      open, pending, draining, running := workers > 0, [], [], [];
    }

    /** Claims an exchange for `c`; false leaves it untouched. */
    method AcquireExch(e: nat, c: Conn) returns (ok: bool)
      modifies this`acquired, this`conn, this`nextFree
      ensures ok == (e !in old(acquired))
      ensures View() == if ok then Acquire(old(View()), e, c) else old(View())
    {
      if e in acquired {
        return false;
      }
      acquired, conn, nextFree := acquired + {e}, conn[e := c], nextFree - {e};
      return true;
    }

    method ReleaseExch(e: nat)
      modifies this`acquired, this`conn
      ensures View() == Release(old(View()), e)
    {
      conn := conn - {e};
      acquired := acquired - {e};
    }

    /** The freelist's successor is read before the exchange is acquired, which clears its link. */
    method GetExchLocked(c: Conn) returns (e: Option<nat>)
      requires workers == 0 ==> size !in acquired
      modifies this`acquired, this`conn, this`nextFree, this`freeList, this`size
      ensures (View(), e) == GetExch(old(View()), c)
    {
      if freeList.Some? {
        var head := freeList.value;
        var next := if head in nextFree then Some(nextFree[head]) else None;
        var ok := AcquireExch(head, c);
        if ok {
          freeList := next;
          return Some(head);
        }
      }
      if workers > 0 {
        for i := 0 to size
          invariant View() == old(View()) && FirstFree(acquired, size, 0) == FirstFree(acquired, size, i)
        {
          var ok := AcquireExch(i, c);
          if ok {
            return Some(i);
          }
        }
        return None;
      }
      size := size + 1;
      var ok := AcquireExch(size - 1, c);
      return Some(size - 1);
    }

    /** Takes a connection on an exchange nobody has; refused, it changes nothing, and the queue is never too short. */
    method HandleConn(c: Conn) returns (err: HandleErr)
      requires Valid()
      modifies this
      ensures Valid() && (View(), err) == Handle(old(View()), c)
      ensures err != PacketDrop && (err == TornDown <==> workers > 0 && !old(open))
      ensures err == Exhausted <==> workers > 0 && old(open) && forall e: nat :: e < old(size) ==> e in old(acquired)
      ensures err != Accepted ==> View() == old(View())
      ensures err == Accepted ==>
              exists e: nat :: e !in old(acquired) && Tasks() == old(Tasks()) + multiset{Task(e, c, gen)}
    {
      hide GetExch, Inv, Pool.Tasks;
      HandleKeeps(View(), c);
      HandleOutcome(View(), c);
      if workers > 0 && !open {
        return TornDown;
      }
      var e := GetExchLocked(c);
      if e.None? {
        return Exhausted;
      } else if workers == 0 {
        running := running + [Task(e.value, c, gen)];
        return Accepted;
      }
      err := Enqueue(Task(e.value, c, gen));
    }

    /** Puts a job into the queue; a full queue drops it. */
    method Enqueue(t: Task) returns (err: HandleErr)
      modifies this`pending, this`acquired
      ensures View() == if |old(pending)| < workers then old(View()).(pending := old(pending) + [t])
              else old(View()).(acquired := old(acquired) - {t.exch})
      ensures err == if |old(pending)| < workers then Accepted else PacketDrop
    {
      if |pending| < workers {
        pending := pending + [t];
        return Accepted;
      }
      acquired := acquired - {t.exch};
      return PacketDrop;
    }

    /** A worker takes the oldest job and serves it: no connection comes or goes. */
    method StartJob()
      requires Valid() && pending != []
      modifies this`pending, this`running
      ensures Valid() && View() == Step(old(View()), DoStart)
      ensures Tasks() == old(Tasks()) && running == old(running) + [old(pending)[0]]
    {
      hide Inv, Pool.Tasks;
      StepKeeps(View(), DoStart);
      MoveConserves(View(), DoStart);
      pending, running := pending[1..], running + [pending[0]];
    }

    /** A worker of a generation that was shut down drops the job, and its exchange is free again. */
    method DrainJob()
      requires Valid() && draining != []
      modifies this`draining, this`acquired, this`conn
      ensures Valid() && View() == Step(old(View()), DoDrain)
      ensures Tasks() + multiset{old(draining)[0]} == old(Tasks()) && old(draining)[0].exch !in acquired
    {
      hide Inv, Pool.Tasks;
      StepKeeps(View(), DoDrain);
      EndConserves(View(), DoDrain);
      var t := draining[0];
      draining := draining[1..];
      ReleaseExch(t.exch);
    }

    /** Offers the exchange to the freelist, unless its generation is over or the list is full. */
    method FreeExchange(g: nat, e: nat)
      modifies this`nextFree, this`freeList, this`acquired, this`conn
      ensures View() == FreeExch(old(View()), g, e)
    {
      if g != gen {
        ReleaseExch(e);
        return;
      }
      var depth := 0;
      var node := freeList;
      while node.Some? && depth < FREELIST_MAX_DEPTH
        invariant 0 <= depth <= FREELIST_MAX_DEPTH
        invariant Depth(nextFree, freeList, FREELIST_MAX_DEPTH) ==
                  depth + Depth(nextFree, node, FREELIST_MAX_DEPTH - depth)
        decreases FREELIST_MAX_DEPTH - depth
      {
        depth := depth + 1;
        node := if node.value in nextFree then Some(nextFree[node.value]) else None;
      }
      if depth < FREELIST_MAX_DEPTH {
        nextFree := if freeList.Some? then nextFree[e := freeList.value] else nextFree - {e};
        freeList := Some(e);
      } else {
        nextFree := nextFree - {e};
      }
      ReleaseExch(e);
    }

    /** A handler returned: its connection is done with and its exchange free again. */
    method FinishTask(i: nat)
      requires Valid() && i < |running|
      modifies this
      ensures Valid() && View() == Step(old(View()), DoFinish(i))
      ensures Tasks() + multiset{old(running)[i]} == old(Tasks()) && old(running)[i].exch !in acquired
    {
      hide FreeExch, Inv, Pool.Tasks;
      StepKeeps(View(), DoFinish(i));
      EndConserves(View(), DoFinish(i));
      var t := running[i];
      FreeReleases(View(), t.gen, t.exch);
      FreeExchange(t.gen, t.exch);
      running := running[..i] + running[i + 1..];
    }

    /** A new generation: no connection comes or goes, and jobs left in the queue are for the old workers to drop. */
    method Shutdown()
      requires Valid()
      modifies this
      ensures Valid() && View() == Step(old(View()), DoShutdown)
      ensures Tasks() == old(Tasks()) && gen != old(gen) && pending == []
      ensures forall c :: Handle(View(), c).1 == TornDown <==> workers > 0
    {
      hide Inv, Handle, Pool.Tasks;
      StepKeeps(View(), DoShutdown);
      MoveConserves(View(), DoShutdown);
      forall c
        ensures Handle(Step(View(), DoShutdown), c).1 == TornDown <==> workers > 0
      {
        ShutdownRefusesExactly(View(), c);
      }
      gen := gen + 1;
      open, draining, pending := false, draining + pending, [];
    }
  }

  lemma FreeReleases(p: Pool, gen: nat, e: nat)
    ensures e !in FreeExch(p, gen, e).acquired
  {
  }

  /** When each outcome of taking a connection comes about. */
  lemma HandleOutcome(p: Pool, c: Conn)
    requires Inv(p)
    ensures Handle(p, c).1 == TornDown <==> p.workers > 0 && !p.open
    ensures Handle(p, c).1 == Exhausted <==> p.workers > 0 && p.open && forall e: nat :: e < p.size ==> e in p.acquired
    ensures Handle(p, c).1 == Accepted ==>
              exists e: nat :: e !in p.acquired
                && multiset(Handle(p, c).0.Tasks()) == multiset(p.Tasks()) + multiset{Task(e, c, p.gen)}
    ensures p.workers == 0 ==> p.size !in p.acquired
  {
    hide GetExch, TasksOk, FreeOk;
    GetKeeps(p, c);
    HandleKeeps(p, c);
    TakeConserves(p, c);
    AcquiredHas(p);
    if Handle(p, c).1 == Accepted {
      var e := GetExch(p, c).1.value;
      assert e !in p.acquired && TakenBy(p, DoHandle(c)) == multiset{Task(e, c, p.gen)};
    }
  }
}
