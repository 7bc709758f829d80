/**
  The router's pool of exchanges (http/httphi/router.go, http/httphi/exchange.go) as a step system: a
  step is what the source does under the router's lock, or a worker's dequeue. Exchanges are numbered;
  `next` holds the freelist links, a missing entry being the nil link.
*/
module ExchangePool {
  import opened Options

  type Conn = nat

  const FREELIST_MAX_DEPTH: nat := 5

  /** A connection being served, or waiting for a worker, taken under generation `gen`. */
  datatype Task = Task(exch: nat, conn: Conn, gen: nat)

  datatype Pool = Pool(
    gen: nat,
    workers: nat,             // 0 when goroutines are allocated per connection
    size: nat,                // exchanges allocated
    acquired: set<nat>,
    conn: map<nat, Conn>,
    next: map<nat, nat>,
    head: Option<nat>,
    open: bool,               // the job queue exists
    pending: seq<Task>,       // in the job queue
    draining: seq<Task>,      // left in the queue of a generation that was shut down
    running: seq<Task>
  ) {
    /** Every connection taken and not yet done with. */
    function Tasks(): seq<Task> {
      pending + draining + running
    }
  }

  datatype HandleErr = Accepted | TornDown | Exhausted | PacketDrop

  /** A router just configured. */
  function Configured(workers: nat): Pool {
    Pool(1, workers, workers, {}, map[], map[], None, workers > 0, [], [], [])
  }

  function Acquire(p: Pool, e: nat, c: Conn): Pool {
    p.(acquired := p.acquired + {e}, conn := p.conn[e := c], next := p.next - {e})
  }

  function Release(p: Pool, e: nat): Pool {
    p.(acquired := p.acquired - {e}, conn := p.conn - {e})
  }

  /** First exchange at or after `from` that is not acquired, or `size`. */
  function FirstFree(acquired: set<nat>, size: nat, from: nat): (e: nat)
    requires from <= size
    ensures from <= e <= size && (e < size ==> e !in acquired)
    ensures forall i :: from <= i < e ==> i in acquired
    decreases size - from
  {
    if from == size || from !in acquired then from else FirstFree(acquired, size, from + 1)
  }

  /** `getExchLocked`: the freelist's head, else the pool's first free exchange, else a new one. */
  function GetExch(p: Pool, c: Conn): (Pool, Option<nat>) {
    if p.head.Some? && p.head.value !in p.acquired then
      var h := p.head.value;
      (Acquire(p, h, c).(head := if h in p.next then Some(p.next[h]) else None), Some(h))
    else if p.workers > 0 then
      var e := FirstFree(p.acquired, p.size, 0);
      if e < p.size then (Acquire(p, e, c), Some(e)) else (p, None)
    else (Acquire(p.(size := p.size + 1), p.size, c), Some(p.size))
  }

  function Handle(p: Pool, c: Conn): (Pool, HandleErr) {
    if p.workers > 0 && !p.open then (p, TornDown)
    else
      var (q, e) := GetExch(p, c);
      if e.None? then (q, Exhausted)
      else
        var t := Task(e.value, c, p.gen);
        if p.workers == 0 then (q.(running := q.running + [t]), Accepted)
        else if |q.pending| < p.workers then (q.(pending := q.pending + [t]), Accepted)
        else (q.(acquired := q.acquired - {e.value}), PacketDrop)
  }

  /** Nodes on the chain from `head`, up to `most`. */
  function Depth(next: map<nat, nat>, head: Option<nat>, most: nat): (d: nat)
    ensures d <= most
    decreases most
  {
    if head.None? || most == 0 then 0
    else 1 + Depth(next, if head.value in next then Some(next[head.value]) else None, most - 1)
  }

  /** `freeExch` for a task that ran under generation `gen`. */
  function FreeExch(p: Pool, gen: nat, e: nat): Pool {
    if gen != p.gen then Release(p, e)
    else if Depth(p.next, p.head, FREELIST_MAX_DEPTH) < FREELIST_MAX_DEPTH then
      Release(p, e).(next := if p.head.Some? then p.next[e := p.head.value] else p.next - {e}, head := Some(e))
    else Release(p, e).(next := p.next - {e})
  }

  datatype Op =
    | DoHandle(c: Conn)
    | DoStart              // a worker takes a job
    | DoDrain              // a worker takes a job left from a generation that was shut down
    | DoFinish(i: nat)     // a handler returns
    | DoShutdown

  predicate Enabled(p: Pool, op: Op) {
    match op
    case DoHandle(_) => true
    case DoStart => p.pending != []
    case DoDrain => p.draining != []
    case DoFinish(i) => i < |p.running|
    case DoShutdown => true
  }

  function Step(p: Pool, op: Op): Pool
    requires Enabled(p, op)
  {
    match op
    case DoHandle(c) => Handle(p, c).0
    case DoStart => p.(pending := p.pending[1..], running := p.running + [p.pending[0]])
    case DoDrain => Release(p, p.draining[0].exch).(draining := p.draining[1..])
    case DoFinish(i) =>
      FreeExch(p, p.running[i].gen, p.running[i].exch).(running := p.running[..i] + p.running[i + 1..])
    case DoShutdown => p.(gen := p.gen + 1, open := false, pending := [], draining := p.draining + p.pending)
  }

  // ---- the invariant

  /** `free` is the chain from `head`. */
  ghost predicate Links(next: map<nat, nat>, head: Option<nat>, free: seq<nat>) {
    && head == (if free == [] then None else Some(free[0]))
    && forall i :: 0 <= i < |free| ==> Linked(next, free, i)
  }

  ghost predicate Linked(next: map<nat, nat>, free: seq<nat>, i: nat)
    requires i < |free|
  {
    if i + 1 < |free| then free[i] in next && next[free[i]] == free[i + 1] else free[i] !in next
  }

  ghost predicate NoRepeats(free: seq<nat>) {
    forall i, j :: 0 <= i < j < |free| ==> free[i] != free[j]
  }

  /** The freelist is a short chain of distinct exchanges, none of them acquired. */
  ghost predicate FreeOk(p: Pool, free: seq<nat>) {
    && Links(p.next, p.head, free) && NoRepeats(free) && |free| <= FREELIST_MAX_DEPTH
    && forall i :: 0 <= i < |free| ==> free[i] < p.size && free[i] !in p.acquired
  }

  ghost predicate Distinct(tasks: seq<Task>) {
    forall i, j :: 0 <= i < j < |tasks| ==> tasks[i].exch != tasks[j].exch
  }

  ghost predicate Has(tasks: seq<Task>, e: nat) {
    exists i :: 0 <= i < |tasks| && tasks[i].exch == e
  }

  /** A task's exchange is acquired and holds the task's connection. */
  ghost predicate Serving(p: Pool, t: Task) {
    t.exch < p.size && t.exch in p.acquired && t.exch in p.conn && p.conn[t.exch] == t.conn
  }

  /** Each connection has an exchange of its own, and each acquired exchange a connection. */
  ghost predicate TasksOk(p: Pool) {
    && Distinct(p.Tasks())
    && (forall i :: 0 <= i < |p.Tasks()| ==> Serving(p, p.Tasks()[i]))
    && (forall e :: e in p.acquired ==> Has(p.Tasks(), e))
  }

  ghost predicate ModeOk(p: Pool) {
    && (p.workers > 0 ==> p.size == p.workers) && (p.workers == 0 ==> p.pending == [] && p.draining == [])
    && (!p.open ==> p.pending == [])
  }

  ghost predicate Inv(p: Pool) {
    ModeOk(p) && TasksOk(p) && exists free :: FreeOk(p, free)
  }

  // ---- tasks

  lemma Insert(a: seq<Task>, b: seq<Task>, t: Task)
    requires Distinct(a + b) && !Has(a + b, t.exch)
    ensures Distinct(a + [t] + b)
    ensures forall e :: Has(a + [t] + b, e) <==> Has(a + b, e) || e == t.exch
    ensures forall i :: 0 <= i < |a + [t] + b| ==> (a + [t] + b)[i] == t || (a + [t] + b)[i] in a + b
  {
    var old_, new_ := a + b, a + [t] + b;
    forall i, j | 0 <= i < j < |new_|
      ensures new_[i].exch != new_[j].exch
    {
      assert i < |a| ==> old_[i] == new_[i];
      assert i > |a| ==> old_[i - 1] == new_[i];
      assert j < |a| ==> old_[j] == new_[j];
      assert j > |a| ==> old_[j - 1] == new_[j];
    }
    forall e
      ensures Has(new_, e) <==> Has(old_, e) || e == t.exch
    {
      if Has(old_, e) {
        var i :| 0 <= i < |old_| && old_[i].exch == e;
        assert new_[if i < |a| then i else i + 1].exch == e;
      }
      if Has(new_, e) {
        var i :| 0 <= i < |new_| && new_[i].exch == e;
        assert i != |a| ==> old_[if i < |a| then i else i - 1].exch == e;
      }
      assert new_[|a|] == t;
    }
  }

  lemma Remove(a: seq<Task>, b: seq<Task>, t: Task)
    requires Distinct(a + [t] + b)
    ensures Distinct(a + b) && !Has(a + b, t.exch)
    ensures forall e :: Has(a + b, e) <==> Has(a + [t] + b, e) && e != t.exch
    ensures forall i :: 0 <= i < |a + b| ==> (a + b)[i] in a + [t] + b
  {
    var old_, new_ := a + [t] + b, a + b;
    forall i | 0 <= i < |new_|
      ensures new_[i] == old_[if i < |a| then i else i + 1] && new_[i].exch != t.exch
    {
      assert old_[|a|] == t;
    }
    forall e | Has(old_, e) && e != t.exch
      ensures Has(new_, e)
    {
      var i :| 0 <= i < |old_| && old_[i].exch == e;
      assert new_[if i < |a| then i else i - 1].exch == e;
    }
  }

  lemma {:induction false} AtMost(tasks: seq<Task>, s: set<nat>)
    requires Distinct(tasks) && forall i :: 0 <= i < |tasks| ==> tasks[i].exch in s
    ensures |tasks| <= |s|
    decreases |tasks|
  {
    if tasks != [] {
      var last := tasks[|tasks| - 1];
      AtMost(tasks[..|tasks| - 1], s - {last.exch});
    }
  }

  function Below(n: nat): (s: set<nat>)
    ensures |s| == n && forall e: nat :: e in s <==> e < n
  {
    if n == 0 then {} else Below(n - 1) + {n - 1}
  }

  /** No more connections than exchanges. */
  lemma PoolBound(p: Pool)
    requires TasksOk(p)
    ensures |p.Tasks()| <= p.size
  {
    forall i | 0 <= i < |p.Tasks()|
      ensures p.Tasks()[i].exch in Below(p.size)
    {
      assert Serving(p, p.Tasks()[i]);
    }
    AtMost(p.Tasks(), Below(p.size));
  }

  // ---- steps

  /** An exchange taken from the freelist's head leaves the rest of the chain. */
  lemma PopKeeps(p: Pool, c: Conn, free: seq<nat>)
    requires FreeOk(p, free) && free != []
    ensures var (q, e) := GetExch(p, c);
            e == Some(free[0]) && Taken(p, q, free[0], c) && FreeOk(q, free[1..])
  {
    var q := GetExch(p, c).0;
    assert Linked(p.next, free, 0);
    assert free[0] !in p.acquired;
    forall i | 0 <= i < |free| - 1
      ensures Linked(q.next, free[1..], i) && free[1..][i] != free[0]
    {
      assert Linked(p.next, free, i + 1);
    }
  }

  /** What taking exchange `e` for `c` changes, apart from the freelist. */
  ghost predicate Taken(p: Pool, q: Pool, e: nat, c: Conn) {
    && e !in p.acquired && e < q.size && p.size <= q.size && (p.workers > 0 ==> q.size == p.size)
    && q.acquired == p.acquired + {e} && q.conn == p.conn[e := c]
    && q == p.(size := q.size, acquired := q.acquired, conn := q.conn, next := q.next, head := q.head)
  }

  /** With an empty freelist, the pool's first free exchange or a new one. */
  lemma ScanKeeps(p: Pool, c: Conn)
    requires FreeOk(p, []) && TasksOk(p)
    ensures var (q, e) := GetExch(p, c);
            && (e.None? ==> q == p && p.workers > 0 && forall i: nat :: i < p.size ==> i in p.acquired)
            && (e.Some? ==> Taken(p, q, e.value, c) && FreeOk(q, []))
  {
    hide TasksOk;
    AcquiredHas(p);
  }

  /** Taking an exchange: one nobody has, with the new connection on it, and the freelist in order. */
  lemma GetKeeps(p: Pool, c: Conn)
    requires Inv(p)
    ensures var (q, e) := GetExch(p, c);
            && (e.None? ==> q == p && p.workers > 0 && forall i: nat :: i < p.size ==> i in p.acquired)
            && (e.Some? ==> Taken(p, q, e.value, c) && exists free :: FreeOk(q, free))
  {
    hide GetExch, FreeOk, TasksOk;
    var free :| FreeOk(p, free);
    if free == [] {
      ScanKeeps(p, c);
    } else {
      PopKeeps(p, c, free);
      assert FreeOk(GetExch(p, c).0, free[1..]);
    }
  }

  /** Acquired exchanges are the tasks', and exist. */
  lemma AcquiredHas(p: Pool)
    requires TasksOk(p)
    ensures forall e :: e in p.acquired <==> Has(p.Tasks(), e)
    ensures forall e :: e in p.acquired ==> e < p.size
  {
    forall e: nat | Has(p.Tasks(), e)
      ensures e in p.acquired && e < p.size
    {
      var i :| 0 <= i < |p.Tasks()| && p.Tasks()[i].exch == e;
      assert Serving(p, p.Tasks()[i]);
    }
  }

  /** A task on an exchange nobody had joins the tasks. */
  lemma JoinKeeps(p: Pool, q: Pool, a: seq<Task>, b: seq<Task>, t: Task)
    requires TasksOk(p) && p.Tasks() == a + b && q.Tasks() == a + [t] + b
    requires t.exch !in p.acquired && t.exch < q.size && p.size <= q.size
    requires q.acquired == p.acquired + {t.exch} && q.conn == p.conn[t.exch := t.conn]
    ensures TasksOk(q)
  {
    hide Distinct, Has, Pool.Tasks;
    AcquiredHas(p);
    Insert(a, b, t);
    forall i | 0 <= i < |q.Tasks()|
      ensures Serving(q, q.Tasks()[i])
    {
      if q.Tasks()[i] != t {
        var j :| 0 <= j < |p.Tasks()| && p.Tasks()[j] == q.Tasks()[i];
        assert Serving(p, p.Tasks()[j]);
      }
    }
  }

  /** A task done with leaves, and its exchange with it. */
  lemma LeaveKeeps(p: Pool, q: Pool, a: seq<Task>, b: seq<Task>, t: Task)
    requires TasksOk(p) && p.Tasks() == a + [t] + b && q.Tasks() == a + b
    requires q.size == p.size && q.acquired == p.acquired - {t.exch} && q.conn == p.conn - {t.exch}
    ensures TasksOk(q)
  {
    hide Distinct, Pool.Tasks;
    Remove(a, b, t);
    forall i | 0 <= i < |q.Tasks()|
      ensures Serving(q, q.Tasks()[i])
    {
      var j :| 0 <= j < |p.Tasks()| && p.Tasks()[j] == q.Tasks()[i];
      assert Serving(p, p.Tasks()[j]);
      assert Has(a + b, q.Tasks()[i].exch);
    }
  }

  /** Taking a connection keeps the pool in order, and the queue always has room for it. */
  lemma HandleKeeps(p: Pool, c: Conn)
    requires Inv(p)
    ensures Inv(Handle(p, c).0) && Handle(p, c).1 != PacketDrop
    ensures Handle(p, c).1 != Accepted ==> Handle(p, c).0 == p
  {
    hide GetExch, FreeOk;
    if !(p.workers > 0 && !p.open) {
      GetKeeps(p, c);
      var (q, e) := GetExch(p, c);
      if e.Some? {
        var t := Task(e.value, c, p.gen);
        if p.workers == 0 {
          var r := q.(running := q.running + [t]);
          assert r.Tasks() == p.Tasks() + [t] + [] && p.Tasks() == p.Tasks() + [];
          JoinKeeps(p, r, p.Tasks(), [], t);
          FreeSame(q, r);
        } else {
          var r := q.(pending := q.pending + [t]);
          assert r.Tasks() == p.pending + [t] + (p.draining + p.running)
            && p.Tasks() == p.pending + (p.draining + p.running);
          JoinKeeps(p, r, p.pending, p.draining + p.running, t);
          FreeSame(q, r);
          PoolBound(r);
        }
      }
    }
  }

  /** The freelist depends on the links, the head and which exchanges are acquired. */
  lemma FreeSame(p: Pool, q: Pool)
    requires q.next == p.next && q.head == p.head && q.size == p.size && q.acquired == p.acquired
    ensures (exists free :: FreeOk(p, free)) ==> exists free :: FreeOk(q, free)
  {
    if free :| FreeOk(p, free) {
      assert FreeOk(q, free);
    }
  }

  lemma StartKeeps(p: Pool)
    requires Inv(p) && p.pending != []
    ensures Inv(Step(p, DoStart))
  {
    hide FreeOk, TasksOk;
    var q, t := Step(p, DoStart), p.pending[0];
    var rest := p.pending[1..] + p.draining + p.running;
    var mid := Release(p, t.exch).(pending := p.pending[1..]);
    assert p.Tasks() == [] + [t] + rest && mid.Tasks() == [] + rest == rest + [] && q.Tasks() == rest + [t] + [];
    LeaveKeeps(p, mid, [], rest, t);
    FirstServing(p);
    JoinKeeps(mid, q, rest, [], t);
    FreeSame(p, q);
  }

  lemma FirstServing(p: Pool)
    requires TasksOk(p) && p.pending != []
    ensures Serving(p, p.pending[0])
  {
    assert p.Tasks()[0] == p.pending[0];
  }

  lemma DrainKeeps(p: Pool)
    requires Inv(p) && p.draining != []
    ensures Inv(Step(p, DoDrain))
  {
    hide TasksOk;
    var q, t := Step(p, DoDrain), p.draining[0];
    var b := p.draining[1..] + p.running;
    assert p.Tasks() == p.pending + [t] + b && q.Tasks() == p.pending + b;
    LeaveKeeps(p, q, p.pending, b, t);
    var free :| FreeOk(p, free);
    assert FreeOk(q, free);
  }

  lemma ShutdownKeeps(p: Pool)
    requires Inv(p)
    ensures Inv(Step(p, DoShutdown))
  {
    var q := Step(p, DoShutdown);
    Rotated(p.pending, p.draining, p.running);
    forall i | 0 <= i < |q.Tasks()|
      ensures Serving(q, q.Tasks()[i])
    {
      var j :| 0 <= j < |p.Tasks()| && p.Tasks()[j] == q.Tasks()[i];
      assert Serving(p, p.Tasks()[j]);
    }
    FreeSame(p, q);
  }

  /** The queue's jobs move behind those already draining. */
  lemma Rotated(a: seq<Task>, b: seq<Task>, c: seq<Task>)
    requires Distinct(a + b + c)
    ensures Distinct([] + (b + a) + c)
    ensures forall e :: Has([] + (b + a) + c, e) <==> Has(a + b + c, e)
    ensures forall i :: 0 <= i < |[] + (b + a) + c| ==> ([] + (b + a) + c)[i] in a + b + c
  {
    var x, y := a + b + c, [] + (b + a) + c;
    forall i | 0 <= i < |y|
      ensures y[i] == x[if i < |b| then i + |a| else if i < |a| + |b| then i - |b| else i]
    {
    }
    forall i, j | 0 <= i < j < |y|
      ensures y[i].exch != y[j].exch
    {
      var i' := if i < |b| then i + |a| else if i < |a| + |b| then i - |b| else i;
      var j' := if j < |b| then j + |a| else if j < |a| + |b| then j - |b| else j;
      assert x[i'].exch != x[j'].exch;
    }
    forall e | Has(x, e)
      ensures Has(y, e)
    {
      var i :| 0 <= i < |x| && x[i].exch == e;
      assert y[if i < |a| then i + |b| else if i < |a| + |b| then i - |a| else i] == x[i];
    }
  }

  /** The depth the loop counts is the length of the chain. */
  lemma {:induction false} DepthIs(next: map<nat, nat>, free: seq<nat>, i: nat, most: nat)
    requires i <= |free| && |free| - i <= most && forall j :: 0 <= j < |free| ==> Linked(next, free, j)
    ensures Depth(next, if i < |free| then Some(free[i]) else None, most) == |free| - i
    decreases most
  {
    if i < |free| {
      assert Linked(next, free, i);
      DepthIs(next, free, i + 1, most - 1);
    }
  }

  ghost predicate Freed(p: Pool, q: Pool, e: nat) {
    && q.acquired == p.acquired - {e} && q.conn == p.conn - {e}
    && q == p.(acquired := q.acquired, conn := q.conn, next := q.next, head := q.head)
  }

  /** A freed exchange goes to the head of the freelist, unless that is full. */
  lemma FreeKeeps(p: Pool, gen: nat, e: nat, free: seq<nat>)
    requires FreeOk(p, free) && e in p.acquired && e < p.size
    ensures var q := FreeExch(p, gen, e);
            Freed(p, q, e) && exists f :: FreeOk(q, f) && (f == free || f == [e] + free)
  {
    var q := FreeExch(p, gen, e);
    DepthIs(p.next, free, 0, FREELIST_MAX_DEPTH);
    if gen == p.gen && |free| < FREELIST_MAX_DEPTH {
      PushKeeps(p.next, free, e);
      assert FreeOk(q, [e] + free);
    } else {
      forall i | 0 <= i < |free|
        ensures Linked(q.next, free, i)
      {
        assert Linked(p.next, free, i);
      }
      assert FreeOk(q, free);
    }
  }

  lemma PushKeeps(next: map<nat, nat>, free: seq<nat>, e: nat)
    requires (forall i :: 0 <= i < |free| ==> Linked(next, free, i)) && e !in free && NoRepeats(free)
    ensures var next' := if free == [] then next - {e} else next[e := free[0]];
            NoRepeats([e] + free) && forall i :: 0 <= i < |free| + 1 ==> Linked(next', [e] + free, i)
  {
    var next' := if free == [] then next - {e} else next[e := free[0]];
    forall i | 0 <= i < |free| + 1
      ensures Linked(next', [e] + free, i)
    {
      if i > 0 {
        assert Linked(next, free, i - 1);
      }
    }
  }

  lemma FinishKeeps(p: Pool, i: nat)
    requires Inv(p) && i < |p.running|
    ensures Inv(Step(p, DoFinish(i)))
  {
    hide TasksOk, FreeOk, FreeExch;
    var q, t := Step(p, DoFinish(i)), p.running[i];
    var a, b := p.pending + p.draining + p.running[..i], p.running[i + 1..];
    RunningServing(p, i);
    var free :| FreeOk(p, free);
    FreeKeeps(p, t.gen, t.exch, free);
    TakeOut(p.pending + p.draining, p.running, i);
    LeaveKeeps(p, q, a, b, t);
    FreeSame(FreeExch(p, t.gen, t.exch), q);
  }

  lemma TakeOut(a: seq<Task>, b: seq<Task>, i: nat)
    requires i < |b|
    ensures a + b == (a + b[..i]) + [b[i]] + b[i + 1..]
    ensures a + (b[..i] + b[i + 1..]) == (a + b[..i]) + b[i + 1..]
  {
  }

  lemma RunningServing(p: Pool, i: nat)
    requires TasksOk(p) && i < |p.running|
    ensures Serving(p, p.running[i])
  {
    assert p.Tasks()[|p.pending| + |p.draining| + i] == p.running[i];
  }

  lemma StepKeeps(p: Pool, op: Op)
    requires Inv(p) && Enabled(p, op)
    ensures Inv(Step(p, op))
  {
    hide Inv, Handle;
    match op {
      case DoHandle(c) => HandleKeeps(p, c);
      case DoStart => StartKeeps(p);
      case DoDrain => DrainKeeps(p);
      case DoFinish(i) => FinishKeeps(p, i);
      case DoShutdown => ShutdownKeeps(p);
    }
  }

  // ---- runs

  ghost predicate IsRun(ps: seq<Pool>, ops: seq<Op>, workers: nat) {
    && |ps| == |ops| + 1 && ps[0] == Configured(workers)
    && forall i :: 0 <= i < |ops| ==> Enabled(ps[i], ops[i]) && ps[i + 1] == Step(ps[i], ops[i])
  }

  /**
    In every interleaving: no exchange serves two connections, every acquired one serves one, the
    freelist is a chain of at most five distinct exchanges nobody has, and the job queue has room for
    every connection that got an exchange.
  */
  lemma {:induction false} RunSafe(ps: seq<Pool>, ops: seq<Op>, workers: nat, i: nat)
    requires IsRun(ps, ops, workers) && i < |ps|
    ensures Inv(ps[i])
    ensures i < |ops| && ops[i].DoHandle? ==> Handle(ps[i], ops[i].c).1 != PacketDrop
  {
    hide Inv, Step, Handle;
    if i == 0 {
      ConfiguredInOrder(workers);
    } else {
      RunSafe(ps, ops, workers, i - 1);
      StepKeeps(ps[i - 1], ops[i - 1]);
    }
    if i < |ops| && ops[i].DoHandle? {
      HandleKeeps(ps[i], ops[i].c);
    }
  }

  lemma ConfiguredInOrder(workers: nat)
    ensures Inv(Configured(workers))
  {
    assert FreeOk(Configured(workers), []);
  }

  /** The connection a step takes into the pool, if any. */
  ghost function TakenBy(p: Pool, op: Op): multiset<Task> {
    if op.DoHandle? && Handle(p, op.c).1 == Accepted then
      multiset{Task(GetExch(p, op.c).1.value, op.c, p.gen)}
    else multiset{}
  }

  /** The connection a step is done with, if any: its handler returned, or a worker dropped it after a shutdown. */
  ghost function DoneBy(p: Pool, op: Op): multiset<Task>
    requires Enabled(p, op)
  {
    if op.DoFinish? then multiset{p.running[op.i]} else if op.DoDrain? then multiset{p.draining[0]} else multiset{}
  }

  lemma TasksSplit(p: Pool)
    ensures multiset(p.Tasks()) == multiset(p.pending) + multiset(p.draining) + multiset(p.running)
  {
  }

  lemma FrontSplit(ts: seq<Task>)
    requires ts != []
    ensures multiset(ts) == multiset{ts[0]} + multiset(ts[1..])
  {
    assert ts == [ts[0]] + ts[1..];
  }

  lemma MiddleSplit(ts: seq<Task>, i: nat)
    requires i < |ts|
    ensures multiset(ts) == multiset{ts[i]} + multiset(ts[..i] + ts[i + 1..])
  {
    assert ts == ts[..i] + [ts[i]] + ts[i + 1..];
  }

  lemma MoveConserves(p: Pool, op: Op)
    requires Enabled(p, op) && (op.DoStart? || op.DoShutdown?)
    ensures multiset(Step(p, op).Tasks()) == multiset(p.Tasks())
  {
    hide Pool.Tasks;
    TasksSplit(p);
    TasksSplit(Step(p, op));
    if op.DoStart? {
      FrontSplit(p.pending);
    }
  }

  lemma EndConserves(p: Pool, op: Op)
    requires Enabled(p, op) && (op.DoFinish? || op.DoDrain?)
    ensures multiset(Step(p, op).Tasks()) + DoneBy(p, op) == multiset(p.Tasks())
  {
    hide FreeExch, Pool.Tasks, Release;
    TasksSplit(p);
    TasksSplit(Step(p, op));
    if op.DoDrain? {
      ReleaseSameTasks(p, p.draining[0].exch);
      FrontSplit(p.draining);
    } else {
      FreeSameTasks(p, p.running[op.i].gen, p.running[op.i].exch);
      MiddleSplit(p.running, op.i);
    }
  }

  lemma TakeConserves(p: Pool, c: Conn)
    requires Inv(p)
    ensures multiset(Handle(p, c).0.Tasks()) == multiset(p.Tasks()) + TakenBy(p, DoHandle(c))
  {
    hide GetExch, Pool.Tasks, Inv;
    TasksSplit(p);
    TasksSplit(Handle(p, c).0);
    HandleKeeps(p, c);
    GetSameTasks(p, c);
  }

  /** A step moves the pool's connections about, and adds or removes only the one it takes or is done with. */
  lemma StepConserves(p: Pool, op: Op)
    requires Inv(p) && Enabled(p, op)
    ensures multiset(Step(p, op).Tasks()) + DoneBy(p, op) == multiset(p.Tasks()) + TakenBy(p, op)
  {
    hide Inv, Pool.Tasks, Handle, FreeExch, Release;
    if op.DoHandle? {
      TakeConserves(p, op.c);
    } else if op.DoStart? || op.DoShutdown? {
      MoveConserves(p, op);
    } else {
      EndConserves(p, op);
    }
  }

  lemma ReleaseSameTasks(p: Pool, e: nat)
    ensures var q := Release(p, e); q.pending == p.pending && q.draining == p.draining && q.running == p.running
  {
  }

  lemma GetSameTasks(p: Pool, c: Conn)
    ensures var q := GetExch(p, c).0; q.pending == p.pending && q.draining == p.draining && q.running == p.running
  {
  }

  lemma FreeSameTasks(p: Pool, gen: nat, e: nat)
    ensures var q := FreeExch(p, gen, e); q.pending == p.pending && q.draining == p.draining && q.running == p.running
  {
  }

  lemma NoTasks(workers: nat)
    ensures Configured(workers).Tasks() == []
  {
  }

  ghost function TakenIn(ps: seq<Pool>, ops: seq<Op>, i: nat): multiset<Task>
    requires i <= |ops| <= |ps|
  {
    if i == 0 then multiset{} else TakenIn(ps, ops, i - 1) + TakenBy(ps[i - 1], ops[i - 1])
  }

  ghost function DoneIn(ps: seq<Pool>, ops: seq<Op>, i: nat): multiset<Task>
    requires i <= |ops| <= |ps| && forall k :: 0 <= k < |ops| ==> Enabled(ps[k], ops[k])
  {
    if i == 0 then multiset{} else DoneIn(ps, ops, i - 1) + DoneBy(ps[i - 1], ops[i - 1])
  }

  /**
    In every run each connection taken is in the pool until it is done with, once: none is lost and none served
    twice.
  */
  lemma {:induction false} RunConserves(ps: seq<Pool>, ops: seq<Op>, workers: nat, i: nat)
    requires IsRun(ps, ops, workers) && i < |ps|
    ensures TakenIn(ps, ops, i) == DoneIn(ps, ops, i) + multiset(ps[i].Tasks())
  {
    hide Inv, Step, TakenBy, DoneBy, Pool.Tasks;
    if i == 0 {
      NoTasks(workers);
    } else {
      RunConserves(ps, ops, workers, i - 1);
      RunSafe(ps, ops, workers, i - 1);
      StepConserves(ps[i - 1], ops[i - 1]);
      Rebalance(TakenIn(ps, ops, i - 1), DoneIn(ps, ops, i - 1), multiset(ps[i - 1].Tasks()),
                TakenBy(ps[i - 1], ops[i - 1]), DoneBy(ps[i - 1], ops[i - 1]), multiset(ps[i].Tasks()));
    }
  }

  lemma Rebalance(taken: multiset<Task>, done: multiset<Task>, now: multiset<Task>,
                  takes: multiset<Task>, ends: multiset<Task>, then_: multiset<Task>)
    requires taken == done + now && then_ + ends == now + takes
    ensures taken + takes == (done + ends) + then_
  {
    forall t: Task
      ensures (taken + takes)[t] == ((done + ends) + then_)[t]
    {
      assert (then_ + ends)[t] == (now + takes)[t];
    }
  }

  /** Shutdown refuses connections exactly in worker mode; without workers the router goes on serving. */
  lemma ShutdownRefusesExactly(p: Pool, c: Conn)
    requires Inv(p)
    ensures Handle(Step(p, DoShutdown), c).1 == TornDown <==> p.workers > 0
  {
    hide GetExch;
  }
}
