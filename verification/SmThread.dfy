/**
 * The threaded object queue (src/smthread.c) as apply_smrules() in
 * src/smcore.c drives it: one main thread batches objects into the buffers of
 * worker threads, and waits for all workers at the end of each rule.
 *
 * Threads interleave.  A section in which the mutex is held is one step; a
 * wait on a condition variable ends a step, and the waiting thread goes on
 * after it was signalled or, at any time, spuriously.  Everything that is done
 * without holding the mutex is a step of its own.
 */
module SmThread {
  import opened Common

  const OBJ_MAX: nat := 8

  /** An object in a buffer.  The rule it was queued for is known to the model only. */
  datatype Item = Item(obj: int, rule: int)

  datatype Status = WAIT | EXEC | EXIT

  /** Where a worker is in sm_thread_loop(). */
  datatype WorkerPc =
    | Entry               // before the section that looks at the status
    | Asleep              // waiting on its condition
    | Loop(res: int)      // at the head of the loop over its objects
    | Calling(item: Item) // in the rule's main function
    | Done(res: int)      // before the section that reports the result
    | Ended

  /** The shared record of a worker, and the worker itself. */
  datatype Worker = Worker(pc: WorkerPc, status: Status, obj: seq<Item>, cnt: nat, result: int, rule: int) {
    ghost predicate Valid() {
      |obj| == OBJ_MAX && cnt <= OBJ_MAX
    }
  }

  /** Where the main thread is. */
  datatype MainPc =
    | Idle                 // between two rules
    | Traverse             // in traverse(), between two objects
    | Queue(obj: int)      // in obj_queue(), before the section that looks for a free thread
    | NoneFree(obj: int)   // waiting in get_free_thread()
    | Append(obj: int)     // before storing the object
    | Full                 // before the section that starts the thread
    | Flush                // before obj_queue_signal()
    | Scan(i: nat)         // in block_while_exec(), before looking at thread i
    | Blocked(i: nat)      // waiting for thread i in block_while_exec()
    | Exited               // in delete_threads(), after all threads were told to exit

  /**
   * cur is -1 if no thread is selected.  The last four fields record what happened: the objects
   * queued and dropped so far, the calls made and under which rule, and whether a call ever failed.
   */
  datatype State = State(
    main: MainPc, cur: int, last: nat, rule: int, th: seq<Worker>,
    queued: multiset<Item>, dropped: multiset<Item>, log: seq<(Item, int)>, failed: bool)

  ghost predicate Init(s: State) {
    && s.main == Idle && s.cur == -1 && s.last == 0
    && (forall n :: 0 <= n < |s.th| ==>
          s.th[n].Valid() && s.th[n].pc == Entry && s.th[n].status == WAIT && s.th[n].cnt == 0 && s.th[n].result == 0
          && s.th[n].rule == s.rule)
    && s.queued == multiset{} && s.dropped == multiset{} && s.log == [] && !s.failed
  }

  // ----- the steps -----

  datatype Step =
    // main thread
    | StartRule(rule: int)   // obj_queue_ini()
    | CallQueue(obj: int)    // apply_rule() calls obj_queue()
    | EndTraverse            // traverse() is through
    | TakeFree               // get_free_thread() looks for a free thread
    | Store                  // the object is added to the selected thread's list
    | StartThread            // the full list is handed over
    | FlushAll               // obj_queue_signal()
    | ScanThreads            // block_while_exec() goes on
    | TellExit               // delete_threads()
    | MainSpurious           // the main thread wakes up without a signal
    // worker n
    | Enter(n: nat)          // it looks at its status
    | Take(n: nat)           // it takes the next object and calls the rule
    | Return(n: nat, res: int) // the rule returns
    | Leave(n: nat)          // it leaves the loop
    | Report(n: nat)         // it reports the result
    | Spurious(n: nat)       // it wakes up without a signal

  predicate IsWorkerStep(a: Step) {
    a.Enter? || a.Take? || a.Return? || a.Leave? || a.Report?
  }

  predicate IsSpurious(a: Step) {
    a.MainSpurious? || a.Spurious?
  }

  /** The thread that get_free_thread() tries in round i. */
  function Slot(s: State, i: nat): (n: nat)
    requires |s.th| > 0
    ensures n < |s.th|
  {
    (i + s.last) % |s.th|
  }

  /** No thread at the positions i .. j-1 of the search waits. */
  ghost predicate NoneWaits(s: State, i: nat, j: nat) {
    forall k :: i <= k < j && k < |s.th| ==> s.th[Slot(s, k)].status != WAIT
  }

  /** The first thread that waits for work, beginning behind the last one taken. */
  function FreeThread(s: State, i: nat): (r: Option<nat>)
    requires i <= |s.th|
    ensures r.Some? ==> r.value < |s.th| && s.th[r.value].status == WAIT
    ensures r.Some? ==> exists m :: i <= m < |s.th| && r.value == Slot(s, m) && NoneWaits(s, i, m)
    ensures r.None? ==> NoneWaits(s, i, |s.th|)
    decreases |s.th| - i
  {
    if i == |s.th| then None
    else if s.th[Slot(s, i)].status == WAIT then Some(Slot(s, i))
    else FreeThread(s, i + 1)
  }

  /** The first thread from i on that executes. */
  function NextBusy(th: seq<Worker>, i: nat): (r: nat)
    requires i <= |th|
    ensures i <= r <= |th|
    ensures forall k :: i <= k < r ==> th[k].status != EXEC
    ensures r < |th| ==> th[r].status == EXEC
    decreases |th| - i
  {
    if i == |th| || th[i].status == EXEC then i else NextBusy(th, i + 1)
  }

  /** Setting a status and signalling the thread's condition. */
  function Signalled(w: Worker, status: Status): Worker {
    w.(status := status, pc := if w.pc == Asleep then Entry else w.pc)
  }

  function Flushed(w: Worker): Worker {
    if w.cnt > 0 && w.status == WAIT then Signalled(w, EXEC) else w
  }

  function MapAll(th: seq<Worker>, f: Worker -> Worker): (r: seq<Worker>)
    ensures |r| == |th| && forall n :: 0 <= n < |th| ==> r[n] == f(th[n])
  {
    seq(|th|, n requires 0 <= n < |th| => f(th[n]))
  }

  /** What becomes of the main thread when its condition is signalled. */
  function MainWoken(m: MainPc): MainPc {
    match m
    case NoneFree(obj) => Queue(obj)
    case Blocked(i) => Scan(i)
    case _ => m
  }

  predicate Enabled(s: State, a: Step) {
    match a
    case StartRule(_) => s.main == Idle
    case CallQueue(_) => s.main == Traverse && |s.th| > 0
    case EndTraverse => s.main == Traverse
    case TakeFree => s.main.Queue? && |s.th| > 0
    case Store => s.main.Append? && 0 <= s.cur < |s.th| && s.th[s.cur].cnt < |s.th[s.cur].obj|
    case StartThread => s.main == Full && 0 <= s.cur < |s.th|
    case FlushAll => s.main == Flush
    case ScanThreads => s.main.Scan? && s.main.i <= |s.th|
    case TellExit => s.main == Idle
    case MainSpurious => s.main.NoneFree? || s.main.Blocked?
    case Enter(n) => n < |s.th| && s.th[n].pc == Entry
    case Take(n) => n < |s.th| && s.th[n].pc == Loop(0) && 0 < s.th[n].cnt <= |s.th[n].obj|
    case Return(n, _) => n < |s.th| && s.th[n].pc.Calling?
    case Leave(n) => n < |s.th| && s.th[n].pc.Loop? && (s.th[n].pc.res != 0 || s.th[n].cnt == 0)
    case Report(n) => n < |s.th| && s.th[n].pc.Done?
    case Spurious(n) => n < |s.th| && s.th[n].pc == Asleep
  }

  function Buffer(w: Worker): multiset<Item> {
    if w.cnt <= |w.obj| then multiset(w.obj[..w.cnt]) else multiset{}
  }

  function WorkerDo(s: State, a: Step): State
    requires Enabled(s, a) && IsWorkerStep(a)
  {
    var w := s.th[a.n];
    match a
    case Enter(n) =>
      s.(th := s.th[n := w.(pc := match w.status case EXEC => Loop(0) case EXIT => Ended case WAIT => Asleep)])
    case Take(n) =>
      var item := w.obj[w.cnt - 1];
      s.(th := s.th[n := w.(cnt := w.cnt - 1, pc := Calling(item))], log := s.log + [(item, w.rule)])
    case Return(n, res) =>
      s.(th := s.th[n := w.(pc := Loop(res))], failed := s.failed || res != 0)
    case Leave(n) =>
      s.(th := s.th[n := w.(pc := Done(w.pc.res))])
    case Report(n) =>
      s.(th := s.th[n := w.(pc := Entry, result := w.pc.res, status := WAIT)], main := MainWoken(s.main))
  }

  /** get_free_thread() and the check of the thread's previous result. */
  function DoTakeFree(s: State): State
    requires s.main.Queue?
  {
    match FreeThread(s, 0)
    case None => s.(main := NoneFree(s.main.obj))
    case Some(n) =>
      var w := s.th[n];
      if w.result == 0 then
        s.(main := Append(s.main.obj), cur := n, last := n + 1)
      else
        // the result goes to traverse(), which stops; the object is not queued
        s.(main := Flush, cur := n, last := n + 1,
           th := s.th[n := w.(cnt := 0, result := 0, status := WAIT)], dropped := s.dropped + Buffer(w))
  }

  function Do(s: State, a: Step): State
    requires Enabled(s, a)
  {
    match a
    case StartRule(rule) =>
      s.(main := Traverse, cur := -1, rule := rule, th := MapAll(s.th, (w: Worker) => w.(rule := rule)))
    case CallQueue(obj) =>
      s.(main := if s.cur < 0 then Queue(obj) else Append(obj))
    case EndTraverse =>
      s.(main := Flush)
    case TakeFree =>
      DoTakeFree(s)
    case Store =>
      var w := s.th[s.cur];
      var item := Item(s.main.obj, s.rule);
      s.(main := if w.cnt + 1 >= OBJ_MAX then Full else Traverse,
         th := s.th[s.cur := w.(obj := w.obj[w.cnt := item], cnt := w.cnt + 1)],
         queued := s.queued + multiset{item})
    case StartThread =>
      s.(main := Traverse, cur := -1, th := s.th[s.cur := Signalled(s.th[s.cur], EXEC)])
    case FlushAll =>
      s.(main := Scan(0), th := MapAll(s.th, Flushed))
    case ScanThreads =>
      var i := NextBusy(s.th, s.main.i);
      s.(main := if i >= |s.th| then Idle else Blocked(i))
    case TellExit =>
      s.(main := Exited, th := MapAll(s.th, (w: Worker) => Signalled(w, EXIT)))
    case MainSpurious =>
      s.(main := MainWoken(s.main))
    case Spurious(n) =>
      s.(th := s.th[n := s.th[n].(pc := Entry)])
    case _ =>
      WorkerDo(s, a)
  }

  // ----- the invariant -----

  /** What each worker's program counter, status and buffer have to do with each other. */
  ghost predicate WorkerOk(w: Worker) {
    && w.Valid()
    && (match w.pc
        case Entry => true
        case Asleep => w.status == WAIT
        case Loop(_) => w.status == EXEC
        case Calling(_) => w.status == EXEC && w.cnt < OBJ_MAX
        case Done(res) => w.status == EXEC && (res == 0 ==> w.cnt == 0)
        case Ended => w.status == EXIT)
    && (w.status == EXIT ==> w.cnt == 0 || w.result != 0)
  }

  /** Thread n is the one whose list the main thread is filling. */
  predicate Filling(s: State, n: int) {
    n == s.cur && (s.main == Traverse || s.main.Append? || s.main == Full || s.main == Flush)
  }

  /** What the position of the main thread says about the threads. */
  ghost predicate MainOk(s: State) {
    && -1 <= s.cur < |s.th|
    && (match s.main
        case Idle => forall n :: 0 <= n < |s.th| ==> s.th[n].status == WAIT
        case Traverse => s.cur >= 0 ==> s.th[s.cur].status == WAIT && s.th[s.cur].cnt < OBJ_MAX
        case Queue(_) => |s.th| > 0 && s.cur < 0
        case NoneFree(_) => |s.th| > 0 && s.cur < 0 && forall n :: 0 <= n < |s.th| ==> s.th[n].status == EXEC
        case Append(_) => s.cur >= 0 && s.th[s.cur].status == WAIT && s.th[s.cur].cnt < OBJ_MAX
        case Full => s.cur >= 0 && s.th[s.cur].status == WAIT && s.th[s.cur].cnt == OBJ_MAX
        case Flush => s.cur >= 0 ==> s.th[s.cur].status == WAIT
        case Scan(i) => i <= |s.th| && Settled(s.th, i)
        case Blocked(i) => i < |s.th| && Settled(s.th, i) && s.th[i].status == EXEC
        case Exited => true)
  }

  /** The first i threads have nothing to do. */
  ghost predicate Settled(th: seq<Worker>, i: nat) {
    forall n :: 0 <= n < |th| && n < i ==> th[n].status != EXEC
  }

  /** A thread that waits, was successful, and is not being filled has an empty list. */
  ghost predicate IdleOk(s: State, n: nat)
    requires n < |s.th|
  {
    s.th[n].status == WAIT && s.th[n].result == 0 && !Filling(s, n) ==> s.th[n].cnt == 0
  }

  /** As long as no call has failed. */
  ghost predicate CleanOk(s: State, n: nat)
    requires n < |s.th|
  {
    var w := s.th[n];
    && w.result == 0
    && (match w.pc case Loop(res) => res == 0 case Done(res) => res == 0 case _ => true)
    && forall k :: 0 <= k < w.cnt && k < |w.obj| ==> w.obj[k].rule == s.rule
  }

  ghost predicate ThreadOk(s: State, n: nat)
    requires n < |s.th|
  {
    && WorkerOk(s.th[n])
    && s.th[n].rule == s.rule
    && IdleOk(s, n)
    && (s.main == Exited || s.th[n].status != EXIT)
    && (!s.failed ==> CleanOk(s, n))
  }

  ghost predicate ThreadsOk(s: State) {
    forall n :: 0 <= n < |s.th| ==> ThreadOk(s, n)
  }

  function Buffers(th: seq<Worker>, k: nat): multiset<Item>
    requires k <= |th|
  {
    if k == 0 then multiset{} else Buffers(th, k - 1) + Buffer(th[k - 1])
  }

  /** The objects for which a call was made. */
  function Called(log: seq<(Item, int)>): multiset<Item> {
    if log == [] then multiset{} else Called(log[..|log| - 1]) + multiset{log[|log| - 1].0}
  }

  /** Every queued object was passed to the rule, is in a buffer, or was dropped. */
  ghost predicate Conserved(s: State) {
    s.queued == Called(s.log) + Buffers(s.th, |s.th|) + s.dropped
  }

  /** Without failures nothing is dropped, and every object went to the rule it was queued for. */
  ghost predicate LogOk(s: State) {
    !s.failed ==> s.dropped == multiset{} && forall k :: 0 <= k < |s.log| ==> s.log[k].1 == s.log[k].0.rule
  }

  lemma InitInv(s: State)
    requires Init(s)
    ensures Inv(s)
  {
    NoBuffers(s.th, |s.th|);
  }

  lemma {:induction false} NoBuffers(th: seq<Worker>, k: nat)
    requires k <= |th| && forall n :: 0 <= n < |th| ==> th[n].cnt == 0
    ensures Buffers(th, k) == multiset{}
  {
    if k > 0 {
      NoBuffers(th, k - 1);
    }
  }

  // ----- every step keeps the invariant -----

  lemma {:induction false} BuffersUpdate(th: seq<Worker>, n: nat, w: Worker, k: nat)
    requires n < |th| && k <= |th|
    ensures if n < k then Buffers(th[n := w], k) + Buffer(th[n]) == Buffers(th, k) + Buffer(w)
            else Buffers(th[n := w], k) == Buffers(th, k)
  {
    hide Buffer;
    if k > 0 {
      BuffersUpdate(th, n, w, k - 1);
      if n < k - 1 {
        MsSwapLast(Buffers(th[n := w], k - 1), Buffer(th[n]), Buffers(th, k - 1), Buffer(w), Buffer(th[k - 1]));
      }
    }
  }

  lemma {:induction false} BuffersSame(a: seq<Worker>, b: seq<Worker>, k: nat)
    requires |a| == |b| && k <= |a|
    requires forall n :: 0 <= n < |a| ==> a[n].cnt == b[n].cnt && a[n].obj == b[n].obj
    ensures Buffers(a, k) == Buffers(b, k)
  {
    if k > 0 {
      BuffersSame(a, b, k - 1);
    }
  }

  lemma BufferMore(w: Worker, item: Item)
    requires w.cnt < |w.obj|
    ensures Buffer(w.(obj := w.obj[w.cnt := item], cnt := w.cnt + 1)) == Buffer(w) + multiset{item}
  {
    var o := w.obj[w.cnt := item];
    assert o[..w.cnt + 1] == w.obj[..w.cnt] + [item];
  }

  lemma BufferLess(w: Worker)
    requires 0 < w.cnt <= |w.obj|
    ensures Buffer(w) == Buffer(w.(cnt := w.cnt - 1)) + multiset{w.obj[w.cnt - 1]}
  {
    assert w.obj[..w.cnt] == w.obj[..w.cnt - 1] + [w.obj[w.cnt - 1]];
  }

  lemma CalledMore(log: seq<(Item, int)>, e: (Item, int))
    ensures Called(log + [e]) == Called(log) + multiset{e.0}
  {
    assert (log + [e])[..|log|] == log;
  }

  ghost predicate Shape(s: State) {
    ThreadsOk(s) && MainOk(s)
  }

  /** A step of worker n leaves the other threads as they are. */
  lemma OthersOk(s: State, s': State, n: nat)
    requires ThreadsOk(s) && n < |s.th| && |s'.th| == |s.th| &&
      s' == s.(th := s'.th, main := s'.main, log := s'.log, failed := s'.failed)
    requires s'.main == s.main || s'.main == MainWoken(s.main)
    requires s'.failed || !s.failed
    requires s'.th == s.th[n := s'.th[n]] && ThreadOk(s', n)
    ensures ThreadsOk(s')
  {
    forall k | 0 <= k < |s'.th| ensures ThreadOk(s', k) {
      assert ThreadOk(s, k);
    }
  }

  lemma EnterShape(s: State, n: nat)
    requires Shape(s) && Enabled(s, Enter(n))
    ensures Shape(Do(s, Enter(n)))
  {
    assert ThreadOk(s, n);
    OthersOk(s, Do(s, Enter(n)), n);
  }

  lemma TakeShape(s: State, n: nat)
    requires Shape(s) && Enabled(s, Take(n))
    ensures Shape(Do(s, Take(n)))
  {
    assert ThreadOk(s, n);
    OthersOk(s, Do(s, Take(n)), n);
  }

  lemma ReturnShape(s: State, n: nat, res: int)
    requires Shape(s) && Enabled(s, Return(n, res))
    ensures Shape(Do(s, Return(n, res)))
  {
    assert ThreadOk(s, n);
    var s' := Do(s, Return(n, res));
    forall k | 0 <= k < |s'.th| ensures ThreadOk(s', k) {
      assert ThreadOk(s, k);
    }
  }

  lemma LeaveShape(s: State, n: nat)
    requires Shape(s) && Enabled(s, Leave(n))
    ensures Shape(Do(s, Leave(n)))
  {
    assert ThreadOk(s, n);
    OthersOk(s, Do(s, Leave(n)), n);
  }

  lemma ReportShape(s: State, n: nat)
    requires Shape(s) && Enabled(s, Report(n))
    ensures Shape(Do(s, Report(n)))
  {
    assert ThreadOk(s, n);
    OthersOk(s, Do(s, Report(n)), n);
  }

  lemma SpuriousShape(s: State, n: nat)
    requires Shape(s) && Enabled(s, Spurious(n))
    ensures Shape(Do(s, Spurious(n)))
  {
    assert ThreadOk(s, n);
    OthersOk(s, Do(s, Spurious(n)), n);
  }

  lemma StartRuleShape(s: State, rule: int)
    requires Shape(s) && Enabled(s, StartRule(rule))
    ensures Shape(Do(s, StartRule(rule)))
  {
    var s' := Do(s, StartRule(rule));
    forall n | 0 <= n < |s'.th| ensures ThreadOk(s', n) {
      assert ThreadOk(s, n);
    }
  }

  lemma StartThreadShape(s: State)
    requires Shape(s) && Enabled(s, StartThread)
    ensures Shape(Do(s, StartThread))
  {
    var s' := Do(s, StartThread);
    forall n | 0 <= n < |s'.th| ensures ThreadOk(s', n) {
      assert ThreadOk(s, n);
    }
  }

  lemma FlushShape(s: State)
    requires Shape(s) && Enabled(s, FlushAll)
    ensures Shape(Do(s, FlushAll))
  {
    var s' := Do(s, FlushAll);
    forall n | 0 <= n < |s'.th| ensures ThreadOk(s', n) {
      assert ThreadOk(s, n);
    }
  }

  lemma TellExitShape(s: State)
    requires Shape(s) && Enabled(s, TellExit)
    ensures Shape(Do(s, TellExit))
  {
    var s' := Do(s, TellExit);
    forall n | 0 <= n < |s'.th| ensures ThreadOk(s', n) {
      assert ThreadOk(s, n);
    }
  }

  /** Steps of the main thread that only move it. */
  lemma MainMoves(s: State, a: Step)
    requires Shape(s) && Enabled(s, a)
    requires a.CallQueue? || a.EndTraverse? || a.MainSpurious?
    ensures Shape(Do(s, a))
  {
    var s' := Do(s, a);
    forall n | 0 <= n < |s'.th| ensures ThreadOk(s', n) {
      assert ThreadOk(s, n);
    }
  }

  /** block_while_exec() returns only when no thread executes, although it never looks back. */
  lemma ScanShape(s: State)
    requires Shape(s) && Enabled(s, ScanThreads)
    ensures Shape(Do(s, ScanThreads))
  {
    var s' := Do(s, ScanThreads);
    forall n | 0 <= n < |s'.th| ensures ThreadOk(s', n) && (s'.main == Idle ==> s'.th[n].status == WAIT) {
      assert ThreadOk(s, n);
      if n < s.main.i {
        assert s.th[n].status != EXEC;
      }
    }
  }

  /** When no thread is free, all of them execute. */
  lemma NoneFreeAllBusy(s: State)
    requires ThreadsOk(s) && s.main != Exited && |s.th| > 0 && FreeThread(s, 0).None?
    ensures forall n :: 0 <= n < |s.th| ==> s.th[n].status == EXEC
  {
    forall n | 0 <= n < |s.th| ensures s.th[n].status == EXEC {
      assert ThreadOk(s, n);
      var k := SlotOf(s, n);
      assert s.th[Slot(s, k)].status != WAIT;
    }
  }

  /** get_free_thread() tries every thread. */
  lemma SlotOf(s: State, n: nat) returns (k: nat)
    requires n < |s.th|
    ensures k < |s.th| && Slot(s, k) == n
  {
    var size := |s.th|;
    var l := s.last % size;
    k := if n >= l then n - l else n + size - l;
    assert s.last == size * (s.last / size) + l;
    if n >= l {
      ModIs(k + s.last, size, s.last / size, n);
    } else {
      assert size * (s.last / size) + size == size * (s.last / size + 1);
      ModIs(k + s.last, size, s.last / size + 1, n);
    }
  }

  lemma ModIs(x: nat, d: nat, q: nat, r: nat)
    requires d > 0 && r < d && x == d * q + r
    ensures x % d == r
  {
    var y := x / d;
    assert x == d * y + x % d;
    if y + 1 <= q {
      MulMono(d, y + 1, q);
    } else if q + 1 <= y {
      MulMono(d, q + 1, y);
    }
  }

  lemma TakeFreeShape(s: State)
    requires Shape(s) && Enabled(s, TakeFree)
    ensures Shape(Do(s, TakeFree))
  {
    var s' := Do(s, TakeFree);
    match FreeThread(s, 0) {
      case None =>
        NoneFreeAllBusy(s);
      case Some(n) =>
        assert ThreadOk(s, n);
    }
    forall n | 0 <= n < |s'.th| ensures ThreadOk(s', n) {
      assert ThreadOk(s, n);
    }
  }

  lemma StoreShape(s: State)
    requires Shape(s) && Enabled(s, Store)
    ensures Shape(Do(s, Store))
  {
    var s' := Do(s, Store);
    forall n | 0 <= n < |s'.th| ensures ThreadOk(s', n) {
      assert ThreadOk(s, n);
    }
  }

  lemma StepShape(s: State, a: Step)
    requires Shape(s) && Enabled(s, a)
    ensures Shape(Do(s, a))
  {
    hide Shape, Do, Enabled;
    match a
    case StartRule(rule) => StartRuleShape(s, rule);
    case CallQueue(_) => MainMoves(s, a);
    case EndTraverse => MainMoves(s, a);
    case TakeFree => TakeFreeShape(s);
    case Store => StoreShape(s);
    case StartThread => StartThreadShape(s);
    case FlushAll => FlushShape(s);
    case ScanThreads => ScanShape(s);
    case TellExit => TellExitShape(s);
    case MainSpurious => MainMoves(s, a);
    case Enter(n) => EnterShape(s, n);
    case Take(n) => TakeShape(s, n);
    case Return(n, res) => ReturnShape(s, n, res);
    case Leave(n) => LeaveShape(s, n);
    case Report(n) => ReportShape(s, n);
    case Spurious(n) => SpuriousShape(s, n);
  }

  lemma TakeConserves(s: State, n: nat)
    requires Conserved(s) && Enabled(s, Take(n))
    ensures Conserved(Do(s, Take(n)))
  {
    hide Called, Buffers;
    var w := s.th[n];
    var item := w.obj[w.cnt - 1];
    TakeBalance(s.th, n, item, s.log, w.rule, s.dropped);
  }

  lemma TakeBalance(th: seq<Worker>, n: nat, item: Item, log: seq<(Item, int)>, rule: int, dropped: multiset<Item>)
    requires n < |th| && 0 < th[n].cnt <= |th[n].obj| && item == th[n].obj[th[n].cnt - 1]
    ensures var th' := th[n := th[n].(cnt := th[n].cnt - 1, pc := Calling(item))];
      Called(log) + Buffers(th, |th|) + dropped == Called(log + [(item, rule)]) + Buffers(th', |th|) + dropped
  {
    var w, k := th[n], |th|;
    var w' := w.(cnt := w.cnt - 1, pc := Calling(item));
    BuffersUpdate(th, n, w', k);
    BufferLess(w);
    assert Buffer(w') == Buffer(w.(cnt := w.cnt - 1));
    CalledMore(log, (item, rule));
    TakeConserved(Buffers(th, k), Buffers(th[n := w'], k), Buffer(w'), item);
    MoveOver(Called(log), Buffers(th[n := w'], k), dropped, multiset{item});
  }

  lemma MoveOver<T>(c: multiset<T>, b: multiset<T>, d: multiset<T>, x: multiset<T>)
    ensures c + (b + x) + d == (c + x) + b + d
    ensures c + (b + x) + d == c + b + (d + x)
    ensures c + (b + x) + d == (c + b + d) + x
  {
  }

  lemma StoreConserves(s: State)
    requires Conserved(s) && Enabled(s, Store)
    ensures Conserved(Do(s, Store))
  {
    StoreBalance(s.th, s.cur, Item(s.main.obj, s.rule), Called(s.log), s.dropped);
  }

  lemma StoreBalance(th: seq<Worker>, n: nat, item: Item, called: multiset<Item>, dropped: multiset<Item>)
    requires n < |th| && th[n].cnt < |th[n].obj|
    ensures var th' := th[n := th[n].(obj := th[n].obj[th[n].cnt := item], cnt := th[n].cnt + 1)];
      called + Buffers(th', |th|) + dropped == called + Buffers(th, |th|) + dropped + multiset{item}
  {
    var w, k := th[n], |th|;
    var w' := w.(obj := w.obj[w.cnt := item], cnt := w.cnt + 1);
    BuffersUpdate(th, n, w', k);
    BufferMore(w, item);
    TakeConserved(Buffers(th[n := w'], k), Buffers(th, k), Buffer(w), item);
    MoveOver(called, Buffers(th, k), dropped, multiset{item});
  }

  lemma DropConserves(s: State)
    requires Conserved(s) && Enabled(s, TakeFree)
    ensures Conserved(Do(s, TakeFree))
  {
    var s', k := Do(s, TakeFree), |s.th|;
    if FreeThread(s, 0).Some? {
      var n := FreeThread(s, 0).value;
      if s.th[n].result != 0 {
        BuffersUpdate(s.th, n, s'.th[n], k);
        assert Buffer(s'.th[n]) == multiset{};
        assert Buffers(s'.th, k) + Buffer(s.th[n]) == Buffers(s.th, k);
        MoveOver(Called(s.log), Buffers(s'.th, k), s.dropped, Buffer(s.th[n]));
      }
    }
  }

  /** The other steps touch no list. */
  lemma ListsUntouched(s: State, a: Step)
    requires Enabled(s, a) && !a.Take? && !a.Store? && !a.TakeFree?
    ensures |Do(s, a).th| == |s.th|
    ensures forall n :: 0 <= n < |s.th| ==> Do(s, a).th[n].cnt == s.th[n].cnt && Do(s, a).th[n].obj == s.th[n].obj
    ensures Do(s, a).queued == s.queued && Do(s, a).dropped == s.dropped && Do(s, a).log == s.log
  {
  }

  lemma KeepsConserved(s: State, a: Step)
    requires Conserved(s) && Enabled(s, a)
    ensures Conserved(Do(s, a))
  {
    hide Do, Enabled;
    if a.Take? {
      TakeConserves(s, a.n);
    } else if a.Store? {
      StoreConserves(s);
    } else if a.TakeFree? {
      DropConserves(s);
    } else {
      ListsUntouched(s, a);
      BuffersSame(s.th, Do(s, a).th, |s.th|);
    }
  }

  lemma TakeConserved<T>(more: multiset<T>, less: multiset<T>, b: multiset<T>, x: T)
    requires less + (b + multiset{x}) == more + b
    ensures more == less + multiset{x}
  {
    MsAssoc(less, multiset{x}, b);
    assert b + multiset{x} == multiset{x} + b;
    MsCancel(more, b, less + multiset{x});
  }

  lemma KeepsLog(s: State, a: Step)
    requires Shape(s) && LogOk(s) && Enabled(s, a)
    ensures LogOk(Do(s, a))
  {
    if a.Take? {
      assert ThreadOk(s, a.n);
    } else if a.TakeFree? && FreeThread(s, 0).Some? {
      assert ThreadOk(s, FreeThread(s, 0).value);
    }
  }

  ghost predicate Inv(s: State) {
    Shape(s) && Conserved(s) && LogOk(s)
  }

  /** Every step keeps the invariant. */
  lemma StepInv(s: State, a: Step)
    requires Inv(s) && Enabled(s, a)
    ensures Inv(Do(s, a))
  {
    hide Shape, Conserved, LogOk, Do, Enabled;
    StepShape(s, a);
    KeepsConserved(s, a);
    KeepsLog(s, a);
  }

  // ----- what holds in every run -----

  /** The states tr are gone through by the steps st. */
  ghost predicate Run(tr: seq<State>, st: seq<Step>) {
    |tr| == |st| + 1 && forall i :: 0 <= i < |st| ==> Enabled(tr[i], st[i]) && tr[i + 1] == Do(tr[i], st[i])
  }

  lemma {:induction false} RunInv(tr: seq<State>, st: seq<Step>, i: nat)
    requires Run(tr, st) && Init(tr[0]) && i <= |st|
    ensures Inv(tr[i])
  {
    if i == 0 {
      InitInv(tr[0]);
    } else {
      RunInv(tr, st, i - 1);
      assert Enabled(tr[i - 1], st[i - 1]) && tr[i] == Do(tr[i - 1], st[i - 1]);
      StepInv(tr[i - 1], st[i - 1]);
    }
  }

  // ----- the objects that obj_queue() was called for -----

  /** The object that the main thread holds in obj_queue(). */
  function Held(s: State): multiset<Item> {
    match s.main
    case Queue(obj) => multiset{Item(obj, s.rule)}
    case NoneFree(obj) => multiset{Item(obj, s.rule)}
    case Append(obj) => multiset{Item(obj, s.rule)}
    case _ => multiset{}
  }

  /** What obj_queue() is called for in a step. */
  function AskedBy(s: State, a: Step): multiset<Item> {
    if a.CallQueue? then multiset{Item(a.obj, s.rule)} else multiset{}
  }

  /** The objects that obj_queue() was called for in the first i steps, each with the rule at this time. */
  ghost function Asked(tr: seq<State>, st: seq<Step>, i: nat): multiset<Item>
    requires i <= |st| && |tr| == |st| + 1
  {
    if i == 0 then multiset{} else Asked(tr, st, i - 1) + AskedBy(tr[i - 1], st[i - 1])
  }

  lemma HeldStays(s: State, s': State)
    requires s'.rule == s.rule && (s'.main == s.main || s'.main == MainWoken(s.main))
    ensures Held(s') == Held(s)
  {
  }

  lemma HeldNothing(s: State)
    requires !s.main.Queue? && !s.main.NoneFree? && !s.main.Append?
    ensures Held(s) == multiset{}
  {
  }

  lemma NotAsked(s: State, a: Step)
    requires !a.CallQueue?
    ensures AskedBy(s, a) == multiset{}
  {
  }

  /** No step loses an object, unless a call has failed. */
  lemma StepAsked(s: State, a: Step)
    requires Inv(s) && Enabled(s, a)
    ensures var s' := Do(s, a);
      && s'.queued + Held(s') <= s.queued + Held(s) + AskedBy(s, a)
      && (!s.failed ==> s'.queued + Held(s') == s.queued + Held(s) + AskedBy(s, a))
  {
    hide Held, AskedBy, Inv, Do, Enabled, MainWoken;
    if a.CallQueue? {
      CallQueueAsked(s, a.obj);
    } else {
      NotAsked(s, a);
      if a.TakeFree? {
        TakeFreeAsked(s);
      } else if a.Store? {
        StoreAsked(s);
      } else if IsWorkerStep(a) || a.MainSpurious? || a.Spurious? {
        WokenOnly(s, a);
        HeldStays(s, Do(s, a));
      } else {
        HoldsNothing(s, a);
        HeldNothing(s);
        HeldNothing(Do(s, a));
      }
    }
  }

  lemma CallQueueAsked(s: State, obj: int)
    requires Enabled(s, CallQueue(obj))
    ensures var s' := Do(s, CallQueue(obj));
      s'.queued == s.queued && Held(s) == multiset{} &&
        Held(s') == AskedBy(s, CallQueue(obj)) == multiset{Item(obj, s.rule)}
  {
  }

  lemma StoreAsked(s: State)
    requires Enabled(s, Store)
    ensures var s' := Do(s, Store); s'.queued == s.queued + Held(s) && Held(s') == multiset{}
  {
  }

  /** These steps at most wake the main thread. */
  lemma WokenOnly(s: State, a: Step)
    requires Enabled(s, a) && (IsWorkerStep(a) || a.MainSpurious? || a.Spurious?)
    ensures var s' := Do(s, a);
      s'.queued == s.queued && s'.rule == s.rule && (s'.main == s.main || s'.main == MainWoken(s.main))
  {
    hide MainWoken;
  }

  lemma HoldsNothing(s: State, a: Step)
    requires Enabled(s, a) && !a.CallQueue? && !a.TakeFree? && !a.Store?
    requires !IsWorkerStep(a) && !a.MainSpurious? && !a.Spurious?
    ensures Do(s, a).queued == s.queued
    ensures !s.main.Queue? && !s.main.NoneFree? && !s.main.Append?
    ensures var m := Do(s, a).main; !m.Queue? && !m.NoneFree? && !m.Append?
  {
  }

  lemma FreeSucceeded(s: State, n: nat)
    requires Inv(s) && n < |s.th| && !s.failed
    ensures s.th[n].result == 0
  {
    assert ThreadOk(s, n);
  }

  lemma TakeFreeAsked(s: State)
    requires Inv(s) && Enabled(s, TakeFree)
    ensures Do(s, TakeFree).queued == s.queued && Held(Do(s, TakeFree)) <= Held(s)
    ensures !s.failed ==> Held(Do(s, TakeFree)) == Held(s)
  {
    hide Inv, FreeThread;
    var n := FreeThread(s, 0);
    if n.Some? && !s.failed {
      FreeSucceeded(s, n.value);
    }
  }

  /** As long as no call has failed, every object that obj_queue() was called for is queued or held. */
  lemma {:induction false} AskedIsQueued(tr: seq<State>, st: seq<Step>, i: nat)
    requires Run(tr, st) && Init(tr[0]) && i <= |st|
    ensures tr[i].queued + Held(tr[i]) <= Asked(tr, st, i)
    ensures !tr[i].failed ==> tr[i].queued + Held(tr[i]) == Asked(tr, st, i)
  {
    hide Held, AskedBy, Do, Enabled, Init, Inv;
    if i == 0 {
      NothingAsked(tr[0]);
    } else {
      AskedIsQueued(tr, st, i - 1);
      RunInv(tr, st, i - 1);
      assert Enabled(tr[i - 1], st[i - 1]) && tr[i] == Do(tr[i - 1], st[i - 1]);
      StepAsked(tr[i - 1], st[i - 1]);
      FailedStays(tr[i - 1], st[i - 1]);
    }
  }

  lemma NothingAsked(s: State)
    requires Init(s)
    ensures s.queued + Held(s) == multiset{}
  {
  }

  lemma FailedStays(s: State, a: Step)
    requires Enabled(s, a)
    ensures s.failed ==> Do(s, a).failed
  {
  }

  /** In every interleaving, failures or not, queued objects are called, buffered or dropped, and never called twice. */
  lemma AtMostOnce(tr: seq<State>, st: seq<Step>, i: nat)
    requires Run(tr, st) && Init(tr[0]) && i <= |st|
    ensures var s := tr[i];
      && s.queued == Called(s.log) + Buffers(s.th, |s.th|) + s.dropped
      && Called(s.log) <= s.queued <= Asked(tr, st, i)
  {
    RunInv(tr, st, i);
    AskedIsQueued(tr, st, i);
  }

  /**
   * In every interleaving, when the main thread is back between two rules and no call has
   * failed, every object that obj_queue() was called for was passed exactly once to the rule of
   * this time, and all buffers are empty.
   */
  lemma ExactlyOnceAtBarrier(tr: seq<State>, st: seq<Step>, i: nat)
    requires Run(tr, st) && Init(tr[0]) && i <= |st|
    requires tr[i].main == Idle && !tr[i].failed
    ensures var s := tr[i];
      && Called(s.log) == s.queued == Asked(tr, st, i)
      && (forall k :: 0 <= k < |s.log| ==> s.log[k].1 == s.log[k].0.rule)
      && (forall n :: 0 <= n < |s.th| ==> s.th[n].cnt == 0)
  {
    RunInv(tr, st, i);
    AskedIsQueued(tr, st, i);
    var s := tr[i];
    forall n | 0 <= n < |s.th| ensures s.th[n].cnt == 0 {
      assert ThreadOk(s, n);
    }
    NoBuffers(s.th, |s.th|);
  }

  /** Failures or not, between two rules objects are left only in the lists of threads whose last call failed. */
  lemma BarrierLeftovers(tr: seq<State>, st: seq<Step>, i: nat, n: nat)
    requires Run(tr, st) && Init(tr[0]) && i <= |st|
    requires tr[i].main == Idle && n < |tr[i].th|
    ensures tr[i].th[n].cnt > 0 ==> tr[i].failed && tr[i].th[n].result != 0
  {
    RunInv(tr, st, i);
    assert ThreadOk(tr[i], n);
  }

  // ----- the results of failed calls -----

  /** How many of the first k threads have a result that obj_queue() has not returned yet. */
  function Pending(th: seq<Worker>, k: nat): nat
    requires k <= |th|
  {
    if k == 0 then 0 else Pending(th, k - 1) + if th[k - 1].result != 0 then 1 else 0
  }

  lemma {:induction false} PendingUpdate(th: seq<Worker>, n: nat, w: Worker, k: nat)
    requires n < |th| && k <= |th|
    ensures Pending(th[n := w], k) + (if n < k && th[n].result != 0 then 1 else 0) ==
      Pending(th, k) + if n < k && w.result != 0 then 1 else 0
  {
    if k > 0 {
      PendingUpdate(th, n, w, k - 1);
    }
  }

  lemma {:induction false} PendingSame(a: seq<Worker>, b: seq<Worker>, k: nat)
    requires |a| == |b| && k <= |a| && forall n :: 0 <= n < |a| ==> a[n].result == b[n].result
    ensures Pending(a, k) == Pending(b, k)
  {
    if k > 0 {
      PendingSame(a, b, k - 1);
    }
  }

  /** Whether a thread ends its list because of a failed call. */
  predicate Fails(s: State, a: Step) {
    a.Report? && a.n < |s.th| && s.th[a.n].pc.Done? && s.th[a.n].pc.res != 0
  }

  /** Whether obj_queue() returns a failure between these two states. */
  predicate Returns(s: State, s': State) {
    s.main.Queue? && s'.main == Flush
  }

  ghost function Failures(tr: seq<State>, st: seq<Step>, i: nat): nat
    requires i <= |st| && |tr| == |st| + 1
  {
    if i == 0 then 0 else Failures(tr, st, i - 1) + if Fails(tr[i - 1], st[i - 1]) then 1 else 0
  }

  ghost function Returned(tr: seq<State>, i: nat): nat
    requires i < |tr|
  {
    if i == 0 then 0 else Returned(tr, i - 1) + if Returns(tr[i - 1], tr[i]) then 1 else 0
  }

  lemma StepReturns(s: State, a: Step)
    requires Enabled(s, a)
    ensures var s' := Do(s, a);
      && |s'.th| == |s.th|
      && Pending(s'.th, |s.th|) + (if Returns(s, s') then 1 else 0) <=
          Pending(s.th, |s.th|) + if Fails(s, a) then 1 else 0
  {
    hide Pending;
    var s' := Do(s, a);
    if a.Report? {
      PendingUpdate(s.th, a.n, s'.th[a.n], |s.th|);
    } else if a.TakeFree? {
      TakeFreeReturns(s);
    } else {
      ResultsStay(s, a);
      PendingSame(s.th, s'.th, |s.th|);
    }
  }

  lemma TakeFreeReturns(s: State)
    requires Enabled(s, TakeFree)
    ensures var s' := Do(s, TakeFree);
      && |s'.th| == |s.th|
      && Pending(s'.th, |s.th|) + (if Returns(s, s') then 1 else 0) == Pending(s.th, |s.th|)
  {
    hide Pending, FreeThread;
    var f := FreeThread(s, 0);
    if f.Some? && s.th[f.value].result != 0 {
      PendingUpdate(s.th, f.value, s.th[f.value].(cnt := 0, result := 0, status := WAIT), |s.th|);
    }
  }

  lemma ResultsStay(s: State, a: Step)
    requires Enabled(s, a) && !a.Report? && !a.TakeFree?
    ensures var s' := Do(s, a);
      && |s'.th| == |s.th| && !Returns(s, s')
      && forall n :: 0 <= n < |s.th| ==> s'.th[n].result == s.th[n].result
  {
  }

  /**
   * In every interleaving obj_queue() returns the failure of a thread once at most: the failures
   * it has returned and those that are still kept by a thread are not more than have occurred.
   */
  lemma {:induction false} ReturnedOnce(tr: seq<State>, st: seq<Step>, i: nat)
    requires Run(tr, st) && Init(tr[0]) && i <= |st|
    ensures Returned(tr, i) + Pending(tr[i].th, |tr[i].th|) <= Failures(tr, st, i)
  {
    hide Do, Enabled, Fails, Returns, Pending;
    if i == 0 {
      NonePending(tr[0].th, |tr[0].th|);
    } else {
      ReturnedOnce(tr, st, i - 1);
      assert Enabled(tr[i - 1], st[i - 1]) && tr[i] == Do(tr[i - 1], st[i - 1]);
      StepReturns(tr[i - 1], st[i - 1]);
    }
  }

  lemma {:induction false} NonePending(th: seq<Worker>, k: nat)
    requires k <= |th| && forall n :: 0 <= n < |th| ==> th[n].result == 0
    ensures Pending(th, k) == 0
  {
    if k > 0 {
      NonePending(th, k - 1);
    }
  }

  // ----- ownership of the lists -----

  /** The main thread changes a list only while its thread waits, a worker only its own and only while it executes. */
  lemma Ownership(s: State, a: Step, n: nat)
    requires Inv(s) && Enabled(s, a) && n < |s.th|
    ensures |Do(s, a).th| == |s.th|
    ensures var w, w' := s.th[n], Do(s, a).th[n];
      w'.obj != w.obj || w'.cnt != w.cnt ==>
        if IsWorkerStep(a) then a.n == n && w.status == EXEC else w.status == WAIT && (w.pc == Entry || w.pc == Asleep)
  {
    hide Do, Enabled;
    assert ThreadOk(s, n);
    if a.Take? {
      TakeChanges(s, a.n);
    } else if a.Store? {
      StoreChanges(s);
      assert ThreadOk(s, s.cur);
    } else if a.TakeFree? {
      TakeFreeChanges(s);
    } else {
      ListsUntouched(s, a);
    }
  }

  lemma TakeChanges(s: State, n: nat)
    requires Inv(s) && Enabled(s, Take(n))
    ensures n < |s.th| && s.th[n].status == EXEC && Do(s, Take(n)).th == s.th[n := Do(s, Take(n)).th[n]]
  {
    assert ThreadOk(s, n);
  }

  lemma StoreChanges(s: State)
    requires Inv(s) && Enabled(s, Store)
    ensures 0 <= s.cur < |s.th| && s.th[s.cur].status == WAIT &&
      Do(s, Store).th == s.th[s.cur := Do(s, Store).th[s.cur]]
  {
  }

  lemma TakeFreeChanges(s: State)
    requires Enabled(s, TakeFree)
    ensures var s' := Do(s, TakeFree);
      s'.th == s.th || (0 <= s'.cur < |s.th| && s.th[s'.cur].status == WAIT && s'.th == s.th[s'.cur := s'.th[s'.cur]])
  {
  }

  /** A waiting thread may wake up without a reason at any time: it waits again, and nothing has changed. */
  lemma SpuriousHarmless(s: State)
    requires Inv(s)
    ensures forall n: nat :: n < |s.th| && s.th[n].pc == Asleep ==> Steps(s, [Spurious(n), Enter(n)]) == Some(s)
    ensures s.main.NoneFree? ==> Steps(s, [MainSpurious, TakeFree]) == Some(s)
    ensures s.main.Blocked? ==> Steps(s, [MainSpurious, ScanThreads]) == Some(s)
  {
    hide Inv, Do, Enabled;
    forall n: nat | n < |s.th| && s.th[n].pc == Asleep ensures Steps(s, [Spurious(n), Enter(n)]) == Some(s) {
      WorkerWokenAgain(s, n);
      TwoSteps(s, Spurious(n), Enter(n));
    }
    if s.main.NoneFree? || s.main.Blocked? {
      MainWokenAgain(s);
      TwoSteps(s, MainSpurious, if s.main.NoneFree? then TakeFree else ScanThreads);
    }
  }

  lemma WorkerWokenAgain(s: State, n: nat)
    requires Inv(s) && n < |s.th| && s.th[n].pc == Asleep
    ensures Enabled(s, Spurious(n)) && Enabled(Do(s, Spurious(n)), Enter(n)) && Do(Do(s, Spurious(n)), Enter(n)) == s
  {
    assert ThreadOk(s, n);
    assert s.th[n].status == WAIT;
    assert s.th[n := s.th[n]] == s.th;
  }

  lemma MainWokenAgain(s: State)
    requires Inv(s) && (s.main.NoneFree? || s.main.Blocked?)
    ensures var a := if s.main.NoneFree? then TakeFree else ScanThreads;
      Enabled(s, MainSpurious) && Enabled(Do(s, MainSpurious), a) && Do(Do(s, MainSpurious), a) == s
  {
    hide ThreadsOk, Conserved, LogOk;
    if s.main.NoneFree? {
      NoneFreeAgain(s);
    } else {
      BlockedAgain(s);
    }
  }

  lemma NoneFreeAgain(s: State)
    requires s.main.NoneFree? && |s.th| > 0 && forall n :: 0 <= n < |s.th| ==> s.th[n].status == EXEC
    ensures Enabled(s, MainSpurious) && Enabled(Do(s, MainSpurious), TakeFree) &&
      Do(Do(s, MainSpurious), TakeFree) == s
  {
    assert FreeThread(Do(s, MainSpurious), 0) == None;
  }

  lemma BlockedAgain(s: State)
    requires s.main.Blocked? && s.main.i < |s.th| && s.th[s.main.i].status == EXEC
    ensures Enabled(s, MainSpurious) && Enabled(Do(s, MainSpurious), ScanThreads) &&
      Do(Do(s, MainSpurious), ScanThreads) == s
  {
  }

  /** get_free_thread() takes the same thread twice in a row only if none of the others waits. */
  lemma TakesTurns(s: State, t: State, n: nat)
    requires s.main.Queue? && FreeThread(s, 0) == Some(n) && t.last == Do(s, TakeFree).last
    requires |s.th| > 0 && FreeThread(t, 0) == Some(n)
    ensures forall k :: 0 <= k < |t.th| && k != n ==> t.th[k].status != WAIT
  {
    hide FreeThread;
    assert t.last == n + 1;
    var m :| 0 <= m < |t.th| && n == Slot(t, m) && NoneWaits(t, 0, m);
    forall k | 0 <= k < |t.th| && k != n ensures t.th[k].status != WAIT {
      var i := SlotOf(t, k);
      BehindLast(m, i, n, |t.th|);
    }
  }

  /** Counted from n + 1 on, n itself comes last. */
  lemma BehindLast(m: nat, i: nat, n: nat, size: nat)
    requires m < size && i < size && n < size && (m + (n + 1)) % size == n && i != m
    ensures i < m
  {
    assert m + (n + 1) == n || m + (n + 1) == n + size;
  }

  /** Buffer indices are always in range, so that neither the main thread nor a worker is ever held up by them. */
  lemma NeverStuck(s: State)
    requires Inv(s)
    ensures forall n :: 0 <= n < |s.th| ==> s.th[n].cnt <= OBJ_MAX == |s.th[n].obj|
    ensures s.main.Append? ==> Enabled(s, Store)
    ensures s.main == Full ==> Enabled(s, StartThread)
    ensures s.main.Queue? ==> Enabled(s, TakeFree)
    ensures s.main.Scan? ==> Enabled(s, ScanThreads)
    ensures s.main == Flush ==> Enabled(s, FlushAll)
    ensures s.main == Traverse ==> Enabled(s, EndTraverse) && forall obj :: |s.th| > 0 ==> Enabled(s, CallQueue(obj))
    ensures s.main == Idle ==> Enabled(s, TellExit) && forall rule :: Enabled(s, StartRule(rule))
    ensures forall n: nat :: n < |s.th| && s.th[n].pc == Entry ==> Enabled(s, Enter(n))
    ensures forall n: nat :: n < |s.th| && s.th[n].pc.Loop? ==> Enabled(s, Take(n)) || Enabled(s, Leave(n))
    ensures forall n: nat, res :: n < |s.th| && s.th[n].pc.Calling? ==> Enabled(s, Return(n, res))
    ensures forall n: nat :: n < |s.th| && s.th[n].pc.Done? ==> Enabled(s, Report(n))
  {
    hide Enabled, Inv, MainOk;
    MainGoesOn(s);
    forall n: nat | n < |s.th| {
      WorkerGoesOn(s, n);
    }
  }

  lemma MainGoesOn(s: State)
    requires Inv(s)
    ensures s.main.Append? ==> Enabled(s, Store)
    ensures s.main == Full ==> Enabled(s, StartThread)
    ensures s.main.Queue? ==> Enabled(s, TakeFree)
    ensures s.main.Scan? ==> Enabled(s, ScanThreads)
    ensures s.main == Flush ==> Enabled(s, FlushAll)
    ensures s.main == Traverse ==> Enabled(s, EndTraverse) && forall obj :: |s.th| > 0 ==> Enabled(s, CallQueue(obj))
    ensures s.main == Idle ==> Enabled(s, TellExit) && forall rule :: Enabled(s, StartRule(rule))
  {
    hide Conserved, LogOk;
    assert 0 <= s.cur < |s.th| ==> ThreadOk(s, s.cur);
  }

  lemma WorkerGoesOn(s: State, n: nat)
    requires Inv(s) && n < |s.th|
    ensures s.th[n].cnt <= OBJ_MAX == |s.th[n].obj|
    ensures s.th[n].pc == Entry ==> Enabled(s, Enter(n))
    ensures s.th[n].pc.Loop? ==> Enabled(s, Take(n)) || Enabled(s, Leave(n))
    ensures s.th[n].pc.Calling? ==> forall res :: Enabled(s, Return(n, res))
    ensures s.th[n].pc.Done? ==> Enabled(s, Report(n))
  {
    hide Conserved, LogOk, MainOk;
    assert ThreadOk(s, n);
  }

  // ----- progress -----

  /** While the main thread waits for a condition some worker executes and can move. */
  lemma NoDeadlock(s: State) returns (a: Step)
    requires Inv(s) && (s.main.NoneFree? || s.main.Blocked?)
    ensures IsWorkerStep(a) && Enabled(s, a) && s.th[a.n].status == EXEC
  {
    var n := if s.main.NoneFree? then 0 else s.main.i;
    assert ThreadOk(s, n);
    a := match s.th[n].pc
      case Entry => Enter(n)
      case Loop(res) => if res == 0 && s.th[n].cnt > 0 then Take(n) else Leave(n)
      case Calling(_) => Return(n, 0)
      case Done(_) => Report(n)
      case _ => EndTraverse;
  }

  /** How many steps a worker can make on its own. */
  function Rank(w: Worker): nat {
    match w.pc
    case Entry => if w.status == EXEC then 4 + 2 * w.cnt else 1
    case Asleep => 0
    case Loop(_) => 3 + 2 * w.cnt
    case Calling(_) => 4 + 2 * w.cnt
    case Done(_) => 2
    case Ended => 0
  }

  function Ranks(th: seq<Worker>, k: nat): nat
    requires k <= |th|
  {
    if k == 0 then 0 else Ranks(th, k - 1) + Rank(th[k - 1])
  }

  lemma {:induction false} RanksUpdate(th: seq<Worker>, n: nat, w: Worker, k: nat)
    requires n < |th| && k <= |th|
    ensures Ranks(th[n := w], k) == Ranks(th, k) + if n < k then Rank(w) - Rank(th[n]) else 0
  {
    if k > 0 {
      RanksUpdate(th, n, w, k - 1);
    }
  }

  lemma WorkerStepRanks(s: State, a: Step)
    requires Inv(s) && Enabled(s, a) && IsWorkerStep(a)
    ensures |Do(s, a).th| == |s.th| && Ranks(Do(s, a).th, |s.th|) < Ranks(s.th, |s.th|)
  {
    hide Ranks, Rank, Do, Inv;
    StepThreadOk(s, a);
    WorkerStepRank(s, a);
    RanksUpdate(s.th, a.n, Do(s, a).th[a.n], |s.th|);
  }

  lemma StepThreadOk(s: State, a: Step)
    requires Inv(s) && Enabled(s, a) && IsWorkerStep(a)
    ensures a.n < |s.th| && ThreadOk(s, a.n)
  {
  }

  /** The step of a worker changes only this worker, and it has less to do then. */
  lemma WorkerStepRank(s: State, a: Step)
    requires IsWorkerStep(a) && a.n < |s.th| && ThreadOk(s, a.n) && Enabled(s, a)
    ensures a.n < |s.th| == |Do(s, a).th| && Do(s, a).th == s.th[a.n := Do(s, a).th[a.n]]
    ensures Rank(Do(s, a).th[a.n]) < Rank(s.th[a.n])
  {
  }

  lemma WorkersOnly(s: State, a: Step)
    requires (s.main.NoneFree? || s.main.Blocked?) && Enabled(s, a) && !IsSpurious(a)
    ensures IsWorkerStep(a)
  {
  }

  /**
   * While the main thread waits and nothing wakes up spuriously, the workers can make only a
   * bounded number of steps; by NoDeadlock they can always make one more, until the main thread
   * is woken.
   */
  lemma {:induction false} WaitIsBounded(tr: seq<State>, st: seq<Step>)
    requires Run(tr, st) && Inv(tr[0])
    requires forall i :: 0 <= i < |st| ==> (tr[i].main.NoneFree? || tr[i].main.Blocked?) && !IsSpurious(st[i])
    ensures Inv(tr[|st|]) && |tr[|st|].th| == |tr[0].th|
    ensures |st| + Ranks(tr[|st|].th, |tr[0].th|) <= Ranks(tr[0].th, |tr[0].th|)
  {
    hide Inv, Do, Enabled, Ranks;
    if st != [] {
      var n := |st| - 1;
      assert Run(tr[..n + 1], st[..n]) by {
        forall i | 0 <= i < n ensures Enabled(tr[..n + 1][i], st[..n][i]) &&
          tr[..n + 1][i + 1] == Do(tr[..n + 1][i], st[..n][i]) {
          assert Enabled(tr[i], st[i]) && tr[i + 1] == Do(tr[i], st[i]);
        }
      }
      WaitIsBounded(tr[..n + 1], st[..n]);
      assert Enabled(tr[n], st[n]) && tr[n + 1] == Do(tr[n], st[n]);
      WorkersOnly(tr[n], st[n]);
      StepInv(tr[n], st[n]);
      WorkerStepRanks(tr[n], st[n]);
    }
  }

  // ----- what a failing call leads to -----

  /** The state after a sequence of steps, if all of them are possible. */
  function Steps(s: State, st: seq<Step>): Option<State>
    decreases |st|
  {
    if st == [] then Some(s) else if Enabled(s, st[0]) then Steps(Do(s, st[0]), st[1..]) else None
  }

  lemma {:induction false} StepsConcat(s: State, p: seq<Step>, q: seq<Step>)
    requires Steps(s, p).Some?
    ensures Steps(s, p + q) == Steps(Steps(s, p).value, q)
    decreases |p|
  {
    hide Do, Enabled;
    if p == [] {
      assert p + q == q;
    } else {
      StepsConcat(Do(s, p[0]), p[1..], q);
      assert (p + q)[1..] == p[1..] + q;
    }
  }

  lemma TwoSteps(s: State, a: Step, b: Step)
    requires Enabled(s, a) && Enabled(Do(s, a), b)
    ensures Steps(s, [a, b]) == Some(Do(Do(s, a), b))
  {
    assert [a, b][1..] == [b];
    assert Steps(Do(s, a), [b]) == Some(Do(Do(s, a), b));
  }

  /** All workers but the first one wait and have nothing to do. */
  ghost predicate OthersIdle(th: seq<Worker>) {
    |th| > 0 && forall n :: 0 < n < |th| ==> th[n].status == WAIT && th[n].cnt == 0
  }

  /** The list of threads with another first one. */
  function With(th: seq<Worker>, w: Worker): (r: seq<Worker>)
    requires |th| > 0
    ensures |r| == |th| && r[0] == w && forall n :: 0 < n < |th| ==> r[n] == th[n]
  {
    th[0 := w]
  }

  lemma WithTwice(th: seq<Worker>, v: Worker, w: Worker)
    requires |th| > 0
    ensures With(With(th, v), w) == With(th, w)
    ensures OthersIdle(th) ==> OthersIdle(With(th, w))
  {
  }

  /** The threads after obj_queue_ini(). */
  function Ruled(th: seq<Worker>, rule: int): (r: seq<Worker>)
    ensures |r| == |th| && forall n :: 0 <= n < |th| ==> r[n] == th[n].(rule := rule)
  {
    MapAll(th, (w: Worker) => w.(rule := rule))
  }

  /**
   * A call of the first worker is going to fail while objects are left, and the main thread waits
   * for the end of the rule.
   */
  ghost predicate FailingCall(s: State) {
    OthersIdle(s.th) && s.main == Scan(0) && s.th[0].pc.Calling? && 0 < s.th[0].cnt <= |s.th[0].obj|
  }

  lemma FailedLeaves(s: State, res: int)
    requires FailingCall(s) && res != 0
    ensures Enabled(s, Return(0, res)) && Enabled(Do(s, Return(0, res)), Leave(0))
    ensures Do(Do(s, Return(0, res)), Leave(0)) == s.(th := With(s.th, s.th[0].(pc := Done(res))), failed := true)
  {
  }

  lemma FailedReports(s: State, res: int)
    requires OthersIdle(s.th) && s.main == Scan(0) && s.th[0].pc == Done(res)
    ensures Enabled(s, Report(0)) && Enabled(Do(s, Report(0)), ScanThreads)
    ensures Do(Do(s, Report(0)), ScanThreads) ==
      s.(main := Idle, th := With(s.th, s.th[0].(pc := Entry, status := WAIT, result := res)))
  {
  }

  lemma RuleStarts(s: State, rule: int)
    requires s.main == Idle
    ensures Enabled(s, StartRule(rule)) && Enabled(Do(s, StartRule(rule)), EndTraverse)
    ensures Do(Do(s, StartRule(rule)), EndTraverse) ==
      s.(main := Flush, cur := -1, rule := rule, th := Ruled(s.th, rule))
  {
    assert Do(s, StartRule(rule)).th == Ruled(s.th, rule);
  }

  lemma FlushedOthers(th: seq<Worker>)
    requires OthersIdle(th) && th[0].pc == Entry && th[0].status == WAIT && th[0].cnt > 0
    ensures MapAll(th, Flushed) == With(th, th[0].(status := EXEC))
  {
  }

  lemma LeftoverStarts(s: State)
    requires OthersIdle(s.th) && s.main == Flush && s.th[0].pc == Entry && s.th[0].status == WAIT && s.th[0].cnt > 0
    ensures Enabled(s, FlushAll) && Enabled(Do(s, FlushAll), Enter(0))
    ensures Do(Do(s, FlushAll), Enter(0)) ==
      s.(main := Scan(0), th := With(s.th, s.th[0].(pc := Loop(0), status := EXEC)))
  {
    FlushedOthers(s.th);
  }

  /** The call returns, and the main thread gets to the end of the rule. */
  function RuleEnds(res: int): seq<Step> {
    [Return(0, res), Leave(0)] + [Report(0), ScanThreads]
  }

  /** A rule that queues nothing. */
  function NextRule(rule: int): seq<Step> {
    [StartRule(rule), EndTraverse] + [FlushAll, Enter(0)]
  }

  /** What a failing call leaves in the list is still there when the main thread goes on to the next rule. */
  lemma FailureSurvivesRule(s: State, res: int)
    requires FailingCall(s) && res != 0
    ensures Steps(s, RuleEnds(res)) ==
      Some(s.(main := Idle, th := With(s.th, s.th[0].(pc := Entry, status := WAIT, result := res)), failed := true))
  {
    hide Do, Enabled;
    FailedLeaves(s, res);
    TwoSteps(s, Return(0, res), Leave(0));
    var s1 := s.(th := With(s.th, s.th[0].(pc := Done(res))), failed := true);
    WithTwice(s.th, s.th[0].(pc := Done(res)), s.th[0].(pc := Entry, status := WAIT, result := res));
    WithTwice(s.th, s.th[0], s.th[0].(pc := Done(res)));
    FailedReports(s1, res);
    TwoSteps(s1, Report(0), ScanThreads);
    StepsConcat(s, [Return(0, res), Leave(0)], [Report(0), ScanThreads]);
  }

  /** The next rule is called for it. */
  lemma LeftoverGoesToRule(s: State, rule: int)
    requires OthersIdle(s.th) && s.main == Idle && s.th[0].pc == Entry && s.th[0].status == WAIT
    requires 0 < s.th[0].cnt <= |s.th[0].obj|
    ensures var end := Steps(s, NextRule(rule) + [Take(0)]);
      end.Some? && end.value.log == s.log + [(s.th[0].obj[s.th[0].cnt - 1], rule)]
  {
    hide Do, Enabled;
    RuleStarts(s, rule);
    TwoSteps(s, StartRule(rule), EndTraverse);
    var s3 := s.(main := Flush, cur := -1, rule := rule, th := Ruled(s.th, rule));
    LeftoverStarts(s3);
    TwoSteps(s3, FlushAll, Enter(0));
    var s4 := s3.(main := Scan(0), th := With(s3.th, s3.th[0].(pc := Loop(0), status := EXEC)));
    StepsConcat(s, [StartRule(rule), EndTraverse], [FlushAll, Enter(0)]);
    LeftoverTaken(s4);
    OneStep(s4, Take(0));
    StepsConcat(s, NextRule(rule), [Take(0)]);
  }

  /** What a failing call leaves behind is passed to the next rule, if this one queues nothing. */
  lemma FailureReachesNextRule(s: State, res: int, rule: int)
    requires FailingCall(s) && res != 0
    ensures var left := s.th[0].obj[s.th[0].cnt - 1];
      var end := Steps(s, RuleEnds(res) + (NextRule(rule) + [Take(0)]));
      end.Some? && end.value.log == s.log + [(left, rule)]
  {
    hide Do, Enabled, RuleEnds, NextRule;
    FailureSurvivesRule(s, res);
    LeftoverGoesToRule(Steps(s, RuleEnds(res)).value, rule);
    StepsConcat(s, RuleEnds(res), NextRule(rule) + [Take(0)]);
  }

  lemma OneStep(s: State, a: Step)
    requires Enabled(s, a)
    ensures Steps(s, [a]) == Some(Do(s, a))
  {
    assert [a][1..] == [];
  }

  lemma LeftoverTaken(s: State)
    requires |s.th| > 0 && s.th[0].pc == Loop(0) && 0 < s.th[0].cnt <= |s.th[0].obj|
    ensures Enabled(s, Take(0)) && Do(s, Take(0)).log == s.log + [(s.th[0].obj[s.th[0].cnt - 1], s.th[0].rule)]
  {
  }

  // ----- a run that gets there -----

  /** A rule queues two objects, and the first worker calls it for the second one. */
  function Opening(rule: int, a: int, b: int): seq<Step> {
    [StartRule(rule), CallQueue(a)] + [TakeFree, Store] + [CallQueue(b), Store] + [EndTraverse, FlushAll]
    + [Enter(0), Take(0)]
  }

  lemma FirstQueued(s: State, rule: int, a: int)
    requires s.main == Idle && |s.th| > 0
    ensures Enabled(s, StartRule(rule)) && Enabled(Do(s, StartRule(rule)), CallQueue(a))
    ensures Do(Do(s, StartRule(rule)), CallQueue(a)) ==
      s.(main := Queue(a), cur := -1, rule := rule, th := Ruled(s.th, rule))
  {
    assert Do(s, StartRule(rule)).th == Ruled(s.th, rule);
  }

  lemma FirstStored(s: State, a: int)
    requires |s.th| > 0 && s.main == Queue(a) && s.last == 0
    requires s.th[0].Valid() && s.th[0].status == WAIT && s.th[0].cnt == 0 && s.th[0].result == 0
    ensures Enabled(s, TakeFree) && Enabled(Do(s, TakeFree), Store)
    ensures var item := Item(a, s.rule);
      Do(Do(s, TakeFree), Store) == s.(main := Traverse, cur := 0, last := 1,
        th := With(s.th, s.th[0].(obj := s.th[0].obj[0 := item], cnt := 1)), queued := s.queued + multiset{item})
  {
    assert Slot(s, 0) == 0;
    assert FreeThread(s, 0) == Some(0);
  }

  lemma SecondStored(s: State, b: int)
    requires |s.th| > 0 && s.main == Traverse && s.cur == 0 && s.th[0].Valid() && s.th[0].cnt == 1
    ensures Enabled(s, CallQueue(b)) && Enabled(Do(s, CallQueue(b)), Store)
    ensures var item := Item(b, s.rule);
      Do(Do(s, CallQueue(b)), Store) == s.(main := Traverse,
        th := With(s.th, s.th[0].(obj := s.th[0].obj[1 := item], cnt := 2)), queued := s.queued + multiset{item})
  {
  }

  lemma TwoFlushed(s: State)
    requires OthersIdle(s.th) && s.main == Traverse && s.th[0].pc == Entry && s.th[0].status == WAIT && s.th[0].cnt > 0
    ensures Enabled(s, EndTraverse) && Enabled(Do(s, EndTraverse), FlushAll)
    ensures Do(Do(s, EndTraverse), FlushAll) == s.(main := Scan(0), th := With(s.th, s.th[0].(status := EXEC)))
  {
    FlushedOthers(s.th);
  }

  lemma SecondTaken(s: State)
    requires |s.th| > 0 && s.th[0].pc == Entry && s.th[0].status == EXEC && s.th[0].cnt == 2 <= |s.th[0].obj|
    ensures Enabled(s, Enter(0)) && Enabled(Do(s, Enter(0)), Take(0))
    ensures var item := s.th[0].obj[1];
      Do(Do(s, Enter(0)), Take(0)) ==
        s.(th := With(s.th, s.th[0].(pc := Calling(item), cnt := 1)), log := s.log + [(item, s.th[0].rule)])
  {
  }

  /** The threads before the first object is queued. */
  lemma StartsIdle(s: State, rule: int)
    requires Init(s) && |s.th| > 0
    ensures var w := Ruled(s.th, rule)[0];
      OthersIdle(Ruled(s.th, rule)) && w.Valid() && w.pc == Entry && w.status == WAIT && w.cnt == 0 && w.result == 0
    ensures s.main == Idle && s.last == 0 && s.log == [] && s.queued == multiset{}
  {
  }

  /** A failing call can come about from every initial state with workers. */
  lemma FailingCallReached(s: State, rule: int, a: int, b: int)
    requires Init(s) && |s.th| > 0
    ensures var end := Steps(s, Opening(rule, a, b));
      && end.Some? && FailingCall(end.value) && end.value.th[0].cnt == 1 && end.value.th[0].obj[0] == Item(a, rule)
      && end.value.log == [(Item(b, rule), rule)] && end.value.queued == multiset{Item(a, rule), Item(b, rule)}
  {
    hide Do, Enabled, Init, OthersIdle, Ruled, With;
    StartsIdle(s, rule);
    var th := Ruled(s.th, rule);
    var w := th[0];
    FirstQueued(s, rule, a);
    TwoSteps(s, StartRule(rule), CallQueue(a));
    var s1 := s.(main := Queue(a), cur := -1, rule := rule, th := th);
    FirstStored(s1, a);
    TwoSteps(s1, TakeFree, Store);
    var w2 := w.(obj := w.obj[0 := Item(a, rule)], cnt := 1);
    var s2 := s1.(main := Traverse, cur := 0, last := 1, th := With(th, w2), queued := s.queued +
      multiset{Item(a, rule)});
    SecondStored(s2, b);
    TwoSteps(s2, CallQueue(b), Store);
    var w3 := w2.(obj := w2.obj[1 := Item(b, rule)], cnt := 2);
    WithTwice(th, w2, w3);
    var s3 := s2.(th := With(th, w3), queued := s2.queued + multiset{Item(b, rule)});
    TwoFlushed(s3);
    TwoSteps(s3, EndTraverse, FlushAll);
    var w4 := w3.(status := EXEC);
    WithTwice(th, w3, w4);
    var s4 := s3.(main := Scan(0), th := With(th, w4));
    SecondTaken(s4);
    TwoSteps(s4, Enter(0), Take(0));
    WithTwice(th, w4, w4.(pc := Calling(Item(b, rule)), cnt := 1));
    OpeningIs(s, rule, a, b, s1, s2, s3, s4);
  }

  /** Ten steps, two at a time. */
  lemma OpeningIs(s: State, rule: int, a: int, b: int, s1: State, s2: State, s3: State, s4: State)
    requires Steps(s, [StartRule(rule), CallQueue(a)]) == Some(s1) && Steps(s1, [TakeFree, Store]) == Some(s2)
    requires Steps(s2, [CallQueue(b), Store]) == Some(s3) && Steps(s3, [EndTraverse, FlushAll]) == Some(s4)
    requires Steps(s4, [Enter(0), Take(0)]).Some?
    ensures Steps(s, Opening(rule, a, b)) == Steps(s4, [Enter(0), Take(0)])
  {
    hide Steps;
    var p := [StartRule(rule), CallQueue(a)];
    StepsConcat(s, p, [TakeFree, Store]);
    StepsConcat(s, p + [TakeFree, Store], [CallQueue(b), Store]);
    StepsConcat(s, p + [TakeFree, Store] + [CallQueue(b), Store], [EndTraverse, FlushAll]);
    StepsConcat(s, p + [TakeFree, Store] + [CallQueue(b), Store] + [EndTraverse, FlushAll], [Enter(0), Take(0)]);
  }

  /** Steps that are possible one after the other make a run. */
  lemma {:induction false} StepsAreRun(s: State, st: seq<Step>) returns (tr: seq<State>)
    requires Steps(s, st).Some?
    ensures Run(tr, st) && tr[0] == s && forall i :: 0 <= i <= |st| ==> Steps(s, st[..i]) == Some(tr[i])
    decreases |st|
  {
    hide Do, Enabled;
    if st == [] {
      return [s];
    }
    var rest := StepsAreRun(Do(s, st[0]), st[1..]);
    tr := [s] + rest;
    forall i | 0 <= i < |st| ensures Enabled(tr[i], st[i]) && tr[i + 1] == Do(tr[i], st[i]) {
      if i > 0 {
        assert Enabled(rest[i - 1], st[1..][i - 1]) && rest[i] == Do(rest[i - 1], st[1..][i - 1]);
      }
    }
    forall i | 0 <= i <= |st| ensures Steps(s, st[..i]) == Some(tr[i]) {
      if i > 0 {
        assert st[..i][1..] == st[1..][..i - 1];
      }
    }
  }

  /**
   * With a failing call only at-most-once remains. There is a run in which an object is queued by
   * one rule and not passed to it until its end; the next rule, which itself queues nothing, is
   * called for it.
   */
  lemma FailureBreaksGuarantee(s: State, rule1: int, rule2: int, a: int, b: int, res: int)
    returns (tr: seq<State>, st: seq<Step>, end: nat)
    requires Init(s) && |s.th| > 0 && res != 0
    ensures Run(tr, st) && tr[0] == s && end <= |st|
    ensures tr[end].main == Idle && tr[end].queued == Called(tr[end].log) + multiset{Item(a, rule1)}
    ensures tr[|st|].log == tr[end].log + [(Item(a, rule1), rule2)]
  {
    hide Do, Enabled, Init, RuleEnds, NextRule, Opening;
    var p := Opening(rule1, a, b) + RuleEnds(res);
    FailingCallReached(s, rule1, a, b);
    var s1 := Steps(s, Opening(rule1, a, b)).value;
    FailureSurvivesRule(s1, res);
    StepsConcat(s, Opening(rule1, a, b), RuleEnds(res));
    var s2 := Steps(s, p).value;
    LeftoverGoesToRule(s2, rule2);
    st, end := p + (NextRule(rule2) + [Take(0)]), |p|;
    StepsConcat(s, p, NextRule(rule2) + [Take(0)]);
    tr := StepsAreRun(s, st);
    assert st[..end] == p && st[..|st|] == st;
    CalledMore([], (Item(b, rule1), rule1));
    assert [] + [(Item(b, rule1), rule1)] == [(Item(b, rule1), rule1)];
  }
}
