/**
 The thread pool of thread_pool.c over the blocking queue: workers loop on the shutdown
 flag, submitters check the flag before they enqueue, a shutdown broadcasts and joins, and
 destruction clears what is left in the queue.
 */
module ThreadPool {
  import opened Common
  import Q = BlockingQueue

  /** `hasFree` tells whether the submitter supplied an arg_free function. */
  datatype Task = Task(id: nat, hasFree: bool)

  /** Where a worker is in thread_routine and process_task. */
  datatype Pc =
    | AtCheck
    | Dequeuing
    | Waiting
    | Running(task: Task)
    | Freeing(task: Task)
    | Exited

  datatype Event = Ran(task: Task) | ArgFreed(task: Task)

  datatype Pool = Pool(
    queue: Q.State<Task>,
    workers: seq<Pc>,
    submitting: set<Task>,
    created: set<nat>,
    taken: seq<Task>,
    released: seq<Task>,
    completed: set<Task>,
    log: seq<Event>,
    broadcast: bool,
    late: seq<nat>)

  const MIN_THREADS: nat := 2

  ghost predicate Init(s: Pool) {
    && Q.Init(s.queue) && s.queue.maxSize == Q.UNBOUNDED && !s.queue.shutdown
    && |s.workers| >= MIN_THREADS && (forall w :: 0 <= w < |s.workers| ==> s.workers[w] == AtCheck)
    && s.submitting == {} && s.created == {} && s.completed == {}
    && s.taken == [] && s.released == [] && s.log == [] && !s.broadcast
    && |s.late| == |s.workers| && forall w :: 0 <= w < |s.late| ==> s.late[w] == 0
  }

  ghost predicate AllExited(s: Pool) {
    forall w :: 0 <= w < |s.workers| ==> s.workers[w].Exited?
  }

  datatype Step =
    | SubmitCheck(task: Task)
    | SubmitEnqueue(task: Task, t: nat)
    | CheckFlag(w: nat)
    | TryDequeue(w: nat)
    | RunTask(w: nat)
    | FreeTask(w: nat)
    | WakeForNothing(w: nat)
    | RaiseFlag
    | Broadcast
    | ReleaseOne

  /** add_task up to line 139: refused once the flag is up, else a task of its own exists. */
  ghost predicate SubmitCheckNext(s: Pool, s': Pool, task: Task) {
    && !s.queue.shutdown && task.id !in s.created
    && s' == s.(submitting := s.submitting + {task}, created := s.created + {task.id})
  }

  ghost predicate SubmitEnqueueNext(s: Pool, s': Pool, task: Task, t: nat) {
    && task in s.submitting && t >= |s.workers|
    && Q.Enqueue(s.queue, s'.queue, t, task)
    && s' == s.(queue := s'.queue, submitting := s.submitting - {task})
  }

  ghost predicate CheckFlagNext(s: Pool, s': Pool, w: nat) {
    && w < |s.workers| && s.workers[w].AtCheck?
    && s' == s.(workers := s.workers[w := if s.queue.shutdown then Exited else Dequeuing])
  }

  ghost predicate TryDequeueNext(s: Pool, s': Pool, w: nat) {
    && w < |s.workers| && w < |s.late|
    && (s.workers[w].Dequeuing? || (s.workers[w].Waiting? && w in s.queue.wokenEmpty))
    && Q.Dequeue(s.queue, s'.queue, w)
    && if |s.queue.items| > 0 then
         var task := s.queue.items[0];
         s' == s.(queue := s'.queue, workers := s.workers[w := Running(task)], taken := s.taken + [task],
                  late := if s.queue.shutdown then s.late[w := s.late[w] + 1] else s.late)
       else
         s' == s.(queue := s'.queue, workers := s.workers[w := if s.queue.shutdown then AtCheck else Waiting])
  }

  ghost predicate RunTaskNext(s: Pool, s': Pool, w: nat) {
    && w < |s.workers| && s.workers[w].Running?
    && var task := s.workers[w].task;
       s' == s.(workers := s.workers[w := Freeing(task)], log := s.log + [Ran(task)])
  }

  ghost predicate FreeTaskNext(s: Pool, s': Pool, w: nat) {
    && w < |s.workers| && s.workers[w].Freeing?
    && var task := s.workers[w].task;
       s' == s.(workers := s.workers[w := AtCheck], completed := s.completed + {task},
                log := if task.hasFree then s.log + [ArgFreed(task)] else s.log)
  }

  ghost predicate WakeNext(s: Pool, s': Pool, w: nat) {
    && Q.Spurious(s.queue, s'.queue, w)
    && s' == s.(queue := s'.queue)
  }

  ghost predicate RaiseFlagNext(s: Pool, s': Pool) {
    && Q.RaiseFlag(s.queue, s'.queue)
    && s' == s.(queue := s'.queue)
  }

  /** `broadcast` remembers that a shutdown broadcast came after the flag. */
  ghost predicate BroadcastNext(s: Pool, s': Pool) {
    && Q.Broadcast(s.queue, s'.queue)
    && s' == s.(queue := s'.queue, broadcast := s.broadcast || s.queue.shutdown)
  }

  /** After the joins, queue_clear dequeues and frees one task; the clearing thread is not a worker. */
  ghost predicate ReleaseOneNext(s: Pool, s': Pool) {
    && AllExited(s) && |s.queue.items| > 0
    && Q.Dequeue(s.queue, s'.queue, |s.workers|)
    && s' == s.(queue := s'.queue, released := s.released + [s.queue.items[0]])
  }

  ghost predicate NextStep(s: Pool, s': Pool, step: Step) {
    match step
    case SubmitCheck(task) => SubmitCheckNext(s, s', task)
    case SubmitEnqueue(task, t) => SubmitEnqueueNext(s, s', task, t)
    case CheckFlag(w) => CheckFlagNext(s, s', w)
    case TryDequeue(w) => TryDequeueNext(s, s', w)
    case RunTask(w) => RunTaskNext(s, s', w)
    case FreeTask(w) => FreeTaskNext(s, s', w)
    case WakeForNothing(w) => WakeNext(s, s', w)
    case RaiseFlag => RaiseFlagNext(s, s')
    case Broadcast => BroadcastNext(s, s')
    case ReleaseOne => ReleaseOneNext(s, s')
  }

  // ----- the queue underneath -----

  /** Sleepers and woken threads of the queue are exactly the waiting workers; nobody waits for room. */
  ghost predicate WaitInv(s: Pool) {
    && Q.Inv(s.queue) && s.queue.maxSize == Q.UNBOUNDED
    && s.queue.asleepFull == {} && s.queue.wokenFull == {}
    && |s.late| == |s.workers|
    && (forall w: nat ::
          w in s.queue.asleepEmpty || w in s.queue.wokenEmpty <==> w < |s.workers| && s.workers[w].Waiting?)
  }

  /** With nobody waiting for room, a dequeue changes only the items and who waits for them. */
  lemma DequeueShape(q: Q.State<Task>, q': Q.State<Task>, w: nat)
    requires Q.Dequeue(q, q', w) && q.asleepFull == {}
    ensures q'.maxSize == q.maxSize && q'.shutdown == q.shutdown && q'.entered == q.entered
    ensures q'.asleepFull == {} && q'.wokenFull == q.wokenFull && q'.wokenEmpty == q.wokenEmpty - {w}
    ensures |q.items| > 0 ==> q'.asleepEmpty == q.asleepEmpty
                              && q'.items == q.items[1..] && q'.left == q.left + [q.items[0]]
    ensures |q.items| == 0 ==> q'.items == [] && q'.left == q.left
                               && q'.asleepEmpty == if q.shutdown then q.asleepEmpty else q.asleepEmpty + {w}
  {
  }

  lemma WaitInvKeptByWorker(s: Pool, s': Pool, w: nat)
    requires WaitInv(s) && TryDequeueNext(s, s', w)
    ensures WaitInv(s')
  {
    hide Q.Inv, Q.Dequeue;
    NotBoth(s.queue, w);
    Q.DequeueKeepsInv(s.queue, s'.queue, w);
    DequeueShape(s.queue, s'.queue, w);
    WorkerMoved(s, s', w);
    hide TryDequeueNext;
    forall v: nat
      ensures v in s'.queue.asleepEmpty || v in s'.queue.wokenEmpty <==> v < |s'.workers| && s'.workers[v].Waiting?
    {
      if v != w {
        assert v < |s.workers| ==> s'.workers[v] == s.workers[v];
      }
    }
  }

  lemma NotBoth(q: Q.State<Task>, w: nat)
    requires Q.Inv(q)
    ensures w in q.wokenEmpty ==> w !in q.asleepEmpty
  {
  }

  lemma WorkerMoved(s: Pool, s': Pool, w: nat)
    requires TryDequeueNext(s, s', w)
    ensures w < |s.workers| == |s'.workers| && |s'.late| == |s.late| && s'.workers == s.workers[w := s'.workers[w]]
    ensures s'.workers[w].Waiting? <==> s.queue.items == [] && !s.queue.shutdown
    ensures s.workers[w].Dequeuing? || (s.workers[w].Waiting? && w in s.queue.wokenEmpty)
  {
    hide Q.Dequeue;
  }

  lemma WaitInvKeptByOthers(s: Pool, s': Pool, step: Step)
    requires WaitInv(s) && NextStep(s, s', step)
    requires step.SubmitEnqueue? || step.WakeForNothing? || step.ReleaseOne?
    ensures WaitInv(s')
  {
    hide Q.Inv;
    match step
    case SubmitEnqueue(task, t) => Q.EnqueueKeepsInv(s.queue, s'.queue, t, task);
    case WakeForNothing(w) => Q.WakeKeepsInv(s.queue, s'.queue, w);
    case ReleaseOne => Q.DequeueKeepsInv(s.queue, s'.queue, |s.workers|);
    case _ =>
  }

  lemma WaitInvKept(s: Pool, s': Pool, step: Step)
    requires WaitInv(s) && NextStep(s, s', step)
    ensures WaitInv(s')
  {
    match step
    case SubmitEnqueue(task, t) => WaitInvKeptByOthers(s, s', step);
    case TryDequeue(w) => WaitInvKeptByWorker(s, s', w);
    case WakeForNothing(w) => WaitInvKeptByOthers(s, s', step);
    case ReleaseOne => WaitInvKeptByOthers(s, s', step);
    case RaiseFlag => Q.FlagAndBroadcastKeepInv(s.queue, s'.queue);
    case Broadcast => Q.FlagAndBroadcastKeepInv(s.queue, s'.queue);
    case _ =>
  }

  // ----- shutdown -----

  /** Once the broadcast has come after the flag nobody sleeps; a late task is a worker's last. */
  ghost predicate ShutdownInv(s: Pool) {
    && |s.late| == |s.workers|
    && (s.broadcast ==> s.queue.shutdown && s.queue.asleepEmpty == {})
    && (forall w :: 0 <= w < |s.late| ==> s.late[w] <= 1)
    && (forall w :: 0 <= w < |s.late| && s.late[w] == 1 ==>
          s.queue.shutdown && !s.workers[w].Dequeuing? && !s.workers[w].Waiting?)
  }

  lemma ShutdownInvKept(s: Pool, s': Pool, step: Step)
    requires WaitInv(s) && ShutdownInv(s) && NextStep(s, s', step)
    ensures ShutdownInv(s')
  {
  }

  // ----- conservation -----

  predicate Holds(pc: Pc, t: Task) {
    (pc.Running? || pc.Freeing?) && pc.task == t
  }

  ghost predicate Held(s: Pool, t: Task) {
    exists w :: 0 <= w < |s.workers| && Holds(s.workers[w], t)
  }

  /** Tasks differ, and what left the queue was taken by a worker or released at the end. */
  ghost predicate FlowInv(s: Pool) {
    && Q.Fifo(s.queue)
    && s.queue.left == s.taken + s.released
    && Distinct(s.queue.entered)
    && (forall t :: t in s.queue.entered ==> t.id in s.created)
    && (forall t :: t in s.submitting ==> t.id in s.created && t !in s.queue.entered)
    && (s.released != [] ==> AllExited(s))
  }

  lemma FlowKeptByEnqueue(s: Pool, s': Pool, task: Task, t: nat)
    requires WaitInv(s) && FlowInv(s) && SubmitEnqueueNext(s, s', task, t)
    ensures FlowInv(s')
  {
    assert s'.queue.entered == s.queue.entered + [task] && s'.queue.left == s.queue.left;
    assert s'.queue.items == s.queue.items + [task];
    hide WaitInv, Q.Enqueue;
    assert s'.queue.left + s'.queue.items == (s.queue.left + s.queue.items) + [task];
  }

  lemma FlowKeptByDequeue(s: Pool, s': Pool, w: nat)
    requires s.queue.asleepFull == {} && FlowInv(s) && Q.Dequeue(s.queue, s'.queue, w)
    requires s'.created == s.created && s'.submitting == s.submitting
    requires |s.queue.items| > 0 ==> s'.taken + s'.released == s.taken + s.released + [s.queue.items[0]]
    requires |s.queue.items| == 0 ==> s'.taken == s.taken && s'.released == s.released
    requires s'.released != [] ==> AllExited(s')
    ensures FlowInv(s')
  {
    DequeueShape(s.queue, s'.queue, w);
    hide Q.Dequeue, AllExited;
    if |s.queue.items| > 0 {
      Q.HeadMoves(s.queue.left, s.queue.items);
    }
  }

  lemma FlowInvKept(s: Pool, s': Pool, step: Step)
    requires WaitInv(s) && FlowInv(s) && NextStep(s, s', step)
    ensures FlowInv(s')
  {
    hide WaitInv, Q.Enqueue, Q.Dequeue;
    match step
    case SubmitEnqueue(task, t) => FlowKeptByEnqueue(s, s', task, t);
    case TryDequeue(w) => FlowKeptByWorker(s, s', w);
    case ReleaseOne => FlowKeptByRelease(s, s');
    case _ =>
  }

  lemma FlowKeptByWorker(s: Pool, s': Pool, w: nat)
    requires WaitInv(s) && FlowInv(s) && TryDequeueNext(s, s', w)
    ensures FlowInv(s')
  {
    hide Q.Dequeue, Q.Inv;
    assert s.released == [];
    FlowKeptByDequeue(s, s', w);
  }

  lemma FlowKeptByRelease(s: Pool, s': Pool)
    requires WaitInv(s) && FlowInv(s) && ReleaseOneNext(s, s')
    ensures FlowInv(s')
  {
    hide Q.Dequeue, Q.Inv;
    assert s'.taken + s'.released == s.taken + s.released + [s.queue.items[0]];
    FlowKeptByDequeue(s, s', |s.workers|);
  }

  /** A taken task is with exactly one worker until it is completed. */
  ghost predicate CustodyInv(s: Pool) {
    && (forall t :: t in s.taken <==> Held(s, t) || t in s.completed)
    && (forall t :: t in s.completed ==> !Held(s, t))
    && (forall v, w, t :: 0 <= v < w < |s.workers| && Holds(s.workers[v], t) ==> !Holds(s.workers[w], t))
  }

  /** Who holds what after worker w moved to `pc`. */
  lemma HeldAfter(s: Pool, s': Pool, w: nat, t: Task)
    requires w < |s.workers| && |s'.workers| == |s.workers| && s'.workers == s.workers[w := s'.workers[w]]
    ensures Held(s', t) <==>
      Holds(s'.workers[w], t) || exists v :: 0 <= v < |s.workers| && v != w && Holds(s.workers[v], t)
  {
    if Holds(s'.workers[w], t) {
    } else if v :| 0 <= v < |s.workers| && v != w && Holds(s.workers[v], t) {
      assert Holds(s'.workers[v], t);
    }
  }

  /** A move that keeps what the worker holds keeps custody. */
  lemma SameCustody(s: Pool, s': Pool, w: nat)
    requires CustodyInv(s) && s'.taken == s.taken && s'.completed == s.completed
    requires w < |s.workers| == |s'.workers| && s'.workers == s.workers[w := s'.workers[w]]
    requires forall t :: Holds(s'.workers[w], t) <==> Holds(s.workers[w], t)
    ensures CustodyInv(s')
  {
    forall t
      ensures Held(s', t) <==> Held(s, t)
    {
      HeldAfter(s, s', w, t);
    }
  }

  lemma TakeCustody(s: Pool, s': Pool, w: nat, task: Task)
    requires CustodyInv(s) && s'.taken == s.taken + [task] && s'.completed == s.completed
    requires w < |s.workers| && s'.workers == s.workers[w := Running(task)]
    requires task !in s.taken && forall t :: !Holds(s.workers[w], t)
    ensures CustodyInv(s')
  {
    assert !Held(s, task) && task !in s.completed;
    forall t
      ensures Held(s', t) <==> Held(s, t) || t == task
    {
      HeldAfter(s, s', w, t);
    }
    assert forall t :: t in s'.taken <==> t in s.taken || t == task;
  }

  lemma EndCustody(s: Pool, s': Pool, w: nat)
    requires CustodyInv(s) && FreeTaskNext(s, s', w)
    ensures CustodyInv(s')
  {
    var task := s.workers[w].task;
    assert Holds(s.workers[w], task);
    forall t
      ensures Held(s', t) <==> Held(s, t) && t != task
    {
      HeldAfter(s, s', w, t);
    }
  }

  /** The head of the queue has never been taken before. */
  lemma HeadIsNew(s: Pool)
    requires FlowInv(s) && |s.queue.items| > 0
    ensures s.queue.items[0] !in s.taken
  {
    var n := |s.queue.left|;
    assert s.queue.entered[n] == s.queue.items[0];
    forall i | 0 <= i < |s.taken|
      ensures s.taken[i] != s.queue.items[0]
    {
      assert s.queue.entered[i] == s.queue.left[i] == s.taken[i];
    }
  }

  lemma CustodyInvKept(s: Pool, s': Pool, step: Step)
    requires WaitInv(s) && FlowInv(s) && CustodyInv(s) && NextStep(s, s', step)
    ensures CustodyInv(s')
  {
    hide WaitInv, FlowInv, CustodyInv, Held, Q.Dequeue;
    match step
    case CheckFlag(w) => SameCustody(s, s', w);
    case TryDequeue(w) =>
      if |s.queue.items| > 0 {
        HeadIsNew(s);
        TakeCustody(s, s', w, s.queue.items[0]);
      } else {
        SameCustody(s, s', w);
      }
    case RunTask(w) => SameCustody(s, s', w);
    case FreeTask(w) => EndCustody(s, s', w);
    case _ => CustodyUnmoved(s, s');
  }

  lemma CustodyUnmoved(s: Pool, s': Pool)
    requires CustodyInv(s) && s'.taken == s.taken && s'.completed == s.completed && s'.workers == s.workers
    ensures CustodyInv(s')
  {
    assert forall t :: Held(s', t) <==> Held(s, t);
  }

  // ----- the log of runs and frees -----

  ghost predicate InFreeing(s: Pool, t: Task) {
    exists w :: 0 <= w < |s.workers| && s.workers[w] == Freeing(t)
  }

  ghost predicate Once(log: seq<Event>) {
    forall i, j :: 0 <= i < j < |log| ==> log[i] != log[j]
  }

  ghost predicate FreedAfterRun(log: seq<Event>) {
    forall j :: 0 <= j < |log| && log[j].ArgFreed? ==> Ran(log[j].task) in log[..j]
  }

  /** Each event happens once; a task ran iff it is past its run; its argument is freed iff it is completed. */
  ghost predicate LogInv(s: Pool) {
    && Once(s.log) && FreedAfterRun(s.log)
    && (forall t :: Ran(t) in s.log <==> t in s.completed || InFreeing(s, t))
    && (forall t :: ArgFreed(t) in s.log <==> t in s.completed && t.hasFree)
  }

  lemma LogEvent(log: seq<Event>, e: Event)
    requires Once(log) && FreedAfterRun(log) && e !in log && (e.ArgFreed? ==> Ran(e.task) in log)
    ensures Once(log + [e]) && FreedAfterRun(log + [e])
  {
    var log' := log + [e];
    forall j | 0 <= j < |log'| && log'[j].ArgFreed?
      ensures Ran(log'[j].task) in log'[..j]
    {
      assert log'[..j] == log[..j];
      assert log[..|log|] == log;
    }
  }

  lemma FreeingAfter(s: Pool, s': Pool, w: nat, t: Task)
    requires w < |s.workers| == |s'.workers| && s'.workers == s.workers[w := s'.workers[w]]
    ensures InFreeing(s', t) <==>
      s'.workers[w] == Freeing(t) || exists v :: 0 <= v < |s.workers| && v != w && s.workers[v] == Freeing(t)
  {
    if v :| 0 <= v < |s.workers| && v != w && s.workers[v] == Freeing(t) {
      assert s'.workers[v] == Freeing(t);
    }
  }

  /** Custody: a task one worker holds is with no other and not completed. */
  lemma OnlyHolder(s: Pool, w: nat, task: Task)
    requires CustodyInv(s) && w < |s.workers| && Holds(s.workers[w], task)
    ensures task !in s.completed
    ensures forall v :: 0 <= v < |s.workers| && v != w ==> !Holds(s.workers[v], task)
  {
    assert Held(s, task);
    forall v | 0 <= v < |s.workers| && v != w
      ensures !Holds(s.workers[v], task)
    {
      assert v < w || w < v;
    }
  }

  lemma RunLogged(s: Pool, s': Pool, w: nat)
    requires CustodyInv(s) && LogInv(s) && RunTaskNext(s, s', w)
    ensures LogInv(s')
  {
    var task := s.workers[w].task;
    OnlyHolder(s, w, task);
    hide CustodyInv, Once, FreedAfterRun;
    assert forall v :: 0 <= v < |s.workers| && s.workers[v] == Freeing(task) ==> Holds(s.workers[v], task);
    LogEvent(s.log, Ran(task));
    forall t
      ensures InFreeing(s', t) <==> InFreeing(s, t) || t == task
    {
      FreeingAfter(s, s', w, t);
    }
    assert forall e :: e in s'.log <==> e in s.log || e == Ran(task);
  }

  lemma FreeingEnds(s: Pool, s': Pool, w: nat, t: Task)
    requires CustodyInv(s) && FreeTaskNext(s, s', w)
    ensures InFreeing(s', t) <==> InFreeing(s, t) && t != s.workers[w].task
  {
    OnlyHolder(s, w, s.workers[w].task);
    FreeingAfter(s, s', w, t);
    assert forall v :: 0 <= v < |s.workers| && s.workers[v] == Freeing(t) ==> Holds(s.workers[v], t);
  }

  lemma FreeLogged(s: Pool, s': Pool, w: nat)
    requires CustodyInv(s) && LogInv(s) && FreeTaskNext(s, s', w)
    ensures LogInv(s')
  {
    hide CustodyInv, LogInv;
    var task := s.workers[w].task;
    OnlyHolder(s, w, task);
    assert InFreeing(s, task);
    forall t
      ensures InFreeing(s', t) <==> InFreeing(s, t) && t != task
    {
      FreeingEnds(s, s', w, t);
    }
    LogAfterFree(s, s', task);
  }

  lemma LogAfterFree(s: Pool, s': Pool, task: Task)
    requires LogInv(s) && InFreeing(s, task) && task !in s.completed && s'.completed == s.completed + {task}
    requires s'.log == if task.hasFree then s.log + [ArgFreed(task)] else s.log
    requires forall t :: InFreeing(s', t) <==> InFreeing(s, t) && t != task
    ensures LogInv(s')
  {
    hide InFreeing, Once, FreedAfterRun;
    if task.hasFree {
      LogEvent(s.log, ArgFreed(task));
    }
    forall t
      ensures Ran(t) in s'.log <==> t in s'.completed || InFreeing(s', t)
      ensures ArgFreed(t) in s'.log <==> t in s'.completed && t.hasFree
    {
      LoggedAfter(s.log, task, Ran(t));
      LoggedAfter(s.log, task, ArgFreed(t));
    }
  }

  lemma LoggedAfter(log: seq<Event>, task: Task, e: Event)
    ensures var log' := if task.hasFree then log + [ArgFreed(task)] else log;
      e in log' <==> e in log || (e == ArgFreed(task) && task.hasFree)
  {
  }

  /** Steps that neither log nor move a task keep the log. */
  lemma LogUnmoved(s: Pool, s': Pool)
    requires LogInv(s) && s'.log == s.log && s'.completed == s.completed
    requires |s'.workers| == |s.workers|
    requires forall w :: 0 <= w < |s.workers| ==>
      s'.workers[w] == s.workers[w] || (!s'.workers[w].Freeing? && !s.workers[w].Freeing?)
    ensures LogInv(s')
  {
    forall t
      ensures InFreeing(s', t) <==> InFreeing(s, t)
    {
      if InFreeing(s', t) {
        var w :| 0 <= w < |s'.workers| && s'.workers[w] == Freeing(t);
        assert s.workers[w] == Freeing(t);
      }
      if InFreeing(s, t) {
        var w :| 0 <= w < |s.workers| && s.workers[w] == Freeing(t);
        assert s'.workers[w] == Freeing(t);
      }
    }
  }

  lemma LogInvKept(s: Pool, s': Pool, step: Step)
    requires CustodyInv(s) && LogInv(s) && NextStep(s, s', step)
    ensures LogInv(s')
  {
    hide CustodyInv, LogInv, Q.Dequeue;
    match step
    case RunTask(w) => RunLogged(s, s', w);
    case FreeTask(w) => FreeLogged(s, s', w);
    case _ => LogUnmoved(s, s');
  }

  // ----- every run -----

  ghost predicate Inv(s: Pool) {
    WaitInv(s) && ShutdownInv(s) && FlowInv(s) && CustodyInv(s) && LogInv(s)
  }

  lemma InitInv(s: Pool)
    requires Init(s)
    ensures Inv(s)
  {
  }

  lemma StepKeepsInv(s: Pool, s': Pool, step: Step)
    requires Inv(s) && NextStep(s, s', step)
    ensures Inv(s')
  {
    hide WaitInv, ShutdownInv, FlowInv, CustodyInv, LogInv, NextStep;
    WaitInvKept(s, s', step);
    ShutdownInvKept(s, s', step);
    FlowInvKept(s, s', step);
    CustodyInvKept(s, s', step);
    LogInvKept(s, s', step);
  }

  /** A run: `steps[i]` leads from `run[i]` to `run[i + 1]`. */
  ghost predicate Run(run: seq<Pool>, steps: seq<Step>) {
    && |run| == |steps| + 1 && Init(run[0])
    && forall i :: 0 <= i < |steps| ==> NextStep(run[i], run[i + 1], steps[i])
  }

  lemma {:induction false} RunKeepsInv(run: seq<Pool>, steps: seq<Step>, i: nat)
    requires Run(run, steps) && i < |run|
    ensures Inv(run[i])
    decreases i
  {
    if i == 0 {
      InitInv(run[0]);
    } else {
      hide Inv, NextStep, Init;
      RunKeepsInv(run, steps, i - 1);
      StepKeepsInv(run[i - 1], run[i], steps[i - 1]);
    }
  }

  /**
   In every state of every run the accepted tasks are split between the queue, one worker
   each, the completed and the released ones; nothing is lost, doubled or invented.
   */
  lemma TasksConserved(run: seq<Pool>, steps: seq<Step>, i: nat, t: Task)
    requires Run(run, steps) && i < |run|
    ensures var s := run[i];
      && s.taken + s.released + s.queue.items == s.queue.entered
      && Distinct(s.queue.entered)
      && (t in s.queue.entered <==> t in s.queue.items || Held(s, t) || t in s.completed || t in s.released)
      && (t in s.queue.items ==> !Held(s, t) && t !in s.completed && t !in s.released)
      && (Held(s, t) ==> t !in s.completed && t !in s.released)
      && (t in s.completed ==> t !in s.released)
      && (forall v, w :: 0 <= v < w < |s.workers| && Holds(s.workers[v], t) ==> !Holds(s.workers[w], t))
  {
    RunKeepsInv(run, steps, i);
    hide Init, NextStep;
    var s := run[i];
    assert WaitInv(s) && FlowInv(s) && CustodyInv(s);
    SplitEntered(s, t);
  }

  /** Distinct entries fall into exactly one of the three stretches of the history. */
  lemma SplitEntered(s: Pool, t: Task)
    requires FlowInv(s)
    ensures s.taken + s.released + s.queue.items == s.queue.entered && Distinct(s.queue.entered)
    ensures t in s.queue.entered <==> t in s.taken || t in s.released || t in s.queue.items
    ensures t in s.queue.items ==> t !in s.taken && t !in s.released
    ensures t in s.taken ==> t !in s.released
  {
    assert s.taken + s.released + s.queue.items == s.queue.entered;
    hide *;
    ThreeStretches(s.queue.entered, s.taken, s.released, s.queue.items, t);
  }

  lemma Apart(e: seq<Task>, a: seq<Task>, m: nat, b: seq<Task>, n: nat, t: Task)
    requires Distinct(e) && m + |a| <= n && n + |b| <= |e|
    requires e[m..m + |a|] == a && e[n..n + |b|] == b && t in a
    ensures t !in b
  {
    var i :| 0 <= i < |a| && a[i] == t;
    assert e[m + i] == t;
    forall j | 0 <= j < |b|
      ensures b[j] != t
    {
      assert b[j] == e[n + j];
    }
  }

  lemma ThreeStretches(e: seq<Task>, a: seq<Task>, b: seq<Task>, c: seq<Task>, t: Task)
    requires Distinct(e) && e == a + b + c
    ensures t in e <==> t in a || t in b || t in c
    ensures t in c ==> t !in a && t !in b
    ensures t in a ==> t !in b
  {
    hide Distinct;
    var m, n := |a|, |a| + |b|;
    assert e[0..m] == a && e[m..n] == b && e[n..n + |c|] == c;
    if t in a {
      Apart(e, a, 0, b, m, t);
      Apart(e, a, 0, c, n, t);
    }
    if t in b {
      Apart(e, b, m, c, n, t);
    }
  }

  /** No task runs twice; a supplied arg_free is called once, after the run, exactly for completed tasks. */
  lemma RunsAndFreesOnce(run: seq<Pool>, steps: seq<Step>, i: nat)
    requires Run(run, steps) && i < |run|
    ensures var log := run[i].log;
      && Once(log) && FreedAfterRun(log)
      && (forall t :: t in run[i].completed ==> Ran(t) in log && (ArgFreed(t) in log <==> t.hasFree))
      && (forall t :: ArgFreed(t) in log ==> t in run[i].completed)
      && (forall t :: t in run[i].queue.items || t in run[i].released ==> Ran(t) !in log)
  {
    RunKeepsInv(run, steps, i);
    hide Init, NextStep;
    var s := run[i];
    forall t | t in s.queue.items || t in s.released
      ensures Ran(t) !in s.log
    {
      SplitEntered(s, t);
      assert forall w :: 0 <= w < |s.workers| && s.workers[w] == Freeing(t) ==> Holds(s.workers[w], t);
    }
  }

  // ----- shutdown makes progress -----

  /**
   Once the flag is up and the broadcast has followed, no worker sleeps now or later, and
   no worker has taken more than one task since the flag went up.
   */
  lemma {:induction false} ShutdownWakesForGood(run: seq<Pool>, steps: seq<Step>, i: nat, j: nat)
    requires Run(run, steps) && i <= j < |run| && run[i].broadcast
    ensures run[j].broadcast && run[j].queue.shutdown && run[j].queue.asleepEmpty == {}
    ensures |run[j].late| == |run[j].workers| && forall w :: 0 <= w < |run[j].late| ==> run[j].late[w] <= 1
    decreases j
  {
    RunKeepsInv(run, steps, j);
    if i < j {
      ShutdownWakesForGood(run, steps, i, j - 1);
      assert NextStep(run[j - 1], run[j - 1 + 1], steps[j - 1]);
    }
  }

  /** How many steps a worker can still take once the flag is up. */
  function Rank(pc: Pc): nat {
    match pc
    case Dequeuing => 4
    case Waiting => 4
    case Running(_) => 3
    case Freeing(_) => 2
    case AtCheck => 1
    case Exited => 0
  }

  ghost function Work(ws: seq<Pc>): nat {
    if |ws| == 0 then 0 else Work(ws[..|ws| - 1]) + Rank(ws[|ws| - 1])
  }

  lemma {:induction false} WorkUpdate(ws: seq<Pc>, w: nat, pc: Pc)
    requires w < |ws|
    ensures Work(ws[w := pc]) == Work(ws) - Rank(ws[w]) + Rank(pc)
    decreases |ws|
  {
    var n := |ws| - 1;
    if w == n {
      assert ws[w := pc][..n] == ws[..n];
    } else {
      assert ws[w := pc][..n] == ws[..n][w := pc];
      WorkUpdate(ws[..n], w, pc);
    }
  }

  /** No worker has more than four steps left. */
  lemma {:induction false} WorkBound(ws: seq<Pc>)
    ensures Work(ws) <= 4 * |ws|
    decreases |ws|
  {
    if |ws| > 0 {
      WorkBound(ws[..|ws| - 1]);
    }
  }

  predicate WorkerStep(step: Step) {
    step.CheckFlag? || step.TryDequeue? || step.RunTask? || step.FreeTask?
  }

  predicate ByWorker(step: Step, w: nat) {
    WorkerStep(step) && step.w == w
  }

  lemma StepWork(s: Pool, s': Pool, step: Step)
    requires s.queue.shutdown && NextStep(s, s', step)
    ensures s'.queue.shutdown
    ensures Work(s'.workers) <= Work(s.workers) - if WorkerStep(step) then 1 else 0
  {
    hide Work;
    if WorkerStep(step) {
      WorkUpdate(s.workers, step.w, s'.workers[step.w]);
      assert s'.workers == s.workers[step.w := s'.workers[step.w]];
    }
  }

  ghost function WorkerSteps(steps: seq<Step>): nat {
    if |steps| == 0 then 0
    else WorkerSteps(steps[..|steps| - 1]) + if WorkerStep(steps[|steps| - 1]) then 1 else 0
  }

  /** After the flag the workers take at most `Work` further steps in any continuation: four each. */
  lemma FewStepsLeft(run: seq<Pool>, steps: seq<Step>, i: nat, j: nat)
    requires Run(run, steps) && i <= j < |run| && run[i].queue.shutdown
    ensures run[j].queue.shutdown
    ensures WorkerSteps(steps[i..j]) + Work(run[j].workers) <= Work(run[i].workers) <= 4 * |run[i].workers|
  {
    StepsUseWork(run, steps, i, j);
    WorkBound(run[i].workers);
  }

  lemma {:induction false} StepsUseWork(run: seq<Pool>, steps: seq<Step>, i: nat, j: nat)
    requires Run(run, steps) && i <= j < |run| && run[i].queue.shutdown
    ensures run[j].queue.shutdown
    ensures WorkerSteps(steps[i..j]) + Work(run[j].workers) <= Work(run[i].workers)
    decreases j
  {
    hide Work, Init, NextStep;
    if i < j {
      StepsUseWork(run, steps, i, j - 1);
      assert steps[i..j][..j - i - 1] == steps[i..j - 1];
      assert NextStep(run[j - 1], run[j - 1 + 1], steps[j - 1]);
      StepWork(run[j - 1], run[j], steps[j - 1]);
    } else {
      assert steps[i..j] == [];
    }
  }

  /** Every worker that has neither exited nor sleeps on the queue can move. */
  lemma WorkerCanMove(s: Pool, w: nat)
    requires Inv(s) && w < |s.workers| && !s.workers[w].Exited? && w !in s.queue.asleepEmpty
    ensures exists step, s' :: ByWorker(step, w) && NextStep(s, s', step)
  {
    match s.workers[w]
    case AtCheck =>
      var s' := s.(workers := s.workers[w := if s.queue.shutdown then Exited else Dequeuing]);
      assert NextStep(s, s', CheckFlag(w));
      assert ByWorker(CheckFlag(w), w);
    case Running(task) =>
      var s' := s.(workers := s.workers[w := Freeing(task)], log := s.log + [Ran(task)]);
      assert NextStep(s, s', RunTask(w));
      assert ByWorker(RunTask(w), w);
    case Freeing(task) =>
      var s' := s.(workers := s.workers[w := AtCheck], completed := s.completed + {task},
                   log := if task.hasFree then s.log + [ArgFreed(task)] else s.log);
      assert NextStep(s, s', FreeTask(w));
      assert ByWorker(FreeTask(w), w);
    case _ =>
      DequeueEnabled(s, w);
  }

  lemma DequeueEnabled(s: Pool, w: nat)
    requires WaitInv(s) && w < |s.workers| && w !in s.queue.asleepEmpty
    requires s.workers[w].Dequeuing? || s.workers[w].Waiting?
    ensures exists step, s' :: ByWorker(step, w) && NextStep(s, s', step)
  {
    var r := Q.Dequeuing(s.queue, w);
    assert ByWorker(TryDequeue(w), w);
    assert Q.Idle(s.queue, w) || w in s.queue.wokenEmpty;
    if |s.queue.items| == 0 {
      var q' := if s.queue.shutdown then Q.Returned(r, None) else r.(asleepEmpty := r.asleepEmpty + {w});
      var s' := s.(queue := q', workers := s.workers[w := if s.queue.shutdown then AtCheck else Waiting]);
      assert Q.Dequeue(s.queue, q', w);
      assert NextStep(s, s', TryDequeue(w));
    } else {
      var task := s.queue.items[0];
      var q' := Q.Returned(r, Some(task)).(items := r.items[1..], left := r.left + [task]);
      var s' := s.(queue := q', workers := s.workers[w := Running(task)], taken := s.taken + [task],
                   late := if s.queue.shutdown then s.late[w := s.late[w] + 1] else s.late);
      assert Q.SignalNotFull(q', q');
      assert Q.Dequeue(s.queue, q', w);
      assert NextStep(s, s', TryDequeue(w));
    }
  }

  ghost function Last(run: seq<Pool>): Pool
    requires |run| > 0
  {
    run[|run| - 1]
  }

  /** In no reachable state after the broadcast are the workers stuck before all have exited. */
  lemma StuckMeansExited(run: seq<Pool>, steps: seq<Step>)
    requires Run(run, steps) && Last(run).broadcast
    requires forall step, s' :: NextStep(Last(run), s', step) ==> !WorkerStep(step)
    ensures AllExited(Last(run))
  {
    hide Init, NextStep, WaitInv, ShutdownInv, FlowInv, CustodyInv, LogInv;
    var s := Last(run);
    RunKeepsInv(run, steps, |run| - 1);
    BroadcastMeansFlag(s);
    forall w | 0 <= w < |s.workers|
      ensures s.workers[w].Exited?
    {
      if !s.workers[w].Exited? {
        WorkerCanMove(s, w);
        assert false;
      }
    }
  }

  /** run' goes on from run. */
  ghost predicate Continues(run: seq<Pool>, steps: seq<Step>, run': seq<Pool>, steps': seq<Step>) {
    && Run(run, steps) && Run(run', steps')
    && |run| <= |run'| && run'[..|run|] == run && steps'[..|steps|] == steps
  }

  lemma OneMore(run: seq<Pool>, steps: seq<Step>, s': Pool, step: Step)
    requires Run(run, steps) && NextStep(Last(run), s', step)
    ensures Continues(run, steps, run + [s'], steps + [step]) && Last(run + [s']) == s'
  {
    hide NextStep, Init;
    var run', steps' := run + [s'], steps + [step];
    forall i | 0 <= i < |steps'|
      ensures NextStep(run'[i], run'[i + 1], steps'[i])
    {
      if i < |steps| {
        assert NextStep(run[i], run[i + 1], steps[i]);
        assert run'[i] == run[i] && run'[i + 1] == run[i + 1];
      }
    }
  }

  lemma ContinuesTwice(run: seq<Pool>, steps: seq<Step>, run1: seq<Pool>, steps1: seq<Step>,
                       run2: seq<Pool>, steps2: seq<Step>)
    requires Continues(run, steps, run1, steps1) && Continues(run1, steps1, run2, steps2)
    ensures Continues(run, steps, run2, steps2)
  {
    hide Init, NextStep;
    assert run2[..|run|] == run2[..|run1|][..|run|];
    assert steps2[..|steps|] == steps2[..|steps1|][..|steps|];
  }

  lemma WorkerStepKeeps(s: Pool, s': Pool, step: Step)
    requires WaitInv(s) && NextStep(s, s', step) && WorkerStep(step)
    ensures s'.submitting == s.submitting && s'.released == s.released && s'.broadcast == s.broadcast
    ensures s'.queue.entered == s.queue.entered && s'.queue.shutdown == s.queue.shutdown
  {
    if step.TryDequeue? {
      DequeueShape(s.queue, s'.queue, step.w);
    }
  }

  /** From every reachable state after the broadcast the workers alone can bring the joins to return. */
  lemma {:induction false} WorkersCanFinish(run: seq<Pool>, steps: seq<Step>)
    returns (run': seq<Pool>, steps': seq<Step>)
    requires Run(run, steps) && Last(run).broadcast
    ensures Continues(run, steps, run', steps') && AllExited(Last(run'))
    ensures |steps'| <= |steps| + Work(Last(run).workers)
    ensures forall k :: |steps| <= k < |steps'| ==> WorkerStep(steps'[k])
    ensures Last(run').submitting == Last(run).submitting && Last(run').released == Last(run).released
    ensures Last(run').broadcast && Last(run').queue.entered == Last(run).queue.entered
    decreases Work(Last(run).workers)
  {
    hide Init, NextStep, Work, WaitInv, ShutdownInv, FlowInv, CustodyInv, LogInv;
    var s := Last(run);
    RunKeepsInv(run, steps, |run| - 1);
    BroadcastMeansFlag(s);
    if AllExited(s) {
      run', steps' := run, steps;
    } else {
      var w :| 0 <= w < |s.workers| && !s.workers[w].Exited?;
      WorkerCanMove(s, w);
      var step, s' :| ByWorker(step, w) && NextStep(s, s', step);
      OneMore(run, steps, s', step);
      StepWork(s, s', step);
      WorkerStepKeeps(s, s', step);
      run', steps' := WorkersCanFinish(run + [s'], steps + [step]);
      ContinuesTwice(run, steps, run + [s'], steps + [step], run', steps');
      assert steps'[..|steps| + 1] == steps + [step];
      assert steps'[|steps|] == steps'[..|steps| + 1][|steps|];
    }
  }

  lemma BroadcastMeansFlag(s: Pool)
    requires ShutdownInv(s) && s.broadcast
    ensures s.queue.shutdown && s.queue.asleepEmpty == {}
  {
  }

  // ----- while the flag is down -----

  /** The workers are as many as at the start, and none exits before the flag is up. */
  ghost predicate AtWork(s: Pool) {
    |s.workers| >= MIN_THREADS && forall w :: 0 <= w < |s.workers| && s.workers[w].Exited? ==> s.queue.shutdown
  }

  lemma StepKeepsAtWork(s: Pool, s': Pool, step: Step)
    requires AtWork(s) && NextStep(s, s', step)
    ensures AtWork(s')
  {
  }

  lemma {:induction false} RunAtWork(run: seq<Pool>, steps: seq<Step>, i: nat)
    requires Run(run, steps) && i < |run|
    ensures AtWork(run[i])
    decreases i
  {
    if i > 0 {
      hide Init, NextStep, AtWork;
      RunAtWork(run, steps, i - 1);
      assert NextStep(run[i - 1], run[i - 1 + 1], steps[i - 1]);
      StepKeepsAtWork(run[i - 1], run[i], steps[i - 1]);
    }
  }

  lemma SleepersAndItems(s: Pool)
    requires WaitInv(s) && s.queue.wokenEmpty == {} && s.queue.asleepEmpty != {}
    ensures s.queue.items == []
  {
  }

  /**
   Work that can be done is done: in every reachable state with the flag down in which no
   worker can move, all sleep on an empty queue and every accepted task is completed.
   */
  lemma IdleMeansDone(run: seq<Pool>, steps: seq<Step>)
    requires Run(run, steps) && !Last(run).queue.shutdown
    requires forall step, s' :: NextStep(Last(run), s', step) ==> !WorkerStep(step)
    ensures Last(run).queue.items == []
    ensures forall w :: 0 <= w < |Last(run).workers| ==> w in Last(run).queue.asleepEmpty
    ensures forall t :: t in Last(run).queue.entered ==> t in Last(run).completed
  {
    var s := Last(run);
    RunAtWork(run, steps, |run| - 1);
    RunKeepsInv(run, steps, |run| - 1);
    forall w | 0 <= w < |s.workers|
      ensures w in s.queue.asleepEmpty
    {
      hide Inv, NextStep;
      if w !in s.queue.asleepEmpty {
        WorkerCanMove(s, w);
        assert false;
      }
    }
    assert 0 in s.queue.asleepEmpty;
    AllAsleep(s);
    forall t | t in s.queue.entered
      ensures t in s.completed
    {
      TasksConserved(run, steps, |run| - 1, t);
    }
  }

  lemma AllAsleep(s: Pool)
    requires Inv(s) && |s.workers| > 0 && forall w :: 0 <= w < |s.workers| ==> w in s.queue.asleepEmpty
    ensures s.queue.items == [] && s.released == [] && forall t :: !Held(s, t)
  {
    hide CustodyInv, LogInv, ShutdownInv;
    forall w: nat
      ensures w !in s.queue.wokenEmpty
    {
      NotBoth(s.queue, w);
    }
    assert 0 in s.queue.asleepEmpty && s.workers[0].Waiting?;
    SleepersAndItems(s);
  }

  // ----- what a shutdown leaves undone -----

  /** Workers past the flag check: each will try to dequeue once more. */
  ghost function Committed(s: Pool): set<nat> {
    set w | 0 <= w < |s.workers| && (s.workers[w].Dequeuing? || s.workers[w].Waiting?)
  }

  ghost function Leftover(s: Pool): int {
    if |s.queue.items| <= |Committed(s)| then 0 else |s.queue.items| - |Committed(s)|
  }

  lemma CommittedAfter(s: Pool, s': Pool, w: nat)
    requires w < |s.workers| == |s'.workers| && s'.workers == s.workers[w := s'.workers[w]]
    requires !s'.workers[w].Dequeuing? && !s'.workers[w].Waiting?
    ensures |Committed(s')| == |Committed(s)| - if w in Committed(s) then 1 else 0
  {
    assert Committed(s') == Committed(s) - {w};
    Q.DropThread(Committed(s), w);
  }

  /**
   A step after the flag changes the number of tasks left over only by adding one that a
   submitter enqueues late, unless the queue is being cleared.
   */
  lemma LeftoverKept(s: Pool, s': Pool, step: Step)
    requires WaitInv(s) && s.queue.shutdown && NextStep(s, s', step) && !step.ReleaseOne?
    ensures Leftover(s) <= Leftover(s')
    ensures !step.SubmitEnqueue? ==> Leftover(s') == Leftover(s)
  {
    hide Committed;
    if WorkerStep(step) {
      CommittedAfter(s, s', step.w);
      CommittedMember(s, step.w);
      if step.TryDequeue? {
        DequeueShape(s.queue, s'.queue, step.w);
        CommittedPositive(s, step.w);
      }
    } else {
      CommittedSame(s, s');
    }
  }

  lemma CommittedMember(s: Pool, w: nat)
    requires w < |s.workers|
    ensures w in Committed(s) <==> s.workers[w].Dequeuing? || s.workers[w].Waiting?
  {
  }

  lemma CommittedPositive(s: Pool, w: nat)
    requires w in Committed(s)
    ensures |Committed(s)| > 0
  {
  }

  lemma CommittedSame(s: Pool, s': Pool)
    requires s'.workers == s.workers
    ensures Committed(s') == Committed(s)
  {
  }

  /** What was released stays released, and past the flag nobody starts to submit. */
  lemma StepHistory(s: Pool, s': Pool, step: Step)
    requires NextStep(s, s', step)
    ensures s'.released == [] ==> s.released == [] && !step.ReleaseOne?
    ensures s.queue.shutdown && s.submitting == {} ==> s'.submitting == {} && !step.SubmitEnqueue?
  {
  }

  /** After the flag the number of tasks left over never falls; with no submitter on the way it stays. */
  lemma {:induction false} LeftoverOfRun(run: seq<Pool>, steps: seq<Step>, i: nat, j: nat)
    requires Run(run, steps) && i <= j < |run| && run[i].queue.shutdown && run[j].released == []
    ensures run[j].queue.shutdown && run[i].released == [] && Leftover(run[i]) <= Leftover(run[j])
    ensures run[i].submitting == {} ==> run[j].submitting == {} && Leftover(run[j]) == Leftover(run[i])
    decreases j
  {
    hide Init, NextStep, Leftover;
    if i < j {
      assert NextStep(run[j - 1], run[j - 1 + 1], steps[j - 1]);
      StepHistory(run[j - 1], run[j], steps[j - 1]);
      LeftoverOfRun(run, steps, i, j - 1);
      RunKeepsInv(run, steps, j - 1);
      StepWork(run[j - 1], run[j], steps[j - 1]);
      LeftoverKept(run[j - 1], run[j], steps[j - 1]);
    }
  }

  /** Every accepted task has been run and its argument freed. */
  ghost predicate AllCompleted(s: Pool) {
    forall t :: t in s.queue.entered ==> t in s.completed
  }

  /** When the joins have returned, what is not completed is what is still queued. */
  lemma UndoneIsQueued(run: seq<Pool>, steps: seq<Step>, j: nat)
    requires Run(run, steps) && j < |run| && AllExited(run[j]) && run[j].released == []
    ensures AllCompleted(run[j]) <==> run[j].queue.items == []
    ensures |run[j].queue.items| == Leftover(run[j])
  {
    hide Init, NextStep;
    var s := run[j];
    assert Committed(s) == {};
    forall t
      ensures t in s.queue.entered <==> t in s.queue.items || t in s.completed
      ensures t in s.queue.items ==> t !in s.completed
    {
      TasksConserved(run, steps, j, t);
      assert !Held(s, t);
    }
    if |s.queue.items| > 0 {
      assert s.queue.items[0] in s.queue.items;
    }
  }

  /**
   thread_pool_shutdown is documented to wait for all tasks to complete. When the joins have
   returned, all are completed exactly if at no moment since the flag more tasks were queued
   than workers were past their flag check. With no submitter between its own check of the flag
   and its enqueue, the moment of the flag decides, and the excess is what stays behind.
   */
  lemma ShutdownCompletesAll(run: seq<Pool>, steps: seq<Step>, i: nat, j: nat)
    requires Run(run, steps) && i <= j < |run| && run[i].queue.shutdown
    requires AllExited(run[j]) && run[j].released == []
    ensures AllCompleted(run[j]) <==> forall k :: i <= k <= j ==> |run[k].queue.items| <= |Committed(run[k])|
    ensures run[i].submitting == {} ==> |run[j].queue.items| == Leftover(run[i])
    ensures run[i].submitting == {} ==> (AllCompleted(run[j]) <==> |run[i].queue.items| <= |Committed(run[i])|)
  {
    hide Init, NextStep, AllCompleted, Committed;
    UndoneIsQueued(run, steps, j);
    LeftoverOfRun(run, steps, i, j);
    forall k | i <= k <= j
      ensures Leftover(run[k]) <= Leftover(run[j])
    {
      StepsUseWork(run, steps, i, k);
      LeftoverOfRun(run, steps, k, j);
    }
  }

  /** However the run goes on, once the joins have returned every accepted task is completed. */
  ghost predicate AlwaysCompletes(run: seq<Pool>, steps: seq<Step>) {
    forall run', steps' ::
      Continues(run, steps, run', steps') && AllExited(Last(run')) && Last(run').released == []
      ==> AllCompleted(Last(run'))
  }

  /** The flag is up but the broadcast may be outstanding: it can be sent, and then the workers finish. */
  lemma CanFinish(run: seq<Pool>, steps: seq<Step>) returns (run': seq<Pool>, steps': seq<Step>)
    requires Run(run, steps) && Last(run).queue.shutdown
    ensures Continues(run, steps, run', steps') && AllExited(Last(run')) && Last(run').broadcast
    ensures Last(run').submitting == Last(run).submitting && Last(run').released == Last(run).released
    ensures Last(run').queue.entered == Last(run).queue.entered
  {
    var s := Last(run);
    var q := s.queue.(asleepEmpty := {}, wokenEmpty := s.queue.wokenEmpty + s.queue.asleepEmpty);
    var s1 := s.(queue := q, broadcast := true);
    assert NextStep(s, s1, Broadcast);
    hide Init, NextStep;
    OneMore(run, steps, s1, Broadcast);
    run', steps' := WorkersCanFinish(run + [s1], steps + [Broadcast]);
    ContinuesTwice(run, steps, run + [s1], steps + [Broadcast], run', steps');
  }

  /** A submitter that has passed its check of the flag can enqueue at any time. */
  lemma SubmitterCanEnqueue(s: Pool, task: Task) returns (s': Pool)
    requires WaitInv(s) && task in s.submitting
    ensures NextStep(s, s', SubmitEnqueue(task, |s.workers|))
    ensures s'.workers == s.workers && s'.released == s.released
    ensures s'.queue.entered == s.queue.entered + [task] && s'.queue.items == s.queue.items + [task]
  {
    var q := s.queue;
    var e := Q.Enqueuing(q, |s.workers|, task);
    var r := e.(items := q.items + [task], entered := q.entered + [task]);
    var q' := r;
    if q.asleepEmpty != {} {
      var w :| w in q.asleepEmpty;
      q' := r.(asleepEmpty := r.asleepEmpty - {w}, wokenEmpty := r.wokenEmpty + {w});
    }
    assert Q.Idle(q, |s.workers|);
    assert Q.SignalNotEmpty(r, q');
    assert Q.Enqueue(q, q', |s.workers|, task);
    s' := s.(queue := q', submitting := s.submitting - {task});
  }

  /** A continuation that leaves a task behind, given a submitter on the way or too many tasks. */
  lemma SomeTaskStays(run: seq<Pool>, steps: seq<Step>) returns (run': seq<Pool>, steps': seq<Step>)
    requires Run(run, steps) && Last(run).queue.shutdown && Last(run).released == []
    requires Last(run).submitting != {} || Leftover(Last(run)) > 0
    ensures Continues(run, steps, run', steps') && AllExited(Last(run')) && Last(run').released == []
    ensures Last(run').queue.items != []
  {
    hide Init, NextStep, Leftover, WaitInv, ShutdownInv, FlowInv, CustodyInv, LogInv;
    run', steps' := CanFinish(run, steps);
    if Last(run).submitting != {} {
      var task :| task in Last(run').submitting;
      RunKeepsInv(run', steps', |run'| - 1);
      var s' := SubmitterCanEnqueue(Last(run'), task);
      var step := SubmitEnqueue(task, |Last(run').workers|);
      OneMore(run', steps', s', step);
      ContinuesTwice(run, steps, run', steps', run' + [s'], steps' + [step]);
      run', steps' := run' + [s'], steps' + [step];
    } else {
      assert run'[|run| - 1] == run'[..|run|][|run| - 1];
      LeftoverOfRun(run', steps', |run| - 1, |run'| - 1);
      UndoneIsQueued(run', steps', |run'| - 1);
    }
  }

  /**
   Seen from any state after the flag, every way to go on completes all accepted tasks if and
   only if no submitter is past its check of the flag and the queued tasks are no more than the
   workers past theirs.
   */
  lemma AlwaysCompletesIff(run: seq<Pool>, steps: seq<Step>)
    requires Run(run, steps) && Last(run).queue.shutdown && Last(run).released == []
    ensures AlwaysCompletes(run, steps)
        <==> Last(run).submitting == {} && |Last(run).queue.items| <= |Committed(Last(run))|
  {
    hide Init, NextStep, AllCompleted, Committed;
    if Last(run).submitting == {} && |Last(run).queue.items| <= |Committed(Last(run))| {
      forall run', steps' |
        Continues(run, steps, run', steps') && AllExited(Last(run')) && Last(run').released == []
        ensures AllCompleted(Last(run'))
      {
        assert run'[|run| - 1] == run'[..|run|][|run| - 1];
        ShutdownCompletesAll(run', steps', |run| - 1, |run'| - 1);
      }
    } else {
      var run', steps' := SomeTaskStays(run, steps);
      UndoneIsQueued(run', steps', |run'| - 1);
    }
  }

  /** However the run goes on, no task is accepted any more. */
  ghost predicate NeverAccepts(run: seq<Pool>, steps: seq<Step>) {
    forall run', steps' :: Continues(run, steps, run', steps') ==> Last(run').queue.entered == Last(run).queue.entered
  }

  lemma OnlyEnqueueAccepts(s: Pool, s': Pool, step: Step)
    requires WaitInv(s) && NextStep(s, s', step) && !step.SubmitEnqueue?
    ensures s'.queue.entered == s.queue.entered
  {
    if step.TryDequeue? {
      DequeueShape(s.queue, s'.queue, step.w);
    } else if step.ReleaseOne? {
      DequeueShape(s.queue, s'.queue, |s.workers|);
    }
  }

  lemma {:induction false} NothingAccepted(run: seq<Pool>, steps: seq<Step>, i: nat, j: nat)
    requires Run(run, steps) && i <= j < |run| && run[i].queue.shutdown && run[i].submitting == {}
    ensures run[j].queue.shutdown && run[j].submitting == {} && run[j].queue.entered == run[i].queue.entered
    decreases j
  {
    hide Init, NextStep, WaitInv, ShutdownInv, FlowInv, CustodyInv, LogInv;
    if i < j {
      assert NextStep(run[j - 1], run[j - 1 + 1], steps[j - 1]);
      NothingAccepted(run, steps, i, j - 1);
      RunKeepsInv(run, steps, j - 1);
      StepHistory(run[j - 1], run[j], steps[j - 1]);
      StepWork(run[j - 1], run[j], steps[j - 1]);
      OnlyEnqueueAccepts(run[j - 1], run[j], steps[j - 1]);
    }
  }

  /**
   No new task is accepted once shutdown begins, as documented, if and only if no submitter has
   passed its check of the flag without having enqueued yet.
   */
  lemma NeverAcceptsIff(run: seq<Pool>, steps: seq<Step>)
    requires Run(run, steps) && Last(run).queue.shutdown
    ensures NeverAccepts(run, steps) <==> Last(run).submitting == {}
  {
    hide Init, NextStep, WaitInv, ShutdownInv, FlowInv, CustodyInv, LogInv;
    if Last(run).submitting == {} {
      forall run', steps' | Continues(run, steps, run', steps')
        ensures Last(run').queue.entered == Last(run).queue.entered
      {
        assert run'[|run| - 1] == run'[..|run|][|run| - 1];
        NothingAccepted(run', steps', |run| - 1, |run'| - 1);
      }
    } else {
      var task :| task in Last(run).submitting;
      RunKeepsInv(run, steps, |run| - 1);
      var s' := SubmitterCanEnqueue(Last(run), task);
      OneMore(run, steps, s', SubmitEnqueue(task, |Last(run).workers|));
    }
  }

  /** A run in which the documented promise fails: the flag goes up while both workers are about to check it. */
  lemma ShutdownMayAbandonATask() returns (run: seq<Pool>, steps: seq<Step>)
    ensures Run(run, steps)
    ensures var last := run[|run| - 1];
      && last.broadcast && AllExited(last) && last.released == []
      && exists t :: t in last.queue.entered && t !in last.completed
  {
    var task := Task(0, true);
    var q0: Q.State<Task> := Q.State([], Q.UNBOUNDED, false, {}, {}, {}, {}, [], [], Q.Calls([], map[], 0, []));
    var s0 := Pool(q0, [AtCheck, AtCheck], {}, {}, [], [], {}, [], false, [0, 0]);
    var s1 := s0.(submitting := {task}, created := {0});
    var q2: Q.State<Task> := q0.(items := [task], entered := [task], calls := Q.Calls([task], map[], 0, []));
    var s2 := s1.(queue := q2, submitting := {});
    var s3 := s2.(queue := q2.(shutdown := true));
    var s4 := s3.(broadcast := true);
    var s5 := s4.(workers := [Exited, AtCheck]);
    var s6 := s5.(workers := [Exited, Exited]);
    run := [s0, s1, s2, s3, s4, s5, s6];
    steps := [SubmitCheck(task), SubmitEnqueue(task, 2), RaiseFlag, Broadcast, CheckFlag(0), CheckFlag(1)];
    assert NextStep(s0, s1, steps[0]);
    assert NextStep(s1, s2, steps[1]) by {
      assert Q.SignalNotEmpty(q2, q2);
      assert Q.Enqueue(q0, q2, 2, task);
    }
    assert NextStep(s2, s3, steps[2]);
    assert NextStep(s3, s4, steps[3]);
    assert NextStep(s4, s5, steps[4]);
    assert NextStep(s5, s6, steps[5]);
    assert task in s6.queue.entered;
  }

  /**
   A second one: the queue is empty at the flag, so nothing seems to be left over, but a
   submitter that checked the flag before enqueues after both workers have exited.
   */
  lemma ShutdownMayLoseALateTask() returns (run: seq<Pool>, steps: seq<Step>, task: Task, flag: nat)
    ensures Run(run, steps) && flag < |run| && run[flag].queue.shutdown
    ensures |run[flag].queue.items| <= |Committed(run[flag])| && task !in run[flag].queue.entered
    ensures var last := Last(run);
      && last.broadcast && AllExited(last) && last.released == []
      && task in last.queue.entered && task !in last.completed
  {
    task, flag := Task(0, true), 2;
    var q0: Q.State<Task> := Q.State([], Q.UNBOUNDED, false, {}, {}, {}, {}, [], [], Q.Calls([], map[], 0, []));
    var s0 := Pool(q0, [AtCheck, AtCheck], {}, {}, [], [], {}, [], false, [0, 0]);
    var s1 := s0.(submitting := {task}, created := {0});
    var q2 := q0.(shutdown := true);
    var s2 := s1.(queue := q2);
    var s3 := s2.(broadcast := true);
    var s4 := s3.(workers := [Exited, AtCheck]);
    var s5 := s4.(workers := [Exited, Exited]);
    var q6: Q.State<Task> := q2.(items := [task], entered := [task], calls := Q.Calls([task], map[], 0, []));
    var s6 := s5.(queue := q6, submitting := {});
    run := [s0, s1, s2, s3, s4, s5, s6];
    steps := [SubmitCheck(task), RaiseFlag, Broadcast, CheckFlag(0), CheckFlag(1), SubmitEnqueue(task, 2)];
    assert NextStep(s0, s1, steps[0]);
    assert NextStep(s1, s2, steps[1]);
    assert NextStep(s2, s3, steps[2]);
    assert NextStep(s3, s4, steps[3]);
    assert NextStep(s4, s5, steps[4]);
    assert NextStep(s5, s6, steps[5]) by {
      assert Q.SignalNotEmpty(q6, q6);
      assert Q.Enqueue(q2, q6, 2, task);
    }
  }
}
