/** What every step of the task pool keeps, and what follows for every reachable state. */
module TaskPoolSafety {
  import opened Counting
  import opened Runs
  import opened TaskPool

  // ---------- the invariant ----------

  /** The queue is what was accepted and not yet popped. */
  ghost predicate Queue(s: Pool) {
    s.taken <= |s.accepted| && s.tasks == s.accepted[s.taken..]
  }

  /** The source's reserved vector never grows beyond its reservation; tasks are pushed only after a worker was
      created. */
  ghost predicate Workers(s: Pool) {
    && s.maxWorkers >= 1 && |s.workers| <= s.maxWorkers && |s.hand| == |s.callers|
    && (|s.workers| == 0 ==> |s.accepted| == 0 && forall c :: 0 <= c < |s.callers| ==> s.callers[c] != HasWorker)
  }

  predicate InCriticalSection(p: Worker) {
    p == Holding || p == Committed || p == Chosen
  }

  /** taskQueueLock excludes: exactly its holder is inside, and what the holder found true stays true. */
  ghost predicate Lock(s: Pool) {
    && (s.lock.Some? ==> s.lock.value < |s.workers|)
    && (forall w :: 0 <= w < |s.workers| ==> (InCriticalSection(s.workers[w]) <==> s.lock == Some(w)))
    && (Committed in s.workers ==> s.tasks == [])
    && (Chosen in s.workers ==> s.stop || s.tasks != [])
  }

  /** Each popped task is either being executed by one worker or was executed once; no other slot is either. */
  ghost predicate ExactlyOnce(s: Pool) {
    forall i: nat :: s.finished[i] + Count(s.workers, Running(i)) == if i < s.taken then 1 else 0
  }

  /** Workers that will look at the queue before they do anything else. */
  ghost function AboutToLook(workers: seq<Worker>): nat {
    Count(workers, Ready) + Count(workers, Holding) + Count(workers, Chosen)
  }

  ghost predicate WorkConserving(s: Pool) {
    Count(s.workers, Asleep) > 0 ==> |s.tasks| <= AboutToLook(s.workers) + Count(s.callers, OwesOne)
  }

  /** The most that can be queued or on its way into the queue, for a given number of calling threads. */
  function SoftBound(s: Pool): nat {
    if s.maxTasks == 0 || |s.callers| == 0 then 0 else s.maxTasks - 1 + |s.callers|
  }

  ghost predicate Bounded(s: Pool) {
    |s.tasks| + Count(s.callers, PassedCount) + Count(s.callers, HasWorker) <= SoftBound(s)
  }

  predicate Stopping(p: Caller) {
    p == OwesAll || p == Notified || p.Joining? || p.Returned?
  }

  /** What is pushed after stopFlag was stored was on its way when it was stored, and a worker leaves only after it
      found the queue empty. */
  ghost predicate Shutdown(s: Pool) {
    && (s.stop ==> s.acceptedAtStop <= |s.accepted| && |s.accepted| - s.acceptedAtStop + InFlight(s.callers) <= s.late)
    && (!s.stop ==> (forall c :: 0 <= c < |s.callers| ==> !Stopping(s.callers[c])) && Exited !in s.workers)
    && (Exited in s.workers ==> s.taken >= s.acceptedAtStop)
  }

  /** A StopAll that has joined the first `joined` of `bound` workers. */
  ghost predicate JoinedTo(s: Pool, joined: nat, bound: nat) {
    && joined <= bound <= |s.workers|
    && (forall w :: 0 <= w < joined ==> s.workers[w] == Exited)
    && (bound == 0 ==> s.acceptedAtStop == 0)
    && (s.late == 0 ==> bound == |s.workers|)
  }

  ghost predicate Joins(s: Pool) {
    forall c :: 0 <= c < |s.callers| ==>
      match s.callers[c]
      case Joining(joined, bound) => JoinedTo(s, joined, bound)
      case Returned(bound) => JoinedTo(s, bound, bound)
      case _ => true
  }

  ghost predicate Inv(s: Pool) {
    Queue(s) && Workers(s) && Lock(s) && ExactlyOnce(s) && WorkConserving(s) && Bounded(s) && Shutdown(s) && Joins(s)
  }

  // ---------- every step keeps it ----------

  lemma CallerMoves(s: Pool, c: nat, p: Caller)
    requires c < |s.callers|
    ensures forall q :: Count(s.callers[c := p], q) == Count(s.callers, q) - One(s.callers[c], q) + One(p, q)
  {
    forall q ensures Count(s.callers[c := p], q) == Count(s.callers, q) - One(s.callers[c], q) + One(p, q) {
      CountUpdate(s.callers, c, p, q);
    }
  }

  lemma InFlightMoves(s: Pool, c: nat, p: Caller)
    requires c < |s.callers|
    ensures InFlight(s.callers[c := p]) ==
            InFlight(s.callers) - (if Pending(s.callers[c]) then 1 else 0) + if Pending(p) then 1 else 0
  {
    CountUpdate(s.callers, c, p, PassedStop);
    CountUpdate(s.callers, c, p, PassedCount);
    CountUpdate(s.callers, c, p, HasWorker);
  }

  lemma WorkerMoves(s: Pool, w: nat, p: Worker)
    requires w < |s.workers|
    ensures forall q :: Count(s.workers[w := p], q) == Count(s.workers, q) - One(s.workers[w], q) + One(p, q)
  {
    forall q ensures Count(s.workers[w := p], q) == Count(s.workers, q) - One(s.workers[w], q) + One(p, q) {
      CountUpdate(s.workers, w, p, q);
    }
  }

  lemma {:induction false} WakeAllCounts(workers: seq<Worker>, q: Worker)
    ensures Count(WakeAll(workers), q) ==
            if q == Asleep then 0
            else if q == Ready then Count(workers, Ready) + Count(workers, Asleep)
            else Count(workers, q)
  {
    if workers == [] {
    } else {
      assert WakeAll(workers)[1..] == WakeAll(workers[1..]);
      WakeAllCounts(workers[1..], q);
    }
  }

  lemma DropAppend<T>(s: seq<T>, k: nat, x: T)
    requires k <= |s|
    ensures (s + [x])[k..] == s[k..] + [x]
  {
  }

  lemma QueueKept(s: Pool, a: Action)
    requires Queue(s) && Next(s, a).Some?
    ensures Queue(Next(s, a).value)
  {
    var s' := Next(s, a).value;
    if a.PushTask? {
      DropAppend(s.accepted, s.taken, s.hand[a.c]);
    } else if s'.taken == s.taken {
      assert s'.accepted == s.accepted && s'.tasks == s.tasks;
    }
  }

  lemma {:induction false} QueueAlongRuns(s: Pool, actions: seq<Action>)
    requires Queue(s) && Exec(Next, s, actions).Some?
    ensures Queue(Exec(Next, s, actions).value)
    decreases |actions|
  {
    if actions == [] {
    } else {
      QueueKept(s, actions[0]);
      QueueAlongRuns(Next(s, actions[0]).value, actions[1..]);
    }
  }

  lemma WorkersKeptByWorker(s: Pool, a: Action)
    requires Workers(s) && ByWorker(a) && Next(s, a).Some?
    ensures Workers(Next(s, a).value)
  {
  }

  lemma WorkersKeptByCaller(s: Pool, a: Action)
    requires Workers(s) && !ByWorker(a) && Next(s, a).Some?
    ensures Workers(Next(s, a).value)
  {
  }

  lemma LockKept(s: Pool, a: Action)
    requires Lock(s) && Next(s, a).Some?
    ensures Lock(Next(s, a).value)
  {
    if ByWorker(a) {
      LockKeptByWorker(s, a);
    } else if ByEnqueue(a) {
      LockKeptByEnqueue(s, a);
    } else {
      LockKeptByStopAll(s, a);
    }
  }

  lemma LockKeptByWorker(s: Pool, a: Action)
    requires Lock(s) && ByWorker(a) && Next(s, a).Some?
    ensures Lock(Next(s, a).value)
  {
  }

  lemma LockKeptByNotifyOne(s: Pool, c: nat, woken: Option<nat>)
    requires Lock(s) && Next(s, NotifyOne(c, woken)).Some?
    ensures Lock(Next(s, NotifyOne(c, woken)).value)
  {
  }

  lemma LockKeptByEnqueue(s: Pool, a: Action)
    requires Lock(s) && ByEnqueue(a) && Next(s, a).Some?
    ensures Lock(Next(s, a).value)
  {
    if a.NotifyOne? {
      LockKeptByNotifyOne(s, a.c, a.woken);
    } else if a.CreateWorker? {
    } else {
      assert Next(s, a).value.workers == s.workers && Next(s, a).value.lock == s.lock;
    }
  }

  lemma LockKeptByStopAll(s: Pool, a: Action)
    requires Lock(s) && ByStopAll(a) && Next(s, a).Some?
    ensures Lock(Next(s, a).value)
  {
  }

  lemma ExactlyOnceKept(s: Pool, a: Action)
    requires ExactlyOnce(s) && Next(s, a).Some?
    ensures ExactlyOnce(Next(s, a).value)
  {
    if ByWorker(a) {
      WorkerMoves(s, a.w, Next(s, a).value.workers[a.w]);
    } else {
      ExactlyOnceKeptByCaller(s, a);
    }
  }

  lemma ExactlyOnceKeptByCaller(s: Pool, a: Action)
    requires ExactlyOnce(s) && !ByWorker(a) && Next(s, a).Some?
    ensures ExactlyOnce(Next(s, a).value)
  {
    if a.NotifyOne? && a.woken.Some? {
      WorkerMoves(s, a.woken.value, Ready);
    } else if a.NotifyAll? {
      forall i: nat { WakeAllCounts(s.workers, Running(i)); }
    } else if a.CreateWorker? {
      forall i: nat { CountAppend(s.workers, Ready, Running(i)); }
    }
  }

  lemma WorkConservingKeptByWorker(s: Pool, a: Action)
    requires Lock(s) && WorkConserving(s) && ByWorker(a) && Next(s, a).Some?
    ensures WorkConserving(Next(s, a).value)
  {
    WorkerMoves(s, a.w, Next(s, a).value.workers[a.w]);
    CountPositive(s.workers, Committed);
  }

  lemma WorkConservingKeptByEnqueue(s: Pool, a: Action)
    requires WorkConserving(s) && ByEnqueue(a) && Next(s, a).Some?
    ensures WorkConserving(Next(s, a).value)
  {
    CallerMoves(s, a.c, Next(s, a).value.callers[a.c]);
    if a.NotifyOne? {
      if a.woken.Some? {
        WorkerMoves(s, a.woken.value, Ready);
      } else {
        CountPositive(s.workers, Asleep);
      }
    } else if a.CreateWorker? {
      forall q { CountAppend(s.workers, Ready, q); }
    }
  }

  lemma WorkConservingKeptByStopAll(s: Pool, a: Action)
    requires WorkConserving(s) && ByStopAll(a) && Next(s, a).Some?
    ensures WorkConserving(Next(s, a).value)
  {
    CallerMoves(s, a.c, Next(s, a).value.callers[a.c]);
    if a.NotifyAll? {
      WakeAllCounts(s.workers, Asleep);
    }
  }

  lemma BoundedKeptByEnqueue(s: Pool, a: Action)
    requires Bounded(s) && ByEnqueue(a) && Next(s, a).Some?
    ensures Bounded(Next(s, a).value)
  {
    CallerMoves(s, a.c, Next(s, a).value.callers[a.c]);
    CountsFit(Next(s, a).value.callers, PassedCount, HasWorker);
  }

  lemma BoundedKeptByStopAll(s: Pool, a: Action)
    requires Bounded(s) && ByStopAll(a) && Next(s, a).Some?
    ensures Bounded(Next(s, a).value)
  {
    CallerMoves(s, a.c, Next(s, a).value.callers[a.c]);
  }

  lemma ShutdownKeptByWorker(s: Pool, a: Action)
    requires Queue(s) && Shutdown(s) && ByWorker(a) && Next(s, a).Some?
    ensures Shutdown(Next(s, a).value)
  {
  }

  /** What an Enqueue adds to the queue it takes off the count of those on their way. */
  lemma EnqueueMovesOn(s: Pool, a: Action)
    requires ByEnqueue(a) && Next(s, a).Some?
    ensures var t := Next(s, a).value;
            s.stop ==> |t.accepted| + InFlight(t.callers) <= |s.accepted| + InFlight(s.callers)
  {
    if a.CheckStop? && s.stop {
    } else {
      InFlightMoves(s, a.c, Next(s, a).value.callers[a.c]);
    }
  }

  lemma ShutdownKeptByEnqueue(s: Pool, a: Action)
    requires Shutdown(s) && ByEnqueue(a) && Next(s, a).Some?
    ensures Shutdown(Next(s, a).value)
  {
    EnqueueMovesOn(s, a);
  }

  lemma ShutdownKeptByStopAll(s: Pool, a: Action)
    requires Queue(s) && Shutdown(s) && ByStopAll(a) && Next(s, a).Some?
    ensures Shutdown(Next(s, a).value)
  {
    InFlightMoves(s, a.c, Next(s, a).value.callers[a.c]);
  }

  lemma JoinsKeptByWorker(s: Pool, a: Action)
    requires Joins(s) && ByWorker(a) && Next(s, a).Some?
    ensures Joins(Next(s, a).value)
  {
  }

  lemma JoinsKeptByCreateWorker(s: Pool, c: nat)
    requires Joins(s) && Shutdown(s) && Next(s, CreateWorker(c)).Some?
    ensures Joins(Next(s, CreateWorker(c)).value)
  {
    CountAt(s.callers, c);
    assert !s.stop || s.late > 0;
  }

  lemma JoinsKeptByEnqueue(s: Pool, a: Action)
    requires Joins(s) && Shutdown(s) && ByEnqueue(a) && Next(s, a).Some?
    ensures Joins(Next(s, a).value)
  {
    if a.CreateWorker? {
      JoinsKeptByCreateWorker(s, a.c);
    } else if a.NotifyOne? {
    } else {
      assert Next(s, a).value.workers == s.workers;
    }
  }

  lemma JoinsKeptByStopAll(s: Pool, a: Action)
    requires Workers(s) && Joins(s) && Shutdown(s) && ByStopAll(a) && Next(s, a).Some?
    ensures Joins(Next(s, a).value)
  {
  }

  lemma InvKept(s: Pool, a: Action)
    requires Inv(s) && Next(s, a).Some?
    ensures Inv(Next(s, a).value)
  {
    QueueKept(s, a);
    LockKept(s, a);
    ExactlyOnceKept(s, a);
    if ByWorker(a) {
      WorkersKeptByWorker(s, a);
      WorkConservingKeptByWorker(s, a);
      ShutdownKeptByWorker(s, a);
      JoinsKeptByWorker(s, a);
    } else if ByEnqueue(a) {
      WorkersKeptByCaller(s, a);
      WorkConservingKeptByEnqueue(s, a);
      BoundedKeptByEnqueue(s, a);
      ShutdownKeptByEnqueue(s, a);
      JoinsKeptByEnqueue(s, a);
    } else {
      WorkersKeptByCaller(s, a);
      WorkConservingKeptByStopAll(s, a);
      BoundedKeptByStopAll(s, a);
      ShutdownKeptByStopAll(s, a);
      JoinsKeptByStopAll(s, a);
    }
  }

  lemma StartInv(s: Pool)
    requires Start(s)
    ensures Inv(s)
  {
    CountPositive(s.callers, PassedStop);
    CountPositive(s.callers, PassedCount);
    CountPositive(s.callers, HasWorker);
  }

  lemma InvAlongRuns(s: Pool, actions: seq<Action>)
    requires Inv(s) && Exec(Next, s, actions).Some?
    ensures Inv(Exec(Next, s, actions).value)
  {
    forall s, a | Inv(s) && Next(s, a).Some? ensures Inv(Next(s, a).value) {
      InvKept(s, a);
    }
    InvariantHolds(Next, s => Inv(s), s, actions);
  }

  lemma ReachableInv(s: Pool)
    requires Reachable(s)
    ensures Inv(s)
  {
    var s0, actions :| Start(s0) && Exec(Next, s0, actions) == Some(s);
    StartInv(s0);
    InvAlongRuns(s0, actions);
  }

  lemma ReachableOn(s: Pool, actions: seq<Action>)
    requires Reachable(s) && Exec(Next, s, actions).Some?
    ensures Reachable(Exec(Next, s, actions).value)
  {
    var s0, before :| Start(s0) && Exec(Next, s0, before) == Some(s);
    ExecAppend(Next, s0, before, actions);
  }

  // ---------- what holds in every reachable state ----------

  /** No worker sleeps through work: while one sleeps, every queued task has a worker about to look at the queue or a
      notify_one still to come; and a task is queued only if there is a worker. */
  lemma NoWorkerSleepsThroughWork(s: Pool)
    requires Reachable(s)
    ensures Asleep in s.workers ==> |s.tasks| <= AboutToLook(s.workers) + Count(s.callers, OwesOne)
    ensures s.tasks != [] ==> s.workers != []
    ensures |s.workers| <= s.maxWorkers
  {
    ReachableInv(s);
    CountPositive(s.workers, Asleep);
  }

  /** The queue limit is soft: checking and pushing are separate, so each calling thread can add one task beyond it. The
      bound holds for the queued tasks and those on their way into the queue together. */
  lemma QueueLimit(s: Pool)
    requires Reachable(s)
    ensures s.maxTasks == 0 ==> s.tasks == []
    ensures s.maxTasks >= 1 && |s.callers| >= 1 ==>
              |s.tasks| + Count(s.callers, PassedCount) + Count(s.callers, HasWorker) <= s.maxTasks - 1 + |s.callers|
    ensures |s.callers| == 1 ==> |s.tasks| <= s.maxTasks
  {
    ReachableInv(s);
  }

  /** First in, first out, exactly once: the pops so far took the first `taken` accepted tasks in order, each of them
      is being executed by one worker or was executed once, and nothing else was ever executed. */
  lemma TasksRunExactlyOnce(s: Pool, i: nat)
    requires Reachable(s)
    ensures s.taken <= |s.accepted| && s.tasks == s.accepted[s.taken..]
    ensures s.finished[i] + Count(s.workers, Running(i)) == if i < s.taken then 1 else 0
  {
    ReachableInv(s);
  }

  /** The null check after the pop never fires: a worker that was let past its wait pops a task or leaves. */
  lemma ChosenWorkerHasTaskOrLeaves(s: Pool, w: nat)
    requires Reachable(s) && w < |s.workers| && s.workers[w] == Chosen
    ensures var p := Next(s, Proceed(w)).value.workers[w]; p.Running? || p == Exited
  {
    ReachableInv(s);
  }

  lemma ReturnedMeansJoined(s: Pool, c: nat)
    requires Queue(s) && Workers(s) && Shutdown(s) && Joins(s) && c < |s.callers| && s.callers[c].Returned?
    ensures s.taken >= s.acceptedAtStop && |s.tasks| <= s.late
    ensures s.late == 0 ==> s.tasks == [] && forall w :: 0 <= w < |s.workers| ==> s.workers[w] == Exited
  {
    var bound := s.callers[c].bound;
    assert JoinedTo(s, bound, bound);
    if bound > 0 {
      assert s.workers[0] == Exited;
    }
  }

  lemma AllExecuted(s: Pool)
    requires Queue(s) && ExactlyOnce(s) && s.tasks == [] && forall w :: 0 <= w < |s.workers| ==> s.workers[w] == Exited
    ensures forall i: nat :: s.finished[i] == if i < |s.accepted| then 1 else 0
  {
    forall i: nat ensures s.finished[i] == if i < |s.accepted| then 1 else 0 {
      CountPositive(s.workers, Running(i));
    }
  }

  /** When StopAll has returned, every task accepted before stopFlag was stored was popped, and no more tasks are left
      behind than there were Enqueue calls between their stop check and their push at that moment. If there were none,
      every worker has exited, the queue is empty, and every accepted task was executed exactly once. */
  lemma DrainedOnReturn(s: Pool, c: nat)
    requires Reachable(s) && c < |s.callers| && s.callers[c].Returned?
    ensures s.taken >= s.acceptedAtStop && |s.tasks| <= s.late
    ensures s.late == 0 ==>
              && s.tasks == [] && (forall w :: 0 <= w < |s.workers| ==> s.workers[w] == Exited)
              && forall i: nat :: s.finished[i] == if i < |s.accepted| then 1 else 0
  {
    ReachableInv(s);
    ReturnedMeansJoined(s, c);
    if s.late == 0 {
      AllExecuted(s);
    }
  }
}
