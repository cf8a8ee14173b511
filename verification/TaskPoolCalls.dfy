/** NESESLIB/TaskPool.hpp: the calls of the pool as they run on its members, while other threads do anything that the
    protocol of TaskPool allows between any two of their atomic actions.

    A call that finds the lock taken, or a thread it waits for not ready, ends with what it has done so far: the waits
    of the source are not bounded, so a call is observed up to an arbitrary point. Every call hands out, as ghosts, the
    labels of all threads that happened meanwhile.
 */
module TaskPoolCalls {
  import opened Runs
  import opened TaskPool
  import opened TaskPoolSafety
  import opened TaskPoolThreads

  // ---------- the members ----------

  /** What the operating system says of a thread. */
  datatype Thread = Alive | Waiting | Terminated

  function StatusOf(p: Worker): Thread {
    match p
    case Asleep => Waiting
    case Exited => Terminated
    case _ => Alive
  }

  datatype Reply = Accepted | Refused | Blocked

  /** What an Enqueue did, by how it ended. */
  ghost predicate EnqueueSteps(r: Reply, own: seq<Action>, c: nat, x: Task) {
    match r
    case Accepted =>
      && |own| == 5 && own[..4] == [CheckStop(c, x), CheckCount(c), CreateWorker(c), PushTask(c)]
      && own[4].NotifyOne? && own[4].c == c
    case Refused => own == [CheckStop(c, x)] || own == [CheckStop(c, x), CheckCount(c)]
    case Blocked => own == [CheckStop(c, x)] || own == [CheckStop(c, x), CheckCount(c), CreateWorker(c)]
  }

  lemma AcceptedSteps(own: seq<Action>, c: nat, x: Task)
    requires |own| == 3 && own[..2] == [CreateWorker(c), PushTask(c)] && own[2].NotifyOne? && own[2].c == c
    ensures EnqueueSteps(Accepted, [CheckStop(c, x), CheckCount(c)] + own, c, x)
  {
    assert own == [CreateWorker(c), PushTask(c), own[2]];
  }

  lemma OneMoreJoin(c: nat, i: nat)
    ensures [BeginJoin(c)] + seq(i, _ => JoinNext(c)) + [JoinNext(c)] == [BeginJoin(c)] + seq(i + 1, _ => JoinNext(c))
  {
  }

  /** A StopAll that joins `n` workers and returns. */
  function JoinSteps(c: nat, n: nat): seq<Action> {
    [BeginJoin(c)] + seq(n, _ => JoinNext(c)) + [Return(c)]
  }

  class Members {
    var tasks: seq<Task>
    var stopFlag: bool
    var locked: bool             // a worker holds taskQueueLock from one label to another
    var workers: seq<Thread>
    const maxWorkerCount: nat
    const maxTaskCount: nat
    ghost var pool: Pool         // the state of the protocol that the members show

    constructor (hardwareConcurrency: nat, maxTaskCount: nat, ghost callers: nat)
      ensures Valid() && Start(pool) && Reachable(pool) && |pool.callers| == callers
      ensures this.maxTaskCount == maxTaskCount
      ensures maxWorkerCount == if hardwareConcurrency == 0 then 1 else hardwareConcurrency
    {
      maxWorkerCount := if hardwareConcurrency == 0 then 1 else hardwareConcurrency;
      this.maxTaskCount := maxTaskCount;
      tasks, stopFlag, locked, workers := [], false, false, [];
      pool := Pool(
        if hardwareConcurrency == 0 then 1 else hardwareConcurrency, maxTaskCount, [], false, None, [],
        seq(callers, _ => Idle), seq(callers, _ => 0), [], 0, multiset{}, 0, 0);
      new;
      assert Exec(Next, pool, []) == Some(pool);
    }

    ghost predicate Valid()
      reads this
    {
      && tasks == pool.tasks && stopFlag == pool.stop && locked == pool.lock.Some?
      && |workers| == |pool.workers| && (forall w :: 0 <= w < |workers| ==> workers[w] == StatusOf(pool.workers[w]))
      && maxWorkerCount == pool.maxWorkers && maxTaskCount == pool.maxTasks
    }

    /** What other threads do meanwhile. Those who call this rely on nothing but its contract: any run without a label
        of their own. */
    method Others(ghost who: Who) returns (ghost labels: seq<Action>)
      requires Valid()
      modifies this
      ensures Valid() && Ran(old(pool), labels, pool, who, [])
    {
      labels := [];
    }

    method Meanwhile(ghost who: Who) returns (ghost labels: seq<Action>)
      requires Valid()
      modifies this
      ensures Valid() && Ran(old(pool), labels, pool, who, [])
      ensures Keeps(old(pool), pool, who) && Grows(old(pool), pool)
    {
      labels := Others(who);
      RunKeeps(old(pool), labels, pool, who);
      RunGrows(old(pool), labels, pool);
    }

    /** One label of the protocol. */
    ghost method Take(a: Action, who: Who, s: Pool, labels: seq<Action>) returns (labels': seq<Action>)
      requires Ran(s, labels, pool, who, []) && By(a, who) && Next(pool, a).Some?
      modifies this`pool
      ensures pool == Next(old(pool), a).value
      ensures Ran(s, labels', pool, who, [a]) && Grows(old(pool), pool)
    {
      RanStep(s, labels, pool, who, a);
      StepGrows(pool, a);
      pool := Next(pool, a).value;
      labels' := labels + [a];
    }

    // ---------- Enqueue ----------

    ghost predicate Calls(c: nat, p: Caller)
      reads this
    {
      Valid() && |pool.hand| == |pool.callers| && c < |pool.callers| && pool.callers[c] == p
    }

    method ReadStopFlag(ghost c: nat, x: Task) returns (goOn: bool, ghost labels: seq<Action>)
      requires Calls(c, Idle)
      modifies this
      ensures Calls(c, if goOn then PassedStop else Idle) && (goOn ==> pool.hand[c] == x)
      ensures Ran(old(pool), labels, pool, CallerThread(c), [CheckStop(c, x)]) && Grows(old(pool), pool)
      ensures (old(stopFlag) ==> !goOn) && (goOn <==> !stopFlag)
    {
      labels := Meanwhile(CallerThread(c));
      goOn := !stopFlag;
      labels := Take(CheckStop(c, x), CallerThread(c), old(pool), labels);
    }

    /** taskCount, and its comparison. */
    method CountTasks(ghost c: nat) returns (r: Reply, ghost labels: seq<Action>)
      requires Calls(c, PassedStop)
      modifies this
      ensures Calls(c, if r == Accepted then PassedCount else if r == Refused then Idle else PassedStop)
      ensures Ran(old(pool), labels, pool, CallerThread(c), if r == Blocked then [] else [CheckCount(c)])
      ensures (r == Blocked ==> locked) && (r == Refused ==> |tasks| >= maxTaskCount)
      ensures r == Accepted ==> |tasks| < maxTaskCount
      ensures Grows(old(pool), pool) && pool.hand[c] == old(pool).hand[c]
    {
      labels := Meanwhile(CallerThread(c));
      if locked {
        return Blocked, labels;
      }
      r := if |tasks| >= maxTaskCount then Refused else Accepted;
      labels := Take(CheckCount(c), CallerThread(c), old(pool), labels);
    }

    method AddWorker(ghost c: nat) returns (ghost labels: seq<Action>)
      requires Calls(c, PassedCount)
      modifies this
      ensures Calls(c, HasWorker) && Ran(old(pool), labels, pool, CallerThread(c), [CreateWorker(c)])
      ensures |workers| > |old(workers)| || |workers| >= maxWorkerCount
      ensures Grows(old(pool), pool) && pool.hand[c] == old(pool).hand[c]
    {
      labels := Meanwhile(CallerThread(c));
      if |workers| < maxWorkerCount {
        workers := workers + [Alive];
      }
      labels := Take(CreateWorker(c), CallerThread(c), old(pool), labels);
    }

    method Push(ghost c: nat, x: Task) returns (ok: bool, ghost labels: seq<Action>)
      requires Calls(c, HasWorker) && pool.hand[c] == x
      modifies this
      ensures Calls(c, if ok then OwesOne else HasWorker)
      ensures Ran(old(pool), labels, pool, CallerThread(c), if ok then [PushTask(c)] else [])
      ensures Grows(old(pool), pool) && (ok ==> x in pool.accepted[|old(pool).accepted|..])
      ensures if ok then tasks != [] && tasks[|tasks| - 1] == x else locked
    {
      labels := Meanwhile(CallerThread(c));
      if locked {
        return false, labels;
      }
      ghost var before := pool.accepted;
      tasks := tasks + [x];
      ok := true;
      labels := Take(PushTask(c), CallerThread(c), old(pool), labels);
      assert pool.accepted[|before|] == x;
    }

    /** notify_one: wakes any one waiting thread, if there is one. */
    method NotifyAny(ghost c: nat) returns (ghost labels: seq<Action>, ghost woken: Option<nat>)
      requires Calls(c, OwesOne)
      modifies this
      ensures Calls(c, Idle) && Ran(old(pool), labels, pool, CallerThread(c), [NotifyOne(c, woken)])
      ensures Grows(old(pool), pool)
    {
      labels := Meanwhile(CallerThread(c));
      woken := None;
      if w :| 0 <= w < |workers| && workers[w] == Waiting {
        workers := workers[w := Alive];
        woken := Some(w);
      }
      labels := Take(NotifyOne(c, woken), CallerThread(c), old(pool), labels);
    }

    /** The checks of Enqueue. */
    method Admit(ghost c: nat, x: Task) returns (r: Reply, ghost labels: seq<Action>, ghost own: seq<Action>)
      requires Calls(c, Idle)
      modifies this
      ensures Valid() && (r == Refused ==> Calls(c, Idle))
      ensures r == Accepted ==> Calls(c, PassedCount) && pool.hand[c] == x && own == [CheckStop(c, x), CheckCount(c)]
      ensures Ran(old(pool), labels, pool, CallerThread(c), own) && (r != Accepted ==> EnqueueSteps(r, own, c, x))
      ensures Grows(old(pool), pool) && (old(stopFlag) ==> r == Refused)
      ensures (r == Refused ==> stopFlag || |tasks| >= maxTaskCount) && (r == Blocked ==> locked)
    {
      ghost var s, counted := pool, [];
      var goOn;
      goOn, labels := ReadStopFlag(c, x);
      own := [CheckStop(c, x)];
      if !goOn {
        return Refused, labels, own;
      }
      ghost var t := pool;
      r, counted := CountTasks(c);
      ghost var step := if r == Blocked then [] else [CheckCount(c)];
      RanThen(s, labels, t, own, counted, pool, step, CallerThread(c));
      labels, own := labels + counted, own + step;
    }

    /** What Enqueue does once it is past its checks. */
    method Submit(ghost c: nat, x: Task) returns (ok: bool, ghost labels: seq<Action>, ghost own: seq<Action>)
      requires Calls(c, PassedCount) && pool.hand[c] == x
      modifies this
      ensures Valid() && (ok ==> Calls(c, Idle))
      ensures Ran(old(pool), labels, pool, CallerThread(c), own)
      ensures if ok then |own| == 3 && own[..2] == [CreateWorker(c), PushTask(c)] && own[2].NotifyOne? && own[2].c == c
              else own == [CreateWorker(c)]
      ensures Grows(old(pool), pool) && (ok ==> x in pool.accepted[|old(pool.accepted)|..]) && (!ok ==> locked)
      ensures |workers| > |old(workers)| || |workers| >= maxWorkerCount
    {
      ghost var s := pool;
      labels := AddWorker(c);
      own := [CreateWorker(c)];
      ghost var t, more := pool, [];
      ok, more := Push(c, x);
      ghost var step := if ok then [PushTask(c)] else [];
      RanThen(s, labels, t, own, more, pool, step, CallerThread(c));
      labels, own := labels + more, own + step;
      if ok {
        t := pool;
        ghost var woken;
        more, woken := NotifyAny(c);
        RanThen(s, labels, t, own, more, pool, [NotifyOne(c, woken)], CallerThread(c));
        labels, own := labels + more, own + [NotifyOne(c, woken)];
      }
    }

    /** Enqueue. One that answers true took its five steps once, in order, pushed its argument, and created a worker
        unless there are as many as allowed; one that answers false did not push, and found stopFlag up or the queue at
        its limit; one that is called while stopFlag is up answers false. */
    method Enqueue(ghost c: nat, x: Task) returns (r: Reply, ghost labels: seq<Action>, ghost own: seq<Action>)
      requires Calls(c, Idle)
      modifies this
      ensures Valid() && (r != Blocked ==> Calls(c, Idle))
      ensures Ran(old(pool), labels, pool, CallerThread(c), own) && EnqueueSteps(r, own, c, x)
      ensures r == Accepted ==> |old(pool.accepted)| <= |pool.accepted| && x in pool.accepted[|old(pool.accepted)|..]
      ensures r == Accepted ==> |workers| > |old(workers)| || |workers| >= maxWorkerCount
      ensures r == Refused ==> stopFlag || |tasks| >= maxTaskCount
      ensures (r == Blocked ==> locked) && (old(stopFlag) ==> r == Refused)
    {
      ghost var s := pool;
      r, labels, own := Admit(c, x);
      if r != Accepted {
        return;
      }
      ghost var t, more, steps := pool, [], [];
      var ok;
      ok, more, steps := Submit(c, x);
      RanThen(s, labels, t, own, more, pool, steps, CallerThread(c));
      labels, own := labels + more, own + steps;
      if ok {
        AcceptedSteps(steps, c, x);
      } else {
        r := Blocked;
      }
    }

    // ---------- WorkerFunction ----------

    ghost predicate IsAt(w: nat, p: Worker)
      reads this
    {
      Valid() && w < |pool.workers| && pool.workers[w] == p
    }

    predicate Waits(w: nat)
      reads this
    {
      w < |workers| && workers[w] == Waiting
    }

    method Lock(w: nat) returns (ok: bool, ghost labels: seq<Action>)
      requires IsAt(w, Ready)
      modifies this
      ensures IsAt(w, if ok then Holding else Ready) && Grows(old(pool), pool) && locked
      ensures Ran(old(pool), labels, pool, WorkerThread(w), if ok then [Acquire(w)] else [])
    {
      labels := Meanwhile(WorkerThread(w));
      if locked {
        return false, labels;
      }
      locked, ok := true, true;
      labels := Take(Acquire(w), WorkerThread(w), old(pool), labels);
    }

    /** The wait predicate. */
    method TestPredicate(w: nat) returns (over: bool, ghost labels: seq<Action>)
      requires IsAt(w, Holding)
      modifies this
      ensures IsAt(w, if over then Chosen else Committed) && Grows(old(pool), pool)
      ensures Ran(old(pool), labels, pool, WorkerThread(w), [Test(w)])
    {
      labels := Meanwhile(WorkerThread(w));
      over := stopFlag || tasks != [];
      labels := Take(Test(w), WorkerThread(w), old(pool), labels);
    }

    method FallAsleep(w: nat) returns (ghost labels: seq<Action>)
      requires IsAt(w, Committed)
      modifies this
      ensures IsAt(w, Asleep) && Grows(old(pool), pool)
      ensures Ran(old(pool), labels, pool, WorkerThread(w), [Sleep(w)])
    {
      labels := Meanwhile(WorkerThread(w));
      locked, workers := false, workers[w := Waiting];
      labels := Take(Sleep(w), WorkerThread(w), old(pool), labels);
    }

    method SleepUntilWoken(w: nat) returns (blocked: bool, ghost labels: seq<Action>)
      requires IsAt(w, Committed)
      modifies this
      ensures Valid() && (!blocked ==> IsAt(w, Ready)) && (blocked ==> Waits(w)) && Grows(old(pool), pool)
      ensures Did(old(pool), labels, pool, w, Tally(1, 0, 0))
    {
      labels := FallAsleep(w);
      RanDidOne(old(pool), labels, pool, w, Sleep(w), Tally(1, 0, 0));
      ghost var t := pool;
      ghost var more := Meanwhile(WorkerThread(w));
      RanDidNothing(t, more, pool, w);
      DidThen(old(pool), labels, t, Tally(1, 0, 0), more, pool, Tally(0, 0, 0), w, Tally(1, 0, 0));
      labels := labels + more;
      blocked := workers[w] == Waiting;
    }

    method LockAndTest(w: nat) returns (over: bool, blocked: bool, ghost labels: seq<Action>)
      requires IsAt(w, Ready)
      modifies this
      ensures Valid() && (!blocked ==> IsAt(w, if over then Chosen else Committed)) && Grows(old(pool), pool)
      ensures Did(old(pool), labels, pool, w, Tally(0, 0, 0)) && (blocked ==> locked && !over)
    {
      ghost var more;
      var ok;
      over := false;
      ok, labels := Lock(w);
      blocked := !ok;
      if !ok {
        RanDidNothing(old(pool), labels, pool, w);
      } else {
        RanDidOne(old(pool), labels, pool, w, Acquire(w), Tally(0, 0, 0));
        ghost var t := pool;
        over, more := TestPredicate(w);
        RanDidOne(t, more, pool, w, Test(w), Tally(0, 0, 0));
        DidThen(old(pool), labels, t, Tally(0, 0, 0), more, pool, Tally(0, 0, 0), w, Tally(0, 0, 0));
        labels := labels + more;
      }
    }

    /** Takes the lock and tests the predicate; if it is false, sleeps until woken. Ends blocked if the lock is taken,
        or no wake-up comes. */
    method TestOnce(w: nat) returns (over: bool, blocked: bool, ghost sleeps: nat, ghost labels: seq<Action>)
      requires IsAt(w, Ready)
      modifies this
      ensures Valid() && (!blocked ==> IsAt(w, if over then Chosen else Ready)) && Grows(old(pool), pool)
      ensures blocked ==> !over && (locked || Waits(w))
      ensures Did(old(pool), labels, pool, w, Tally(sleeps, 0, 0)) && (!over && !blocked ==> sleeps == 1)
    {
      over, blocked, labels := LockAndTest(w);
      sleeps := 0;
      if !blocked && !over {
        ghost var t, more := pool, [];
        blocked, more := SleepUntilWoken(w);
        DidThen(old(pool), labels, t, Tally(0, 0, 0), more, pool, Tally(1, 0, 0), w, Tally(1, 0, 0));
        GrowsOn(old(pool), t, pool);
        labels, sleeps := labels + more, 1;
      }
    }

    /** cv.wait with the lock to be acquired first: returns true with the lock held and the predicate found true.
        `wakes` is how many wake-ups are waited for. */
    method AwaitWork(w: nat, wakes: nat) returns (over: bool, ghost sleeps: nat, ghost labels: seq<Action>)
      requires IsAt(w, Ready)
      modifies this
      ensures Valid() && (over ==> IsAt(w, Chosen)) && Grows(old(pool), pool)
      ensures Did(old(pool), labels, pool, w, Tally(sleeps, 0, 0))
      ensures !over ==> locked || Waits(w) || sleeps > wakes
    {
      over, sleeps, labels := false, 0, [];
      for n := 0 to wakes + 1
        invariant !over && IsAt(w, Ready) && Grows(old(pool), pool)
        invariant Did(old(pool), labels, pool, w, Tally(sleeps, 0, 0)) && sleeps == n
      {
        ghost var t, more, slept := pool, [], 0;
        var blocked;
        over, blocked, slept, more := TestOnce(w);
        DidThen(old(pool), labels, t, Tally(sleeps, 0, 0), more, pool, Tally(slept, 0, 0), w,
          Tally(sleeps + slept, 0, 0));
        labels, sleeps := labels + more, sleeps + slept;
        if over || blocked {
          return;
        }
      }
    }

    /** The rest of the critical section: leave, or take the front task, or (defensively) neither. */
    method LeaveOrPop(w: nat) returns (left: bool, task: Option<Task>)
      requires IsAt(w, Chosen)
      modifies this
      ensures Valid() && Next(old(pool), Proceed(w)) == Some(pool)
      ensures IsAt(w, if left then Exited else if task.Some? then Running(old(pool.taken)) else Ready)
      ensures left ==> stopFlag && tasks == [] && task == None
      ensures task.Some? ==> old(pool.tasks) != [] && task.value == old(pool.tasks)[0]
    {
      left, task := false, None;
      if stopFlag && tasks == [] {
        left := true;
        workers := workers[w := Terminated];
      } else if tasks != [] {
        task := Some(tasks[0]);
        tasks := tasks[1..];
      }
      locked := false;
      pool := Next(pool, Proceed(w)).value;
    }

    method TakeTask(w: nat) returns (left: bool, task: Option<Task>, ghost slot: nat, ghost labels: seq<Action>)
      requires IsAt(w, Chosen) && Queue(pool)
      modifies this
      ensures IsAt(w, if left then Exited else if task.Some? then Running(slot) else Ready)
      ensures Did(old(pool), labels, pool, w, Tally(0, 1, 0)) && Grows(old(pool), pool) && Queue(pool)
      ensures left ==> stopFlag && tasks == [] && task == None
      ensures task.Some? ==> old(pool.taken) <= slot < pool.taken && pool.accepted[slot] == task.value
    {
      labels := Meanwhile(WorkerThread(w));
      QueueAlongRuns(old(pool), labels);
      ghost var t := pool;
      slot := pool.taken;
      left, task := LeaveOrPop(w);
      QueueKept(t, Proceed(w));
      StepGrows(t, Proceed(w));
      RanStep(old(pool), labels, t, WorkerThread(w), Proceed(w));
      labels := labels + [Proceed(w)];
      RanDidOne(old(pool), labels, pool, w, Proceed(w), Tally(0, 1, 0));
    }

    /** Runs what was popped, outside the lock. */
    method Execute(w: nat, ghost slot: nat) returns (ghost labels: seq<Action>)
      requires IsAt(w, Running(slot))
      modifies this
      ensures IsAt(w, Ready) && Did(old(pool), labels, pool, w, Tally(0, 0, 1))
      ensures Grows(old(pool), pool) && pool.finished[slot] > 0
    {
      labels := Meanwhile(WorkerThread(w));
      labels := Take(Finish(w), WorkerThread(w), old(pool), labels);
      RanDidOne(old(pool), labels, pool, w, Finish(w), Tally(0, 0, 1));
    }

    /** One turn of the loop of WorkerFunction. */
    method WorkerTurn(w: nat, wakes: nat)
      returns (left: bool, blocked: bool, done: Option<Task>, ghost slot: nat, ghost n: Tally,
               ghost labels: seq<Action>)
      requires IsAt(w, Ready) && Queue(pool)
      modifies this
      ensures Valid() && Queue(pool) && Grows(old(pool), pool) && Did(old(pool), labels, pool, w, n)
      ensures n.ends == (if done.Some? then 1 else 0) && n.sections == (if blocked then 0 else 1)
      ensures !blocked ==> IsAt(w, if left then Exited else Ready)
      ensures blocked ==> locked || Waits(w) || n.sleeps > wakes
      ensures left ==> !blocked && stopFlag && tasks == []
      ensures left || blocked ==> done == None
      ensures done.Some? ==>
                && old(pool.taken) <= slot < pool.taken && slot < |pool.accepted|
                && pool.accepted[slot] == done.value && pool.finished[slot] > 0
    {
      ghost var more, sleeps;
      left, blocked, done, slot := false, true, None, 0;
      var over;
      over, sleeps, labels := AwaitWork(w, wakes);
      n := Tally(sleeps, 0, 0);
      QueueAlongRuns(old(pool), labels);
      if !over {
        return;
      }
      blocked := false;
      ghost var t := pool;
      left, done, slot, more := TakeTask(w);
      DidThen(old(pool), labels, t, n, more, pool, Tally(0, 1, 0), w, Tally(sleeps, 1, 0));
      labels, n := labels + more, Tally(sleeps, 1, 0);
      if done.Some? {
        t := pool;
        more := Execute(w, slot);
        DidThen(old(pool), labels, t, n, more, pool, Tally(0, 0, 1), w, Tally(sleeps, 1, 1));
        labels, n := labels + more, Tally(sleeps, 1, 1);
        QueueAlongRuns(old(pool), labels);
      }
    }

    /** WorkerFunction, observed for `turns` turns of its loop with up to `wakes` wake-ups in each wait: all that it
        executes is accepted tasks, in the order of acceptance, and it leaves only when stopFlag is up and the queue is
        empty. Otherwise it has gone all its turns, or waits. */
    method WorkerFunction(w: nat, turns: nat, wakes: nat)
      returns (left: bool, executed: seq<Task>, ghost slots: seq<nat>, ghost n: Tally, ghost labels: seq<Action>)
      requires IsAt(w, Ready) && Queue(pool)
      modifies this
      ensures Valid() && Did(old(pool), labels, pool, w, n) && n.ends == |executed|
      ensures left ==> IsAt(w, Exited) && stopFlag && tasks == []
      ensures !left ==> n.sections == turns || locked || Waits(w) || n.sleeps > wakes
      ensures Executed(pool, executed, slots, old(pool.taken))
    {
      left, executed, slots, labels, n := false, [], [], [], Tally(0, 0, 0);
      for k := 0 to turns
        invariant !left && IsAt(w, Ready) && Queue(pool)
        invariant Did(old(pool), labels, pool, w, n) && n.ends == |executed| && n.sections == k
        invariant Executed(pool, executed, slots, old(pool.taken)) && old(pool.taken) <= pool.taken
      {
        ghost var t, slot, more, m := pool, 0, [], Tally(0, 0, 0);
        var blocked, done;
        left, blocked, done, slot, m, more := WorkerTurn(w, wakes);
        DidThen(old(pool), labels, t, n, more, pool, m, w, Plus(n, m));
        labels, n := labels + more, Plus(n, m);
        ExecutedStays(t, pool, executed, slots, old(pool.taken));
        if left || blocked {
          return;
        }
        if done.Some? {
          ExecutedMore(t, pool, executed, slots, old(pool.taken), done.value, slot);
          executed, slots := executed + [done.value], slots + [slot];
        }
      }
    }

    // ---------- StopAll ----------

    /** The first critical section of StopAll. */
    method MarkAll(ghost c: nat) returns (ok: bool, ghost labels: seq<Action>)
      requires Calls(c, Idle)
      modifies this
      ensures Calls(c, if ok then Marked else Idle) && (!ok ==> locked)
      ensures Ran(old(pool), labels, pool, CallerThread(c), if ok then [MarkTasks(c)] else [])
    {
      labels := Meanwhile(CallerThread(c));
      ok := !locked;
      if ok {
        labels := Take(MarkTasks(c), CallerThread(c), old(pool), labels);
      }
    }

    method RaiseStopFlag(ghost c: nat) returns (ghost labels: seq<Action>)
      requires Calls(c, Marked)
      modifies this
      ensures Calls(c, OwesAll) && stopFlag
      ensures Ran(old(pool), labels, pool, CallerThread(c), [StoreStop(c)])
    {
      labels := Meanwhile(CallerThread(c));
      stopFlag := true;
      labels := Take(StoreStop(c), CallerThread(c), old(pool), labels);
    }

    method NotifyEveryone(ghost c: nat) returns (ghost labels: seq<Action>)
      requires Calls(c, OwesAll)
      modifies this
      ensures Calls(c, Notified) && (old(stopFlag) ==> stopFlag)
      ensures Ran(old(pool), labels, pool, CallerThread(c), [NotifyAll(c)])
    {
      labels := Meanwhile(CallerThread(c));
      workers := seq(|workers|, i requires 0 <= i < |workers| reads this =>
        if workers[i] == Waiting then Alive else workers[i]);
      labels := Take(NotifyAll(c), CallerThread(c), old(pool), labels);
    }

    method BeginJoins(ghost c: nat) returns (n: nat, ghost labels: seq<Action>)
      requires Calls(c, Notified)
      modifies this
      ensures Calls(c, Joining(0, n)) && n <= |workers| && Grows(old(pool), pool)
      ensures Ran(old(pool), labels, pool, CallerThread(c), [BeginJoin(c)])
    {
      labels := Meanwhile(CallerThread(c));
      n := |workers|;
      labels := Take(BeginJoin(c), CallerThread(c), old(pool), labels);
    }

    /** Joins worker `i`, if it has terminated by now. */
    method JoinWorker(ghost c: nat, i: nat, ghost n: nat) returns (ok: bool, ghost labels: seq<Action>)
      requires Calls(c, Joining(i, n)) && i < n <= |workers|
      modifies this
      ensures Calls(c, Joining(if ok then i + 1 else i, n)) && n <= |workers| && Grows(old(pool), pool)
      ensures ok <==> workers[i] == Terminated
      ensures Ran(old(pool), labels, pool, CallerThread(c), if ok then [JoinNext(c)] else [])
    {
      labels := Meanwhile(CallerThread(c));
      ok := workers[i] == Terminated;
      if ok {
        labels := Take(JoinNext(c), CallerThread(c), old(pool), labels);
      }
    }

    ghost predicate SomeoneRuns()
      reads this
    {
      exists w :: 0 <= w < |workers| && workers[w] != Terminated
    }

    /** The join loop of StopAll. */
    method JoinAll(ghost c: nat) returns (ok: bool, n: nat, ghost labels: seq<Action>)
      requires Calls(c, Notified)
      modifies this
      ensures Valid() && Grows(old(pool), pool) && Exec(Next, old(pool), labels) == Some(pool)
      ensures ok ==> Calls(c, Joining(n, n)) && n <= |workers|
                     && Own(labels, CallerThread(c)) == [BeginJoin(c)] + seq(n, _ => JoinNext(c))
      ensures !ok ==> SomeoneRuns()
    {
      n, labels := BeginJoins(c);
      for i := 0 to n
        invariant Calls(c, Joining(i, n)) && n <= |workers| && Grows(old(pool), pool)
        invariant Ran(old(pool), labels, pool, CallerThread(c), [BeginJoin(c)] + seq(i, _ => JoinNext(c)))
      {
        ghost var t, more := pool, [];
        ok, more := JoinWorker(c, i, n);
        RanThen(old(pool), labels, t, [BeginJoin(c)] + seq(i, _ => JoinNext(c)), more, pool,
          if ok then [JoinNext(c)] else [], CallerThread(c));
        labels := labels + more;
        if !ok {
          return;
        }
        OneMoreJoin(c, i);
      }
      ok := true;
    }

    /** StopAll up to the join loop. */
    method Announce(ghost c: nat) returns (ok: bool, ghost labels: seq<Action>)
      requires Calls(c, Idle)
      modifies this
      ensures Valid() && Exec(Next, old(pool), labels) == Some(pool)
      ensures ok ==> Calls(c, Notified) && stopFlag
                     && Own(labels, CallerThread(c)) == [MarkTasks(c), StoreStop(c), NotifyAll(c)]
      ensures !ok ==> locked
    {
      ghost var who, more := CallerThread(c), [];
      ok, labels := MarkAll(c);
      if ok {
        ghost var t := pool;
        more := RaiseStopFlag(c);
        RanThen(old(pool), labels, t, [MarkTasks(c)], more, pool, [StoreStop(c)], who);
        labels, t := labels + more, pool;
        more := NotifyEveryone(c);
        RanThen(old(pool), labels, t, [MarkTasks(c), StoreStop(c)], more, pool, [NotifyAll(c)], who);
        labels := labels + more;
      }
    }

    method ReturnFromStop(ghost c: nat, ghost n: nat) returns (ghost labels: seq<Action>)
      requires Calls(c, Joining(n, n))
      modifies this
      ensures Calls(c, Returned(n)) && Grows(old(pool), pool)
      ensures Ran(old(pool), labels, pool, CallerThread(c), [Return(c)])
    {
      labels := Meanwhile(CallerThread(c));
      labels := Take(Return(c), CallerThread(c), old(pool), labels);
    }

    /** What follows the announcement. */
    method JoinAndReturn(ghost c: nat) returns (returned: bool, n: nat, ghost labels: seq<Action>)
      requires Calls(c, Notified)
      modifies this
      ensures Valid() && Grows(old(pool), pool) && Exec(Next, old(pool), labels) == Some(pool)
      ensures returned ==> Calls(c, Returned(n)) && Own(labels, CallerThread(c)) == JoinSteps(c, n)
      ensures !returned ==> SomeoneRuns()
    {
      returned, n, labels := JoinAll(c);
      if returned {
        ghost var own, t := Own(labels, CallerThread(c)), pool;
        ghost var more := ReturnFromStop(c, n);
        RanThen(old(pool), labels, t, own, more, pool, [Return(c)], CallerThread(c));
        labels := labels + more;
      }
    }

    /** StopAll. One that returns took its steps once and in order. If no Enqueue was under way when stopFlag was stored
        it leaves an empty queue and no running thread, and otherwise at most one task for each such Enqueue. One that
        does not return waits for the lock, or for a worker. */
    method StopAll(ghost c: nat) returns (returned: bool, n: nat, ghost labels: seq<Action>)
      requires Calls(c, Idle) && Reachable(pool)
      modifies this
      ensures Valid() && Exec(Next, old(pool), labels) == Some(pool)
      ensures returned ==> Calls(c, Returned(n)) && stopFlag
      ensures !returned ==> locked || SomeoneRuns()
      ensures returned ==> Own(labels, CallerThread(c)) == [MarkTasks(c), StoreStop(c), NotifyAll(c)] + JoinSteps(c, n)
      ensures returned ==> |tasks| <= pool.late && pool.taken >= pool.acceptedAtStop
      ensures returned && pool.late == 0 ==> tasks == [] && forall w :: 0 <= w < |workers| ==> workers[w] == Terminated
    {
      n := 0;
      returned, labels := Announce(c);
      if !returned {
        return;
      }
      ghost var own, t, more := [MarkTasks(c), StoreStop(c), NotifyAll(c)], pool, [];
      returned, n, more := JoinAndReturn(c);
      RanThen(old(pool), labels, t, own, more, pool, Own(more, CallerThread(c)), CallerThread(c));
      labels := labels + more;
      if returned {
        ReachableOn(old(pool), labels);
        DrainedOnReturn(pool, c);
      }
    }
  }
}
