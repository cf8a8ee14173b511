/** NESESLIB/TaskPool.hpp as a transition system over any number of callers and its lazily created workers.

    A caller is an index into `callers`, a worker an index into `workers` (the source's `workers_` vector). One label is
    one atomic action of the source. A worker tests its wait predicate and then sleeps while it holds `taskQueueLock`,
    but `stopFlag` is stored and notify_all called without that lock, so holding the lock, testing, committing to
    sleep and sleeping are labels of their own. The other critical sections under `taskQueueLock` are one label each,
    possible only while no worker holds the lock.
 */
module TaskPool {
  import opened Counting
  import opened Runs

  /** The identity of a task object. */
  type Task = nat

  datatype Worker =
    | Ready               // about to acquire taskQueueLock
    | Holding             // holds the lock, about to test `stopFlag || !tasks.empty()`
    | Committed           // holds the lock, found the predicate false, about to sleep
    | Chosen              // holds the lock, found the predicate true
    | Running(slot: nat)  // outside the lock, executing what was accepted as number `slot`
    | Asleep
    | Exited

  datatype Caller =
    | Idle
    | PassedStop          // Enqueue read stopFlag as false
    | PassedCount         // Enqueue found room in the queue
    | HasWorker           // Enqueue returned from CreateWorker
    | OwesOne             // Enqueue pushed, has not called notify_one yet
    | Marked              // StopAll set the stop flags of the queued tasks
    | OwesAll             // StopAll stored stopFlag, has not called notify_all yet
    | Notified            // StopAll called notify_all
    | Joining(joined: nat, bound: nat)  // StopAll iterates over the workers it saw when its loop began
    | Returned(bound: nat)

  datatype Pool = Pool(
    maxWorkers: nat,
    maxTasks: nat,
    tasks: seq<Task>,
    stop: bool,
    lock: Option<nat>,         // the worker that holds taskQueueLock across labels
    workers: seq<Worker>,
    callers: seq<Caller>,
    hand: seq<Task>,           // the argument of each caller's Enqueue
    // History, never read by the protocol:
    accepted: seq<Task>,       // every task pushed, in push order
    taken: nat,                // how many of them were popped
    finished: multiset<nat>,   // the slots whose execution ended
    acceptedAtStop: nat,       // |accepted| when stopFlag was first stored
    late: nat                  // Enqueue calls between stop check and push at that moment
  )

  datatype Action =
    | CheckStop(c: nat, x: Task)
    | CheckCount(c: nat)
    | CreateWorker(c: nat)
    | PushTask(c: nat)
    | NotifyOne(c: nat, woken: Option<nat>)
    | MarkTasks(c: nat)
    | StoreStop(c: nat)
    | NotifyAll(c: nat)
    | BeginJoin(c: nat)
    | JoinNext(c: nat)
    | Return(c: nat)
    | Acquire(w: nat)
    | Test(w: nat)
    | Sleep(w: nat)
    | Proceed(w: nat)
    | Finish(w: nat)
    | SpuriousWake(w: nat)

  predicate ByWorker(a: Action) {
    a.Acquire? || a.Test? || a.Sleep? || a.Proceed? || a.Finish? || a.SpuriousWake?
  }

  predicate ByEnqueue(a: Action) {
    a.CheckStop? || a.CheckCount? || a.CreateWorker? || a.PushTask? || a.NotifyOne?
  }

  predicate ByStopAll(a: Action) {
    !ByWorker(a) && !ByEnqueue(a)
  }

  /** An Enqueue between its stop check and its push. */
  predicate Pending(p: Caller) {
    p == PassedStop || p == PassedCount || p == HasWorker
  }

  function InFlight(callers: seq<Caller>): nat {
    Count(callers, PassedStop) + Count(callers, PassedCount) + Count(callers, HasWorker)
  }

  function WakeAll(workers: seq<Worker>): (r: seq<Worker>)
    ensures |r| == |workers|
    ensures forall i :: 0 <= i < |r| ==> r[i] == if workers[i] == Asleep then Ready else workers[i]
  {
    seq(|workers|, i requires 0 <= i < |workers| => if workers[i] == Asleep then Ready else workers[i])
  }

  // ---------- Enqueue and StopAll ----------

  predicate CallerEnabled(s: Pool, a: Action)
    requires !ByWorker(a)
  {
    a.c < |s.callers| && |s.hand| == |s.callers| &&
    var p := s.callers[a.c];
    match a
    case CheckStop(_, _) => p == Idle
    case CheckCount(_) => p == PassedStop && s.lock == None
    case CreateWorker(_) => p == PassedCount
    case PushTask(_) => p == HasWorker && s.lock == None
    case NotifyOne(_, woken) =>
      p == OwesOne &&
      if woken.Some? then woken.value < |s.workers| && s.workers[woken.value] == Asleep else Asleep !in s.workers
    case MarkTasks(_) => p == Idle && s.lock == None
    case StoreStop(_) => p == Marked
    case NotifyAll(_) => p == OwesAll
    case BeginJoin(_) => p == Notified
    case JoinNext(_) => p.Joining? && p.joined < p.bound && p.joined < |s.workers| && s.workers[p.joined] == Exited
    case Return(_) => p.Joining? && p.joined == p.bound
  }

  function Goto(s: Pool, c: nat, p: Caller): Pool
    requires c < |s.callers|
  {
    s.(callers := s.callers[c := p])
  }

  function CallerStep(s: Pool, a: Action): Pool
    requires !ByWorker(a) && CallerEnabled(s, a)
  {
    var p := s.callers[a.c];
    match a
    case CheckStop(c, x) => if s.stop then s else Goto(s.(hand := s.hand[c := x]), c, PassedStop)
    case CheckCount(c) => Goto(s, c, if |s.tasks| >= s.maxTasks then Idle else PassedCount)
    case CreateWorker(c) =>
      Goto(if |s.workers| < s.maxWorkers then s.(workers := s.workers + [Ready]) else s, c, HasWorker)
    case PushTask(c) => Goto(s.(tasks := s.tasks + [s.hand[c]], accepted := s.accepted + [s.hand[c]]), c, OwesOne)
    case NotifyOne(c, woken) =>
      Goto(if woken.Some? then s.(workers := s.workers[woken.value := Ready]) else s, c, Idle)
    case MarkTasks(c) => Goto(s, c, Marked)
    case StoreStop(c) =>
      Goto(if s.stop then s else s.(stop := true, acceptedAtStop := |s.accepted|, late := InFlight(s.callers)),
           c, OwesAll)
    case NotifyAll(c) => Goto(s.(workers := WakeAll(s.workers)), c, Notified)
    case BeginJoin(c) => Goto(s, c, Joining(0, |s.workers|))
    case JoinNext(c) => Goto(s, c, Joining(p.joined + 1, p.bound))
    case Return(c) => Goto(s, c, Returned(p.bound))
  }

  // ---------- WorkerFunction ----------

  predicate WorkerEnabled(s: Pool, a: Action)
    requires ByWorker(a)
  {
    a.w < |s.workers| &&
    var p := s.workers[a.w];
    match a
    case Acquire(_) => p == Ready && s.lock == None
    case Test(_) => p == Holding
    case Sleep(_) => p == Committed
    case Proceed(_) => p == Chosen
    case Finish(_) => p.Running?
    case SpuriousWake(_) => p == Asleep
  }

  function WorkerStep(s: Pool, a: Action): Pool
    requires ByWorker(a) && WorkerEnabled(s, a)
  {
    var w := a.w;
    match a
    case Acquire(_) => s.(lock := Some(w), workers := s.workers[w := Holding])
    case Test(_) => s.(workers := s.workers[w := if s.stop || s.tasks != [] then Chosen else Committed])
    case Sleep(_) => s.(lock := None, workers := s.workers[w := Asleep])
    case Proceed(_) =>
      if s.tasks != [] then
        s.(lock := None, workers := s.workers[w := Running(s.taken)], tasks := s.tasks[1..], taken := s.taken + 1)
      else if s.stop then s.(lock := None, workers := s.workers[w := Exited])
      else s.(lock := None, workers := s.workers[w := Ready])  // the defensive null check: go round again
    case Finish(_) =>
      s.(workers := s.workers[w := Ready], finished := s.finished + multiset{s.workers[w].slot})
    case SpuriousWake(_) => s.(workers := s.workers[w := Ready])
  }

  function Next(s: Pool, a: Action): Option<Pool> {
    if ByWorker(a) then (if WorkerEnabled(s, a) then Some(WorkerStep(s, a)) else None)
    else if CallerEnabled(s, a) then Some(CallerStep(s, a))
    else None
  }

  ghost predicate Start(s: Pool) {
    && s.maxWorkers >= 1 && s.tasks == [] && !s.stop && s.lock == None && s.workers == []
    && |s.hand| == |s.callers| && (forall c :: 0 <= c < |s.callers| ==> s.callers[c] == Idle)
    && s.accepted == [] && s.taken == 0 && s.finished == multiset{} && s.acceptedAtStop == 0 && s.late == 0
  }

  ghost predicate Reachable(s: Pool) {
    exists s0, actions :: Start(s0) && Exec(Next, s0, actions) == Some(s)
  }
}
