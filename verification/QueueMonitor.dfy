/** NESESLIB/QueueFifoWaitable.hpp as a monitor shared by any number of threads.

    A thread is an index into `threads`. One label is one critical section, one notification, or one event of the
    condition variable. notify_one and notify_all are labels of their own because the source calls them after the
    mutex was released. Testing the wait predicate and falling asleep are one label: `queue_` and `closed_` change only
    under the mutex, and `wait` releases it and sleeps atomically.
 */
module QueueMonitor {
  import opened Counting
  import opened Runs
  import opened QueueFifoWaitable

  datatype Phase =
    | Idle
    | OwesOne                 // pushed an item, has not called notify_one yet
    | OwesAll                 // closed the queue, has not called notify_all yet
    | Testing(timed: bool)    // inside a wait call, awake, about to test the predicate
    | Asleep(timed: bool)     // inside a wait call, waiting on the condition variable
    | LastTest                // wait_pop_for ran out of time, about to test the predicate a last time

  datatype Monitor<T> = Monitor(core: Core<T>, threads: seq<Phase>)

  datatype Action<T> =
    | Push(t: nat, x: T, accepted: bool)
    | NotifyOne(t: nat, woken: Option<nat>)
    | Pop(t: nat, taken: Option<T>)
    | Close(t: nat)
    | NotifyAll(t: nat)
    | Wait(t: nat, timed: bool)
    | Sleep(t: nat)
    | FinishWait(t: nat, taken: Option<T>)   // wait_pop / wait_pop_for return: an item, or None for false
    | TimeOut(t: nat)                        // wait_pop_for returns false: its last test failed
    | SpuriousWake(t: nat)
    | Deadline(t: nat)

  function WakeAll(threads: seq<Phase>): (r: seq<Phase>)
    ensures |r| == |threads|
    ensures forall i :: 0 <= i < |r| ==> r[i] == if threads[i].Asleep? then Testing(threads[i].timed) else threads[i]
  {
    seq(|threads|, i requires 0 <= i < |threads| =>
      if threads[i].Asleep? then Testing(threads[i].timed) else threads[i])
  }

  predicate AnyAsleep(threads: seq<Phase>) {
    Asleep(false) in threads || Asleep(true) in threads
  }

  function Goto<T>(m: Monitor<T>, t: nat, p: Phase): Monitor<T>
    requires t < |m.threads|
  {
    m.(threads := m.threads[t := p])
  }

  predicate Enabled<T(==)>(m: Monitor<T>, a: Action<T>) {
    a.t < |m.threads| &&
    var p := m.threads[a.t];
    match a
    case Push(t, x, accepted) => p == Idle && accepted == m.core.Accepts()
    case NotifyOne(t, woken) =>
      p == OwesOne &&
      if woken.Some? then woken.value < |m.threads| && m.threads[woken.value].Asleep? else !AnyAsleep(m.threads)
    case Pop(t, taken) => p == Idle && taken == Head(m.core)
    case Close(t) => p == Idle
    case NotifyAll(t) => p == OwesAll
    case Wait(t, timed) => p == Idle
    case Sleep(t) => p.Testing? && !m.core.WaitOver()
    case FinishWait(t, taken) => (p.Testing? || p == LastTest) && m.core.WaitOver() && taken == Head(m.core)
    case TimeOut(t) => p == LastTest && !m.core.WaitOver()
    case SpuriousWake(t) => p.Asleep?
    case Deadline(t) => p == Asleep(true) || p == Testing(true)
  }

  function Next<T(==)>(m: Monitor<T>, a: Action<T>): Option<Monitor<T>> {
    if !Enabled(m, a) then None
    else
      Some(match a
           case Push(t, x, accepted) => Goto(m.(core := Pushed(m.core, x)), t, if accepted then OwesOne else Idle)
           case NotifyOne(t, woken) =>
             if woken.None? then Goto(m, t, Idle)
             else Goto(Goto(m, woken.value, Testing(m.threads[woken.value].timed)), t, Idle)
           case Pop(t, taken) => m.(core := Popped(m.core))
           case Close(t) => Goto(m.(core := m.core.(closed := true)), t, OwesAll)
           case NotifyAll(t) => Goto(m.(threads := WakeAll(m.threads)), t, Idle)
           case Wait(t, timed) => Goto(m, t, Testing(timed))
           case Sleep(t) => Goto(m, t, Asleep(m.threads[t].timed))
           case FinishWait(t, taken) => Goto(m.(core := Popped(m.core)), t, Idle)
           case TimeOut(t) => Goto(m, t, Idle)
           case SpuriousWake(t) => Goto(m, t, Testing(m.threads[t].timed))
           case Deadline(t) => Goto(m, t, LastTest))
  }

  ghost predicate Start<T>(m: Monitor<T>) {
    m.core.items == [] && !m.core.closed && forall t :: 0 <= t < |m.threads| ==> m.threads[t] == Idle
  }

  /** The states that some run of any number of threads reaches. */
  ghost predicate Reachable<T(!new)>(m: Monitor<T>) {
    exists m0: Monitor<T>, actions: seq<Action<T>> :: Start(m0) && Exec(Next, m0, actions) == Some(m)
  }

  // ---------- no lost wake-up ----------

  /** Threads awake inside a wait call: each will test the predicate again. */
  ghost function Awake(threads: seq<Phase>): nat {
    Count(threads, Testing(false)) + Count(threads, Testing(true)) + Count(threads, LastTest)
  }

  ghost function Sleepers(threads: seq<Phase>): nat {
    Count(threads, Asleep(false)) + Count(threads, Asleep(true))
  }

  ghost predicate WakeUpsCovered<T>(m: Monitor<T>) {
    Sleepers(m.threads) > 0 ==>
      if m.core.closed then Count(m.threads, OwesAll) > 0
      else |m.core.items| <= Awake(m.threads) + Count(m.threads, OwesOne)
  }

  ghost predicate Inv<T>(m: Monitor<T>) {
    |m.core.items| <= m.core.capacity && WakeUpsCovered(m)
  }

  ghost function AwakeShare(p: Phase): nat {
    if p.Testing? || p == LastTest then 1 else 0
  }

  ghost function SleepShare(p: Phase): nat {
    if p.Asleep? then 1 else 0
  }

  /** Moving one thread changes the counts by that thread only. */
  lemma Move(threads: seq<Phase>, t: nat, p: Phase)
    requires t < |threads|
    ensures Awake(threads[t := p]) == Awake(threads) - AwakeShare(threads[t]) + AwakeShare(p)
    ensures Sleepers(threads[t := p]) == Sleepers(threads) - SleepShare(threads[t]) + SleepShare(p)
    ensures Count(threads[t := p], OwesOne) == Count(threads, OwesOne) - One(threads[t], OwesOne) + One(p, OwesOne)
    ensures Count(threads[t := p], OwesAll) == Count(threads, OwesAll) - One(threads[t], OwesAll) + One(p, OwesAll)
  {
    CountUpdate(threads, t, p, Testing(false));
    CountUpdate(threads, t, p, Testing(true));
    CountUpdate(threads, t, p, LastTest);
    CountUpdate(threads, t, p, Asleep(false));
    CountUpdate(threads, t, p, Asleep(true));
    CountUpdate(threads, t, p, OwesOne);
    CountUpdate(threads, t, p, OwesAll);
  }

  lemma NobodyAsleep(threads: seq<Phase>)
    requires !AnyAsleep(threads)
    ensures Sleepers(threads) == 0
  {
    CountPositive(threads, Asleep(false));
    CountPositive(threads, Asleep(true));
  }

  lemma NotifyOneKeeps<T(!new)>(m: Monitor<T>, t: nat, woken: Option<nat>)
    requires Inv(m) && Next(m, NotifyOne(t, woken)).Some?
    ensures Inv(Next(m, NotifyOne(t, woken)).value)
  {
    if woken.Some? {
      var w := woken.value;
      Move(m.threads, w, Testing(m.threads[w].timed));
      Move(m.threads[w := Testing(m.threads[w].timed)], t, Idle);
    } else {
      NobodyAsleep(m.threads);
      Move(m.threads, t, Idle);
    }
  }

  lemma QueueStepKeeps<T(!new)>(m: Monitor<T>, a: Action<T>)
    requires Inv(m) && Next(m, a).Some?
    requires a.Push? || a.Pop? || a.Close? || a.FinishWait?
    ensures Inv(Next(m, a).value)
  {
    if !a.Pop? {
      Move(m.threads, a.t, Next(m, a).value.threads[a.t]);
    }
  }

  lemma WaitStepKeeps<T(!new)>(m: Monitor<T>, a: Action<T>)
    requires Inv(m) && Next(m, a).Some?
    requires a.Wait? || a.Sleep? || a.TimeOut? || a.SpuriousWake? || a.Deadline?
    ensures Inv(Next(m, a).value)
  {
    Move(m.threads, a.t, Next(m, a).value.threads[a.t]);
  }

  lemma InvKept<T(!new)>(m: Monitor<T>, a: Action<T>)
    requires Inv(m) && Next(m, a).Some?
    ensures Inv(Next(m, a).value)
  {
    match a
    case NotifyOne(t, woken) => NotifyOneKeeps(m, t, woken);
    case NotifyAll(t) => NobodyAsleep(Next(m, a).value.threads);
    case Push(_, _, _) => QueueStepKeeps(m, a);
    case Pop(_, _) => QueueStepKeeps(m, a);
    case Close(_) => QueueStepKeeps(m, a);
    case FinishWait(_, _) => QueueStepKeeps(m, a);
    case _ => WaitStepKeeps(m, a);
  }

  lemma IdleHasNoSleepers(threads: seq<Phase>)
    requires forall t :: 0 <= t < |threads| ==> threads[t] == Idle
    ensures Sleepers(threads) == 0
  {
    NobodyAsleep(threads);
  }

  /** No lost wake-up: in every reachable state an open queue with a sleeper holds no more items than there are
      threads awake inside a wait call plus notify_one calls still to come, and while a closed queue has a sleeper, a
      closer still owes notify_all. */
  lemma NoLostWakeUp<T(!new)>(m: Monitor<T>)
    requires Reachable(m)
    ensures |m.core.items| <= m.core.capacity
    ensures !m.core.closed && Sleepers(m.threads) > 0 ==> |m.core.items| <= Awake(m.threads) + Count(m.threads, OwesOne)
    ensures m.core.closed && Sleepers(m.threads) > 0 ==> Count(m.threads, OwesAll) > 0
  {
    var m0: Monitor<T>, actions :| Start(m0) && Exec(Next, m0, actions) == Some(m);
    IdleHasNoSleepers(m0.threads);
    forall s: Monitor<T>, a: Action<T> | Inv(s) && Next(s, a).Some? ensures Inv(Next(s, a).value) {
      InvKept(s, a);
    }
    InvariantHolds(Next, s => Inv(s), m0, actions);
  }

  /** Once every thread is outside the queue or asleep in it, nobody sleeps beside an item or on a closed queue. */
  lemma QuietSleepersHaveNothingToDo<T(!new)>(m: Monitor<T>, t: nat)
    requires Reachable(m)
    requires forall i :: 0 <= i < |m.threads| ==> m.threads[i] == Idle || m.threads[i].Asleep?
    requires t < |m.threads| && m.threads[t].Asleep?
    ensures m.core.items == [] && !m.core.closed
  {
    NoLostWakeUp(m);
    CountAt(m.threads, t);
    CountPositive(m.threads, Testing(false));
    CountPositive(m.threads, Testing(true));
    CountPositive(m.threads, LastTest);
    CountPositive(m.threads, OwesOne);
    CountPositive(m.threads, OwesAll);
  }

  // ---------- what goes in and what comes out ----------

  /** What one label adds to the items accepted by push. */
  function Put<T>(a: Action<T>): seq<T> {
    if a.Push? && a.accepted then [a.x] else []
  }

  /** What one label hands out through pop, wait_pop or wait_pop_for. */
  function Got<T>(a: Action<T>): seq<T> {
    if (a.Pop? || a.FinishWait?) && a.taken.Some? then [a.taken.value] else []
  }

  /** The items of the push calls that returned true, in the order of their critical sections. */
  function Accepted<T>(actions: seq<Action<T>>): seq<T> {
    if actions == [] then [] else Put(actions[0]) + Accepted(actions[1..])
  }

  /** The items handed out by pop, wait_pop and wait_pop_for, in order. */
  function Taken<T>(actions: seq<Action<T>>): seq<T> {
    if actions == [] then [] else Got(actions[0]) + Taken(actions[1..])
  }

  lemma StepIsFifo<T>(m: Monitor<T>, a: Action<T>)
    requires Next(m, a).Some?
    ensures m.core.items + Put(a) == Got(a) + Next(m, a).value.core.items
    ensures m.core.closed ==> Next(m, a).value.core.closed && Put(a) == []
  {
  }

  lemma JoinSteps<T>(s0: seq<T>, put: seq<T>, got: seq<T>, s1: seq<T>, puts: seq<T>, gots: seq<T>, s2: seq<T>)
    requires s0 + put == got + s1 && s1 + puts == gots + s2
    ensures s0 + (put + puts) == (got + gots) + s2
  {
    calc {
      s0 + (put + puts);
      (s0 + put) + puts;
      got + (s1 + puts);
      (got + gots) + s2;
    }
  }

  /** First in, first out over whole runs, whatever mix of pops took the items; the queue closes for good, and
      accepts nothing once it is closed. */
  lemma {:induction false} FifoOverRuns<T>(m: Monitor<T>, actions: seq<Action<T>>)
    requires Exec(Next, m, actions).Some?
    ensures m.core.items + Accepted(actions) == Taken(actions) + Exec(Next, m, actions).value.core.items
    ensures m.core.closed ==> Exec(Next, m, actions).value.core.closed && Accepted(actions) == []
    decreases |actions|
  {
    if actions == [] {
    } else {
      var a, m' := actions[0], Next(m, actions[0]).value;
      StepIsFifo(m, a);
      FifoOverRuns(m', actions[1..]);
      JoinSteps(m.core.items, Put(a), Got(a), m'.core.items, Accepted(actions[1..]), Taken(actions[1..]),
        Exec(Next, m, actions).value.core.items);
    }
  }

  /** When a wait call reports false, the queue is empty, and either it is closed and has handed out everything it
      ever accepted, or the call was a timed one that ran out of time. */
  lemma FalseMeansDrained<T>(m0: Monitor<T>, actions: seq<Action<T>>, t: nat)
    requires Start(m0) && Exec(Next, m0, actions).Some?
    ensures var m := Exec(Next, m0, actions).value;
            Next(m, FinishWait(t, None)).Some? ==> m.core.closed && Taken(actions) == Accepted(actions)
    ensures var m := Exec(Next, m0, actions).value;
            Next(m, TimeOut(t)).Some? ==> !m.core.closed && Taken(actions) == Accepted(actions)
  {
    FifoOverRuns(m0, actions);
    var m := Exec(Next, m0, actions).value;
    if m.core.items == [] {
      assert Taken(actions) + m.core.items == Taken(actions);
      assert m0.core.items + Accepted(actions) == Accepted(actions);
    }
  }

  // ---------- what the calls answer ----------

  /** push succeeds exactly if the queue is open and below capacity, pop and a wait that is over come back empty-handed
      exactly if there is nothing, and a thread outside the queue can always call. */
  lemma AnswersAreExact<T>(m: Monitor<T>, t: nat, x: T)
    requires t < |m.threads| && m.threads[t] == Idle
    ensures forall ok :: Next(m, Push(t, x, ok)).Some? <==> ok == (!m.core.closed && |m.core.items| < m.core.capacity)
    ensures forall out :: Next(m, Pop(t, out)).Some? <==>
              out == if m.core.items == [] then None else Some(m.core.items[0])
    ensures Next(m, Close(t)).Some? && Next(m, Close(t)).value.core.closed
    ensures forall timed :: Next(m, Wait(t, timed)).Some?
  {
  }

  /** notify_one wakes any one sleeper, and none only if there is none; any sleeper can wake for no reason. */
  lemma WakeUpsIff<T>(m: Monitor<T>, t: nat, w: nat)
    requires t < |m.threads| && w < |m.threads|
    ensures Next(m, NotifyOne(t, Some(w))).Some? <==> m.threads[t] == OwesOne && m.threads[w].Asleep?
    ensures m.threads[w].Asleep? ==> Next(m, NotifyOne(t, None)).None?
    ensures Next(m, NotifyOne(t, Some(w))).Some? ==>
              var m' := Next(m, NotifyOne(t, Some(w))).value;
              m'.threads[w] == Testing(m.threads[w].timed) && m'.threads[t] == Idle && m'.core == m.core
    ensures Next(m, SpuriousWake(t)).Some? <==> m.threads[t].Asleep?
  {
  }

  predicate Closes<T>(actions: seq<Action<T>>) {
    exists i :: 0 <= i < |actions| && actions[i].Close?
  }

  /** A queue is closed exactly if some thread has closed it; its capacity never changes. */
  lemma {:induction false} ClosedIffCloseCalled<T>(m: Monitor<T>, actions: seq<Action<T>>)
    requires Exec(Next, m, actions).Some?
    ensures Exec(Next, m, actions).value.core.closed <==> m.core.closed || Closes(actions)
    ensures Exec(Next, m, actions).value.core.capacity == m.core.capacity
    decreases |actions|
  {
    if actions == [] {
    } else {
      assert Closes(actions) <==> actions[0].Close? || Closes(actions[1..]) by {
        if i :| 0 <= i < |actions[1..]| && actions[1..][i].Close? {
          assert actions[i + 1].Close?;
        }
        if i :| 0 <= i < |actions| && actions[i].Close? {
          assert i == 0 || actions[1..][i - 1].Close?;
        }
      }
      ClosedIffCloseCalled(Next(m, actions[0]).value, actions[1..]);
    }
  }

  predicate InWait(p: Phase) {
    p.Testing? || p.Asleep? || p == LastTest
  }

  /** A thread that is awake in a wait call returns the front item if there is one, and false if there is none and the
      queue is closed; otherwise it can only sleep, or give up if its time is over. */
  lemma WaitReturnsIff<T>(m: Monitor<T>, t: nat)
    requires t < |m.threads| && InWait(m.threads[t]) && !m.threads[t].Asleep?
    ensures forall out :: Next(m, FinishWait(t, out)).Some? <==>
              if m.core.items != [] then out == Some(m.core.items[0]) else m.core.closed && out == None
    ensures Next(m, Sleep(t)).Some? <==> m.threads[t].Testing? && m.core.items == [] && !m.core.closed
    ensures Next(m, TimeOut(t)).Some? <==> m.threads[t] == LastTest && m.core.items == [] && !m.core.closed
  {
  }

  /** Time runs out exactly for threads inside a timed wait, asleep or not, and then the call can end. */
  lemma DeadlineIff<T>(m: Monitor<T>, t: nat)
    requires t < |m.threads|
    ensures Next(m, Deadline(t)).Some? <==> m.threads[t] == Asleep(true) || m.threads[t] == Testing(true)
    ensures Next(m, Deadline(t)).Some? ==>
              var m' := Next(m, Deadline(t)).value;
              m'.core == m.core && (Next(m', TimeOut(t)).Some? || Next(m', FinishWait(t, Head(m.core))).Some?)
  {
  }

  /** Whether the last wait call of thread `t` in a run is a timed one. */
  function LastTimed<T>(actions: seq<Action<T>>, t: nat, before: bool): bool {
    if actions == [] then before
    else LastTimed(actions[1..], t, if actions[0].Wait? && actions[0].t == t then actions[0].timed else before)
  }

  ghost predicate TimedIs(p: Phase, timed: bool) {
    (p.Testing? || p.Asleep? ==> p.timed == timed) && (p == LastTest ==> timed)
  }

  lemma {:induction false} TimedOverRuns<T>(m: Monitor<T>, actions: seq<Action<T>>, t: nat, before: bool)
    requires t < |m.threads| && TimedIs(m.threads[t], before) && Exec(Next, m, actions).Some?
    ensures t < |Exec(Next, m, actions).value.threads|
    ensures TimedIs(Exec(Next, m, actions).value.threads[t], LastTimed(actions, t, before))
    decreases |actions|
  {
    if actions == [] {
    } else {
      var a := actions[0];
      TimedOverRuns(Next(m, a).value, actions[1..], t, if a.Wait? && a.t == t then a.timed else before);
    }
  }

  /** Only a call of wait_pop_for gives up; and it is inside that call as a timed one until it does. */
  lemma OnlyTimedWaitsTimeOut<T>(m0: Monitor<T>, actions: seq<Action<T>>, t: nat)
    requires Start(m0) && t < |m0.threads| && Exec(Next, m0, actions).Some?
    ensures var m := Exec(Next, m0, actions).value;
            && (Next(m, TimeOut(t)).Some? || Next(m, Deadline(t)).Some? ==> LastTimed(actions, t, false))
            && t < |m.threads| && (m.threads[t].Asleep? && LastTimed(actions, t, false) ==> Next(m, Deadline(t)).Some?)
  {
    TimedOverRuns(m0, actions, t, false);
  }

  lemma {:induction false} CanFill(m: Monitor<int>, n: nat) returns (actions: seq<Action<int>>)
    requires |m.threads| > 0 && m.threads[0] == Idle && !AnyAsleep(m.threads)
    requires !m.core.closed && |m.core.items| + n == m.core.capacity
    ensures Exec(Next, m, actions).Some? && |Exec(Next, m, actions).value.core.items| == m.core.capacity
    decreases n
  {
    if n == 0 {
      return [];
    }
    var push: Action<int>, notify := Push(0, 0, true), NotifyOne(0, None);
    var pushed := Next(m, push).value;
    var notified := Next(pushed, notify).value;
    assert notified.threads == m.threads;
    var rest := CanFill(notified, n - 1);
    ExecCons(Next, pushed, notify, rest);
    ExecCons(Next, m, push, [notify] + rest);
    actions := [push] + ([notify] + rest);
  }

  /** The bound on the items is attained: some run fills every queue that has a thread. */
  lemma CapacityIsReached(m0: Monitor<int>) returns (m: Monitor<int>)
    requires Start(m0) && |m0.threads| > 0
    ensures Reachable(m) && m.core.capacity == m0.core.capacity && |m.core.items| == m.core.capacity
  {
    var actions := CanFill(m0, m0.core.capacity);
    m := Exec(Next, m0, actions).value;
    ClosedIffCloseCalled(m0, actions);
  }
}
