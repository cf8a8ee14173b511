/** Exactly when StopAll leaves a worker asleep, and exactly when it leaves a task behind. */
module TaskPoolShutdown {
  import opened Counting
  import opened Runs
  import opened TaskPool
  import opened TaskPoolSafety

  // ---------- a worker left asleep ----------

  ghost predicate AwakeForGood(s: Pool) {
    s.stop && Asleep !in s.workers && Committed !in s.workers
  }

  lemma AwakeForGoodKept(s: Pool, a: Action)
    requires AwakeForGood(s) && Next(s, a).Some?
    ensures AwakeForGood(Next(s, a).value)
  {
  }

  lemma AwakeAfterNotify(s: Pool, c: nat, actions: seq<Action>)
    requires s.stop && Committed !in s.workers && Next(s, NotifyAll(c)).Some?
    ensures var r := Exec(Next, Next(s, NotifyAll(c)).value, actions); r.Some? ==> Asleep !in r.value.workers
  {
    forall t, a | AwakeForGood(t) && Next(t, a).Some? ensures AwakeForGood(Next(t, a).value) {
      AwakeForGoodKept(t, a);
    }
    InvariantHolds(Next, t => AwakeForGood(t), Next(s, NotifyAll(c)).value, actions);
  }

  lemma CommittedOversleeps(s: Pool, c: nat, w: nat)
    requires w < |s.workers| && s.workers[w] == Committed && Next(s, NotifyAll(c)).Some?
    ensures var r := Exec(Next, Next(s, NotifyAll(c)).value, [Sleep(w)]); r.Some? && Asleep in r.value.workers
  {
    var s' := Next(s, NotifyAll(c)).value;
    ExecOne(Next, s', Sleep(w));
    assert Next(s', Sleep(w)).value.workers[w] == Asleep;
  }

  /** stopFlag is stored and notify_all called without taskQueueLock. So after notify_all no worker ever sleeps again
      exactly when none was, at that moment, between finding its wait predicate false and falling asleep. */
  lemma StopReachesEveryWorkerIff(s: Pool, c: nat)
    requires Reachable(s) && Next(s, NotifyAll(c)).Some?
    ensures
      (forall actions ::
         var r := Exec(Next, Next(s, NotifyAll(c)).value, actions); r.Some? ==> Asleep !in r.value.workers)
      <==> Committed !in s.workers
  {
    ReachableInv(s);
    assert Stopping(s.callers[c]);
    if w :| 0 <= w < |s.workers| && s.workers[w] == Committed {
      CommittedOversleeps(s, c, w);
    } else {
      forall actions { AwakeAfterNotify(s, c, actions); }
    }
  }

  lemma StepTo(s: Pool, a: Action) returns (t: Pool)
    requires Reachable(s) && Next(s, a).Some?
    ensures Next(s, a) == Some(t) && Reachable(t)
  {
    ExecOne(Next, s, a);
    ReachableOn(s, [a]);
    t := Next(s, a).value;
  }

  lemma PassStop(s: Pool, c: nat) returns (t: Pool)
    requires Reachable(s) && !s.stop && c < |s.callers| && |s.hand| == |s.callers| && s.callers[c] == Idle
    ensures Next(s, CheckStop(c, 0)) == Some(t) && Reachable(t)
    ensures t == s.(hand := s.hand[c := 0], callers := s.callers[c := PassedStop])
  {
    t := StepTo(s, CheckStop(c, 0));
  }

  lemma Mark(s: Pool, c: nat) returns (t: Pool)
    requires Reachable(s) && s.lock == None && c < |s.callers| && |s.hand| == |s.callers| && s.callers[c] == Idle
    ensures Reachable(t) && t == s.(callers := s.callers[c := Marked]) && Next(t, StoreStop(c)).Some?
  {
    t := StepTo(s, MarkTasks(c));
  }

  lemma StartReachable(s0: Pool)
    requires Start(s0)
    ensures Reachable(s0)
  {
    assert Exec(Next, s0, []) == Some(s0);
  }

  lemma CountAndCreate(s: Pool, c: nat) returns (t: Pool)
    requires Reachable(s) && s.lock == None && s.workers == [] && s.tasks == [] && s.maxWorkers >= 1 && s.maxTasks >= 1
    requires c < |s.callers| && |s.hand| == |s.callers| && s.callers[c] == PassedStop
    ensures Reachable(t) && t == s.(workers := [Ready], callers := s.callers[c := HasWorker])
  {
    t := StepTo(s, CheckCount(c));
    assert t == s.(callers := s.callers[c := PassedCount]);
    t := StepTo(t, CreateWorker(c));
    assert t.callers == s.callers[c := HasWorker];
  }

  lemma WorkerCommits(s: Pool) returns (t: Pool)
    requires Reachable(s) && s.tasks == [] && !s.stop && s.lock == None && s.workers == [Ready]
    ensures Reachable(t) && t.workers == [Committed] && t.callers == s.callers && t.hand == s.hand
  {
    t := StepTo(s, Acquire(0));
    assert t.workers == [Holding];
    t := StepTo(t, Test(0));
    assert t.workers == [Committed];
  }

  lemma WorkerReadyOtherMarked(s0: Pool) returns (s: Pool)
    requires Start(s0) && |s0.callers| >= 2 && s0.maxTasks >= 1
    ensures Reachable(s) && s.tasks == [] && !s.stop && s.lock == None && s.workers == [Ready]
    ensures |s.callers| == |s.hand| >= 2 && s.callers[1] == Marked
  {
    StartReachable(s0);
    s := PassStop(s0, 0);
    s := CountAndCreate(s, 0);
    s := Mark(s, 1);
  }

  lemma Store(s: Pool, c: nat) returns (t: Pool)
    requires Reachable(s) && c < |s.callers| && |s.hand| == |s.callers| && s.callers[c] == Marked
    ensures Reachable(t) && t.workers == s.workers && Next(t, NotifyAll(c)).Some?
  {
    t := StepTo(s, StoreStop(c));
    assert t.callers[c] == OwesAll;
  }

  /** It happens: one thread enqueues a first task, and the worker it created tests its wait predicate before another
      thread stores stopFlag, and sleeps after that thread's notify_all. */
  lemma NotificationCanBeMissed(s0: Pool) returns (s: Pool)
    requires Start(s0) && |s0.callers| >= 2 && s0.maxTasks >= 1
    ensures Reachable(s) && Committed in s.workers && Next(s, NotifyAll(1)).Some?
  {
    s := WorkerReadyOtherMarked(s0);
    s := WorkerCommits(s);
    s := Store(s, 1);
    assert s.workers == [Committed];
  }

  // ---------- StopAll can always return ----------

  function Rank(p: Worker): nat {
    match p
    case Exited => 0
    case Chosen => 1
    case Holding => 2
    case Ready => 3
    case Running(_) => 4
    case Asleep => 4
    case Committed => 5
  }

  function Ranks(workers: seq<Worker>): nat {
    if workers == [] then 0 else Rank(workers[0]) + Ranks(workers[1..])
  }

  lemma {:induction false} RanksUpdate(workers: seq<Worker>, w: nat, p: Worker)
    requires w < |workers|
    ensures Ranks(workers[w := p]) == Ranks(workers) - Rank(workers[w]) + Rank(p)
  {
    if w == 0 {
      assert workers[w := p][1..] == workers[1..];
    } else {
      assert workers[w := p][1..] == workers[1..][w - 1 := p];
      RanksUpdate(workers[1..], w - 1, p);
    }
  }

  function StepOf(p: Worker, w: nat): Action {
    match p
    case Ready => Acquire(w)
    case Holding => Test(w)
    case Committed => Sleep(w)
    case Asleep => SpuriousWake(w)
    case Running(_) => Finish(w)
    case _ => Proceed(w)
  }

  /** What the callers see of a pool. */
  ghost predicate SameOutside(s: Pool, t: Pool) {
    && t.callers == s.callers && t.hand == s.hand && t.stop == s.stop && t.maxTasks == s.maxTasks
    && |t.workers| == |s.workers|
  }

  ghost predicate AllExited(s: Pool) {
    forall w :: 0 <= w < |s.workers| ==> s.workers[w] == Exited
  }

  /** A task that no worker is left to take. */
  ghost predicate Stranded(s: Pool) {
    s.tasks != [] && AllExited(s)
  }

  /** Steps that the condition variable has no part in: of the workers, and of the caller `c`. */
  predicate Unaided(a: Action, c: nat) {
    if ByWorker(a) then !a.SpuriousWake? else a.c == c
  }

  predicate AllUnaided(actions: seq<Action>, c: nat) {
    forall a :: a in actions ==> Unaided(a, c)
  }

  lemma UnaidedCons(a: Action, rest: seq<Action>, c: nat)
    requires Unaided(a, c) && AllUnaided(rest, c)
    ensures AllUnaided([a] + rest, c)
  {
  }

  lemma WorkerAdvances(s: Pool, w: nat)
    requires Lock(s) && s.stop && w < |s.workers| && s.workers[w] != Exited
    requires s.lock == None || s.lock == Some(w)
    ensures Next(s, StepOf(s.workers[w], w)).Some?
    ensures var t := Next(s, StepOf(s.workers[w], w)).value;
            && 8 * |t.tasks| + Ranks(t.workers) < 8 * |s.tasks| + Ranks(s.workers)
            && SameOutside(s, t) && !Stranded(t)
  {
    var t := Next(s, StepOf(s.workers[w], w)).value;
    RanksUpdate(s.workers, w, t.workers[w]);
    assert t.workers[w] == Exited ==> t.tasks == [];
  }

  /** Once stopFlag is set the workers can always run on until all have exited; if none sleeps or is about to, they need
      no wake-up for it. */
  lemma {:induction false} WorkersCanLeave(s: Pool, c: nat) returns (actions: seq<Action>)
    requires Inv(s) && s.stop
    ensures Exec(Next, s, actions).Some? && (AwakeForGood(s) ==> AllUnaided(actions, c))
    ensures var t := Exec(Next, s, actions).value;
            && AllExited(t) && SameOutside(s, t) && (Stranded(s) || t.tasks == []) && t.lock == None && Inv(t)
    decreases 8 * |s.tasks| + Ranks(s.workers)
  {
    if AllExited(s) {
      return [];
    }
    var w :| 0 <= w < |s.workers| && s.workers[w] != Exited;
    w := if s.lock.Some? then s.lock.value else w;
    WorkerAdvances(s, w);
    var a := StepOf(s.workers[w], w);
    InvKept(s, a);
    var rest := WorkersCanLeave(Next(s, a).value, c);
    if AwakeForGood(s) {
      AwakeForGoodKept(s, a);
      UnaidedCons(a, rest, c);
    }
    ExecCons(Next, s, a, rest);
    actions := [a] + rest;
  }

  /** The labels of a StopAll that has `n` workers left to join. */
  function JoinRest(c: nat, n: nat): seq<Action> {
    if n == 0 then [Return(c)] else [JoinNext(c)] + JoinRest(c, n - 1)
  }

  lemma {:induction false} JoinRestUnaided(c: nat, n: nat)
    ensures AllUnaided(JoinRest(c, n), c)
  {
    if n == 0 {
    } else {
      JoinRestUnaided(c, n - 1);
      UnaidedCons(JoinNext(c), JoinRest(c, n - 1), c);
    }
  }

  /** At the head of the join loop, all workers having exited. */
  ghost predicate AtJoin(s: Pool, c: nat, joined: nat, bound: nat) {
    && AllExited(s) && |s.hand| == |s.callers| && c < |s.callers|
    && s.callers[c] == Joining(joined, bound) && joined <= bound <= |s.workers|
  }

  lemma JoinOne(s: Pool, c: nat, joined: nat, bound: nat) returns (t: Pool)
    requires AtJoin(s, c, joined, bound) && joined < bound
    ensures Next(s, JoinNext(c)) == Some(t) && AtJoin(t, c, joined + 1, bound)
    ensures t.(callers := t.callers[c := Returned(bound)]) == s.(callers := s.callers[c := Returned(bound)])
  {
    t := s.(callers := s.callers[c := Joining(joined + 1, bound)]);
    assert t.callers[c := Returned(bound)] == s.callers[c := Returned(bound)];
  }

  lemma JoinNone(s: Pool, c: nat, bound: nat)
    requires AtJoin(s, c, bound, bound)
    ensures Next(s, Return(c)) == Some(s.(callers := s.callers[c := Returned(bound)]))
  {
  }

  /** A StopAll whose workers have all exited joins them one by one. */
  lemma {:induction false} CanJoin(s: Pool, c: nat, joined: nat, bound: nat)
    requires AtJoin(s, c, joined, bound)
    ensures Exec(Next, s, JoinRest(c, bound - joined)) == Some(s.(callers := s.callers[c := Returned(bound)]))
    decreases bound - joined
  {
    if joined == bound {
      JoinNone(s, c, bound);
      ExecOne(Next, s, Return(c));
    } else {
      var t := JoinOne(s, c, joined, bound);
      CanJoin(t, c, joined + 1, bound);
      assert JoinRest(c, bound - joined) == [JoinNext(c)] + JoinRest(c, bound - joined - 1);
      ExecCons(Next, s, JoinNext(c), JoinRest(c, bound - joined - 1));
    }
  }

  lemma JoinBegins(s: Pool, c: nat) returns (t: Pool)
    requires AllExited(s) && |s.hand| == |s.callers| && c < |s.callers| && s.callers[c] == Notified
    ensures Next(s, BeginJoin(c)) == Some(t) && AtJoin(t, c, 0, |s.workers|)
    ensures t.(callers := t.callers[c := Returned(|s.workers|)]) == s.(callers := s.callers[c := Returned(|s.workers|)])
  {
    var n := |s.workers|;
    t := Next(s, BeginJoin(c)).value;
    assert t.callers[c := Returned(n)] == s.callers[c := Returned(n)];
  }

  lemma CanJoinAll(s: Pool, c: nat) returns (actions: seq<Action>)
    requires AllExited(s) && |s.hand| == |s.callers| && c < |s.callers| && s.callers[c] == Notified
    ensures AllUnaided(actions, c)
    ensures Exec(Next, s, actions) == Some(s.(callers := s.callers[c := Returned(|s.workers|)]))
  {
    var n := |s.workers|;
    var t := JoinBegins(s, c);
    CanJoin(t, c, 0, n);
    JoinRestUnaided(c, n);
    ExecCons(Next, s, BeginJoin(c), JoinRest(c, n));
    UnaidedCons(BeginJoin(c), JoinRest(c, n), c);
    actions := [BeginJoin(c)] + JoinRest(c, n);
  }

  /** A StopAll that has notified the workers can return before any other caller moves; it leaves an empty queue unless
      a task was stranded already. It may need spurious wake-ups, but not if no worker sleeps or is about to. */
  lemma ReturnRun(s: Pool, c: nat) returns (actions: seq<Action>)
    requires Inv(s) && s.stop && c < |s.callers| && s.callers[c] == Notified
    ensures Exec(Next, s, actions).Some? && (AwakeForGood(s) ==> AllUnaided(actions, c))
    ensures var t := Exec(Next, s, actions).value;
            && t.callers == s.callers[c := Returned(|s.workers|)] && t.hand == s.hand && t.maxTasks == s.maxTasks
            && (Stranded(s) || t.tasks == []) && t.lock == None
  {
    var leave := WorkersCanLeave(s, c);
    var join := CanJoinAll(Exec(Next, s, leave).value, c);
    ExecAppend(Next, s, leave, join);
    actions := leave + join;
  }

  /** From every reachable state in which StopAll has notified the workers, it can return, if need be with the help of
      spurious wake-ups; and it leaves an empty queue unless a task was stranded already. */
  lemma StopAllCanReturn(s: Pool, c: nat) returns (actions: seq<Action>)
    requires Reachable(s) && c < |s.callers| && s.callers[c] == Notified
    ensures Exec(Next, s, actions).Some?
    ensures var t := Exec(Next, s, actions).value;
            |t.callers| == |s.callers| && t.callers[c].Returned? && (Stranded(s) || t.tasks == [])
  {
    ReachableInv(s);
    assert Stopping(s.callers[c]);
    actions := ReturnRun(s, c);
  }

  /** Worker `w` sleeps or is about to, and StopAll has not got past it. */
  ghost predicate WaitsFor(s: Pool, c: nat, w: nat) {
    && w < |s.workers| && (s.workers[w] == Asleep || s.workers[w] == Committed)
    && c < |s.callers|
    && (s.callers[c] == Notified
        || (s.callers[c].Joining? && s.callers[c].joined <= w < s.callers[c].bound))
  }

  lemma WaitsForKept(s: Pool, c: nat, w: nat, a: Action)
    requires WaitsFor(s, c, w) && Unaided(a, c) && Next(s, a).Some?
    ensures WaitsFor(Next(s, a).value, c, w)
  {
  }

  lemma {:induction false} WaitsForEver(s: Pool, c: nat, w: nat, actions: seq<Action>)
    requires WaitsFor(s, c, w) && AllUnaided(actions, c) && Exec(Next, s, actions).Some?
    ensures WaitsFor(Exec(Next, s, actions).value, c, w)
    decreases |actions|
  {
    if actions == [] {
    } else {
      assert actions[0] in actions && forall a :: a in actions[1..] ==> a in actions;
      WaitsForKept(s, c, w, actions[0]);
      WaitsForEver(Next(s, actions[0]).value, c, w, actions[1..]);
    }
  }

  ghost predicate Returns(s: Pool, c: nat, actions: seq<Action>) {
    var r := Exec(Next, s, actions); r.Some? && c < |r.value.callers| && r.value.callers[c].Returned?
  }

  /** StopAll hangs on a worker it did not reach: after its notify_all, and without any further notification or spurious
      wake-up, it can return exactly if no worker sleeps or is about to. */
  lemma ReturnsUnaidedIff(s: Pool, c: nat)
    requires Reachable(s) && c < |s.callers| && s.callers[c] == Notified
    ensures (exists actions :: AllUnaided(actions, c) && Returns(s, c, actions))
            <==> Asleep !in s.workers && Committed !in s.workers
  {
    ReachableInv(s);
    assert Stopping(s.callers[c]);
    if w :| 0 <= w < |s.workers| && (s.workers[w] == Asleep || s.workers[w] == Committed) {
      forall actions | AllUnaided(actions, c) ensures !Returns(s, c, actions) {
        if Exec(Next, s, actions).Some? {
          WaitsForEver(s, c, w, actions);
        }
      }
    } else {
      var actions := ReturnRun(s, c);
      assert Returns(s, c, actions);
    }
  }

  ghost predicate AllReady(s: Pool) {
    forall w :: 0 <= w < |s.workers| ==> s.workers[w] == Ready
  }

  /** An Enqueue that is past its stop check can still push, whatever stopFlag says by now. */
  lemma {:induction false} EnqueueCanPush(s: Pool, d: nat) returns (actions: seq<Action>)
    requires s.lock == None && |s.hand| == |s.callers| && d < |s.callers| && Pending(s.callers[d])
    requires s.callers[d] == PassedStop ==> |s.tasks| < s.maxTasks
    ensures Exec(Next, s, actions).Some?
    ensures var t := Exec(Next, s, actions).value;
            && t.callers == s.callers[d := OwesOne] && t.hand == s.hand && t.tasks == s.tasks + [s.hand[d]]
            && t.lock == None && t.stop == s.stop && t.maxTasks == s.maxTasks
            && (AllReady(s) ==> AllReady(t))
    decreases if s.callers[d] == PassedStop then 2 else if s.callers[d] == PassedCount then 1 else 0
  {
    if s.callers[d] == HasWorker {
      ExecOne(Next, s, PushTask(d));
      return [PushTask(d)];
    }
    var a := if s.callers[d] == PassedStop then CheckCount(d) else CreateWorker(d);
    var t := Next(s, a).value;
    assert t.callers[d := OwesOne] == s.callers[d := OwesOne];
    var rest := EnqueueCanPush(t, d);
    ExecCons(Next, s, a, rest);
    actions := [a] + rest;
  }

  lemma InFlightCounts(callers: seq<Caller>)
    ensures InFlight(callers) > 0 <==> exists d :: 0 <= d < |callers| && Pending(callers[d])
  {
    CountPositive(callers, PassedStop);
    CountPositive(callers, PassedCount);
    CountPositive(callers, HasWorker);
    if d :| 0 <= d < |callers| && Pending(callers[d]) {
      CountAt(callers, d);
    }
  }

  /** An Enqueue on its way when stopFlag is stored can leave its task in the queue after StopAll returned. */
  lemma TaskCanBeLost(s: Pool, c: nat, d: nat) returns (actions: seq<Action>)
    requires Inv(s) && !s.stop && Next(s, StoreStop(c)).Some?
    requires s.maxTasks > 0 && d < |s.callers| && Pending(s.callers[d])
    ensures var r := Exec(Next, Next(s, StoreStop(c)).value, actions);
            r.Some? && |r.value.callers| == |s.callers| && r.value.callers[c].Returned? && r.value.tasks != []
  {
    var stored := Next(s, StoreStop(c)).value;
    InvKept(s, StoreStop(c));
    assert Exited !in stored.workers;
    var late := PushAfterReturn(stored, c, d);
    actions := [NotifyAll(c)] + late;
  }

  /** StopAll notifies, its workers leave, it returns, and then the Enqueue `d` pushes. */
  lemma PushAfterReturn(stored: Pool, c: nat, d: nat) returns (late: seq<Action>)
    requires Inv(stored) && stored.stop && Exited !in stored.workers && Next(stored, NotifyAll(c)).Some?
    requires stored.maxTasks > 0 && d < |stored.callers| && Pending(stored.callers[d])
    ensures var r := Exec(Next, stored, [NotifyAll(c)] + late);
            r.Some? && |r.value.callers| == |stored.callers| && r.value.callers[c].Returned? && r.value.tasks != []
  {
    var notified := Next(stored, NotifyAll(c)).value;
    InvKept(stored, NotifyAll(c));
    NotStranded(stored, c);
    var finish := ReturnRun(notified, c);
    var returned := Exec(Next, notified, finish).value;
    var push := EnqueueCanPush(returned, d);
    ExecAppend(Next, notified, finish, push);
    ExecCons(Next, stored, NotifyAll(c), finish + push);
    late := finish + push;
  }

  lemma NotStranded(s: Pool, c: nat)
    requires Workers(s) && Queue(s) && Exited !in s.workers && Next(s, NotifyAll(c)).Some?
    ensures !Stranded(Next(s, NotifyAll(c)).value)
  {
    if s.workers != [] {
      assert s.workers[0] in s.workers;
      assert Next(s, NotifyAll(c)).value.workers[0] != Exited;
    }
  }

  ghost predicate NothingUnderWay(s: Pool) {
    Inv(s) && (s.maxTasks == 0 || (s.stop && s.late == 0))
  }

  lemma NothingUnderWayKept(s: Pool, a: Action)
    requires NothingUnderWay(s) && Next(s, a).Some?
    ensures NothingUnderWay(Next(s, a).value)
  {
    InvKept(s, a);
  }

  lemma NothingLost(s: Pool, c: nat, actions: seq<Action>)
    requires NothingUnderWay(s)
    ensures var r := Exec(Next, s, actions);
            r.Some? && c < |r.value.callers| && r.value.callers[c].Returned? ==> r.value.tasks == []
  {
    forall t, a | NothingUnderWay(t) && Next(t, a).Some? ensures NothingUnderWay(Next(t, a).value) {
      NothingUnderWayKept(t, a);
    }
    InvariantHolds(Next, t => NothingUnderWay(t), s, actions);
    var r := Exec(Next, s, actions);
    if r.Some? && c < |r.value.callers| && r.value.callers[c].Returned? {
      assert JoinedTo(r.value, r.value.callers[c].bound, r.value.callers[c].bound);
    }
  }

  /** StopAll never returns with a task left in the queue, however the run goes on, exactly when no Enqueue was between
      its stop check and its push when stopFlag was stored (or the pool takes no tasks at all). */
  lemma StopAllDrainsIff(s: Pool, c: nat)
    requires Reachable(s) && !s.stop && Next(s, StoreStop(c)).Some?
    ensures
      (forall actions ::
         var r := Exec(Next, Next(s, StoreStop(c)).value, actions);
         r.Some? && c < |r.value.callers| && r.value.callers[c].Returned? ==> r.value.tasks == [])
      <==> s.maxTasks == 0 || InFlight(s.callers) == 0
  {
    ReachableInv(s);
    InFlightCounts(s.callers);
    if s.maxTasks == 0 || InFlight(s.callers) == 0 {
      InvKept(s, StoreStop(c));
      forall actions { NothingLost(Next(s, StoreStop(c)).value, c, actions); }
    } else {
      var d :| 0 <= d < |s.callers| && Pending(s.callers[d]);
      var actions := TaskCanBeLost(s, c, d);
    }
  }

  /** It happens: one thread is past its stop check, another is about to store stopFlag. */
  lemma DrainCanFail(s0: Pool) returns (s: Pool)
    requires Start(s0) && |s0.callers| >= 2 && s0.maxTasks >= 1
    ensures Reachable(s) && !s.stop && Next(s, StoreStop(1)).Some? && s.maxTasks > 0 && InFlight(s.callers) > 0
  {
    StartReachable(s0);
    s := PassStop(s0, 0);
    s := Mark(s, 1);
    assert s.callers[0] == PassedStop;
    CountAt(s.callers, 0);
  }
}
