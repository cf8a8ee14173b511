/** What a run of the task pool did, read off its labels. */
module TaskPoolHistory {
  import opened Counting
  import opened Runs
  import opened TaskPool

  /** The calls of CreateWorker. */
  function Creations(actions: seq<Action>): nat {
    if actions == [] then 0 else (if actions[0].CreateWorker? then 1 else 0) + Creations(actions[1..])
  }

  lemma StepCreates(s: Pool, a: Action)
    requires Next(s, a).Some?
    ensures var t := Next(s, a).value;
            && t.maxWorkers == s.maxWorkers
            && |t.workers| == |s.workers| + if a.CreateWorker? && |s.workers| < s.maxWorkers then 1 else 0
  {
  }

  /** Every CreateWorker starts a worker until there are as many as the limit allows. */
  lemma {:induction false} WorkersAreCreated(s: Pool, actions: seq<Action>)
    requires |s.workers| <= s.maxWorkers && Exec(Next, s, actions).Some?
    ensures var n := |s.workers| + Creations(actions);
            |Exec(Next, s, actions).value.workers| == if n <= s.maxWorkers then n else s.maxWorkers
    decreases |actions|
  {
    if actions == [] {
    } else {
      StepCreates(s, actions[0]);
      WorkersAreCreated(Next(s, actions[0]).value, actions[1..]);
    }
  }

  /** The arguments of the Enqueue calls that got to their push, in the order of the pushes. `args` are those of the
      calls under way. */
  function Pushes(actions: seq<Action>, args: seq<Task>): seq<Task> {
    if actions == [] then []
    else
      match actions[0]
      case CheckStop(c, x) => Pushes(actions[1..], if c < |args| then args[c := x] else args)
      case PushTask(c) => (if c < |args| then [args[c]] else []) + Pushes(actions[1..], args)
      case _ => Pushes(actions[1..], args)
  }

  /** What a caller under way has in hand is the argument of its call. */
  ghost predicate Carries(s: Pool, args: seq<Task>) {
    |args| == |s.hand| == |s.callers| && forall c :: 0 <= c < |args| && Pending(s.callers[c]) ==> s.hand[c] == args[c]
  }

  function ArgsAfter(a: Action, args: seq<Task>): seq<Task> {
    if a.CheckStop? && a.c < |args| then args[a.c := a.x] else args
  }

  lemma WorkerStepCarries(s: Pool, a: Action, args: seq<Task>)
    requires Carries(s, args) && ByWorker(a) && Next(s, a).Some?
    ensures Carries(Next(s, a).value, args) && Next(s, a).value.accepted == s.accepted
  {
  }

  lemma CheckCarries(s: Pool, c: nat, x: Task, args: seq<Task>)
    requires Carries(s, args) && Next(s, CheckStop(c, x)).Some?
    ensures Carries(Next(s, CheckStop(c, x)).value, args[c := x])
  {
  }

  lemma CallerStepCarries(s: Pool, a: Action, args: seq<Task>)
    requires Carries(s, args) && !ByWorker(a) && !a.CheckStop? && Next(s, a).Some?
    ensures Carries(Next(s, a).value, args)
  {
    assert Next(s, a).value.hand == s.hand;
  }

  lemma StepCarries(s: Pool, a: Action, args: seq<Task>)
    requires Carries(s, args) && Next(s, a).Some?
    ensures Carries(Next(s, a).value, ArgsAfter(a, args))
    ensures Next(s, a).value.accepted == s.accepted + if a.PushTask? then [args[a.c]] else []
  {
    if ByWorker(a) {
      WorkerStepCarries(s, a, args);
    } else if a.CheckStop? {
      CheckCarries(s, a.c, a.x, args);
    } else {
      CallerStepCarries(s, a, args);
    }
  }

  lemma {:induction false} PushesAreAccepted(s: Pool, actions: seq<Action>, args: seq<Task>)
    requires Carries(s, args) && Exec(Next, s, actions).Some?
    ensures Exec(Next, s, actions).value.accepted == s.accepted + Pushes(actions, args)
    decreases |actions|
  {
    if actions == [] {
      assert s.accepted + [] == s.accepted;
    } else {
      var a, rest := actions[0], actions[1..];
      StepCarries(s, a, args);
      PushesAreAccepted(Next(s, a).value, rest, ArgsAfter(a, args));
      ConcatAssociates(s.accepted, if a.PushTask? then [args[a.c]] else [], Pushes(rest, ArgsAfter(a, args)));
      assert [] + Pushes(rest, ArgsAfter(a, args)) == Pushes(rest, ArgsAfter(a, args));
    }
  }

  predicate Stores(actions: seq<Action>) {
    exists i :: 0 <= i < |actions| && actions[i].StoreStop?
  }

  lemma StoresCons(actions: seq<Action>)
    requires actions != []
    ensures Stores(actions) <==> actions[0].StoreStop? || Stores(actions[1..])
  {
    if i :| 0 <= i < |actions[1..]| && actions[1..][i].StoreStop? {
      assert actions[i + 1].StoreStop?;
    }
    if i :| 0 <= i < |actions| && actions[i].StoreStop? {
      assert i == 0 || actions[1..][i - 1].StoreStop?;
    }
  }

  lemma StepStops(s: Pool, a: Action)
    requires Next(s, a).Some?
    ensures Next(s, a).value.stop <==> s.stop || a.StoreStop?
  {
  }

  /** The pool stops exactly if a StopAll has stored stopFlag. */
  lemma {:induction false} StopIffStored(s: Pool, actions: seq<Action>)
    requires Exec(Next, s, actions).Some?
    ensures Exec(Next, s, actions).value.stop <==> s.stop || Stores(actions)
    decreases |actions|
  {
    if actions == [] {
    } else {
      StepStops(s, actions[0]);
      StopIffStored(Next(s, actions[0]).value, actions[1..]);
      StoresCons(actions);
    }
  }

  /** From any start state: the accepted tasks are the arguments of the Enqueue calls that pushed, in order, and the
      workers are as many as CreateWorker was called, up to the limit. */
  lemma RunIsWhatCallsSay(s0: Pool, actions: seq<Action>)
    requires Start(s0) && Exec(Next, s0, actions).Some?
    ensures var s := Exec(Next, s0, actions).value;
            && s.accepted == Pushes(actions, s0.hand)
            && |s.workers| == (if Creations(actions) <= s0.maxWorkers then Creations(actions) else s0.maxWorkers)
            && (s.stop <==> Stores(actions))
  {
    PushesAreAccepted(s0, actions, s0.hand);
    WorkersAreCreated(s0, actions);
    StopIffStored(s0, actions);
    assert [] + Pushes(actions, s0.hand) == Pushes(actions, s0.hand);
  }

  lemma {:induction false} StopStays(s: Pool, actions: seq<Action>)
    requires s.stop && Exec(Next, s, actions).Some?
    ensures var t := Exec(Next, s, actions).value; t.late == s.late && t.acceptedAtStop == s.acceptedAtStop
    decreases |actions|
  {
    if actions == [] {
    } else {
      StopStays(Next(s, actions[0]).value, actions[1..]);
    }
  }

  /** `late` and `acceptedAtStop` are for ever what they were when stopFlag was first stored: the Enqueue calls between
      their stop check and their push, and the tasks accepted by then. */
  lemma StopIsRemembered(s0: Pool, before: seq<Action>, c: nat, after: seq<Action>)
    requires Start(s0) && Exec(Next, s0, before).Some? && !Exec(Next, s0, before).value.stop
    requires Next(Exec(Next, s0, before).value, StoreStop(c)).Some?
    requires Exec(Next, Next(Exec(Next, s0, before).value, StoreStop(c)).value, after).Some?
    ensures var s := Exec(Next, s0, before).value;
            var t := Exec(Next, Next(s, StoreStop(c)).value, after).value;
            && t.late == Count(s.callers, PassedStop) + Count(s.callers, PassedCount) + Count(s.callers, HasWorker)
            && t.acceptedAtStop == |Pushes(before, s0.hand)|
  {
    var s := Exec(Next, s0, before).value;
    RunIsWhatCallsSay(s0, before);
    StopStays(Next(s, StoreStop(c)).value, after);
  }
}
