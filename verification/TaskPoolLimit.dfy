/** The soft queue limit of the task pool is attained for every number of calling threads. */
module TaskPoolLimit {
  import opened Runs
  import opened TaskPool
  import opened TaskPoolShutdown

  /** Nothing runs and nothing is locked: only callers move. */
  ghost predicate Calm(s: Pool) {
    s.lock == None && !s.stop && |s.hand| == |s.callers| && AllReady(s)
  }

  lemma NobodyToWake(s: Pool, c: nat)
    requires Calm(s) && c < |s.callers| && s.callers[c] == OwesOne
    ensures Next(s, NotifyOne(c, None)) == Some(s.(callers := s.callers[c := Idle]))
  {
  }

  /** One Enqueue from its call to its return. */
  lemma EnqueueWhole(s: Pool, c: nat) returns (actions: seq<Action>)
    requires Calm(s) && c < |s.callers| && s.callers[c] == Idle && |s.tasks| < s.maxTasks
    ensures Exec(Next, s, actions).Some?
    ensures var t := Exec(Next, s, actions).value;
            Calm(t) && t.callers == s.callers && t.maxTasks == s.maxTasks && |t.tasks| == |s.tasks| + 1
  {
    var checked := Next(s, CheckStop(c, 0)).value;
    var push := EnqueueCanPush(checked, c);
    var pushed := Exec(Next, checked, push).value;
    var notify := NotifyOne(c, None);
    NobodyToWake(pushed, c);
    ExecOne(Next, pushed, notify);
    ExecAppend(Next, checked, push, [notify]);
    ExecCons(Next, s, CheckStop(c, 0), push + [notify]);
    assert checked.callers[c := OwesOne][c := Idle] == s.callers;
    actions := [CheckStop(c, 0)] + (push + [notify]);
  }

  lemma {:induction false} Fill(s: Pool, n: nat) returns (actions: seq<Action>)
    requires Calm(s) && |s.callers| > 0 && s.callers[0] == Idle && |s.tasks| + n <= s.maxTasks
    ensures Exec(Next, s, actions).Some?
    ensures var t := Exec(Next, s, actions).value;
            Calm(t) && t.callers == s.callers && t.maxTasks == s.maxTasks && |t.tasks| == |s.tasks| + n
    decreases n
  {
    if n == 0 {
      return [];
    }
    var once := EnqueueWhole(s, 0);
    var rest := Fill(Exec(Next, s, once).value, n - 1);
    ExecAppend(Next, s, once, rest);
    actions := once + rest;
  }

  /** The callers from `c` on all find room for one more task. */
  lemma {:induction false} AllPassCount(s: Pool, c: nat) returns (actions: seq<Action>)
    requires Calm(s) && c <= |s.callers| && |s.tasks| < s.maxTasks
    requires forall d :: 0 <= d < |s.callers| ==> s.callers[d] == if d < c then PassedCount else Idle
    ensures Exec(Next, s, actions).Some?
    ensures var t := Exec(Next, s, actions).value;
            && Calm(t) && |t.callers| == |s.callers| && t.maxTasks == s.maxTasks && t.tasks == s.tasks
            && forall d :: 0 <= d < |t.callers| ==> t.callers[d] == PassedCount
    decreases |s.callers| - c
  {
    if c == |s.callers| {
      return [];
    }
    var t := Next(s, CheckStop(c, 0)).value;
    var u := Next(t, CheckCount(c)).value;
    var rest := AllPassCount(u, c + 1);
    ExecCons(Next, t, CheckCount(c), rest);
    ExecCons(Next, s, CheckStop(c, 0), [CheckCount(c)] + rest);
    actions := [CheckStop(c, 0)] + ([CheckCount(c)] + rest);
  }

  /** And then they all push. */
  lemma {:induction false} AllPush(s: Pool, c: nat) returns (actions: seq<Action>)
    requires Calm(s) && c <= |s.callers|
    requires forall d :: c <= d < |s.callers| ==> s.callers[d] == PassedCount
    ensures Exec(Next, s, actions).Some?
    ensures |Exec(Next, s, actions).value.tasks| == |s.tasks| + |s.callers| - c
    decreases |s.callers| - c
  {
    if c == |s.callers| {
      return [];
    }
    var push := EnqueueCanPush(s, c);
    var rest := AllPush(Exec(Next, s, push).value, c + 1);
    ExecAppend(Next, s, push, rest);
    actions := push + rest;
  }

  /** For every pool that takes tasks and every number of calling threads, some run fills the queue to the bound. */
  lemma QueueLimitIsReached(s0: Pool) returns (s: Pool)
    requires Start(s0) && s0.maxTasks >= 1 && |s0.callers| >= 1
    ensures Reachable(s) && |s.tasks| == s0.maxTasks - 1 + |s0.callers|
  {
    var fill := Fill(s0, s0.maxTasks - 1);
    var full := Exec(Next, s0, fill).value;
    var pass := AllPassCount(full, 0);
    var passed := Exec(Next, full, pass).value;
    var push := AllPush(passed, 0);
    ExecAppend(Next, full, pass, push);
    ExecAppend(Next, s0, fill, pass + push);
    s := Exec(Next, passed, push).value;
    assert Exec(Next, s0, fill + (pass + push)) == Some(s);
  }
}
