/** Runs of the task pool as seen from one of its threads: which labels are its own, what the others can change, and
    what nobody takes back.
 */
module TaskPoolThreads {
  import opened Runs
  import opened TaskPool

  // ---------- whose labels ----------

  datatype Who = CallerThread(c: nat) | WorkerThread(w: nat)

  /** A spurious wake-up is not an action of the worker it wakes. */
  predicate By(a: Action, who: Who) {
    match who
    case CallerThread(c) => !ByWorker(a) && a.c == c
    case WorkerThread(w) => ByWorker(a) && !a.SpuriousWake? && a.w == w
  }

  function OwnPart(a: Action, who: Who): seq<Action> {
    if By(a, who) then [a] else []
  }

  /** The labels of one thread, in order. */
  function Own(labels: seq<Action>, who: Who): seq<Action> {
    if labels == [] then [] else OwnPart(labels[0], who) + Own(labels[1..], who)
  }

  lemma {:induction false} OwnAppend(before: seq<Action>, after: seq<Action>, who: Who)
    ensures Own(before + after, who) == Own(before, who) + Own(after, who)
  {
    if before == [] {
      assert before + after == after;
    } else {
      assert (before + after)[1..] == before[1..] + after;
      OwnAppend(before[1..], after, who);
      ConcatAssociates(OwnPart(before[0], who), Own(before[1..], who), Own(after, who));
    }
  }

  /** `labels` lead from `s` to `t`, and `own` are those of `who`. */
  ghost predicate Ran(s: Pool, labels: seq<Action>, t: Pool, who: Who, own: seq<Action>) {
    Exec(Next, s, labels) == Some(t) && Own(labels, who) == own
  }

  lemma RanThen(s: Pool, labels: seq<Action>, t: Pool, own: seq<Action>,
                labels': seq<Action>, u: Pool, own': seq<Action>, who: Who)
    requires Ran(s, labels, t, who, own) && Ran(t, labels', u, who, own')
    ensures Ran(s, labels + labels', u, who, own + own')
  {
    ExecAppend(Next, s, labels, labels');
    OwnAppend(labels, labels', who);
  }

  lemma RanStep(s: Pool, labels: seq<Action>, t: Pool, who: Who, a: Action)
    requires Ran(s, labels, t, who, []) && By(a, who) && Next(t, a).Some?
    ensures Ran(s, labels + [a], Next(t, a).value, who, [a])
  {
    ExecOne(Next, t, a);
    assert Own([a], who) == [a] by {
      assert [a][1..] == [];
    }
    RanThen(s, labels, t, [], [a], Next(t, a).value, [a], who);
  }

  /** How often a worker fell asleep, ended a critical section, and ended the execution of a task. */
  datatype Tally = Tally(sleeps: nat, sections: nat, ends: nat)

  function Plus(m: Tally, n: Tally): Tally {
    Tally(m.sleeps + n.sleeps, m.sections + n.sections, m.ends + n.ends)
  }

  predicate AddsUp(m: Tally, n: Tally, sum: Tally) {
    && m.sleeps + n.sleeps == sum.sleeps && m.sections + n.sections == sum.sections
    && m.ends + n.ends == sum.ends
  }

  function StepTally(a: Action, w: nat): Tally {
    match a
    case Sleep(v) => if v == w then Tally(1, 0, 0) else Tally(0, 0, 0)
    case Proceed(v) => if v == w then Tally(0, 1, 0) else Tally(0, 0, 0)
    case Finish(v) => if v == w then Tally(0, 0, 1) else Tally(0, 0, 0)
    case _ => Tally(0, 0, 0)
  }

  function Tallied(labels: seq<Action>, w: nat): Tally {
    if labels == [] then Tally(0, 0, 0) else Plus(StepTally(labels[0], w), Tallied(labels[1..], w))
  }

  lemma {:induction false} TalliedAppend(before: seq<Action>, after: seq<Action>, w: nat)
    ensures Tallied(before + after, w) == Plus(Tallied(before, w), Tallied(after, w))
  {
    if before == [] {
      assert before + after == after;
    } else {
      var all := before + after;
      assert all[0] == before[0] && all[1..] == before[1..] + after;
      TalliedAppend(before[1..], after, w);
      var first, rest, last := StepTally(before[0], w), Tallied(before[1..], w), Tallied(after, w);
      assert Tallied(all, w) == Plus(first, Tallied(all[1..], w));
      assert Tallied(before, w) == Plus(first, rest);
      assert Plus(first, Plus(rest, last)) == Plus(Plus(first, rest), last);
    }
  }

  lemma TalliedOne(a: Action, w: nat)
    ensures Tallied([a], w) == StepTally(a, w)
  {
    assert Tallied([a][1..], w) == Tally(0, 0, 0);
  }

  lemma ForeignTally(a: Action, w: nat)
    requires !By(a, WorkerThread(w))
    ensures StepTally(a, w) == Tally(0, 0, 0)
  {
  }

  lemma {:induction false} OwnTallied(labels: seq<Action>, w: nat)
    ensures Tallied(labels, w) == Tallied(Own(labels, WorkerThread(w)), w)
  {
    if labels == [] {
    } else {
      var part, rest := OwnPart(labels[0], WorkerThread(w)), Own(labels[1..], WorkerThread(w));
      OwnTallied(labels[1..], w);
      TalliedAppend(part, rest, w);
      TalliedOne(labels[0], w);
      if By(labels[0], WorkerThread(w)) {
        assert part == [labels[0]];
      } else {
        ForeignTally(labels[0], w);
        assert part == [] && Tallied(part, w) == Tally(0, 0, 0);
      }
      assert Own(labels, WorkerThread(w)) == part + rest;
    }
  }

  /** `labels` lead from `s` to `t`, and in them worker `w` does what `n` says. */
  ghost predicate Did(s: Pool, labels: seq<Action>, t: Pool, w: nat, n: Tally) {
    Exec(Next, s, labels) == Some(t) && Tallied(labels, w) == n
  }

  lemma DidThen(s: Pool, labels: seq<Action>, t: Pool, n: Tally, labels': seq<Action>, u: Pool, n': Tally, w: nat,
                sum: Tally)
    requires Did(s, labels, t, w, n) && Did(t, labels', u, w, n') && AddsUp(n, n', sum)
    ensures Did(s, labels + labels', u, w, sum)
  {
    ExecAppend(Next, s, labels, labels');
    TalliedAppend(labels, labels', w);
  }

  lemma RanDidNothing(s: Pool, labels: seq<Action>, t: Pool, w: nat)
    requires Ran(s, labels, t, WorkerThread(w), [])
    ensures Did(s, labels, t, w, Tally(0, 0, 0))
  {
    OwnTallied(labels, w);
  }

  lemma RanDidOne(s: Pool, labels: seq<Action>, t: Pool, w: nat, a: Action, n: Tally)
    requires Ran(s, labels, t, WorkerThread(w), [a]) && n == StepTally(a, w)
    ensures Did(s, labels, t, w, n)
  {
    OwnTallied(labels, w);
    TalliedOne(a, w);
  }

  // ---------- what steps change ----------

  /** What no step takes back. */
  ghost predicate Grows(s: Pool, t: Pool) {
    && |t.callers| == |s.callers| && |t.hand| == |s.hand| && t.maxTasks == s.maxTasks && t.maxWorkers == s.maxWorkers
    && (s.stop ==> t.stop) && s.accepted <= t.accepted && s.taken <= t.taken && s.finished <= t.finished
    && |s.workers| <= |t.workers|
  }

  lemma GrowsOn(s: Pool, t: Pool, u: Pool)
    requires Grows(s, t) && Grows(t, u)
    ensures Grows(s, u)
  {
  }

  /** What no step of another thread changes; such a step can wake a sleeping worker. */
  ghost predicate Keeps(s: Pool, t: Pool, who: Who) {
    match who
    case CallerThread(c) =>
      c < |s.callers| && |s.hand| == |s.callers| ==>
        c < |t.callers| && |t.hand| == |t.callers| && t.callers[c] == s.callers[c] && t.hand[c] == s.hand[c]
    case WorkerThread(w) =>
      w < |s.workers| ==>
        && w < |t.workers|
        && (t.workers[w] == s.workers[w] || (s.workers[w] == Asleep && t.workers[w] == Ready))
  }

  lemma WorkerStepGrows(s: Pool, a: Action)
    requires ByWorker(a) && Next(s, a).Some?
    ensures Grows(s, Next(s, a).value)
  {
  }

  lemma CallerStepGrows(s: Pool, a: Action)
    requires !ByWorker(a) && Next(s, a).Some?
    ensures Grows(s, Next(s, a).value)
  {
  }

  lemma StepGrows(s: Pool, a: Action)
    requires Next(s, a).Some?
    ensures Grows(s, Next(s, a).value)
  {
    if ByWorker(a) {
      WorkerStepGrows(s, a);
    } else {
      CallerStepGrows(s, a);
    }
  }

  lemma StepKeepsCaller(s: Pool, a: Action, c: nat)
    requires Next(s, a).Some? && !By(a, CallerThread(c))
    ensures Keeps(s, Next(s, a).value, CallerThread(c))
  {
  }

  lemma StepKeepsWorker(s: Pool, a: Action, w: nat)
    requires Next(s, a).Some? && !By(a, WorkerThread(w))
    ensures Keeps(s, Next(s, a).value, WorkerThread(w))
  {
  }

  lemma StepKeeps(s: Pool, a: Action, who: Who)
    requires Next(s, a).Some? && !By(a, who)
    ensures Keeps(s, Next(s, a).value, who)
  {
    match who
    case CallerThread(c) => StepKeepsCaller(s, a, c);
    case WorkerThread(w) => StepKeepsWorker(s, a, w);
  }

  lemma {:induction false} RunGrows(s: Pool, labels: seq<Action>, t: Pool)
    requires Exec(Next, s, labels) == Some(t)
    ensures Grows(s, t)
    decreases |labels|
  {
    if labels == [] {
    } else {
      StepGrows(s, labels[0]);
      RunGrows(Next(s, labels[0]).value, labels[1..], t);
    }
  }

  lemma {:induction false} RunKeeps(s: Pool, labels: seq<Action>, t: Pool, who: Who)
    requires Ran(s, labels, t, who, [])
    ensures Keeps(s, t, who)
    decreases |labels|
  {
    if labels == [] {
    } else {
      StepKeeps(s, labels[0], who);
      RunKeeps(Next(s, labels[0]).value, labels[1..], t, who);
    }
  }

  // ---------- what a worker has executed ----------

  /** Tasks that a worker executed: accepted ones, popped from `from` on, in the order of acceptance, and their
      execution has ended. */
  ghost predicate Executed(p: Pool, executed: seq<Task>, slots: seq<nat>, from: nat) {
    && |executed| == |slots|
    && (forall i :: 0 <= i < |slots| ==>
          && from <= slots[i] < p.taken && slots[i] < |p.accepted|
          && executed[i] == p.accepted[slots[i]] && p.finished[slots[i]] > 0)
    && (forall i, j :: 0 <= i < j < |slots| ==> slots[i] < slots[j])
  }

  lemma ExecutedStays(p: Pool, p': Pool, executed: seq<Task>, slots: seq<nat>, from: nat)
    requires Executed(p, executed, slots, from) && Grows(p, p')
    ensures Executed(p', executed, slots, from)
  {
  }

  lemma ExecutedMore(p: Pool, p': Pool, executed: seq<Task>, slots: seq<nat>, from: nat, x: Task, slot: nat)
    requires Executed(p, executed, slots, from) && Grows(p, p') && from <= p.taken <= slot < p'.taken
    requires slot < |p'.accepted| && p'.accepted[slot] == x && p'.finished[slot] > 0
    ensures Executed(p', executed + [x], slots + [slot], from)
  {
  }
}
