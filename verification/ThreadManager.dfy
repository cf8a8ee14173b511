/** NESESLIB/ThreadManager.hpp: the bounded registry of threads. */
module ThreadManager {
  import opened Counting
  import opened NesesThread
  import opened Runs

  /** What is left of `ws` without `out`, and what is taken out of it, in order. */
  function Keep<T(==)>(ws: seq<T>, out: set<T>): seq<T> {
    if ws == [] then [] else (if ws[0] in out then [] else [ws[0]]) + Keep(ws[1..], out)
  }

  function Take<T(==)>(ws: seq<T>, out: set<T>): seq<T> {
    if ws == [] then [] else (if ws[0] in out then [ws[0]] else []) + Take(ws[1..], out)
  }

  lemma LookAt<T>(ws: seq<T>, out: set<T>, i: nat)
    requires i < |ws|
    ensures Keep(ws[i..], out) == (if ws[i] in out then [] else [ws[i]]) + Keep(ws[i + 1..], out)
    ensures Take(ws[i..], out) == (if ws[i] in out then [ws[i]] else []) + Take(ws[i + 1..], out)
  {
    assert ws[i..][1..] == ws[i + 1..];
  }

  lemma {:induction false} Divided<T>(ws: seq<T>, out: set<T>)
    ensures forall w :: w in Keep(ws, out) <==> w in ws && w !in out
    ensures forall w :: w in Take(ws, out) <==> w in ws && w in out
  {
    if ws == [] {
    } else {
      Divided(ws[1..], out);
      assert forall w :: w in ws <==> w == ws[0] || w in ws[1..];
    }
  }

  ghost predicate Distinct<T>(ws: seq<T>) {
    forall i, j :: 0 <= i < j < |ws| ==> ws[i] != ws[j]
  }

  lemma {:induction false} DividedDistinct<T>(ws: seq<T>, out: set<T>)
    requires Distinct(ws)
    ensures Distinct(Keep(ws, out)) && Distinct(Take(ws, out)) && |Keep(ws, out)| <= |ws|
  {
    if ws == [] {
    } else {
      DividedDistinct(ws[1..], out);
      Divided(ws[1..], out);
    }
  }

  /** A loop over `all` has dealt with the first `i` of the elements left in `ws`. */
  ghost predicate Dividing<T>(all: seq<T>, out: set<T>, ws: seq<T>, taken: seq<T>, i: nat) {
    && i <= |ws| && (forall w :: w in ws[i..] ==> w in all)
    && ws[..i] + Keep(ws[i..], out) == Keep(all, out)
    && taken + Take(ws[i..], out) == Take(all, out)
  }

  lemma DivideNext<T>(all: seq<T>, out: set<T>, ws: seq<T>, taken: seq<T>, i: nat)
    requires i < |ws| && Dividing(all, out, ws, taken, i)
    ensures ws[i] in all
    ensures if ws[i] in out then Dividing(all, out, ws[..i] + ws[i + 1..], taken + [ws[i]], i)
            else Dividing(all, out, ws, taken, i + 1)
  {
    LookAt(ws, out, i);
    assert ws[i] in ws[i..] && forall w :: w in ws[i + 1..] ==> w in ws[i..];
    if ws[i] in out {
      var r := ws[..i] + ws[i + 1..];
      assert r[..i] == ws[..i] && r[i..] == ws[i + 1..];
      ConcatAssociates(taken, [ws[i]], Take(ws[i + 1..], out));
    } else {
      ConcatAssociates(ws[..i], [ws[i]], Keep(ws[i + 1..], out));
      assert ws[..i] + [ws[i]] == ws[..i + 1];
    }
  }

  class Registry {
    var workers: seq<Thread>
    const limit: nat

    ghost predicate Valid()
      reads this
    {
      |workers| <= limit && Distinct(workers)
    }

    constructor (limit: nat)
      ensures Valid() && workers == [] && this.limit == limit
    {
      this.limit := limit;
      workers := [];
    }

    method GetNew() returns (w: Thread?)
      requires Valid()
      modifies this
      ensures Valid()
      ensures |old(workers)| < limit ==>
                w != null && fresh(w) && w.Current() == INITIAL && workers == old(workers) + [w]
      ensures |old(workers)| == limit ==> w == null && workers == old(workers)
    {
      if |workers| < limit {
        w := new Thread();
        workers := workers + [w];
      } else {
        w := null;
      }
    }

    /** Raises the flag of every thread, empties the registry, and then stops every thread, which raises the flag
        again. */
    method StopAll()
      requires Valid()
      modifies this, workers
      ensures Valid() && workers == []
      ensures forall w :: w in old(workers) ==> w.Current() == Stopped(Flagged(old(w.Current()), true), true)
      ensures forall w :: w in old(workers) && old(w.notifier).Some? ==>
                w.notified == old(w.notified) + [old(w.notifier).value, old(w.notifier).value]
      ensures forall w :: w in old(workers) ==> w.stopFlag && w.th == None && (old(w.th).Some? ==> w.isDone)
    {
      for i := 0 to |workers|
        invariant workers == old(workers)
        invariant forall j :: 0 <= j < i ==> workers[j].Current() == Flagged(old(workers[j].Current()), true)
        invariant forall j :: i <= j < |workers| ==> unchanged(workers[j])
      {
        workers[i].SetStopFlag(true);
      }
      var toStop := workers;
      workers := [];
      StopEach(toStop);
    }

    /** The loop that follows the critical section of StopAll and RemoveFinished. */
    method StopEach(ws: seq<Thread>)
      requires Distinct(ws)
      modifies ws
      ensures forall w :: w in ws ==> w.Current() == Stopped(old(w.Current()), true)
    {
      for i := 0 to |ws|
        invariant forall j :: 0 <= j < i ==> ws[j].Current() == Stopped(old(ws[j].Current()), true)
        invariant forall j :: i <= j < |ws| ==> unchanged(ws[j])
      {
        ws[i].Stop(true);
      }
    }

    /** The threads in the registry that are marked done. */
    ghost function Done(): set<Thread>
      reads this, workers
    {
      set w | w in workers && w.isDone
    }

    /** The critical section of RemoveFinished: erases the finished threads while it iterates. */
    method TakeFinished() returns (finished: seq<Thread>)
      requires Valid()
      modifies this
      ensures Valid() && workers == old(Keep(workers, Done()))
      ensures finished == old(Take(workers, Done()))
      ensures forall w :: w in workers <==> w in old(workers) && !old(w.isDone)
      ensures forall w :: w in finished <==> w in old(workers) && old(w.isDone)
    {
      finished := [];
      ghost var done, all := Done(), workers;
      var i := 0;
      while i < |workers|
        invariant i <= |workers| && Dividing(all, done, workers, finished, i)
        decreases |workers| - i
      {
        DivideNext(all, done, workers, finished, i);
        var w := workers[i];
        if w.isDone {
          finished := finished + [w];
          workers := workers[..i] + workers[i + 1..];
        } else {
          i := i + 1;
        }
      }
      DividedDistinct(all, done);
      Divided(all, done);
      assert workers == Keep(all, done);
    }

    /** Keeps the unfinished threads in order and stops the others. */
    method RemoveFinished()
      requires Valid()
      modifies this, workers
      ensures Valid() && workers == old(Keep(workers, Done()))
      ensures forall w :: w in workers <==> w in old(workers) && !old(w.isDone)
      ensures forall w :: w in old(workers) && w in workers ==> unchanged(w)
      ensures forall w :: w in old(workers) && old(w.isDone) ==>
                w.Current() == Stopped(old(w.Current()), true) && w.stopFlag && w.th == None
    {
      ghost var all, done := workers, Done();
      var finished := TakeFinished();
      Divided(all, done);
      DividedDistinct(all, done);
      assert forall i :: 0 <= i < |finished| ==> finished[i] in Take(all, done);
      assert forall i :: 0 <= i < |finished| ==> finished[i] in all;
      StopEach(finished);
    }
  }

  // ---------- who stops a thread ----------

  /** The registry with any number of calls under way. Threads are numbered as they are created. `pending[k]` is what
      the k-th call of StopAll or RemoveFinished took out of the registry and has not stopped yet. */
  datatype Manager = Manager(limit: nat, workers: seq<nat>, pending: seq<seq<nat>>, stopped: seq<nat>, created: nat)

  datatype Action =
    | GetNew
    | BeginStopAll
    | BeginRemoveFinished(done: set<nat>)   // the threads marked done at that moment
    | StopNext(call: nat)

  function Next(m: Manager, a: Action): Option<Manager> {
    match a
    case GetNew =>
      Some(if |m.workers| < m.limit then m.(workers := m.workers + [m.created], created := m.created + 1) else m)
    case BeginStopAll => Some(m.(workers := [], pending := m.pending + [m.workers]))
    case BeginRemoveFinished(done) =>
      Some(m.(workers := Keep(m.workers, done), pending := m.pending + [Take(m.workers, done)]))
    case StopNext(call) =>
      if call < |m.pending| && m.pending[call] != [] then
        Some(m.(pending := m.pending[call := m.pending[call][1..]], stopped := m.stopped + [m.pending[call][0]]))
      else None
  }

  /** How often a thread is on some call's list. */
  function CountPending(pending: seq<seq<nat>>, id: nat): nat {
    if pending == [] then 0 else Count(pending[0], id) + CountPending(pending[1..], id)
  }

  lemma {:induction false} CountPendingAppend(pending: seq<seq<nat>>, list: seq<nat>, id: nat)
    ensures CountPending(pending + [list], id) == CountPending(pending, id) + Count(list, id)
  {
    if pending == [] {
      assert pending + [list] == [list];
      assert CountPending([list][1..], id) == 0;
    } else {
      assert (pending + [list])[1..] == pending[1..] + [list];
      CountPendingAppend(pending[1..], list, id);
    }
  }

  lemma {:induction false} CountPendingUpdate(pending: seq<seq<nat>>, call: nat, list: seq<nat>, id: nat)
    requires call < |pending|
    ensures CountPending(pending[call := list], id) ==
            CountPending(pending, id) - Count(pending[call], id) + Count(list, id)
  {
    if call == 0 {
      assert pending[call := list][1..] == pending[1..];
    } else {
      assert pending[call := list][1..] == pending[1..][call - 1 := list];
      CountPendingUpdate(pending[1..], call - 1, list, id);
    }
  }

  lemma CountCons(x: nat, ws: seq<nat>, id: nat)
    ensures Count([x] + ws, id) == One(x, id) + Count(ws, id)
  {
    assert ([x] + ws)[1..] == ws;
  }

  lemma {:induction false} KeepOrTake(ws: seq<nat>, out: set<nat>, id: nat)
    ensures Count(Keep(ws, out), id) + Count(Take(ws, out), id) == Count(ws, id)
    ensures |Keep(ws, out)| <= |ws|
  {
    if ws == [] {
    } else {
      var keep, take := Keep(ws[1..], out), Take(ws[1..], out);
      KeepOrTake(ws[1..], out, id);
      assert [] + keep == keep && [] + take == take;
      CountCons(ws[0], if ws[0] in out then take else keep, id);
      if ws[0] in out {
        assert Keep(ws, out) == keep && Take(ws, out) == [ws[0]] + take;
      } else {
        assert Keep(ws, out) == [ws[0]] + keep && Take(ws, out) == take;
      }
    }
  }

  /** Everywhere a thread can be, added up. */
  function Places(m: Manager, id: nat): nat {
    Count(m.workers, id) + CountPending(m.pending, id) + Count(m.stopped, id)
  }

  ghost predicate Inv(m: Manager, limit: nat) {
    m.limit == limit && |m.workers| <= limit && forall id: nat :: Places(m, id) == if id < m.created then 1 else 0
  }

  lemma PlaceAfter(m: Manager, a: Action, id: nat)
    requires Next(m, a).Some?
    ensures Places(Next(m, a).value, id) ==
            Places(m, id) + if Next(m, a).value.created > m.created && id == m.created then 1 else 0
    ensures |m.workers| <= m.limit ==> |Next(m, a).value.workers| <= m.limit
  {
    match a
    case GetNew => CountAppend(m.workers, m.created, id);
    case BeginStopAll => CountPendingAppend(m.pending, m.workers, id);
    case BeginRemoveFinished(done) =>
      KeepOrTake(m.workers, done, id);
      CountPendingAppend(m.pending, Take(m.workers, done), id);
    case StopNext(call) =>
      CountPendingUpdate(m.pending, call, m.pending[call][1..], id);
      CountAppend(m.stopped, m.pending[call][0], id);
  }

  lemma InvKept(m: Manager, limit: nat, a: Action)
    requires Inv(m, limit) && Next(m, a).Some?
    ensures Inv(Next(m, a).value, limit)
  {
    PlaceAfter(m, a, 0);
    forall i: nat ensures Places(Next(m, a).value, i) == if i < Next(m, a).value.created then 1 else 0 {
      PlaceAfter(m, a, i);
    }
  }

  /** Under any interleaving of calls: the registry keeps to its limit, and every thread ever created is in exactly one
      place: in the registry, on the list of one call, or stopped, once. */
  lemma EveryThreadInOnePlace(limit: nat, actions: seq<Action>, id: nat)
    requires Exec(Next, Manager(limit, [], [], [], 0), actions).Some?
    ensures var m := Exec(Next, Manager(limit, [], [], [], 0), actions).value;
            |m.workers| <= limit && Places(m, id) == if id < m.created then 1 else 0
  {
    forall m, a | Inv(m, limit) && Next(m, a).Some? ensures Inv(Next(m, a).value, limit) {
      InvKept(m, limit, a);
    }
    InvariantHolds(Next, m => Inv(m, limit), Manager(limit, [], [], [], 0), actions);
  }

  // ---------- what the calls get done ----------

  lemma {:induction false} CallsOfGetNew(m: Manager, actions: seq<Action>)
    requires |m.workers| <= m.limit && (forall i :: 0 <= i < |actions| ==> actions[i] == GetNew)
    ensures Exec(Next, m, actions).Some?
    ensures var r, n := Exec(Next, m, actions).value, |m.workers| + |actions|;
            && r.limit == m.limit && r.pending == m.pending && r.stopped == m.stopped && m.workers <= r.workers
            && |r.workers| == (if n <= m.limit then n else m.limit)
            && r.created == m.created + |r.workers| - |m.workers|
    decreases |actions|
  {
    if actions == [] {
    } else {
      assert actions[0] == GetNew && forall i :: 0 <= i < |actions[1..]| ==> actions[1..][i] == actions[i + 1];
      CallsOfGetNew(Next(m, actions[0]).value, actions[1..]);
    }
  }

  /** GetNew fills the registry to its limit: n calls on an empty registry create and register n threads, but no more
      than the limit. */
  lemma GetNewFills(limit: nat, actions: seq<Action>)
    requires forall i :: 0 <= i < |actions| ==> actions[i] == GetNew
    ensures Exec(Next, Manager(limit, [], [], [], 0), actions).Some?
    ensures var r := Exec(Next, Manager(limit, [], [], [], 0), actions).value;
            |r.workers| == r.created == if |actions| <= limit then |actions| else limit
  {
    CallsOfGetNew(Manager(limit, [], [], [], 0), actions);
  }

  /** StopAll takes over every thread of the registry, in order; RemoveFinished takes over exactly the finished ones. */
  lemma CallsTakeOver(m: Manager, done: set<nat>, id: nat)
    ensures var r := Next(m, BeginStopAll).value; r.workers == [] && r.pending == m.pending + [m.workers]
    ensures var r := Next(m, BeginRemoveFinished(done)).value;
            && (id in r.workers <==> id in m.workers && id !in done)
            && |r.pending| == |m.pending| + 1 && r.pending[..|m.pending|] == m.pending
            && (id in r.pending[|m.pending|] <==> id in m.workers && id in done)
  {
    Divided(m.workers, done);
  }

  /** A call can always go on to stop all the threads on its list, in order. */
  lemma {:induction false} CallCanFinish(m: Manager, call: nat) returns (actions: seq<Action>)
    requires call < |m.pending|
    ensures Exec(Next, m, actions) ==
            Some(m.(pending := m.pending[call := []], stopped := m.stopped + m.pending[call]))
    decreases |m.pending[call]|
  {
    var list := m.pending[call];
    if list == [] {
      assert m.pending[call := []] == m.pending && m.stopped + [] == m.stopped;
      return [];
    }
    var t := Next(m, StopNext(call)).value;
    var rest := CallCanFinish(t, call);
    ExecCons(Next, m, StopNext(call), rest);
    ConcatAssociates(m.stopped, [list[0]], list[1..]);
    assert [list[0]] + list[1..] == list;
    assert t.pending[call := []] == m.pending[call := []];
    actions := [StopNext(call)] + rest;
  }
}
