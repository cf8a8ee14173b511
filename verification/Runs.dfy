/** Finite runs of a labelled transition system.

    A protocol is given by a function `next`: the label fixes every choice (which thread moves, which sleeper is
    woken, what a racy load returns), so `next(s, a)` is the successor state, or None when `a` cannot happen in `s`.
 */
module Runs {
  datatype Option<+T> = None | Some(value: T)

  /** The state after the labels `actions`, or None if some label cannot happen where it stands. */
  function Exec<S, A>(next: (S, A) -> Option<S>, s: S, actions: seq<A>): Option<S> {
    if actions == [] then Some(s)
    else
      match next(s, actions[0])
      case None => None
      case Some(s') => Exec(next, s', actions[1..])
  }

  /** What holds at the start and is kept by every step holds at the end of every run. */
  lemma {:induction false} InvariantHolds<S(!new), A(!new)>(
      next: (S, A) -> Option<S>, inv: S -> bool, s: S, actions: seq<A>)
    requires inv(s)
    requires forall s, a :: inv(s) && next(s, a).Some? ==> inv(next(s, a).value)
    ensures Exec(next, s, actions).Some? ==> inv(Exec(next, s, actions).value)
    decreases |actions|
  {
    if actions == [] {
    } else if next(s, actions[0]).Some? {
      InvariantHolds(next, inv, next(s, actions[0]).value, actions[1..]);
    }
  }

  /** Running one sequence of labels after another. */
  lemma {:induction false} ExecAppend<S, A>(next: (S, A) -> Option<S>, s: S, before: seq<A>, after: seq<A>)
    requires Exec(next, s, before).Some?
    ensures Exec(next, s, before + after) == Exec(next, Exec(next, s, before).value, after)
    decreases |before|
  {
    if before == [] {
      assert before + after == after;
    } else {
      assert (before + after)[1..] == before[1..] + after;
      ExecAppend(next, next(s, before[0]).value, before[1..], after);
    }
  }

  lemma ExecOne<S, A>(next: (S, A) -> Option<S>, s: S, a: A)
    ensures Exec(next, s, [a]) == next(s, a)
  {
    assert [a][1..] == [];
  }

  /** One more label in front of a run. */
  lemma ExecCons<S, A>(next: (S, A) -> Option<S>, s: S, a: A, rest: seq<A>)
    requires next(s, a).Some?
    ensures Exec(next, s, [a] + rest) == Exec(next, next(s, a).value, rest)
  {
    assert ([a] + rest)[1..] == rest;
  }

  lemma ConcatAssociates<T>(a: seq<T>, b: seq<T>, c: seq<T>)
    ensures (a + b) + c == a + (b + c)
  {
  }
}
