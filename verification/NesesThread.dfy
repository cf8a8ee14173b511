/** NESESLIB/NesesThread.hpp: the life of a restartable thread.

    Callables and notifiers are opaque: they are told apart by a number.
 */
module NesesThread {
  import opened Runs

  type Callable = nat

  datatype State = State(
    callable: Option<Callable>,  // what Set bound last
    notifier: Option<Callable>,  // onStopNotify
    th: Option<Callable>,        // the thread held, by what it was created to run; None if it is not joinable
    isSet: bool,
    isStarted: bool,
    stopFlag: bool,
    isDone: bool,
    notified: seq<Callable>      // history: the calls of notifiers
  )

  datatype Op =
    | Set(f: Callable)
    | RegisterNotifier(n: Callable)
    | SetStopFlag(flag: bool)
    | SetIsDone(done: bool)
    | Start(launches: bool)   // whether creating the thread succeeds
    | Stop(joins: bool)       // whether joining it succeeds

  function Flagged(s: State, flag: bool): State {
    s.(stopFlag := flag, notified := if flag && s.notifier.Some? then s.notified + [s.notifier.value] else s.notified)
  }

  function Started(s: State, launches: bool): State {
    if s.isStarted || !s.isSet then s
    else s.(isDone := false, stopFlag := false, th := if launches then s.callable else None, isStarted := launches)
  }

  function Stopped(s: State, joins: bool): State {
    var flagged := Flagged(s, true);
    if flagged.th.Some? && joins then flagged.(th := None, isDone := true, isStarted := false) else flagged
  }

  function After(s: State, op: Op): Option<State> {
    Some(match op
         case Set(f) => s.(callable := Some(f), isSet := true)
         case RegisterNotifier(n) => s.(notifier := Some(n))
         case SetStopFlag(flag) => Flagged(s, flag)
         case SetIsDone(done) => s.(isDone := done)
         case Start(launches) => Started(s, launches)
         case Stop(joins) => Stopped(s, joins))
  }

  const INITIAL := State(None, None, None, false, false, false, false, [])

  class Thread {
    var callable: Option<Callable>
    var notifier: Option<Callable>
    var th: Option<Callable>
    var isSet: bool
    var isStarted: bool
    var stopFlag: bool
    var isDone: bool
    ghost var notified: seq<Callable>

    constructor ()
      ensures Current() == INITIAL
    {
      callable, notifier, th := None, None, None;
      isSet, isStarted, stopFlag, isDone := false, false, false, false;
      notified := [];
    }

    ghost function Current(): State
      reads this
    {
      State(callable, notifier, th, isSet, isStarted, stopFlag, isDone, notified)
    }

    method SetStopFlag(flag: bool)
      modifies this
      ensures stopFlag == flag
      ensures notified == old(notified) + if flag && notifier.Some? then [notifier.value] else []
      ensures callable == old(callable) && notifier == old(notifier) && th == old(th)
      ensures isSet == old(isSet) && isStarted == old(isStarted) && isDone == old(isDone)
      ensures Current() == Flagged(old(Current()), flag)
    {
      stopFlag := flag;
      if flag {
        InvokeNotifier();
      }
    }

    /** onStopNotify.invoke: calls the notifier, if there is one. */
    method InvokeNotifier()
      modifies this`notified
      ensures notified == if notifier.Some? then old(notified) + [notifier.value] else old(notified)
    {
      if notifier.Some? {
        notified := notified + [notifier.value];
      }
    }

    method SetIsDone(done: bool)
      modifies this`isDone
      ensures isDone == done
      ensures Some(Current()) == After(old(Current()), Op.SetIsDone(done))
    {
      isDone := done;
    }

    method RegisterNotifier(n: Callable)
      modifies this
      ensures Current() == old(Current()).(notifier := Some(n))
    {
      notifier := Some(n);
    }

    method Set(f: Callable)
      modifies this
      ensures Current() == old(Current()).(callable := Some(f), isSet := true)
    {
      callable := Some(f);
      isSet := true;
    }

    method Start(launches: bool) returns (ok: bool)
      modifies this
      ensures Current() == Started(old(Current()), launches)
      ensures ok <==> !old(isStarted) && old(isSet) && launches
      ensures callable == old(callable) && notifier == old(notifier) && isSet == old(isSet) && notified == old(notified)
      ensures ok ==> isStarted && th == callable && !stopFlag && !isDone
      ensures !ok && (old(isStarted) || !old(isSet)) ==> Current() == old(Current())
      ensures !ok && !old(isStarted) && old(isSet) ==> th == None && !isStarted && !stopFlag && !isDone
    {
      if isStarted {
        return false;
      }
      if !isSet {
        return false;
      }
      isDone := false;
      stopFlag := false;
      if !launches {
        th := None;
        return false;
      }
      th := callable;
      isStarted := true;
      return true;
    }

    method Stop(joins: bool)
      modifies this
      ensures stopFlag && notified == old(notified) + if notifier.Some? then [notifier.value] else []
      ensures callable == old(callable) && notifier == old(notifier) && isSet == old(isSet)
      ensures if old(th).Some? && joins then th == None && isDone && !isStarted
              else th == old(th) && isDone == old(isDone) && isStarted == old(isStarted)
      ensures Current() == Stopped(old(Current()), joins)
    {
      SetStopFlag(true);
      if th.Some? {
        if joins {
          th := None;
          isDone := true;
          isStarted := false;
        }
      }
    }
  }

  lemma {:induction false} AlwaysDefined(s: State, ops: seq<Op>)
    ensures Exec(After, s, ops).Some?
    decreases |ops|
  {
    if ops == [] {
    } else {
      AlwaysDefined(After(s, ops[0]).value, ops[1..]);
    }
  }

  ghost predicate Inv(s: State) {
    && (s.th.Some? <==> s.isStarted) && (s.isStarted ==> s.isSet)
    && (s.isSet <==> s.callable.Some?)
  }

  /** Over every sequence of calls the thread is joinable exactly while it counts as started. So Start, which goes on
      only when it does not, never overwrites a thread that was not joined. And it has something to run: isSet is true
      exactly if a callable was bound. */
  lemma JoinableIffStarted(ops: seq<Op>)
    ensures Exec(After, INITIAL, ops).Some?
    ensures var s := Exec(After, INITIAL, ops).value;
            (s.th.Some? <==> s.isStarted) && (s.isStarted ==> s.isSet) && (s.isSet <==> s.callable.Some?)
  {
    AlwaysDefined(INITIAL, ops);
    InvariantHolds(After, (s: State) => Inv(s), INITIAL, ops);
  }

  predicate Raise(op: Op) {
    op == SetStopFlag(true) || op.Stop?
  }

  /** How often the stop flag is raised. */
  function Raises(ops: seq<Op>): nat {
    if ops == [] then 0 else (if Raise(ops[0]) then 1 else 0) + Raises(ops[1..])
  }

  lemma StepNotifies(s: State, op: Op, n: Callable)
    requires s.notifier == Some(n) && !op.RegisterNotifier?
    ensures var s' := After(s, op).value;
            s'.notifier == Some(n) && s'.notified == if Raise(op) then s.notified + [n] else s.notified
  {
  }

  predicate Registers(ops: seq<Op>) {
    exists i :: 0 <= i < |ops| && ops[i].RegisterNotifier?
  }

  /** The registered notifier is called exactly once for each time the flag is raised, by SetStopFlag or by Stop, joined
      or not, and no other notifier is. */
  lemma {:induction false} NotifiedOncePerRaise(s: State, ops: seq<Op>, n: Callable)
    requires s.notifier == Some(n) && !Registers(ops) && Exec(After, s, ops).Some?
    ensures Exec(After, s, ops).value.notified == s.notified + seq(Raises(ops), _ => n)
    decreases |ops|
  {
    if ops == [] {
    } else {
      assert !ops[0].RegisterNotifier? && forall i :: 0 <= i < |ops[1..]| ==> ops[1..][i] == ops[i + 1];
      StepNotifies(s, ops[0], n);
      NotifiedOncePerRaise(After(s, ops[0]).value, ops[1..], n);
    }
  }

  /** What the calls made of the flags: the last one that stores a flag decides. A Start stores both only if it goes on,
      a Stop the mark only if it joins. */
  lemma FlagsAreLastStored(s: State, op: Op)
    ensures var flag := After(s, op).value.stopFlag;
            match op
            case SetStopFlag(f) => flag == f
            case Stop(_) => flag
            case Start(_) => flag == (s.stopFlag && (s.isStarted || !s.isSet))
            case _ => flag == s.stopFlag
    ensures var done := After(s, op).value.isDone;
            match op
            case SetIsDone(d) => done == d
            case Stop(joins) => done == (s.isDone || (s.th.Some? && joins))
            case Start(_) => done == (s.isDone && (s.isStarted || !s.isSet))
            case _ => done == s.isDone
  {
  }

  /** A stop that joins without an exception leaves the thread marked done exactly if it was started or already
      marked. */
  lemma StopMarksDoneIff(ops: seq<Op>)
    requires Exec(After, INITIAL, ops).Some?
    ensures var s := Exec(After, INITIAL, ops).value;
            Stopped(s, true).isDone <==> s.isStarted || s.isDone
  {
    JoinableIffStarted(ops);
  }

  predicate NeverBegins(ops: seq<Op>) {
    forall i :: 0 <= i < |ops| ==> !ops[i].Start? && !ops[i].SetIsDone?
  }

  /** A thread that is never started is never marked done, however often it is set up and stopped: a caller that stops
      it and waits for the mark waits for ever. */
  lemma {:induction false} NeverStartedNeverDone(ops: seq<Op>)
    requires NeverBegins(ops) && Exec(After, INITIAL, ops).Some?
    ensures !Stopped(Exec(After, INITIAL, ops).value, true).isDone
  {
    StaysUndone(INITIAL, ops);
  }

  lemma {:induction false} StaysUndone(s: State, ops: seq<Op>)
    requires !s.isStarted && !s.isDone && s.th == None && NeverBegins(ops) && Exec(After, s, ops).Some?
    ensures var s' := Exec(After, s, ops).value; !s'.isStarted && !s'.isDone && s'.th == None
    decreases |ops|
  {
    if ops == [] {
    } else {
      assert !ops[0].Start? && !ops[0].SetIsDone? && forall i :: 0 <= i < |ops[1..]| ==> ops[1..][i] == ops[i + 1];
      StaysUndone(After(s, ops[0]).value, ops[1..]);
    }
  }
}
