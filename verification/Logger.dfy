/** NESESLIB/Logger.hpp: producers, the consumer thread and the stop and restart of it, on top of the blocking queue.

    Any number of threads log. One thread calls Start and Stop. Others may raise the consumer's stop flag at any time,
    as the shutdown of the thread registry does; raising it is two labels, the store and the queue's close that its
    notifier calls.
 */
module Logger {
  import opened Runs
  import opened QueueFifoWaitable

  const MAX_LOG_QUEUE_SIZE: nat := 255

  datatype Consumer =
    | NoThread
    | AtWait                    // about to call wait_pop, or waiting in it
    | FirstFlag(log: string)    // popped; about to read the stop flag
    | FirstClosed(log: string)  // about to read is_closed
    | Handling(log: string)     // past both checks, about to handle
    | SecondFlag                // handled; about to read the stop flag
    | SecondClosed
    | Left                      // left the loop, not joined yet

  datatype Controller =
    | Outside
    | Launching      // Start cleared the stop flag, has not cleared it again in NesesThread::Start yet
    | Cleared        // cleared it again, has not created the thread yet
    | Flagged        // Stop raised the stop flag, has not closed the queue yet
    | Joining        // Stop closed the queue

  datatype Log = Log(
    queue: Core<string>,
    stopFlag: bool,
    started: bool,
    consumer: Consumer,
    controller: Controller,
    owingClose: nat,            // other threads that raised the flag and have not closed the queue yet
    // History:
    accepted: seq<string>,      // entries that AddLog_ accepted
    taken: nat,                 // how many of them were popped
    handled: seq<string>,       // entries given to the handler, in order
    upTo: nat,                  // how many accepted entries were dealt with before any was dropped
    dropped: bool               // the consumer left with an entry in hand
  )

  datatype Action =
    | AddLog(entry: string, ok: bool)
    | ReturnFromWait            // wait_pop returns: an entry, or false
    | ReadFirstFlag
    | ReadFirstClosed
    | Handle
    | ReadSecondFlag
    | ReadSecondClosed
    | BeginStart
    | ClearAgain
    | Launch
    | BeginStop
    | CloseQueue
    | Join
    | RaiseFlag                 // another thread
    | CloseAfterRaise

  function Goto(l: Log, c: Consumer): Log {
    l.(consumer := c)
  }

  function Leave(l: Log): Log {
    l.(consumer := Left, dropped := true)
  }

  function Next(l: Log, a: Action): Option<Log> {
    var c := l.consumer;
    match a
    case AddLog(entry, ok) =>
      if ok == l.queue.Accepts() then
        Some(l.(queue := Pushed(l.queue, entry), accepted := if ok then l.accepted + [entry] else l.accepted))
      else None
    case ReturnFromWait =>
      if c == AtWait && l.queue.WaitOver() then
        Some(if l.queue.items == [] then Goto(l, Left)
             else Goto(l.(queue := Popped(l.queue), taken := l.taken + 1), FirstFlag(l.queue.items[0])))
      else None
    case ReadFirstFlag =>
      if c.FirstFlag? then Some(if l.stopFlag then Leave(l) else Goto(l, FirstClosed(c.log))) else None
    case ReadFirstClosed =>
      if c.FirstClosed? then Some(if l.queue.closed then Leave(l) else Goto(l, Handling(c.log))) else None
    case Handle =>
      if c.Handling? then
        var handled := if c.log != "" then l.handled + [c.log] else l.handled;
        Some(Goto(l.(handled := handled, upTo := l.upTo + 1), SecondFlag))
      else None
    case ReadSecondFlag =>
      if c == SecondFlag then Some(Goto(l, if l.stopFlag then Left else SecondClosed)) else None
    case ReadSecondClosed =>
      if c == SecondClosed then Some(Goto(l, if l.queue.closed then Left else AtWait)) else None
    case BeginStart =>
      if l.controller == Outside then Some(if l.started then l else l.(stopFlag := false, controller := Launching))
      else None
    case ClearAgain =>
      if l.controller == Launching then Some(l.(stopFlag := false, controller := Cleared)) else None
    case Launch =>
      if l.controller == Cleared then Some(l.(consumer := AtWait, started := true, controller := Outside)) else None
    case BeginStop =>
      if l.controller == Outside then Some(if l.started then l.(stopFlag := true, controller := Flagged) else l)
      else None
    case CloseQueue =>
      if l.controller == Flagged then Some(l.(queue := l.queue.(closed := true), controller := Joining)) else None
    case Join =>
      if l.controller == Joining && c == Left then
        Some(l.(consumer := NoThread, started := false, controller := Outside))
      else None
    case RaiseFlag => Some(l.(stopFlag := true, owingClose := l.owingClose + 1))
    case CloseAfterRaise =>
      if l.owingClose > 0 then Some(l.(queue := l.queue.(closed := true), owingClose := l.owingClose - 1)) else None
  }

  const INITIAL :=
    Log(Core([], false, MAX_LOG_QUEUE_SIZE), false, false, NoThread, Outside, 0, [], 0, [], 0, false)

  ghost predicate Reachable(l: Log) {
    exists actions :: Exec(Next, INITIAL, actions) == Some(l)
  }

  // ---------- what is handled ----------

  function NonEmpty(logs: seq<string>): seq<string> {
    if logs == [] then [] else (if logs[0] != "" then [logs[0]] else []) + NonEmpty(logs[1..])
  }

  lemma {:induction false} NonEmptyAppend(logs: seq<string>, log: string)
    ensures NonEmpty(logs + [log]) == NonEmpty(logs) + if log != "" then [log] else []
  {
    if logs == [] {
      assert logs + [log] == [log];
      assert NonEmpty([log][1..]) == [];
    } else {
      assert (logs + [log])[1..] == logs[1..] + [log];
      NonEmptyAppend(logs[1..], log);
    }
  }

  /** The entry the consumer has popped and not dealt with. */
  predicate InHand(c: Consumer) {
    c.FirstFlag? || c.FirstClosed? || c.Handling?
  }

  ghost predicate Entries(l: Log) {
    && l.upTo <= l.taken <= |l.accepted| && l.queue.items == l.accepted[l.taken..]
    && l.handled == NonEmpty(l.accepted[..l.upTo])
    && (if l.dropped then l.upTo < l.taken else l.taken == l.upTo + if InHand(l.consumer) then 1 else 0)
    && (!l.dropped && InHand(l.consumer) ==> l.consumer.log == l.accepted[l.upTo])
  }

  /** The queue is closed, or somebody who raised the stop flag is about to close it. */
  predicate Closing(l: Log) {
    l.queue.closed || l.owingClose > 0 || l.controller == Flagged
  }

  /** A consumer that dropped an entry never handles another: a new one starts only after the queue was closed. The stop
      flag is up, and a consumer has left its loop, only if the queue is or is about to be closed. */
  ghost predicate Life(l: Log) {
    && l.queue.capacity == MAX_LOG_QUEUE_SIZE
    && (l.dropped ==> !l.consumer.Handling? && (l.queue.closed || l.consumer == Left))
    && (l.started <==> l.consumer != NoThread)
    && (!l.started && l.dropped ==> l.queue.closed)
    && (l.controller == Launching || l.controller == Cleared ==> !l.started)
    && (l.controller == Flagged || l.controller == Joining ==> l.started)
    && (l.controller == Joining ==> l.queue.closed)
    && (l.stopFlag || l.consumer == Left ==> Closing(l))
    && (l.controller == Flagged || l.controller == Joining ==> l.stopFlag)
  }

  lemma EntriesKeptByHandle(l: Log)
    requires Entries(l) && Life(l) && l.consumer.Handling?
    ensures Entries(Next(l, Handle).value)
  {
    assert l.accepted[..l.upTo + 1] == l.accepted[..l.upTo] + [l.accepted[l.upTo]];
    NonEmptyAppend(l.accepted[..l.upTo], l.accepted[l.upTo]);
  }

  lemma EntriesKeptByAddLog(l: Log, entry: string, ok: bool)
    requires Entries(l) && Next(l, AddLog(entry, ok)).Some?
    ensures Entries(Next(l, AddLog(entry, ok)).value)
  {
    assert (l.accepted + [entry])[..l.upTo] == l.accepted[..l.upTo];
  }

  lemma EntriesKeptByReturn(l: Log)
    requires Entries(l) && Next(l, ReturnFromWait).Some?
    ensures Entries(Next(l, ReturnFromWait).value)
  {
    if l.queue.items == [] {
    } else {
      assert l.accepted[l.taken..][0] == l.accepted[l.taken];
      assert l.accepted[l.taken..][1..] == l.accepted[l.taken + 1..];
    }
  }

  /** Labels that move the consumer or the controller only. */
  lemma EntriesKeptByMove(l: Log, a: Action)
    requires Entries(l) && !a.Handle? && !a.AddLog? && !a.ReturnFromWait? && Next(l, a).Some?
    requires Life(l)
    ensures Entries(Next(l, a).value)
  {
    var l' := Next(l, a).value;
    assert l'.queue.items == l.queue.items && l'.accepted == l.accepted && l'.taken == l.taken;
    assert l'.handled == l.handled && l'.upTo == l.upTo && (l.dropped ==> l'.dropped);
    assert !l'.dropped ==> InHand(l'.consumer) == InHand(l.consumer);
  }

  lemma EntriesKept(l: Log, a: Action)
    requires Entries(l) && Life(l) && Next(l, a).Some?
    ensures Entries(Next(l, a).value)
  {
    match a
    case Handle => EntriesKeptByHandle(l);
    case AddLog(entry, ok) => EntriesKeptByAddLog(l, entry, ok);
    case ReturnFromWait => EntriesKeptByReturn(l);
    case _ => EntriesKeptByMove(l, a);
  }

  lemma LifeKept(l: Log, a: Action)
    requires Life(l) && Next(l, a).Some?
    ensures Life(Next(l, a).value)
  {
  }

  lemma ReachableInv(l: Log)
    requires Reachable(l)
    ensures Entries(l) && Life(l)
  {
    var actions :| Exec(Next, INITIAL, actions) == Some(l);
    forall l, a | Entries(l) && Life(l) && Next(l, a).Some?
      ensures Entries(Next(l, a).value) && Life(Next(l, a).value)
    {
      EntriesKept(l, a);
      LifeKept(l, a);
    }
    InvariantHolds(Next, l => Entries(l) && Life(l), INITIAL, actions);
  }

  /** In every run, with any stops and restarts, the entries handled are the first accepted ones, in order, none missed
      (empty ones are skipped) and none twice. Until an entry is dropped, all that was popped was dealt with, except the
      one in hand. */
  lemma HandledIsPrefixOfAccepted(l: Log)
    requires Reachable(l)
    ensures l.upTo <= |l.accepted| && l.handled == NonEmpty(l.accepted[..l.upTo])
    ensures !l.dropped ==>
              l.accepted == l.accepted[..l.upTo] + (if InHand(l.consumer) then [l.consumer.log] else []) + l.queue.items
  {
    ReachableInv(l);
  }

  /** The reads of the stop flag so far: all down. */
  ghost predicate AllDown(flags: nat -> bool, looks: nat) {
    forall r :: 0 <= r < looks ==> !flags(r)
  }

  lemma HandleNext(all: seq<string>, done: nat)
    requires done < |all|
    ensures NonEmpty(all[..done + 1]) == NonEmpty(all[..done]) + if all[done] != "" then [all[done]] else []
  {
    NonEmptyAppend(all[..done], all[done]);
    assert all[..done + 1] == all[..done] + [all[done]];
  }

  /** ConsumeLogs from one wait that blocks to the next, or to its end. Other threads set the stop flag, so what the
      loop reads from it is given: `flags(n)` is its n-th read. It handles the first `done` entries, in order. It leaves
      when a read is up, and loses the entry in hand if that was a first read; and it leaves a closed queue at once. */
  method ConsumeLogs(logQueue: Queue<string>, flags: nat -> bool)
    returns (handled: seq<string>, left: bool, looks: nat, ghost done: nat, ghost lost: nat)
    modifies logQueue
    ensures logQueue.closed == old(logQueue.closed)
    ensures lost <= 1 && done + lost <= |old(logQueue.queue)| && logQueue.queue == old(logQueue.queue)[done + lost..]
    ensures handled == NonEmpty(old(logQueue.queue)[..done])
    ensures looks == 2 * done + lost
    ensures if !left then AllDown(flags, looks) && logQueue.queue == [] && !logQueue.closed
            else if logQueue.closed then done == 0 && (lost == 0 <==> old(logQueue.queue) == [])
            else looks > 0 && flags(looks - 1) && AllDown(flags, looks - 1)
  {
    handled, left, done, lost, looks := [], true, 0, 0, 0;
    ghost var all := logQueue.queue;
    assert all[..0] == [];
    while logQueue.queue != [] || logQueue.closed
      invariant logQueue.closed == old(logQueue.closed) && (logQueue.closed ==> done == 0)
      invariant done <= |all| && logQueue.queue == all[done..] && handled == NonEmpty(all[..done])
      invariant looks == 2 * done && AllDown(flags, looks)
      decreases |logQueue.queue|
    {
      var strlog := logQueue.FinishWait();
      if strlog.None? {
        return;
      }
      looks := looks + 1;
      if flags(looks - 1) || logQueue.closed {
        lost := 1;
        return;
      }
      HandleNext(all, done);
      if strlog.value != "" {
        handled := handled + [strlog.value];
      }
      done := done + 1;
      looks := looks + 1;
      if flags(looks - 1) || logQueue.closed {
        return;
      }
    }
    left := false;
  }

  // ---------- what a running consumer can do ----------

  /** A consumer runs, and nothing has told it to stop. */
  ghost predicate Running(l: Log) {
    && Entries(l) && Life(l) && !l.stopFlag && !l.queue.closed
    && l.consumer != NoThread && l.consumer != Left && l.controller == Outside
  }

  /** What the consumer does next. */
  function StepOf(c: Consumer): Action {
    match c
    case FirstFlag(_) => ReadFirstFlag
    case FirstClosed(_) => ReadFirstClosed
    case Handling(_) => Handle
    case SecondFlag => ReadSecondFlag
    case SecondClosed => ReadSecondClosed
    case _ => ReturnFromWait
  }

  function Turn(c: Consumer): nat {
    match c
    case FirstFlag(_) => 5
    case FirstClosed(_) => 4
    case Handling(_) => 3
    case SecondFlag => 2
    case SecondClosed => 1
    case _ => 0
  }

  lemma ConsumerMovesOn(l: Log)
    requires Running(l) && (l.consumer == AtWait ==> l.queue.items != [])
    ensures Next(l, StepOf(l.consumer)).Some?
    ensures var t := Next(l, StepOf(l.consumer)).value;
            && Running(t) && t.accepted == l.accepted && |l.handled| <= |t.handled|
            && 6 * |t.queue.items| + Turn(t.consumer) < 6 * |l.queue.items| + Turn(l.consumer)
  {
    EntriesKept(l, StepOf(l.consumer));
    LifeKept(l, StepOf(l.consumer));
  }

  /** A running consumer can handle all that was accepted. */
  lemma {:induction false} CatchUp(l: Log) returns (actions: seq<Action>)
    requires Running(l)
    ensures BeginStart !in actions && Exec(Next, l, actions).Some?
    ensures var t := Exec(Next, l, actions).value;
            && Running(t) && t.consumer == AtWait && t.queue.items == [] && t.accepted == l.accepted
            && t.handled == NonEmpty(l.accepted) && |l.handled| <= |t.handled|
    decreases 6 * |l.queue.items| + Turn(l.consumer)
  {
    if l.consumer == AtWait && l.queue.items == [] {
      assert l.accepted[..l.upTo] == l.accepted;
      return [];
    }
    ConsumerMovesOn(l);
    var a := StepOf(l.consumer);
    var rest := CatchUp(Next(l, a).value);
    ExecCons(Next, l, a, rest);
    actions := [a] + rest;
  }

  lemma AddOne(l: Log, entry: string) returns (t: Log)
    requires Running(l) && l.queue.items == []
    ensures Next(l, AddLog(entry, true)) == Some(t) && Running(t)
    ensures t.accepted == l.accepted + [entry] && t.handled == l.handled
  {
    t := Next(l, AddLog(entry, true)).value;
    EntriesKept(l, AddLog(entry, true));
    LifeKept(l, AddLog(entry, true));
  }

  lemma OneMoreHandled(logs: seq<string>, log: string)
    requires log != ""
    ensures |NonEmpty(logs + [log])| == |NonEmpty(logs)| + 1
  {
    NonEmptyAppend(logs, log);
  }

  /** A consumer that has caught up can be given one more entry, and handle it. */
  lemma AddAndCatchUp(l: Log, entry: string) returns (actions: seq<Action>)
    requires Running(l) && l.queue.items == [] && l.handled == NonEmpty(l.accepted) && entry != ""
    ensures BeginStart !in actions && Exec(Next, l, actions).Some?
    ensures var t := Exec(Next, l, actions).value;
            && Running(t) && t.accepted == l.accepted + [entry]
            && t.handled == NonEmpty(l.accepted + [entry]) && |t.handled| > |l.handled|
  {
    var all := l.accepted + [entry];
    OneMoreHandled(l.accepted, entry);
    var t := AddOne(l, entry);
    assert t.accepted == all;
    var after := CatchUp(t);
    ExecCons(Next, l, AddLog(entry, true), after);
    actions := [AddLog(entry, true)] + after;
  }

  /** A running consumer can handle all that was accepted and then one more entry. */
  lemma LogOneMore(l: Log, entry: string) returns (actions: seq<Action>)
    requires Running(l) && entry != ""
    ensures BeginStart !in actions && Exec(Next, l, actions).Some?
    ensures var t := Exec(Next, l, actions).value;
            && Running(t) && t.accepted == l.accepted + [entry] && t.handled == NonEmpty(l.accepted + [entry])
            && |t.handled| > |l.handled|
  {
    var before := CatchUp(l);
    var after := AddAndCatchUp(Exec(Next, l, before).value, entry);
    ExecAppend(Next, l, before, after);
    actions := before + after;
  }

  /** The rest of a Start, whatever the stop flag says by now. */
  lemma StartCanFinish(l: Log) returns (actions: seq<Action>)
    requires Entries(l) && Life(l) && l.controller == Launching && !l.queue.closed
    ensures BeginStart !in actions && Exec(Next, l, actions).Some?
    ensures var t := Exec(Next, l, actions).value;
            Running(t) && t.accepted == l.accepted && t.handled == l.handled
  {
    var cleared := Next(l, ClearAgain).value;
    EntriesKept(l, ClearAgain);
    EntriesKept(cleared, Launch);
    ExecOne(Next, cleared, Launch);
    ExecCons(Next, l, ClearAgain, [Launch]);
    actions := [ClearAgain] + [Launch];
  }

  // ---------- after the stop flag ----------

  /** Entries that can still be handled once the stop flag is up. */
  function AfterFlag(c: Consumer): nat {
    if c.FirstClosed? || c.Handling? then 1 else 0
  }

  lemma StepAfterFlag(l: Log, a: Action)
    requires l.stopFlag && a != BeginStart && a != ClearAgain && Next(l, a).Some?
    ensures var r := Next(l, a).value;
            r.stopFlag && |r.handled| + AfterFlag(r.consumer) <= |l.handled| + AfterFlag(l.consumer)
  {
  }

  /** Once the stop flag is up, and until Start clears it, at most one more entry is handled, and only if the consumer
      had already read the flag as down for it. */
  lemma {:induction false} AtMostOneAfterFlag(l: Log, actions: seq<Action>)
    requires l.stopFlag && BeginStart !in actions && ClearAgain !in actions && Exec(Next, l, actions).Some?
    ensures var r := Exec(Next, l, actions).value;
            r.stopFlag && |r.handled| + AfterFlag(r.consumer) <= |l.handled| + AfterFlag(l.consumer)
    decreases |actions|
  {
    if actions == [] {
    } else {
      assert actions[0] in actions;
      StepAfterFlag(l, actions[0]);
      AtMostOneAfterFlag(Next(l, actions[0]).value, actions[1..]);
    }
  }

  /** Without a new Start the second clearing store happens only in a Start that is past its first. */
  lemma {:induction false} NoClearAgain(l: Log, actions: seq<Action>)
    requires l.controller != Launching && BeginStart !in actions && Exec(Next, l, actions).Some?
    ensures ClearAgain !in actions
    decreases |actions|
  {
    if actions == [] {
    } else {
      assert actions[0] in actions && forall a :: a in actions <==> a == actions[0] || a in actions[1..];
      NoClearAgain(Next(l, actions[0]).value, actions[1..]);
    }
  }

  /** A run without a new Start in which more than one entry is handled although the flag was up. */
  lemma FlagWipedRun(l: Log) returns (actions: seq<Action>)
    requires Entries(l) && Life(l) && l.controller == Launching && !l.queue.closed
    ensures BeginStart !in actions && Exec(Next, l, actions).Some?
    ensures |Exec(Next, l, actions).value.handled| > |l.handled| + 1
  {
    var launch := StartCanFinish(l);
    var running := Exec(Next, l, launch).value;
    var first := LogOneMore(running, "first");
    var second := LogOneMore(Exec(Next, running, first).value, "second");
    ExecAppend(Next, running, first, second);
    ExecAppend(Next, l, launch, first + second);
    actions := launch + (first + second);
  }

  /** Start clears the stop flag twice. A flag that is up holds the consumer to at most one more entry until the next
      Start, exactly when no Start is between the two clearing stores, or the queue is closed already. */
  lemma FlagHoldsIff(l: Log)
    requires Reachable(l) && l.stopFlag
    ensures
      (forall actions ::
         var r := Exec(Next, l, actions); BeginStart !in actions && r.Some? ==> |r.value.handled| <= |l.handled| + 1)
      <==> l.controller != Launching || l.queue.closed
  {
    ReachableInv(l);
    if l.controller == Launching && !l.queue.closed {
      var actions := FlagWipedRun(l);
    } else {
      forall actions | BeginStart !in actions && Exec(Next, l, actions).Some?
        ensures |Exec(Next, l, actions).value.handled| <= |l.handled| + 1
      {
        if l.queue.closed {
          AtMostOneAfterClose(l, actions);
        } else {
          NoClearAgain(l, actions);
          AtMostOneAfterFlag(l, actions);
        }
      }
    }
  }

  /** Such a state is reached when another thread raises the flag during a Start. */
  lemma FlagCanBeWiped() returns (l: Log)
    ensures Reachable(l) && l.stopFlag && l.controller == Launching && !l.queue.closed
  {
    var started := Next(INITIAL, BeginStart).value;
    l := Next(started, RaiseFlag).value;
    ExecOne(Next, started, RaiseFlag);
    ExecCons(Next, INITIAL, BeginStart, [RaiseFlag]);
  }

  /** Entries that can still be taken off the queue once the stop flag is up. */
  function TakeAfterFlag(l: Log): nat {
    if l.consumer == AtWait || l.consumer == SecondClosed || l.controller == Cleared then 1 else 0
  }

  lemma StepTakesAfterFlag(l: Log, a: Action)
    requires Life(l) && l.stopFlag && a != BeginStart && a != ClearAgain && Next(l, a).Some?
    requires l.controller != Launching
    ensures var r := Next(l, a).value;
            && r.stopFlag && r.controller != Launching
            && r.taken + TakeAfterFlag(r) <= l.taken + TakeAfterFlag(l)
  {
  }

  /** Once the stop flag is up, and until the next Start, at most one more entry is taken off the queue, and none by a
      consumer that has one in hand or has just handled one. */
  lemma {:induction false} AtMostOneTakenAfterFlag(l: Log, actions: seq<Action>)
    requires Life(l) && l.stopFlag && l.controller != Launching
    requires BeginStart !in actions && Exec(Next, l, actions).Some?
    ensures var r := Exec(Next, l, actions).value; r.taken + TakeAfterFlag(r) <= l.taken + TakeAfterFlag(l)
    decreases |actions|
  {
    if actions == [] {
    } else {
      assert actions[0] in actions && forall a :: a in actions[1..] ==> a in actions;
      assert actions[0] != ClearAgain;
      StepTakesAfterFlag(l, actions[0]);
      LifeKept(l, actions[0]);
      AtMostOneTakenAfterFlag(Next(l, actions[0]).value, actions[1..]);
    }
  }

  /** Who stores what: a Start that goes on clears the flag twice, a Stop that goes on and anybody else's raise set it,
      and nothing else touches it. */
  lemma StopFlagIsLastStored(l: Log, a: Action)
    requires Next(l, a).Some?
    ensures var r := Next(l, a).value;
            match a
            case BeginStart => r.stopFlag == (l.stopFlag && l.started)
            case ClearAgain => !r.stopFlag
            case BeginStop => r.stopFlag == (l.stopFlag || l.started)
            case RaiseFlag => r.stopFlag
            case _ => r.stopFlag == l.stopFlag
  {
  }

  /** Start on a started logger and Stop on a stopped one do nothing; whoever raised the flag can close the queue. */
  lemma RepeatedCallsDoNothing(l: Log)
    requires l.controller == Outside
    ensures Next(l, if l.started then BeginStart else BeginStop) == Some(l)
    ensures Next(l, RaiseFlag).Some? && Next(Next(l, RaiseFlag).value, CloseAfterRaise).Some?
  {
  }

  // ---------- after the close ----------

  /** AddLog_ succeeds exactly if the queue is open and holds fewer than 255 entries, and can always be called. */
  lemma AddLogAnswersExactly(l: Log, entry: string)
    requires Reachable(l)
    ensures forall ok :: Next(l, AddLog(entry, ok)).Some? <==> ok == (!l.queue.closed && |l.queue.items| < 255)
    ensures forall ok :: Next(l, AddLog(entry, ok)).Some? ==>
              Next(l, AddLog(entry, ok)).value.accepted == l.accepted + if ok then [entry] else []
  {
    ReachableInv(l);
  }

  /** Entries that the running consumer can still take off the queue once that is closed. */
  function TakeAfterClose(c: Consumer): nat {
    if c == AtWait then 1 else 0
  }

  /** Once the queue is closed the running consumer takes at most one more entry, which it drops; only a new one takes
      another. */
  lemma {:induction false} AtMostOneTakenAfterClose(l: Log, actions: seq<Action>)
    requires l.queue.closed && Launch !in actions && Exec(Next, l, actions).Some?
    ensures var r := Exec(Next, l, actions).value;
            r.taken + TakeAfterClose(r.consumer) <= l.taken + TakeAfterClose(l.consumer)
    decreases |actions|
  {
    if actions == [] {
    } else {
      assert actions[0] in actions && forall a :: a in actions[1..] ==> a in actions;
      StepTakesAfterClose(l, actions[0]);
      AtMostOneTakenAfterClose(Next(l, actions[0]).value, actions[1..]);
    }
  }

  lemma StepTakesAfterClose(l: Log, a: Action)
    requires l.queue.closed && a != Launch && Next(l, a).Some?
    ensures var r := Next(l, a).value;
            r.queue.closed && r.taken + TakeAfterClose(r.consumer) <= l.taken + TakeAfterClose(l.consumer)
  {
  }

  function AfterClose(c: Consumer): nat {
    if c.Handling? then 1 else 0
  }

  lemma StepAfterClose(l: Log, a: Action)
    requires l.queue.closed && Next(l, a).Some?
    ensures var r := Next(l, a).value;
            && r.queue.closed && r.accepted == l.accepted && l.handled <= r.handled
            && |r.handled| + AfterClose(r.consumer) <= |l.handled| + AfterClose(l.consumer)
  {
  }

  /** Once the queue is closed, at most one more entry is ever handled, whatever is restarted, and none is accepted. */
  lemma {:induction false} AtMostOneAfterClose(l: Log, actions: seq<Action>)
    requires l.queue.closed && Exec(Next, l, actions).Some?
    ensures var r := Exec(Next, l, actions).value;
            && r.queue.closed && r.accepted == l.accepted && l.handled <= r.handled
            && |r.handled| + AfterClose(r.consumer) <= |l.handled| + AfterClose(l.consumer)
    decreases |actions|
  {
    if actions == [] {
    } else {
      StepAfterClose(l, actions[0]);
      AtMostOneAfterClose(Next(l, actions[0]).value, actions[1..]);
    }
  }

  /** Stop is for good: after its join nothing is ever accepted or handled again, whatever is restarted. */
  lemma StopIsFinal(l: Log, actions: seq<Action>)
    requires Reachable(l) && Next(l, Join).Some? && Exec(Next, Next(l, Join).value, actions).Some?
    ensures var r := Exec(Next, Next(l, Join).value, actions).value;
            r.accepted == l.accepted && r.handled == l.handled && r.queue.closed
  {
    ReachableInv(l);
    AtMostOneAfterClose(Next(l, Join).value, actions);
  }

  /** Steps until the consumer of a closed queue has left its loop. */
  function ToLeave(c: Consumer): nat {
    match c
    case AtWait => 3
    case FirstFlag(_) => 2
    case FirstClosed(_) => 1
    case Handling(_) => 3
    case SecondFlag => 2
    case SecondClosed => 1
    case _ => 0
  }

  lemma {:induction false} ConsumerCanBeJoined(l: Log) returns (actions: seq<Action>)
    requires Life(l) && l.controller == Joining
    ensures Exec(Next, l, actions).Some?
    ensures var t := Exec(Next, l, actions).value;
            !t.started && t.controller == Outside && t.queue.closed && t.owingClose == l.owingClose
    decreases ToLeave(l.consumer)
  {
    if l.consumer == Left {
      ExecOne(Next, l, Join);
      return [Join];
    }
    var a := StepOf(l.consumer);
    LifeKept(l, a);
    var rest := ConsumerCanBeJoined(Next(l, a).value);
    ExecCons(Next, l, a, rest);
    actions := [a] + rest;
  }

  /** And a Stop can always get there, wherever the consumer is when the flag goes up. */
  lemma StopCanReturn(l: Log) returns (actions: seq<Action>)
    requires Reachable(l) && l.started && l.controller == Outside
    ensures Exec(Next, l, [BeginStop, CloseQueue] + actions).Some?
    ensures var t := Exec(Next, l, [BeginStop, CloseQueue] + actions).value;
            !t.started && t.controller == Outside && t.queue.closed && t.owingClose == l.owingClose
  {
    ReachableInv(l);
    var flagged := Next(l, BeginStop).value;
    LifeKept(l, BeginStop);
    LifeKept(flagged, CloseQueue);
    actions := ConsumerCanBeJoined(Next(flagged, CloseQueue).value);
    ExecCons(Next, flagged, CloseQueue, actions);
    ExecCons(Next, l, BeginStop, [CloseQueue] + actions);
    assert [BeginStop] + ([CloseQueue] + actions) == [BeginStop, CloseQueue] + actions;
  }

  lemma StartRun(l: Log)
    requires l.controller == Outside && !l.started
    ensures Exec(Next, l, [BeginStart, ClearAgain, Launch]) ==
            Some(l.(stopFlag := false, consumer := AtWait, started := true))
  {
    var begun := Next(l, BeginStart).value;
    var cleared := Next(begun, ClearAgain).value;
    ExecOne(Next, cleared, Launch);
    ExecCons(Next, begun, ClearAgain, [Launch]);
    ExecCons(Next, l, BeginStart, [ClearAgain, Launch]);
    assert [BeginStart] + [ClearAgain, Launch] == [BeginStart, ClearAgain, Launch];
  }

  lemma ReachableOn(l: Log, actions: seq<Action>)
    requires Reachable(l) && Exec(Next, l, actions).Some?
    ensures Reachable(Exec(Next, l, actions).value)
  {
    var before :| Exec(Next, INITIAL, before) == Some(l);
    ExecAppend(Next, INITIAL, before, actions);
  }

  // ---------- what Stop loses ----------

  /** All entries accepted so far will be dealt with, even if a Stop begins now: none is queued, none was dropped, and
      none is in the consumer's hand before its second check. */
  predicate Drained(l: Log) {
    !l.dropped && l.queue.items == [] && !l.consumer.FirstFlag? && !l.consumer.FirstClosed?
  }

  /** Unless more is accepted, that stays so. */
  lemma {:induction false} DrainedStays(l: Log, actions: seq<Action>)
    requires Exec(Next, l, actions).Some?
    ensures var r := Exec(Next, l, actions).value;
            |l.accepted| <= |r.accepted| && (Drained(l) && r.accepted == l.accepted ==> Drained(r))
    decreases |actions|
  {
    if actions == [] {
    } else {
      DrainedStep(l, actions[0]);
      DrainedStays(Next(l, actions[0]).value, actions[1..]);
    }
  }

  lemma DrainedStep(l: Log, a: Action)
    requires Next(l, a).Some?
    ensures var r := Next(l, a).value;
            && (r.accepted == l.accepted || |r.accepted| > |l.accepted|)
            && (Drained(l) && r.accepted == l.accepted ==> Drained(r))
  {
  }

  /** How many of the accepted entries will have been dealt with, once the queue is closed. */
  function Final(l: Log): nat {
    l.upTo + AfterClose(l.consumer)
  }

  lemma FinalStep(l: Log, a: Action)
    requires Life(l) && l.queue.closed && Next(l, a).Some?
    ensures Final(Next(l, a).value) == Final(l) && Next(l, a).value.queue.closed
  {
  }

  lemma {:induction false} FinalIsFixed(l: Log, actions: seq<Action>)
    requires Life(l) && l.queue.closed && Exec(Next, l, actions).Some?
    ensures Final(Exec(Next, l, actions).value) == Final(l)
    decreases |actions|
  {
    if actions == [] {
    } else {
      FinalStep(l, actions[0]);
      LifeKept(l, actions[0]);
      FinalIsFixed(Next(l, actions[0]).value, actions[1..]);
    }
  }

  lemma DrainedIff(l: Log)
    requires Entries(l) && Life(l)
    ensures Drained(l) <==> Final(l) == |l.accepted|
  {
  }

  /** Stop to the point where it has closed the queue; nothing else moves. */
  lemma StopToClose(l: Log) returns (actions: seq<Action>)
    requires Life(l) && l.started
    ensures Exec(Next, l, actions).Some?
    ensures var t := Exec(Next, l, actions).value;
            && Life(t) && t.controller == Joining && t.consumer == l.consumer && t.owingClose == l.owingClose
            && t.accepted == l.accepted && t.upTo == l.upTo
  {
    if l.controller == Outside {
      LifeKept(l, BeginStop);
      LifeKept(Next(l, BeginStop).value, CloseQueue);
      ExecOne(Next, Next(l, BeginStop).value, CloseQueue);
      ExecCons(Next, l, BeginStop, [CloseQueue]);
      actions := [BeginStop] + [CloseQueue];
    } else if l.controller == Flagged {
      LifeKept(l, CloseQueue);
      ExecOne(Next, l, CloseQueue);
      actions := [CloseQueue];
    } else {
      actions := [];
    }
  }

  /** A run that ends a Stop with an accepted entry never handed to the handler, and none accepted meanwhile. */
  lemma LosingRun(l: Log) returns (actions: seq<Action>)
    requires Entries(l) && Life(l) && l.started && !Drained(l)
    ensures Exec(Next, l, actions).Some?
    ensures var r := Exec(Next, l, actions).value; !r.started && r.accepted == l.accepted && r.upTo < |l.accepted|
  {
    var close := StopToClose(l);
    var closed := Exec(Next, l, close).value;
    var leave := ConsumerCanBeJoined(closed);
    ExecAppend(Next, l, close, leave);
    FinalIsFixed(closed, leave);
    AtMostOneAfterClose(closed, leave);
    DrainedIff(l);
    actions := close + leave;
  }

  /** What was accepted before is handed to the handler before Stop has ended, however the run goes on without accepting
      more, exactly if the consumer had already caught up with it. */
  lemma StopHandlesAllIff(l: Log)
    requires Reachable(l) && l.started
    ensures
      (forall actions ::
         var r := Exec(Next, l, actions);
         r.Some? && !r.value.started && r.value.accepted == l.accepted ==> r.value.upTo == |l.accepted|)
      <==> Drained(l)
  {
    ReachableInv(l);
    if Drained(l) {
      forall actions | Exec(Next, l, actions).Some?
        ensures var r := Exec(Next, l, actions).value;
                !r.started && r.accepted == l.accepted ==> r.upTo == |l.accepted|
      {
        ReachableOn(l, actions);
        ReachableInv(Exec(Next, l, actions).value);
        DrainedStays(l, actions);
      }
    } else {
      var actions := LosingRun(l);
    }
  }

  /** It happens: one entry is logged, and Stop comes before the consumer looks. */
  lemma StopCanLose(entry: string) returns (l: Log, actions: seq<Action>)
    requires entry != ""
    ensures Reachable(l) && l.started && l.accepted == [entry] && Exec(Next, l, actions).Some?
    ensures var r := Exec(Next, l, actions).value; !r.started && r.accepted == [entry] && r.handled == []
  {
    StartRun(INITIAL);
    var running := INITIAL.(consumer := AtWait, started := true);
    var add := AddLog(entry, true);
    l := Next(running, add).value;
    ExecOne(Next, running, add);
    ReachableOn(running, [add]);
    ReachableInv(l);
    actions := LosingRun(l);
    ReachableOn(l, actions);
    ReachableInv(Exec(Next, l, actions).value);
  }

  // ---------- what Stop leaves ----------

  /** A run after which exactly one more entry has been accepted, and all accepted entries have been handled. */
  ghost predicate Logs(l: Log, entry: string, actions: seq<Action>) {
    var r := Exec(Next, l, actions);
    r.Some? && r.value.accepted == l.accepted + [entry] && r.value.handled == NonEmpty(l.accepted + [entry])
  }

  lemma ClosedIsDeaf(l: Log, entry: string, actions: seq<Action>)
    requires l.queue.closed
    ensures !Logs(l, entry, actions)
  {
    if Exec(Next, l, actions).Some? {
      AtMostOneAfterClose(l, actions);
    }
  }

  lemma StartedCanLog(l: Log, entry: string) returns (actions: seq<Action>)
    requires Entries(l) && Life(l) && l.controller == Outside && !l.queue.closed && l.owingClose == 0 && entry != ""
    ensures Logs(l, entry, actions)
  {
    if l.started {
      actions := LogOneMore(l, entry);
    } else {
      var started := Next(l, BeginStart).value;
      EntriesKept(l, BeginStart);
      LifeKept(l, BeginStart);
      var launch := StartCanFinish(started);
      var log := LogOneMore(Exec(Next, started, launch).value, entry);
      ExecAppend(Next, started, launch, log);
      ExecCons(Next, l, BeginStart, launch + log);
      actions := [BeginStart] + (launch + log);
    }
  }

  /** While no Start or Stop is under way and nobody is about to close the queue, the logger can (be started and) log
      another entry, exactly when its queue is not closed. */
  lemma CanLogIff(l: Log, entry: string)
    requires Reachable(l) && l.controller == Outside && l.owingClose == 0 && entry != ""
    ensures (exists actions :: Logs(l, entry, actions)) <==> !l.queue.closed
  {
    ReachableInv(l);
    if l.queue.closed {
      forall actions { ClosedIsDeaf(l, entry, actions); }
    } else {
      var actions := StartedCanLog(l, entry);
    }
  }

  /** A logger that was started, stopped and started again: its consumer runs, and nothing can be logged. */
  lemma RestartIsDeaf() returns (l: Log)
    ensures Reachable(l) && l.started && l.controller == Outside && l.owingClose == 0 && l.queue.closed
    ensures forall entry, actions :: !Logs(l, entry, actions)
  {
    StartRun(INITIAL);
    l := INITIAL.(consumer := AtWait, started := true);
    var leave := StopCanReturn(l);
    ReachableOn(l, [BeginStop, CloseQueue] + leave);
    l := Exec(Next, l, [BeginStop, CloseQueue] + leave).value;
    StartRun(l);
    ReachableOn(l, [BeginStart, ClearAgain, Launch]);
    l := l.(stopFlag := false, consumer := AtWait, started := true);
    forall entry, actions { ClosedIsDeaf(l, entry, actions); }
  }
}
