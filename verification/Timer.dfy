/** NESESLIB/Timer.hpp: the tick arithmetic and the stop handshake, for one controlling thread.

    One label is one access to a shared variable, or one block under `_mutex`. The interval and the elapsed time are
    the same for every start.
 */
module Timer {
  import opened Runs

  datatype Controller =
    | Free          // outside start and stop
    | Starting      // start stored _expired = false, has not launched the thread yet
    | Asking        // stop read _expired as false
    | Expiring      // stop read _try_to_expire as false
    | Waiting       // stop stored _try_to_expire = true, about to take the mutex and look at _expired
    | Asleep        // stop waits on the condition variable

  datatype Worker =
    | Gone          // no loop runs
    | Checking      // about to read _try_to_expire
    | Sleeping      // in sleep_for
    | Firing        // the counter reached the elapsed time, about to run the callback
    | Resetting     // ran the callback, about to reset the counter
    | Leaving       // left the loop, about to take the mutex

  datatype Timer = Timer(
    interval: int,
    elapsed: int,
    expired: bool,
    tryToExpire: bool,
    counter: int,
    controller: Controller,
    worker: Worker,
    notifying: bool,   // a worker holds the mutex between storing _expired = true and its notify_one
    // History:
    ticks: nat,        // sleeps that ended, over all starts
    fired: nat         // runs of the callback
  )

  datatype Action =
    | Start
    | Launch
    | Stop             // stop reads _expired
    | ReadTry
    | StoreTry
    | LookUnderLock    // the wait predicate: return, or sleep
    | Wake             // spurious
    | Check
    | Tick
    | Fire
    | Reset
    | Expire
    | Notify

  function Next(t: Timer, a: Action): Option<Timer> {
    match a
    case Start =>
      if t.controller == Free then Some(if t.expired then t.(expired := false, controller := Starting) else t) else None
    case Launch =>
      if t.controller == Starting then Some(t.(worker := Checking, controller := Free)) else None
    case Stop =>
      if t.controller == Free then Some(if t.expired then t else t.(controller := Asking)) else None
    case ReadTry =>
      if t.controller == Asking then Some(t.(controller := if t.tryToExpire then Free else Expiring)) else None
    case StoreTry =>
      if t.controller == Expiring then Some(t.(tryToExpire := true, controller := Waiting)) else None
    case LookUnderLock =>
      if t.controller == Waiting && !t.notifying then
        Some(if t.expired then t.(tryToExpire := false, controller := Free) else t.(controller := Asleep))
      else None
    case Wake =>
      if t.controller == Asleep then Some(t.(controller := Waiting)) else None
    case Check =>
      if t.worker == Checking then Some(t.(worker := if t.tryToExpire then Leaving else Sleeping)) else None
    case Tick =>
      if t.worker == Sleeping then
        Some(t.(counter := t.counter + t.interval, ticks := t.ticks + 1,
                worker := if t.counter + t.interval >= t.elapsed then Firing else Checking))
      else None
    case Fire =>
      if t.worker == Firing then Some(t.(fired := t.fired + 1, worker := Resetting)) else None
    case Reset =>
      if t.worker == Resetting then Some(t.(counter := 0, worker := Checking)) else None
    case Expire =>
      if t.worker == Leaving && !t.notifying then Some(t.(expired := true, worker := Gone, notifying := true)) else None
    case Notify =>
      if t.notifying then
        Some(t.(notifying := false, controller := if t.controller == Asleep then Waiting else t.controller))
      else None
  }

  ghost predicate Begin(t: Timer) {
    && t.expired && !t.tryToExpire && t.counter == 0 && t.controller == Free && t.worker == Gone && !t.notifying
    && t.ticks == 0 && t.fired == 0 && t.interval >= 1
  }

  ghost predicate Reachable(t: Timer) {
    exists t0, actions :: Begin(t0) && Exec(Next, t0, actions) == Some(t)
  }

  // ---------- the arithmetic of ticks ----------

  lemma {:induction false} MulMonotone(a: nat, b: nat, k: nat)
    requires a <= b
    ensures a * k <= b * k
  {
    assert b * k - a * k == (b - a) * k;
  }

  lemma QuotientIs(n: nat, k: nat, q: nat, m: nat)
    requires m < k && n == q * k + m
    ensures n / k == q
  {
    var p, r := n / k, n % k;
    assert n == p * k + r;
    assert (p + 1) * k == p * k + k && (q + 1) * k == q * k + k;
    if p < q {
      MulMonotone(p + 1, q, k);
    } else if q < p {
      MulMonotone(q + 1, p, k);
    }
  }

  /** How many ticks the elapsed time takes: the least positive number of intervals that reaches it. */
  function Period(interval: int, elapsed: int): (k: nat)
    requires interval >= 1
    ensures k >= 1
  {
    if elapsed <= interval then 1 else (elapsed + interval - 1) / interval
  }

  lemma PeriodReaches(interval: int, elapsed: int, m: nat)
    requires interval >= 1 && m < Period(interval, elapsed)
    ensures (m + 1) * interval >= elapsed <==> m + 1 == Period(interval, elapsed)
  {
    var k := Period(interval, elapsed);
    if elapsed > interval {
      var s := elapsed + interval - 1;
      assert s == k * interval + s % interval;
      if m + 1 < k {
        MulMonotone(m + 1, k - 1, interval);
        assert (k - 1) * interval == k * interval - interval;
      }
    }
  }

  /** The loop of the timer thread, by itself. */
  class Loop {
    var counter: int

    constructor ()
      ensures counter == 0
    {
      counter := 0;
    }

    /** `iterations` turns until a stop request is seen. `since` is the ticks left over from the starts before, `since'`
        what is left for the starts to come: the callback runs once per full period, none lost or added at a restart. */
    method Run(iterations: nat, interval: int, elapsed: int, ghost since: nat) returns (fired: nat, ghost since': nat)
      requires interval >= 1 && since < Period(interval, elapsed) && counter == since * interval
      modifies this
      ensures since' < Period(interval, elapsed) && counter == since' * interval
      ensures since + iterations == fired * Period(interval, elapsed) + since'
    {
      fired, since' := 0, since;
      for n := 0 to iterations
        invariant since' < Period(interval, elapsed) && counter == since' * interval
        invariant since + n == fired * Period(interval, elapsed) + since'
      {
        PeriodReaches(interval, elapsed, since');
        counter := counter + interval;
        assert counter == (since' + 1) * interval;
        since' := since' + 1;
        if counter >= elapsed {
          ghost var k := Period(interval, elapsed);
          assert (fired + 1) * k == fired * k + k;
          fired := fired + 1;
          counter := 0;
          since' := 0;
        }
      }
    }
  }

  /** Periods completed so far; the last one may not have run its task yet. */
  function Cycles(t: Timer): nat {
    if t.worker == Firing then t.fired + 1 else t.fired
  }

  /** Ticks since the last completed period. */
  function Since(t: Timer): int
    requires t.interval >= 1
  {
    t.ticks - Cycles(t) * Period(t.interval, t.elapsed)
  }

  /** The counter is the ticks of the current period, whichever start they happened in. */
  ghost predicate Arithmetic(t: Timer) {
    && t.interval >= 1
    && 0 <= Since(t) < Period(t.interval, t.elapsed)
    && (if t.worker == Firing || t.worker == Resetting then Since(t) == 0 else t.counter == Since(t) * t.interval)
  }

  /** While the flag says started, one loop exists or is about to; while it says expired, none does. The stop request
      is up only while a stop waits, and a sleeping stop has a notification to come. */
  ghost predicate Handshake(t: Timer) {
    && (t.expired <==> t.worker == Gone && t.controller != Starting)
    && (t.controller == Starting ==> t.worker == Gone)
    && (t.tryToExpire <==> t.controller == Waiting || t.controller == Asleep)
    && (t.controller == Asking || t.controller == Expiring ==> t.worker != Gone)
    && (t.worker == Leaving ==> t.tryToExpire)
    && (t.controller == Asleep && t.expired ==> t.notifying)
  }

  lemma HandshakeKept(t: Timer, a: Action)
    requires Handshake(t) && Next(t, a).Some?
    ensures Handshake(Next(t, a).value)
  {
  }

  lemma TickKeepsArithmetic(t: Timer)
    requires Arithmetic(t) && t.worker == Sleeping
    ensures Arithmetic(Next(t, Tick).value)
  {
    var k, m, t' := Period(t.interval, t.elapsed), Since(t), Next(t, Tick).value;
    PeriodReaches(t.interval, t.elapsed, m);
    assert (m + 1) * t.interval == m * t.interval + t.interval;
    assert (t.fired + 1) * k == t.fired * k + k;
    assert Since(t') == if t'.worker == Firing then 0 else m + 1;
  }

  lemma ArithmeticKept(t: Timer, a: Action)
    requires Arithmetic(t) && Handshake(t) && Next(t, a).Some?
    ensures Arithmetic(Next(t, a).value)
  {
    if a == Tick {
      TickKeepsArithmetic(t);
    } else {
      var t' := Next(t, a).value;
      assert Cycles(t') == Cycles(t);
      assert Since(t') == Since(t);
    }
  }

  lemma ReachableInv(t: Timer)
    requires Reachable(t)
    ensures Arithmetic(t) && Handshake(t)
  {
    var t0, actions :| Begin(t0) && Exec(Next, t0, actions) == Some(t);
    forall s, a | Arithmetic(s) && Handshake(s) && Next(s, a).Some?
      ensures Arithmetic(Next(s, a).value) && Handshake(Next(s, a).value)
    {
      HandshakeKept(s, a);
      ArithmeticKept(s, a);
    }
    InvariantHolds(Next, s => Arithmetic(s) && Handshake(s), t0, actions);
  }

  // ---------- what follows ----------

  /** After any number of ticks, over any starts and stops, the callback has run once per completed period: the ticks
      divided by the period, rounded down, less one only while the run of the last period is still to begin. Outside
      the moments between a last tick and its reset the counter is below the elapsed time. */
  lemma FiringCount(t: Timer)
    requires Reachable(t)
    ensures t.interval >= 1 && Cycles(t) == t.ticks / Period(t.interval, t.elapsed)
    ensures t.worker != Firing && t.worker != Resetting && t.elapsed >= 1 ==> 0 <= t.counter < t.elapsed
  {
    ReachableInv(t);
    var k, m := Period(t.interval, t.elapsed), Since(t);
    QuotientIs(t.ticks, k, Cycles(t), m);
    if t.worker != Firing && t.worker != Resetting && m > 0 {
      PeriodReaches(t.interval, t.elapsed, m - 1);
      MulMonotone(0, m, t.interval);
    }
  }

  /** No stop is left asleep: a sleeping stop still has a loop running, which will see the request, or a worker about to
      notify it; it can also wake for no reason. stop is never refused because another stop is under way. */
  lemma StopIsWoken(t: Timer)
    requires Reachable(t)
    ensures t.controller == Asleep ==> (t.worker != Gone && t.tryToExpire) || t.notifying
    ensures t.controller == Asleep <==> Next(t, Wake).Some?
    ensures t.controller == Asking ==> !t.tryToExpire
    ensures t.controller == Free ==> !t.tryToExpire
  {
    ReachableInv(t);
  }

  // ---------- the callback runs ----------

  predicate Ticking(t: Timer) {
    t.worker != Gone && t.worker != Leaving && !t.tryToExpire
  }

  function LoopStep(w: Worker): Action {
    match w
    case Checking => Check
    case Sleeping => Tick
    case Firing => Fire
    case _ => Reset
  }

  function LoopRank(t: Timer): int
    requires t.interval >= 1
  {
    4 * (Period(t.interval, t.elapsed) - Since(t)) +
    match t.worker
    case Resetting => 2
    case Checking => 1
    case _ => 0
  }

  lemma LoopMovesOn(t: Timer)
    requires Arithmetic(t) && Handshake(t) && Ticking(t) && t.worker != Firing
    ensures Next(t, LoopStep(t.worker)).Some?
    ensures var t' := Next(t, LoopStep(t.worker)).value;
            && Arithmetic(t') && Handshake(t') && Ticking(t') && t'.fired == t.fired
            && (t'.worker == Firing || LoopRank(t') < LoopRank(t))
  {
    var a := LoopStep(t.worker);
    ArithmeticKept(t, a);
    HandshakeKept(t, a);
    var t' := Next(t, a).value;
    if a == Tick && t'.worker != Firing {
      assert Since(t') == Since(t) + 1;
    } else if a != Tick {
      assert Since(t') == Since(t);
    }
  }

  lemma {:induction false} LoopFires(t: Timer) returns (actions: seq<Action>)
    requires Arithmetic(t) && Handshake(t) && Ticking(t)
    ensures Exec(Next, t, actions).Some? && Exec(Next, t, actions).value.fired == t.fired + 1
    decreases t.worker != Firing, LoopRank(t)
  {
    if t.worker == Firing {
      ExecOne(Next, t, Fire);
      return [Fire];
    }
    LoopMovesOn(t);
    var a := LoopStep(t.worker);
    var rest := LoopFires(Next(t, a).value);
    ExecCons(Next, t, a, rest);
    actions := [a] + rest;
  }

  /** start works: from every reachable state outside start and stop in which no loop runs, start leads to one more run
      of the callback. */
  lemma StartLeadsToCallback(t: Timer) returns (actions: seq<Action>)
    requires Reachable(t) && t.controller == Free && t.expired
    ensures Exec(Next, t, [Start, Launch] + actions).Some?
    ensures Exec(Next, t, [Start, Launch] + actions).value.fired == t.fired + 1
  {
    ReachableInv(t);
    var starting := Next(t, Start).value;
    var launched := Next(starting, Launch).value;
    ArithmeticKept(t, Start);
    ArithmeticKept(starting, Launch);
    actions := LoopFires(launched);
    ExecCons(Next, starting, Launch, actions);
    ExecCons(Next, t, Start, [Launch] + actions);
    assert [Start] + ([Launch] + actions) == [Start, Launch] + actions;
  }

  // ---------- stop ----------

  /** What moves a stop that is under way on: its own steps while it has any, then those of the loop. */
  function StopStep(t: Timer): Action {
    if t.controller == Asking then ReadTry
    else if t.controller == Expiring then StoreTry
    else if t.notifying then Notify
    else
      match t.worker
      case Checking => Check
      case Sleeping => Tick
      case Firing => Fire
      case Resetting => Reset
      case Leaving => Expire
      case Gone => LookUnderLock
  }

  function StopRank(t: Timer): nat {
    (match t.controller
     case Asking => 20
     case Expiring => 10
     case Free => 0
     case _ => 1)
    + (match t.worker
       case Sleeping => 7
       case Firing => 6
       case Resetting => 5
       case Checking => 4
       case Leaving => 3
       case Gone => 0)
    + if t.notifying then 2 else 0
  }

  predicate Stops(t: Timer) {
    t.controller == Asking || t.controller == Expiring || t.controller == Waiting || t.controller == Asleep
  }

  lemma StopMovesOn(t: Timer)
    requires Handshake(t) && Stops(t)
    ensures Next(t, StopStep(t)).Some?
    ensures var t' := Next(t, StopStep(t)).value;
            Handshake(t') && StopRank(t') < StopRank(t) && (Stops(t') || (t'.controller == Free && t'.worker == Gone))
  {
  }

  lemma {:induction false} StopRun(t: Timer) returns (actions: seq<Action>)
    requires Handshake(t) && Stops(t)
    ensures Wake !in actions && Exec(Next, t, actions).Some?
    ensures var t' := Exec(Next, t, actions).value; t'.controller == Free && t'.worker == Gone
    decreases StopRank(t)
  {
    StopMovesOn(t);
    var a := StopStep(t);
    var t' := Next(t, a).value;
    if t'.controller == Free {
      ExecOne(Next, t, a);
      return [a];
    }
    var rest := StopRun(t');
    ExecCons(Next, t, a, rest);
    actions := [a] + rest;
  }

  /** A stop can return: from every reachable state in which it is past its first look, the loop can end, and stop with
      it, without a spurious wake-up. */
  lemma StopCanReturn(t: Timer) returns (actions: seq<Action>)
    requires Reachable(t) && Stops(t)
    ensures Wake !in actions && Exec(Next, t, actions).Some?
    ensures var t' := Exec(Next, t, actions).value; t'.controller == Free && t'.worker == Gone
  {
    ReachableInv(t);
    actions := StopRun(t);
  }

  /** start on a started timer and stop on an expired one do nothing. */
  lemma RepeatedCallsDoNothing(t: Timer)
    requires t.controller == Free
    ensures Next(t, if t.expired then Stop else Start) == Some(t)
  {
  }

  /** At most one loop: a thread is launched only when no loop runs, so a second loop never starts. */
  lemma OneLoopAtATime(t: Timer)
    requires Reachable(t) && Next(t, Launch).Some?
    ensures t.worker == Gone
  {
    ReachableInv(t);
  }

  predicate Stopped(t: Timer) {
    t.worker == Gone && t.expired && t.controller == Free && !t.tryToExpire
  }

  lemma {:induction false} StoppedStays(t: Timer, actions: seq<Action>)
    requires Stopped(t) && Start !in actions && Exec(Next, t, actions).Some?
    ensures Stopped(Exec(Next, t, actions).value) && Exec(Next, t, actions).value.fired == t.fired
    ensures Exec(Next, t, actions).value.ticks == t.ticks
    decreases |actions|
  {
    if actions == [] {
    } else {
      assert actions[0] in actions;
      StoppedStays(Next(t, actions[0]).value, actions[1..]);
    }
  }

  /** When stop returns, by either of its ways out, no loop runs, and until the next start the callback does not run. */
  lemma NothingRunsAfterStop(t: Timer, a: Action, actions: seq<Action>)
    requires Reachable(t) && (a == Stop || a == LookUnderLock)
    requires Next(t, a).Some? && Next(t, a).value.controller == Free
    requires Start !in actions && Exec(Next, Next(t, a).value, actions).Some?
    ensures Next(t, a).value.worker == Gone
    ensures Exec(Next, Next(t, a).value, actions).value.fired == t.fired
  {
    ReachableInv(t);
    StoppedStays(Next(t, a).value, actions);
  }
}
