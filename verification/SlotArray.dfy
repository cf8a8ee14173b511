/** NESESLIB/QueueSlot.hpp: an array of pointer slots shared by any number of setters, clearers and consumers.

    A pointer is a number, 0 the null pointer. Every store, load and compare-exchange is one label; try_consume is a
    load and a later compare-exchange, between which the slot may be cleared, consumed, or set again, even to the same
    pointer.
 */
module SlotArray {
  import opened Runs

  type Pointer = nat

  /** One slot, with its history: every pointer set so far, and which of those sets were consumed. */
  datatype Slot = Slot(ptr: Pointer, sets: seq<Pointer>, consumed: seq<int>)

  datatype Thread = Idle | Loaded(key: int, expected: Pointer)

  datatype Array = Array(slots: seq<Slot>, threads: seq<Thread>)

  datatype Action =
    | Set(t: nat, key: int, value: Pointer, ok: bool)
    | Clear(t: nat, key: int)
    | Peek(t: nat, key: int, seen: Option<Pointer>)
    | Load(t: nat, key: int)                                     // try_consume begins
    | CompareExchange(t: nat, key: int, result: Option<Pointer>)   // try_consume returns

  predicate ValidKey(a: Array, key: int) {
    0 <= key < |a.slots|
  }

  function Stored(s: Slot, value: Pointer): Slot {
    if value == 0 then s.(ptr := 0) else s.(ptr := value, sets := s.sets + [value])
  }

  function Consumed(s: Slot): Slot {
    s.(ptr := 0, consumed := s.consumed + [|s.sets| - 1])
  }

  function Next(a: Array, act: Action): Option<Array> {
    if act.t >= |a.threads| then Option.None
    else
      var p := a.threads[act.t];
      match act
      case Set(t, key, value, ok) =>
        if p == Idle && ok == (ValidKey(a, key) && value != 0) then
          Some(if ok then a.(slots := a.slots[key := Stored(a.slots[key], value)]) else a)
        else Option.None
      case Clear(t, key) =>
        if p == Idle then
          Some(if ValidKey(a, key) then a.(slots := a.slots[key := Stored(a.slots[key], 0)]) else a)
        else Option.None
      case Peek(t, key, seen) =>
        if p == Idle
           && seen == (if ValidKey(a, key) && a.slots[key].ptr != 0 then Some(a.slots[key].ptr) else Option.None)
        then Some(a) else Option.None
      case Load(t, key) =>
        if p == Idle then
          // an invalid key or a null slot: try_consume returns nullopt at once
          Some(if ValidKey(a, key) && a.slots[key].ptr != 0
               then a.(threads := a.threads[t := Loaded(key, a.slots[key].ptr)]) else a)
        else Option.None
      case CompareExchange(t, key, result) =>
        if p.Loaded? && p.key == key && ValidKey(a, key) then
          // compare_exchange_strong succeeds exactly when the slot holds the expected pointer, again or still
          var free := a.(threads := a.threads[t := Idle]);
          if a.slots[key].ptr == p.expected then
            if result == Some(p.expected) then Some(free.(slots := a.slots[key := Consumed(a.slots[key])]))
            else Option.None
          else if result == Option.None then Some(free)
          else Option.None
        else Option.None
  }

  ghost predicate Start(a: Array) {
    && (forall k :: 0 <= k < |a.slots| ==> a.slots[k] == Slot(0, [], []))
    && (forall t :: 0 <= t < |a.threads| ==> a.threads[t] == Idle)
  }

  ghost predicate Reachable(a: Array) {
    exists a0, actions :: Start(a0) && Exec(Next, a0, actions) == Some(a)
  }

  /** A slot that is not null holds its latest set, and that set has not been consumed. */
  ghost predicate SlotInv(s: Slot) {
    && (forall i :: 0 <= i < |s.sets| ==> s.sets[i] != 0)
    && (forall i :: 0 <= i < |s.consumed| ==> 0 <= s.consumed[i] < |s.sets|)
    && (forall i, j :: 0 <= i < j < |s.consumed| ==> s.consumed[i] < s.consumed[j])
    && (s.ptr != 0 ==> s.sets != [] && s.ptr == s.sets[|s.sets| - 1] && |s.sets| - 1 !in s.consumed)
  }

  ghost predicate Inv(a: Array) {
    && (forall k :: 0 <= k < |a.slots| ==> SlotInv(a.slots[k]))
    && (forall t :: 0 <= t < |a.threads| && a.threads[t].Loaded? ==>
          ValidKey(a, a.threads[t].key) && a.threads[t].expected != 0)
  }

  lemma ConsumeKeepsInv(s: Slot)
    requires SlotInv(s) && s.ptr != 0
    ensures SlotInv(Consumed(s))
  {
  }

  lemma InvKept(a: Array, act: Action)
    requires Inv(a) && Next(a, act).Some?
    ensures Inv(Next(a, act).value)
  {
    if act.CompareExchange? && act.result.Some? {
      ConsumeKeepsInv(a.slots[act.key]);
    }
  }

  lemma InvAlongRuns(a: Array, actions: seq<Action>)
    requires Inv(a) && Exec(Next, a, actions).Some?
    ensures Inv(Exec(Next, a, actions).value)
  {
    forall b, act | Inv(b) && Next(b, act).Some? ensures Inv(Next(b, act).value) {
      InvKept(b, act);
    }
    InvariantHolds(Next, b => Inv(b), a, actions);
  }

  // ---------- the array, in place ----------

  /** The source's array of atomics; one method is one call that no other thread interrupts, except that a consume is
      split where others can come in between. */
  class LockFreeSignedSlotArray {
    const slots: array<Pointer>

    constructor (range: nat)
      ensures fresh(slots) && slots.Length == range + 1 && forall k :: 0 <= k < slots.Length ==> slots[k] == 0
    {
      slots := new Pointer[range + 1](_ => 0);
    }

    /** These slots are the current pointers of `a`. */
    ghost predicate Shows(a: Array)
      reads slots
    {
      |a.slots| == slots.Length && forall k :: 0 <= k < slots.Length ==> slots[k] == a.slots[k].ptr
    }

    method SetKey(key: int, value: Pointer, ghost a: Array, ghost t: nat) returns (ok: bool)
      requires Shows(a) && t < |a.threads| && a.threads[t] == Idle
      modifies slots
      ensures ok <==> 0 <= key < slots.Length && value != 0
      ensures slots[..] == if ok then old(slots[..])[key := value] else old(slots[..])
      ensures Next(a, Set(t, key, value, ok)).Some? && Shows(Next(a, Set(t, key, value, ok)).value)
    {
      if !(0 <= key < slots.Length) {
        return false;
      }
      if value == 0 {
        return false;
      }
      slots[key] := value;
      return true;
    }

    method ClearKey(key: int, ghost a: Array, ghost t: nat)
      requires Shows(a) && t < |a.threads| && a.threads[t] == Idle
      modifies slots
      ensures slots[..] == if 0 <= key < slots.Length then old(slots[..])[key := 0] else old(slots[..])
      ensures Next(a, Clear(t, key)).Some? && Shows(Next(a, Clear(t, key)).value)
    {
      if 0 <= key < slots.Length {
        slots[key] := 0;
      }
    }

    method PeekKey(key: int, ghost a: Array, ghost t: nat) returns (r: Option<Pointer>)
      requires Shows(a) && t < |a.threads| && a.threads[t] == Idle
      ensures r == if 0 <= key < slots.Length && slots[key] != 0 then Some(slots[key]) else Option.None
      ensures Next(a, Peek(t, key, r)) == Some(a)
    {
      if !(0 <= key < slots.Length) {
        return Option.None;
      }
      r := if slots[key] != 0 then Some(slots[key]) else Option.None;
    }

    /** The first half of try_consume: the pointer it will expect, or None when it returns nullopt at once. */
    method LoadKey(key: int, ghost a: Array, ghost t: nat) returns (expected: Option<Pointer>)
      requires Shows(a) && t < |a.threads| && a.threads[t] == Idle
      ensures expected == if 0 <= key < slots.Length && slots[key] != 0 then Some(slots[key]) else Option.None
      ensures Next(a, Load(t, key)).Some?
      ensures Next(a, Load(t, key)).value.threads[t] ==
              if expected.Some? then Loaded(key, expected.value) else Idle
    {
      if !(0 <= key < slots.Length) {
        return Option.None;
      }
      var p := slots[key];
      expected := if p != 0 then Some(p) else Option.None;
    }

    /** The second half of try_consume, whatever happened to the slot since the first. */
    method CompareExchangeKey(key: int, expected: Pointer, ghost a: Array, ghost t: nat) returns (r: Option<Pointer>)
      requires Shows(a) && t < |a.threads| && a.threads[t] == Loaded(key, expected) && ValidKey(a, key)
      modifies slots
      ensures r == if old(slots[key]) == expected then Some(expected) else Option.None
      ensures slots[..] == if r.Some? then old(slots[..])[key := 0] else old(slots[..])
      ensures Next(a, CompareExchange(t, key, r)).Some? && Shows(Next(a, CompareExchange(t, key, r)).value)
    {
      if slots[key] == expected {
        slots[key] := 0;
        return Some(expected);
      }
      return Option.None;
    }
  }

  // ---------- what consumers get ----------

  /** The pointers that successful calls of set stored under `key`, in order. */
  function SetsOf(actions: seq<Action>, key: int): seq<Pointer> {
    if actions == [] then [] else SetBy(actions[0], key) + SetsOf(actions[1..], key)
  }

  function SetBy(act: Action, key: int): seq<Pointer> {
    if act.Set? && act.key == key && act.ok then [act.value] else []
  }

  /** The pointers that successful calls of try_consume returned for `key`, in order. */
  function ConsumedOf(actions: seq<Action>, key: int): seq<Pointer> {
    if actions == [] then [] else ConsumedBy(actions[0], key) + ConsumedOf(actions[1..], key)
  }

  function ConsumedBy(act: Action, key: int): seq<Pointer> {
    if act.CompareExchange? && act.key == key && act.result.Some? then [act.result.value] else []
  }

  /** For each successful try_consume of `key`, which set of the key was the latest one before it; `before` sets came
      before `actions`. */
  function LatestSets(actions: seq<Action>, key: int, before: nat): seq<int> {
    if actions == [] then []
    else LatestSet(actions[0], key, before) + LatestSets(actions[1..], key, before + |SetBy(actions[0], key)|)
  }

  function LatestSet(act: Action, key: int, before: nat): seq<int> {
    if ConsumedBy(act, key) != [] then [before - 1] else []
  }

  ghost predicate Increasing(index: seq<int>, bound: nat) {
    && (forall i :: 0 <= i < |index| ==> 0 <= index[i] < bound)
    && (forall i, j :: 0 <= i < j < |index| ==> index[i] < index[j])
  }

  /** `xs` are the elements of `ys` at the positions `index`. */
  ghost predicate Picks(xs: seq<Pointer>, ys: seq<Pointer>, index: seq<int>) {
    Increasing(index, |ys|) && |xs| == |index| && forall i :: 0 <= i < |xs| ==> xs[i] == ys[index[i]]
  }

  /** The history of one slot: `got` is what was consumed from it so far. */
  ghost predicate Recorded(s: Slot, got: seq<Pointer>) {
    SlotInv(s) && Picks(got, s.sets, s.consumed)
  }

  lemma OneSlotChanges(a: Array, act: Action, key: nat)
    requires Inv(a) && Next(a, act).Some? && key < |a.slots|
    ensures Inv(Next(a, act).value) && |Next(a, act).value.slots| == |a.slots|
    ensures var s, s' := a.slots[key], Next(a, act).value.slots[key];
            if SetBy(act, key) != [] then act.value != 0 && ConsumedBy(act, key) == [] && s' == Stored(s, act.value)
            else if ConsumedBy(act, key) != [] then s.ptr != 0 && s.ptr == act.result.value && s' == Consumed(s)
            else s' == s || s' == Stored(s, 0)
  {
    InvKept(a, act);
  }

  lemma StepIsRecorded(a: Array, act: Action, key: nat, got: seq<Pointer>)
    requires Inv(a) && Next(a, act).Some? && key < |a.slots| && Recorded(a.slots[key], got)
    ensures Inv(Next(a, act).value) && |Next(a, act).value.slots| == |a.slots|
    ensures var s' := Next(a, act).value.slots[key];
            && s'.sets == a.slots[key].sets + SetBy(act, key) && Recorded(s', got + ConsumedBy(act, key))
  {
    OneSlotChanges(a, act, key);
    var s, s' := a.slots[key], Next(a, act).value.slots[key];
    assert SlotInv(s');
    if ConsumedBy(act, key) == [] {
      assert got + ConsumedBy(act, key) == got;
    }
  }

  lemma {:induction false} HistoryOfRun(a: Array, actions: seq<Action>, key: nat, got: seq<Pointer>)
    requires Inv(a) && Exec(Next, a, actions).Some? && key < |a.slots| && Recorded(a.slots[key], got)
    ensures var s := Exec(Next, a, actions).value.slots;
            && |s| == |a.slots| && s[key].sets == a.slots[key].sets + SetsOf(actions, key)
            && Recorded(s[key], got + ConsumedOf(actions, key))
    decreases |actions|
  {
    if actions == [] {
      assert got + [] == got && a.slots[key].sets + [] == a.slots[key].sets;
    } else {
      var act := actions[0];
      StepIsRecorded(a, act, key, got);
      HistoryOfRun(Next(a, act).value, actions[1..], key, got + ConsumedBy(act, key));
      ConcatAssociates(a.slots[key].sets, SetBy(act, key), SetsOf(actions[1..], key));
      ConcatAssociates(got, ConsumedBy(act, key), ConsumedOf(actions[1..], key));
    }
  }

  /** `n` sets of `key` so far, of which those at `was` were consumed. */
  ghost predicate Counted(a: Array, key: nat, n: nat, was: seq<int>) {
    key < |a.slots| && |a.slots[key].sets| == n && a.slots[key].consumed == was
  }

  lemma StepConsumesLatest(a: Array, act: Action, key: nat, n: nat, was: seq<int>) returns (b: Array)
    requires Inv(a) && Next(a, act).Some? && Counted(a, key, n, was)
    ensures Next(a, act) == Some(b) && Inv(b) && |b.slots| == |a.slots|
    ensures Counted(b, key, n + |SetBy(act, key)|, was + LatestSet(act, key, n))
  {
    OneSlotChanges(a, act, key);
    b := Next(a, act).value;
  }

  lemma LatestSetsCons(act: Action, rest: seq<Action>, key: int, n: nat, was: seq<int>)
    ensures was + LatestSets([act] + rest, key, n) ==
            (was + LatestSet(act, key, n)) + LatestSets(rest, key, n + |SetBy(act, key)|)
  {
    assert ([act] + rest)[1..] == rest;
  }

  lemma {:induction false} RunConsumesLatest(a: Array, actions: seq<Action>, key: nat, n: nat, was: seq<int>)
    returns (now: nat)
    requires Inv(a) && Exec(Next, a, actions).Some? && Counted(a, key, n, was)
    ensures Counted(Exec(Next, a, actions).value, key, now, was + LatestSets(actions, key, n))
    decreases |actions|
  {
    if actions == [] {
      assert was + [] == was;
      return n;
    }
    var act, rest := actions[0], actions[1..];
    var b := StepConsumesLatest(a, act, key, n, was);
    now := RunConsumesLatest(b, rest, key, n + |SetBy(act, key)|, was + LatestSet(act, key, n));
    LatestSetsCons(act, rest, key, n, was);
    assert [act] + rest == actions;
  }

  lemma StartIsRecorded(a0: Array, key: nat)
    requires Start(a0) && key < |a0.slots|
    ensures Inv(a0) && Recorded(a0.slots[key], []) && Counted(a0, key, 0, []) && a0.slots[key].sets == []
  {
  }

  lemma EmptyFront<T>(s: seq<T>)
    ensures [] + s == s
  {
  }

  /** What a run from the start leaves in a slot is what its sets and consumes say. */
  lemma HistoryFromStart(a0: Array, actions: seq<Action>, key: nat)
    requires Start(a0) && Exec(Next, a0, actions).Some? && key < |a0.slots|
    ensures var s := Exec(Next, a0, actions).value.slots;
            && |s| == |a0.slots| && s[key].sets == SetsOf(actions, key)
            && Recorded(s[key], ConsumedOf(actions, key)) && s[key].consumed == LatestSets(actions, key, 0)
  {
    StartIsRecorded(a0, key);
    HistoryOfRun(a0, actions, key, []);
    var now := RunConsumesLatest(a0, actions, key, 0, []);
    EmptyFront(ConsumedOf(actions, key));
    EmptyFront(SetsOf(actions, key));
    EmptyFront(LatestSets(actions, key, 0));
  }

  /** For every key and every interleaving: each consume returned the latest set before it, and no set was consumed
      twice, so the pointers consumed are some of the pointers set, in the order they were set. */
  lemma ConsumesPickFromSets(a0: Array, actions: seq<Action>, key: nat)
    requires Start(a0) && Exec(Next, a0, actions).Some? && key < |a0.slots|
    ensures Picks(ConsumedOf(actions, key), SetsOf(actions, key), LatestSets(actions, key, 0))
  {
    HistoryFromStart(a0, actions, key);
  }

  /** A successful consume returns the latest pointer set under its key. */
  lemma ConsumeReturnsLatestSet(a0: Array, actions: seq<Action>, act: Action, key: nat)
    requires Start(a0) && Exec(Next, a0, actions).Some? && key < |a0.slots|
    requires Next(Exec(Next, a0, actions).value, act).Some? && ConsumedBy(act, key) != []
    ensures var sets := SetsOf(actions, key); sets != [] && ConsumedBy(act, key) == [sets[|sets| - 1]]
  {
    HistoryFromStart(a0, actions, key);
    InvAlongRuns(a0, actions);
    OneSlotChanges(Exec(Next, a0, actions).value, act, key);
  }

  lemma {:induction false} StaysNullUnlessSet(a: Array, actions: seq<Action>, key: nat)
    requires Inv(a) && Exec(Next, a, actions).Some? && key < |a.slots| && a.slots[key].ptr == 0
    requires SetsOf(actions, key) == []
    ensures var s := Exec(Next, a, actions).value.slots; |s| == |a.slots| && s[key].ptr == 0
    decreases |actions|
  {
    if actions == [] {
    } else {
      InvKept(a, actions[0]);
      assert SetBy(actions[0], key) == [];
      StaysNullUnlessSet(Next(a, actions[0]).value, actions[1..], key);
    }
  }

  lemma ConsumeLeavesNull(a: Array, act: Action, key: nat) returns (b: Array)
    requires Inv(a) && Next(a, act).Some? && key < |a.slots| && ConsumedBy(act, key) != []
    ensures Next(a, act) == Some(b) && Inv(b) && |b.slots| == |a.slots| && b.slots[key].ptr == 0
  {
    OneSlotChanges(a, act, key);
    b := Next(a, act).value;
  }

  lemma ConsumeNeedsPointer(a: Array, act: Action, key: nat)
    requires Inv(a) && Next(a, act).Some? && ConsumedBy(act, key) != []
    ensures key < |a.slots| ==> a.slots[key].ptr != 0
  {
    if key < |a.slots| {
      OneSlotChanges(a, act, key);
    }
  }

  /** Between two successful consumes of a key there is a successful set of that key. */
  lemma SetBetweenConsumes(a: Array, first: Action, between: seq<Action>, second: Action, key: nat)
    requires Reachable(a) && key < |a.slots|
    requires ConsumedBy(first, key) != [] && ConsumedBy(second, key) != []
    requires Next(a, first).Some?
    requires Exec(Next, Next(a, first).value, between).Some?
    requires Next(Exec(Next, Next(a, first).value, between).value, second).Some?
    ensures SetsOf(between, key) != []
  {
    var a0, actions :| Start(a0) && Exec(Next, a0, actions) == Some(a);
    InvAlongRuns(a0, actions);
    var b := ConsumeLeavesNull(a, first, key);
    InvAlongRuns(b, between);
    ConsumeNeedsPointer(Exec(Next, b, between).value, second, key);
    if SetsOf(between, key) == [] {
      StaysNullUnlessSet(b, between, key);
    }
  }

  // ---------- what a key holds ----------

  /** What the last successful set, clear or consume of `key` left there: the pointer set, or null. */
  function Held(actions: seq<Action>, key: nat, before: Pointer): Pointer {
    if actions == [] then before else Held(actions[1..], key, HeldAfter(actions[0], key, before))
  }

  function HeldAfter(act: Action, key: nat, before: Pointer): Pointer {
    match act
    case Set(_, k, value, ok) => if k == key && ok then value else before
    case Clear(_, k) => if k == key then 0 else before
    case CompareExchange(_, k, result) => if k == key && result.Some? then 0 else before
    case _ => before
  }

  lemma StepHolds(a: Array, act: Action, key: nat)
    requires key < |a.slots| && Next(a, act).Some?
    ensures |Next(a, act).value.slots| == |a.slots| && |Next(a, act).value.threads| == |a.threads|
    ensures Next(a, act).value.slots[key].ptr == HeldAfter(act, key, a.slots[key].ptr)
  {
  }

  /** In every run each slot holds what the labels say. */
  lemma {:induction false} SlotHoldsLast(a: Array, actions: seq<Action>, key: nat)
    requires key < |a.slots| && Exec(Next, a, actions).Some?
    ensures var b := Exec(Next, a, actions).value;
            && |b.slots| == |a.slots| && |b.threads| == |a.threads|
            && b.slots[key].ptr == Held(actions, key, a.slots[key].ptr)
    decreases |actions|
  {
    if actions == [] {
    } else {
      StepHolds(a, actions[0], key);
      SlotHoldsLast(Next(a, actions[0]).value, actions[1..], key);
    }
  }

  /** try_consume by a thread that nobody interrupts: it gets the pointer and leaves null, or comes back at once. */
  ghost predicate Consumes(a: Array, t: nat, key: nat, v: Pointer) {
    var r := Exec(Next, a, [Load(t, key)] + [CompareExchange(t, key, Some(v))]);
    && r.Some? && key < |r.value.slots| && r.value.slots[key].ptr == 0
    && t < |r.value.threads| && r.value.threads[t] == Idle
  }

  /** What try_consume and peek find after any run from the start: the pointer set last under the key, if nobody has
      cleared or consumed it since, and nothing otherwise. */
  lemma FindsWhatWasSet(a0: Array, actions: seq<Action>, t: nat, key: nat)
    requires Start(a0) && Exec(Next, a0, actions).Some? && t < |a0.threads|
    requires t < |Exec(Next, a0, actions).value.threads| && Exec(Next, a0, actions).value.threads[t] == Idle
    ensures var a, v := Exec(Next, a0, actions).value, Held(actions, key, 0);
            if key < |a0.slots| && v != 0 then
              Consumes(a, t, key, v) && (forall seen :: Next(a, Peek(t, key, seen)).Some? <==> seen == Some(v))
            else
              Next(a, Load(t, key)) == Some(a)
              && (forall seen :: Next(a, Peek(t, key, seen)).Some? <==> seen == Option.None)
  {
    var a := Exec(Next, a0, actions).value;
    SlotsStay(a0, actions);
    if key < |a0.slots| {
      SlotHoldsLast(a0, actions, key);
      var v := a.slots[key].ptr;
      if v != 0 {
        var loaded := Next(a, Load(t, key)).value;
        ExecOne(Next, loaded, CompareExchange(t, key, Some(v)));
        ExecCons(Next, a, Load(t, key), [CompareExchange(t, key, Some(v))]);
      }
    }
  }

  lemma {:induction false} SlotsStay(a: Array, actions: seq<Action>)
    requires Exec(Next, a, actions).Some?
    ensures |Exec(Next, a, actions).value.slots| == |a.slots|
    decreases |actions|
  {
    if actions == [] {
    } else {
      SlotsStay(Next(a, actions[0]).value, actions[1..]);
    }
  }

  /** A set can always be made by an idle thread, and succeeds exactly for a valid key and a pointer that is not
      null. */
  lemma SetAnswersExactly(a: Array, t: nat, key: int, value: Pointer)
    requires t < |a.threads| && a.threads[t] == Idle
    ensures forall ok :: Next(a, Set(t, key, value, ok)).Some? <==> ok == (0 <= key < |a.slots| && value != 0)
    ensures Next(a, Clear(t, key)).Some?
  {
  }

  /** A compare-exchange can always follow a load, and succeeds exactly if the slot holds the pointer loaded. */
  lemma ConsumeSucceedsIff(a: Array, t: nat)
    requires Inv(a) && t < |a.threads| && a.threads[t].Loaded?
    ensures var key, expected := a.threads[t].key, a.threads[t].expected;
            0 <= key < |a.slots|
            && forall r :: Next(a, CompareExchange(t, key, r)).Some? <==>
                 r == if a.slots[key].ptr == expected then Some(expected) else Option.None
  {
  }
}
