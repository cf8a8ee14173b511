/** NESESLIB/QueueFifoSPSC.hpp with one producer and one consumer that interleave at every load and store.

    A side may read a value of the other side's index that has since been replaced: a load returns the index as it was
    after any number of the other side's stores between the last one this side saw and the latest. What orders the
    accesses to the slots is then not the current index but what each side has seen, and that is what is proved.
 */
module SpscProtocol {
  import opened Runs
  import opened SpscRing

  datatype Producer<T> =
    | PIdle
    | PLoaded(item: T)   // push loaded head_
    | PRoom(item: T)     // push loaded tail_ and found a free slot, about to write it
    | PWrote(item: T)    // push wrote the slot, about to store head_

  datatype Consumer<T> =
    | CIdle
    | CLoaded            // pop loaded tail_
    | CFound             // pop loaded head_ and found an item, about to read its slot
    | CRead(item: T)     // pop read the slot, about to store tail_

  datatype Ring<T> = Ring(
    buffer: seq<T>,      // capacity + 1 slots
    head: nat,
    tail: nat,
    producer: Producer<T>,
    consumer: Consumer<T>,
    // History, read by the loads only to say how stale they are:
    pushed: seq<T>,      // items whose head_ store happened
    popped: seq<T>,      // items whose tail_ store happened
    tailSeen: nat,       // how many of the tail_ stores the producer has seen
    headSeen: nat        // how many of the head_ stores the consumer has seen
  )

  datatype Action<T> =
    | LoadHead(item: T)             // push begins
    | LoadTail(stores: nat)         // push reads tail_ as it was after `stores` pops
    | WriteSlot
    | StoreHead
    | LoadOwnTail                   // pop begins
    | LoadOtherHead(stores: nat)    // pop reads head_ as it was after `stores` pushes
    | ReadSlot
    | StoreTail

  /** What an index holds after `stores` increments from 0. */
  function IndexAfter(stores: nat, size: nat): (r: nat)
    requires size > 0
    ensures r < size
  {
    if stores == 0 then 0 else Increment(IndexAfter(stores - 1, size), size)
  }

  function Next<T>(r: Ring<T>, a: Action<T>): Option<Ring<T>> {
    var n := |r.buffer|;
    if r.head >= n || r.tail >= n then None
    else
      match a
      case LoadHead(item) => if r.producer == PIdle then Some(r.(producer := PLoaded(item))) else None
      case LoadTail(stores) =>
        if r.producer.PLoaded? && r.tailSeen <= stores <= |r.popped| then
          Some(r.(tailSeen := stores,
                  producer := if Increment(r.head, n) == IndexAfter(stores, n) then PIdle else PRoom(r.producer.item)))
        else None
      case WriteSlot =>
        if r.producer.PRoom? then
          Some(r.(buffer := r.buffer[r.head := r.producer.item], producer := PWrote(r.producer.item)))
        else None
      case StoreHead =>
        if r.producer.PWrote? then
          Some(r.(head := Increment(r.head, n), pushed := r.pushed + [r.producer.item], producer := PIdle))
        else None
      case LoadOwnTail => if r.consumer == CIdle then Some(r.(consumer := CLoaded)) else None
      case LoadOtherHead(stores) =>
        if r.consumer == CLoaded && r.headSeen <= stores <= |r.pushed| then
          Some(r.(headSeen := stores, consumer := if r.tail == IndexAfter(stores, n) then CIdle else CFound))
        else None
      case ReadSlot => if r.consumer == CFound then Some(r.(consumer := CRead(r.buffer[r.tail]))) else None
      case StoreTail =>
        if r.consumer.CRead? then
          Some(r.(tail := Increment(r.tail, n), popped := r.popped + [r.consumer.item], consumer := CIdle))
        else None
  }

  ghost predicate Start<T>(r: Ring<T>) {
    && |r.buffer| >= 1 && r.head == 0 && r.tail == 0 && r.producer == PIdle && r.consumer == CIdle
    && r.pushed == [] && r.popped == [] && r.tailSeen == 0 && r.headSeen == 0
  }

  ghost predicate Reachable<T(!new)>(r: Ring<T>) {
    exists r0: Ring<T>, actions: seq<Action<T>> :: Start(r0) && Exec(Next, r0, actions) == Some(r)
  }

  // ---------- indices and counts ----------

  /** Two counts less than a round apart give the same index only if they are equal. */
  lemma {:induction false} IndexAfterMore(k: nat, d: nat, n: nat)
    requires 0 < n && d <= n
    ensures IndexAfter(k + d, n) == if IndexAfter(k, n) + d < n then IndexAfter(k, n) + d else IndexAfter(k, n) + d - n
    decreases d
  {
    if d > 0 {
      IndexAfterMore(k, d - 1, n);
    }
  }

  ghost predicate Counts<T>(r: Ring<T>) {
    var n := |r.buffer|;
    && n >= 1 && r.head == IndexAfter(|r.pushed|, n) && r.tail == IndexAfter(|r.popped|, n)
    && r.tailSeen <= |r.popped| <= r.headSeen <= |r.pushed| < r.tailSeen + n
    && (r.producer.PRoom? || r.producer.PWrote? ==> |r.pushed| + 1 < r.tailSeen + n)
    && (r.consumer == CFound || r.consumer.CRead? ==> |r.popped| < r.headSeen)
  }

  ghost predicate Data<T>(r: Ring<T>)
    requires Counts(r)
  {
    && r.popped <= r.pushed
    && (forall i :: |r.popped| <= i < |r.pushed| ==> r.buffer[IndexAfter(i, |r.buffer|)] == r.pushed[i])
    && (r.producer.PWrote? ==> r.buffer[r.head] == r.producer.item)
    && (r.consumer.CRead? ==> r.consumer.item == r.pushed[|r.popped|])
  }

  lemma CountsKeptByLoad<T>(r: Ring<T>, a: Action<T>)
    requires Counts(r) && Next(r, a).Some? && (a.LoadTail? || a.LoadOtherHead?)
    ensures Counts(Next(r, a).value)
  {
    if a.LoadTail? {
      IndexAfterMore(a.stores, |r.pushed| - a.stores, |r.buffer|);
    } else {
      IndexAfterMore(|r.popped|, a.stores - |r.popped|, |r.buffer|);
    }
  }

  lemma CountsKept<T>(r: Ring<T>, a: Action<T>)
    requires Counts(r) && Next(r, a).Some?
    ensures Counts(Next(r, a).value)
  {
    if a.LoadTail? || a.LoadOtherHead? {
      CountsKeptByLoad(r, a);
    }
  }

  lemma DataKeptByWrite<T>(r: Ring<T>)
    requires Counts(r) && Data(r) && r.producer.PRoom?
    ensures Counts(Next(r, WriteSlot).value) && Data(Next(r, WriteSlot).value)
  {
    forall i | |r.popped| <= i < |r.pushed| ensures IndexAfter(i, |r.buffer|) != r.head {
      IndexAfterMore(i, |r.pushed| - i, |r.buffer|);
    }
  }

  lemma DataKept<T>(r: Ring<T>, a: Action<T>)
    requires Counts(r) && Data(r) && Next(r, a).Some? && Counts(Next(r, a).value)
    ensures Data(Next(r, a).value)
  {
    if a == WriteSlot {
      DataKeptByWrite(r);
    }
  }

  ghost predicate Inv<T>(r: Ring<T>) {
    Counts(r) && Data(r)
  }

  lemma ReachableInv<T(!new)>(r: Ring<T>)
    requires Reachable(r)
    ensures Inv(r)
  {
    var r0: Ring<T>, actions :| Start(r0) && Exec(Next, r0, actions) == Some(r);
    forall s: Ring<T>, a: Action<T> | Inv(s) && Next(s, a).Some? ensures Inv(Next(s, a).value) {
      CountsKept(s, a);
      DataKept(s, a);
    }
    InvariantHolds(Next, s => Inv(s), r0, actions);
  }

  // ---------- the ring is a bounded FIFO ----------

  /** The queue that the ring stands for. */
  ghost function Queue<T>(r: Ring<T>): seq<T>
    requires |r.popped| <= |r.pushed|
  {
    r.pushed[|r.popped|..]
  }

  lemma ItemIsInSlot<T>(r: Ring<T>, j: nat)
    requires Inv(r) && j < |Queue(r)| && j < Distance(r.tail, r.head, |r.buffer|)
    ensures Slots(r.buffer, r.tail, r.head)[j] == Queue(r)[j]
  {
    var n, i := |r.buffer|, |r.popped| + j;
    IndexAfterMore(|r.popped|, j, n);
    SlotAt(r.buffer, r.tail, r.head, j);
    assert r.buffer[IndexAfter(i, n)] == r.pushed[i];
  }

  lemma QueueIsInSlots<T>(r: Ring<T>)
    requires Inv(r)
    ensures Slots(r.buffer, r.tail, r.head) == Queue(r)
  {
    IndexAfterMore(|r.popped|, |Queue(r)|, |r.buffer|);
    forall j | 0 <= j < |Queue(r)| ensures Slots(r.buffer, r.tail, r.head)[j] == Queue(r)[j] {
      ItemIsInSlot(r, j);
    }
  }

  /** In every reachable state, however stale the loads were, what was popped is what was pushed first, and the rest is
      in the slots from tail to head, at most `capacity` items. */
  lemma RingHoldsQueue<T(!new)>(r: Ring<T>)
    requires Reachable(r)
    ensures r.head < |r.buffer| && r.tail < |r.buffer|
    ensures r.pushed == r.popped + Slots(r.buffer, r.tail, r.head)
    ensures |Slots(r.buffer, r.tail, r.head)| <= |r.buffer| - 1
  {
    ReachableInv(r);
    QueueIsInSlots(r);
  }

  /** Each access refines a bounded FIFO: storing head_ appends to a queue that has room, storing tail_ hands out the
      front, and no other access changes the queue. */
  lemma EveryAccessRefinesFifo<T(!new)>(r: Ring<T>, a: Action<T>)
    requires Reachable(r) && Next(r, a).Some?
    ensures var r' := Next(r, a).value;
            && |r.popped| <= |r.pushed| && |r'.popped| <= |r'.pushed|
            && match a
               case StoreHead => |Queue(r)| < |r.buffer| - 1 && Queue(r') == Queue(r) + [r.producer.item]
               case StoreTail => Queue(r) != [] && r.consumer.item == Queue(r)[0] && Queue(r') == Queue(r)[1..]
               case _ => Queue(r') == Queue(r)
  {
    ReachableInv(r);
  }

  /** push gives up exactly when the queue was full as of the pops it saw, and pop exactly when the queue was empty as
      of the pushes it saw; with fresh loads that is: exactly when the queue is full, or empty. */
  lemma GivesUpOnlyWhenFullOrEmpty<T(!new)>(r: Ring<T>, stores: nat)
    requires Reachable(r)
    ensures Next(r, LoadTail(stores)).Some? ==>
              (Next(r, LoadTail(stores)).value.producer == PIdle <==> |r.pushed| - stores == |r.buffer| - 1)
    ensures Next(r, LoadOtherHead(stores)).Some? ==>
              (Next(r, LoadOtherHead(stores)).value.consumer == CIdle <==> stores == |r.popped|)
  {
    ReachableInv(r);
    if Next(r, LoadTail(stores)).Some? {
      IndexAfterMore(stores, |r.pushed| - stores, |r.buffer|);
    }
    if Next(r, LoadOtherHead(stores)).Some? {
      IndexAfterMore(|r.popped|, stores - |r.popped|, |r.buffer|);
    }
  }

  /** No data race on the slots. A producer about to write has seen the consumer's tail_ store for every item that slot
      held before; a consumer about to read has seen the producer's head_ store for the item it reads; and the two
      never are at the same slot. */
  lemma SlotAccessesAreOrdered<T(!new)>(r: Ring<T>, i: nat)
    requires Reachable(r) && i < |r.pushed|
    ensures r.head < |r.buffer| && r.tail < |r.buffer|
    ensures r.producer.PRoom? && IndexAfter(i, |r.buffer|) == r.head ==> i < r.tailSeen
    ensures r.consumer == CFound ==>
              |r.popped| < r.headSeen <= |r.pushed| && r.buffer[r.tail] == r.pushed[|r.popped|]
    ensures r.producer.PRoom? && r.consumer == CFound ==> r.head != r.tail
  {
    ReachableInv(r);
    var n := |r.buffer|;
    if r.producer.PRoom? && i >= r.tailSeen {
      IndexAfterMore(i, |r.pushed| - i, n);
    }
    if r.consumer == CFound {
      IndexAfterMore(|r.popped|, |r.pushed| - |r.popped|, n);
    }
  }

  // ---------- what the labels of a run say ----------

  /** The arguments of the push calls that stored head_, in order; `item` is that of the call under way. */
  function Pushes<T>(actions: seq<Action<T>>, item: Option<T>): seq<T> {
    if actions == [] then []
    else
      match actions[0]
      case LoadHead(x) => Pushes(actions[1..], Some(x))
      case StoreHead => (if item.Some? then [item.value] else []) + Pushes(actions[1..], item)
      case _ => Pushes(actions[1..], item)
  }

  /** The pop calls that stored tail_. */
  function Pops<T>(actions: seq<Action<T>>): nat {
    if actions == [] then 0 else (if actions[0].StoreTail? then 1 else 0) + Pops(actions[1..])
  }

  ghost predicate Carries<T>(p: Producer<T>, item: Option<T>) {
    p.PIdle? || item == Some(p.item)
  }

  lemma StepCarries<T>(r: Ring<T>, a: Action<T>, item: Option<T>)
    requires Carries(r.producer, item) && Next(r, a).Some?
    ensures var r' := Next(r, a).value;
            && Carries(r'.producer, if a.LoadHead? then Some(a.item) else item)
            && (a == StoreHead ==> item.Some?)
            && r'.pushed == r.pushed + (if a == StoreHead then [item.value] else [])
            && |r'.popped| == |r.popped| + if a == StoreTail then 1 else 0
  {
  }

  lemma {:induction false} PushedOverRuns<T>(r: Ring<T>, actions: seq<Action<T>>, item: Option<T>)
    requires Carries(r.producer, item) && Exec(Next, r, actions).Some?
    ensures Exec(Next, r, actions).value.pushed == r.pushed + Pushes(actions, item)
    ensures |Exec(Next, r, actions).value.popped| == |r.popped| + Pops(actions)
    decreases |actions|
  {
    if actions == [] {
      assert r.pushed + [] == r.pushed;
    } else {
      var a, rest := actions[0], actions[1..];
      StepCarries(r, a, item);
      var item' := if a.LoadHead? then Some(a.item) else item;
      PushedOverRuns(Next(r, a).value, rest, item');
      ConcatAssociates(r.pushed, if a == StoreHead then [item.value] else [], Pushes(rest, item'));
      assert r.pushed + [] == r.pushed;
    }
  }

  /** Over every run from the start: pushed are the arguments of the push calls that succeeded, in order, and popped are
      the first of them, as many as pop calls succeeded. */
  lemma QueueIsWhatCallsSay<T(!new)>(r0: Ring<T>, actions: seq<Action<T>>)
    requires Start(r0) && Exec(Next, r0, actions).Some?
    ensures var r := Exec(Next, r0, actions).value;
            && r.pushed == Pushes(actions, None) && Pops(actions) <= |r.pushed|
            && r.popped == Pushes(actions, None)[..Pops(actions)]
  {
    PushedOverRuns(r0, actions, None);
    assert [] + Pushes(actions, None) == Pushes(actions, None);
    ReachableInv(Exec(Next, r0, actions).value);
  }

  ghost predicate PushSucceeds<T>(r: Ring<T>, item: T) {
    var done := Exec(Next, r, [LoadHead(item)] + ([LoadTail(|r.popped|)] + ([WriteSlot] + [StoreHead])));
    && done.Some? && done.value.pushed == r.pushed + [item]
    && done.value.popped == r.popped && done.value.producer == PIdle
  }

  ghost predicate PushGivesUp<T>(r: Ring<T>, item: T) {
    var done := Exec(Next, r, [LoadHead(item)] + [LoadTail(|r.popped|)]);
    && done.Some? && done.value.pushed == r.pushed
    && done.value.popped == r.popped && done.value.producer == PIdle
  }

  /** The rest of a push that has found room. */
  lemma WriteAndStore<T>(r: Ring<T>, item: T)
    requires r.head < |r.buffer| && r.tail < |r.buffer| && r.producer == PRoom(item)
    ensures var done := Exec(Next, r, [WriteSlot] + [StoreHead]);
            && done.Some? && done.value.pushed == r.pushed + [item]
            && done.value.popped == r.popped && done.value.producer == PIdle
  {
    var wrote := Next(r, WriteSlot).value;
    ExecOne(Next, wrote, StoreHead);
    ExecCons(Next, r, WriteSlot, [StoreHead]);
  }

  /** A push that nobody interrupts and that reads tail_ as it is succeeds if there is room, with its argument, and
      gives up otherwise. */
  lemma UninterruptedPush<T(!new)>(r: Ring<T>, item: T)
    requires Reachable(r) && r.producer == PIdle
    ensures |r.popped| <= |r.pushed|
    ensures if |Queue(r)| < |r.buffer| - 1 then PushSucceeds(r, item) else PushGivesUp(r, item)
  {
    ReachableInv(r);
    var load := LoadTail(|r.popped|);
    var loaded := Next(r, LoadHead(item)).value;
    IndexAfterMore(|r.popped|, |r.pushed| - |r.popped|, |r.buffer|);
    if |Queue(r)| < |r.buffer| - 1 {
      var room := Next(loaded, load).value;
      WriteAndStore(room, item);
      ExecCons(Next, loaded, load, [WriteSlot] + [StoreHead]);
      ExecCons(Next, r, LoadHead(item), [load] + ([WriteSlot] + [StoreHead]));
    } else {
      ExecOne(Next, loaded, load);
      ExecCons(Next, r, LoadHead(item), [load]);
    }
  }

  ghost predicate PopSucceeds<T>(r: Ring<T>, item: T) {
    var done := Exec(Next, r, [LoadOwnTail] + ([LoadOtherHead(|r.pushed|)] + ([ReadSlot] + [StoreTail])));
    && done.Some? && done.value.popped == r.popped + [item]
    && done.value.pushed == r.pushed && done.value.consumer == CIdle
  }

  ghost predicate PopGivesUp<T>(r: Ring<T>) {
    var done := Exec(Next, r, [LoadOwnTail] + [LoadOtherHead(|r.pushed|)]);
    && done.Some? && done.value.popped == r.popped
    && done.value.pushed == r.pushed && done.value.consumer == CIdle
  }

  /** The rest of a pop that has found an item. */
  lemma ReadAndStore<T>(r: Ring<T>)
    requires r.head < |r.buffer| && r.tail < |r.buffer| && r.consumer == CFound
    ensures var done := Exec(Next, r, [ReadSlot] + [StoreTail]);
            && done.Some? && done.value.popped == r.popped + [r.buffer[r.tail]]
            && done.value.pushed == r.pushed && done.value.consumer == CIdle
  {
    var read := Next(r, ReadSlot).value;
    ExecOne(Next, read, StoreTail);
    ExecCons(Next, r, ReadSlot, [StoreTail]);
  }

  /** And such a pop hands out the front of the queue, or gives up if there is none. */
  lemma UninterruptedPop<T(!new)>(r: Ring<T>)
    requires Reachable(r) && r.consumer == CIdle
    ensures |r.popped| <= |r.pushed|
    ensures if Queue(r) != [] then PopSucceeds(r, Queue(r)[0]) else PopGivesUp(r)
  {
    ReachableInv(r);
    var load := LoadOtherHead(|r.pushed|);
    var loaded := Next(r, LoadOwnTail).value;
    IndexAfterMore(|r.popped|, |r.pushed| - |r.popped|, |r.buffer|);
    if Queue(r) != [] {
      var found := Next(loaded, load).value;
      assert r.buffer[IndexAfter(|r.popped|, |r.buffer|)] == r.pushed[|r.popped|];
      ReadAndStore(found);
      ExecCons(Next, loaded, load, [ReadSlot] + [StoreTail]);
      ExecCons(Next, r, LoadOwnTail, [load] + ([ReadSlot] + [StoreTail]));
    } else {
      ExecOne(Next, loaded, load);
      ExecCons(Next, r, LoadOwnTail, [load]);
    }
  }

  // ---------- stale loads ----------

  lemma StepTo<T(!new)>(r: Ring<T>, a: Action<T>) returns (r': Ring<T>)
    requires Reachable(r) && Next(r, a).Some?
    ensures Next(r, a) == Some(r') && Reachable(r')
  {
    var r0: Ring<T>, actions :| Start(r0) && Exec(Next, r0, actions) == Some(r);
    ExecOne(Next, r, a);
    ExecAppend(Next, r0, actions, [a]);
    r' := Next(r, a).value;
  }

  /** A load can return any index from the last one this side has seen to the latest. */
  lemma LoadsMayBeStale<T>(r: Ring<T>, stores: nat)
    requires r.head < |r.buffer| && r.tail < |r.buffer|
    ensures r.producer.PLoaded? ==> (Next(r, LoadTail(stores)).Some? <==> r.tailSeen <= stores <= |r.popped|)
    ensures r.consumer == CLoaded ==> (Next(r, LoadOtherHead(stores)).Some? <==> r.headSeen <= stores <= |r.pushed|)
  {
  }

  lemma OnePushed<T(!new)>(r0: Ring<T>, x: T) returns (r: Ring<T>)
    requires Start(r0) && |r0.buffer| == 2
    ensures Reachable(r) && |r.buffer| == 2 && r.head == 1 && r.tail == 0 && r.producer == PIdle && r.consumer == CIdle
    ensures r.pushed == [x] && r.popped == [] && r.tailSeen == 0 && r.headSeen == 0
  {
    assert Exec(Next, r0, []) == Some(r0);
    r := StepTo(r0, LoadHead(x));
    r := StepTo(r, LoadTail(0));
    r := StepTo(r, WriteSlot);
    r := StepTo(r, StoreHead);
  }

  lemma OnePopped<T(!new)>(r: Ring<T>) returns (r': Ring<T>)
    requires Reachable(r) && |r.buffer| == 2 && r.head == 1 && r.tail == 0 && r.consumer == CIdle
    requires |r.pushed| == 1 && r.popped == [] && r.headSeen == 0
    ensures Reachable(r') && |r'.popped| == 1 && r'.pushed == r.pushed && r'.buffer == r.buffer
    ensures r'.head == 1 && r'.tail == 1 && r'.producer == r.producer && r'.tailSeen == r.tailSeen
  {
    r' := StepTo(r, LoadOwnTail);
    r' := StepTo(r', LoadOtherHead(1));
    r' := StepTo(r', ReadSlot);
    r' := StepTo(r', StoreTail);
  }

  /** So push can give up on a queue that is empty by now: with room for one item, after one push and one pop. */
  lemma PushCanGiveUpOnEmptyQueue<T(!new)>(r0: Ring<T>, x: T) returns (r: Ring<T>)
    requires Start(r0) && |r0.buffer| == 2
    ensures Reachable(r) && r.producer == PLoaded(x) && |r.pushed| == |r.popped|
    ensures Next(r, LoadTail(0)).Some? && Next(r, LoadTail(0)).value.producer == PIdle
  {
    r := OnePushed(r0, x);
    r := OnePopped(r);
    r := StepTo(r, LoadHead(x));
  }
}
