/** NESESLIB/QueueFifoWaitable.hpp: the critical sections of the blocking bounded queue.

    Every method of the source does its work on `queue_` and `closed_` while it holds `mutex_`. `Core` is that
    protected state as a value and the functions below are its critical sections; the class performs them in place.
    Threads, the condition variable and its notifications are in QueueMonitor.
 */
module QueueFifoWaitable {
  import opened Runs

  datatype Core<T> = Core(items: seq<T>, closed: bool, capacity: nat) {
    predicate Accepts() {
      !closed && |items| < capacity
    }

    /** The predicate that wait_pop and wait_pop_for hand to the condition variable. */
    predicate WaitOver() {
      items != [] || closed
    }
  }

  function Pushed<T>(q: Core<T>, x: T): Core<T> {
    if q.Accepts() then q.(items := q.items + [x]) else q
  }

  function Popped<T>(q: Core<T>): Core<T> {
    if q.items != [] then q.(items := q.items[1..]) else q
  }

  function Head<T>(q: Core<T>): Option<T> {
    if q.items != [] then Some(q.items[0]) else None
  }

  class Queue<T> {
    var queue: seq<T>
    var closed: bool
    const capacity: nat

    constructor (capacity: nat)
      ensures State() == Core([], false, capacity)
    {
      this.capacity := capacity;
      queue, closed := [], false;
    }

    ghost function State(): Core<T>
      reads this
    {
      Core(queue, closed, capacity)
    }

    /** push, up to the release of the mutex; the caller still owes notify_one when `ok`. */
    method Push(x: T) returns (ok: bool)
      modifies this
      ensures ok <==> !old(closed) && |old(queue)| < capacity
      ensures queue == (if ok then old(queue) + [x] else old(queue)) && closed == old(closed)
      ensures ok == old(State()).Accepts() && State() == Pushed(old(State()), x)
    {
      if closed || |queue| >= capacity {
        return false;
      }
      queue := queue + [x];
      return true;
    }

    method Pop() returns (out: Option<T>)
      modifies this
      ensures old(queue) == [] ==> out == None && queue == []
      ensures old(queue) != [] ==> out == Some(old(queue)[0]) && queue == old(queue)[1..]
      ensures out == Head(old(State())) && State() == Popped(old(State()))
    {
      if queue == [] {
        return None;
      }
      out := Some(queue[0]);
      queue := queue[1..];
    }

    /** wait_pop and wait_pop_for, from the moment the wait predicate was found true. */
    method FinishWait() returns (out: Option<T>)
      requires queue != [] || closed
      modifies this
      ensures old(queue) == [] ==> out == None && queue == [] && old(closed)
      ensures old(queue) != [] ==> out == Some(old(queue)[0]) && queue == old(queue)[1..]
      ensures out == Head(old(State())) && State() == Popped(old(State()))
    {
      if queue == [] {
        return None;
      }
      out := Some(queue[0]);
      queue := queue[1..];
    }

    /** close, up to the release of the mutex; the caller still owes notify_all. */
    method Close()
      modifies this
      ensures State() == old(State()).(closed := true)
    {
      closed := true;
    }
  }
}
