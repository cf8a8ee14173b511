/** NESESLIB/QueueFifoSPSC.hpp: the ring buffer, its layout and its uninterrupted calls. */
module SpscRing {
  import opened Runs

  /** `increment`: the next index of a ring with `size` slots. */
  function Increment(i: nat, size: nat): (r: nat)
    requires i < size
    ensures r == if i + 1 == size then 0 else i + 1
  {
    (i + 1) % size
  }

  /** The number of items between two indices. */
  function Distance(tail: nat, head: nat, size: nat): (r: nat)
    requires tail < size && head < size
    ensures r < size
    ensures r == 0 <==> head == tail
    ensures r == size - 1 <==> Increment(head, size) == tail
  {
    if head >= tail then head - tail else head + size - tail
  }

  /** The items in the slots from `tail` up to, not including, `head`, wrapping round. */
  function Slots<T>(buffer: seq<T>, tail: nat, head: nat): (r: seq<T>)
    requires tail < |buffer| && head < |buffer|
    ensures |r| == Distance(tail, head, |buffer|)
  {
    if tail <= head then buffer[tail..head] else buffer[tail..] + buffer[..head]
  }

  lemma SlotAt<T>(buffer: seq<T>, tail: nat, head: nat, j: nat)
    requires tail < |buffer| && head < |buffer| && j < Distance(tail, head, |buffer|)
    ensures Slots(buffer, tail, head)[j] == buffer[if tail + j < |buffer| then tail + j else tail + j - |buffer|]
  {
  }

  lemma PushSlots<T>(buffer: seq<T>, tail: nat, head: nat, item: T)
    requires tail < |buffer| && head < |buffer| && Increment(head, |buffer|) != tail
    ensures Slots(buffer[head := item], tail, Increment(head, |buffer|)) == Slots(buffer, tail, head) + [item]
  {
  }

  lemma PopSlots<T>(buffer: seq<T>, tail: nat, head: nat)
    requires tail < |buffer| && head < |buffer| && head != tail
    ensures Slots(buffer, tail, head) == [buffer[tail]] + Slots(buffer, Increment(tail, |buffer|), head)
  {
  }

  class SPSCFifoQueue<T(0)> {
    const buffer: array<T>
    var head: nat
    var tail: nat

    ghost predicate Valid()
      reads this
    {
      head < buffer.Length && tail < buffer.Length
    }

    ghost function Contents(): seq<T>
      requires Valid()
      reads this, buffer
    {
      Slots(buffer[..], tail, head)
    }

    constructor (capacity: nat)
      ensures Valid() && fresh(buffer) && buffer.Length == capacity + 1 && Contents() == []
    {
      buffer := new T[capacity + 1];
      head, tail := 0, 0;
    }

    method Push(item: T) returns (ok: bool)
      requires Valid()
      modifies this`head, buffer
      ensures Valid()
      ensures ok <==> |old(Contents())| < buffer.Length - 1
      ensures Contents() == if ok then old(Contents()) + [item] else old(Contents())
    {
      var nextHead := Increment(head, buffer.Length);
      if nextHead == tail {
        return false;
      }
      PushSlots(buffer[..], tail, head, item);
      buffer[head] := item;
      head := nextHead;
      return true;
    }

    method Pop() returns (item: Option<T>)
      requires Valid()
      modifies this`tail
      ensures Valid()
      ensures old(Contents()) == [] ==> item == None && Contents() == []
      ensures old(Contents()) != [] ==> item == Some(old(Contents())[0]) && Contents() == old(Contents())[1..]
    {
      if tail == head {
        return None;
      }
      PopSlots(buffer[..], tail, head);
      item := Some(buffer[tail]);
      tail := Increment(tail, buffer.Length);
    }

    method Empty() returns (r: bool)
      requires Valid()
      ensures r <==> Contents() == []
    {
      r := head == tail;
    }

    method Full() returns (r: bool)
      requires Valid()
      ensures r <==> |Contents()| == buffer.Length - 1
    {
      r := Increment(head, buffer.Length) == tail;
    }
  }
}
