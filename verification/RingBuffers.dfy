/** std::ring_buffer (std/include/extensions_ring_buffer:28-100): the buffer of an event queue. */
module RingBuffers {

  ghost function Held<T>(s: seq<T>, head: nat, tail: nat): seq<T>
    requires head < |s| && tail < |s|
  {
    if head <= tail then s[head..tail] else s[head..] + s[..tail]
  }

  lemma Appended<T>(s: seq<T>, head: nat, tail: nat, value: T)
    requires head < |s| && tail < |s| && |Held(s, head, tail)| < |s| - 1
    ensures tail + 1 != head
    ensures Held(s[tail := value], head, if tail + 1 == |s| then 0 else tail + 1) == Held(s, head, tail) + [value]
  {}

  lemma Dropped<T>(s: seq<T>, head: nat, tail: nat, value: T)
    requires 0 < head < |s| - 1 && tail < |s| && |Held(s, head, tail)| == |s| - 1
    ensures tail + 1 == head
    ensures Held(s[tail := value], head + 1, tail + 1) == Held(s, head, tail)[1..] + [value]
  {}

  class RingBuffer<T(0)> {
    const data: array<T>
    var head: nat
    var tail: nat

    constructor (size: nat)
      requires size > 0
      ensures Valid() && data.Length == size && fresh(data) && Contents() == [] && head == 0
    {
      data := new T[size];
      head, tail := 0, 0;
    }

    ghost predicate Valid()
      reads this
    {
      head < data.Length && tail < data.Length
    }

    /** The elements from head to tail, around the end of the array if need be. */
    ghost function Contents(): seq<T>
      reads this, data
      requires Valid()
    {
      Held(data[..], head, tail)
    }

    /** One slot always stays empty. */
    ghost predicate Full()
      reads this, data
      requires Valid()
    {
      |Contents()| == data.Length - 1
    }

    method Size() returns (n: nat)
      requires Valid()
      ensures n == |Contents()|
    {
      if tail >= head {
        n := tail - head;
      } else {
        n := data.Length - head + tail;
      }
    }

    /** push_back.  While there is room the value is appended.  On a full buffer the oldest element
        is meant to be dropped; that happens exactly when the head is neither at the first nor at the
        last slot.  At the first slot the buffer comes out empty; at the last one the head is left
        pointing past the array. */
    method PushBack(value: T)
      requires Valid()
      modifies this, data
      ensures Valid() <==> !old(Full()) || old(head) != data.Length - 1 || data.Length == 1
      ensures !old(Full()) ==> Contents() == old(Contents()) + [value] && head == old(head)
      ensures old(Full()) && 0 < old(head) < data.Length - 1 ==> Contents() == old(Contents())[1..] + [value]
      ensures old(Full()) && old(head) == 0 ==> Contents() == []
    {
      ghost var s := data[..];
      if !Full() {
        Appended(s, head, tail, value);
      } else if 0 < head < data.Length - 1 {
        Dropped(s, head, tail, value);
      }
      hide Held;
      data[tail] := value;
      assert data[..] == s[old(tail) := value];
      tail := tail + 1;
      if tail == head {
        head := head + 1;
      }
      if tail >= data.Length {
        tail := 0;
      }
    }

    /** pop_front, on a buffer that is not empty. */
    method PopFront() returns (value: T)
      requires Valid() && Contents() != []
      modifies this`head
      ensures Valid() && value == old(Contents())[0] && Contents() == old(Contents())[1..]
      ensures head == if old(head) == data.Length - 1 then 0 else old(head) + 1
    {
      value := data[head];
      head := head + 1;
      if head >= data.Length {
        head := 0;
      }
    }
  }

  /** Three pushes into a fresh buffer of three slots, and everything is gone. */
  method OverflowEmpties(x: int, y: int, z: int) returns (n: nat)
    ensures n == 0
  {
    var b := new RingBuffer<int>(3);
    b.PushBack(x);
    b.PushBack(y);
    b.PushBack(z);
    n := b.Size();
  }

  /** Two pushes and two pops put the head at the last of three slots; three more pushes, and it points past the
      array. */
  method OverflowRunsOff(x: int) returns (b: RingBuffer<int>)
    ensures fresh(b) && !b.Valid()
  {
    b := new RingBuffer<int>(3);
    b.PushBack(x);
    b.PushBack(x);
    var y := b.PopFront();
    y := b.PopFront();
    b.PushBack(x);
    b.PushBack(x);
    b.PushBack(x);
  }
}
