/** The circular buffer of limonp/BoundedQueue.hpp. */
module BoundedQueue {
  import Digits

  /** Index arithmetic of the buffer: a sum of two positions, reduced into it. */
  function Wrap(x: nat, capacity: nat): (r: nat)
    requires x < 2 * capacity
    ensures r < capacity
  {
    if x < capacity then x else x - capacity
  }

  lemma WrapIsRemainder(x: nat, capacity: nat)
    requires x < 2 * capacity
    ensures Wrap(x, capacity) == x % capacity
  {
    Digits.DivUnique(x, capacity, if x < capacity then 0 else 1, Wrap(x, capacity));
  }

  /** The value of a bounded queue. */
  datatype Ring<T> = Ring(head: nat, tail: nat, size: nat, buffer: seq<T>) {

    /** The tail is the head plus the size, modulo the capacity. */
    ghost predicate Valid() {
      head < |buffer| && size <= |buffer| && tail == Wrap(head + size, |buffer|)
    }

    ghost function Contents(): (c: seq<T>)
      requires Valid()
      ensures |c| == size
    {
      seq(size, i requires 0 <= i < size => buffer[Wrap(head + i, |buffer|)])
    }

    predicate Full() { size == |buffer| }

    predicate Empty() { size == 0 }

    ghost function Pushed(t: T): Ring<T>
      requires Valid() && !Full()
    {
      Ring(head, Wrap(tail + 1, |buffer|), size + 1, buffer[tail := t])
    }

    ghost function Popped(): Ring<T>
      requires Valid() && !Empty()
    {
      Ring(Wrap(head + 1, |buffer|), tail, size - 1, buffer)
    }

    lemma PushedContents(t: T)
      requires Valid() && !Full()
      ensures Pushed(t).Valid() && |Pushed(t).buffer| == |buffer|
      ensures Pushed(t).Contents() == Contents() + [t]
    {
      var r := Pushed(t);
      forall i | 0 <= i < r.size
        ensures r.Contents()[i] == (Contents() + [t])[i]
      {
        if i < size {
          assert Wrap(head + i, |buffer|) != tail;
        }
      }
    }

    lemma PoppedContents()
      requires Valid() && !Empty()
      ensures Popped().Valid() && |Popped().buffer| == |buffer|
      ensures Contents() == [buffer[head]] + Popped().Contents()
    {
      var r := Popped();
      forall i | 0 <= i < size
        ensures Contents()[i] == ([buffer[head]] + r.Contents())[i]
      {
        assert Contents()[i] == buffer[Wrap(head + i, |buffer|)];
        if i == 0 {
          assert Wrap(head, |buffer|) == head;
        } else {
          var k := i - 1;
          assert r.Contents()[k] == buffer[Wrap(r.head + k, |buffer|)];
          assert ([buffer[head]] + r.Contents())[i] == r.Contents()[k];
        }
      }
    }
  }

  class BoundedQueue<T(0)> {
    var head: nat
    var tail: nat
    var size: nat
    const capacity: nat
    const circularBuffer: array<T>

    ghost function Value(): Ring<T>
      reads this, circularBuffer
    {
      Ring(head, tail, size, circularBuffer[..])
    }

    ghost predicate Valid()
      reads this, circularBuffer
    {
      circularBuffer.Length == capacity && Value().Valid()
    }

    constructor (capacity: nat)
      requires capacity > 0
      ensures Valid() && Value().Contents() == [] && this.capacity == capacity && fresh(circularBuffer)
    {
      this.capacity := capacity;
      circularBuffer := new T[capacity];
      head, tail, size := 0, 0, 0;
    }

    method Clear()
      requires Valid()
      modifies this
      ensures Valid() && Value().Contents() == []
    {
      head, tail, size := 0, 0, 0;
    }

    predicate Empty()
      reads this
    {
      size == 0
    }

    predicate Full()
      reads this
    {
      capacity == size
    }

    method Push(t: T)
      requires Valid() && !Full()
      modifies this, circularBuffer
      ensures Valid() && Value() == old(Value()).Pushed(t)
      ensures Value().Contents() == old(Value().Contents()) + [t]
    {
      Value().PushedContents(t);
      WrapIsRemainder(tail + 1, capacity);
      circularBuffer[tail] := t;
      tail := (tail + 1) % capacity;
      size := size + 1;
    }

    method Pop() returns (t: T)
      requires Valid() && !Empty()
      modifies this
      ensures Valid() && Value() == old(Value()).Popped()
      ensures old(Value().Contents()) == [t] + Value().Contents()
    {
      Value().PoppedContents();
      WrapIsRemainder(head + 1, capacity);
      var oldPos := head;
      head := (head + 1) % capacity;
      size := size - 1;
      return circularBuffer[oldPos];
    }
  }
}
