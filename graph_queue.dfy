/** The array queue of the breadth-first search (claude.c `Queue`): a fixed
    array of `MAX_N` slots, `front` and `rear` indices, both -1 when empty.
    Slots are never reused until the queue runs empty. */
module GraphQueue {
  import opened Graphs

  class Queue {
    const items: array<int>
    var front: int
    var rear: int

    ghost predicate Valid()
      reads this
    {
      items.Length == MaxN &&
      ((front == -1 && rear == -1) || (0 <= front <= rear < MaxN))
    }

    /** The values waiting, oldest first. */
    ghost function Contents(): seq<int>
      reads this, items
      requires Valid()
    {
      if rear == -1 then [] else items[front..rear + 1]
    }

    /** `createQueue` */
    constructor ()
      ensures Valid() && fresh(items)
      ensures Contents() == [] && rear == -1
    {
      items := new int[MaxN];
      front, rear := -1, -1;
    }

    /** `isEmpty`: `rear == -1`. */
    function IsEmpty(): (r: bool)
      reads this, items
      requires Valid()
      ensures r <==> Contents() == []
    {
      rear == -1
    }

    /** `enqueue`: appends `value`, or drops it when the last slot is taken. */
    method Enqueue(value: int)
      requires Valid()
      modifies this, items
      ensures Valid()
      ensures old(rear) == MaxN - 1 ==> Contents() == old(Contents()) && rear == old(rear)
      ensures old(rear) < MaxN - 1 ==> Contents() == old(Contents()) + [value] && rear == old(rear) + 1
    {
      if rear == MaxN - 1 {
        // full: the value is dropped
      } else {
        if front == -1 {
          front := 0;
        }
        rear := rear + 1;
        items[rear] := value;
      }
    }

    /** `dequeue`: the oldest value, or -1 from an empty queue; taking the
        last one resets both indices to -1. */
    method Dequeue() returns (item: int)
      requires Valid()
      modifies this
      ensures Valid()
      ensures old(Contents()) == [] ==> item == -1 && Contents() == []
      ensures old(Contents()) != [] ==> item == old(Contents())[0] && Contents() == old(Contents())[1..]
      ensures |old(Contents())| == 1 ==> front == -1 && rear == -1
      ensures rear == old(rear) || rear == -1
    {
      if rear == -1 {
        item := -1;
      } else {
        item := items[front];
        front := front + 1;
        if front > rear {
          front, rear := -1, -1;
        }
      }
    }
  }
}
