/**
  `hw2/wq.c`, sequentially: what the two critical sections do to the linked list.
  WorkQueueProtocol takes it from here and interleaves them.
 */
module WorkQueue {
  import opened MergeSpec
  import opened DoublyLinkedList

  class Queue {
    var size: int
    var head: Node?<int>
    ghost var items: seq<Node<int>>

    ghost predicate Valid()
      reads this, items
    {
      IsList(head, items) && size == |items|
    }

    // The client sockets in the queue, oldest first.
    ghost function Contents(): (s: seq<int>)
      reads this
    {
      seq(|items|, i requires 0 <= i < |items| reads this => items[i].data)
    }

    constructor ()
      ensures Valid() && Contents() == []
    {
      size, head, items := 0, null, [];
    }

    // wq_push, lines 35-39 (the signal belongs to the protocol).
    method Push(clientSocket: int)
      requires Valid()
      modifies this, items
      ensures Valid() && Contents() == old(Contents()) + [clientSocket]
      ensures fresh(set n | n in items && n !in old(items))
    {
      var item := new Node(clientSocket);
      head := Append(head, item, items);
      items := items + [item];
      size := size + 1;
    }

    // wq_pop, lines 24-27, entered with size != 0.
    method Pop() returns (clientSocket: int)
      requires Valid() && size != 0
      modifies this, items
      ensures Valid() && [clientSocket] + Contents() == old(Contents())
      ensures forall n :: n in items ==> n in old(items)
    {
      clientSocket := head.data;
      size := size - 1;
      head := Delete(head, head, items, 0);
      items := Without(items, 0);
    }
  }
}
