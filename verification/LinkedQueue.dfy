/** The linked queue of coor_pick.c. */
module LinkedQueue {

  /** uint8_t */
  type Byte = x: int | 0 <= x < 256

  class QNode {
    var data: Byte
    var next: QNode?

    constructor (data: Byte)
      ensures this.data == data && next == null
    {
      this.data := data;
      this.next := null;
    }
  }

  class Queue {
    var head: QNode?
    var tail: QNode?

    /** The nodes from head to tail. */
    ghost var spine: seq<QNode>

    ghost function Nodes(): set<QNode>
      reads this
    {
      set n | n in spine
    }

    ghost predicate Valid()
      reads this, spine
    {
      && (forall i, j :: 0 <= i < j < |spine| ==> spine[i] != spine[j])
      && (forall i :: 0 <= i < |spine| - 1 ==> spine[i].next == spine[i + 1])
      && if spine == [] then head == tail == null
         else head == spine[0] && tail == spine[|spine| - 1] && tail.next == null
    }

    /** What the queue holds, oldest first. */
    ghost function Contents(): (c: seq<Byte>)
      reads this, spine
      ensures |c| == |spine|
    {
      Data(spine)
    }

    constructor ()
      ensures Valid() && spine == [] && Nodes() == {}
    {
      head := null;
      tail := null;
      spine := [];
    }

    method Enqueue(item: Byte)
      requires Valid()
      modifies this, Nodes()
      ensures Valid() && Contents() == old(Contents()) + [item]
      ensures |spine| == |old(spine)| + 1 && spine[..|spine| - 1] == old(spine) && fresh(Nodes() - old(Nodes()))
    {
      var qNode := new QNode(item);
      if head == null {
        head := qNode;
      }
      if tail == null {
        tail := qNode;
      } else {
        tail.next := qNode;
        tail := qNode;
      }
      spine := spine + [qNode];
    }

    method IsEmpty() returns (empty: bool)
      requires Valid()
      ensures empty <==> Contents() == []
    {
      empty := head == null;
    }

    method Dequeue() returns (item: Byte)
      requires Valid() && Contents() != []
      modifies this
      ensures Valid() && [item] + Contents() == old(Contents())
      ensures spine == old(spine)[1..] && Nodes() <= old(Nodes())
    {
      var temp := head;
      if head == tail {
        head := null;
        tail := null;
      } else {
        head := head.next;
      }
      item := temp.data;
      spine := spine[1..];
    }
  }

  ghost function Data(nodes: seq<QNode>): (c: seq<Byte>)
    reads nodes
    ensures |c| == |nodes|
    ensures forall i :: 0 <= i < |nodes| ==> c[i] == nodes[i].data
  {
    if nodes == [] then [] else [nodes[0].data] + Data(nodes[1..])
  }
}
