/** `Node` and `LinkedList` as heap objects.

    The list keeps, as ghost state, the nodes of its chain (`spine`) and the
    values they spell (`contents`); the objects it owns are the spine's nodes.
    `Valid` states the chain condition directly over the objects. Contracts
    here speak of `old` and `fresh` state, as a method that mutates objects
    must.
 */
module ListObjects {
  import opened Chains

  class Node<T> {
    var data: T
    var next: Node?<T>

    /** `Node(data)`: stores `data`, links to nothing. */
    constructor (data: T)
      ensures this.data == data && next == null
    {
      this.data := data;
      next := null;
    }
  }

  class LinkedList<T> {
    var head: Node?<T>
    var size: nat
    ghost var spine: seq<Node<T>>
    ghost var contents: seq<T>

    /** The nodes the list owns: those of its chain. */
    ghost function Repr(): set<Node<T>>
      reads this
    {
      set n | n in spine
    }

    /** The chain from `head` is exactly `spine`: its nodes are distinct (the
        chain is acyclic and ends), each links to the next and the last links
        to null. `contents` are the nodes' values in order and `size` counts
        the nodes. */
    ghost predicate Valid()
      reads this, Repr()
      ensures Valid() ==> size == |contents|
      ensures Valid() ==> (head == null <==> contents == [])
    {
      && Distinct(spine)
      && head == (if spine == [] then null else spine[0])
      && (forall i | 0 <= i < |spine| - 1 :: spine[i].next == spine[i + 1])
      && (spine != [] ==> spine[|spine| - 1].next == null)
      && |contents| == |spine|
      && (forall i | 0 <= i < |spine| :: contents[i] == spine[i].data)
      && size == |spine|
    }

    /** `LinkedList()`: no head, size zero, empty contents. */
    constructor ()
      ensures Valid()
      ensures head == null && size == 0 && contents == []
    {
      head := null;
      size := 0;
      spine := [];
      contents := [];
    }

    /** The walk inside `append`: start at `head` and follow `next` while it is
        not null. It stops at the last node of the chain, the only node whose
        `next` is null. */
    method FindTail() returns (current: Node<T>)
      requires Valid() && head != null
      ensures current == spine[|spine| - 1] && current.next == null
    {
      current := head;
      ghost var i := 0;
      while current.next != null
        invariant 0 <= i < |spine| && current == spine[i]
        invariant current.next == if i + 1 < |spine| then spine[i + 1] else null
        decreases |spine| - i
      {
        current := current.next;
        i := i + 1;
      }
    }

    /** `append(data)`: the new node becomes the head of an empty list, or is
        linked after the node whose `next` is null, reached by following
        `next` from `head`; `size` grows by one either way. */
    method Append(data: T)
      requires Valid()
      modifies this, Repr()
      ensures Valid()
      ensures contents == old(contents) + [data]
      ensures size == old(size) + 1
      ensures old(head) != null ==> head == old(head)
      ensures old(head) == null ==> head != null && head.data == data && head.next == null
      ensures spine == old(spine) + [spine[|spine| - 1]] && fresh(spine[|spine| - 1])
      ensures forall n | n in old(Repr()) :: n.data == old(n.data)
      ensures forall n | n in old(Repr()) && n.next != old(n.next) ::
                old(n.next) == null && n.next == spine[|spine| - 1]
    {
      var node := new Node(data);
      if head == null {
        head := node;
        size := size + 1;
        spine := [node];
        contents := [data];
        return;
      }
      var current := FindTail();
      ghost var sp := spine;
      assert node !in sp;
      current.next := node;
      size := size + 1;
      spine := spine + [node];
      contents := contents + [data];
    }
  }
}
