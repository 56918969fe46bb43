/** `LinkedList` as a state value.

    The list object is `head` and `size`; the node objects it owns are kept in
    `heap`, keyed by reference. A reference is a natural number, and the
    address of a node being created is handed in by the caller in the role of
    the allocator, which only ever returns an address no live node uses.
 */
module ListModel {
  import opened Chains

  type Ref = nat

  datatype ListState<T> = ListState(heap: Heap<Ref, T>, head: Option<Ref>, size: nat)

  /** The chain from `head` ends (it is finite and acyclic and every link is
      live), the heap holds exactly the nodes of that chain, and `size` counts
      them. */
  predicate Valid<T>(l: ListState<T>)
  {
    match Walk(l.heap, l.head, {})
    case None => false
    case Some(sp) => l.size == |sp| && l.heap.Keys == set a | a in sp
  }

  /** The nodes of a valid list, from `head` to the tail. */
  function Spine<T>(l: ListState<T>): (sp: seq<Ref>)
    requires Valid(l)
    ensures IsSpine(l.heap, l.head, sp)
  {
    Walk(l.heap, l.head, {}).value
  }

  /** The values a valid list holds, in chain order. */
  function Contents<T>(l: ListState<T>): seq<T>
    requires Valid(l)
  {
    Values(l.heap, Spine(l))
  }

  /** `Node(data)`: a node holding `data` whose link is empty. */
  function NewNode<T>(data: T): (r: Cell<Ref, T>)
    ensures r.data == data && r.next == None
  {
    Cell(data, None)
  }

  /** `LinkedList()`: a list with no head and size zero, which spells the empty
      sequence. */
  function Empty<T>(): (l: ListState<T>)
    ensures Valid(l) && Contents(l) == []
    ensures l.head == None && l.size == 0
  {
    ListState(map[], None, 0)
  }

  /** What a valid list's fields say about its contents: `size` is the number
      of values, and `head` is empty exactly when there are none. */
  lemma ValidShape<T>(l: ListState<T>)
    requires Valid(l)
    ensures l.size == |Contents(l)|
    ensures l.head == None <==> Contents(l) == []
    ensures l.head == None <==> l.size == 0
  {
    ValuesAt(l.heap, Spine(l));
  }

  /** The state `append(data)` leaves behind, described through the chain
      rather than the walk: a new node holding `data` at `addr`, linked after
      the last node of the chain, or made the head when there is none. */
  function Appended<T>(l: ListState<T>, data: T, addr: Ref): (r: ListState<T>)
    requires Valid(l)
    ensures r.heap.Keys == l.heap.Keys + {addr}
    ensures r.heap[addr] == NewNode(data)
    ensures r.head == (if l.head == None then Some(addr) else l.head)
    ensures r.size == l.size + 1
  {
    ListState(Linked(l.heap, Spine(l), addr, data),
              if l.head == None then Some(addr) else l.head,
              l.size + 1)
  }

  /** Appending keeps the list valid and spells the old contents followed by
      `data`: the chain gains exactly the new node, at its end. */
  lemma AppendedValid<T>(l: ListState<T>, data: T, addr: Ref)
    requires Valid(l)
    requires addr !in l.heap
    ensures Valid(Appended(l, data, addr))
    ensures Spine(Appended(l, data, addr)) == Spine(l) + [addr]
    ensures Contents(Appended(l, data, addr)) == Contents(l) + [data]
    ensures Appended(l, data, addr).size == l.size + 1
  {
    var r := Appended(l, data, addr);
    var sp := Spine(l);
    LinkAfterTail(l.heap, l.head, sp, addr, data);
    WalkComplete(r.heap, r.head, sp + [addr], {});
  }

  /** Appending changes nothing else: no stored value changes, and the only
      link written is the old tail's, which now leads to the new node. */
  lemma AppendedFrame<T>(l: ListState<T>, data: T, addr: Ref)
    requires Valid(l)
    requires addr !in l.heap
    ensures forall a | a in l.heap :: Appended(l, data, addr).heap[a].data == l.heap[a].data
    ensures forall a | a in l.heap && Appended(l, data, addr).heap[a].next != l.heap[a].next ::
              l.heap[a].next == None && Appended(l, data, addr).heap[a].next == Some(addr)
  {
  }

  /** `append(data)`: a new node holding `data` becomes the head of an empty
      list, or else is linked after the node whose link is empty, found by
      following links from `head`; the size grows by one either way. */
  method Append<T>(l: ListState<T>, data: T, addr: Ref) returns (r: ListState<T>)
    requires Valid(l)
    requires addr !in l.heap
    ensures r == Appended(l, data, addr)
    ensures Valid(r) && Contents(r) == Contents(l) + [data] && r.size == l.size + 1
    ensures Spine(r) == Spine(l) + [addr]
    ensures l.head == None ==> r.head == Some(addr)
    ensures l.head != None ==> r.head == l.head
  {
    var node := NewNode(data);
    if l.head == None {
      r := ListState(l.heap[addr := node], Some(addr), l.size + 1);
    } else {
      ghost var sp := Spine(l);
      var current := l.head.value;
      ghost var i := 0;
      while l.heap[current].next != None
        invariant 0 <= i < |sp| && current == sp[i]
        decreases |sp| - i
      {
        current := l.heap[current].next.value;
        i := i + 1;
      }
      LinksGoForward(l.heap, l.head, sp);
      r := ListState(l.heap[current := l.heap[current].(next := Some(addr))][addr := node], l.head, l.size + 1);
    }
    assert r == Appended(l, data, addr);
    AppendedValid(l, data, addr);
  }

  /** Taking one more element of `xs` appends that element. Stated apart from
      `Build` so that its proof does not see the definition of `Values`. */
  lemma PrefixSnoc<T>(xs: seq<T>, n: nat)
    requires n < |xs|
    ensures xs[..n + 1] == xs[..n] + [xs[n]]
  {
  }

  /** A fresh list followed by one `append` per value of `xs`, in order, each
      new node at the next unused address: the list spells `xs`, its size is
      `|xs|`, and it owns one node per call, repeated values included: the
      i-th node of the chain is the one the i-th call created. */
  method Build<T>(xs: seq<T>) returns (l: ListState<T>)
    ensures Valid(l)
    ensures Contents(l) == xs
    ensures l.size == |xs|
    ensures |Spine(l)| == |xs| && forall i | 0 <= i < |xs| :: Spine(l)[i] == i
  {
    l := Empty();
    var n := 0;
    while n < |xs|
      invariant n <= |xs|
      invariant Valid(l) && Contents(l) == xs[..n] && l.size == n
      invariant |Spine(l)| == n && forall i | 0 <= i < n :: Spine(l)[i] == i
    {
      l := Append(l, xs[n], n);
      PrefixSnoc(xs, n);
      n := n + 1;
    }
  }
}
