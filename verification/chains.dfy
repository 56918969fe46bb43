/** Node chains over an abstract heap.

    A heap maps each live node reference to its cell: the value it stores and
    the reference of its successor, or nothing when it is the last node. The
    chain that starts at a reference is what a list "spells": follow `next`
    until it runs out. This module says when such a chain exists (it must be
    finite and acyclic), reads it off the heap, and proves the one heap update
    a tail-append performs turns the chain into the same chain plus one node.
 */
module Chains {

  datatype Option<+T> = None | Some(value: T)

  /** One node object: its payload and the link to its successor. */
  datatype Cell<R, T> = Cell(data: T, next: Option<R>)

  type Heap<R, T> = map<R, Cell<R, T>>

  /** No element occurs twice. */
  predicate Distinct<R(==)>(s: seq<R>)
  {
    forall i, j | 0 <= i < j < |s| :: s[i] != s[j]
  }

  /** `sp` is the whole chain reached from `first`: every node is live, no node
      occurs twice (the chain is acyclic), `first` names the first node (nothing
      when the chain is empty), each node links to the one after it and the
      last node links to nothing. */
  predicate IsSpine<R, T>(h: Heap<R, T>, first: Option<R>, sp: seq<R>)
  {
    && (forall i | 0 <= i < |sp| :: sp[i] in h)
    && Distinct(sp)
    && first == (if sp == [] then None else Some(sp[0]))
    && (forall i | 0 <= i < |sp| - 1 :: h[sp[i]].next == Some(sp[i + 1]))
    && (sp != [] ==> h[sp[|sp| - 1]].next == None)
  }

  function Last<R>(sp: seq<R>): R
    requires sp != []
  {
    sp[|sp| - 1]
  }

  /** Follows `next` from `first`, refusing a reference that is not live or
      that was already visited (`seen`). Returns the nodes visited, in order. */
  function Walk<R, T>(h: Heap<R, T>, first: Option<R>, seen: set<R>): (r: Option<seq<R>>)
    ensures r.Some? ==> IsSpine(h, first, r.value)
    ensures r.Some? ==> forall i | 0 <= i < |r.value| :: r.value[i] !in seen
    decreases h.Keys - seen
  {
    match first
    case None => Some([])
    case Some(a) =>
      if a !in h || a in seen then None
      else
        match Walk(h, h[a].next, seen + {a})
        case None => None
        case Some(rest) =>
          var sp := [a] + rest;
          assert forall i | 0 < i < |sp| :: sp[i] == rest[i - 1];
          Some(sp)
  }

  /** Every chain is found by the walk, provided none of its nodes counts as visited. */
  lemma {:induction false} WalkComplete<R, T>(h: Heap<R, T>, first: Option<R>, sp: seq<R>, seen: set<R>)
    requires IsSpine(h, first, sp)
    requires forall i | 0 <= i < |sp| :: sp[i] !in seen
    ensures Walk(h, first, seen) == Some(sp)
    decreases |sp|
  {
    if sp != [] {
      var a := sp[0];
      var rest := sp[1..];
      assert forall i | 0 <= i < |rest| :: rest[i] == sp[i + 1];
      assert IsSpine(h, h[a].next, rest);
      WalkComplete(h, h[a].next, rest, seen + {a});
      assert [a] + rest == sp;
    }
  }

  /** Reading the heap from `first` yields exactly the chains there are: the walk
      succeeds with `sp` if and only if `sp` is the chain from `first`. */
  lemma WalkExact<R, T>(h: Heap<R, T>, first: Option<R>, sp: seq<R>)
    ensures Walk(h, first, {}) == Some(sp) <==> IsSpine(h, first, sp)
  {
    if IsSpine(h, first, sp) {
      WalkComplete(h, first, sp, {});
    }
  }

  /** A reference starts at most one chain. */
  lemma SpineUnique<R, T>(h: Heap<R, T>, first: Option<R>, a: seq<R>, b: seq<R>)
    requires IsSpine(h, first, a) && IsSpine(h, first, b)
    ensures a == b
  {
    WalkComplete(h, first, a, {});
    WalkComplete(h, first, b, {});
  }

  /** Acyclicity in link terms: every link inside a chain points strictly
      forward, to the very next position, and the last node is the only one
      whose link is empty. */
  lemma LinksGoForward<R, T>(h: Heap<R, T>, first: Option<R>, sp: seq<R>)
    requires IsSpine(h, first, sp)
    ensures forall i, j | 0 <= i < |sp| && 0 <= j < |sp| :: h[sp[i]].next == Some(sp[j]) ==> j == i + 1
    ensures forall i | 0 <= i < |sp| :: h[sp[i]].next == None <==> i == |sp| - 1
  {
    forall i, j | 0 <= i < |sp| && 0 <= j < |sp| && h[sp[i]].next == Some(sp[j])
      ensures j == i + 1
    {
      if i + 1 < |sp| {
        assert sp[i + 1] == sp[j];
      }
    }
    forall i | 0 <= i < |sp| - 1
      ensures h[sp[i]].next != None
    {
      assert h[sp[i]].next == Some(sp[i + 1]);
    }
  }

  /** The values stored along a chain, first node first. */
  function Values<R, T>(h: Heap<R, T>, sp: seq<R>): seq<T>
    requires forall i | 0 <= i < |sp| :: sp[i] in h
  {
    if sp == [] then [] else [h[sp[0]].data] + Values(h, sp[1..])
  }

  /** One value per node, and the i-th value is the one the i-th node stores. */
  lemma {:induction false} ValuesAt<R, T>(h: Heap<R, T>, sp: seq<R>)
    requires forall i | 0 <= i < |sp| :: sp[i] in h
    ensures |Values(h, sp)| == |sp|
    ensures forall i | 0 <= i < |sp| :: Values(h, sp)[i] == h[sp[i]].data
    decreases |sp|
  {
    if sp != [] {
      var rest := sp[1..];
      assert forall i | 0 <= i < |rest| :: rest[i] == sp[i + 1];
      ValuesAt(h, rest);
    }
  }

  /** The heap after a node `n` holding `x` is created and, when the chain is
      non-empty, linked after its last node. */
  function Linked<R, T>(h: Heap<R, T>, sp: seq<R>, n: R, x: T): Heap<R, T>
    requires sp != [] ==> Last(sp) in h
  {
    if sp == [] then h[n := Cell(x, None)]
    else h[Last(sp) := h[Last(sp)].(next := Some(n))][n := Cell(x, None)]
  }

  /** Linking a fresh node after the tail extends the chain by that node and
      its values by `x`; on an empty chain the new node becomes the whole chain. */
  lemma LinkAfterTail<R, T>(h: Heap<R, T>, first: Option<R>, sp: seq<R>, n: R, x: T)
    requires IsSpine(h, first, sp)
    requires n !in h
    ensures IsSpine(Linked(h, sp, n, x), if sp == [] then Some(n) else first, sp + [n])
    ensures Values(Linked(h, sp, n, x), sp + [n]) == Values(h, sp) + [x]
  {
    var h' := Linked(h, sp, n, x);
    ValuesAt(h, sp);
    ValuesAt(h', sp + [n]);
    assert forall i | 0 <= i < |sp| :: (sp + [n])[i] == sp[i] && sp[i] != n;
  }
}
