# Singly-linked list with tail append

A model of `practice/LinkedList.py`: a `Node` holds `data` and a `next` link,
and a `LinkedList` holds `head` and `size` and has one operation, `append`.
`append` creates a node. If the list has no head, the node becomes the head.
Otherwise `append` follows `next` from `head` to the node whose `next` is
empty (the tail) and links the new node there. `size` grows by one either way.

The project has three modules.

- `Chains` (`chains.dfy`) treats the heap as a map from node references to
  cells, each holding a value and an optional successor. `IsSpine` says when a
  sequence of references is the whole chain from a first reference: finite,
  acyclic, every link live. `Walk` reads that chain off the heap and refuses
  cycles and dangling links. `Linked` is the heap update `append` makes, and
  the lemma `LinkAfterTail` proves it extends the chain by one node.
- `ListModel` (`list_model.dfy`) is the list as a state value
  `ListState(heap, head, size)` with numeric references. `Valid` says the
  chain from `head` exists, the heap holds exactly its nodes and `size` counts
  them. `Contents` is the sequence of values the chain spells. `Append` is a
  method whose `while` loop is the tail walk of the source.
- `ListObjects` (`list_objects.dfy`) is the same program over Dafny objects:
  a `Node` class and a `LinkedList` class with ghost `spine` and `contents`,
  the footprint `Repr()` and a `Valid()` predicate. Its `Valid()` states the
  chain condition directly over the objects and is independent of
  `Chains.IsSpine`; no lemma connects the two models. Its contracts use
  `old`, `fresh` and `modifies`, as mutating methods must; the same
  properties are stated over state values in `ListModel`.

Python's `if not self.head` and `while current.next` are null tests, because
`Node` defines neither `__bool__` nor `__len__`. Both are modelled as
comparisons with `None` / `null`.

## Model

| member | source | states |
|---|---|---|
| `Chains.Walk` | practice/LinkedList.py:18-20 | Following `next` from a reference, with cycles and dangling links refused, yields a sequence that is a chain in the `IsSpine` sense: distinct live nodes, each linked to the next, the last linked to nothing |
| `Chains.WalkComplete` | practice/LinkedList.py:18-20 | Every chain is found by the walk, provided none of its nodes was already visited |
| `Chains.WalkExact` | practice/LinkedList.py:18-20 | The walk from a reference succeeds with `sp` if and only if `sp` is the chain from that reference |
| `Chains.SpineUnique` | practice/LinkedList.py:18-20 | A reference starts at most one chain, so the contents of a list are determined by its `head` |
| `Chains.LinksGoForward` | practice/LinkedList.py:19-21 | In a chain every link goes to the very next position (no link leads back), and the last node is the only one whose `next` is empty, so the loop stops exactly at the tail |
| `Chains.ValuesAt` | practice/LinkedList.py:2-4 | The values a chain spells are one per node, and the i-th is the `data` the i-th node stores |
| `Chains.LinkAfterTail` | practice/LinkedList.py:12-21 | Creating a fresh node and linking it after the tail, or making it the first node of an empty chain, extends the chain by that node and its values by the appended value |
| `ListModel.NewNode` | practice/LinkedList.py:2-4 | `Node(data)` stores `data` and links to nothing |
| `ListModel.Empty` | practice/LinkedList.py:7-9 | A new list has no head and size 0; it is valid and spells the empty sequence |
| `ListModel.ValidShape` | practice/LinkedList.py:7-22 | In a valid list `size` is the number of values, and `head` is empty exactly when the list spells nothing, exactly when `size` is 0 |
| `ListModel.Appended` | practice/LinkedList.py:12-22 | The state after `append` has exactly one more node, at the new address, holding `data` with an empty `next`; `head` becomes that node only if the list was empty and is otherwise unchanged; `size` is one larger |
| `ListModel.AppendedValid` | practice/LinkedList.py:11-22 | After `append(data)` the list is still valid, its chain is the old chain plus the new node at the end, it spells the old values followed by `data`, and `size` grew by exactly 1 |
| `ListModel.AppendedFrame` | practice/LinkedList.py:18-21 | `append` changes no stored `data`, and the only `next` it writes is the old tail's, from empty to the new node |
| `ListModel.Append` | practice/LinkedList.py:11-22 | The loop that follows `next` from `head` while it is not empty stops at the chain's last node, so the method produces the state `Appended` describes: valid, spelling the old values plus `data`, `size` one larger, `head` set to the new node only when the list was empty |
| `ListModel.Build` | practice/LinkedList.py:7-22 | A new list after appending `v1 … vn` in order spells exactly `v1 … vn` and has size n; the i-th node of its chain is the one the i-th call created, so equal values still get separate nodes |
| `ListObjects.Node.constructor` | practice/LinkedList.py:2-4 | `Node(data)` stores `data` and sets `next` to null |
| `ListObjects.LinkedList.constructor` | practice/LinkedList.py:7-9 | `LinkedList()` sets `head` to null and `size` to 0; the list is valid and holds no values |
| `ListObjects.LinkedList.Valid` | practice/LinkedList.py:6-22 | A valid list object has `size` equal to the number of values and `head == null` exactly when it holds no values |
| `ListObjects.LinkedList.FindTail` | practice/LinkedList.py:18-20 | The walk from `head` along non-null `next` links ends at the last node of the chain, whose `next` is null |
| `ListObjects.LinkedList.Append` | practice/LinkedList.py:11-22 | `append` keeps the object list valid, appends `data` to its contents, grows `size` by one, keeps a non-null `head`, makes a fresh node with `data` and null `next` the head of an empty list, changes no node's `data` and writes only the old tail's `next` |

## Left out

- Allocation: `ListModel.Append` takes the new node's address as a parameter, with the requirement that no live node uses it. This is the guarantee a fresh `Node(data)` object carries in the source. `ListModel.Build` picks the addresses itself, and `ListObjects` uses Dafny's `new`.
- Dynamic typing of `data`: the element type is a type parameter `T`.
- Memory management: nothing is ever freed, and the model keeps every node.
