# Persistent reference-counted list, modelled in Dafny

This project models `src/list3.rs`: a persistent, structurally shared singly
linked list. A `List<T>` handle holds a `Link<T>`, an optional `Rc<Node<T>>`.
`prepend` allocates one node in front of the current head and clones the old
head link. `tail` clones the head's successor link. Neither rewrites an
existing node, so every handle keeps denoting the same list while other
handles are derived from it. `head` and `iter` only read. `Drop for List`
takes the handle's head and walks down the chain iteratively. While the
current node's reference count is exactly one (`Rc::try_unwrap` succeeds), it
reclaims that node and moves on to its `next`. At the first shared node it
stops, and that node loses only the reference being dropped.

The model has two layers.

- `Lists` (`lists.dfy`) is the value view. `Node`, `Link` and `List` are
  inductive datatypes of the same shape as the source's. `Elements` reads a
  link as a sequence. `New`, `Prepend`, `Tail` and `Head` are the four
  expression-bodied operations.
- `RcNodes` (`rc_nodes.dfy`) is the node table: a map from an allocation's
  address to its element, its `next` link and its strong count.
  - `Consistent` states the reference-count invariant. The table is closed,
    every `next` points to a smaller address (so every chain is acyclic and
    finite), and each count equals the number of handles holding the node plus
    the number of nodes pointing at it.
  - `Teardown` is the table that `Drop` leaves behind. The lemmas about it say
    what is freed, where the walk stops, what is kept, and that nothing leaks.
- `RcLists` (`rc_lists.dfy`) holds the imperative part.
  - `Heap` is a class whose fields are the node table, the allocation counter
    and the ghost multiset of live handle heads.
  - `Prepend`, `Tail` and `Drop` are methods that update those fields.
    `Drop` carries the source's `while let` loop with its early `break`.
  - `Iter` is a class whose `Next` advances its cursor field.
  - Each method is proved against `Lists` through the abstraction `View`.
    Every other live handle keeps its `View` across every operation.
- `Scenarios` (`scenarios.dfy`) replays the two tests of the source on the
  heap, plus two handles sharing a tail being released in either order. Each
  ends with every handle dropped and an empty node table.

## Model

| member | source | states |
|---|---|---|
| Lists.EmptyIffNoHead | src/list3.rs:5-14 | a link denotes the empty sequence exactly when it has no node |
| Lists.New | src/list3.rs:17-19 | `new()` denotes the empty sequence and its `head()` is `None` |
| Lists.Prepend | src/list3.rs:23-30 | `prepend(e)` denotes `[e]` followed by the old contents, and its head is `Some(e)` |
| Lists.Tail | src/list3.rs:33-40 | `tail()` denotes the contents without their first element, and the empty sequence for an empty list |
| Lists.Head | src/list3.rs:42-45 | `head()` is `None` exactly for the empty list, and otherwise the first element |
| Lists.TailUndoesPrepend | src/list3.rs:27 | `tail` of `prepend(e)` is the very list prepended to |
| Lists.TailOfEmpty | src/list3.rs:37 | over-draining is a no-op: the tail of an empty list is the same empty list |
| Lists.TailsDrop | src/list3.rs:33-40 | `n` tails drop the first `n` elements, and leave nothing once `n` reaches the length |
| Lists.TailsDrain | src/list3.rs:95-105 | tailing a list at least its length times leaves a list with no head |
| Lists.PrependAllElements | src/list3.rs:92-93 | after a run of prepends the contents are the prepended elements newest first, then the old ones, and the head is the newest |
| RcNodes.UniqueRun | src/list3.rs:73 | the leading run of nodes with count one is no longer than the chain |
| RcNodes.ClosedLinked | src/list3.rs:9-14 | in a closed table every link to an allocation starts a finite, acyclic chain |
| RcNodes.ChainFrame | src/list3.rs:21-22 | a chain and its contents depend only on the `elem` and `next` of the nodes it visits |
| RcNodes.ViewsKept | src/list3.rs:21-22 | when no node's `elem` or `next` is rewritten, every chain keeps its contents |
| RcNodes.UnreferencedOffChain | src/list3.rs:73-75 | a node nothing points at lies on no chain other than its own |
| RcNodes.ReleaseUnique | src/list3.rs:73-75 | reclaiming a node whose count is one keeps the table consistent, with its `next` now held by the walk, and keeps every other chain's contents |
| RcNodes.ReleaseShared | src/list3.rs:76-78 | dropping one reference to a shared node keeps the table consistent with the remaining references and rewrites no `elem` or `next` |
| RcNodes.TeardownSound | src/list3.rs:69-80 | the table after a drop is consistent with the remaining references, allocates nothing, and every remaining reference denotes the same list |
| RcNodes.CloneLink | src/list3.rs:27-37 | `Rc::clone` of a link (`self.head.clone()` at line 27, `node.next.clone()` at line 37): the target's count goes up by one, its `elem` and `next` stay, and nothing is allocated |
| RcNodes.CloneLinkFrame | src/list3.rs:27-37 | cloning a link leaves every other entry unchanged and rewrites no `elem` or `next` |
| RcNodes.Teardown | src/list3.rs:70-79 | the table the drop loop leaves (count-one nodes reclaimed down the chain, the first shared node one count lighter); its contract: every entry was allocated before, so the drop allocates nothing. `TeardownFrees`, `TeardownStops`, `TeardownKeeps` and `TeardownKeepsRest` state its effect |
| RcNodes.TeardownRewritesNothing | src/list3.rs:70-79 | every entry that survives the drop keeps its `elem` and `next` and has no more counts than before |
| RcNodes.TeardownFrees | src/list3.rs:72-75 | the drop frees exactly the leading run of count-one nodes on the chain: every node of the run is freed, and every freed node is on the run |
| RcNodes.FreedOnRun | src/list3.rs:72-78 | a node the drop removes lies on the leading count-one run |
| RcNodes.TeardownStops | src/list3.rs:76-78 | the first shared node on the chain stays allocated, with one count less and the same `elem` and `next` |
| RcNodes.TeardownKeeps | src/list3.rs:73-78 | every allocation other than the freed run and the stopping node is left unchanged |
| RcNodes.ChainDecreasing | src/list3.rs:9-14 | addresses strictly decrease along a chain, so no node appears on it twice |
| RcNodes.TeardownKeepsRest | src/list3.rs:76-78 | every node after the first shared one stays allocated with the same count, `elem` and `next` |
| RcNodes.ChainClosed | src/list3.rs:11-14 | following `next` from a node on a chain stays on that chain |
| RcNodes.NoLeak | src/list3.rs:69-80 | in a consistent table every allocation is reachable from some live handle |
| RcNodes.NoRefsNoNodes | src/list3.rs:69-80 | once no handle is left, no node is left allocated |
| RcNodes.PrependConsistent | src/list3.rs:23-30 | a new count-one node pointing at the cloned old head keeps the table consistent and rewrites no existing node |
| RcNodes.TailConsistent | src/list3.rs:33-40 | cloning the successor link for a new handle keeps the table consistent and rewrites no node |
| RcLists.Heap.constructor | src/list3.rs:5-14 | an empty node table with no handles is consistent |
| RcLists.Heap.New | src/list3.rs:17-19 | `new()` allocates nothing and denotes the empty list |
| RcLists.Heap.Prepend | src/list3.rs:21-30 | exactly one fresh node holding `elem`; the old head's count goes up by one; the new handle denotes `Lists.Prepend` of the old; every live handle, `self` included, keeps its contents |
| RcLists.Heap.Tail | src/list3.rs:32-40 | the new handle is the head's successor with one more count (none for an empty list) and denotes `Lists.Tail` of the old; every live handle keeps its contents |
| RcLists.Heap.Head | src/list3.rs:42-45 | the element under the head agrees with `Lists.Head` of the handle's contents |
| RcLists.Heap.Drop | src/list3.rs:69-80 | the loop leaves the table `Teardown` describes and terminates; the table stays consistent; the handle's reference is gone; every remaining live handle keeps its contents |
| RcLists.Heap.DropSound | src/list3.rs:69-80 | the state `Drop`'s loop ends in is consistent, and no handle still live changes contents |
| RcLists.Iter.constructor | src/list3.rs:47-51 | the cursor starts at the handle's head, so every element of the list is still to be yielded |
| RcLists.Iter.Next | src/list3.rs:61-66 | yields the first remaining element and advances past it, or yields `None` exactly when nothing remains; the list is not touched |
| Scenarios.Basics | src/list3.rs:87-106 | the heads seen are `None, 3, 2, 1, None, None`, and after the scope's drops nothing is allocated |
| Scenarios.IterScenario | src/list3.rs:108-115 | iterating `[3, 2, 1]` yields 3, 2, 1 and then `None`, and dropping the list frees everything |
| Scenarios.SharedTail | src/list3.rs:69-80 | of two handles sharing a tail, the first released frees only its own node; the shared node goes with the second; nothing leaks |

## Left out

- Memory itself: allocation is a counter of fresh addresses that are never reused, and freeing removes a map entry. `Rc` internals and the weak count are not modelled (the source never makes weak references).
- Strong-count overflow: counts are unbounded naturals.
- Handle ownership is enforced by Rust's move semantics. Here a ghost multiset of live handle heads (`Heap.roots`) records it. Every operation requires its handle to be live, and `Drop` removes the handle from that multiset.
- RcLists.Heap.Head: returns a copy of the element where the source returns `Option<&T>`, because borrowed references are not modelled.
- RcLists.Iter.Next: the borrow `Iter<'a, T>` holds on the list is not modelled. The iterator holds the heap and an address, and its contract holds only while the heap is not changed between calls, which is what the borrow guarantees.
- The stack-depth motivation for the iterative drop is about the runtime; the loop's effect and termination are modelled.
- Thread safety: the source is single-threaded and uses no atomics.
- The `#[cfg(test)]` module appears only as the scenarios in `scenarios.dfy`.
