/**
 * The persistent list over its reference-counted nodes. A `Heap` holds every
 * live `Rc<Node<T>>` allocation; list handles are values that hold an optional
 * pointer to their head allocation. `new`, `prepend`, `tail`, `head` and
 * `iter` never rewrite an existing node; `Drop for List` releases a handle's
 * head iteratively, reclaiming nodes only while they are not shared.
 */
module RcLists {
  import opened Options
  import Lists
  import opened RcNodes

  /** `List { head: Link<T> }`: a handle, holding one reference on its head allocation. */
  datatype List = List(head: Option<Ptr>)

  class Heap<T> {
    /** The live allocations. */
    var nodes: Nodes<T>
    /** Where the next allocation goes; addresses are never reused. */
    var nextId: Ptr
    /** The heads of the live handles, one entry per handle. */
    ghost var roots: multiset<Ptr>

    ghost predicate Valid()
      reads this
    {
      Consistent(nodes, roots) && forall q :: q in nodes ==> q < nextId
    }

    /** The handle has not been dropped: an empty handle, or one whose head reference is still counted. */
    ghost predicate Live(l: List)
      reads this
    {
      l.head.None? || l.head.value in roots
    }

    /** The value a live handle denotes. */
    ghost function View(l: List): Lists.List<T>
      reads this
      requires Valid() && Live(l)
    {
      ClosedLinked(nodes, l.head);
      Lists.List(Abs(nodes, l.head))
    }

    constructor ()
      ensures Valid() && nodes == map[] && nextId == 0 && roots == multiset{}
    {
      nodes := map[];
      nextId := 0;
      roots := multiset{};
    }

    /** `List::new`: a handle with no head; nothing is allocated. */
    function New(): (l: List)
      reads this
      requires Valid()
      ensures Live(l) && View(l) == Lists.New()
    {
      List(None)
    }

    /**
     * `List::prepend`: allocates exactly one node, holding `elem`, whose `next`
     * is a clone of the old head (one more count on it). No existing node is
     * rewritten, so every live handle, `l` included, keeps its value.
     */
    method Prepend(l: List, elem: T) returns (r: List)
      requires Valid() && Live(l)
      modifies this
      ensures Valid() && Live(r)
      ensures r.head == Some(old(nextId)) && old(nextId) !in old(nodes) && nextId == old(nextId) + 1
      ensures nodes == CloneLink(old(nodes), l.head)[old(nextId) := RcNode(elem, l.head, 1)]
      ensures roots == old(roots) + multiset{old(nextId)}
      ensures View(r) == Lists.Prepend(old(View(l)), elem)
      ensures forall h :: old(Live(h)) ==> Live(h) && View(h) == old(View(h))
    {
      ghost var before := nodes;
      var id := nextId;
      PrependConsistent(nodes, roots, l.head, id, elem);
      nodes := CloneLink(nodes, l.head)[id := RcNode(elem, l.head, 1)];
      nextId := nextId + 1;
      roots := roots + multiset{id};
      r := List(Some(id));
      ClosedLinked(before, l.head);
      ViewsKept(before, nodes, l.head);
      forall h | old(Live(h))
        ensures Live(h) && View(h) == old(View(h))
      {
        ClosedLinked(before, h.head);
        ViewsKept(before, nodes, h.head);
      }
    }

    /**
     * `List::tail`: a new handle on the head's successor, sharing it (one more
     * count); an empty list's tail is empty again. Nothing is rewritten.
     */
    method Tail(l: List) returns (r: List)
      requires Valid() && Live(l)
      modifies this
      ensures Valid() && Live(r)
      ensures r.head == (if l.head.None? then None else old(nodes)[l.head.value].next)
      ensures nodes == CloneLink(old(nodes), r.head) && nextId == old(nextId)
      ensures roots == old(roots) + Refs(r.head)
      ensures View(r) == Lists.Tail(old(View(l)))
      ensures forall h :: old(Live(h)) ==> Live(h) && View(h) == old(View(h))
    {
      ghost var before := nodes;
      var next := if l.head.None? then None else nodes[l.head.value].next;
      TailConsistent(nodes, roots, next);
      nodes := CloneLink(nodes, next);
      roots := roots + Refs(next);
      r := List(next);
      ClosedLinked(before, l.head);
      ViewsKept(before, nodes, l.head);
      ClosedLinked(before, next);
      ViewsKept(before, nodes, next);
      forall h | old(Live(h))
        ensures Live(h) && View(h) == old(View(h))
      {
        ClosedLinked(before, h.head);
        ViewsKept(before, nodes, h.head);
      }
    }

    /** `List::head`: the element of the head node, if there is one. */
    function Head(l: List): (r: Option<T>)
      reads this
      requires Valid() && Live(l)
      ensures r == Lists.Head(View(l))
    {
      if l.head.None? then None else Some(nodes[l.head.value].elem)
    }

    /**
     * `Drop for List`: the handle's head is taken, then, while the current node
     * is referenced only by the link being released, it is reclaimed and its
     * `next` becomes the current link; at the first shared node its count drops
     * by one and the loop stops. Every other live handle keeps its value.
     */
    method Drop(l: List)
      requires Valid() && Live(l)
      modifies this
      ensures Valid()
      ensures roots == old(roots) - Refs(l.head) && nextId == old(nextId)
      ensures Linked(old(nodes), l.head) && nodes == Teardown(old(nodes), l.head)
      ensures forall h :: Live(h) ==> old(Live(h)) && View(h) == old(View(h))
    {
      var head := l.head;
      roots := roots - Refs(head);
      ClosedLinked(nodes, head);
      ghost var after := Teardown(nodes, head);
      while head.Some?
        invariant roots == old(roots) - Refs(l.head) && nextId == old(nextId)
        invariant Linked(nodes, head) && Teardown(nodes, head) == after
        decreases Rank(head)
      {
        var p := head.value;
        if nodes[p].strong == 1 {
          // `Rc::try_unwrap` succeeds: this link was the only reference.
          LinkedWithout(nodes, p);
          head := nodes[p].next;
          nodes := nodes - {p};
        } else {
          // Still shared: the reference is dropped and the teardown stops.
          nodes := nodes[p := nodes[p].(strong := nodes[p].strong - 1)];
          break;
        }
      }
      assert nodes == after;
      DropSound(l);
    }

    /** What `Drop` leaves behind: a valid heap in which every handle still live keeps its value. */
    twostate lemma DropSound(l: List)
      requires old(Valid()) && old(Live(l))
      requires roots == old(roots) - Refs(l.head) && nextId == old(nextId)
      requires Linked(old(nodes), l.head) && nodes == Teardown(old(nodes), l.head)
      ensures Valid()
      ensures forall h :: Live(h) ==> old(Live(h)) && View(h) == old(View(h))
    {
      assert old(roots) == roots + Refs(l.head);
      TeardownSound(old(nodes), roots, l.head);
      forall h | Live(h)
        ensures old(Live(h)) && View(h) == old(View(h))
      {
        if h.head.Some? {
          assert h.head.value in old(roots);
        }
      }
    }
  }

  /** `Iter`: a cursor on a node of the heap, advanced by `next`. */
  class Iter<T> {
    const heap: Heap<T>
    var next: Option<Ptr>

    ghost predicate Valid()
      reads this, heap
    {
      heap.Valid() && (next.Some? ==> next.value in heap.nodes)
    }

    /** The elements still to be yielded. */
    ghost function Remaining(): seq<T>
      reads this, heap
      requires Valid()
    {
      ClosedLinked(heap.nodes, next);
      Lists.Elements(Abs(heap.nodes, next))
    }

    /** `List::iter`: a cursor on the handle's head, so every element is still to come. */
    constructor (heap: Heap<T>, l: List)
      requires heap.Valid() && heap.Live(l)
      ensures this.heap == heap && Valid()
      ensures Remaining() == Lists.Elements(heap.View(l).head)
    {
      this.heap := heap;
      next := l.head;
    }

    /**
     * `Iter::next`: the element under the cursor, the cursor moving on to the
     * node's successor; `None` once the chain is exhausted. The list is not touched.
     */
    method Next() returns (item: Option<T>)
      requires Valid()
      modifies this
      ensures Valid()
      ensures item.None? <==> old(Remaining()) == []
      ensures item.Some? ==> item.value == old(Remaining())[0] && Remaining() == old(Remaining())[1..]
      ensures item.None? ==> next == old(next)
    {
      ClosedLinked(heap.nodes, next);
      if next.None? {
        item := None;
      } else {
        var node := heap.nodes[next.value];
        ClosedLinked(heap.nodes, node.next);
        next := node.next;
        item := Some(node.elem);
      }
    }
  }
}
