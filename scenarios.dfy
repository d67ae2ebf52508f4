/**
 * The behaviour the list's own tests describe, replayed on the heap model.
 * Rust drops the temporaries of a statement at its end, newest first, and the
 * bindings of a scope at its end, newest first (a shadowed `let list` stays
 * alive until then); the explicit `Drop` calls below follow that order. Each
 * scenario ends with every handle released and proves that nothing is left
 * allocated.
 */
module Scenarios {
  import opened Options
  import Lists
  import opened RcNodes
  import opened RcLists

  /**
   * `l.prepend(1).prepend(2).prepend(3)` up to the end of the statement: three
   * new handles, each holding one new reference, the last denoting `[3, 2, 1]`
   * in front of `l`.
   */
  method PrependOneTwoThree(heap: Heap<int>, l: List) returns (t1: List, t2: List, r: List)
    requires heap.Valid() && heap.Live(l)
    modifies heap
    ensures heap.Valid() && heap.Live(t1) && heap.Live(t2) && heap.Live(r)
    ensures t1.head.Some? && t2.head.Some? && r.head.Some?
    ensures heap.roots == old(heap.roots) + multiset{t1.head.value, t2.head.value, r.head.value}
    ensures heap.View(r) == Lists.Prepend(Lists.Prepend(Lists.Prepend(old(heap.View(l)), 1), 2), 3)
  {
    t1 := heap.Prepend(l, 1);
    t2 := heap.Prepend(t1, 2);
    r := heap.Prepend(t2, 3);
  }

  /** The end of that statement: the two temporaries go, newest first; the result keeps its value. */
  method DropTemporaries(heap: Heap<int>, t1: List, t2: List, r: List)
    requires heap.Valid() && heap.Live(t1) && heap.Live(t2) && heap.Live(r)
    requires t1.head.Some? && t2.head.Some? && r.head.Some?
    requires heap.roots == multiset{t1.head.value, t2.head.value, r.head.value}
    modifies heap
    ensures heap.Valid() && heap.Live(r) && heap.View(r) == old(heap.View(r))
    ensures heap.roots == multiset{r.head.value}
  {
    heap.Drop(t2);
    heap.Drop(t1);
  }

  /** The four `let list = list.tail()` steps of the `basics` test and the heads they show. */
  method TailsAndHeads(heap: Heap<int>, l3: List)
    returns (l4: List, l5: List, l6: List, l7: List, h4: Option<int>, h5: Option<int>, h6: Option<int>, h7: Option<int>)
    requires heap.Valid() && heap.Live(l3)
    requires Lists.Elements(heap.View(l3).head) == [3, 2, 1]
    modifies heap
    ensures h4 == Some(2) && h5 == Some(1) && h6 == None && h7 == None
    ensures heap.Valid()
    ensures heap.roots == old(heap.roots) + Refs(l4.head) + Refs(l5.head) + Refs(l6.head) + Refs(l7.head)
  {
    l4 := heap.Tail(l3);
    h4 := heap.Head(l4);
    l5 := heap.Tail(l4);
    h5 := heap.Head(l5);
    l6 := heap.Tail(l5);
    h6 := heap.Head(l6);
    l7 := heap.Tail(l6);
    h7 := heap.Head(l7);
  }

  /** The end of the `basics` scope: its six `list` bindings are dropped, newest first, and nothing is left. */
  method EndOfScope(heap: Heap<int>, l0: List, l3: List, l4: List, l5: List, l6: List, l7: List)
    requires heap.Valid()
    requires heap.roots ==
      Refs(l0.head) + Refs(l3.head) + Refs(l4.head) + Refs(l5.head) + Refs(l6.head) + Refs(l7.head)
    modifies heap
    ensures heap.nodes == map[]
  {
    heap.Drop(l7);
    heap.Drop(l6);
    heap.Drop(l5);
    heap.Drop(l4);
    heap.Drop(l3);
    heap.Drop(l0);
    NoRefsNoNodes(heap.nodes, heap.nextId);
  }

  /** The first four lines of the `basics` test: `list` is empty, then the new `list` is `[3, 2, 1]`. */
  method BasicsPrologue(heap: Heap<int>) returns (l0: List, l3: List, h0: Option<int>, h3: Option<int>)
    requires heap.Valid() && heap.roots == multiset{}
    modifies heap
    ensures heap.Valid() && heap.Live(l3) && l0.head.None? && l3.head.Some?
    ensures heap.roots == multiset{l3.head.value}
    ensures Lists.Elements(heap.View(l3).head) == [3, 2, 1]
    ensures h0 == None && h3 == Some(3)
  {
    l0 := heap.New();
    h0 := heap.Head(l0);
    var t1, t2;
    t1, t2, l3 := PrependOneTwoThree(heap, l0);
    DropTemporaries(heap, t1, t2, l3);
    h3 := heap.Head(l3);
  }

  /** The `basics` test: the heads seen along `new`, three prepends and four tails. */
  method Basics() returns (heads: seq<Option<int>>, heap: Heap<int>)
    ensures heads == [None, Some(3), Some(2), Some(1), None, None]
    ensures heap.nodes == map[]
  {
    heap := new Heap<int>();
    var l0, l3, h0, h3 := BasicsPrologue(heap);
    var l4, l5, l6, l7, h4, h5, h6, h7 := TailsAndHeads(heap, l3);
    heads := [h0, h3, h4, h5, h6, h7];
    EndOfScope(heap, l0, l3, l4, l5, l6, l7);
  }

  /** The three `next` calls of the `iter` test on a list denoting `[3, 2, 1]`, and one more that finds the end. */
  method IterNexts(heap: Heap<int>, list: List) returns (items: seq<Option<int>>)
    requires heap.Valid() && heap.Live(list)
    requires Lists.Elements(heap.View(list).head) == [3, 2, 1]
    ensures items == [Some(3), Some(2), Some(1), None]
  {
    var iter := new Iter(heap, list);
    var a := iter.Next();
    var b := iter.Next();
    var c := iter.Next();
    var d := iter.Next();
    items := [a, b, c, d];
  }

  /** The first line of the `iter` test: its three temporaries go, the handle denoting `[3, 2, 1]` stays. */
  method IterPrologue(heap: Heap<int>) returns (list: List)
    requires heap.Valid() && heap.roots == multiset{}
    modifies heap
    ensures heap.Valid() && heap.Live(list) && list.head.Some?
    ensures heap.roots == multiset{list.head.value}
    ensures Lists.Elements(heap.View(list).head) == [3, 2, 1]
  {
    var t0 := heap.New();
    var t1, t2;
    t1, t2, list := PrependOneTwoThree(heap, t0);
    DropTemporaries(heap, t1, t2, list);
    heap.Drop(t0);
  }

  /** The `iter` test: `List::new().prepend(1).prepend(2).prepend(3)` is iterated, then dropped. */
  method IterScenario() returns (items: seq<Option<int>>, heap: Heap<int>)
    ensures items == [Some(3), Some(2), Some(1), None]
    ensures heap.nodes == map[]
  {
    heap := new Heap<int>();
    var list := IterPrologue(heap);
    items := IterNexts(heap, list);
    heap.Drop(list);
    NoRefsNoNodes(heap.nodes, heap.nextId);
  }

  /**
   * `let empty = List::new(); let base = empty.prepend(1); let a = base.prepend(2);`
   * on a fresh heap: allocations 0 (holding 1) and 1 (holding 2, pointing at 0).
   */
  method BaseAndA(heap: Heap<int>) returns (empty: List, base: List, a: List)
    requires heap.Valid() && heap.nodes == map[] && heap.nextId == 0 && heap.roots == multiset{}
    modifies heap
    ensures heap.Valid() && heap.nextId == 2 && heap.roots == multiset{0, 1}
    ensures empty.head.None? && base.head == Some(0) && a.head == Some(1)
    ensures heap.nodes == map[0 := RcNode(1, None, 2), 1 := RcNode(2, Some(0), 1)]
  {
    empty := heap.New();
    base := heap.Prepend(empty, 1);
    a := heap.Prepend(base, 2);
  }

  /** `let b = base.prepend(3);`: allocation 2 (holding 3) shares allocation 0 with `a`. */
  method AddB(heap: Heap<int>, base: List) returns (b: List)
    requires heap.Valid() && heap.nextId == 2 && heap.roots == multiset{0, 1} && base.head == Some(0)
    requires heap.nodes == map[0 := RcNode(1, None, 2), 1 := RcNode(2, Some(0), 1)]
    modifies heap
    ensures heap.Valid() && heap.roots == multiset{0, 1, 2} && b.head == Some(2)
    ensures heap.nodes == map[0 := RcNode(1, None, 3), 1 := RcNode(2, Some(0), 1), 2 := RcNode(3, Some(0), 1)]
  {
    b := heap.Prepend(base, 3);
  }

  /** `drop(base)`: allocation 0 is still shared by `a` and `b`, so only its count drops. */
  method DropBase(heap: Heap<int>, base: List)
    requires heap.Valid() && heap.roots == multiset{0, 1, 2} && base.head == Some(0)
    requires heap.nodes == map[0 := RcNode(1, None, 3), 1 := RcNode(2, Some(0), 1), 2 := RcNode(3, Some(0), 1)]
    modifies heap
    ensures heap.Valid() && heap.roots == multiset{1, 2}
    ensures heap.nodes == map[0 := RcNode(1, None, 2), 1 := RcNode(2, Some(0), 1), 2 := RcNode(3, Some(0), 1)]
  {
    heap.Drop(base);
  }

  /**
   * Releasing one of the two sharing handles: its own head node is reclaimed,
   * and the shared node survives with one count.
   */
  method ReleaseFirst(heap: Heap<int>, first: List, second: List)
    requires heap.Valid() && heap.roots == multiset{1, 2}
    requires (first.head, second.head) in {(Some(1), Some(2)), (Some(2), Some(1))}
    requires heap.nodes == map[0 := RcNode(1, None, 2), 1 := RcNode(2, Some(0), 1), 2 := RcNode(3, Some(0), 1)]
    modifies heap
    ensures heap.Valid() && heap.roots == multiset{second.head.value}
    ensures heap.nodes.Keys == {0, second.head.value} && heap.nodes[0].strong == 1
  {
    heap.Drop(first);
  }

  /**
   * Two handles share a tail and are released in either order: the first
   * release frees only its own node, the shared node goes with the second, and
   * then nothing is left.
   */
  method SharedTail(aFirst: bool) returns (kept: set<Ptr>, heap: Heap<int>)
    ensures kept == {0, if aFirst then 2 else 1}
    ensures heap.nodes == map[]
  {
    heap := new Heap<int>();
    var empty, base, a := BaseAndA(heap);
    var b := AddB(heap, base);
    DropBase(heap, base);
    var first, second := a, b;
    if !aFirst {
      first, second := b, a;
    }
    ReleaseFirst(heap, first, second);
    kept := heap.nodes.Keys;
    heap.Drop(second);
    heap.Drop(empty);
    NoRefsNoNodes(heap.nodes, heap.nextId);
  }
}
