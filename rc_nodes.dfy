/**
 * The reference-counted node table behind the persistent list. Every
 * `Rc<Node<T>>` allocation is an entry of a map from its address to the node's
 * element, its `next` link and its strong count. Nothing here rewrites the
 * `elem` or `next` of an entry that already exists: new entries are added,
 * counts change, and entries are removed when their last reference goes.
 */
module RcNodes {
  import opened Options
  import Lists

  /** The address of one `Rc<Node<T>>` allocation. */
  type Ptr = nat

  /** An `Rc` strong count; an allocation whose count reaches zero is no longer in the table. */
  type Count = n: nat | n > 0 witness 1

  /** An allocation: the `Node { elem, next }` and the `Rc` strong count beside it. */
  datatype RcNode<T> = RcNode(elem: T, next: Option<Ptr>, strong: Count)

  type Nodes<T> = map<Ptr, RcNode<T>>

  function Rank(link: Option<Ptr>): nat
  {
    if link.None? then 0 else link.value + 1
  }

  /** The references a link holds: one on its target, if it has one. */
  function Refs(link: Option<Ptr>): multiset<Ptr>
  {
    if link.None? then multiset{} else multiset{link.value}
  }

  /**
   * The chain from `link` is allocated all the way down and each `next` points
   * to a strictly smaller address, so the chain is finite and acyclic.
   */
  ghost predicate Linked<T>(nodes: Nodes<T>, link: Option<Ptr>)
    decreases Rank(link)
  {
    link.None? ||
    (link.value in nodes &&
     Rank(nodes[link.value].next) <= link.value &&
     Linked(nodes, nodes[link.value].next))
  }

  /** The abstraction function: the value-level chain that a link denotes. */
  ghost function Abs<T>(nodes: Nodes<T>, link: Option<Ptr>): Lists.Link<T>
    requires Linked(nodes, link)
    decreases Rank(link)
  {
    if link.None? then None
    else Some(Lists.Node(nodes[link.value].elem, Abs(nodes, nodes[link.value].next)))
  }

  /** The addresses met walking down the chain from `link`. */
  ghost function Chain<T>(nodes: Nodes<T>, link: Option<Ptr>): (c: seq<Ptr>)
    requires Linked(nodes, link)
    ensures forall q :: q in c ==> q in nodes && q < Rank(link)
    decreases Rank(link)
  {
    if link.None? then [] else [link.value] + Chain(nodes, nodes[link.value].next)
  }

  /** The number of leading nodes of the chain whose strong count is exactly one. */
  ghost function UniqueRun<T>(nodes: Nodes<T>, link: Option<Ptr>): (k: nat)
    requires Linked(nodes, link)
    ensures k <= |Chain(nodes, link)|
    decreases Rank(link)
  {
    if link.None? || nodes[link.value].strong != 1 then 0
    else 1 + UniqueRun(nodes, nodes[link.value].next)
  }

  /** The allocations whose `next` points at `p`. */
  ghost function Preds<T>(nodes: Nodes<T>, p: Ptr): set<Ptr>
  {
    set q | q in nodes && nodes[q].next == Some(p)
  }

  /** Every `next` is allocated and points to a smaller address. */
  ghost predicate Closed<T>(nodes: Nodes<T>)
  {
    forall q {:trigger nodes[q]} :: q in nodes ==>
      Rank(nodes[q].next) <= q && (nodes[q].next.Some? ==> nodes[q].next.value in nodes)
  }

  /**
   * The table is consistent with the external references `refs` (the heads of
   * the live list handles, and any local link still being held): it is closed,
   * every external reference is allocated, and every strong count is the
   * number of external references plus the number of nodes pointing at it.
   */
  ghost predicate Consistent<T>(nodes: Nodes<T>, refs: multiset<Ptr>)
  {
    && Closed(nodes)
    && (forall q :: q in refs ==> q in nodes)
    && (forall q {:trigger Preds(nodes, q)} :: q in nodes ==> nodes[q].strong == refs[q] + |Preds(nodes, q)|)
  }

  /** In a closed table every link to an allocation starts a linked chain. */
  lemma {:induction false} ClosedLinked<T>(nodes: Nodes<T>, link: Option<Ptr>)
    requires Closed(nodes) && (link.Some? ==> link.value in nodes)
    ensures Linked(nodes, link)
    decreases Rank(link)
  {
    if link.Some? {
      assert nodes[link.value].next == nodes[link.value].next;
      ClosedLinked(nodes, nodes[link.value].next);
    }
  }

  /**
   * `Rc::clone` of a link (`self.head.clone()`, `node.next.clone()`): the
   * target gains one strong reference and nothing is allocated
   * (`CloneLinkFrame`: nothing else changes).
   */
  function CloneLink<T>(nodes: Nodes<T>, link: Option<Ptr>): (c: Nodes<T>)
    requires link.Some? ==> link.value in nodes
    ensures c.Keys == nodes.Keys
    ensures link.Some? ==> c[link.value] == nodes[link.value].(strong := nodes[link.value].strong + 1)
  {
    if link.None? then nodes
    else nodes[link.value := nodes[link.value].(strong := nodes[link.value].strong + 1)]
  }

  /**
   * The node table after `Drop for List` releases `link`: while the current
   * node's count is exactly one it is reclaimed and its `next` becomes the
   * current link; at the first shared node the count is decremented and the
   * walk stops. Nothing is allocated (`TeardownRewritesNothing`: no
   * surviving node's `elem` or `next` is rewritten).
   */
  ghost function Teardown<T>(nodes: Nodes<T>, link: Option<Ptr>): (after: Nodes<T>)
    requires Linked(nodes, link)
    ensures after.Keys <= nodes.Keys
    decreases Rank(link)
  {
    if link.None? then nodes
    else
      var p := link.value;
      if nodes[p].strong == 1 then
        LinkedWithout(nodes, p);
        Teardown(nodes - {p}, nodes[p].next)
      else
        nodes[p := nodes[p].(strong := nodes[p].strong - 1)]
  }

  /** Cloning a link changes no other entry and rewrites no `elem` or `next`. */
  lemma CloneLinkFrame<T>(nodes: Nodes<T>, link: Option<Ptr>)
    requires link.Some? ==> link.value in nodes
    ensures LinksKept(nodes, CloneLink(nodes, link))
    ensures forall q :: q in nodes && link != Some(q) ==> CloneLink(nodes, link)[q] == nodes[q]
  {
  }

  /** `Drop` rewrites no node: every entry that survives it has its old `elem` and `next`, and no more counts. */
  lemma {:induction false} TeardownRewritesNothing<T>(nodes: Nodes<T>, link: Option<Ptr>)
    requires Linked(nodes, link)
    ensures LinksKept(Teardown(nodes, link), nodes)
    ensures forall q :: q in Teardown(nodes, link) ==> Teardown(nodes, link)[q].strong <= nodes[q].strong
    decreases Rank(link)
  {
    if link.Some? && nodes[link.value].strong == 1 {
      var p := link.value;
      LinkedWithout(nodes, p);
      TeardownRewritesNothing(nodes - {p}, nodes[p].next);
    }
  }

  /**
   * A chain only depends on the entries it visits: another table that keeps
   * their `elem` and `next` has the same chain and the same abstract value (and
   * the same run of unique nodes when it also keeps their counts).
   */
  lemma {:induction false} ChainFrame<T>(a: Nodes<T>, b: Nodes<T>, link: Option<Ptr>)
    requires Linked(a, link)
    requires forall q :: q in Chain(a, link) ==>
               q in a && q in b && b[q].elem == a[q].elem && b[q].next == a[q].next
    ensures Linked(b, link) && Chain(b, link) == Chain(a, link) && Abs(b, link) == Abs(a, link)
    ensures (forall q :: q in Chain(a, link) ==> q in a && q in b && b[q].strong == a[q].strong) ==>
              UniqueRun(b, link) == UniqueRun(a, link)
    decreases Rank(link)
  {
    if link.Some? {
      var p := link.value;
      assert p in Chain(a, link);
      ChainFrame(a, b, a[p].next);
    }
  }

  /** Removing a node leaves its successor's chain intact, since that chain only holds smaller addresses. */
  lemma LinkedWithout<T>(nodes: Nodes<T>, p: Ptr)
    requires Linked(nodes, Some(p))
    ensures Linked(nodes - {p}, nodes[p].next)
    ensures Abs(nodes - {p}, nodes[p].next) == Abs(nodes, nodes[p].next)
    ensures Chain(nodes - {p}, nodes[p].next) == Chain(nodes, nodes[p].next)
  {
    ChainFrame(nodes, nodes - {p}, nodes[p].next);
  }

  /** Entries of `a` keep their element and successor in `b` (counts may differ, new entries may appear). */
  ghost predicate LinksKept<T>(a: Nodes<T>, b: Nodes<T>)
  {
    forall q :: q in a ==> q in b && b[q].elem == a[q].elem && b[q].next == a[q].next
  }

  /** No node is rewritten, so every chain of the old table reads the same in the new one. */
  lemma ViewsKept<T>(a: Nodes<T>, b: Nodes<T>, link: Option<Ptr>)
    requires Linked(a, link) && LinksKept(a, b)
    ensures Linked(b, link) && Abs(b, link) == Abs(a, link)
  {
    ChainFrame(a, b, link);
  }

  /** A node that no other node points at is on no chain but its own. */
  lemma {:induction false} UnreferencedOffChain<T>(nodes: Nodes<T>, n: Ptr, link: Option<Ptr>)
    requires Linked(nodes, link) && link != Some(n)
    requires Preds(nodes, n) == {}
    ensures n !in Chain(nodes, link)
    decreases Rank(link)
  {
    if link.Some? {
      var q := link.value;
      assert q !in Preds(nodes, n);
      UnreferencedOffChain(nodes, n, nodes[q].next);
    }
  }

  lemma PredsWithout<T>(nodes: Nodes<T>, p: Ptr, x: Ptr)
    ensures Preds(nodes - {p}, x) == Preds(nodes, x) - {p}
  {
  }

  lemma PredsSameLinks<T>(a: Nodes<T>, b: Nodes<T>, x: Ptr)
    requires a.Keys == b.Keys
    requires forall q :: q in a ==> b[q].next == a[q].next
    ensures Preds(b, x) == Preds(a, x)
  {
  }

  lemma CardWithout(s: set<Ptr>, p: Ptr)
    requires p in s
    ensures |s - {p}| == |s| - 1
  {
    assert s == (s - {p}) + {p};
  }

  /**
   * Reclaiming an allocation whose count is one while the released reference
   * holds it: nothing else points at it, so the table without it is consistent
   * once its `next` is held in its place, and every other chain reads the same.
   */
  lemma ReleaseUnique<T>(nodes: Nodes<T>, refs: multiset<Ptr>, p: Ptr)
    requires Consistent(nodes, refs + multiset{p}) && nodes[p].strong == 1
    ensures Consistent(nodes - {p}, refs + Refs(nodes[p].next))
    ensures forall q :: q in nodes - {p} ==>
              Linked(nodes, Some(q)) && Linked(nodes - {p}, Some(q)) &&
              Abs(nodes - {p}, Some(q)) == Abs(nodes, Some(q))
  {
    var next := nodes[p].next;
    var rest := nodes - {p};
    var refs' := refs + Refs(next);
    assert p in refs + multiset{p};
    assert nodes[p].strong == (refs + multiset{p})[p] + |Preds(nodes, p)|;
    assert refs[p] == 0 && |Preds(nodes, p)| == 0;
    forall q | q in rest
      ensures Rank(rest[q].next) <= q && (rest[q].next.Some? ==> rest[q].next.value in rest)
    {
      assert q !in Preds(nodes, p);
    }
    forall q | q in refs'
      ensures q in rest
    {
      if q in refs {
        assert (refs + multiset{p})[q] > 0;
      }
    }
    forall q | q in rest
      ensures rest[q].strong == refs'[q] + |Preds(rest, q)|
    {
      PredsWithout(nodes, p, q);
      if Some(q) == next {
        assert p in Preds(nodes, q);
        CardWithout(Preds(nodes, q), p);
      } else {
        assert p !in Preds(nodes, q);
        assert Preds(nodes, q) - {p} == Preds(nodes, q);
      }
    }
    forall q | q in rest
      ensures Linked(nodes, Some(q)) && Linked(rest, Some(q))
      ensures Abs(rest, Some(q)) == Abs(nodes, Some(q))
    {
      ClosedLinked(nodes, Some(q));
      UnreferencedOffChain(nodes, p, Some(q));
      ChainFrame(nodes, rest, Some(q));
    }
  }

  /**
   * Releasing a reference to a shared allocation only decrements its count;
   * the table stays consistent with the remaining references.
   */
  lemma ReleaseShared<T>(nodes: Nodes<T>, refs: multiset<Ptr>, p: Ptr)
    requires Consistent(nodes, refs + multiset{p}) && p in nodes && nodes[p].strong != 1
    ensures Consistent(nodes[p := nodes[p].(strong := nodes[p].strong - 1)], refs)
    ensures LinksKept(nodes, nodes[p := nodes[p].(strong := nodes[p].strong - 1)])
  {
    var dec := nodes[p := nodes[p].(strong := nodes[p].strong - 1)];
    assert dec.Keys == nodes.Keys;
    assert forall q :: q in dec ==> dec[q].next == nodes[q].next;
    forall q | q in dec
      ensures Rank(dec[q].next) <= q && (dec[q].next.Some? ==> dec[q].next.value in dec)
    {
      assert nodes[q].next == dec[q].next;
    }
    forall q | q in dec
      ensures dec[q].strong == refs[q] + |Preds(dec, q)|
    {
      PredsSameLinks(nodes, dec, q);
      assert nodes[q].strong == (refs + multiset{p})[q] + |Preds(nodes, q)|;
    }
  }

  /**
   * Releasing one reference on a consistent table: the table that `Teardown`
   * leaves is consistent with the remaining references, frees nothing that was
   * not allocated, and every other live reference still denotes the same list.
   */
  lemma {:induction false} TeardownSound<T>(nodes: Nodes<T>, refs: multiset<Ptr>, link: Option<Ptr>)
    requires Consistent(nodes, refs + Refs(link))
    ensures Linked(nodes, link)
    ensures Consistent(Teardown(nodes, link), refs)
    ensures Teardown(nodes, link).Keys <= nodes.Keys
    ensures forall q :: q in refs ==>
              Linked(nodes, Some(q)) && Linked(Teardown(nodes, link), Some(q)) &&
              Abs(Teardown(nodes, link), Some(q)) == Abs(nodes, Some(q))
    decreases Rank(link)
  {
    if link.None? {
      assert refs + Refs(link) == refs;
      forall q | q in refs
        ensures Linked(nodes, Some(q))
      {
        ClosedLinked(nodes, Some(q));
      }
    } else {
      var p := link.value;
      assert p in nodes by {
        assert p in refs + Refs(link);
      }
      ClosedLinked(nodes, link);
      if nodes[p].strong == 1 {
        ReleaseUnique(nodes, refs, p);
        LinkedWithout(nodes, p);
        TeardownSound(nodes - {p}, refs, nodes[p].next);
        forall q | q in refs
          ensures q in nodes - {p}
        {
          assert q in refs + Refs(nodes[p].next);
        }
      } else {
        var dec := nodes[p := nodes[p].(strong := nodes[p].strong - 1)];
        ReleaseShared(nodes, refs, p);
        forall q | q in refs
          ensures Linked(nodes, Some(q)) && Linked(dec, Some(q)) && Abs(dec, Some(q)) == Abs(nodes, Some(q))
        {
          assert q in refs + Refs(link);
          ClosedLinked(nodes, Some(q));
          ViewsKept(nodes, dec, Some(q));
        }
      }
    }
  }

  /**
   * What `Teardown` frees: exactly the leading run of nodes on the chain whose
   * count is one. Every node of the run is freed, and every freed node is on it.
   */
  lemma {:induction false} TeardownFrees<T>(nodes: Nodes<T>, link: Option<Ptr>)
    requires Linked(nodes, link)
    ensures forall i :: 0 <= i < UniqueRun(nodes, link) ==>
              nodes[Chain(nodes, link)[i]].strong == 1 && Chain(nodes, link)[i] !in Teardown(nodes, link)
    ensures forall q :: q in nodes && q !in Teardown(nodes, link) ==>
              q in Chain(nodes, link)[..UniqueRun(nodes, link)]
    decreases Rank(link)
  {
    forall q | q in nodes && q !in Teardown(nodes, link)
      ensures q in Chain(nodes, link)[..UniqueRun(nodes, link)]
    {
      FreedOnRun(nodes, link, q);
    }
    if link.Some? && nodes[link.value].strong == 1 {
      var p := link.value;
      var next := nodes[p].next;
      LinkedWithout(nodes, p);
      ChainFrame(nodes, nodes - {p}, next);
      TeardownFrees(nodes - {p}, next);
      assert Chain(nodes, link) == [p] + Chain(nodes, next);
    }
  }

  /** A node `Teardown` removes is one of the leading run: the stopping node and the rest are kept. */
  lemma FreedOnRun<T>(nodes: Nodes<T>, link: Option<Ptr>, q: Ptr)
    requires Linked(nodes, link) && q in nodes && q !in Teardown(nodes, link)
    ensures q in Chain(nodes, link)[..UniqueRun(nodes, link)]
  {
    var c := Chain(nodes, link);
    var k := UniqueRun(nodes, link);
    TeardownStops(nodes, link);
    if q !in c[..k] && (k == |c| || q != c[k]) {
      forall i | 0 <= i <= k && i < |c|
        ensures c[i] != q
      {
        if i < k {
          assert c[i] in c[..k];
        }
      }
      TeardownKeeps(nodes, link, q);
    }
  }

  /** Where `Teardown` stops: the first shared node on the chain stays, one count lighter. */
  lemma {:induction false} TeardownStops<T>(nodes: Nodes<T>, link: Option<Ptr>)
    requires Linked(nodes, link)
    ensures var c := Chain(nodes, link);
            var k := UniqueRun(nodes, link);
            k < |c| ==>
              && nodes[c[k]].strong != 1
              && c[k] in Teardown(nodes, link)
              && Teardown(nodes, link)[c[k]] == nodes[c[k]].(strong := nodes[c[k]].strong - 1)
    decreases Rank(link)
  {
    if link.Some? && nodes[link.value].strong == 1 {
      var p := link.value;
      var next := nodes[p].next;
      LinkedWithout(nodes, p);
      ChainFrame(nodes, nodes - {p}, next);
      TeardownStops(nodes - {p}, next);
      assert Chain(nodes, link) == [p] + Chain(nodes, next);
    }
  }

  /**
   * What `Teardown` keeps: every allocation other than the freed run and the
   * node where it stops, that node's successors included, is left as it was.
   */
  lemma {:induction false} TeardownKeeps<T>(nodes: Nodes<T>, link: Option<Ptr>, q: Ptr)
    requires Linked(nodes, link) && q in nodes
    requires forall i :: 0 <= i <= UniqueRun(nodes, link) && i < |Chain(nodes, link)| ==>
               Chain(nodes, link)[i] != q
    ensures q in Teardown(nodes, link) && Teardown(nodes, link)[q] == nodes[q]
    decreases Rank(link)
  {
    if link.Some? {
      var p := link.value;
      assert Chain(nodes, link)[0] == p;
    }
    if link.Some? && nodes[link.value].strong == 1 {
      var p := link.value;
      var next := nodes[p].next;
      var rest := nodes - {p};
      LinkedWithout(nodes, p);
      var c' := Chain(nodes, next);
      var k := UniqueRun(nodes, next);
      assert Chain(nodes, link) == [p] + c';
      ChainFrame(nodes, rest, next);
      assert forall m :: m in c' ==> m in rest && rest[m].strong == nodes[m].strong;
      assert UniqueRun(rest, next) == k;
      forall i | 0 <= i <= k && i < |c'|
        ensures c'[i] != q
      {
        assert Chain(nodes, link)[i + 1] == c'[i];
      }
      TeardownKeeps(rest, next, q);
    }
  }

  /** Addresses strictly decrease along a chain, so no node appears on it twice. */
  lemma {:induction false} ChainDecreasing<T>(nodes: Nodes<T>, link: Option<Ptr>)
    requires Linked(nodes, link)
    ensures forall i, j :: 0 <= i < j < |Chain(nodes, link)| ==> Chain(nodes, link)[j] < Chain(nodes, link)[i]
    decreases Rank(link)
  {
    if link.Some? {
      var p := link.value;
      var next := nodes[p].next;
      var c := Chain(nodes, link);
      var c' := Chain(nodes, next);
      ChainDecreasing(nodes, next);
      assert c == [p] + c';
      forall i, j | 0 <= i < j < |c|
        ensures c[j] < c[i]
      {
        assert c[j] == c'[j - 1] && c[j] in c';
        if i > 0 {
          assert c[i] == c'[i - 1];
        }
      }
    }
  }

  /**
   * Beyond the node where `Teardown` stops, the chain is untouched: every
   * later node stays allocated with the same count, `elem` and `next`.
   */
  lemma TeardownKeepsRest<T>(nodes: Nodes<T>, link: Option<Ptr>)
    requires Linked(nodes, link)
    ensures var c := Chain(nodes, link);
            forall j :: UniqueRun(nodes, link) < j < |c| ==>
              c[j] in Teardown(nodes, link) && Teardown(nodes, link)[c[j]] == nodes[c[j]]
  {
    var c := Chain(nodes, link);
    var k := UniqueRun(nodes, link);
    ChainDecreasing(nodes, link);
    forall j | k < j < |c|
      ensures c[j] in Teardown(nodes, link) && Teardown(nodes, link)[c[j]] == nodes[c[j]]
    {
      assert forall i :: 0 <= i <= k && i < |c| ==> c[i] != c[j];
      TeardownKeeps(nodes, link, c[j]);
    }
  }

  /** `q` is on the chain that starts at allocation `r`. */
  ghost predicate Reaches<T>(nodes: Nodes<T>, r: Ptr, q: Ptr)
  {
    Linked(nodes, Some(r)) && q in Chain(nodes, Some(r))
  }

  /** Following `next` from a node on a chain stays on that chain. */
  lemma {:induction false} ChainClosed<T>(nodes: Nodes<T>, link: Option<Ptr>, m: Ptr)
    requires Linked(nodes, link) && m in Chain(nodes, link) && nodes[m].next.Some?
    ensures nodes[m].next.value in Chain(nodes, link)
    decreases Rank(link)
  {
    var p := link.value;
    if m == p {
      assert Chain(nodes, nodes[p].next)[0] == nodes[m].next.value;
    } else {
      ChainClosed(nodes, nodes[p].next, m);
    }
  }

  /**
   * Nothing leaks: in a consistent table every allocation is reachable from
   * some external reference, found by walking back through the nodes that point at it.
   */
  lemma {:induction false} NoLeak<T>(nodes: Nodes<T>, refs: multiset<Ptr>, bound: Ptr, q: Ptr)
    requires Consistent(nodes, refs) && q in nodes
    requires forall k :: k in nodes ==> k < bound
    ensures exists r :: r in refs && Reaches(nodes, r, q)
    decreases bound - q
  {
    ClosedLinked(nodes, Some(q));
    if refs[q] > 0 {
      assert q in Chain(nodes, Some(q));
      assert Reaches(nodes, q, q);
    } else {
      assert |Preds(nodes, q)| > 0;
      var m :| m in Preds(nodes, q);
      NoLeak(nodes, refs, bound, m);
      var r :| r in refs && Reaches(nodes, r, m);
      ChainClosed(nodes, Some(r), m);
      assert Reaches(nodes, r, q);
    }
  }

  /** Once no reference is left, every node has been reclaimed. */
  lemma NoRefsNoNodes<T>(nodes: Nodes<T>, bound: Ptr)
    requires Consistent(nodes, multiset{})
    requires forall k :: k in nodes ==> k < bound
    ensures nodes == map[]
  {
    if q :| q in nodes {
      NoLeak(nodes, multiset{}, bound, q);
    }
  }

  /**
   * `prepend` on a consistent table: the new allocation (count one, held by the
   * new handle) points at the cloned old head, and the table stays consistent.
   */
  lemma PrependConsistent<T>(nodes: Nodes<T>, refs: multiset<Ptr>, link: Option<Ptr>, id: Ptr, elem: T)
    requires Consistent(nodes, refs)
    requires link.Some? ==> link.value in nodes
    requires forall k :: k in nodes ==> k < id
    ensures Consistent(CloneLink(nodes, link)[id := RcNode(elem, link, 1)], refs + multiset{id})
    ensures LinksKept(nodes, CloneLink(nodes, link)[id := RcNode(elem, link, 1)])
  {
    var cloned := CloneLink(nodes, link);
    var after := cloned[id := RcNode(elem, link, 1)];
    var refs' := refs + multiset{id};
    assert id !in nodes;
    assert after.Keys == nodes.Keys + {id};
    assert forall q :: q in nodes ==> after[q].elem == nodes[q].elem && after[q].next == nodes[q].next;
    assert Closed(after) by {
      forall q | q in after
        ensures Rank(after[q].next) <= q && (after[q].next.Some? ==> after[q].next.value in after)
      {
        if q != id {
          assert after[q].next == nodes[q].next;
        }
      }
    }
    assert forall q :: q in refs' ==> q in after by {
      forall q | q in refs'
        ensures q in after
      {
        if q != id {
          assert q in refs;
        }
      }
    }
    forall q | q in after
      ensures after[q].strong == refs'[q] + |Preds(after, q)|
    {
      PrependCount(nodes, refs, link, id, elem, q);
    }
  }

  lemma PrependCount<T>(nodes: Nodes<T>, refs: multiset<Ptr>, link: Option<Ptr>, id: Ptr, elem: T, q: Ptr)
    requires Consistent(nodes, refs)
    requires link.Some? ==> link.value in nodes
    requires id !in nodes
    requires q in CloneLink(nodes, link)[id := RcNode(elem, link, 1)]
    ensures var after := CloneLink(nodes, link)[id := RcNode(elem, link, 1)];
            after[q].strong == (refs + multiset{id})[q] + |Preds(after, q)|
  {
    var cloned := CloneLink(nodes, link);
    var after := cloned[id := RcNode(elem, link, 1)];
    PredsSameLinks(nodes, cloned, q);
    PredsInsert(cloned, id, RcNode(elem, link, 1), q);
    if q == id {
      PredsOfUnallocated(nodes, id);
      assert refs[id] == 0;
    } else {
      assert nodes[q].strong == refs[q] + |Preds(nodes, q)|;
    }
  }

  lemma PredsInsert<T>(nodes: Nodes<T>, id: Ptr, v: RcNode<T>, x: Ptr)
    requires id !in nodes
    ensures Preds(nodes[id := v], x) == Preds(nodes, x) + (if v.next == Some(x) then {id} else {})
  {
  }

  lemma PredsOfUnallocated<T>(nodes: Nodes<T>, x: Ptr)
    requires Closed(nodes) && x !in nodes
    ensures Preds(nodes, x) == {}
  {
    forall q | q in nodes
      ensures q !in Preds(nodes, x)
    {
      assert nodes[q].next.Some? ==> nodes[q].next.value in nodes;
    }
  }

  /** `tail` on a consistent table: the new handle clones the successor link. */
  lemma TailConsistent<T>(nodes: Nodes<T>, refs: multiset<Ptr>, link: Option<Ptr>)
    requires Consistent(nodes, refs)
    requires link.Some? ==> link.value in nodes
    ensures Consistent(CloneLink(nodes, link), refs + Refs(link))
    ensures LinksKept(nodes, CloneLink(nodes, link))
  {
    var after := CloneLink(nodes, link);
    var refs' := refs + Refs(link);
    assert after.Keys == nodes.Keys;
    assert forall q :: q in nodes ==> after[q].elem == nodes[q].elem && after[q].next == nodes[q].next;
    assert Closed(after) by {
      forall q | q in after
        ensures Rank(after[q].next) <= q && (after[q].next.Some? ==> after[q].next.value in after)
      {
        assert after[q].next == nodes[q].next;
      }
    }
    assert forall q :: q in refs' ==> q in after by {
      forall q | q in refs'
        ensures q in after
      {
        if q !in Refs(link) {
          assert q in refs;
        }
      }
    }
    forall q | q in after
      ensures after[q].strong == refs'[q] + |Preds(after, q)|
    {
      PredsSameLinks(nodes, after, q);
      assert nodes[q].strong == refs[q] + |Preds(nodes, q)|;
    }
  }
}
