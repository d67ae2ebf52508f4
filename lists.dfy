/**
 * The value view of the persistent list: what a list handle means once
 * reference counting is set aside. `Node` and `Link` follow the shape of the
 * source's `Node<T>` and `Link<T>`; sharing a suffix between two lists is just
 * two values that hold the same `Link`.
 */
module Lists {
  import opened Options

  datatype Node<T> = Node(elem: T, next: Link<T>)

  type Link<T> = Option<Node<T>>

  /** A list handle: `List { head: Link<T> }`. */
  datatype List<T> = List(head: Link<T>)

  /** The elements seen from a link, from the head to the end of the chain. */
  function Elements<T>(link: Link<T>): seq<T>
  {
    match link
    case None => []
    case Some(node) => [node.elem] + Elements(node.next)
  }

  lemma {:induction false} EmptyIffNoHead<T>(link: Link<T>)
    ensures Elements(link) == [] <==> link.None?
  {
    match link
    case None =>
    case Some(node) =>
      assert Elements(link)[0] == node.elem;
  }

  /** `List::new`: a list with no head. */
  function New<T>(): (l: List<T>)
    ensures Elements(l.head) == []
    ensures Head(l).None?
  {
    List(None)
  }

  /** `List::prepend`: one new node in front of the (shared, unchanged) old head. */
  function Prepend<T>(l: List<T>, elem: T): (r: List<T>)
    ensures Elements(r.head) == [elem] + Elements(l.head)
    ensures Head(r) == Some(elem)
  {
    List(Some(Node(elem, l.head)))
  }

  /** `List::tail`: the successor of the head, or an empty list again when there is no head. */
  function Tail<T>(l: List<T>): (r: List<T>)
    ensures Elements(r.head) == if Elements(l.head) == [] then [] else Elements(l.head)[1..]
  {
    EmptyIffNoHead(l.head);
    List(match l.head case None => None case Some(node) => node.next)
  }

  /** `List::head`: the first element, if there is one. */
  function Head<T>(l: List<T>): (r: Option<T>)
    ensures r.None? <==> Elements(l.head) == []
    ensures r.Some? ==> r.value == Elements(l.head)[0]
  {
    EmptyIffNoHead(l.head);
    match l.head
    case None => None
    case Some(node) => Some(node.elem)
  }

  /** Taking the tail of a prepended list gives back the very list prepended to. */
  lemma TailUndoesPrepend<T>(l: List<T>, elem: T)
    ensures Tail(Prepend(l, elem)) == l
  {
  }

  /** Over-draining is a no-op: the tail of an empty list is the empty list. */
  lemma TailOfEmpty<T>(l: List<T>)
    requires Elements(l.head) == []
    ensures Tail(l) == l
  {
    EmptyIffNoHead(l.head);
  }

  /** `n` successive calls of `tail`. */
  function Tails<T>(l: List<T>, n: nat): List<T>
    decreases n
  {
    if n == 0 then l else Tails(Tail(l), n - 1)
  }

  /** Tailing `n` times drops the first `n` elements, and leaves nothing once `n` reaches the length. */
  lemma {:induction false} TailsDrop<T>(l: List<T>, n: nat)
    ensures Elements(Tails(l, n).head)
            == if n <= |Elements(l.head)| then Elements(l.head)[n..] else []
    decreases n
  {
    if n > 0 {
      TailsDrop(Tail(l), n - 1);
      var e := Elements(l.head);
      if e != [] && n <= |e| {
        assert e[1..][n - 1..] == e[n..];
      }
    }
  }

  /** Tailing a list of length `n` at least `n` times yields a list with no head. */
  lemma TailsDrain<T>(l: List<T>, n: nat)
    requires n >= |Elements(l.head)|
    ensures Tails(l, n).head.None?
  {
    TailsDrop(l, n);
    EmptyIffNoHead(Tails(l, n).head);
  }

  /** `l.prepend(e0).prepend(e1)...`: prepending the elements of `elems` in order. */
  function PrependAll<T>(l: List<T>, elems: seq<T>): List<T>
    decreases |elems|
  {
    if elems == [] then l else PrependAll(Prepend(l, elems[0]), elems[1..])
  }

  function Reversed<T>(s: seq<T>): (r: seq<T>)
    ensures |r| == |s|
  {
    if s == [] then [] else Reversed(s[1..]) + [s[0]]
  }

  /**
   * After any run of prepends the head is the most recently prepended element,
   * and the elements are the prepended ones, newest first, in front of the old ones.
   */
  lemma {:induction false} PrependAllElements<T>(l: List<T>, elems: seq<T>)
    ensures Elements(PrependAll(l, elems).head) == Reversed(elems) + Elements(l.head)
    ensures elems != [] ==> Head(PrependAll(l, elems)) == Some(elems[|elems| - 1])
    decreases |elems|
  {
    if elems != [] {
      PrependAllElements(Prepend(l, elems[0]), elems[1..]);
      assert Reversed(elems) == Reversed(elems[1..]) + [elems[0]];
      assert Reversed(elems)[0] == elems[|elems| - 1] by {
        ReversedFirst(elems);
      }
    }
  }

  lemma {:induction false} ReversedFirst<T>(s: seq<T>)
    requires s != []
    ensures Reversed(s)[0] == s[|s| - 1]
  {
    if |s| > 1 {
      ReversedFirst(s[1..]);
    }
  }
}
