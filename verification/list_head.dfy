/** The circular doubly-linked `list_head` the queue is built on, over an
    arena of nodes.

    A `Ptr` names a block in the arena; `Null` is never allocated. The
    sentinel of a queue is a bare `Head` node; an element is an `Elem` node,
    its links and its value together (the arena address stands for both the
    element and its embedded `list_head`, so no back-cast is needed).

    A queue is described by its sentinel and the sequence of element nodes
    met walking `next` from it. `Valid` ties the links to that sequence;
    `OrderDetermined` shows the links fix the sequence uniquely. */
module ListHead {
  import opened CStrings

  type Ptr = nat

  const Null: Ptr := 0

  datatype Node =
    | Head(next: Ptr, prev: Ptr)
    | Elem(next: Ptr, prev: Ptr, value: CStr)

  type Heap = map<Ptr, Node>

  /** The node after the sentinel, or the sentinel when there is none. */
  function First(head: Ptr, order: seq<Ptr>): (r: Ptr) {
    if |order| == 0 then head else order[0]
  }

  /** The node before the sentinel, or the sentinel when there is none. */
  function Last(head: Ptr, order: seq<Ptr>): (r: Ptr) {
    if |order| == 0 then head else order[|order| - 1]
  }

  /** The successor of the `i`-th element on the ring. */
  function After(head: Ptr, order: seq<Ptr>, i: int): (r: Ptr)
    requires 0 <= i < |order|
  {
    if i + 1 < |order| then order[i + 1] else head
  }

  /** The predecessor of the `i`-th element on the ring. */
  function Before(head: Ptr, order: seq<Ptr>, i: int): (r: Ptr)
    requires 0 <= i < |order|
  {
    if i == 0 then head else order[i - 1]
  }

  /** Every listed node is an allocated element. */
  predicate Elems(h: Heap, order: seq<Ptr>) {
    forall i {:trigger order[i] in h} {:trigger h[order[i]]} :: 0 <= i < |order| ==> order[i] != Null && order[i] in h && h[order[i]].Elem?
  }

  predicate Distinct(order: seq<Ptr>) {
    forall i, j :: 0 <= i < j < |order| ==> order[i] != order[j]
  }

  /** `head` is a sentinel whose ring holds exactly the elements of `order`,
      in that order, with `next` and `prev` agreeing at every node. */
  predicate Valid(h: Heap, head: Ptr, order: seq<Ptr>) {
    && head != Null && head in h && h[head].Head?
    && Elems(h, order)
    && Distinct(order)
    && h[head].next == First(head, order)
    && h[head].prev == Last(head, order)
    && (forall i {:trigger h[order[i]]} :: 0 <= i < |order| ==>
          h[order[i]].next == After(head, order, i) && h[order[i]].prev == Before(head, order, i))
  }

  /** The abstract queue: the values of the listed elements, in order. */
  function Contents(h: Heap, order: seq<Ptr>): (vs: seq<CStr>)
    requires Elems(h, order)
    ensures |vs| == |order|
    ensures forall i :: 0 <= i < |order| ==> vs[i] == h[order[i]].value
  {
    if |order| == 0 then []
    else
      assert forall i :: 0 <= i < |order| - 1 ==> order[1..][i] == order[i + 1] && order[i + 1] in h;
      [h[order[0]].value] + Contents(h, order[1..])
  }

  /** `order` with its `i`-th node taken out. */
  function Without<T>(s: seq<T>, i: int): (r: seq<T>)
    requires 0 <= i < |s|
  {
    s[..i] + s[i + 1..]
  }

  /** Relinking never allocates, frees, or changes a node's kind or value. */
  predicate Relinked(h: Heap, r: Heap) {
    && r.Keys == h.Keys
    && forall p :: p in h ==> r[p].Head? == h[p].Head? && (h[p].Elem? ==> r[p].value == h[p].value)
  }

  function SetNext(h: Heap, p: Ptr, q: Ptr): (r: Heap)
    requires p in h
  {
    h[p := h[p].(next := q)]
  }

  function SetPrev(h: Heap, p: Ptr, q: Ptr): (r: Heap)
    requires p in h
  {
    h[p := h[p].(prev := q)]
  }

  /** `INIT_LIST_HEAD` on a fresh block: a sentinel linked to itself. */
  function InitListHead(h: Heap, p: Ptr): (r: Heap)
    requires p != Null && p !in h
    ensures Valid(r, p, [])
    ensures r.Keys == h.Keys + {p}
    ensures forall q :: q in h ==> r[q] == h[q]
  {
    h[p := Head(p, p)]
  }

  /** `__list_add(node, prev, next)`: four link writes, in the kernel's order. */
  function Link(h: Heap, node: Ptr, prev: Ptr, next: Ptr): (r: Heap)
    requires node in h && prev in h && next in h
    ensures Relinked(h, r)
    ensures forall p :: p in h && p != node && p != prev && p != next ==> r[p] == h[p]
    ensures node != prev && node != next ==>
      forall p :: p in h ==>
        && r[p].next == (if p == prev then node else if p == node then next else h[p].next)
        && r[p].prev == (if p == next then node else if p == node then prev else h[p].prev)
  {
    var h1 := SetPrev(h, next, node);
    var h2 := SetNext(h1, node, next);
    var h3 := SetPrev(h2, node, prev);
    SetNext(h3, prev, node)
  }

  /** `list_add`: insert `node` right after the sentinel. */
  function ListAdd(h: Heap, node: Ptr, head: Ptr): (r: Heap)
    requires node in h && head in h && h[head].next in h
    ensures Relinked(h, r)
    ensures node != head && node != h[head].next ==>
      && r[head].next == node && r[node].prev == head
      && r[node].next == h[head].next && r[h[head].next].prev == node
  {
    Link(h, node, head, h[head].next)
  }

  /** `list_add_tail`: insert `node` right before the sentinel. */
  function ListAddTail(h: Heap, node: Ptr, head: Ptr): (r: Heap)
    requires node in h && head in h && h[head].prev in h
    ensures Relinked(h, r)
    ensures node != head && node != h[head].prev ==>
      && r[head].prev == node && r[node].next == head
      && r[node].prev == h[head].prev && r[h[head].prev].next == node
  {
    Link(h, node, h[head].prev, head)
  }

  /** `list_del`: join the neighbours of `node`; `node` keeps its stale links. */
  function ListDel(h: Heap, node: Ptr): (r: Heap)
    requires node in h && h[node].next in h && h[node].prev in h
    ensures Relinked(h, r)
    ensures forall p :: p in h && p != h[node].prev && p != h[node].next ==> r[p] == h[p]
    ensures h[node].prev != node && h[node].next != node ==>
      forall p :: p in h ==>
        && r[p].next == (if p == h[node].prev then h[node].next else h[p].next)
        && r[p].prev == (if p == h[node].next then h[node].prev else h[p].prev)
  {
    var next := h[node].next;
    var prev := h[node].prev;
    SetNext(SetPrev(h, next, prev), prev, next)
  }

  /** `list_del` of a node linked only to itself changes nothing. */
  lemma ListDelSelfLinked(h: Heap, node: Ptr)
    requires node in h && h[node].next == node && h[node].prev == node
    ensures ListDel(h, node) == h
  {
  }

  /** `list_empty`: the sentinel's `next` is the sentinel itself. */
  predicate ListEmpty(h: Heap, head: Ptr)
    requires head in h
  {
    h[head].next == head
  }

  lemma ListEmptyIffNoElements(h: Heap, head: Ptr, order: seq<Ptr>)
    requires Valid(h, head, order)
    ensures ListEmpty(h, head) <==> |order| == 0
  {
    if |order| > 0 {
      assert h[order[0]].Elem?;
    }
  }

  /** The node at ring position `j`: the sentinel at 0, then the elements. */
  function Ring(head: Ptr, order: seq<Ptr>, j: int): (r: Ptr)
    requires 0 <= j <= |order|
  {
    if j == 0 then head else order[j - 1]
  }

  /** Following `next` from ring position `j` reaches position `j + 1`,
      wrapping to the sentinel; following `prev` goes back one position. */
  lemma RingStep(h: Heap, head: Ptr, order: seq<Ptr>, j: int)
    requires Valid(h, head, order)
    requires 0 <= j <= |order|
    ensures Ring(head, order, j) in h
    ensures h[Ring(head, order, j)].next == Ring(head, order, if j == |order| then 0 else j + 1)
    ensures h[Ring(head, order, j)].prev == Ring(head, order, if j == 0 then |order| else j - 1)
  {
  }

  /** Only position 0 of the ring is the sentinel. */
  lemma RingHead(h: Heap, head: Ptr, order: seq<Ptr>, j: int)
    requires Valid(h, head, order)
    requires 0 <= j <= |order|
    ensures Ring(head, order, j) == head <==> j == 0
  {
    if j > 0 {
      assert h[order[j - 1]].Elem?;
    }
  }

  /** The link invariant of a circular list: for every node `x` on the ring,
      `next(prev(x)) == x` and `prev(next(x)) == x`. */
  lemma LinksAgree(h: Heap, head: Ptr, order: seq<Ptr>, j: int)
    requires Valid(h, head, order)
    requires 0 <= j <= |order|
    ensures h[Ring(head, order, j)].next in h && h[Ring(head, order, j)].prev in h
    ensures h[h[Ring(head, order, j)].next].prev == Ring(head, order, j)
    ensures h[h[Ring(head, order, j)].prev].next == Ring(head, order, j)
  {
    RingStep(h, head, order, j);
    var n := if j == |order| then 0 else j + 1;
    var p := if j == 0 then |order| else j - 1;
    RingStep(h, head, order, n);
    RingStep(h, head, order, p);
  }

  /** The links decide the order: two descriptions of one sentinel's ring
      agree element by element. */
  lemma {:induction false} OrderDetermined(h: Heap, head: Ptr, o1: seq<Ptr>, o2: seq<Ptr>)
    requires Valid(h, head, o1) && Valid(h, head, o2)
    ensures o1 == o2
  {
    var k := 0;
    while k < |o1| && k < |o2|
      invariant 0 <= k <= |o1| && k <= |o2|
      invariant forall j :: 0 <= j < k ==> o1[j] == o2[j]
      invariant Ring(head, o1, k) == Ring(head, o2, k)
    {
      RingStep(h, head, o1, k);
      RingStep(h, head, o2, k);
      k := k + 1;
    }
    RingStep(h, head, o1, k);
    RingStep(h, head, o2, k);
    if k < |o1| {
      RingHead(h, head, o1, k + 1);
    } else if k < |o2| {
      RingHead(h, head, o2, k + 1);
    }
  }

  /** Changes outside the ring leave the queue and its values as they were. */
  lemma ValidUnaffected(h: Heap, r: Heap, head: Ptr, order: seq<Ptr>)
    requires Valid(h, head, order)
    requires head in r && r[head] == h[head]
    requires forall i :: 0 <= i < |order| ==> order[i] in r && r[order[i]] == h[order[i]]
    ensures Valid(r, head, order)
    ensures Contents(r, order) == Contents(h, order)
  {
  }

  /** Nodes drawn from a list of elements are elements. */
  lemma ElemsFrom(h: Heap, order: seq<Ptr>, o: seq<Ptr>)
    requires Elems(h, order)
    requires forall k :: 0 <= k < |o| ==> o[k] in order
    ensures Elems(h, o)
  {
    forall k | 0 <= k < |o| ensures o[k] != Null && o[k] in h && h[o[k]].Elem? {
      var j :| 0 <= j < |order| && order[j] == o[k];
      assert order[j] in h;
    }
  }

  /** Relinking keeps every listed value. */
  lemma ContentsRelinked(h: Heap, r: Heap, order: seq<Ptr>)
    requires Relinked(h, r) && Elems(h, order)
    ensures Elems(r, order)
    ensures Contents(r, order) == Contents(h, order)
  {
    forall i | 0 <= i < |order| ensures order[i] != Null && order[i] in r && r[order[i]].Elem? {
      assert order[i] in h && h[order[i]].Elem?;
    }
    var a, b := Contents(r, order), Contents(h, order);
    assert forall i :: 0 <= i < |a| ==> a[i] == b[i];
  }

  lemma ContentsCons(h: Heap, node: Ptr, order: seq<Ptr>)
    requires Elems(h, [node] + order)
    ensures node in h && h[node].Elem?
    ensures Elems(h, order)
    ensures Contents(h, [node] + order) == [h[node].value] + Contents(h, order)
  {
    var o := [node] + order;
    assert o[0] == node && o[0] in h;
    forall i | 0 <= i < |order| ensures order[i] != Null && order[i] in h && h[order[i]].Elem? {
      assert o[i + 1] == order[i];
      assert o[i + 1] in h && h[o[i + 1]].Elem?;
    }
    assert o[1..] == order;
  }

  lemma ContentsSnoc(h: Heap, order: seq<Ptr>, node: Ptr)
    requires Elems(h, order + [node])
    ensures node in h && h[node].Elem?
    ensures Elems(h, order)
    ensures Contents(h, order + [node]) == Contents(h, order) + [h[node].value]
  {
    var o := order + [node];
    assert o[|order|] == node && o[|order|] in h;
    forall i | 0 <= i < |order| ensures order[i] != Null && order[i] in h && h[order[i]].Elem? {
      assert o[i] == order[i];
      assert o[i] in h && h[o[i]].Elem?;
    }
    assert forall i :: 0 <= i < |order| ==> o[i] == order[i];
    var a, b := Contents(h, o), Contents(h, order) + [h[node].value];
    assert forall i :: 0 <= i < |a| ==> a[i] == b[i];
  }

  lemma ContentsWithout(h: Heap, order: seq<Ptr>, i: int)
    requires Elems(h, order) && 0 <= i < |order|
    ensures Elems(h, Without(order, i))
    ensures Contents(h, Without(order, i)) == Without(Contents(h, order), i)
  {
    var o := Without(order, i);
    assert forall k :: 0 <= k < |o| ==> o[k] == order[if k < i then k else k + 1];
    ElemsFrom(h, order, o);
    var a, b := Contents(h, o), Without(Contents(h, order), i);
    assert forall k :: 0 <= k < |a| ==> a[k] == b[k];
  }

  /** Putting an element in front of a list of elements keeps them all
      elements. */
  lemma ElemsCons(h: Heap, node: Ptr, order: seq<Ptr>)
    requires node != Null && node in h && h[node].Elem? && Elems(h, order)
    ensures Elems(h, [node] + order)
  {
    var o := [node] + order;
    forall i | 0 <= i < |o| ensures o[i] != Null && o[i] in h && h[o[i]].Elem? {
      if i > 0 {
        assert o[i] == order[i - 1];
        assert order[i - 1] in h && h[order[i - 1]].Elem?;
      }
    }
  }

  /** Putting an element after a list of elements keeps them all elements. */
  lemma ElemsSnoc(h: Heap, order: seq<Ptr>, node: Ptr)
    requires node != Null && node in h && h[node].Elem? && Elems(h, order)
    ensures Elems(h, order + [node])
  {
    var o := order + [node];
    forall i | 0 <= i < |o| ensures o[i] != Null && o[i] in h && h[o[i]].Elem? {
      if i < |order| {
        assert o[i] == order[i];
        assert order[i] in h && h[order[i]].Elem?;
      }
    }
  }

  lemma DistinctCons(node: Ptr, order: seq<Ptr>)
    requires Distinct(order) && node !in order
    ensures Distinct([node] + order)
  {
    var o := [node] + order;
    forall i, j | 0 <= i < j < |o| ensures o[i] != o[j] {
      assert o[j] == order[j - 1];
    }
  }

  lemma DistinctSnoc(order: seq<Ptr>, node: Ptr)
    requires Distinct(order) && node !in order
    ensures Distinct(order + [node])
  {
    var o := order + [node];
    forall i, j | 0 <= i < j < |o| ensures o[i] != o[j] {
      assert o[i] == order[i];
    }
  }

  lemma DistinctWithout(order: seq<Ptr>, i: int)
    requires Distinct(order) && 0 <= i < |order|
    ensures Distinct(Without(order, i))
    ensures order[i] !in Without(order, i)
    ensures forall p :: p in Without(order, i) ==> p in order
  {
    var o := Without(order, i);
    assert forall k :: 0 <= k < |o| ==> o[k] == order[if k < i then k else k + 1];
  }

  /** `list_add` of a fresh element puts it first and keeps the rest. */
  lemma ListAddValid(h: Heap, head: Ptr, order: seq<Ptr>, node: Ptr)
    requires Valid(h, head, order)
    requires node != Null && node in h && h[node].Elem?
    requires node !in order
    ensures Valid(ListAdd(h, node, head), head, [node] + order)
    ensures Contents(ListAdd(h, node, head), [node] + order) == [h[node].value] + Contents(h, order)
    ensures forall p :: p in h && p != head && p != node && p !in order ==> ListAdd(h, node, head)[p] == h[p]
  {
    var r := ListAdd(h, node, head);
    var o := [node] + order;
    DistinctCons(node, order);
    ContentsRelinked(h, r, order);
    ElemsCons(r, node, order);
    ListAddLinks(h, head, order, node);
    ContentsCons(r, node, order);
  }

  /** After `list_add`, every element of the longer ring links to its
      neighbours there. */
  lemma ListAddLinks(h: Heap, head: Ptr, order: seq<Ptr>, node: Ptr)
    requires Valid(h, head, order)
    requires node != Null && node in h && h[node].Elem?
    requires node !in order
    ensures forall i :: 0 <= i < |[node] + order| ==>
      && ([node] + order)[i] in ListAdd(h, node, head)
      && ListAdd(h, node, head)[([node] + order)[i]].next == After(head, [node] + order, i)
      && ListAdd(h, node, head)[([node] + order)[i]].prev == Before(head, [node] + order, i)
  {
    var r := ListAdd(h, node, head);
    var o := [node] + order;
    forall i | 0 <= i < |o|
      ensures o[i] in r && r[o[i]].next == After(head, o, i) && r[o[i]].prev == Before(head, o, i)
    {
      if i > 0 {
        assert o[i] == order[i - 1];
        assert order[i - 1] in h;
      }
    }
  }

  /** `list_add_tail` of a fresh element puts it last and keeps the rest. */
  lemma ListAddTailValid(h: Heap, head: Ptr, order: seq<Ptr>, node: Ptr)
    requires Valid(h, head, order)
    requires node != Null && node in h && h[node].Elem?
    requires node !in order
    ensures Valid(ListAddTail(h, node, head), head, order + [node])
    ensures Contents(ListAddTail(h, node, head), order + [node]) == Contents(h, order) + [h[node].value]
    ensures forall p :: p in h && p != head && p != node && p !in order ==> ListAddTail(h, node, head)[p] == h[p]
  {
    var r := ListAddTail(h, node, head);
    var o := order + [node];
    DistinctSnoc(order, node);
    ContentsRelinked(h, r, order);
    ElemsSnoc(r, order, node);
    ListAddTailLinks(h, head, order, node);
    ContentsSnoc(r, order, node);
  }

  /** After `list_add_tail`, every element of the longer ring links to its
      neighbours there. */
  lemma ListAddTailLinks(h: Heap, head: Ptr, order: seq<Ptr>, node: Ptr)
    requires Valid(h, head, order)
    requires node != Null && node in h && h[node].Elem?
    requires node !in order
    ensures forall i :: 0 <= i < |order + [node]| ==>
      && (order + [node])[i] in ListAddTail(h, node, head)
      && ListAddTail(h, node, head)[(order + [node])[i]].next == After(head, order + [node], i)
      && ListAddTail(h, node, head)[(order + [node])[i]].prev == Before(head, order + [node], i)
  {
    var r := ListAddTail(h, node, head);
    var o := order + [node];
    forall i | 0 <= i < |o|
      ensures o[i] in r && r[o[i]].next == After(head, o, i) && r[o[i]].prev == Before(head, o, i)
    {
      if i < |order| {
        assert o[i] == order[i];
        assert order[i] in h;
      }
    }
  }

  /** Position `k` of `order` with its `i`-th node taken out. */
  lemma WithoutIndex<T>(s: seq<T>, i: int)
    requires 0 <= i < |s|
    ensures |Without(s, i)| == |s| - 1
    ensures forall k :: 0 <= k < i ==> Without(s, i)[k] == s[k]
    ensures forall k :: i <= k < |s| - 1 ==> Without(s, i)[k] == s[k + 1]
  {
  }

  /** After `list_del` of the `i`-th element, the `k`-th survivor links to
      its new neighbours. */
  lemma ListDelLinkAt(h: Heap, head: Ptr, order: seq<Ptr>, i: int, k: int)
    requires Valid(h, head, order)
    requires 0 <= i < |order| && 0 <= k < |order| - 1
    ensures Without(order, i)[k] in ListDel(h, order[i])
    ensures ListDel(h, order[i])[Without(order, i)[k]].next == After(head, Without(order, i), k)
    ensures ListDel(h, order[i])[Without(order, i)[k]].prev == Before(head, Without(order, i), k)
  {
    WithoutIndex(order, i);
    var k' := if k < i then k else k + 1;
    assert Without(order, i)[k] == order[k'];
    assert order[k'] != order[i];
  }

  /** After `list_del` of the `i`-th element, the sentinel links to the new
      first and last elements. */
  lemma ListDelHead(h: Heap, head: Ptr, order: seq<Ptr>, i: int)
    requires Valid(h, head, order)
    requires 0 <= i < |order|
    ensures ListDel(h, order[i])[head].Head?
    ensures ListDel(h, order[i])[head].next == First(head, Without(order, i))
    ensures ListDel(h, order[i])[head].prev == Last(head, Without(order, i))
  {
    WithoutIndex(order, i);
  }

  /** `list_del` of the `i`-th element closes the gap and keeps the others
      in order; the unlinked node itself is left as it was. */
  lemma ListDelValid(h: Heap, head: Ptr, order: seq<Ptr>, i: int)
    requires Valid(h, head, order)
    requires 0 <= i < |order|
    ensures ListDel(h, order[i]).Keys == h.Keys
    ensures Valid(ListDel(h, order[i]), head, Without(order, i))
    ensures Contents(ListDel(h, order[i]), Without(order, i)) == Without(Contents(h, order), i)
    ensures ListDel(h, order[i])[order[i]] == h[order[i]]
    ensures forall p :: p in h && p != head && p !in order ==> ListDel(h, order[i])[p] == h[p]
  {
    var r := ListDel(h, order[i]);
    var o := Without(order, i);
    DistinctWithout(order, i);
    ContentsWithout(h, order, i);
    ContentsRelinked(h, r, o);
    ListDelHead(h, head, order, i);
    forall k | 0 <= k < |o|
      ensures r[o[k]].next == After(head, o, k) && r[o[k]].prev == Before(head, o, k)
    {
      ListDelLinkAt(h, head, order, i, k);
    }
  }

  /** Releasing a node that is not on the ring keeps the queue intact. */
  lemma ReleaseValid(h: Heap, head: Ptr, order: seq<Ptr>, p: Ptr)
    requires Valid(h, head, order)
    requires p != head && p !in order
    ensures Valid(h - {p}, head, order)
    ensures Contents(h - {p}, order) == Contents(h, order)
  {
    ValidUnaffected(h, h - {p}, head, order);
  }
}
