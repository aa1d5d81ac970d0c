/** The queue operations of `queue.c` over the `list_head` arena.

    Every operation takes the arena `h`, the queue's sentinel `head` (`Null`
    for a NULL queue) and, as a ghost argument, the queue's node order; it
    returns the new arena. Allocation is an input: `malloc` hands over a
    fresh block or `Null`, and `strdup` either succeeds or not. Freeing a
    block removes it from the arena. */
module Queue {
  import opened CStrings
  import opened ListHead

  /** Every node that is not on the queue's ring is left as it was. */
  predicate Untouched(h: Heap, r: Heap, head: Ptr, order: seq<Ptr>) {
    forall p :: p in h && p != head && p !in order ==> p in r && r[p] == h[p]
  }

  lemma PrefixStep<T>(s: seq<T>, i: int)
    requires 0 <= i < |s|
    ensures s[..i + 1] == s[..i] + [s[i]]
  {
  }

  /** `q_new`: a block from `malloc` becomes an empty queue; a failed
      allocation yields NULL and changes nothing. */
  method New(h: Heap, blk: Ptr) returns (head: Ptr, r: Heap)
    requires blk != Null ==> blk !in h
    ensures blk == Null ==> head == Null && r == h
    ensures blk != Null ==> head == blk && Valid(r, head, []) && r.Keys == h.Keys + {blk}
    ensures forall p :: p in h ==> p in r && r[p] == h[p]
  {
    if blk == Null {
      return Null, h;
    }
    head := blk;
    r := InitListHead(h, blk);
  }

  /** A fresh element holding `s`, its links not yet set. */
  function Fresh(h: Heap, ele: Ptr, s: CStr): (r: Heap)
    requires ele != Null && ele !in h
    ensures r.Keys == h.Keys + {ele} && r[ele].Elem? && r[ele].value == s
    ensures forall p :: p in h ==> r[p] == h[p]
  {
    h[ele := Elem(Null, Null, s)]
  }

  /** Linking a fresh element after the sentinel prepends its value. */
  lemma AddFresh(h: Heap, head: Ptr, order: seq<Ptr>, ele: Ptr, s: CStr)
    requires Valid(h, head, order)
    requires ele != Null && ele !in h
    ensures Fresh(h, ele, s)[head].next in Fresh(h, ele, s)
    ensures Valid(ListAdd(Fresh(h, ele, s), ele, head), head, [ele] + order)
    ensures Contents(ListAdd(Fresh(h, ele, s), ele, head), [ele] + order) == [s] + Contents(h, order)
    ensures ListAdd(Fresh(h, ele, s), ele, head).Keys == h.Keys + {ele}
    ensures Untouched(h, ListAdd(Fresh(h, ele, s), ele, head), head, order)
  {
    var h1 := Fresh(h, ele, s);
    ValidUnaffected(h, h1, head, order);
    ListAddValid(h1, head, order, ele);
  }

  /** Linking a fresh element before the sentinel appends its value. */
  lemma AddTailFresh(h: Heap, head: Ptr, order: seq<Ptr>, ele: Ptr, s: CStr)
    requires Valid(h, head, order)
    requires ele != Null && ele !in h
    ensures Fresh(h, ele, s)[head].prev in Fresh(h, ele, s)
    ensures Valid(ListAddTail(Fresh(h, ele, s), ele, head), head, order + [ele])
    ensures Contents(ListAddTail(Fresh(h, ele, s), ele, head), order + [ele]) == Contents(h, order) + [s]
    ensures ListAddTail(Fresh(h, ele, s), ele, head).Keys == h.Keys + {ele}
    ensures Untouched(h, ListAddTail(Fresh(h, ele, s), ele, head), head, order)
  {
    var h1 := Fresh(h, ele, s);
    ValidUnaffected(h, h1, head, order);
    ListAddTailValid(h1, head, order, ele);
  }

  /** `q_insert_head`: on success the queue's values become `[s] + old`, the
      new element holding a copy of `s`; on a NULL queue or a failed
      allocation nothing is linked and nothing stays allocated. */
  method InsertHead(h: Heap, head: Ptr, s: CStr, ele: Ptr, dupOk: bool, ghost order: seq<Ptr>)
    returns (ok: bool, r: Heap)
    requires head == Null || Valid(h, head, order)
    requires ele != Null ==> ele !in h
    ensures ok <==> head != Null && ele != Null && dupOk
    ensures !ok ==> r == h
    ensures ok ==> Valid(r, head, [ele] + order)
    ensures ok ==> Contents(r, [ele] + order) == [s] + Contents(h, order)
    ensures ok ==> r.Keys == h.Keys + {ele} && Untouched(h, r, head, order)
  {
    if head == Null {
      return false, h;
    }
    if ele == Null {
      return false, h;
    }
    if !dupOk {
      return false, h;
    }
    AddFresh(h, head, order, ele, s);
    r := ListAdd(Fresh(h, ele, s), ele, head);
    ok := true;
  }

  /** `q_insert_tail`: as `q_insert_head`, with the values becoming
      `old + [s]`. */
  method InsertTail(h: Heap, head: Ptr, s: CStr, ele: Ptr, dupOk: bool, ghost order: seq<Ptr>)
    returns (ok: bool, r: Heap)
    requires head == Null || Valid(h, head, order)
    requires ele != Null ==> ele !in h
    ensures ok <==> head != Null && ele != Null && dupOk
    ensures !ok ==> r == h
    ensures ok ==> Valid(r, head, order + [ele])
    ensures ok ==> Contents(r, order + [ele]) == Contents(h, order) + [s]
    ensures ok ==> r.Keys == h.Keys + {ele} && Untouched(h, r, head, order)
  {
    if head == Null {
      return false, h;
    }
    if ele == Null {
      return false, h;
    }
    if !dupOk {
      return false, h;
    }
    AddTailFresh(h, head, order, ele, s);
    r := ListAddTail(Fresh(h, ele, s), ele, head);
    ok := true;
  }

  /** `q_remove_head`: unlink the first element and hand it back, still
      allocated. When `sp` is given, `written` is what the code stores into
      the buffer and `copied` is the corrected bounded copy (see
      `CopyToBuffer`). An empty queue yields NULL and is left alone. */
  method RemoveHead(h: Heap, head: Ptr, sp: bool, bufsize: nat, ghost order: seq<Ptr>)
    returns (ele: Ptr, r: Heap, written: seq<char>, copied: seq<char>)
    requires Valid(h, head, order)
    requires bufsize < SizeTModulus
    ensures |order| == 0 ==> ele == Null && r == h && written == [] && copied == []
    ensures |order| > 0 ==> ele == order[0] && ele in r && r[ele].Elem? && r[ele].value == Contents(h, order)[0]
    ensures |order| > 0 ==> Valid(r, head, order[1..]) && Contents(r, order[1..]) == Contents(h, order)[1..]
    ensures |order| > 0 && sp ==> written == CopyAsWritten(Contents(h, order)[0], bufsize).copied + [NUL]
    ensures |order| > 0 && sp && |Contents(h, order)[0]| == bufsize ==> |written| == bufsize + 1
    ensures |order| > 0 && sp ==> copied == CopyOut(Contents(h, order)[0], bufsize)
    ensures |order| > 0 && sp && 0 < bufsize && |Contents(h, order)[0]| != bufsize ==> written == copied
    ensures !sp ==> written == [] && copied == []
    ensures |copied| <= bufsize
    ensures r.Keys == h.Keys && Untouched(h, r, head, order)
  {
    ListEmptyIffNoElements(h, head, order);
    if ListEmpty(h, head) {
      return Null, h, [], [];
    }
    ele := h[head].next;
    ListDelValid(h, head, order, 0);
    r := ListDel(h, ele);
    assert Without(order, 0) == order[1..];
    assert Without(Contents(h, order), 0) == Contents(h, order)[1..];
    written, copied := [], [];
    if sp {
      written, copied := CopyToBuffer(r[ele].value, bufsize);
    }
  }

  /** `q_remove_tail`: as `q_remove_head`, for the last element. */
  method RemoveTail(h: Heap, head: Ptr, sp: bool, bufsize: nat, ghost order: seq<Ptr>)
    returns (ele: Ptr, r: Heap, written: seq<char>, copied: seq<char>)
    requires Valid(h, head, order)
    requires bufsize < SizeTModulus
    ensures |order| == 0 ==> ele == Null && r == h && written == [] && copied == []
    ensures |order| > 0 ==> ele == order[|order| - 1] && ele in r
    ensures |order| > 0 ==> r[ele].Elem? && r[ele].value == Contents(h, order)[|order| - 1]
    ensures |order| > 0 ==> Valid(r, head, order[..|order| - 1])
    ensures |order| > 0 ==> Contents(r, order[..|order| - 1]) == Contents(h, order)[..|order| - 1]
    ensures |order| > 0 && sp ==> written == CopyAsWritten(Contents(h, order)[|order| - 1], bufsize).copied + [NUL]
    ensures |order| > 0 && sp && |Contents(h, order)[|order| - 1]| == bufsize ==> |written| == bufsize + 1
    ensures |order| > 0 && sp ==> copied == CopyOut(Contents(h, order)[|order| - 1], bufsize)
    ensures |order| > 0 && sp && 0 < bufsize && |Contents(h, order)[|order| - 1]| != bufsize ==> written == copied
    ensures !sp ==> written == [] && copied == []
    ensures |copied| <= bufsize
    ensures r.Keys == h.Keys && Untouched(h, r, head, order)
  {
    ListEmptyIffNoElements(h, head, order);
    if ListEmpty(h, head) {
      return Null, h, [], [];
    }
    var last := |order| - 1;
    ele := h[head].prev;
    ListDelValid(h, head, order, last);
    r := ListDel(h, ele);
    assert Without(order, last) == order[..last];
    assert Without(Contents(h, order), last) == Contents(h, order)[..last];
    written, copied := [], [];
    if sp {
      written, copied := CopyToBuffer(r[ele].value, bufsize);
    }
  }

  /** `q_size`: walk `next` from the sentinel back to it, counting nodes;
      a NULL queue has size 0. */
  method Size(h: Heap, head: Ptr, ghost order: seq<Ptr>) returns (n: int)
    requires head == Null || Valid(h, head, order)
    ensures n == if head == Null then 0 else |order|
  {
    if head == Null {
      return 0;
    }
    n := 0;
    RingStep(h, head, order, 0);
    var node := h[head].next;
    while node != head
      invariant 0 <= n <= |order|
      invariant node == Ring(head, order, if n == |order| then 0 else n + 1)
      decreases |order| - n
    {
      RingStep(h, head, order, n + 1);
      node := h[node].next;
      n := n + 1;
    }
    if n < |order| {
      RingHead(h, head, order, n + 1);
    }
  }

  /** The guard of the slow/fast walk: with `fast` at ring position `f`,
      neither `fast` nor its successor is the sentinel exactly when two more
      positions lie ahead of `fast` before the ring closes. */
  lemma WalkGuard(h: Heap, head: Ptr, order: seq<Ptr>, f: int)
    requires Valid(h, head, order) && 0 <= f <= |order|
    ensures Ring(head, order, f) in h
    ensures (Ring(head, order, f) != head && h[Ring(head, order, f)].next != head) <==> 0 < f < |order|
  {
    RingHead(h, head, order, f);
    RingStep(h, head, order, f);
    RingHead(h, head, order, if f == |order| then 0 else f + 1);
  }

  /** One round of the slow/fast walk: `slow` at ring position `s` moves to
      `s + 1`, `fast` at `2 * s` moves to `2 * s + 2`, wrapping to the
      sentinel at the end of the ring. */
  lemma WalkStep(h: Heap, head: Ptr, order: seq<Ptr>, s: int)
    requires Valid(h, head, order)
    requires 1 <= s && 2 * s < |order|
    ensures h[Ring(head, order, s)].next == Ring(head, order, s + 1)
    ensures h[Ring(head, order, 2 * s)].next == Ring(head, order, 2 * s + 1)
    ensures h[Ring(head, order, 2 * s + 1)].next == Ring(head, order, if 2 * s + 1 == |order| then 0 else 2 * s + 2)
  {
    RingStep(h, head, order, 2 * s);
    RingStep(h, head, order, 2 * s + 1);
    RingStep(h, head, order, s);
  }

  /** The slow/fast walk of `q_delete_mid`: `fast` moves two nodes for each
      one of `slow` and the walk stops when `fast` or its successor is the
      sentinel. `slow` ends on element `(n - 1) / 2`, and on the sentinel
      itself when the queue is empty. */
  method MidNode(h: Heap, head: Ptr, ghost order: seq<Ptr>) returns (slow: Ptr)
    requires Valid(h, head, order)
    ensures slow in h
    ensures |order| == 0 ==> slow == head
    ensures |order| > 0 ==> slow == order[(|order| - 1) / 2]
  {
    // `s` and `f` are the ring positions of `slow` and `fast`.
    ghost var n := |order|;
    RingStep(h, head, order, 0);
    slow := h[head].next;
    ghost var s := if n == 0 then 0 else 1;
    RingStep(h, head, order, s);
    var fast := h[slow].next;
    ghost var f := if s == n then 0 else s + 1;
    while fast != head && h[fast].next != head
      invariant 0 <= s <= n && 0 <= f <= n
      invariant slow == Ring(head, order, s) && fast == Ring(head, order, f)
      invariant n == 0 ==> s == 0 && f == 0
      invariant n > 0 ==> 1 <= s && 2 * s <= n + 1 && f == (if 2 * s == n + 1 then 0 else 2 * s)
      decreases n - s
    {
      WalkGuard(h, head, order, f);
      WalkStep(h, head, order, s);
      var mid := h[fast].next;
      slow := h[slow].next;
      fast := h[mid].next;
      s := s + 1;
      f := if f + 1 == n then 0 else f + 2;
    }
    RingStep(h, head, order, s);
    WalkGuard(h, head, order, f);
  }

  /** `q_delete_mid` exactly as written: a non-NULL queue always has a node
      unlinked and handed to `q_release_element`, returned as `released`.
      For a non-empty queue that is element `(n - 1) / 2`. For an empty
      queue it is the sentinel, a bare `list_head` that is not an element at
      all; the model can only record that block as gone. */
  method DeleteMidAsWritten(h: Heap, head: Ptr, ghost order: seq<Ptr>) returns (ok: bool, r: Heap, released: Ptr)
    requires head == Null || Valid(h, head, order)
    ensures ok <==> head != Null
    ensures head == Null ==> r == h && released == Null
    ensures head != Null && |order| == 0 ==> released == head && h[released].Head?
    ensures head != Null && |order| == 0 ==> head !in r && r == h - {head}
    ensures head != Null && |order| > 0 ==>
      var m := (|order| - 1) / 2;
      && released == order[m] && h[released].Elem?
      && Valid(r, head, Without(order, m))
      && Contents(r, Without(order, m)) == Without(Contents(h, order), m)
      && r.Keys == h.Keys - {order[m]}
      && Untouched(h, r, head, order)
  {
    if head == Null {
      return false, h, Null;
    }
    var slow := MidNode(h, head, order);
    if |order| > 0 {
      var m := (|order| - 1) / 2;
      ListDelValid(h, head, order, m);
      DistinctWithout(order, m);
      ReleaseValid(ListDel(h, slow), head, Without(order, m), slow);
    } else {
      ListDelSelfLinked(h, head);
    }
    r := ListDel(h, slow);
    r := r - {slow};
    released := slow;
    ok := true;
  }

  /** `q_delete_mid` with the empty queue answered by `false`, as its
      description promises: a non-empty queue loses exactly element
      `(n - 1) / 2`, which is freed, and keeps all others in order. */
  method DeleteMid(h: Heap, head: Ptr, ghost order: seq<Ptr>) returns (ok: bool, r: Heap)
    requires head == Null || Valid(h, head, order)
    ensures ok <==> head != Null && |order| > 0
    ensures !ok ==> r == h
    ensures ok ==>
      var m := (|order| - 1) / 2;
      && Valid(r, head, Without(order, m))
      && Contents(r, Without(order, m)) == Without(Contents(h, order), m)
      && r.Keys == h.Keys - {order[m]}
      && Untouched(h, r, head, order)
  {
    if head == Null {
      return false, h;
    }
    ListEmptyIffNoElements(h, head, order);
    if ListEmpty(h, head) {
      return false, h;
    }
    var released;
    ok, r, released := DeleteMidAsWritten(h, head, order);
  }

  /** What `q_free`'s walk keeps after releasing the first `i` elements: the
      rest still form a valid queue, exactly those `i` blocks are gone, and
      nothing off the ring has changed. */
  ghost predicate FreeInv(h: Heap, r: Heap, head: Ptr, order: seq<Ptr>, i: int) {
    && 0 <= i <= |order|
    && Valid(r, head, order[i..])
    && (forall p :: p in r <==> p in h && p !in order[..i])
    && Untouched(h, r, head, order)
  }

  /** Unlinking and releasing the first element of a valid queue leaves a
      valid queue of the others; only that block goes, and no node off the
      ring changes. */
  lemma ReleaseFirst(r: Heap, head: Ptr, rest: seq<Ptr>)
    requires Valid(r, head, rest) && |rest| > 0
    ensures rest[0] in r && r[rest[0]].next in r && r[rest[0]].prev in r
    ensures r[rest[0]].next == First(head, rest[1..])
    ensures Valid(ListDel(r, rest[0]) - {rest[0]}, head, rest[1..])
    ensures (ListDel(r, rest[0]) - {rest[0]}).Keys == r.Keys - {rest[0]}
    ensures forall p :: p in r && p != head && p !in rest ==> (ListDel(r, rest[0]) - {rest[0]})[p] == r[p]
  {
    ListDelValid(r, head, rest, 0);
    DistinctWithout(rest, 0);
    assert Without(rest, 0) == rest[1..];
    ReleaseValid(ListDel(r, rest[0]), head, rest[1..], rest[0]);
  }

  /** One round of `q_free`'s walk: unlinking and releasing the next element
      keeps the walk's invariant, and its saved successor is the next node
      to visit. */
  lemma FreeStep(h: Heap, r: Heap, head: Ptr, order: seq<Ptr>, i: int)
    requires FreeInv(h, r, head, order, i) && i < |order|
    ensures order[i] in r && r[order[i]].next in r && r[order[i]].prev in r
    ensures r[order[i]].next == First(head, order[i + 1..])
    ensures FreeInv(h, ListDel(r, order[i]) - {order[i]}, head, order, i + 1)
  {
    var rest := order[i..];
    assert rest[0] == order[i] && rest[1..] == order[i + 1..];
    ReleaseFirst(r, head, rest);
    var r2 := ListDel(r, order[i]) - {order[i]};
    assert Valid(r2, head, order[i + 1..]);
    ReleasedKeys(h, r, r2, order, i);
    forall p | p in h && p != head && p !in order ensures p in r2 && r2[p] == h[p] {
      assert p !in rest;
    }
    assert Untouched(h, r2, head, order);
  }

  /** Dropping the `i`-th block extends the released prefix by one. */
  lemma ReleasedKeys(h: Heap, r: Heap, r2: Heap, order: seq<Ptr>, i: int)
    requires 0 <= i < |order|
    requires forall p :: p in r <==> p in h && p !in order[..i]
    requires r2.Keys == r.Keys - {order[i]}
    ensures forall p :: p in r2 <==> p in h && p !in order[..i + 1]
  {
    PrefixStep(order, i);
  }

  /** `q_free`: unlink and release every element, walking with a saved
      successor, then release the sentinel. Exactly the queue's blocks leave
      the arena; every other block is kept as it was. */
  method Free(h: Heap, head: Ptr, ghost order: seq<Ptr>) returns (r: Heap)
    requires Valid(h, head, order)
    ensures forall p :: p in r <==> p in h && p != head && p !in order
    ensures forall p :: p in r ==> r[p] == h[p]
  {
    r := h;
    var node := h[head].next;
    var safe := h[node].next;
    ghost var i := 0;
    while node != head
      invariant FreeInv(h, r, head, order, i)
      invariant node == First(head, order[i..])
      invariant node in r && safe == r[node].next
      decreases |order| - i
    {
      FreeStep(h, r, head, order, i);
      r := ListDel(r, node) - {node};
      node := safe;
      RingStep(r, head, order[i + 1..], 0);
      safe := r[node].next;
      i := i + 1;
    }
    assert order[..i] == order;
    r := r - {head};
  }
}
