/** A min-heap with four children per node, stored in an array
    (FourHeap.java).

    The children of slot `p` are the slots `4p + 1` to `4p + 4`, so the
    parent of slot `i > 0` is `(i - 1) / 4`. A heap is the list of its `size`
    live slots together with the length of the backing array; the stale
    slots past `size` are not modelled. Every mutator returns the heap after
    the call. */
module FourHeaps {
  import opened Orders
  import opened Results

  const INITIAL_CAPACITY: nat := 650
  const RESIZE_FACTOR: nat := 2

  datatype FourHeap<E> = FourHeap(items: seq<E>, capacity: nat)

  /** The `NoSuchElementException` of `findMin` and `deleteMin`. */
  datatype Error = NoSuchElement

  /** `(i - 1) / 4` with Java's division, which truncates toward zero:
      the parent of slot `i > 0`, and slot 0 itself for `i == 0`. */
  function Parent(i: nat): (p: nat)
    ensures i > 0 ==> 4 * p + 1 <= i <= 4 * p + 4
    ensures i == 0 ==> p == 0
  {
    if i == 0 then 0 else (i - 1) / 4
  }

  /** `c` is one of the four children of slot `p`. */
  predicate IsChild(p: int, c: int) {
    4 * p + 1 <= c <= 4 * p + 4
  }

  /** Every slot holds a value no smaller than its parent's. */
  ghost predicate HeapOrdered<E>(le: (E, E) -> bool, a: seq<E>) {
    forall i :: 0 < i < |a| ==> le(a[Parent(i)], a[i])
  }

  /** Heap order holds on every parent link except the one into `hole`. */
  ghost predicate OrderedExceptInto<E>(le: (E, E) -> bool, a: seq<E>, hole: nat) {
    forall i :: 0 < i < |a| && i != hole ==> le(a[Parent(i)], a[i])
  }

  /** Heap order holds on every parent link except those out of `hole`. */
  ghost predicate OrderedExceptFrom<E>(le: (E, E) -> bool, a: seq<E>, hole: nat) {
    forall i :: 0 < i < |a| && Parent(i) != hole ==> le(a[Parent(i)], a[i])
  }

  /** `x` is no larger than any live child of slot `p`. */
  ghost predicate BelowChildren<E>(le: (E, E) -> bool, x: E, a: seq<E>, p: nat) {
    forall c :: IsChild(p, c) && 0 <= c < |a| ==> le(x, a[c])
  }

  /** The invariant: the live slots are heap ordered, and one array slot is
      always spare. */
  ghost predicate Valid<E>(le: (E, E) -> bool, h: FourHeap<E>) {
    && |h.items| < h.capacity
    && HeapOrdered(le, h.items)
  }

  /** The constructor: an empty heap over an array of `INITIAL_CAPACITY`. */
  function New<E(!new)>(le: (E, E) -> bool): (h: FourHeap<E>)
    ensures Valid(le, h)
    ensures GetSize(h) == 0 && h.capacity == INITIAL_CAPACITY
  {
    FourHeap([], INITIAL_CAPACITY)
  }

  /** `getSize` */
  function GetSize<E>(h: FourHeap<E>): (r: nat)
    ensures r == |multiset(h.items)|
  {
    |h.items|
  }

  /** `isEmpty` */
  function IsEmpty<E>(h: FourHeap<E>): (r: bool)
    ensures r <==> multiset(h.items) == multiset{}
  {
    GetSize(h) == 0
  }

  /** `myResize`: a new array `RESIZE_FACTOR` times as long, into which the
      live slots are copied one by one. Every element keeps its slot, and
      beyond the next free slot a spare slot is left again. */
  method Resize<E>(h: FourHeap<E>) returns (r: FourHeap<E>)
    ensures r.items == h.items
    ensures r.capacity == h.capacity * RESIZE_FACTOR
    ensures |h.items| < h.capacity ==> |r.items| + 1 < r.capacity
  {
    var copy: seq<E> := [];
    var i := 0;
    while i < |h.items|
      invariant i <= |h.items|
      invariant copy == h.items[..i]
    {
      copy := copy + [h.items[i]];
      i := i + 1;
    }
    r := FourHeap(copy, h.capacity * RESIZE_FACTOR);
  }

  /** Following parents from any slot leads to the root, so the root is
      no larger than any element. */
  lemma {:induction false} RootBelow<E(!new)>(le: (E, E) -> bool, a: seq<E>, i: nat)
    requires TotalPreorder(le)
    requires HeapOrdered(le, a)
    requires i < |a|
    ensures le(a[0], a[i])
    decreases i
  {
    if i == 0 {
      assert le(a[0], a[0]);
    } else {
      RootBelow(le, a, Parent(i));
    }
  }

  /** The root of a heap-ordered list is its minimum. */
  lemma RootIsMinimum<E(!new)>(le: (E, E) -> bool, a: seq<E>)
    requires TotalPreorder(le)
    requires HeapOrdered(le, a)
    ensures forall i :: 0 <= i < |a| ==> le(a[0], a[i])
  {
    forall i | 0 <= i < |a|
      ensures le(a[0], a[i])
    {
      RootBelow(le, a, i);
    }
  }

  /** `findMin`: the smallest element, without removing it. */
  function FindMin<E(!new)>(le: (E, E) -> bool, h: FourHeap<E>): (r: Result<E, Error>)
    requires TotalPreorder(le)
    requires Valid(le, h)
    ensures r.Fail? <==> IsEmpty(h)
    ensures r.Ok? ==> r.value in h.items && forall x :: x in h.items ==> le(r.value, x)
  {
    if GetSize(h) == 0 then Fail(NoSuchElement)
    else
      RootIsMinimum(le, h.items);
      Ok(h.items[0])
  }

  /** Moving the element of slot `from` into slot `hole` and putting `x` in
      its place gives the same multiset as putting `x` in `hole`. */
  lemma MoveIntoHole<E>(a: seq<E>, hole: nat, from: nat, x: E)
    requires hole < |a| && from < |a| && hole != from
    ensures multiset(a[hole := a[from]][from := x]) == multiset(a[hole := x])
  {
  }

  /** One step of the loop in `insert`: the parent moves down into the hole,
      which moves up to the parent's slot. */
  lemma SiftUpStep<E(!new)>(le: (E, E) -> bool, a: seq<E>, hole: nat, item: E)
    requires TotalPreorder(le)
    requires 0 < hole < |a|
    requires Less(le, item, a[Parent(hole)])
    requires OrderedExceptInto(le, a, hole)
    requires BelowChildren(le, item, a, hole)
    requires BelowChildren(le, a[Parent(hole)], a, hole)
    ensures var p := Parent(hole); var a' := a[hole := a[p]];
            && OrderedExceptInto(le, a', p)
            && BelowChildren(le, item, a', p)
            && (p > 0 ==> BelowChildren(le, a'[Parent(p)], a', p))
  {
    var p := Parent(hole);
    var a' := a[hole := a[p]];
    forall i | 0 < i < |a'| && i != p
      ensures le(a'[Parent(i)], a'[i])
    {
      if i == hole {
        assert le(a[p], a[p]);
      } else if Parent(i) == hole {
        assert IsChild(hole, i);
      }
    }
    forall c | IsChild(p, c) && 0 <= c < |a'|
      ensures le(item, a'[c]) && (p > 0 ==> le(a'[Parent(p)], a'[c]))
    {
      if c != hole {
        assert Parent(c) == p;
        assert le(a[p], a[c]);
      }
      if p > 0 {
        assert le(a[Parent(p)], a[p]);
      }
    }
  }

  /** Filling the hole once its parent is no larger heap-orders the list. */
  lemma SiftUpDone<E(!new)>(le: (E, E) -> bool, a: seq<E>, hole: nat, item: E)
    requires hole < |a|
    requires OrderedExceptInto(le, a, hole)
    requires BelowChildren(le, item, a, hole)
    requires hole > 0 ==> le(a[Parent(hole)], item)
    ensures HeapOrdered(le, a[hole := item])
  {
    var a' := a[hole := item];
    forall i | 0 < i < |a'|
      ensures le(a'[Parent(i)], a'[i])
    {
      if i != hole && Parent(i) == hole {
        assert IsChild(hole, i);
      }
    }
  }

  /** `insert`: the new element goes in the first free slot and moves up past
      every parent strictly greater than it. The array is resized first when
      only the spare slot is left. */
  method Insert<E(!new)>(le: (E, E) -> bool, h: FourHeap<E>, item: E) returns (r: FourHeap<E>)
    requires TotalPreorder(le)
    requires Valid(le, h)
    ensures Valid(le, r)
    ensures multiset(r.items) == multiset(h.items) + multiset{item}
    ensures r.capacity == if GetSize(h) == h.capacity - 1 then h.capacity * RESIZE_FACTOR else h.capacity
  {
    var heap := h;
    if GetSize(heap) == heap.capacity - 1 {
      heap := Resize(heap);
    }
    var n := GetSize(heap);
    var a := heap.items + [item];
    var hole: nat := n;
    assert a[hole := item] == a;
    if n > 0 {
      while Less(le, item, a[Parent(hole)]) && hole > 0
        invariant |a| == n + 1 && hole < |a|
        invariant multiset(a[hole := item]) == multiset(h.items) + multiset{item}
        invariant OrderedExceptInto(le, a, hole)
        invariant BelowChildren(le, item, a, hole)
        invariant hole > 0 ==> BelowChildren(le, a[Parent(hole)], a, hole)
        decreases hole
      {
        SiftUpStep(le, a, hole, item);
        MoveIntoHole(a, hole, Parent(hole), item);
        a := a[hole := a[Parent(hole)]];
        hole := Parent(hole);
      }
    }
    SiftUpDone(le, a, hole, item);
    a := a[hole := item];
    r := FourHeap(a, heap.capacity);
  }

  /** `findBestIndex`: the first of the smallest children of `hole` among
      the live slots, when it is strictly below `plug`; otherwise `hole`. */
  method FindBestIndex<E(!new)>(le: (E, E) -> bool, a: seq<E>, hole: nat, plug: E) returns (best: nat)
    requires TotalPreorder(le)
    requires hole < |a|
    ensures best == hole || (IsChild(hole, best) && best < |a|)
    ensures best != hole ==> Less(le, a[best], plug) && BelowChildren(le, a[best], a, hole)
    ensures best != hole ==> forall c :: IsChild(hole, c) && c < best ==> Less(le, a[best], a[c])
    ensures best == hole ==> BelowChildren(le, plug, a, hole)
  {
    var searcher := hole * 4 + 1;
    best := searcher;
    while searcher < |a| && searcher <= hole * 4 + 4
      invariant hole * 4 + 1 <= best <= searcher <= hole * 4 + 5
      invariant searcher > hole * 4 + 1 ==> best < searcher <= |a|
      invariant searcher > hole * 4 + 1 ==> forall c :: hole * 4 + 1 <= c < searcher ==> le(a[best], a[c])
      invariant searcher > hole * 4 + 1 ==> forall c :: hole * 4 + 1 <= c < best ==> Less(le, a[best], a[c])
    {
      if Less(le, a[searcher], a[best]) {
        best := searcher;
      }
      searcher := searcher + 1;
    }
    if best < |a| && Less(le, a[best], plug) {
      return best;
    }
    return hole;
  }

  /** One step of the loop in `percolateDown`: the best child moves up into
      the hole, which moves down to the child's slot. */
  lemma SiftDownStep<E(!new)>(le: (E, E) -> bool, a: seq<E>, hole: nat, best: nat, plug: E)
    requires TotalPreorder(le)
    requires hole < |a| && IsChild(hole, best) && best < |a|
    requires Less(le, a[best], plug)
    requires BelowChildren(le, a[best], a, hole)
    requires OrderedExceptFrom(le, a, hole)
    requires hole > 0 ==> BelowChildren(le, a[Parent(hole)], a, hole)
    requires hole > 0 ==> le(a[Parent(hole)], plug)
    ensures var a' := a[hole := a[best]];
            && Parent(best) == hole
            && OrderedExceptFrom(le, a', best)
            && BelowChildren(le, a'[hole], a', best)
            && le(a'[hole], plug)
  {
    var a' := a[hole := a[best]];
    forall i | 0 < i < |a'| && Parent(i) != best
      ensures le(a'[Parent(i)], a'[i])
    {
      if i == hole {
        assert IsChild(hole, best);
      } else if Parent(i) == hole {
        assert IsChild(hole, i);
      }
    }
    forall c | IsChild(best, c) && 0 <= c < |a'|
      ensures le(a'[hole], a'[c])
    {
      assert Parent(c) == best;
    }
  }

  /** Filling the hole once no child is below `plug` heap-orders the list. */
  lemma SiftDownDone<E(!new)>(le: (E, E) -> bool, a: seq<E>, hole: nat, plug: E)
    requires hole < |a|
    requires OrderedExceptFrom(le, a, hole)
    requires BelowChildren(le, plug, a, hole)
    requires hole > 0 ==> le(a[Parent(hole)], plug)
    ensures HeapOrdered(le, a[hole := plug])
  {
    var a' := a[hole := plug];
    forall i | 0 < i < |a'|
      ensures le(a'[Parent(i)], a'[i])
    {
      if Parent(i) == hole {
        assert IsChild(hole, i);
      }
    }
  }

  /** `percolateDown`: moves the smallest child up into the hole until no
      child is strictly below `plug`, then fills the hole with `plug`. */
  method PercolateDown<E(!new)>(le: (E, E) -> bool, a: seq<E>, hole: nat, plug: E) returns (r: seq<E>)
    requires TotalPreorder(le)
    requires hole < |a|
    requires OrderedExceptFrom(le, a, hole)
    requires hole > 0 ==> BelowChildren(le, a[Parent(hole)], a, hole)
    requires hole > 0 ==> le(a[Parent(hole)], plug)
    ensures HeapOrdered(le, r)
    ensures multiset(r) == multiset(a[hole := plug])
  {
    r := a;
    var h := hole;
    var best := FindBestIndex(le, r, h, plug);
    while h != best
      invariant |r| == |a| && h < |r|
      invariant best == h || (IsChild(h, best) && best < |r|)
      invariant best != h ==> Less(le, r[best], plug) && BelowChildren(le, r[best], r, h)
      invariant best == h ==> BelowChildren(le, plug, r, h)
      invariant multiset(r[h := plug]) == multiset(a[hole := plug])
      invariant OrderedExceptFrom(le, r, h)
      invariant h > 0 ==> BelowChildren(le, r[Parent(h)], r, h)
      invariant h > 0 ==> le(r[Parent(h)], plug)
      decreases |r| - h
    {
      SiftDownStep(le, r, h, best, plug);
      MoveIntoHole(r, h, best, plug);
      r := r[h := r[best]];
      h := best;
      best := FindBestIndex(le, r, h, plug);
    }
    SiftDownDone(le, r, h, plug);
    r := r[h := plug];
  }

  /** After the last element replaces the root, heap order holds everywhere
      except below the root, and only the old root is gone. */
  lemma DeleteMinStart<E(!new)>(le: (E, E) -> bool, items: seq<E>)
    requires HeapOrdered(le, items)
    requires |items| > 0
    ensures var n := |items|; var a := items[0 := items[n - 1]][..n - 1];
            && OrderedExceptFrom(le, a, 0)
            && multiset(a) + multiset{items[0]} == multiset(items)
  {
    var n := |items|;
    var a := items[0 := items[n - 1]][..n - 1];
    forall i | 0 < i < |a| && Parent(i) != 0
      ensures le(a[Parent(i)], a[i])
    {
      assert le(items[Parent(i)], items[i]);
    }
    if n > 1 {
      assert items == [items[0]] + items[1..n - 1] + [items[n - 1]];
      assert a == [items[n - 1]] + items[1..n - 1];
    }
  }

  /** The tail of `deleteMin`: when the heap is not empty and a child of
      the root is below it, the root percolates down. */
  method SinkRoot<E(!new)>(le: (E, E) -> bool, a: seq<E>) returns (r: seq<E>)
    requires TotalPreorder(le)
    requires OrderedExceptFrom(le, a, 0)
    ensures HeapOrdered(le, r)
    ensures multiset(r) == multiset(a)
  {
    r := a;
    if |a| > 0 {
      var best := FindBestIndex(le, a, 0, a[0]);
      if best != 0 {
        r := PercolateDown(le, a, 0, a[0]);
      } else {
        SiftDownDone(le, a, 0, a[0]);
      }
      assert a[0 := a[0]] == a;
    }
  }

  /** `deleteMin`: removes the root, moves the last element into its place
      and lets it sink. */
  method DeleteMin<E(!new)>(le: (E, E) -> bool, h: FourHeap<E>) returns (r: Result<(E, FourHeap<E>), Error>)
    requires TotalPreorder(le)
    requires Valid(le, h)
    ensures r.Fail? <==> IsEmpty(h)
    ensures r.Ok? ==> FindMin(le, h) == Ok(r.value.0)
    ensures r.Ok? ==> multiset(r.value.1.items) + multiset{r.value.0} == multiset(h.items)
    ensures r.Ok? ==> Valid(le, r.value.1) && r.value.1.capacity == h.capacity
  {
    if IsEmpty(h) {
      return Fail(NoSuchElement);
    }
    var n := GetSize(h);
    var removed := h.items[0];
    var a := h.items[0 := h.items[n - 1]][..n - 1];
    DeleteMinStart(le, h.items);
    a := SinkRoot(le, a);
    return Ok((removed, FourHeap(a, h.capacity)));
  }

  /** Every element left after removing one is an element of before. */
  lemma RemainderWithin<E>(rest: seq<E>, m: E, all: seq<E>)
    requires multiset(rest) + multiset{m} == multiset(all)
    ensures m in all
    ensures forall x :: x in rest ==> x in all
  {
    assert m in multiset(all);
    forall x | x in rest
      ensures x in all
    {
      assert x in multiset(rest);
      assert multiset(all)[x] == multiset(rest)[x] + multiset{m}[x];
    }
  }

  /** Deleting the minimum until the heap is empty lists its elements in
      ascending order. */
  method Drain<E(!new)>(le: (E, E) -> bool, h: FourHeap<E>) returns (ys: seq<E>)
    requires TotalPreorder(le)
    requires Valid(le, h)
    ensures multiset(ys) == multiset(h.items)
    ensures forall i, j :: 0 <= i < j < |ys| ==> le(ys[i], ys[j])
  {
    var heap := h;
    ys := [];
    while !IsEmpty(heap)
      invariant Valid(le, heap)
      invariant multiset(ys) + multiset(heap.items) == multiset(h.items)
      invariant forall i, j :: 0 <= i < j < |ys| ==> le(ys[i], ys[j])
      invariant forall i, x :: 0 <= i < |ys| && x in heap.items ==> le(ys[i], x)
      decreases |heap.items|
    {
      var r := DeleteMin(le, heap);
      var m := r.value.0;
      var rest := r.value.1;
      RemainderWithin(rest.items, m, heap.items);
      ys := ys + [m];
      heap := rest;
    }
  }

  /** The use the class is written for: inserting every element and then
      deleting the minimum until the heap is empty sorts them. */
  method HeapSort<E(!new)>(le: (E, E) -> bool, xs: seq<E>) returns (ys: seq<E>)
    requires TotalPreorder(le)
    ensures multiset(ys) == multiset(xs)
    ensures forall i, j :: 0 <= i < j < |ys| ==> le(ys[i], ys[j])
  {
    var h := New(le);
    for i := 0 to |xs|
      invariant Valid(le, h)
      invariant multiset(h.items) == multiset(xs[..i])
    {
      h := Insert(le, h, xs[i]);
      assert xs[..i + 1] == xs[..i] + [xs[i]];
    }
    assert xs[..|xs|] == xs;
    ys := Drain(le, h);
  }
}
