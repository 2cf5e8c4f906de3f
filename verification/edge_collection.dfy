/** The sorted, duplicate-free list of edge labels that a multigraph keeps for
    one ordered pair of nodes (EdgeCollection.java).

    The Java object wraps an `ArrayList<T>`; here a collection is the value of
    that list, and every mutator returns its Java result together with the
    collection after the call. */
module EdgeCollections {
  import opened Orders

  datatype EdgeCollection<T> = EdgeCollection(edges: seq<T>)

  /** The representation invariant exactly as `checkRep` checks it: each label
      is below its successor, and no label occurs twice. */
  predicate CheckRep<T(==)>(le: (T, T) -> bool, c: EdgeCollection<T>) {
    && (forall i :: 0 <= i < |c.edges| - 1 ==> Less(le, c.edges[i], c.edges[i + 1]))
    && (forall i, j :: 0 <= i < j < |c.edges| ==> c.edges[i] != c.edges[j])
  }

  /** The invariant in the form the proofs use. */
  predicate Valid<T>(le: (T, T) -> bool, c: EdgeCollection<T>) {
    StrictlyAscending(le, c.edges)
  }

  lemma {:induction false} AdjacentToPairwise<T(!new)>(le: (T, T) -> bool, s: seq<T>)
    requires TotalOrder(le)
    requires forall i :: 0 <= i < |s| - 1 ==> Less(le, s[i], s[i + 1])
    ensures StrictlyAscending(le, s)
    decreases |s|
  {
    if |s| > 1 {
      AdjacentToPairwise(le, s[1..]);
      forall i, j | 0 <= i < j < |s|
        ensures Less(le, s[i], s[j])
      {
        if i > 0 {
          assert s[i] == s[1..][i - 1] && s[j] == s[1..][j - 1];
        } else if j > 1 {
          assert s[1] == s[1..][0] && s[j] == s[1..][j - 1];
        }
      }
    }
  }

  /** `checkRep` and the pairwise form agree on every list. */
  lemma CheckRepIsValid<T(!new)>(le: (T, T) -> bool, c: EdgeCollection<T>)
    requires TotalOrder(le)
    ensures CheckRep(le, c) <==> Valid(le, c)
  {
    if CheckRep(le, c) {
      AdjacentToPairwise(le, c.edges);
    }
  }

  /** The no-argument constructor. */
  function Empty<T(==,!new)>(): (c: EdgeCollection<T>)
    ensures Size(c) == 0
    ensures forall e :: !Contains(c, e)
  {
    EdgeCollection([])
  }

  /** The one-label constructor: an empty list followed by `add(edge)`. */
  function Singleton<T(==,!new)>(le: (T, T) -> bool, edge: T): (c: EdgeCollection<T>)
    requires TotalOrder(le)
    ensures Valid(le, c)
    ensures Size(c) == 1
    ensures forall e :: Contains(c, e) <==> e == edge
  {
    Add(le, Empty(), edge).1
  }

  /** The insertion loop of `add`: the label goes in front of the first element
      it is `Less` than, or at the end when there is none. */
  function InsertSorted<T(==,!new)>(le: (T, T) -> bool, s: seq<T>, e: T): (r: seq<T>)
    requires TotalOrder(le)
    ensures |r| == |s| + 1
    ensures forall x :: x in r <==> x in s || x == e
    ensures StrictlyAscending(le, s) && e !in s ==> StrictlyAscending(le, r)
  {
    if s == [] then [e]
    else if Less(le, e, s[0]) then
      HeadBelowTail(le, s);
      PrependAscending(le, e, s);
      [e] + s
    else
      var rest := InsertSorted(le, s[1..], e);
      assert s == [s[0]] + s[1..];
      HeadBelowTail(le, s);
      PrependAscending(le, s[0], rest);
      [s[0]] + rest
  }

  /** `add`: refuses a label already present, otherwise inserts it in order. */
  function Add<T(==,!new)>(le: (T, T) -> bool, c: EdgeCollection<T>, edge: T): (r: (bool, EdgeCollection<T>))
    requires TotalOrder(le)
    requires Valid(le, c)
    ensures r.0 <==> !Contains(c, edge)
    ensures !r.0 ==> r.1 == c
    ensures Size(r.1) == if r.0 then Size(c) + 1 else Size(c)
    ensures forall x :: Contains(r.1, x) <==> Contains(c, x) || x == edge
    ensures Valid(le, r.1)
  {
    if Contains(c, edge) then (false, c)
    else (true, EdgeCollection(InsertSorted(le, c.edges, edge)))
  }

  /** `ArrayList.remove(Object)`: drops the first occurrence of `e`, if any.
      The comparator is not consulted; it only states what order is kept. */
  function RemoveFirst<T(==,!new)>(ghost le: (T, T) -> bool, s: seq<T>, e: T): (r: seq<T>)
    requires TotalOrder(le)
    ensures e !in s ==> r == s
    ensures |r| == if e in s then |s| - 1 else |s|
    ensures forall x :: x != e ==> (x in r <==> x in s)
    ensures StrictlyAscending(le, s) ==> StrictlyAscending(le, r) && e !in r
  {
    if s == [] then []
    else if s[0] == e then
      assert s == [s[0]] + s[1..];
      HeadBelowTail(le, s);
      assert !Less(le, e, e);
      s[1..]
    else
      var rest := RemoveFirst(le, s[1..], e);
      assert s == [s[0]] + s[1..];
      PrependAscending(le, s[0], rest);
      [s[0]] + rest
  }

  /** `remove`: reports whether the label was present, and drops it. */
  function Remove<T(==,!new)>(le: (T, T) -> bool, c: EdgeCollection<T>, edge: T): (r: (bool, EdgeCollection<T>))
    requires TotalOrder(le)
    requires Valid(le, c)
    ensures r.0 <==> Contains(c, edge)
    ensures !r.0 ==> r.1 == c
    ensures Size(r.1) == if r.0 then Size(c) - 1 else Size(c)
    ensures forall x :: Contains(r.1, x) <==> Contains(c, x) && x != edge
    ensures Valid(le, r.1)
  {
    (Contains(c, edge), EdgeCollection(RemoveFirst(le, c.edges, edge)))
  }

  /** `contains` */
  function Contains<T(==)>(c: EdgeCollection<T>, edge: T): bool {
    edge in c.edges
  }

  /** `size` */
  function Size<T>(c: EdgeCollection<T>): nat {
    |c.edges|
  }

  /** `iterator`: the labels, first to last. */
  function Iterator<T>(c: EdgeCollection<T>): seq<T> {
    c.edges
  }

  /** The labels that `iterator` yields are strictly ascending, and they are
      exactly the labels `contains` accepts. */
  lemma IteratorAscending<T(!new)>(le: (T, T) -> bool, c: EdgeCollection<T>)
    requires TotalOrder(le)
    requires Valid(le, c)
    ensures StrictlyAscending(le, Iterator(c))
    ensures |Iterator(c)| == Size(c)
    ensures forall e :: e in Iterator(c) <==> Contains(c, e)
    ensures forall i, j :: 0 <= i < j < |Iterator(c)| ==> Iterator(c)[i] != Iterator(c)[j]
  {
    CheckRepIsValid(le, c);
  }

  /** A list without repeats drops its head from its tail. */
  lemma TailWithoutRepeats<T>(s: seq<T>)
    requires |s| > 0
    requires forall i, j :: 0 <= i < j < |s| ==> s[i] != s[j]
    ensures forall i, j :: 0 <= i < j < |s[1..]| ==> s[1..][i] != s[1..][j]
    ensures s[0] !in s[1..]
  {
    var t := s[1..];
    forall i, j | 0 <= i < j < |t|
      ensures t[i] != t[j]
    {
      assert t[i] == s[i + 1] && t[j] == s[j + 1];
    }
  }

  /** In a list without repeats every element occurs once. */
  lemma {:induction false} DistinctOnce<T>(s: seq<T>, e: T)
    requires forall i, j :: 0 <= i < j < |s| ==> s[i] != s[j]
    ensures multiset(s)[e] == if e in s then 1 else 0
    decreases |s|
  {
    if s != [] {
      TailWithoutRepeats(s);
      DistinctOnce(s[1..], e);
      assert s == [s[0]] + s[1..];
      assert multiset(s) == multiset{s[0]} + multiset(s[1..]);
    }
  }

  /** A list without repeats has as many elements as distinct values. */
  lemma {:induction false} DistinctCardinality<T>(s: seq<T>)
    requires forall i, j :: 0 <= i < j < |s| ==> s[i] != s[j]
    ensures |set x | x in s| == |s|
    decreases |s|
  {
    if s != [] {
      TailWithoutRepeats(s);
      DistinctCardinality(s[1..]);
      assert s == [s[0]] + s[1..];
      assert (set x | x in s) == {s[0]} + (set x | x in s[1..]);
    }
  }

  /** `contains` in a valid collection: an accepted label is stored exactly
      once, a rejected one not at all. */
  lemma ContainsOnce<T(!new)>(le: (T, T) -> bool, c: EdgeCollection<T>, edge: T)
    requires TotalOrder(le)
    requires Valid(le, c)
    ensures Contains(c, edge) <==> multiset(Iterator(c))[edge] == 1
    ensures !Contains(c, edge) <==> multiset(Iterator(c))[edge] == 0
  {
    IteratorAscending(le, c);
    DistinctOnce(Iterator(c), edge);
  }

  /** `size` of a valid collection is the number of distinct labels it holds. */
  lemma SizeCountsLabels<T(!new)>(le: (T, T) -> bool, c: EdgeCollection<T>)
    requires TotalOrder(le)
    requires Valid(le, c)
    ensures Size(c) == |set e | e in Iterator(c)|
  {
    IteratorAscending(le, c);
    DistinctCardinality(Iterator(c));
  }

  /** Two strictly ascending lists with the same elements are the same list:
      a collection is determined by its set of labels. */
  lemma {:induction false} AscendingUnique<T(!new)>(le: (T, T) -> bool, a: seq<T>, b: seq<T>)
    requires TotalOrder(le)
    requires StrictlyAscending(le, a) && StrictlyAscending(le, b)
    requires forall x :: x in a <==> x in b
    ensures a == b
    decreases |a|
  {
    assert a != [] ==> a[0] in b;
    assert b != [] ==> b[0] in a;
    if a != [] && b != [] {
      assert a[0] == b[0];
      assert a == [a[0]] + a[1..] && b == [b[0]] + b[1..];
      forall x
        ensures x in a[1..] <==> x in b[1..]
      {
        if x in a[1..] {
          var k :| 1 <= k < |a| && a[k] == x;
          assert Less(le, a[0], x);
          assert x in b && x != b[0];
        }
        if x in b[1..] {
          var k :| 1 <= k < |b| && b[k] == x;
          assert Less(le, b[0], x);
          assert x in a && x != a[0];
        }
      }
      AscendingUnique(le, a[1..], b[1..]);
    }
  }

  /** Removing a label just added gives back the collection it was added to. */
  lemma RemoveUndoesAdd<T(!new)>(le: (T, T) -> bool, c: EdgeCollection<T>, edge: T)
    requires TotalOrder(le)
    requires Valid(le, c)
    requires !Contains(c, edge)
    ensures Remove(le, Add(le, c, edge).1, edge) == (true, c)
  {
    var r := Remove(le, Add(le, c, edge).1, edge).1;
    AscendingUnique(le, r.edges, c.edges);
  }

  /** Adding back a label just removed gives back the collection it was removed from. */
  lemma AddUndoesRemove<T(!new)>(le: (T, T) -> bool, c: EdgeCollection<T>, edge: T)
    requires TotalOrder(le)
    requires Valid(le, c)
    requires Contains(c, edge)
    ensures Add(le, Remove(le, c, edge).1, edge) == (true, c)
  {
    var r := Add(le, Remove(le, c, edge).1, edge).1;
    AscendingUnique(le, r.edges, c.edges);
  }

  /** The order in which two labels are added does not matter. */
  lemma AddCommutes<T(!new)>(le: (T, T) -> bool, c: EdgeCollection<T>, a: T, b: T)
    requires TotalOrder(le)
    requires Valid(le, c)
    ensures Add(le, Add(le, c, a).1, b).1 == Add(le, Add(le, c, b).1, a).1
  {
    var ab := Add(le, Add(le, c, a).1, b).1;
    var ba := Add(le, Add(le, c, b).1, a).1;
    assert forall x :: x in ab.edges <==> x in c.edges || x == a || x == b;
    assert forall x :: x in ba.edges <==> x in c.edges || x == a || x == b;
    AscendingUnique(le, ab.edges, ba.edges);
  }

  /** `add` applied to each label of `xs` in turn. */
  function AddAll<T(==,!new)>(le: (T, T) -> bool, c: EdgeCollection<T>, xs: seq<T>): (r: EdgeCollection<T>)
    requires TotalOrder(le)
    requires Valid(le, c)
    ensures Valid(le, r)
    ensures forall x :: Contains(r, x) <==> Contains(c, x) || x in xs
    decreases |xs|
  {
    if xs == [] then c
    else
      var r := AddAll(le, Add(le, c, xs[0]).1, xs[1..]);
      assert xs == [xs[0]] + xs[1..];
      r
  }

  /** Whatever order labels arrive in, the collection iterates them in
      ascending order, each once; two arrival orders of the same labels give
      the same collection. */
  lemma InsertionOrderIrrelevant<T(!new)>(le: (T, T) -> bool, xs: seq<T>, ys: seq<T>)
    requires TotalOrder(le)
    requires forall x :: x in xs <==> x in ys
    ensures StrictlyAscending(le, Iterator(AddAll(le, Empty(), xs)))
    ensures forall x :: x in Iterator(AddAll(le, Empty(), xs)) <==> x in xs
    ensures AddAll(le, Empty(), xs) == AddAll(le, Empty(), ys)
  {
    var a, b := AddAll(le, Empty(), xs), AddAll(le, Empty(), ys);
    forall x
      ensures x in a.edges <==> x in b.edges
    {
      assert Contains(a, x) <==> Contains(b, x);
    }
    AscendingUnique(le, a.edges, b.edges);
  }

  /** Adding a label above every label present appends it. */
  lemma {:induction false} InsertAboveAll<T(!new)>(le: (T, T) -> bool, s: seq<T>, e: T)
    requires TotalOrder(le)
    requires forall x :: x in s ==> Less(le, x, e)
    ensures InsertSorted(le, s, e) == s + [e]
    decreases |s|
  {
    if s != [] {
      assert s[0] in s;
      InsertAboveAll(le, s[1..], e);
      assert s == [s[0]] + s[1..];
    }
  }

  /** Re-adding, in iteration order, the labels of an ascending list to a
      collection whose labels all lie below them appends the list. */
  lemma {:induction false} AddAllAscending<T(!new)>(le: (T, T) -> bool, c: EdgeCollection<T>, xs: seq<T>)
    requires TotalOrder(le)
    requires Valid(le, c)
    requires StrictlyAscending(le, c.edges + xs)
    ensures AddAll(le, c, xs).edges == c.edges + xs
    decreases |xs|
  {
    if xs != [] {
      var s := c.edges + xs;
      forall x | x in c.edges
        ensures Less(le, x, xs[0])
      {
        var k :| 0 <= k < |c.edges| && c.edges[k] == x;
        assert s[k] == x && s[|c.edges|] == xs[0];
      }
      assert !Contains(c, xs[0]);
      InsertAboveAll(le, c.edges, xs[0]);
      var c1 := Add(le, c, xs[0]).1;
      assert c1.edges + xs[1..] == s;
      AddAllAscending(le, c1, xs[1..]);
    }
  }

  /** Copying a collection label by label through its iterator (what
      `Multigraph.findEdges` does) reproduces it exactly. */
  lemma CopyIsIdentical<T(!new)>(le: (T, T) -> bool, c: EdgeCollection<T>)
    requires TotalOrder(le)
    requires Valid(le, c)
    ensures AddAll(le, Empty(), Iterator(c)) == c
  {
    assert Empty<T>().edges + c.edges == c.edges;
    AddAllAscending(le, Empty(), c.edges);
  }
}
