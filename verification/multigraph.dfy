/** A directed multigraph (Multigraph.java): every registered node maps each
    of its children to the EdgeCollection of labels on the edges towards it.

    `E` is the node type and `T` the label type; `leE` and `leT` are their
    `compareTo`. Every mutator returns its Java result together with the graph
    after the call. */
module Multigraphs {
  import opened Orders
  import opened Results
  import EdgeCollections

  type EdgeCollection<T> = EdgeCollections.EdgeCollection<T>

  datatype Multigraph<E, T> = Multigraph(nodeMap: map<E, map<E, EdgeCollection<T>>>)

  /** The children map of one node is well formed: every child is one of
      `nodes`, and its collection is non-empty and keeps its own invariant. */
  ghost predicate ValidChildren<E, T>(leT: (T, T) -> bool, nodes: set<E>, children: map<E, EdgeCollection<T>>) {
    forall m :: m in children ==>
      && m in nodes
      && EdgeCollections.Size(children[m]) > 0
      && EdgeCollections.Valid(leT, children[m])
  }

  /** The representation invariant: an adjacency entry only points at a
      registered node and never holds an empty collection. */
  ghost predicate Valid<E, T>(leT: (T, T) -> bool, g: Multigraph<E, T>) {
    forall n :: n in g.nodeMap ==> ValidChildren(leT, g.nodeMap.Keys, g.nodeMap[n])
  }

  /** Replacing the children map of a registered node by a well-formed one
      keeps the invariant. */
  lemma UpdateChildrenValid<E, T>(leT: (T, T) -> bool, g: Multigraph<E, T>, n: E, children: map<E, EdgeCollection<T>>)
    requires Valid(leT, g)
    requires n in g.nodeMap
    requires ValidChildren(leT, g.nodeMap.Keys, children)
    ensures Valid(leT, Multigraph(g.nodeMap[n := children]))
  {
    var g' := Multigraph(g.nodeMap[n := children]);
    assert g'.nodeMap.Keys == g.nodeMap.Keys;
    forall a | a in g'.nodeMap
      ensures ValidChildren(leT, g'.nodeMap.Keys, g'.nodeMap[a])
    {
      if a != n {
        assert g'.nodeMap[a] == g.nodeMap[a];
      }
    }
  }

  /** The labels on the edges from `a` to `b`; none when there is no entry. */
  function EdgesOf<E, T>(g: Multigraph<E, T>, a: E, b: E): seq<T> {
    if a in g.nodeMap && b in g.nodeMap[a] then g.nodeMap[a][b].edges else []
  }

  /** `g'` has the same nodes as `g`, and the same labels as `g` on every
      ordered pair other than `n1` to `n2`. */
  ghost predicate SameOutside<E(!new), T>(g: Multigraph<E, T>, g': Multigraph<E, T>, n1: E, n2: E) {
    && g'.nodeMap.Keys == g.nodeMap.Keys
    && (forall a, b :: a != n1 || b != n2 ==> EdgesOf(g', a, b) == EdgesOf(g, a, b))
  }

  /** `nodeMap.get(node1).put(node2, edges)` */
  function PutEdges<E(!new), T>(g: Multigraph<E, T>, node1: E, node2: E, edges: EdgeCollection<T>): (r: Multigraph<E, T>)
    requires node1 in g.nodeMap
    ensures SameOutside(g, r, node1, node2)
    ensures node2 in r.nodeMap[node1] && r.nodeMap[node1][node2] == edges
    ensures EdgesOf(r, node1, node2) == edges.edges
    ensures r.nodeMap[node1].Keys == g.nodeMap[node1].Keys + {node2}
  {
    Multigraph(g.nodeMap[node1 := g.nodeMap[node1][node2 := edges]])
  }

  /** `nodeMap.get(node1).remove(node2)` */
  function DropEdges<E(!new), T>(g: Multigraph<E, T>, node1: E, node2: E): (r: Multigraph<E, T>)
    requires node1 in g.nodeMap
    ensures SameOutside(g, r, node1, node2)
    ensures node2 !in r.nodeMap[node1]
    ensures EdgesOf(r, node1, node2) == []
    ensures r.nodeMap[node1].Keys == g.nodeMap[node1].Keys - {node2}
  {
    Multigraph(g.nodeMap[node1 := g.nodeMap[node1] - {node2}])
  }

  /** Putting back the collection already there changes nothing. */
  lemma PutSameEdges<E(!new), T>(g: Multigraph<E, T>, node1: E, node2: E, edges: EdgeCollection<T>)
    requires node1 in g.nodeMap
    ensures node2 in g.nodeMap[node1] && edges == g.nodeMap[node1][node2] ==> PutEdges(g, node1, node2, edges) == g
  {
    if node2 in g.nodeMap[node1] && edges == g.nodeMap[node1][node2] {
      assert g.nodeMap[node1][node2 := edges] == g.nodeMap[node1];
      assert g.nodeMap[node1 := g.nodeMap[node1]] == g.nodeMap;
    }
  }

  /** The constructor: no nodes. */
  function New<E(!new), T>(): (g: Multigraph<E, T>)
    ensures Size(g) == 0
    ensures forall n :: !HasNode(g, n)
  {
    Multigraph(map[])
  }

  /** `addNode`: registers an unknown node, with no children. */
  function AddNode<E, T>(ghost leT: (T, T) -> bool, g: Multigraph<E, T>, node: E): (r: (bool, Multigraph<E, T>))
    requires Valid(leT, g)
    ensures r.0 <==> !HasNode(g, node)
    ensures !r.0 ==> r.1 == g
    ensures r.0 ==> r.1.nodeMap.Keys == g.nodeMap.Keys + {node} && |r.1.nodeMap[node]| == 0
    ensures forall n :: n in g.nodeMap ==> n in r.1.nodeMap && r.1.nodeMap[n] == g.nodeMap[n]
    ensures Valid(leT, r.1)
  {
    if HasNode(g, node) then (false, g)
    else (true, Multigraph(g.nodeMap[node := map[]]))
  }

  /** `addEdgeDirected`: puts `edge` on the edges from `node1` to `node2`,
      creating the entry when there is none. When both nodes are registered
      it answers true, even if the label was already there. */
  function AddEdgeDirected<E(!new), T(==,!new)>(leT: (T, T) -> bool, g: Multigraph<E, T>, node1: E, node2: E, edge: T): (r: (bool, Multigraph<E, T>))
    requires TotalOrder(leT)
    requires Valid(leT, g)
    ensures r.0 <==> HasNode(g, node1) && HasNode(g, node2)
    ensures !r.0 ==> r.1 == g
    ensures edge in EdgesOf(g, node1, node2) ==> r.1 == g
    ensures r.0 ==> SameOutside(g, r.1, node1, node2) && node2 in r.1.nodeMap[node1]
    ensures r.0 ==> forall x :: x in EdgesOf(r.1, node1, node2) <==> x in EdgesOf(g, node1, node2) || x == edge
    ensures Valid(leT, r.1)
  {
    if !HasNode(g, node1) || !HasNode(g, node2) then (false, g)
    else
      var node2Map := g.nodeMap[node1];
      assert ValidChildren(leT, g.nodeMap.Keys, node2Map);
      var edges :=
        if node2 !in node2Map then EdgeCollections.Singleton(leT, edge)
        else EdgeCollections.Add(leT, node2Map[node2], edge).1;
      assert ValidChildren(leT, g.nodeMap.Keys, node2Map[node2 := edges]);
      UpdateChildrenValid(leT, g, node1, node2Map[node2 := edges]);
      PutSameEdges(g, node1, node2, edges);
      (true, PutEdges(g, node1, node2, edges))
  }

  /** `addEdgesCircular`: `addEdgeDirected` both ways, answering whether
      either call did. */
  function AddEdgesCircular<E(!new), T(==,!new)>(leT: (T, T) -> bool, g: Multigraph<E, T>, node1: E, node2: E, edge: T): (r: (bool, Multigraph<E, T>))
    requires TotalOrder(leT)
    requires Valid(leT, g)
    ensures r.0 <==> HasNode(g, node1) && HasNode(g, node2)
    ensures !r.0 ==> r.1 == g
    ensures r.0 ==> forall x :: x in EdgesOf(r.1, node1, node2) <==> x in EdgesOf(g, node1, node2) || x == edge
    ensures r.0 ==> forall x :: x in EdgesOf(r.1, node2, node1) <==> x in EdgesOf(g, node2, node1) || x == edge
    ensures forall a, b :: (a != node1 || b != node2) && (a != node2 || b != node1) ==> EdgesOf(r.1, a, b) == EdgesOf(g, a, b)
    ensures r.1.nodeMap.Keys == g.nodeMap.Keys
    ensures Valid(leT, r.1)
  {
    var (added1, g1) := AddEdgeDirected(leT, g, node1, node2, edge);
    var (added2, g2) := AddEdgeDirected(leT, g1, node2, node1, edge);
    (added1 || added2, g2)
  }

  /** `deleteEdgeDirected`: takes `edge` off the edges from `node1` to
      `node2`, and drops the entry once no label is left on it. */
  function DeleteEdgeDirected<E(!new), T(==,!new)>(leT: (T, T) -> bool, g: Multigraph<E, T>, node1: E, node2: E, edge: T): (r: (bool, Multigraph<E, T>))
    requires TotalOrder(leT)
    requires Valid(leT, g)
    ensures r.0 <==> HasNode(g, node1) && HasNode(g, node2) && edge in EdgesOf(g, node1, node2)
    ensures !r.0 ==> r.1 == g
    ensures SameOutside(g, r.1, node1, node2)
    ensures forall x :: x in EdgesOf(r.1, node1, node2) <==> x in EdgesOf(g, node1, node2) && x != edge
    ensures r.0 && |EdgesOf(g, node1, node2)| == 1 ==> node2 !in r.1.nodeMap[node1]
    ensures Valid(leT, r.1)
  {
    if !HasNode(g, node1) || !HasNode(g, node2) then (false, g)
    else if node2 in g.nodeMap[node1] then
      var node2Map := g.nodeMap[node1];
      assert ValidChildren(leT, g.nodeMap.Keys, node2Map);
      var (removed, edges) := EdgeCollections.Remove(leT, node2Map[node2], edge);
      if EdgeCollections.Size(edges) == 0 then
        assert ValidChildren(leT, g.nodeMap.Keys, node2Map - {node2});
        UpdateChildrenValid(leT, g, node1, node2Map - {node2});
        (removed, DropEdges(g, node1, node2))
      else
        assert ValidChildren(leT, g.nodeMap.Keys, node2Map[node2 := edges]);
        UpdateChildrenValid(leT, g, node1, node2Map[node2 := edges]);
        PutSameEdges(g, node1, node2, edges);
        (removed, PutEdges(g, node1, node2, edges))
    else (false, g)
  }

  /** `deleteEdgeOccurrences`: `deleteEdgeDirected` both ways, answering
      whether either call did. */
  function DeleteEdgeOccurrences<E(!new), T(==,!new)>(leT: (T, T) -> bool, g: Multigraph<E, T>, node1: E, node2: E, edge: T): (r: (bool, Multigraph<E, T>))
    requires TotalOrder(leT)
    requires Valid(leT, g)
    ensures r.0 <==> HasNode(g, node1) && HasNode(g, node2)
                     && (edge in EdgesOf(g, node1, node2) || edge in EdgesOf(g, node2, node1))
    ensures !r.0 ==> r.1 == g
    ensures forall a, b :: (a != node1 || b != node2) && (a != node2 || b != node1) ==> EdgesOf(r.1, a, b) == EdgesOf(g, a, b)
    ensures edge !in EdgesOf(r.1, node1, node2) && edge !in EdgesOf(r.1, node2, node1)
    ensures forall x :: x != edge ==> (x in EdgesOf(r.1, node1, node2) <==> x in EdgesOf(g, node1, node2))
    ensures forall x :: x != edge ==> (x in EdgesOf(r.1, node2, node1) <==> x in EdgesOf(g, node2, node1))
    ensures r.1.nodeMap.Keys == g.nodeMap.Keys
    ensures Valid(leT, r.1)
  {
    var (deleted1, g1) := DeleteEdgeDirected(leT, g, node1, node2, edge);
    var (deleted2, g2) := DeleteEdgeDirected(leT, g1, node2, node1, edge);
    (deleted1 || deleted2, g2)
  }

  /** `deleteNode`: removes every entry pointing at `node`, then `node`
      itself, answering whether it was registered. */
  function DeleteNode<E(!new), T>(ghost leT: (T, T) -> bool, g: Multigraph<E, T>, node: E): (r: (bool, Multigraph<E, T>))
    requires Valid(leT, g)
    ensures r.0 <==> HasNode(g, node)
    ensures r.1.nodeMap.Keys == g.nodeMap.Keys - {node}
    ensures forall n :: n in r.1.nodeMap ==> node !in r.1.nodeMap[n]
    ensures forall a, b :: a in r.1.nodeMap && b != node ==> EdgesOf(r.1, a, b) == EdgesOf(g, a, b)
    ensures Valid(leT, r.1)
  {
    var g' := Multigraph(Purge(g.nodeMap, node) - {node});
    assert g'.nodeMap.Keys == g.nodeMap.Keys - {node};
    forall n | n in g'.nodeMap
      ensures ValidChildren(leT, g'.nodeMap.Keys, g'.nodeMap[n])
    {
      assert ValidChildren(leT, g.nodeMap.Keys, g.nodeMap[n]);
    }
    (node in g.nodeMap, g')
  }

  /** The loop of `deleteNode`: afterwards no node has `node` as a child,
      while the nodes, their other children and every other pair's labels
      are kept. */
  function Purge<E(!new), T>(nodeMap: map<E, map<E, EdgeCollection<T>>>, node: E): (r: map<E, map<E, EdgeCollection<T>>>)
    ensures r.Keys == nodeMap.Keys
    ensures forall n :: n in r ==> node !in r[n]
    ensures forall n, m :: n in r && m != node ==> (m in r[n] <==> m in nodeMap[n])
    ensures forall n, m :: n in r && m != node ==> EdgesOf(Multigraph(r), n, m) == EdgesOf(Multigraph(nodeMap), n, m)
  {
    map n | n in nodeMap :: nodeMap[n] - {node}
  }

  /** Purging a node no entry points at changes nothing. */
  lemma PurgeUnreferenced<E(!new), T>(nodeMap: map<E, map<E, EdgeCollection<T>>>, node: E)
    requires forall n :: n in nodeMap ==> node !in nodeMap[n]
    ensures Purge(nodeMap, node) == nodeMap
  {
    var r := Purge(nodeMap, node);
    forall n | n in nodeMap
      ensures r[n] == nodeMap[n]
    {
      assert nodeMap[n] - {node} == nodeMap[n];
    }
  }

  /** `hasNode` after the node operations: `addNode` registers its node,
      `deleteNode` unregisters it, and no other node changes. */
  lemma HasNodeAfterNodeOps<E(!new), T>(leT: (T, T) -> bool, g: Multigraph<E, T>, node: E, n: E)
    requires Valid(leT, g)
    ensures HasNode(AddNode(leT, g, node).1, n) <==> HasNode(g, n) || n == node
    ensures HasNode(DeleteNode(leT, g, node).1, n) <==> HasNode(g, n) && n != node
  {
  }

  /** `size` after the node operations: one more after adding a new node,
      one fewer after deleting a registered one, otherwise the same. */
  lemma SizeAfterNodeOps<E(!new), T>(leT: (T, T) -> bool, g: Multigraph<E, T>, node: E)
    requires Valid(leT, g)
    ensures Size(AddNode(leT, g, node).1) == if HasNode(g, node) then Size(g) else Size(g) + 1
    ensures Size(DeleteNode(leT, g, node).1) == if HasNode(g, node) then Size(g) - 1 else Size(g)
  {
  }

  /** `checkRep` as written: it visits the nodes in ascending order and, for
      each node, only the registered nodes at or after it, so an entry to an
      earlier or unregistered child is never looked at. */
  ghost predicate CheckRepAsWritten<E(!new), T>(leE: (E, E) -> bool, g: Multigraph<E, T>) {
    forall a, b :: a in g.nodeMap && b in g.nodeMap && leE(a, b) && b in g.nodeMap[a] ==>
      EdgeCollections.Size(g.nodeMap[a][b]) > 0
  }

  /** The check `checkRep` is evidently meant to make: every entry of every
      node, whatever the order of its child, holds a non-empty collection. */
  ghost predicate CheckRepAllPairs<E(!new), T>(g: Multigraph<E, T>) {
    forall a, b :: a in g.nodeMap && b in g.nodeMap[a] ==> EdgeCollections.Size(g.nodeMap[a][b]) > 0
  }

  /** Two registered nodes, the earlier with no children and the later with
      an empty collection to the earlier. */
  function EmptyBackEntry(): Multigraph<int, int> {
    Multigraph(map[0 := map[], 1 := map[0 := EdgeCollections.EdgeCollection([])]])
  }

  /** `checkRep` as written passes `EmptyBackEntry`, although the graph
      breaks the invariant. */
  lemma CheckRepMissesEarlierChild()
    ensures CheckRepAsWritten((a: int, b: int) => a <= b, EmptyBackEntry())
    ensures !CheckRepAllPairs(EmptyBackEntry())
    ensures !Valid((x: int, y: int) => x <= y, EmptyBackEntry())
  {
    var g := EmptyBackEntry();
    assert 1 in g.nodeMap && 0 in g.nodeMap[1] && EdgeCollections.Size(g.nodeMap[1][0]) == 0;
    assert !ValidChildren((x: int, y: int) => x <= y, g.nodeMap.Keys, g.nodeMap[1]);
  }

  /** With every pair checked, and the children registered and their
      collections valid, the check accepts exactly the graphs that keep the
      invariant. */
  lemma CheckRepAllPairsIsValid<E(!new), T>(leT: (T, T) -> bool, g: Multigraph<E, T>)
    ensures Valid(leT, g) <==>
              && CheckRepAllPairs(g)
              && (forall a, b :: a in g.nodeMap && b in g.nodeMap[a] ==> b in g.nodeMap)
              && (forall a, b :: a in g.nodeMap && b in g.nodeMap[a] ==> EdgeCollections.Valid(leT, g.nodeMap[a][b]))
  {
  }

  /** `findEdges`: a copy, built label by label through the iterator, of the
      collection from `node1` to `node2`; `None` (Java's `null`) when there is
      no such entry. */
  function FindEdges<E(!new), T(==,!new)>(leT: (T, T) -> bool, g: Multigraph<E, T>, node1: E, node2: E): (r: Option<EdgeCollection<T>>)
    requires TotalOrder(leT)
    requires Valid(leT, g)
    ensures r.Some? <==> HasNode(g, node1) && node2 in g.nodeMap[node1]
    ensures r.Some? ==> r.value == g.nodeMap[node1][node2]
    ensures r.Some? ==> EdgeCollections.Size(r.value) > 0
  {
    if HasNode(g, node1) && node2 in g.nodeMap[node1] then
      assert ValidChildren(leT, g.nodeMap.Keys, g.nodeMap[node1]);
      var original := g.nodeMap[node1][node2];
      EdgeCollections.CopyIsIdentical(leT, original);
      Some(EdgeCollections.AddAll(leT, EdgeCollections.Empty(), EdgeCollections.Iterator(original)))
    else None
  }

  /** `hasNode` */
  function HasNode<E, T>(g: Multigraph<E, T>, node: E): bool {
    node in g.nodeMap
  }

  /** `size`: the number of registered nodes. */
  function Size<E, T>(g: Multigraph<E, T>): nat {
    |g.nodeMap|
  }

  /** `sortedObjectList`: the keys of a map, in ascending order. Java copies
      the key set in hash order and sorts it; here the keys are taken in an
      arbitrary order and each is put in its sorted place. */
  method SortedObjectList<E(==,!new), U>(leE: (E, E) -> bool, m: map<E, U>) returns (r: seq<E>)
    requires TotalOrder(leE)
    ensures StrictlyAscending(leE, r)
    ensures forall n :: n in r <==> n in m
    ensures |r| == |m|
  {
    r := [];
    var rest := m.Keys;
    while rest != {}
      invariant rest <= m.Keys
      invariant StrictlyAscending(leE, r)
      invariant forall n :: n in r <==> n in m && n !in rest
      invariant |r| + |rest| == |m.Keys|
      decreases |rest|
    {
      var k :| k in rest;
      r := EdgeCollections.InsertSorted(leE, r, k);
      rest := rest - {k};
    }
  }

  /** `nodeList`: every registered node, ascending. */
  method NodeList<E(==,!new), T>(leE: (E, E) -> bool, g: Multigraph<E, T>) returns (r: seq<E>)
    requires TotalOrder(leE)
    ensures StrictlyAscending(leE, r)
    ensures forall n :: n in r <==> HasNode(g, n)
    ensures |r| == Size(g)
  {
    r := SortedObjectList(leE, g.nodeMap);
  }

  /** `nodeChildrenList`: the children of `node`, ascending; `None` (Java's
      `null`) when `node` is not registered. */
  method NodeChildrenList<E(==,!new), T>(leE: (E, E) -> bool, g: Multigraph<E, T>, node: E) returns (r: Option<seq<E>>)
    requires TotalOrder(leE)
    ensures r.None? <==> !HasNode(g, node)
    ensures r.Some? ==> StrictlyAscending(leE, r.value)
    ensures r.Some? ==> forall n :: n in r.value <==> n in g.nodeMap[node]
  {
    if node in g.nodeMap {
      var children := SortedObjectList(leE, g.nodeMap[node]);
      r := Some(children);
    } else {
      r := None;
    }
  }

  /** Registering a fresh node and deleting it again leaves the graph as it was. */
  lemma DeleteNodeUndoesAddNode<E(!new), T>(leT: (T, T) -> bool, g: Multigraph<E, T>, node: E)
    requires Valid(leT, g)
    requires !HasNode(g, node)
    ensures DeleteNode(leT, AddNode(leT, g, node).1, node) == (true, g)
  {
    var m1 := g.nodeMap[node := map[]];
    forall n | n in m1
      ensures node !in m1[n]
    {
      if n != node {
        assert ValidChildren(leT, g.nodeMap.Keys, g.nodeMap[n]);
      }
    }
    PurgeUnreferenced(m1, node);
    assert m1 - {node} == g.nodeMap;
  }

  /** Writing the collection of a pair twice keeps only the second write. */
  lemma PutTwice<E(!new), T>(g: Multigraph<E, T>, node1: E, node2: E, c1: EdgeCollection<T>, c2: EdgeCollection<T>)
    requires node1 in g.nodeMap
    ensures PutEdges(PutEdges(g, node1, node2, c1), node1, node2, c2) == PutEdges(g, node1, node2, c2)
  {
    assert g.nodeMap[node1][node2 := c1][node2 := c2] == g.nodeMap[node1][node2 := c2];
  }

  /** Dropping an entry just created restores the graph. */
  lemma DropUndoesPut<E(!new), T>(g: Multigraph<E, T>, node1: E, node2: E, c: EdgeCollection<T>)
    requires node1 in g.nodeMap && node2 !in g.nodeMap[node1]
    ensures DropEdges(PutEdges(g, node1, node2, c), node1, node2) == g
  {
    assert g.nodeMap[node1][node2 := c] - {node2} == g.nodeMap[node1];
    assert g.nodeMap[node1 := g.nodeMap[node1]] == g.nodeMap;
  }

  /** Putting back the entry just dropped restores the graph. */
  lemma PutUndoesDrop<E(!new), T>(g: Multigraph<E, T>, node1: E, node2: E)
    requires node1 in g.nodeMap && node2 in g.nodeMap[node1]
    ensures PutEdges(DropEdges(g, node1, node2), node1, node2, g.nodeMap[node1][node2]) == g
  {
    var inner := g.nodeMap[node1];
    assert (inner - {node2})[node2 := inner[node2]] == inner;
    assert g.nodeMap[node1 := inner - {node2}][node1 := inner] == g.nodeMap;
  }

  /** What `addEdgeDirected` does when the pair has no entry yet. */
  lemma AddEdgeFresh<E(!new), T(!new)>(leT: (T, T) -> bool, g: Multigraph<E, T>, node1: E, node2: E, edge: T)
    requires TotalOrder(leT)
    requires Valid(leT, g)
    requires HasNode(g, node1) && HasNode(g, node2) && node2 !in g.nodeMap[node1]
    ensures AddEdgeDirected(leT, g, node1, node2, edge) == (true, PutEdges(g, node1, node2, EdgeCollections.Singleton(leT, edge)))
  {
  }

  /** What `addEdgeDirected` does when the pair already has an entry. */
  lemma AddEdgeExisting<E(!new), T(!new)>(leT: (T, T) -> bool, g: Multigraph<E, T>, node1: E, node2: E, edge: T)
    requires TotalOrder(leT)
    requires Valid(leT, g)
    requires HasNode(g, node1) && HasNode(g, node2) && node2 in g.nodeMap[node1]
    ensures ValidChildren(leT, g.nodeMap.Keys, g.nodeMap[node1])
    ensures AddEdgeDirected(leT, g, node1, node2, edge) ==
              (true, PutEdges(g, node1, node2, EdgeCollections.Add(leT, g.nodeMap[node1][node2], edge).1))
  {
    assert ValidChildren(leT, g.nodeMap.Keys, g.nodeMap[node1]);
  }

  /** What `deleteEdgeDirected` does when the label is on the pair. */
  lemma DeleteEdgePresent<E(!new), T(!new)>(leT: (T, T) -> bool, g: Multigraph<E, T>, node1: E, node2: E, edge: T)
    requires TotalOrder(leT)
    requires Valid(leT, g)
    requires edge in EdgesOf(g, node1, node2)
    ensures HasNode(g, node1) && HasNode(g, node2) && node2 in g.nodeMap[node1]
    ensures EdgeCollections.Valid(leT, g.nodeMap[node1][node2])
    ensures var rest := EdgeCollections.Remove(leT, g.nodeMap[node1][node2], edge).1;
            DeleteEdgeDirected(leT, g, node1, node2, edge) ==
              (true, if EdgeCollections.Size(rest) == 0 then DropEdges(g, node1, node2) else PutEdges(g, node1, node2, rest))
  {
    assert ValidChildren(leT, g.nodeMap.Keys, g.nodeMap[node1]);
  }

  /** Deleting a label just added on an edge gives back the graph it was added to. */
  lemma DeleteEdgeUndoesAddEdge<E(!new), T(!new)>(leT: (T, T) -> bool, g: Multigraph<E, T>, node1: E, node2: E, edge: T)
    requires TotalOrder(leT)
    requires Valid(leT, g)
    requires HasNode(g, node1) && HasNode(g, node2)
    requires edge !in EdgesOf(g, node1, node2)
    ensures DeleteEdgeDirected(leT, AddEdgeDirected(leT, g, node1, node2, edge).1, node1, node2, edge) == (true, g)
  {
    if node2 in g.nodeMap[node1] {
      var c := g.nodeMap[node1][node2];
      AddEdgeExisting(leT, g, node1, node2, edge);
      var added := EdgeCollections.Add(leT, c, edge).1;
      var g1 := PutEdges(g, node1, node2, added);
      EdgeCollections.RemoveUndoesAdd(leT, c, edge);
      DeleteEdgePresent(leT, g1, node1, node2, edge);
      PutTwice(g, node1, node2, added, c);
      PutSameEdges(g, node1, node2, c);
    } else {
      AddEdgeFresh(leT, g, node1, node2, edge);
      var single := EdgeCollections.Singleton(leT, edge);
      var g1 := PutEdges(g, node1, node2, single);
      DeleteEdgePresent(leT, g1, node1, node2, edge);
      assert EdgeCollections.Size(EdgeCollections.Remove(leT, single, edge).1) == 0;
      DropUndoesPut(g, node1, node2, single);
    }
  }

  /** Adding back a label just deleted from an edge gives back the graph it
      was deleted from, even when the deletion dropped the entry. */
  lemma AddEdgeUndoesDeleteEdge<E(!new), T(!new)>(leT: (T, T) -> bool, g: Multigraph<E, T>, node1: E, node2: E, edge: T)
    requires TotalOrder(leT)
    requires Valid(leT, g)
    requires edge in EdgesOf(g, node1, node2)
    ensures AddEdgeDirected(leT, DeleteEdgeDirected(leT, g, node1, node2, edge).1, node1, node2, edge) == (true, g)
  {
    DeleteEdgePresent(leT, g, node1, node2, edge);
    var c := g.nodeMap[node1][node2];
    var rest := EdgeCollections.Remove(leT, c, edge).1;
    EdgeCollections.AddUndoesRemove(leT, c, edge);
    if EdgeCollections.Size(rest) == 0 {
      var g1 := DropEdges(g, node1, node2);
      assert DeleteEdgeDirected(leT, g, node1, node2, edge).1 == g1;
      AddEdgeFresh(leT, g1, node1, node2, edge);
      assert rest == EdgeCollections.Empty();
      assert EdgeCollections.Singleton(leT, edge) == c;
      PutUndoesDrop(g, node1, node2);
    } else {
      var g1 := PutEdges(g, node1, node2, rest);
      assert DeleteEdgeDirected(leT, g, node1, node2, edge).1 == g1;
      AddEdgeExisting(leT, g1, node1, node2, edge);
      PutTwice(g, node1, node2, rest, c);
      PutSameEdges(g, node1, node2, c);
    }
  }
}
