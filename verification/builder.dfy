/**
 * The tree builder: turns the already parsed input (vertex count, values,
 * colours and the N - 1 undirected edges) into a tree rooted at vertex 1.
 *
 * The program keeps the adjacency map, the value and colour arrays and the
 * map of processed vertices in static fields; here they are the fields of a
 * `Builder` object. Only the keys of `processedNodes` matter (the program
 * only tests a lookup for null), so `processed` is a set of vertex indices.
 */
module TreeBuilder {
  import opened Aggregates
  import opened Trees

  /** One line of the edge list: two 1-based vertex indices. */
  type Edge = (int, int)

  /** `edges.put(a, edges.get(a) + {b})`, a missing entry read as an empty set. */
  function Register(adj: map<int, set<int>>, a: int, b: int): map<int, set<int>>
  {
    adj[a := (if a in adj then adj[a] else {}) + {b}]
  }

  /** The adjacency map after registering the edges of `es` in order, each both ways. */
  function Adjacency(es: seq<Edge>): map<int, set<int>>
  {
    if es == [] then map[]
    else
      var e := es[|es| - 1];
      Register(Register(Adjacency(es[..|es| - 1]), e.0, e.1), e.1, e.0)
  }

  /** `u` and `v` are joined by an edge of `es`, listed in either direction. */
  ghost predicate Linked(es: seq<Edge>, u: int, v: int)
  {
    (u, v) in es || (v, u) in es
  }

  /** `u` is an endpoint of some edge of `es`. */
  ghost predicate Endpoint(es: seq<Edge>, u: int)
  {
    exists e | e in es :: e.0 == u || e.1 == u
  }

  ghost predicate Symmetric(adj: map<int, set<int>>)
  {
    forall u, v | u in adj && v in adj[u] :: v in adj && u in adj[v]
  }

  /**
   * The adjacency map has an entry exactly for the endpoints of the edges,
   * and `v` is a neighbour of `u` exactly when an edge joins them.
   */
  lemma {:induction false} AdjacencyMembership(es: seq<Edge>)
    ensures forall u :: u in Adjacency(es) <==> Endpoint(es, u)
    ensures forall u, v | u in Adjacency(es) :: v in Adjacency(es)[u] <==> Linked(es, u, v)
  {
    if es != [] {
      var init, e := es[..|es| - 1], es[|es| - 1];
      assert es == init + [e];
      AdjacencyMembership(init);
      forall u
        ensures u in Adjacency(es) <==> Endpoint(es, u)
      {
        if Endpoint(init, u) {
          var e' :| e' in init && (e'.0 == u || e'.1 == u);
          assert e' in es;
        }
        if Endpoint(es, u) && u != e.0 && u != e.1 {
          var e' :| e' in es && (e'.0 == u || e'.1 == u);
          assert e' in init;
        }
      }
    }
  }

  /** After the edge loop the map is symmetric. */
  lemma AdjacencySymmetric(es: seq<Edge>)
    ensures Symmetric(Adjacency(es))
  {
    AdjacencyMembership(es);
    forall u, v | u in Adjacency(es) && v in Adjacency(es)[u]
      ensures v in Adjacency(es) && u in Adjacency(es)[v]
    {
      assert Linked(es, v, u);
      assert Endpoint(es, v) by {
        if (u, v) in es { assert (u, v).1 == v; } else { assert (v, u).0 == v; }
      }
    }
  }

  /**
   * The adjacency map depends only on which vertices are joined: neither the
   * order of the edges nor the order of each edge's two endpoints matters.
   */
  lemma AdjacencyOrderFree(es1: seq<Edge>, es2: seq<Edge>)
    requires forall u, v :: Linked(es1, u, v) <==> Linked(es2, u, v)
    ensures Adjacency(es1) == Adjacency(es2)
  {
    AdjacencyMembership(es1);
    AdjacencyMembership(es2);
    forall u
      ensures u in Adjacency(es1) <==> u in Adjacency(es2)
    {
      if Endpoint(es1, u) {
        var e :| e in es1 && (e.0 == u || e.1 == u);
        assert Linked(es1, e.0, e.1);
        assert Linked(es2, e.0, e.1);
      }
      if Endpoint(es2, u) {
        var e :| e in es2 && (e.0 == u || e.1 == u);
        assert Linked(es2, e.0, e.1);
        assert Linked(es1, e.0, e.1);
      }
    }
    forall u | u in Adjacency(es1)
      ensures Adjacency(es1)[u] == Adjacency(es2)[u]
    {
      forall v
        ensures v in Adjacency(es1)[u] <==> v in Adjacency(es2)[u]
      {
      }
    }
  }

  /**
   * The loop of `buildTree` that reads the first `nodesNumber - 1` edges and
   * registers each of them both ways.
   */
  method BuildAdjacency(nodesNumber: int, edgeList: seq<Edge>) returns (adj: map<int, set<int>>)
    requires nodesNumber >= 1 && |edgeList| == nodesNumber - 1
    ensures adj == Adjacency(edgeList)
  {
    adj := map[];
    var i := 1;
    while i <= nodesNumber - 1
      invariant 1 <= i <= nodesNumber
      invariant adj == Adjacency(edgeList[..i - 1])
    {
      var edge := edgeList[i - 1];
      var childrenOfVertex0 := if edge.0 in adj then adj[edge.0] else {};
      childrenOfVertex0 := childrenOfVertex0 + {edge.1};
      adj := adj[edge.0 := childrenOfVertex0];

      var childrenOfVertex1 := if edge.1 in adj then adj[edge.1] else {};
      childrenOfVertex1 := childrenOfVertex1 + {edge.0};
      adj := adj[edge.1 := childrenOfVertex1];

      assert edgeList[..i][..i - 1] == edgeList[..i - 1];
      i := i + 1;
    }
    assert edgeList[..i - 1] == edgeList;
  }

  /** Counts 1 for a node, internal or leaf, that stands for vertex `v`. */
  function VertexAt(v: int): Tree -> int
  {
    (n: Tree) => if n.vertex == v then 1 else 0
  }

  /** How many nodes of `t` stand for vertex `v`. */
  ghost function VertexCount(t: Tree, v: int): int
  {
    Sum(Nodes(t), VertexAt(v))
  }

  /** The nodes of `t` stand for exactly the vertices of `placed`, one node for each. */
  ghost predicate PlacedOnce(t: Tree, placed: set<int>)
  {
    forall v :: VertexCount(t, v) == if v in placed then 1 else 0
  }

  /** A node without children stands for its own vertex only. */
  lemma PlacedChildless(t: Tree)
    requires t.Leaf? || t.children == {}
    ensures PlacedOnce(t, {t.vertex})
  {
    NodesOfChildless(t);
    forall v
      ensures VertexCount(t, v) == if v == t.vertex then 1 else 0
    {
      SumAdd(multiset{}, VertexAt(v), t);
      assert multiset{} + multiset{t} == multiset{t};
    }
  }

  /** Attaching a subtree adds the vertices it stands for. */
  lemma PlacedAddChild(t: Tree, c: Tree, a: set<int>, b: set<int>)
    requires t.Node? && c !in t.children && a !! b
    requires PlacedOnce(t, a) && PlacedOnce(c, b)
    ensures PlacedOnce(t.(children := t.children + {c}), a + b)
  {
    forall v
      ensures VertexCount(t.(children := t.children + {c}), v) == if v in a + b then 1 else 0
    {
      SumAddChild(t, c, VertexAt(v));
    }
  }

  /** Where at most one element counts for `v`, no two elements of `m` stand for `v`. */
  lemma AtMostOneAt(m: multiset<Tree>, v: int, a: Tree, b: Tree)
    requires Sum(m, VertexAt(v)) <= 1
    requires a in m && b in m - multiset{a}
    ensures a.vertex != v || b.vertex != v
  {
    var f := VertexAt(v);
    var rest := m - multiset{a};
    SumPick(m, f, a);
    SumPick(rest, f, b);
    SumNonNegative(rest - multiset{b}, f);
  }

  /**
   * In a tree whose nodes stand for distinct vertices, a vertex identifies
   * its node: no two nodes share a vertex and no node occurs twice.
   */
  lemma OncePerVertex(t: Tree, placed: set<int>)
    requires PlacedOnce(t, placed)
    ensures forall a, b | a in Nodes(t) && b in Nodes(t) && a.vertex == b.vertex :: a == b
    ensures forall a | a in Nodes(t) :: Nodes(t)[a] == 1
  {
    var m := Nodes(t);
    forall a, b | a in m && b in m - multiset{a}
      ensures a.vertex != b.vertex
    {
      assert VertexCount(t, a.vertex) <= 1;
      AtMostOneAt(m, a.vertex, a, b);
    }
    forall a, b | a in m && b in m && a != b
      ensures a.vertex != b.vertex
    {
      assert b in m - multiset{a};
    }
    forall a | a in m
      ensures a !in m - multiset{a}
    {
      if a in m - multiset{a} {
        AtMostOneAt(m, a.vertex, a, a);
      }
    }
  }

  /** A set of one element that holds `p` is `{p}`. */
  lemma Singleton(s: set<int>, p: int)
    requires |s| == 1 && p in s
    ensures s == {p}
  {
    assert |s - {p}| == 0;
  }

  /** The vertices that the children of `t` stand for. */
  function ChildVertices(t: Tree): set<int>
  {
    if t.Leaf? then {} else set c | c in t.children :: c.vertex
  }

  /** The test `addChildren` applies to a neighbour not yet processed: a vertex with no entry or exactly one neighbour becomes a leaf. */
  predicate IsLeafVertex(edges: map<int, set<int>>, v: int)
  {
    v !in edges || |edges[v]| == 1
  }

  /**
   * `c` is a correct child of `p`: it stands for a neighbour of `p`'s
   * vertex, is one level deeper, takes value and colour from its own
   * vertex, and is a leaf exactly when that vertex is a leaf vertex.
   */
  ghost predicate Attached(edges: map<int, set<int>>, values: seq<int>, colors: seq<int>, p: Tree, c: Tree)
  {
    && p.vertex in edges && c.vertex in edges[p.vertex]
    && c.depth == p.depth + 1
    && 1 <= c.vertex <= |values| && |colors| == |values|
    && c.value == values[c.vertex - 1]
    && c.color == colors[c.vertex - 1]
    && (c.Leaf? <==> IsLeafVertex(edges, c.vertex))
  }

  /** Every child anywhere in `t` is a correct child of its parent. */
  ghost predicate WellBuilt(edges: map<int, set<int>>, values: seq<int>, colors: seq<int>, t: Tree)
    decreases t
  {
    t.Node? ==> forall c | c in t.children :: Attached(edges, values, colors, t, c) && WellBuilt(edges, values, colors, c)
  }

  /** Attaching a correct, well built child keeps a tree well built. */
  lemma WellBuiltAddChild(edges: map<int, set<int>>, values: seq<int>, colors: seq<int>, t: Tree, c: Tree)
    requires t.Node? && WellBuilt(edges, values, colors, t)
    requires Attached(edges, values, colors, t, c) && WellBuilt(edges, values, colors, c)
    ensures WellBuilt(edges, values, colors, t.(children := t.children + {c}))
  {
  }

  /** `n` takes its value and colour from the input arrays, at the index of its vertex. */
  ghost predicate FromInput(values: seq<int>, colors: seq<int>, n: Tree)
  {
    && 1 <= n.vertex <= |values| && |colors| == |values|
    && n.value == values[n.vertex - 1] && n.color == colors[n.vertex - 1]
  }

  /**
   * In a well built tree whose root takes its value and colour from the
   * input, so does every node.
   */
  lemma {:induction false} InputNodes(edges: map<int, set<int>>, values: seq<int>, colors: seq<int>, t: Tree)
    requires WellBuilt(edges, values, colors, t) && FromInput(values, colors, t)
    ensures forall n | n in Nodes(t) :: FromInput(values, colors, n)
    decreases t
  {
    forall n | n in Nodes(t)
      ensures FromInput(values, colors, n)
    {
      if n != t {
        assert t.Node? && n in Forest(t.children, t);
        ForestMember(t.children, t, n);
        var c :| c in t.children && n in Nodes(c);
        InputNodes(edges, values, colors, c);
      }
    }
  }

  /**
   * While vertex `p` is expanded, a leaf made below one of its children
   * never has a neighbour that was processed before `p`, so neither does any
   * leaf made during the expansion.
   */
  lemma LeavesStayAway(edges: map<int, set<int>>, p: int, child: int, outer: set<int>,
                       before: set<int>, leavesBefore: set<int>, leaves: set<int>, leaves0: set<int>)
    requires Symmetric(edges) && p in edges && child in edges[p] && p !in outer && outer <= before
    requires forall u | u in leavesBefore - leaves0 :: u in edges && edges[u] !! outer
    requires forall u | u in leaves - leavesBefore :: u == child || (u in edges && edges[u] !! before)
    requires child in leaves - leavesBefore ==> child in edges && |edges[child]| == 1
    ensures forall u | u in leaves - leaves0 :: u in edges && edges[u] !! outer
  {
    if child in leaves - leavesBefore {
      assert p in edges[child];
      Singleton(edges[child], p);
    }
  }

  /**
   * A neighbour of an expanded vertex `p` that is still to be iterated is
   * not made a leaf below another child of `p`: such leaves have no
   * neighbour processed before, and `p` is one.
   */
  lemma NeighboursStayUnmade(edges: map<int, set<int>>, p: int, remaining: set<int>, child: int,
                             before: set<int>, leavesBefore: set<int>, leaves: set<int>)
    requires Symmetric(edges) && p in edges && remaining <= edges[p] && p in before && child !in remaining
    requires forall u | u in remaining :: u !in leavesBefore
    requires forall u | u in leaves - leavesBefore :: u == child || (u in edges && edges[u] !! before)
    ensures forall u | u in remaining :: u !in leaves
  {
    forall u | u in remaining
      ensures u !in leaves
    {
      assert u in edges && p in edges[u];
    }
  }

  /** Every vertex of `from` that has an entry has all its neighbours in `within`. */
  ghost predicate NeighboursIn(edges: map<int, set<int>>, from: set<int>, within: set<int>)
  {
    forall u | u in from && u in edges :: edges[u] <= within
  }

  /** Two sets of vertices whose neighbours lie in growing sets. */
  lemma NeighboursGrow(edges: map<int, set<int>>, a: set<int>, b: set<int>, s0: set<int>, s1: set<int>)
    requires NeighboursIn(edges, a, s0) && NeighboursIn(edges, b, s1) && s0 <= s1
    ensures NeighboursIn(edges, a + b, s1)
  {
  }

  /** The vertices placed before a child and those placed with it are all placed since `outer`. */
  lemma PlacedRegroup(outer: set<int>, before: set<int>, processed: set<int>,
                      leaves0: set<int>, leavesBefore: set<int>, leaves: set<int>)
    requires outer <= before <= processed && leaves0 <= leavesBefore <= leaves
    ensures ((before - outer) + (leavesBefore - leaves0)) + (processed - before) + (leaves - leavesBefore)
         == (processed - outer) + (leaves - leaves0)
  {
  }

  /**
   * The vertices expanded around one neighbour, joined to those expanded
   * before it, keep their neighbours among the vertices made so far.
   */
  lemma NeighboursAfterChild(edges: map<int, set<int>>, nodeIndex: int, outer: set<int>,
                             before: set<int>, leavesBefore: set<int>, processed: set<int>, leaves: set<int>)
    requires NeighboursIn(edges, before - outer - {nodeIndex}, before + leavesBefore)
    requires NeighboursIn(edges, processed - before, processed + leaves)
    requires before <= processed && leavesBefore <= leaves
    ensures NeighboursIn(edges, processed - outer - {nodeIndex}, processed + leaves)
  {
    NeighboursGrow(edges, before - outer - {nodeIndex}, processed - before, before + leavesBefore, processed + leaves);
    assert (before - outer - {nodeIndex}) + (processed - before) >= processed - outer - {nodeIndex};
  }

  /** `p` is a walk in the graph: each vertex after the first is a neighbour of the one before. */
  ghost predicate Walk(edges: map<int, set<int>>, p: seq<int>)
  {
    |p| >= 1 && forall i | 0 <= i < |p| - 1 :: p[i] in edges && p[i + 1] in edges[p[i]]
  }

  /** Some walk leads from vertex 1, the root, to `v`. */
  ghost predicate Reachable(edges: map<int, set<int>>, v: int)
  {
    exists p :: Walk(edges, p) && p[0] == 1 && p[|p| - 1] == v
  }

  /** A walk that starts in a set closed under neighbours stays in it. */
  lemma {:induction false} WalkStaysIn(edges: map<int, set<int>>, s: set<int>, p: seq<int>)
    requires Walk(edges, p) && p[0] in s && NeighboursIn(edges, s, s)
    ensures p[|p| - 1] in s
    decreases |p|
  {
    if |p| > 1 {
      var q := p[..|p| - 1];
      assert Walk(edges, q);
      WalkStaysIn(edges, s, q);
      assert p[|p| - 2] == q[|q| - 1] && p[|p| - 2] in edges && p[|p| - 1] in edges[p[|p| - 2]];
      assert edges[p[|p| - 2]] <= s;
    }
  }

  /** A neighbour of a reachable vertex is reachable. */
  lemma ReachStep(edges: map<int, set<int>>, u: int, v: int)
    requires Reachable(edges, u) && u in edges && v in edges[u]
    ensures Reachable(edges, v)
  {
    var p :| Walk(edges, p) && p[0] == 1 && p[|p| - 1] == u;
    var q := p + [v];
    assert Walk(edges, q) by {
      forall i | 0 <= i < |q| - 1
        ensures q[i] in edges && q[i + 1] in edges[q[i]]
      {
        if i < |p| - 1 {
          assert q[i] == p[i] && q[i + 1] == p[i + 1];
        }
      }
    }
  }

  /** In a well built tree under a reachable root, every node stands for a reachable vertex. */
  lemma {:induction false} TreeReachable(edges: map<int, set<int>>, values: seq<int>, colors: seq<int>, t: Tree)
    requires WellBuilt(edges, values, colors, t) && Reachable(edges, t.vertex)
    ensures forall n | n in Nodes(t) :: Reachable(edges, n.vertex)
    decreases t
  {
    forall n | n in Nodes(t)
      ensures Reachable(edges, n.vertex)
    {
      if n != t {
        assert t.Node? && n in Forest(t.children, t);
        ForestMember(t.children, t, n);
        var c :| c in t.children && n in Nodes(c);
        ReachStep(edges, t.vertex, c.vertex);
        TreeReachable(edges, values, colors, c);
      }
    }
  }

  /**
   * A well built tree rooted at vertex 1 whose nodes stand once each for a
   * set of vertices closed under neighbours holds exactly one node for each
   * vertex reachable from vertex 1, and none for any other vertex.
   */
  lemma ReachableOnce(edges: map<int, set<int>>, values: seq<int>, colors: seq<int>, root: Tree, s: set<int>)
    requires WellBuilt(edges, values, colors, root) && root.vertex == 1
    requires PlacedOnce(root, s) && 1 in s && NeighboursIn(edges, s, s)
    ensures forall v :: VertexCount(root, v) == if Reachable(edges, v) then 1 else 0
  {
    assert Walk(edges, [1]);
    TreeReachable(edges, values, colors, root);
    forall v
      ensures v in s <==> Reachable(edges, v)
    {
      if v in s {
        assert VertexCount(root, v) == 1;
        SumNonZero(Nodes(root), VertexAt(v));
        var n :| n in Nodes(root) && VertexAt(v)(n) != 0;
        assert n.vertex == v;
      }
      if Reachable(edges, v) {
        var p :| Walk(edges, p) && p[0] == 1 && p[|p| - 1] == v;
        WalkStaysIn(edges, s, p);
      }
    }
  }

  /**
   * The next element of a set being iterated: a `HashSet` yields its
   * elements in an order the program does not control, so any may come next.
   */
  method NextNeighbour(remaining: set<int>) returns (x: int)
    requires remaining != {}
    ensures x in remaining
  {
    if forall y :: y !in remaining {
      assert false;
    }
    x :| x in remaining;
  }

  class Builder {
    var edges: map<int, set<int>>
    var arrayOfValues: seq<int>
    var arrayOfColors: seq<int>
    var processed: set<int>
    /** The leaf vertices made into tree leaves so far; the program does not record them. */
    ghost var leaves: set<int>

    constructor ()
      ensures edges == map[] && arrayOfValues == [] && arrayOfColors == []
      ensures processed == {} && leaves == {}
    {
      edges := map[];
      arrayOfValues := [];
      arrayOfColors := [];
      processed := {};
      leaves := {};
    }

    /**
     * The input arrays agree in length, the adjacency map is symmetric and
     * every vertex it names has a value and a colour.
     */
    ghost predicate Valid()
      reads this`edges, this`arrayOfValues, this`arrayOfColors
    {
      && |arrayOfValues| == |arrayOfColors|
      && Symmetric(edges)
      && forall u | u in edges :: 1 <= u <= |arrayOfValues|
    }

    /**
     * A leaf made so far is never processed, and its vertex has exactly one
     * neighbour, which is processed: a leaf is only made while that
     * neighbour is expanded.
     */
    ghost predicate LeavesMade()
      reads this`edges, this`processed, this`leaves
    {
      forall u | u in leaves :: u !in processed && u in edges && |edges[u]| == 1 && edges[u] <= processed
    }

    /**
     * `addChildren`: expands `node`, which stands for vertex `nodeIndex`,
     * unless that vertex was processed before. Each neighbour not yet
     * processed becomes a child, a leaf or an internal node that is expanded
     * in turn. The subtree that results holds one node for `nodeIndex` and
     * one for each vertex processed or made a leaf meanwhile, and no other.
     */
    method AddChildren(node: Tree, nodeIndex: int) returns (grown: Tree)
      requires Valid() && LeavesMade()
      requires node.Node? && node.vertex == nodeIndex && node.children == {}
      requires nodeIndex !in leaves
      modifies this`processed, this`leaves
      decreases edges.Keys - processed, 0
      ensures LeavesMade() && old(processed) <= processed && old(leaves) <= leaves
      ensures nodeIndex in processed
      ensures nodeIndex in old(processed) ==> grown == node && processed == old(processed) && leaves == old(leaves)
      ensures grown.Node? && grown == node.(children := grown.children)
      ensures WellBuilt(edges, arrayOfValues, arrayOfColors, grown)
      ensures forall c | c in grown.children :: c.vertex !in old(processed) + {nodeIndex}
      ensures nodeIndex !in old(processed) ==>
        PlacedOnce(grown, (processed - old(processed)) + (leaves - old(leaves)))
      ensures forall u | u in leaves - old(leaves) :: u in edges && edges[u] !! old(processed)
      ensures nodeIndex !in old(processed) && nodeIndex in edges ==>
        forall v | v in edges[nodeIndex] :: v in processed || v in ChildVertices(grown)
      ensures NeighboursIn(edges, processed - old(processed), processed + leaves)
    {
      PlacedChildless(node);
      if nodeIndex in processed {
        grown := node;
        return;
      }
      forall u | u in edges && nodeIndex in edges && u in edges[nodeIndex]
        ensures u !in leaves
      {
        assert nodeIndex in edges[u];
      }
      processed := processed + {nodeIndex};
      if nodeIndex in edges && edges[nodeIndex] != {} {
        grown := AddNeighbours(node, nodeIndex, old(processed));
      } else {
        grown := node;
        assert processed - old(processed) == {nodeIndex};
      }
    }

    /**
     * The loop of `addChildren` over the neighbours of `nodeIndex`, once that
     * vertex is marked processed. The neighbours are taken in no particular
     * order; those already processed are skipped.
     */
    method AddNeighbours(node: Tree, nodeIndex: int, ghost outer: set<int>) returns (grown: Tree)
      requires Valid() && LeavesMade()
      requires node.Node? && node.vertex == nodeIndex && node.children == {}
      requires nodeIndex in edges && processed == outer + {nodeIndex} && nodeIndex !in outer
      requires forall u | u in edges[nodeIndex] :: u !in leaves
      modifies this`processed, this`leaves
      decreases edges.Keys - processed, 2
      ensures LeavesMade() && old(processed) <= processed && old(leaves) <= leaves
      ensures grown.Node? && grown == node.(children := grown.children)
      ensures WellBuilt(edges, arrayOfValues, arrayOfColors, grown)
      ensures forall c | c in grown.children :: c.vertex !in old(processed)
      ensures PlacedOnce(grown, (processed - outer) + (leaves - old(leaves)))
      ensures forall u | u in leaves - old(leaves) :: u in edges && edges[u] !! outer
      ensures forall v | v in edges[nodeIndex] :: v in processed || v in ChildVertices(grown)
      ensures NeighboursIn(edges, processed - outer, processed + leaves)
    {
      PlacedChildless(node);
      assert (processed - outer) + (leaves - old(leaves)) == {nodeIndex};
      grown := node;
      var childrenIndexes := edges[nodeIndex];
      var remaining := childrenIndexes;
      while remaining != {}
        invariant remaining <= childrenIndexes
        invariant LeavesMade() && old(processed) <= processed && old(leaves) <= leaves
        invariant forall u | u in remaining :: u !in leaves
        invariant grown.Node? && grown == node.(children := grown.children)
        invariant WellBuilt(edges, arrayOfValues, arrayOfColors, grown)
        invariant forall c | c in grown.children ::
          c.vertex in childrenIndexes - remaining && c.vertex !in old(processed)
        invariant PlacedOnce(grown, (processed - outer) + (leaves - old(leaves)))
        invariant forall u | u in leaves - old(leaves) :: u in edges && edges[u] !! outer
        invariant forall v | v in childrenIndexes - remaining :: v in processed || v in ChildVertices(grown)
        invariant childrenIndexes - remaining <= processed + leaves
        invariant NeighboursIn(edges, processed - outer - {nodeIndex}, processed + leaves)
        decreases remaining
      {
        var childIndex := NextNeighbour(remaining);
        remaining := remaining - {childIndex};
        if childIndex !in processed {
          ghost var before, leavesBefore := processed, leaves;
          ghost var placed := (before - outer) + (leavesBefore - old(leaves));
          var childNode;
          childNode, grown := AttachChild(grown, childIndex, placed);
          PlacedRegroup(outer, before, processed, old(leaves), leavesBefore, leaves);
          LeavesStayAway(edges, nodeIndex, childIndex, outer, before, leavesBefore, leaves, old(leaves));
          NeighboursStayUnmade(edges, nodeIndex, remaining, childIndex, before, leavesBefore, leaves);
          NeighboursAfterChild(edges, nodeIndex, outer, before, leavesBefore, processed, leaves);
        }
      }
      NeighboursGrow(edges, processed - outer - {nodeIndex}, {nodeIndex}, processed + leaves, processed + leaves);
      assert (processed - outer - {nodeIndex}) + {nodeIndex} == processed - outer;
    }

    /**
     * The body of the loop of `addChildren` for a neighbour not yet
     * processed: the child is a leaf when its vertex is a leaf vertex,
     * otherwise an internal node that is expanded at once; either way it is
     * added to the children of `parent`, whose nodes stand for `placed`.
     */
    method AttachChild(parent: Tree, childIndex: int, ghost placed: set<int>) returns (childNode: Tree, grown: Tree)
      requires Valid() && LeavesMade()
      requires parent.Node? && parent.vertex in edges && parent.vertex in processed
      requires childIndex in edges[parent.vertex]
      requires childIndex !in processed && childIndex !in leaves
      requires forall c | c in parent.children :: c.vertex != childIndex
      requires WellBuilt(edges, arrayOfValues, arrayOfColors, parent)
      requires PlacedOnce(parent, placed) && placed <= processed + leaves
      modifies this`processed, this`leaves
      decreases edges.Keys - processed, 1
      ensures LeavesMade() && old(processed) <= processed && old(leaves) <= leaves
      ensures childNode.vertex == childIndex && childNode !in parent.children
      ensures grown == parent.(children := parent.children + {childNode})
      ensures Attached(edges, arrayOfValues, arrayOfColors, parent, childNode)
      ensures WellBuilt(edges, arrayOfValues, arrayOfColors, grown)
      ensures PlacedOnce(grown, placed + (processed - old(processed)) + (leaves - old(leaves)))
      ensures forall u | u in leaves - old(leaves) :: u == childIndex || (u in edges && edges[u] !! old(processed))
      ensures IsLeafVertex(edges, childIndex) ==> childIndex in leaves
      ensures !IsLeafVertex(edges, childIndex) ==> childIndex in processed
      ensures NeighboursIn(edges, processed - old(processed), processed + leaves)
    {
      assert childIndex in edges && 1 <= childIndex <= |arrayOfValues|;
      if childIndex !in edges || |edges[childIndex]| == 1 {
        childNode := Leaf(childIndex, arrayOfValues[childIndex - 1], arrayOfColors[childIndex - 1], parent.depth + 1);
        assert parent.vertex in edges[childIndex];
        Singleton(edges[childIndex], parent.vertex);
        leaves := leaves + {childIndex};
        PlacedChildless(childNode);
        assert (processed - old(processed)) + (leaves - old(leaves)) == {childIndex};
      } else {
        childNode := Node(childIndex, arrayOfValues[childIndex - 1], arrayOfColors[childIndex - 1], parent.depth + 1, {});
        childNode := AddChildren(childNode, childIndex);
      }
      WellBuiltAddChild(edges, arrayOfValues, arrayOfColors, parent, childNode);
      forall u | u in (processed - old(processed)) + (leaves - old(leaves))
        ensures u !in old(processed) + old(leaves)
      {
        if u in leaves {
          assert u !in processed;
        }
      }
      PlacedAddChild(parent, childNode, placed, (processed - old(processed)) + (leaves - old(leaves)));
      grown := parent.(children := parent.children + {childNode});
    }

    /**
     * `buildTree` without the reading of the input: a single vertex becomes
     * a leaf; otherwise the adjacency map is built and vertex 1 becomes the
     * root, always an internal node, which is then expanded.
     */
    method BuildTree(nodesNumber: int, values: seq<int>, colors: seq<int>, edgeList: seq<Edge>)
      returns (root: Tree)
      requires nodesNumber >= 1 && |values| == nodesNumber && |colors| == nodesNumber
      requires |edgeList| == nodesNumber - 1
      requires forall e | e in edgeList :: 1 <= e.0 <= nodesNumber && 1 <= e.1 <= nodesNumber
      requires processed == {} && leaves == {}
      modifies this
      ensures arrayOfValues == values && arrayOfColors == colors
      ensures nodesNumber == 1 ==> root == Leaf(1, values[0], colors[0], 0)
      ensures nodesNumber > 1 ==> root.Node? && root.vertex == 1 && root.depth == 0
      ensures nodesNumber > 1 ==> root.value == values[0] && root.color == colors[0]
      ensures nodesNumber > 1 ==> edges == Adjacency(edgeList) && Valid() && WellBuilt(edges, arrayOfValues, arrayOfColors, root)
      ensures nodesNumber > 1 ==> PlacedOnce(root, processed + leaves)
      ensures nodesNumber > 1 && 1 in edges ==> forall v | v in edges[1] :: v in processed || v in ChildVertices(root)
      ensures nodesNumber > 1 ==> 1 in processed && NeighboursIn(edges, processed + leaves, processed + leaves)
    {
      arrayOfValues := values;
      arrayOfColors := colors;
      if nodesNumber == 1 {
        return Leaf(1, values[0], colors[0], 0);
      }
      edges := BuildAdjacency(nodesNumber, edgeList);
      AdjacencySymmetric(edgeList);
      AdjacencyMembership(edgeList);
      forall u | u in edges
        ensures 1 <= u <= |arrayOfValues|
      {
        var e :| e in edgeList && (e.0 == u || e.1 == u);
      }
      root := Node(1, values[0], colors[0], 0, {});
      root := AddChildren(root, 1);
      assert (processed - {}) + (leaves - {}) == processed + leaves;
      assert NeighboursIn(edges, leaves, processed + leaves);
      NeighboursGrow(edges, processed - {}, leaves, processed + leaves, processed + leaves);
      assert (processed - {}) + leaves == processed + leaves;
    }
  }
}
