/**
 * The tree node model: an internal node (`TreeNode`) owns an unordered set of
 * children, a leaf (`TreeLeaf`) owns none. Both carry a value, a colour
 * (0 = red, 1 = green) and a depth fixed at construction.
 *
 * `vertex` is the 1-based index of the input vertex a node was built from.
 * The program's nodes are told apart by object identity inside a hash set;
 * here the vertex index plays that part.
 */
module Trees {
  import opened Aggregates

  datatype Tree =
    | Node(vertex: int, value: int, color: int, depth: int, children: set<Tree>)
    | Leaf(vertex: int, value: int, color: int, depth: int)

  /** Every tree of `s` is a proper part of `bound`. */
  ghost predicate Below(s: set<Tree>, bound: Tree)
  {
    forall c | c in s :: c < bound
  }

  /**
   * All nodes of `t`, each counted once per place it occupies in the tree.
   * This is the multiset of nodes that a full traversal dispatches to a
   * visitor, whatever order it takes.
   */
  ghost function Nodes(t: Tree): (m: multiset<Tree>)
    ensures t in m
    decreases t, 1
  {
    match t
    case Leaf(_, _, _, _) => multiset{t}
    case Node(_, _, _, _, children) => multiset{t} + Forest(children, t)
  }

  /**
   * All nodes of the trees in `s`. The tree `bound` is only there to make the
   * recursion through the set well founded: every tree of `s` is part of it.
   */
  ghost function Forest(s: set<Tree>, bound: Tree): multiset<Tree>
    requires Below(s, bound)
    decreases bound, 0, s
  {
    if s == {} then multiset{} else var c :| c in s; Nodes(c) + Forest(s - {c}, bound)
  }

  /** Any subtree may be taken first: the nodes of a forest do not depend on an order. */
  lemma {:induction false} ForestPick(s: set<Tree>, bound: Tree, c: Tree)
    requires Below(s, bound) && c in s
    ensures Forest(s, bound) == Nodes(c) + Forest(s - {c}, bound)
    decreases s
  {
    var d :| d in s && Forest(s, bound) == Nodes(d) + Forest(s - {d}, bound);
    if d != c {
      ForestPick(s - {d}, bound, c);
      ForestPick(s - {c}, bound, d);
      assert s - {d} - {c} == s - {c} - {d};
    }
  }

  /** The bound is irrelevant to the nodes of a forest. */
  lemma {:induction false} ForestBound(s: set<Tree>, b1: Tree, b2: Tree)
    requires Below(s, b1) && Below(s, b2)
    ensures Forest(s, b1) == Forest(s, b2)
    decreases s
  {
    if s != {} {
      var c :| c in s;
      ForestPick(s, b1, c);
      ForestPick(s, b2, c);
      ForestBound(s - {c}, b1, b2);
    }
  }

  /** Adding a new child `c` to a node adds exactly the nodes of `c`. */
  lemma AddChildNodes(t: Tree, c: Tree)
    requires t.Node? && c !in t.children
    ensures Nodes(t.(children := t.children + {c})) - multiset{t.(children := t.children + {c})}
         == Nodes(t) - multiset{t} + Nodes(c)
  {
    var t' := t.(children := t.children + {c});
    ForestPick(t'.children, t', c);
    assert t'.children - {c} == t.children;
    ForestBound(t.children, t', t);
  }

  /** Adding a new child to a node adds the child's share to any sum over its nodes. */
  lemma SumAddChild(t: Tree, c: Tree, f: Tree -> int)
    requires t.Node? && c !in t.children
    requires f(t.(children := t.children + {c})) == f(t)
    ensures Sum(Nodes(t.(children := t.children + {c})), f) == Sum(Nodes(t), f) + Sum(Nodes(c), f)
  {
    var t' := t.(children := t.children + {c});
    AddChildNodes(t, c);
    SumPick(Nodes(t'), f, t');
    SumPick(Nodes(t), f, t);
    SumUnion(Nodes(t) - multiset{t}, Nodes(c), f);
  }

  /** Every node of a forest is a node of one of its trees. */
  lemma {:induction false} ForestMember(s: set<Tree>, bound: Tree, n: Tree)
    requires Below(s, bound) && n in Forest(s, bound)
    ensures exists c :: c in s && n in Nodes(c)
    decreases s
  {
    var c :| c in s && Forest(s, bound) == Nodes(c) + Forest(s - {c}, bound);
    if n !in Nodes(c) {
      ForestMember(s - {c}, bound, n);
    }
  }

  /** A node with no children is its only node. */
  lemma NodesOfChildless(t: Tree)
    requires t.Leaf? || t.children == {}
    ensures Nodes(t) == multiset{t}
  {
  }
}
