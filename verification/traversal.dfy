/**
 * The traversal that drives the three visitors over a built tree.
 *
 * The program keeps a set `visited` of trees that `acceptVisitors` consults
 * before dispatching a node and before descending into a child, but nothing
 * ever adds to it. The traversal is modelled for any contents of `visited`;
 * `NothingVisited` then shows that with the set empty, as it always is, the
 * guard skips nothing and every node of the tree reaches every visitor.
 */
module Traversal {
  import opened Trees
  import opened Visitors

  /** The nodes that `acceptVisitors(t, …)` dispatches while `visited` holds `visited`. */
  ghost function Dispatched(t: Tree, visited: set<Tree>): (m: multiset<Tree>)
    ensures t !in visited ==> t in m
    decreases t, 1
  {
    (if t in visited then multiset{} else multiset{t})
    + match t
      case Leaf(_, _, _, _) => multiset{}
      case Node(_, _, _, _, children) => DispatchedForest(children, visited, t)
  }

  /** What descending into child `c` dispatches: nothing when `c` was visited. */
  ghost function DispatchedChild(c: Tree, visited: set<Tree>, bound: Tree): multiset<Tree>
    requires c < bound
    decreases bound, 0, {c}, 1
  {
    if c in visited then multiset{} else Dispatched(c, visited)
  }

  /** What descending into the children `s` dispatches, `bound` as in `Forest`. */
  ghost function DispatchedForest(s: set<Tree>, visited: set<Tree>, bound: Tree): multiset<Tree>
    requires Below(s, bound)
    decreases bound, 0, s, 2
  {
    if s == {} then multiset{}
    else var c :| c in s; DispatchedChild(c, visited, bound) + DispatchedForest(s - {c}, visited, bound)
  }

  /** The children may be descended into in any order. */
  lemma {:induction false} DispatchedForestPick(s: set<Tree>, visited: set<Tree>, bound: Tree, c: Tree)
    requires Below(s, bound) && c in s
    ensures DispatchedForest(s, visited, bound)
         == DispatchedChild(c, visited, bound) + DispatchedForest(s - {c}, visited, bound)
    decreases s
  {
    var d :| d in s && DispatchedForest(s, visited, bound)
                    == DispatchedChild(d, visited, bound) + DispatchedForest(s - {d}, visited, bound);
    if d != c {
      assert s - {d} - {c} == s - {c} - {d};
      DispatchedForestPick(s - {d}, visited, bound, c);
      DispatchedForestPick(s - {c}, visited, bound, d);
    }
  }

  /** With nothing visited, the traversal dispatches every node of the tree, once per occurrence. */
  lemma {:induction false} NothingVisited(t: Tree)
    ensures Dispatched(t, {}) == Nodes(t)
    decreases t, 1
  {
    if t.Node? {
      NothingVisitedForest(t.children, t);
    }
  }

  lemma {:induction false} NothingVisitedForest(s: set<Tree>, bound: Tree)
    requires Below(s, bound)
    ensures DispatchedForest(s, {}, bound) == Forest(s, bound)
    decreases bound, 0, s
  {
    if s != {} {
      var c :| c in s;
      DispatchedForestPick(s, {}, bound, c);
      ForestPick(s, bound, c);
      NothingVisited(c);
      NothingVisitedForest(s - {c}, bound);
    }
  }

  /** Descending into one more child adds what that child dispatches. */
  lemma DispatchedStep(t: Tree, visited: set<Tree>, remaining: set<Tree>, c: Tree)
    requires t.Node? && remaining <= t.children && c in remaining
    ensures DispatchedForest(t.children - (remaining - {c}), visited, t)
         == DispatchedForest(t.children - remaining, visited, t) + DispatchedChild(c, visited, t)
  {
    var done := t.children - remaining;
    assert t.children - (remaining - {c}) == done + {c};
    DispatchedForestPick(done + {c}, visited, t, c);
    assert done + {c} - {c} == done;
  }

  lemma Regroup(s0: multiset<Tree>, s1: multiset<Tree>, s2: multiset<Tree>, a: multiset<Tree>, b: multiset<Tree>)
    requires s1 == s0 + a && s2 == s1 + b
    ensures s2 == s0 + (a + b)
  {
  }

  /** The program's static state that the traversal reads. */
  class Traversal {
    const visited: set<Tree>

    constructor ()
      ensures visited == {}
    {
      visited := {};
    }

    /**
     * `acceptVisitors`: unless `tree` was visited, it is handed to the
     * three visitors, leaf sum first, then red product, then fancy; then
     * the children of an internal node are traversed.
     */
    method AcceptVisitors(tree: Tree, sumInLeaves: SumInLeavesVisitor,
                          product: ProductRedNodesVisitor, fancy: FancyVisitor)
      requires sumInLeaves.Valid() && product.Valid() && fancy.Valid()
      modifies sumInLeaves, product, fancy
      decreases tree, 1
      ensures sumInLeaves.Valid() && product.Valid() && fancy.Valid()
      ensures sumInLeaves.seen == old(sumInLeaves.seen) + Dispatched(tree, visited)
      ensures product.seen == old(product.seen) + Dispatched(tree, visited)
      ensures fancy.seen == old(fancy.seen) + Dispatched(tree, visited)
    {
      ghost var head := if tree in visited then multiset{} else multiset{tree};
      if tree !in visited {
        sumInLeaves.Accept(tree);
        product.Accept(tree);
        fancy.Accept(tree);
      }
      if tree.Node? {
        ghost var s0, p0, f0 := sumInLeaves.seen, product.seen, fancy.seen;
        AcceptChildren(tree, sumInLeaves, product, fancy);
        ghost var below := DispatchedForest(tree.children, visited, tree);
        Regroup(old(sumInLeaves.seen), s0, sumInLeaves.seen, head, below);
        Regroup(old(product.seen), p0, product.seen, head, below);
        Regroup(old(fancy.seen), f0, fancy.seen, head, below);
      } else {
        assert head + multiset{} == head;
      }
    }

    /**
     * The loop of `acceptVisitors` over the children of an internal node:
     * each child not visited is traversed in turn, in no particular order.
     */
    method AcceptChildren(tree: Tree, sumInLeaves: SumInLeavesVisitor,
                          product: ProductRedNodesVisitor, fancy: FancyVisitor)
      requires tree.Node?
      requires sumInLeaves.Valid() && product.Valid() && fancy.Valid()
      modifies sumInLeaves, product, fancy
      decreases tree, 0
      ensures sumInLeaves.Valid() && product.Valid() && fancy.Valid()
      ensures sumInLeaves.seen == old(sumInLeaves.seen) + DispatchedForest(tree.children, visited, tree)
      ensures product.seen == old(product.seen) + DispatchedForest(tree.children, visited, tree)
      ensures fancy.seen == old(fancy.seen) + DispatchedForest(tree.children, visited, tree)
    {
      var remaining := tree.children;
      while remaining != {}
        invariant remaining <= tree.children
        invariant sumInLeaves.Valid() && product.Valid() && fancy.Valid()
        invariant sumInLeaves.seen == old(sumInLeaves.seen) + DispatchedForest(tree.children - remaining, visited, tree)
        invariant product.seen == old(product.seen) + DispatchedForest(tree.children - remaining, visited, tree)
        invariant fancy.seen == old(fancy.seen) + DispatchedForest(tree.children - remaining, visited, tree)
        decreases remaining
      {
        var child :| child in remaining;
        ghost var done := DispatchedForest(tree.children - remaining, visited, tree);
        ghost var step := DispatchedChild(child, visited, tree);
        ghost var s0, p0, f0 := sumInLeaves.seen, product.seen, fancy.seen;
        if child !in visited {
          AcceptVisitors(child, sumInLeaves, product, fancy);
        }
        DispatchedStep(tree, visited, remaining, child);
        Regroup(old(sumInLeaves.seen), s0, sumInLeaves.seen, done, step);
        Regroup(old(product.seen), p0, product.seen, done, step);
        Regroup(old(fancy.seen), f0, fancy.seen, done, step);
        remaining := remaining - {child};
      }
      assert tree.children - remaining == tree.children;
    }
  }
}
