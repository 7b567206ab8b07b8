/**
 * The visitor protocol (`TreeVis`) and its three aggregators.
 *
 * Each visitor is a small state machine over private accumulators. Besides
 * its accumulators, each visitor here keeps a ghost multiset `seen` of the
 * nodes dispatched to it so far; `Valid()` ties the accumulators to a fold
 * over `seen`. Because the folds of module Aggregates do not depend on the
 * order of their elements, neither does any visitor's result.
 *
 * Without traits, the double dispatch `tree.accept(visitor)` is written as an
 * `Accept` method in each visitor class: a `Node` goes to `VisitNode`, a
 * `Leaf` to `VisitLeaf`.
 */
module Visitors {
  import opened Aggregates
  import opened Trees
  import opened JavaInts

  /** What a leaf adds to the leaf sum; internal nodes add nothing. */
  function LeafValue(t: Tree): int
  {
    if t.Leaf? then t.value else 0
  }

  /** What a node multiplies into the red product: its value when red, else 1. */
  function RedFactor(t: Tree): int
  {
    if t.color == 0 then t.value else 1
  }

  /**
   * What an internal node at even depth adds to the first sum of the fancy
   * visitor. Java's `%` and Dafny's agree on whether `depth % 2 == 0`, also
   * for a negative depth.
   */
  function EvenNodeValue(t: Tree): int
  {
    if t.Node? && t.depth % 2 == 0 then t.value else 0
  }

  /** What a green leaf adds to the second sum of the fancy visitor. */
  function GreenLeafValue(t: Tree): int
  {
    if t.Leaf? && t.color == 1 then t.value else 0
  }

  /** `SumInLeavesVisitor`: adds up the values of the leaves. */
  class SumInLeavesVisitor {
    var result: int
    ghost var seen: multiset<Tree>

    ghost predicate Valid()
      reads this
    {
      result == Sum(seen, LeafValue)
    }

    constructor ()
      ensures Valid() && seen == multiset{} && result == 0
    {
      result := 0;
      seen := multiset{};
    }

    method VisitNode(node: Tree)
      requires node.Node? && Valid()
      modifies this
      ensures Valid() && seen == old(seen) + multiset{node}
      ensures result == old(result)
    {
      SumAdd(seen, LeafValue, node);
      seen := seen + multiset{node};
    }

    method VisitLeaf(leaf: Tree)
      requires leaf.Leaf? && Valid()
      modifies this
      ensures Valid() && seen == old(seen) + multiset{leaf}
      ensures result == old(result) + leaf.value
    {
      SumAdd(seen, LeafValue, leaf);
      result := result + leaf.value;
      seen := seen + multiset{leaf};
    }

    /** `t.accept(this)`: an internal node goes to `VisitNode`, a leaf to `VisitLeaf`. */
    method Accept(t: Tree)
      requires Valid()
      modifies this
      ensures Valid() && seen == old(seen) + multiset{t}
      ensures result == old(result) + LeafValue(t)
    {
      match t
      case Node(_, _, _, _, _) => VisitNode(t);
      case Leaf(_, _, _, _) => VisitLeaf(t);
    }

    function GetResult(): (r: int)
      reads this
      requires Valid()
      ensures r == Sum(seen, LeafValue)
    {
      result
    }
  }

  /**
   * `ProductRedNodesVisitor`: multiplies the values of the red nodes and
   * leaves, reducing with Java's `%` after each multiplication. The
   * accumulator is a Java `long` starting at 1.
   */
  class ProductRedNodesVisitor {
    var result: int
    ghost var seen: multiset<Tree>

    ghost predicate Valid()
      reads this
    {
      result == JavaRem(Product(seen, RedFactor), Modulo)
    }

    constructor ()
      ensures Valid() && seen == multiset{} && result == 1
    {
      result := 1;
      seen := multiset{};
    }

    /** One step of the accumulator: multiply in `t`'s value if `t` is red. */
    method Multiply(t: Tree)
      requires Valid()
      modifies this
      ensures Valid() && seen == old(seen) + multiset{t}
      ensures result == if t.color == 0 then JavaRem(old(result) * t.value, Modulo) else old(result)
      ensures -0x8000_0000 <= t.value < 0x8000_0000 ==>
        -0x8000_0000_0000_0000 <= old(result) * t.value < 0x8000_0000_0000_0000
    {
      if -0x8000_0000 <= t.value < 0x8000_0000 {
        ProductFitsInLong(result, t.value);
      }
      ghost var p := Product(seen, RedFactor);
      ProductAdd(seen, RedFactor, t);
      if t.color == 0 {
        JavaRemMul(p, t.value, Modulo);
        MulComm(p, t.value);
        result := JavaRem(result * t.value, Modulo);
      }
      seen := seen + multiset{t};
    }

    method VisitNode(node: Tree)
      requires node.Node? && Valid()
      modifies this
      ensures Valid() && seen == old(seen) + multiset{node}
      ensures result == if node.color == 0 then JavaRem(old(result) * node.value, Modulo) else old(result)
    {
      Multiply(node);
    }

    method VisitLeaf(leaf: Tree)
      requires leaf.Leaf? && Valid()
      modifies this
      ensures Valid() && seen == old(seen) + multiset{leaf}
      ensures result == if leaf.color == 0 then JavaRem(old(result) * leaf.value, Modulo) else old(result)
    {
      Multiply(leaf);
    }

    /** `t.accept(this)`: an internal node goes to `VisitNode`, a leaf to `VisitLeaf`. */
    method Accept(t: Tree)
      requires Valid()
      modifies this
      ensures Valid() && seen == old(seen) + multiset{t}
      ensures result == if t.color == 0 then JavaRem(old(result) * t.value, Modulo) else old(result)
    {
      match t
      case Node(_, _, _, _, _) => VisitNode(t);
      case Leaf(_, _, _, _) => VisitLeaf(t);
    }

    /** `(int) result`: the cast changes nothing, since the accumulator is below the modulus. */
    function GetResult(): (r: int)
      reads this
      requires Valid()
      ensures r == JavaRem(Product(seen, RedFactor), Modulo)
      ensures -Modulo < r < Modulo
    {
      ToInt32(result)
    }
  }

  /**
   * `FancyVisitor`: the absolute difference between the sum of the values of
   * the internal nodes at even depth and the sum of the values of the green
   * leaves.
   */
  class FancyVisitor {
    var sumTreeNodeEvenDepth: int
    var sumGreenLeaves: int
    ghost var seen: multiset<Tree>

    ghost predicate Valid()
      reads this
    {
      && sumTreeNodeEvenDepth == Sum(seen, EvenNodeValue)
      && sumGreenLeaves == Sum(seen, GreenLeafValue)
    }

    constructor ()
      ensures Valid() && seen == multiset{}
      ensures sumTreeNodeEvenDepth == 0 && sumGreenLeaves == 0
    {
      sumTreeNodeEvenDepth := 0;
      sumGreenLeaves := 0;
      seen := multiset{};
    }

    method VisitNode(node: Tree)
      requires node.Node? && Valid()
      modifies this
      ensures Valid() && seen == old(seen) + multiset{node}
      ensures sumTreeNodeEvenDepth == old(sumTreeNodeEvenDepth) + (if node.depth % 2 == 0 then node.value else 0)
      ensures sumGreenLeaves == old(sumGreenLeaves)
    {
      SumAdd(seen, EvenNodeValue, node);
      SumAdd(seen, GreenLeafValue, node);
      if node.depth % 2 == 0 {
        sumTreeNodeEvenDepth := sumTreeNodeEvenDepth + node.value;
      }
      seen := seen + multiset{node};
    }

    method VisitLeaf(leaf: Tree)
      requires leaf.Leaf? && Valid()
      modifies this
      ensures Valid() && seen == old(seen) + multiset{leaf}
      ensures sumTreeNodeEvenDepth == old(sumTreeNodeEvenDepth)
      ensures sumGreenLeaves == old(sumGreenLeaves) + (if leaf.color == 1 then leaf.value else 0)
    {
      SumAdd(seen, EvenNodeValue, leaf);
      SumAdd(seen, GreenLeafValue, leaf);
      if leaf.color == 1 {
        sumGreenLeaves := sumGreenLeaves + leaf.value;
      }
      seen := seen + multiset{leaf};
    }

    /** `t.accept(this)`: an internal node goes to `VisitNode`, a leaf to `VisitLeaf`. */
    method Accept(t: Tree)
      requires Valid()
      modifies this
      ensures Valid() && seen == old(seen) + multiset{t}
      ensures sumTreeNodeEvenDepth == old(sumTreeNodeEvenDepth) + EvenNodeValue(t)
      ensures sumGreenLeaves == old(sumGreenLeaves) + GreenLeafValue(t)
    {
      match t
      case Node(_, _, _, _, _) => VisitNode(t);
      case Leaf(_, _, _, _) => VisitLeaf(t);
    }

    function GetResult(): (r: int)
      reads this
      requires Valid()
      ensures r >= 0
      ensures r == Abs(Sum(seen, EvenNodeValue) - Sum(seen, GreenLeafValue))
    {
      Abs(sumTreeNodeEvenDepth - sumGreenLeaves)
    }
  }
}
