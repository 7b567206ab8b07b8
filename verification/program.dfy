/**
 * The program's `main` without the reading and printing: the three visitors
 * are created, the tree is built from the parsed input and traversed once,
 * and the three results are returned in the order they are printed.
 */
module Program {
  import opened Aggregates
  import opened Trees
  import opened JavaInts
  import opened Visitors
  import opened TreeBuilder
  import opened Traversal

  /**
   * `nodesNumber`, `values`, `colors` and `edgeList` are the four parts of
   * the input; the edge list holds the `nodesNumber - 1` edges read when
   * there is more than one vertex. The results are the three printed lines.
   */
  method Run(nodesNumber: int, values: seq<int>, colors: seq<int>, edgeList: seq<Edge>)
    returns (root: Tree, leafSum: int, redProduct: int, fancyResult: int)
    requires nodesNumber >= 1 && |values| == nodesNumber && |colors| == nodesNumber
    requires |edgeList| == nodesNumber - 1
    requires forall e | e in edgeList :: 1 <= e.0 <= nodesNumber && 1 <= e.1 <= nodesNumber
    ensures nodesNumber == 1 ==> root == Leaf(1, values[0], colors[0], 0)
    ensures nodesNumber > 1 ==> root.Node? && root.vertex == 1 && root.depth == 0
    ensures nodesNumber > 1 ==> root.value == values[0] && root.color == colors[0]
    ensures WellBuilt(Adjacency(edgeList), values, colors, root)
    ensures forall n | n in Nodes(root) :: FromInput(values, colors, n)
    ensures forall a, b | a in Nodes(root) && b in Nodes(root) && a.vertex == b.vertex :: a == b
    ensures forall a | a in Nodes(root) :: Nodes(root)[a] == 1
    ensures forall v :: VertexCount(root, v) == if Reachable(Adjacency(edgeList), v) then 1 else 0
    ensures leafSum == Sum(Nodes(root), LeafValue)
    ensures redProduct == JavaRem(Product(Nodes(root), RedFactor), Modulo)
    ensures fancyResult == Abs(Sum(Nodes(root), EvenNodeValue) - Sum(Nodes(root), GreenLeafValue))
    ensures (forall i | 0 <= i < |values| :: values[i] >= 0) ==> 0 <= redProduct < Modulo
  {
    var builder := new Builder();
    root := builder.BuildTree(nodesNumber, values, colors, edgeList);
    leafSum, redProduct, fancyResult := VisitAll(root);
    InputNodes(Adjacency(edgeList), values, colors, root);
    if nodesNumber == 1 {
      PlacedChildless(root);
      OncePerVertex(root, {1});
      ReachableOnce(Adjacency(edgeList), values, colors, root, {1});
    } else {
      OncePerVertex(root, builder.processed + builder.leaves);
      ReachableOnce(Adjacency(edgeList), values, colors, root, builder.processed + builder.leaves);
    }
    if forall i | 0 <= i < |values| :: values[i] >= 0 {
      RedProductInRange(values, colors, root);
    }
  }

  /**
   * The visiting half of `main`: fresh visitors, one traversal from `root`
   * with nothing visited, and the three results.
   */
  method VisitAll(root: Tree) returns (leafSum: int, redProduct: int, fancyResult: int)
    ensures leafSum == Sum(Nodes(root), LeafValue)
    ensures redProduct == JavaRem(Product(Nodes(root), RedFactor), Modulo)
    ensures fancyResult == Abs(Sum(Nodes(root), EvenNodeValue) - Sum(Nodes(root), GreenLeafValue))
  {
    var sumInLeavesVisitor := new SumInLeavesVisitor();
    var productVisitor := new ProductRedNodesVisitor();
    var fancyVisitor := new FancyVisitor();
    var traversal := new Traversal();
    traversal.AcceptVisitors(root, sumInLeavesVisitor, productVisitor, fancyVisitor);
    NothingVisited(root);
    assert multiset{} + Nodes(root) == Nodes(root);
    leafSum, redProduct, fancyResult := Results(sumInLeavesVisitor, productVisitor, fancyVisitor, root);
  }

  /**
   * The three results that `main` prints, read from visitors that have each
   * seen every node of `root` exactly once.
   */
  method Results(sumInLeavesVisitor: SumInLeavesVisitor, productVisitor: ProductRedNodesVisitor,
                 fancyVisitor: FancyVisitor, ghost root: Tree)
    returns (leafSum: int, redProduct: int, fancyResult: int)
    requires sumInLeavesVisitor.Valid() && productVisitor.Valid() && fancyVisitor.Valid()
    requires sumInLeavesVisitor.seen == Nodes(root) && productVisitor.seen == Nodes(root) && fancyVisitor.seen == Nodes(root)
    ensures leafSum == Sum(Nodes(root), LeafValue)
    ensures redProduct == JavaRem(Product(Nodes(root), RedFactor), Modulo)
    ensures fancyResult == Abs(Sum(Nodes(root), EvenNodeValue) - Sum(Nodes(root), GreenLeafValue))
  {
    leafSum := sumInLeavesVisitor.GetResult();
    redProduct := productVisitor.GetResult();
    fancyResult := fancyVisitor.GetResult();
  }

  /**
   * With non-negative input values the red product is a remainder in
   * [0, 1000000006], as the program's output format expects.
   */
  lemma RedProductInRange(values: seq<int>, colors: seq<int>, t: Tree)
    requires forall n | n in Nodes(t) :: FromInput(values, colors, n)
    requires forall i | 0 <= i < |values| :: values[i] >= 0
    ensures 0 <= JavaRem(Product(Nodes(t), RedFactor), Modulo) < Modulo
  {
    forall n | n in Nodes(t)
      ensures RedFactor(n) >= 0
    {
      assert FromInput(values, colors, n);
    }
    ProductNonNegative(Nodes(t), RedFactor);
  }
}
