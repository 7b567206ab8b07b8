# Visitor pattern over a coloured tree

This project models the HackerRank "Java Visitor Pattern" solution. The program reads a tree of N vertices. Each vertex has an integer value and a colour (0 = red, 1 = green). It builds the tree from its N - 1 undirected edges, rooted at vertex 1. It then runs one traversal that hands every node to three visitors, and prints their three results:

- the sum of the values of the leaves;
- the product of the values of the red nodes, reduced modulo 1000000007;
- the absolute difference between two sums: the values of internal nodes at even depth, and the values of green leaves.

The model is imperative, like the program.

- **`Builder`.** This class holds the program's static builder state in fields: the adjacency map, the value and colour arrays, and the set of processed vertices.
  - `AddChildren` is the recursive expansion.
  - `AddNeighbours` is its loop over the neighbours.
  - `AttachChild` is that loop's body.
- **The three visitors.** Each is a class with its own accumulators and a double-dispatching `Accept`.
- **`Traversal.AcceptVisitors`.** This is the recursive traversal, with its never-written `visited` set.
- **Ghost state.** Each visitor keeps a ghost multiset `seen` of the nodes it was handed. Its `Valid()` ties the accumulators to a fold over `seen` (a sum or a product). The folds do not depend on element order, so the results do not depend on the iteration order of the hash sets.
- **Tree nodes.** They are values of the datatype `Trees.Tree`. A node carries the index of the input vertex it was built from. That index stands for the object identity that the program's hash sets rely on.

What the model proves:

- **The adjacency map.** It is exactly the symmetric closure of the edge list, and it does not depend on the order of the edges.
- **The built tree.** It is rooted at vertex 1. Its root is always an internal node unless N = 1. Every child:
  - stands for a neighbour of its parent's vertex;
  - is one level deeper than its parent;
  - takes its value and colour from its own vertex;
  - is a leaf exactly when its vertex has at most one neighbour.
- **Every reachable vertex appears.** The expansion is closed under neighbours: every neighbour of a processed vertex ends up processed or a leaf. So the tree holds exactly one node for each vertex reachable from vertex 1 along the edges, and none for any other vertex.
- **No vertex appears twice.** No two nodes of the tree stand for the same vertex, and no node occurs twice. Leaves are never marked processed, so this needs an argument about leaves: a leaf vertex has a single neighbour, and it is only made a leaf while that neighbour is expanded.
- **The traversal.** With `visited` empty, as it always is, the traversal hands every node of the tree to each visitor exactly once.
- **The three results.** They are:
  - the leaf sum;
  - Java's remainder of the product of the red values;
  - the absolute difference of the two sums.

  The second holds for any signs of the values. With non-negative values it lies in [0, 1000000006].

## Model

| member | source | states |
|---|---|---|
| TreeBuilder.Adjacency | src/hackerrank/visitorpattern/solution/VisitorPattern.java:173-191 | the map after registering every edge in both directions, a missing entry read as an empty set |
| TreeBuilder.BuildAdjacency | src/hackerrank/visitorpattern/solution/VisitorPattern.java:172-191 | the edge loop over the first N - 1 edges leaves exactly `Adjacency(edgeList)` in the map |
| TreeBuilder.AdjacencyMembership | src/hackerrank/visitorpattern/solution/VisitorPattern.java:177-189 | a vertex has an entry iff it ends some edge; `v` is in `u`'s set iff some edge joins `u` and `v` in either direction |
| TreeBuilder.AdjacencySymmetric | src/hackerrank/visitorpattern/solution/VisitorPattern.java:177-189 | the map is symmetric: `v` is a neighbour of `u` iff `u` is a neighbour of `v` |
| TreeBuilder.AdjacencyOrderFree | src/hackerrank/visitorpattern/solution/VisitorPattern.java:174-190 | two edge lists joining the same pairs give the same map, whatever the order of edges or endpoints |
| TreeBuilder.Builder.BuildTree | src/hackerrank/visitorpattern/solution/VisitorPattern.java:160-196 | N = 1 gives the single leaf (value, colour of vertex 1, depth 0); otherwise the root is an internal node for vertex 1 at depth 0, whatever vertex 1's degree; the tree is well built, its nodes stand for distinct vertices, and every neighbour of vertex 1 is a child or was processed; for N > 1, vertex 1 is processed and every neighbour of a processed vertex or a leaf is itself processed or a leaf |
| TreeBuilder.Builder.AddChildren | src/hackerrank/visitorpattern/solution/VisitorPattern.java:203-225 | an already processed vertex leaves node and state unchanged; otherwise the vertex becomes processed, the children are correct children, none stands for a vertex processed before, the subtree holds exactly one node per vertex newly processed or newly made a leaf, each neighbour is a child or processed, and every vertex processed by the call has all its neighbours processed or made leaves |
| TreeBuilder.Builder.AddNeighbours | src/hackerrank/visitorpattern/solution/VisitorPattern.java:208-223 | the loop over the neighbours keeps the tree well built and one node per vertex, adds each unprocessed neighbour as a child, never makes a leaf of a vertex whose neighbour was processed before the expansion, and leaves every vertex it processed with all its neighbours processed or made leaves |
| TreeBuilder.Builder.AttachChild | src/hackerrank/visitorpattern/solution/VisitorPattern.java:211-222 | a neighbour with no entry or one neighbour becomes a leaf and is recorded among the leaves; any other becomes an internal node that is expanded at once, so it ends processed, and every vertex processed by that expansion has all its neighbours processed or made leaves; the child has the right vertex, depth, value and colour and is added to the parent's children, with one node per vertex kept |
| TreeBuilder.WalkStaysIn | src/hackerrank/visitorpattern/solution/VisitorPattern.java:203-225 | a walk along the edges that starts in a set of vertices closed under neighbours never leaves it |
| TreeBuilder.ReachStep | src/hackerrank/visitorpattern/solution/VisitorPattern.java:173-191 | a neighbour of a vertex reachable from vertex 1 is reachable from vertex 1 |
| TreeBuilder.TreeReachable | src/hackerrank/visitorpattern/solution/VisitorPattern.java:211-221 | in a well built tree whose root is reachable, every node stands for a reachable vertex |
| TreeBuilder.ReachableOnce | src/hackerrank/visitorpattern/solution/VisitorPattern.java:160-225 | a well built tree rooted at vertex 1 that places each vertex of a neighbour-closed set containing 1 once holds exactly one node per vertex reachable from 1 and none for any other |
| TreeBuilder.Builder.constructor | src/hackerrank/visitorpattern/solution/VisitorPattern.java:17-19 | the builder starts with no adjacency map, no values or colours, no processed vertex and no leaf made |
| TreeBuilder.NextNeighbour | src/hackerrank/visitorpattern/solution/VisitorPattern.java:210 | the hash set's iterator yields some element still to be iterated |
| TreeBuilder.InputNodes | src/hackerrank/visitorpattern/solution/VisitorPattern.java:213-219 | in a well built tree every node takes value and colour from the arrays at its vertex's index |
| TreeBuilder.OncePerVertex | src/hackerrank/visitorpattern/solution/VisitorPattern.java:203-222 | when each vertex is placed at most once, no two nodes share a vertex and each node occurs once |
| TreeBuilder.PlacedChildless | src/hackerrank/visitorpattern/solution/VisitorPattern.java:213-218 | a fresh leaf or a node without children stands for its own vertex only |
| TreeBuilder.PlacedAddChild | src/hackerrank/visitorpattern/solution/VisitorPattern.java:221 | `addChild` with a subtree on disjoint vertices yields the union of the vertex sets, each once |
| TreeBuilder.WellBuiltAddChild | src/hackerrank/visitorpattern/solution/VisitorPattern.java:221 | adding a correct, well built child keeps the tree well built |
| TreeBuilder.LeavesStayAway | src/hackerrank/visitorpattern/solution/VisitorPattern.java:211-221 | every leaf made during one expansion has no neighbour processed before that expansion |
| TreeBuilder.NeighboursStayUnmade | src/hackerrank/visitorpattern/solution/VisitorPattern.java:210-222 | a neighbour still to be iterated is not made a leaf by the recursive expansion of an earlier sibling |
| Visitors.SumInLeavesVisitor.constructor | src/hackerrank/visitorpattern/solution/VisitorPattern.java:30-32 | the leaf sum starts at 0, with no node seen |
| Visitors.SumInLeavesVisitor.VisitNode | src/hackerrank/visitorpattern/solution/VisitorPattern.java:34-37 | an internal node leaves the leaf sum unchanged |
| Visitors.SumInLeavesVisitor.VisitLeaf | src/hackerrank/visitorpattern/solution/VisitorPattern.java:39-43 | a leaf adds its value to the sum |
| Visitors.SumInLeavesVisitor.Accept | src/hackerrank/visitorpattern/solution/VisitorPattern.java:140-158 | the double dispatch: the sum grows by the value of a leaf, by nothing for an internal node |
| Visitors.SumInLeavesVisitor.GetResult | src/hackerrank/visitorpattern/solution/VisitorPattern.java:45-48 | the result is the sum of the leaf values over all nodes seen |
| Visitors.ProductRedNodesVisitor.constructor | src/hackerrank/visitorpattern/solution/VisitorPattern.java:52-54 | the product accumulator starts at 1, the empty product, with no node seen |
| Visitors.ProductRedNodesVisitor.Multiply | src/hackerrank/visitorpattern/solution/VisitorPattern.java:59-60 | a red node multiplies its value into the accumulator and takes Java's remainder by 1000000007; other nodes leave it unchanged; for a 32-bit value the product `result * value` fits in a Java `long` |
| Visitors.ProductRedNodesVisitor.VisitNode | src/hackerrank/visitorpattern/solution/VisitorPattern.java:57-62 | as `Multiply`, for an internal node |
| Visitors.ProductRedNodesVisitor.VisitLeaf | src/hackerrank/visitorpattern/solution/VisitorPattern.java:64-69 | as `Multiply`, for a leaf |
| Visitors.ProductRedNodesVisitor.Accept | src/hackerrank/visitorpattern/solution/VisitorPattern.java:140-158 | the double dispatch: red nodes of either kind are multiplied in, others are not |
| Visitors.ProductRedNodesVisitor.GetResult | src/hackerrank/visitorpattern/solution/VisitorPattern.java:71-74 | the `(int)` cast of the accumulator equals Java's remainder of the product of all red values seen, which lies strictly between -1000000007 and 1000000007 |
| Visitors.FancyVisitor.constructor | src/hackerrank/visitorpattern/solution/VisitorPattern.java:78-81 | both sums start at 0, with no node seen |
| Visitors.FancyVisitor.VisitNode | src/hackerrank/visitorpattern/solution/VisitorPattern.java:83-88 | an internal node at even depth adds its value to the first sum; the second sum is unchanged |
| Visitors.FancyVisitor.VisitLeaf | src/hackerrank/visitorpattern/solution/VisitorPattern.java:90-95 | a green leaf adds its value to the second sum; the first sum is unchanged |
| Visitors.FancyVisitor.Accept | src/hackerrank/visitorpattern/solution/VisitorPattern.java:140-158 | the double dispatch: even-depth internal nodes feed the first sum, green leaves the second |
| Visitors.FancyVisitor.GetResult | src/hackerrank/visitorpattern/solution/VisitorPattern.java:97-100 | the result is non-negative and is the absolute difference of the even-depth internal sum and the green-leaf sum over all nodes seen |
| JavaInts.JavaRem | src/hackerrank/visitorpattern/solution/VisitorPattern.java:60 | Java's `%` with a positive divisor: strictly inside (-m, m), with the sign of the dividend |
| JavaInts.JavaRemCongruent | src/hackerrank/visitorpattern/solution/VisitorPattern.java:60 | Java's remainder differs from the dividend by a multiple of the divisor; a free-standing characterisation of `%`, used by no other member |
| JavaInts.JavaRemNegate | src/hackerrank/visitorpattern/solution/VisitorPattern.java:67 | Java's remainder of `-x` is minus that of `x` |
| JavaInts.JavaRemMul | src/hackerrank/visitorpattern/solution/VisitorPattern.java:60 | reducing after every multiplication gives the remainder of the whole product, for all signs |
| JavaInts.ProductFitsInLong | src/hackerrank/visitorpattern/solution/VisitorPattern.java:54-60 | `result * value` fits in a Java `long`, so the program's multiplication does not overflow; `Multiply` relies on it |
| JavaInts.ToInt32 | src/hackerrank/visitorpattern/solution/VisitorPattern.java:73 | the `(int)` cast keeps the value modulo 2^32 in the 32-bit range and leaves a value already in that range unchanged |
| JavaInts.Abs | src/hackerrank/visitorpattern/solution/VisitorPattern.java:99 | `Math.abs`: non-negative and equal to the argument or its negation |
| Aggregates.SumPick | src/hackerrank/visitorpattern/solution/VisitorPattern.java:130 | a sum over a multiset may start with any element: the hash set's iteration order does not change the result |
| Aggregates.ProductPick | src/hackerrank/visitorpattern/solution/VisitorPattern.java:130 | the same for a product |
| Aggregates.SumUnion | src/hackerrank/visitorpattern/solution/VisitorPattern.java:41 | the sum over a union is the sum of the sums |
| Aggregates.SumNonNegative | src/hackerrank/visitorpattern/solution/VisitorPattern.java:41 | non-negative terms give a non-negative sum |
| Aggregates.SumNonZero | src/hackerrank/visitorpattern/solution/VisitorPattern.java:130 | a sum that is not zero has a term that is not zero, so a vertex counted once has a node |
| Aggregates.ProductNonNegative | src/hackerrank/visitorpattern/solution/VisitorPattern.java:60 | non-negative factors give a non-negative product |
| Trees.ForestPick | src/hackerrank/visitorpattern/solution/VisitorPattern.java:130-134 | the nodes of a set of subtrees do not depend on which child is taken first |
| Trees.ForestMember | src/hackerrank/visitorpattern/solution/VisitorPattern.java:130-134 | a node under a set of children lies in one of the children's subtrees |
| Trees.SumAddChild | src/hackerrank/visitorpattern/solution/VisitorPattern.java:145-147 | after `addChild`, a sum over the tree gains the sum over the new subtree |
| Traversal.Traversal.constructor | src/hackerrank/visitorpattern/solution/VisitorPattern.java:20 | the `visited` set starts, and stays, empty |
| Traversal.Traversal.AcceptVisitors | src/hackerrank/visitorpattern/solution/VisitorPattern.java:227-242 | each of the three visitors receives exactly the nodes `Dispatched(tree, visited)`: the tree unless visited, then each unvisited child's traversal |
| Traversal.Traversal.AcceptChildren | src/hackerrank/visitorpattern/solution/VisitorPattern.java:234-240 | the loop over the children adds, for every child not visited, that child's traversal, in any order |
| Traversal.Dispatched | src/hackerrank/visitorpattern/solution/VisitorPattern.java:227-242 | a tree that was not visited is among the nodes its traversal dispatches |
| Traversal.DispatchedForestPick | src/hackerrank/visitorpattern/solution/VisitorPattern.java:235 | the children may be traversed in any order |
| Traversal.NothingVisited | src/hackerrank/visitorpattern/solution/VisitorPattern.java:20 | with `visited` empty, the traversal dispatches exactly the nodes of the tree |
| Program.Run | src/hackerrank/visitorpattern/solution/VisitorPattern.java:244-257 | the three printed values are the leaf sum, Java's remainder of the red product and the fancy difference, each over the nodes of a well built tree; nodes take their values from the input and no vertex appears twice; each vertex reachable from vertex 1 along the edges has exactly one node and every other vertex none; with non-negative values the product lies in [0, 1000000006] |
| Program.VisitAll | src/hackerrank/visitorpattern/solution/VisitorPattern.java:245-251 | fresh visitors and one traversal with nothing visited give the three closed forms over all nodes of `root` |
| Program.Results | src/hackerrank/visitorpattern/solution/VisitorPattern.java:253-255 | visitors that have seen all nodes yield the three closed forms |
| Program.RedProductInRange | src/hackerrank/visitorpattern/solution/VisitorPattern.java:54-74 | with non-negative input values the red product remainder is in [0, 1000000006] |

## Left out

- Reading the input from standard input, the `IOException` path that returns `null`, and printing. `Run` takes the parsed N, values, colours and edge list, and returns the three printed values.
- `Run` requires that the value and colour lines hold exactly N entries and that edge endpoints lie in 1..N. That is the input format; the program does not check it.
- `(int) Math.pow(10, 9) + 7` is the constant `Modulo` = 1000000007. The double 10^9 and the cast are exact, so nothing is lost.
- SumInLeavesVisitor.VisitLeaf: the `Integer` sum is unbounded here. A 32-bit overflow would wrap in the program. Inputs are assumed small enough that it does not.
- FancyVisitor.GetResult: the two `Integer` sums and their difference are unbounded here, as above. `Math.abs(Integer.MIN_VALUE)`, which stays negative in Java, is not modelled.
- Object identity: nodes are values told apart by their vertex index. Structurally equal nodes would collapse in a `set<Tree>`. `OncePerVertex` shows that no two nodes of a built tree share a vertex, so no children collapse.
- The traversal calls the visitors in a fixed order: leaf sum, then product, then fancy. The visitors share no state, so the order is not stated as a property.
- TreeBuilder.Builder.BuildTree: that each node's depth is the distance of its vertex from vertex 1 is not proved. It holds only when the edges form a tree. On input with a cycle, the depth-first expansion can reach a vertex along a longer path first. The model takes the edge list as given and does not assume it is acyclic.
- The loop bodies of `addChildren` and `acceptVisitors` are separate methods (`AddNeighbours`, `AttachChild`, `AcceptChildren`). They have the same behaviour.
- The values stored in `processedNodes` are never read, only compared with null, so `processed` is a set of vertex indices.
