/**
 * `Edge` of glyph-tools.js: an undirected connection between two of the
 * grid's nodes, stored with the smaller node index first.
 */
module Edges {
  import opened OrderedSets

  /** Number of grid nodes: the length of the node position table. */
  const NodeCount := 11

  datatype Edge = Edge(a: int, b: int)

  /** The constructor `new Edge(p, q)`: the two indices, smaller first. */
  function NewEdge(p: int, q: int): (e: Edge)
    ensures e.a <= e.b
    ensures multiset{e.a, e.b} == multiset{p, q}
  {
    if p > q then Edge(q, p) else Edge(p, q)
  }

  /** `isValid`: two distinct nodes of the grid, stored smaller first. */
  predicate IsValid(e: Edge)
  {
    e.a < e.b && 0 <= e.a < NodeCount && 0 <= e.b < NodeCount
  }

  /** `Edge.compare`: -1, 0 or 1, comparing `a` first and then `b`. */
  function Compare(x: Edge, y: Edge): int
  {
    if x.a > y.a then 1
    else if x.a < y.a then -1
    else if x.b > y.b then 1
    else if x.b < y.b then -1
    else 0
  }

  /** `Edge.less` */
  predicate Less(x: Edge, y: Edge)
  {
    Compare(x, y) < 0
  }

  /** `Edge.equals` */
  predicate Equals(x: Edge, y: Edge)
  {
    Compare(x, y) == 0
  }

  /** The constructor is order-independent, and the edge it builds is valid
      exactly when its two indices are distinct nodes of the grid. */
  lemma NewEdgeCanonical(p: int, q: int)
    ensures NewEdge(p, q) == NewEdge(q, p)
    ensures Equals(NewEdge(p, q), NewEdge(q, p))
    ensures IsValid(NewEdge(p, q)) <==> p != q && 0 <= p < NodeCount && 0 <= q < NodeCount
  {
  }

  /** `compare` is lexicographic on `(a, b)`, is zero exactly on equal
      edges, and is antisymmetric. */
  lemma CompareLexicographic(x: Edge, y: Edge)
    ensures Compare(x, y) in {-1, 0, 1}
    ensures Less(x, y) <==> x.a < y.a || (x.a == y.a && x.b < y.b)
    ensures Equals(x, y) <==> x == y
    ensures Compare(y, x) == -Compare(x, y)
  {
  }

  /** `Edge.less` is a strict weak ordering whose equivalence is equality,
      as the ordered container requires of its comparator. */
  lemma LessIsStrictWeakOrder()
    ensures StrictWeakOrder(Less)
    ensures forall x, y :: Equiv(Less, x, y) <==> x == y
  {
  }
}
