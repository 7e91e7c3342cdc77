/** Syntax-tree nodes as the highlighter sees them: a type name, the node's
    text, a start and end point, and the children in document order. */
module Tree {

  /** A tree-sitter point: 0-based row and column. */
  datatype Point = Point(row: int, column: int)

  /** Python's `<` on `(row, column)` tuples: lexicographic order. */
  predicate Before(a: Point, b: Point) {
    a.row < b.row || (a.row == b.row && a.column < b.column)
  }

  predicate AtOrBefore(a: Point, b: Point) {
    !Before(b, a)
  }

  /** Python's `max` of two tuples. */
  function Latest(a: Point, b: Point): (r: Point)
    ensures r == a || r == b
    ensures AtOrBefore(a, r) && AtOrBefore(b, r)
  {
    if Before(a, b) then b else a
  }

  /** Python's `min` of two tuples. */
  function Earliest(a: Point, b: Point): (r: Point)
    ensures r == a || r == b
    ensures AtOrBefore(r, a) && AtOrBefore(r, b)
  {
    if Before(b, a) then b else a
  }

  datatype Node = Node(kind: string, text: string, start: Point, end: Point, children: seq<Node>)

  /** Number of nodes in the subtree rooted at `n`. */
  function Size(n: Node): nat
    decreases n, 1
  {
    1 + SizeOfAll(n.children)
  }

  function SizeOfAll(ns: seq<Node>): nat
    decreases ns, 0
  {
    if |ns| == 0 then 0 else Size(ns[0]) + SizeOfAll(ns[1..])
  }

  lemma {:induction false} SizeOfAllCovers(ns: seq<Node>, i: nat)
    requires i < |ns|
    ensures Size(ns[i]) <= SizeOfAll(ns)
    decreases |ns|
  {
    if i > 0 {
      SizeOfAllCovers(ns[1..], i - 1);
    }
  }

  lemma ChildSmaller(n: Node, i: nat)
    requires i < |n.children|
    ensures Size(n.children[i]) < Size(n)
  {
    SizeOfAllCovers(n.children, i);
  }

  /** `d` lies strictly below `n` in the tree. */
  predicate IsProperDescendant(d: Node, n: Node)
    decreases n
  {
    exists i :: 0 <= i < |n.children| && (d == n.children[i] || IsProperDescendant(d, n.children[i]))
  }

  lemma {:induction false} DescendantSmaller(d: Node, n: Node)
    requires IsProperDescendant(d, n)
    ensures Size(d) < Size(n)
    decreases n
  {
    var i :| 0 <= i < |n.children| && (d == n.children[i] || IsProperDescendant(d, n.children[i]));
    ChildSmaller(n, i);
    if d != n.children[i] {
      DescendantSmaller(d, n.children[i]);
    }
  }

  /** Whether the node's span `[start, end)` shares a point with the range
      `[start, end)`, decided exactly as the highlighter does: the later start
      must come strictly before the earlier end. */
  predicate Overlaps(n: Node, start: Point, end: Point) {
    Before(Latest(n.start, start), Earliest(n.end, end))
  }

  /** The overlap test as four comparisons: both spans are non-empty and each
      starts before the other ends. */
  lemma OverlapsIff(n: Node, start: Point, end: Point)
    ensures Overlaps(n, start, end) <==>
      Before(n.start, n.end) && Before(start, end) && Before(n.start, end) && Before(start, n.end)
  {
  }

  /** `inner`'s span lies within `outer`'s. */
  predicate Within(inner: Node, outer: Node) {
    AtOrBefore(outer.start, inner.start) && AtOrBefore(inner.end, outer.end)
  }

  /** Every child lies within its parent, all the way down: what tree-sitter
      guarantees of the trees it produces. */
  predicate WellNested(n: Node)
    decreases n
  {
    forall i :: 0 <= i < |n.children| ==> Within(n.children[i], n) && WellNested(n.children[i])
  }

  /** A node inside a node that misses the range misses it too. */
  lemma OverlapWidens(inner: Node, outer: Node, start: Point, end: Point)
    requires Within(inner, outer)
    requires Overlaps(inner, start, end)
    ensures Overlaps(outer, start, end)
  {
    OverlapsIff(inner, start, end);
    OverlapsIff(outer, start, end);
  }
}
