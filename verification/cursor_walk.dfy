/** The traversal as the highlighter runs it: with a tree-sitter cursor that
    moves to the first child, along the siblings and back to the parent.

    A cursor is the node it was created on (`walk()`) plus the child indices
    leading from there to its current node. */
module CursorWalk {
  import opened Tree
  import opened TagRules
  import opened Traversal

  datatype Cursor = Cursor(root: Node, path: seq<nat>)

  /** Result of a cursor movement: whether it moved, and the cursor afterwards. */
  datatype Move = Move(moved: bool, cursor: Cursor)

  predicate ValidPath(root: Node, path: seq<nat>)
    decreases |path|, 1
  {
    |path| == 0 ||
    (ValidPath(root, path[..|path| - 1]) && path[|path| - 1] < |NodeAt(root, path[..|path| - 1]).children|)
  }

  function NodeAt(root: Node, path: seq<nat>): Node
    requires ValidPath(root, path)
    decreases |path|, 2
  {
    if |path| == 0 then root
    else NodeAt(root, path[..|path| - 1]).children[path[|path| - 1]]
  }

  predicate Valid(c: Cursor) {
    ValidPath(c.root, c.path)
  }

  /** `cursor.node` */
  function Current(c: Cursor): Node
    requires Valid(c)
  {
    NodeAt(c.root, c.path)
  }

  /** Descending to child `i` of the current node. */
  lemma ChildPath(c: Cursor, i: nat)
    requires Valid(c) && i < |Current(c).children|
    ensures Valid(Cursor(c.root, c.path + [i]))
    ensures Current(Cursor(c.root, c.path + [i])) == Current(c).children[i]
  {
    assert (c.path + [i])[..|c.path|] == c.path;
  }

  /** `cursor.goto_first_child()` */
  function GotoFirstChild(c: Cursor): (m: Move)
    requires Valid(c)
    ensures Valid(m.cursor)
    ensures m.moved <==> |Current(c).children| > 0
    ensures m.moved ==> m.cursor.root == c.root && Current(m.cursor) == Current(c).children[0]
    ensures !m.moved ==> m.cursor == c
  {
    if |Current(c).children| > 0 then
      ChildPath(c, 0);
      Move(true, Cursor(c.root, c.path + [0]))
    else
      Move(false, c)
  }

  /** `cursor.goto_next_sibling()`: never leaves the node the cursor was created on. */
  function GotoNextSibling(c: Cursor): (m: Move)
    requires Valid(c)
    ensures Valid(m.cursor)
    ensures !m.moved ==> m.cursor == c
    ensures m.moved ==> |c.path| > 0 && m.cursor == Cursor(c.root, c.path[..|c.path| - 1] + [c.path[|c.path| - 1] + 1])
  {
    if |c.path| == 0 then Move(false, c)
    else
      var up := c.path[..|c.path| - 1];
      var next := c.path[|c.path| - 1] + 1;
      if next < |NodeAt(c.root, up).children| then
        ChildPath(Cursor(c.root, up), next);
        Move(true, Cursor(c.root, up + [next]))
      else
        Move(false, c)
  }

  /** `cursor.goto_parent()` */
  function GotoParent(c: Cursor): (m: Move)
    requires Valid(c)
    ensures Valid(m.cursor)
    ensures m.moved <==> |c.path| > 0
    ensures m.moved ==> m.cursor == Cursor(c.root, c.path[..|c.path| - 1])
    ensures m.moved ==> Current(m.cursor).children[c.path[|c.path| - 1]] == Current(c)
  {
    if |c.path| == 0 then Move(false, c)
    else Move(true, Cursor(c.root, c.path[..|c.path| - 1]))
  }

  /** `_get_nodes_and_tags` with its cursor: computes the same pairs as the
      functional traversal of the cursor's node, and leaves the cursor on the
      node it started on. */
  method Walk(h: Highlighter, c: Cursor, start: Point, end: Point) returns (pairs: seq<Tagged>, after: Cursor)
    requires RecursionShrinks(h)
    requires Valid(c)
    ensures after == c
    ensures pairs == NodesAndTags(h, Current(c), start, end)
    decreases Size(Current(c)), 2
  {
    var n := Current(c);
    if !Overlaps(n, start, end) {
      return [], c;
    }
    if n.kind in h.queries {
      var caps := h.captures(h.queries[n.kind], n);
      if |caps| > 0 {
        var direct, toRecurse := SplitCaptures(caps);
        assert forall s :: s in toRecurse ==> Size(s) < Size(n);
        var recursed := RecurseEach(h, n, toRecurse, start, end);
        return direct + recursed, c;
      }
    }
    var descend := Move(false, c);
    if n.kind !in h.config.dontRecurseInside {
      descend := GotoFirstChild(c);
    }
    if descend.moved {
      QueryMissFallsThrough(h, n, start, end);
      pairs, after := WalkChildren(h, c, descend.cursor, start, end);
    } else {
      return [Tagged(n, DecideTag(h.config, n))], c;
    }
  }

  /** The first loop over the captures: direct tags are kept in order, the
      `"recurse"` subnodes are set aside in order. */
  method SplitCaptures(caps: seq<Tagged>) returns (direct: seq<Tagged>, toRecurse: seq<Node>)
    ensures direct == DirectCaptures(caps)
    ensures toRecurse == RecurseTargets(caps)
  {
    direct, toRecurse := [], [];
    var i := 0;
    while i < |caps|
      invariant 0 <= i <= |caps|
      invariant direct == DirectCaptures(caps[..i])
      invariant toRecurse == RecurseTargets(caps[..i])
    {
      SplitStep(caps, i);
      if caps[i].tag == RecurseMarker {
        toRecurse := toRecurse + [caps[i].node];
      } else {
        direct := direct + [caps[i]];
      }
      i := i + 1;
    }
    assert caps[..i] == caps;
  }

  lemma SplitStep(caps: seq<Tagged>, i: nat)
    requires i < |caps|
    ensures DirectCaptures(caps[..i + 1])
         == DirectCaptures(caps[..i]) + (if caps[i].tag == RecurseMarker then [] else [caps[i]])
    ensures RecurseTargets(caps[..i + 1])
         == RecurseTargets(caps[..i]) + (if caps[i].tag == RecurseMarker then [caps[i].node] else [])
  {
    assert caps[..i + 1] == caps[..i] + [caps[i]];
    DirectCapturesConcat(caps[..i], [caps[i]]);
    RecurseTargetsConcat(caps[..i], [caps[i]]);
    SingleCapture(caps[i]);
  }

  lemma SingleCapture(t: Tagged)
    ensures DirectCaptures([t]) == if t.tag == RecurseMarker then [] else [t]
    ensures RecurseTargets([t]) == if t.tag == RecurseMarker then [t.node] else []
  {
    assert [t][1..] == [];
  }

  /** The second loop: each set-aside subnode's marker, then its traversal
      with a fresh cursor created on the subnode. */
  method RecurseEach(h: Highlighter, parent: Node, subs: seq<Node>, start: Point, end: Point) returns (pairs: seq<Tagged>)
    requires RecursionShrinks(h)
    requires forall s :: s in subs ==> Size(s) < Size(parent)
    ensures pairs == RecurseInto(h, parent, subs, start, end)
    decreases Size(parent), 1
  {
    pairs := [];
    var j := 0;
    while j < |subs|
      invariant 0 <= j <= |subs|
      invariant pairs == RecurseInto(h, parent, subs[..j], start, end)
    {
      var sub := subs[j];
      var subPairs, _ := Walk(h, Cursor(sub, []), start, end);
      assert subs[..j + 1] == subs[..j] + [sub];
      RecurseIntoConcat(h, parent, subs[..j], [sub], start, end);
      pairs := pairs + ([Tagged(sub, RecurseMarker)] + subPairs);
      j := j + 1;
    }
    assert subs[..j] == subs;
  }

  /** `goto_next_sibling` from child `i`: moves to child `i + 1` if there is one. */
  lemma SiblingStep(c: Cursor, i: nat)
    requires Valid(c) && i < |Current(c).children|
    ensures Valid(Cursor(c.root, c.path + [i]))
    ensures GotoNextSibling(Cursor(c.root, c.path + [i])).moved <==> i + 1 < |Current(c).children|
    ensures GotoNextSibling(Cursor(c.root, c.path + [i])).cursor
         == if i + 1 < |Current(c).children| then Cursor(c.root, c.path + [i + 1]) else Cursor(c.root, c.path + [i])
  {
    ChildPath(c, i);
    assert (c.path + [i])[..|c.path|] == c.path;
  }

  lemma ChildrenSnoc(h: Highlighter, kids: seq<Node>, i: nat, start: Point, end: Point)
    requires RecursionShrinks(h)
    requires i < |kids|
    ensures Children(h, kids[..i + 1], start, end) == Children(h, kids[..i], start, end) + NodesAndTags(h, kids[i], start, end)
  {
    assert kids[..i + 1] == kids[..i] + [kids[i]];
    ChildrenConcat(h, kids[..i], [kids[i]], start, end);
    assert [kids[i]][1..] == [];
  }

  /** The child loop, entered with the cursor `first` that `goto_first_child`
      moved to: every next sibling in turn, then back to the parent `c`. */
  method WalkChildren(h: Highlighter, c: Cursor, first: Cursor, start: Point, end: Point) returns (pairs: seq<Tagged>, after: Cursor)
    requires RecursionShrinks(h)
    requires Valid(c) && GotoFirstChild(c) == Move(true, first)
    ensures after == c
    ensures pairs == Children(h, Current(c).children, start, end)
    decreases Size(Current(c)), 1
  {
    var n := Current(c);
    var kids := n.children;
    var cur := first;
    var i := 0;
    var part;
    ChildSmaller(n, 0);
    ChildPath(c, 0);
    part, cur := Walk(h, cur, start, end);
    ChildrenSnoc(h, kids, 0, start, end);
    pairs := part;
    var step := GotoNextSibling(cur);
    SiblingStep(c, 0);
    cur := step.cursor;
    while step.moved
      invariant 0 <= i < |kids|
      invariant step.moved <==> i + 1 < |kids|
      invariant cur == if step.moved then Cursor(c.root, c.path + [i + 1]) else Cursor(c.root, c.path + [i])
      invariant pairs == Children(h, kids[..i + 1], start, end)
      decreases |kids| - i
    {
      i := i + 1;
      ChildPath(c, i);
      ChildSmaller(n, i);
      part, cur := Walk(h, cur, start, end);
      ChildrenSnoc(h, kids, i, start, end);
      pairs := pairs + part;
      step := GotoNextSibling(cur);
      SiblingStep(c, i);
      cur := step.cursor;
    }
    assert kids[..i + 1] == kids;
    ChildPath(c, i);
    var up := GotoParent(cur);
    assert cur.path[..|cur.path| - 1] == c.path;
    after := up.cursor;
  }
}
