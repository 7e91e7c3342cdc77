/** The range-limited traversal: the (node, tag) pairs the highlighter draws
    for one node and the visible range `[start, end)`.

    Query evaluation belongs to the tree-sitter library; it is the abstract
    `captures` function of a `Highlighter`, applied to a compiled query (its
    stripped text) and a node. */
module Traversal {
  import opened Wrappers
  import opened Tree
  import opened TagRules

  /** A node with a tag, or with the reserved name `"recurse"`. */
  datatype Tagged = Tagged(node: Node, tag: string)

  const RecurseMarker: string := "recurse"

  /** One highlighter's fixed state: its configuration, its compiled queries
      by node type, and the query engine. */
  datatype Highlighter = Highlighter(
    config: Config,
    queries: map<string, string>,
    captures: (string, Node) -> seq<Tagged>)

  /** Whenever the traversal evaluates a registered query on a node, the
      captures marked `"recurse"` lie strictly inside that node. This is what
      makes the traversal terminate; it is an assumption about the queries,
      since tree-sitter also lets a query capture the queried node itself,
      and then the highlighter would recurse forever. */
  ghost predicate RecursionShrinks(h: Highlighter) {
    forall n: Node, c: Tagged | n.kind in h.queries && c in h.captures(h.queries[n.kind], n) && c.tag == RecurseMarker ::
      Size(c.node) < Size(n)
  }

  /** Registered queries whose `"recurse"` captures are proper descendants of
      the queried node make the recursion terminate. */
  lemma DescendantCapturesShrink(h: Highlighter)
    requires forall n: Node, c: Tagged | n.kind in h.queries && c in h.captures(h.queries[n.kind], n) && c.tag == RecurseMarker ::
      IsProperDescendant(c.node, n)
    ensures RecursionShrinks(h)
  {
    forall n: Node, c: Tagged | n.kind in h.queries && c in h.captures(h.queries[n.kind], n) && c.tag == RecurseMarker
      ensures Size(c.node) < Size(n)
    {
      DescendantSmaller(c.node, n);
    }
  }

  /** The highlighter set up from a configuration (`__init__`): its queries
      are the configuration's queries, stripped of comments and compiled;
      setup fails when one of them does not compile. */
  function Setup(cfg: Config, compiles: string -> bool, captures: (string, Node) -> seq<Tagged>): (r: Option<Highlighter>)
    ensures r.Some? <==> CompileQueries(cfg.queries, compiles).Some?
    ensures r.Some? ==>
      && r.value.config == cfg
      && r.value.queries == CompileQueries(cfg.queries, compiles).value
      && r.value.captures == captures
  {
    match CompileQueries(cfg.queries, compiles)
    case Some(compiled) => Some(Highlighter(cfg, compiled, captures))
    case None => None
  }

  /** The captures that carry a real tag, in capture order. */
  function DirectCaptures(caps: seq<Tagged>): (r: seq<Tagged>)
    ensures forall t :: t in r <==> t in caps && t.tag != RecurseMarker
  {
    if |caps| == 0 then []
    else (if caps[0].tag == RecurseMarker then [] else [caps[0]]) + DirectCaptures(caps[1..])
  }

  /** The nodes captured as `"recurse"`, in capture order. */
  function RecurseTargets(caps: seq<Tagged>): (r: seq<Node>)
    ensures forall x :: x in r <==> Tagged(x, RecurseMarker) in caps
  {
    if |caps| == 0 then []
    else (if caps[0].tag == RecurseMarker then [caps[0].node] else []) + RecurseTargets(caps[1..])
  }

  /** The traversal of one node (`_get_nodes_and_tags`). */
  function NodesAndTags(h: Highlighter, n: Node, start: Point, end: Point): (r: seq<Tagged>)
    requires RecursionShrinks(h)
    ensures !Overlaps(n, start, end) ==> r == []
    decreases Size(n), 2, 0
  {
    if !Overlaps(n, start, end) then []
    else if n.kind in h.queries && |h.captures(h.queries[n.kind], n)| > 0 then
      var caps := h.captures(h.queries[n.kind], n);
      DirectCaptures(caps) + RecurseInto(h, n, RecurseTargets(caps), start, end)
    else
      Structural(h, n, start, end)
  }

  /** What a node without (matching) query yields: one leaf pair, or the
      traversals of its children. */
  function Structural(h: Highlighter, n: Node, start: Point, end: Point): seq<Tagged>
    requires RecursionShrinks(h)
    decreases Size(n), 1, 0
  {
    if n.kind in h.config.dontRecurseInside || |n.children| == 0 then
      [Tagged(n, DecideTag(h.config, n))]
    else
      Children(h, n.children, start, end)
  }

  function Children(h: Highlighter, kids: seq<Node>, start: Point, end: Point): seq<Tagged>
    requires RecursionShrinks(h)
    decreases SizeOfAll(kids), 3, |kids|
  {
    if |kids| == 0 then []
    else NodesAndTags(h, kids[0], start, end) + Children(h, kids[1..], start, end)
  }

  /** For each subnode: the `"recurse"` marker, then the subnode's traversal. */
  function RecurseInto(h: Highlighter, parent: Node, subs: seq<Node>, start: Point, end: Point): seq<Tagged>
    requires RecursionShrinks(h)
    requires forall s :: s in subs ==> Size(s) < Size(parent)
    decreases Size(parent), 0, |subs|
  {
    if |subs| == 0 then []
    else
      [Tagged(subs[0], RecurseMarker)] + NodesAndTags(h, subs[0], start, end)
      + RecurseInto(h, parent, subs[1..], start, end)
  }

  /** Whether a query is registered for the node's type and captures something. */
  predicate QueryHits(h: Highlighter, n: Node) {
    n.kind in h.queries && |h.captures(h.queries[n.kind], n)| > 0
  }

  // ---------------------------------------------------------------------
  // Emission order.

  lemma {:induction false} DirectCapturesConcat(a: seq<Tagged>, b: seq<Tagged>)
    ensures DirectCaptures(a + b) == DirectCaptures(a) + DirectCaptures(b)
    decreases |a|
  {
    if |a| > 0 {
      var first := if a[0].tag == RecurseMarker then [] else [a[0]];
      assert (a + b)[0] == a[0] && (a + b)[1..] == a[1..] + b;
      assert DirectCaptures(a + b) == first + DirectCaptures(a[1..] + b);
      assert DirectCaptures(a) == first + DirectCaptures(a[1..]);
      DirectCapturesConcat(a[1..], b);
    } else {
      assert a + b == b;
    }
  }

  lemma {:induction false} RecurseTargetsConcat(a: seq<Tagged>, b: seq<Tagged>)
    ensures RecurseTargets(a + b) == RecurseTargets(a) + RecurseTargets(b)
    decreases |a|
  {
    if |a| > 0 {
      var first := if a[0].tag == RecurseMarker then [a[0].node] else [];
      assert (a + b)[0] == a[0] && (a + b)[1..] == a[1..] + b;
      assert RecurseTargets(a + b) == first + RecurseTargets(a[1..] + b);
      assert RecurseTargets(a) == first + RecurseTargets(a[1..]);
      RecurseTargetsConcat(a[1..], b);
    } else {
      assert a + b == b;
    }
  }

  lemma {:induction false} RecurseIntoConcat(h: Highlighter, parent: Node, a: seq<Node>, b: seq<Node>, start: Point, end: Point)
    requires RecursionShrinks(h)
    requires forall s :: s in a + b ==> Size(s) < Size(parent)
    ensures RecurseInto(h, parent, a + b, start, end)
         == RecurseInto(h, parent, a, start, end) + RecurseInto(h, parent, b, start, end)
    decreases |a|
  {
    if |a| > 0 {
      assert (a + b)[1..] == a[1..] + b;
      RecurseIntoConcat(h, parent, a[1..], b, start, end);
    } else {
      assert a + b == b;
    }
  }

  /** The capture branch of the definition, unfolded once: when the node's
      query captures something, the traversal is the directly tagged captures
      in capture order followed by the `"recurse"` part. That this is the
      order the highlighter emits is what `CursorWalk.Walk` establishes. */
  lemma CapturesFirst(h: Highlighter, n: Node, start: Point, end: Point, direct: seq<Tagged>, subs: seq<Node>)
    requires RecursionShrinks(h)
    requires Overlaps(n, start, end) && QueryHits(h, n)
    requires direct == DirectCaptures(h.captures(h.queries[n.kind], n))
    requires subs == RecurseTargets(h.captures(h.queries[n.kind], n))
    ensures forall t :: t in direct <==> t in h.captures(h.queries[n.kind], n) && t.tag != RecurseMarker
    ensures forall x :: x in subs ==> Size(x) < Size(n)
    ensures NodesAndTags(h, n, start, end) == direct + RecurseInto(h, n, subs, start, end)
    ensures |subs| > 0 ==> NodesAndTags(h, n, start, end)[|direct|] == Tagged(subs[0], RecurseMarker)
  {
  }

  /** Each `"recurse"` marker sits immediately before its own subnode's
      traversal, and the subnodes come in capture order. */
  lemma RecurseMarkerPrecedesSubtree(h: Highlighter, parent: Node, subs: seq<Node>, i: nat, start: Point, end: Point)
    requires RecursionShrinks(h)
    requires forall s :: s in subs ==> Size(s) < Size(parent)
    requires i < |subs|
    ensures RecurseInto(h, parent, subs, start, end)
         == RecurseInto(h, parent, subs[..i], start, end)
          + [Tagged(subs[i], RecurseMarker)] + NodesAndTags(h, subs[i], start, end)
          + RecurseInto(h, parent, subs[i + 1..], start, end)
  {
    var rest := subs[i..];
    assert subs == subs[..i] + rest;
    RecurseIntoConcat(h, parent, subs[..i], rest, start, end);
    assert rest[0] == subs[i] && rest[1..] == subs[i + 1..];
    assert RecurseInto(h, parent, rest, start, end)
        == [Tagged(subs[i], RecurseMarker)] + NodesAndTags(h, subs[i], start, end)
         + RecurseInto(h, parent, subs[i + 1..], start, end);
  }

  /** A query whose captures are all real tags yields exactly its captures. */
  lemma {:induction false} OnlyDirectCapturesYieldedAsIs(h: Highlighter, n: Node, start: Point, end: Point)
    requires RecursionShrinks(h)
    requires Overlaps(n, start, end) && QueryHits(h, n)
    requires forall c :: c in h.captures(h.queries[n.kind], n) ==> c.tag != RecurseMarker
    ensures NodesAndTags(h, n, start, end) == h.captures(h.queries[n.kind], n)
  {
    var caps := h.captures(h.queries[n.kind], n);
    NoRecurseFilters(caps);
  }

  lemma {:induction false} NoRecurseFilters(caps: seq<Tagged>)
    requires forall c :: c in caps ==> c.tag != RecurseMarker
    ensures DirectCaptures(caps) == caps
    ensures RecurseTargets(caps) == []
    decreases |caps|
  {
    if |caps| > 0 {
      assert caps[0] in caps;
      assert forall c :: c in caps[1..] ==> c in caps;
      NoRecurseFilters(caps[1..]);
      assert DirectCaptures(caps) == [caps[0]] + DirectCaptures(caps[1..]);
      assert RecurseTargets(caps) == RecurseTargets(caps[1..]);
      assert caps == [caps[0]] + caps[1..];
    }
  }

  /** The fall-through branch of the definition, unfolded once: a registered
      query that captures nothing is ignored and the node is treated exactly
      as a node with no query. That the highlighter does so is what
      `CursorWalk.Walk` establishes. */
  lemma QueryMissFallsThrough(h: Highlighter, n: Node, start: Point, end: Point)
    requires RecursionShrinks(h)
    requires Overlaps(n, start, end) && !QueryHits(h, n)
    ensures NodesAndTags(h, n, start, end) == Structural(h, n, start, end)
    ensures n.kind in h.config.dontRecurseInside || |n.children| == 0 ==>
      NodesAndTags(h, n, start, end) == [Tagged(n, DecideTag(h.config, n))]
    ensures n.kind !in h.config.dontRecurseInside && |n.children| > 0 ==>
      NodesAndTags(h, n, start, end) == Children(h, n.children, start, end)
  {
  }

  /** Children's traversals are concatenated left to right. */
  lemma {:induction false} ChildrenConcat(h: Highlighter, a: seq<Node>, b: seq<Node>, start: Point, end: Point)
    requires RecursionShrinks(h)
    ensures Children(h, a + b, start, end) == Children(h, a, start, end) + Children(h, b, start, end)
    decreases |a|
  {
    if |a| > 0 {
      assert (a + b)[1..] == a[1..] + b;
      ChildrenConcat(h, a[1..], b, start, end);
    } else {
      assert a + b == b;
    }
  }

  // ---------------------------------------------------------------------
  // Reference: without queries, the traversal tags the visible frontier.

  /** The nodes the traversal treats as leaves, in document order. */
  function Frontier(cfg: Config, n: Node): seq<Node>
    decreases n, 1
  {
    if n.kind in cfg.dontRecurseInside || |n.children| == 0 then [n]
    else FrontierOfAll(cfg, n.children)
  }

  function FrontierOfAll(cfg: Config, ns: seq<Node>): seq<Node>
    decreases ns, 0
  {
    if |ns| == 0 then [] else Frontier(cfg, ns[0]) + FrontierOfAll(cfg, ns[1..])
  }

  /** Each node that overlaps the range, with its decided tag. */
  function TagVisible(cfg: Config, ns: seq<Node>, start: Point, end: Point): seq<Tagged>
  {
    if |ns| == 0 then []
    else
      var first := if Overlaps(ns[0], start, end) then [Tagged(ns[0], DecideTag(cfg, ns[0]))] else [];
      first + TagVisible(cfg, ns[1..], start, end)
  }

  /** No node in the subtree has a query that captures anything. */
  predicate Quiet(h: Highlighter, n: Node)
    decreases n
  {
    && !QueryHits(h, n)
    && forall i :: 0 <= i < |n.children| ==> Quiet(h, n.children[i])
  }

  lemma {:induction false} TagVisibleConcat(cfg: Config, a: seq<Node>, b: seq<Node>, start: Point, end: Point)
    ensures TagVisible(cfg, a + b, start, end) == TagVisible(cfg, a, start, end) + TagVisible(cfg, b, start, end)
    decreases |a|
  {
    if |a| > 0 {
      assert (a + b)[1..] == a[1..] + b;
      TagVisibleConcat(cfg, a[1..], b, start, end);
    } else {
      assert a + b == b;
    }
  }

  lemma {:induction false} TagVisibleNone(cfg: Config, ns: seq<Node>, start: Point, end: Point)
    requires forall m :: m in ns ==> !Overlaps(m, start, end)
    ensures TagVisible(cfg, ns, start, end) == []
    decreases |ns|
  {
    if |ns| > 0 {
      assert forall m :: m in ns[1..] ==> m in ns;
      TagVisibleNone(cfg, ns[1..], start, end);
    }
  }

  lemma {:induction false} FrontierWithin(cfg: Config, n: Node)
    requires WellNested(n)
    ensures forall m :: m in Frontier(cfg, n) ==> Within(m, n)
    decreases n, 1
  {
    if !(n.kind in cfg.dontRecurseInside || |n.children| == 0) {
      FrontierOfAllWithin(cfg, n, n.children);
    }
  }

  lemma {:induction false} FrontierOfAllWithin(cfg: Config, parent: Node, ns: seq<Node>)
    requires forall c :: c in ns ==> WellNested(c) && Within(c, parent)
    ensures forall m :: m in FrontierOfAll(cfg, ns) ==> Within(m, parent)
    decreases ns, 0
  {
    if |ns| > 0 {
      FrontierWithin(cfg, ns[0]);
      assert forall c :: c in ns[1..] ==> c in ns;
      FrontierOfAllWithin(cfg, parent, ns[1..]);
    }
  }

  /** For a well-nested tree in which no query captures anything, the
      traversal yields exactly the frontier nodes (leaves and nodes not to be
      recursed into) that overlap the range, in document order, each with its
      decided tag. In particular nothing outside the range is yielded. */
  lemma {:induction false} QuietTraversalTagsVisibleFrontier(h: Highlighter, n: Node, start: Point, end: Point)
    requires RecursionShrinks(h)
    requires WellNested(n) && Quiet(h, n)
    ensures NodesAndTags(h, n, start, end) == TagVisible(h.config, Frontier(h.config, n), start, end)
    decreases Size(n), 1, 0
  {
    if !Overlaps(n, start, end) {
      FrontierWithin(h.config, n);
      forall m | m in Frontier(h.config, n) ensures !Overlaps(m, start, end) {
        if Overlaps(m, start, end) {
          OverlapWidens(m, n, start, end);
        }
      }
      TagVisibleNone(h.config, Frontier(h.config, n), start, end);
    } else if n.kind in h.config.dontRecurseInside || |n.children| == 0 {
    } else {
      QuietChildrenTagVisibleFrontier(h, n.children, start, end);
    }
  }

  lemma {:induction false} QuietChildrenTagVisibleFrontier(h: Highlighter, kids: seq<Node>, start: Point, end: Point)
    requires RecursionShrinks(h)
    requires forall i :: 0 <= i < |kids| ==> WellNested(kids[i]) && Quiet(h, kids[i])
    ensures Children(h, kids, start, end) == TagVisible(h.config, FrontierOfAll(h.config, kids), start, end)
    decreases SizeOfAll(kids), 2, |kids|
  {
    if |kids| > 0 {
      QuietTraversalTagsVisibleFrontier(h, kids[0], start, end);
      QuietChildrenTagVisibleFrontier(h, kids[1..], start, end);
      TagVisibleConcat(h.config, Frontier(h.config, kids[0]), FrontierOfAll(h.config, kids[1..]), start, end);
    }
  }
}
