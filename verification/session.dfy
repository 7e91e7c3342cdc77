/** Retagging the visible area (`update_tags_of_visible_area_from_tree`): the
    draw commands the highlighter sends to the text widget. */
module Session {
  import opened Wrappers
  import opened Tree
  import opened Traversal
  import opened Coordinates

  /** `delete_tags(from, to)` or `tag_add(tag, from, to)`, with tk index strings. */
  datatype Command = DeleteTags(from: string, to: string) | AddTag(tag: string, from: string, to: string)

  /** The command for one traversal pair: a `"recurse"` marker clears the
      node's range, any other tag is added over it. */
  function PairCommand(p: Tagged): Command
  {
    var from := FormatIndex(ToTk(p.node.start));
    var to := FormatIndex(ToTk(p.node.end));
    if p.tag == RecurseMarker then DeleteTags(from, to) else AddTag(p.tag, from, to)
  }

  function PairCommands(pairs: seq<Tagged>): (cmds: seq<Command>)
    ensures |cmds| == |pairs|
    ensures forall i :: 0 <= i < |pairs| ==> cmds[i] == PairCommand(pairs[i])
  {
    if |pairs| == 0 then [] else [PairCommand(pairs[0])] + PairCommands(pairs[1..])
  }

  /** The pairs for the visible range `visibleStart`..`visibleEnd` (tk index
      strings), or `None` when either string is not a tk index. */
  function VisiblePairs(h: Highlighter, tree: Node, visibleStart: string, visibleEnd: string): Option<seq<Tagged>>
    requires RecursionShrinks(h)
  {
    match (ParseIndex(visibleStart), ParseIndex(visibleEnd))
    case (Some(s), Some(e)) => Some(NodesAndTags(h, tree, ToPoint(s), ToPoint(e)))
    case _ => None
  }

  /** Clears the visible range, then draws every pair in traversal order. */
  function UpdateVisibleTags(h: Highlighter, tree: Node, visibleStart: string, visibleEnd: string): (r: Option<seq<Command>>)
    requires RecursionShrinks(h)
    ensures r.Some? <==> ParseIndex(visibleStart).Some? && ParseIndex(visibleEnd).Some?
    ensures r.Some? ==> |r.value| > 0 && r.value[0] == DeleteTags(visibleStart, visibleEnd)
  {
    match VisiblePairs(h, tree, visibleStart, visibleEnd)
    case Some(pairs) => Some([DeleteTags(visibleStart, visibleEnd)] + PairCommands(pairs))
    case None => None
  }

  /** After clearing the visible range, command `i + 1` draws pair `i`: it
      deletes tags exactly when the pair is a `"recurse"` marker, otherwise
      adds the pair's tag, and its index strings read back as the node's own
      start and end points. */
  lemma CommandsFollowPairs(h: Highlighter, tree: Node, visibleStart: string, visibleEnd: string, pairs: seq<Tagged>, i: nat)
    requires RecursionShrinks(h)
    requires VisiblePairs(h, tree, visibleStart, visibleEnd) == Some(pairs)
    requires i < |pairs|
    ensures UpdateVisibleTags(h, tree, visibleStart, visibleEnd).Some?
    ensures
      var cmds := UpdateVisibleTags(h, tree, visibleStart, visibleEnd).value;
      && |cmds| == 1 + |pairs|
      && (cmds[i + 1].DeleteTags? <==> pairs[i].tag == RecurseMarker)
      && (cmds[i + 1].AddTag? ==> cmds[i + 1].tag == pairs[i].tag)
      && ParseIndex(cmds[i + 1].from).Some? && ToPoint(ParseIndex(cmds[i + 1].from).value) == pairs[i].node.start
      && ParseIndex(cmds[i + 1].to).Some? && ToPoint(ParseIndex(cmds[i + 1].to).value) == pairs[i].node.end
  {
    var cmds := [DeleteTags(visibleStart, visibleEnd)] + PairCommands(pairs);
    assert UpdateVisibleTags(h, tree, visibleStart, visibleEnd) == Some(cmds);
    assert cmds[i + 1] == PairCommand(pairs[i]);
    PointRoundTrip(pairs[i].node.start);
    PointRoundTrip(pairs[i].node.end);
  }
}
