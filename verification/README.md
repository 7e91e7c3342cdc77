# Tree-sitter highlighter of Porcupine, modelled in Dafny

This project models the core of Porcupine's tree-sitter syntax highlighter
(`porcupine/plugins/highlight/tree_sitter_highlighter.py`):

- the comment stripper applied to pattern queries before compilation (`QueryText`);
- the per-language tagging rules (`YmlConfig`) and the default-tag resolver
  `_decide_tag` (`TagRules`);
- the range-limited traversal `_get_nodes_and_tags` with its `"recurse"`
  protocol, as a pure function over an immutable tree (`Tree`, `Traversal`);
- the same traversal driven by a tree-sitter cursor, proved to compute the
  same pairs and to leave the cursor where it started (`CursorWalk`);
- tk `"line.column"` indices and tree-sitter points (`Coordinates`);
- the one-byte-per-character parser buffer and the edit descriptor built by
  `on_change` (`Edits`);
- the draw commands of `update_tags_of_visible_area_from_tree` (`Session`);
- two worked examples (`Scenarios`).

The query engine of tree-sitter is an abstract function `captures` of a
`Highlighter`: it takes a compiled query (represented by its stripped text)
and a node and returns the captures. The only thing assumed of it is that,
when a query is registered for the node's type, every capture named
`"recurse"` is a node strictly smaller than the node queried
(`RecursionShrinks`); without this the highlighter would recurse forever.
Tree-sitter only promises that captures lie within the queried node, which
allows the node itself, so strictness is an assumption about the configured
queries, not a guarantee of the engine. `DescendantCapturesShrink` shows
that it holds whenever every `"recurse"` capture is a proper descendant.

Facts about the code that a reader of its comments might not expect:

- The comment on `_get_nodes_and_tags`
  (`tree_sitter_highlighter.py:86`) says it only returns nodes that overlap
  the range, but direct (non-`"recurse"`) query captures are yielded without
  a range check (lines 111-115), so a traversal can yield captured nodes
  outside the visible range. The model follows the code. Pruning holds for
  the node being visited (`NodesAndTags` yields nothing for a node that
  misses the range), and for trees without matching queries every yielded
  node overlaps the range (`QuietTraversalTagsVisibleFrontier`).
- A comment in a query runs up to, not including, the next newline, because
  the regular expression's `.` does not match a newline (line 38).
- The fallback of a by-text mapping is its `""` key (lines 80-81).
- The stripper is a regular-expression tokeniser (lines 38-39), modelled as
  `QueryText.StripComments`; the character-by-character reading
  `QueryText.Scan` is a reference definition, proved equal to it.

## Model

| member | source | states |
|---|---|---|
| QueryText.Tokens | porcupine/plugins/highlight/tree_sitter_highlighter.py:38 | the tokens found by the query regex are non-empty and concatenate back to the whole query, so no character is skipped |
| QueryText.StripIsScan | porcupine/plugins/highlight/tree_sitter_highlighter.py:34-39 | stripping equals a character-by-character scan: comments skipped to the newline, quoted runs copied whole, everything else copied |
| QueryText.KeepsQuotedRun | porcupine/plugins/highlight/tree_sitter_highlighter.py:35-38 | a complete double-quoted run is kept verbatim, including any `#` inside it |
| QueryText.DropsComment | porcupine/plugins/highlight/tree_sitter_highlighter.py:36-39 | an unquoted `#` and everything after it up to, not including, the next newline is removed |
| QueryText.KeepsUnmatchedQuote | porcupine/plugins/highlight/tree_sitter_highlighter.py:37-38 | a `"` with no partner later in the text is kept as it is, neither removed nor closed |
| QueryText.KeepsPlainChar | porcupine/plugins/highlight/tree_sitter_highlighter.py:38-39 | any character other than `#` and `"` is kept, in order |
| QueryText.NoHashUnchanged | porcupine/plugins/highlight/tree_sitter_highlighter.py:34-39 | a query without `#` is returned unchanged |
| QueryText.StripIdempotent | porcupine/plugins/highlight/tree_sitter_highlighter.py:34-39 | stripping a stripped query changes nothing |
| QueryText.StripKeepsLineBreaks | porcupine/plugins/highlight/tree_sitter_highlighter.py:36-38 | the stripped query has exactly as many newlines as the original |
| Tree.OverlapsIff | porcupine/plugins/highlight/tree_sitter_highlighter.py:94-96 | the max/min overlap test on point tuples holds iff both spans are non-empty and each starts before the other ends |
| TagRules.DecideTag | porcupine/plugins/highlight/tree_sitter_highlighter.py:72-84 | unmapped type: `Token.Operator` exactly when every character is punctuation, else `Token.Text`; plain mapping: its tag; by-text mapping: the exact text's entry, else the `""` entry, else the structural default |
| TagRules.DecidedTagIsKnown | porcupine/plugins/highlight/tree_sitter_highlighter.py:72-84 | the resolver never fails and returns a structural default or a tag written in the configuration |
| TagRules.CompileQueries | porcupine/plugins/highlight/tree_sitter_highlighter.py:55-60 | setup succeeds iff every stripped query compiles; then there is one compiled query per configured node type, made from its stripped text |
| TagRules.CompiledQueriesAreStripped | porcupine/plugins/highlight/tree_sitter_highlighter.py:34-39 | every compiled query text is already comment-free (stripping it again changes nothing) and has as many line breaks as the configured query |
| Traversal.Setup | porcupine/plugins/highlight/tree_sitter_highlighter.py:55-60 | building a highlighter succeeds iff every stripped query compiles, and then its query table is exactly the compiled table and its configuration the loaded one |
| Traversal.NodesAndTags | porcupine/plugins/highlight/tree_sitter_highlighter.py:94-98 | a node whose span misses the range yields nothing and none of its descendants is visited |
| Traversal.DescendantCapturesShrink | porcupine/plugins/highlight/tree_sitter_highlighter.py:117-122 | captures that are proper descendants of the queried node make the recursion terminate |
| Traversal.CapturesFirst | porcupine/plugins/highlight/tree_sitter_highlighter.py:100-123 | with non-empty captures: exactly the direct captures in capture order, then the `"recurse"` part, whose first pair is the first recurse marker; nothing else about the node |
| Traversal.RecurseMarkerPrecedesSubtree | porcupine/plugins/highlight/tree_sitter_highlighter.py:117-122 | each `"recurse"` subnode, in order, is yielded as a marker immediately followed by that subnode's traversal |
| Traversal.OnlyDirectCapturesYieldedAsIs | porcupine/plugins/highlight/tree_sitter_highlighter.py:109-115 | when no capture is `"recurse"`, the node yields exactly its captures |
| Traversal.QueryMissFallsThrough | porcupine/plugins/highlight/tree_sitter_highlighter.py:100-131 | no query or empty captures: the node is treated as without query; a childless or `dont_recurse_inside` node yields one pair `(node, decided tag)`, any other node its children's traversals |
| Traversal.ChildrenConcat | porcupine/plugins/highlight/tree_sitter_highlighter.py:125-129 | children's traversals are concatenated left to right |
| Traversal.QuietTraversalTagsVisibleFrontier | porcupine/plugins/highlight/tree_sitter_highlighter.py:87-131 | for a well-nested tree without matching queries, the pairs are exactly the frontier nodes overlapping the range, in document order, each with its decided tag |
| CursorWalk.Walk | porcupine/plugins/highlight/tree_sitter_highlighter.py:87-131 | the cursor-driven traversal yields the same pairs as the functional one and leaves the cursor on the node it started on |
| CursorWalk.SplitCaptures | porcupine/plugins/highlight/tree_sitter_highlighter.py:110-115 | the first capture loop collects the direct captures and the recurse subnodes, both in capture order |
| CursorWalk.RecurseEach | porcupine/plugins/highlight/tree_sitter_highlighter.py:117-122 | the second loop yields marker-then-traversal for each recurse subnode, using a fresh cursor on it |
| CursorWalk.WalkChildren | porcupine/plugins/highlight/tree_sitter_highlighter.py:125-129 | first child, next siblings, parent: the children's traversals in order, cursor restored |
| Coordinates.ToTk | porcupine/plugins/highlight/tree_sitter_highlighter.py:147-150 | converting a point to a tk index (row + 1) and back gives the point |
| Coordinates.TkRoundTrip | porcupine/plugins/highlight/tree_sitter_highlighter.py:139-142 | converting a tk index to a point (line - 1) and back gives the index |
| Coordinates.ParseIndex | porcupine/plugins/highlight/tree_sitter_highlighter.py:139-140 | a tk index string is accepted only with exactly one dot |
| Coordinates.IndexRoundTrip | porcupine/plugins/highlight/tree_sitter_highlighter.py:139-150 | an index formatted as `f"{line}.{column}"` parses back to the same index |
| Coordinates.PointRoundTrip | porcupine/plugins/highlight/tree_sitter_highlighter.py:141-150 | a node's point written as a tk index string reads back as the same point |
| Edits.Project | porcupine/plugins/highlight/tree_sitter_highlighter.py:62-70 | the parser buffer has exactly one byte per character |
| Edits.ProjectBytes | porcupine/plugins/highlight/tree_sitter_highlighter.py:66-70 | each ASCII character becomes its own byte and every other character becomes `?` |
| Edits.ByteOffsetIsCharOffset | porcupine/plugins/highlight/tree_sitter_highlighter.py:62-70 | the bytes before character `k` are the projection of the first `k` characters |
| Edits.AsciiSurvives | porcupine/plugins/highlight/tree_sitter_highlighter.py:69-70 | ASCII text is recovered unchanged from the buffer |
| Edits.PlanReparse | porcupine/plugins/highlight/tree_sitter_highlighter.py:161-185 | no change: nothing; two or more: full reparse; exactly one: an edit whose byte extents are the old and new text lengths and whose points are the tk positions one row lower |
| Edits.DescriptorMatchesBuffers | porcupine/plugins/highlight/tree_sitter_highlighter.py:174-185 | the descriptor describes the byte change exactly: same prefix, old text then new text at the start byte, same suffix after the old and new ends |
| Edits.SingleInsertion | porcupine/plugins/highlight/tree_sitter_highlighter.py:169-184 | typing one character gives an empty old range and a one-byte new range |
| Session.UpdateVisibleTags | porcupine/plugins/highlight/tree_sitter_highlighter.py:137-146 | retagging fails iff a visible-range index is malformed, and otherwise starts by clearing the visible range |
| Session.CommandsFollowPairs | porcupine/plugins/highlight/tree_sitter_highlighter.py:146-155 | one command per pair in traversal order: delete for a `"recurse"` marker, else add the pair's tag, over index strings that read back as the node's own points |
| Scenarios.AssignmentIsTagged | porcupine/plugins/highlight/tree_sitter_highlighter.py:72-131 | `x = 1` with only `identifier` mapped yields `Token.Name`, `Token.Operator`, `Token.Text` |
| Scenarios.OffscreenSubtreeSkipped | porcupine/plugins/highlight/tree_sitter_highlighter.py:94-98 | a subtree below the visible range yields nothing |

## Left out

- The tree-sitter library: `parse`, `Tree.edit`, incremental reparsing and query compilation and evaluation are foreign code. Query evaluation is the abstract `captures` function, and whether a stripped query compiles is the abstract `compiles` predicate. Whether incremental and full parsing agree is not modelled.
- The tk widget calls `get`, `tag_add`, `delete_tags`, `count -chars` and `get_visible_part` are host I/O. The character count before a change is the `startByte` input, the visible range is given as its two index strings, and drawing is a returned list of commands.
- YAML and dacite loading of the configuration file, file I/O and the `ConfigError` path: the model starts from an already-validated `Config`.
- Node text is a string. In the source it is the node's bytes from the projected buffer, decoded as UTF-8.
- Laziness: the generator is modelled as the full sequence it produces. Its consumer always drains it.
- `on_scroll` is `UpdateVisibleTags` unchanged. Logging is omitted.
- `porcupine/plugins/check_update.py` and its test: a network request plus a window-title side effect, outside the highlighter.
- `porcupine/plugins/windowicon.py` and `porcupine/plugins/q_to_quit.py`: window chrome and settings registration, with no logic.
- Traversal.NodesAndTags: requires every `"recurse"` capture to be strictly smaller than the node queried. A query that captures its own node as `"recurse"` makes the source recurse until Python raises `RecursionError`; that outcome is not modelled.
- Coordinates.ParseIndex: each side is read as an optional sign followed by ASCII digits. Python's `int` also accepts surrounding whitespace, underscores and non-ASCII digits; tk never produces those in an index.
