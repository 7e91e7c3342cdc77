/** The per-language tagging rules (`YmlConfig`) and the default-tag resolver. */
module TagRules {
  import opened Wrappers
  import opened Tree
  import opened QueryText

  /** A `token_mapping` value: a tag, or a table from the node's exact text to
      a tag in which the key `""` is the table's own fallback. */
  datatype MappingValue = Plain(tag: string) | ByText(byText: map<string, string>)

  /** An already-validated per-language configuration. `queries` maps a node
      type to the source text of its pattern query. */
  datatype Config = Config(
    tokenMapping: map<string, MappingValue>,
    dontRecurseInside: seq<string>,
    queries: map<string, string>)

  const OperatorChars: string := "+-*/%~&|^!?<>=@.,:;()[]{}"
  const OperatorTag: string := "Token.Operator"
  const TextTag: string := "Token.Text"

  /** Every character of the node type is punctuation (vacuously so for the
      empty type, as with Python's `set("") <= ...`). */
  predicate IsOperatorKind(kind: string) {
    forall i :: 0 <= i < |kind| ==> kind[i] in OperatorChars
  }

  /** The structural default tag of a node type. */
  function StructuralDefault(kind: string): string
  {
    if IsOperatorKind(kind) then OperatorTag else TextTag
  }

  /** The tag a node gets when the traversal tags it as a leaf. */
  function DecideTag(cfg: Config, n: Node): (tag: string)
    ensures n.kind !in cfg.tokenMapping ==>
      (tag == OperatorTag <==> IsOperatorKind(n.kind)) && (tag == OperatorTag || tag == TextTag)
    ensures n.kind in cfg.tokenMapping && cfg.tokenMapping[n.kind].Plain? ==>
      tag == cfg.tokenMapping[n.kind].tag
    ensures n.kind in cfg.tokenMapping && cfg.tokenMapping[n.kind].ByText? ==>
      var table := cfg.tokenMapping[n.kind].byText;
      && (n.text in table ==> tag == table[n.text])
      && (n.text !in table && "" in table ==> tag == table[""])
      && (n.text !in table && "" !in table ==> tag == StructuralDefault(n.kind))
  {
    var default := StructuralDefault(n.kind);
    if n.kind !in cfg.tokenMapping then default
    else match cfg.tokenMapping[n.kind]
      case Plain(t) => t
      case ByText(table) =>
        var fallback := if "" in table then table[""] else default;
        if n.text in table then table[n.text] else fallback
  }

  /** `tag` appears somewhere in the configuration's `token_mapping`. */
  predicate IsConfiguredTag(cfg: Config, tag: string) {
    exists kind :: kind in cfg.tokenMapping &&
      (cfg.tokenMapping[kind] == Plain(tag) ||
       (cfg.tokenMapping[kind].ByText? && tag in cfg.tokenMapping[kind].byText.Values))
  }

  /** The resolver never invents a tag: it returns one of the two structural
      defaults or a tag written in the configuration. */
  lemma DecidedTagIsKnown(cfg: Config, n: Node)
    ensures var tag := DecideTag(cfg, n);
      tag == OperatorTag || tag == TextTag || IsConfiguredTag(cfg, tag)
  {
    var tag := DecideTag(cfg, n);
    if n.kind in cfg.tokenMapping {
      match cfg.tokenMapping[n.kind]
      case Plain(t) =>
      case ByText(table) =>
        if n.text in table {
          assert table[n.text] in table.Values;
        } else if "" in table {
          assert table[""] in table.Values;
        }
    }
  }

  /** Query compilation at start-up: every query is stripped of comments and
      compiled once; one query that does not compile makes the whole setup
      fail. A compiled query is represented by its stripped text. */
  function CompileQueries(queries: map<string, string>, compiles: string -> bool): (r: Option<map<string, string>>)
    ensures r.Some? <==> forall kind :: kind in queries ==> compiles(StripComments(queries[kind]))
    ensures r.Some? ==> r.value.Keys == queries.Keys
    ensures r.Some? ==> forall kind :: kind in r.value ==> r.value[kind] == StripComments(queries[kind])
  {
    if forall kind :: kind in queries ==> compiles(StripComments(queries[kind])) then
      Some(map kind | kind in queries :: StripComments(queries[kind]))
    else
      None
  }

  /** Compiled queries are already free of comments: stripping them again
      changes nothing, and each keeps the line breaks of its source text. */
  lemma CompiledQueriesAreStripped(queries: map<string, string>, compiles: string -> bool)
    requires CompileQueries(queries, compiles).Some?
    ensures var compiled := CompileQueries(queries, compiles).value;
      forall kind :: kind in compiled ==>
        && StripComments(compiled[kind]) == compiled[kind]
        && multiset(compiled[kind])['\n'] == multiset(queries[kind])['\n']
  {
    var compiled := CompileQueries(queries, compiles).value;
    forall kind | kind in compiled
      ensures StripComments(compiled[kind]) == compiled[kind]
      ensures multiset(compiled[kind])['\n'] == multiset(queries[kind])['\n']
    {
      StripIdempotent(queries[kind]);
      StripKeepsLineBreaks(queries[kind]);
    }
  }
}
