/** Worked examples of the highlighter model on concrete inputs. */
module Scenarios {
  import opened Tree
  import opened TagRules
  import opened Traversal

  // `x = 1` as a Python grammar would parse it.
  const X: Node := Node("identifier", "x", Point(0, 0), Point(0, 1), [])
  const Equals: Node := Node("=", "=", Point(0, 2), Point(0, 3), [])
  const One: Node := Node("integer", "1", Point(0, 4), Point(0, 5), [])
  const Assignment: Node := Node("assignment", "x = 1", Point(0, 0), Point(0, 5), [X, Equals, One])

  /** Only `identifier` is mapped; there are no queries. */
  const NameOnly: Highlighter :=
    Highlighter(Config(map["identifier" := Plain("Token.Name")], [], map[]), map[], (q: string, n: Node) => [])

  lemma NameOnlyShrinks()
    ensures RecursionShrinks(NameOnly)
  {
  }

  lemma EqualsIsOperator()
    ensures IsOperatorKind(Equals.kind)
  {
    assert OperatorChars[13] == '=';
  }

  lemma IntegerIsNotOperator()
    ensures !IsOperatorKind(One.kind)
  {
    assert One.kind[0] == 'i';
    assert 'i' !in OperatorChars;
  }

  /** `x = 1` with only `identifier` mapped: the identifier gets its mapped
      tag, `=` the operator default and the unmapped `integer` plain text. */
  lemma AssignmentIsTagged()
    ensures RecursionShrinks(NameOnly)
    ensures NodesAndTags(NameOnly, Assignment, Point(0, 0), Point(1, 0))
         == [Tagged(X, "Token.Name"), Tagged(Equals, "Token.Operator"), Tagged(One, "Token.Text")]
  {
    NameOnlyShrinks();
    var h, s, e := NameOnly, Point(0, 0), Point(1, 0);
    assert NodesAndTags(h, X, s, e) == [Tagged(X, "Token.Name")];
    EqualsIsOperator();
    assert NodesAndTags(h, Equals, s, e) == [Tagged(Equals, "Token.Operator")];
    IntegerIsNotOperator();
    assert NodesAndTags(h, One, s, e) == [Tagged(One, "Token.Text")];
    assert Assignment.children[1..] == [Equals, One];
    assert [Equals, One][1..] == [One];
    assert Children(h, [One], s, e) == [Tagged(One, "Token.Text")];
    assert Children(h, [Equals, One], s, e) == [Tagged(Equals, "Token.Operator"), Tagged(One, "Token.Text")];
    assert Children(h, Assignment.children, s, e)
        == [Tagged(X, "Token.Name"), Tagged(Equals, "Token.Operator"), Tagged(One, "Token.Text")];
  }

  /** A span outside the visible range is skipped together with its subtree. */
  lemma OffscreenSubtreeSkipped()
    ensures RecursionShrinks(NameOnly)
    ensures
      var leaf := Node("identifier", "y", Point(40, 4), Point(40, 5), []);
      var block := Node("block", "{ y }", Point(40, 0), Point(41, 1), [leaf]);
      NodesAndTags(NameOnly, block, Point(0, 0), Point(30, 0)) == []
  {
  }
}
