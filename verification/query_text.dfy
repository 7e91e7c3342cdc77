/** The comment stripper applied to every pattern query before it is compiled.

    The highlighter splits the query text with the regular expression
    `"[^"]*"|"|#.*|[^#"]+`, whose alternatives are tried in that order at every
    position, and keeps every token that does not start with `#`. */
module QueryText {
  import opened Strings

  /** Characters matched by the class `[^#"]`; note that a newline is one of them. */
  predicate IsPlain(c: char) {
    c != '#' && c != '"'
  }

  /** Length of the longest prefix of `s` made of plain characters. */
  function PlainRunLength(s: string): (k: nat)
    ensures k <= |s|
    ensures forall i :: 0 <= i < k ==> IsPlain(s[i])
    ensures k < |s| ==> !IsPlain(s[k])
  {
    if |s| == 0 || !IsPlain(s[0]) then 0
    else 1 + PlainRunLength(s[1..])
  }

  /** Length of the token the tokeniser matches at the start of `s`:
      a quoted run when a closing quote follows, else a lone quote; a comment
      up to (not including) the next newline; else a maximal plain run. */
  function TokenLength(s: string): (k: nat)
    requires |s| > 0
    ensures 0 < k <= |s|
  {
    if s[0] == '"' then
      var close := IndexOf(s[1..], '"');
      if close < |s| - 1 then close + 2 else 1
    else if s[0] == '#' then
      IndexOf(s, '\n')
    else
      PlainRunLength(s)
  }

  /** Concatenation of a sequence of strings. */
  function Concat(ts: seq<string>): string
  {
    if |ts| == 0 then "" else ts[0] + Concat(ts[1..])
  }

  /** The tokens `re.findall` returns, left to right. */
  function Tokens(s: string): (ts: seq<string>)
    ensures Concat(ts) == s
    ensures forall i :: 0 <= i < |ts| ==> |ts[i]| > 0
    decreases |s|
  {
    if |s| == 0 then []
    else
      var k := TokenLength(s);
      assert s == s[..k] + s[k..];
      [s[..k]] + Tokens(s[k..])
  }

  predicate IsComment(t: string) {
    |t| > 0 && t[0] == '#'
  }

  /** Concatenation of the tokens that are not comments. */
  function KeepNonComments(ts: seq<string>): string
  {
    if |ts| == 0 then ""
    else (if IsComment(ts[0]) then "" else ts[0]) + KeepNonComments(ts[1..])
  }

  /** The query text with its comments removed. */
  function StripComments(query: string): string
  {
    KeepNonComments(Tokens(query))
  }

  /** Reference reading of the stripper, one character at a time: outside a
      string, `#` starts a comment that ends before the next newline; a `"` with
      a closing `"` later starts a string that is copied verbatim; a `"` with
      no closing partner is an ordinary character; so is everything else. */
  /** Length of the piece `Scan` consumes first: a comment up to its
      newline, a complete quoted run, or a single character. */
  function Lead(s: string): (k: nat)
    requires |s| > 0
    ensures 0 < k <= |s|
  {
    if s[0] == '#' then IndexOf(s, '\n')
    else if s[0] == '"' && IndexOf(s[1..], '"') < |s| - 1 then IndexOf(s[1..], '"') + 2
    else 1
  }

  function Scan(s: string): string
    decreases |s|
  {
    if |s| == 0 then ""
    else if s[0] == '#' then Scan(s[Lead(s)..])
    else s[..Lead(s)] + Scan(s[Lead(s)..])
  }

  /** A complete double-quoted run: quote, no quotes, quote. */
  predicate IsQuotedRun(q: string) {
    && |q| >= 2
    && q[0] == '"' && q[|q| - 1] == '"'
    && forall i :: 0 < i < |q| - 1 ==> q[i] != '"'
  }

  /** A comment: `#` followed by anything but a newline. */
  predicate IsCommentRun(c: string) {
    |c| > 0 && c[0] == '#' && forall i :: 0 <= i < |c| ==> c[i] != '\n'
  }

  // ---------------------------------------------------------------------
  // The tokeniser agrees with the character-level reference.

  lemma {:induction false} ScanPlainRun(s: string, k: nat)
    requires k <= |s|
    requires forall i :: 0 <= i < k ==> IsPlain(s[i])
    ensures Scan(s) == s[..k] + Scan(s[k..])
    decreases k
  {
    if k > 0 {
      assert IsPlain(s[0]);
      ScanStep(s);
      ScanPlainRun(s[1..], k - 1);
      assert s[1..][k - 1..] == s[k..];
      assert s[..k] == s[..1] + s[1..][..k - 1];
    }
  }

  lemma {:induction false} StripIsScan(s: string)
    ensures StripComments(s) == Scan(s)
    decreases |s|
  {
    if |s| > 0 {
      var k := TokenLength(s);
      assert Tokens(s) == [s[..k]] + Tokens(s[k..]);
      assert StripComments(s) == (if IsComment(s[..k]) then "" else s[..k]) + StripComments(s[k..]);
      StripIsScan(s[k..]);
      if s[0] == '"' {
        if IndexOf(s[1..], '"') < |s| - 1 {
        } else {
          assert k == 1;
          assert s[..1] == [s[0]];
        }
      } else if s[0] == '#' {
      } else {
        ScanPlainRun(s, k);
      }
    }
  }

  // ---------------------------------------------------------------------
  // Behaviour of the reference on one leading piece.

  /** One step of `Scan`: a leading comment is dropped, any other leading
      piece is kept verbatim, and the rest is scanned on its own. */
  lemma ScanStep(s: string)
    requires |s| > 0
    ensures var k := Lead(s);
      && (s[0] == '#' ==> IsCommentRun(s[..k]) && Scan(s) == Scan(s[k..]))
      && (s[0] != '#' ==> Scan(s) == s[..k] + Scan(s[k..]))
      && (s[0] == '"' && k > 1 ==> IsQuotedRun(s[..k]))
      && (s[0] == '"' && k == 1 ==> '"' !in s[1..])
  {
    if s[0] == '#' {
      CommentLead(s);
    } else if s[0] == '"' && IndexOf(s[1..], '"') < |s| - 1 {
      QuotedLead(s);
    } else if s[0] == '"' {
      LoneQuoteLead(s);
    }
  }

  lemma CommentLead(s: string)
    requires |s| > 0 && s[0] == '#'
    ensures IsCommentRun(s[..Lead(s)])
  {
  }

  lemma LoneQuoteLead(s: string)
    requires |s| > 0 && s[0] == '"' && IndexOf(s[1..], '"') >= |s| - 1
    ensures Lead(s) == 1 && '"' !in s[1..]
  {
    assert IndexOf(s[1..], '"') == |s[1..]|;
  }

  lemma SplitMultiset(s: string, k: nat)
    requires k <= |s|
    ensures multiset(s) == multiset(s[..k]) + multiset(s[k..])
  {
    assert s == s[..k] + s[k..];
  }

  lemma Rejoin(s: string, k: nat)
    requires k <= |s|
    ensures s[..k] + s[k..] == s
  {
  }

  lemma NotInSuffix(s: string, k: nat, c: char)
    requires k <= |s| && c !in s
    ensures c !in s[k..]
  {
    forall i | 0 <= i < |s[k..]| ensures s[k..][i] != c {
      assert s[k..][i] == s[k + i];
    }
  }

  lemma QuotedLead(s: string)
    requires |s| > 0 && s[0] == '"' && IndexOf(s[1..], '"') < |s| - 1
    ensures Lead(s) > 1 && IsQuotedRun(s[..Lead(s)])
  {
    var q := s[..Lead(s)];
    forall i | 0 < i < |q| - 1 ensures q[i] != '"' {
      assert q[i] == s[1..][i - 1];
    }
  }

  lemma ScanQuotedPrefix(q: string, rest: string)
    requires IsQuotedRun(q)
    ensures Scan(q + rest) == q + Scan(rest)
  {
    var s := q + rest;
    assert s[1..][|q| - 2] == '"';
    assert forall i :: 0 <= i < |q| - 2 ==> s[1..][i] == q[i + 1];
    assert IndexOf(s[1..], '"') == |q| - 2;
    assert s[..|q|] == q;
    assert s[|q|..] == rest;
  }

  lemma ScanCommentPrefix(c: string, rest: string)
    requires IsCommentRun(c)
    requires |rest| == 0 || rest[0] == '\n'
    ensures Scan(c + rest) == Scan(rest)
  {
    var s := c + rest;
    assert forall i :: 0 <= i < |c| ==> s[i] == c[i];
    assert |rest| > 0 ==> s[|c|] == rest[0];
    assert IndexOf(s, '\n') == |c|;
    assert s[|c|..] == rest;
    assert s[0] == '#';
  }

  lemma ScanLoneQuote(rest: string)
    requires '"' !in rest
    ensures Scan("\"" + rest) == "\"" + Scan(rest)
  {
    var s := "\"" + rest;
    assert s[1..] == rest;
    assert forall i :: 0 <= i < |rest| ==> rest[i] in rest;
    assert IndexOf(rest, '"') == |rest|;
  }

  lemma ScanPlainChar(c: char, rest: string)
    requires IsPlain(c)
    ensures Scan([c] + rest) == [c] + Scan(rest)
  {
    assert ([c] + rest)[1..] == rest;
  }

  /** Every character of the reference's output occurs in its input. */
  lemma {:induction false} ScanDrawsFromInput(s: string)
    ensures forall c :: c in Scan(s) ==> c in s
    decreases |s|
  {
    if |s| > 0 {
      var k := Lead(s);
      ScanStep(s);
      ScanDrawsFromInput(s[k..]);
      assert forall c :: c in s[k..] ==> c in s;
      assert forall c :: c in s[..k] ==> c in s;
    }
  }

  // ---------------------------------------------------------------------
  // Properties of the stripper itself.

  /** A complete quoted run is kept verbatim, `#` characters inside it included. */
  lemma KeepsQuotedRun(q: string, rest: string)
    requires IsQuotedRun(q)
    ensures StripComments(q + rest) == q + StripComments(rest)
  {
    StripIsScan(q + rest);
    StripIsScan(rest);
    ScanQuotedPrefix(q, rest);
  }

  /** An unquoted `#` and everything after it up to, but not including, the
      next newline is dropped. */
  lemma DropsComment(c: string, rest: string)
    requires IsCommentRun(c)
    requires |rest| == 0 || rest[0] == '\n'
    ensures StripComments(c + rest) == StripComments(rest)
  {
    StripIsScan(c + rest);
    StripIsScan(rest);
    ScanCommentPrefix(c, rest);
  }

  /** A quote with no partner later in the text is kept, not closed or removed. */
  lemma KeepsUnmatchedQuote(rest: string)
    requires '"' !in rest
    ensures StripComments("\"" + rest) == "\"" + StripComments(rest)
  {
    StripIsScan("\"" + rest);
    StripIsScan(rest);
    ScanLoneQuote(rest);
  }

  /** Every other character is kept, in order. */
  lemma KeepsPlainChar(c: char, rest: string)
    requires IsPlain(c)
    ensures StripComments([c] + rest) == [c] + StripComments(rest)
  {
    StripIsScan([c] + rest);
    StripIsScan(rest);
    ScanPlainChar(c, rest);
  }

  /** A query without `#` passes through unchanged. */
  lemma {:induction false} NoHashUnchanged(s: string)
    requires '#' !in s
    ensures StripComments(s) == s
  {
    StripIsScan(s);
    ScanNoHash(s);
  }

  lemma {:induction false} ScanNoHash(s: string)
    requires '#' !in s
    ensures Scan(s) == s
    decreases |s|
  {
    if |s| > 0 {
      var k := Lead(s);
      ScanStep(s);
      NotInSuffix(s, k, '#');
      ScanNoHash(s[k..]);
      Rejoin(s, k);
    }
  }

  /** Stripping twice is the same as stripping once. */
  lemma {:induction false} StripIdempotent(s: string)
    ensures StripComments(StripComments(s)) == StripComments(s)
  {
    StripIsScan(s);
    StripIsScan(Scan(s));
    ScanIdempotent(s);
  }

  lemma {:induction false} ScanIdempotent(s: string)
    ensures Scan(Scan(s)) == Scan(s)
    decreases |s|
  {
    if |s| > 0 {
      var k := Lead(s);
      ScanStep(s);
      ScanIdempotent(s[k..]);
      if s[0] == '#' {
      } else if s[0] == '"' && k > 1 {
        ScanQuotedPrefix(s[..k], Scan(s[k..]));
      } else if s[0] == '"' {
        ScanDrawsFromInput(s[1..]);
        ScanLoneQuote(Scan(s[1..]));
      } else {
        ScanPlainChar(s[0], Scan(s[1..]));
      }
    }
  }

  /** Comments never swallow a line break, so the stripped query has the same
      lines as the original and compile errors point at the right line. */
  lemma {:induction false} StripKeepsLineBreaks(s: string)
    ensures multiset(StripComments(s))['\n'] == multiset(s)['\n']
  {
    StripIsScan(s);
    ScanKeepsLineBreaks(s);
  }

  lemma {:induction false} ScanKeepsLineBreaks(s: string)
    ensures multiset(Scan(s))['\n'] == multiset(s)['\n']
    decreases |s|
  {
    if |s| > 0 {
      var k := Lead(s);
      ScanStep(s);
      ScanKeepsLineBreaks(s[k..]);
      SplitMultiset(s, k);
      if s[0] == '#' {
        assert '\n' !in s[..k];
      } else {
        assert multiset(Scan(s)) == multiset(s[..k]) + multiset(Scan(s[k..]));
      }
    }
  }
}
