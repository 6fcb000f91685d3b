/** The single-token rule: where, inside a token's leading trivia, an
    indentation list is inserted. */
module TokenIndentation {
  import opened Syntax

  /** The index of the last item of a trivia list that is a newline or has
      structure, or None when there is no such item. */
  function LastNewLineOrStructure(s: seq<Trivia>): (r: Option<nat>)
    ensures r.Some? ==> r.value < |s| && IsNewLineOrStructure(s[r.value])
    ensures r.Some? ==> forall j :: r.value < j < |s| ==> !IsNewLineOrStructure(s[j])
    ensures r.None? <==> !HasNewLineOrStructure(s)
  {
    if |s| == 0 then None
    else if IsNewLineOrStructure(s[|s| - 1]) then Some(|s| - 1)
    else
      var r := LastNewLineOrStructure(s[..|s| - 1]);
      assert forall j :: 0 <= j < |s| - 1 ==> s[..|s| - 1][j] == s[j];
      r
  }

  /** Where the indentation goes: just after the last newline or structured
      item, or at the front when there is none. */
  function InsertionPoint(leading: seq<Trivia>): (p: nat)
    ensures p <= |leading|
    ensures p == 0 <==> !HasNewLineOrStructure(leading)
    ensures p > 0 ==> IsNewLineOrStructure(leading[p - 1])
    ensures forall j :: p <= j < |leading| ==> !IsNewLineOrStructure(leading[j])
  {
    match LastNewLineOrStructure(leading)
    case Some(i) => i + 1
    case None => 0
  }

  /** The leading trivia after indentation: the original items up to the
      insertion point, the indentation, then the remaining original items. */
  function IndentLeadingTrivia(leading: seq<Trivia>, indentation: seq<Trivia>): (r: seq<Trivia>)
    ensures |r| == |leading| + |indentation|
    ensures var p := InsertionPoint(leading);
      && r[..p] == leading[..p]
      && r[p..p + |indentation|] == indentation
      && r[p + |indentation|..] == leading[p..]
  {
    match LastNewLineOrStructure(leading)
    case Some(i) => leading[..i + 1] + indentation + leading[i + 1..]
    case None => indentation + leading
  }

  /** Indents one token. Only its leading trivia changes. */
  function Indent(token: Token, indentation: seq<Trivia>): (r: Token)
    ensures r.text == token.text && r.trailing == token.trailing
  {
    token.(leading := IndentLeadingTrivia(token.leading, indentation))
  }

  /** When the leading trivia holds a newline or structured item, the
      indentation goes right after the last such item. */
  lemma IndentAfterLastNewLineOrStructure(leading: seq<Trivia>, indentation: seq<Trivia>, i: nat)
    requires i < |leading| && IsNewLineOrStructure(leading[i])
    requires forall j :: i < j < |leading| ==> !IsNewLineOrStructure(leading[j])
    ensures IndentLeadingTrivia(leading, indentation) == leading[..i + 1] + indentation + leading[i + 1..]
    ensures InsertionPoint(leading) == i + 1
  {
  }

  /** When the leading trivia holds no newline and no structured item (in
      particular when it is empty), the indentation goes in front of it. */
  lemma IndentWithoutNewLineOrStructure(leading: seq<Trivia>, indentation: seq<Trivia>)
    requires forall j :: 0 <= j < |leading| ==> !IsNewLineOrStructure(leading[j])
    ensures IndentLeadingTrivia(leading, indentation) == indentation + leading
    ensures InsertionPoint(leading) == 0
  {
  }

  /** Indentation inserts the indentation list once, at the insertion
      point, and removing it gives back the original trivia in order. */
  lemma IndentInsertsOnce(leading: seq<Trivia>, indentation: seq<Trivia>)
    ensures var r, p := IndentLeadingTrivia(leading, indentation), InsertionPoint(leading);
      && |r| == |leading| + |indentation|
      && r[..p] == leading[..p]
      && r[p..p + |indentation|] == indentation
      && r[p + |indentation|..] == leading[p..]
      && r[..p] + r[p + |indentation|..] == leading
      && multiset(r) == multiset(leading) + multiset(indentation)
  {
    var p := InsertionPoint(leading);
    IndentAtInsertionPoint(leading, indentation);
    assert leading == leading[..p] + leading[p..];
  }

  /** Indenting with an empty list gives back the token unchanged. */
  lemma IndentEmptyIsIdentity(token: Token)
    ensures Indent(token, []) == token
  {
  }

  /** Indentation adds exactly the indentation's newlines to the token. */
  lemma {:induction false} IndentNewLineCount(token: Token, indentation: seq<Trivia>)
    ensures TokenNewLineCount(Indent(token, indentation))
         == TokenNewLineCount(token) + NewLineCount(indentation)
  {
    var l, p := token.leading, InsertionPoint(token.leading);
    assert IndentLeadingTrivia(l, indentation) == l[..p] + indentation + l[p..];
    NewLineCountAppend(l[..p] + indentation, l[p..]);
    NewLineCountAppend(l[..p], indentation);
    NewLineCountAppend(l[..p], l[p..]);
    assert l[..p] + l[p..] == l;
  }

  /** An indentation list without newlines adds no newline to the
      leading trivia, and removes none. */
  lemma IndentKeepsNewLines(leading: seq<Trivia>, indentation: seq<Trivia>)
    requires !HasNewLine(indentation)
    ensures HasNewLine(IndentLeadingTrivia(leading, indentation)) <==> HasNewLine(leading)
  {
    var t := Token([], leading, []);
    IndentNewLineCount(t, indentation);
    NewLineCountPositive(indentation);
    NewLineCountPositive(leading);
    NewLineCountPositive(IndentLeadingTrivia(leading, indentation));
  }

  /** Both branches of the rule insert at the insertion point. */
  lemma IndentAtInsertionPoint(leading: seq<Trivia>, indentation: seq<Trivia>)
    ensures var p := InsertionPoint(leading);
      IndentLeadingTrivia(leading, indentation) == leading[..p] + indentation + leading[p..]
  {
  }

  /** An indentation list without newlines or structured items leaves the
      insertion point where it was. */
  lemma InsertionPointAfterIndent(leading: seq<Trivia>, indentation: seq<Trivia>)
    requires !HasNewLineOrStructure(indentation)
    ensures InsertionPoint(IndentLeadingTrivia(leading, indentation)) == InsertionPoint(leading)
  {
  }

  /** Indenting twice inserts the indentation twice, side by side at the
      same point: indentation accumulates and is never deduplicated. */
  lemma IndentTwice(leading: seq<Trivia>, indentation: seq<Trivia>)
    requires !HasNewLineOrStructure(indentation)
    ensures var p := InsertionPoint(leading);
      IndentLeadingTrivia(IndentLeadingTrivia(leading, indentation), indentation)
        == leading[..p] + indentation + indentation + leading[p..]
  {
    var p := InsertionPoint(leading);
    var once := IndentLeadingTrivia(leading, indentation);
    IndentAtInsertionPoint(leading, indentation);
    InsertionPointAfterIndent(leading, indentation);
    IndentAtInsertionPoint(once, indentation);
    assert once[..p] == leading[..p];
    assert once[p..] == indentation + leading[p..];
  }

  /** A token with one space before it on its own line: the indentation
      goes in front of the space. */
  lemma IndentSameLineExample(indentation: seq<Trivia>)
    ensures IndentLeadingTrivia([Whitespace(" ")], indentation) == indentation + [Whitespace(" ")]
  {
  }

  /** A token after a newline and two spaces: the indentation goes right
      after the newline. */
  lemma IndentAfterNewLineExample(indentation: seq<Trivia>)
    ensures IndentLeadingTrivia([EndOfLine("\n"), Whitespace("  ")], indentation)
         == [EndOfLine("\n")] + indentation + [Whitespace("  ")]
  {
  }
}
