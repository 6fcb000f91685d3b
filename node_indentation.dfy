/** The node rule: find the first token of every line of a subtree and
    indent each of them once. The subtree is its tokens in document order;
    a token is identified by its index, which the rewrite never moves, so
    the index plays the part of the annotation that re-locates a token in
    each new version of the tree. */
module NodeIndentation {
  import opened Syntax
  import TokenIndentation

  /** Where a trivia item sits: the index of its token, whether it is in the
      leading or the trailing trivia, and its index in that list. */
  datatype TriviaPosition = TriviaPosition(token: nat, inLeading: bool, index: nat)

  /** The trivia list a position refers to. */
  function TriviaListAt(node: seq<Token>, p: TriviaPosition): seq<Trivia>
    requires p.token < |node|
  {
    if p.inLeading then node[p.token].leading else node[p.token].trailing
  }

  /** The position holds an end-of-line trivia item of the subtree. */
  predicate IsEndOfLineAt(node: seq<Token>, p: TriviaPosition) {
    p.token < |node| && p.index < |TriviaListAt(node, p)| && IsNewLine(TriviaListAt(node, p)[p.index])
  }

  /** The indices of the end-of-line items of a trivia list, in increasing
      order. */
  function NewLineIndices(s: seq<Trivia>): (r: seq<nat>)
    ensures forall i: nat :: i in r <==> i < |s| && IsNewLine(s[i])
    ensures forall j, j' :: 0 <= j < j' < |r| ==> r[j] < r[j']
  {
    if |s| == 0 then []
    else
      var r := NewLineIndices(s[..|s| - 1]);
      assert forall i :: 0 <= i < |s| - 1 ==> s[..|s| - 1][i] == s[i];
      assert forall j :: 0 <= j < |r| ==> r[j] in r;
      r + if IsNewLine(s[|s| - 1]) then [|s| - 1] else []
  }

  function PositionsOf(token: nat, inLeading: bool, indices: seq<nat>): seq<TriviaPosition> {
    seq(|indices|, j requires 0 <= j < |indices| => TriviaPosition(token, inLeading, indices[j]))
  }

  /** The positions of the end-of-line items of one trivia list of token k
      are the end-of-line positions of the subtree in that list. */
  lemma PositionsOfNewLines(node: seq<Token>, k: nat, inLeading: bool)
    requires k < |node|
    ensures var s := if inLeading then node[k].leading else node[k].trailing;
      forall p :: p in PositionsOf(k, inLeading, NewLineIndices(s))
        <==> p.token == k && p.inLeading == inLeading && IsEndOfLineAt(node, p)
  {
    var s := if inLeading then node[k].leading else node[k].trailing;
    var indices := NewLineIndices(s);
    var ps := PositionsOf(k, inLeading, indices);
    forall p | p in ps ensures p.token == k && p.inLeading == inLeading && IsEndOfLineAt(node, p) {
      var j :| 0 <= j < |ps| && ps[j] == p;
      assert indices[j] in indices;
    }
    forall p: TriviaPosition | p.token == k && p.inLeading == inLeading && IsEndOfLineAt(node, p) ensures p in ps {
      assert p.index in indices;
      var j :| 0 <= j < |indices| && indices[j] == p.index;
      assert ps[j] == p;
    }
  }

  /** Every end-of-line trivia item of the subtree. */
  function EndOfLineTrivias(node: seq<Token>): (r: seq<TriviaPosition>)
    ensures forall p :: p in r <==> IsEndOfLineAt(node, p)
  {
    if |node| == 0 then []
    else
      var k := |node| - 1;
      var before := EndOfLineTrivias(node[..k]);
      assert forall p: TriviaPosition :: p.token < k ==> (IsEndOfLineAt(node[..k], p) <==> IsEndOfLineAt(node, p)) by {
        forall p: TriviaPosition | p.token < k ensures TriviaListAt(node[..k], p) == TriviaListAt(node, p) {
          assert node[..k][p.token] == node[p.token];
        }
      }
      var leading := PositionsOf(k, true, NewLineIndices(node[k].leading));
      var trailing := PositionsOf(k, false, NewLineIndices(node[k].trailing));
      assert forall p :: p in leading <==> p.token == k && p.inLeading && IsEndOfLineAt(node, p) by {
        PositionsOfNewLines(node, k, true);
      }
      assert forall p :: p in trailing <==> p.token == k && !p.inLeading && IsEndOfLineAt(node, p) by {
        PositionsOfNewLines(node, k, false);
      }
      before + leading + trailing
  }

  /** The token that starts the line following the end-of-line item at p:
      the same token for leading trivia, the next token for trailing
      trivia, and None when there is no next token. */
  function LineStartAfter(node: seq<Token>, p: TriviaPosition): (r: Option<nat>)
    ensures r.None? ==> !p.inLeading && p.token + 1 >= |node|
    ensures IsEndOfLineAt(node, p) && r.Some? ==> IsLineStart(node, r.value)
  {
    if p.inLeading then Some(p.token)
    else if p.token + 1 < |node| then Some(p.token + 1)
    else None
  }

  /** A token starts a line of the subtree when it is the subtree's first
      token, when a newline precedes it in its own leading trivia, or when a
      newline ends the trailing trivia of the token before it. */
  predicate IsLineStart(node: seq<Token>, k: nat) {
    k < |node| && (k == 0 || HasNewLine(node[k].leading) || HasNewLine(node[k - 1].trailing))
  }

  /** The line-start tokens of a list of end-of-line items, dropping the
      items that have none. */
  function LineStartsAfter(node: seq<Token>, eols: seq<TriviaPosition>): (r: seq<nat>)
    requires forall p :: p in eols ==> IsEndOfLineAt(node, p)
    ensures forall k :: k in r ==> IsLineStart(node, k)
    ensures forall p :: p in eols && LineStartAfter(node, p).Some? ==> LineStartAfter(node, p).value in r
  {
    if |eols| == 0 then []
    else
      var last := eols[|eols| - 1];
      var r := LineStartsAfter(node, eols[..|eols| - 1]);
      assert forall p :: p in eols ==> p in eols[..|eols| - 1] || p == last by {
        assert eols == eols[..|eols| - 1] + [last];
      }
      match LineStartAfter(node, last)
      case Some(k) => r + [k]
      case None => r
  }

  /** The elements of s without repetition. */
  function Distinct(s: seq<nat>): (r: seq<nat>)
    ensures forall x :: x in r <==> x in s
    ensures forall i, j :: 0 <= i < j < |r| ==> r[i] != r[j]
  {
    if |s| == 0 then []
    else
      var r := Distinct(s[..|s| - 1]);
      assert forall x :: x in s <==> x in s[..|s| - 1] || x == s[|s| - 1] by {
        assert s == s[..|s| - 1] + [s[|s| - 1]];
      }
      if s[|s| - 1] in r then r else r + [s[|s| - 1]]
  }

  /** The first token of every line of the subtree, and the subtree's own
      first token, each once. */
  function FirstTokensOfLines(node: seq<Token>): (r: seq<nat>)
    ensures forall i :: 0 <= i < |r| ==> r[i] < |node|
    ensures forall i, j :: 0 <= i < j < |r| ==> r[i] != r[j]
  {
    if |node| == 0 then []
    else
      var r := Distinct(LineStartsAfter(node, EndOfLineTrivias(node)) + [0]);
      assert forall i :: 0 <= i < |r| ==> r[i] in r;
      r
  }

  /** Every line-start token other than the first is reached from some
      end-of-line item. */
  lemma LineStartHasEndOfLine(node: seq<Token>, k: nat)
    requires IsLineStart(node, k) && k != 0
    ensures k in LineStartsAfter(node, EndOfLineTrivias(node))
  {
    var p;
    if HasNewLine(node[k].leading) {
      var i :| 0 <= i < |node[k].leading| && IsNewLine(node[k].leading[i]);
      p := TriviaPosition(k, true, i);
    } else {
      var i :| 0 <= i < |node[k - 1].trailing| && IsNewLine(node[k - 1].trailing[i]);
      p := TriviaPosition(k - 1, false, i);
    }
    assert IsEndOfLineAt(node, p);
    assert p in EndOfLineTrivias(node);
    assert LineStartAfter(node, p) == Some(k);
  }

  /** The selection is exactly the line-start tokens. */
  lemma FirstTokensOfLinesAreLineStarts(node: seq<Token>)
    ensures forall k: nat :: k in FirstTokensOfLines(node) <==> IsLineStart(node, k)
  {
    if |node| > 0 {
      var starts := LineStartsAfter(node, EndOfLineTrivias(node));
      assert FirstTokensOfLines(node) == Distinct(starts + [0]);
      forall k: nat | IsLineStart(node, k) && k != 0 ensures k in starts {
        LineStartHasEndOfLine(node, k);
      }
    }
  }

  /** The subtree after indentation: every line-start token indented once,
      every other token as it was. */
  function IndentedNode(node: seq<Token>, indentation: seq<Trivia>): seq<Token> {
    seq(|node|, k requires 0 <= k < |node| =>
      if IsLineStart(node, k) then TokenIndentation.Indent(node[k], indentation) else node[k])
  }

  /** Indents every line of a subtree: selects the line-start tokens, then
      rewrites them one at a time, each rewrite producing the next version
      of the subtree. */
  method Indent(node: seq<Token>, indentation: seq<Trivia>) returns (indented: seq<Token>)
    ensures indented == IndentedNode(node, indentation)
  {
    var firstTokensOfLines := FirstTokensOfLines(node);
    indented := node;
    for i := 0 to |firstTokensOfLines|
      invariant IndentedOnly(node, indentation, firstTokensOfLines[..i], indented)
    {
      var k := firstTokensOfLines[i];
      IndentOneMore(node, indentation, firstTokensOfLines, i, indented);
      indented := indented[k := TokenIndentation.Indent(indented[k], indentation)];
    }
    assert firstTokensOfLines[..|firstTokensOfLines|] == firstTokensOfLines;
    SelectionIndentsLineStarts(node, indentation, indented);
  }

  /** The tokens listed in done, and only they, have been indented. */
  predicate IndentedOnly(node: seq<Token>, indentation: seq<Trivia>, done: seq<nat>, indented: seq<Token>) {
    && |indented| == |node|
    && forall k :: 0 <= k < |node| ==>
      indented[k] == if k in done then TokenIndentation.Indent(node[k], indentation) else node[k]
  }

  /** Indenting the next selected token, not indented yet, extends the
      indented prefix of the selection by one. */
  lemma IndentOneMore(node: seq<Token>, indentation: seq<Trivia>, selection: seq<nat>, i: nat, indented: seq<Token>)
    requires i < |selection| && selection[i] < |node|
    requires forall j, j' :: 0 <= j < j' < |selection| ==> selection[j] != selection[j']
    requires IndentedOnly(node, indentation, selection[..i], indented)
    ensures IndentedOnly(node, indentation, selection[..i + 1],
                         indented[selection[i] := TokenIndentation.Indent(indented[selection[i]], indentation)])
  {
  }

  /** Indenting exactly the selected tokens, each once, gives the indented
      subtree. */
  lemma SelectionIndentsLineStarts(node: seq<Token>, indentation: seq<Trivia>, indented: seq<Token>)
    requires IndentedOnly(node, indentation, FirstTokensOfLines(node), indented)
    ensures indented == IndentedNode(node, indentation)
  {
    FirstTokensOfLinesAreLineStarts(node);
  }

  /** Each line-start token receives the indentation exactly once, at its
      insertion point; every other token is unchanged; no token's text or
      trailing trivia changes. */
  lemma IndentedNodeTokens(node: seq<Token>, indentation: seq<Trivia>, k: nat)
    requires k < |node|
    ensures var r := IndentedNode(node, indentation);
      var l, p := node[k].leading, TokenIndentation.InsertionPoint(node[k].leading);
      && |r| == |node|
      && r[k].text == node[k].text
      && r[k].trailing == node[k].trailing
      && (IsLineStart(node, k) ==> r[k].leading == l[..p] + indentation + l[p..])
      && (!IsLineStart(node, k) ==> r[k] == node[k])
      && |r[k].leading| == |l| + if IsLineStart(node, k) then |indentation| else 0
  {
  }

  /** Indenting a subtree with an empty list gives it back unchanged. */
  lemma IndentedNodeWithEmptyIndentation(node: seq<Token>)
    ensures IndentedNode(node, []) == node
  {
    forall k | 0 <= k < |node| ensures IndentedNode(node, [])[k] == node[k] {
      TokenIndentation.IndentEmptyIsIdentity(node[k]);
    }
  }

  /** An indentation list without newlines keeps the number of lines of
      the subtree. */
  lemma IndentedNodeNewLineCount(node: seq<Token>, indentation: seq<Trivia>)
    requires !HasNewLine(indentation)
    ensures NodeNewLineCount(IndentedNode(node, indentation)) == NodeNewLineCount(node)
  {
    var r := IndentedNode(node, indentation);
    NewLineCountPositive(indentation);
    forall k | 0 <= k < |node| ensures TokenNewLineCount(r[k]) == TokenNewLineCount(node[k]) {
      TokenIndentation.IndentNewLineCount(node[k], indentation);
    }
    NodeNewLineCountPointwise(r, node);
  }

  /** An indentation list without newlines keeps the line-start tokens. */
  lemma IndentedNodeKeepsLineStarts(node: seq<Token>, indentation: seq<Trivia>)
    requires !HasNewLine(indentation)
    ensures forall k: nat :: IsLineStart(IndentedNode(node, indentation), k) <==> IsLineStart(node, k)
  {
    var r := IndentedNode(node, indentation);
    forall k: nat | k < |node|
      ensures HasNewLine(r[k].leading) == HasNewLine(node[k].leading)
      ensures r[k].trailing == node[k].trailing
    {
      TokenIndentation.IndentKeepsNewLines(node[k].leading, indentation);
    }
  }

  /** Indenting a subtree twice puts the indentation twice before the first
      token of each line and leaves every other token as it was. */
  lemma IndentedNodeTwice(node: seq<Token>, indentation: seq<Trivia>, k: nat)
    requires !HasNewLineOrStructure(indentation)
    requires k < |node|
    ensures var r := IndentedNode(IndentedNode(node, indentation), indentation);
      var l, p := node[k].leading, TokenIndentation.InsertionPoint(node[k].leading);
      && |r| == |node|
      && (IsLineStart(node, k) ==> r[k].leading == l[..p] + indentation + indentation + l[p..])
      && (!IsLineStart(node, k) ==> r[k] == node[k])
  {
    IndentedNodeKeepsLineStarts(node, indentation);
    TokenIndentation.IndentTwice(node[k].leading, indentation);
  }

  /** The subtree "a", newline, "b", newline, "c": every line, the first
      included, receives the indentation once. */
  lemma ThreeLineExample(indentation: seq<Trivia>)
    ensures var a, b, c := Token("a", [], [EndOfLine("\n")]), Token("b", [], [EndOfLine("\n")]), Token("c", [], []);
      IndentedNode([a, b, c], indentation)
        == [a.(leading := indentation), b.(leading := indentation), c.(leading := indentation)]
  {
    var a, b, c := Token("a", [], [EndOfLine("\n")]), Token("b", [], [EndOfLine("\n")]), Token("c", [], []);
    assert IsNewLine(a.trailing[0]) && IsNewLine(b.trailing[0]);
    assert IsLineStart([a, b, c], 1) && IsLineStart([a, b, c], 2);
    TokenIndentation.IndentWithoutNewLineOrStructure([], indentation);
    var r := IndentedNode([a, b, c], indentation);
    assert r[0] == a.(leading := indentation);
    assert r[1] == b.(leading := indentation);
    assert r[2] == c.(leading := indentation);
  }

  /** The end-of-line items of the subtree "a", newline, blank line, "b":
      one in the trailing trivia of a, one in the leading trivia of b. */
  lemma BlankLineEndOfLines()
    ensures EndOfLineTrivias([Token("a", [], [EndOfLine("\n")]), Token("b", [EndOfLine("\n")], [])])
         == [TriviaPosition(0, false, 0), TriviaPosition(1, true, 0)]
  {
  }

  /** Both end-of-line items of that subtree lead to b. */
  lemma BlankLineLineStarts()
    ensures LineStartsAfter([Token("a", [], [EndOfLine("\n")]), Token("b", [EndOfLine("\n")], [])],
                            [TriviaPosition(0, false, 0), TriviaPosition(1, true, 0)]) == [1, 1]
  {
  }

  /** In that subtree the newline after a and the newline of the blank line
      both lead to b, which is selected once, before the first token a. */
  lemma BlankLineSelection()
    ensures FirstTokensOfLines([Token("a", [], [EndOfLine("\n")]), Token("b", [EndOfLine("\n")], [])]) == [1, 0]
  {
    BlankLineEndOfLines();
    BlankLineLineStarts();
    assert [1, 1] + [0] == [1, 1, 0];
    DistinctCollapsesRepeats();
  }

  /** Repeated line starts collapse to their first occurrence. */
  lemma DistinctCollapsesRepeats()
    ensures Distinct([1, 1, 0]) == [1, 0]
  {
    assert [1, 1, 0][..2] == [1, 1];
    assert [1, 1][..1] == [1];
    assert [1][..0] == [];
    assert Distinct([1]) == [1];
    assert Distinct([1, 1]) == [1];
  }

  /** The same subtree indented: the blank line stays as it is and b is
      indented once, after the newline of the blank line. */
  lemma BlankLineExample(indentation: seq<Trivia>)
    ensures var a, b := Token("a", [], [EndOfLine("\n")]), Token("b", [EndOfLine("\n")], []);
      IndentedNode([a, b], indentation)
        == [a.(leading := indentation), b.(leading := [EndOfLine("\n")] + indentation)]
  {
    var a, b := Token("a", [], [EndOfLine("\n")]), Token("b", [EndOfLine("\n")], []);
    assert IsNewLine(a.trailing[0]);
    assert IsLineStart([a, b], 1);
    TokenIndentation.IndentWithoutNewLineOrStructure([], indentation);
    TokenIndentation.IndentAfterLastNewLineOrStructure(b.leading, indentation, 0);
    var r := IndentedNode([a, b], indentation);
    assert r[0] == a.(leading := indentation);
    assert r[1] == b.(leading := [EndOfLine("\n")] + indentation);
  }
}
