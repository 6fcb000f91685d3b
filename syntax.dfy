/** The syntax values the indentation operator works on: trivia items and
    tokens. A subtree is represented by its tokens in document order. */
module Syntax {

  datatype Option<T> = None | Some(value: T)

  /** A trivia item: non-code text attached to a token. A structured item
      (a preprocessor directive, a documentation comment) carries an inner
      syntax structure; here that structure is opaque. */
  datatype Trivia =
    | EndOfLine(text: string)
    | Whitespace(text: string)
    | Comment(text: string)
    | Structured(text: string)
    | Other(text: string)

  /** A token: its literal text and its leading and trailing trivia. */
  datatype Token = Token(text: string, leading: seq<Trivia>, trailing: seq<Trivia>)

  predicate IsNewLine(t: Trivia) {
    t.EndOfLine?
  }

  predicate HasStructure(t: Trivia) {
    t.Structured?
  }

  /** The items after which a new source line may begin. */
  predicate IsNewLineOrStructure(t: Trivia) {
    IsNewLine(t) || HasStructure(t)
  }

  predicate HasNewLine(s: seq<Trivia>) {
    exists i :: 0 <= i < |s| && IsNewLine(s[i])
  }

  predicate HasNewLineOrStructure(s: seq<Trivia>) {
    exists i :: 0 <= i < |s| && IsNewLineOrStructure(s[i])
  }

  /** The number of end-of-line items in a trivia list. */
  function NewLineCount(s: seq<Trivia>): nat {
    if s == [] then 0 else (if IsNewLine(s[0]) then 1 else 0) + NewLineCount(s[1..])
  }

  lemma {:induction false} NewLineCountAppend(a: seq<Trivia>, b: seq<Trivia>)
    ensures NewLineCount(a + b) == NewLineCount(a) + NewLineCount(b)
  {
    if a == [] {
      assert a + b == b;
    } else {
      assert (a + b)[1..] == a[1..] + b;
      NewLineCountAppend(a[1..], b);
    }
  }

  /** A trivia list has a newline exactly when its newline count is positive. */
  lemma {:induction false} NewLineCountPositive(s: seq<Trivia>)
    ensures NewLineCount(s) > 0 <==> HasNewLine(s)
  {
    if s != [] {
      NewLineCountPositive(s[1..]);
      if HasNewLine(s[1..]) {
        var i :| 0 <= i < |s[1..]| && IsNewLine(s[1..][i]);
        assert IsNewLine(s[i + 1]);
      }
      if HasNewLine(s) && !IsNewLine(s[0]) {
        var i :| 0 <= i < |s| && IsNewLine(s[i]);
        assert IsNewLine(s[1..][i - 1]);
      }
    }
  }

  function TokenNewLineCount(t: Token): nat {
    NewLineCount(t.leading) + NewLineCount(t.trailing)
  }

  /** The number of end-of-line trivia items in a subtree, that is, the
      number of line breaks in its text. */
  function NodeNewLineCount(node: seq<Token>): nat {
    if node == [] then 0 else TokenNewLineCount(node[0]) + NodeNewLineCount(node[1..])
  }

  /** Two subtrees whose tokens pairwise hold as many newlines hold as many
      newlines in all. */
  lemma {:induction false} NodeNewLineCountPointwise(a: seq<Token>, b: seq<Token>)
    requires |a| == |b|
    requires forall k :: 0 <= k < |a| ==> TokenNewLineCount(a[k]) == TokenNewLineCount(b[k])
    ensures NodeNewLineCount(a) == NodeNewLineCount(b)
  {
    if a != [] {
      assert forall k :: 0 <= k < |a[1..]| ==> a[1..][k] == a[k + 1] && b[1..][k] == b[k + 1];
      NodeNewLineCountPointwise(a[1..], b[1..]);
    }
  }
}
