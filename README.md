# Indentation operator for immutable syntax trees

This project models the syntax indentation operator of R5T.F0022
(`ISyntaxIndentationOperator`), which re-indents a parsed C# subtree or a
single token by inserting a caller-supplied list of trivia (the
*indentation*) into the leading trivia of tokens, and proves what that
operator guarantees.

The operator has two layers, and the model keeps both:

- **The single-token rule** (`TokenIndentation`, pure functions). In a
  token's leading trivia, find the last item that is an end-of-line or has
  structure (a directive or documentation comment). If there is one, splice
  the indentation right after it; otherwise put the indentation in front of
  the leading trivia. Text and trailing trivia are never touched.
- **The node rule** (`NodeIndentation`). Collect every end-of-line trivia
  item of the subtree and map each to the token that starts the next line:
  a newline in a token's leading trivia maps to that token; a newline in
  its trailing trivia maps to the next token, or to nothing after the last
  token. Add the subtree's first token, remove repetitions, then rewrite the
  selected tokens one at a time with the single-token rule. The rewrite loop
  is the method `NodeIndentation.Indent`; it is proved equal to
  `IndentedNode`, an order-free definition that indents exactly the tokens
  satisfying `IsLineStart`.

A subtree is represented by its tokens in document order (`seq<Token>`),
each with `leading` and `trailing` trivia lists. A trivia item is one of
`EndOfLine`, `Whitespace`, `Comment`, `Structured` (has structure) or
`Other`. A token is identified by its index. Indentation never adds or
removes a token, so an index stays valid from one version of the subtree to
the next. The index therefore stands in for the annotation that the source
attaches to each selected token to find it again after each rewrite.

Modules: `Syntax` (`syntax.dfy`: trivia, tokens, newline counting),
`TokenIndentation` (`token_indentation.dfy`), `NodeIndentation`
(`node_indentation.dfy`).

## Model

| member | source | states |
|---|---|---|
| `TokenIndentation.LastNewLineOrStructure` | source/R5T.F0022/Code/Functionality/Interfaces/ISyntaxIndentationOperator.cs:74-76 | The result is the index of a newline-or-structure item with no such item after it, or None exactly when the list has no such item. |
| `TokenIndentation.InsertionPoint` | source/R5T.F0022/Code/Functionality/Interfaces/ISyntaxIndentationOperator.cs:74-82 | The insertion point is 0 exactly when no leading item is a newline or structured; otherwise the item just before it is one, and no item from it on is. |
| `TokenIndentation.IndentLeadingTrivia` | source/R5T.F0022/Code/Functionality/Interfaces/ISyntaxIndentationOperator.cs:78-96 | The new leading trivia is one item longer per indentation item: the original items before the insertion point, then the indentation, then the remaining original items in order. |
| `TokenIndentation.Indent` | source/R5T.F0022/Code/Functionality/Interfaces/ISyntaxIndentationOperator.cs:67-98 | Indenting a token keeps its text and its trailing trivia. |
| `TokenIndentation.IndentAfterLastNewLineOrStructure` | source/R5T.F0022/Code/Functionality/Interfaces/ISyntaxIndentationOperator.cs:74-91 | If item i is a newline or structured and no later item is, the new leading trivia is the items up to and including i, then the indentation, then the rest. |
| `TokenIndentation.IndentWithoutNewLineOrStructure` | source/R5T.F0022/Code/Functionality/Interfaces/ISyntaxIndentationOperator.cs:93-96 | If no leading item is a newline or structured (the empty list included), the new leading trivia is the indentation followed by the old leading trivia. |
| `TokenIndentation.IndentAtInsertionPoint` | source/R5T.F0022/Code/Functionality/Interfaces/ISyntaxIndentationOperator.cs:78-96 | Both branches insert the indentation at one point: just after the last newline-or-structure item, or at the front. |
| `TokenIndentation.IndentInsertsOnce` | source/R5T.F0022/Code/Functionality/Interfaces/ISyntaxIndentationOperator.cs:80-96 | The new leading trivia is one item longer per indentation item, holds the indentation once at the insertion point, gives back the old list in order when that block is removed, and has the old items plus the indentation items as a multiset. |
| `TokenIndentation.IndentEmptyIsIdentity` | source/R5T.F0022/Code/Functionality/Interfaces/ISyntaxIndentationOperator.cs:80-96 | Indenting with an empty list returns a token equal to the input. |
| `TokenIndentation.IndentNewLineCount` | source/R5T.F0022/Code/Functionality/Interfaces/ISyntaxIndentationOperator.cs:80-96 | The indented token holds its old newlines plus those of the indentation. |
| `TokenIndentation.IndentKeepsNewLines` | source/R5T.F0022/Code/Functionality/Interfaces/ISyntaxIndentationOperator.cs:80-96 | With an indentation free of newlines, the leading trivia has a newline after indentation if and only if it had one before. |
| `TokenIndentation.InsertionPointAfterIndent` | source/R5T.F0022/Code/Functionality/Interfaces/ISyntaxIndentationOperator.cs:74-88 | With an indentation free of newlines and structured items, indenting does not move the insertion point. |
| `TokenIndentation.IndentTwice` | source/R5T.F0022/Code/Functionality/Interfaces/ISyntaxIndentationOperator.cs:67-98 | For an indentation with no newline and no structured item, indenting twice puts the indentation twice, side by side, at the original insertion point: indentation accumulates and is not deduplicated. |
| `TokenIndentation.IndentSameLineExample` | source/R5T.F0022/Code/Functionality/Interfaces/ISyntaxIndentationOperator.cs:93-96 | Leading trivia of one space becomes the indentation followed by that space. |
| `TokenIndentation.IndentAfterNewLineExample` | source/R5T.F0022/Code/Functionality/Interfaces/ISyntaxIndentationOperator.cs:80-91 | Leading trivia of a newline and two spaces becomes the newline, the indentation, then the two spaces. |
| `NodeIndentation.NewLineIndices` | source/R5T.F0022/Code/Functionality/Interfaces/ISyntaxIndentationOperator.cs:21 | The result holds exactly the indices of the end-of-line items of a trivia list, in increasing order. |
| `NodeIndentation.EndOfLineTrivias` | source/R5T.F0022/Code/Functionality/Interfaces/ISyntaxIndentationOperator.cs:21 | The result holds exactly the positions of the subtree's end-of-line trivia, leading and trailing. |
| `NodeIndentation.LineStartAfter` | source/R5T.F0022/Code/Functionality/Interfaces/ISyntaxIndentationOperator.cs:25-37 | The token an end-of-line item maps to (the same token for leading trivia, the next one for trailing trivia) starts a line; there is no such token only for a trailing newline on the last token. |
| `NodeIndentation.LineStartsAfter` | source/R5T.F0022/Code/Functionality/Interfaces/ISyntaxIndentationOperator.cs:24-38 | Every selected token starts a line, and every end-of-line item that has a following token contributes that token; items after the last token contribute nothing. |
| `NodeIndentation.Distinct` | source/R5T.F0022/Code/Functionality/Interfaces/ISyntaxIndentationOperator.cs:42 | The result has the same elements as the input and no repetition. |
| `NodeIndentation.FirstTokensOfLines` | source/R5T.F0022/Code/Functionality/Interfaces/ISyntaxIndentationOperator.cs:24-43 | The selection holds valid token indices, each at most once. |
| `NodeIndentation.LineStartHasEndOfLine` | source/R5T.F0022/Code/Functionality/Interfaces/ISyntaxIndentationOperator.cs:24-38 | Every line-start token other than the first is selected from some end-of-line item. |
| `NodeIndentation.FirstTokensOfLinesAreLineStarts` | source/R5T.F0022/Code/Functionality/Interfaces/ISyntaxIndentationOperator.cs:24-43 | A token is selected if and only if it is the first token, follows a newline in its own leading trivia, or follows a newline in the previous token's trailing trivia. |
| `NodeIndentation.Indent` | source/R5T.F0022/Code/Functionality/Interfaces/ISyntaxIndentationOperator.cs:15-59 | The loop that rewrites the selected tokens one at a time returns the subtree in which exactly the line-start tokens are indented with the single-token rule. |
| `NodeIndentation.IndentOneMore` | source/R5T.F0022/Code/Functionality/Interfaces/ISyntaxIndentationOperator.cs:51-56 | Rewriting the next selected token, which no earlier step touched, extends the indented part of the selection by that token and leaves every other token as it was. |
| `NodeIndentation.SelectionIndentsLineStarts` | source/R5T.F0022/Code/Functionality/Interfaces/ISyntaxIndentationOperator.cs:40-56 | Indenting exactly the selected tokens gives the subtree with exactly the line starts indented. |
| `NodeIndentation.IndentedNodeTokens` | source/R5T.F0022/Code/Functionality/Interfaces/ISyntaxIndentationOperator.cs:51-56 | Each line-start token receives the indentation exactly once at its insertion point; every other token is unchanged; no token's text or trailing trivia changes. |
| `NodeIndentation.IndentedNodeWithEmptyIndentation` | source/R5T.F0022/Code/Functionality/Interfaces/ISyntaxIndentationOperator.cs:51-56 | Indenting a subtree with an empty list returns an equal subtree. |
| `NodeIndentation.IndentedNodeNewLineCount` | source/R5T.F0022/Code/Functionality/Interfaces/ISyntaxIndentationOperator.cs:51-56 | With an indentation free of newlines, the subtree holds as many newlines after indentation as before. |
| `NodeIndentation.IndentedNodeKeepsLineStarts` | source/R5T.F0022/Code/Functionality/Interfaces/ISyntaxIndentationOperator.cs:24-56 | With an indentation free of newlines, the line-start tokens after indentation are the ones before. |
| `NodeIndentation.IndentedNodeTwice` | source/R5T.F0022/Code/Functionality/Interfaces/ISyntaxIndentationOperator.cs:15-59 | For an indentation with no newline and no structured item, indenting a subtree twice puts the indentation twice before each line-start token and leaves every other token unchanged. |
| `NodeIndentation.ThreeLineExample` | source/R5T.F0022/Code/Functionality/Interfaces/ISyntaxIndentationOperator.cs:15-59 | For the three tokens a, b, c on three lines, each token, the first included, gets the indentation once. |
| `NodeIndentation.BlankLineEndOfLines` | source/R5T.F0022/Code/Functionality/Interfaces/ISyntaxIndentationOperator.cs:21 | For a, newline, blank line, b: one end-of-line item is in a's trailing trivia and one in b's leading trivia. |
| `NodeIndentation.BlankLineLineStarts` | source/R5T.F0022/Code/Functionality/Interfaces/ISyntaxIndentationOperator.cs:24-38 | Both of those end-of-line items map to b. |
| `NodeIndentation.DistinctCollapsesRepeats` | source/R5T.F0022/Code/Functionality/Interfaces/ISyntaxIndentationOperator.cs:42 | Removing repetitions from b, b, a keeps b, a. |
| `NodeIndentation.BlankLineSelection` | source/R5T.F0022/Code/Functionality/Interfaces/ISyntaxIndentationOperator.cs:24-43 | The selection for that subtree is b then a, each once. |
| `NodeIndentation.BlankLineExample` | source/R5T.F0022/Code/Functionality/Interfaces/ISyntaxIndentationOperator.cs:15-59 | After indentation, a starts with the indentation, the blank line is not indented, and b gets the indentation once, after the newline of the blank line. |

## Left out

- `SyntaxTokenExtensions.Indent` and `SyntaxNodeExtensions.Indent` are one-line forwarders to the operator and are not modelled separately.
- The syntax tree itself: a subtree is its flat token sequence in document order. Tree shape, node identity and structural sharing are not modelled.
- Structured trivia is opaque. Tokens inside a directive or documentation comment are not modelled. So stepping into a directive when looking for the next token is not modelled, and neither are newlines inside a structure. The next token after a trailing newline is always the next token of the sequence.
- Zero-width tokens (missing tokens, the end-of-file token) are not skipped. The next-token lookup in ISyntaxIndentationOperator.cs:34 leaves zero-width tokens out, so the source moves past them to the next token of non-zero width. The model takes the very next token, so it indents a zero-width token that follows a trailing newline, where the source would indent the token after it.
- The special case where a subtree's first token sits inside leading documentation trivia is not modelled: the first token is index 0.
- A trailing newline on the last token of a subtree: the tree navigation then returns a token outside the subtree, which the filter at ISyntaxIndentationOperator.cs:38 keeps. What annotating and modifying a token outside the subtree does is up to the annotation service, which is not part of this model. The model assumes that such a token leaves the subtree unchanged, and drops the item.
- An empty subtree: the source would append the default token in place of a first token. The model selects nothing and returns the empty sequence.
- Annotations and token re-location are replaced by token indices, which no rewrite moves. Removing repetitions by token equality becomes removing repetitions of indices.
- The rewrite order of the source's annotation dictionary is not modelled. The loop follows the selection order, and its postcondition (`IndentedNode`) does not depend on order.
- Which trivia kinds count as end-of-line or structured is reduced to the two variants `EndOfLine` and `Structured`. Trivia text and kinds are not interpreted beyond that.
- The `[FunctionalityMarker]` attribute and the `IFunctionalityMarker` interface carry no behaviour and are not modelled.
