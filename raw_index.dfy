/** Raw index accumulation: the tokenizer's comments collected per ending line
  (`addSingleLineCommentToRawAst`, `addMultilineCommentToRawAst`). No validation happens here and
  the comments may arrive in any line order.
 */
module RawIndex {
  import opened AstTypes

  /** The list a multi-line comment joins: the comments already ending on its line (or none),
      followed by it. */
  function Appended(multi: map<int, seq<CommentNode>>, node: CommentNode): (l: seq<CommentNode>)
    ensures |l| >= 1 && l[|l| - 1] == node
    ensures node.endLine in multi ==> l[..|l| - 1] == multi[node.endLine]
    ensures node.endLine !in multi ==> l == [node]
  {
    (if node.endLine in multi then multi[node.endLine] else []) + [node]
  }

  /** A single-line comment is stored at its end line, replacing any comment stored there before;
      the multi-line index and every other line are left alone. */
  method AddSingleLineCommentToRawAst(rawFileAst: RawFileAst, rawCommentNode: RawCommentNode)
    modifies rawFileAst
    ensures rawFileAst.singleLineComments == old(rawFileAst.singleLineComments)[rawCommentNode.endLine := rawCommentNode]
    ensures rawFileAst.multiLineComments == old(rawFileAst.multiLineComments)
    ensures old(rawFileAst.Valid()) ==> rawFileAst.Valid()
  {
    rawFileAst.singleLineComments := rawFileAst.singleLineComments[rawCommentNode.endLine := rawCommentNode];
  }

  /** A multi-line comment is appended to the list at its end line, which is created as a
      singleton when the line has none; the single-line index and every other line are left
      alone. */
  method AddMultilineCommentToRawAst(rawFileAst: RawFileAst, commentNode: CommentNode)
    modifies rawFileAst
    ensures rawFileAst.multiLineComments
         == old(rawFileAst.multiLineComments)[commentNode.endLine := Appended(old(rawFileAst.multiLineComments), commentNode)]
    ensures rawFileAst.singleLineComments == old(rawFileAst.singleLineComments)
    ensures old(rawFileAst.Valid()) ==> rawFileAst.Valid()
  {
    if commentNode.endLine !in rawFileAst.multiLineComments {
      rawFileAst.multiLineComments := rawFileAst.multiLineComments[commentNode.endLine := [commentNode]];
      return;
    }
    rawFileAst.multiLineComments :=
      rawFileAst.multiLineComments[commentNode.endLine := rawFileAst.multiLineComments[commentNode.endLine] + [commentNode]];
  }
}
