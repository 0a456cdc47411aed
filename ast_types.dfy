/** The data of the comment-to-tag pipeline: comment nodes, the three line-indexed ASTs, the
  annotation data the reducer attaches, the finished tags and the fatal parse errors.

  Every AST is keyed by the line a comment ENDS on. The three AST records are updated in place
  by the pipeline, so they are classes whose map fields the operations reassign; their
  constructors are `newEmptyRawFileAst`, `newEmptyFileAst` and `newEmptyReducedFileAst`.
 */
module AstTypes {

  datatype Option<T> = None | Some(value: T)

  /** The `errorName`s of a parse-tag error. The last one is raised by the annotation grammar
      matcher, not by this pipeline, and is passed through unchanged. */
  datatype ErrorKind =
    | MultipleCommentsOnSingleLine
    | NoEndAnnotation
    | EndAnnotationUsedMultipleTimes
    | MalformedAnnotationSyntax

  /** A fatal error for one file: its kind and the line its explanation cites. */
  datatype ParseError = ParseError(kind: ErrorKind, line: int)

  /** A thrown parse error becomes `Err`; processing of the file stops there. */
  datatype Result<T> = Ok(value: T) | Err(error: ParseError)

  /** A contiguous comment span and its verbatim text. */
  datatype CommentNode = CommentNode(startLine: int, endLine: int, content: string)

  /** A single-line comment as the tokenizer reports it: a comment node plus the column of its
      opening marker, the key that decides whether adjacent comments merge. */
  datatype RawCommentNode = RawCommentNode(startLine: int, endLine: int, content: string, indentIndex: int)
  {
    /** The same comment seen as a plain comment node. */
    function Comment(): CommentNode
    {
      CommentNode(startLine, endLine, content)
    }
  }

  /** Owner groups are opaque to the pipeline: ordered lists of owner names copied through. */
  type Group = seq<string>

  /** What the reducer records for a comment that carries an annotation. */
  datatype AnnotationData =
    | StartAnnotation(ownerGroups: seq<Group>, tagAnnotationLine: int)
    | EndAnnotation(seen: bool)

  datatype ReducedCommentNode = ReducedCommentNode(startLine: int, endLine: int, data: AnnotationData)

  /** A finished tag: the span from a start annotation to its end annotation and its source lines. */
  datatype VdTag = VdTag(startLine: int, endLine: int, ownerGroups: seq<Group>, tagAnnotationLine: int, content: seq<string>)

  /** The outcome of the annotation grammar matcher on one comment's text: `case-1` (no tag),
      `case-2` (end tag), `case-3` (start tag with its owner groups and the line of the
      annotation within the comment), or the grammar error it throws. */
  datatype MatchResult =
    | NoTag
    | EndTag
    | StartTag(ownerGroups: seq<Group>, tagAnnotationLineOffset: int)
    | GrammarError(error: ParseError)

  /** The annotation grammar matcher, given a comment's text and the line it is reported at. */
  type Matcher = (string, int) -> MatchResult

  /** The literal source lines `[startLine, endLine]` of a file's text. */
  type LineSlicer = (string, int, int) -> seq<string>

  /** Every single-line comment is stored at the line it ends on. */
  predicate SingleLinesKeyed(m: map<int, RawCommentNode>)
  {
    forall L :: L in m ==> m[L].endLine == L
  }

  /** No line holds an empty list of comments. */
  predicate NonEmptyLists(m: map<int, seq<CommentNode>>)
  {
    forall L :: L in m ==> |m[L]| >= 1
  }

  /** Every comment in a list is stored at the line it ends on. */
  predicate ListsKeyed(m: map<int, seq<CommentNode>>)
  {
    forall L, i :: L in m && 0 <= i < |m[L]| ==> m[L][i].endLine == L
  }

  /** Every annotation-bearing comment is stored at the line it ends on. */
  predicate ReducedKeyed(m: map<int, ReducedCommentNode>)
  {
    forall L :: L in m ==> m[L].endLine == L
  }

  /** No end annotation has been claimed by a start annotation yet. */
  predicate AllUnseen(m: map<int, ReducedCommentNode>)
  {
    forall L :: L in m && m[L].data.EndAnnotation? ==> !m[L].data.seen
  }

  /** `RawFileAst`: single-line comments (one per line) and multi-line comments (a list per line). */
  class RawFileAst {
    var singleLineComments: map<int, RawCommentNode>
    var multiLineComments: map<int, seq<CommentNode>>

    /** The invariant every raw AST built by the add operations keeps. */
    ghost predicate Valid()
      reads this
    {
      SingleLinesKeyed(singleLineComments) && NonEmptyLists(multiLineComments) && ListsKeyed(multiLineComments)
    }

    /** `newEmptyRawFileAst`. */
    constructor ()
      ensures singleLineComments == map[] && multiLineComments == map[]
      ensures Valid()
    {
      singleLineComments := map[];
      multiLineComments := map[];
    }
  }

  /** `FileAst`: all comments, a list per line. */
  class FileAst {
    var comments: map<int, seq<CommentNode>>

    /** `newEmptyFileAst`. */
    constructor ()
      ensures comments == map[]
    {
      comments := map[];
    }
  }

  /** `ReducedFileAst`: one annotation-bearing comment per line. */
  class ReducedFileAst {
    var comments: map<int, ReducedCommentNode>

    /** `newEmptyReducedFileAst`. */
    constructor ()
      ensures comments == map[]
    {
      comments := map[];
    }
  }
}
