/** Reduction (`getReducedFileAstFromFileAst`): keep only the comments that carry a start or an
  end annotation, rejecting a line with more than one comment.

  The lines are visited in ascending order (`for…in` over integer keys); the first line that
  fails stops the reduction with its error.
 */
module Reduction {
  import opened AstTypes
  import opened LineOrder

  /** What the matcher makes of the single comment at line `L`. */
  function Classify(c: map<int, seq<CommentNode>>, L: int, matcher: Matcher): MatchResult
    requires L in c && |c[L]| >= 1
  {
    matcher(c[L][0].content, L)
  }

  /** A line the reducer rejects: several comments, or a comment the matcher rejects. */
  predicate Bad(c: map<int, seq<CommentNode>>, L: int, matcher: Matcher)
    requires L in c && |c[L]| >= 1
  {
    |c[L]| > 1 || Classify(c, L, matcher).GrammarError?
  }

  /** The error a bad line raises. */
  function LineError(c: map<int, seq<CommentNode>>, L: int, matcher: Matcher): ParseError
    requires L in c && |c[L]| >= 1 && Bad(c, L, matcher)
  {
    if |c[L]| > 1 then ParseError(MultipleCommentsOnSingleLine, L) else Classify(c, L, matcher).error
  }

  /** The reduced node for a comment with an end or a start annotation; the annotation line of a
      start tag is the comment's first line plus the matcher's offset. */
  function Reduced(node: CommentNode, m: MatchResult): (r: ReducedCommentNode)
    requires m.EndTag? || m.StartTag?
    ensures r.startLine == node.startLine && r.endLine == node.endLine
    ensures m.EndTag? <==> r.data == EndAnnotation(false)
    ensures m.StartTag? ==> r.data == StartAnnotation(m.ownerGroups, node.startLine + m.tagAnnotationLineOffset)
  {
    if m.EndTag? then ReducedCommentNode(node.startLine, node.endLine, EndAnnotation(false))
    else ReducedCommentNode(node.startLine, node.endLine, StartAnnotation(m.ownerGroups, node.startLine + m.tagAnnotationLineOffset))
  }

  /** One iteration of the reduction loop, on the reduced comments `acc` built so far. */
  function ReduceLine(acc: map<int, ReducedCommentNode>, c: map<int, seq<CommentNode>>, L: int, matcher: Matcher): Result<map<int, ReducedCommentNode>>
    requires L in c && |c[L]| >= 1
  {
    if |c[L]| > 1 then Err(ParseError(MultipleCommentsOnSingleLine, L))
    else
      var node := c[L][0];
      match Classify(c, L, matcher)
      case NoTag => Ok(acc)
      case EndTag => Ok(acc[node.endLine := Reduced(node, EndTag)])
      case StartTag(groups, offset) => Ok(acc[node.endLine := Reduced(node, StartTag(groups, offset))])
      case GrammarError(e) => Err(e)
  }

  /** All lines of `c` are in the index and hold at least one comment. */
  predicate Covered(c: map<int, seq<CommentNode>>, ls: seq<int>)
  {
    forall L :: L in ls ==> L in c && |c[L]| >= 1
  }

  /** The reduction loop run over the lines `ls`, in that order. */
  function ReduceLines(c: map<int, seq<CommentNode>>, ls: seq<int>, matcher: Matcher): Result<map<int, ReducedCommentNode>>
    requires Covered(c, ls)
  {
    if ls == [] then Ok(map[])
    else
      match ReduceLines(c, ls[..|ls| - 1], matcher)
      case Err(e) => Err(e)
      case Ok(acc) => ReduceLine(acc, c, ls[|ls| - 1], matcher)
  }

  /** The reduction of a whole unified AST. */
  ghost function Reduce(c: map<int, seq<CommentNode>>, matcher: Matcher): Result<map<int, ReducedCommentNode>>
    requires NonEmptyLists(c)
  {
    ReduceLines(c, Ascending(c.Keys), matcher)
  }

  /** The lines of `c` among `lines` that carry an annotation, each reduced: the declarative
      content of a successful reduction. */
  ghost function Annotations(c: map<int, seq<CommentNode>>, lines: set<int>, matcher: Matcher): map<int, ReducedCommentNode>
    requires NonEmptyLists(c)
  {
    map L | L in c && L in lines && (Classify(c, L, matcher).EndTag? || Classify(c, L, matcher).StartTag?) ::
      Reduced(c[L][0], Classify(c, L, matcher))
  }

  /** The lines of `c` the reducer rejects. */
  ghost function BadLines(c: map<int, seq<CommentNode>>, matcher: Matcher): set<int>
    requires NonEmptyLists(c)
  {
    set L | L in c && Bad(c, L, matcher)
  }

  lemma PrefixCovered(c: map<int, seq<CommentNode>>, ls: seq<int>, i: int)
    requires Covered(c, ls) && 0 <= i <= |ls|
    ensures Covered(c, ls[..i])
  {
    forall L | L in ls[..i] ensures L in ls {
      var j :| 0 <= j < i && ls[..i][j] == L;
      assert ls[j] == L;
    }
  }

  /** Once a prefix of the lines fails, the whole run fails with the same error. */
  lemma {:induction false} ReduceErrorSticks(c: map<int, seq<CommentNode>>, ls: seq<int>, i: int, matcher: Matcher)
    requires Covered(c, ls) && 0 <= i <= |ls|
    requires Covered(c, ls[..i]) && ReduceLines(c, ls[..i], matcher).Err?
    ensures ReduceLines(c, ls, matcher) == ReduceLines(c, ls[..i], matcher)
    decreases |ls| - i
  {
    if i < |ls| {
      PrefixCovered(c, ls, |ls| - 1);
      var front := ls[..|ls| - 1];
      assert front[..i] == ls[..i];
      ReduceErrorSticks(c, front, i, matcher);
    } else {
      assert ls[..i] == ls;
    }
  }

  /** One more line of the loop: the run over `ls[..i + 1]` is the step at `ls[i]` after the run
      over `ls[..i]`. */
  lemma ReduceNext(c: map<int, seq<CommentNode>>, ls: seq<int>, i: int, matcher: Matcher, acc: map<int, ReducedCommentNode>)
    requires Covered(c, ls) && 0 <= i < |ls|
    requires Covered(c, ls[..i]) && ReduceLines(c, ls[..i], matcher) == Ok(acc)
    ensures ls[i] in c && |c[ls[i]]| >= 1
    ensures Covered(c, ls[..i + 1]) && ReduceLines(c, ls[..i + 1], matcher) == ReduceLine(acc, c, ls[i], matcher)
  {
    var L := ls[i];
    assert L in ls;
    assert L in c && |c[L]| >= 1;
    PrefixCovered(c, ls, i + 1);
    assert ls[..i + 1][..i] == ls[..i];
  }

  /** When the loop over the ascending lines fails at index `i`, that is the reduction's outcome. */
  lemma ReduceStopsAt(c: map<int, seq<CommentNode>>, lines: seq<int>, i: int, matcher: Matcher)
    requires NonEmptyLists(c) && lines == Ascending(c.Keys) && 0 <= i < |lines|
    requires Covered(c, lines[..i + 1]) && ReduceLines(c, lines[..i + 1], matcher).Err?
    ensures Reduce(c, matcher) == ReduceLines(c, lines[..i + 1], matcher)
  {
    ReduceErrorSticks(c, lines, i + 1, matcher);
  }

  /** The loop over all the ascending lines is the reduction. */
  lemma ReduceDone(c: map<int, seq<CommentNode>>, lines: seq<int>, matcher: Matcher)
    requires NonEmptyLists(c) && lines == Ascending(c.Keys)
    ensures Covered(c, lines[..|lines|]) && Reduce(c, matcher) == ReduceLines(c, lines[..|lines|], matcher)
  {
    assert lines[..|lines|] == lines;
  }

  /** `getReducedFileAstFromFileAst`. The source reads `commentNodes[0]` of every line, so every
      line must hold a comment; both builders of a unified AST guarantee it. */
  method GetReducedFileAstFromFileAst(fileAst: FileAst, matcher: Matcher) returns (r: Result<ReducedFileAst>)
    requires NonEmptyLists(fileAst.comments)
    ensures r.Err? ==> Reduce(fileAst.comments, matcher) == Err(r.error)
    ensures r.Ok? ==> fresh(r.value) && Reduce(fileAst.comments, matcher) == Ok(r.value.comments)
  {
    var reducedFileAst := new ReducedFileAst();
    var c := fileAst.comments;
    var lines := AscendingKeys(c.Keys);
    for i := 0 to |lines|
      invariant fresh(reducedFileAst)
      invariant Covered(c, lines[..i])
      invariant ReduceLines(c, lines[..i], matcher) == Ok(reducedFileAst.comments)
    {
      var commentLineNumber := lines[i];
      ReduceNext(c, lines, i, matcher, reducedFileAst.comments);
      var commentNodes := c[commentLineNumber];
      if |commentNodes| > 1 {
        ReduceStopsAt(c, lines, i, matcher);
        return Err(ParseError(MultipleCommentsOnSingleLine, commentLineNumber));
      }
      var commentNode := commentNodes[0];
      var match_ := matcher(commentNode.content, commentLineNumber);
      assert match_ == Classify(c, commentLineNumber, matcher);
      match match_
      case NoTag =>
      case EndTag =>
        reducedFileAst.comments := reducedFileAst.comments[commentNode.endLine :=
          ReducedCommentNode(commentNode.startLine, commentNode.endLine, EndAnnotation(false))];
      case StartTag(ownerGroups, tagAnnotationLineOffset) =>
        reducedFileAst.comments := reducedFileAst.comments[commentNode.endLine :=
          ReducedCommentNode(commentNode.startLine, commentNode.endLine,
            StartAnnotation(ownerGroups, commentNode.startLine + tagAnnotationLineOffset))];
      case GrammarError(e) =>
        ReduceStopsAt(c, lines, i, matcher);
        return Err(e);
    }
    ReduceDone(c, lines, matcher);
    r := Ok(reducedFileAst);
  }

  /** The reduction over `ls` fails exactly when one of its lines is bad, and then with the error
      of the first bad line. */
  lemma {:induction false} ReduceLinesError(c: map<int, seq<CommentNode>>, ls: seq<int>, matcher: Matcher)
    requires Covered(c, ls)
    ensures ReduceLines(c, ls, matcher).Err? <==> exists i :: 0 <= i < |ls| && Bad(c, ls[i], matcher)
    ensures forall j :: 0 <= j < |ls| && Bad(c, ls[j], matcher) && (forall i :: 0 <= i < j ==> !Bad(c, ls[i], matcher)) ==>
      ReduceLines(c, ls, matcher) == Err(LineError(c, ls[j], matcher))
  {
    if ls != [] {
      var n := |ls| - 1;
      var front := ls[..n];
      PrefixCovered(c, ls, n);
      ReduceLinesError(c, front, matcher);
      assert forall i :: 0 <= i < n ==> front[i] == ls[i];
      if ReduceLines(c, front, matcher).Err? {
        var i0 :| 0 <= i0 < n && Bad(c, front[i0], matcher);
        assert Bad(c, ls[i0], matcher);
      }
    }
  }

  /** The annotated lines among `lines + {L}`: those among `lines`, plus `L` when it carries
      an annotation. */
  lemma AnnotationsStep(c: map<int, seq<CommentNode>>, lines: set<int>, L: int, matcher: Matcher)
    requires NonEmptyLists(c) && L in c
    ensures var m := Classify(c, L, matcher);
      Annotations(c, lines + {L}, matcher) ==
        if m.EndTag? || m.StartTag? then Annotations(c, lines, matcher)[L := Reduced(c[L][0], m)]
        else Annotations(c, lines, matcher)
  {
  }

  /** When every comment is stored at its end line, a successful reduction over `ls` holds
      exactly the annotated lines among `ls`. */
  lemma {:induction false} ReduceLinesContent(c: map<int, seq<CommentNode>>, ls: seq<int>, matcher: Matcher)
    requires NonEmptyLists(c) && ListsKeyed(c) && Covered(c, ls)
    ensures ReduceLines(c, ls, matcher).Ok? ==>
      ReduceLines(c, ls, matcher).value == Annotations(c, (set L | L in ls), matcher)
  {
    if ls != [] {
      var n := |ls| - 1;
      var front := ls[..n];
      PrefixCovered(c, ls, n);
      ReduceLinesContent(c, front, matcher);
      assert ls == front + [ls[n]];
      assert (set L | L in ls) == (set L | L in front) + {ls[n]};
      AnnotationsStep(c, (set L | L in front), ls[n], matcher);
      assert ls[n] in c;
      assert |c[ls[n]]| >= 1 && c[ls[n]][0].endLine == ls[n];
    } else {
      assert (set L | L in ls) == {};
    }
  }

  /** A successful reduction stores every node at its end line and leaves every end annotation
      unclaimed, whatever the input. */
  lemma {:induction false} ReduceLinesShape(c: map<int, seq<CommentNode>>, ls: seq<int>, matcher: Matcher)
    requires Covered(c, ls)
    ensures ReduceLines(c, ls, matcher).Ok? ==>
      ReducedKeyed(ReduceLines(c, ls, matcher).value) && AllUnseen(ReduceLines(c, ls, matcher).value)
  {
    if ls != [] {
      PrefixCovered(c, ls, |ls| - 1);
      ReduceLinesShape(c, ls[..|ls| - 1], matcher);
    }
  }

  /** Reducing a unified AST fails exactly when some line is bad. */
  lemma ReduceFails(c: map<int, seq<CommentNode>>, matcher: Matcher)
    requires NonEmptyLists(c)
    ensures Reduce(c, matcher).Err? <==> BadLines(c, matcher) != {}
  {
    var ls := Ascending(c.Keys);
    ReduceLinesError(c, ls, matcher);
    if Reduce(c, matcher).Err? {
      var i :| 0 <= i < |ls| && Bad(c, ls[i], matcher);
      assert ls[i] in ls;
      assert ls[i] in BadLines(c, matcher);
    }
    if BadLines(c, matcher) != {} {
      var L := Min(BadLines(c, matcher));
      assert L in ls;
      var i :| 0 <= i < |ls| && ls[i] == L;
      assert Bad(c, ls[i], matcher);
    }
  }

  /** A failed reduction of a unified AST reports the error of the smallest bad line. */
  lemma ReduceFirstError(c: map<int, seq<CommentNode>>, matcher: Matcher)
    requires NonEmptyLists(c) && BadLines(c, matcher) != {}
    ensures Reduce(c, matcher) == Err(LineError(c, Min(BadLines(c, matcher)), matcher))
  {
    var ls := Ascending(c.Keys);
    var least := Min(BadLines(c, matcher));
    assert least in ls;
    var j :| 0 <= j < |ls| && ls[j] == least;
    forall i | 0 <= i < j ensures !Bad(c, ls[i], matcher) {
      assert ls[i] < ls[j];
      assert ls[i] in ls;
      assert ls[i] !in BadLines(c, matcher);
      assert ls[i] in c;
    }
    ReduceLinesError(c, ls, matcher);
  }

  /** A successful reduction of a unified AST stores every node at its end line with every end
      annotation unclaimed; when every comment is stored at its end line, it holds exactly the
      annotated lines. */
  lemma ReduceSuccess(c: map<int, seq<CommentNode>>, matcher: Matcher)
    requires NonEmptyLists(c)
    ensures Reduce(c, matcher).Ok? ==> ReducedKeyed(Reduce(c, matcher).value) && AllUnseen(Reduce(c, matcher).value)
    ensures ListsKeyed(c) && Reduce(c, matcher).Ok? ==> Reduce(c, matcher).value == Annotations(c, c.Keys, matcher)
  {
    var ls := Ascending(c.Keys);
    ReduceLinesShape(c, ls, matcher);
    if ListsKeyed(c) {
      ReduceLinesContent(c, ls, matcher);
      forall L ensures L in ls <==> L in c.Keys {
        assert Enumerates(ls, c.Keys);
      }
      assert (set L | L in ls) == c.Keys;
    }
  }
}
