/** The pipeline's documented examples, stated at the stage they exercise.

  The annotation grammar and the line slicer are not part of this model, so each example fixes
  a matcher that recognises exactly the annotation comments of its file, and leaves the slicer
  abstract: a tag's content is whatever the slicer returns for its span.
 */
module Fixtures {
  import opened AstTypes
  import opened LineOrder
  import opened SingleLineSquish
  import opened Reduction
  import opened TagPairing

  const Owners: seq<Group> := [["amilner42"]]

  /** Two single-line comments on adjacent lines at the same column merge into one. */
  lemma SquishMergesAdjacent()
    ensures Squish(map[1 := RawCommentNode(1, 1, "// a", 0), 2 := RawCommentNode(2, 2, "// b", 0)])
      == map[2 := CommentNode(1, 2, "// a\n// b")]
  {
    var m := map[1 := RawCommentNode(1, 1, "// a", 0), 2 := RawCommentNode(2, 2, "// b", 0)];
    assert Joins(m, 2) && !Joins(m, 1) && !Joins(m, 3);
    assert Squished(m, 2) == CommentNode(1, 2, "// a\n// b");
  }

  /** At different columns they stay two comments. */
  lemma SquishKeepsDifferentColumns()
    ensures Squish(map[1 := RawCommentNode(1, 1, "// a", 0), 2 := RawCommentNode(2, 2, "// b", 2)])
      == map[1 := CommentNode(1, 1, "// a"), 2 := CommentNode(2, 2, "// b")]
  {
    var m := map[1 := RawCommentNode(1, 1, "// a", 0), 2 := RawCommentNode(2, 2, "// b", 2)];
    assert !Joins(m, 1) && !Joins(m, 2) && !Joins(m, 3);
  }

  /** A blank file has no comments: reduction and pairing yield nothing. */
  lemma BlankFile(matcher: Matcher, fileContent: string, slicer: LineSlicer)
    ensures Reduce(map[], matcher) == Ok(map[])
    ensures Pair(map[], fileContent, slicer) == PairState(map[], Ok([]))
  {
    var c: map<int, seq<CommentNode>> := map[];
    var r: map<int, ReducedCommentNode> := map[];
    AscendingUnique([], Ascending(c.Keys), c.Keys);
    AscendingUnique([], Ascending(r.Keys), r.Keys);
  }

  /** The start and end annotation comments of the file with many tags. */
  function ManyTagsMatcher(text: string, line: int): MatchResult
  {
    if text == "// @VD amilner42 start" then StartTag(Owners, 0)
    else if text == "// @VD end" then EndTag
    else NoTag
  }

  /** The file with many tags, after assembly: annotation comments at lines 1, 3, 9 and 12 and an
      ordinary comment at line 5. */
  const ManyTagsAst: map<int, seq<CommentNode>> := map[
    1 := [CommentNode(1, 1, "// @VD amilner42 start")],
    3 := [CommentNode(3, 3, "// @VD end")],
    5 := [CommentNode(5, 5, "// doo doo")],
    9 := [CommentNode(9, 9, "// @VD amilner42 start")],
    12 := [CommentNode(12, 12, "// @VD end")]]

  const ManyTagsReduced: map<int, ReducedCommentNode> := map[
    1 := ReducedCommentNode(1, 1, StartAnnotation(Owners, 1)),
    3 := ReducedCommentNode(3, 3, EndAnnotation(false)),
    9 := ReducedCommentNode(9, 9, StartAnnotation(Owners, 9)),
    12 := ReducedCommentNode(12, 12, EndAnnotation(false))]

  lemma ManyTagsNoBadLine()
    ensures BadLines(ManyTagsAst, ManyTagsMatcher) == {}
  {
    var c := ManyTagsAst;
    forall L | L in c ensures !Bad(c, L, ManyTagsMatcher) {
      assert L == 1 || L == 3 || L == 5 || L == 9 || L == 12;
    }
  }

  lemma ManyTagsAnnotations()
    ensures Annotations(ManyTagsAst, ManyTagsAst.Keys, ManyTagsMatcher) == ManyTagsReduced
  {
    var c := ManyTagsAst;
    assert Classify(c, 5, ManyTagsMatcher) == NoTag;
  }

  lemma ManyTagsWellFormed()
    ensures NonEmptyLists(ManyTagsAst) && ListsKeyed(ManyTagsAst)
  {
    forall L, i | L in ManyTagsAst && 0 <= i < |ManyTagsAst[L]| ensures ManyTagsAst[L][i].endLine == L {
      assert i == 0;
    }
  }

  /** Reduction drops the ordinary comment and keeps the four annotations. */
  lemma ManyTagsReduce()
    ensures Reduce(ManyTagsAst, ManyTagsMatcher) == Ok(ManyTagsReduced)
  {
    ManyTagsWellFormed();
    ManyTagsNoBadLine();
    ManyTagsAnnotations();
    ReduceFails(ManyTagsAst, ManyTagsMatcher);
    ReduceSuccess(ManyTagsAst, ManyTagsMatcher);
  }

  const ManyTagsLines: seq<int> := [1, 3, 9, 12]

  lemma ManyTagsCloses()
    ensures Close(ManyTagsReduced, ManyTagsLines, 1) == Some(3)
    ensures Close(ManyTagsReduced, ManyTagsLines, 9) == Some(12)
  {
    var K := ManyTagsLines;
    assert K[1..] == [3, 9, 12] && K[1..][1..] == [9, 12] && K[1..][1..][1..] == [12];
  }

  lemma ManyTagsPairsOk()
    ensures PairsOk(ManyTagsReduced, ManyTagsLines, ManyTagsLines)
  {
    var r := ManyTagsReduced;
    var K := ManyTagsLines;
    ManyTagsCloses();
    forall i | 0 <= i < |K| && IsStart(r, K[i]) ensures i == 0 || i == 2 {
      assert !IsStart(r, 3) && !IsStart(r, 12);
    }
  }

  lemma ManyTagsExpected(fileContent: string, slicer: LineSlicer)
    ensures ExpectedTags(ManyTagsReduced, ManyTagsLines, ManyTagsLines, fileContent, slicer) == [
      VdTag(1, 3, Owners, 1, slicer(fileContent, 1, 3)),
      VdTag(9, 12, Owners, 9, slicer(fileContent, 9, 12))]
  {
    var r := ManyTagsReduced;
    var K := ManyTagsLines;
    assert K[..3] == [1, 3, 9] && [1, 3, 9][..2] == [1, 3] && [1, 3][..1] == [1] && [1][..0] == [];
    ManyTagsCloses();
    assert ExpectedTags(r, [1], K, fileContent, slicer) == [VdTag(1, 3, Owners, 1, slicer(fileContent, 1, 3))];
    assert ExpectedTags(r, [1, 3], K, fileContent, slicer) == [VdTag(1, 3, Owners, 1, slicer(fileContent, 1, 3))];
    assert ExpectedTags(r, [1, 3, 9], K, fileContent, slicer) == [
      VdTag(1, 3, Owners, 1, slicer(fileContent, 1, 3)),
      VdTag(9, 12, Owners, 9, slicer(fileContent, 9, 12))];
  }

  /** Pairing yields the tags 1-3 and 9-12, annotated on their first lines. */
  lemma ManyTagsPair(fileContent: string, slicer: LineSlicer)
    ensures Pair(ManyTagsReduced, fileContent, slicer).outcome == Ok([
      VdTag(1, 3, Owners, 1, slicer(fileContent, 1, 3)),
      VdTag(9, 12, Owners, 9, slicer(fileContent, 9, 12))])
  {
    var r := ManyTagsReduced;
    var K := ManyTagsLines;
    AscendingUnique(K, Ascending(r.Keys), r.Keys);
    assert AllUnseen(r);
    ManyTagsPairsOk();
    PairOutcome(r, fileContent, slicer);
    assert Pair(r, fileContent, slicer).outcome == Ok(ExpectedTags(r, K, K, fileContent, slicer));
    ManyTagsExpected(fileContent, slicer);
  }

  /** The start and end annotation comments of the file whose start annotations sit inside
      multi-line comments, one line below the comment's first line. */
  function MultiLineMatcher(text: string, line: int): MatchResult
  {
    if text == "/*\n @VD amilner42 start\n*/" || text == "/*\n  @VD amilner42 start\n  */" then StartTag(Owners, 1)
    else if text == "// @VD end" || text == "/* @VD end\n   */" then EndTag
    else NoTag
  }

  const MultiLineAst: map<int, seq<CommentNode>> := map[
    3 := [CommentNode(1, 3, "/*\n @VD amilner42 start\n*/")],
    5 := [CommentNode(5, 5, "// @VD end")],
    12 := [CommentNode(10, 12, "/*\n  @VD amilner42 start\n  */")],
    16 := [CommentNode(15, 16, "/* @VD end\n   */")]]

  const MultiLineReduced: map<int, ReducedCommentNode> := map[
    3 := ReducedCommentNode(1, 3, StartAnnotation(Owners, 2)),
    5 := ReducedCommentNode(5, 5, EndAnnotation(false)),
    12 := ReducedCommentNode(10, 12, StartAnnotation(Owners, 11)),
    16 := ReducedCommentNode(15, 16, EndAnnotation(false))]

  lemma MultiLineWellFormed()
    ensures NonEmptyLists(MultiLineAst) && ListsKeyed(MultiLineAst)
  {
    forall L, i | L in MultiLineAst && 0 <= i < |MultiLineAst[L]| ensures MultiLineAst[L][i].endLine == L {
      assert i == 0;
    }
  }

  lemma MultiLineNoBadLine()
    ensures BadLines(MultiLineAst, MultiLineMatcher) == {}
  {
    var c := MultiLineAst;
    forall L | L in c ensures !Bad(c, L, MultiLineMatcher) {
      assert L == 3 || L == 5 || L == 12 || L == 16;
    }
  }

  /** Reduction records each start annotation's line as its comment's first line plus the
      matcher's offset: lines 2 and 11. */
  lemma MultiLineReduce()
    ensures Reduce(MultiLineAst, MultiLineMatcher) == Ok(MultiLineReduced)
  {
    MultiLineWellFormed();
    MultiLineNoBadLine();
    assert Annotations(MultiLineAst, MultiLineAst.Keys, MultiLineMatcher) == MultiLineReduced;
    ReduceFails(MultiLineAst, MultiLineMatcher);
    ReduceSuccess(MultiLineAst, MultiLineMatcher);
  }

  const MultiLineLines: seq<int> := [3, 5, 12, 16]

  lemma MultiLineCloses()
    ensures Close(MultiLineReduced, MultiLineLines, 3) == Some(5)
    ensures Close(MultiLineReduced, MultiLineLines, 12) == Some(16)
  {
    var K := MultiLineLines;
    assert K[1..] == [5, 12, 16] && K[1..][1..] == [12, 16] && K[1..][1..][1..] == [16];
  }

  lemma MultiLinePairsOk()
    ensures PairsOk(MultiLineReduced, MultiLineLines, MultiLineLines)
  {
    var r := MultiLineReduced;
    var K := MultiLineLines;
    MultiLineCloses();
    forall i | 0 <= i < |K| && IsStart(r, K[i]) ensures i == 0 || i == 2 {
      assert !IsStart(r, 5) && !IsStart(r, 16);
    }
  }

  lemma MultiLineExpected(fileContent: string, slicer: LineSlicer)
    ensures ExpectedTags(MultiLineReduced, MultiLineLines, MultiLineLines, fileContent, slicer) == [
      VdTag(1, 5, Owners, 2, slicer(fileContent, 1, 5)),
      VdTag(10, 16, Owners, 11, slicer(fileContent, 10, 16))]
  {
    var r := MultiLineReduced;
    var K := MultiLineLines;
    assert K[..3] == [3, 5, 12] && [3, 5, 12][..2] == [3, 5] && [3, 5][..1] == [3] && [3][..0] == [];
    MultiLineCloses();
    assert ExpectedTags(r, [3], K, fileContent, slicer) == [VdTag(1, 5, Owners, 2, slicer(fileContent, 1, 5))];
    assert ExpectedTags(r, [3, 5], K, fileContent, slicer) == [VdTag(1, 5, Owners, 2, slicer(fileContent, 1, 5))];
    assert ExpectedTags(r, [3, 5, 12], K, fileContent, slicer) == [
      VdTag(1, 5, Owners, 2, slicer(fileContent, 1, 5)),
      VdTag(10, 16, Owners, 11, slicer(fileContent, 10, 16))];
  }

  /** Pairing yields the tags 1-5 and 10-16, annotated on lines 2 and 11. */
  lemma MultiLinePair(fileContent: string, slicer: LineSlicer)
    ensures Pair(MultiLineReduced, fileContent, slicer).outcome == Ok([
      VdTag(1, 5, Owners, 2, slicer(fileContent, 1, 5)),
      VdTag(10, 16, Owners, 11, slicer(fileContent, 10, 16))])
  {
    var r := MultiLineReduced;
    var K := MultiLineLines;
    AscendingUnique(K, Ascending(r.Keys), r.Keys);
    assert AllUnseen(r);
    MultiLinePairsOk();
    PairOutcome(r, fileContent, slicer);
    assert Pair(r, fileContent, slicer).outcome == Ok(ExpectedTags(r, K, K, fileContent, slicer));
    MultiLineExpected(fileContent, slicer);
  }

  /** Two start annotations followed by one end annotation. */
  const SharedEnd: map<int, ReducedCommentNode> := map[
    1 := ReducedCommentNode(1, 1, StartAnnotation(Owners, 1)),
    4 := ReducedCommentNode(4, 4, StartAnnotation(Owners, 4)),
    8 := ReducedCommentNode(8, 8, EndAnnotation(false))]

  const SharedEndLines: seq<int> := [1, 4, 8]

  lemma SharedEndCloses()
    ensures Close(SharedEnd, SharedEndLines, 1) == Some(8)
    ensures Close(SharedEnd, SharedEndLines, 4) == Some(8)
  {
    var K := SharedEndLines;
    assert K[1..] == [4, 8] && K[1..][1..] == [8];
  }

  /** The first start annotation claims the end annotation at line 8. */
  lemma SharedEndFirst()
    ensures PairsOk(SharedEnd, SharedEndLines[..1], SharedEndLines)
    ensures ClosedBy(SharedEnd, SharedEndLines[..1], SharedEndLines) == {8}
  {
    assert SharedEndLines[..1] == [1];
    SharedEndCloses();
  }

  /** The second start annotation finds the end already claimed, reported at the end comment's
      line 8. */
  lemma SharedEndFails(fileContent: string, slicer: LineSlicer)
    ensures Pair(SharedEnd, fileContent, slicer).outcome == Err(ParseError(EndAnnotationUsedMultipleTimes, 8))
  {
    var r := SharedEnd;
    var K := SharedEndLines;
    AscendingUnique(K, Ascending(r.Keys), r.Keys);
    SharedEndCloses();
    SharedEndFirst();
    PairFailsAt(r, K, 1, K, fileContent, slicer);
  }

  /** Two start annotations followed by two end annotations. */
  const Overlapping: map<int, ReducedCommentNode> := map[
    1 := ReducedCommentNode(1, 1, StartAnnotation(Owners, 1)),
    4 := ReducedCommentNode(4, 4, StartAnnotation(Owners, 4)),
    8 := ReducedCommentNode(8, 8, EndAnnotation(false)),
    10 := ReducedCommentNode(10, 10, EndAnnotation(false))]

  const OverlappingLines: seq<int> := [1, 4, 8, 10]

  lemma OverlappingCloses()
    ensures Close(Overlapping, OverlappingLines, 1) == Some(8)
    ensures Close(Overlapping, OverlappingLines, 4) == Some(8)
  {
    var K := OverlappingLines;
    assert K[1..] == [4, 8, 10] && K[1..][1..] == [8, 10];
  }

  lemma OverlappingFirst()
    ensures PairsOk(Overlapping, OverlappingLines[..1], OverlappingLines)
    ensures ClosedBy(Overlapping, OverlappingLines[..1], OverlappingLines) == {8}
  {
    assert OverlappingLines[..1] == [1];
    OverlappingCloses();
  }

  /** The scan does not move past the claimed end at line 8 to the free one at line 10, so the
      second start annotation fails too. */
  lemma OverlappingTagsFail(fileContent: string, slicer: LineSlicer)
    ensures Pair(Overlapping, fileContent, slicer).outcome == Err(ParseError(EndAnnotationUsedMultipleTimes, 8))
  {
    var r := Overlapping;
    var K := OverlappingLines;
    AscendingUnique(K, Ascending(r.Keys), r.Keys);
    OverlappingCloses();
    OverlappingFirst();
    PairFailsAt(r, K, 1, K, fileContent, slicer);
  }

  /** A start annotation with nothing after it fails at its own line. */
  lemma MissingEndFails(fileContent: string, slicer: LineSlicer)
    ensures Pair(map[1 := ReducedCommentNode(1, 1, StartAnnotation(Owners, 1))], fileContent, slicer).outcome
      == Err(ParseError(NoEndAnnotation, 1))
  {
    var r := map[1 := ReducedCommentNode(1, 1, StartAnnotation(Owners, 1))];
    var K := [1];
    AscendingUnique(K, Ascending(r.Keys), r.Keys);
    assert K[..0] == [];
    assert Close(r, K, 1) == None;
    assert PairsOk(r, [], K);
    PairFailsAt(r, K, 0, K, fileContent, slicer);
  }

  /** A multi-line and a single-line comment both ending on line 1 are rejected at line 1. */
  lemma CrowdedLineFails(matcher: Matcher)
    ensures Reduce(map[1 := [CommentNode(1, 1, "/* a */"), CommentNode(1, 1, "// b")]], matcher)
      == Err(ParseError(MultipleCommentsOnSingleLine, 1))
  {
    var c := map[1 := [CommentNode(1, 1, "/* a */"), CommentNode(1, 1, "// b")]];
    assert BadLines(c, matcher) == {1};
    assert Min({1}) == 1;
    ReduceFirstError(c, matcher);
  }
}
