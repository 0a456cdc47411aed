/** Squish (`squishSingleLineComments`): vertically adjacent single-line comments with equal
  indentation merge into one comment, keyed at the last line of the run.
 */
module SingleLineSquish {
  import opened AstTypes
  import opened LineOrder

  /** The comment at `L` continues the one directly above it: line `L - 1` holds a single-line
      comment with the same indentation. */
  predicate Joins(m: map<int, RawCommentNode>, L: int)
  {
    L in m && L - 1 in m && m[L - 1].indentIndex == m[L].indentIndex
  }

  /** The node the squish loop holds at line `L` right after processing `L`: the comment at `L`
      itself, or the node held at `L - 1` with the comment at `L` merged in. */
  ghost function Squished(m: map<int, RawCommentNode>, L: int): CommentNode
    requires L in m
    decreases L - Min(m.Keys)
  {
    if Joins(m, L) then
      var above := Squished(m, L - 1);
      CommentNode(above.startLine, L, above.content + "\n" + m[L].content)
    else
      m[L].Comment()
  }

  /** The first line of the run of adjacent, equally indented comments that ends at `L`. */
  ghost function RunStart(m: map<int, RawCommentNode>, L: int): int
    requires L in m
    decreases L - Min(m.Keys)
  {
    if Joins(m, L) then RunStart(m, L - 1) else L
  }

  /** The squished single-line comments: one node per line that the comment below does not
      continue. */
  ghost function Squish(m: map<int, RawCommentNode>): map<int, CommentNode>
  {
    map L | L in m && !Joins(m, L + 1) :: Squished(m, L)
  }

  /** The loop's `result` once it has processed exactly the lines in `done`: a line whose
      successor has been processed and continues it has been deleted. */
  ghost function SquishedSoFar(m: map<int, RawCommentNode>, done: set<int>): map<int, CommentNode>
    requires done <= m.Keys
  {
    map L | L in done && !(L + 1 in done && Joins(m, L + 1)) :: Squished(m, L)
  }

  /** Texts joined with newlines, as the merge's template string does pairwise. */
  function JoinLines(xs: seq<string>): string
    requires |xs| >= 1
  {
    if |xs| == 1 then xs[0] else JoinLines(xs[..|xs| - 1]) + "\n" + xs[|xs| - 1]
  }

  /** The texts of the comments at lines `s` to `L`, in line order. */
  function Contents(m: map<int, RawCommentNode>, s: int, L: int): (r: seq<string>)
    requires s <= L && forall k :: s <= k <= L ==> k in m
    ensures |r| == L - s + 1 && forall i :: 0 <= i < |r| ==> r[i] == m[s + i].content
  {
    seq(L - s + 1, i requires 0 <= i < L - s + 1 => m[s + i].content)
  }

  /** Processing one more line `L` (all lines before it processed, none after): either `L` is
      stored unchanged, or the node at `L - 1` is removed and merged into the node at `L`. */
  lemma SquishedSoFarStep(m: map<int, RawCommentNode>, done: set<int>, L: int)
    requires done <= m.Keys && L in m && L !in done
    requires forall k :: k in done ==> k < L
    requires L - 1 in m ==> L - 1 in done
    ensures Joins(m, L) ==> L - 1 in SquishedSoFar(m, done)
    ensures Joins(m, L) ==>
      var above := SquishedSoFar(m, done)[L - 1];
      SquishedSoFar(m, done + {L})
        == (SquishedSoFar(m, done) - {L - 1})[L := CommentNode(above.startLine, L, above.content + "\n" + m[L].content)]
    ensures !Joins(m, L) ==> SquishedSoFar(m, done + {L}) == SquishedSoFar(m, done)[L := m[L].Comment()]
  {
    var before := SquishedSoFar(m, done);
    var after := SquishedSoFar(m, done + {L});
    if Joins(m, L) {
      assert L - 1 in before;
      var above := before[L - 1];
      var expected := (before - {L - 1})[L := CommentNode(above.startLine, L, above.content + "\n" + m[L].content)];
      assert after.Keys == expected.Keys;
      assert after == expected;
    } else {
      var expected := before[L := m[L].Comment()];
      assert after.Keys == expected.Keys;
      assert after == expected;
    }
  }

  /** `squishSingleLineComments`: walk the lines in ascending order; a comment whose line above
      holds no comment, or one with different indentation, is stored as it is; otherwise the node
      stored at the line above is deleted and merged into a node at this line. */
  method SquishSingleLineComments(singleLineComments: map<int, RawCommentNode>)
    returns (result: map<int, CommentNode>)
    ensures result == Squish(singleLineComments)
  {
    result := map[];
    var ascendingEndLines := AscendingKeys(singleLineComments.Keys);
    ghost var done: set<int> := {};
    for i := 0 to |ascendingEndLines|
      invariant forall k :: k in done <==> k in ascendingEndLines[..i]
      invariant done <= singleLineComments.Keys
      invariant result == SquishedSoFar(singleLineComments, done)
    {
      var endLine := ascendingEndLines[i];
      forall k | k in done ensures k < endLine {
        AscendingBefore(ascendingEndLines, i, k);
      }
      if endLine - 1 in singleLineComments {
        AscendingBefore(ascendingEndLines, i, endLine - 1);
      }
      AscendingBefore(ascendingEndLines, i, endLine);
      SquishedSoFarStep(singleLineComments, done, endLine);
      var currentComment := singleLineComments[endLine];
      if endLine - 1 !in singleLineComments
        || singleLineComments[endLine - 1].indentIndex != currentComment.indentIndex
      {
        result := result[endLine := currentComment.Comment()];
      } else {
        var finalCommentAbove := result[endLine - 1];
        result := result - {endLine - 1};
        result := result[endLine := CommentNode(finalCommentAbove.startLine, endLine, finalCommentAbove.content + "\n" + currentComment.content)];
      }
      done := done + {endLine};
      assert ascendingEndLines[..i + 1] == ascendingEndLines[..i] + [endLine];
    }
    assert ascendingEndLines[..|ascendingEndLines|] == ascendingEndLines;
    forall k ensures k in done <==> k in singleLineComments.Keys {
      assert k in done <==> k in ascendingEndLines;
    }
    assert done == singleLineComments.Keys;
    assert SquishedSoFar(singleLineComments, done) == Squish(singleLineComments);
  }

  /** A squished node is a run: the lines from `RunStart(m, L)` to `L` all hold equally indented
      comments, the line above the run does not continue it, and the node spans the run, starting
      where its first comment starts and holding the run's texts joined with newlines. A run of
      one comment is that comment unchanged. */
  lemma {:induction false} SquishedIsRun(m: map<int, RawCommentNode>, L: int)
    requires L in m
    ensures var s := RunStart(m, L);
      && s <= L
      && (forall k :: s <= k <= L ==> k in m && m[k].indentIndex == m[L].indentIndex)
      && !Joins(m, s)
      && Squished(m, L).startLine == m[s].startLine
      && Squished(m, L).endLine == (if s == L then m[L].endLine else L)
      && Squished(m, L).content == JoinLines(Contents(m, s, L))
      && (s == L ==> Squished(m, L) == m[L].Comment())
    decreases L - Min(m.Keys)
  {
    if Joins(m, L) {
      SquishedIsRun(m, L - 1);
      var s := RunStart(m, L);
      assert Contents(m, s, L)[..L - s] == Contents(m, s, L - 1);
    }
  }

  /** Each output node of squish stands for the maximal run ending at its line: the comment below
      does not continue it, and the node's span and text are those of the run. */
  lemma SquishNode(m: map<int, RawCommentNode>, L: int)
    requires L in Squish(m)
    ensures L in m && !Joins(m, L + 1)
    ensures var s := RunStart(m, L);
      && s <= L
      && (forall k :: s <= k <= L ==> k in m && m[k].indentIndex == m[L].indentIndex)
      && !Joins(m, s)
      && Squish(m)[L] == CommentNode(m[s].startLine, if s == L then m[L].endLine else L, JoinLines(Contents(m, s, L)))
  {
    SquishedIsRun(m, L);
  }

  /** No merge: a comment that neither continues the comment above nor is continued by the one
      below comes out unchanged at its own line. */
  lemma SquishUnmerged(m: map<int, RawCommentNode>, L: int)
    requires L in m && !Joins(m, L) && !Joins(m, L + 1)
    ensures L in Squish(m) && Squish(m)[L] == m[L].Comment()
  {
  }

  /** Squish keeps only lines of its input, and when every input comment is stored at its end
      line so is every output node. */
  lemma {:induction false} SquishKeyed(m: map<int, RawCommentNode>)
    ensures Squish(m).Keys <= m.Keys
    ensures SingleLinesKeyed(m) ==> forall L :: L in Squish(m) ==> Squish(m)[L].endLine == L
  {
    forall L | L in Squish(m) ensures Squish(m)[L].endLine == (if RunStart(m, L) == L then m[L].endLine else L) {
      SquishedIsRun(m, L);
    }
  }

  /** Going down from `k` reaches the line above a run only at the run's start. */
  lemma {:induction false} RunEndExists(m: map<int, RawCommentNode>, k: int)
    requires k in m
    ensures exists L :: L in Squish(m) && RunStart(m, L) <= k <= L
    decreases Max(m.Keys) - k
  {
    if !Joins(m, k + 1) {
      SquishedIsRun(m, k);
      assert k in Squish(m) && RunStart(m, k) <= k;
    } else {
      RunEndExists(m, k + 1);
      var L :| L in Squish(m) && RunStart(m, L) <= k + 1 <= L;
      SquishedIsRun(m, L);
      assert RunStart(m, L) != k + 1;
    }
  }

  /** Nothing is lost and nothing is duplicated: every single-line comment lies inside the run of
      exactly one squished node. */
  lemma SquishCovers(m: map<int, RawCommentNode>, k: int)
    requires k in m
    ensures exists L :: L in Squish(m) && RunStart(m, L) <= k <= L
    ensures forall L1, L2 ::
      L1 in Squish(m) && L2 in Squish(m) && RunStart(m, L1) <= k <= L1 && RunStart(m, L2) <= k <= L2 ==> L1 == L2
  {
    RunEndExists(m, k);
    forall L1, L2 | L1 in Squish(m) && L2 in Squish(m) && RunStart(m, L1) <= k <= L1 && RunStart(m, L2) <= k <= L2
      ensures L1 == L2
    {
      RunsDisjoint(m, L1, L2, k);
      RunsDisjoint(m, L2, L1, k);
    }
  }

  /** Two runs that share a line cannot end at different lines: the earlier end would be
      continued by the line below it. */
  lemma RunsDisjoint(m: map<int, RawCommentNode>, L1: int, L2: int, k: int)
    requires L1 in Squish(m) && L2 in Squish(m)
    requires RunStart(m, L2) <= k <= L1
    ensures !(L1 < L2)
  {
    SquishedIsRun(m, L2);
    assert L1 < L2 ==> Joins(m, L1 + 1);
  }
}
