/** Unified assembly (`getFileAstFromRawFileAst`): the multi-line lists and the squished
  single-line comments put into one line-indexed structure.
 */
module Assembly {
  import opened AstTypes
  import opened LineOrder
  import opened SingleLineSquish

  /** The entries of `m` at the lines in `s`. */
  function Restrict<T>(m: map<int, T>, s: set<int>): (r: map<int, T>)
    ensures r.Keys == m.Keys * s && forall L :: L in r ==> r[L] == m[L]
  {
    map L | L in m && L in s :: m[L]
  }

  /** The unified list at each line: the multi-line comments ending there, in the order they were
      added, followed by the squished single-line comment ending there; a line appears when
      either index has it. */
  ghost function Assemble(multi: map<int, seq<CommentNode>>, squished: map<int, CommentNode>): map<int, seq<CommentNode>>
  {
    map L | L in multi.Keys + squished.Keys ::
      (if L in multi then multi[L] else []) + (if L in squished then [squished[L]] else [])
  }

  lemma RestrictStep<T>(m: map<int, T>, done: set<int>, L: int)
    requires L in m
    ensures Restrict(m, done + {L}) == Restrict(m, done)[L := m[L]]
  {
  }

  lemma RestrictAll<T>(m: map<int, T>, s: set<int>)
    requires m.Keys <= s
    ensures Restrict(m, s) == m
  {
  }

  lemma AssembleNoSingles(multi: map<int, seq<CommentNode>>)
    ensures Assemble(multi, map[]) == multi
  {
    forall L | L in multi ensures Assemble(multi, map[])[L] == multi[L] {
      assert multi[L] + [] == multi[L];
    }
  }

  /** Adding the squished comment at one more line `L` appends it to that line's list, or
      creates the list. */
  lemma AssembleStep(multi: map<int, seq<CommentNode>>, squished: map<int, CommentNode>, done: set<int>, L: int)
    requires L in squished && L !in done
    ensures var before := Assemble(multi, Restrict(squished, done));
      Assemble(multi, Restrict(squished, done + {L}))
        == if L in before then before[L := before[L] + [squished[L]]] else before[L := [squished[L]]]
  {
    var before := Assemble(multi, Restrict(squished, done));
    var after := Assemble(multi, Restrict(squished, done + {L}));
    var expected := if L in before then before[L := before[L] + [squished[L]]] else before[L := [squished[L]]];
    assert after.Keys == expected.Keys;
    forall k | k in after ensures after[k] == expected[k] {
      if k == L && L !in multi {
        assert after[k] == [] + [squished[L]];
      }
    }
  }

  /** `getFileAstFromRawFileAst`: copy the multi-line lists, then add each squished single-line
      comment to its line, creating the line's list if needed. */
  method GetFileAstFromRawFileAst(rawFileAst: RawFileAst) returns (fileAst: FileAst)
    ensures fresh(fileAst)
    ensures fileAst.comments == Assemble(rawFileAst.multiLineComments, Squish(rawFileAst.singleLineComments))
  {
    fileAst := new FileAst();
    var multi := rawFileAst.multiLineComments;
    var multiLines := AscendingKeys(multi.Keys);
    ghost var done: set<int> := {};
    for i := 0 to |multiLines|
      invariant fresh(fileAst)
      invariant forall k :: k in done <==> k in multiLines[..i]
      invariant fileAst.comments == Restrict(multi, done)
    {
      var endLine := multiLines[i];
      VisitNext(multiLines, i, done);
      assert endLine in multiLines;
      RestrictStep(multi, done, endLine);
      fileAst.comments := fileAst.comments[endLine := multi[endLine]];
      done := done + {endLine};
    }
    VisitedAll(multiLines, done, multi.Keys);
    RestrictAll(multi, done);
    AssembleNoSingles(multi);

    var squished := SquishSingleLineComments(rawFileAst.singleLineComments);
    var squishedLines := AscendingKeys(squished.Keys);
    done := {};
    assert Restrict(squished, done) == map[];
    for i := 0 to |squishedLines|
      invariant fresh(fileAst)
      invariant forall k :: k in done <==> k in squishedLines[..i]
      invariant fileAst.comments == Assemble(multi, Restrict(squished, done))
    {
      var endLine := squishedLines[i];
      VisitNext(squishedLines, i, done);
      assert endLine in squishedLines;
      AssembleStep(multi, squished, done, endLine);
      done := done + {endLine};
      if endLine !in fileAst.comments {
        fileAst.comments := fileAst.comments[endLine := [squished[endLine]]];
        continue;
      }
      fileAst.comments := fileAst.comments[endLine := fileAst.comments[endLine] + [squished[endLine]]];
    }
    VisitedAll(squishedLines, done, squished.Keys);
    RestrictAll(squished, done);
  }

  /** A line of the unified AST holds the multi-line comments ending there followed by the
      squished single-line one; the lines are exactly those of either index. */
  lemma AssembleLine(multi: map<int, seq<CommentNode>>, squished: map<int, CommentNode>, L: int)
    ensures L in Assemble(multi, squished) <==> L in multi || L in squished
    ensures L in multi && L in squished ==> Assemble(multi, squished)[L] == multi[L] + [squished[L]]
    ensures L in multi && L !in squished ==> Assemble(multi, squished)[L] == multi[L]
    ensures L !in multi && L in squished ==> Assemble(multi, squished)[L] == [squished[L]]
  {
    if L in multi && L !in squished {
      assert multi[L] + [] == multi[L];
    }
  }

  /** Assembling a well-formed raw AST gives non-empty lists whose comments all end at their
      line, the shape the reducer relies on. */
  lemma AssembleWellFormed(rawFileAst: RawFileAst)
    requires rawFileAst.Valid()
    ensures var c := Assemble(rawFileAst.multiLineComments, Squish(rawFileAst.singleLineComments));
      NonEmptyLists(c) && ListsKeyed(c)
  {
    var multi := rawFileAst.multiLineComments;
    var squished := Squish(rawFileAst.singleLineComments);
    SquishKeyed(rawFileAst.singleLineComments);
    forall L | L in Assemble(multi, squished) ensures |Assemble(multi, squished)[L]| >= 1 {
      AssembleLine(multi, squished, L);
    }
    forall L, i | L in Assemble(multi, squished) && 0 <= i < |Assemble(multi, squished)[L]|
      ensures Assemble(multi, squished)[L][i].endLine == L
    {
      AssembleLine(multi, squished, L);
    }
  }

  /** A line of the unified AST holds more than one comment exactly when several multi-line
      comments end there, or a multi-line and a single-line one do: the condition under which
      the reducer rejects the file. */
  lemma AssembleCrowded(rawFileAst: RawFileAst, L: int)
    requires rawFileAst.Valid()
    ensures var multi := rawFileAst.multiLineComments;
      var c := Assemble(multi, Squish(rawFileAst.singleLineComments));
      L in c && |c[L]| > 1 <==> L in multi && (|multi[L]| > 1 || L in Squish(rawFileAst.singleLineComments))
  {
    AssembleLine(rawFileAst.multiLineComments, Squish(rawFileAst.singleLineComments), L);
  }
}
