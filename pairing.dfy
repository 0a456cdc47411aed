/** Pairing (`standardTagsFromReducedFileAst`): every start annotation is closed by the first
  end annotation at or after the line it ends on, and each pair becomes a tag.

  The start annotations are visited in ascending line order. The closing end annotation is
  marked as seen in place; finding it already seen, or finding no end annotation at all, is a
  fatal error. The scan does not skip a seen end annotation to look for a later one.
 */
module TagPairing {
  import opened AstTypes
  import opened LineOrder

  /** The first line of `ks` at or after `from` that holds an end annotation, seen or not. */
  function FirstEnd(c: map<int, ReducedCommentNode>, ks: seq<int>, from: int): (r: Option<int>)
    requires forall k :: k in ks ==> k in c
    ensures r.Some? ==> r.value in ks && from <= r.value && c[r.value].data.EndAnnotation?
    ensures r.None? ==> forall k :: k in ks && from <= k ==> !c[k].data.EndAnnotation?
    decreases |ks|
  {
    if ks == [] then None
    else if from <= ks[0] && c[ks[0]].data.EndAnnotation? then Some(ks[0])
    else
      assert forall k :: k in ks ==> k == ks[0] || k in ks[1..];
      FirstEnd(c, ks[1..], from)
  }

  /** The tag a start annotation and its end annotation make: from the first line of the start
      comment to the last line of the end comment, with the lines of the file in that span. */
  function Tag(start: ReducedCommentNode, end: ReducedCommentNode, fileContent: string, slicer: LineSlicer): (t: VdTag)
    requires start.data.StartAnnotation?
    ensures t.startLine == start.startLine && t.endLine == end.endLine
    ensures t.ownerGroups == start.data.ownerGroups && t.tagAnnotationLine == start.data.tagAnnotationLine
    ensures t.content == slicer(fileContent, start.startLine, end.endLine)
  {
    VdTag(start.startLine, end.endLine, start.data.ownerGroups, start.data.tagAnnotationLine,
      slicer(fileContent, start.startLine, end.endLine))
  }

  /** The state of the pairer: the reduced comments with their seen flags, and the tags found so
      far or the error that stopped it. */
  datatype PairState = PairState(comments: map<int, ReducedCommentNode>, outcome: Result<seq<VdTag>>)

  /** One iteration of the outer loop, at line `L`, scanning the lines `sorted`. */
  function PairStep(p: PairState, L: int, sorted: seq<int>, fileContent: string, slicer: LineSlicer): (r: PairState)
    requires L in p.comments && forall k :: k in sorted ==> k in p.comments
    ensures r.comments.Keys == p.comments.Keys
  {
    if p.outcome.Err? then p
    else
      var node := p.comments[L];
      if node.data.EndAnnotation? then p
      else
        match FirstEnd(p.comments, sorted, node.endLine)
        case None => PairState(p.comments, Err(ParseError(NoEndAnnotation, node.startLine)))
        case Some(k) =>
          var end := p.comments[k];
          if end.data.seen then PairState(p.comments, Err(ParseError(EndAnnotationUsedMultipleTimes, end.startLine)))
          else
            PairState(p.comments[k := end.(data := EndAnnotation(true))],
              Ok(p.outcome.value + [Tag(node, end, fileContent, slicer)]))
  }

  /** The outer loop run over the lines `ks`, starting from the reduced comments `c0`. */
  function PairLines(c0: map<int, ReducedCommentNode>, ks: seq<int>, sorted: seq<int>, fileContent: string, slicer: LineSlicer): (r: PairState)
    requires forall k :: k in ks ==> k in c0
    requires forall k :: k in sorted ==> k in c0
    ensures r.comments.Keys == c0.Keys
  {
    if ks == [] then PairState(c0, Ok([]))
    else
      assert forall k :: k in ks[..|ks| - 1] ==> k in ks;
      PairStep(PairLines(c0, ks[..|ks| - 1], sorted, fileContent, slicer), ks[|ks| - 1], sorted, fileContent, slicer)
  }

  /** The pairing of a whole reduced AST: both loops walk its lines in ascending order. */
  ghost function Pair(c0: map<int, ReducedCommentNode>, fileContent: string, slicer: LineSlicer): PairState
  {
    PairLines(c0, Ascending(c0.Keys), Ascending(c0.Keys), fileContent, slicer)
  }

  /** Once the loop has stopped with an error, later lines change nothing. */
  lemma {:induction false} PairErrorSticks(c0: map<int, ReducedCommentNode>, ks: seq<int>, i: int, sorted: seq<int>, fileContent: string, slicer: LineSlicer)
    requires (forall k :: k in ks ==> k in c0) && forall k :: k in sorted ==> k in c0
    requires 0 <= i <= |ks|
    requires (forall k :: k in ks[..i] ==> k in c0) && PairLines(c0, ks[..i], sorted, fileContent, slicer).outcome.Err?
    ensures PairLines(c0, ks, sorted, fileContent, slicer) == PairLines(c0, ks[..i], sorted, fileContent, slicer)
    decreases |ks| - i
  {
    if i < |ks| {
      var front := ks[..|ks| - 1];
      assert front[..i] == ks[..i];
      assert forall k :: k in front ==> k in ks;
      PairErrorSticks(c0, front, i, sorted, fileContent, slicer);
    } else {
      assert ks[..i] == ks;
    }
  }

  /** The loop over `ks[..i + 1]` is the loop over `ks[..i]` followed by one step at `ks[i]`. */
  lemma PairLinesNext(c0: map<int, ReducedCommentNode>, ks: seq<int>, i: int, sorted: seq<int>, fileContent: string, slicer: LineSlicer)
    requires (forall k :: k in ks ==> k in c0) && forall k :: k in sorted ==> k in c0
    requires 0 <= i < |ks|
    ensures forall k :: k in ks[..i] ==> k in c0
    ensures forall k :: k in ks[..i + 1] ==> k in c0
    ensures PairLines(c0, ks[..i + 1], sorted, fileContent, slicer)
      == PairStep(PairLines(c0, ks[..i], sorted, fileContent, slicer), ks[i], sorted, fileContent, slicer)
  {
    assert forall k :: k in ks[..i] ==> k in ks;
    assert forall k :: k in ks[..i + 1] ==> k in ks;
    assert ks[..i + 1][..i] == ks[..i];
    assert ks[i] in ks;
  }

  /** The inner scan passes over a line before `from` or one without an end annotation. */
  lemma ScanSkip(c: map<int, ReducedCommentNode>, ks: seq<int>, j: int, from: int)
    requires (forall k :: k in ks ==> k in c) && 0 <= j < |ks|
    requires ks[j] < from || !c[ks[j]].data.EndAnnotation?
    ensures FirstEnd(c, ks[j..], from) == FirstEnd(c, ks[j + 1..], from)
  {
    assert ks[j..][1..] == ks[j + 1..];
    assert ks[j] in ks;
  }

  /** The inner scan stops at an end annotation at or after `from`. */
  lemma ScanHit(c: map<int, ReducedCommentNode>, ks: seq<int>, j: int, from: int)
    requires (forall k :: k in ks ==> k in c) && 0 <= j < |ks|
    requires from <= ks[j] && c[ks[j]].data.EndAnnotation?
    ensures FirstEnd(c, ks[j..], from) == Some(ks[j])
  {
    assert ks[j] in ks;
  }

  /** A step at a start annotation whose closing end annotation `k` is unseen marks `k` and
      appends the tag. */
  lemma PairStepCloses(p: PairState, L: int, sorted: seq<int>, fileContent: string, slicer: LineSlicer, k: int)
    requires L in p.comments && forall k :: k in sorted ==> k in p.comments
    requires p.outcome.Ok? && p.comments[L].data.StartAnnotation?
    requires FirstEnd(p.comments, sorted, p.comments[L].endLine) == Some(k) && !p.comments[k].data.seen
    ensures PairStep(p, L, sorted, fileContent, slicer) ==
      PairState(p.comments[k := p.comments[k].(data := EndAnnotation(true))],
        Ok(p.outcome.value + [VdTag(p.comments[L].startLine, p.comments[k].endLine, p.comments[L].data.ownerGroups,
          p.comments[L].data.tagAnnotationLine, slicer(fileContent, p.comments[L].startLine, p.comments[k].endLine))]))
  {
  }

  /** A step at a start annotation with no end annotation after it fails. */
  lemma PairStepNoEnd(p: PairState, L: int, sorted: seq<int>, fileContent: string, slicer: LineSlicer)
    requires L in p.comments && forall k :: k in sorted ==> k in p.comments
    requires p.outcome.Ok? && p.comments[L].data.StartAnnotation?
    requires FirstEnd(p.comments, sorted, p.comments[L].endLine) == None
    ensures PairStep(p, L, sorted, fileContent, slicer) ==
      PairState(p.comments, Err(ParseError(NoEndAnnotation, p.comments[L].startLine)))
  {
  }

  /** A step at a start annotation whose closing end annotation `k` is already seen fails. */
  lemma PairStepSeen(p: PairState, L: int, sorted: seq<int>, fileContent: string, slicer: LineSlicer, k: int)
    requires L in p.comments && forall k :: k in sorted ==> k in p.comments
    requires p.outcome.Ok? && p.comments[L].data.StartAnnotation?
    requires FirstEnd(p.comments, sorted, p.comments[L].endLine) == Some(k) && p.comments[k].data.seen
    ensures PairStep(p, L, sorted, fileContent, slicer) ==
      PairState(p.comments, Err(ParseError(EndAnnotationUsedMultipleTimes, p.comments[k].startLine)))
  {
  }

  /** A step at a line without a start annotation changes nothing. */
  lemma PairStepPasses(p: PairState, L: int, sorted: seq<int>, fileContent: string, slicer: LineSlicer)
    requires L in p.comments && forall k :: k in sorted ==> k in p.comments
    requires !p.comments[L].data.StartAnnotation?
    ensures PairStep(p, L, sorted, fileContent, slicer) == p
  {
  }

  /** When the loop stops with an error at index `i`, that is the outcome of the whole pairing. */
  lemma PairStopsAt(c0: map<int, ReducedCommentNode>, keys: seq<int>, i: int, fileContent: string, slicer: LineSlicer)
    requires keys == Ascending(c0.Keys) && 0 <= i < |keys|
    requires (forall k :: k in keys[..i + 1] ==> k in c0) && PairLines(c0, keys[..i + 1], keys, fileContent, slicer).outcome.Err?
    ensures Pair(c0, fileContent, slicer) == PairLines(c0, keys[..i + 1], keys, fileContent, slicer)
  {
    PairErrorSticks(c0, keys, i + 1, keys, fileContent, slicer);
  }

  /** The inner loop of `standardTagsFromReducedFileAst`: the forward scan over the sorted lines
      for the first end annotation at or after line `from`. */
  method ScanForEnd(comments: map<int, ReducedCommentNode>, commentLineNumbers: seq<int>, from: int)
    returns (found: Option<int>)
    requires forall k :: k in commentLineNumbers ==> k in comments
    ensures found == FirstEnd(comments, commentLineNumbers, from)
  {
    for j := 0 to |commentLineNumbers|
      invariant FirstEnd(comments, commentLineNumbers[j..], from) == FirstEnd(comments, commentLineNumbers, from)
    {
      var lineNumber := commentLineNumbers[j];
      if lineNumber < from {
        ScanSkip(comments, commentLineNumbers, j, from);
        continue;
      }
      var currentCommentNode := comments[lineNumber];
      if currentCommentNode.data.EndAnnotation? {
        ScanHit(comments, commentLineNumbers, j, from);
        return Some(lineNumber);
      }
      ScanSkip(comments, commentLineNumbers, j, from);
    }
    assert commentLineNumbers[|commentLineNumbers|..] == [];
    return None;
  }

  /** `standardTagsFromReducedFileAst`. The inner scan is `ScanForEnd`; finding an end annotation
      that is already seen fails, otherwise it is marked seen, the tag is pushed and the outer
      loop goes on with the next line. */
  method StandardTagsFromReducedFileAst(reducedFileAst: ReducedFileAst, fileContent: string, slicer: LineSlicer)
    returns (vdTagsOrError: Result<seq<VdTag>>)
    modifies reducedFileAst
    ensures vdTagsOrError == Pair(old(reducedFileAst.comments), fileContent, slicer).outcome
    ensures reducedFileAst.comments == Pair(old(reducedFileAst.comments), fileContent, slicer).comments
  {
    ghost var c0 := reducedFileAst.comments;
    var vdTags: seq<VdTag> := [];
    var keys := AscendingKeys(reducedFileAst.comments.Keys);
    for i := 0 to |keys|
      invariant reducedFileAst.comments.Keys == c0.Keys
      invariant forall k :: k in keys[..i] ==> k in c0
      invariant PairLines(c0, keys[..i], keys, fileContent, slicer) == PairState(reducedFileAst.comments, Ok(vdTags))
    {
      var commentLineNumber := keys[i];
      PairLinesNext(c0, keys, i, keys, fileContent, slicer);
      assert commentLineNumber in keys;
      var reducedCommentNode := reducedFileAst.comments[commentLineNumber];
      if !reducedCommentNode.data.StartAnnotation? {
        PairStepPasses(PairState(reducedFileAst.comments, Ok(vdTags)), commentLineNumber, keys, fileContent, slicer);
        continue;
      }
      var commentLineNumbers := AscendingKeys(reducedFileAst.comments.Keys);
      assert commentLineNumbers == keys;
      var found := ScanForEnd(reducedFileAst.comments, commentLineNumbers, reducedCommentNode.endLine);
      ghost var p := PairState(reducedFileAst.comments, Ok(vdTags));
      match found
      case None =>
        PairStepNoEnd(p, commentLineNumber, keys, fileContent, slicer);
        PairStopsAt(c0, keys, i, fileContent, slicer);
        return Err(ParseError(NoEndAnnotation, reducedCommentNode.startLine));
      case Some(lineNumber) =>
        var currentCommentNode := reducedFileAst.comments[lineNumber];
        if currentCommentNode.data.seen {
          PairStepSeen(p, commentLineNumber, keys, fileContent, slicer, lineNumber);
          PairStopsAt(c0, keys, i, fileContent, slicer);
          return Err(ParseError(EndAnnotationUsedMultipleTimes, currentCommentNode.startLine));
        }
        var startLine := reducedCommentNode.startLine;
        var endLine := currentCommentNode.endLine;
        PairStepCloses(p, commentLineNumber, keys, fileContent, slicer, lineNumber);
        reducedFileAst.comments := reducedFileAst.comments[lineNumber := currentCommentNode.(data := EndAnnotation(true))];
        vdTags := vdTags + [VdTag(startLine, endLine, reducedCommentNode.data.ownerGroups,
          reducedCommentNode.data.tagAnnotationLine, slicer(fileContent, startLine, endLine))];
    }
    assert keys[..|keys|] == keys;
    vdTagsOrError := Ok(vdTags);
  }

  /** Under an ascending scan, the end annotation found is the smallest one at or after `from`. */
  lemma {:induction false} FirstEndLeast(c: map<int, ReducedCommentNode>, ks: seq<int>, from: int)
    requires forall k :: k in ks ==> k in c
    requires Increasing(ks)
    ensures FirstEnd(c, ks, from).Some? ==>
      forall k :: k in ks && from <= k < FirstEnd(c, ks, from).value ==> !c[k].data.EndAnnotation?
    decreases |ks|
  {
    if ks != [] {
      assert forall k :: k in ks ==> k == ks[0] || k in ks[1..];
      assert forall k :: k in ks[1..] ==> k in ks;
      assert Increasing(ks[1..]);
      FirstEndLeast(c, ks[1..], from);
      assert FirstEnd(c, ks, from).Some? && FirstEnd(c, ks, from).value != ks[0] ==> FirstEnd(c, ks, from).value in ks[1..];
      assert forall k :: k in ks[1..] ==> ks[0] < k;
    }
  }

  /** The scan sees only which lines hold end annotations, not their seen flags. */
  lemma {:induction false} FirstEndKinds(c: map<int, ReducedCommentNode>, c': map<int, ReducedCommentNode>, ks: seq<int>, from: int)
    requires forall k :: k in ks ==> k in c && k in c' && c[k].data.EndAnnotation? == c'[k].data.EndAnnotation?
    ensures FirstEnd(c, ks, from) == FirstEnd(c', ks, from)
    decreases |ks|
  {
    if ks != [] {
      assert forall k :: k in ks[1..] ==> k in ks;
      FirstEndKinds(c, c', ks[1..], from);
    }
  }

  /** Line `L` holds a start annotation. */
  predicate IsStart(c0: map<int, ReducedCommentNode>, L: int)
  {
    L in c0 && c0[L].data.StartAnnotation?
  }

  /** The end annotation that closes the start annotation at `L`, in the comments as reduced. */
  function Close(c0: map<int, ReducedCommentNode>, sorted: seq<int>, L: int): (r: Option<int>)
    requires L in c0 && forall k :: k in sorted ==> k in c0
  {
    FirstEnd(c0, sorted, c0[L].endLine)
  }

  /** Every start annotation among `ks` finds an end annotation, and no two of them (nor one
      visited twice) find the same one: the condition for pairing to succeed. */
  ghost predicate PairsOk(c0: map<int, ReducedCommentNode>, ks: seq<int>, sorted: seq<int>)
    requires (forall k :: k in ks ==> k in c0) && forall k :: k in sorted ==> k in c0
  {
    && (forall i :: 0 <= i < |ks| && IsStart(c0, ks[i]) ==> Close(c0, sorted, ks[i]).Some?)
    && (forall i, j :: 0 <= i < j < |ks| && IsStart(c0, ks[i]) && IsStart(c0, ks[j]) ==>
          Close(c0, sorted, ks[i]) != Close(c0, sorted, ks[j]))
  }

  /** The end annotations claimed by the start annotations among `ks`. */
  ghost function ClosedBy(c0: map<int, ReducedCommentNode>, ks: seq<int>, sorted: seq<int>): set<int>
    requires (forall k :: k in ks ==> k in c0) && forall k :: k in sorted ==> k in c0
  {
    set i | 0 <= i < |ks| && IsStart(c0, ks[i]) && Close(c0, sorted, ks[i]).Some? :: Close(c0, sorted, ks[i]).value
  }

  /** `c0` with the end annotations at the lines `E` marked as seen. */
  ghost function MarkSeen(c0: map<int, ReducedCommentNode>, E: set<int>): map<int, ReducedCommentNode>
  {
    map L | L in c0 :: if L in E && c0[L].data.EndAnnotation? then c0[L].(data := EndAnnotation(true)) else c0[L]
  }

  /** The tags of the start annotations among `ks`, in visiting order, each spanning to the end
      annotation that closes it. */
  ghost function ExpectedTags(c0: map<int, ReducedCommentNode>, ks: seq<int>, sorted: seq<int>, fileContent: string, slicer: LineSlicer): seq<VdTag>
    requires (forall k :: k in ks ==> k in c0) && forall k :: k in sorted ==> k in c0
  {
    if ks == [] then []
    else
      assert forall k :: k in ks[..|ks| - 1] ==> k in ks;
      var L := ks[|ks| - 1];
      var before := ExpectedTags(c0, ks[..|ks| - 1], sorted, fileContent, slicer);
      match Close(c0, sorted, L)
      case Some(k) => if c0[L].data.StartAnnotation? then before + [Tag(c0[L], c0[k], fileContent, slicer)] else before
      case None => before
  }

  /** Marking end annotations seen keeps every line, its span and its kind, and changes no start
      annotation; when nothing was seen before, exactly the marked end annotations are seen. */
  lemma MarkSeenFacts(c0: map<int, ReducedCommentNode>, E: set<int>)
    ensures MarkSeen(c0, E).Keys == c0.Keys
    ensures forall L :: L in c0 ==>
      && MarkSeen(c0, E)[L].data.EndAnnotation? == c0[L].data.EndAnnotation?
      && MarkSeen(c0, E)[L].startLine == c0[L].startLine
      && MarkSeen(c0, E)[L].endLine == c0[L].endLine
    ensures forall L :: L in c0 && c0[L].data.StartAnnotation? ==> MarkSeen(c0, E)[L] == c0[L]
    ensures forall L :: L in c0 && L !in E ==> MarkSeen(c0, E)[L] == c0[L]
    ensures AllUnseen(c0) ==> forall L :: L in c0 && c0[L].data.EndAnnotation? ==> (MarkSeen(c0, E)[L].data.seen <==> L in E)
  {
  }

  lemma MarkSeenAdd(c0: map<int, ReducedCommentNode>, E: set<int>, k: int)
    requires k in c0 && c0[k].data.EndAnnotation?
    ensures MarkSeen(c0, E + {k}) == MarkSeen(c0, E)[k := c0[k].(data := EndAnnotation(true))]
  {
  }

  /** How the claimed ends, the success condition and the expected tags grow by one line. */
  lemma PairSpecNext(c0: map<int, ReducedCommentNode>, ks: seq<int>, sorted: seq<int>, fileContent: string, slicer: LineSlicer)
    requires (forall k :: k in ks ==> k in c0) && forall k :: k in sorted ==> k in c0
    requires ks != []
    ensures var front := ks[..|ks| - 1];
      var L := ks[|ks| - 1];
      && (forall k :: k in front ==> k in c0)
      && L in c0
      && ClosedBy(c0, ks, sorted) ==
           ClosedBy(c0, front, sorted) + (if IsStart(c0, L) && Close(c0, sorted, L).Some? then {Close(c0, sorted, L).value} else {})
      && (PairsOk(c0, ks, sorted) <==>
           PairsOk(c0, front, sorted) &&
           (IsStart(c0, L) ==> Close(c0, sorted, L).Some? && Close(c0, sorted, L).value !in ClosedBy(c0, front, sorted)))
  {
    var n := |ks| - 1;
    var front := ks[..n];
    var L := ks[n];
    assert forall k :: k in front ==> k in ks;
    assert ks[n] in ks;
    assert forall i :: 0 <= i < n ==> front[i] == ks[i];
    var cb := ClosedBy(c0, front, sorted);
    var cbAll := ClosedBy(c0, ks, sorted);
    var extra := if IsStart(c0, L) && Close(c0, sorted, L).Some? then {Close(c0, sorted, L).value} else {};
    forall e | e in cbAll ensures e in cb + extra {
      var i :| 0 <= i < |ks| && IsStart(c0, ks[i]) && Close(c0, sorted, ks[i]).Some? && Close(c0, sorted, ks[i]).value == e;
      if i < n {
        assert IsStart(c0, front[i]) && Close(c0, sorted, front[i]).Some?;
      }
    }
    forall e | e in cb + extra ensures e in cbAll {
      if e in cb {
        var i :| 0 <= i < n && IsStart(c0, front[i]) && Close(c0, sorted, front[i]).Some? && Close(c0, sorted, front[i]).value == e;
        assert IsStart(c0, ks[i]) && Close(c0, sorted, ks[i]).Some?;
      } else {
        assert IsStart(c0, ks[n]) && Close(c0, sorted, ks[n]).Some?;
      }
    }
    if PairsOk(c0, ks, sorted) && IsStart(c0, L) {
      assert Close(c0, sorted, ks[n]).Some?;
      forall i | 0 <= i < n && IsStart(c0, front[i]) && Close(c0, sorted, front[i]).Some?
        ensures Close(c0, sorted, front[i]).value != Close(c0, sorted, L).value
      {
        assert Close(c0, sorted, ks[i]) != Close(c0, sorted, ks[n]);
      }
    }
    if PairsOk(c0, front, sorted) && (IsStart(c0, L) ==> Close(c0, sorted, L).Some? && Close(c0, sorted, L).value !in cb) {
      forall i, j | 0 <= i < j < |ks| && IsStart(c0, ks[i]) && IsStart(c0, ks[j])
        ensures Close(c0, sorted, ks[i]) != Close(c0, sorted, ks[j])
      {
        if j == n {
          assert IsStart(c0, front[i]);
          assert Close(c0, sorted, ks[i]).Some? && Close(c0, sorted, ks[i]).value in cb;
        } else {
          assert IsStart(c0, front[i]) && IsStart(c0, front[j]);
        }
      }
      forall i | 0 <= i < |ks| && IsStart(c0, ks[i]) ensures Close(c0, sorted, ks[i]).Some? {
        if i < n {
          assert IsStart(c0, front[i]);
        }
      }
    }
  }

  /** One step of the outer loop from the state that `PairLinesSpec` describes: at a start
      annotation it fails when no end annotation follows, or when the one that follows is
      already claimed; otherwise it claims that end annotation and adds its tag. */
  lemma PairStepSpec(c0: map<int, ReducedCommentNode>, front: seq<int>, L: int, sorted: seq<int>, fileContent: string, slicer: LineSlicer)
    requires (forall k :: k in front ==> k in c0) && (forall k :: k in sorted ==> k in c0) && L in c0
    requires AllUnseen(c0)
    ensures var E := ClosedBy(c0, front, sorted);
      var q := PairStep(PairState(MarkSeen(c0, E), Ok(ExpectedTags(c0, front, sorted, fileContent, slicer))), L, sorted, fileContent, slicer);
      && (q.outcome.Ok? <==> (IsStart(c0, L) ==> Close(c0, sorted, L).Some? && Close(c0, sorted, L).value !in E))
      && (!IsStart(c0, L) ==> q == PairState(MarkSeen(c0, E), Ok(ExpectedTags(c0, front, sorted, fileContent, slicer))))
      && (IsStart(c0, L) && Close(c0, sorted, L).None? ==> q.outcome == Err(ParseError(NoEndAnnotation, c0[L].startLine)))
      && (IsStart(c0, L) && Close(c0, sorted, L).Some? && Close(c0, sorted, L).value in E ==>
            q.outcome == Err(ParseError(EndAnnotationUsedMultipleTimes, c0[Close(c0, sorted, L).value].startLine)))
      && (IsStart(c0, L) && Close(c0, sorted, L).Some? && Close(c0, sorted, L).value !in E ==>
            q == PairState(MarkSeen(c0, E + {Close(c0, sorted, L).value}),
              Ok(ExpectedTags(c0, front, sorted, fileContent, slicer) + [Tag(c0[L], c0[Close(c0, sorted, L).value], fileContent, slicer)])))
  {
    var E := ClosedBy(c0, front, sorted);
    var M := MarkSeen(c0, E);
    MarkSeenFacts(c0, E);
    if IsStart(c0, L) {
      FirstEndKinds(M, c0, sorted, M[L].endLine);
      match Close(c0, sorted, L)
      case None =>
      case Some(k) =>
        if k !in E {
          MarkSeenAdd(c0, E, k);
        }
    }
  }

  /** Pairing the lines `ks` of a freshly reduced AST (no end annotation seen yet) succeeds
      exactly when `PairsOk` holds; it then yields the expected tags and leaves exactly the
      claimed end annotations seen. */
  lemma {:induction false} PairLinesSpec(c0: map<int, ReducedCommentNode>, ks: seq<int>, sorted: seq<int>, fileContent: string, slicer: LineSlicer)
    requires (forall k :: k in ks ==> k in c0) && forall k :: k in sorted ==> k in c0
    requires AllUnseen(c0)
    ensures PairLines(c0, ks, sorted, fileContent, slicer).outcome.Ok? <==> PairsOk(c0, ks, sorted)
    ensures PairsOk(c0, ks, sorted) ==>
      PairLines(c0, ks, sorted, fileContent, slicer)
        == PairState(MarkSeen(c0, ClosedBy(c0, ks, sorted)), Ok(ExpectedTags(c0, ks, sorted, fileContent, slicer)))
  {
    if ks == [] {
      assert ClosedBy(c0, ks, sorted) == {};
      assert MarkSeen(c0, {}) == c0;
    } else {
      var front := ks[..|ks| - 1];
      var L := ks[|ks| - 1];
      PairSpecNext(c0, ks, sorted, fileContent, slicer);
      PairLinesSpec(c0, front, sorted, fileContent, slicer);
      if PairsOk(c0, front, sorted) {
        PairStepSpec(c0, front, L, sorted, fileContent, slicer);
        var E := ClosedBy(c0, front, sorted);
        var p := PairLines(c0, front, sorted, fileContent, slicer);
        assert p == PairState(MarkSeen(c0, E), Ok(ExpectedTags(c0, front, sorted, fileContent, slicer)));
        assert PairLines(c0, ks, sorted, fileContent, slicer) == PairStep(p, L, sorted, fileContent, slicer);
        if PairsOk(c0, ks, sorted) {
          if IsStart(c0, L) {
            var k := Close(c0, sorted, L).value;
            assert ClosedBy(c0, ks, sorted) == E + {k};
            assert ExpectedTags(c0, ks, sorted, fileContent, slicer)
              == ExpectedTags(c0, front, sorted, fileContent, slicer) + [Tag(c0[L], c0[k], fileContent, slicer)];
          } else {
            assert ClosedBy(c0, ks, sorted) == E;
            assert ExpectedTags(c0, ks, sorted, fileContent, slicer) == ExpectedTags(c0, front, sorted, fileContent, slicer);
          }
        }
      }
    }
  }

  /** Pairing a freshly reduced AST succeeds exactly when every start annotation has its own
      closing end annotation; then it returns the expected tags and marks the claimed ends seen. */
  lemma PairOutcome(c0: map<int, ReducedCommentNode>, fileContent: string, slicer: LineSlicer)
    requires AllUnseen(c0)
    ensures var K := Ascending(c0.Keys);
      && (Pair(c0, fileContent, slicer).outcome.Ok? <==> PairsOk(c0, K, K))
      && (PairsOk(c0, K, K) ==>
            Pair(c0, fileContent, slicer) == PairState(MarkSeen(c0, ClosedBy(c0, K, K)), Ok(ExpectedTags(c0, K, K, fileContent, slicer))))
  {
    var K := Ascending(c0.Keys);
    PairLinesSpec(c0, K, K, fileContent, slicer);
  }

  /** The start annotation closed by `Close` is closed by the nearest end annotation at or after
      the line its comment ends on; with none there, it is not closed. */
  lemma CloseIsNearest(c0: map<int, ReducedCommentNode>, L: int)
    requires L in c0
    ensures var r := Close(c0, Ascending(c0.Keys), L);
      && (r.Some? ==>
            && r.value in c0 && c0[r.value].data.EndAnnotation? && c0[L].endLine <= r.value
            && forall k :: k in c0 && c0[L].endLine <= k < r.value ==> !c0[k].data.EndAnnotation?)
      && (r.None? ==> forall k :: k in c0 && c0[L].endLine <= k ==> !c0[k].data.EndAnnotation?)
  {
    var K := Ascending(c0.Keys);
    FirstEndLeast(c0, K, c0[L].endLine);
    assert forall k :: k in c0 ==> k in K;
  }

  /** The first start annotation among `ks` that fails decides the error: no end annotation
      follows it (reported at the start comment's first line), or the one that follows is already
      claimed (reported at the end comment's first line). */
  lemma PairFailsAt(c0: map<int, ReducedCommentNode>, ks: seq<int>, i: int, sorted: seq<int>, fileContent: string, slicer: LineSlicer)
    requires (forall k :: k in ks ==> k in c0) && forall k :: k in sorted ==> k in c0
    requires AllUnseen(c0) && 0 <= i < |ks|
    requires (forall k :: k in ks[..i] ==> k in c0) && PairsOk(c0, ks[..i], sorted)
    requires IsStart(c0, ks[i])
    requires Close(c0, sorted, ks[i]).None? || Close(c0, sorted, ks[i]).value in ClosedBy(c0, ks[..i], sorted)
    ensures PairLines(c0, ks, sorted, fileContent, slicer).outcome ==
      if Close(c0, sorted, ks[i]).None? then Err(ParseError(NoEndAnnotation, c0[ks[i]].startLine))
      else Err(ParseError(EndAnnotationUsedMultipleTimes, c0[Close(c0, sorted, ks[i]).value].startLine))
  {
    PairLinesNext(c0, ks, i, sorted, fileContent, slicer);
    PairLinesSpec(c0, ks[..i], sorted, fileContent, slicer);
    PairStepSpec(c0, ks[..i], ks[i], sorted, fileContent, slicer);
    PairErrorSticks(c0, ks, i + 1, sorted, fileContent, slicer);
  }

  /** When pairing fails, it fails at a first offending start annotation. */
  lemma {:induction false} PairFailureExists(c0: map<int, ReducedCommentNode>, ks: seq<int>, sorted: seq<int>)
    requires (forall k :: k in ks ==> k in c0) && forall k :: k in sorted ==> k in c0
    requires !PairsOk(c0, ks, sorted)
    ensures exists i ::
      && 0 <= i < |ks| && (forall k :: k in ks[..i] ==> k in c0) && PairsOk(c0, ks[..i], sorted)
      && IsStart(c0, ks[i])
      && (Close(c0, sorted, ks[i]).None? || Close(c0, sorted, ks[i]).value in ClosedBy(c0, ks[..i], sorted))
  {
    var n := |ks| - 1;
    assert ks != [] by {
      assert PairsOk(c0, [], sorted);
    }
    var front := ks[..n];
    PairSpecNext(c0, ks, sorted, "", (x: string, a: int, b: int) => []);
    if PairsOk(c0, front, sorted) {
      assert forall k :: k in ks[..n] ==> k in c0;
    } else {
      PairFailureExists(c0, front, sorted);
      var i :| 0 <= i < |front| && (forall k :: k in front[..i] ==> k in c0) && PairsOk(c0, front[..i], sorted)
        && IsStart(c0, front[i])
        && (Close(c0, sorted, front[i]).None? || Close(c0, sorted, front[i]).value in ClosedBy(c0, front[..i], sorted));
      assert front[..i] == ks[..i] && front[i] == ks[i];
    }
  }

  /** The start annotations among `ks`, in visiting order. */
  ghost function Starts(c0: map<int, ReducedCommentNode>, ks: seq<int>): (r: seq<int>)
    ensures forall n :: 0 <= n < |r| ==> r[n] in ks && IsStart(c0, r[n])
  {
    if ks == [] then []
    else
      var rest := Starts(c0, ks[..|ks| - 1]);
      assert forall n :: 0 <= n < |rest| ==> rest[n] in ks;
      if IsStart(c0, ks[|ks| - 1]) then rest + [ks[|ks| - 1]] else rest
  }

  /** When pairing succeeds, the `n`-th tag belongs to the `n`-th start annotation visited: it
      starts at that comment's first line, carries its owner groups and annotation line, and ends
      at the last line of the end annotation closing it, at or after the start comment. */
  lemma {:induction false} ExpectedTagsShape(c0: map<int, ReducedCommentNode>, ks: seq<int>, sorted: seq<int>, fileContent: string, slicer: LineSlicer)
    requires (forall k :: k in ks ==> k in c0) && forall k :: k in sorted ==> k in c0
    requires PairsOk(c0, ks, sorted)
    ensures var tags := ExpectedTags(c0, ks, sorted, fileContent, slicer);
      var starts := Starts(c0, ks);
      && |tags| == |starts|
      && (forall n :: 0 <= n < |tags| ==>
            && Close(c0, sorted, starts[n]).Some?
            && tags[n] == Tag(c0[starts[n]], c0[Close(c0, sorted, starts[n]).value], fileContent, slicer)
            && c0[starts[n]].endLine <= Close(c0, sorted, starts[n]).value
            && Close(c0, sorted, starts[n]).value in ClosedBy(c0, ks, sorted))
      && forall n, m :: 0 <= n < m < |tags| ==> Close(c0, sorted, starts[n]) != Close(c0, sorted, starts[m])
  {
    if ks != [] {
      var front := ks[..|ks| - 1];
      PairSpecNext(c0, ks, sorted, fileContent, slicer);
      ExpectedTagsShape(c0, front, sorted, fileContent, slicer);
      var L := ks[|ks| - 1];
      if IsStart(c0, L) {
        assert Close(c0, sorted, ks[|ks| - 1]).Some?;
      }
    }
  }

  /** Over an ascending walk, the start annotations come out ascending, and they are all of them. */
  lemma {:induction false} StartsExact(c0: map<int, ReducedCommentNode>, ks: seq<int>)
    requires Increasing(ks)
    ensures Increasing(Starts(c0, ks))
    ensures forall k :: k in Starts(c0, ks) <==> k in ks && IsStart(c0, k)
  {
    if ks != [] {
      var n := |ks| - 1;
      var front := ks[..n];
      assert Increasing(front);
      StartsExact(c0, front);
      assert ks == front + [ks[n]];
      forall k | k in front ensures k < ks[n] {
        var i :| 0 <= i < n && front[i] == k;
        assert ks[i] == k;
      }
      var r := Starts(c0, front);
      if IsStart(c0, ks[n]) {
        forall i, j | 0 <= i < j < |r| + 1 ensures (r + [ks[n]])[i] < (r + [ks[n]])[j] {
          assert r[i] in r;
        }
      }
    }
  }

  /** The tags of a successful pairing of a freshly reduced AST whose nodes are stored at their end
      lines and span forward: one per start annotation, in ascending order of the start
      annotations' lines; each starts where its start comment starts, carries its owner groups
      and annotation line, and ends no earlier than it starts; no two end on the same line, so
      no end annotation closes two tags. */
  lemma TagsOfPair(c0: map<int, ReducedCommentNode>, fileContent: string, slicer: LineSlicer)
    requires AllUnseen(c0) && ReducedKeyed(c0)
    requires forall L :: L in c0 ==> c0[L].startLine <= c0[L].endLine
    requires Pair(c0, fileContent, slicer).outcome.Ok?
    ensures var tags := Pair(c0, fileContent, slicer).outcome.value;
      var starts := Starts(c0, Ascending(c0.Keys));
      && |tags| == |starts|
      && Increasing(starts)
      && (forall k :: k in starts <==> k in c0 && c0[k].data.StartAnnotation?)
      && (forall n :: 0 <= n < |tags| ==>
            && tags[n].startLine == c0[starts[n]].startLine
            && tags[n].ownerGroups == c0[starts[n]].data.ownerGroups
            && tags[n].tagAnnotationLine == c0[starts[n]].data.tagAnnotationLine
            && starts[n] <= tags[n].endLine
            && tags[n].startLine <= tags[n].endLine)
      && (forall n, m :: 0 <= n < m < |tags| ==> tags[n].endLine != tags[m].endLine)
  {
    var K := Ascending(c0.Keys);
    PairOutcome(c0, fileContent, slicer);
    ExpectedTagsShape(c0, K, K, fileContent, slicer);
    StartsExact(c0, K);
    assert forall k :: k in c0 ==> k in K;
  }

  /** Without start annotations, pairing returns no tags and changes nothing. */
  lemma {:induction false} NoStartsNoTags(c0: map<int, ReducedCommentNode>, fileContent: string, slicer: LineSlicer)
    requires AllUnseen(c0)
    requires forall L :: L in c0 ==> !c0[L].data.StartAnnotation?
    ensures Pair(c0, fileContent, slicer) == PairState(c0, Ok([]))
  {
    var K := Ascending(c0.Keys);
    assert PairsOk(c0, K, K);
    PairOutcome(c0, fileContent, slicer);
    ExpectedTagsShape(c0, K, K, fileContent, slicer);
    StartsNone(c0, K);
    assert ClosedBy(c0, K, K) == {};
    assert MarkSeen(c0, {}) == c0;
  }

  lemma {:induction false} StartsNone(c0: map<int, ReducedCommentNode>, ks: seq<int>)
    requires forall k :: k in ks ==> !IsStart(c0, k)
    ensures Starts(c0, ks) == []
  {
    if ks != [] {
      assert forall k :: k in ks[..|ks| - 1] ==> k in ks;
      assert ks[|ks| - 1] in ks;
      StartsNone(c0, ks[..|ks| - 1]);
    }
  }
}
