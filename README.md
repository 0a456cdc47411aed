# Comment-to-tag pipeline

This project models the language-independent core of Viva Doc's tag parser: the pipeline in
`src/github-app/languages/ast.ts`. It turns the comments a tokenizer reports for one file
into ownership tags, or into one fatal parse error. Each tag is a start annotation paired
with the end annotation that closes it. There are five stages, each over maps keyed by the
line a comment ends on:

1. **Raw index** (`raw_index.dfy`). Single-line comments are stored one per line, and the
   last write wins. Multi-line comments are stored as a list per line.
2. **Squish** (`squish.dfy`). Runs of single-line comments on consecutive lines at the same
   column merge into one comment, keyed at the run's last line.
3. **Assembly** (`assembly.dfy`). Each line's multi-line list gets the squished single-line
   comment of that line appended.
4. **Reduction** (`reduction.dfy`). A line with more than one comment is rejected. Every
   other comment goes to the annotation matcher, which answers no tag, end tag,
   start tag (with owner groups and a line offset) or grammar error.
5. **Pairing** (`pairing.dfy`). Each start annotation is closed by the first end annotation
   at or after the line its comment ends on. The end is marked as seen in place. Reusing a
   seen end is an error, and so is a start with no end after it.

The three AST records are classes whose map fields the operations reassign. Their
constructors are `newEmptyRawFileAst`, `newEmptyFileAst` and `newEmptyReducedFileAst`
(`ast_types.dfy`). Each stage that loops is a `method` with loop invariants. Each method is
proved equal to a specification function: `Squish`, `Assemble`, `Reduce` or `Pair`. Lemmas
then state what those functions mean in declarative terms. Every `for…in` over line keys and
every `R.sort` of the keys is modelled as ascending numeric order (`LineOrder.Ascending`,
computed by `LineOrder.AscendingKeys`). That order decides which error is raised first.

Two pieces live outside this file. The annotation grammar becomes a `Matcher` parameter,
a function from a comment's text and line to a `MatchResult`. The line slicer
`getContentByLineNumbers` becomes a `LineSlicer` parameter. A thrown parse error becomes
`Err(ParseError(kind, line))`. The line kept is the one the error's explanation cites.

One point of the pairing rule is easy to misread, and the model follows the code there. A
start annotation is not closed by the first *unseen* end annotation after it. It is closed by
the *first* end annotation at or after the start comment's last line. If that end is already
seen, pairing fails; it never skips ahead to a later free end. `Fixtures.OverlappingTagsFail`
shows the consequence: two starts followed by two ends fail, as the repository's fixture for
that file expects.

In `standardTagsFromReducedFileAst` the inner `for…of` scan is the method
`TagPairing.ScanForEnd`. It returns the first end annotation it meets, and the outer loop
then checks the seen flag, marks the end and pushes the tag. The labelled
`continue loopAnalyzeComments` becomes the end of that outer iteration.

`fixtures.dfy` states the repository's documented examples at the stage they exercise. It
fixes a matcher for each example and leaves the slicer abstract.

## Model

| member | source | states |
|---|---|---|
| AstTypes.RawFileAst.constructor | src/github-app/languages/ast.ts:76-81 | a new raw AST has empty single-line and multi-line indexes, and it satisfies the raw AST invariant |
| AstTypes.FileAst.constructor | src/github-app/languages/ast.ts:84-88 | a new unified AST has no comments |
| AstTypes.ReducedFileAst.constructor | src/github-app/languages/ast.ts:91-95 | a new reduced AST has no comments |
| RawIndex.AddSingleLineCommentToRawAst | src/github-app/languages/ast.ts:98-100 | the single-line index is updated at the comment's end line, replacing any earlier entry; the multi-line index and all other lines are unchanged; the raw AST invariant is preserved |
| RawIndex.Appended | src/github-app/languages/ast.ts:103-110 | the list a multi-line comment joins is the old list at its end line with the comment last, or the singleton list when the line had none |
| RawIndex.AddMultilineCommentToRawAst | src/github-app/languages/ast.ts:103-110 | the multi-line index changes only at the comment's end line, where the comment is appended or a singleton list is created; the single-line index is unchanged; the invariant is preserved |
| LineOrder.Ascending | src/github-app/languages/ast.ts:283-285 | a strictly increasing sequence that lists exactly the lines of the set |
| LineOrder.AscendingUnique | src/github-app/languages/ast.ts:283-285 | only one strictly increasing sequence lists a given set, so ascending order is determined by the keys alone |
| LineOrder.AscendingKeys | src/github-app/languages/ast.ts:220-224 | the sorted key list the loops walk is the ascending enumeration of the keys |
| SingleLineSquish.SquishSingleLineComments | src/github-app/languages/ast.ts:277-307 | the loop (store, or delete the line above and merge into this line) computes `Squish`, one node per line that the comment below does not continue |
| SingleLineSquish.SquishedSoFarStep | src/github-app/languages/ast.ts:287-303 | one loop iteration: with no mergeable comment above, the comment is stored unchanged; otherwise the node at `L - 1` exists, is deleted, and is merged into a node at `L` |
| SingleLineSquish.SquishedIsRun | src/github-app/languages/ast.ts:296-303 | the node held at `L` covers the maximal run of consecutive, equally indented comments ending at `L`; it starts where the run's first comment starts, ends at `L`, and holds the run's texts joined with newlines |
| SingleLineSquish.SquishNode | src/github-app/languages/ast.ts:277-307 | every node squish outputs is the merge of a maximal run ending at its key, which the comment below does not continue |
| SingleLineSquish.SquishUnmerged | src/github-app/languages/ast.ts:291-294 | a comment with no mergeable neighbour above or below comes out unchanged at its own line |
| SingleLineSquish.SquishKeyed | src/github-app/languages/ast.ts:285-305 | squish outputs only input lines, and each node's end line equals its key when the input is keyed that way |
| SingleLineSquish.RunEndExists | src/github-app/languages/ast.ts:285-305 | every input comment lies in the run of some output node |
| SingleLineSquish.RunsDisjoint | src/github-app/languages/ast.ts:296-303 | two output runs that share a line end at the same line |
| SingleLineSquish.SquishCovers | src/github-app/languages/ast.ts:277-307 | every input comment lies in the run of exactly one output node, so nothing is lost or duplicated |
| Assembly.GetFileAstFromRawFileAst | src/github-app/languages/ast.ts:114-135 | a new unified AST: the multi-line lists are copied, then each squished single-line node is appended at its line, or placed in a new singleton list |
| Assembly.AssembleStep | src/github-app/languages/ast.ts:124-132 | one iteration of the second loop appends the squished node to its line's list, or creates the list |
| Assembly.AssembleLine | src/github-app/languages/ast.ts:114-135 | a unified line holds the multi-line list for that line followed by the squished node for it; no other lines appear |
| Assembly.AssembleWellFormed | src/github-app/languages/ast.ts:114-135 | assembling a valid raw AST gives non-empty lists whose comments end at their line, which is what the reducer needs |
| Assembly.AssembleCrowded | src/github-app/languages/ast.ts:114-135 | a unified line holds several comments exactly when several multi-line comments end there, or a multi-line and a single-line one do |
| Reduction.GetReducedFileAstFromFileAst | src/github-app/languages/ast.ts:142-194 | the ascending loop computes `Reduce`: on failure the same error, on success a new reduced AST holding exactly `Reduce`'s map |
| Reduction.ReduceErrorSticks | src/github-app/languages/ast.ts:151-159 | once a line throws, later lines do not change the outcome |
| Reduction.ReduceLinesError | src/github-app/languages/ast.ts:147-190 | the run over a line sequence fails exactly when some line is bad (several comments, or a grammar error), and then with the first bad line's error |
| Reduction.ReduceLinesContent | src/github-app/languages/ast.ts:164-188 | when comments are stored at their end lines, a successful run holds exactly the lines with an end or a start annotation, each reduced; no-tag lines are omitted |
| Reduction.ReduceLinesShape | src/github-app/languages/ast.ts:169-188 | a successful run stores each reduced node at its own end line and leaves every end annotation unseen |
| Reduction.ReduceFails | src/github-app/languages/ast.ts:147-159 | reducing a unified AST fails exactly when some line is bad |
| Reduction.ReduceFirstError | src/github-app/languages/ast.ts:147-159 | a failing reduction reports the error of the smallest bad line (`multiple-comments-on-single-line` at that line, or the matcher's error) |
| Reduction.ReduceSuccess | src/github-app/languages/ast.ts:142-194 | a successful reduction is keyed by end line with every end unseen; on a keyed unified AST it is exactly the annotated lines |
| TagPairing.FirstEnd | src/github-app/languages/ast.ts:227-234 | the scan's result is an end annotation at or after the start's end line; when there is none, no end annotation lies there |
| TagPairing.FirstEndLeast | src/github-app/languages/ast.ts:227-234 | over ascending lines, the end annotation found is the smallest one at or after the start's end line |
| TagPairing.FirstEndKinds | src/github-app/languages/ast.ts:227-234 | the scan ignores seen flags: it depends only on which lines hold end annotations |
| TagPairing.CloseIsNearest | src/github-app/languages/ast.ts:221-234 | a start annotation is closed by the nearest end annotation at or after its comment's last line, or by none when no end follows |
| TagPairing.PairStep | src/github-app/languages/ast.ts:213-269 | one outer iteration leaves the set of lines unchanged |
| TagPairing.PairLines | src/github-app/languages/ast.ts:213-269 | the outer loop over any line sequence leaves the set of lines unchanged |
| TagPairing.PairErrorSticks | src/github-app/languages/ast.ts:236-243 | once pairing throws, later lines do not change the state or the outcome |
| TagPairing.PairLinesNext | src/github-app/languages/ast.ts:213-269 | the loop over one more line is the loop so far followed by one step at that line |
| TagPairing.ScanForEnd | src/github-app/languages/ast.ts:226-258 | the inner forward scan over the sorted lines returns `FirstEnd`: the first end annotation at or after the start's end line, seen or not, or none |
| TagPairing.StandardTagsFromReducedFileAst | src/github-app/languages/ast.ts:204-274 | the nested loop computes `Pair`: its result is `Pair`'s outcome, and the reduced AST's new comments (seen flags set) are `Pair`'s state |
| TagPairing.MarkSeenFacts | src/github-app/languages/ast.ts:246 | marking ends as seen keeps every line's span and kind and leaves start annotations unchanged; from an all-unseen AST, exactly the marked ends are seen |
| TagPairing.MarkSeenAdd | src/github-app/languages/ast.ts:246 | marking one more end as seen is a single in-place update |
| TagPairing.PairSpecNext | src/github-app/languages/ast.ts:213-269 | the success condition and the set of claimed ends grow by one line: a start must find an end that no earlier start has claimed |
| TagPairing.PairStepSpec | src/github-app/languages/ast.ts:221-267 | one step at a start annotation: `no-end-annotation` (at the start's first line) when no end follows; `end-annotation-used-multiple-times` (at the end's first line) when the end is claimed; otherwise the end is claimed and its tag appended |
| TagPairing.PairLinesSpec | src/github-app/languages/ast.ts:204-274 | from a freshly reduced AST, pairing succeeds exactly when every start has its own closing end; it then returns the expected tags and marks exactly the claimed ends seen |
| TagPairing.PairOutcome | src/github-app/languages/ast.ts:204-274 | the same characterisation for the whole reduced AST walked in ascending order |
| TagPairing.PairFailsAt | src/github-app/languages/ast.ts:234-267 | the first failing start annotation decides the error and the line it cites |
| TagPairing.PairFailureExists | src/github-app/languages/ast.ts:204-274 | a failing pairing always has such a first failing start annotation |
| TagPairing.ExpectedTagsShape | src/github-app/languages/ast.ts:246-257 | the n-th tag belongs to the n-th start annotation visited and to its closing end; different starts have different closing ends |
| TagPairing.StartsExact | src/github-app/languages/ast.ts:213-221 | the start annotations visited form an ascending list of exactly the start lines |
| TagPairing.TagsOfPair | src/github-app/languages/ast.ts:204-274 | after a successful pairing: one tag per start annotation, in ascending order of start line; each tag carries its start's data, ends no earlier than it starts, and no two tags share an end |
| TagPairing.NoStartsNoTags | src/github-app/languages/ast.ts:210-273 | without start annotations, pairing returns no tags and changes nothing |
| TagPairing.StartsNone | src/github-app/languages/ast.ts:213-221 | with no start annotations there is nothing to visit |
| Fixtures.SquishMergesAdjacent | src/github-app/languages/ast.ts:296-303 | two same-column comments on adjacent lines merge into one node at the second line |
| Fixtures.SquishKeepsDifferentColumns | src/github-app/languages/ast.ts:289-294 | at different columns they stay two nodes |
| Fixtures.BlankFile | test/unit/github-app/tag.data.ts:49-53 | a blank file reduces to nothing and pairs to no tags |
| Fixtures.ManyTagsReduce | test/unit/github-app/tag.data.ts:61-97 | the file with many tags reduces to its four annotations; the ordinary comment is dropped |
| Fixtures.ManyTagsPair | test/unit/github-app/tag.data.ts:61-97 | that file pairs to the tags 1-3 and 9-12, annotated on lines 1 and 9 |
| Fixtures.MultiLineReduce | test/unit/github-app/tag.data.ts:99-140 | annotations inside multi-line comments record annotation lines 2 and 11 (start line + 1) |
| Fixtures.MultiLinePair | test/unit/github-app/tag.data.ts:99-140 | that file pairs to the tags 1-5 and 10-16 |
| Fixtures.SharedEndFails | test/unit/github-app/tag.data.ts:148-156 | two starts sharing one end fail with `end-annotation-used-multiple-times` at line 8 |
| Fixtures.OverlappingTagsFail | test/unit/github-app/tag.data.ts:158-168 | two starts followed by two ends also fail at line 8 |
| Fixtures.MissingEndFails | test/unit/github-app/tag.data.ts:172-178 | a start with no end fails with `no-end-annotation` at line 1 |
| Fixtures.CrowdedLineFails | src/github-app/languages/ast.ts:151-159 | two comments ending on line 1 fail with `multiple-comments-on-single-line` at line 1 |

## Left out

- The tokenizer (`StandardComments.parse`) and the language re-export wrapper are outside this model. The raw index is filled by calling the two add methods.
- The annotation grammar `LangUtil.matchSingleVdTagAnnotation` is not part of this model. It is the `Matcher` parameter, and a grammar error it throws becomes `GrammarError`. Fixtures that test the grammar itself (`"// @VD "`, `"starts"`) are not stated.
- `LangUtil.getContentByLineNumbers` is not part of this model. It is the `LineSlicer` parameter, so a tag's content is only known as the slicer's value for its span.
- The `filePath` argument and the `clientExplanation` text are dropped. An error keeps its kind and the line its explanation cites.
- Owner groups (`TOG.Group`) are opaque sequences that are copied through.
- Assembly.GetFileAstFromRawFileAst: the source stores the raw multi-line arrays in the unified AST by reference and then `push`es onto them, so the raw AST's lists change too. The model works on sequence values and leaves the raw AST unchanged.
- SingleLineSquish.SquishSingleLineComments: the source passes an unmerged comment through as the same object, `indentIndex` included. The model outputs a plain comment node with the same start line, end line and text.
- LineOrder.Ascending: JavaScript's `for…in` visits integer keys in ascending order only for non-negative keys. The model visits every line, negative ones included, in ascending order.
- Reduction.GetReducedFileAstFromFileAst: it requires every line to hold at least one comment. Given an empty list, the source would read `commentNodes[0].content` of `undefined` and throw a `TypeError`, which this model does not represent. Both builders of a unified AST only create non-empty lists (`Assembly.AssembleWellFormed`).
- Reduction.ReduceLinesContent: the declarative content holds only when comments are stored at their end lines, which the add methods guarantee. Otherwise the reducer writes at each node's own end line, which may differ from its key, and the model follows that in `ReduceLine`.
- TagPairing.TagsOfPair: it assumes a freshly reduced AST, with every node at its end line, no end seen and `startLine <= endLine`. Reduction guarantees the first two (`Reduction.ReduceSuccess`). The third depends on the tokenizer.
- Exceptions other than parse errors (for example from the slicer or the matcher) are not modelled.
