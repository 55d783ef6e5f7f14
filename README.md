# Bun test explorer: output parser, relatedness and controller helpers

This project models the logic of a VS Code test explorer for the Bun runtime
that works without the editor. It has three parts.

- **The text-output parser** (`parseBunTestOutput`). It reads the console
  report of `bun test` line by line. It opens a file result at each `path:`
  header, collects error text after a caret marker, and records every
  `(pass)`, `(fail)` and `(skip)` line into a nested suite tree. The tree
  comes from splitting the test path on `" > "`. A failure is pushed up to
  every enclosing suite. A map from declared test names to source lines
  fills in each result's line.
- **The relatedness check** (`isRelatedTestResult`). It decides whether a
  parsed result belongs somewhere under an editor test item.
- **The controller helpers** (`BunTestController`):
  - counting leaf tests;
  - finding the item that receives a result;
  - collecting test-name patterns and building the `--test-name-pattern`
    argument;
  - building item ids;
  - turning one-based locations into zero-based editor positions;
  - walking a result forest onto the item tree;
  - grouping queued items by file.

Modules, one concept per file:

| file | module | contents |
|---|---|---|
| `types.dfy` | `Wrappers`, `BunTypes` | `Option`; results, file results, the response, editor positions, ranges and items as datatypes |
| `text.dfy` | `Text` | JavaScript `trim`, `split`, `join`, `indexOf` and digit and space runs on `seq<char>` |
| `line_syntax.dfy` | `LineSyntax` | the parser's regular expressions, written as exact matchers over one trimmed line |
| `source_lines.dfy` | `SourceLines` | the `describe`/`test` declaration scan that builds the line map |
| `result_tree.dfy` | `ResultTree` | `addTestWithHierarchy`, `updateParentStatus`, `getLastPathSegment` and the tree invariants |
| `output_parser.dfy` | `OutputParser` | the parser's state, its per-line step as a function and the `ParseBunTestOutput` loop proved equal to it |
| `parser_properties.dfy` | `ParserProperties` | what the parser guarantees: counters, file list, error buffer, the place of each record |
| `related.dfy` | `Relatedness` | `isRelatedTestResult` and its characterisation |
| `controller_tree.dfy` | `ControllerTree` | `countTests`, `findMatchingTestItem`, `getTestNamePatterns`, the pattern argument, positions, test ids and item ranges |
| `controller_run.dfy` | `ControllerRun` | result-to-item selection, `processTestResults`, grouping by file |

`ParseBunTestOutput`, `ExtractSourceFileLineNumbers`, `CountTests`,
`FindMatchingTestItem`, `GetTestNamePatterns`, `ProcessTestResults` and
`GroupByFile` are methods with the source's loops. Each is proved equal to
a specification function, and the properties are proved as lemmas about
that function. The parser's state is the record `ParserState`. The loop
body threads it together with the line-map cache `fileLineMap`.

The file system is a parameter. `sources` maps a path to its content, and a
path absent from it is a file that does not exist.

## Model

| member | source | states |
|---|---|---|
| `Text.TrimCuts` | src/utils/parseBunTestOutput.ts:36 | a trimmed line is a contiguous slice of the raw line, and only whitespace was removed on either side |
| `Text.TrimUntouched` | src/utils/parseBunTestOutput.ts:36 | a line with no whitespace at either end is its own trim |
| `Text.TrimIdempotent` | src/utils/parseBunTestOutput.ts:36 | trimming twice is trimming once (the trim has no whitespace at either end, so `TrimUntouched` applies) |
| `Text.JoinSplit` | src/utils/parseBunTestOutput.ts:308 | joining the pieces of a split with the same separator gives back the original string |
| `Text.SplitPiecesFree` | src/utils/parseBunTestOutput.ts:308 | no piece of a split contains the separator |
| `Text.SplitJoin` | src/BunTestController.ts:343 | splitting a join of separator-free parts on a one-character separator gives back the parts |
| `LineSyntax.ResultLine` | src/utils/parseBunTestOutput.ts:23-25 | a matched result line starts with its `(tag)`, and the lazily captured path never starts with whitespace; `ResultLineParts` and `ResultLineOfName` state the match in full |
| `LineSyntax.ResultLineParts` | src/utils/parseBunTestOutput.ts:23-25 | a matched line is exactly `(tag)`, the whole run of whitespace after it, a captured text on one line whose trim is the path, and, when a duration was captured, non-empty whitespace and `[d ms]` with `d` a non-empty run of digits and dots; the capture is the shortest: at no earlier position does the rest of the line read as a duration tail, so `adds [1, 2] [0.05ms]` gives path `adds [1, 2]` and duration `0.05` |
| `LineSyntax.ResultLineOfName` | src/utils/parseBunTestOutput.ts:23-25 | conversely, `(tag) name` for a name without whitespace at either end, without `[` and without line terminators is matched with that name as path and no duration, and `(tag) name [d ms]` with that name and duration `d` |
| `LineSyntax.FirstFrame` | src/utils/parseBunTestOutput.ts:30 | the unanchored `at <anonymous> (file:L:C)` search finds a frame at some position from the start, and reports none only when no position has one |
| `LineSyntax.FirstFrameAt` | src/utils/parseBunTestOutput.ts:52 | the frame found is the leftmost: it is the match at some position, and no earlier position matches |
| `SourceLines.QuotedArgumentShape` | src/utils/parseBunTestOutput.ts:274-275 | a captured declaration name is non-empty and holds no quote character |
| `SourceLines.LeftmostDescribe` | src/utils/parseBunTestOutput.ts:274 | the `describe(` search returns the match at some position, or none only when no position matches |
| `SourceLines.LeftmostDescribeAt` | src/utils/parseBunTestOutput.ts:281 | the `describe(` name found is the leftmost match: no earlier position matches |
| `SourceLines.LeftmostTest` | src/utils/parseBunTestOutput.ts:275 | the `test(`/`it(` search, with optional `.skip`/`.failing`/`.only`, returns the match at some position, or none only when no position matches |
| `SourceLines.LeftmostTestAt` | src/utils/parseBunTestOutput.ts:288 | the `test(`/`it(` name found is the leftmost match: no earlier position matches |
| `SourceLines.LastDeclaration` | src/utils/parseBunTestOutput.ts:278-293 | a name is in the map exactly when some line declares it; its value is the 1-indexed number of the last such line |
| `SourceLines.LineMapOfMeaning` | src/utils/parseBunTestOutput.ts:278-295 | the same for the scan of a file's lines, where a `describe` on a line takes precedence over a `test` |
| `SourceLines.ExtractSourceFileLineNumbers` | src/utils/parseBunTestOutput.ts:263-299 | a missing file leaves the cache unchanged; otherwise exactly that file's entry becomes the scan of its lines |
| `ResultTree.LastPathSegmentIsSuffix` | src/utils/parseBunTestOutput.ts:400-403 | the last segment contains no `" > "`, and it is either the whole path or exactly what follows the last separator: the rest of the path ends with `" > "` |
| `ResultTree.FindIndex` | src/utils/parseBunTestOutput.ts:330 | the index found is the first sibling with the name; none means no sibling has it |
| `ResultTree.ConsistentMeansFailureBelow` | src/utils/parseBunTestOutput.ts:370-397 | in a consistent tree a node is failed exactly when a recorded failure lies in its subtree |
| `ResultTree.InsertPassing` | src/utils/parseBunTestOutput.ts:320-368 | inserting a passed or skipped record only appends: every existing node keeps its name, status, message, location and parent, no appended node is failed, and every suite it creates is passed, so a suite holding only skipped tests is passed |
| `ResultTree.InsertNewSuitesPassed` | src/utils/parseBunTestOutput.ts:334-344 | every suite the walk creates, at any depth, starts as passed |
| `ResultTree.InsertFailing` | src/utils/parseBunTestOutput.ts:320-372 | after a failed record is inserted and its parents updated, every suite on its path is failed and the tree stays consistent |
| `ResultTree.AddTestKeepsConsistency` | src/utils/parseBunTestOutput.ts:302-374 | consistency is kept; the forest has a failed node exactly when it had one before or the record failed; a non-failure changes no existing node; a failure fails every suite on its path |
| `ResultTree.EmbedsChildFailed` | src/utils/parseBunTestOutput.ts:370-373 | appending only non-failed nodes does not change whether a level has a failed node |
| `ResultTree.InsertPlaces` | src/utils/parseBunTestOutput.ts:325-368 | the inserted record is the last node at the end of its suite path, with its suite path as `parent` and its line from the map |
| `ResultTree.PlacesThroughFound` | src/utils/parseBunTestOutput.ts:330-359 | a step of the proof of `InsertPlaces`: when a suite with the segment's name exists, the record ends up where insertion into the first such suite puts it |
| `ResultTree.PlacesThroughNew` | src/utils/parseBunTestOutput.ts:332-346 | a step of the proof of `InsertPlaces`: when no suite has the segment's name, the record ends up where insertion into a new, empty suite puts it |
| `ResultTree.AddTestPlacesRecord` | src/utils/parseBunTestOutput.ts:302-374 | after `addTestWithHierarchy` the record, finished as the source finishes it, is the last node under its suite path, also after a failure updates the parents |
| `ResultTree.LevelAfterUpdateParentStatus` | src/utils/parseBunTestOutput.ts:377-397 | updating parent status leaves the children reached along the path unchanged |
| `ResultTree.LastAtAfterUpdateParentStatus` | src/utils/parseBunTestOutput.ts:377-397 | updating parent status does not move or change the last node under the path |
| `ResultTree.UpdateParentStatusKeepsCount` | src/utils/parseBunTestOutput.ts:377-397 | updating parent status adds and removes no node |
| `ResultTree.InsertCount` | src/utils/parseBunTestOutput.ts:325-368 | one insertion adds the record plus one suite for every path segment that does not yet exist |
| `ResultTree.AddTestCount` | src/utils/parseBunTestOutput.ts:302-374 | the tree grows by one node per missing suite plus the leaf, and by exactly one node when the suite path exists |
| `ResultTree.DepthOfExistingPath` | src/utils/parseBunTestOutput.ts:330 | when every segment of a path exists as nested suites, all of them are counted as existing |
| `OutputParser.ErrorBlockAction` | src/utils/parseBunTestOutput.ts:50-92 | inside an error block a line is either collected (with or without a stack frame) or ends the block; `StepFrame`, `BlockKeepsLine`, `BlockEnds` and `ErrorLocationChanges` state the effects |
| `OutputParser.Dispatch` | src/utils/parseBunTestOutput.ts:94-241 | a line is recorded as a result only when a file is open, and then as its result-line match |
| `OutputParser.ResultAction` | src/utils/parseBunTestOutput.ts:156-241 | a result line is recorded with the status of the tag that matched, and with that tag's match; otherwise it is skipped |
| `OutputParser.Entry` | src/utils/parseBunTestOutput.ts:84-86 | ending an error block changes only the collecting flag |
| `OutputParser.ParseBunTestOutput` | src/utils/parseBunTestOutput.ts:5-258 | the loop computes the fold of the line step over the trimmed lines; the total is the sum of passed, failed and skipped |
| `OutputParser.ProcessLine` | src/utils/parseBunTestOutput.ts:35-242 | one loop iteration is the step for that line, and every cache entry stays the scan of its file |
| `OutputParser.ProcessOrdinary` | src/utils/parseBunTestOutput.ts:94-241 | an ordinary line applies its dispatched action, and the cache holds the open file when it exists |
| `OutputParser.CollectErrorLine` | src/utils/parseBunTestOutput.ts:50-92 | a line inside an error block is handled there exactly when it does not end the block |
| `OutputParser.DispatchLine` | src/utils/parseBunTestOutput.ts:123-241 | a line of an open file applies its action |
| `OutputParser.DispatchResult` | src/utils/parseBunTestOutput.ts:156-241 | a result line applies its recording action |
| `OutputParser.StartFile` | src/utils/parseBunTestOutput.ts:96-118 | a header keeps the previous file if it has tests, opens the resolved path as passed and scans its source into the cache |
| `OutputParser.MarkErrorPosition` | src/utils/parseBunTestOutput.ts:124-139 | a caret applies the caret action with the previous line's position |
| `OutputParser.BeginError` | src/utils/parseBunTestOutput.ts:149-153 | a line opening with `error:` or `Expected:` applies the start-of-error action: collecting starts and the line is kept |
| `OutputParser.RecordResult` | src/utils/parseBunTestOutput.ts:156-241 | a recorded line inserts into the open file and counts |
| `OutputParser.ApplyRecord` | src/utils/parseBunTestOutput.ts:162-177 | a step of the proofs about recording: the record action is `Recorded` with the line map cached for the open file |
| `OutputParser.StepBlank` | src/utils/parseBunTestOutput.ts:37-47 | empty, banner and summary lines change nothing |
| `OutputParser.StepInBlock` | src/utils/parseBunTestOutput.ts:50-92 | a step of the error-block proofs: a line the block handles is not dispatched as an ordinary line |
| `OutputParser.StepOrdinary` | src/utils/parseBunTestOutput.ts:84-241 | any other line first ends the error block, then is dispatched |
| `OutputParser.KeepsFile` | src/utils/parseBunTestOutput.ts:94-241 | only a file header changes which file is open, and only it depends on the workspace path |
| `OutputParser.CacheMatchesUpdate` | src/utils/parseBunTestOutput.ts:115 | a step of the proof of `ProcessLine`: storing a file's scan keeps every cache entry equal to the scan of its file |
| `ParserProperties.ApplyKeepsInv` | src/utils/parseBunTestOutput.ts:96-118 | every action keeps the parser invariant: each stored file has tests, every file's tree is consistent, and a file passed exactly when none of its top-level entries failed |
| `ParserProperties.StepKeepsInv` | src/utils/parseBunTestOutput.ts:35-242 | every line keeps the parser invariant |
| `ParserProperties.RunKeepsInv` | src/utils/parseBunTestOutput.ts:35-242 | the invariant holds after any number of lines |
| `ParserProperties.ParseFilesWellFormed` | src/utils/parseBunTestOutput.ts:244-257 | every returned file result has at least one test, a consistent tree, and `passed` exactly when none of its top-level entries failed |
| `ParserProperties.ApplyFiles` | src/utils/parseBunTestOutput.ts:94-186 | a header appends the open file only if it has tests and opens the new one as passed; other actions keep the open file, which stops passing exactly when a failure is recorded |
| `ParserProperties.StepFiles` | src/utils/parseBunTestOutput.ts:94-241 | the same for one line of the report |
| `ParserProperties.RunExtendsFiles` | src/utils/parseBunTestOutput.ts:99 | the returned file list only grows, so files appear in header order |
| `ParserProperties.ApplyCounters` | src/utils/parseBunTestOutput.ts:156-241 | a recorded result adds one to its own counter and nothing else; no other action counts |
| `ParserProperties.StepCounters` | src/utils/parseBunTestOutput.ts:121-241 | the same for one line: results before any header are not counted |
| `ParserProperties.ResultLineIsRecord` | src/utils/parseBunTestOutput.ts:156-241 | a `(tag)` line that is not a header, caret or frame is recorded with that tag's status once a file is open |
| `ParserProperties.ResultActionOf` | src/utils/parseBunTestOutput.ts:156-241 | a line matching a tag is recorded with that tag's status, as the tags are mutually exclusive |
| `ParserProperties.ResultLineShape` | src/utils/parseBunTestOutput.ts:43-153 | a line starting with `(` is not a summary, code or `error:` line |
| `ParserProperties.ResultLineCounts` | src/utils/parseBunTestOutput.ts:156-241 | each recognised result line in an open file adds exactly one to its own counter, even when repeated |
| `ParserProperties.StepFrame` | src/utils/parseBunTestOutput.ts:52-61 | inside an error block, a stack frame sets the error file, line and column to the frame's and appends the line to the buffer; nothing else changes |
| `ParserProperties.BlockKeepsLine` | src/utils/parseBunTestOutput.ts:50-92 | inside an error block, a stack frame, a code line or any line that is not a result line or a file header is appended to the buffer and the block goes on; results, open file and counters stay |
| `ParserProperties.BlockEnds` | src/utils/parseBunTestOutput.ts:84-118 | inside an error block, a result line or a file header that is neither a frame nor a code line stops the collecting and is handled as an ordinary line; a header then stores the previous file and opens its own |
| `ParserProperties.ErrorLocationChanges` | src/utils/parseBunTestOutput.ts:50-186 | the error file, line and column change only on a stack frame inside an error block, on a caret once a file is open, or when a failure is recorded |
| `ParserProperties.CaretStartsError` | src/utils/parseBunTestOutput.ts:124-139 | a caret clears the buffer, starts collecting and takes line and column from the previous line's trailing `:L:C`, changing nothing else |
| `ParserProperties.RecordErrorState` | src/utils/parseBunTestOutput.ts:179-186 | a recorded failure clears the buffer, file, line and column and stops collecting; a recorded pass or skip keeps the buffer, file, line and column |
| `ParserProperties.RecordPlaced` | src/utils/parseBunTestOutput.ts:156-241 | a recorded line leaves in the open file's tree, at the end of its suite path, a leaf with the last segment as name, the trimmed buffer as message when failed, the error file or current file, the line from the map or the error line, the column and the parent path |
| `ParserProperties.RecordedPlaces` | src/utils/parseBunTestOutput.ts:162-177 | the same for the record step itself |
| `Relatedness.RelatedMeansSharedName` | src/utils/isRelatedTestResult.ts:4-42 | an item and a result are related exactly when some label in the item's subtree equals some name in the result's subtree |
| `Relatedness.RelatedFileMeansSharedName` | src/utils/isRelatedTestResult.ts:4-42 | a file result is related exactly when some label in the item's subtree is the file's name or is related to one of its tests |
| `Relatedness.RelatedToAncestor` | src/utils/isRelatedTestResult.ts:29-39 | relatedness of a descendant makes the ancestor related |
| `ControllerTree.CountTests` | src/BunTestController.ts:155-165 | the loop returns the number of leaves of the forest |
| `ControllerTree.LeafCountAppend` | src/BunTestController.ts:155-165 | the leaf count of two forests side by side is the sum of their counts |
| `ControllerTree.LeafCountBounds` | src/BunTestController.ts:155-165 | a non-empty forest has at least one leaf, and never more leaves than nodes |
| `ControllerTree.FindMatchingTestItem` | src/BunTestController.ts:786-809 | the two loops compute the search result |
| `ControllerTree.DirectMatchIsLast` | src/BunTestController.ts:790-794 | when a direct child has the name, the last such child is returned |
| `ControllerTree.DeepMatchIsFirst` | src/BunTestController.ts:797-808 | otherwise the first child, in order, whose subtree search succeeds gives the answer |
| `ControllerTree.FindMatchMeaning` | src/BunTestController.ts:786-809 | a returned item has the name and lies strictly below the parent, and there is a result exactly when some strict descendant has the name |
| `ControllerTree.NeverTheParent` | src/BunTestController.ts:786-809 | the parent itself is never returned |
| `ControllerTree.GetTestNamePatterns` | src/BunTestController.ts:439-462 | the loop collects the patterns of the forest in order |
| `ControllerTree.CollectPatterns` | src/BunTestController.ts:449-457 | one item appends its own pattern, then its children's in order |
| `ControllerTree.NamePatternsMeaning` | src/BunTestController.ts:439-462 | a pattern is collected exactly when some item in the forest has an id with `#` and that non-empty label: the name the extraction at :442-447 gives |
| `ControllerTree.PatternArgs` | src/BunTestController.ts:339-346 | no argument is added exactly when there are no patterns; otherwise the flag is followed by the joined alternatives |
| `ControllerTree.TestNameOfShape` | src/BunTestController.ts:340 | the name used is a suffix of the pattern, and when it differs it is a non-empty last segment without `" > "` |
| `ControllerTree.RegexAlternatives` | src/BunTestController.ts:343 | for names without the bar character, splitting the regex on the bar gives back the wrapped names, one per pattern |
| `ControllerTree.PathOfJoin` | src/BunTestController.ts:215 | the running path of an item is the join of its ancestor-and-self names with `" > "` |
| `ControllerTree.TestIdInjective` | src/BunTestController.ts:216 | for file names without `#`, different files or paths give different ids |
| `ControllerTree.SiblingIdsDiffer` | src/BunTestController.ts:214-216 | siblings with different names get different ids |
| `ControllerTree.BuildItems` | src/BunTestController.ts:208-253 | one item is built per result |
| `ControllerTree.PatternsOfBuiltItems` | src/BunTestController.ts:439-462 | the patterns of a built item tree are the non-empty result names in preorder |
| `ControllerTree.BuiltItemsCount` | src/BunTestController.ts:155-165 | a built item tree has as many leaves as the result tree counts |
| `ControllerTree.ResultPosition` | src/BunTestController.ts:511-518 | a position is never negative |
| `ControllerTree.PositionRoundTrip` | src/BunTestController.ts:513-514 | for a positive line and non-negative column the position converts back to the same one-based location |
| `ControllerTree.PositionClamped` | src/BunTestController.ts:513-514 | a non-positive line goes to the first line, and a negative column to the first column |
| `ControllerTree.PositionKept` | src/BunTestController.ts:513-514 | a positive line becomes the line before it whatever the column, and a non-negative column is kept whatever the line |
| `ControllerTree.ItemRange` | src/BunTestController.ts:218-244 | an item gets a range exactly when the result has a location with a positive line, and its start is never negative |
| `ControllerTree.RangeStartsAtPosition` | src/BunTestController.ts:219-244 | the range starts at the converted position and spans the name's length on that line |
| `ControllerTree.BuiltItemRange` | src/BunTestController.ts:218-244 | a built item has a range exactly when its result has a location with a positive line; the range starts where the result is shown and spans the item's label on that line |
| `ControllerRun.SelectionMeaning` | src/BunTestController.ts:486-501 | a result is skipped exactly when it is unrelated to the parent; the chosen item is related to it and is the parent or a strict descendant with its name; a result named like the parent, or under a parent without children, goes to the parent; a result named differently from the parent, with a strict descendant of that name, goes to the descendant the search finds, never to the parent |
| `ControllerRun.ProcessTestResults` | src/BunTestController.ts:464-623 | the loop reports the results of the forest, with each result's children matched under the item it went to |
| `ControllerRun.ResultReportsSound` | src/BunTestController.ts:486-620 | every report of one result pairs a related item with the result, and the item lies within the parent |
| `ControllerRun.ForestReportsSound` | src/BunTestController.ts:479-501 | the same for every report of a forest |
| `ControllerRun.GroupByFile` | src/BunTestController.ts:289-303 | the files are listed in first-appearance order, each has a group, and each group is the file's queued items in order |
| `ControllerRun.FilesOfMeaning` | src/BunTestController.ts:289-303 | a file is listed exactly when some queued item has it, and no file is listed twice |
| `ControllerRun.ItemsOfMeaning` | src/BunTestController.ts:302 | an item is in a file's group exactly when it is queued with that file |

## Left out

- Disk reads (`fs.existsSync`, `readFileSync`): the file system is the `sources` map. A read error, which the source catches and logs, is not modelled.
- `path.resolve` is a plain `workspace + "/" + path` for a relative path. `.` and `..` segments are not normalised.
- `parseFloat` durations: the duration is kept as the captured digit string. Floating point is out of scope.
- The JavaScript regex engine: each regular expression is a hand-written matcher of the same shapes. The `\s` class is JavaScript's whitespace set, and `.` excludes line terminators.
- The `^\s+at` branch and `errorLocationRegex` (src/utils/parseBunTestOutput.ts:26, 71-83) are not modelled. Lines are trimmed first, so that branch can never run.
- ResultTree.AddTestWithHierarchy: trees are values. The in-place pushes into shared arrays and the aliasing of `currentLevel` are not modelled. Only the final tree is, as a function the parser applies.
- ResultTree.UpdateParentStatus: also a function on values. The source's loop sets `status` in place.
- A missing `children` array and an empty one are both the empty sequence. The two differ only in the shape of the JSON.
- Logging, the output channel, `run.*` output formatting and ANSI colours (src/BunTestController.ts:526-615) are not modelled. Reports record which item gets which result.
- Processes, cancellation, debug launch and file watchers are not modelled (I/O and concurrency).
- The JUnit types of src/types.ts are not modelled because they are unused.
- `Response` lists the fields of the `results` object of `BunTestResponse` (src/types.ts:22-30) directly, without the wrapping object.
- The optional `duration` of `BunFileResult` (src/types.ts:19) is not modelled: the parser never sets it.
- `isFileOnly` (src/BunTestController.ts:321-335) is not modelled. It depends on the editor's `Uri` string forms.
- ControllerTree.BuildItems: builds one item per result. `TestItemCollection.add` replaces an existing item with the same id, so the source keeps one item for sibling results with the same name; the model keeps both (`SiblingIdsDiffer` says distinct names give distinct ids).
- ControllerTree.RangeStartsAtPosition: the end column adds `|name|` characters. The source adds the UTF-16 length of the name.
- The total at src/BunTestController.ts:140-142 only feeds a log line. `CountTests` models the count it is built from.
- Two snapshots in tests/parseBunTestOutput.test.ts (716-905 and 913-1062) disagree with the parser code. The model follows the code. Any trimmed line of the form `X:` with no other colon is a file header, so a recap header such as `1 tests failed:` opens a file and its results count again. This also holds for a result line that ends in a colon.
- The selection rule: the parent receives a result whose name is its label, or any result when it has no children, only if the result is related to it. Otherwise the result is skipped, as the code does at src/BunTestController.ts:498-501.
