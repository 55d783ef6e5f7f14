/** `parseBunTestOutput` (src/utils/parseBunTestOutput.ts:5-258): one pass
    over the trimmed lines of the runner's text report, keeping the current
    file, three counters and a pending error (buffer, file, line, column).

    The loop is the method `ParseBunTestOutput`; its specification is the
    fold `Run` of `Step`, which classifies a line (`ActionAt`) and applies
    the classified action (`Apply`). The file system is the map `sources`
    from path to file content: a path is there exactly when the file exists. */
module OutputParser {

  import opened Wrappers
  import opened Text
  import opened BunTypes
  import opened LineSyntax
  import opened SourceLines
  import opened ResultTree

  /** The parser's locals (:7-16), apart from the line-map cache. */
  datatype ParserState = ParserState(
    testResults: seq<FileResult>,
    currentFile: Option<FileResult>,
    numPassed: nat,
    numFailed: nat,
    numSkipped: nat,
    currentError: string,
    collectingError: bool,
    errorLine: nat,
    errorColumn: nat,
    errorFile: string)

  const Initial: ParserState := ParserState([], None, 0, 0, 0, "", false, 0, 0, "")

  /** What one line does to the state. */
  datatype Action =
    | Skip
      /** Append the line to the error buffer. */
    | Collect(text: string)
      /** Append the line and take its stack frame as the error location. */
    | CollectFrame(text: string, frame: Frame)
      /** A file header with its (trimmed) path. */
    | OpenFile(path: string)
      /** A caret under the failing code, with the previous line's `:L:C`. */
    | Caret(position: Option<(nat, nat)>)
      /** An `error:` or `Expected:` line. */
    | StartError(text: string)
      /** A `(fail)`, `(pass)` or `(skip)` line. */
    | Record(status: Status, result: ResultMatch)

  /** The lines of the report (:6). */
  function OutputLines(output: string): seq<string>
  {
    Split(Trim(output), "\n")
  }

  /** `path.resolve(workspacePath, filePath)` for a relative path, without
      the normalisation of `.` and `..` segments (:104-106). */
  function Resolve(workspacePath: string, filePath: string): string
  {
    if StartsWith(filePath, "/") then filePath else workspacePath + "/" + filePath
  }

  /** What the line-map cache holds for a file: the scan of its content if
      it exists (:115, :263-299). */
  function LineMapFor(sources: map<string, string>, name: string): Option<map<string, int>>
  {
    if name in sources then Some(LineMapOf(Split(sources[name], "\n"))) else None
  }

  /** The trimmed line before line `i`, if any (:129-130). */
  function Previous(lines: seq<string>, i: nat): Option<string>
    requires i < |lines|
  {
    if i >= 1 then Some(Trim(lines[i - 1])) else None
  }

  /** A line met while collecting an error (:50-92): `None` when it ends the
      error block, so that it is handled as an ordinary line. The stack
      frame and code-line checks come first. */
  function ErrorBlockAction(line: string): (r: Option<Action>)
    ensures r.Some? ==> r.value.Collect? || r.value.CollectFrame?
  {
    match AnonymousFrame(line)
    case Some(f) => Some(CollectFrame(line, f))
    case None =>
      if IsCodeLine(line) then Some(Collect(line))
      else if EndsErrorBlock(line) then None
      else Some(Collect(line))
  }

  /** An ordinary line (:94-241), in the order the parser tries the shapes. */
  function Dispatch(hasFile: bool, line: string, prev: Option<string>): (r: Action)
    ensures r.Record? ==> hasFile && r == ResultAction(line)
  {
    match FileHeader(line)
    case Some(p) => OpenFile(p)
    case None => if hasFile then InFile(line, prev) else Skip
  }

  /** An ordinary line that is not a file header, once a file is open
      (:123-241). */
  function InFile(line: string, prev: Option<string>): (r: Action)
    ensures r.Record? ==> r == ResultAction(line)
  {
    if HasCaret(line) then Caret(if prev.Some? then TrailingPosition(prev.value) else None)
    else if IsCodeLine(line) then Skip
    else if IsErrorStart(line) then StartError(line)
    else ResultAction(line)
  }

  /** The tag of a result line. */
  function Tag(s: Status): string
  {
    match s
    case Passed => "pass"
    case Failed => "fail"
    case Skipped => "skip"
  }

  /** A result line, tried as `(fail)`, then `(pass)`, then `(skip)`
      (:156-241): a recorded result is what its line's tag matched. */
  function ResultAction(line: string): (r: Action)
    ensures r.Skip? || r.Record?
    ensures r.Record? ==> ResultLine(line, Tag(r.status)) == Some(r.result)
  {
    match ResultLine(line, "fail")
    case Some(m) => Record(Failed, m)
    case None =>
      match ResultLine(line, "pass")
      case Some(m) => Record(Passed, m)
      case None =>
        match ResultLine(line, "skip")
        case Some(m) => Record(Skipped, m)
        case None => Skip
  }

  /** Whether line `i`, met in state `st`, closes the error block. */
  predicate ClosesErrorBlock(st: ParserState, line: string)
  {
    st.collectingError && line != "" && !IsSummaryLine(line) && ErrorBlockAction(line).None?
  }

  /** The state a line's action is applied to: a line that ends an error
      block first stops the collecting (:84-86). Nothing else changes. */
  function Entry(st: ParserState, line: string): (r: ParserState)
    ensures r == st.(collectingError := r.collectingError)
  {
    if ClosesErrorBlock(st, line) then st.(collectingError := false) else st
  }

  /** The action of line `i` in state `st`. */
  function ActionAt(st: ParserState, lines: seq<string>, i: nat): (r: Action)
    requires i < |lines|
    ensures r.Record? ==> st.currentFile.Some? && r == ResultAction(Trim(lines[i]))
  {
    var line := Trim(lines[i]);
    if line == "" || IsSummaryLine(line) then Skip
    else if st.collectingError && ErrorBlockAction(line).Some? then ErrorBlockAction(line).value
    else Dispatch(st.currentFile.Some?, line, Previous(lines, i))
  }

  /** The file list after closing the current file: kept only if it has
      tests (:98-100, :245-247). */
  function Flushed(testResults: seq<FileResult>, currentFile: Option<FileResult>): seq<FileResult>
  {
    if currentFile.Some? && |currentFile.value.tests| > 0 then testResults + [currentFile.value] else testResults
  }

  /** The record built for a result line (:165-175, :199-208, :226-235). */
  function ResultRecord(status: Status, m: ResultMatch, fileName: string, currentError: string,
                        errorFile: string, errorLine: nat, errorColumn: nat): TestResult
  {
    if status == Failed then
      TestResult(LastPathSegment(m.path), Failed, Some(Trim(currentError)),
                 Some(Location(if errorFile == "" then fileName else errorFile, errorLine, errorColumn)),
                 m.duration, [], None)
    else
      TestResult(LastPathSegment(m.path), status, None, Some(Location(fileName, 0, 0)), m.duration, [], None)
  }

  function Apply(st: ParserState, a: Action, workspacePath: string, sources: map<string, string>): ParserState
  {
    match a
    case Skip => st
    case Collect(text) => st.(currentError := st.currentError + text + "\n")
    case CollectFrame(text, f) =>
      st.(errorFile := f.file, errorLine := f.line, errorColumn := f.column,
          currentError := st.currentError + text + "\n")
    case OpenFile(p) =>
      st.(testResults := Flushed(st.testResults, st.currentFile),
          currentFile := Some(FileResult(Resolve(workspacePath, p), [], true)))
    case Caret(pos) =>
      st.(collectingError := true, currentError := "",
          errorLine := if pos.Some? then pos.value.0 else st.errorLine,
          errorColumn := if pos.Some? then pos.value.1 else st.errorColumn)
    case StartError(text) => st.(collectingError := true, currentError := st.currentError + text + "\n")
    case Record(status, m) =>
      if st.currentFile.None? then st else Recorded(st, status, m, LineMapFor(sources, st.currentFile.value.name))
  }

  /** A result line recorded into the current file (:156-241): the record
      goes into the file's tree, its counter goes up, and a failure fails
      the file and clears the pending error. */
  function Recorded(st: ParserState, status: Status, m: ResultMatch, lineMap: Option<map<string, int>>): ParserState
    requires st.currentFile.Some?
  {
    var f := st.currentFile.value;
    var rec := ResultRecord(status, m, f.name, st.currentError, st.errorFile, st.errorLine, st.errorColumn);
    var f' := f.(tests := AddTestWithHierarchy(f.tests, m.path, rec, lineMap), passed := f.passed && status != Failed);
    if status == Failed then
      st.(currentFile := Some(f'), numFailed := st.numFailed + 1, collectingError := false,
          currentError := "", errorLine := 0, errorColumn := 0, errorFile := "")
    else if status == Passed then st.(currentFile := Some(f'), numPassed := st.numPassed + 1)
    else st.(currentFile := Some(f'), numSkipped := st.numSkipped + 1)
  }

  /** One iteration of the loop (:35-242). */
  function Step(st: ParserState, lines: seq<string>, i: nat, workspacePath: string, sources: map<string, string>): ParserState
    requires i < |lines|
  {
    Apply(Entry(st, Trim(lines[i])), ActionAt(st, lines, i), workspacePath, sources)
  }

  /** The state after the first `n` lines. */
  function Run(lines: seq<string>, n: nat, workspacePath: string, sources: map<string, string>): ParserState
    requires n <= |lines|
  {
    if n == 0 then Initial else Step(Run(lines, n - 1, workspacePath, sources), lines, n - 1, workspacePath, sources)
  }

  /** The response built from the final state (:244-257). */
  function Finish(st: ParserState): Response
  {
    Response(Flushed(st.testResults, st.currentFile), st.numPassed, st.numFailed, st.numSkipped,
             st.numPassed + st.numFailed + st.numSkipped)
  }

  function Parse(output: string, workspacePath: string, sources: map<string, string>): Response
  {
    var lines := OutputLines(output);
    Finish(Run(lines, |lines|, workspacePath, sources))
  }

  /** Every entry of the line-map cache is the scan of its file. */
  predicate CacheMatches(fileLineMap: map<string, map<string, int>>, sources: map<string, string>)
  {
    forall name :: name in fileLineMap ==> name in sources && fileLineMap[name] == LineMapOf(Split(sources[name], "\n"))
  }

  /** `parseBunTestOutput`: the loop of :35-242, then the response of
      :244-257. The line-map cache `fileLineMap` is filled as file headers
      are met. */
  method ParseBunTestOutput(output: string, workspacePath: string, sources: map<string, string>)
    returns (response: Response)
    ensures response == Parse(output, workspacePath, sources)
    ensures response.numTotalTests == response.numPassedTests + response.numFailedTests + response.numSkippedTests
  {
    var lines := OutputLines(output);
    var st := Initial;
    var fileLineMap: map<string, map<string, int>> := map[];
    for i := 0 to |lines|
      invariant st == Run(lines, i, workspacePath, sources)
      invariant CacheMatches(fileLineMap, sources)
      invariant st.currentFile.Some? && st.currentFile.value.name in sources ==> st.currentFile.value.name in fileLineMap
    {
      st, fileLineMap := ProcessLine(st, fileLineMap, lines, i, workspacePath, sources);
    }
    var testResults := st.testResults;
    if st.currentFile.Some? && |st.currentFile.value.tests| > 0 {
      testResults := testResults + [st.currentFile.value];
    }
    response := Response(testResults, st.numPassed, st.numFailed, st.numSkipped,
                         st.numPassed + st.numFailed + st.numSkipped);
  }

  /** The body of the loop for line `i`; each `return` is a `continue` of
      the source. */
  method ProcessLine(st: ParserState, fileLineMap: map<string, map<string, int>>, lines: seq<string>, i: nat,
                     workspacePath: string, sources: map<string, string>)
    returns (st': ParserState, fileLineMap': map<string, map<string, int>>)
    requires i < |lines|
    requires CacheMatches(fileLineMap, sources)
    requires st.currentFile.Some? && st.currentFile.value.name in sources ==> st.currentFile.value.name in fileLineMap
    ensures st' == Step(st, lines, i, workspacePath, sources)
    ensures CacheMatches(fileLineMap', sources)
    ensures st'.currentFile.Some? && st'.currentFile.value.name in sources ==> st'.currentFile.value.name in fileLineMap'
  {
    st', fileLineMap' := st, fileLineMap;
    var line := Trim(lines[i]);
    if line == "" || IsSummaryLine(line) {
      StepBlank(st, lines, i, workspacePath, sources);
      return;
    }
    if st.collectingError {
      var handled;
      st', handled := CollectErrorLine(st, line);
      if handled {
        StepInBlock(st, lines, i, workspacePath, sources);
        KeepsFile(st, ErrorBlockAction(line).value, "", map[]);
        return;
      }
    }
    StepOrdinary(st, lines, i, workspacePath, sources);
    var prev := if i >= 1 then Some(Trim(lines[i - 1])) else None;
    assert prev == Previous(lines, i);
    st', fileLineMap' := ProcessOrdinary(st.(collectingError := false), fileLineMap, line, prev, workspacePath, sources);
  }

  /** An ordinary line: a file header, or a line of the open file
      (:94-241). */
  method ProcessOrdinary(st: ParserState, fileLineMap: map<string, map<string, int>>, line: string,
                         prev: Option<string>, workspacePath: string, sources: map<string, string>)
    returns (st': ParserState, fileLineMap': map<string, map<string, int>>)
    requires CacheMatches(fileLineMap, sources)
    requires st.currentFile.Some? && st.currentFile.value.name in sources ==> st.currentFile.value.name in fileLineMap
    ensures st' == Apply(st, Dispatch(st.currentFile.Some?, line, prev), workspacePath, sources)
    ensures CacheMatches(fileLineMap', sources)
    ensures st'.currentFile.Some? && st'.currentFile.value.name in sources ==> st'.currentFile.value.name in fileLineMap'
  {
    fileLineMap' := fileLineMap;
    var fileMatch := FileHeader(line);
    if fileMatch.Some? {
      assert Dispatch(st.currentFile.Some?, line, prev) == OpenFile(fileMatch.value);
      st', fileLineMap' := StartFile(st, fileLineMap, fileMatch.value, workspacePath, sources);
      return;
    }
    if st.currentFile.None? {
      assert Dispatch(false, line, prev) == Skip;
      st' := st;
      return;
    }
    var name := st.currentFile.value.name;
    var lineMap := if name in fileLineMap then Some(fileLineMap[name]) else None;
    assert Dispatch(true, line, prev) == InFile(line, prev);
    st' := DispatchLine(st, lineMap, line, prev, sources);
    KeepsFile(st, InFile(line, prev), workspacePath, sources);
  }

  /** A line met while collecting an error (:50-92). `handled` is false
      when the line ends the error block; it is then handled as an ordinary
      line. */
  method CollectErrorLine(st: ParserState, line: string) returns (st': ParserState, handled: bool)
    ensures handled == ErrorBlockAction(line).Some?
    ensures handled ==> st' == Apply(st, ErrorBlockAction(line).value, "", map[])
  {
    st', handled := st, true;
    var anonymousMatch := AnonymousFrame(line);
    if anonymousMatch.Some? {
      st' := st'.(errorFile := anonymousMatch.value.file, errorLine := anonymousMatch.value.line,
                  errorColumn := anonymousMatch.value.column, currentError := st'.currentError + line + "\n");
      return;
    }
    if IsCodeLine(line) {
      st' := st'.(currentError := st'.currentError + line + "\n");
      return;
    }
    if EndsErrorBlock(line) {
      handled := false;
    } else {
      st' := st'.(currentError := st'.currentError + line + "\n");
    }
  }

  /** The part of the loop body for an ordinary line once a file is open
      (:123-153). */
  method DispatchLine(st: ParserState, lineMap: Option<map<string, int>>, line: string, prev: Option<string>,
                      sources: map<string, string>)
    returns (st': ParserState)
    requires st.currentFile.Some? && lineMap == LineMapFor(sources, st.currentFile.value.name)
    ensures st' == Apply(st, InFile(line, prev), "", sources)
  {
    if HasCaret(line) {
      var position := None;
      if prev.Some? {
        position := TrailingPosition(prev.value);
      }
      assert InFile(line, prev) == Caret(position);
      st' := MarkErrorPosition(st, position, sources);
    } else if IsCodeLine(line) {
      assert InFile(line, prev) == Skip;
      st' := st;
    } else if IsErrorStart(line) {
      assert InFile(line, prev) == StartError(line);
      st' := BeginError(st, line, sources);
    } else {
      assert InFile(line, prev) == ResultAction(line);
      st' := DispatchResult(st, lineMap, line, sources);
    }
  }

  /** The result-line part of the loop body (:156-241). */
  method DispatchResult(st: ParserState, lineMap: Option<map<string, int>>, line: string, sources: map<string, string>)
    returns (st': ParserState)
    requires st.currentFile.Some? && lineMap == LineMapFor(sources, st.currentFile.value.name)
    ensures st' == Apply(st, ResultAction(line), "", sources)
  {
    var failMatch := ResultLine(line, "fail");
    if failMatch.Some? {
      assert ResultAction(line) == Record(Failed, failMatch.value);
      ApplyRecord(st, Failed, failMatch.value, "", sources);
      st' := RecordResult(st, Failed, failMatch.value, lineMap);
      return;
    }
    var passMatch := ResultLine(line, "pass");
    if passMatch.Some? {
      assert ResultAction(line) == Record(Passed, passMatch.value);
      ApplyRecord(st, Passed, passMatch.value, "", sources);
      st' := RecordResult(st, Passed, passMatch.value, lineMap);
      return;
    }
    var skipMatch := ResultLine(line, "skip");
    if skipMatch.Some? {
      assert ResultAction(line) == Record(Skipped, skipMatch.value);
      ApplyRecord(st, Skipped, skipMatch.value, "", sources);
      st' := RecordResult(st, Skipped, skipMatch.value, lineMap);
      return;
    }
    assert ResultAction(line) == Skip;
    st' := st;
  }

  /** A file header (:96-118): keep the previous file if it has tests, open
      the new one as passed, and scan its source into the cache. */
  method StartFile(st: ParserState, fileLineMap: map<string, map<string, int>>, filePath: string,
                   workspacePath: string, sources: map<string, string>)
    returns (st': ParserState, fileLineMap': map<string, map<string, int>>)
    requires CacheMatches(fileLineMap, sources)
    ensures st' == Apply(st, OpenFile(filePath), workspacePath, sources)
    ensures CacheMatches(fileLineMap', sources)
    ensures st'.currentFile.Some? && st'.currentFile.value.name in sources ==> st'.currentFile.value.name in fileLineMap'
  {
    var testResults := st.testResults;
    if st.currentFile.Some? && |st.currentFile.value.tests| > 0 {
      testResults := testResults + [st.currentFile.value];
    }
    var fullPath := Resolve(workspacePath, filePath);
    st' := st.(testResults := testResults, currentFile := Some(FileResult(fullPath, [], true)));
    if fullPath in sources {
      CacheMatchesUpdate(fileLineMap, sources, fullPath);
    }
    fileLineMap' := ExtractSourceFileLineNumbers(fullPath, sources, fileLineMap);
  }

  /** A caret line (:124-139): start collecting a fresh error and take the
      position found on the previous line, if any. */
  method MarkErrorPosition(st: ParserState, position: Option<(nat, nat)>, sources: map<string, string>)
    returns (st': ParserState)
    ensures st' == Apply(st, Caret(position), "", sources)
  {
    st' := st.(collectingError := true, currentError := "");
    if position.Some? {
      st' := st'.(errorLine := position.value.0, errorColumn := position.value.1);
    }
  }

  /** A line opening an error message (:149-153): start collecting and
      keep the line. */
  method BeginError(st: ParserState, line: string, sources: map<string, string>) returns (st': ParserState)
    ensures st' == Apply(st, StartError(line), "", sources)
  {
    st' := st.(collectingError := true, currentError := st.currentError + line + "\n");
  }

  /** A result line (:156-241): insert its record into the current file
      and count it; a failure also clears the pending error. */
  method RecordResult(st: ParserState, status: Status, m: ResultMatch, lineMap: Option<map<string, int>>)
    returns (st': ParserState)
    requires st.currentFile.Some?
    ensures st' == Recorded(st, status, m, lineMap)
  {
    var file := st.currentFile.value;
    var record := ResultRecord(status, m, file.name, st.currentError, st.errorFile, st.errorLine, st.errorColumn);
    var tests := AddTestWithHierarchy(file.tests, m.path, record, lineMap);
    if status == Failed {
      st' := st.(currentFile := Some(file.(tests := tests, passed := false)), numFailed := st.numFailed + 1,
                 collectingError := false, currentError := "", errorLine := 0, errorColumn := 0, errorFile := "");
    } else if status == Passed {
      st' := st.(currentFile := Some(file.(tests := tests)), numPassed := st.numPassed + 1);
    } else {
      st' := st.(currentFile := Some(file.(tests := tests)), numSkipped := st.numSkipped + 1);
    }
  }

  lemma ApplyRecord(st: ParserState, status: Status, m: ResultMatch, workspacePath: string, sources: map<string, string>)
    requires st.currentFile.Some?
    ensures Apply(st, Record(status, m), workspacePath, sources)
      == Recorded(st, status, m, LineMapFor(sources, st.currentFile.value.name))
  {
  }

  /** A recorded line inserts into the open file. */
  lemma StepRecord(st: ParserState, lines: seq<string>, i: nat, workspacePath: string, sources: map<string, string>)
    requires i < |lines| && ActionAt(st, lines, i).Record?
    ensures var a := ActionAt(st, lines, i);
      st.currentFile.Some? &&
      Step(st, lines, i, workspacePath, sources)
        == Recorded(Entry(st, Trim(lines[i])), a.status, a.result, LineMapFor(sources, st.currentFile.value.name))
  {
    var a := ActionAt(st, lines, i);
    var st0 := Entry(st, Trim(lines[i]));
    assert Step(st, lines, i, workspacePath, sources) == Apply(st0, a, workspacePath, sources);
    assert st0.currentFile == st.currentFile;
    ApplyRecord(st0, a.status, a.result, workspacePath, sources);
  }

  lemma StepBlank(st: ParserState, lines: seq<string>, i: nat, workspacePath: string, sources: map<string, string>)
    requires i < |lines|
    requires var line := Trim(lines[i]); line == "" || IsSummaryLine(line)
    ensures Step(st, lines, i, workspacePath, sources) == st
  {
  }

  lemma StepInBlock(st: ParserState, lines: seq<string>, i: nat, workspacePath: string, sources: map<string, string>)
    requires i < |lines|
    requires var line := Trim(lines[i]);
      line != "" && !IsSummaryLine(line) && st.collectingError && ErrorBlockAction(line).Some?
    ensures Step(st, lines, i, workspacePath, sources) == Apply(st, ErrorBlockAction(Trim(lines[i])).value, "", map[])
  {
    var a := ErrorBlockAction(Trim(lines[i])).value;
    assert a.Collect? || a.CollectFrame?;
  }

  lemma StepOrdinary(st: ParserState, lines: seq<string>, i: nat, workspacePath: string, sources: map<string, string>)
    requires i < |lines|
    requires var line := Trim(lines[i]);
      line != "" && !IsSummaryLine(line) && !(st.collectingError && ErrorBlockAction(line).Some?)
    ensures Step(st, lines, i, workspacePath, sources)
      == Apply(st.(collectingError := false), Dispatch(st.currentFile.Some?, Trim(lines[i]), Previous(lines, i)),
               workspacePath, sources)
  {
  }

  /** Only a file header changes the current file's name; no other action
      depends on the workspace path. */
  lemma KeepsFile(st: ParserState, a: Action, workspacePath: string, sources: map<string, string>)
    requires !a.OpenFile?
    ensures Apply(st, a, workspacePath, sources) == Apply(st, a, "", sources)
    ensures var st' := Apply(st, a, workspacePath, sources);
      st'.currentFile.Some? == st.currentFile.Some? &&
      (st.currentFile.Some? ==> st'.currentFile.value.name == st.currentFile.value.name)
  {
  }

  lemma CacheMatchesUpdate(fileLineMap: map<string, map<string, int>>, sources: map<string, string>, path: string)
    requires CacheMatches(fileLineMap, sources) && path in sources
    ensures CacheMatches(fileLineMap[path := LineMapOf(Split(sources[path], "\n"))], sources)
  {
  }
}
