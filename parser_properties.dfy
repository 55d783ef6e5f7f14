/** What the text-report parser promises, stated over its specification
    `Run` (src/utils/parseBunTestOutput.ts:5-258): the status invariant of
    every file tree, the order in which files are emitted, how each result
    line moves the counters, and how the pending error reaches a failed
    test. */
module ParserProperties {

  import opened Wrappers
  import opened Text
  import opened BunTypes
  import opened LineSyntax
  import opened ResultTree
  import opened OutputParser

  // ---------------------------------------------------------------------
  // The status invariant of the files

  /** A file's tree is consistent, and the file passed exactly when none of
      its top-level entries failed. */
  predicate FileWellFormed(f: FileResult)
  {
    AllConsistent(f.tests) && (f.passed <==> !ChildFailed(f.tests))
  }

  /** Every emitted file has tests and is well formed, and so is the open
      one. */
  predicate Inv(st: ParserState)
  {
    (forall k :: 0 <= k < |st.testResults| ==> |st.testResults[k].tests| > 0 && FileWellFormed(st.testResults[k]))
    && (st.currentFile.Some? ==> FileWellFormed(st.currentFile.value))
  }

  lemma ApplyKeepsInv(st: ParserState, a: Action, workspacePath: string, sources: map<string, string>)
    requires Inv(st)
    ensures Inv(Apply(st, a, workspacePath, sources))
  {
    match a
    case Record(status, m) =>
      if st.currentFile.Some? {
        var f := st.currentFile.value;
        var rec := ResultRecord(status, m, f.name, st.currentError, st.errorFile, st.errorLine, st.errorColumn);
        assert IsRecord(rec);
        AddTestKeepsConsistency(f.tests, m.path, rec, LineMapFor(sources, f.name));
      }
    case OpenFile(p) =>
      var st' := Apply(st, a, workspacePath, sources);
      assert st'.testResults == Flushed(st.testResults, st.currentFile);
      assert !ChildFailed([]);
    case _ =>
  }

  lemma StepKeepsInv(st: ParserState, lines: seq<string>, i: nat, workspacePath: string, sources: map<string, string>)
    requires i < |lines| && Inv(st)
    ensures Inv(Step(st, lines, i, workspacePath, sources))
  {
    ApplyKeepsInv(Entry(st, Trim(lines[i])), ActionAt(st, lines, i), workspacePath, sources);
  }

  lemma {:induction false} RunKeepsInv(lines: seq<string>, n: nat, workspacePath: string, sources: map<string, string>)
    requires n <= |lines|
    ensures Inv(Run(lines, n, workspacePath, sources))
  {
    if n > 0 {
      var before := Run(lines, n - 1, workspacePath, sources);
      RunKeepsInv(lines, n - 1, workspacePath, sources);
      assert Inv(before);
      StepKeepsInv(before, lines, n - 1, workspacePath, sources);
      assert Run(lines, n, workspacePath, sources) == Step(before, lines, n - 1, workspacePath, sources);
    }
  }

  /** Every file of the response has at least one test, a consistent tree,
      and `passed` exactly when none of its top-level entries failed. */
  lemma ParseFilesWellFormed(output: string, workspacePath: string, sources: map<string, string>)
    ensures var r := Parse(output, workspacePath, sources);
      forall k :: 0 <= k < |r.testResults| ==> |r.testResults[k].tests| > 0 && FileWellFormed(r.testResults[k])
  {
    var lines := OutputLines(output);
    var st := Run(lines, |lines|, workspacePath, sources);
    RunKeepsInv(lines, |lines|, workspacePath, sources);
    assert Parse(output, workspacePath, sources).testResults == Flushed(st.testResults, st.currentFile);
  }

  // ---------------------------------------------------------------------
  // Files

  /** How an action changes the file list and the open file. */
  lemma ApplyFiles(st: ParserState, a: Action, workspacePath: string, sources: map<string, string>)
    ensures var st' := Apply(st, a, workspacePath, sources);
      st'.testResults ==
        if a.OpenFile? && st.currentFile.Some? && |st.currentFile.value.tests| > 0
        then st.testResults + [st.currentFile.value] else st.testResults
    ensures var st' := Apply(st, a, workspacePath, sources);
      a.OpenFile? ==> st'.currentFile == Some(FileResult(Resolve(workspacePath, a.path), [], true))
    ensures var st' := Apply(st, a, workspacePath, sources);
      !a.OpenFile? ==>
        st'.currentFile.Some? == st.currentFile.Some? &&
        (st.currentFile.Some? ==>
           st'.currentFile.value.name == st.currentFile.value.name &&
           st'.currentFile.value.passed == (st.currentFile.value.passed && !(a.Record? && a.status == Failed)))
  {
  }

  /** How one line changes the file list and the open file: only a header
      emits the open file, and only when it has tests; it then opens a new,
      passing, empty file. Otherwise the open file stays open and its
      `passed` flag falls exactly on a recorded failure. */
  lemma StepFiles(st: ParserState, lines: seq<string>, i: nat, workspacePath: string, sources: map<string, string>)
    requires i < |lines|
    ensures var a := ActionAt(st, lines, i); var st' := Step(st, lines, i, workspacePath, sources);
      st'.testResults ==
        if a.OpenFile? && st.currentFile.Some? && |st.currentFile.value.tests| > 0
        then st.testResults + [st.currentFile.value] else st.testResults
    ensures var a := ActionAt(st, lines, i); var st' := Step(st, lines, i, workspacePath, sources);
      a.OpenFile? ==> st'.currentFile == Some(FileResult(Resolve(workspacePath, a.path), [], true))
    ensures var a := ActionAt(st, lines, i); var st' := Step(st, lines, i, workspacePath, sources);
      !a.OpenFile? ==>
        st'.currentFile.Some? == st.currentFile.Some? &&
        (st.currentFile.Some? ==>
           st'.currentFile.value.name == st.currentFile.value.name &&
           st'.currentFile.value.passed == (st.currentFile.value.passed && !(a.Record? && a.status == Failed)))
  {
    ApplyFiles(Entry(st, Trim(lines[i])), ActionAt(st, lines, i), workspacePath, sources);
  }

  /** `a` is a prefix of `b`. */
  predicate FilesPrefix(a: seq<FileResult>, b: seq<FileResult>)
  {
    a <= b
  }

  lemma FilesPrefixTransitive(a: seq<FileResult>, b: seq<FileResult>, c: seq<FileResult>)
    requires FilesPrefix(a, b) && FilesPrefix(b, c)
    ensures FilesPrefix(a, c)
  {
  }

  /** One line only ever appends to the file list. */
  lemma StepExtendsFiles(st: ParserState, st': ParserState, lines: seq<string>, i: nat, workspacePath: string,
                         sources: map<string, string>)
    requires i < |lines| && st' == Step(st, lines, i, workspacePath, sources)
    ensures FilesPrefix(st.testResults, st'.testResults)
  {
    StepFiles(st, lines, i, workspacePath, sources);
  }

  /** The line before `m` only appends to the file list. */
  lemma RunStepExtends(lines: seq<string>, m: nat, workspacePath: string, sources: map<string, string>)
    requires 0 < m <= |lines|
    ensures FilesPrefix(Run(lines, m - 1, workspacePath, sources).testResults, Run(lines, m, workspacePath, sources).testResults)
  {
    StepExtendsFiles(Run(lines, m - 1, workspacePath, sources), Run(lines, m, workspacePath, sources), lines, m - 1,
                     workspacePath, sources);
  }

  /** Files are only ever appended: the file list after `n` lines is a
      prefix of the list after any later line, so files come out in header
      order. */
  lemma {:induction false} RunExtendsFiles(lines: seq<string>, n: nat, m: nat, workspacePath: string,
                                           sources: map<string, string>)
    requires n <= m <= |lines|
    ensures FilesPrefix(Run(lines, n, workspacePath, sources).testResults, Run(lines, m, workspacePath, sources).testResults)
    decreases m - n
  {
    if n < m {
      RunExtendsFiles(lines, n, m - 1, workspacePath, sources);
      RunStepExtends(lines, m, workspacePath, sources);
      FilesPrefixTransitive(Run(lines, n, workspacePath, sources).testResults,
                            Run(lines, m - 1, workspacePath, sources).testResults,
                            Run(lines, m, workspacePath, sources).testResults);
    }
  }

  // ---------------------------------------------------------------------
  // Counters

  function Count(st: ParserState, s: Status): nat
  {
    match s
    case Passed => st.numPassed
    case Failed => st.numFailed
    case Skipped => st.numSkipped
  }

  lemma ApplyCounters(st: ParserState, a: Action, workspacePath: string, sources: map<string, string>)
    ensures var st' := Apply(st, a, workspacePath, sources);
      forall s :: Count(st', s) == Count(st, s) + (if a.Record? && a.status == s && st.currentFile.Some? then 1 else 0)
  {
  }

  /** A recorded result line adds one to its own counter and nothing to the
      others; every other line, and a result line met before any file
      header, leaves all three counters alone. */
  lemma StepCounters(st: ParserState, lines: seq<string>, i: nat, workspacePath: string, sources: map<string, string>)
    requires i < |lines|
    ensures var a := ActionAt(st, lines, i); var st' := Step(st, lines, i, workspacePath, sources);
      forall s :: Count(st', s) == Count(st, s) + (if a.Record? && a.status == s && st.currentFile.Some? then 1 else 0)
  {
    ApplyCounters(Entry(st, Trim(lines[i])), ActionAt(st, lines, i), workspacePath, sources);
  }

  /** A line that reads `(<tag>) …` is a result line of that status, unless
      it also has the shape of a file header or holds a caret, or it is met
      while collecting an error and holds an anonymous stack frame. It is
      never taken for a banner, summary, code or error line, and it ends an
      error block. */
  lemma ResultLineIsRecord(st: ParserState, lines: seq<string>, i: nat, s: Status)
    requires i < |lines|
    requires var line := Trim(lines[i]);
      ResultLine(line, Tag(s)).Some? && FileHeader(line).None? && !HasCaret(line)
      && (st.collectingError ==> AnonymousFrame(line).None?)
    ensures var line := Trim(lines[i]);
      st.currentFile.Some? ==> ActionAt(st, lines, i) == Record(s, ResultLine(line, Tag(s)).value)
  {
    var line := Trim(lines[i]);
    var prev := Previous(lines, i);
    assert line[0] == '(';
    ResultLineShape(line);
    ResultActionOf(line, s);
    assert InFile(line, prev) == ResultAction(line);
    assert Dispatch(true, line, prev) == ResultAction(line);
    if st.collectingError {
      assert EndsErrorBlock(line);
      assert ErrorBlockAction(line).None?;
    }
  }

  /** A `(<tag>)` line is recorded with that tag's status: the tags differ
      in their first letter, so no other tag matches it. */
  lemma ResultActionOf(line: string, s: Status)
    requires ResultLine(line, Tag(s)).Some?
    ensures ResultAction(line) == Record(s, ResultLine(line, Tag(s)).value)
  {
    assert line[1] == Tag(s)[0];
  }

  /** A line starting with `(` is none of the shapes tried before results. */
  lemma ResultLineShape(line: string)
    requires line != [] && line[0] == '('
    ensures !IsSummaryLine(line) && !IsCodeLine(line) && !IsErrorStart(line)
  {
    assert DigitRun(line) == 0;
    assert "Ran "[0] != line[0];
    assert "bun test v"[0] != line[0];
  }

  /** Result lines are not deduplicated: each `(<tag>)` result line read
      while a file is open adds one to its own counter, whatever came
      before. */
  lemma ResultLineCounts(st: ParserState, lines: seq<string>, i: nat, workspacePath: string,
                         sources: map<string, string>, s: Status)
    requires i < |lines| && st.currentFile.Some?
    requires var line := Trim(lines[i]);
      ResultLine(line, Tag(s)).Some? && FileHeader(line).None? && !HasCaret(line)
      && (st.collectingError ==> AnonymousFrame(line).None?)
    ensures var st' := Step(st, lines, i, workspacePath, sources);
      Count(st', s) == Count(st, s) + 1 && forall t :: t != s ==> Count(st', t) == Count(st, t)
  {
    ResultLineIsRecord(st, lines, i, s);
    StepCounters(st, lines, i, workspacePath, sources);
  }

  // ---------------------------------------------------------------------
  // The pending error

  /** Inside an error block, an `at <anonymous> (file:L:C)` frame sets the
      error location to the frame's file, line and column and is kept in
      the buffer; nothing else changes. */
  lemma StepFrame(st: ParserState, lines: seq<string>, i: nat, workspacePath: string, sources: map<string, string>)
    requires i < |lines| && st.collectingError
    requires var line := Trim(lines[i]); line != "" && !IsSummaryLine(line) && AnonymousFrame(line).Some?
    ensures var line := Trim(lines[i]); var f := AnonymousFrame(line).value;
      Step(st, lines, i, workspacePath, sources)
        == st.(errorFile := f.file, errorLine := f.line, errorColumn := f.column,
               currentError := st.currentError + line + "\n")
  {
    var line := Trim(lines[i]);
    assert ErrorBlockAction(line) == Some(CollectFrame(line, AnonymousFrame(line).value));
    StepInBlock(st, lines, i, workspacePath, sources);
  }

  /** Inside an error block every line is kept in the buffer and the block
      goes on, unless it is a result line or a file header that is neither
      a stack frame nor a code line. */
  lemma BlockKeepsLine(st: ParserState, lines: seq<string>, i: nat, workspacePath: string, sources: map<string, string>)
    requires i < |lines| && st.collectingError
    requires var line := Trim(lines[i]);
      line != "" && !IsSummaryLine(line) && (AnonymousFrame(line).Some? || IsCodeLine(line) || !EndsErrorBlock(line))
    ensures var st' := Step(st, lines, i, workspacePath, sources);
      st'.collectingError && st'.currentError == st.currentError + Trim(lines[i]) + "\n"
      && st'.testResults == st.testResults && st'.currentFile == st.currentFile
      && st'.numPassed == st.numPassed && st'.numFailed == st.numFailed && st'.numSkipped == st.numSkipped
  {
    StepInBlock(st, lines, i, workspacePath, sources);
  }

  /** A result line or a file header (that is neither a stack frame nor a
      code line) ends an error block: the collecting stops and the line is
      handled as an ordinary line; a header then opens its file. */
  lemma BlockEnds(st: ParserState, lines: seq<string>, i: nat, workspacePath: string, sources: map<string, string>)
    requires i < |lines| && st.collectingError
    requires var line := Trim(lines[i]);
      line != "" && !IsSummaryLine(line) && AnonymousFrame(line).None? && !IsCodeLine(line) && EndsErrorBlock(line)
    ensures Step(st, lines, i, workspacePath, sources)
      == Apply(st.(collectingError := false), Dispatch(st.currentFile.Some?, Trim(lines[i]), Previous(lines, i)),
               workspacePath, sources)
    ensures var line := Trim(lines[i]); var st' := Step(st, lines, i, workspacePath, sources);
      FileHeader(line).Some? ==>
        !st'.collectingError && st'.testResults == Flushed(st.testResults, st.currentFile)
        && st'.currentFile == Some(FileResult(Resolve(workspacePath, FileHeader(line).value), [], true))
  {
    StepOrdinary(st, lines, i, workspacePath, sources);
  }

  /** The error location (file, line, column) changes only on a stack frame
      inside an error block, on a caret under a failing expression, or when
      a failure is recorded. */
  lemma ErrorLocationChanges(st: ParserState, lines: seq<string>, i: nat, workspacePath: string,
                             sources: map<string, string>)
    requires i < |lines|
    ensures var st' := Step(st, lines, i, workspacePath, sources); var a := ActionAt(st, lines, i);
      (st'.errorFile != st.errorFile || st'.errorLine != st.errorLine || st'.errorColumn != st.errorColumn)
        ==> a.CollectFrame? || a.Caret? || (a.Record? && a.status == Failed)
    ensures var a := ActionAt(st, lines, i); var line := Trim(lines[i]);
      a.CollectFrame? ==> st.collectingError && AnonymousFrame(line) == Some(a.frame)
    ensures var a := ActionAt(st, lines, i);
      a.Caret? ==> HasCaret(Trim(lines[i])) && st.currentFile.Some?
  {
    var line := Trim(lines[i]);
    var a := ActionAt(st, lines, i);
    var e := Entry(st, line);
    ApplyErrorLocation(e, a, workspacePath, sources);
    assert Step(st, lines, i, workspacePath, sources) == Apply(e, a, workspacePath, sources);
    FrameAndCaretLines(st, lines, i);
  }

  /** Which actions move the error location. */
  lemma ApplyErrorLocation(st: ParserState, a: Action, workspacePath: string, sources: map<string, string>)
    ensures var st' := Apply(st, a, workspacePath, sources);
      (st'.errorFile != st.errorFile || st'.errorLine != st.errorLine || st'.errorColumn != st.errorColumn)
        ==> a.CollectFrame? || a.Caret? || (a.Record? && a.status == Failed)
  {
  }

  /** A frame action comes only from a stack frame met inside an error
      block, and a caret action only from a line with a caret once a file
      is open. */
  lemma FrameAndCaretLines(st: ParserState, lines: seq<string>, i: nat)
    requires i < |lines|
    ensures var a := ActionAt(st, lines, i); var line := Trim(lines[i]);
      a.CollectFrame? ==> st.collectingError && AnonymousFrame(line) == Some(a.frame)
    ensures var a := ActionAt(st, lines, i);
      a.Caret? ==> HasCaret(Trim(lines[i])) && st.currentFile.Some?
  {
  }

  /** A caret line met outside an error block starts a fresh error and takes
      the `:line:column` at the end of the previous line, when there is
      one; nothing else changes. */
  lemma CaretStartsError(st: ParserState, lines: seq<string>, i: nat, workspacePath: string, sources: map<string, string>)
    requires i < |lines| && st.currentFile.Some? && !st.collectingError
    requires var line := Trim(lines[i]); HasCaret(line) && FileHeader(line).None? && !IsSummaryLine(line)
    ensures var st' := Step(st, lines, i, workspacePath, sources);
      var pos := if i >= 1 then TrailingPosition(Trim(lines[i - 1])) else None;
      st' == st.(collectingError := true, currentError := "",
                 errorLine := if pos.Some? then pos.value.0 else st.errorLine,
                 errorColumn := if pos.Some? then pos.value.1 else st.errorColumn)
  {
    var line := Trim(lines[i]);
    assert line != "";
    var pos := if i >= 1 then TrailingPosition(Trim(lines[i - 1])) else None;
    assert Dispatch(true, line, Previous(lines, i)) == Caret(pos);
    StepOrdinary(st, lines, i, workspacePath, sources);
  }

  /** Only a recorded failure clears the pending error (buffer, file, line
      and column); a recorded pass or skip leaves it as it was. */
  lemma RecordErrorState(st: ParserState, lines: seq<string>, i: nat, workspacePath: string, sources: map<string, string>)
    requires i < |lines| && ActionAt(st, lines, i).Record?
    ensures var st' := Step(st, lines, i, workspacePath, sources);
      if ActionAt(st, lines, i).status == Failed
      then st'.currentError == "" && st'.errorFile == "" && st'.errorLine == 0 && st'.errorColumn == 0
           && !st'.collectingError
      else st'.currentError == st.currentError && st'.errorFile == st.errorFile
           && st'.errorLine == st.errorLine && st'.errorColumn == st.errorColumn
  {
    StepRecord(st, lines, i, workspacePath, sources);
  }

  /** The record of a result line lands as the last entry of the level its
      path leads to, named after the path's last segment. A failure carries
      the trimmed error buffer as its message and the pending error's file
      (or the current file when none was seen), line and column; a pass or
      skip points at the current file with no message. The line number is
      back-filled from the file's line map when the name is declared
      there. */
  lemma RecordPlaced(st: ParserState, lines: seq<string>, i: nat, workspacePath: string, sources: map<string, string>)
    requires i < |lines| && ActionAt(st, lines, i).Record?
    ensures var a := ActionAt(st, lines, i);
      st.currentFile.Some? &&
      LeafOf(Step(st, lines, i, workspacePath, sources), a.result.path)
        == Some(Expected(st, a.status, a.result, LineMapFor(sources, st.currentFile.value.name)))
  {
    var a := ActionAt(st, lines, i);
    StepRecord(st, lines, i, workspacePath, sources);
    var st0 := Entry(st, Trim(lines[i]));
    RecordedPlaces(st0, a.status, a.result, LineMapFor(sources, st.currentFile.value.name));
  }

  /** The last entry of the level a path leads to in the open file. */
  function LeafOf(st: ParserState, path: string): Option<TestResult>
  {
    var segs := Split(path, PathSeparator);
    if st.currentFile.None? then None else LastAt(st.currentFile.value.tests, segs[..|segs| - 1])
  }

  /** The entry a result line of `status` should leave in the open file of
      `st`: see `RecordPlaced`. */
  function Expected(st: ParserState, status: Status, m: ResultMatch, lineMap: Option<map<string, int>>): TestResult
    requires st.currentFile.Some?
  {
    var failed := status == Failed;
    var segs := Split(m.path, PathSeparator);
    var name := LastPathSegment(m.path);
    TestResult(
      name, status,
      if failed then Some(Trim(st.currentError)) else None,
      Some(Location(if failed && st.errorFile != "" then st.errorFile else st.currentFile.value.name,
                    match MapLine(lineMap, name)
                    case Some(n) => n
                    case None => if failed then st.errorLine else 0,
                    if failed then st.errorColumn else 0)),
      m.duration, [],
      if |segs| >= 2 then Some(Join(segs[..|segs| - 1], PathSeparator)) else None)
  }

  lemma RecordedPlaces(st: ParserState, status: Status, m: ResultMatch, lineMap: Option<map<string, int>>)
    requires st.currentFile.Some? && (m.path == [] || !IsSpace(m.path[0]))
    ensures LeafOf(Recorded(st, status, m, lineMap), m.path) == Some(Expected(st, status, m, lineMap))
  {
    var f := st.currentFile.value;
    var rec := ResultRecord(status, m, f.name, st.currentError, st.errorFile, st.errorLine, st.errorColumn);
    assert Recorded(st, status, m, lineMap).currentFile.value.tests == AddTestWithHierarchy(f.tests, m.path, rec, lineMap);
    AddTestPlacesRecord(f.tests, m.path, rec, lineMap);
    PlacedIsExpected(st, status, m, lineMap);
  }

  /** The record of a result line, once placed, is the expected entry. */
  lemma PlacedIsExpected(st: ParserState, status: Status, m: ResultMatch, lineMap: Option<map<string, int>>)
    requires st.currentFile.Some?
    ensures var f := st.currentFile.value;
      var rec := ResultRecord(status, m, f.name, st.currentError, st.errorFile, st.errorLine, st.errorColumn);
      Placed(rec, Split(m.path, PathSeparator), lineMap) == Expected(st, status, m, lineMap)
  {
  }
}
