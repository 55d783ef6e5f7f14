/** The optional value used wherever the source has `undefined`. */
module Wrappers {

  datatype Option<+T> = None | Some(value: T)
}

/** The result shapes the parser produces (src/types.ts) and the editor's
    test item as the controller sees it. */
module BunTypes {

  import opened Wrappers

  datatype Status = Passed | Failed | Skipped

  /** `line` and `column` are 1-indexed when known and 0 when unknown. */
  datatype Location = Location(file: string, line: int, column: int)

  /** One test or suite. A node whose `children` is empty is a leaf (the
      TypeScript object then has no `children` key at all). `duration` keeps
      the digits the runner printed, e.g. "2.08", instead of a float. */
  datatype TestResult = TestResult(
    name: string,
    status: Status,
    message: Option<string>,
    location: Option<Location>,
    duration: Option<string>,
    children: seq<TestResult>,
    parent: Option<string>)

  datatype FileResult = FileResult(name: string, tests: seq<TestResult>, passed: bool)

  datatype Response = Response(
    testResults: seq<FileResult>,
    numPassedTests: nat,
    numFailedTests: nat,
    numSkippedTests: nat,
    numTotalTests: nat)

  /** A zero-based editor position. The editor refuses negative values. */
  datatype Position = Position(line: int, character: int)

  datatype Range = Range(start: Position, end: Position)

  /** The editor's test item: its id, its label (`itemLabel`: `label` is a
      Dafny keyword), the file system path of its uri when it has one, the
      range it is shown at when it has one, and its children in insertion
      order. */
  datatype TestItem = TestItem(id: string, itemLabel: string, uri: Option<string>, range: Option<Range>, children: seq<TestItem>)

  /** Number of nodes in a forest of results. */
  function NodeCount(ts: seq<TestResult>): nat
  {
    if ts == [] then 0 else 1 + NodeCount(ts[0].children) + NodeCount(ts[1..])
  }
}
