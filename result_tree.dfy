/** Building the nested suite tree of one file from `>`-separated test
    paths (src/utils/parseBunTestOutput.ts:301-403): `addTestWithHierarchy`,
    `updateParentStatus` and `getLastPathSegment`. */
module ResultTree {

  import opened Wrappers
  import opened Text
  import opened BunTypes

  const PathSeparator: string := " > "

  /** `getLastPathSegment`: the name after the last separator. */
  function LastPathSegment(testPath: string): string
  {
    var segments := Split(testPath, PathSeparator);
    segments[|segments| - 1]
  }

  /** The last segment is a suffix of the path and holds no separator; it
      is the whole path, or what follows a separator. So it is exactly the
      text after the last separator. */
  lemma LastPathSegmentIsSuffix(testPath: string)
    ensures EndsWith(testPath, LastPathSegment(testPath))
    ensures !Contains(LastPathSegment(testPath), PathSeparator)
    ensures var seg := LastPathSegment(testPath);
      seg == testPath || (|seg| < |testPath| && EndsWith(testPath[..|testPath| - |seg|], PathSeparator))
  {
    var segments := Split(testPath, PathSeparator);
    var seg := segments[|segments| - 1];
    JoinSplit(testPath, PathSeparator);
    SplitPiecesFree(testPath, PathSeparator);
    JoinEndsWithLast(segments, PathSeparator);
    if |segments| > 1 {
      var head := Join(segments[..|segments| - 1], PathSeparator) + PathSeparator;
      assert testPath == head + seg by {
        SplitLast(segments, PathSeparator);
      }
      assert testPath[..|testPath| - |seg|] == head;
    }
  }

  /** A list of two or more parts joins as its front, the separator, then its last part. */
  lemma SplitLast(parts: seq<string>, sep: string)
    requires |parts| > 1
    ensures Join(parts, sep) == Join(parts[..|parts| - 1], sep) + sep + parts[|parts| - 1]
  {
    var front := parts[..|parts| - 1];
    assert parts == front + [parts[|parts| - 1]];
    JoinSnoc(front, parts[|parts| - 1], sep);
  }

  lemma {:induction false} JoinEndsWithLast(parts: seq<string>, sep: string)
    requires parts != []
    ensures EndsWith(Join(parts, sep), parts[|parts| - 1])
  {
    if |parts| > 1 {
      JoinEndsWithLast(parts[1..], sep);
    }
  }

  lemma {:induction false} JoinSnoc(parts: seq<string>, x: string, sep: string)
    requires parts != []
    ensures Join(parts + [x], sep) == Join(parts, sep) + sep + x
  {
    if |parts| > 1 {
      assert (parts + [x])[1..] == parts[1..] + [x];
      JoinSnoc(parts[1..], x, sep);
    }
  }

  lemma {:induction false} JoinStartsWithFirst(parts: seq<string>, sep: string)
    requires parts != []
    ensures StartsWith(Join(parts, sep), parts[0])
  {
  }

  /** `level.find(t => t.name === name)`, as the index it finds. */
  function FindIndex(level: seq<TestResult>, name: string): (r: Option<nat>)
    ensures r.Some? ==> r.value < |level| && level[r.value].name == name
    ensures r.Some? ==> forall i :: 0 <= i < r.value ==> level[i].name != name
    ensures r.None? ==> forall i :: 0 <= i < |level| ==> level[i].name != name
  {
    FindFrom(level, name, 0)
  }

  function FindFrom(level: seq<TestResult>, name: string, from: nat): (r: Option<nat>)
    requires from <= |level|
    ensures r.Some? ==> from <= r.value < |level| && level[r.value].name == name
    ensures r.Some? ==> forall i :: from <= i < r.value ==> level[i].name != name
    ensures r.None? ==> forall i :: from <= i < |level| ==> level[i].name != name
    decreases |level| - from
  {
    if from == |level| then None
    else if level[from].name == name then Some(from)
    else FindFrom(level, name, from + 1)
  }

  /** The line a scan of the source file gave `name`, if any. */
  function MapLine(lineMap: Option<map<string, int>>, name: string): Option<int>
  {
    if lineMap.Some? && name in lineMap.value then Some(lineMap.value[name]) else None
  }

  /** `lineMap?.get(name) || 0`. */
  function LineOrZero(lineMap: Option<map<string, int>>, name: string): int
  {
    match MapLine(lineMap, name)
    case Some(n) => n
    case None => 0
  }

  /** Back-fill of `location.line` from the line map (:313-315, :364-366). */
  function WithSourceLine(r: TestResult, name: string, lineMap: Option<map<string, int>>): TestResult
  {
    match MapLine(lineMap, name)
    case Some(n) =>
      if r.location.Some? then r.(location := Some(r.location.value.(line := n))) else r
    case None => r
  }

  /** The suite created for segment `k` when its level has none (:334-344). */
  function NewSuite(segs: seq<string>, k: nat, record: TestResult, lineMap: Option<map<string, int>>): TestResult
    requires k < |segs|
  {
    TestResult(
      segs[k], Passed, None,
      Some(Location(if record.location.Some? then record.location.value.file else "", LineOrZero(lineMap, segs[k]), 0)),
      None, [],
      if k > 0 then Some(Join(segs[..k], PathSeparator)) else None)
  }

  /** The running path one segment down (:327). */
  function ChildPath(currentPath: string, seg: string): string
  {
    if currentPath == "" then seg else currentPath + PathSeparator + seg
  }

  /** The record handed one level down: at the level before last it takes
      the running path as its parent (:354-356). */
  function ChildRecord(record: TestResult, segs: seq<string>, k: nat, path: string): TestResult
  {
    if k == |segs| - 2 then record.(parent := Some(path)) else record
  }

  /** The walk of :320-368 from segment `k` on: reuse the first sibling with
      the segment's name or append a new suite, and append the record at
      the last level. `currentPath` is the running path of :327; the record
      takes it as `parent` at the level before last (:354-356). */
  function Insert(level: seq<TestResult>, segs: seq<string>, k: nat, currentPath: string,
                  record: TestResult, lineMap: Option<map<string, int>>): seq<TestResult>
    requires k < |segs|
    decreases |segs| - k
  {
    if k == |segs| - 1 then level + [WithSourceLine(record, segs[k], lineMap)]
    else
      var seg := segs[k];
      var path := ChildPath(currentPath, seg);
      var rec := ChildRecord(record, segs, k, path);
      match FindIndex(level, seg)
      case Some(j) =>
        level[j := level[j].(children := Insert(level[j].children, segs, k + 1, path, rec, lineMap))]
      case None =>
        level + [NewSuite(segs, k, record, lineMap).(children := Insert([], segs, k + 1, path, rec, lineMap))]
  }

  /** `updateParentStatus` (:377-397): mark every suite found along the path
      as failed, stopping at the first missing segment. */
  function UpdateParentStatus(level: seq<TestResult>, parentPath: seq<string>): seq<TestResult>
    decreases |parentPath|
  {
    if parentPath == [] then level
    else match FindIndex(level, parentPath[0])
      case None => level
      case Some(j) =>
        level[j := level[j].(status := Failed, children := UpdateParentStatus(level[j].children, parentPath[1..]))]
  }

  /** `addTestWithHierarchy` (:302-374). */
  function AddTestWithHierarchy(tests: seq<TestResult>, testPath: string, record: TestResult,
                                lineMap: Option<map<string, int>>): seq<TestResult>
  {
    var segs := Split(testPath, PathSeparator);
    var inserted := Insert(tests, segs, 0, "", record, lineMap);
    if record.status == Failed then UpdateParentStatus(inserted, segs[..|segs| - 1]) else inserted
  }

  // ---------------------------------------------------------------------
  // Walking a path

  /** The children list reached by following, level by level, the first
      node named by each segment of `path`. */
  function Level(level: seq<TestResult>, path: seq<string>): Option<seq<TestResult>>
    decreases |path|
  {
    if path == [] then Some(level)
    else match FindIndex(level, path[0])
      case None => None
      case Some(j) => Level(level[j].children, path[1..])
  }

  /** How many leading segments of `path` already exist as nested suites. */
  function Depth(level: seq<TestResult>, path: seq<string>): nat
    decreases |path|
  {
    if path == [] then 0
    else match FindIndex(level, path[0])
      case None => 0
      case Some(j) => 1 + Depth(level[j].children, path[1..])
  }

  /** Every node met while walking `path` is failed. */
  predicate FailedAlong(level: seq<TestResult>, path: seq<string>)
    decreases |path|
  {
    path == [] ||
    match FindIndex(level, path[0])
    case None => false
    case Some(j) => level[j].status == Failed && FailedAlong(level[j].children, path[1..])
  }

  lemma {:induction false} DepthOfExistingPath(level: seq<TestResult>, path: seq<string>)
    requires Level(level, path).Some?
    ensures Depth(level, path) == |path|
    decreases |path|
  {
    if path != [] {
      var j := FindIndex(level, path[0]).value;
      DepthOfExistingPath(level[j].children, path[1..]);
    }
  }

  lemma {:induction false} DepthAtMost(level: seq<TestResult>, path: seq<string>)
    ensures Depth(level, path) <= |path|
    decreases |path|
  {
    if path != [] {
      match FindIndex(level, path[0])
      case None =>
      case Some(j) => DepthAtMost(level[j].children, path[1..]);
    }
  }

  // ---------------------------------------------------------------------
  // Status invariants

  /** A result as the parser records it from one `(pass)`, `(fail)` or
      `(skip)` line: a leaf that carries a message exactly when it failed. */
  predicate IsRecord(r: TestResult)
  {
    r.children == [] && (r.status == Failed <==> r.message.Some?)
  }

  /** A node is failed exactly when it is a recorded failure or one of its
      children is failed. */
  predicate Consistent(t: TestResult)
    decreases t
  {
    (t.status == Failed <==> t.message.Some? || ChildFailed(t.children))
    && forall i :: 0 <= i < |t.children| ==> Consistent(t.children[i])
  }

  predicate ChildFailed(ts: seq<TestResult>)
  {
    exists i :: 0 <= i < |ts| && ts[i].status == Failed
  }

  predicate AllConsistent(ts: seq<TestResult>)
  {
    forall i :: 0 <= i < |ts| ==> Consistent(ts[i])
  }

  /** Some node of the subtree rooted at `t` is a recorded failure. */
  predicate HasFailureRecord(t: TestResult)
    decreases t
  {
    t.message.Some? || exists i :: 0 <= i < |t.children| && HasFailureRecord(t.children[i])
  }

  /** In a consistent tree a node is failed if and only if a recorded
      failure sits in its subtree: failures propagate to every ancestor and
      nothing else fails a suite. */
  lemma {:induction false} ConsistentMeansFailureBelow(t: TestResult)
    requires Consistent(t)
    ensures t.status == Failed <==> HasFailureRecord(t)
    decreases t
  {
    forall i | 0 <= i < |t.children|
      ensures t.children[i].status == Failed <==> HasFailureRecord(t.children[i])
    {
      ConsistentMeansFailureBelow(t.children[i]);
    }
  }

  /** The old forest sits unchanged at the front of the new one, at every
      level: nodes are only appended, never removed, reordered or altered. */
  predicate Embeds(before: seq<TestResult>, after: seq<TestResult>)
    decreases before
  {
    |before| <= |after| &&
    forall i :: 0 <= i < |before| ==>
      after[i].name == before[i].name && after[i].status == before[i].status && after[i].message == before[i].message
      && after[i].location == before[i].location && after[i].duration == before[i].duration
      && after[i].parent == before[i].parent && Embeds(before[i].children, after[i].children)
  }

  /** Nodes appended at this level are not failed. */
  predicate NoNewFailure(before: seq<TestResult>, after: seq<TestResult>)
  {
    forall i :: |before| <= i < |after| ==> after[i].status != Failed
  }

  lemma {:induction false} EmbedsReflexive(ts: seq<TestResult>)
    ensures Embeds(ts, ts)
    decreases ts
  {
    forall i | 0 <= i < |ts| ensures Embeds(ts[i].children, ts[i].children) {
      EmbedsReflexive(ts[i].children);
    }
  }

  lemma FindIndexAfterUpdate(level: seq<TestResult>, j: nat, x: TestResult, name: string)
    requires j < |level| && x.name == level[j].name
    ensures FindIndex(level[j := x], name) == FindIndex(level, name)
  {
    var after := level[j := x];
    assert forall i :: 0 <= i < |level| ==> after[i].name == level[i].name;
    var a, b := FindIndex(after, name), FindIndex(level, name);
    if a.Some? {
      assert level[a.value].name == name;
    }
    if b.Some? {
      assert after[b.value].name == name;
    }
  }

  lemma FindIndexAfterAppend(level: seq<TestResult>, x: TestResult)
    requires FindIndex(level, x.name).None?
    ensures FindIndex(level + [x], x.name) == Some(|level|)
  {
    var after := level + [x];
    assert after[|level|].name == x.name;
    forall i | 0 <= i < |level| ensures after[i].name != x.name {
      assert after[i] == level[i];
    }
  }

  /** Replacing the children of node `j` by an extension of them. */
  lemma EmbedsUpdate(level: seq<TestResult>, j: nat, c: seq<TestResult>)
    requires j < |level| && Embeds(level[j].children, c) && NoNewFailure(level[j].children, c)
    ensures var after := level[j := level[j].(children := c)];
      Embeds(level, after) && NoNewFailure(level, after)
      && (AllConsistent(level) && AllConsistent(c) ==> AllConsistent(after))
  {
    var after := level[j := level[j].(children := c)];
    EmbedsReflexive(level);
    if AllConsistent(level) && AllConsistent(c) {
      assert Consistent(level[j]);
      EmbedsChildFailed(level[j].children, c);
      assert Consistent(after[j]);
    }
  }

  /** Appending a consistent node that is not failed. */
  lemma EmbedsAppend(level: seq<TestResult>, x: TestResult)
    requires x.status != Failed
    ensures Embeds(level, level + [x]) && NoNewFailure(level, level + [x])
    ensures AllConsistent(level) && Consistent(x) ==> AllConsistent(level + [x])
  {
    var after := level + [x];
    EmbedsReflexive(level);
    assert forall i :: 0 <= i < |level| ==> after[i] == level[i];
  }

  lemma EmbedsChildFailed(before: seq<TestResult>, after: seq<TestResult>)
    requires Embeds(before, after) && NoNewFailure(before, after)
    ensures ChildFailed(after) <==> ChildFailed(before)
  {
    if ChildFailed(after) {
      var i :| 0 <= i < |after| && after[i].status == Failed;
      assert before[i].status == Failed;
    }
    if ChildFailed(before) {
      var i :| 0 <= i < |before| && before[i].status == Failed;
      assert after[i].status == Failed;
    }
  }

  /** Every suite in the subtree of `t` is passed. */
  predicate SuitesPassed(t: TestResult)
    decreases t
  {
    (|t.children| > 0 ==> t.status == Passed)
    && forall i :: 0 <= i < |t.children| ==> SuitesPassed(t.children[i])
  }

  /** Every node appended to `before`, at any level, holds only passed
      suites: a suite the walk creates starts as passed (:334-344). */
  predicate NewSuitesPassed(before: seq<TestResult>, after: seq<TestResult>)
    decreases before
  {
    |before| <= |after|
    && (forall i :: |before| <= i < |after| ==> SuitesPassed(after[i]))
    && forall i :: 0 <= i < |before| ==> NewSuitesPassed(before[i].children, after[i].children)
  }

  lemma {:induction false} NewSuitesPassedReflexive(ts: seq<TestResult>)
    ensures NewSuitesPassed(ts, ts)
    decreases ts
  {
    forall i | 0 <= i < |ts| ensures NewSuitesPassed(ts[i].children, ts[i].children) {
      NewSuitesPassedReflexive(ts[i].children);
    }
  }

  /** The walk, whatever the record's status, creates only passed suites;
      every node it appends carries passed suites only. */
  lemma {:induction false} InsertNewSuitesPassed(level: seq<TestResult>, segs: seq<string>, k: nat, path: string,
                                                 rec: TestResult, lm: Option<map<string, int>>)
    requires k < |segs| && rec.children == []
    ensures NewSuitesPassed(level, Insert(level, segs, k, path, rec, lm))
    decreases |segs| - k
  {
    NewSuitesPassedReflexive(level);
    if k == |segs| - 1 {
      var r := level + [WithSourceLine(rec, segs[k], lm)];
      assert forall i :: 0 <= i < |level| ==> r[i] == level[i];
    } else {
      var seg := segs[k];
      var path' := ChildPath(path, seg);
      var rec' := ChildRecord(rec, segs, k, path');
      var c := Insert(if FindIndex(level, seg).Some? then level[FindIndex(level, seg).value].children else [],
                      segs, k + 1, path', rec', lm);
      match FindIndex(level, seg)
      case Some(j) =>
        InsertNewSuitesPassed(level[j].children, segs, k + 1, path', rec', lm);
        var r := level[j := level[j].(children := c)];
        assert forall i :: 0 <= i < |level| && i != j ==> r[i] == level[i];
      case None =>
        InsertNewSuitesPassed([], segs, k + 1, path', rec', lm);
        var suite := NewSuite(segs, k, rec, lm).(children := c);
        assert SuitesPassed(suite);
        var r := level + [suite];
        assert forall i :: 0 <= i < |level| ==> r[i] == level[i];
    }
  }

  /** Inserting a record that did not fail keeps every existing node as it
      was, appends only non-failed nodes whose suites are all passed, and
      keeps the tree consistent. */
  lemma {:induction false} InsertPassing(level: seq<TestResult>, segs: seq<string>, k: nat, path: string,
                                         rec: TestResult, lm: Option<map<string, int>>)
    requires k < |segs| && IsRecord(rec) && rec.status != Failed
    ensures var r := Insert(level, segs, k, path, rec, lm);
      Embeds(level, r) && NoNewFailure(level, r) && (AllConsistent(level) ==> AllConsistent(r))
    ensures NewSuitesPassed(level, Insert(level, segs, k, path, rec, lm))
    decreases |segs| - k
  {
    InsertNewSuitesPassed(level, segs, k, path, rec, lm);
    if k == |segs| - 1 {
      var leaf := WithSourceLine(rec, segs[k], lm);
      assert Consistent(leaf);
      EmbedsAppend(level, leaf);
    } else {
      var seg := segs[k];
      var path' := ChildPath(path, seg);
      var rec' := ChildRecord(rec, segs, k, path');
      match FindIndex(level, seg)
      case Some(j) =>
        InsertPassing(level[j].children, segs, k + 1, path', rec', lm);
        if AllConsistent(level) {
          assert Consistent(level[j]);
        }
        EmbedsUpdate(level, j, Insert(level[j].children, segs, k + 1, path', rec', lm));
      case None =>
        var c := Insert([], segs, k + 1, path', rec', lm);
        InsertPassing([], segs, k + 1, path', rec', lm);
        var suite := NewSuite(segs, k, rec, lm).(children := c);
        EmbedsChildFailed([], c);
        assert Consistent(suite);
        EmbedsAppend(level, suite);
    }
  }

  /** Putting a consistent failed node in place of the first sibling named
      by the head of a path, with the rest of the path failed below it,
      keeps the level consistent and fails the whole path. */
  lemma PutFailed(level: seq<TestResult>, j: nat, x: TestResult, p: seq<string>)
    requires j < |level| && AllConsistent(level) && Consistent(x) && x.status == Failed
    requires p != [] && FindIndex(level, p[0]) == Some(j) && x.name == p[0] && FailedAlong(x.children, p[1..])
    ensures var r := level[j := x];
      AllConsistent(r) && ChildFailed(r) && FailedAlong(r, p)
  {
    FindIndexAfterUpdate(level, j, x, x.name);
    assert level[j := x][j] == x;
  }

  /** Appending a consistent failed node under a new name, the head of a
      path whose rest is failed below it, keeps the level consistent and
      fails the whole path. */
  lemma AppendFailed(level: seq<TestResult>, x: TestResult, p: seq<string>)
    requires AllConsistent(level) && Consistent(x) && x.status == Failed
    requires p != [] && FindIndex(level, p[0]).None? && x.name == p[0] && FailedAlong(x.children, p[1..])
    ensures var r := level + [x];
      AllConsistent(r) && ChildFailed(r) && FailedAlong(r, p)
  {
    FindIndexAfterAppend(level, x);
    assert (level + [x])[|level|] == x;
  }

  /** Inserting below a new suite and then updating the path replaces the
      appended suite by its failed, updated form. */
  lemma InsertNewThenUpdate(level: seq<TestResult>, segs: seq<string>, k: nat, path: string,
                            rec: TestResult, lm: Option<map<string, int>>)
    requires k < |segs| - 1 && FindIndex(level, segs[k]).None?
    ensures var seg := segs[k];
      var path' := ChildPath(path, seg);
      var rec' := ChildRecord(rec, segs, k, path');
      var c := Insert([], segs, k + 1, path', rec', lm);
      UpdateParentStatus(Insert(level, segs, k, path, rec, lm), segs[k..|segs| - 1])
        == level + [NewSuite(segs, k, rec, lm).(status := Failed,
                                                children := UpdateParentStatus(c, segs[k + 1..|segs| - 1]))]
  {
    var seg := segs[k];
    var path' := ChildPath(path, seg);
    var rec' := ChildRecord(rec, segs, k, path');
    var c := Insert([], segs, k + 1, path', rec', lm);
    var p := segs[k..|segs| - 1];
    var p' := segs[k + 1..|segs| - 1];
    assert p[0] == seg && p[1..] == p';
    var suite := NewSuite(segs, k, rec, lm).(children := c);
    var ins := level + [suite];
    assert Insert(level, segs, k, path, rec, lm) == ins;
    FindIndexAfterAppend(level, suite);
    var suite' := suite.(status := Failed, children := UpdateParentStatus(c, p'));
    assert UpdateParentStatus(ins, p) == ins[|level| := suite'];
    assert ins[|level| := suite'] == level + [suite'];
  }

  /** Inserting a failed record and then running `updateParentStatus` along
      its suite path fails every suite on that path and keeps the tree
      consistent. */
  lemma {:induction false} InsertFailing(level: seq<TestResult>, segs: seq<string>, k: nat, path: string,
                                         rec: TestResult, lm: Option<map<string, int>>)
    requires k < |segs| && IsRecord(rec) && rec.status == Failed && AllConsistent(level)
    ensures var r := UpdateParentStatus(Insert(level, segs, k, path, rec, lm), segs[k..|segs| - 1]);
      AllConsistent(r) && ChildFailed(r) && FailedAlong(r, segs[k..|segs| - 1])
    decreases |segs| - k, 1
  {
    if k == |segs| - 1 {
      var leaf := WithSourceLine(rec, segs[k], lm);
      assert segs[k..|segs| - 1] == [];
      assert Insert(level, segs, k, path, rec, lm) == level + [leaf];
      assert Consistent(leaf);
      assert (level + [leaf])[|level|] == leaf;
    } else if FindIndex(level, segs[k]).Some? {
      InsertFailingFound(level, segs, k, path, rec, lm, FindIndex(level, segs[k]).value);
    } else {
      InsertFailingNew(level, segs, k, path, rec, lm);
    }
  }

  /** Inserting below an existing suite and then updating the path
      replaces that suite by its failed, updated form. */
  lemma InsertFoundThenUpdate(level: seq<TestResult>, segs: seq<string>, k: nat, path: string,
                              rec: TestResult, lm: Option<map<string, int>>, j: nat)
    requires k < |segs| - 1 && FindIndex(level, segs[k]) == Some(j)
    ensures var seg := segs[k];
      var path' := ChildPath(path, seg);
      var rec' := ChildRecord(rec, segs, k, path');
      var c := Insert(level[j].children, segs, k + 1, path', rec', lm);
      UpdateParentStatus(Insert(level, segs, k, path, rec, lm), segs[k..|segs| - 1])
        == level[j := level[j].(status := Failed, children := UpdateParentStatus(c, segs[k + 1..|segs| - 1]))]
  {
    var seg := segs[k];
    var path' := ChildPath(path, seg);
    var rec' := ChildRecord(rec, segs, k, path');
    var p := segs[k..|segs| - 1];
    var p' := segs[k + 1..|segs| - 1];
    assert p[0] == seg && p[1..] == p';
    var c := Insert(level[j].children, segs, k + 1, path', rec', lm);
    var node := level[j].(children := c);
    var ins := level[j := node];
    assert Insert(level, segs, k, path, rec, lm) == ins;
    FindIndexAfterUpdate(level, j, node, seg);
    assert UpdateParentStatus(ins, p) == ins[j := node.(status := Failed, children := UpdateParentStatus(c, p'))];
  }

  /** The step of `InsertFailing` through an existing suite. */
  lemma {:induction false} InsertFailingFound(level: seq<TestResult>, segs: seq<string>, k: nat, path: string,
                                              rec: TestResult, lm: Option<map<string, int>>, j: nat)
    requires k < |segs| - 1 && IsRecord(rec) && rec.status == Failed && AllConsistent(level)
    requires FindIndex(level, segs[k]) == Some(j)
    ensures var r := UpdateParentStatus(Insert(level, segs, k, path, rec, lm), segs[k..|segs| - 1]);
      AllConsistent(r) && ChildFailed(r) && FailedAlong(r, segs[k..|segs| - 1])
    decreases |segs| - k, 0
  {
    var seg := segs[k];
    var path' := ChildPath(path, seg);
    var rec' := ChildRecord(rec, segs, k, path');
    var p := segs[k..|segs| - 1];
    var p' := segs[k + 1..|segs| - 1];
    assert p[0] == seg && p[1..] == p';
    var c := Insert(level[j].children, segs, k + 1, path', rec', lm);
    var node' := level[j].(status := Failed, children := UpdateParentStatus(c, p'));
    InsertFailing(level[j].children, segs, k + 1, path', rec', lm);
    assert Consistent(node');
    InsertFoundThenUpdate(level, segs, k, path, rec, lm, j);
    PutFailed(level, j, node', p);
  }

  /** The step of `InsertFailing` through a new suite. */
  lemma {:induction false} InsertFailingNew(level: seq<TestResult>, segs: seq<string>, k: nat, path: string,
                                            rec: TestResult, lm: Option<map<string, int>>)
    requires k < |segs| - 1 && IsRecord(rec) && rec.status == Failed && AllConsistent(level)
    requires FindIndex(level, segs[k]).None?
    ensures var r := UpdateParentStatus(Insert(level, segs, k, path, rec, lm), segs[k..|segs| - 1]);
      AllConsistent(r) && ChildFailed(r) && FailedAlong(r, segs[k..|segs| - 1])
    decreases |segs| - k, 0
  {
    var seg := segs[k];
    var path' := ChildPath(path, seg);
    var rec' := ChildRecord(rec, segs, k, path');
    var p := segs[k..|segs| - 1];
    var p' := segs[k + 1..|segs| - 1];
    assert p[0] == seg && p[1..] == p';
    var c := Insert([], segs, k + 1, path', rec', lm);
    var suite' := NewSuite(segs, k, rec, lm).(status := Failed, children := UpdateParentStatus(c, p'));
    InsertFailing([], segs, k + 1, path', rec', lm);
    assert Consistent(suite');
    InsertNewThenUpdate(level, segs, k, path, rec, lm);
    AppendFailed(level, suite', p);
  }

  /** The consistency invariant and the file's "some top-level result
      failed" flag after one `addTestWithHierarchy`: a failed record fails
      the whole suite path to it; any other record changes no existing node. */
  lemma AddTestKeepsConsistency(tests: seq<TestResult>, testPath: string, rec: TestResult,
                                lm: Option<map<string, int>>)
    requires AllConsistent(tests) && IsRecord(rec)
    ensures var r := AddTestWithHierarchy(tests, testPath, rec, lm);
      AllConsistent(r) && (ChildFailed(r) <==> ChildFailed(tests) || rec.status == Failed)
    ensures rec.status != Failed ==> Embeds(tests, AddTestWithHierarchy(tests, testPath, rec, lm))
    ensures rec.status == Failed ==>
      var segs := Split(testPath, PathSeparator);
      FailedAlong(AddTestWithHierarchy(tests, testPath, rec, lm), segs[..|segs| - 1])
  {
    var segs := Split(testPath, PathSeparator);
    assert segs[0..|segs| - 1] == segs[..|segs| - 1];
    if rec.status == Failed {
      InsertFailing(tests, segs, 0, "", rec, lm);
    } else {
      InsertPassing(tests, segs, 0, "", rec, lm);
    }
  }

  // ---------------------------------------------------------------------
  // Where the record lands

  /** The record as it is finally placed: it takes the full path of its
      suite as `parent` when it has one (:354-356) and its line from the
      source scan (:364-366). */
  function Placed(rec: TestResult, segs: seq<string>, lm: Option<map<string, int>>): TestResult
    requires segs != []
  {
    var r := if |segs| >= 2 then rec.(parent := Some(Join(segs[..|segs| - 1], PathSeparator))) else rec;
    WithSourceLine(r, segs[|segs| - 1], lm)
  }

  /** The running path of :327 after segment `k` is the join of the first
      `k + 1` segments. */
  lemma PathStep(segs: seq<string>, k: nat, path: string)
    requires k < |segs| && segs[0] != []
    requires path == if k == 0 then "" else Join(segs[..k], PathSeparator)
    ensures ChildPath(path, segs[k]) == Join(segs[..k + 1], PathSeparator)
  {
    if k == 0 {
      assert segs[..1] == [segs[k]];
    } else {
      assert segs[..k + 1] == segs[..k] + [segs[k]];
      ChildPathSnoc(segs[..k], segs[k]);
    }
  }

  /** Below a non-empty path, one more segment extends the join by one part. */
  lemma ChildPathSnoc(front: seq<string>, seg: string)
    requires front != [] && front[0] != []
    ensures ChildPath(Join(front, PathSeparator), seg) == Join(front + [seg], PathSeparator)
  {
    JoinStartsWithFirst(front, PathSeparator);
    JoinSnoc(front, seg, PathSeparator);
  }

  /** The last node of the children list that `path` leads to. */
  function LastAt(level: seq<TestResult>, path: seq<string>): Option<TestResult>
  {
    match Level(level, path)
    case Some(l) => if l == [] then None else Some(l[|l| - 1])
    case None => None
  }

  lemma {:induction false} InsertPlaces(level: seq<TestResult>, segs: seq<string>, k: nat, path: string,
                                        rec: TestResult, lm: Option<map<string, int>>)
    requires k < |segs| && (|segs| == 1 || segs[0] != [])
    requires path == if k == 0 then "" else Join(segs[..k], PathSeparator)
    requires k == |segs| - 1 && |segs| >= 2 ==> rec.parent == Some(Join(segs[..|segs| - 1], PathSeparator))
    ensures LastAt(Insert(level, segs, k, path, rec, lm), segs[k..|segs| - 1]) == Some(Placed(rec, segs, lm))
    decreases |segs| - k, 2
  {
    var n := |segs|;
    if k == n - 1 {
      assert segs[k..n - 1] == [];
      if n >= 2 {
        assert rec.(parent := Some(Join(segs[..n - 1], PathSeparator))) == rec;
      }
    } else {
      match FindIndex(level, segs[k])
      case Some(j) => InsertPlacesFound(level, segs, k, path, rec, lm, j);
      case None => InsertPlacesNew(level, segs, k, path, rec, lm);
    }
  }

  /** The walk's running path and record one level down place the record
      where the original ones do. */
  lemma PlacesOneDown(segs: seq<string>, k: nat, path: string, rec: TestResult, lm: Option<map<string, int>>)
    requires k < |segs| - 1 && segs[0] != []
    requires path == if k == 0 then "" else Join(segs[..k], PathSeparator)
    ensures var seg := segs[k];
      var path' := ChildPath(path, seg);
      var rec' := ChildRecord(rec, segs, k, path');
      path' == Join(segs[..k + 1], PathSeparator) && Placed(rec', segs, lm) == Placed(rec, segs, lm)
      && (k + 1 == |segs| - 1 ==> rec'.parent == Some(Join(segs[..|segs| - 1], PathSeparator)))
  {
    PathStep(segs, k, path);
  }

  lemma {:induction false} InsertPlacesFound(level: seq<TestResult>, segs: seq<string>, k: nat, path: string,
                                             rec: TestResult, lm: Option<map<string, int>>, j: nat)
    requires k < |segs| - 1 && segs[0] != [] && FindIndex(level, segs[k]) == Some(j)
    requires path == if k == 0 then "" else Join(segs[..k], PathSeparator)
    ensures LastAt(Insert(level, segs, k, path, rec, lm), segs[k..|segs| - 1]) == Some(Placed(rec, segs, lm))
    decreases |segs| - k, 1
  {
    PlacedBelow(level[j].children, segs, k, path, rec, lm);
    PlacesThroughFound(level, segs, k, path, rec, lm, j);
  }

  lemma {:induction false} InsertPlacesNew(level: seq<TestResult>, segs: seq<string>, k: nat, path: string,
                                           rec: TestResult, lm: Option<map<string, int>>)
    requires k < |segs| - 1 && segs[0] != [] && FindIndex(level, segs[k]).None?
    requires path == if k == 0 then "" else Join(segs[..k], PathSeparator)
    ensures LastAt(Insert(level, segs, k, path, rec, lm), segs[k..|segs| - 1]) == Some(Placed(rec, segs, lm))
    decreases |segs| - k, 1
  {
    PlacedBelow([], segs, k, path, rec, lm);
    PlacesThroughNew(level, segs, k, path, rec, lm);
  }

  /** The walk continued one level down, in any children list, places the
      record where the walk from segment `k` is to place it. */
  lemma {:induction false} PlacedBelow(children: seq<TestResult>, segs: seq<string>, k: nat, path: string,
                                       rec: TestResult, lm: Option<map<string, int>>)
    requires k < |segs| - 1 && segs[0] != []
    requires path == if k == 0 then "" else Join(segs[..k], PathSeparator)
    ensures var path' := ChildPath(path, segs[k]);
      LastAt(Insert(children, segs, k + 1, path', ChildRecord(rec, segs, k, path'), lm), segs[k + 1..|segs| - 1])
        == Some(Placed(rec, segs, lm))
    decreases |segs| - k, 0
  {
    var path' := ChildPath(path, segs[k]);
    var rec' := ChildRecord(rec, segs, k, path');
    PlacesOneDown(segs, k, path, rec, lm);
    InsertPlaces(children, segs, k + 1, path', rec', lm);
  }

  /** `LastAt` one level down: through the first sibling named by the head
      of the path. */
  lemma LastAtThrough(level: seq<TestResult>, p: seq<string>, j: nat)
    requires p != [] && FindIndex(level, p[0]) == Some(j)
    ensures LastAt(level, p) == LastAt(level[j].children, p[1..])
  {
  }

  /** One level of the walk when segment `k` names an existing sibling:
      the record's final level is reached through that sibling. */
  lemma PlacesThroughFound(level: seq<TestResult>, segs: seq<string>, k: nat, path: string,
                           rec: TestResult, lm: Option<map<string, int>>, j: nat)
    requires k < |segs| - 1
    requires FindIndex(level, segs[k]) == Some(j)
    ensures var seg := segs[k];
      var path' := ChildPath(path, seg);
      var rec' := ChildRecord(rec, segs, k, path');
      LastAt(Insert(level, segs, k, path, rec, lm), segs[k..|segs| - 1])
        == LastAt(Insert(level[j].children, segs, k + 1, path', rec', lm), segs[k + 1..|segs| - 1])
  {
    var seg := segs[k];
    var path' := ChildPath(path, seg);
    var rec' := ChildRecord(rec, segs, k, path');
    var p := segs[k..|segs| - 1];
    assert p[0] == seg && p[1..] == segs[k + 1..|segs| - 1];
    var c := Insert(level[j].children, segs, k + 1, path', rec', lm);
    var node := level[j].(children := c);
    InsertThroughFound(level, segs, k, path, rec, lm, j);
    FindIndexAfterUpdate(level, j, node, seg);
    assert level[j := node][j] == node;
    LastAtThrough(level[j := node], p, j);
  }

  /** One level of the walk when segment `k` is new: the record's final
      level is reached through the suite appended for it. */
  lemma PlacesThroughNew(level: seq<TestResult>, segs: seq<string>, k: nat, path: string,
                         rec: TestResult, lm: Option<map<string, int>>)
    requires k < |segs| - 1
    requires FindIndex(level, segs[k]).None?
    ensures var seg := segs[k];
      var path' := ChildPath(path, seg);
      var rec' := ChildRecord(rec, segs, k, path');
      LastAt(Insert(level, segs, k, path, rec, lm), segs[k..|segs| - 1])
        == LastAt(Insert([], segs, k + 1, path', rec', lm), segs[k + 1..|segs| - 1])
  {
    var seg := segs[k];
    var path' := ChildPath(path, seg);
    var rec' := ChildRecord(rec, segs, k, path');
    var p := segs[k..|segs| - 1];
    assert p[0] == seg && p[1..] == segs[k + 1..|segs| - 1];
    var c := Insert([], segs, k + 1, path', rec', lm);
    var suite := NewSuite(segs, k, rec, lm).(children := c);
    InsertThroughNew(level, segs, k, path, rec, lm);
    FindIndexAfterAppend(level, suite);
    assert (level + [suite])[|level|] == suite;
    LastAtThrough(level + [suite], p, |level|);
  }

  lemma {:induction false} LevelAfterUpdateParentStatus(level: seq<TestResult>, path: seq<string>)
    requires Level(level, path).Some?
    ensures Level(UpdateParentStatus(level, path), path) == Level(level, path)
    decreases |path|
  {
    if path != [] {
      var j := FindIndex(level, path[0]).value;
      LevelAfterUpdateParentStatus(level[j].children, path[1..]);
      FindIndexAfterUpdate(level, j, level[j].(status := Failed, children := UpdateParentStatus(level[j].children, path[1..])), path[0]);
    }
  }

  /** `addTestWithHierarchy` puts the record last in the children of the
      suite its path names (found or created), with that suite's path as
      its parent. Test paths come from trimmed lines, so they do not start
      with white space. */
  lemma AddTestPlacesRecord(tests: seq<TestResult>, testPath: string, rec: TestResult, lm: Option<map<string, int>>)
    requires testPath == [] || !IsSpace(testPath[0])
    ensures var segs := Split(testPath, PathSeparator);
      LastAt(AddTestWithHierarchy(tests, testPath, rec, lm), segs[..|segs| - 1]) == Some(Placed(rec, segs, lm))
  {
    var segs := Split(testPath, PathSeparator);
    var prefix := segs[..|segs| - 1];
    FirstSegmentNonEmpty(testPath);
    assert segs[0..|segs| - 1] == prefix;
    var ins := Insert(tests, segs, 0, "", rec, lm);
    var r := AddTestWithHierarchy(tests, testPath, rec, lm);
    assert r == if rec.status == Failed then UpdateParentStatus(ins, prefix) else ins;
    InsertPlaces(tests, segs, 0, "", rec, lm);
    LastAtAfterUpdateParentStatus(ins, prefix);
  }

  lemma LastAtAfterUpdateParentStatus(level: seq<TestResult>, path: seq<string>)
    requires LastAt(level, path).Some?
    ensures LastAt(UpdateParentStatus(level, path), path) == LastAt(level, path)
  {
    LevelAfterUpdateParentStatus(level, path);
  }

  /** A path that does not start with white space cannot start with the
      separator, so when it has a suite part its first segment is not empty. */
  lemma FirstSegmentNonEmpty(testPath: string)
    requires testPath == [] || !IsSpace(testPath[0])
    ensures var segs := Split(testPath, PathSeparator); |segs| == 1 || segs[0] != []
  {
    var idx := IndexOf(testPath, PathSeparator, 0);
    if idx.Some? {
      assert testPath[idx.value..idx.value + 3] == PathSeparator;
      assert testPath[idx.value] == ' ';
      assert Split(testPath, PathSeparator)[0] == testPath[..idx.value];
    }
  }

  // ---------------------------------------------------------------------
  // Node counts

  lemma {:induction false} NodeCountAppend(a: seq<TestResult>, b: seq<TestResult>)
    ensures NodeCount(a + b) == NodeCount(a) + NodeCount(b)
  {
    if a != [] {
      assert (a + b)[0] == a[0];
      assert (a + b)[1..] == a[1..] + b;
      NodeCountAppend(a[1..], b);
    } else {
      assert a + b == b;
    }
  }

  lemma {:induction false} NodeCountUpdate(level: seq<TestResult>, j: nat, x: TestResult)
    requires j < |level|
    ensures NodeCount(level[j := x]) + NodeCount(level[j].children) == NodeCount(level) + NodeCount(x.children)
  {
    var after := level[j := x];
    if j == 0 {
      assert after[1..] == level[1..];
    } else {
      assert after[0] == level[0];
      assert after[1..] == level[1..][j - 1 := x];
      NodeCountUpdate(level[1..], j - 1, x);
    }
  }

  lemma {:induction false} UpdateParentStatusKeepsCount(level: seq<TestResult>, path: seq<string>)
    ensures NodeCount(UpdateParentStatus(level, path)) == NodeCount(level)
    decreases |path|
  {
    if path != [] {
      match FindIndex(level, path[0])
      case None =>
      case Some(j) =>
        UpdateParentStatusKeepsCount(level[j].children, path[1..]);
        NodeCountUpdate(level, j, level[j].(status := Failed, children := UpdateParentStatus(level[j].children, path[1..])));
    }
  }

  /** One insertion adds the record's subtree plus one suite for every
      segment of its suite path that does not exist yet. */
  lemma {:induction false} InsertCount(level: seq<TestResult>, segs: seq<string>, k: nat, path: string,
                                       rec: TestResult, lm: Option<map<string, int>>)
    requires k < |segs|
    ensures NodeCount(Insert(level, segs, k, path, rec, lm))
      == NodeCount(level) + 1 + NodeCount(rec.children) + (|segs| - 1 - k) - Depth(level, segs[k..|segs| - 1])
    decreases |segs| - k, 1
  {
    if k == |segs| - 1 {
      var leaf := WithSourceLine(rec, segs[k], lm);
      assert Insert(level, segs, k, path, rec, lm) == level + [leaf];
      NodeCountAppend(level, [leaf]);
      assert [leaf][1..] == [];
    } else if FindIndex(level, segs[k]).Some? {
      InsertCountFound(level, segs, k, path, rec, lm, FindIndex(level, segs[k]).value);
    } else {
      InsertCountNew(level, segs, k, path, rec, lm);
    }
  }

  /** Insertion through an existing suite rebuilds that suite around the
      insertion into its children. */
  lemma InsertThroughFound(level: seq<TestResult>, segs: seq<string>, k: nat, path: string,
                           rec: TestResult, lm: Option<map<string, int>>, j: nat)
    requires k < |segs| - 1 && FindIndex(level, segs[k]) == Some(j)
    ensures var seg := segs[k];
      var path' := ChildPath(path, seg);
      var rec' := ChildRecord(rec, segs, k, path');
      Insert(level, segs, k, path, rec, lm)
        == level[j := level[j].(children := Insert(level[j].children, segs, k + 1, path', rec', lm))]
  {
  }

  /** Insertion through a missing suite appends a new suite holding the
      insertion into an empty level. */
  lemma InsertThroughNew(level: seq<TestResult>, segs: seq<string>, k: nat, path: string,
                         rec: TestResult, lm: Option<map<string, int>>)
    requires k < |segs| - 1 && FindIndex(level, segs[k]).None?
    ensures var seg := segs[k];
      var path' := ChildPath(path, seg);
      var rec' := ChildRecord(rec, segs, k, path');
      Insert(level, segs, k, path, rec, lm)
        == level + [NewSuite(segs, k, rec, lm).(children := Insert([], segs, k + 1, path', rec', lm))]
  {
  }

  lemma {:induction false} InsertCountFound(level: seq<TestResult>, segs: seq<string>, k: nat, path: string,
                                            rec: TestResult, lm: Option<map<string, int>>, j: nat)
    requires k < |segs| - 1 && FindIndex(level, segs[k]) == Some(j)
    ensures NodeCount(Insert(level, segs, k, path, rec, lm))
      == NodeCount(level) + 1 + NodeCount(rec.children) + (|segs| - 1 - k) - Depth(level, segs[k..|segs| - 1])
    decreases |segs| - k, 0
  {
    var seg := segs[k];
    var path' := ChildPath(path, seg);
    var rec' := ChildRecord(rec, segs, k, path');
    var p := segs[k..|segs| - 1];
    assert p[0] == seg && p[1..] == segs[k + 1..|segs| - 1];
    assert Depth(level, p) == 1 + Depth(level[j].children, segs[k + 1..|segs| - 1]);
    var c := Insert(level[j].children, segs, k + 1, path', rec', lm);
    InsertCount(level[j].children, segs, k + 1, path', rec', lm);
    InsertThroughFound(level, segs, k, path, rec, lm, j);
    NodeCountUpdate(level, j, level[j].(children := c));
  }

  lemma {:induction false} InsertCountNew(level: seq<TestResult>, segs: seq<string>, k: nat, path: string,
                                          rec: TestResult, lm: Option<map<string, int>>)
    requires k < |segs| - 1 && FindIndex(level, segs[k]).None?
    ensures NodeCount(Insert(level, segs, k, path, rec, lm))
      == NodeCount(level) + 1 + NodeCount(rec.children) + (|segs| - 1 - k) - Depth(level, segs[k..|segs| - 1])
    decreases |segs| - k, 0
  {
    var seg := segs[k];
    var path' := ChildPath(path, seg);
    var rec' := ChildRecord(rec, segs, k, path');
    var p := segs[k..|segs| - 1];
    assert p[0] == seg;
    assert Depth(level, p) == 0;
    var c := Insert([], segs, k + 1, path', rec', lm);
    InsertCount([], segs, k + 1, path', rec', lm);
    assert Depth([], segs[k + 1..|segs| - 1]) == 0;
    InsertThroughNew(level, segs, k, path, rec, lm);
    var suite := NewSuite(segs, k, rec, lm).(children := c);
    NodeCountAppend(level, [suite]);
    assert [suite][1..] == [];
  }

  /** `addTestWithHierarchy` grows the tree by one node per missing suite on
      the path plus the record itself; when the whole suite path already
      exists it adds exactly one node. */
  lemma AddTestCount(tests: seq<TestResult>, testPath: string, rec: TestResult, lm: Option<map<string, int>>)
    requires rec.children == []
    ensures var segs := Split(testPath, PathSeparator);
      NodeCount(AddTestWithHierarchy(tests, testPath, rec, lm))
        == NodeCount(tests) + |segs| - Depth(tests, segs[..|segs| - 1])
    ensures var segs := Split(testPath, PathSeparator);
      Level(tests, segs[..|segs| - 1]).Some? ==>
        NodeCount(AddTestWithHierarchy(tests, testPath, rec, lm)) == NodeCount(tests) + 1
  {
    var segs := Split(testPath, PathSeparator);
    var prefix := segs[..|segs| - 1];
    var ins := Insert(tests, segs, 0, "", rec, lm);
    assert segs[0..|segs| - 1] == prefix;
    assert NodeCount(ins) == NodeCount(tests) + |segs| - Depth(tests, prefix) by {
      InsertCount(tests, segs, 0, "", rec, lm);
    }
    assert NodeCount(AddTestWithHierarchy(tests, testPath, rec, lm)) == NodeCount(ins) by {
      assert AddTestWithHierarchy(tests, testPath, rec, lm)
        == if rec.status == Failed then UpdateParentStatus(ins, prefix) else ins;
      UpdateParentStatusKeepsCount(ins, prefix);
    }
    if Level(tests, prefix).Some? {
      DepthOfExistingPath(tests, prefix);
    }
  }
}
