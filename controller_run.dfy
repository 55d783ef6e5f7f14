/** How the controller applies parsed results to editor test items
    (src/BunTestController.ts): the item that receives each result in
    `processTestResults` and the walk over a result forest, and the
    grouping of queued items by file in `runHandler`. */
module ControllerRun {

  import opened Wrappers
  import opened BunTypes
  import opened Relatedness
  import opened ControllerTree

  // ---------------------------------------------------------------------
  // Which item receives a result (:486-501)

  /** The item a result is reported on, if any: for a result named
      differently from a parent that has children, the matching descendant,
      else the parent if the result is related to it; in every other case
      the parent if the result is related to it. An unrelated result is
      skipped. */
  function SelectItem(parent: TestItem, r: TestResult): Option<TestItem>
  {
    if r.name != parent.itemLabel && |parent.children| > 0 then
      match FindMatch(parent, r.name)
      case Some(c) => Some(c)
      case None => if IsRelated(parent, r) then Some(parent) else None
    else if IsRelated(parent, r) then Some(parent) else None
  }

  /** A result is skipped exactly when it is unrelated to the parent; the
      item it goes to is related to it and is the parent or a descendant
      carrying the result's name. A result named like the parent goes to the
      parent, and under a parent without children nothing else can be
      chosen. A result named differently from the parent, with a strict
      descendant of that name, goes to the descendant the search finds. */
  lemma SelectionMeaning(parent: TestItem, r: TestResult)
    ensures SelectItem(parent, r).None? <==> !IsRelated(parent, r)
    ensures var s := SelectItem(parent, r);
      s.Some? ==>
        (IsRelated(s.value, r) && ItemWithin(s.value, parent)
         && (s.value == parent || (s.value.itemLabel == r.name && StrictlyWithin(s.value, parent))))
    ensures r.name == parent.itemLabel ==> SelectItem(parent, r) == Some(parent)
    ensures |parent.children| == 0 && SelectItem(parent, r).Some? ==> SelectItem(parent, r).value == parent
    ensures r.name != parent.itemLabel && (exists x :: StrictlyWithin(x, parent) && x.itemLabel == r.name) ==>
      SelectItem(parent, r) == FindMatch(parent, r.name)
      && SelectItem(parent, r).Some? && SelectItem(parent, r).value != parent
  {
    FindMatchMeaning(parent, r.name);
    NeverTheParent(parent, r.name);
    RelatedMeansSharedName(parent, r);
    assert ResultWithin(r, r);
    assert ItemWithin(parent, parent);
    var s := SelectItem(parent, r);
    if s.Some? && s.value != parent {
      var c :| c in parent.children && ItemWithin(s.value, c);
      assert ItemWithin(s.value, parent);
      RelatedMeansSharedName(s.value, r);
      assert ItemWithin(s.value, s.value);
    }
    if r.name == parent.itemLabel {
      assert IsRelated(parent, r);
    }
  }

  // ---------------------------------------------------------------------
  // The walk of processTestResults (:464-623)

  /** One result reported on one item (`run.passed`, `run.failed` or
      `run.skipped` with the result's status). */
  datatype Report = Report(item: TestItem, result: TestResult)

  /** What one result produces under `parent`: nothing when it is skipped,
      otherwise its own report followed by those of its children, which are
      matched under the item it went to. */
  function ResultReports(r: TestResult, parent: TestItem): seq<Report>
    decreases r
  {
    if parent.uri.None? then []
    else match SelectItem(parent, r)
      case None => []
      case Some(x) => [Report(x, r)] + (if |r.children| > 0 then ForestReports(r.children, x, |r.children|) else [])
  }

  /** The reports of the first `k` results of a forest under `parent`. A
      parent without a uri produces none. */
  function ForestReports(tests: seq<TestResult>, parent: TestItem, k: nat): seq<Report>
    requires k <= |tests|
    decreases tests, k
  {
    if k == 0 || parent.uri.None? then []
    else ForestReports(tests, parent, k - 1) + ResultReports(tests[k - 1], parent)
  }

  /** `processTestResults`, with the editor calls it makes recorded as
      reports. */
  method ProcessTestResults(tests: seq<TestResult>, parent: TestItem) returns (reports: seq<Report>)
    ensures reports == ForestReports(tests, parent, |tests|)
    decreases tests
  {
    reports := [];
    if parent.uri.None? {
      return;
    }
    for i := 0 to |tests|
      invariant reports == ForestReports(tests, parent, i)
    {
      var testResult := tests[i];
      var testItem := parent;
      if testResult.name != parent.itemLabel && |parent.children| > 0 {
        var foundChild := FindMatchingTestItem(parent, testResult.name);
        if foundChild.Some? {
          testItem := foundChild.value;
        } else if !IsRelated(parent, testResult) {
          continue;
        }
      } else if !IsRelated(parent, testResult) {
        continue;
      }
      reports := reports + [Report(testItem, testResult)];
      if |testResult.children| > 0 {
        var childReports := ProcessTestResults(testResult.children, testItem);
        reports := reports + childReports;
      }
    }
  }

  /** Descent is transitive. */
  lemma {:induction false} WithinTransitive(x: TestItem, y: TestItem, z: TestItem)
    requires ItemWithin(x, y) && ItemWithin(y, z)
    ensures ItemWithin(x, z)
    decreases z
  {
    if y != z {
      var c :| c in z.children && ItemWithin(y, c);
      WithinTransitive(x, y, c);
    }
  }

  /** Every report in `rs` puts a result on an item under `parent` that
      the result is related to. */
  predicate Sound(rs: seq<Report>, parent: TestItem)
  {
    forall k :: 0 <= k < |rs| ==> IsRelated(rs[k].item, rs[k].result) && ItemWithin(rs[k].item, parent)
  }

  lemma SoundAppend(a: seq<Report>, b: seq<Report>, parent: TestItem)
    requires Sound(a, parent) && Sound(b, parent)
    ensures Sound(a + b, parent)
  {
    forall k | 0 <= k < |a + b|
      ensures IsRelated((a + b)[k].item, (a + b)[k].result) && ItemWithin((a + b)[k].item, parent)
    {
      if k >= |a| {
        assert (a + b)[k] == b[k - |a|];
      }
    }
  }

  lemma SoundLift(rs: seq<Report>, x: TestItem, parent: TestItem)
    requires Sound(rs, x) && ItemWithin(x, parent)
    ensures Sound(rs, parent)
  {
    forall k | 0 <= k < |rs|
      ensures ItemWithin(rs[k].item, parent)
    {
      WithinTransitive(rs[k].item, x, parent);
    }
  }

  /** Every report of a result puts it on an item under the parent that
      the result is related to. */
  lemma {:induction false} ResultReportsSound(r: TestResult, parent: TestItem)
    ensures Sound(ResultReports(r, parent), parent)
    decreases r
  {
    if parent.uri.Some? && SelectItem(parent, r).Some? {
      var x := SelectItem(parent, r).value;
      SelectionMeaning(parent, r);
      var own := [Report(x, r)];
      assert Sound(own, parent);
      if |r.children| > 0 {
        var sub := ForestReports(r.children, x, |r.children|);
        ForestReportsSound(r.children, x, |r.children|);
        SoundLift(sub, x, parent);
        SoundAppend(own, sub, parent);
      }
    }
  }

  lemma {:induction false} ForestReportsSound(tests: seq<TestResult>, parent: TestItem, k: nat)
    requires k <= |tests|
    ensures Sound(ForestReports(tests, parent, k), parent)
    decreases tests, k
  {
    if k > 0 && parent.uri.Some? {
      ForestReportsSound(tests, parent, k - 1);
      ResultReportsSound(tests[k - 1], parent);
      SoundAppend(ForestReports(tests, parent, k - 1), ResultReports(tests[k - 1], parent), parent);
    }
  }

  // ---------------------------------------------------------------------
  // Grouping the queue by file (:289-303)

  /** The files of the queued items with a uri, in order of first
      appearance: the key order of the `Map`. */
  function FilesOf(queue: seq<TestItem>): seq<string>
  {
    if queue == [] then []
    else
      var init := FilesOf(queue[..|queue| - 1]);
      var u := queue[|queue| - 1].uri;
      if u.Some? && u.value !in init then init + [u.value] else init
  }

  /** The queued items of one file, in queue order. */
  function ItemsOf(queue: seq<TestItem>, file: string): seq<TestItem>
  {
    if queue == [] then []
    else
      var t := queue[|queue| - 1];
      ItemsOf(queue[..|queue| - 1], file) + (if t.uri == Some(file) then [t] else [])
  }

  /** `testsByFile`: items without a uri are left out; each file's list
      gets its items in queue order. */
  method GroupByFile(queue: seq<TestItem>) returns (files: seq<string>, testsByFile: map<string, seq<TestItem>>)
    ensures files == FilesOf(queue)
    ensures forall f :: f in testsByFile <==> f in files
    ensures forall f :: f in testsByFile ==> testsByFile[f] == ItemsOf(queue, f)
  {
    files := [];
    testsByFile := map[];
    for i := 0 to |queue|
      invariant files == FilesOf(queue[..i])
      invariant forall f :: f in testsByFile <==> f in files
      invariant forall f :: f in testsByFile ==> testsByFile[f] == ItemsOf(queue[..i], f)
    {
      ItemsOfNext(queue, i);
      var test := queue[i];
      if test.uri.None? {
        continue;
      }
      var filePath := test.uri.value;
      if filePath !in testsByFile {
        ItemsOfUnlisted(queue[..i], filePath);
        testsByFile := testsByFile[filePath := []];
        files := files + [filePath];
      }
      testsByFile := testsByFile[filePath := testsByFile[filePath] + [test]];
    }
    assert queue[..|queue|] == queue;
  }

  lemma ItemsOfNext(queue: seq<TestItem>, i: nat)
    requires i < |queue|
    ensures FilesOf(queue[..i + 1]) ==
      var u := queue[i].uri;
      if u.Some? && u.value !in FilesOf(queue[..i]) then FilesOf(queue[..i]) + [u.value] else FilesOf(queue[..i])
    ensures forall f ::
      (ItemsOf(queue[..i + 1], f) == ItemsOf(queue[..i], f) + (if queue[i].uri == Some(f) then [queue[i]] else []))
  {
    assert queue[..i + 1][..i] == queue[..i];
  }

  /** A file no queued item has gets no items. */
  lemma {:induction false} ItemsOfUnlisted(queue: seq<TestItem>, file: string)
    requires file !in FilesOf(queue)
    ensures ItemsOf(queue, file) == []
  {
    if queue != [] {
      ItemsOfUnlisted(queue[..|queue| - 1], file);
    }
  }

  /** A file is listed exactly when some queued item has it as uri, and is
      listed once. */
  lemma {:induction false} FilesOfMeaning(queue: seq<TestItem>)
    ensures forall f :: f in FilesOf(queue) <==> exists i :: 0 <= i < |queue| && queue[i].uri == Some(f)
    ensures forall i, j :: 0 <= i < j < |FilesOf(queue)| ==> FilesOf(queue)[i] != FilesOf(queue)[j]
  {
    if queue != [] {
      var init := queue[..|queue| - 1];
      FilesOfMeaning(init);
      forall f | exists i :: 0 <= i < |queue| && queue[i].uri == Some(f)
        ensures f in FilesOf(queue)
      {
        var i :| 0 <= i < |queue| && queue[i].uri == Some(f);
        if i < |queue| - 1 {
          assert init[i].uri == Some(f);
        }
      }
      forall f | f in FilesOf(init)
        ensures exists i :: 0 <= i < |queue| && queue[i].uri == Some(f)
      {
        var i :| 0 <= i < |init| && init[i].uri == Some(f);
        assert queue[i] == init[i];
      }
    }
  }

  /** An item is in a file's group exactly when it is queued with that
      file as its uri. */
  lemma {:induction false} ItemsOfMeaning(queue: seq<TestItem>, file: string)
    ensures forall x :: x in ItemsOf(queue, file) <==> x in queue && x.uri == Some(file)
  {
    if queue != [] {
      var init := queue[..|queue| - 1];
      ItemsOfMeaning(init, file);
      assert queue == init + [queue[|queue| - 1]];
    }
  }
}
