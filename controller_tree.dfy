/** The controller's helpers over result trees and editor test items
    (src/BunTestController.ts): `countTests`, `findMatchingTestItem`,
    `getTestNamePatterns` with the name-pattern argument built from it, the
    zero-based editor positions of the runner's one-based locations, and
    the ids and ranges `addTestChildren` gives the items it creates. */
module ControllerTree {

  import opened Wrappers
  import opened Text
  import opened BunTypes
  import opened ResultTree
  import opened Relatedness

  // ---------------------------------------------------------------------
  // countTests (:155-165)

  /** The tests a forest of results counts: a node with children counts the
      tests among its children, any other node is one test. */
  function LeafCount(ts: seq<TestResult>): nat
  {
    if ts == [] then 0
    else
      var t := ts[|ts| - 1];
      LeafCount(ts[..|ts| - 1]) + (if |t.children| > 0 then LeafCount(t.children) else 1)
  }

  /** `countTests`: the loop accumulates each node's share. */
  method CountTests(tests: seq<TestResult>) returns (count: nat)
    ensures count == LeafCount(tests)
    decreases tests
  {
    count := 0;
    for i := 0 to |tests|
      invariant count == LeafCount(tests[..i])
    {
      assert tests[..i + 1][..i] == tests[..i];
      var test := tests[i];
      if |test.children| > 0 {
        var n := CountTests(test.children);
        count := count + n;
      } else {
        count := count + 1;
      }
    }
    assert tests[..|tests|] == tests;
  }

  /** Counting splits over concatenation. */
  lemma {:induction false} LeafCountAppend(a: seq<TestResult>, b: seq<TestResult>)
    ensures LeafCount(a + b) == LeafCount(a) + LeafCount(b)
    decreases |b|
  {
    if b != [] {
      var n := |b|;
      assert (a + b)[..|a + b| - 1] == a + b[..n - 1];
      assert (a + b)[|a + b| - 1] == b[n - 1];
      LeafCountAppend(a, b[..n - 1]);
    } else {
      assert a + b == a;
    }
  }

  /** A non-empty forest counts at least one test and never more tests than
      it has nodes. */
  lemma {:induction false} LeafCountBounds(ts: seq<TestResult>)
    ensures ts != [] ==> 1 <= LeafCount(ts)
    ensures LeafCount(ts) <= NodeCount(ts)
    decreases ts
  {
    if ts != [] {
      var n := |ts|;
      var t := ts[n - 1];
      LeafCountBounds(ts[..n - 1]);
      LeafCountBounds(t.children);
      NodeCountLast(ts);
    }
  }

  /** `NodeCount` read from the back. */
  lemma {:induction false} NodeCountLast(ts: seq<TestResult>)
    requires ts != []
    ensures NodeCount(ts) == NodeCount(ts[..|ts| - 1]) + 1 + NodeCount(ts[|ts| - 1].children)
    decreases |ts|
  {
    if |ts| > 1 {
      var tail := ts[1..];
      NodeCountLast(tail);
      assert tail[..|tail| - 1] == ts[..|ts| - 1][1..];
    }
  }

  // ---------------------------------------------------------------------
  // findMatchingTestItem (:786-809)

  /** `x` is a proper descendant of `item`. */
  predicate StrictlyWithin(x: TestItem, item: TestItem)
  {
    exists c :: c in item.children && ItemWithin(x, c)
  }

  /** The last of the first `k` children of `parent` labelled `name`: the
      first `forEach` overwrites `foundItem` on every match. */
  function LastLabelled(parent: TestItem, name: string, k: nat): (r: Option<TestItem>)
    requires k <= |parent.children|
  {
    if k == 0 then None
    else if parent.children[k - 1].itemLabel == name then Some(parent.children[k - 1])
    else LastLabelled(parent, name, k - 1)
  }

  /** What the second `forEach` has found after the first `k` children: the
      first child with children of its own whose search succeeds. */
  function FirstFound(parent: TestItem, name: string, k: nat): Option<TestItem>
    requires k <= |parent.children|
    decreases parent, 0, k
  {
    if k == 0 then None
    else
      var prev := FirstFound(parent, name, k - 1);
      if prev.Some? then prev
      else
        var c := parent.children[k - 1];
        if |c.children| > 0 then FindMatch(c, name) else None
  }

  /** `findMatchingTestItem` on the result's name. */
  function FindMatch(parent: TestItem, name: string): Option<TestItem>
    decreases parent, 1
  {
    var direct := LastLabelled(parent, name, |parent.children|);
    if direct.Some? then direct else FirstFound(parent, name, |parent.children|)
  }

  /** The method as written: two loops over the children, the second one
      recursive. */
  method FindMatchingTestItem(parent: TestItem, name: string) returns (foundItem: Option<TestItem>)
    ensures foundItem == FindMatch(parent, name)
    decreases parent
  {
    foundItem := None;
    var children := parent.children;
    for i := 0 to |children|
      invariant foundItem == LastLabelled(parent, name, i)
    {
      if children[i].itemLabel == name {
        foundItem := Some(children[i]);
      }
    }
    if foundItem.None? {
      for i := 0 to |children|
        invariant foundItem == FirstFound(parent, name, i)
      {
        var child := children[i];
        if foundItem.None? && |child.children| > 0 {
          var found := FindMatchingTestItem(child, name);
          if found.Some? {
            foundItem := found;
          }
        }
      }
    }
  }

  /** A direct match is the last child with the name. */
  lemma {:induction false} DirectMatchIsLast(parent: TestItem, name: string, j: nat)
    requires j < |parent.children| && parent.children[j].itemLabel == name
    requires forall k :: j < k < |parent.children| ==> parent.children[k].itemLabel != name
    ensures FindMatch(parent, name) == Some(parent.children[j])
  {
    LastLabelledAt(parent, name, j, |parent.children|);
  }

  lemma {:induction false} LastLabelledAt(parent: TestItem, name: string, j: nat, k: nat)
    requires j < k <= |parent.children| && parent.children[j].itemLabel == name
    requires forall i :: j < i < k ==> parent.children[i].itemLabel != name
    ensures LastLabelled(parent, name, k) == Some(parent.children[j])
    decreases k
  {
    if k - 1 != j {
      LastLabelledAt(parent, name, j, k - 1);
    }
  }

  /** Without a direct match, the result is that of the first child with
      children whose own search succeeds. */
  lemma {:induction false} DeepMatchIsFirst(parent: TestItem, name: string, j: nat)
    requires forall k :: 0 <= k < |parent.children| ==> parent.children[k].itemLabel != name
    requires j < |parent.children| && |parent.children[j].children| > 0
    requires FindMatch(parent.children[j], name).Some?
    requires forall k :: 0 <= k < j ==>
      |parent.children[k].children| == 0 || FindMatch(parent.children[k], name).None?
    ensures FindMatch(parent, name) == FindMatch(parent.children[j], name)
  {
    NoLastLabelled(parent, name, |parent.children|);
    FirstFoundAt(parent, name, j, |parent.children|);
  }

  lemma {:induction false} NoLastLabelled(parent: TestItem, name: string, k: nat)
    requires k <= |parent.children|
    requires forall i :: 0 <= i < k ==> parent.children[i].itemLabel != name
    ensures LastLabelled(parent, name, k).None?
    decreases k
  {
    if k > 0 {
      NoLastLabelled(parent, name, k - 1);
    }
  }

  lemma {:induction false} FirstFoundAt(parent: TestItem, name: string, j: nat, k: nat)
    requires j < k <= |parent.children| && |parent.children[j].children| > 0
    requires FindMatch(parent.children[j], name).Some?
    requires forall i :: 0 <= i < j ==>
      |parent.children[i].children| == 0 || FindMatch(parent.children[i], name).None?
    ensures FirstFound(parent, name, k) == FindMatch(parent.children[j], name)
    decreases k
  {
    if k - 1 == j {
      NoFirstFound(parent, name, j);
    } else {
      FirstFoundAt(parent, name, j, k - 1);
    }
  }

  lemma {:induction false} NoFirstFound(parent: TestItem, name: string, k: nat)
    requires k <= |parent.children|
    requires forall i :: 0 <= i < k ==>
      |parent.children[i].children| == 0 || FindMatch(parent.children[i], name).None?
    ensures FirstFound(parent, name, k).None?
    decreases k
  {
    if k > 0 {
      NoFirstFound(parent, name, k - 1);
    }
  }

  /** The search finds something exactly when some proper descendant has
      the name, and what it finds is such a descendant. */
  lemma {:induction false} FindMatchMeaning(parent: TestItem, name: string)
    ensures var r := FindMatch(parent, name);
      r.Some? ==> r.value.itemLabel == name && StrictlyWithin(r.value, parent)
    ensures FindMatch(parent, name).Some? <==>
      exists x :: StrictlyWithin(x, parent) && x.itemLabel == name
    decreases parent, 1
  {
    var n := |parent.children|;
    LastLabelledMeaning(parent, name, n);
    FirstFoundMeaning(parent, name, n);
    if exists x :: StrictlyWithin(x, parent) && x.itemLabel == name {
      var x :| StrictlyWithin(x, parent) && x.itemLabel == name;
      var c :| c in parent.children && ItemWithin(x, c);
      var i :| 0 <= i < n && parent.children[i] == c;
      if x != c {
        var d :| d in c.children && ItemWithin(x, d);
        assert StrictlyWithin(x, c);
      }
    }
  }

  lemma {:induction false} LastLabelledMeaning(parent: TestItem, name: string, k: nat)
    requires k <= |parent.children|
    ensures var r := LastLabelled(parent, name, k);
      r.Some? ==> r.value.itemLabel == name && r.value in parent.children
    ensures LastLabelled(parent, name, k).None? ==>
      forall i :: 0 <= i < k ==> parent.children[i].itemLabel != name
    decreases k
  {
    if k > 0 {
      LastLabelledMeaning(parent, name, k - 1);
    }
  }

  lemma {:induction false} FirstFoundMeaning(parent: TestItem, name: string, k: nat)
    requires k <= |parent.children|
    ensures var r := FirstFound(parent, name, k);
      r.Some? ==> r.value.itemLabel == name && StrictlyWithin(r.value, parent)
    ensures FirstFound(parent, name, k).None? ==>
      forall i :: 0 <= i < k ==> !(exists x :: StrictlyWithin(x, parent.children[i]) && x.itemLabel == name)
    decreases parent, 0, k
  {
    if k > 0 {
      FirstFoundMeaning(parent, name, k - 1);
      var c := parent.children[k - 1];
      if FirstFound(parent, name, k - 1).None? {
        if |c.children| > 0 {
          FindMatchMeaning(c, name);
          var r := FindMatch(c, name);
          if r.Some? {
            var d :| d in c.children && ItemWithin(r.value, d);
            assert ItemWithin(r.value, c);
          }
        }
      }
    }
  }

  /** How many levels a subtree has. */
  function Depth(item: TestItem): (d: nat)
    ensures forall c :: c in item.children ==> Depth(c) < d
    decreases item, 1
  {
    1 + DepthBelow(item, |item.children|)
  }

  function DepthBelow(item: TestItem, k: nat): (d: nat)
    requires k <= |item.children|
    ensures forall i :: 0 <= i < k ==> Depth(item.children[i]) <= d
    decreases item, 0, k
  {
    if k == 0 then 0
    else
      var a := DepthBelow(item, k - 1);
      var b := Depth(item.children[k - 1]);
      if a < b then b else a
  }

  lemma {:induction false} WithinDepth(x: TestItem, item: TestItem)
    requires ItemWithin(x, item)
    ensures Depth(x) <= Depth(item)
    decreases item
  {
    if x != item {
      var c :| c in item.children && ItemWithin(x, c);
      WithinDepth(x, c);
    }
  }

  /** What the search finds is never the item it started from. */
  lemma NeverTheParent(parent: TestItem, name: string)
    ensures FindMatch(parent, name) != Some(parent)
  {
    FindMatchMeaning(parent, name);
    if FindMatch(parent, name) == Some(parent) {
      var c :| c in parent.children && ItemWithin(parent, c);
      WithinDepth(parent, c);
      assert false;
    }
  }

  // ---------------------------------------------------------------------
  // getTestNamePatterns (:439-462)

  /** `extractTestName`: the label of an item whose id names a test. */
  function ExtractTestName(t: TestItem): (r: Option<string>)
    ensures r.Some? <==> '#' in t.id
    ensures r.Some? ==> r.value == t.itemLabel
  {
    if '#' !in t.id then None else Some(t.itemLabel)
  }

  /** What one item contributes: its extracted name, when there is one
      and it is not empty. */
  function OwnPattern(t: TestItem): seq<string>
  {
    var name := ExtractTestName(t);
    if name.Some? && name.value != "" then [name.value] else []
  }

  /** The patterns of an item's subtree in preorder: its own, then its
      children's. */
  function ItemPatterns(t: TestItem): seq<string>
    decreases t
  {
    OwnPattern(t) + ForestPatterns(t.children, |t.children|)
  }

  /** The patterns of the subtrees of the first `k` items of a forest. */
  function ForestPatterns(items: seq<TestItem>, k: nat): seq<string>
    requires k <= |items|
    decreases items, k
  {
    if k == 0 then [] else ForestPatterns(items, k - 1) + ItemPatterns(items[k - 1])
  }

  function NamePatterns(items: seq<TestItem>): seq<string>
  {
    ForestPatterns(items, |items|)
  }

  /** `getTestNamePatterns`: `collectPatterns` applied to each item. */
  method GetTestNamePatterns(tests: seq<TestItem>) returns (patterns: seq<string>)
    ensures patterns == NamePatterns(tests)
  {
    patterns := [];
    for i := 0 to |tests|
      invariant patterns == ForestPatterns(tests, i)
    {
      patterns := CollectPatterns(tests[i], patterns);
    }
  }

  /** `collectPatterns`: push the item's own name, then visit every
      child. */
  method CollectPatterns(test: TestItem, patterns: seq<string>) returns (r: seq<string>)
    ensures r == patterns + ItemPatterns(test)
    decreases test
  {
    r := patterns;
    var testName := ExtractTestName(test);
    if testName.Some? && testName.value != "" {
      r := r + [testName.value];
    }
    var children := test.children;
    for i := 0 to |children|
      invariant r == patterns + OwnPattern(test) + ForestPatterns(children, i)
    {
      r := CollectPatterns(children[i], r);
    }
  }

  /** `x` is one of the first `k` items of a forest or a descendant of
      one. */
  predicate InPrefix(x: TestItem, items: seq<TestItem>, k: nat)
    requires k <= |items|
  {
    exists i :: 0 <= i < k && ItemWithin(x, items[i])
  }

  predicate InForest(x: TestItem, items: seq<TestItem>)
  {
    InPrefix(x, items, |items|)
  }

  /** `x` asks for pattern `p`: its id names a test and `p` is its
      non-empty label. */
  predicate NamesTest(x: TestItem, p: string)
  {
    '#' in x.id && x.itemLabel == p && p != ""
  }

  /** A name is among an item's patterns exactly when the item or one of
      its descendants asks for it. */
  lemma {:induction false} ItemPatternsMeaning(t: TestItem, p: string)
    ensures p in ItemPatterns(t) <==> exists x :: ItemWithin(x, t) && NamesTest(x, p)
    decreases t
  {
    var cs := t.children;
    ForestPatternsMeaning(cs, |cs|, p);
    if p in OwnPattern(t) {
      assert ItemWithin(t, t) && NamesTest(t, p);
    }
    if exists x :: ItemWithin(x, t) && NamesTest(x, p) {
      var x :| ItemWithin(x, t) && NamesTest(x, p);
      if x != t {
        var c :| c in cs && ItemWithin(x, c);
        var i :| 0 <= i < |cs| && cs[i] == c;
        assert InPrefix(x, cs, |cs|);
      }
    }
    if p in ForestPatterns(cs, |cs|) {
      var x :| InPrefix(x, cs, |cs|) && NamesTest(x, p);
      var i :| 0 <= i < |cs| && ItemWithin(x, cs[i]);
      assert ItemWithin(x, t);
    }
  }

  /** A name is among the patterns of a forest exactly when some item in
      it asks for it. */
  lemma {:induction false} ForestPatternsMeaning(items: seq<TestItem>, k: nat, p: string)
    requires k <= |items|
    ensures p in ForestPatterns(items, k) <==> exists x :: InPrefix(x, items, k) && NamesTest(x, p)
    decreases items, k
  {
    if k > 0 {
      var c := items[k - 1];
      ForestPatternsMeaning(items, k - 1, p);
      ItemPatternsMeaning(c, p);
      if p in ForestPatterns(items, k) {
        if p in ForestPatterns(items, k - 1) {
          var x :| InPrefix(x, items, k - 1) && NamesTest(x, p);
          assert InPrefix(x, items, k);
        } else {
          var x :| ItemWithin(x, c) && NamesTest(x, p);
          assert InPrefix(x, items, k);
        }
      }
      if exists x :: InPrefix(x, items, k) && NamesTest(x, p) {
        var x :| InPrefix(x, items, k) && NamesTest(x, p);
        var i :| 0 <= i < k && ItemWithin(x, items[i]);
        if i < k - 1 {
          assert InPrefix(x, items, k - 1);
        }
      }
    }
  }

  /** The collected patterns are exactly the non-empty labels of the items
      in the forest whose ids name a test. */
  lemma NamePatternsMeaning(items: seq<TestItem>, p: string)
    ensures p in NamePatterns(items) <==> exists x :: InForest(x, items) && NamesTest(x, p)
  {
    ForestPatternsMeaning(items, |items|, p);
  }

  // ---------------------------------------------------------------------
  // The name-pattern argument (:339-346)

  /** `pattern.split(' > ').pop() || pattern`: the last segment, or the
      whole pattern when that segment is empty. */
  function TestNameOf(pattern: string): string
  {
    var last := LastPathSegment(pattern);
    if last != "" then last else pattern
  }

  /** Each name becomes an alternative `(<name>)`, joined with `|`. */
  function NameRegex(names: seq<string>): string
  {
    Join(Alternatives(names), "|")
  }

  function Alternatives(names: seq<string>): seq<string>
  {
    seq(|names|, i requires 0 <= i < |names| => "(" + names[i] + ")")
  }

  /** The arguments added for the collected patterns: none when there are
      none. */
  function PatternArgs(patterns: seq<string>): (args: seq<string>)
    ensures args == [] <==> patterns == []
  {
    if patterns == [] then []
    else ["--test-name-pattern", NameRegex(seq(|patterns|, i requires 0 <= i < |patterns| => TestNameOf(patterns[i])))]
  }

  /** The name taken from a pattern is a suffix of it, and when it is not
      the whole pattern it holds no separator. */
  lemma TestNameOfShape(pattern: string)
    ensures EndsWith(pattern, TestNameOf(pattern))
    ensures TestNameOf(pattern) != pattern ==>
      TestNameOf(pattern) != "" && !Contains(TestNameOf(pattern), PathSeparator)
  {
    LastPathSegmentIsSuffix(pattern);
  }

  /** A pattern without a separator is used whole. */
  lemma TestNameOfPlain(pattern: string)
    requires !Contains(pattern, PathSeparator)
    ensures TestNameOf(pattern) == pattern
  {
  }

  /** The regular expression has exactly one alternative per name, in
      order, when no name holds `|`. */
  lemma RegexAlternatives(names: seq<string>)
    requires names != []
    requires forall i :: 0 <= i < |names| ==> '|' !in names[i]
    ensures Split(NameRegex(names), "|") == Alternatives(names)
  {
    var alts := Alternatives(names);
    forall p | p in alts ensures '|' !in p {
      var i :| 0 <= i < |alts| && alts[i] == p;
      assert p == "(" + names[i] + ")";
    }
    SplitJoin(alts, '|');
  }

  // ---------------------------------------------------------------------
  // Ids of the items addTestChildren creates (:215-216, :250)

  /** A child's path: the parent's path and the name joined by `" > "`,
      or the name alone under an empty path. */
  function ItemPath(parentPath: string, name: string): string
  {
    if parentPath != "" then parentPath + PathSeparator + name else name
  }

  function TestId(fileName: string, path: string): string
  {
    fileName + "#" + path
  }

  /** The path built down a chain of names, from the outermost. */
  function PathOf(names: seq<string>): string
  {
    if names == [] then "" else ItemPath(PathOf(names[..|names| - 1]), names[|names| - 1])
  }

  /** When the outermost name is not empty, the path is every name joined
      with the separator. */
  lemma {:induction false} PathOfJoin(names: seq<string>)
    requires names != [] && names[0] != ""
    ensures PathOf(names) == Join(names, PathSeparator)
    decreases |names|
  {
    if |names| > 1 {
      var init := names[..|names| - 1];
      PathOfJoin(init);
      JoinLast(init, names[|names| - 1], PathSeparator);
      assert init + [names[|names| - 1]] == names;
      JoinNonEmpty(init, PathSeparator);
    }
  }

  lemma {:induction false} JoinLast(parts: seq<string>, last: string, sep: string)
    requires parts != []
    ensures Join(parts + [last], sep) == Join(parts, sep) + sep + last
    decreases |parts|
  {
    if |parts| > 1 {
      JoinLast(parts[1..], last, sep);
      assert (parts + [last])[1..] == parts[1..] + [last];
    }
  }

  lemma {:induction false} JoinNonEmpty(parts: seq<string>, sep: string)
    requires parts != [] && parts[0] != ""
    ensures Join(parts, sep) != ""
  {
    if |parts| > 1 {
      assert |Join(parts, sep)| >= |parts[0]|;
    }
  }

  /** With a file name free of `#`, an id splits back into the file name
      and the path, so distinct pairs get distinct ids. */
  lemma TestIdInjective(f1: string, p1: string, f2: string, p2: string)
    requires '#' !in f1 && '#' !in f2
    requires TestId(f1, p1) == TestId(f2, p2)
    ensures f1 == f2 && p1 == p2
  {
    FirstSep(f1, p1, '#');
    FirstSep(f2, p2, '#');
    var id := TestId(f1, p1);
    assert f1 == id[..|f1|] && f2 == id[..|f2|];
    assert p1 == id[|f1| + 1..] && p2 == id[|f2| + 1..];
  }

  // ---------------------------------------------------------------------
  // Positions (:219-227, :241-246, :513-514, :542-543)

  /** `Math.max(0, x)`. */
  function Max0(x: int): int
  {
    if x > 0 then x else 0
  }

  /** Where a result is shown: the line before a positive one-based line,
      else the first line; the column as given, but never below zero; the
      file's start when the result has no location. */
  function ResultPosition(loc: Option<Location>): (p: Position)
    ensures p.line >= 0 && p.character >= 0
  {
    match loc
    case None => Position(0, 0)
    case Some(l) => Position(if l.line > 0 then l.line - 1 else 0, Max0(l.column))
  }

  /** The range `addTestChildren` gives a new item: only when the result's
      line is positive, from its position across the length of the name. */
  function ItemRange(loc: Option<Location>, name: string): (r: Option<Range>)
    ensures r.Some? <==> loc.Some? && loc.value.line > 0
    ensures r.Some? ==> r.value.start.line >= 0 && r.value.start.character >= 0
  {
    if loc.Some? && loc.value.line > 0 then
      var start := Position(Max0(loc.value.line - 1), Max0(loc.value.column));
      Some(Range(start, Position(start.line, start.character + |name|)))
    else None
  }

  /** The one-based line and column a position stands for. */
  function OneBased(p: Position): (int, int)
  {
    (p.line + 1, p.character)
  }

  /** A location the runner reports with a positive line and a
      non-negative column converts without loss. */
  lemma PositionRoundTrip(l: Location)
    requires l.line > 0 && l.column >= 0
    ensures OneBased(ResultPosition(Some(l))) == (l.line, l.column)
  {
  }

  /** Out-of-range values are clamped to the first line or column. */
  lemma PositionClamped(l: Location)
    ensures l.line <= 0 ==> ResultPosition(Some(l)).line == 0
    ensures l.column <= 0 ==> ResultPosition(Some(l)).character == 0
  {
  }

  /** Each coordinate in range is kept on its own: a positive line becomes
      the line before it whatever the column, and a non-negative column is
      kept whatever the line. */
  lemma PositionKept(l: Location)
    ensures l.line > 0 ==> ResultPosition(Some(l)).line == l.line - 1
    ensures l.column >= 0 ==> ResultPosition(Some(l)).character == l.column
  {
  }

  /** An item's range starts where its result is shown and spans the name
      on that line. */
  lemma RangeStartsAtPosition(loc: Option<Location>, name: string)
    requires ItemRange(loc, name).Some?
    ensures var r := ItemRange(loc, name).value;
      r.start == ResultPosition(loc) && r.end.line == r.start.line
      && r.end.character - r.start.character == |name|
  {
  }

  /** `addTestChildren` as a value: the item made for one result, with
      the path-qualified id, the result's name as label, the parent's uri
      and the range of its location; a result with children gets its
      children built under its own path. */
  function BuildItem(t: TestResult, fileName: string, uri: Option<string>, parentPath: string): TestItem
    decreases t
  {
    var path := ItemPath(parentPath, t.name);
    TestItem(TestId(fileName, path), t.name, uri, ItemRange(t.location, t.name),
             if |t.children| > 0 then BuildItems(t.children, fileName, uri, path) else [])
  }

  /** A built item is placed exactly when its result has a positive line,
      and then on the line and column the result is shown at, spanning its
      label. */
  lemma BuiltItemRange(t: TestResult, fileName: string, uri: Option<string>, parentPath: string)
    ensures var item := BuildItem(t, fileName, uri, parentPath);
      (item.range.Some? <==> t.location.Some? && t.location.value.line > 0)
      && (item.range.Some? ==>
            item.range.value.start == ResultPosition(t.location)
            && item.range.value.end == Position(item.range.value.start.line,
                                                item.range.value.start.character + |item.itemLabel|))
  {
  }

  /** One item per result, in order. */
  function BuildItems(tests: seq<TestResult>, fileName: string, uri: Option<string>, parentPath: string): (items: seq<TestItem>)
    ensures |items| == |tests|
    decreases tests
  {
    seq(|tests|, i requires 0 <= i < |tests| => BuildItem(tests[i], fileName, uri, parentPath))
  }

  /** Siblings with different names get different ids when the file name
      holds no `#`. */
  lemma SiblingIdsDiffer(tests: seq<TestResult>, fileName: string, uri: Option<string>, parentPath: string, i: nat, j: nat)
    requires '#' !in fileName
    requires i < |tests| && j < |tests| && tests[i].name != tests[j].name
    ensures BuildItems(tests, fileName, uri, parentPath)[i].id != BuildItems(tests, fileName, uri, parentPath)[j].id
  {
    var items := BuildItems(tests, fileName, uri, parentPath);
    var p1 := ItemPath(parentPath, tests[i].name);
    var p2 := ItemPath(parentPath, tests[j].name);
    assert items[i] == BuildItem(tests[i], fileName, uri, parentPath);
    assert items[j] == BuildItem(tests[j], fileName, uri, parentPath);
    if items[i].id == items[j].id {
      TestIdInjective(fileName, p1, fileName, p2);
      ItemPathInjective(parentPath, tests[i].name, tests[j].name);
    }
  }

  /** Under one parent path, different names give different paths. */
  lemma ItemPathInjective(parentPath: string, n1: string, n2: string)
    requires ItemPath(parentPath, n1) == ItemPath(parentPath, n2)
    ensures n1 == n2
  {
    if parentPath != "" {
      var k := |parentPath + PathSeparator|;
      assert n1 == ItemPath(parentPath, n1)[k..];
      assert n2 == ItemPath(parentPath, n2)[k..];
    }
  }

  /** The non-empty names of a result's subtree in preorder. */
  function ItemNames(t: TestResult): seq<string>
    decreases t
  {
    (if t.name != "" then [t.name] else []) + ForestNames(t.children, |t.children|)
  }

  /** The non-empty names of the subtrees of the first `k` results. */
  function ForestNames(ts: seq<TestResult>, k: nat): seq<string>
    requires k <= |ts|
    decreases ts, k
  {
    if k == 0 then [] else ForestNames(ts, k - 1) + ItemNames(ts[k - 1])
  }

  /** Running the items built from a file's results asks for every
      non-empty test name of the file, in preorder: every built id names a
      test. */
  lemma PatternsOfBuiltItems(tests: seq<TestResult>, fileName: string, uri: Option<string>, parentPath: string)
    ensures NamePatterns(BuildItems(tests, fileName, uri, parentPath)) == ForestNames(tests, |tests|)
  {
    BuiltForestPatterns(tests, fileName, uri, parentPath, |tests|);
  }

  lemma {:induction false} BuiltItemPatterns(t: TestResult, fileName: string, uri: Option<string>, parentPath: string)
    ensures ItemPatterns(BuildItem(t, fileName, uri, parentPath)) == ItemNames(t)
    decreases t
  {
    var item := BuildItem(t, fileName, uri, parentPath);
    assert item.id[|fileName|] == '#';
    if |t.children| > 0 {
      BuiltForestPatterns(t.children, fileName, uri, ItemPath(parentPath, t.name), |t.children|);
    }
  }

  lemma {:induction false} BuiltForestPatterns(ts: seq<TestResult>, fileName: string, uri: Option<string>, parentPath: string, k: nat)
    requires k <= |ts|
    ensures ForestPatterns(BuildItems(ts, fileName, uri, parentPath), k) == ForestNames(ts, k)
    decreases ts, k
  {
    if k > 0 {
      BuiltForestPatterns(ts, fileName, uri, parentPath, k - 1);
      BuiltItemPatterns(ts[k - 1], fileName, uri, parentPath);
      var items := BuildItems(ts, fileName, uri, parentPath);
      var item := BuildItem(ts[k - 1], fileName, uri, parentPath);
      assert ForestPatterns(items, k) == ForestPatterns(items, k - 1) + ItemPatterns(item) by {
        assert items[k - 1] == item;
      }
      assert ForestNames(ts, k) == ForestNames(ts, k - 1) + ItemNames(ts[k - 1]);
    }
  }

  /** The built items count as many tests as the results do. */
  lemma {:induction false} BuiltItemsCount(tests: seq<TestResult>, fileName: string, uri: Option<string>, parentPath: string)
    ensures ItemLeafCount(BuildItems(tests, fileName, uri, parentPath)) == LeafCount(tests)
    decreases tests, 1
  {
    if tests != [] {
      var n := |tests|;
      var t := tests[n - 1];
      var items := BuildItems(tests, fileName, uri, parentPath);
      BuiltItemsLast(tests, fileName, uri, parentPath);
      BuiltItemsCount(tests[..n - 1], fileName, uri, parentPath);
      BuiltItemShare(t, fileName, uri, parentPath);
    }
  }

  /** The items built from all but the last result, and the last item. */
  lemma BuiltItemsLast(tests: seq<TestResult>, fileName: string, uri: Option<string>, parentPath: string)
    requires tests != []
    ensures var items := BuildItems(tests, fileName, uri, parentPath);
      items[..|items| - 1] == BuildItems(tests[..|tests| - 1], fileName, uri, parentPath)
      && items[|items| - 1] == BuildItem(tests[|tests| - 1], fileName, uri, parentPath)
  {
    var items := BuildItems(tests, fileName, uri, parentPath);
    var front := BuildItems(tests[..|tests| - 1], fileName, uri, parentPath);
    forall i | 0 <= i < |front|
      ensures items[i] == front[i]
    {
      assert tests[..|tests| - 1][i] == tests[i];
    }
    assert items[..|items| - 1] == front;
  }

  /** A built item counts as many tests as its result does. */
  lemma {:induction false} BuiltItemShare(t: TestResult, fileName: string, uri: Option<string>, parentPath: string)
    ensures var item := BuildItem(t, fileName, uri, parentPath);
      (if |item.children| > 0 then ItemLeafCount(item.children) else 1)
        == (if |t.children| > 0 then LeafCount(t.children) else 1)
    decreases t, 0
  {
    if |t.children| > 0 {
      BuiltItemsCount(t.children, fileName, uri, ItemPath(parentPath, t.name));
    }
  }

  /** `LeafCount` on editor items. */
  function ItemLeafCount(items: seq<TestItem>): nat
  {
    if items == [] then 0
    else
      var t := items[|items| - 1];
      ItemLeafCount(items[..|items| - 1]) + (if |t.children| > 0 then ItemLeafCount(t.children) else 1)
  }
}
