/** `isRelatedTestResult` (src/utils/isRelatedTestResult.ts:4-42): whether a
    result belongs somewhere under an editor test item. */
module Relatedness {

  import opened BunTypes

  /** The recursive search on a test result: its name is the item's label,
      or one of its children is related to the item, or the item has a child
      related to it. The source tries these in that order and stops at the
      first success, which does not change the answer. */
  predicate IsRelated(item: TestItem, r: TestResult)
    decreases item, r
  {
    r.name == item.itemLabel
    || (exists c :: c in r.children && IsRelated(item, c))
    || (exists c :: c in item.children && IsRelated(c, r))
  }

  /** The same search on a file result, whose `tests` are searched like
      children (:11-17); a file result has no `children` of its own. */
  predicate IsRelatedFile(item: TestItem, f: FileResult)
    decreases item
  {
    f.name == item.itemLabel
    || (exists t :: t in f.tests && IsRelated(item, t))
    || (exists c :: c in item.children && IsRelatedFile(c, f))
  }

  /** `x` is `item` or one of its descendants. */
  predicate ItemWithin(x: TestItem, item: TestItem)
    decreases item
  {
    x == item || exists c :: c in item.children && ItemWithin(x, c)
  }

  /** `y` is `r` or one of its descendants. */
  predicate ResultWithin(y: TestResult, r: TestResult)
    decreases r
  {
    y == r || exists c :: c in r.children && ResultWithin(y, c)
  }

  /** An item and a result are related exactly when some label in the
      item's subtree equals some name in the result's subtree. */
  lemma {:induction false} RelatedMeansSharedName(item: TestItem, r: TestResult)
    ensures IsRelated(item, r) <==>
      exists x, y :: ItemWithin(x, item) && ResultWithin(y, r) && x.itemLabel == y.name
    decreases item, r
  {
    if IsRelated(item, r) {
      if r.name == item.itemLabel {
        assert ItemWithin(item, item) && ResultWithin(r, r);
      } else if exists c :: c in r.children && IsRelated(item, c) {
        var c :| c in r.children && IsRelated(item, c);
        RelatedMeansSharedName(item, c);
        var x, y :| ItemWithin(x, item) && ResultWithin(y, c) && x.itemLabel == y.name;
        assert ResultWithin(y, r);
      } else {
        var c :| c in item.children && IsRelated(c, r);
        RelatedMeansSharedName(c, r);
        var x, y :| ItemWithin(x, c) && ResultWithin(y, r) && x.itemLabel == y.name;
        assert ItemWithin(x, item);
      }
    }
    if exists x, y :: ItemWithin(x, item) && ResultWithin(y, r) && x.itemLabel == y.name {
      var x, y :| ItemWithin(x, item) && ResultWithin(y, r) && x.itemLabel == y.name;
      if x != item {
        var c :| c in item.children && ItemWithin(x, c);
        RelatedMeansSharedName(c, r);
      } else if y != r {
        var c :| c in r.children && ResultWithin(y, c);
        RelatedMeansSharedName(item, c);
      }
    }
  }

  /** A file result is related to an item exactly when some label in the
      item's subtree is the file's name or a name in one of its tests'
      subtrees. */
  lemma {:induction false} RelatedFileMeansSharedName(item: TestItem, f: FileResult)
    ensures IsRelatedFile(item, f) <==>
      exists x :: ItemWithin(x, item) &&
        (x.itemLabel == f.name || exists t :: t in f.tests && IsRelated(x, t))
    decreases item
  {
    if IsRelatedFile(item, f) {
      if f.name == item.itemLabel || exists t :: t in f.tests && IsRelated(item, t) {
        assert ItemWithin(item, item);
      } else {
        var c :| c in item.children && IsRelatedFile(c, f);
        RelatedFileMeansSharedName(c, f);
        var x :| ItemWithin(x, c) && (x.itemLabel == f.name || exists t :: t in f.tests && IsRelated(x, t));
        assert ItemWithin(x, item);
      }
    }
    if exists x :: ItemWithin(x, item) && (x.itemLabel == f.name || exists t :: t in f.tests && IsRelated(x, t)) {
      var x :| ItemWithin(x, item) && (x.itemLabel == f.name || exists t :: t in f.tests && IsRelated(x, t));
      if x != item {
        var c :| c in item.children && ItemWithin(x, c);
        RelatedFileMeansSharedName(c, f);
      }
    }
  }

  /** Relatedness to a descendant carries up to the ancestor. */
  lemma {:induction false} RelatedToAncestor(x: TestItem, item: TestItem, r: TestResult)
    requires ItemWithin(x, item) && IsRelated(x, r)
    ensures IsRelated(item, r)
    decreases item
  {
    if x != item {
      var c :| c in item.children && ItemWithin(x, c);
      RelatedToAncestor(x, c, r);
    }
  }
}
