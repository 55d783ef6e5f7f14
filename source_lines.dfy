/** The scan of a test file's source for `describe(...)`, `test(...)` and
    `it(...)` declarations (`extractSourceFileLineNumbers`,
    src/utils/parseBunTestOutput.ts:263-299), which gives each declared
    name the 1-indexed line of its last declaration. */
module SourceLines {

  import opened Wrappers
  import opened Text

  /** `\w`: the characters on one side of a `\b` word boundary. */
  predicate IsWordChar(c: char)
  {
    ('a' <= c <= 'z') || ('A' <= c <= 'Z') || IsDigit(c) || c == '_'
  }

  predicate IsQuote(c: char)
  {
    c == '"' || c == '\'' || c == '`'
  }

  /** `\b` in front of a keyword that starts with a word character. */
  predicate WordStart(s: string, k: nat)
    requires k <= |s|
  {
    k == 0 || !IsWordChar(s[k - 1])
  }

  /** Length of the run of non-quote characters that starts `s`. */
  function NonQuoteRun(s: string): (n: nat)
    ensures n <= |s|
    ensures n == |s| || IsQuote(s[n])
  {
    if s != [] && !IsQuote(s[0]) then 1 + NonQuoteRun(s[1..]) else 0
  }

  lemma {:induction false} NonQuoteRunFree(s: string)
    ensures forall i :: 0 <= i < NonQuoteRun(s) ==> !IsQuote(s[i])
  {
    if s != [] && !IsQuote(s[0]) {
      NonQuoteRunFree(s[1..]);
    }
  }

  /** `\s*\(\s*["'`]([^"'`]+)["'`]` at the start of `s`: the quoted name.
      Every repetition in it is forced, so it has at most one match. */
  function QuotedArgument(s: string): Option<string>
  {
    var a := SpaceRun(s);
    if a == |s| || s[a] != '(' then None
    else
      var t := s[a + 1..];
      var b := SpaceRun(t);
      if b == |t| || !IsQuote(t[b]) then None
      else
        var u := t[b + 1..];
        var n := NonQuoteRun(u);
        if n == 0 || n == |u| then None else Some(u[..n])
  }

  /** A captured name is non-empty and holds no quote. */
  lemma QuotedArgumentShape(s: string)
    ensures var r := QuotedArgument(s);
      r.Some? ==> r.value != [] && forall i :: 0 <= i < |r.value| ==> !IsQuote(r.value[i])
  {
    var a := SpaceRun(s);
    if a < |s| && s[a] == '(' {
      var t := s[a + 1..];
      var b := SpaceRun(t);
      if b < |t| && IsQuote(t[b]) {
        NonQuoteRunFree(t[b + 1..]);
      }
    }
  }

  /** The describe expression matched at position `k`. */
  function DescribeAt(s: string, k: nat): Option<string>
    requires k <= |s|
  {
    if WordStart(s, k) && OccursAt(s, "describe", k) then QuotedArgument(s[k + 8..]) else None
  }

  /** The test expression matched at position `k`: `test` or `it`, then an
      optional `.skip`, `.failing` or `.only`. A modifier that is present
      must be consumed, since the call's `(` cannot follow a `.`. */
  function TestAt(s: string, k: nat): Option<string>
    requires k <= |s|
  {
    if !WordStart(s, k) then None
    else
      var rest := if OccursAt(s, "test", k) then Some(s[k + 4..])
                  else if OccursAt(s, "it", k) then Some(s[k + 2..])
                  else None;
      match rest
      case None => None
      case Some(r) =>
        if StartsWith(r, ".skip") then QuotedArgument(r[5..])
        else if StartsWith(r, ".failing") then QuotedArgument(r[8..])
        else if StartsWith(r, ".only") then QuotedArgument(r[5..])
        else QuotedArgument(r)
  }

  /** The leftmost match at or after `k` of the expression `at` stands for. */
  function LeftmostDescribe(s: string, k: nat): (r: Option<string>)
    requires k <= |s|
    ensures r.Some? ==> exists j: nat :: k <= j <= |s| && DescribeAt(s, j) == r
    ensures r.None? ==> forall j: nat :: k <= j <= |s| ==> DescribeAt(s, j).None?
    decreases |s| - k
  {
    if DescribeAt(s, k).Some? then DescribeAt(s, k)
    else if k == |s| then None
    else LeftmostDescribe(s, k + 1)
  }

  /** The match `LeftmostDescribe` finds is the leftmost one: at every earlier
      position the expression does not match. */
  lemma {:induction false} LeftmostDescribeAt(s: string, k: nat) returns (j: nat)
    requires k <= |s| && LeftmostDescribe(s, k).Some?
    ensures k <= j <= |s| && DescribeAt(s, j) == LeftmostDescribe(s, k)
    ensures forall i :: k <= i < j ==> DescribeAt(s, i).None?
    decreases |s| - k
  {
    if DescribeAt(s, k).Some? {
      j := k;
    } else {
      LeftmostDescribeSkips(s, k);
      j := LeftmostDescribeAt(s, k + 1);
      DescribeAtNoneFrom(s, k, j);
    }
  }

  lemma LeftmostDescribeSkips(s: string, k: nat)
    requires k <= |s| && LeftmostDescribe(s, k).Some? && DescribeAt(s, k).None?
    ensures k < |s| && LeftmostDescribe(s, k + 1) == LeftmostDescribe(s, k)
  {
  }

  lemma DescribeAtNoneFrom(s: string, k: nat, j: nat)
    requires k <= j <= |s| && DescribeAt(s, k).None? && forall i :: k + 1 <= i < j ==> DescribeAt(s, i).None?
    ensures forall i :: k <= i < j ==> DescribeAt(s, i).None?
  {
  }

  function LeftmostTest(s: string, k: nat): (r: Option<string>)
    requires k <= |s|
    ensures r.Some? ==> exists j: nat :: k <= j <= |s| && TestAt(s, j) == r
    ensures r.None? ==> forall j: nat :: k <= j <= |s| ==> TestAt(s, j).None?
    decreases |s| - k
  {
    if TestAt(s, k).Some? then TestAt(s, k)
    else if k == |s| then None
    else LeftmostTest(s, k + 1)
  }

  /** The match `LeftmostTest` finds is the leftmost one: at every earlier
      position the expression does not match. */
  lemma {:induction false} LeftmostTestAt(s: string, k: nat) returns (j: nat)
    requires k <= |s| && LeftmostTest(s, k).Some?
    ensures k <= j <= |s| && TestAt(s, j) == LeftmostTest(s, k)
    ensures forall i :: k <= i < j ==> TestAt(s, i).None?
    decreases |s| - k
  {
    if TestAt(s, k).Some? {
      j := k;
    } else {
      LeftmostTestSkips(s, k);
      j := LeftmostTestAt(s, k + 1);
      TestAtNoneFrom(s, k, j);
    }
  }

  lemma LeftmostTestSkips(s: string, k: nat)
    requires k <= |s| && LeftmostTest(s, k).Some? && TestAt(s, k).None?
    ensures k < |s| && LeftmostTest(s, k + 1) == LeftmostTest(s, k)
  {
  }

  lemma TestAtNoneFrom(s: string, k: nat, j: nat)
    requires k <= j <= |s| && TestAt(s, k).None? && forall i :: k + 1 <= i < j ==> TestAt(s, i).None?
    ensures forall i :: k <= i < j ==> TestAt(s, i).None?
  {
  }

  /** The name a source line declares: a describe block first (:282-286),
      otherwise a test (:289-292). */
  function DeclaredName(line: string): Option<string>
  {
    var d := LeftmostDescribe(line, 0);
    if d.Some? then d else LeftmostTest(line, 0)
  }

  /** What each line of a file declares, in order: `Declarations(lines)[i]`
      is `DeclaredName(lines[i])`. */
  function Declarations(lines: seq<string>): seq<Option<string>>
  {
    seq(|lines|, i requires 0 <= i < |lines| => DeclaredName(lines[i]))
  }

  /** Each name declared in `ds` mapped to the 1-indexed position of its
      last declaration. */
  function LastDeclarations(ds: seq<Option<string>>): map<string, int>
  {
    if ds == [] then map[]
    else
      var m := LastDeclarations(ds[..|ds| - 1]);
      match ds[|ds| - 1]
      case Some(name) => m[name := |ds|]
      case None => m
  }

  /** The line map of a file given as its lines: each declared name mapped
      to the 1-indexed number of the line that declares it, a later
      declaration replacing an earlier one. */
  function LineMapOf(lines: seq<string>): map<string, int>
  {
    LastDeclarations(Declarations(lines))
  }

  /** A name is in the line map exactly when some line declares it, and its
      value is the number of the last line that does. */
  lemma LineMapOfMeaning(lines: seq<string>)
    ensures var ds := Declarations(lines);
      forall name :: name in LineMapOf(lines) <==> exists i :: 0 <= i < |lines| && ds[i] == Some(name)
    ensures var ds := Declarations(lines);
      forall name :: name in LineMapOf(lines) ==>
        var v := LineMapOf(lines)[name];
        1 <= v <= |lines| && ds[v - 1] == Some(name) && forall i :: v <= i < |lines| ==> ds[i] != Some(name)
  {
    var ds := Declarations(lines);
    forall name | true
      ensures name in LastDeclarations(ds) <==> exists i :: 0 <= i < |ds| && ds[i] == Some(name)
      ensures name in LastDeclarations(ds) ==>
        var v := LastDeclarations(ds)[name];
        1 <= v <= |ds| && ds[v - 1] == Some(name) && forall i :: v <= i < |ds| ==> ds[i] != Some(name)
    {
      LastDeclaration(ds, name);
    }
  }

  lemma {:induction false} LastDeclaration(ds: seq<Option<string>>, name: string)
    ensures name in LastDeclarations(ds) <==> exists i :: 0 <= i < |ds| && ds[i] == Some(name)
    ensures name in LastDeclarations(ds) ==>
      var v := LastDeclarations(ds)[name];
      1 <= v <= |ds| && ds[v - 1] == Some(name) && forall i :: v <= i < |ds| ==> ds[i] != Some(name)
  {
    if ds != [] {
      var n := |ds|;
      var init := ds[..n - 1];
      LastDeclaration(init, name);
      assert forall i :: 0 <= i < |init| ==> init[i] == ds[i];
    }
  }

  /** `extractSourceFileLineNumbers`: when the file exists (is among
      `sources`, path to content), record the line map of its content,
      split on `\n`, under its path; otherwise leave the cache as it was. */
  method ExtractSourceFileLineNumbers(filePath: string, sources: map<string, string>,
                                      fileLineMap: map<string, map<string, int>>)
    returns (updated: map<string, map<string, int>>)
    ensures filePath in sources ==>
      updated == fileLineMap[filePath := LineMapOf(Split(sources[filePath], "\n"))]
    ensures filePath !in sources ==> updated == fileLineMap
  {
    if filePath !in sources {
      return fileLineMap;
    }
    var fileLines := Split(sources[filePath], "\n");
    var lineMap: map<string, int> := map[];
    for i := 0 to |fileLines|
      invariant lineMap == LastDeclarations(Declarations(fileLines[..i]))
    {
      assert Declarations(fileLines[..i + 1])[..i] == Declarations(fileLines[..i]);
      var line := fileLines[i];
      var describeMatch := LeftmostDescribe(line, 0);
      if describeMatch.Some? {
        lineMap := lineMap[describeMatch.value := i + 1];
        continue;
      }
      var testMatch := LeftmostTest(line, 0);
      if testMatch.Some? {
        lineMap := lineMap[testMatch.value := i + 1];
      }
    }
    assert fileLines[..|fileLines|] == fileLines;
    updated := fileLineMap[filePath := lineMap];
  }
}
