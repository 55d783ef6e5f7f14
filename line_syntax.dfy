/** The line shapes of the runner's text report that the parser recognises
    (the regular expressions of src/utils/parseBunTestOutput.ts:22-33 and
    :40-47, :124, :131, :149), written out as exact matchers over one line. */
module LineSyntax {

  import opened Wrappers
  import opened Text

  /** `line.startsWith('bun test v')`. */
  predicate IsBanner(line: string)
  {
    StartsWith(line, "bun test v")
  }

  /** `^\d+\s+<word>$`, e.g. " 10 pass" after trimming. */
  predicate IsCountLine(line: string, word: string)
  {
    var d := DigitRun(line);
    d > 0 && var w := SpaceRun(line[d..]); w > 0 && line[d + w..] == word
  }

  /** `^Ran \d+ tests across \d+ files` (no end anchor). */
  predicate IsRanLine(line: string)
  {
    StartsWith(line, "Ran ") &&
    var a := line[4..];
    var d1 := DigitRun(a);
    d1 > 0 && StartsWith(a[d1..], " tests across ") &&
    var b := a[d1 + 14..];
    var d2 := DigitRun(b);
    d2 > 0 && StartsWith(b[d2..], " files")
  }

  /** The banner and summary lines the parser drops before anything else. */
  predicate IsSummaryLine(line: string)
  {
    IsBanner(line) || IsCountLine(line, "pass") || IsCountLine(line, "fail")
    || IsCountLine(line, "skip") || IsCountLine(line, "expect() calls") || IsRanLine(line)
  }

  /** `^(\d+) \|(.*)$`: a numbered source line printed around a failure. */
  predicate IsCodeLine(line: string)
  {
    var d := DigitRun(line);
    d > 0 && StartsWith(line[d..], " |") && NoLineTerminator(line[d + 2..])
  }

  predicate NoLineTerminator(s: string)
  {
    forall i :: 0 <= i < |s| ==> !IsLineTerminator(s[i])
  }

  /** `/\^/`: the caret under the failing expression. */
  predicate HasCaret(line: string)
  {
    '^' in line
  }

  predicate IsErrorStart(line: string)
  {
    StartsWith(line, "error:") || StartsWith(line, "Expected:")
  }

  /** `^([^:]+):$`: a file header; the result is the captured path, trimmed. */
  function FileHeader(line: string): Option<string>
  {
    if |line| >= 2 && line[|line| - 1] == ':' && ':' !in line[..|line| - 1]
    then Some(Trim(line[..|line| - 1]))
    else None
  }

  datatype Frame = Frame(file: string, line: nat, column: nat)

  const AnonymousPrefix: string := "at <anonymous> ("

  /** `at <anonymous> \(([^:]+):(\d+):(\d+)\)` matched at position `k`.
      Each part is forced: the file runs to the first colon, and each number
      is the whole run of digits that follows. */
  function FrameAt(s: string, k: nat): Option<Frame>
  {
    if !OccursAt(s, AnonymousPrefix, k) then None
    else
      var p := s[k + |AnonymousPrefix|..];
      match IndexOf(p, ":", 0)
      case None => None
      case Some(c) =>
        if c == 0 then None
        else
          var q := p[c + 1..];
          var d1 := DigitRun(q);
          if d1 == 0 || d1 == |q| || q[d1] != ':' then None
          else
            var r := q[d1 + 1..];
            var d2 := DigitRun(r);
            if d2 == 0 || d2 == |r| || r[d2] != ')' then None
            else Some(Frame(p[..c], DigitsValue(q[..d1]), DigitsValue(r[..d2])))
  }

  /** The leftmost match of the anonymous stack-frame expression anywhere
      in the line (it is not anchored). */
  function AnonymousFrame(s: string): Option<Frame>
  {
    FirstFrame(s, 0)
  }

  function FirstFrame(s: string, k: nat): (r: Option<Frame>)
    requires k <= |s|
    ensures r.Some? ==> exists j: nat :: k <= j <= |s| && FrameAt(s, j) == r
    ensures r.None? ==> forall j: nat :: k <= j <= |s| ==> FrameAt(s, j).None?
    decreases |s| - k
  {
    if FrameAt(s, k).Some? then FrameAt(s, k)
    else if k == |s| then None
    else FirstFrame(s, k + 1)
  }

  /** The match `FirstFrame` finds is the leftmost one: at every earlier
      position the expression does not match. */
  lemma {:induction false} FirstFrameAt(s: string, k: nat) returns (j: nat)
    requires k <= |s| && FirstFrame(s, k).Some?
    ensures k <= j <= |s| && FrameAt(s, j) == FirstFrame(s, k)
    ensures forall i :: k <= i < j ==> FrameAt(s, i).None?
    decreases |s| - k
  {
    if FrameAt(s, k).Some? {
      j := k;
    } else {
      FirstFrameSkips(s, k);
      j := FirstFrameAt(s, k + 1);
      FrameAtNoneFrom(s, k, j);
    }
  }

  lemma FirstFrameSkips(s: string, k: nat)
    requires k <= |s| && FirstFrame(s, k).Some? && FrameAt(s, k).None?
    ensures k < |s| && FirstFrame(s, k + 1) == FirstFrame(s, k)
  {
  }

  lemma FrameAtNoneFrom(s: string, k: nat, j: nat)
    requires k <= j <= |s| && FrameAt(s, k).None? && forall i :: k + 1 <= i < j ==> FrameAt(s, i).None?
    ensures forall i :: k <= i < j ==> FrameAt(s, i).None?
  {
  }

  /** `.*:(\d+):(\d+)$` on the line before a caret: its trailing
      `:line:column`. */
  function TrailingPosition(s: string): Option<(nat, nat)>
  {
    var n2 := DigitSuffix(s);
    if n2 == 0 || n2 == |s| || s[|s| - n2 - 1] != ':' then None
    else
      var t := s[..|s| - n2 - 1];
      var n1 := DigitSuffix(t);
      if n1 == 0 || n1 == |t| || t[|t| - n1 - 1] != ':' then None
      else Some((DigitsValue(t[|t| - n1..]), DigitsValue(s[|s| - n2..])))
  }

  /** What a `(pass)`, `(fail)` or `(skip)` line carries: the test path and
      the digits of its duration in milliseconds, if printed. */
  datatype ResultMatch = ResultMatch(path: string, duration: Option<string>)

  /** `^\(<tag>\)\s+(.*?)(?:\s+\[([0-9.]+)ms\])?$`; the path is the lazily
      captured group, trimmed. */
  function ResultLine(line: string, tag: string): (r: Option<ResultMatch>)
    ensures r.Some? ==> StartsWith(line, "(" + tag + ")")
    ensures r.Some? ==> r.value.path == [] || !IsSpace(r.value.path[0])
  {
    var prefix := "(" + tag + ")";
    if !StartsWith(line, prefix) then None
    else
      var rest := line[|prefix|..];
      var w := SpaceRun(rest);
      if w == 0 then None else LazyCapture(rest[w..], 0)
  }

  /** The shortest capture `r[..k]` after which the line either ends or
      continues with the duration suffix; `.` does not cross a line
      terminator. */
  function LazyCapture(r: string, k: nat): (m: Option<ResultMatch>)
    requires k <= |r|
    ensures m.Some? ==> m.value.path == [] || !IsSpace(m.value.path[0])
    decreases |r| - k
  {
    if k == |r| then Some(ResultMatch(Trim(r), None))
    else match DurationSuffix(r[k..])
      case Some(d) => Some(ResultMatch(Trim(r[..k]), Some(d)))
      case None => if IsLineTerminator(r[k]) then None else LazyCapture(r, k + 1)
  }

  predicate IsDurationChar(c: char)
  {
    IsDigit(c) || c == '.'
  }

  /** `\s+\[([0-9.]+)ms\]` up to the end of the line. */
  function DurationSuffix(t: string): Option<string>
  {
    var w := SpaceRun(t);
    if w == 0 then None
    else
      var u := t[w..];
      if |u| >= 5 && u[0] == '[' && EndsWith(u, "ms]")
         && forall i :: 1 <= i < |u| - 3 ==> IsDurationChar(u[i])
      then Some(u[1..|u| - 3])
      else None
  }

  predicate AllSpace(s: string)
  {
    forall i :: 0 <= i < |s| ==> IsSpace(s[i])
  }

  /** What `[0-9.]+` matches. */
  predicate DurationDigits(d: string)
  {
    d != [] && forall i :: 0 <= i < |d| ==> IsDurationChar(d[i])
  }

  /** The optional `\s+[<d>ms]` tail of a result line, with `ws` as its
      leading white space. */
  function DurationPart(ws: string, duration: Option<string>): string
  {
    match duration
    case None => []
    case Some(d) => ws + ("[" + d + "ms]")
  }

  /** `line` is `(tag)`, the white space `ws`, the captured text `c` and
      the duration tail of `m` after the white space `ws'`, where `ws` is
      the whole run of white space, `c` lies on one line and trims to the
      path, and `c` is the shortest capture: no tail of `c`, followed by
      the rest of the line, reads as a duration tail. */
  predicate SplitsAs(line: string, tag: string, m: ResultMatch, ws: string, c: string, ws': string)
  {
    ws != [] && AllSpace(ws) && (c == [] || !IsSpace(c[0]))
    && NoLineTerminator(c) && m.path == Trim(c)
    && (m.duration.Some? ==> ws' != [] && AllSpace(ws'))
    && line == "(" + tag + ")" + ws + c + DurationPart(ws', m.duration)
    && (forall i :: 0 <= i < |c| ==> DurationSuffix(c[i..] + DurationPart(ws', m.duration)).None?)
  }

  /** Every match of a result line takes it apart as the expression does:
      the `(tag)`, the whole run of white space after it, the captured text
      `c` (on one line), and the duration tail exactly when a duration is
      reported; the path is `c` trimmed. The capture is the shortest one:
      at no earlier position does the rest of the line read as a duration
      tail. */
  lemma ResultLineParts(line: string, tag: string)
    requires ResultLine(line, tag).Some?
    ensures var m := ResultLine(line, tag).value;
      m.duration.Some? ==> DurationDigits(m.duration.value)
    ensures var m := ResultLine(line, tag).value;
      exists ws: string, c: string, ws': string :: SplitsAs(line, tag, m, ws, c, ws')
  {
    var m := ResultLine(line, tag).value;
    var ws, r := ResultLineHead(line, tag);
    var c, ws' := CaptureSplit(r);
    var tail := DurationPart(ws', m.duration);
    Associate("(" + tag + ")" + ws, c, tail);
    assert SplitsAs(line, tag, m, ws, c, ws');
  }

  lemma Associate(a: string, b: string, c: string)
    ensures a + (b + c) == a + b + c
  {
  }

  /** A matched line is its `(tag)`, the whole run of white space after it,
      and the text the capture runs over. */
  lemma ResultLineHead(line: string, tag: string) returns (ws: string, r: string)
    requires ResultLine(line, tag).Some?
    ensures ws != [] && AllSpace(ws) && (r == [] || !IsSpace(r[0]))
    ensures line == "(" + tag + ")" + ws + r && LazyCapture(r, 0) == ResultLine(line, tag)
  {
    var prefix := "(" + tag + ")";
    var rest := line[|prefix|..];
    var w := SpaceRun(rest);
    SpaceRunSpaces(rest);
    ws := rest[..w];
    r := rest[w..];
    assert rest == ws + r;
    assert line == prefix + rest;
  }

  /** The text after the white space is the shortest capture `c`, then the
      duration tail. */
  lemma CaptureSplit(r: string) returns (c: string, ws': string)
    requires LazyCapture(r, 0).Some?
    ensures var m := LazyCapture(r, 0).value;
      r == c + DurationPart(ws', m.duration) && (c == [] || c[0] == r[0])
      && NoLineTerminator(c) && m.path == Trim(c)
      && (m.duration.Some? ==> ws' != [] && AllSpace(ws') && DurationDigits(m.duration.value))
      && (forall i :: 0 <= i < |c| ==> DurationSuffix(c[i..] + DurationPart(ws', m.duration)).None?)
  {
    var m := LazyCapture(r, 0).value;
    var j := LazyCaptureParts(r, 0);
    c := r[..j];
    ws' := [];
    if m.duration.Some? {
      ws' := DurationSuffixParts(r[j..]);
    }
    assert r[j..] == DurationPart(ws', m.duration);
    assert r == c + r[j..];
    ShortestCapture(r, j);
  }

  /** The capture `r[..j]` is the shortest: no tail of it, followed by the
      rest of the line, reads as a duration tail. */
  lemma ShortestCapture(r: string, j: nat)
    requires j <= |r| && forall i :: 0 <= i < j ==> DurationSuffix(r[i..]).None?
    ensures forall i :: 0 <= i < j ==> DurationSuffix(r[..j][i..] + r[j..]).None?
  {
    forall i | 0 <= i < j
      ensures DurationSuffix(r[..j][i..] + r[j..]).None?
    {
      SuffixSplit(r, j, i);
    }
  }

  lemma SuffixSplit(r: string, j: nat, i: nat)
    requires i <= j <= |r|
    ensures r[..j][i..] + r[j..] == r[i..]
  {
  }

  /** Where the lazy capture stops: the captured text `r[..j]` holds no
      line terminator, after it the line ends or its duration tail
      follows, and no earlier position is followed by a duration tail. */
  lemma {:induction false} LazyCaptureParts(r: string, k: nat) returns (j: nat)
    requires k <= |r| && NoLineTerminator(r[..k]) && LazyCapture(r, k).Some?
    ensures k <= j <= |r| && NoLineTerminator(r[..j])
    ensures var m := LazyCapture(r, k).value;
      m.path == Trim(r[..j])
      && (m.duration.None? ==> j == |r|)
      && (m.duration.Some? ==> DurationSuffix(r[j..]) == m.duration)
    ensures forall i :: k <= i < j ==> DurationSuffix(r[i..]).None?
    decreases |r| - k
  {
    if k == |r| {
      assert r[..k] == r;
      j := k;
    } else if DurationSuffix(r[k..]).Some? {
      j := k;
    } else {
      assert LazyCapture(r, k) == LazyCapture(r, k + 1);
      NoLineTerminatorExtends(r, k);
      j := LazyCaptureParts(r, k + 1);
    }
  }

  lemma NoLineTerminatorExtends(r: string, k: nat)
    requires k < |r| && NoLineTerminator(r[..k]) && !IsLineTerminator(r[k])
    ensures NoLineTerminator(r[..k + 1])
  {
    assert forall i :: 0 <= i < k ==> r[..k + 1][i] == r[..k][i];
  }

  /** A duration tail is white space, then `[`, the digits, and `ms]`. */
  lemma DurationSuffixParts(t: string) returns (ws: string)
    requires DurationSuffix(t).Some?
    ensures var d := DurationSuffix(t).value;
      DurationDigits(d) && ws != [] && AllSpace(ws) && t == ws + ("[" + d + "ms]")
  {
    var w := SpaceRun(t);
    SpaceRunSpaces(t);
    ws := t[..w];
    var u := t[w..];
    var d := u[1..|u| - 3];
    assert u == "[" + d + "ms]";
    forall i | 0 <= i < |d| ensures IsDurationChar(d[i]) {
      assert d[i] == u[i + 1];
    }
  }

  /** Conversely, a test path on one line, without `[` and without white
      space at either end, printed after `(tag) ` and optionally followed by
      ` [<d>ms]`, is read back as exactly that path and duration. */
  lemma ResultLineOfName(tag: string, n: string, duration: Option<string>)
    requires n != [] && !IsSpace(n[0]) && !IsSpace(n[|n| - 1])
    requires NoLineTerminator(n) && '[' !in n
    requires duration.Some? ==> DurationDigits(duration.value)
    ensures ResultLine("(" + tag + ") " + n + DurationPart(" ", duration), tag) == Some(ResultMatch(n, duration))
  {
    var tail := DurationPart(" ", duration);
    var r := n + tail;
    assert "(" + tag + ") " + n + tail == "(" + tag + ") " + r;
    ResultLineStart(tag, r);
    CaptureAfterName(n, tail);
    CaptureEnd(n, duration);
  }

  /** After `(tag) ` the capture starts at the first character that is not
      white space. */
  lemma ResultLineStart(tag: string, r: string)
    requires r != [] && !IsSpace(r[0])
    ensures ResultLine("(" + tag + ") " + r, tag) == LazyCapture(r, 0)
  {
    var prefix := "(" + tag + ")";
    var line := "(" + tag + ") " + r;
    assert StartsWith(line, prefix) && line[|prefix|..] == " " + r;
    assert (" " + r)[1..] == r;
  }

  /** The capture runs over the whole name. */
  lemma CaptureAfterName(n: string, tail: string)
    requires n != [] && !IsSpace(n[|n| - 1]) && NoLineTerminator(n) && '[' !in n
    ensures LazyCapture(n + tail, 0) == LazyCapture(n + tail, |n|)
  {
    var r := n + tail;
    forall i | 0 <= i < |n|
      ensures DurationSuffix(r[i..]).None? && !IsLineTerminator(r[i])
    {
      NoDurationInside(n, tail, i);
    }
    LazyCaptureSkips(r, 0, |n|);
  }

  /** Right after the name the line ends or its duration tail follows. */
  lemma CaptureEnd(n: string, duration: Option<string>)
    requires n == [] || (!IsSpace(n[0]) && !IsSpace(n[|n| - 1]))
    requires duration.Some? ==> DurationDigits(duration.value)
    ensures LazyCapture(n + DurationPart(" ", duration), |n|) == Some(ResultMatch(n, duration))
  {
    match duration
    case Some(d) => CaptureEndDuration(n, d);
    case None => CaptureEndPlain(n);
  }

  lemma CaptureEndPlain(n: string)
    requires n == [] || (!IsSpace(n[0]) && !IsSpace(n[|n| - 1]))
    ensures LazyCapture(n + DurationPart(" ", None), |n|) == Some(ResultMatch(n, None))
  {
    assert n + DurationPart(" ", None) == n;
    TrimUntouched(n);
  }

  lemma CaptureEndDuration(n: string, d: string)
    requires n == [] || (!IsSpace(n[0]) && !IsSpace(n[|n| - 1]))
    requires DurationDigits(d)
    ensures LazyCapture(n + DurationPart(" ", Some(d)), |n|) == Some(ResultMatch(n, Some(d)))
  {
    var t := DurationPart(" ", Some(d));
    TailIsDuration(d);
    CaptureStops(n, t, d);
    TrimUntouched(n);
  }

  /** The capture stops where a duration tail starts. */
  lemma CaptureStops(n: string, t: string, d: string)
    requires DurationSuffix(t) == Some(d)
    ensures LazyCapture(n + t, |n|) == Some(ResultMatch(Trim(n), Some(d)))
  {
    SplitAt(n, t);
  }

  lemma SplitAt(a: string, b: string)
    ensures (a + b)[..|a|] == a && (a + b)[|a|..] == b
  {
  }

  /** The printed duration tail reads back as its digits. */
  lemma TailIsDuration(d: string)
    requires DurationDigits(d)
    ensures DurationSuffix(DurationPart(" ", Some(d))) == Some(d)
  {
    var u := "[" + d + "ms]";
    var t := " " + u;
    assert t[1..] == u;
    assert SpaceRun(t) == 1;
    assert forall i :: 1 <= i < |u| - 3 ==> u[i] == d[i - 1];
    assert u[1..|u| - 3] == d;
  }

  /** Inside a trimmed, bracket-free name no duration tail can start. */
  lemma NoDurationInside(n: string, tail: string, i: nat)
    requires i < |n| && !IsSpace(n[|n| - 1]) && '[' !in n
    ensures DurationSuffix((n + tail)[i..]).None?
  {
    var t := (n + tail)[i..];
    var w := SpaceRun(t);
    SpaceRunSpaces(t);
    assert t[|n| - i - 1] == n[|n| - 1];
    if w > 0 {
      assert t[w..][0] == n[i + w];
    }
  }

  /** The lazy capture passes over positions where nothing can end it. */
  lemma {:induction false} LazyCaptureSkips(r: string, k: nat, j: nat)
    requires k <= j <= |r|
    requires forall i :: k <= i < j ==> DurationSuffix(r[i..]).None? && !IsLineTerminator(r[i])
    ensures LazyCapture(r, k) == LazyCapture(r, j)
    decreases j - k
  {
    if k < j {
      LazyCaptureSkips(r, k + 1, j);
    }
  }

  /** A line that ends an error block: a result line or a file header. */
  predicate EndsErrorBlock(line: string)
  {
    ResultLine(line, "pass").Some? || ResultLine(line, "fail").Some?
    || ResultLine(line, "skip").Some? || FileHeader(line).Some?
  }
}
