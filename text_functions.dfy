/**
 * The text helpers of src/scalpel/functions.py: the two quote-aware
 * whitespace rewriters applied to source text line by line, and the
 * dictionary-backed counters that hand out versioned variable names.
 */
module TextFunctions {
  import opened Common
  import S = SsaSyntax

  // ---------------------------------------------------------------------------
  // Lines and the whitespace around them

  /** Python's `\s` on the ASCII whitespace characters. */
  predicate IsSpace(c: char)
  {
    c == ' ' || c == '\t' || c == '\n' || c == '\r' || c == '\U{0B}' || c == '\U{0C}'
  }

  /** `re.match(r'^\s*', line).group()`: the longest all-whitespace prefix. */
  function Leading(line: string): (r: string)
    ensures StartsWith(line, r)
    ensures forall i :: 0 <= i < |r| ==> IsSpace(r[i])
    ensures |r| < |line| ==> !IsSpace(line[|r|])
  {
    if line != [] && IsSpace(line[0]) then [line[0]] + Leading(line[1..]) else ""
  }

  /** `re.search(r'\s*$', line).group()`: the longest all-whitespace suffix
      (the whole line when it is all whitespace). */
  function Trailing(line: string): (r: string)
    ensures |r| <= |line| && line[|line| - |r|..] == r
    ensures forall i :: 0 <= i < |r| ==> IsSpace(r[i])
    ensures |r| < |line| ==> !IsSpace(line[|line| - |r| - 1])
  {
    if line != [] && IsSpace(line[|line| - 1]) then
      var r := Trailing(line[..|line| - 1]) + [line[|line| - 1]];
      assert line[|line| - |r|..] == line[..|line| - 1][|line| - |r|..] + [line[|line| - 1]];
      r
    else ""
  }

  /** `re.match(r'^\s*' + comm_char, line)`, with the comment marker taken
      literally: after some of the leading whitespace the line goes on with
      the marker. */
  predicate IsCommentLine(line: string, comm: string)
  {
    exists k :: 0 <= k <= |Leading(line)| && StartsWith(line[k..], comm)
  }

  /** The lines of `text` split at `'\n'`. */
  function Lines(text: string): seq<string>
  {
    Split(text, "\n")
  }

  /** No line of a split holds a line break. */
  lemma LinesHaveNoBreak(text: string)
    ensures forall l :: l in Lines(text) ==> '\n' !in l
  {
    SplitPiecesFree(text, "\n");
    forall l | l in Lines(text) ensures '\n' !in l {
      if '\n' in l {
        var i :| 0 <= i < |l| && l[i] == '\n';
        assert OccursAt(l, "\n", i);
      }
    }
  }

  /** The text with every space removed: the reference for what the
      rewriters may drop. */
  function DropSpaces(s: string): string
  {
    if s == [] then "" else (if s[0] == ' ' then "" else [s[0]]) + DropSpaces(s[1..])
  }

  lemma {:induction false} DropSpacesAppend(a: string, b: string)
    ensures DropSpaces(a + b) == DropSpaces(a) + DropSpaces(b)
    decreases |a|
  {
    if a != [] {
      assert (a + b)[1..] == a[1..] + b;
      DropSpacesAppend(a[1..], b);
    } else {
      assert a + b == b;
    }
  }

  // ---------------------------------------------------------------------------
  // replaceSpaces

  /** The index of the first single quote of `s`. */
  function QuoteIndex(s: string): (r: Option<nat>)
    ensures r.Some? ==> r.value < |s| && s[r.value] == '\'' && forall k :: 0 <= k < r.value ==> s[k] != '\''
    ensures r.None? ==> '\'' !in s
  {
    if s == [] then None
    else if s[0] == '\'' then Some(0)
    else match QuoteIndex(s[1..])
      case None => None
      case Some(k) => Some(k + 1)
  }

  /**
   * `re.sub(r"'[^']*'| ", …)` keeping every quoted segment and replacing
   * every other match, a single space, by nothing. A quote without a closing
   * one opens no segment.
   */
  function RemoveSpaces(s: string): string
    decreases |s|
  {
    if s == [] then ""
    else if s[0] == '\'' && QuoteIndex(s[1..]).Some? then
      var j := QuoteIndex(s[1..]).value;
      s[..j + 2] + RemoveSpaces(s[j + 2..])
    else if s[0] == ' ' then RemoveSpaces(s[1..])
    else [s[0]] + RemoveSpaces(s[1..])
  }

  /** Only spaces are removed: the other characters stay, in order. */
  lemma {:induction false} RemoveSpacesKeepsOthers(s: string)
    ensures DropSpaces(RemoveSpaces(s)) == DropSpaces(s)
    decreases |s|
  {
    if s != [] {
      if s[0] == '\'' && QuoteIndex(s[1..]).Some? {
        var j := QuoteIndex(s[1..]).value;
        RemoveSpacesKeepsOthers(s[j + 2..]);
        DropSpacesAppend(s[..j + 2], RemoveSpaces(s[j + 2..]));
        DropSpacesAppend(s[..j + 2], s[j + 2..]);
        assert s == s[..j + 2] + s[j + 2..];
      } else {
        RemoveSpacesKeepsOthers(s[1..]);
        DropSpacesAppend([s[0]], RemoveSpaces(s[1..]));
        assert [s[0]] + s[1..] == s;
        DropSpacesAppend([s[0]], s[1..]);
      }
    }
  }

  /** Without quotes, every space goes. */
  lemma {:induction false} RemoveSpacesUnquoted(s: string)
    requires '\'' !in s
    ensures RemoveSpaces(s) == DropSpaces(s)
    decreases |s|
  {
    if s != [] {
      assert s[1..] <= s[1..] && forall c :: c in s[1..] ==> c in s;
      RemoveSpacesUnquoted(s[1..]);
    }
  }

  /** A quoted segment is kept verbatim, and the spaces before it go. */
  lemma {:induction false} RemoveSpacesQuoted(a: string, x: string, b: string)
    requires '\'' !in a && '\'' !in x
    ensures RemoveSpaces(a + "'" + x + "'" + b) == DropSpaces(a) + "'" + x + "'" + RemoveSpaces(b)
    decreases |a|
  {
    var s := a + "'" + x + "'" + b;
    if a == [] {
      assert s == "'" + x + "'" + b;
      assert s[1..] == x + "'" + b;
      assert QuoteIndex(s[1..]) == Some(|x|) by {
        QuoteIndexAt(x, b);
      }
      assert s[..|x| + 2] == "'" + x + "'";
      assert s[|x| + 2..] == b;
    } else {
      assert s[0] == a[0];
      assert s[1..] == a[1..] + "'" + x + "'" + b;
      assert '\'' !in a[1..] by { assert forall c :: c in a[1..] ==> c in a; }
      RemoveSpacesQuoted(a[1..], x, b);
      assert DropSpaces(a) == (if a[0] == ' ' then "" else [a[0]]) + DropSpaces(a[1..]);
    }
  }

  lemma QuoteIndexAt(x: string, b: string)
    requires '\'' !in x
    ensures QuoteIndex(x + "'" + b) == Some(|x|)
  {
    var s := x + "'" + b;
    assert s[|x|] == '\'';
    assert forall k :: 0 <= k < |x| ==> s[k] == x[k];
  }

  /** Every character of the result is one of the input. */
  lemma {:induction false} RemoveSpacesChars(s: string)
    ensures forall c :: c in RemoveSpaces(s) ==> c in s
    decreases |s|
  {
    if s != [] {
      if s[0] == '\'' && QuoteIndex(s[1..]).Some? {
        var j := QuoteIndex(s[1..]).value;
        RemoveSpacesChars(s[j + 2..]);
        assert forall c :: c in s[..j + 2] ==> c in s;
        assert forall c :: c in s[j + 2..] ==> c in s;
      } else {
        RemoveSpacesChars(s[1..]);
        assert forall c :: c in s[1..] ==> c in s;
      }
    }
  }

  /** One line of `replaceSpaces`: a comment line as it is, any other its
      leading whitespace, its text with spaces removed, its trailing
      whitespace. */
  function ReplaceLine(line: string, comm: string): string
  {
    if IsCommentLine(line, comm) then line
    else Leading(line) + RemoveSpaces(line) + Trailing(line)
  }

  function ReplacedLines(lines: seq<string>, comm: string): (r: seq<string>)
    ensures |r| == |lines| && forall i :: 0 <= i < |lines| ==> r[i] == ReplaceLine(lines[i], comm)
  {
    seq(|lines|, i requires 0 <= i < |lines| => ReplaceLine(lines[i], comm))
  }

  /** `replaceSpaces`. */
  method ReplaceSpaces(text: string, comm: string) returns (r: string)
    ensures r == Join(ReplacedLines(Lines(text), comm), "\n")
  {
    var lines := Split(text, "\n");
    var trimmedLines: seq<string> := [];
    var i := 0;
    while i < |lines|
      invariant 0 <= i <= |lines|
      invariant |trimmedLines| == i
      invariant forall k :: 0 <= k < i ==> trimmedLines[k] == ReplaceLine(lines[k], comm)
    {
      var line := lines[i];
      var trimmed;
      if IsCommentLine(line, comm) {
        trimmed := line;
      } else {
        var leadingSpaces := Leading(line);
        var trailingSpaces := Trailing(line);
        trimmed := leadingSpaces + RemoveSpaces(line) + trailingSpaces;
      }
      assert trimmed == ReplaceLine(lines[i], comm);
      trimmedLines := trimmedLines + [trimmed];
      i := i + 1;
    }
    assert trimmedLines == ReplacedLines(lines, comm);
    r := Join(trimmedLines, "\n");
  }

  /** A rewritten line stays a single line when the input line was one. */
  lemma ReplaceLineNoBreak(line: string, comm: string)
    requires '\n' !in line
    ensures '\n' !in ReplaceLine(line, comm)
  {
    RemoveSpacesChars(line);
    var lead, trail := Leading(line), Trailing(line);
    assert forall c :: c in lead ==> c in line by {
      assert lead == line[..|lead|];
    }
    assert forall c :: c in trail ==> c in line by {
      assert trail == line[|line| - |trail|..];
    }
  }

  /**
   * `replaceSpaces` keeps the number of lines, leaves comment lines as they
   * are, and rewrites each other line on its own.
   */
  lemma ReplaceSpacesLines(text: string, comm: string)
    ensures var out := Lines(Join(ReplacedLines(Lines(text), comm), "\n"));
            |out| == |Lines(text)| &&
            forall i :: 0 <= i < |out| ==>
              out[i] == ReplaceLine(Lines(text)[i], comm) &&
              (IsCommentLine(Lines(text)[i], comm) ==> out[i] == Lines(text)[i])
  {
    var lines := Lines(text);
    var replaced := ReplacedLines(lines, comm);
    LinesHaveNoBreak(text);
    forall p | p in replaced ensures "\n"[0] !in p {
      var i :| 0 <= i < |replaced| && replaced[i] == p;
      assert lines[i] in lines;
      ReplaceLineNoBreak(lines[i], comm);
    }
    SplitJoin(replaced, "\n");
  }

  // ---------------------------------------------------------------------------
  // trim_double_spaces

  /** Whether the character at `i` toggles the in-string flag: a single quote
      not preceded by a backslash. */
  predicate TogglesAt(line: string, i: nat)
    requires i < |line|
  {
    line[i] == '\'' && (i == 0 || line[i - 1] != '\\')
  }

  /** Whether the character at `i` is a space followed by a space. */
  predicate DoubleSpaceAt(line: string, i: nat)
    requires i < |line|
  {
    line[i] == ' ' && i + 1 < |line| && line[i + 1] == ' '
  }

  /** One iteration of the character loop: the output so far and the flag. */
  function TrimStep(line: string, i: nat, st: (string, bool)): (string, bool)
    requires i < |line|
  {
    var within := if TogglesAt(line, i) then !st.1 else st.1;
    if !within && DoubleSpaceAt(line, i) then (st.0, within) else (st.0 + [line[i]], within)
  }

  /** The output and flag after the first `k` characters, starting with the
      flag `w0`. */
  function TrimPrefix(line: string, k: nat, w0: bool): (string, bool)
    requires k <= |line|
  {
    if k == 0 then ("", w0) else TrimStep(line, k - 1, TrimPrefix(line, k - 1, w0))
  }

  /** The inner loop of `trim_double_spaces` on one line. */
  method TrimLine(line: string, within0: bool) returns (outLine: string, within: bool)
    ensures (outLine, within) == TrimPrefix(line, |line|, within0)
  {
    outLine := "";
    within := within0;
    var i := 0;
    while i < |line|
      invariant 0 <= i <= |line|
      invariant (outLine, within) == TrimPrefix(line, i, within0)
    {
      var c := line[i];
      if c == '\'' && (i == 0 || line[i - 1] != '\\') {
        within := !within;
      }
      if !within && c == ' ' && (i + 1 < |line| && line[i + 1] == ' ') {
      } else {
        outLine := outLine + [c];
      }
      i := i + 1;
    }
  }

  /** The lines after `trim_double_spaces` and the flag it ends with; the flag
      runs on from line to line and comment lines leave it alone. */
  function TrimmedLines(lines: seq<string>, comm: string, w0: bool): (r: (seq<string>, bool))
    ensures |r.0| == |lines|
  {
    if lines == [] then ([], w0)
    else
      var prev := TrimmedLines(lines[..|lines| - 1], comm, w0);
      var step := TrimmedLine(lines[|lines| - 1], comm, prev.1);
      (prev.0 + [step.0], step.1)
  }

  /** One line of `trim_double_spaces` and the flag after it: a comment line
      as it is, any other its leading whitespace, its trimmed text, its
      trailing whitespace. */
  function TrimmedLine(line: string, comm: string, within: bool): (string, bool)
  {
    if IsCommentLine(line, comm) then (line, within)
    else
      var t := TrimPrefix(line, |line|, within);
      (Leading(line) + t.0 + Trailing(line), t.1)
  }

  /** `trim_double_spaces`. */
  method TrimDoubleSpaces(text: string, comm: string) returns (r: string)
    ensures r == Join(TrimmedLines(Lines(text), comm, false).0, "\n")
  {
    var lines := Split(text, "\n");
    var trimmedLines: seq<string> := [];
    var withinString := false;
    var i := 0;
    while i < |lines|
      invariant 0 <= i <= |lines|
      invariant (trimmedLines, withinString) == TrimmedLines(lines[..i], comm, false)
    {
      assert lines[..i + 1][..i] == lines[..i];
      var line := lines[i];
      if IsCommentLine(line, comm) {
        trimmedLines := trimmedLines + [line];
      } else {
        var outLine;
        outLine, withinString := TrimLine(line, withinString);
        var leadingSpaces := Leading(line);
        var trailingSpaces := Trailing(line);
        trimmedLines := trimmedLines + [leadingSpaces + outLine + trailingSpaces];
      }
      i := i + 1;
    }
    assert lines[..i] == lines;
    r := Join(trimmedLines, "\n");
  }

  /** The reference for collapsing spaces: a space followed by a space is
      dropped, so each run keeps its last space. */
  function CollapseRuns(s: string): string
  {
    if s == [] then ""
    else if |s| >= 2 && s[0] == ' ' && s[1] == ' ' then CollapseRuns(s[1..])
    else [s[0]] + CollapseRuns(s[1..])
  }

  /** Outside strings and without quotes, a line is trimmed to `CollapseRuns`
      of it. */
  lemma TrimCollapses(line: string)
    requires '\'' !in line
    ensures TrimPrefix(line, |line|, false) == (CollapseRuns(line), false)
  {
    TrimCollapsesFrom(line, |line|);
    assert line[|line|..] == [];
    var t := TrimPrefix(line, |line|, false);
    assert t.0 + CollapseRuns([]) == CollapseRuns(line);
    assert t.0 == CollapseRuns(line);
  }

  lemma {:induction false} TrimCollapsesFrom(line: string, k: nat)
    requires '\'' !in line && k <= |line|
    ensures TrimPrefix(line, k, false).1 == false
    ensures TrimPrefix(line, k, false).0 + CollapseRuns(line[k..]) == CollapseRuns(line)
  {
    if k > 0 {
      TrimCollapsesFrom(line, k - 1);
      var i := k - 1;
      assert !TogglesAt(line, i) by { assert line[i] in line; }
      var rest := line[i..];
      assert rest[1..] == line[k..];
      assert |rest| >= 2 ==> rest[1] == line[i + 1];
    } else {
      assert line[0..] == line;
    }
  }

  /** `CollapseRuns` leaves no two spaces side by side. */
  lemma {:induction false} CollapseRunsNoDouble(s: string)
    ensures forall i :: 0 <= i < |CollapseRuns(s)| - 1 ==> !(CollapseRuns(s)[i] == ' ' && CollapseRuns(s)[i + 1] == ' ')
    ensures |s| > 0 ==> |CollapseRuns(s)| > 0 && CollapseRuns(s)[0] == (if |s| >= 2 && s[0] == ' ' && s[1] == ' ' then ' ' else s[0])
  {
    if s != [] {
      CollapseRunsNoDouble(s[1..]);
      if |s| >= 2 && s[0] == ' ' && s[1] == ' ' {
      } else {
        var r := CollapseRuns(s);
        assert r == [s[0]] + CollapseRuns(s[1..]);
        if |s| >= 2 && s[0] == ' ' {
          assert CollapseRuns(s[1..])[0] != ' ';
        }
      }
    }
  }

  /** `CollapseRuns` drops nothing but spaces. */
  lemma {:induction false} CollapseRunsKeepsOthers(s: string)
    ensures DropSpaces(CollapseRuns(s)) == DropSpaces(s)
  {
    if s != [] {
      CollapseRunsKeepsOthers(s[1..]);
      if !(|s| >= 2 && s[0] == ' ' && s[1] == ' ') {
        DropSpacesAppend([s[0]], CollapseRuns(s[1..]));
        assert [s[0]][1..] == [];
      }
    }
  }

  /** Inside a string with no quote to close it, a line is kept whole. */
  lemma {:induction false} TrimInsideString(line: string, k: nat)
    requires '\'' !in line && k <= |line|
    ensures TrimPrefix(line, k, true) == (line[..k], true)
  {
    if k > 0 {
      TrimInsideString(line, k - 1);
      assert !TogglesAt(line, k - 1) by { assert line[k - 1] in line; }
      assert line[..k] == line[..k - 1] + [line[k - 1]];
    }
  }

  /** The number of flag-toggling quotes among the first `k` characters. */
  function TogglesBefore(line: string, k: nat): nat
    requires k <= |line|
  {
    if k == 0 then 0 else TogglesBefore(line, k - 1) + (if TogglesAt(line, k - 1) then 1 else 0)
  }

  /** The flag flips once per unescaped quote. */
  lemma {:induction false} TrimFlagParity(line: string, k: nat, w0: bool)
    requires k <= |line|
    ensures TrimPrefix(line, k, w0).1 == (w0 != (TogglesBefore(line, k) % 2 == 1))
  {
    if k > 0 {
      TrimFlagParity(line, k - 1, w0);
    }
  }

  /** The number of flag-toggling quotes on the lines that are not comments. */
  function TogglesInLines(lines: seq<string>, comm: string): nat
  {
    if lines == [] then 0
    else
      var line := lines[|lines| - 1];
      TogglesInLines(lines[..|lines| - 1], comm) + LineToggles(line, comm)
  }

  /** The flag-toggling quotes of a line that is not a comment. */
  function LineToggles(line: string, comm: string): nat
  {
    if IsCommentLine(line, comm) then 0 else TogglesBefore(line, |line|)
  }

  lemma LineFlag(line: string, comm: string, within: bool)
    ensures TrimmedLine(line, comm, within).1 == (within != (LineToggles(line, comm) % 2 == 1))
  {
    if !IsCommentLine(line, comm) {
      TrimFlagParity(line, |line|, within);
    }
  }

  /**
   * The flag carries over from line to line: after any number of lines it is
   * the starting flag flipped once per unescaped quote on the lines that are
   * not comments.
   */
  lemma {:induction false} TrimmedLinesFlag(lines: seq<string>, comm: string, w0: bool)
    ensures TrimmedLines(lines, comm, w0).1 == (w0 != (TogglesInLines(lines, comm) % 2 == 1))
  {
    if lines != [] {
      var init := lines[..|lines| - 1];
      TrimmedLinesFlag(init, comm, w0);
      LineFlag(lines[|lines| - 1], comm, TrimmedLines(init, comm, w0).1);
      ParityAdds(w0, TogglesInLines(init, comm), LineToggles(lines[|lines| - 1], comm));
    }
  }

  lemma ParityAdds(w: bool, a: nat, b: nat)
    ensures ((w != (a % 2 == 1)) != (b % 2 == 1)) == (w != ((a + b) % 2 == 1))
  {
  }

  /** Comment lines come out of `trim_double_spaces` as they went in. */
  lemma {:induction false} TrimmedLinesComments(lines: seq<string>, comm: string, w0: bool)
    ensures forall i :: 0 <= i < |lines| && IsCommentLine(lines[i], comm) ==> TrimmedLines(lines, comm, w0).0[i] == lines[i]
  {
    if lines != [] {
      var init := lines[..|lines| - 1];
      TrimmedLinesComments(init, comm, w0);
      var prev := TrimmedLines(init, comm, w0);
      var out := TrimmedLines(lines, comm, w0).0;
      assert out[..|init|] == prev.0;
      forall i | 0 <= i < |lines| && IsCommentLine(lines[i], comm)
        ensures out[i] == lines[i]
      {
        if i < |init| {
          assert lines[i] == init[i];
          assert out[i] == prev.0[i];
        }
      }
    }
  }

  /** A trimmed line stays a single line when the input line was one. */
  lemma TrimLineNoBreak(line: string, k: nat, w0: bool)
    requires '\n' !in line && k <= |line|
    ensures '\n' !in TrimPrefix(line, k, w0).0
  {
    if k > 0 {
      TrimLineNoBreak(line, k - 1, w0);
      assert line[k - 1] in line;
    }
  }

  lemma {:induction false} TrimmedLinesNoBreak(lines: seq<string>, comm: string, w0: bool)
    requires forall l :: l in lines ==> '\n' !in l
    ensures forall l :: l in TrimmedLines(lines, comm, w0).0 ==> '\n' !in l
  {
    if lines != [] {
      var init := lines[..|lines| - 1];
      var line := lines[|lines| - 1];
      assert forall l :: l in init ==> l in lines;
      TrimmedLinesNoBreak(init, comm, w0);
      assert line in lines;
      var prev := TrimmedLines(init, comm, w0);
      if !IsCommentLine(line, comm) {
        TrimLineNoBreak(line, |line|, prev.1);
        var lead, trail := Leading(line), Trailing(line);
        assert lead == line[..|lead|];
        assert trail == line[|line| - |trail|..];
        assert forall c :: c in lead ==> c in line;
        assert forall c :: c in trail ==> c in line;
      }
    }
  }

  /** `trim_double_spaces` keeps the number of lines and the comment lines. */
  lemma TrimDoubleSpacesLines(text: string, comm: string)
    ensures var out := Lines(Join(TrimmedLines(Lines(text), comm, false).0, "\n"));
            |out| == |Lines(text)| &&
            forall i :: 0 <= i < |out| && IsCommentLine(Lines(text)[i], comm) ==> out[i] == Lines(text)[i]
  {
    var lines := Lines(text);
    LinesHaveNoBreak(text);
    TrimmedLinesNoBreak(lines, comm, false);
    TrimmedLinesComments(lines, comm, false);
    var trimmed := TrimmedLines(lines, comm, false).0;
    assert forall p :: p in trimmed ==> "\n"[0] !in p;
    SplitJoin(trimmed, "\n");
  }

  // ---------------------------------------------------------------------------
  // Names

  /** `get_global_unique_name` of functions.py: the name as it is, whatever
      names the enclosing scopes or the program already use. Its comment
      promises a name unique with respect to the parent variables, but its
      body returns the name unchanged, and that is what is modelled. */
  function GetGlobalUniqueName(varName: string, parentVars: seq<string>, usedVarNames: seq<string>): (r: string)
    ensures r == varName
  {
    varName
  }

  /** `get_global_unique_name_with_update` on the dictionary `m`: the new
      dictionary and the name handed out. */
  function UpdateStep(m: map<string, int>, name: string): (r: (map<string, int>, string))
    ensures r.0.Keys == m.Keys + {name}
    ensures forall k :: k in m && k != name ==> r.0[k] == m[k]
    ensures r.0[name] == (if name in m then m[name] + 1 else 0)
    ensures r.1 == S.Versioned(name, r.0[name])
  {
    if name !in m then (m[name := 0], S.Versioned(name, 0))
    else (m[name := m[name] + 1], S.Versioned(name, m[name] + 1))
  }

  /** `get_global_unique_name_with_idx` on the dictionary `m`. */
  function IdxStep(m: map<string, int>, name: string): (r: (map<string, int>, string))
    ensures r.0.Keys == m.Keys + {name}
    ensures forall k :: k in m ==> r.0[k] == m[k]
    ensures name !in m ==> r.0[name] == 0
    ensures r.1 == S.Versioned(name, r.0[name])
  {
    if name !in m then (m[name := 0], S.Versioned(name, 0))
    else (m, S.Versioned(name, m[name]))
  }

  /** A second `_with_idx` call for the same name returns the same string and
      leaves the dictionary as the first left it. */
  lemma IdxStepStable(m: map<string, int>, name: string)
    ensures IdxStep(IdxStep(m, name).0, name) == IdxStep(m, name)
  {
  }

  /** The names handed out by `_with_update` calls for `names`, in order, and
      the dictionary after them. */
  function UpdateRun(m: map<string, int>, names: seq<string>): (map<string, int>, seq<string>)
  {
    if names == [] then (m, [])
    else
      var prev := UpdateRun(m, names[..|names| - 1]);
      var step := UpdateStep(prev.0, names[|names| - 1]);
      (step.0, prev.1 + [step.1])
  }

  /** Every name handed out so far is its variable's name with the
      variable's current counter less the number of later calls for it. */
  ghost predicate Handed(names: seq<string>, counters: map<string, int>, handed: seq<string>)
  {
    |handed| == |names| &&
    forall i :: 0 <= i < |names| ==>
      names[i] in counters && handed[i] == S.Versioned(names[i], counters[names[i]] - Later(names, i))
  }

  lemma {:induction false} UpdateRunBound(m: map<string, int>, names: seq<string>)
    ensures Handed(names, UpdateRun(m, names).0, UpdateRun(m, names).1)
  {
    if names != [] {
      var init := names[..|names| - 1];
      UpdateRunBound(m, init);
      var prev := UpdateRun(m, init);
      HandedStep(names, prev.0, prev.1);
    }
  }

  lemma HandedStep(names: seq<string>, counters: map<string, int>, handed: seq<string>)
    requires names != [] && Handed(names[..|names| - 1], counters, handed)
    ensures var step := UpdateStep(counters, names[|names| - 1]);
            Handed(names, step.0, handed + [step.1])
  {
    var init := names[..|names| - 1];
    var n := names[|names| - 1];
    var step := UpdateStep(counters, n);
    var out := handed + [step.1];
    forall i | 0 <= i < |names|
      ensures names[i] in step.0
      ensures out[i] == S.Versioned(names[i], step.0[names[i]] - Later(names, i))
    {
      if i < |init| {
        assert names[i] == init[i];
        LaterSnoc(names, i);
        assert out[i] == handed[i];
      } else {
        assert Later(names, i) == 0 by { assert names[i + 1..] == []; }
      }
    }
  }

  /** How many later calls in `names` are for the same name as call `i`. */
  function Later(names: seq<string>, i: nat): nat
    requires i < |names|
  {
    Count(names[i], names[i + 1..])
  }

  lemma LaterSnoc(names: seq<string>, i: nat)
    requires i < |names| - 1
    ensures Later(names, i) == Later(names[..|names| - 1], i) + (if names[|names| - 1] == names[i] then 1 else 0)
  {
    var init := names[..|names| - 1];
    assert names[i + 1..] == init[i + 1..] + [names[|names| - 1]];
    CountAppend(names[i], init[i + 1..], [names[|names| - 1]]);
    assert Count(names[i], [names[|names| - 1]]) == (if names[|names| - 1] == names[i] then 1 else 0) by {
      assert [names[|names| - 1]][..0] == [];
    }
  }

  /** `_with_update` never hands out the same string twice in a run. */
  lemma UpdateRunDistinct(m: map<string, int>, names: seq<string>)
    ensures NoDuplicates(UpdateRun(m, names).1)
  {
    UpdateRunBound(m, names);
    var r := UpdateRun(m, names);
    forall i, j | 0 <= i < j < |r.1| ensures r.1[i] != r.1[j] {
      HandedApart(names, r.0, r.1, i, j);
    }
  }

  lemma HandedApart(names: seq<string>, counters: map<string, int>, handed: seq<string>, i: nat, j: nat)
    requires Handed(names, counters, handed) && i < j < |names|
    ensures handed[i] != handed[j]
  {
    var vi, vj := counters[names[i]] - Later(names, i), counters[names[j]] - Later(names, j);
    assert handed[i] == S.Versioned(names[i], vi);
    assert handed[j] == S.Versioned(names[j], vj);
    if handed[i] == handed[j] {
      S.VersionedInjective(names[i], vi, names[j], vj);
      LaterGreater(names, i, j);
    }
  }

  lemma LaterGreater(names: seq<string>, i: nat, j: nat)
    requires i < j < |names| && names[i] == names[j]
    ensures Later(names, i) > Later(names, j)
  {
    var tail := names[i + 1..];
    assert tail == names[i + 1..j] + names[j..];
    CountAppend(names[i], names[i + 1..j], names[j..]);
    assert names[j..] == [names[j]] + names[j + 1..];
    CountAppend(names[i], [names[j]], names[j + 1..]);
    assert Count(names[i], [names[j]]) == 1 by { assert [names[j]][..0] == []; }
  }

  /** The dictionary `used_var_names` the two counting functions update. */
  class UsedNames {
    var counters: map<string, int>

    constructor (counters: map<string, int>)
      ensures this.counters == counters
    {
      this.counters := counters;
    }

    /** `get_global_unique_name_with_update`. */
    method WithUpdate(varName: string) returns (unique: string)
      modifies this
      ensures (counters, unique) == UpdateStep(old(counters), varName)
    {
      if varName !in counters {
        counters := counters[varName := 0];
        return S.Versioned(varName, counters[varName]);
      }
      counters := counters[varName := counters[varName] + 1];
      return S.Versioned(varName, counters[varName]);
    }

    /** `get_global_unique_name_with_idx`. */
    method WithIdx(varName: string) returns (unique: string)
      modifies this
      ensures (counters, unique) == IdxStep(old(counters), varName)
    {
      if varName !in counters {
        counters := counters[varName := 0];
        return S.Versioned(varName, counters[varName]);
      }
      return S.Versioned(varName, counters[varName]);
    }
  }
}
