/**
 * The parsing core of the CodeComparator viewer
 * (CodeComparator/src/app/app.component.ts): a file holding Python code and
 * its ANF rendering with provenance annotations is split into the two codes,
 * and every ANF line into words, each paired with the Python source span it
 * came from. The token classifiers used for colouring are modelled too.
 */
module CodeComparator {
  import opened Common

  // ---------------------------------------------------------------------------
  // JavaScript strings and numbers

  /** The characters JavaScript's `String.prototype.trim` removes: white
      space and line terminators. */
  predicate IsJsSpace(c: char)
  {
    c == '\t' || c == '\U{0B}' || c == '\U{0C}' || c == ' ' || c == '\U{A0}' || c == '\U{FEFF}' ||
    c == '\n' || c == '\r' || c == '\U{2028}' || c == '\U{2029}' ||
    c == '\U{1680}' || ('\U{2000}' <= c <= '\U{200A}') || c == '\U{202F}' || c == '\U{205F}' || c == '\U{3000}'
  }

  function TrimStart(s: string): (r: string)
    ensures |r| <= |s| && r == s[|s| - |r|..]
    ensures r != [] ==> !IsJsSpace(r[0])
    ensures forall i :: 0 <= i < |s| - |r| ==> IsJsSpace(s[i])
  {
    if s != [] && IsJsSpace(s[0]) then TrimStart(s[1..]) else s
  }

  function TrimEnd(s: string): (r: string)
    ensures |r| <= |s| && r == s[..|r|]
    ensures r != [] ==> !IsJsSpace(r[|r| - 1])
    ensures forall i :: |r| <= i < |s| ==> IsJsSpace(s[i])
  {
    if s != [] && IsJsSpace(s[|s| - 1]) then TrimEnd(s[..|s| - 1]) else s
  }

  /** `s.trim()`: the text between the surrounding white space. */
  function Trim(s: string): (r: string)
    ensures r != [] ==> !IsJsSpace(r[0]) && !IsJsSpace(r[|r| - 1])
  {
    TrimEnd(TrimStart(s))
  }

  /** Text that neither starts nor ends with white space is its own trim. */
  lemma TrimUntouched(s: string)
    requires s != [] ==> !IsJsSpace(s[0]) && !IsJsSpace(s[|s| - 1])
    ensures Trim(s) == s
  {
  }

  /** A JavaScript number: a whole number or NaN. */
  datatype JsNumber = Finite(value: int) | NaN

  /** Unary `+` on a string: white space around a decimal numeral with an
      optional sign is ignored, an empty or all-white text is 0, anything
      else is NaN. */
  function ToNumber(s: string): JsNumber
  {
    var t := Trim(s);
    if t == "" then Finite(0)
    else if |t| > 1 && t[0] == '-' && AllDigits(t[1..]) then Finite(-(DigitsValue(t[1..]) as int))
    else if |t| > 1 && t[0] == '+' && AllDigits(t[1..]) then Finite(DigitsValue(t[1..]))
    else if AllDigits(t) then Finite(DigitsValue(t))
    else NaN
  }

  /** A printed number reads back as itself. */
  lemma ToNumberOfNatToString(n: nat)
    ensures ToNumber(NatToString(n)) == Finite(n)
  {
    var s := NatToString(n);
    TrimUntouched(s);
    DigitsValueOfNatToString(n);
  }

  /** Unary `+` of the element at `i`, NaN when there is none (`+undefined`). */
  function NumberAt(parts: seq<string>, i: nat): JsNumber
  {
    if i < |parts| then ToNumber(parts[i]) else NaN
  }

  // ---------------------------------------------------------------------------
  // Positions and words

  /** A span of the Python source: start line and column, end line and
      column. */
  datatype Position = Position(lineno: JsNumber, colOffset: JsNumber, endLineno: JsNumber, endColOffset: JsNumber)

  const ZeroPosition := Position(Finite(0), Finite(0), Finite(0), Finite(0))

  /**
   * The `Position` constructor: `"a:b,c:d"` gives the span a:b to c:d; a
   * missing or empty text gives the all-zero span; a text without a comma
   * fails, since the second border is undefined.
   */
  function ParsePosition(posString: Option<string>): Result<Position, string>
  {
    if posString.None? || posString.value == "" then Ok(ZeroPosition)
    else
      var borders := Split(posString.value, ",");
      if |borders| < 2 then Err("TypeError")
      else
        var start := Split(borders[0], ":");
        var end := Split(borders[1], ":");
        Ok(Position(NumberAt(start, 0), NumberAt(start, 1), NumberAt(end, 0), NumberAt(end, 1)))
  }

  /** Parsing fails exactly on a non-empty text without a comma; a missing
      or empty text is the zero span. */
  lemma ParsePositionOutcome(posString: Option<string>)
    ensures ParsePosition(posString).Err? <==> posString.Some? && posString.value != "" && !Contains(posString.value, ",")
    ensures (posString.None? || posString == Some("")) ==> ParsePosition(posString) == Ok(ZeroPosition)
  {
  }

  /** The provenance text of a span, as the ANF printer writes it. */
  function FormatPosition(lineno: nat, colOffset: nat, endLineno: nat, endColOffset: nat): string
  {
    NatToString(lineno) + ":" + NatToString(colOffset) + "," + NatToString(endLineno) + ":" + NatToString(endColOffset)
  }

  lemma NumeralLacks(n: nat, c: char)
    requires !IsDigit(c)
    ensures c !in NatToString(n)
  {
  }

  /** Splitting `a + sep + b` at a character in neither part gives the two
      parts. */
  lemma SplitPair(a: string, b: string, sep: char)
    requires sep !in a && sep !in b
    ensures Split(a + [sep] + b, [sep]) == [a, b]
  {
    assert [a, b][1..] == [b];
    assert Join([a, b], [sep]) == a + [sep] + b;
    SplitJoin([a, b], [sep]);
  }

  /** A text made of two borders `l:c,el:ec` parses to their four
      numbers. */
  lemma ParsePositionOfBorders(s: string, a: string, b: string, l: string, c: string, el: string, ec: string)
    requires s != "" && Split(s, ",") == [a, b] && Split(a, ":") == [l, c] && Split(b, ":") == [el, ec]
    ensures ParsePosition(Some(s)) == Ok(Position(ToNumber(l), ToNumber(c), ToNumber(el), ToNumber(ec)))
  {
  }

  /** A printed span parses back to the same span. */
  lemma PositionRoundTrip(lineno: nat, colOffset: nat, endLineno: nat, endColOffset: nat)
    ensures ParsePosition(Some(FormatPosition(lineno, colOffset, endLineno, endColOffset)))
         == Ok(Position(Finite(lineno), Finite(colOffset), Finite(endLineno), Finite(endColOffset)))
  {
    var l, c, el, ec := NatToString(lineno), NatToString(colOffset), NatToString(endLineno), NatToString(endColOffset);
    FormatBorders(lineno, colOffset, endLineno, endColOffset);
    ParsePositionOfBorders(FormatPosition(lineno, colOffset, endLineno, endColOffset), l + ":" + c, el + ":" + ec, l, c, el, ec);
    ToNumberOfNatToString(lineno);
    ToNumberOfNatToString(colOffset);
    ToNumberOfNatToString(endLineno);
    ToNumberOfNatToString(endColOffset);
  }

  /** How a printed span splits into borders and numerals. */
  lemma FormatBorders(lineno: nat, colOffset: nat, endLineno: nat, endColOffset: nat)
    ensures var l, c, el, ec := NatToString(lineno), NatToString(colOffset), NatToString(endLineno), NatToString(endColOffset);
            var f := FormatPosition(lineno, colOffset, endLineno, endColOffset);
            f != "" && Split(f, ",") == [l + ":" + c, el + ":" + ec] &&
            Split(l + ":" + c, ":") == [l, c] && Split(el + ":" + ec, ":") == [el, ec]
  {
    NumeralLacks(lineno, ':');
    NumeralLacks(colOffset, ':');
    NumeralLacks(endLineno, ':');
    NumeralLacks(endColOffset, ':');
    NumeralLacks(lineno, ',');
    NumeralLacks(colOffset, ',');
    NumeralLacks(endLineno, ',');
    NumeralLacks(endColOffset, ',');
    SplitBorders(NatToString(lineno), NatToString(colOffset), NatToString(endLineno), NatToString(endColOffset));
  }

  lemma SplitBorders(l: string, c: string, el: string, ec: string)
    requires ':' !in l && ':' !in c && ':' !in el && ':' !in ec
    requires ',' !in l && ',' !in c && ',' !in el && ',' !in ec
    ensures Split(l + ":" + c + "," + el + ":" + ec, ",") == [l + ":" + c, el + ":" + ec]
    ensures Split(l + ":" + c, ":") == [l, c] && Split(el + ":" + ec, ":") == [el, ec]
  {
    var a, b := l + ":" + c, el + ":" + ec;
    assert a == l + [':'] + c && b == el + [':'] + ec;
    SplitPair(l, c, ':');
    SplitPair(el, ec, ':');
    assert l + ":" + c + "," + el + ":" + ec == a + [','] + b;
    SplitPair(a, b, ',');
  }

  /** A displayed word and its span; the span is undefined (`None`) for a
      word beyond the last provenance entry of its line. */
  datatype Word = Word(text: string, pos: Option<Position>)

  // ---------------------------------------------------------------------------
  // One ANF line

  const FileSeparator := "\r\n##########\r\n"
  const Nbsp := "&nbsp;"

  /** The leading spaces of a line (`line.match('^ *')`). */
  function SpacePrefix(line: string): (r: nat)
    ensures r <= |line| && forall i :: 0 <= i < r ==> line[i] == ' '
    ensures r < |line| ==> line[r] != ' '
  {
    if line != [] && line[0] == ' ' then 1 + SpacePrefix(line[1..]) else 0
  }

  /** `line.match('^( )*#.*')`: spaces, then a `#`. */
  predicate IsCommentText(line: string)
  {
    SpacePrefix(line) < |line| && line[SpacePrefix(line)] == '#'
  }

  /** `line.substring(0, line.lastIndexOf('--'))`: the text before the last
      `--`, nothing when there is none (`substring(0, -1)`). */
  function CommentText(line: string): string
  {
    match LastIndexOf(line, "--")
    case None => ""
    case Some(i) => line[..i]
  }

  /** The span of one `|`-separated provenance entry: the text after its
      first `;`, or zero when it has none. */
  function EntryPosition(entry: string): Result<Position, string>
  {
    var parts := Split(entry, ";");
    if |parts| > 1 then ParsePosition(Some(parts[1])) else Ok(ZeroPosition)
  }

  /** The outcome of each entry. */
  function EntryResults(entries: seq<string>): (r: seq<Result<Position, string>>)
    ensures |r| == |entries| && forall i :: 0 <= i < |entries| ==> r[i] == EntryPosition(entries[i])
  {
    seq(|entries|, i requires 0 <= i < |entries| => EntryPosition(entries[i]))
  }

  /** The values of a run of outcomes, or the first error among them. */
  function AllOk<T>(rs: seq<Result<T, string>>): Result<seq<T>, string>
  {
    if rs == [] then Ok([])
    else
      match AllOk(rs[..|rs| - 1])
      case Err(e) => Err(e)
      case Ok(vs) =>
        match rs[|rs| - 1]
        case Err(e) => Err(e)
        case Ok(v) => Ok(vs + [v])
  }

  /** Without an error, value i is outcome i; with one, it is the first
      error of the run. */
  lemma {:induction false} AllOkEach<T>(rs: seq<Result<T, string>>)
    ensures var r := AllOk(rs);
            (r.Ok? ==> |r.value| == |rs| && forall i :: 0 <= i < |rs| ==> rs[i] == Ok(r.value[i])) &&
            (r.Err? ==> exists i :: 0 <= i < |rs| && rs[i] == Err(r.error) && forall k :: 0 <= k < i ==> rs[k].Ok?)
  {
    if rs != [] {
      var init := rs[..|rs| - 1];
      AllOkEach(init);
      var prev := AllOk(init);
      if prev.Err? {
        var i :| 0 <= i < |init| && init[i] == Err(prev.error) && forall k :: 0 <= k < i ==> init[k].Ok?;
        assert rs[i] == init[i];
        assert forall k :: 0 <= k < i ==> rs[k] == init[k];
      } else if rs[|rs| - 1].Ok? {
        var vs := prev.value + [rs[|rs| - 1].value];
        assert AllOk(rs) == Ok(vs);
        forall i | 0 <= i < |rs| ensures rs[i] == Ok(vs[i]) {
          if i < |init| {
            assert rs[i] == init[i];
          }
        }
      } else {
        assert forall k :: 0 <= k < |init| ==> rs[k] == init[k];
      }
    }
  }

  lemma {:induction false} AllOkErrPersists<T>(rs: seq<Result<T, string>>, k: nat)
    requires k <= |rs| && AllOk(rs[..k]).Err?
    ensures AllOk(rs) == AllOk(rs[..k])
    decreases |rs| - k
  {
    if k < |rs| {
      assert rs[..k + 1][..k] == rs[..k];
      AllOkErrPersists(rs, k + 1);
    } else {
      assert rs[..k] == rs;
    }
  }

  lemma AllOkSnoc<T>(rs: seq<Result<T, string>>, k: nat, vs: seq<T>)
    requires k < |rs| && AllOk(rs[..k]) == Ok(vs)
    ensures AllOk(rs[..k + 1]) == match rs[k] case Err(e) => Err(e) case Ok(v) => Ok(vs + [v])
  {
    assert rs[..k + 1][..k] == rs[..k];
  }

  lemma CollectSnoc<T>(rs: seq<Result<T, string>>, k: nat)
    requires k < |rs| && Collect(rs[..k]).1.None?
    ensures Collect(rs[..k + 1]) == match rs[k] case Err(e) => (Collect(rs[..k]).0, Some(e)) case Ok(v) => (Collect(rs[..k]).0 + [v], None)
  {
    assert rs[..k + 1][..k] == rs[..k];
  }

  /** The spans of the entries, failing at the first that fails. */
  function EntryPositions(entries: seq<string>): Result<seq<Position>, string>
  {
    AllOk(EntryResults(entries))
  }

  /** The i-th word paired with the i-th span, and with none past the last. */
  function Paired(words: seq<string>, positions: seq<Position>): (r: seq<Word>)
    ensures |r| == |words|
    ensures forall i :: 0 <= i < |words| ==> r[i] == Word(words[i], if i < |positions| then Some(positions[i]) else None)
  {
    seq(|words|, i requires 0 <= i < |words| => Word(words[i], if i < |positions| then Some(positions[i]) else None))
  }

  /** The word for a line's indentation, if it has any. */
  function IndentWords(line: string): seq<Word>
  {
    if SpacePrefix(line) > 0 then [Word(Repeat(Nbsp, SpacePrefix(line)), Some(ZeroPosition))] else []
  }

  /** The words of one ANF line, or the error that parsing it raises. */
  function LineWords(line: string): Result<seq<Word>, string>
  {
    if IsCommentText(line) then Ok([Word(CommentText(line), Some(ZeroPosition))])
    else
      var pieces := Split(Trim(line), "--");
      if |pieces| < 2 then Err("TypeError")
      else
        var words := Split(Trim(pieces[0]), " ");
        match EntryPositions(Split(pieces[1], "|"))
        case Err(e) => Err(e)
        case Ok(positions) => Ok(IndentWords(line) + Paired(words, positions))
  }

  /** A comment line gives one word with the zero span: the line up to its
      last `--`, or nothing when it has no `--`. */
  lemma CommentLineWord(line: string)
    requires IsCommentText(line)
    ensures LineWords(line).Ok? && |LineWords(line).value| == 1
    ensures var w := LineWords(line).value[0];
            w.pos == Some(ZeroPosition) && StartsWith(line, w.text) &&
            (Contains(line, "--") ==>
               StartsWith(line[|w.text|..], "--") && !Contains(line[|w.text| + 1..], "--")) &&
            (!Contains(line, "--") ==> w.text == "")
  {
    var w := LineWords(line).value[0];
    match LastIndexOf(line, "--")
    case None =>
    case Some(i) =>
      assert w.text == line[..i];
      var rest := line[i + 1..];
      forall j: nat | OccursAt(rest, "--", j) ensures false {
        assert rest[j..j + 2] == line[i + 1 + j..i + 1 + j + 2];
        assert OccursAt(line, "--", i + 1 + j);
      }
  }

  /** A line that is not a comment and has no `--` fails: its provenance
      entry is undefined. */
  lemma MissingInfoFails(line: string)
    requires !IsCommentText(line) && !Contains(Trim(line), "--")
    ensures LineWords(line) == Err("TypeError")
  {
  }

  /** The pieces of a code line that parses: its trimmed text has a `--`,
      the entries after it all parse, and the words are the indentation word
      and the code words paired with the spans. */
  lemma CodeLineShape(line: string)
    requires !IsCommentText(line) && LineWords(line).Ok?
    ensures var pieces := Split(Trim(line), "--");
            |pieces| >= 2 && EntryPositions(Split(pieces[1], "|")).Ok? &&
            LineWords(line).value == IndentWords(line) + Paired(Split(Trim(pieces[0]), " "), EntryPositions(Split(pieces[1], "|")).value)
  {
  }

  /**
   * A code line gives its indentation word first, when it is indented, then
   * its code words, which hold no space and join with spaces back into the
   * trimmed code before the first `--`.
   */
  lemma CodeLineTexts(line: string)
    requires !IsCommentText(line) && LineWords(line).Ok?
    ensures var t := Trim(line);
            var ws := LineWords(line).value;
            var indent := SpacePrefix(line);
            var off := if indent > 0 then 1 else 0;
            IndexOf(t, "--").Some? && off <= |ws| &&
            (indent > 0 ==> ws[0] == Word(Repeat(Nbsp, indent), Some(ZeroPosition))) &&
            (forall i :: off <= i < |ws| ==> " "[0] !in ws[i].text) &&
            Join(Texts(ws[off..]), " ") == Trim(t[..IndexOf(t, "--").value])
  {
    CodeLineShape(line);
    var t := Trim(line);
    var pieces := Split(t, "--");
    var code := Trim(pieces[0]);
    var words := Split(code, " ");
    var ws := LineWords(line).value;
    var off := if SpacePrefix(line) > 0 then 1 else 0;
    var positions := EntryPositions(Split(pieces[1], "|")).value;
    assert pieces[0] == t[..IndexOf(t, "--").value];
    IndentThenPaired(line, ws, words, positions);
    SpaceFreeWords(code);
    PairedTexts(ws, off, words, positions);
  }

  /** The texts after the indentation word are the code words. */
  lemma PairedTexts(ws: seq<Word>, off: nat, words: seq<string>, positions: seq<Position>)
    requires off <= |ws| && ws[off..] == Paired(words, positions)
    requires forall w :: w in words ==> ' ' !in w
    ensures Texts(ws[off..]) == words
    ensures forall i :: off <= i < |ws| ==> " "[0] !in ws[i].text
  {
    TailWords(ws, off, words, positions);
    forall i | off <= i < |ws| ensures " "[0] !in ws[i].text {
      assert words[i - off] in words;
    }
  }

  lemma IndentThenPaired(line: string, ws: seq<Word>, words: seq<string>, positions: seq<Position>)
    requires ws == IndentWords(line) + Paired(words, positions)
    ensures var off := if SpacePrefix(line) > 0 then 1 else 0;
            off <= |ws| && ws[off..] == Paired(words, positions)
  {
    var off := if SpacePrefix(line) > 0 then 1 else 0;
    assert |IndentWords(line)| == off;
  }

  /** Reading the words after the indentation word one by one. */
  lemma TailWords(ws: seq<Word>, off: nat, words: seq<string>, positions: seq<Position>)
    requires off <= |ws| && ws[off..] == Paired(words, positions)
    ensures |ws| == off + |words|
    ensures forall i :: off <= i < |ws| ==> ws[i] == Word(words[i - off], if i - off < |positions| then Some(positions[i - off]) else None)
  {
    forall i | off <= i < |ws|
      ensures ws[i] == Word(words[i - off], if i - off < |positions| then Some(positions[i - off]) else None)
    {
      assert ws[i] == ws[off..][i - off];
    }
  }

  /** The words of a text split at spaces hold no space and join back into
      the text. */
  lemma SpaceFreeWords(code: string)
    ensures forall w :: w in Split(code, " ") ==> ' ' !in w
    ensures Join(Split(code, " "), " ") == code
  {
    JoinSplit(code, " ");
    SplitPiecesFree(code, " ");
    forall w | w in Split(code, " ") ensures ' ' !in w {
      if ' ' in w {
        var k :| 0 <= k < |w| && w[k] == ' ';
        CharOccurs(w, ' ', k);
      }
    }
  }

  lemma CharOccurs(s: string, c: char, k: nat)
    requires k < |s| && s[k] == c
    ensures Contains(s, [c])
  {
    assert s[k..k + 1] == [c];
    assert OccursAt(s, [c], k);
  }

  /** The i-th code word of a line carries the i-th of the spans its
      provenance entries parse to (`AllOkEach`: span i is what entry i
      parses to), and none when the line has fewer entries than words. */
  lemma CodeLinePositions(line: string, ws: seq<Word>)
    requires !IsCommentText(line) && LineWords(line) == Ok(ws)
    ensures var pieces := Split(Trim(line), "--");
            var off := if SpacePrefix(line) > 0 then 1 else 0;
            |pieces| >= 2 && EntryPositions(Split(pieces[1], "|")).Ok? && off <= |ws| &&
            Spans(ws[off..]) == Padded(EntryPositions(Split(pieces[1], "|")).value, |ws| - off)
  {
    CodeLineShape(line);
    var pieces := Split(Trim(line), "--");
    SpansAfterIndent(line, ws, Split(Trim(pieces[0]), " "), EntryPositions(Split(pieces[1], "|")).value);
  }

  lemma SpansAfterIndent(line: string, ws: seq<Word>, words: seq<string>, positions: seq<Position>)
    requires ws == IndentWords(line) + Paired(words, positions)
    ensures var off := if SpacePrefix(line) > 0 then 1 else 0;
            off <= |ws| && Spans(ws[off..]) == Padded(positions, |ws| - off)
  {
    IndentThenPaired(line, ws, words, positions);
    PairedSpans(words, positions);
  }

  /** The spans of some words. */
  function Spans(ws: seq<Word>): (r: seq<Option<Position>>)
    ensures |r| == |ws| && forall i :: 0 <= i < |ws| ==> r[i] == ws[i].pos
  {
    seq(|ws|, i requires 0 <= i < |ws| => ws[i].pos)
  }

  /** The first `n` spans, undefined past the last one. */
  function Padded(positions: seq<Position>, n: nat): (r: seq<Option<Position>>)
    ensures |r| == n && forall i :: 0 <= i < n ==> r[i] == (if i < |positions| then Some(positions[i]) else None)
  {
    seq(n, i requires 0 <= i < n => if i < |positions| then Some(positions[i]) else None)
  }

  lemma PairedSpans(words: seq<string>, positions: seq<Position>)
    ensures Spans(Paired(words, positions)) == Padded(positions, |words|)
  {
  }

  /** The texts of some words. */
  function Texts(ws: seq<Word>): (r: seq<string>)
    ensures |r| == |ws| && forall i :: 0 <= i < |ws| ==> r[i] == ws[i].text
  {
    seq(|ws|, i requires 0 <= i < |ws| => ws[i].text)
  }

  // ---------------------------------------------------------------------------
  // The whole file

  /** The values of a run of outcomes up to the first error, and that error. */
  function Collect<T>(rs: seq<Result<T, string>>): (seq<T>, Option<string>)
  {
    if rs == [] then ([], None)
    else
      var prev := Collect(rs[..|rs| - 1]);
      if prev.1.Some? then prev
      else match rs[|rs| - 1]
        case Err(e) => (prev.0, Some(e))
        case Ok(v) => (prev.0 + [v], None)
  }

  lemma {:induction false} CollectErrPersists<T>(rs: seq<Result<T, string>>, k: nat)
    requires k <= |rs| && Collect(rs[..k]).1.Some?
    ensures Collect(rs) == Collect(rs[..k])
    decreases |rs| - k
  {
    if k < |rs| {
      assert rs[..k + 1][..k] == rs[..k];
      CollectErrPersists(rs, k + 1);
    } else {
      assert rs[..k] == rs;
    }
  }

  /** Value i is outcome i for every outcome before the first error; without
      an error there is a value for every outcome, and with one the values
      stop at it. */
  lemma {:induction false} CollectEach<T>(rs: seq<Result<T, string>>)
    ensures var r := Collect(rs);
            |r.0| <= |rs| &&
            (forall i :: 0 <= i < |r.0| ==> rs[i] == Ok(r.0[i])) &&
            (r.1.None? ==> |r.0| == |rs|) &&
            (r.1.Some? ==> |r.0| < |rs| && rs[|r.0|] == Err(r.1.value))
  {
    if rs != [] {
      var init := rs[..|rs| - 1];
      CollectEach(init);
      var prev := Collect(init);
      forall i | 0 <= i < |prev.0| ensures rs[i] == init[i] { }
      if prev.1.Some? {
        assert rs[|prev.0|] == init[|prev.0|];
      }
    }
  }

  /** The outcome of each line. */
  function LineResults(lines: seq<string>): (r: seq<Result<seq<Word>, string>>)
    ensures |r| == |lines| && forall i :: 0 <= i < |lines| ==> r[i] == LineWords(lines[i])
  {
    seq(|lines|, i requires 0 <= i < |lines| => LineWords(lines[i]))
  }

  /** The word lists of the lines, in order, up to the first line that fails,
      and that line's error. */
  function CollectWords(lines: seq<string>): (seq<seq<Word>>, Option<string>)
  {
    Collect(LineResults(lines))
  }

  /**
   * One word list per line: list i is the words of line i for every line
   * before the first that fails; without a failure there is a list for every
   * line, and with one the lists stop at that line.
   */
  lemma CollectWordsOnePerLine(lines: seq<string>)
    ensures var r := CollectWords(lines);
            |r.0| <= |lines| &&
            (forall i :: 0 <= i < |r.0| ==> LineWords(lines[i]) == Ok(r.0[i])) &&
            (r.1.None? ==> |r.0| == |lines|) &&
            (r.1.Some? ==> |r.0| < |lines| && LineWords(lines[|r.0|]) == Err(r.1.value))
  {
    CollectEach(LineResults(lines));
  }

  /** The component's parsed state. */
  class AppComponent {
    var pyCode: string
    var pyCodeLines: seq<string>
    /** `None` when the file has no ANF part (the field is then undefined). */
    var anfCode: Option<string>
    var anfCodeLines: seq<string>
    var wordCollection: seq<seq<Word>>

    constructor ()
      ensures pyCode == "" && pyCodeLines == [] && anfCode == Some("") && anfCodeLines == [] && wordCollection == []
    {
      pyCode := "";
      pyCodeLines := [];
      anfCode := Some("");
      anfCodeLines := [];
      wordCollection := [];
    }

    /**
     * `parseFile`: the Python part and the ANF part of the file, each split
     * into lines, and the words of every ANF line. A missing ANF part leaves
     * `anfCode` undefined and fails before `anfCodeLines` and `wordCollection`
     * change; a line that fails stops the parse with the lines before it
     * collected.
     */
    method ParseFile(code: string) returns (failure: Option<string>)
      modifies this
      ensures var parts := Split(code, FileSeparator);
              pyCode == parts[0] && pyCodeLines == Split(parts[0], "\n") &&
              (|parts| < 2 ==>
                 anfCode == None && anfCodeLines == old(anfCodeLines) &&
                 wordCollection == old(wordCollection) && failure == Some("TypeError")) &&
              (|parts| >= 2 ==>
                 anfCode == Some(parts[1]) && anfCodeLines == Split(parts[1], "\n") &&
                 (wordCollection, failure) == CollectWords(anfCodeLines))
    {
      var fileParts := Split(code, FileSeparator);
      pyCode := fileParts[0];
      pyCodeLines := Split(pyCode, "\n");
      if |fileParts| < 2 {
        anfCode := None;
        return Some("TypeError");
      }
      anfCode := Some(fileParts[1]);
      anfCodeLines := Split(fileParts[1], "\n");
      wordCollection := [];
      var lines := anfCodeLines;
      ghost var rs := LineResults(lines);
      var i := 0;
      while i < |lines|
        invariant 0 <= i <= |lines|
        invariant lines == anfCodeLines && pyCode == fileParts[0] && pyCodeLines == Split(fileParts[0], "\n")
        invariant anfCode == Some(fileParts[1]) && lines == Split(fileParts[1], "\n")
        invariant (wordCollection, None) == Collect(rs[..i])
      {
        var r := ParseLine(lines[i]);
        CollectSnoc(rs, i);
        if r.Err? {
          CollectErrPersists(rs, i + 1);
          return Some(r.error);
        }
        wordCollection := wordCollection + [r.value];
        i := i + 1;
      }
      assert rs[..i] == rs;
      return None;
    }
  }

  /** The body of `parseFile`'s loop for one line. */
  method ParseLine(line: string) returns (r: Result<seq<Word>, string>)
    ensures r == LineWords(line)
  {
    if IsCommentText(line) {
      var comm := CommentText(line);
      return Ok([Word(comm, Some(ZeroPosition))]);
    }
    var wordsBuffer: seq<Word> := [];
    var indentation := SpacePrefix(line);
    if indentation > 0 {
      wordsBuffer := wordsBuffer + [Word(Repeat(Nbsp, indentation), Some(ZeroPosition))];
    }
    var pieces := Split(Trim(line), "--");
    if |pieces| < 2 {
      return Err("TypeError");
    }
    var info := pieces[1];
    var words := Split(Trim(pieces[0]), " ");
    var positions := ParseEntries(Split(info, "|"));
    if positions.Err? {
      return Err(positions.error);
    }
    assert wordsBuffer == IndentWords(line);
    wordsBuffer := PushWords(wordsBuffer, words, positions.value);
    return Ok(wordsBuffer);
  }

  /** The loop over the provenance entries of a line. */
  method ParseEntries(infoParts: seq<string>) returns (r: Result<seq<Position>, string>)
    ensures r == EntryPositions(infoParts)
  {
    ghost var rs := EntryResults(infoParts);
    var positions: seq<Position> := [];
    var k := 0;
    while k < |infoParts|
      invariant 0 <= k <= |infoParts|
      invariant AllOk(rs[..k]) == Ok(positions)
    {
      AllOkSnoc(rs, k, positions);
      var parts := Split(infoParts[k], ";");
      if |parts| > 1 {
        var p := ParsePosition(Some(parts[1]));
        assert rs[k] == p;
        if p.Err? {
          AllOkErrPersists(rs, k + 1);
          return Err(p.error);
        }
        positions := positions + [p.value];
      } else {
        assert rs[k] == Ok(ZeroPosition);
        positions := positions + [ZeroPosition];
      }
      k := k + 1;
    }
    assert rs[..k] == rs;
    return Ok(positions);
  }

  /** The loop pushing each code word with its span. */
  method PushWords(wordsBuffer: seq<Word>, words: seq<string>, positions: seq<Position>) returns (r: seq<Word>)
    ensures r == wordsBuffer + Paired(words, positions)
  {
    r := wordsBuffer;
    var i := 0;
    while i < |words|
      invariant 0 <= i <= |words|
      invariant r == wordsBuffer + Paired(words[..i], positions)
    {
      assert Paired(words[..i + 1], positions) == Paired(words[..i], positions) + [Word(words[i], if i < |positions| then Some(positions[i]) else None)];
      r := r + [Word(words[i], if i < |positions| then Some(positions[i]) else None)];
      i := i + 1;
    }
    assert words[..i] == words;
  }

  // ---------------------------------------------------------------------------
  // Token classifiers

  const Keywords: seq<string> := ["let", "letrec", "=", "in", "if", "else", "then"]

  /** `isKeyWord`. */
  predicate IsKeyWord(w: Word)
  {
    w.text in Keywords
  }

  /** `isFunCall`: starts with `_`, not with `_SSA`, and is not `_` alone. */
  predicate IsFunCall(w: Word)
  {
    StartsWith(w.text, "_") && !StartsWith(w.text, "_SSA") && w.text != "_"
  }

  /** `isBlockLabel`: an `L` followed by a digit somewhere in the text. */
  predicate IsBlockLabel(w: Word)
  {
    exists i :: 0 <= i < |w.text| - 1 && w.text[i] == 'L' && IsDigit(w.text[i + 1])
  }

  /** `isBufferVariable`: starts with `%`. */
  predicate IsBufferVariable(w: Word)
  {
    StartsWith(w.text, "%")
  }

  /** `isConstant`: starts with a digit, or is `True` or `False`. */
  predicate IsConstant(w: Word)
  {
    (|w.text| > 0 && IsDigit(w.text[0])) || w.text == "True" || w.text == "False"
  }

  /** `isComment`: spaces, then a `#`. */
  predicate IsComment(w: Word)
  {
    IsCommentText(w.text)
  }

  /** A JavaScript regular-expression line terminator, which `.` does not
      match. */
  predicate IsLineTerminator(c: char)
  {
    c == '\n' || c == '\r' || c == '\U{2028}' || c == '\U{2029}'
  }

  /** `isString`: two single quotes with no line break between them. */
  predicate IsString(w: Word)
  {
    exists i, j :: 0 <= i < j < |w.text| && w.text[i] == '\'' && w.text[j] == '\'' &&
      forall k :: i < k < j ==> !IsLineTerminator(w.text[k])
  }

  /** The keyword test is membership in the fixed list, and a keyword is
      neither a call, a buffer, a constant nor a block label. */
  lemma KeywordsAreOnlyKeywords(w: Word)
    requires IsKeyWord(w)
    ensures !IsFunCall(w) && !IsBufferVariable(w) && !IsConstant(w) && !IsBlockLabel(w)
  {
    var t := w.text;
    assert |t| > 0 && t[0] in "l=iet";
    assert forall k :: 0 <= k < |t| ==> t[k] != 'L';
  }

  /** A call is neither a buffer nor a constant; versioned SSA names and the
      lone `_` are not calls. */
  lemma CallsAreNotValues(w: Word, name: string)
    ensures IsFunCall(w) ==> !IsBufferVariable(w) && !IsConstant(w)
    ensures !IsFunCall(Word("_SSA" + name, w.pos)) && !IsFunCall(Word("_", w.pos))
    ensures IsFunCall(w) <==> |w.text| >= 2 && w.text[0] == '_' && !StartsWith(w.text, "_SSA")
  {
    assert StartsWith("_SSA" + name, "_SSA");
  }

  /** A block label `L<n>` is classified as one, a printed number as a
      constant, and a quoted literal without line breaks as a string. */
  lemma LiteralsClassified(n: nat, x: string, p: Option<Position>)
    requires '\'' !in x && forall k :: 0 <= k < |x| ==> !IsLineTerminator(x[k])
    ensures IsBlockLabel(Word("L" + NatToString(n), p))
    ensures IsConstant(Word(NatToString(n), p)) && !IsFunCall(Word(NatToString(n), p))
    ensures IsString(Word("'" + x + "'", p))
  {
    var t := "L" + NatToString(n);
    assert t[0] == 'L' && IsDigit(t[1]);
    var q := "'" + x + "'";
    assert q[0] == '\'' && q[|q| - 1] == '\'';
    assert forall k :: 0 < k < |q| - 1 ==> q[k] == x[k - 1];
  }
}
