/** The classifier and the validator stay in step, so translated subtitles are valid again. */
module SubtitleSimulation {
  import opened Texts
  import opened Strings
  import opened Subtitles

  /** Where the two machines can be at the same time: between blocks, behind an identifier, in a
      metadata block, or in the text of a cue or header. */
  predicate InStep(r: Reader, v: Check) {
    || (r == START && v.cueStart && !v.expecting && !v.metadata)
    || (r == Reader(false, true, false) && v.cueStart && v.expecting && !v.metadata)
    || (r.metadata && v.metadata)
    || InText(r, v)
  }

  predicate InText(r: Reader, v: Check) {
    !r.cueStart && !v.cueStart && !v.expecting && !v.metadata
  }

  /** A line is read as a header although the validator waits for the time line of an identifier. */
  predicate SkipsTime(v: Check, line: string, format: Format) {
    line != "" && IsHeader(line, format) && v.expecting && v.cues == 0 && !v.metadata
  }

  predicate EverSkips(lines: seq<string>, v: Check, format: Format) {
    lines != [] &&
    match Validate(v, lines[0], format)
    case None => false
    case Some(next) => SkipsTime(v, lines[0], format) || EverSkips(lines[1..], next, format)
  }

  /** The flag for text does not matter before the first cue. */
  predicate SameCheck(v: Check, w: Check) {
    w == v || (v.cues == 0 && w == v.(hasText := w.hasText))
  }

  lemma StepStaysInStep(r: Reader, v: Check, w: Check, line: string, other: string, first: bool, format: Format)
    requires InStep(r, v) && SameCheck(v, w) && Validate(v, line, format).Some? && !SkipsTime(v, line, format)
    requires if Structural(r, line, first, format) then other == line else other != ""
    ensures InStep(Read(r, line, format), Validate(v, line, format).value)
    ensures Validate(w, other, format).Some?
    ensures SameCheck(Validate(v, line, format).value, Validate(w, other, format).value)
  {
    hide IsTimeLine, AllDigits;
  }

  function Replace(lines: seq<string>, kinds: seq<bool>, replacements: seq<string>): (r: seq<string>)
    requires |lines| == |kinds| == |replacements|
    ensures |r| == |lines|
  {
    seq(|lines|, k requires 0 <= k < |lines| => if kinds[k] then lines[k] else replacements[k])
  }

  lemma ReplaceSplits(lines: seq<string>, kinds: seq<bool>, replacements: seq<string>)
    requires |lines| == |kinds| == |replacements| > 0
    ensures Replace(lines, kinds, replacements) ==
              [if kinds[0] then lines[0] else replacements[0]] + Replace(lines[1..], kinds[1..], replacements[1..])
  {
  }

  lemma {:induction false} StaysValid(lines: seq<string>, r: Reader, v: Check, w: Check, first: bool, format: Format,
                                      replacements: seq<string>)
    requires InStep(r, v) && SameCheck(v, w) && ValidFrom(lines, v, format) && !EverSkips(lines, v, format)
    requires |replacements| == |lines| && forall k | 0 <= k < |lines| :: replacements[k] != ""
    ensures ValidFrom(Replace(lines, Kinds(lines, r, first, format), replacements), w, format)
  {
    hide Structural, Read, Validate, InStep, SkipsTime;
    if lines != [] {
      var kinds := Kinds(lines, r, first, format);
      var other := if kinds[0] then lines[0] else replacements[0];
      StepStaysInStep(r, v, w, lines[0], other, first, format);
      ReplaceSplits(lines, kinds, replacements);
      StaysValid(lines[1..], Read(r, lines[0], format), Validate(v, lines[0], format).value,
                 Validate(w, other, format).value, false, format, replacements[1..]);
      assert kinds[1..] == Kinds(lines[1..], Read(r, lines[0], format), false, format);
      assert Replace(lines, kinds, replacements)[1..] == Replace(lines[1..], kinds[1..], replacements[1..]);
    }
  }

  /** Behind a skipped time line the classifier offers the next line for translation, and the validator
      accepts nothing but a time line there. */
  lemma SkippedTimeBreaks(lines: seq<string>, r: Reader, v: Check, w: Check, first: bool, format: Format)
    requires |lines| > 0 && InStep(r, v) && SameCheck(v, w) && ValidFrom(lines, v, format)
    requires SkipsTime(v, lines[0], format)
    ensures !ValidFrom(Replace(lines, Kinds(lines, r, first, format), seq(|lines|, k => "x")), w, format)
  {
    hide Kinds, IsTimeLine;
    var xs := seq(|lines|, k => "x");
    var kinds := Kinds(lines, r, first, format);
    var after := Replace(lines, kinds, xs);
    KindsSplit(lines, r, first, format);
    MetadataIsNoTime(format);
    assert r == Reader(false, true, false);
    assert kinds[0] && after[0] == lines[0];
    var r1, v1 := Read(r, lines[0], format), Validate(v, lines[0], format).value;
    assert r1 == Reader(false, false, false) && v1.expecting && !v1.cueStart && !v1.metadata && v1.cues == 0;
    BreaksNext(lines[1..], r1, v1, Validate(w, lines[0], format).value, format);
    assert after[1..] == Replace(lines[1..], kinds[1..], seq(|lines| - 1, k => "x"));
  }

  lemma BreaksNext(lines: seq<string>, r: Reader, v: Check, w: Check, format: Format)
    requires ValidFrom(lines, v, format) && SameCheck(v, w) && format.WebVtt?
    requires r == Reader(false, false, false) && v.expecting && !v.cueStart && !v.metadata && v.cues == 0
    ensures !ValidFrom(Replace(lines, Kinds(lines, r, false, format), seq(|lines|, k => "x")), w, format)
  {
    hide IsTimeLine, Kinds;
    NoTimeLine(format);
    KindsSplit(lines, r, false, format);
    assert lines != [] && lines[0] != "";
    assert IsTimeLine(lines[0], format) || IsHeader(lines[0], format);
    MetadataIsNoTime(format);
    assert !Kinds(lines, r, false, format)[0];
  }

  lemma NoTimeLine(format: Format)
    ensures !IsTimeLine("x", format)
  {
  }

  lemma ArrowHasTip(line: string, at: nat)
    requires Matches(line, "-->", at)
    ensures '>' in line
  {
    assert line[at + 2] == line[at..at + 3][2];
  }

  lemma MetadataIsNoTime(format: Format)
    ensures forall line | IsMetadata(line, format) :: !IsTimeLine(line, format) && !IsHeader(line, format)
  {
    hide IsTimestamp;
    forall line | IsMetadata(line, format)
      ensures !IsTimeLine(line, format) && !IsHeader(line, format)
    {
      assert '>' !in line;
      if Find(line, "-->", 0).Some? {
        ArrowHasTip(line, Find(line, "-->", 0).value);
      }
      assert |line| >= 6 ==> line[..6][0] == line[0];
    }
  }

  lemma {:induction false} EverSkippedBreaks(lines: seq<string>, r: Reader, v: Check, w: Check, first: bool, format: Format)
    requires InStep(r, v) && SameCheck(v, w) && ValidFrom(lines, v, format) && EverSkips(lines, v, format)
    ensures !ValidFrom(Replace(lines, Kinds(lines, r, first, format), seq(|lines|, k => "x")), w, format)
  {
    hide Structural, Read, Validate, InStep, SkipsTime;
    if SkipsTime(v, lines[0], format) {
      SkippedTimeBreaks(lines, r, v, w, first, format);
    } else {
      var xs, kinds := seq(|lines|, k => "x"), Kinds(lines, r, first, format);
      var other := if kinds[0] then lines[0] else xs[0];
      StepStaysInStep(r, v, w, lines[0], other, first, format);
      EverSkippedBreaks(lines[1..], Read(r, lines[0], format), Validate(v, lines[0], format).value,
                        Validate(w, other, format).value, false, format);
      assert xs[1..] == seq(|lines| - 1, k => "x");
      assert kinds[1..] == Kinds(lines[1..], Read(r, lines[0], format), false, format);
      assert Replace(lines, kinds, xs)[1..] == Replace(lines[1..], kinds[1..], xs[1..]);
    }
  }

  // From lines to the text

  /** What splitting a text gives: no line feed inside a line, and a last line only when it holds text. */
  predicate AreLines(lines: seq<Line>) {
    lines != [] ==>
      && '\n' !in lines[0].text
      && (lines[0].ending == "\n" || lines[0].ending == "\r\n" ||
          (lines[0].ending == "" && |lines| == 1 && lines[0].text != ""))
      && AreLines(lines[1..])
  }

  function Rebuild(lines: seq<Line>, kinds: seq<bool>, replacements: seq<string>): (r: seq<Line>)
    requires |lines| == |kinds| == |replacements|
    ensures |r| == |lines|
  {
    seq(|lines|, k requires 0 <= k < |lines| =>
      if kinds[k] then lines[k] else Line(replacements[k], lines[k].ending))
  }

  predicate IsTranslation(t: string) {
    !IsBlankText(t) && '\n' !in t
  }

  predicate Fits(replacements: seq<string>, count: nat) {
    |replacements| == count && forall k | 0 <= k < count :: IsTranslation(replacements[k])
  }

  lemma {:induction false} SplitGivesLines(s: string)
    ensures AreLines(LinesFrom(s)) && PrintLines(LinesFrom(s)) == s
    decreases |s|
  {
    hide CutLine, AreLines, PrintLines, IndexOf;
    if s == "" {
      NoLines();
    } else {
      match IndexOf(s, '\n', 0)
      case None =>
        NoLines();
        LinesStep(Line(s, ""), []);
        assert LinesFrom(s) == [Line(s, "")] + [];
      case Some(at) =>
        SplitGivesLines(s[at + 1..]);
        CutPrints(s[..at]);
        LinesStep(CutLine(s[..at]), LinesFrom(s[at + 1..]));
        assert s == s[..at] + "\n" + s[at + 1..];
    }
  }

  lemma NoLines()
    ensures AreLines([]) && PrintLines([]) == ""
  {
  }

  lemma LinesStep(line: Line, rest: seq<Line>)
    requires '\n' !in line.text && AreLines(rest)
    requires line.ending == "\n" || line.ending == "\r\n" || (line.ending == "" && rest == [] && line.text != "")
    ensures AreLines([line] + rest) && PrintLines([line] + rest) == line.text + line.ending + PrintLines(rest)
  {
    assert ([line] + rest)[1..] == rest;
  }

  lemma CutPrints(s: string)
    requires '\n' !in s
    ensures CutLine(s).text + CutLine(s).ending == s + "\n" && '\n' !in CutLine(s).text
    ensures CutLine(s).ending == "\n" || CutLine(s).ending == "\r\n"
  {
    if s != "" && s[|s| - 1] == '\r' {
      assert s == s[..|s| - 1] + "\r";
    }
  }

  lemma {:induction false} TrimStartJoins(s: string, c: char)
    requires IsSpace(c)
    ensures TrimStart(s + [c]) == if IsBlankText(s) then "" else TrimStart(s) + [c]
    ensures IsBlankText(s) <==> TrimStart(s) == ""
  {
    if s == "" {
      assert s + [c] == [c] && [c][1..] == "";
    } else {
      assert (s + [c])[1..] == s[1..] + [c];
      assert s == [s[0]] + s[1..];
      if IsSpace(s[0]) {
        TrimStartJoins(s[1..], c);
        assert IsBlankText(s) <==> IsBlankText(s[1..]);
      }
    }
  }

  lemma TrimDropsSpace(s: string, c: char)
    requires IsSpace(c)
    ensures Trim(s + [c]) == Trim(s)
  {
    TrimStartJoins(s, c);
    assert (TrimStart(s) + [c])[..|TrimStart(s)|] == TrimStart(s);
  }

  lemma {:induction false} TrimEndKeeps(s: string, at: nat)
    requires at < |s| && !IsSpace(s[at])
    ensures at < |TrimEnd(s)|
  {
    if IsSpace(s[|s| - 1]) {
      TrimEndKeeps(s[..|s| - 1], at);
    }
  }

  lemma {:induction false} TrimStartOpens(s: string)
    ensures TrimStart(s) != "" ==> !IsSpace(TrimStart(s)[0])
    ensures IsBlankText(s) <==> TrimStart(s) == ""
  {
    if s != "" {
      TrimStartOpens(s[1..]);
      assert s == [s[0]] + s[1..];
    }
  }

  lemma TrimOfText(s: string)
    requires !IsBlankText(s)
    ensures Trim(s) != ""
  {
    TrimStartOpens(s);
    TrimEndKeeps(TrimStart(s), 0);
  }

  lemma {:induction false} TrimEndShrinks(s: string)
    ensures |TrimEnd(s)| <= |s| && TrimEnd(s) == s[..|TrimEnd(s)|]
  {
    if s != "" && IsSpace(s[|s| - 1]) {
      TrimEndShrinks(s[..|s| - 1]);
    }
  }

  /** Trimming the end does not decide whether a line opens with the header. */
  lemma HeaderOfTrim(s: string)
    ensures StartsWith(TrimStart(s), "WEBVTT") <==> StartsWith(Trim(s), "WEBVTT")
  {
    var a, b := TrimStart(s), Trim(s);
    TrimEndShrinks(a);
    if StartsWith(a, "WEBVTT") {
      assert a[5] == a[..6][5] == 'T';
      TrimEndKeeps(a, 5);
      assert b[..6] == a[..6];
    }
    if StartsWith(b, "WEBVTT") {
      assert b[..6] == a[..6];
    }
  }

  /** A printed line is split off again; only a carriage return at its end may move into the line break. */
  lemma PrintedLineIsCut(line: Line, rest: string)
    requires '\n' !in line.text && (line.ending == "\n" || line.ending == "\r\n")
    ensures var s := line.text + line.ending + rest;
            exists cut: Line :: LinesFrom(s) == [cut] + LinesFrom(rest) && Trim(cut.text) == Trim(line.text)
  {
    var s := line.text + line.ending + rest;
    var at := |line.text| + |line.ending| - 1;
    assert s[at] == '\n';
    forall k | 0 <= k < at
      ensures s[k] != '\n'
    {
      if k < |line.text| {
        assert s[k] == line.text[k];
      }
    }
    assert IndexOf(s, '\n', 0) == Some(at);
    assert s[at + 1..] == rest;
    var cut := CutLine(s[..at]);
    assert LinesFrom(s) == [cut] + LinesFrom(rest);
    if line.ending == "\n" {
      assert s[..at] == line.text;
      if line.text != "" && line.text[|line.text| - 1] == '\r' {
        assert line.text == cut.text + ['\r'];
        TrimDropsSpace(cut.text, '\r');
      }
    } else {
      assert s[..at] == line.text + "\r";
      assert cut.text == line.text;
    }
  }

  lemma {:induction false} PrintedLinesAreSplit(lines: seq<Line>)
    requires AreLines(lines)
    ensures Trimmed(LinesFrom(PrintLines(lines))) == Trimmed(lines)
  {
    if lines != [] {
      PrintedLinesAreSplit(lines[1..]);
      var rest := PrintLines(lines[1..]);
      TrimmedSplits(lines);
      if lines[0].ending == "" {
        assert lines[1..] == [];
        assert PrintLines(lines) == lines[0].text;
        assert IndexOf(lines[0].text, '\n', 0) == None;
      } else {
        PrintedLineIsCut(lines[0], rest);
        var s := lines[0].text + lines[0].ending + rest;
        var cut: Line :| LinesFrom(s) == [cut] + LinesFrom(rest) && Trim(cut.text) == Trim(lines[0].text);
        TrimmedSplits([cut] + LinesFrom(rest));
        assert ([cut] + LinesFrom(rest))[1..] == LinesFrom(rest);
      }
    }
  }

  lemma TrimmedSplits(lines: seq<Line>)
    requires lines != []
    ensures Trimmed(lines) == [Trim(lines[0].text)] + Trimmed(lines[1..])
  {
  }

  lemma {:induction false} RebuiltAreLines(lines: seq<Line>, kinds: seq<bool>, replacements: seq<string>)
    requires AreLines(lines) && |lines| == |kinds| && Fits(replacements, |lines|)
    ensures AreLines(Rebuild(lines, kinds, replacements))
  {
    if lines != [] {
      RebuiltAreLines(lines[1..], kinds[1..], replacements[1..]);
      assert Rebuild(lines, kinds, replacements)[1..] == Rebuild(lines[1..], kinds[1..], replacements[1..]);
      assert IsTranslation(replacements[0]);
    }
  }

  function TrimmedTexts(texts: seq<string>): (r: seq<string>)
    ensures |r| == |texts|
  {
    seq(|texts|, k requires 0 <= k < |texts| => Trim(texts[k]))
  }

  lemma TrimmedRebuild(lines: seq<Line>, kinds: seq<bool>, replacements: seq<string>)
    requires |lines| == |kinds| && Fits(replacements, |lines|)
    ensures Trimmed(Rebuild(lines, kinds, replacements)) == Replace(Trimmed(lines), kinds, TrimmedTexts(replacements))
    ensures forall k | 0 <= k < |lines| :: TrimmedTexts(replacements)[k] != ""
  {
    hide Trim, IsBlankText;
    forall k | 0 <= k < |lines|
      ensures TrimmedTexts(replacements)[k] != ""
    {
      assert IsTranslation(replacements[k]);
      TrimOfText(replacements[k]);
    }
  }

  /** The rebuilt text is as valid as its trimmed lines. */
  lemma ValidByLines(lines: seq<Line>, format: Format)
    requires AreLines(lines) && lines != []
    ensures Valid(PrintLines(lines), format) <==>
              (format.WebVtt? ==> StartsWith(Trimmed(lines)[0], "WEBVTT")) && ValidFrom(Trimmed(lines), BEGIN, format)
  {
    hide Trim, TrimStart, LinesFrom, ValidFrom;
    PrintedLinesAreSplit(lines);
    var text := PrintLines(lines);
    PrintedIsNotEmpty(lines);
    var again := LinesFrom(text);
    assert |Trimmed(again)| == |Trimmed(lines)|;
    assert Trimmed(again)[0] == Trim(again[0].text);
    HeaderOfTrim(again[0].text);
  }

  lemma PrintedIsNotEmpty(lines: seq<Line>)
    requires AreLines(lines) && lines != []
    ensures PrintLines(lines) != ""
  {
  }

  lemma ValidTextHasLines(text: string, format: Format)
    requires Valid(text, format)
    ensures text != "" && Lines(text) == LinesFrom(text) && AreLines(Lines(text)) && Lines(text) != []
    ensures PrintLines(Lines(text)) == text
    ensures ValidFrom(Trimmed(Lines(text)), BEGIN, format)
    ensures format.WebVtt? ==> IsHeader(Trimmed(Lines(text))[0], format)
  {
    hide LinesFrom, Trim, TrimStart, AreLines, Validate, PrintLines;
    SplitGivesLines(text);
    if text == "" {
      BlankIsIncomplete(format);
    }
    HeaderOfTrim(Lines(text)[0].text);
  }

  lemma BlankIsIncomplete(format: Format)
    ensures !Valid("", format)
  {
    var blank := Trimmed(Lines(""));
    assert blank == [""] && blank[1..] == [];
  }

  lemma TranslatedText(text: string, format: Format, replacements: seq<string>)
    requires Valid(text, format) && Fits(replacements, |Lines(text)|)
    ensures var trimmed := Trimmed(Lines(text));
            var kinds := Kinds(trimmed, START, true, format);
            Valid(PrintLines(Rebuild(Lines(text), kinds, replacements)), format) <==>
            ValidFrom(Replace(trimmed, kinds, TrimmedTexts(replacements)), BEGIN, format)
  {
    hide Valid, Lines, Trimmed, ValidFrom, AreLines;
    ValidTextHasLines(text, format);
    var lines, trimmed := Lines(text), Trimmed(Lines(text));
    var kinds := Kinds(trimmed, START, true, format);
    KindsSplit(trimmed, START, true, format);
    RebuiltAreLines(lines, kinds, replacements);
    TrimmedRebuild(lines, kinds, replacements);
    ValidByLines(Rebuild(lines, kinds, replacements), format);
    assert format.WebVtt? ==> kinds[0];
  }

  lemma Marks(text: string, format: Format)
    requires Valid(text, format)
    ensures Fits(seq(|Lines(text)|, k => "x"), |Lines(text)|)
    ensures TrimmedTexts(seq(|Lines(text)|, k => "x")) == seq(|Lines(text)|, k => "x")
  {
    hide Valid, Lines;
    assert !IsSpace("x"[0]);
    assert Trim("x") == "x";
  }

  /** Every accepted text: all translations of the offered lines by non-blank lines are accepted again
      exactly when no line is read as a header while the time line of an identifier is due. */
  lemma TranslationStaysValid(text: string, format: Format)
    requires Valid(text, format)
    ensures PrintLines(Lines(text)) == text
    ensures var trimmed := Trimmed(Lines(text));
            var kinds := Kinds(trimmed, START, true, format);
            (forall replacements | Fits(replacements, |Lines(text)|) ::
              Valid(PrintLines(Rebuild(Lines(text), kinds, replacements)), format)) <==>
            !EverSkips(trimmed, BEGIN, format)
  {
    hide Valid, Lines, Trimmed, ValidFrom, EverSkips, Kinds;
    ValidTextHasLines(text, format);
    var lines, trimmed := Lines(text), Trimmed(Lines(text));
    var kinds := Kinds(trimmed, START, true, format);
    if EverSkips(trimmed, BEGIN, format) {
      var xs := seq(|lines|, k => "x");
      Marks(text, format);
      TranslatedText(text, format, xs);
      EverSkippedBreaks(trimmed, START, BEGIN, BEGIN, true, format);
      assert !Valid(PrintLines(Rebuild(lines, kinds, xs)), format);
    } else {
      forall replacements | Fits(replacements, |lines|)
        ensures Valid(PrintLines(Rebuild(lines, kinds, replacements)), format)
      {
        TrimmedRebuild(lines, kinds, replacements);
        StaysValid(trimmed, START, BEGIN, BEGIN, true, format, TrimmedTexts(replacements));
        TranslatedText(text, format, replacements);
      }
    }
  }

  /** Nothing is ever skipped when only the first line opens with the header's name. */
  lemma {:induction false} NoLaterHeaderNoSkip(lines: seq<string>, v: Check, format: Format)
    requires forall k | (if v.expecting then 0 else 1) <= k < |lines| :: !StartsWith(lines[k], "WEBVTT")
    ensures !EverSkips(lines, v, format)
  {
    if lines != [] && Validate(v, lines[0], format).Some? {
      NoLaterHeaderNoSkip(lines[1..], Validate(v, lines[0], format).value, format);
    }
  }
}
