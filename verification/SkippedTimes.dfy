/** An accepted subtitle text whose time line is taken for cue text. */
module SkippedTimes {
  import opened Texts
  import opened Strings
  import opened Subtitles
  import opened SubtitleSimulation

  const TIME: string := "00:00.000 --> 00:01.000"

  const SKIPPING: seq<string> := ["WEBVTT", "", "id", "WEBVTT x", TIME, "hi"]

  function Fed(texts: seq<string>): (lines: seq<Line>)
    ensures |lines| == |texts|
  {
    seq(|texts|, k requires 0 <= k < |texts| => Line(texts[k], "\n"))
  }

  lemma {:induction false} FedAreLines(texts: seq<string>)
    requires forall k | 0 <= k < |texts| :: '\n' !in texts[k]
    ensures AreLines(Fed(texts))
  {
    if texts != [] {
      FedAreLines(texts[1..]);
      assert Fed(texts)[1..] == Fed(texts[1..]);
    }
  }

  lemma TrimKeeps(s: string)
    requires s == "" || (!IsSpace(s[0]) && !IsSpace(s[|s| - 1]))
    ensures Trim(s) == s
  {
  }

  lemma {:induction false} LeadingKeeps(s: string)
    requires forall k | 0 <= k < |s| :: !IsSpace(s[k])
    ensures Leading(s) == s
  {
    if s != "" {
      LeadingKeeps(s[1..]);
    }
  }

  lemma {:induction false} LastIndexIs(s: string, c: char, at: nat)
    requires at < |s| && s[at] == c && forall k | at < k < |s| :: s[k] != c
    ensures LastIndexOf(s, c) == Some(at)
  {
    if at < |s| - 1 {
      LastIndexIs(s[..|s| - 1], c, at);
    }
  }

  lemma IndexIs(s: string, c: char, at: nat)
    requires at < |s| && s[at] == c && forall k | 0 <= k < at :: s[k] != c
    ensures IndexOf(s, c, 0) == Some(at)
  {
    hide IndexOf;
    var found := IndexOf(s, c, 0);
    assert found.Some?;
    assert !(found.value < at) && !(at < found.value);
  }

  lemma MinutesAndSeconds(minutes: string, seconds: string)
    requires |minutes| == |seconds| == 2 && AllDigits(minutes) && AllDigits(seconds)
    ensures SplitAt(minutes + ":" + seconds, ':') == [minutes, seconds]
  {
    hide IndexOf;
    var s := minutes + ":" + seconds;
    IndexIs(s, ':', 2);
    assert s[..2] == minutes && s[3..] == seconds;
    assert IndexOf(seconds, ':', 0) == None;
    assert SplitAt(seconds, ':') == [seconds];
  }

  lemma TwoDigits(s: string)
    requires |s| == 2 && AllDigits(s) && s[0] == '0'
    ensures Decimal(s) < 10 && IsCount(s)
  {
    var t := s[..1];
    assert t[0] == s[0] && t[..0] == "";
    assert Decimal(t[..0]) == 0 && Decimal(t) == 0;
  }

  lemma ShortTimestamp(minutes: string, seconds: string, millis: string)
    requires |minutes| == |seconds| == 2 && |millis| == 3
    requires AllDigits(minutes) && AllDigits(seconds) && AllDigits(millis)
    requires minutes[0] == '0' && seconds[0] == '0'
    ensures IsTimestamp(minutes + ":" + seconds + "." + millis, WebVtt)
  {
    hide Decimal, LastIndexOf, SplitAt, IsCount;
    var left, s := minutes + ":" + seconds, minutes + ":" + seconds + "." + millis;
    LastIndexIs(s, '.', 5);
    assert s[..5] == left && s[6..] == millis;
    MinutesAndSeconds(minutes, seconds);
    TwoDigits(minutes);
    TwoDigits(seconds);
  }

  lemma TimeParts()
    ensures var first, second := "00:00.000", "00:01.000";
            && Find(TIME, "-->", 0) == Some(10)
            && TIME[..10] == first + " " && TIME[13..] == " " + second
  {
    hide Find;
    forall b: nat | b < 10
      ensures !Matches(TIME, "-->", b)
    {
      assert TIME[b] != '-' && TIME[b..b + 3][0] == TIME[b];
    }
    assert TIME[10..13] == "-->";
    FoundAt(TIME, "-->", 0, 10);
  }

  lemma WordAlone(word: string)
    requires word != "" && forall k | 0 <= k < |word| :: !IsSpace(word[k])
    ensures Trim(word + " ") == word && FirstWord(" " + word) == word
  {
    hide Leading, Trim;
    assert IsSpace(' ');
    TrimDropsSpace(word, ' ');
    TrimKeeps(word);
    assert (" " + word)[1..] == word && TrimStart(word) == word;
    LeadingKeeps(word);
  }

  lemma NoSpace(c: char)
    requires '0' <= c <= ':' || c == '.'
    ensures !IsSpace(c)
  {
  }

  lemma TimeIsTimeLine()
    ensures IsTimeLine(TIME, WebVtt)
  {
    hide IsTimestamp, Leading, Trim, Find, FirstWord, IsSpace;
    var first, second := "00:00.000", "00:01.000";
    TimeParts();
    forall k | 0 <= k < 9
      ensures !IsSpace(first[k]) && !IsSpace(second[k])
    {
      NoSpace(first[k]);
      NoSpace(second[k]);
    }
    WordAlone(first);
    WordAlone(second);
    assert first == "00" + ":" + "00" + "." + "000" && second == "00" + ":" + "01" + "." + "000";
    ShortTimestamp("00", "00", "000");
    ShortTimestamp("00", "01", "000");
  }

  lemma NoArrow(line: string)
    requires '>' !in line
    ensures !IsTimeLine(line, WebVtt)
  {
    var at := Find(line, "-->", 0);
    if at.Some? {
      ArrowHasTip(line, at.value);
    }
  }

  lemma Opens(line: string)
    requires 6 <= |line| && line[..6] == "WEBVTT"
    ensures IsHeader(line, WebVtt) && !IsMetadata(line, WebVtt)
  {
    assert line[..6][0] == line[0];
  }

  lemma NoMetadata(line: string)
    requires line == TIME || line == "id" || line == "hi"
    ensures !IsMetadata(line, WebVtt) && !IsHeader(line, WebVtt)
  {
    assert TIME[..6][0] == '0';
  }

  lemma Step(k: nat, v: Check, next: Check)
    requires k < 6 && Validate(v, SKIPPING[k], WebVtt) == Some(next)
    ensures ValidFrom(SKIPPING[k..], v, WebVtt) == ValidFrom(SKIPPING[k + 1..], next, WebVtt)
    ensures EverSkips(SKIPPING[k..], v, WebVtt)
         == (SkipsTime(v, SKIPPING[k], WebVtt) || EverSkips(SKIPPING[k + 1..], next, WebVtt))
  {
    hide Validate, SkipsTime;
    assert SKIPPING[k..][0] == SKIPPING[k] && SKIPPING[k..][1..] == SKIPPING[k + 1..];
  }

  lemma SkippingIsAccepted()
    ensures ValidFrom(SKIPPING, BEGIN, WebVtt) && EverSkips(SKIPPING, BEGIN, WebVtt)
  {
    hide IsTimeLine, IsMetadata, IsHeader, ValidFrom, EverSkips;
    Opens("WEBVTT");
    Opens("WEBVTT x");
    NoMetadata("id");
    NoMetadata("hi");
    NoMetadata(TIME);
    NoArrow("id");
    TimeIsTimeLine();
    Step(0, BEGIN, Check(false, false, 0, false, false));
    Step(1, Check(false, false, 0, false, false), BEGIN);
    Step(2, BEGIN, Check(true, true, 0, false, false));
    Step(3, Check(true, true, 0, false, false), Check(false, true, 0, false, false));
    Step(4, Check(false, true, 0, false, false), Check(false, false, 1, false, false));
    Step(5, Check(false, false, 1, false, false), Check(false, false, 1, true, false));
    NothingLeft();
    assert SKIPPING[0..] == SKIPPING;
  }

  lemma NothingLeft()
    ensures ValidFrom(SKIPPING[6..], Check(false, false, 1, true, false), WebVtt)
  {
  }

  lemma KindsFrom(k: nat, r: Reader)
    requires k < 6
    ensures Kinds(SKIPPING[k..], r, k == 0, WebVtt)
         == [Structural(r, SKIPPING[k], k == 0, WebVtt)] + Kinds(SKIPPING[k + 1..], Read(r, SKIPPING[k], WebVtt), false, WebVtt)
  {
    assert SKIPPING[k..][0] == SKIPPING[k] && SKIPPING[k..][1..] == SKIPPING[k + 1..];
  }

  lemma TimeIsOffered()
    ensures !Kinds(SKIPPING, START, true, WebVtt)[4]
  {
    hide IsTimeLine, IsMetadata, IsHeader, Kinds;
    Opens("WEBVTT");
    Opens("WEBVTT x");
    NoMetadata("id");
    NoMetadata(TIME);
    NoArrow("WEBVTT");
    NoArrow("id");
    assert SKIPPING[0..] == SKIPPING;
    KindsFrom(0, START);
    KindsFrom(1, Reader(false, true, false));
    KindsFrom(2, START);
    KindsFrom(3, Reader(false, true, false));
    KindsFrom(4, Reader(false, false, false));
  }

  lemma SkippingIsTrimmed()
    ensures AreLines(Fed(SKIPPING)) && Trimmed(Fed(SKIPPING)) == SKIPPING
  {
    hide Trim, AreLines;
    forall k | 0 <= k < 6
      ensures '\n' !in SKIPPING[k] && Trim(SKIPPING[k]) == SKIPPING[k]
    {
      TrimKeeps(SKIPPING[k]);
    }
    FedAreLines(SKIPPING);
  }

  /**
   * The exception of the round trip does occur: this text is accepted, a header line in it is read
   * while a time line is due, the time line is offered for translation, and there are translations
   * by non-blank lines that are refused.
   */
  lemma SkippingTextBreaks()
    ensures var text, kinds := PrintLines(Fed(SKIPPING)), Kinds(SKIPPING, START, true, WebVtt);
            && Valid(text, WebVtt) && Trimmed(Lines(text)) == SKIPPING
            && EverSkips(SKIPPING, BEGIN, WebVtt)
            && SKIPPING[4] == TIME && IsTimeLine(TIME, WebVtt) && !kinds[4]
            && exists replacements | Fits(replacements, 6) ::
                 !Valid(PrintLines(Rebuild(Lines(text), kinds, replacements)), WebVtt)
  {
    hide Valid, Lines, LinesFrom, Trimmed, ValidFrom, EverSkips, Kinds, IsTimeLine, AreLines, PrintLines, Trim, Rebuild, Fits;
    var text := PrintLines(Fed(SKIPPING));
    SkippingIsTrimmed();
    SkippingIsAccepted();
    TimeIsOffered();
    TimeIsTimeLine();
    ValidByLines(Fed(SKIPPING), WebVtt);
    assert StartsWith(SKIPPING[0], "WEBVTT");
    PrintedLinesAreSplit(Fed(SKIPPING));
    ValidTextHasLines(text, WebVtt);
    TranslationStaysValid(text, WebVtt);
  }
}
