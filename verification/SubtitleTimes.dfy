/** What a time line of SRT or WebVTT looks like. */
module SubtitleTimes {
  import opened Texts
  import opened Strings
  import opened Subtitles

  function Separator(format: Format): char {
    if format.Srt? then ',' else '.'
  }

  /** A run of digits for a number below the limit. */
  ghost predicate IsBelow(digits: string, limit: nat) {
    digits != "" && exists n | 0 <= n < limit :: Writes(digits, n)
  }

  /** Hours, if any, minutes, seconds and three digits of a second. */
  ghost predicate IsClock(s: string, format: Format, hours: Option<string>, minutes: string, seconds: string, fraction: string) {
    && s == (if hours.Some? then hours.value + ":" else "") + minutes + ":" + seconds + [Separator(format)] + fraction
    && (hours.Some? ==> IsBelow(hours.value, 0x1_0000_0000_0000_0000))
    && IsBelow(minutes, 60) && IsBelow(seconds, 60) && |fraction| == 3 && AllDigits(fraction)
  }

  lemma BelowIs(s: string, limit: nat)
    requires limit <= 0x1_0000_0000_0000_0000
    ensures IsBelow(s, limit) <==> IsCount(s) && Decimal(s) < limit
  {
    hide Writes, Decimal;
    if AllDigits(s) {
      DecimalIff(s, Decimal(s));
    }
    if n: nat :| n < limit && Writes(s, n) {
      DecimalIff(s, n);
    }
  }

  lemma {:induction false} LastIs(s: string, c: char)
    ensures var at := LastIndexOf(s, c);
            if at.Some? then s[at.value] == c && c !in s[at.value + 1..] else c !in s
  {
    if s != "" && s[|s| - 1] != c {
      var front := s[..|s| - 1];
      LastIs(front, c);
      assert s == front + [s[|s| - 1]];
      if LastIndexOf(s, c).Some? {
        var at := LastIndexOf(s, c).value;
        assert s[at + 1..] == front[at + 1..] + [s[|s| - 1]];
      }
    }
  }

  lemma {:induction false} LastOf(a: string, c: char, b: string)
    requires c !in b
    ensures LastIndexOf(a + [c] + b, c) == Some(|a|)
    decreases |b|
  {
    var s := a + [c] + b;
    if b != "" {
      assert s[|s| - 1] == b[|b| - 1] && b[|b| - 1] in b;
      assert s[..|s| - 1] == a + [c] + b[..|b| - 1];
      LastOf(a, c, b[..|b| - 1]);
    }
  }

  lemma FirstField(a: string, rest: string)
    requires ':' !in a
    ensures SplitAt(a + ":" + rest, ':') == [a] + SplitAt(rest, ':')
    ensures SplitAt(a, ':') == [a]
  {
    var s := a + ":" + rest;
    assert s[|a|] == ':' && forall k | 0 <= k < |a| :: s[k] == a[k];
    assert IndexOf(s, ':', 0) == Some(|a|);
    assert s[..|a|] == a && s[|a| + 1..] == rest;
    assert IndexOf(a, ':', 0) == None;
  }

  lemma DigitsHold(s: string, c: char)
    requires AllDigits(s) && !IsDecimalDigit(c)
    ensures c !in s
  {
  }

  /** A field up to a colon, and the fields behind it. */
  lemma FieldsOf(s: string) returns (first: string, rest: string)
    requires |SplitAt(s, ':')| >= 2
    ensures ':' !in first && s == first + ":" + rest && SplitAt(s, ':') == [first] + SplitAt(rest, ':')
  {
    var at := IndexOf(s, ':', 0).value;
    first, rest := s[..at], s[at + 1..];
  }

  lemma LoneField(s: string)
    requires |SplitAt(s, ':')| == 1
    ensures SplitAt(s, ':') == [s]
  {
  }

  lemma SeparatorsAreNoDigits()
    ensures !IsDecimalDigit(':') && !IsDecimalDigit(',') && !IsDecimalDigit('.')
  {
  }

  predicate IsStamp(front: string, fraction: string) {
    |fraction| == 3 && AllDigits(fraction) && HasFields(SplitAt(front, ':'))
  }

  lemma TimestampIs(s: string, format: Format)
    ensures var at := LastIndexOf(s, Separator(format));
            IsTimestamp(s, format) <==> at.Some? && IsStamp(s[..at.value], s[at.value + 1..])
  {
    var at := LastIndexOf(s, Separator(format));
    if at.Some? {
      var fraction := s[at.value + 1..];
      assert |fraction| == |s| - at.value - 1;
    }
  }

  lemma StampIs(front: string, fraction: string, format: Format)
    requires Separator(format) !in fraction
    ensures IsTimestamp(front + [Separator(format)] + fraction, format) <==> IsStamp(front, fraction)
  {
    hide IsStamp, IsTimestamp;
    var s := front + [Separator(format)] + fraction;
    LastOf(front, Separator(format), fraction);
    assert s[..|front|] == front && s[|front| + 1..] == fraction;
    TimestampIs(s, format);
  }

  function Front(hours: Option<string>, minutes: string, seconds: string): string {
    (if hours.Some? then hours.value + ":" else "") + minutes + ":" + seconds
  }

  function FieldsFor(hours: Option<string>, minutes: string, seconds: string): seq<string> {
    (if hours.Some? then [hours.value] else []) + [minutes, seconds]
  }

  ghost predicate AreBelow(hours: Option<string>, minutes: string, seconds: string) {
    (hours.Some? ==> IsBelow(hours.value, 0x1_0000_0000_0000_0000)) && IsBelow(minutes, 60) && IsBelow(seconds, 60)
  }

  lemma FieldsAre(hours: Option<string>, minutes: string, seconds: string)
    ensures HasFields(FieldsFor(hours, minutes, seconds)) <==> AreBelow(hours, minutes, seconds)
  {
    hide IsBelow, Decimal, AllDigits;
    BelowIs(minutes, 60);
    BelowIs(seconds, 60);
    var fields := FieldsFor(hours, minutes, seconds);
    var n := |fields|;
    assert fields[n - 2] == minutes && fields[n - 1] == seconds;
    if hours.Some? {
      BelowIs(hours.value, 0x1_0000_0000_0000_0000);
      assert fields[0] == hours.value;
      assert HasFields(fields) ==> IsCount(fields[0]) && IsCount(fields[1]) && IsCount(fields[2]);
    } else {
      assert HasFields(fields) ==> IsCount(fields[0]) && IsCount(fields[1]);
    }
  }

  lemma FrontSplits(hours: Option<string>, minutes: string, seconds: string)
    requires (hours.Some? ==> ':' !in hours.value) && ':' !in minutes && ':' !in seconds
    ensures SplitAt(Front(hours, minutes, seconds), ':') == FieldsFor(hours, minutes, seconds)
  {
    hide SplitAt;
    var tail := minutes + ":" + seconds;
    FirstField(minutes, seconds);
    FirstField(seconds, "");
    if hours.Some? {
      FirstField(hours.value, tail);
      assert Front(hours, minutes, seconds) == hours.value + ":" + tail;
    } else {
      assert Front(hours, minutes, seconds) == tail;
    }
  }

  lemma SplitIsFront(front: string) returns (hours: Option<string>, minutes: string, seconds: string)
    requires |SplitAt(front, ':')| == 2 || |SplitAt(front, ':')| == 3
    ensures front == Front(hours, minutes, seconds) && SplitAt(front, ':') == FieldsFor(hours, minutes, seconds)
  {
    hide SplitAt;
    var first, rest := FieldsOf(front);
    if |SplitAt(front, ':')| == 2 {
      LoneField(rest);
      hours, minutes, seconds := None, first, rest;
    } else {
      hours := Some(first);
      minutes, seconds := FieldsOf(rest);
      LoneField(seconds);
    }
  }

  lemma ClockIsTimestamp(s: string, format: Format, hours: Option<string>, minutes: string, seconds: string, fraction: string)
    requires IsClock(s, format, hours, minutes, seconds, fraction)
    ensures IsTimestamp(s, format)
  {
    hide IsBelow, AllDigits, IsTimestamp, HasFields, IsDecimalDigit;
    SeparatorsAreNoDigits();
    BelowHolds(minutes, 60);
    BelowHolds(seconds, 60);
    if hours.Some? {
      BelowHolds(hours.value, 0x1_0000_0000_0000_0000);
    }
    DigitsHold(fraction, Separator(format));
    FrontSplits(hours, minutes, seconds);
    FieldsAre(hours, minutes, seconds);
    StampIs(Front(hours, minutes, seconds), fraction, format);
  }

  lemma BelowHolds(s: string, limit: nat)
    requires IsBelow(s, limit) && limit <= 0x1_0000_0000_0000_0000
    ensures ':' !in s
  {
    BelowIs(s, limit);
    DigitsHold(s, ':');
  }

  lemma TimestampIsClock(s: string, format: Format)
      returns (hours: Option<string>, minutes: string, seconds: string, fraction: string)
    requires IsTimestamp(s, format)
    ensures IsClock(s, format, hours, minutes, seconds, fraction)
  {
    hide IsBelow, AllDigits, SplitAt, IsTimestamp;
    SeparatorIsThere(s, format);
    LastIs(s, Separator(format));
    var at := LastIndexOf(s, Separator(format)).value;
    var front := s[..at];
    fraction := s[at + 1..];
    assert s == front + [Separator(format)] + fraction;
    StampIs(front, fraction, format);
    hours, minutes, seconds := SplitIsFront(front);
    FieldsAre(hours, minutes, seconds);
  }

  lemma SeparatorIsThere(s: string, format: Format)
    requires IsTimestamp(s, format)
    ensures LastIndexOf(s, Separator(format)).Some?
  {
  }

  /** A time stamp is a clock time: below 60 minutes and 60 seconds, with three digits behind the separator of its format. */
  lemma TimestampIff(s: string, format: Format)
    ensures IsTimestamp(s, format) <==>
              exists hours, minutes, seconds, fraction :: IsClock(s, format, hours, minutes, seconds, fraction)
  {
    hide IsTimestamp, IsClock;
    if IsTimestamp(s, format) {
      var hours, minutes, seconds, fraction := TimestampIsClock(s, format);
    }
    if hours, minutes, seconds, fraction :| IsClock(s, format, hours, minutes, seconds, fraction) {
      ClockIsTimestamp(s, format, hours, minutes, seconds, fraction);
    }
  }

  // Time lines

  predicate IsWord(s: string) {
    s != "" && forall k | 0 <= k < |s| :: !IsSpace(s[k])
  }

  /** White space, a time stamp, the arrow, a time stamp, and settings behind white space. */
  predicate IsTiming(line: string, format: Format, blanks: (string, string, string), from: string, until: string, settings: string) {
    && line == blanks.0 + from + blanks.1 + "-->" + blanks.2 + until + settings
    && IsBlankText(blanks.0) && IsBlankText(blanks.1) && IsBlankText(blanks.2)
    && IsTimestamp(from, format) && IsTimestamp(until, format)
    && (settings == "" || IsSpace(settings[0]))
  }

  lemma {:induction false} StampHolds(s: string, format: Format)
    requires IsTimestamp(s, format)
    ensures IsWord(s) && '-' !in s
  {
    hide IsTimestamp, AllDigits, IsBelow;
    var hours, minutes, seconds, fraction := TimestampIsClock(s, format);
    BelowIsWord(minutes, 60);
    BelowIsWord(seconds, 60);
    DigitsAreWord(fraction);
    if hours.Some? {
      BelowIsWord(hours.value, 0x1_0000_0000_0000_0000);
    }
    MarksAreNoSpace();
    var separator := [Separator(format)];
    assert forall k | 0 <= k < |s| :: s[k] != '-' && !IsSpace(s[k]) by {
      WordsJoin(if hours.Some? then hours.value + ":" else "", minutes);
      WordsJoin((if hours.Some? then hours.value + ":" else "") + minutes, ":");
      WordsJoin((if hours.Some? then hours.value + ":" else "") + minutes + ":", seconds);
      WordsJoin((if hours.Some? then hours.value + ":" else "") + minutes + ":" + seconds, separator);
      WordsJoin((if hours.Some? then hours.value + ":" else "") + minutes + ":" + seconds + separator, fraction);
    }
  }

  predicate IsDense(s: string) {
    forall k | 0 <= k < |s| :: s[k] != '-' && !IsSpace(s[k])
  }

  lemma WordsJoin(a: string, b: string)
    requires IsDense(a) && IsDense(b)
    ensures IsDense(a + b)
  {
  }

  lemma DigitsAreWord(s: string)
    requires AllDigits(s)
    ensures IsDense(s) && IsDense(s + ":")
  {
    assert forall c: char | IsDecimalDigit(c) :: c != '-' && !IsSpace(c);
    MarksAreNoSpace();
    WordsJoin(s, ":");
  }

  lemma MarksAreNoSpace()
    ensures IsDense(":") && IsDense(",") && IsDense(".") && IsDense("")
  {
  }

  lemma BelowIsWord(s: string, limit: nat)
    requires IsBelow(s, limit) && limit <= 0x1_0000_0000_0000_0000
    ensures IsDense(s) && IsDense(s + ":")
  {
    BelowIs(s, limit);
    DigitsAreWord(s);
  }

  lemma {:induction false} LeadingIs(word: string, rest: string)
    requires (forall k | 0 <= k < |word| :: !IsSpace(word[k])) && (rest == "" || IsSpace(rest[0]))
    ensures Leading(word + rest) == word
  {
    if word == "" {
      assert word + rest == rest;
    } else {
      assert (word + rest)[1..] == word[1..] + rest;
      LeadingIs(word[1..], rest);
    }
  }

  lemma {:induction false} LeadingOf(s: string) returns (rest: string)
    ensures s == Leading(s) + rest && (rest == "" || IsSpace(rest[0]))
  {
    if s == "" || IsSpace(s[0]) {
      rest := s;
    } else {
      rest := LeadingOf(s[1..]);
    }
  }

  /** The first arrow of a line stands behind a front without dashes. */
  lemma ArrowIsFound(front: string, tail: string)
    requires '-' !in front
    ensures Find(front + "-->" + tail, "-->", 0) == Some(|front|)
  {
    var line := front + "-->" + tail;
    assert line[|front|..|front| + 3] == "-->";
    assert Matches(line, "-->", |front|);
    forall at: nat | at < |front|
      ensures !Matches(line, "-->", at)
    {
      assert line[at] == front[at] && front[at] in front;
      assert at + 3 <= |line| ==> line[at..at + 3][0] == line[at];
    }
    FoundAt(line, "-->", 0, |front|);
  }

  lemma TimingIsTimeLine(line: string, format: Format, blanks: (string, string, string), from: string, until: string, settings: string)
    requires IsTiming(line, format, blanks, from, until, settings)
    ensures IsTimeLine(line, format)
  {
    hide IsTimestamp, Find, Trim, FirstWord, IsSpace;
    StampHolds(from, format);
    StampHolds(until, format);
    var front, tail := blanks.0 + from + blanks.1, blanks.2 + (until + settings);
    assert line == front + "-->" + tail;
    BlankHasNoDash(blanks.0);
    BlankHasNoDash(blanks.1);
    ArrowIsFound(front, tail);
    assert line[..|front|] == front && line[|front| + 3..] == tail;
    TrimIs(blanks.0, from, blanks.1);
    WordIs(blanks.2, until, settings);
  }

  lemma BlankHasNoDash(s: string)
    requires IsBlankText(s)
    ensures '-' !in s
  {
    assert !IsSpace('-');
  }

  lemma TrimIs(before: string, word: string, behind: string)
    requires IsBlankText(before) && IsBlankText(behind) && IsWord(word)
    ensures Trim(before + word + behind) == word
  {
    hide IsSpace, TrimStart, TrimEnd;
    assert before + word + behind == before + (word + behind);
    assert (word + behind)[0] == word[0];
    BlankIsTrimmed(before, word + behind);
    BlankEndIsTrimmed(word, behind);
  }

  lemma WordIs(before: string, word: string, rest: string)
    requires IsBlankText(before) && IsWord(word) && (rest == "" || IsSpace(rest[0]))
    ensures FirstWord(before + (word + rest)) == word
  {
    hide IsSpace, TrimStart, Leading;
    assert (word + rest)[0] == word[0];
    BlankIsTrimmed(before, word + rest);
    LeadingIs(word, rest);
  }

  lemma TrimParts(s: string) returns (before: string, behind: string)
    ensures s == before + Trim(s) + behind && IsBlankText(before) && IsBlankText(behind)
  {
    hide IsSpace, IsBlankText, TrimStart, TrimEnd;
    before := TrimmedIs(s);
    behind := EndTrimmedIs(TrimStart(s));
  }

  lemma ArrowSplits(line: string, at: nat)
    requires Matches(line, "-->", at)
    ensures line == line[..at] + "-->" + line[at + 3..]
  {
  }

  lemma Assembles(before: string, from: string, behind: string, blank: string, until: string, settings: string)
    ensures (before + from + behind) + "-->" + (blank + (until + settings)) ==
              before + from + behind + "-->" + blank + until + settings
  {
    var x := before + from + behind + "-->";
    assert x + (blank + (until + settings)) == x + blank + until + settings;
  }

  lemma TimeLineIsTiming(line: string, format: Format)
      returns (blanks: (string, string, string), from: string, until: string, settings: string)
    requires IsTimeLine(line, format)
    ensures IsTiming(line, format, blanks, from, until, settings)
  {
    hide IsTimestamp, IsSpace, IsBlankText, TrimStart, Trim, Leading, Matches;
    var at := Find(line, "-->", 0).value;
    var front, tail := line[..at], line[at + 3..];
    var before, behind := TrimParts(front);
    from := Trim(front);
    var blank := TrimmedIs(tail);
    settings := LeadingOf(TrimStart(tail));
    until := FirstWord(tail);
    blanks := (before, behind, blank);
    ArrowSplits(line, at);
    Assembles(before, from, behind, blank, until, settings);
  }

  /** A time line is two time stamps with an arrow between them, and white space around. */
  lemma TimeLineIff(line: string, format: Format)
    ensures IsTimeLine(line, format) <==>
              exists blanks, from, until, settings :: IsTiming(line, format, blanks, from, until, settings)
  {
    hide IsTimeLine, IsTiming;
    if IsTimeLine(line, format) {
      var blanks, from, until, settings := TimeLineIsTiming(line, format);
    }
    if blanks, from, until, settings :| IsTiming(line, format, blanks, from, until, settings) {
      TimingIsTimeLine(line, format, blanks, from, until, settings);
    }
  }
}
