/** Exactly which lines of an accepted subtitle text are offered for translation, said by the place in the block. */
module SubtitleBlocks {
  import opened Texts
  import opened Subtitles

  /** The first line of the block of lines without a blank one that line `k` belongs to. */
  function BlockStart(lines: seq<string>, k: nat): (b: nat)
    requires k < |lines|
    ensures b <= k && (b == 0 || lines[b - 1] == "") && forall j :: b <= j < k ==> lines[j] != ""
  {
    if k == 0 || lines[k - 1] == "" then k else BlockStart(lines, k - 1)
  }

  predicate IsWord(line: string, format: Format) {
    format == WebVtt && line in {"NOTE", "STYLE", "REGION"}
  }

  /** A metadata word stands in the block, in front of the line or on it. */
  predicate InMetadata(lines: seq<string>, k: nat, format: Format)
    requires k < |lines|
  {
    exists j | BlockStart(lines, k) <= j <= k :: IsWord(lines[j], format)
  }

  /** The block opens with a time line, or with an identifier and a time line, and line `k` is behind it. */
  predicate BehindTime(lines: seq<string>, k: nat, format: Format)
    requires k < |lines|
  {
    var b := BlockStart(lines, k);
    || (b < k && IsTimeLine(lines[b], format))
    || (b + 1 < k && !IsTimeLine(lines[b], format) && IsTimeLine(lines[b + 1], format))
  }

  /** The block opens with a header line, or has one where its time line is due. */
  predicate BehindHeader(lines: seq<string>, k: nat, format: Format)
    requires k < |lines|
  {
    var b := BlockStart(lines, k);
    b + 1 < k && (OpensHeader(lines[b], format) || OpensHeader(lines[b + 1], format))
  }

  predicate OpensHeader(line: string, format: Format) {
    format == WebVtt && |line| >= 6 && line[..6] == "WEBVTT"
  }

  // ---------------------------------------------------------------------------------------------
  // The classifier's state in front of a line.

  function ReaderAt(lines: seq<string>, r: Reader, format: Format, k: nat): Reader
    requires k <= |lines|
  {
    if k == 0 then r else Read(ReaderAt(lines, r, format, k - 1), lines[k - 1], format)
  }

  lemma {:induction false} ReaderFromFront(lines: seq<string>, r: Reader, format: Format, k: nat)
    requires 0 < k <= |lines|
    ensures ReaderAt(lines, r, format, k) == ReaderAt(lines[1..], Read(r, lines[0], format), format, k - 1)
    decreases k
  {
    hide Read;
    if k > 1 {
      ReaderFromFront(lines, r, format, k - 1);
    }
  }

  lemma {:induction false} KindAt(lines: seq<string>, r: Reader, first: bool, format: Format, k: nat)
    requires k < |lines|
    ensures Kinds(lines, r, first, format)[k] == Structural(ReaderAt(lines, r, format, k), lines[k], first && k == 0, format)
    decreases k
  {
    hide Read, Structural, Kinds;
    KindsSplit(lines, r, first, format);
    if k > 0 {
      KindAt(lines[1..], Read(r, lines[0], format), false, format, k - 1);
      ReaderFromFront(lines, r, format, k);
    }
  }

  lemma WordIsMetadata(line: string, format: Format)
    ensures IsWord(line, format) <==> IsMetadata(line, format)
  {
  }

  ghost predicate ReaderFits(lines: seq<string>, r: Reader, format: Format, k: nat)
    requires k < |lines|
  {
    var b := BlockStart(lines, k);
    if b == k then r == START
    else
      && !r.cueStart
      && (r.metadata <==> exists j :: b <= j < k && IsWord(lines[j], format))
      && (!r.metadata ==> (r.expecting <==> k == b + 1 && !IsTimeLine(lines[b], format)))
  }

  lemma ReaderStep(lines: seq<string>, r: Reader, format: Format, k: nat)
    requires k + 1 < |lines| && ReaderFits(lines, r, format, k)
    ensures ReaderFits(lines, Read(r, lines[k], format), format, k + 1)
  {
    hide IsTimeLine, IsWord, IsMetadata;
    WordIsMetadata(lines[k], format);
  }

  /** The classifier's flags, from the lines of the block in front. */
  lemma {:induction false} ReaderFollowsBlock(lines: seq<string>, format: Format, k: nat)
    requires k < |lines|
    ensures ReaderFits(lines, ReaderAt(lines, START, format, k), format, k)
    decreases k
  {
    hide Read, ReaderFits;
    if k == 0 {
      FirstFits(lines, format);
    } else {
      ReaderFollowsBlock(lines, format, k - 1);
      ReaderStep(lines, ReaderAt(lines, START, format, k - 1), format, k - 1);
    }
  }

  lemma FirstFits(lines: seq<string>, format: Format)
    requires lines != []
    ensures ReaderFits(lines, START, format, 0)
  {
  }

  // ---------------------------------------------------------------------------------------------
  // The validator's state in front of a line.

  function CheckAt(lines: seq<string>, v: Check, format: Format, k: nat): Option<Check>
    requires k <= |lines|
  {
    if k == 0 then Some(v)
    else
      match CheckAt(lines, v, format, k - 1)
      case None => None
      case Some(w) => Validate(w, lines[k - 1], format)
  }

  lemma {:induction false} CheckFromFront(lines: seq<string>, v: Check, format: Format, k: nat)
    requires 0 < k <= |lines| && Validate(v, lines[0], format).Some?
    ensures CheckAt(lines, v, format, k) == CheckAt(lines[1..], Validate(v, lines[0], format).value, format, k - 1)
    decreases k
  {
    hide Validate;
    if k > 1 {
      CheckFromFront(lines, v, format, k - 1);
    }
  }

  lemma {:induction false} AcceptedGoesOn(lines: seq<string>, v: Check, format: Format, k: nat)
    requires ValidFrom(lines, v, format) && k <= |lines|
    ensures CheckAt(lines, v, format, k).Some?
    ensures k == |lines| ==> Complete(CheckAt(lines, v, format, k).value)
    decreases k
  {
    hide Validate, Complete;
    if k > 0 {
      AcceptedGoesOn(lines[1..], Validate(v, lines[0], format).value, format, k - 1);
      CheckFromFront(lines, v, format, k);
    }
  }

  /** In front of a block the validator waits for a cue. */
  lemma BlockOpens(lines: seq<string>, format: Format, b: nat)
    requires ValidFrom(lines, BEGIN, format) && b < |lines| && (b == 0 || lines[b - 1] == "")
    ensures CheckAt(lines, BEGIN, format, b).Some?
    ensures var v := CheckAt(lines, BEGIN, format, b).value; v.cueStart && !v.expecting && !v.metadata
  {
    hide IsTimeLine, IsMetadata;
    AcceptedGoesOn(lines, BEGIN, format, b);
  }

  /** How every block of an accepted text opens. */
  lemma BlockIsCue(lines: seq<string>, format: Format, b: nat)
    requires ValidFrom(lines, BEGIN, format) && b < |lines| && (b == 0 || lines[b - 1] == "")
    requires lines[b] != "" && !IsMetadata(lines[b], format)
    ensures IsTimeLine(lines[b], format) || IsHeader(lines[b], format) || b + 1 < |lines|
    ensures !IsTimeLine(lines[b], format) && !IsHeader(lines[b], format) ==>
              && lines[b + 1] != "" && (format.Srt? ==> AllDigitsOf(lines[b]))
              && (IsMetadata(lines[b + 1], format) || IsHeader(lines[b + 1], format) || IsTimeLine(lines[b + 1], format))
  {
    hide IsTimeLine, IsHeader, IsMetadata, ValidFrom, CheckAt;
    BlockOpens(lines, format, b);
    var v := CheckAt(lines, BEGIN, format, b).value;
    AcceptedStep(lines, format, b);
    if !IsTimeLine(lines[b], format) && !IsHeader(lines[b], format) {
      assert CheckAt(lines, BEGIN, format, b + 1) == Some(v.(expecting := true));
      if b + 1 == |lines| {
        AcceptedGoesOn(lines, BEGIN, format, b + 1);
      } else {
        AcceptedStep(lines, format, b + 1);
      }
    }
  }

  predicate AllDigitsOf(line: string) {
    forall k | 0 <= k < |line| :: '0' <= line[k] <= '9'
  }

  lemma AcceptedStep(lines: seq<string>, format: Format, k: nat)
    requires ValidFrom(lines, BEGIN, format) && k < |lines|
    ensures CheckAt(lines, BEGIN, format, k).Some? && CheckAt(lines, BEGIN, format, k + 1).Some?
    ensures CheckAt(lines, BEGIN, format, k + 1) == Validate(CheckAt(lines, BEGIN, format, k).value, lines[k], format)
  {
    hide Validate;
    AcceptedGoesOn(lines, BEGIN, format, k);
    AcceptedGoesOn(lines, BEGIN, format, k + 1);
  }

  // ---------------------------------------------------------------------------------------------
  // The theorem.

  /** Which lines are offered, by place alone: behind the time line, or two lines behind the opening. */
  lemma OfferedByPlace(lines: seq<string>, format: Format, k: nat)
    requires ValidFrom(lines, BEGIN, format) && k < |lines|
    ensures var b := BlockStart(lines, k);
            !Kinds(lines, START, true, format)[k] <==>
            && lines[k] != "" && !InMetadata(lines, k, format)
            && (b + 1 < k || (b + 1 == k && IsTimeLine(lines[b], format)))
  {
    hide IsTimeLine, IsWord, IsMetadata, Kinds, Read, ValidFrom;
    var b := BlockStart(lines, k);
    KindAt(lines, START, true, format, k);
    ReaderFollowsBlock(lines, format, k);
    WordIsMetadata(lines[k], format);
    if b == k && lines[k] != "" && !IsMetadata(lines[k], format) {
      BlockIsCue(lines, format, k);
    }
  }

  /**
   * Every accepted text of either format. A line is offered for translation if and only if it is not
   * blank, no metadata word stands in front of it in its block or on it, and it stands behind the time
   * line of its block, or behind a header line that opens the block or takes the time line's place.
   */
  lemma OfferedExactly(lines: seq<string>, format: Format, k: nat)
    requires ValidFrom(lines, BEGIN, format) && k < |lines|
    ensures !Kinds(lines, START, true, format)[k] <==>
            && lines[k] != "" && !InMetadata(lines, k, format)
            && (BehindTime(lines, k, format) || BehindHeader(lines, k, format))
  {
    hide IsTimeLine, IsWord, IsMetadata, Kinds, ValidFrom;
    OfferedByPlace(lines, format, k);
    var b := BlockStart(lines, k);
    if b + 1 < k && !InMetadata(lines, k, format) {
      WordIsMetadata(lines[b], format);
      WordIsMetadata(lines[b + 1], format);
      assert b <= b + 1 <= k;
      BlockIsCue(lines, format, b);
    }
  }

  /** The same for the text of a file. */
  lemma OfferedLines(text: string, format: Format, k: nat)
    requires Valid(text, format) && k < |Lines(text)|
    ensures var lines := Trimmed(Lines(text));
            !Kinds(lines, START, true, format)[k] <==>
            && lines[k] != "" && !InMetadata(lines, k, format)
            && (BehindTime(lines, k, format) || BehindHeader(lines, k, format))
  {
    hide Kinds, ValidFrom, InMetadata, BehindTime, BehindHeader, Lines, Trimmed;
    OfferedExactly(Trimmed(Lines(text)), format, k);
  }
}
