/** UTF-8 structure of a text: where characters begin, and which of them end a sentence or a word. */
module Utf8 {
  import opened Texts

  predicate IsContinuation(b: Byte) {
    128 <= b < 192
  }

  /** Bytes in the character that `lead` opens; zero when no character starts with it. */
  function CharLength(lead: Byte): (n: nat)
    ensures n <= 4
  {
    if lead < 128 then 1
    else if 194 <= lead < 224 then 2
    else if 224 <= lead < 240 then 3
    else if 240 <= lead < 245 then 4
    else 0
  }

  predicate StartsWithChar(s: Text) {
    && s != []
    && 0 < CharLength(s[0]) <= |s|
    && forall k | 1 <= k < CharLength(s[0]) :: IsContinuation(s[k])
  }

  /** A sequence of characters, each a lead byte followed by its continuation bytes. */
  predicate IsUtf8(s: Text)
    decreases |s|
  {
    s == [] || (StartsWithChar(s) && IsUtf8(s[CharLength(s[0])..]))
  }

  predicate IsBoundary(s: Text, at: nat) {
    at == 0 || at == |s| || (at < |s| && !IsContinuation(s[at]))
  }

  /** The scalar value of a character. */
  function Scalar(c: Text): int
    requires StartsWithChar(c)
  {
    var lead: int := c[0];
    match CharLength(c[0])
    case 1 => lead
    case 2 => (lead - 192) * 64 + Low(c[1])
    case 3 => (lead - 224) * 4096 + Low(c[1]) * 64 + Low(c[2])
    case _ => (lead - 240) * 262144 + Low(c[1]) * 4096 + Low(c[2]) * 64 + Low(c[3])
  }

  function Low(b: Byte): int {
    b as int - 128
  }

  /** The Unicode White_Space property. */
  predicate IsWhitespace(scalar: int) {
    || 9 <= scalar <= 13
    || scalar in {0x20, 0x85, 0xA0, 0x1680, 0x2028, 0x2029, 0x202F, 0x205F, 0x3000}
    || 0x2000 <= scalar <= 0x200A
  }

  /** `\n . ! ?`, their full-width forms, and white space. */
  predicate EndsPhrase(scalar: int) {
    scalar in {10, 46, 33, 63, 0x3002, 0xFF01, 0xFF1F} || IsWhitespace(scalar)
  }

  /** Cutting at a character boundary leaves UTF-8 on both sides. */
  lemma FirstSplits(s: Text)
    requires IsUtf8(s) && s != []
    ensures StartsWithChar(s) && 0 < CharLength(s[0]) <= |s| && IsUtf8(s[CharLength(s[0])..])
  {
    hide CharLength;
  }

  lemma FrontChar(s: Text)
    requires StartsWithChar(s) && CharLength(s[0]) <= |s| && IsUtf8(s[CharLength(s[0])..])
    ensures IsUtf8(s)
  {
    hide CharLength, StartsWithChar;
  }

  /** A boundary behind the start lies behind the first character. */
  lemma BoundaryAfterFirst(s: Text, at: nat)
    requires StartsWithChar(s) && 0 < at <= |s| && IsBoundary(s, at)
    ensures var n := CharLength(s[0]);
            n <= at && n <= |s| && IsBoundary(s[n..], at - n) && StartsWithChar(s[..at]) && s[..at][0] == s[0]
  {
    hide CharLength, IsContinuation;
  }

  lemma {:induction false} CutUtf8(s: Text, at: nat)
    requires IsUtf8(s) && at <= |s| && IsBoundary(s, at)
    ensures IsUtf8(s[..at]) && IsUtf8(s[at..])
    decreases |s|
  {
    hide CharLength, IsUtf8, StartsWithChar, IsBoundary;
    if at == 0 {
      assert s[0..] == s;
      NothingIsUtf8();
      assert s[..0] == [];
    } else {
      var n := CharLength(s[0]);
      FirstSplits(s);
      BoundaryAfterFirst(s, at);
      CutUtf8(s[n..], at - n);
      assert s[n..][at - n..] == s[at..];
      assert s[n..][..at - n] == s[..at][n..];
      FrontChar(s[..at]);
    }
  }

  lemma NothingIsUtf8()
    ensures IsUtf8([])
  {
  }

  lemma SliceUtf8(s: Text, lo: nat, hi: nat)
    requires IsUtf8(s) && lo <= hi <= |s| && IsBoundary(s, lo) && IsBoundary(s, hi)
    ensures IsUtf8(s[lo..hi])
  {
    CutUtf8(s, hi);
    assert lo < hi ==> IsBoundary(s[..hi], lo);
    CutUtf8(s[..hi], lo);
    assert s[..hi][lo..] == s[lo..hi];
  }

  /** A continuation byte never follows an ASCII byte, and never opens a text. */
  lemma {:induction false} NotAfterAscii(s: Text, at: nat)
    requires IsUtf8(s) && at < |s| && IsContinuation(s[at])
    ensures 0 < at && 128 <= s[at - 1]
    decreases |s|
  {
    var n := CharLength(s[0]);
    if n <= at {
      NotAfterAscii(s[n..], at - n);
    } else {
      assert s[at] == s[..n][at];
    }
  }

  /** Behind the first character of a text lies a boundary; inside it there is none. */
  lemma FirstChar(s: Text)
    requires IsUtf8(s) && s != []
    ensures var next := CharLength(s[0]);
            && StartsWithChar(s)
            && IsBoundary(s, next)
            && forall k :: 0 < k < next ==> !IsBoundary(s, k)
  {
    hide CharLength;
    var next := CharLength(s[0]);
    var rest := s[next..];
    if next < |s| && IsContinuation(s[next]) {
      assert rest[0] == s[next];
      NotAfterAscii(rest, 0);
    }
  }

  /** Between a boundary and the next one lies exactly one character. */
  lemma CharAt(s: Text, at: nat)
    requires IsUtf8(s) && at < |s| && IsBoundary(s, at)
    ensures var next := at + CharLength(s[at]);
            && at < next <= |s|
            && StartsWithChar(s[at..next])
            && IsBoundary(s, next)
            && forall k :: at < k < next ==> !IsBoundary(s, k)
  {
    hide CharLength, IsUtf8;
    CutUtf8(s, at);
    var tail := s[at..];
    FirstChar(tail);
    var n := CharLength(tail[0]);
    assert s[at..at + n] == tail[..n];
    forall k | at < k <= at + n
      ensures IsBoundary(s, k) == IsBoundary(tail, k - at)
    {
      assert k < |s| ==> s[k] == tail[k - at];
    }
    forall k | at < k < at + n
      ensures !IsBoundary(s, k)
    {
      assert !IsBoundary(tail, k - at);
    }
  }
}
