/** Searching and trimming on character strings, as the document codecs use them. */
module Strings {
  import opened Texts
  import opened Utf8

  predicate IsSpace(c: char) {
    IsWhitespace(c as int)
  }

  predicate IsAsciiSpace(c: char) {
    c == ' ' || c == '\t' || c == '\n' || c == '\r' || c == '\U{c}'
  }

  predicate IsAlphanumeric(c: char) {
    '0' <= c <= '9' || 'A' <= c <= 'Z' || 'a' <= c <= 'z'
  }

  predicate IsDecimalDigit(c: char) {
    '0' <= c <= '9'
  }

  function ToLower(c: char): char {
    if 'A' <= c <= 'Z' then (c as int + 32) as char else c
  }

  function LowerCase(s: string): (r: string)
    ensures |r| == |s|
  {
    seq(|s|, k requires 0 <= k < |s| => ToLower(s[k]))
  }

  predicate IsBlankText(s: string) {
    forall k | 0 <= k < |s| :: IsSpace(s[k])
  }

  predicate StartsWith(s: string, p: string) {
    |p| <= |s| && s[..|p|] == p
  }

  /** `p` is the slice of `s` that starts at `at`. */
  predicate Matches(s: string, p: string, at: nat) {
    at + |p| <= |s| && s[at..at + |p|] == p
  }

  function Find(s: string, p: string, from: nat): (found: Option<nat>)
    ensures found.Some? ==> from <= found.value <= |s| - |p| && Matches(s, p, found.value)
    ensures found.Some? ==> forall at :: from <= at < found.value ==> !Matches(s, p, at)
    ensures found.None? ==> forall at: nat :: from <= at ==> !Matches(s, p, at)
    decreases |s| - from
  {
    if from + |p| > |s| then None
    else if Matches(s, p, from) then Some(from)
    else Find(s, p, from + 1)
  }

  /** The first `c` at or behind `from`. */
  function IndexOf(s: string, c: char, from: nat): (found: Option<nat>)
    requires from <= |s|
    ensures found.Some? ==> from <= found.value < |s| && s[found.value] == c
                            && forall k :: from <= k < found.value ==> s[k] != c
    ensures found.None? ==> forall k :: from <= k < |s| ==> s[k] != c
    decreases |s| - from
  {
    if from == |s| then None else if s[from] == c then Some(from) else IndexOf(s, c, from + 1)
  }

  function TrimStart(s: string): string {
    if s != "" && IsSpace(s[0]) then TrimStart(s[1..]) else s
  }

  function TrimEnd(s: string): string {
    if s != "" && IsSpace(s[|s| - 1]) then TrimEnd(s[..|s| - 1]) else s
  }

  function Trim(s: string): string {
    TrimEnd(TrimStart(s))
  }

  lemma {:induction false} TrimmedIs(s: string) returns (blank: string)
    ensures s == blank + TrimStart(s) && IsBlankText(blank) && (TrimStart(s) != "" ==> !IsSpace(TrimStart(s)[0]))
  {
    if s != "" && IsSpace(s[0]) {
      var rest := TrimmedIs(s[1..]);
      blank := [s[0]] + rest;
    } else {
      blank := "";
    }
  }

  lemma {:induction false} BlankIsTrimmed(blank: string, rest: string)
    requires IsBlankText(blank) && (rest != "" ==> !IsSpace(rest[0]))
    ensures TrimStart(blank + rest) == rest
  {
    if blank == "" {
      assert blank + rest == rest;
    } else {
      assert (blank + rest)[1..] == blank[1..] + rest && (blank + rest)[0] == blank[0];
      BlankIsTrimmed(blank[1..], rest);
    }
  }

  lemma {:induction false} EndTrimmedIs(s: string) returns (blank: string)
    ensures s == TrimEnd(s) + blank && IsBlankText(blank) && (TrimEnd(s) != "" ==> !IsSpace(TrimEnd(s)[|TrimEnd(s)| - 1]))
  {
    if s != "" && IsSpace(s[|s| - 1]) {
      var rest := EndTrimmedIs(s[..|s| - 1]);
      blank := rest + [s[|s| - 1]];
    } else {
      blank := "";
    }
  }

  lemma {:induction false} BlankEndIsTrimmed(rest: string, blank: string)
    requires IsBlankText(blank) && (rest != "" ==> !IsSpace(rest[|rest| - 1]))
    ensures TrimEnd(rest + blank) == rest
    decreases |blank|
  {
    if blank == "" {
      assert rest + blank == rest;
    } else {
      var s, front := rest + blank, blank[..|blank| - 1];
      assert s[..|s| - 1] == rest + front && s[|s| - 1] == blank[|blank| - 1];
      BlankEndIsTrimmed(rest, front);
    }
  }

  /** A match does not depend on what follows it. */
  lemma FindIsLocal(s: string, p: string, from: nat, other: string)
    requires Find(s, p, from).Some?
    requires var end := Find(s, p, from).value + |p|; end <= |other| && other[..end] == s[..end]
    ensures Find(other, p, from) == Find(s, p, from)
  {
    hide Matches, Find;
    var at := Find(s, p, from).value;
    var end := at + |p|;
    MatchIsLocal(s, p, at, end, other);
    forall b: nat | from <= b < at
      ensures !Matches(other, p, b)
    {
      NoMatchBefore(s, p, from, at, b);
      MatchIsLocal(s, p, b, end, other);
    }
    FoundAt(other, p, from, at);
  }

  lemma NoMatchBefore(s: string, p: string, from: nat, at: nat, b: nat)
    requires Find(s, p, from) == Some(at) && from <= b < at
    ensures !Matches(s, p, b)
  {
    hide Matches;
  }

  lemma MatchIsLocal(s: string, p: string, at: nat, end: nat, other: string)
    requires at + |p| <= end <= |other| && end <= |s| && other[..end] == s[..end]
    ensures Matches(other, p, at) <==> Matches(s, p, at)
  {
    assert other[at..at + |p|] == other[..end][at..at + |p|];
    assert s[at..at + |p|] == s[..end][at..at + |p|];
  }

  lemma FoundAt(s: string, p: string, from: nat, at: nat)
    requires from <= at && Matches(s, p, at) && forall b: nat | from <= b < at :: !Matches(s, p, b)
    ensures Find(s, p, from) == Some(at)
  {
    hide Matches;
  }

  predicate AllDigits(s: string) {
    forall k | 0 <= k < |s| :: IsDecimalDigit(s[k])
  }

  function Decimal(s: string): nat
    requires AllDigits(s)
  {
    if s == "" then 0 else Decimal(s[..|s| - 1]) * 10 + (s[|s| - 1] as int - '0' as int)
  }

  /** The digits write the number, with any leading zeros. */
  predicate Writes(digits: string, n: nat) {
    if digits == "" then n == 0
    else "0123456789"[n % 10] == digits[|digits| - 1] && Writes(digits[..|digits| - 1], n / 10)
  }

  lemma {:induction false} DecimalIff(digits: string, n: nat)
    ensures Writes(digits, n) <==> AllDigits(digits) && Decimal(digits) == n
  {
    if digits != "" {
      var last, front := digits[|digits| - 1], digits[..|digits| - 1];
      DecimalIff(front, n / 10);
      assert digits == front + [last];
      DigitIs(last, n % 10);
      assert AllDigits(digits) <==> AllDigits(front) && IsDecimalDigit(last) by {
        hide IsDecimalDigit;
        assert AllDigits(digits) ==> forall k | 0 <= k < |front| :: front[k] == digits[k];
      }
      if AllDigits(digits) {
        var high, low := Decimal(front), last as int - '0' as int;
        assert (high * 10 + low) / 10 == high && (high * 10 + low) % 10 == low;
      }
    }
  }

  lemma DigitIs(c: char, d: nat)
    requires d < 10
    ensures "0123456789"[d] == c <==> IsDecimalDigit(c) && c as int - '0' as int == d
  {
  }

  /** Bytes of the text in UTF-8. */
  function Bytes(s: string): nat {
    if s == "" then 0 else CharBytes(s[0]) + Bytes(s[1..])
  }

  function CharBytes(c: char): (n: nat)
    ensures 1 <= n <= 4
  {
    if c < '\U{80}' then 1 else if c < '\U{800}' then 2 else if c < '\U{10000}' then 3 else 4
  }
}
