/** Where a tag ends: shared by the HTML, XHTML and OOXML scanners. */
module Tags {
  import opened Texts
  import opened Strings

  /** The position behind the `>` that closes the tag, outside quotes. */
  function TagEnd(s: string, i: nat, quote: Option<char>): (end: Option<nat>)
    requires i <= |s|
    ensures end.Some? ==> i < end.value <= |s| && s[end.value - 1] == '>'
    decreases |s| - i
  {
    if i == |s| then None
    else if quote.Some? then TagEnd(s, i + 1, if s[i] == quote.value then None else quote)
    else if s[i] == '"' || s[i] == '\'' then TagEnd(s, i + 1, Some(s[i]))
    else if s[i] == '>' then Some(i + 1)
    else TagEnd(s, i + 1, None)
  }

  /** The loop over the characters of the tag that starts at `start`, with the open quote. */
  method FindTagEnd(text: string, start: nat) returns (end: Option<nat>)
    requires start < |text|
    ensures end.Some? ==> start + 1 < end.value <= |text| && text[end.value - 1] == '>'
    ensures TagEnd(text[start..], 1, None) == match end case None => None case Some(at) => Some(at - start)
  {
    var quote: Option<char> := None;
    ghost var s := text[start..];
    for index := start + 1 to |text|
      invariant TagEnd(s, 1, None) == TagEnd(s, index - start, quote)
    {
      assert s[index - start] == text[index];
      if quote.Some? {
        if text[index] == quote.value {
          quote := None;
        }
      } else if text[index] == '"' || text[index] == '\'' {
        quote := Some(text[index]);
      } else if text[index] == '>' {
        return Some(index + 1);
      }
    }
    return None;
  }

  /** The end of a name in a tag. */
  function NameEnd(body: string, i: nat): (end: nat)
    requires i <= |body|
    ensures i <= end <= |body|
    decreases |body| - i
  {
    if i == |body| || IsAsciiSpace(body[i]) || body[i] == '/' || body[i] == '>' then i else NameEnd(body, i + 1)
  }

  lemma {:induction false} TagEndIsLocal(s: string, i: nat, quote: Option<char>, other: string)
    requires i <= |s| && TagEnd(s, i, quote).Some?
    requires var end := TagEnd(s, i, quote).value; end <= |other| && other[..end] == s[..end]
    ensures TagEnd(other, i, quote) == TagEnd(s, i, quote)
    decreases |s| - i
  {
    var end := TagEnd(s, i, quote).value;
    assert other[i] == other[..end][i] == s[i];
    if quote.Some? {
      TagEndIsLocal(s, i + 1, if s[i] == quote.value then None else quote, other);
    } else if s[i] == '"' || s[i] == '\'' {
      TagEndIsLocal(s, i + 1, Some(s[i]), other);
    } else if s[i] != '>' {
      TagEndIsLocal(s, i + 1, None, other);
    }
  }

  /** No tag shorter than `<!--` agrees with that opening, so both texts open a comment. */
  lemma CommentNeedsFour(s: string, n: nat, other: string)
    requires s != "" && TagEnd(s, 1, None) == Some(n)
    requires n <= |other| && other[..n] == s[..n] && StartsWith(other, "<!--")
    ensures StartsWith(s, "<!--")
  {
    assert s[n - 1] == other[..n][n - 1] == other[n - 1];
    assert forall k | 0 <= k < 4 :: other[k] == other[..4][k] != '>';
    assert s[..4] == s[..n][..4] == other[..n][..4] == other[..4];
  }
}
