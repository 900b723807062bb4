/** UTF-8 text as bytes, with the substring searches the Rust string library offers. */
module Texts {
  type Byte = b: int | 0 <= b < 256

  type Text = seq<Byte>

  datatype Option<+T> = None | Some(value: T)

  datatype Result<+T, +E> = Ok(value: T) | Err(error: E)

  /** `pattern` is the slice of `text` that starts at `at`. */
  predicate OccursAt(text: Text, pattern: Text, at: int) {
    0 <= at && at + |pattern| <= |text| && text[at..at + |pattern|] == pattern
  }

  predicate Contains(text: Text, pattern: Text) {
    exists at | 0 <= at <= |text| :: OccursAt(text, pattern, at)
  }

  /** The first occurrence of `pattern` at or after `from`. */
  function FindFrom(text: Text, pattern: Text, from: nat): (found: Option<nat>)
    ensures found.Some? ==> from <= found.value && OccursAt(text, pattern, found.value)
    ensures found.Some? ==> forall at :: from <= at < found.value ==> !OccursAt(text, pattern, at)
    ensures found.None? ==> forall at :: from <= at ==> !OccursAt(text, pattern, at)
    decreases |text| - from
  {
    if from + |pattern| > |text| then None
    else if OccursAt(text, pattern, from) then Some(from)
    else FindFrom(text, pattern, from + 1)
  }

  lemma OccursBytes(text: Text, pattern: Text, at: int)
    requires OccursAt(text, pattern, at)
    ensures forall k :: 0 <= k < |pattern| ==> text[at + k] == pattern[k]
  {
    forall k | 0 <= k < |pattern|
      ensures text[at + k] == pattern[k]
    {
      assert text[at + k] == text[at..at + |pattern|][k];
    }
  }

  lemma OccursFromBytes(text: Text, pattern: Text, at: int)
    requires 0 <= at && at + |pattern| <= |text|
    requires forall k :: 0 <= k < |pattern| ==> text[at + k] == pattern[k]
    ensures OccursAt(text, pattern, at)
  {
    assert text[at..at + |pattern|] == pattern;
  }

  /** An occurrence inside a slice is an occurrence in the whole text. */
  lemma OccursInSlice(text: Text, lo: nat, hi: nat, pattern: Text, at: int)
    requires lo <= hi <= |text|
    requires OccursAt(text[lo..hi], pattern, at)
    ensures OccursAt(text, pattern, lo + at)
  {
    OccursBytes(text[lo..hi], pattern, at);
    OccursFromBytes(text, pattern, lo + at);
  }

  /** An occurrence that lies between `lo` and `hi` is an occurrence in that slice. */
  lemma OccursWithin(text: Text, lo: nat, hi: nat, pattern: Text, at: int)
    requires lo <= at && at + |pattern| <= hi <= |text|
    requires OccursAt(text, pattern, at)
    ensures OccursAt(text[lo..hi], pattern, at - lo)
  {
    OccursBytes(text, pattern, at);
    OccursFromBytes(text[lo..hi], pattern, at - lo);
  }

  lemma SliceKeepsAbsence(text: Text, lo: nat, hi: nat, pattern: Text)
    requires lo <= hi <= |text|
    requires !Contains(text, pattern)
    ensures !Contains(text[lo..hi], pattern)
  {
    forall at | 0 <= at <= hi - lo && OccursAt(text[lo..hi], pattern, at)
      ensures false
    {
      OccursInSlice(text, lo, hi, pattern, at);
    }
  }
}
