/** The opaque markers that stand for protected spans, and why they cannot overlap or nest. */
module Markers {
  import opened Texts

  const UNDERSCORE: Byte := 95

  /** `__LINGUAMESH_PROTECTED_` in ASCII. */
  const PREFIX: Text :=
    [95, 95, 76, 73, 78, 71, 85, 65, 77, 69, 83, 72, 95, 80, 82, 79, 84, 69, 67, 84, 69, 68, 95]

  /** `LINGUAMESH_PROTECTED_`: the prefix without its leading underscores. */
  const CORE: Text := PREFIX[2..]

  predicate IsDigit(b: Byte) {
    48 <= b <= 57
  }

  /** The first underscore at or after `from`. */
  function BodyEnd(t: Text, from: nat): (d: nat)
    requires from <= |t|
    ensures from <= d <= |t|
    ensures forall k :: from <= k < d ==> t[k] != UNDERSCORE
    ensures d < |t| ==> t[d] == UNDERSCORE
    decreases |t| - from
  {
    if from == |t| || t[from] == UNDERSCORE then from else BodyEnd(t, from + 1)
  }

  /** Prefix, decimal index, then two or more underscores. */
  predicate IsMarker(t: Text) {
    && |t| >= 26
    && t[..23] == PREFIX
    && IsDigit(t[23])
    && var d := BodyEnd(t, 23);
       && d + 2 <= |t|
       && (forall k :: 23 <= k < d ==> IsDigit(t[k]))
       && (forall k :: d <= k < |t| ==> t[k] == UNDERSCORE)
  }

  /** The marker up to and including the underscore that closes its index. */
  function Head(t: Text): Text
    requires IsMarker(t)
  {
    t[..BodyEnd(t, 23) + 1]
  }

  lemma PrefixShape()
    ensures |PREFIX| == 23 && |CORE| == 21
    ensures PREFIX[0] == PREFIX[1] == UNDERSCORE && PREFIX[2] == 76
    ensures PREFIX[21] != UNDERSCORE && PREFIX[22] == UNDERSCORE
    ensures forall k :: 1 <= k < 22 ==> !(PREFIX[k] == UNDERSCORE && PREFIX[k + 1] == UNDERSCORE)
    ensures forall k :: 0 <= k < 23 && PREFIX[k] == 76 ==> k == 2
  {
    PrefixUnderscores();
    PrefixOpens();
  }

  lemma PrefixUnderscores()
    ensures |PREFIX| == 23
    ensures forall k :: 0 <= k < 23 && PREFIX[k] == UNDERSCORE ==> k == 0 || k == 1 || k == 12 || k == 22
  {
  }

  lemma PrefixOpens()
    ensures |PREFIX| == 23 && PREFIX[2] == 76
    ensures forall k :: 3 <= k < 23 ==> PREFIX[k] != 76
  {
  }

  /** `__L` opens a marker and never appears further inside one. */
  lemma MarkerBytes(t: Text)
    requires IsMarker(t)
    ensures t[0] == t[1] == UNDERSCORE && t[2] == 76
    ensures forall k :: 0 <= k < 23 ==> t[k] == PREFIX[k]
    ensures forall k :: 0 <= k < |t| && t[k] == 76 ==> k == 2
    ensures forall o :: 1 <= o && o + 2 < |t| ==> !(t[o] == UNDERSCORE && t[o + 1] == UNDERSCORE && t[o + 2] == 76)
  {
    PrefixShape();
    forall k | 0 <= k < 23
      ensures t[k] == PREFIX[k]
    {
      assert t[k] == t[..23][k];
    }
    forall k | 0 <= k < |t| && t[k] == 76
      ensures k == 2
    {
    }
  }

  /** A marker that starts inside another one can share at most its last two bytes. */
  lemma MarkersDoNotNest(text: Text, t: Text, u: Text, at: int, later: int)
    requires IsMarker(t) && IsMarker(u)
    requires OccursAt(text, t, at) && OccursAt(text, u, later) && at < later
    ensures at + |t| <= later + 2
  {
    MarkerBytes(t);
    MarkerBytes(u);
    OccursBytes(text, t, at);
    OccursBytes(text, u, later);
    assert text[later + 0] == u[0] && text[later + 1] == u[1] && text[later + 2] == u[2];
  }

  /** Markers with different heads never start at the same place. */
  lemma HeadsDecide(text: Text, t: Text, u: Text, at: int)
    requires IsMarker(t) && IsMarker(u)
    requires OccursAt(text, t, at) && OccursAt(text, u, at)
    ensures Head(t) == Head(u)
  {
    OccursBytes(text, t, at);
    OccursBytes(text, u, at);
    HeadsAgree(t, u, if |t| <= |u| then |t| else |u|);
  }

  /** Markers that agree past the index of one of them have the same head. */
  lemma HeadsAgree(t: Text, u: Text, n: nat)
    requires IsMarker(t) && IsMarker(u)
    requires n <= |t| && n <= |u|
    requires BodyEnd(t, 23) < n || BodyEnd(u, 23) < n
    requires forall k :: 0 <= k < n ==> t[k] == u[k]
    ensures Head(t) == Head(u)
  {
    var d, e := BodyEnd(t, 23), BodyEnd(u, 23);
    if d < n {
      assert t[d] == u[d];
    }
    if e < n {
      assert t[e] == u[e];
    }
    assert d == e;
  }
}
