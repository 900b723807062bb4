/** Characters written in UTF-8 (RFC 3629, section 3), against the reading of their structure. */
module Utf8Encoding {
  import opened Texts
  import opened Utf8

  /** The number of a character, surrogates excluded. */
  predicate IsScalar(n: int) {
    0 <= n < 0xD800 || 0xE000 <= n < 0x11_0000
  }

  /** Six bits to each continuation byte, the rest in the lead byte. */
  function Encode(n: int): Text
    requires IsScalar(n)
  {
    if n < 0x80 then [n]
    else if n < 0x800 then [0xC0 + n / 64, 0x80 + n % 64]
    else if n < 0x1_0000 then [0xE0 + n / 4096, 0x80 + n / 64 % 64, 0x80 + n % 64]
    else [0xF0 + n / 262144, 0x80 + n / 4096 % 64, 0x80 + n / 64 % 64, 0x80 + n % 64]
  }

  function EncodeAll(ns: seq<int>): Text
    requires forall k | 0 <= k < |ns| :: IsScalar(ns[k])
  {
    if ns == [] then [] else Encode(ns[0]) + EncodeAll(ns[1..])
  }

  /** Where the first `k` characters end. */
  function Offset(ns: seq<int>, k: nat): nat
    requires k <= |ns| && forall i | 0 <= i < |ns| :: IsScalar(ns[i])
  {
    if k == 0 then 0 else |Encode(ns[0])| + Offset(ns[1..], k - 1)
  }

  lemma ScalarOfEncoded(n: int)
    requires IsScalar(n)
    ensures var c := Encode(n);
            StartsWithChar(c) && CharLength(c[0]) == |c| && Scalar(c) == n && IsBoundary(c, 0)
            && forall k | 0 < k < |c| :: IsContinuation(c[k])
    ensures !IsContinuation(Encode(n)[0])
  {
    if n >= 0x1_0000 {
      ThreeShifts(n);
    } else if n >= 0x800 {
      TwoShifts(n);
    }
  }

  lemma TwoShifts(n: int)
    requires n >= 0
    ensures n == n / 4096 * 4096 + n / 64 % 64 * 64 + n % 64
  {
    assert n / 4096 == n / 64 / 64;
  }

  lemma ThreeShifts(n: int)
    requires n >= 0
    ensures n == n / 262144 * 262144 + n / 4096 % 64 * 4096 + n / 64 % 64 * 64 + n % 64
  {
    TwoShifts(n);
    assert n / 262144 == n / 4096 / 64;
  }

  lemma EncodedInFront(n: int, rest: Text)
    requires IsScalar(n)
    ensures var s := Encode(n) + rest;
            StartsWithChar(s) && CharLength(s[0]) == |Encode(n)| && s[|Encode(n)|..] == rest && s[..|Encode(n)|] == Encode(n)
  {
    hide Encode, CharLength;
    ScalarOfEncoded(n);
    var c, s := Encode(n), Encode(n) + rest;
    assert forall k | 0 <= k < |c| :: s[k] == c[k];
  }

  /** Written characters are UTF-8, and a character begins exactly where one was written. */
  lemma {:induction false} EncodedIsUtf8(ns: seq<int>)
    requires forall k | 0 <= k < |ns| :: IsScalar(ns[k])
    ensures IsUtf8(EncodeAll(ns))
    decreases |ns|
  {
    hide Encode, CharLength, StartsWithChar;
    if ns == [] {
      NothingIsUtf8();
    } else {
      EncodedIsUtf8(ns[1..]);
      EncodedInFront(ns[0], EncodeAll(ns[1..]));
      FrontChar(EncodeAll(ns));
    }
  }

  lemma {:induction false} BoundariesAreOffsets(ns: seq<int>, at: nat)
    requires (forall k | 0 <= k < |ns| :: IsScalar(ns[k])) && at <= |EncodeAll(ns)|
    ensures IsBoundary(EncodeAll(ns), at) <==> exists k | 0 <= k <= |ns| :: Offset(ns, k) == at
    decreases |ns|
  {
    hide Encode, CharLength, StartsWithChar, IsContinuation;
    var s := EncodeAll(ns);
    if ns == [] {
      assert Offset(ns, 0) == 0;
    } else {
      var c, rest := Encode(ns[0]), EncodeAll(ns[1..]);
      ScalarOfEncoded(ns[0]);
      if at < |c| {
        assert s[at] == c[at];
        assert at == 0 ==> Offset(ns, 0) == at;
        forall k | 0 < k <= |ns|
          ensures Offset(ns, k) > at
        {
        }
      } else {
        BoundariesAreOffsets(ns[1..], at - |c|);
        assert at < |s| ==> s[at] == rest[at - |c|];
        RestOpens(ns[1..]);
        if k: nat :| k <= |ns| - 1 && Offset(ns[1..], k) == at - |c| {
          assert Offset(ns, k + 1) == at;
        }
        if k: nat :| k <= |ns| && Offset(ns, k) == at {
          assert Offset(ns[1..], k - 1) == at - |c|;
        }
      }
    }
  }

  lemma RestOpens(ns: seq<int>)
    requires forall k | 0 <= k < |ns| :: IsScalar(ns[k])
    ensures EncodeAll(ns) != [] ==> !IsContinuation(EncodeAll(ns)[0])
  {
    if ns != [] {
      ScalarOfEncoded(ns[0]);
    }
  }
}
