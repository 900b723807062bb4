/** What PDF strings spell (ISO 32000-1, sections 7.3.4.2 and 7.3.4.3), against the readers of the content stream. */
module PdfStrings {
  import opened Texts
  import opened PdfContent
  import PdfRebuilding

  // Literal strings

  /** A byte as it is, a named escape, a broken line, an octal code, or an escaped byte that stands for itself. */
  datatype Atom = Plain(b: Byte) | Named(letter: Byte) | Break(eol: Text) | Code(digits: Text) | Itself(b: Byte)

  const NAMES: Text := [110, 114, 116, 98, 102]
  const NAMED: Text := [10, 13, 9, 8, 12]

  function PrintAtom(a: Atom): (p: Text)
    ensures p != []
  {
    match a
    case Plain(b) => [b]
    case Named(letter) => [BACKSLASH, letter]
    case Break(eol) => [BACKSLASH] + eol
    case Code(digits) => [BACKSLASH] + digits
    case Itself(b) => [BACKSLASH, b]
  }

  function Print(atoms: seq<Atom>): Text {
    if atoms == [] then [] else PrintAtom(atoms[0]) + Print(atoms[1..])
  }

  predicate IsOctalCode(digits: Text) {
    1 <= |digits| <= 3 && forall k | 0 <= k < |digits| :: 48 <= digits[k] < 56
  }

  function CodeValue(digits: Text): int
    requires IsOctalCode(digits)
  {
    var first: int := digits[0];
    match |digits|
    case 1 => first - 48
    case 2 => (first - 48) * 8 + (digits[1] - 48)
    case _ => (first - 48) * 64 + (digits[1] - 48) * 8 + (digits[2] - 48)
  }

  /** The atom is written in full: the byte behind it does not belong to it. */
  predicate IsAtom(a: Atom, next: Byte) {
    match a
    case Plain(b) => b != BACKSLASH
    case Named(letter) => letter in NAMES
    case Break(eol) => eol in [[LF], [CR], [CR, LF]] && !(eol == [CR] && next == LF)
    case Code(digits) => IsOctalCode(digits) && CodeValue(digits) < 256 && !(|digits| < 3 && 48 <= next < 56)
    case Itself(b) => b !in NAMES && b != LF && b != CR && !(48 <= b < 56)
  }

  /** The byte that an atom stands for, if any. */
  predicate StandsFor(a: Atom, t: Text) {
    match a
    case Plain(b) => t == [b]
    case Named(letter) => exists i | 0 <= i < |NAMES| :: NAMES[i] == letter && t == [NAMED[i]]
    case Break(_) => t == []
    case Code(digits) => IsOctalCode(digits) && CodeValue(digits) < 256 && t == [CodeValue(digits)]
    case Itself(b) => t == [b]
  }

  /** Atoms in front of a closing parenthesis, standing for `t`, in which `depth` parentheses are closed that they do not open. */
  predicate Spell(atoms: seq<Atom>, t: Text, depth: nat)
    decreases |atoms|
  {
    if atoms == [] then t == [] && depth == 0
    else
      var first := atoms[0];
      var n := if first.Break? then 0 else 1;
      && n <= |t| && IsAtom(first, (Print(atoms[1..]) + [CLOSE])[0]) && StandsFor(first, t[..n])
      && !(first == Plain(CLOSE) && depth == 0)
      && Spell(atoms[1..], t[n..], if first == Plain(OPEN) then depth + 1 else if first == Plain(CLOSE) then depth - 1 else depth)
  }

  lemma EscapeReads(a: Atom, t: Text, rest: Text)
    requires rest != [] && !a.Plain? && IsAtom(a, rest[0]) && StandsFor(a, t)
    ensures EscapeAt(PrintAtom(a)[1..] + rest) == Some(Reading(t, |PrintAtom(a)| - 1))
  {
    var s := PrintAtom(a)[1..] + rest;
    match a
    case Named(letter) => assert s[0] == letter;
    case Itself(b) => assert s[0] == b;
    case Break(eol) =>
      assert s[0] == eol[0];
      assert |s| >= 2;
      assert s[1] == if |eol| == 2 then eol[1] else rest[0];
    case Code(digits) =>
      assert PrintAtom(a)[1..] == digits;
      CodeReads(digits, rest);
  }

  lemma CodeReads(digits: Text, rest: Text)
    requires rest != [] && IsOctalCode(digits) && CodeValue(digits) < 256 && !(|digits| < 3 && 48 <= rest[0] < 56)
    ensures EscapeAt(digits + rest) == Some(Reading([CodeValue(digits)], |digits|))
  {
    var s := digits + rest;
    assert forall k | 0 <= k < |digits| :: s[k] == digits[k];
    assert s[|digits|] == rest[0];
    assert OctalLength(s) == |digits|;
    assert s[..|digits|] == digits;
    OctalIsCode(digits);
  }

  lemma OctalIsCode(digits: Text)
    requires IsOctalCode(digits)
    ensures (forall k | 0 <= k < |digits| :: IsOctal(digits[k])) && OctalValue(digits) == CodeValue(digits)
  {
    var a := digits[..1];
    assert a[..0] == [];
    assert OctalValue(a) == digits[0] - 48;
    if |digits| == 1 {
      assert a == digits;
    } else {
      var b := digits[..2];
      assert b[..1] == a;
      assert OctalValue(b) == (digits[0] - 48) * 8 + (digits[1] - 48);
      if |digits| == 2 {
        assert b == digits;
      } else {
        assert digits[..2] == b;
      }
    }
  }

  /** Whatever is read behind a backslash is one atom. */
  lemma EscapeIsAtom(s: Text) returns (a: Atom)
    requires EscapeAt(s).Some? && EscapeAt(s).value.length < |s|
    ensures var e := EscapeAt(s).value;
            !a.Plain? && PrintAtom(a) == [BACKSLASH] + s[..e.length] && IsAtom(a, s[e.length]) && StandsFor(a, e.text)
            && |e.text| == if a.Break? then 0 else 1
  {
    var e := EscapeAt(s).value;
    if s[0] in NAMES {
      a := Named(s[0]);
      var i :| 0 <= i < |NAMES| && NAMES[i] == s[0];
      assert e.text == [NAMED[i]];
      assert s[..1] == [s[0]];
    } else if s[0] == LF || s[0] == CR {
      a := Break(s[..e.length]);
      assert s[..e.length][0] == s[0];
      if e.length == 1 {
        assert s[..1] == [s[0]];
      } else {
        assert s[..2] == [CR, LF];
      }
    } else if IsOctal(s[0]) {
      var digits := s[..e.length];
      a := Code(digits);
      assert forall k | 0 <= k < |digits| :: digits[k] == s[k];
      OctalIsCode(digits);
    } else {
      a := Itself(s[0]);
      assert s[..1] == [s[0]];
    }
  }

  function After(a: Atom, depth: nat): (inner: nat)
    requires !(a == Plain(CLOSE) && depth == 0)
  {
    if a == Plain(OPEN) then depth + 1 else if a == Plain(CLOSE) then depth - 1 else depth
  }

  function Size(a: Atom): nat {
    if a.Break? then 0 else 1
  }

  lemma SpellSplits(atoms: seq<Atom>, t: Text, depth: nat)
    requires atoms != [] && Spell(atoms, t, depth)
    ensures var first, others := atoms[0], atoms[1..];
            && Size(first) <= |t| && IsAtom(first, (Print(others) + [CLOSE])[0]) && StandsFor(first, t[..Size(first)])
            && !(first == Plain(CLOSE) && depth == 0)
            && Spell(others, t[Size(first)..], After(first, depth))
            && Print(atoms) == PrintAtom(first) + Print(others)
  {
    hide IsAtom, StandsFor;
  }

  lemma {:induction false} SpelledReads(atoms: seq<Atom>, t: Text, depth: nat, rest: Text)
    requires Spell(atoms, t, depth)
    ensures LiteralTail(Print(atoms) + [CLOSE] + rest, depth + 1) == Some(Reading(t, |Print(atoms)| + 1))
    decreases |atoms|
  {
    hide LiteralTail, IsAtom, StandsFor, PrintAtom, Spell;
    var s := Print(atoms) + [CLOSE] + rest;
    if atoms == [] {
      LastReads(t, depth, rest);
      assert s == [CLOSE] + rest;
    } else {
      SpellSplits(atoms, t, depth);
      var first, others := atoms[0], atoms[1..];
      var tail := Print(others) + [CLOSE] + rest;
      var n := Size(first);
      SpelledReads(others, t[n..], After(first, depth), rest);
      assert tail[0] == (Print(others) + [CLOSE])[0];
      AtomStep(first, t[..n], tail, depth + 1, After(first, depth) + 1);
      assert s == PrintAtom(first) + tail;
      assert t == t[..n] + t[n..];
    }
  }

  lemma LastReads(t: Text, depth: nat, rest: Text)
    requires Spell([], t, depth)
    ensures LiteralTail([CLOSE] + rest, depth + 1) == Some(Reading(t, 1)) && Print([]) == []
  {
  }

  lemma AtomStep(a: Atom, t: Text, tail: Text, depth: nat, inner: nat)
    requires tail != [] && IsAtom(a, tail[0]) && StandsFor(a, t) && depth > 0 && inner > 0
    requires inner == if a == Plain(OPEN) then depth + 1 else if a == Plain(CLOSE) then depth - 1 else depth
    ensures LiteralTail(PrintAtom(a) + tail, depth) == Then(t, |PrintAtom(a)|, LiteralTail(tail, inner))
  {
    hide EscapeAt;
    var p := PrintAtom(a);
    var s := p + tail;
    assert s[0] == p[0] && s[1..] == p[1..] + tail;
    if a.Plain? {
      assert s[1..] == tail;
    } else {
      hide StandsFor, IsAtom;
      EscapeReads(a, t, tail);
      assert s[1 + (|p| - 1)..] == tail;
    }
  }

  /** Whatever is read as the rest of a literal string is spelled by atoms. */
  lemma {:induction false} TailIsSpelled(s: Text, depth: nat) returns (atoms: seq<Atom>)
    requires depth > 0 && LiteralTail(s, depth).Some?
    ensures var r := LiteralTail(s, depth).value;
            Spell(atoms, r.text, depth - 1) && s[..r.length] == Print(atoms) + [CLOSE]
    decreases |s|
  {
    hide LiteralTail, IsAtom, StandsFor, PrintAtom, Spell, EscapeAt, Print;
    if s[0] == CLOSE && depth == 1 {
      atoms := [];
      LastIsSpelled(s);
    } else {
      var first, a, tail := AtomOf(s, depth);
      var inner := After(first, depth - 1) + 1;
      var others := TailIsSpelled(tail, inner);
      var r := LiteralTail(tail, inner).value;
      atoms := AtomInFront(first, others, a, r.text, depth - 1, inner - 1, tail, r.length);
      assert s[..|PrintAtom(first)| + r.length] == PrintAtom(first) + tail[..r.length];
    }
  }

  lemma LastIsSpelled(s: Text)
    requires s != [] && s[0] == CLOSE
    ensures LiteralTail(s, 1) == Some(Reading([], 1)) && Spell([], [], 0) && s[..1] == Print([]) + [CLOSE]
  {
  }

  /** The atom at the front of what is read. */
  lemma AtomOf(s: Text, depth: nat) returns (first: Atom, a: Text, tail: Text)
    requires depth > 0 && LiteralTail(s, depth).Some? && !(s[0] == CLOSE && depth == 1)
    ensures s == PrintAtom(first) + tail && |a| == Size(first) && tail != []
    ensures IsAtom(first, tail[0]) && StandsFor(first, a) && !(first == Plain(CLOSE) && depth == 1)
    ensures LiteralTail(s, depth) == Then(a, |PrintAtom(first)|, LiteralTail(tail, After(first, depth - 1) + 1))
  {
    hide LiteralTail, EscapeAt;
    PdfRebuilding.LiteralTailSplits(s, depth);
    if s[0] == BACKSLASH {
      var e := EscapeAt(s[1..]).value;
      tail, a := s[1 + e.length..], e.text;
      PdfRebuilding.LiteralTailSplits(tail, depth);
      assert s[1..][e.length] == tail[0];
      first := EscapeIsAtom(s[1..]);
      assert s == [BACKSLASH] + s[1..][..e.length] + tail;
    } else {
      first, a, tail := Plain(s[0]), [s[0]], s[1..];
      PdfRebuilding.LiteralTailSplits(tail, if s[0] == OPEN then depth + 1 else if s[0] == CLOSE then depth - 1 else depth);
    }
  }

  lemma AtomInFront(first: Atom, others: seq<Atom>, a: Text, t: Text, depth: nat, inner: nat, tail: Text, n: nat) returns (atoms: seq<Atom>)
    requires 0 < n <= |tail| && tail[..n] == Print(others) + [CLOSE]
    requires IsAtom(first, tail[0]) && StandsFor(first, a) && |a| == Size(first)
    requires !(first == Plain(CLOSE) && depth == 0) && Spell(others, t, inner)
    requires inner == if first == Plain(OPEN) then depth + 1 else if first == Plain(CLOSE) then depth - 1 else depth
    ensures atoms == [first] + others && Spell(atoms, a + t, depth) && Print(atoms) + [CLOSE] == PrintAtom(first) + tail[..n]
  {
    hide IsAtom, StandsFor;
    atoms := [first] + others;
    assert atoms[1..] == others;
    assert (a + t)[..|a|] == a && (a + t)[|a|..] == t;
    assert tail[..n][0] == tail[0];
  }

  /** The atoms of a string and their parentheses spell this text. */
  ghost predicate IsLiteralOf(raw: Text, t: Text) {
    exists atoms :: IsSpelling(raw, atoms, t)
  }

  predicate IsSpelling(raw: Text, atoms: seq<Atom>, t: Text) {
    raw == [OPEN] + Print(atoms) + [CLOSE] && Spell(atoms, t, 0)
  }

  /**
   * A stretch is read as a literal string with this text exactly when it is a parenthesis, atoms that
   * spell the text and whose parentheses balance, and the closing parenthesis; whatever follows it.
   */
  lemma LiteralIffSpelled(raw: Text, t: Text, rest: Text)
    ensures Literal(raw + rest) == Some(Reading(t, |raw|)) <==> IsLiteralOf(raw, t)
  {
    hide LiteralTail, Spell;
    var s := raw + rest;
    if Literal(s) == Some(Reading(t, |raw|)) {
      var atoms := TailIsSpelled(s[1..], 1);
      assert s[..|raw|] == raw;
      assert raw == [OPEN] + s[1..][..|raw| - 1];
      var read := LiteralTail(s[1..], 1).value.text;
      assert [] + read == read == t;
      assert raw == [OPEN] + Print(atoms) + [CLOSE];
      assert IsSpelling(raw, atoms, t);
    }
    if atoms :| IsSpelling(raw, atoms, t) {
      SpelledIsLiteral(raw, atoms, t, rest);
    }
  }

  lemma SpelledIsLiteral(raw: Text, atoms: seq<Atom>, t: Text, rest: Text)
    requires IsSpelling(raw, atoms, t)
    ensures Literal(raw + rest) == Some(Reading(t, |raw|))
  {
    hide LiteralTail, Spell, Print;
    var s := raw + rest;
    SpelledReads(atoms, t, 0, rest);
    assert s[1..] == Print(atoms) + [CLOSE] + rest;
    assert [] + t == t;
  }

  // Hexadecimal strings

  const LOWER: Text := [48, 49, 50, 51, 52, 53, 54, 55, 56, 57, 97, 98, 99, 100, 101, 102]
  const UPPER: Text := [48, 49, 50, 51, 52, 53, 54, 55, 56, 57, 65, 66, 67, 68, 69, 70]

  predicate IsDigitOf(b: Byte, v: nat) {
    v < 16 && (LOWER[v] == b || UPPER[v] == b)
  }

  /** NUL, tab, line feed, form feed, carriage return and space. */
  predicate IsWhite(b: Byte) {
    b == 0 || b == 9 || b == 10 || b == 12 || b == 13 || b == 32
  }

  lemma WhiteIs(b: Byte)
    ensures IsSpace(b) <==> IsWhite(b)
  {
  }

  /** The string without white space. */
  function Dense(s: Text): Text {
    if s == [] then [] else if IsWhite(s[0]) then Dense(s[1..]) else [s[0]] + Dense(s[1..])
  }

  /** Two digits make a byte; a missing last digit counts as zero. */
  predicate IsHexOf(d: Text, t: Text) {
    && |t| == (|d| + 1) / 2
    && forall i | 0 <= i < |t| ::
         IsDigitOf(d[2 * i], t[i] / 16) && (if 2 * i + 1 < |d| then IsDigitOf(d[2 * i + 1], t[i] % 16) else t[i] % 16 == 0)
  }

  lemma HexValueIs(b: Byte)
    ensures forall v: nat :: IsDigitOf(b, v) <==> HexValue(b) == Some(v)
  {
  }

  /** With an open digit in front of the rest. */
  predicate IsRestOf(high: Option<nat>, d: Text, t: Text) {
    if high.None? then IsHexOf(d, t)
    else
      && t != [] && t[0] / 16 == high.value
      && (if d == [] then t[0] % 16 == 0 && |t| == 1 else IsDigitOf(d[0], t[0] % 16) && IsHexOf(d[1..], t[1..]))
  }

  lemma HexFront(d: Text, t: Text)
    requires d != []
    ensures IsHexOf(d, t) <==> exists v :: IsDigitOf(d[0], v) && IsRestOf(Some(v), d[1..], t)
  {
    if IsHexOf(d, t) {
      assert IsDigitOf(d[2 * 0], t[0] / 16);
      var e, u := d[1..], t[1..];
      if e != [] {
        assert IsDigitOf(d[2 * 0 + 1], t[0] % 16);
        forall i | 0 <= i < |u|
          ensures IsDigitOf(e[1..][2 * i], u[i] / 16)
          ensures if 2 * i + 1 < |e| - 1 then IsDigitOf(e[1..][2 * i + 1], u[i] % 16) else u[i] % 16 == 0
        {
          assert u[i] == t[i + 1] && e[1..][2 * i] == d[2 * (i + 1)];
        }
      }
      assert IsRestOf(Some(t[0] / 16), e, t);
    }
    if v: nat :| IsDigitOf(d[0], v) && IsRestOf(Some(v), d[1..], t) {
      forall i | 0 <= i < |t|
        ensures IsDigitOf(d[2 * i], t[i] / 16)
        ensures if 2 * i + 1 < |d| then IsDigitOf(d[2 * i + 1], t[i] % 16) else t[i] % 16 == 0
      {
        if i > 0 {
          assert t[i] == t[1..][i - 1] && d[2 * i] == d[1..][1..][2 * (i - 1)];
        }
      }
    }
  }

  lemma {:induction false} HexIff(s: Text, high: Option<nat>, t: Text)
    requires high.Some? ==> high.value < 16
    ensures HexBytes(s, high) == Some(t) <==> IsRestOf(high, Dense(s), t)
    decreases |s|
  {
    hide IsDigitOf, IsHexOf, IsSpace, IsWhite;
    if s != [] {
      WhiteIs(s[0]);
    }
    if s == [] {
      NothingIsHex(high, t);
    } else if IsSpace(s[0]) {
      HexIff(s[1..], high, t);
    } else {
      HexValueIs(s[0]);
      var d := Dense(s[1..]);
      assert Dense(s) == [s[0]] + d && ([s[0]] + d)[1..] == d;
      if high.None? {
        HexFront(Dense(s), t);
        if HexValue(s[0]).Some? {
          HexIff(s[1..], HexValue(s[0]), t);
        }
      } else if HexValue(s[0]).Some? && t != [] {
        HexIff(s[1..], None, t[1..]);
        assert t == [t[0]] + t[1..];
      }
    }
  }

  lemma NothingIsHex(high: Option<nat>, t: Text)
    requires high.Some? ==> high.value < 16
    ensures HexBytes([], high) == Some(t) <==> IsRestOf(high, [], t)
  {
    if |t| == 1 {
      assert t == [t[0]];
    }
  }

  /** The inside of a hexadecimal string is read as this text exactly when its digits are the text's. */
  lemma HexIffDigits(inside: Text, t: Text)
    ensures HexBytes(inside, None) == Some(t) <==> IsHexOf(Dense(inside), t)
  {
    HexIff(inside, None, t);
  }
}
