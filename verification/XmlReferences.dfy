/** What character data spells (XML 1.0, sections 4.1 and 4.6), against the reader. */
module XmlReferences {
  import opened Texts
  import opened XmlText

  /** A character as it is, one of the five entities, or a character reference in decimal or hexadecimal. */
  datatype Atom = Plain(c: char) | Named(name: string) | Decimal(digits: string) | Hexadecimal(digits: string)

  const NAMES: seq<string> := ["lt", "gt", "amp", "apos", "quot"]
  const NAMED: string := "<>&'\""
  const LOWER: string := "0123456789abcdef"
  const UPPER: string := "0123456789ABCDEF"

  /** What stands between the ampersand and the semicolon. */
  function Inside(a: Atom): string
    requires !a.Plain?
  {
    match a
    case Named(name) => name
    case Decimal(digits) => "#" + digits
    case Hexadecimal(digits) => "#x" + digits
  }

  function PrintAtom(a: Atom): string {
    if a.Plain? then [a.c] else "&" + Inside(a) + ";"
  }

  function Print(atoms: seq<Atom>): string {
    if atoms == [] then "" else PrintAtom(atoms[0]) + Print(atoms[1..])
  }

  predicate IsDigitOf(c: char, v: nat) {
    v < 16 && (LOWER[v] == c || UPPER[v] == c)
  }

  /** The digits write the number in this base, with any leading zeros. */
  predicate Denotes(digits: string, base: nat, v: nat)
    requires 2 <= base <= 16
  {
    if digits == "" then v == 0
    else IsDigitOf(digits[|digits| - 1], v % base) && Denotes(digits[..|digits| - 1], base, v / base)
  }

  ghost predicate StandsFor(a: Atom, c: char) {
    match a
    case Plain(p) => p == c && c != '&'
    case Named(name) => exists i | 0 <= i < |NAMES| :: NAMES[i] == name && NAMED[i] == c
    case Decimal(digits) => digits != "" && c != '\0' && Denotes(digits, 10, c as nat)
    case Hexadecimal(digits) => digits != "" && c != '\0' && Denotes(digits, 16, c as nat)
  }

  ghost predicate Spell(atoms: seq<Atom>, t: string) {
    |atoms| == |t| && forall k | 0 <= k < |t| :: StandsFor(atoms[k], t[k])
  }

  lemma DigitIs(c: char)
    ensures forall v: nat :: IsDigitOf(c, v) <==> DigitOf(c) == Some(v)
  {
  }

  lemma {:induction false} NumberIff(digits: string, base: nat, v: nat)
    requires base == 10 || base == 16
    ensures Number(digits, base) == Some(v) <==> Denotes(digits, base, v)
    decreases |digits|
  {
    hide IsDigitOf, DigitOf;
    if digits != "" {
      var last, front := digits[|digits| - 1], digits[..|digits| - 1];
      DigitIs(last);
      NumberIff(front, base, v / base);
      if Number(front, base).Some? && DigitOf(last).Some? && DigitOf(last).value < base {
        var high, low := Number(front, base).value, DigitOf(last).value;
        assert (high * base + low) / base == high && (high * base + low) % base == low;
      }
    }
  }

  lemma {:induction false} DigitsArePlain(digits: string, base: nat, v: nat)
    requires (base == 10 || base == 16) && Denotes(digits, base, v)
    ensures '&' !in digits && ';' !in digits && (base == 10 ==> 'x' !in digits)
  {
    if digits != "" {
      var last, front := digits[|digits| - 1], digits[..|digits| - 1];
      DigitsArePlain(front, base, v / base);
      assert digits == front + [last];
      assert IsDigitOf(last, v % base);
    }
  }

  lemma AtomIsEntity(a: Atom, c: char)
    requires !a.Plain? && StandsFor(a, c)
    ensures '&' !in Inside(a) && ';' !in Inside(a) && Entity(Inside(a)) == Some(c)
  {
    hide CharacterReference, Denotes;
    match a
    case Named(name) =>
    case Decimal(digits) =>
      DecimalIsReference(digits, c);
      assert Inside(a)[1..] == digits;
    case Hexadecimal(digits) =>
      HexadecimalIsReference(digits, c);
      assert Inside(a)[1..] == "x" + digits;
  }

  lemma DecimalIsReference(digits: string, c: char)
    requires StandsFor(Decimal(digits), c)
    ensures '&' !in digits && ';' !in digits && CharacterReference(digits) == Some(c)
  {
    hide Number, Denotes;
    DigitsArePlain(digits, 10, c as nat);
    NumberIff(digits, 10, c as nat);
    assert digits[0] in digits;
  }

  lemma HexadecimalIsReference(digits: string, c: char)
    requires StandsFor(Hexadecimal(digits), c)
    ensures '&' !in digits && ';' !in digits && CharacterReference("x" + digits) == Some(c)
  {
    hide Number, Denotes;
    DigitsArePlain(digits, 16, c as nat);
    NumberIff(digits, 16, c as nat);
    assert ("x" + digits)[1..] == digits;
  }

  lemma EntityIsAtom(name: string) returns (a: Atom)
    requires Entity(name).Some?
    ensures !a.Plain? && Inside(a) == name && StandsFor(a, Entity(name).value)
  {
    hide Number, Denotes;
    if name in NAMES {
      a := Named(name);
      var i :| 0 <= i < |NAMES| && NAMES[i] == name;
      assert Entity(name).value == NAMED[i];
    } else {
      var rest := name[1..];
      var v: nat := Entity(name).value as nat;
      if rest[0] == 'x' {
        a := Hexadecimal(rest[1..]);
        NumberIff(rest[1..], 16, v);
        assert name == "#x" + rest[1..];
      } else {
        a := Decimal(rest);
        NumberIff(rest, 10, v);
        assert name == "#" + rest;
      }
    }
  }

  lemma AtomReads(a: Atom, c: char, rest: string)
    requires StandsFor(a, c)
    ensures Unescape(PrintAtom(a) + rest) == Front(c, Unescape(rest))
  {
    hide Unescape, Entity;
    if a.Plain? {
      PlainReads(c, rest);
    } else {
      AtomIsEntity(a, c);
      EntityReads(Inside(a), c, rest);
      assert PrintAtom(a) + rest == "&" + Inside(a) + ";" + rest;
    }
  }

  lemma AtomOf(s: string) returns (a: Atom, c: char, rest: string)
    requires s != "" && Unescape(s).Some?
    ensures s == PrintAtom(a) + rest && StandsFor(a, c) && Unescape(s) == Front(c, Unescape(rest))
  {
    hide StandsFor, Entity;
    if s[0] != '&' {
      a, c, rest := Plain(s[0]), s[0], s[1..];
      assert StandsFor(a, c) by {
        PlainStands(c);
      }
    } else {
      var k := Delimiter(s[1..]).value;
      var name := s[1..1 + k];
      c, rest := Entity(name).value, s[k + 2..];
      a := EntityIsAtom(name);
      DelimiterIs(s[1..]);
      assert s[1 + k] == s[1..][k] == ';';
      assert s == "&" + name + ";" + rest;
    }
  }

  lemma PlainStands(c: char)
    requires c != '&'
    ensures StandsFor(Plain(c), c)
  {
  }

  lemma {:induction false} DelimiterIs(s: string)
    ensures var at := Delimiter(s); at.Some? ==> s[at.value] == '&' || s[at.value] == ';'
  {
    if s != "" && s[0] != '&' && s[0] != ';' {
      DelimiterIs(s[1..]);
    }
  }

  lemma {:induction false} SpelledReads(atoms: seq<Atom>, t: string)
    requires Spell(atoms, t)
    ensures Unescape(Print(atoms)) == Some(t)
    decreases |atoms|
  {
    hide Unescape, StandsFor, PrintAtom;
    if atoms == [] {
      NothingReads();
    } else {
      SpelledReads(atoms[1..], t[1..]);
      AtomReads(atoms[0], t[0], Print(atoms[1..]));
      assert t == [t[0]] + t[1..];
    }
  }

  lemma {:induction false} ReadIsSpelled(s: string) returns (atoms: seq<Atom>)
    requires Unescape(s).Some?
    ensures s == Print(atoms) && Spell(atoms, Unescape(s).value)
    decreases |s|
  {
    hide Unescape, StandsFor, PrintAtom;
    if s == "" {
      NothingReads();
      atoms := [];
    } else {
      var a, c, rest := AtomOf(s);
      assert |rest| < |s| by {
        AtomIsLong(a);
      }
      var others := ReadIsSpelled(rest);
      atoms := [a] + others;
      assert atoms[1..] == others;
    }
  }

  lemma AtomIsLong(a: Atom)
    ensures PrintAtom(a) != ""
  {
  }

  /** Character data is read as this text exactly when atoms that stand for its characters spell it. */
  lemma UnescapeIffSpelled(s: string, t: string)
    ensures Unescape(s) == Some(t) <==> exists atoms :: s == Print(atoms) && Spell(atoms, t)
  {
    hide Unescape, Spell, Print;
    if Unescape(s) == Some(t) {
      var atoms := ReadIsSpelled(s);
      assert s == Print(atoms) && Spell(atoms, t);
    }
    if atoms :| s == Print(atoms) && Spell(atoms, t) {
      SpelledReads(atoms, t);
    }
  }
}
