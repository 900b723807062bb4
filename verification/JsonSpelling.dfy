/** What JSON literals and numbers spell (RFC 8259, sections 6 and 7), against the readers. */
module JsonSpelling {
  import opened Texts
  import opened Strings
  import opened JsonText

  // String literals

  /** A character as it is, a two-character escape, a code unit, or the two halves of a character beyond the first plane. */
  datatype Atom = Plain(c: char) | Short(letter: char) | Unit(digits: string) | Pair(high: string, low: string)

  const LETTERS: string := "\"\\/bfnrt"
  const MEANINGS: string := "\"\\/\U{8}\U{c}\n\r\t"
  const LOWER: string := "0123456789abcdef"
  const UPPER: string := "0123456789ABCDEF"

  function PrintAtom(a: Atom): (p: string)
    ensures p != ""
  {
    match a
    case Plain(c) => [c]
    case Short(letter) => ['\\', letter]
    case Unit(digits) => "\\u" + digits
    case Pair(high, low) => "\\u" + high + "\\u" + low
  }

  function Print(atoms: seq<Atom>): string {
    if atoms == [] then "" else PrintAtom(atoms[0]) + Print(atoms[1..])
  }

  predicate IsDigitOf(c: char, v: nat) {
    v < 16 && (LOWER[v] == c || UPPER[v] == c)
  }

  /** Four hexadecimal digits of either case. */
  predicate IsUnitOf(d: string, v: nat) {
    && |d| == 4 && v < 0x1_0000
    && IsDigitOf(d[0], v / 4096) && IsDigitOf(d[1], v / 256 % 16) && IsDigitOf(d[2], v / 16 % 16) && IsDigitOf(d[3], v % 16)
  }

  ghost predicate StandsFor(a: Atom, c: char) {
    match a
    case Plain(p) => p == c && c >= ' ' && c != '"' && c != '\\'
    case Short(letter) => exists i | 0 <= i < |LETTERS| :: LETTERS[i] == letter && MEANINGS[i] == c
    case Unit(digits) => IsUnitOf(digits, c as nat)
    case Pair(high, low) =>
      c >= '\U{10000}' &&
      IsUnitOf(high, 0xD800 + (c as nat - 0x1_0000) / 1024) && IsUnitOf(low, 0xDC00 + (c as nat - 0x1_0000) % 1024)
  }

  /** Every character of the text has its atom. */
  ghost predicate Spell(atoms: seq<Atom>, t: string) {
    |atoms| == |t| && forall k | 0 <= k < |t| :: StandsFor(atoms[k], t[k])
  }

  lemma DigitIs(c: char)
    ensures forall v: nat :: IsDigitOf(c, v) <==> IsHex(c) && HexDigit(c) == v
  {
  }

  lemma DigitReads(c: char, v: nat)
    requires IsDigitOf(c, v)
    ensures IsHex(c) && HexDigit(c) == v
  {
  }

  lemma UnitSize(d: string, v: nat)
    requires IsUnitOf(d, v)
    ensures |d| == 4 && v == v / 4096 * 4096 + v / 256 % 16 * 256 + v / 16 % 16 * 16 + v % 16
  {
    hide IsDigitOf;
    Recombines(v);
  }

  lemma Recombines(v: nat)
    ensures v == v / 4096 * 4096 + v / 256 % 16 * 256 + v / 16 % 16 * 16 + v % 16
  {
    Shifts(v);
    var x := v / 16;
    var y := x / 16;
    assert v == x * 16 + v % 16 && x == y * 16 + x % 16 && y == y / 16 * 16 + y % 16;
  }

  lemma UnitReads(d: string, v: nat, rest: string)
    requires IsUnitOf(d, v)
    ensures HexUnit(d + rest) == Some(v)
  {
    hide IsDigitOf, IsHex, HexDigit;
    var s := d + rest;
    UnitSize(d, v);
    assert s[0] == d[0] && s[1] == d[1] && s[2] == d[2] && s[3] == d[3];
    DigitReads(d[0], v / 4096);
    DigitReads(d[1], v / 256 % 16);
    DigitReads(d[2], v / 16 % 16);
    DigitReads(d[3], v % 16);
  }

  lemma UnitIs(s: string)
    requires HexUnit(s).Some?
    ensures |s| >= 4 && HexUnit(s).value < 0x1_0000 && IsUnitOf(s[..4], HexUnit(s).value)
  {
    hide IsDigitOf;
    DigitIs(s[0]);
    DigitIs(s[1]);
    DigitIs(s[2]);
    DigitIs(s[3]);
    Nibbles(HexDigit(s[0]), HexDigit(s[1]), HexDigit(s[2]), HexDigit(s[3]));
  }

  lemma Nibbles(a: nat, b: nat, c: nat, d: nat)
    requires a < 16 && b < 16 && c < 16 && d < 16
    ensures var v := a * 4096 + b * 256 + c * 16 + d;
            v < 0x1_0000 && v / 4096 == a && v / 256 % 16 == b && v / 16 % 16 == c && v % 16 == d
  {
    var x := a * 16 + b;
    var y := x * 16 + c;
    Nibble(y, d);
    Nibble(x, c);
    Nibble(a, b);
    Shifts(y * 16 + d);
  }

  lemma Nibble(high: nat, low: nat)
    requires low < 16
    ensures (high * 16 + low) / 16 == high && (high * 16 + low) % 16 == low
  {
  }

  lemma Shifts(v: nat)
    ensures v / 256 == v / 16 / 16 && v / 4096 == v / 16 / 16 / 16
  {
  }

  lemma AtomReads(a: Atom, c: char, rest: string)
    requires StandsFor(a, c)
    ensures DecodeInner(PrintAtom(a) + rest) == Front(c, DecodeInner(rest))
  {
    hide DecodeInner, HexUnit, IsUnitOf, UnicodeAt;
    match a
    case Plain(_) => PlainReads(c, rest);
    case Short(letter) => ShortReads(letter, c, rest);
    case Unit(digits) => UnitAtomReads(digits, c, rest);
    case Pair(high, low) => PairAtomReads(high, low, c, rest);
  }

  lemma PlainReads(c: char, rest: string)
    requires StandsFor(Plain(c), c)
    ensures DecodeInner([c] + rest) == Front(c, DecodeInner(rest))
  {
    assert ([c] + rest)[1..] == rest;
  }

  lemma ShortReads(letter: char, c: char, rest: string)
    requires StandsFor(Short(letter), c)
    ensures DecodeInner(['\\', letter] + rest) == Front(c, DecodeInner(rest))
  {
    var s := ['\\', letter] + rest;
    assert s[1..] == [letter] + rest && s[2..] == rest;
    assert EscapeAt(s[1..]) == Some(Escaped(c, 1));
  }

  lemma UnitAtomReads(digits: string, c: char, rest: string)
    requires StandsFor(Unit(digits), c)
    ensures DecodeInner(PrintAtom(Unit(digits)) + rest) == Front(c, DecodeInner(rest))
  {
    hide DecodeInner, IsUnitOf, UnicodeAt;
    var s := PrintAtom(Unit(digits)) + rest;
    UnitSize(digits, c as nat);
    assert s[1..] == "u" + digits + rest && s[6..] == rest;
    OneUnitReads(digits, c, rest);
    DecodeEscape(s, c, 5, rest);
  }

  lemma PairAtomReads(high: string, low: string, c: char, rest: string)
    requires StandsFor(Pair(high, low), c)
    ensures DecodeInner(PrintAtom(Pair(high, low)) + rest) == Front(c, DecodeInner(rest))
  {
    hide DecodeInner, IsUnitOf, UnicodeAt;
    var s := PrintAtom(Pair(high, low)) + rest;
    var n: nat := c as nat - 0x1_0000;
    UnitSize(high, 0xD800 + n / 1024);
    UnitSize(low, 0xDC00 + n % 1024);
    assert s[1..] == "u" + high + "\\u" + low + rest && s[12..] == rest;
    TwoUnitsRead(high, low, c, rest);
    DecodeEscape(s, c, 11, rest);
  }

  lemma DecodeEscape(s: string, c: char, n: nat, rest: string)
    requires |s| == 1 + n + |rest| && s[0] == '\\' && s[1 + n..] == rest
    requires n > 0 && s[1] == 'u' && UnicodeAt(s[1..]) == Some(Escaped(c, n))
    ensures DecodeInner(s) == Front(c, DecodeInner(rest))
  {
    hide UnicodeAt;
  }

  lemma OneUnitReads(d: string, c: char, rest: string)
    requires IsUnitOf(d, c as nat)
    ensures UnicodeAt("u" + d + rest) == Some(Escaped(c, 5))
  {
    hide HexUnit;
    var s := "u" + d + rest;
    UnitReads(d, c as nat, rest);
    assert s[1..] == d + rest;
  }

  lemma TwoUnitsRead(high: string, low: string, c: char, rest: string)
    requires StandsFor(Pair(high, low), c)
    ensures UnicodeAt("u" + high + "\\u" + low + rest) == Some(Escaped(c, 11))
  {
    hide IsUnitOf, HexUnit;
    var s := "u" + high + "\\u" + low + rest;
    var n: nat := c as nat - 0x1_0000;
    var h, l := 0xD800 + n / 1024, 0xDC00 + n % 1024;
    UnitSize(high, h);
    UnitSize(low, l);
    UnitReads(high, h, "\\u" + low + rest);
    UnitReads(low, l, rest);
    assert s[1..] == high + ("\\u" + low + rest);
    assert s[7..] == low + rest;
    PairReads(s, h, l);
    assert 0x1_0000 + (h - 0xD800) * 1024 + (l - 0xDC00) == c as nat;
  }

  lemma PairReads(s: string, high: nat, low: nat)
    requires |s| >= 11 && s[5] == '\\' && s[6] == 'u' && HexUnit(s[1..]) == Some(high) && HexUnit(s[7..]) == Some(low)
    requires 0xD800 <= high < 0xDC00 && 0xDC00 <= low < 0xE000
    ensures UnicodeAt(s) == Some(Escaped((0x1_0000 + (high - 0xD800) * 1024 + (low - 0xDC00)) as char, 11))
  {
    hide HexUnit;
  }

  /** Whatever is decoded first is one atom. */
  lemma AtomOf(s: string) returns (a: Atom, c: char, rest: string)
    requires s != "" && DecodeInner(s).Some?
    ensures s == PrintAtom(a) + rest && StandsFor(a, c) && DecodeInner(s) == Front(c, DecodeInner(rest))
  {
    hide EscapeAt;
    if s[0] != '\\' {
      a, c, rest := Plain(s[0]), s[0], s[1..];
    } else {
      var e := EscapeAt(s[1..]).value;
      c, rest := e.c, s[1 + e.length..];
      a := EscapeIsAtom(s[1..]);
      assert s == ['\\'] + s[1..][..e.length] + rest;
    }
  }

  lemma EscapeIsAtom(s: string) returns (a: Atom)
    requires EscapeAt(s).Some?
    ensures var e := EscapeAt(s).value;
            PrintAtom(a) == ['\\'] + s[..e.length] && StandsFor(a, e.c)
  {
    hide UnicodeAt, StandsFor;
    if s[0] == 'u' {
      a := UnicodeIsAtom(s);
    } else {
      a := Short(s[0]);
      ShortIs(s);
      assert s[..1] == [s[0]];
    }
  }

  lemma ShortIs(s: string)
    requires s != "" && s[0] != 'u' && EscapeAt(s).Some?
    ensures StandsFor(Short(s[0]), EscapeAt(s).value.c) && EscapeAt(s).value.length == 1
  {
    var i := if s[0] == '"' then 0 else if s[0] == '\\' then 1 else if s[0] == '/' then 2 else if s[0] == 'b' then 3
             else if s[0] == 'f' then 4 else if s[0] == 'n' then 5 else if s[0] == 'r' then 6 else 7;
    assert LETTERS[i] == s[0] && MEANINGS[i] == EscapeAt(s).value.c;
  }

  lemma UnicodeIsAtom(s: string) returns (a: Atom)
    requires s != "" && s[0] == 'u' && UnicodeAt(s).Some?
    ensures var e := UnicodeAt(s).value;
            PrintAtom(a) == ['\\'] + s[..e.length] && StandsFor(a, e.c)
  {
    hide HexUnit, IsUnitOf;
    var e := UnicodeAt(s).value;
    UnitIs(s[1..]);
    assert s[1..][..4] == s[1..5];
    if e.length == 5 {
      a := Unit(s[1..5]);
    } else {
      UnitIs(s[7..]);
      a := Pair(s[1..5], s[7..11]);
      assert s[7..][..4] == s[7..11];
      var high, low := HexUnit(s[1..]).value, HexUnit(s[7..]).value;
      Halves(high, low);
      assert s[..11] == "u" + s[1..5] + "\\u" + s[7..11];
    }
  }

  lemma Halves(high: nat, low: nat)
    requires 0xD800 <= high < 0xDC00 && 0xDC00 <= low < 0xE000
    ensures var n := (high - 0xD800) * 1024 + (low - 0xDC00);
            0xD800 + n / 1024 == high && 0xDC00 + n % 1024 == low && n < 0x10_0000
  {
  }

  lemma {:induction false} SpelledReads(atoms: seq<Atom>, t: string)
    requires Spell(atoms, t)
    ensures DecodeInner(Print(atoms)) == Some(t)
    decreases |atoms|
  {
    hide DecodeInner, StandsFor, PrintAtom;
    if atoms == [] {
      EmptyReads();
    } else {
      SpelledReads(atoms[1..], t[1..]);
      AtomReads(atoms[0], t[0], Print(atoms[1..]));
      assert t == [t[0]] + t[1..];
    }
  }

  lemma {:induction false} DecodedIsSpelled(s: string) returns (atoms: seq<Atom>)
    requires DecodeInner(s).Some?
    ensures s == Print(atoms) && Spell(atoms, DecodeInner(s).value)
    decreases |s|
  {
    hide DecodeInner, StandsFor, PrintAtom;
    if s == "" {
      EmptyReads();
      atoms := [];
    } else {
      var a, c, rest := AtomOf(s);
      var others := DecodedIsSpelled(rest);
      atoms := [a] + others;
      assert atoms[1..] == others;
    }
  }

  /** A literal is decoded to this text exactly when it is quotes around atoms that stand for its characters. */
  lemma DecodeIffSpelled(raw: string, t: string)
    ensures Decode(raw) == Some(t) <==> exists atoms :: raw == "\"" + Print(atoms) + "\"" && Spell(atoms, t)
  {
    hide DecodeInner, Spell, Print;
    if Decode(raw) == Some(t) {
      var inner := raw[1..|raw| - 1];
      var atoms := DecodedIsSpelled(inner);
      assert raw == "\"" + inner + "\"";
      assert raw == "\"" + Print(atoms) + "\"" && Spell(atoms, t);
    }
    if atoms :| raw == "\"" + Print(atoms) + "\"" && Spell(atoms, t) {
      SpelledReads(atoms, t);
      assert raw[1..|raw| - 1] == Print(atoms);
    }
  }

  // Numbers

  predicate IsDigitRun(s: string) {
    s != "" && AllDigits(s)
  }

  /** No digit in front of others is a leading zero. */
  predicate IsWhole(s: string) {
    IsDigitRun(s) && (s[0] == '0' ==> |s| == 1)
  }

  predicate IsFraction(s: string) {
    s == "" || (s[0] == '.' && IsDigitRun(s[1..]))
  }

  predicate IsPower(s: string) {
    s == "" || ((s[0] == 'e' || s[0] == 'E') && (IsDigitRun(s[1..]) || (|s| >= 2 && (s[1] == '+' || s[1] == '-') && IsDigitRun(s[2..]))))
  }

  predicate IsParts(s: string, minus: string, whole: string, fraction: string, power: string) {
    && s == minus + whole + fraction + power && (minus == "" || minus == "-")
    && IsWhole(whole) && IsFraction(fraction) && IsPower(power)
  }

  /** An optional minus, digits, and perhaps a fraction and a power of ten. */
  ghost predicate IsNumberText(s: string) {
    exists minus, whole, fraction, power :: IsParts(s, minus, whole, fraction, power)
  }

  lemma {:induction false} DigitsAre(s: string)
    ensures AllDigits(s[..Digits(s)]) && (Digits(s) < |s| ==> !IsDecimalDigit(s[Digits(s)]))
    ensures Digits(s) == |s| <==> AllDigits(s)
  {
    if s != "" && IsDecimalDigit(s[0]) {
      DigitsAre(s[1..]);
      var n := Digits(s);
      assert s[..n] == [s[0]] + s[1..][..n - 1];
    }
  }

  lemma {:induction false} DigitsInFront(d: string, rest: string)
    requires AllDigits(d) && (rest == "" || !IsDecimalDigit(rest[0]))
    ensures Digits(d + rest) == |d|
  {
    var s := d + rest;
    if d == "" {
      assert s == rest;
    } else {
      assert s[1..] == d[1..] + rest && s[0] == d[0];
      DigitsInFront(d[1..], rest);
    }
  }

  lemma PowerIs(s: string)
    ensures IsExponent(s) <==> IsPower(s)
  {
    if s != "" {
      DigitsAre(s[1..]);
      if |s| >= 2 {
        DigitsAre(s[2..]);
        assert s[1..][0] == s[1];
      }
    }
  }

  /** A run of characters is a number exactly when it has the parts of one in their order. */
  lemma NumberIffParts(s: string)
    ensures IsNumber(s) <==> IsNumberText(s)
  {
    hide Digits, IsExponent, IsPower, AllDigits;
    if IsNumber(s) {
      var minus, whole, fraction, power := PartsOf(s);
      assert IsParts(s, minus, whole, fraction, power);
    }
    if minus, whole, fraction, power :| IsParts(s, minus, whole, fraction, power) {
      PartsRead(s, minus, whole, fraction, power);
    }
  }

  /** A number without its sign. */
  predicate IsUnsigned(body: string) {
    var whole := Digits(body);
    whole > 0 && (body[0] == '0' ==> whole == 1) && IsTail(body[whole..])
  }

  predicate IsTail(rest: string) {
    if rest != "" && rest[0] == '.' then var n := Digits(rest[1..]); n > 0 && IsExponent(rest[1 + n..]) else IsExponent(rest)
  }

  lemma NumberIsSigned(s: string)
    ensures IsNumber(s) <==> IsUnsigned(if s != "" && s[0] == '-' then s[1..] else s)
  {
    hide Digits, IsExponent;
  }

  lemma PartsOf(s: string) returns (minus: string, whole: string, fraction: string, power: string)
    requires IsNumber(s)
    ensures IsParts(s, minus, whole, fraction, power)
  {
    hide IsNumber, IsPower, IsFraction, IsUnsigned, IsWhole;
    NumberIsSigned(s);
    minus := if s != "" && s[0] == '-' then "-" else "";
    var body := s[|minus|..];
    var rest;
    whole, rest := WholeOf(body);
    fraction, power := FractionOf(rest);
    assert s == minus + body;
    PartsJoin(minus, whole, fraction, power);
  }

  lemma PartsJoin(minus: string, whole: string, fraction: string, power: string)
    ensures minus + (whole + (fraction + power)) == minus + whole + fraction + power
  {
  }

  lemma WholeOf(body: string) returns (whole: string, rest: string)
    requires IsUnsigned(body)
    ensures body == whole + rest && IsWhole(whole) && IsTail(rest)
  {
    hide Digits, IsTail, AllDigits;
    DigitsAre(body);
    whole, rest := body[..Digits(body)], body[Digits(body)..];
    assert whole[0] == body[0];
  }

  lemma FractionOf(rest: string) returns (fraction: string, power: string)
    requires IsTail(rest)
    ensures rest == fraction + power && IsFraction(fraction) && IsPower(power)
  {
    hide Digits, IsExponent, IsPower, AllDigits;
    if rest != "" && rest[0] == '.' {
      var n := Digits(rest[1..]);
      fraction, power := rest[..1 + n], rest[1 + n..];
      DigitsAre(rest[1..]);
      assert fraction[1..] == rest[1..][..n];
    } else {
      fraction, power := "", rest;
    }
    PowerIs(power);
  }

  lemma PartsRead(s: string, minus: string, whole: string, fraction: string, power: string)
    requires IsParts(s, minus, whole, fraction, power)
    ensures IsNumber(s)
  {
    hide IsNumber, IsPower, IsFraction, IsUnsigned;
    var body := whole + (fraction + power);
    assert s == minus + body;
    TailReads(fraction, power);
    WholeReads(whole, fraction + power);
    assert minus == "" ==> s == body;
    assert minus == "-" ==> s[1..] == body;
    NumberIsSigned(s);
  }

  lemma WholeReads(whole: string, rest: string)
    requires IsWhole(whole) && IsTail(rest)
    requires rest != "" ==> !IsDecimalDigit(rest[0])
    ensures IsUnsigned(whole + rest) && (whole + rest)[0] != '-'
  {
    hide Digits, IsTail, AllDigits;
    var body := whole + rest;
    DigitsInFront(whole, rest);
    FirstDigit(whole);
    assert body[0] == whole[0] && body[|whole|..] == rest;
  }

  lemma TailReads(fraction: string, power: string)
    requires IsFraction(fraction) && IsPower(power)
    ensures var rest := fraction + power; IsTail(rest) && (rest != "" ==> !IsDecimalDigit(rest[0]))
  {
    hide Digits, IsExponent, AllDigits;
    var rest := fraction + power;
    PowerIs(power);
    if fraction == "" {
      assert rest == power;
    } else {
      assert rest[0] == fraction[0] && rest[1..] == fraction[1..] + power;
      DigitsInFront(fraction[1..], power);
      assert rest[1 + (|fraction| - 1)..] == power;
    }
  }

  lemma FirstDigit(s: string)
    requires s != "" && AllDigits(s)
    ensures IsDecimalDigit(s[0])
  {
  }

  predicate HoldsNoEnd(s: string) {
    forall k | 0 <= k < |s| :: !EndsPrimitive(s[k])
  }

  lemma EndsJoin(a: string, b: string)
    ensures HoldsNoEnd(a + b) <==> HoldsNoEnd(a) && HoldsNoEnd(b)
  {
    var s := a + b;
    assert HoldsNoEnd(s) ==> forall k | 0 <= k < |a| :: s[k] == a[k];
    if HoldsNoEnd(s) {
      forall k | 0 <= k < |b| ensures !EndsPrimitive(b[k]) {
        var i := |a| + k;
        assert s[i] == b[k];
      }
    }
  }

  lemma DigitsHoldNoEnd(s: string)
    requires AllDigits(s)
    ensures HoldsNoEnd(s)
  {
  }

  lemma PowerHoldsNoEnd(s: string)
    requires IsPower(s) || IsFraction(s)
    ensures HoldsNoEnd(s)
  {
    if s != "" {
      var n := if IsDigitRun(s[1..]) then 1 else 2;
      DigitsHoldNoEnd(s[n..]);
      EndsJoin(s[..n], s[n..]);
      assert s == s[..n] + s[n..];
    }
  }

  /** A number does not hold what would end it. */
  lemma NumberHoldsNoEnd(s: string)
    requires IsNumberText(s)
    ensures HoldsNoEnd(s)
  {
    hide IsPower, IsFraction, AllDigits, HoldsNoEnd;
    var minus, whole, fraction, power :| IsParts(s, minus, whole, fraction, power);
    DigitsHoldNoEnd(whole);
    PowerHoldsNoEnd(fraction);
    PowerHoldsNoEnd(power);
    MinusHoldsNoEnd();
    EndsJoin(minus, whole);
    EndsJoin(minus + whole, fraction);
    EndsJoin(minus + whole + fraction, power);
  }

  lemma MinusHoldsNoEnd()
    ensures HoldsNoEnd("") && HoldsNoEnd("-")
  {
  }
}
