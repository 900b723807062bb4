/** What a tag looks like: its end, and the name in it; and what stands between tags. */
module TagShapes {
  import opened Texts
  import opened Strings
  import opened Tags
  import opened Ooxml

  /** A character outside quotes, or a quoted stretch; inside quotes a `>` does not end the tag. */
  datatype Atom = Bare(c: char) | Quoted(quote: char, inside: string)

  function PrintAtom(a: Atom): (p: string)
    ensures p != ""
  {
    if a.Bare? then [a.c] else [a.quote] + a.inside + [a.quote]
  }

  function Print(atoms: seq<Atom>): string {
    if atoms == [] then "" else PrintAtom(atoms[0]) + Print(atoms[1..])
  }

  predicate IsAtom(a: Atom) {
    match a
    case Bare(c) => c != '"' && c != '\'' && c != '>'
    case Quoted(quote, inside) => (quote == '"' || quote == '\'') && quote !in inside
  }

  predicate AreAtoms(atoms: seq<Atom>) {
    forall k | 0 <= k < |atoms| :: IsAtom(atoms[k])
  }

  lemma {:induction false} QuoteCloses(s: string, i: nat, quote: char) returns (at: nat)
    requires i <= |s| && TagEnd(s, i, Some(quote)).Some?
    ensures i <= at < |s| && s[at] == quote && quote !in s[i..at]
    ensures TagEnd(s, i, Some(quote)) == TagEnd(s, at + 1, None)
    decreases |s| - i
  {
    if s[i] == quote {
      at := i;
    } else {
      at := QuoteCloses(s, i + 1, quote);
      assert s[i..at] == [s[i]] + s[i + 1..at];
    }
  }

  lemma {:induction false} QuotePasses(s: string, i: nat, quote: char, at: nat)
    requires i <= at < |s| && s[at] == quote && quote !in s[i..at]
    ensures TagEnd(s, i, Some(quote)) == TagEnd(s, at + 1, None)
    decreases at - i
  {
    if i < at {
      assert s[i] in s[i..at];
      assert s[i..at] == [s[i]] + s[i + 1..at];
      QuotePasses(s, i + 1, quote, at);
    }
  }

  lemma {:induction false} TagIsSpelled(s: string, i: nat) returns (atoms: seq<Atom>)
    requires i <= |s| && TagEnd(s, i, None).Some?
    ensures AreAtoms(atoms) && s[i..TagEnd(s, i, None).value] == Print(atoms) + ">"
    decreases |s| - i
  {
    hide PrintAtom;
    var end := TagEnd(s, i, None).value;
    if s[i] == '>' {
      atoms := [];
      assert s[i..end] == ">";
    } else {
      var first, next := FirstAtom(s, i);
      var others := TagIsSpelled(s, next);
      atoms := [first] + others;
      assert atoms[1..] == others;
      assert s[i..end] == s[i..next] + s[next..end];
    }
  }

  lemma FirstAtom(s: string, i: nat) returns (first: Atom, next: nat)
    requires i <= |s| && TagEnd(s, i, None).Some? && s[i] != '>'
    ensures i < next <= |s| && IsAtom(first) && s[i..next] == PrintAtom(first) && TagEnd(s, next, None) == TagEnd(s, i, None)
    ensures next < TagEnd(s, i, None).value
  {
    if s[i] == '"' || s[i] == '\'' {
      var at := QuoteCloses(s, i + 1, s[i]);
      first, next := Quoted(s[i], s[i + 1..at]), at + 1;
      assert s[i..next] == [s[i]] + s[i + 1..at] + [s[i]];
    } else {
      first, next := Bare(s[i]), i + 1;
    }
  }

  lemma {:induction false} SpelledEnds(s: string, i: nat, atoms: seq<Atom>, end: nat)
    requires i <= end <= |s| && AreAtoms(atoms) && s[i..end] == Print(atoms) + ">"
    ensures TagEnd(s, i, None) == Some(end)
    decreases |atoms|
  {
    hide PrintAtom, TagEnd;
    var shown := s[i..end];
    if atoms == [] {
      assert shown == ">";
      EndsHere(s, i, end);
    } else {
      var first, others := atoms[0], atoms[1..];
      var next := i + |PrintAtom(first)|;
      var p, x := PrintAtom(first), Print(others) + ">";
      assert shown == p + x;
      assert shown[..|p|] == p && shown[|p|..] == x;
      assert s[i..next] == shown[..|p|] && s[next..end] == shown[|p|..];
      AtomPasses(s, i, first);
      SpelledEnds(s, next, others, end);
    }
  }

  lemma EndsHere(s: string, i: nat, end: nat)
    requires i < end <= |s| && s[i..end] == ">"
    ensures TagEnd(s, i, None) == Some(end)
  {
    assert s[i] == s[i..end][0];
  }

  lemma AtomPasses(s: string, i: nat, a: Atom)
    requires i + |PrintAtom(a)| <= |s| && IsAtom(a) && s[i..i + |PrintAtom(a)|] == PrintAtom(a)
    ensures TagEnd(s, i, None) == TagEnd(s, i + |PrintAtom(a)|, None)
  {
    var p := PrintAtom(a);
    var n := |p|;
    var shown := s[i..i + n];
    assert s[i] == shown[0];
    if a.Quoted? {
      var at := i + n - 1;
      assert s[at] == shown[n - 1] == a.quote;
      assert s[i + 1..at] == shown[1..n - 1] == a.inside;
      QuotePasses(s, i + 1, a.quote, at);
    }
  }

  /** A tag ends at the first `>` outside quotes: its first character, whole atoms, and that `>`. */
  lemma TagEndIff(s: string, end: nat)
    requires 1 <= end <= |s|
    ensures TagEnd(s, 1, None) == Some(end) <==> exists atoms :: AreAtoms(atoms) && s[1..end] == Print(atoms) + ">"
  {
    hide TagEnd, AreAtoms, Print;
    if TagEnd(s, 1, None) == Some(end) {
      var atoms := TagIsSpelled(s, 1);
      assert AreAtoms(atoms) && s[1..end] == Print(atoms) + ">";
    }
    if atoms :| AreAtoms(atoms) && s[1..end] == Print(atoms) + ">" {
      SpelledEnds(s, 1, atoms, end);
    }
  }

  // Pieces of markup and text

  predicate IsRun(raw: string) {
    raw != "" && '<' !in raw
  }

  /** A comment up to its first `-->`, or anything else in angle brackets up to its first `>` outside quotes. */
  predicate IsMarkup(raw: string) {
    && raw != "" && raw[0] == '<'
    && if StartsWith(raw, "<!--") then Find(raw, "-->", 4) == Some(|raw| - 3) else TagEnd(raw, 1, None) == Some(|raw|)
  }

  // Names

  predicate EndsName(c: char) {
    IsAsciiSpace(c) || c == '/' || c == '>'
  }

  /** An opening bracket, perhaps a slash and white space, the name, and what ends it. */
  predicate IsNamed(raw: string, slash: string, blank: string, name: string, rest: string) {
    && raw == "<" + slash + blank + name + rest
    && (slash == "" || slash == "/") && (slash == "" ==> blank + name + rest == "" || (blank + name + rest)[0] != '/')
    && IsBlankText(blank) && name != "" && !IsSpace(name[0])
    && (forall k | 0 <= k < |name| :: !EndsName(name[k]))
    && (rest == "" || EndsName(rest[0]))
  }

  lemma {:induction false} NameEndIs(body: string, i: nat)
    requires i <= |body|
    ensures var end := NameEnd(body, i);
            (forall k | i <= k < end :: !EndsName(body[k])) && (end < |body| ==> EndsName(body[end]))
    decreases |body| - i
  {
    if i < |body| && !EndsName(body[i]) {
      NameEndIs(body, i + 1);
    }
  }

  /** The name of a tag is the run behind the bracket, the slash and white space. */
  lemma NameIff(raw: string, name: string)
    requires raw != "" && raw[0] == '<'
    ensures ElementName(raw) == Some(name) <==> exists slash, blank, rest :: IsNamed(raw, slash, blank, name, rest)
  {
    hide ElementName, IsNamed;
    if ElementName(raw) == Some(name) {
      var slash, blank, rest := NameParts(raw, name);
    }
    if slash, blank, rest :| IsNamed(raw, slash, blank, name, rest) {
      NamedIs(raw, slash, blank, name, rest);
    }
  }

  lemma NameParts(raw: string, name: string) returns (slash: string, blank: string, rest: string)
    requires raw != "" && raw[0] == '<' && ElementName(raw) == Some(name)
    ensures IsNamed(raw, slash, blank, name, rest)
  {
    hide NameEnd, EndsName, IsSpace, IsBlankText, TrimStart;
    slash := if |raw| > 1 && raw[1] == '/' then "/" else "";
    var inside := raw[1 + |slash|..];
    assert raw == "<" + slash + inside;
    blank := TrimmedIs(inside);
    var body := TrimStart(inside);
    rest := NameSplits(body, name);
    PartsJoin(slash, blank, name, rest);
    assert slash == "" && inside != "" ==> inside[0] == raw[1];
  }

  lemma NameSplits(body: string, name: string) returns (rest: string)
    requires name != "" && name == body[..NameEnd(body, 0)]
    ensures body == name + rest && name[0] == body[0]
    ensures (forall k | 0 <= k < |name| :: !EndsName(name[k])) && (rest == "" || EndsName(rest[0]))
  {
    hide NameEnd, EndsName;
    NameEndIs(body, 0);
    rest := body[|name|..];
    assert forall k | 0 <= k < |name| :: name[k] == body[k];
  }

  lemma PartsJoin(slash: string, blank: string, name: string, rest: string)
    ensures "<" + slash + (blank + (name + rest)) == "<" + slash + blank + name + rest
    ensures blank + (name + rest) == blank + name + rest
  {
  }

  lemma NamedIs(raw: string, slash: string, blank: string, name: string, rest: string)
    requires IsNamed(raw, slash, blank, name, rest)
    ensures ElementName(raw) == Some(name)
  {
    var inside := blank + (name + rest);
    assert raw == "<" + slash + inside;
    assert inside == blank + name + rest;
    if slash == "/" {
      assert raw[1] == '/' && raw[2..] == inside;
    } else {
      assert raw[1..] == inside && raw[1] == inside[0];
    }
    var body := name + rest;
    assert body[0] == name[0];
    BlankIsTrimmed(blank, body);
    NameEndIs(body, 0);
    assert forall k | 0 <= k < |name| :: body[k] == name[k];
    assert rest != "" ==> body[|name|] == rest[0];
    assert NameEnd(body, 0) == |name|;
    assert body[..|name|] == name;
  }

  // Attributes

  predicate StandsAt(raw: string, marker: string, at: nat) {
    at + |marker| <= |raw| && raw[at..at + |marker|] == marker
  }

  /** The first place where the name, an equals sign and this quote stand in a row. */
  predicate IsFirstMarker(raw: string, marker: string, at: nat) {
    StandsAt(raw, marker, at) && forall other | 0 <= other < at :: !StandsAt(raw, marker, other)
  }

  /** There stands the value, up to the next such quote. */
  predicate HasValueAt(raw: string, name: string, quote: char, value: string, at: nat) {
    var marker := name + "=" + [quote];
    var from := at + |marker|;
    && IsFirstMarker(raw, marker, at)
    && from + |value| < |raw| && raw[from..from + |value|] == value && quote !in value && raw[from + |value|] == quote
  }

  ghost predicate HasValue(raw: string, name: string, quote: char, value: string) {
    exists at: nat :: HasValueAt(raw, name, quote, value, at)
  }

  lemma QuotedIff(raw: string, name: string, quote: char, value: string)
    ensures QuotedAttribute(raw, name, quote) == Some(value) <==> HasValue(raw, name, quote, value)
  {
    var marker := name + "=" + [quote];
    var found := Find(raw, marker, 0);
    if found.Some? {
      var at := found.value;
      var rest := raw[at + |marker|..];
      MarkerIsFound(raw, marker, at);
      if QuotedAttribute(raw, name, quote) == Some(value) {
        assert raw[at + |marker|..at + |marker| + |value|] == rest[..|value|] == value;
        assert HasValueAt(raw, name, quote, value, at);
      }
    }
    if at: nat :| HasValueAt(raw, name, quote, value, at) {
      ValueIsRead(raw, name, quote, value, at);
    }
  }

  lemma MarkerIsFound(raw: string, marker: string, at: nat)
    ensures Find(raw, marker, 0) == Some(at) <==> IsFirstMarker(raw, marker, at)
  {
    if IsFirstMarker(raw, marker, at) {
      forall other: nat | other < at
        ensures !Matches(raw, marker, other)
      {
        assert !StandsAt(raw, marker, other);
      }
      assert Matches(raw, marker, at);
      FoundAt(raw, marker, 0, at);
    }
    if Find(raw, marker, 0) == Some(at) {
      forall other | 0 <= other < at
        ensures !StandsAt(raw, marker, other)
      {
        assert !Matches(raw, marker, other);
      }
    }
  }

  lemma ValueIsRead(raw: string, name: string, quote: char, value: string, at: nat)
    requires HasValueAt(raw, name, quote, value, at)
    ensures QuotedAttribute(raw, name, quote) == Some(value)
  {
    var marker := name + "=" + [quote];
    var rest := raw[at + |marker|..];
    MarkerIsFound(raw, marker, at);
    var shown := rest[..|value|];
    assert shown == value && rest[|value|] == quote;
    assert forall k | 0 <= k < |value| :: rest[k] == value[k];
    assert IndexOf(rest, quote, 0) == Some(|value|);
  }

  /** An attribute's value stands in double quotes behind its name, or else in single ones. */
  lemma AttributeIff(raw: string, name: string, value: string)
    ensures Attribute(raw, name) == Some(value) <==>
              HasValue(raw, name, '"', value) ||
              ((forall other :: !HasValue(raw, name, '"', other)) && HasValue(raw, name, '\'', value))
  {
    hide HasValue, QuotedAttribute;
    forall other, quote
      ensures QuotedAttribute(raw, name, quote) == Some(other) <==> HasValue(raw, name, quote, other)
    {
      QuotedIff(raw, name, quote, other);
    }
  }
}
