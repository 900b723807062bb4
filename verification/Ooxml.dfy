/** Text nodes of OOXML parts: finding them and replacing their contents. */
module Ooxml {
  import opened Texts
  import opened Strings
  import opened Tags

  datatype Kind = Docx | Pptx | Xlsx

  function TextName(kind: Kind): string {
    match kind
    case Docx => "w:t"
    case Pptx => "a:t"
    case Xlsx => "t"
  }

  function CloseMarker(kind: Kind): string {
    "</" + TextName(kind) + ">"
  }

  /** The cell and the shared string that enclose the cursor, and how many shared strings were opened. */
  datatype Cells = Cells(cell: Option<string>, shared: Option<nat>, next: nat)

  const OUTSIDE: Cells := Cells(None, None, 0)

  function ElementName(raw: string): Option<string>
    requires raw != ""
  {
    var body := TrimStart(if |raw| > 1 && raw[1] == '/' then raw[2..] else raw[1..]);
    var name := body[..NameEnd(body, 0)];
    if name == "" then None else Some(name)
  }

  function QuotedAttribute(raw: string, name: string, quote: char): Option<string> {
    var marker := name + "=" + [quote];
    match Find(raw, marker, 0)
    case None => None
    case Some(at) =>
      var rest := raw[at + |marker|..];
      match IndexOf(rest, quote, 0) case None => None case Some(end) => Some(rest[..end])
  }

  function Attribute(raw: string, name: string): Option<string> {
    match QuotedAttribute(raw, name, '"')
    case Some(value) => Some(value)
    case None => QuotedAttribute(raw, name, '\'')
  }

  predicate IsClosing(raw: string) {
    StartsWith(raw, "</")
  }

  function AfterTag(raw: string, kind: Kind, cells: Cells): Cells
    requires raw != ""
  {
    if !kind.Xlsx? then cells
    else if ElementName(raw) == Some("c") then
      cells.(cell := if IsClosing(raw) then None else Attribute(raw, "r"))
    else if ElementName(raw) == Some("si") then
      if IsClosing(raw) then cells.(shared := None) else Cells(cells.cell, Some(cells.next), cells.next + 1)
    else cells
  }

  predicate OpensText(raw: string, kind: Kind)
    requires raw != ""
  {
    ElementName(raw) == Some(TextName(kind)) && !IsClosing(raw) &&
    !(|raw| >= 2 && raw[|raw| - 2..] == "/>")
  }

  /** Markup, or the content of a text node with its place in the sheet. */
  datatype Piece = Markup(raw: string) | Content(raw: string, cell: Option<string>, shared: Option<nat>)

  /** The markup up to the end of the next tag, and what that tag makes of the state. */
  datatype Head = Head(length: nat, cells: Cells, text: bool)

  function NextTag(s: string, kind: Kind, cells: Cells): (head: Option<Head>)
    requires '<' in s
    ensures head.Some? ==> 0 < head.value.length <= |s|
  {
    var at := IndexOf(s, '<', 0).value;
    match TagEnd(s, at + 1, None)
    case None => None
    case Some(end) =>
      var raw := s[at..end];
      Some(Head(end, AfterTag(raw, kind, cells), OpensText(raw, kind)))
  }

  /** The content in front of the close marker; it may not hold markup. */
  function ContentLength(s: string, kind: Kind): (n: Option<nat>)
    ensures n.Some? ==> n.value + |CloseMarker(kind)| <= |s|
  {
    match Find(s, CloseMarker(kind), 0)
    case None => None
    case Some(n) => if '<' in s[..n] then None else Some(n)
  }

  function Scan(s: string, kind: Kind, cells: Cells): Option<seq<Piece>>
    decreases |s|
  {
    if '<' !in s then Some([Markup(s)])
    else
      match NextTag(s, kind, cells)
      case None => None
      case Some(head) =>
        var rest := s[head.length..];
        if !head.text then Prepend([Markup(s[..head.length])], Scan(rest, kind, head.cells))
        else
          match ContentLength(rest, kind)
          case None => None
          case Some(n) =>
            Prepend([Markup(s[..head.length]), Content(rest[..n], head.cells.cell, head.cells.shared), Markup(CloseMarker(kind))],
                    Scan(rest[n + |CloseMarker(kind)|..], kind, head.cells))
  }

  function Prepend(first: seq<Piece>, rest: Option<seq<Piece>>): Option<seq<Piece>> {
    if rest.Some? then Some(first + rest.value) else None
  }

  /** A part as the codec reads it; `accepts` is the XML library's test for well-formedness without a DTD. */
  function Parse(xml: string, kind: Kind, accepts: string -> bool): Option<seq<Piece>> {
    if !accepts(xml) || '\0' in xml then None else Scan(xml, kind, OUTSIDE)
  }
}
