/** JSON values as trees, and what a path finds in them: the parser's paths mean what they say. */
module JsonTree {
  import opened Texts
  import opened JsonText
  import opened JsonSpelling
  import opened JsonDocument

  /** A value with the white space in front of its symbols. */
  datatype Node =
    | Word(blank: string, word: string)
    | Literal(blank: string, raw: string)
    | EmptyObject(blank: string, close: string)
    | Object(blank: string, entries: ObjectBody)
    | EmptyList(blank: string, close: string)
    | List(blank: string, items: ListBody)

  datatype ObjectBody = Entry(keyBlank: string, key: string, colon: string, value: Node, tail: ObjectTail)

  datatype ObjectTail = EndObject(close: string) | AndEntry(comma: string, body: ObjectBody)

  datatype ListBody = Item(value: Node, tail: ListTail)

  datatype ListTail = EndList(close: string) | AndItem(comma: string, body: ListBody)

  // ---------------------------------------------------------------------------------------------
  // The text of a tree.

  function Print(n: Node): string {
    match n
    case Word(blank, word) => blank + word
    case Literal(blank, raw) => blank + raw
    case EmptyObject(blank, close) => blank + "{" + close + "}"
    case Object(blank, body) => blank + "{" + PrintEntries(body)
    case EmptyList(blank, close) => blank + "[" + close + "]"
    case List(blank, body) => blank + "[" + PrintItems(body)
  }

  function PrintEntries(b: ObjectBody): string {
    b.keyBlank + b.key + b.colon + ":" + Print(b.value) + PrintEntriesTail(b.tail)
  }

  function PrintEntriesTail(t: ObjectTail): string {
    match t
    case EndObject(close) => close + "}"
    case AndEntry(comma, body) => comma + "," + PrintEntries(body)
  }

  function PrintItems(b: ListBody): string {
    Print(b.value) + PrintItemsTail(b.tail)
  }

  function PrintItemsTail(t: ListTail): string {
    match t
    case EndList(close) => close + "]"
    case AndItem(comma, body) => comma + "," + PrintItems(body)
  }

  predicate AllBlank(s: string) {
    forall k | 0 <= k < |s| :: s[k] == ' ' || s[k] == '\n' || s[k] == '\r' || s[k] == '\t'
  }

  /** A quoted text that ends at its last quote and decodes. */
  predicate IsLiteral(raw: string) {
    |raw| >= 2 && raw[0] == '"' && InnerLength(raw[1..]) == Some(|raw| - 2) && Decode(raw).Some?
  }

  /** One of the three names, or a number; `fits` is the library's test that it is in its range. */
  ghost predicate IsWord(word: string, fits: string -> bool) {
    word == "true" || word == "false" || word == "null" || (IsNumberText(word) && fits(word))
  }

  lemma WordIs(word: string, fits: string -> bool)
    ensures IsWord(word, fits) <==> IsPrimitive(word, fits)
    ensures IsWord(word, fits) ==> forall k | 0 <= k < |word| :: !EndsPrimitive(word[k])
  {
    hide IsNumber, IsNumberText;
    NumberIffParts(word);
    if IsNumberText(word) {
      NumberHoldsNoEnd(word);
    }
  }

  ghost predicate WellFormed(n: Node, fits: string -> bool) {
    match n
    case Word(blank, word) => AllBlank(blank) && IsWord(word, fits)
    case Literal(blank, raw) => AllBlank(blank) && IsLiteral(raw)
    case EmptyObject(blank, close) => AllBlank(blank) && AllBlank(close)
    case Object(blank, body) => AllBlank(blank) && WellFormedEntries(body, fits)
    case EmptyList(blank, close) => AllBlank(blank) && AllBlank(close)
    case List(blank, body) => AllBlank(blank) && WellFormedItems(body, fits)
  }

  ghost predicate WellFormedEntries(b: ObjectBody, fits: string -> bool) {
    && AllBlank(b.keyBlank) && IsLiteral(b.key) && AllBlank(b.colon) && WellFormed(b.value, fits)
    && WellFormedEntriesTail(b.tail, fits)
  }

  ghost predicate WellFormedEntriesTail(t: ObjectTail, fits: string -> bool) {
    match t
    case EndObject(close) => AllBlank(close)
    case AndEntry(comma, body) => AllBlank(comma) && WellFormedEntries(body, fits)
  }

  ghost predicate WellFormedItems(b: ListBody, fits: string -> bool) {
    WellFormed(b.value, fits) && WellFormedItemsTail(b.tail, fits)
  }

  ghost predicate WellFormedItemsTail(t: ListTail, fits: string -> bool) {
    match t
    case EndList(close) => AllBlank(close)
    case AndItem(comma, body) => AllBlank(comma) && WellFormedItems(body, fits)
  }

  // ---------------------------------------------------------------------------------------------
  // What a path finds.

  /** Item number `k`, counted from zero. */
  function ItemAt(b: ListBody, k: nat): Option<Node> {
    if k == 0 then Some(b.value)
    else match b.tail case EndList(_) => None case AndItem(_, body) => ItemAt(body, k - 1)
  }

  /** Some member has this key, as it is written, and this value. */
  predicate HasEntry(b: ObjectBody, key: string, value: Node) {
    (b.key == key && b.value == value) ||
    match b.tail case EndObject(_) => false case AndEntry(_, body) => HasEntry(body, key, value)
  }

  /** Following the path from `n` leads to `target`. */
  ghost predicate Finds(n: Node, path: Path, target: Node)
    decreases |path|
  {
    if path == [] then target == n
    else
      match path[0]
      case Key(name) =>
        n.Object? && exists key, value :: HasEntry(n.entries, key, value) && Decode(key) == Some(name) && Finds(value, path[1..], target)
      case Index(k) =>
        n.List? && ItemAt(n.items, k).Some? && Finds(ItemAt(n.items, k).value, path[1..], target)
  }

  /** A literal in a text, with its path; the path of a key is that of its object. */
  datatype Leaf = Leaf(raw: string, path: Path, isKey: bool)

  function Leaves(n: Node, path: Path): seq<Leaf> {
    match n
    case Word(_, _) => []
    case Literal(_, raw) => [Leaf(raw, path, false)]
    case EmptyObject(_, _) => []
    case Object(_, body) => EntryLeaves(body, path)
    case EmptyList(_, _) => []
    case List(_, body) => ItemLeaves(body, path, 0)
  }

  function EntryLeaves(b: ObjectBody, path: Path): seq<Leaf> {
    var inner := match Decode(b.key) case Some(name) => path + [Key(name)] case None => path;
    [Leaf(b.key, path, true)] + Leaves(b.value, inner) + EntryTailLeaves(b.tail, path)
  }

  function EntryTailLeaves(t: ObjectTail, path: Path): seq<Leaf> {
    match t case EndObject(_) => [] case AndEntry(_, body) => EntryLeaves(body, path)
  }

  /** The first item of `b` has the number `k`. */
  function ItemLeaves(b: ListBody, path: Path, k: nat): seq<Leaf> {
    Leaves(b.value, path + [Index(k)]) + ItemTailLeaves(b.tail, path, k + 1)
  }

  function ItemTailLeaves(t: ListTail, path: Path, k: nat): seq<Leaf> {
    match t case EndList(_) => [] case AndItem(_, body) => ItemLeaves(body, path, k)
  }

  // ---------------------------------------------------------------------------------------------
  // The leaves of a tree are what paths find in it.

  /** What a leaf says about the tree, `inner` being the part of its path below `n`. */
  ghost predicate LeafFits(n: Node, inner: Path, leaf: Leaf) {
    exists target ::
      && Finds(n, inner, target)
      && if leaf.isKey then target.Object? && exists value :: HasEntry(target.entries, leaf.raw, value)
         else target.Literal? && target.raw == leaf.raw
  }

  ghost predicate LeafIn(n: Node, path: Path, leaf: Leaf) {
    |path| <= |leaf.path| && leaf.path[..|path|] == path && LeafFits(n, leaf.path[|path|..], leaf)
  }

  lemma FindsItem(n: Node, k: nat, inner: Path, target: Node)
    requires n.List? && ItemAt(n.items, k).Some? && Finds(ItemAt(n.items, k).value, inner, target)
    ensures Finds(n, [Index(k)] + inner, target)
  {
    assert ([Index(k)] + inner)[1..] == inner;
  }

  lemma FindsEntry(n: Node, key: string, value: Node, name: string, inner: Path, target: Node)
    requires n.Object? && HasEntry(n.entries, key, value) && Decode(key) == Some(name) && Finds(value, inner, target)
    ensures Finds(n, [Key(name)] + inner, target)
  {
    hide Decode;
    assert ([Key(name)] + inner)[1..] == inner;
  }

  /** A leaf below a step of the path. */
  lemma LeafBelow(n: Node, path: Path, step: Step, child: Node, leaf: Leaf)
    requires LeafIn(child, path + [step], leaf)
    requires forall inner: Path, target :: Finds(child, inner, target) ==> Finds(n, [step] + inner, target)
    ensures LeafIn(n, path, leaf)
  {
    hide Finds, HasEntry;
    var inner := leaf.path[|path| + 1..];
    assert leaf.path[..|path| + 1][|path|] == step && leaf.path[..|path|] == (path + [step])[..|path|] == path;
    assert leaf.path[|path|..] == [step] + inner;
    assert leaf.path[|path + [step]|..] == inner;
    var target :| Finds(child, inner, target)
                  && if leaf.isKey then target.Object? && exists value :: HasEntry(target.entries, leaf.raw, value)
                     else target.Literal? && target.raw == leaf.raw;
    assert Finds(n, [step] + inner, target);
  }

  lemma {:induction false} LeavesAreFound(n: Node, path: Path, leaf: Leaf, fits: string -> bool)
    requires WellFormed(n, fits) && leaf in Leaves(n, path)
    ensures LeafIn(n, path, leaf)
    decreases n
  {
    hide Finds, HasEntry, ItemAt, Decode, IsLiteral, IsWord;
    match n
    case Word(_, _) =>
    case Literal(_, _) =>
      FindsItself(n);
      assert leaf.path[|path|..] == [];
    case EmptyObject(_, _) =>
    case EmptyList(_, _) =>
    case Object(_, entries) => EntriesFound(n, entries, path, leaf, fits);
    case List(_, items) =>
      ItemsStart(n);
      ItemsFound(n, items, path, 0, leaf, fits);
  }

  lemma FindsItself(n: Node)
    ensures Finds(n, [], n)
  {
  }

  /** `b` is what is left of the object's members. */
  ghost predicate EntriesOf(n: Node, b: ObjectBody) {
    n.Object? && forall key, value :: HasEntry(b, key, value) ==> HasEntry(n.entries, key, value)
  }

  lemma EntriesNext(n: Node, b: ObjectBody)
    requires EntriesOf(n, b)
    ensures n.Object? && HasEntry(n.entries, b.key, b.value)
    ensures b.tail.AndEntry? ==> EntriesOf(n, b.tail.body)
  {
    assert HasEntry(b, b.key, b.value);
    if b.tail.AndEntry? {
      forall key, value | HasEntry(b.tail.body, key, value)
        ensures HasEntry(n.entries, key, value)
      {
        assert HasEntry(b, key, value);
      }
    }
  }

  lemma KeyFits(n: Node, b: ObjectBody, path: Path)
    requires n.Object? && HasEntry(n.entries, b.key, b.value)
    ensures LeafIn(n, path, Leaf(b.key, path, true))
  {
    hide HasEntry;
    FindsItself(n);
    assert path[|path|..] == [];
  }

  lemma {:induction false} EntriesFound(n: Node, b: ObjectBody, path: Path, leaf: Leaf, fits: string -> bool)
    requires EntriesOf(n, b) && WellFormedEntries(b, fits) && leaf in EntryLeaves(b, path)
    ensures LeafIn(n, path, leaf)
    decreases b
  {
    hide Finds, HasEntry, Decode, EntriesOf, Leaves, LeafIn, WellFormed;
    EntriesNext(n, b);
    var name := Decode(b.key).value;
    if leaf == Leaf(b.key, path, true) {
      KeyFits(n, b, path);
    } else if leaf in Leaves(b.value, path + [Key(name)]) {
      LeavesAreFound(b.value, path + [Key(name)], leaf, fits);
      forall inner: Path, target | Finds(b.value, inner, target)
        ensures Finds(n, [Key(name)] + inner, target)
      {
        EntryIsFound(n, b, name, inner, target);
      }
      LeafBelow(n, path, Key(name), b.value, leaf);
    } else {
      EntriesFound(n, b.tail.body, path, leaf, fits);
    }
  }

  lemma EntryIsFound(n: Node, b: ObjectBody, name: string, inner: Path, target: Node)
    requires EntriesOf(n, b) && Decode(b.key) == Some(name) && Finds(b.value, inner, target)
    ensures Finds(n, [Key(name)] + inner, target)
  {
    hide Finds, HasEntry, Decode;
    EntriesNext(n, b);
    FindsEntry(n, b.key, b.value, name, inner, target);
  }

  /** `b` is what is left of the array's items from number `k` on. */
  ghost predicate ItemsOf(n: Node, b: ListBody, k: nat) {
    n.List? && forall i: nat :: ItemAt(b, i) == ItemAt(n.items, k + i)
  }

  lemma ItemsStart(n: Node)
    requires n.List?
    ensures ItemsOf(n, n.items, 0)
  {
  }

  lemma ItemsNext(n: Node, b: ListBody, k: nat)
    requires ItemsOf(n, b, k)
    ensures ItemAt(n.items, k) == Some(b.value)
    ensures b.tail.AndItem? ==> ItemsOf(n, b.tail.body, k + 1)
  {
    assert ItemAt(b, 0) == ItemAt(n.items, k + 0);
    if b.tail.AndItem? {
      forall i: nat
        ensures ItemAt(b.tail.body, i) == ItemAt(n.items, k + 1 + i)
      {
        assert ItemAt(b, i + 1) == ItemAt(n.items, k + (i + 1));
      }
    }
  }

  lemma {:induction false} ItemsFound(n: Node, b: ListBody, path: Path, k: nat, leaf: Leaf, fits: string -> bool)
    requires ItemsOf(n, b, k) && WellFormedItems(b, fits) && leaf in ItemLeaves(b, path, k)
    ensures LeafIn(n, path, leaf)
    decreases b
  {
    hide Finds, ItemAt, ItemsOf, Leaves, LeafIn, WellFormed;
    ItemsNext(n, b, k);
    if leaf in Leaves(b.value, path + [Index(k)]) {
      LeavesAreFound(b.value, path + [Index(k)], leaf, fits);
      forall inner: Path, target | Finds(b.value, inner, target)
        ensures Finds(n, [Index(k)] + inner, target)
      {
        ItemIsFound(n, b, k, inner, target);
      }
      LeafBelow(n, path, Index(k), b.value, leaf);
    } else {
      ItemsFound(n, b.tail.body, path, k + 1, leaf, fits);
    }
  }

  lemma ItemIsFound(n: Node, b: ListBody, k: nat, inner: Path, target: Node)
    requires ItemsOf(n, b, k) && Finds(b.value, inner, target)
    ensures Finds(n, [Index(k)] + inner, target)
  {
    hide Finds, ItemAt;
    ItemsNext(n, b, k);
    FindsItem(n, k, inner, target);
  }

  // The other way round: every literal that a path finds is a leaf with that path.

  lemma {:induction false} EntryLeavesInclude(b: ObjectBody, path: Path, key: string, value: Node, name: string, leaf: Leaf)
    requires HasEntry(b, key, value) && Decode(key) == Some(name) && leaf in Leaves(value, path + [Key(name)])
    ensures leaf in EntryLeaves(b, path)
    decreases b
  {
    hide Decode, Leaves;
    if b.key != key || b.value != value {
      EntryLeavesInclude(b.tail.body, path, key, value, name, leaf);
    }
  }

  lemma {:induction false} ItemLeavesInclude(b: ListBody, path: Path, first: nat, k: nat, leaf: Leaf)
    requires ItemAt(b, k).Some? && leaf in Leaves(ItemAt(b, k).value, path + [Index(first + k)])
    ensures leaf in ItemLeaves(b, path, first)
    decreases k
  {
    hide Leaves;
    if k > 0 {
      ItemLeavesInclude(b.tail.body, path, first + 1, k - 1, leaf);
    }
  }

  lemma {:induction false} FoundIsLeaf(n: Node, path: Path, inner: Path, target: Node)
    requires Finds(n, inner, target) && target.Literal?
    ensures Leaf(target.raw, path + inner, false) in Leaves(n, path)
    decreases |inner|
  {
    hide Decode, HasEntry, ItemAt, EntryLeaves, ItemLeaves;
    var leaf := Leaf(target.raw, path + inner, false);
    if inner == [] {
      assert path + inner == path;
    } else {
      var rest := inner[1..];
      assert path + inner == path + [inner[0]] + rest;
      match inner[0]
      case Key(name) =>
        var key, value :| HasEntry(n.entries, key, value) && Decode(key) == Some(name) && Finds(value, rest, target);
        FoundIsLeaf(value, path + [inner[0]], rest, target);
        EntryLeavesInclude(n.entries, path, key, value, name, leaf);
      case Index(k) =>
        FoundIsLeaf(ItemAt(n.items, k).value, path + [inner[0]], rest, target);
        ItemLeavesInclude(n.items, path, 0, k, leaf);
    }
  }

  /** A value literal is a leaf of the tree exactly when its path finds it. */
  lemma LeavesAreWhatPathsFind(n: Node, raw: string, path: Path, fits: string -> bool)
    requires WellFormed(n, fits)
    ensures Leaf(raw, path, false) in Leaves(n, []) <==> exists target :: Finds(n, path, target) && target.Literal? && target.raw == raw
  {
    hide Leaves, Finds, WellFormed;
    var leaf := Leaf(raw, path, false);
    if leaf in Leaves(n, []) {
      LeavesAreFound(n, [], leaf, fits);
      assert path[0..] == path;
    }
    if target :| Finds(n, path, target) && target.Literal? && target.raw == raw {
      FoundIsLeaf(n, [], path, target);
      assert [] + path == path;
    }
  }
}
