/** Tags that nest: the stack of open elements that the HTML and XHTML scanners keep, against trees. */
module Nesting {
  import opened Texts

  /** What a token does to the stack; most tokens do nothing. */
  datatype Tag = Opening(name: string) | Closing(name: string) | Neutral

  /** A close tag must name the innermost open element. */
  function Push(tag: Tag, stack: seq<string>): Option<seq<string>> {
    match tag
    case Opening(name) => Some(stack + [name])
    case Closing(name) => if stack != [] && stack[|stack| - 1] == name then Some(stack[..|stack| - 1]) else None
    case Neutral => Some(stack)
  }

  function Fold(tags: seq<Tag>, stack: seq<string>): Option<seq<string>> {
    if tags == [] then Some(stack)
    else
      match Push(tags[0], stack)
      case None => None
      case Some(next) => Fold(tags[1..], next)
  }

  /** Elements in a row, each with the elements inside it. */
  datatype Forest = Nothing | Token(next: Forest) | Element(name: string, inside: Forest, next: Forest)

  function Flatten(f: Forest): seq<Tag> {
    match f
    case Nothing => []
    case Token(next) => [Neutral] + Flatten(next)
    case Element(name, inside, next) => [Opening(name)] + Flatten(inside) + [Closing(name)] + Flatten(next)
  }

  lemma FoldStep(first: Tag, rest: seq<Tag>, stack: seq<string>)
    ensures Fold([first] + rest, stack) ==
              match Push(first, stack) case None => None case Some(next) => Fold(rest, next)
  {
    assert ([first] + rest)[1..] == rest;
  }

  /** A forest leaves the stack alone. */
  lemma {:induction false} ForestFolds(f: Forest, rest: seq<Tag>, stack: seq<string>)
    ensures Fold(Flatten(f) + rest, stack) == Fold(rest, stack)
    decreases f
  {
    hide Fold;
    match f
    case Nothing => assert [] + rest == rest;
    case Token(next) =>
      assert Flatten(f) + rest == [Neutral] + (Flatten(next) + rest);
      FoldStep(Neutral, Flatten(next) + rest, stack);
      ForestFolds(next, rest, stack);
    case Element(name, inside, next) =>
      var last := Flatten(next) + rest;
      assert Flatten(f) + rest == [Opening(name)] + (Flatten(inside) + ([Closing(name)] + last));
      FoldStep(Opening(name), Flatten(inside) + ([Closing(name)] + last), stack);
      ForestFolds(inside, [Closing(name)] + last, stack + [name]);
      FoldStep(Closing(name), last, stack + [name]);
      assert (stack + [name])[..|stack|] == stack;
      ForestFolds(next, rest, stack);
  }

  /** The tags close the elements of the stack from the innermost on, with forests in between. */
  ghost predicate Closes(tags: seq<Tag>, stack: seq<string>)
    decreases |stack|
  {
    if stack == [] then exists f :: tags == Flatten(f)
    else exists f, rest :: ClosesWith(tags, stack, f, rest) && Closes(rest, stack[..|stack| - 1])
  }

  predicate ClosesWith(tags: seq<Tag>, stack: seq<string>, f: Forest, rest: seq<Tag>)
    requires stack != []
  {
    tags == Flatten(f) + [Closing(stack[|stack| - 1])] + rest
  }

  function Append(a: Forest, b: Forest): Forest {
    match a
    case Nothing => b
    case Token(next) => Token(Append(next, b))
    case Element(name, inside, next) => Element(name, inside, Append(next, b))
  }

  lemma {:induction false} AppendFlattens(a: Forest, b: Forest)
    ensures Flatten(Append(a, b)) == Flatten(a) + Flatten(b)
  {
    match a
    case Nothing => assert [] + Flatten(b) == Flatten(b);
    case Token(next) =>
      AppendFlattens(next, b);
      JoinsUp([Neutral], Flatten(next), Flatten(b));
    case Element(name, inside, next) =>
      AppendFlattens(next, b);
      JoinsUp([Opening(name)] + Flatten(inside) + [Closing(name)], Flatten(next), Flatten(b));
  }

  lemma JoinsUp(a: seq<Tag>, b: seq<Tag>, c: seq<Tag>)
    ensures a + (b + c) == a + b + c
  {
  }

  /** One more forest in front changes nothing. */
  lemma ClosesBehind(front: Forest, tags: seq<Tag>, stack: seq<string>)
    requires Closes(tags, stack)
    ensures Closes(Flatten(front) + tags, stack)
  {
    hide Flatten;
    var head := Flatten(front);
    if stack == [] {
      var f :| tags == Flatten(f);
      AppendFlattens(front, f);
      assert head + tags == Flatten(Append(front, f));
    } else {
      var f, rest :| ClosesWith(tags, stack, f, rest) && Closes(rest, stack[..|stack| - 1]);
      AppendFlattens(front, f);
      assert head + tags == (head + Flatten(f)) + [Closing(stack[|stack| - 1])] + rest;
      assert ClosesWith(head + tags, stack, Append(front, f), rest);
    }
  }

  lemma ClosesFrom(tags: seq<Tag>, stack: seq<string>, f: Forest, rest: seq<Tag>)
    requires stack != [] && ClosesWith(tags, stack, f, rest) && Closes(rest, stack[..|stack| - 1])
    ensures Closes(tags, stack)
  {
    hide ClosesWith;
  }

  lemma ClosingCloses(name: string, rest: seq<Tag>, stack: seq<string>)
    requires stack != [] && stack[|stack| - 1] == name && Closes(rest, stack[..|stack| - 1])
    ensures Closes([Closing(name)] + rest, stack)
  {
    hide Closes;
    assert [Closing(name)] + rest == Flatten(Nothing) + [Closing(name)] + rest;
    ClosesFrom([Closing(name)] + rest, stack, Nothing, rest);
  }

  lemma ElementFlattens(name: string, f: Forest, after: seq<Tag>)
    ensures Flatten(Element(name, f, Nothing)) + after == [Opening(name)] + (Flatten(f) + [Closing(name)] + after)
  {
    var whole := Flatten(Element(name, f, Nothing));
    assert whole == [Opening(name)] + Flatten(f) + [Closing(name)];
  }

  lemma OpeningCloses(name: string, rest: seq<Tag>, stack: seq<string>)
    requires Closes(rest, stack + [name])
    ensures Closes([Opening(name)] + rest, stack)
  {
    hide Flatten;
    var inner := stack + [name];
    assert inner[..|stack|] == stack;
    var f, after :| ClosesWith(rest, inner, f, after) && Closes(after, stack);
    var element := Element(name, f, Nothing);
    ClosesBehind(element, after, stack);
    ElementFlattens(name, f, after);
  }

  lemma NeutralCloses(rest: seq<Tag>, stack: seq<string>)
    requires Closes(rest, stack)
    ensures Closes([Neutral] + rest, stack)
  {
    ClosesBehind(Token(Nothing), rest, stack);
    assert Flatten(Token(Nothing)) == [Neutral];
  }

  lemma {:induction false} FoldedCloses(tags: seq<Tag>, stack: seq<string>)
    requires Fold(tags, stack) == Some([])
    ensures Closes(tags, stack)
    decreases |tags|
  {
    if tags == [] {
      assert tags == Flatten(Nothing);
    } else {
      var tag, rest := tags[0], tags[1..];
      assert tags == [tag] + rest;
      FoldedCloses(rest, Push(tag, stack).value);
      match tag
      case Neutral => NeutralCloses(rest, stack);
      case Closing(name) => ClosingCloses(name, rest, stack);
      case Opening(name) => OpeningCloses(name, rest, stack);
    }
  }

  ghost predicate IsForest(tags: seq<Tag>) {
    exists f :: tags == Flatten(f)
  }

  /** The tags come out even exactly when they are those of a forest of elements. */
  lemma EvenIffForest(tags: seq<Tag>)
    ensures Fold(tags, []) == Some([]) <==> IsForest(tags)
  {
    if Fold(tags, []) == Some([]) {
      FoldedCloses(tags, []);
    }
    if f :| tags == Flatten(f) {
      ForestFolds(f, [], []);
      assert Flatten(f) + [] == tags;
    }
  }

  // ---------------------------------------------------------------------------------------------
  // Which elements are open at a place.

  function Weight(tag: Tag): int {
    match tag case Opening(_) => 1 case Closing(_) => -1 case Neutral => 0
  }

  /** Elements opened less elements closed in front of `k`. */
  function Level(tags: seq<Tag>, k: nat): int
    requires k <= |tags|
  {
    if k == 0 then 0 else Level(tags, k - 1) + Weight(tags[k - 1])
  }

  /** Position `k` lies inside the element that tag `j` opens: it has not been closed by then. */
  ghost predicate Inside(tags: seq<Tag>, j: nat, k: nat)
    requires k <= |tags|
  {
    j < k && tags[j].Opening? && forall m :: j < m <= k ==> Level(tags, m) > Level(tags, j)
  }

  lemma {:induction false} FoldLast(tags: seq<Tag>, last: Tag, stack: seq<string>)
    ensures Fold(tags + [last], stack) ==
              match Fold(tags, stack) case None => None case Some(mid) => Push(last, mid)
    decreases |tags|
  {
    if tags == [] {
      assert [] + [last] == [last] && [last][1..] == [];
    } else {
      assert (tags + [last])[1..] == tags[1..] + [last];
      if Push(tags[0], stack).Some? {
        FoldLast(tags[1..], last, Push(tags[0], stack).value);
      }
    }
  }

  lemma {:induction false} FoldJoins(a: seq<Tag>, b: seq<Tag>, stack: seq<string>)
    ensures Fold(a + b, stack) == match Fold(a, stack) case None => None case Some(mid) => Fold(b, mid)
    decreases |a|
  {
    if a == [] {
      assert [] + b == b;
    } else {
      assert (a + b)[1..] == a[1..] + b;
      if Push(a[0], stack).Some? {
        FoldJoins(a[1..], b, Push(a[0], stack).value);
      }
    }
  }

  /** `places` are the open tags of the elements on the stack, outermost first. */
  ghost predicate OpenedAt(tags: seq<Tag>, k: nat, stack: seq<string>, places: seq<nat>)
    requires k <= |tags|
  {
    && |places| == |stack| == Level(tags, k)
    && (forall i | 0 <= i < |places| :: places[i] < k && tags[places[i]] == Opening(stack[i]) && Level(tags, places[i]) == i)
    && (forall j: nat :: Inside(tags, j, k) <==> j in places)
  }

  lemma {:induction false} StackIsOpened(tags: seq<Tag>, k: nat, stack: seq<string>) returns (places: seq<nat>)
    requires k <= |tags| && Fold(tags[..k], []) == Some(stack)
    ensures OpenedAt(tags, k, stack, places)
    decreases k
  {
    if k == 0 {
      places := [];
    } else {
      assert tags[..k] == tags[..k - 1] + [tags[k - 1]];
      FoldLast(tags[..k - 1], tags[k - 1], []);
      var before := Fold(tags[..k - 1], []).value;
      var was := StackIsOpened(tags, k - 1, before);
      places := OpenedNext(tags, k - 1, before, was);
    }
  }

  lemma InsideNext(tags: seq<Tag>, j: nat, k: nat)
    requires k < |tags|
    ensures j < k ==> (Inside(tags, j, k + 1) <==> Inside(tags, j, k) && Level(tags, k + 1) > Level(tags, j))
    ensures j == k ==> (Inside(tags, j, k + 1) <==> tags[k].Opening?)
  {
    hide Level;
    assert Level(tags, k + 1) == Level(tags, k) + Weight(tags[k]) by {
      LevelNext(tags, k);
    }
  }

  lemma LevelNext(tags: seq<Tag>, k: nat)
    requires k < |tags|
    ensures Level(tags, k + 1) == Level(tags, k) + Weight(tags[k])
  {
  }

  lemma OpenedNext(tags: seq<Tag>, k: nat, stack: seq<string>, was: seq<nat>) returns (places: seq<nat>)
    requires k < |tags| && OpenedAt(tags, k, stack, was) && Push(tags[k], stack).Some?
    ensures OpenedAt(tags, k + 1, Push(tags[k], stack).value, places)
  {
    hide OpenedAt;
    match tags[k]
    case Opening(name) =>
      places := was + [k];
      OpenedMore(tags, k, stack, was);
    case Closing(name) =>
      OpenedSame(tags, k, stack, was);
      places := was[..|was| - 1];
      OpenedLess(tags, k, stack, was);
    case Neutral =>
      places := was;
      OpenedSame(tags, k, stack, was);
  }

  lemma OpenedMore(tags: seq<Tag>, k: nat, stack: seq<string>, was: seq<nat>)
    requires k < |tags| && OpenedAt(tags, k, stack, was) && tags[k].Opening?
    ensures OpenedAt(tags, k + 1, stack + [tags[k].name], was + [k])
  {
    hide Level, Inside;
    LevelNext(tags, k);
    forall j: nat
      ensures Inside(tags, j, k + 1) <==> j in was + [k]
    {
      InsideNext(tags, j, k);
      LevelsBelow(tags, k, stack, was, j);
    }
  }

  lemma OpenedSame(tags: seq<Tag>, k: nat, stack: seq<string>, was: seq<nat>)
    requires k < |tags| && OpenedAt(tags, k, stack, was)
    ensures |was| == |stack|
    ensures tags[k].Neutral? ==> OpenedAt(tags, k + 1, stack, was)
  {
    hide Level, Inside;
    LevelNext(tags, k);
    if tags[k].Neutral? {
      forall j: nat
        ensures Inside(tags, j, k + 1) <==> j in was
      {
        InsideNext(tags, j, k);
        LevelsBelow(tags, k, stack, was, j);
      }
    }
  }

  lemma OpenedLess(tags: seq<Tag>, k: nat, stack: seq<string>, was: seq<nat>)
    requires k < |tags| && OpenedAt(tags, k, stack, was) && tags[k].Closing? && stack != []
    ensures OpenedAt(tags, k + 1, stack[..|stack| - 1], was[..|was| - 1])
  {
    hide Level, Inside;
    LevelNext(tags, k);
    var places := was[..|was| - 1];
    forall j: nat
      ensures Inside(tags, j, k + 1) <==> j in places
    {
      InsideNext(tags, j, k);
      LevelsBelow(tags, k, stack, was, j);
    }
  }

  /** The level of an open element is its place on the stack. */
  lemma LevelsBelow(tags: seq<Tag>, k: nat, stack: seq<string>, was: seq<nat>, j: nat)
    requires k < |tags| && OpenedAt(tags, k, stack, was)
    ensures j in was <==> j < k && Inside(tags, j, k)
    ensures j in was ==> 0 <= Level(tags, j) < |was| && was[Level(tags, j)] == j
    ensures j in was && Level(tags, j) < |was| - 1 ==> j in was[..|was| - 1]
    ensures was != [] && j in was[..|was| - 1] ==> j in was && Level(tags, j) < |was| - 1
    ensures Inside(tags, j, k + 1) ==> j <= k
  {
    hide Level;
    if j in was {
      var i :| 0 <= i < |was| && was[i] == j;
      assert Level(tags, was[i]) == i;
      if i < |was| - 1 {
        assert was[..|was| - 1][i] == j;
      }
    }
    if was != [] && j in was[..|was| - 1] {
      var i :| 0 <= i < |was| - 1 && was[i] == j;
      assert Level(tags, was[i]) == i;
    }
  }

  /** A name is on the stack exactly when the place lies inside an element of that name. */
  lemma StackIffInside(tags: seq<Tag>, k: nat, stack: seq<string>, name: string)
    requires k <= |tags| && Fold(tags[..k], []) == Some(stack)
    ensures name in stack <==> exists j: nat :: j < k && Inside(tags, j, k) && tags[j] == Opening(name)
  {
    hide Inside, Level, Fold;
    var places := StackIsOpened(tags, k, stack);
    if name in stack {
      var i :| 0 <= i < |stack| && stack[i] == name;
      assert places[i] in places;
      assert Inside(tags, places[i], k) && tags[places[i]] == Opening(name);
    }
    if j: nat :| j < k && Inside(tags, j, k) && tags[j] == Opening(name) {
      assert j in places;
      var i :| 0 <= i < |places| && places[i] == j;
      assert stack[i] == name;
    }
  }
}
