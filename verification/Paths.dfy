/** File paths as bytes of UTF-8 text, and the two ways the file system takes them apart. */
module Paths {
  import opened Wrappers
  import opened Bits

  type Name = seq<Byte>
  type Path = seq<Byte>

  const SLASH: Byte := '/' as int

  function TrimStart(path: Path): Path {
    if path != [] && path[0] == SLASH then TrimStart(path[1..]) else path
  }

  // The pieces between slashes, empty ones included.
  function Split(path: Path): seq<Name> {
    if path == [] then [[]]
    else
      var rest := Split(path[1..]);
      if path[0] == SLASH then [[]] + rest
      else if rest == [] then [[path[0]]]
      else [[path[0]] + rest[0]] + rest[1..]
  }

  function NonEmpty(parts: seq<Name>): seq<Name> {
    if parts == [] then []
    else (if parts[0] == [] then [] else [parts[0]]) + NonEmpty(parts[1..])
  }

  function Components(path: Path): seq<Name> {
    NonEmpty(Split(path))
  }

  // The position of the last slash.
  function LastSlash(path: Path): (r: Option<nat>)
    ensures r.None? <==> SLASH !in path
    ensures r.Some? ==> r.value < |path| && path[r.value] == SLASH && SLASH !in path[r.value + 1..]
  {
    if path == [] then None
    else if path[|path| - 1] == SLASH then Some((|path| - 1) as nat)
    else
      assert path == path[..|path| - 1] + [path[|path| - 1]];
      LastSlash(path[..|path| - 1])
  }

  lemma {:induction false} SplitNonEmpty(path: Path)
    ensures Split(path) != []
  {
    if path != [] {
      SplitNonEmpty(path[1..]);
    }
  }

  lemma {:induction false} NonEmptyAppend(a: seq<Name>, b: seq<Name>)
    ensures NonEmpty(a + b) == NonEmpty(a) + NonEmpty(b)
    decreases |a|
  {
    if a == [] {
      assert a + b == b;
    } else {
      assert (a + b)[1..] == a[1..] + b;
      NonEmptyAppend(a[1..], b);
    }
  }

  lemma SplitStep(c: Byte, s: Path)
    ensures Split(s) != []
    ensures Split([c] + s) == if c == SLASH then [[]] + Split(s) else [[c] + Split(s)[0]] + Split(s)[1..]
  {
    SplitNonEmpty(s);
    assert ([c] + s)[1..] == s;
  }

  lemma ConsAppend<T>(c: T, rest: seq<T>, s: seq<T>)
    ensures [c] + rest + s == [c] + (rest + s)
  {
  }

  lemma {:induction false} SplitAtSlash(a: Path, b: Path)
    ensures Split(a + ([SLASH] + b)) == Split(a) + Split(b)
    decreases |a|
  {
    var s := [SLASH] + b;
    SplitStep(SLASH, b);
    if a == [] {
      assert a + s == s;
    } else {
      var c, rest := a[0], a[1..];
      assert a == [c] + rest;
      ConsAppend(c, rest, s);
      SplitAtSlash(rest, b);
      SplitStep(c, rest);
      SplitStep(c, rest + s);
      FirstAndRest(c, Split(rest), Split(b));
    }
  }

  lemma FirstAndRest(c: Byte, x: seq<Name>, y: seq<Name>)
    requires x != []
    ensures [[c] + (x + y)[0]] + (x + y)[1..] == [[c] + x[0]] + x[1..] + y
    ensures [[]] + (x + y) == [[]] + x + y
  {
    assert (x + y)[1..] == x[1..] + y;
  }

  // A slash separates components.
  lemma ComponentsAtSlash(a: Path, b: Path)
    ensures Components(a + ['/' as int] + b) == Components(a) + Components(b)
  {
    assert a + [SLASH] + b == a + ([SLASH] + b);
    SplitAtSlash(a, b);
    NonEmptyAppend(Split(a), Split(b));
  }

  lemma {:induction false} ComponentsOfName(name: Name)
    requires SLASH !in name
    ensures Split(name) == [name]
    ensures Components(name) == if name == [] then [] else [name]
  {
    if name != [] {
      assert name == [name[0]] + name[1..];
      ComponentsOfName(name[1..]);
    }
    assert NonEmpty([name]) == (if name == [] then [] else [name]) + NonEmpty([name][1..]);
  }

  // A path that ends in a name rather than a slash.
  predicate EndsInName(path: Path) {
    path != [] && path[|path| - 1] != SLASH
  }

  lemma LeadingSlash(path: Path)
    ensures Components([SLASH] + path) == Components(path)
  {
    ComponentsOfName([]);
    assert [] + [SLASH] + path == [SLASH] + path;
    ComponentsAtSlash([], path);
  }

  lemma {:induction false} ComponentsTrim(path: Path)
    ensures Components(TrimStart(path)) == Components(path)
    ensures TrimStart(path) != [] ==> TrimStart(path)[0] != SLASH
    ensures EndsInName(TrimStart(path)) <==> EndsInName(path)
  {
    if path != [] && path[0] == SLASH {
      ComponentsTrim(path[1..]);
      LeadingSlash(path[1..]);
      assert path == [SLASH] + path[1..];
    }
  }

  ghost predicate ValidName(name: Name) {
    name != [] && |name| <= 255 && SLASH !in name
  }

  // Such a path is the components of its parent part and its name.
  lemma ComponentsOfParent(path: Path)
    requires path != [] && path[0] != SLASH && EndsInName(path)
    ensures match LastSlash(path)
            case None => Components(path) == [path]
            case Some(i) =>
              && 0 < i && path[i + 1..] != []
              && Components(path) == Components(path[..i]) + [path[i + 1..]]
  {
    match LastSlash(path)
    case None => ComponentsOfName(path);
    case Some(i) =>
      assert path == path[..i] + [SLASH] + path[i + 1..];
      ComponentsAtSlash(path[..i], path[i + 1..]);
      ComponentsOfName(path[i + 1..]);
  }

  // The canonical spelling of a component list.
  function Spelled(names: seq<Name>): Path {
    if names == [] then [] else Spelled(names[..|names| - 1]) + [SLASH] + names[|names| - 1]
  }

  // Spelling a list of names out and taking it apart gives the list back.
  lemma {:induction false} SpelledComponents(names: seq<Name>)
    requires forall n :: n in names ==> n != [] && SLASH !in n
    ensures Components(Spelled(names)) == names
  {
    if names == [] {
      ComponentsOfName([]);
    } else {
      var init, last := names[..|names| - 1], names[|names| - 1];
      assert forall n :: n in init ==> n in names;
      SpelledComponents(init);
      ComponentsAtSlash(Spelled(init), last);
      ComponentsOfName(last);
    }
  }
}
