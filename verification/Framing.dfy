/**
 * Resolving spelled paths: the two path splitters agree, and adding or removing one
 * directory entry changes what one component list resolves to.
 */
module Framing {
  import opened Wrappers
  import opened Paths
  import opened FileBytes
  import opened Namespace

  function Resolve(inodes: Inodes, path: Path): Result<nat, FsError> {
    if path == [] then Err(InvalidPath) else Walk(inodes, 0, Components(path))
  }

  // One component of a walk taken.
  lemma WalkOn(inodes: Inodes, from: nat, names: seq<Name>, k: nat)
    requires k < |names|
    ensures var step := Enter(inodes, from, names[k]);
      Walk(inodes, from, names[k..]) == if step.Ok? then Walk(inodes, step.value, names[k + 1..]) else step
  {
    assert names[k..][0] == names[k] && names[k..][1..] == names[k + 1..];
  }

  // The parent's spelling and the name, at the last slash.
  function SplitParent(p: Path): (Path, Name) {
    match LastSlash(p)
    case None => ([SLASH], p)
    case Some(i) => (p[..i], p[i + 1..])
  }

  // The parent directory and the name under it.
  function ParentAndName(inodes: Inodes, path: Path): Result<(nat, Name), FsError> {
    var p := TrimStart(path);
    if p == [] then Err(InvalidPath)
    else
      var (parent, name) := SplitParent(p);
      if name == [] || |name| > 255 then Err(InvalidPath)
      else
        match Resolve(inodes, parent)
        case Err(e) => Err(e)
        case Ok(dir) => Ok((dir, name))
  }

  lemma RootComponents()
    ensures Components([SLASH]) == []
  {
    ComponentsOfName([]);
    LeadingSlash([]);
    assert [SLASH] + [] == [SLASH];
  }

  // The last step of a walk.
  lemma WalkLast(inodes: Inodes, c: seq<Name>)
    requires c != []
    ensures var init := Walk(inodes, 0, c[..|c| - 1]);
      Walk(inodes, 0, c) == if init.Ok? then Enter(inodes, init.value, c[|c| - 1]) else init
  {
    var init, last := c[..|c| - 1], c[|c| - 1];
    assert c == init + [last];
    WalkAppend(inodes, 0, init, [last]);
    if Walk(inodes, 0, init).Ok? {
      WalkOne(inodes, Walk(inodes, 0, init).value, last);
    }
  }

  function Last(c: seq<Name>): Name
    requires c != []
  {
    c[|c| - 1]
  }

  function Init(c: seq<Name>): seq<Name>
    requires c != []
  {
    c[..|c| - 1]
  }

  // A path that ends in a name splits into all its components but the last, and the last.
  lemma SplitExactly(path: Path)
    ensures EndsInName(path) <==> TrimStart(path) != [] && SplitParent(TrimStart(path)).1 != []
    ensures EndsInName(path) ==>
      var (parent, name) := SplitParent(TrimStart(path));
      && parent != [] && Components(path) == Components(parent) + [name] && SLASH !in name
  {
    var p := TrimStart(path);
    ComponentsTrim(path);
    RootComponents();
    if EndsInName(path) {
      ComponentsOfParent(p);
    }
  }

  lemma ParentExactly(inodes: Inodes, path: Path)
    ensures !EndsInName(path) ==> ParentAndName(inodes, path) == Err(InvalidPath)
    ensures EndsInName(path) ==>
      && Components(path) != [] && Last(Components(path)) != [] && SLASH !in Last(Components(path))
      && var parent := Walk(inodes, 0, Init(Components(path)));
         ParentAndName(inodes, path)
           == if |Last(Components(path))| > 255 then Err(InvalidPath)
              else if parent.Ok? then Ok((parent.value, Last(Components(path))))
              else Err(parent.error)
  {
    SplitExactly(path);
    if EndsInName(path) {
      var (parent, name) := SplitParent(TrimStart(path));
      assert Init(Components(path)) == Components(parent);
    }
  }

  // The two splitters take a path apart alike: the parent is what all components but the
  // last resolve to. Only a name that is too long is reported differently, and a path
  // that does not end in a name has no parent.
  lemma SplittersAgree(inodes: Inodes, path: Path)
    ensures !EndsInName(path) ==> ParentAndName(inodes, path) == Err(InvalidPath)
    ensures EndsInName(path) ==> Components(path) != []
    ensures EndsInName(path) ==> ValidName(Last(Components(path))) || |Last(Components(path))| > 255
    ensures EndsInName(path) && |Last(Components(path))| > 255 ==>
      ParentAndName(inodes, path) == Err(InvalidPath) && Resolve(inodes, path).Err?
    ensures EndsInName(path) && |Last(Components(path))| <= 255 ==>
      var parent := Walk(inodes, 0, Init(Components(path)));
      if parent.Ok? then
        && ParentAndName(inodes, path) == Ok((parent.value, Last(Components(path))))
        && Resolve(inodes, path) == Enter(inodes, parent.value, Last(Components(path)))
      else
        ParentAndName(inodes, path) == Err(parent.error) && Resolve(inodes, path) == Err(parent.error)
  {
    ParentExactly(inodes, path);
    if EndsInName(path) {
      WalkLast(inodes, Components(path));
    }
  }

  // Two tables whose trees differ in one leaf: `more` has the entry and `fewer` does not.
  ghost predicate OneLeafApart(fewer: Inodes, more: Inodes, dir: nat, name: Name, leaf: nat) {
    && dir in fewer && fewer[dir].fileType == Directory
    && leaf !in fewer && more.Keys == fewer.Keys + {leaf}
    && more[leaf].children == []
    && Enter(fewer, dir, name) == Err(NotFound) && Enter(more, dir, name) == Ok(leaf)
    && forall id, n :: id in fewer && (id, n) != (dir, name) ==> Enter(fewer, id, n) == Enter(more, id, n)
  }

  // What a step from a leaf reports.
  function BelowLeaf(leaf: INode, name: Name): FsError {
    if |name| > 255 then NameTooLong
    else if leaf.fileType != Directory then NotADirectory
    else NotFound
  }

  lemma WalkInjective(inodes: Inodes, next: nat, a: seq<Name>, b: seq<Name>, id: nat)
    requires Tree(inodes, next) && Walk(inodes, 0, a) == Ok(id) && Walk(inodes, 0, b) == Ok(id)
    ensures a == b && id in inodes
  {
    WalkIsPath(inodes, next, a, id);
    WalkIsPath(inodes, next, b, id);
  }

  lemma NotTheEntry(
      inodes: Inodes, next: nat, dir: nat, name: Name, parent: seq<Name>, init: seq<Name>, last: Name, id: nat)
    requires Tree(inodes, next) && Walk(inodes, 0, parent) == Ok(dir)
    requires Walk(inodes, 0, init) == Ok(id) && init + [last] != parent + [name]
    ensures id in inodes && (id != dir || last != name)
  {
    WalkInjective(inodes, next, init, init, id);
    if id == dir {
      WalkInjective(inodes, next, init, parent, id);
    }
  }

  // A walk that does not pass the entry is unaffected by it.
  lemma {:induction false} WalksBeside(
      fewer: Inodes, next: nat, more: Inodes, dir: nat, name: Name, leaf: nat, parent: seq<Name>, c: seq<Name>)
    requires Tree(fewer, next) && OneLeafApart(fewer, more, dir, name, leaf)
    requires Walk(fewer, 0, parent) == Ok(dir) && !(parent + [name] <= c)
    ensures Walk(more, 0, c) == Walk(fewer, 0, c)
    decreases |c|
  {
    if c != [] {
      var init, last := c[..|c| - 1], c[|c| - 1];
      assert c == init + [last];
      assert !(parent + [name] <= init);
      WalksBeside(fewer, next, more, dir, name, leaf, parent, init);
      WalkLast(fewer, c);
      WalkLast(more, c);
      if Walk(fewer, 0, init).Ok? {
        NotTheEntry(fewer, next, dir, name, parent, init, last, Walk(fewer, 0, init).value);
      }
    }
  }

  lemma WalkPast(inodes: Inodes, parent: seq<Name>, dir: nat, name: Name, rest: seq<Name>)
    requires Walk(inodes, 0, parent) == Ok(dir)
    ensures Walk(inodes, 0, parent + [name] + rest)
         == var step := Enter(inodes, dir, name); if step.Ok? then Walk(inodes, step.value, rest) else Err(step.error)
  {
    assert parent + [name] + rest == parent + ([name] + rest);
    assert ([name] + rest)[1..] == rest;
    WalkAppend(inodes, 0, parent, [name] + rest);
  }

  lemma StepFromLeaf(inodes: Inodes, leaf: nat, rest: seq<Name>)
    requires leaf in inodes && inodes[leaf].children == [] && rest != []
    ensures Walk(inodes, leaf, rest) == Err(BelowLeaf(inodes[leaf], rest[0]))
  {
  }

  // The walk to the entry finds it or does not, and no walk gets past it either way.
  lemma WalksApart(
      fewer: Inodes, next: nat, more: Inodes, dir: nat, name: Name, leaf: nat, parent: seq<Name>, rest: seq<Name>)
    requires Tree(fewer, next) && OneLeafApart(fewer, more, dir, name, leaf)
    requires Walk(fewer, 0, parent) == Ok(dir)
    ensures Walk(fewer, 0, parent + [name] + rest) == Err(NotFound)
    ensures Walk(more, 0, parent + [name] + rest)
         == if rest == [] then Ok(leaf) else Err(BelowLeaf(more[leaf], rest[0]))
  {
    WalksBeside(fewer, next, more, dir, name, leaf, parent, parent);
    WalkPast(fewer, parent, dir, name, rest);
    WalkPast(more, parent, dir, name, rest);
    if rest != [] {
      StepFromLeaf(more, leaf, rest);
    }
  }

  // With distinct names, a step finds a name exactly when an entry has it.
  lemma EnterByEntry(inodes: Inodes, id: nat, n: Name, other: Inodes)
    requires id in inodes && id in other && inodes[id].fileType == other[id].fileType
    requires EntriesDistinct(inodes[id].children) && EntriesDistinct(other[id].children)
    requires forall e: DirEntry :: e.name == n ==> (e in inodes[id].children <==> e in other[id].children)
    ensures Enter(inodes, id, n) == Enter(other, id, n)
  {
    var a, b := inodes[id].children, other[id].children;
    var i, j := FindEntry(a, n), FindEntry(b, n);
    if i.Some? {
      assert a[i.value] in b;
    }
    if j.Some? {
      assert b[j.value] in a;
    }
  }

  lemma CreatedEnter(inodes: Inodes, next: nat, dir: nat, name: Name, kind: FileType, id: nat, n: Name)
    requires CanCreate(inodes, next, dir, name) && id in inodes && (id, n) != (dir, name)
    ensures Enter(inodes, id, n) == Enter(Created(inodes, next, dir, name, kind), id, n)
  {
    var after := Created(inodes, next, dir, name, kind);
    assert NodeFits(inodes, id) && id < next;
    CreatedKeepsNode(inodes, next, dir, name, kind, id);
    EnterByEntry(inodes, id, n, after);
  }

  lemma CreatedApart(inodes: Inodes, next: nat, dir: nat, name: Name, kind: FileType)
    requires CanCreate(inodes, next, dir, name)
    ensures OneLeafApart(inodes, Created(inodes, next, dir, name, kind), dir, name, next)
  {
    var after := Created(inodes, next, dir, name, kind);
    CreatedKeepsNode(inodes, next, dir, name, kind, dir);
    var entry := DirEntry(name, kind, next);
    assert dir < next;
    assert entry in after[dir].children;
    var i := EntryIndex(after[dir].children, entry);
    forall id, n | id in inodes && (id, n) != (dir, name)
      ensures Enter(inodes, id, n) == Enter(after, id, n)
    {
      CreatedEnter(inodes, next, dir, name, kind, id, n);
    }
  }

  lemma RemovedEnter(inodes: Inodes, next: nat, dir: nat, i: nat, id: nat, n: Name)
    requires CanRemove(inodes, next, dir, i) && id in Removed(inodes, dir, i)
    requires (id, n) != (dir, inodes[dir].children[i].name)
    ensures Enter(Removed(inodes, dir, i), id, n) == Enter(inodes, id, n)
  {
    var after := Removed(inodes, dir, i);
    var children := inodes[dir].children;
    RemovedEntry(inodes, next, dir, i);
    RemovedKeepsNode(inodes, next, dir, i, id);
    assert NodeFits(inodes, id);
    if id == dir {
      forall e | e in children && e.name == n
        ensures e.inode != children[i].inode
      {
        var j := EntryIndex(children, e);
      }
    }
    EnterByEntry(after, id, n, inodes);
  }

  lemma RemovedName(inodes: Inodes, next: nat, dir: nat, i: nat)
    requires CanRemove(inodes, next, dir, i)
    ensures var e := inodes[dir].children[i];
      ValidName(e.name) && Enter(inodes, dir, e.name) == Ok(e.inode) && inodes[dir].fileType == Directory
    ensures var e := inodes[dir].children[i];
      dir in Removed(inodes, dir, i) && Enter(Removed(inodes, dir, i), dir, e.name) == Err(NotFound)
  {
    var after := Removed(inodes, dir, i);
    var children := inodes[dir].children;
    var entry := children[i];
    RemovedEntry(inodes, next, dir, i);
    assert NodeFits(inodes, dir) && EntryFits(inodes, dir, entry);
    var k := EntryIndex(children, entry);
    forall e | e in after[dir].children
      ensures e.name != entry.name
    {
      var j := EntryIndex(children, e);
    }
  }

  lemma RemovedApart(inodes: Inodes, next: nat, dir: nat, i: nat)
    requires CanRemove(inodes, next, dir, i)
    ensures var e := inodes[dir].children[i];
      ValidName(e.name) && OneLeafApart(Removed(inodes, dir, i), inodes, dir, e.name, e.inode)
  {
    var after := Removed(inodes, dir, i);
    var entry := inodes[dir].children[i];
    RemovedName(inodes, next, dir, i);
    RemovedEntry(inodes, next, dir, i);
    forall id, n | id in after && (id, n) != (dir, entry.name)
      ensures Enter(after, id, n) == Enter(inodes, id, n)
    {
      RemovedEnter(inodes, next, dir, i, id, n);
    }
  }

  // The same outcome, up to the reason for which a walk past the entry fails.
  ghost predicate Unaffected(before: Inodes, after: Inodes, entry: seq<Name>, c: seq<Name>) {
    || Walk(before, 0, c) == Walk(after, 0, c)
    || (entry < c && Walk(before, 0, c).Err? && Walk(after, 0, c).Err?)
  }

  // Exactly one component list resolves in one table and not in the other.
  lemma Apart(
      fewer: Inodes, next: nat, more: Inodes, dir: nat, name: Name, leaf: nat, parent: seq<Name>, c: seq<Name>)
    requires Tree(fewer, next) && OneLeafApart(fewer, more, dir, name, leaf)
    requires Walk(fewer, 0, parent) == Ok(dir)
    ensures c == parent + [name] ==> Walk(fewer, 0, c) == Err(NotFound) && Walk(more, 0, c) == Ok(leaf)
    ensures c != parent + [name] ==> Unaffected(fewer, more, parent + [name], c)
  {
    var p := parent + [name];
    if p <= c {
      var rest := c[|p|..];
      assert c == p + rest;
      WalksApart(fewer, next, more, dir, name, leaf, parent, rest);
    } else {
      WalksBeside(fewer, next, more, dir, name, leaf, parent, c);
    }
  }

  // Creating an entry: exactly one component list starts to resolve.
  lemma CreateFrame(inodes: Inodes, next: nat, dir: nat, name: Name, kind: FileType, parent: seq<Name>, c: seq<Name>)
    requires CanCreate(inodes, next, dir, name) && Walk(inodes, 0, parent) == Ok(dir)
    ensures var after := Created(inodes, next, dir, name, kind);
      && (c == parent + [name] ==> Walk(inodes, 0, c) == Err(NotFound) && Walk(after, 0, c) == Ok(next))
      && (c != parent + [name] ==> Unaffected(inodes, after, parent + [name], c))
  {
    CreatedApart(inodes, next, dir, name, kind);
    Apart(inodes, next, Created(inodes, next, dir, name, kind), dir, name, next, parent, c);
  }

  // Removing an entry: exactly one component list stops resolving.
  lemma RemoveFrame(inodes: Inodes, next: nat, dir: nat, i: nat, parent: seq<Name>, c: seq<Name>)
    requires CanRemove(inodes, next, dir, i) && Walk(inodes, 0, parent) == Ok(dir)
    ensures var after := Removed(inodes, dir, i);
      var e := inodes[dir].children[i];
      && (c == parent + [e.name] ==> Walk(inodes, 0, c) == Ok(e.inode) && Walk(after, 0, c) == Err(NotFound))
      && (c != parent + [e.name] ==> Unaffected(inodes, after, parent + [e.name], c))
  {
    var after := Removed(inodes, dir, i);
    var e := inodes[dir].children[i];
    RemoveKeepsTree(inodes, next, dir, i);
    RemovedApart(inodes, next, dir, i);
    ParentKept(inodes, next, after, dir, e.name, e.inode, parent);
    Apart(after, next, inodes, dir, e.name, e.inode, parent, c);
  }

  // The directory of a removed entry is still where it was.
  lemma ParentKept(
      more: Inodes, next: nat, fewer: Inodes, dir: nat, name: Name, leaf: nat, parent: seq<Name>)
    requires Tree(more, next) && Tree(fewer, next) && OneLeafApart(fewer, more, dir, name, leaf)
    requires Walk(more, 0, parent) == Ok(dir)
    ensures Walk(fewer, 0, parent) == Ok(dir)
  {
    var q := PathTo(fewer, next, dir);
    PathReaches(fewer, next, dir);
    WalksBeside(fewer, next, more, dir, name, leaf, q, q);
    WalkIsPath(more, next, q, dir);
    WalkIsPath(more, next, parent, dir);
  }

  // A file's table with other contents: no walk notices.
  function WithData(inodes: Inodes, id: nat, data: Bytes): Inodes
    requires id in inodes
  {
    inodes[id := inodes[id].(data := data, size := |data|)]
  }

  lemma {:induction false} WithDataWalk(inodes: Inodes, id: nat, data: Bytes, from: nat, c: seq<Name>)
    requires id in inodes
    ensures Walk(WithData(inodes, id, data), from, c) == Walk(inodes, from, c)
    decreases |c|
  {
    if c != [] && Enter(inodes, from, c[0]).Ok? {
      WithDataWalk(inodes, id, data, Enter(inodes, from, c[0]).value, c[1..]);
    }
  }

  lemma WithDataNode(inodes: Inodes, next: nat, id: nat, data: Bytes, k: nat)
    requires Tree(inodes, next) && id in inodes && inodes[id].fileType == Regular && k in inodes
    ensures NodeFits(WithData(inodes, id, data), k)
    ensures k != 0 ==> Listed(WithData(inodes, id, data), k)
  {
    var after := WithData(inodes, id, data);
    assert NodeFits(inodes, k);
    forall e | e in after[k].children
      ensures EntryFits(after, k, e)
    {
      assert EntryFits(inodes, k, e);
    }
    if k != 0 {
      assert Listed(inodes, k);
      var p := inodes[k].parent.value;
      var e :| e in inodes[p].children && e.inode == k;
      assert e in after[p].children;
    }
  }

  lemma WithDataKeepsTree(inodes: Inodes, next: nat, id: nat, data: Bytes)
    requires Tree(inodes, next) && id in inodes && inodes[id].fileType == Regular
    ensures Tree(WithData(inodes, id, data), next)
    ensures forall c :: Walk(WithData(inodes, id, data), 0, c) == Walk(inodes, 0, c)
  {
    forall k | k in inodes
      ensures NodeFits(WithData(inodes, id, data), k) && (k != 0 ==> Listed(WithData(inodes, id, data), k))
    {
      WithDataNode(inodes, next, id, data, k);
    }
    forall c
      ensures Walk(WithData(inodes, id, data), 0, c) == Walk(inodes, 0, c)
    {
      WithDataWalk(inodes, id, data, 0, c);
    }
  }
}
