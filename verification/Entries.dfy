/** When an entry may be created or removed, and what that does to every path. */
module Entries {
  import opened Wrappers
  import opened Paths
  import opened Namespace
  import opened Framing
  import opened Descriptors

  // The checks before creating an entry, in their order: the parent and the new name.
  function CheckCreate(inodes: Inodes, path: Path): Result<(nat, Name), FsError> {
    match ParentAndName(inodes, path)
    case Err(e) => Err(e)
    case Ok((dir, name)) =>
      if dir !in inodes then Err(NotFound)
      else if inodes[dir].fileType != Directory then Err(NotADirectory)
      else if FindEntry(inodes[dir].children, name).Some? then Err(AlreadyExists)
      else Ok((dir, name))
  }

  // The checks before removing an entry that both kinds share: the parent and the position.
  function FindForRemoval(inodes: Inodes, path: Path): (r: Result<(nat, nat), FsError>)
    ensures r.Ok? ==> r.value.0 in inodes && r.value.1 < |inodes[r.value.0].children|
  {
    match ParentAndName(inodes, path)
    case Err(e) => Err(e)
    case Ok((dir, name)) =>
      if dir !in inodes then Err(NotFound)
      else
        match FindEntry(inodes[dir].children, name)
        case None => Err(NotFound)
        case Some(i) => Ok((dir, i))
  }

  predicate InUse(open: OpenFiles, id: nat) {
    exists fd :: fd in open && open[fd].inodeId == id
  }

  function CheckRemoveFile(inodes: Inodes, open: OpenFiles, path: Path): Result<(nat, nat), FsError> {
    match FindForRemoval(inodes, path)
    case Err(e) => Err(e)
    case Ok((dir, i)) =>
      var entry := inodes[dir].children[i];
      if entry.fileType == Directory then Err(IsADirectory)
      else if InUse(open, entry.inode) then Err(IoError)
      else Ok((dir, i))
  }

  function CheckRemoveDir(inodes: Inodes, path: Path): Result<(nat, nat), FsError> {
    match FindForRemoval(inodes, path)
    case Err(e) => Err(e)
    case Ok((dir, i)) =>
      var entry := inodes[dir].children[i];
      if entry.fileType != Directory then Err(NotADirectory)
      else if entry.inode !in inodes then Err(NotFound)
      else if inodes[entry.inode].children != [] then Err(DirectoryNotEmpty)
      else Ok((dir, i))
  }

  // Before the root is made there is nothing; after that there is a tree.
  ghost predicate Ready(inodes: Inodes, next: nat) {
    (inodes == map[] && next == 0) || Tree(inodes, next)
  }

  // All component lists but one resolve as before.
  ghost predicate OnlyChanges(before: Inodes, after: Inodes, p: seq<Name>) {
    forall c :: c != p ==> Unaffected(before, after, p, c)
  }

  // An empty entry appears: one component list starts to resolve, no other starts or
  // stops, and no file's bytes change.
  ghost predicate Adds(before: Inodes, after: Inodes, p: seq<Name>, kind: FileType, id: nat) {
    && Walk(before, 0, p) == Err(NotFound) && Walk(after, 0, p) == Ok(id)
    && OnlyChanges(before, after, p)
    && id !in before && after.Keys == before.Keys + {id}
    && after[id].fileType == kind && after[id].data == []
    && forall k :: k in before ==> after[k].data == before[k].data
  }

  // An entry disappears with the inode it led to.
  ghost predicate Drops(before: Inodes, after: Inodes, p: seq<Name>, id: nat) {
    && Walk(before, 0, p) == Ok(id) && Walk(after, 0, p) == Err(NotFound)
    && OnlyChanges(before, after, p)
    && id in before && after.Keys == before.Keys - {id}
    && forall k :: k in after ==> after[k].data == before[k].data
  }

  // The entry of a regular file that is not open disappears.
  ghost predicate FileGone(before: Inodes, after: Inodes, p: seq<Name>, open: OpenFiles) {
    && Walk(before, 0, p).Ok?
    && var id := Walk(before, 0, p).value;
       Drops(before, after, p, id) && before[id].fileType == Regular && !InUse(open, id)
  }

  // The entry of an empty directory disappears.
  ghost predicate DirGone(before: Inodes, after: Inodes, p: seq<Name>) {
    && Walk(before, 0, p).Ok?
    && var id := Walk(before, 0, p).value;
       Drops(before, after, p, id) && before[id].fileType == Directory && before[id].children == []
  }

  lemma CreatedChanges(inodes: Inodes, next: nat, dir: nat, name: Name, kind: FileType, parent: seq<Name>)
    requires CanCreate(inodes, next, dir, name) && Walk(inodes, 0, parent) == Ok(dir)
    ensures var after := Created(inodes, next, dir, name, kind);
      var p := parent + [name];
      && Walk(inodes, 0, p) == Err(NotFound) && Walk(after, 0, p) == Ok(next) && OnlyChanges(inodes, after, p)
  {
    var after := Created(inodes, next, dir, name, kind);
    CreateFrame(inodes, next, dir, name, kind, parent, parent + [name]);
    forall c | c != parent + [name]
      ensures Unaffected(inodes, after, parent + [name], c)
    {
      CreateFrame(inodes, next, dir, name, kind, parent, c);
    }
  }

  lemma CreatedOutcome(inodes: Inodes, next: nat, dir: nat, name: Name, kind: FileType, parent: seq<Name>)
    requires CanCreate(inodes, next, dir, name) && Walk(inodes, 0, parent) == Ok(dir)
    ensures Tree(Created(inodes, next, dir, name, kind), next + 1)
    ensures Adds(inodes, Created(inodes, next, dir, name, kind), parent + [name], kind, next)
  {
    CreateKeepsTree(inodes, next, dir, name, kind);
    CreatedChanges(inodes, next, dir, name, kind, parent);
    UnusedId(inodes, next);
    CreatedFiles(inodes, next, dir, name, kind);
  }

  lemma UnusedId(inodes: Inodes, next: nat)
    requires Ready(inodes, next)
    ensures next !in inodes
  {
  }

  lemma CreatedFiles(inodes: Inodes, next: nat, dir: nat, name: Name, kind: FileType)
    requires dir in inodes && next !in inodes
    ensures var after := Created(inodes, next, dir, name, kind);
      && after.Keys == inodes.Keys + {next} && after[next].fileType == kind && after[next].data == []
      && forall k :: k in inodes ==> after[k].data == inodes[k].data
  {
  }

  lemma RemovedChanges(inodes: Inodes, next: nat, dir: nat, i: nat, parent: seq<Name>)
    requires CanRemove(inodes, next, dir, i) && Walk(inodes, 0, parent) == Ok(dir)
    ensures var after := Removed(inodes, dir, i);
      var e := inodes[dir].children[i];
      var p := parent + [e.name];
      && Walk(inodes, 0, p) == Ok(e.inode) && Walk(after, 0, p) == Err(NotFound) && OnlyChanges(inodes, after, p)
  {
    var after := Removed(inodes, dir, i);
    var p := parent + [inodes[dir].children[i].name];
    RemoveFrame(inodes, next, dir, i, parent, p);
    forall c | c != p
      ensures Unaffected(inodes, after, p, c)
    {
      RemoveFrame(inodes, next, dir, i, parent, c);
    }
  }

  lemma RemovedOutcome(inodes: Inodes, next: nat, dir: nat, i: nat, parent: seq<Name>)
    requires CanRemove(inodes, next, dir, i) && Walk(inodes, 0, parent) == Ok(dir)
    ensures Tree(Removed(inodes, dir, i), next)
    ensures var e := inodes[dir].children[i];
      Drops(inodes, Removed(inodes, dir, i), parent + [e.name], e.inode)
  {
    RemoveKeepsTree(inodes, next, dir, i);
    RemovedEntry(inodes, next, dir, i);
    RemovedChanges(inodes, next, dir, i, parent);
  }

  // What the parent and name that were found say about the path.
  lemma FoundParent(inodes: Inodes, path: Path)
    requires ParentAndName(inodes, path).Ok?
    ensures var (dir, name) := ParentAndName(inodes, path).value;
      && ValidName(name) && path != [] && Components(path) != []
      && Walk(inodes, 0, Init(Components(path))) == Ok(dir)
      && Components(path) == Init(Components(path)) + [name]
  {
    SplittersAgree(inodes, path);
  }

  lemma CreateOutcome(inodes: Inodes, next: nat, path: Path, kind: FileType, dir: nat, name: Name)
    requires Tree(inodes, next) && CheckCreate(inodes, path) == Ok((dir, name))
    ensures dir in inodes && path != []
    ensures Tree(Created(inodes, next, dir, name, kind), next + 1)
    ensures Adds(inodes, Created(inodes, next, dir, name, kind), Components(path), kind, next)
  {
    FoundParent(inodes, path);
    CreatedOutcome(inodes, next, dir, name, kind, Init(Components(path)));
  }

  lemma RemoveOutcome(inodes: Inodes, next: nat, path: Path, dir: nat, i: nat)
    requires FindForRemoval(inodes, path) == Ok((dir, i)) && CanRemove(inodes, next, dir, i)
    ensures path != []
    ensures Tree(Removed(inodes, dir, i), next)
    ensures Drops(inodes, Removed(inodes, dir, i), Components(path), inodes[dir].children[i].inode)
  {
    FoundParent(inodes, path);
    RemovedOutcome(inodes, next, dir, i, Init(Components(path)));
  }

  // A file may be removed exactly when the path, ending in a name, resolves to a regular
  // file that no descriptor has open.
  lemma RemoveFileExactly(inodes: Inodes, next: nat, open: OpenFiles, path: Path)
    requires Tree(inodes, next)
    ensures CheckRemoveFile(inodes, open, path).Ok? <==>
      && EndsInName(path) && Resolve(inodes, path).Ok?
      && inodes[Reached(inodes, next, path)].fileType == Regular
      && !InUse(open, Reached(inodes, next, path))
    ensures CheckRemoveFile(inodes, open, path).Ok? ==>
      var (dir, i) := CheckRemoveFile(inodes, open, path).value;
      && FindForRemoval(inodes, path) == Ok((dir, i)) && CanRemove(inodes, next, dir, i)
      && inodes[dir].children[i].inode == Reached(inodes, next, path)
  {
    FindExactly(inodes, next, path);
  }

  // A directory may be removed exactly when the path, ending in a name, resolves to an
  // empty directory.
  lemma RemoveDirExactly(inodes: Inodes, next: nat, path: Path)
    requires Tree(inodes, next)
    ensures CheckRemoveDir(inodes, path).Ok? <==>
      && EndsInName(path) && Resolve(inodes, path).Ok?
      && inodes[Reached(inodes, next, path)].fileType == Directory
      && inodes[Reached(inodes, next, path)].children == []
    ensures CheckRemoveDir(inodes, path).Ok? ==>
      var (dir, i) := CheckRemoveDir(inodes, path).value;
      && FindForRemoval(inodes, path) == Ok((dir, i)) && CanRemove(inodes, next, dir, i)
      && inodes[dir].children[i].inode == Reached(inodes, next, path)
  {
    FindExactly(inodes, next, path);
  }

  // The live inode a path resolves to, or the root.
  ghost function Reached(inodes: Inodes, next: nat, path: Path): (id: nat)
    requires Tree(inodes, next)
    ensures id in inodes
  {
    match Resolve(inodes, path)
    case Ok(id) => WalkIsPath(inodes, next, Components(path), id); id
    case Err(_) => 0
  }

  lemma FindExactly(inodes: Inodes, next: nat, path: Path)
    requires Tree(inodes, next)
    ensures FindForRemoval(inodes, path).Ok? <==> EndsInName(path) && Resolve(inodes, path).Ok?
    ensures FindForRemoval(inodes, path).Ok? ==>
      var (dir, i) := FindForRemoval(inodes, path).value;
      && dir in inodes && i < |inodes[dir].children|
      && inodes[dir].children[i].inode == Reached(inodes, next, path)
      && inodes[dir].children[i].fileType == inodes[Reached(inodes, next, path)].fileType
      && (inodes[Reached(inodes, next, path)].fileType == Regular ==>
            inodes[Reached(inodes, next, path)].children == [])
  {
    SplittersAgree(inodes, path);
    if ParentAndName(inodes, path).Ok? {
      var (dir, name) := ParentAndName(inodes, path).value;
      if dir in inodes && FindEntry(inodes[dir].children, name).Some? {
        var i := FindEntry(inodes[dir].children, name).value;
        var e := inodes[dir].children[i];
        assert NodeFits(inodes, dir) && EntryFits(inodes, dir, e);
        assert NodeFits(inodes, e.inode);
      }
    }
  }

  // The path ends in a name, of at most 255 bytes.
  ghost predicate Named(path: Path) {
    EndsInName(path) && Components(path) != [] && |Last(Components(path))| <= 255
  }

  // The path ends in a name, its parent part leads to a directory, and it does not resolve.
  ghost predicate Creatable(inodes: Inodes, path: Path) {
    && Named(path)
    && Resolve(inodes, path).Err?
    && var dir := Walk(inodes, 0, Init(Components(path)));
       dir.Ok? && dir.value in inodes && inodes[dir.value].fileType == Directory
  }

  // That is exactly when an entry may be created.
  lemma CreateExactly(inodes: Inodes, path: Path)
    ensures CheckCreate(inodes, path).Ok? <==> Creatable(inodes, path)
  {
    SplittersAgree(inodes, path);
  }

  // Why creating an entry is refused: the path, the parent, or an entry in the way.
  lemma CreateRefusals(inodes: Inodes, next: nat, path: Path)
    requires Tree(inodes, next)
    ensures !Named(path) ==> CheckCreate(inodes, path) == Err(InvalidPath)
    ensures Named(path) ==>
      var parent := Walk(inodes, 0, Init(Components(path)));
      && (parent.Err? ==> CheckCreate(inodes, path) == Err(parent.error))
      && (parent.Ok? ==> parent.value in inodes)
      && (parent.Ok? && inodes[parent.value].fileType == Regular ==> CheckCreate(inodes, path) == Err(NotADirectory))
      && (parent.Ok? && Resolve(inodes, path).Ok? ==> CheckCreate(inodes, path) == Err(AlreadyExists))
  {
    SplittersAgree(inodes, path);
    if Named(path) && Walk(inodes, 0, Init(Components(path))).Ok? {
      WalkIsPath(inodes, next, Init(Components(path)), Walk(inodes, 0, Init(Components(path))).value);
    }
  }

  // Why removing one is: the path, the parent, no such entry, or one that may not go.
  lemma RemoveRefusals(inodes: Inodes, next: nat, open: OpenFiles, path: Path)
    requires Tree(inodes, next)
    ensures !Named(path) ==>
      CheckRemoveFile(inodes, open, path) == CheckRemoveDir(inodes, path) == Err(InvalidPath)
    ensures Named(path) ==>
      var parent := Walk(inodes, 0, Init(Components(path)));
      && (parent.Err? ==>
            CheckRemoveFile(inodes, open, path) == CheckRemoveDir(inodes, path) == Err(parent.error))
      && (parent.Ok? && Resolve(inodes, path).Err? ==>
            CheckRemoveFile(inodes, open, path) == CheckRemoveDir(inodes, path) == Err(NotFound))
    ensures Named(path) && Resolve(inodes, path).Ok? ==>
      var id := Reached(inodes, next, path);
      && (inodes[id].fileType == Directory ==> CheckRemoveFile(inodes, open, path) == Err(IsADirectory))
      && (inodes[id].fileType == Regular && (exists fd :: fd in open && open[fd].inodeId == id) ==>
            CheckRemoveFile(inodes, open, path) == Err(IoError))
      && (inodes[id].fileType == Regular ==> CheckRemoveDir(inodes, path) == Err(NotADirectory))
      && (inodes[id].fileType == Directory && inodes[id].children != [] ==>
            CheckRemoveDir(inodes, path) == Err(DirectoryNotEmpty))
  {
    SplittersAgree(inodes, path);
    FindExactly(inodes, next, path);
    if Named(path) && Walk(inodes, 0, Init(Components(path))).Ok? {
      var dir := Walk(inodes, 0, Init(Components(path))).value;
      WalkIsPath(inodes, next, Init(Components(path)), dir);
      assert NodeFits(inodes, dir);
    }
  }
}
