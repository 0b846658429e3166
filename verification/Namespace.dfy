/**
 * The inode table as a tree: walking component lists, what creating and removing an
 * entry does to the tree, and which walks change.
 */
module Namespace {
  import opened Wrappers
  import opened Paths
  import opened FileBytes

  datatype FileType = Regular | Directory

  datatype DirEntry = DirEntry(name: Name, fileType: FileType, inode: nat)

  datatype INode = INode(
    fileType: FileType, size: nat, data: Bytes, children: seq<DirEntry>, parent: Option<nat>)

  type Inodes = map<nat, INode>

  datatype FsError =
    | NotFound | AlreadyExists | PermissionDenied | NotADirectory | IsADirectory | DirectoryNotEmpty
    | InvalidPath | NotOpen | NameTooLong | IoError | InvalidOffset

  // The first entry with a name.
  function FindEntry(children: seq<DirEntry>, name: Name): (r: Option<nat>)
    ensures r.None? <==> forall e :: e in children ==> e.name != name
    ensures r.Some? ==> r.value < |children| && children[r.value].name == name
  {
    if children == [] then None
    else if children[0].name == name then Some(0)
    else
      assert children == [children[0]] + children[1..];
      match FindEntry(children[1..], name)
      case None => None
      case Some(i) => Some(i + 1)
  }

  // One step down: the checks come in this order.
  function Enter(inodes: Inodes, dir: nat, name: Name): Result<nat, FsError> {
    if |name| > 255 then Err(NameTooLong)
    else if dir !in inodes then Err(NotFound)
    else if inodes[dir].fileType != Directory then Err(NotADirectory)
    else
      match FindEntry(inodes[dir].children, name)
      case None => Err(NotFound)
      case Some(i) => Ok(inodes[dir].children[i].inode)
  }

  function Walk(inodes: Inodes, from: nat, names: seq<Name>): Result<nat, FsError>
    decreases |names|
  {
    if names == [] then Ok(from)
    else
      match Enter(inodes, from, names[0])
      case Err(e) => Err(e)
      case Ok(next) => Walk(inodes, next, names[1..])
  }

  lemma {:induction false} WalkAppend(inodes: Inodes, from: nat, a: seq<Name>, b: seq<Name>)
    ensures Walk(inodes, from, a + b)
         == match Walk(inodes, from, a) case Ok(mid) => Walk(inodes, mid, b) case Err(e) => Err(e)
    decreases |a|
  {
    if a == [] {
      assert a + b == b;
    } else {
      assert (a + b)[1..] == a[1..] + b;
      if Enter(inodes, from, a[0]).Ok? {
        WalkAppend(inodes, Enter(inodes, from, a[0]).value, a[1..], b);
      }
    }
  }

  lemma WalkOne(inodes: Inodes, from: nat, name: Name)
    ensures Walk(inodes, from, [name]) == Enter(inodes, from, name)
  {
    assert [name][1..] == [];
  }

  // An entry belongs where it is: it leads to a live inode that names this directory
  // as its parent and has the recorded type.
  ghost predicate EntryFits(inodes: Inodes, dir: nat, e: DirEntry) {
    && e.inode in inodes && e.inode != 0 && inodes[e.inode].parent == Some(dir)
    && e.fileType == inodes[e.inode].fileType && ValidName(e.name)
  }

  ghost predicate EntriesDistinct(children: seq<DirEntry>) {
    forall i, j :: 0 <= i < j < |children| ==>
      children[i].name != children[j].name && children[i].inode != children[j].inode
  }

  // A live inode other than the root is listed in its parent, which is older.
  ghost predicate Listed(inodes: Inodes, id: nat) {
    && id in inodes && inodes[id].parent.Some?
    && var p := inodes[id].parent.value;
       p < id && p in inodes && exists e :: e in inodes[p].children && e.inode == id
  }

  ghost predicate NodeFits(inodes: Inodes, id: nat) {
    && id in inodes
    && var n := inodes[id];
       && n.size == |n.data|
       && (n.fileType == Directory ==> n.data == [])
       && (n.fileType != Directory ==> n.children == [])
       && EntriesDistinct(n.children)
       && (forall e {:trigger EntryFits(inodes, id, e)} :: e in n.children ==> EntryFits(inodes, id, e))
  }

  // The namespace is a tree rooted at inode 0, with ids below `next`.
  ghost predicate Tree(inodes: Inodes, next: nat) {
    && 0 in inodes && inodes[0].fileType == Directory && inodes[0].parent == None
    && (forall id :: id in inodes ==> id < next)
    && (forall id {:trigger NodeFits(inodes, id)} :: id in inodes ==> NodeFits(inodes, id))
    && (forall id {:trigger Listed(inodes, id)} :: id in inodes && id != 0 ==> Listed(inodes, id))
  }

  lemma EntryIndex(children: seq<DirEntry>, e: DirEntry) returns (i: nat)
    requires e in children && EntriesDistinct(children)
    ensures i < |children| && children[i] == e && FindEntry(children, e.name) == Some(i)
  {
    i :| 0 <= i < |children| && children[i] == e;
  }

  ghost function NameOf(inodes: Inodes, id: nat): Name
    requires Listed(inodes, id)
  {
    var e :| e in inodes[inodes[id].parent.value].children && e.inode == id;
    e.name
  }

  // The component list that leads to a live inode.
  ghost function PathTo(inodes: Inodes, next: nat, id: nat): seq<Name>
    requires Tree(inodes, next) && id in inodes
    decreases id
  {
    if id == 0 then []
    else
      assert Listed(inodes, id);
      PathTo(inodes, next, inodes[id].parent.value) + [NameOf(inodes, id)]
  }

  lemma EnterChild(inodes: Inodes, next: nat, id: nat)
    requires Tree(inodes, next) && id in inodes && id != 0
    ensures Listed(inodes, id)
    ensures Enter(inodes, inodes[id].parent.value, NameOf(inodes, id)) == Ok(id)
  {
    assert Listed(inodes, id);
    var p := inodes[id].parent.value;
    var e :| e in inodes[p].children && e.inode == id && e.name == NameOf(inodes, id);
    assert NodeFits(inodes, p) && EntryFits(inodes, p, e);
    var i := EntryIndex(inodes[p].children, e);
  }

  // Where a step leads, and back: the parent and the name are determined.
  lemma EnterUnique(inodes: Inodes, next: nat, dir: nat, name: Name, id: nat)
    requires Tree(inodes, next) && dir in inodes && Enter(inodes, dir, name) == Ok(id)
    ensures id in inodes && id != 0 && inodes[id].parent == Some(dir) && dir < id
    ensures Listed(inodes, id) && NameOf(inodes, id) == name
  {
    assert NodeFits(inodes, dir);
    var children := inodes[dir].children;
    var i := FindEntry(children, name).value;
    assert children[i] in children && EntryFits(inodes, dir, children[i]);
    assert Listed(inodes, id);
    var e :| e in children && e.inode == id && e.name == NameOf(inodes, id);
    var j := EntryIndex(children, e);
  }

  // Every live inode is reached by its path.
  lemma {:induction false} PathReaches(inodes: Inodes, next: nat, id: nat)
    requires Tree(inodes, next) && id in inodes
    ensures Walk(inodes, 0, PathTo(inodes, next, id)) == Ok(id)
    decreases id
  {
    if id != 0 {
      EnterChild(inodes, next, id);
      var p := inodes[id].parent.value;
      PathReaches(inodes, next, p);
      WalkAppend(inodes, 0, PathTo(inodes, next, p), [NameOf(inodes, id)]);
      WalkOne(inodes, p, NameOf(inodes, id));
    }
  }

  // And by no other: walks and live inodes correspond one to one.
  lemma {:induction false} WalkIsPath(inodes: Inodes, next: nat, names: seq<Name>, id: nat)
    requires Tree(inodes, next) && Walk(inodes, 0, names) == Ok(id)
    ensures id in inodes && names == PathTo(inodes, next, id)
    decreases |names|
  {
    if names != [] {
      var init, last := names[..|names| - 1], names[|names| - 1];
      assert names == init + [last];
      WalkAppend(inodes, 0, init, [last]);
      var p := Walk(inodes, 0, init).value;
      WalkOne(inodes, p, last);
      WalkIsPath(inodes, next, init, p);
      EnterUnique(inodes, next, p, last, id);
    }
  }

  // The table after creating an entry.
  function Created(inodes: Inodes, id: nat, dir: nat, name: Name, kind: FileType): Inodes
    requires dir in inodes
  {
    var d := inodes[dir];
    inodes[id := INode(kind, 0, [], [], Some(dir))][dir := d.(children := d.children + [DirEntry(name, kind, id)])]
  }

  ghost predicate CanCreate(inodes: Inodes, next: nat, dir: nat, name: Name) {
    && Tree(inodes, next) && dir in inodes && inodes[dir].fileType == Directory
    && ValidName(name) && FindEntry(inodes[dir].children, name) == None
  }

  // The entries of a directory with a valid name for a new one.
  lemma FreshEntry(inodes: Inodes, next: nat, dir: nat, name: Name, i: nat)
    requires CanCreate(inodes, next, dir, name) && i < |inodes[dir].children|
    ensures inodes[dir].children[i].name != name && inodes[dir].children[i].inode < next
  {
    assert inodes[dir].children[i] in inodes[dir].children;
    assert NodeFits(inodes, dir) && EntryFits(inodes, dir, inodes[dir].children[i]);
  }

  lemma CreatedKeepsNode(inodes: Inodes, next: nat, dir: nat, name: Name, kind: FileType, id: nat)
    requires CanCreate(inodes, next, dir, name) && id in inodes
    ensures NodeFits(Created(inodes, next, dir, name, kind), id)
  {
    var after := Created(inodes, next, dir, name, kind);
    assert NodeFits(inodes, id) && dir < next && id < next;
    forall e | e in after[id].children
      ensures EntryFits(after, id, e)
    {
      if e in inodes[id].children {
        assert EntryFits(inodes, id, e);
      }
    }
    forall i | 0 <= i < |inodes[dir].children|
      ensures inodes[dir].children[i].name != name && inodes[dir].children[i].inode < next
    {
      FreshEntry(inodes, next, dir, name, i);
    }
  }

  lemma CreatedKeepsListed(inodes: Inodes, next: nat, dir: nat, name: Name, kind: FileType, id: nat)
    requires CanCreate(inodes, next, dir, name) && id in inodes && id != 0
    ensures Listed(Created(inodes, next, dir, name, kind), id)
  {
    var after := Created(inodes, next, dir, name, kind);
    assert Listed(inodes, id);
    var p := inodes[id].parent.value;
    assert id < next && p < next && dir < next;
    var e :| e in inodes[p].children && e.inode == id;
    assert e in after[p].children;
  }

  lemma CreateKeepsTree(inodes: Inodes, next: nat, dir: nat, name: Name, kind: FileType)
    requires CanCreate(inodes, next, dir, name)
    ensures Tree(Created(inodes, next, dir, name, kind), next + 1)
  {
    var after := Created(inodes, next, dir, name, kind);
    assert dir < next;
    forall id | id in after
      ensures id < next + 1 && NodeFits(after, id) && (id != 0 ==> Listed(after, id))
    {
      if id != next {
        CreatedKeepsNode(inodes, next, dir, name, kind, id);
        if id != 0 {
          CreatedKeepsListed(inodes, next, dir, name, kind, id);
        }
      } else {
        assert DirEntry(name, kind, next) in after[dir].children;
      }
    }
  }

  // The table after removing the i-th entry of a directory and the inode behind it.
  function Removed(inodes: Inodes, dir: nat, i: nat): Inodes
    requires dir in inodes && i < |inodes[dir].children|
  {
    var d := inodes[dir];
    var rest := inodes - {d.children[i].inode};
    if dir in rest then rest[dir := d.(children := d.children[..i] + d.children[i + 1..])] else rest
  }

  // The entry's inode is a leaf.
  ghost predicate CanRemove(inodes: Inodes, next: nat, dir: nat, i: nat) {
    && Tree(inodes, next) && dir in inodes && i < |inodes[dir].children|
    && var id := inodes[dir].children[i].inode;
       id in inodes && inodes[id].children == []
  }

  // The removed inode is not the directory, and no other entry leads to it.
  lemma RemovedEntry(inodes: Inodes, next: nat, dir: nat, i: nat)
    requires CanRemove(inodes, next, dir, i)
    ensures inodes[dir].children[i].inode != dir && inodes[dir].children[i].inode != 0
    ensures inodes[inodes[dir].children[i].inode].parent == Some(dir)
    ensures forall e :: e in inodes[dir].children[..i] + inodes[dir].children[i + 1..] <==>
              e in inodes[dir].children && e.inode != inodes[dir].children[i].inode
  {
    var children := inodes[dir].children;
    assert NodeFits(inodes, dir) && children[i] in children && EntryFits(inodes, dir, children[i]);
    assert Listed(inodes, children[i].inode);
    WithoutIndex(children, i);
  }

  lemma WithoutIndex(children: seq<DirEntry>, i: nat)
    requires EntriesDistinct(children) && i < |children|
    ensures forall e :: e in children[..i] + children[i + 1..] <==> e in children && e.inode != children[i].inode
    ensures EntriesDistinct(children[..i] + children[i + 1..])
  {
    var rest := children[..i] + children[i + 1..];
    forall e | e in children && e.inode != children[i].inode
      ensures e in rest
    {
      var j :| 0 <= j < |children| && children[j] == e;
      assert rest[if j < i then j else j - 1] == e;
    }
  }

  lemma RemovedKeepsNode(inodes: Inodes, next: nat, dir: nat, i: nat, id: nat)
    requires CanRemove(inodes, next, dir, i) && id in inodes && id != inodes[dir].children[i].inode
    ensures NodeFits(Removed(inodes, dir, i), id)
  {
    var after := Removed(inodes, dir, i);
    var gone := inodes[dir].children[i].inode;
    RemovedEntry(inodes, next, dir, i);
    assert NodeFits(inodes, id);
    forall e | e in after[id].children
      ensures EntryFits(after, id, e)
    {
      assert e in inodes[id].children && EntryFits(inodes, id, e);
    }
    WithoutIndex(inodes[dir].children, i) by {
      assert NodeFits(inodes, dir);
    }
  }

  lemma RemovedKeepsListed(inodes: Inodes, next: nat, dir: nat, i: nat, id: nat)
    requires CanRemove(inodes, next, dir, i) && id in inodes && id != inodes[dir].children[i].inode && id != 0
    ensures Listed(Removed(inodes, dir, i), id)
  {
    var after := Removed(inodes, dir, i);
    RemovedEntry(inodes, next, dir, i);
    assert Listed(inodes, id);
    var p := inodes[id].parent.value;
    var e :| e in inodes[p].children && e.inode == id;
    assert p in after && e in after[p].children;
  }

  lemma RemoveKeepsTree(inodes: Inodes, next: nat, dir: nat, i: nat)
    requires CanRemove(inodes, next, dir, i)
    ensures Tree(Removed(inodes, dir, i), next)
  {
    var after := Removed(inodes, dir, i);
    var children := inodes[dir].children;
    assert NodeFits(inodes, dir) && children[i] in children && EntryFits(inodes, dir, children[i]);
    RemovedEntry(inodes, next, dir, i);
    forall id | id in after
      ensures id < next && NodeFits(after, id) && (id != 0 ==> Listed(after, id))
    {
      RemovedKeepsNode(inodes, next, dir, i, id);
      if id != 0 {
        RemovedKeepsListed(inodes, next, dir, i, id);
      }
    }
  }
}
