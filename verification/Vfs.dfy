/**
 * The virtual file system: an inode table, the open files, and recycled descriptor numbers.
 */
module Vfs {
  import opened Wrappers
  import opened Bits
  import opened Sequences
  import opened Paths
  import opened FileBytes
  import opened Namespace
  import opened Framing
  import opened Descriptors
  import opened Entries

  type Kinds = map<nat, FileType>

  // A descriptor opened on a regular file refers to a live regular file. One opened on a
  // directory may outlive it, but no other inode takes its id.
  ghost predicate Linked(open: OpenFiles, openedAs: Kinds, inodes: Inodes, next: nat) {
    openedAs.Keys == open.Keys && forall fd :: fd in open ==> LinkedTo(openedAs[fd], open[fd].inodeId, inodes, next)
  }

  ghost predicate LinkedTo(kind: FileType, id: nat, inodes: Inodes, next: nat) {
    && id < next
    && (id in inodes ==> inodes[id].fileType == kind)
    && (kind == Regular ==> id in inodes)
  }

  lemma CreateKeepsLinks(
      open: OpenFiles, openedAs: Kinds, inodes: Inodes, next: nat, dir: nat, name: Name, kind: FileType)
    requires Linked(open, openedAs, inodes, next) && dir in inodes
    ensures Linked(open, openedAs, Created(inodes, next, dir, name, kind), next + 1)
  {
  }

  lemma InsertOutcome(
      open: OpenFiles, openedAs: Kinds, inodes: Inodes, next: nat, path: Path, dir: nat, name: Name, kind: FileType,
      after: Inodes)
    requires Ready(inodes, next) && Linked(open, openedAs, inodes, next)
    requires CheckCreate(inodes, path) == Ok((dir, name)) && after == Created(inodes, next, dir, name, kind)
    ensures Ready(after, next + 1) && Linked(open, openedAs, after, next + 1)
    ensures Adds(inodes, after, Components(path), kind, next)
  {
    UnusedId(inodes, next);
    CreateOutcome(inodes, next, path, kind, dir, name);
    CreateKeepsLinks(open, openedAs, inodes, next, dir, name, kind);
  }

  lemma FileRemoved(
      open: OpenFiles, openedAs: Kinds, inodes: Inodes, next: nat, path: Path, dir: nat, i: nat, after: Inodes)
    requires Ready(inodes, next) && Linked(open, openedAs, inodes, next)
    requires CheckRemoveFile(inodes, open, path) == Ok((dir, i)) && after == Removed(inodes, dir, i)
    ensures Ready(after, next) && Linked(open, openedAs, after, next)
    ensures FileGone(inodes, after, Components(path), open)
  {
    RemoveFileExactly(inodes, next, open, path);
    RemoveOutcome(inodes, next, path, dir, i);
  }

  lemma DirRemoved(
      open: OpenFiles, openedAs: Kinds, inodes: Inodes, next: nat, path: Path, dir: nat, i: nat, after: Inodes)
    requires Ready(inodes, next) && Linked(open, openedAs, inodes, next)
    requires CheckRemoveDir(inodes, path) == Ok((dir, i)) && after == Removed(inodes, dir, i)
    ensures Ready(after, next) && Linked(open, openedAs, after, next)
    ensures Resolve(inodes, path) == Ok(inodes[dir].children[i].inode) && DirGone(inodes, after, Components(path))
  {
    RemoveDirExactly(inodes, next, path);
    RemoveOutcome(inodes, next, path, dir, i);
  }

  // The file behind a descriptor, as reading and writing find it.
  function Access(inodes: Inodes, open: OpenFiles, fd: nat, write: bool): Result<nat, FsError> {
    if fd !in open then Err(NotOpen)
    else if !(if write then open[fd].writable else open[fd].readable) then Err(PermissionDenied)
    else if open[fd].inodeId !in inodes then Err(NotFound)
    else if inodes[open[fd].inodeId].fileType == Directory then Err(IsADirectory)
    else Ok(open[fd].inodeId)
  }

  // When reading or writing through a descriptor is refused, and why.
  lemma AccessExactly(inodes: Inodes, open: OpenFiles, fd: nat, write: bool)
    ensures fd !in open ==> Access(inodes, open, fd, write) == Err(NotOpen)
    ensures fd in open ==>
      var file := open[fd];
      && (write && !file.writable ==> Access(inodes, open, fd, write) == Err(PermissionDenied))
      && (!write && !file.readable ==> Access(inodes, open, fd, write) == Err(PermissionDenied))
      && ((if write then file.writable else file.readable) ==>
            Access(inodes, open, fd, write)
              == if file.inodeId !in inodes then Err(NotFound)
                 else if inodes[file.inodeId].fileType == Regular then Ok(file.inodeId)
                 else Err(IsADirectory))
  {
  }

  // Through a descriptor just opened on a regular file, a read succeeds exactly when bit 0
  // of the flags is set and a write exactly when bit 1 or bit 2 is; else the permission is
  // denied.
  lemma OpenedAccess(inodes: Inodes, open: OpenFiles, fd: nat, flags: nat)
    requires fd in open && JustOpened(open[fd], open[fd].inodeId, flags)
    requires open[fd].inodeId in inodes && inodes[open[fd].inodeId].fileType == Regular
    ensures Access(inodes, open, fd, false)
         == if flags % 2 == 1 then Ok(open[fd].inodeId) else Err(PermissionDenied)
    ensures Access(inodes, open, fd, true)
         == if flags / 2 % 2 == 1 || flags / 4 % 2 == 1 then Ok(open[fd].inodeId) else Err(PermissionDenied)
  {
  }

  // Where a write through a descriptor starts.
  function WriteOffset(file: OpenFile, data: Bytes): nat {
    if Has(file.flags, APPEND) then |data| else file.offset
  }

  // At the end of the data when bit 2 of the flags is set, and at the offset otherwise.
  lemma WriteOffsetExactly(file: OpenFile, data: Bytes)
    ensures WriteOffset(file, data) == if file.flags / 4 % 2 == 1 then |data| else file.offset
  {
    FlagBits(file.flags);
  }

  // Whether a path may be opened.
  function CheckOpen(inodes: Inodes, path: Path, flags: nat): Result<(), FsError> {
    match Resolve(inodes, path)
    case Ok(id) =>
      if id !in inodes then Err(NotFound)
      else if inodes[id].fileType == Directory && !Has(flags, DIRECTORY) then Err(IsADirectory)
      else Ok(())
    case Err(NotFound) =>
      if !Has(flags, CREATE) then Err(NotFound)
      else if CheckCreate(inodes, path).Err? then Err(CheckCreate(inodes, path).error)
      else Ok(())
    case Err(e) => Err(e)
  }

  // A path that resolves may be opened unless it leads to a directory and bit 6 of the flags
  // is not set; one that does not, exactly when bit 3 is set and it can be created.
  lemma CheckOpenExactly(inodes: Inodes, next: nat, path: Path, flags: nat)
    requires Tree(inodes, next)
    ensures Resolve(inodes, path).Ok? ==>
      CheckOpen(inodes, path, flags)
        == if inodes[Reached(inodes, next, path)].fileType == Regular || flags / 64 % 2 == 1 then Ok(())
           else Err(IsADirectory)
    ensures Resolve(inodes, path) == Err(NotFound) ==>
      && (flags / 8 % 2 == 0 ==> CheckOpen(inodes, path, flags) == Err(NotFound))
      && (flags / 8 % 2 == 1 && Creatable(inodes, path) ==> CheckOpen(inodes, path, flags) == Ok(()))
      && (flags / 8 % 2 == 1 && !Creatable(inodes, path) ==>
            CheckCreate(inodes, path).Err? && CheckOpen(inodes, path, flags) == Err(CheckCreate(inodes, path).error))
    ensures Resolve(inodes, path).Err? && Resolve(inodes, path).error != NotFound ==>
      CheckOpen(inodes, path, flags) == Err(Resolve(inodes, path).error)
  {
    FlagBits(flags);
    CreateExactly(inodes, path);
  }

  // What opening does to the tree: an existing file is emptied if it is to be truncated
  // and can be written; a missing one is created.
  ghost predicate OpenEffect(before: Inodes, after: Inodes, path: Path, flags: nat, id: nat) {
    match Resolve(before, path)
    case Ok(found) =>
      && id == found && id in before
      && after == if Has(flags, TRUNCATE) && Writable(flags) then WithData(before, id, []) else before
    case Err(_) => Adds(before, after, Components(path), Regular, id)
  }

  // An existing file is emptied exactly when bit 4 of the flags is set and bit 1 or bit 2 is.
  lemma OpenEffectExactly(before: Inodes, after: Inodes, path: Path, flags: nat, id: nat)
    requires OpenEffect(before, after, path, flags, id) && Resolve(before, path).Ok?
    ensures var empty := flags / 16 % 2 == 1 && (flags / 2 % 2 == 1 || flags / 4 % 2 == 1);
      && after.Keys == before.Keys && id in before
      && after[id] == (if empty then before[id].(data := [], size := 0) else before[id])
      && forall k :: k in before && k != id ==> after[k] == before[k]
  {
    FlagBits(flags);
  }

  // Emptying a file keeps the tree; a directory has no data to lose.
  lemma TruncateOutcome(
      open: OpenFiles, openedAs: Kinds, inodes: Inodes, next: nat, id: nat, after: Inodes)
    requires Ready(inodes, next) && Linked(open, openedAs, inodes, next)
    requires id in inodes && after == WithData(inodes, id, [])
    ensures Ready(after, next) && Linked(open, openedAs, after, next)
  {
    assert NodeFits(inodes, id);
    if inodes[id].fileType == Directory {
      assert after == inodes;
    } else {
      WithDataKeepsTree(inodes, next, id, []);
    }
  }

  // A file opened on a live inode gets a descriptor that was not in use.
  lemma OpenedKeeps(
      open: OpenFiles, openedAs: Kinds, inodes: Inodes, nextInode: nat, free: seq<nat>, nextFd: nat, peak: nat,
      fd: nat, free': seq<nat>, nextFd': nat, file: OpenFile, open': OpenFiles)
    requires Ready(inodes, nextInode) && file.inodeId in inodes
    requires Linked(open, openedAs, inodes, nextInode) && Pool(open.Keys, free, nextFd) && nextFd == peak
    requires (fd, free', nextFd') == Allocated(free, nextFd) && open' == open[fd := file]
    ensures fd !in open
    ensures Linked(open', openedAs[fd := inodes[file.inodeId].fileType], inodes, nextInode)
    ensures Pool(open'.Keys, free', nextFd') && nextFd' == if |open'| > peak then |open'| else peak
  {
    AllocateKeepsPool(open.Keys, free, nextFd, peak);
    assert open'.Keys == open.Keys + {fd};
    assert |open'| == |open'.Keys|;
  }

  // Moving a descriptor's offset.
  function Moved(open: OpenFiles, fd: nat, offset: nat): OpenFiles
    requires fd in open
  {
    open[fd := open[fd].(offset := offset)]
  }

  lemma MovedKeeps(
      open: OpenFiles, openedAs: Kinds, inodes: Inodes, next: nat, fd: nat, offset: nat, open': OpenFiles)
    requires Linked(open, openedAs, inodes, next) && fd in open && open' == Moved(open, fd, offset)
    ensures Linked(open', openedAs, inodes, next) && open'.Keys == open.Keys
  {
  }

  // The file behind the descriptor has the buffer at the write's start, and the
  // descriptor's offset is just after it.
  ghost predicate Wrote(before: Inodes, open: OpenFiles, after: Inodes, open': OpenFiles, fd: nat, buf: Bytes) {
    && fd in open && open[fd].inodeId in before
    && var file := open[fd];
       var data := before[file.inodeId].data;
       var start := WriteOffset(file, data);
       && after == WithData(before, file.inodeId, Written(data, start, buf))
       && open' == Moved(open, fd, start + |buf|)
  }

  lemma WriteOutcome(
      open: OpenFiles, openedAs: Kinds, inodes: Inodes, next: nat, fd: nat, buf: Bytes,
      after: Inodes, open': OpenFiles)
    requires Ready(inodes, next) && Linked(open, openedAs, inodes, next)
    requires Access(inodes, open, fd, true).Ok? && Wrote(inodes, open, after, open', fd, buf)
    ensures Ready(after, next) && Linked(open', openedAs, after, next) && open'.Keys == open.Keys
  {
    var file := open[fd];
    var data := inodes[file.inodeId].data;
    WithDataKeepsTree(inodes, next, file.inodeId, Written(data, WriteOffset(file, data), buf));
  }

  // A write changes no path.
  lemma WriteKeepsPaths(
      before: Inodes, open: OpenFiles, after: Inodes, open': OpenFiles, fd: nat, buf: Bytes, path: Path)
    requires Wrote(before, open, after, open', fd, buf)
    ensures Resolve(after, path) == Resolve(before, path)
  {
    WithDataWalk(before, open[fd].inodeId, after[open[fd].inodeId].data, 0, Components(path));
  }

  // What a write through one descriptor leaves is read back from where it started.
  lemma WriteThenRead(
      before: Inodes, open: OpenFiles, after: Inodes, open': OpenFiles, fd: nat, buf: Bytes)
    requires Wrote(before, open, after, open', fd, buf)
    ensures var id := open[fd].inodeId;
      var start := WriteOffset(open[fd], before[id].data);
      ReadAt(after[id].data, start, |buf|) == buf && open'[fd].offset == start + |buf|
  {
    var id := open[fd].inodeId;
    ReadBack(before[id].data, WriteOffset(open[fd], before[id].data), buf);
  }

  // A read for some number of bytes: it got those at the descriptor's offset, which moves
  // past them.
  ghost predicate Got(inodes: Inodes, open: OpenFiles, open': OpenFiles, fd: nat, size: nat, got: Bytes) {
    && fd in open && open[fd].inodeId in inodes
    && var file := open[fd];
       && got == ReadAt(inodes[file.inodeId].data, file.offset, size)
       && open' == Moved(open, fd, file.offset + |got|)
  }

  // The buffer starts with what was got, and its rest is as it was.
  ghost predicate DidRead(
      inodes: Inodes, open: OpenFiles, open': OpenFiles, fd: nat, before: Bytes, after: Bytes, n: nat)
  {
    && n <= |before| && |after| == |before| && after[n..] == before[n..]
    && Got(inodes, open, open', fd, |before|, after[..n])
  }

  // Two writes in a row through one descriptor are one write of both buffers, whether
  // they append or not: so any chunking of a write leaves the same state.
  lemma WritesJoin(
      a: Inodes, openA: OpenFiles, b: Inodes, openB: OpenFiles, c: Inodes, openC: OpenFiles,
      fd: nat, x: Bytes, y: Bytes)
    requires Wrote(a, openA, b, openB, fd, x) && Wrote(b, openB, c, openC, fd, y)
    ensures Wrote(a, openA, c, openC, fd, x + y)
  {
    var id := openA[fd].inodeId;
    var data := a[id].data;
    var start := WriteOffset(openA[fd], data);
    assert b[id].data == Written(data, start, x);
    assert WriteOffset(openB[fd], b[id].data) == start + |x|;
    WriteTwice(data, start, x, y);
    assert c[id].data == Written(data, start, x + y);
    assert c == WithData(a, id, c[id].data);
    assert openC == Moved(openA, fd, start + |x + y|);
  }

  // Two reads in a row are one read for both sizes.
  lemma ReadsJoin(
      inodes: Inodes, openA: OpenFiles, openB: OpenFiles, openC: OpenFiles, fd: nat,
      m: nat, x: Bytes, n: nat, y: Bytes)
    requires Got(inodes, openA, openB, fd, m, x) && Got(inodes, openB, openC, fd, n, y)
    ensures Got(inodes, openA, openC, fd, m + n, x + y)
  {
    var file := openA[fd];
    ReadTwice(inodes[file.inodeId].data, file.offset, m, n);
    assert openC == Moved(openA, fd, file.offset + |x + y|);
  }

  // A sequence of writes through one descriptor, from each state to the next.
  ghost predicate Writes(tables: seq<Inodes>, opens: seq<OpenFiles>, fd: nat, chunks: seq<Bytes>) {
    && |tables| == |opens| == |chunks| + 1
    && forall i :: 0 <= i < |chunks| ==> Wrote(tables[i], opens[i], tables[i + 1], opens[i + 1], fd, chunks[i])
  }

  // Any number of writes is one write of everything.
  lemma {:induction false} ManyWrites(tables: seq<Inodes>, opens: seq<OpenFiles>, fd: nat, chunks: seq<Bytes>)
    requires Writes(tables, opens, fd, chunks) && chunks != []
    ensures Wrote(tables[0], opens[0], tables[|chunks|], opens[|chunks|], fd, Flatten(chunks))
  {
    var n := |chunks| - 1;
    assert Wrote(tables[n], opens[n], tables[n + 1], opens[n + 1], fd, chunks[n]);
    if n == 0 {
      assert Flatten(chunks) == chunks[0];
    } else {
      assert forall i :: 0 <= i < n ==> chunks[..n][i] == chunks[i];
      ManyWrites(tables[..n + 1], opens[..n + 1], fd, chunks[..n]);
      WritesJoin(tables[0], opens[0], tables[n], opens[n], tables[n + 1], opens[n + 1], fd,
                 Flatten(chunks[..n]), chunks[n]);
    }
  }

  // A sequence of reads through one descriptor.
  ghost predicate Reads(inodes: Inodes, opens: seq<OpenFiles>, fd: nat, sizes: seq<nat>, gots: seq<Bytes>) {
    && |opens| == |sizes| + 1 && |gots| == |sizes|
    && forall i :: 0 <= i < |sizes| ==> Got(inodes, opens[i], opens[i + 1], fd, sizes[i], gots[i])
  }

  // Any number of reads is one read for the sum of their sizes.
  lemma {:induction false} ManyReads(
      inodes: Inodes, opens: seq<OpenFiles>, fd: nat, sizes: seq<nat>, gots: seq<Bytes>)
    requires Reads(inodes, opens, fd, sizes, gots) && sizes != []
    ensures Got(inodes, opens[0], opens[|sizes|], fd, Sum(sizes), Flatten(gots))
  {
    var n := |sizes| - 1;
    LastRead(inodes, opens, fd, sizes, gots);
    if n == 0 {
      assert sizes[..0] == [] && Flatten(gots) == gots[0];
    } else {
      ManyReads(inodes, opens[..n + 1], fd, sizes[..n], gots[..n]);
      ReadsJoin(inodes, opens[0], opens[n], opens[n + 1], fd, Sum(sizes[..n]), Flatten(gots[..n]), sizes[n], gots[n]);
    }
  }

  lemma LastRead(inodes: Inodes, opens: seq<OpenFiles>, fd: nat, sizes: seq<nat>, gots: seq<Bytes>)
    requires Reads(inodes, opens, fd, sizes, gots) && sizes != []
    ensures var n := |sizes| - 1;
      && Got(inodes, opens[n], opens[n + 1], fd, sizes[n], gots[n])
      && Reads(inodes, opens[..n + 1], fd, sizes[..n], gots[..n])
  {
    assert forall i :: 0 <= i < |sizes| - 1 ==>
        gots[..|sizes| - 1][i] == gots[i] && sizes[..|sizes| - 1][i] == sizes[i];
  }

  class VirtualFileSystem {
    var inodes: Inodes
    var rootInode: nat
    var openFiles: OpenFiles
    var nextFd: nat
    var freeFds: seq<nat>
    var nextInode: nat
    // What each open file was when it was opened, and the most files open at once.
    ghost var openedAs: Kinds
    ghost var peakOpen: nat

    ghost predicate Valid()
      reads this
    {
      && rootInode == 0
      && Ready(inodes, nextInode)
      && Linked(openFiles, openedAs, inodes, nextInode)
      && Pool(openFiles.Keys, freeFds, nextFd)
      && nextFd == peakOpen
    }

    // An open descriptor on a regular file refers to a live regular file.
    lemma RegularStaysLive(fd: nat)
      requires Valid() && fd in openFiles && fd in openedAs && openedAs[fd] == Regular
      ensures openFiles[fd].inodeId in inodes && inodes[openFiles[fd].inodeId].fileType == Regular
    {
      assert LinkedTo(openedAs[fd], openFiles[fd].inodeId, inodes, nextInode);
    }

    constructor ()
      ensures Valid() && inodes == map[] && openFiles == map[] && nextInode == 0
    {
      inodes, rootInode, openFiles := map[], 0, map[];
      nextFd, freeFds, nextInode := 0, [], 0;
      openedAs, peakOpen := map[], 0;
    }

    method InitRoot()
      requires Valid()
      modifies this
      ensures inodes == old(inodes)[0 := INode(Directory, 0, [], [], None)] && nextInode == 1
      ensures old(inodes) == map[] && old(nextInode) == 0 ==> Valid()
      ensures openFiles == old(openFiles) && peakOpen == old(peakOpen)
    {
      rootInode := 0;
      inodes := inodes[0 := INode(Directory, 0, [], [], None)];
      nextInode := 1;
    }

    method AllocInode() returns (id: nat)
      modifies this`nextInode
      ensures id == old(nextInode) && nextInode == id + 1
    {
      id := nextInode;
      nextInode := nextInode + 1;
    }

    method AllocFd() returns (fd: nat)
      modifies this`freeFds, this`nextFd
      ensures (fd, freeFds, nextFd) == Allocated(old(freeFds), old(nextFd))
    {
      if freeFds != [] {
        fd := freeFds[|freeFds| - 1];
        freeFds := freeFds[..|freeFds| - 1];
      } else {
        fd := nextFd;
        nextFd := nextFd + 1;
      }
    }

    method ResolvePath(path: Path) returns (r: Result<nat, FsError>)
      requires rootInode == 0
      ensures r == Resolve(inodes, path)
    {
      if path == [] {
        return Err(InvalidPath);
      }
      var trimmed := TrimStart(path);
      ComponentsTrim(path);
      if trimmed == [] {
        ComponentsOfName([]);
        return Ok(rootInode);
      }
      var parts := Components(trimmed);
      var current, k := rootInode, 0;
      while k < |parts|
        invariant k <= |parts|
        invariant Walk(inodes, 0, parts) == Walk(inodes, current, parts[k..])
      {
        var part := parts[k];
        WalkOn(inodes, current, parts, k);
        if |part| > 255 {
          return Err(NameTooLong);
        }
        if current !in inodes {
          return Err(NotFound);
        }
        if inodes[current].fileType != Directory {
          return Err(NotADirectory);
        }
        match FindEntry(inodes[current].children, part) {
          case None => return Err(NotFound);
          case Some(i) => current := inodes[current].children[i].inode;
        }
        k := k + 1;
      }
      return Ok(current);
    }

    method ResolveParent(path: Path) returns (r: Result<(nat, Name), FsError>)
      requires rootInode == 0
      ensures r == ParentAndName(inodes, path)
    {
      var trimmed := TrimStart(path);
      if trimmed == [] {
        return Err(InvalidPath);
      }
      var parent, name := [SLASH], trimmed;
      match LastSlash(trimmed) {
        case None =>
        case Some(i) => parent, name := trimmed[..i], trimmed[i + 1..];
      }
      if name == [] || |name| > 255 {
        return Err(InvalidPath);
      }
      var dir := ResolvePath(parent);
      match dir {
        case Err(e) => return Err(e);
        case Ok(id) => return Ok((id, name));
      }
    }

    // The checks before creating an entry.
    method PlaceForEntry(path: Path) returns (r: Result<(nat, Name), FsError>)
      requires rootInode == 0
      ensures r == CheckCreate(inodes, path)
    {
      var place := ResolveParent(path);
      if place.Err? {
        return Err(place.error);
      }
      var (dir, name) := place.value;
      if dir !in inodes {
        return Err(NotFound);
      }
      if inodes[dir].fileType != Directory {
        return Err(NotADirectory);
      }
      if FindEntry(inodes[dir].children, name).Some? {
        return Err(AlreadyExists);
      }
      return Ok((dir, name));
    }

    method LinkEntry(dir: nat, name: Name, kind: FileType) returns (id: nat)
      requires dir in inodes && dir != nextInode
      modifies this`inodes, this`nextInode
      ensures id == old(nextInode) && nextInode == id + 1
      ensures inodes == Created(old(inodes), id, dir, name, kind)
    {
      id := AllocInode();
      inodes := inodes[id := INode(kind, 0, [], [], Some(dir))];
      inodes := inodes[dir := inodes[dir].(children := inodes[dir].children + [DirEntry(name, kind, id)])];
    }

    method InsertEntry(ghost path: Path, dir: nat, name: Name, kind: FileType) returns (id: nat)
      requires Valid() && CheckCreate(inodes, path) == Ok((dir, name))
      modifies this`inodes, this`nextInode
      ensures Valid()
      ensures id == old(nextInode) && nextInode == id + 1
      ensures Adds(old(inodes), inodes, Components(path), kind, id)
    {
      UnusedId(inodes, nextInode);
      id := LinkEntry(dir, name, kind);
      InsertOutcome(openFiles, openedAs, old(inodes), id, path, dir, name, kind, inodes);
    }

    method CreateEntry(path: Path, kind: FileType) returns (r: Result<nat, FsError>)
      requires Valid()
      modifies this`inodes, this`nextInode
      ensures Valid()
      ensures r.Ok? <==> Creatable(old(inodes), path)
      ensures r.Err? ==> CheckCreate(old(inodes), path) == Err(r.error)
      ensures r.Err? ==> inodes == old(inodes) && nextInode == old(nextInode)
      ensures r.Ok? ==> r.value == old(nextInode) && nextInode == r.value + 1
      ensures r.Ok? ==> Adds(old(inodes), inodes, Components(path), kind, r.value)
    {
      CreateExactly(inodes, path);
      var place := PlaceForEntry(path);
      match place {
        case Err(e) => r := Err(e);
        case Ok((dir, name)) =>
          var id := InsertEntry(path, dir, name, kind);
          r := Ok(id);
      }
    }

    method CreateFile(path: Path) returns (r: Result<nat, FsError>)
      requires Valid()
      modifies this`inodes, this`nextInode
      ensures Valid()
      ensures r.Ok? <==> Creatable(old(inodes), path)
      ensures r.Err? ==> CheckCreate(old(inodes), path) == Err(r.error)
      ensures r.Err? ==> inodes == old(inodes) && nextInode == old(nextInode)
      ensures r.Ok? ==> r.value == old(nextInode) && nextInode == r.value + 1
      ensures r.Ok? ==> Adds(old(inodes), inodes, Components(path), Regular, r.value)
    {
      r := CreateEntry(path, Regular);
    }

    method CreateDir(path: Path) returns (r: Result<nat, FsError>)
      requires Valid()
      modifies this`inodes, this`nextInode
      ensures Valid()
      ensures r.Ok? <==> Creatable(old(inodes), path)
      ensures r.Err? ==> CheckCreate(old(inodes), path) == Err(r.error)
      ensures r.Err? ==> inodes == old(inodes) && nextInode == old(nextInode)
      ensures r.Ok? ==> r.value == old(nextInode) && nextInode == r.value + 1
      ensures r.Ok? ==> Adds(old(inodes), inodes, Components(path), Directory, r.value)
    {
      r := CreateEntry(path, Directory);
    }

    // Position of the entry that a removal is about.
    method EntryToRemove(path: Path) returns (r: Result<(nat, nat), FsError>)
      requires rootInode == 0
      ensures r == FindForRemoval(inodes, path)
      ensures r.Ok? ==> r.value.0 in inodes && r.value.1 < |inodes[r.value.0].children|
    {
      var place := ResolveParent(path);
      if place.Err? {
        return Err(place.error);
      }
      var (dir, name) := place.value;
      if dir !in inodes {
        return Err(NotFound);
      }
      match FindEntry(inodes[dir].children, name) {
        case None => return Err(NotFound);
        case Some(i) => return Ok((dir, i));
      }
    }

    // Looks through the open files for an inode.
    method OpenElsewhere(id: nat) returns (found: bool)
      ensures found == InUse(openFiles, id)
    {
      var rest := openFiles.Keys;
      while rest != {}
        invariant rest <= openFiles.Keys
        invariant forall fd :: fd in openFiles && fd !in rest ==> openFiles[fd].inodeId != id
      {
        var fd :| fd in rest;
        if openFiles[fd].inodeId == id {
          return true;
        }
        rest := rest - {fd};
      }
      return false;
    }

    method PlaceOfFile(path: Path) returns (r: Result<(nat, nat), FsError>)
      requires rootInode == 0
      ensures r == CheckRemoveFile(inodes, openFiles, path)
    {
      var place := EntryToRemove(path);
      if place.Err? {
        return place;
      }
      var (dir, i) := place.value;
      var entry := inodes[dir].children[i];
      if entry.fileType == Directory {
        return Err(IsADirectory);
      }
      var busy := OpenElsewhere(entry.inode);
      if busy {
        return Err(IoError);
      }
      return Ok((dir, i));
    }

    method PlaceOfDir(path: Path) returns (r: Result<(nat, nat), FsError>)
      requires rootInode == 0
      ensures r == CheckRemoveDir(inodes, path)
    {
      var place := EntryToRemove(path);
      if place.Err? {
        return place;
      }
      var (dir, i) := place.value;
      var entry := inodes[dir].children[i];
      if entry.fileType != Directory {
        return Err(NotADirectory);
      }
      if entry.inode !in inodes {
        return Err(NotFound);
      }
      if inodes[entry.inode].children != [] {
        return Err(DirectoryNotEmpty);
      }
      return Ok((dir, i));
    }

    method UnlinkEntry(dir: nat, i: nat)
      requires dir in inodes && i < |inodes[dir].children|
      modifies this`inodes
      ensures inodes == Removed(old(inodes), dir, i)
    {
      var d := inodes[dir];
      inodes := inodes - {d.children[i].inode};
      if dir in inodes {
        inodes := inodes[dir := d.(children := d.children[..i] + d.children[i + 1..])];
      }
    }

    method RemoveFile(path: Path) returns (r: Result<(), FsError>)
      requires Valid()
      modifies this`inodes
      ensures Valid()
      ensures r.Ok? <==> CheckRemoveFile(old(inodes), openFiles, path).Ok?
      ensures r.Err? ==> CheckRemoveFile(old(inodes), openFiles, path) == Err(r.error) && inodes == old(inodes)
      ensures r.Ok? ==> FileGone(old(inodes), inodes, Components(path), openFiles)
    {
      var place := PlaceOfFile(path);
      if place.Err? {
        return Err(place.error);
      }
      var (dir, i) := place.value;
      UnlinkEntry(dir, i);
      FileRemoved(openFiles, openedAs, old(inodes), nextInode, path, dir, i, inodes);
      return Ok(());
    }

    method DropDir(ghost path: Path, dir: nat, i: nat)
      requires Valid() && CheckRemoveDir(inodes, path) == Ok((dir, i))
      modifies this`inodes
      ensures Valid()
      ensures DirGone(old(inodes), inodes, Components(path))
    {
      UnlinkEntry(dir, i);
      DirRemoved(openFiles, openedAs, old(inodes), nextInode, path, dir, i, inodes);
    }

    method RemoveDir(path: Path) returns (r: Result<(), FsError>)
      requires Valid()
      modifies this`inodes
      ensures Valid()
      ensures r.Ok? <==> CheckRemoveDir(old(inodes), path).Ok?
      ensures r.Err? ==> CheckRemoveDir(old(inodes), path) == Err(r.error)
      ensures r.Err? ==> inodes == old(inodes)
      ensures r.Ok? ==> DirGone(old(inodes), inodes, Components(path))
    {
      var place := PlaceOfDir(path);
      if place.Err? {
        return Err(place.error);
      }
      DropDir(path, place.value.0, place.value.1);
      return Ok(());
    }

    method Truncate(id: nat)
      requires Valid() && id in inodes
      modifies this`inodes
      ensures Valid() && inodes == WithData(old(inodes), id, [])
    {
      inodes := inodes[id := inodes[id].(data := [], size := 0)];
      TruncateOutcome(openFiles, openedAs, old(inodes), nextInode, id, inodes);
    }

    // The inode to open, emptied or created as the flags say.
    method OpenTarget(path: Path, flags: nat) returns (r: Result<nat, FsError>)
      requires Valid()
      modifies this`inodes, this`nextInode
      ensures Valid()
      ensures r.Ok? <==> CheckOpen(old(inodes), path, flags).Ok?
      ensures r.Err? ==> CheckOpen(old(inodes), path, flags) == Err(r.error)
      ensures r.Err? ==> inodes == old(inodes) && nextInode == old(nextInode)
      ensures r.Ok? ==> OpenEffect(old(inodes), inodes, path, flags, r.value) && r.value in inodes
    {
      var found := ResolvePath(path);
      match found {
        case Ok(id) =>
          if id !in inodes {
            return Err(NotFound);
          }
          if inodes[id].fileType == Directory && !Has(flags, DIRECTORY) {
            return Err(IsADirectory);
          }
          if Has(flags, TRUNCATE) && Writable(flags) {
            Truncate(id);
          }
          return Ok(id);
        case Err(NotFound) =>
          if !Has(flags, CREATE) {
            return Err(NotFound);
          }
          CreateExactly(inodes, path);
          r := CreateFile(path);
        case Err(e) =>
          return Err(e);
      }
    }

    method Open(path: Path, flags: nat) returns (r: Result<nat, FsError>)
      requires Valid()
      modifies this
      ensures Valid()
      ensures r.Ok? <==> CheckOpen(old(inodes), path, flags).Ok?
      ensures r.Err? ==> CheckOpen(old(inodes), path, flags) == Err(r.error)
      ensures r.Err? ==> inodes == old(inodes) && nextInode == old(nextInode)
      ensures r.Err? ==> openFiles == old(openFiles) && freeFds == old(freeFds) && nextFd == old(nextFd)
      ensures r.Err? ==> openedAs == old(openedAs) && peakOpen == old(peakOpen)
      ensures r.Ok? ==> r.value !in old(openFiles) && r.value in openFiles
      ensures r.Ok? ==> openFiles == old(openFiles)[r.value := openFiles[r.value]]
      ensures r.Ok? ==> JustOpened(openFiles[r.value], openFiles[r.value].inodeId, flags)
      ensures r.Ok? ==> OpenEffect(old(inodes), inodes, path, flags, openFiles[r.value].inodeId)
      ensures r.Ok? ==> peakOpen == if |openFiles| > old(peakOpen) then |openFiles| else old(peakOpen)
      ensures r.Ok? ==> openFiles[r.value].inodeId in inodes
      ensures r.Ok? ==> openedAs == old(openedAs)[r.value := inodes[openFiles[r.value].inodeId].fileType]
    {
      var target := OpenTarget(path, flags);
      if target.Err? {
        return Err(target.error);
      }
      var fd := OpenAt(target.value, flags);
      return Ok(fd);
    }

    // A descriptor for an inode, at its start.
    method OpenAt(id: nat, flags: nat) returns (fd: nat)
      requires Valid() && id in inodes
      modifies this`openFiles, this`freeFds, this`nextFd, this`peakOpen, this`openedAs
      ensures Valid()
      ensures fd !in old(openFiles) && fd in openFiles && openFiles == old(openFiles)[fd := openFiles[fd]]
      ensures JustOpened(openFiles[fd], id, flags)
      ensures openedAs == old(openedAs)[fd := inodes[id].fileType]
      ensures peakOpen == if |openFiles| > old(peakOpen) then |openFiles| else old(peakOpen)
    {
      FlagBits(flags);
      fd := AllocFd();
      openFiles := openFiles[fd := Opened(id, flags)];
      OpenedKeeps(old(openFiles), openedAs, inodes, nextInode, old(freeFds), old(nextFd), old(peakOpen),
                  fd, freeFds, nextFd, Opened(id, flags), openFiles);
      openedAs := openedAs[fd := inodes[id].fileType];
      peakOpen := if |openFiles| > peakOpen then |openFiles| else peakOpen;
    }

    method Close(fd: nat) returns (r: Result<(), FsError>)
      requires Valid()
      modifies this`openFiles, this`freeFds, this`openedAs
      ensures Valid()
      ensures r == if fd in old(openFiles) then Ok(()) else Err(NotOpen)
      ensures openFiles == old(openFiles) - {fd} && openedAs == old(openedAs) - {fd}
    {
      if fd !in openFiles {
        return Err(NotOpen);
      }
      FreeKeepsPool(openFiles.Keys, freeFds, nextFd, fd);
      openFiles := openFiles - {fd};
      openedAs := openedAs - {fd};
      freeFds := freeFds + [fd];
      assert openFiles.Keys == old(openFiles).Keys - {fd};
      return Ok(());
    }

    method MoveTo(fd: nat, offset: nat)
      requires Valid() && fd in openFiles
      modifies this`openFiles
      ensures Valid() && openFiles == Moved(old(openFiles), fd, offset)
    {
      openFiles := openFiles[fd := openFiles[fd].(offset := offset)];
      MovedKeeps(old(openFiles), openedAs, inodes, nextInode, fd, offset, openFiles);
    }

    // The inode a descriptor may read from or write to.
    method AccessFile(fd: nat, write: bool) returns (r: Result<nat, FsError>)
      ensures r == Access(inodes, openFiles, fd, write)
    {
      if fd !in openFiles {
        return Err(NotOpen);
      }
      var file := openFiles[fd];
      if !(if write then file.writable else file.readable) {
        return Err(PermissionDenied);
      }
      if file.inodeId !in inodes {
        return Err(NotFound);
      }
      if inodes[file.inodeId].fileType == Directory {
        return Err(IsADirectory);
      }
      return Ok(file.inodeId);
    }

    method CopyInto(buf: array<Byte>, bytes: Bytes)
      requires |bytes| <= buf.Length
      modifies buf
      ensures buf[..] == bytes + old(buf[..])[|bytes|..]
    {
      for k := 0 to |bytes|
        invariant buf[..k] == bytes[..k] && buf[k..] == old(buf[..])[k..]
      {
        buf[k] := bytes[k];
      }
      assert buf[..] == buf[..|bytes|] + buf[|bytes|..];
    }

    method Read(fd: nat, buf: array<Byte>) returns (r: Result<nat, FsError>)
      requires Valid()
      modifies this`openFiles, buf
      ensures Valid()
      ensures r.Ok? <==> Access(inodes, old(openFiles), fd, false).Ok?
      ensures r.Err? ==> Access(inodes, old(openFiles), fd, false) == Err(r.error)
      ensures r.Err? ==> openFiles == old(openFiles) && buf[..] == old(buf[..])
      ensures r.Ok? ==> DidRead(inodes, old(openFiles), openFiles, fd, old(buf[..]), buf[..], r.value)
    {
      var target := AccessFile(fd, false);
      if target.Err? {
        return Err(target.error);
      }
      var start, data := openFiles[fd].offset, inodes[target.value].data;
      if start >= |data| {
        return Ok(0);
      }
      var end := if start + buf.Length < |data| then start + buf.Length else |data|;
      var n := end - start;
      CopyInto(buf, data[start..end]);
      MoveTo(fd, start + n);
      return Ok(n);
    }

    method Write(fd: nat, buf: Bytes) returns (r: Result<nat, FsError>)
      requires Valid()
      modifies this`openFiles, this`inodes
      ensures Valid()
      ensures r.Ok? <==> Access(old(inodes), old(openFiles), fd, true).Ok?
      ensures r.Err? ==> Access(old(inodes), old(openFiles), fd, true) == Err(r.error)
      ensures r.Err? ==> openFiles == old(openFiles) && inodes == old(inodes)
      ensures r.Ok? ==> r.value == |buf| && Wrote(old(inodes), old(openFiles), inodes, openFiles, fd, buf)
    {
      var target := AccessFile(fd, true);
      if target.Err? {
        return Err(target.error);
      }
      PutThrough(fd, buf);
      return Ok(|buf|);
    }

    method PutThrough(fd: nat, buf: Bytes)
      requires Valid() && Access(inodes, openFiles, fd, true).Ok?
      modifies this`openFiles, this`inodes
      ensures Valid()
      ensures Wrote(old(inodes), old(openFiles), inodes, openFiles, fd, buf)
    {
      StoreBytes(fd, buf);
      WriteOutcome(old(openFiles), openedAs, old(inodes), nextInode, fd, buf, inodes, openFiles);
    }

    method StoreBytes(fd: nat, buf: Bytes)
      requires fd in openFiles && openFiles[fd].inodeId in inodes
      modifies this`openFiles, this`inodes
      ensures Wrote(old(inodes), old(openFiles), inodes, openFiles, fd, buf)
    {
      var file := openFiles[fd];
      var node := inodes[file.inodeId];
      var start := if Has(file.flags, APPEND) then |node.data| else file.offset;
      var data := Overwrite(node.data, start, buf);
      inodes := inodes[file.inodeId := node.(data := data, size := |data|)];
      openFiles := openFiles[fd := file.(offset := start + |buf|)];
    }

    // Grows the bytes with zeros as far as needed and overwrites part of them.
    method Overwrite(bytes: Bytes, start: nat, buf: Bytes) returns (data: Bytes)
      ensures data == Written(bytes, start, buf)
    {
      data := bytes;
      if start + |buf| > |data| {
        data := data + Zeros(start + |buf| - |data|);
      }
      data := data[..start] + buf + data[start + |buf|..];
    }

    method Seek(fd: nat, pos: SeekFrom) returns (r: Result<nat, FsError>)
      requires Valid()
      modifies this`openFiles
      ensures Valid()
      ensures r.Err? ==> openFiles == old(openFiles)
      ensures fd !in old(openFiles) ==> r == Err(NotOpen)
      ensures fd in old(openFiles) ==>
        var file := old(openFiles)[fd];
        if file.inodeId !in inodes then r == Err(NotFound)
        else
          var target := SeekTarget(pos, file.offset, |inodes[file.inodeId].data|);
          if target < 0 then r == Err(InvalidOffset)
          else r == Ok(target) && openFiles == Moved(old(openFiles), fd, target)
    {
      if fd !in openFiles {
        return Err(NotOpen);
      }
      var file := openFiles[fd];
      if file.inodeId !in inodes {
        return Err(NotFound);
      }
      var size := |inodes[file.inodeId].data|;
      var target := match pos
        case Start(offset) => Signed(offset)
        case Current(delta) => Signed(Signed(file.offset) + delta)
        case End(delta) => Signed(Signed(size) + delta);
      if target < 0 {
        return Err(InvalidOffset);
      }
      MoveTo(fd, target);
      return Ok(target);
    }
  }
}
