/** The ownership log of a promotion, and what undoing it in reverse does to a disk. */
module Rollback {
  import opened Common
  import opened Disk

  datatype Kind = DirectoryKind | FileKind

  datatype PublishedEntry = PublishedEntry(kind: Kind, path: Path, identity: Identity, fileState: Option<FileState>)

  function PublishedEntryFromStats(kind: Kind, path: Path, inode: Inode): PublishedEntry {
    PublishedEntry(kind, path, inode.id, if kind == FileKind && inode.File? then Some(inode.State()) else None)
  }

  /** Some platforms report no usable identity at all; such an entry can never be recognised again. */
  predicate Identifiable(id: Identity) {
    id.dev != 0 || id.ino != 0 || id.birthtimeNs != 0
  }

  predicate HasSameIdentity(current: Identity, published: PublishedEntry) {
    var identity := published.identity;
    if identity.dev != 0 || identity.ino != 0 then
      current.dev == identity.dev && current.ino == identity.ino
    else
      identity.birthtimeNs != 0 && current.birthtimeNs == identity.birthtimeNs
  }

  predicate HasSamePublishedFileState(current: Inode, published: PublishedEntry) {
    published.fileState == None || (current.File? && current.State() == published.fileState.value)
  }

  /** `lstat`, the two comparisons, then `unlink` or `rmdir`; a call that the disk refuses changes nothing. */
  function UndoEntry(d: Disk, e: PublishedEntry): Disk
    requires d.Closed()
  {
    if e.path !in d.names || !HasSameIdentity(d.At(e.path).id, e) then d
    else if e.kind == FileKind then
      if HasSamePublishedFileState(d.At(e.path), e) && !d.At(e.path).Directory? then d.Remove(e.path) else d
    else
      if d.At(e.path).Directory? && !d.HasChildren(e.path) then d.Remove(e.path) else d
  }

  function RolledBack(d: Disk, log: seq<PublishedEntry>): (r: Disk)
    requires d.Closed()
    ensures r.Closed()
    decreases |log|
  {
    if log == [] then d else RolledBack(UndoEntry(d, log[|log| - 1]), log[..|log| - 1])
  }

  /** The inode has the device and number of the entry, or, where the disk reports neither, its time of birth. */
  ghost predicate Identified(id: Identity, recorded: Identity) {
    if recorded.dev == 0 && recorded.ino == 0 then
      recorded.birthtimeNs != 0 && id.birthtimeNs == recorded.birthtimeNs
    else id.dev == recorded.dev && id.ino == recorded.ino
  }

  /** The file has the size, time and mode that were recorded, if any were. */
  ghost predicate Unedited(inode: Inode, e: PublishedEntry) {
    e.fileState.None? ||
    (inode.File? && |inode.bytes| == e.fileState.value.size
     && inode.mtimeNs == e.fileState.value.mtimeNs && inode.mode == e.fileState.value.mode)
  }

  /** What the log records of a file or directory. */
  lemma RecordedOf(kind: Kind, path: Path, inode: Inode)
    ensures var e := PublishedEntryFromStats(kind, path, inode);
      && e.kind == kind && e.path == path && e.identity == inode.id
      && (kind == FileKind && inode.File? ==>
            e.fileState == Some(FileState(|inode.bytes|, inode.mtimeNs, inode.mode)))
      && (kind == DirectoryKind ==> e.fileState.None?)
  {
  }

  /** The entry is that of the inode, which nobody has edited. */
  ghost predicate Owns(e: PublishedEntry, inode: Inode) {
    && Identified(inode.id, e.identity)
    && (e.kind == FileKind ==> !inode.Directory? && Unedited(inode, e))
    && (e.kind == DirectoryKind ==> inode.Directory?)
  }

  /** Exactly when undoing an entry takes its name away. */
  ghost predicate Undoes(d: Disk, e: PublishedEntry)
    requires d.Closed()
  {
    e.path in d.names && Owns(e, d.At(e.path)) && (e.kind == DirectoryKind ==> !d.HasChildren(e.path))
  }

  lemma UndoEntryExactly(d: Disk, e: PublishedEntry)
    requires d.Closed()
    ensures UndoEntry(d, e) == if Undoes(d, e) then d.(names := d.names - {e.path}) else d
  {
  }

  ghost predicate Describes(e: PublishedEntry, inode: Inode) {
    && e.identity == inode.id
    && (e.kind == DirectoryKind ==> inode.Directory?)
    && (e.kind == FileKind ==>
          inode.File? && e.fileState == Some(FileState(|inode.bytes|, inode.mtimeNs, inode.mode)))
  }

  ghost predicate Logged(log: seq<PublishedEntry>, p: Path) {
    exists k :: 0 <= k < |log| && log[k].path == p
  }

  /** `log` is exactly what separates `after` from `before` outside the source side `root`:
      each logged path is new and still as recorded, parents come before their children,
      and no inode that existed before has changed. */
  ghost predicate Published(root: Path, before: Disk, after: Disk, log: seq<PublishedEntry>) {
    && before.WellFormed() && after.WellFormed()
    && before.next <= after.next
    && Extends(before.inodes, after.inodes)
    && (forall k :: 0 <= k < |log| ==>
          && log[k].path in after.names
          && log[k].path !in before.names
          && !(root <= log[k].path)
          && Describes(log[k], after.At(log[k].path)))
    && (forall i, j :: 0 <= i < j < |log| ==> !(log[j].path <= log[i].path))
    && (forall p :: p in after.names && !(root <= p) ==> p in before.names || Logged(log, p))
    && (forall p :: p in before.names && !(root <= p) ==> p in after.names && after.names[p] == before.names[p])
  }

  /** No name outside `root` is lost or leads elsewhere, and no inode that existed before has changed. */
  ghost predicate NothingLost(root: Path, before: Disk, after: Disk) {
    && (forall p :: p in before.names && !(root <= p) ==> p in after.names && after.names[p] == before.names[p])
    && Extends(before.inodes, after.inodes)
  }

  ghost predicate AllIdentifiable(log: seq<PublishedEntry>) {
    forall k :: 0 <= k < |log| ==> Identifiable(log[k].identity)
  }

  lemma PublishedNothing(root: Path, d: Disk)
    requires d.WellFormed()
    ensures Published(root, d, d, [])
  {
  }

  /** What a later stage publishes is no ancestor of what an earlier one did. */
  lemma LaterIsNoAncestor(d1: Disk, d2: Disk, root: Path, second: seq<PublishedEntry>, j: nat, earlier: Path)
    requires Published(root, d1, d2, second) && j < |second| && earlier in d1.names
    ensures !(second[j].path <= earlier)
  {
    if second[j].path <= earlier {
      AncestorsPresent(d1, second[j].path, earlier);
    }
  }

  lemma LoggedInEither(first: seq<PublishedEntry>, second: seq<PublishedEntry>, p: Path)
    requires Logged(first, p) || Logged(second, p)
    ensures Logged(first + second, p)
  {
    var log := first + second;
    if Logged(first, p) {
      var k :| 0 <= k < |first| && first[k].path == p;
      assert log[k].path == p;
    } else {
      var k :| 0 <= k < |second| && second[k].path == p;
      assert log[|first| + k].path == p;
    }
  }

  /** Publishing in two stages is publishing. */
  lemma PublishedThen(root: Path, d0: Disk, d1: Disk, d2: Disk, first: seq<PublishedEntry>, second: seq<PublishedEntry>)
    requires Published(root, d0, d1, first) && Published(root, d1, d2, second)
    ensures Published(root, d0, d2, first + second)
  {
    var log := first + second;
    forall i, j | 0 <= i < j < |log|
      ensures !(log[j].path <= log[i].path)
    {
      if i < |first| <= j {
        assert log[i] == first[i] && log[j] == second[j - |first|];
        LaterIsNoAncestor(d1, d2, root, second, j - |first|, first[i].path);
      } else if j < |first| {
        assert log[i] == first[i] && log[j] == first[j];
      } else {
        assert log[i] == second[i - |first|] && log[j] == second[j - |first|];
      }
    }
    forall p | p in d2.names && !(root <= p) && p !in d0.names
      ensures Logged(log, p)
    {
      LoggedInEither(first, second, p);
    }
  }

  /** A directory published last has no children left on the disk. */
  lemma LastEntryIsEmpty(root: Path, before: Disk, after: Disk, log: seq<PublishedEntry>)
    requires Published(root, before, after, log) && log != [] && root in before.names
    ensures !after.HasChildren(log[|log| - 1].path)
  {
    var last := log[|log| - 1].path;
    forall q | q in after.names && |q| == |last| + 1 && last <= q
      ensures false
    {
      if root <= q {
        // Then `root` is `q` itself, since `last` is not below it, and `last` would be an ancestor of `root`.
        assert |root| == |q|;
        AncestorsPresent(before, last, root);
      } else if q in before.names {
        AncestorsPresent(before, last, q);
      }
    }
  }

  /** Undoing the last entry takes its name away, and nothing else. */
  lemma UndoRemovesLast(root: Path, before: Disk, after: Disk, log: seq<PublishedEntry>)
    requires Published(root, before, after, log) && log != [] && root in before.names
    requires Identifiable(log[|log| - 1].identity)
    ensures var e := log[|log| - 1];
      UndoEntry(after, e) == after.Remove(e.path) && after.Remove(e.path).WellFormed()
  {
    var e := log[|log| - 1];
    LastEntryIsEmpty(root, before, after, log);
    assert Describes(e, after.At(e.path));
    RemoveWellFormed(after, e.path);
  }

  lemma UndoKeepsEarlierEntries(root: Path, before: Disk, after: Disk, log: seq<PublishedEntry>, k: nat)
    requires Published(root, before, after, log) && k < |log| - 1
    ensures var undone := after.Remove(log[|log| - 1].path);
      log[k].path in undone.names && undone.At(log[k].path) == after.At(log[k].path)
  {
    assert !(log[|log| - 1].path <= log[k].path);
  }

  lemma UndoLeavesLogged(root: Path, before: Disk, after: Disk, log: seq<PublishedEntry>, p: Path)
    requires Published(root, before, after, log) && log != []
    requires p in after.names && !(root <= p) && p !in before.names && p != log[|log| - 1].path
    ensures Logged(log[..|log| - 1], p)
  {
    var k :| 0 <= k < |log| && log[k].path == p;
    assert log[..|log| - 1][k].path == p;
  }

  lemma UndoLastEntry(root: Path, before: Disk, after: Disk, log: seq<PublishedEntry>)
    requires Published(root, before, after, log) && log != [] && root in before.names
    requires Identifiable(log[|log| - 1].identity)
    ensures Published(root, before, UndoEntry(after, log[|log| - 1]), log[..|log| - 1])
  {
    var n := |log| - 1;
    var rest := log[..n];
    UndoRemovesLast(root, before, after, log);
    var undone := after.Remove(log[n].path);
    forall k | 0 <= k < n
      ensures rest[k].path in undone.names && undone.At(rest[k].path) == after.At(log[k].path)
    {
      UndoKeepsEarlierEntries(root, before, after, log, k);
    }
    forall p | p in undone.names && !(root <= p) && p !in before.names
      ensures Logged(rest, p)
    {
      UndoLeavesLogged(root, before, after, log, p);
    }
  }

  /** Rolling back a complete log restores every path outside the source side. */
  lemma {:induction false} RollbackRestores(root: Path, before: Disk, after: Disk, log: seq<PublishedEntry>)
    requires Published(root, before, after, log) && root in before.names && AllIdentifiable(log)
    ensures Published(root, before, RolledBack(after, log), [])
    ensures SameOutside(root, before, RolledBack(after, log))
    decreases |log|
  {
    if log == [] {
    } else {
      UndoLastEntry(root, before, after, log);
      RollbackRestores(root, before, UndoEntry(after, log[|log| - 1]), log[..|log| - 1]);
    }
  }

  /** Rollback leaves a path alone when no entry of the log can be identified with it. */
  lemma {:induction false} RollbackKeepsUnidentifiable(d: Disk, log: seq<PublishedEntry>, p: Path)
    requires d.Closed() && p in d.names
    requires forall k :: 0 <= k < |log| && log[k].path == p ==> !Identifiable(log[k].identity)
    ensures p in RolledBack(d, log).names
    decreases |log|
  {
    if log == [] {
    } else {
      RollbackKeepsUnidentifiable(UndoEntry(d, log[|log| - 1]), log[..|log| - 1], p);
    }
  }

  /** Whatever others did to the disk meanwhile, rollback removes only a name that a logged entry still owns: the same
      identity, the same kind, and for a file the recorded size, time and mode. Nothing is added and no content
      changes. */
  lemma {:induction false} RollbackRemovesOnlyOwned(d: Disk, log: seq<PublishedEntry>, p: Path)
    requires d.Closed()
    ensures var r := RolledBack(d, log);
      && r.inodes == d.inodes
      && (p in r.names ==> p in d.names && r.names[p] == d.names[p])
      && (p in d.names && p !in r.names ==> exists k :: 0 <= k < |log| && log[k].path == p && Owns(log[k], d.At(p)))
    decreases |log|
  {
    if log == [] {
    } else {
      var n := |log| - 1;
      var u := UndoEntry(d, log[n]);
      UndoEntryExactly(d, log[n]);
      RollbackRemovesOnlyOwned(u, log[..n], p);
      if p in u.names && p !in RolledBack(u, log[..n]).names {
        var k :| 0 <= k < n && log[..n][k].path == p && Owns(log[..n][k], u.At(p));
        assert log[k] == log[..n][k];
      }
    }
  }

  /** A file that others have edited since, or put in place of the published one, stays. */
  lemma RollbackKeepsEditedFiles(d: Disk, log: seq<PublishedEntry>, p: Path)
    requires d.Closed() && p in d.names && d.At(p).File?
    requires forall k :: 0 <= k < |log| && log[k].path == p && log[k].kind == FileKind ==>
      var recorded := log[k].fileState;
      || !Identified(d.At(p).id, log[k].identity)
      || (recorded.Some? && (recorded.value.size != |d.At(p).bytes| || recorded.value.mtimeNs != d.At(p).mtimeNs
                             || recorded.value.mode != d.At(p).mode))
    ensures p in RolledBack(d, log).names && RolledBack(d, log).names[p] == d.names[p]
    ensures RolledBack(d, log).inodes == d.inodes
  {
    RollbackRemovesOnlyOwned(d, log, p);
  }

  /** So does a directory that others have put something into that no entry owns. */
  lemma {:induction false} RollbackKeepsFilledDirectories(d: Disk, log: seq<PublishedEntry>, p: Path, child: Path)
    requires d.Closed() && p in d.names && d.IsDirectory(p)
    requires child in d.names && p <= child && |child| == |p| + 1
    requires forall k :: 0 <= k < |log| ==> log[k].path != child
    ensures p in RolledBack(d, log).names && child in RolledBack(d, log).names
    decreases |log|
  {
    if log == [] {
    } else {
      var n := |log| - 1;
      UndoEntryExactly(d, log[n]);
      RollbackKeepsFilledDirectories(UndoEntry(d, log[n]), log[..n], p, child);
    }
  }

  /** Whatever it can identify, rollback leaves every name alone that was there before. */
  lemma RollbackKeepsEarlierNames(root: Path, before: Disk, after: Disk, log: seq<PublishedEntry>)
    requires Published(root, before, after, log)
    ensures NothingLost(root, before, RolledBack(after, log))
  {
    forall p | p in before.names && !(root <= p)
      ensures p in RolledBack(after, log).names && RolledBack(after, log).names[p] == before.names[p]
    {
      RollbackRemovesOnlyOwned(after, log, p);
    }
    RollbackRemovesOnlyOwned(after, log, []);
  }

  /** Rollback is complete if and only if the disk gave every published entry a usable identity. */
  lemma RollbackCompleteIffIdentifiable(root: Path, before: Disk, after: Disk, log: seq<PublishedEntry>)
    requires Published(root, before, after, log) && root in before.names
    ensures SameOutside(root, before, RolledBack(after, log)) <==> AllIdentifiable(log)
  {
    if AllIdentifiable(log) {
      RollbackRestores(root, before, after, log);
    } else {
      var k :| 0 <= k < |log| && !Identifiable(log[k].identity);
      var p := log[k].path;
      forall j | 0 <= j < |log| && log[j].path == p
        ensures j == k
      {
      }
      RollbackKeepsUnidentifiable(after, log, p);
      assert p in RolledBack(after, log).names && p !in before.names && !(root <= p);
    }
  }

  /** Such a disk: a directory published under an all-zero identity outlives its rollback. */
  lemma UnidentifiableDirectoryStays()
    ensures var before := Disk(map[[] := 0, ["temp"] := 1],
                               map[0 := Directory(Identity(0, 1, 0)), 1 := Directory(Identity(0, 2, 0))], 2);
      var after := before.Add(["new"], Directory(Identity(0, 0, 0)));
      var log := [PublishedEntryFromStats(DirectoryKind, ["new"], after.At(["new"]))];
      Published(["temp"], before, after, log) && !SameOutside(["temp"], before, RolledBack(after, log))
  {
    var before := Disk(map[[] := 0, ["temp"] := 1],
                       map[0 := Directory(Identity(0, 1, 0)), 1 := Directory(Identity(0, 2, 0))], 2);
    var after := before.Add(["new"], Directory(Identity(0, 0, 0)));
    var log := [PublishedEntryFromStats(DirectoryKind, ["new"], after.At(["new"]))];
    assert Parent(["temp"]) == [] && before.WellFormed();
    AddWellFormed(before, ["new"], Directory(Identity(0, 0, 0)));
    assert log[0].path == ["new"];
    assert Published(["temp"], before, after, log) by {
      forall p | p in after.names && p !in before.names
        ensures Logged(log, p)
      {
        assert p == log[0].path;
      }
      assert |"temp"| == 4 && |["new"][0]| == 3;
    }
    RollbackCompleteIffIdentifiable(["temp"], before, after, log);
  }
}
