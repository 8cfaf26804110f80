/** Promotion of a downloaded folder: preflight, no-clobber publication, and rollback on failure.
    Every file system call but the metadata reads right after a creation and those of rollback may fail, every abort
    check may fire, and reads and writes may be short. */
module FolderPromotion {
  import opened Common
  import opened Disk
  import opened PromotionBudget
  import opened PromotionPreflight
  import opened Rollback

  const LOCAL_COPY_CHUNK_BYTES := 1024 * 1024

  /** Bytes of a file after writing `data` at `position`, which is at most the current end. */
  function WriteAt(bytes: seq<byte>, position: nat, data: seq<byte>): (r: seq<byte>)
    requires position <= |bytes|
    ensures position == |bytes| ==> r == bytes + data
  {
    bytes[..position] + data + if position + |data| <= |bytes| then bytes[position + |data|..] else []
  }

  /** Nothing has the name `p`, and the directory that would hold it is there. */
  predicate CanCreate(d: Disk, p: Path) {
    p != [] && p !in d.names && d.IsDirectory(Parent(p))
  }

  /** `root` and everything below it is a directory or a file. */
  ghost predicate PlainTree(d: Disk, root: Path) {
    forall p {:trigger d.IsOther(p)} :: root <= p ==> !d.IsOther(p)
  }

  ghost predicate SameName(before: Disk, after: Disk, p: Path) {
    && (p in after.names <==> p in before.names)
    && (p in before.names ==> after.names[p] == before.names[p])
  }

  /** The path `q` below `target` mirrors what `before` has at the corresponding path below `source`. */
  ghost predicate Mirrors(before: Disk, source: Path, after: Disk, target: Path, q: Path)
    requires before.Closed() && after.Closed() && target <= q
  {
    var p := Rebase(target, source, q);
    && (q in after.names <==> p in before.names)
    && (q in after.names ==> SameContent(before.At(p), after.At(q)))
  }

  /** Same names, kinds and bytes. */
  ghost predicate TreeCopied(before: Disk, source: Path, after: Disk, target: Path)
    requires before.Closed() && after.Closed()
  {
    forall q :: target <= q ==> Mirrors(before, source, after, target, q)
  }

  ghost predicate NothingElseChanged(before: Disk, source: Path, after: Disk, target: Path) {
    forall p :: !(source <= p) && !(target <= p) ==> SameName(before, after, p)
  }

  /** `source` moved to `target`; no other name changed. */
  ghost predicate FilePublished(before: Disk, source: Path, after: Disk, target: Path) {
    && source in before.names && source !in after.names
    && target !in before.names && target in after.names
    && (forall p :: p != source && p != target ==> SameName(before, after, p))
    && before.Closed() && after.Closed()
    && SameContent(before.At(source), after.At(target))
  }

  ghost predicate NoDuplicates(names: seq<Name>) {
    forall i, j :: 0 <= i < j < |names| ==> names[i] != names[j]
  }

  /** How far a directory's publication has come: `done` entries are mirrored, the others are untouched. */
  ghost predicate Progress(before: Disk, source: Path, after: Disk, target: Path, done: seq<Name>)
    requires before.Closed() && after.Closed()
  {
    && (forall q :: target < q && q[|target|] in done ==> Mirrors(before, source, after, target, q))
    && (forall q :: target < q && q[|target|] !in done ==> q !in after.names)
    && (forall p :: source < p && p[|source|] !in done ==> SameName(before, after, p))
  }

  /** The entries of `root`'s subtree recorded once the entries of `root` and the subtrees of `done` are. */
  ghost function RecordedSoFar(d: Disk, root: Path, done: seq<Name>): set<Path> {
    DirectoryEntries(d, root) + set p | p in Below(d, root) && p[|root|] in done
  }

  lemma NothingRecordedBelow(d: Disk, root: Path)
    ensures RecordedSoFar(d, root, []) == DirectoryEntries(d, root)
  {
  }

  lemma EntriesAreBelow(route: Route, d: Disk, dir: Path, p: Path)
    requires p in DirectoryEntries(d, dir) && route.source <= dir
    ensures p in Below(d, dir)
    ensures route.Destination(p) == route.Destination(dir) + [p[|dir|]]
  {
  }

  /** `names` lists `entries`, a set of entries of the directory `dir`, each once. */
  ghost predicate Lists(names: seq<Name>, dir: Path, entries: set<Path>) {
    && NoDuplicates(names)
    && (forall n {:trigger dir + [n]} :: n in names ==> dir + [n] in entries)
    && (forall p :: p in entries ==> dir < p && p[|dir|] in names)
  }

  lemma ListsOneMore(names: seq<Name>, dir: Path, entries: set<Path>, p: Path)
    requires Lists(names, dir, entries) && p !in entries && dir <= p && |p| == |dir| + 1
    ensures p == dir + [p[|dir|]]
    ensures Lists(names + [p[|dir|]], dir, entries + {p})
  {
    assert p == dir + [p[|dir|]];
  }

  /** The log grew by exactly what was published outside `root` between the two disks. */
  ghost predicate LogGrew(root: Path, d0: Disk, log0: seq<PublishedEntry>, d1: Disk, log1: seq<PublishedEntry>) {
    log0 <= log1 && Published(root, d0, d1, log1[|log0|..])
  }

  lemma LogGrewThen(root: Path, d0: Disk, log0: seq<PublishedEntry>, d1: Disk, log1: seq<PublishedEntry>, d2: Disk,
                    log2: seq<PublishedEntry>)
    requires LogGrew(root, d0, log0, d1, log1) && LogGrew(root, d1, log1, d2, log2)
    ensures LogGrew(root, d0, log0, d2, log2)
  {
    PublishedThen(root, d0, d1, d2, log1[|log0|..], log2[|log1|..]);
    assert log2[|log0|..] == log1[|log0|..] + log2[|log1|..];
  }

  lemma UnionStep<T>(base: set<T>, some: set<T>, more: set<T>, all: set<T>)
    requires some + more == all
    ensures base + some + more == base + all
  {
  }

  lemma RecordedApart<T>(base: set<T>, recorded: set<T>, more: set<T>, all: set<T>)
    requires base !! all && more <= all && recorded !! more
    ensures base + recorded !! more
    ensures recorded <= all ==> base + recorded + more <= base + all
  {
  }

  lemma ListedEntry(names: seq<Name>, dir: Path, d: Disk, k: nat)
    requires Lists(names, dir, DirectoryEntries(d, dir)) && k < |names|
    ensures names[k] !in names[..k]
    ensures dir + [names[k]] in d.names
  {
    assert names[k] in names;
    assert dir + [names[k]] in DirectoryEntries(d, dir);
  }

  lemma SidesApart(root: Path, d: Disk, source: Path, target: Path)
    requires d.WellFormed() && root in d.names && root <= source
    requires !(root <= target) && target !in d.names
    ensures Apart(source, target)
  {
    if target <= source && |target| <= |root| {
      assert target == source[..|target|] == root[..|target|];
      AncestorsPresent(d, target, root);
    }
  }

  lemma FinishedDirectory(before: Disk, source: Path, after: Disk, target: Path, done: seq<Name>)
    requires before.WellFormed() && after.WellFormed()
    requires Progress(before, source, after, target, done)
    requires forall n :: source + [n] in before.names ==> n in done
    requires target in after.names && source in before.names
    requires SameContent(before.At(source), after.At(target))
    ensures TreeCopied(before, source, after, target)
  {
    forall q | target <= q
      ensures Mirrors(before, source, after, target, q)
    {
      if q == target {
        assert Rebase(target, source, q) == source;
      } else if q[|target|] !in done {
        var p := Rebase(target, source, q);
        assert p[|source|] == q[|target|];
        if p in before.names {
          ThroughEntry(source, p);
          AncestorsPresent(before, source + [p[|source|]], p);
          assert false;
        }
      }
    }
  }

  lemma AllRecorded(d: Disk, root: Path, done: seq<Name>)
    requires d.WellFormed() && forall n :: root + [n] in d.names ==> n in done
    ensures RecordedSoFar(d, root, done) == Below(d, root)
  {
    forall p | p in Below(d, root)
      ensures p[|root|] in done
    {
      ThroughEntry(root, p);
      AncestorsPresent(d, root + [p[|root|]], p);
    }
  }

  ghost predicate OnlyNew(before: Disk, after: Disk, target: Path) {
    forall p :: p != target ==> SameName(before, after, p)
  }

  /** The state right after the destination directory was claimed. */
  lemma ClaimedDirectory(before: Disk, source: Path, after: Disk, target: Path)
    requires before.WellFormed() && target !in before.names && Apart(source, target)
    requires target in after.names && after.Closed() && OnlyNew(before, after, target)
    ensures Progress(before, source, after, target, [])
    ensures Below(after, source) == Below(before, source)
    ensures DirectoryEntries(after, source) == DirectoryEntries(before, source)
  {
    forall q | target < q
      ensures q !in after.names
    {
      assert SameName(before, after, q);
      if q in before.names {
        AncestorsPresent(before, target, q);
      }
    }
    forall p | source < p
      ensures SameName(before, after, p)
    {
    }
    forall p
      ensures p in Below(after, source) <==> p in Below(before, source)
      ensures p in DirectoryEntries(after, source) <==> p in DirectoryEntries(before, source)
    {
      assert p != target ==> SameName(before, after, p);
    }
  }

  lemma ChildRoute(route: Route, d: Disk, source: Path, target: Path, n: Name)
    requires d.WellFormed() && route.source in d.names && target !in d.names && !(route.source <= target)
    requires route.source <= source && target == route.Destination(source)
    ensures route.source <= source + [n]
    ensures target + [n] == route.Destination(source + [n]) && !(route.source <= target + [n])
  {
    if route.source <= target + [n] {
      assert |route.source| == |target| + 1;
      AncestorsPresent(d, target, route.source);
    }
  }

  lemma EntrySubtree(dir: Path, n: Name, p: Path)
    ensures dir + [n] <= p <==> dir < p && p[|dir|] == n
  {
    if dir < p && p[|dir|] == n {
      ThroughEntry(dir, p);
    }
    if dir + [n] <= p {
      assert p[|dir|] == (dir + [n])[|dir|];
      assert p[..|dir|] == (dir + [n])[..|dir|] == dir;
    }
  }

  lemma MirrorsThrough(d0: Disk, d1: Disk, source: Path, d2: Disk, target: Path, n: Name, q: Path)
    requires d0.Closed() && d1.Closed() && d2.Closed()
    requires target + [n] <= q && Mirrors(d1, source + [n], d2, target + [n], q)
    requires SameName(d0, d1, Rebase(target + [n], source + [n], q)) && Extends(d0.inodes, d1.inodes)
    ensures target <= q && Mirrors(d0, source, d2, target, q)
  {
    EntrySubtree(target, n, q);
    assert Rebase(target + [n], source + [n], q) == Rebase(target, source, q);
  }

  /** Mirroring one more entry is progress. */
  lemma ProgressStep(d0: Disk, source: Path, d1: Disk, d2: Disk, target: Path, done: seq<Name>, n: Name)
    requires d0.Closed() && d1.Closed() && d2.Closed()
    requires Progress(d0, source, d1, target, done) && n !in done
    requires TreeCopied(d1, source + [n], d2, target + [n])
    requires NothingElseChanged(d1, source + [n], d2, target + [n])
    requires Extends(d0.inodes, d1.inodes) && Extends(d1.inodes, d2.inodes)
    requires Apart(source, target)
    ensures Progress(d0, source, d2, target, done + [n])
  {
    forall q | target < q && q[|target|] in done + [n]
      ensures Mirrors(d0, source, d2, target, q)
    {
      EntrySubtree(target, n, q);
      EntrySubtree(source, n, q);
      NothingBelowBoth(source, target, q);
      if q[|target|] == n {
        var p := Rebase(target + [n], source + [n], q);
        EntrySubtree(source, n, p);
        MirrorsThrough(d0, d1, source, d2, target, n, q);
      } else {
        assert SameName(d1, d2, q);
        assert Mirrors(d0, source, d1, target, q);
      }
    }
    forall q | target < q && q[|target|] !in done + [n]
      ensures q !in d2.names
    {
      EntrySubtree(target, n, q);
      EntrySubtree(source, n, q);
      NothingBelowBoth(source, target, q);
      assert SameName(d1, d2, q);
    }
    forall p | source < p && p[|source|] !in done + [n]
      ensures SameName(d0, d2, p)
    {
      EntrySubtree(source, n, p);
      EntrySubtree(target, n, p);
      NothingBelowBoth(source, target, p);
      assert SameName(d1, d2, p) && SameName(d0, d1, p);
    }
  }

  lemma RecordedStep(d0: Disk, root: Path, d1: Disk, done: seq<Name>, n: Name)
    requires forall p :: root < p && p[|root|] == n ==> SameName(d0, d1, p)
    requires n !in done && root + [n] in d0.names
    ensures RecordedSoFar(d0, root, done) + Below(d1, root + [n]) == RecordedSoFar(d0, root, done + [n])
    ensures RecordedSoFar(d0, root, done) !! Below(d1, root + [n])
    ensures RecordedSoFar(d0, root, done + [n]) <= Below(d0, root)
  {
    forall p
      ensures p in RecordedSoFar(d0, root, done) + Below(d1, root + [n]) <==> p in RecordedSoFar(d0, root, done + [n])
    {
      EntrySubtree(root, n, p);
      if p in RecordedSoFar(d0, root, done + [n]) && p !in RecordedSoFar(d0, root, done) {
        assert p[|root|] == n && |p| > |root| + 1;
        assert SameName(d0, d1, p);
      }
    }
    forall p | p in Below(d1, root + [n])
      ensures p !in RecordedSoFar(d0, root, done)
    {
      EntrySubtree(root, n, p);
    }
  }

  ghost predicate OnlyBelowChanged(before: Disk, source: Path, after: Disk, target: Path) {
    forall p :: !(source < p) && !(target < p) ==> SameName(before, after, p)
  }

  lemma OnlyBelowStep(d0: Disk, source: Path, d1: Disk, d2: Disk, target: Path, n: Name)
    requires OnlyBelowChanged(d0, source, d1, target)
    requires NothingElseChanged(d1, source + [n], d2, target + [n])
    ensures OnlyBelowChanged(d0, source, d2, target)
  {
    forall p | !(source < p) && !(target < p)
      ensures SameName(d0, d2, p)
    {
      EntrySubtree(source, n, p);
      EntrySubtree(target, n, p);
      assert SameName(d0, d1, p) && SameName(d1, d2, p);
    }
  }

  /** Before the turn of entry `n`: it is still there, and nothing below it is recorded. */
  lemma EntryUntouched(d0: Disk, source: Path, d1: Disk, target: Path, done: seq<Name>, n: Name)
    requires d0.Closed() && d1.Closed() && Progress(d0, source, d1, target, done)
    requires n !in done && source + [n] in d0.names
    ensures source + [n] in d1.names
    ensures RecordedSoFar(d0, source, done) + Below(d1, source + [n]) == RecordedSoFar(d0, source, done + [n])
    ensures RecordedSoFar(d0, source, done) !! Below(d1, source + [n])
    ensures RecordedSoFar(d0, source, done + [n]) <= Below(d0, source)
    ensures Below(d1, source + [n]) <= Below(d0, source)
  {
    assert (source + [n])[|source|] == n;
    assert SameName(d0, d1, source + [n]);
    RecordedStep(d0, source, d1, done, n);
  }

  /** What stays fixed while the entries of a claimed directory are published; `before` is the disk before it was
      claimed. */
  ghost predicate Publishing(before: Disk, route: Route, source: Path, target: Path, entries: seq<Name>,
                             recordedBefore: set<Path>) {
    && before.WellFormed() && route.source in before.names && target !in before.names && Apart(source, target)
    && route.source <= source && target == route.Destination(source) && !(route.source <= target)
    && Lists(entries, source, DirectoryEntries(before, source))
    && recordedBefore !! Below(before, source)
  }

  /** The disk `d` and the budget once `done` is published; `claimed` is the disk right after the directory was
      claimed. */
  ghost predicate EntriesPublished(before: Disk, claimed: Disk, source: Path, d: Disk, target: Path, done: seq<Name>,
                                   recordedBefore: set<Path>, recorded: set<Path>) {
    && before.Closed() && d.Closed()
    && Extends(before.inodes, d.inodes)
    && Progress(before, source, d, target, done)
    && OnlyBelowChanged(claimed, source, d, target)
    && recorded == recordedBefore + RecordedSoFar(before, source, done)
    && d.IsDirectory(target)
  }

  lemma NothingPublishedYet(before: Disk, claimed: Disk, source: Path, target: Path, recordedBefore: set<Path>,
                            recorded: set<Path>)
    requires before.Closed() && claimed.Closed() && Extends(before.inodes, claimed.inodes)
    requires Progress(before, source, claimed, target, []) && claimed.IsDirectory(target)
    requires recorded == recordedBefore + DirectoryEntries(before, source)
    ensures EntriesPublished(before, claimed, source, claimed, target, [], recordedBefore, recorded)
  {
    NothingRecordedBelow(before, source);
    assert forall p :: SameName(claimed, claimed, p);
  }

  /** An untouched entry is as plain as its directory was. */
  lemma EntryStaysPlain(d0: Disk, source: Path, d1: Disk, target: Path, done: seq<Name>, n: Name)
    requires d0.Closed() && d1.Closed() && Progress(d0, source, d1, target, done) && n !in done
    requires Extends(d0.inodes, d1.inodes) && PlainTree(d0, source)
    ensures PlainTree(d1, source + [n])
  {
    forall p | source + [n] <= p
      ensures !d1.IsOther(p)
    {
      EntrySubtree(source, n, p);
      assert SameName(d0, d1, p) && !d0.IsOther(p);
    }
  }

  /** Entry `k` can be published next, and recording what is below it stays within the directory's subtree. */
  lemma BeforeEntry(before: Disk, claimed: Disk, route: Route, source: Path, d: Disk, target: Path, entries: seq<Name>,
                    k: nat, recordedBefore: set<Path>, recorded: set<Path>)
    requires Publishing(before, route, source, target, entries, recordedBefore) && k < |entries|
    requires EntriesPublished(before, claimed, source, d, target, entries[..k], recordedBefore, recorded)
    ensures var entry := source + [entries[k]];
      && entry in d.names && recorded !! Below(d, entry)
      && recorded + Below(d, entry) <= recordedBefore + Below(before, source)
      && route.source <= entry && target + [entries[k]] == route.Destination(entry)
      && !(route.source <= target + [entries[k]])
      && CanCreate(d, target + [entries[k]])
    ensures PlainTree(before, source) ==> PlainTree(d, source + [entries[k]])
  {
    ListedEntry(entries, source, before, k);
    if PlainTree(before, source) {
      EntryStaysPlain(before, source, d, target, entries[..k], entries[k]);
    }
    assert Parent(target + [entries[k]]) == target && (target + [entries[k]])[|target|] == entries[k];
    EntryUntouched(before, source, d, target, entries[..k], entries[k]);
    ChildRoute(route, before, source, target, entries[k]);
    RecordedApart(recordedBefore, RecordedSoFar(before, source, entries[..k]), Below(d, source + [entries[k]]),
                  Below(before, source));
  }

  /** Publishing entry `k` takes the directory one entry further. */
  lemma AfterEntry(before: Disk, claimed: Disk, route: Route, source: Path, d1: Disk, d2: Disk, target: Path,
                   entries: seq<Name>, k: nat, recordedBefore: set<Path>, recorded: set<Path>)
    requires Publishing(before, route, source, target, entries, recordedBefore) && k < |entries|
    requires EntriesPublished(before, claimed, source, d1, target, entries[..k], recordedBefore, recorded)
    requires route.source in d1.names && d2.Closed() && Extends(d1.inodes, d2.inodes)
    requires TreeCopied(d1, source + [entries[k]], d2, target + [entries[k]])
    requires NothingElseChanged(d1, source + [entries[k]], d2, target + [entries[k]])
    ensures EntriesPublished(before, claimed, source, d2, target, entries[..k + 1], recordedBefore,
                             recorded + Below(d1, source + [entries[k]]))
    ensures route.source in d2.names
  {
    var n, done := entries[k], entries[..k];
    ListedEntry(entries, source, before, k);
    EntryUntouched(before, source, d1, target, done, n);
    ProgressStep(before, source, d1, d2, target, done, n);
    OnlyBelowStep(claimed, source, d1, d2, target, n);
    TakeOneMore(entries, k);
    UnionStep(recordedBefore, RecordedSoFar(before, source, done), Below(d1, source + [n]),
              RecordedSoFar(before, source, done + [n]));
    ChildRoute(route, before, source, target, n);
    assert SameName(d1, d2, route.source) && SameName(d1, d2, target);
  }

  lemma FileIsTree(before: Disk, source: Path, after: Disk, target: Path)
    requires before.WellFormed() && after.WellFormed()
    requires FilePublished(before, source, after, target) && before.At(source).File?
    ensures TreeCopied(before, source, after, target)
    ensures NothingElseChanged(before, source, after, target)
    ensures Below(before, source) == {}
  {
    forall p | source < p
      ensures p !in before.names
    {
      if p in before.names {
        AncestorsPresent(before, source, p);
      }
    }
    forall q | target <= q
      ensures Mirrors(before, source, after, target, q)
    {
      if q == target {
        assert Rebase(target, source, q) == source;
      } else if q in after.names {
        AncestorsPresent(after, target, q);
      } else {
        assert source < Rebase(target, source, q);
      }
    }
  }

  /** Once all entries of a claimed directory are mirrored, so is the directory. */
  lemma DirectoryDone(before: Disk, claimed: Disk, source: Path, after: Disk, target: Path, entries: seq<Name>)
    requires before.WellFormed() && claimed.WellFormed() && after.WellFormed()
    requires OnlyNew(before, claimed, target) && claimed.IsDirectory(target) && claimed.IsDirectory(source)
    requires target !in before.names && Apart(source, target)
    requires Extends(before.inodes, claimed.inodes) && Extends(claimed.inodes, after.inodes)
    requires Progress(before, source, after, target, entries)
    requires OnlyBelowChanged(claimed, source, after, target)
    requires Lists(entries, source, DirectoryEntries(before, source))
    ensures source in before.names
    ensures TreeCopied(before, source, after, target)
    ensures NothingElseChanged(before, source, after, target)
    ensures RecordedSoFar(before, source, entries) == Below(before, source)
  {
    assert SameName(before, claimed, source) && SameName(claimed, after, target);
    forall n | source + [n] in before.names
      ensures n in entries
    {
      assert source + [n] in DirectoryEntries(before, source);
      assert (source + [n])[|source|] == n;
    }
    FinishedDirectory(before, source, after, target, entries);
    AllRecorded(before, source, entries);
    forall p | !(source <= p) && !(target <= p)
      ensures SameName(before, after, p)
    {
      assert SameName(before, claimed, p) && SameName(claimed, after, p);
    }
  }

  lemma CopySurvivesCleanup(before: Disk, source: Path, finished: Disk, after: Disk, target: Path)
    requires before.Closed() && finished.Closed() && Apart(source, target)
    requires TreeCopied(before, source, finished, target) && NothingElseChanged(before, source, finished, target)
    requires after.inodes == finished.inodes
    requires forall p :: !(source <= p) ==> SameName(finished, after, p)
    requires forall p :: p in after.names ==> p in finished.names && after.names[p] == finished.names[p]
    ensures after.Closed()
    ensures TreeCopied(before, source, after, target) && NothingElseChanged(before, source, after, target)
  {
    forall q | target <= q
      ensures Mirrors(before, source, after, target, q)
    {
      NothingBelowBoth(source, target, q);
      assert SameName(finished, after, q) && Mirrors(before, source, finished, target, q);
    }
    forall p | !(source <= p) && !(target <= p)
      ensures SameName(before, after, p)
    {
      assert SameName(finished, after, p) && SameName(before, finished, p);
    }
  }

  /** The published file has its content, and its source is gone. */
  lemma FileMoved(before: Disk, after: Disk, source: Path, target: Path)
    requires before.WellFormed() && after.WellFormed() && OnlyNew(before, after, target)
    requires source in before.names && target !in before.names && target in after.names
    requires SameContent(before.At(source), after.At(target))
    ensures FilePublished(before, source, after.Remove(source), target)
  {
    var removed := after.Remove(source);
    assert removed.Closed() && removed.At(target) == after.At(target);
    forall p | p != source && p != target
      ensures SameName(before, removed, p)
    {
      assert SameName(before, after, p);
    }
  }

  /** Only the bytes and times of one file changed. */
  ghost predicate OnlyContentsChanged(before: Disk, after: Disk, inode: nat) {
    && after.names == before.names && after.next == before.next && after.inodes.Keys == before.inodes.Keys
    && (forall i :: i in after.inodes && i != inode ==> after.inodes[i] == before.inodes[i])
    && inode in before.inodes && before.inodes[inode].File?
    && after.inodes[inode].File? && after.inodes[inode].id == before.inodes[inode].id
  }

  lemma TakeMore<T>(before: seq<T>, buffer: seq<T>, written: nat, more: nat)
    requires written + more <= |buffer|
    ensures before + buffer[..written] + buffer[written..][..more] == before + buffer[..written + more]
  {
    assert buffer[..written] + buffer[written..][..more] == buffer[..written + more];
  }

  lemma SameShapeWellFormed(d: Disk, e: Disk)
    requires d.WellFormed() && e.names == d.names && e.next == d.next && e.inodes.Keys == d.inodes.Keys
    requires forall i :: i in d.inodes && d.inodes[i].Directory? ==> e.inodes[i].Directory?
    ensures e.WellFormed()
  {
    forall p {:trigger Parent(p)} | p in e.names && p != []
      ensures e.IsDirectory(Parent(p))
    {
      assert d.IsDirectory(Parent(p));
    }
  }

  /** Filling the new file keeps what creating it established. */
  lemma CopyKeepsShape(before: Disk, created: Disk, after: Disk, target: Path, inode: nat)
    requires before.WellFormed() && created.WellFormed() && OnlyContentsChanged(created, after, inode)
    requires OnlyNew(before, created, target) && before.next <= created.next && Extends(before.inodes, created.inodes)
    requires inode !in before.inodes
    ensures after.WellFormed() && OnlyNew(before, after, target) && Extends(before.inodes, after.inodes)
  {
    SameShapeWellFormed(created, after);
    forall p | p != target
      ensures SameName(before, after, p)
    {
      assert SameName(before, created, p);
    }
  }

  /** Removing names of the source side afterwards loses nothing. */
  lemma CleanupLosesNothing(root: Path, before: Disk, finished: Disk, after: Disk)
    requires NothingLost(root, before, finished)
    requires after.inodes == finished.inodes && forall p :: !(root <= p) ==> SameName(finished, after, p)
    ensures NothingLost(root, before, after)
  {
    forall p | p in before.names && !(root <= p)
      ensures p in after.names && after.names[p] == before.names[p]
    {
      assert SameName(finished, after, p);
    }
  }

  /** One new name outside the source side, described by its entry. */
  lemma LogGrewByOne(root: Path, before: Disk, log0: seq<PublishedEntry>, after: Disk, e: PublishedEntry)
    requires before.WellFormed() && after.WellFormed()
    requires before.next <= after.next && Extends(before.inodes, after.inodes)
    requires !(root <= e.path) && e.path !in before.names && e.path in after.names
    requires forall p :: p != e.path ==> SameName(before, after, p)
    requires Describes(e, after.At(e.path))
    ensures LogGrew(root, before, log0, after, log0 + [e])
  {
    var log := (log0 + [e])[|log0|..];
    assert log == [e] && log[0] == e;
    forall p | p in after.names && !(root <= p) && p !in before.names
      ensures Logged(log, p)
    {
      assert p != e.path ==> SameName(before, after, p);
      assert log[0].path == e.path;
    }
    assert forall p :: p in before.names ==> SameName(before, after, p);
  }

  /** The new file is logged as it is once its content is copied, or as much of it as got copied. */
  lemma CopyLogged(root: Path, before: Disk, log0: seq<PublishedEntry>, created: Disk, after: Disk, target: Path,
                   inode: nat)
    requires before.WellFormed() && created.WellFormed() && OnlyContentsChanged(created, after, inode)
    requires OnlyNew(before, created, target) && before.next <= created.next && Extends(before.inodes, created.inodes)
    requires inode !in before.inodes && !(root <= target)
    requires target !in before.names && target in created.names && created.names[target] == inode
    ensures LogGrew(root, before, log0, after,
                    log0 + [PublishedEntryFromStats(FileKind, target, after.inodes[inode])])
    ensures OnlyNew(before, after, target)
  {
    CopyKeepsShape(before, created, after, target, inode);
    LogGrewByOne(root, before, log0, after, PublishedEntryFromStats(FileKind, target, after.inodes[inode]));
  }

  /** Consuming a source file changes nothing outside the source side. */
  lemma PublishedAfterUnlink(root: Path, before: Disk, after: Disk, log: seq<PublishedEntry>, p: Path)
    requires Published(root, before, after, log)
    requires root <= p && p in after.names && !after.IsDirectory(p)
    ensures Published(root, before, after.Remove(p), log)
  {
    FilesHaveNoChildren(after, p);
    RemoveWellFormed(after, p);
    var removed := after.Remove(p);
    assert forall k :: 0 <= k < |log| ==> log[k].path != p;
    assert forall k :: 0 <= k < |log| ==> removed.At(log[k].path) == after.At(log[k].path);
  }

  lemma LogGrewAfterUnlink(root: Path, d0: Disk, log0: seq<PublishedEntry>, d1: Disk, log1: seq<PublishedEntry>,
                           p: Path)
    requires LogGrew(root, d0, log0, d1, log1)
    requires root <= p && p in d1.names && !d1.IsDirectory(p)
    ensures LogGrew(root, d0, log0, d1.Remove(p), log1)
  {
    PublishedAfterUnlink(root, d0, d1, log1[|log0|..], p);
  }

  /** Reads a directory of the disk `d`; `faulted` tells whether a call failed. */
  method ListEntries(d: Disk, source: Path, target: Path, budget: Budget, depth: nat)
    returns (r: Outcome, entries: seq<Name>, ghost faulted: bool)
    requires d.WellFormed() && budget.Valid()
    requires budget.route.source <= source && target == budget.route.Destination(source)
    requires depth == |source| - |budget.route.source|
    requires budget.recorded !! Below(d, source)
    modifies budget
    ensures r == Done ==>
      && d.IsDirectory(source)
      && Lists(entries, source, DirectoryEntries(d, source))
      && budget.Valid()
      && budget.recorded == old(budget.recorded) + DirectoryEntries(d, source)
      && (entries != [] ==> depth < budget.limits.maximumDepth)
    ensures r.Failed? ==> !r.failure.AlreadyExists?
    ensures r.Failed? && !r.failure.Capacity? ==> faulted || !d.IsDirectory(source)
    ensures r.Failed? && r.failure.Capacity? ==>
      !budget.route.Fits(budget.limits, old(budget.recorded) + Below(d, source))
  {
    entries := [];
    var openFails := *;
    if openFails || !d.IsDirectory(source) {
      return Failed(Io), entries, openFails;
    }
    var remaining := DirectoryEntries(d, source);
    ghost var all, seen := remaining, {};
    while remaining != {}
      invariant budget.Valid()
      invariant seen !! remaining && seen + remaining == all
      invariant Lists(entries, source, seen)
      invariant budget.recorded == old(budget.recorded) + seen
      invariant entries != [] ==> depth < budget.limits.maximumDepth
      decreases remaining
    {
      var readFails := *;
      if readFails {
        return Failed(Io), entries, true;
      }
      var p :| p in remaining;
      var name := p[|source|];
      ListsOneMore(entries, source, seen, p);
      EntriesAreBelow(budget.route, d, source, p);
      var verdict := budget.RecordEntry(p, target + [name], depth + 1);
      if verdict.Rejected? {
        EntryRejectionJustified(budget.route, budget.limits, budget.recorded, old(budget.recorded) + Below(d, source),
                                p);
        return Failed(Capacity(verdict.reason)), entries, false;
      }
      MoveOne(old(budget.recorded), seen, remaining, p);
      seen, remaining := seen + {p}, remaining - {p};
      entries := entries + [name];
    }
    assert seen == all;
    return Done, entries, false;
  }

  /** `aborted` is the abort signal, which fires while a check looks at it. `faults` counts the calls that failed though
      the disk allowed them, and the checks that found the signal fired; failed calls of `link` are counted apart. */
  class Promotion {
    var disk: Disk
    var publishedEntries: seq<PublishedEntry>
    var aborted: bool
    ghost var faults: nat
    ghost var linkFaults: nat

    constructor (disk: Disk)
      ensures this.disk == disk && publishedEntries == [] && !aborted && faults == linkFaults == 0
    {
      this.disk := disk;
      publishedEntries := [];
      aborted := false;
      faults, linkFaults := 0, 0;
    }

    /** The log grew by exactly what the call published outside `root`. */
    twostate predicate Tracked(root: Path)
      reads this
    {
      LogGrew(root, old(disk), old(publishedEntries), disk, publishedEntries)
    }

    /** Faults only add up, and a fired signal stays fired. */
    twostate predicate Onward()
      reads this
    {
      old(faults) <= faults && old(linkFaults) <= linkFaults && (old(aborted) ==> aborted)
    }

    method ThrowIfAborted() returns (r: Outcome)
      modifies this`aborted, this`faults
      ensures Onward()
      ensures r == if aborted then Failed(Aborted) else Done
      ensures r.Failed? ==> old(faults) < faults
    {
      if !aborted {
        aborted := *;
      }
      if aborted {
        faults := faults + 1;
        return Failed(Aborted);
      }
      return Done;
    }

    method MakeDirectory(path: Path) returns (r: Outcome)
      requires disk.WellFormed()
      modifies this`disk, this`faults
      ensures Onward()
      ensures r.Failed? ==> disk == old(disk) && !r.failure.Capacity?
      ensures r.Failed? ==> old(faults) < faults || !CanCreate(disk, path)
      ensures r == Done ==> CanCreate(old(disk), path) && exists id :: disk == old(disk).Add(path, Directory(id))
    {
      var fails := *;
      if fails {
        faults := faults + 1;
        return Failed(Io);
      }
      if path in disk.names || path == [] {
        return Failed(AlreadyExists);
      }
      if !disk.IsDirectory(Parent(path)) {
        return Failed(Io);
      }
      var id: Identity := *;
      disk := disk.Add(path, Directory(id));
      return Done;
    }

    method Unlink(path: Path) returns (r: Outcome)
      requires disk.WellFormed()
      modifies this`disk, this`faults
      ensures Onward()
      ensures r.Failed? ==> disk == old(disk) && !r.failure.Capacity?
      ensures r.Failed? ==> old(faults) < faults || path !in disk.names || disk.IsDirectory(path)
      ensures r == Done ==> path in old(disk).names && !old(disk).IsDirectory(path) && disk == old(disk).Remove(path)
    {
      var fails := *;
      if fails {
        faults := faults + 1;
      }
      if fails || path !in disk.names || disk.IsDirectory(path) {
        return Failed(Io);
      }
      disk := disk.Remove(path);
      return Done;
    }

    /** `open(path, 'wx')`. */
    method CreateExclusive(path: Path) returns (r: Outcome, inode: nat)
      requires disk.WellFormed()
      modifies this`disk, this`faults
      ensures Onward()
      ensures r.Failed? ==> disk == old(disk) && !r.failure.Capacity?
      ensures r.Failed? ==> old(faults) < faults || !CanCreate(disk, path)
      ensures r == Done ==>
        && CanCreate(old(disk), path) && inode == old(disk).next
        && exists id, mtimeNs, mode :: disk == old(disk).Add(path, File(id, [], mtimeNs, mode))
    {
      inode := disk.next;
      var fails := *;
      if fails {
        faults := faults + 1;
        return Failed(Io), inode;
      }
      if path in disk.names || path == [] {
        return Failed(AlreadyExists), inode;
      }
      if !disk.IsDirectory(Parent(path)) {
        return Failed(Io), inode;
      }
      var id: Identity, mtimeNs: int, mode: nat := *, *, *;
      disk := disk.Add(path, File(id, [], mtimeNs, mode));
      return Done, inode;
    }

    /** `link(source, target)`. */
    method HardLink(source: Path, target: Path) returns (r: Outcome)
      requires disk.WellFormed()
      modifies this`disk, this`linkFaults
      ensures Onward()
      ensures r.Failed? ==> disk == old(disk) && !r.failure.Capacity?
      ensures r.Failed? ==>
        || old(linkFaults) < linkFaults
        || source !in disk.names || disk.IsDirectory(source) || !CanCreate(disk, target)
      ensures r == Failed(AlreadyExists) ==> !CanCreate(disk, target)
      ensures r == Done ==>
        && source in old(disk).names && !old(disk).IsDirectory(source) && CanCreate(old(disk), target)
        && disk == old(disk).Link(target, old(disk).names[source])
    {
      var fails := *;
      if fails {
        linkFaults := linkFaults + 1;
      }
      if fails || source !in disk.names || disk.IsDirectory(source) {
        return Failed(Io);
      }
      if target in disk.names || target == [] {
        return Failed(AlreadyExists);
      }
      if !disk.IsDirectory(Parent(target)) {
        return Failed(Io);
      }
      disk := disk.Link(target, disk.names[source]);
      return Done;
    }

    /** One `write` call: stores some non-empty part of what was asked for. */
    method WriteSome(inode: nat, data: seq<byte>, position: nat) returns (r: Outcome, bytesWritten: nat)
      requires inode in disk.inodes && disk.inodes[inode].File? && position <= |disk.inodes[inode].bytes|
      requires data != []
      modifies this`disk, this`faults
      ensures Onward()
      ensures r.Failed? ==> disk == old(disk) && !r.failure.Capacity? && old(faults) < faults
      ensures r == Done ==>
        && 1 <= bytesWritten <= |data|
        && exists mtimeNs :: disk == old(disk).(inodes := old(disk).inodes[inode := old(disk).inodes[inode].(
             bytes := WriteAt(old(disk).inodes[inode].bytes, position, data[..bytesWritten]), mtimeNs := mtimeNs)])
    {
      bytesWritten := 0;
      var fails := *;
      if fails {
        faults := faults + 1;
        return Failed(Io), 0;
      }
      bytesWritten :| 1 <= bytesWritten <= |data|;
      var mtimeNs: int := *;
      var file := disk.inodes[inode];
      disk := disk.(inodes := disk.inodes[inode := file.(
        bytes := WriteAt(file.bytes, position, data[..bytesWritten]), mtimeNs := mtimeNs)]);
      return Done, bytesWritten;
    }

    /** The inner loop of the copy: writes all of `buffer` at the end of the file, in as many calls as it takes. */
    method WriteAll(inode: nat, buffer: seq<byte>, position: nat) returns (r: Outcome)
      requires inode in disk.inodes && disk.inodes[inode].File? && position == |disk.inodes[inode].bytes|
      modifies this`disk, this`aborted, this`faults
      ensures Onward()
      ensures OnlyContentsChanged(old(disk), disk, inode)
      ensures r.Failed? ==> !r.failure.Capacity? && old(faults) < faults
      ensures r == Done ==> disk.inodes[inode].bytes == old(disk).inodes[inode].bytes + buffer
    {
      var written := 0;
      WholeSlices(old(disk).inodes[inode].bytes, 0);
      while written < |buffer|
        invariant 0 <= written <= |buffer|
        invariant Onward()
        invariant OnlyContentsChanged(old(disk), disk, inode)
        invariant disk.inodes[inode].bytes == old(disk).inodes[inode].bytes + buffer[..written]
      {
        :- ThrowIfAborted();
        var bytesWritten :- WriteSome(inode, buffer[written..], position + written);
        TakeMore(old(disk).inodes[inode].bytes, buffer, written, bytesWritten);
        written := written + bytesWritten;
      }
      WholeSlices(buffer, |buffer|);
      return Done;
    }

    /** The chunked copy between two open files: exact for short reads and short non-zero writes. */
    method CopyContents(sourceInode: nat, inode: nat) returns (r: Outcome)
      requires sourceInode in disk.inodes && disk.inodes[sourceInode].File?
      requires inode in disk.inodes && disk.inodes[inode].File? && disk.inodes[inode].bytes == []
      requires sourceInode != inode
      modifies this`disk, this`aborted, this`faults
      ensures Onward()
      ensures OnlyContentsChanged(old(disk), disk, inode)
      ensures r.Failed? ==> !r.failure.Capacity? && old(faults) < faults
      ensures old(aborted) ==> r.Failed?
      ensures r == Done ==> disk.inodes[inode].bytes == old(disk).inodes[sourceInode].bytes
    {
      var source := disk.inodes[sourceInode].bytes;
      var position := 0;
      while true
        invariant 0 <= position <= |source|
        invariant Onward()
        invariant OnlyContentsChanged(old(disk), disk, inode)
        invariant disk.inodes[inode].bytes == source[..position]
        decreases |source| - position
      {
        :- ThrowIfAborted();
        var readFails := *;
        if readFails {
          faults := faults + 1;
          return Failed(Io);
        }
        var bytesRead: nat :| bytesRead <= LOCAL_COPY_CHUNK_BYTES && position + bytesRead <= |source|
                              && (bytesRead == 0 <==> position == |source|);
        var buffer := source[position..position + bytesRead];
        if bytesRead == 0 {
          break;
        }
        :- WriteAll(inode, buffer, position);
        assert source[..position] + buffer == source[..position + bytesRead];
        position := position + bytesRead;
      }
      return Done;
    }

    /** The last step of publishing a file: `unlink(source)`. */
    method ConsumeSource(source: Path, target: Path, ghost root: Path, ghost d0: Disk, ghost log: seq<PublishedEntry>)
      returns (r: Outcome)
      requires LogGrew(root, d0, log, disk, publishedEntries) && OnlyNew(d0, disk, target)
      requires source in d0.names && d0.At(source).File? && root <= source
      requires target !in d0.names && target in disk.names && SameContent(d0.At(source), disk.At(target))
      modifies this`disk, this`faults
      ensures LogGrew(root, d0, log, disk, publishedEntries) && Onward()
      ensures r.Failed? ==> !r.failure.Capacity? && old(faults) < faults
      ensures r == Done ==>
        && FilePublished(d0, source, disk, target) && disk.names[target] == old(disk).names[target]
    {
      ghost var d1 := disk;
      assert SameName(d0, d1, source);
      r := Unlink(source);
      if r == Done {
        LogGrewAfterUnlink(root, d0, log, d1, publishedEntries, source);
        FileMoved(d0, d1, source, target);
      }
    }

    method CopyTrackedFileNoClobber(source: Path, target: Path, ghost root: Path) returns (r: Outcome)
      requires disk.WellFormed() && source in disk.names && disk.At(source).File?
      requires root <= source && !(root <= target)
      modifies this
      ensures Tracked(root) && Onward()
      ensures r.Failed? ==> !r.failure.Capacity? && (old(faults) < faults || !CanCreate(old(disk), target))
      ensures r == Done ==> CanCreate(old(disk), target) && FilePublished(old(disk), source, disk, target)
      ensures old(aborted) ==> r.Failed?
    {
      ghost var d0 := disk;
      PublishedNothing(root, d0);
      var openFails := *;
      if openFails {
        faults := faults + 1;
        return Failed(Io);
      }
      var sourceInode := disk.names[source];
      var inode :- CreateExclusive(target);
      AddWellFormed(d0, target, disk.inodes[inode]);
      var slot := |publishedEntries|;
      publishedEntries := publishedEntries + [PublishedEntryFromStats(FileKind, target, disk.At(target))];
      ghost var d1 := disk;
      r := CopyContents(sourceInode, inode);
      // The state is read again whether or not the copy succeeded.
      publishedEntries := publishedEntries[slot := PublishedEntryFromStats(FileKind, target, disk.At(target))];
      CopyLogged(root, d0, old(publishedEntries), d1, disk, target, inode);
      assert publishedEntries == old(publishedEntries) + [publishedEntries[slot]];
      if r.Failed? {
        return r;
      }
      r := ConsumeSource(source, target, root, d0, old(publishedEntries));
    }

    /** A `link` that fails is no reason to fail: the file is copied. If `link` works, the file itself is moved. */
    method PublishTrackedFileNoClobber(source: Path, target: Path, ghost root: Path) returns (r: Outcome)
      requires disk.WellFormed() && source in disk.names && disk.At(source).File?
      requires root <= source && !(root <= target)
      modifies this
      ensures Tracked(root) && Onward()
      ensures r.Failed? ==> !r.failure.Capacity? && (old(faults) < faults || !CanCreate(old(disk), target))
      ensures r == Done ==> FilePublished(old(disk), source, disk, target)
      ensures r == Done && linkFaults == old(linkFaults) ==> disk.names[target] == old(disk).names[source]
      ensures old(aborted) ==> r.Failed?
    {
      ghost var d0 := disk;
      PublishedNothing(root, d0);
      var statFails := *;
      if statFails {
        faults := faults + 1;
        return Failed(Io);
      }
      var hardLinkRecord := PublishedEntryFromStats(FileKind, target, disk.At(source));
      r := HardLink(source, target);
      if r == Failed(AlreadyExists) {
        return r;
      } else if r.Failed? {
        r := CopyTrackedFileNoClobber(source, target, root);
        return r;
      }
      LinkWellFormed(d0, target, d0.names[source]);
      var slot := |publishedEntries|;
      publishedEntries := publishedEntries + [hardLinkRecord];
      publishedEntries := publishedEntries[slot := PublishedEntryFromStats(FileKind, target, disk.At(target))];
      LogGrewByOne(root, d0, old(publishedEntries), disk, publishedEntries[slot]);
      assert publishedEntries == old(publishedEntries) + [publishedEntries[slot]];
      :- ThrowIfAborted();
      r := ConsumeSource(source, target, root, d0, old(publishedEntries));
    }

    /** The entries of `source` in some order, each recorded in the budget. */
    method ReadPromotionDirectoryEntries(source: Path, target: Path, budget: Budget, depth: nat)
      returns (r: Outcome, entries: seq<Name>)
      requires disk.WellFormed() && budget.Valid()
      requires budget.route.source <= source && target == budget.route.Destination(source)
      requires depth == |source| - |budget.route.source|
      requires budget.recorded !! Below(disk, source)
      modifies budget, this`faults
      ensures Onward()
      ensures r == Done ==>
        && disk.IsDirectory(source)
        && Lists(entries, source, DirectoryEntries(disk, source))
        && budget.Valid()
        && budget.recorded == old(budget.recorded) + DirectoryEntries(disk, source)
        && (entries != [] ==> depth < budget.limits.maximumDepth)
      ensures r.Failed? ==> !r.failure.AlreadyExists?
      ensures r.Failed? && !r.failure.Capacity? ==> old(faults) < faults || !disk.IsDirectory(source)
      ensures r.Failed? && r.failure.Capacity? ==>
        !budget.route.Fits(budget.limits, old(budget.recorded) + Below(disk, source))
    {
      ghost var faulted;
      r, entries, faulted := ListEntries(disk, source, target, budget, depth);
      if faulted {
        faults := faults + 1;
      }
    }

    ghost predicate ReadyToPublish(source: Path, target: Path, budget: Budget, depth: nat)
      reads this, budget
    {
      var route := budget.route;
      && disk.WellFormed() && budget.Valid()
      && route.source <= source && route.source in disk.names
      && target == route.Destination(source) && !(route.source <= target)
      && depth == |source| - |route.source|
      && budget.recorded !! Below(disk, source)
    }

    /** What publishing `source` as `target` promises, whatever `source` is. */
    twostate predicate SubtreePublished(r: Outcome, source: Path, target: Path, budget: Budget)
      reads this, budget
    {
      && Tracked(budget.route.source) && Onward()
      && (r == Done ==>
            && source in old(disk).names && target !in old(disk).names
            && old(disk).Closed() && disk.Closed()
            && TreeCopied(old(disk), source, disk, target)
            && NothingElseChanged(old(disk), source, disk, target)
            && budget.Valid()
            && budget.recorded == old(budget.recorded) + Below(old(disk), source))
      && (r.Failed? && r.failure.Capacity? ==>
            !budget.route.Fits(budget.limits, old(budget.recorded) + Below(old(disk), source)))
    }

    /** What a turn of the publishing loop does with its entry. */
    method PublishByKind(source: Path, target: Path, budget: Budget, depth: nat) returns (r: Outcome)
      requires ReadyToPublish(source, target, budget, depth) && source in disk.names
      requires 0 < depth <= budget.limits.maximumDepth
      modifies this, budget
      ensures SubtreePublished(r, source, target, budget)
      ensures r.Failed? && !r.failure.Capacity? ==>
        old(faults) < faults || !CanCreate(old(disk), target) || !PlainTree(old(disk), source)
      decreases budget.limits.maximumDepth - depth, 5
    {
      PublishedNothing(budget.route.source, disk);
      if disk.IsDirectory(source) {
        r := PublishDirectoryNoClobber(source, target, budget, depth);
      } else if disk.At(source).File? {
        r := PublishTrackedFileNoClobber(source, target, budget.route.source);
        if r == Done {
          FileIsTree(old(disk), source, disk, target);
        }
      } else {
        assert disk.IsOther(source);
        return Failed(UnexpectedEntry(source[|source| - 1]));
      }
    }

    /** One turn of the publishing loop. */
    method PublishEntry(source: Path, target: Path, budget: Budget, depth: nat) returns (r: Outcome)
      requires ReadyToPublish(source, target, budget, depth) && source in disk.names
      requires 0 < depth <= budget.limits.maximumDepth
      modifies this, budget
      ensures SubtreePublished(r, source, target, budget) && (r == Done ==> !aborted)
      ensures r.Failed? && !r.failure.Capacity? ==>
        old(faults) < faults || !CanCreate(old(disk), target) || !PlainTree(old(disk), source)
      decreases budget.limits.maximumDepth - depth, 6
    {
      PublishedNothing(budget.route.source, disk);
      :- ThrowIfAborted();
      r := PublishByKind(source, target, budget, depth);
      if r == Done {
        r := ThrowIfAborted();
      }
    }

    /** The body of the publishing loop; `claimed` is the disk right after the directory was claimed. */
    method PublishNextEntry(ghost before: Disk, ghost claimed: Disk, source: Path, target: Path, entries: seq<Name>,
                            k: nat, budget: Budget, depth: nat, ghost recordedBefore: set<Path>, ghost plain: bool)
      returns (r: Outcome)
      requires plain ==> PlainTree(before, source)
      requires Publishing(before, budget.route, source, target, entries, recordedBefore) && k < |entries|
      requires depth == |source| - |budget.route.source| && depth < budget.limits.maximumDepth
      requires disk.WellFormed() && budget.Valid() && budget.route.source in disk.names
      requires EntriesPublished(before, claimed, source, disk, target, entries[..k], recordedBefore, budget.recorded)
      modifies this, budget
      ensures Tracked(budget.route.source) && Onward()
      ensures r == Done ==>
        && disk.WellFormed() && budget.Valid() && budget.route.source in disk.names
        && EntriesPublished(before, claimed, source, disk, target, entries[..k + 1], recordedBefore, budget.recorded)
      ensures r.Failed? && !r.failure.Capacity? ==> old(faults) < faults || !plain
      ensures r.Failed? && r.failure.Capacity? ==>
        !budget.route.Fits(budget.limits, recordedBefore + Below(before, source))
      decreases budget.limits.maximumDepth - depth, 0
    {
      var n := entries[k];
      BeforeEntry(before, claimed, budget.route, source, disk, target, entries, k, recordedBefore, budget.recorded);
      r := PublishEntry(source + [n], target + [n], budget, depth + 1);
      ghost var recorded := old(budget.recorded) + Below(old(disk), source + [n]);
      if r == Done {
        AfterEntry(before, claimed, budget.route, source, old(disk), disk, target, entries, k, recordedBefore,
                   old(budget.recorded));
      } else if r.failure.Capacity? {
        RejectionJustified(budget.route, budget.limits, recorded, recordedBefore + Below(before, source));
      }
    }

    /** The same with the log since `claimed`. */
    method PublishNextLogged(ghost before: Disk, ghost claimed: Disk, ghost log: seq<PublishedEntry>, source: Path,
                             target: Path, entries: seq<Name>, k: nat, budget: Budget, depth: nat,
                             ghost recordedBefore: set<Path>, ghost plain: bool)
      returns (r: Outcome)
      requires plain ==> PlainTree(before, source)
      requires Publishing(before, budget.route, source, target, entries, recordedBefore) && k < |entries|
      requires depth == |source| - |budget.route.source| && depth < budget.limits.maximumDepth
      requires budget.Valid() && budget.route.source in disk.names
      requires LogGrew(budget.route.source, claimed, log, disk, publishedEntries)
      requires EntriesPublished(before, claimed, source, disk, target, entries[..k], recordedBefore, budget.recorded)
      modifies this, budget
      ensures LogGrew(budget.route.source, claimed, log, disk, publishedEntries) && Onward()
      ensures r == Done ==>
        && budget.Valid() && budget.route.source in disk.names
        && EntriesPublished(before, claimed, source, disk, target, entries[..k + 1], recordedBefore, budget.recorded)
      ensures r.Failed? && !r.failure.Capacity? ==> old(faults) < faults || !plain
      ensures r.Failed? && r.failure.Capacity? ==>
        !budget.route.Fits(budget.limits, recordedBefore + Below(before, source))
      decreases budget.limits.maximumDepth - depth, 1
    {
      r := PublishNextEntry(before, claimed, source, target, entries, k, budget, depth, recordedBefore, plain);
      LogGrewThen(budget.route.source, claimed, log, old(disk), old(publishedEntries), disk, publishedEntries);
    }

    /** The loop of `PublishDirectoryNoClobber`; `before` is the disk before the directory was claimed. */
    method PublishEntries(ghost before: Disk, source: Path, target: Path, entries: seq<Name>, budget: Budget,
                          depth: nat, ghost recordedBefore: set<Path>, ghost plain: bool)
      returns (r: Outcome)
      requires plain ==> PlainTree(before, source)
      requires Publishing(before, budget.route, source, target, entries, recordedBefore)
      requires depth == |source| - |budget.route.source| && (entries != [] ==> depth < budget.limits.maximumDepth)
      requires disk.WellFormed() && budget.Valid() && budget.route.source in disk.names
      requires EntriesPublished(before, disk, source, disk, target, [], recordedBefore, budget.recorded)
      modifies this, budget
      ensures Tracked(budget.route.source) && Onward()
      ensures r == Done ==>
        && disk.WellFormed() && budget.Valid()
        && EntriesPublished(before, old(disk), source, disk, target, entries, recordedBefore, budget.recorded)
      ensures r.Failed? && !r.failure.Capacity? ==> old(faults) < faults || !plain
      ensures r.Failed? && r.failure.Capacity? ==>
        !budget.route.Fits(budget.limits, recordedBefore + Below(before, source))
      decreases budget.limits.maximumDepth - depth, 2
    {
      ghost var root := budget.route.source;
      PublishedNothing(root, disk);
      for k := 0 to |entries|
        invariant Onward() && LogGrew(root, old(disk), old(publishedEntries), disk, publishedEntries)
        invariant budget.Valid() && root in disk.names
        invariant EntriesPublished(before, old(disk), source, disk, target, entries[..k], recordedBefore,
                                   budget.recorded)
      {
        :- PublishNextLogged(before, old(disk), old(publishedEntries), source, target, entries, k, budget, depth,
                             recordedBefore, plain);
      }
      WholeSlices(entries, |entries|);
      r := Done;
    }

    /** `mkdir`, `lstat` and the log entry, with nothing in between. */
    method ClaimDirectory(source: Path, target: Path, ghost root: Path) returns (r: Outcome)
      requires disk.WellFormed() && root in disk.names && root <= source && !(root <= target)
      modifies this
      ensures Tracked(root) && Onward()
      ensures r.Failed? ==>
        && disk == old(disk) && !r.failure.Capacity?
        && (old(faults) < faults || !CanCreate(disk, target))
      ensures r == Done ==>
        && disk.WellFormed() && Extends(old(disk).inodes, disk.inodes)
        && target !in old(disk).names && Apart(source, target)
        && disk.IsDirectory(target) && OnlyNew(old(disk), disk, target)
        && (old(disk).IsDirectory(source) ==> disk.IsDirectory(source))
        && Progress(old(disk), source, disk, target, [])
        && Below(disk, source) == Below(old(disk), source)
        && DirectoryEntries(disk, source) == DirectoryEntries(old(disk), source)
    {
      PublishedNothing(root, disk);
      :- MakeDirectory(target);
      AddWellFormed(old(disk), target, disk.At(target));
      SidesApart(root, old(disk), source, target);
      ClaimedDirectory(old(disk), source, disk, target);
      assert SameName(old(disk), disk, source);
      publishedEntries := publishedEntries + [PublishedEntryFromStats(DirectoryKind, target, disk.At(target))];
      LogGrewByOne(root, old(disk), old(publishedEntries), disk, publishedEntries[|old(publishedEntries)|]);
      r := Done;
    }

    /** Claims the directory, lists its source and publishes the entries. */
    method ClaimAndFill(source: Path, target: Path, budget: Budget, depth: nat, ghost plain: bool)
      returns (r: Outcome)
      requires plain ==> PlainTree(disk, source)
      requires ReadyToPublish(source, target, budget, depth)
      modifies this, budget
      ensures SubtreePublished(r, source, target, budget)
      ensures r.Failed? && !r.failure.Capacity? ==>
        || old(faults) < faults
        || !old(disk).IsDirectory(source) || !CanCreate(old(disk), target) || !plain
      decreases budget.limits.maximumDepth - depth, 3
    {
      ghost var root := budget.route.source;
      :- ClaimDirectory(source, target, root);
      ghost var d1, log1 := disk, publishedEntries;
      assert SameName(old(disk), d1, root);
      var entries :- ReadPromotionDirectoryEntries(source, target, budget, depth);
      NothingPublishedYet(old(disk), disk, source, target, old(budget.recorded), budget.recorded);
      r := PublishEntries(old(disk), source, target, entries, budget, depth, old(budget.recorded), plain);
      LogGrewThen(root, old(disk), old(publishedEntries), d1, log1, disk, publishedEntries);
      if r == Done {
        DirectoryDone(old(disk), d1, source, disk, target, entries);
      }
    }

    method PublishDirectoryNoClobber(source: Path, target: Path, budget: Budget, depth: nat) returns (r: Outcome)
      requires ReadyToPublish(source, target, budget, depth)
      modifies this, budget
      ensures SubtreePublished(r, source, target, budget) && (r == Done ==> !aborted)
      ensures r.Failed? && !r.failure.Capacity? ==>
        || old(faults) < faults
        || !old(disk).IsDirectory(source) || !CanCreate(old(disk), target) || !PlainTree(old(disk), source)
      decreases budget.limits.maximumDepth - depth, 4
    {
      PublishedNothing(budget.route.source, disk);
      r := ClaimAndFill(source, target, budget, depth, PlainTree(disk, source));
      if r == Done {
        r := ThrowIfAborted();
      }
    }

    method RollbackPublishedEntries()
      requires disk.Closed()
      modifies this`disk
      ensures disk == RolledBack(old(disk), publishedEntries)
    {
      var k := |publishedEntries|;
      assert publishedEntries[..k] == publishedEntries;
      while k > 0
        invariant 0 <= k <= |publishedEntries|
        invariant disk.Closed()
        invariant RolledBack(disk, publishedEntries[..k]) == RolledBack(old(disk), publishedEntries)
      {
        k := k - 1;
        var entry := publishedEntries[k];
        assert publishedEntries[..k + 1][..k] == publishedEntries[..k];
        if entry.path !in disk.names {
          continue;
        }
        var current := disk.At(entry.path);
        if !HasSameIdentity(current.id, entry) {
          continue;
        }
        if entry.kind == FileKind {
          if HasSamePublishedFileState(current, entry) && !current.Directory? {
            disk := disk.Remove(entry.path);
          }
        } else if current.Directory? && !disk.HasChildren(entry.path) {
          disk := disk.Remove(entry.path);
        }
      }
    }

    /** `rm -r` of the source side after success: whatever it manages to remove is on the source side. */
    method RemoveTemporary(root: Path)
      modifies this`disk, this`faults
      ensures old(faults) <= faults
      ensures faults == old(faults) ==> forall p :: p in disk.names ==> !(root <= p)
      ensures forall p :: !(root <= p) ==> SameName(old(disk), disk, p)
      ensures disk.inodes == old(disk).inodes
      ensures forall p :: p in disk.names ==> p in old(disk).names && disk.names[p] == old(disk).names[p]
    {
      var everything := set p | p in disk.names && root <= p;
      var removed := everything;
      var fails := *;
      if fails {
        removed :| removed <= everything;
        faults := faults + 1;
      }
      disk := disk.(names := disk.names - removed);
    }

    /** Everything before the first change to the disk. */
    method Preflight(tempPath: Path, destinationPath: Path, limits: Limits) returns (r: Outcome)
      requires disk.WellFormed()
      modifies this`aborted, this`faults
      ensures Onward()
      ensures r == Done ==>
        disk.IsDirectory(tempPath) && Route(tempPath, destinationPath).Fits(limits, Below(disk, tempPath))
      ensures r.Failed? && r.failure.Capacity? ==>
        !Route(tempPath, destinationPath).Fits(limits, Below(disk, tempPath))
      ensures r.Failed? && !r.failure.Capacity? ==> old(faults) < faults || !disk.IsDirectory(tempPath)
      ensures old(aborted) ==> r == Failed(Aborted)
    {
      ghost var faulted;
      :- ThrowIfAborted();
      r, faulted := AssertPromotionTreeWithinCapacity(disk, tempPath, destinationPath, limits);
      if faulted {
        faults := faults + 1;
      }
      if r.Failed? {
        aborted := r == Failed(Aborted);
        return r;
      }
      r := ThrowIfAborted();
    }

    /** Publishes the tree, or rolls back what it published of it. */
    method PublishOrUndo(tempPath: Path, destinationPath: Path, limits: Limits) returns (r: Outcome)
      requires disk.WellFormed() && tempPath in disk.names && !(tempPath <= destinationPath)
      requires Route(tempPath, destinationPath).Fits(limits, Below(disk, tempPath)) && publishedEntries == []
      modifies this
      ensures NothingLost(tempPath, old(disk), disk) && Onward()
      ensures r == Done ==>
        && !aborted && destinationPath !in old(disk).names && disk.Closed()
        && TreeCopied(old(disk), tempPath, disk, destinationPath)
        && NothingElseChanged(old(disk), tempPath, disk, destinationPath)
      ensures r.Failed? ==>
        && !r.failure.Capacity?
        && (SameOutside(tempPath, old(disk), disk) <==> AllIdentifiable(publishedEntries))
      ensures r.Failed? ==>
        || old(faults) < faults
        || !old(disk).IsDirectory(tempPath) || !CanCreate(old(disk), destinationPath) || !PlainTree(old(disk), tempPath)
    {
      ghost var route := Route(tempPath, destinationPath);
      var budget := new Budget(limits, route);
      assert {} + Below(disk, tempPath) == Below(disk, tempPath);
      r := PublishDirectoryNoClobber(tempPath, destinationPath, budget, 0);
      assert publishedEntries[0..] == publishedEntries;
      if r.Failed? {
        RollbackCompleteIffIdentifiable(tempPath, old(disk), disk, publishedEntries);
        RollbackKeepsEarlierNames(tempPath, old(disk), disk, publishedEntries);
        RollbackPublishedEntries();
      }
    }

    /** In every case nothing that was there before outside the source side is lost or changed. On failure nothing is
        added there either, precisely if the disk gave every published entry a usable identity. On success the
        destination holds the tree that the source side held at entry. Only the preflight reports a capacity error,
        and it reports one only for a tree that does not fit. It succeeds if no call but `link` fails, the signal
        does not fire, the destination can be created, and the source is a plain tree that fits. */
    method PromoteLocalDownloadedFolder(tempPath: Path, destinationPath: Path, limits: Limits := DEFAULT_LIMITS)
      returns (r: Outcome)
      requires disk.WellFormed() && !(tempPath <= destinationPath)
      modifies this
      ensures r.Failed? ==>
        (SameOutside(tempPath, old(disk), disk) <==> AllIdentifiable(publishedEntries))
      ensures NothingLost(tempPath, old(disk), disk)
      ensures r == Done ==>
        && destinationPath !in old(disk).names && tempPath in old(disk).names
        && disk.Closed()
        && TreeCopied(old(disk), tempPath, disk, destinationPath)
        && NothingElseChanged(old(disk), tempPath, disk, destinationPath)
      ensures r.Failed? && r.failure.Capacity? ==>
        && disk == old(disk) && publishedEntries == []
        && !Route(tempPath, destinationPath).Fits(limits, Below(disk, tempPath))
      ensures
        && faults == old(faults)
        && CanCreate(old(disk), destinationPath)
        && old(disk).IsDirectory(tempPath) && PlainTree(old(disk), tempPath)
        && Route(tempPath, destinationPath).Fits(limits, Below(old(disk), tempPath))
        ==> r == Done
      ensures old(aborted) ==> r == Failed(Aborted) && disk == old(disk)
      ensures r == Done ==> !aborted
      ensures r == Done && faults == old(faults) ==> forall p :: p in disk.names ==> !(tempPath <= p)
    {
      publishedEntries := [];
      :- Preflight(tempPath, destinationPath, limits);
      :- PublishOrUndo(tempPath, destinationPath, limits);
      ghost var finished := disk;
      SidesApart(tempPath, old(disk), tempPath, destinationPath);
      RemoveTemporary(tempPath);
      CopySurvivesCleanup(old(disk), tempPath, finished, disk, destinationPath);
      CleanupLosesNothing(tempPath, old(disk), finished, disk);
      r := Done;
    }

    /** The same protection for a single file. */
    method PublishLocalDownloadedFileNoClobber(sourcePath: Path, destinationPath: Path) returns (r: Outcome)
      requires disk.WellFormed() && sourcePath in disk.names && disk.At(sourcePath).File?
      requires !(sourcePath <= destinationPath)
      modifies this
      ensures r.Failed? ==>
        (SameOutside(sourcePath, old(disk), disk) <==> AllIdentifiable(publishedEntries))
      ensures NothingLost(sourcePath, old(disk), disk)
      ensures r == Done ==> FilePublished(old(disk), sourcePath, disk, destinationPath)
      ensures faults == old(faults) && CanCreate(old(disk), destinationPath) ==> r == Done
      ensures old(aborted) ==> r.Failed?
    {
      publishedEntries := [];
      r := PublishTrackedFileNoClobber(sourcePath, destinationPath, sourcePath);
      assert publishedEntries[0..] == publishedEntries;
      if r.Failed? {
        RollbackCompleteIffIdentifiable(sourcePath, old(disk), disk, publishedEntries);
        RollbackKeepsEarlierNames(sourcePath, old(disk), disk, publishedEntries);
        RollbackPublishedEntries();
      }
    }
  }
}
