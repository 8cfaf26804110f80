/** An abstract disk: names map to inodes, so that two names can share one inode (a hard link).
    It stands for the file system calls that the folder promotion makes. */
module Disk {
  type Name = string
  type Path = seq<Name>
  newtype byte = x: int | 0 <= x < 256

  datatype Identity = Identity(dev: nat, ino: nat, birthtimeNs: nat)

  datatype FileState = FileState(size: nat, mtimeNs: int, mode: nat)

  datatype Inode =
    | Directory(id: Identity)
    | File(id: Identity, bytes: seq<byte>, mtimeNs: int, mode: nat)
    | Other(id: Identity)
  {
    function State(): FileState
      requires File?
    {
      FileState(|bytes|, mtimeNs, mode)
    }
  }

  function Parent(p: Path): Path
    requires p != []
  {
    p[..|p| - 1]
  }

  /** `next` is an inode number that was never used. */
  datatype Disk = Disk(names: map<Path, nat>, inodes: map<nat, Inode>, next: nat) {
    ghost predicate WellFormed() {
      && (forall p :: p in names ==> names[p] in inodes)
      && (forall i :: i in inodes ==> i < next)
      && (forall p {:trigger Parent(p)} :: p in names && p != [] ==> IsDirectory(Parent(p)))
    }

    predicate Closed() {
      forall p :: p in names ==> names[p] in inodes
    }

    predicate IsDirectory(p: Path) {
      p in names && names[p] in inodes && inodes[names[p]].Directory?
    }

    /** Neither a directory nor a regular file. */
    predicate IsOther(p: Path) {
      p in names && names[p] in inodes && inodes[names[p]].Other?
    }

    function At(p: Path): Inode
      requires p in names && names[p] in inodes
    {
      inodes[names[p]]
    }

    predicate HasChildren(p: Path) {
      exists q :: q in names && |q| == |p| + 1 && p <= q
    }

    function Add(p: Path, inode: Inode): Disk {
      Disk(names[p := next], inodes[next := inode], next + 1)
    }

    function Link(p: Path, target: nat): Disk {
      this.(names := names[p := target])
    }

    function Remove(p: Path): Disk {
      this.(names := names - {p})
    }
  }

  /** The path below `to` that corresponds to `p` below `from`. */
  function Rebase(from: Path, to: Path, p: Path): (q: Path)
    requires from <= p
    ensures to <= q && |q| - |to| == |p| - |from|
  {
    to + p[|from|..]
  }

  /** Everything strictly below `root`. */
  ghost function Below(d: Disk, root: Path): set<Path> {
    set p | p in d.names && root < p
  }

  ghost predicate Extends(before: map<nat, Inode>, after: map<nat, Inode>) {
    forall i :: i in before ==> i in after && after[i] == before[i]
  }

  /** Outside `root` the two disks have the same names, leading to the same inodes with the same content. */
  ghost predicate SameOutside(root: Path, before: Disk, after: Disk) {
    forall p :: !(root <= p) ==>
      && (p in after.names <==> p in before.names)
      && (p in before.names && before.names[p] in before.inodes ==>
            && after.names[p] == before.names[p]
            && after.names[p] in after.inodes
            && after.inodes[after.names[p]] == before.inodes[before.names[p]])
  }

  /** Same kind and, for a file, same bytes. */
  predicate SameContent(a: Inode, b: Inode) {
    match (a, b)
    case (Directory(_), Directory(_)) => true
    case (File(_, x, _, _), File(_, y, _, _)) => x == y
    case _ => false
  }

  lemma {:induction false} AncestorsPresent(d: Disk, q: Path, p: Path)
    requires d.WellFormed() && p in d.names && q <= p
    ensures q in d.names
    ensures q < p ==> d.IsDirectory(q)
    decreases |p|
  {
    if q == p {
    } else {
      assert q == p[..|q|] == Parent(p)[..|q|];
      AncestorsPresent(d, q, Parent(p));
      if |q| == |p| - 1 {
        assert q == Parent(p);
      }
    }
  }

  lemma AddWellFormed(d: Disk, p: Path, inode: Inode)
    requires d.WellFormed() && p != [] && p !in d.names && d.IsDirectory(Parent(p))
    ensures d.Add(p, inode).WellFormed()
  {
    var e := d.Add(p, inode);
    forall q | q in e.names && q != []
      ensures e.IsDirectory(Parent(q))
    {
      assert Parent(q) in d.names;
    }
  }

  lemma LinkWellFormed(d: Disk, p: Path, target: nat)
    requires d.WellFormed() && p != [] && p !in d.names && d.IsDirectory(Parent(p)) && target in d.inodes
    ensures d.Link(p, target).WellFormed()
  {
    var e := d.Link(p, target);
    forall q | q in e.names && q != []
      ensures e.IsDirectory(Parent(q))
    {
      assert Parent(q) in d.names;
    }
  }

  lemma RemoveWellFormed(d: Disk, p: Path)
    requires d.WellFormed() && p in d.names && !d.HasChildren(p)
    ensures d.Remove(p).WellFormed()
  {
    var e := d.Remove(p);
    forall q | q in e.names && q != []
      ensures e.IsDirectory(Parent(q))
    {
      assert d.IsDirectory(Parent(q));
      assert Parent(q) == p ==> |q| == |p| + 1 && p <= q;
    }
  }

  lemma FilesHaveNoChildren(d: Disk, p: Path)
    requires d.WellFormed() && p in d.names && !d.IsDirectory(p)
    ensures !d.HasChildren(p)
  {
    forall q | q in d.names && p <= q
      ensures |q| != |p| + 1
    {
      assert |q| == |p| + 1 ==> Parent(q) == p;
    }
  }

  /** A path strictly below a directory goes through one of its entries. */
  lemma ThroughEntry(dir: Path, p: Path)
    requires dir < p
    ensures dir + [p[|dir|]] <= p
  {
    assert p[..|dir|] == dir;
    assert p[..|dir| + 1] == p[..|dir|] + [p[|dir|]];
  }

  function DirectoryEntries(d: Disk, dir: Path): (entries: set<Path>)
    ensures forall p :: p in entries ==> dir < p && |p| == |dir| + 1
  {
    set p | p in d.names && |p| == |dir| + 1 && dir <= p
  }

  ghost predicate Apart(a: Path, b: Path) {
    !(a <= b) && !(b <= a)
  }

  lemma NothingBelowBoth(a: Path, b: Path, p: Path)
    requires Apart(a, b)
    ensures !(a <= p && b <= p)
  {
  }
}
