/** The capacity preflight: an explicit-stack walk of the tree that is about to be published. */
module PromotionPreflight {
  import opened Common
  import opened Disk
  import opened PromotionBudget

  /** One directory still to be walked. */
  datatype PendingDirectory = PendingDirectory(sourcePath: Path, destinationPath: Path, depth: nat) {
    ghost predicate On(route: Route) {
      && route.source <= sourcePath
      && destinationPath == route.Destination(sourcePath)
      && depth == |sourcePath| - |route.source|
    }
  }

  ghost predicate Covered(pending: seq<PendingDirectory>, p: Path) {
    exists i :: 0 <= i < |pending| && pending[i].sourcePath < p
  }

  /** `pushed` holds each directory among `entries`, the entries of `current`, once. */
  ghost predicate Pushed(d: Disk, route: Route, entries: set<Path>, pushed: seq<PendingDirectory>) {
    && (forall i :: 0 <= i < |pushed| ==>
          pushed[i].On(route) && pushed[i].sourcePath in entries && d.IsDirectory(pushed[i].sourcePath))
    && (forall i, j :: 0 <= i < j < |pushed| ==> pushed[i].sourcePath != pushed[j].sourcePath)
    && (forall p :: p in entries && d.IsDirectory(p) ==> exists i :: 0 <= i < |pushed| && pushed[i].sourcePath == p)
  }

  /** Everything below the source is recorded once already, or lies below exactly one pending directory. */
  ghost predicate Walking(d: Disk, route: Route, pending: seq<PendingDirectory>, recorded: set<Path>) {
    && (forall i :: 0 <= i < |pending| ==>
          pending[i].On(route) && (pending[i].sourcePath == route.source || d.IsDirectory(pending[i].sourcePath)))
    && (forall i, j :: 0 <= i < j < |pending| ==> Apart(pending[i].sourcePath, pending[j].sourcePath))
    && recorded <= Below(d, route.source)
    && (forall i, p :: 0 <= i < |pending| && p in recorded ==> !(pending[i].sourcePath < p))
    && (forall p :: p in Below(d, route.source) ==> p in recorded || Covered(pending, p))
  }

  lemma WalkedCovers(d: Disk, route: Route, rest: seq<PendingDirectory>, current: PendingDirectory,
                     pushed: seq<PendingDirectory>, recorded: set<Path>, p: Path)
    requires d.WellFormed() && Walking(d, route, rest + [current], recorded)
    requires Pushed(d, route, DirectoryEntries(d, current.sourcePath), pushed)
    requires p in Below(d, route.source) && p !in recorded && p !in DirectoryEntries(d, current.sourcePath)
    ensures Covered(rest + pushed, p)
  {
    var all := rest + [current];
    var i :| 0 <= i < |all| && all[i].sourcePath < p;
    if i < |rest| {
      assert (rest + pushed)[i].sourcePath < p;
    } else {
      var dir := current.sourcePath;
      ThroughEntry(dir, p);
      var entry := dir + [p[|dir|]];
      AncestorsPresent(d, entry, p);
      assert entry in DirectoryEntries(d, dir) && d.IsDirectory(entry);
      var j :| 0 <= j < |pushed| && pushed[j].sourcePath == entry;
      assert (rest + pushed)[|rest| + j].sourcePath < p;
    }
  }

  lemma PushedApart(rest: seq<PendingDirectory>, current: PendingDirectory, pushed: seq<PendingDirectory>, i: nat,
                    j: nat)
    requires forall i, j :: 0 <= i < j < |rest| + 1 ==>
      Apart((rest + [current])[i].sourcePath, (rest + [current])[j].sourcePath)
    requires forall i :: 0 <= i < |pushed| ==>
      current.sourcePath < pushed[i].sourcePath && |pushed[i].sourcePath| == |current.sourcePath| + 1
    requires forall i, j :: 0 <= i < j < |pushed| ==> pushed[i].sourcePath != pushed[j].sourcePath
    requires i < j < |rest + pushed|
    ensures Apart((rest + pushed)[i].sourcePath, (rest + pushed)[j].sourcePath)
  {
    var all := rest + [current];
    if j < |rest| {
      assert all[i] == rest[i] && all[j] == rest[j];
    } else if i < |rest| {
      var child := pushed[j - |rest|].sourcePath;
      assert all[i] == rest[i] && all[|rest|] == current;
      assert Apart(all[i].sourcePath, all[|rest|].sourcePath);
      if rest[i].sourcePath <= child {
        assert false;
      }
    }
  }

  lemma NothingNewBelowPending(rest: seq<PendingDirectory>, current: PendingDirectory, pushed: seq<PendingDirectory>,
                               d: Disk, i: nat, p: Path)
    requires forall i, j :: 0 <= i < j < |rest| + 1 ==>
      Apart((rest + [current])[i].sourcePath, (rest + [current])[j].sourcePath)
    requires forall i :: 0 <= i < |pushed| ==> pushed[i].sourcePath in DirectoryEntries(d, current.sourcePath)
    requires i < |rest + pushed| && p in DirectoryEntries(d, current.sourcePath)
    ensures !((rest + pushed)[i].sourcePath < p)
  {
    var all := rest + [current];
    if i < |rest| {
      assert all[i] == rest[i] && all[|rest|] == current;
      assert Apart(all[i].sourcePath, all[|rest|].sourcePath);
    }
  }

  lemma WalkedOnlyBelow(d: Disk, route: Route, current: PendingDirectory)
    requires current.On(route)
    ensures DirectoryEntries(d, current.sourcePath) <= Below(d, current.sourcePath) <= Below(d, route.source)
  {
  }

  /** Walking one directory: its entries get recorded, its subdirectories replace it on the stack. */
  lemma WalkStep(d: Disk, route: Route, rest: seq<PendingDirectory>, current: PendingDirectory,
                 pushed: seq<PendingDirectory>, recorded: set<Path>)
    requires d.WellFormed() && Walking(d, route, rest + [current], recorded)
    requires Pushed(d, route, DirectoryEntries(d, current.sourcePath), pushed)
    ensures Walking(d, route, rest + pushed, recorded + DirectoryEntries(d, current.sourcePath))
  {
    var all, pending := rest + [current], rest + pushed;
    var dir := current.sourcePath;
    assert all[|rest|] == current;
    WalkedOnlyBelow(d, route, current);
    forall i | 0 <= i < |pending|
      ensures pending[i].On(route) && (pending[i].sourcePath == route.source || d.IsDirectory(pending[i].sourcePath))
    {
      assert if i < |rest| then pending[i] == all[i] else pending[i] == pushed[i - |rest|];
    }
    forall i, j | 0 <= i < j < |pending|
      ensures Apart(pending[i].sourcePath, pending[j].sourcePath)
    {
      PushedApart(rest, current, pushed, i, j);
    }
    forall i, p | 0 <= i < |pending| && p in recorded + DirectoryEntries(d, dir)
      ensures !(pending[i].sourcePath < p)
    {
      if p in DirectoryEntries(d, dir) {
        NothingNewBelowPending(rest, current, pushed, d, i, p);
      } else if i < |rest| {
        assert all[i] == rest[i];
      } else {
        assert !(all[|rest|].sourcePath < p);
      }
    }
    forall p | p in Below(d, route.source) && p !in recorded + DirectoryEntries(d, dir)
      ensures Covered(pending, p)
    {
      WalkedCovers(d, route, rest, current, pushed, recorded, p);
    }
  }

  lemma EntryOn(route: Route, d: Disk, current: PendingDirectory, p: Path)
    requires current.On(route) && p in DirectoryEntries(d, current.sourcePath)
    ensures PendingDirectory(p, current.destinationPath + [p[|current.sourcePath|]], current.depth + 1).On(route)
  {
  }

  lemma PushedSkipping(d: Disk, route: Route, entries: set<Path>, pushed: seq<PendingDirectory>, p: Path)
    requires Pushed(d, route, entries, pushed) && !d.IsDirectory(p)
    ensures Pushed(d, route, entries + {p}, pushed)
  {
  }

  lemma PushedOneMore(d: Disk, route: Route, entries: set<Path>, pushed: seq<PendingDirectory>, more: PendingDirectory)
    requires Pushed(d, route, entries, pushed) && more.On(route) && more.sourcePath !in entries
    requires d.IsDirectory(more.sourcePath)
    ensures Pushed(d, route, entries + {more.sourcePath}, pushed + [more])
  {
    var longer := pushed + [more];
    forall p | p in entries + {more.sourcePath} && d.IsDirectory(p)
      ensures exists i :: 0 <= i < |longer| && longer[i].sourcePath == p
    {
      if p in entries {
        var i :| 0 <= i < |pushed| && pushed[i].sourcePath == p;
        assert longer[i].sourcePath == p;
      } else {
        assert longer[|pushed|].sourcePath == p;
      }
    }
  }

  method VisitDirectory(d: Disk, current: PendingDirectory, rest: seq<PendingDirectory>, budget: Budget)
    returns (r: Outcome, pending: seq<PendingDirectory>, ghost faulted: bool)
    requires d.WellFormed() && budget.Valid() && current.On(budget.route)
    requires budget.recorded !! DirectoryEntries(d, current.sourcePath)
    modifies budget
    ensures r == Done ==>
      && d.IsDirectory(current.sourcePath)
      && rest <= pending && Pushed(d, budget.route, DirectoryEntries(d, current.sourcePath), pending[|rest|..])
      && budget.Valid()
      && budget.recorded == old(budget.recorded) + DirectoryEntries(d, current.sourcePath)
    ensures r.Failed? ==> !r.failure.AlreadyExists?
    ensures r.Failed? && !r.failure.Capacity? ==> faulted || !d.IsDirectory(current.sourcePath)
    ensures r.Failed? && r.failure.Capacity? ==>
      !budget.route.Fits(budget.limits, old(budget.recorded) + DirectoryEntries(d, current.sourcePath))
  {
    pending, faulted := rest, false;
    var openFails := *;
    if openFails || !d.IsDirectory(current.sourcePath) {
      return Failed(Io), pending, openFails;
    }
    ghost var all, seen := DirectoryEntries(d, current.sourcePath), {};
    ghost var pushed := [];
    var remaining := DirectoryEntries(d, current.sourcePath);
    while remaining != {}
      invariant budget.Valid()
      invariant seen !! remaining && seen + remaining == all
      invariant budget.recorded == old(budget.recorded) + seen
      invariant pending == rest + pushed
      invariant Pushed(d, budget.route, seen, pushed)
      decreases remaining
    {
      var interrupted: Outcome := *;
      if interrupted == Failed(Aborted) || interrupted == Failed(Io) {
        return interrupted, pending, true;
      }
      var p :| p in remaining;
      EntryOn(budget.route, d, current, p);
      var entry := PendingDirectory(p, current.destinationPath + [p[|current.sourcePath|]], current.depth + 1);
      var verdict := budget.RecordEntry(p, entry.destinationPath, entry.depth);
      if verdict.Rejected? {
        EntryRejectionJustified(budget.route, budget.limits, budget.recorded, old(budget.recorded) + all, p);
        return Failed(Capacity(verdict.reason)), pending, false;
      }
      if d.IsDirectory(p) {
        AppendAssociative(rest, pushed, [entry]);
        pending := pending + [entry];
        PushedOneMore(d, budget.route, seen, pushed, entry);
        pushed := pushed + [entry];
      } else {
        PushedSkipping(d, budget.route, seen, pushed, p);
      }
      MoveOne(old(budget.recorded), seen, remaining, p);
      seen, remaining := seen + {p}, remaining - {p};
    }
    assert seen == all;
    r := Done;
  }

  lemma WalkStart(d: Disk, route: Route, first: PendingDirectory)
    requires first == PendingDirectory(route.source, route.target, 0)
    ensures Walking(d, route, [first], {})
  {
    forall p | p in Below(d, route.source)
      ensures Covered([first], p)
    {
      assert [first][0].sourcePath < p;
    }
  }

  lemma FreshEntries(d: Disk, route: Route, rest: seq<PendingDirectory>, current: PendingDirectory, recorded: set<Path>)
    requires Walking(d, route, rest + [current], recorded)
    ensures current.On(route) && (current.sourcePath == route.source || d.IsDirectory(current.sourcePath))
    ensures recorded !! DirectoryEntries(d, current.sourcePath)
    ensures recorded + DirectoryEntries(d, current.sourcePath) <= Below(d, route.source)
  {
    assert (rest + [current])[|rest|] == current;
    WalkedOnlyBelow(d, route, current);
    forall p | p in DirectoryEntries(d, current.sourcePath)
      ensures p !in recorded
    {
      assert current.sourcePath < p;
    }
  }

  lemma {:induction false} Subset<T>(a: set<T>, b: set<T>)
    requires a <= b
    ensures |a| <= |b|
    decreases |a|
  {
    if x :| x in a {
      Subset(a - {x}, b - {x});
    }
  }

  lemma WalkProgress(d: Disk, route: Route, current: PendingDirectory, pushed: seq<PendingDirectory>,
                     recorded: set<Path>, more: set<Path>)
    requires Pushed(d, route, DirectoryEntries(d, current.sourcePath), pushed)
    requires more == recorded + DirectoryEntries(d, current.sourcePath) && more <= Below(d, route.source)
    requires recorded !! DirectoryEntries(d, current.sourcePath)
    ensures |more| <= |Below(d, route.source)|
    ensures |recorded| < |more| || (more == recorded && pushed == [])
  {
    Subset(more, Below(d, route.source));
    if pushed != [] {
      assert pushed[0].sourcePath in more - recorded;
      assert recorded <= more - {pushed[0].sourcePath};
      Subset(recorded, more - {pushed[0].sourcePath});
    } else if p :| p in DirectoryEntries(d, current.sourcePath) {
      Subset(recorded, more - {p});
    }
  }

  /** The body of the walk: takes the last pending directory off the stack. */
  method WalkNext(d: Disk, pending: seq<PendingDirectory>, budget: Budget)
    returns (r: Outcome, more: seq<PendingDirectory>, ghost faulted: bool)
    requires d.WellFormed() && budget.Valid() && pending != []
    requires Walking(d, budget.route, pending, budget.recorded)
    modifies budget
    ensures r == Done ==>
      && d.IsDirectory(pending[|pending| - 1].sourcePath)
      && budget.Valid() && Walking(d, budget.route, more, budget.recorded)
      && |budget.recorded| <= |Below(d, budget.route.source)|
      && (|old(budget.recorded)| < |budget.recorded| || (budget.recorded == old(budget.recorded) && |more| < |pending|))
    ensures r.Failed? ==> !r.failure.AlreadyExists?
    ensures r.Failed? && !r.failure.Capacity? ==> faulted || !d.IsDirectory(budget.route.source)
    ensures r.Failed? && r.failure.Capacity? ==> !budget.route.Fits(budget.limits, Below(d, budget.route.source))
  {
    var current := pending[|pending| - 1];
    var rest := pending[..|pending| - 1];
    assert pending == rest + [current];
    FreshEntries(d, budget.route, rest, current, budget.recorded);
    r, more, faulted := VisitDirectory(d, current, rest, budget);
    ghost var recorded := old(budget.recorded) + DirectoryEntries(d, current.sourcePath);
    if r == Done {
      PrefixAndRest(rest, more);
      WalkStep(d, budget.route, rest, current, more[|rest|..], old(budget.recorded));
      WalkProgress(d, budget.route, current, more[|rest|..], old(budget.recorded), budget.recorded);
    } else if r.failure.Capacity? {
      RejectionJustified(budget.route, budget.limits, recorded, Below(d, budget.route.source));
    }
  }

  lemma WalkEnds(d: Disk, route: Route, recorded: set<Path>)
    requires Walking(d, route, [], recorded)
    ensures recorded == Below(d, route.source)
  {
  }

  /** The preflight passes exactly a tree that fits, unless a call fails or an abort fires, which `faulted` tells. */
  method AssertPromotionTreeWithinCapacity(d: Disk, source: Path, target: Path, limits: Limits)
    returns (r: Outcome, ghost faulted: bool)
    requires d.WellFormed()
    ensures r == Done ==> d.IsDirectory(source) && Route(source, target).Fits(limits, Below(d, source))
    ensures r.Failed? && r.failure.Capacity? ==> !Route(source, target).Fits(limits, Below(d, source))
    ensures r.Failed? ==> !r.failure.AlreadyExists?
    ensures r.Failed? && !r.failure.Capacity? ==> faulted || !d.IsDirectory(source)
  {
    faulted := false;
    ghost var route := Route(source, target);
    var budget := new Budget(limits, route);
    var pending := [PendingDirectory(source, target, 0)];
    WalkStart(d, route, pending[0]);
    while pending != []
      invariant budget.Valid() && budget.route == route && budget.limits == limits && fresh(budget)
      invariant Walking(d, route, pending, budget.recorded)
      invariant pending == [PendingDirectory(source, target, 0)] || d.IsDirectory(source)
      decreases |Below(d, source)| - |budget.recorded|, |pending|
    {
      var interrupted: Outcome := *;
      if interrupted == Failed(Aborted) {
        return interrupted, true;
      }
      r, pending, faulted := WalkNext(d, pending, budget);
      if r.Failed? {
        return r, faulted;
      }
    }
    WalkEnds(d, route, budget.recorded);
    r := Done;
  }
}
