/** The capacity budget of a folder promotion, and the order-independent meaning of "within capacity". */
module PromotionBudget {
  import opened Disk

  datatype Limits = Limits(maximumEntries: nat, maximumDepth: nat, maximumPathBytes: nat, maximumRetainedPathBytes: nat)

  const DEFAULT_LIMITS := Limits(50_000, 64, 64 * 1024, 16 * 1024 * 1024)

  datatype Reason = Entries | Depth | PathTooLong | Paths

  datatype Verdict = Accepted | Rejected(reason: Reason)

  datatype Failure = AlreadyExists | Aborted | Capacity(reason: Reason) | Io | UnexpectedEntry(name: Name)

  datatype Outcome = Done | Failed(failure: Failure) {
    predicate IsFailure() {
      Failed?
    }

    function PropagateFailure(): Outcome
      requires Failed?
    {
      this
    }
  }

  function Utf8Width(c: char): (width: nat)
    ensures 1 <= width <= 4
  {
    if c as int < 0x80 then 1 else if c as int < 0x800 then 2 else if c as int < 0x10000 then 3 else 4
  }

  function NameBytes(name: Name): nat {
    if name == [] then 0 else Utf8Width(name[0]) + NameBytes(name[1..])
  }

  /** The UTF-8 length of the joined path: every component and its separator. */
  function PathBytes(p: Path): nat {
    if p == [] then 0 else 1 + NameBytes(p[0]) + PathBytes(p[1..])
  }

  // ---- What the byte counts mean ----

  function Utf8(c: char): seq<byte> {
    var u := c as int;
    if u < 0x80 then [u as byte]
    else if u < 0x800 then [(0xc0 + u / 0x40) as byte, (0x80 + u % 0x40) as byte]
    else if u < 0x10000 then
      [(0xe0 + u / 0x1000) as byte, (0x80 + u / 0x40 % 0x40) as byte, (0x80 + u % 0x40) as byte]
    else
      [(0xf0 + u / 0x40000) as byte, (0x80 + u / 0x1000 % 0x40) as byte, (0x80 + u / 0x40 % 0x40) as byte,
       (0x80 + u % 0x40) as byte]
  }

  function Encoded(text: string): seq<byte> {
    if text == "" then [] else Utf8(text[0]) + Encoded(text[1..])
  }

  function JoinedPath(p: Path): string {
    if p == [] then "" else "/" + p[0] + JoinedPath(p[1..])
  }

  lemma {:induction false} EncodedLength(text: string, rest: string)
    ensures |Encoded(text + rest)| == NameBytes(text) + |Encoded(rest)|
    decreases |text|
  {
    if text == "" {
      assert text + rest == rest;
    } else {
      assert (text + rest)[1..] == text[1..] + rest;
      EncodedLength(text[1..], rest);
    }
  }

  /** A path costs as many bytes as its joined form has in UTF-8. */
  lemma {:induction false} PathBytesEncoded(p: Path)
    ensures PathBytes(p) == |Encoded(JoinedPath(p))|
    decreases |p|
  {
    if p != [] {
      PathBytesEncoded(p[1..]);
      EncodedLength("/" + p[0], JoinedPath(p[1..]));
      assert ("/" + p[0])[1..] == p[0];
    }
  }

  /** A promotion of the tree below `source` to the same names below `target`. */
  datatype Route = Route(source: Path, target: Path) {
    function Destination(p: Path): Path
      requires source <= p
    {
      Rebase(source, target, p)
    }

    ghost function Cost(p: Path): nat {
      if source <= p then PathBytes(p) + PathBytes(Destination(p)) else 0
    }

    ghost function TotalCost(entries: set<Path>): nat {
      if entries == {} then 0 else
      var p :| p in entries;
      Cost(p) + TotalCost(entries - {p})
    }

    ghost predicate EntryFits(limits: Limits, p: Path) {
      && source <= p
      && |p| - |source| <= limits.maximumDepth
      && PathBytes(p) <= limits.maximumPathBytes
      && PathBytes(Destination(p)) <= limits.maximumPathBytes
    }

    /** Capacity as a property of a set of entries: no order of visiting them plays a part. */
    ghost predicate Fits(limits: Limits, entries: set<Path>) {
      && |entries| <= limits.maximumEntries
      && TotalCost(entries) <= limits.maximumRetainedPathBytes
      && forall p :: p in entries ==> EntryFits(limits, p)
    }

    lemma {:induction false} TotalCostInsert(entries: set<Path>, p: Path)
      requires p !in entries
      ensures TotalCost(entries + {p}) == TotalCost(entries) + Cost(p)
      decreases |entries|
    {
      var all := entries + {p};
      var q :| q in all && TotalCost(all) == Cost(q) + TotalCost(all - {q});
      if q == p {
        assert all - {q} == entries;
      } else {
        assert all - {q} == (entries - {q}) + {p};
        TotalCostInsert(entries - {q}, p);
        TotalCostInsert(entries - {q}, q);
        assert (entries - {q}) + {q} == entries;
      }
    }

    lemma {:induction false} FitsSubset(limits: Limits, some: set<Path>, all: set<Path>)
      requires some <= all && Fits(limits, all)
      ensures Fits(limits, some)
      decreases |all|
    {
      if p :| p in all && p !in some {
        assert (all - {p}) + {p} == all;
        TotalCostInsert(all - {p}, p);
        FitsSubset(limits, some, all - {p});
      } else {
        assert some == all;
      }
    }
  }

  lemma RejectionJustified(route: Route, limits: Limits, some: set<Path>, more: set<Path>)
    requires !route.Fits(limits, some) && some <= more
    ensures !route.Fits(limits, more)
  {
    if route.Fits(limits, more) {
      route.FitsSubset(limits, some, more);
    }
  }

  lemma EntryRejectionJustified(route: Route, limits: Limits, recorded: set<Path>, more: set<Path>, p: Path)
    requires !route.Fits(limits, recorded + {p}) && recorded <= more && p in more
    ensures !route.Fits(limits, more)
  {
    RejectionJustified(route, limits, recorded + {p}, more);
  }

  lemma MoveOne<T>(base: set<T>, seen: set<T>, remaining: set<T>, p: T)
    requires seen !! remaining && p in remaining
    ensures seen + {p} !! remaining - {p}
    ensures (seen + {p}) + (remaining - {p}) == seen + remaining
    ensures (base + seen) + {p} == base + (seen + {p})
  {
  }

  class Budget {
    var entries: nat
    var retainedPathBytes: nat
    const limits: Limits
    ghost const route: Route
    ghost var recorded: set<Path>

    /** The counters describe the recorded entries, and those fit. */
    ghost predicate Valid()
      reads this
    {
      && entries == |recorded|
      && retainedPathBytes == route.TotalCost(recorded)
      && route.Fits(limits, recorded)
    }

    constructor (limits: Limits, ghost route: Route)
      ensures Valid() && recorded == {} && this.limits == limits && this.route == route
    {
      entries, retainedPathBytes := 0, 0;
      this.limits := limits;
      this.route := route;
      recorded := {};
    }

    /** An entry is accepted exactly when the recorded entries still fit with it. */
    method RecordEntry(source: Path, destination: Path, depth: nat) returns (verdict: Verdict)
      requires Valid() && source !in recorded
      requires route.source <= source && destination == route.Destination(source)
      requires depth == |source| - |route.source|
      modifies this
      ensures verdict == Accepted <==> route.Fits(limits, old(recorded) + {source})
      ensures verdict.Rejected? ==> recorded == old(recorded)
      ensures verdict == Accepted ==> Valid() && recorded == old(recorded) + {source}
      ensures verdict == Rejected(Depth) <==> depth > limits.maximumDepth
      ensures verdict == Rejected(Entries) <==>
        depth <= limits.maximumDepth && |old(recorded)| == limits.maximumEntries
      ensures verdict == Rejected(PathTooLong) <==>
        && depth <= limits.maximumDepth && |old(recorded)| < limits.maximumEntries
        && (PathBytes(source) > limits.maximumPathBytes || PathBytes(destination) > limits.maximumPathBytes)
      ensures verdict == Rejected(Paths) <==>
        && depth <= limits.maximumDepth && |old(recorded)| < limits.maximumEntries
        && PathBytes(source) <= limits.maximumPathBytes && PathBytes(destination) <= limits.maximumPathBytes
        && route.TotalCost(old(recorded) + {source}) > limits.maximumRetainedPathBytes
    {
      route.TotalCostInsert(recorded, source);
      ghost var more := recorded + {source};
      assert forall p :: p in more ==> p in recorded || p == source;
      assert source in more;
      if depth > limits.maximumDepth {
        return Rejected(Depth);
      }
      entries := entries + 1;
      if entries > limits.maximumEntries {
        return Rejected(Entries);
      }
      var sourceBytes := PathBytes(source);
      var destinationBytes := PathBytes(destination);
      if sourceBytes > limits.maximumPathBytes || destinationBytes > limits.maximumPathBytes {
        return Rejected(PathTooLong);
      }
      retainedPathBytes := retainedPathBytes + sourceBytes + destinationBytes;
      if retainedPathBytes > limits.maximumRetainedPathBytes {
        return Rejected(Paths);
      }
      recorded := more;
      return Accepted;
    }
  }
}
