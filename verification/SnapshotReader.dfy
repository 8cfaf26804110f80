/** The coalescing reader of the process table: requests, and the microtasks that start and settle scans, in any
    order that promises allow. Moments are counted by `clock`. */
module SnapshotReader {
  import opened Common

  /** One queued scan; `startedAt` is the moment at which it took its fresh reading. */
  datatype Entry = Entry(startedAt: Option<nat>, settled: bool, cleared: bool) {
    predicate Started() {
      startedAt.Some?
    }
  }

  /** A caller, and the entry whose promise it was given. */
  datatype Request = Request(madeAt: nat, entry: nat)

  datatype State = State(queued: Option<nat>, entries: seq<Entry>, requests: seq<Request>, clock: nat)

  datatype Event =
    | Asks
    | ScanStarts(id: nat)
    | ScanSettles(id: nat)
    | Clears(id: nat)

  /** A reader that nobody has used yet. */
  predicate Initial(s: State) {
    s.queued.None? && s.entries == [] && s.requests == [] && s.clock == 0
  }

  predicate Enabled(s: State, e: Event) {
    match e
    case Asks => true
    case ScanStarts(id) => id < |s.entries| && !s.entries[id].Started()
    case ScanSettles(id) => id < |s.entries| && s.entries[id].Started() && !s.entries[id].settled
    case Clears(id) => id < |s.entries| && s.entries[id].settled && !s.entries[id].cleared
  }

  function Ask(s: State): State {
    if s.queued.Some? && s.queued.value < |s.entries| && !s.entries[s.queued.value].Started() then
      s.(requests := s.requests + [Request(s.clock, s.queued.value)])
    else
      s.(queued := Some(|s.entries|),
         entries := s.entries + [Entry(None, false, false)],
         requests := s.requests + [Request(s.clock, |s.entries|)])
  }

  function Step(s: State, e: Event): State {
    if !Enabled(s, e) then s else
    var t :=
      match e
      case Asks => Ask(s)
      case ScanStarts(id) => s.(entries := s.entries[id := s.entries[id].(startedAt := Some(s.clock))])
      case ScanSettles(id) => s.(entries := s.entries[id := s.entries[id].(settled := true)])
      case Clears(id) =>
        s.(entries := s.entries[id := s.entries[id].(cleared := true)],
           queued := if s.queued == Some(id) then None else s.queued);
    t.(clock := s.clock + 1)
  }

  function Run(s: State, events: seq<Event>): State
    decreases |events|
  {
    if events == [] then s else Run(Step(s, events[0]), events[1..])
  }

  /** A scan that has not started is the queued one, and the queued one is the newest. */
  ghost predicate NewestQueued(s: State) {
    && (forall id :: 0 <= id < |s.entries| && !s.entries[id].Started() ==> s.queued == Some(id))
    && (s.queued.Some? ==> s.queued.value == |s.entries| - 1)
    && (forall id :: 0 <= id < |s.entries| && s.entries[id].settled ==> s.entries[id].Started())
  }

  ghost predicate Timed(s: State) {
    && (forall k :: 0 <= k < |s.requests| ==> s.requests[k].madeAt < s.clock && s.requests[k].entry < |s.entries|)
    && (forall id :: 0 <= id < |s.entries| && s.entries[id].Started() ==> s.entries[id].startedAt.value < s.clock)
    && (forall i, j :: 0 <= i < j < |s.requests| ==>
          s.requests[i].madeAt < s.requests[j].madeAt && s.requests[i].entry <= s.requests[j].entry)
  }

  /** The scan that answers a request starts after the request was made. */
  ghost predicate Fresh(s: State) {
    forall k :: 0 <= k < |s.requests| && s.requests[k].entry < |s.entries|
                && s.entries[s.requests[k].entry].Started() ==>
      s.requests[k].madeAt < s.entries[s.requests[k].entry].startedAt.value
  }

  /** Requests made before a scan starts, and after some request was given that scan, are given it too. */
  ghost predicate Shared(s: State) {
    forall i, j :: 0 <= i < j < |s.requests| && s.requests[i].entry < |s.entries|
                   && (s.entries[s.requests[i].entry].Started() ==>
                         s.requests[j].madeAt < s.entries[s.requests[i].entry].startedAt.value) ==>
      s.requests[j].entry == s.requests[i].entry
  }

  ghost predicate AskedFor(requests: seq<Request>, id: nat) {
    exists k :: 0 <= k < |requests| && requests[k].entry == id
  }

  /** No scan runs that nobody asked for. */
  ghost predicate Wanted(s: State) {
    forall id :: 0 <= id < |s.entries| ==> AskedFor(s.requests, id)
  }

  ghost predicate Inv(s: State) {
    NewestQueued(s) && Timed(s) && Fresh(s) && Shared(s) && Wanted(s)
  }

  lemma AskKeepsOrder(s: State)
    requires Inv(s)
    ensures var t := Step(s, Asks); NewestQueued(t) && Timed(t) && Fresh(t)
  {
  }

  lemma AskKeepsSharing(s: State)
    requires Inv(s)
    ensures Shared(Step(s, Asks))
  {
  }

  lemma AskKeepsWanted(s: State)
    requires Inv(s)
    ensures Wanted(Step(s, Asks))
  {
    var t := Step(s, Asks);
    forall id | 0 <= id < |t.entries|
      ensures AskedFor(t.requests, id)
    {
      if id < |s.entries| {
        assert AskedFor(s.requests, id);
        var k :| 0 <= k < |s.requests| && s.requests[k].entry == id;
        assert t.requests[k].entry == id;
      } else {
        assert t.requests[|s.requests|].entry == id;
      }
    }
  }

  lemma StartKeepsOrder(s: State, id: nat)
    requires Inv(s) && Enabled(s, ScanStarts(id))
    ensures var t := Step(s, ScanStarts(id)); NewestQueued(t) && Timed(t) && Wanted(t)
  {
  }

  lemma StartKeepsFreshness(s: State, id: nat)
    requires Inv(s) && Enabled(s, ScanStarts(id))
    ensures var t := Step(s, ScanStarts(id)); Fresh(t) && Shared(t)
  {
  }

  lemma EndKeepsOrder(s: State, e: Event)
    requires Inv(s) && Enabled(s, e) && (e.ScanSettles? || e.Clears?)
    ensures var t := Step(s, e); NewestQueued(t) && Timed(t) && Wanted(t)
  {
  }

  lemma EndKeepsFreshness(s: State, e: Event)
    requires Inv(s) && Enabled(s, e) && (e.ScanSettles? || e.Clears?)
    ensures var t := Step(s, e); Fresh(t) && Shared(t)
  {
    var t := Step(s, e);
    assert forall i :: 0 <= i < |s.entries| ==> t.entries[i].startedAt == s.entries[i].startedAt;
  }

  lemma StepKeeps(s: State, e: Event)
    requires Inv(s)
    ensures Inv(Step(s, e))
  {
    if e.Asks? {
      AskKeepsOrder(s);
      AskKeepsSharing(s);
      AskKeepsWanted(s);
    } else if Enabled(s, e) {
      if e.ScanStarts? {
        StartKeepsOrder(s, e.id);
        StartKeepsFreshness(s, e.id);
      } else {
        EndKeepsOrder(s, e);
        EndKeepsFreshness(s, e);
      }
    }
  }

  lemma {:induction false} RunKeeps(s: State, events: seq<Event>)
    requires Inv(s)
    ensures Inv(Run(s, events))
    decreases |events|
  {
    if events == [] {
    } else {
      StepKeeps(s, events[0]);
      RunKeeps(Step(s, events[0]), events[1..]);
    }
  }

  /** In every run: no request is answered by a scan that started before it, requests that precede the start of
      the queued scan share it, and no other scan is made. */
  lemma CoalescingIsFresh(start: State, events: seq<Event>)
    requires Initial(start)
    ensures var s := Run(start, events); Fresh(s) && Shared(s) && Wanted(s)
  {
    RunKeeps(start, events);
  }

  /** Completion of an older scan never clears a newer entry: only the newest entry can clear the queue, and a scan
      that waits to start stays queued whatever settles. */
  lemma OlderScanNeverClears(s: State, id: nat)
    requires Inv(s)
    ensures var t := Step(s, Clears(id));
      && (t.queued != s.queued ==> t.queued.None? && id == |s.entries| - 1)
      && (Enabled(s, Clears(id)) && id == |s.entries| - 1 ==> t.queued.None?)
      && (forall i :: 0 <= i < |t.entries| && !t.entries[i].Started() ==> t.queued == Some(i))
  {
    StepKeeps(s, Clears(id));
  }

  /** No request is stuck: once its scan has started and settled, which both can happen, it has a table read later
      than it was made. */
  lemma RequestsCanBeAnswered(s: State, k: nat)
    requires Inv(s) && k < |s.requests|
    ensures var id := s.requests[k].entry;
      var t := Step(Step(s, ScanStarts(id)), ScanSettles(id));
      && id < |t.entries| && t.entries[id].settled
      && t.entries[id].Started() && t.entries[id].startedAt.value > s.requests[k].madeAt
  {
    var id := s.requests[k].entry;
    StepKeeps(s, ScanStarts(id));
    StepKeeps(Step(s, ScanStarts(id)), ScanSettles(id));
    assert Step(Step(s, ScanStarts(id)), ScanSettles(id)).requests[k] == s.requests[k];
  }

  /** The closure state of `createProcessTableSnapshotReader`, and the promise callbacks that touch it. */
  class Reader {
    var queued: Option<nat>
    var entries: seq<Entry>
    ghost var requests: seq<Request>
    var clock: nat

    ghost function Abstract(): State
      reads this
    {
      State(queued, entries, requests, clock)
    }

    ghost predicate Valid()
      reads this
    {
      Inv(Abstract())
    }

    constructor ()
      ensures Valid() && Initial(Abstract())
    {
      queued, entries, requests, clock := None, [], [], 0;
    }

    method ReadTable() returns (entry: nat)
      requires Valid()
      modifies this
      ensures Abstract() == Step(old(Abstract()), Asks)
      ensures requests == old(requests) + [Request(old(clock), entry)]
      ensures queued == Some(entry) && entry < |entries| && !entries[entry].Started()
      ensures Valid()
    {
      StepKeeps(Abstract(), Asks);
      if queued.Some? && !entries[queued.value].Started() {
        entry := queued.value;
      } else {
        entry := |entries|;
        entries := entries + [Entry(None, false, false)];
        queued := Some(entry);
      }
      requests, clock := requests + [Request(clock, entry)], clock + 1;
    }

    /** The queued microtask: mark the entry as started and take the fresh reading. */
    method StartScan(id: nat)
      requires Valid() && Enabled(Abstract(), ScanStarts(id))
      modifies this
      ensures Abstract() == Step(old(Abstract()), ScanStarts(id))
      ensures Valid()
    {
      StepKeeps(Abstract(), ScanStarts(id));
      entries := entries[id := entries[id].(startedAt := Some(clock))];
      clock := clock + 1;
    }

    method SettleScan(id: nat)
      requires Valid() && Enabled(Abstract(), ScanSettles(id))
      modifies this
      ensures Abstract() == Step(old(Abstract()), ScanSettles(id))
      ensures Valid()
    {
      StepKeeps(Abstract(), ScanSettles(id));
      entries := entries[id := entries[id].(settled := true)];
      clock := clock + 1;
    }

    method ClearQueued(id: nat)
      requires Valid() && Enabled(Abstract(), Clears(id))
      modifies this
      ensures Abstract() == Step(old(Abstract()), Clears(id))
      ensures Valid()
    {
      StepKeeps(Abstract(), Clears(id));
      entries := entries[id := entries[id].(cleared := true)];
      if queued == Some(id) {
        queued := None;
      }
      clock := clock + 1;
    }
  }
}
