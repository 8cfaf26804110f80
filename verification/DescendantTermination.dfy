/** Signalling a snapshotted descendant tree, and why the delayed SIGKILL never hits a process that merely
    inherited a pid: a world of processes whose start times `ps` shows only to the second. */
module DescendantTermination {
  import opened Common
  import opened ProcessTree

  datatype Signal = SIGTERM | SIGKILL

  datatype Sent = Sent(pid: int, signal: Signal)

  datatype Capture = Capture(rows: seq<Row>, capturedAtMs: int)

  /** `Date.parse` of the displayed start time: milliseconds, or None for NaN. */
  type Clock = string -> Option<int>

  predicate HasUnambiguousStartIdentity(row: Row, capturedAtMs: int, parse: Clock) {
    var startedAtMs := parse(row.startedAt);
    startedAtMs.Some? && startedAtMs.value < capturedAtMs / 1_000 * 1_000
  }

  // ---- Which survivors are escalated ----

  /** The only row of the table with this pid. */
  ghost predicate OnlyRow(rows: seq<Row>, row: Row) {
    exists i :: 0 <= i < |rows| && rows[i] == row && forall j :: 0 <= j < |rows| && rows[j].pid == row.pid ==> j == i
  }

  ghost predicate Survives(descendant: Row, rows: seq<Row>) {
    exists live :: OnlyRow(rows, live) && live.pid == descendant.pid
                   && live.startedAt == descendant.startedAt && live.pgid == descendant.pgid
  }

  ghost predicate Escalates(descendant: Row, snapshot: Snapshot, rows: seq<Row>, parse: Clock) {
    HasUnambiguousStartIdentity(descendant, snapshot.capturedAtMs, parse) && Survives(descendant, rows)
  }

  ghost predicate Overdue(d: Row, capturedAtMs: int, parse: Clock) {
    parse(d.startedAt).Some? && parse(d.startedAt).value < capturedAtMs - capturedAtMs % 1_000
  }

  ghost predicate StillThere(d: Row, rows: seq<Row>) {
    exists i :: 0 <= i < |rows|
                && rows[i].pid == d.pid && rows[i].startedAt == d.startedAt && rows[i].pgid == d.pgid
                && forall j :: 0 <= j < |rows| && j != i ==> rows[j].pid != d.pid
  }

  lemma SurvivesIff(d: Row, rows: seq<Row>)
    ensures Survives(d, rows) <==> StillThere(d, rows)
  {
    if StillThere(d, rows) {
      var i :| 0 <= i < |rows|
               && rows[i].pid == d.pid && rows[i].startedAt == d.startedAt && rows[i].pgid == d.pgid
               && forall j :: 0 <= j < |rows| && j != i ==> rows[j].pid != d.pid;
      assert OnlyRow(rows, rows[i]);
    }
  }

  /** The SIGKILLs for the given descendants, in their order. */
  ghost function Kills(descendants: seq<Row>, snapshot: Snapshot, rows: seq<Row>, parse: Clock): seq<Sent> {
    if descendants == [] then [] else
    var n := |descendants| - 1;
    Kills(descendants[..n], snapshot, rows, parse) +
    (if Escalates(descendants[n], snapshot, rows, parse) then [Sent(descendants[n].pid, SIGKILL)] else [])
  }

  lemma {:induction false} KilledEscalates(descendants: seq<Row>, snapshot: Snapshot, rows: seq<Row>, parse: Clock,
                                           sent: Sent)
    ensures sent in Kills(descendants, snapshot, rows, parse) <==>
      sent.signal == SIGKILL && exists d :: d in descendants && d.pid == sent.pid && Escalates(d, snapshot, rows, parse)
    decreases |descendants|
  {
    if descendants == [] {
    } else {
      var n := |descendants| - 1;
      assert descendants == descendants[..n] + [descendants[n]];
      KilledEscalates(descendants[..n], snapshot, rows, parse, sent);
    }
  }

  /** In so many words: a pid gets SIGKILL exactly if it is that of a descendant whose displayed start parses to a
      second before the stamp's, and the second scan has just one row with that pid, with the same start and group. */
  lemma KilledIff(descendants: seq<Row>, snapshot: Snapshot, rows: seq<Row>, parse: Clock, pid: int)
    ensures Sent(pid, SIGKILL) in Kills(descendants, snapshot, rows, parse) <==>
      exists d :: d in descendants && d.pid == pid && Overdue(d, snapshot.capturedAtMs, parse) && StillThere(d, rows)
    ensures Sent(pid, SIGTERM) !in Kills(descendants, snapshot, rows, parse)
  {
    KilledEscalates(descendants, snapshot, rows, parse, Sent(pid, SIGKILL));
    KilledEscalates(descendants, snapshot, rows, parse, Sent(pid, SIGTERM));
    forall d | d in descendants
      ensures Escalates(d, snapshot, rows, parse) <==> Overdue(d, snapshot.capturedAtMs, parse) && StillThere(d, rows)
    {
      SurvivesIff(d, rows);
    }
  }

  /** The SIGKILLs go out in the order of the descendants, at most one for each. */
  lemma {:induction false} KillsInOrder(descendants: seq<Row>, snapshot: Snapshot, rows: seq<Row>, parse: Clock,
                                        i: nat, j: nat)
    requires i < j < |Kills(descendants, snapshot, rows, parse)|
    ensures var kills := Kills(descendants, snapshot, rows, parse);
      exists a, b :: 0 <= a < b < |descendants|
                     && descendants[a].pid == kills[i].pid && descendants[b].pid == kills[j].pid
    decreases |descendants|
  {
    var n := |descendants| - 1;
    var before := Kills(descendants[..n], snapshot, rows, parse);
    var kills := Kills(descendants, snapshot, rows, parse);
    assert before <= kills;
    if j < |before| {
      KillsInOrder(descendants[..n], snapshot, rows, parse, i, j);
      var a, b :| 0 <= a < b < n
                  && descendants[..n][a].pid == before[i].pid && descendants[..n][b].pid == before[j].pid;
      assert descendants[a].pid == kills[i].pid && descendants[b].pid == kills[j].pid;
    } else {
      assert kills[i] == before[i] && before[i] in before;
      KilledEscalates(descendants[..n], snapshot, rows, parse, before[i]);
      var d :| d in descendants[..n] && d.pid == before[i].pid;
      var a :| 0 <= a < n && descendants[..n][a] == d;
      assert descendants[a].pid == kills[i].pid && descendants[n].pid == kills[j].pid;
    }
  }

  // ---- The code ----

  datatype Target = Absent | Unique(row: Row) | Ambiguous

  function TargetOf(rows: seq<Row>, pid: int): Target {
    if rows == [] then Absent else
    var n := |rows| - 1;
    var before := TargetOf(rows[..n], pid);
    if rows[n].pid != pid then before else if before == Absent then Unique(rows[n]) else Ambiguous
  }

  ghost predicate TargetMeans(rows: seq<Row>, pid: int, target: Target) {
    match target
    case Absent => forall i :: 0 <= i < |rows| ==> rows[i].pid != pid
    case Unique(row) => row.pid == pid && OnlyRow(rows, row)
    case Ambiguous => exists i, j :: 0 <= i < j < |rows| && rows[i].pid == rows[j].pid == pid
  }

  lemma TargetStays(rows: seq<Row>, row: Row, pid: int, target: Target)
    requires TargetMeans(rows, pid, target) && row.pid != pid
    ensures TargetMeans(rows + [row], pid, target)
  {
    var more := rows + [row];
    match target {
      case Absent =>
      case Unique(only) =>
        var i :| 0 <= i < |rows| && rows[i] == only
                 && forall j :: 0 <= j < |rows| && rows[j].pid == only.pid ==> j == i;
        assert more[i] == only;
      case Ambiguous =>
        var i, j :| 0 <= i < j < |rows| && rows[i].pid == rows[j].pid == pid;
        assert more[i].pid == more[j].pid == pid;
    }
  }

  lemma TargetMoves(rows: seq<Row>, row: Row, target: Target)
    requires TargetMeans(rows, row.pid, target)
    ensures TargetMeans(rows + [row], row.pid, if target == Absent then Unique(row) else Ambiguous)
  {
    var more := rows + [row];
    assert more[|rows|] == row;
    match target {
      case Absent =>
      case Unique(only) =>
        var i :| 0 <= i < |rows| && rows[i] == only;
        assert more[i].pid == more[|rows|].pid == row.pid;
      case Ambiguous =>
        var i, j :| 0 <= i < j < |rows| && rows[i].pid == rows[j].pid == row.pid;
        assert more[i].pid == more[j].pid == row.pid;
    }
  }

  lemma {:induction false} TargetOfMeans(rows: seq<Row>, pid: int)
    ensures TargetMeans(rows, pid, TargetOf(rows, pid))
    decreases |rows|
  {
    if rows == [] {
    } else {
      var n := |rows| - 1;
      TargetOfMeans(rows[..n], pid);
      assert rows == rows[..n] + [rows[n]];
      if rows[n].pid != pid {
        TargetStays(rows[..n], rows[n], pid, TargetOf(rows[..n], pid));
      } else {
        TargetMoves(rows[..n], rows[n], TargetOf(rows[..n], pid));
      }
    }
  }

  /** The map of live targets: null marks a pid with duplicate rows. */
  ghost predicate Indexes(live: map<int, Option<Row>>, expected: set<int>, rows: seq<Row>) {
    forall pid :: pid in expected ==>
      match TargetOf(rows, pid)
      case Absent => pid !in live
      case Unique(row) => pid in live && live[pid] == Some(row)
      case Ambiguous => pid in live && live[pid] == None
  }

  lemma IndexesStep(live: map<int, Option<Row>>, expected: set<int>, rows: seq<Row>, row: Row)
    requires Indexes(live, expected, rows)
    ensures row.pid !in expected ==> Indexes(live, expected, rows + [row])
    ensures row.pid in expected ==>
      Indexes(live[row.pid := if row.pid in live then None else Some(row)], expected, rows + [row])
  {
    assert (rows + [row])[..|rows|] == rows;
  }

  lemma IndexDecides(live: map<int, Option<Row>>, expected: set<int>, rows: seq<Row>, d: Row)
    requires Indexes(live, expected, rows) && d.pid in expected
    ensures Survives(d, rows) <==>
      && d.pid in live && live[d.pid].Some?
      && live[d.pid].value.startedAt == d.startedAt && live[d.pid].value.pgid == d.pgid
  {
    TargetOfMeans(rows, d.pid);
  }

  /** The grace timer's callback, once the table was read again or the read failed. */
  method EscalateSurvivors(snapshot: Snapshot, capture: Option<Capture>, parse: Clock) returns (sent: seq<Sent>)
    ensures capture.None? ==> sent == []
    ensures capture.Some? ==> sent == Kills(snapshot.descendants, snapshot, capture.value.rows, parse)
  {
    sent := [];
    if capture.None? {
      return;
    }
    var rows := capture.value.rows;
    var expectedPids := Pids(snapshot.descendants);
    var liveTargets: map<int, Option<Row>> := map[];
    for k := 0 to |rows|
      invariant Indexes(liveTargets, expectedPids, rows[..k])
    {
      var live := rows[k];
      assert rows[..k + 1] == rows[..k] + [live];
      IndexesStep(liveTargets, expectedPids, rows[..k], live);
      if live.pid in expectedPids {
        liveTargets := liveTargets[live.pid := if live.pid in liveTargets then None else Some(live)];
      }
    }
    assert rows[..|rows|] == rows;
    for k := 0 to |snapshot.descendants|
      invariant sent == Kills(snapshot.descendants[..k], snapshot, rows, parse)
    {
      var row := snapshot.descendants[k];
      assert snapshot.descendants[..k + 1][..k] == snapshot.descendants[..k];
      assert row in snapshot.descendants;
      IndexDecides(liveTargets, expectedPids, rows, row);
      var live := if row.pid in liveTargets then liveTargets[row.pid] else None;
      if HasUnambiguousStartIdentity(row, snapshot.capturedAtMs, parse)
         && live.Some? && live.value.startedAt == row.startedAt && live.value.pgid == row.pgid {
        sent := sent + [Sent(row.pid, SIGKILL)];
      }
    }
    assert snapshot.descendants[..|snapshot.descendants|] == snapshot.descendants;
  }

  /** SIGTERM to the descendants, in order; `faultyAt` says at which one the sender throws, if it does at all.
      The escalation is scheduled only if there is a descendant and nothing was thrown. */
  method TerminateDescendantSnapshot(snapshot: Snapshot, faultyAt: Option<nat>)
    returns (sent: seq<Sent>, scheduled: bool, threw: bool)
    ensures threw <==> faultyAt.Some? && faultyAt.value < |snapshot.descendants|
    ensures |sent| == if threw then faultyAt.value else |snapshot.descendants|
    ensures forall k :: 0 <= k < |sent| ==> sent[k] == Sent(snapshot.descendants[k].pid, SIGTERM)
    ensures scheduled <==> !threw && snapshot.descendants != []
  {
    sent := [];
    for k := 0 to |snapshot.descendants|
      invariant |sent| == k && (faultyAt.Some? ==> k <= faultyAt.value)
      invariant forall i :: 0 <= i < k ==> sent[i] == Sent(snapshot.descendants[i].pid, SIGTERM)
    {
      if faultyAt == Some(k) {
        return sent, false, true;
      }
      sent := sent + [Sent(snapshot.descendants[k].pid, SIGTERM)];
    }
    return sent, |snapshot.descendants| > 0, false;
  }

  datatype Action = Signalled(sent: Sent) | RootKilled

  /** `killWithDescendantSweep` after the snapshot settled, with what asking for the root's ownership gives, None if
      that throws. The root is killed once, last, in every case, also if anything throws before. */
  method KillWithDescendantSweep(snapshot: Option<Snapshot>, ownsRoot: Option<bool>, faultyAt: Option<nat>)
    returns (actions: seq<Action>, threw: bool)
    ensures threw <==>
      && snapshot.Some?
      && (ownsRoot.None? || (ownsRoot.value && faultyAt.Some? && faultyAt.value < |snapshot.value.descendants|))
    ensures actions != [] && actions[|actions| - 1] == RootKilled
    ensures snapshot.None? || ownsRoot != Some(true) ==> actions == [RootKilled]
    ensures snapshot.Some? && ownsRoot == Some(true) ==>
      && |actions| == (if threw then faultyAt.value else |snapshot.value.descendants|) + 1
      && forall k :: 0 <= k < |actions| - 1 ==>
           actions[k] == Signalled(Sent(snapshot.value.descendants[k].pid, SIGTERM))
  {
    actions, threw := [], false;
    if snapshot.Some? {
      if ownsRoot.None? {
        threw := true;
      } else if ownsRoot.value {
        var sent, _, sendingThrew := TerminateDescendantSnapshot(snapshot.value, faultyAt);
        threw := sendingThrew;
        actions := seq(|sent|, i requires 0 <= i < |sent| => Signalled(sent[i]));
      }
    }
    actions := actions + [RootKilled];
  }

  // ---- The world ----

  /** One process instance; `id` tells two instances with the same pid apart. */
  datatype Process = Process(id: nat, pid: int, startMs: int, endMs: Option<int>) {
    predicate Alive(atMs: int) {
      startMs <= atMs && (endMs.Some? ==> atMs < endMs.value)
    }
  }

  /** At any moment a pid belongs to at most one live process. */
  ghost predicate OneLivePerPid(world: set<Process>) {
    forall p, q :: p in world && q in world && p.pid == q.pid && p != q ==>
      forall t: int :: !(p.Alive(t) && q.Alive(t))
  }

  /** `show` is how `ps` prints a second, and `parse` reads it back; times of day are not repeated. */
  ghost predicate ReadsSeconds(show: int -> string, parse: Clock) {
    forall second: int :: parse(show(second)) == Some(second * 1_000)
  }

  /** The row shows this process as `ps` saw it at some moment. */
  ghost predicate Shows(row: Row, p: Process, atMs: int, show: int -> string) {
    p.pid == row.pid && p.Alive(atMs) && row.startedAt == show(p.startMs / 1_000)
  }

  /** The heart of the argument: an unambiguous row seen again after the first scan is the same process. */
  lemma SameInstance(world: set<Process>, show: int -> string, parse: Clock, capturedAtMs: int,
                     row: Row, p: Process, seenAtMs: int, live: Row, q: Process, seenAgainAtMs: int)
    requires OneLivePerPid(world) && ReadsSeconds(show, parse)
    requires p in world && Shows(row, p, seenAtMs, show) && capturedAtMs <= seenAtMs
    requires q in world && Shows(live, q, seenAgainAtMs, show) && seenAtMs <= seenAgainAtMs
    requires live.pid == row.pid && live.startedAt == row.startedAt
    requires HasUnambiguousStartIdentity(row, capturedAtMs, parse)
    ensures p == q
  {
    var second := p.startMs / 1_000;
    assert parse(show(second)) == Some(second * 1_000);
    assert parse(show(q.startMs / 1_000)) == Some(q.startMs / 1_000 * 1_000);
    assert q.startMs / 1_000 == second;
    assert q.startMs < capturedAtMs;
    assert q.Alive(seenAtMs);
  }

  /** A scan's rows, each showing some process at some moment of the scan. */
  ghost predicate Honest(world: set<Process>, show: int -> string, rows: seq<Row>, fromMs: int, toMs: int) {
    forall row :: row in rows ==>
      exists p, atMs: int :: p in world && fromMs <= atMs <= toMs && Shows(row, p, atMs, show)
  }

  /** PID-reuse safety of the whole sweep. Two honest scans, the first not before its stamp and the second after
      the first: each SIGKILL goes to a pid whose row in the second scan is the very process that the snapshot
      found among the root's descendants. */
  lemma KillsOnlySnapshottedProcesses(world: set<Process>, show: int -> string, parse: Clock, root: int,
                                      table: seq<Row>, snapshot: Snapshot, firstEndMs: int,
                                      second: Capture, secondEndMs: int, sent: Sent, q: Process, atMs: int)
    requires OneLivePerPid(world) && ReadsSeconds(show, parse)
    requires Honest(world, show, table, snapshot.capturedAtMs, firstEndMs)
    requires IsDescendantList(root, table, snapshot.descendants)
    requires sent in Kills(snapshot.descendants, snapshot, second.rows, parse)
    // q is the process that a row of the second scan shows under this pid
    requires q in world && q.pid == sent.pid && firstEndMs <= atMs <= secondEndMs
    requires exists live :: live in second.rows && Shows(live, q, atMs, show)
    ensures sent.signal == SIGKILL && Descends(root, table, sent.pid)
    ensures exists d, seenAtMs: int :: d in snapshot.descendants && snapshot.capturedAtMs <= seenAtMs <= firstEndMs
                                       && Shows(d, q, seenAtMs, show)
  {
    KilledEscalates(snapshot.descendants, snapshot, second.rows, parse, sent);
    var d :| d in snapshot.descendants && d.pid == sent.pid && Escalates(d, snapshot, second.rows, parse);
    var k :| 0 <= k < |snapshot.descendants| && snapshot.descendants[k] == d;
    assert Listed(snapshot.descendants, d.pid);
    var live :| live in second.rows && Shows(live, q, atMs, show);
    var same :| OnlyRow(second.rows, same) && same.pid == d.pid
                 && same.startedAt == d.startedAt && same.pgid == d.pgid;
    assert live == same;
    var p, seenAtMs: int :|
      p in world && snapshot.capturedAtMs <= seenAtMs <= firstEndMs && Shows(d, p, seenAtMs, show);
    SameInstance(world, show, parse, snapshot.capturedAtMs, d, p, seenAtMs, live, q, atMs);
  }

  /** And there is such a process for every SIGKILL. */
  lemma EveryKillHitsASnapshottedProcess(world: set<Process>, show: int -> string, parse: Clock, root: int,
                                         table: seq<Row>, snapshot: Snapshot, firstEndMs: int,
                                         second: Capture, secondEndMs: int, sent: Sent)
    requires OneLivePerPid(world) && ReadsSeconds(show, parse)
    requires Honest(world, show, table, snapshot.capturedAtMs, firstEndMs)
    requires Honest(world, show, second.rows, firstEndMs, secondEndMs)
    requires IsDescendantList(root, table, snapshot.descendants)
    requires sent in Kills(snapshot.descendants, snapshot, second.rows, parse)
    ensures exists q, d, live, seenAtMs: int, atMs: int ::
      && q in world && d in snapshot.descendants && live in second.rows && live.pid == sent.pid
      && snapshot.capturedAtMs <= seenAtMs <= firstEndMs <= atMs <= secondEndMs
      && Shows(d, q, seenAtMs, show) && Shows(live, q, atMs, show)
  {
    KilledEscalates(snapshot.descendants, snapshot, second.rows, parse, sent);
    var escalated :| escalated in snapshot.descendants && escalated.pid == sent.pid
                     && Escalates(escalated, snapshot, second.rows, parse);
    var live :| OnlyRow(second.rows, live) && live.pid == escalated.pid;
    assert live in second.rows;
    var q, atMs: int :| q in world && firstEndMs <= atMs <= secondEndMs && Shows(live, q, atMs, show);
    KillsOnlySnapshottedProcesses(world, show, parse, root, table, snapshot, firstEndMs, second, secondEndMs, sent, q,
                                  atMs);
    var d, seenAtMs: int :| d in snapshot.descendants && snapshot.capturedAtMs <= seenAtMs <= firstEndMs
                            && Shows(d, q, seenAtMs, show);
  }

  /** A survivor is killed. Let the snapshot hold a row of a process that started in a second before the stamp's, and
      let the second scan show that process in the only row with its pid, in the same group: then SIGKILL is sent to it,
      whatever else the two scans hold. */
  lemma SurvivorsAreKilled(show: int -> string, parse: Clock, snapshot: Snapshot, second: Capture,
                           d: Row, p: Process, seenAtMs: int, i: nat, seenAgainAtMs: int)
    requires ReadsSeconds(show, parse)
    requires d in snapshot.descendants && Shows(d, p, seenAtMs, show)
    requires p.startMs / 1_000 < snapshot.capturedAtMs / 1_000
    requires i < |second.rows| && Shows(second.rows[i], p, seenAgainAtMs, show) && second.rows[i].pgid == d.pgid
    requires forall j :: 0 <= j < |second.rows| && j != i ==> second.rows[j].pid != p.pid
    ensures Sent(p.pid, SIGKILL) in Kills(snapshot.descendants, snapshot, second.rows, parse)
  {
    assert parse(show(p.startMs / 1_000)) == Some(p.startMs / 1_000 * 1_000);
    assert StillThere(d, second.rows);
    KilledIff(snapshot.descendants, snapshot, second.rows, parse, p.pid);
  }

  /** Two processes with one pid, both started in the given second, one seen at or after the stamp and the other later:
      their rows read the same. */
  ghost predicate Confusable(capturedAtMs: int, second: int, pid: int) {
    exists p: Process, q: Process, seenAtMs: int, seenAgainAtMs: int ::
      && p != q && OneLivePerPid({p, q}) && p.pid == q.pid == pid
      && p.startMs / 1_000 == q.startMs / 1_000 == second
      && capturedAtMs <= seenAtMs <= seenAgainAtMs && p.Alive(seenAtMs) && q.Alive(seenAgainAtMs)
  }

  lemma OpenSecondIsConfusable(capturedAtMs: int, second: int, pid: int)
    requires capturedAtMs < second * 1_000 + 999
    ensures Confusable(capturedAtMs, second, pid)
  {
    var start := second * 1_000;
    var seen := if capturedAtMs <= start then start else capturedAtMs;
    var p := Process(0, pid, start, Some(seen + 1));
    var q := Process(1, pid, seen + 1, None);
    assert p.Alive(seen) && q.Alive(seen + 1);
    assert p.startMs / 1_000 == second && q.startMs / 1_000 == second;
  }

  /** A pid can change hands between the two scans, while both rows read the same, exactly in a second of which at least
      a millisecond is left at the capture stamp. */
  lemma GateIsTight(capturedAtMs: int, second: int, pid: int)
    ensures Confusable(capturedAtMs, second, pid) <==> capturedAtMs < second * 1_000 + 999
  {
    if capturedAtMs < second * 1_000 + 999 {
      OpenSecondIsConfusable(capturedAtMs, second, pid);
    } else {
      forall p: Process, q: Process, seenAtMs: int, seenAgainAtMs: int |
        p.startMs / 1_000 == q.startMs / 1_000 == second && capturedAtMs <= seenAtMs <= seenAgainAtMs
        && p.Alive(seenAtMs) && q.Alive(seenAgainAtMs)
        ensures q.Alive(seenAtMs)
      {
        assert q.startMs <= second * 1_000 + 999;
      }
    }
  }

  /** The gate passes a row exactly if its second cannot be confused, but for the second's very last millisecond, in
      which it still refuses. */
  lemma GateIsAMillisecondLate(show: int -> string, parse: Clock, row: Row, capturedAtMs: int, second: int, pid: int)
    requires ReadsSeconds(show, parse) && row.startedAt == show(second)
    ensures HasUnambiguousStartIdentity(row, capturedAtMs, parse)
       <==> !Confusable(capturedAtMs, second, pid) && capturedAtMs != second * 1_000 + 999
  {
    GateIsTight(capturedAtMs, second, pid);
    assert parse(show(second)) == Some(second * 1_000);
  }
}
