/** The descendants of a process in a process table that need not be consistent. */
module ProcessTree {
  import opened Common

  datatype Row = Row(pid: int, ppid: int, pgid: int, startedAt: string)

  datatype Snapshot = Snapshot(rootPgid: Option<int>, descendants: seq<Row>, capturedAtMs: int)

  // ---- What a descendant is ----

  /** A chain of rows that leads from the root to its last row by parent links. */
  ghost predicate IsChain(root: int, table: seq<Row>, chain: seq<Row>) {
    && chain != []
    && (forall i :: 0 <= i < |chain| ==> chain[i] in table && chain[i].pid != root)
    && chain[0].ppid == root
    && (forall i :: 0 < i < |chain| ==> chain[i].ppid == chain[i - 1].pid)
  }

  ghost predicate Descends(root: int, table: seq<Row>, pid: int) {
    exists chain: seq<Row> :: IsChain(root, table, chain) && chain[|chain| - 1].pid == pid
  }

  predicate Present(root: int, table: seq<Row>) {
    exists row :: row in table && row.pid == root
  }

  /** The last row of the table with this pid. */
  ghost predicate LastRow(pid: int, table: seq<Row>, row: Row) {
    exists i :: 0 <= i < |table| && table[i] == row && row.pid == pid
                && forall j :: i < j < |table| ==> table[j].pid != pid
  }

  ghost predicate Listed(rows: seq<Row>, pid: int) {
    exists i :: 0 <= i < |rows| && rows[i].pid == pid
  }

  ghost predicate ParentFirst(root: int, rows: seq<Row>, k: nat)
    requires k < |rows|
  {
    rows[k].ppid == root || exists i :: 0 <= i < k && rows[i].pid == rows[k].ppid
  }

  /** Exactly the descendants of `root`, each once and after its parent, never `root` itself. */
  ghost predicate IsDescendantList(root: int, table: seq<Row>, rows: seq<Row>) {
    && (forall k :: 0 <= k < |rows| ==> rows[k] in table && rows[k].pid != root && ParentFirst(root, rows, k))
    && (forall i, j :: 0 <= i < j < |rows| ==> rows[i].pid != rows[j].pid)
    && (forall pid :: Listed(rows, pid) <==> Descends(root, table, pid))
  }

  lemma {:induction false} ListedDescends(root: int, table: seq<Row>, rows: seq<Row>, k: nat)
    requires k < |rows|
    requires forall i :: 0 <= i < |rows| ==> rows[i] in table && rows[i].pid != root && ParentFirst(root, rows, i)
    ensures Descends(root, table, rows[k].pid)
    decreases k
  {
    if rows[k].ppid == root {
      assert IsChain(root, table, [rows[k]]);
    } else {
      assert ParentFirst(root, rows, k);
      var i :| 0 <= i < k && rows[i].pid == rows[k].ppid;
      ListedDescends(root, table, rows, i);
      var chain: seq<Row> :| IsChain(root, table, chain) && chain[|chain| - 1].pid == rows[i].pid;
      var longer := chain + [rows[k]];
      assert IsChain(root, table, longer) && longer[|longer| - 1].pid == rows[k].pid;
    }
  }

  /** A list closed under children contains every descendant. */
  lemma {:induction false} DescendantListed(root: int, table: seq<Row>, rows: seq<Row>, chain: seq<Row>)
    requires IsChain(root, table, chain)
    requires forall row :: row in table && row.pid != root && (row.ppid == root || Listed(rows, row.ppid)) ==>
      Listed(rows, row.pid)
    ensures Listed(rows, chain[|chain| - 1].pid)
    decreases |chain|
  {
    var last := |chain| - 1;
    if last == 0 {
    } else {
      assert IsChain(root, table, chain[..last]);
      DescendantListed(root, table, rows, chain[..last]);
    }
  }

  lemma ClosedListIsDescendantList(root: int, table: seq<Row>, rows: seq<Row>)
    requires forall k :: 0 <= k < |rows| ==> rows[k] in table && rows[k].pid != root && ParentFirst(root, rows, k)
    requires forall i, j :: 0 <= i < j < |rows| ==> rows[i].pid != rows[j].pid
    requires forall row :: row in table && row.pid != root && (row.ppid == root || Listed(rows, row.ppid)) ==>
      Listed(rows, row.pid)
    ensures IsDescendantList(root, table, rows)
  {
    forall pid
      ensures Listed(rows, pid) <==> Descends(root, table, pid)
    {
      if Listed(rows, pid) {
        var k :| 0 <= k < |rows| && rows[k].pid == pid;
        ListedDescends(root, table, rows, k);
      }
      if Descends(root, table, pid) {
        var chain: seq<Row> :| IsChain(root, table, chain) && chain[|chain| - 1].pid == pid;
        DescendantListed(root, table, rows, chain);
      }
    }
  }

  // ---- The walk ----

  function ChildrenOf(root: int, table: seq<Row>, ppid: int): seq<Row> {
    if table == [] then [] else
    var n := |table| - 1;
    ChildrenOf(root, table[..n], ppid) +
    (if table[n].pid != root && table[n].ppid == ppid then [table[n]] else [])
  }

  lemma {:induction false} InChildren(root: int, table: seq<Row>, ppid: int, row: Row)
    ensures row in ChildrenOf(root, table, ppid) <==> row in table && row.pid != root && row.ppid == ppid
    decreases |table|
  {
    if table == [] {
    } else {
      var n := |table| - 1;
      assert table == table[..n] + [table[n]];
      InChildren(root, table[..n], ppid, row);
    }
  }

  function Lookup(m: map<int, seq<Row>>, ppid: int): seq<Row> {
    if ppid in m then m[ppid] else []
  }

  ghost predicate Indexed(root: int, table: seq<Row>, m: map<int, seq<Row>>) {
    forall ppid :: Lookup(m, ppid) == ChildrenOf(root, table, ppid)
  }

  lemma IndexStep(root: int, table: seq<Row>, m: map<int, seq<Row>>, row: Row)
    requires Indexed(root, table, m)
    ensures row.pid == root ==> Indexed(root, table + [row], m)
    ensures row.pid != root ==> Indexed(root, table + [row], m[row.ppid := Lookup(m, row.ppid) + [row]])
  {
    assert (table + [row])[..|table|] == table;
    forall ppid
      ensures ChildrenOf(root, table + [row], ppid)
           == ChildrenOf(root, table, ppid) + (if row.pid != root && row.ppid == ppid then [row] else [])
    {
    }
  }

  lemma LastRowStep(pid: int, table: seq<Row>, rootRow: Option<Row>, row: Row)
    requires rootRow.Some? ==> LastRow(pid, table, rootRow.value)
    requires rootRow.None? ==> !Present(pid, table)
    ensures var r := if row.pid == pid then Some(row) else rootRow;
      && (r.Some? ==> LastRow(pid, table + [row], r.value))
      && (r.None? ==> !Present(pid, table + [row]))
  {
    var longer := table + [row];
    assert longer[|table|] == row;
    if row.pid != pid && rootRow.Some? {
      var i :| 0 <= i < |table| && table[i] == rootRow.value && forall j :: i < j < |table| ==> table[j].pid != pid;
      assert longer[i] == rootRow.value;
    }
  }

  method IndexByParent(root: int, table: seq<Row>) returns (rootRow: Option<Row>, childrenByPpid: map<int, seq<Row>>)
    ensures rootRow.Some? <==> Present(root, table)
    ensures rootRow.Some? ==> LastRow(root, table, rootRow.value)
    ensures Indexed(root, table, childrenByPpid)
  {
    rootRow, childrenByPpid := None, map[];
    for k := 0 to |table|
      invariant rootRow.None? ==> !Present(root, table[..k])
      invariant rootRow.Some? ==> LastRow(root, table[..k], rootRow.value)
      invariant Indexed(root, table[..k], childrenByPpid)
    {
      var row := table[k];
      assert table[..k + 1] == table[..k] + [row];
      IndexStep(root, table[..k], childrenByPpid, row);
      LastRowStep(root, table[..k], rootRow, row);
      if row.pid == root {
        rootRow := Some(row);
        continue;
      }
      childrenByPpid := childrenByPpid[row.ppid := Lookup(childrenByPpid, row.ppid) + [row]];
    }
    assert table[..|table|] == table;
  }

  /** The breadth-first queue: the root, then the pid of every row found so far. */
  ghost predicate Queued(root: int, table: seq<Row>, rows: seq<Row>, queue: seq<int>, visited: set<int>) {
    && |queue| == |rows| + 1 && queue[0] == root
    && (forall k :: 0 <= k < |rows| ==> queue[k + 1] == rows[k].pid && rows[k] in table && ParentFirst(root, rows, k))
    && (forall pid :: pid in queue <==> pid in visited)
    && (forall i, j :: 0 <= i < j < |queue| ==> queue[i] != queue[j])
  }

  lemma QueueOneMore(root: int, table: seq<Row>, rows: seq<Row>, queue: seq<int>, visited: set<int>, child: Row)
    requires Queued(root, table, rows, queue, visited)
    requires child in table && child.pid !in visited && child.ppid in visited
    ensures Queued(root, table, rows + [child], queue + [child.pid], visited + {child.pid})
  {
    var more := rows + [child];
    forall k | 0 <= k < |more|
      ensures ParentFirst(root, more, k)
    {
      if k < |rows| {
        assert ParentFirst(root, rows, k);
        if rows[k].ppid != root {
          var i :| 0 <= i < k && rows[i].pid == rows[k].ppid;
          assert more[i].pid == more[k].ppid;
        }
      } else if child.ppid != root {
        var i :| 0 <= i < |queue| && queue[i] == child.ppid;
        assert more[i - 1].pid == child.ppid;
      }
    }
  }

  lemma {:induction false} DistinctBounded(s: seq<int>, universe: set<int>)
    requires forall i, j :: 0 <= i < j < |s| ==> s[i] != s[j]
    requires forall i :: 0 <= i < |s| ==> s[i] in universe
    ensures |s| <= |universe|
    decreases |s|
  {
    if s == [] {
    } else {
      var n := |s| - 1;
      DistinctBounded(s[..n], universe - {s[n]});
    }
  }

  function Pids(table: seq<Row>): set<int> {
    set row | row in table :: row.pid
  }

  /** Everything whose parent was dequeued is visited. */
  ghost predicate ChildrenVisited(root: int, table: seq<Row>, dequeued: seq<int>, visited: set<int>) {
    forall row :: row in table && row.pid != root && row.ppid in dequeued ==> row.pid in visited
  }

  lemma TakeFromLonger<T>(s: seq<T>, longer: seq<T>, k: nat)
    requires s <= longer && 0 < k <= |s|
    ensures longer[..k] == s[..k - 1] + [s[k - 1]]
  {
  }

  lemma DequeueOne(root: int, table: seq<Row>, dequeued: seq<int>, pid: int, visited: set<int>, more: set<int>)
    requires ChildrenVisited(root, table, dequeued, visited) && visited <= more
    requires forall i :: 0 <= i < |ChildrenOf(root, table, pid)| ==> ChildrenOf(root, table, pid)[i].pid in more
    ensures ChildrenVisited(root, table, dequeued + [pid], more)
  {
    forall row | row in table && row.pid != root && row.ppid == pid
      ensures row.pid in more
    {
      InChildren(root, table, pid, row);
    }
  }

  /** The inner loop: every child of `pid` that is new joins the result and the queue. */
  method VisitChildren(root: int, table: seq<Row>, pid: int, children: seq<Row>,
                       rows: seq<Row>, queue: seq<int>, visited: set<int>)
    returns (descendants: seq<Row>, longer: seq<int>, more: set<int>)
    requires Queued(root, table, rows, queue, visited) && pid in visited
    requires children == ChildrenOf(root, table, pid)
    ensures Queued(root, table, descendants, longer, more)
    ensures rows <= descendants && queue <= longer && visited <= more
    ensures forall i :: 0 <= i < |children| ==> children[i].pid in more
  {
    descendants, longer, more := rows, queue, visited;
    for c := 0 to |children|
      invariant Queued(root, table, descendants, longer, more)
      invariant rows <= descendants && queue <= longer && visited <= more
      invariant forall i :: 0 <= i < c ==> children[i].pid in more
    {
      var child := children[c];
      if child.pid in more {
        continue;
      }
      InChildren(root, table, pid, child);
      QueueOneMore(root, table, descendants, longer, more, child);
      more := more + {child.pid};
      descendants := descendants + [child];
      longer := longer + [child.pid];
    }
  }

  lemma QueueBounded(root: int, table: seq<Row>, rows: seq<Row>, queue: seq<int>, visited: set<int>)
    requires Queued(root, table, rows, queue, visited)
    ensures |queue| <= |{root} + Pids(table)|
  {
    forall i | 0 <= i < |queue|
      ensures queue[i] in {root} + Pids(table)
    {
      if i > 0 {
        assert rows[i - 1] in table && rows[i - 1].pid == queue[i];
      }
    }
    DistinctBounded(queue, {root} + Pids(table));
  }

  lemma QueueIsClosed(root: int, table: seq<Row>, rows: seq<Row>, queue: seq<int>, visited: set<int>)
    requires Queued(root, table, rows, queue, visited) && ChildrenVisited(root, table, queue, visited)
    ensures IsDescendantList(root, table, rows)
  {
    forall k | 0 <= k < |rows|
      ensures rows[k].pid != root
    {
      assert queue[0] != queue[k + 1];
    }
    forall i, j | 0 <= i < j < |rows|
      ensures rows[i].pid != rows[j].pid
    {
      assert queue[i + 1] != queue[j + 1];
    }
    forall row | row in table && row.pid != root && (row.ppid == root || Listed(rows, row.ppid))
      ensures Listed(rows, row.pid)
    {
      if row.ppid == root {
        assert queue[0] in queue;
      } else {
        var i :| 0 <= i < |rows| && rows[i].pid == row.ppid;
        assert queue[i + 1] in queue;
      }
      assert row.pid in queue;
      var j :| 0 <= j < |queue| && queue[j] == row.pid;
      assert rows[j - 1].pid == row.pid;
    }
    ClosedListIsDescendantList(root, table, rows);
  }

  method CollectDescendantRows(root: int, table: seq<Row>, capturedAtMs: int) returns (snapshot: Snapshot)
    ensures snapshot.capturedAtMs == capturedAtMs
    ensures !Present(root, table) ==> snapshot.rootPgid == None && snapshot.descendants == []
    ensures Present(root, table) ==>
      && (exists row :: LastRow(root, table, row) && snapshot.rootPgid == Some(row.pgid))
      && IsDescendantList(root, table, snapshot.descendants)
  {
    var rootRow, childrenByPpid := IndexByParent(root, table);
    if rootRow.None? {
      return Snapshot(None, [], capturedAtMs);
    }
    var descendants := [];
    var queue, visited := [root], {root};
    var nextIndex := 0;
    ghost var universe := {root} + Pids(table);
    while nextIndex < |queue|
      invariant 0 <= nextIndex <= |queue| <= |universe|
      invariant Queued(root, table, descendants, queue, visited)
      invariant ChildrenVisited(root, table, queue[..nextIndex], visited)
      decreases |universe| - nextIndex
    {
      var pid := queue[nextIndex];
      var children := Lookup(childrenByPpid, pid);
      assert children == ChildrenOf(root, table, pid);
      ghost var before, visitedBefore := queue, visited;
      descendants, queue, visited := VisitChildren(root, table, pid, children, descendants, queue, visited);
      QueueBounded(root, table, descendants, queue, visited);
      DequeueOne(root, table, before[..nextIndex], pid, visitedBefore, visited);
      nextIndex := nextIndex + 1;
      TakeFromLonger(before, queue, nextIndex);
    }
    assert queue[..nextIndex] == queue;
    QueueIsClosed(root, table, descendants, queue, visited);
    return Snapshot(Some(rootRow.value.pgid), descendants, capturedAtMs);
  }
}
