/** Rendering of an accessibility tree into records, and the way back from a record's path to its node. */
module AccessibilityTree {
  import opened Common

  const MAX_NODES := 1200
  const MAX_DEPTH := 64

  type Path = seq<nat>

  predicate IsGrouping(role: string) {
    role in {"panel", "filler", "unknown", "section"}
  }

  /** Python's white space. */
  predicate IsSpace(c: int) {
    || 0x09 <= c <= 0x0d || 0x1c <= c <= 0x20 || c == 0x85 || c == 0xa0 || c == 0x1680
    || 0x2000 <= c <= 0x200a || c == 0x2028 || c == 0x2029 || c == 0x202f || c == 0x205f || c == 0x3000
  }

  predicate IsBlank(text: string) {
    text == "" || (IsSpace(text[0] as int) && IsBlank(text[1..]))
  }

  function Present(children: seq<Option<Node>>): nat {
    if children == [] then 0 else (if children[0].Some? then 1 else 0) + Present(children[1..])
  }

  /** What rendering reads of a node. `role` is the lower-case role; `plainText` is the joined text of a subtree
      that holds plain text only, with at least two snippets. A child index whose lookup fails holds no child. */
  datatype Node = Node(role: string, name: string, automationId: string, value: string, meaningfulActions: bool,
                       plainText: Option<string>, children: seq<Option<Node>>)
  {
    function ChildCount(): nat {
      Present(children)
    }

    function Title(): string {
      if name != "" then name else automationId
    }

    function GenericSummary(): Option<string> {
      if IsGrouping(role) && name == "" && value == "" then plainText else None
    }

    predicate ShouldElide() {
      IsGrouping(role) && name == "" && automationId == "" && value == "" && !meaningfulActions
      && GenericSummary().None? && ChildCount() <= 1
    }

    predicate SuppressesChildren() {
      var summary := GenericSummary();
      && (Title() != "" || !IsBlank(value) || (summary.Some? && !IsBlank(summary.value)))
      && role in {"button", "check box", "checkbox", "combo box", "heading", "link", "menu item", "page tab",
                  "push button", "radio button"}
    }

    /** The record stands for the whole subtree. */
    predicate IsLeaf() {
      (GenericSummary().Some? && GenericSummary().value != "") || SuppressesChildren()
    }
  }

  /** One rendered line and record: where it was found, how deep it is shown, and which node it is. */
  datatype Entry = Entry(path: Path, depth: nat, node: Node)

  // ---- What is to be rendered ----

  /** The shown part of a subtree in document order, down to `limit` levels. */
  function Shown(node: Node, depth: nat, path: Path, limit: Option<nat>): seq<Entry>
    decreases node, 1, 0
  {
    if limit.Some? && depth > limit.value then []
    else if node.ShouldElide() then ShownChildren(node, 0, depth, path, limit)
    else [Entry(path, depth, node)] + (if node.IsLeaf() then [] else ShownChildren(node, 0, depth + 1, path, limit))
  }

  function ShownChildren(node: Node, k: nat, depth: nat, path: Path, limit: Option<nat>): seq<Entry>
    requires k <= |node.children|
    decreases node, 0, |node.children| - k
  {
    if k == |node.children| then []
    else
      (if node.children[k].Some? then Shown(node.children[k].value, depth, path + [k], limit) else [])
      + ShownChildren(node, k + 1, depth, path, limit)
  }

  /** No node that rendering visits lies deeper than 64 shown levels. */
  predicate WithinDepth(node: Node, depth: nat)
    decreases node, 1
  {
    && depth <= 64
    && (if node.ShouldElide() then ChildrenWithinDepth(node, depth)
        else node.IsLeaf() || ChildrenWithinDepth(node, depth + 1))
  }

  predicate ChildrenWithinDepth(node: Node, depth: nat)
    decreases node, 0
  {
    forall k :: 0 <= k < |node.children| && node.children[k].Some? ==> WithinDepth(node.children[k].value, depth)
  }

  function Cap(entries: seq<Entry>): (r: seq<Entry>)
    ensures |r| <= MAX_NODES && r <= entries
  {
    if |entries| <= MAX_NODES then entries else entries[..MAX_NODES]
  }

  // ---- The walk ----

  datatype Record = Record(index: nat, runtimeId: Path)

  /** What was there at the start and all children make what is there now and the children from `k` on. */
  ghost predicate ChildrenWalked(start: seq<Entry>, truncatedAtStart: bool, entries: seq<Entry>, truncated: bool,
                                 node: Node, k: nat, depth: nat, path: Path)
    requires k <= |node.children|
  {
    && Cap(entries + ShownChildren(node, k, depth, path, Some(MAX_DEPTH)))
       == Cap(start + ShownChildren(node, 0, depth, path, Some(MAX_DEPTH)))
    && (!truncated ==>
          && !truncatedAtStart
          && entries + ShownChildren(node, k, depth, path, None) == start + ShownChildren(node, 0, depth, path, None))
  }

  lemma {:induction false} ShownUnfolds(node: Node, depth: nat, path: Path, limit: Option<nat>)
    ensures Shown(node, depth, path, limit)
         == if limit.Some? && depth > limit.value then []
            else if node.ShouldElide() then ShownChildren(node, 0, depth, path, limit)
            else [Entry(path, depth, node)]
                 + (if node.IsLeaf() then [] else ShownChildren(node, 0, depth + 1, path, limit))
    ensures !(limit.Some? && depth > limit.value) && !node.ShouldElide() && node.IsLeaf() ==>
      Shown(node, depth, path, limit) == [Entry(path, depth, node)]
  {
  }

  lemma CapKeeps(entries: seq<Entry>, more: seq<Entry>)
    requires |entries| == MAX_NODES || (|entries| <= MAX_NODES && more == [])
    ensures Cap(entries + more) == entries
  {
  }

  lemma {:induction false} ShownChildrenUnfold(node: Node, k: nat, depth: nat, path: Path, limit: Option<nat>)
    requires k < |node.children|
    ensures ShownChildren(node, k, depth, path, limit)
         == if node.children[k].Some? then Shown(node.children[k].value, depth, path + [k], limit)
                                           + ShownChildren(node, k + 1, depth, path, limit)
            else ShownChildren(node, k + 1, depth, path, limit)
  {
    if node.children[k].None? {
      EmptySlice([Entry(path, depth, node)], 0, ShownChildren(node, k + 1, depth, path, limit));
    }
  }

  lemma CapTwice(a: seq<Entry>, b: seq<Entry>, c: seq<Entry>)
    ensures Cap(Cap(a + b) + c) == Cap(a + (b + c))
  {
    AppendAssociative(a, b, c);
  }

  lemma NextChild(start: seq<Entry>, truncatedAtStart: bool, before: seq<Entry>, truncatedBefore: bool,
                  after: seq<Entry>, truncated: bool, node: Node, k: nat, depth: nat, path: Path)
    requires k < |node.children|
    requires ChildrenWalked(start, truncatedAtStart, before, truncatedBefore, node, k, depth, path)
    requires after == if node.children[k].Some?
      then Cap(before + Shown(node.children[k].value, depth, path + [k], Some(MAX_DEPTH))) else before
    requires !truncated ==>
      && !truncatedBefore
      && after == if node.children[k].Some?
           then before + Shown(node.children[k].value, depth, path + [k], None) else before
    ensures ChildrenWalked(start, truncatedAtStart, after, truncated, node, k + 1, depth, path)
  {
    ShownChildrenUnfold(node, k, depth, path, Some(MAX_DEPTH));
    ShownChildrenUnfold(node, k, depth, path, None);
    if node.children[k].Some? {
      var child := node.children[k].value;
      CapTwice(before, Shown(child, depth, path + [k], Some(MAX_DEPTH)),
               ShownChildren(node, k + 1, depth, path, Some(MAX_DEPTH)));
      AppendAssociative(before, Shown(child, depth, path + [k], None), ShownChildren(node, k + 1, depth, path, None));
    }
  }

  class Renderer {
    var records: seq<Record>
    var lines: seq<(nat, nat)>
    var truncated: bool
    var maxDepthReached: bool
    ghost var entries: seq<Entry>

    /** Record k has index k and the path of the k-th entry, and line k shows it at its depth. */
    ghost predicate Valid()
      reads this
    {
      && |records| == |lines| == |entries| <= MAX_NODES
      && (forall k :: 0 <= k < |records| ==>
            records[k] == Record(k, entries[k].path) && lines[k] == (entries[k].depth, k))
      && (maxDepthReached ==> truncated)
    }

    constructor ()
      ensures Valid() && entries == [] && !truncated
    {
      records, lines, entries, truncated, maxDepthReached := [], [], [], false, false;
    }

    /** `records.append(item)` and `lines.append(...)`. */
    method AppendRecord(node: Node, depth: nat, path: Path)
      requires Valid() && |records| < MAX_NODES
      modifies this`records, this`lines, this`entries
      ensures Valid() && entries == old(entries) + [Entry(path, depth, node)]
    {
      var index := |records|;
      records := records + [Record(index, path)];
      lines := lines + [(depth, index)];
      entries := entries + [Entry(path, depth, node)];
    }

    /** Appends exactly the first shown entries that still fit; unless `truncated` is raised, nothing is missing. */
    method Walk(node: Node, depth: nat, path: Path)
      requires Valid()
      modifies this
      ensures Valid()
      ensures entries == Cap(old(entries) + Shown(node, depth, path, Some(MAX_DEPTH)))
      ensures !truncated ==> !old(truncated) && entries == old(entries) + Shown(node, depth, path, None)
      ensures
        !old(truncated) && WithinDepth(node, depth) && |old(entries)| + |Shown(node, depth, path, None)| < MAX_NODES
        ==> !truncated
      decreases node, 1
    {
      ShownUnfolds(node, depth, path, Some(MAX_DEPTH));
      ShownUnfolds(node, depth, path, None);
      if |records| >= MAX_NODES || depth > MAX_DEPTH {
        CapKeeps(entries, Shown(node, depth, path, Some(MAX_DEPTH)));
        truncated := true;
        if depth > MAX_DEPTH {
          maxDepthReached := true;
        }
        return;
      }
      if node.ShouldElide() {
        WalkChildren(node, depth, path);
        return;
      }
      AppendRecord(node, depth, path);
      if node.IsLeaf() {
        CapKeeps(entries, []);
        return;
      }
      AppendAssociative(old(entries), [Entry(path, depth, node)],
                        ShownChildren(node, 0, depth + 1, path, Some(MAX_DEPTH)));
      AppendAssociative(old(entries), [Entry(path, depth, node)], ShownChildren(node, 0, depth + 1, path, None));
      WalkChildren(node, depth + 1, path);
    }

    method WalkChildren(node: Node, depth: nat, path: Path)
      requires Valid()
      modifies this
      ensures Valid()
      ensures entries == Cap(old(entries) + ShownChildren(node, 0, depth, path, Some(MAX_DEPTH)))
      ensures !truncated ==> !old(truncated) && entries == old(entries) + ShownChildren(node, 0, depth, path, None)
      ensures
        && !old(truncated) && ChildrenWithinDepth(node, depth)
        && |old(entries)| + |ShownChildren(node, 0, depth, path, None)| < MAX_NODES
        ==> !truncated
      decreases node, 0
    {
      for k := 0 to |node.children|
        invariant Valid()
        invariant ChildrenWalked(old(entries), old(truncated), entries, truncated, node, k, depth, path)
        invariant
          && !old(truncated) && ChildrenWithinDepth(node, depth)
          && |old(entries)| + |ShownChildren(node, 0, depth, path, None)| < MAX_NODES
          ==> !truncated
      {
        ghost var before := entries;
        ghost var truncatedBefore := truncated;
        ShownChildrenUnfold(node, k, depth, path, None);
        if node.children[k].Some? {
          Walk(node.children[k].value, depth, path + [k]);
        }
        NextChild(old(entries), old(truncated), before, truncatedBefore, entries, truncated, node, k, depth, path);
      }
      CapKeeps(entries, []);
      WholeSlices(entries, 0);
    }
  }

  // ---- The way back ----

  function Resolve(node: Node, path: Path): Option<Node>
    decreases |path|
  {
    if path == [] then Some(node)
    else if path[0] < |node.children| && node.children[path[0]].Some? then
      Resolve(node.children[path[0]].value, path[1..])
    else None
  }

  method FindByPath(app: Node, path: Path) returns (found: Option<Node>)
    ensures found == Resolve(app, path)
  {
    var node := app;
    for k := 0 to |path|
      invariant Resolve(node, path[k..]) == Resolve(app, path)
    {
      assert path[k..][1..] == path[k + 1..];
      if path[k] >= |node.children| || node.children[path[k]].None? {
        return None;
      }
      node := node.children[path[k]].value;
    }
    return Some(node);
  }

  lemma {:induction false} ResolveChild(app: Node, path: Path, k: nat)
    requires Resolve(app, path).Some?
    requires k < |Resolve(app, path).value.children| && Resolve(app, path).value.children[k].Some?
    ensures Resolve(app, path + [k]) == Resolve(app, path).value.children[k]
    decreases |path|
  {
    if path == [] {
    } else {
      assert (path + [k])[1..] == path[1..] + [k];
      ResolveChild(app.children[path[0]].value, path[1..], k);
    }
  }

  lemma InAppended(first: seq<Entry>, second: seq<Entry>, e: Entry)
    ensures e in first + second <==> e in first || e in second
  {
  }

  /** The paths lead on from `path`, to the entries' nodes, and nothing is deeper than the limit. */
  ghost predicate Lead(app: Node, path: Path, limit: Option<nat>, entries: seq<Entry>) {
    forall e :: e in entries ==>
      Resolve(app, e.path) == Some(e.node) && path <= e.path && (limit.Some? ==> e.depth <= limit.value)
  }

  lemma LeadAppended(app: Node, path: Path, limit: Option<nat>, first: seq<Entry>, second: seq<Entry>)
    requires Lead(app, path, limit, first) && Lead(app, path, limit, second)
    ensures Lead(app, path, limit, first + second)
  {
  }

  /** What is shown is the node itself, or not, and then what is shown of its children, if anything is. */
  lemma {:induction false} ShownParts(node: Node, depth: nat, path: Path, limit: Option<nat>)
    returns (head: seq<Entry>, childDepth: Option<nat>)
    ensures Shown(node, depth, path, limit)
         == if childDepth.Some? then head + ShownChildren(node, 0, childDepth.value, path, limit) else head
    ensures head == [] || (head == [Entry(path, depth, node)] && (limit.Some? ==> depth <= limit.value))
  {
    ShownUnfolds(node, depth, path, limit);
    if limit.Some? && depth > limit.value {
      head, childDepth := [], None;
    } else if node.ShouldElide() {
      head, childDepth := [], Some(depth);
      EmptySlice([Entry(path, depth, node)], 0, ShownChildren(node, 0, depth, path, limit));
    } else {
      head, childDepth := [Entry(path, depth, node)], if node.IsLeaf() then None else Some(depth + 1);
    }
  }

  /** Every shown entry's path leads back to the entry's node, also below elided wrappers. */
  lemma {:induction false} ShownResolves(app: Node, node: Node, depth: nat, path: Path, limit: Option<nat>)
    requires Resolve(app, path) == Some(node)
    ensures Lead(app, path, limit, Shown(node, depth, path, limit))
    decreases node, 1, 0
  {
    var head, childDepth := ShownParts(node, depth, path, limit);
    if childDepth.Some? {
      ShownChildrenResolve(app, node, 0, childDepth.value, path, limit);
      LeadAppended(app, path, limit, head, ShownChildren(node, 0, childDepth.value, path, limit));
    }
  }

  lemma {:induction false} ShownChildrenResolve(app: Node, node: Node, k: nat, depth: nat, path: Path,
                                                limit: Option<nat>)
    requires Resolve(app, path) == Some(node) && k <= |node.children|
    ensures Lead(app, path, limit, ShownChildren(node, k, depth, path, limit))
    ensures forall e :: e in ShownChildren(node, k, depth, path, limit) ==> path < e.path && k <= e.path[|path|]
    decreases node, 0, |node.children| - k
  {
    if k == |node.children| {
    } else {
      if node.children[k].Some? {
        ResolveChild(app, path, k);
        ShownResolves(app, node.children[k].value, depth, path + [k], limit);
        forall e | e in Shown(node.children[k].value, depth, path + [k], limit)
          ensures path < e.path && e.path[|path|] == k
        {
          assert path + [k] <= e.path;
        }
      }
      ShownChildrenResolve(app, node, k + 1, depth, path, limit);
    }
  }

  // ---- Which nodes are shown ----

  /** A grouping that says nothing and holds at most one child. */
  ghost predicate IsWrapper(node: Node) {
    && node.role in {"panel", "filler", "unknown", "section"}
    && node.name == node.automationId == node.value == ""
    && node.plainText.None? && !node.meaningfulActions
    && forall i, j :: 0 <= i < j < |node.children| ==> node.children[i].None? || node.children[j].None?
  }

  ghost predicate HasPrinted(text: string) {
    exists i :: 0 <= i < |text| && !IsSpace(text[i] as int)
  }

  /** A nameless grouping of plain text, or a labelled control: what is below it is not shown. */
  ghost predicate StandsForAll(node: Node) {
    || (node.role in {"panel", "filler", "unknown", "section"} && node.name == node.value == ""
        && node.plainText.Some? && node.plainText.value != "")
    || (node.role in {"button", "check box", "checkbox", "combo box", "heading", "link", "menu item", "page tab",
                      "push button", "radio button"}
        && (node.name != "" || node.automationId != "" || HasPrinted(node.value)))
  }

  /** The node at `path` below `node` is no wrapper, and no node above it stands for all below. */
  ghost predicate IsShown(node: Node, path: Path)
    requires Resolve(node, path).Some?
    decreases |path|
  {
    if path == [] then !IsWrapper(node) else !StandsForAll(node) && IsShown(node.children[path[0]].value, path[1..])
  }

  /** How many nodes above the one at `path` are shown, if it is. */
  ghost function ShownAbove(node: Node, path: Path): nat
    requires Resolve(node, path).Some?
    decreases |path|
  {
    if path == [] then 0 else (if IsWrapper(node) then 0 else 1) + ShownAbove(node.children[path[0]].value, path[1..])
  }

  lemma {:induction false} BlankIffNothingPrinted(text: string)
    ensures IsBlank(text) <==> !HasPrinted(text)
    decreases |text|
  {
    if text != "" {
      BlankIffNothingPrinted(text[1..]);
      assert text == [text[0]] + text[1..];
      if HasPrinted(text) {
        var i :| 0 <= i < |text| && !IsSpace(text[i] as int);
        assert i == 0 || text[1..][i - 1] == text[i];
      }
      if HasPrinted(text[1..]) {
        var i :| 0 <= i < |text[1..]| && !IsSpace(text[1..][i] as int);
        assert text[i + 1] == text[1..][i];
      }
    }
  }

  lemma {:induction false} NonePresent(children: seq<Option<Node>>)
    ensures Present(children) == 0 <==> forall i :: 0 <= i < |children| ==> children[i].None?
    decreases |children|
  {
    if children != [] {
      NonePresent(children[1..]);
      assert children == [children[0]] + children[1..];
    }
  }

  lemma {:induction false} AtMostOnePresent(children: seq<Option<Node>>)
    ensures Present(children) <= 1 <==>
      forall i, j :: 0 <= i < j < |children| ==> children[i].None? || children[j].None?
    decreases |children|
  {
    if children != [] {
      AtMostOnePresent(children[1..]);
      NonePresent(children[1..]);
      assert children == [children[0]] + children[1..];
      if i, j :| 0 <= i < j < |children| && children[i].Some? && children[j].Some? {
        assert children[1..][j - 1] == children[j];
        assert i > 0 ==> children[1..][i - 1] == children[i];
      } else {
        forall i, j | 0 <= i < j < |children[1..]|
          ensures children[1..][i].None? || children[1..][j].None?
        {
          assert children[i + 1] == children[1..][i] && children[j + 1] == children[1..][j];
        }
        assert forall j :: 0 <= j < |children[1..]| ==> children[1..][j] == children[j + 1];
      }
    }
  }

  lemma ElidesWrappers(node: Node)
    ensures node.ShouldElide() <==> IsWrapper(node)
    ensures node.IsLeaf() <==> StandsForAll(node)
    ensures !(node.ShouldElide() && node.IsLeaf())
  {
    AtMostOnePresent(node.children);
    BlankIffNothingPrinted(node.value);
  }

  lemma OneNext(path: Path, j: nat, k: nat, p: Path)
    requires path + [k] <= p && j != k
    ensures !(path + [j] <= p)
  {
    assert (path + [k])[|path|] == k && (path + [j])[|path|] == j;
  }

  lemma OtherChildsEntry(app: Node, node: Node, j: nat, k: nat, depth: nat, path: Path, limit: Option<nat>, e: Entry)
    requires Resolve(app, path) == Some(node) && j < |node.children| && node.children[j].Some?
    requires path + [k] <= e.path && j != k
    ensures e !in Shown(node.children[j].value, depth, path + [j], limit)
  {
    OneNext(path, j, k, e.path);
    ResolveChild(app, path, j);
    ShownResolves(app, node.children[j].value, depth, path + [j], limit);
  }

  lemma LaterChildrensEntry(app: Node, node: Node, j: nat, k: nat, depth: nat, path: Path, limit: Option<nat>, e: Entry)
    requires Resolve(app, path) == Some(node) && k < j <= |node.children| && path + [k] <= e.path
    ensures e !in ShownChildren(node, j, depth, path, limit)
  {
    ShownChildrenResolve(app, node, j, depth, path, limit);
    assert e.path[|path|] == (path + [k])[|path|];
  }

  lemma {:induction false} AmongChildrenIff(app: Node, node: Node, j: nat, k: nat, depth: nat, path: Path,
                                            limit: Option<nat>, e: Entry)
    requires Resolve(app, path) == Some(node) && j <= k < |node.children| && node.children[k].Some?
    requires path + [k] <= e.path
    ensures e in ShownChildren(node, j, depth, path, limit) <==>
      e in Shown(node.children[k].value, depth, path + [k], limit)
    decreases k - j
  {
    ShownChildrenUnfold(node, j, depth, path, limit);
    if node.children[j].Some? {
      InAppended(Shown(node.children[j].value, depth, path + [j], limit),
                 ShownChildren(node, j + 1, depth, path, limit), e);
    }
    if j < k {
      AmongChildrenIff(app, node, j + 1, k, depth, path, limit, e);
      if node.children[j].Some? {
        OtherChildsEntry(app, node, j, k, depth, path, limit, e);
      }
    } else {
      LaterChildrensEntry(app, node, j + 1, k, depth, path, limit, e);
    }
  }

  lemma ShownThroughChild(app: Node, node: Node, depth: nat, path: Path, k: nat, limit: Option<nat>, e: Entry)
    requires Resolve(app, path) == Some(node) && k < |node.children| && node.children[k].Some?
    requires path + [k] <= e.path
    ensures e in Shown(node, depth, path, limit) <==>
      && (limit.Some? ==> depth <= limit.value) && !StandsForAll(node)
      && e in Shown(node.children[k].value, if IsWrapper(node) then depth else depth + 1, path + [k], limit)
  {
    ShownUnfolds(node, depth, path, limit);
    ElidesWrappers(node);
    AmongChildrenIff(app, node, 0, k, if IsWrapper(node) then depth else depth + 1, path, limit, e);
  }

  lemma ShownAtItsPath(app: Node, node: Node, depth: nat, path: Path, limit: Option<nat>, e: Entry)
    requires Resolve(app, path) == Some(node) && e.path == path
    ensures e in Shown(node, depth, path, limit) <==>
      (limit.Some? ==> depth <= limit.value) && !IsWrapper(node) && e == Entry(path, depth, node)
  {
    ShownUnfolds(node, depth, path, limit);
    ElidesWrappers(node);
    ShownChildrenResolve(app, node, 0, depth, path, limit);
    ShownChildrenResolve(app, node, 0, depth + 1, path, limit);
  }

  /** A node is shown exactly if it is no wrapper, nothing above it stands for it, and it is within the limit; it is
      shown as deep as nodes above it are shown. */
  lemma {:induction false} ShownIff(app: Node, node: Node, depth: nat, path: Path, below: Path, limit: Option<nat>,
                                    e: Entry)
    requires Resolve(app, path) == Some(node) && Resolve(node, below).Some? && e.path == path + below
    ensures e in Shown(node, depth, path, limit) <==>
      && IsShown(node, below) && e.node == Resolve(node, below).value
      && e.depth == depth + ShownAbove(node, below) && (limit.Some? ==> e.depth <= limit.value)
    decreases |below|
  {
    if below == [] {
      ShownAtItsPath(app, node, depth, path, limit, e);
    } else {
      var k := below[0];
      assert path + below == path + [k] + below[1..];
      ShownThroughChild(app, node, depth, path, k, limit, e);
      ResolveChild(app, path, k);
      ShownIff(app, node.children[k].value, if IsWrapper(node) then depth else depth + 1, path + [k], below[1..],
               limit, e);
    }
  }

  /** Document order: a node comes before its descendants, and those before the next sibling. */
  ghost predicate Before(p: Path, q: Path)
    decreases |p|
  {
    q != [] && (p == [] || p[0] < q[0] || (p[0] == q[0] && Before(p[1..], q[1..])))
  }

  ghost predicate InOrder(entries: seq<Entry>) {
    forall i, j :: 0 <= i < j < |entries| ==> Before(entries[i].path, entries[j].path)
  }

  lemma {:induction false} AncestorIsBefore(p: Path, q: Path)
    requires p < q
    ensures Before(p, q)
    decreases |p|
  {
    if p == [] {
    } else {
      AncestorIsBefore(p[1..], q[1..]);
    }
  }

  lemma {:induction false} SiblingIsBefore(path: Path, k: nat, p: Path, q: Path)
    requires path + [k] <= p && path < q && k < q[|path|]
    ensures Before(p, q)
    decreases |path|
  {
    assert p[0] == (path + [k])[0];
    if path == [] {
    } else {
      assert (path + [k])[1..] == path[1..] + [k];
      SiblingIsBefore(path[1..], k, p[1..], q[1..]);
    }
  }

  lemma {:induction false} BeforeIsDifferent(p: Path, q: Path)
    requires Before(p, q)
    ensures p != q
    decreases |p|
  {
    if p == [] || p[0] != q[0] {
    } else {
      BeforeIsDifferent(p[1..], q[1..]);
    }
  }

  ghost predicate AllBefore(first: seq<Entry>, second: seq<Entry>) {
    forall e, f :: e in first && f in second ==> Before(e.path, f.path)
  }

  lemma InOrderAppend(first: seq<Entry>, second: seq<Entry>)
    requires InOrder(first) && InOrder(second) && AllBefore(first, second)
    ensures InOrder(first + second)
  {
    var all := first + second;
    forall i, j | 0 <= i < j < |all|
      ensures Before(all[i].path, all[j].path)
    {
      if j < |first| {
        assert Before(first[i].path, first[j].path);
      } else if i < |first| {
        assert first[i] in first && second[j - |first|] in second;
      } else {
        assert Before(second[i - |first|].path, second[j - |first|].path);
      }
    }
  }

  lemma InOrderCons(first: Entry, rest: seq<Entry>)
    requires InOrder(rest) && forall f :: f in rest ==> Before(first.path, f.path)
    ensures InOrder([first] + rest)
  {
    InOrderAppend([first], rest);
  }

  lemma ParentFirst(app: Node, node: Node, depth: nat, path: Path, limit: Option<nat>)
    requires Resolve(app, path) == Some(node)
    ensures forall f :: f in ShownChildren(node, 0, depth, path, limit) ==> Before(path, f.path)
  {
    ShownChildrenResolve(app, node, 0, depth, path, limit);
    forall f | f in ShownChildren(node, 0, depth, path, limit)
      ensures Before(path, f.path)
    {
      AncestorIsBefore(path, f.path);
    }
  }

  lemma SiblingsInOrder(app: Node, node: Node, k: nat, depth: nat, path: Path, limit: Option<nat>)
    requires Resolve(app, path) == Some(node) && k < |node.children| && node.children[k].Some?
    ensures AllBefore(Shown(node.children[k].value, depth, path + [k], limit),
                      ShownChildren(node, k + 1, depth, path, limit))
  {
    var child := node.children[k].value;
    ResolveChild(app, path, k);
    ShownResolves(app, child, depth, path + [k], limit);
    ShownChildrenResolve(app, node, k + 1, depth, path, limit);
    forall e, f | e in Shown(child, depth, path + [k], limit) && f in ShownChildren(node, k + 1, depth, path, limit)
      ensures Before(e.path, f.path)
    {
      SiblingIsBefore(path, k, e.path, f.path);
    }
  }

  lemma NoneInOrder(node: Node, depth: nat, path: Path, limit: Option<nat>)
    ensures InOrder(ShownChildren(node, |node.children|, depth, path, limit))
  {
  }

  lemma ChildThenRest(app: Node, node: Node, k: nat, depth: nat, path: Path, limit: Option<nat>)
    requires Resolve(app, path) == Some(node) && k < |node.children|
    requires node.children[k].Some? ==> InOrder(Shown(node.children[k].value, depth, path + [k], limit))
    requires InOrder(ShownChildren(node, k + 1, depth, path, limit))
    ensures InOrder(ShownChildren(node, k, depth, path, limit))
  {
    ShownChildrenUnfold(node, k, depth, path, limit);
    if node.children[k].Some? {
      SiblingsInOrder(app, node, k, depth, path, limit);
      InOrderAppend(Shown(node.children[k].value, depth, path + [k], limit),
                    ShownChildren(node, k + 1, depth, path, limit));
    }
  }

  lemma NodeThenChildren(app: Node, node: Node, depth: nat, path: Path, limit: Option<nat>)
    requires Resolve(app, path) == Some(node)
    requires InOrder(ShownChildren(node, 0, depth, path, limit))
    requires InOrder(ShownChildren(node, 0, depth + 1, path, limit))
    ensures InOrder(Shown(node, depth, path, limit))
  {
    ShownUnfolds(node, depth, path, limit);
    if !(limit.Some? && depth > limit.value) && !node.ShouldElide() && !node.IsLeaf() {
      ParentFirst(app, node, depth + 1, path, limit);
      InOrderCons(Entry(path, depth, node), ShownChildren(node, 0, depth + 1, path, limit));
    }
  }

  lemma {:induction false} ShownInOrder(app: Node, node: Node, depth: nat, path: Path, limit: Option<nat>)
    requires Resolve(app, path) == Some(node)
    ensures InOrder(Shown(node, depth, path, limit))
    decreases node, 1, 0
  {
    ShownChildrenInOrder(app, node, 0, depth, path, limit);
    ShownChildrenInOrder(app, node, 0, depth + 1, path, limit);
    NodeThenChildren(app, node, depth, path, limit);
  }

  lemma {:induction false} ShownChildrenInOrder(app: Node, node: Node, k: nat, depth: nat, path: Path,
                                                limit: Option<nat>)
    requires Resolve(app, path) == Some(node) && k <= |node.children|
    ensures InOrder(ShownChildren(node, k, depth, path, limit))
    decreases node, 0, |node.children| - k
  {
    if k == |node.children| {
      NoneInOrder(node, depth, path, limit);
    } else {
      ShownChildrenInOrder(app, node, k + 1, depth, path, limit);
      if node.children[k].Some? {
        ResolveChild(app, path, k);
        ShownInOrder(app, node.children[k].value, depth, path + [k], limit);
      }
      ChildThenRest(app, node, k, depth, path, limit);
    }
  }

  lemma WindowResolves(app: Node, windowIndex: nat)
    requires windowIndex < |app.children| && app.children[windowIndex].Some?
    ensures Resolve(app, [windowIndex]) == app.children[windowIndex]
  {
    assert [windowIndex][1..] == [];
  }

  /** The first entries of a rendering resolve and are in order, as all of them do. */
  lemma CappedResolves(app: Node, window: Node, windowIndex: nat, k: nat)
    requires windowIndex < |app.children| && app.children[windowIndex] == Some(window)
    requires k < |Cap(Shown(window, 0, [windowIndex], Some(MAX_DEPTH)))|
    ensures var e := Cap(Shown(window, 0, [windowIndex], Some(MAX_DEPTH)))[k];
      Resolve(app, e.path) == Some(e.node) && e.depth <= MAX_DEPTH
  {
    var shown := Shown(window, 0, [windowIndex], Some(MAX_DEPTH));
    WindowResolves(app, windowIndex);
    ShownResolves(app, window, 0, [windowIndex], Some(MAX_DEPTH));
    assert shown[k] in shown;
  }

  lemma CappedInOrder(app: Node, window: Node, windowIndex: nat, i: nat, j: nat)
    requires windowIndex < |app.children| && app.children[windowIndex] == Some(window)
    requires i < j < |Cap(Shown(window, 0, [windowIndex], Some(MAX_DEPTH)))|
    ensures var capped := Cap(Shown(window, 0, [windowIndex], Some(MAX_DEPTH)));
      Before(capped[i].path, capped[j].path) && capped[i].path != capped[j].path
  {
    WindowResolves(app, windowIndex);
    ShownInOrder(app, window, 0, [windowIndex], Some(MAX_DEPTH));
    var shown := Shown(window, 0, [windowIndex], Some(MAX_DEPTH));
    assert Before(shown[i].path, shown[j].path);
    BeforeIsDifferent(shown[i].path, shown[j].path);
  }

  /** `render_accessibility_tree` without tab compaction, for the window `windowIndex` of an application: the records
      number themselves, no path occurs twice, each leads back to its own node, and they are the whole rendering
      unless `truncated` says otherwise. */
  method RenderAccessibilityTree(app: Node, windowIndex: nat) returns (renderer: Renderer)
    requires windowIndex < |app.children| && app.children[windowIndex].Some?
    ensures renderer.Valid()
    ensures renderer.entries == Cap(Shown(app.children[windowIndex].value, 0, [windowIndex], Some(MAX_DEPTH)))
    ensures |renderer.records| <= 1200
    ensures !renderer.truncated ==> renderer.entries == Shown(app.children[windowIndex].value, 0, [windowIndex], None)
    ensures
      && WithinDepth(app.children[windowIndex].value, 0)
      && |Shown(app.children[windowIndex].value, 0, [windowIndex], None)| < 1200
      ==> !renderer.truncated && !renderer.maxDepthReached
    ensures forall k :: 0 <= k < |renderer.records| ==>
      && renderer.records[k].index == k
      && Resolve(app, renderer.records[k].runtimeId) == Some(renderer.entries[k].node)
      && renderer.entries[k].depth <= 64
    ensures forall i, j :: 0 <= i < j < |renderer.records| ==>
      && Before(renderer.records[i].runtimeId, renderer.records[j].runtimeId)
      && renderer.records[i].runtimeId != renderer.records[j].runtimeId
  {
    renderer := new Renderer();
    var window := app.children[windowIndex].value;
    renderer.Walk(window, 0, [windowIndex]);
    EmptySlice([Entry([windowIndex], 0, window)], 0, Shown(window, 0, [windowIndex], Some(MAX_DEPTH)));
    EmptySlice([Entry([windowIndex], 0, window)], 0, Shown(window, 0, [windowIndex], None));
    forall k | 0 <= k < |renderer.entries|
      ensures Resolve(app, renderer.entries[k].path) == Some(renderer.entries[k].node)
      ensures renderer.entries[k].depth <= MAX_DEPTH
    {
      CappedResolves(app, window, windowIndex, k);
    }
    forall i, j | 0 <= i < j < |renderer.entries|
      ensures Before(renderer.entries[i].path, renderer.entries[j].path)
      ensures renderer.entries[i].path != renderer.entries[j].path
    {
      CappedInOrder(app, window, windowIndex, i, j);
    }
  }
}
