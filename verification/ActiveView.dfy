/** The debounced preference writer as a transition system: `set`, the timer, every asynchronous step of every
    write, each step's I/O failure, and the synchronous flush may interleave in any order. */
module ActiveView {
  import opened Common

  datatype View = Terminal | Settings | Tasks | Activity | Automations | Space | Skills | Mobile

  /** A value of unknown type handed to `set`. */
  datatype Value = Text(text: string) | NotText

  function TopLevelView(value: Value): Option<View> {
    match value
    case Text("terminal") => Some(Terminal)
    case Text("settings") => Some(Settings)
    case Text("tasks") => Some(Tasks)
    case Text("activity") => Some(Activity)
    case Text("automations") => Some(Automations)
    case Text("space") => Some(Space)
    case Text("skills") => Some(Skills)
    case Text("mobile") => Some(Mobile)
    case _ => None
  }

  /** Where an asynchronous write stands between two of its awaits. */
  datatype Phase = Queued | Preparing | Writing | Touched | Written | Cleaning | Settled | Finished

  datatype Write = Write(generation: nat, view: View, previous: Option<nat>, phase: Phase) {
    /** It may still swap its temporary file in. */
    predicate Undecided() {
      phase in {Queued, Preparing, Writing, Touched, Written}
    }
  }

  datatype Content = Partial | Whole(view: View)

  datatype FlushOutcome = Completes | MkdirFails | WriteFails(touched: bool) | RenameFails

  /** The fields of the preference object, its writes in order of creation, and the disk.
      Temporary files are named by generation. `renames`, `accepted` and `failed` are history. */
  datatype State = State(
    activeView: View, persistedActiveView: Option<View>, writeTimer: bool, pendingWrite: Option<nat>,
    writeGeneration: nat, writes: seq<Write>, temp: map<nat, Content>, file: Option<View>,
    renames: seq<nat>, accepted: bool, failed: set<nat>)
  {
    function WithPhase(id: nat, phase: Phase): State
      requires id < |writes|
    {
      this.(writes := writes[id := writes[id].(phase := phase)])
    }

    function WithFailure(id: nat): State
      requires id < |writes|
    {
      WithPhase(id, Cleaning).(failed := failed + {writes[id].generation})
    }

    predicate In(id: nat, phase: Phase) {
      id < |writes| && writes[id].phase == phase
    }
  }

  datatype Event =
    | Set(value: Value)
    | TimerFires
    | Begins(id: nat)
    | DirectoryReady(id: nat)
    | DirectoryFails(id: nat)
    | FileTouched(id: nat)
    | FileFails(id: nat)
    | FileLands(id: nat)
    | Swaps(id: nat, renameWorks: bool)
    | CleansUp(id: nat, removed: bool)
    | Settles(id: nat)
    | Flush(outcome: FlushOutcome)
  {
    /** Everything the program does by itself once nobody calls it. */
    predicate Internal() {
      !Set? && !Flush?
    }

    predicate Fails() {
      DirectoryFails? || FileFails? || (Swaps? && !renameWorks) || (Flush? && outcome != Completes)
    }
  }

  function Init(stored: Option<View>, legacy: Value): State {
    var fallback := TopLevelView(legacy);
    var active := if stored.Some? then stored.value else if fallback.Some? then fallback.value else Terminal;
    State(active, stored, false, None, 0, [], map[], stored, [], false, {})
  }

  function ScheduleSave(s: State): State {
    s.(writeGeneration := s.writeGeneration + 1, writeTimer := true)
  }

  function SetView(s: State, value: Value): State {
    match TopLevelView(value)
    case None => s
    case Some(view) =>
      var t := s.(activeView := view, accepted := true);
      if Some(view) != s.persistedActiveView || s.writeTimer || s.pendingWrite.Some? then ScheduleSave(t) else t
  }

  function FireTimer(s: State): State
    requires s.writeTimer
  {
    s.(writeTimer := false,
       writes := s.writes + [Write(s.writeGeneration, s.activeView, s.pendingWrite, Queued)],
       pendingWrite := Some(|s.writes|))
  }

  predicate CanBegin(s: State, id: nat) {
    s.In(id, Queued) && (s.writes[id].previous.Some? ==> s.In(s.writes[id].previous.value, Finished))
  }

  /** The generation guard and the rename, with nothing in between. */
  function Swap(s: State, id: nat, renameWorks: bool): State
    requires s.In(id, Written)
  {
    var w := s.writes[id];
    if w.generation != s.writeGeneration then s.WithPhase(id, Cleaning)
    else if !renameWorks || w.generation !in s.temp then s.WithFailure(id)
    else
      s.WithPhase(id, Settled).(
        file := if s.temp[w.generation].Whole? then Some(s.temp[w.generation].view) else None,
        temp := s.temp - {w.generation},
        renames := s.renames + [w.generation],
        persistedActiveView := Some(w.view))
  }

  function Settle(s: State, id: nat): State
    requires s.In(id, Settled)
  {
    var t := s.WithPhase(id, Finished);
    if s.pendingWrite == Some(id) then t.(pendingWrite := None) else t
  }

  /** `mkdirSync`, `writeFileSync` and `renameSync` of the current view under the current generation. */
  function SaveNow(s: State, outcome: FlushOutcome): State {
    var generation := s.writeGeneration;
    match outcome
    case MkdirFails => s.(failed := s.failed + {generation})
    case WriteFails(touched) =>
      s.(failed := s.failed + {generation}, temp := if touched then s.temp[generation := Partial] else s.temp)
    case RenameFails =>
      s.(failed := s.failed + {generation}, temp := s.temp[generation := Whole(s.activeView)])
    case Completes =>
      s.(file := Some(s.activeView), temp := s.temp[generation := Whole(s.activeView)] - {generation},
         renames := s.renames + [generation], persistedActiveView := Some(s.activeView), accepted := true)
  }

  function FlushNow(s: State, outcome: FlushOutcome): State {
    var t := s.(writeTimer := false, writeGeneration := s.writeGeneration + 1, pendingWrite := None);
    if s.pendingWrite.None? && s.persistedActiveView == Some(s.activeView) then t else SaveNow(t, outcome)
  }

  predicate Enabled(s: State, e: Event) {
    match e
    case Set(_) => true
    case TimerFires => s.writeTimer
    case Begins(id) => CanBegin(s, id)
    case DirectoryReady(id) => s.In(id, Preparing)
    case DirectoryFails(id) => s.In(id, Preparing)
    case FileTouched(id) => s.In(id, Writing)
    case FileFails(id) => s.In(id, Writing) || s.In(id, Touched)
    case FileLands(id) => s.In(id, Writing) || s.In(id, Touched)
    case Swaps(id, _) => s.In(id, Written)
    case CleansUp(id, _) => s.In(id, Cleaning)
    case Settles(id) => s.In(id, Settled)
    case Flush(_) => true
  }

  /** One event; an event whose moment has not come changes nothing. */
  function Step(s: State, e: Event): State {
    if !Enabled(s, e) then s else
    match e
    case Set(value) => SetView(s, value)
    case TimerFires => FireTimer(s)
    case Begins(id) => s.WithPhase(id, Preparing)
    case DirectoryReady(id) => s.WithPhase(id, Writing)
    case DirectoryFails(id) => s.WithFailure(id)
    case FileTouched(id) => s.WithPhase(id, Touched).(temp := s.temp[s.writes[id].generation := Partial])
    case FileFails(id) => s.WithFailure(id)
    case FileLands(id) => s.WithPhase(id, Written).(temp := s.temp[s.writes[id].generation := Whole(s.writes[id].view)])
    case Swaps(id, renameWorks) => Swap(s, id, renameWorks)
    case CleansUp(id, removed) =>
      s.WithPhase(id, Settled).(temp := if removed then s.temp - {s.writes[id].generation} else s.temp)
    case Settles(id) => Settle(s, id)
    case Flush(outcome) => FlushNow(s, outcome)
  }

  function Run(s: State, events: seq<Event>): State
    decreases |events|
  {
    if events == [] then s else Run(Step(s, events[0]), events[1..])
  }

  // ---- What every step keeps ----

  ghost predicate Increasing(generations: seq<nat>) {
    forall i, j :: 0 <= i < j < |generations| ==> generations[i] < generations[j]
  }

  /** Generations number the writes in order; none is ahead of the counter, and a set timer is ahead of them all. */
  ghost predicate GenerationsOrdered(s: State) {
    && (forall i, j :: 0 <= i < j < |s.writes| ==> s.writes[i].generation < s.writes[j].generation)
    && (forall i :: 0 <= i < |s.writes| ==> s.writes[i].generation <= s.writeGeneration)
    && (s.writeTimer ==> forall i :: 0 <= i < |s.writes| ==> s.writes[i].generation < s.writeGeneration)
  }

  ghost predicate RenamesOrdered(s: State) {
    && Increasing(s.renames)
    && (forall k :: 0 <= k < |s.renames| ==> s.renames[k] <= s.writeGeneration)
    && (s.writeTimer ==> forall k :: 0 <= k < |s.renames| ==> s.renames[k] < s.writeGeneration)
    && (forall i, k :: 0 <= i < |s.writes| && s.writes[i].Undecided() && 0 <= k < |s.renames| ==>
          s.renames[k] != s.writes[i].generation)
  }

  /** A write that can still pass the guard is the pending one, and it carries the current view. */
  ghost predicate CurrentWriteIsPending(s: State) {
    && (forall i :: 0 <= i < |s.writes| && s.writes[i].phase != Finished
                    && s.writes[i].generation == s.writeGeneration ==>
          s.pendingWrite == Some(i) && s.writes[i].view == s.activeView)
    && (s.pendingWrite.Some? ==>
          && s.pendingWrite.value == |s.writes| - 1
          && s.writes[s.pendingWrite.value].phase != Finished
          && (!s.writeTimer ==> s.writes[s.pendingWrite.value].generation == s.writeGeneration))
    && (forall i :: 0 <= i < |s.writes| && s.writes[i].previous.Some? ==> s.writes[i].previous.value < i)
  }

  ghost predicate DiskAgrees(s: State) {
    && s.file == s.persistedActiveView
    && (forall i :: 0 <= i < |s.writes| && s.writes[i].phase == Written ==>
          s.writes[i].generation in s.temp && s.temp[s.writes[i].generation] == Whole(s.writes[i].view))
  }

  /** Whatever the newest generation left undone is due to an I/O failure of that generation. */
  ghost predicate Accounted(s: State) {
    var done := s.persistedActiveView == Some(s.activeView) || s.writeGeneration in s.failed;
    && (forall i :: 0 <= i < |s.writes| && s.writes[i].generation == s.writeGeneration ==>
          && (s.writes[i].phase == Cleaning ==> s.writeGeneration in s.failed)
          && (s.writes[i].phase == Settled ==> done))
    && (s.accepted && !s.writeTimer && s.pendingWrite.None? ==> done)
  }

  ghost predicate Inv(s: State) {
    GenerationsOrdered(s) && RenamesOrdered(s) && CurrentWriteIsPending(s) && DiskAgrees(s) && Accounted(s)
  }

  lemma InitInv(stored: Option<View>, legacy: Value)
    ensures Inv(Init(stored, legacy))
  {
  }

  lemma SetKeeps(s: State, value: Value)
    requires Inv(s)
    ensures Inv(SetView(s, value))
  {
  }

  lemma TimerKeeps(s: State)
    requires Inv(s) && s.writeTimer
    ensures Inv(FireTimer(s))
  {
  }

  lemma FlushOrders(s: State, outcome: FlushOutcome)
    requires Inv(s)
    ensures var t := FlushNow(s, outcome); GenerationsOrdered(t) && RenamesOrdered(t)
  {
  }

  lemma FlushLeavesNothingCurrent(s: State, outcome: FlushOutcome)
    requires Inv(s)
    ensures var t := FlushNow(s, outcome); CurrentWriteIsPending(t) && DiskAgrees(t) && Accounted(t)
  {
    var t := FlushNow(s, outcome);
    assert forall i :: 0 <= i < |t.writes| ==> t.writes[i].generation < t.writeGeneration;
  }

  lemma FlushKeeps(s: State, outcome: FlushOutcome)
    requires Inv(s)
    ensures Inv(FlushNow(s, outcome))
  {
    FlushOrders(s, outcome);
    FlushLeavesNothingCurrent(s, outcome);
  }

  /** `t` is `s` with one write in another phase; the disk and the history may differ. */
  ghost predicate Moved(s: State, t: State, id: nat, phase: Phase) {
    && id < |s.writes|
    && t.writes == s.writes[id := s.writes[id].(phase := phase)]
    && t.writeTimer == s.writeTimer && t.writeGeneration == s.writeGeneration && t.activeView == s.activeView
    && t.accepted == s.accepted
  }

  lemma MoveKeepsGenerations(s: State, t: State, id: nat, phase: Phase)
    requires GenerationsOrdered(s) && Moved(s, t, id, phase)
    ensures GenerationsOrdered(t)
  {
  }

  lemma MoveKeepsRenames(s: State, t: State, id: nat, phase: Phase)
    requires RenamesOrdered(s) && Moved(s, t, id, phase) && t.renames == s.renames
    requires t.writes[id].Undecided() ==> s.writes[id].Undecided()
    ensures RenamesOrdered(t)
  {
  }

  lemma MoveKeepsCurrent(s: State, t: State, id: nat, phase: Phase)
    requires CurrentWriteIsPending(s) && Moved(s, t, id, phase) && t.pendingWrite == s.pendingWrite
    requires phase != Finished && s.writes[id].phase != Finished
    ensures CurrentWriteIsPending(t)
  {
  }

  /** Only the write itself touches the temporary file of its generation. */
  lemma MoveKeepsDisk(s: State, t: State, id: nat, phase: Phase)
    requires GenerationsOrdered(s) && DiskAgrees(s) && Moved(s, t, id, phase)
    requires t.file == t.persistedActiveView
    requires forall g :: g in s.temp && g != s.writes[id].generation ==> g in t.temp && t.temp[g] == s.temp[g]
    requires phase == Written ==> var g := s.writes[id].generation; g in t.temp && t.temp[g] == Whole(s.writes[id].view)
    ensures DiskAgrees(t)
  {
    forall i | 0 <= i < |t.writes| && t.writes[i].phase == Written
      ensures t.writes[i].generation in t.temp && t.temp[t.writes[i].generation] == Whole(t.writes[i].view)
    {
      if i != id {
        assert s.writes[i].generation != s.writes[id].generation;
      }
    }
  }

  lemma MoveKeepsAccounts(s: State, t: State, id: nat, phase: Phase)
    requires GenerationsOrdered(s) && Accounted(s) && Moved(s, t, id, phase)
    requires s.failed <= t.failed
    requires t.persistedActiveView == s.persistedActiveView || t.persistedActiveView == Some(t.activeView)
    requires t.pendingWrite == s.pendingWrite
    requires phase == Cleaning && s.writes[id].generation == s.writeGeneration ==> s.writeGeneration in t.failed
    requires phase == Settled && s.writes[id].generation == s.writeGeneration ==>
      t.persistedActiveView == Some(t.activeView) || s.writeGeneration in t.failed
    ensures Accounted(t)
  {
  }

  lemma MoveKeeps(s: State, t: State, id: nat, phase: Phase)
    requires Inv(s) && Moved(s, t, id, phase)
    requires t.renames == s.renames && t.pendingWrite == s.pendingWrite
    requires t.file == s.file && t.persistedActiveView == s.persistedActiveView && s.failed <= t.failed
    requires phase != Finished && s.writes[id].phase != Finished
    requires t.writes[id].Undecided() ==> s.writes[id].Undecided()
    requires forall g :: g in s.temp && g != s.writes[id].generation ==> g in t.temp && t.temp[g] == s.temp[g]
    requires phase == Written ==> var g := s.writes[id].generation; g in t.temp && t.temp[g] == Whole(s.writes[id].view)
    requires phase == Cleaning && s.writes[id].generation == s.writeGeneration ==> s.writeGeneration in t.failed
    requires phase == Settled ==> s.writes[id].phase == Cleaning
    ensures Inv(t)
  {
    MoveKeepsGenerations(s, t, id, phase);
    MoveKeepsRenames(s, t, id, phase);
    MoveKeepsCurrent(s, t, id, phase);
    MoveKeepsDisk(s, t, id, phase);
    MoveKeepsAccounts(s, t, id, phase);
  }

  lemma RenameOrders(s: State, id: nat)
    requires Inv(s) && s.In(id, Written) && s.writes[id].generation == s.writeGeneration
    ensures var t := Swap(s, id, true); Moved(s, t, id, Settled) && RenamesOrdered(t)
  {
    var t := Swap(s, id, true);
    assert !s.writeTimer;
    forall k | 0 <= k < |s.renames|
      ensures s.renames[k] < s.writeGeneration
    {
      assert s.renames[k] != s.writes[id].generation;
    }
    forall i | 0 <= i < |t.writes| && t.writes[i].Undecided()
      ensures t.writes[i].generation != s.writeGeneration
    {
      assert i != id;
    }
  }

  lemma SwapKeeps(s: State, id: nat, renameWorks: bool)
    requires Inv(s) && s.In(id, Written)
    ensures Inv(Swap(s, id, renameWorks))
  {
    var t := Swap(s, id, renameWorks);
    assert s.writes[id].generation in s.temp;
    if s.writes[id].generation != s.writeGeneration || !renameWorks {
      MoveKeeps(s, t, id, Cleaning);
    } else {
      RenameOrders(s, id);
      MoveKeepsGenerations(s, t, id, Settled);
      MoveKeepsCurrent(s, t, id, Settled);
      MoveKeepsDisk(s, t, id, Settled);
      MoveKeepsAccounts(s, t, id, Settled);
    }
  }

  lemma SettleKeeps(s: State, id: nat)
    requires Inv(s) && s.In(id, Settled)
    ensures Inv(Settle(s, id))
  {
    var t := Settle(s, id);
    MoveKeepsGenerations(s, t, id, Finished);
    MoveKeepsRenames(s, t, id, Finished);
    MoveKeepsDisk(s, t, id, Finished);
    assert s.pendingWrite != Some(id) ==> s.pendingWrite == t.pendingWrite;
  }

  lemma WriteStepKeeps(s: State, e: Event)
    requires Inv(s) && Enabled(s, e) && e.Internal() && !e.TimerFires? && !e.Swaps?
    ensures Inv(Step(s, e))
  {
    if e.Settles? {
      SettleKeeps(s, e.id);
    } else {
      MoveKeeps(s, Step(s, e), e.id, Step(s, e).writes[e.id].phase);
    }
  }

  lemma StepKeeps(s: State, e: Event)
    requires Inv(s)
    ensures Inv(Step(s, e))
  {
    if Enabled(s, e) {
      match e {
        case Set(value) => SetKeeps(s, value);
        case TimerFires => TimerKeeps(s);
        case Flush(outcome) => FlushKeeps(s, outcome);
        case Swaps(id, renameWorks) => SwapKeeps(s, id, renameWorks);
        case _ => WriteStepKeeps(s, e);
      }
    }
  }

  /** The invariant holds in every reachable state, whatever the interleaving. */
  lemma {:induction false} RunKeeps(s: State, events: seq<Event>)
    requires Inv(s)
    ensures Inv(Run(s, events))
    decreases |events|
  {
    if events == [] {
    } else {
      StepKeeps(s, events[0]);
      RunKeeps(Step(s, events[0]), events[1..]);
    }
  }

  /** Some run leads there. */
  ghost predicate Reachable(s: State) {
    exists stored, legacy, events :: Run(Init(stored, legacy), events) == s
  }

  lemma {:induction false} RunOneMore(s: State, events: seq<Event>, e: Event)
    ensures Run(s, events + [e]) == Step(Run(s, events), e)
    decreases |events|
  {
    if events == [] {
      EmptySlice(events, 0, [e]);
      assert [e][1..] == [];
    } else {
      assert (events + [e])[1..] == events[1..] + [e];
      RunOneMore(Step(s, events[0]), events[1..], e);
    }
  }

  lemma InitReachable(stored: Option<View>, legacy: Value)
    ensures Reachable(Init(stored, legacy))
  {
    assert Run(Init(stored, legacy), []) == Init(stored, legacy);
  }

  lemma StepReachable(s: State, e: Event)
    requires Reachable(s)
    ensures Reachable(Step(s, e))
  {
    var stored, legacy, events :| Run(Init(stored, legacy), events) == s;
    RunOneMore(Init(stored, legacy), events, e);
  }

  lemma ReachableInv(s: State)
    requires Reachable(s)
    ensures Inv(s)
  {
    var stored, legacy, events :| Run(Init(stored, legacy), events) == s;
    InitInv(stored, legacy);
    RunKeeps(Init(stored, legacy), events);
  }

  // ---- Main results ----

  /** In every reachable state the renames happened in strictly increasing generation order, no two asynchronous writes
      have the same temporary file, and the file holds the view that is recorded as persisted. */
  lemma RenamesIncreaseAndTempFilesDiffer(stored: Option<View>, legacy: Value, events: seq<Event>)
    ensures var s := Run(Init(stored, legacy), events);
      && Increasing(s.renames)
      && (forall i, j :: 0 <= i < j < |s.writes| ==> s.writes[i].generation != s.writes[j].generation)
      && (forall i :: 0 <= i < |s.writes| ==> s.writes[i].generation != s.writeGeneration + 1)
      && s.file == s.persistedActiveView
  {
    InitInv(stored, legacy);
    RunKeeps(Init(stored, legacy), events);
  }

  predicate FlushReturns(s: State, outcome: FlushOutcome) {
    outcome == Completes || (s.pendingWrite.None? && s.persistedActiveView == Some(s.activeView))
  }

  ghost predicate Calm(s: State) {
    !s.writeTimer && s.pendingWrite.None? && s.persistedActiveView == Some(s.activeView)
  }

  lemma CalmStays(s: State, e: Event)
    requires Inv(s) && Calm(s) && !e.Set?
    ensures Calm(Step(s, e)) && Step(s, e).activeView == s.activeView
  {
  }

  lemma {:induction false} CalmLasts(s: State, events: seq<Event>)
    requires Inv(s) && Calm(s) && forall e :: e in events ==> !e.Set?
    ensures var r := Run(s, events); Inv(r) && Calm(r) && r.activeView == s.activeView
    decreases |events|
  {
    if events == [] {
    } else {
      var e := events[0];
      StepKeeps(s, e);
      CalmStays(s, e);
      CalmLasts(Step(s, e), events[1..]);
    }
  }

  /** When `flushOrThrow` returns, the file holds the current view, and until the next `set` nothing that was
      begun before, and no later flush, changes it. */
  lemma FlushIsDurable(s: State, outcome: FlushOutcome, events: seq<Event>)
    requires Inv(s) && FlushReturns(s, outcome)
    requires forall e :: e in events ==> !e.Set?
    ensures var r := Run(FlushNow(s, outcome), events);
      r.file == Some(s.activeView) && r.persistedActiveView == Some(s.activeView) && r.activeView == s.activeView
  {
    FlushKeeps(s, outcome);
    CalmLasts(FlushNow(s, outcome), events);
  }

  lemma FlushSaves(s: State, outcome: FlushOutcome)
    requires Reachable(s) && FlushReturns(s, outcome)
    ensures var t := FlushNow(s, outcome); t.file == Some(s.activeView) && t.activeView == s.activeView
  {
    ReachableInv(s);
  }

  lemma NextRenameIsNewer(s: State, e: Event)
    ensures var r := Step(s, e);
      && s.writeGeneration <= r.writeGeneration && s.renames <= r.renames
      && forall k :: |s.renames| <= k < |r.renames| ==> s.writeGeneration <= r.renames[k]
  {
  }

  lemma {:induction false} LaterRenamesAreNewer(s: State, events: seq<Event>)
    ensures var r := Run(s, events);
      && s.writeGeneration <= r.writeGeneration && s.renames <= r.renames
      && forall k :: |s.renames| <= k < |r.renames| ==> s.writeGeneration <= r.renames[k]
    decreases |events|
  {
    if events == [] {
    } else {
      NextRenameIsNewer(s, events[0]);
      LaterRenamesAreNewer(Step(s, events[0]), events[1..]);
    }
  }

  /** Whether the flush returned or threw, and whatever is set afterwards: a write begun before the flush never
      lands after it. */
  lemma EarlierWritesNeverLand(s: State, outcome: FlushOutcome, events: seq<Event>)
    requires Inv(s)
    ensures var t := FlushNow(s, outcome);
      var r := Run(t, events);
      && t.renames <= r.renames
      && forall k, id :: |t.renames| <= k < |r.renames| && 0 <= id < |s.writes| ==>
           s.writes[id].generation < r.renames[k]
  {
    LaterRenamesAreNewer(FlushNow(s, outcome), events);
  }

  /** The first `count` writes are older than `generation`; whatever is named from now on is newer. */
  ghost predicate NamesBehind(s: State, count: nat, generation: nat) {
    && count <= |s.writes| && generation <= s.writeGeneration && (s.writeTimer ==> generation < s.writeGeneration)
    && (forall id :: 0 <= id < count ==> s.writes[id].generation < generation)
    && (forall id :: count <= id < |s.writes| ==> generation < s.writes[id].generation)
  }

  lemma NewNamesStayBehind(s: State, e: Event, count: nat, generation: nat)
    requires NamesBehind(s, count, generation) && (e.Set? || e.TimerFires? || e.Flush?)
    ensures NamesBehind(Step(s, e), count, generation)
  {
  }

  lemma NamesStayBehind(s: State, e: Event, count: nat, generation: nat)
    requires NamesBehind(s, count, generation)
    ensures NamesBehind(Step(s, e), count, generation)
  {
    if e.Set? || e.TimerFires? || e.Flush? {
      NewNamesStayBehind(s, e, count, generation);
    } else if Enabled(s, e) {
      var t := Step(s, e);
      assert t.writes == s.writes[e.id := t.writes[e.id]] && t.writes[e.id].generation == s.writes[e.id].generation;
    }
  }

  lemma {:induction false} NamesStayBehindInRuns(s: State, events: seq<Event>, count: nat, generation: nat)
    requires NamesBehind(s, count, generation)
    ensures NamesBehind(Run(s, events), count, generation)
    decreases |events|
  {
    if events == [] {
    } else {
      NamesStayBehind(s, events[0], count, generation);
      NamesStayBehindInRuns(Step(s, events[0]), events[1..], count, generation);
    }
  }

  /** The temporary file of a flush, which a flush that throws may leave behind, is that of no other write: neither of
      one begun before it, nor of one begun after it, nor of a later flush. */
  lemma FlushFileIsItsOwn(s: State, outcome: FlushOutcome, events: seq<Event>)
    requires Inv(s)
    ensures var generation := FlushNow(s, outcome).writeGeneration;
      var r := Run(FlushNow(s, outcome), events);
      && |s.writes| <= |r.writes|
      && (forall id :: 0 <= id < |s.writes| ==> r.writes[id].generation < generation)
      && (forall id :: |s.writes| <= id < |r.writes| ==> generation < r.writes[id].generation)
      && (forall later :: generation < FlushNow(r, later).writeGeneration)
  {
    NamesStayBehindInRuns(FlushNow(s, outcome), events, |s.writes|, s.writeGeneration + 1);
  }

  ghost predicate Quiescent(s: State) {
    !s.writeTimer && s.pendingWrite.None?
  }

  /** A quiescent state after an accepted `set` has the view on disk, unless the newest generation itself failed. */
  lemma QuiescentMeansSaved(stored: Option<View>, legacy: Value, events: seq<Event>)
    ensures var s := Run(Init(stored, legacy), events);
      s.accepted && Quiescent(s) ==>
        (s.file == s.persistedActiveView == Some(s.activeView)) || s.writeGeneration in s.failed
  {
    InitInv(stored, legacy);
    RunKeeps(Init(stored, legacy), events);
  }

  lemma {:induction false} FailureNeedsFailingEvent(s: State, e: Event)
    requires Inv(s) && !e.Fails()
    ensures Step(s, e).failed == s.failed
  {
  }

  lemma {:induction false} FailuresNeedFailingEvents(s: State, events: seq<Event>)
    requires Inv(s) && forall e :: e in events ==> !e.Fails()
    ensures Run(s, events).failed == s.failed
    decreases |events|
  {
    if events == [] {
    } else {
      assert events[0] in events;
      StepKeeps(s, events[0]);
      FailureNeedsFailingEvent(s, events[0]);
      FailuresNeedFailingEvents(Step(s, events[0]), events[1..]);
    }
  }

  // ---- Every write begun does come to an end ----

  function StepsLeft(phase: Phase): nat {
    match phase
    case Queued => 7
    case Preparing => 6
    case Writing => 5
    case Touched => 4
    case Written => 3
    case Cleaning => 2
    case Settled => 1
    case Finished => 0
  }

  function WorkOf(writes: seq<Write>): nat {
    if writes == [] then 0 else StepsLeft(writes[0].phase) + WorkOf(writes[1..])
  }

  function Work(s: State): nat {
    (if s.writeTimer then 8 else 0) + WorkOf(s.writes)
  }

  lemma {:induction false} WorkOfMove(writes: seq<Write>, id: nat, w: Write)
    requires id < |writes|
    ensures WorkOf(writes[id := w]) == WorkOf(writes) - StepsLeft(writes[id].phase) + StepsLeft(w.phase)
  {
    if id == 0 {
      assert writes[id := w][1..] == writes[1..];
    } else {
      assert writes[id := w][1..] == writes[1..][id - 1 := w];
      WorkOfMove(writes[1..], id - 1, w);
    }
  }

  lemma {:induction false} WorkOfAppend(writes: seq<Write>, w: Write)
    ensures WorkOf(writes + [w]) == WorkOf(writes) + StepsLeft(w.phase)
  {
    if writes == [] {
    } else {
      assert (writes + [w])[1..] == writes[1..] + [w];
      WorkOfAppend(writes[1..], w);
    }
  }

  lemma InternalStepsAdvanceOneWrite(s: State, e: Event)
    requires e.Internal() && Enabled(s, e) && !e.TimerFires?
    ensures e.id < |s.writes| == |Step(s, e).writes|
    ensures var w := Step(s, e).writes[e.id];
      Step(s, e).writes == s.writes[e.id := w] && StepsLeft(w.phase) < StepsLeft(s.writes[e.id].phase)
    ensures Step(s, e).writeTimer == s.writeTimer
  {
  }

  /** Every internal event uses up work. */
  lemma InternalStepsAreFinite(s: State, e: Event)
    requires e.Internal() && Enabled(s, e)
    ensures Work(Step(s, e)) < Work(s)
  {
    if e.TimerFires? {
      WorkOfAppend(s.writes, Write(s.writeGeneration, s.activeView, s.pendingWrite, Queued));
    } else {
      InternalStepsAdvanceOneWrite(s, e);
      WorkOfMove(s.writes, e.id, Step(s, e).writes[e.id]);
    }
  }

  /** An unfinished write, or one it waits for, has an internal event enabled. */
  lemma {:induction false} ChainNeverStuck(s: State, id: nat) returns (e: Event)
    requires Inv(s) && id < |s.writes| && s.writes[id].phase != Finished
    ensures e.Internal() && !e.Fails() && Enabled(s, e)
    decreases id
  {
    var w := s.writes[id];
    match w.phase {
      case Queued =>
        if w.previous.Some? && !s.In(w.previous.value, Finished) {
          e := ChainNeverStuck(s, w.previous.value);
        } else {
          e := Begins(id);
        }
      case Preparing => e := DirectoryReady(id);
      case Writing => e := FileLands(id);
      case Touched => e := FileLands(id);
      case Written => e := Swaps(id, true);
      case Cleaning => e := CleansUp(id, true);
      case Settled => e := Settles(id);
      case Finished =>
    }
  }

  /** Left alone and without failures, an accepted view reaches the disk: the run below extends any reachable
      state by internal events only, and ends quiescent with the current view in the file. */
  lemma {:induction false} AcceptedViewLands(s: State) returns (events: seq<Event>)
    requires Inv(s) && s.accepted && s.failed == {}
    ensures forall e :: e in events ==> e.Internal() && !e.Fails()
    ensures |events| <= Work(s)
    ensures var r := Run(s, events); Quiescent(r) && r.file == r.persistedActiveView == Some(s.activeView)
    decreases Work(s)
  {
    if Quiescent(s) {
      return [];
    }
    var e: Event;
    if s.writeTimer {
      e := TimerFires;
    } else {
      e := ChainNeverStuck(s, s.pendingWrite.value);
    }
    StepKeeps(s, e);
    InternalStepsAreFinite(s, e);
    var t := Step(s, e);
    FailuresNeedFailingEvents(s, [e]);
    assert Run(s, [e]) == Run(t, []) == t;
    var rest := AcceptedViewLands(t);
    events := [e] + rest;
    assert events[1..] == rest;
  }

  /** And every way of leaving it alone ends there: internal runs are bounded, and one that cannot be extended
      has saved the view. */
  lemma StuckMeansSaved(s: State)
    requires Inv(s) && s.accepted && s.failed == {}
    requires forall e: Event :: e.Internal() ==> !Enabled(s, e)
    ensures Quiescent(s) && s.file == s.persistedActiveView == Some(s.activeView)
  {
    assert !Enabled(s, TimerFires);
    if s.pendingWrite.Some? {
      var e := ChainNeverStuck(s, s.pendingWrite.value);
      assert false;
    }
  }

  // ---- Restarts ----

  function NameOf(view: View): string {
    match view
    case Terminal => "terminal"
    case Settings => "settings"
    case Tasks => "tasks"
    case Activity => "activity"
    case Automations => "automations"
    case Space => "space"
    case Skills => "skills"
    case Mobile => "mobile"
  }

  /** A value is a view exactly if it is the text of its name. */
  lemma ViewsAreNames(value: Value, view: View)
    ensures TopLevelView(value) == Some(view) <==> value == Text(NameOf(view))
  {
  }

  /** What is shown at the start: the stored view if there is one, else the view that the legacy value names, else the
      terminal. Nothing is pending, and the file is as it was. */
  lemma StartShows(stored: Option<View>, legacy: Value)
    ensures var s := Init(stored, legacy);
      && (forall view :: stored == Some(view) ==> s.activeView == view)
      && (forall view :: stored == None && legacy == Text(NameOf(view)) ==> s.activeView == view)
      && (stored == None && (forall view :: legacy != Text(NameOf(view))) ==> s.activeView == Terminal)
      && s.file == stored && s.persistedActiveView == stored && !s.writeTimer && s.pendingWrite == None
  {
    if TopLevelView(legacy).Some? {
      ViewsAreNames(legacy, TopLevelView(legacy).value);
    }
    forall view
      ensures TopLevelView(legacy) == Some(view) <==> legacy == Text(NameOf(view))
    {
      ViewsAreNames(legacy, view);
    }
  }

  /** A restart after a flush that returned shows the view that was flushed, whatever the legacy value. */
  lemma RestartAfterFlush(s: State, outcome: FlushOutcome, legacy: Value)
    requires Reachable(s) && FlushReturns(s, outcome)
    ensures Init(FlushNow(s, outcome).file, legacy).activeView == s.activeView
  {
    FlushSaves(s, outcome);
    StartShows(FlushNow(s, outcome).file, legacy);
  }

  /** So does a restart once the writer has come to rest without a failure of the newest write. */
  lemma RestartAtRest(s: State, legacy: Value)
    requires Reachable(s) && s.accepted && Quiescent(s) && s.writeGeneration !in s.failed
    ensures Init(s.file, legacy).activeView == s.activeView
  {
    ReachableInv(s);
    StartShows(s.file, legacy);
  }

  // ---- Nothing more than is needed ----

  /** A `set` changes the view exactly if it names one, and schedules a write exactly if the view is not the persisted
      one or some write is still under way. */
  lemma SetSchedulesIff(s: State, value: Value)
    ensures var t := Step(s, Set(value));
      && (forall view :: value == Text(NameOf(view)) ==>
            && t.activeView == view
            && if s.persistedActiveView == Some(view) && !s.writeTimer && s.pendingWrite == None then
                 !t.writeTimer && t.writeGeneration == s.writeGeneration
               else t.writeTimer && t.writeGeneration == s.writeGeneration + 1)
      && ((forall view :: value != Text(NameOf(view))) ==> t == s)
      && t.file == s.file && t.persistedActiveView == s.persistedActiveView && t.writes == s.writes
  {
    forall view
      ensures TopLevelView(value) == Some(view) <==> value == Text(NameOf(view))
    {
      ViewsAreNames(value, view);
    }
    if TopLevelView(value).Some? {
      assert value == Text(NameOf(TopLevelView(value).value));
    }
  }

  /** A flush writes exactly if the view is not the persisted one or a write is under way; else it leaves the disk
      alone. */
  lemma FlushWritesIff(s: State, outcome: FlushOutcome)
    ensures var t := FlushNow(s, outcome);
      if s.pendingWrite == None && s.persistedActiveView == Some(s.activeView) then
        t.file == s.file && t.temp == s.temp && t.renames == s.renames && t.failed == s.failed
      else if outcome == Completes then
        t.renames == s.renames + [s.writeGeneration + 1] && t.file == Some(s.activeView)
      else t.file == s.file && t.renames == s.renames && t.failed == s.failed + {s.writeGeneration + 1}
  {
  }

  /** Nothing goes wrong that would leave a temporary file behind. */
  predicate Tidy(e: Event) {
    (e.CleansUp? ==> e.removed) && (e.Flush? ==> e.outcome == Completes || e.outcome == MkdirFails)
  }

  ghost predicate InUse(s: State, g: nat, id: nat) {
    id < |s.writes| && s.writes[id].generation == g && s.writes[id].phase in {Touched, Written, Cleaning}
  }

  /** Every temporary file belongs to a write that is still at work on it. */
  ghost predicate TempsInUse(s: State) {
    forall g :: g in s.temp ==> exists id :: InUse(s, g, id)
  }

  lemma WriterStays(s: State, e: Event, g: nat, id: nat)
    requires InUse(s, g, id) && Tidy(e) && g in Step(s, e).temp
    ensures InUse(Step(s, e), g, id)
  {
  }

  lemma NewTempIsInUse(s: State, e: Event, g: nat)
    requires Tidy(e) && g !in s.temp && g in Step(s, e).temp
    ensures (e.FileTouched? || e.FileLands?) && InUse(Step(s, e), g, e.id)
  {
  }

  lemma TempsStayInUse(s: State, e: Event)
    requires TempsInUse(s) && Tidy(e)
    ensures TempsInUse(Step(s, e))
  {
    var t := Step(s, e);
    forall g | g in t.temp
      ensures exists id :: InUse(t, g, id)
    {
      if g in s.temp {
        var id :| InUse(s, g, id);
        WriterStays(s, e, g, id);
      } else {
        NewTempIsInUse(s, e, g);
      }
    }
  }

  lemma {:induction false} RunsStayTidy(s: State, events: seq<Event>)
    requires Inv(s) && TempsInUse(s) && forall e :: e in events ==> Tidy(e)
    ensures TempsInUse(Run(s, events))
    decreases |events|
  {
    if events == [] {
    } else {
      StepKeeps(s, events[0]);
      TempsStayInUse(s, events[0]);
      RunsStayTidy(Step(s, events[0]), events[1..]);
    }
  }

  /** Where removals and flushes work, no temporary file outlives its write. */
  lemma NoTempIsLeft(stored: Option<View>, legacy: Value, events: seq<Event>)
    requires forall e :: e in events ==> Tidy(e)
    ensures var s := Run(Init(stored, legacy), events);
      (forall id :: 0 <= id < |s.writes| ==> s.writes[id].phase == Finished) ==> s.temp == map[]
  {
    InitInv(stored, legacy);
    RunsStayTidy(Init(stored, legacy), events);
    var s := Run(Init(stored, legacy), events);
    if forall id :: 0 <= id < |s.writes| ==> s.writes[id].phase == Finished {
      assert forall g, id :: !InUse(s, g, id);
      assert s.temp.Keys == {};
    }
  }
}
