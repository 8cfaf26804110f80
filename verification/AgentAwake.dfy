/** The agent-awake service driving a power-save blocker and the platform assertions, re-entered by the lid
    assertion's callback. Clock readings, spawn results and blocker faults are inputs of each pass. */
module AgentAwake {
  import opened Common
  import opened SleepAssertion

  const STALE_AFTER_MS := 2 * 60 * 60 * 1000

  datatype Activity = Working | NotWorking

  /** `receivedAt` is None when it is not a finite number. */
  datatype Status = Status(activity: Activity, receivedAt: Option<int>, observedInCurrentRuntime: bool) {
    predicate Counts() {
      observedInCurrentRuntime && activity == Working && receivedAt.Some?
    }

    function Expiry(): int
      requires Counts()
    {
      receivedAt.value + STALE_AFTER_MS
    }

    predicate WakeEligible(now: int) {
      observedInCurrentRuntime && activity == Working && receivedAt.Some? && now - receivedAt.value <= STALE_AFTER_MS
    }
  }

  /** How the power-save blocker behaves during one pass; `takes` is whether the call has its effect. */
  datatype BlockerEnv = BlockerEnv(firstQueryThrows: bool, callThrows: bool, takes: bool, lastQueryThrows: bool) {
    predicate Works() {
      !firstQueryThrows && !callThrows && takes && !lastQueryThrows
    }

    /** A stop has its effect, and the query behind it says so. */
    predicate Stops() {
      !callThrows && takes && !lastQueryThrows
    }
  }

  /** One pass of `refresh`, in the order of its clock readings. */
  datatype Round = Round(scheduleNow: int, countNow: int, blocker: BlockerEnv, start: StartEnv)

  /** `host` is the assertion of the platform that the service runs on; the other one's `start` and `stop` return at
      once. `armedAt` is history: the reading at which the stale timer was last considered. */
  datatype Awake = Awake(
    enabled: bool, statuses: seq<Status>, blockerId: Option<nat>, staleTimer: Option<int>,
    blockersStarted: set<nat>, nextBlocker: nat, host: Assertion, armedAt: int)

  datatype Platform = Linux | MacOs | Elsewhere

  function HostAssertion(platform: Platform): Assertion {
    Fresh(if platform == MacOs then Caffeinate else SystemdInhibit, platform != Elsewhere)
  }

  function Created(platform: Platform): Awake {
    Awake(false, [], None, None, {}, 0, HostAssertion(platform), 0)
  }

  // ---- The stale timer ----

  function Earlier(x: Option<int>, y: int): int {
    if x.Some? && x.value <= y then x.value else y
  }

  function EarliestExpiry(statuses: seq<Status>, now: int): Option<int> {
    if statuses == [] then None else
    var n := |statuses| - 1;
    var rest := EarliestExpiry(statuses[..n], now);
    if !statuses[n].Counts() || statuses[n].Expiry() <= now then rest else Some(Earlier(rest, statuses[n].Expiry()))
  }

  /** A status counts while it is working, was seen by this process and carries a time; it expires two hours after
      that. */
  lemma CountsForTwoHours(status: Status)
    ensures status.Counts()
       <==> status.activity == Working && status.observedInCurrentRuntime && status.receivedAt != None
    ensures status.Counts() ==> status.Expiry() == status.receivedAt.value + 7_200_000
    ensures forall now :: status.WakeEligible(now) <==> status.Counts() && now <= status.Expiry()
  {
  }

  function EligibleCount(statuses: seq<Status>, now: int): nat {
    if statuses == [] then 0 else
    (if statuses[0].WakeEligible(now) then 1 else 0) + EligibleCount(statuses[1..], now)
  }

  /** Working statuses that have not expired: the measure of how often the stale timer can still fire. */
  function UnexpiredCount(statuses: seq<Status>, now: int): nat {
    if statuses == [] then 0 else
    (if statuses[0].Counts() && now < statuses[0].Expiry() then 1 else 0) + UnexpiredCount(statuses[1..], now)
  }

  // ---- The blocker ----

  /** `reconcileBlocker`: the second component says that the blocker is to be taken as running. */
  function Reconcile(s: Awake, queryThrows: bool): (Awake, bool) {
    if s.blockerId.None? then (s, false)
    else if queryThrows then (s, true)
    else if s.blockerId.value in s.blockersStarted then (s, true)
    else (s.(blockerId := None), false)
  }

  function StartBlocker(s: Awake, env: BlockerEnv): Awake {
    var (t, running) := if s.blockerId.Some? then Reconcile(s, env.firstQueryThrows) else (s, false);
    if running || env.callThrows then t
    else
      var id := t.nextBlocker;
      Reconcile(t.(nextBlocker := id + 1, blockerId := Some(id),
                   blockersStarted := if env.takes then t.blockersStarted + {id} else t.blockersStarted),
                env.lastQueryThrows).0
  }

  function StopBlocker(s: Awake, env: BlockerEnv): Awake {
    if s.blockerId.None? then s
    else
      var stopped := s.(blockersStarted := s.blockersStarted - {s.blockerId.value});
      var t := if !env.callThrows && env.takes then stopped else s;
      Reconcile(t, env.lastQueryThrows).0
  }

  // ---- Refresh ----

  predicate ShouldBlock(s: Awake, now: int) {
    s.enabled && EligibleCount(s.statuses, now) > 0
  }

  function ScheduleStaleTimer(s: Awake, now: int): Awake {
    s.(staleTimer := EarliestExpiry(s.statuses, now), armedAt := now)
  }

  function StartAll(s: Awake, round: Round): (Awake, bool) {
    var blocked := StartBlocker(s, round.blocker);
    var (host, owed) := Start(blocked.host, round.start);
    (blocked.(host := host), owed)
  }

  function StopAll(s: Awake, env: BlockerEnv): Awake {
    var released := StopBlocker(s, env);
    released.(host := Stop(released.host))
  }

  /** One pass; the second component says that the lid assertion's callback calls `refresh` again. */
  function RefreshOnce(s: Awake, round: Round): (Awake, bool) {
    var timed := ScheduleStaleTimer(s, round.scheduleNow);
    if ShouldBlock(timed, round.countNow) then StartAll(timed, round) else (StopAll(timed, round.blocker), false)
  }

  /** `refresh` with everything it re-enters; None when the given rounds do not suffice. */
  function Refresh(s: Awake, rounds: seq<Round>): Option<Awake>
    decreases |rounds|
  {
    if rounds == [] then None
    else
      var (t, owed) := RefreshOnce(s, rounds[0]);
      if owed then Refresh(t, rounds[1..]) else Some(t)
  }

  // ---- Top-level events ----

  datatype Event =
    | SetEnabled(enabled: bool)
    | SetStatuses(statuses: seq<Status>)
    | PowerResume
    | StaleTimer
    | RetryTimer
    | ChildEvent(id: nat, missing: bool, now: int, scheduleNow: int)
    | Dispose(blocker: BlockerEnv)

  predicate CanHappen(s: Awake, e: Event) {
    (e.StaleTimer? ==> s.staleTimer.Some?) && (e.RetryTimer? ==> s.host.retryTimer.Some?)
  }

  function Step(s: Awake, e: Event, rounds: seq<Round>): Option<Awake>
    requires CanHappen(s, e)
  {
    match e
    case SetEnabled(enabled) => if s.enabled == enabled then Some(s) else Refresh(s.(enabled := enabled), rounds)
    case SetStatuses(statuses) => Refresh(s.(statuses := statuses), rounds)
    case PowerResume => Refresh(s, rounds)
    case StaleTimer => Refresh(s.(staleTimer := None), rounds)
    case RetryTimer => Refresh(s.(host := RetryTimerFires(s.host)), rounds)
    case ChildEvent(id, missing, now, scheduleNow) =>
      var (host, owed) := ChildFails(s.host, id, missing, now, scheduleNow);
      if owed then Refresh(s.(host := host), rounds) else Some(s.(host := host))
    case Dispose(blocker) =>
      Some(StopAll(s.(staleTimer := None), blocker))
  }

  // ---- What every event keeps ----

  /** At most one blocker runs, and it is the tracked one; the lid assertion keeps its own invariant. */
  ghost predicate Inv(s: Awake) {
    && (forall id :: id in s.blockersStarted ==> s.blockerId == Some(id))
    && (s.blockerId.Some? ==> s.blockerId.value < s.nextBlocker)
    && SleepAssertion.Inv(s.host)
  }

  /** Between top-level events a retry deadline always has a timer. */
  ghost predicate Settled(s: Awake) {
    Inv(s) && Covered(s.host)
  }

  /** Nothing keeps the machine awake, and nothing is going to. */
  ghost predicate Released(s: Awake) {
    && s.blockerId.None? && s.blockersStarted == {}
    && s.host.child.None? && s.host.retryNotBefore.None? && s.host.retryTimer.None?
  }

  lemma CreatedSettled(platform: Platform)
    ensures Settled(Created(platform))
  {
    FreshInv(HostAssertion(platform).kind, HostAssertion(platform).onPlatform);
  }

  lemma BlockerKeeps(s: Awake, env: BlockerEnv)
    requires Inv(s)
    ensures Inv(StartBlocker(s, env)) && StartBlocker(s, env).host == s.host
    ensures Inv(StopBlocker(s, env)) && StopBlocker(s, env).host == s.host
  {
  }

  lemma BlockerKeepsTheRest(s: Awake, env: BlockerEnv)
    ensures var t := StartBlocker(s, env);
      && t.host == s.host && t.statuses == s.statuses && t.enabled == s.enabled
      && t.staleTimer == s.staleTimer && t.armedAt == s.armedAt
    ensures var t := StopBlocker(s, env);
      && t.host == s.host && t.statuses == s.statuses && t.enabled == s.enabled
      && t.staleTimer == s.staleTimer && t.armedAt == s.armedAt
  {
  }

  lemma HostReplaced(s: Awake, host: Assertion)
    requires Inv(s) && SleepAssertion.Inv(host) && Covered(host)
    ensures Settled(s.(host := host))
  {
  }

  lemma StartAllKeeps(s: Awake, round: Round)
    requires Inv(s)
    ensures var (t, owed) := StartAll(s, round);
      && Settled(t) && t.statuses == s.statuses && t.enabled == s.enabled
      && t.staleTimer == s.staleTimer && t.armedAt == s.armedAt
      && (owed ==> t.host.onPlatform && t.host.child.None? && !t.host.unavailable
                   && t.host.retryNotBefore == Some(round.start.failNow + RETRY_MS))
  {
    BlockerKeeps(s, round.blocker);
    BlockerKeepsTheRest(s, round.blocker);
    StartKeeps(s.host, round.start);
    var blocked := StartBlocker(s, round.blocker);
    HostReplaced(blocked, Start(blocked.host, round.start).0);
  }

  lemma StopAllKeeps(s: Awake, env: BlockerEnv)
    requires Inv(s)
    ensures var t := StopAll(s, env);
      && Settled(t) && t.statuses == s.statuses && t.enabled == s.enabled
      && t.staleTimer == s.staleTimer && t.armedAt == s.armedAt
      && (env.Stops() ==> Released(t))
  {
    BlockerKeeps(s, env);
    BlockerKeepsTheRest(s, env);
    StopKeeps(s.host);
    var released := StopBlocker(s, env);
    HostReplaced(released, Stop(released.host));
  }

  lemma RefreshOnceKeeps(s: Awake, round: Round)
    requires Inv(s)
    ensures var (t, owed) := RefreshOnce(s, round);
      && Settled(t) && t.statuses == s.statuses && t.enabled == s.enabled
      && t.staleTimer == EarliestExpiry(s.statuses, round.scheduleNow) && t.armedAt == round.scheduleNow
      && (owed ==> t.host.onPlatform && t.host.child.None? && !t.host.unavailable
                   && t.host.retryNotBefore == Some(round.start.failNow + RETRY_MS))
  {
    var timed := ScheduleStaleTimer(s, round.scheduleNow);
    StartAllKeeps(timed, round);
    StopAllKeeps(timed, round.blocker);
  }

  lemma {:induction false} RefreshKeeps(s: Awake, rounds: seq<Round>)
    requires Inv(s)
    ensures Refresh(s, rounds).Some? ==>
      Settled(Refresh(s, rounds).value) && Refresh(s, rounds).value.statuses == s.statuses
    decreases |rounds|
  {
    if rounds == [] {
    } else {
      RefreshOnceKeeps(s, rounds[0]);
      var (t, owed) := RefreshOnce(s, rounds[0]);
      if owed {
        RefreshKeeps(t, rounds[1..]);
      }
    }
  }

  lemma StepKeeps(s: Awake, e: Event, rounds: seq<Round>)
    requires Settled(s) && CanHappen(s, e)
    ensures Step(s, e, rounds).Some? ==> Settled(Step(s, e, rounds).value)
  {
    match e {
      case SetEnabled(enabled) => RefreshKeeps(s.(enabled := enabled), rounds);
      case SetStatuses(statuses) => RefreshKeeps(s.(statuses := statuses), rounds);
      case PowerResume => RefreshKeeps(s, rounds);
      case StaleTimer => RefreshKeeps(s.(staleTimer := None), rounds);
      case RetryTimer =>
        RetryTimerKeeps(s.host);
        RefreshKeeps(s.(host := RetryTimerFires(s.host)), rounds);
      case ChildEvent(id, missing, now, scheduleNow) =>
        ChildFailsKeeps(s.host, id, missing, now, scheduleNow);
        var (host, owed) := ChildFails(s.host, id, missing, now, scheduleNow);
        if owed {
          RefreshKeeps(s.(host := host), rounds);
        }
      case Dispose(blocker) =>
        StopAllKeeps(s.(staleTimer := None), blocker);
    }
  }

  /** A run: events with the rounds that their refreshes used, or None if one was given too few. */
  function Run(s: Awake, events: seq<(Event, seq<Round>)>): Option<Awake>
    decreases |events|
  {
    if events == [] then Some(s)
    else if !CanHappen(s, events[0].0) then Run(s, events[1..])
    else
      var t := Step(s, events[0].0, events[0].1);
      if t.None? then None else Run(t.value, events[1..])
  }

  lemma {:induction false} RunKeeps(s: Awake, events: seq<(Event, seq<Round>)>)
    requires Settled(s)
    ensures Run(s, events).Some? ==> Settled(Run(s, events).value)
    decreases |events|
  {
    if events == [] {
    } else {
      if CanHappen(s, events[0].0) {
        StepKeeps(s, events[0].0, events[0].1);
        var t := Step(s, events[0].0, events[0].1);
        if t.Some? {
          RunKeeps(t.value, events[1..]);
        }
      } else {
        RunKeeps(s, events[1..]);
      }
    }
  }

  /** In every reachable state between two events: all children but the tracked one were killed or reported failed, a
      tracked child excludes a retry deadline and timer, a deadline has a timer, attempts to spawn keep their
      distance from failures, a missing program is final, and no blocker leaks. */
  lemma RunsStaySettled(platform: Platform, events: seq<(Event, seq<Round>)>)
    ensures Run(Created(platform), events).Some? ==> Settled(Run(Created(platform), events).value)
  {
    CreatedSettled(platform);
    RunKeeps(Created(platform), events);
  }

  /** Some run leads there. */
  ghost predicate Reachable(s: Awake) {
    exists platform, events :: Run(Created(platform), events) == Some(s)
  }

  lemma {:induction false} RunOneMore(s: Awake, events: seq<(Event, seq<Round>)>, e: Event, rounds: seq<Round>)
    requires Run(s, events).Some? && CanHappen(Run(s, events).value, e)
    ensures Run(s, events + [(e, rounds)]) == Step(Run(s, events).value, e, rounds)
    decreases |events|
  {
    if events == [] {
      EmptySlice(events, 0, [(e, rounds)]);
      assert [(e, rounds)][1..] == [];
    } else {
      assert (events + [(e, rounds)])[1..] == events[1..] + [(e, rounds)];
      if CanHappen(s, events[0].0) {
        RunOneMore(Step(s, events[0].0, events[0].1).value, events[1..], e, rounds);
      } else {
        RunOneMore(s, events[1..], e, rounds);
      }
    }
  }

  lemma CreatedReachable(platform: Platform)
    ensures Reachable(Created(platform))
  {
    assert Run(Created(platform), []) == Some(Created(platform));
  }

  lemma StepReachable(s: Awake, e: Event, rounds: seq<Round>)
    requires Reachable(s) && CanHappen(s, e)
    ensures Step(s, e, rounds).Some? ==> Reachable(Step(s, e, rounds).value)
  {
    var platform, events :| Run(Created(platform), events) == Some(s);
    RunOneMore(Created(platform), events, e, rounds);
  }

  lemma ReachableSettled(s: Awake)
    requires Reachable(s)
    ensures Settled(s)
  {
    var platform, events :| Run(Created(platform), events) == Some(s);
    RunsStaySettled(platform, events);
  }

  // ---- Nested refreshes end ----

  /** After a pass that owes a callback, the next pass owes one again exactly if its gate reading is at least
      30 seconds after that failure, its statuses still ask for it, and its spawn fails as well. */
  lemma NestedAgainIff(s: Awake, first: Round, second: Round)
    requires Inv(s) && RefreshOnce(s, first).1
    ensures RefreshOnce(RefreshOnce(s, first).0, second).1 <==>
      && ShouldBlock(s, second.countNow)
      && first.start.failNow + RETRY_MS <= second.start.gateNow
      && second.start.spawn.Throws? && !GivesUp(s.host, second.start.spawn.missing)
  {
    RefreshOnceKeeps(s, first);
    var timed := ScheduleStaleTimer(RefreshOnce(s, first).0, second.scheduleNow);
    BlockerKeeps(timed, second.blocker);
  }

  /** When the clock advances by less than 30 seconds within one top-level event, two passes always suffice. */
  lemma NestingEnds(s: Awake, rounds: seq<Round>, t0: int)
    requires Inv(s) && |rounds| >= 2
    requires forall k :: 0 <= k < |rounds| ==>
      t0 <= rounds[k].start.failNow && rounds[k].start.gateNow < t0 + RETRY_MS
    ensures Refresh(s, rounds).Some?
  {
    if RefreshOnce(s, rounds[0]).1 {
      NestedAgainIff(s, rounds[0], rounds[1]);
      assert rounds[1..][0] == rounds[1];
    }
  }

  // ---- Stale statuses are released ----

  lemma {:induction false} EarliestExpiryIs(statuses: seq<Status>, now: int)
    ensures var d := EarliestExpiry(statuses, now);
      && (d.Some? ==> now < d.value)
      && (d.Some? ==> exists k :: 0 <= k < |statuses| && statuses[k].Counts() && statuses[k].Expiry() == d.value)
      && (forall k :: 0 <= k < |statuses| && statuses[k].Counts() && now < statuses[k].Expiry() ==>
            d.Some? && d.value <= statuses[k].Expiry())
    decreases |statuses|
  {
    if statuses == [] {
    } else {
      var n := |statuses| - 1;
      EarliestExpiryIs(statuses[..n], now);
      var rest := EarliestExpiry(statuses[..n], now);
      if rest.Some? {
        var k :| 0 <= k < n && statuses[..n][k].Counts() && statuses[..n][k].Expiry() == rest.value;
        assert statuses[k].Expiry() == rest.value;
      }
    }
  }

  lemma {:induction false} EligibleCountIs(statuses: seq<Status>, now: int)
    ensures EligibleCount(statuses, now) > 0 <==>
      exists k :: 0 <= k < |statuses| && statuses[k].Counts() && now <= statuses[k].Expiry()
    decreases |statuses|
  {
    if statuses == [] {
    } else {
      EligibleCountIs(statuses[1..], now);
      if EligibleCount(statuses[1..], now) > 0 {
        var k :| 0 <= k < |statuses[1..]| && statuses[1..][k].Counts() && now <= statuses[1..][k].Expiry();
        assert statuses[k + 1].Counts() && now <= statuses[k + 1].Expiry();
      }
      if k :| 0 <= k < |statuses| && statuses[k].Counts() && now <= statuses[k].Expiry() {
        assert k > 0 ==> statuses[1..][k - 1] == statuses[k];
      }
    }
  }

  lemma {:induction false} UnexpiredShrinks(statuses: seq<Status>, now: int, later: int)
    requires now <= later
    ensures UnexpiredCount(statuses, later) <= UnexpiredCount(statuses, now)
    ensures (exists k :: 0 <= k < |statuses| && statuses[k].Counts() && now < statuses[k].Expiry() <= later) ==>
      UnexpiredCount(statuses, later) < UnexpiredCount(statuses, now)
    decreases |statuses|
  {
    if statuses == [] {
    } else {
      UnexpiredShrinks(statuses[1..], now, later);
      if k :| 0 <= k < |statuses| && statuses[k].Counts() && now < statuses[k].Expiry() <= later {
        assert k > 0 ==> statuses[1..][k - 1] == statuses[k];
      }
    }
  }

  // ---- Passes that leave sleep blocked for good ----

  ghost predicate AllExpired(statuses: seq<Status>, now: int) {
    forall k :: 0 <= k < |statuses| && statuses[k].Counts() ==> statuses[k].Expiry() <= now
  }

  ghost predicate SomeEligible(statuses: seq<Status>, now: int) {
    exists k :: 0 <= k < |statuses| && statuses[k].Counts() && now <= statuses[k].Expiry()
  }

  /** What the two readings of a pass decide. */
  lemma ReadingsDecide(s: Awake, round: Round)
    ensures EarliestExpiry(s.statuses, round.scheduleNow).None? <==> AllExpired(s.statuses, round.scheduleNow)
    ensures ShouldBlock(s, round.countNow) <==> s.enabled && SomeEligible(s.statuses, round.countNow)
  {
    EarliestExpiryIs(s.statuses, round.scheduleNow);
    EligibleCountIs(s.statuses, round.countNow);
  }

  /** The schedule finds every status expired, and the count still finds one eligible. */
  ghost predicate Strands(statuses: seq<Status>, round: Round) {
    AllExpired(statuses, round.scheduleNow) && SomeEligible(statuses, round.countNow)
  }

  /** Both readings of the pass fall on the very millisecond at which a status expires, and no status expires later. */
  ghost predicate OnLastExpiry(statuses: seq<Status>, round: Round) {
    && round.scheduleNow == round.countNow
    && (exists k :: 0 <= k < |statuses| && statuses[k].Counts() && statuses[k].Expiry() == round.countNow)
    && AllExpired(statuses, round.countNow)
  }

  /** While the clock does not step back between the two readings, a pass strands a status exactly on the last expiry:
      one comparison takes it for past and the other does not. */
  lemma ForwardStrandsIff(statuses: seq<Status>, round: Round)
    requires round.scheduleNow <= round.countNow
    ensures Strands(statuses, round) <==> OnLastExpiry(statuses, round)
  {
    if Strands(statuses, round) {
      var k :| 0 <= k < |statuses| && statuses[k].Counts() && round.countNow <= statuses[k].Expiry();
      assert statuses[k].Expiry() <= round.scheduleNow;
    }
  }

  /** The blocker or a child is still held, and no timer is left to let go of it. */
  ghost predicate Stuck(s: Awake) {
    s.staleTimer.None? && s.host.retryTimer.None? && !Released(s)
  }

  /** After `startBlocker` a blocker is tracked: one that runs, or that cannot be asked. */
  predicate BlockerTracked(s: Awake, env: BlockerEnv) {
    || (s.blockerId.Some? && (env.firstQueryThrows || s.blockerId.value in s.blockersStarted))
    || (!env.callThrows && (env.takes || env.lastQueryThrows))
  }

  /** After `stopBlocker` the blocker is still tracked: it cannot be asked, or it runs and was not stopped. */
  predicate BlockerOutlives(s: Awake, env: BlockerEnv) {
    && s.blockerId.Some?
    && (env.lastQueryThrows || (s.blockerId.value in s.blockersStarted && (env.callThrows || !env.takes)))
  }

  lemma BlockerOutcome(s: Awake, env: BlockerEnv)
    requires Inv(s)
    ensures StartBlocker(s, env).blockerId.Some? <==> BlockerTracked(s, env)
    ensures StopBlocker(s, env).blockerId.Some? <==> BlockerOutlives(s, env)
  {
  }

  /** No status expires later, and either the pass keeps sleep blocked without a retry that would bring it back, or it
      fails to stop the blocker. */
  ghost predicate LeavesStuck(s: Awake, round: Round) {
    && AllExpired(s.statuses, round.scheduleNow)
    && if s.enabled && SomeEligible(s.statuses, round.countNow) then
         !Waits(s.host, round.start) && (BlockerTracked(s, round.blocker) || Holds(s.host, round.start))
       else BlockerOutlives(s, round.blocker)
  }

  lemma StartedReleasedIff(s: Awake, round: Round)
    requires Inv(s)
    ensures var t := StartAll(s, round).0;
      && (t.host.retryTimer.Some? <==> Waits(s.host, round.start))
      && (t.host.retryTimer.None? ==>
            (Released(t) <==> !BlockerTracked(s, round.blocker) && !Holds(s.host, round.start)))
  {
    StartAllKeeps(s, round);
    BlockerKeepsTheRest(s, round.blocker);
    BlockerOutcome(s, round.blocker);
    StartOutcome(s.host, round.start);
  }

  lemma StoppedReleasedIff(s: Awake, env: BlockerEnv)
    requires Inv(s)
    ensures var t := StopAll(s, env); t.host.retryTimer.None? && (Released(t) <==> !BlockerOutlives(s, env))
  {
    StopAllKeeps(s, env);
    BlockerKeepsTheRest(s, env);
    BlockerOutcome(s, env);
    StopKeeps(s.host);
  }

  /** A pass leaves the service stuck exactly under that condition. */
  lemma StuckIff(s: Awake, round: Round)
    requires Inv(s)
    ensures Stuck(RefreshOnce(s, round).0) <==> LeavesStuck(s, round)
  {
    var timed := ScheduleStaleTimer(s, round.scheduleNow);
    ReadingsDecide(s, round);
    RefreshOnceKeeps(s, round);
    StartedReleasedIff(timed, round);
    StoppedReleasedIff(timed, round.blocker);
  }

  /** The last pass of a refresh, and the state that it starts from. */
  function LastPass(s: Awake, rounds: seq<Round>): Option<(Awake, Round)>
    decreases |rounds|
  {
    if rounds == [] then None
    else
      var (t, owed) := RefreshOnce(s, rounds[0]);
      if owed then LastPass(t, rounds[1..]) else Some((s, rounds[0]))
  }

  lemma {:induction false} RefreshEndsWithLastPass(s: Awake, rounds: seq<Round>)
    requires Inv(s)
    ensures Refresh(s, rounds).Some? <==> LastPass(s, rounds).Some?
    ensures LastPass(s, rounds).Some? ==>
      var (p, round) := LastPass(s, rounds).value;
      && Inv(p) && p.statuses == s.statuses && p.enabled == s.enabled
      && round in rounds && Refresh(s, rounds) == Some(RefreshOnce(p, round).0)
    decreases |rounds|
  {
    if rounds == [] {
    } else {
      RefreshOnceKeeps(s, rounds[0]);
      var (t, owed) := RefreshOnce(s, rounds[0]);
      if owed {
        RefreshEndsWithLastPass(t, rounds[1..]);
      }
    }
  }

  /** And so does a refresh with everything it re-enters: its last pass decides. */
  lemma RefreshStuckIff(s: Awake, rounds: seq<Round>)
    requires Inv(s) && Refresh(s, rounds).Some?
    ensures LastPass(s, rounds).Some?
    ensures var (p, round) := LastPass(s, rounds).value; Stuck(Refresh(s, rounds).value) <==> LeavesStuck(p, round)
  {
    RefreshEndsWithLastPass(s, rounds);
    var (p, round) := LastPass(s, rounds).value;
    StuckIff(p, round);
  }

  // ---- What a pass does ----

  /** After `startBlocker` a blocker runs. */
  predicate BlockerRuns(s: Awake, env: BlockerEnv) {
    s.blockersStarted != {} || (!(s.blockerId.Some? && env.firstQueryThrows) && !env.callThrows && env.takes)
  }

  lemma BlockerRunsIff(s: Awake, env: BlockerEnv)
    requires Inv(s)
    ensures StartBlocker(s, env).blockersStarted != {} <==> BlockerRuns(s, env)
    ensures StopBlocker(s, env).blockersStarted != {} <==> s.blockersStarted != {} && (env.callThrows || !env.takes)
  {
  }

  /** What a pass does with the blocker and the assertion: if the service is enabled and some working status has not
      expired, it starts both, and otherwise it stops both. */
  ghost predicate PassResult(s: Awake, round: Round, t: Awake) {
    && t.statuses == s.statuses && t.enabled == s.enabled
    && if s.enabled && SomeEligible(s.statuses, round.countNow) then
         && (t.blockerId.Some? <==> BlockerTracked(s, round.blocker))
         && (t.blockersStarted != {} <==> BlockerRuns(s, round.blocker))
         && (t.host.child.Some? <==> Holds(s.host, round.start))
         && (t.host.retryTimer.Some? <==> Waits(s.host, round.start))
       else
         && (t.blockerId.Some? <==> BlockerOutlives(s, round.blocker))
         && (t.blockersStarted != {} <==> s.blockersStarted != {} && (round.blocker.callThrows || !round.blocker.takes))
         && t.host.child.None? && t.host.retryTimer.None?
  }

  /** In every state and whatever throws. */
  lemma PassOutcome(s: Awake, round: Round)
    requires Inv(s)
    ensures PassResult(s, round, RefreshOnce(s, round).0)
  {
    var timed := ScheduleStaleTimer(s, round.scheduleNow);
    ReadingsDecide(s, round);
    RefreshOnceKeeps(s, round);
    BlockerOutcome(timed, round.blocker);
    BlockerRunsIff(timed, round.blocker);
    BlockerKeepsTheRest(timed, round.blocker);
    StartOutcome(s.host, round.start);
    StopKeeps(s.host);
  }

  /** The machine is kept awake exactly while it is due: a blocker runs and is the tracked one, and the assertion holds
      or will be tried again, unless its program is missing or the platform has none; otherwise all is released. */
  ghost predicate AwakeAsDue(t: Awake, now: int) {
    if t.enabled && SomeEligible(t.statuses, now) then
      && t.blockerId.Some? && t.blockersStarted == {t.blockerId.value}
      && (t.host.child.Some? || t.host.retryTimer.Some? || t.host.unavailable || !t.host.onPlatform)
    else Released(t)
  }

  lemma PassKeepsAwake(s: Awake, round: Round)
    requires Inv(s) && round.blocker.Works()
    ensures AwakeAsDue(RefreshOnce(s, round).0, round.countNow)
  {
    PassOutcome(s, round);
    RefreshOnceKeeps(s, round);
    ReadingsDecide(s, round);
    BlockerKeepsTheRest(ScheduleStaleTimer(s, round.scheduleNow), round.blocker);
  }

  /** The last pass of a refresh decides what the refresh does. */
  lemma RefreshOutcome(s: Awake, rounds: seq<Round>)
    requires Inv(s) && Refresh(s, rounds).Some?
    ensures LastPass(s, rounds).Some?
    ensures var (p, round) := LastPass(s, rounds).value;
      && p.statuses == s.statuses && p.enabled == s.enabled && round in rounds
      && PassResult(p, round, Refresh(s, rounds).value)
      && Refresh(s, rounds).value.staleTimer == EarliestExpiry(s.statuses, round.scheduleNow)
  {
    RefreshEndsWithLastPass(s, rounds);
    var (p, round) := LastPass(s, rounds).value;
    PassOutcome(p, round);
    RefreshOnceKeeps(p, round);
  }

  /** After the event, with its refresh: the given statuses and setting are in place, the stale timer is set for the
      earliest expiry ahead, and the machine is kept awake as is due. */
  ghost predicate UpToDate(t: Awake, enabled: bool, statuses: seq<Status>, rounds: seq<Round>) {
    && t.enabled == enabled && t.statuses == statuses
    && exists round :: round in rounds
         && t.staleTimer == EarliestExpiry(statuses, round.scheduleNow) && AwakeAsDue(t, round.countNow)
  }

  lemma RefreshKeepsAwake(s: Awake, rounds: seq<Round>)
    requires Inv(s) && Refresh(s, rounds).Some? && forall round :: round in rounds ==> round.blocker.Works()
    ensures UpToDate(Refresh(s, rounds).value, s.enabled, s.statuses, rounds)
  {
    RefreshEndsWithLastPass(s, rounds);
    RefreshOutcome(s, rounds);
    var (p, round) := LastPass(s, rounds).value;
    PassKeepsAwake(p, round);
  }

  /** What every event brings about while the blocker works. A new setting or new statuses take effect, a resume, a
      timer and a failed child lead to a fresh look, and disposing releases everything. */
  lemma EventsKeepAwake(s: Awake, e: Event, rounds: seq<Round>)
    requires Settled(s) && CanHappen(s, e) && Step(s, e, rounds).Some?
    requires forall round :: round in rounds ==> round.blocker.Works()
    ensures var t := Step(s, e, rounds).value;
      match e
      case SetEnabled(enabled) => if enabled == s.enabled then t == s else UpToDate(t, enabled, s.statuses, rounds)
      case SetStatuses(statuses) => UpToDate(t, s.enabled, statuses, rounds)
      case PowerResume => UpToDate(t, s.enabled, s.statuses, rounds)
      case StaleTimer => UpToDate(t, s.enabled, s.statuses, rounds)
      case RetryTimer => UpToDate(t, s.enabled, s.statuses, rounds)
      case ChildEvent(id, missing, _, _) =>
        if s.host.child == Some(id) && !(missing && s.host.kind == SystemdInhibit) then
          UpToDate(t, s.enabled, s.statuses, rounds)
        else t == s.(host := t.host) && (s.host.child != Some(id) ==> t == s)
      case Dispose(blocker) => t.staleTimer.None? && (blocker.Stops() ==> Released(t))
  {
    match e {
      case SetEnabled(enabled) =>
        if enabled != s.enabled {
          RefreshKeepsAwake(s.(enabled := enabled), rounds);
        }
      case SetStatuses(statuses) => RefreshKeepsAwake(s.(statuses := statuses), rounds);
      case PowerResume => RefreshKeepsAwake(s, rounds);
      case StaleTimer => RefreshKeepsAwake(s.(staleTimer := None), rounds);
      case RetryTimer =>
        RetryTimerKeeps(s.host);
        RefreshKeepsAwake(s.(host := RetryTimerFires(s.host)), rounds);
      case ChildEvent(id, missing, now, scheduleNow) =>
        ChildFailsKeeps(s.host, id, missing, now, scheduleNow);
        var (host, owed) := ChildFails(s.host, id, missing, now, scheduleNow);
        if owed {
          RefreshKeepsAwake(s.(host := host), rounds);
        }
      case Dispose(blocker) =>
        StopAllKeeps(s.(staleTimer := None), blocker);
    }
  }

  /** Such passes, with a blocker that works: on the last expiry, and with a clock that steps back over it. */
  lemma StrandedForGood(countNow: int, env: BlockerEnv, start: StartEnv)
    requires countNow == STALE_AFTER_MS || countNow == STALE_AFTER_MS - 1
    requires env.Works()
    ensures var s := Created(Elsewhere).(enabled := true, statuses := [Status(Working, Some(0), true)]);
      Stuck(RefreshOnce(s, Round(STALE_AFTER_MS, countNow, env, start)).0)
  {
    var s := Created(Elsewhere).(enabled := true, statuses := [Status(Working, Some(0), true)]);
    var round := Round(STALE_AFTER_MS, countNow, env, start);
    assert s.statuses[0].Counts() && s.statuses[0].Expiry() == STALE_AFTER_MS;
    CreatedSettled(Elsewhere);
    StuckIff(s, round);
  }

  /** And with a blocker that runs and whose `stop` throws, once no status is left. */
  lemma StopThatThrowsStrands(s: Awake, round: Round)
    requires Inv(s) && s.blockerId.Some? && s.blockerId.value in s.blockersStarted && s.statuses == []
    requires round.blocker.callThrows
    ensures Stuck(RefreshOnce(s, round).0)
  {
    StuckIff(s, round);
  }

  // ---- Every run of timers ends ----

  /** Between events: the stale timer is set for the earliest expiry that lay ahead, if there was one. */
  ghost predicate Current(s: Awake) {
    Settled(s) && s.staleTimer == EarliestExpiry(s.statuses, s.armedAt)
  }

  lemma RefreshIsCurrent(s: Awake, rounds: seq<Round>)
    requires Inv(s)
    ensures Refresh(s, rounds).Some? ==>
      var t := Refresh(s, rounds).value; Current(t) && t.statuses == s.statuses && t.enabled == s.enabled
  {
    RefreshEndsWithLastPass(s, rounds);
    if Refresh(s, rounds).Some? {
      var (p, round) := LastPass(s, rounds).value;
      RefreshOnceKeeps(p, round);
    }
  }

  /** Reporting statuses leads there from every state between two events. */
  lemma StatusesLeaveCurrent(s: Awake, statuses: seq<Status>, rounds: seq<Round>)
    requires Settled(s)
    ensures Step(s, SetStatuses(statuses), rounds).Some? ==> Current(Step(s, SetStatuses(statuses), rounds).value)
  {
    RefreshIsCurrent(s.(statuses := statuses), rounds);
  }

  /** The readings of one event run forward, from pass to pass, and none is earlier than `since`. */
  ghost predicate Forward(since: int, rounds: seq<Round>)
    decreases |rounds|
  {
    rounds == [] ||
    var round := rounds[0];
    && since <= round.scheduleNow <= round.countNow <= round.start.gateNow <= round.start.failNow
    && Forward(round.start.failNow, rounds[1..])
  }

  lemma ForwardFromEarlier(since: int, later: int, rounds: seq<Round>)
    requires since <= later && Forward(later, rounds)
    ensures Forward(since, rounds)
  {
  }

  /** A retry timer that is set now lies ahead of the readings that led to it. */
  lemma RetryTimerLiesAhead(s: Awake, since: int, round: Round)
    requires since <= round.start.gateNow <= round.start.failNow
    requires s.host.retryTimer.Some? ==> since < s.host.retryTimer.value
    ensures var host := RefreshOnce(s, round).0.host; host.retryTimer.Some? ==> since < host.retryTimer.value
  {
    BlockerKeepsTheRest(ScheduleStaleTimer(s, round.scheduleNow), round.blocker);
    StartTimerAhead(s.host, round.start, since);
  }

  /** A pass behind every expiry stops everything. */
  lemma LatePassStops(s: Awake, round: Round)
    requires Inv(s) && round.scheduleNow <= round.countNow
    requires forall k :: 0 <= k < |s.statuses| && s.statuses[k].Counts() ==> s.statuses[k].Expiry() < round.scheduleNow
    ensures !RefreshOnce(s, round).1 && RefreshOnce(s, round).0.host.retryTimer.None?
  {
    ReadingsDecide(s, round);
    StoppedReleasedIff(ScheduleStaleTimer(s, round.scheduleNow), round.blocker);
  }

  lemma {:induction false} RefreshMovesOn(s: Awake, since: int, rounds: seq<Round>)
    requires Inv(s) && Forward(since, rounds) && Refresh(s, rounds).Some?
    ensures var t := Refresh(s, rounds).value;
      && since <= t.armedAt
      && ((s.host.retryTimer.Some? ==> since < s.host.retryTimer.value) ==>
            t.host.retryTimer.Some? ==> since < t.host.retryTimer.value)
      && ((forall k :: 0 <= k < |s.statuses| && s.statuses[k].Counts() ==> s.statuses[k].Expiry() < t.armedAt) ==>
            t.host.retryTimer.None?)
    decreases |rounds|
  {
    var round := rounds[0];
    RefreshOnceKeeps(s, round);
    if s.host.retryTimer.Some? ==> since < s.host.retryTimer.value {
      RetryTimerLiesAhead(s, since, round);
    }
    var (t, owed) := RefreshOnce(s, round);
    if owed {
      ForwardFromEarlier(since, round.start.failNow, rounds[1..]);
      RefreshMovesOn(t, since, rounds[1..]);
    } else if forall k :: 0 <= k < |s.statuses| && s.statuses[k].Counts() ==> s.statuses[k].Expiry() < t.armedAt {
      LatePassStops(s, round);
    }
  }

  /** How long the last working status has still to live. */
  function Remaining(statuses: seq<Status>, now: int): nat {
    if statuses == [] then 0
    else
      var rest := Remaining(statuses[1..], now);
      if statuses[0].Counts() && now + rest < statuses[0].Expiry() then statuses[0].Expiry() - now else rest
  }

  lemma {:induction false} RemainingShrinks(statuses: seq<Status>, now: int, later: int)
    requires now <= later
    ensures var passed := later - now;
      Remaining(statuses, later) == if Remaining(statuses, now) <= passed then 0 else Remaining(statuses, now) - passed
    decreases |statuses|
  {
    if statuses == [] {
    } else {
      RemainingShrinks(statuses[1..], now, later);
    }
  }

  lemma {:induction false} RemainingCovers(statuses: seq<Status>, now: int, k: nat)
    requires k < |statuses| && statuses[k].Counts()
    ensures statuses[k].Expiry() <= now + Remaining(statuses, now)
    decreases |statuses|
  {
    if k == 0 {
    } else {
      RemainingCovers(statuses[1..], now, k - 1);
    }
  }

  /** No retry timer, one that lies ahead of the last reading, or one that is due. */
  function RetryWork(s: Awake): nat {
    if s.host.retryTimer.None? then 0 else if s.armedAt < s.host.retryTimer.value then 1 else 2
  }

  /** What every firing uses up: the time that is left, and the retry timer. */
  function Work(s: Awake): nat {
    3 * Remaining(s.statuses, s.armedAt) + RetryWork(s)
  }

  /** The state in which the timer's callback calls `refresh`. */
  function Fired(s: Awake, e: Event): Awake
    requires e.StaleTimer? || e.RetryTimer?
  {
    if e.StaleTimer? then s.(staleTimer := None) else s.(host := RetryTimerFires(s.host))
  }

  function DueAt(s: Awake, e: Event): int
    requires (e.StaleTimer? || e.RetryTimer?) && CanHappen(s, e)
  {
    Max(s.armedAt, if e.StaleTimer? then s.staleTimer.value else s.host.retryTimer.value)
  }

  /** One firing of a timer: not before its deadline, and with a clock that runs forward. Nothing is asked of the
      blocker, of spawns, or of where the readings fall. */
  ghost predicate Fires(s: Awake, e: Event, rounds: seq<Round>) {
    && (e.StaleTimer? || e.RetryTimer?) && CanHappen(s, e)
    && Forward(DueAt(s, e), rounds)
    && Step(s, e, rounds).Some?
  }

  lemma FiringKeeps(s: Awake, e: Event, rounds: seq<Round>)
    requires Current(s) && Fires(s, e, rounds)
    ensures Step(s, e, rounds) == Refresh(Fired(s, e), rounds) && Inv(Fired(s, e))
    ensures var t := Step(s, e, rounds).value;
      && Current(t) && t.statuses == s.statuses && DueAt(s, e) <= t.armedAt
      && (e.RetryTimer? && t.host.retryTimer.Some? ==> DueAt(s, e) < t.host.retryTimer.value)
      && ((forall k :: 0 <= k < |s.statuses| && s.statuses[k].Counts() ==> s.statuses[k].Expiry() < t.armedAt) ==>
            t.host.retryTimer.None?)
  {
    RetryTimerKeeps(s.host);
    RefreshIsCurrent(Fired(s, e), rounds);
    RefreshMovesOn(Fired(s, e), DueAt(s, e), rounds);
  }

  /** The stale timer is only set while time remains. */
  lemma StaleTimerMeansTime(s: Awake)
    requires Current(s) && s.staleTimer.Some?
    ensures 0 < Remaining(s.statuses, s.armedAt) && s.armedAt < s.staleTimer.value
  {
    EarliestExpiryIs(s.statuses, s.armedAt);
    var k :| 0 <= k < |s.statuses| && s.statuses[k].Counts() && s.statuses[k].Expiry() == s.staleTimer.value;
    RemainingCovers(s.statuses, s.armedAt, k);
  }

  lemma NoTimeMeansExpired(statuses: seq<Status>, now: int)
    requires Remaining(statuses, now) == 0
    ensures AllExpired(statuses, now)
  {
    forall k | 0 <= k < |statuses| && statuses[k].Counts()
      ensures statuses[k].Expiry() <= now
    {
      RemainingCovers(statuses, now, k);
    }
  }

  /** Every firing uses up work. */
  lemma FiringUsesWork(s: Awake, e: Event, rounds: seq<Round>)
    requires Current(s) && Fires(s, e, rounds)
    ensures Work(Step(s, e, rounds).value) < Work(s)
  {
    var t := Step(s, e, rounds).value;
    FiringKeeps(s, e, rounds);
    RemainingShrinks(s.statuses, s.armedAt, t.armedAt);
    if e.StaleTimer? {
      StaleTimerMeansTime(s);
    } else if Remaining(s.statuses, s.armedAt) == 0 {
      NoTimeMeansExpired(s.statuses, s.armedAt);
    }
  }

  /** And each one of the stale timer an unexpired status. */
  lemma FiringUsesStatus(s: Awake, e: Event, rounds: seq<Round>)
    requires Current(s) && Fires(s, e, rounds)
    ensures var t := Step(s, e, rounds).value;
      UnexpiredCount(t.statuses, t.armedAt) + (if e.StaleTimer? then 1 else 0) <= UnexpiredCount(s.statuses, s.armedAt)
  {
    FiringKeeps(s, e, rounds);
    EarliestExpiryIs(s.statuses, s.armedAt);
    UnexpiredShrinks(s.statuses, s.armedAt, Step(s, e, rounds).value.armedAt);
  }

  /** Nothing but timers fires. */
  ghost predicate TimersOnly(s: Awake, firings: seq<(Event, seq<Round>)>)
    decreases |firings|
  {
    firings == [] ||
    (Fires(s, firings[0].0, firings[0].1) && TimersOnly(Step(s, firings[0].0, firings[0].1).value, firings[1..]))
  }

  function StaleFirings(firings: seq<(Event, seq<Round>)>): nat {
    if firings == [] then 0 else (if firings[0].0.StaleTimer? then 1 else 0) + StaleFirings(firings[1..])
  }

  /** The last pass of the run meets the condition that leaves the service stuck. */
  ghost predicate EndsStuck(s: Awake, firings: seq<(Event, seq<Round>)>)
    requires TimersOnly(s, firings) && firings != []
    decreases |firings|
  {
    var (e, rounds) := firings[0];
    if |firings| == 1 then
      var last := LastPass(Fired(s, e), rounds);
      last.Some? && LeavesStuck(last.value.0, last.value.1)
    else EndsStuck(Step(s, e, rounds).value, firings[1..])
  }

  /** A timer that is set can fire. */
  lemma TimerCanFire(s: Awake, e: Event) returns (rounds: seq<Round>)
    requires Current(s) && (e.StaleTimer? || e.RetryTimer?) && CanHappen(s, e)
    ensures Fires(s, e, rounds)
  {
    var now := DueAt(s, e) + Remaining(s.statuses, DueAt(s, e)) + 1;
    rounds := [Round(now, now, BlockerEnv(false, false, true, false), StartEnv(now, now, Spawns, now, now))];
    forall k | 0 <= k < |s.statuses| && s.statuses[k].Counts()
      ensures s.statuses[k].Expiry() < now
    {
      RemainingCovers(s.statuses, DueAt(s, e), k);
    }
    RetryTimerKeeps(s.host);
    LatePassStops(Fired(s, e), rounds[0]);
    assert Forward(now, []);
  }

  /** What a run of timers has come to: as long as a timer is set the run can go on; once none is, everything is
      released unless the last pass left the service stuck. */
  ghost predicate EndsReleased(s: Awake, firings: seq<(Event, seq<Round>)>, t: Awake)
    requires TimersOnly(s, firings)
  {
    if t.staleTimer.Some? || t.host.retryTimer.Some? then exists e, rounds :: Fires(t, e, rounds)
    else firings != [] ==> (Released(t) <==> !EndsStuck(s, firings))
  }

  lemma LastFiringDecides(s: Awake, e: Event, rounds: seq<Round>)
    requires Current(s) && Fires(s, e, rounds)
    ensures TimersOnly(Step(s, e, rounds).value, []) && TimersOnly(s, [(e, rounds)])
    ensures Stuck(Step(s, e, rounds).value) <==> EndsStuck(s, [(e, rounds)])
  {
    assert [(e, rounds)][1..] == [];
    FiringKeeps(s, e, rounds);
    RefreshStuckIff(Fired(s, e), rounds);
  }

  lemma SetTimerCanFire(s: Awake)
    requires Current(s) && (s.staleTimer.Some? || s.host.retryTimer.Some?)
    ensures exists e, rounds :: Fires(s, e, rounds)
  {
    var e := if s.staleTimer.Some? then StaleTimer else RetryTimer;
    var rounds := TimerCanFire(s, e);
  }

  /** Left alone the service lets go, whatever the blocker and the spawns do. Every run of timers is bounded, by the
      time and the statuses left; and one that cannot go on has released the blocker and the assertion, if and only if
      its last pass did not leave the service stuck. */
  lemma {:induction false} StaleStatusesRelease(s: Awake, firings: seq<(Event, seq<Round>)>)
    requires Current(s) && TimersOnly(s, firings)
    ensures |firings| <= Work(s) && StaleFirings(firings) <= UnexpiredCount(s.statuses, s.armedAt)
    ensures Run(s, firings).Some? && EndsReleased(s, firings, Run(s, firings).value)
    decreases |firings|
  {
    if firings == [] {
      if s.staleTimer.Some? || s.host.retryTimer.Some? {
        SetTimerCanFire(s);
      }
    } else {
      var (e, rounds) := firings[0];
      FiringKeeps(s, e, rounds);
      FiringUsesWork(s, e, rounds);
      FiringUsesStatus(s, e, rounds);
      StaleStatusesRelease(Step(s, e, rounds).value, firings[1..]);
      if |firings| == 1 {
        LastFiringDecides(s, e, rounds);
        assert firings == [(e, rounds)];
      }
    }
  }
}
