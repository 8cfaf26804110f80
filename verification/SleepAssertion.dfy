/** The sleep assertions of Linux and macOS: at most one child process that keeps the machine awake, a retry gate after
    failures, and a callback to the owner. The callback is always the last thing that happens, so a step returns whether
    it is owed. */
module SleepAssertion {
  import opened Common

  const RETRY_MS := 30_000

  /** The program that is run. Only for `systemd-inhibit` does the code look for a missing program. */
  datatype Kind = SystemdInhibit | Caffeinate

  /** What happened, in order; `Missing` is a failure that says the program does not exist. */
  datatype Entry = Attempt(at: int) | Failure(at: int) | Missing | Stopped

  datatype SpawnOutcome = Spawns | Throws(missing: bool)

  /** The clock readings and the spawn result met by one call of `start`. */
  datatype StartEnv = StartEnv(gateNow: int, gateScheduleNow: int, spawn: SpawnOutcome, failNow: int,
                               failScheduleNow: int)

  /** Children are numbered in order of creation. `killed`, `failed` and `log` are history. */
  datatype Assertion = Assertion(
    kind: Kind, onPlatform: bool, child: Option<nat>, retryNotBefore: Option<int>, retryTimer: Option<int>,
    unavailable: bool, intentionalStops: set<nat>, reportedFailures: set<nat>, listening: set<nat>,
    spawned: nat, killed: set<nat>, failed: set<nat>, log: seq<Entry>)

  function Fresh(kind: Kind, onPlatform: bool): Assertion {
    Assertion(kind, onPlatform, None, None, None, false, {}, {}, {}, 0, {}, {}, [])
  }

  function Max(x: int, y: int): int {
    if x >= y then x else y
  }

  function ScheduleRetry(a: Assertion, now: int): Assertion {
    if a.retryNotBefore.None? || a.retryTimer.Some? then a
    else a.(retryTimer := Some(now + Max(0, a.retryNotBefore.value - now)))
  }

  function ResetRetrySuppression(a: Assertion): Assertion {
    a.(retryNotBefore := None, retryTimer := None)
  }

  /** The failure says that the program does not exist, and the code takes it that way. */
  predicate GivesUp(a: Assertion, missing: bool) {
    missing && a.kind == SystemdInhibit
  }

  /** The second component: `onUnexpectedFailure` is to be called now. */
  function HandleFailure(a: Assertion, missing: bool, now: int, scheduleNow: int): (Assertion, bool) {
    if GivesUp(a, missing) then
      (ResetRetrySuppression(a.(unavailable := true, log := a.log + [Missing])), false)
    else
      (ScheduleRetry(a.(retryNotBefore := Some(now + RETRY_MS), log := a.log + [Failure(now)]), scheduleNow), true)
  }

  predicate GateClosed(a: Assertion, now: int) {
    a.retryNotBefore.Some? && now < a.retryNotBefore.value
  }

  function Start(a: Assertion, env: StartEnv): (Assertion, bool) {
    if !a.onPlatform || a.child.Some? || a.unavailable then (a, false)
    else if GateClosed(a, env.gateNow) then (ScheduleRetry(a, env.gateScheduleNow), false)
    else
      var attempted := a.(log := a.log + [Attempt(env.gateNow)]);
      match env.spawn
      case Throws(missing) => HandleFailure(attempted, missing, env.failNow, env.failScheduleNow)
      case Spawns =>
        (ResetRetrySuppression(attempted.(child := Some(a.spawned), spawned := a.spawned + 1,
                                          listening := a.listening + {a.spawned})), false)
  }

  function Stop(a: Assertion): Assertion {
    var reset := ResetRetrySuppression(a.(log := a.log + [Stopped]));
    if a.child.None? then reset
    else
      var id := a.child.value;
      reset.(child := None, intentionalStops := a.intentionalStops + {id}, listening := a.listening - {id},
             killed := a.killed + {id})
  }

  /** An 'error' or 'exit' event of a child; it reaches the code only while listeners are attached. */
  function ChildFails(a: Assertion, id: nat, missing: bool, now: int, scheduleNow: int): (Assertion, bool) {
    if id !in a.listening then (a, false)
    else
      var detached := a.(listening := a.listening - {id});
      if id in a.intentionalStops then (detached.(intentionalStops := a.intentionalStops - {id}), false)
      else if id in a.reportedFailures then (detached, false)
      else
        var reported := detached.(reportedFailures := a.reportedFailures + {id}, failed := a.failed + {id},
                                  child := if a.child == Some(id) then None else a.child);
        HandleFailure(reported, missing, now, scheduleNow)
  }

  function RetryTimerFires(a: Assertion): Assertion {
    a.(retryTimer := None)
  }

  // ---- What every step keeps ----

  ghost predicate AllBelow(ids: set<nat>, bound: nat) {
    forall id :: id in ids ==> id < bound
  }

  /** Every spawned child except the tracked one was killed or reported failed, and only the tracked one is listened
      to. */
  ghost predicate Accounted(a: Assertion) {
    && (forall id :: 0 <= id < a.spawned ==> a.child == Some(id) || id in a.killed || id in a.failed)
    && (a.child.Some? ==>
          && a.child.value < a.spawned
          && a.child.value !in a.intentionalStops && a.child.value !in a.reportedFailures)
    && a.listening == (if a.child.Some? then {a.child.value} else {})
    && AllBelow(a.intentionalStops, a.spawned) && AllBelow(a.reportedFailures, a.spawned)
  }

  /** A tracked child excludes a retry deadline and timer; so do a missing program and another platform. */
  ghost predicate Exclusive(a: Assertion) {
    && (a.child.Some? || a.unavailable || !a.onPlatform ==> a.retryNotBefore.None? && a.retryTimer.None?)
    && (a.unavailable || !a.onPlatform ==> a.child.None?)
    && (a.unavailable ==> a.kind == SystemdInhibit)
    && (a.retryTimer.Some? ==> a.retryNotBefore.Some?)
  }

  /** An attempt to spawn is the first entry, or comes right after a stop, or 30 seconds after the failure before it. */
  ghost predicate Spaced(log: seq<Entry>) {
    forall j :: 0 < j < |log| && log[j].Attempt? ==>
      log[j - 1].Stopped? || (log[j - 1].Failure? && log[j - 1].at + RETRY_MS <= log[j].at)
  }

  /** Nothing is attempted once the program is known to be missing. */
  ghost predicate MissingIsFinal(log: seq<Entry>) {
    forall i, j :: 0 <= i < j < |log| && log[i].Missing? ==> !log[j].Attempt?
  }

  /** What the end of the log says about the state. */
  ghost predicate LogMatches(a: Assertion) {
    && Spaced(a.log) && MissingIsFinal(a.log)
    && (a.unavailable <==> Missing in a.log)
    && (a.log != [] && !a.unavailable ==>
          match a.log[|a.log| - 1]
          case Failure(at) => a.retryNotBefore == Some(at + RETRY_MS)
          case Attempt(_) => a.child.Some?
          case Stopped => true
          case Missing => false)
  }

  ghost predicate Inv(a: Assertion) {
    Accounted(a) && Exclusive(a) && LogMatches(a)
  }

  /** A deadline has a timer that will bring the owner back. */
  ghost predicate Covered(a: Assertion) {
    a.retryNotBefore.Some? ==> a.retryTimer.Some?
  }

  lemma FreshInv(kind: Kind, onPlatform: bool)
    ensures Inv(Fresh(kind, onPlatform)) && Covered(Fresh(kind, onPlatform))
  {
  }

  lemma LogOneMore(log: seq<Entry>, e: Entry)
    requires Spaced(log) && MissingIsFinal(log)
    requires e.Attempt? ==> Missing !in log
    requires e.Attempt? && log != [] ==>
      log[|log| - 1].Stopped? || (log[|log| - 1].Failure? && log[|log| - 1].at + RETRY_MS <= e.at)
    ensures Spaced(log + [e]) && MissingIsFinal(log + [e])
  {
  }

  lemma FailureKeeps(a: Assertion, missing: bool, now: int, scheduleNow: int)
    requires Accounted(a) && a.child.None? && a.onPlatform && !a.unavailable
    requires Spaced(a.log) && MissingIsFinal(a.log) && Missing !in a.log
    requires a.retryTimer.Some? ==> a.retryNotBefore.Some?
    ensures var (b, owed) := HandleFailure(a, missing, now, scheduleNow);
      Inv(b) && Covered(b) && (owed <==> !GivesUp(a, missing))
    ensures HandleFailure(a, missing, now, scheduleNow).1 ==>
      HandleFailure(a, missing, now, scheduleNow).0.retryNotBefore == Some(now + RETRY_MS)
  {
    LogOneMore(a.log, if GivesUp(a, missing) then Missing else Failure(now));
  }

  /** `start` keeps the invariant and always leaves a deadline covered; a callback is owed only right after a
      failure that closed the gate for 30 seconds. */
  lemma StartKeeps(a: Assertion, env: StartEnv)
    requires Inv(a)
    ensures var (b, owed) := Start(a, env);
      && Inv(b) && Covered(b)
      && (owed ==> b.child.None? && !b.unavailable && b.retryNotBefore == Some(env.failNow + RETRY_MS))
  {
    if a.onPlatform && a.child.None? && !a.unavailable && !GateClosed(a, env.gateNow) {
      LogOneMore(a.log, Attempt(env.gateNow));
      if env.spawn.Throws? {
        FailureKeeps(a.(log := a.log + [Attempt(env.gateNow)]), env.spawn.missing, env.failNow, env.failScheduleNow);
      }
    }
  }

  /** After `start` a retry timer is set. */
  predicate Waits(a: Assertion, env: StartEnv) {
    && a.onPlatform && a.child.None? && !a.unavailable
    && (GateClosed(a, env.gateNow) || (env.spawn.Throws? && !GivesUp(a, env.spawn.missing)))
  }

  /** After `start` a child runs. */
  predicate Holds(a: Assertion, env: StartEnv) {
    a.child.Some? || (a.onPlatform && !a.unavailable && !GateClosed(a, env.gateNow) && env.spawn.Spawns?)
  }

  lemma StartOutcome(a: Assertion, env: StartEnv)
    requires Inv(a)
    ensures Start(a, env).0.retryTimer.Some? <==> Waits(a, env)
    ensures Start(a, env).0.child.Some? <==> Holds(a, env)
  {
  }

  /** A child that runs is left alone; a new one is the next in number. */
  lemma StartKeepsChild(a: Assertion, env: StartEnv)
    requires Inv(a) && Holds(a, env)
    ensures var b := Start(a, env).0;
      && (a.child.Some? ==> b == a)
      && (a.child.None? ==> b.child == Some(a.spawned) && b.spawned == a.spawned + 1 && a.spawned in b.listening)
  {
  }

  /** When the retry timer is due: at the deadline, or at once if that has passed; and one that was set before stays. */
  lemma RetryIsDue(a: Assertion, now: int)
    requires a.retryNotBefore.Some?
    ensures var due := ScheduleRetry(a, now).retryTimer;
      if a.retryTimer.Some? then due == a.retryTimer
      else due == Some(if now <= a.retryNotBefore.value then a.retryNotBefore.value else now)
  {
  }

  /** After a start that waits, the timer is due at the deadline: the old one behind a closed gate, or 30 seconds after
      a failed spawn. */
  lemma StartIsDue(a: Assertion, env: StartEnv)
    requires Inv(a) && Waits(a, env) && a.retryTimer.None?
    requires env.gateScheduleNow <= env.gateNow && env.failScheduleNow <= env.failNow + 30_000
    ensures var b := Start(a, env).0;
      b.retryTimer == b.retryNotBefore
      && b.retryNotBefore == if GateClosed(a, env.gateNow) then a.retryNotBefore else Some(env.failNow + 30_000)
  {
  }

  /** A retry timer that `start` sets lies ahead of the reading that led to it. */
  lemma StartTimerAhead(a: Assertion, env: StartEnv, since: int)
    requires since <= env.gateNow <= env.failNow
    requires a.retryTimer.Some? ==> since < a.retryTimer.value
    ensures var b := Start(a, env).0; b.retryTimer.Some? ==> since < b.retryTimer.value
  {
  }

  lemma StopKeeps(a: Assertion)
    requires Inv(a)
    ensures var b := Stop(a); Inv(b) && Covered(b) && b.child.None? && b.retryNotBefore.None? && b.retryTimer.None?
  {
    LogOneMore(a.log, Stopped);
  }

  /** An event reaches the code only for the tracked child, and then it is always reported: neither the check for
      an intentional stop nor the check for a repeated report ever applies. */
  lemma ChildFailsKeeps(a: Assertion, id: nat, missing: bool, now: int, scheduleNow: int)
    requires Inv(a)
    ensures var (b, owed) := ChildFails(a, id, missing, now, scheduleNow);
      && Inv(b) && (Covered(a) ==> Covered(b))
      && (id in a.listening ==>
            && a.child == Some(id) && id in b.failed && b.child.None? && Covered(b)
            && (owed <==> !GivesUp(a, missing)))
      && (id !in a.listening ==> b == a && !owed)
      && (owed ==> b.retryNotBefore == Some(now + RETRY_MS))
  {
    if id in a.listening {
      var reported := a.(listening := {}, reportedFailures := a.reportedFailures + {id}, failed := a.failed + {id},
                         child := None);
      assert a.listening - {id} == {};
      FailureKeeps(reported, missing, now, scheduleNow);
    }
  }

  lemma RetryTimerKeeps(a: Assertion)
    requires Inv(a)
    ensures Inv(RetryTimerFires(a))
  {
  }
}
