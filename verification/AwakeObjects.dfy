/** The objects that update the awake state in place. Every method is a step of `SleepAssertion` or `AgentAwake` on the
    object's abstract value, so what is proved there of all runs holds of the objects. */
module AwakeObjects {
  import opened Common
  import opened SleepAssertion
  import opened AgentAwake

  /** The lid assertion of Linux and the system assertion of macOS, which differ in their platform, their program and
      what a missing program means. */
  class PlatformAwakeAssertion {
    const kind: Kind
    const onPlatform: bool
    var child: Option<nat>
    var retryNotBefore: Option<int>
    var retryTimer: Option<int>
    var unavailable: bool
    var intentionalStops: set<nat>
    var reportedFailures: set<nat>
    var childCleanups: set<nat>
    var spawned: nat
    ghost var killed: set<nat>
    ghost var failed: set<nat>
    ghost var log: seq<Entry>

    ghost function Abstract(): Assertion
      reads this
    {
      Assertion(kind, onPlatform, child, retryNotBefore, retryTimer, unavailable, intentionalStops,
                reportedFailures, childCleanups, spawned, killed, failed, log)
    }

    ghost predicate Valid()
      reads this
    {
      SleepAssertion.Inv(Abstract())
    }

    constructor (kind: Kind, onPlatform: bool)
      ensures Valid() && Abstract() == SleepAssertion.Fresh(kind, onPlatform)
    {
      this.kind, this.onPlatform := kind, onPlatform;
      child, retryNotBefore, retryTimer, unavailable := None, None, None, false;
      intentionalStops, reportedFailures, childCleanups, spawned := {}, {}, {}, 0;
      killed, failed, log := {}, {}, [];
      new;
      FreshInv(kind, onPlatform);
    }

    /** Called in the middle of a step. */
    method ScheduleRetry(now: int)
      modifies this`retryTimer
      ensures Abstract() == SleepAssertion.ScheduleRetry(old(Abstract()), now)
    {
      if retryNotBefore.None? || retryTimer.Some? {
        return;
      }
      var retryDelay := Max(0, retryNotBefore.value - now);
      retryTimer := Some(now + retryDelay);
    }

    /** Called in the middle of a step. */
    method ResetRetrySuppression()
      modifies this`retryNotBefore, this`retryTimer
      ensures Abstract() == SleepAssertion.ResetRetrySuppression(old(Abstract()))
    {
      retryNotBefore := None;
      if retryTimer.None? {
        return;
      }
      retryTimer := None;
    }

    /** Called in the middle of a step. */
    method HandleFailure(missing: bool, now: int, scheduleNow: int) returns (owed: bool)
      modifies this
      ensures (Abstract(), owed) == SleepAssertion.HandleFailure(old(Abstract()), missing, now, scheduleNow)
    {
      if missing && kind == SystemdInhibit {
        unavailable, log := true, log + [Missing];
        ResetRetrySuppression();
        return false;
      }
      retryNotBefore, log := Some(now + RETRY_MS), log + [Failure(now)];
      ScheduleRetry(scheduleNow);
      return true;
    }

    method Start(env: StartEnv) returns (owed: bool)
      requires Valid()
      modifies this
      ensures (Abstract(), owed) == SleepAssertion.Start(old(Abstract()), env)
      ensures Valid() && Covered(Abstract())
    {
      StartKeeps(Abstract(), env);
      if !onPlatform || child.Some? || unavailable {
        return false;
      }
      if retryNotBefore.Some? && env.gateNow < retryNotBefore.value {
        ScheduleRetry(env.gateScheduleNow);
        return false;
      }
      log := log + [Attempt(env.gateNow)];
      if env.spawn.Throws? {
        owed := HandleFailure(env.spawn.missing, env.failNow, env.failScheduleNow);
        return;
      }
      var spawnedChild := spawned;
      spawned := spawned + 1;
      child := Some(spawnedChild);
      childCleanups := childCleanups + {spawnedChild};
      ResetRetrySuppression();
      return false;
    }

    method Stop()
      requires Valid()
      modifies this
      ensures Abstract() == SleepAssertion.Stop(old(Abstract()))
      ensures Valid() && Covered(Abstract())
    {
      StopKeeps(Abstract());
      log := log + [Stopped];
      ResetRetrySuppression();
      if child.None? {
        return;
      }
      var stopped := child.value;
      child := None;
      intentionalStops := intentionalStops + {stopped};
      childCleanups := childCleanups - {stopped};
      killed := killed + {stopped};
    }

    method HandleChildFailure(id: nat, missing: bool, now: int, scheduleNow: int) returns (owed: bool)
      requires id in childCleanups
      modifies this
      ensures (Abstract(), owed) == ChildFails(old(Abstract()), id, missing, now, scheduleNow)
      ensures old(Valid()) ==> Valid() && Covered(Abstract())
    {
      if Valid() {
        ChildFailsKeeps(Abstract(), id, missing, now, scheduleNow);
      }
      childCleanups := childCleanups - {id};
      if id in intentionalStops {
        intentionalStops := intentionalStops - {id};
        return false;
      }
      if id in reportedFailures {
        return false;
      }
      reportedFailures, failed := reportedFailures + {id}, failed + {id};
      if child == Some(id) {
        child := None;
      }
      owed := HandleFailure(missing, now, scheduleNow);
    }

    method RetryTimerCallback()
      requires Valid()
      modifies this`retryTimer
      ensures Abstract() == RetryTimerFires(old(Abstract()))
      ensures Valid()
    {
      RetryTimerKeeps(Abstract());
      retryTimer := None;
    }
  }

  class AgentAwakeService {
    var enabled: bool
    var statuses: seq<Status>
    var blockerId: Option<nat>
    var staleTimer: Option<int>
    const macos: PlatformAwakeAssertion
    const linux: PlatformAwakeAssertion
    // The power-save blocker.
    var blockersStarted: set<nat>
    var nextBlocker: nat
    ghost var armedAt: int

    /** The assertion of the platform, and the one whose methods return at once. */
    function Host(): PlatformAwakeAssertion {
      if macos.onPlatform then macos else linux
    }

    function Other(): PlatformAwakeAssertion {
      if macos.onPlatform then linux else macos
    }

    ghost predicate Wired()
      reads macos, linux
    {
      macos != linux && !Other().onPlatform && Other().Valid()
    }

    ghost function Abstract(): Awake
      reads this, macos, linux
    {
      Awake(enabled, statuses, blockerId, staleTimer, blockersStarted, nextBlocker, Host().Abstract(), armedAt)
    }

    /** Holds between any two top-level events: some run leads to this state, so that whatever is proved of runs and of
        their states, `AgentAwake.Settled` among it, holds of the object. */
    ghost predicate Valid()
      reads this, macos, linux
    {
      Wired() && Reachable(Abstract())
    }

    lemma HostIsValid()
      requires Valid()
      ensures Host().Valid()
    {
      ReachableSettled(Abstract());
    }

    constructor (platform: Platform)
      ensures Valid() && Abstract() == Created(platform) && fresh(macos) && fresh(linux)
    {
      enabled, statuses, blockerId, staleTimer := false, [], None, None;
      blockersStarted, nextBlocker, armedAt := {}, 0, 0;
      macos := new PlatformAwakeAssertion(Caffeinate, platform == MacOs);
      linux := new PlatformAwakeAssertion(SystemdInhibit, platform == Linux);
      new;
      CreatedReachable(platform);
    }

    /** The earliest expiry that lies ahead, by one pass over the statuses. */
    method ScheduleStaleTimer(now: int)
      modifies this`staleTimer, this`armedAt
      ensures Abstract() == AgentAwake.ScheduleStaleTimer(old(Abstract()), now)
    {
      var earliestExpiry: Option<int> := None;
      for k := 0 to |statuses|
        invariant earliestExpiry == EarliestExpiry(statuses[..k], now)
      {
        assert statuses[..k + 1][..k] == statuses[..k];
        var status := statuses[k];
        if !status.observedInCurrentRuntime || status.activity != Working || status.receivedAt.None? {
          continue;
        }
        var expiry := status.receivedAt.value + STALE_AFTER_MS;
        if expiry <= now {
          continue;
        }
        if earliestExpiry.None? || expiry < earliestExpiry.value {
          earliestExpiry := Some(expiry);
        }
      }
      assert statuses[..|statuses|] == statuses;
      staleTimer, armedAt := earliestExpiry, now;
    }

    method GetEligibleRunningStatusCount(now: int) returns (count: nat)
      ensures count == EligibleCount(statuses, now)
    {
      count := 0;
      for k := 0 to |statuses|
        invariant count + EligibleCount(statuses[k..], now) == EligibleCount(statuses, now)
      {
        assert statuses[k..][1..] == statuses[k + 1..];
        if statuses[k].WakeEligible(now) {
          count := count + 1;
        }
      }
    }

    method ReconcileBlocker(queryThrows: bool) returns (running: bool)
      modifies this`blockerId
      ensures (Abstract(), running) == Reconcile(old(Abstract()), queryThrows)
    {
      if blockerId.None? {
        return false;
      }
      if queryThrows {
        return true;
      }
      running := blockerId.value in blockersStarted;
      if !running {
        blockerId := None;
      }
    }

    method StartBlocker(env: BlockerEnv)
      modifies this`blockerId, this`blockersStarted, this`nextBlocker
      ensures Abstract() == AgentAwake.StartBlocker(old(Abstract()), env)
    {
      if blockerId.Some? {
        var running := ReconcileBlocker(env.firstQueryThrows);
        if running {
          return;
        }
      }
      if env.callThrows {
        return;
      }
      var id := nextBlocker;
      nextBlocker := nextBlocker + 1;
      if env.takes {
        blockersStarted := blockersStarted + {id};
      }
      blockerId := Some(id);
      var _ := ReconcileBlocker(env.lastQueryThrows);
    }

    method StopBlocker(env: BlockerEnv)
      modifies this`blockerId, this`blockersStarted
      ensures Abstract() == AgentAwake.StopBlocker(old(Abstract()), env)
    {
      if blockerId.None? {
        return;
      }
      if !env.callThrows && env.takes {
        blockersStarted := blockersStarted - {blockerId.value};
      }
      var _ := ReconcileBlocker(env.lastQueryThrows);
    }

    /** Called in the middle of an event: `refresh`, re-entered through the callback of an assertion as long as that is
        owed. */
    method Refresh(rounds: seq<Round>) returns (enough: bool)
      requires Wired() && Host().Valid()
      modifies this, macos, linux
      ensures Wired()
      ensures enough <==> AgentAwake.Refresh(old(Abstract()), rounds).Some?
      ensures enough ==> Some(Abstract()) == AgentAwake.Refresh(old(Abstract()), rounds)
      decreases |rounds|
    {
      if rounds == [] {
        return false;
      }
      var round := rounds[0];
      ScheduleStaleTimer(round.scheduleNow);
      var runningStatusCount := GetEligibleRunningStatusCount(round.countNow);
      var shouldBlock := enabled && runningStatusCount > 0;
      enough := true;
      if shouldBlock {
        StartBlocker(round.blocker);
        var macosOwed := macos.Start(round.start);
        if macosOwed {
          enough := Refresh(rounds[1..]);
        }
        var linuxOwed := linux.Start(round.start);
        if linuxOwed {
          enough := Refresh(rounds[1..]);
        }
      } else {
        StopBlocker(round.blocker);
        macos.Stop();
        linux.Stop();
      }
    }

    method SetEnabled(enabled: bool, rounds: seq<Round>) returns (enough: bool)
      requires Valid()
      modifies this, macos, linux
      ensures enough <==> Step(old(Abstract()), Event.SetEnabled(enabled), rounds).Some?
      ensures enough ==> Some(Abstract()) == Step(old(Abstract()), Event.SetEnabled(enabled), rounds)
      ensures enough ==> Valid()
    {
      HostIsValid();
      StepReachable(Abstract(), Event.SetEnabled(enabled), rounds);
      if this.enabled == enabled {
        return true;
      }
      this.enabled := enabled;
      enough := Refresh(rounds);
    }

    method SetStatuses(statuses: seq<Status>, rounds: seq<Round>) returns (enough: bool)
      requires Valid()
      modifies this, macos, linux
      ensures enough <==> Step(old(Abstract()), Event.SetStatuses(statuses), rounds).Some?
      ensures enough ==> Some(Abstract()) == Step(old(Abstract()), Event.SetStatuses(statuses), rounds)
      ensures enough ==> Valid()
    {
      HostIsValid();
      StepReachable(Abstract(), Event.SetStatuses(statuses), rounds);
      this.statuses := statuses;
      enough := Refresh(rounds);
    }

    method OnResume(rounds: seq<Round>) returns (enough: bool)
      requires Valid()
      modifies this, macos, linux
      ensures enough <==> Step(old(Abstract()), PowerResume, rounds).Some?
      ensures enough ==> Some(Abstract()) == Step(old(Abstract()), PowerResume, rounds)
      ensures enough ==> Valid()
    {
      HostIsValid();
      StepReachable(Abstract(), PowerResume, rounds);
      enough := Refresh(rounds);
    }

    method StaleTimerCallback(rounds: seq<Round>) returns (enough: bool)
      requires Valid() && staleTimer.Some?
      modifies this, macos, linux
      ensures enough <==> Step(old(Abstract()), StaleTimer, rounds).Some?
      ensures enough ==> Some(Abstract()) == Step(old(Abstract()), StaleTimer, rounds)
      ensures enough ==> Valid()
    {
      HostIsValid();
      StepReachable(Abstract(), StaleTimer, rounds);
      staleTimer := None;
      enough := Refresh(rounds);
    }

    method OnRetryTimer(assertion: PlatformAwakeAssertion, rounds: seq<Round>) returns (enough: bool)
      requires Valid() && assertion in {macos, linux} && assertion.retryTimer.Some?
      modifies this, macos, linux
      ensures enough <==> Step(old(Abstract()), RetryTimer, rounds).Some?
      ensures enough ==> Some(Abstract()) == Step(old(Abstract()), RetryTimer, rounds)
      ensures enough ==> Valid()
    {
      HostIsValid();
      StepReachable(Abstract(), RetryTimer, rounds);
      assertion.RetryTimerCallback();
      enough := Refresh(rounds);
    }

    method OnChildEvent(assertion: PlatformAwakeAssertion, id: nat, missing: bool, now: int, scheduleNow: int,
                        rounds: seq<Round>)
      returns (enough: bool)
      requires Valid() && assertion in {macos, linux} && id in assertion.childCleanups
      modifies this, macos, linux
      ensures enough <==> Step(old(Abstract()), ChildEvent(id, missing, now, scheduleNow), rounds).Some?
      ensures enough ==> Some(Abstract()) == Step(old(Abstract()), ChildEvent(id, missing, now, scheduleNow), rounds)
      ensures enough ==> Valid()
    {
      HostIsValid();
      StepReachable(Abstract(), ChildEvent(id, missing, now, scheduleNow), rounds);
      var owed := assertion.HandleChildFailure(id, missing, now, scheduleNow);
      if owed {
        enough := Refresh(rounds);
      } else {
        enough := true;
      }
    }

    method Dispose(blocker: BlockerEnv)
      requires Valid()
      modifies this, macos, linux
      ensures Some(Abstract()) == Step(old(Abstract()), Event.Dispose(blocker), [])
      ensures Valid()
    {
      HostIsValid();
      StepReachable(Abstract(), Event.Dispose(blocker), []);
      staleTimer := None;
      StopBlocker(blocker);
      macos.Stop();
      linux.Stop();
    }
  }
}
