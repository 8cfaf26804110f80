/** The preference object itself: its methods, and one method for each stretch of code between two awaits of a
    write. Each method is exactly one step of `ActiveView`. */
module ActiveViewPreference {
  import opened Common
  import opened ActiveView

  class Preference {
    var activeView: View
    var persistedActiveView: Option<View>
    var writeTimer: bool
    var pendingWrite: Option<nat>
    var writeGeneration: nat
    // Suspended writes and the disk.
    var writes: seq<Write>
    var temp: map<nat, Content>
    var file: Option<View>
    // History.
    ghost var renames: seq<nat>
    ghost var accepted: bool
    ghost var failed: set<nat>

    ghost function Abstract(): State
      reads this
    {
      State(activeView, persistedActiveView, writeTimer, pendingWrite, writeGeneration, writes, temp, file,
            renames, accepted, failed)
    }

    /** Holds between any two stretches of code: some run leads to this state, so that whatever is proved of runs and of
        their states holds of the object. */
    ghost predicate Valid()
      reads this
    {
      Reachable(Abstract())
    }

    constructor (stored: Option<View>, legacy: Value)
      ensures Valid() && Abstract() == Init(stored, legacy)
    {
      var fallback := TopLevelView(legacy);
      activeView := if stored.Some? then stored.value else if fallback.Some? then fallback.value else Terminal;
      persistedActiveView, file := stored, stored;
      writeTimer, pendingWrite, writeGeneration := false, None, 0;
      writes, temp := [], map[];
      renames, accepted, failed := [], false, {};
      new;
      InitReachable(stored, legacy);
    }

    /** Called in the middle of `Set`. */
    method ScheduleSave()
      modifies this`writeGeneration, this`writeTimer
      ensures Abstract() == ActiveView.ScheduleSave(old(Abstract()))
    {
      writeGeneration := writeGeneration + 1;
      writeTimer := true;
    }

    method Set(value: Value) returns (changed: bool)
      requires Valid()
      modifies this
      ensures Abstract() == Step(old(Abstract()), Event.Set(value))
      ensures changed <==> TopLevelView(value).Some? && TopLevelView(value) != Some(old(activeView))
      ensures TopLevelView(value).Some? ==> Some(activeView) == TopLevelView(value)
      ensures Valid()
    {
      StepReachable(Abstract(), Event.Set(value));
      var view := TopLevelView(value);
      if view.None? {
        return false;
      }
      changed := view.value != activeView;
      activeView, accepted := view.value, true;
      if view != persistedActiveView || writeTimer || pendingWrite.Some? {
        ScheduleSave();
      }
    }

    method TimerCallback()
      requires Valid() && writeTimer
      modifies this
      ensures Abstract() == Step(old(Abstract()), TimerFires)
      ensures Valid()
    {
      StepReachable(Abstract(), TimerFires);
      writeTimer := false;
      var id := |writes|;
      writes := writes + [Write(writeGeneration, activeView, pendingWrite, Queued)];
      pendingWrite := Some(id);
    }

    /** `writeAsync` up to its first await; runs once the previous write's promise has resolved. */
    method BeginWrite(id: nat)
      requires Valid() && CanBegin(Abstract(), id)
      modifies this
      ensures Abstract() == Step(old(Abstract()), Begins(id))
      ensures Valid()
    {
      StepReachable(Abstract(), Begins(id));
      writes := writes[id := writes[id].(phase := Preparing)];
    }

    method AfterMkdir(id: nat, works: bool)
      requires Valid() && Abstract().In(id, Preparing)
      modifies this
      ensures Abstract() == Step(old(Abstract()), if works then DirectoryReady(id) else DirectoryFails(id))
      ensures Valid()
    {
      StepReachable(Abstract(), if works then DirectoryReady(id) else DirectoryFails(id));
      if works {
        writes := writes[id := writes[id].(phase := Writing)];
      } else {
        failed := failed + {writes[id].generation};
        writes := writes[id := writes[id].(phase := Cleaning)];
      }
    }

    /** The disk's side of `writeFile`: the temporary file appears, then either holds everything or the call fails. */
    method WriteReachesDisk(id: nat)
      requires Valid() && Abstract().In(id, Writing)
      modifies this
      ensures Abstract() == Step(old(Abstract()), FileTouched(id))
      ensures Valid()
    {
      StepReachable(Abstract(), FileTouched(id));
      temp := temp[writes[id].generation := Partial];
      writes := writes[id := writes[id].(phase := Touched)];
    }

    method WriteFileEnds(id: nat, works: bool)
      requires Valid() && (Abstract().In(id, Writing) || Abstract().In(id, Touched))
      modifies this
      ensures Abstract() == Step(old(Abstract()), if works then FileLands(id) else FileFails(id))
      ensures Valid()
    {
      StepReachable(Abstract(), if works then FileLands(id) else FileFails(id));
      if works {
        temp := temp[writes[id].generation := Whole(writes[id].view)];
        writes := writes[id := writes[id].(phase := Written)];
      } else {
        failed := failed + {writes[id].generation};
        writes := writes[id := writes[id].(phase := Cleaning)];
      }
    }

    /** `writeAsync` after `writeFile` resolved: guard, rename, and the new persisted view. */
    method AfterWriteFile(id: nat, renameWorks: bool)
      requires Valid() && Abstract().In(id, Written)
      modifies this
      ensures Abstract() == Step(old(Abstract()), Swaps(id, renameWorks))
      ensures Valid()
    {
      StepReachable(Abstract(), Swaps(id, renameWorks));
      var w := writes[id];
      if w.generation != writeGeneration {
        writes := writes[id := w.(phase := Cleaning)];
        return;
      }
      if !renameWorks || w.generation !in temp {
        failed := failed + {w.generation};
        writes := writes[id := w.(phase := Cleaning)];
        return;
      }
      file := if temp[w.generation].Whole? then Some(temp[w.generation].view) else None;
      temp := temp - {w.generation};
      renames := renames + [w.generation];
      persistedActiveView := Some(w.view);
      writes := writes[id := w.(phase := Settled)];
    }

    method AfterRm(id: nat, removed: bool)
      requires Valid() && Abstract().In(id, Cleaning)
      modifies this
      ensures Abstract() == Step(old(Abstract()), CleansUp(id, removed))
      ensures Valid()
    {
      StepReachable(Abstract(), CleansUp(id, removed));
      if removed {
        temp := temp - {writes[id].generation};
      }
      writes := writes[id := writes[id].(phase := Settled)];
    }

    method Finally(id: nat)
      requires Valid() && Abstract().In(id, Settled)
      modifies this
      ensures Abstract() == Step(old(Abstract()), Settles(id))
      ensures Valid()
    {
      StepReachable(Abstract(), Settles(id));
      writes := writes[id := writes[id].(phase := Finished)];
      if pendingWrite == Some(id) {
        pendingWrite := None;
      }
    }

    /** The synchronous write, called in the middle of `FlushOrThrow`. */
    method SaveNow(outcome: FlushOutcome) returns (threw: bool)
      modifies this
      ensures Abstract() == ActiveView.SaveNow(old(Abstract()), outcome)
      ensures threw <==> outcome != Completes
    {
      if outcome.MkdirFails? {
        failed := failed + {writeGeneration};
        return true;
      }
      if outcome.WriteFails? {
        temp := if outcome.touched then temp[writeGeneration := Partial] else temp;
        failed := failed + {writeGeneration};
        return true;
      }
      temp := temp[writeGeneration := Whole(activeView)];
      if outcome.RenameFails? {
        failed := failed + {writeGeneration};
        return true;
      }
      file := Some(temp[writeGeneration].view);
      temp := temp - {writeGeneration};
      renames, accepted := renames + [writeGeneration], true;
      persistedActiveView := Some(activeView);
      return false;
    }

    /** Returns normally only with the current view in the file, and durably so: see `ActiveView.FlushIsDurable`. */
    method FlushOrThrow(outcome: FlushOutcome) returns (threw: bool)
      requires Valid()
      modifies this
      ensures Abstract() == FlushNow(old(Abstract()), outcome)
      ensures threw <==> !FlushReturns(old(Abstract()), outcome)
      ensures !threw ==> file == Some(activeView) == Some(old(activeView))
      ensures Valid()
    {
      StepReachable(Abstract(), Flush(outcome));
      if FlushReturns(Abstract(), outcome) {
        FlushSaves(Abstract(), outcome);
      }
      writeTimer := false;
      var asyncWriteWasInFlight := pendingWrite.Some?;
      writeGeneration := writeGeneration + 1;
      pendingWrite := None;
      if !asyncWriteWasInFlight && Some(activeView) == persistedActiveView {
        return false;
      }
      threw := SaveNow(outcome);
    }
  }
}
