/** The scheduler and the mutexes as the program runs them: fields updated in place
    (core/mutex.cc, core/sched.cc, core/thread.cc). */
module Machines {
  import opened Wrappers
  import opened Scheduler

  class Machine {
    var current: map<Cpu, Tid>
    var runQueue: map<Cpu, seq<Tid>>
    var mutexes: map<Mid, Mutex>
    var state: map<Tid, ThreadState>
    ghost var sleepingIn: map<Tid, Option<Mid>>
    ghost var guards: map<Tid, set<Mid>>

    ghost function Abs(): System
      reads this
    {
      System(current, runQueue, mutexes, state, sleepingIn, guards)
    }

    /** schedule_next_thread; ok is false where the assertion fails. */
    method ScheduleNextThread(c: Cpu) returns (ok: bool)
      requires c in runQueue
      modifies this`current, this`runQueue
      ensures ok <==> ScheduleNext(old(Abs()), c).Some?
      ensures ok ==> Abs() == ScheduleNext(old(Abs()), c).value
    {
      ok := runQueue[c] != [];
      if ok {
        var next := runQueue[c][0];
        runQueue := runQueue[c := runQueue[c][1..]];
        current := current[c := next];
      }
    }

    method ThreadYield(c: Cpu) returns (ok: bool)
      requires WellTyped(Abs()) && c in current
      modifies this`current, this`runQueue, this`state
      ensures ok && DoYield(old(Abs()), c) == Some(Abs())
    {
      var oldThread := current[c];
      state := state[oldThread := Ready];
      runQueue := runQueue[c := runQueue[c] + [oldThread]];
      ok := ScheduleNextThread(c);
    }

    /** Mutex::lock up to where it returns or another thread runs. */
    method LockEnter(c: Cpu, m: Mid) returns (ok: bool)
      requires WellTyped(Abs()) && Guarded(Abs(), Lock(c, m))
      modifies this
      ensures ok <==> DoLock(old(Abs()), c, m).Some?
      ensures ok ==> Abs() == DoLock(old(Abs()), c, m).value
    {
      var t := current[c];
      if !mutexes[m].locked {
        mutexes := mutexes[m := mutexes[m].(locked := true)];
        mutexes := mutexes[m := mutexes[m].(owner := Some(t))];
        guards := guards[t := guards[t] + {m}];
        ok := true;
      } else {
        state := state[t := Blocked];
        mutexes := mutexes[m := mutexes[m].(waitQueue := mutexes[m].waitQueue + [t])];
        sleepingIn := sleepingIn[t := Some(m)];
        ok := ScheduleNextThread(c);
      }
    }

    /** Mutex::lock from where the thread runs again; ok is false where the assertion fails. */
    method LockResume(c: Cpu, m: Mid) returns (ok: bool)
      requires WellTyped(Abs()) && Guarded(Abs(), Resume(c, m))
      modifies this`mutexes, this`sleepingIn, this`guards
      ensures ok <==> DoResume(old(Abs()), c, m).Some?
      ensures ok ==> Abs() == DoResume(old(Abs()), c, m).value
    {
      var t := current[c];
      ok := mutexes[m].owner != Some(t);
      if ok {
        mutexes := mutexes[m := mutexes[m].(owner := Some(t))];
        sleepingIn := sleepingIn[t := None];
        guards := guards[t := guards[t] + {m}];
      }
    }

    /** Mutex::unlock; ok is false where the assertion fails. */
    method UnlockMutex(c: Cpu, m: Mid) returns (ok: bool)
      requires WellTyped(Abs()) && Guarded(Abs(), Unlock(c, m))
      modifies this`mutexes, this`state, this`runQueue, this`guards
      ensures ok <==> DoUnlock(old(Abs()), c, m).Some?
      ensures ok ==> Abs() == DoUnlock(old(Abs()), c, m).value
    {
      var t := current[c];
      ok := mutexes[m].owner == Some(t);
      if ok {
        if mutexes[m].waitQueue == [] {
          mutexes := mutexes[m := mutexes[m].(locked := false)];
          mutexes := mutexes[m := mutexes[m].(owner := None)];
        } else {
          var next := mutexes[m].waitQueue[0];
          mutexes := mutexes[m := mutexes[m].(waitQueue := mutexes[m].waitQueue[1..])];
          state := state[next := Ready];
          runQueue := runQueue[c := runQueue[c] + [next]];
        }
        guards := guards[t := guards[t] - {m}];
      }
    }
  }
}
