/** Over any run the waiters of a mutex get it in the order they queued (core/mutex.cc). */
module WaitOrder {
  import opened Wrappers
  import opened Scheduler

  /** Those still owed the mutex: a successor on its way, then the wait queue. */
  ghost function Line(s: System, m: Mid): seq<Tid>
    requires m in s.mutexes
  {
    (if x: Tid :| Successor(s, x, m) then [x] else []) + s.mutexes[m].waitQueue
  }

  function QueuedBy(s: System, step: Step, m: Mid): seq<Tid>
    requires WellTyped(s) && Guarded(s, step)
  {
    if step.Lock? && step.mutex == m && s.mutexes[m].locked then [s.current[step.cpu]] else []
  }

  function ResumedBy(s: System, step: Step, m: Mid): seq<Tid>
    requires WellTyped(s) && Guarded(s, step)
  {
    if step.Resume? && step.mutex == m then [s.current[step.cpu]] else []
  }

  /** The threads that go to sleep on m during a run, in order. */
  function Queued(s: System, steps: seq<Step>, m: Mid): seq<Tid>
    requires GuardedRun(s, steps)
    decreases |steps|
  {
    if steps == [] then []
    else QueuedBy(s, steps[0], m) + Queued(Do(s, steps[0]).value, steps[1..], m)
  }

  /** The threads that come back from sleep with m during a run, in order. */
  function Resumed(s: System, steps: seq<Step>, m: Mid): seq<Tid>
    requires GuardedRun(s, steps)
    decreases |steps|
  {
    if steps == [] then []
    else ResumedBy(s, steps[0], m) + Resumed(Do(s, steps[0]).value, steps[1..], m)
  }

  ghost function LineOf(s: System, m: Mid, x: Tid): seq<Tid>
    requires m in s.mutexes
  {
    (if Successor(s, x, m) then [x] else []) + s.mutexes[m].waitQueue
  }

  lemma LineIsLineOf(s: System, m: Mid, x: Tid)
    requires m in s.mutexes && MutexValid(s, m, x)
    ensures Line(s, m) == LineOf(s, m, x)
  {
    hide Holder;
    forall t | Successor(s, t, m)
      ensures t == x
    {
      assert Claims(s, t, m);
    }
  }

  lemma UnconcernedLine(s: System, s': System, step: Step, m: Mid, x: Tid)
    requires m in s.mutexes && Unconcerned(s, s', m) && WellTyped(s) && Guarded(s, step)
    requires QueuedBy(s, step, m) == ResumedBy(s, step, m) == []
    ensures LineOf(s, m, x) + QueuedBy(s, step, m) == ResumedBy(s, step, m) + LineOf(s', m, x)
  {
    assert LineOf(s', m, x) == LineOf(s, m, x);
  }

  lemma InvParts(s: System, place: map<Tid, Place>, claim: map<Mid, Tid>, m: Mid)
    requires InvAt(s, place, claim) && m in s.mutexes
    ensures WellTyped(s) && Placed(s, place) && m in claim && MutexValid(s, m, claim[m])
  {
  }

  lemma LockMovesLine(s: System, place: map<Tid, Place>, claim: map<Mid, Tid>, c: Cpu, m: Mid)
    requires InvAt(s, place, claim) && Guarded(s, Lock(c, m)) && DoLock(s, c, m).Some?
    ensures m in DoLock(s, c, m).value.mutexes
    ensures LineOf(s, m, claim[m]) + QueuedBy(s, Lock(c, m), m)
            == ResumedBy(s, Lock(c, m), m) + LineOf(DoLock(s, c, m).value, m, ClaimAfter(s, Lock(c, m), claim)[m])
  {
    hide InvAt, WellTyped, Placed, Holder, Asleep, Bounded, DoLock;
    InvParts(s, place, claim, m);
    assert MutexValid(s, m, claim[m]);
    assert Claims(s, claim[m], m) <==> s.mutexes[m].locked;
    RunningIsNotQueued(s, place, c, m);
    LockEffect(s, c, m, m);
  }

  lemma ResumeMovesLine(s: System, place: map<Tid, Place>, claim: map<Mid, Tid>, c: Cpu, m: Mid)
    requires InvAt(s, place, claim) && Guarded(s, Resume(c, m)) && DoResume(s, c, m).Some?
    ensures m in DoResume(s, c, m).value.mutexes
    ensures LineOf(s, m, claim[m]) + QueuedBy(s, Resume(c, m), m)
            == ResumedBy(s, Resume(c, m), m) + LineOf(DoResume(s, c, m).value, m, claim[m])
  {
    hide InvAt, WellTyped, Placed, Holder, Asleep, Bounded, DoResume;
    InvParts(s, place, claim, m);
    RunningIsNotQueued(s, place, c, m);
    ResumeEffect(s, c, m, m);
    assert MutexValid(s, m, claim[m]) && Claims(s, s.current[c], m);
  }

  lemma UnlockMovesLine(s: System, place: map<Tid, Place>, claim: map<Mid, Tid>, c: Cpu, m: Mid)
    requires InvAt(s, place, claim) && Guarded(s, Unlock(c, m)) && DoUnlock(s, c, m).Some?
    ensures m in DoUnlock(s, c, m).value.mutexes
    ensures LineOf(s, m, claim[m]) + QueuedBy(s, Unlock(c, m), m)
            == ResumedBy(s, Unlock(c, m), m)
               + LineOf(DoUnlock(s, c, m).value, m, ClaimAfter(s, Unlock(c, m), claim)[m])
  {
    hide InvAt, WellTyped, Placed, Holder, Asleep, Bounded, DoUnlock;
    InvParts(s, place, claim, m);
    var queue, s' := s.mutexes[m].waitQueue, DoUnlock(s, c, m).value;
    RunningIsNotQueued(s, place, c, m);
    UnlockEffect(s, c, m, m);
    assert MutexValid(s, m, claim[m]) && Claims(s, s.current[c], m);
    if queue != [] {
      assert queue == [queue[0]] + queue[1..] && queue[0] in queue && queue[0] !in queue[1..];
      assert Asleep(s, queue[0], m);
      assert Successor(s', queue[0], m);
    }
  }

  lemma OtherStepKeepsLine(s: System, step: Step, m: Mid, x: Tid)
    requires WellTyped(s) && Guarded(s, step) && Do(s, step).Some? && m in s.mutexes
    requires step.Yield? || step.mutex != m
    ensures m in Do(s, step).value.mutexes
    ensures LineOf(s, m, x) + QueuedBy(s, step, m) == ResumedBy(s, step, m) + LineOf(Do(s, step).value, m, x)
  {
    hide LineOf, Unconcerned, OnlyThread, Holder, Asleep;
    var c, s' := step.cpu, Do(s, step).value;
    match step {
      case Lock(_, m') => LockEffect(s, c, m', m);
      case Resume(_, m') => ResumeEffect(s, c, m', m);
      case Unlock(_, m') => UnlockEffect(s, c, m', m);
      case Yield(_) => YieldUnconcerned(s, c, m);
    }
    UnconcernedKeys(s, s', m);
    UnconcernedLine(s, s', step, m, x);
  }

  lemma UnconcernedKeys(s: System, s': System, m: Mid)
    requires m in s.mutexes && Unconcerned(s, s', m)
    ensures m in s'.mutexes
  {
  }

  lemma SameMutex(s: System, step: Step, m: Mid)
    requires WellTyped(s) && Guarded(s, step)
    ensures step.cpu in s.current
    ensures !step.Yield? ==> step.mutex in s.mutexes
  {
  }

  /** One step joins at the end of the line or leaves from its front. */
  lemma StepMovesLine(s: System, step: Step, place: map<Tid, Place>, claim: map<Mid, Tid>, m: Mid)
    requires InvAt(s, place, claim) && Guarded(s, step) && Do(s, step).Some? && m in s.mutexes
    ensures m in Do(s, step).value.mutexes
    ensures LineOf(s, m, claim[m]) + QueuedBy(s, step, m)
            == ResumedBy(s, step, m) + LineOf(Do(s, step).value, m, ClaimAfter(s, step, claim)[m])
  {
    hide InvAt, WellTyped, Placed, MutexValid, LineOf, Bounded, DoLock, DoResume, DoUnlock, DoYield, QueuedBy,
         ResumedBy, Guarded;
    InvParts(s, place, claim, m);
    SameMutex(s, step, m);
    if step.Yield? || step.mutex != m {
      OtherStepKeepsLine(s, step, m, claim[m]);
    } else {
      match step
      case Lock(c, _) => LockMovesLine(s, place, claim, c, m);
      case Resume(c, _) => ResumeMovesLine(s, place, claim, c, m);
      case Unlock(c, _) => UnlockMovesLine(s, place, claim, c, m);
    }
  }

  lemma YieldUnconcerned(s: System, c: Cpu, m: Mid)
    requires WellTyped(s) && c in s.current && m in s.mutexes && DoYield(s, c).Some?
    ensures Unconcerned(s, DoYield(s, c).value, m)
  {
  }

  /** Over any run: those in line at the start followed by those who queue are those who
      resume followed by those in line at the end. */
  lemma {:induction false} RunsMoveLine(s: System, steps: seq<Step>, place: map<Tid, Place>, claim: map<Mid, Tid>, m: Mid)
    requires InvAt(s, place, claim) && GuardedRun(s, steps) && m in s.mutexes
    ensures m in RunAll(s, steps).mutexes
    ensures Line(s, m) + Queued(s, steps, m) == Resumed(s, steps, m) + Line(RunAll(s, steps), m)
    decreases |steps|
  {
    hide Placed, MutexValid, LineOf, Line, Bounded, Do, QueuedBy, ResumedBy;
    LineIsLineOf(s, m, claim[m]);
    if steps != [] {
      var step, s' := steps[0], Do(s, steps[0]).value;
      var place', claim' := PlaceAfter(s, step, place), ClaimAfter(s, step, claim);
      StepMovesLine(s, step, place, claim, m);
      StepKeepsInv(s, step, place, claim);
      LineIsLineOf(s', m, claim'[m]);
      RunsMoveLine(s', steps[1..], place', claim', m);
      calc {
        Line(s, m) + Queued(s, steps, m);
        Line(s, m) + QueuedBy(s, step, m) + Queued(s', steps[1..], m);
        ResumedBy(s, step, m) + (Line(s', m) + Queued(s', steps[1..], m));
        Resumed(s, steps, m) + Line(RunAll(s, steps), m);
      }
    }
  }

  /** From a free mutex, the threads that slept for it get it in the order they queued. */
  lemma WaitersResumeInOrder(s: System, steps: seq<Step>, m: Mid)
    requires Inv(s) && GuardedRun(s, steps) && m in s.mutexes && !s.mutexes[m].locked
    ensures Resumed(s, steps, m) <= Queued(s, steps, m)
    ensures m in RunAll(s, steps).mutexes
    ensures Queued(s, steps, m) == Resumed(s, steps, m) + Line(RunAll(s, steps), m)
  {
    hide Placed, Bounded, Queued, Resumed;
    var place, claim :| InvAt(s, place, claim);
    RunsMoveLine(s, steps, place, claim, m);
    LineIsLineOf(s, m, claim[m]);
    assert !Claims(s, claim[m], m);
    assert Line(s, m) == [];
    assert Queued(s, steps, m) == Line(s, m) + Queued(s, steps, m);
  }
}
