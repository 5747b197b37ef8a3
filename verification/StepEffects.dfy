/** What one step does to the fields of threads and mutexes that nobody waits for: their states,
    owners and locks (core/mutex.cc, core/thread.cc). */
module StepEffects {
  import opened Wrappers
  import opened Scheduler
  import opened RunQueues

  /** Of the states of threads a step changes one at most: who yields or is woken is ready, who
      goes to sleep is blocked. */
  lemma StatesChange(s: System, step: Step, t: Tid)
    requires WellTyped(s) && Guarded(s, step) && Do(s, step).Some? && t in s.state
    ensures t in Do(s, step).value.state
    ensures Do(s, step).value.state[t]
         == if t in JoinedBy(s, step, step.cpu) then Ready
            else if step.Lock? && s.mutexes[step.mutex].locked && t == s.current[step.cpu] then Blocked
            else s.state[t]
  {
  }

  /** The owner of a mutex changes when it is acquired, when a woken thread is back, and when it is
      freed.  While it is handed over it stays locked and keeps the owner that gave it up. */
  lemma OwnersChange(s: System, step: Step, m: Mid)
    requires WellTyped(s) && Guarded(s, step) && Do(s, step).Some? && m in s.mutexes
    ensures m in Do(s, step).value.mutexes
    ensures var (was, now, t) := (s.mutexes[m], Do(s, step).value.mutexes[m], s.current[step.cpu]);
            var here := !step.Yield? && step.mutex == m;
            && now.owner == (if here && ((step.Lock? && !was.locked) || step.Resume?) then Some(t)
                             else if here && step.Unlock? && was.waitQueue == [] then None
                             else was.owner)
            && now.locked == (if here && step.Lock? then true
                              else if here && step.Unlock? && was.waitQueue == [] then false
                              else was.locked)
  {
  }

  /** Unlocking fails exactly for a thread that is not the owner, coming back exactly for one that
      already is. */
  lemma OwnershipIsChecked(s: System, c: Cpu, m: Mid)
    requires WellTyped(s) && c in s.current && m in s.mutexes
    ensures DoUnlock(s, c, m).Some? <==> s.mutexes[m].owner == Some(s.current[c])
    ensures DoResume(s, c, m).Some? <==> s.mutexes[m].owner != Some(s.current[c])
  {
  }
}
