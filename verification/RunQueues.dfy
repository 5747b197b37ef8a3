/** Run queues are first in, first out; with only yields they rotate (core/sched.cc,
    core/thread.cc, core/mutex.cc). */
module RunQueues {
  import Bits
  import opened Wrappers
  import opened Scheduler

  /** The threads of one CPU in the order they will run. */
  function Ring(s: System, c: Cpu): seq<Tid>
    requires c in s.current && c in s.runQueue
  {
    [s.current[c]] + s.runQueue[c]
  }

  function Yields(c: Cpu, n: nat): seq<Step> {
    if n == 0 then [] else [Yield(c)] + Yields(c, n - 1)
  }

  function Rotate(ts: seq<Tid>, n: nat): seq<Tid>
    requires ts != []
  {
    ts[n % |ts|..] + ts[..n % |ts|]
  }

  lemma RotateStep(ts: seq<Tid>, n: nat)
    requires ts != []
    ensures Rotate(ts[1..] + [ts[0]], n) == Rotate(ts, n + 1)
  {
    var k := n % |ts|;
    var ts' := ts[1..] + [ts[0]];
    if k + 1 < |ts| {
      Bits.NextRemainder(n, |ts|);
      assert ts'[k..] == ts[k + 1..] + [ts[0]];
      assert ts'[..k] == ts[1..k + 1];
      assert ts[..k + 1] == [ts[0]] + ts[1..k + 1];
    } else {
      Bits.NextRemainder(n, |ts|);
      assert ts'[k..] == [ts[0]] && ts'[..k] == ts[1..];
      assert Rotate(ts, n + 1) == ts[0..] + ts[..0];
    }
  }

  /** With only yields, the ring of a CPU turns by one place a yield. */
  lemma {:induction false} YieldsRotate(s: System, c: Cpu, n: nat)
    requires WellTyped(s) && c in s.current
    ensures GuardedRun(s, Yields(c, n))
    ensures var s' := RunAll(s, Yields(c, n));
            c in s'.current && c in s'.runQueue && Ring(s', c) == Rotate(Ring(s, c), n)
    decreases n
  {
    hide Rotate, Ring, DoYield, RunAll, GuardedRun, Yields, WellTyped;
    YieldTurns(s, c);
    if n == 0 {
      NoYields(s, c);
      RotateNone(Ring(s, c));
    } else {
      YieldsRotate(DoYield(s, c).value, c, n - 1);
      RotateStep(Ring(s, c), n - 1);
      OneMoreYield(s, c, n - 1);
    }
  }

  lemma NoYields(s: System, c: Cpu)
    ensures GuardedRun(s, Yields(c, 0)) && RunAll(s, Yields(c, 0)) == s
  {
  }

  lemma RotateNone(ts: seq<Tid>)
    requires ts != []
    ensures Rotate(ts, 0) == ts
  {
  }

  lemma OneMoreYield(s: System, c: Cpu, n: nat)
    requires WellTyped(s) && c in s.current && DoYield(s, c).Some?
    requires GuardedRun(DoYield(s, c).value, Yields(c, n))
    ensures GuardedRun(s, Yields(c, n + 1))
    ensures RunAll(s, Yields(c, n + 1)) == RunAll(DoYield(s, c).value, Yields(c, n))
  {
    hide WellTyped, DoYield;
    var steps := Yields(c, n + 1);
    assert steps[0] == Yield(c) && steps[1..] == Yields(c, n);
  }

  lemma YieldTurns(s: System, c: Cpu)
    requires WellTyped(s) && c in s.current
    ensures c in s.runQueue && DoYield(s, c).Some? && WellTyped(DoYield(s, c).value)
    ensures var s' := DoYield(s, c).value;
            c in s'.current && c in s'.runQueue && Ring(s, c) != []
            && Ring(s', c) == Ring(s, c)[1..] + [Ring(s, c)[0]]
  {
    var ready := s.runQueue[c] + [s.current[c]];
    assert ready[0] in ready;
  }

  /** Among n threads, the one at position i of the ring runs after i yields, and again
      every n yields. */
  lemma YieldsRun(s: System, c: Cpu, n: nat)
    requires WellTyped(s) && c in s.current
    ensures GuardedRun(s, Yields(c, n)) && c in RunAll(s, Yields(c, n)).current
    ensures RunAll(s, Yields(c, n)).current[c] == Ring(s, c)[n % |Ring(s, c)|]
  {
    hide RunAll, GuardedRun;
    YieldsRotate(s, c, n);
    var s' := RunAll(s, Yields(c, n));
    assert Ring(s', c)[0] == s'.current[c];
  }

  // ----- first in, first out

  /** The threads that become ready on a CPU in a step: one that yields, or is woken. */
  function JoinedBy(s: System, step: Step, c: Cpu): seq<Tid>
    requires WellTyped(s) && Guarded(s, step)
  {
    if step.cpu != c then []
    else
      match step
      case Yield(_) => [s.current[c]]
      case Unlock(_, m) => if s.mutexes[m].waitQueue == [] then [] else [s.mutexes[m].waitQueue[0]]
      case _ => []
  }

  /** The thread that a CPU switches to in a step. */
  function DispatchedBy(s: System, step: Step, c: Cpu): seq<Tid>
    requires WellTyped(s) && Guarded(s, step) && Do(s, step).Some?
  {
    var switches := step.cpu == c && (step.Yield? || (step.Lock? && s.mutexes[step.mutex].locked));
    if switches && c in Do(s, step).value.current then [Do(s, step).value.current[c]] else []
  }

  function Joined(s: System, steps: seq<Step>, c: Cpu): seq<Tid>
    requires GuardedRun(s, steps)
    decreases |steps|
  {
    if steps == [] then [] else JoinedBy(s, steps[0], c) + Joined(Do(s, steps[0]).value, steps[1..], c)
  }

  function Dispatched(s: System, steps: seq<Step>, c: Cpu): seq<Tid>
    requires GuardedRun(s, steps)
    decreases |steps|
  {
    if steps == [] then [] else DispatchedBy(s, steps[0], c) + Dispatched(Do(s, steps[0]).value, steps[1..], c)
  }

  lemma StepIsFifo(s: System, step: Step, c: Cpu)
    requires WellTyped(s) && Guarded(s, step) && Do(s, step).Some? && c in s.runQueue
    ensures var s' := Do(s, step).value;
            && c in s'.runQueue && c in s'.current
            && s.runQueue[c] + JoinedBy(s, step, c) == DispatchedBy(s, step, c) + s'.runQueue[c]
            && (DispatchedBy(s, step, c) == [] ==> s'.current[c] == s.current[c])
  {
  }

  /** Over any run a CPU switches to threads in the order they became ready on it: those queued
      at the start, then those who join, are those switched to, then those still queued. */
  lemma {:induction false} RunQueueIsFifo(s: System, steps: seq<Step>, c: Cpu)
    requires GuardedRun(s, steps) && c in s.runQueue
    ensures c in RunAll(s, steps).runQueue
    ensures s.runQueue[c] + Joined(s, steps, c) == Dispatched(s, steps, c) + RunAll(s, steps).runQueue[c]
    decreases |steps|
  {
    hide Do, JoinedBy, DispatchedBy, WellTyped;
    if steps != [] {
      var s' := Do(s, steps[0]).value;
      StepIsFifo(s, steps[0], c);
      RunQueueIsFifo(s', steps[1..], c);
      calc {
        s.runQueue[c] + Joined(s, steps, c);
        s.runQueue[c] + JoinedBy(s, steps[0], c) + Joined(s', steps[1..], c);
        DispatchedBy(s, steps[0], c) + (s'.runQueue[c] + Joined(s', steps[1..], c));
        Dispatched(s, steps, c) + RunAll(s, steps).runQueue[c];
      }
    }
  }
}
