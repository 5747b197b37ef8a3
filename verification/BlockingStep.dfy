/** Why blocking in a mutex has to be one step (core/mutex.cc). */
module BlockingStep {
  import opened Wrappers
  import opened Scheduler

  /** Two CPUs: thread 0 runs on CPU 0 and thread 1, on CPU 1, holds mutex 0. */
  function Contended(): System {
    System(map[0 := 0, 1 := 1], map[0 := [2], 1 := []], map[0 := Mutex(true, Some(1), [])],
           map[0 := Run, 1 := Run, 2 := Ready], map[0 := None, 1 := None, 2 := None],
           map[0 := {}, 1 := {0}, 2 := {}])
  }

  lemma ContendedInv()
    ensures Inv(Contended()) && Holder(Contended(), 1, 0)
  {
    ContendedPlaced();
    ContendedMutex();
    ContendedBounded();
    hide Placed, MutexValid, Bounded;
    assert InvAt(Contended(), ContendedPlaces(), map[0 := 1]);
  }

  function ContendedPlaces(): map<Tid, Place> {
    map[0 := OnCpu(0), 1 := OnCpu(1), 2 := InRunQueue(0)]
  }

  function ContendedLine(p: Place): seq<Tid> {
    match p
    case OnCpu(c) => if c == 0 then [0] else if c == 1 then [1] else []
    case InRunQueue(c) => if c == 0 then [2] else []
    case _ => []
  }

  lemma ContendedAt(p: Place, t: Tid)
    ensures At(Contended(), p) == ContendedLine(p)
    ensures t in ContendedLine(p) <==> t in ContendedPlaces() && ContendedPlaces()[t] == p
    ensures Distinct(ContendedLine(p))
  {
  }

  lemma ContendedKeys()
    ensures ContendedPlaces().Keys == Contended().state.Keys
  {
    assert ContendedPlaces().Keys == {0, 1, 2};
  }

  lemma ContendedPlaced()
    ensures Placed(Contended(), ContendedPlaces())
  {
    hide At, Contended, ContendedPlaces, ContendedLine, Distinct;
    ContendedKeys();
    forall p, t
      ensures t in At(Contended(), p) <==> t in ContendedPlaces() && ContendedPlaces()[t] == p
      ensures Distinct(At(Contended(), p))
    {
      ContendedAt(p, t);
    }
    forall p
      ensures Distinct(At(Contended(), p))
    {
      ContendedAt(p, 0);
    }
  }

  lemma ContendedBounded()
    ensures Bounded(Contended())
  {
  }

  lemma ContendedMutex()
    ensures 0 in Contended().mutexes && MutexValid(Contended(), 0, 1)
  {
  }

  /** If the holder unlocks and yields between another thread's enqueue and its switch, that
      thread ends up running on both CPUs; with the two in one step it cannot. */
  lemma SplitBlockingRunsTwice(s: System, c: Cpu, d: Cpu, m: Mid)
    requires WellTyped(s) && c in s.current && d in s.current && m in s.mutexes
    requires c != d && s.current[c] != s.current[d] && s.runQueue[d] == []
    requires s.sleepingIn[s.current[c]].None? && s.sleepingIn[s.current[d]].None?
    requires s.mutexes[m].owner == Some(s.current[d]) && s.mutexes[m].waitQueue == [] && Holder(s, s.current[d], m)
    ensures var s1 := Enqueue(s, s.current[c], m);
            WellTyped(s1) && Guarded(s1, Unlock(d, m)) && DoUnlock(s1, d, m).Some? &&
            var s2 := DoUnlock(s1, d, m).value;
            WellTyped(s2) && Guarded(s2, Yield(d)) && DoYield(s2, d).Some? &&
            var s3 := DoYield(s2, d).value;
            s3.current[c] == s.current[c] == s3.current[d] && !Inv(s3)
  {
    var t := s.current[c];
    var s1 := Enqueue(s, t, m);
    assert s1.mutexes[m].waitQueue == [t];
    var s2 := DoUnlock(s1, d, m).value;
    assert s2.runQueue[d] == [t];
    assert (s2.runQueue[d] + [s2.current[d]])[0] == t;
    RunningTwiceIsBroken(DoYield(s2, d).value, c, d);
  }

  lemma RunningTwiceIsBroken(s: System, c: Cpu, d: Cpu)
    requires c != d && c in s.current && d in s.current && s.current[c] == s.current[d]
    ensures !Inv(s)
  {
    hide MutexValid, Bounded;
    forall place
      ensures !Placed(s, place)
    {
      NotPlaced(s, place, OnCpu(c), OnCpu(d), s.current[c]);
    }
  }

  lemma NotPlaced(s: System, place: map<Tid, Place>, p: Place, q: Place, t: Tid)
    requires p != q && t in At(s, p) && t in At(s, q)
    ensures !Placed(s, place)
  {
    hide At;
    if t in place && place[t] == p {
      assert place[t] != q && t in At(s, q);
    }
  }

  // ----- blocking in two steps

  /** A system and the CPUs that have queued their thread but not yet switched away from it. */
  datatype Halves = Halves(s: System, marked: set<Cpu>)

  datatype HalfStep =
    | Begin(cpu: Cpu, mutex: Mid)  // lock() up to acquiring, or to the enqueue
    | Switch(cpu: Cpu)             // the call of schedule_next_thread that follows
    | Whole(step: Step)            // the rest of lock(), unlock and yield

  /** Between its two halves a CPU does nothing else. */
  predicate HalfGuarded(h: Halves, step: HalfStep) {
    WellTyped(h.s) &&
    match step
    case Begin(c, m) => c !in h.marked && Guarded(h.s, Lock(c, m))
    case Switch(c) => c in h.marked && c in h.s.current
    case Whole(st) => st.cpu !in h.marked && !st.Lock? && Guarded(h.s, st)
  }

  function DoHalf(h: Halves, step: HalfStep): Option<Halves>
    requires HalfGuarded(h, step)
  {
    match step
    case Begin(c, m) =>
      if h.s.mutexes[m].locked then Some(Halves(Enqueue(h.s, h.s.current[c], m), h.marked + {c}))
      else
        var s' :- DoLock(h.s, c, m);
        Some(Halves(s', h.marked))
    case Switch(c) =>
      var s' :- ScheduleNext(h.s, c);
      Some(Halves(s', h.marked - {c}))
    case Whole(st) =>
      var s' :- Do(h.s, st);
      Some(Halves(s', h.marked))
  }

  /** The two halves without a step in between are the one step. */
  lemma HalvesCompose(h: Halves, c: Cpu, m: Mid)
    requires HalfGuarded(h, Begin(c, m)) && h.s.mutexes[m].locked
    ensures var h1 := DoHalf(h, Begin(c, m)).value;
            && HalfGuarded(h1, Switch(c))
            && DoHalf(h1, Switch(c)) == (match DoLock(h.s, c, m)
                                         case Some(s') => Some(Halves(s', h.marked))
                                         case None => None)
  {
    assert h.marked + {c} - {c} == h.marked;
  }

  /** The thread that schedule_next_thread picks in a step. */
  function Dispatched(h: Halves, step: HalfStep): Option<Tid>
    requires HalfGuarded(h, step) && DoHalf(h, step).Some?
  {
    match step
    case Switch(c) => Some(h.s.runQueue[c][0])
    case Whole(Yield(c)) => Some((h.s.runQueue[c] + [h.s.current[c]])[0])
    case _ => None
  }

  /** The step does not run a thread that another CPU has queued and not yet left. */
  ghost predicate LeavesMarkedAlone(h: Halves, step: HalfStep)
    requires HalfGuarded(h, step) && DoHalf(h, step).Some?
  {
    var on := if step.Whole? then step.step.cpu else step.cpu;
    forall d :: d in h.marked && d in h.s.current && d != on ==> Dispatched(h, step) != Some(h.s.current[d])
  }

  /** No thread is on two CPUs. */
  ghost predicate CpusApart(s: System) {
    forall c, d :: c in s.current && d in s.current && c != d ==> s.current[c] != s.current[d]
  }

  predicate HalfRun(h: Halves, steps: seq<HalfStep>)
    decreases |steps|
  {
    steps == [] ||
    (HalfGuarded(h, steps[0]) && DoHalf(h, steps[0]).Some? && HalfRun(DoHalf(h, steps[0]).value, steps[1..]))
  }

  ghost predicate AlwaysApart(h: Halves, steps: seq<HalfStep>)
    requires HalfRun(h, steps)
    decreases |steps|
  {
    CpusApart(h.s) && (steps == [] || AlwaysApart(DoHalf(h, steps[0]).value, steps[1..]))
  }

  ghost predicate NeverRunsMarked(h: Halves, steps: seq<HalfStep>)
    requires HalfRun(h, steps)
    decreases |steps|
  {
    steps == [] ||
    (LeavesMarkedAlone(h, steps[0]) && NeverRunsMarked(DoHalf(h, steps[0]).value, steps[1..]))
  }

  /** Threads wait in one queue, once; one that waits and runs is a marked CPU's. */
  ghost predicate QueuesApart(h: Halves) {
    && (forall p: Place :: !p.OnCpu? ==> Distinct(At(h.s, p)))
    && (forall p: Place, q: Place, t :: !p.OnCpu? && !q.OnCpu? && t in At(h.s, p) && t in At(h.s, q) ==> p == q)
    && forall p: Place, c :: !p.OnCpu? && c in h.s.current && h.s.current[c] in At(h.s, p) ==> c in h.marked
  }

  lemma InvQueuesApart(s: System)
    requires Inv(s)
    ensures CpusApart(s) && QueuesApart(Halves(s, {}))
  {
    hide MutexValid, Bounded;
    var place, claim :| InvAt(s, place, claim);
    forall p, q, t | t in At(s, p) && t in At(s, q)
      ensures p == q
    {
      OnlyPlace(s, place, p, q, t);
    }
    forall c | c in s.current
      ensures s.current[c] in At(s, OnCpu(c))
    {
      OnCpuLine(s, c);
    }
    hide At;
  }

  lemma OnlyPlace(s: System, place: map<Tid, Place>, p: Place, q: Place, t: Tid)
    requires Placed(s, place) && t in At(s, p) && t in At(s, q)
    ensures p == q
  {
    hide At;
    assert place[t] == p;
  }

  lemma OnCpuLine(s: System, c: Cpu)
    requires c in s.current
    ensures At(s, OnCpu(c)) == [s.current[c]]
  {
  }

  /** A step that leaves marked threads alone keeps CPUs and queues apart. */
  lemma HalfStepKeeps(h: Halves, step: HalfStep)
    requires CpusApart(h.s) && QueuesApart(h) && HalfGuarded(h, step) && DoHalf(h, step).Some?
    requires LeavesMarkedAlone(h, step)
    ensures CpusApart(DoHalf(h, step).value.s) && QueuesApart(DoHalf(h, step).value)
  {
    var h' := DoHalf(h, step).value;
    match step
    case Begin(c, m) =>
      if h.s.mutexes[m].locked {
        EnqueueKeeps(h, c, m);
      } else {
        SameQueuesKeep(h, h'.s);
      }
    case Switch(c) => SwitchKeeps(h, c);
    case Whole(Resume(c, m)) => SameQueuesKeep(h, h'.s);
    case Whole(Unlock(c, m)) => UnlockKeeps(h, c, m);
    case Whole(Yield(c)) => YieldKeeps(h, c);
    case Whole(Lock(c, m)) =>
  }

  lemma SameQueuesKeep(h: Halves, s': System)
    requires CpusApart(h.s) && QueuesApart(h) && s'.current == h.s.current && s'.runQueue == h.s.runQueue
    requires s'.mutexes.Keys == h.s.mutexes.Keys
    requires forall m :: m in s'.mutexes ==> s'.mutexes[m].waitQueue == h.s.mutexes[m].waitQueue
    ensures CpusApart(s') && QueuesApart(Halves(s', h.marked))
  {
    forall p
      ensures At(s', p) == At(h.s, p)
    {
    }
    hide At;
  }

  /** t was in no queue and is now the last of one; whoever runs it is marked. */
  lemma AppendKeeps(h: Halves, s': System, marked: set<Cpu>, q: Place, t: Tid)
    requires CpusApart(h.s) && QueuesApart(h) && s'.current == h.s.current && h.marked <= marked && !q.OnCpu?
    requires forall p: Place :: !p.OnCpu? ==> At(s', p) == At(h.s, p) + if p == q then [t] else []
    requires forall p: Place :: !p.OnCpu? ==> t !in At(h.s, p)
    requires forall c :: c in s'.current && s'.current[c] == t ==> c in marked
    ensures CpusApart(s') && QueuesApart(Halves(s', marked))
  {
    hide At;
    forall p: Place | !p.OnCpu?
      ensures Distinct(At(s', p))
      ensures forall u :: u in At(s', p) <==> u in At(h.s, p) || (p == q && u == t)
    {
      assert Distinct(At(h.s, p));
    }
  }

  lemma EnqueueKeeps(h: Halves, c: Cpu, m: Mid)
    requires CpusApart(h.s) && QueuesApart(h) && HalfGuarded(h, Begin(c, m)) && h.s.mutexes[m].locked
    ensures var h' := DoHalf(h, Begin(c, m)).value; CpusApart(h'.s) && QueuesApart(h')
  {
    var t, s' := h.s.current[c], Enqueue(h.s, h.s.current[c], m);
    forall p: Place | !p.OnCpu?
      ensures At(s', p) == At(h.s, p) + if p == InWaitQueue(m) then [t] else []
    {
    }
    AppendKeeps(h, s', h.marked + {c}, InWaitQueue(m), t);
  }

  /** The first thread of a queue leaves it for a CPU it may go to. */
  lemma TakeKeeps(h: Halves, s': System, c: Cpu)
    requires QueuesApart(h) && c in h.s.current && c in h.s.runQueue && h.s.runQueue[c] != []
    requires forall d, e :: d in h.s.current && e in h.s.current && d != e && d != c && e != c ==>
               h.s.current[d] != h.s.current[e]
    requires var t := h.s.runQueue[c][0];
             && s'.current == h.s.current[c := t]
             && (forall d :: d in h.s.current && d != c ==> h.s.current[d] != t)
             && forall p: Place :: !p.OnCpu? ==> At(h.s, p) == (if p == InRunQueue(c) then [t] else []) + At(s', p)
    ensures CpusApart(s') && QueuesApart(Halves(s', h.marked - {c}))
  {
    var t := h.s.runQueue[c][0];
    assert At(h.s, InRunQueue(c))[0] == t && t in At(h.s, InRunQueue(c));
    hide At;
    forall p: Place | !p.OnCpu?
      ensures Distinct(At(s', p)) && t !in At(s', p)
      ensures forall u :: u in At(s', p) ==> u in At(h.s, p)
    {
      assert Distinct(At(h.s, p));
      if p == InRunQueue(c) {
        RestDistinct(t, At(s', p));
      } else {
        assert At(h.s, p) == At(s', p);
      }
    }
  }

  lemma RestDistinct(t: Tid, rest: seq<Tid>)
    requires Distinct([t] + rest)
    ensures Distinct(rest) && t !in rest
  {
    var all := [t] + rest;
    forall i | 0 <= i < |rest|
      ensures rest[i] == all[i + 1] && rest[i] != t
    {
      assert all[0] != all[i + 1];
    }
  }

  lemma SwitchKeeps(h: Halves, c: Cpu)
    requires CpusApart(h.s) && QueuesApart(h) && HalfGuarded(h, Switch(c)) && DoHalf(h, Switch(c)).Some?
    requires LeavesMarkedAlone(h, Switch(c))
    ensures var h' := DoHalf(h, Switch(c)).value; CpusApart(h'.s) && QueuesApart(h')
  {
    var t, s' := h.s.runQueue[c][0], ScheduleNext(h.s, c).value;
    assert t in At(h.s, InRunQueue(c));
    forall p: Place | !p.OnCpu?
      ensures At(h.s, p) == (if p == InRunQueue(c) then [t] else []) + At(s', p)
    {
    }
    TakeKeeps(h, s', c);
  }

  lemma YieldKeeps(h: Halves, c: Cpu)
    requires CpusApart(h.s) && QueuesApart(h) && HalfGuarded(h, Whole(Yield(c))) && DoHalf(h, Whole(Yield(c))).Some?
    requires LeavesMarkedAlone(h, Whole(Yield(c)))
    ensures var h' := DoHalf(h, Whole(Yield(c))).value; CpusApart(h'.s) && QueuesApart(h')
  {
    var t, s' := h.s.current[c], DoYield(h.s, c).value;
    var s1 := h.s.(state := h.s.state[t := Ready], runQueue := h.s.runQueue[c := h.s.runQueue[c] + [t]]);
    var next := s1.runQueue[c][0];
    forall p: Place | !p.OnCpu?
      ensures At(s1, p) == At(h.s, p) + if p == InRunQueue(c) then [t] else []
    {
    }
    AppendKeeps(h, s1, h.marked + {c}, InRunQueue(c), t);
    forall p: Place | !p.OnCpu?
      ensures At(s1, p) == (if p == InRunQueue(c) then [next] else []) + At(s', p)
    {
    }
    assert next == t || next in At(h.s, InRunQueue(c));
    TakeKeeps(Halves(s1, h.marked + {c}), s', c);
    assert h.marked + {c} - {c} == h.marked;
  }

  lemma UnlockKeeps(h: Halves, c: Cpu, m: Mid)
    requires CpusApart(h.s) && QueuesApart(h) && HalfGuarded(h, Whole(Unlock(c, m))) && DoHalf(h, Whole(Unlock(c, m))).Some?
    ensures var h' := DoHalf(h, Whole(Unlock(c, m))).value; CpusApart(h'.s) && QueuesApart(h')
  {
    var s' := DoUnlock(h.s, c, m).value;
    if h.s.mutexes[m].waitQueue == [] {
      SameQueuesKeep(h, s');
    } else {
      var t := h.s.mutexes[m].waitQueue[0];
      forall p: Place | !p.OnCpu?
        ensures (if p == InWaitQueue(m) then [t] else []) + At(s', p) == At(h.s, p) + if p == InRunQueue(c) then [t] else []
      {
      }
      MoveKeeps(h, s', InWaitQueue(m), InRunQueue(c), t);
    }
  }

  /** The first of one queue becomes the last of another. */
  lemma MoveKeeps(h: Halves, s': System, from: Place, to: Place, t: Tid)
    requires CpusApart(h.s) && QueuesApart(h) && s'.current == h.s.current && !from.OnCpu? && !to.OnCpu? && from != to
    requires forall p: Place :: !p.OnCpu? ==>
               (if p == from then [t] else []) + At(s', p) == At(h.s, p) + if p == to then [t] else []
    ensures CpusApart(s') && QueuesApart(Halves(s', h.marked))
  {
    hide At;
    assert At(h.s, from) == [t] + At(s', from);
    assert At(h.s, from)[0] == t;
    forall p: Place | !p.OnCpu?
      ensures Distinct(At(s', p))
      ensures forall u :: u in At(s', p) <==> if u == t then p == to else u in At(h.s, p)
    {
      assert Distinct(At(h.s, p)) && Distinct(At(h.s, from));
      if p == from {
        RestDistinct(t, At(s', p));
        assert At(h.s, p) == [t] + At(s', p);
      } else if p == to {
        assert t in At(h.s, from) && t !in At(h.s, p);
        assert At(s', p) == At(h.s, p) + [t];
      } else {
        assert t in At(h.s, from) && t !in At(h.s, p);
        assert [] + At(s', p) == At(h.s, p) + [];
        assert At(s', p) == [] + At(s', p) && At(h.s, p) + [] == At(h.s, p);
      }
    }
  }

  /** Blocking in two steps never puts a thread on two CPUs exactly as long as no CPU runs a
      thread that another has queued and not yet left. */
  lemma {:induction false} SplitBlockingIsSafe(h: Halves, steps: seq<HalfStep>)
    requires CpusApart(h.s) && QueuesApart(h) && HalfRun(h, steps)
    ensures AlwaysApart(h, steps) <==> NeverRunsMarked(h, steps)
    decreases |steps|
  {
    hide QueuesApart;
    if steps != [] {
      var h' := DoHalf(h, steps[0]).value;
      if LeavesMarkedAlone(h, steps[0]) {
        HalfStepKeeps(h, steps[0]);
        SplitBlockingIsSafe(h', steps[1..]);
      } else {
        RunsMarked(h, steps[0]);
      }
    }
  }

  /** The same from any state of the system in which blocking is one step. */
  lemma SplitBlockingFromInv(s: System, steps: seq<HalfStep>)
    requires Inv(s) && HalfRun(Halves(s, {}), steps)
    ensures AlwaysApart(Halves(s, {}), steps) <==> NeverRunsMarked(Halves(s, {}), steps)
  {
    hide Inv, CpusApart, QueuesApart, AlwaysApart, NeverRunsMarked;
    InvQueuesApart(s);
    SplitBlockingIsSafe(Halves(s, {}), steps);
  }

  lemma RunsMarked(h: Halves, step: HalfStep)
    requires HalfGuarded(h, step) && DoHalf(h, step).Some? && !LeavesMarkedAlone(h, step)
    ensures !CpusApart(DoHalf(h, step).value.s)
  {
    var on := if step.Whole? then step.step.cpu else step.cpu;
    var d :| d in h.marked && d in h.s.current && d != on && Dispatched(h, step) == Some(h.s.current[d]);
    var s' := DoHalf(h, step).value.s;
    assert s'.current[on] == h.s.current[d] == s'.current[d];
  }
}
