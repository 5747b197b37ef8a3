/** Mutexes that are handed over directly, and the per-CPU run queues, as a transition system
    (core/mutex.cc, core/sched.cc, core/thread.cc).  A section of code under a mutex's inner
    spinlock is one step; so is blocking, from the enqueue to the switch. */
module Scheduler {
  import opened Wrappers

  type Tid = nat
  type Cpu = nat
  type Mid = nat

  datatype ThreadState = Run | Ready | Sleep | Blocked | Zombie

  datatype Mutex = Mutex(locked: bool, owner: Option<Tid>, waitQueue: seq<Tid>)

  /** The fields of the source, and where each thread is in its own calls: the mutex whose
      lock() it has gone to sleep in, and the mutexes it has a live guard for. */
  datatype System = System(
    current: map<Cpu, Tid>,
    runQueue: map<Cpu, seq<Tid>>,
    mutexes: map<Mid, Mutex>,
    state: map<Tid, ThreadState>,
    sleepingIn: map<Tid, Option<Mid>>,
    guards: map<Tid, set<Mid>>)

  datatype Step =
    | Lock(cpu: Cpu, mutex: Mid)    // lock() up to acquiring or switching away
    | Resume(cpu: Cpu, mutex: Mid)  // the rest of lock() after being switched back to
    | Unlock(cpu: Cpu, mutex: Mid)
    | Yield(cpu: Cpu)               // thread_yield, also called by thread_preempt

  predicate WellTyped(s: System) {
    && s.current.Keys == s.runQueue.Keys
    && s.state.Keys == s.sleepingIn.Keys == s.guards.Keys
    && (forall c :: c in s.current ==> s.current[c] in s.state)
    && (forall c :: c in s.runQueue ==> forall t :: t in s.runQueue[c] ==> t in s.state)
    && (forall m :: m in s.mutexes ==> forall t :: t in s.mutexes[m].waitQueue ==> t in s.state)
  }

  /** The steps a client that uses guards can take. */
  predicate Guarded(s: System, step: Step)
    requires WellTyped(s)
  {
    && step.cpu in s.current
    && var t := s.current[step.cpu];
       match step
       case Lock(_, m) => m in s.mutexes && s.sleepingIn[t].None?
       case Resume(_, m) => m in s.mutexes && s.sleepingIn[t] == Some(m)
       case Unlock(_, m) => m in s.mutexes && s.sleepingIn[t].None? && m in s.guards[t]
       case Yield(_) => true
  }

  // ----- the operations; None is a failed assertion

  function ScheduleNext(s: System, c: Cpu): Option<System>
    requires c in s.runQueue
  {
    if s.runQueue[c] == [] then None
    else Some(s.(current := s.current[c := s.runQueue[c][0]],
                 runQueue := s.runQueue[c := s.runQueue[c][1..]]))
  }

  /** The first half of blocking: mark the thread blocked and queue it. */
  function Enqueue(s: System, t: Tid, m: Mid): System
    requires m in s.mutexes
  {
    var mx := s.mutexes[m];
    s.(state := s.state[t := Blocked],
       mutexes := s.mutexes[m := mx.(waitQueue := mx.waitQueue + [t])],
       sleepingIn := s.sleepingIn[t := Some(m)])
  }

  function DoLock(s: System, c: Cpu, m: Mid): Option<System>
    requires WellTyped(s) && c in s.current && m in s.mutexes
  {
    var t, mx := s.current[c], s.mutexes[m];
    if !mx.locked then
      Some(s.(mutexes := s.mutexes[m := mx.(locked := true, owner := Some(t))],
              guards := s.guards[t := s.guards[t] + {m}]))
    else ScheduleNext(Enqueue(s, t, m), c)
  }

  function DoResume(s: System, c: Cpu, m: Mid): Option<System>
    requires WellTyped(s) && c in s.current && m in s.mutexes
  {
    var t, mx := s.current[c], s.mutexes[m];
    if mx.owner == Some(t) then None
    else
      Some(s.(mutexes := s.mutexes[m := mx.(owner := Some(t))],
              sleepingIn := s.sleepingIn[t := None],
              guards := s.guards[t := s.guards[t] + {m}]))
  }

  function DoUnlock(s: System, c: Cpu, m: Mid): Option<System>
    requires WellTyped(s) && c in s.current && m in s.mutexes
  {
    var t, mx := s.current[c], s.mutexes[m];
    var s1 := s.(guards := s.guards[t := s.guards[t] - {m}]);
    if mx.owner != Some(t) then None
    else if mx.waitQueue == [] then
      Some(s1.(mutexes := s.mutexes[m := mx.(locked := false, owner := None)]))
    else
      var next := mx.waitQueue[0];
      Some(s1.(mutexes := s.mutexes[m := mx.(waitQueue := mx.waitQueue[1..])],
               state := s.state[next := Ready],
               runQueue := s.runQueue[c := s.runQueue[c] + [next]]))
  }

  function DoYield(s: System, c: Cpu): Option<System>
    requires WellTyped(s) && c in s.current
  {
    var t := s.current[c];
    ScheduleNext(s.(state := s.state[t := Ready], runQueue := s.runQueue[c := s.runQueue[c] + [t]]), c)
  }

  function Do(s: System, step: Step): Option<System>
    requires WellTyped(s) && Guarded(s, step)
  {
    match step
    case Lock(c, m) => DoLock(s, c, m)
    case Resume(c, m) => DoResume(s, c, m)
    case Unlock(c, m) => DoUnlock(s, c, m)
    case Yield(c) => DoYield(s, c)
  }

  // ----- where threads are

  datatype Place = OnCpu(cpu: Cpu) | InRunQueue(cpu: Cpu) | InWaitQueue(mutex: Mid)

  /** The threads at a place, in order. */
  function At(s: System, p: Place): seq<Tid> {
    match p
    case OnCpu(c) => if c in s.current then [s.current[c]] else []
    case InRunQueue(c) => if c in s.runQueue then s.runQueue[c] else []
    case InWaitQueue(m) => if m in s.mutexes then s.mutexes[m].waitQueue else []
  }

  predicate Distinct(ts: seq<Tid>) {
    forall i, j :: 0 <= i < j < |ts| ==> ts[i] != ts[j]
  }

  /** Every thread is at the place given for it, at no other, and once. */
  ghost predicate Placed(s: System, place: map<Tid, Place>) {
    && place.Keys == s.state.Keys
    && (forall p, t :: t in At(s, p) <==> t in place && place[t] == p)
    && forall p :: Distinct(At(s, p))
  }

  // ----- who has a mutex

  /** Inside the critical section. */
  predicate Holder(s: System, t: Tid, m: Mid) {
    t in s.guards && m in s.guards[t]
  }

  /** Inside lock(), having gone to sleep there. */
  predicate Asleep(s: System, t: Tid, m: Mid) {
    t in s.sleepingIn && s.sleepingIn[t] == Some(m)
  }

  /** Handed the mutex by unlock, but not yet back from its lock(). */
  predicate Successor(s: System, t: Tid, m: Mid) {
    Asleep(s, t, m) && m in s.mutexes && t !in s.mutexes[m].waitQueue
  }

  predicate Claims(s: System, t: Tid, m: Mid) {
    Holder(s, t, m) || Successor(s, t, m)
  }

  /** What holds of one mutex, where x is the thread that has it if it is locked. */
  ghost predicate MutexValid(s: System, m: Mid, x: Tid)
    requires m in s.mutexes
  {
    var mx := s.mutexes[m];
    && (forall t :: Claims(s, t, m) <==> mx.locked && t == x)
    && (!mx.locked ==> mx.owner.None? && mx.waitQueue == [])
    && (Holder(s, x, m) ==> !Successor(s, x, m) && mx.owner == Some(x))
    && (Successor(s, x, m) ==> mx.owner != Some(x))
    && forall t :: t in mx.waitQueue ==> Asleep(s, t, m)
  }

  /** The parts of the invariant that only bound what is mentioned. */
  ghost predicate Bounded(s: System) {
    && WellTyped(s)
    && (forall t, m :: Holder(s, t, m) ==> m in s.mutexes)
    && forall t :: t in s.state && s.sleepingIn[t].Some? ==> s.sleepingIn[t].value in s.mutexes
  }

  ghost predicate InvAt(s: System, place: map<Tid, Place>, claim: map<Mid, Tid>) {
    && Bounded(s) && Placed(s, place)
    && claim.Keys == s.mutexes.Keys
    && forall m :: m in s.mutexes ==> MutexValid(s, m, claim[m])
  }

  // ----- each step keeps every thread in one place

  /** Thread t leaves the front of one place for the end of another. */
  ghost predicate Moved(s: System, s': System, t: Tid, from: Place, to: Place) {
    && from != to
    && At(s, from) != [] && At(s, from)[0] == t
    && At(s', from) == At(s, from)[1..]
    && At(s', to) == At(s, to) + [t]
    && forall p :: p != from && p != to ==> At(s', p) == At(s, p)
  }

  /** Being at a place, said of one thread. */
  ghost predicate PlacedAt(s: System, place: map<Tid, Place>, p: Place, t: Tid) {
    t in At(s, p) <==> t in place && place[t] == p
  }

  lemma MovedPlacedAt(s: System, s': System, place: map<Tid, Place>, t: Tid, from: Place, to: Place, p: Place, u: Tid)
    requires Moved(s, s', t, from, to)
    requires PlacedAt(s, place, p, u) && PlacedAt(s, place, from, t) && Distinct(At(s, from))
    ensures PlacedAt(s', place[t := to], p, u)
  {
    hide At;
    assert At(s, from) == [t] + At(s', from);
  }

  lemma MovedPlaced(s: System, s': System, place: map<Tid, Place>, t: Tid, from: Place, to: Place)
    requires Placed(s, place) && Moved(s, s', t, from, to) && s'.state.Keys == s.state.Keys
    ensures Placed(s', place[t := to])
  {
    hide At;
    assert t in At(s, from) && t in place && place[t] == from;
    assert t !in At(s, to);
    forall p, u
      ensures u in At(s', p) <==> u in place[t := to] && place[t := to][u] == p
    {
      assert Distinct(At(s, from));
      MovedPlacedAt(s, s', place, t, from, to, p, u);
    }
    forall p
      ensures Distinct(At(s', p))
    {
      assert Distinct(At(s, p));
    }
  }

  lemma UnlockPlaced(s: System, c: Cpu, m: Mid, place: map<Tid, Place>)
    requires WellTyped(s) && Placed(s, place) && c in s.current && m in s.mutexes
    requires s.mutexes[m].owner == Some(s.current[c]) && s.mutexes[m].waitQueue != []
    ensures Placed(DoUnlock(s, c, m).value, place[s.mutexes[m].waitQueue[0] := InRunQueue(c)])
  {
    var s', t := DoUnlock(s, c, m).value, s.mutexes[m].waitQueue[0];
    assert At(s, InWaitQueue(m))[0] == t;
    MovedPlaced(s, s', place, t, InWaitQueue(m), InRunQueue(c));
  }

  /** The current thread goes to the end of a queue and the head of the run queue takes over. */
  ghost predicate Switched(s: System, s': System, c: Cpu, q: Place)
    requires c in s.current
  {
    var ready := At(s, InRunQueue(c)) + if q == InRunQueue(c) then [s.current[c]] else [];
    && !q.OnCpu? && ready != []
    && At(s', OnCpu(c)) == [ready[0]]
    && At(s', InRunQueue(c)) == ready[1..]
    && (q != InRunQueue(c) ==> At(s', q) == At(s, q) + [s.current[c]])
    && forall p :: p != OnCpu(c) && p != InRunQueue(c) && p != q ==> At(s', p) == At(s, p)
  }

  lemma SwitchedPlacedAt(s: System, s': System, place: map<Tid, Place>, c: Cpu, q: Place, p: Place, u: Tid)
    requires c in s.current && Switched(s, s', c, q)
    requires var t := s.current[c];
             && At(s, OnCpu(c)) == [t] && t !in At(s, InRunQueue(c)) && t in place
             && Distinct(At(s, InRunQueue(c)))
             && forall u :: PlacedAt(s, place, p, u)
    requires forall u :: PlacedAt(s, place, InRunQueue(c), u)
    requires PlacedAt(s, place, OnCpu(c), u)
    ensures PlacedAt(s', place[s.current[c] := q][At(s', OnCpu(c))[0] := OnCpu(c)], p, u)
  {
    hide At;
    var t, next := s.current[c], At(s', OnCpu(c))[0];
    var ready := At(s, InRunQueue(c)) + if q == InRunQueue(c) then [t] else [];
    assert ready == [next] + At(s', InRunQueue(c));
    assert PlacedAt(s, place, p, u) && PlacedAt(s, place, p, t) && PlacedAt(s, place, p, next);
    assert PlacedAt(s, place, InRunQueue(c), u) && PlacedAt(s, place, InRunQueue(c), next);
    assert u in ready <==> u in At(s, InRunQueue(c)) || (q == InRunQueue(c) && u == t);
  }

  lemma SwitchedPlaced(s: System, s': System, place: map<Tid, Place>, c: Cpu, q: Place)
    requires Placed(s, place) && c in s.current && Switched(s, s', c, q) && s'.state.Keys == s.state.Keys
    ensures Placed(s', place[s.current[c] := q][At(s', OnCpu(c))[0] := OnCpu(c)])
  {
    var t, next := s.current[c], At(s', OnCpu(c))[0];
    var ready := At(s, InRunQueue(c)) + if q == InRunQueue(c) then [t] else [];
    assert At(s, OnCpu(c)) == [t];
    hide At;
    assert t in At(s, OnCpu(c)) && t in place && place[t] == OnCpu(c);
    assert t !in At(s, InRunQueue(c)) && t !in At(s, q);
    assert Distinct(At(s, InRunQueue(c)));
    forall p, u
      ensures u in At(s', p) <==> u in place[t := q][next := OnCpu(c)] && place[t := q][next := OnCpu(c)][u] == p
    {
      SwitchedPlacedAt(s, s', place, c, q, p, u);
      assert PlacedAt(s', place[t := q][next := OnCpu(c)], p, u);
    }
    forall p
      ensures Distinct(At(s', p))
    {
      assert Distinct(At(s, p));
    }
    assert next in ready && next in place;
  }

  lemma BlockPlaced(s: System, c: Cpu, m: Mid, place: map<Tid, Place>)
    requires WellTyped(s) && Placed(s, place) && c in s.current && m in s.mutexes
    requires s.mutexes[m].locked && s.runQueue[c] != []
    ensures Placed(DoLock(s, c, m).value, place[s.current[c] := InWaitQueue(m)][s.runQueue[c][0] := OnCpu(c)])
  {
    SwitchedPlaced(s, DoLock(s, c, m).value, place, c, InWaitQueue(m));
  }

  lemma YieldPlaced(s: System, c: Cpu, place: map<Tid, Place>)
    requires WellTyped(s) && Placed(s, place) && c in s.current
    ensures DoYield(s, c).Some?
    ensures Placed(DoYield(s, c).value,
                   place[s.current[c] := InRunQueue(c)][(s.runQueue[c] + [s.current[c]])[0] := OnCpu(c)])
  {
    SwitchedPlaced(s, DoYield(s, c).value, place, c, InRunQueue(c));
  }

  // ----- each step keeps every mutex valid

  /** A running thread is in no queue. */
  lemma RunningIsNotQueued(s: System, place: map<Tid, Place>, c: Cpu, m: Mid)
    requires Placed(s, place) && c in s.current && m in s.mutexes
    ensures s.current[c] in s.state && s.current[c] !in s.mutexes[m].waitQueue
    ensures Distinct(s.mutexes[m].waitQueue)
  {
    assert Distinct(At(s, InWaitQueue(m)));
    var t := s.current[c];
    assert t in At(s, OnCpu(c)) && t in place && place[t] == OnCpu(c);
    assert t in At(s, InWaitQueue(m)) <==> place[t] == InWaitQueue(m);
  }

  /** What a step shows one mutex of itself: its fields, and thread t entering or leaving. */
  ghost predicate OnlyThread(s: System, s': System, m: Mid, t: Tid) {
    && s'.mutexes.Keys == s.mutexes.Keys
    && forall u :: u != t ==> (Holder(s', u, m) <==> Holder(s, u, m)) && (Asleep(s', u, m) <==> Asleep(s, u, m))
  }

  ghost predicate Unconcerned(s: System, s': System, m: Mid)
    requires m in s.mutexes
  {
    && s'.mutexes.Keys == s.mutexes.Keys && s'.mutexes[m] == s.mutexes[m]
    && forall u :: (Holder(s', u, m) <==> Holder(s, u, m)) && (Asleep(s', u, m) <==> Asleep(s, u, m))
  }

  lemma UnconcernedKeeps(s: System, s': System, m: Mid, x: Tid)
    requires m in s.mutexes && MutexValid(s, m, x) && Unconcerned(s, s', m)
    ensures MutexValid(s', m, x)
  {
    hide Holder, Asleep;
    assert forall t :: Successor(s', t, m) <==> Successor(s, t, m);
    assert forall t :: Claims(s', t, m) <==> Claims(s, t, m);
  }

  lemma AcquireKeeps(s: System, s': System, m: Mid, x: Tid, t: Tid)
    requires m in s.mutexes && MutexValid(s, m, x) && OnlyThread(s, s', m, t) && !s.mutexes[m].locked
    requires s'.mutexes[m] == s.mutexes[m].(locked := true, owner := Some(t))
    requires Holder(s', t, m) && !Asleep(s', t, m)
    ensures MutexValid(s', m, t)
  {
    hide Holder, Asleep;
    forall u
      ensures Claims(s', u, m) <==> u == t
    {
      assert !Claims(s, u, m);
    }
  }

  lemma BlockKeeps(s: System, s': System, m: Mid, x: Tid, t: Tid)
    requires m in s.mutexes && MutexValid(s, m, x) && OnlyThread(s, s', m, t) && s.mutexes[m].locked
    requires s'.mutexes[m] == s.mutexes[m].(waitQueue := s.mutexes[m].waitQueue + [t])
    requires !Asleep(s, t, m) && Asleep(s', t, m) && (Holder(s', t, m) <==> Holder(s, t, m))
    ensures MutexValid(s', m, x)
  {
    hide Holder, Asleep;
    forall u
      ensures Successor(s', u, m) <==> Successor(s, u, m)
      ensures Claims(s', u, m) <==> Claims(s, u, m)
    {
    }
  }

  lemma ResumeKeeps(s: System, s': System, m: Mid, x: Tid, t: Tid)
    requires m in s.mutexes && MutexValid(s, m, x) && OnlyThread(s, s', m, t)
    requires s'.mutexes[m] == s.mutexes[m].(owner := Some(t))
    requires Successor(s, t, m) && Holder(s', t, m) && !Asleep(s', t, m)
    ensures MutexValid(s', m, x)
  {
    hide Holder, Asleep;
    assert Claims(s, t, m);
    forall u
      ensures Claims(s', u, m) <==> u == t
    {
      assert Claims(s, u, m) <==> u == t;
    }
  }

  lemma ReleaseKeeps(s: System, s': System, m: Mid, x: Tid, t: Tid)
    requires m in s.mutexes && MutexValid(s, m, x) && OnlyThread(s, s', m, t) && s.mutexes[m].waitQueue == []
    requires s'.mutexes[m] == s.mutexes[m].(locked := false, owner := None)
    requires Holder(s, t, m) && !Holder(s', t, m) && !Asleep(s', t, m)
    ensures MutexValid(s', m, x)
  {
    hide Holder, Asleep;
    assert Claims(s, t, m);
    forall u
      ensures !Claims(s', u, m)
    {
      assert Claims(s, u, m) <==> u == t;
    }
  }

  lemma HandOverKeeps(s: System, s': System, m: Mid, x: Tid, t: Tid)
    requires m in s.mutexes && MutexValid(s, m, x) && OnlyThread(s, s', m, t)
    requires var queue := s.mutexes[m].waitQueue;
             queue != [] && t !in queue && Distinct(queue)
             && s'.mutexes[m] == s.mutexes[m].(waitQueue := queue[1..])
    requires s.mutexes[m].owner == Some(t)
    requires Holder(s, t, m) && !Holder(s', t, m) && !Asleep(s', t, m)
    ensures MutexValid(s', m, s.mutexes[m].waitQueue[0])
  {
    hide Holder, Asleep;
    var queue := s.mutexes[m].waitQueue;
    var next := queue[0];
    assert Claims(s, t, m) && next in queue && queue == [next] + queue[1..];
    assert next !in queue[1..] && next != t;
    assert !Claims(s, next, m);
    forall u
      ensures Claims(s', u, m) <==> u == next
    {
      assert Claims(s, u, m) <==> u == t;
      assert u in queue <==> u == next || u in queue[1..];
    }
  }

  lemma LockEffect(s: System, c: Cpu, m: Mid, m': Mid)
    requires WellTyped(s) && Guarded(s, Lock(c, m)) && DoLock(s, c, m).Some? && m' in s.mutexes
    ensures var s', t, mx := DoLock(s, c, m).value, s.current[c], s.mutexes[m];
            && (m' != m ==> Unconcerned(s, s', m'))
            && OnlyThread(s, s', m, t) && !Asleep(s, t, m)
            && (Asleep(s', t, m) <==> mx.locked)
            && (Holder(s', t, m) <==> Holder(s, t, m) || !mx.locked)
            && s'.mutexes[m] == if mx.locked then mx.(waitQueue := mx.waitQueue + [t])
                                else mx.(locked := true, owner := Some(t))
  {
  }

  lemma ResumeEffect(s: System, c: Cpu, m: Mid, m': Mid)
    requires WellTyped(s) && Guarded(s, Resume(c, m)) && DoResume(s, c, m).Some? && m' in s.mutexes
    ensures var s', t := DoResume(s, c, m).value, s.current[c];
            && (m' != m ==> Unconcerned(s, s', m'))
            && OnlyThread(s, s', m, t) && Asleep(s, t, m) && !Asleep(s', t, m) && Holder(s', t, m)
            && s'.mutexes[m] == s.mutexes[m].(owner := Some(t))
  {
  }

  lemma UnlockEffect(s: System, c: Cpu, m: Mid, m': Mid)
    requires WellTyped(s) && Guarded(s, Unlock(c, m)) && DoUnlock(s, c, m).Some? && m' in s.mutexes
    ensures var s', t, mx := DoUnlock(s, c, m).value, s.current[c], s.mutexes[m];
            && (m' != m ==> Unconcerned(s, s', m'))
            && OnlyThread(s, s', m, t) && Holder(s, t, m) && !Holder(s', t, m) && !Asleep(s', t, m)
            && mx.owner == Some(t)
            && s'.mutexes[m] == if mx.waitQueue == [] then mx.(locked := false, owner := None)
                                else mx.(waitQueue := mx.waitQueue[1..])
  {
  }

  lemma LockKeepsMutexes(s: System, place: map<Tid, Place>, claim: map<Mid, Tid>, c: Cpu, m: Mid, m': Mid)
    requires InvAt(s, place, claim) && Guarded(s, Lock(c, m)) && DoLock(s, c, m).Some? && m' in s.mutexes
    ensures var claim' := if s.mutexes[m].locked then claim else claim[m := s.current[c]];
            m' in DoLock(s, c, m).value.mutexes && MutexValid(DoLock(s, c, m).value, m', claim'[m'])
  {
    hide MutexValid, Placed, DoLock, Holder, Asleep, Unconcerned;
    var s', t := DoLock(s, c, m).value, s.current[c];
    LockEffect(s, c, m, m');
    if m' != m {
      UnconcernedKeeps(s, s', m', claim[m']);
    } else if s.mutexes[m].locked {
      BlockKeeps(s, s', m, claim[m], t);
    } else {
      AcquireKeeps(s, s', m, claim[m], t);
    }
  }

  lemma ResumeKeepsMutexes(s: System, place: map<Tid, Place>, claim: map<Mid, Tid>, c: Cpu, m: Mid, m': Mid)
    requires InvAt(s, place, claim) && Guarded(s, Resume(c, m)) && DoResume(s, c, m).Some? && m' in s.mutexes
    ensures m' in DoResume(s, c, m).value.mutexes && MutexValid(DoResume(s, c, m).value, m', claim[m'])
  {
    hide MutexValid, Placed, DoResume, Holder, Asleep, Unconcerned;
    var s', t := DoResume(s, c, m).value, s.current[c];
    ResumeEffect(s, c, m, m');
    RunningIsNotQueued(s, place, c, m);
    if m' != m {
      UnconcernedKeeps(s, s', m', claim[m']);
    } else {
      ResumeKeeps(s, s', m, claim[m], t);
    }
  }

  lemma UnlockKeepsMutexes(s: System, place: map<Tid, Place>, claim: map<Mid, Tid>, c: Cpu, m: Mid, m': Mid)
    requires InvAt(s, place, claim) && Guarded(s, Unlock(c, m)) && DoUnlock(s, c, m).Some? && m' in s.mutexes
    ensures var claim' := if s.mutexes[m].waitQueue == [] then claim else claim[m := s.mutexes[m].waitQueue[0]];
            m' in DoUnlock(s, c, m).value.mutexes && MutexValid(DoUnlock(s, c, m).value, m', claim'[m'])
  {
    hide MutexValid, Placed, DoUnlock, Holder, Asleep, Unconcerned;
    var s', t := DoUnlock(s, c, m).value, s.current[c];
    UnlockEffect(s, c, m, m');
    RunningIsNotQueued(s, place, c, m);
    if m' != m {
      UnconcernedKeeps(s, s', m', claim[m']);
    } else if s.mutexes[m].waitQueue == [] {
      ReleaseKeeps(s, s', m, claim[m], t);
    } else {
      HandOverKeeps(s, s', m, claim[m], t);
    }
  }

  lemma YieldKeepsMutexes(s: System, claim: map<Mid, Tid>, c: Cpu, m: Mid)
    requires WellTyped(s) && c in s.current && m in s.mutexes && m in claim && MutexValid(s, m, claim[m])
    requires DoYield(s, c).Some?
    ensures MutexValid(DoYield(s, c).value, m, claim[m])
  {
    hide MutexValid;
    UnconcernedKeeps(s, DoYield(s, c).value, m, claim[m]);
  }

  // ----- the invariant

  lemma ScheduleNextBounded(s: System, c: Cpu)
    requires Bounded(s) && c in s.runQueue && ScheduleNext(s, c).Some?
    ensures Bounded(ScheduleNext(s, c).value)
  {
    var s' := ScheduleNext(s, c).value;
    assert s.runQueue[c][0] in s.runQueue[c];
    assert forall t, m :: Holder(s', t, m) <==> Holder(s, t, m);
  }

  lemma BlockOrAcquireBounded(s: System, c: Cpu, m: Mid)
    requires Bounded(s) && c in s.current && m in s.mutexes && DoLock(s, c, m).Some?
    ensures Bounded(DoLock(s, c, m).value)
  {
    var s', t := DoLock(s, c, m).value, s.current[c];
    if s.mutexes[m].locked {
      var s1 := Enqueue(s, t, m);
      assert forall u, m' :: Holder(s1, u, m') <==> Holder(s, u, m');
      assert Bounded(s1);
      ScheduleNextBounded(s1, c);
    } else {
      assert forall u, m' :: Holder(s', u, m') ==> Holder(s, u, m') || m' == m;
    }
  }

  lemma ResumeBounded(s: System, c: Cpu, m: Mid)
    requires Bounded(s) && c in s.current && m in s.mutexes && DoResume(s, c, m).Some?
    ensures Bounded(DoResume(s, c, m).value)
  {
    assert forall u, m' :: Holder(DoResume(s, c, m).value, u, m') ==> Holder(s, u, m') || m' == m;
  }

  lemma UnlockBounded(s: System, c: Cpu, m: Mid)
    requires Bounded(s) && c in s.current && m in s.mutexes && DoUnlock(s, c, m).Some?
    ensures Bounded(DoUnlock(s, c, m).value)
  {
    var queue := s.mutexes[m].waitQueue;
    assert forall u, m' :: Holder(DoUnlock(s, c, m).value, u, m') ==> Holder(s, u, m');
    assert queue != [] ==> queue[0] in queue;
  }

  lemma YieldBounded(s: System, c: Cpu)
    requires Bounded(s) && c in s.current && DoYield(s, c).Some?
    ensures Bounded(DoYield(s, c).value)
  {
    var t := s.current[c];
    var s1 := s.(state := s.state[t := Ready], runQueue := s.runQueue[c := s.runQueue[c] + [t]]);
    assert forall u, m' :: Holder(s1, u, m') <==> Holder(s, u, m');
    assert Bounded(s1);
    ScheduleNextBounded(s1, c);
  }

  lemma StepBounded(s: System, step: Step)
    requires Bounded(s) && Guarded(s, step) && Do(s, step).Some?
    ensures Bounded(Do(s, step).value)
    ensures Do(s, step).value.mutexes.Keys == s.mutexes.Keys
  {
    match step
    case Lock(c, m) => BlockOrAcquireBounded(s, c, m);
    case Resume(c, m) => ResumeBounded(s, c, m);
    case Unlock(c, m) => UnlockBounded(s, c, m);
    case Yield(c) => YieldBounded(s, c);
  }

  ghost function PlaceAfter(s: System, step: Step, place: map<Tid, Place>): map<Tid, Place>
    requires WellTyped(s) && Guarded(s, step) && Do(s, step).Some?
  {
    var c := step.cpu;
    var t := s.current[c];
    match step
    case Lock(_, m) =>
      if s.mutexes[m].locked then place[t := InWaitQueue(m)][s.runQueue[c][0] := OnCpu(c)] else place
    case Resume(_, m) => place
    case Unlock(_, m) =>
      if s.mutexes[m].waitQueue == [] then place else place[s.mutexes[m].waitQueue[0] := InRunQueue(c)]
    case Yield(_) => place[t := InRunQueue(c)][(s.runQueue[c] + [t])[0] := OnCpu(c)]
  }

  lemma StepPlaced(s: System, step: Step, place: map<Tid, Place>)
    requires WellTyped(s) && Guarded(s, step) && Do(s, step).Some? && Placed(s, place)
    ensures Placed(Do(s, step).value, PlaceAfter(s, step, place))
  {
    hide Placed;
    var s' := Do(s, step).value;
    match step
    case Lock(c, m) =>
      if s.mutexes[m].locked {
        BlockPlaced(s, c, m, place);
      } else {
        SamePlaces(s, s', place);
      }
    case Resume(c, m) => SamePlaces(s, s', place);
    case Unlock(c, m) =>
      if s.mutexes[m].waitQueue != [] {
        UnlockPlaced(s, c, m, place);
      } else {
        SamePlaces(s, s', place);
      }
    case Yield(c) => YieldPlaced(s, c, place);
  }

  lemma SamePlaces(s: System, s': System, place: map<Tid, Place>)
    requires Placed(s, place) && s'.state.Keys == s.state.Keys
    requires s'.current == s.current && s'.runQueue == s.runQueue && s'.mutexes.Keys == s.mutexes.Keys
    requires forall m :: m in s.mutexes ==> s'.mutexes[m].waitQueue == s.mutexes[m].waitQueue
    ensures Placed(s', place)
  {
    forall p
      ensures At(s', p) == At(s, p)
    {
    }
  }

  /** The thread that has each mutex after a step. */
  ghost function ClaimAfter(s: System, step: Step, claim: map<Mid, Tid>): map<Mid, Tid>
    requires WellTyped(s) && Guarded(s, step)
  {
    match step
    case Lock(c, m) => if s.mutexes[m].locked then claim else claim[m := s.current[c]]
    case Unlock(_, m) => if s.mutexes[m].waitQueue == [] then claim else claim[m := s.mutexes[m].waitQueue[0]]
    case _ => claim
  }

  lemma StepKeepsMutex(s: System, step: Step, place: map<Tid, Place>, claim: map<Mid, Tid>, m': Mid)
    requires InvAt(s, place, claim) && Guarded(s, step) && Do(s, step).Some? && m' in s.mutexes
    ensures m' in Do(s, step).value.mutexes
    ensures MutexValid(Do(s, step).value, m', ClaimAfter(s, step, claim)[m'])
  {
    hide MutexValid, Placed, WellTyped;
    match step
    case Lock(c, m) => LockKeepsMutexes(s, place, claim, c, m, m');
    case Resume(c, m) => ResumeKeepsMutexes(s, place, claim, c, m, m');
    case Unlock(c, m) => UnlockKeepsMutexes(s, place, claim, c, m, m');
    case Yield(c) => YieldKeepsMutexes(s, claim, c, m');
  }

  lemma ClaimKeys(s: System, step: Step, claim: map<Mid, Tid>)
    requires WellTyped(s) && Guarded(s, step) && claim.Keys == s.mutexes.Keys
    ensures ClaimAfter(s, step, claim).Keys == s.mutexes.Keys
  {
  }

  /** One step of any thread keeps the invariant. */
  lemma StepKeepsInv(s: System, step: Step, place: map<Tid, Place>, claim: map<Mid, Tid>)
    requires InvAt(s, place, claim) && Guarded(s, step) && Do(s, step).Some?
    ensures InvAt(Do(s, step).value, PlaceAfter(s, step, place), ClaimAfter(s, step, claim))
  {
    hide MutexValid, Placed, Do, PlaceAfter, WellTyped, Holder, Guarded, ClaimAfter;
    ClaimKeys(s, step, claim);
    StepBounded(s, step);
    StepPlaced(s, step, place);
    forall m | m in s.mutexes
      ensures MutexValid(Do(s, step).value, m, ClaimAfter(s, step, claim)[m])
    {
      StepKeepsMutex(s, step, place, claim, m);
    }
  }

  // ----- what the invariant says

  ghost predicate Inv(s: System) {
    exists place, claim :: InvAt(s, place, claim)
  }

  /** LOCKED means exactly one thread holds the mutex or has been handed it; FREE means none,
      and then nobody waits.  The holder is the recorded owner; a successor is not, yet. */
  lemma MutualExclusion(s: System, m: Mid, t: Tid, u: Tid)
    requires Inv(s) && m in s.mutexes
    ensures Claims(s, t, m) && Claims(s, u, m) ==> t == u
    ensures s.mutexes[m].locked <==> exists x :: Claims(s, x, m)
    ensures !s.mutexes[m].locked ==> s.mutexes[m].waitQueue == [] && s.mutexes[m].owner.None?
    ensures Holder(s, t, m) ==> s.mutexes[m].owner == Some(t)
    ensures Successor(s, t, m) ==> s.mutexes[m].owner != Some(t) && !Holder(s, t, m)
  {
    hide Placed, Bounded, Holder, Successor;
    var place, claim :| InvAt(s, place, claim);
    assert MutexValid(s, m, claim[m]);
    assert s.mutexes[m].locked ==> Claims(s, claim[m], m);
    assert Claims(s, t, m) ==> t == claim[m];
    assert Claims(s, u, m) ==> u == claim[m];
  }

  /** The places of a thread: running, on one run queue, or in one wait queue, once. */
  lemma OnePlace(s: System, t: Tid, p: Place, q: Place, i: nat, j: nat)
    requires Inv(s) && t in s.state
    ensures exists r :: t in At(s, r)
    ensures i < |At(s, p)| && j < |At(s, q)| && At(s, p)[i] == t == At(s, q)[j] ==> p == q && i == j
  {
    hide MutexValid, Bounded, At;
    var place, claim :| InvAt(s, place, claim);
    assert t in At(s, place[t]);
    if i < |At(s, p)| && j < |At(s, q)| && At(s, p)[i] == t == At(s, q)[j] {
      assert t in At(s, p) && t in At(s, q);
      assert Distinct(At(s, p));
    }
  }

  /** The ownership assertions in lock and unlock never fail; only blocking with an empty run
      queue does, in schedule_next_thread. */
  lemma OnlyBlockingFails(s: System, step: Step)
    requires Inv(s) && WellTyped(s) && Guarded(s, step)
    ensures Do(s, step).None?
            <==> step.Lock? && s.mutexes[step.mutex].locked && s.runQueue[step.cpu] == []
  {
    hide MutexValid, Placed;
    var place, claim :| InvAt(s, place, claim);
    var t := s.current[step.cpu];
    match step
    case Lock(c, m) =>
    case Resume(c, m) =>
      RunningIsNotQueued(s, place, c, m);
      MutualExclusion(s, m, t, t);
    case Unlock(c, m) => MutualExclusion(s, m, t, t);
    case Yield(c) =>
  }

  /** While a successor is on its way, no other thread gets the mutex, whatever step is taken. */
  lemma NoBarging(s: System, step: Step, m: Mid, x: Tid, y: Tid)
    requires Inv(s) && WellTyped(s) && Guarded(s, step) && Do(s, step).Some?
    requires Successor(s, x, m) && Claims(Do(s, step).value, y, m)
    ensures y == x
  {
    hide MutexValid, Placed, Do;
    var place, claim :| InvAt(s, place, claim);
    MutualExclusion(s, m, x, x);
    SuccessorKept(s, step, place, claim, m, x);
    StepKeepsInv(s, step, place, claim);
    StepBounded(s, step);
    MutualExclusion(Do(s, step).value, m, x, y);
  }

  lemma SuccessorKept(s: System, step: Step, place: map<Tid, Place>, claim: map<Mid, Tid>, m: Mid, x: Tid)
    requires InvAt(s, place, claim) && Guarded(s, step) && Do(s, step).Some? && Successor(s, x, m)
    ensures Claims(Do(s, step).value, x, m)
  {
    hide MutexValid, Placed, Holder;
    var s', c := Do(s, step).value, step.cpu;
    MutualExclusion(s, m, x, s.current[c]);
    assert Claims(s, x, m);
    match step
    case Lock(_, m') =>
      LockEffect(s, c, m', m);
    case Resume(_, m') =>
      ResumeEffect(s, c, m', m);
    case Unlock(_, m') =>
      UnlockEffect(s, c, m', m);
    case Yield(_) =>
  }

  // ----- runs

  predicate GuardedRun(s: System, steps: seq<Step>)
    decreases |steps|
  {
    steps == [] ||
    (WellTyped(s) && Guarded(s, steps[0]) && Do(s, steps[0]).Some?
     && GuardedRun(Do(s, steps[0]).value, steps[1..]))
  }

  function RunAll(s: System, steps: seq<Step>): System
    requires GuardedRun(s, steps)
    decreases |steps|
  {
    if steps == [] then s else RunAll(Do(s, steps[0]).value, steps[1..])
  }

  lemma {:induction false} RunsKeepInv(s: System, steps: seq<Step>)
    requires Inv(s) && GuardedRun(s, steps)
    ensures Inv(RunAll(s, steps))
    decreases |steps|
  {
    hide InvAt;
    if steps != [] {
      var place, claim :| InvAt(s, place, claim);
      StepKeepsInv(s, steps[0], place, claim);
      RunsKeepInv(Do(s, steps[0]).value, steps[1..]);
    }
  }

  // ----- thread states

  /** A thread is marked blocked exactly while it is in a wait queue. */
  ghost predicate StatesMatch(s: System, place: map<Tid, Place>) {
    place.Keys == s.state.Keys
    && forall t :: t in s.state ==> (s.state[t] == Blocked <==> place[t].InWaitQueue?)
  }

  lemma HeadsPlaced(s: System, place: map<Tid, Place>, c: Cpu, m: Mid)
    requires Placed(s, place) && c in s.current && c in s.runQueue
    ensures s.current[c] in place && place[s.current[c]] == OnCpu(c)
    ensures s.runQueue[c] != [] ==> s.runQueue[c][0] in place && place[s.runQueue[c][0]] == InRunQueue(c)
    ensures m in s.mutexes && s.mutexes[m].waitQueue != [] ==>
              s.mutexes[m].waitQueue[0] in place && place[s.mutexes[m].waitQueue[0]] == InWaitQueue(m)
  {
    assert s.current[c] in At(s, OnCpu(c));
    assert s.runQueue[c] != [] ==> s.runQueue[c][0] in At(s, InRunQueue(c));
    assert m in s.mutexes && s.mutexes[m].waitQueue != [] ==>
        s.mutexes[m].waitQueue[0] in At(s, InWaitQueue(m));
  }

  lemma StepKeepsStates(s: System, step: Step, place: map<Tid, Place>)
    requires WellTyped(s) && Placed(s, place) && StatesMatch(s, place)
    requires Guarded(s, step) && Do(s, step).Some?
    ensures StatesMatch(Do(s, step).value, PlaceAfter(s, step, place))
  {
    HeadsPlaced(s, place, step.cpu, if step.Yield? then 0 else step.mutex);
    hide Placed;
    match step
    case Lock(c, m) => LockKeepsStates(s, c, m, place);
    case Resume(c, m) =>
    case Unlock(c, m) =>
    case Yield(c) => YieldKeepsStates(s, c, place);
  }

  /** Marked blocked means waiting for a mutex, and the other way round. */
  ghost predicate BlockedExactly(s: System) {
    forall t :: t in s.state ==>
      (s.state[t] == Blocked <==> exists m :: m in s.mutexes && t in s.mutexes[m].waitQueue)
  }

  lemma BlockedByPlace(s: System, place: map<Tid, Place>)
    requires Placed(s, place)
    ensures BlockedExactly(s) <==> StatesMatch(s, place)
  {
    forall t | t in s.state
      ensures place[t].InWaitQueue? <==> exists m :: m in s.mutexes && t in s.mutexes[m].waitQueue
    {
      if place[t].InWaitQueue? {
        assert t in At(s, place[t]);
      }
      if m :| m in s.mutexes && t in s.mutexes[m].waitQueue {
        assert t in At(s, InWaitQueue(m));
      }
    }
  }

  /** In every state of a run the threads marked blocked are those in the wait queues. */
  lemma {:induction false} RunsKeepStates(s: System, steps: seq<Step>)
    requires Inv(s) && BlockedExactly(s) && GuardedRun(s, steps)
    ensures BlockedExactly(RunAll(s, steps))
    decreases |steps|
  {
    hide Placed, StatesMatch, BlockedExactly, MutexValid, Bounded;
    if steps != [] {
      var place, claim :| InvAt(s, place, claim);
      StepKeepsInv(s, steps[0], place, claim);
      BlockedByPlace(s, place);
      StepKeepsStates(s, steps[0], place);
      BlockedByPlace(Do(s, steps[0]).value, PlaceAfter(s, steps[0], place));
      RunsKeepStates(Do(s, steps[0]).value, steps[1..]);
    }
  }

  lemma LockKeepsStates(s: System, c: Cpu, m: Mid, place: map<Tid, Place>)
    requires WellTyped(s) && StatesMatch(s, place)
    requires Guarded(s, Lock(c, m)) && DoLock(s, c, m).Some?
    requires place[s.current[c]] == OnCpu(c)
    requires s.runQueue[c] != [] ==> place[s.runQueue[c][0]] == InRunQueue(c)
    ensures StatesMatch(DoLock(s, c, m).value, PlaceAfter(s, Lock(c, m), place))
  {
    if s.mutexes[m].locked {
      assert s.runQueue[c][0] in s.runQueue[c];
    }
  }

  lemma YieldKeepsStates(s: System, c: Cpu, place: map<Tid, Place>)
    requires WellTyped(s) && StatesMatch(s, place) && c in s.current && DoYield(s, c).Some?
    requires s.runQueue[c] != [] ==> place[s.runQueue[c][0]] == InRunQueue(c)
    ensures StatesMatch(DoYield(s, c).value, PlaceAfter(s, Yield(c), place))
  {
    var next := (s.runQueue[c] + [s.current[c]])[0];
    assert next == s.current[c] || next in s.runQueue[c];
  }
}
