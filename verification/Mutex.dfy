/**
 The mutex of kernel/sched/mutex.c on top of the re-entrant wait-queue lock of kernel/sched/wq.c.
 Ownership passes directly to the waiter that a release wakes. Whether a caller sleeps is decided by its yield
 flag, which the end of an earlier switch may clear at any moment.
 */
module Mutex {
  import opened Prelude

  // ---- the code -----------------------------------------------------------------------------------------

  class MutexObject {
    var lock: bool
    var count: nat
    var owner: Option<nat>
    var list: seq<nat>
    var free: bool
    /** The threads whose SIGINTR flag is set. */
    var signals: set<nat>
    /** The threads whose yield flag is set. */
    var yielding: set<nat>

    constructor ()
      ensures Idle() && free && list == [] && signals == {} && yielding == {}
    {
      lock, count, owner, list, free, signals, yielding := false, 0, None, [], true, {}, {};
    }

    /** Nobody holds the queue lock. */
    ghost predicate Idle()
      reads this
    {
      !lock && count == 0 && owner == None
    }

    /** Thread `self` holds the queue lock, `count` times. */
    ghost predicate HeldBy(self: nat)
      reads this
    {
      lock && count > 0 && owner == Some(self)
    }

    /** The queue lock has been left to the switch of a thread that goes to sleep. */
    ghost predicate HandedOver()
      reads this
    {
      lock && count == 0 && owner == None
    }

    method WqLock(self: nat)
      requires Idle() || HeldBy(self)
      modifies this`lock, this`count, this`owner
      ensures HeldBy(self) && count == old(count) + 1
    {
      if owner == Some(self) {
        count := count + 1;
        return;
      }
      lock := true;
      owner := Some(self);
      count := 1;
    }

    method WqUnlock(ghost self: nat)
      requires HeldBy(self)
      modifies this`lock, this`count, this`owner
      ensures count == old(count) - 1 && if count == 0 then Idle() else HeldBy(self)
    {
      count := count - 1;
      if count == 0 {
        owner := None;
        lock := false;
      }
    }

    /** `wq_wait` up to the switch: the re-entrant lock is dropped to nothing, but stays taken. */
    method WqWait(self: nat)
      requires Idle() || HeldBy(self)
      modifies this`lock, this`count, this`owner, this`list
      ensures HandedOver() && list == old(list) + [self]
    {
      WqLock(self);
      owner := None;
      count := 0;
      list := list + [self];
    }

    method WqWakeOne(self: nat) returns (woken: Option<nat>)
      requires Idle() || HeldBy(self)
      modifies this`lock, this`count, this`owner, this`list
      ensures count == old(count) && if old(Idle()) then Idle() else HeldBy(self)
      ensures if old(list) == [] then woken == None && list == []
              else woken == Some(old(list)[0]) && list == old(list)[1..]
    {
      WqLock(self);
      woken := None;
      if list != [] { woken, list := Some(list[0]), list[1..]; }
      WqUnlock(self);
    }

    /** `wq_wait` after the switch has come back: the status is read off the flag, which is cleared. */
    method WqResume(self: nat) returns (status: int)
      modifies this`signals
      ensures status == ResumeStatus(old(signals), self) && signals == old(signals) - {self}
    {
      if self in signals {
        signals := signals - {self};
        return -EINTR;
      }
      status := 0;
    }

    method WqInterrupt(self: nat, u: nat)
      requires Idle()
      modifies this`lock, this`count, this`owner, this`list, this`signals
      ensures Idle() && (list, signals) == TakenOut(old(list), old(signals), u)
    {
      WqLock(self);
      var ok := u in list;
      list := Without(list, u);
      if ok { signals := signals + {u}; }
      if !ok { WithoutNone(old(list), u); }
      WqUnlock(self);
    }

    /** The first half of `acquire_mutex`, up to its second look at the yield flag. */
    method Mark(self: nat, nonblock: bool) returns (status: int)
      requires Idle()
      modifies this
      ensures HeldBy(self) && count == 1 && list == old(list) && signals == old(signals)
      ensures (free, yielding, status) == Marked(old(free), old(yielding), self, nonblock)
    {
      WqLock(self);
      status := 0;
      if free {
        free := false;
        yielding := yielding - {self};
      } else if nonblock {
        status := -EBUSY;
        yielding := yielding - {self};
      } else {
        yielding := yielding + {self};
      }
    }

    /** `acquire_mutex`, with or without a late end of a switch between its two looks at the yield flag. The nested
        lock counts balance: the queue lock is free again, or handed to the switch. */
    method AcquireMutex(self: nat, nonblock: bool, cleared: bool) returns (status: int, asleep: bool)
      requires Idle()
      modifies this
      ensures asleep <==> !old(free) && !nonblock && !cleared
      ensures status == if old(free) || !nonblock then 0 else -EBUSY
      ensures !free && list == old(list) + (if asleep then [self] else [])
      ensures if asleep then HandedOver() else Idle()
      ensures signals == old(signals)
    {
      status := Mark(self, nonblock);
      if cleared { yielding := yielding - {self}; }
      asleep := self in yielding;
      if asleep {
        WqWait(self);
      } else {
        WqUnlock(self);
      }
    }

    method ReleaseMutex(self: nat) returns (woken: Option<nat>)
      requires Idle()
      modifies this
      ensures Idle()
      ensures woken == Heir(old(list))
      ensures (free, list) == Released(old(free), old(list)) && signals == old(signals) && yielding == old(yielding)
    {
      WqLock(self);
      woken := WqWakeOne(self);
      if woken.None? { free := true; }
      WqUnlock(self);
    }
  }

  // ---- the specification ----------------------------------------------------------------------------------

  /** The free flag, the yield flags and the status after the first half of `acquire_mutex`. */
  function Marked(free: bool, yielding: set<nat>, t: nat, nonblock: bool): (bool, set<nat>, int)
  {
    if free then (false, yielding - {t}, 0)
    else if nonblock then (free, yielding - {t}, -EBUSY)
    else (free, yielding + {t}, 0)
  }

  function Heir(list: seq<nat>): Option<nat> { if list == [] then None else Some(list[0]) }

  function Released(free: bool, list: seq<nat>): (bool, seq<nat>)
  { if list == [] then (true, []) else (free, list[1..]) }

  /** What a waiter is told when it runs again. */
  function ResumeStatus(signals: set<nat>, t: nat): int { if t in signals then -EINTR else 0 }

  function TakenOut(list: seq<nat>, signals: set<nat>, u: nat): (seq<nat>, set<nat>)
  {
    if u in list then (Without(list, u), signals + {u}) else (list, signals)
  }

  // ---- whole runs -----------------------------------------------------------------------------------------

  /** Where a thread is in its code: outside, between the two looks at its yield flag with the status it will
      return, in `wq_wait`, or between a successful acquire and the release. */
  datatype Point = Out | Deciding(status: int) | Asleep | Inside

  /** `leaving` holds a thread once for every core that has switched away from it and not yet cleared its yield
      flag. */
  datatype World = World(
    free: bool, waiters: seq<nat>, signals: set<nat>, yielding: set<nat>, leaving: multiset<nat>,
    point: map<nat, Point>)

  datatype Step =
    | Mark(t: nat, nonblock: bool) | Test(t: nat) | Release(t: nat) | Interrupt(t: nat) | Resume(t: nat)
    | Preempt(t: nat) | Clear(t: nat)

  /** Some thread is between the two looks and holds the queue lock. */
  ghost predicate Locked(w: World) { exists t :: t in w.point && w.point[t].Deciding? }

  /** Threads acquire when they are outside and release when they are inside, under the queue lock. A sleeper
      resumes, sooner or later, once it has been taken out of the queue. A thread can be preempted unless it
      holds the queue lock, and the core that leaves it clears its yield flag sooner or later. */
  ghost predicate Enabled(w: World, step: Step)
  {
    step.t in w.point &&
    match step
    case Mark(t, _) => w.point[t] == Out && !Locked(w)
    case Test(t) => w.point[t].Deciding?
    case Release(t) => w.point[t] == Inside && !Locked(w)
    case Interrupt(_) => !Locked(w)
    case Resume(t) => w.point[t] == Asleep && t !in w.waiters
    case Preempt(t) => w.point[t] == Out || w.point[t] == Inside
    case Clear(t) => t in w.leaving
  }

  ghost function Do(w: World, step: Step): World
    requires Enabled(w, step)
  {
    match step
    case Mark(t, nonblock) =>
      var (free, yielding, status) := Marked(w.free, w.yielding, t, nonblock);
      w.(free := free, yielding := yielding, point := w.point[t := Deciding(status)])
    case Test(t) =>
      if t in w.yielding then
        w.(waiters := w.waiters + [t], leaving := w.leaving + multiset{t}, point := w.point[t := Asleep])
      else w.(point := w.point[t := if w.point[t].status == 0 then Inside else Out])
    case Release(t) =>
      var (free, waiters) := Released(w.free, w.waiters);
      w.(free := free, waiters := waiters, point := w.point[t := Out])
    case Interrupt(t) =>
      var (waiters, signals) := TakenOut(w.waiters, w.signals, t);
      w.(waiters := waiters, signals := signals)
    case Resume(t) =>
      var point := if ResumeStatus(w.signals, t) == 0 then Inside else Out;
      w.(signals := w.signals - {t}, point := w.point[t := point])
    case Preempt(t) => w.(leaving := w.leaving + multiset{t})
    case Clear(t) => w.(leaving := w.leaving - multiset{t}, yielding := w.yielding - {t})
  }

  /** The mutex belongs to a thread inside, to one about to find that it need not sleep, or to one that is
      asleep, out of the queue and without the flag: the next thing it does is go inside. */
  ghost predicate Owns(w: World, t: nat)
  {
    && t in w.point
    && (|| w.point[t] == Inside
        || (w.point[t] == Deciding(0) && t !in w.yielding)
        || (w.point[t] == Asleep && t !in w.waiters && t !in w.signals))
  }

  ghost predicate Exclusive(w: World) { forall t, u | Owns(w, t) && Owns(w, u) :: t == u }

  /** What every run keeps, whatever the cores do. */
  ghost predicate Sound(w: World)
  {
    && NoDup(w.waiters)
    && (forall t | t in w.waiters :: t in w.point && w.point[t] == Asleep && t !in w.signals)
    && (forall t | t in w.signals :: t in w.point && w.point[t] == Asleep)
    && (forall t, u | t in w.point && u in w.point && w.point[t].Deciding? && w.point[u].Deciding? :: t == u)
    && (forall t | t in w.point && w.point[t].Deciding? :: !w.free && (w.point[t].status != 0 ==> t !in w.yielding))
    && (w.waiters != [] ==> !w.free)
  }

  ghost predicate Inv(w: World)
  {
    Sound(w) && Exclusive(w) && (w.free <==> forall t :: !Owns(w, t))
  }

  /** The one wrong moment: a core clears the yield flag of a thread that has set it in order to sleep, and has
      not yet looked at it again. */
  ghost predicate Slips(w: World, step: Step)
    requires Enabled(w, step)
  {
    step.Clear? && w.point[step.t] == Deciding(0) && step.t in w.yielding
  }

  lemma StepSound(w: World, step: Step)
    requires Sound(w) && Enabled(w, step)
    ensures Sound(Do(w, step))
  {
    match step
    case Mark(_, _) =>
    case Test(t) =>
    case Release(t) => if w.waiters != [] { NoDupTail(w.waiters); }
    case Interrupt(t) => WithoutNoDup(w.waiters, t);
    case Resume(t) =>
    case Preempt(t) =>
    case Clear(t) =>
  }

  lemma StepKeeps(w: World, step: Step)
    requires Inv(w) && Enabled(w, step) && !Slips(w, step)
    ensures Inv(Do(w, step))
  {
    StepSound(w, step);
    match step
    case Mark(t, nonblock) => MarkKeeps(w, t, nonblock, Do(w, step));
    case Release(t) => ReleaseKeeps(w, t, Do(w, step));
    case _ => OwnersStay(w, step, Do(w, step));
  }

  lemma MarkKeeps(w: World, t: nat, nonblock: bool, w': World)
    requires Inv(w) && Enabled(w, Mark(t, nonblock)) && w' == Do(w, Mark(t, nonblock))
    ensures Exclusive(w') && (w'.free <==> forall t :: !Owns(w', t))
  {
    forall u | u != t ensures Owns(w', u) <==> Owns(w, u) {}
    assert Owns(w', t) <==> w.free;
    if !w.free {
      var h :| Owns(w, h);
      assert Owns(w', h);
    }
  }

  lemma ReleaseKeeps(w: World, t: nat, w': World)
    requires Inv(w) && Enabled(w, Release(t)) && w' == Do(w, Release(t))
    ensures Exclusive(w') && (w'.free <==> forall t :: !Owns(w', t))
  {
    assert Owns(w, t) && !Owns(w', t);
    if w.waiters != [] {
      NoDupTail(w.waiters);
      assert w.waiters[0] in w.waiters && Owns(w', w.waiters[0]);
    }
    forall u: nat | Owns(w', u) ensures Heir(w.waiters) == Some(u) {
      assert Heir(w.waiters) != Some(u) ==> Owns(w, u);
    }
  }

  /** The other steps do not change who owns the mutex. */
  lemma OwnersStay(w: World, step: Step, w': World)
    requires Inv(w) && Enabled(w, step) && !Slips(w, step) && !step.Mark? && !step.Release? && w' == Do(w, step)
    ensures Exclusive(w') && (w'.free <==> forall t :: !Owns(w', t))
  {
    forall u ensures Owns(w', u) <==> Owns(w, u) { OwnerStays(w, step, w', u); }
    if !w.free {
      var h :| Owns(w, h);
      assert Owns(w', h);
    }
  }

  lemma OwnerStays(w: World, step: Step, w': World, u: nat)
    requires Sound(w) && Enabled(w, step) && !Slips(w, step) && !step.Mark? && !step.Release? && w' == Do(w, step)
    ensures Owns(w', u) <==> Owns(w, u)
  {
  }

  /** A step at the wrong moment always makes a second owner. */
  lemma StepSlips(w: World, step: Step)
    requires Inv(w) && Enabled(w, step) && Slips(w, step)
    ensures !Exclusive(Do(w, step))
  {
    var h :| Owns(w, h);
    assert Owns(Do(w, step), h) && Owns(Do(w, step), step.t);
  }

  ghost predicate Possible(w: World, steps: seq<Step>)
    decreases |steps|
  {
    steps == [] || (Enabled(w, steps[0]) && Possible(Do(w, steps[0]), steps[1..]))
  }

  ghost function Run(w: World, steps: seq<Step>): (r: World)
    requires Possible(w, steps)
    decreases |steps|
  {
    if steps == [] then w else Run(Do(w, steps[0]), steps[1..])
  }

  /** At most one owner all the way. */
  ghost predicate AllExclusive(w: World, steps: seq<Step>)
    requires Possible(w, steps)
    decreases |steps|
  {
    Exclusive(w) && (steps == [] || AllExclusive(Do(w, steps[0]), steps[1..]))
  }

  /** No yield flag is cleared at the wrong moment. */
  ghost predicate NoSlip(w: World, steps: seq<Step>)
    requires Possible(w, steps)
    decreases |steps|
  {
    steps == [] || (!Slips(w, steps[0]) && NoSlip(Do(w, steps[0]), steps[1..]))
  }

  /** Mutual exclusion over whole runs: at most one thread owns the mutex if and only if no core clears a yield
      flag between the two looks at it. Then the mutex is free exactly when nobody owns it, and nobody waits
      for a free mutex. */
  lemma {:induction false} MutualExclusion(w: World, steps: seq<Step>)
    requires Inv(w) && Possible(w, steps)
    ensures AllExclusive(w, steps) <==> NoSlip(w, steps)
    ensures NoSlip(w, steps) ==> Inv(Run(w, steps))
    decreases |steps|
  {
    if steps != [] {
      if Slips(w, steps[0]) {
        StepSlips(w, steps[0]);
      } else {
        StepKeeps(w, steps[0]);
        MutualExclusion(Do(w, steps[0]), steps[1..]);
      }
    }
  }

  /** From every world in which a thread is inside and another one outside has been preempted by a core that has
      not finished its switch: the second one gets in as well. */
  lemma TwoInside(w: World, h: nat, t: nat)
    requires Inv(w) && h in w.point && w.point[h] == Inside && t in w.point && w.point[t] == Out
    requires t in w.leaving && !Locked(w)
    ensures var steps := [Mark(t, false), Clear(t), Test(t)];
            && Possible(w, steps)
            && var r := Run(w, steps);
               h != t && h in r.point && r.point[h] == Inside && t in r.point && r.point[t] == Inside
  {
    assert Owns(w, h);
    var w1 := Do(w, Mark(t, false));
    var w2 := Do(w1, Clear(t));
    var w3 := Do(w2, Test(t));
    var steps := [Mark(t, false), Clear(t), Test(t)];
    assert steps[1..] == [Clear(t), Test(t)] && [Clear(t), Test(t)][1..] == [Test(t)] && [Test(t)][1..] == [];
    assert Possible(w3, []) && Run(w3, []) == w3;
    assert Possible(w2, [Test(t)]) && Run(w2, [Test(t)]) == w3;
    assert Possible(w1, [Clear(t), Test(t)]) && Run(w1, [Clear(t), Test(t)]) == w3;
  }

  lemma Fresh(threads: set<nat>)
    ensures Inv(World(true, [], {}, {}, multiset{}, map t | t in threads :: Out))
  {}

  // ---- what a waiter is told --------------------------------------------------------------------------------

  /** The first step of a run that takes a waiter out of the queue. */
  datatype End = StillWaiting | ByInterrupt | ByRelease

  ghost function HowTaken(w: World, steps: seq<Step>, t: nat): End
    requires Possible(w, steps)
    decreases |steps|
  {
    if steps == [] then StillWaiting
    else if steps[0] == Interrupt(t) then ByInterrupt
    else if steps[0].Release? && Heir(w.waiters) == Some(t) then ByRelease
    else HowTaken(Do(w, steps[0]), steps[1..], t)
  }

  /** A waiter from its place in the queue to the moment it runs again: it gets 0 exactly when a release has
      handed it the mutex, which it then owns, and -EINTR exactly when it was interrupted, and then it does
      not own it. This holds in every run, also when yield flags are cleared at the wrong moment. */
  lemma {:induction false} ToldTheTruth(w: World, steps: seq<Step>, t: nat)
    requires Sound(w) && t in w.waiters && Possible(w, steps) && Resume(t) !in steps
    ensures var r, end := Run(w, steps), HowTaken(w, steps, t);
            && Sound(r) && t in r.point && r.point[t] == Asleep
            && (t in r.waiters <==> end == StillWaiting)
            && (t !in r.waiters ==> Enabled(r, Resume(t)))
            && (t !in r.waiters ==> (ResumeStatus(r.signals, t) == 0 <==> end == ByRelease))
            && (t !in r.waiters ==> (ResumeStatus(r.signals, t) == -EINTR <==> end == ByInterrupt))
            && (t !in r.waiters ==> (ResumeStatus(r.signals, t) == 0 <==> Owns(r, t)))
    decreases |steps|
  {
    assert w.point[t] == Asleep;
    if steps != [] {
      var step := steps[0];
      assert step in steps && forall x | x in steps[1..] :: x in steps;
      StepSound(w, step);
      var w' := Do(w, step);
      if step == Interrupt(t) {
        StaysInterrupted(w', steps[1..], t);
      } else if step.Release? && Heir(w.waiters) == Some(t) {
        NoDupTail(w.waiters);
        StaysOwner(w', steps[1..], t);
      } else {
        if step.Release? { NoDupTail(w.waiters); }
        ToldTheTruth(w', steps[1..], t);
      }
    }
  }

  /** A waiter taken out by `wq_interrupt` never owns the mutex before its call has returned, and that call
      returns -EINTR. */
  lemma {:induction false} StaysInterrupted(w: World, steps: seq<Step>, t: nat)
    requires Sound(w) && t in w.signals && Possible(w, steps) && Resume(t) !in steps
    ensures var r := Run(w, steps);
            Sound(r) && t in r.signals && t !in r.waiters && t in r.point && r.point[t] == Asleep && !Owns(r, t)
    decreases |steps|
  {
    if steps != [] {
      assert steps[0] in steps && forall x | x in steps[1..] :: x in steps;
      StepSound(w, steps[0]);
      StaysInterrupted(Do(w, steps[0]), steps[1..], t);
    }
  }

  /** A waiter that has been handed the mutex owns it until it runs. */
  lemma {:induction false} StaysOwner(w: World, steps: seq<Step>, t: nat)
    requires Sound(w) && t in w.point && w.point[t] == Asleep && Owns(w, t) && Possible(w, steps) && Resume(t) !in steps
    ensures var r := Run(w, steps);
            Sound(r) && Owns(r, t) && t in r.point && r.point[t] == Asleep && t !in r.waiters && t !in r.signals
    decreases |steps|
  {
    if steps != [] {
      assert steps[0] in steps && forall x | x in steps[1..] :: x in steps;
      StepSound(w, steps[0]);
      StaysOwner(Do(w, steps[0]), steps[1..], t);
    }
  }

  // ---- order ------------------------------------------------------------------------------------------------

  /** Thread `a` waits in every state of the run. */
  ghost predicate KeepsWaiting(w: World, steps: seq<Step>, a: nat)
    requires Possible(w, steps)
    decreases |steps|
  {
    a in w.waiters && (steps == [] || KeepsWaiting(Do(w, steps[0]), steps[1..], a))
  }

  /** No `b` stands before an `a` in the list. */
  ghost predicate Precedes(list: seq<nat>, a: nat, b: nat)
  {
    list == [] || if list[0] == b then a !in list else Precedes(list[1..], a, b)
  }

  /** `b` does not own the mutex, and if it waits it waits behind `a`. */
  ghost predicate NotBefore(w: World, a: nat, b: nat)
  {
    !Owns(w, b) && Precedes(w.waiters, a, b)
  }

  lemma {:induction false} PrecedesWithoutA(list: seq<nat>, a: nat, b: nat)
    requires a !in list
    ensures Precedes(list, a, b)
  {
    if list != [] { PrecedesWithoutA(list[1..], a, b); }
  }

  lemma {:induction false} PrecedesAppend(list: seq<nat>, t: nat, a: nat, b: nat)
    requires Precedes(list, a, b) && t != a
    ensures Precedes(list + [t], a, b)
  {
    if list == [] {
      assert [t][1..] == [];
    } else if list[0] != b {
      PrecedesAppend(list[1..], t, a, b);
      assert (list + [t])[1..] == list[1..] + [t];
    }
  }

  lemma {:induction false} PrecedesRemove(list: seq<nat>, u: nat, a: nat, b: nat)
    requires Precedes(list, a, b)
    ensures Precedes(Without(list, u), a, b)
  {
    if list != [] {
      if list[0] == b {
        PrecedesWithoutA(Without(list, u), a, b);
      } else {
        PrecedesRemove(list[1..], u, a, b);
        if list[0] != u { assert Without(list, u)[1..] == Without(list[1..], u); }
      }
    }
  }

  /** The flag of `b` is not cleared at the wrong moment. */
  ghost predicate NoSlipOf(w: World, steps: seq<Step>, b: nat)
    requires Possible(w, steps)
    decreases |steps|
  {
    steps == [] || (!(Slips(w, steps[0]) && steps[0].t == b) && NoSlipOf(Do(w, steps[0]), steps[1..], b))
  }

  /** First come, first served: as long as `a` waits, no thread queued behind it gets the mutex, unless its own
      yield flag is cleared at the wrong moment. */
  lemma {:induction false} Fifo(w: World, steps: seq<Step>, a: nat, b: nat)
    requires Sound(w) && Possible(w, steps) && KeepsWaiting(w, steps, a) && a != b && NotBefore(w, a, b)
    requires NoSlipOf(w, steps, b)
    ensures NotBefore(Run(w, steps), a, b)
    decreases |steps|
  {
    if steps != [] {
      StepSound(w, steps[0]);
      FifoStep(w, steps[0], a, b);
      Fifo(Do(w, steps[0]), steps[1..], a, b);
    }
  }

  lemma FifoStep(w: World, step: Step, a: nat, b: nat)
    requires Sound(w) && Enabled(w, step) && a != b && NotBefore(w, a, b) && !(Slips(w, step) && step.t == b)
    requires a in w.waiters && a in Do(w, step).waiters
    ensures NotBefore(Do(w, step), a, b)
  {
    match step
    case Test(t) => PrecedesAppend(w.waiters, t, a, b);
    case Release(t) => NoDupTail(w.waiters);
    case Interrupt(t) => PrecedesRemove(w.waiters, t, a, b);
    case _ =>
  }
}
