/**
 How threads block and wake on several cores: the switch of kernel/sched/scheduler.c, the wait queues of
 kernel/sched/wq.c whose lock is handed over to the switch, and signals, sleeping and exit of
 kernel/sched/threads.c. A step is one critical section, or one write where no lock is held. A switch
 can come between any two steps of a thread that has interrupts on.
 */
module Blocking {
  import opened Prelude

  datatype RunState = Ready | Running | Sleeping | Blocking | Terminated | Freed

  /** `core` is the core whose registers hold the thread's context; without one the context is saved.
      `home` is set for the idle thread of a core. `spun` says that a signaller holds the signal lock and
      waits for `yielding` to be cleared, `reading` that the thread is about to interrupt another one
      and which wait queue it has seen that one in. */
  datatype Thread = Thread(
    state: RunState, core: Option<nat>, home: Option<nat>, yielding: bool, lock: Option<nat>, wq: Option<nat>,
    recv: bool, wait: bool, spun: bool, armed: bool, reading: Option<(nat, nat)>)

  /** A wait queue's lock is free, held by a thread `depth` times, or handed to the switch of a thread. */
  datatype LockState = Unlocked | Owned(holder: nat, depth: nat) | Handed(target: nat)

  /** `intact` says that the links and the length of the list are still known to be those of `list`, `honest`
      that the lock has never been released but by whom it had been left to. */
  datatype WaitQueue = WaitQueue(lock: LockState, list: seq<nat>, intact: bool, honest: bool)

  /** How far a core is with the end of a switch: it has yet to look at the thread's lock pointer, to release
      the lock it found there, to clear the pointer, or to clear the yield flag. */
  datatype Phase = AtLock | Holding(w: nat) | Dropped | AtFlag

  /** A core executes a thread, or has saved its context and has not finished the switch, or looks for the
      next thread while the last one is still its current thread. */
  datatype CoreState = Exec(thread: nat) | Leaving(thread: nat, phase: Phase) | Picking(last: Option<nat>)

  datatype State = State(
    threads: map<nat, Thread>, cores: map<nat, CoreState>,
    rq: multiset<nat>, wqs: map<nat, WaitQueue>, dead: seq<nat>)

  datatype Step =
    | Spawn(t: nat)
    | Lock(t: nat, w: nat) | Unlock(t: nat, w: nat)
    | SetYield(t: nat, flag: bool) | Wait(t: nat, w: nat) | WakeOne(t: nat, w: nat)
    | ReadQueue(t: nat, u: nat) | TakeOut(t: nat)
    | SigWait(t: nat) | SignalStart(u: nat) | SignalFinish(u: nat)
    | Arm(t: nat) | Doze(t: nat) | TimerFire(u: nat)
    | Mark(t: nat) | Bury(t: nat) | Reap
    | Save(c: nat) | SeeLock(c: nat) | DropLock(c: nat) | ForgetLock(c: nat) | Clear(c: nat) | Pick(c: nat, t: nat)

  // ---- the steps -------------------------------------------------------------------------------------

  /** A thread other than an idle thread runs, and is not in the middle of sleeping or interrupting. */
  ghost predicate Runs(s: State, t: nat)
  {
    && t in s.threads && s.threads[t].state == Running && s.threads[t].home.None?
    && !s.threads[t].armed && s.threads[t].reading.None?
  }

  /** The lock of `w` can be taken (again) by `t`. */
  ghost predicate Lockable(s: State, w: nat, t: nat)
  {
    w in s.wqs && (s.wqs[w].lock.Unlocked? || (s.wqs[w].lock.Owned? && s.wqs[w].lock.holder == t))
  }

  /** Interrupts are off while a wait-queue lock is held, so its owner is not switched out. */
  ghost predicate Owner(s: State, t: nat)
  {
    exists w :: w in s.wqs && s.wqs[w].lock.Owned? && s.wqs[w].lock.holder == t
  }

  ghost predicate OwnerBut(s: State, t: nat, w: nat)
  {
    exists v :: v in s.wqs && v != w && s.wqs[v].lock.Owned? && s.wqs[v].lock.holder == t
  }

  /** A core has saved the context of a thread of the machine and is at this point of its switch. */
  ghost predicate Switching(s: State, c: nat, phase: Phase)
  {
    c in s.cores && s.cores[c].Leaving? && s.cores[c].phase == phase && s.cores[c].thread in s.threads
  }

  /** A core takes up a thread from a run queue, or its own idle thread. */
  ghost predicate CanPick(s: State, c: nat, t: nat)
  {
    && c in s.cores && s.cores[c].Picking? && t in s.threads
    && (t in s.rq || (s.threads[t].home == Some(c) && s.threads[t].state != Running))
  }

  ghost predicate Enabled(s: State, step: Step)
  {
    match step
    case Spawn(t) => t !in s.threads && s.rq[t] == 0
    case Lock(t, w) => Runs(s, t) && Lockable(s, w, t)
    case Unlock(t, w) => Runs(s, t) && w in s.wqs && s.wqs[w].lock.Owned? && s.wqs[w].lock.holder == t
    case SetYield(t, _) => Runs(s, t) && Owner(s, t)
    case Wait(t, w) => Runs(s, t) && Lockable(s, w, t) && !OwnerBut(s, t, w)
    case WakeOne(t, w) => Runs(s, t) && Lockable(s, w, t) && (s.wqs[w].list != [] ==> s.wqs[w].list[0] in s.threads)
    case ReadQueue(t, u) => Runs(s, t) && u in s.threads && s.threads[u].wq.Some? && u != t
    case TakeOut(t) =>
      && t in s.threads && s.threads[t].state == Running && s.threads[t].home.None? && s.threads[t].reading.Some?
      && var (u, w) := s.threads[t].reading.value;
         u in s.threads && u != t && Lockable(s, w, t)
    case SigWait(t) => Runs(s, t) && !Owner(s, t)
    case SignalStart(u) => u in s.threads && !s.threads[u].spun
    case SignalFinish(u) => u in s.threads && s.threads[u].spun && !s.threads[u].yielding
    case Arm(t) => Runs(s, t) && !Owner(s, t)
    case Doze(t) => t in s.threads && s.threads[t].state == Running && s.threads[t].armed && !Owner(s, t)
    case TimerFire(u) => u in s.threads && s.threads[u].armed
    case Mark(t) => Runs(s, t) && !Owner(s, t)
    case Bury(t) => t in s.threads && s.threads[t].state == Terminated && s.threads[t].core.Some? && t !in s.dead
    case Reap => s.dead != [] && s.dead[0] in s.threads && !s.threads[s.dead[0]].yielding
    case Save(c) => c in s.cores && s.cores[c].Exec? && s.cores[c].thread in s.threads && !Owner(s, s.cores[c].thread)
    case SeeLock(c) => Switching(s, c, AtLock)
    case DropLock(c) =>
      c in s.cores && s.cores[c].Leaving? && s.cores[c].phase.Holding? && s.cores[c].phase.w in s.wqs
      && s.cores[c].thread in s.threads
    case ForgetLock(c) => Switching(s, c, Dropped)
    case Clear(c) => Switching(s, c, AtFlag)
    case Pick(c, t) => CanPick(s, c, t)
  }

  ghost function With(s: State, t: nat, th: Thread): State { s.(threads := s.threads[t := th]) }

  ghost function WithLock(s: State, w: nat, l: LockState): State
    requires w in s.wqs
  {
    s.(wqs := s.wqs[w := s.wqs[w].(lock := l)])
  }

  ghost function Relocked(l: LockState, t: nat): LockState
  {
    if l.Owned? then Owned(t, l.depth + 1) else Owned(t, 1)
  }

  /** A thread becomes ready and is put on a run queue. */
  ghost function Readied(s: State, u: nat, th: Thread): State
  {
    With(s, u, th.(state := Ready)).(rq := s.rq + multiset{u})
  }

  /** The thread waits in a queue next to another one, so its link is not empty. */
  ghost predicate Neighboured(s: State, u: nat)
  {
    exists v :: v in s.wqs && u in s.wqs[v].list && |s.wqs[v].list| > 1
  }

  /** The removal in `wq_interrupt`, of thread `u` from the queue `w` it was seen in. If it is no longer
      there but has a neighbour in another queue, `list_remove` unlinks it all the same and the length
      of `w` goes down. If it has been freed, its links may hold anything. */
  ghost function Removed(s: State, u: nat, w: nat): State
    requires u in s.threads && w in s.wqs
  {
    if u in s.wqs[w].list then
      Readied(s.(wqs := s.wqs[w := s.wqs[w].(list := Without(s.wqs[w].list, u))]), u, s.threads[u].(wq := None))
    else if Neighboured(s, u) then
      Readied(s.(wqs := s.wqs[w := s.wqs[w].(intact := false)]), u, s.threads[u].(wq := None))
    else if s.threads[u].state == Freed then s.(wqs := s.wqs[w := s.wqs[w].(intact := false)])
    else s
  }

  /** The beginning of the switch: the context is saved, and a thread that was merely preempted is put
      back on a run queue. */
  ghost function Saved(s: State, c: nat, t: nat): State
    requires t in s.threads
  {
    var th := s.threads[t].(core := None);
    var s' := s.(cores := s.cores[c := Leaving(t, AtLock)]);
    if th.home.Some? then With(s', t, th.(state := Sleeping))
    else if th.state == Running then Readied(s', t, th)
    else With(s', t, th)
  }

  ghost function PickedUp(s: State, c: nat, t: nat): State
    requires t in s.threads
  {
    With(s, t, s.threads[t].(state := Running, core := Some(c)))
      .(cores := s.cores[c := Exec(t)], rq := s.rq - multiset{t})
  }

  ghost function NewThread(): Thread
  {
    Thread(Ready, None, None, false, None, None, false, false, false, false, None)
  }

  ghost function Do(s: State, step: Step): State
    requires Enabled(s, step)
  {
    match step
    case Spawn(t) => Readied(s, t, NewThread())
    case Lock(t, w) => WithLock(s, w, Relocked(s.wqs[w].lock, t))
    case Unlock(t, w) =>
      var l := s.wqs[w].lock;
      WithLock(s, w, if l.depth <= 1 then Unlocked else Owned(t, l.depth - 1))
    case SetYield(t, flag) => With(s, t, s.threads[t].(yielding := flag))
    case Wait(t, w) =>
      With(s, t, s.threads[t].(state := Sleeping, wq := Some(w), lock := Some(w)))
        .(wqs := s.wqs[w := s.wqs[w].(lock := Handed(t), list := s.wqs[w].list + [t])])
    case WakeOne(t, w) =>
      if s.wqs[w].list == [] then s
      else
        var u := s.wqs[w].list[0];
        Readied(s.(wqs := s.wqs[w := s.wqs[w].(list := s.wqs[w].list[1..])]), u, s.threads[u].(wq := None))
    case ReadQueue(t, u) => With(s, t, s.threads[t].(reading := Some((u, s.threads[u].wq.value))))
    case TakeOut(t) =>
      var (u, w) := s.threads[t].reading.value;
      Removed(With(s, t, s.threads[t].(reading := None)), u, w)
    case SigWait(t) =>
      if s.threads[t].recv then With(s, t, s.threads[t].(recv := false, wait := false))
      else With(s, t, s.threads[t].(yielding := true, wait := true, state := Blocking))
    case SignalStart(u) =>
      if s.threads[u].wait then With(s, u, s.threads[u].(wait := false, recv := false, spun := true))
      else With(s, u, s.threads[u].(recv := true))
    case SignalFinish(u) => Readied(s, u, s.threads[u].(spun := false))
    case Arm(t) => With(s, t, s.threads[t].(armed := true))
    case Doze(t) => With(s, t, s.threads[t].(state := Sleeping))
    case TimerFire(u) => Readied(s, u, s.threads[u].(armed := false))
    case Mark(t) => With(s, t, s.threads[t].(state := Terminated, yielding := true))
    case Bury(t) => s.(dead := s.dead + [t])
    case Reap =>
      var u := s.dead[0];
      With(s, u, s.threads[u].(state := Freed)).(dead := s.dead[1..])
    case Save(c) => Saved(s, c, s.cores[c].thread)
    case SeeLock(c) =>
      var t := s.cores[c].thread;
      var l := s.threads[t].lock;
      s.(cores := s.cores[c := Leaving(t, if l.Some? then Holding(l.value) else AtFlag)])
    case DropLock(c) =>
      var t, w := s.cores[c].thread, s.cores[c].phase.w;
      var q := s.wqs[w];
      s.(cores := s.cores[c := Leaving(t, Dropped)],
         wqs := s.wqs[w := q.(lock := Unlocked, honest := q.honest && q.lock == Handed(t))])
    case ForgetLock(c) =>
      var t := s.cores[c].thread;
      With(s, t, s.threads[t].(lock := None)).(cores := s.cores[c := Leaving(t, AtFlag)])
    case Clear(c) =>
      var t := s.cores[c].thread;
      With(s, t, s.threads[t].(yielding := false)).(cores := s.cores[c := Picking(Some(t))])
    case Pick(c, t) => PickedUp(s, c, t)
  }

  // ---- what is safe ----------------------------------------------------------------------------------

  datatype Place =
    | OnCore(c: nat) | RunQueue | InWaitQueue(w: nat) | OnSignal | OnTimer | Dead | Gone | Resting

  ghost predicate Executes(s: State, c: nat, t: nat) { c in s.cores && s.cores[c] == Exec(t) }

  ghost predicate Executed(s: State, t: nat) { exists c :: Executes(s, c, t) }

  /** The switch away from a thread is not over on core `c`. */
  ghost predicate Leaves(s: State, c: nat, t: nat) { c in s.cores && s.cores[c].Leaving? && s.cores[c].thread == t }

  /** The thread is still the current thread of a core that looks for the next one. */
  ghost predicate Lingers(s: State, c: nat, t: nat) { c in s.cores && s.cores[c] == Picking(Some(t)) }

  /** Core `c` is about to release the lock of `w` for the thread. */
  ghost predicate Carries(s: State, c: nat, t: nat, w: nat) { c in s.cores && s.cores[c] == Leaving(t, Holding(w)) }

  ghost predicate Carried(s: State, t: nat, w: nat) { exists c :: Carries(s, c, t, w) }

  /** A lock that has been left to a switch is not forgotten: the thread points to it, or a core is about to
      release it. */
  ghost predicate Remembered(s: State, w: nat)
    requires w in s.wqs
  {
    s.wqs[w].lock.Handed? ==>
      var t := s.wqs[w].lock.target;
      t in s.threads && (s.threads[t].lock == Some(w) || Carried(s, t, w))
  }

  /** Membership as the data structures themselves record it. A thread that has entered a queue, or waits
      for a signal, counts for that and not for the core it is about to leave. */
  ghost predicate IsAt(s: State, t: nat, p: Place)
    requires t in s.threads
  {
    var th := s.threads[t];
    match p
    case OnCore(c) =>
      && Executes(s, c, t)
      && (th.state == Running || (th.state == Terminated && t !in s.dead) || (th.state == Sleeping && th.wq.None?))
    case RunQueue => t in s.rq
    case InWaitQueue(w) => w in s.wqs && t in s.wqs[w].list
    case OnSignal => th.wait || th.spun
    case OnTimer => th.armed && !Executed(s, t)
    case Dead => t in s.dead
    case Gone => th.state == Freed
    case Resting => th.home.Some? && th.state == Sleeping
  }

  ghost predicate OnePlace(s: State, t: nat)
    requires t in s.threads
  {
    (exists p :: IsAt(s, t, p)) && forall p, q | IsAt(s, t, p) && IsAt(s, t, q) :: p == q
  }

  /** A thread that still executes but can already be found by a waker is guarded against it: the lock of
      its wait queue is on its way to the switch, or its yield flag makes the signaller and the reaper
      wait. The reaper also waits for a switch that is not over, and for a core to have another current
      thread. */
  ghost predicate Guarded(s: State, t: nat)
    requires t in s.threads
  {
    var th := s.threads[t];
    && (Executed(s, t) ==>
          && (th.wq.Some? ==> th.wq.value in s.wqs && s.wqs[th.wq.value].lock == Handed(t))
          && (th.state == Blocking || th.state == Terminated ==> th.yielding))
    && ((exists c :: Leaves(s, c, t)) ==> th.state != Freed && (th.state == Terminated ==> th.yielding))
    && ((exists c :: Lingers(s, c, t)) ==> th.state != Freed)
  }

  ghost predicate SafeAt(s: State, t: nat)
    requires t in s.threads
  {
    && OnePlace(s, t) && Guarded(s, t) && s.rq[t] <= 1
    && (forall c, d | Executes(s, c, t) && Executes(s, d, t) :: c == d)
    && (t in s.rq || s.threads[t].state == Freed ==> !Executed(s, t))
  }

  /** The list is in order, and the lock neither released by the wrong one nor forgotten. */
  ghost predicate QueueSafe(s: State, w: nat)
    requires w in s.wqs
  {
    NoDup(s.wqs[w].list) && s.wqs[w].intact && s.wqs[w].honest && Remembered(s, w)
  }

  /** Every thread is in exactly one place, and once there; it is queued only with its context saved, freed
      only when no core is on it, and guarded until then; and the wait queues and their locks are in order. */
  ghost predicate Safe(s: State)
  {
    && (forall t {:trigger SafeAt(s, t)} | t in s.threads :: SafeAt(s, t))
    && (forall w {:trigger QueueSafe(s, w)} | w in s.wqs :: QueueSafe(s, w))
    && NoDup(s.dead)
  }

  // ---- what goes wrong -------------------------------------------------------------------------------

  /** The steps that come at a wrong moment:
      - a switch away from a thread that has marked itself dead and is not yet on the dead list;
      - a switch away from a thread that has armed its timer and has not yet said that it sleeps;
      - the timer of a thread that has not yet left its core;
      - a core that finishes a switch after the thread has been picked up by another core and begun to
        block or exit there: it then releases the lock, forgets the lock or clears the flag of that later
        switch; or one that releases a lock which another core has released for the thread already;
      - the reaper, after the yield flag has been cleared and before the core has another current thread;
      - a removal from a wait queue that the thread has left since it was seen there, for another queue
        in which it has a neighbour, or to exit and be freed. */
  ghost predicate Slips(s: State, step: Step)
    requires Enabled(s, step)
  {
    match step
    case Save(c) =>
      var t := s.cores[c].thread;
      var th := s.threads[t];
      (th.state == Terminated && t !in s.dead) || (th.state == Running && th.armed)
    case TimerFire(u) => s.threads[u].core.Some?
    case DropLock(c) =>
      var t, w := s.cores[c].thread, s.cores[c].phase.w;
      s.wqs[w].lock != Handed(t) || s.threads[t].core.Some?
    case ForgetLock(c) =>
      var t := s.cores[c].thread;
      var l := s.threads[t].lock;
      l.Some? && l.value in s.wqs && s.wqs[l.value].lock == Handed(t) && !Carried(s, t, l.value)
    case Reap => exists c :: Lingers(s, c, s.dead[0])
    case Clear(c) =>
      var t := s.cores[c].thread;
      var th := s.threads[t];
      (th.core.Some? && (th.state == Blocking || th.state == Terminated)) ||
      (th.state == Terminated && exists d :: d != c && Leaves(s, d, t))
    case TakeOut(t) =>
      var (u, w) := s.threads[t].reading.value;
      u !in s.wqs[w].list && (Neighboured(s, u) || s.threads[u].state == Freed)
    case _ => false
  }

  // ---- the invariant ---------------------------------------------------------------------------------

  /** What the fields of one thread allow, in each of its states. */
  predicate FieldsOk(th: Thread)
  {
    && (th.wq.Some? ==> th.state == Sleeping)
    && (th.wait || th.spun <==> th.state == Blocking) && !(th.wait && th.spun)
    && (th.armed ==> th.home.None? && (th.state == Running || (th.state == Sleeping && th.wq.None?)))
    && (th.home.Some? ==> th.state == Running || (th.state == Sleeping && th.wq.None? && th.core.None?))
    && match th.state
       case Running => th.core.Some? && (th.home.Some? ==> th.core == th.home)
       case Ready => th.core.None?
       case Sleeping => th.wq.None? && th.home.None? ==> th.armed
       case Blocking => th.core.Some? ==> th.yielding
       case Terminated => th.core.Some? ==> th.yielding
       case Freed => th.core.None?
  }

  ghost predicate ThreadOk(s: State, t: nat)
    requires t in s.threads
  {
    var th := s.threads[t];
    && FieldsOk(th)
    && (th.core.Some? ==> Executes(s, th.core.value, t))
    && (th.lock.Some? ==> th.lock.value in s.wqs)
    && (th.wq.Some? ==>
          && th.wq.value in s.wqs && t in s.wqs[th.wq.value].list
          && (th.core.Some? ==> s.wqs[th.wq.value].lock == Handed(t)))
    && (th.state == Terminated ==> t in s.dead || th.core.Some?)
    && s.rq[t] == (if th.state == Ready then 1 else 0)
  }

  ghost predicate CoreOk(s: State, c: nat)
    requires c in s.cores
  {
    match s.cores[c]
    case Exec(t) => t in s.threads && s.threads[t].core == Some(c)
    case Leaving(t, phase) =>
      && t in s.threads && s.threads[t].state != Freed
      && (s.threads[t].state == Terminated ==> s.threads[t].yielding)
      && (phase.Holding? ==> phase.w in s.wqs)
    case Picking(last) => last.Some? ==> last.value in s.threads && s.threads[last.value].state != Freed
  }

  ghost predicate QueueOk(s: State, w: nat)
    requires w in s.wqs
  {
    && QueueSafe(s, w)
    && (forall t | t in s.wqs[w].list :: t in s.threads && s.threads[t].wq == Some(w))
    && (s.wqs[w].lock.Handed? ==>
          s.wqs[w].lock.target in s.threads && s.threads[s.wqs[w].lock.target].wq == Some(w))
    && (s.wqs[w].lock.Owned? ==>
          && s.wqs[w].lock.holder in s.threads && s.threads[s.wqs[w].lock.holder].state == Running
          && s.wqs[w].lock.depth > 0)
  }

  ghost predicate Inv(s: State)
  {
    && (forall t {:trigger ThreadOk(s, t)} | t in s.threads :: ThreadOk(s, t))
    && (forall c {:trigger CoreOk(s, c)} | c in s.cores :: CoreOk(s, c))
    && (forall w {:trigger QueueOk(s, w)} | w in s.wqs :: QueueOk(s, w))
    && NoDup(s.dead) && (forall t | t in s.dead :: t in s.threads && s.threads[t].state == Terminated)
    && (forall t | t in s.rq :: t in s.threads)
  }

  // ---- the invariant makes a state safe --------------------------------------------------------------

  lemma ExecutedIffCore(s: State, t: nat)
    requires Inv(s) && t in s.threads
    ensures forall c: nat :: Executes(s, c, t) <==> s.threads[t].core == Some(c)
    ensures Executed(s, t) <==> s.threads[t].core.Some?
  {
    assert ThreadOk(s, t);
    forall c: nat | Executes(s, c, t) ensures s.threads[t].core == Some(c) { assert CoreOk(s, c); }
  }

  ghost function PlaceOf(s: State, t: nat): Place
    requires t in s.threads
  {
    var th := s.threads[t];
    match th.state
    case Running => OnCore(if th.core.Some? then th.core.value else 0)
    case Ready => RunQueue
    case Sleeping =>
      if th.wq.Some? then InWaitQueue(th.wq.value)
      else if th.home.Some? then Resting
      else if th.core.Some? then OnCore(th.core.value) else OnTimer
    case Blocking => OnSignal
    case Terminated => if t in s.dead then Dead else OnCore(if th.core.Some? then th.core.value else 0)
    case Freed => Gone
  }

  lemma ExactlyOnePlace(s: State, t: nat)
    requires Inv(s) && t in s.threads
    ensures IsAt(s, t, PlaceOf(s, t)) && forall q | IsAt(s, t, q) :: q == PlaceOf(s, t)
  {
    assert ThreadOk(s, t);
    ExecutedIffCore(s, t);
    forall q | IsAt(s, t, q) ensures q == PlaceOf(s, t) {
      if q.InWaitQueue? { assert QueueOk(s, q.w); }
    }
  }

  lemma InvIsSafeAt(s: State, t: nat)
    requires Inv(s) && t in s.threads
    ensures SafeAt(s, t)
  {
    assert ThreadOk(s, t);
    ExecutedIffCore(s, t);
    ExactlyOnePlace(s, t);
    forall c | Leaves(s, c, t)
      ensures s.threads[t].state != Freed && (s.threads[t].state == Terminated ==> s.threads[t].yielding)
    {
      assert CoreOk(s, c);
    }
    forall c | Lingers(s, c, t) ensures s.threads[t].state != Freed { assert CoreOk(s, c); }
  }

  lemma InvIsSafe(s: State)
    requires Inv(s)
    ensures Safe(s)
  {
    forall t | t in s.threads ensures SafeAt(s, t) { InvIsSafeAt(s, t); }
    forall w | w in s.wqs ensures QueueSafe(s, w) { assert QueueOk(s, w); }
  }

  // ---- every step that does not slip keeps the invariant ---------------------------------------------

  ghost predicate CarriersStay(s: State, s': State)
  {
    forall c | c in s.cores && s.cores[c].Leaving? && s.cores[c].phase.Holding? ::
      c in s'.cores && s'.cores[c] == s.cores[c]
  }

  lemma StillRemembered(s: State, s': State, w: nat)
    requires w in s.wqs && w in s'.wqs && s'.wqs[w].lock == s.wqs[w].lock && Remembered(s, w) && CarriersStay(s, s')
    requires s.wqs[w].lock.Handed? ==>
               s.wqs[w].lock.target in s'.threads &&
               s'.threads[s.wqs[w].lock.target].lock == s.threads[s.wqs[w].lock.target].lock
    ensures Remembered(s', w)
  {
    if s.wqs[w].lock.Handed? {
      var t := s.wqs[w].lock.target;
      if s.threads[t].lock != Some(w) {
        var c :| Carries(s, c, t, w);
        assert Carries(s', c, t, w);
      }
    }
  }

  /** Changing one thread, the queues and cores staying as they are. */
  lemma ThreadChanged(s: State, u: nat, th: Thread, s': State)
    requires Inv(s) && u in s.threads && FieldsOk(th) && s' == With(s, u, th)
    requires var was := s.threads[u];
             && th.core == was.core && th.lock == was.lock && th.wq == was.wq
             && (th.state == Ready <==> was.state == Ready)
             && (th.state == Freed <==> was.state == Freed)
             && (was.state == Terminated ==> th.state == Terminated && (was.yielding ==> th.yielding))
             && (th.state == Terminated ==> was.state == Terminated || (th.yielding && th.core.Some?))
             && (was.state == Running ==> th.state == Running || !Owner(s, u))
    ensures Inv(s')
  {
    forall t | t in s'.threads ensures ThreadOk(s', t) { assert ThreadOk(s, t); }
    forall c | c in s'.cores ensures CoreOk(s', c) { assert CoreOk(s, c); }
    forall w | w in s'.wqs ensures QueueOk(s', w) { assert QueueOk(s, w); StillRemembered(s, s', w); }
  }

  /** A thread that waits in no queue becomes ready. */
  lemma ReadiedKeeps(s: State, u: nat, th: Thread, s': State)
    requires Inv(s) && (u in s.threads ==> s.threads[u].state == Blocking || s.threads[u].armed)
    requires u !in s.threads ==> s.rq[u] == 0
    requires u in s.threads ==> s.threads[u].core == None && s.threads[u].lock == th.lock
    requires u !in s.threads ==> th.lock == None
    requires th.core == None && th.wq == None && FieldsOk(th.(state := Ready))
    requires s' == Readied(s, u, th)
    ensures Inv(s')
  {
    assert u in s.threads ==> ThreadOk(s, u);
    forall t | t in s'.threads ensures ThreadOk(s', t) { assert t in s.threads ==> ThreadOk(s, t); }
    forall c | c in s'.cores ensures CoreOk(s', c) { assert CoreOk(s, c); }
    forall w | w in s'.wqs ensures QueueOk(s', w) { assert QueueOk(s, w); StillRemembered(s, s', w); }
  }

  /** Locking and unlocking a queue by a running thread. */
  lemma LockChanged(s: State, w: nat, t: nat, l: LockState, s': State)
    requires Inv(s) && Runs(s, t) && Lockable(s, w, t) && s' == WithLock(s, w, l)
    requires l.Unlocked? || (l.Owned? && l.holder == t && l.depth > 0)
    ensures Inv(s')
  {
    assert QueueOk(s, w);
    forall t | t in s'.threads ensures ThreadOk(s', t) { assert ThreadOk(s, t); }
    forall c | c in s'.cores ensures CoreOk(s', c) { assert CoreOk(s, c); }
    forall v | v in s'.wqs ensures QueueOk(s', v) {
      assert QueueOk(s, v);
      if v != w { StillRemembered(s, s', v); }
    }
  }

  lemma WaitKeeps(s: State, t: nat, w: nat, s': State)
    requires Inv(s) && Enabled(s, Wait(t, w)) && s' == Do(s, Wait(t, w))
    ensures Inv(s')
  {
    assert ThreadOk(s, t) && QueueOk(s, w);
    forall u | u in s'.threads ensures ThreadOk(s', u) { WaitingThread(s, t, w, s', u); }
    forall c | c in s'.cores ensures CoreOk(s', c) { assert CoreOk(s, c); }
    forall v | v in s'.wqs ensures QueueOk(s', v) { WaitingQueue(s, t, w, s', v); }
  }

  lemma WaitingThread(s: State, t: nat, w: nat, s': State, u: nat)
    requires Inv(s) && Enabled(s, Wait(t, w)) && s' == Do(s, Wait(t, w)) && u in s.threads
    ensures ThreadOk(s', u)
  {
    assert ThreadOk(s, t) && ThreadOk(s, u) && QueueOk(s, w);
  }

  lemma WaitingQueue(s: State, t: nat, w: nat, s': State, v: nat)
    requires Inv(s) && Enabled(s, Wait(t, w)) && s' == Do(s, Wait(t, w)) && v in s.wqs
    ensures QueueOk(s', v)
  {
    assert ThreadOk(s, t) && QueueOk(s, v);
    if v != w { StillRemembered(s, s', v); }
  }

  /** A thread taken out of a wait queue whose lock is not handed over becomes ready: its context has
      been saved, for otherwise the lock would still be on its way through the switch. */
  lemma TakenOutKeeps(s: State, w: nat, u: nat, list: seq<nat>, s': State)
    requires Inv(s) && w in s.wqs && !s.wqs[w].lock.Handed? && u in s.threads && s.threads[u].wq == Some(w)
    requires NoDup(list) && forall x :: x in list <==> x in s.wqs[w].list && x != u
    requires s' == Readied(s.(wqs := s.wqs[w := s.wqs[w].(list := list)]), u, s.threads[u].(wq := None))
    ensures Inv(s') && !Executed(s, u)
  {
    assert ThreadOk(s, u) && QueueOk(s, w);
    ExecutedIffCore(s, u);
    forall t | t in s'.threads ensures ThreadOk(s', t) { assert ThreadOk(s, t); }
    forall c | c in s'.cores ensures CoreOk(s', c) { assert CoreOk(s, c); }
    forall v | v in s'.wqs ensures QueueOk(s', v) { assert QueueOk(s, v); StillRemembered(s, s', v); }
  }

  lemma InterruptKeeps(s: State, t: nat, s': State)
    requires Inv(s) && Enabled(s, TakeOut(t)) && !Slips(s, TakeOut(t)) && s' == Do(s, TakeOut(t))
    ensures Inv(s')
  {
    var (u, w) := s.threads[t].reading.value;
    var mid := With(s, t, s.threads[t].(reading := None));
    assert ThreadOk(s, t) && ThreadOk(s, u) && QueueOk(s, w);
    ThreadChanged(s, t, mid.threads[t], mid);
    assert QueueOk(mid, w);
    if u in s.wqs[w].list {
      WithoutNoDup(s.wqs[w].list, u);
      TakenOutKeeps(mid, w, u, Without(s.wqs[w].list, u), s');
    }
  }

  lemma SavedThread(s: State, c: nat, t: nat, s': State, u: nat)
    requires Inv(s) && Enabled(s, Save(c)) && !Slips(s, Save(c)) && t == s.cores[c].thread && s' == Saved(s, c, t)
    requires u in s.threads
    ensures ThreadOk(s', u)
  {
    assert CoreOk(s, c) && ThreadOk(s, t) && ThreadOk(s, u);
    assert u != t ==> s'.threads[u] == s.threads[u] && s'.rq[u] == s.rq[u];
  }

  /** Saving the context: a preempted thread goes back on a run queue, a blocked one stays where it has
      put itself. */
  lemma SaveKeeps(s: State, c: nat, s': State)
    requires Inv(s) && Enabled(s, Save(c)) && !Slips(s, Save(c)) && s' == Do(s, Save(c))
    ensures Inv(s') && !Executed(s', s.cores[c].thread)
  {
    var t := s.cores[c].thread;
    assert CoreOk(s, c) && ThreadOk(s, t);
    forall u | u in s'.threads ensures ThreadOk(s', u) { SavedThread(s, c, t, s', u); }
    forall d | d in s'.cores ensures CoreOk(s', d) { SavedCore(s, c, t, s', d); }
    forall v | v in s'.wqs ensures QueueOk(s', v) { SavedQueue(s, c, t, s', v); }
    ExecutedIffCore(s', t);
  }

  lemma SavedCore(s: State, c: nat, t: nat, s': State, d: nat)
    requires Inv(s) && Enabled(s, Save(c)) && t == s.cores[c].thread && s' == Saved(s, c, t) && d in s.cores
    ensures CoreOk(s', d)
  {
    assert CoreOk(s, c) && CoreOk(s, d) && ThreadOk(s, t);
  }

  lemma SavedQueue(s: State, c: nat, t: nat, s': State, v: nat)
    requires Inv(s) && Enabled(s, Save(c)) && t == s.cores[c].thread && s' == Saved(s, c, t) && v in s.wqs
    ensures QueueOk(s', v)
  {
    assert CoreOk(s, c) && ThreadOk(s, t) && QueueOk(s, v);
    StillRemembered(s, s', v);
  }

  /** Looking at the lock pointer changes nothing but what the core knows. */
  lemma SeeLockKeeps(s: State, c: nat, s': State)
    requires Inv(s) && Enabled(s, SeeLock(c)) && s' == Do(s, SeeLock(c))
    ensures Inv(s')
  {
    assert CoreOk(s, c) && ThreadOk(s, s.cores[c].thread);
    forall u | u in s'.threads ensures ThreadOk(s', u) { assert ThreadOk(s, u); }
    forall d | d in s'.cores ensures CoreOk(s', d) { assert CoreOk(s, d); }
    forall v | v in s'.wqs ensures QueueOk(s', v) { assert QueueOk(s, v); StillRemembered(s, s', v); }
  }

  /** The lock that travelled with a thread is released only after its context is saved. */
  lemma DropLockKeeps(s: State, c: nat, s': State)
    requires Inv(s) && Enabled(s, DropLock(c)) && !Slips(s, DropLock(c)) && s' == Do(s, DropLock(c))
    ensures Inv(s') && !Executed(s, s.cores[c].thread)
  {
    var t := s.cores[c].thread;
    assert CoreOk(s, c) && ThreadOk(s, t);
    ExecutedIffCore(s, t);
    forall u | u in s'.threads ensures ThreadOk(s', u) { assert ThreadOk(s, u); }
    forall d | d in s'.cores ensures CoreOk(s', d) { assert CoreOk(s, d); }
    forall v | v in s'.wqs ensures QueueOk(s', v) { DroppedQueue(s, c, s', v); }
  }

  lemma DroppedQueue(s: State, c: nat, s': State, v: nat)
    requires Inv(s) && Enabled(s, DropLock(c)) && !Slips(s, DropLock(c)) && s' == Do(s, DropLock(c)) && v in s.wqs
    ensures QueueOk(s', v)
  {
    assert QueueOk(s, v);
    if v != s.cores[c].phase.w && s.wqs[v].lock.Handed? {
      var t := s.wqs[v].lock.target;
      if s.threads[t].lock != Some(v) {
        var d :| Carries(s, d, t, v);
        assert Carries(s', d, t, v);
      }
    }
  }

  /** The pointer is cleared only when nobody needs it to release a lock. */
  lemma ForgetLockKeeps(s: State, c: nat, s': State)
    requires Inv(s) && Enabled(s, ForgetLock(c)) && !Slips(s, ForgetLock(c)) && s' == Do(s, ForgetLock(c))
    ensures Inv(s')
  {
    assert CoreOk(s, c);
    forall u | u in s'.threads ensures ThreadOk(s', u) { ForgottenThread(s, c, s', u); }
    forall d | d in s'.cores ensures CoreOk(s', d) { assert CoreOk(s, d); }
    forall v | v in s'.wqs ensures QueueOk(s', v) { ForgottenQueue(s, c, s', v); }
  }

  lemma ForgottenThread(s: State, c: nat, s': State, u: nat)
    requires Inv(s) && Enabled(s, ForgetLock(c)) && s' == Do(s, ForgetLock(c)) && u in s.threads
    ensures ThreadOk(s', u)
  {
    assert CoreOk(s, c) && ThreadOk(s, u);
  }

  lemma ForgottenQueue(s: State, c: nat, s': State, v: nat)
    requires Inv(s) && Enabled(s, ForgetLock(c)) && !Slips(s, ForgetLock(c)) && s' == Do(s, ForgetLock(c)) && v in s.wqs
    ensures QueueOk(s', v)
  {
    assert QueueOk(s, v);
    if s.wqs[v].lock.Handed? {
      var t := s.wqs[v].lock.target;
      if t == s.cores[c].thread || s.threads[t].lock != Some(v) {
        var d :| Carries(s, d, t, v);
        assert Carries(s', d, t, v);
      }
    }
  }

  lemma ClearKeeps(s: State, c: nat, s': State)
    requires Inv(s) && Enabled(s, Clear(c)) && !Slips(s, Clear(c)) && s' == Do(s, Clear(c))
    ensures Inv(s')
  {
    assert CoreOk(s, c);
    forall u | u in s'.threads ensures ThreadOk(s', u) { assert ThreadOk(s, u); }
    forall d | d in s'.cores ensures CoreOk(s', d) { ClearedCore(s, c, s', d); }
    forall v | v in s'.wqs ensures QueueOk(s', v) { ClearedQueue(s, c, s', v); }
  }

  lemma ClearedCore(s: State, c: nat, s': State, d: nat)
    requires Inv(s) && Enabled(s, Clear(c)) && !Slips(s, Clear(c)) && s' == Do(s, Clear(c)) && d in s.cores
    ensures CoreOk(s', d)
  {
    var t := s.cores[c].thread;
    assert CoreOk(s, c) && CoreOk(s, d) && ThreadOk(s, t);
    assert Leaves(s, d, t) && d != c ==> s.threads[t].state != Terminated;
  }

  lemma ClearedQueue(s: State, c: nat, s': State, v: nat)
    requires Inv(s) && Enabled(s, Clear(c)) && s' == Do(s, Clear(c)) && v in s.wqs
    ensures QueueOk(s', v)
  {
    assert QueueOk(s, v);
    StillRemembered(s, s', v);
  }

  /** A core takes up only a thread whose context is saved. */
  lemma PickKeeps(s: State, c: nat, t: nat, s': State)
    requires Inv(s) && CanPick(s, c, t) && s' == PickedUp(s, c, t)
    ensures Inv(s') && !Executed(s, t)
  {
    assert ThreadOk(s, t) && CoreOk(s, c);
    ExecutedIffCore(s, t);
    assert s.rq[t] <= 1 && (t in s.rq <==> s.threads[t].state == Ready);
    forall u | u in s'.threads ensures ThreadOk(s', u) { PickedThread(s, c, t, s', u); }
    forall d | d in s'.cores ensures CoreOk(s', d) { PickedCore(s, c, t, s', d); }
    forall v | v in s'.wqs ensures QueueOk(s', v) { PickedQueue(s, c, t, s', v); }
  }

  lemma PickedThread(s: State, c: nat, t: nat, s': State, u: nat)
    requires Inv(s) && CanPick(s, c, t) && s' == PickedUp(s, c, t) && u in s.threads
    ensures ThreadOk(s', u)
  {
    assert ThreadOk(s, t) && ThreadOk(s, u) && CoreOk(s, c);
    assert u != t ==> s'.rq[u] == s.rq[u];
  }

  lemma PickedCore(s: State, c: nat, t: nat, s': State, d: nat)
    requires Inv(s) && CanPick(s, c, t) && s' == PickedUp(s, c, t) && d in s.cores
    ensures CoreOk(s', d)
  {
    assert CoreOk(s, d) && ThreadOk(s, t);
  }

  lemma PickedQueue(s: State, c: nat, t: nat, s': State, v: nat)
    requires Inv(s) && CanPick(s, c, t) && s' == PickedUp(s, c, t) && v in s.wqs
    ensures QueueOk(s', v)
  {
    assert ThreadOk(s, t) && QueueOk(s, v);
    StillRemembered(s, s', v);
  }

  lemma BuryKeeps(s: State, t: nat, s': State)
    requires Inv(s) && Enabled(s, Bury(t)) && s' == Do(s, Bury(t))
    ensures Inv(s')
  {
    forall u | u in s'.threads ensures ThreadOk(s', u) { assert ThreadOk(s, u); }
    forall d | d in s'.cores ensures CoreOk(s', d) { assert CoreOk(s, d); }
    forall v | v in s'.wqs ensures QueueOk(s', v) { assert QueueOk(s, v); StillRemembered(s, s', v); }
  }

  /** A dead thread is freed only after its switch has cleared the yield flag: no core is still on it. */
  lemma ReapKeeps(s: State, s': State)
    requires Inv(s) && Enabled(s, Reap) && !Slips(s, Reap) && s' == Do(s, Reap)
    ensures Inv(s') && !Executed(s, s.dead[0]) && forall c :: !Leaves(s, c, s.dead[0])
  {
    var u := s.dead[0];
    NoDupTail(s.dead);
    assert ThreadOk(s, u);
    ExecutedIffCore(s, u);
    forall t | t in s'.threads ensures ThreadOk(s', t) { assert ThreadOk(s, t); }
    forall c | c in s'.cores ensures CoreOk(s', c) && !Leaves(s, c, u) { assert CoreOk(s, c) && !Lingers(s, c, u); }
    forall w | w in s'.wqs ensures QueueOk(s', w) { assert QueueOk(s, w); StillRemembered(s, s', w); }
  }

  lemma WakeKeeps(s: State, t: nat, w: nat, s': State)
    requires Inv(s) && Enabled(s, WakeOne(t, w)) && s' == Do(s, WakeOne(t, w))
    ensures Inv(s')
  {
    if s.wqs[w].list != [] {
      assert QueueOk(s, w);
      NoDupTail(s.wqs[w].list);
      TakenOutKeeps(s, w, s.wqs[w].list[0], s.wqs[w].list[1..], s');
    }
  }

  predicate QueueStep(step: Step) { step.Lock? || step.Unlock? || step.Wait? || step.WakeOne? || step.TakeOut? }

  predicate ReadyStep(step: Step) { step.Spawn? || step.SignalFinish? || step.TimerFire? }

  predicate OwnStep(step: Step) {
    || step.SetYield? || step.ReadQueue? || step.SigWait? || step.SignalStart? || step.Arm? || step.Doze? || step.Mark?
  }

  predicate DeadStep(step: Step) { step.Bury? || step.Reap? }

  lemma QueueStepKeeps(s: State, step: Step)
    requires Inv(s) && Enabled(s, step) && !Slips(s, step) && QueueStep(step)
    ensures Inv(Do(s, step))
  {
    match step
    case Lock(t, w) => LockChanged(s, w, t, Relocked(s.wqs[w].lock, t), Do(s, step));
    case Unlock(t, w) => LockChanged(s, w, t, Do(s, step).wqs[w].lock, Do(s, step));
    case Wait(t, w) => WaitKeeps(s, t, w, Do(s, step));
    case WakeOne(t, w) => WakeKeeps(s, t, w, Do(s, step));
    case TakeOut(t) => InterruptKeeps(s, t, Do(s, step));
  }

  lemma ReadyStepKeeps(s: State, step: Step)
    requires Inv(s) && Enabled(s, step) && !Slips(s, step) && ReadyStep(step)
    ensures Inv(Do(s, step))
  {
    match step
    case Spawn(t) => ReadiedKeeps(s, t, NewThread(), Do(s, step));
    case SignalFinish(u) => assert ThreadOk(s, u); ReadiedKeeps(s, u, s.threads[u].(spun := false), Do(s, step));
    case TimerFire(u) => assert ThreadOk(s, u); ReadiedKeeps(s, u, s.threads[u].(armed := false), Do(s, step));
  }

  /** Steps in which a thread, or a signaller, writes only fields of one thread. */
  lemma OwnStepKeeps(s: State, step: Step)
    requires Inv(s) && Enabled(s, step) && OwnStep(step)
    ensures Inv(Do(s, step))
  {
    var u := if step.SignalStart? then step.u else step.t;
    assert ThreadOk(s, u);
    ThreadChanged(s, u, Do(s, step).threads[u], Do(s, step));
  }

  lemma DeadStepKeeps(s: State, step: Step)
    requires Inv(s) && Enabled(s, step) && !Slips(s, step) && DeadStep(step)
    ensures Inv(Do(s, step))
  {
    match step
    case Bury(t) => BuryKeeps(s, t, Do(s, step));
    case Reap => ReapKeeps(s, Do(s, step));
  }

  lemma CoreStepKeeps(s: State, step: Step)
    requires Inv(s) && Enabled(s, step) && !Slips(s, step)
    requires !QueueStep(step) && !ReadyStep(step) && !OwnStep(step) && !DeadStep(step)
    ensures Inv(Do(s, step))
  {
    match step
    case Save(c) => SaveKeeps(s, c, Do(s, step));
    case SeeLock(c) => SeeLockKeeps(s, c, Do(s, step));
    case DropLock(c) => DropLockKeeps(s, c, Do(s, step));
    case ForgetLock(c) => ForgetLockKeeps(s, c, Do(s, step));
    case Clear(c) => ClearKeeps(s, c, Do(s, step));
    case Pick(c, t) => PickKeeps(s, c, t, Do(s, step));
  }

  lemma StepKeeps(s: State, step: Step)
    requires Inv(s) && Enabled(s, step) && !Slips(s, step)
    ensures Inv(Do(s, step))
  {
    if QueueStep(step) { QueueStepKeeps(s, step); }
    else if ReadyStep(step) { ReadyStepKeeps(s, step); }
    else if OwnStep(step) { OwnStepKeeps(s, step); }
    else if DeadStep(step) { DeadStepKeeps(s, step); }
    else { CoreStepKeeps(s, step); }
  }

  // ---- every step that slips makes the state unsafe --------------------------------------------------

  lemma SaveSlips(s: State, c: nat, s': State)
    requires Inv(s) && Enabled(s, Save(c)) && Slips(s, Save(c)) && s' == Do(s, Save(c))
    ensures !SafeAt(s', s.cores[c].thread)
  {
    var t := s.cores[c].thread;
    var th := s.threads[t];
    assert CoreOk(s, c) && ThreadOk(s, t);
    ExecutedIffCore(s, t);
    assert forall d: nat | Executes(s', d, t) :: Executes(s, d, t) && d != c;
    if th.state == Terminated {
      forall p ensures !IsAt(s', t, p) {
        if p.InWaitQueue? && p.w in s.wqs { assert QueueOk(s, p.w); }
      }
    } else {
      assert IsAt(s', t, RunQueue) && IsAt(s', t, OnTimer);
    }
  }

  lemma DropLockSlips(s: State, c: nat, s': State)
    requires Inv(s) && Enabled(s, DropLock(c)) && Slips(s, DropLock(c)) && s' == Do(s, DropLock(c))
    ensures !Safe(s')
  {
    var t, w := s.cores[c].thread, s.cores[c].phase.w;
    assert ThreadOk(s, t) && CoreOk(s, c) && QueueOk(s, w);
    if s.wqs[w].lock == Handed(t) {
      assert Executes(s', s.threads[t].core.value, t);
      assert !SafeAt(s', t);
    } else {
      assert !QueueSafe(s', w);
    }
  }

  lemma ForgetLockSlips(s: State, c: nat, s': State)
    requires Inv(s) && Enabled(s, ForgetLock(c)) && Slips(s, ForgetLock(c)) && s' == Do(s, ForgetLock(c))
    ensures !Safe(s')
  {
    var t := s.cores[c].thread;
    var w := s.threads[t].lock.value;
    assert forall d | Carries(s', d, t, w) :: Carries(s, d, t, w);
    assert !QueueSafe(s', w);
  }

  lemma ClearSlips(s: State, c: nat, s': State)
    requires Inv(s) && Enabled(s, Clear(c)) && Slips(s, Clear(c)) && s' == Do(s, Clear(c))
    ensures !Safe(s')
  {
    var t := s.cores[c].thread;
    assert ThreadOk(s, t) && CoreOk(s, c);
    if s.threads[t].core.Some? {
      assert Executes(s', s.threads[t].core.value, t);
    } else {
      var d :| d != c && Leaves(s, d, t);
      assert Leaves(s', d, t);
    }
    assert !SafeAt(s', t);
  }

  lemma TakeOutSlips(s: State, t: nat, s': State)
    requires Inv(s) && Enabled(s, TakeOut(t)) && Slips(s, TakeOut(t)) && s' == Do(s, TakeOut(t))
    ensures !Safe(s')
  {
    var (u, w) := s.threads[t].reading.value;
    assert Neighboured(With(s, t, s.threads[t].(reading := None)), u) <==> Neighboured(s, u);
    assert !s'.wqs[w].intact;
    assert !QueueSafe(s', w);
  }

  lemma StepSlips(s: State, step: Step)
    requires Inv(s) && Enabled(s, step) && Slips(s, step)
    ensures !Safe(Do(s, step))
  {
    var s' := Do(s, step);
    match step
    case Save(c) => SaveSlips(s, c, s'); assert s.cores[c].thread in s'.threads;
    case TimerFire(u) =>
      assert ThreadOk(s, u);
      assert Executes(s', s.threads[u].core.value, u) && u in s'.rq;
      assert !SafeAt(s', u);
    case DropLock(c) => DropLockSlips(s, c, s');
    case ForgetLock(c) => ForgetLockSlips(s, c, s');
    case Clear(c) => ClearSlips(s, c, s');
    case Reap =>
      var c :| Lingers(s, c, s.dead[0]);
      assert Lingers(s', c, s.dead[0]);
      assert !SafeAt(s', s.dead[0]);
    case TakeOut(t) => TakeOutSlips(s, t, s');
    case _ =>
  }

  // ---- whole runs ------------------------------------------------------------------------------------

  /** Every step of the run is enabled when its turn comes. */
  ghost predicate Possible(s: State, steps: seq<Step>)
    decreases |steps|
  {
    steps == [] || (Enabled(s, steps[0]) && Possible(Do(s, steps[0]), steps[1..]))
  }

  ghost function Run(s: State, steps: seq<Step>): State
    requires Possible(s, steps)
    decreases |steps|
  {
    if steps == [] then s else Run(Do(s, steps[0]), steps[1..])
  }

  /** The state is safe all the way. */
  ghost predicate AllSafe(s: State, steps: seq<Step>)
    requires Possible(s, steps)
    decreases |steps|
  {
    Safe(s) && (steps == [] || AllSafe(Do(s, steps[0]), steps[1..]))
  }

  /** No step comes at a wrong moment. */
  ghost predicate NoSlip(s: State, steps: seq<Step>)
    requires Possible(s, steps)
    decreases |steps|
  {
    steps == [] || (!Slips(s, steps[0]) && NoSlip(Do(s, steps[0]), steps[1..]))
  }

  /** The theorem over whole runs: whatever the cores, the wakers and the timer do, in any order, threads
      block and wake safely if and only if no step comes at one of the wrong moments. */
  lemma {:induction false} SafeBlocking(s: State, steps: seq<Step>)
    requires Inv(s) && Possible(s, steps)
    ensures AllSafe(s, steps) <==> NoSlip(s, steps)
    ensures NoSlip(s, steps) ==> Inv(Run(s, steps))
    decreases |steps|
  {
    InvIsSafe(s);
    if steps != [] {
      if Slips(s, steps[0]) {
        StepSlips(s, steps[0]);
      } else {
        StepKeeps(s, steps[0]);
        SafeBlocking(Do(s, steps[0]), steps[1..]);
      }
    }
  }

  /** The machine before any thread but the idle threads has been made. */
  ghost function Booted(cores: set<nat>, queues: set<nat>): State
  {
    State(map c | c in cores :: NewThread().(state := Sleeping, home := Some(c)),
          map c | c in cores :: Picking(None), multiset{},
          map w | w in queues :: WaitQueue(Unlocked, [], true, true), [])
  }

  lemma BootedIsSafe(cores: set<nat>, queues: set<nat>)
    ensures Inv(Booted(cores, queues))
  {
    var s := Booted(cores, queues);
    forall t | t in s.threads ensures ThreadOk(s, t) {}
    forall c | c in s.cores ensures CoreOk(s, c) {}
    forall w | w in s.wqs ensures QueueOk(s, w) {}
  }

  // ---- the order in a wait queue -----------------------------------------------------------------------

  /** What a step does to the list of a queue, if it interrupts nobody: one joins at the end, or the first leaves. */
  ghost function Queued(list: seq<nat>, step: Step, w: nat): seq<nat>
  {
    if step.Wait? && step.w == w then list + [step.t]
    else if step.WakeOne? && step.w == w && list != [] then list[1..] else list
  }

  lemma ListAfter(s: State, step: Step, w: nat)
    requires Enabled(s, step) && w in s.wqs && !step.TakeOut?
    ensures w in Do(s, step).wqs && Do(s, step).wqs[w].list == Queued(s.wqs[w].list, step, w)
  {
    if step.WakeOne? { ListAfterWake(s, step.t, step.w, w); }
    else if step.Save? { ListAfterSave(s, step.c, s.cores[step.c].thread); }
    else if step.SeeLock? || step.DropLock? || step.ForgetLock? || step.Clear? { ListAfterHandover(s, step, w); }
  }

  lemma ListAfterWake(s: State, t: nat, v: nat, w: nat)
    requires Enabled(s, WakeOne(t, v)) && w in s.wqs
    ensures w in Do(s, WakeOne(t, v)).wqs
    ensures Do(s, WakeOne(t, v)).wqs[w].list == Queued(s.wqs[w].list, WakeOne(t, v), w)
  {
  }

  lemma ListAfterSave(s: State, c: nat, t: nat)
    requires t in s.threads
    ensures Saved(s, c, t).wqs == s.wqs
  {
  }

  lemma ListAfterHandover(s: State, step: Step, w: nat)
    requires Enabled(s, step) && w in s.wqs
    requires step.SeeLock? || step.DropLock? || step.ForgetLock? || step.Clear?
    ensures w in Do(s, step).wqs && Do(s, step).wqs[w].list == s.wqs[w].list
  {
  }

  /** The threads that a run lets into queue `w`, and those it wakes there, each in order. */
  ghost function Joined(steps: seq<Step>, w: nat): seq<nat>
  {
    if steps == [] then [] else Comes(steps[0], w) + Joined(steps[1..], w)
  }

  ghost function Comes(step: Step, w: nat): seq<nat> { if step.Wait? && step.w == w then [step.t] else [] }

  ghost function Woken(s: State, steps: seq<Step>, w: nat): seq<nat>
    requires Possible(s, steps)
    decreases |steps|
  {
    if steps == [] then []
    else FirstLeft(ListOf(s, w), ListOf(Do(s, steps[0]), w)) + Woken(Do(s, steps[0]), steps[1..], w)
  }

  ghost function ListOf(s: State, w: nat): seq<nat> { if w in s.wqs then s.wqs[w].list else [] }

  /** Those by which a list has become shorter. */
  ghost function FirstLeft(list: seq<nat>, list': seq<nat>): seq<nat>
  {
    if |list'| < |list| then list[..|list| - |list'|] else []
  }

  /** First come, first served: in a run in which nobody is interrupted, those woken from a queue and then those
      still in it are those who were in it and then those who came, in the same order. */
  lemma {:induction false} WokenInOrder(s: State, steps: seq<Step>, w: nat)
    requires Possible(s, steps) && w in s.wqs && forall i | 0 <= i < |steps| :: !steps[i].TakeOut?
    ensures w in Run(s, steps).wqs
    ensures Woken(s, steps, w) + ListOf(Run(s, steps), w) == ListOf(s, w) + Joined(steps, w)
    decreases |steps|, 1
  {
    if steps != [] {
      ListAfter(s, steps[0], w);
      ThenTheRest(s, Do(s, steps[0]), steps, w);
    }
  }

  lemma {:induction false} ThenTheRest(s: State, s': State, steps: seq<Step>, w: nat)
    requires steps != [] && Possible(s', steps[1..]) && forall i | 0 <= i < |steps| :: !steps[i].TakeOut?
    requires w in s'.wqs && ListOf(s', w) == Queued(ListOf(s, w), steps[0], w)
    ensures w in Run(s', steps[1..]).wqs
    ensures FirstLeft(ListOf(s, w), ListOf(s', w)) + Woken(s', steps[1..], w) + ListOf(Run(s', steps[1..]), w)
         == ListOf(s, w) + Joined(steps, w)
    decreases |steps|, 0
  {
    WokenInOrder(s', steps[1..], w);
    Balanced(ListOf(s, w), steps[0], w);
    Regroup(FirstLeft(ListOf(s, w), ListOf(s', w)), ListOf(s', w), ListOf(s, w), Comes(steps[0], w),
      Joined(steps[1..], w), Woken(s', steps[1..], w), ListOf(Run(s', steps[1..]), w));
  }

  lemma Balanced(list: seq<nat>, step: Step, w: nat)
    ensures FirstLeft(list, Queued(list, step, w)) + Queued(list, step, w) == list + Comes(step, w)
  {
  }

  lemma Regroup(left: seq<nat>, list': seq<nat>, list: seq<nat>, came: seq<nat>, more: seq<nat>, woken: seq<nat>,
      last: seq<nat>)
    requires left + list' == list + came && woken + last == list' + more
    ensures left + woken + last == list + (came + more)
  {
    assert left + woken + last == left + (woken + last);
    assert left + (list' + more) == (left + list') + more;
    assert (list + came) + more == list + (came + more);
  }

  // ---- signals ---------------------------------------------------------------------------------------

  /** The signal words of a thread: one sent and not yet seen, and one waited for. Nothing but a wait of the
      thread itself and a signal to it touches them. */
  ghost predicate Signals(s: State, u: nat, recv: bool, wait: bool)
  {
    u in s.threads && s.threads[u].recv == recv && s.threads[u].wait == wait
  }

  lemma OthersSignals(s: State, step: Step, u: nat)
    requires Enabled(s, step) && u in s.threads && step != SigWait(u) && step != SignalStart(u)
    ensures Signals(Do(s, step), u, s.threads[u].recv, s.threads[u].wait)
  {
    if QueueStep(step) { QueueSignals(s, step, u); }
    else if ReadyStep(step) { ReadySignals(s, step, u); }
    else if OwnStep(step) { OwnSignals(s, step, u); }
    else if DeadStep(step) { DeadSignals(s, step, u); }
    else if step.Save? { SavedSignals(s, step.c, s.cores[step.c].thread, u); }
    else if !step.Pick? { HandoverSignals(s, step, u); }
  }

  lemma QueueSignals(s: State, step: Step, u: nat)
    requires Enabled(s, step) && u in s.threads && QueueStep(step)
    ensures Signals(Do(s, step), u, s.threads[u].recv, s.threads[u].wait)
  {
    if step.TakeOut? {
      var t := step.t;
      var (v, w) := s.threads[t].reading.value;
      RemovedSignals(With(s, t, s.threads[t].(reading := None)), v, w, u);
    } else if step.WakeOne? {
      WakeOneSignals(s, step.t, step.w, u);
    }
  }

  lemma RemovedSignals(s: State, v: nat, w: nat, u: nat)
    requires v in s.threads && w in s.wqs && u in s.threads
    ensures Signals(Removed(s, v, w), u, s.threads[u].recv, s.threads[u].wait)
  {
  }

  lemma WakeOneSignals(s: State, t: nat, w: nat, u: nat)
    requires Enabled(s, WakeOne(t, w)) && u in s.threads
    ensures Signals(Do(s, WakeOne(t, w)), u, s.threads[u].recv, s.threads[u].wait)
  {
  }

  lemma ReadySignals(s: State, step: Step, u: nat)
    requires Enabled(s, step) && u in s.threads && ReadyStep(step)
    ensures Signals(Do(s, step), u, s.threads[u].recv, s.threads[u].wait)
  {
  }

  lemma OwnSignals(s: State, step: Step, u: nat)
    requires Enabled(s, step) && u in s.threads && OwnStep(step) && step != SigWait(u) && step != SignalStart(u)
    ensures Signals(Do(s, step), u, s.threads[u].recv, s.threads[u].wait)
  {
  }

  lemma DeadSignals(s: State, step: Step, u: nat)
    requires Enabled(s, step) && u in s.threads && DeadStep(step)
    ensures Signals(Do(s, step), u, s.threads[u].recv, s.threads[u].wait)
  {
  }

  lemma SavedSignals(s: State, c: nat, t: nat, u: nat)
    requires t in s.threads && u in s.threads
    ensures Signals(Saved(s, c, t), u, s.threads[u].recv, s.threads[u].wait)
  {
  }

  lemma HandoverSignals(s: State, step: Step, u: nat)
    requires Enabled(s, step) && u in s.threads
    requires step.SeeLock? || step.DropLock? || step.ForgetLock? || step.Clear?
    ensures Signals(Do(s, step), u, s.threads[u].recv, s.threads[u].wait)
  {
  }

  /** Until the thread waits, a signal stays. */
  lemma {:induction false} SignalStays(s: State, steps: seq<Step>, u: nat)
    requires Possible(s, steps) && u in s.threads && !s.threads[u].wait && SigWait(u) !in steps
    ensures Signals(Run(s, steps), u, s.threads[u].recv || SignalStart(u) in steps, false)
    decreases |steps|
  {
    if steps != [] {
      assert steps == [steps[0]] + steps[1..];
      if steps[0] != SignalStart(u) { OthersSignals(s, steps[0], u); }
      SignalStays(Do(s, steps[0]), steps[1..], u);
    }
  }

  /** No signal is lost. A thread that does not wait now is blocked by its next wait if and only if no
      signal was left and none is sent to it until then; and the wait uses the signal up. */
  lemma SignalBeforeWait(s: State, steps: seq<Step>, u: nat)
    requires Possible(s, steps) && u in s.threads && !s.threads[u].wait && SigWait(u) !in steps
    requires Enabled(Run(s, steps), SigWait(u))
    ensures var r := Do(Run(s, steps), SigWait(u));
            var sent := s.threads[u].recv || SignalStart(u) in steps;
            && u in r.threads && r.threads[u].state == (if sent then Running else Blocking)
            && Signals(r, u, false, !sent)
  {
    SignalStays(s, steps, u);
  }

  /** And a thread that waits is let go by the first signal, and by nothing else. */
  lemma {:induction false} SignalAfterWait(s: State, steps: seq<Step>, u: nat)
    requires Possible(s, steps) && u in s.threads && s.threads[u].wait && SigWait(u) !in steps
    ensures u in Run(s, steps).threads && (Run(s, steps).threads[u].wait <==> SignalStart(u) !in steps)
    decreases |steps|
  {
    if steps != [] {
      assert steps == [steps[0]] + steps[1..];
      if steps[0] == SignalStart(u) {
        SignalStays(Do(s, steps[0]), steps[1..], u);
      } else {
        OthersSignals(s, steps[0], u);
        SignalAfterWait(Do(s, steps[0]), steps[1..], u);
      }
    }
  }

  // ---- runs that slip --------------------------------------------------------------------------------

  /** The core on which a running thread runs. */
  ghost function CoreOf(s: State, t: nat): nat
    requires t in s.threads
  {
    if s.threads[t].core.Some? then s.threads[t].core.value else 0
  }

  /** Running threads without a queue lock can be switched away from. */
  lemma CanSave(s: State, t: nat)
    requires Inv(s) && Runs(s, t) && !Owner(s, t)
    ensures Executes(s, CoreOf(s, t), t) && Enabled(s, Save(CoreOf(s, t)))
  {
    assert ThreadOk(s, t);
  }

  /** In no list, waiting for nothing, and dead. */
  ghost predicate Lost(s: State, t: nat)
  {
    && t in s.threads && s.threads[t].state == Terminated && s.threads[t].core.None? && s.threads[t].home.None?
    && !s.threads[t].wait && !s.threads[t].spun && !s.threads[t].armed
    && t !in s.rq && t !in s.dead && forall w | w in s.wqs :: t !in s.wqs[w].list
  }

  /** `thread_exit` preempted between the state and the list: the thread is nowhere. */
  lemma ExitPreempted(s: State, t: nat)
    requires Inv(s) && Enabled(s, Mark(t))
    ensures var steps := [Mark(t), Save(CoreOf(s, t))];
            && Possible(s, steps) && Lost(Run(s, steps), t)
            && forall p :: !IsAt(Run(s, steps), t, p)
  {
    var c := CoreOf(s, t);
    CanSave(s, t);
    assert ThreadOk(s, t);
    var s1 := Do(s, Mark(t));
    assert Owner(s1, t) <==> Owner(s, t);
    TwoSteps(s, Mark(t), Save(c));
    MarkedIsLost(s, t, c, Do(s1, Save(c)));
  }

  lemma MarkedIsLost(s: State, t: nat, c: nat, s': State)
    requires Inv(s) && Runs(s, t) && s.threads[t].core == Some(c)
    requires s' == Saved(With(s, t, s.threads[t].(state := Terminated, yielding := true)), c, t)
    ensures Lost(s', t) && forall p :: !IsAt(s', t, p)
  {
    assert ThreadOk(s, t);
    ExecutedIffCore(s, t);
    forall w | w in s'.wqs ensures t !in s'.wqs[w].list { assert QueueOk(s, w); }
    forall d: nat ensures !Executes(s', d, t) { assert d != c ==> (Executes(s', d, t) <==> Executes(s, d, t)); }
  }

  lemma TwoSteps(s: State, a: Step, b: Step)
    requires Enabled(s, a) && Enabled(Do(s, a), b)
    ensures Possible(s, [a, b]) && Run(s, [a, b]) == Do(Do(s, a), b)
  {
    assert [a, b][1..] == [b] && [b][1..] == [];
    assert Possible(Do(Do(s, a), b), []);
    assert Possible(Do(s, a), [b]) && Run(Do(s, a), [b]) == Do(Do(s, a), b);
  }

  lemma ThreeSteps(s: State, a: Step, b: Step, c: Step)
    requires Enabled(s, a) && Enabled(Do(s, a), b) && Enabled(Do(Do(s, a), b), c)
    ensures Possible(s, [a, b, c]) && Run(s, [a, b, c]) == Do(Do(Do(s, a), b), c)
  {
    TwoSteps(Do(s, a), b, c);
    assert [a, b, c][1..] == [b, c];
  }

  lemma FourSteps(s: State, a: Step, b: Step, c: Step, d: Step)
    requires Enabled(s, a) && Enabled(Do(s, a), b) && Enabled(Do(Do(s, a), b), c)
    requires Enabled(Do(Do(Do(s, a), b), c), d)
    ensures Possible(s, [a, b, c, d]) && Run(s, [a, b, c, d]) == Do(Do(Do(Do(s, a), b), c), d)
  {
    ThreeSteps(Do(s, a), b, c, d);
    assert [a, b, c, d][1..] == [b, c, d];
  }

  /** The timer of `thread_sleep` fires before the core is left: the thread is queued while it runs. */
  lemma SleepTimerTooEarly(s: State, t: nat)
    requires Inv(s) && Enabled(s, Arm(t))
    ensures var steps := [Arm(t), Doze(t), TimerFire(t)];
            Possible(s, steps) && t in Run(s, steps).rq && Executed(Run(s, steps), t)
  {
    var s1 := Do(s, Arm(t));
    assert ThreadOk(s, t);
    assert Owner(s1, t) <==> Owner(s, t);
    ThreeSteps(s, Arm(t), Doze(t), TimerFire(t));
    assert Executes(Run(s, [Arm(t), Doze(t), TimerFire(t)]), CoreOf(s, t), t);
  }

  /** `thread_sleep` preempted between the timer and the state: the timer queues the thread again. */
  lemma SleepPreempted(s: State, t: nat)
    requires Inv(s) && Enabled(s, Arm(t))
    ensures var steps := [Arm(t), Save(CoreOf(s, t)), TimerFire(t)];
            Possible(s, steps) && Run(s, steps).rq[t] == 2
  {
    var s1 := Do(s, Arm(t));
    assert ThreadOk(s, t);
    assert Owner(s1, t) <==> Owner(s, t);
    ThreeSteps(s, Arm(t), Save(CoreOf(s, t)), TimerFire(t));
  }

  /** A preempted thread goes to sleep on another core before its old core has finished the switch: the
      old core releases the lock of the wait queue while the thread still executes. */
  lemma LateRelease(s: State, t: nat, c: nat, d: nat, w: nat)
    requires Inv(s) && Switching(s, c, AtLock) && Resumable(s, t, c, d) && w in s.wqs && s.wqs[w].lock.Unlocked?
    ensures var steps := [Pick(d, t), Wait(t, w), SeeLock(c), DropLock(c)];
            Possible(s, steps) && var r := Run(s, steps);
            Executes(r, d, t) && w in r.wqs && t in r.wqs[w].list && r.wqs[w].lock.Unlocked?
  {
    WaitsElsewhere(s, t, c, d, w);
    var s2 := Do(Do(s, Pick(d, t)), Wait(t, w));
    TwoSteps(s2, SeeLock(c), DropLock(c));
    FourSteps(s, Pick(d, t), Wait(t, w), SeeLock(c), DropLock(c));
  }

  /** Thread `t` is queued to run, core `c` has not finished the switch away from it, and core `d` looks for a
      thread. */
  ghost predicate Resumable(s: State, t: nat, c: nat, d: nat)
  {
    && c in s.cores && s.cores[c].Leaving? && s.cores[c].thread == t && t in s.rq && t in s.threads
    && s.threads[t].home.None? && s.threads[t].reading.None? && !Owner(s, t) && d in s.cores && s.cores[d].Picking?
  }

  lemma CanWait(s: State, t: nat, c: nat, d: nat, w: nat)
    requires Inv(s) && Resumable(s, t, c, d) && w in s.wqs && s.wqs[w].lock.Unlocked?
    ensures Enabled(s, Pick(d, t)) && Enabled(Do(s, Pick(d, t)), Wait(t, w))
  {
    assert ThreadOk(s, t);
    var s1 := Do(s, Pick(d, t));
    assert s1.wqs == s.wqs;
    assert forall v | v in s.wqs && s.wqs[v].lock.Owned? :: s.wqs[v].lock.holder != t;
    assert !OwnerBut(s1, t, w);
  }

  /** What the thread then has done on core `d` when its old core goes on. */
  lemma WaitsElsewhere(s: State, t: nat, c: nat, d: nat, w: nat)
    requires Inv(s) && Resumable(s, t, c, d) && w in s.wqs && s.wqs[w].lock.Unlocked?
    ensures Enabled(s, Pick(d, t)) && Enabled(Do(s, Pick(d, t)), Wait(t, w))
    ensures var s2 := Do(Do(s, Pick(d, t)), Wait(t, w));
            && s2.cores == s.cores[d := Exec(t)] && c != d && s2.threads.Keys == s.threads.Keys
            && (forall u | u in s.threads && u != t :: s2.threads[u] == s.threads[u])
            && s2.threads[t].lock == Some(w) && w in s2.wqs && s2.wqs[w].lock == Handed(t) && t in s2.wqs[w].list
  {
    CanWait(s, t, c, d, w);
    var s2 := Do(Do(s, Pick(d, t)), Wait(t, w));
    assert s2.wqs[w].list == s.wqs[w].list + [t];
  }

  /** Two cores have found the same lock at the same thread: the second one releases it under a thread that has
      taken it since. */
  lemma ReleasedTwice(s: State, t: nat, c: nat, d: nat, w: nat, v: nat)
    requires Inv(s) && c != d && Carries(s, c, t, w) && Carries(s, d, t, w) && t in s.threads
    requires w in s.wqs && s.wqs[w].lock == Handed(t) && s.threads[t].core.None? && Runs(s, v)
    ensures var steps := [DropLock(c), Lock(v, w), DropLock(d)];
            && Possible(s, steps) && !Slips(s, DropLock(c))
            && Runs(Run(s, steps), v) && w in Run(s, steps).wqs && Run(s, steps).wqs[w].lock.Unlocked?
            && !Run(s, steps).wqs[w].honest
  {
    ThreeSteps(s, DropLock(c), Lock(v, w), DropLock(d));
  }

  /** A core clears the lock pointer late: the thread has been woken, runs on another core and has gone to
      sleep in queue `w`. The lock of `w` is then known to nobody who could release it. */
  lemma LateForget(s: State, t: nat, c: nat, d: nat, w: nat)
    requires Inv(s) && Switching(s, c, Dropped) && Resumable(s, t, c, d) && w in s.wqs && s.wqs[w].lock.Unlocked?
    requires Unknown(s, w)
    ensures var steps := [Pick(d, t), Wait(t, w), ForgetLock(c)];
            Possible(s, steps) && Stuck(Run(s, steps), w)
  {
    WaitsElsewhere(s, t, c, d, w);
    ThreeSteps(s, Pick(d, t), Wait(t, w), ForgetLock(c));
    ForgotIsStuck(s, Do(Do(s, Pick(d, t)), Wait(t, w)), t, c, d, w);
  }

  lemma ForgotIsStuck(s: State, s2: State, t: nat, c: nat, d: nat, w: nat)
    requires Unknown(s, w) && w in s2.wqs && s2.wqs[w].lock == Handed(t) && Enabled(s2, ForgetLock(c))
    requires s2.cores == s.cores[d := Exec(t)] && s2.cores[c].thread == t && s2.threads.Keys == s.threads.Keys
    requires forall u | u in s.threads && u != t :: s2.threads[u] == s.threads[u]
    ensures Stuck(Do(s2, ForgetLock(c)), w)
  {
  }

  /** No thread points to the lock of `w`, and no core is about to release it. */
  ghost predicate Unknown(s: State, w: nat)
  {
    && (forall t | t in s.threads :: s.threads[t].lock != Some(w))
    && (forall c | c in s.cores && s.cores[c].Leaving? :: s.cores[c].phase != Holding(w))
  }

  ghost predicate Stuck(s: State, w: nat) { w in s.wqs && s.wqs[w].lock.Handed? && Unknown(s, w) }

  /** Such a lock is never free again, in any run: nobody gets into the queue, or out of it. */
  lemma {:induction false} StuckForever(s: State, steps: seq<Step>, w: nat)
    requires Possible(s, steps) && Stuck(s, w)
    ensures Stuck(Run(s, steps), w) && Run(s, steps).wqs[w] == s.wqs[w]
    decreases |steps|
  {
    if steps != [] {
      StuckStep(s, steps[0], w);
      StuckForever(Do(s, steps[0]), steps[1..], w);
    }
  }

  lemma StuckStep(s: State, step: Step, w: nat)
    requires Enabled(s, step) && Stuck(s, w)
    ensures Stuck(Do(s, step), w) && Do(s, step).wqs[w] == s.wqs[w]
  {
    if QueueStep(step) { StuckQueueStep(s, step, w); }
    else if ReadyStep(step) { StuckReadyStep(s, step, w); }
    else if OwnStep(step) { StuckOwnStep(s, step, w); }
    else if step.Save? || step.Pick? { StuckSwitch(s, step, w); }
    else if !DeadStep(step) { StuckHandover(s, step, w); }
  }

  lemma StuckQueueStep(s: State, step: Step, w: nat)
    requires Enabled(s, step) && Stuck(s, w) && QueueStep(step)
    ensures Stuck(Do(s, step), w) && Do(s, step).wqs[w] == s.wqs[w]
  {
    if step.TakeOut? { StuckTakeOut(s, step.t, w); }
    else if step.WakeOne? { StuckWakeOne(s, step.t, step.w, w); }
  }

  lemma StuckTakeOut(s: State, t: nat, w: nat)
    requires Enabled(s, TakeOut(t)) && Stuck(s, w)
    ensures Stuck(Do(s, TakeOut(t)), w) && Do(s, TakeOut(t)).wqs[w] == s.wqs[w]
  {
    var (u, v) := s.threads[t].reading.value;
    StuckRemoved(With(s, t, s.threads[t].(reading := None)), u, v, w);
  }

  lemma StuckRemoved(s: State, u: nat, v: nat, w: nat)
    requires u in s.threads && v in s.wqs && v != w && Stuck(s, w)
    ensures Stuck(Removed(s, u, v), w) && Removed(s, u, v).wqs[w] == s.wqs[w]
  {
  }

  lemma StuckWakeOne(s: State, t: nat, v: nat, w: nat)
    requires Enabled(s, WakeOne(t, v)) && Stuck(s, w)
    ensures Stuck(Do(s, WakeOne(t, v)), w) && Do(s, WakeOne(t, v)).wqs[w] == s.wqs[w]
  {
  }

  lemma StuckReadyStep(s: State, step: Step, w: nat)
    requires Enabled(s, step) && Stuck(s, w) && ReadyStep(step)
    ensures Stuck(Do(s, step), w) && Do(s, step).wqs[w] == s.wqs[w]
  {
  }

  lemma StuckOwnStep(s: State, step: Step, w: nat)
    requires Enabled(s, step) && Stuck(s, w) && OwnStep(step)
    ensures Stuck(Do(s, step), w) && Do(s, step).wqs[w] == s.wqs[w]
  {
  }

  lemma StuckSwitch(s: State, step: Step, w: nat)
    requires Enabled(s, step) && Stuck(s, w) && (step.Save? || step.Pick?)
    ensures Stuck(Do(s, step), w) && Do(s, step).wqs[w] == s.wqs[w]
  {
  }

  lemma StuckHandover(s: State, step: Step, w: nat)
    requires Enabled(s, step) && Stuck(s, w)
    requires step.SeeLock? || step.DropLock? || step.ForgetLock? || step.Clear?
    ensures Stuck(Do(s, step), w) && Do(s, step).wqs[w] == s.wqs[w]
  {
  }

  /** A core clears the yield flag late: a signaller no longer waits for the second switch. */
  lemma LateClear(s: State, t: nat, c: nat, d: nat)
    requires Inv(s) && Switching(s, c, AtFlag) && Resumable(s, t, c, d) && !s.threads[t].recv
    ensures var steps := [Pick(d, t), SigWait(t), Clear(c)];
            Possible(s, steps) && var r := Run(s, steps);
            Executes(r, d, t) && t in r.threads && r.threads[t].wait && !r.threads[t].yielding
  {
    assert ThreadOk(s, t);
    var s1 := Do(s, Pick(d, t));
    assert Owner(s1, t) <==> Owner(s, t);
    ThreeSteps(s, Pick(d, t), SigWait(t), Clear(c));
  }

  /** The same between the two looks of `acquire_mutex` at the flag. This run is safe as far as blocking goes,
      but the thread does not block. */
  lemma ClearedMark(s: State, t: nat, c: nat, d: nat, w: nat)
    requires Inv(s) && Switching(s, c, AtFlag) && Resumable(s, t, c, d) && w in s.wqs && s.wqs[w].lock.Unlocked?
    ensures var steps := [Pick(d, t), Lock(t, w), SetYield(t, true), Clear(c)];
            && Possible(s, steps) && NoSlip(s, steps)
            && var r := Run(s, steps);
               Runs(r, t) && w in r.wqs && r.wqs[w].lock == Owned(t, 1) && !r.threads[t].yielding
  {
    CanWait(s, t, c, d, w);
    Locked(s, t, c, d, w);
    var s2 := Do(Do(s, Pick(d, t)), Lock(t, w));
    MarkAndClear(s2, t, c, w);
    FourSteps(s, Pick(d, t), Lock(t, w), SetYield(t, true), Clear(c));
    NoFourSlips(s, Pick(d, t), Lock(t, w), SetYield(t, true), Clear(c));
  }

  lemma Locked(s: State, t: nat, c: nat, d: nat, w: nat)
    requires Inv(s) && Resumable(s, t, c, d) && w in s.wqs && s.wqs[w].lock.Unlocked?
    requires Enabled(s, Pick(d, t)) && Enabled(Do(s, Pick(d, t)), Wait(t, w))
    ensures Enabled(Do(s, Pick(d, t)), Lock(t, w))
    ensures var s2 := Do(Do(s, Pick(d, t)), Lock(t, w));
            Runs(s2, t) && w in s2.wqs && s2.wqs[w].lock == Owned(t, 1) && s2.cores == s.cores[d := Exec(t)] && c != d
  {
  }

  lemma MarkAndClear(s: State, t: nat, c: nat, w: nat)
    requires Runs(s, t) && w in s.wqs && s.wqs[w].lock == Owned(t, 1) && Switching(s, c, AtFlag)
    requires s.cores[c].thread == t
    ensures Enabled(s, SetYield(t, true))
    ensures var s' := Do(s, SetYield(t, true));
            && Enabled(s', Clear(c)) && !Slips(s', Clear(c))
            && var r := Do(s', Clear(c));
               Runs(r, t) && w in r.wqs && r.wqs[w].lock == Owned(t, 1) && !r.threads[t].yielding
  {
    assert Owner(s, t);
  }

  lemma NoFourSlips(s: State, a: Step, b: Step, c: Step, d: Step)
    requires Enabled(s, a) && Enabled(Do(s, a), b) && Enabled(Do(Do(s, a), b), c)
    requires Enabled(Do(Do(Do(s, a), b), c), d) && Possible(s, [a, b, c, d])
    requires !Slips(s, a) && !Slips(Do(s, a), b) && !Slips(Do(Do(s, a), b), c) && !Slips(Do(Do(Do(s, a), b), c), d)
    ensures NoSlip(s, [a, b, c, d])
  {
    assert [a, b, c, d][1..] == [b, c, d] && [b, c, d][1..] == [c, d] && [c, d][1..] == [d] && [d][1..] == [];
    var s3 := Do(Do(Do(s, a), b), c);
    assert NoSlip(Do(s3, d), []);
    assert NoSlip(s3, [d]);
    assert NoSlip(Do(Do(s, a), b), [c, d]);
  }

  /** A dead thread is freed while it is still the current thread of the core that has left it. */
  lemma ReapedCurrent(s: State, t: nat, c: nat)
    requires Inv(s) && Switching(s, c, AtFlag) && s.cores[c].thread == t && s.dead != [] && s.dead[0] == t
    ensures var steps := [Clear(c), Reap];
            && Possible(s, steps) && t in Run(s, steps).threads && Run(s, steps).threads[t].state == Freed
            && Lingers(Run(s, steps), c, t)
  {
    TwoSteps(s, Clear(c), Reap);
  }

  /** A thread seen in queue `w` enters queue `v` before it is taken out: it is queued to run while it
      still executes, and `w` loses count. */
  lemma StaleInterrupt(s: State, t: nat, u: nat, w: nat, v: nat)
    requires Inv(s) && Enabled(s, TakeOut(t)) && s.threads[t].reading == Some((u, w))
    requires Runs(s, u) && !Owner(s, u) && v in s.wqs && v != w && s.wqs[v].lock.Unlocked? && s.wqs[v].list != []
    ensures var steps := [Wait(u, v), TakeOut(t)];
            Possible(s, steps) && var r := Run(s, steps);
            u in r.rq && Executed(r, u) && w in r.wqs && !r.wqs[w].intact
  {
    assert ThreadOk(s, u) && QueueOk(s, w);
    assert forall x | x in s.wqs && s.wqs[x].lock.Owned? :: s.wqs[x].lock.holder != u;
    assert !OwnerBut(s, u, v);
    var s1 := Do(s, Wait(u, v));
    TwoSteps(s, Wait(u, v), TakeOut(t));
    var s2 := With(s1, t, s1.threads[t].(reading := None));
    assert s2.wqs[v].list == s.wqs[v].list + [u];
    assert Neighboured(s2, u);
    assert Executes(Do(s1, TakeOut(t)), CoreOf(s, u), u);
  }

  /** No step finds such a thread again: it is never freed. */
  lemma {:induction false} LostForever(s: State, steps: seq<Step>, t: nat)
    requires Possible(s, steps) && Lost(s, t)
    ensures Lost(Run(s, steps), t)
    decreases |steps|
  {
    if steps != [] {
      LostStep(s, steps[0], t);
      LostForever(Do(s, steps[0]), steps[1..], t);
    }
  }

  lemma LostStep(s: State, step: Step, t: nat)
    requires Enabled(s, step) && Lost(s, t)
    ensures Lost(Do(s, step), t)
  {
    if QueueStep(step) { LostQueueStep(s, step, t); }
    else if ReadyStep(step) { LostReadyStep(s, step, t); }
    else if OwnStep(step) { LostOwnStep(s, step, t); }
    else if step.Save? { LostSave(s, step, t); }
    else if step.Pick? { LostPick(s, step, t); }
  }

  lemma LostQueueStep(s: State, step: Step, t: nat)
    requires Enabled(s, step) && Lost(s, t) && QueueStep(step)
    ensures Lost(Do(s, step), t)
  {
    if step.WakeOne? { LostWakeOne(s, step.t, step.w, t); }
    else if step.TakeOut? { LostTakeOut(s, step.t, t); }
  }

  lemma LostWakeOne(s: State, u: nat, w: nat, t: nat)
    requires Enabled(s, WakeOne(u, w)) && Lost(s, t)
    ensures Lost(Do(s, WakeOne(u, w)), t)
  {
    if s.wqs[w].list != [] { assert s.wqs[w].list[0] in s.wqs[w].list; }
  }

  lemma LostTakeOut(s: State, u: nat, t: nat)
    requires Enabled(s, TakeOut(u)) && Lost(s, t)
    ensures Lost(Do(s, TakeOut(u)), t)
  {
  }

  lemma LostReadyStep(s: State, step: Step, t: nat)
    requires Enabled(s, step) && Lost(s, t) && ReadyStep(step)
    ensures Lost(Do(s, step), t)
  {
  }

  lemma LostOwnStep(s: State, step: Step, t: nat)
    requires Enabled(s, step) && Lost(s, t) && OwnStep(step)
    ensures Lost(Do(s, step), t)
  {
  }

  lemma LostSave(s: State, step: Step, t: nat)
    requires Enabled(s, step) && Lost(s, t) && step.Save?
    ensures Lost(Do(s, step), t)
  {
  }

  lemma LostPick(s: State, step: Step, t: nat)
    requires Enabled(s, step) && Lost(s, t) && step.Pick?
    ensures Lost(Do(s, step), t)
  {
  }
}
