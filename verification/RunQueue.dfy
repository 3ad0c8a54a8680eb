/**
 The variable-frequency run queue of kernel/sched/scheduler.c: nine slots for standard threads, an
 index that moves round them, and a queue each for real-time and idle threads.
 */
module RunQueue {
  import opened Arith
  import opened Prelude

  /** Priorities in their numeric order; `Rank` is the value of the enumeration constant. */
  datatype Priority = Idle | Low | Mid | High | Srt
  {
    function Rank(): nat {
      match this case Idle => 0 case Low => 1 case Mid => 2 case High => 3 case Srt => 4
    }

    predicate Standard() { Low? || Mid? || High? }

    /** `thread_priority`: how many slots ahead a thread of this priority is queued. */
    function MaxCount(): (n: nat)
      ensures Standard() ==> 0 < n < 9
    {
      match this case Low => 8 case Mid => 4 case High => 2 case Idle => 0 case Srt => 0
    }
  }

  datatype Thread = Thread(id: nat, priority: Priority)

  // ---- the queue as a value ------------------------------------------------------------------------

  datatype Queue = Queue(std: seq<seq<Thread>>, index: nat, count: nat, srt: seq<Thread>, idle: seq<Thread>)

  ghost function Total(std: seq<seq<Thread>>): nat
  {
    if std == [] then 0 else |std[0]| + Total(std[1..])
  }

  ghost predicate Valid(q: Queue)
  {
    && |q.std| == 9 && q.index < 9
    && q.count == Total(q.std)
    && forall s, k | 0 <= s < 9 && 0 <= k < |q.std[s]| :: q.std[s][k].priority.Standard()
  }

  /** The slot `d` places after slot `i`, round the nine. */
  function Slot(i: nat, d: nat): (s: nat)
    requires i < 9 && d < 9
    ensures s < 9 && s == (i + d) % 9
  {
    if i + d < 9 then i + d else i + d - 9
  }

  /** Slots from `i` forward to `s`. */
  function Dist(i: nat, s: nat): (d: nat)
    requires i < 9 && s < 9
    ensures d < 9 && Slot(i, d) == s
  {
    if i <= s then s - i else s + 9 - i
  }

  /** Places from slot `i` forward to the first slot that holds a thread, from `d` on; 9 if none does. */
  ghost function Nearest(std: seq<seq<Thread>>, i: nat, d: nat): (n: nat)
    requires |std| == 9 && i < 9 && d <= 9
    ensures d <= n <= 9
    ensures forall e | d <= e < n :: std[Slot(i, e)] == []
    ensures n < 9 ==> std[Slot(i, n)] != []
    decreases 9 - d
  {
    if d == 9 || std[Slot(i, d)] != [] then d else Nearest(std, i, d + 1)
  }

  /** A positive count means that some slot holds a thread, so the scan ends within nine probes. */
  lemma CountFindsThread(q: Queue)
    requires Valid(q)
    ensures Nearest(q.std, q.index, 0) < 9 <==> q.count > 0
  {
    var n := Nearest(q.std, q.index, 0);
    if n == 9 {
      forall s | 0 <= s < 9 ensures q.std[s] == [] { assert q.std[Slot(q.index, Dist(q.index, s))] == []; }
      TotalOfEmpty(q.std);
    } else {
      TotalAtLeast(q.std, Slot(q.index, n));
    }
  }

  lemma {:induction false} TotalOfEmpty(std: seq<seq<Thread>>)
    requires forall s | 0 <= s < |std| :: std[s] == []
    ensures Total(std) == 0
  {
    if std != [] { TotalOfEmpty(std[1..]); }
  }

  lemma {:induction false} TotalAtLeast(std: seq<seq<Thread>>, s: nat)
    requires s < |std|
    ensures Total(std) >= |std[s]|
  {
    if s > 0 { TotalAtLeast(std[1..], s - 1); }
  }

  lemma {:induction false} TotalUpdate(std: seq<seq<Thread>>, s: nat, queue: seq<Thread>)
    requires s < |std|
    ensures Total(std[s := queue]) == Total(std) - |std[s]| + |queue|
  {
    if s > 0 {
      TotalUpdate(std[1..], s - 1, queue);
      assert std[s := queue][1..] == std[1..][s - 1 := queue];
    } else {
      assert std[s := queue][1..] == std[1..];
    }
  }

  // ---- the two operations --------------------------------------------------------------------------

  datatype Dispatch =
    | Realtime(thread: Thread) | Normal(thread: Thread, slot: nat) | Background(thread: Thread) | Nothing

  /** What `scheduler_next` picks, and the queue it leaves. */
  ghost function Next(q: Queue): (r: (Queue, Dispatch))
    requires Valid(q)
  {
    if q.srt != [] then (q.(srt := q.srt[1..]), Realtime(q.srt[0]))
    else if q.count > 0 then
      CountFindsThread(q);
      var s := Slot(q.index, Nearest(q.std, q.index, 0));
      (q.(std := q.std[s := q.std[s][1..]], index := s, count := q.count - 1), Normal(q.std[s][0], s))
    else if q.idle != [] then (q.(idle := q.idle[1..]), Background(q.idle[0]))
    else (q, Nothing)
  }

  /** The queue `scheduler_append` leaves. */
  ghost function Append(q: Queue, t: Thread): (r: Queue)
    requires Valid(q)
  {
    match t.priority
    case Srt => q.(srt := q.srt + [t])
    case Idle => q.(idle := q.idle + [t])
    case _ =>
      var s := Slot(q.index, t.priority.MaxCount());
      q.(std := q.std[s := q.std[s] + [t]], count := q.count + 1)
  }

  lemma NextValid(q: Queue)
    requires Valid(q)
    ensures Valid(Next(q).0)
  {
    if q.srt == [] && q.count > 0 {
      CountFindsThread(q);
      var s := Slot(q.index, Nearest(q.std, q.index, 0));
      TotalUpdate(q.std, s, q.std[s][1..]);
    }
  }

  lemma AppendValid(q: Queue, t: Thread)
    requires Valid(q)
    ensures Valid(Append(q, t))
  {
    if t.priority.Standard() {
      var s := Slot(q.index, t.priority.MaxCount());
      TotalUpdate(q.std, s, q.std[s] + [t]);
    }
  }

  /** A standard thread is never queued in the slot being served. */
  lemma AppendNeverHitsCurrentSlot(q: Queue, t: Thread)
    requires Valid(q)
    ensures Append(q, t).index == q.index && Append(q, t).std[q.index] == q.std[q.index]
  {}

  // ---- where a waiting thread is -----------------------------------------------------------------

  datatype Step = Queue1(thread: Thread) | Dispatch1

  /** A standard thread waits at place `k` of slot `s`, or has run. */
  datatype Fate = Waiting(s: nat, k: nat) | Ran

  ghost predicate Waits(q: Queue, t: Thread, f: Fate)
    requires Valid(q)
  {
    f.Waiting? ==> f.s < 9 && f.k < |q.std[f.s]| && q.std[f.s][f.k] == t
  }

  ghost function After(q: Queue, step: Step): (r: Queue)
    requires Valid(q)
    ensures Valid(r)
  {
    match step
    case Queue1(t) => AppendValid(q, t); Append(q, t)
    case Dispatch1 => NextValid(q); Next(q).0
  }

  /** Is this step a dispatch of a standard thread? */
  ghost predicate IsNormal(q: Queue, step: Step)
    requires Valid(q)
  {
    step.Dispatch1? && Next(q).1.Normal?
  }

  /** The fate of the thread at `f` after one step: only a dispatch from its slot moves it, by one place. */
  ghost function FateAfter(q: Queue, step: Step, f: Fate): (r: Fate)
    requires Valid(q)
  {
    if f.Waiting? && IsNormal(q, step) && Next(q).1.slot == f.s
    then if f.k == 0 then Ran else Waiting(f.s, f.k - 1)
    else f
  }

  lemma FateIsRight(q: Queue, step: Step, t: Thread, f: Fate)
    requires Valid(q) && Waits(q, t, f)
    ensures Waits(After(q, step), t, FateAfter(q, step, f))
    ensures f.Waiting? && FateAfter(q, step, f).Ran? ==> Next(q).1 == Normal(t, f.s) && After(q, step).index == f.s
  {
    if step.Queue1? { AppendValid(q, step.thread); } else { NextValid(q); }
  }

  // ---- whole runs ----------------------------------------------------------------------------------

  ghost function Exec(q: Queue, steps: seq<Step>): (r: Queue)
    requires Valid(q)
    ensures Valid(r)
    decreases |steps|
  {
    if steps == [] then q else Exec(After(q, steps[0]), steps[1..])
  }

  ghost function FateOf(q: Queue, steps: seq<Step>, f: Fate): (r: Fate)
    requires Valid(q)
    decreases |steps|
  {
    if steps == [] then f else FateOf(After(q, steps[0]), steps[1..], FateAfter(q, steps[0], f))
  }

  /** How many of the steps dispatch a standard thread. */
  ghost function Normals(q: Queue, steps: seq<Step>): (n: nat)
    requires Valid(q)
    decreases |steps|
  {
    if steps == [] then 0
    else (if IsNormal(q, steps[0]) then 1 else 0) + Normals(After(q, steps[0]), steps[1..])
  }

  /** At no time are more than `n` standard threads queued. */
  ghost predicate Bounded(q: Queue, steps: seq<Step>, n: nat)
    requires Valid(q)
    decreases |steps|
  {
    q.count <= n && (steps == [] || Bounded(After(q, steps[0]), steps[1..], n))
  }

  /** Standard dispatches that can still come before the thread at `f`: the slots between, at `n`
      threads each, and then the threads ahead of it in the slot being served. */
  ghost function Rank(q: Queue, f: Fate, n: nat): nat
    requires Valid(q) && f.Waiting? && f.s < 9
  {
    Dist(q.index, f.s) * n + if q.index == f.s then f.k else |q.std[q.index]|
  }

  /** A standard dispatch takes a thread ahead of the waiting one. */
  lemma RankDrops(q: Queue, t: Thread, f: Fate, n: nat)
    requires Valid(q) && f.Waiting? && Waits(q, t, f) && q.count <= n
    requires IsNormal(q, Dispatch1) && FateAfter(q, Dispatch1, f).Waiting?
    ensures Rank(After(q, Dispatch1), FateAfter(q, Dispatch1, f), n) + 1 <= Rank(q, f, n)
  {
    CountFindsThread(q);
    var d, e := Nearest(q.std, q.index, 0), Dist(q.index, f.s);
    assert d <= e by { assert q.std[Slot(q.index, e)] != []; }
    var s := Slot(q.index, d);
    assert Dist(s, f.s) == e - d;
    TotalAtLeast(q.std, s);
    if d > 0 { MulMono(e - d, e, n); }
  }

  lemma RankNeverRises(q: Queue, step: Step, t: Thread, f: Fate, n: nat)
    requires Valid(q) && f.Waiting? && Waits(q, t, f) && !IsNormal(q, step)
    ensures FateAfter(q, step, f) == f && Rank(After(q, step), f, n) == Rank(q, f, n)
  {
    if step.Queue1? { AppendNeverHitsCurrentSlot(q, step.thread); }
  }

  lemma {:induction false} WaitIsBounded(q: Queue, steps: seq<Step>, t: Thread, f: Fate, n: nat)
    requires Valid(q) && f.Waiting? && Waits(q, t, f) && Bounded(q, steps, n)
    ensures FateOf(q, steps, f).Waiting? ==> Normals(q, steps) <= Rank(q, f, n)
    decreases |steps|
  {
    if steps != [] && FateAfter(q, steps[0], f).Waiting? {
      if IsNormal(q, steps[0]) { RankDrops(q, t, f, n); } else { RankNeverRises(q, steps[0], t, f, n); }
      FateIsRight(q, steps[0], t, f);
      WaitIsBounded(After(q, steps[0]), steps[1..], t, FateAfter(q, steps[0], f), n);
    } else if steps != [] {
      RanStays(After(q, steps[0]), steps[1..]);
    }
  }

  lemma {:induction false} RanStays(q: Queue, steps: seq<Step>)
    requires Valid(q)
    ensures FateOf(q, steps, Ran) == Ran
    decreases |steps|
  {
    if steps != [] { RanStays(After(q, steps[0]), steps[1..]); }
  }

  /** Step `k` of the run dispatches thread `t` from slot `s`. */
  ghost predicate DispatchedAt(q: Queue, steps: seq<Step>, k: nat, t: Thread, s: nat)
    requires Valid(q)
  {
    k < |steps| && steps[k].Dispatch1? && Next(Exec(q, steps[..k])).1 == Normal(t, s)
  }

  /** Once the tracker says that a thread has run, some step of the run has dispatched it from its slot. */
  lemma {:induction false} RanMeansDispatched(q: Queue, steps: seq<Step>, t: Thread, f: Fate) returns (k: nat)
    requires Valid(q) && f.Waiting? && Waits(q, t, f) && FateOf(q, steps, f) == Ran
    ensures DispatchedAt(q, steps, k, t, f.s) && FateOf(q, steps[..k], f).Waiting?
    ensures Exec(q, steps[..k + 1]).index == f.s
    decreases |steps|
  {
    FateIsRight(q, steps[0], t, f);
    var q', f' := After(q, steps[0]), FateAfter(q, steps[0], f);
    if f'.Ran? {
      k := 0;
      assert steps[..0] == [] && steps[..1] == [steps[0]] && [steps[0]][1..] == [];
      assert Exec(q, steps[..1]) == Exec(q', []);
    } else {
      var j := RanMeansDispatched(q', steps[1..], t, f');
      k := j + 1;
      Prefix(q, steps, k, f);
      Prefix(q, steps, k + 1, f);
    }
  }

  lemma Prefix(q: Queue, steps: seq<Step>, k: nat, f: Fate)
    requires Valid(q) && 0 < k <= |steps|
    ensures Exec(q, steps[..k]) == Exec(After(q, steps[0]), steps[1..][..k - 1])
    ensures FateOf(q, steps[..k], f) == FateOf(After(q, steps[0]), steps[1..][..k - 1], FateAfter(q, steps[0], f))
  {
    assert steps[..k][1..] == steps[1..][..k - 1];
  }

  lemma RankBelow(q: Queue, t: Thread, f: Fate, n: nat)
    requires Valid(q) && f.Waiting? && Waits(q, t, f) && q.count <= n
    ensures Rank(q, f, n) < 9 * n
  {
    FewerAhead(q, t, f, n);
    MulMono(Dist(q.index, f.s), 8, n);
  }

  lemma FewerAhead(q: Queue, t: Thread, f: Fate, n: nat)
    requires Valid(q) && f.Waiting? && Waits(q, t, f) && q.count <= n
    ensures (if q.index == f.s then f.k else |q.std[q.index]|) < n
  {
    if q.index == f.s {
      TotalAtLeast(q.std, f.s);
    } else {
      var rest := q.std[q.index := []];
      TotalUpdate(q.std, q.index, []);
      TotalAtLeast(rest, f.s);
      assert rest[f.s] == q.std[f.s];
    }
  }

  /** No standard thread starves: with at most `n` standard threads queued at any time, a thread that
      is queued has been dispatched after at most `9 * n` standard dispatches, whatever is queued
      meanwhile. */
  lemma NoStarvation(q: Queue, steps: seq<Step>, t: Thread, f: Fate, n: nat)
    requires Valid(q) && f.Waiting? && Waits(q, t, f) && Bounded(q, steps, n)
    requires Normals(q, steps) >= 9 * n
    ensures exists k :: DispatchedAt(q, steps, k, t, f.s)
  {
    WaitIsBounded(q, steps, t, f, n);
    RankBelow(q, t, f, n);
    var k := RanMeansDispatched(q, steps, t, f);
    assert DispatchedAt(q, steps, k, t, f.s);
  }

  /** A thread of standard priority queued while slot `i` is served goes 8, 4 or 2 slots ahead, the
      index moves towards that slot without passing it as long as the thread waits, and when it waits no
      more it has been dispatched from exactly that slot. */
  lemma {:induction false} ServedAfterMaxCountSlots(q: Queue, t: Thread, steps: seq<Step>)
    requires Valid(q) && t.priority.Standard()
    ensures Valid(Append(q, t))
    ensures var ahead := if t.priority.Low? then 8 else if t.priority.Mid? then 4 else 2;
            var s := (q.index + ahead) % 9;
            var f := Waiting(s, |q.std[s]|);
            var r := Exec(Append(q, t), steps);
            && Waits(Append(q, t), t, f)
            && (FateOf(Append(q, t), steps, f).Waiting? ==>
                  && FateOf(Append(q, t), steps, f).s == s
                  && Dist(q.index, r.index) + Dist(r.index, s) == ahead)
            && (FateOf(Append(q, t), steps, f).Ran? ==> exists k :: ServedAt(Append(q, t), steps, k, t, s, q.index))
  {
    AppendValid(q, t);
    var s := Slot(q.index, t.priority.MaxCount());
    var q', f := Append(q, t), Waiting(s, |q.std[s]|);
    IndexApproaches(q', steps, t, f, q.index);
    if FateOf(q', steps, f).Ran? {
      var k := RanMeansDispatched(q', steps, t, f);
      IndexApproaches(q', steps[..k], t, f, q.index);
      assert ServedAt(q', steps, k, t, s, q.index);
    }
  }

  /** Step `k` dispatches the thread; before it the index, which was `i`, had not passed the slot, and with
      it the index is there. */
  ghost predicate ServedAt(q: Queue, steps: seq<Step>, k: nat, t: Thread, s: nat, i: nat)
    requires Valid(q) && s < 9 && i < 9
  {
    && DispatchedAt(q, steps, k, t, s) && Exec(q, steps[..k + 1]).index == s
    && Dist(i, Exec(q, steps[..k]).index) + Dist(Exec(q, steps[..k]).index, s) == Dist(i, s)
  }

  lemma {:induction false} IndexApproaches(q: Queue, steps: seq<Step>, t: Thread, f: Fate, i: nat)
    requires Valid(q) && f.Waiting? && Waits(q, t, f) && i < 9
    requires Dist(i, q.index) + Dist(q.index, f.s) == Dist(i, f.s)
    ensures FateOf(q, steps, f).Waiting? ==>
              && FateOf(q, steps, f).s == f.s
              && Dist(i, Exec(q, steps).index) + Dist(Exec(q, steps).index, f.s) == Dist(i, f.s)
    decreases |steps|
  {
    if steps != [] {
      var f' := FateAfter(q, steps[0], f);
      FateIsRight(q, steps[0], t, f);
      if f'.Waiting? {
        if IsNormal(q, steps[0]) {
          CountFindsThread(q);
          assert q.std[Slot(q.index, Dist(q.index, f.s))] != [];
        }
        IndexApproaches(After(q, steps[0]), steps[1..], t, f', i);
      } else {
        RanStays(After(q, steps[0]), steps[1..]);
      }
    }
  }

  // ---- who comes first -------------------------------------------------------------------------------

  /** A place that the index reaches before another one. */
  ghost predicate Before(i: nat, a: Fate, b: Fate)
    requires i < 9 && a.Waiting? && b.Waiting? && a.s < 9 && b.s < 9
  {
    Dist(i, a.s) < Dist(i, b.s) || (a.s == b.s && a.k < b.k)
  }

  lemma BeforeStays(q: Queue, step: Step, x: Thread, a: Fate, y: Thread, b: Fate)
    requires Valid(q) && a.Waiting? && b.Waiting? && Waits(q, x, a) && Waits(q, y, b) && Before(q.index, a, b)
    ensures FateAfter(q, step, b).Waiting?
    ensures var a', b' := FateAfter(q, step, a), FateAfter(q, step, b);
            a'.Waiting? ==> Before(After(q, step).index, a', b')
  {
    if IsNormal(q, step) {
      CountFindsThread(q);
      assert q.std[Slot(q.index, Dist(q.index, a.s))] != [];
    } else if step.Queue1? {
      AppendNeverHitsCurrentSlot(q, step.thread);
    }
  }

  /** Over every run: of two waiting threads, the one whose place the index reaches first has run before the
      other one. */
  lemma {:induction false} ServedInOrder(q: Queue, steps: seq<Step>, x: Thread, a: Fate, y: Thread, b: Fate)
    requires Valid(q) && a.Waiting? && b.Waiting? && Waits(q, x, a) && Waits(q, y, b) && Before(q.index, a, b)
    ensures FateOf(q, steps, b).Ran? ==> FateOf(q, steps, a).Ran?
    decreases |steps|
  {
    if steps != [] {
      BeforeStays(q, steps[0], x, a, y, b);
      FateIsRight(q, steps[0], x, a);
      FateIsRight(q, steps[0], y, b);
      var q', a', b' := After(q, steps[0]), FateAfter(q, steps[0], a), FateAfter(q, steps[0], b);
      if a'.Waiting? { ServedInOrder(q', steps[1..], x, a', y, b'); } else { RanStays(q', steps[1..]); }
    }
  }

  /** Where a standard thread comes to wait. */
  ghost function Placed(q: Queue, t: Thread): (f: Fate)
    requires Valid(q) && t.priority.Standard()
    ensures f.Waiting? && f.s < 9
  {
    var s := Slot(q.index, t.priority.MaxCount());
    Waiting(s, |q.std[s]|)
  }

  lemma PlacedWaits(q: Queue, t: Thread, u: Thread)
    requires Valid(q) && t.priority.Standard() && u.priority.Standard()
    ensures Valid(Append(q, t)) && Waits(Append(q, t), t, Placed(q, t))
    ensures Valid(Append(Append(q, t), u)) && Waits(Append(Append(q, t), u), t, Placed(q, t))
    ensures Waits(Append(Append(q, t), u), u, Placed(Append(q, t), u))
  {
    AppendValid(q, t);
    AppendValid(Append(q, t), u);
  }

  /** Priority over every run: of two standard threads queued one after the other, in either order and whatever
      else is queued, the one of higher priority is dispatched first; of two of one priority, the earlier. */
  lemma HigherFirst(q: Queue, steps: seq<Step>, t: Thread, u: Thread)
    requires Valid(q) && t.priority.Standard() && u.priority.Standard()
    ensures Valid(Append(q, t)) && Valid(Append(Append(q, t), u))
    ensures var r, ft, fu := Append(Append(q, t), u), Placed(q, t), Placed(Append(q, t), u);
            && (t.priority.Rank() >= u.priority.Rank() && FateOf(r, steps, fu).Ran? ==> FateOf(r, steps, ft).Ran?)
            && (t.priority.Rank() < u.priority.Rank() && FateOf(r, steps, ft).Ran? ==> FateOf(r, steps, fu).Ran?)
  {
    PlacedWaits(q, t, u);
    var r, ft, fu := Append(Append(q, t), u), Placed(q, t), Placed(Append(q, t), u);
    if t.priority.Rank() >= u.priority.Rank() {
      ServedInOrder(r, steps, t, ft, u, fu);
    } else {
      ServedInOrder(r, steps, u, fu, t, ft);
    }
  }

  // ---- the order of the queues -------------------------------------------------------------------------

  /** A standard thread is dispatched only while no real-time thread is queued, a background thread only while
      nothing else is, and nothing only if nothing is queued at all. */
  lemma QueuesInOrder(q: Queue, steps: seq<Step>, k: nat)
    requires Valid(q) && k < |steps| && steps[k].Dispatch1?
    ensures var now := Exec(q, steps[..k]);
            match Next(now).1
            case Realtime(t) => t in now.srt
            case Normal(t, s) => now.srt == [] && s < 9 && t in now.std[s]
            case Background(t) => now.srt == [] && t in now.idle && forall s | 0 <= s < 9 :: now.std[s] == []
            case Nothing => now.srt == [] && now.idle == [] && forall s | 0 <= s < 9 :: now.std[s] == []
  {
    var now := Exec(q, steps[..k]);
    CountFindsThread(now);
    if now.srt == [] && now.count == 0 {
      forall s | 0 <= s < 9 ensures now.std[s] == [] { assert now.std[Slot(now.index, Dist(now.index, s))] == []; }
    }
  }

  /** What a step dispatches, if anything. */
  ghost function Sent(q: Queue, step: Step): Dispatch
    requires Valid(q)
  {
    if step.Dispatch1? then Next(q).1 else Nothing
  }

  /** The real-time threads dispatched in a run, in order. */
  ghost function RealtimeSent(q: Queue, steps: seq<Step>): seq<Thread>
    requires Valid(q)
    decreases |steps|
  {
    if steps == [] then []
    else
      var d := Sent(q, steps[0]);
      (if d.Realtime? then [d.thread] else []) + RealtimeSent(After(q, steps[0]), steps[1..])
  }

  ghost function BackgroundSent(q: Queue, steps: seq<Step>): seq<Thread>
    requires Valid(q)
    decreases |steps|
  {
    if steps == [] then []
    else
      var d := Sent(q, steps[0]);
      (if d.Background? then [d.thread] else []) + BackgroundSent(After(q, steps[0]), steps[1..])
  }

  /** The threads of one priority queued in a run, in order. */
  ghost function Queued(steps: seq<Step>, p: Priority): seq<Thread>
    decreases |steps|
  {
    if steps == [] then []
    else
      (if steps[0].Queue1? && steps[0].thread.priority == p then [steps[0].thread] else []) + Queued(steps[1..], p)
  }

  lemma Regroup(sent: seq<Thread>, more: seq<Thread>, end: seq<Thread>, mid: seq<Thread>, later: seq<Thread>,
                start: seq<Thread>, added: seq<Thread>)
    requires more + end == mid + later && sent + mid == start + added
    ensures (sent + more) + end == start + (added + later)
  {
    assert (sent + more) + end == sent + (more + end) && sent + (mid + later) == (sent + mid) + later;
    assert (start + added) + later == start + (added + later);
  }

  /** First in, first out, over every run: the real-time threads dispatched, and then those still queued, are
      those queued before and in the run, in that order. */
  lemma {:induction false} RealtimeFifo(q: Queue, steps: seq<Step>)
    requires Valid(q)
    ensures RealtimeSent(q, steps) + Exec(q, steps).srt == q.srt + Queued(steps, Srt)
    decreases |steps|
  {
    if steps != [] {
      var q', d := After(q, steps[0]), Sent(q, steps[0]);
      RealtimeFifo(q', steps[1..]);
      var sent := if d.Realtime? then [d.thread] else [];
      var added := if steps[0].Queue1? && steps[0].thread.priority == Srt then [steps[0].thread] else [];
      assert sent + q'.srt == q.srt + added;
      Regroup(sent, RealtimeSent(q', steps[1..]), Exec(q', steps[1..]).srt, q'.srt, Queued(steps[1..], Srt), q.srt,
        added);
    }
  }

  /** The same for the background threads. */
  lemma {:induction false} BackgroundFifo(q: Queue, steps: seq<Step>)
    requires Valid(q)
    ensures BackgroundSent(q, steps) + Exec(q, steps).idle == q.idle + Queued(steps, Idle)
    decreases |steps|
  {
    if steps != [] {
      var q', d := After(q, steps[0]), Sent(q, steps[0]);
      BackgroundFifo(q', steps[1..]);
      var sent := if d.Background? then [d.thread] else [];
      var added := if steps[0].Queue1? && steps[0].thread.priority == Idle then [steps[0].thread] else [];
      assert sent + q'.idle == q.idle + added;
      Regroup(sent, BackgroundSent(q', steps[1..]), Exec(q', steps[1..]).idle, q'.idle, Queued(steps[1..], Idle),
        q.idle, added);
    }
  }

  // ---- one core ------------------------------------------------------------------------------------

  class Core {
    var std: seq<seq<Thread>>
    var index: nat
    var count: nat
    var srt: seq<Thread>
    var idle: seq<Thread>
    var current: Thread
    const threadIdle: Thread
    const frequency: nat

    ghost function View(): Queue
      reads this
    {
      Queue(std, index, count, srt, idle)
    }

    constructor (idleThread: Thread, first: Thread, hz: nat)
      ensures Valid(View()) && View() == Queue(seq(9, _ => []), 0, 0, [], []) && current == first
      ensures threadIdle == idleThread && frequency == hz
    {
      std, index, count, srt, idle := seq(9, _ => []), 0, 0, [], [];
      current, threadIdle, frequency := first, idleThread, hz;
      new;
      TotalOfEmpty(std);
    }

    /** The slot scan of `scheduler_next`: it probes slots from the current one on and takes the head
        of the first that is not empty. */
    method PopStandard()
      requires Valid(View()) && srt == [] && count > 0
      modifies this`std, this`index, this`count, this`current
      ensures View() == Next(old(View())).0
      ensures Next(old(View())).1 == Normal(current, index)
    {
      CountFindsThread(View());
      Probe();
      current, std := std[index][0], std[index := std[index][1..]];
      count := count - 1;
    }

    method Probe()
      requires |std| == 9 && index < 9 && Nearest(std, index, 0) < 9
      modifies this`index
      ensures index == Slot(old(index), Nearest(std, old(index), 0)) < 9 && std[index] != []
    {
      ghost var n := Nearest(std, index, 0);
      ghost var probes := 0;
      while std[index] == []
        invariant probes <= n < 9 && index == Slot(old(index), probes)
        decreases n - probes
      {
        index := (index + 1) % 9;
        probes := probes + 1;
      }
    }

    /** `scheduler_next`: picks the thread to run and says how many timer ticks it gets (0: no limit). */
    method SchedulerNext() returns (ticks: nat)
      requires Valid(View())
      modifies this`std, this`index, this`count, this`srt, this`idle, this`current
      ensures Valid(View()) && View() == Next(old(View())).0
      ensures var d := Next(old(View())).1;
              && current == (if d.Nothing? then threadIdle else d.thread)
              && ticks == (if d.Normal? || d.Background? then frequency / 100 else 0)
    {
      NextValid(View());
      ticks := frequency;
      if srt != [] {
        current, srt := srt[0], srt[1..];
        ticks := 0;
      } else if count > 0 {
        PopStandard();
        ticks := ticks / 100;
      } else if idle != [] {
        current, idle := idle[0], idle[1..];
        ticks := ticks / 100;
      } else {
        current := threadIdle;
        ticks := 0;
      }
    }

    /** `scheduler_append` on a chosen core; the result says whether that core is to be interrupted. */
    method SchedulerAppend(t: Thread) returns (preempt: bool)
      requires Valid(View())
      modifies this`std, this`count, this`srt, this`idle
      ensures Valid(View()) && View() == Append(old(View()), t)
      ensures t.priority.Standard() ==>
                var ahead := if t.priority.Low? then 8 else if t.priority.Mid? then 4 else 2;
                var i := (index + ahead) % 9;
                std == old(std)[i := old(std)[i] + [t]] && srt == old(srt) && idle == old(idle)
      ensures preempt <==>
                (t.priority.Srt? && !current.priority.Srt?) || (t.priority.Standard() && current.priority.Idle?)
    {
      AppendValid(View(), t);
      var pc, pn := current.priority, t.priority;
      preempt := false;
      if pn.Srt? {
        srt := srt + [t];
        if pc.Rank() < pn.Rank() { preempt := true; }
      } else if pn.Idle? {
        idle := idle + [t];
      } else {
        var i := (index + pn.MaxCount()) % 9;
        std := std[i := std[i] + [t]];
        count := count + 1;
        if pc.Idle? { preempt := true; }
      }
    }
  }

  // ---- choosing a core -----------------------------------------------------------------------------

  /** What `scheduler_select` looks at: the running thread (none before a core has started) and the
      number of queued standard threads. */
  datatype CoreState = CoreState(current: Option<Thread>, count: nat)

  /** A core taken at once: it runs this very thread with nothing queued, or it runs an idle thread. */
  predicate Ready(c: CoreState, t: Thread)
  {
    c.current.Some? && ((c.current.value == t && c.count == 0) || c.current.value.priority.Idle?)
  }

  method Select(cores: seq<CoreState>, t: Thread) returns (core: nat)
    requires forall i | 0 <= i < |cores| :: cores[i].count < 0xFFFF_FFFF
    requires |cores| > 0
    ensures core < |cores|
    ensures (exists i :: 0 <= i < |cores| && Ready(cores[i], t)) ==>
              Ready(cores[core], t) && forall i | 0 <= i < core :: !Ready(cores[i], t)
    ensures (forall i | 0 <= i < |cores| :: !Ready(cores[i], t)) ==>
              if forall i | 0 <= i < |cores| :: cores[i].current.None? then core == 0
              else
                && cores[core].current.Some?
                && (forall i | 0 <= i < |cores| && cores[i].current.Some? :: cores[core].count <= cores[i].count)
                && (forall i | 0 <= i < core && cores[i].current.Some? :: cores[core].count < cores[i].count)
  {
    core := 0;
    var min := 0xFFFF_FFFF;
    for i := 0 to |cores|
      invariant core < |cores|
      invariant forall j | 0 <= j < i :: !Ready(cores[j], t)
      invariant min == 0xFFFF_FFFF ==> core == 0 && forall j | 0 <= j < i :: cores[j].current.None?
      invariant min < 0xFFFF_FFFF ==>
                  && core < i && cores[core].current.Some? && cores[core].count == min
                  && (forall j | 0 <= j < i && cores[j].current.Some? :: min <= cores[j].count)
                  && (forall j | 0 <= j < core && cores[j].current.Some? :: min < cores[j].count)
      invariant min <= 0xFFFF_FFFF
    {
      var s := cores[i];
      if s.current.None? {
      } else if s.current.value == t && s.count == 0 {
        return i;
      } else if s.current.value.priority.Idle? {
        return i;
      } else if s.count < min {
        core, min := i, s.count;
      }
    }
  }
}
