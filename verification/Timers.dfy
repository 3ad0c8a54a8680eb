/**
 The deadline-sorted timer list of kernel/time/timer.c with its cached next deadline. Timestamps are
 64-bit nanoseconds; the comparison with the clock is a signed difference.
 */
module Timers {
  import opened Prelude

  const TWO64: nat := 0x1_0000_0000_0000_0000
  const TWO63: nat := 0x8000_0000_0000_0000
  const SLACK: nat := 500_000

  /** A sum of two timestamps, in 64-bit arithmetic. */
  function Wrapped(ts: nat): nat
    requires ts < 2 * TWO64
  {
    if ts < TWO64 then ts else ts - TWO64
  }

  datatype Timer = Timer(id: nat, deadline: nat)

  /** `(int64_t)(ts - deadline + 500us) >= 0`, in 64-bit arithmetic. */
  predicate DueByCode(ts: nat, deadline: nat)
  {
    (ts - deadline + SLACK) % TWO64 < TWO63
  }

  predicate Due(ts: nat, deadline: nat) { deadline <= ts + 500_000 }

  /** The difference to the clock does not overflow, or wraps all the way. */
  predicate Near(ts: nat, deadline: nat)
  {
    0 - TWO63 <= ts - deadline + SLACK < TWO63 || ts - deadline + SLACK >= TWO64
  }

  /** The signed difference decides correctly exactly for near deadlines. */
  lemma SignedDifference(ts: nat, deadline: nat)
    requires ts < TWO64 && deadline < TWO64
    ensures (DueByCode(ts, deadline) <==> Due(ts, deadline)) <==> Near(ts, deadline)
  {}

  /** A deadline half the range ahead and a little more counts as passed. */
  lemma FarDeadlineFires()
    ensures DueByCode(0, TWO63 + SLACK + 1) && !Due(0, TWO63 + SLACK + 1)
  {
    assert (0 - TWO63 - 1 + TWO64) % TWO64 == TWO63 - 1;
  }

  // ---- the list as a value -----------------------------------------------------------------------------

  predicate InOrder(list: seq<Timer>, i: nat, j: nat)
    requires i < j < |list|
  {
    list[i].deadline <= list[j].deadline
  }

  ghost predicate Sorted(list: seq<Timer>)
  {
    forall i: nat, j: nat {:trigger InOrder(list, i, j)} | i < j < |list| :: InOrder(list, i, j)
  }

  /** The cached deadline belongs to the head of the list; for an empty list it is one of the two
      values that mean "none". */
  predicate NextOk(list: seq<Timer>, next: nat)
  {
    if list == [] then next == 0 || next == TWO64 - 1 else next == list[0].deadline
  }

  ghost predicate Ok(list: seq<Timer>, next: nat)
  {
    && Sorted(list) && NextOk(list, next)
    && forall i | 0 <= i < |list| :: 0 < list[i].deadline < TWO64
  }

  /** The place of a new timer: behind every timer that is not later. */
  function Position(list: seq<Timer>, deadline: nat, k: nat := 0): (r: nat)
    requires k <= |list|
    requires forall i | 0 <= i < k :: list[i].deadline <= deadline
    ensures k <= r <= |list|
    ensures forall i | 0 <= i < r :: list[i].deadline <= deadline
    ensures r < |list| ==> list[r].deadline > deadline
    decreases |list| - k
  {
    if k == |list| || list[k].deadline > deadline then k else Position(list, deadline, k + 1)
  }

  function Inserted(list: seq<Timer>, t: Timer): seq<Timer>
  {
    var k := Position(list, t.deadline);
    list[..k] + [t] + list[k..]
  }

  lemma FirstMoves(a: seq<Timer>, b: seq<Timer>)
    requires b != []
    ensures a + [b[0]] + b[1..] == a + b && (a + b)[|a|] == b[0]
  {}

  lemma TailSorted(list: seq<Timer>)
    requires Sorted(list) && list != []
    ensures Sorted(list[1..])
  {
    forall i: nat, j: nat | i < j < |list[1..]| ensures InOrder(list[1..], i, j) { assert InOrder(list, i + 1, j + 1); }
  }

  lemma FirstGone(list: seq<Timer>, next: nat)
    requires Ok(list, next) && list != []
    ensures Ok(list[1..], if |list| > 1 then list[1].deadline else 0)
  {
    TailSorted(list);
    assert forall i | 0 <= i < |list[1..]| :: list[1..][i] == list[i + 1];
  }

  /** How many timers at the front of the list are due. */
  function DueCount(list: seq<Timer>, ts: nat, k: nat := 0): (n: nat)
    requires k <= |list|
    requires forall i | 0 <= i < k :: Due(ts, list[i].deadline)
    ensures k <= n <= |list|
    ensures forall i | 0 <= i < n :: Due(ts, list[i].deadline)
    ensures n < |list| ==> !Due(ts, list[n].deadline)
    decreases |list| - k
  {
    if k == |list| || !Due(ts, list[k].deadline) then k else DueCount(list, ts, k + 1)
  }

  lemma InsertedSorted(list: seq<Timer>, t: Timer)
    requires Sorted(list)
    ensures Sorted(Inserted(list, t))
  {
    var k, r := Position(list, t.deadline), Inserted(list, t);
    forall i: nat, j: nat | i < j < |r| ensures InOrder(r, i, j) {
      assert r[i] == if i < k then list[i] else if i == k then t else list[i - 1];
      assert r[j] == if j < k then list[j] else if j == k then t else list[j - 1];
      var i', j' := if i < k then i else i - 1, if j < k then j else j - 1;
      assert i != k && j != k ==> InOrder(list, i', j');
      assert k == i < j - 1 ==> InOrder(list, k, j - 1);
    }
  }

  lemma InsertedContents(list: seq<Timer>, t: Timer)
    ensures forall x :: x in Inserted(list, t) <==> x in list || x == t
  {
    var k, r := Position(list, t.deadline), Inserted(list, t);
    assert r[k] == t;
    forall x | x in list ensures x in r {
      var i :| 0 <= i < |list| && list[i] == x;
      assert r[if i < k then i else i + 1] == x;
    }
  }

  /** In a sorted list the due timers are exactly the ones counted at the front. */
  lemma DueAreInFront(list: seq<Timer>, ts: nat)
    requires Sorted(list)
    ensures forall i | 0 <= i < |list| :: Due(ts, list[i].deadline) <==> i < DueCount(list, ts)
  {
    var n := DueCount(list, ts);
    forall i | n < i < |list| ensures !Due(ts, list[i].deadline) { assert InOrder(list, n, i); }
  }

  lemma StartedOk(list: seq<Timer>, next: nat, t: Timer, next': nat)
    requires Ok(list, next) && t.deadline < TWO64
    requires next' == if t.deadline < next || next == 0 then t.deadline else next
    ensures Ok(Inserted(list, t), next') <==> t.deadline != 0
  {
    InsertedSorted(list, t);
    var k, r := Position(list, t.deadline), Inserted(list, t);
    InsertedAt(list, t, k);
    InsertedAt(list, t, 0);
    forall i | 0 <= i < |r| && i != k ensures 0 < r[i].deadline < TWO64 { InsertedAt(list, t, i); }
  }

  /** A timer of exactly 2^64 comes first and is always due, but next_deadline then says that there is none. */
  lemma LostDeadline(list: seq<Timer>, next: nat, id: nat, next': nat)
    requires Ok(list, next)
    requires next' == if Wrapped(TWO64) < next || next == 0 then Wrapped(TWO64) else next
    ensures next' == 0 && Inserted(list, Timer(id, Wrapped(TWO64)))[0] == Timer(id, 0)
    ensures forall ts: nat :: Due(ts, 0)
  {
    assert Position(list, 0) == 0;
    InsertedAt(list, Timer(id, 0), 0);
  }

  lemma InsertedAt(list: seq<Timer>, t: Timer, i: nat)
    requires i <= |list|
    ensures var k := Position(list, t.deadline);
            && |Inserted(list, t)| == |list| + 1
            && Inserted(list, t)[i] == if i < k then list[i] else if i == k then t else list[i - 1]
  {
  }

  /** The clock is near every deadline that the tick has to look at. */
  ghost predicate LookedAtNear(list: seq<Timer>, ts: nat)
  {
    forall i | 0 <= i <= DueCount(list, ts) && i < |list| :: Near(ts, list[i].deadline)
  }

  /** How many timers at the front of the list count as passed. */
  function PassedCount(list: seq<Timer>, ts: nat, k: nat := 0): (n: nat)
    requires k <= |list|
    requires forall i | 0 <= i < k :: DueByCode(ts, list[i].deadline)
    ensures k <= n <= |list|
    ensures forall i | 0 <= i < n :: DueByCode(ts, list[i].deadline)
    ensures n < |list| ==> !DueByCode(ts, list[n].deadline)
    decreases |list| - k
  {
    if k == |list| || !DueByCode(ts, list[k].deadline) then k else PassedCount(list, ts, k + 1)
  }

  ghost predicate Bounded(list: seq<Timer>) { forall i | 0 <= i < |list| :: list[i].deadline < TWO64 }

  lemma PassedIsDue(list: seq<Timer>, ts: nat)
    requires ts < TWO64 && Bounded(list)
    ensures PassedCount(list, ts) == DueCount(list, ts) <==> LookedAtNear(list, ts)
  {
    forall i | 0 <= i < |list|
      ensures (DueByCode(ts, list[i].deadline) <==> Due(ts, list[i].deadline)) <==> Near(ts, list[i].deadline)
    {
      SignedDifference(ts, list[i].deadline);
    }
  }

  /** The loop of the tick: timers leave the front of the list one after the other. */
  method FireDue(list: seq<Timer>, next: nat, ts: nat) returns (fired: seq<Timer>, rest: seq<Timer>, next': nat)
    requires Ok(list, next) && ts < TWO64
    ensures Ok(rest, next') && fired + rest == list && |fired| == PassedCount(list, ts)
  {
    fired, rest, next' := [], list, next;
    while rest != []
      invariant fired + rest == list && Ok(rest, next')
      invariant forall i | 0 <= i < |fired| :: DueByCode(ts, list[i].deadline)
      decreases |rest|
    {
      var item := rest[0];
      FirstMoves(fired, rest);
      if !DueByCode(ts, item.deadline) { break; }
      FirstGone(rest, next');
      rest := rest[1..];
      fired := fired + [item];
      next' := if rest != [] then rest[0].deadline else 0;
    }
    assert rest != [] ==> list[|fired|] == rest[0];
  }

  class TimerList {
    var list: seq<Timer>
    var nextDeadline: nat

    constructor ()
      ensures Ok(list, nextDeadline) && list == []
    {
      list, nextDeadline := [], TWO64 - 1;
    }

    /** Sorted insertion, first in first out among equal deadlines. */
    method TimerStart(id: nat, period: nat, callback: bool, ts: nat) returns (status: int)
      requires Ok(list, nextDeadline) && ts < TWO64 && period < TWO64
      modifies this
      ensures Ok(list, nextDeadline) <==> !callback || ts + period !in {0, TWO64}
      ensures !callback ==> status == -EINVAL && list == old(list) && nextDeadline == old(nextDeadline)
      ensures callback ==> status == 0 && list == Inserted(old(list), Timer(id, Wrapped(ts + period)))
    {
      if !callback { return -EINVAL; }
      var tm := Timer(id, Wrapped(ts + period));
      if tm.deadline < nextDeadline {
        nextDeadline := tm.deadline;
      } else if nextDeadline == 0 {
        nextDeadline := tm.deadline;
      }
      StartedOk(list, old(nextDeadline), tm, nextDeadline);
      var k := FindLater(tm.deadline);
      var r := if k == |list| then list + [tm] else list[..k] + [tm] + list[k..];
      assert r == Inserted(list, tm);
      list := r;
      return 0;
    }

    /** The iteration that stops at the first later timer. */
    method FindLater(deadline: nat) returns (k: nat)
      ensures k == Position(list, deadline)
    {
      k := 0;
      while k < |list|
        invariant 0 <= k <= Position(list, deadline)
      {
        if list[k].deadline > deadline { break; }
        k := k + 1;
      }
    }

    /** Fires the timers at the front that count as passed, in list order; the early returns skip none of them.
        They are exactly those whose deadline lies at most 500 microseconds ahead if and only if the clock is
        near every deadline looked at. */
    method TimerTick(ts: nat) returns (fired: seq<Timer>)
      requires Ok(list, nextDeadline) && ts < TWO64
      modifies this
      ensures Ok(list, nextDeadline) && fired + list == old(list) && |fired| == PassedCount(old(list), ts)
      ensures |fired| == DueCount(old(list), ts) <==> LookedAtNear(old(list), ts)
    {
      fired := [];
      PassedIsDue(list, ts);
      if nextDeadline == 0 { return; }
      if !DueByCode(ts, nextDeadline) { return; }
      fired, list, nextDeadline := FireDue(list, nextDeadline, ts);
    }

    method TimerCancel(t: Timer)
      requires Ok(list, nextDeadline)
      modifies this
      ensures Ok(list, nextDeadline) && list == Without(old(list), t)
    {
      WithoutSorted(list, t);
      list := Without(list, t);
      assert forall i | 0 <= i < |list| :: list[i] in list;
      nextDeadline := if list != [] then list[0].deadline else 0;
    }
  }

  lemma {:induction false} WithoutSorted(list: seq<Timer>, t: Timer)
    requires Sorted(list)
    ensures Sorted(Without(list, t))
  {
    if list != [] {
      TailSorted(list);
      WithoutSorted(list[1..], t);
      var rest := Without(list[1..], t);
      forall i | 0 <= i < |rest| ensures list[0].deadline <= rest[i].deadline {
        assert rest[i] in rest;
        var j :| 1 <= j < |list| && list[j] == rest[i];
        assert InOrder(list, 0, j);
      }
      forall i: nat, j: nat | i < j < |Without(list, t)| ensures InOrder(Without(list, t), i, j) {
        if list[0] == t { assert InOrder(rest, i, j); } else if i > 0 { assert InOrder(rest, i - 1, j - 1); }
      }
    }
  }

  // ---- whole runs --------------------------------------------------------------------------------------

  datatype Step = Start(t: Timer) | Tick(ts: nat) | Cancel(t: Timer)

  function After(list: seq<Timer>, step: Step): seq<Timer>
  {
    match step
    case Start(t) => Inserted(list, t)
    case Tick(ts) => list[PassedCount(list, ts)..]
    case Cancel(t) => Without(list, t)
  }

  function Run(list: seq<Timer>, steps: seq<Step>): seq<Timer>
    decreases |steps|
  {
    if steps == [] then list else Run(After(list, steps[0]), steps[1..])
  }

  lemma AfterSorted(list: seq<Timer>, step: Step)
    requires Sorted(list)
    ensures Sorted(After(list, step))
  {
    match step
    case Start(t) => InsertedSorted(list, t);
    case Tick(ts) =>
      var n := PassedCount(list, ts);
      var rest := list[n..];
      forall i: nat, j: nat | i < j < |rest| ensures InOrder(rest, i, j) { assert InOrder(list, n + i, n + j); }
    case Cancel(t) => WithoutSorted(list, t);
  }

  /** At a tick, the clock is near every deadline that the tick looks at. */
  ghost predicate NearAt(list: seq<Timer>, step: Step)
  {
    step.Tick? ==> step.ts < TWO64 && Bounded(list) && LookedAtNear(list, step.ts)
  }

  ghost predicate AllNear(list: seq<Timer>, steps: seq<Step>)
    decreases |steps|
  {
    steps == [] || (NearAt(list, steps[0]) && AllNear(After(list, steps[0]), steps[1..]))
  }

  lemma PendingAfter(list: seq<Timer>, step: Step, x: Timer)
    requires Sorted(list) && step != Start(x) && step != Cancel(x) && NearAt(list, step)
    ensures x in After(list, step) <==> x in list && !(step.Tick? && Due(step.ts, x.deadline))
  {
    match step
    case Start(t) => InsertedContents(list, t);
    case Tick(ts) =>
      DueAreInFront(list, ts);
      PassedIsDue(list, ts);
      var n := DueCount(list, ts);
      if x in list {
        var i :| 0 <= i < |list| && list[i] == x;
        if i >= n { assert list[n..][i - n] == x; }
      }
    case Cancel(t) =>
  }

  /** As long as the clock is near the deadlines, a started timer stays pending through exactly those runs in
      which no tick comes within 500 microseconds of its deadline or later: none fires early, none is missed. */
  lemma {:induction false} FiresAtFirstDueTick(list: seq<Timer>, steps: seq<Step>, x: Timer)
    requires Sorted(list) && x in list && Start(x) !in steps && Cancel(x) !in steps && AllNear(list, steps)
    ensures x in Run(list, steps) <==> forall i | 0 <= i < |steps| && steps[i].Tick? :: !Due(steps[i].ts, x.deadline)
    decreases |steps|
  {
    if steps != [] {
      assert steps[0] in steps && forall y | y in steps[1..] :: y in steps;
      PendingAfter(list, steps[0], x);
      AfterSorted(list, steps[0]);
      if x in After(list, steps[0]) {
        FiresAtFirstDueTick(After(list, steps[0]), steps[1..], x);
        assert forall i | 0 < i < |steps| :: steps[i] == steps[1..][i - 1];
      } else {
        StaysGone(After(list, steps[0]), steps[1..], x);
      }
    }
  }

  lemma {:induction false} StaysGone(list: seq<Timer>, steps: seq<Step>, x: Timer)
    requires Sorted(list) && x !in list && Start(x) !in steps && Cancel(x) !in steps && AllNear(list, steps)
    ensures x !in Run(list, steps)
    decreases |steps|
  {
    if steps != [] {
      assert steps[0] in steps && forall y | y in steps[1..] :: y in steps;
      PendingAfter(list, steps[0], x);
      AfterSorted(list, steps[0]);
      StaysGone(After(list, steps[0]), steps[1..], x);
    }
  }
}
