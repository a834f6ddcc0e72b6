/** 2018 day 7, part B: a pool of workers does the steps, each taking the
    lowest step free to start whenever it is idle; step `t` lasts `t + 61`
    seconds. The answer is the time until every step is done. */
module Aoc2018D07Workers {
  import opened Wrappers
  import opened Aoc2018D07

  /** `INF_TIME`, `SIZE_MAX`: the remaining time of an idle worker. */
  const INF_TIME: nat := 0xFFFF_FFFF_FFFF_FFFF

  /** `task_time`. */
  function TaskTime(t: nat): nat {
    t + 61
  }

  // ---------------------------------------------------------------------
  // How much work is left

  /** The time the steps below `n` outside `out` take one after another. */
  function PendingWork(out: set<nat>, n: nat): nat {
    if n == 0 then 0 else PendingWork(out, n - 1) + (if n - 1 in out then 0 else TaskTime(n - 1))
  }

  /** The time every vertex of `g` takes: what one worker spends. */
  function Work(g: Graph): nat
    requires WellFormed(g)
  {
    PendingWork(All() - g.vertices, N)
  }

  /** Steps at or above `n` do not count. */
  lemma {:induction false} PendingWorkAbove(out: set<nat>, t: nat, n: nat)
    requires n <= t
    ensures PendingWork(out + {t}, n) == PendingWork(out, n)
  {
    if n > 0 {
      PendingWorkAbove(out, t, n - 1);
    }
  }

  /** Starting a step takes its time out of the pending work. */
  lemma {:induction false} PendingWorkTake(out: set<nat>, t: nat, n: nat)
    requires t !in out && t < n
    ensures PendingWork(out + {t}, n) + TaskTime(t) == PendingWork(out, n)
  {
    if t < n - 1 {
      PendingWorkTake(out, t, n - 1);
    } else {
      PendingWorkAbove(out, t, n - 1);
    }
  }

  /** Nothing is pending once every step is out. */
  lemma {:induction false} PendingWorkNone(out: set<nat>, n: nat)
    requires forall t :: 0 <= t < n ==> t in out
    ensures PendingWork(out, n) == 0
  {
    if n > 0 {
      PendingWorkNone(out, n - 1);
    }
  }

  /** No step takes more than 86 seconds. */
  lemma {:induction false} PendingWorkBound(out: set<nat>, n: nat)
    requires n <= N
    ensures PendingWork(out, n) <= 86 * n
  {
    if n > 0 {
      PendingWorkBound(out, n - 1);
    }
  }

  /** The time the busy workers still need. */
  function BusyWork(assignment: seq<Option<nat>>, remaining: seq<nat>): nat
    requires |assignment| == |remaining|
  {
    if assignment == [] then 0
    else
      var n := |assignment| - 1;
      BusyWork(assignment[..n], remaining[..n]) + (if assignment[n].Some? then remaining[n] else 0)
  }

  /** How many workers are busy. */
  function BusyCount(assignment: seq<Option<nat>>): (c: nat)
    ensures c <= |assignment|
  {
    if assignment == [] then 0
    else BusyCount(assignment[..|assignment| - 1]) + (if assignment[|assignment| - 1].Some? then 1 else 0)
  }

  lemma {:induction false} BusyCountPositive(assignment: seq<Option<nat>>, w: nat)
    requires w < |assignment| && assignment[w].Some?
    ensures BusyCount(assignment) > 0
  {
    var n := |assignment| - 1;
    if w < n {
      BusyCountPositive(assignment[..n], w);
    }
  }

  /** Giving worker `w` a new state changes the busy work by the
      difference between what it needs now and what it needed. */
  lemma {:induction false} BusyWorkSet(a: seq<Option<nat>>, r: seq<nat>, w: nat, x: Option<nat>, v: nat)
    requires |a| == |r| && w < |a|
    ensures BusyWork(a[w := x], r[w := v]) + (if a[w].Some? then r[w] else 0) ==
            BusyWork(a, r) + (if x.Some? then v else 0)
  {
    var n := |a| - 1;
    if w < n {
      BusyWorkSet(a[..n], r[..n], w, x, v);
      assert a[w := x][..n] == a[..n][w := x];
      assert r[w := v][..n] == r[..n][w := v];
    } else {
      assert a[w := x][..n] == a[..n];
      assert r[w := v][..n] == r[..n];
    }
  }

  // ---------------------------------------------------------------------
  // advance_time on values

  /** The least remaining time: what `min_element` finds. */
  function MinOf(s: seq<nat>): (m: nat)
    requires s != []
    ensures (exists w :: 0 <= w < |s| && s[w] == m) && forall w :: 0 <= w < |s| ==> m <= s[w]
  {
    if |s| == 1 then s[0]
    else
      var m := MinOf(s[..|s| - 1]);
      assert forall w :: 0 <= w < |s| - 1 ==> s[..|s| - 1][w] == s[w];
      if s[|s| - 1] < m then s[|s| - 1] else m
  }

  /** The workers after `t` seconds: those whose step ends go idle. */
  function AdvancedAssigned(a: seq<Option<nat>>, r: seq<nat>, t: nat): (a': seq<Option<nat>>)
    requires |a| == |r|
    ensures |a'| == |a|
  {
    seq(|a|, w requires 0 <= w < |a| => if r[w] == t then None else a[w])
  }

  /** The remaining times after `t` seconds: an ended step's worker goes
      back to `INF_TIME`. */
  function AdvancedRemaining(r: seq<nat>, t: nat): (r': seq<nat>)
    requires forall w :: 0 <= w < |r| ==> t <= r[w]
    ensures |r'| == |r|
  {
    seq(|r|, w requires 0 <= w < |r| => if r[w] == t then INF_TIME else r[w] - t)
  }

  /** The steps that end after `t` seconds, among the first `n` workers. */
  function EndedBelow(a: seq<Option<nat>>, r: seq<nat>, t: nat, n: nat): set<nat>
    requires |a| == |r| && n <= |a|
  {
    set w | 0 <= w < n && a[w].Some? && r[w] == t :: a[w].value
  }

  function Ended(a: seq<Option<nat>>, r: seq<nat>, t: nat): set<nat>
    requires |a| == |r|
  {
    EndedBelow(a, r, t, |a|)
  }

  lemma EndedStep(a: seq<Option<nat>>, r: seq<nat>, t: nat, n: nat)
    requires |a| == |r| && n < |a|
    ensures EndedBelow(a, r, t, n + 1) ==
            EndedBelow(a, r, t, n) + (if a[n].Some? && r[n] == t then {a[n].value} else {})
  {
    var lo, hi := EndedBelow(a, r, t, n), EndedBelow(a, r, t, n + 1);
    forall x | x in hi
      ensures x in lo + (if a[n].Some? && r[n] == t then {a[n].value} else {})
    {
      var w :| 0 <= w < n + 1 && a[w].Some? && r[w] == t && a[w].value == x;
      if w < n {
        assert x in lo;
      }
    }
  }

  /** The busy workers hold exactly the steps in progress, each once, and
      need more than nothing and at most the step's full time. */
  ghost predicate Serving(a: seq<Option<nat>>, r: seq<nat>, taken: set<nat>) {
    |a| == |r| &&
    (forall w :: 0 <= w < |a| && a[w].Some? ==> a[w].value in taken && 0 < r[w] <= TaskTime(a[w].value)) &&
    (forall x :: x in taken ==> exists w :: 0 <= w < |a| && a[w] == Some(x)) &&
    (forall v, w :: 0 <= v < w < |a| && a[v].Some? ==> a[v] != a[w])
  }

  /** Idle workers need longer than busy ones, so only busy ones end. */
  ghost predicate IdleLast(a: seq<Option<nat>>, r: seq<nat>)
    requires |a| == |r|
  {
    forall v, w :: 0 <= v < |a| && 0 <= w < |a| && a[v].None? && a[w].Some? ==> r[w] < r[v]
  }

  /** With a worker busy and idle workers needing longer, the least time
      is a busy worker's, and every worker whose time it is was busy. */
  lemma MinIsBusy(a: seq<Option<nat>>, r: seq<nat>, b: nat)
    requires |a| == |r| && b < |a| && a[b].Some? && IdleLast(a, r)
    ensures forall w :: 0 <= w < |a| && r[w] == MinOf(r) ==> a[w].Some?
  {
    forall w | 0 <= w < |a| && r[w] == MinOf(r)
      ensures a[w].Some?
    {
      assert MinOf(r) <= r[b];
    }
  }

  /** With a worker busy, the least time is positive and belongs to busy
      workers only, whose steps are steps of the puzzle. */
  lemma AdvanceReady(a: seq<Option<nat>>, r: seq<nat>, taken: set<nat>, b: nat)
    requires Serving(a, r, taken) && taken <= All()
    requires b < |a| && a[b].Some? && IdleLast(a, r)
    ensures 0 < MinOf(r)
    ensures forall w :: 0 <= w < |a| && r[w] == MinOf(r) ==> a[w].Some? && a[w].value < N
  {
    MinIsBusy(a, r, b);
    var w :| 0 <= w < |r| && r[w] == MinOf(r);
    assert a[w].Some?;
  }

  /** Advancing by the least time keeps the pool serving the steps still
      in progress. */
  lemma ServingAdvance(a: seq<Option<nat>>, r: seq<nat>, taken: set<nat>, t: nat)
    requires Serving(a, r, taken) && forall w :: 0 <= w < |r| ==> t <= r[w]
    requires forall w :: 0 <= w < |a| && r[w] == t ==> a[w].Some?
    ensures Serving(AdvancedAssigned(a, r, t), AdvancedRemaining(r, t), taken - Ended(a, r, t))
  {
    var a', r', f := AdvancedAssigned(a, r, t), AdvancedRemaining(r, t), Ended(a, r, t);
    forall w | 0 <= w < |a'| && a'[w].Some?
      ensures a'[w].value in taken - f && 0 < r'[w] <= TaskTime(a'[w].value)
    {
      assert a'[w] == a[w] && r[w] != t;
      forall v | 0 <= v < |a| && a[v].Some? && r[v] == t
        ensures a[v].value != a[w].value
      {
        assert v != w;
        if v < w {
          assert a[v] != a[w];
        } else {
          assert a[w] != a[v];
        }
      }
    }
    forall x | x in taken - f
      ensures exists w :: 0 <= w < |a'| && a'[w] == Some(x)
    {
      var w :| 0 <= w < |a| && a[w] == Some(x);
      assert r[w] != t;
      assert a'[w] == Some(x);
    }
    forall v, w | 0 <= v < w < |a'| && a'[v].Some?
      ensures a'[v] != a'[w]
    {
      assert a'[v] == a[v];
    }
  }

  /** After `t` seconds every busy worker needs `t` less; one whose step
      ends needs nothing more. */
  lemma {:induction false} BusyWorkAdvance(a: seq<Option<nat>>, r: seq<nat>, t: nat)
    requires |a| == |r| && forall w :: 0 <= w < |r| ==> t <= r[w]
    ensures BusyWork(AdvancedAssigned(a, r, t), AdvancedRemaining(r, t)) + t * BusyCount(a) == BusyWork(a, r)
  {
    if a != [] {
      var n := |a| - 1;
      BusyWorkAdvance(a[..n], r[..n], t);
      AdvancedPrefix(a, r, t, n);
      var d := if a[n].Some? then 1 else 0;
      assert BusyCount(a) == BusyCount(a[..n]) + d;
      Distribute(t, BusyCount(a[..n]), d);
    }
  }

  lemma Distribute(t: nat, c: nat, d: nat)
    ensures t * (c + d) == t * c + t * d
  {
  }

  lemma AdvancedPrefix(a: seq<Option<nat>>, r: seq<nat>, t: nat, n: nat)
    requires |a| == |r| && n <= |a| && forall w :: 0 <= w < |r| ==> t <= r[w]
    ensures AdvancedAssigned(a, r, t)[..n] == AdvancedAssigned(a[..n], r[..n], t)
    ensures AdvancedRemaining(r, t)[..n] == AdvancedRemaining(r[..n], t)
  {
  }

  // ---------------------------------------------------------------------
  // assign_tasks on values

  /** What `assign_tasks` changes: the workers and the steps free to start
      and in progress. */
  datatype Pool = Pool(assignment: seq<Option<nat>>, remaining: seq<nat>, available: set<nat>, taken: set<nat>)

  ghost predicate Sized(p: Pool) {
    |p.assignment| == |p.remaining|
  }

  /** Worker `w`'s turn: if idle, it takes the lowest step free to start,
      if there is one. */
  function AssignOne(p: Pool, w: nat): (q: Pool)
    requires Sized(p) && w < |p.assignment|
    ensures Sized(q) && |q.assignment| == |p.assignment|
  {
    if p.assignment[w].Some? then p
    else
      match First(p.available, 0)
      case None => p
      case Some(x) => Pool(p.assignment[w := Some(x)], p.remaining[w := TaskTime(x)], p.available - {x}, p.taken + {x})
  }

  /** Worker `v` was idle in `p` and holds a step in `q`. */
  predicate NewlyBusy(p: Pool, q: Pool, v: nat)
    requires Sized(p) && Sized(q) && |q.assignment| == |p.assignment|
  {
    v < |p.assignment| && p.assignment[v].None? && q.assignment[v].Some?
  }

  /** How the first `w` turns left the pool: later workers untouched, busy
      workers untouched, an idle worker that took a step needs all of its
      time, and one that stayed idle found nothing free. */
  ghost predicate Framed(p: Pool, q: Pool, w: nat)
    requires Sized(p) && Sized(q) && |q.assignment| == |p.assignment| && w <= |p.assignment|
  {
    (forall v :: w <= v < |p.assignment| ==> q.assignment[v] == p.assignment[v] && q.remaining[v] == p.remaining[v]) &&
    (forall v :: 0 <= v < w && p.assignment[v].Some? ==> q.assignment[v] == p.assignment[v] && q.remaining[v] == p.remaining[v]) &&
    (forall v :: 0 <= v < w && NewlyBusy(p, q, v) ==> q.remaining[v] == TaskTime(q.assignment[v].value)) &&
    (forall v :: 0 <= v < w && q.assignment[v].None? ==> q.remaining[v] == p.remaining[v]) &&
    (forall v, x :: 0 <= v < w && q.assignment[v].None? ==> x !in q.available)
  }

  /** The steps taken in the first `w` turns are the steps of the workers
      that became busy; they come out of the free steps. */
  ghost predicate Moved(p: Pool, q: Pool, w: nat)
    requires Sized(p) && Sized(q) && |q.assignment| == |p.assignment| && w <= |p.assignment|
  {
    (forall x :: x in q.available ==> x in p.available && x !in q.taken) &&
    (forall x :: x in p.taken ==> x in q.taken) &&
    (forall x :: x in p.available && x !in q.available ==> x in q.taken) &&
    (forall v :: 0 <= v < w && NewlyBusy(p, q, v) ==>
       q.assignment[v].value in p.available && q.assignment[v].value !in q.available) &&
    (forall x :: x in q.taken && x !in p.taken ==>
       x in p.available && exists v :: 0 <= v < w && NewlyBusy(p, q, v) && q.assignment[v] == Some(x))
  }

  /** The workers that became busy took steps in increasing order, each
      below every step still free. */
  ghost predicate Lowest(p: Pool, q: Pool, w: nat)
    requires Sized(p) && Sized(q) && |q.assignment| == |p.assignment| && w <= |p.assignment|
  {
    (forall u, v :: 0 <= u < v < w && NewlyBusy(p, q, u) && NewlyBusy(p, q, v) ==>
       q.assignment[u].value < q.assignment[v].value) &&
    (forall v, y :: 0 <= v < w && NewlyBusy(p, q, v) && y in q.available ==> q.assignment[v].value < y)
  }

  lemma AssignOneFramed(p: Pool, q: Pool, w: nat)
    requires Sized(p) && Sized(q) && |q.assignment| == |p.assignment| && w < |p.assignment| && Framed(p, q, w)
    requires q.available <= All()
    ensures Framed(p, AssignOne(q, w), w + 1)
  {
  }

  lemma AssignOneMoved(p: Pool, q: Pool, w: nat)
    requires Sized(p) && Sized(q) && |q.assignment| == |p.assignment| && w < |p.assignment|
    requires Framed(p, q, w) && Moved(p, q, w)
    ensures Moved(p, AssignOne(q, w), w + 1)
  {
    var q' := AssignOne(q, w);
    forall x | x in q'.taken && x !in p.taken
      ensures x in p.available && exists v :: 0 <= v < w + 1 && NewlyBusy(p, q', v) && q'.assignment[v] == Some(x)
    {
      if x in q.taken {
        var v :| 0 <= v < w && NewlyBusy(p, q, v) && q.assignment[v] == Some(x);
        assert q'.assignment[v] == q.assignment[v];
      } else {
        assert NewlyBusy(p, q', w) && q'.assignment[w] == Some(x);
      }
    }
    forall v | 0 <= v < w + 1 && NewlyBusy(p, q', v)
      ensures q'.assignment[v].value in p.available && q'.assignment[v].value !in q'.available
    {
      if v < w {
        assert q'.assignment[v] == q.assignment[v];
      }
    }
  }

  lemma AssignOneLowest(p: Pool, q: Pool, w: nat)
    requires Sized(p) && Sized(q) && |q.assignment| == |p.assignment| && w < |p.assignment|
    requires Framed(p, q, w) && Lowest(p, q, w)
    ensures Lowest(p, AssignOne(q, w), w + 1)
  {
    var q' := AssignOne(q, w);
    forall u, v | 0 <= u < v < w + 1 && NewlyBusy(p, q', u) && NewlyBusy(p, q', v)
      ensures q'.assignment[u].value < q'.assignment[v].value
    {
      assert q'.assignment[u] == q.assignment[u];
      if v < w {
        assert q'.assignment[v] == q.assignment[v];
      } else {
        assert q'.assignment[v].value in q.available;
      }
    }
    forall v, y | 0 <= v < w + 1 && NewlyBusy(p, q', v) && y in q'.available
      ensures q'.assignment[v].value < y
    {
      assert y in q.available;
      if v < w {
        assert q'.assignment[v] == q.assignment[v];
      }
    }
  }

  /** After the first `w` turns of `assign_tasks` starting from `p`. */
  ghost predicate Assigned(p: Pool, q: Pool, w: nat)
    requires Sized(p) && Sized(q) && |q.assignment| == |p.assignment| && w <= |p.assignment|
  {
    Framed(p, q, w) && Moved(p, q, w) && Lowest(p, q, w)
  }

  /** One more turn keeps the account of what `assign_tasks` did. */
  lemma AssignedStep(p: Pool, q: Pool, w: nat)
    requires Sized(p) && Sized(q) && |q.assignment| == |p.assignment| && w < |p.assignment|
    requires p.available <= All() && Assigned(p, q, w)
    ensures Assigned(p, AssignOne(q, w), w + 1)
  {
    AssignOneFramed(p, q, w);
    AssignOneMoved(p, q, w);
    AssignOneLowest(p, q, w);
  }

  /** Before the first turn nothing has happened. */
  lemma AssignedStart(p: Pool)
    requires Sized(p) && forall x :: x in p.available ==> x !in p.taken
    ensures Assigned(p, p, 0)
  {
  }

  /** The work still to do, with the steps in `done` done. */
  function Load(done: set<nat>, q: Pool): nat
    requires Sized(q)
  {
    PendingWork(done + q.taken, N) + BusyWork(q.assignment, q.remaining)
  }

  /** Handing out a step moves its time from the pending work to a worker. */
  lemma AssignOneLoad(q: Pool, w: nat, done: set<nat>)
    requires Sized(q) && w < |q.assignment|
    requires forall x :: x in q.available ==> x !in done && x !in q.taken
    ensures Load(done, AssignOne(q, w)) == Load(done, q)
  {
    if q.assignment[w].None? && First(q.available, 0).Some? {
      var x := First(q.available, 0).value;
      PendingWorkTake(done + q.taken, x, N);
      assert done + (q.taken + {x}) == (done + q.taken) + {x};
      BusyWorkSet(q.assignment, q.remaining, w, Some(x), TaskTime(x));
    }
  }

  /** After every turn, some worker is busy if a step was in progress or
      free to start. */
  lemma AssignedBusy(p: Pool, q: Pool, x: nat)
    requires Sized(p) && Sized(q) && |q.assignment| == |p.assignment| && 0 < |p.assignment|
    requires Assigned(p, q, |p.assignment|) && Serving(p.assignment, p.remaining, p.taken)
    requires x in p.available || x in p.taken
    ensures exists w :: 0 <= w < |q.assignment| && q.assignment[w].Some?
  {
    if x in p.taken {
      var w :| 0 <= w < |p.assignment| && p.assignment[w] == Some(x);
      assert q.assignment[w] == p.assignment[w];
    } else if x in q.available {
      assert q.assignment[0].Some?;
    } else {
      assert x in q.taken && x !in p.taken;
      var v :| 0 <= v < |p.assignment| && NewlyBusy(p, q, v) && q.assignment[v] == Some(x);
    }
  }

  lemma {:induction false} BusyWorkIdle(a: seq<Option<nat>>, r: seq<nat>)
    requires |a| == |r| && forall w :: 0 <= w < |a| ==> a[w].None?
    ensures BusyWork(a, r) == 0
  {
    if a != [] {
      var n := |a| - 1;
      assert forall w :: 0 <= w < n ==> a[..n][w] == a[w];
      BusyWorkIdle(a[..n], r[..n]);
    }
  }

  // ---------------------------------------------------------------------
  // worker_pool_t

  /** `worker_pool_t`: the step each worker holds, if any, and the time it
      still needs (`INF_TIME` when idle). */
  class WorkerPool {
    var assignment: seq<Option<nat>>
    var remaining: seq<nat>

    /** Every worker starts idle. */
    constructor (workers: nat)
      ensures assignment == seq(workers, _ => None) && remaining == seq(workers, _ => INF_TIME)
    {
      assignment := seq(workers, _ => None);
      remaining := seq(workers, _ => INF_TIME);
    }

    /** `available`: the worker holds no step. */
    predicate Available(w: nat)
      reads this
      requires w < |assignment|
    {
      assignment[w].None?
    }

    function NumWorkers(): nat
      reads this
    {
      |assignment|
    }

    /** The workers and the steps as a value. */
    ghost function Current(tasks: Tasks): Pool
      reads this, tasks
    {
      Pool(assignment, remaining, tasks.available, tasks.taken)
    }

    /** `advance_time`: moves time on to the next step that ends, marks every
        step that ends then as done and frees its worker; returns the time
        that passed. */
    method AdvanceTime(tasks: Tasks) returns (t: nat)
      requires tasks.Valid() && Serving(assignment, remaining, tasks.taken)
      requires exists w :: 0 <= w < |assignment| && assignment[w].Some?
      requires IdleLast(assignment, remaining)
      modifies this, tasks
      ensures t == MinOf(old(remaining)) && 0 < t
      ensures forall w :: 0 <= w < |old(remaining)| ==> t <= old(remaining)[w]
      ensures assignment == AdvancedAssigned(old(assignment), old(remaining), t)
      ensures remaining == AdvancedRemaining(old(remaining), t)
      ensures tasks.done == old(tasks.done) + Ended(old(assignment), old(remaining), t)
      ensures tasks.taken == old(tasks.taken) - Ended(old(assignment), old(remaining), t)
      ensures tasks.available == old(tasks.available) - Ended(old(assignment), old(remaining), t)
      ensures tasks.Valid() && Serving(assignment, remaining, tasks.taken)
    {
      ghost var a0, r0, taken0 := assignment, remaining, tasks.taken;
      t := NextTime(tasks.taken);
      ServingAdvance(a0, r0, taken0, t);
      Subtract(t);
      Release(tasks, a0, r0, t);
    }

    /** The first loop of `advance_time`: the least remaining time, which
        belongs to busy workers only. */
    method NextTime(ghost taken: set<nat>) returns (t: nat)
      requires Serving(assignment, remaining, taken) && taken <= All()
      requires exists w :: 0 <= w < |assignment| && assignment[w].Some?
      requires IdleLast(assignment, remaining)
      ensures t == MinOf(remaining) && 0 < t
      ensures forall w :: 0 <= w < |assignment| && remaining[w] == t ==>
                assignment[w].Some? && assignment[w].value < N
    {
      t := MinimumTime();
      ghost var b :| 0 <= b < |assignment| && assignment[b].Some?;
      AdvanceReady(assignment, remaining, taken, b);
    }

    /** `rt -= t` for every worker. */
    method Subtract(t: nat)
      requires forall w :: 0 <= w < |remaining| ==> t <= remaining[w]
      modifies this
      ensures assignment == old(assignment) && |remaining| == |old(remaining)|
      ensures forall w :: 0 <= w < |remaining| ==> remaining[w] == old(remaining)[w] - t
    {
      for w := 0 to |remaining|
        invariant |remaining| == |old(remaining)| && assignment == old(assignment)
        invariant forall v :: 0 <= v < w ==> remaining[v] == old(remaining)[v] - t
        invariant forall v :: w <= v < |remaining| ==> remaining[v] == old(remaining)[v]
      {
        remaining := remaining[w := remaining[w] - t];
      }
    }

    /** The second loop of `advance_time`: every worker whose time is up
        marks its step as done and goes idle. */
    method Release(tasks: Tasks, ghost a0: seq<Option<nat>>, ghost r0: seq<nat>, t: nat)
      requires tasks.Valid() && assignment == a0 && |r0| == |a0| == |remaining|
      requires forall w :: 0 <= w < |r0| ==> t <= r0[w] && remaining[w] == r0[w] - t
      requires forall w :: 0 <= w < |a0| && r0[w] == t ==> a0[w].Some? && a0[w].value < N
      modifies this, tasks
      ensures assignment == AdvancedAssigned(a0, r0, t)
      ensures remaining == AdvancedRemaining(r0, t)
      ensures tasks.Valid()
      ensures tasks.done == old(tasks.done) + Ended(a0, r0, t)
      ensures tasks.taken == old(tasks.taken) - Ended(a0, r0, t)
      ensures tasks.available == old(tasks.available) - Ended(a0, r0, t)
    {
      ghost var d0, tk0, av0 := tasks.done, tasks.taken, tasks.available;
      for w := 0 to |assignment|
        invariant Released(tasks, a0, r0, t, w, d0, tk0, av0)
      {
        ReleaseOne(tasks, a0, r0, t, w, d0, tk0, av0);
      }
    }

    /** The first `w` workers are released. */
    ghost predicate Released(tasks: Tasks, a0: seq<Option<nat>>, r0: seq<nat>, t: nat, w: nat,
                             d0: set<nat>, tk0: set<nat>, av0: set<nat>)
      reads this, tasks
    {
      |a0| == |r0| && w <= |a0| && |assignment| == |a0| && |remaining| == |r0| &&
      (forall v :: 0 <= v < |r0| ==> t <= r0[v]) &&
      (forall v :: 0 <= v < w ==> assignment[v] == AdvancedAssigned(a0, r0, t)[v]) &&
      (forall v :: 0 <= v < w ==> remaining[v] == AdvancedRemaining(r0, t)[v]) &&
      (forall v :: w <= v < |a0| ==> assignment[v] == a0[v] && remaining[v] == r0[v] - t) &&
      tasks.Valid() &&
      tasks.done == d0 + EndedBelow(a0, r0, t, w) &&
      tasks.taken == tk0 - EndedBelow(a0, r0, t, w) &&
      tasks.available == av0 - EndedBelow(a0, r0, t, w)
    }

    /** One worker of the second loop of `advance_time`. */
    method ReleaseOne(tasks: Tasks, ghost a0: seq<Option<nat>>, ghost r0: seq<nat>, t: nat, w: nat,
                      ghost d0: set<nat>, ghost tk0: set<nat>, ghost av0: set<nat>)
      requires Released(tasks, a0, r0, t, w, d0, tk0, av0) && w < |a0|
      requires forall v :: 0 <= v < |a0| && r0[v] == t ==> a0[v].Some? && a0[v].value < N
      modifies this, tasks
      ensures Released(tasks, a0, r0, t, w + 1, d0, tk0, av0)
    {
      EndedStep(a0, r0, t, w);
      if remaining[w] == 0 {
        tasks.MarkAsDone(assignment[w].value);
        assignment := assignment[w := None];
        remaining := remaining[w := INF_TIME];
      }
    }

    /** `min_element` over the remaining times. */
    method MinimumTime() returns (m: nat)
      requires |remaining| > 0
      ensures m == MinOf(remaining)
    {
      m := remaining[0];
      for i := 1 to |remaining|
        invariant m == MinOf(remaining[..i])
      {
        assert remaining[..i + 1][..i] == remaining[..i];
        if remaining[i] < m {
          m := remaining[i];
        }
      }
      assert remaining[..|remaining|] == remaining;
    }

    /** The first `w` turns of `assign_tasks` from `p` are over. */
    ghost predicate Assigning(tasks: Tasks, p: Pool, done: set<nat>, w: nat)
      reads this, tasks
    {
      tasks.Valid() && tasks.done == done &&
      Sized(p) && w <= |p.assignment| && p.available <= All() &&
      |assignment| == |remaining| == |p.assignment| &&
      Assigned(p, Current(tasks), w) &&
      Load(done, Current(tasks)) == Load(done, p)
    }

    /** One turn of `assign_tasks`: worker `w`, if idle, takes the lowest
        step free to start, if any. */
    method AssignTurn(tasks: Tasks, w: nat)
      requires tasks.Valid() && |assignment| == |remaining| && w < |assignment|
      modifies this, tasks
      ensures tasks.Valid() && tasks.done == old(tasks.done)
      ensures Current(tasks) == AssignOne(old(Current(tasks)), w)
    {
      if Available(w) {
        var t := tasks.NextAvailable();
        if t.Some? {
          tasks.Take(t.value);
          assignment := assignment[w := t];
          remaining := remaining[w := TaskTime(t.value)];
        }
      }
    }

    /** A turn keeps the account of `assign_tasks` so far. */
    method AssignStep(tasks: Tasks, w: nat, ghost p: Pool, ghost done: set<nat>)
      requires Assigning(tasks, p, done, w) && w < |assignment|
      modifies this, tasks
      ensures Assigning(tasks, p, done, w + 1)
    {
      ghost var q := Current(tasks);
      AssignedStep(p, q, w);
      AssignOneLoad(q, w, done);
      AssignTurn(tasks, w);
    }

    /** `assign_tasks`: every idle worker in turn takes the lowest step free
        to start. The steps handed out go from free to in progress, lowest
        first in worker order, each with its full time; busy workers keep
        theirs; a worker stays idle only if nothing is left free; the work
        still to do does not change. */
    method AssignTasks(tasks: Tasks)
      requires tasks.Valid() && Serving(assignment, remaining, tasks.taken)
      modifies this, tasks
      ensures tasks.Valid() && tasks.done == old(tasks.done) && |assignment| == |old(assignment)|
      ensures Serving(assignment, remaining, tasks.taken)
      ensures Assigned(old(Current(tasks)), Current(tasks), |assignment|)
      ensures Load(tasks.done, Current(tasks)) == Load(old(tasks.done), old(Current(tasks)))
    {
      ghost var p := Current(tasks);
      AssignedStart(p);
      for w := 0 to |assignment|
        invariant Assigning(tasks, p, old(tasks.done), w)
      {
        AssignStep(tasks, w, p, old(tasks.done));
      }
      AssignedServing(p, Current(tasks));
    }
  }

  /** After all the turns the pool serves the steps in progress. */
  lemma AssignedServing(p: Pool, q: Pool)
    requires Sized(p) && Sized(q) && |q.assignment| == |p.assignment|
    requires Serving(p.assignment, p.remaining, p.taken) && forall x :: x in p.available ==> x !in p.taken
    requires Assigned(p, q, |p.assignment|)
    ensures Serving(q.assignment, q.remaining, q.taken)
  {
    var n := |p.assignment|;
    forall w | 0 <= w < n && q.assignment[w].Some?
      ensures q.assignment[w].value in q.taken && 0 < q.remaining[w] <= TaskTime(q.assignment[w].value)
    {
      if p.assignment[w].Some? {
        assert q.assignment[w] == p.assignment[w];
      } else {
        assert NewlyBusy(p, q, w);
      }
    }
    forall x | x in q.taken
      ensures exists w :: 0 <= w < n && q.assignment[w] == Some(x)
    {
      if x in p.taken {
        var w :| 0 <= w < n && p.assignment[w] == Some(x);
        assert q.assignment[w] == p.assignment[w];
      }
    }
    forall u, v | 0 <= u < v < n && q.assignment[u].Some?
      ensures q.assignment[u] != q.assignment[v]
    {
      if p.assignment[u].Some? && p.assignment[v].Some? {
        assert q.assignment[u] == p.assignment[u] && q.assignment[v] == p.assignment[v];
      } else if p.assignment[u].Some? {
        assert q.assignment[u] == p.assignment[u];
        assert q.assignment[u].value in p.taken;
      } else if p.assignment[v].Some? {
        assert q.assignment[v] == p.assignment[v];
        assert q.assignment[v].value in p.taken;
      }
    }
  }

  /** `assign_tasks` keeps the free steps those ready and not in progress. */
  lemma AssignedAvail(p: Pool, q: Pool, ready: set<nat>)
    requires Sized(p) && Sized(q) && |q.assignment| == |p.assignment|
    requires Assigned(p, q, |p.assignment|) && p.available == ready - p.taken
    ensures q.available == ready - q.taken
  {
  }

  /** A worker idle after `assign_tasks` was idle before, with the same time. */
  lemma AssignedIdle(p: Pool, q: Pool, w: nat)
    requires Sized(p) && Sized(q) && |q.assignment| == |p.assignment| && w < |p.assignment|
    requires Assigned(p, q, |p.assignment|) && q.assignment[w].None?
    ensures p.assignment[w].None? && q.remaining[w] == p.remaining[w]
  {
  }

  /** While some step is not done, one is in progress or free to start. */
  lemma SomethingToDo(g: Graph, done: set<nat>, taken: set<nat>, available: set<nat>) returns (x: nat)
    requires WellFormed(g) && Acyclic(g) && available == Avail(g, done) - taken
    requires exists t :: 0 <= t < N && t !in done
    ensures x in available || x in taken
  {
    if taken != {} {
      x :| x in taken;
    } else {
      var t :| 0 <= t < N && t !in done;
      ReadyExists(g, done, t);
      x := First(Avail(g, done), 0).value;
    }
  }

  /** A step stays ready when more steps are done. */
  lemma ReadyGrows(g: Graph, done: set<nat>, more: set<nat>)
    requires WellFormed(g) && done <= more
    ensures Ready(g, done) <= Ready(g, more)
  {
  }

  /** `update` after `advance_time`: the free steps are again those ready
      and neither done nor in progress. */
  lemma UpdateAvail(g: Graph, done: set<nat>, taken: set<nat>, ended: set<nat>)
    requires WellFormed(g)
    ensures ((Avail(g, done) - taken - ended) + Ready(g, done + ended)) - (taken - ended) - (done + ended) ==
            Avail(g, done + ended) - (taken - ended)
  {
    ReadyGrows(g, done, done + ended);
  }

  /** The work is at most 86 seconds for each of the 26 steps. */
  lemma WorkBound(g: Graph)
    requires WellFormed(g)
    ensures Work(g) <= 2236
  {
    PendingWorkBound(All() - g.vertices, N);
  }

  /** With the clock within the work, idle workers need far more than any
      step, so the least time is a busy worker's. */
  lemma IdleLastHolds(q: Pool, elapsed: nat, g: Graph)
    requires WellFormed(g) && Serving(q.assignment, q.remaining, q.taken) && q.taken <= All()
    requires elapsed <= Work(g)
    requires forall w :: 0 <= w < |q.assignment| && q.assignment[w].None? ==> INF_TIME - elapsed <= q.remaining[w]
    ensures IdleLast(q.assignment, q.remaining)
  {
    WorkBound(g);
  }

  /** An idle worker after `advance_time` was freed, or was idle. */
  lemma IdleAfterAdvance(a: seq<Option<nat>>, r: seq<nat>, t: nat, elapsed: nat, a': seq<Option<nat>>, r': seq<nat>)
    requires |a| == |r| && forall w :: 0 <= w < |r| ==> t <= r[w]
    requires forall w :: 0 <= w < |a| && a[w].None? ==> INF_TIME - elapsed <= r[w]
    requires a' == AdvancedAssigned(a, r, t) && r' == AdvancedRemaining(r, t)
    ensures forall w :: 0 <= w < |a'| && a'[w].None? ==> INF_TIME - (elapsed + t) <= r'[w]
  {
  }

  /** `advance_time` takes `t` seconds off each busy worker's work. */
  lemma LoadAdvance(done: set<nat>, q: Pool, t: nat, available: set<nat>)
    requires Sized(q) && Serving(q.assignment, q.remaining, q.taken)
    requires forall w :: 0 <= w < |q.remaining| ==> t <= q.remaining[w]
    ensures var e := Ended(q.assignment, q.remaining, t);
      Load(done + e, Pool(AdvancedAssigned(q.assignment, q.remaining, t), AdvancedRemaining(q.remaining, t), available, q.taken - e))
        + t * BusyCount(q.assignment) == Load(done, q)
  {
    var e := Ended(q.assignment, q.remaining, t);
    assert e <= q.taken;
    assert (done + e) + (q.taken - e) == done + q.taken;
    BusyWorkAdvance(q.assignment, q.remaining, t);
  }

  lemma MulBounds(t: nat, b: nat, n: nat)
    requires 1 <= b <= n
    ensures t <= t * b <= t * n
  {
    assert t * b == t + t * (b - 1);
    assert t * n == t * b + t * (n - b);
  }

  // ---------------------------------------------------------------------
  // resultB

  /** The work still to do in the running puzzle. */
  ghost function Left(tasks: Tasks, pool: WorkerPool): nat
    reads tasks, pool
    requires |pool.assignment| == |pool.remaining|
  {
    Load(tasks.done, pool.Current(tasks))
  }

  /** What holds between rounds of `resultB` with `n` workers after
      `elapsed` seconds, on values: the steps free to start are those
      ready and not in progress; the work done so far is between `elapsed`
      (the pool never idles completely) and `n * elapsed` (no more than
      `n` workers), exactly `elapsed` with one worker. */
  ghost predicate Between(g: Graph, done: set<nat>, q: Pool, n: nat, elapsed: nat) {
    WellFormed(g) && |q.assignment| == n && Serving(q.assignment, q.remaining, q.taken) &&
    q.available == Avail(g, done) - q.taken &&
    (forall w :: 0 <= w < n && q.assignment[w].None? ==> INF_TIME - elapsed <= q.remaining[w]) &&
    elapsed + Load(done, q) <= Work(g) <= n * elapsed + Load(done, q) &&
    (n == 1 ==> elapsed + Load(done, q) == Work(g))
  }

  /** `Between` on the running objects. */
  ghost predicate Running(g: Graph, tasks: Tasks, pool: WorkerPool, n: nat, elapsed: nat)
    reads tasks, pool
  {
    tasks.Valid() && Between(g, tasks.done, pool.Current(tasks), n, elapsed)
  }

  /** A round's `advance_time` and `update` on values: the clock moves on by
      the least remaining time and the work left shrinks by at least that
      much. */
  lemma BetweenTicked(g: Graph, done: set<nat>, q: Pool, n: nat, elapsed: nat, t: nat, later: nat)
    requires Between(g, done, q, n, elapsed) && q.taken <= All()
    requires exists w :: 0 <= w < n && q.assignment[w].Some?
    requires q.remaining != [] && t == MinOf(q.remaining) && 0 < t && later == elapsed + t
    ensures var e := Ended(q.assignment, q.remaining, t);
      Between(g, done + e, Ticked(g, q, t, done), n, later) && Load(done + e, Ticked(g, q, t, done)) < Load(done, q)
  {
    var w :| 0 <= w < n && q.assignment[w].Some?;
    IdleLastHolds(q, elapsed, g);
    MinIsBusy(q.assignment, q.remaining, w);
    BetweenAdvance(g, done, q, n, elapsed, t, later, Ticked(g, q, t, done));
  }

  lemma BetweenAdvance(g: Graph, done: set<nat>, q: Pool, n: nat, elapsed: nat, t: nat, later: nat, q': Pool)
    requires Between(g, done, q, n, elapsed)
    requires exists w :: 0 <= w < n && q.assignment[w].Some?
    requires 0 < t && later == elapsed + t && forall w :: 0 <= w < |q.remaining| ==> t <= q.remaining[w]
    requires forall w :: 0 <= w < n && q.remaining[w] == t ==> q.assignment[w].Some?
    requires q' == Ticked(g, q, t, done)
    ensures var e := Ended(q.assignment, q.remaining, t);
      Between(g, done + e, q', n, later) && Load(done + e, q') < Load(done, q)
  {
    var e := Ended(q.assignment, q.remaining, t);
    ServingAdvance(q.assignment, q.remaining, q.taken, t);
    IdleAfterAdvance(q.assignment, q.remaining, t, elapsed, q'.assignment, q'.remaining);
    LoadAdvance(done, q, t, q'.available);
    var w :| 0 <= w < n && q.assignment[w].Some?;
    BusyCountPositive(q.assignment, w);
    Accounting(Work(g), elapsed, t, later, Load(done, q), Load(done + e, q'), BusyCount(q.assignment), n);
  }

  /** Between `assign_tasks` and `advance_time` in a round of `resultB`:
      what holds between rounds, with some worker busy. */
  ghost predicate Staffed(g: Graph, tasks: Tasks, pool: WorkerPool, n: nat, elapsed: nat)
    reads tasks, pool
  {
    Running(g, tasks, pool, n, elapsed) &&
    (exists w :: 0 <= w < n && pool.assignment[w].Some?)
  }

  /** One round of `resultB`'s loop: assign, advance, update. */
  method Round(g: Graph, tasks: Tasks, pool: WorkerPool, n: nat, elapsed: nat) returns (later: nat)
    requires WellFormed(g) && Acyclic(g) && n > 0 && Running(g, tasks, pool, n, elapsed) && tasks.Pending()
    modifies tasks, pool
    ensures elapsed < later && Running(g, tasks, pool, n, later)
    ensures Left(tasks, pool) < old(Left(tasks, pool))
  {
    AssignPhase(g, tasks, pool, n, elapsed);
    later := AdvancePhase(g, tasks, pool, n, elapsed);
  }

  /** `assign_tasks` in a round: some worker ends up busy. */
  method AssignPhase(g: Graph, tasks: Tasks, pool: WorkerPool, n: nat, ghost elapsed: nat)
    requires WellFormed(g) && Acyclic(g) && n > 0 && Running(g, tasks, pool, n, elapsed) && tasks.Pending()
    modifies tasks, pool
    ensures Staffed(g, tasks, pool, n, elapsed) && Left(tasks, pool) == old(Left(tasks, pool))
  {
    ghost var p, done := pool.Current(tasks), tasks.done;
    ghost var x := SomethingToDo(g, done, tasks.taken, tasks.available);
    pool.AssignTasks(tasks);
    ghost var q := pool.Current(tasks);
    AssignedBusy(p, q, x);
    AssignedAvail(p, q, Avail(g, done));
    forall w | 0 <= w < n && q.assignment[w].None?
      ensures INF_TIME - elapsed <= q.remaining[w]
    {
      AssignedIdle(p, q, w);
    }
  }

  /** `advance_time` and `update` in a round: time moves on and the work
      left shrinks by at least that much and at most `n` times that much. */
  method AdvancePhase(g: Graph, tasks: Tasks, pool: WorkerPool, n: nat, elapsed: nat) returns (later: nat)
    requires n > 0 && Staffed(g, tasks, pool, n, elapsed)
    modifies tasks, pool
    ensures elapsed < later && Running(g, tasks, pool, n, later)
    ensures Left(tasks, pool) < old(Left(tasks, pool))
  {
    ghost var q, done := pool.Current(tasks), tasks.done;
    IdleLastHolds(q, elapsed, g);
    var t := Tick(g, tasks, pool, q, done);
    later := elapsed + t;
    BetweenTicked(g, done, q, n, elapsed, t, later);
  }

  /** The state after `advance_time` by `t` and `update`. */
  function Ticked(g: Graph, q: Pool, t: nat, done: set<nat>): (q': Pool)
    requires WellFormed(g) && Sized(q) && forall w :: 0 <= w < |q.remaining| ==> t <= q.remaining[w]
  {
    var e := Ended(q.assignment, q.remaining, t);
    Pool(AdvancedAssigned(q.assignment, q.remaining, t), AdvancedRemaining(q.remaining, t),
         Avail(g, done + e) - (q.taken - e), q.taken - e)
  }

  /** `advance_time` then `update`, from the state `q` with `done` done. */
  method Tick(g: Graph, tasks: Tasks, pool: WorkerPool, ghost q: Pool, ghost done: set<nat>) returns (t: nat)
    requires WellFormed(g) && tasks.Valid() && q == pool.Current(tasks) && done == tasks.done
    requires Serving(q.assignment, q.remaining, q.taken) && q.available == Avail(g, done) - q.taken
    requires exists w :: 0 <= w < |q.assignment| && q.assignment[w].Some?
    requires IdleLast(q.assignment, q.remaining)
    modifies tasks, pool
    ensures q.remaining != [] && t == MinOf(q.remaining) && 0 < t
    ensures tasks.Valid() && tasks.done == done + Ended(q.assignment, q.remaining, t)
    ensures pool.Current(tasks) == Ticked(g, q, t, done)
  {
    t := pool.AdvanceTime(tasks);
    tasks.Update(g);
    UpdateAvail(g, done, q.taken, Ended(q.assignment, q.remaining, t));
  }

  /** The clock and the work left after a round of `t` seconds in which `b`
      of the `n` workers were busy. */
  lemma Accounting(work: nat, elapsed: nat, t: nat, later: nat, left0: nat, left: nat, b: nat, n: nat)
    requires 0 < t && later == elapsed + t && 1 <= b <= n && left + t * b == left0
    requires elapsed + left0 <= work <= n * elapsed + left0 && (n == 1 ==> elapsed + left0 == work)
    ensures later + left <= work <= n * later + left
    ensures n == 1 ==> later + left == work
    ensures left < left0
  {
    MulBounds(t, b, n);
    Distribute(n, elapsed, t);
    assert t * n == n * t;
  }

  /** `resultB`: the seconds `nworkers` workers take for every step. They
      are at least the work over the number of workers and at most the
      work, which is the sum of the steps' times; one worker takes exactly
      the work. */
  method ResultB(g: Graph, nworkers: nat) returns (elapsed: nat)
    requires WellFormed(g) && Acyclic(g) && nworkers > 0
    ensures Work(g) <= nworkers * elapsed && elapsed <= Work(g)
    ensures nworkers == 1 ==> elapsed == Work(g)
  {
    elapsed := 0;
    var tasks, workers := Start(g, nworkers);
    while tasks.Pending()
      invariant fresh(tasks) && fresh(workers)
      invariant Running(g, tasks, workers, nworkers, elapsed)
      decreases Left(tasks, workers)
    {
      elapsed := Round(g, tasks, workers, nworkers, elapsed);
    }
    NothingLeft(g, tasks.done, workers.Current(tasks), nworkers, elapsed);
  }

  /** The set-up of `resultB`: nothing done but what is not a vertex, every
      worker idle, the steps with no prerequisites free. */
  method Start(g: Graph, nworkers: nat) returns (tasks: Tasks, workers: WorkerPool)
    requires WellFormed(g)
    ensures fresh(tasks) && fresh(workers) && Running(g, tasks, workers, nworkers, 0)
  {
    tasks := new Tasks(g.vertices);
    workers := new WorkerPool(nworkers);
    tasks.Update(g);
    BusyWorkIdle(workers.assignment, workers.remaining);
    assert tasks.done + {} == All() - g.vertices;
  }

  /** Once every step is done no work is left, and the clock is the answer. */
  lemma NothingLeft(g: Graph, done: set<nat>, q: Pool, n: nat, elapsed: nat)
    requires Between(g, done, q, n, elapsed) && All() <= done && q.taken <= All() && q.taken * done == {}
    ensures Load(done, q) == 0
  {
    assert q.taken == q.taken * done == {};
    PendingWorkNone(done + q.taken, N);
    BusyWorkIdle(q.assignment, q.remaining);
  }
}
