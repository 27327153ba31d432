/** Publication of weight changes, at the granularity of single atomic instructions.

    A weight changes under its own lock; the thread that changed it then climbs the tree and
    adds the difference to the `left` cache of every ancestor reached from its left side, one
    fetch_add at a time, and finally adds it to the pool's total.  Any number of threads do this
    at once, and instances are appended meanwhile.  The module proves what every interleaving
    keeps. */
module WeightPublication {
  import opened WeightTree

  /** A thread between its weight change and its last fetch_add: `cursor` is the loop variable
      of update_parent_weight; at the root only the addition to the total is left. */
  datatype Publisher = Publisher(diff: int, cursor: nat)

  datatype Pool = Pool(weight: seq<int>, left: seq<int>, total: int, pending: seq<Publisher>)

  datatype Step =
    | SetWeight(i: nat, v: int)   // any operation of class Weight on instance i
    | Climb(t: nat)               // one iteration of update_parent_weight in thread t
    | AddTotal(t: nat)            // total_fetch_add in thread t
    | Append(v: int)              // a new instance joins with weight v

  predicate Enabled(s: Pool, step: Step) {
    match step
    case SetWeight(i, _) => i < |s.weight|
    case Climb(t) => t < |s.pending| && 0 < s.pending[t].cursor <= 2 * |s.left|
    case AddTotal(t) => t < |s.pending| && s.pending[t].cursor == 0
    case Append(_) => true
  }

  function Next(s: Pool, step: Step): Pool
    requires Enabled(s, step)
  {
    match step
    case SetWeight(i, v) =>
      s.(weight := s.weight[i := v], pending := s.pending + [Publisher(v - s.weight[i], i)])
    case Climb(t) =>
      var p := s.pending[t];
      var parent := (p.cursor - 1) / 2;
      s.(left := if 2 * parent + 1 == p.cursor
                 then s.left[parent := s.left[parent] + p.diff] else s.left,
         pending := s.pending[t := p.(cursor := parent)])
    case AddTotal(t) =>
      s.(total := s.total + s.pending[t].diff, pending := s.pending[..t] + s.pending[t + 1..])
    case Append(v) =>
      s.(weight := s.weight + [v], left := s.left + [0],
         pending := s.pending + [Publisher(v, |s.weight|)])
  }

  const EMPTY := Pool([], [], 0, [])

  datatype Outcome = Reached(pool: Pool) | Stuck

  /** The state a schedule of steps leads to, if every step was enabled when it was taken. */
  function Run(s: Pool, steps: seq<Step>): Outcome
    decreases |steps|
  {
    if steps == [] then Reached(s)
    else if Enabled(s, steps[0]) then Run(Next(s, steps[0]), steps[1..])
    else Stuck
  }

  // ----- What is still on its way

  /** The part of the pending differences that has yet to be added to left[j]: those whose
      climb has not yet passed the edge from 2j+1 up to j. */
  ghost function OwedToLeft(pending: seq<Publisher>, j: nat): int {
    if pending == [] then 0
    else OwedToLeft(pending[..|pending| - 1], j) + Owes(pending[|pending| - 1], j)
  }

  ghost function Owes(p: Publisher, j: nat): int {
    if InSubtree(2 * j + 1, p.cursor) then p.diff else 0
  }

  ghost function OwedToTotal(pending: seq<Publisher>): int {
    if pending == [] then 0
    else OwedToTotal(pending[..|pending| - 1]) + pending[|pending| - 1].diff
  }

  /** Conservation: caches plus what is owed to them are the true sums. */
  ghost predicate Conserved(s: Pool) {
    && |s.left| == |s.weight|
    && (forall t :: 0 <= t < |s.pending| ==> s.pending[t].cursor < |s.weight|)
    && (forall j :: 0 <= j < |s.weight| ==>
          s.left[j] + OwedToLeft(s.pending, j) == SubtreeSum(s.weight, 2 * j + 1))
    && s.total + OwedToTotal(s.pending) == Sum(s.weight)
  }

  // ----- How the debts change

  lemma OwedAfterAdd(pending: seq<Publisher>, p: Publisher, j: nat)
    ensures OwedToLeft(pending + [p], j) == OwedToLeft(pending, j) + Owes(p, j)
    ensures OwedToTotal(pending + [p]) == OwedToTotal(pending) + p.diff
  {
  }

  lemma {:induction false} OwedAfterMove(pending: seq<Publisher>, t: nat, p: Publisher, j: nat)
    requires t < |pending|
    ensures OwedToLeft(pending[t := p], j) == OwedToLeft(pending, j) - Owes(pending[t], j) + Owes(p, j)
    ensures OwedToTotal(pending[t := p]) == OwedToTotal(pending) - pending[t].diff + p.diff
  {
    var n := |pending| - 1;
    if t < n {
      OwedAfterMove(pending[..n], t, p, j);
      assert pending[t := p][..n] == pending[..n][t := p];
    } else {
      assert pending[t := p][..n] == pending[..n];
    }
  }

  /** An element taken out in front of the last one. */
  lemma TakenOut<T>(s: seq<T>, t: nat, rest: seq<T>)
    requires t < |s| - 1 && rest == s[..t] + s[t + 1..]
    ensures |rest| == |s| - 1 && rest[|s| - 2] == s[|s| - 1] && s[..|s| - 1][t] == s[t]
    ensures rest[..|s| - 2] == s[..|s| - 1][..t] + s[..|s| - 1][t + 1..]
  {
  }

  lemma {:induction false} OwedAfterRemove(pending: seq<Publisher>, t: nat, j: nat)
    requires t < |pending|
    ensures OwedToLeft(pending[..t] + pending[t + 1..], j) == OwedToLeft(pending, j) - Owes(pending[t], j)
    ensures OwedToTotal(pending[..t] + pending[t + 1..]) == OwedToTotal(pending) - pending[t].diff
  {
    hide Owes;
    var n := |pending| - 1;
    var rest := pending[..t] + pending[t + 1..];
    if t < n {
      TakenOut(pending, t, rest);
      OwedAfterRemove(pending[..n], t, j);
    } else {
      assert rest == pending[..n];
    }
  }

  // ----- Every step conserves

  lemma SetWeightConserves(s: Pool, i: nat, v: int)
    requires Conserved(s) && i < |s.weight|
    ensures Conserved(Next(s, SetWeight(i, v)))
  {
    var s' := Next(s, SetWeight(i, v));
    forall j | 0 <= j < |s'.weight|
      ensures s'.left[j] + OwedToLeft(s'.pending, j) == SubtreeSum(s'.weight, 2 * j + 1)
    {
      OwedAfterAdd(s.pending, Publisher(v - s.weight[i], i), j);
      SumAfterChange(s.weight, i, v, 2 * j + 1);
    }
    OwedAfterAdd(s.pending, Publisher(v - s.weight[i], i), 0);
    SumAfterChange(s.weight, i, v, 0);
    RootCoversAll(i);
    RootSumIsTotal(s.weight);
    RootSumIsTotal(s'.weight);
  }

  /** Moving from `c` to its parent crosses exactly one left edge, or none. */
  lemma ClimbCrosses(c: nat, j: nat)
    requires c > 0
    ensures InSubtree(2 * j + 1, c) <==>
            InSubtree(2 * j + 1, (c - 1) / 2) || c == 2 * j + 1
    ensures c == 2 * j + 1 ==> !InSubtree(2 * j + 1, (c - 1) / 2)
  {
  }

  lemma ClimbConserves(s: Pool, t: nat)
    requires Conserved(s) && Enabled(s, Climb(t))
    ensures Conserved(Next(s, Climb(t)))
  {
    var s' := Next(s, Climb(t));
    var p := s.pending[t];
    forall j | 0 <= j < |s'.weight|
      ensures s'.left[j] + OwedToLeft(s'.pending, j) == SubtreeSum(s'.weight, 2 * j + 1)
    {
      OwedAfterMove(s.pending, t, s'.pending[t], j);
      ClimbCrosses(p.cursor, j);
    }
    OwedAfterMove(s.pending, t, s'.pending[t], 0);
  }

  lemma AddTotalConserves(s: Pool, t: nat)
    requires Conserved(s) && Enabled(s, AddTotal(t))
    ensures Conserved(Next(s, AddTotal(t)))
  {
    var s' := Next(s, AddTotal(t));
    forall j | 0 <= j < |s'.weight|
      ensures s'.left[j] + OwedToLeft(s'.pending, j) == SubtreeSum(s'.weight, 2 * j + 1)
    {
      OwedAfterRemove(s.pending, t, j);
    }
    OwedAfterRemove(s.pending, t, 0);
  }

  lemma {:induction false} NothingOwedBelow(pending: seq<Publisher>, n: nat)
    requires forall t :: 0 <= t < |pending| ==> pending[t].cursor < n
    ensures OwedToLeft(pending, n) == 0
  {
    if pending != [] {
      NothingOwedBelow(pending[..|pending| - 1], n);
    }
  }

  lemma AppendConserves(s: Pool, v: int)
    requires Conserved(s)
    ensures Conserved(Next(s, Append(v)))
  {
    var s' := Next(s, Append(v));
    var n := |s.weight|;
    forall j | 0 <= j < |s'.weight|
      ensures s'.left[j] + OwedToLeft(s'.pending, j) == SubtreeSum(s'.weight, 2 * j + 1)
    {
      OwedAfterAdd(s.pending, Publisher(v, n), j);
      if j < n {
        SumAfterAppend(s.weight, v, 2 * j + 1);
      } else {
        NothingOwedBelow(s.pending, n);
      }
    }
    OwedAfterAdd(s.pending, Publisher(v, n), 0);
    SumAppend(s.weight, v);
  }

  lemma StepConserves(s: Pool, step: Step)
    requires Conserved(s) && Enabled(s, step)
    ensures Conserved(Next(s, step))
  {
    match step
    case SetWeight(i, v) => SetWeightConserves(s, i, v);
    case Climb(t) => ClimbConserves(s, t);
    case AddTotal(t) => AddTotalConserves(s, t);
    case Append(v) => AppendConserves(s, v);
  }

  lemma {:induction false} RunConserves(s: Pool, steps: seq<Step>)
    requires Conserved(s) && Run(s, steps).Reached?
    ensures Conserved(Run(s, steps).pool)
    decreases |steps|
  {
    if steps != [] {
      StepConserves(s, steps[0]);
      RunConserves(Next(s, steps[0]), steps[1..]);
    }
  }

  /** In every interleaving, every cache equals the true sum less what is still on its way. */
  lemma EveryRunConserves(steps: seq<Step>)
    requires Run(EMPTY, steps).Reached?
    ensures Conserved(Run(EMPTY, steps).pool)
  {
    RunConserves(EMPTY, steps);
  }

  /** Whenever no thread is between a change and its last fetch_add, all caches are exact. */
  lemma QuiescentIsExact(steps: seq<Step>)
    requires Run(EMPTY, steps).Reached? && Run(EMPTY, steps).pool.pending == []
    ensures var s := Run(EMPTY, steps).pool;
            Exact(s.weight, s.left) && s.total == Sum(s.weight)
  {
    EveryRunConserves(steps);
  }

  // ----- Publication always completes

  /** fetch_adds and hops left to a publisher. */
  function Hops(cursor: nat): nat {
    if cursor == 0 then 1 else 1 + Hops((cursor - 1) / 2)
  }

  function Work(pending: seq<Publisher>): nat {
    if pending == [] then 0 else Work(pending[..|pending| - 1]) + Hops(pending[|pending| - 1].cursor)
  }

  lemma {:induction false} WorkAfterMove(pending: seq<Publisher>, t: nat, p: Publisher)
    requires t < |pending|
    ensures Work(pending[t := p]) == Work(pending) - Hops(pending[t].cursor) + Hops(p.cursor)
  {
    var n := |pending| - 1;
    if t < n {
      WorkAfterMove(pending[..n], t, p);
      assert pending[t := p][..n] == pending[..n][t := p];
    } else {
      assert pending[t := p][..n] == pending[..n];
    }
  }

  lemma {:induction false} WorkAfterRemove(pending: seq<Publisher>, t: nat)
    requires t < |pending|
    ensures Work(pending[..t] + pending[t + 1..]) == Work(pending) - Hops(pending[t].cursor)
  {
    var n := |pending| - 1;
    var rest := pending[..t] + pending[t + 1..];
    if t < n {
      TakenOut(pending, t, rest);
      WorkAfterRemove(pending[..n], t);
    } else {
      assert rest == pending[..n];
    }
  }

  lemma HopsStep(cursor: nat)
    ensures Hops(cursor) == if cursor == 0 then 1 else 1 + Hops((cursor - 1) / 2)
  {
  }

  /** What a thread does next. */
  function Continue(s: Pool, t: nat): Step
    requires t < |s.pending|
  {
    if s.pending[t].cursor == 0 then AddTotal(t) else Climb(t)
  }

  /** No thread ever gets stuck, and each of its steps brings the pool one unit closer to
      quiescence, whatever the other threads did before. */
  lemma PublicationProgresses(s: Pool, t: nat)
    requires Conserved(s) && t < |s.pending|
    ensures Enabled(s, Continue(s, t))
    ensures Work(Next(s, Continue(s, t)).pending) == Work(s.pending) - 1
    ensures Next(s, Continue(s, t)).weight == s.weight
  {
    assert s.pending[t].cursor < |s.left|;
    hide Conserved, Hops;
    HopsStep(s.pending[t].cursor);
    if s.pending[t].cursor == 0 {
      WorkAfterRemove(s.pending, t);
    } else {
      WorkAfterMove(s.pending, t, s.pending[t].(cursor := (s.pending[t].cursor - 1) / 2));
    }
  }

  /** A step of the publications alone. */
  predicate Publishes(step: Step) {
    step.Climb? || step.AddTotal?
  }

  /** Whatever order the scheduler picks, a run of publications does one unit of work per step. */
  lemma {:induction false} ScheduleProgresses(s: Pool, more: seq<Step>)
    requires Conserved(s) && Run(s, more).Reached?
    requires forall k :: 0 <= k < |more| ==> Publishes(more[k])
    ensures Conserved(Run(s, more).pool) && Run(s, more).pool.weight == s.weight
    ensures Work(Run(s, more).pool.pending) == Work(s.pending) - |more|
    decreases |more|
  {
    if more != [] {
      var t := more[0].t;
      assert Publishes(more[0]) && more[0] == Continue(s, t);
      PublicationProgresses(s, t);
      StepConserves(s, more[0]);
      ScheduleProgresses(Next(s, more[0]), more[1..]);
    }
  }

  /** Stop changing weights, and the pool becomes exact under every schedule: from any reachable state
      the pending publications take at most as many steps as they have hops left, a schedule that has
      taken fewer can go on, and one that has taken them all ends in a quiescent state whose caches are
      the sums of the weights it started with. */
  lemma EveryScheduleDrains(steps: seq<Step>, more: seq<Step>)
    requires Run(EMPTY, steps).Reached? && Run(Run(EMPTY, steps).pool, more).Reached?
    requires forall k :: 0 <= k < |more| ==> Publishes(more[k])
    ensures var s := Run(EMPTY, steps).pool;
            var e := Run(s, more).pool;
            && |more| <= Work(s.pending) && e.weight == s.weight
            && (|more| < Work(s.pending) ==> e.pending != [] && Enabled(e, Continue(e, 0)))
            && (|more| == Work(s.pending) ==>
                  e.pending == [] && Exact(s.weight, e.left) && e.total == Sum(s.weight))
  {
    EveryRunConserves(steps);
    var s := Run(EMPTY, steps).pool;
    ScheduleProgresses(s, more);
    var e := Run(s, more).pool;
    if e.pending != [] {
      PublicationProgresses(e, 0);
    }
  }

  lemma {:induction false} Drain(s: Pool) returns (more: seq<Step>)
    requires Conserved(s)
    ensures forall k :: 0 <= k < |more| ==> Publishes(more[k])
    ensures |more| == Work(s.pending) && Run(s, more).Reached?
    decreases Work(s.pending)
  {
    more := [];
    if s.pending != [] {
      PublicationProgresses(s, 0);
      StepConserves(s, Continue(s, 0));
      var rest := Drain(Next(s, Continue(s, 0)));
      more := [Continue(s, 0)] + rest;
      assert more[1..] == rest;
    }
  }

  /** And such a schedule exists: the publications alone reach that state. */
  lemma PublicationsDrain(steps: seq<Step>) returns (more: seq<Step>)
    requires Run(EMPTY, steps).Reached?
    ensures forall k :: 0 <= k < |more| ==> Publishes(more[k])
    ensures var s := Run(EMPTY, steps).pool;
            && |more| == Work(s.pending) && Run(s, more).Reached?
            && Exact(s.weight, Run(s, more).pool.left)
            && Run(s, more).pool.total == Sum(s.weight)
  {
    EveryRunConserves(steps);
    more := Drain(Run(EMPTY, steps).pool);
    EveryScheduleDrains(steps, more);
  }
}
