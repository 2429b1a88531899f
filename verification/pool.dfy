/** The bounded worker pools: `runPool` in backend/server.js (fail-fast), in
    src/pages/Dashboard.tsx (a failed job leaves a hole) and in
    src/components/FilterComparisonBlock.tsx (a failed job writes
    `undefined`).

    All three start `min(limit, n)` runners that share one cursor. A runner
    claims the next index and starts its job without yielding, so claiming
    is atomic; it then waits for the job. Which waiting runner resumes next
    is up to the event loop: a schedule is any sequence of runner numbers.
    Each job's outcome depends only on its index (`jobs[j]`: `Some(v)` when
    it succeeds with `v`, `None` when it fails). */
module Pool {
  import opened Common

  datatype Policy = FailFast | SkipHole | WriteUndefined

  /** One cell of the JavaScript results array: never written (a hole), a
      value, or an explicit `undefined`. */
  datatype Slot<R> = Hole | Value(v: R) | Undef

  /** `cursor` is the shared `i`; `active[k]` is the index runner `k` is
      waiting on, if it is still running; `started` logs every claimed index
      in claim order; `failed` records that some runner's promise rejected. */
  datatype State<R> = State(cursor: nat, active: seq<Option<nat>>, slots: seq<Slot<R>>, started: seq<nat>, failed: bool)

  /** The number of runners, `Math.min(limit, n)`; only defined when the
      array constructor accepts it. */
  function Runners(limit: int, n: nat): nat
    requires limit >= 0
  {
    MinInt(limit, n)
  }

  /** Every runner claims its first index synchronously, in runner order. */
  function Init<R>(n: nat, limit: int): (s: State<R>)
    requires limit >= 0
    ensures s.cursor == Runners(limit, n) && |s.active| == Runners(limit, n)
    ensures forall k :: 0 <= k < |s.active| ==> s.active[k] == Some(k)
    ensures |s.slots| == n && forall j :: 0 <= j < n ==> s.slots[j] == Hole
    ensures !s.failed
  {
    var r := Runners(limit, n);
    State(r, seq(r, k requires 0 <= k < r => Some(k)), seq(n, _ => Hole), seq(r, k requires 0 <= k < r => k), false)
  }

  /** What a completed job leaves in its slot. */
  function Expected<R>(p: Policy, o: Option<R>): Slot<R>
  {
    match o
    case Some(v) => Value(v)
    case None => if p == WriteUndefined then Undef else Hole
  }

  /** The runner continues with the next unclaimed index, or stops. */
  function Claim<R>(s: State<R>, k: nat, n: nat): State<R>
    requires k < |s.active|
  {
    if s.cursor < n then s.(cursor := s.cursor + 1, active := s.active[k := Some(s.cursor)], started := s.started + [s.cursor])
    else s.(active := s.active[k := None])
  }

  /** Runner `k` resumes after its job. Resuming a runner that is not
      waiting changes nothing. */
  function Step<R>(jobs: seq<Option<R>>, p: Policy, s: State<R>, k: nat): State<R>
  {
    if k < |s.active| && s.active[k].Some? && s.active[k].value < |jobs| && s.active[k].value < |s.slots| then
      var j := s.active[k].value;
      match jobs[j]
      case Some(v) => Claim(s.(slots := s.slots[j := Value(v)]), k, |jobs|)
      case None =>
        if p == FailFast then s.(active := s.active[k := None], failed := true)
        else Claim(s.(slots := s.slots[j := Expected(p, None)]), k, |jobs|)
    else s
  }

  function Run<R>(jobs: seq<Option<R>>, p: Policy, s: State<R>, sched: seq<nat>): State<R>
    decreases |sched|
  {
    if |sched| == 0 then s else Run(jobs, p, Step(jobs, p, s, sched[0]), sched[1..])
  }

  predicate IsActive(s: State, j: nat)
  {
    exists k :: 0 <= k < |s.active| && s.active[k] == Some(j)
  }

  predicate Terminated(s: State)
  {
    forall k :: 0 <= k < |s.active| ==> s.active[k].None?
  }

  /** Some job that has completed failed. */
  predicate SomeCompletedFailure<R>(jobs: seq<Option<R>>, s: State<R>)
  {
    exists j :: 0 <= j < s.cursor && j < |jobs| && jobs[j].None? && !IsActive(s, j)
  }

  /** What holds between any two steps of any schedule. */
  ghost predicate Inv<R>(jobs: seq<Option<R>>, p: Policy, s: State<R>)
  {
    && s.cursor <= |jobs|
    && |s.slots| == |jobs|
    && |s.started| == s.cursor
    && (forall j :: 0 <= j < |s.started| ==> s.started[j] == j)
    && (forall k :: 0 <= k < |s.active| && s.active[k].Some? ==> s.active[k].value < s.cursor)
    && (forall k, k' :: 0 <= k < k' < |s.active| && s.active[k].Some? ==> s.active[k] != s.active[k'])
    && (forall j :: 0 <= j < |jobs| && (j >= s.cursor || IsActive(s, j)) ==> s.slots[j] == Hole)
    && (forall j :: 0 <= j < s.cursor && !IsActive(s, j) ==> s.slots[j] == Expected(p, jobs[j]))
    && (s.failed <==> p == FailFast && SomeCompletedFailure(jobs, s))
    && (!s.failed && s.cursor < |jobs| ==> forall k :: 0 <= k < |s.active| ==> s.active[k].Some?)
  }

  lemma InitInv<R>(jobs: seq<Option<R>>, p: Policy, limit: int)
    requires limit >= 0
    ensures Inv(jobs, p, Init(|jobs|, limit))
  {
    var s: State<R> := Init(|jobs|, limit);
    forall j | 0 <= j < s.cursor
      ensures IsActive(s, j)
    {
      assert s.active[j] == Some(j);
    }
  }

  /** A runner that claims index `c` keeps every other runner's index. */
  lemma ActiveAfterClaim<R>(s: State<R>, k: nat, n: nat, j: nat)
    requires k < |s.active| && s.cursor < n
    ensures IsActive(Claim(s, k, n), j) <==>
              j == s.cursor || (exists k' :: 0 <= k' < |s.active| && k' != k && s.active[k'] == Some(j))
  {
    var t := Claim(s, k, n);
    if j == s.cursor {
      assert t.active[k] == Some(j);
    }
    if exists k' :: 0 <= k' < |s.active| && k' != k && s.active[k'] == Some(j) {
      var k' :| 0 <= k' < |s.active| && k' != k && s.active[k'] == Some(j);
      assert t.active[k'] == Some(j);
    }
  }

  lemma ActiveAfterStop<R>(s: State<R>, t: State<R>, k: nat, j: nat)
    requires k < |s.active| && t.active == s.active[k := None]
    ensures IsActive(t, j) <==> exists k' :: 0 <= k' < |s.active| && k' != k && s.active[k'] == Some(j)
  {
    if exists k' :: 0 <= k' < |s.active| && k' != k && s.active[k'] == Some(j) {
      var k' :| 0 <= k' < |s.active| && k' != k && s.active[k'] == Some(j);
      assert t.active[k'] == Some(j);
    }
  }

  /** One step, from any runner, keeps the invariant. */
  lemma StepInv<R>(jobs: seq<Option<R>>, p: Policy, s: State<R>, k: nat)
    requires Inv(jobs, p, s)
    ensures Inv(jobs, p, Step(jobs, p, s, k))
  {
    if k < |s.active| && s.active[k].Some? {
      var j := s.active[k].value;
      // before the step, `j` is active only through runner `k`
      forall k' | 0 <= k' < |s.active| && k' != k
        ensures s.active[k'] != Some(j)
      {
        if k' < k { assert s.active[k'] != s.active[k]; } else { assert s.active[k] != s.active[k']; }
      }
      if jobs[j].None? && p == FailFast {
        StepInvFail(jobs, p, s, k);
      } else if s.cursor < |jobs| {
        StepInvClaim(jobs, p, s, k);
      } else {
        StepInvLast(jobs, p, s, k);
      }
    }
  }

  /** Runner `k` waits on a job that only it is waiting on. */
  predicate SoleRunner<R>(s: State<R>, k: nat)
  {
    k < |s.active| && s.active[k].Some?
    && forall k' :: 0 <= k' < |s.active| && k' != k ==> s.active[k'] != s.active[k]
  }

  lemma StepInvFail<R>(jobs: seq<Option<R>>, p: Policy, s: State<R>, k: nat)
    requires Inv(jobs, p, s) && SoleRunner(s, k)
    requires jobs[s.active[k].value].None? && p == FailFast
    ensures Inv(jobs, p, Step(jobs, p, s, k))
  {
    var j := s.active[k].value;
    var n := |jobs|;
    var t := Step(jobs, p, s, k);
    forall i | 0 <= i < n
      ensures IsActive(t, i) <==> IsActive(s, i) && i != j
    {
      ActiveAfterStop(s, t, k, i);
    }
    assert !IsActive(t, j);
    assert SomeCompletedFailure(jobs, t);
    if SomeCompletedFailure(jobs, s) {
      var i :| 0 <= i < s.cursor && i < |jobs| && jobs[i].None? && !IsActive(s, i);
      assert !IsActive(t, i);
    }
  }

  lemma StepInvClaim<R>(jobs: seq<Option<R>>, p: Policy, s: State<R>, k: nat)
    requires Inv(jobs, p, s) && SoleRunner(s, k)
    requires !(jobs[s.active[k].value].None? && p == FailFast) && s.cursor < |jobs|
    ensures Inv(jobs, p, Step(jobs, p, s, k))
  {
    var j := s.active[k].value;
    var n := |jobs|;
    var t := Step(jobs, p, s, k);
    var s1 := s.(slots := s.slots[j := Expected(p, jobs[j])]);
    assert t == Claim(s1, k, n);
    forall i | 0 <= i < n
      ensures IsActive(t, i) <==> (IsActive(s, i) && i != j) || i == s.cursor
    {
      ActiveAfterClaim(s1, k, n, i);
    }
    if s.failed {
      var i :| 0 <= i < s.cursor && i < |jobs| && jobs[i].None? && !IsActive(s, i);
      assert !IsActive(t, i);
    }
    if SomeCompletedFailure(jobs, t) {
      var i :| 0 <= i < t.cursor && i < |jobs| && jobs[i].None? && !IsActive(t, i);
      if i == j {
        assert p != FailFast;
      } else {
        assert !IsActive(s, i);
      }
    }
  }

  lemma StepInvLast<R>(jobs: seq<Option<R>>, p: Policy, s: State<R>, k: nat)
    requires Inv(jobs, p, s) && SoleRunner(s, k)
    requires !(jobs[s.active[k].value].None? && p == FailFast) && s.cursor == |jobs|
    ensures Inv(jobs, p, Step(jobs, p, s, k))
  {
    var j := s.active[k].value;
    var n := |jobs|;
    var t := Step(jobs, p, s, k);
    var s1 := s.(slots := s.slots[j := Expected(p, jobs[j])]);
    assert t == Claim(s1, k, n);
    forall i | 0 <= i < n
      ensures IsActive(t, i) <==> IsActive(s, i) && i != j
    {
      ActiveAfterStop(s1, t, k, i);
    }
    if s.failed {
      var i :| 0 <= i < s.cursor && i < |jobs| && jobs[i].None? && !IsActive(s, i);
      assert !IsActive(t, i);
    }
    if SomeCompletedFailure(jobs, t) {
      var i :| 0 <= i < t.cursor && i < |jobs| && jobs[i].None? && !IsActive(t, i);
      if i == j {
        assert p != FailFast;
      } else {
        assert !IsActive(s, i);
      }
    }
  }

  lemma {:induction false} RunInv<R>(jobs: seq<Option<R>>, p: Policy, s: State<R>, sched: seq<nat>)
    requires Inv(jobs, p, s)
    ensures Inv(jobs, p, Run(jobs, p, s, sched))
    decreases |sched|
  {
    if |sched| > 0 {
      StepInv(jobs, p, s, sched[0]);
      RunInv(jobs, p, Step(jobs, p, s, sched[0]), sched[1..]);
    }
  }

  /** Whatever the completion order, once no runner is waiting: without a
      failure (or with a policy that swallows failures) and with at least
      one runner, every index was claimed exactly once, in order, and every
      slot holds its own job's outcome; under fail-fast the pool failed
      exactly when some completed job failed. */
  lemma {:induction false} ScheduleIndependent<R>(jobs: seq<Option<R>>, p: Policy, limit: int, sched: seq<nat>)
    requires limit >= 1
    ensures var s := Run(jobs, p, Init(|jobs|, limit), sched);
            Terminated(s) && !s.failed ==>
              && s.started == seq(|jobs|, j requires 0 <= j < |jobs| => j)
              && s.slots == seq(|jobs|, j requires 0 <= j < |jobs| => Expected(p, jobs[j]))
    ensures var s := Run(jobs, p, Init(|jobs|, limit), sched);
            Terminated(s) && !s.failed && p == FailFast ==> forall j :: 0 <= j < |jobs| ==> jobs[j].Some?
    ensures var s := Run(jobs, p, Init(|jobs|, limit), sched);
            s.failed ==> p == FailFast && exists j :: 0 <= j < |jobs| && jobs[j].None?
  {
    var s0: State<R> := Init(|jobs|, limit);
    InitInv(jobs, p, limit);
    RunInv(jobs, p, s0, sched);
    RunKeepsRunnerCount(jobs, p, s0, sched);
    Settled(jobs, p, Run(jobs, p, s0, sched));
  }

  /** A state of the invariant where no runner waits, with at least one
      runner when there are jobs: every job was claimed and has completed. */
  lemma Settled<R>(jobs: seq<Option<R>>, p: Policy, s: State<R>)
    requires Inv(jobs, p, s) && (|jobs| > 0 ==> |s.active| >= 1)
    ensures Terminated(s) && !s.failed ==>
              && s.started == seq(|jobs|, j requires 0 <= j < |jobs| => j)
              && s.slots == seq(|jobs|, j requires 0 <= j < |jobs| => Expected(p, jobs[j]))
    ensures Terminated(s) && !s.failed && p == FailFast ==> forall j :: 0 <= j < |jobs| ==> jobs[j].Some?
    ensures s.failed ==> p == FailFast && exists j :: 0 <= j < |jobs| && jobs[j].None?
  {
    if Terminated(s) && !s.failed {
      if |jobs| > 0 {
        // there is at least one runner and it has stopped, so no index is left
        assert s.active[0].None?;
      }
      forall j | 0 <= j < |jobs| ensures !IsActive(s, j) {
      }
    }
  }

  lemma {:induction false} RunKeepsRunnerCount<R>(jobs: seq<Option<R>>, p: Policy, s: State<R>, sched: seq<nat>)
    ensures |Run(jobs, p, s, sched).active| == |s.active|
    decreases |sched|
  {
    if |sched| > 0 {
      RunKeepsRunnerCount(jobs, p, Step(jobs, p, s, sched[0]), sched[1..]);
    }
  }

  // ---------------------------------------------------------------------
  // Driving the pool to completion
  // ---------------------------------------------------------------------

  function CountActive(a: seq<Option<nat>>): nat
  {
    if |a| == 0 then 0 else (if a[0].Some? then 1 else 0) + CountActive(a[1..])
  }

  lemma {:induction false} CountActiveUpdate(a: seq<Option<nat>>, k: nat, x: Option<nat>)
    requires k < |a|
    ensures CountActive(a[k := x]) == CountActive(a) - (if a[k].Some? then 1 else 0) + (if x.Some? then 1 else 0)
    decreases |a|
  {
    if k > 0 {
      assert a[k := x][1..] == a[1..][k - 1 := x];
      CountActiveUpdate(a[1..], k - 1, x);
    }
  }

  lemma {:induction false} CountActiveZero(a: seq<Option<nat>>)
    ensures CountActive(a) == 0 <==> forall k :: 0 <= k < |a| ==> a[k].None?
    decreases |a|
  {
    if |a| > 0 {
      CountActiveZero(a[1..]);
      if forall k :: 0 <= k < |a[1..]| ==> a[1..][k].None? {
        if a[0].None? {
          forall k | 0 <= k < |a| ensures a[k].None? {
            if k > 0 { assert a[k] == a[1..][k - 1]; }
          }
        }
      } else {
        var k :| 0 <= k < |a[1..]| && a[1..][k].Some?;
        assert a[k + 1].Some?;
      }
    }
  }

  /** The lowest-numbered runner that is still waiting. */
  method FirstWaiting(a: seq<Option<nat>>) returns (k: nat)
    requires exists k' :: 0 <= k' < |a| && a[k'].Some?
    ensures k < |a| && a[k].Some?
    ensures forall i :: 0 <= i < k ==> a[i].None?
  {
    k := 0;
    while a[k].None?
      invariant 0 <= k < |a|
      invariant exists k' :: k <= k' < |a| && a[k'].Some?
      invariant forall i :: 0 <= i < k ==> a[i].None?
      decreases |a| - k
    {
      k := k + 1;
    }
  }

  /** Runs the pool to completion, always resuming the lowest-numbered
      waiting runner; the result agrees with every other schedule by
      `ScheduleIndependent`. */
  method Drain<R>(jobs: seq<Option<R>>, p: Policy, limit: int) returns (s: State<R>)
    requires limit >= 0
    ensures Inv(jobs, p, s) && Terminated(s)
    ensures limit >= 1 && !s.failed ==> s.slots == seq(|jobs|, j requires 0 <= j < |jobs| => Expected(p, jobs[j]))
    ensures limit >= 1 && p == FailFast ==> (!s.failed <==> forall j :: 0 <= j < |jobs| ==> jobs[j].Some?)
    ensures limit == 0 ==> s.slots == seq(|jobs|, _ => Hole) && !s.failed
  {
    s := Init(|jobs|, limit);
    InitInv(jobs, p, limit);
    if limit == 0 {
      // no runner is started
      return;
    }
    ghost var sched: seq<nat> := [];
    while exists k :: 0 <= k < |s.active| && s.active[k].Some?
      invariant Inv(jobs, p, s)
      invariant s == Run(jobs, p, Init(|jobs|, limit), sched)
      decreases |jobs| - s.cursor + CountActive(s.active)
    {
      var k := FirstWaiting(s.active);
      DrainStep(jobs, p, Init(|jobs|, limit), sched, k);
      sched := sched + [k];
      s := Step(jobs, p, s, k);
    }
    if limit >= 1 {
      ScheduleIndependent(jobs, p, limit, sched);
      if p == FailFast && forall j :: 0 <= j < |jobs| ==> jobs[j].Some? {
        assert !SomeCompletedFailure(jobs, s);
      }
    }
  }

  /** One iteration of `Drain` keeps its invariants and makes progress. */
  lemma DrainStep<R>(jobs: seq<Option<R>>, p: Policy, s0: State<R>, sched: seq<nat>, k: nat)
    requires Inv(jobs, p, Run(jobs, p, s0, sched))
    requires k < |Run(jobs, p, s0, sched).active| && Run(jobs, p, s0, sched).active[k].Some?
    ensures Inv(jobs, p, Run(jobs, p, s0, sched + [k]))
    ensures Run(jobs, p, s0, sched + [k]) == Step(jobs, p, Run(jobs, p, s0, sched), k)
    ensures var s := Run(jobs, p, s0, sched);
            var t := Step(jobs, p, s, k);
            |jobs| - t.cursor + CountActive(t.active) < |jobs| - s.cursor + CountActive(s.active)
  {
    var s := Run(jobs, p, s0, sched);
    StepInv(jobs, p, s, k);
    StepProgress(jobs, p, s, k);
    RunAppend(jobs, p, s0, sched, k);
  }

  /** Resuming a waiting runner either claims a new index or stops the
      runner. */
  lemma StepProgress<R>(jobs: seq<Option<R>>, p: Policy, s: State<R>, k: nat)
    requires Inv(jobs, p, s)
    requires k < |s.active| && s.active[k].Some?
    ensures |Step(jobs, p, s, k).active| == |s.active|
    ensures |jobs| - Step(jobs, p, s, k).cursor + CountActive(Step(jobs, p, s, k).active)
            < |jobs| - s.cursor + CountActive(s.active)
  {
    var j := s.active[k].value;
    if jobs[j].None? && p == FailFast {
      CountActiveUpdate(s.active, k, None);
    } else if s.cursor < |jobs| {
      CountActiveUpdate(s.active, k, Some(s.cursor));
    } else {
      CountActiveUpdate(s.active, k, None);
    }
  }

  lemma {:induction false} RunAppend<R>(jobs: seq<Option<R>>, p: Policy, s: State<R>, sched: seq<nat>, k: nat)
    ensures Run(jobs, p, s, sched + [k]) == Step(jobs, p, Run(jobs, p, s, sched), k)
    decreases |sched|
  {
    if |sched| == 0 {
      assert [k][1..] == [];
    } else {
      assert (sched + [k])[1..] == sched[1..] + [k];
      RunAppend(jobs, p, Step(jobs, p, s, sched[0]), sched[1..], k);
    }
  }

  // ---------------------------------------------------------------------
  // The three pools
  // ---------------------------------------------------------------------

  /** What an `await runPool(...)` produces: the results array, or a
      rejection. */
  datatype PoolResult<R> = Resolved(results: seq<Slot<R>>) | Rejected

  function ExpectedAll<R>(p: Policy, jobs: seq<Option<R>>): seq<Slot<R>>
  {
    seq(|jobs|, j requires 0 <= j < |jobs| => Expected(p, jobs[j]))
  }

  /** The backend pool: `worker(items[i], i)` for every index; the first
      failing worker rejects the whole pool. `new Array(min(limit, n))`
      throws for a negative `limit`; with `limit` 0 no worker runs and the
      result is `n` holes. */
  method ServerRunPool<T, R>(items: seq<T>, limit: int, worker: (T, nat) -> Option<R>) returns (r: PoolResult<R>)
    ensures limit < 0 ==> r == Rejected
    ensures limit == 0 ==> r == Resolved(seq(|items|, _ => Hole))
    ensures limit >= 1 ==> (r.Resolved? <==> forall i :: 0 <= i < |items| ==> worker(items[i], i).Some?)
    ensures limit >= 1 && r.Resolved? ==>
              |r.results| == |items|
              && forall i :: 0 <= i < |items| ==> r.results[i] == Value(worker(items[i], i).value)
  {
    if limit < 0 {
      return Rejected;
    }
    var jobs := seq(|items|, i requires 0 <= i < |items| => worker(items[i], i));
    assert forall i :: 0 <= i < |items| ==> jobs[i] == worker(items[i], i);
    var s := Drain(jobs, FailFast, limit);
    if s.failed {
      r := Rejected;
    } else {
      r := Resolved(s.slots);
    }
  }

  /** A JavaScript array written only at some indices has length one past
      the last written index. */
  function TrimHoles<R>(xs: seq<Slot<R>>): (r: seq<Slot<R>>)
    ensures |r| <= |xs| && r == xs[..|r|]
    ensures |r| > 0 ==> !r[|r| - 1].Hole?
    ensures forall i :: |r| <= i < |xs| ==> xs[i].Hole?
  {
    if |xs| > 0 && xs[|xs| - 1].Hole? then TrimHoles(xs[..|xs| - 1]) else xs
  }

  /** The Dashboard pool: every job runs once, a success is stored at its
      own index and a failure writes nothing. */
  method DashboardRunPool<R>(jobs: seq<Option<R>>, concurrency: int) returns (r: PoolResult<R>)
    ensures concurrency < 0 <==> r == Rejected
    ensures concurrency == 0 ==> r == Resolved([])
    ensures concurrency >= 1 ==> r.Resolved? && r.results == TrimHoles(ExpectedAll(SkipHole, jobs))
    ensures concurrency >= 1 ==> forall i :: 0 <= i < |r.results| ==>
              (r.results[i].Hole? <==> jobs[i].None?) && (jobs[i].Some? ==> r.results[i] == Value(jobs[i].value))
  {
    if concurrency < 0 {
      return Rejected;
    }
    var s := Drain(jobs, SkipHole, concurrency);
    r := Resolved(TrimHoles(s.slots));
    if concurrency == 0 {
      assert TrimHoles(s.slots) == [] by { TrimAllHoles(s.slots); }
    }
  }

  lemma {:induction false} TrimAllHoles<R>(xs: seq<Slot<R>>)
    requires forall i :: 0 <= i < |xs| ==> xs[i].Hole?
    ensures TrimHoles(xs) == []
    decreases |xs|
  {
    if |xs| > 0 {
      TrimAllHoles(xs[..|xs| - 1]);
    }
  }

  /** The comparison pool: every job runs once and every index is written,
      with `undefined` for a failed job. */
  method ComparisonRunPool<R>(jobs: seq<Option<R>>, concurrency: int) returns (r: PoolResult<R>)
    ensures concurrency < 0 <==> r == Rejected
    ensures concurrency == 0 ==> r == Resolved([])
    ensures concurrency >= 1 ==> r.Resolved? && |r.results| == |jobs|
    ensures concurrency >= 1 ==> forall i :: 0 <= i < |jobs| ==>
              r.results[i] == (if jobs[i].Some? then Value(jobs[i].value) else Undef)
  {
    if concurrency < 0 {
      return Rejected;
    }
    var s := Drain(jobs, WriteUndefined, concurrency);
    if concurrency == 0 {
      r := Resolved([]);
    } else {
      r := Resolved(s.slots);
    }
  }

  /** `.filter(Boolean)` on a results array of objects: holes are skipped,
      `undefined` is falsy, every value is kept in order. */
  function Compact<R>(xs: seq<Slot<R>>): (r: seq<R>)
    ensures |r| <= |xs|
  {
    if |xs| == 0 then []
    else (if xs[0].Value? then [xs[0].v] else []) + Compact(xs[1..])
  }

  /** The successful outcomes, in job order. */
  function Successes<R>(jobs: seq<Option<R>>): seq<R>
  {
    if |jobs| == 0 then []
    else (if jobs[0].Some? then [jobs[0].value] else []) + Successes(jobs[1..])
  }

  /** For both error-swallowing pools, filtering the results keeps exactly
      the successful outcomes in job order, however the failures were
      recorded. */
  lemma {:induction false} CompactExpected<R>(p: Policy, jobs: seq<Option<R>>)
    ensures Compact(ExpectedAll(p, jobs)) == Successes(jobs)
    decreases |jobs|
  {
    if |jobs| > 0 {
      assert ExpectedAll(p, jobs)[1..] == ExpectedAll(p, jobs[1..]);
      CompactExpected(p, jobs[1..]);
    }
  }

  lemma {:induction false} CompactTrimHoles<R>(xs: seq<Slot<R>>)
    ensures Compact(TrimHoles(xs)) == Compact(xs)
    decreases |xs|
  {
    if |xs| > 0 && xs[|xs| - 1].Hole? {
      CompactTrimHoles(xs[..|xs| - 1]);
      CompactSnoc(xs[..|xs| - 1], xs[|xs| - 1]);
      assert xs[..|xs| - 1] + [xs[|xs| - 1]] == xs;
    }
  }

  lemma {:induction false} CompactSnoc<R>(xs: seq<Slot<R>>, x: Slot<R>)
    ensures Compact(xs + [x]) == Compact(xs) + (if x.Value? then [x.v] else [])
    decreases |xs|
  {
    if |xs| == 0 {
      assert [x][1..] == [];
    } else {
      assert (xs + [x])[1..] == xs[1..] + [x];
      CompactSnoc(xs[1..], x);
    }
  }

  /** The Dashboard and comparison pools, followed by `.filter(Boolean)`,
      yield the same list: the successful outcomes in job order. */
  lemma SwallowingPoolsAgree<R>(jobs: seq<Option<R>>)
    ensures Compact(TrimHoles(ExpectedAll(SkipHole, jobs))) == Successes(jobs)
    ensures Compact(ExpectedAll(WriteUndefined, jobs)) == Successes(jobs)
  {
    CompactTrimHoles(ExpectedAll(SkipHole, jobs));
    CompactExpected(SkipHole, jobs);
    CompactExpected(WriteUndefined, jobs);
  }
}
