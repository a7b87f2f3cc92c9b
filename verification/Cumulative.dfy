/** The time decomposition of the cumulative constraint. */
module Cumulative {
  import opened Cp
  import opened Sums

  datatype Var = Start(i: nat) | Limit

  function MinOf(xs: seq<int>): (r: int)
    requires xs != []
    ensures r in xs && forall k :: 0 <= k < |xs| ==> r <= xs[k]
  {
    if |xs| == 1 then xs[0]
    else
      var m := MinOf(xs[..|xs| - 1]);
      if xs[|xs| - 1] < m then xs[|xs| - 1] else m
  }

  function MaxOf(xs: seq<int>): (r: int)
    requires xs != []
    ensures r in xs && forall k :: 0 <= k < |xs| ==> r >= xs[k]
  {
    if |xs| == 1 then xs[0]
    else
      var m := MaxOf(xs[..|xs| - 1]);
      if xs[|xs| - 1] > m then xs[|xs| - 1] else m
  }

  /** The tasks among the first n that need resources for some time. */
  function Active(d: seq<int>, r: seq<int>, n: nat): (tasks: seq<nat>)
    requires n <= |d| == |r|
    ensures forall k :: 0 <= k < |tasks| ==> tasks[k] < n
  {
    if n == 0 then []
    else
      var before := Active(d, r, n - 1);
      if r[n - 1] > 0 && d[n - 1] > 0 then before + [n - 1] else before
  }

  /** They are listed in order, each once, and none is missing. */
  lemma {:induction false} ActiveInFull(d: seq<int>, r: seq<int>, n: nat)
    requires n <= |d| == |r|
    ensures var tasks := Active(d, r, n);
      && (forall k, l :: 0 <= k < l < |tasks| ==> tasks[k] < tasks[l])
      && (forall i: nat :: i < n ==> (i in tasks <==> r[i] > 0 && d[i] > 0))
  {
    if n > 0 {
      ActiveInFull(d, r, n - 1);
    }
  }

  predicate AreTasks(tasks: seq<nat>, n: nat) {
    forall k :: 0 <= k < |tasks| ==> tasks[k] < n
  }

  /** The demand of task i if it runs at time t. */
  function Term(d: seq<int>, r: seq<int>, i: nat, t: int): Expr<Var>
    requires i < |d| == |r|
  {
    Times(Times(IsLessOrEqual(Var(Start(i)), t), IsGreater(Plus(Var(Start(i)), Const(d[i])), t)), Const(r[i]))
  }

  function Terms(d: seq<int>, r: seq<int>, tasks: seq<nat>, t: int): seq<Expr<Var>>
    requires |d| == |r| && AreTasks(tasks, |d|)
  {
    if tasks == [] then []
    else Terms(d, r, tasks[..|tasks| - 1], t) + [Term(d, r, tasks[|tasks| - 1], t)]
  }

  function Window(d: seq<int>, r: seq<int>, b: Expr<Var>, t: int): Constraint<Var>
    requires |d| == |r|
  {
    Compare(SumOf(Terms(d, r, Active(d, r, |d|), t)), LessOrEqual, b)
  }

  /** The constraints for the k times from a on. */
  function Windows(d: seq<int>, r: seq<int>, b: Expr<Var>, a: int, k: nat): seq<Constraint<Var>>
    requires |d| == |r|
  {
    if k == 0 then [] else Windows(d, r, b, a, k - 1) + [Window(d, r, b, a + k - 1)]
  }

  function Pick(xs: seq<int>, tasks: seq<nat>): (ys: seq<int>)
    requires AreTasks(tasks, |xs|)
    ensures |ys| == |tasks| && forall k :: 0 <= k < |tasks| ==> ys[k] == xs[tasks[k]]
  {
    seq(|tasks|, k requires 0 <= k < |tasks| => xs[tasks[k]])
  }

  /** lo and hi are the bounds of the start times. */
  predicate IsInstance(lo: seq<int>, hi: seq<int>, d: seq<int>, r: seq<int>) {
    |lo| == |hi| == |d| == |r| && Active(d, r, |d|) != []
  }

  function FirstTime(lo: seq<int>, hi: seq<int>, d: seq<int>, r: seq<int>): int
    requires IsInstance(lo, hi, d, r)
  {
    MinOf(Pick(lo, Active(d, r, |d|)))
  }

  function LastTime(lo: seq<int>, hi: seq<int>, d: seq<int>, r: seq<int>): int
    requires IsInstance(lo, hi, d, r)
  {
    MaxOf(Pick(hi, Active(d, r, |d|))) + MaxOf(d)
  }

  /** The times run from the earliest start of an active task to the latest one plus the longest duration of any. */
  lemma TimesInFull(lo: seq<int>, hi: seq<int>, d: seq<int>, r: seq<int>)
    requires IsInstance(lo, hi, d, r)
    ensures exists i: nat :: i < |d| && r[i] > 0 && d[i] > 0 && lo[i] == FirstTime(lo, hi, d, r)
    ensures forall i: nat :: i < |d| && r[i] > 0 && d[i] > 0 ==> lo[i] >= FirstTime(lo, hi, d, r)
    ensures exists i: nat, j: nat :: i < |d| && j < |d| && r[i] > 0 && d[i] > 0 &&
              hi[i] + d[j] == LastTime(lo, hi, d, r)
    ensures forall i: nat, j: nat :: i < |d| && j < |d| && r[i] > 0 && d[i] > 0 ==>
              hi[i] + d[j] <= LastTime(lo, hi, d, r)
  {
    hide MinOf, MaxOf, Active;
    var tasks := Active(d, r, |d|);
    ActiveInFull(d, r, |d|);
    var k :| 0 <= k < |tasks| && Pick(lo, tasks)[k] == MinOf(Pick(lo, tasks));
    assert lo[tasks[k]] == FirstTime(lo, hi, d, r) && tasks[k] in tasks;
    var l :| 0 <= l < |tasks| && Pick(hi, tasks)[l] == MaxOf(Pick(hi, tasks));
    var j :| 0 <= j < |d| && d[j] == MaxOf(d);
    assert hi[tasks[l]] + d[j] == LastTime(lo, hi, d, r) && tasks[l] in tasks;
    forall i: nat | i < |d| && r[i] > 0 && d[i] > 0
      ensures lo[i] >= FirstTime(lo, hi, d, r) && hi[i] <= MaxOf(Pick(hi, tasks))
    {
      assert i in tasks;
      var p :| 0 <= p < |tasks| && tasks[p] == i;
      assert Pick(lo, tasks)[p] == lo[i] && Pick(hi, tasks)[p] == hi[i];
    }
  }

  function WindowCount(lo: seq<int>, hi: seq<int>, d: seq<int>, r: seq<int>): nat
    requires IsInstance(lo, hi, d, r)
  {
    var n := LastTime(lo, hi, d, r) + 1 - FirstTime(lo, hi, d, r); if n < 0 then 0 else n
  }

  /** The bound on a limit that is a variable. */
  function LimitBound(r: seq<int>, b: Expr<Var>): seq<Constraint<Var>> {
    if b.Const? then [] else [Compare(b, LessOrEqual, Const(Sum(r)))]
  }

  function CumulativeConstraints(lo: seq<int>, hi: seq<int>, d: seq<int>, r: seq<int>,
      b: Expr<Var>): seq<Constraint<Var>>
    requires IsInstance(lo, hi, d, r)
  {
    Windows(d, r, b, FirstTime(lo, hi, d, r), WindowCount(lo, hi, d, r)) + LimitBound(r, b)
  }

  method PostCumulative(lo: seq<int>, hi: seq<int>, d: seq<int>, r: seq<int>, b: Expr<Var>)
      returns (cs: seq<Constraint<Var>>)
    requires IsInstance(lo, hi, d, r)
    ensures cs == CumulativeConstraints(lo, hi, d, r, b)
    ensures forall s: Var -> int :: AreStarts(lo, hi, s) ==>
      (Satisfies(cs, s) <==> Respects(Scheduled(d, r, s), Eval(b, s)) && (b.Const? || Eval(b, s) <= Sum(r)))
  {
    hide SumOf, Terms, Sum, MinOf, MaxOf, Active, Pick, Satisfies, Respects, Scheduled, AreStarts, Eval;
    InstanceHasTasks(lo, hi, d, r);
    var tasks := FindTasks(d, r);
    var timesMin := MinOf(Pick(lo, tasks));
    var timesMax := ShiftedMax(Pick(hi, tasks), MaxOf(d));
    cs := [];
    var t := timesMin;
    while t < timesMax + 1
      invariant timesMin <= t && t - timesMin <= WindowCount(lo, hi, d, r)
      invariant cs == Windows(d, r, b, timesMin, t - timesMin)
    {
      var bb := CollectTerms(d, r, tasks, t);
      cs := cs + [Compare(SumOf(bb), LessOrEqual, b)];
      t := t + 1;
    }
    if !b.Const? {
      cs := cs + [Compare(b, LessOrEqual, Const(Sum(r)))];
    }
    assert cs == CumulativeConstraints(lo, hi, d, r, b);
    forall s: Var -> int | AreStarts(lo, hi, s)
      ensures Satisfies(cs, s) <==> Respects(Scheduled(d, r, s), Eval(b, s)) && (b.Const? || Eval(b, s) <= Sum(r))
    {
      PostedMeans(lo, hi, d, r, b, s);
    }
  }

  lemma InstanceHasTasks(lo: seq<int>, hi: seq<int>, d: seq<int>, r: seq<int>)
    requires IsInstance(lo, hi, d, r)
    ensures d != []
  {}

  method FindTasks(d: seq<int>, r: seq<int>) returns (tasks: seq<nat>)
    requires |d| == |r|
    ensures tasks == Active(d, r, |d|)
  {
    tasks := [];
    for i := 0 to |d|
      invariant tasks == Active(d, r, i)
    {
      if r[i] > 0 && d[i] > 0 {
        tasks := tasks + [i];
      }
    }
  }

  /** The largest of the values after each is moved by the same amount. */
  method ShiftedMax(xs: seq<int>, offset: int) returns (m: int)
    requires xs != []
    ensures m == MaxOf(xs) + offset
  {
    m := xs[0] + offset;
    for i := 1 to |xs|
      invariant m == MaxOf(xs[..i]) + offset
    {
      assert xs[..i + 1][..i] == xs[..i];
      if xs[i] + offset > m {
        m := xs[i] + offset;
      }
    }
    assert xs[..|xs|] == xs;
  }

  method CollectTerms(d: seq<int>, r: seq<int>, tasks: seq<nat>, t: int) returns (bb: seq<Expr<Var>>)
    requires |d| == |r| && AreTasks(tasks, |d|)
    ensures bb == Terms(d, r, tasks, t)
  {
    bb := [];
    for k := 0 to |tasks|
      invariant bb == Terms(d, r, tasks[..k], t)
    {
      var i := tasks[k];
      var c1 := IsLessOrEqual(Var(Start(i)), t);
      var c2 := IsGreater(Plus(Var(Start(i)), Const(d[i])), t);
      bb := bb + [Times(Times(c1, c2), Const(r[i]))];
      assert tasks[..k + 1][..k] == tasks[..k];
    }
    assert tasks[..|tasks|] == tasks;
  }

  // ---------- Schedules ----------

  datatype Task = Task(start: int, duration: int, demand: int)

  predicate Runs(task: Task, t: int) {
    task.start <= t < task.start + task.duration
  }

  /** The resources in use at time t. */
  function Load(tasks: seq<Task>, t: int): int {
    if tasks == [] then 0
    else Load(tasks[..|tasks| - 1], t) + if Runs(tasks[|tasks| - 1], t) then tasks[|tasks| - 1].demand else 0
  }

  lemma LoadAppend(tasks: seq<Task>, task: Task, t: int)
    ensures Load(tasks + [task], t) == Load(tasks, t) + if Runs(task, t) then task.demand else 0
  {
    assert (tasks + [task])[..|tasks|] == tasks;
  }

  predicate IsActive(tasks: seq<Task>) {
    forall k :: 0 <= k < |tasks| ==> tasks[k].duration > 0 && tasks[k].demand > 0
  }

  /** The tasks among the first n that need resources for some time, started at the given times. */
  function Schedule(starts: seq<int>, d: seq<int>, r: seq<int>, n: nat): (tasks: seq<Task>)
    requires n <= |starts| == |d| == |r|
    ensures IsActive(tasks)
  {
    if n == 0 then []
    else
      var before := Schedule(starts, d, r, n - 1);
      if r[n - 1] > 0 && d[n - 1] > 0 then before + [Task(starts[n - 1], d[n - 1], r[n - 1])] else before
  }

  /** The resources that all of the first n tasks use at time t, active or not. */
  function Usage(starts: seq<int>, d: seq<int>, r: seq<int>, t: int, n: nat): int
    requires n <= |starts| == |d| == |r|
  {
    if n == 0 then 0
    else Usage(starts, d, r, t, n - 1) + if starts[n - 1] <= t < starts[n - 1] + d[n - 1] then r[n - 1] else 0
  }

  lemma NextLoad(starts: seq<int>, d: seq<int>, r: seq<int>, t: int, n: nat)
    requires n < |starts| == |d| == |r|
    ensures Load(Schedule(starts, d, r, n + 1), t) == Load(Schedule(starts, d, r, n), t) +
      if r[n] > 0 && d[n] > 0 && starts[n] <= t < starts[n] + d[n] then r[n] else 0
  {
    hide Load;
    LoadAppend(Schedule(starts, d, r, n), Task(starts[n], d[n], r[n]), t);
  }

  /** Leaving out the inactive tasks is right for nonnegative demands, whatever the durations. */
  lemma {:induction false} LoadIsUsage(starts: seq<int>, d: seq<int>, r: seq<int>, t: int, n: nat)
    requires n <= |starts| == |d| == |r| && forall i :: 0 <= i < n ==> r[i] >= 0
    ensures Load(Schedule(starts, d, r, n), t) == Usage(starts, d, r, t, n)
  {
    hide Load;
    if n == 0 {
      NothingRuns(Schedule(starts, d, r, 0), t);
    } else {
      LoadIsUsage(starts, d, r, t, n - 1);
      NextLoad(starts, d, r, t, n - 1);
    }
  }

  lemma {:induction false} NothingRuns(tasks: seq<Task>, t: int)
    requires forall k :: 0 <= k < |tasks| ==> !Runs(tasks[k], t)
    ensures Load(tasks, t) == 0
  {
    if tasks != [] {
      NothingRuns(tasks[..|tasks| - 1], t);
    }
  }

  /** If what runs at t runs at u too, the load at u is no smaller. */
  lemma {:induction false} LoadGrows(tasks: seq<Task>, t: int, u: int)
    requires IsActive(tasks) && forall k :: 0 <= k < |tasks| ==> Runs(tasks[k], t) ==> Runs(tasks[k], u)
    ensures Load(tasks, t) <= Load(tasks, u)
  {
    if tasks != [] {
      LoadGrows(tasks[..|tasks| - 1], t, u);
    }
  }

  lemma {:induction false} LoadIsAtLeast(tasks: seq<Task>, k: nat, t: int)
    requires IsActive(tasks) && k < |tasks| && Runs(tasks[k], t)
    ensures Load(tasks, t) >= tasks[k].demand
  {
    if k < |tasks| - 1 {
      LoadIsAtLeast(tasks[..|tasks| - 1], k, t);
    } else {
      LoadIsNonnegative(tasks[..k], t);
    }
  }

  lemma {:induction false} LoadIsNonnegative(tasks: seq<Task>, t: int)
    requires IsActive(tasks)
    ensures Load(tasks, t) >= 0
  {
    if tasks != [] {
      LoadIsNonnegative(tasks[..|tasks| - 1], t);
    }
  }

  predicate Fits(tasks: seq<Task>, limit: int, t: int) {
    Load(tasks, t) <= limit
  }

  ghost predicate AllFit(tasks: seq<Task>, limit: int, a: int, e: int) {
    forall t :: a <= t < e ==> Fits(tasks, limit, t)
  }

  ghost predicate Respects(tasks: seq<Task>, limit: int) {
    forall t :: Fits(tasks, limit, t)
  }

  /** From times a to e - 1 only; all tasks start from a on and end before e. */
  ghost predicate Within(tasks: seq<Task>, a: int, e: int) {
    forall k :: 0 <= k < |tasks| ==> a <= tasks[k].start && tasks[k].start + tasks[k].duration < e
  }

  /** The times that are posted suffice: nothing runs at any other, nor at the last one. */
  lemma PostedTimesSuffice(tasks: seq<Task>, a: int, e: int, limit: int)
    requires tasks != [] && IsActive(tasks) && Within(tasks, a, e)
    ensures AllFit(tasks, limit, a, e) <==> Respects(tasks, limit)
  {
    hide Load;
    assert a <= tasks[0].start < e - 1;
    NothingRuns(tasks, e - 1);
    if AllFit(tasks, limit, a, e) {
      assert Fits(tasks, limit, e - 1);
      forall t
        ensures Fits(tasks, limit, t)
      {
        if !(a <= t < e) {
          NothingRuns(tasks, t);
        }
      }
    }
  }

  lemma {:induction false} LatestStart(tasks: seq<Task>, t: int) returns (k: nat)
    requires exists i :: 0 <= i < |tasks| && Runs(tasks[i], t)
    ensures k < |tasks| && Runs(tasks[k], t)
    ensures forall i :: 0 <= i < |tasks| && Runs(tasks[i], t) ==> tasks[i].start <= tasks[k].start
  {
    var n := |tasks| - 1;
    if exists i :: 0 <= i < n && Runs(tasks[i], t) {
      var i :| 0 <= i < n && Runs(tasks[i], t);
      assert Runs(tasks[..n][i], t);
      k := LatestStart(tasks[..n], t);
      assert forall i :: 0 <= i < n ==> tasks[..n][i] == tasks[i];
      if Runs(tasks[n], t) && tasks[n].start > tasks[k].start {
        k := n;
      }
    } else {
      k := n;
    }
  }

  ghost predicate FitsAtStart(tasks: seq<Task>, limit: int, k: nat)
    requires k < |tasks|
  {
    Fits(tasks, limit, tasks[k].start)
  }

  /** The limit holds at all times exactly when it holds at the start of each task. */
  lemma StartTimesSuffice(tasks: seq<Task>, limit: int)
    requires tasks != [] && IsActive(tasks)
    ensures (forall k: nat :: k < |tasks| ==> FitsAtStart(tasks, limit, k)) <==> Respects(tasks, limit)
  {
    if forall k: nat :: k < |tasks| ==> FitsAtStart(tasks, limit, k) {
      forall t
        ensures Fits(tasks, limit, t)
      {
        FitsAtStarts(tasks, limit, t);
      }
    }
  }

  lemma FitsAtStarts(tasks: seq<Task>, limit: int, t: int)
    requires tasks != [] && IsActive(tasks) && forall k: nat :: k < |tasks| ==> FitsAtStart(tasks, limit, k)
    ensures Fits(tasks, limit, t)
  {
    hide Load;
    if exists i :: 0 <= i < |tasks| && Runs(tasks[i], t) {
      var k := LatestStart(tasks, t);
      assert FitsAtStart(tasks, limit, k);
      LoadGrows(tasks, t, tasks[k].start);
    } else {
      NothingRuns(tasks, t);
      assert FitsAtStart(tasks, limit, 0);
      LoadIsAtLeast(tasks, 0, tasks[0].start);
    }
  }

  // ---------- Energy ----------

  function Energy(tasks: seq<Task>): int {
    if tasks == [] then 0
    else Energy(tasks[..|tasks| - 1]) + tasks[|tasks| - 1].duration * tasks[|tasks| - 1].demand
  }

  function TotalLoad(tasks: seq<Task>, a: int, e: int): int
    requires a <= e
    decreases e - a
  {
    if a == e then 0 else TotalLoad(tasks, a, e - 1) + Load(tasks, e - 1)
  }

  /** How long the task runs from a to e - 1. */
  function Overlap(task: Task, a: int, e: int): int {
    var from := if task.start < a then a else task.start;
    var to := if task.start + task.duration < e then task.start + task.duration else e;
    if from < to then to - from else 0
  }

  lemma {:induction false} OverlapIsEnergy(tasks: seq<Task>, a: int, e: int)
    requires a <= e && tasks != []
    ensures var k := |tasks| - 1;
      TotalLoad(tasks, a, e) == TotalLoad(tasks[..k], a, e) + Overlap(tasks[k], a, e) * tasks[k].demand
    decreases e - a
  {
    if a < e {
      OverlapIsEnergy(tasks, a, e - 1);
      var task := tasks[|tasks| - 1];
      assert Overlap(task, a, e) == Overlap(task, a, e - 1) + if Runs(task, e - 1) then 1 else 0;
      OneMore(Overlap(task, a, e - 1), task.demand);
    }
  }

  lemma OneMore(x: int, y: int)
    ensures (x + 1) * y == x * y + y
  {}

  lemma {:induction false} NoLoad(a: int, e: int)
    requires a <= e
    ensures TotalLoad([], a, e) == 0
    decreases e - a
  {
    if a < e {
      NoLoad(a, e - 1);
    }
  }

  /** Over a span that covers all tasks, the loads add up to the energy of the tasks. */
  lemma {:induction false} LoadsAddUpToEnergy(tasks: seq<Task>, a: int, e: int)
    requires a <= e && IsActive(tasks)
    requires forall k :: 0 <= k < |tasks| ==> a <= tasks[k].start && tasks[k].start + tasks[k].duration <= e
    ensures TotalLoad(tasks, a, e) == Energy(tasks)
  {
    if tasks == [] {
      NoLoad(a, e);
    } else {
      LoadsAddUpToEnergy(tasks[..|tasks| - 1], a, e);
      OverlapIsEnergy(tasks, a, e);
    }
  }

  lemma {:induction false} TotalIsLimited(tasks: seq<Task>, limit: int, a: int, e: int)
    requires a <= e && Respects(tasks, limit)
    ensures TotalLoad(tasks, a, e) <= limit * (e - a)
    decreases e - a
  {
    if a < e {
      TotalIsLimited(tasks, limit, a, e - 1);
      assert Fits(tasks, limit, e - 1);
      OneMore(e - 1 - a, limit);
    }
  }

  /** The energy bound: the tasks need no more than the limit over the span from earliest start to latest end. */
  lemma EnergyIsBounded(tasks: seq<Task>, limit: int, a: int, e: int)
    requires a <= e && IsActive(tasks) && Respects(tasks, limit)
    requires forall k :: 0 <= k < |tasks| ==> a <= tasks[k].start && tasks[k].start + tasks[k].duration <= e
    ensures Energy(tasks) <= limit * (e - a)
  {
    hide Respects, Energy, TotalLoad, IsActive;
    LoadsAddUpToEnergy(tasks, a, e);
    TotalIsLimited(tasks, limit, a, e);
  }

  // ---------- The posted model ----------

  function StartVars(n: nat): (vs: seq<Var>)
    ensures |vs| == n && forall i :: 0 <= i < n ==> vs[i] == Start(i)
  {
    seq(n, i requires 0 <= i => Start(i))
  }

  /** The tasks as an assignment starts them. */
  function Scheduled(d: seq<int>, r: seq<int>, s: Var -> int): (tasks: seq<Task>)
    requires |d| == |r|
    ensures IsActive(tasks)
  {
    Schedule(At(StartVars(|d|), s), d, r, |d|)
  }

  lemma TermMeans(d: seq<int>, r: seq<int>, i: nat, t: int, s: Var -> int)
    requires i < |d| == |r|
    ensures Eval(Term(d, r, i, t), s) == if Runs(Task(s(Start(i)), d[i], r[i]), t) then r[i] else 0
  {
    var c1, c2 := IsLessOrEqual(Var(Start(i)), t), IsGreater(Plus(Var(Start(i)), Const(d[i])), t);
    assert Eval(Plus(Var(Start(i)), Const(d[i])), s) == s(Start(i)) + d[i];
    assert Eval(Times(c1, c2), s) == if Runs(Task(s(Start(i)), d[i], r[i]), t) then 1 else 0;
    assert Eval(Times(Times(c1, c2), Const(r[i])), s) == Eval(Times(c1, c2), s) * r[i];
  }

  lemma {:induction false} TermsAddUp(d: seq<int>, r: seq<int>, n: nat, t: int, starts: seq<int>, s: Var -> int)
    requires n <= |d| == |r| == |starts| && forall i :: 0 <= i < n ==> starts[i] == s(Start(i))
    ensures Eval(SumOf(Terms(d, r, Active(d, r, n), t)), s) == Load(Schedule(starts, d, r, n), t)
  {
    hide Runs, Term, Terms, Load, SumOf, Eval;
    if n == 0 {
      NoTerms(d, r, t, s);
    } else {
      TermsAddUp(d, r, n - 1, t, starts, s);
      if r[n - 1] > 0 && d[n - 1] > 0 {
        var before, tasks := Active(d, r, n - 1), Schedule(starts, d, r, n - 1);
        assert Active(d, r, n) == before + [n - 1];
        assert Schedule(starts, d, r, n) == tasks + [Task(starts[n - 1], d[n - 1], r[n - 1])];
        TermMeans(d, r, n - 1, t, s);
        OneMoreTerm(d, r, before, n - 1, t, s);
        LoadAppend(tasks, Task(starts[n - 1], d[n - 1], r[n - 1]), t);
      }
    }
  }

  lemma NoTerms(d: seq<int>, r: seq<int>, t: int, s: Var -> int)
    requires |d| == |r|
    ensures Eval(SumOf(Terms(d, r, [], t)), s) == 0 && Load([], t) == 0
  {}

  lemma OneMoreTerm(d: seq<int>, r: seq<int>, tasks: seq<nat>, i: nat, t: int, s: Var -> int)
    requires |d| == |r| && AreTasks(tasks, |d|) && i < |d|
    ensures Eval(SumOf(Terms(d, r, tasks + [i], t)), s) ==
      Eval(SumOf(Terms(d, r, tasks, t)), s) + Eval(Term(d, r, i, t), s)
  {
    hide Term;
    var es, e := Terms(d, r, tasks, t), Term(d, r, i, t);
    assert (tasks + [i])[..|tasks|] == tasks;
    assert Terms(d, r, tasks + [i], t) == es + [e];
    assert (es + [e])[..|es|] == es;
    assert SumOf(es + [e]) == Plus(SumOf(es), e);
  }

  lemma {:induction false} WindowsMean(d: seq<int>, r: seq<int>, b: Expr<Var>, a: int, k: nat, s: Var -> int)
    requires |d| == |r|
    ensures Satisfies(Windows(d, r, b, a, k), s) <==> AllFit(Scheduled(d, r, s), Eval(b, s), a, a + k)
  {
    hide Fits, Scheduled, Satisfies, Window, Eval;
    if k == 0 {
      NothingToSatisfy(s);
    } else {
      WindowsMean(d, r, b, a, k - 1, s);
      var c := Window(d, r, b, a + k - 1);
      SatisfiesConcat(Windows(d, r, b, a, k - 1), [c], s);
      SatisfiesOne(c, s);
      WindowMeans(d, r, b, a + k - 1, s);
    }
  }

  lemma WindowMeans(d: seq<int>, r: seq<int>, b: Expr<Var>, t: int, s: Var -> int)
    requires |d| == |r|
    ensures Holds(Window(d, r, b, t), s) <==> Fits(Scheduled(d, r, s), Eval(b, s), t)
  {
    hide Load, SumOf, Terms, Eval;
    TermsAddUp(d, r, |d|, t, At(StartVars(|d|), s), s);
  }

  /** The starts are within the bounds of their variables. */
  predicate AreStarts(lo: seq<int>, hi: seq<int>, s: Var -> int)
    requires |lo| == |hi|
  {
    forall i: nat :: i < |lo| ==> lo[i] <= s(Start(i)) <= hi[i]
  }

  lemma {:induction false} ScheduleIsWithin(lo: seq<int>, hi: seq<int>, d: seq<int>, r: seq<int>, starts: seq<int>,
      n: nat, a: int, e: int)
    requires n <= |lo| == |hi| == |d| == |r| == |starts|
    requires forall i :: 0 <= i < n ==> lo[i] <= starts[i] <= hi[i]
    requires forall k :: 0 <= k < |Active(d, r, n)| ==>
      var i := Active(d, r, n)[k]; a <= lo[i] && hi[i] + d[i] < e
    ensures Within(Schedule(starts, d, r, n), a, e) && |Schedule(starts, d, r, n)| == |Active(d, r, n)|
  {
    if n > 0 {
      var before := Active(d, r, n - 1);
      forall k | 0 <= k < |before|
        ensures var i := before[k]; a <= lo[i] && hi[i] + d[i] < e
      {
        assert before[k] == Active(d, r, n)[k];
      }
      ScheduleIsWithin(lo, hi, d, r, starts, n - 1, a, e);
      if r[n - 1] > 0 && d[n - 1] > 0 {
        assert Active(d, r, n)[|before|] == n - 1;
      }
    }
  }

  lemma TimesCover(lo: seq<int>, hi: seq<int>, d: seq<int>, r: seq<int>, k: nat)
    requires IsInstance(lo, hi, d, r) && k < |Active(d, r, |d|)|
    ensures var i := Active(d, r, |d|)[k];
      FirstTime(lo, hi, d, r) <= lo[i] && hi[i] + d[i] < LastTime(lo, hi, d, r) + 1
  {
    var tasks := Active(d, r, |d|);
    assert FirstTime(lo, hi, d, r) <= Pick(lo, tasks)[k] && MaxOf(Pick(hi, tasks)) >= Pick(hi, tasks)[k];
  }

  lemma ScheduledIsWithin(lo: seq<int>, hi: seq<int>, d: seq<int>, r: seq<int>, s: Var -> int)
    requires IsInstance(lo, hi, d, r) && AreStarts(lo, hi, s)
    ensures Within(Scheduled(d, r, s), FirstTime(lo, hi, d, r), LastTime(lo, hi, d, r) + 1) && Scheduled(d, r, s) != []
  {
    hide Within, FirstTime, LastTime;
    forall k | 0 <= k < |Active(d, r, |d|)|
      ensures var i := Active(d, r, |d|)[k];
        FirstTime(lo, hi, d, r) <= lo[i] && hi[i] + d[i] < LastTime(lo, hi, d, r) + 1
    {
      TimesCover(lo, hi, d, r, k);
    }
    ScheduleIsWithin(lo, hi, d, r, At(StartVars(|d|), s), |d|, FirstTime(lo, hi, d, r), LastTime(lo, hi, d, r) + 1);
  }

  /** The posted constraints for any limit, constant or not. */
  lemma PostedMeans(lo: seq<int>, hi: seq<int>, d: seq<int>, r: seq<int>, b: Expr<Var>, s: Var -> int)
    requires IsInstance(lo, hi, d, r) && AreStarts(lo, hi, s)
    ensures Satisfies(CumulativeConstraints(lo, hi, d, r, b), s) <==>
      Respects(Scheduled(d, r, s), Eval(b, s)) && (b.Const? || Eval(b, s) <= Sum(r))
  {
    hide Windows, Scheduled, Respects, Satisfies, FirstTime, LastTime, AreStarts, AllFit, Sum;
    var a, e, tasks := FirstTime(lo, hi, d, r), LastTime(lo, hi, d, r) + 1, Scheduled(d, r, s);
    ScheduledIsWithin(lo, hi, d, r, s);
    SpanIsCounted(tasks, a, e);
    WindowsMean(d, r, b, a, WindowCount(lo, hi, d, r), s);
    SatisfiesConcat(Windows(d, r, b, a, WindowCount(lo, hi, d, r)), LimitBound(r, b), s);
    NothingToSatisfy(s);
    SatisfiesOne(Compare(b, LessOrEqual, Const(Sum(r))), s);
    PostedTimesSuffice(tasks, a, e, Eval(b, s));
  }

  /** The posted window sums hold exactly when the limit holds at every time, or at every start. */
  lemma CumulativeMeans(lo: seq<int>, hi: seq<int>, d: seq<int>, r: seq<int>, limit: int, s: Var -> int)
    requires IsInstance(lo, hi, d, r) && AreStarts(lo, hi, s)
    ensures Satisfies(CumulativeConstraints(lo, hi, d, r, Const(limit)), s) <==> Respects(Scheduled(d, r, s), limit)
  {
    hide Satisfies, CumulativeConstraints, Respects, Scheduled, AreStarts;
    PostedMeans(lo, hi, d, r, Const(limit), s);
    EvalConst<Var>(limit, s);
  }

  lemma SpanIsCounted(tasks: seq<Task>, a: int, e: int)
    requires tasks != [] && IsActive(tasks) && Within(tasks, a, e)
    ensures a < e
  {
    assert a <= tasks[0].start < tasks[0].start + tasks[0].duration < e;
  }

  /** With a variable limit there is the bound by the sum of all demands as well. */
  lemma VariableLimitMeans(lo: seq<int>, hi: seq<int>, d: seq<int>, r: seq<int>, s: Var -> int)
    requires IsInstance(lo, hi, d, r) && AreStarts(lo, hi, s)
    ensures Satisfies(CumulativeConstraints(lo, hi, d, r, Var(Limit)), s) <==>
      (Respects(Scheduled(d, r, s), s(Limit)) && s(Limit) <= Sum(r))
  {
    hide Satisfies, CumulativeConstraints, Respects, Scheduled, AreStarts;
    PostedMeans(lo, hi, d, r, Var(Limit), s);
    EvalVar(Limit, s);
  }

  /** For given starts some limit passes the bound exactly when the sum of the demands is itself a limit. */
  lemma SomeLimitPasses(tasks: seq<Task>, sum: int)
    ensures (exists limit :: Respects(tasks, limit) && limit <= sum) <==> Respects(tasks, sum)
  {
    forall limit | Respects(tasks, limit) && limit <= sum
      ensures Respects(tasks, sum)
    {
      forall t
        ensures Fits(tasks, sum, t)
      {
        assert Fits(tasks, limit, t);
      }
    }
  }

  /** The same assignment with another limit. */
  function WithLimit(s: Var -> int, limit: int): Var -> int {
    (v: Var) => if v == Limit then limit else s(v)
  }

  /** Some value of the limit satisfies the posted constraints for the starts in s. */
  ghost predicate SomeLimitPosts(lo: seq<int>, hi: seq<int>, d: seq<int>, r: seq<int>, s: Var -> int)
    requires IsInstance(lo, hi, d, r)
  {
    exists limit :: Satisfies(CumulativeConstraints(lo, hi, d, r, Var(Limit)), WithLimit(s, limit))
  }

  lemma LimitKeepsSchedule(lo: seq<int>, hi: seq<int>, d: seq<int>, r: seq<int>, s: Var -> int, limit: int)
    requires |lo| == |hi| == |d| == |r|
    ensures Scheduled(d, r, WithLimit(s, limit)) == Scheduled(d, r, s)
    ensures AreStarts(lo, hi, s) ==> AreStarts(lo, hi, WithLimit(s, limit))
  {
    assert At(StartVars(|d|), WithLimit(s, limit)) == At(StartVars(|d|), s);
  }

  lemma SomeLimitPostsMeans(lo: seq<int>, hi: seq<int>, d: seq<int>, r: seq<int>, s: Var -> int)
    requires IsInstance(lo, hi, d, r) && AreStarts(lo, hi, s)
    ensures SomeLimitPosts(lo, hi, d, r, s) <==> Respects(Scheduled(d, r, s), Sum(r))
  {
    hide Satisfies, CumulativeConstraints, IsInstance, AreStarts, Scheduled, Respects, Sum;
    assert |lo| == |hi| == |d| == |r| by { InstanceSizes(lo, hi, d, r); }
    forall limit
      ensures Satisfies(CumulativeConstraints(lo, hi, d, r, Var(Limit)), WithLimit(s, limit)) <==>
        Respects(Scheduled(d, r, s), limit) && limit <= Sum(r)
    {
      LimitKeepsSchedule(lo, hi, d, r, s, limit);
      VariableLimitMeans(lo, hi, d, r, WithLimit(s, limit));
    }
    SomeLimitPasses(Scheduled(d, r, s), Sum(r));
  }

  lemma InstanceSizes(lo: seq<int>, hi: seq<int>, d: seq<int>, r: seq<int>)
    requires IsInstance(lo, hi, d, r)
    ensures |lo| == |hi| == |d| == |r|
  {}

  // ---------- When the bound on the limit loses nothing ----------

  /** The demand of the tasks among the first n that can be made to run at time t. */
  function Peak(lo: seq<int>, hi: seq<int>, d: seq<int>, r: seq<int>, t: int, n: nat): int
    requires n <= |lo| == |hi| == |d| == |r|
  {
    if n == 0 then 0
    else
      var i := n - 1;
      Peak(lo, hi, d, r, t, i) + if r[i] > 0 && d[i] > 0 && lo[i] <= t < hi[i] + d[i] then r[i] else 0
  }

  predicate AreBounds(lo: seq<int>, hi: seq<int>) {
    |lo| == |hi| && forall i :: 0 <= i < |lo| ==> lo[i] <= hi[i]
  }

  lemma {:induction false} LoadIsAtMostPeak(lo: seq<int>, hi: seq<int>, d: seq<int>, r: seq<int>,
                                            starts: seq<int>, t: int, n: nat)
    requires n <= |lo| == |hi| == |d| == |r| == |starts|
    requires forall i :: 0 <= i < n ==> lo[i] <= starts[i] <= hi[i]
    ensures Load(Schedule(starts, d, r, n), t) <= Peak(lo, hi, d, r, t, n)
  {
    hide Load;
    if n == 0 {
      NothingRuns(Schedule(starts, d, r, 0), t);
    } else {
      LoadIsAtMostPeak(lo, hi, d, r, starts, t, n - 1);
      NextLoad(starts, d, r, t, n - 1);
    }
  }

  /** The starts nearest to t: whatever can run at t does. */
  function StartsNear(lo: seq<int>, hi: seq<int>, t: int): (starts: seq<int>)
    requires |lo| == |hi|
    ensures |starts| == |lo|
    ensures forall i :: 0 <= i < |lo| ==> starts[i] == if t < lo[i] then lo[i] else if t > hi[i] then hi[i] else t
  {
    seq(|lo|, i requires 0 <= i < |lo| => if t < lo[i] then lo[i] else if t > hi[i] then hi[i] else t)
  }

  lemma {:induction false} PeakIsReached(lo: seq<int>, hi: seq<int>, d: seq<int>, r: seq<int>, t: int, n: nat)
    requires n <= |lo| == |hi| == |d| == |r| && AreBounds(lo, hi)
    ensures Load(Schedule(StartsNear(lo, hi, t), d, r, n), t) == Peak(lo, hi, d, r, t, n)
  {
    hide Load;
    if n == 0 {
      NothingRuns(Schedule(StartsNear(lo, hi, t), d, r, 0), t);
    } else {
      PeakIsReached(lo, hi, d, r, t, n - 1);
      NextLoad(StartsNear(lo, hi, t), d, r, t, n - 1);
    }
  }

  /** The posted bound loses no starts within their bounds. */
  ghost predicate LosesNothing(lo: seq<int>, hi: seq<int>, d: seq<int>, r: seq<int>)
    requires IsInstance(lo, hi, d, r)
  {
    forall s: Var -> int :: AreStarts(lo, hi, s) ==> SomeLimitPosts(lo, hi, d, r, s)
  }

  ghost predicate PeaksFit(lo: seq<int>, hi: seq<int>, d: seq<int>, r: seq<int>)
    requires |lo| == |hi| == |d| == |r|
  {
    forall t :: Peak(lo, hi, d, r, t, |d|) <= Sum(r)
  }

  lemma PeakFits(lo: seq<int>, hi: seq<int>, d: seq<int>, r: seq<int>, t: int)
    requires IsInstance(lo, hi, d, r) && AreBounds(lo, hi) && LosesNothing(lo, hi, d, r)
    ensures Peak(lo, hi, d, r, t, |d|) <= Sum(r)
  {
    hide SomeLimitPosts, Peak, Load, Sum;
    var starts := StartsNear(lo, hi, t);
    var s := (v: Var) => match v
      case Start(i) => if i < |starts| then starts[i] else 0
      case Limit => 0;
    assert At(StartVars(|d|), s) == starts;
    SomeLimitPostsMeans(lo, hi, d, r, s);
    assert Fits(Scheduled(d, r, s), Sum(r), t);
    PeakIsReached(lo, hi, d, r, t, |d|);
  }

  /** The bound on a variable limit loses nothing exactly when at no time the tasks that can run demand more than the
      sum. */
  lemma BoundLosesNothing(lo: seq<int>, hi: seq<int>, d: seq<int>, r: seq<int>)
    requires IsInstance(lo, hi, d, r) && AreBounds(lo, hi)
    ensures LosesNothing(lo, hi, d, r) <==> PeaksFit(lo, hi, d, r)
  {
    hide SomeLimitPosts, Peak, Load, Sum;
    if LosesNothing(lo, hi, d, r) {
      forall t
        ensures Peak(lo, hi, d, r, t, |d|) <= Sum(r)
      {
        PeakFits(lo, hi, d, r, t);
      }
    }
    if PeaksFit(lo, hi, d, r) {
      forall s: Var -> int | AreStarts(lo, hi, s)
        ensures SomeLimitPosts(lo, hi, d, r, s)
      {
        forall t
          ensures Fits(Scheduled(d, r, s), Sum(r), t)
        {
          LoadIsAtMostPeak(lo, hi, d, r, At(StartVars(|d|), s), t, |d|);
        }
        SomeLimitPostsMeans(lo, hi, d, r, s);
      }
    }
  }

  /** The demands of the tasks among the first n that are left out. */
  function LeftOut(d: seq<int>, r: seq<int>, n: nat): int
    requires n <= |d| == |r|
  {
    if n == 0 then 0
    else LeftOut(d, r, n - 1) + if r[n - 1] > 0 && d[n - 1] > 0 then 0 else r[n - 1]
  }

  /** If all tasks can run at t, the peak is the sum without what is left out; it is never more. */
  lemma {:induction false} PeakIsAtMostSum(lo: seq<int>, hi: seq<int>, d: seq<int>, r: seq<int>, t: int, n: nat)
    requires n <= |lo| == |hi| == |d| == |r|
    ensures Peak(lo, hi, d, r, t, n) <= Sum(r[..n]) - LeftOut(d, r, n)
    ensures (forall i :: 0 <= i < n ==> lo[i] == hi[i] == t) ==>
      Peak(lo, hi, d, r, t, n) == Sum(r[..n]) - LeftOut(d, r, n)
  {
    if n > 0 {
      PeakIsAtMostSum(lo, hi, d, r, t, n - 1);
      assert r[..n][..n - 1] == r[..n - 1];
    }
  }

  /** If the demands left out do not sum to less than 0, the sum of all demands is a limit for every schedule. */
  lemma SumOfDemandsSuffices(d: seq<int>, r: seq<int>, s: Var -> int)
    requires |d| == |r| && LeftOut(d, r, |d|) >= 0
    ensures Respects(Scheduled(d, r, s), Sum(r))
  {
    hide Peak, Sum, LeftOut, Load;
    var starts := At(StartVars(|d|), s);
    assert r[..|d|] == r;
    forall t
      ensures Fits(Scheduled(d, r, s), Sum(r), t)
    {
      LoadIsAtMostPeak(starts, starts, d, r, starts, t, |d|);
      PeakIsAtMostSum(starts, starts, d, r, t, |d|);
    }
  }

  ghost predicate LosesNothingEver(d: seq<int>, r: seq<int>) {
    forall lo, hi :: IsInstance(lo, hi, d, r) && AreBounds(lo, hi) ==> LosesNothing(lo, hi, d, r)
  }

  /** Whatever the bounds of the starts are, nothing is lost exactly when the demands left out do not sum to less
      than 0. */
  lemma LeftOutDecides(d: seq<int>, r: seq<int>)
    requires |d| == |r| && Active(d, r, |d|) != []
    ensures LosesNothingEver(d, r) <==> LeftOut(d, r, |d|) >= 0
  {
    hide SomeLimitPosts, Peak, Sum, LeftOut, Active, Respects;
    if LosesNothingEver(d, r) {
      var at0 := seq(|d|, _ => 0);
      assert IsInstance(at0, at0, d, r) && AreBounds(at0, at0);
      assert LosesNothing(at0, at0, d, r);
      BoundLosesNothing(at0, at0, d, r);
      PeakIsAtMostSum(at0, at0, d, r, 0, |d|);
      assert Peak(at0, at0, d, r, 0, |d|) <= Sum(r);
      assert r[..|d|] == r;
    }
    if LeftOut(d, r, |d|) >= 0 {
      forall lo, hi | IsInstance(lo, hi, d, r) && AreBounds(lo, hi)
        ensures LosesNothing(lo, hi, d, r)
      {
        forall s: Var -> int | AreStarts(lo, hi, s)
          ensures SomeLimitPosts(lo, hi, d, r, s)
        {
          SumOfDemandsSuffices(d, r, s);
          SomeLimitPostsMeans(lo, hi, d, r, s);
        }
      }
    }
  }

  /** With a negative demand it can lose everything: here no limit will do, although 2 units suffice. */
  lemma NegativeDemandLosesAll(s: Var -> int)
    requires AreStarts([0, 0], [0, 0], s)
    ensures IsInstance([0, 0], [0, 0], [1, 1], [2, -1]) && Respects(Scheduled([1, 1], [2, -1], s), 2)
    ensures !Satisfies(CumulativeConstraints([0, 0], [0, 0], [1, 1], [2, -1], Var(Limit)), s)
  {
    hide Satisfies, CumulativeConstraints, Load;
    var d, r := [1, 1], [2, -1];
    OnlyFirstIsActive(s);
    var tasks := Scheduled(d, r, s);
    forall t
      ensures Fits(tasks, 2, t)
    {
      LoadAppend([], tasks[0], t);
      NothingRuns([], t);
    }
    LoadIsAtLeast(tasks, 0, tasks[0].start);
    VariableLimitMeans([0, 0], [0, 0], d, r, s);
    assert Respects(tasks, s(Limit)) ==> Fits(tasks, s(Limit), tasks[0].start);
    SumAppend([2], -1);
    SumSingle(2);
    assert r == [2] + [-1];
  }

  lemma OnlyFirstIsActive(s: Var -> int)
    ensures Active([1, 1], [2, -1], 2) == [0]
    ensures Scheduled([1, 1], [2, -1], s) == [] + [Task(s(Start(0)), 1, 2)]
  {
    var d, r, starts := [1, 1], [2, -1], At(StartVars(2), s);
    assert Active(d, r, 0) == [] && Active(d, r, 1) == [0];
    assert Schedule(starts, d, r, 0) == [] && Schedule(starts, d, r, 1) == [Task(starts[0], 1, 2)];
  }

  // ---------- The posted constraints in full ----------

  /** What each task demands at time t: nothing unless it is active and runs then. */
  function Demands(starts: seq<int>, d: seq<int>, r: seq<int>, t: int): (ds: seq<int>)
    requires |starts| == |d| == |r|
    ensures |ds| == |r| && forall i :: 0 <= i < |r| ==>
      ds[i] == if r[i] > 0 && d[i] > 0 && starts[i] <= t < starts[i] + d[i] then r[i] else 0
  {
    seq(|r|, i requires 0 <= i < |r| =>
      if r[i] > 0 && d[i] > 0 && starts[i] <= t < starts[i] + d[i] then r[i] else 0)
  }

  lemma {:induction false} LoadIsSumOfDemands(starts: seq<int>, d: seq<int>, r: seq<int>, t: int, n: nat)
    requires n <= |starts| == |d| == |r|
    ensures Load(Schedule(starts, d, r, n), t) == Sum(Demands(starts, d, r, t)[..n])
  {
    hide Load, Demands;
    if n == 0 {
      NothingRuns(Schedule(starts, d, r, 0), t);
    } else {
      LoadIsSumOfDemands(starts, d, r, t, n - 1);
      NextLoad(starts, d, r, t, n - 1);
      var ds := Demands(starts, d, r, t);
      assert ds[..n][..n - 1] == ds[..n - 1];
    }
  }

  /** The posted constraints, spelled out: at no time do the active tasks that run demand more than the limit, and a
      variable limit is at most the sum of all demands, active or not. */
  lemma CumulativeInFull(lo: seq<int>, hi: seq<int>, d: seq<int>, r: seq<int>, b: Expr<Var>, s: Var -> int)
    requires IsInstance(lo, hi, d, r) && AreStarts(lo, hi, s)
    ensures Satisfies(CumulativeConstraints(lo, hi, d, r, b), s) <==>
      && (forall t :: Sum(Demands(At(StartVars(|d|), s), d, r, t)) <= Eval(b, s))
      && (b.Const? || Eval(b, s) <= Sum(r))
  {
    hide Satisfies, CumulativeConstraints, Load, Sum, Demands, Eval;
    PostedMeans(lo, hi, d, r, b, s);
    var starts := At(StartVars(|d|), s);
    forall t
      ensures Fits(Scheduled(d, r, s), Eval(b, s), t) <==> Sum(Demands(starts, d, r, t)) <= Eval(b, s)
    {
      LoadIsSumOfDemands(starts, d, r, t, |d|);
      assert Demands(starts, d, r, t)[..|d|] == Demands(starts, d, r, t);
    }
  }
}
