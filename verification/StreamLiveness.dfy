/** Endless runs: under fair scheduling the drop of a handle ends, with any number of streams on one token. */
module StreamLiveness {
  import opened StreamModel
  import opened StreamInvariant
  import opened StreamTheorems
  import opened StreamShutdown

  /** A state and a label for every moment; at None nothing happens. */
  ghost predicate IsEndlessRun(states: nat -> System, labels: nat -> Option<Label>) {
    states(0) == INITIAL && forall i: nat :: IsMoment(states, labels, i)
  }

  ghost predicate IsMoment(states: nat -> System, labels: nat -> Option<Label>, i: nat) {
    match labels(i)
    case None => states(i + 1) == states(i)
    case Some(l) => IsStep(states(i), l, states(i + 1))
  }

  // ---------- Fairness ----------

  /** The same action, whatever final response is pushed. */
  predicate SameAction(l: Label, m: Label) {
    l == m || (l.Local? && m.Local? && l.k == m.k && l.l.PushFinal? && m.l.PushFinal?)
  }

  /** Steps that a thread takes if nothing keeps it from doing so forever. */
  predicate IsObliged(l: Label) {
    match l
    case Local(_, m) =>
      m.LoadFinished? || m.Join? || m.LockFinal? || m.PushFinal? || m.StoreFinished? || m.NotifyFinal?
    case DoStop => true
    case DoRegister(_) => true
    case DoUnregister(_) => true
    case DoDrop(_) => true
    case FreeHandle(_) => true
    case _ => false
  }

  predicate TakesToken(l: Label) {
    l.LockRegister? || l.LockUnregister? || l.LockDrop?
  }

  ghost predicate IsTaken(labels: nat -> Option<Label>, l: Label, i: nat) {
    exists j: nat :: i <= j && IsTakenAt(labels, l, j)
  }

  predicate IsTakenAt(labels: nat -> Option<Label>, l: Label, j: nat) {
    labels(j).Some? && SameAction(labels(j).value, l)
  }

  predicate EnabledAt(states: nat -> System, l: Label, i: nat) {
    Enabled(l, states(i))
  }

  ghost predicate StaysEnabled(states: nat -> System, l: Label, i: nat) {
    forall j: nat :: i <= j ==> EnabledAt(states, l, j)
  }

  ghost predicate BecomesEnabled(states: nat -> System, l: Label, i: nat) {
    exists j: nat :: i <= j && EnabledAt(states, l, j)
  }

  ghost predicate KeepsBecomingEnabled(states: nat -> System, l: Label, i: nat) {
    forall j: nat :: i <= j ==> BecomesEnabled(states, l, j)
  }

  /** A thread that can always go on does, and one that can take the token mutex again and again gets it in the end. */
  ghost predicate IsFair(states: nat -> System, labels: nat -> Option<Label>) {
    && (forall l, i: nat :: IsObliged(l) && StaysEnabled(states, l, i) ==> IsTaken(labels, l, i))
    && (forall l, i: nat :: TakesToken(l) && KeepsBecomingEnabled(states, l, i) ==> IsTaken(labels, l, i))
  }

  /** The finalizer of handle k waits for a solve that is still running. */
  predicate AwaitsSolve(s: System, k: nat) {
    k < |s.streams| && s.streams[k].finalizer == Joining && s.streams[k].worker == Solving
  }

  /** Every solve that the finalizer of handle k waits for returns. */
  ghost predicate AwaitedSolveReturns(states: nat -> System, k: nat) {
    forall i: nat :: AwaitsSolve(states(i), k) ==> StopsWaiting(states, k, i)
  }

  ghost predicate StopsWaiting(states: nat -> System, k: nat, i: nat) {
    exists j: nat :: i <= j && !AwaitsSolve(states(j), k)
  }

  // ---------- Phases ----------

  /** The part of a stream that decides what its worker and its finalizer do next. */
  predicate SamePhase(s: System, t: System, k: nat) {
    && k < |s.streams| && k < |t.streams|
    && s.streams[k].worker == t.streams[k].worker && s.streams[k].finalizer == t.streams[k].finalizer
  }

  function Rank(s: System, k: nat): nat
    requires k < |s.streams|
  {
    WorkerRank(s.streams[k].worker) + FinalizerRank(s.streams[k].finalizer)
  }

  lemma FinalizerAdvances(l: Label, s: System, k: nat)
    requires Enabled(l, s) && k < |s.streams|
    ensures k < |Do(l, s).streams|
    ensures FinalizerRank(Do(l, s).streams[k].finalizer) <= FinalizerRank(s.streams[k].finalizer)
  {
    if l.Local? {
      hide FinalizerRank;
      LocalFinalizerAdvances(l.l, s.streams[l.k]);
    }
  }

  lemma LocalFinalizerAdvances(l: LocalLabel, t: Stream)
    requires LocalEnabled(l, t)
    ensures FinalizerRank(LocalDo(l, t).finalizer) <= FinalizerRank(t.finalizer)
  {}

  lemma SameRankSamePhase(s: System, t: System, k: nat)
    requires k < |s.streams| && k < |t.streams|
    requires WorkerRank(t.streams[k].worker) <= WorkerRank(s.streams[k].worker)
    requires FinalizerRank(t.streams[k].finalizer) <= FinalizerRank(s.streams[k].finalizer)
    ensures Rank(t, k) <= Rank(s, k) && (Rank(t, k) == Rank(s, k) ==> SamePhase(s, t, k))
  {}

  lemma {:induction false} InvAt(states: nat -> System, labels: nat -> Option<Label>, i: nat)
    requires IsEndlessRun(states, labels)
    ensures Inv(states(i))
  {
    hide Inv, Do, Enabled;
    if i == 0 {
      InitialInv();
    } else {
      InvAt(states, labels, i - 1);
      assert IsMoment(states, labels, i - 1);
      if labels(i - 1).Some? {
        StepKeepsInv(labels(i - 1).value, states(i - 1));
      }
    }
  }

  /** Later states have no greater rank, and an equal rank means an equal phase. */
  lemma {:induction false} RankFalls(states: nat -> System, labels: nat -> Option<Label>, k: nat, i: nat, j: nat)
    requires IsEndlessRun(states, labels) && i <= j && k < |states(i).streams|
    ensures k < |states(j).streams| && Rank(states(j), k) <= Rank(states(i), k)
    ensures Rank(states(j), k) == Rank(states(i), k) ==> SamePhase(states(i), states(j), k)
    decreases j
  {
    hide Do, Enabled, WorkerRank, FinalizerRank;
    if i < j {
      RankFalls(states, labels, k, i, j - 1);
      assert IsMoment(states, labels, j - 1);
      if labels(j - 1).Some? {
        WorkerAdvances(labels(j - 1).value, states(j - 1), k);
        FinalizerAdvances(labels(j - 1).value, states(j - 1), k);
        SameRankSamePhase(states(j - 1), states(j), k);
      }
    }
  }

  // ---------- The token mutex comes free ----------

  ghost predicate IsFree(states: nat -> System, i: nat) {
    states(i).tokenLock == TokenFree
  }

  lemma HolderStays(l: Label, s: System)
    requires TokenLockOk(s) && Enabled(l, s) && s.tokenLock != TokenFree && Do(l, s).tokenLock != TokenFree
    ensures ReleaseStep(Do(l, s)) == ReleaseStep(s)
  {
    if l.Local? {
      LocalStepKeepsRoles(l.l, s.streams[l.k]);
    }
  }

  lemma {:induction false} HolderStaysUntil(states: nat -> System, labels: nat -> Option<Label>, i: nat, j: nat)
    requires IsEndlessRun(states, labels) && i <= j
    requires forall m: nat :: i <= m <= j ==> !IsFree(states, m)
    ensures ReleaseStep(states(j)) == ReleaseStep(states(i))
    decreases j
  {
    hide Do, Enabled, ReleaseStep;
    if i < j {
      HolderStaysUntil(states, labels, i, j - 1);
      assert IsMoment(states, labels, j - 1);
      assert !IsFree(states, j - 1) && !IsFree(states, j);
      if labels(j - 1).Some? {
        InvAt(states, labels, j - 1);
        HolderStays(labels(j - 1).value, states(j - 1));
      }
    }
  }

  lemma ReleaseIsObliged(s: System)
    ensures IsObliged(ReleaseStep(s))
    ensures forall l :: SameAction(l, ReleaseStep(s)) ==> l == ReleaseStep(s)
  {}

  lemma ReleaseFrees(states: nat -> System, labels: nat -> Option<Label>, m: nat)
    requires IsEndlessRun(states, labels) && !IsFree(states, m) && labels(m) == Some(ReleaseStep(states(m)))
    ensures IsFree(states, m + 1)
  {
    hide Do, Enabled, ReleaseStep, Inv;
    assert IsMoment(states, labels, m);
    InvAt(states, labels, m);
    ReleaseIsEnabled(states(m));
  }

  /** Whoever holds the token mutex gives it back. */
  lemma TokenComesFree(states: nat -> System, labels: nat -> Option<Label>, i: nat) returns (j: nat)
    requires IsEndlessRun(states, labels) && IsFair(states, labels)
    ensures i <= j && IsFree(states, j)
  {
    hide Do, Enabled, ReleaseStep, SameAction, IsObliged, Inv;
    if !exists m: nat :: i <= m && IsFree(states, m) {
      var l := ReleaseStep(states(i));
      ReleaseIsObliged(states(i));
      forall m: nat | i <= m
        ensures EnabledAt(states, l, m) && ReleaseStep(states(m)) == l
      {
        HolderStaysUntil(states, labels, i, m);
        InvAt(states, labels, m);
        assert !IsFree(states, m);
        ReleaseIsEnabled(states(m));
      }
      assert StaysEnabled(states, l, i);
      var m: nat :| i <= m && IsTakenAt(labels, l, m);
      ReleaseFrees(states, labels, m);
    }
    j :| i <= j && IsFree(states, j);
  }

  // ---------- Every phase of a drop ends ----------

  /** What the finalizer of handle k, or the worker it waits for, does next. */
  function NextStep(s: System, k: nat): Label
    requires k < |s.streams|
  {
    match s.streams[k].finalizer
    case Dropped => Local(k, LoadFinished)
    case WantsToken => LockDrop(k)
    case Stopping => DoDrop(k)
    case Joining => NextWorkerStep(s.streams[k].worker, k)
    case _ => FreeHandle(k)
  }

  function NextWorkerStep(w: Worker, k: nat): Label {
    match w
    case Spawned => LockRegister(k)
    case Registering => DoRegister(k)
    case Solving => Local(k, SolveReturns)
    case Returned => LockUnregister(k)
    case Unregistering => DoUnregister(k)
    case Unregistered => Local(k, LockFinal)
    case PushingFinal => Local(k, PushFinal([]))
    case StoringFinished => Local(k, StoreFinished)
    case Notifying => Local(k, NotifyFinal)
    case Exited => Local(k, Join)
  }

  lemma NextIsEnabled(s: System, k: nat)
    requires k < |s.streams| && BeingDropped(s.streams[k].finalizer) && !AwaitsSolve(s, k)
    requires LockOk(s.streams[k]) && s.streams[k].consumer == Idle && s.refs > 0
    ensures IsObliged(NextStep(s, k)) || TakesToken(NextStep(s, k))
    ensures IsObliged(NextStep(s, k)) || s.tokenLock == TokenFree ==> Enabled(NextStep(s, k), s)
  {}

  lemma NextChangesPhase(s: System, k: nat, l: Label)
    requires k < |s.streams| && BeingDropped(s.streams[k].finalizer) && !AwaitsSolve(s, k)
    requires SameAction(l, NextStep(s, k)) && Enabled(l, s)
    ensures !SamePhase(s, Do(l, s), k)
  {}

  lemma PhaseDecides(s: System, t: System, k: nat)
    requires SamePhase(s, t, k)
    ensures NextStep(s, k) == NextStep(t, k) && (AwaitsSolve(s, k) <==> AwaitsSolve(t, k))
  {}

  lemma NextIsEnabledAt(states: nat -> System, labels: nat -> Option<Label>, k: nat, i: nat, j: nat)
    requires IsEndlessRun(states, labels) && SamePhase(states(i), states(j), k)
    requires BeingDropped(states(i).streams[k].finalizer) && !AwaitsSolve(states(i), k)
    ensures IsObliged(NextStep(states(i), k)) || IsFree(states, j) ==> EnabledAt(states, NextStep(states(i), k), j)
  {
    hide Enabled, NextStep, AwaitsSolve, IsObliged, Inv, LockOk;
    PhaseDecides(states(i), states(j), k);
    InvAt(states, labels, j);
    DropFacts(states(j), k);
    NextIsEnabled(states(j), k);
  }

  ghost predicate PhaseStays(states: nat -> System, k: nat, i: nat) {
    forall j: nat :: i <= j ==> SamePhase(states(i), states(j), k)
  }

  lemma PhaseEndsWithoutSolve(states: nat -> System, labels: nat -> Option<Label>, k: nat, i: nat)
    requires IsEndlessRun(states, labels) && IsFair(states, labels)
    requires k < |states(i).streams| && BeingDropped(states(i).streams[k].finalizer) && !AwaitsSolve(states(i), k)
    ensures !PhaseStays(states, k, i)
  {
    hide Do, Enabled, NextStep, AwaitsSolve, IsObliged, TakesToken, SameAction;
    if PhaseStays(states, k, i) {
      var l := NextStep(states(i), k);
      NextIsPromised(states(i), k, states, labels, i);
      forall j: nat | i <= j
        ensures IsObliged(l) ==> EnabledAt(states, l, j)
        ensures BecomesEnabled(states, l, j)
      {
        NextIsEnabledAt(states, labels, k, i, j);
        var m := TokenComesFree(states, labels, j);
        NextIsEnabledAt(states, labels, k, i, m);
      }
      assert IsTaken(labels, l, i);
      var j: nat :| i <= j && IsTakenAt(labels, l, j);
      assert IsMoment(states, labels, j);
      assert SamePhase(states(i), states(j), k) && SamePhase(states(i), states(j + 1), k);
      PhaseDecides(states(i), states(j), k);
      NextChangesPhase(states(j), k, labels(j).value);
    }
  }

  lemma NextIsPromised(s: System, k: nat, states: nat -> System, labels: nat -> Option<Label>, i: nat)
    requires IsEndlessRun(states, labels) && s == states(i)
    requires k < |s.streams| && BeingDropped(s.streams[k].finalizer) && !AwaitsSolve(s, k)
    ensures IsObliged(NextStep(s, k)) || TakesToken(NextStep(s, k))
  {
    hide Inv, LockOk;
    InvAt(states, labels, i);
    DropFacts(s, k);
    NextIsEnabled(s, k);
  }

  lemma PhaseEnds(states: nat -> System, labels: nat -> Option<Label>, k: nat, i: nat) returns (j: nat)
    requires IsEndlessRun(states, labels) && IsFair(states, labels) && AwaitedSolveReturns(states, k)
    requires k < |states(i).streams| && BeingDropped(states(i).streams[k].finalizer)
    ensures i <= j && k < |states(j).streams| && Rank(states(j), k) < Rank(states(i), k)
  {
    hide AwaitsSolve, Rank, IsFair, IsEndlessRun;
    if AwaitsSolve(states(i), k) {
      assert StopsWaiting(states, k, i);
      j :| i <= j && !AwaitsSolve(states(j), k);
      if SamePhase(states(i), states(j), k) {
        PhaseDecides(states(i), states(j), k);
      }
    } else {
      PhaseEndsWithoutSolve(states, labels, k, i);
      j :| i <= j && !SamePhase(states(i), states(j), k);
    }
    RankFalls(states, labels, k, i, j);
  }

  /** In every fair run, with any number of streams, a drop ends if the solve it waits for returns. */
  lemma {:induction false} DropEnds(states: nat -> System, labels: nat -> Option<Label>, k: nat, i: nat)
      returns (j: nat)
    requires IsEndlessRun(states, labels) && IsFair(states, labels) && AwaitedSolveReturns(states, k)
    requires k < |states(i).streams| && states(i).streams[k].finalizer != Live
    ensures i <= j && k < |states(j).streams| && states(j).streams[k].finalizer == Freed
    ensures states(j).streams[k].worker == Exited
    decreases Rank(states(i), k)
  {
    hide Rank, IsFair, IsEndlessRun, AwaitedSolveReturns, Inv;
    if BeingDropped(states(i).streams[k].finalizer) {
      var m := PhaseEnds(states, labels, k, i);
      StaysBeingDropped(states, labels, k, i, m);
      j := DropEnds(states, labels, k, m);
    } else {
      j := i;
      InvAt(states, labels, i);
      FreedStream(states(i), k);
    }
  }

  lemma FreedStream(s: System, k: nat)
    requires Inv(s) && k < |s.streams| && s.streams[k].finalizer == Freed
    ensures s.streams[k].worker == Exited
  {
    assert StreamOk(s.streams[k]);
  }

  lemma {:induction false} StaysBeingDropped(states: nat -> System, labels: nat -> Option<Label>, k: nat, i: nat,
      j: nat)
    requires IsEndlessRun(states, labels) && i <= j
    requires k < |states(i).streams| && states(i).streams[k].finalizer != Live
    ensures k < |states(j).streams| && states(j).streams[k].finalizer != Live
    decreases j
  {
    hide Do, Enabled;
    if i < j {
      StaysBeingDropped(states, labels, k, i, j - 1);
      assert IsMoment(states, labels, j - 1);
      if labels(j - 1).Some? {
        FinalizerStays(labels(j - 1).value, states(j - 1), k);
      }
    }
  }

  // ---------- One stream at a time ----------

  ghost predicate IsSoloEndlessRun(states: nat -> System, labels: nat -> Option<Label>) {
    IsEndlessRun(states, labels) && forall i: nat :: SoloMoment(states, labels, i)
  }

  predicate SoloMoment(states: nat -> System, labels: nat -> Option<Label>, i: nat) {
    labels(i).Some? ==> SoloLabel(labels(i).value, states(i))
  }

  predicate IsStoppedSolve(s: System, k: nat) {
    k < |s.streams| && s.streams[k].worker == Solving && s.streams[k].limitStopped
  }

  /** A solve whose limit is stopped returns. */
  ghost predicate StoppedSolveReturns(states: nat -> System, k: nat) {
    forall i: nat :: IsStoppedSolve(states(i), k) ==> StoppedSolveEnds(states, k, i)
  }

  ghost predicate StoppedSolveEnds(states: nat -> System, k: nat, i: nat) {
    exists j: nat :: i <= j && !IsStoppedSolve(states(j), k)
  }

  lemma {:induction false} SoloAt(states: nat -> System, labels: nat -> Option<Label>, i: nat)
    requires IsSoloEndlessRun(states, labels)
    ensures Solo(states(i))
  {
    hide Do, Enabled, SoloLabel, Busy, Registered;
    if i > 0 {
      SoloAt(states, labels, i - 1);
      assert IsMoment(states, labels, i - 1) && SoloMoment(states, labels, i - 1);
      if labels(i - 1).Some? {
        SoloStep(labels(i - 1).value, states(i - 1));
      }
    }
  }

  lemma AwaitedIsStopped(states: nat -> System, labels: nat -> Option<Label>, k: nat, i: nat)
    requires IsSoloEndlessRun(states, labels) && AwaitsSolve(states(i), k)
    ensures IsStoppedSolve(states(i), k)
  {
    hide Inv, Solo;
    InvAt(states, labels, i);
    SoloAt(states, labels, i);
    DropFacts(states(i), k);
  }

  /** With one stream at a time, a drop ends in every fair run if only stopped solves return. */
  lemma SoloDropEnds(states: nat -> System, labels: nat -> Option<Label>, k: nat, i: nat) returns (j: nat)
    requires IsSoloEndlessRun(states, labels) && IsFair(states, labels) && StoppedSolveReturns(states, k)
    requires k < |states(i).streams| && states(i).streams[k].finalizer != Live
    ensures i <= j && k < |states(j).streams| && states(j).streams[k].finalizer == Freed
  {
    hide IsFair, IsEndlessRun, AwaitsSolve, IsStoppedSolve;
    forall m: nat | AwaitsSolve(states(m), k)
      ensures StopsWaiting(states, k, m)
    {
      AwaitedIsStopped(states, labels, k, m);
      assert StoppedSolveEnds(states, k, m);
      var n: nat :| m <= n && !IsStoppedSolve(states(n), k);
      if AwaitsSolve(states(n), k) {
        AwaitedIsStopped(states, labels, k, n);
      }
    }
    j := DropEnds(states, labels, k, i);
  }
}
