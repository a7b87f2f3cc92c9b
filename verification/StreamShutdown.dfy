/** Dropping a handle: the finalizer asks for a stop, waits for the worker and always gets there. */
module StreamShutdown {
  import opened StreamModel
  import opened StreamInvariant
  import opened StreamTheorems

  function FinalizerRank(f: Finalizer): nat {
    match f
    case Live => 7
    case Dropped => 6
    case WantsToken => 5
    case Stopping => 4
    case Joining => 3
    case Joined => 2
    case Freed => 1
  }

  /** How many steps the worker, the finalizer and the observer calls in flight of a stream have left at most. */
  function Measure(t: Stream): nat {
    WorkerRank(t.worker) + FinalizerRank(t.finalizer) + t.notifies + (if t.stateLock == ObserverHolds then 2 else 0)
  }

  /** The steps of stream k's worker, finalizer and observer calls in flight. */
  predicate OwnStep(l: Label, k: nat) {
    match l
    case Local(j, m) =>
      j == k && (m.PushObserved? || m.NotifyObserved? || m.SolveReturns? || m.LockFinal? || m.PushFinal? ||
                 m.StoreFinished? || m.NotifyFinal? || m.Drop? || m.LoadFinished? || m.Join?)
    case LockRegister(j) => j == k
    case DoRegister(j) => j == k
    case LockUnregister(j) => j == k
    case DoUnregister(j) => j == k
    case LockDrop(j) => j == k
    case DoDrop(j) => j == k
    case FreeHandle(j) => j == k
    case _ => false
  }

  predicate NewCallback(l: Label, k: nat) {
    l == Local(k, LockObserve)
  }

  /** Every own step uses the measure up, a new observer call raises it by two, nothing else changes it. */
  lemma MeasureStep(l: Label, s: System, k: nat)
    requires Enabled(l, s) && k < |s.streams|
    requires forall j :: 0 <= j < |s.streams| ==> LockOk(s.streams[j])
    ensures k < |Do(l, s).streams|
    ensures OwnStep(l, k) ==> Measure(Do(l, s).streams[k]) < Measure(s.streams[k])
    ensures NewCallback(l, k) ==> Measure(Do(l, s).streams[k]) == Measure(s.streams[k]) + 2
    ensures !OwnStep(l, k) && !NewCallback(l, k) ==> Measure(Do(l, s).streams[k]) == Measure(s.streams[k])
  {
    if l.Local? && l.k == k {
      LocalMeasureStep(l.l, s.streams[k], k);
    }
  }

  lemma LocalMeasureStep(l: LocalLabel, t: Stream, k: nat)
    requires LocalEnabled(l, t) && LockOk(t)
    ensures OwnStep(Local(k, l), k) ==> Measure(LocalDo(l, t)) < Measure(t)
    ensures l == LockObserve ==> Measure(LocalDo(l, t)) == Measure(t) + 2
    ensures !OwnStep(Local(k, l), k) && l != LockObserve ==> Measure(LocalDo(l, t)) == Measure(t)
  {}

  function CountOwn(labels: seq<Label>, k: nat): nat {
    if labels == [] then 0
    else CountOwn(labels[..|labels| - 1], k) + (if OwnStep(labels[|labels| - 1], k) then 1 else 0)
  }

  function CountCallbacks(labels: seq<Label>, k: nat): nat {
    if labels == [] then 0
    else CountCallbacks(labels[..|labels| - 1], k) + (if NewCallback(labels[|labels| - 1], k) then 1 else 0)
  }

  /** In every stretch of every run, a stream takes at most as many own steps as its measure says,
      plus two for each observer call that starts meanwhile. */
  lemma {:induction false} OwnStepsAreBounded(states: seq<System>, labels: seq<Label>, i: nat, j: nat, k: nat)
    requires IsRun(states, labels) && i <= j < |states| && k < |states[i].streams|
    ensures k < |states[j].streams|
    ensures CountOwn(labels[i..j], k) + Measure(states[j].streams[k])
         <= Measure(states[i].streams[k]) + 2 * CountCallbacks(labels[i..j], k)
    decreases j
  {
    hide Do, Enabled, Measure, OwnStep, NewCallback, Inv, LockOk, FifoOk;
    if i < j {
      OwnStepsAreBounded(states, labels, i, j - 1, k);
      assert IsStep(states[j - 1], labels[j - 1], states[j - 1 + 1]);
      RunKeepsInv(states, labels, j - 1);
      PartsOf(states[j - 1]);
      MeasureStep(labels[j - 1], states[j - 1], k);
      assert labels[i..j][..j - i - 1] == labels[i..j - 1];
    }
  }

  /** The step that gives the token mutex back. */
  function ReleaseStep(s: System): Label {
    match s.tokenLock
    case WorkerOf(j) => if j < |s.streams| && s.streams[j].worker == Registering then DoRegister(j) else DoUnregister(j)
    case FinalizerOf(j) => DoDrop(j)
    case _ => DoStop
  }

  /** A step that brings the drop of handle k closer to its end. */
  function HelpfulStep(s: System, k: nat): Label
    requires k < |s.streams|
  {
    var t := s.streams[k];
    match t.finalizer
    case Live => Local(k, Drop)
    case Dropped => Local(k, LoadFinished)
    case WantsToken => if s.tokenLock == TokenFree then LockDrop(k) else ReleaseStep(s)
    case Stopping => DoDrop(k)
    case Joining => WorkerStep(s, k)
    case Joined => FreeHandle(k)
    case Freed => DoStop
  }

  function WorkerStep(s: System, k: nat): Label
    requires k < |s.streams|
  {
    var t := s.streams[k];
    match t.worker
    case Spawned => if s.tokenLock == TokenFree then LockRegister(k) else ReleaseStep(s)
    case Registering => DoRegister(k)
    case Solving =>
      if t.stateLock == ObserverHolds then Local(k, PushObserved([]))
      else if t.notifies > 0 then Local(k, NotifyObserved)
      else Local(k, SolveReturns)
    case Returned => if s.tokenLock == TokenFree then LockUnregister(k) else ReleaseStep(s)
    case Unregistering => DoUnregister(k)
    case Unregistered => Local(k, LockFinal)
    case PushingFinal => Local(k, PushFinal([]))
    case StoringFinished => Local(k, StoreFinished)
    case Notifying => Local(k, NotifyFinal)
    case Exited => Local(k, Join)
  }

  predicate BeingDropped(f: Finalizer) {
    f != Live && f != Freed
  }

  /** Nothing blocks a drop, with any number of streams: a helpful step is enabled. It is the return of a solve only
      when the finalizer waits for its own solve, and with one stream at a time that solve was stopped. */
  lemma DropIsNeverBlocked(s: System, k: nat)
    requires Inv(s) && k < |s.streams| && BeingDropped(s.streams[k].finalizer)
    ensures Enabled(HelpfulStep(s, k), s)
    ensures ReturnsSolve(HelpfulStep(s, k)) ==>
      HelpfulStep(s, k).k == k && s.streams[k].finalizer == Joining && s.streams[k].worker == Solving
    ensures Solo(s) && ReturnsSolve(HelpfulStep(s, k)) ==> s.streams[k].limitStopped
    ensures OwnStep(HelpfulStep(s, k), k) || (s.tokenLock != TokenFree && HelpfulStep(s, k) == ReleaseStep(s))
    ensures HelpfulStep(s, k).Local? ==> HelpfulStep(s, k).k == k
    ensures !HelpfulStep(s, k).Start?
  {
    hide Inv, Solo, Enabled, LocalEnabled, ReleaseStep, HelpfulStep, OwnStep, WorkerStep, LockOk;
    if s.tokenLock != TokenFree {
      ReleaseIsEnabled(s);
    }
    DropFacts(s, k);
    HelpfulIsEnabled(s, k);
  }

  predicate ReturnsSolve(l: Label) {
    l.Local? && l.l == SolveReturns
  }

  /** In particular the token still has a reference, so that the last step of a drop is never blocked either. */
  lemma DropFacts(s: System, k: nat)
    requires Inv(s) && k < |s.streams| && BeingDropped(s.streams[k].finalizer)
    ensures LockOk(s.streams[k]) && s.streams[k].consumer == Idle
    ensures s.refs > 0
    ensures Solo(s) && s.streams[k].finalizer == Joining && s.streams[k].worker == Solving ==> s.streams[k].limitStopped
  {
    UnfreedUpdate(s.streams, k, s.streams[k].(finalizer := Freed));
    assert DropOk(s.streams[k]) && FifoOk(s.streams[k]);
  }

  lemma HelpfulIsEnabled(s: System, k: nat)
    requires k < |s.streams| && BeingDropped(s.streams[k].finalizer)
    requires s.tokenLock != TokenFree ==>
               Enabled(ReleaseStep(s), s) && !ReleaseStep(s).Local? && !ReleaseStep(s).Start?
    requires LockOk(s.streams[k]) && s.streams[k].consumer == Idle && s.refs > 0
    ensures Enabled(HelpfulStep(s, k), s)
    ensures ReturnsSolve(HelpfulStep(s, k)) ==>
      HelpfulStep(s, k).k == k && s.streams[k].finalizer == Joining && s.streams[k].worker == Solving
    ensures OwnStep(HelpfulStep(s, k), k) || (s.tokenLock != TokenFree && HelpfulStep(s, k) == ReleaseStep(s))
    ensures HelpfulStep(s, k).Local? ==> HelpfulStep(s, k).k == k
    ensures !HelpfulStep(s, k).Start?
  {}

  lemma ReleaseIsEnabled(s: System)
    requires Inv(s) && s.tokenLock != TokenFree
    ensures Enabled(ReleaseStep(s), s) && Do(ReleaseStep(s), s).tokenLock == TokenFree
    ensures !ReleaseStep(s).Local? && !ReleaseStep(s).Start?
  {}

  /** t is reached from s by the labels in order. */
  ghost predicate Leads(s: System, labels: seq<Label>, t: System)
    decreases |labels|
  {
    if labels == [] then s == t
    else Enabled(labels[0], s) && Leads(Do(labels[0], s), labels[1..], t)
  }

  /** No stream is started along the way, and no other solve than that of stream k returns. */
  predicate OnlyOwnSolveReturns(labels: seq<Label>, k: nat) {
    forall i :: 0 <= i < |labels| ==> !labels[i].Start? && (ReturnsSolve(labels[i]) ==> labels[i].k == k)
  }

  /** Every solve that returns along the way was stopped, and no stream is started. */
  ghost predicate OnlyStoppedSolvesReturn(s: System, labels: seq<Label>)
    decreases |labels|
  {
    labels == [] ||
    (&& Enabled(labels[0], s)
     && !labels[0].Start?
     && (ReturnsSolve(labels[0]) ==> s.streams[labels[0].k].limitStopped)
     && OnlyStoppedSolvesReturn(Do(labels[0], s), labels[1..]))
  }

  function Remaining(s: System, k: nat): nat
    requires k < |s.streams|
  {
    2 * Measure(s.streams[k]) + (if s.tokenLock == TokenFree then 0 else 1)
  }

  /** From any state in which a handle is being dropped, with any number of streams, the drop can be completed in a
      bounded number of steps, without the consumer, new solutions or another solve's return; with one stream at a time,
      without the return of a solve that was not stopped. */
  lemma {:induction false} DropCompletes(s: System, k: nat) returns (labels: seq<Label>, t: System)
    requires Inv(s) && k < |s.streams| && BeingDropped(s.streams[k].finalizer)
    ensures Leads(s, labels, t) && OnlyOwnSolveReturns(labels, k)
    ensures Solo(s) ==> OnlyStoppedSolvesReturn(s, labels)
    ensures k < |t.streams| && t.streams[k].finalizer == Freed && t.streams[k].worker == Exited
    ensures |labels| <= Remaining(s, k) <= 2 * Measure(s.streams[k]) + 1
    decreases Remaining(s, k)
  {
    hide Do, Enabled, Inv, Solo, Measure, HelpfulStep, ReleaseStep, OwnStep;
    var l := HelpfulStep(s, k);
    var u;
    u := OneHelpfulStep(s, k);
    if u.streams[k].finalizer == Freed {
      labels, t := [l], u;
      assert labels[1..] == [];
    } else {
      var rest;
      rest, t := DropCompletes(u, k);
      labels := [l] + rest;
      assert labels[1..] == rest;
    }
  }

  lemma OneHelpfulStep(s: System, k: nat) returns (u: System)
    requires Inv(s) && k < |s.streams| && BeingDropped(s.streams[k].finalizer)
    ensures Enabled(HelpfulStep(s, k), s) && u == Do(HelpfulStep(s, k), s)
    ensures Inv(u) && k < |u.streams| && u.streams[k].finalizer != Live
    ensures Solo(s) ==> Solo(u)
    ensures u.streams[k].finalizer == Freed ==> u.streams[k].worker == Exited
    ensures Remaining(u, k) < Remaining(s, k)
    ensures var l := HelpfulStep(s, k);
            !l.Start? && (ReturnsSolve(l) ==> l.k == k && (Solo(s) ==> s.streams[k].limitStopped))
  {
    hide Do, Enabled, Inv, Solo, HelpfulStep, ReleaseStep, OwnStep, Measure;
    DropIsNeverBlocked(s, k);
    var l := HelpfulStep(s, k);
    u := Do(l, s);
    StepKeepsInv(l, s);
    if Solo(s) {
      SoloStep(l, s);
    }
    StaysDropped(l, s, k);
    HelpfulStepHelps(s, k);
  }

  lemma StaysDropped(l: Label, s: System, k: nat)
    requires Inv(s) && Enabled(l, s) && k < |s.streams| && s.streams[k].finalizer != Live
    ensures k < |Do(l, s).streams| && Do(l, s).streams[k].finalizer != Live
    ensures Do(l, s).streams[k].finalizer == Freed ==> Do(l, s).streams[k].worker == Exited
  {
    hide Do, Enabled;
    FinalizerStays(l, s, k);
    StepKeepsStream(l, s, k);
    FreedIsJoined(Do(l, s).streams[k]);
  }

  lemma FinalizerStays(l: Label, s: System, k: nat)
    requires Enabled(l, s) && k < |s.streams| && s.streams[k].finalizer != Live
    ensures k < |Do(l, s).streams| && Do(l, s).streams[k].finalizer != Live
  {}

  lemma FreedIsJoined(t: Stream)
    requires StreamOk(t)
    ensures t.finalizer == Freed ==> t.worker == Exited
  {}

  lemma HelpfulStepHelps(s: System, k: nat)
    requires Inv(s) && k < |s.streams| && BeingDropped(s.streams[k].finalizer)
    ensures Enabled(HelpfulStep(s, k), s) && k < |Do(HelpfulStep(s, k), s).streams|
    ensures Remaining(Do(HelpfulStep(s, k), s), k) < Remaining(s, k)
  {
    hide Do, Enabled, Inv, Solo, HelpfulStep, ReleaseStep, OwnStep, Measure;
    DropIsNeverBlocked(s, k);
    PartsOf(s);
    var l := HelpfulStep(s, k);
    MeasureStep(l, s, k);
    if !OwnStep(l, k) {
      ReleaseIsEnabled(s);
      assert !NewCallback(l, k);
    }
  }

  /** The finalizer waits for the worker without the token mutex, and no thread holds both mutexes. */
  lemma NoThreadHoldsBoth(states: seq<System>, labels: seq<Label>, i: nat, k: nat)
    requires IsRun(states, labels) && i < |states| && k < |states[i].streams|
    ensures states[i].streams[k].finalizer == Joining ==> states[i].tokenLock != FinalizerOf(k)
    ensures !(states[i].tokenLock == WorkerOf(k) && states[i].streams[k].stateLock == WorkerHolds)
  {
    RunKeepsInv(states, labels, i);
  }

  // ---------- Two streams on one token ----------

  lemma ExtendRun(states: seq<System>, labels: seq<Label>, l: Label) returns (states': seq<System>, labels': seq<Label>)
    requires IsRun(states, labels) && Enabled(l, states[|labels|])
    ensures IsRun(states', labels') && states'[|labels'|] == Do(l, states[|labels|])
  {
    hide Do, Enabled;
    states', labels' := states + [Do(l, states[|labels|])], labels + [l];
    forall i | 0 <= i < |labels'|
      ensures IsStep(states'[i], labels'[i], states'[i + 1])
    {
      if i < |labels| {
        assert IsStep(states[i], labels[i], states[i + 1]);
      }
    }
  }

  lemma StartRun(states: seq<System>, labels: seq<Label>)
    requires states == [INITIAL] && labels == []
    ensures IsRun(states, labels)
  {}

  /** The run that starts two streams on one token and lets both register. */
  lemma BothRegister() returns (states: seq<System>, labels: seq<Label>)
    ensures IsRun(states, labels)
    ensures var s := states[|labels|];
            && s.tokenLock == TokenFree && s.active == Some(1) && !s.stopped && |s.streams| == 2
            && s.streams[0] == NEW_STREAM.(worker := Solving) && s.streams[1] == NEW_STREAM.(worker := Solving)
  {
    states, labels := [INITIAL], [];
    StartRun(states, labels);
    states, labels := ExtendRun(states, labels, Start);
    states, labels := ExtendRun(states, labels, Start);
    states, labels := RegisterNext(states, labels, 0);
    states, labels := RegisterNext(states, labels, 1);
  }

  lemma RegisterNext(states: seq<System>, labels: seq<Label>, k: nat)
      returns (states': seq<System>, labels': seq<Label>)
    requires IsRun(states, labels) && k < |states[|labels|].streams|
    requires states[|labels|].tokenLock == TokenFree && !states[|labels|].stopped
    requires states[|labels|].streams[k] == NEW_STREAM
    ensures IsRun(states', labels')
    ensures states'[|labels'|] == states[|labels|].(active := Some(k),
              streams := states[|labels|].streams[k := NEW_STREAM.(worker := Solving)])
  {
    var s := states[|labels|];
    states', labels' := ExtendRun(states, labels, LockRegister(k));
    states', labels' := ExtendRun(states', labels', DoRegister(k));
    assert states'[|labels'|].streams == s.streams[k := NEW_STREAM.(worker := Solving)];
  }

  /** One stream at a time is needed: with two, dropping the first handle stops the second solve and leaves the
      first one running unstopped, with the finalizer waiting for it. */
  lemma DropStopsTheWrongSolve() returns (states: seq<System>, labels: seq<Label>)
    ensures IsRun(states, labels)
    ensures var s := states[|labels|];
            && |s.streams| == 2 && s.stopped
            && s.streams[0].finalizer == Joining && s.streams[0].worker == Solving && !s.streams[0].limitStopped
            && s.streams[1].finalizer == Live && s.streams[1].worker == Solving && s.streams[1].limitStopped
  {
    states, labels := BothRegister();
    states, labels := ExtendRun(states, labels, Local(0, Drop));
    states, labels := ExtendRun(states, labels, Local(0, LoadFinished));
    states, labels := ExtendRun(states, labels, LockDrop(0));
    states, labels := ExtendRun(states, labels, DoDrop(0));
  }
}
