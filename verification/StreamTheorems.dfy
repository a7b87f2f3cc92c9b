/** What the streaming protocol promises over whole runs. */
module StreamTheorems {
  import opened StreamModel
  import opened StreamInvariant

  // ---------- The pointer to the active limit ----------

  /** Whenever stop or a finalizer is about to follow the pointer, it leads to the limit of a stream that has
      registered, has not unregistered, and so has not left its worker function. */
  lemma StopHitsLiveLimit(states: seq<System>, labels: seq<Label>, i: nat)
    requires IsRun(states, labels) && i < |states|
    requires states[i].active.Some?
    ensures states[i].active.value < |states[i].streams|
    ensures Registered(states[i].streams[states[i].active.value].worker)
  {
    RunKeepsInv(states, labels, i);
  }

  /** A stop is not lost: whether it came before or after registration, the active limit is stopped. */
  lemma ActiveLimitIsStopped(states: seq<System>, labels: seq<Label>, i: nat)
    requires IsRun(states, labels) && i < |states|
    requires states[i].stopped && states[i].active.Some?
    ensures states[i].active.value < |states[i].streams|
    ensures states[i].streams[states[i].active.value].limitStopped
  {
    RunKeepsInv(states, labels, i);
  }

  function WorkerRank(w: Worker): nat {
    match w
    case Spawned => 9
    case Registering => 8
    case Solving => 7
    case Returned => 6
    case Unregistering => 5
    case Unregistered => 4
    case PushingFinal => 3
    case StoringFinished => 2
    case Notifying => 1
    case Exited => 0
  }

  lemma WorkerAdvances(l: Label, s: System, k: nat)
    requires Enabled(l, s) && k < |s.streams|
    ensures k < |Do(l, s).streams|
    ensures WorkerRank(Do(l, s).streams[k].worker) <= WorkerRank(s.streams[k].worker)
  {
    if l.Local? {
      hide WorkerRank;
      LocalWorkerAdvances(l.l, s.streams[l.k]);
    }
  }

  lemma LocalWorkerAdvances(l: LocalLabel, t: Stream)
    requires LocalEnabled(l, t)
    ensures WorkerRank(LocalDo(l, t).worker) <= WorkerRank(t.worker)
  {}

  /** Registering or unregistering another stream than k. */
  predicate Interferes(l: Label, k: nat) {
    (l.DoRegister? || l.DoUnregister?) && l.k != k
  }

  /** After stream k has registered and while it is registered, the pointer leads to it exactly as long as
      no other stream registers or unregisters. */
  lemma {:induction false} ActiveUntilInterference(states: seq<System>, labels: seq<Label>, k: nat, i: nat, j: nat)
    requires IsRun(states, labels) && i < j < |states|
    requires labels[i] == DoRegister(k)
    requires k < |states[j].streams| && Registered(states[j].streams[k].worker)
    ensures states[j].active == Some(k) <==> forall m :: i < m < j ==> !Interferes(labels[m], k)
    decreases j
  {
    hide Do, Enabled;
    assert IsStep(states[j - 1], labels[j - 1], states[j - 1 + 1]);
    if j == i + 1 {
      RegisterSetsActive(states[i], k);
    } else {
      RegisteredSince(states, labels, k, i, j - 1);
      assert IsStep(states[j - 1], labels[j - 1], states[j]);
      StaysRegistered(labels[j - 1], states[j - 1], k);
      ActiveUntilInterference(states, labels, k, i, j - 1);
      ActiveStep(labels[j - 1], states[j - 1], k);
    }
  }

  lemma RegisterSetsActive(s: System, k: nat)
    requires Enabled(DoRegister(k), s)
    ensures Do(DoRegister(k), s).active == Some(k)
    ensures k < |Do(DoRegister(k), s).streams| && Do(DoRegister(k), s).streams[k].worker == Solving
  {}

  lemma StaysRegistered(l: Label, s: System, k: nat)
    requires Enabled(l, s) && k < |s.streams| && WorkerRank(s.streams[k].worker) <= 7
    requires k < |Do(l, s).streams| && Registered(Do(l, s).streams[k].worker)
    ensures Registered(s.streams[k].worker)
  {
    WorkerAdvances(l, s, k);
  }

  lemma ActiveStep(l: Label, s: System, k: nat)
    requires Enabled(l, s) && k < |s.streams| && Registered(s.streams[k].worker)
    requires Registered(Do(l, s).streams[k].worker)
    ensures Do(l, s).active == Some(k) <==> s.active == Some(k) && !Interferes(l, k)
  {}

  lemma {:induction false} RegisteredSince(states: seq<System>, labels: seq<Label>, k: nat, i: nat, j: nat)
    requires IsRun(states, labels) && i < j < |states|
    requires labels[i] == DoRegister(k)
    ensures k < |states[j].streams| && WorkerRank(states[j].streams[k].worker) <= 7
    decreases j
  {
    hide Do, Enabled, WorkerRank;
    assert IsStep(states[j - 1], labels[j - 1], states[j - 1 + 1]);
    if j == i + 1 {
      RegisterSetsActive(states[i], k);
      assert WorkerRank(Solving) <= 7 by { SolvingRank(); }
    } else {
      RegisteredSince(states, labels, k, i, j - 1);
      WorkerAdvances(labels[j - 1], states[j - 1], k);
    }
  }

  lemma SolvingRank()
    ensures WorkerRank(Solving) == 7
  {}

  /** Exactly which streams a stop, or the drop of a handle, reaches: a registered stream whose limit was not stopped
      before is stopped if and only if no other stream of the token has registered or unregistered since it did. */
  lemma StopReachesExactly(states: seq<System>, labels: seq<Label>, k: nat, i: nat, j: nat)
    requires IsRun(states, labels) && i < j < |labels|
    requires labels[i] == DoRegister(k) && (labels[j] == DoStop || labels[j].DoDrop?)
    requires k < |states[j].streams| && Registered(states[j].streams[k].worker) && !states[j].streams[k].limitStopped
    ensures k < |states[j + 1].streams|
    ensures states[j + 1].streams[k].limitStopped <==> forall m :: i < m < j ==> !Interferes(labels[m], k)
  {
    ActiveUntilInterference(states, labels, k, i, j);
    assert IsStep(states[j], labels[j], states[j + 1]);
  }

  // ---------- One stream at a time ----------

  /** The worker has not unregistered its limit yet. */
  predicate Busy(w: Worker) {
    WorkerRank(w) >= 5
  }

  /** At most one worker is busy, and the pointer leads to its limit once it has registered. */
  ghost predicate Solo(s: System) {
    && (forall j, k :: 0 <= j < |s.streams| && 0 <= k < |s.streams| ==>
          Busy(s.streams[j].worker) && Busy(s.streams[k].worker) ==> j == k)
    && (forall k :: 0 <= k < |s.streams| && Registered(s.streams[k].worker) ==> s.active == Some(k))
  }

  /** A stream is started only when no worker is busy. */
  predicate SoloLabel(l: Label, s: System) {
    l.Start? ==> forall k :: 0 <= k < |s.streams| ==> !Busy(s.streams[k].worker)
  }

  ghost predicate IsSoloRun(states: seq<System>, labels: seq<Label>) {
    IsRun(states, labels) && forall i :: 0 <= i < |labels| ==> SoloLabel(labels[i], states[i])
  }

  lemma SoloStep(l: Label, s: System)
    requires Solo(s) && Enabled(l, s) && SoloLabel(l, s)
    ensures Solo(Do(l, s))
  {
    var t := Do(l, s);
    forall k | 0 <= k < |s.streams|
      ensures k < |t.streams| && (Busy(t.streams[k].worker) ==> Busy(s.streams[k].worker))
      ensures Registered(t.streams[k].worker) ==> t.active == Some(k)
    {
      WorkerAdvances(l, s, k);
      SoloActive(l, s, k);
    }
  }

  lemma SoloActive(l: Label, s: System, k: nat)
    requires Solo(s) && Enabled(l, s) && k < |s.streams|
    ensures k < |Do(l, s).streams|
    ensures Registered(Do(l, s).streams[k].worker) ==> Do(l, s).active == Some(k)
  {}

  lemma {:induction false} SoloRun(states: seq<System>, labels: seq<Label>, i: nat)
    requires IsSoloRun(states, labels) && i < |states|
    ensures Solo(states[i])
  {
    if i > 0 {
      hide Do, Enabled, SoloLabel, Busy, Registered;
      SoloRun(states, labels, i - 1);
      assert IsStep(states[i - 1], labels[i - 1], states[i - 1 + 1]);
      SoloStep(labels[i - 1], states[i - 1]);
    }
  }

  /** With one stream at a time, once a stop has been requested every registered limit is stopped. */
  lemma StoppedSolvesStop(states: seq<System>, labels: seq<Label>, i: nat, k: nat)
    requires IsSoloRun(states, labels) && i < |states| && states[i].stopped
    requires k < |states[i].streams| && Registered(states[i].streams[k].worker)
    ensures states[i].streams[k].limitStopped
  {
    SoloRun(states, labels, i);
    RunKeepsInv(states, labels, i);
  }

  // ---------- What next returns ----------

  /** No loss, no duplication, no reordering: what next has returned is what was pushed, up to what is queued. */
  lemma ReturnedThenQueued(states: seq<System>, labels: seq<Label>, i: nat, k: nat)
    requires IsRun(states, labels) && i < |states| && k < |states[i].streams|
    ensures states[i].streams[k].pushed == states[i].streams[k].returned + states[i].streams[k].queue
  {
    RunKeepsInv(states, labels, i);
  }

  /** Both histories only grow. */
  lemma {:induction false} HistoriesGrow(states: seq<System>, labels: seq<Label>, i: nat, j: nat, k: nat)
    requires IsRun(states, labels) && i <= j < |states| && k < |states[i].streams|
    ensures k < |states[j].streams|
    ensures states[i].streams[k].pushed <= states[j].streams[k].pushed
    ensures states[i].streams[k].returned <= states[j].streams[k].returned
    decreases j
  {
    hide Do, Enabled;
    if i < j {
      HistoriesGrow(states, labels, i, j - 1, k);
      assert IsStep(states[j - 1], labels[j - 1], states[j - 1 + 1]);
      HistoryStep(labels[j - 1], states[j - 1], k);
    }
  }

  lemma HistoryStep(l: Label, s: System, k: nat)
    requires Enabled(l, s) && k < |s.streams|
    ensures k < |Do(l, s).streams|
    ensures s.streams[k].pushed <= Do(l, s).streams[k].pushed
    ensures s.streams[k].returned <= Do(l, s).streams[k].returned
  {
    hide LocalDo, LocalEnabled;
    if l.Local? {
      LocalHistoryStep(l.l, s.streams[l.k]);
    }
  }

  lemma LocalHistoryStep(l: LocalLabel, t: Stream)
    requires LocalEnabled(l, t)
    ensures t.pushed <= LocalDo(l, t).pushed && t.returned <= LocalDo(l, t).returned
  {}

  ghost predicate FinalReturned(t: Stream) {
    exists i :: 0 <= i < |t.returned| && t.returned[i].isDone
  }

  /** A final update that next has returned is the last of all: nothing was pushed after it. */
  lemma FinalIsTheLast(states: seq<System>, labels: seq<Label>, i: nat, k: nat, d: nat)
    requires IsRun(states, labels) && i < |states| && k < |states[i].streams|
    requires d < |states[i].streams[k].returned| && states[i].streams[k].returned[d].isDone
    ensures d == |states[i].streams[k].returned| - 1
    ensures states[i].streams[k].returned == states[i].streams[k].pushed
  {
    RunKeepsInv(states, labels, i);
    var t := states[i].streams[k];
    assert t.pushed[d] == t.returned[d];
  }

  /** next fails exactly when the final update has been returned before, and then nothing was missed. */
  lemma NextFailsExactly(states: seq<System>, labels: seq<Label>, i: nat, k: nat)
    requires IsRun(states, labels) && i < |states| && k < |states[i].streams|
    requires states[i].streams[k].consumer == Checking
    ensures CheckResult(states[i].streams[k].queue, states[i].streams[k].finished).AlreadyFinished? <==>
              FinalReturned(states[i].streams[k])
    ensures FinalReturned(states[i].streams[k]) ==> states[i].streams[k].returned == states[i].streams[k].pushed
  {
    RunKeepsInv(states, labels, i);
    var t := states[i].streams[k];
    if FinalReturned(t) {
      var d :| 0 <= d < |t.returned| && t.returned[d].isDone;
      assert t.pushed[d] == t.returned[d];
    }
    if t.queue == [] && t.finished {
      assert t.returned == t.pushed;
      assert t.returned[|t.returned| - 1].isDone;
    }
  }

  /** A sleeping consumer that has something to see is about to be notified; none sleeps on after the worker is gone. */
  lemma WakeUpIsPending(states: seq<System>, labels: seq<Label>, i: nat, k: nat)
    requires IsRun(states, labels) && i < |states| && k < |states[i].streams|
    requires states[i].streams[k].consumer == Waiting
    ensures states[i].streams[k].queue != [] || states[i].streams[k].finished ==>
              states[i].streams[k].notifies > 0 || states[i].streams[k].worker in {StoringFinished, Notifying}
    ensures states[i].streams[k].worker != Exited
  {
    RunKeepsInv(states, labels, i);
  }

  // ---------- The life of the token ----------

  /** Steps that read or write the token, or give up a reference to it. */
  predicate TouchesToken(l: Label) {
    !l.Local? && !l.Start? && !l.RetainToken? && !l.CallStop?
  }

  /** No step touches the token after its last reference is gone, and while a worker runs there is a reference. */
  lemma TokenOutlivesItsUsers(states: seq<System>, labels: seq<Label>, i: nat, l: Label)
    requires IsRun(states, labels) && i < |states|
    ensures TouchesToken(l) && Enabled(l, states[i]) ==> states[i].refs > 0
    ensures forall k :: 0 <= k < |states[i].streams| && states[i].streams[k].worker != Exited ==> states[i].refs > 0
  {
    RunKeepsInv(states, labels, i);
    forall k | 0 <= k < |states[i].streams| && states[i].streams[k].finalizer != Freed
      ensures states[i].refs > 0
    {
      UnfreedUpdate(states[i].streams, k, states[i].streams[k].(finalizer := Freed));
    }
  }
}
