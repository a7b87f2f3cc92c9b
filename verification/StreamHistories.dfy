/** What the labels of a run, taken alone, say about its states: updates, stops and drops. */
module StreamHistories {
  import opened StreamModel
  import opened StreamInvariant
  import opened StreamTheorems
  import opened StreamShutdown

  // ---------- The updates ----------

  /** The updates that the solver hands over to stream k: one for each observer call, and the final one. */
  function Observed(labels: seq<Label>, k: nat): seq<Update> {
    if labels == [] then []
    else Observed(labels[..|labels| - 1], k) + ObservedBy(labels[|labels| - 1], k)
  }

  function ObservedBy(l: Label, k: nat): seq<Update> {
    match l
    case Local(j, PushObserved(bytes)) => if j == k then [Update(false, bytes)] else []
    case Local(j, PushFinal(bytes)) => if j == k then [Update(true, bytes)] else []
    case _ => []
  }

  function PushedTo(s: System, k: nat): seq<Update> {
    if k < |s.streams| then s.streams[k].pushed else []
  }

  lemma PushStep(l: Label, s: System, k: nat)
    requires Enabled(l, s)
    ensures PushedTo(Do(l, s), k) == PushedTo(s, k) + ObservedBy(l, k)
  {
    if l.Local? {
      hide LocalDo, LocalEnabled;
      LocalPushStep(l.l, s.streams[l.k], l.k);
      assert k != l.k ==> ObservedBy(l, k) == [];
    }
  }

  lemma LocalPushStep(l: LocalLabel, t: Stream, k: nat)
    requires LocalEnabled(l, t)
    ensures LocalDo(l, t).pushed == t.pushed + ObservedBy(Local(k, l), k)
  {}

  lemma {:induction false} PushedIsObserved(states: seq<System>, labels: seq<Label>, i: nat, k: nat)
    requires IsRun(states, labels) && i < |states|
    ensures PushedTo(states[i], k) == Observed(labels[..i], k)
  {
    hide Do, Enabled, ObservedBy;
    if i > 0 {
      PushedIsObserved(states, labels, i - 1, k);
      assert IsStep(states[i - 1], labels[i - 1], states[i - 1 + 1]);
      PushStep(labels[i - 1], states[i - 1], k);
      assert labels[..i][..i - 1] == labels[..i - 1];
    }
  }

  /** The updates that the calls of next on stream k have returned. */
  function Delivered(states: seq<System>, labels: seq<Label>, k: nat): seq<Update>
    requires |states| == |labels|
  {
    if labels == [] then []
    else
      var i := |labels| - 1;
      Delivered(states[..i], labels[..i], k) + DeliveredBy(states[i], labels[i], k)
  }

  function DeliveredBy(s: System, l: Label, k: nat): seq<Update> {
    if l == Local(k, CheckNext) && k < |s.streams| && s.streams[k].queue != [] then [s.streams[k].queue[0]] else []
  }

  function ReturnedFrom(s: System, k: nat): seq<Update> {
    if k < |s.streams| then s.streams[k].returned else []
  }

  lemma DeliverStep(l: Label, s: System, k: nat)
    requires Enabled(l, s)
    ensures ReturnedFrom(Do(l, s), k) == ReturnedFrom(s, k) + DeliveredBy(s, l, k)
  {
    if l.Local? {
      hide LocalDo, LocalEnabled;
      LocalDeliverStep(l.l, s.streams[l.k]);
    }
  }

  lemma LocalDeliverStep(l: LocalLabel, t: Stream)
    requires LocalEnabled(l, t)
    ensures LocalDo(l, t).returned == t.returned + if l == CheckNext && t.queue != [] then [t.queue[0]] else []
  {}

  lemma {:induction false} ReturnedIsDelivered(states: seq<System>, labels: seq<Label>, i: nat, k: nat)
    requires IsRun(states, labels) && i < |states|
    ensures ReturnedFrom(states[i], k) == Delivered(states[..i], labels[..i], k)
  {
    hide Do, Enabled, DeliveredBy;
    if i > 0 {
      ReturnedIsDelivered(states, labels, i - 1, k);
      assert IsStep(states[i - 1], labels[i - 1], states[i - 1 + 1]);
      DeliverStep(labels[i - 1], states[i - 1], k);
      assert labels[..i][..i - 1] == labels[..i - 1] && states[..i][..i - 1] == states[..i - 1];
    }
  }

  /** At every moment of every run, the calls of next have returned the updates that the solver handed over, each once,
      in order and unchanged, up to those that are still queued. */
  lemma DeliveredThenQueued(states: seq<System>, labels: seq<Label>, i: nat, k: nat)
    requires IsRun(states, labels) && i < |states| && k < |states[i].streams|
    ensures Observed(labels[..i], k) == Delivered(states[..i], labels[..i], k) + states[i].streams[k].queue
  {
    PushedIsObserved(states, labels, i, k);
    ReturnedIsDelivered(states, labels, i, k);
    ReturnedThenQueued(states, labels, i, k);
  }

  /** Once the stream is finished, the solver has handed over one final update, as the last of all. */
  lemma FinalIsObserved(states: seq<System>, labels: seq<Label>, i: nat, k: nat)
    requires IsRun(states, labels) && i < |states| && k < |states[i].streams|
    ensures var all := Observed(labels[..i], k);
      && (forall j :: 0 <= j < |all| - 1 ==> !all[j].isDone)
      && (states[i].streams[k].worker == Exited || states[i].streams[k].finished ==>
            all != [] && all[|all| - 1].isDone)
  {
    PushedIsObserved(states, labels, i, k);
    RunKeepsInv(states, labels, i);
    assert FifoOk(states[i].streams[k]);
  }

  // ---------- Stops ----------

  predicate IsStop(l: Label) {
    l == DoStop || l.DoDrop?
  }

  ghost predicate StopIn(labels: seq<Label>) {
    exists j :: 0 <= j < |labels| && IsStop(labels[j])
  }

  lemma StopInMore(labels: seq<Label>, l: Label)
    ensures StopIn(labels + [l]) <==> StopIn(labels) || IsStop(l)
  {
    var all := labels + [l];
    if StopIn(labels) {
      var j :| 0 <= j < |labels| && IsStop(labels[j]);
      assert IsStop(all[j]);
    }
    assert all[|labels|] == l;
  }

  lemma StopStep(l: Label, s: System)
    requires Enabled(l, s)
    ensures Do(l, s).stopped <==> s.stopped || IsStop(l)
  {}

  /** The token is stopped exactly when stop or a finalizer has asked for it. */
  lemma {:induction false} StoppedExactly(states: seq<System>, labels: seq<Label>, i: nat)
    requires IsRun(states, labels) && i < |states|
    ensures states[i].stopped <==> exists j :: 0 <= j < i && IsStop(labels[j])
  {
    hide Do, Enabled, IsStop;
    StoppedByLabels(states, labels, i);
    assert StopIn(labels[..i]) ==> exists j :: 0 <= j < i && IsStop(labels[j]);
    forall j | 0 <= j < i && IsStop(labels[j])
      ensures StopIn(labels[..i])
    {
      assert labels[..i][j] == labels[j];
    }
  }

  lemma {:induction false} StoppedByLabels(states: seq<System>, labels: seq<Label>, i: nat)
    requires IsRun(states, labels) && i < |states|
    ensures states[i].stopped <==> StopIn(labels[..i])
  {
    hide Do, Enabled, IsStop, StopIn;
    if i == 0 {
      assert !StopIn(labels[..0]) by { NoStopYet(labels[..0]); }
    } else {
      StoppedByLabels(states, labels, i - 1);
      assert IsStep(states[i - 1], labels[i - 1], states[i - 1 + 1]);
      StopStep(labels[i - 1], states[i - 1]);
      StopInMore(labels[..i - 1], labels[i - 1]);
      assert labels[..i] == labels[..i - 1] + [labels[i - 1]];
    }
  }

  lemma NoStopYet(labels: seq<Label>)
    requires labels == []
    ensures !StopIn(labels)
  {}

  // ---------- Which limits are stopped ----------

  /** The stream that has registered last on the token, unless any has unregistered since. */
  function LastRegistered(labels: seq<Label>): Option<nat> {
    if labels == [] then None
    else
      match labels[|labels| - 1]
      case DoRegister(k) => Some(k)
      case DoUnregister(_) => None
      case _ => LastRegistered(labels[..|labels| - 1])
  }

  /** The last of the labels stops stream k's limit: it registers after a stop, or a stop finds it registered. */
  ghost predicate StopsLimit(labels: seq<Label>, k: nat) {
    labels != [] &&
    var i := |labels| - 1;
    (labels[i] == DoRegister(k) && StopIn(labels[..i])) || (IsStop(labels[i]) && LastRegistered(labels[..i]) == Some(k))
  }

  lemma ActiveStepByLabel(l: Label, s: System)
    requires Enabled(l, s)
    ensures Do(l, s).active == (if l.DoRegister? then Some(l.k) else if l.DoUnregister? then None else s.active)
  {}

  lemma {:induction false} ActiveIsLastRegistered(states: seq<System>, labels: seq<Label>, i: nat)
    requires IsRun(states, labels) && i < |states|
    ensures states[i].active == LastRegistered(labels[..i])
  {
    hide Do, Enabled;
    if i > 0 {
      ActiveIsLastRegistered(states, labels, i - 1);
      assert IsStep(states[i - 1], labels[i - 1], states[i - 1 + 1]);
      ActiveStepByLabel(labels[i - 1], states[i - 1]);
      assert labels[..i][..i - 1] == labels[..i - 1];
    }
  }

  predicate LimitStopped(s: System, k: nat) {
    k < |s.streams| && s.streams[k].limitStopped
  }

  lemma LimitStep(l: Label, s: System, k: nat)
    requires Enabled(l, s) && (s.active.Some? ==> s.active.value < |s.streams|)
    ensures LimitStopped(Do(l, s), k) <==>
      LimitStopped(s, k) || (l == DoRegister(k) && s.stopped) || (IsStop(l) && s.active == Some(k))
  {
    if l.Local? {
      hide LocalDo, LocalEnabled;
      LocalLimitStep(l.l, s.streams[l.k]);
    }
  }

  lemma LocalLimitStep(l: LocalLabel, t: Stream)
    requires LocalEnabled(l, t)
    ensures LocalDo(l, t).limitStopped == t.limitStopped
  {}

  /** A stream's limit is stopped exactly when it registered after a stop, or a stop came while it was the stream that
      had registered last and none had unregistered since. */
  lemma {:induction false} LimitStoppedExactly(states: seq<System>, labels: seq<Label>, i: nat, k: nat)
    requires IsRun(states, labels) && i < |states|
    ensures LimitStopped(states[i], k) <==> exists j :: 0 < j <= i && StopsLimit(labels[..j], k)
  {
    hide Do, Enabled, IsStop, StopIn, LastRegistered, LimitStopped, Inv, StopsLimit;
    if i == 0 {
      assert !LimitStopped(states[0], k) by { NoLimitYet(states[0], k); }
    } else {
      LimitStoppedExactly(states, labels, i - 1, k);
      assert IsStep(states[i - 1], labels[i - 1], states[i - 1 + 1]);
      assert states[i - 1].active.Some? ==> states[i - 1].active.value < |states[i - 1].streams| by {
        RunKeepsInv(states, labels, i - 1);
        ActiveExists(states[i - 1]);
      }
      LimitStep(labels[i - 1], states[i - 1], k);
      StoppedByLabels(states, labels, i - 1);
      ActiveIsLastRegistered(states, labels, i - 1);
      StopsLimitNow(labels, i, k);
    }
  }

  lemma NoLimitYet(s: System, k: nat)
    requires s == INITIAL
    ensures !LimitStopped(s, k)
  {}

  lemma ActiveExists(s: System)
    requires Inv(s)
    ensures s.active.Some? ==> s.active.value < |s.streams|
  {}

  lemma StopsLimitNow(labels: seq<Label>, i: nat, k: nat)
    requires 0 < i <= |labels|
    ensures StopsLimit(labels[..i], k) <==>
      (labels[i - 1] == DoRegister(k) && StopIn(labels[..i - 1])) ||
      (IsStop(labels[i - 1]) && LastRegistered(labels[..i - 1]) == Some(k))
  {
    assert labels[..i][..i - 1] == labels[..i - 1];
  }

  /** No limit is stopped before somebody asks for a stop. */
  lemma LimitNeedsStop(states: seq<System>, labels: seq<Label>, i: nat, k: nat)
    requires IsRun(states, labels) && i < |states| && LimitStopped(states[i], k)
    ensures states[i].stopped
  {
    hide StopIn, LastRegistered;
    LimitStoppedExactly(states, labels, i, k);
    var j :| 0 < j <= i && StopsLimit(labels[..j], k);
    StopsLimitNow(labels, j, k);
    StoppedExactly(states, labels, i);
    if !IsStop(labels[j - 1]) {
      StoppedByLabels(states, labels, j - 1);
      StoppedExactly(states, labels, j - 1);
    }
  }

  // ---------- Drops ----------

  predicate PastToken(s: System, k: nat) {
    k < |s.streams| && FinalizerRank(s.streams[k].finalizer) <= 3
  }

  predicate AtToken(s: System, k: nat) {
    k < |s.streams| && (s.streams[k].finalizer == WantsToken || s.streams[k].finalizer == Stopping)
  }

  predicate FoundFinished(s: System, l: Label, k: nat) {
    l == Local(k, LoadFinished) && k < |s.streams| && s.streams[k].finished
  }

  predicate FoundUnfinished(s: System, l: Label, k: nat) {
    l == Local(k, LoadFinished) && k < |s.streams| && !s.streams[k].finished
  }

  lemma PastStep(l: Label, s: System, k: nat)
    requires Enabled(l, s)
    ensures PastToken(Do(l, s), k) <==> PastToken(s, k) || FoundFinished(s, l, k) || l == DoDrop(k)
    ensures AtToken(Do(l, s), k) <==> (AtToken(s, k) && l != DoDrop(k)) || FoundUnfinished(s, l, k)
    ensures l == LockDrop(k) || l == DoDrop(k) ==> AtToken(s, k)
    ensures l == FreeHandle(k) ==> PastToken(s, k)
  {
    if l.Local? {
      hide LocalDo, LocalEnabled, FinalizerRank;
      LocalPastStep(l.l, s.streams[l.k]);
    }
  }

  lemma LocalPastStep(l: LocalLabel, t: Stream)
    requires LocalEnabled(l, t)
    ensures var u := LocalDo(l, t);
      && (FinalizerRank(u.finalizer) <= 3 <==> FinalizerRank(t.finalizer) <= 3 || (l == LoadFinished && t.finished))
      && (u.finalizer == WantsToken || u.finalizer == Stopping <==>
          t.finalizer == WantsToken || t.finalizer == Stopping || (l == LoadFinished && !t.finished))
  {}

  lemma PastIsNotAt(s: System, k: nat)
    ensures !(PastToken(s, k) && AtToken(s, k))
  {}

  /** The finalizer of a stream that it finds finished never takes the token mutex and asks for no stop. */
  lemma {:induction false} StaysPastToken(states: seq<System>, labels: seq<Label>, i: nat, j: nat, k: nat)
    requires IsRun(states, labels) && i < j < |states| && FoundFinished(states[i], labels[i], k)
    ensures PastToken(states[j], k)
    decreases j
  {
    hide Do, Enabled, PastToken, FoundFinished, FoundUnfinished;
    assert IsStep(states[j - 1], labels[j - 1], states[j - 1 + 1]);
    PastStep(labels[j - 1], states[j - 1], k);
    if i < j - 1 {
      StaysPastToken(states, labels, i, j - 1, k);
    }
  }

  lemma BeforeToken(s: System, k: nat)
    requires Enabled(Local(k, LoadFinished), s)
    ensures !AtToken(s, k) && !PastToken(s, k)
  {}

  lemma FinishedDropLeavesToken(states: seq<System>, labels: seq<Label>, i: nat, j: nat, k: nat)
    requires IsRun(states, labels) && i <= j < |labels|
    requires labels[i] == Local(k, LoadFinished) && k < |states[i].streams| && states[i].streams[k].finished
    ensures labels[j] != LockDrop(k) && labels[j] != DoDrop(k)
  {
    hide Do, Enabled, PastToken, AtToken;
    if i < j {
      StaysPastToken(states, labels, i, j, k);
      assert IsStep(states[j], labels[j], states[j + 1]);
      PastStep(labels[j], states[j], k);
      PastIsNotAt(states[j], k);
    }
  }

  /** Whoever is at the token found the stream unfinished. */
  lemma {:induction false} AtTokenHasCause(states: seq<System>, labels: seq<Label>, i: nat, k: nat)
    requires IsRun(states, labels) && i < |states| && AtToken(states[i], k)
    ensures exists j :: 0 <= j < i && FoundUnfinished(states[j], labels[j], k)
  {
    hide Do, Enabled, AtToken, FoundUnfinished, PastToken, FoundFinished;
    if i == 0 {
      assert false by { NobodyAtToken(states[0], k); }
    } else {
      assert IsStep(states[i - 1], labels[i - 1], states[i - 1 + 1]);
      PastStep(labels[i - 1], states[i - 1], k);
      if !FoundUnfinished(states[i - 1], labels[i - 1], k) {
        AtTokenHasCause(states, labels, i - 1, k);
      }
    }
  }

  lemma NobodyAtToken(s: System, k: nat)
    requires s == INITIAL
    ensures !AtToken(s, k)
  {}

  /** A drop asks for a stop only after its finalizer has found the stream unfinished. */
  lemma DropHasCause(states: seq<System>, labels: seq<Label>, i: nat, k: nat)
    requires IsRun(states, labels) && i < |labels| && labels[i] == DoDrop(k)
    ensures exists j :: 0 <= j < i && labels[j] == Local(k, LoadFinished) &&
              k < |states[j].streams| && !states[j].streams[k].finished
  {
    hide Do, Enabled, AtToken;
    assert IsStep(states[i], labels[i], states[i + 1]);
    PastStep(labels[i], states[i], k);
    AtTokenHasCause(states, labels, i, k);
    var j :| 0 <= j < i && FoundUnfinished(states[j], labels[j], k);
  }

  lemma {:induction false} StaysAtToken(states: seq<System>, labels: seq<Label>, i: nat, j: nat, k: nat)
    requires IsRun(states, labels) && i < j < |states| && FoundUnfinished(states[i], labels[i], k)
    requires forall m :: i < m < j ==> labels[m] != DoDrop(k)
    ensures AtToken(states[j], k)
    decreases j
  {
    hide Do, Enabled, PastToken, AtToken, FoundFinished, FoundUnfinished;
    assert IsStep(states[j - 1], labels[j - 1], states[j - 1 + 1]);
    PastStep(labels[j - 1], states[j - 1], k);
    if i < j - 1 {
      StaysAtToken(states, labels, i, j - 1, k);
    }
  }

  /** A handle that is freed has asked for a stop exactly when its finalizer found the stream unfinished. */
  lemma DropStopsExactly(states: seq<System>, labels: seq<Label>, i: nat, j: nat, k: nat)
    requires IsRun(states, labels) && i < j < |labels|
    requires labels[i] == Local(k, LoadFinished) && k < |states[i].streams| && labels[j] == FreeHandle(k)
    ensures (exists m :: i < m < j && labels[m] == DoDrop(k)) <==> !states[i].streams[k].finished
  {
    hide Do, Enabled, PastToken, AtToken;
    assert IsStep(states[j], labels[j], states[j + 1]);
    PastStep(labels[j], states[j], k);
    if states[i].streams[k].finished {
      forall m | i < m < j
        ensures labels[m] != DoDrop(k)
      {
        FinishedDropLeavesToken(states, labels, i, m, k);
      }
    } else if forall m :: i < m < j ==> labels[m] != DoDrop(k) {
      StaysAtToken(states, labels, i, j, k);
      PastIsNotAt(states[j], k);
    }
  }

  // ---------- The mutexes and the life of the token ----------

  predicate HoldsToken(t: Stream) {
    t.worker == Registering || t.worker == Unregistering || t.finalizer == Stopping
  }

  /** At most one stream has a thread in a critical section of the token, and none while a call of stop is in one. */
  lemma TokenMutexExcludes(states: seq<System>, labels: seq<Label>, i: nat, j: nat, k: nat)
    requires IsRun(states, labels) && i < |states| && j < |states[i].streams| && k < |states[i].streams|
    requires HoldsToken(states[i].streams[j])
    ensures HoldsToken(states[i].streams[k]) ==> j == k
    ensures states[i].tokenLock != TokenFree && states[i].tokenLock != StopperHolds
    ensures var t := states[i].streams[j];
      !(t.finalizer == Stopping && (t.worker == Registering || t.worker == Unregistering))
  {
    RunKeepsInv(states, labels, i);
  }

  /** At most one of the observer, the worker and the consumer is in a critical section of a stream. */
  lemma StateMutexExcludes(states: seq<System>, labels: seq<Label>, i: nat, k: nat)
    requires IsRun(states, labels) && i < |states| && k < |states[i].streams|
    ensures var t := states[i].streams[k];
      var worker, consumer := t.worker == PushingFinal || t.worker == StoringFinished, t.consumer == Checking;
      && !(worker && consumer) && (t.stateLock == ObserverHolds ==> !worker && !consumer)
      && (t.stateLock == StateFree ==> !worker && !consumer)
  {
    RunKeepsInv(states, labels, i);
    assert LockOk(states[i].streams[k]);
  }

  lemma {:induction false} UnfreedIsZero(streams: seq<Stream>)
    ensures Unfreed(streams) == 0 <==> forall k :: 0 <= k < |streams| ==> streams[k].finalizer == Freed
  {
    if streams != [] {
      UnfreedIsZero(streams[..|streams| - 1]);
    }
  }

  /** The token is gone exactly when the calling program holds no reference and every handle is freed. */
  lemma TokenIsFreedExactly(states: seq<System>, labels: seq<Label>, i: nat)
    requires IsRun(states, labels) && i < |states|
    ensures states[i].refs == 0 <==>
      states[i].clientRefs == 0 &&
      forall k :: 0 <= k < |states[i].streams| ==> states[i].streams[k].finalizer == Freed
  {
    RunKeepsInv(states, labels, i);
    UnfreedIsZero(states[i].streams);
  }
}
