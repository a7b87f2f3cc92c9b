/** What holds in every reachable state of the streaming protocol. */
module StreamInvariant {
  import opened StreamModel

  /** The limit of this worker's model exists and is known to the token's users. */
  predicate Registered(w: Worker) {
    w == Solving || w == Returned || w == Unregistering
  }

  predicate HasPushedFinal(w: Worker) {
    w == StoringFinished || w == Notifying || w == Exited
  }

  /** Only the last update is final, and it is there exactly when final says so. */
  ghost predicate FinalIsLast(updates: seq<Update>, final: bool) {
    && (forall i :: 0 <= i < |updates| - 1 ==> !updates[i].isDone)
    && (if final then updates != [] && updates[|updates| - 1].isDone
        else updates == [] || !updates[|updates| - 1].isDone)
  }

  /** The state mutex is held by at most one thread, and each holder is where it should be. */
  ghost predicate LockOk(t: Stream) {
    && (t.stateLock == WorkerHolds <==> t.worker == PushingFinal || t.worker == StoringFinished)
    && (t.stateLock == ConsumerHolds <==> t.consumer == Checking)
    && (t.stateLock == ObserverHolds || t.notifies > 0 ==> t.worker == Solving)
  }

  /** What next has returned followed by what is queued is what was pushed. */
  ghost predicate FifoOk(t: Stream) {
    && t.pushed == t.returned + t.queue
    && FinalIsLast(t.pushed, HasPushedFinal(t.worker))
    && (t.finished <==> t.worker == Notifying || t.worker == Exited)
    && (t.worker == StoringFinished ==> t.queue != [])
    && (t.errors > 0 ==> t.finished && t.queue == [])
  }

  /** A consumer that sleeps although there is something to see has a notification on its way. */
  ghost predicate WakeUpOk(t: Stream) {
    t.consumer == Waiting && (t.queue != [] || t.finished) ==>
      t.notifies > 0 || t.worker == StoringFinished || t.worker == Notifying
  }

  /** A handle is dropped only between calls of next, and freed only after its worker is gone. */
  ghost predicate DropOk(t: Stream) {
    && (t.finalizer != Live ==> t.consumer == Idle)
    && (t.finalizer == Joined || t.finalizer == Freed ==> t.worker == Exited)
  }

  ghost predicate StreamOk(t: Stream) {
    LockOk(t) && FifoOk(t) && WakeUpOk(t) && DropOk(t)
  }

  lemma FinalAppended(updates: seq<Update>, u: Update)
    requires FinalIsLast(updates, false)
    ensures FinalIsLast(updates + [u], u.isDone)
  {}

  lemma LocalStepKeepsLocks(l: LocalLabel, t: Stream)
    requires LockOk(t) && LocalEnabled(l, t)
    ensures LockOk(LocalDo(l, t))
  {}

  lemma LocalStepKeepsFifo(l: LocalLabel, t: Stream)
    requires LockOk(t) && FifoOk(t) && LocalEnabled(l, t)
    ensures FifoOk(LocalDo(l, t))
  {
    var u := LocalDo(l, t);
    match l
    case PushObserved(b) => FinalAppended(t.pushed, Update(false, b));
    case PushFinal(b) => FinalAppended(t.pushed, Update(true, b));
    case _ =>
  }

  lemma LocalStepKeepsWakeUps(l: LocalLabel, t: Stream)
    requires LockOk(t) && FifoOk(t) && WakeUpOk(t) && LocalEnabled(l, t)
    ensures WakeUpOk(LocalDo(l, t))
  {}

  lemma LocalStepKeepsDrops(l: LocalLabel, t: Stream)
    requires LockOk(t) && DropOk(t) && LocalEnabled(l, t)
    ensures DropOk(LocalDo(l, t))
  {}

  lemma LocalStepKeepsStream(l: LocalLabel, t: Stream)
    requires StreamOk(t) && LocalEnabled(l, t)
    ensures StreamOk(LocalDo(l, t))
  {
    LocalStepKeepsLocks(l, t);
    LocalStepKeepsFifo(l, t);
    LocalStepKeepsWakeUps(l, t);
    LocalStepKeepsDrops(l, t);
  }

  function Unfreed(streams: seq<Stream>): nat {
    if streams == [] then 0
    else Unfreed(streams[..|streams| - 1]) + (if streams[|streams| - 1].finalizer == Freed then 0 else 1)
  }

  lemma {:induction false} UnfreedUpdate(streams: seq<Stream>, k: nat, t: Stream)
    requires k < |streams|
    ensures Unfreed(streams[k := t]) + (if streams[k].finalizer == Freed then 0 else 1)
         == Unfreed(streams) + (if t.finalizer == Freed then 0 else 1)
  {
    var n := |streams| - 1;
    var updated := streams[k := t];
    if k == n {
      assert updated[..n] == streams[..n];
    } else {
      assert updated[..n] == streams[..n][k := t];
      UnfreedUpdate(streams[..n], k, t);
    }
  }

  /** The token mutex is held by at most one thread, and each holder is where it should be. */
  ghost predicate TokenLockOk(s: System) {
    && (s.tokenLock.WorkerOf? || s.tokenLock.FinalizerOf? ==> s.tokenLock.k < |s.streams|)
    && (forall k :: 0 <= k < |s.streams| ==>
          (s.streams[k].worker == Registering || s.streams[k].worker == Unregistering <==> s.tokenLock == WorkerOf(k)))
    && (forall k :: 0 <= k < |s.streams| ==> (s.streams[k].finalizer == Stopping <==> s.tokenLock == FinalizerOf(k)))
    && (s.tokenLock == StopperHolds ==> s.stopCalls > 0)
  }

  /** The pointer to the active limit is null or points to a registered limit, and a stop that has
      been requested has reached it. */
  ghost predicate ActiveOk(s: System) {
    s.active.Some? ==>
      && s.active.value < |s.streams|
      && Registered(s.streams[s.active.value].worker)
      && (s.stopped ==> s.streams[s.active.value].limitStopped)
  }

  /** The calling program, each call of stop and each handle keep the token alive. */
  ghost predicate RefsOk(s: System) {
    s.refs == s.clientRefs + Unfreed(s.streams) && (s.stopCalls > 0 ==> s.clientRefs > 0)
  }

  /** A finalizer that waits for the worker has asked for a stop, unless the worker had finished. */
  ghost predicate JoinOk(s: System) {
    forall k :: 0 <= k < |s.streams| && s.streams[k].finalizer == Joining ==> s.stopped || s.streams[k].finished
  }

  ghost predicate Inv(s: System) {
    && (forall k :: 0 <= k < |s.streams| ==> StreamOk(s.streams[k]))
    && TokenLockOk(s) && ActiveOk(s) && RefsOk(s) && JoinOk(s)
  }

  lemma StepKeepsStream(l: Label, s: System, k: nat)
    requires Inv(s) && Enabled(l, s) && k < |Do(l, s).streams|
    ensures StreamOk(Do(l, s).streams[k])
  {
    if l.Local? {
      hide StreamOk;
      LocalStepKeepsStream(l.l, s.streams[l.k]);
    } else if k < |s.streams| {
      TokenStepMoves(l, s, k);
      MoveKeepsStream(s.streams[k], Do(l, s).streams[k]);
    }
  }

  /** What the steps on the token do to a stream: its queue, its mutex and its consumer stay as they are. */
  ghost predicate TokenMove(t: Stream, u: Stream) {
    && u == t.(worker := u.worker, limitStopped := u.limitStopped, finalizer := u.finalizer)
    && (u.worker != t.worker ==>
          && t.stateLock != ObserverHolds && t.notifies == 0
          && t.worker in {Spawned, Registering, Returned, Unregistering}
          && u.worker in {Registering, Solving, Unregistering, Unregistered})
    && (u.finalizer != t.finalizer ==>
          && t.finalizer != Live && u.finalizer != Live
          && (u.finalizer == Joined || u.finalizer == Freed ==> t.finalizer == Joined))
  }

  lemma TokenStepMoves(l: Label, s: System, k: nat)
    requires Enabled(l, s) && !l.Local? && k < |s.streams| && LockOk(s.streams[k])
    ensures TokenMove(s.streams[k], Do(l, s).streams[k])
  {}

  lemma MoveKeepsStream(t: Stream, u: Stream)
    requires StreamOk(t) && TokenMove(t, u)
    ensures StreamOk(u)
  {}

  lemma StepKeepsTokenLock(l: Label, s: System)
    requires TokenLockOk(s) && Enabled(l, s)
    ensures TokenLockOk(Do(l, s))
  {
    if l.Local? {
      LocalStepKeepsTokenLock(l, s);
    } else {
      TokenStepKeepsLock(l, s);
    }
  }

  lemma LocalStepKeepsTokenLock(l: Label, s: System)
    requires TokenLockOk(s) && Enabled(l, s) && l.Local?
    ensures TokenLockOk(Do(l, s))
  {
    hide LocalDo, LocalEnabled;
    LocalStepKeepsRoles(l.l, s.streams[l.k]);
    var t := Do(l, s);
    assert forall k :: 0 <= k < |s.streams| && k != l.k ==> t.streams[k] == s.streams[k];
  }

  /** Local steps neither take nor release the token mutex. */
  lemma LocalStepKeepsRoles(l: LocalLabel, t: Stream)
    requires LocalEnabled(l, t)
    ensures LocalDo(l, t).worker == Registering <==> t.worker == Registering
    ensures LocalDo(l, t).worker == Unregistering <==> t.worker == Unregistering
    ensures LocalDo(l, t).finalizer == Stopping <==> t.finalizer == Stopping
  {}

  lemma TokenStepKeepsLock(l: Label, s: System)
    requires TokenLockOk(s) && Enabled(l, s) && !l.Local?
    ensures TokenLockOk(Do(l, s))
  {}

  lemma StepKeepsActive(l: Label, s: System)
    requires ActiveOk(s) && TokenLockOk(s) && Enabled(l, s)
    requires forall k :: 0 <= k < |s.streams| ==> LockOk(s.streams[k])
    ensures ActiveOk(Do(l, s))
  {}

  lemma StepKeepsRefs(l: Label, s: System)
    requires RefsOk(s) && Enabled(l, s)
    ensures RefsOk(Do(l, s))
  {
    match l
    case Local(k, m) => UnfreedUpdate(s.streams, k, LocalDo(m, s.streams[k]));
    case Start => assert (s.streams + [NEW_STREAM])[..|s.streams|] == s.streams;
    case FreeHandle(k) => UnfreedUpdate(s.streams, k, Do(l, s).streams[k]);
    case RetainToken =>
    case ReleaseToken =>
    case CallStop =>
    case _ => TokenStepKeepsUnfreed(l, s);
  }

  /** The critical sections of the token mutex count no handle and free none. */
  lemma TokenStepKeepsUnfreed(l: Label, s: System)
    requires Enabled(l, s)
    requires !l.Local? && l !in {Start, RetainToken, ReleaseToken, CallStop} && !l.FreeHandle?
    ensures Unfreed(Do(l, s).streams) == Unfreed(s.streams)
  {
    var t := if l.DoStop? || l.DoDrop? then Stop(s) else s;
    StopKeepsUnfreed(s);
    if !l.LockStop? && !l.DoStop? {
      assert Do(l, s).streams == t.streams[l.k := Do(l, s).streams[l.k]];
      UnfreedUpdate(t.streams, l.k, Do(l, s).streams[l.k]);
    }
  }

  lemma StopKeepsUnfreed(s: System)
    ensures Unfreed(Stop(s).streams) == Unfreed(s.streams)
  {
    if s.active.Some? && s.active.value < |s.streams| {
      UnfreedUpdate(s.streams, s.active.value, Stop(s).streams[s.active.value]);
    }
  }

  lemma StepKeepsJoins(l: Label, s: System)
    requires JoinOk(s) && Enabled(l, s)
    requires forall k :: 0 <= k < |s.streams| ==> FifoOk(s.streams[k])
    ensures JoinOk(Do(l, s))
  {}

  lemma StepKeepsInv(l: Label, s: System)
    requires Inv(s) && Enabled(l, s)
    ensures Inv(Do(l, s))
  {
    hide Do, Enabled, StreamOk, TokenLockOk, ActiveOk, RefsOk, JoinOk;
    forall k | 0 <= k < |Do(l, s).streams|
      ensures StreamOk(Do(l, s).streams[k])
    {
      StepKeepsStream(l, s, k);
    }
    PartsOf(s);
    StepKeepsTokenLock(l, s);
    StepKeepsActive(l, s);
    StepKeepsRefs(l, s);
    StepKeepsJoins(l, s);
  }

  lemma PartsOf(s: System)
    requires Inv(s)
    ensures forall k :: 0 <= k < |s.streams| ==> LockOk(s.streams[k]) && FifoOk(s.streams[k])
  {}

  /** The invariant holds in every state of every run. */
  lemma {:induction false} RunKeepsInv(states: seq<System>, labels: seq<Label>, i: nat)
    requires IsRun(states, labels) && i < |states|
    ensures Inv(states[i])
  {
    hide Do, Enabled, StreamOk, TokenLockOk, ActiveOk, RefsOk, JoinOk;
    if i == 0 {
      InitialInv();
    } else {
      RunKeepsInv(states, labels, i - 1);
      assert IsStep(states[i - 1], labels[i - 1], states[i - 1 + 1]);
      StepKeepsInv(labels[i - 1], states[i - 1]);
    }
  }

  lemma InitialInv()
    ensures Inv(INITIAL)
  {}
}
