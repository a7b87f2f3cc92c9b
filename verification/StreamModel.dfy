/**
 The streaming solve as a labelled transition system. Any number of streams share one stop token.
 Each stream has a worker thread, the solver threads that call its observer, one consumer that
 calls next, and a finalizer that runs when its handle is dropped; any thread may call stop.

 A step is one atomic action: taking a mutex, the body of a critical section together with its
 release, an unlocked read, a notification, or the end of a wait.
 */
module StreamModel {
  newtype byte = x: int | 0 <= x < 256

  datatype Option<T> = None | Some(value: T)

  datatype Update = Update(isDone: bool, bytes: seq<byte>)

  /** The worker thread, named by what it does next; the limit lives until it is Exited. */
  datatype Worker =
    | Spawned | Registering | Solving | Returned | Unregistering | Unregistered
    | PushingFinal | StoringFinished | Notifying | Exited

  /** The thread that calls next: Calling and Woken wait for the mutex, Checking holds it. */
  datatype Consumer = Idle | Calling | Checking | Waiting | Woken

  /** The handle: Live, or being dropped; Stopping holds the token mutex. */
  datatype Finalizer = Live | Dropped | WantsToken | Stopping | Joining | Joined | Freed

  datatype StateLock = StateFree | ObserverHolds | WorkerHolds | ConsumerHolds

  /** notifies counts pushes whose notification is still to come. pushed, returned and errors are
      histories: all updates ever queued, all updates next has returned, and how often it failed. */
  datatype Stream = Stream(
    worker: Worker, stateLock: StateLock, queue: seq<Update>, finished: bool, notifies: nat,
    limitStopped: bool, consumer: Consumer, finalizer: Finalizer,
    pushed: seq<Update>, returned: seq<Update>, errors: nat)

  datatype TokenLock = TokenFree | WorkerOf(k: nat) | FinalizerOf(k: nat) | StopperHolds

  /** refs is the token's reference count, of which clientRefs belong to the calling program;
      stopCalls are the calls of stop in progress. */
  datatype System = System(
    refs: nat, clientRefs: nat, stopCalls: nat,
    stopped: bool, active: Option<nat>, tokenLock: TokenLock, streams: seq<Stream>)

  datatype NextResult = Got(update: Update) | AlreadyFinished | MustWait

  /** What next does once it holds the mutex. */
  function CheckResult(queue: seq<Update>, finished: bool): NextResult {
    if queue != [] then Got(queue[0]) else if finished then AlreadyFinished else MustWait
  }

  /** Steps that concern one stream and not the token. */
  datatype LocalLabel =
    | LockObserve | PushObserved(bytes: seq<byte>) | NotifyObserved | SolveReturns
    | LockFinal | PushFinal(bytes: seq<byte>) | StoreFinished | NotifyFinal
    | CallNext | LockNext | CheckNext | SpuriousWake
    | Drop | LoadFinished | Join

  datatype Label =
    | Local(k: nat, l: LocalLabel)
    | Start | RetainToken | ReleaseToken
    | CallStop | LockStop | DoStop
    | LockRegister(k: nat) | DoRegister(k: nat)
    | LockUnregister(k: nat) | DoUnregister(k: nat)
    | LockDrop(k: nat) | DoDrop(k: nat) | FreeHandle(k: nat)

  /** notify_one wakes the consumer if it waits and is lost otherwise. */
  function Wake(c: Consumer): Consumer {
    if c == Waiting then Woken else c
  }

  predicate LocalEnabled(l: LocalLabel, t: Stream) {
    match l
    case LockObserve => t.worker == Solving && t.stateLock == StateFree
    case PushObserved(_) => t.stateLock == ObserverHolds
    case NotifyObserved => t.notifies > 0
    case SolveReturns => t.worker == Solving && t.stateLock != ObserverHolds && t.notifies == 0
    case LockFinal => t.worker == Unregistered && t.stateLock == StateFree
    case PushFinal(_) => t.worker == PushingFinal
    case StoreFinished => t.worker == StoringFinished
    case NotifyFinal => t.worker == Notifying
    case CallNext => t.consumer == Idle && t.finalizer == Live
    case LockNext => (t.consumer == Calling || t.consumer == Woken) && t.stateLock == StateFree
    case CheckNext => t.consumer == Checking
    case SpuriousWake => t.consumer == Waiting
    case Drop => t.finalizer == Live && t.consumer == Idle
    case LoadFinished => t.finalizer == Dropped
    case Join => t.finalizer == Joining && t.worker == Exited
  }

  function LocalDo(l: LocalLabel, t: Stream): Stream
    requires LocalEnabled(l, t)
  {
    match l
    case LockObserve => t.(stateLock := ObserverHolds)
    case PushObserved(b) =>
      t.(queue := t.queue + [Update(false, b)], pushed := t.pushed + [Update(false, b)],
         stateLock := StateFree, notifies := t.notifies + 1)
    case NotifyObserved => t.(notifies := t.notifies - 1, consumer := Wake(t.consumer))
    case SolveReturns => t.(worker := Returned)
    case LockFinal => t.(worker := PushingFinal, stateLock := WorkerHolds)
    case PushFinal(b) =>
      t.(queue := t.queue + [Update(true, b)], pushed := t.pushed + [Update(true, b)], worker := StoringFinished)
    case StoreFinished => t.(finished := true, worker := Notifying, stateLock := StateFree)
    case NotifyFinal => t.(worker := Exited, consumer := Wake(t.consumer))
    case CallNext => t.(consumer := Calling)
    case LockNext => t.(consumer := Checking, stateLock := ConsumerHolds)
    case CheckNext => AfterCheck(t)
    case SpuriousWake => t.(consumer := Woken)
    case Drop => t.(finalizer := Dropped)
    case LoadFinished => t.(finalizer := if t.finished then Joining else WantsToken)
    case Join => t.(finalizer := Joined)
  }

  function AfterCheck(t: Stream): Stream {
    match CheckResult(t.queue, t.finished)
    case Got(u) => t.(queue := t.queue[1..], returned := t.returned + [u], consumer := Idle, stateLock := StateFree)
    case AlreadyFinished => t.(errors := t.errors + 1, consumer := Idle, stateLock := StateFree)
    case MustWait => t.(consumer := Waiting, stateLock := StateFree)
  }

  const NEW_STREAM := Stream(Spawned, StateFree, [], false, 0, false, Idle, Live, [], [], 0)

  const INITIAL := System(1, 1, 0, false, None, TokenFree, [])

  predicate Enabled(l: Label, s: System) {
    match l
    case Local(k, m) => k < |s.streams| && LocalEnabled(m, s.streams[k])
    case Start => s.clientRefs > 0
    case RetainToken => s.clientRefs > 0
    case ReleaseToken => s.refs > 0 && s.clientRefs > (if s.stopCalls > 0 then 1 else 0)
    case CallStop => s.clientRefs > 0
    case LockStop => s.stopCalls > 0 && s.tokenLock == TokenFree
    case DoStop => s.tokenLock == StopperHolds && s.stopCalls > 0
    case LockRegister(k) => k < |s.streams| && s.streams[k].worker == Spawned && s.tokenLock == TokenFree
    case DoRegister(k) => k < |s.streams| && s.streams[k].worker == Registering
    case LockUnregister(k) => k < |s.streams| && s.streams[k].worker == Returned && s.tokenLock == TokenFree
    case DoUnregister(k) => k < |s.streams| && s.streams[k].worker == Unregistering
    case LockDrop(k) => k < |s.streams| && s.streams[k].finalizer == WantsToken && s.tokenLock == TokenFree
    case DoDrop(k) => k < |s.streams| && s.streams[k].finalizer == Stopping
    case FreeHandle(k) => k < |s.streams| && s.streams[k].finalizer == Joined && s.refs > 0
  }

  function Do(l: Label, s: System): System
    requires Enabled(l, s)
  {
    match l
    case Local(k, m) => s.(streams := s.streams[k := LocalDo(m, s.streams[k])])
    case Start => s.(refs := s.refs + 1, streams := s.streams + [NEW_STREAM])
    case RetainToken => s.(refs := s.refs + 1, clientRefs := s.clientRefs + 1)
    case ReleaseToken => s.(refs := s.refs - 1, clientRefs := s.clientRefs - 1)
    case CallStop => s.(stopCalls := s.stopCalls + 1)
    case LockStop => s.(tokenLock := StopperHolds)
    case DoStop => Stop(s).(tokenLock := TokenFree, stopCalls := s.stopCalls - 1)
    case LockRegister(k) =>
      s.(tokenLock := WorkerOf(k), streams := s.streams[k := s.streams[k].(worker := Registering)])
    case DoRegister(k) =>
      s.(tokenLock := TokenFree, active := Some(k),
         streams := s.streams[k := s.streams[k].(worker := Solving,
           limitStopped := s.streams[k].limitStopped || s.stopped)])
    case LockUnregister(k) =>
      s.(tokenLock := WorkerOf(k), streams := s.streams[k := s.streams[k].(worker := Unregistering)])
    case DoUnregister(k) =>
      s.(tokenLock := TokenFree, active := None, streams := s.streams[k := s.streams[k].(worker := Unregistered)])
    case LockDrop(k) => s.(tokenLock := FinalizerOf(k), streams := s.streams[k := s.streams[k].(finalizer := Stopping)])
    case DoDrop(k) =>
      var t := Stop(s);
      t.(tokenLock := TokenFree, streams := t.streams[k := t.streams[k].(finalizer := Joining)])
    case FreeHandle(k) => s.(refs := s.refs - 1, streams := s.streams[k := s.streams[k].(finalizer := Freed)])
  }

  /** The body that stop and the finalizer share. */
  function Stop(s: System): (t: System)
    ensures |t.streams| == |s.streams|
  {
    if s.active.Some? && s.active.value < |s.streams|
    then s.(stopped := true, streams := s.streams[s.active.value := s.streams[s.active.value].(limitStopped := true)])
    else s.(stopped := true)
  }

  /** A finite execution: states[i + 1] follows from states[i] by labels[i]. */
  ghost predicate IsRun(states: seq<System>, labels: seq<Label>) {
    && |states| == |labels| + 1
    && states[0] == INITIAL
    && forall i :: 0 <= i < |labels| ==> IsStep(states[i], labels[i], states[i + 1])
  }

  ghost predicate IsStep(s: System, l: Label, t: System) {
    Enabled(l, s) && t == Do(l, s)
  }
}
