/**
 The objects that the threads of a streaming solve share, with the bodies of their critical sections.
 Each method is tied to the step of the transition system that stands for it.
 */
module StreamObjects {
  import opened StreamModel

  class TimeLimit {
    var stopped: bool

    constructor ()
      ensures !stopped
    {
      stopped := false;
    }

    method Stop()
      modifies this
      ensures stopped
    {
      stopped := true;
    }
  }

  class StopToken {
    var stopped: bool
    var activeStreamLimit: TimeLimit?

    constructor ()
      ensures Represents([], INITIAL) && !stopped && activeStreamLimit == null
    {
      stopped, activeStreamLimit := false, null;
    }

    /** The fields agree with a state of the system in which limits[k] belongs to stream k. */
    ghost predicate Represents(limits: seq<TimeLimit>, s: System)
      reads this, limits
    {
      && stopped == s.stopped
      && |s.streams| <= |limits|
      && (forall j, k :: 0 <= j < k < |limits| ==> limits[j] != limits[k])
      && (forall k :: 0 <= k < |s.streams| ==> limits[k].stopped == s.streams[k].limitStopped)
      && (match s.active
          case None => activeStreamLimit == null
          case Some(k) => k < |s.streams| && activeStreamLimit == limits[k])
    }

    /** The first critical section of the worker of stream k. */
    method Register(sharedTimeLimit: TimeLimit, ghost limits: seq<TimeLimit>, ghost s: System, ghost k: nat)
      requires Represents(limits, s) && Enabled(DoRegister(k), s) && sharedTimeLimit == limits[k]
      modifies this`activeStreamLimit, sharedTimeLimit
      ensures Represents(limits, Do(DoRegister(k), s))
      ensures activeStreamLimit == sharedTimeLimit && stopped == old(stopped)
      ensures sharedTimeLimit.stopped == (old(sharedTimeLimit.stopped) || stopped)
    {
      activeStreamLimit := sharedTimeLimit;
      if stopped {
        sharedTimeLimit.Stop();
      }
    }

    /** The second critical section of the worker of stream k. */
    method Unregister(ghost limits: seq<TimeLimit>, ghost s: System, ghost k: nat)
      requires Represents(limits, s) && Enabled(DoUnregister(k), s)
      modifies this`activeStreamLimit
      ensures Represents(limits, Do(DoUnregister(k), s))
      ensures activeStreamLimit == null
    {
      activeStreamLimit := null;
    }

    /** The critical section of a call of stop and of a finalizer. */
    method RequestStop(ghost limits: seq<TimeLimit>, ghost s: System, ghost l: Label)
      requires Represents(limits, s) && Enabled(l, s) && (l == DoStop || l.DoDrop?)
      modifies this`stopped, activeStreamLimit
      ensures Represents(limits, Do(l, s))
      ensures stopped && (activeStreamLimit != null ==> activeStreamLimit.stopped)
    {
      stopped := true;
      if activeStreamLimit != null {
        activeStreamLimit.Stop();
      }
    }
  }

  /** What the other threads do to the state while next waits with the mutex released. */
  datatype Turn = Turn(pushed: seq<Update>, finished: bool)

  function Arrived(queue: seq<Update>, turns: seq<Turn>): seq<Update> {
    if turns == [] then queue else Arrived(queue, turns[..|turns| - 1]) + turns[|turns| - 1].pushed
  }

  predicate FinishedBy(finished: bool, turns: seq<Turn>) {
    finished || exists turn :: turn in turns && turn.finished
  }

  predicate NothingToReturn(queue: seq<Update>, finished: bool, turns: seq<Turn>) {
    Arrived(queue, turns) == [] && !FinishedBy(finished, turns)
  }

  lemma NoTurn(queue: seq<Update>, finished: bool, turns: seq<Turn>)
    ensures Arrived(queue, turns[..0]) == queue && FinishedBy(finished, turns[..0]) == finished
  {}

  lemma OneMoreTurn(queue: seq<Update>, finished: bool, turns: seq<Turn>, k: nat)
    requires k < |turns|
    ensures Arrived(queue, turns[..k + 1]) == Arrived(queue, turns[..k]) + turns[k].pushed
    ensures FinishedBy(finished, turns[..k + 1]) == (FinishedBy(finished, turns[..k]) || turns[k].finished)
  {
    assert turns[..k + 1] == turns[..k] + [turns[k]];
    assert turns[..k + 1][..k] == turns[..k];
  }

  lemma CheckLeaves(t: Stream)
    requires LocalEnabled(CheckNext, t)
    ensures var r, u := CheckResult(t.queue, t.finished), LocalDo(CheckNext, t);
      u.finished == t.finished && t.queue == if r.Got? then [r.update] + u.queue else u.queue
  {}

  class StreamState {
    var queue: seq<Update>
    var finished: bool

    constructor ()
      ensures Represents(NEW_STREAM) && queue == [] && !finished
    {
      queue, finished := [], false;
    }

    ghost predicate Represents(t: Stream)
      reads this
    {
      queue == t.queue && finished == t.finished
    }

    /** The critical section of the solution observer. */
    method PushSolution(bytes: seq<byte>, ghost t: Stream)
      requires Represents(t) && LocalEnabled(PushObserved(bytes), t)
      modifies this
      ensures Represents(LocalDo(PushObserved(bytes), t))
      ensures queue == old(queue) + [Update(false, bytes)] && finished == old(finished)
    {
      queue := queue + [Update(false, bytes)];
    }

    /** The last critical section of the worker: the final update, then the flag that next and the finalizer read. */
    method PushFinalResponse(bytes: seq<byte>, ghost t: Stream)
      requires Represents(t) && LocalEnabled(PushFinal(bytes), t)
      modifies this
      ensures Represents(LocalDo(StoreFinished, LocalDo(PushFinal(bytes), t)))
      ensures queue == old(queue) + [Update(true, bytes)] && finished
    {
      queue := queue + [Update(true, bytes)];
      finished := true;
    }

    /** One round of the wait loop of next, with the mutex held. */
    method Check(ghost t: Stream) returns (r: NextResult)
      requires Represents(t) && LocalEnabled(CheckNext, t)
      modifies this`queue
      ensures r == CheckResult(old(queue), finished)
      ensures old(queue) == if r.Got? then [r.update] + queue else queue
      ensures old(queue) == [] ==> r == if finished then AlreadyFinished else MustWait
      ensures old(queue) != [] ==> r.Got?
      ensures Represents(LocalDo(CheckNext, t))
    {
      if queue == [] {
        return if finished then AlreadyFinished else MustWait;
      }
      var update := queue[0];
      queue := queue[1..];
      return Got(update);
    }

    /** The wait loop of next: it goes on until there is something to return, or for as many turns as there are. */
    method Next(turns: seq<Turn>, ghost t: Stream) returns (r: NextResult, waits: nat)
      requires Represents(t) && LocalEnabled(CheckNext, t)
      modifies this
      ensures waits <= |turns| && (r == MustWait ==> waits == |turns|)
      ensures forall k :: 0 <= k < waits ==> NothingToReturn(old(queue), old(finished), turns[..k])
      ensures r == MustWait <==> NothingToReturn(old(queue), old(finished), turns[..waits])
      ensures r == AlreadyFinished ==> queue == Arrived(old(queue), turns[..waits]) == []
      ensures r.Got? ==> [r.update] + queue == Arrived(old(queue), turns[..waits])
      ensures finished == FinishedBy(old(finished), turns[..waits])
    {
      hide LocalDo, Arrived, FinishedBy;
      waits := 0;
      NoTurn(queue, finished, turns);
      CheckLeaves(t);
      r := Check(t);
      while r == MustWait && waits < |turns|
        invariant waits <= |turns|
        invariant forall k :: 0 <= k < waits ==> NothingToReturn(old(queue), old(finished), turns[..k])
        invariant r == MustWait <==> NothingToReturn(old(queue), old(finished), turns[..waits])
        invariant !r.Got? ==> queue == Arrived(old(queue), turns[..waits]) == []
        invariant r.Got? ==> [r.update] + queue == Arrived(old(queue), turns[..waits])
        invariant finished == FinishedBy(old(finished), turns[..waits])
      {
        OneMoreTurn(old(queue), old(finished), turns, waits);
        // while next waits, the other threads take their turn
        queue := queue + turns[waits].pushed;
        finished := finished || turns[waits].finished;
        waits := waits + 1;
        ghost var u := t.(queue := queue, finished := finished);
        CheckLeaves(u);
        r := Check(u);
      }
    }
  }
}
