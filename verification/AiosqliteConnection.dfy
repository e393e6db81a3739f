/**
 The connection as the source has it, each coroutine cut at its awaits: what runs in one go is a method, and is one
 step of the protocol.
 */
module AiosqliteConnection {
  import opened AiosqliteProtocol

  datatype Result<+T> = Ok(value: T) | ConnectionClosed

  class AsyncFuture {
    var state: Future

    constructor ()
      ensures state == Pending
    {
      state := Pending;
    }

    predicate Done()
      reads this
    {
      !state.Pending?
    }
  }

  /** `set_result` and `set_exception`. */
  method SetFutureOnce(future: AsyncFuture, outcome: Outcome)
    modifies future
    ensures future.state == Set(old(future.state), outcome)
    ensures old(future.state).Pending? ==> future.state == Settled(outcome)
    ensures old(future.Done()) ==> future.state == old(future.state)
  {
    if !future.Done() {
      future.state := Settled(outcome);
    }
  }

  /** The jobs before the first stop request. */
  function JobsBeforeStop(queue: seq<Item>): seq<nat> {
    if queue == [] || queue[0].Stop? then [] else [queue[0].id] + JobsBeforeStop(queue[1..])
  }

  function BehindStop(queue: seq<Item>): seq<Item> {
    if queue == [] then [] else if queue[0].Stop? then queue[1..] else BehindStop(queue[1..])
  }

  /** What the event loop is asked to do when these functions have run. */
  function Posts(ids: seq<nat>, function_: nat -> Outcome): seq<Posted> {
    if ids == [] then [] else [Posted(ids[0], function_(ids[0]))] + Posts(ids[1..], function_)
  }

  class Connection {
    var running: bool
    var connected: bool
    var tx: seq<Item>

    constructor ()
      ensures Matches(START)
    {
      running, connected, tx := true, false, [];
    }

    /** The fields are those of the protocol's state. */
    ghost predicate Matches(s: State)
      reads this
    {
      running == s.running && connected == s.connected && tx == s.queue
    }

    method StopRunning()
      modifies this
      ensures !running && tx == old(tx) + [Stop] && connected == old(connected)
    {
      running := false;
      tx := tx + [Stop];
    }

    /** `_execute` up to its await: the number of the future, or an error. */
    method Execute(future: nat, kind: Kind, ghost s: State) returns (r: Result<nat>)
      requires Inv(s) && Matches(s) && future == |s.calls|
      modifies this
      ensures r.Ok? <==> old(running && connected)
      ensures r.Ok? ==> r.value == future && Matches(Queued(s, kind))
      ensures r.Ok? && kind.Executing? ==> Enabled(s, Submit) && Matches(Do(s, Submit))
      ensures r.ConnectionClosed? ==> Matches(s)
    {
      if !running || !connected {
        return ConnectionClosed;
      }
      tx := tx + [Job(future)];
      return Ok(future);
    }

    /** `_connect` up to its await, on the one await of the connection. */
    method Connect(ghost s: State)
      requires Inv(s) && Matches(s) && Enabled(s, Await)
      modifies this
      ensures Matches(Do(s, Await))
    {
      if !connected {
        tx := tx + [Job(0)];
      }
    }

    /** `_connect` behind its await, given what the await came to. */
    method Connected(outcome: Future, ghost s: State)
      requires Inv(s) && Matches(s) && Enabled(s, Resume(0)) && s.calls[0].kind.Connecting?
      requires outcome == if s.calls[0].mustCancel then Cancelled else s.calls[0].future
      modifies this
      ensures Matches(Do(s, Resume(0)))
      ensures outcome == Settled(Returned) ==> connected && running == old(running) && tx == old(tx)
      ensures outcome == Settled(Failed) ==> !connected && !running && tx == old(tx) + [Stop]
      ensures outcome in {Cancelled, Settled(Aborted)} ==>
        connected == old(connected) && running == old(running) && tx == old(tx)
    {
      if outcome == Settled(Returned) {
        connected := true;
      } else if outcome == Settled(Failed) {
        StopRunning();
        connected := false;
      }
    }

    /** `close` up to its await; it returns at once if there is no connection. */
    method Close(future: nat, ghost s: State) returns (waits: bool)
      requires Inv(s) && Matches(s) && future == |s.calls|
      modifies this
      ensures waits == old(connected)
      ensures if Enabled(s, AiosqliteProtocol.Close) then Matches(Do(s, AiosqliteProtocol.Close)) else Matches(s)
    {
      if !connected {
        return false;
      }
      var r := Execute(future, Closing, s);
      assert r.Ok?;
      return true;
    }

    /** What `close` does at last, whatever its await came to. */
    method Closed(id: nat, ghost s: State)
      requires Inv(s) && Matches(s) && Enabled(s, Resume(id)) && s.calls[id].kind.Closing?
      modifies this
      ensures Matches(Do(s, Resume(id)))
      ensures !running && !connected && tx == old(tx) + [Stop]
    {
      StopRunning();
      connected := false;
    }

    /** The worker thread, with no one else queueing meanwhile: it runs all jobs before the first stop request. */
    method Run(function_: nat -> Outcome) returns (posted: seq<Posted>)
      requires Stop in tx
      modifies this`tx
      ensures posted == Posts(JobsBeforeStop(old(tx)), function_)
      ensures tx == BehindStop(old(tx))
    {
      posted := [];
      while true
        invariant Stop in tx
        invariant posted + Posts(JobsBeforeStop(tx), function_) == Posts(JobsBeforeStop(old(tx)), function_)
        invariant BehindStop(tx) == BehindStop(old(tx))
        decreases |tx|
      {
        var item := tx[0];
        assert item.Job? ==> Stop in tx[1..];
        tx := tx[1..];
        if item.Stop? {
          break;
        }
        var outcome := function_(item.id);
        posted := posted + [Posted(item.id, outcome)];
      }
    }
  }

  /** The protocol's steps of the worker alone, up to the one in which it stops. */
  function WorkerAlone(s: State, function_: nat -> Outcome): State
    requires s.started && s.worker.Idle? && Stop in s.queue
    decreases |s.queue|
  {
    var t := Do(s, Dequeue);
    if t.worker.Stopped? then t else WorkerAlone(Do(t, Finish(function_(t.worker.id))), function_)
  }

  lemma WorkerJob(s: State, o: Outcome)
    requires s.started && s.worker.Idle? && s.queue != [] && s.queue[0].Job?
    ensures var id := s.queue[0].id;
      Do(Do(s, Dequeue), Finish(o))
      == s.(queue := s.queue[1..], callbacks := s.callbacks + [Posted(id, o)], ran := s.ran + [id])
  {
  }

  lemma MoreJobs(queue: seq<Item>, function_: nat -> Outcome, ran: seq<nat>, callbacks: seq<Posted>)
    requires queue != [] && queue[0].Job?
    ensures var id := queue[0].id;
      && ran + JobsBeforeStop(queue) == ran + [id] + JobsBeforeStop(queue[1..])
      && callbacks + Posts(JobsBeforeStop(queue), function_)
         == callbacks + [Posted(id, function_(id))] + Posts(JobsBeforeStop(queue[1..]), function_)
      && BehindStop(queue) == BehindStop(queue[1..])
  {
    assert JobsBeforeStop(queue)[1..] == JobsBeforeStop(queue[1..]);
  }

  /** `Run` is those steps. */
  lemma {:induction false} RunIsWorkerAlone(s: State, function_: nat -> Outcome)
    requires s.started && s.worker.Idle? && Stop in s.queue
    ensures WorkerAlone(s, function_)
         == s.(queue := BehindStop(s.queue), worker := Stopped,
               callbacks := s.callbacks + Posts(JobsBeforeStop(s.queue), function_),
               ran := s.ran + JobsBeforeStop(s.queue))
    decreases |s.queue|
  {
    if s.queue[0].Stop? {
      assert s.callbacks + [] == s.callbacks && s.ran + [] == s.ran;
    } else {
      var o := function_(s.queue[0].id);
      WorkerJob(s, o);
      MoreJobs(s.queue, function_, s.ran, s.callbacks);
      RunIsWorkerAlone(Do(Do(s, Dequeue), Finish(o)), function_);
    }
  }
}
