/**
 The request queue between coroutines on an event loop and one worker thread.  A step is what one of them does
 without the other being able to interfere: a coroutine runs up to its next await, the worker takes one item or ends
 one function, the event loop runs one callback.
 */
module AiosqliteProtocol {

  /** What the queue holds: a future with its function, or the request to stop. */
  datatype Item = Job(id: nat) | Stop

  /** A function returns, raises an Exception, or raises something that is no Exception. */
  datatype Outcome = Returned | Failed | Aborted

  datatype Future = Pending | Cancelled | Settled(outcome: Outcome) {
    predicate Done() { !Pending? }
  }

  datatype Kind = Connecting | Executing | Closing

  /** A coroutine that has queued a function and waits for its future, or has finished waiting. */
  datatype Call = Call(kind: Kind, future: Future, mustCancel: bool, finished: bool)

  datatype Worker = Idle | Busy(id: nat) | Stopped

  /** The event loop is asked to settle a future. */
  datatype Posted = Posted(id: nat, outcome: Outcome)

  /** Calls are numbered in the order of submission; `ran` lists the functions in the order of their start. */
  datatype State = State(
    started: bool, running: bool, connected: bool, queue: seq<Item>, worker: Worker,
    callbacks: seq<Posted>, calls: seq<Call>, ran: seq<nat>)

  datatype Step =
    Await | Submit | Close | Cancel(id: nat) | Callback | Resume(id: nat) | Dequeue | Finish(outcome: Outcome)

  const START := State(false, true, false, [], Idle, [], [], [])

  // ----- the steps -----

  /** The step is possible and changes something; what raises an error at once or returns at once does not. */
  predicate Enabled(s: State, step: Step) {
    match step
    case Await => !s.started
    case Submit => s.started && s.running && s.connected
    case Close => s.started && s.connected
    case Cancel(id) => id < |s.calls| && !s.calls[id].finished && !s.calls[id].mustCancel
    case Callback => s.callbacks != []
    case Resume(id) => id < |s.calls| && !s.calls[id].finished && s.calls[id].future.Done()
    case Dequeue => s.started && s.worker.Idle? && s.queue != []
    case Finish(_) => s.worker.Busy?
  }

  /** A new future is queued with its function, and a coroutine waits for it. */
  function Queued(s: State, kind: Kind): State {
    s.(queue := s.queue + [Job(|s.calls|)], calls := s.calls + [Call(kind, Pending, false, false)])
  }

  /** The connection stops running for good, and the worker is told so. */
  function StopRunning(s: State): State {
    s.(running := false, queue := s.queue + [Stop])
  }

  /** Only a future that is not done is set. */
  function Set(future: Future, outcome: Outcome): Future {
    if future.Pending? then Settled(outcome) else future
  }

  function SetFuture(s: State, id: nat, future: Future): State
    requires id < |s.calls|
  {
    s.(calls := s.calls[id := s.calls[id].(future := future)])
  }

  /** What a coroutine does when its future is done. */
  function Resumed(s: State, id: nat): State
    requires id < |s.calls|
  {
    var call := s.calls[id];
    var t := s.(calls := s.calls[id := call.(finished := true)]);
    var cancelled := call.mustCancel || !call.future.Settled?;
    match call.kind
    case Executing => t
    case Connecting =>
      if cancelled || call.future.outcome.Aborted? then t
      else if call.future.outcome.Failed? then StopRunning(t).(connected := false)
      else t.(connected := true)
    case Closing => StopRunning(t).(connected := false)
  }

  function Do(s: State, step: Step): State
    requires Enabled(s, step)
  {
    match step
    case Await => Queued(s, Connecting).(started := true)
    case Submit => Queued(s, Executing)
    case Close => if s.running then Queued(s, Closing) else StopRunning(s).(connected := false)
    case Cancel(id) =>
      if s.calls[id].future.Pending? then SetFuture(s, id, Cancelled)
      else s.(calls := s.calls[id := s.calls[id].(mustCancel := true)])
    case Callback =>
      var posted := s.callbacks[0];
      var rest := s.(callbacks := s.callbacks[1..]);
      if posted.id < |s.calls| then SetFuture(rest, posted.id, Set(s.calls[posted.id].future, posted.outcome)) else rest
    case Resume(id) => Resumed(s, id)
    case Dequeue =>
      var rest := s.(queue := s.queue[1..]);
      if s.queue[0].Stop? then rest.(worker := Stopped)
      else rest.(worker := Busy(s.queue[0].id), ran := s.ran + [s.queue[0].id])
    case Finish(outcome) => s.(worker := Idle, callbacks := s.callbacks + [Posted(s.worker.id, outcome)])
  }

  // ----- what every step keeps -----

  /** The functions whose results are with the event loop, or beyond. */
  function Ended(s: State): int { if s.worker.Busy? then |s.ran| - 1 else |s.ran| }

  /** The futures that the event loop has been asked to set and has dealt with. */
  function Dealt(s: State): int { Ended(s) - |s.callbacks| }

  predicate QueueInv(s: State) {
    && |s.ran| <= |s.calls| <= |s.ran| + |s.queue|
    && (forall i :: 0 <= i < |s.ran| ==> s.ran[i] == i)
    && (forall i :: 0 <= i < |s.queue| ==>
          s.queue[i] == if |s.ran| + i < |s.calls| then Job(|s.ran| + i) else Stop)
  }

  predicate WorkerInv(s: State) {
    && (s.worker.Busy? ==> s.ran != [] && s.worker.id == |s.ran| - 1)
    && (s.worker.Stopped? ==> |s.ran| == |s.calls|)
    && (s.running ==> !s.worker.Stopped? && |s.ran| + |s.queue| == |s.calls|)
    && (!s.running ==> !s.connected && s.started && (s.worker.Stopped? || |s.ran| + |s.queue| > |s.calls|))
    && (!s.started ==> s.calls == [] && s.queue == [] && s.worker.Idle? && !s.connected)
  }

  predicate FuturesInv(s: State) {
    && 0 <= Dealt(s) && Ended(s) <= |s.calls|
    && (forall i :: 0 <= i < |s.callbacks| ==> s.callbacks[i].id == Dealt(s) + i)
    && (forall id :: 0 <= id < |s.calls| ==>
          && (id < Dealt(s) ==> s.calls[id].future.Done())
          && (Dealt(s) <= id ==> !s.calls[id].future.Settled?)
          && (s.calls[id].finished ==> s.calls[id].future.Done()))
  }

  /** The first call connects; until it has, there is nothing else. */
  predicate ConnectInv(s: State) {
    && (s.started <==> s.calls != [])
    && (forall id :: 0 <= id < |s.calls| ==> (s.calls[id].kind.Connecting? <==> id == 0))
    && (s.calls != [] && !s.calls[0].finished ==> s.running && !s.connected && |s.calls| == 1)
  }

  predicate Inv(s: State) { QueueInv(s) && WorkerInv(s) && FuturesInv(s) && ConnectInv(s) }

  ghost predicate Next(s: State, t: State) {
    exists step :: Enabled(s, step) && t == Do(s, step)
  }

  lemma StepKeepsQueue(s: State, step: Step)
    requires Inv(s) && Enabled(s, step)
    ensures QueueInv(Do(s, step))
  {
    if step.Dequeue? { DequeueKeepsQueue(s); }
  }

  lemma DequeueKeepsQueue(s: State)
    requires Inv(s) && Enabled(s, Dequeue)
    ensures QueueInv(Do(s, Dequeue))
  {
  }

  lemma StepKeepsWorker(s: State, step: Step)
    requires Inv(s) && Enabled(s, step)
    ensures WorkerInv(Do(s, step))
  {
  }

  lemma StepKeepsFutures(s: State, step: Step)
    requires Inv(s) && Enabled(s, step)
    ensures FuturesInv(Do(s, step))
  {
    match step
    case Callback => CallbackKeepsFutures(s);
    case Finish(outcome) => FinishKeepsFutures(s, outcome);
    case Resume(id) => assert Do(s, step).calls == s.calls[id := s.calls[id].(finished := true)];
    case _ =>
  }

  lemma CallbackKeepsFutures(s: State)
    requires Inv(s) && s.callbacks != []
    ensures FuturesInv(Do(s, Callback))
  {
    var t := Do(s, Callback);
    assert s.callbacks[0].id == Dealt(s);
    assert Dealt(t) == Dealt(s) + 1;
    forall i | 0 <= i < |t.callbacks| ensures t.callbacks[i].id == Dealt(t) + i {
      assert t.callbacks[i] == s.callbacks[i + 1];
    }
  }

  lemma FinishKeepsFutures(s: State, outcome: Outcome)
    requires Inv(s) && Enabled(s, Finish(outcome))
    ensures FuturesInv(Do(s, Finish(outcome)))
  {
  }

  lemma StepKeepsConnect(s: State, step: Step)
    requires Inv(s) && Enabled(s, step)
    ensures ConnectInv(Do(s, step))
  {
  }

  lemma StepInv(s: State, step: Step)
    requires Inv(s) && Enabled(s, step)
    ensures Inv(Do(s, step))
  {
    StepKeepsQueue(s, step);
    StepKeepsWorker(s, step);
    StepKeepsFutures(s, step);
    StepKeepsConnect(s, step);
  }

  // ----- whole runs -----

  /** A run of the two actors from the start, with any interleaving, closes and cancellations. */
  ghost predicate IsRun(run: seq<State>) {
    run != [] && run[0] == START && forall k :: 0 < k < |run| ==> Next(run[k - 1], run[k])
  }

  lemma {:induction false} RunInv(run: seq<State>, k: nat)
    requires IsRun(run) && k < |run|
    ensures Inv(run[k])
  {
    if k > 0 {
      RunInv(run, k - 1);
      assert Next(run[k - 1], run[k]);
      var step :| Enabled(run[k - 1], step) && run[k] == Do(run[k - 1], step);
      StepInv(run[k - 1], step);
    }
  }

  /** Functions start in the order of submission, each once; the jobs in the queue are those that come next. */
  lemma FunctionsRunInOrder(run: seq<State>, k: nat)
    requires IsRun(run) && k < |run|
    ensures var s := run[k];
      && |s.ran| <= |s.calls| && (forall i :: 0 <= i < |s.ran| ==> s.ran[i] == i)
      && (forall i :: 0 <= i < |s.queue| && s.queue[i].Job? ==> s.queue[i].id == |s.ran| + i)
  {
    RunInv(run, k);
  }

  /** Behind a stop request there are only more of them, and once the worker has taken one it has taken all jobs. */
  lemma OnlyStopsBehindStop(run: seq<State>, k: nat)
    requires IsRun(run) && k < |run|
    ensures var s := run[k];
      && (forall i, j :: 0 <= i < j < |s.queue| && s.queue[i].Stop? ==> s.queue[j].Stop?)
      && (s.worker.Stopped? ==> |s.ran| == |s.calls| && forall i :: 0 <= i < |s.queue| ==> s.queue[i].Stop?)
  {
    RunInv(run, k);
  }

  // ----- futures are settled once -----

  /** A future that is done stays as it is. */
  lemma DoneStays(s: State, step: Step, id: nat)
    requires Enabled(s, step) && id < |s.calls| && s.calls[id].future.Done()
    ensures id < |Do(s, step).calls| && Do(s, step).calls[id].future == s.calls[id].future
  {
    match step
    case Resume(other) => assert Do(s, step).calls == s.calls[other := s.calls[other].(finished := true)];
    case Cancel(other) => assert other == id || Do(s, step).calls[id] == s.calls[id];
    case _ =>
  }

  predicate IsDone(s: State, id: nat) {
    id < |s.calls| && s.calls[id].future.Done()
  }

  /** In how many steps of the run the future becomes done. */
  function Settlements(run: seq<State>, id: nat): nat {
    if |run| < 2 then 0
    else
      Settlements(run[..|run| - 1], id)
      + if !IsDone(run[|run| - 2], id) && IsDone(run[|run| - 1], id) then 1 else 0
  }

  /** It does at most once, and has done so exactly if it is done in the end. */
  lemma {:induction false} SettledOnce(run: seq<State>, id: nat)
    requires IsRun(run)
    ensures Settlements(run, id) == if IsDone(run[|run| - 1], id) then 1 else 0
    decreases |run|
  {
    if |run| > 1 {
      var init := run[..|run| - 1];
      forall k | 0 < k < |init| ensures Next(init[k - 1], init[k]) { assert Next(run[k - 1], run[k]); }
      SettledOnce(init, id);
      var s, t := run[|run| - 2], run[|run| - 1];
      assert Next(s, t);
      if IsDone(s, id) {
        var step :| Enabled(s, step) && t == Do(s, step);
        DoneStays(s, step, id);
      }
    }
  }

  // ----- what a future is settled with -----

  /** From one state to the next, the worker has ended the function of this call, and its outcome is posted. */
  predicate Ends(s: State, t: State, id: nat, outcome: Outcome) {
    s.worker == Busy(id) && t == s.(worker := Idle, callbacks := s.callbacks + [Posted(id, outcome)])
  }

  /** From one state to the next, the wait for this call was cancelled while its future was pending. */
  predicate Cancels(s: State, t: State, id: nat) {
    && id < |s.calls| && s.calls[id].future.Pending? && !s.calls[id].finished
    && t == s.(calls := s.calls[id := s.calls[id].(future := Cancelled)])
  }

  ghost predicate EndsBefore(run: seq<State>, k: nat, id: nat, outcome: Outcome) {
    exists j: nat :: j < k && j + 1 < |run| && Ends(run[j], run[j + 1], id, outcome)
  }

  ghost predicate CancelsBefore(run: seq<State>, k: nat, id: nat) {
    exists j: nat :: j < k && j + 1 < |run| && Cancels(run[j], run[j + 1], id)
  }

  /** Every outcome that was posted or set is what a function ended with. */
  ghost predicate Sourced(run: seq<State>, k: nat)
    requires k < |run|
  {
    && (forall i :: 0 <= i < |run[k].callbacks| ==>
          EndsBefore(run, k, run[k].callbacks[i].id, run[k].callbacks[i].outcome))
    && (forall id :: 0 <= id < |run[k].calls| ==>
          match run[k].calls[id].future
          case Pending => true
          case Cancelled => CancelsBefore(run, k, id)
          case Settled(outcome) => EndsBefore(run, k, id, outcome))
  }

  /** What a step does to a future: it settles it with the outcome posted first, or cancels it. */
  lemma FutureChanges(s: State, step: Step, id: nat)
    requires Inv(s) && Enabled(s, step) && id < |Do(s, step).calls|
    ensures id == |s.calls| ==> Do(s, step).calls[id].future.Pending?
    ensures id < |s.calls| && Do(s, step).calls[id].future != s.calls[id].future ==>
      if step.Callback? then
        id == s.callbacks[0].id && Do(s, step).calls[id].future == Settled(s.callbacks[0].outcome)
      else step == Cancel(id) && Cancels(s, Do(s, step), id)
  {
  }

  lemma CallbacksChange(s: State, step: Step, i: nat)
    requires Inv(s) && Enabled(s, step) && i < |Do(s, step).callbacks|
    ensures var posted := Do(s, step).callbacks[i];
      posted in s.callbacks || (i == |s.callbacks| && Ends(s, Do(s, step), posted.id, posted.outcome))
  {
  }

  lemma EndsStays(run: seq<State>, k: nat, id: nat, outcome: Outcome)
    requires EndsBefore(run, k, id, outcome)
    ensures EndsBefore(run, k + 1, id, outcome)
  {
  }

  lemma CancelsStays(run: seq<State>, k: nat, id: nat)
    requires CancelsBefore(run, k, id)
    ensures CancelsBefore(run, k + 1, id)
  {
  }

  lemma StepIsSourced(run: seq<State>, k: nat, step: Step)
    requires k + 1 < |run| && Sourced(run, k) && Inv(run[k])
    requires Enabled(run[k], step) && run[k + 1] == Do(run[k], step)
    ensures Sourced(run, k + 1)
  {
    var s, t := run[k], run[k + 1];
    forall i | 0 <= i < |t.callbacks| ensures EndsBefore(run, k + 1, t.callbacks[i].id, t.callbacks[i].outcome) {
      CallbacksChange(s, step, i);
      if t.callbacks[i] in s.callbacks { EndsStays(run, k, t.callbacks[i].id, t.callbacks[i].outcome); }
    }
    forall id | 0 <= id < |t.calls| ensures
      match t.calls[id].future
      case Pending => true
      case Cancelled => CancelsBefore(run, k + 1, id)
      case Settled(outcome) => EndsBefore(run, k + 1, id, outcome)
    {
      FutureChanges(s, step, id);
      match t.calls[id].future
      case Pending =>
      case Cancelled => if id < |s.calls| && s.calls[id].future.Cancelled? { CancelsStays(run, k, id); }
      case Settled(outcome) => EndsStays(run, k, id, outcome);
    }
  }

  lemma {:induction false} RunIsSourced(run: seq<State>, k: nat)
    requires IsRun(run) && k < |run|
    ensures Sourced(run, k)
  {
    if k > 0 {
      RunIsSourced(run, k - 1);
      RunInv(run, k - 1);
      assert Next(run[k - 1], run[k]);
      var step :| Enabled(run[k - 1], step) && run[k] == Do(run[k - 1], step);
      StepIsSourced(run, k - 1, step);
    }
  }

  /** The functions up to this one have run, and the worker does not have it any more. */
  predicate IsPast(s: State, id: nat) {
    |s.ran| > id && (s.worker.Busy? ==> s.worker.id > id)
  }

  lemma StepKeepsPast(s: State, step: Step, id: nat)
    requires Inv(s) && Enabled(s, step) && IsPast(s, id)
    ensures IsPast(Do(s, step), id)
  {
    if step.Dequeue? && s.queue[0].Job? { assert s.queue[0] == Job(|s.ran|); }
  }

  lemma NextKeepsPast(s: State, t: State, id: nat)
    requires Inv(s) && Next(s, t) && IsPast(s, id)
    ensures IsPast(t, id)
  {
    var step :| Enabled(s, step) && t == Do(s, step);
    StepKeepsPast(s, step, id);
  }

  lemma EndsIsPast(s: State, t: State, id: nat, outcome: Outcome)
    requires Inv(s) && Ends(s, t, id, outcome)
    ensures IsPast(t, id)
  {
  }

  /** Behind the end of a function the worker only ever has later ones. */
  lemma {:induction false} LaterFunctions(run: seq<State>, j: nat, k: nat, id: nat, outcome: Outcome)
    requires IsRun(run) && j < k < |run| && Ends(run[j], run[j + 1], id, outcome)
    ensures IsPast(run[k], id)
    decreases k
  {
    if k > j + 1 {
      LaterFunctions(run, j, k - 1, id, outcome);
      RunInv(run, k - 1);
      NextKeepsPast(run[k - 1], run[k], id);
    } else {
      RunInv(run, j);
      EndsIsPast(run[j], run[k], id, outcome);
    }
  }

  /** A function ends once. */
  lemma EndsOnce(run: seq<State>, j: nat, k: nat, id: nat, a: Outcome, b: Outcome)
    requires IsRun(run) && j + 1 < |run| && k + 1 < |run|
    requires Ends(run[j], run[j + 1], id, a) && Ends(run[k], run[k + 1], id, b)
    ensures j == k && a == b
  {
    if j < k {
      LaterFunctions(run, j, k, id, a);
    } else if k < j {
      LaterFunctions(run, k, j, id, b);
    } else {
      assert run[j].callbacks + [Posted(id, a)] == run[j].callbacks + [Posted(id, b)];
      assert (run[j].callbacks + [Posted(id, a)])[|run[j].callbacks|] == Posted(id, a);
    }
  }

  /** In every run a future that is settled is settled with what its own function ended with, and a future is cancelled
      only by cancelling the wait for it. */
  lemma SettledByItsFunction(run: seq<State>, k: nat, id: nat)
    requires IsRun(run) && k < |run| && id < |run[k].calls|
    ensures run[k].calls[id].future.Cancelled? ==> CancelsBefore(run, k, id)
    ensures forall outcome :: run[k].calls[id].future == Settled(outcome) ==> EndsBefore(run, k, id, outcome)
    ensures forall j: nat, outcome ::
      j + 1 < |run| && Ends(run[j], run[j + 1], id, outcome) && run[k].calls[id].future.Settled? ==>
        run[k].calls[id].future == Settled(outcome)
  {
    RunIsSourced(run, k);
    forall j: nat, outcome |
      j + 1 < |run| && Ends(run[j], run[j + 1], id, outcome) && run[k].calls[id].future.Settled?
      ensures run[k].calls[id].future == Settled(outcome)
    {
      var own := run[k].calls[id].future.outcome;
      var i: nat :| i < k && i + 1 < |run| && Ends(run[i], run[i + 1], id, own);
      EndsOnce(run, i, j, id, own, outcome);
    }
  }

  // ----- what a coroutine does when it goes on -----

  /** Its call is finished; only connecting and closing change more. */
  lemma ResumeMeans(s: State, id: nat)
    requires Enabled(s, Resume(id))
    ensures var t, call := Do(s, Resume(id)), s.calls[id];
      && t.calls == s.calls[id := call.(finished := true)]
      && t.started == s.started && t.worker == s.worker && t.callbacks == s.callbacks && t.ran == s.ran
      && (call.kind.Executing? ==> t.running == s.running && t.connected == s.connected && t.queue == s.queue)
      && (call.kind.Closing? ==> !t.running && !t.connected && t.queue == s.queue + [Stop])
      && (call.kind.Connecting? && !call.mustCancel && call.future == Settled(Returned) ==>
            t.connected && t.running == s.running && t.queue == s.queue)
      && (call.kind.Connecting? && !call.mustCancel && call.future == Settled(Failed) ==>
            !t.connected && !t.running && t.queue == s.queue + [Stop])
      && (call.kind.Connecting? && (call.mustCancel || call.future in {Cancelled, Settled(Aborted)}) ==>
            t.connected == s.connected && t.running == s.running && t.queue == s.queue)
  {
  }

  // ----- everything comes to its end -----

  /** How often a coroutine can still be cancelled, and that it has still to go on. */
  function CallWeight(c: Call): nat {
    if c.finished then 0 else 1 + if c.mustCancel then 0 else if c.future.Pending? then 2 else 1
  }

  function CallsWeight(calls: seq<Call>): nat {
    if calls == [] then 0 else CallsWeight(calls[..|calls| - 1]) + CallWeight(calls[|calls| - 1])
  }

  lemma {:induction false} WeightOfUpdate(calls: seq<Call>, id: nat, c: Call)
    requires id < |calls|
    ensures CallsWeight(calls[id := c]) == CallsWeight(calls) - CallWeight(calls[id]) + CallWeight(c)
    decreases |calls|
  {
    var last := |calls| - 1;
    if id < last {
      WeightOfUpdate(calls[..last], id, c);
      assert calls[id := c][..last] == calls[..last][id := c];
    } else {
      assert calls[id := c][..last] == calls[..last];
    }
  }

  /** What there is still to do once a stop has been requested. */
  function WorkLeft(s: State): int {
    3 * (|s.calls| - |s.ran|) + (if s.worker.Busy? then 2 else 0) + |s.callbacks|
    + (if s.worker.Stopped? then 0 else 1) + CallsWeight(s.calls)
  }

  lemma StepCost(s: State, step: Step)
    requires Inv(s) && !s.running && Enabled(s, step)
    ensures !Do(s, step).running && WorkLeft(Do(s, step)) < WorkLeft(s)
  {
    match step
    case Cancel(id) =>
      WeightOfUpdate(s.calls, id, Do(s, step).calls[id]);
    case Callback =>
      var posted := s.callbacks[0];
      assert posted.id == Dealt(s);
      WeightOfUpdate(s.calls, posted.id, Do(s, step).calls[posted.id]);
    case Resume(id) =>
      WeightOfUpdate(s.calls, id, s.calls[id].(finished := true));
    case _ =>
  }

  lemma WorkGoesDownOnce(run: seq<State>, j: nat)
    requires IsRun(run) && j + 1 < |run| && !run[j].running
    ensures !run[j + 1].running && WorkLeft(run[j + 1]) < WorkLeft(run[j])
  {
    RunInv(run, j);
    NextCost(run[j], run[j + 1]);
  }

  lemma {:induction false} WorkGoesDown(run: seq<State>, k: nat, j: nat)
    requires IsRun(run) && k <= j < |run| && !run[k].running
    ensures !run[j].running && WorkLeft(run[j]) + (j - k) <= WorkLeft(run[k])
    decreases j
  {
    if k < j {
      WorkGoesDown(run, k, j - 1);
      WorkGoesDownOnce(run, j - 1);
    }
  }

  /** After a stop request there are only so many steps left to any run, and the request stands. */
  lemma RunsEnd(run: seq<State>, k: nat)
    requires IsRun(run) && k < |run| && !run[k].running
    ensures |run| - 1 - k <= WorkLeft(run[k])
    ensures forall j :: k <= j < |run| ==> !run[j].running
  {
    var last := |run| - 1;
    WorkGoesDown(run, k, last);
    RunInv(run, last);
    WorkLeftIsNat(run[last]);
    forall j | k <= j < |run| ensures !run[j].running { WorkGoesDown(run, k, j); }
  }

  lemma NextCost(s: State, t: State)
    requires Inv(s) && !s.running && Next(s, t)
    ensures !t.running && WorkLeft(t) < WorkLeft(s)
  {
    var step :| Enabled(s, step) && t == Do(s, step);
    StepCost(s, step);
  }

  lemma WorkLeftIsNat(s: State)
    requires Inv(s)
    ensures WorkLeft(s) >= 0
  {
  }

  ghost predicate Stuck(s: State) {
    forall step {:trigger Enabled(s, step)} :: !Enabled(s, step)
  }

  /** Nothing is under way: neither the worker nor the event loop has anything to go on with. */
  ghost predicate Quiet(s: State) {
    forall step {:trigger Enabled(s, step)} ::
      Enabled(s, step) ==> step.Await? || step.Submit? || step.Close? || step.Cancel?
  }

  /** Then every function has run, every future is done and every coroutine has gone on. */
  lemma QuietIsSettled(s: State)
    requires Inv(s) && Quiet(s)
    ensures |s.ran| == |s.calls|
    ensures forall id :: 0 <= id < |s.calls| ==> s.calls[id].future.Done() && s.calls[id].finished
  {
    assert s.worker.Busy? ==> Enabled(s, Finish(Returned));
    assert s.callbacks != [] ==> Enabled(s, Callback);
    assert s.started && s.worker.Idle? && s.queue != [] ==> Enabled(s, Dequeue);
    forall id: nat | id < |s.calls| ensures s.calls[id].future.Done() && s.calls[id].finished {
      assert s.calls[id].future.Done();
      assert Enabled(s, Resume(id)) == !s.calls[id].finished;
    }
  }

  /** A run that cannot go on after a stop request has stopped the worker and settled every future. */
  lemma StoppedRunsAreComplete(run: seq<State>)
    requires IsRun(run) && !run[|run| - 1].running
    requires Stuck(run[|run| - 1])
    ensures var s := run[|run| - 1];
      && s.worker.Stopped? && |s.ran| == |s.calls|
      && forall id :: 0 <= id < |s.calls| ==> s.calls[id].future.Done() && s.calls[id].finished
  {
    var s := run[|run| - 1];
    RunInv(run, |run| - 1);
    QuietIsSettled(s);
    assert !Enabled(s, Dequeue) && !Enabled(s, Finish(Returned));
  }

  /** Closing, or failing to connect, requests the stop; the connection never runs again. */
  lemma StopIsForGood(s: State, step: Step)
    requires Inv(s) && Enabled(s, step)
    ensures !s.running ==> !Do(s, step).running && |Do(s, step).calls| == |s.calls|
    ensures step.Resume? && s.calls[step.id].kind.Closing? ==>
      !Do(s, step).running && !Do(s, step).connected && Do(s, step).queue == s.queue + [Stop]
  {
  }

  // ----- a connecting coroutine that gives up -----

  /** The coroutine that connects was cancelled, or its connector raised what is no Exception; it has gone on. */
  predicate GaveUp(s: State) {
    s.calls != [] && s.calls[0].finished &&
    (s.calls[0].mustCancel || !s.calls[0].future.Settled? || s.calls[0].future.outcome.Aborted?)
  }

  /** Neither connected nor stopped, with nothing that could change that. */
  predicate Abandoned(s: State) {
    s.running && !s.connected && |s.calls| == 1 && Stop !in s.queue && !s.worker.Stopped?
  }

  lemma NoStopWhileRunning(s: State)
    requires Inv(s) && s.running
    ensures Stop !in s.queue && !s.worker.Stopped?
  {
  }

  lemma GivingUpAbandons(s: State, step: Step)
    requires Inv(s) && Enabled(s, step) && (GaveUp(s) ==> Abandoned(s))
    ensures GaveUp(Do(s, step)) ==> Abandoned(Do(s, step))
    ensures GaveUp(s) ==> GaveUp(Do(s, step))
  {
    StepInv(s, step);
    var t := Do(s, step);
    if GaveUp(t) {
      assert t.running && !t.connected && |t.calls| == 1;
      NoStopWhileRunning(t);
    }
  }

  lemma {:induction false} GaveUpIsAbandoned(run: seq<State>, k: nat)
    requires IsRun(run) && k < |run|
    ensures GaveUp(run[k]) ==> Abandoned(run[k])
    ensures k > 0 && GaveUp(run[k - 1]) ==> GaveUp(run[k])
  {
    if k > 0 {
      GaveUpIsAbandoned(run, k - 1);
      RunInv(run, k - 1);
      assert Next(run[k - 1], run[k]);
      var step :| Enabled(run[k - 1], step) && run[k] == Do(run[k - 1], step);
      GivingUpAbandons(run[k - 1], step);
    }
  }

  /** From then on no stop is ever requested, no call can be made or closed, and the worker never ends. */
  lemma {:induction false} AbandonedForEver(run: seq<State>, k: nat, j: nat)
    requires IsRun(run) && k <= j < |run| && GaveUp(run[k])
    ensures GaveUp(run[j]) && Abandoned(run[j]) && !Enabled(run[j], Submit) && !Enabled(run[j], Close)
    decreases j
  {
    if k < j { AbandonedForEver(run, k, j - 1); }
    GaveUpIsAbandoned(run, j);
  }

  /** A connecting coroutine that has gone on and did not give up has connected, or requested a stop. */
  predicate Decided(s: State) {
    s.calls != [] && s.calls[0].finished && !GaveUp(s) ==> s.connected || !s.running
  }

  lemma StepKeepsDecided(s: State, step: Step)
    requires Inv(s) && Enabled(s, step) && Decided(s)
    ensures Decided(Do(s, step))
  {
  }

  lemma {:induction false} RunIsDecided(run: seq<State>, k: nat)
    requires IsRun(run) && k < |run|
    ensures Decided(run[k])
  {
    if k > 0 {
      RunIsDecided(run, k - 1);
      RunInv(run, k - 1);
      assert Next(run[k - 1], run[k]);
      var step :| Enabled(run[k - 1], step) && run[k] == Do(run[k - 1], step);
      StepKeepsDecided(run[k - 1], step);
    }
  }

  /** A run that cannot go on has stopped its worker exactly if the connecting coroutine did not give up. */
  lemma StoppedUnlessGivenUp(run: seq<State>)
    requires IsRun(run) && Stuck(run[|run| - 1])
    ensures var s := run[|run| - 1]; s.worker.Stopped? <==> !GaveUp(s)
  {
    var last := |run| - 1;
    var s := run[last];
    if GaveUp(s) {
      AbandonedForEver(run, last, last);
    } else {
      RunInv(run, last);
      RunIsDecided(run, last);
      StuckIsDecided(s);
      StoppedRunsAreComplete(run);
    }
  }

  lemma StuckIsDecided(s: State)
    requires Inv(s) && Stuck(s) && Decided(s) && !GaveUp(s)
    ensures !s.running
  {
    QuietIsSettled(s);
    assert !Enabled(s, Await) && !Enabled(s, Submit);
  }

  /** Cancelling the wait is all it takes, whether it comes before or after the connector has ended. */
  lemma CancelledConnectGivesUp(s: State)
    requires Inv(s) && s.calls != [] && Enabled(s, Cancel(0))
    ensures var t := Do(s, Cancel(0));
      Enabled(t, Resume(0)) && GaveUp(Do(t, Resume(0)))
  {
    StepInv(s, Cancel(0));
  }
}
