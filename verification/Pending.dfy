/** Requests to a language server, in every interleaving of the calls with the reader that delivers
    responses, the process exiting, and Close. Each step is one critical section, one atomic access or
    one channel operation. */
module Pending {
  import opened Order

  type Id = nat

  /** A response; only its id matters to the protocol. */
  datatype Response = Response(id: Id, payload: Bytes)

  datatype Result = Answered(response: Response) | ServerGone | SendError | Cancelled

  /** Where a call has got to. Fresh: past the first closed check, its channel made. Sending: past
      send's own closed check. */
  datatype Phase = Fresh | Registered | Sending | SendFailed | Waiting | Cancelling | Done(result: Result)

  /** A call and its channel, which holds at most one response. */
  datatype Call = Call(phase: Phase, buffer: Option<Response>, shut: bool)

  /** The one reader: between messages, between taking a call off the table and sending to its channel,
      between that and closing the channel, or over. */
  datatype Reader = Idle | Holding(response: Response) | Shutting(id: Id) | Ended

  datatype Reaper = Running | Flagged | Exited | Drained

  /** pending names the calls on the table; a call's channel is its own, so its id is all an entry
      needs. panicked is set by what Go would panic at: closing a closed channel or sending on one. */
  datatype State = State(next: Id, calls: map<Id, Call>, pending: set<Id>, reader: Reader, reaper: Reaper,
                         closed: bool, panicked: bool)

  const Initial := State(1, map[], {}, Idle, Running, false, false)

  datatype Step =
    // Call
    | Begin
    | Register(id: Id)
    | CheckSend(id: Id)
    | Write(id: Id, ok: bool)
    | DropFailed(id: Id)
    | Cancel(id: Id)
    | DropCancelled(id: Id)
    | Take(id: Id)
    // readLoop and deliver
    | Receive(response: Response)
    | Put
    | Shut
    | EndOfStream
    // reap
    | FlagExit
    | CloseExited
    | Drain
    // Close
    | FlagClosed

  predicate In(s: State, id: Id, phase: Phase) {
    id in s.calls && s.calls[id].phase == phase
  }

  predicate Enabled(s: State, step: Step) {
    !s.panicked &&
    match step
    case Begin => true
    case Register(id) => In(s, id, Fresh)
    case CheckSend(id) => In(s, id, Registered)
    case Write(id, _) => In(s, id, Sending)
    case DropFailed(id) => In(s, id, SendFailed)
    case Cancel(id) => In(s, id, Waiting)
    case DropCancelled(id) => In(s, id, Cancelling)
    case Take(id) => In(s, id, Waiting) && (s.calls[id].buffer.Some? || s.calls[id].shut)
    case Receive(_) => s.reader.Idle?
    case Put => s.reader.Holding? && s.reader.response.id in s.calls && s.calls[s.reader.response.id].buffer.None?
    case Shut => s.reader.Shutting? && s.reader.id in s.calls
    case EndOfStream => s.reader.Idle?
    case FlagExit => s.reaper.Running?
    case CloseExited => s.reaper.Flagged?
    case Drain => s.reaper.Exited?
    case FlagClosed => true
  }

  function To(s: State, id: Id, phase: Phase): State
    requires id in s.calls
  {
    s.(calls := s.calls[id := s.calls[id].(phase := phase)])
  }

  function Do(s: State, step: Step): State
    requires Enabled(s, step)
  {
    match step
    case Begin =>
      if s.closed then s else s.(next := s.next + 1, calls := s.calls[s.next := Call(Fresh, None, false)])
    case Register(id) => To(s, id, Registered).(pending := s.pending + {id})
    case CheckSend(id) => To(s, id, if s.closed then SendFailed else Sending)
    case Write(id, ok) => To(s, id, if ok then Waiting else SendFailed)
    case DropFailed(id) => To(s, id, Done(SendError)).(pending := s.pending - {id})
    case Cancel(id) => To(s, id, Cancelling)
    case DropCancelled(id) => To(s, id, Done(Cancelled)).(pending := s.pending - {id})
    case Take(id) =>
      var c := s.calls[id];
      s.(calls := s.calls[id :=
        c.(phase := Done(if c.buffer.Some? then Answered(c.buffer.value) else ServerGone), buffer := None)])
    case Receive(response) =>
      if response.id in s.pending then s.(pending := s.pending - {response.id}, reader := Holding(response)) else s
    case Put =>
      var id := s.reader.response.id;
      if s.calls[id].shut then s.(panicked := true)
      else s.(calls := s.calls[id := s.calls[id].(buffer := Some(s.reader.response))], reader := Shutting(id))
    case Shut =>
      var id := s.reader.id;
      if s.calls[id].shut then s.(panicked := true)
      else s.(calls := s.calls[id := s.calls[id].(shut := true)], reader := Idle)
    case EndOfStream => s.(reader := Ended)
    case FlagExit => s.(closed := true, reaper := Flagged)
    case CloseExited => s.(reaper := Exited)
    case Drain =>
      s.(calls := map id | id in s.calls :: if id in s.pending then s.calls[id].(shut := true) else s.calls[id],
         pending := {}, reaper := Drained,
         panicked := exists id :: id in s.pending && id in s.calls && s.calls[id].shut)
    case FlagClosed => s.(closed := true)
  }

  // ---- What every run keeps ---------------------------------------------------------------------------

  /** The reader has taken this call off the table and not yet closed its channel. */
  predicate Has(r: Reader, id: Id) {
    (r.Holding? && r.response.id == id) || (r.Shutting? && r.id == id)
  }

  /** One call's share of the invariant. */
  predicate GoodCall(s: State, id: Id)
    requires id in s.calls
  {
    var c := s.calls[id];
    && id < s.next
    // On the table: under way, its channel untouched, and nobody else's to resolve.
    && (id in s.pending ==> !c.phase.Fresh? && !c.phase.Done? && c.buffer.None? && !c.shut && !Has(s.reader, id))
    && (c.phase.Fresh? ==> id !in s.pending && c.buffer.None? && !c.shut && !Has(s.reader, id))
    // With the reader: not closed yet, and filled before it is closed.
    && (Has(s.reader, id) ==> !c.shut)
    && (s.reader.Holding? && s.reader.response.id == id ==> c.buffer.None?)
    && (s.reader.Shutting? && s.reader.id == id && !c.phase.Done? ==> c.buffer.Some?)
    // Only its own response.
    && (c.buffer.Some? ==> c.buffer.value.id == id)
    && (c.phase.Done? && c.phase.result.Answered? ==> c.phase.result.response.id == id)
    && (c.phase.Registered? ==> id in s.pending || Has(s.reader, id) || c.shut)
    // Past send's check: on the table while that is not drained, or with the reader, or resolved.
    && (c.phase.Sending? || c.phase.Waiting? ==> (id in s.pending && !s.reaper.Drained?) || Has(s.reader, id) || c.shut)
    // Closed and empty is what the reaper leaves, and nothing else.
    && (!c.phase.Done? && c.shut && c.buffer.None? ==> s.reaper.Drained?)
    && (c.phase.Done? && c.phase.result.ServerGone? ==> s.reaper.Drained?)
  }

  predicate Good(s: State) {
    && !s.panicked
    && (!s.reaper.Running? ==> s.closed)
    && s.pending <= s.calls.Keys
    && (s.reader.Holding? ==> s.reader.response.id in s.calls)
    && (s.reader.Shutting? ==> s.reader.id in s.calls)
    && forall id :: id in s.calls ==> GoodCall(s, id)
  }

  /** One call moves on; the table may gain or lose it. */
  lemma CallKeepsGood(s: State, step: Step, id: Id)
    requires Good(s) && Enabled(s, step) && id in s.calls
    requires step in {Register(id), CheckSend(id), DropFailed(id), Cancel(id), DropCancelled(id), Take(id)}
             || (step.Write? && step.id == id)
    ensures Good(Do(s, step))
  {
    var t := Do(s, step);
    forall other | other in t.calls ensures GoodCall(t, other) {
      assert GoodCall(s, other);
    }
  }

  lemma ReaderKeepsGood(s: State, step: Step)
    requires Good(s) && Enabled(s, step) && (step.Receive? || step.Put? || step.Shut? || step.EndOfStream?)
    ensures Good(Do(s, step))
  {
    var t := Do(s, step);
    forall id | id in t.calls ensures GoodCall(t, id) {
      assert GoodCall(s, id);
    }
  }

  lemma StepKeepsGood(s: State, step: Step)
    requires Good(s) && Enabled(s, step)
    ensures Good(Do(s, step))
  {
    match step {
      case Register(id) => CallKeepsGood(s, step, id);
      case CheckSend(id) => CallKeepsGood(s, step, id);
      case Write(id, _) => CallKeepsGood(s, step, id);
      case DropFailed(id) => CallKeepsGood(s, step, id);
      case Cancel(id) => CallKeepsGood(s, step, id);
      case DropCancelled(id) => CallKeepsGood(s, step, id);
      case Take(id) => CallKeepsGood(s, step, id);
      case Receive(_) => ReaderKeepsGood(s, step);
      case Put => ReaderKeepsGood(s, step);
      case Shut => ReaderKeepsGood(s, step);
      case EndOfStream => ReaderKeepsGood(s, step);
      case Drain =>
        assert forall id :: id in s.pending ==> GoodCall(s, id);
      case _ =>
        forall id | id in s.calls ensures GoodCall(Do(s, step), id) {
          assert GoodCall(s, id);
        }
    }
  }

  /** The states a run goes through. */
  predicate IsRun(states: seq<State>, steps: seq<Step>) {
    && |states| == |steps| + 1 && states[0] == Initial
    && forall i :: 0 <= i < |steps| ==> Enabled(states[i], steps[i]) && states[i + 1] == Do(states[i], steps[i])
  }

  lemma {:induction false} RunKeepsGood(states: seq<State>, steps: seq<Step>, i: nat)
    requires IsRun(states, steps) && i < |states|
    ensures Good(states[i])
  {
    if i > 0 {
      RunKeepsGood(states, steps, i - 1);
      StepKeepsGood(states[i - 1], steps[i - 1]);
    }
  }

  // ---- What it means ----------------------------------------------------------------------------------

  /** No channel is closed twice or sent to once closed, and a send never waits: whoever holds a channel
      took it off the table, so nobody else resolves it. */
  lemma ResolvedOnce(states: seq<State>, steps: seq<Step>, i: nat)
    requires IsRun(states, steps) && i < |states|
    ensures !states[i].panicked
    ensures states[i].reader.Holding? ==> Enabled(states[i], Put)
    ensures states[i].reader.Shutting? ==> Enabled(states[i], Shut)
    ensures var s := states[i];
      && (s.reader.Holding? ==> Untouched(s, s.reader.response.id))
      && (s.reader.Shutting? ==> s.reader.id in s.calls && !s.calls[s.reader.id].shut)
      && (forall id :: id in s.pending ==> Untouched(s, id))
  {
    RunKeepsGood(states, steps, i);
    var s := states[i];
    if s.reader.Holding? {
      assert GoodCall(s, s.reader.response.id);
    }
    if s.reader.Shutting? {
      assert GoodCall(s, s.reader.id);
    }
    forall id | id in s.pending ensures Untouched(s, id) {
      assert GoodCall(s, id);
    }
  }

  /** The call's channel is open and empty. */
  predicate Untouched(s: State, id: Id) {
    id in s.calls && !s.calls[id].shut && s.calls[id].buffer.None?
  }

  /** What Go panics at: sending to a closed channel, or closing one. */
  lemma PanicsIff(s: State, step: Step)
    requires Enabled(s, step)
    ensures Do(s, step).panicked <==>
            || (step.Put? && s.calls[s.reader.response.id].shut)
            || (step.Shut? && s.calls[s.reader.id].shut)
            || (step.Drain? && exists id :: id in s.pending && id in s.calls && s.calls[id].shut)
  {
  }

  /** A call gets the response to its own request, one that arrived while it was on the table; it is
      told the server is gone only once the process has exited; and when it returns it has left nothing on
      the table. */
  lemma OwnAnswers(states: seq<State>, steps: seq<Step>, i: nat, id: Id, result: Result)
    requires IsRun(states, steps) && i < |states| && In(states[i], id, Done(result))
    ensures result.Answered? ==> result.response.id == id && Arrived(states, steps, i, result.response)
    ensures result.ServerGone? ==> states[i].reaper.Drained? && states[i].closed
    ensures id !in states[i].pending
  {
    RunKeepsGood(states, steps, i);
    RunIsAccounted(states, steps, i);
    assert GoodCall(states[i], id) && Explained(states, steps, i, id, Done(result));
  }

  /** Once the reaper has drained the table, a call past send's check has its channel closed or in the
      reader's hands unless it has given up or returned, and a call not yet there will be refused. */
  lemma DrainedLeavesNoneBehind(states: seq<State>, steps: seq<Step>, i: nat, id: Id)
    requires IsRun(states, steps) && i < |states| && id in states[i].calls && states[i].reaper.Drained?
    ensures !states[i].panicked
    ensures var s, c := states[i], states[i].calls[id];
      && (c.phase.Sending? || c.phase.Waiting? ==> c.shut || Has(s.reader, id))
      && (c.phase.Registered? ==> Do(s, CheckSend(id)).calls[id].phase == SendFailed)
      && (c.phase.SendFailed? ==> Do(s, DropFailed(id)).calls[id].phase == Done(SendError))
  {
    RunKeepsGood(states, steps, i);
    assert GoodCall(states[i], id);
  }

  /** The states that follow when only the reader goes on, until it has let go of what it holds. */
  function ReaderDone(s: State): State
    requires Good(s)
  {
    if s.reader.Holding? then
      assert GoodCall(s, s.reader.response.id);
      Do(Do(s, Put), Shut)
    else if s.reader.Shutting? then
      assert GoodCall(s, s.reader.id);
      Do(s, Shut)
    else s
  }

  /** Nobody waits for ever on a dead process: after the drain, a waiting call can return at once, or
      after the at most two steps the reader has left with its channel, which nothing can stop. */
  lemma NoWaiterIsStuck(states: seq<State>, steps: seq<Step>, i: nat, id: Id)
    requires IsRun(states, steps) && i < |states| && In(states[i], id, Waiting) && states[i].reaper.Drained?
    ensures Good(states[i])
    ensures Enabled(states[i], Take(id)) || Has(states[i].reader, id)
    ensures Enabled(ReaderDone(states[i]), Take(id))
  {
    RunKeepsGood(states, steps, i);
    var s := states[i];
    assert GoodCall(s, id);
    if s.reader.Holding? {
      assert GoodCall(s, s.reader.response.id);
    } else if s.reader.Shutting? {
      assert GoodCall(s, s.reader.id);
    }
  }

  // ---- What becomes of a response ---------------------------------------------------------------------

  /** The call has been cancelled or was never sent: it waits for nothing. */
  predicate GivenUp(phase: Phase) {
    phase in {Cancelling, SendFailed, Done(Cancelled), Done(SendError)}
  }

  /** The response is on its way to its call, or there. */
  predicate Kept(s: State, r: Response) {
    && r.id in s.calls && r.id !in s.pending
    && (s.reader == Holding(r) || s.calls[r.id].buffer == Some(r) || s.calls[r.id].phase == Done(Answered(r))
         || GivenUp(s.calls[r.id].phase))
  }

  lemma StepKeepsResponse(s: State, step: Step, r: Response)
    requires Good(s) && Enabled(s, step) && Kept(s, r)
    ensures Kept(Do(s, step), r)
  {
    assert GoodCall(s, r.id);
    if s.reader.Holding? {
      assert GoodCall(s, s.reader.response.id);
    }
  }

  /** A response that arrives for a call on the table is never lost: from then on the reader has it, or
      the call's channel, or the call has returned it, unless the call was cancelled or not sent. */
  lemma {:induction false} ArrivedIsKept(states: seq<State>, steps: seq<Step>, i: nat, j: nat, r: Response)
    requires IsRun(states, steps) && i < j < |states| && steps[i] == Receive(r) && r.id in states[i].pending
    ensures Kept(states[j], r)
  {
    if j == i + 1 {
      RunKeepsGood(states, steps, i);
    } else {
      ArrivedIsKept(states, steps, i, j - 1, r);
      RunKeepsGood(states, steps, j - 1);
      StepKeepsResponse(states[j - 1], steps[j - 1], r);
    }
  }

  /** Steps that can follow one another from s, and the state they lead to. */
  predicate CanFollow(s: State, steps: seq<Step>)
    decreases |steps|
  {
    steps == [] || (Enabled(s, steps[0]) && CanFollow(Do(s, steps[0]), steps[1..]))
  }

  function After(s: State, steps: seq<Step>): State
    requires CanFollow(s, steps)
    decreases |steps|
  {
    if steps == [] then s else After(Do(s, steps[0]), steps[1..])
  }

  /** A waiting call gets the response that arrives for it. */
  lemma ResponseReachesCall(states: seq<State>, steps: seq<Step>, i: nat, r: Response)
    requires IsRun(states, steps) && i < |states| && states[i].reader.Idle?
    requires In(states[i], r.id, Waiting) && r.id in states[i].pending
    ensures CanFollow(states[i], [Receive(r), Put, Shut, Take(r.id)])
    ensures In(After(states[i], [Receive(r), Put, Shut, Take(r.id)]), r.id, Done(Answered(r)))
  {
    RunKeepsGood(states, steps, i);
    var s := states[i];
    assert GoodCall(s, r.id);
    var s1 := Do(s, Receive(r));
    var s2 := Do(s1, Put);
    var s3 := Do(s2, Shut);
    FourSteps(s, s1, s2, s3, Receive(r), Put, Shut, Take(r.id));
  }

  lemma FourSteps(s: State, s1: State, s2: State, s3: State, a: Step, b: Step, c: Step, d: Step)
    requires Enabled(s, a) && s1 == Do(s, a) && Enabled(s1, b) && s2 == Do(s1, b)
    requires Enabled(s2, c) && s3 == Do(s2, c) && Enabled(s3, d)
    ensures CanFollow(s, [a, b, c, d]) && After(s, [a, b, c, d]) == Do(s3, d)
  {
    OneStepFirst(s3, d, []);
    OneStepFirst(s2, c, [d]);
    OneStepFirst(s1, b, [c, d]);
    OneStepFirst(s, a, [b, c, d]);
    assert [d] + [] == [d] && [c] + [d] == [c, d] && [b] + [c, d] == [b, c, d] && [a] + [b, c, d] == [a, b, c, d];
  }

  lemma OneStepFirst(s: State, step: Step, rest: seq<Step>)
    requires Enabled(s, step) && CanFollow(Do(s, step), rest)
    ensures CanFollow(s, [step] + rest) && After(s, [step] + rest) == After(Do(s, step), rest)
  {
    assert ([step] + rest)[1..] == rest;
  }

  /** A response to no call on the table changes nothing. */
  lemma StrayResponse(s: State, r: Response)
    requires Enabled(s, Receive(r)) && r.id !in s.pending
    ensures Do(s, Receive(r)) == s
  {
  }

  // ---- Why a call returned what it did ----------------------------------------------------------------

  /** The step lets the call's send fail: there was nothing to write to, or it could not be written. */
  predicate FailsSend(s: State, step: Step, id: Id) {
    (step == CheckSend(id) && s.closed) || step == Write(id, false)
  }

  /** What a call's phase tells of the run so far. */
  predicate Explained(states: seq<State>, steps: seq<Step>, n: nat, id: Id, phase: Phase)
    requires n <= |steps| < |states|
  {
    match phase
    case Fresh => true
    case Registered => true
    case Sending => exists k :: 0 <= k < n && steps[k] == CheckSend(id) && !states[k].closed
    case SendFailed => exists k :: 0 <= k < n && FailsSend(states[k], steps[k], id)
    case Waiting => exists k :: 0 <= k < n && steps[k] == Write(id, true)
    case Cancelling => exists k :: 0 <= k < n && steps[k] == Cancel(id)
    case Done(SendError) => exists k :: 0 <= k < n && FailsSend(states[k], steps[k], id)
    case Done(Cancelled) => exists k :: 0 <= k < n && steps[k] == Cancel(id)
    case Done(Answered(r)) => Arrived(states, steps, n, r)
    case Done(ServerGone) => TakenByDrain(states, steps, n, id)
  }

  /** The response arrived while its call was on the table. */
  predicate Arrived(states: seq<State>, steps: seq<Step>, n: nat, r: Response)
    requires n <= |steps| < |states|
  {
    exists k :: 0 <= k < n && steps[k] == Receive(r) && r.id in states[k].pending
  }

  /** What is in the reader's hands or in a channel arrived, and what was closed empty was drained. */
  predicate Accounted(states: seq<State>, steps: seq<Step>, n: nat)
    requires n <= |steps| < |states|
  {
    var s := states[n];
    && (s.reader.Holding? ==> Arrived(states, steps, n, s.reader.response))
    && forall id :: id in s.calls ==>
         && Explained(states, steps, n, id, s.calls[id].phase)
         && (s.calls[id].buffer.Some? ==> Arrived(states, steps, n, s.calls[id].buffer.value))
         && ShutByDrain(states, steps, n, id)
  }

  /** A channel found closed and empty was closed by the drain. */
  predicate ShutByDrain(states: seq<State>, steps: seq<Step>, n: nat, id: Id)
    requires n <= |steps| < |states| && id in states[n].calls
  {
    var c := states[n].calls[id];
    c.shut && c.buffer.None? && !c.phase.Done? ==> TakenByDrain(states, steps, n, id)
  }

  /** The table was drained with the call on it. */
  predicate TakenByDrain(states: seq<State>, steps: seq<Step>, n: nat, id: Id)
    requires n <= |steps| < |states|
  {
    exists k :: 0 <= k < n && steps[k] == Drain && id in states[k].pending
  }

  lemma ExplainedLater(states: seq<State>, steps: seq<Step>, n: nat, id: Id, phase: Phase)
    requires n < |steps| < |states| && Explained(states, steps, n, id, phase)
    ensures Explained(states, steps, n + 1, id, phase)
  {
  }

  /** How one step moves a call on: which step it was, and what it found. */
  lemma PhaseStep(s: State, step: Step, id: Id)
    requires Good(s) && Enabled(s, step) && id in s.calls
    ensures id in Do(s, step).calls
    ensures var c, next := s.calls[id], Do(s, step).calls[id].phase;
      next == c.phase ||
      match next
      case Fresh => false
      case Registered => step == Register(id)
      case Sending => step == CheckSend(id) && !s.closed
      case SendFailed => FailsSend(s, step, id)
      case Waiting => step == Write(id, true)
      case Cancelling => step == Cancel(id)
      case Done(SendError) => step == DropFailed(id) && c.phase.SendFailed?
      case Done(Cancelled) => step == DropCancelled(id) && c.phase.Cancelling?
      case Done(Answered(r)) => step == Take(id) && c.phase.Waiting? && c.buffer == Some(r)
      case Done(ServerGone) => step == Take(id) && c.phase.Waiting? && c.buffer.None? && c.shut
  {
    assert GoodCall(s, id);
  }

  /** And how one step changes its channel. */
  lemma ChannelStep(s: State, step: Step, id: Id)
    requires Good(s) && Enabled(s, step) && id in s.calls
    ensures id in Do(s, step).calls
    ensures var c, d := s.calls[id], Do(s, step).calls[id];
      && (d.buffer == c.buffer || (d.buffer.None? && d.phase.Done?)
           || (d.buffer.Some? && step == Put && s.reader == Holding(d.buffer.value)))
      && (d.shut && !c.shut ==> (step == Shut && s.reader == Shutting(id)) || (step == Drain && id in s.pending))
  {
    assert GoodCall(s, id);
  }

  lemma Happened(states: seq<State>, steps: seq<Step>, n: nat)
    requires IsRun(states, steps) && n < |steps|
    ensures Enabled(states[n], steps[n]) && states[n + 1] == Do(states[n], steps[n])
  {
  }

  lemma NewCall(s: State, step: Step, id: Id)
    requires Good(s) && Enabled(s, step) && id !in s.calls && id in Do(s, step).calls
    ensures Do(s, step).calls[id] == Call(Fresh, None, false)
  {
  }

  lemma OneCallExplained(states: seq<State>, steps: seq<Step>, n: nat, id: Id)
    requires IsRun(states, steps) && n < |steps| && Good(states[n])
    requires id in states[n].calls && id in states[n + 1].calls
    requires Explained(states, steps, n, id, states[n].calls[id].phase)
    requires states[n].calls[id].buffer.Some? ==> Arrived(states, steps, n, states[n].calls[id].buffer.value)
    requires ShutByDrain(states, steps, n, id)
    ensures Explained(states, steps, n + 1, id, states[n + 1].calls[id].phase)
  {
    Happened(states, steps, n);
    PhaseStep(states[n], steps[n], id);
    ExplainedLater(states, steps, n, id, states[n].calls[id].phase);
  }

  lemma OneChannelAccounted(states: seq<State>, steps: seq<Step>, n: nat, id: Id)
    requires IsRun(states, steps) && n < |steps| && Good(states[n])
    requires id in states[n].calls && id in states[n + 1].calls
    requires states[n].reader.Holding? ==> Arrived(states, steps, n, states[n].reader.response)
    requires states[n].calls[id].buffer.Some? ==> Arrived(states, steps, n, states[n].calls[id].buffer.value)
    requires ShutByDrain(states, steps, n, id)
    ensures states[n + 1].calls[id].buffer.Some? ==> Arrived(states, steps, n + 1, states[n + 1].calls[id].buffer.value)
    ensures ShutByDrain(states, steps, n + 1, id)
  {
    Happened(states, steps, n);
    ChannelStep(states[n], steps[n], id);
    assert GoodCall(states[n], id);
    assert GoodCall(Do(states[n], steps[n]), id) by { StepKeepsGood(states[n], steps[n]); }
  }

  lemma ReaderAccounted(states: seq<State>, steps: seq<Step>, n: nat)
    requires IsRun(states, steps) && n < |steps|
    requires states[n].reader.Holding? ==> Arrived(states, steps, n, states[n].reader.response)
    ensures states[n + 1].reader.Holding? ==> Arrived(states, steps, n + 1, states[n + 1].reader.response)
  {
    Happened(states, steps, n);
  }

  lemma {:induction false} RunIsAccounted(states: seq<State>, steps: seq<Step>, n: nat)
    requires IsRun(states, steps) && n <= |steps|
    ensures Accounted(states, steps, n)
  {
    if n > 0 {
      RunIsAccounted(states, steps, n - 1);
      RunKeepsGood(states, steps, n - 1);
      Happened(states, steps, n - 1);
      ReaderAccounted(states, steps, n - 1);
      forall id | id in states[n].calls
        ensures Explained(states, steps, n, id, states[n].calls[id].phase) && ShutByDrain(states, steps, n, id)
        ensures states[n].calls[id].buffer.Some? ==> Arrived(states, steps, n, states[n].calls[id].buffer.value)
      {
        if id in states[n - 1].calls {
          OneCallExplained(states, steps, n - 1, id);
          OneChannelAccounted(states, steps, n - 1, id);
        } else {
          NewCall(states[n - 1], steps[n - 1], id);
        }
      }
    }
  }

  /** Why a call returned what it did. An answer is a response that arrived while the call was on the
      table; the server was gone when the table was drained with the call on it; cancelled and not sent
      are what they say. */
  lemma ResultsHaveTheirCause(states: seq<State>, steps: seq<Step>, n: nat, id: Id, result: Result)
    requires IsRun(states, steps) && n <= |steps| && In(states[n], id, Done(result))
    ensures match result
      case Answered(r) => r.id == id && exists k :: 0 <= k < n && steps[k] == Receive(r) && id in states[k].pending
      case ServerGone => TakenByDrain(states, steps, n, id)
      case Cancelled => exists k :: 0 <= k < n && steps[k] == Cancel(id)
      case SendError => exists k :: 0 <= k < n && FailsSend(states[k], steps[k], id)
  {
    RunIsAccounted(states, steps, n);
    OwnAnswers(states, steps, n, id, result);
  }

  /** Where a call goes that was cancelled, or whose send failed. */
  predicate EndsSo(phase: Phase, cancelled: bool) {
    if cancelled then phase == Cancelling || phase == Done(Cancelled)
    else phase == SendFailed || phase == Done(SendError)
  }

  lemma CauseStep(s: State, step: Step, id: Id)
    requires Enabled(s, step) && (FailsSend(s, step, id) || step == Cancel(id))
    ensures id in Do(s, step).calls && EndsSo(Do(s, step).calls[id].phase, step == Cancel(id))
  {
  }

  /** And conversely: a call whose send failed, or that was cancelled, returns that and nothing else. */
  lemma {:induction false} CausesHaveTheirResult(states: seq<State>, steps: seq<Step>, k: nat, n: nat, id: Id)
    requires IsRun(states, steps) && k < n <= |steps|
    requires FailsSend(states[k], steps[k], id) || steps[k] == Cancel(id)
    ensures id in states[n].calls && EndsSo(states[n].calls[id].phase, steps[k] == Cancel(id))
  {
    Happened(states, steps, n - 1);
    if k + 1 < n {
      CausesHaveTheirResult(states, steps, k, n - 1, id);
      RunKeepsGood(states, steps, n - 1);
      PhaseStep(states[n - 1], steps[n - 1], id);
    } else {
      CauseStep(states[k], steps[k], id);
    }
  }

  /** The step takes the call off the table. */
  predicate Removes(step: Step, id: Id) {
    step in {DropFailed(id), DropCancelled(id), Drain} || (step.Receive? && step.response.id == id)
  }

  predicate StaysOn(steps: seq<Step>, k: nat, n: nat, id: Id)
    requires n <= |steps|
  {
    forall m :: k < m < n ==> !Removes(steps[m], id)
  }

  /** A call is on the table from its registration until a response arrives for it, it gives up, or the
      table is drained. */
  lemma {:induction false} OnTheTableIff(states: seq<State>, steps: seq<Step>, n: nat, id: Id)
    requires IsRun(states, steps) && n <= |steps|
    ensures id in states[n].pending <==> exists k :: 0 <= k < n && steps[k] == Register(id) && StaysOn(steps, k, n, id)
  {
    if n > 0 {
      OnTheTableIff(states, steps, n - 1, id);
      Happened(states, steps, n - 1);
      assert StaysOn(steps, n - 1, n, id);
      forall k: nat | k < n - 1 && StaysOn(steps, k, n - 1, id) && !Removes(steps[n - 1], id)
        ensures StaysOn(steps, k, n, id)
      {
      }
      assert forall k: nat :: k < n - 1 && StaysOn(steps, k, n, id) ==>
               StaysOn(steps, k, n - 1, id) && !Removes(steps[n - 1], id);
    }
  }

  /** The client is closed from Close, or the process's exit being noticed, on. */
  lemma {:induction false} ClosedIff(states: seq<State>, steps: seq<Step>, n: nat)
    requires IsRun(states, steps) && n <= |steps|
    ensures states[n].closed <==> exists k :: 0 <= k < n && (steps[k] == FlagClosed || steps[k] == FlagExit)
  {
    if n > 0 {
      ClosedIff(states, steps, n - 1);
      Happened(states, steps, n - 1);
    }
  }

  // ---- What can happen ----------------------------------------------------------------------------------

  /** Nobody is blocked but a call that waits for its answer, and that one can always be cancelled: every
      other call, the reader and the reaper can take their next step at any moment of any run. */
  lemma NobodyIsBlocked(states: seq<State>, steps: seq<Step>, i: nat)
    requires IsRun(states, steps) && i < |states|
    ensures var s := states[i];
      && Enabled(s, Begin) && Enabled(s, FlagClosed)
      && (forall id :: id in s.calls ==>
           match s.calls[id].phase
           case Fresh => Enabled(s, Register(id))
           case Registered => Enabled(s, CheckSend(id))
           case Sending => Enabled(s, Write(id, true)) && Enabled(s, Write(id, false))
           case SendFailed => Enabled(s, DropFailed(id))
           case Waiting =>
             Enabled(s, Cancel(id)) && (s.calls[id].buffer.Some? || s.calls[id].shut ==> Enabled(s, Take(id)))
           case Cancelling => Enabled(s, DropCancelled(id))
           case Done(_) => true)
      && (match s.reader
          case Idle => Enabled(s, EndOfStream) && forall r :: Enabled(s, Receive(r))
          case Holding(_) => Enabled(s, Put)
          case Shutting(_) => Enabled(s, Shut)
          case Ended => true)
      && (match s.reaper
          case Running => Enabled(s, FlagExit)
          case Flagged => Enabled(s, CloseExited)
          case Exited => Enabled(s, Drain)
          case Drained => true)
  {
    RunKeepsGood(states, steps, i);
    ResolvedOnce(states, steps, i);
  }

  /** A call made once the client is closed gets no channel; any other gets one that no call had. */
  lemma CallsBegin(states: seq<State>, steps: seq<Step>, i: nat)
    requires IsRun(states, steps) && i < |steps| && steps[i] == Begin
    ensures var s, t := states[i], states[i + 1];
      if s.closed then t == s
      else s.next !in s.calls && t == s.(next := s.next + 1, calls := s.calls[s.next := Call(Fresh, None, false)])
  {
    Happened(states, steps, i);
    RunKeepsGood(states, steps, i);
    assert states[i].next in states[i].calls ==> GoodCall(states[i], states[i].next);
  }

  lemma OneStepMore(steps: seq<Step>, n: nat, step: Step)
    requires n < |steps|
    ensures step in steps[..n + 1] <==> step in steps[..n] || step == steps[n]
  {
    assert steps[..n + 1] == steps[..n] + [steps[n]];
  }

  lemma ReapStep(s: State, step: Step)
    requires Enabled(s, step)
    ensures Do(s, step).reader.Ended? <==> s.reader.Ended? || step.EndOfStream?
    ensures Do(s, step).reaper ==
            if step.FlagExit? then Flagged else if step.CloseExited? then Exited else if step.Drain? then Drained
            else s.reaper
  {
  }

  /** The reader stops for good at the end of the stream, and the reaper has drained the table once it got
      there. */
  lemma {:induction false} EndedAndDrainedIff(states: seq<State>, steps: seq<Step>, n: nat)
    requires IsRun(states, steps) && n <= |steps|
    ensures states[n].reader.Ended? <==> EndOfStream in steps[..n]
    ensures states[n].reaper.Drained? <==> Drain in steps[..n]
    ensures !states[n].reaper.Running? <==> FlagExit in steps[..n]
    ensures states[n].reaper.Exited? || states[n].reaper.Drained? <==> CloseExited in steps[..n]
  {
    if n > 0 {
      EndedAndDrainedIff(states, steps, n - 1);
      Happened(states, steps, n - 1);
      ReapStep(states[n - 1], steps[n - 1]);
      OneStepMore(steps, n - 1, EndOfStream);
      OneStepMore(steps, n - 1, Drain);
      OneStepMore(steps, n - 1, FlagExit);
      OneStepMore(steps, n - 1, CloseExited);
    }
  }
}
