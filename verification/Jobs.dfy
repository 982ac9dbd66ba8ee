/** The job table: keyed runs that later callers join, completions, and waiting for them, in every
    interleaving. Each step is one critical section or one access to a job's done channel. */
module Jobs {
  import opened Order

  type Id = nat
  type Tid = nat

  datatype Status = Running | Completed

  datatype Verdict = Verdict(output: string, failed: bool)

  /** Where a caller of StartOnce, CompleteWithResult or Wait has got to. */
  datatype Thread =
    // StartOnce
    | Looked(key: string)
    | Begun(key: string, id: Id)
    | Started(id: Id)
    | Joined(id: Id)
    // CompleteWithResult
    | Closing(id: Id)
    | MustClose(id: Id)
    | Finished
    // Wait
    | Waiting(id: Id)
    | DoneSeen(id: Id)
    | Waited(id: Id, verdict: Option<Verdict>, finished: bool)

  /** done says of each started job whether its channel is closed. panicked: a closed channel was closed. */
  datatype State = State(next: Id, status: map<Id, Status>, verdicts: map<Id, Verdict>, done: map<Id, bool>,
                         running: map<string, Id>, threads: map<Tid, Thread>, panicked: bool)

  const Initial := State(1, map[], map[], map[], map[], map[], false)

  datatype Step =
    | Look(tid: Tid, key: string)
    | Start(tid: Tid)
    | Record(tid: Tid)
    | Complete(tid: Tid, id: Id, verdict: Verdict)
    | CheckDone(tid: Tid)
    | CloseDone(tid: Tid)
    | Wait(tid: Tid, id: Id)
    | SeeDone(tid: Tid)
    | ReadOutput(tid: Tid)
    | TimeOut(tid: Tid)

  predicate At(s: State, tid: Tid, thread: Thread) {
    tid in s.threads && s.threads[tid] == thread
  }

  predicate Enabled(s: State, step: Step) {
    !s.panicked &&
    match step
    case Look(tid, _) => tid !in s.threads
    case Start(tid) => tid in s.threads && s.threads[tid].Looked?
    case Record(tid) => tid in s.threads && s.threads[tid].Begun?
    case Complete(tid, _, _) => tid !in s.threads
    case CheckDone(tid) => tid in s.threads && s.threads[tid].Closing?
    case CloseDone(tid) => tid in s.threads && s.threads[tid].MustClose?
    case Wait(tid, _) => tid !in s.threads
    case SeeDone(tid) => tid in s.threads && s.threads[tid].Waiting? && IsDone(s, s.threads[tid].id)
    case ReadOutput(tid) => tid in s.threads && s.threads[tid].DoneSeen?
    case TimeOut(tid) => tid in s.threads && s.threads[tid].Waiting?
  }

  predicate IsDone(s: State, id: Id) {
    id in s.done && s.done[id]
  }

  function VerdictOf(s: State, id: Id): Option<Verdict> {
    if id in s.verdicts then Some(s.verdicts[id]) else None
  }

  function To(s: State, tid: Tid, thread: Thread): State {
    s.(threads := s.threads[tid := thread])
  }

  function Do(s: State, step: Step): State
    requires Enabled(s, step)
  {
    match step
    case Look(tid, key) =>
      if key in s.running && key != "" then To(s, tid, Joined(s.running[key])) else To(s, tid, Looked(key))
    case Start(tid) =>
      To(s, tid, Begun(s.threads[tid].key, s.next))
        .(next := s.next + 1, status := s.status[s.next := Running], done := s.done[s.next := false])
    case Record(tid) =>
      var Begun(key, id) := s.threads[tid];
      var t := To(s, tid, Started(id));
      if key != "" && id in s.status && s.status[id].Running? then t.(running := s.running[key := id]) else t
    case Complete(tid, id, verdict) =>
      To(s, tid, if id in s.done then Closing(id) else Finished)
        .(status := s.status[id := Completed], verdicts := s.verdicts[id := verdict],
          running := map key | key in s.running && s.running[key] != id :: s.running[key])
    case CheckDone(tid) => To(s, tid, if IsDone(s, s.threads[tid].id) then Finished else MustClose(s.threads[tid].id))
    case CloseDone(tid) =>
      var id := s.threads[tid].id;
      if IsDone(s, id) then s.(panicked := true) else To(s, tid, Finished).(done := s.done[id := true])
    case Wait(tid, id) =>
      if id in s.done then To(s, tid, Waiting(id))
      else To(s, tid, Waited(id, VerdictOf(s, id), id in s.status && s.status[id].Completed?))
    case SeeDone(tid) => To(s, tid, DoneSeen(s.threads[tid].id))
    case ReadOutput(tid) => To(s, tid, Waited(s.threads[tid].id, VerdictOf(s, s.threads[tid].id), true))
    case TimeOut(tid) => To(s, tid, Waited(s.threads[tid].id, VerdictOf(s, s.threads[tid].id), false))
  }

  // ---- What every run keeps ---------------------------------------------------------------------------

  predicate IsCompleted(s: State, id: Id) {
    id in s.status && s.status[id].Completed?
  }

  predicate HasCompleted(s: State, id: Id) {
    IsCompleted(s, id) && id in s.verdicts
  }

  predicate GoodThread(s: State, t: Thread) {
    match t
    case Begun(_, id) => id in s.done
    case Closing(id) => id in s.done && HasCompleted(s, id)
    case MustClose(id) => id in s.done && HasCompleted(s, id)
    case DoneSeen(id) => id in s.done && HasCompleted(s, id)
    case Waiting(id) => id in s.done
    case Waited(_, verdict, finished) => finished ==> verdict.Some?
    case _ => true
  }

  /** The key table names running jobs only, and a job's channel is closed only once its verdict is
      stored. */
  predicate Good(s: State) {
    && (forall key :: key in s.running ==>
          && key != "" && s.running[key] in s.done
          && s.running[key] in s.status && s.status[s.running[key]].Running?)
    && (forall id :: id in s.done ==> id < s.next && id in s.status)
    && (forall id :: id in s.done && IsDone(s, id) ==> HasCompleted(s, id))
    && (forall id :: id in s.status && s.status[id].Completed? ==> id in s.verdicts)
    && forall tid :: tid in s.threads ==> GoodThread(s, s.threads[tid])
  }

  lemma CompletedStays(s: State, step: Step, id: Id)
    requires Good(s) && Enabled(s, step) && id in s.done
    ensures id in Do(s, step).done && (HasCompleted(s, id) ==> HasCompleted(Do(s, step), id))
  {
  }

  lemma OtherThreadsStayGood(s: State, step: Step, t: Thread)
    requires Good(s) && Enabled(s, step) && GoodThread(s, t)
    ensures GoodThread(Do(s, step), t)
  {
    if t.Begun? || t.Closing? || t.MustClose? || t.DoneSeen? || t.Waiting? {
      CompletedStays(s, step, t.id);
    }
  }

  lemma StarterStaysGood(s: State, step: Step)
    requires Good(s) && Enabled(s, step) && (step.Look? || step.Start? || step.Record?)
    ensures step.tid in Do(s, step).threads && GoodThread(Do(s, step), Do(s, step).threads[step.tid])
  {
    assert step.tid in s.threads ==> GoodThread(s, s.threads[step.tid]);
  }

  lemma CompleterStaysGood(s: State, step: Step)
    requires Good(s) && Enabled(s, step) && (step.Complete? || step.CheckDone? || step.CloseDone?)
    ensures step.tid in Do(s, step).threads && GoodThread(Do(s, step), Do(s, step).threads[step.tid])
  {
    assert step.tid in s.threads ==> GoodThread(s, s.threads[step.tid]);
  }

  lemma WaiterStaysGood(s: State, step: Step)
    requires Good(s) && Enabled(s, step) && (step.Wait? || step.SeeDone? || step.ReadOutput? || step.TimeOut?)
    ensures step.tid in Do(s, step).threads && GoodThread(Do(s, step), Do(s, step).threads[step.tid])
  {
    assert step.tid in s.threads ==> GoodThread(s, s.threads[step.tid]);
  }

  lemma OnlyOneMoves(s: State, step: Step, tid: Tid)
    requires Enabled(s, step) && tid != step.tid
    ensures tid in Do(s, step).threads <==> tid in s.threads
    ensures tid in s.threads ==> Do(s, step).threads[tid] == s.threads[tid]
  {
    match step {
      case Look(_, key) => assert Do(s, step).threads.Keys == s.threads.Keys + {step.tid};
      case Complete(_, id, _) => assert Do(s, step).threads.Keys == s.threads.Keys + {step.tid};
      case Wait(_, _) => assert Do(s, step).threads.Keys == s.threads.Keys + {step.tid};
      case _ =>
    }
  }

  lemma ThreadsStayGood(s: State, step: Step, tid: Tid)
    requires Good(s) && Enabled(s, step) && tid in Do(s, step).threads
    ensures GoodThread(Do(s, step), Do(s, step).threads[tid])
  {
    if tid != step.tid {
      OnlyOneMoves(s, step, tid);
      OtherThreadsStayGood(s, step, s.threads[tid]);
    } else if step.Look? || step.Start? || step.Record? {
      StarterStaysGood(s, step);
    } else if step.Complete? || step.CheckDone? || step.CloseDone? {
      CompleterStaysGood(s, step);
    } else {
      WaiterStaysGood(s, step);
    }
  }

  lemma JobsStayGood(s: State, step: Step, id: Id)
    requires Good(s) && Enabled(s, step) && id in Do(s, step).done
    ensures id < Do(s, step).next && id in Do(s, step).status
    ensures IsDone(Do(s, step), id) ==> HasCompleted(Do(s, step), id)
  {
    assert id in s.done ==> id < s.next;
    assert IsDone(s, id) ==> HasCompleted(s, id);
    if step.CloseDone? {
      assert GoodThread(s, s.threads[step.tid]);
    }
  }

  lemma KeysStayGood(s: State, step: Step, key: string)
    requires Good(s) && Enabled(s, step) && key in Do(s, step).running
    ensures var t, id := Do(s, step), Do(s, step).running[key];
      key != "" && id in t.done && id in t.status && t.status[id].Running?
  {
    assert key in s.running ==> s.running[key] in s.done && s.running[key] < s.next;
    if step.Record? {
      assert GoodThread(s, s.threads[step.tid]);
    }
  }

  lemma StepKeepsGood(s: State, step: Step)
    requires Good(s) && Enabled(s, step)
    ensures Good(Do(s, step))
  {
    var t := Do(s, step);
    forall tid | tid in t.threads ensures GoodThread(t, t.threads[tid]) {
      ThreadsStayGood(s, step, tid);
    }
    forall id | id in t.done ensures id < t.next && id in t.status && (IsDone(t, id) ==> HasCompleted(t, id)) {
      JobsStayGood(s, step, id);
    }
    forall key | key in t.running
      ensures key != "" && t.running[key] in t.done && t.running[key] in t.status && t.status[t.running[key]].Running?
    {
      KeysStayGood(s, step, key);
    }
  }

  predicate IsRun(states: seq<State>, steps: seq<Step>) {
    && |states| == |steps| + 1 && states[0] == Initial
    && forall i :: 0 <= i < |steps| ==> Enabled(states[i], steps[i]) && states[i + 1] == Do(states[i], steps[i])
  }

  lemma {:induction false} RunKeepsGood(states: seq<State>, steps: seq<Step>, i: nat)
    requires IsRun(states, steps) && i < |states|
    ensures Good(states[i])
  {
    if i > 0 {
      RunKeepsGood(states, steps, i - 1);
      StepKeepsGood(states[i - 1], steps[i - 1]);
    }
  }

  // ---- What it means ----------------------------------------------------------------------------------

  /** StartOnce never joins a run that had completed before it looked, and does join one on the table. */
  lemma JoinsARunningJob(states: seq<State>, steps: seq<Step>, i: nat, tid: Tid, key: string)
    requires IsRun(states, steps) && i < |steps| && steps[i] == Look(tid, key)
    ensures var s, t := states[i], states[i + 1].threads[tid];
      && (t.Joined? <==> key in s.running)
      && (!t.Joined? ==> t == Looked(key))
      && (t.Joined? ==> t.id == s.running[key] && t.id in s.status && s.status[t.id].Running?)
  {
    RunKeepsGood(states, steps, i);
  }

  lemma FinishedStep(s: State, step: Step, tid: Tid)
    requires Good(s) && Enabled(s, step) && tid in Do(s, step).threads
    requires Do(s, step).threads[tid].Waited? && Do(s, step).threads[tid].finished
              && !At(s, tid, Do(s, step).threads[tid])
    ensures var w := Do(s, step).threads[tid]; HasCompleted(s, w.id) && w.verdict == Some(s.verdicts[w.id])
  {
    assert tid in s.threads ==> GoodThread(s, s.threads[tid]);
  }

  /** Wait reports finished only for a completed job, and then with what its last completion said. */
  lemma FinishedHasAVerdict(states: seq<State>, steps: seq<Step>, i: nat, tid: Tid)
    requires IsRun(states, steps) && i < |steps|
    requires tid in states[i + 1].threads && states[i + 1].threads[tid].Waited? && states[i + 1].threads[tid].finished
    requires !At(states[i], tid, states[i + 1].threads[tid])
    ensures var s, w := states[i], states[i + 1].threads[tid];
      HasCompleted(s, w.id) && w.verdict == Some(s.verdicts[w.id])
    ensures var w := states[i + 1].threads[tid];
      exists k :: 0 <= k < i && Completes(steps[k], w.id) && w.verdict == Some(steps[k].verdict)
                    && NoneAfter(steps, k, i, w.id)
  {
    RunKeepsGood(states, steps, i);
    FinishedStep(states[i], steps[i], tid);
    StoredIsLastVerdict(states, steps, i, states[i + 1].threads[tid].id);
  }

  /** What the last of the first n steps to complete the job said of it, if one did. */
  predicate IsLastVerdict(steps: seq<Step>, n: nat, id: Id, verdict: Option<Verdict>)
    requires n <= |steps|
  {
    match verdict
    case None => forall k :: 0 <= k < n ==> !Completes(steps[k], id)
    case Some(v) =>
      exists k :: 0 <= k < n && Completes(steps[k], id) && steps[k].verdict == v && NoneAfter(steps, k, n, id)
  }

  predicate Completes(step: Step, id: Id) {
    step.Complete? && step.id == id
  }

  predicate NoneAfter(steps: seq<Step>, k: nat, n: nat, id: Id)
    requires n <= |steps|
  {
    forall m :: k < m < n ==> !Completes(steps[m], id)
  }

  lemma Happened(states: seq<State>, steps: seq<Step>, n: nat)
    requires IsRun(states, steps) && n < |steps|
    ensures Enabled(states[n], steps[n]) && states[n + 1] == Do(states[n], steps[n])
  {
  }

  lemma VerdictStep(s: State, step: Step, id: Id)
    requires Enabled(s, step)
    ensures VerdictOf(Do(s, step), id) == if Completes(step, id) then Some(step.verdict) else VerdictOf(s, id)
  {
  }

  /** What is stored of a job is what its last completion said. */
  lemma {:induction false} StoredIsLastVerdict(states: seq<State>, steps: seq<Step>, n: nat, id: Id)
    requires IsRun(states, steps) && n <= |steps|
    ensures IsLastVerdict(steps, n, id, VerdictOf(states[n], id))
  {
    if n > 0 {
      StoredIsLastVerdict(states, steps, n - 1, id);
      Happened(states, steps, n - 1);
      VerdictStep(states[n - 1], steps[n - 1], id);
      LastVerdictStep(steps, n - 1, id, VerdictOf(states[n - 1], id));
    }
  }

  lemma LastVerdictStep(steps: seq<Step>, n: nat, id: Id, verdict: Option<Verdict>)
    requires n < |steps| && IsLastVerdict(steps, n, id, verdict)
    ensures IsLastVerdict(steps, n + 1, id, if Completes(steps[n], id) then Some(steps[n].verdict) else verdict)
  {
    if Completes(steps[n], id) {
      assert NoneAfter(steps, n, n + 1, id);
    } else if verdict.Some? {
      var k :| 0 <= k < n && Completes(steps[k], id) && steps[k].verdict == verdict.value && NoneAfter(steps, k, n, id);
      assert NoneAfter(steps, k, n + 1, id);
    }
  }

  lemma UnstartedStep(s: State, step: Step, id: Id)
    requires Enabled(s, step) && id !in Do(s, step).done
    ensures id !in s.done
    ensures (VerdictOf(s, id).Some? <==> IsCompleted(s, id)) ==>
              (VerdictOf(Do(s, step), id).Some? <==> IsCompleted(Do(s, step), id))
  {
  }

  /** A job nobody started counts as completed once someone completed it. */
  lemma {:induction false} UnstartedHasVerdictIff(states: seq<State>, steps: seq<Step>, n: nat, id: Id)
    requires IsRun(states, steps) && n <= |steps| && id !in states[n].done
    ensures VerdictOf(states[n], id).Some? <==> IsCompleted(states[n], id)
  {
    if n > 0 {
      Happened(states, steps, n - 1);
      UnstartedStep(states[n - 1], steps[n - 1], id);
      UnstartedHasVerdictIff(states, steps, n - 1, id);
    }
  }

  /** Wait's answer about a job is what the last completion of it before then said, and none if there was
      none; and a wait that reports the job finished has one. It is reported unfinished when the wait
      timed out, or when no such job was ever started and none completed. */
  lemma WaitReportsTheLastVerdict(states: seq<State>, steps: seq<Step>, i: nat, tid: Tid)
    requires IsRun(states, steps) && i < |steps| && steps[i].tid == tid && tid in states[i + 1].threads
    requires states[i + 1].threads[tid].Waited?
    ensures var w := states[i + 1].threads[tid];
      && IsLastVerdict(steps, i, w.id, w.verdict)
      && (w.finished <==> w.verdict.Some? && !steps[i].TimeOut?)
      && (steps[i].TimeOut? || steps[i].ReadOutput? || (steps[i] == Wait(tid, w.id) && w.id !in states[i].done))
  {
    RunKeepsGood(states, steps, i);
    Happened(states, steps, i);
    var id := states[i + 1].threads[tid].id;
    StoredIsLastVerdict(states, steps, i, id);
    if id !in states[i].done {
      UnstartedHasVerdictIff(states, steps, i, id);
    }
    assert tid in states[i].threads ==> GoodThread(states[i], states[i].threads[tid]);
  }

  /** A job is started by Start, with an identifier of its own. */
  lemma StartIsNew(states: seq<State>, steps: seq<Step>, i: nat, tid: Tid)
    requires IsRun(states, steps) && i < |steps| && steps[i] == Start(tid)
    ensures tid in states[i].threads && states[i].threads[tid].Looked?
    ensures var s, t := states[i], states[i + 1];
      && s.next !in s.done && s.next in t.done && !t.done[s.next] && !IsCompleted(t, s.next)
      && t.threads[tid] == Begun(s.threads[tid].key, s.next)
  {
    RunKeepsGood(states, steps, i);
    Happened(states, steps, i);
  }

  /** A started job that has completed stays completed. */
  lemma {:induction false} CompletedForGood(states: seq<State>, steps: seq<Step>, i: nat, j: nat, id: Id)
    requires IsRun(states, steps) && i <= j < |states| && id in states[i].done && HasCompleted(states[i], id)
    ensures id in states[j].done && HasCompleted(states[j], id)
  {
    if i < j {
      CompletedForGood(states, steps, i, j - 1, id);
      RunKeepsGood(states, steps, j - 1);
      Happened(states, steps, j - 1);
      CompletedStays(states[j - 1], steps[j - 1], id);
    }
  }

  /** The step puts the job on the table under the key: it was started for it, and has not completed. */
  predicate Records(s: State, step: Step, key: string, id: Id) {
    && key != "" && step.Record? && At(s, step.tid, Begun(key, id))
    && id in s.status && s.status[id].Running?
  }

  ghost predicate KeepsKey(states: seq<State>, steps: seq<Step>, k: nat, n: nat, key: string, id: Id)
    requires n <= |steps| < |states|
  {
    forall m :: k < m < n ==> !Completes(steps[m], id) && forall other :: !Records(states[m], steps[m], key, other)
  }

  lemma RecordStep(s: State, step: Step, key: string, id: Id)
    requires Good(s) && Enabled(s, step)
    ensures (key in Do(s, step).running && Do(s, step).running[key] == id) <==>
            || Records(s, step, key, id)
            || (key in s.running && s.running[key] == id && !Completes(step, id)
                 && forall other :: !Records(s, step, key, other))
  {
    if step.Record? {
      var t := s.threads[step.tid];
      assert Records(s, step, key, t.id) || forall other :: !Records(s, step, key, other);
    }
  }

  /** One of the first n steps put the job on the table, and none has taken it off since. */
  ghost predicate Held(states: seq<State>, steps: seq<Step>, n: nat, key: string, id: Id)
    requires n <= |steps| < |states|
  {
    exists k :: 0 <= k < n && Records(states[k], steps[k], key, id) && KeepsKey(states, steps, k, n, key, id)
  }

  lemma HeldStep(states: seq<State>, steps: seq<Step>, n: nat, key: string, id: Id)
    requires n < |steps| < |states|
    ensures Held(states, steps, n + 1, key, id) <==>
            || Records(states[n], steps[n], key, id)
            || (Held(states, steps, n, key, id) && !Completes(steps[n], id)
                 && forall other :: !Records(states[n], steps[n], key, other))
  {
    assert KeepsKey(states, steps, n, n + 1, key, id);
    forall k: nat | k < n
      ensures KeepsKey(states, steps, k, n + 1, key, id) <==>
              && KeepsKey(states, steps, k, n, key, id) && !Completes(steps[n], id)
              && forall other :: !Records(states[n], steps[n], key, other)
    {
    }
  }

  /** A job is joined under a key from when StartOnce records it until it completes or another job is
      recorded under the key. */
  lemma {:induction false} JoinedUntilCompleteIff(states: seq<State>, steps: seq<Step>, n: nat, key: string, id: Id)
    requires IsRun(states, steps) && n <= |steps|
    ensures (key in states[n].running && states[n].running[key] == id) <==> Held(states, steps, n, key, id)
  {
    if n > 0 {
      JoinedUntilCompleteIff(states, steps, n - 1, key, id);
      Happened(states, steps, n - 1);
      RunKeepsGood(states, steps, n - 1);
      RecordStep(states[n - 1], steps[n - 1], key, id);
      HeldStep(states, steps, n - 1, key, id);
    }
  }

  /** The caller who started a job gets its identifier, whether it goes on the table or not. */
  lemma StarterGetsItsJob(states: seq<State>, steps: seq<Step>, i: nat, tid: Tid)
    requires IsRun(states, steps) && i < |steps| && steps[i] == Record(tid)
    ensures tid in states[i].threads && states[i].threads[tid].Begun?
    ensures At(states[i + 1], tid, Started(states[i].threads[tid].id))
  {
    Happened(states, steps, i);
  }

  /** A completion releases who waits for the job: its own steps close the channel, and the waiter can then
      return what it said. */
  lemma CompletionReleases(s: State, c: Tid, w: Tid, id: Id, v: Verdict) returns (closed: State)
    requires Good(s) && !s.panicked && c !in s.threads && At(s, w, Waiting(id))
    ensures Enabled(s, Complete(c, id, v))
    ensures var done := Do(s, Complete(c, id, v));
      && Enabled(done, CheckDone(c))
      && var checked := Do(done, CheckDone(c));
         if IsDone(s, id) then closed == checked
         else Enabled(checked, CloseDone(c)) && closed == Do(checked, CloseDone(c))
    ensures Enabled(closed, SeeDone(w)) && Enabled(Do(closed, SeeDone(w)), ReadOutput(w))
    ensures At(Do(Do(closed, SeeDone(w)), ReadOutput(w)), w, Waited(id, Some(v), true))
  {
    assert GoodThread(s, s.threads[w]) && id in s.done;
    var done := Do(s, Complete(c, id, v));
    assert At(done, c, Closing(id)) && At(done, w, Waiting(id)) && VerdictOf(done, id) == Some(v);
    var checked := Do(done, CheckDone(c));
    closed := if IsDone(s, id) then checked else Do(checked, CloseDone(c));
    assert At(closed, w, Waiting(id)) && VerdictOf(closed, id) == Some(v) && IsDone(closed, id);
    var seen := Do(closed, SeeDone(w));
    assert At(seen, w, DoneSeen(id)) && VerdictOf(seen, id) == Some(v);
  }

  // ---- Completing one job twice -----------------------------------------------------------------------

  predicate Completing(t: Thread, id: Id) {
    (t.Closing? || t.MustClose?) && t.id == id
  }

  /** Two callers are completing one job whose channel is still open. */
  predicate Overlapping(s: State, a: Tid, b: Tid, id: Id) {
    && a != b && a in s.threads && b in s.threads
    && Completing(s.threads[a], id) && Completing(s.threads[b], id) && !IsDone(s, id)
  }

  ghost predicate Overlap(s: State) {
    exists a, b, id :: Overlapping(s, a, b, id)
  }

  predicate OpenUntilClosed(s: State) {
    forall tid :: tid in s.threads && s.threads[tid].MustClose? ==> !IsDone(s, s.threads[tid].id)
  }

  lemma NoPanicStep(s: State, step: Step)
    requires Good(s) && !Overlap(s) && OpenUntilClosed(s) && Enabled(s, step)
    ensures !Do(s, step).panicked && OpenUntilClosed(Do(s, step))
  {
    var t := Do(s, step);
    forall tid | tid in t.threads && t.threads[tid].MustClose? ensures !IsDone(t, t.threads[tid].id) {
      assert tid in s.threads ==> GoodThread(s, s.threads[tid]);
      if step.CloseDone? {
        assert !Overlapping(s, step.tid, tid, s.threads[step.tid].id);
      }
    }
  }

  /** While no two callers complete one job whose channel is still open, no channel is closed twice.
      Completing a job again later, or while another's completion is past its close, is harmless. */
  lemma {:induction false} NoPanicUnlessOverlap(states: seq<State>, steps: seq<Step>, i: nat)
    requires IsRun(states, steps) && i < |states|
    requires forall k :: 0 <= k < i ==> !Overlap(states[k])
    ensures Good(states[i]) && !states[i].panicked && OpenUntilClosed(states[i])
  {
    RunKeepsGood(states, steps, i);
    if i > 0 {
      NoPanicUnlessOverlap(states, steps, i - 1);
      NoPanicStep(states[i - 1], steps[i - 1]);
    }
  }

  /** The completions under way, and nothing else, go on from s. */
  predicate ClosingRun(s: State, states: seq<State>, steps: seq<Step>) {
    && |states| == |steps| + 1 && states[0] == s
    && forall i :: 0 <= i < |steps| ==>
         (steps[i].CheckDone? || steps[i].CloseDone?) && Enabled(states[i], steps[i])
           && states[i + 1] == Do(states[i], steps[i])
  }

  /** They can reach the panic. */
  ghost predicate CanPanic(s: State) {
    exists states: seq<State>, steps: seq<Step> :: ClosingRun(s, states, steps) && states[|steps|].panicked
  }

  lemma StillNoOverlap(s: State, step: Step)
    requires !Overlap(s) && (step.CheckDone? || step.CloseDone?) && Enabled(s, step)
    ensures !Overlap(Do(s, step))
  {
    var t := Do(s, step);
    forall a, b, id ensures !Overlapping(t, a, b, id) {
      assert !Overlapping(s, a, b, id);
    }
  }

  lemma {:induction false} ClosingRunIsSafe(s: State, states: seq<State>, steps: seq<Step>, i: nat)
    requires Good(s) && !s.panicked && !Overlap(s) && OpenUntilClosed(s)
    requires ClosingRun(s, states, steps) && i < |states|
    ensures Good(states[i]) && !states[i].panicked && !Overlap(states[i]) && OpenUntilClosed(states[i])
  {
    if i > 0 {
      ClosingRunIsSafe(s, states, steps, i - 1);
      StepKeepsGood(states[i - 1], steps[i - 1]);
      NoPanicStep(states[i - 1], steps[i - 1]);
      StillNoOverlap(states[i - 1], steps[i - 1]);
    }
  }

  lemma CanPanicEarlier(s: State, step: Step)
    requires (step.CheckDone? || step.CloseDone?) && Enabled(s, step)
    requires Do(s, step).panicked || CanPanic(Do(s, step))
    ensures CanPanic(s)
  {
    var t := Do(s, step);
    var states, steps := [t], [];
    if !t.panicked {
      states, steps :| ClosingRun(t, states, steps) && states[|steps|].panicked;
    }
    var more, moreSteps := [s] + states, [step] + steps;
    forall i | 0 <= i < |moreSteps|
      ensures (moreSteps[i].CheckDone? || moreSteps[i].CloseDone?) && Enabled(more[i], moreSteps[i])
      ensures more[i + 1] == Do(more[i], moreSteps[i])
    {
      if i > 0 {
        assert more[i] == states[i - 1] && moreSteps[i] == steps[i - 1] && more[i + 1] == states[i];
      }
    }
    assert ClosingRun(s, more, moreSteps) && more[|moreSteps|].panicked;
  }

  /** Two overlapping completions: each may find the channel open, and then each closes it. */
  lemma OverlapCanPanic(s: State, a: Tid, b: Tid, id: Id)
    requires Good(s) && !s.panicked && Overlapping(s, a, b, id)
    ensures CanPanic(s)
    decreases (if s.threads[a].Closing? then 1 else 0) + (if s.threads[b].Closing? then 1 else 0)
  {
    if s.threads[a].Closing? {
      StepKeepsGood(s, CheckDone(a));
      OverlapCanPanic(Do(s, CheckDone(a)), a, b, id);
      CanPanicEarlier(s, CheckDone(a));
    } else if s.threads[b].Closing? {
      StepKeepsGood(s, CheckDone(b));
      OverlapCanPanic(Do(s, CheckDone(b)), a, b, id);
      CanPanicEarlier(s, CheckDone(b));
    } else {
      assert GoodThread(s, s.threads[a]);
      CanPanicEarlier(Do(s, CloseDone(a)), CloseDone(b));
      CanPanicEarlier(s, CloseDone(a));
    }
  }

  /** In a run without such an overlap so far there has been no double close, and the completions now
      under way can reach one if and only if two of them overlap. */
  lemma PanicIffOverlap(states: seq<State>, steps: seq<Step>)
    requires IsRun(states, steps) && forall k :: 0 <= k < |steps| ==> !Overlap(states[k])
    ensures var last := states[|steps|]; !last.panicked && (CanPanic(last) <==> Overlap(last))
  {
    var last := states[|steps|];
    NoPanicUnlessOverlap(states, steps, |steps|);
    if Overlap(last) {
      var a, b, id :| Overlapping(last, a, b, id);
      OverlapCanPanic(last, a, b, id);
    } else {
      forall more: seq<State>, moreSteps: seq<Step> | ClosingRun(last, more, moreSteps)
        ensures !more[|moreSteps|].panicked
      {
        ClosingRunIsSafe(last, more, moreSteps, |moreSteps|);
      }
    }
  }

  /** Such an overlap can come about: a job started and completed by two callers at once. */
  lemma OverlapIsReachable(v: Verdict) returns (states: seq<State>, steps: seq<Step>)
    ensures IsRun(states, steps) && Overlap(states[|steps|]) && CanPanic(states[|steps|])
  {
    var s1 := Do(Initial, Look(0, "test"));
    var s2 := Do(s1, Start(0));
    var s3 := Do(s2, Complete(1, 1, v));
    var s4 := Do(s3, Complete(2, 1, v));
    states, steps := [Initial, s1, s2, s3, s4], [Look(0, "test"), Start(0), Complete(1, 1, v), Complete(2, 1, v)];
    assert Overlapping(s4, 1, 2, 1);
    RunKeepsGood(states, steps, 4);
    OverlapCanPanic(s4, 1, 2, 1);
  }

  // ---- What can happen ----------------------------------------------------------------------------------

  /** While no channel was closed twice, nobody is blocked but who waits for a job, and that wait can always
      time out and can end once the job's channel is closed. */
  lemma NobodyIsBlocked(states: seq<State>, steps: seq<Step>, i: nat)
    requires IsRun(states, steps) && i < |states| && !states[i].panicked
    ensures var s := states[i];
      && (forall tid :: tid !in s.threads ==>
           && (forall key :: Enabled(s, Look(tid, key))) && (forall id :: Enabled(s, Wait(tid, id)))
           && forall id, v :: Enabled(s, Complete(tid, id, v)))
      && (forall tid :: tid in s.threads ==>
           match s.threads[tid]
           case Looked(_) => Enabled(s, Start(tid))
           case Begun(_, _) => Enabled(s, Record(tid))
           case Closing(_) => Enabled(s, CheckDone(tid))
           case MustClose(_) => Enabled(s, CloseDone(tid))
           case Waiting(id) => Enabled(s, TimeOut(tid)) && (IsDone(s, id) ==> Enabled(s, SeeDone(tid)))
           case DoneSeen(_) => Enabled(s, ReadOutput(tid))
           case _ => true)
  {
  }

  /** A wait that times out reports the job unfinished, with what was last said of it, if anything. */
  lemma TimedOut(states: seq<State>, steps: seq<Step>, i: nat, tid: Tid)
    requires IsRun(states, steps) && i < |steps| && steps[i] == TimeOut(tid)
    ensures tid in states[i].threads && states[i].threads[tid].Waiting?
    ensures var w := states[i].threads[tid].id;
      exists v :: IsLastVerdict(steps, i, w, v) && At(states[i + 1], tid, Waited(w, v, false))
  {
    Happened(states, steps, i);
    StoredIsLastVerdict(states, steps, i, states[i].threads[tid].id);
  }
}
