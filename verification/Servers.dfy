/** Starting, losing and closing language servers, in every interleaving. Each step is one critical
    section of the manager, or something that happens to a process outside it. */
module Servers {
  import opened Order

  /** A language's own server, or one of its fallbacks. */
  datatype Key = Language(language: string) | Fallback(language: string, command: string)

  type Pid = nat
  type Tid = nat

  const MAX_RESTARTS := 1

  /** A launched server: whether its process runs, its client's closed flag, and whether its client's
      Close has been called. */
  datatype Server = Server(key: Key, starter: Tid, alive: bool, flagged: bool, closing: bool)

  /** A request for a server, past the manager's first look. */
  datatype Thread =
    | Starting(key: Key)
    | Initializing(key: Key, pid: Pid)
    | Ready(key: Key, pid: Pid)
    | Failing(key: Key)
    | Returned(key: Key, client: Option<Pid>)

  datatype State = State(servers: map<Pid, Server>, threads: map<Tid, Thread>, clients: map<Key, Pid>, failed: set<Key>,
                         restarts: map<Key, nat>, closed: bool)

  const Initial := State(map[], map[], map[], {}, map[], false)

  datatype Step =
    | Request(tid: Tid, key: Key)
    | Launch(tid: Tid, pid: Pid)
    | LaunchFails(tid: Tid)
    | Initialized(tid: Tid)
    | InitializeFails(tid: Tid)
    | Resolve(tid: Tid)
    | MarkFailed(tid: Tid)
    | Die(pid: Pid)
    | Reap(pid: Pid)
    | FlagClosing(pid: Pid)
    | FinishClose(pid: Pid)
    | Close

  predicate Enabled(s: State, step: Step) {
    match step
    case Request(tid, _) => tid !in s.threads
    case Launch(tid, pid) => tid in s.threads && s.threads[tid].Starting? && pid !in s.servers
    case LaunchFails(tid) => tid in s.threads && s.threads[tid].Starting?
    case Initialized(tid) => tid in s.threads && s.threads[tid].Initializing?
    case InitializeFails(tid) => tid in s.threads && s.threads[tid].Initializing? && s.threads[tid].pid in s.servers
    case Resolve(tid) => tid in s.threads && s.threads[tid].Ready? && s.threads[tid].pid in s.servers
    case MarkFailed(tid) => tid in s.threads && s.threads[tid].Failing?
    case Die(pid) => pid in s.servers
    case Reap(pid) => pid in s.servers && !s.servers[pid].alive
    case FlagClosing(pid) => pid in s.servers && s.servers[pid].closing
    case FinishClose(pid) => pid in s.servers && s.servers[pid].closing && s.servers[pid].flagged
    case Close => true
  }

  function Return(s: State, tid: Tid, key: Key, client: Option<Pid>): State {
    s.(threads := s.threads[tid := Returned(key, client)])
  }

  function Restarts(s: State, key: Key): nat {
    if key in s.restarts then s.restarts[key] else 0
  }

  predicate HasOpenClient(s: State, key: Key) {
    key in s.clients && s.clients[key] in s.servers && !s.servers[s.clients[key]].flagged
  }

  /** The first look: an open client is returned, a failed key is not tried again. A language's dead
      client is dropped and restarted up to the limit; a fallback's is simply started again. */
  function Look(s: State, tid: Tid, key: Key): State {
    if s.closed then Return(s, tid, key, None)
    else if HasOpenClient(s, key) then Return(s, tid, key, Some(s.clients[key]))
    else if key.Language? && key in s.clients then
      if Restarts(s, key) >= MAX_RESTARTS then Return(Dropped(s, key, false), tid, key, None)
      else StartUnlessFailed(Dropped(s, key, true), tid, key)
    else StartUnlessFailed(s, tid, key)
  }

  /** A dead client is taken off the table; either it may be restarted or its language has failed. */
  function Dropped(s: State, key: Key, restart: bool): State {
    var t := s.(clients := s.clients - {key});
    if restart then t.(restarts := s.restarts[key := Restarts(s, key) + 1]) else t.(failed := s.failed + {key})
  }

  function StartUnlessFailed(s: State, tid: Tid, key: Key): State {
    if key in s.failed then Return(s, tid, key, None) else s.(threads := s.threads[tid := Starting(key)])
  }

  function CloseServer(s: State, pid: Pid): State
    requires pid in s.servers
  {
    s.(servers := s.servers[pid := s.servers[pid].(closing := true)])
  }

  /** start's second half: after Close the new server is closed again, as is one that lost a race with
      another start; otherwise it is registered, over whatever dead client was there. */
  function ResolveStart(s: State, tid: Tid, key: Key, pid: Pid): State
    requires pid in s.servers
  {
    if s.closed then CloseServer(s, pid).(threads := s.threads[tid := Failing(key)])
    else if HasOpenClient(s, key) then
      Return(CloseServer(s, pid), tid, key, Some(s.clients[key]))
    else Return(s.(clients := s.clients[key := pid]), tid, key, Some(pid))
  }

  function Do(s: State, step: Step): State
    requires Enabled(s, step)
  {
    match step
    case Request(tid, key) => Look(s, tid, key)
    case Launch(tid, pid) =>
      var key := s.threads[tid].key;
      s.(servers := s.servers[pid := Server(key, tid, true, false, false)],
        threads := s.threads[tid := Initializing(key, pid)])
    case LaunchFails(tid) => s.(threads := s.threads[tid := Failing(s.threads[tid].key)])
    case Initialized(tid) => s.(threads := s.threads[tid := Ready(s.threads[tid].key, s.threads[tid].pid)])
    case InitializeFails(tid) =>
      CloseServer(s, s.threads[tid].pid).(threads := s.threads[tid := Failing(s.threads[tid].key)])
    case Resolve(tid) => ResolveStart(s, tid, s.threads[tid].key, s.threads[tid].pid)
    case MarkFailed(tid) => Return(s.(failed := s.failed + {s.threads[tid].key}), tid, s.threads[tid].key, None)
    case Die(pid) => s.(servers := s.servers[pid := s.servers[pid].(alive := false)])
    case Reap(pid) => s.(servers := s.servers[pid := s.servers[pid].(flagged := true)])
    case FlagClosing(pid) => s.(servers := s.servers[pid := s.servers[pid].(flagged := true)])
    case FinishClose(pid) => s.(servers := s.servers[pid := s.servers[pid].(alive := false)])
    case Close =>
      s.(closed := true, clients := map[],
         servers := map pid | pid in s.servers ::
           if pid in s.clients.Values then s.servers[pid].(closing := true) else s.servers[pid])
  }

  // ---- What every run keeps ---------------------------------------------------------------------------

  predicate Holds(t: Thread, pid: Pid) {
    (t.Initializing? || t.Ready?) && t.pid == pid
  }

  predicate InFlight(s: State, pid: Pid)
    requires pid in s.servers
  {
    s.servers[pid].starter in s.threads && Holds(s.threads[s.servers[pid].starter], pid)
  }

  predicate Registered(s: State, pid: Pid)
    requires pid in s.servers
  {
    s.servers[pid].key in s.clients && s.clients[s.servers[pid].key] == pid
  }

  /** A live server is being closed, or registered, or in flight, and only one of these. */
  predicate GoodServer(s: State, pid: Pid)
    requires pid in s.servers
  {
    var v := s.servers[pid];
    && (v.alive ==> v.closing || Registered(s, pid) || InFlight(s, pid))
    && (v.closing ==> !Registered(s, pid) && !InFlight(s, pid))
    && !(Registered(s, pid) && InFlight(s, pid))
    && (v.flagged ==> !v.alive || v.closing)
  }

  predicate GoodThread(s: State, tid: Tid)
    requires tid in s.threads
  {
    var t := s.threads[tid];
    t.Initializing? || t.Ready? ==>
      t.pid in s.servers && s.servers[t.pid].starter == tid && s.servers[t.pid].key == t.key && InFlight(s, t.pid)
  }

  predicate GoodClient(s: State, key: Key)
    requires key in s.clients
  {
    s.clients[key] in s.servers && s.servers[s.clients[key]].key == key
  }

  predicate Good(s: State) {
    && (forall pid :: pid in s.servers ==> GoodServer(s, pid))
    && (forall tid :: tid in s.threads ==> GoodThread(s, tid))
    && (forall key :: key in s.clients ==> GoodClient(s, key))
    && (s.closed ==> s.clients == map[])
    && forall key :: key in s.restarts ==> s.restarts[key] <= MAX_RESTARTS
  }

  lemma DroppedKeepsGood(s: State, key: Key, restart: bool)
    requires Good(s) && key in s.clients && !HasOpenClient(s, key) && (restart ==> Restarts(s, key) < MAX_RESTARTS)
    ensures Good(Dropped(s, key, restart))
  {
    var t := Dropped(s, key, restart);
    assert GoodClient(s, key);
    forall pid | pid in t.servers ensures GoodServer(t, pid) {
      assert GoodServer(s, pid);
    }
    forall tid | tid in t.threads ensures GoodThread(t, tid) {
      assert GoodThread(s, tid);
    }
    forall k | k in t.clients ensures GoodClient(t, k) {
      assert GoodClient(s, k);
    }
  }

  /** A new thread that holds no server. */
  lemma NewThreadKeepsGood(s: State, tid: Tid, thread: Thread)
    requires Good(s) && tid !in s.threads && !thread.Initializing? && !thread.Ready?
    ensures Good(s.(threads := s.threads[tid := thread]))
  {
  }

  lemma StartKeepsGood(s: State, tid: Tid, key: Key)
    requires Good(s) && tid !in s.threads
    ensures Good(StartUnlessFailed(s, tid, key))
  {
    NewThreadKeepsGood(s, tid, if key in s.failed then Returned(key, None) else Starting(key));
  }

  lemma LookKeepsGood(s: State, tid: Tid, key: Key)
    requires Good(s) && tid !in s.threads
    ensures Good(Look(s, tid, key))
  {
    if s.closed {
      NewThreadKeepsGood(s, tid, Returned(key, None));
    } else if HasOpenClient(s, key) {
      NewThreadKeepsGood(s, tid, Returned(key, Some(s.clients[key])));
    } else if key.Language? && key in s.clients {
      var restart := Restarts(s, key) < MAX_RESTARTS;
      DroppedKeepsGood(s, key, restart);
      if restart {
        StartKeepsGood(Dropped(s, key, true), tid, key);
      } else {
        NewThreadKeepsGood(Dropped(s, key, false), tid, Returned(key, None));
      }
    } else {
      StartKeepsGood(s, tid, key);
    }
  }

  /** A thread lets go of its server, which is closed. */
  lemma LetGoKeepsGood(s: State, tid: Tid, pid: Pid, thread: Thread)
    requires Good(s) && tid in s.threads && Holds(s.threads[tid], pid) && !thread.Initializing? && !thread.Ready?
    ensures pid in s.servers && Good(CloseServer(s, pid).(threads := s.threads[tid := thread]))
  {
    assert GoodThread(s, tid);
    var t := CloseServer(s, pid).(threads := s.threads[tid := thread]);
    forall p | p in t.servers ensures GoodServer(t, p) {
      assert GoodServer(s, p);
    }
    forall other | other in t.threads ensures GoodThread(t, other) {
      assert GoodThread(s, other);
    }
    forall k | k in t.clients ensures GoodClient(t, k) {
      assert GoodClient(s, k);
    }
  }

  lemma RegisterKeepsGood(s: State, tid: Tid, key: Key, pid: Pid)
    requires Good(s) && tid in s.threads && s.threads[tid] == Ready(key, pid) && !s.closed && !HasOpenClient(s, key)
    ensures Good(Return(s.(clients := s.clients[key := pid]), tid, key, Some(pid)))
  {
    assert GoodThread(s, tid) && (key in s.clients ==> GoodClient(s, key)) && GoodServer(s, pid);
    var t := Return(s.(clients := s.clients[key := pid]), tid, key, Some(pid));
    forall p | p in t.servers ensures GoodServer(t, p) {
      assert GoodServer(s, p);
    }
    forall other | other in t.threads ensures GoodThread(t, other) {
      assert GoodThread(s, other);
    }
    forall k | k in t.clients ensures GoodClient(t, k) {
      assert k in s.clients ==> GoodClient(s, k);
    }
  }

  lemma ResolveKeepsGood(s: State, tid: Tid, key: Key, pid: Pid)
    requires Good(s) && tid in s.threads && s.threads[tid] == Ready(key, pid)
    ensures pid in s.servers && Good(ResolveStart(s, tid, key, pid))
  {
    assert GoodThread(s, tid);
    if s.closed {
      LetGoKeepsGood(s, tid, pid, Failing(key));
    } else if HasOpenClient(s, key) {
      LetGoKeepsGood(s, tid, pid, Returned(key, Some(s.clients[key])));
    } else {
      RegisterKeepsGood(s, tid, key, pid);
    }
  }

  /** A step of one thread that closes nothing. */
  lemma ThreadKeepsGood(s: State, step: Step, tid: Tid)
    requires Good(s) && Enabled(s, step) && (tid in s.threads ==> GoodThread(s, tid))
    requires match step
      case Launch(t, _) => t == tid
      case LaunchFails(t) => t == tid
      case Initialized(t) => t == tid
      case MarkFailed(t) => t == tid
      case _ => false
    ensures Good(Do(s, step))
  {
    var t := Do(s, step);
    forall pid | pid in t.servers ensures GoodServer(t, pid) {
      assert pid in s.servers ==> GoodServer(s, pid);
      assert pid !in s.servers ==> forall key :: key in s.clients ==> GoodClient(s, key);
    }
    forall other | other in t.threads ensures GoodThread(t, other) {
      assert GoodThread(s, other);
    }
    forall key | key in t.clients ensures GoodClient(t, key) {
      assert GoodClient(s, key);
    }
  }

  /** A step of one process. */
  lemma ServerKeepsGood(s: State, step: Step)
    requires Good(s) && Enabled(s, step) && (step.Die? || step.Reap? || step.FlagClosing? || step.FinishClose?)
    ensures Good(Do(s, step))
  {
    var t := Do(s, step);
    forall pid | pid in t.servers ensures GoodServer(t, pid) {
      assert GoodServer(s, pid);
    }
    forall tid | tid in t.threads ensures GoodThread(t, tid) {
      assert GoodThread(s, tid);
    }
    forall key | key in t.clients ensures GoodClient(t, key) {
      assert GoodClient(s, key);
    }
  }

  lemma CloseKeepsGood(s: State)
    requires Good(s)
    ensures Good(Do(s, Close))
  {
    var t := Do(s, Close);
    forall pid | pid in t.servers ensures GoodServer(t, pid) {
      assert GoodServer(s, pid);
      if pid in s.clients.Values {
        var key :| key in s.clients && s.clients[key] == pid;
        assert GoodClient(s, key);
      }
    }
    forall tid | tid in t.threads ensures GoodThread(t, tid) {
      assert GoodThread(s, tid);
    }
  }

  lemma StepKeepsGood(s: State, step: Step)
    requires Good(s) && Enabled(s, step)
    ensures Good(Do(s, step))
  {
    match step {
      case Request(tid, key) => LookKeepsGood(s, tid, key);
      case Launch(tid, _) => ThreadKeepsGood(s, step, tid);
      case LaunchFails(tid) => ThreadKeepsGood(s, step, tid);
      case Initialized(tid) => ThreadKeepsGood(s, step, tid);
      case InitializeFails(tid) => LetGoKeepsGood(s, tid, s.threads[tid].pid, Failing(s.threads[tid].key));
      case Resolve(tid) => ResolveKeepsGood(s, tid, s.threads[tid].key, s.threads[tid].pid);
      case MarkFailed(tid) => ThreadKeepsGood(s, step, tid);
      case Close => CloseKeepsGood(s);
      case _ => ServerKeepsGood(s, step);
    }
  }

  predicate IsRun(states: seq<State>, steps: seq<Step>) {
    && |states| == |steps| + 1 && states[0] == Initial
    && forall i :: 0 <= i < |steps| ==> Enabled(states[i], steps[i]) && states[i + 1] == Do(states[i], steps[i])
  }

  lemma {:induction false} RunKeepsGood(states: seq<State>, steps: seq<Step>, i: nat)
    requires IsRun(states, steps) && i < |states|
    ensures Good(states[i])
  {
    if i > 0 {
      RunKeepsGood(states, steps, i - 1);
      StepKeepsGood(states[i - 1], steps[i - 1]);
    }
  }

  // ---- What it means ----------------------------------------------------------------------------------

  /** Every launched server is dead, registered under its key, being closed, or in flight, whatever the
      starts, deaths and closes so far. */
  lemma NoServerIsLost(states: seq<State>, steps: seq<Step>, i: nat, pid: Pid)
    requires IsRun(states, steps) && i < |states| && pid in states[i].servers
    ensures var s, v := states[i], states[i].servers[pid];
      !v.alive || v.closing || (v.key in s.clients && s.clients[v.key] == pid) || InFlight(s, pid)
  {
    RunKeepsGood(states, steps, i);
    assert GoodServer(states[i], pid);
  }

  /** Once Close has run and no start is in flight, every server still alive is being closed, and a
      request gets none. */
  lemma CloseLeavesNoServer(states: seq<State>, steps: seq<Step>, i: nat)
    requires IsRun(states, steps) && i < |states| && states[i].closed
    requires forall tid :: tid in states[i].threads ==>
              !states[i].threads[tid].Initializing? && !states[i].threads[tid].Ready?
    ensures forall pid :: pid in states[i].servers && states[i].servers[pid].alive ==> states[i].servers[pid].closing
    ensures forall tid, key :: tid !in states[i].threads ==>
              Look(states[i], tid, key).threads[tid] == Returned(key, None)
  {
    RunKeepsGood(states, steps, i);
    forall pid | pid in states[i].servers && states[i].servers[pid].alive ensures states[i].servers[pid].closing {
      assert GoodServer(states[i], pid);
    }
  }

  /** With no start in flight, two servers of one key are not both alive and kept. */
  lemma OneServerPerKey(states: seq<State>, steps: seq<Step>, i: nat, a: Pid, b: Pid)
    requires IsRun(states, steps) && i < |states| && a in states[i].servers && b in states[i].servers
    requires forall tid :: tid in states[i].threads ==>
              !states[i].threads[tid].Initializing? && !states[i].threads[tid].Ready?
    requires states[i].servers[a].key == states[i].servers[b].key
    requires states[i].servers[a].alive && !states[i].servers[a].closing
    requires states[i].servers[b].alive && !states[i].servers[b].closing
    ensures a == b
  {
    RunKeepsGood(states, steps, i);
    assert GoodServer(states[i], a) && GoodServer(states[i], b);
  }

  /** No server is closed by two parties: one being closed is neither registered nor in flight, and
      those are the only ones anything closes. */
  lemma ClosedByOneParty(states: seq<State>, steps: seq<Step>, i: nat, pid: Pid)
    requires IsRun(states, steps) && i < |states| && pid in states[i].servers && states[i].servers[pid].closing
    ensures forall key :: key in states[i].clients ==> states[i].clients[key] != pid
    ensures forall tid :: tid in states[i].threads ==> !Holds(states[i].threads[tid], pid)
  {
    RunKeepsGood(states, steps, i);
    var s := states[i];
    assert GoodServer(s, pid);
    assert forall key :: key in s.clients ==> GoodClient(s, key);
    assert forall tid :: tid in s.threads ==> GoodThread(s, tid);
  }

  /** The step finds a language's client dead, drops it, and starts another. */
  predicate IsRestart(s: State, step: Step, key: Key) {
    && step.Request? && step.key == key && key.Language? && !s.closed
    && key in s.clients && !HasOpenClient(s, key)
    && Look(s, step.tid, key).threads[step.tid].Starting?
  }

  /** How often that happens in the first n steps of a run. */
  function RestartsIn(states: seq<State>, steps: seq<Step>, n: nat, key: Key): nat
    requires n <= |steps| < |states|
  {
    if n == 0 then 0
    else RestartsIn(states, steps, n - 1, key) + if IsRestart(states[n - 1], steps[n - 1], key) then 1 else 0
  }

  lemma RestartsGrow(s: State, step: Step, key: Key)
    requires Enabled(s, step)
    ensures Restarts(s, key) + (if IsRestart(s, step, key) then 1 else 0) <= Restarts(Do(s, step), key)
    ensures key in s.failed ==> key in Do(s, step).failed
  {
  }

  lemma {:induction false} RestartsAreCounted(states: seq<State>, steps: seq<Step>, n: nat, key: Key)
    requires IsRun(states, steps) && n <= |steps|
    ensures RestartsIn(states, steps, n, key) <= Restarts(states[n], key)
  {
    if n > 0 {
      RestartsAreCounted(states, steps, n - 1, key);
      RestartsGrow(states[n - 1], steps[n - 1], key);
    }
  }

  /** Over a whole run a language's dead server is started again at most once. */
  lemma RestartsAreBounded(states: seq<State>, steps: seq<Step>, key: Key)
    requires IsRun(states, steps)
    ensures RestartsIn(states, steps, |steps|, key) <= 1
  {
    RestartsAreCounted(states, steps, |steps|, key);
    RunKeepsGood(states, steps, |steps|);
  }

  lemma {:induction false} FailedForGood(states: seq<State>, steps: seq<Step>, i: nat, j: nat, key: Key)
    requires IsRun(states, steps) && i <= j < |states| && key in states[i].failed
    ensures key in states[j].failed
  {
    if i < j {
      FailedForGood(states, steps, i, j - 1, key);
      FailedStays(states, steps, j - 1, key);
    }
  }

  lemma FailedStays(states: seq<State>, steps: seq<Step>, k: nat, key: Key)
    requires IsRun(states, steps) && k < |steps| && key in states[k].failed
    ensures key in states[k + 1].failed
  {
    RestartsGrow(states[k], steps[k], key);
  }

  /** Once a key has failed, no later request for it starts a server: it gets one that is open, or
      none. */
  lemma FailedIsNotStarted(states: seq<State>, steps: seq<Step>, i: nat, j: nat, tid: Tid, key: Key)
    requires IsRun(states, steps) && i <= j < |steps| && key in states[i].failed && steps[j] == Request(tid, key)
    ensures var t := states[j + 1].threads[tid];
      t == Returned(key,
        if !states[j].closed && HasOpenClient(states[j], key) then Some(states[j].clients[key]) else None)
    ensures states[j + 1].servers == states[j].servers
  {
    FailedForGood(states, steps, i, j, key);
  }

  // ---- What a request gets ------------------------------------------------------------------------------

  lemma Happened(states: seq<State>, steps: seq<Step>, n: nat)
    requires IsRun(states, steps) && n < |steps|
    ensures Enabled(states[n], steps[n]) && states[n + 1] == Do(states[n], steps[n])
  {
  }

  /** A request that finds an open client gets it, and nothing else happens. */
  lemma OpenClientIsReturned(states: seq<State>, steps: seq<Step>, i: nat, tid: Tid, key: Key)
    requires IsRun(states, steps) && i < |steps| && steps[i] == Request(tid, key)
    requires !states[i].closed && HasOpenClient(states[i], key)
    ensures states[i + 1] ==
            states[i].(threads := states[i].threads[tid := Returned(key, Some(states[i].clients[key]))])
  {
    Happened(states, steps, i);
  }

  /** The step finds the client of a language dead. */
  predicate FindsDead(s: State, step: Step, key: Key) {
    step.Request? && step.key == key && key.Language? && !s.closed && key in s.clients && !HasOpenClient(s, key)
  }

  /** One of the first n steps did. */
  predicate FoundDead(states: seq<State>, steps: seq<Step>, n: nat, key: Key)
    requires n <= |steps| < |states|
  {
    exists k :: 0 <= k < n && FindsDead(states[k], steps[k], key)
  }

  lemma RestartsStep(s: State, step: Step, key: Key)
    requires Enabled(s, step)
    ensures Restarts(Do(s, step), key) ==
            Restarts(s, key) + if FindsDead(s, step, key) && Restarts(s, key) < 1 then 1 else 0
  {
    if step.Request? {
      LookRestarts(s, step.tid, step.key, key);
    }
  }

  lemma LookRestarts(s: State, tid: Tid, asked: Key, key: Key)
    ensures Restarts(Look(s, tid, asked), key) ==
            Restarts(s, key) + if FindsDead(s, Request(tid, asked), key) && Restarts(s, key) < 1 then 1 else 0
  {
  }

  /** The counter of restarts says whether a language's client was ever found dead. */
  lemma {:induction false} RestartedIff(states: seq<State>, steps: seq<Step>, n: nat, key: Key)
    requires IsRun(states, steps) && n <= |steps|
    ensures Restarts(states[n], key) == if FoundDead(states, steps, n, key) then 1 else 0
  {
    if n > 0 {
      RestartedIff(states, steps, n - 1, key);
      Happened(states, steps, n - 1);
      RestartsStep(states[n - 1], steps[n - 1], key);
      assert FoundDead(states, steps, n, key) <==>
             FoundDead(states, steps, n - 1, key) || FindsDead(states[n - 1], steps[n - 1], key);
    }
  }

  /** What starting failed for, in the first n steps: a start that failed, or a second dead client. */
  predicate FailedIn(states: seq<State>, steps: seq<Step>, n: nat, key: Key)
    requires n <= |steps| < |states|
  {
    exists k :: 0 <= k < n && Fails(states, steps, k, key)
  }

  predicate Fails(states: seq<State>, steps: seq<Step>, k: nat, key: Key)
    requires k < |steps| < |states|
  {
    || (steps[k].MarkFailed? && steps[k].tid in states[k].threads && states[k].threads[steps[k].tid] == Failing(key))
    || (FindsDead(states[k], steps[k], key) && FoundDead(states, steps, k, key))
  }

  lemma FailedStep(s: State, step: Step, key: Key)
    requires Enabled(s, step)
    ensures key in Do(s, step).failed <==>
            || key in s.failed || (step.MarkFailed? && s.threads[step.tid] == Failing(key))
            || (FindsDead(s, step, key) && Restarts(s, key) >= 1)
  {
    if step.Request? {
      LookFails(s, step.tid, step.key, key);
    }
  }

  lemma LookFails(s: State, tid: Tid, asked: Key, key: Key)
    ensures key in Look(s, tid, asked).failed <==>
            key in s.failed || (FindsDead(s, Request(tid, asked), key) && Restarts(s, key) >= 1)
  {
  }

  /** A key has failed exactly when a start of it failed or its client was found dead twice. */
  lemma {:induction false} FailedIff(states: seq<State>, steps: seq<Step>, n: nat, key: Key)
    requires IsRun(states, steps) && n <= |steps|
    ensures key in states[n].failed <==> FailedIn(states, steps, n, key)
  {
    if n > 0 {
      FailedIff(states, steps, n - 1, key);
      RestartedIff(states, steps, n - 1, key);
      Happened(states, steps, n - 1);
      FailedStep(states[n - 1], steps[n - 1], key);
      assert FailedIn(states, steps, n, key) <==>
             FailedIn(states, steps, n - 1, key) || Fails(states, steps, n - 1, key);
    }
  }

  /** The manager has been closed. */
  lemma {:induction false} ClosedIff(states: seq<State>, steps: seq<Step>, n: nat)
    requires IsRun(states, steps) && n <= |steps|
    ensures states[n].closed <==> Close in steps[..n]
  {
    if n > 0 {
      ClosedIff(states, steps, n - 1);
      Happened(states, steps, n - 1);
      assert steps[..n] == steps[..n - 1] + [steps[n - 1]];
    }
  }

  /** The key's client has not been told that its process is gone, nor been closed. */
  predicate OpenSoFar(states: seq<State>, steps: seq<Step>, n: nat, key: Key)
    requires n <= |steps| < |states|
  {
    && key in states[n].clients
    && Reap(states[n].clients[key]) !in steps[..n] && FlagClosing(states[n].clients[key]) !in steps[..n]
  }

  lemma OpenIff(states: seq<State>, steps: seq<Step>, n: nat, key: Key)
    requires IsRun(states, steps) && n <= |steps|
    ensures HasOpenClient(states[n], key) <==> OpenSoFar(states, steps, n, key)
  {
    RunKeepsGood(states, steps, n);
    if key in states[n].clients {
      assert GoodClient(states[n], key);
      ServerHistory(states, steps, n, states[n].clients[key]);
    }
  }

  /** When a request is refused at the first look, when it gets a client, and when it goes on to start a
      server, by what happened before it. */
  lemma FirstLook(states: seq<State>, steps: seq<Step>, i: nat, tid: Tid, key: Key)
    requires IsRun(states, steps) && i < |steps| && steps[i] == Request(tid, key)
    ensures tid in states[i + 1].threads
    ensures var s, t, shut := states[i], states[i + 1].threads[tid], Close in steps[..i];
      && (t.Returned? && t.client.Some? <==> !shut && OpenSoFar(states, steps, i, key))
      && (t.Returned? && t.client.Some? ==> t.key == key && t.client.value == s.clients[key])
      && (t == Returned(key, None) <==>
           || shut
           || (!OpenSoFar(states, steps, i, key)
                && (FailedIn(states, steps, i, key)
                     || (key.Language? && key in s.clients && FoundDead(states, steps, i, key)))))
      && (t.Returned? || t == Starting(key))
      && states[i + 1].servers == s.servers
      && states[i + 1].clients == if FindsDead(s, steps[i], key) then s.clients - {key} else s.clients
  {
    ClosedIff(states, steps, i);
    RestartedIff(states, steps, i, key);
    FailedIff(states, steps, i, key);
    OpenIff(states, steps, i, key);
    Happened(states, steps, i);
  }

  /** Resolving a start. Unless the manager was closed, the thread returns the server registered under its
      key once the step is done: the one that was there and open, its own then being closed, or else its
      own. After Close it fails, and its own is closed. */
  lemma ResolvedIsRegistered(states: seq<State>, steps: seq<Step>, i: nat, tid: Tid)
    requires IsRun(states, steps) && i < |steps| && steps[i] == Resolve(tid)
    ensures tid in states[i].threads && states[i].threads[tid].Ready? && tid in states[i + 1].threads
    ensures var s, next, key, own := states[i], states[i + 1], states[i].threads[tid].key, states[i].threads[tid].pid;
      && own in next.servers
      && (Close in steps[..i] ==> next.threads[tid] == Failing(key) && next.servers[own].closing)
      && (Close !in steps[..i] ==>
           && key in next.clients && next.threads[tid] == Returned(key, Some(next.clients[key]))
           && next.clients[key] == (if OpenSoFar(states, steps, i, key) then s.clients[key] else own)
           && (OpenSoFar(states, steps, i, key) ==> own != s.clients[key] && next.servers[own].closing)
           && (!OpenSoFar(states, steps, i, key) ==> !next.servers[own].closing))
  {
    ClosedIff(states, steps, i);
    OpenIff(states, steps, i, states[i].threads[tid].key);
    Happened(states, steps, i);
    RunKeepsGood(states, steps, i);
    assert GoodThread(states[i], tid);
    assert GoodServer(states[i], states[i].threads[tid].pid);
  }

  lemma ServerAppears(s: State, step: Step, pid: Pid)
    requires Enabled(s, step)
    ensures pid in Do(s, step).servers <==> pid in s.servers || (step.Launch? && step.pid == pid)
    ensures pid !in s.servers ==> step !in {Die(pid), FinishClose(pid), Reap(pid), FlagClosing(pid)}
    ensures step.Launch? && step.pid == pid ==>
              Do(s, step).servers[pid] == Server(s.threads[step.tid].key, step.tid, true, false, false)
  {
  }

  lemma ServerStep(s: State, step: Step, pid: Pid)
    requires Enabled(s, step) && pid in s.servers
    ensures pid in Do(s, step).servers
    ensures var v, w := s.servers[pid], Do(s, step).servers[pid];
      && (w.alive <==> v.alive && step != Die(pid) && step != FinishClose(pid))
      && (w.flagged <==> v.flagged || step == Reap(pid) || step == FlagClosing(pid))
      && w.key == v.key && w.starter == v.starter
  {
  }

  lemma OneStepMore(steps: seq<Step>, n: nat, step: Step)
    requires n < |steps|
    ensures step in steps[..n + 1] <==> step in steps[..n] || step == steps[n]
  {
    assert steps[..n + 1] == steps[..n] + [steps[n]];
  }

  /** A process is there once it has been launched; nothing happens to it before. */
  lemma {:induction false} LaunchedIff(states: seq<State>, steps: seq<Step>, n: nat, pid: Pid)
    requires IsRun(states, steps) && n <= |steps|
    ensures pid in states[n].servers <==> exists k :: 0 <= k < n && steps[k].Launch? && steps[k].pid == pid
    ensures pid !in states[n].servers ==> Die(pid) !in steps[..n] && FinishClose(pid) !in steps[..n]
    ensures pid !in states[n].servers ==> Reap(pid) !in steps[..n] && FlagClosing(pid) !in steps[..n]
  {
    if n > 0 {
      LaunchedIff(states, steps, n - 1, pid);
      Happened(states, steps, n - 1);
      ServerAppears(states[n - 1], steps[n - 1], pid);
      OneStepMore(steps, n - 1, Die(pid));
      OneStepMore(steps, n - 1, FinishClose(pid));
      OneStepMore(steps, n - 1, Reap(pid));
      OneStepMore(steps, n - 1, FlagClosing(pid));
    }
  }

  /** It runs until it dies or its close is through, and its client's flag is set by the reaper or by its
      close. */
  lemma {:induction false} ServerHistory(states: seq<State>, steps: seq<Step>, n: nat, pid: Pid)
    requires IsRun(states, steps) && n <= |steps| && pid in states[n].servers
    ensures states[n].servers[pid].alive <==> Die(pid) !in steps[..n] && FinishClose(pid) !in steps[..n]
    ensures states[n].servers[pid].flagged <==> Reap(pid) in steps[..n] || FlagClosing(pid) in steps[..n]
  {
    if n > 0 {
      LaunchedIff(states, steps, n - 1, pid);
      Happened(states, steps, n - 1);
      ServerAppears(states[n - 1], steps[n - 1], pid);
      if pid in states[n - 1].servers {
        ServerStep(states[n - 1], steps[n - 1], pid);
        ServerHistory(states, steps, n - 1, pid);
      }
      OneStepMore(steps, n - 1, Die(pid));
      OneStepMore(steps, n - 1, FinishClose(pid));
      OneStepMore(steps, n - 1, Reap(pid));
      OneStepMore(steps, n - 1, FlagClosing(pid));
    }
  }

  /** Who is closed: what a start that failed or lost had started, and what was registered at Close. */
  lemma ClosingStep(s: State, step: Step, pid: Pid)
    requires Good(s) && Enabled(s, step) && pid in s.servers && !s.servers[pid].closing
    ensures pid in Do(s, step).servers
    ensures Do(s, step).servers[pid].closing <==>
            || (step == Close && Registered(s, pid))
            || (step.InitializeFails? && Holds(s.threads[step.tid], pid))
            || (step.Resolve? && Holds(s.threads[step.tid], pid)
                 && (s.closed || HasOpenClient(s, s.threads[step.tid].key)))
  {
    assert GoodServer(s, pid);
    if step == Close {
      ClosedAtClose(s, pid);
    }
  }

  lemma ClosedAtClose(s: State, pid: Pid)
    requires Good(s) && pid in s.servers && !s.servers[pid].closing
    ensures pid in Do(s, Close).servers && (Do(s, Close).servers[pid].closing <==> Registered(s, pid))
  {
    if pid in s.clients.Values {
      var key :| key in s.clients && s.clients[key] == pid;
      assert GoodClient(s, key);
    }
  }

  // ---- What can happen ----------------------------------------------------------------------------------

  /** Nothing blocks a request or a start, and what can happen to a process may happen at any moment. */
  lemma NobodyIsBlocked(states: seq<State>, steps: seq<Step>, i: nat)
    requires IsRun(states, steps) && i < |states|
    ensures var s := states[i];
      && Enabled(s, Close) && (forall tid, key :: tid !in s.threads ==> Enabled(s, Request(tid, key)))
      && (forall tid :: tid in s.threads ==>
           match s.threads[tid]
           case Starting(_) =>
             Enabled(s, LaunchFails(tid)) && forall pid :: pid !in s.servers ==> Enabled(s, Launch(tid, pid))
           case Initializing(_, _) => Enabled(s, Initialized(tid)) && Enabled(s, InitializeFails(tid))
           case Ready(_, _) => Enabled(s, Resolve(tid))
           case Failing(_) => Enabled(s, MarkFailed(tid))
           case Returned(_, _) => true)
      && (forall pid :: pid in s.servers ==>
           && Enabled(s, Die(pid)) && (!s.servers[pid].alive ==> Enabled(s, Reap(pid)))
           && (s.servers[pid].closing ==> Enabled(s, FlagClosing(pid)))
           && (s.servers[pid].closing && s.servers[pid].flagged ==> Enabled(s, FinishClose(pid))))
  {
    RunKeepsGood(states, steps, i);
    forall tid | tid in states[i].threads ensures GoodThread(states[i], tid) {
    }
  }

  /** What a start goes through: launched, initialized, and resolved; or failed at either, and then marked. */
  lemma StartStep(s: State, step: Step, tid: Tid)
    requires Enabled(s, step) && tid in s.threads
    ensures tid in Do(s, step).threads
    ensures var t, u := s.threads[tid], Do(s, step).threads[tid];
      u == match step
           case Launch(other, pid) => if other == tid then Initializing(t.key, pid) else t
           case LaunchFails(other) => if other == tid then Failing(t.key) else t
           case Initialized(other) => if other == tid then Ready(t.key, t.pid) else t
           case InitializeFails(other) => if other == tid then Failing(t.key) else t
           case Resolve(other) => if other == tid then u else t
           case MarkFailed(other) => if other == tid then Returned(t.key, None) else t
           case _ => t
  {
  }
}
