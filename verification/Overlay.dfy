/** What a checkpoint knows, as values: the overlay of captured contents, recorded prior states and
    the current disk that a revert puts back. */
module Overlay {
  import opened Order

  type Files = map<Path, Bytes>
  type Id = nat

  /** What a path holds: bytes, or that it does not exist. */
  datatype Content = Absent | Held(data: Bytes)

  function At(files: Files, p: Path): Content {
    if p in files then Held(files[p]) else Absent
  }

  function Put(files: Files, p: Path, c: Content): Files {
    if c.Held? then files[p := c.data] else files - {p}
  }

  datatype Snapshot = Snapshot(revision: nat, changed: set<string>, files: Files,
                               prior: map<Path, Content>, head: string)

  type Snapshots = map<Id, Snapshot>

  predicate Recorded(s: Snapshot, p: Path) {
    p in s.files || p in s.prior
  }

  /** What a checkpoint says p held when it was taken, given what the disk holds now. */
  function Seen(s: Snapshot, files: Files, p: Path): Content {
    if p in s.files then Held(s.files[p])
    else if p in s.prior then s.prior[p]
    else At(files, p)
  }

  /** What the write path records for a set of paths about to change: for every checkpoint, the
      current content of each path it has not seen. A path that cannot be read is not recorded. */
  function RecordIn(s: Snapshot, paths: set<Path>, files: Files, unreadable: set<Path>): Snapshot {
    s.(prior := s.prior + map p | p in paths && !Recorded(s, p) && p !in unreadable :: At(files, p))
  }

  function Record(ckpts: Snapshots, paths: set<Path>, files: Files, unreadable: set<Path>): Snapshots {
    map id | id in ckpts :: RecordIn(ckpts[id], paths, files, unreadable)
  }

  /** The overlay invariant for one checkpoint: on every readable path it reproduces the disk as it
      was when the checkpoint was taken, and it holds nothing about an unreadable one. */
  ghost predicate Faithful(s: Snapshot, files: Files, taken: Files, unreadable: set<Path>) {
    && (forall p :: p !in unreadable ==> Seen(s, files, p) == At(taken, p))
    && (forall p :: Recorded(s, p) ==> p !in unreadable)
  }

  /** The overlay invariant for every live checkpoint. */
  ghost predicate AllFaithful(ckpts: Snapshots, files: Files, taken: map<Id, Files>, unreadable: set<Path>) {
    forall id :: id in ckpts ==> id in taken && Faithful(ckpts[id], files, taken[id], unreadable)
  }

  ghost predicate SameExcept(a: Files, b: Files, paths: set<Path>) {
    forall p :: p !in paths ==> At(a, p) == At(b, p)
  }

  /** The disk after a rollback: restored paths as they were, the rest as written. */
  ghost predicate AfterRollback(r: Files, original: Files, written: Files, restored: set<Path>) {
    forall p :: At(r, p) == if p in restored then At(original, p) else At(written, p)
  }

  lemma SameContents(a: Files, b: Files)
    requires forall p :: At(a, p) == At(b, p)
    ensures a == b
  {
    assert forall p :: p in a <==> At(a, p) != Absent;
    assert forall p :: p in b <==> At(b, p) != Absent;
    assert forall p :: p in a ==> At(a, p) == Held(a[p]) && At(b, p) == Held(b[p]);
  }

  lemma RecordInOne(s: Snapshot, p: Path, files: Files, unreadable: set<Path>)
    ensures RecordIn(s, {p}, files, unreadable)
         == if Recorded(s, p) || p in unreadable then s else s.(prior := s.prior[p := At(files, p)])
  {
  }

  lemma RecordKnown(ckpts: Snapshots, paths: set<Path>, files: Files, unreadable: set<Path>)
    requires forall id, p :: id in ckpts && p in paths ==> Recorded(ckpts[id], p) || p in unreadable
    ensures Record(ckpts, paths, files, unreadable) == ckpts
  {
    forall id | id in ckpts ensures RecordIn(ckpts[id], paths, files, unreadable) == ckpts[id] {
      assert RecordIn(ckpts[id], paths, files, unreadable).prior == ckpts[id].prior;
    }
  }

  lemma RecordedChangeInOne(s: Snapshot, paths: set<Path>, before: Files, after: Files, taken: Files,
                            unreadable: set<Path>)
    requires Faithful(s, before, taken, unreadable)
    requires SameExcept(before, after, paths)
    ensures Faithful(RecordIn(s, paths, before, unreadable), after, taken, unreadable)
  {
  }

  /** Recording before changing keeps every checkpoint faithful, whatever the change does to the
      recorded paths and however many checkpoints are live. */
  lemma RecordedChangeIsFaithful(ckpts: Snapshots, paths: set<Path>, before: Files, after: Files,
                                 taken: map<Id, Files>, unreadable: set<Path>)
    requires AllFaithful(ckpts, before, taken, unreadable)
    requires SameExcept(before, after, paths)
    ensures AllFaithful(Record(ckpts, paths, before, unreadable), after, taken, unreadable)
  {
    forall id | id in ckpts
      ensures Faithful(RecordIn(ckpts[id], paths, before, unreadable), after, taken[id], unreadable)
    {
      RecordedChangeInOne(ckpts[id], paths, before, after, taken[id], unreadable);
    }
  }

  lemma RecordInTwice(s: Snapshot, a: set<Path>, b: set<Path>, first: Files, second: Files, unreadable: set<Path>)
    requires forall p :: p in b && p !in a ==> At(first, p) == At(second, p)
    ensures RecordIn(RecordIn(s, a, first, unreadable), b, second, unreadable) == RecordIn(s, a + b, first, unreadable)
  {
    var once, all := RecordIn(s, a, first, unreadable), RecordIn(s, a + b, first, unreadable);
    var twice := RecordIn(once, b, second, unreadable);
    forall p ensures p in twice.prior <==> p in all.prior {
      assert Recorded(once, p) <==> Recorded(s, p) || (p in a && p !in unreadable);
    }
    forall p | p in all.prior ensures twice.prior[p] == all.prior[p] {
      assert p in b && p !in a ==> At(first, p) == At(second, p);
    }
    assert twice.prior == all.prior;
  }

  /** Only the first record of a path counts: recording in two goes, with changes in between that leave
      the paths recorded second alone, is recording them all at the start. */
  lemma RecordTwice(before: Snapshots, middle: Snapshots, after: Snapshots, a: set<Path>, b: set<Path>, all: set<Path>,
                    first: Files, second: Files, unreadable: set<Path>)
    requires all == a + b && forall p :: p in b && p !in a ==> At(first, p) == At(second, p)
    requires middle == Record(before, a, first, unreadable) && after == Record(middle, b, second, unreadable)
    ensures after == Record(before, all, first, unreadable)
  {
    forall id | id in before
      ensures RecordIn(RecordIn(before[id], a, first, unreadable), b, second, unreadable)
           == RecordIn(before[id], all, first, unreadable)
    {
      RecordInTwice(before[id], a, b, first, second, unreadable);
    }
  }

  /** A change nobody announced (a formatter, a rollback's plain removal) keeps a faithful checkpoint
      faithful exactly when the checkpoint has the path on record, cannot read it anyway, or the
      change left its content as it was. */
  lemma UnannouncedChange(s: Snapshot, p: Path, c: Content, files: Files, taken: Files, unreadable: set<Path>)
    requires Faithful(s, files, taken, unreadable)
    ensures Faithful(s, Put(files, p, c), taken, unreadable)
        <==> Recorded(s, p) || p in unreadable || c == At(files, p)
  {
  }

  /** The same for many paths at once. */
  lemma UnannouncedChanges(s: Snapshot, paths: set<Path>, before: Files, after: Files, taken: Files,
                           unreadable: set<Path>)
    requires Faithful(s, before, taken, unreadable) && SameExcept(before, after, paths)
    ensures Faithful(s, after, taken, unreadable)
        <==> forall p :: p in paths ==> Recorded(s, p) || p in unreadable || At(after, p) == At(before, p)
  {
  }

  /** What Checkpoint captures: the readable, existing files among the paths touched so far. */
  function Captured(paths: set<Path>, files: Files, unreadable: set<Path>): Files {
    map p | p in paths && p in files && p !in unreadable :: files[p]
  }

  lemma CapturedPlus(paths: set<Path>, p: Path, files: Files, unreadable: set<Path>)
    ensures Captured(paths + {p}, files, unreadable) ==
            if p in files && p !in unreadable then Captured(paths, files, unreadable)[p := files[p]]
            else Captured(paths, files, unreadable)
  {
  }

  lemma FreshCheckpointIsFaithful(s: Snapshot, paths: set<Path>, files: Files, unreadable: set<Path>)
    requires s.files == Captured(paths, files, unreadable) && s.prior == map[]
    ensures Faithful(s, files, files, unreadable)
  {
  }

  /** r is what a revert leaves: every captured file and every recorded prior state put back,
      absence included, and everything else as it is now. */
  ghost predicate Restores(r: Files, s: Snapshot, now: Files) {
    forall p :: At(r, p) == Seen(s, now, p)
  }

  /** r is, on every readable path, the disk as it was: exactly that disk if all can be read. */
  ghost predicate Reproduces(r: Files, taken: Files, unreadable: set<Path>) {
    && (forall p :: p !in unreadable ==> At(r, p) == At(taken, p))
    && (unreadable == {} ==> r == taken)
  }

  /** A faithful checkpoint restores the disk it was taken on; what it could not read it leaves. */
  lemma RestoredIsTaken(r: Files, s: Snapshot, now: Files, taken: Files, unreadable: set<Path>)
    requires Faithful(s, now, taken, unreadable) && Restores(r, s, now)
    ensures Reproduces(r, taken, unreadable)
    ensures forall p :: p in unreadable ==> At(r, p) == At(now, p)
  {
    if unreadable == {} {
      forall p ensures At(r, p) == At(taken, p) { assert p !in unreadable; }
      SameContents(r, taken);
    }
  }

  // ---- Runs -------------------------------------------------------------------------------------

  datatype State = State(files: Files, ckpts: Snapshots, taken: map<Id, Files>)

  /** One step at the granularity of one path: every operation that changes the workspace is a
      sequence of these. */
  datatype Step =
    | Announced(path: Path, content: Content)   // the write path: told first, then written or removed
    | Unannounced(path: Path, content: Content) // a formatter, or the rollback's plain removal
    | Take(id: Id, snapshot: Snapshot)
    | Idle                                      // bumping the revision, a refused revert, a failed write

  ghost predicate Next(s: State, step: Step, t: State, unreadable: set<Path>) {
    match step
    case Announced(p, c) =>
      t == State(Put(s.files, p, c), Record(s.ckpts, {p}, s.files, unreadable), s.taken)
    case Unannounced(p, c) =>
      && (forall id :: id in s.ckpts ==> Recorded(s.ckpts[id], p))
      && t == s.(files := Put(s.files, p, c))
    case Take(id, snapshot) =>
      && id !in s.ckpts
      && (exists paths :: snapshot.files == Captured(paths, s.files, unreadable))
      && snapshot.prior == map[]
      && t == s.(ckpts := s.ckpts[id := snapshot], taken := s.taken[id := s.files])
    case Idle => t == s
  }

  /** Every kind of step can be taken: a change of any path, a checkpoint under any unused number, and,
      once every checkpoint has the path on record, a change of it that nobody is told of. */
  lemma StepsCanBeTaken(s: State, p: Path, c: Content, id: Id, snapshot: Snapshot, paths: set<Path>,
                        unreadable: set<Path>)
    requires id !in s.ckpts && snapshot.prior == map[] && snapshot.files == Captured(paths, s.files, unreadable)
    ensures Next(s, Announced(p, c), State(Put(s.files, p, c), Record(s.ckpts, {p}, s.files, unreadable), s.taken),
                 unreadable)
    ensures Next(s, Take(id, snapshot), State(s.files, s.ckpts[id := snapshot], s.taken[id := s.files]), unreadable)
    ensures Next(s, Idle, s, unreadable)
    ensures (forall k :: k in s.ckpts ==> Recorded(s.ckpts[k], p)) ==>
              Next(s, Unannounced(p, c), State(Put(s.files, p, c), s.ckpts, s.taken), unreadable)
  {
  }

  ghost predicate IsRun(states: seq<State>, steps: seq<Step>, unreadable: set<Path>) {
    && |states| == |steps| + 1
    && forall i :: 0 <= i < |steps| ==> Next(states[i], steps[i], states[i + 1], unreadable)
  }

  ghost predicate Good(s: State, unreadable: set<Path>) {
    AllFaithful(s.ckpts, s.files, s.taken, unreadable)
  }

  lemma StepKeepsOverlay(s: State, step: Step, t: State, unreadable: set<Path>)
    requires Good(s, unreadable) && Next(s, step, t, unreadable)
    ensures Good(t, unreadable)
    ensures s.ckpts.Keys <= t.ckpts.Keys
    ensures forall id :: id in s.ckpts ==> t.taken[id] == s.taken[id]
  {
    match step
    case Announced(p, c) =>
      RecordedChangeIsFaithful(s.ckpts, {p}, s.files, t.files, s.taken, unreadable);
    case Unannounced(p, c) =>
      forall id | id in s.ckpts ensures Faithful(t.ckpts[id], t.files, t.taken[id], unreadable) {
        UnannouncedChange(s.ckpts[id], p, c, s.files, s.taken[id], unreadable);
      }
    case Take(id, snapshot) =>
      var paths :| snapshot.files == Captured(paths, s.files, unreadable);
      FreshCheckpointIsFaithful(snapshot, paths, s.files, unreadable);
      assert t.ckpts.Keys == s.ckpts.Keys + {id};
    case Idle =>
  }

  /** Safety over whole runs: every live checkpoint stays faithful to the disk it was taken on. */
  lemma {:induction false} RunKeepsOverlay(states: seq<State>, steps: seq<Step>, k: nat, unreadable: set<Path>)
    requires IsRun(states, steps, unreadable) && k <= |steps|
    requires Good(states[0], unreadable)
    ensures Good(states[k], unreadable)
    ensures states[0].ckpts.Keys <= states[k].ckpts.Keys
    ensures forall id :: id in states[0].ckpts ==> states[k].taken[id] == states[0].taken[id]
  {
    if k > 0 {
      RunKeepsOverlay(states, steps, k - 1, unreadable);
      StepKeepsOverlay(states[k - 1], steps[k - 1], states[k], unreadable);
    }
  }

  /** From a session start, take a checkpoint after any run, go on with any run: what a revert
      leaves is, on every readable path, the disk the checkpoint was taken on; unreadable paths stay
      as they are. The second run may hold other checkpoints and other reverts. */
  lemma RevertRestoresTheCheckpoint(states: seq<State>, steps: seq<Step>, at: nat, now: nat, r: Files,
                                    unreadable: set<Path>)
    requires IsRun(states, steps, unreadable) && at < now <= |steps|
    requires states[0].ckpts == map[]
    requires steps[at].Take?
    requires steps[at].id in states[now].ckpts ==> Restores(r, states[now].ckpts[steps[at].id], states[now].files)
    ensures steps[at].id in states[now].ckpts
    ensures Reproduces(r, states[at].files, unreadable)
    ensures forall p :: p in unreadable ==> At(r, p) == At(states[now].files, p)
  {
    RunKeepsOverlay(states, steps, at, unreadable);
    var id, later := steps[at].id, states[at + 1..];
    assert Next(states[at], steps[at], states[at + 1], unreadable);
    StepKeepsOverlay(states[at], steps[at], states[at + 1], unreadable);
    assert IsRun(later, steps[at + 1..], unreadable) by {
      forall i | 0 <= i < |steps[at + 1..]| ensures Next(later[i], steps[at + 1..][i], later[i + 1], unreadable) {
        assert Next(states[at + 1 + i], steps[at + 1 + i], states[at + 2 + i], unreadable);
      }
    }
    RunKeepsOverlay(later, steps[at + 1..], now - (at + 1), unreadable);
    assert later[now - (at + 1)] == states[now];
    RestoredIsTaken(r, states[now].ckpts[id], states[now].files, states[at].files, unreadable);
  }

  /** The revert's own writes are announced steps, so reverting is itself such a run: every other
      checkpoint, taken earlier or later, can still be reverted to afterwards. */
  lemma {:induction false} WritingIsARun(s: State, changes: seq<(Path, Content)>, unreadable: set<Path>)
    returns (states: seq<State>, steps: seq<Step>)
    requires Good(s, unreadable)
    ensures IsRun(states, steps, unreadable) && states[0] == s && |steps| == |changes|
    ensures forall i :: 0 <= i < |steps| ==> steps[i] == Announced(changes[i].0, changes[i].1)
    ensures Good(states[|steps|], unreadable)
    decreases |changes|
  {
    if changes == [] {
      states, steps := [s], [];
    } else {
      var (p, c) := changes[0];
      var t := State(Put(s.files, p, c), Record(s.ckpts, {p}, s.files, unreadable), s.taken);
      StepKeepsOverlay(s, Announced(p, c), t, unreadable);
      var moreStates, moreSteps := WritingIsARun(t, changes[1..], unreadable);
      states, steps := [s] + moreStates, [Announced(p, c)] + moreSteps;
    }
  }

  /** What a run of announced changes leaves, when changes of one path agree. */
  lemma {:induction false} WritesLeave(states: seq<State>, steps: seq<Step>, k: nat, want: map<Path, Content>,
                                       unreadable: set<Path>)
    requires IsRun(states, steps, unreadable) && k <= |steps|
    requires forall i :: 0 <= i < |steps| ==>
               steps[i].Announced? && steps[i].path in want && steps[i].content == want[steps[i].path]
    ensures states[k].ckpts.Keys == states[0].ckpts.Keys && states[k].taken == states[0].taken
    ensures forall p :: At(states[k].files, p) ==
                        if exists i :: 0 <= i < k && steps[i].path == p then want[p] else At(states[0].files, p)
  {
    if k > 0 {
      WritesLeave(states, steps, k - 1, want, unreadable);
      assert Next(states[k - 1], steps[k - 1], states[k], unreadable);
    }
  }

  /** What a revert writes: everything the checkpoint holds. */
  function Writes(s: Snapshot): map<Path, Content> {
    map p | p in s.files.Keys + s.prior.Keys :: if p in s.files then Held(s.files[p]) else s.prior[p]
  }

  /** A revert to one checkpoint, its changes in any order, is a run of announced changes: it ends in
      the disk that checkpoint was taken on, with every checkpoint, earlier or later, still right. */
  lemma RevertIsARun(s: State, id: Id, changes: seq<(Path, Content)>, unreadable: set<Path>)
    returns (states: seq<State>, steps: seq<Step>)
    requires Good(s, unreadable) && id in s.ckpts
    requires forall i :: 0 <= i < |changes| ==>
              changes[i].0 in Writes(s.ckpts[id]) && changes[i].1 == Writes(s.ckpts[id])[changes[i].0]
    requires forall p :: p in Writes(s.ckpts[id]) ==> exists i :: 0 <= i < |changes| && changes[i].0 == p
    ensures IsRun(states, steps, unreadable) && states[0] == s && |steps| == |changes|
    ensures var t := states[|steps|];
      && Good(t, unreadable) && t.ckpts.Keys == s.ckpts.Keys && t.taken == s.taken
      && Restores(t.files, s.ckpts[id], s.files) && Reproduces(t.files, s.taken[id], unreadable)
  {
    states, steps := WritingIsARun(s, changes, unreadable);
    WritesLeave(states, steps, |steps|, Writes(s.ckpts[id]), unreadable);
    EveryWriteIsAStep(states, steps, changes, s.ckpts[id], s.files);
    RestoredIsTaken(states[|steps|].files, s.ckpts[id], s.files, s.taken[id], unreadable);
  }

  lemma EveryWriteIsAStep(states: seq<State>, steps: seq<Step>, changes: seq<(Path, Content)>, s: Snapshot,
                          before: Files)
    requires |steps| == |changes| == |states| - 1
    requires forall i :: 0 <= i < |steps| ==> steps[i] == Announced(changes[i].0, changes[i].1)
    requires forall i :: 0 <= i < |changes| ==> changes[i].0 in Writes(s)
    requires forall p :: p in Writes(s) ==> exists i :: 0 <= i < |changes| && changes[i].0 == p
    requires forall p :: At(states[|steps|].files, p) ==
                         if exists i :: 0 <= i < |steps| && steps[i].path == p then Writes(s)[p] else At(before, p)
    ensures Restores(states[|steps|].files, s, before)
  {
    forall p ensures At(states[|steps|].files, p) == Seen(s, before, p) {
      if p in Writes(s) {
        var i :| 0 <= i < |changes| && changes[i].0 == p;
        assert steps[i].path == p;
      }
    }
  }
}
