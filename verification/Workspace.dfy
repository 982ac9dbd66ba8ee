/** The write path, and the workspace manager that watches it. */
module Workspace {
  import opened Order
  import opened Overlay
  import opened Ledger
  import opened Revisions

  datatype ReadResult = Read(data: Bytes) | NotExist | ReadError
  datatype RemoveResult = Removed | WasAbsent | RemoveError

  /** One file's new contents, or its removal. */
  datatype Change = Change(path: Path, content: Content)

  /** How a multi-file change ended: everything written; refused before anything was written; the
      files already written put back; or some of them not put back. */
  datatype Outcome =
    | Written
    | Refused(index: nat)
    | RolledBack(index: nat)
    | RollbackFailed(index: nat, failed: seq<Path>)

  datatype RevertResult = NotFound | MovedPast | Incomplete(outcome: Outcome) | Reverted

  function PathsOf(changes: seq<Change>): set<Path> {
    set c | c in changes :: c.path
  }

  /** All changes, in order. */
  function ApplyAll(files: Files, changes: seq<Change>): Files {
    if changes == [] then files
    else var last := changes[|changes| - 1]; Put(ApplyAll(files, changes[..|changes| - 1]), last.path, last.content)
  }

  lemma {:induction false} AppliedAt(files: Files, changes: seq<Change>, p: Path, c: Content)
    requires forall i :: 0 <= i < |changes| && changes[i].path == p ==> changes[i].content == c
    ensures At(ApplyAll(files, changes), p) == if p in PathsOf(changes) then c else At(files, p)
  {
    if changes != [] {
      var init, last := changes[..|changes| - 1], changes[|changes| - 1];
      assert changes == init + [last];
      AppliedAt(files, init, p, c);
      assert p in PathsOf(changes) <==> p in PathsOf(init) || last.path == p by {
        assert forall d :: d in changes <==> d in init || d == last;
      }
    } else {
      assert p !in PathsOf(changes);
    }
  }

  lemma {:induction false} AppliedElsewhere(files: Files, changes: seq<Change>)
    ensures SameExcept(files, ApplyAll(files, changes), PathsOf(changes))
  {
    forall p | p !in PathsOf(changes) ensures At(files, p) == At(ApplyAll(files, changes), p) {
      forall i | 0 <= i < |changes| ensures changes[i].path != p { assert changes[i] in changes; }
      AppliedAt(files, changes, p, Absent);
    }
  }

  lemma ApplyOneMore(files: Files, changes: seq<Change>, i: nat)
    requires i < |changes|
    ensures ApplyAll(files, changes[..i + 1]) == Put(ApplyAll(files, changes[..i]), changes[i].path, changes[i].content)
  {
    assert changes[..i + 1][..i] == changes[..i];
  }

  lemma PathsGrow(changes: seq<Change>, i: nat)
    requires i < |changes|
    ensures PathsOf(changes[..i + 1]) == PathsOf(changes[..i]) + {changes[i].path}
  {
  }

  // ---- When a change fails ------------------------------------------------------------------------------

  /** The paths that rolling back the first i changes restores; faulty are the restores that failed. */
  function RestoredPaths(changes: seq<Change>, i: nat, faulty: set<nat>): set<Path>
    requires i <= |changes|
  {
    set k | 0 <= k < i && k !in faulty :: changes[k].path
  }

  /** Whether change k's restore is reported as failed: it did, or it removes what is not there, because
      nothing was created or because the file was removed for an earlier change already. */
  predicate IsReported(original: Files, written: Files, changes: seq<Change>, k: nat, faulty: set<nat>)
    requires k < |changes|
  {
    var p := changes[k].path;
    k in faulty || (At(original, p).Absent? && (At(written, p).Absent? || p in RestoredPaths(changes, k, faulty)))
  }

  function Reported(original: Files, written: Files, changes: seq<Change>, i: nat, faulty: set<nat>): seq<Path>
    requires i <= |changes|
  {
    if i == 0 then []
    else
      var before := Reported(original, written, changes, i - 1, faulty);
      if IsReported(original, written, changes, i - 1, faulty) then before + [changes[i - 1].path] else before
  }

  /** What is on disk once change i has failed: the changes before it, rolled back but for the restores
      in faulty. */
  ghost predicate AfterFailure(original: Files, changes: seq<Change>, i: nat, faulty: set<nat>, r: Files) {
    && i < |changes| && (forall k :: k in faulty ==> k < i)
    && AfterRollback(r, original, ApplyAll(original, changes[..i]), RestoredPaths(changes, i, faulty))
  }

  /** What is answered then. */
  function Answer(original: Files, changes: seq<Change>, i: nat, faulty: set<nat>): Outcome
    requires i < |changes|
  {
    var failed := Reported(original, ApplyAll(original, changes[..i]), changes, i, faulty);
    if failed == [] then RolledBack(i) else RollbackFailed(i, failed)
  }

  lemma {:induction false} LaterFaults(original: Files, written: Files, changes: seq<Change>, i: nat,
                                       faulty: set<nat>, k: nat)
    requires i <= k <= |changes|
    ensures Reported(original, written, changes, i, faulty + {k}) == Reported(original, written, changes, i, faulty)
  {
    if i > 0 {
      LaterFaults(original, written, changes, i - 1, faulty, k);
      assert RestoredPaths(changes, i - 1, faulty + {k}) == RestoredPaths(changes, i - 1, faulty);
    }
  }

  /** The faults after one more restore. */
  function FaultsAfter(faulty: set<nat>, j: nat, faulted: bool): set<nat> {
    if faulted then faulty + {j} else faulty
  }

  lemma RestoredStep(r: Files, next: Files, original: Files, written: Files, changes: seq<Change>, j: nat,
                     faulty: set<nat>, faulted: bool)
    requires j < |changes| && forall k :: k in faulty ==> k < j
    requires AfterRollback(r, original, written, RestoredPaths(changes, j, faulty))
    requires next == if faulted then r else Put(r, changes[j].path, At(original, changes[j].path))
    ensures AfterRollback(next, original, written, RestoredPaths(changes, j + 1, FaultsAfter(faulty, j, faulted)))
  {
    assert RestoredPaths(changes, j + 1, FaultsAfter(faulty, j, faulted)) ==
           RestoredPaths(changes, j, faulty) + if faulted then {} else {changes[j].path};
  }

  lemma ReportedStep(r: Files, original: Files, written: Files, changes: seq<Change>, j: nat, faulty: set<nat>,
                     faulted: bool, ok: bool)
    requires j < |changes| && forall k :: k in faulty ==> k < j
    requires AfterRollback(r, original, written, RestoredPaths(changes, j, faulty))
    requires ok <==> !faulted && (At(original, changes[j].path).Absent? ==> changes[j].path in r)
    ensures Reported(original, written, changes, j + 1, FaultsAfter(faulty, j, faulted)) ==
            Reported(original, written, changes, j, faulty) + if ok then [] else [changes[j].path]
  {
    LaterFaults(original, written, changes, j, faulty, j);
    assert RestoredPaths(changes, j, FaultsAfter(faulty, j, faulted)) == RestoredPaths(changes, j, faulty);
    assert At(r, changes[j].path).Absent? <==> changes[j].path !in r;
  }

  /** Only paths among the changes are reported, and every change whose restore is reported is. */
  lemma {:induction false} ReportedAre(original: Files, written: Files, changes: seq<Change>, i: nat,
                                       faulty: set<nat>)
    requires i <= |changes|
    ensures forall p :: p in Reported(original, written, changes, i, faulty) <==>
              exists k :: 0 <= k < i && changes[k].path == p && IsReported(original, written, changes, k, faulty)
  {
    if i > 0 {
      ReportedAre(original, written, changes, i - 1, faulty);
    }
  }

  /** Whatever a failed run leaves changed is among the paths it reports. */
  lemma ReportsWhatIsLeft(original: Files, changes: seq<Change>, i: nat, faulty: set<nat>, r: Files)
    requires AfterFailure(original, changes, i, faulty, r)
    ensures var failed := Reported(original, ApplyAll(original, changes[..i]), changes, i, faulty);
      SameExcept(original, r, set p | p in failed) && forall p :: p in failed ==> p in PathsOf(changes[..i])
    ensures faulty == {} ==> r == original
  {
    var written := ApplyAll(original, changes[..i]);
    AppliedElsewhere(original, changes[..i]);
    ReportedAre(original, written, changes, i, faulty);
    forall p
      ensures At(r, p) == At(original, p) || (faulty != {} && p in Reported(original, written, changes, i, faulty))
    {
      if p in PathsOf(changes[..i]) {
        var c :| c in changes[..i] && c.path == p;
        var k :| 0 <= k < i && changes[k] == c;
        assert k in faulty || p in RestoredPaths(changes, i, faulty);
      }
    }
    if faulty == {} {
      SameContents(r, original);
    }
  }

  /** How a failed run ends: what is on disk and what is answered. Nothing has changed when no restore
      failed or the rollback is reported complete, otherwise only what is reported. */
  ghost predicate Undone(original: Files, changes: seq<Change>, outcome: Outcome, faulty: set<nat>, faults: int,
                         r: Files)
  {
    && (outcome.RolledBack? || outcome.RollbackFailed?)
    && AfterFailure(original, changes, outcome.index, faulty, r)
    && outcome == Answer(original, changes, outcome.index, faulty) && faults == 1 + |faulty|
    && (outcome.RolledBack? || faults == 1 ==> r == original)
    && (outcome.RollbackFailed? ==>
         && (forall p :: p in outcome.failed ==> p in PathsOf(changes[..outcome.index]))
         && SameExcept(original, r, set p | p in outcome.failed))
  }

  lemma UndoneTouches(original: Files, changes: seq<Change>, i: nat, faulty: set<nat>, r: Files)
    requires AfterFailure(original, changes, i, faulty, r)
    ensures SameExcept(original, r, PathsOf(changes[..i + 1]))
  {
    AppliedElsewhere(original, changes[..i]);
    PathsGrow(changes, i);
  }

  lemma IsUndone(original: Files, changes: seq<Change>, i: nat, faulty: set<nat>, r: Files)
    requires AfterFailure(original, changes, i, faulty, r)
    ensures Undone(original, changes, Answer(original, changes, i, faulty), faulty, 1 + |faulty|, r)
  {
    ReportsWhatIsLeft(original, changes, i, faulty, r);
    if Answer(original, changes, i, faulty).RolledBack? {
      SameContents(r, original);
    }
  }

  lemma {:induction false} NothingApplied(original: Files, changes: seq<Change>, i: nat)
    requires i <= |changes| && forall k :: 0 <= k < i ==> changes[k].content == At(original, changes[k].path)
    ensures ApplyAll(original, changes[..i]) == original
  {
    if i > 0 {
      NothingApplied(original, changes, i - 1);
      ApplyOneMore(original, changes, i - 1);
      SameContents(ApplyAll(original, changes[..i]), original);
    }
  }

  /** Every failing run of these changes, whichever restores fail, leaves the disk as it was. */
  ghost predicate AlwaysUndone(original: Files, changes: seq<Change>) {
    forall i, faulty, r :: AfterFailure(original, changes, i, faulty, r) ==> r == original
  }

  /** Exactly when a failure is sure to change nothing: every change but the last is what the disk holds
      already. */
  lemma AlwaysUndoneIff(original: Files, changes: seq<Change>)
    ensures AlwaysUndone(original, changes)
       <==> forall k :: 0 <= k < |changes| - 1 ==> changes[k].content == At(original, changes[k].path)
  {
    if AlwaysUndone(original, changes) {
      forall k | 0 <= k < |changes| - 1 ensures changes[k].content == At(original, changes[k].path) {
        NothingRestored(original, changes, k);
        NothingRestored(original, changes, k + 1);
        ApplyOneMore(original, changes, k);
      }
    } else {
      var i, faulty, r :| AfterFailure(original, changes, i, faulty, r) && r != original;
      if forall k :: 0 <= k < |changes| - 1 ==> changes[k].content == At(original, changes[k].path) {
        NothingApplied(original, changes, i);
        SameContents(r, original);
      }
    }
  }

  /** The numbers below i. */
  function Below(i: nat): (s: set<nat>)
    ensures forall k :: k in s <==> 0 <= k < i
  {
    if i == 0 then {} else Below(i - 1) + {i - 1}
  }

  /** A failing run in which no restore succeeds leaves what was written. */
  lemma NothingRestored(original: Files, changes: seq<Change>, i: nat)
    requires i < |changes|
    ensures AfterFailure(original, changes, i, Below(i), ApplyAll(original, changes[..i]))
  {
    assert RestoredPaths(changes, i, Below(i)) == {};
  }

  /** Two changes, the second failing, and the restore of the first: the first stays. */
  lemma FailedRestoreLeavesAChange()
    ensures var changes := [Change("a", Held([1])), Change("b", Held([1]))];
      exists original, r :: AfterFailure(original, changes, 1, {0}, r) && r != original
                              && Answer(original, changes, 1, {0}) == RollbackFailed(1, ["a"])
  {
    var changes, original := [Change("a", Held([1])), Change("b", Held([1]))], map["a" := [0], "b" := [0]];
    NothingRestored(original, changes, 1);
    assert Below(1) == {0};
    ApplyOneMore(original, changes, 0);
    assert Reported(original, ApplyAll(original, changes[..1]), changes, 0, {0}) == [];
    assert ApplyAll(original, changes[..1])["a"] == [1];
  }

  /** Every absent path among the first i changes is given contents, by one of them only. */
  predicate CreatesOnce(original: Files, changes: seq<Change>, i: nat)
    requires i <= |changes|
  {
    forall k :: 0 <= k < i && At(original, changes[k].path).Absent? ==>
      changes[k].content.Held? && forall j :: 0 <= j < i && j != k ==> changes[j].path != changes[k].path
  }

  /** Exactly when a rollback of i changes in which no restore fails reports none as failed. */
  lemma ReportsNothingIff(original: Files, changes: seq<Change>, i: nat)
    requires i < |changes|
    ensures Answer(original, changes, i, {}) == RolledBack(i) <==> CreatesOnce(original, changes, i)
  {
    var written := ApplyAll(original, changes[..i]);
    var failed := Reported(original, written, changes, i, {});
    ReportedAre(original, written, changes, i, {});
    if !CreatesOnce(original, changes, i) {
      var k := SomeRestoreReported(original, written, changes, i);
      assert changes[k].path in failed;
    } else if failed != [] {
      assert failed[0] in failed;
      var k :| 0 <= k < i && IsReported(original, written, changes, k, {});
      CreatedIsNotReported(original, changes, i, k);
    }
  }

  lemma CreatedIsNotReported(original: Files, changes: seq<Change>, i: nat, k: nat)
    requires k < i <= |changes| && CreatesOnce(original, changes, i)
    ensures !IsReported(original, ApplyAll(original, changes[..i]), changes, k, {})
  {
    var p := changes[k].path;
    if At(original, p).Absent? {
      assert changes[k] in changes[..i];
      forall j | 0 <= j < i && changes[..i][j].path == p ensures changes[..i][j].content == changes[k].content {
        assert changes[..i][j] == changes[j];
      }
      AppliedAt(original, changes[..i], p, changes[k].content);
    }
  }

  lemma SomeRestoreReported(original: Files, written: Files, changes: seq<Change>, i: nat) returns (k: nat)
    requires i <= |changes| && written == ApplyAll(original, changes[..i]) && !CreatesOnce(original, changes, i)
    ensures k < i && IsReported(original, written, changes, k, {})
  {
    k :| 0 <= k < i && At(original, changes[k].path).Absent?
         && !(changes[k].content.Held? && forall j :: 0 <= j < i && j != k ==> changes[j].path != changes[k].path);
    if j :| 0 <= j < i && j != k && changes[j].path == changes[k].path {
      var first := if j < k then j else k;
      k := if j < k then k else j;
      assert changes[first].path in RestoredPaths(changes, k, {});
    } else {
      assert changes[k] in changes[..i];
      AppliedAt(original, changes[..i], changes[k].path, changes[k].content);
    }
  }

  /** Removing what is not there, then a change that fails: the rollback is reported incomplete, though
      nothing has changed. */
  lemma RestoreReportedWithoutCause(r: Files)
    ensures var changes := [Change("a", Absent), Change("b", Held([1]))];
      AfterFailure(map[], changes, 1, {}, r) ==>
        r == map[] && Answer(map[], changes, 1, {}) == RollbackFailed(1, ["a"])
  {
    var changes := [Change("a", Absent), Change("b", Held([1]))];
    if AfterFailure(map[], changes, 1, {}, r) {
      ReportsWhatIsLeft(map[], changes, 1, {}, r);
      ReportsNothingIff(map[], changes, 1);
      assert Reported(map[], ApplyAll(map[], changes[..1]), changes, 0, {}) == [];
    }
  }

  class Disk {
    var files: Files
    // Paths whose reads fail for a reason other than absence.
    const unreadable: set<Path>
    var observers: seq<Manager>
    // How many writes and removals have failed.
    ghost var faults: nat

    ghost predicate Wired()
      reads this`observers
    {
      && (forall i, j :: 0 <= i < j < |observers| ==> observers[i] != observers[j])
      && forall m :: m in observers ==> m.disk == this
    }

    /** Every observer's every live checkpoint is faithful to this disk. */
    ghost predicate Valid()
      reads this`files, this`observers, observers`ckpts, observers`taken
    {
      && Wired()
      && forall m :: m in observers ==> AllFaithful(m.ckpts, files, m.taken, unreadable)
    }

    /** Every observer recorded what paths held before they changed, and nothing else. */
    twostate predicate Told(paths: set<Path>)
      reads this`observers, observers`ckpts
    {
      observers == old(observers) && forall m :: m in observers ==>
        m.ckpts == Record(old(m.ckpts), paths, old(files), unreadable)
    }

    /** No observer lost or gained a checkpoint. */
    twostate predicate KeepsCheckpoints()
      reads this`observers, observers`ckpts
    {
      observers == old(observers) && forall m :: m in observers ==> m.ckpts.Keys == old(m.ckpts).Keys
    }

    function ReadFile(path: Path): (r: ReadResult)
      reads this`files
      ensures r.Read? <==> path !in unreadable && At(files, path).Held?
      ensures r.NotExist? <==> path !in unreadable && At(files, path).Absent?
      ensures r.Read? ==> At(files, path) == Held(r.data)
    {
      if path in unreadable then ReadError
      else if path in files then Read(files[path])
      else NotExist
    }

    method Notify(path: Path)
      requires Wired()
      modifies observers`ckpts
      ensures Told({path})
    {
      var i := 0;
      while i < |observers|
        invariant 0 <= i <= |observers|
        invariant forall j :: 0 <= j < i ==>
                    observers[j].ckpts == Record(old(observers[j].ckpts), {path}, files, unreadable)
        invariant forall j :: i <= j < |observers| ==> observers[j].ckpts == old(observers[j].ckpts)
      {
        observers[i].BeforeWrite(path);
        i := i + 1;
      }
    }

    /** Observers are told, then the file is replaced as a whole or not at all. */
    method File(path: Path, data: Bytes) returns (ok: bool)
      requires Wired()
      modifies this`files, this`faults, observers`ckpts
      ensures Told({path})
      ensures files == if ok then old(files)[path := data] else old(files)
      ensures faults == old(faults) + if ok then 0 else 1
    {
      Notify(path);
      ok := *;
      if ok {
        files := files[path := data];
      } else {
        faults := faults + 1;
      }
    }

    /** A write keeps every checkpoint faithful. */
    method Write(path: Path, data: Bytes) returns (ok: bool)
      requires Valid()
      modifies this`files, this`faults, observers`ckpts
      ensures Valid() && Told({path})
      ensures files == if ok then old(files)[path := data] else old(files)
      ensures faults == old(faults) + if ok then 0 else 1
    {
      ok := File(path, data);
      StillFaithful({path});
    }

    method OsRemove(path: Path) returns (r: RemoveResult)
      modifies this`files, this`faults
      ensures r.WasAbsent? ==> path !in old(files)
      ensures r.Removed? ==> path in old(files)
      ensures files == if r.Removed? then old(files) - {path} else old(files)
      ensures faults == old(faults) + if r.RemoveError? then 1 else 0
    {
      var works: bool := *;
      if !works {
        faults := faults + 1;
        r := RemoveError;
      } else if path in files {
        files := files - {path};
        r := Removed;
      } else {
        r := WasAbsent;
      }
    }

    method Remove(path: Path) returns (r: RemoveResult)
      requires Wired()
      modifies this`files, this`faults, observers`ckpts
      ensures Told({path})
      ensures r.WasAbsent? ==> path !in old(files)
      ensures r.Removed? ==> path in old(files)
      ensures files == if r.Removed? then old(files) - {path} else old(files)
      ensures faults == old(faults) + if r.RemoveError? then 1 else 0
    {
      Notify(path);
      r := OsRemove(path);
    }

    /** Every checkpoint of every observer has these paths on record, or cannot. */
    ghost predicate Known(paths: set<Path>)
      reads this`observers, observers`ckpts
    {
      forall m, id, p :: m in observers && id in m.ckpts && p in paths ==> Recorded(m.ckpts[id], p) || p in unreadable
    }

    twostate lemma StillFaithful(paths: set<Path>)
      requires old(Valid()) && Wired() && observers == old(observers)
      requires unchanged(observers`taken)
      requires Told(paths) && SameExcept(old(files), files, paths)
      ensures Valid()
    {
      forall m | m in observers ensures AllFaithful(m.ckpts, files, m.taken, unreadable) {
        RecordedChangeIsFaithful(old(m.ckpts), paths, old(files), files, m.taken, unreadable);
      }
    }

    lemma NothingNoted(was: map<Manager, Snapshots>)
      requires forall m :: m in observers ==> m in was && was[m] == m.ckpts
      ensures Noted(was, {}, files)
    {
      forall m | m in observers ensures Record(was[m], {}, files, unreadable) == m.ckpts {
        RecordKnown(m.ckpts, {}, files, unreadable);
      }
    }

    lemma NotedIsFaithful(was: map<Manager, Snapshots>, paths: set<Path>, original: Files)
      requires Wired() && Noted(was, paths, original) && SameExcept(original, files, paths)
      requires forall m :: m in observers ==> AllFaithful(was[m], original, m.taken, unreadable)
      ensures Valid()
    {
      forall m | m in observers ensures AllFaithful(m.ckpts, files, m.taken, unreadable) {
        RecordedChangeIsFaithful(was[m], paths, original, files, m.taken, unreadable);
      }
    }

    /** Every checkpoint has a readable path among these on record, or the path is as it was. */
    ghost predicate Accounted(paths: set<Path>, original: Files)
      reads this`files, this`observers, observers`ckpts
    {
      forall m, id, p :: m in observers && id in m.ckpts && p in paths ==>
        Recorded(m.ckpts[id], p) || p in unreadable || At(files, p) == At(original, p)
    }

    /** Announced changes, and unannounced ones to the paths in around: exactly when every checkpoint
        stays right. */
    lemma NotedIsValidIff(was: map<Manager, Snapshots>, paths: set<Path>, around: set<Path>, original: Files)
      requires Wired() && Noted(was, paths, original) && SameExcept(original, files, paths + around)
      requires forall m :: m in observers ==> AllFaithful(was[m], original, m.taken, unreadable)
      ensures Valid() <==> Accounted(around, original)
    {
      forall m | m in observers
        ensures AllFaithful(m.ckpts, original, m.taken, unreadable)
        ensures forall id, p :: id in m.ckpts && p in paths ==> Recorded(m.ckpts[id], p) || p in unreadable
      {
        RecordedChangeIsFaithful(was[m], paths, original, original, m.taken, unreadable);
        forall id, p | id in m.ckpts && p in paths ensures Recorded(m.ckpts[id], p) || p in unreadable {
          assert m.ckpts[id] == RecordIn(was[m][id], paths, original, unreadable);
        }
      }
      forall m, id | m in observers && id in m.ckpts
        ensures Faithful(m.ckpts[id], files, m.taken[id], unreadable)
           <==> forall p :: p in around ==>
                  Recorded(m.ckpts[id], p) || p in unreadable || At(files, p) == At(original, p)
      {
        UnannouncedChanges(m.ckpts[id], paths + around, original, files, m.taken[id], unreadable);
      }
    }

    twostate lemma ToldIsKnown(paths: set<Path>)
      requires observers == old(observers) && Told(paths)
      ensures Known(paths)
    {
      forall m, id, p | m in observers && id in m.ckpts && p in paths
        ensures Recorded(m.ckpts[id], p) || p in unreadable
      {
        assert m.ckpts[id] == RecordIn(old(m.ckpts)[id], paths, old(files), unreadable);
      }
    }

    twostate lemma ToldNothing()
      requires unchanged(this) && forall m :: m in observers ==> m.ckpts == old(m.ckpts)
      ensures Told({}) && Told(PathsOf([]))
    {
      assert PathsOf([]) == {};
      forall m | m in observers ensures Record(old(m.ckpts), {}, files, unreadable) == m.ckpts {
        RecordKnown(m.ckpts, {}, files, unreadable);
      }
    }

    /** Puts back what the first i changes' paths held. A failure is noted and the rest go on; the
        plain removal of a created file is not announced, which is harmless because every
        checkpoint already has the path on record. */
    method RollBack(changes: seq<Change>, saved: seq<Content>, i: nat, ghost original: Files)
      returns (failed: seq<Path>, ghost faulty: set<nat>)
      requires Wired() && i < |changes| == |saved|
      requires forall k :: 0 <= k < i ==> saved[k] == At(original, changes[k].path)
      requires Known(PathsOf(changes[..i]))
      modifies this`files, this`faults, observers`ckpts
      ensures forall m :: m in observers ==> m.ckpts == old(m.ckpts)
      ensures (forall k :: k in faulty ==> k < i) && faults == old(faults) + |faulty|
      ensures AfterRollback(files, original, old(files), RestoredPaths(changes, i, faulty))
      ensures failed == Reported(original, old(files), changes, i, faulty)
    {
      failed, faulty := [], {};
      var j := 0;
      while j < i
        invariant 0 <= j <= i
        invariant forall m :: m in observers ==> m.ckpts == old(m.ckpts)
        invariant (forall k :: k in faulty ==> k < j) && faults == old(faults) + |faulty|
        invariant AfterRollback(files, original, old(files), RestoredPaths(changes, j, faulty))
        invariant failed == Reported(original, old(files), changes, j, faulty)
      {
        var path := changes[j].path;
        AmongThem(changes, j, i);
        ghost var before := files;
        var ok, faulted := RestoreOne(path, saved[j]);
        RestoredStep(before, files, original, old(files), changes, j, faulty, faulted);
        ReportedStep(before, original, old(files), changes, j, faulty, faulted, ok);
        faulty := FaultsAfter(faulty, j, faulted);
        if !ok {
          failed := failed + [path];
        }
        j := j + 1;
      }
    }

    /** Puts back what one path held. Removing what is not there counts as a failure. */
    method RestoreOne(path: Path, content: Content) returns (ok: bool, ghost faulted: bool)
      requires Wired() && Known({path})
      modifies this`files, this`faults, observers`ckpts
      ensures forall m :: m in observers ==> m.ckpts == old(m.ckpts)
      ensures files == if faulted then old(files) else Put(old(files), path, content)
      ensures faults == old(faults) + if faulted then 1 else 0
      ensures ok <==> !faulted && (content.Absent? ==> path in old(files))
    {
      if content.Held? {
        ok := File(path, content.data);
        faulted := !ok;
        forall m | m in observers ensures m.ckpts == old(m.ckpts) {
          RecordKnown(old(m.ckpts), {path}, old(files), unreadable);
        }
      } else {
        var r := OsRemove(path);
        ok, faulted := r.Removed?, r.RemoveError?;
        assert path !in old(files) ==> old(files) - {path} == old(files);
      }
    }

    /** A formatter handed the path rewrites the file behind the write path's back. */
    method FormatInPlace(path: Path) returns (moved: bool)
      modifies this`files, this`faults
      ensures SameExcept(old(files), files, {path})
      ensures !moved ==> files == old(files)
    {
      moved := *;
      if path in files && moved {
        var formatted: Bytes := *;
        files := files[path := formatted];
      } else {
        moved := false;
      }
    }

    /** One change: a removal of something already gone is no failure. */
    method ApplyChange(change: Change) returns (ok: bool)
      requires Wired()
      modifies this`files, this`faults, observers`ckpts
      ensures Told({change.path})
      ensures files == if ok then Put(old(files), change.path, change.content) else old(files)
      ensures faults == old(faults) + if ok then 0 else 1
    {
      if change.content.Absent? {
        var r := Remove(change.path);
        ok := !r.RemoveError?;
        assert change.path !in old(files) ==> old(files) - {change.path} == old(files);
      } else {
        ok := File(change.path, change.content.data);
      }
    }

    predicate IsFirstUnreadable(changes: seq<Change>, i: nat) {
      i < |changes| && changes[i].path in unreadable && forall k :: 0 <= k < i ==> changes[k].path !in unreadable
    }

    /** What each changed path holds now, or the first path that cannot be read. */
    method ReadAll(changes: seq<Change>) returns (saved: seq<Content>, refused: Option<nat>)
      ensures refused.Some? <==> exists c :: c in changes && c.path in unreadable
      ensures refused.Some? ==> IsFirstUnreadable(changes, refused.value)
      ensures refused.None? ==>
                && |saved| == |changes|
                && forall k :: 0 <= k < |changes| ==> saved[k] == At(files, changes[k].path)
    {
      saved, refused := [], None;
      var i := 0;
      while i < |changes|
        invariant 0 <= i <= |changes| && |saved| == i
        invariant forall k :: 0 <= k < i ==> changes[k].path !in unreadable && saved[k] == At(files, changes[k].path)
      {
        match ReadFile(changes[i].path) {
          case ReadError => return saved, Some(i);
          case Read(data) => saved := saved + [Held(data)];
          case NotExist => saved := saved + [Absent];
        }
        i := i + 1;
      }
    }

    /** Each observer's checkpoints are what they were, plus a record of the given paths. */
    ghost predicate Noted(was: map<Manager, Snapshots>, paths: set<Path>, original: Files)
      reads this`observers, observers`ckpts
    {
      forall m :: m in observers ==> m in was && m.ckpts == Record(was[m], paths, original, unreadable)
    }

    /** One turn of the writing loop. */
    method WriteNext(change: Change, ghost paths: set<Path>, ghost was: map<Manager, Snapshots>, ghost original: Files)
      returns (ok: bool)
      requires Wired() && Noted(was, paths, original) && SameExcept(original, files, paths)
      modifies this`files, this`faults, observers`ckpts
      ensures Noted(was, paths + {change.path}, original) && SameExcept(original, files, paths + {change.path})
      ensures files == if ok then Put(old(files), change.path, change.content) else old(files)
      ensures faults == old(faults) + if ok then 0 else 1
    {
      ok := ApplyChange(change);
      forall m | m in observers
        ensures m.ckpts == Record(was[m], paths + {change.path}, original, unreadable)
      {
        RecordTwice(was[m], old(m.ckpts), m.ckpts, paths, {change.path}, paths + {change.path},
                    original, old(files), unreadable);
      }
    }

    /** The writing loop: all changes in order, or the index of the first that failed. */
    method WriteUntilFailure(changes: seq<Change>) returns (i: nat)
      requires Wired()
      modifies this`files, this`faults, observers`ckpts
      ensures i <= |changes|
      ensures i == |changes| ==> files == ApplyAll(old(files), changes) && Told(PathsOf(changes))
      ensures i < |changes| ==> files == ApplyAll(old(files), changes[..i]) && Told(PathsOf(changes[..i + 1]))
      ensures faults == old(faults) + if i < |changes| then 1 else 0
    {
      ghost var was := map m | m in observers :: m.ckpts;
      ghost var original := files;
      i := 0;
      ToldNothing();
      while i < |changes|
        invariant i <= |changes| && faults == old(faults)
        invariant Noted(was, PathsOf(changes[..i]), original)
        invariant files == ApplyAll(original, changes[..i]) && SameExcept(original, files, PathsOf(changes[..i]))
      {
        PathsGrow(changes, i);
        ApplyOneMore(original, changes, i);
        var ok := WriteNext(changes[i], PathsOf(changes[..i]), was, original);
        if !ok {
          return;
        }
        i := i + 1;
      }
      assert changes[..i] == changes;
    }

    /** All of the changes, or an attempt to undo those already made when one fails: refused, for a path
        that cannot be read, before anything is written. faulty are the restores that failed. */
    method WriteFiles(changes: seq<Change>) returns (outcome: Outcome, ghost faulty: set<nat>)
      requires Valid()
      modifies this`files, this`faults, observers`ckpts
      ensures Valid()
      ensures outcome.Refused? <==> exists c :: c in changes && c.path in unreadable
      ensures outcome.Refused? ==> IsFirstUnreadable(changes, outcome.index)
      ensures KeepsCheckpoints()
      ensures outcome.Written? || outcome.Refused? <==> faults == old(faults)
      ensures outcome.Written? ==> files == ApplyAll(old(files), changes)
      ensures outcome.Refused? ==> files == old(files)
      ensures outcome.RolledBack? || outcome.RollbackFailed? ==>
                Undone(old(files), changes, outcome, faulty, faults - old(faults), files)
    {
      faulty := {};
      var saved, refused := ReadAll(changes);
      if refused.Some? {
        return Refused(refused.value), faulty;
      }
      var i := WriteUntilFailure(changes);
      if i == |changes| {
        AppliedElsewhere(old(files), changes);
        StillFaithful(PathsOf(changes));
        return Written, faulty;
      }
      PathsGrow(changes, i);
      ToldIsKnown(PathsOf(changes[..i + 1]));
      var failed;
      failed, faulty := RollBack(changes, saved, i, old(files));
      assert Told(PathsOf(changes[..i + 1]));
      UndoneTouches(old(files), changes, i, faulty, files);
      StillFaithful(PathsOf(changes[..i + 1]));
      IsUndone(old(files), changes, i, faulty, files);
      outcome := if failed == [] then RolledBack(i) else RollbackFailed(i, failed);
    }
  }

  class Manager {
    const disk: Disk
    const clean: string -> string
    var revision: nat
    var changed: set<string>
    var lastId: nat
    var ckpts: Snapshots
    var ledger: seq<Entry>
    // What the disk held when each checkpoint was taken, the bumps ever made, the revisions reverts
    // spent, and the disk at the first and every later revision: what the real fields are measured
    // against.
    ghost var taken: map<Id, Files>
    ghost var history: seq<Entry>
    ghost var reverts: nat
    ghost const first: Files
    ghost var turns: seq<Turn>

    /** The ledger answers for the whole history, and checkpoint numbers are not reused. */
    ghost predicate Booked()
      reads this`revision, this`ledger, this`history, this`reverts, this`turns, this`ckpts, this`lastId
    {
      && Books(ledger, history, revision, reverts, turns)
      && forall id :: id in ckpts ==> id <= lastId
    }

    ghost predicate Valid()
      reads this, disk, disk.observers
    {
      this in disk.observers && disk.Valid() && Booked()
    }

    constructor (disk: Disk, clean: string -> string)
      requires disk.Valid()
      modifies disk`observers
      ensures this.disk == disk && this.clean == clean
      ensures Valid() && disk.observers == old(disk.observers) + [this]
      ensures revision == 1 && changed == {} && ckpts == map[] && history == []
      ensures first == disk.files && turns == []
    {
      this.disk, this.clean := disk, clean;
      revision, changed, lastId, ckpts, ledger := 1, {}, 0, map[], [];
      taken, history, reverts, first, turns := map[], [], 0, disk.files, [];
      new;
      disk.observers := disk.observers + [this];
    }

    /** Told of a coming change of path: each checkpoint with nothing of it yet gets what it holds. */
    method BeforeWrite(path: Path)
      modifies this`ckpts
      ensures ckpts == Record(old(ckpts), {path}, disk.files, disk.unreadable)
    {
      var state: Content;
      match disk.ReadFile(path) {
        case ReadError =>
          RecordKnown(ckpts, {path}, disk.files, disk.unreadable);
          return;
        case Read(data) => state := Held(data);
        case NotExist => state := Absent;
      }
      var todo := ckpts.Keys;
      while todo != {}
        invariant ckpts.Keys == old(ckpts).Keys
        invariant todo <= ckpts.Keys
        invariant forall id :: id in todo ==> ckpts[id] == old(ckpts)[id]
        invariant forall id :: id in ckpts && id !in todo ==>
                    ckpts[id] == RecordIn(old(ckpts)[id], {path}, disk.files, disk.unreadable)
      {
        var id :| id in todo;
        todo := todo - {id};
        var s := ckpts[id];
        RecordInOne(s, path, disk.files, disk.unreadable);
        if !Recorded(s, path) {
          ckpts := ckpts[id := s.(prior := s.prior[path := state])];
        }
      }
    }

    /** Current contents of every path touched so far that exists and can be read. */
    method Capture() returns (captured: Files)
      ensures captured == Captured(KeyPaths(changed), disk.files, disk.unreadable)
    {
      captured := map[];
      var todo := changed;
      while todo != {}
        invariant todo <= changed
        invariant captured == Captured(KeyPaths(changed - todo), disk.files, disk.unreadable)
      {
        var key :| key in todo;
        var path, done := PathFromKey(key), KeyPaths(changed - todo);
        KeyPathsPlus(changed - todo, key);
        assert changed - (todo - {key}) == changed - todo + {key};
        CapturedPlus(done, path, disk.files, disk.unreadable);
        todo := todo - {key};
        if path !in captured {
          var r := disk.ReadFile(path);
          if r.Read? {
            captured := captured[path := r.data];
          }
        }
      }
      assert changed - {} == changed;
    }

    /** Takes a checkpoint; head is git's HEAD, or "". */
    method Checkpoint(head: string) returns (id: Id)
      requires Valid()
      modifies this`lastId, this`ckpts, this`taken
      ensures Valid()
      ensures id !in old(ckpts) && taken == old(taken)[id := disk.files]
      ensures ckpts == old(ckpts)[id := Snapshot(revision, changed,
                         Captured(KeyPaths(changed), disk.files, disk.unreadable), map[], head)]
    {
      lastId := lastId + 1;
      id := lastId;
      var captured := Capture();
      var s := Snapshot(revision, changed, captured, map[], head);
      FreshCheckpointIsFaithful(s, KeyPaths(changed), disk.files, disk.unreadable);
      ckpts := ckpts[id := s];
      taken := taken[id := disk.files];
    }

    /** What a revert has to write: every captured file and every recorded prior state, sorted by path. */
    static method RestoringChanges(s: Snapshot) returns (changes: seq<Change>)
      ensures IsRestoring(s, changes)
    {
      changes := [];
      var todo := s.files.Keys;
      while todo != {}
        invariant todo <= s.files.Keys && Collected(s, changes, s.files.Keys - todo)
      {
        var path :| path in todo;
        CollectOne(s, changes, s.files.Keys - todo, path);
        assert s.files.Keys - (todo - {path}) == s.files.Keys - todo + {path};
        todo := todo - {path};
        changes := changes + [Change(path, Held(s.files[path]))];
      }
      todo := s.prior.Keys;
      assert s.files.Keys + (s.prior.Keys - todo) == s.files.Keys - {};
      while todo != {}
        invariant todo <= s.prior.Keys && Collected(s, changes, s.files.Keys + (s.prior.Keys - todo))
      {
        var path :| path in todo;
        var done := s.files.Keys + (s.prior.Keys - todo);
        assert s.files.Keys + (s.prior.Keys - (todo - {path})) == done + {path};
        todo := todo - {path};
        if path !in s.files {
          CollectOne(s, changes, done, path);
          changes := changes + [Change(path, s.prior[path])];
        } else {
          assert done + {path} == done;
        }
      }
      SortCollected(s, changes);
      changes := SortByPath(changes);
    }

    /** Writes a checkpoint's changes. */
    method PutBack(id: Id) returns (outcome: Outcome)
      requires Valid() && id in ckpts
      modifies disk`files, disk`faults, disk.observers`ckpts
      ensures Valid()
      ensures !outcome.Refused?
      ensures outcome.Written? ==>
                && Restores(disk.files, old(ckpts)[id], old(disk.files))
                && Reproduces(disk.files, taken[id], disk.unreadable)
      ensures !outcome.Written? ==>
                HalfReverted(old(ckpts)[id], old(disk.files), outcome, disk.faults - old(disk.faults), disk.files)
      ensures outcome.Written? <==> disk.faults == old(disk.faults)
      ensures disk.KeepsCheckpoints()
    {
      var s, before := ckpts[id], disk.files;
      var changes := RestoringChanges(s);
      AllReadable(id, changes);
      ghost var faulty;
      outcome, faulty := disk.WriteFiles(changes);
      assert Valid() && disk.KeepsCheckpoints();
      if outcome.Written? {
        RestoringRestores(s, changes, before);
        RestoredIsTaken(disk.files, s, before, taken[id], disk.unreadable);
      } else {
        IsHalfReverted(s, before, changes, outcome, faulty, disk.faults - old(disk.faults), disk.files);
      }
    }

    /** The same, and when all is written the new revision. */
    method Restore(id: Id) returns (outcome: Outcome)
      requires Valid() && id in ckpts
      modifies this`revision, this`changed, this`reverts, this`turns, disk`files, disk`faults, disk.observers`ckpts
      ensures Valid() && disk.KeepsCheckpoints()
      ensures outcome.Written? ==> Completed(old(ckpts)[id], old(disk.files), taken[id])
      ensures outcome.Written? ==>
                && revision == old(revision) + 1
                && turns == old(turns) + [Revert(RecordedPaths(old(ckpts)[id]), disk.files)]
      ensures !outcome.Written? ==>
                HalfReverted(old(ckpts)[id], old(disk.files), outcome, disk.faults - old(disk.faults), disk.files)
      ensures !outcome.Written? ==>
                revision == old(revision) && changed == old(changed) && turns == old(turns)
      ensures outcome.Written? <==> disk.faults == old(disk.faults)
    {
      ghost var s := ckpts[id];
      var snapshotChanged := ckpts[id].changed;
      outcome := PutBack(id);
      if outcome.Written? {
        SpendRevision(snapshotChanged, RecordedPaths(s));
      }
    }

    /** The disk and the touched set are what the checkpoint says. */
    ghost predicate Completed(s: Snapshot, before: Files, was: Files)
      reads this`changed, disk`files
    {
      && Restores(disk.files, s, before) && Reproduces(disk.files, was, disk.unreadable)
      && SameExcept(before, disk.files, RecordedPaths(s)) && changed == s.changed
    }

    lemma AllReadable(id: Id, changes: seq<Change>)
      requires Valid() && id in ckpts
      requires PathsOf(changes) == RecordedPaths(ckpts[id])
      ensures Faithful(ckpts[id], disk.files, taken[id], disk.unreadable)
      ensures !exists c :: c in changes && c.path in disk.unreadable
    {
      forall c | c in changes ensures c.path !in disk.unreadable {
        assert c.path in PathsOf(changes) && Recorded(ckpts[id], c.path);
      }
    }

    /** Puts the workspace back to a checkpoint, unless a commit has landed since. A refused revert
        changes nothing; a completed one is a new revision. */
    method RevertCheckpoint(id: Id, headNow: string) returns (result: RevertResult)
      requires Valid()
      modifies this`revision, this`changed, this`reverts, this`turns, disk`files, disk`faults, disk.observers`ckpts
      ensures Valid()
      ensures result.NotFound? <==> id !in old(ckpts)
      ensures result.MovedPast? <==> id in old(ckpts) && old(ckpts)[id].head != headNow
      ensures result.NotFound? || result.MovedPast? ==> disk.files == old(disk.files) && ckpts == old(ckpts)
      ensures result.Reverted? ==>
                && Completed(old(ckpts)[id], old(disk.files), taken[id])
                && revision == old(revision) + 1
                && turns == old(turns) + [Revert(RecordedPaths(old(ckpts)[id]), disk.files)]
      ensures result.Incomplete? ==>
                HalfReverted(old(ckpts)[id], old(disk.files), result.outcome, disk.faults - old(disk.faults),
                             disk.files)
      ensures !result.Reverted? ==>
                revision == old(revision) && changed == old(changed) && turns == old(turns)
      ensures result.Incomplete? <==> disk.faults != old(disk.faults)
      ensures disk.KeepsCheckpoints()
    {
      if id !in ckpts {
        result := NotFound;
      } else if ckpts[id].head != headNow {
        result := MovedPast;
      } else {
        var outcome := Restore(id);
        result := if outcome.Written? then Reverted else Incomplete(outcome);
      }
    }

    /** Counts a completed revert as a revision; the ledger does not hear of it. */
    method SpendRevision(snapshotChanged: set<string>, ghost wrote: set<Path>)
      requires Booked()
      modifies this`revision, this`changed, this`reverts, this`turns
      ensures Booked()
      ensures revision == old(revision) + 1 && changed == snapshotChanged
                && turns == old(turns) + [Revert(wrote, disk.files)]
    {
      BooksAfterRevert(ledger, history, revision, reverts, turns, wrote, disk.files);
      revision, reverts, changed := revision + 1, reverts + 1, snapshotChanged;
      turns := turns + [Revert(wrote, disk.files)];
    }

    /** The paths of a ledger entry. */
    method EntryPaths(changedPaths: seq<string>) returns (paths: seq<Path>)
      ensures Ascending(paths) && forall q :: q in paths <==> q in Noted(clean, changedPaths)
    {
      paths := [];
      var i := 0;
      while i < |changedPaths|
        invariant 0 <= i <= |changedPaths|
        invariant forall q :: q in paths <==> q in Noted(clean, changedPaths[..i])
      {
        NotedPlus(clean, changedPaths, i);
        if changedPaths[i] != "" {
          var path := PathFromKey(clean(changedPaths[i]));
          if path !in paths {
            paths := paths + [path];
          }
        }
        i := i + 1;
      }
      assert changedPaths[..|changedPaths|] == changedPaths;
      paths := SortedDistinct(paths);
    }

    method MarkChanged(changedPaths: seq<string>)
      modifies this`changed
      ensures changed == old(changed) + Cleaned(clean, changedPaths)
    {
      var i := 0;
      while i < |changedPaths|
        invariant 0 <= i <= |changedPaths|
        invariant changed == old(changed) + Cleaned(clean, changedPaths[..i])
      {
        NotedPlus(clean, changedPaths, i);
        if changedPaths[i] != "" {
          OneMoreKey(old(changed), Cleaned(clean, changedPaths[..i]), clean(changedPaths[i]));
          changed := changed + {clean(changedPaths[i])};
        }
        i := i + 1;
      }
      assert changedPaths[..|changedPaths|] == changedPaths;
    }

    method BumpRevision(changedPaths: seq<string>) returns (oldRevision: nat, newRevision: nat, ghost e: Entry)
      requires Booked()
      modifies this`revision, this`changed, this`ledger, this`history, this`turns
      ensures Booked()
      ensures oldRevision == old(revision) && newRevision == revision == old(revision) + 1
      ensures changed == old(changed) + Cleaned(clean, changedPaths)
      ensures e.revision == revision && Ascending(e.paths)
      ensures forall q :: q in e.paths <==> q in Noted(clean, changedPaths)
      ensures forall file :: file in e.paths <==>
                exists p :: p in changedPaths && p != "" && NamesFile(clean(p), file)
      ensures history == old(history) + [e] && turns == old(turns) + [Bump(e, disk.files)]
    {
      oldRevision := revision;
      MarkChanged(changedPaths);
      var paths := EntryPaths(changedPaths);
      e := AppendEntry(paths);
      newRevision := revision;
      forall file ensures file in e.paths <==> exists p :: p in changedPaths && p != "" && NamesFile(clean(p), file) {
        NotedAreFiles(clean, changedPaths, file);
      }
    }

    /** Moves the revision and gives it a ledger entry, the oldest giving way. */
    method AppendEntry(paths: seq<Path>) returns (ghost e: Entry)
      requires Booked() && Ascending(paths)
      modifies this`revision, this`ledger, this`history, this`turns
      ensures Booked()
      ensures e == Entry(revision, paths) && revision == old(revision) + 1
      ensures history == old(history) + [e] && turns == old(turns) + [Bump(e, disk.files)]
    {
      var entry := Entry(revision + 1, paths);
      e := entry;
      revision, ledger := revision + 1, Trim(ledger + [entry]);
      history, turns := history + [entry], turns + [Bump(entry, disk.files)];
      BookedAfterBump(entry);
    }

    twostate lemma BookedAfterBump(e: Entry)
      requires old(Booked()) && e.revision == old(revision) + 1 && Ascending(e.paths)
      requires revision == old(revision) + 1 && ledger == Trim(old(ledger) + [e])
      requires history == old(history) + [e] && turns == old(turns) + [Bump(e, disk.files)]
      requires unchanged(this`reverts, this`ckpts, this`lastId)
      ensures Booked()
    {
      BooksAfterBump(old(ledger), old(history), old(revision), reverts, old(turns), e, disk.files);
    }

    /** Which paths moved after revision n, and whether this workspace can account for that. Where
        bumps name what was written, a known answer names every path that differs from revision n if
        and only if it names every path that reverts since left different. */
    method ChangedSince(n: int) returns (paths: seq<Path>, known: bool)
      requires Booked()
      ensures known <==> Accountable(ledger, revision, n)
      ensures known ==> Ascending(paths) && forall p :: p in paths <==> ChangedAfter(history, n, p)
      ensures known && BumpsNameWhatChanged(first, turns) ==>
                ((forall p :: Differs(first, turns, n, p) ==> p in paths)
                 <==> (forall p :: LeftDifferent(first, turns, n, p) ==> p in paths))
    {
      assert n == revision ==> forall p :: !ChangedAfter(history, n, p);
      if n < 1 || n > revision {
        return [], false;
      }
      if n == revision {
        paths, known := [], true;
      } else if |ledger| == 0 || ledger[0].revision > n + 1 {
        return [], false;
      } else {
        paths := PathsSince(n);
        NothingNewerWasDropped(ledger, history, revision, reverts, n);
        known := true;
      }
      if BumpsNameWhatChanged(first, turns) {
        AnswerNamesDifferencesIff(first, turns, history, n, paths);
      }
    }

    /** The paths of the entries after revision n, sorted and once each. */
    method PathsSince(n: int) returns (paths: seq<Path>)
      ensures Ascending(paths) && forall p :: p in paths <==> ChangedAfter(ledger, n, p)
    {
      var seen: seq<Path> := [];
      var i := 0;
      while i < |ledger|
        invariant 0 <= i <= |ledger|
        invariant forall p :: p in seen <==> ChangedAfter(ledger[..i], n, p)
      {
        var e := ledger[i];
        assert ledger[..i + 1] == ledger[..i] + [e];
        ChangedAfterPlus(ledger[..i], e, n);
        if e.revision > n {
          seen := seen + e.paths;
        }
        i := i + 1;
      }
      assert ledger[..|ledger|] == ledger;
      paths := SortedDistinct(seen);
    }
  }

  /** Everything a checkpoint holds, which is what a revert to it writes. */
  function RecordedPaths(s: Snapshot): set<Path> {
    s.files.Keys + s.prior.Keys
  }

  /** The paths a failed rollback of a revert reports: some of those it wrote. */
  function NotRestored(s: Snapshot, failed: seq<Path>): set<Path> {
    set p | p in failed && p in RecordedPaths(s)
  }

  ghost predicate Distinct(changes: seq<Change>) {
    forall i, j :: 0 <= i < j < |changes| ==> changes[i].path != changes[j].path
  }

  ghost predicate InPathOrder(changes: seq<Change>) {
    forall i, j :: 0 <= i < j < |changes| ==> Before(changes[i].path, changes[j].path)
  }

  function InsertByPath(c: Change, s: seq<Change>): (r: seq<Change>)
    requires InPathOrder(s) && forall d :: d in s ==> d.path != c.path
    ensures InPathOrder(r)
    ensures forall d :: d in r <==> d == c || d in s
  {
    if s == [] then [c]
    else if Before(c.path, s[0].path) then
      assert forall i :: 0 < i < |s| ==> Before(c.path, s[i].path) by {
        forall i | 0 < i < |s| ensures Before(c.path, s[i].path) {
          BeforeIsTransitive(c.path, s[0].path, s[i].path);
        }
      }
      [c] + s
    else
      BeforeIsStrict(c.path, s[0].path);
      assert s == [s[0]] + s[1..];
      var rest := InsertByPath(c, s[1..]);
      assert forall i :: 0 <= i < |rest| ==> Before(s[0].path, rest[i].path) by {
        forall i | 0 <= i < |rest| ensures Before(s[0].path, rest[i].path) { assert rest[i] in rest; }
      }
      [s[0]] + rest
  }

  function SortByPath(changes: seq<Change>): (r: seq<Change>)
    requires Distinct(changes)
    ensures InPathOrder(r)
    ensures forall d :: d in r <==> d in changes
  {
    if changes == [] then []
    else
      assert changes == [changes[0]] + changes[1..];
      InsertByPath(changes[0], SortByPath(changes[1..]))
  }

  // ---- When a revert fails ------------------------------------------------------------------------------

  /** The changes are what a revert to the checkpoint writes, in the order it writes them. */
  ghost predicate IsRestoring(s: Snapshot, changes: seq<Change>) {
    && PathsOf(changes) == RecordedPaths(s) && InPathOrder(changes)
    && forall c :: c in changes ==> c.path in Writes(s) && c.content == Writes(s)[c.path]
  }

  /** How a revert ends that could not write every change, given how many writes and removals failed. */
  ghost predicate HalfReverted(s: Snapshot, original: Files, outcome: Outcome, faults: int, r: Files) {
    && (outcome.RollbackFailed? ==> SameExcept(original, r, NotRestored(s, outcome.failed)))
    && exists changes, faulty ::
         IsRestoring(s, changes) && Undone(original, changes, outcome, faulty, faults, r)
  }

  lemma IsHalfReverted(s: Snapshot, original: Files, changes: seq<Change>, outcome: Outcome, faulty: set<nat>,
                       faults: int, r: Files)
    requires IsRestoring(s, changes) && Undone(original, changes, outcome, faulty, faults, r)
    ensures HalfReverted(s, original, outcome, faults, r)
  {
    EarlierPaths(changes, outcome.index);
  }

  /** Each of these paths once, with what the checkpoint says of it. */
  ghost predicate Collected(s: Snapshot, changes: seq<Change>, paths: set<Path>) {
    && PathsOf(changes) == paths && Distinct(changes)
    && forall c :: c in changes ==> c.path in Writes(s) && c.content == Writes(s)[c.path]
  }

  lemma CollectOne(s: Snapshot, changes: seq<Change>, paths: set<Path>, path: Path)
    requires Collected(s, changes, paths) && path in Writes(s) && path !in paths
    ensures Collected(s, changes + [Change(path, Writes(s)[path])], paths + {path})
  {
    PathsOfPlus(changes, Change(path, Writes(s)[path]));
    forall c | c in changes ensures c.path != path { assert c.path in PathsOf(changes); }
  }

  lemma SortCollected(s: Snapshot, changes: seq<Change>)
    requires Collected(s, changes, RecordedPaths(s))
    ensures IsRestoring(s, SortByPath(changes))
  {
    assert PathsOf(SortByPath(changes)) == PathsOf(changes);
  }

  lemma {:induction false} RestoringExists(s: Snapshot, paths: set<Path>) returns (changes: seq<Change>)
    requires paths <= RecordedPaths(s)
    ensures Collected(s, changes, paths)
  {
    if paths == {} {
      changes := [];
    } else {
      var path :| path in paths;
      var rest := RestoringExists(s, paths - {path});
      CollectOne(s, rest, paths - {path}, path);
      assert paths - {path} + {path} == paths;
      changes := rest + [Change(path, Writes(s)[path])];
    }
  }

  /** Everything the checkpoint holds, but for the last path, is on disk already. */
  predicate RestoredButLast(s: Snapshot, files: Files) {
    forall p, q :: p in RecordedPaths(s) && q in RecordedPaths(s) && Before(p, q) ==> Writes(s)[p] == At(files, p)
  }

  lemma AllButLastIff(s: Snapshot, files: Files, changes: seq<Change>)
    requires IsRestoring(s, changes)
    ensures RestoredButLast(s, files)
       <==> forall k :: 0 <= k < |changes| - 1 ==> changes[k].content == At(files, changes[k].path)
  {
    forall k | 0 <= k < |changes|
      ensures changes[k].path in PathsOf(changes) && changes[k].content == Writes(s)[changes[k].path]
    {
      assert changes[k] in changes;
    }
    if forall k :: 0 <= k < |changes| - 1 ==> changes[k].content == At(files, changes[k].path) {
      forall p, q | p in RecordedPaths(s) && q in RecordedPaths(s) && Before(p, q)
        ensures Writes(s)[p] == At(files, p)
      {
        var a := IndexOf(changes, p);
        var b := IndexOf(changes, q);
        BeforeIsStrict(p, q);
        assert a < b;
      }
    }
    if RestoredButLast(s, files) {
      forall k | 0 <= k < |changes| - 1 ensures changes[k].content == At(files, changes[k].path) {
        assert Before(changes[k].path, changes[k + 1].path);
      }
    }
  }

  lemma IndexOf(changes: seq<Change>, p: Path) returns (k: nat)
    requires p in PathsOf(changes)
    ensures k < |changes| && changes[k].path == p
  {
    var c :| c in changes && c.path == p;
    k :| 0 <= k < |changes| && changes[k] == c;
  }

  /** Exactly when a revert that does not complete is sure to have changed nothing. */
  lemma IncompleteRevertChangesNothingIff(s: Snapshot, files: Files)
    ensures (forall outcome, faults, r :: HalfReverted(s, files, outcome, faults, r) ==> r == files)
       <==> RestoredButLast(s, files)
  {
    if RestoredButLast(s, files) {
      forall outcome, faults, r | HalfReverted(s, files, outcome, faults, r) ensures r == files {
        var changes, faulty :| IsRestoring(s, changes) && Undone(files, changes, outcome, faulty, faults, r);
        AllButLastIff(s, files, changes);
        AlwaysUndoneIff(files, changes);
      }
    } else {
      var collected := RestoringExists(s, RecordedPaths(s));
      SortCollected(s, collected);
      var changes := SortByPath(collected);
      AllButLastIff(s, files, changes);
      AlwaysUndoneIff(files, changes);
      var i, faulty, r :| AfterFailure(files, changes, i, faulty, r) && r != files;
      IsUndone(files, changes, i, faulty, r);
      IsHalfReverted(s, files, changes, Answer(files, changes, i, faulty), faulty, 1 + |faulty|, r);
    }
  }

  /** Exactly when a revert whose one failed write is rolled back without another is reported so. */
  lemma RevertReportsNothingIff(s: Snapshot, files: Files, changes: seq<Change>, i: nat)
    requires IsRestoring(s, changes) && i < |changes|
    ensures Answer(files, changes, i, {}) == RolledBack(i)
       <==> forall p :: p in PathsOf(changes[..i]) && p !in files ==> Writes(s)[p].Held?
  {
    ReportsNothingIff(files, changes, i);
    forall j, k | 0 <= j < k < |changes| ensures changes[j].path != changes[k].path {
      BeforeIsStrict(changes[j].path, changes[k].path);
    }
    forall k | 0 <= k < i ensures changes[k] in changes && changes[k].path in PathsOf(changes[..i]) {
      assert changes[k] in changes[..i];
    }
    forall p | p in PathsOf(changes[..i]) ensures exists k :: 0 <= k < i && changes[k].path == p {
      var k := IndexOf(changes[..i], p);
      assert changes[k].path == p;
    }
  }

  lemma AmongThem(changes: seq<Change>, j: nat, i: nat)
    requires j < i <= |changes|
    ensures changes[j].path in PathsOf(changes[..i])
  {
    assert changes[j] in changes[..i];
  }

  lemma EarlierPaths(changes: seq<Change>, i: nat)
    requires i <= |changes|
    ensures PathsOf(changes[..i]) <= PathsOf(changes)
  {
  }

  function Cleaned(clean: string -> string, paths: seq<string>): set<string> {
    set p | p in paths && p != "" :: clean(p)
  }

  /** Paths as the ledger notes them: cleaned, and without a symbol's name. */
  function Noted(clean: string -> string, paths: seq<string>): set<Path> {
    set p | p in paths && p != "" :: PathFromKey(clean(p))
  }

  /** The ledger notes the files that the cleaned paths name. */
  lemma NotedAreFiles(clean: string -> string, paths: seq<string>, file: Path)
    ensures file in Noted(clean, paths) <==> exists p :: p in paths && p != "" && NamesFile(clean(p), file)
  {
    forall p | p in paths ensures NamesFile(clean(p), file) <==> PathFromKey(clean(p)) == file {
      NamesFileIff(clean(p), file);
    }
  }

  /** So an entry for one symbol of a file lists that file. */
  lemma EntryOfASymbol(clean: string -> string, path: Path, name: string, e: Entry)
    requires IsName(name) && clean(path + "::" + name) == path + "::" + name
    requires Ascending(e.paths) && forall q :: q in e.paths <==> q in Noted(clean, [path + "::" + name])
    ensures e.paths == [path]
  {
    SymbolKey(path, name);
    assert |path + "::" + name| > 0;
    NotedOne(clean, path + "::" + name);
    AscendingIsUnique(e.paths, [path]);
  }

  lemma NotedPlus(clean: string -> string, paths: seq<string>, i: nat)
    requires i < |paths|
    ensures Cleaned(clean, paths[..i + 1]) ==
            Cleaned(clean, paths[..i]) + if paths[i] == "" then {} else {clean(paths[i])}
    ensures Noted(clean, paths[..i + 1]) ==
            Noted(clean, paths[..i]) + if paths[i] == "" then {} else {PathFromKey(clean(paths[i]))}
  {
  }

  lemma OneMoreKey(a: set<string>, b: set<string>, key: string)
    ensures (a + b) + {key} == a + (b + {key})
  {
  }

  lemma NotedOne(clean: string -> string, path: string)
    requires path != ""
    ensures Noted(clean, [path]) == {PathFromKey(clean(path))}
  {
    assert path in [path];
  }

  function KeyPaths(keys: set<string>): set<Path> {
    set key | key in keys :: PathFromKey(key)
  }

  /** The paths of a checkpoint's keys are the files they name. */
  lemma KeyPathsAreFiles(keys: set<string>, path: Path)
    ensures path in KeyPaths(keys) <==> exists key :: key in keys && NamesFile(key, path)
  {
    forall key | key in keys ensures NamesFile(key, path) <==> PathFromKey(key) == path {
      NamesFileIff(key, path);
    }
  }

  lemma KeyPathsPlus(keys: set<string>, key: string)
    ensures KeyPaths(keys + {key}) == KeyPaths(keys) + {PathFromKey(key)}
  {
  }

  lemma PathsOfPlus(changes: seq<Change>, c: Change)
    ensures PathsOf(changes + [c]) == PathsOf(changes) + {c.path}
  {
  }

  /** Writing a checkpoint's changes, in any order, is restoring it. */
  lemma RestoringRestores(s: Snapshot, changes: seq<Change>, files: Files)
    requires PathsOf(changes) == RecordedPaths(s)
    requires forall c :: c in changes ==> c.content == Writes(s)[c.path]
    ensures Restores(ApplyAll(files, changes), s, files)
  {
    forall p ensures At(ApplyAll(files, changes), p) == Seen(s, files, p) {
      forall i | 0 <= i < |changes| && changes[i].path == p ensures changes[i].content == Seen(s, files, p) {
        assert changes[i] in changes && changes[i].path in PathsOf(changes);
      }
      assert p in PathsOf(changes) <==> Recorded(s, p);
      AppliedAt(files, changes, p, Seen(s, files, p));
    }
  }

  /** A new session: a checkpoint, then a write. */
  method CheckpointThenWrite(disk: Disk, clean: string -> string, path: Path, data: Bytes, head: string)
    returns (ok: bool, m: Manager, id: Id)
    requires disk.Valid() && path !in disk.unreadable
    modifies disk`observers, disk`files, disk`faults, disk.observers`ckpts
    ensures fresh(m) && m.Valid() && m.disk == disk && m.clean == clean && m.first == old(disk.files)
    ensures disk.observers == old(disk.observers) + [m]
    ensures m.revision == 1 && m.history == [] && m.turns == []
    ensures id in m.ckpts && m.ckpts[id].head == head && m.taken[id] == old(disk.files)
    ensures ok <==> disk.faults == old(disk.faults)
    ensures ok ==> disk.files == old(disk.files)[path := data]
  {
    m := new Manager(disk, clean);
    id := m.Checkpoint(head);
    assert disk.observers[|old(disk.observers)|] == m;
    ok := disk.Write(path, data);
  }

  /** Its bump to revision 2, and the revert. */
  method BumpThenRevert(m: Manager, id: Id, path: Path, head: string)
    returns (ok: bool, ghost e: Entry, ghost wrote: set<Path>)
    requires m.Valid() && m.revision == 1 && m.history == [] && m.turns == []
    requires id in m.ckpts && m.ckpts[id].head == head && path != "" && PathFromKey(m.clean(path)) == path
    modifies m`revision, m`changed, m`ledger, m`history, m`turns, m`reverts
    modifies m.disk`files, m.disk`faults, m.disk.observers`ckpts
    ensures m.Booked() && (ok <==> m.disk.faults == old(m.disk.faults))
    ensures ok ==>
              && m.history == [e] && e.revision == 2 && m.revision == 3 && (forall q :: q in e.paths <==> q == path)
              && m.turns == [Bump(e, old(m.disk.files)), Revert(wrote, m.disk.files)]
              && Reproduces(m.disk.files, m.taken[id], m.disk.unreadable)
              && SameExcept(old(m.disk.files), m.disk.files, wrote)
  {
    var _, _, entry := m.BumpRevision([path]);
    NotedOne(m.clean, path);
    e, wrote := entry, RecordedPaths(m.ckpts[id]);
    assert m.history == [e] && m.turns == [Bump(e, m.disk.files)];
    var result := m.RevertCheckpoint(id, head);
    ok := result.Reverted?;
  }

  lemma WriteThenRevertDiffers(first: Files, written: Files, last: Files, e: Entry, wrote: set<Path>, path: Path,
                               turns: seq<Turn>)
    requires turns == [Bump(e, written), Revert(wrote, last)] && path in e.paths
    requires SameExcept(first, written, {path}) && SameExcept(written, last, wrote)
    requires At(last, path) != At(written, path)
    ensures BumpsNameWhatChanged(first, turns) && Differs(first, turns, 2, path)
  {
  }

  /** How a known answer comes to leave out a change, for every file and every new content of it: after
      such a run, unless some write failed, what moved since revision 2 is answered with nothing, and
      the file differs. */
  method RevertGoesUnmentioned(disk: Disk, clean: string -> string, path: Path, data: Bytes, head: string)
    returns (paths: seq<Path>, known: bool, ghost m: Manager)
    requires disk.Valid() && path != "" && PathFromKey(clean(path)) == path
    requires path !in disk.unreadable && At(disk.files, path) != Held(data)
    modifies disk`observers, disk`files, disk`faults, disk.observers`ckpts
    ensures disk.faults == old(disk.faults) ==>
              && known && (forall p :: p !in paths) && m.revision == 3
              && |m.turns| == 2 && BumpsNameWhatChanged(m.first, m.turns) && Differs(m.first, m.turns, 2, path)
  {
    var ok, manager, id := CheckpointThenWrite(disk, clean, path, data, head);
    m := manager;
    if !ok {
      return [], false, m;
    }
    ghost var e, wrote;
    ok, e, wrote := BumpThenRevert(manager, id, path, head);
    paths, known := manager.ChangedSince(2);
    if ok {
      assert m.ledger == [e];
      WriteThenRevertDiffers(m.first, old(disk.files)[path := data], disk.files, e, wrote, path, m.turns);
      assert forall p :: !ChangedAfter([e], 2, p);
    }
  }
}
