/** Several edits as one unit: all of them land, or none do. */
module Apply {
  import opened Order
  import opened Overlay
  import opened Ledger
  import opened Workspace

  /** One edit: the path it names; for a replace_symbol given by ID the path inside that ID, which is
      the file that is written; and whatever else it says. */
  datatype EditOp = EditOp(path: Path, symbolPath: Option<Path>, detail: string)

  /** What an op makes of the disk: its target's new content, or None when it does not apply. */
  type Effect = (EditOp, Files) -> Option<Bytes>

  function Target(op: EditOp): Path {
    if op.symbolPath.Some? then op.symbolPath.value else op.path
  }

  function Targets(edits: seq<EditOp>): set<Path> {
    set op | op in edits :: Target(op)
  }

  function NamedPaths(edits: seq<EditOp>): set<Path> {
    set op | op in edits :: op.path
  }

  function PathList(edits: seq<EditOp>): (r: seq<Path>)
    ensures forall p :: p in r <==> p in NamedPaths(edits)
  {
    if edits == [] then [] else
      assert edits == [edits[0]] + edits[1..];
      [edits[0].path] + PathList(edits[1..])
  }

  datatype ApplyResult =
    | NoEdits
    | Stale(current: nat, changed: seq<Path>, known: bool)
    | Rejected(index: nat)
    | OpFailed(index: nat)
    | Applied(oldRevision: nat, newRevision: nat, changed: seq<Path>)

  // ---- What a batch of ops does to the disk -------------------------------------------------------------

  /** One op: a target that is missing or cannot be read fails it. */
  function AfterOp(effect: Effect, unreadable: set<Path>, files: Files, op: EditOp): Option<Files> {
    if Target(op) in unreadable || Target(op) !in files then None
    else
      match effect(op, files)
      case None => None
      case Some(data) => Some(files[Target(op) := data])
  }

  /** The op writes p: the path it names, or the one inside its symbol ID when it has one. */
  predicate WritesTo(op: EditOp, p: Path) {
    (op.symbolPath == None && op.path == p) || op.symbolPath == Some(p)
  }

  lemma WritesToOne(p: Path, q: Path, detail: string, r: Path)
    ensures WritesTo(EditOp(p, None, detail), r) <==> r == p
    ensures WritesTo(EditOp(p, Some(q), detail), r) <==> r == q
  {
  }

  /** An op without a symbol ID rewrites the file it names, and no other; it fails exactly when that is
      missing, cannot be read, or does not suit the op. */
  lemma OrdinaryOp(effect: Effect, unreadable: set<Path>, files: Files, p: Path, detail: string)
    ensures var op := EditOp(p, None, detail);
      AfterOp(effect, unreadable, files, op) ==
        if p in files && p !in unreadable && effect(op, files).Some?
        then Some(files[p := effect(op, files).value]) else None
  {
  }

  /** An op with one rewrites the file in the ID, whatever it names. */
  lemma SymbolOp(effect: Effect, unreadable: set<Path>, files: Files, p: Path, q: Path, detail: string)
    ensures var op := EditOp(p, Some(q), detail);
      AfterOp(effect, unreadable, files, op) ==
        if q in files && q !in unreadable && effect(op, files).Some?
        then Some(files[q := effect(op, files).value]) else None
  {
  }

  /** All ops in order, or None if one of them fails. */
  function AfterOps(effect: Effect, unreadable: set<Path>, files: Files, edits: seq<EditOp>): Option<Files> {
    if edits == [] then Some(files)
    else
      match AfterOps(effect, unreadable, files, edits[..|edits| - 1])
      case None => None
      case Some(written) => AfterOp(effect, unreadable, written, edits[|edits| - 1])
  }

  lemma OneMoreOp(effect: Effect, unreadable: set<Path>, files: Files, edits: seq<EditOp>, i: nat, written: Files)
    requires i < |edits| && AfterOps(effect, unreadable, files, edits[..i]) == Some(written)
    ensures AfterOps(effect, unreadable, files, edits[..i + 1]) == AfterOp(effect, unreadable, written, edits[i])
  {
    assert edits[..i + 1][..i] == edits[..i];
  }

  lemma {:induction false} OpsTouchTargets(effect: Effect, unreadable: set<Path>, files: Files, edits: seq<EditOp>,
                                           written: Files)
    requires AfterOps(effect, unreadable, files, edits) == Some(written)
    ensures SameExcept(files, written, Targets(edits))
  {
    if edits != [] {
      var n := |edits| - 1;
      var before := AfterOps(effect, unreadable, files, edits[..n]).value;
      OpsTouchTargets(effect, unreadable, files, edits[..n], before);
      PathsPlus(edits, n);
      assert edits[..n + 1] == edits;
    }
  }

  /** The last op of the batch to write p, the disk it found, and what it made of p. */
  ghost predicate LastWrite(effect: Effect, unreadable: set<Path>, files: Files, edits: seq<EditOp>, p: Path, k: nat,
                            data: Bytes)
  {
    && k < |edits| && WritesTo(edits[k], p)
    && (forall j :: k < j < |edits| ==> !WritesTo(edits[j], p))
    && AfterOps(effect, unreadable, files, edits[..k]).Some?
    && effect(edits[k], AfterOps(effect, unreadable, files, edits[..k]).value) == Some(data)
  }

  /** What a batch that ran leaves: every path holds what the last op to write it made of it, and a path no
      op writes what it held. */
  ghost predicate HoldsLastWrites(effect: Effect, unreadable: set<Path>, files: Files, edits: seq<EditOp>, r: Files) {
    forall p ::
      if exists op :: op in edits && WritesTo(op, p)
      then exists k, data :: LastWrite(effect, unreadable, files, edits, p, k, data) && At(r, p) == Held(data)
      else At(r, p) == At(files, p)
  }

  lemma {:induction false} LastWriteLeft(effect: Effect, unreadable: set<Path>, files: Files, edits: seq<EditOp>,
                                         written: Files, p: Path)
    returns (k: nat, data: Bytes)
    requires AfterOps(effect, unreadable, files, edits) == Some(written)
    ensures if exists op :: op in edits && WritesTo(op, p)
            then LastWrite(effect, unreadable, files, edits, p, k, data) && At(written, p) == Held(data)
            else At(written, p) == At(files, p)
  {
    k, data := 0, [];
    if edits != [] {
      var n := |edits| - 1;
      var init, before := edits[..n], AfterOps(effect, unreadable, files, edits[..n]).value;
      assert edits == init + [edits[n]];
      if WritesTo(edits[n], p) {
        k, data := n, effect(edits[n], before).value;
      } else {
        k, data := LastWriteLeft(effect, unreadable, files, init, before, p);
        assert At(written, p) == At(before, p);
        assert k < n ==> init[..k] == edits[..k];
      }
    }
  }

  lemma BatchHoldsLastWrites(effect: Effect, unreadable: set<Path>, files: Files, edits: seq<EditOp>, written: Files)
    requires AfterOps(effect, unreadable, files, edits) == Some(written)
    ensures HoldsLastWrites(effect, unreadable, files, edits, written)
  {
    forall p
      ensures if exists op :: op in edits && WritesTo(op, p)
              then exists k, data ::
                LastWrite(effect, unreadable, files, edits, p, k, data) && At(written, p) == Held(data)
              else At(written, p) == At(files, p)
    {
      var k, data := LastWriteLeft(effect, unreadable, files, edits, written, p);
    }
  }

  /** Without symbol IDs those are the paths the ops name. */
  lemma NamesWhatItWrites(edits: seq<EditOp>, p: Path)
    requires forall op :: op in edits ==> op.symbolPath == None
    ensures (exists op :: op in edits && WritesTo(op, p)) <==> p in NamedPaths(edits)
  {
  }

  class EditService {
    const workspace: Manager
    const disk: Disk
    // Whether an op is well formed, whether its anchor resolves in a file, and what it does.
    const shaped: EditOp -> bool
    const anchored: (EditOp, Bytes) -> bool
    const effect: Effect

    constructor (workspace: Manager, shaped: EditOp -> bool, anchored: (EditOp, Bytes) -> bool, effect: Effect)
      ensures this.workspace == workspace && disk == workspace.disk
      ensures this.shaped == shaped && this.anchored == anchored && this.effect == effect
    {
      this.workspace, disk := workspace, workspace.disk;
      this.shaped, this.anchored, this.effect := shaped, anchored, effect;
    }

    /** The refusal says which revision this is, whether it can say what moved since the one expected, and
        then what did, from the whole history. */
    ghost predicate TellsWhatMoved(expected: Option<nat>, refusal: ApplyResult)
      reads workspace`revision, workspace`ledger, workspace`history
    {
      && expected != None && refusal.Stale? && refusal.current == workspace.revision
      && (refusal.known <==> Accountable(workspace.ledger, workspace.revision, expected.value))
      && (refusal.known ==>
           Ascending(refusal.changed)
             && forall p :: p in refusal.changed <==> ChangedAfter(workspace.history, expected.value, p))
    }

    /** None when the expectation holds or there is none; otherwise the refusal, with what moved. */
    method CheckRevision(expected: Option<nat>) returns (refusal: Option<ApplyResult>)
      requires workspace.Booked()
      ensures refusal.None? <==> expected == None || expected == Some(workspace.revision)
      ensures refusal.Some? ==> TellsWhatMoved(expected, refusal.value)
    {
      if expected == None || expected == Some(workspace.revision) {
        return None;
      }
      var changed, known := workspace.ChangedSince(expected.value);
      return Some(Stale(workspace.revision, changed, known));
    }

    /** An op passes when it is well formed and, unless an earlier op names its file, the file can be
        read and the anchor resolves in it. */
    predicate Passes(files: Files, edits: seq<EditOp>, k: nat)
      requires k < |edits|
    {
      var path := edits[k].path;
      && shaped(edits[k])
      && (path in NamedPaths(edits[..k])
           || (path !in disk.unreadable && path in files && anchored(edits[k], files[path])))
    }

    predicate IsFirstRefused(files: Files, edits: seq<EditOp>, i: nat) {
      && i < |edits| && !Passes(files, edits, i)
      && forall k :: 0 <= k < i ==> Passes(files, edits, k)
    }

    /** Checks what can be known before anything is written, and refuses the first op that fails. */
    method Preflight(edits: seq<EditOp>) returns (refused: Option<nat>)
      ensures refused.None? <==> forall k :: 0 <= k < |edits| ==> Passes(disk.files, edits, k)
      ensures refused.Some? ==> IsFirstRefused(disk.files, edits, refused.value)
      ensures refused.None? ==> forall op :: op in edits ==> op.path in disk.files && op.path !in disk.unreadable
    {
      var willTouch: set<Path> := {};
      var i := 0;
      while i < |edits|
        invariant 0 <= i <= |edits| && willTouch == NamedPaths(edits[..i])
        invariant forall k :: 0 <= k < i ==> Passes(disk.files, edits, k)
        invariant forall p :: p in willTouch ==> p in disk.files && p !in disk.unreadable
      {
        PathsPlus(edits, i);
        if !shaped(edits[i]) {
          assert !Passes(disk.files, edits, i);
          return Some(i);
        }
        if edits[i].path !in willTouch {
          var r := disk.ReadFile(edits[i].path);
          if !r.Read? || !anchored(edits[i], r.data) {
            assert !Passes(disk.files, edits, i);
            return Some(i);
          }
        }
        willTouch := willTouch + {edits[i].path};
        i := i + 1;
      }
      assert edits[..|edits|] == edits;
      return None;
    }

    /** What every named file holds before the first write. */
    method SnapshotFiles(edits: seq<EditOp>) returns (snapshots: Files)
      requires forall op :: op in edits ==> op.path in disk.files && op.path !in disk.unreadable
      ensures snapshots.Keys == NamedPaths(edits)
      ensures forall p :: p in snapshots ==> At(disk.files, p) == Held(snapshots[p])
    {
      snapshots := map[];
      var i := 0;
      while i < |edits|
        invariant 0 <= i <= |edits|
        invariant snapshots.Keys == NamedPaths(edits[..i])
        invariant forall p :: p in snapshots ==> At(disk.files, p) == Held(snapshots[p])
      {
        PathsPlus(edits, i);
        var path := edits[i].path;
        assert edits[i] in edits;
        if path !in snapshots {
          snapshots := snapshots[path := disk.files[path]];
        }
        i := i + 1;
      }
      assert edits[..|edits|] == edits;
    }

    /** Runs one op: it fails having changed nothing, or rewrites its target. now is what the write
        path has announced so far. */
    method ApplyOne(op: EditOp, ghost paths: set<Path>, ghost was: map<Manager, Snapshots>, ghost original: Files)
      returns (ok: bool, ghost now: set<Path>)
      requires disk.Wired() && disk.Noted(was, paths, original) && SameExcept(original, disk.files, paths)
      modifies disk`files, disk`faults, disk.observers`ckpts
      ensures disk.Noted(was, now, original) && SameExcept(original, disk.files, now)
      ensures paths <= now <= paths + {Target(op)} && (ok ==> Target(op) in now)
      ensures ok ==> AfterOp(effect, disk.unreadable, old(disk.files), op) == Some(disk.files)
      ensures !ok ==> disk.files == old(disk.files)
      ensures ok ==> disk.faults == old(disk.faults)
      ensures disk.faults == old(disk.faults) ==> ok || AfterOp(effect, disk.unreadable, disk.files, op) == None
      ensures disk.faults >= old(disk.faults)
    {
      ok, now := false, paths;
      var r := disk.ReadFile(Target(op));
      if r.Read? {
        var rewritten := effect(op, disk.files);
        if rewritten.Some? {
          now := paths + {Target(op)};
          ok := disk.WriteNext(Change(Target(op), Held(rewritten.value)), paths, was, original);
        }
      }
    }

    /** All ops in order, or the index of the first that failed. */
    method RunOps(edits: seq<EditOp>, ghost was: map<Manager, Snapshots>)
      returns (i: nat, ghost now: set<Path>)
      requires disk.Wired() && disk.Noted(was, {}, disk.files)
      modifies disk`files, disk`faults, disk.observers`ckpts
      ensures i <= |edits|
      ensures disk.Noted(was, now, old(disk.files)) && SameExcept(old(disk.files), disk.files, now)
      ensures now <= Targets(edits) && (i == |edits| ==> now == Targets(edits))
      ensures AfterOps(effect, disk.unreadable, old(disk.files), edits[..i]) == Some(disk.files)
      ensures i < |edits| && disk.faults == old(disk.faults) ==>
                AfterOps(effect, disk.unreadable, old(disk.files), edits[..i + 1]) == None
      ensures disk.faults >= old(disk.faults) && (i == |edits| ==> disk.faults == old(disk.faults))
    {
      ghost var original := disk.files;
      i, now := 0, {};
      while i < |edits|
        invariant i <= |edits|
        invariant disk.Noted(was, now, original) && SameExcept(original, disk.files, now)
        invariant now == Targets(edits[..i]) && disk.faults == old(disk.faults)
        invariant AfterOps(effect, disk.unreadable, original, edits[..i]) == Some(disk.files)
      {
        PathsPlus(edits, i);
        OneMoreOp(effect, disk.unreadable, original, edits, i, disk.files);
        var ok;
        ok, now := ApplyOne(edits[i], now, was, original);
        if !ok {
          return;
        }
        i := i + 1;
      }
      assert edits[..i] == edits;
    }

    /** Puts every snapshotted file back. A file that cannot be put back is passed over in silence,
        so which ones those were is known only to the proof. */
    method RestoreFiles(snapshots: Files, ghost paths: set<Path>, ghost was: map<Manager, Snapshots>,
                        ghost original: Files)
      returns (ghost unrestored: set<Path>)
      requires disk.Wired() && disk.Noted(was, paths, original) && SameExcept(original, disk.files, paths)
      requires forall p :: p in snapshots ==> At(original, p) == Held(snapshots[p])
      modifies disk`files, disk`faults, disk.observers`ckpts
      ensures disk.Noted(was, paths + snapshots.Keys, original)
      ensures unrestored <= snapshots.Keys
      ensures AfterRollback(disk.files, original, old(disk.files), snapshots.Keys - unrestored)
      ensures unrestored == {} <==> disk.faults == old(disk.faults)
      ensures disk.faults >= old(disk.faults)
    {
      unrestored := {};
      ghost var done: set<Path> := {};
      assert paths + done == paths;
      var todo := snapshots.Keys;
      while todo != {}
        invariant todo <= snapshots.Keys && done == snapshots.Keys - todo && unrestored <= done
        invariant disk.Noted(was, paths + done, original)
        invariant disk.faults >= old(disk.faults) && (unrestored == {} <==> disk.faults == old(disk.faults))
        invariant SameExcept(original, disk.files, paths + done)
        invariant AfterRollback(disk.files, original, old(disk.files), done - unrestored)
      {
        var path :| path in todo;
        todo := todo - {path};
        var ok := disk.WriteNext(Change(path, Held(snapshots[path])), paths + done, was, original);
        if !ok {
          unrestored := unrestored + {path};
        }
        assert (paths + done) + {path} == paths + (done + {path});
        done := done + {path};
      }
      assert done == snapshots.Keys;
    }

    /** The language formatter over the touched files: through the write path or, for a formatter
        handed the path, around it. now is what has been announced, around what was formatted in place
        and not announced. */
    method FormatFiles(changed: seq<Path>, ghost paths: set<Path>, ghost was: map<Manager, Snapshots>,
                       ghost original: Files)
      returns (ghost now: set<Path>, ghost around: set<Path>)
      requires disk.Wired() && disk.Noted(was, paths, original) && SameExcept(original, disk.files, paths)
      requires Ascending(changed)
      modifies disk`files, disk`faults, disk.observers`ckpts
      ensures SameExcept(old(disk.files), disk.files, set p | p in changed)
      ensures disk.KeepsCheckpoints()
      ensures disk.Noted(was, now, original) && SameExcept(original, disk.files, now + around)
      ensures paths <= now && forall p :: p in around ==> p in changed && p !in paths
      ensures forall p :: p in now ==> p in paths || p in changed
    {
      now, around := paths, {};
      var i := 0;
      while i < |changed|
        invariant 0 <= i <= |changed|
        invariant SameExcept(old(disk.files), disk.files, set p | p in changed)
        invariant disk.KeepsCheckpoints()
        invariant disk.Noted(was, now, original) && SameExcept(original, disk.files, now + around)
        invariant paths <= now && forall p :: p in around ==> p in changed[..i] && p !in paths
        invariant forall p :: p in now ==> p in paths || p in changed
      {
        var path := changed[i];
        assert changed[..i + 1] == changed[..i] + [path];
        forall k | 0 <= k < i ensures changed[k] != path { BeforeIsStrict(changed[k], path); }
        now, around := FormatFile(path, now, around, was, original);
        i := i + 1;
      }
      assert changed[..|changed|] == changed;
    }

    /** One file, formatted either way. */
    method FormatFile(path: Path, ghost paths: set<Path>, ghost around: set<Path>, ghost was: map<Manager, Snapshots>,
                      ghost original: Files)
      returns (ghost now: set<Path>, ghost alsoAround: set<Path>)
      requires disk.Wired() && disk.Noted(was, paths, original) && SameExcept(original, disk.files, paths + around)
      requires path !in around
      modifies disk`files, disk`faults, disk.observers`ckpts
      ensures SameExcept(old(disk.files), disk.files, {path})
      ensures disk.KeepsCheckpoints()
      ensures disk.Noted(was, now, original) && SameExcept(original, disk.files, now + alsoAround)
      ensures paths <= now <= paths + {path} && around <= alsoAround <= around + ({path} - paths)
    {
      now, alsoAround := paths, around;
      var viaStdin: bool := *;
      if viaStdin && path in disk.files {
        var formatted: Bytes := *;
        var _ := disk.File(path, formatted);
        now := paths + {path};
        forall m | m in disk.observers ensures m.ckpts == Record(was[m], now, original, disk.unreadable) {
          RecordTwice(was[m], old(m.ckpts), m.ckpts, paths, {path}, now, original, old(disk.files), disk.unreadable);
        }
      } else {
        var _ := disk.FormatInPlace(path);
        alsoAround := around + ({path} - paths);
      }
    }

    /** Apply's changes to files: all ops and the formatting, or the rollback. */
    method ChangeFiles(edits: seq<EditOp>, snapshots: Files, changed: seq<Path>, format: bool)
      returns (i: nat, ghost unrestored: set<Path>)
      requires disk.Valid()
      requires Ascending(changed) && forall p :: p in changed <==> p in NamedPaths(edits)
      requires snapshots.Keys == NamedPaths(edits)
      requires forall p :: p in snapshots ==> At(disk.files, p) == Held(snapshots[p])
      modifies disk`files, disk`faults, disk.observers`ckpts
      ensures disk.Wired() && disk.KeepsCheckpoints()
      ensures (i == |edits| && format) || disk.Valid()
      ensures i == |edits| ==> (disk.Valid() <==> disk.Accounted(NamedPaths(edits) - Targets(edits), old(disk.files)))
      ensures i <= |edits| && unrestored <= NamedPaths(edits)
      ensures unrestored != {} ==> disk.faults > old(disk.faults)
      ensures FilesAfter(old(disk.files), disk.files, edits, i, format, unrestored)
      ensures i < |edits| && disk.faults == old(disk.faults) ==>
                AfterOps(effect, disk.unreadable, old(disk.files), edits[..i + 1]) == None
    {
      unrestored := {};
      ghost var was := map m | m in disk.observers :: m.ckpts;
      ghost var original := disk.files;
      disk.NothingNoted(was);
      ghost var now;
      i, now := RunOps(edits, was);
      assert forall m :: m in disk.observers ==> AllFaithful(was[m], original, m.taken, disk.unreadable);
      if i < |edits| {
        unrestored := UndoOps(snapshots, now, was, original);
      } else {
        assert edits[..i] == edits;
        FormatNamed(edits, changed, format, now, was, original);
      }
    }

    /** The rollback, which keeps every checkpoint right. */
    method UndoOps(snapshots: Files, ghost paths: set<Path>, ghost was: map<Manager, Snapshots>, ghost original: Files)
      returns (ghost unrestored: set<Path>)
      requires disk.Wired() && disk.Noted(was, paths, original) && SameExcept(original, disk.files, paths)
      requires forall m :: m in disk.observers ==> AllFaithful(was[m], original, m.taken, disk.unreadable)
      requires forall p :: p in snapshots ==> At(original, p) == Held(snapshots[p])
      modifies disk`files, disk`faults, disk.observers`ckpts
      ensures disk.Valid() && disk.KeepsCheckpoints()
      ensures unrestored <= snapshots.Keys
      ensures AfterRollback(disk.files, original, old(disk.files), snapshots.Keys - unrestored)
      ensures unrestored == {} <==> disk.faults == old(disk.faults)
      ensures disk.faults >= old(disk.faults)
    {
      unrestored := RestoreFiles(snapshots, paths, was, original);
      disk.NotedIsFaithful(was, paths + snapshots.Keys, original);
    }

    /** Formats the named files, if asked to, once all ops have run. */
    method FormatNamed(edits: seq<EditOp>, changed: seq<Path>, format: bool, ghost paths: set<Path>,
                       ghost was: map<Manager, Snapshots>, ghost original: Files)
      requires disk.Wired() && disk.Noted(was, paths, original) && SameExcept(original, disk.files, paths)
      requires forall m :: m in disk.observers ==> AllFaithful(was[m], original, m.taken, disk.unreadable)
      requires Ascending(changed) && paths == Targets(edits) && forall p :: p in changed <==> p in NamedPaths(edits)
      modifies disk`files, disk`faults, disk.observers`ckpts
      ensures if format then SameExcept(old(disk.files), disk.files, NamedPaths(edits))
              else disk.files == old(disk.files)
      ensures disk.Wired() && disk.KeepsCheckpoints()
      ensures disk.Valid() <==> disk.Accounted(NamedPaths(edits) - Targets(edits), original)
      ensures format || disk.Valid()
    {
      ghost var now, around := paths, {};
      if format {
        now, around := FormatFiles(changed, paths, was, original);
      } else {
        disk.NotedIsFaithful(was, paths, original);
      }
      disk.NotedIsValidIff(was, now, around, original);
      NoneUnaccounted(edits, now, around, was, original);
    }

    /** What was announced is on record. */
    lemma NoneUnaccounted(edits: seq<EditOp>, now: set<Path>, around: set<Path>, was: map<Manager, Snapshots>,
                          original: Files)
      requires disk.Noted(was, now, original) && SameExcept(original, disk.files, now + around)
      requires Targets(edits) <= now && around <= NamedPaths(edits) - Targets(edits)
      ensures disk.Accounted(around, original)
         <==> disk.Accounted(NamedPaths(edits) - Targets(edits), original)
    {
      forall m, id, p | m in disk.observers && id in m.ckpts && p in now
        ensures Recorded(m.ckpts[id], p) || p in disk.unreadable
      {
        assert m.ckpts[id] == RecordIn(was[m][id], now, original, disk.unreadable);
      }
    }

    /** What Apply leaves on disk. A batch whose op i failed: the ops before it, rolled back but for
        the restores that failed. A batch that ran: all its ops, and the formatter on named files. */
    ghost predicate FilesAfter(original: Files, files: Files, edits: seq<EditOp>, i: nat, format: bool,
                               unrestored: set<Path>)
      requires i <= |edits|
    {
      var written := AfterOps(effect, disk.unreadable, original, edits[..i]);
      && written.Some?
      && (i < |edits| ==> AfterRollback(files, original, written.value, NamedPaths(edits) - unrestored))
      && (i == |edits| ==>
           if format then SameExcept(written.value, files, NamedPaths(edits)) else files == written.value)
    }

    /** Apply from the first write on. */
    method Perform(edits: seq<EditOp>, snapshots: Files, format: bool)
      returns (result: ApplyResult, ghost unrestored: set<Path>)
      requires workspace.Valid() && disk == workspace.disk
      requires snapshots.Keys == NamedPaths(edits)
      requires forall p :: p in snapshots ==> At(disk.files, p) == Held(snapshots[p])
      modifies workspace`revision, workspace`changed, workspace`ledger, workspace`history, workspace`turns
      modifies disk`files, disk`faults, disk.observers`ckpts
      ensures workspace.Booked() && disk.Wired()
      ensures (result.Applied? && format) || workspace.Valid()
      ensures result.Applied? ==>
                (workspace.Valid() <==> disk.Accounted(NamedPaths(edits) - Targets(edits), old(disk.files)))
      ensures result.Applied? || (result.OpFailed? && result.index < |edits|)
      ensures unrestored <= NamedPaths(edits) && (unrestored != {} ==> disk.faults > old(disk.faults))
      ensures disk.KeepsCheckpoints()
      ensures FilesAfter(old(disk.files), disk.files, edits, if result.Applied? then |edits| else result.index,
                format, unrestored)
      ensures result.OpFailed? ==>
                && workspace.revision == old(workspace.revision) && workspace.history == old(workspace.history)
                && workspace.turns == old(workspace.turns)
      ensures result.OpFailed? && disk.faults == old(disk.faults) ==>
                AfterOps(effect, disk.unreadable, old(disk.files), edits[..result.index + 1]) == None
      ensures result.OpFailed? && unrestored == {} && Targets(edits[..result.index]) <= NamedPaths(edits) ==>
                disk.files == old(disk.files)
      ensures result.Applied? ==>
                && result.oldRevision == old(workspace.revision)
                && workspace.revision == result.newRevision == old(workspace.revision) + 1
                && Ascending(result.changed) && (forall p :: p in result.changed <==> p in NamedPaths(edits))
    {
      var changed := SortedDistinct(PathList(edits));
      var i;
      i, unrestored := ChangeFiles(edits, snapshots, changed, format);
      if i < |edits| {
        result := OpFailed(i);
        if unrestored == {} && Targets(edits[..i]) <= NamedPaths(edits) {
          RollbackRestores(effect, disk.unreadable, old(disk.files), edits, i, disk.files);
        }
      } else {
        var oldRevision, newRevision, _ := workspace.BumpRevision(changed);
        result := Applied(oldRevision, newRevision, changed);
      }
    }

    /** All or nothing. A refused batch changes nothing. A batch with a failed op leaves every named
        file as it was, except those whose restore failed, which the second result tells, and every
        other file as the ops before the failed one wrote it: the disk as it was, when those name what
        they write. A batch that lands moves the revision once and lists the named paths. */
    method Apply(edits: seq<EditOp>, expected: Option<nat>, format: bool)
      returns (result: ApplyResult, ghost unrestored: set<Path>)
      requires workspace.Valid() && disk == workspace.disk
      modifies workspace`revision, workspace`changed, workspace`ledger, workspace`history, workspace`turns
      modifies disk`files, disk`faults, disk.observers`ckpts
      ensures workspace.Booked() && disk.Wired()
      ensures (result.Applied? && format) || workspace.Valid()
      ensures result.Applied? ==>
                (workspace.Valid() <==> disk.Accounted(NamedPaths(edits) - Targets(edits), old(disk.files)))
      ensures disk.KeepsCheckpoints()
      ensures result.NoEdits? <==> edits == []
      ensures result.Stale? <==> edits != [] && expected != None && expected != Some(old(workspace.revision))
      ensures result.Rejected? <==>
                edits != [] && !result.Stale? && exists k :: 0 <= k < |edits| && !Passes(old(disk.files), edits, k)
      ensures result.Stale? ==> old(TellsWhatMoved(expected, result))
      ensures result.Rejected? ==> IsFirstRefused(old(disk.files), edits, result.index)
      ensures result.NoEdits? || result.Stale? || result.Rejected? ==> disk.files == old(disk.files)
      ensures !result.Applied? ==>
                && workspace.revision == old(workspace.revision) && workspace.history == old(workspace.history)
                && workspace.turns == old(workspace.turns)
      ensures unrestored <= NamedPaths(edits) && (unrestored != {} ==> disk.faults > old(disk.faults))
      ensures result.OpFailed? ==>
                result.index < |edits|
                  && FilesAfter(old(disk.files), disk.files, edits, result.index, format, unrestored)
      ensures result.OpFailed? && disk.faults == old(disk.faults) ==>
                AfterOps(effect, disk.unreadable, old(disk.files), edits[..result.index + 1]) == None
      ensures result.OpFailed? && unrestored == {} && Targets(edits[..result.index]) <= NamedPaths(edits) ==>
                disk.files == old(disk.files)
      ensures result.Applied? ==>
                && FilesAfter(old(disk.files), disk.files, edits, |edits|, format, unrestored)
                && result.oldRevision == old(workspace.revision)
                && workspace.revision == result.newRevision == old(workspace.revision) + 1
                && Ascending(result.changed) && (forall p :: p in result.changed <==> p in NamedPaths(edits))
      ensures result.Applied? && !format ==>
                HoldsLastWrites(effect, disk.unreadable, old(disk.files), edits, disk.files)
    {
      unrestored := {};
      if edits == [] {
        return NoEdits, unrestored;
      }
      var refusal := CheckRevision(expected);
      if refusal.Some? {
        return refusal.value, unrestored;
      }
      var refused := Preflight(edits);
      if refused.Some? {
        assert !Passes(old(disk.files), edits, refused.value);
        return Rejected(refused.value), unrestored;
      }
      var snapshots := SnapshotFiles(edits);
      result, unrestored := Perform(edits, snapshots, format);
      if result.Applied? && !format {
        assert edits[..|edits|] == edits;
        BatchHoldsLastWrites(effect, disk.unreadable, old(disk.files), edits, disk.files);
      }
    }
  }

  // ---- When a rollback is complete ----------------------------------------------------------------------

  /** A rollback in which every restore succeeds undoes all the ops that ran, when those wrote files
      the batch names. */
  lemma RollbackRestores(effect: Effect, unreadable: set<Path>, original: Files, edits: seq<EditOp>, i: nat, r: Files)
    requires i <= |edits| && AfterOps(effect, unreadable, original, edits[..i]).Some?
    requires AfterRollback(r, original, AfterOps(effect, unreadable, original, edits[..i]).value, NamedPaths(edits))
    requires Targets(edits[..i]) <= NamedPaths(edits)
    ensures r == original
  {
    OpsTouchTargets(effect, unreadable, original, edits[..i], AfterOps(effect, unreadable, original, edits[..i]).value);
    SameContents(r, original);
  }

  /** The disk a batch can start on: every file it names or writes exists and can be read. */
  ghost predicate Starts(edits: seq<EditOp>, original: Files, unreadable: set<Path>) {
    forall op :: op in edits ==>
      && op.path in original && op.path !in unreadable
      && Target(op) in original && Target(op) !in unreadable
  }

  /** Op i is the first that does not apply. */
  predicate FailsAt(effect: Effect, unreadable: set<Path>, original: Files, edits: seq<EditOp>, i: nat) {
    && i < |edits|
    && AfterOps(effect, unreadable, original, edits[..i]).Some?
    && AfterOps(effect, unreadable, original, edits[..i + 1]) == None
  }

  /** Ops 0 to i-1 applied; op i fails, because it does not apply or because its write did. */
  predicate ReachesFailure(effect: Effect, unreadable: set<Path>, original: Files, edits: seq<EditOp>, i: nat) {
    i < |edits| && AfterOps(effect, unreadable, original, edits[..i]).Some?
  }

  /** Every failing run of the batch in which all restores succeed leaves the disk as it was. */
  ghost predicate AlwaysRestored(edits: seq<EditOp>) {
    forall effect: Effect, unreadable: set<Path>, original: Files, i: nat, r: Files ::
      Starts(edits, original, unreadable) && ReachesFailure(effect, unreadable, original, edits, i)
      && AfterRollback(r, original, AfterOps(effect, unreadable, original, edits[..i]).value, NamedPaths(edits))
      ==> r == original
  }

  /** Every failing run of the batch does, whichever restores fail. */
  ghost predicate RestoredDespiteFaults(edits: seq<EditOp>) {
    forall effect: Effect, unreadable: set<Path>, original: Files, i: nat, restored: set<Path>, r: Files ::
      Starts(edits, original, unreadable) && ReachesFailure(effect, unreadable, original, edits, i)
      && restored <= NamedPaths(edits)
      && AfterRollback(r, original, AfterOps(effect, unreadable, original, edits[..i]).value, restored)
      ==> r == original
  }

  /** A failing run that rollback, restoring these files, does not undo. */
  ghost predicate Escapes(edits: seq<EditOp>, restored: set<Path>, effect: Effect, original: Files, i: nat, r: Files) {
    && Starts(edits, original, {}) && FailsAt(effect, {}, original, edits, i)
    && AfterRollback(r, original, AfterOps(effect, {}, original, edits[..i]).value, restored)
    && r != original
  }

  /** Every op rewrites its target, until the stray file has been. */
  function WritesUntil(stray: Path): Effect {
    (op: EditOp, files: Files) => if stray in files && files[stray] == [0] then None else Some([0])
  }

  lemma {:induction false} BeforeStray(edits: seq<EditOp>, k: nat, stray: Path, original: Files)
    requires k <= |edits| && forall j :: 0 <= j < k ==> Target(edits[j]) != stray
    requires Starts(edits, original, {}) && stray in original && original[stray] == []
    ensures var written := AfterOps(WritesUntil(stray), {}, original, edits[..k]);
      written.Some? && original.Keys <= written.value.Keys && written.value[stray] == []
  {
    if k > 0 {
      BeforeStray(edits, k - 1, stray, original);
      var before := AfterOps(WritesUntil(stray), {}, original, edits[..k - 1]).value;
      OneMoreOp(WritesUntil(stray), {}, original, edits, k - 1, before);
      assert edits[k - 1] in edits;
    }
  }

  /** An op that is not the last and writes a file that is not restored: let the op after it fail. */
  lemma StrayEscapes(edits: seq<EditOp>, k: nat, restored: set<Path>)
    returns (effect: Effect, original: Files, i: nat, r: Files)
    requires k < |edits| - 1 && Target(edits[k]) !in restored
    requires forall j :: 0 <= j < k ==> Target(edits[j]) != Target(edits[k])
    ensures Escapes(edits, restored, effect, original, i, r)
  {
    var stray := Target(edits[k]);
    effect, i := WritesUntil(stray), k + 1;
    original := map p | p in NamedPaths(edits) + Targets(edits) :: [];
    assert edits[k] in edits;
    BeforeStray(edits, k, stray, original);
    var before := AfterOps(effect, {}, original, edits[..k]).value;
    OneMoreOp(effect, {}, original, edits, k, before);
    var written := before[stray := [0]];
    OneMoreOp(effect, {}, original, edits, k + 1, written);
    r := RolledBackDisk(original, written, restored);
    assert At(r, stray) != At(original, stray);
  }

  lemma RolledBackDisk(original: Files, written: Files, named: set<Path>) returns (r: Files)
    ensures AfterRollback(r, original, written, named)
  {
    r := map p | p in original.Keys + written.Keys && (if p in named then p in original else p in written)
           :: if p in named then original[p] else written[p];
  }

  lemma {:induction false} FirstWriter(edits: seq<EditOp>, stray: Path, n: nat) returns (k: nat)
    requires n <= |edits| && stray in Targets(edits[..n])
    ensures k < n && Target(edits[k]) == stray && forall j :: 0 <= j < k ==> Target(edits[j]) != stray
  {
    k := 0;
    while Target(edits[k]) != stray
      invariant k < n && forall j :: 0 <= j < k ==> Target(edits[j]) != stray
      decreases n - k
    {
      var op :| op in edits[..n] && Target(op) == stray;
      var at :| 0 <= at < n && edits[at] == op;
      k := k + 1;
    }
  }

  /** Every failing run of a batch whose restores succeed is undone if and only if every op but the last
      writes a file the batch names: the op that fails has written nothing. A replace_symbol whose ID
      names another file is the way to miss that. */
  lemma RollbackIsCompleteIff(edits: seq<EditOp>)
    requires edits != []
    ensures AlwaysRestored(edits) <==> Targets(edits[..|edits| - 1]) <= NamedPaths(edits)
  {
    var n := |edits| - 1;
    if Targets(edits[..n]) <= NamedPaths(edits) {
      forall effect: Effect, unreadable: set<Path>, original: Files, i: nat, r: Files |
        Starts(edits, original, unreadable) && ReachesFailure(effect, unreadable, original, edits, i)
        && AfterRollback(r, original, AfterOps(effect, unreadable, original, edits[..i]).value, NamedPaths(edits))
        ensures r == original
      {
        assert edits[..i] == edits[..n][..i];
        RollbackRestores(effect, unreadable, original, edits, i, r);
      }
    } else {
      var stray :| stray in Targets(edits[..n]) && stray !in NamedPaths(edits);
      var k := FirstWriter(edits, stray, n);
      var effect, original, i, r := StrayEscapes(edits, k, NamedPaths(edits));
      assert ReachesFailure(effect, {}, original, edits, i);
    }
  }

  /** When restores may fail too, only a batch of one op is always undone: it has written nothing. */
  lemma RestoredDespiteFaultsIff(edits: seq<EditOp>)
    requires edits != []
    ensures RestoredDespiteFaults(edits) <==> |edits| == 1
  {
    if |edits| == 1 {
      forall effect: Effect, unreadable: set<Path>, original: Files, i: nat, restored: set<Path>, r: Files |
        Starts(edits, original, unreadable) && ReachesFailure(effect, unreadable, original, edits, i)
        && restored <= NamedPaths(edits)
        && AfterRollback(r, original, AfterOps(effect, unreadable, original, edits[..i]).value, restored)
        ensures r == original
      {
        SameContents(r, original);
      }
    } else {
      var effect, original, i, r := StrayEscapes(edits, 0, {});
      assert ReachesFailure(effect, {}, original, edits, i);
    }
  }

  /** One such batch: the first op names a, and the symbol in its ID lives in b; the second fails. */
  lemma StrayTargetSurvives()
    ensures exists effect, original, i, r ::
              Escapes([EditOp("a", Some("b"), "first"), EditOp("a", None, "second")], {"a"}, effect, original, i, r)
  {
    var edits := [EditOp("a", Some("b"), "first"), EditOp("a", None, "second")];
    assert edits[0].path != Target(edits[0]) && edits[1].path != Target(edits[0]);
    var effect, original, i, r := StrayEscapes(edits, 0, {"a"});
  }

  /** Two ops on one file, the second failing, and its restore too: what the first wrote stays. */
  lemma FailedRestoreSurvives()
    ensures exists effect, original, i, r ::
              Escapes([EditOp("a", None, "first"), EditOp("a", None, "second")], {}, effect, original, i, r)
  {
    var edits := [EditOp("a", None, "first"), EditOp("a", None, "second")];
    var effect, original, i, r := StrayEscapes(edits, 0, {});
  }

  lemma PathsPlus(edits: seq<EditOp>, i: nat)
    requires i < |edits|
    ensures NamedPaths(edits[..i + 1]) == NamedPaths(edits[..i]) + {edits[i].path}
    ensures Targets(edits[..i + 1]) == Targets(edits[..i]) + {Target(edits[i])}
    ensures Targets(edits[..i + 1]) <= Targets(edits)
  {
    assert edits[..i + 1] == edits[..i] + [edits[i]];
  }
}
