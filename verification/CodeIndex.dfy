/** The code index's writes: replacing lines of a file, and a rename across files. */
module CodeIndex {
  import opened Order
  import opened Overlay
  import opened Lines
  import opened Substitution
  import opened Rename
  import opened LspRename
  import opened Workspace

  datatype SpliceResult = Unreadable | BadRange(lineCount: nat) | NotWritten | Spliced(oldLines: seq<Bytes>)

  method SpliceAndWrite(disk: Disk, path: Path, source: Bytes, lines: seq<Bytes>, from: nat, to: nat, newCode: Bytes)
    returns (result: SpliceResult)
    requires disk.Wired() && lines == SplitLines(source) && 1 <= from <= to <= |lines|
    modifies disk`files, disk`faults, disk.observers`ckpts
    ensures disk.Told({path})
    ensures result == if disk.faults == old(disk.faults) then Spliced(lines[from - 1..to]) else NotWritten
    ensures disk.files ==
              if result.Spliced? then old(disk.files)[path := Splice(source, from, to, newCode)] else old(disk.files)
  {
    var updated := lines[..from - 1] + SplitLines(newCode) + lines[to..];
    var terminator := LineTerminator(source);
    var rewritten := Join(updated, terminator);
    assert rewritten == rewritten + [];
    if EndsWith(source, LF) || source == [] {
      rewritten := rewritten + terminator;
    }
    assert rewritten == Splice(source, from, to, newCode);
    var ok := disk.File(path, rewritten);
    result := if ok then Spliced(lines[from - 1..to]) else NotWritten;
  }

  /** Replaces lines start..end of a file, having told every observer first. */
  method ReplaceRangeSource(disk: Disk, path: Path, start: int, end: int, newCode: Bytes) returns (result: SpliceResult)
    requires disk.Valid()
    modifies disk`files, disk`faults, disk.observers`ckpts
    ensures disk.Valid()
    ensures result.Unreadable? <==> path in disk.unreadable || path !in old(disk.files)
    ensures result.BadRange? <==>
              path !in disk.unreadable && path in old(disk.files)
                && !(1 <= start <= end <= |SplitLines(old(disk.files)[path])|)
    ensures result.BadRange? ==> result.lineCount == |SplitLines(old(disk.files)[path])|
    ensures result.Spliced? ==>
              && disk.files == old(disk.files)[path := Splice(old(disk.files)[path], start, end, newCode)]
              && result.oldLines == SplitLines(old(disk.files)[path])[start - 1..end]
    ensures !result.Spliced? ==> disk.files == old(disk.files)
    ensures result.NotWritten? <==> disk.faults != old(disk.faults)
  {
    var r := disk.ReadFile(path);
    if !r.Read? {
      disk.ToldNothing();
      return Unreadable;
    }
    var lines := SplitLines(r.data);
    if start < 1 || end > |lines| || start > end {
      return BadRange(|lines|);
    }
    result := SpliceAndWrite(disk, path, r.data, lines, start, end, newCode);
    disk.StillFaithful({path});
  }

  // ---- Rename -----------------------------------------------------------------------------------------

  /** The edits of one file, in the order they are applied. */
  datatype FileEdit = FileEdit(path: Path, edits: seq<PositionedEdit>)

  datatype RenameResult =
    | OutsideWorkspace(path: Path)
    | CannotRead(path: Path)
    | DoesNotFit(path: Path)
    | NotRenamed(outcome: Outcome)
    | Renamed(changed: seq<Path>)

  function PathsIn(fileEdits: seq<FileEdit>): (r: seq<Path>)
    ensures |r| == |fileEdits| && forall i :: 0 <= i < |r| ==> r[i] == fileEdits[i].path
  {
    seq(|fileEdits|, i requires 0 <= i < |fileEdits| => fileEdits[i].path)
  }

  /** What a rename leaves in a file, if its edits fit it. */
  function RenamedContent(files: Files, fileEdit: FileEdit): Option<Bytes> {
    if fileEdit.path !in files then None
    else
      match ApplyEdits(SplitLines(files[fileEdit.path]), fileEdit.edits)
      case None => None
      case Some(lines) => Some(WrittenBack(lines))
  }

  ghost predicate DistinctFiles(fileEdits: seq<FileEdit>) {
    forall i, j :: 0 <= i < j < |fileEdits| ==> fileEdits[i].path != fileEdits[j].path
  }

  /** The loop over one file's edits. */
  method EditLines(lines: seq<Bytes>, edits: seq<PositionedEdit>) returns (result: Option<seq<Bytes>>)
    ensures result == ApplyEdits(lines, edits)
  {
    var current := lines;
    for i := 0 to |edits|
      invariant ApplyEdits(lines, edits[..i]) == Some(current)
    {
      assert edits[..i + 1][..i] == edits[..i];
      var updated := ApplyPositionedEdit(current, edits[i]);
      if updated == None {
        NoneStays(lines, edits, i + 1);
        return None;
      }
      current := updated.value;
    }
    assert edits[..|edits|] == edits;
    return Some(current);
  }

  lemma {:induction false} NoneStays(lines: seq<Bytes>, edits: seq<PositionedEdit>, i: nat)
    requires i <= |edits| && ApplyEdits(lines, edits[..i]) == None
    ensures ApplyEdits(lines, edits) == None
    decreases |edits| - i
  {
    if i < |edits| {
      assert edits[..i + 1][..i] == edits[..i];
      NoneStays(lines, edits, i + 1);
    } else {
      assert edits[..i] == edits;
    }
  }

  predicate CanRead(files: Files, unreadable: set<Path>, p: Path) {
    p in files && p !in unreadable
  }

  /** File i cannot be edited, for the reason given; the ones before it can. */
  predicate IsRefusal(files: Files, unreadable: set<Path>, outside: set<Path>, fileEdits: seq<FileEdit>, i: nat,
                      result: RenameResult)
  {
    && i < |fileEdits|
    && (forall k :: 0 <= k < i ==> fileEdits[k].path !in outside && CanRead(files, unreadable, fileEdits[k].path))
    && (fileEdits[i].path in outside || !CanRead(files, unreadable, fileEdits[i].path))
    && result == if fileEdits[i].path in outside then OutsideWorkspace(fileEdits[i].path)
                 else CannotRead(fileEdits[i].path)
  }

  /** Reads every file before any is written. */
  method ReadContents(disk: Disk, outside: set<Path>, fileEdits: seq<FileEdit>)
    returns (failure: Option<RenameResult>, contents: map<Path, seq<Bytes>>)
    ensures failure.None? <==> forall f :: f in fileEdits ==> f.path !in outside && disk.ReadFile(f.path).Read?
    ensures failure.Some? ==> exists i :: IsRefusal(disk.files, disk.unreadable, outside, fileEdits, i, failure.value)
    ensures failure.None? ==>
              forall f :: f in fileEdits ==> f.path in contents && contents[f.path] == SplitLines(disk.files[f.path])
  {
    contents := map[];
    for i := 0 to |fileEdits|
      invariant forall f :: f in fileEdits[..i] ==>
                  && f.path !in outside && disk.ReadFile(f.path).Read?
                  && f.path in contents && contents[f.path] == SplitLines(disk.files[f.path])
    {
      assert fileEdits[..i + 1] == fileEdits[..i] + [fileEdits[i]];
      var path := fileEdits[i].path;
      assert fileEdits[i] in fileEdits;
      if path in outside {
        assert IsRefusal(disk.files, disk.unreadable, outside, fileEdits, i, OutsideWorkspace(path));
        return Some(OutsideWorkspace(path)), contents;
      }
      var r := disk.ReadFile(path);
      if !r.Read? {
        assert IsRefusal(disk.files, disk.unreadable, outside, fileEdits, i, CannotRead(path));
        return Some(CannotRead(path)), contents;
      }
      contents := contents[path := SplitLines(r.data)];
    }
    assert fileEdits[..|fileEdits|] == fileEdits;
    failure := None;
  }

  /** File i is the first whose edits do not fit it. */
  ghost predicate IsMisfit(files: Files, fileEdits: seq<FileEdit>, i: nat, path: Path) {
    && i < |fileEdits| && fileEdits[i].path == path && RenamedContent(files, fileEdits[i]) == None
    && forall k :: 0 <= k < i ==> RenamedContent(files, fileEdits[k]).Some?
  }

  /** Edits every file in memory: what to write, or the first file whose edits do not fit. */
  method EditContents(files: Files, contents: map<Path, seq<Bytes>>, fileEdits: seq<FileEdit>)
    returns (misfit: Option<Path>, changes: seq<Change>)
    requires DistinctFiles(fileEdits)
    requires forall f :: f in fileEdits ==>
               f.path in files && f.path in contents && contents[f.path] == SplitLines(files[f.path])
    ensures misfit.Some? ==> exists i :: IsMisfit(files, fileEdits, i, misfit.value)
    ensures misfit.None? ==> AreRenames(files, fileEdits, changes)
  {
    changes := [];
    for i := 0 to |fileEdits|
      invariant |changes| == i
      invariant forall k :: 0 <= k < i ==> IsRename(files, fileEdits[k], changes[k])
    {
      var f := fileEdits[i];
      assert f in fileEdits;
      var lines := EditLines(contents[f.path], f.edits);
      if lines == None {
        assert forall k :: 0 <= k < i ==> IsRename(files, fileEdits[k], changes[k]);
        assert IsMisfit(files, fileEdits, i, f.path);
        return Some(f.path), changes;
      }
      changes := changes + [Change(f.path, Held(WrittenBack(lines.value)))];
    }
    misfit := None;
  }

  /** A rename the server answered: every file it edits is read, edited and then written, or none is
      changed. */
  method LanguageServerRename(disk: Disk, outside: set<Path>, fileEdits: seq<FileEdit>)
    returns (result: RenameResult, ghost faulty: set<nat>)
    requires disk.Valid() && DistinctFiles(fileEdits)
    modifies disk`files, disk`faults, disk.observers`ckpts
    ensures disk.Valid()
    ensures result.Renamed? || result.NotRenamed? <==> AllEditable(old(disk.files), disk.unreadable, outside, fileEdits)
    ensures result.Renamed? || result.NotRenamed? ==>
              RenameEnds(old(disk.files), fileEdits, result, faulty, disk.faults - old(disk.faults), disk.files)
    ensures !result.Renamed? && !result.NotRenamed? ==>
              && RefusedSo(old(disk.files), disk.unreadable, outside, fileEdits, result)
              && disk.files == old(disk.files) && disk.faults == old(disk.faults)
  {
    var refusal, changes := PrepareRenames(disk, outside, fileEdits);
    if refusal.Some? {
      return refusal.value, {};
    }
    result, faulty := WriteRenames(disk, fileEdits, changes);
  }

  /** The edited files, or why the rename cannot be. Nothing is written. */
  method PrepareRenames(disk: Disk, outside: set<Path>, fileEdits: seq<FileEdit>)
    returns (refusal: Option<RenameResult>, changes: seq<Change>)
    requires DistinctFiles(fileEdits)
    ensures refusal.Some? ==> RefusedSo(disk.files, disk.unreadable, outside, fileEdits, refusal.value)
    ensures refusal.Some? <==> !AllEditable(disk.files, disk.unreadable, outside, fileEdits)
    ensures refusal.None? ==> AreRenames(disk.files, fileEdits, changes)
  {
    changes := [];
    var failure, contents := ReadContents(disk, outside, fileEdits);
    if failure.Some? {
      return failure, [];
    }
    var misfit;
    misfit, changes := EditContents(disk.files, contents, fileEdits);
    if misfit.Some? {
      refusal := Some(DoesNotFit(misfit.value));
    } else {
      AllFit(disk.files, fileEdits, changes);
      refusal := None;
    }
  }

  /** Every file is inside the workspace, can be read, and takes its edits. */
  ghost predicate AllEditable(files: Files, unreadable: set<Path>, outside: set<Path>, fileEdits: seq<FileEdit>) {
    forall f :: f in fileEdits ==>
      f.path !in outside && CanRead(files, unreadable, f.path) && RenamedContent(files, f).Some?
  }

  /** Why a rename is refused: for the first file outside or unreadable, or, with none such, the first whose
      edits do not fit. */
  ghost predicate RefusedSo(files: Files, unreadable: set<Path>, outside: set<Path>, fileEdits: seq<FileEdit>,
                            result: RenameResult)
  {
    if result.DoesNotFit?
    then
      && (forall f :: f in fileEdits ==> f.path !in outside && CanRead(files, unreadable, f.path))
      && exists i :: IsMisfit(files, fileEdits, i, result.path)
    else exists i :: IsRefusal(files, unreadable, outside, fileEdits, i, result)
  }

  lemma AllFit(files: Files, fileEdits: seq<FileEdit>, changes: seq<Change>)
    requires AreRenames(files, fileEdits, changes)
    ensures forall f :: f in fileEdits ==> RenamedContent(files, f).Some?
  {
    forall i | 0 <= i < |fileEdits| ensures RenamedContent(files, fileEdits[i]).Some? {
      assert IsRename(files, fileEdits[i], changes[i]);
    }
  }

  /** Writes the edited files, or puts back those already written. */
  method WriteRenames(disk: Disk, fileEdits: seq<FileEdit>, changes: seq<Change>)
    returns (result: RenameResult, ghost faulty: set<nat>)
    requires disk.Valid() && DistinctFiles(fileEdits) && AreRenames(disk.files, fileEdits, changes)
    requires AllEditable(disk.files, disk.unreadable, {}, fileEdits)
    modifies disk`files, disk`faults, disk.observers`ckpts
    ensures disk.Valid()
    ensures RenameEnds(old(disk.files), fileEdits, result, faulty, disk.faults - old(disk.faults), disk.files)
  {
    NoneUnreadable(disk, fileEdits, changes);
    var outcome;
    outcome, faulty := disk.WriteFiles(changes);
    result := if outcome.Written? then Renamed(PathsIn(fileEdits)) else NotRenamed(outcome);
    RenameEndsSo(old(disk.files), fileEdits, changes, outcome, faulty, disk.faults - old(disk.faults), disk.files);
  }

  /** How a rename ends once writing has begun: every file edited; or one that could not be written, and
      the others put back. */
  ghost predicate RenameEnds(before: Files, fileEdits: seq<FileEdit>, result: RenameResult, faulty: set<nat>,
                             faults: int, after: Files)
  {
    match result
    case Renamed(changed) => changed == PathsIn(fileEdits) && AllRenamed(before, after, fileEdits) && faults == 0
    case NotRenamed(outcome) =>
      && Undone(before, RenameChanges(before, fileEdits), outcome, faulty, faults, after) && faults > 0
      && (!outcome.RollbackFailed? ==> after == before)
    case _ => false
  }

  /** What a rename writes. */
  function RenameChanges(files: Files, fileEdits: seq<FileEdit>): seq<Change> {
    seq(|fileEdits|, i requires 0 <= i < |fileEdits| => RenameChange(files, fileEdits[i]))
  }

  function RenameChange(files: Files, fileEdit: FileEdit): Change {
    var content := RenamedContent(files, fileEdit);
    Change(fileEdit.path, if content.Some? then Held(content.value) else At(files, fileEdit.path))
  }

  lemma IsRenameChange(files: Files, fileEdit: FileEdit, change: Change)
    requires IsRename(files, fileEdit, change)
    ensures change == RenameChange(files, fileEdit)
  {
  }

  lemma AreRenameChanges(files: Files, fileEdits: seq<FileEdit>, changes: seq<Change>)
    requires AreRenames(files, fileEdits, changes)
    ensures changes == RenameChanges(files, fileEdits)
  {
    forall i | 0 <= i < |changes| ensures changes[i] == RenameChange(files, fileEdits[i]) {
      IsRenameChange(files, fileEdits[i], changes[i]);
    }
  }

  lemma RenameEndsSo(before: Files, fileEdits: seq<FileEdit>, changes: seq<Change>, outcome: Outcome, faulty: set<nat>,
                     faults: int, after: Files)
    requires DistinctFiles(fileEdits) && AreRenames(before, fileEdits, changes)
    requires outcome.Written? ==> after == ApplyAll(before, changes) && faults == 0
    requires !outcome.Written? ==> Undone(before, changes, outcome, faulty, faults, after)
    ensures RenameEnds(before, fileEdits, if outcome.Written? then Renamed(PathsIn(fileEdits)) else NotRenamed(outcome),
              faulty, faults, after)
  {
    AreRenameChanges(before, fileEdits, changes);
    if outcome.Written? {
      RenamedFiles(before, fileEdits, changes);
    }
  }

  lemma NoneUnreadable(disk: Disk, fileEdits: seq<FileEdit>, changes: seq<Change>)
    requires AreRenames(disk.files, fileEdits, changes)
    requires AllEditable(disk.files, disk.unreadable, {}, fileEdits)
    ensures !exists c :: c in changes && c.path in disk.unreadable
  {
    forall i | 0 <= i < |changes| ensures changes[i].path !in disk.unreadable {
      assert IsRename(disk.files, fileEdits[i], changes[i]) && fileEdits[i] in fileEdits;
    }
  }

  /** Every file is edited, by the protocol's rules where it has LF lines, and no other is changed. */
  ghost predicate AllRenamed(before: Files, after: Files, fileEdits: seq<FileEdit>) {
    && (forall f :: f in fileEdits ==>
          RenamedContent(before, f).Some? && At(after, f.path) == Held(RenamedContent(before, f).value))
    && SameExcept(before, after, EditedPaths(fileEdits))
    && FollowsTheProtocol(before, after, fileEdits)
  }

  /** The changes are the edited files. */
  ghost predicate AreRenames(files: Files, fileEdits: seq<FileEdit>, changes: seq<Change>) {
    && |changes| == |fileEdits|
    && forall i :: 0 <= i < |fileEdits| ==> IsRename(files, fileEdits[i], changes[i])
  }

  ghost predicate IsRename(files: Files, fileEdit: FileEdit, change: Change) {
    && change.path == fileEdit.path && RenamedContent(files, fileEdit).Some?
    && change.content == Held(RenamedContent(files, fileEdit).value)
  }

  /** An LF file holds what the server's edits of it give by the protocol's rules, for any answer of which
      these are the sorted edits. */
  ghost predicate HoldsProtocolResult(before: Files, after: Files, f: FileEdit) {
    forall edits, ranges ::
      f.path in before && IsAnswer(before[f.path], edits, f.edits, ranges) ==>
        At(after, f.path) == Held(Substitute(before[f.path], ranges, 0))
  }

  /** So does every file. */
  ghost predicate FollowsTheProtocol(before: Files, after: Files, fileEdits: seq<FileEdit>) {
    fileEdits == [] ||
    (HoldsProtocolResult(before, after, fileEdits[0]) && FollowsTheProtocol(before, after, fileEdits[1..]))
  }

  lemma {:induction false} EachFollows(before: Files, after: Files, fileEdits: seq<FileEdit>, f: FileEdit)
    requires FollowsTheProtocol(before, after, fileEdits) && f in fileEdits
    ensures HoldsProtocolResult(before, after, f)
  {
    if f != fileEdits[0] {
      EachFollows(before, after, fileEdits[1..], f);
    }
  }

  lemma OneFollows(before: Files, after: Files, f: FileEdit)
    requires RenamedContent(before, f).Some? && At(after, f.path) == Held(RenamedContent(before, f).value)
    ensures HoldsProtocolResult(before, after, f)
  {
    forall edits, ranges | f.path in before && IsAnswer(before[f.path], edits, f.edits, ranges)
      ensures At(after, f.path) == Held(Substitute(before[f.path], ranges, 0))
    {
      RenameFollowsTheProtocol(before[f.path], edits, f.edits, ranges);
    }
  }

  lemma {:induction false} RenamesFollowTheProtocol(before: Files, after: Files, fileEdits: seq<FileEdit>)
    requires forall f :: f in fileEdits ==>
               RenamedContent(before, f).Some? && At(after, f.path) == Held(RenamedContent(before, f).value)
    ensures FollowsTheProtocol(before, after, fileEdits)
  {
    if fileEdits != [] {
      OneFollows(before, after, fileEdits[0]);
      assert forall f :: f in fileEdits[1..] ==> f in fileEdits;
      RenamesFollowTheProtocol(before, after, fileEdits[1..]);
    }
  }

  function EditedPaths(fileEdits: seq<FileEdit>): set<Path> {
    set f | f in fileEdits :: f.path
  }

  lemma PathsAreEdited(files: Files, fileEdits: seq<FileEdit>, changes: seq<Change>)
    requires AreRenames(files, fileEdits, changes)
    ensures PathsOf(changes) == EditedPaths(fileEdits)
  {
  }

  lemma RenamedFiles(files: Files, fileEdits: seq<FileEdit>, changes: seq<Change>)
    requires DistinctFiles(fileEdits) && AreRenames(files, fileEdits, changes)
    ensures AllRenamed(files, ApplyAll(files, changes), fileEdits)
  {
    PathsAreEdited(files, fileEdits, changes);
    AppliedElsewhere(files, changes);
    forall f | f in fileEdits
      ensures RenamedContent(files, f).Some?
                && At(ApplyAll(files, changes), f.path) == Held(RenamedContent(files, f).value)
    {
      var i :| 0 <= i < |fileEdits| && fileEdits[i] == f;
      assert IsRename(files, f, changes[i]) && changes[i] in changes;
      forall j | 0 <= j < |changes| && changes[j].path == f.path ensures changes[j].content == changes[i].content {
        assert IsRename(files, fileEdits[j], changes[j]);
        assert i == j;
      }
      AppliedAt(files, changes, f.path, changes[i].content);
    }
    RenamesFollowTheProtocol(files, ApplyAll(files, changes), fileEdits);
  }
}
