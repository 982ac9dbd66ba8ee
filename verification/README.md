# ARNO's bookkeeping, modelled and proved

ARNO is a code-editing server. Most of what it promises rests on bookkeeping: around a file system that
other programs can make fail at any write, and around language-server processes that answer late, out
of order, or not at all. This project models that bookkeeping in Dafny and proves what it keeps.

`dafny verify dfyconfig.toml` checks all of it.

## What is modelled

- **Checkpoints and the write path** (`Overlay`, `Ledger`, `Revisions`, `Workspace`). The disk is a map from paths
  to bytes; any write or removal may fail. Every observer of the disk is told before a path changes.
  The workspace manager answers by recording, for each live checkpoint, what the path held. The
  central fact is the overlay invariant: for each checkpoint, captured contents, then recorded prior
  states, then the current disk are together the disk the checkpoint was taken on. It holds of every
  live checkpoint of every observer, through every operation, and a revert therefore restores that disk.
- **Batches of edits** (`Apply`). A second rollback, on top of the write path's own.
- **Lines** (`Lines`, `LineEnds`, `Paging`, `CodeIndex`). Splitting, splicing, paging, counting changed lines.
- **Columns, positions and renames** (`Utf16`, `Wire`, `Positions`, `Substitution`, `Rename`,
  `LspRename`). Byte columns against UTF-16 columns, the text a language server receives, its reading
  of positions, and a rename's edits applied last to first against all of them substituted at once.
- **Document synchronisation** (`Sync`). What a server shows of each file after the messages sent.
- **Requests, servers, jobs** (`Pending`, `Servers`, `Jobs`). State machines whose steps are single
  critical sections, atomic accesses and channel operations; the theorems are about every run.
- **Open workspaces, job announcements, edit diagnostics** (`GraphCache`, `Background`, `Diagnostics`).

Where the source updates an object in place the model is a class with those fields, each method proved
against a specification function or predicate. Where several goroutines interleave, it is a step
relation. `Order` holds the shared vocabulary.

What the outside world decides is a parameter or left open: whether a write, a removal or a start
succeeds (counted in `Disk.faults` for files, so that a failure is only ever reported when one
happened), which paths cannot be read, git's HEAD and worktree list, path cleaning and symlink
resolution, whether an op is well formed and what it makes of the disk (functions), what a formatter writes,
what diagnostics a file has.

## Where code and comments differ

The model follows the code.

- `Checkpoint` (internal/workspace/manager.go:380-384) calls a path that no longer exists at checkpoint
  time a known limitation. It is none: its absence is recorded before its next write, and a revert
  removes it again. That is part of the overlay invariant.
- `RevertCheckpoint` says "nothing was changed" for every failure of the write (internal/workspace/manager.go:475-477).
  When restoring fails too, that is not so: a list of changes that fails is sure to leave the disk alone exactly
  when every change but the last is what the disk holds already (`Workspace.AlwaysUndoneIff`), and a revert when
  everything its checkpoint holds but the last path is (`Workspace.IncompleteRevertChangesNothingIff`).
  `Workspace.FailedRestoreLeavesAChange` is a list of two changes with a run that leaves the first.
- `Files` reports a restore as failed for a path that was and is absent (internal/writes/writes.go:148-153), though
  nothing has changed (`Workspace.RestoreReportedWithoutCause`). Where no restore fails, none is reported exactly
  when every absent path among the changes made is given contents, by one of them only
  (`Workspace.ReportsNothingIff`).
- `ChangedSince` is documented as the paths edited after a revision. A revert is a new revision without a
  ledger entry, so a known answer leaves out what a revert changed, exactly when
  `Revisions.NamesEveryDifferenceIff` says so (`Workspace.RevertGoesUnmentioned` is a run that gets there);
  with no revert since, it is complete.
- `Apply` reports all edits rolled back, whatever became of the restores. Where those succeed, every failing run
  of a batch is undone exactly when every op but the last writes a file the batch names, which a `replace_symbol`
  with another file in its symbol ID escapes (`Apply.RollbackIsCompleteIff`). Where they may fail, only a batch of
  one op is always undone (`Apply.RestoredDespiteFaultsIff`).
- A formatter that is handed a path rewrites it behind the write path's back. After a batch with formatting every
  checkpoint is right exactly when each named file that no op wrote, and that can be read, is on its record or has
  not changed (`Apply.EditService.Apply`).
- An edit of lines changes nothing else about a file's shape (internal/code/index.go:1357-1359) exactly when every
  line before it, and every line from its last one on, already ends as the file's first line does
  (`LineEnds.SpliceKeepsTheRestIff`, and `LineEnds.MixedEndsChange` for a file in which they do not).
- A rename rewrites CRLF as LF and ends the file with a newline: exactly the files
  `Rename.UneditedIsUnchangedIff` names keep their line ends. An edit whose replaced text ends in a newline, or
  has a line that ends in a return, loses it (`Rename.OneEditIsExactIff`).
- Edits applied last to first resolve their columns on lines already edited. The text before an edit keeps its
  columns exactly when it is not truncated (`Utf16.PrefixDecidesIff`), which valid UTF-8 never is. A column past
  its line's end is taken as the end, by LSP's rules too; but once an edit there has added to the line it is found
  further on (`Rename.SameColumnIff`, `Rename.EndsPastTheLine`).
- `documentEnd` is the document's end only for a text in which no carriage return stands alone; after a
  ranged change of any other text the server keeps a tail for good (`Sync.RangedChange`).
- A cache bound of 1 evicts the workspace just opened, even one being switched to
  (`GraphCache.Session.SwitchWorkspace`, `GraphCache.SwitchWithABoundOfOne`); bounds below 1 never reach a session.
- `CompleteWithResult` guards against closing a channel twice, but not against two completions of one job
  under way while its channel is open (`Jobs.PanicIffOverlap`).

## Model

| member | source | states |
|---|---|---|
| Overlay.RecordedChangeIsFaithful | internal/workspace/manager.go:338-366 | recording paths before changing them keeps every live checkpoint's overlay equal to the disk it was taken on, whatever the change |
| Overlay.RecordTwice | internal/workspace/manager.go:357-365 | only the first record of a path counts, so recording path by path through a multi-file change is recording all its paths at the start |
| Overlay.UnannouncedChange | internal/writes/writes.go:149 | a change nobody announced keeps a checkpoint right exactly when the path is already recorded, cannot be read, or did not change |
| Overlay.UnannouncedChanges | internal/edit/format.go:36-48 | the same for any set of paths changed unannounced |
| Overlay.FreshCheckpointIsFaithful | internal/workspace/manager.go:380-405 | a new checkpoint's overlay is the disk, though it captures only paths touched so far that exist |
| Overlay.RestoredIsTaken | internal/workspace/manager.go:446-477 | putting back captured and recorded states reproduces the checkpoint's disk, and leaves unreadable paths alone |
| Overlay.RunKeepsOverlay | internal/workspace/manager.go:338-510 | in every run of announced changes, changes of recorded paths, checkpoints and revision bumps, every live checkpoint stays right |
| Overlay.StepsCanBeTaken | internal/workspace/manager.go:338-410 | every kind of step of such a run can be taken: any path may change, a checkpoint may be taken at any time, and a path every checkpoint has on record may change unannounced |
| Overlay.RevertRestoresTheCheckpoint | internal/workspace/manager.go:432-510 | a checkpoint taken after any run, reverted to after any further run with other checkpoints and reverts in it, gives back the disk it was taken on |
| Overlay.RevertIsARun | internal/workspace/manager.go:446-477 | a revert to any checkpoint, its changes in any order, is a run of announced changes: it reproduces that checkpoint's disk and every other checkpoint, earlier or later, stays right, so it can itself be undone |
| Ledger.NothingNewerWasDropped | internal/workspace/manager.go:123-154 | whenever the trimmed ledger answers for a revision, it names the same paths as the whole history |
| Ledger.WindowReach | internal/workspace/manager.go:123-188 | without reverts the ledger answers for exactly the revisions from the current one back to 500 before it, and none below 1 |
| Ledger.NamesFileIff | internal/workspace/manager.go:748-753 | a key with a "::" in it names what stands before the last one, that is, before a name without "::" that does not begin with ":"; any other key names itself; and PathFromKey gives just that |
| Ledger.SymbolKey | internal/workspace/manager.go:748-753 | the path of "path::name" is path, whatever separators it holds itself |
| Ledger.PlainKey | internal/workspace/manager.go:748-753 | a key without a separator is its own path |
| Order.BeforeIff | internal/workspace/manager.go:183 | the order lists are sorted in: at the first place two strings differ the smaller element decides, and a proper prefix comes first |
| Revisions.UnnamedDiffersIff | internal/workspace/manager.go:156-201 | where bumps name what was written, a path no bump after revision n names differs from that revision if and only if the last revert since to write it left it different |
| Revisions.NamesEveryDifferenceIff | internal/workspace/manager.go:123-154 | over every such run the bumps after revision n name every path that differs from it if and only if they name every path the reverts since left different |
| Revisions.NamesEveryDifferenceWithoutReverts | internal/workspace/manager.go:123-154 | with no revert since revision n they always do |
| Workspace.RevertGoesUnmentioned | internal/workspace/manager.go:479-488 | for every file and new content, a checkpoint, a write, its bump and the revert lead to a known answer that names nothing while the file differs from the revision asked about |
| Workspace.Disk.Notify | internal/writes/writes.go:52-64 | every observer of the root records the path for each of its checkpoints before the write |
| Workspace.Disk.File | internal/writes/writes.go:75-108 | observers are told first; then the file is replaced as a whole or nothing changes, and only a fault prevents it |
| Workspace.Disk.Remove | internal/writes/writes.go:67-70 | observers are told first; then the file is gone, was absent, or a fault left it |
| Workspace.Disk.WriteFiles | internal/writes/writes.go:114-161 | all changes in order; or refused for the first path that cannot be read, nothing written; or, one having failed, the disk the changes before it gave with every path put back whose restore worked, the answer naming exactly the restores reported, and nothing changed after a single fault or when reported restored; without a fault it is never rolled back; every checkpoint stays right even when restoring fails |
| Workspace.Disk.RollBack | internal/writes/writes.go:143-158 | given which restores failed: a path holds what it held before if some restore of it worked, and otherwise what it held when the rollback began; the report, duplicates and all, names each restore that failed or that removed what was not there; no checkpoint is disturbed by the unannounced removal |
| Workspace.Disk.RestoreOne | internal/writes/writes.go:145-153 | one path put back or left alone, and when that counts as a failure |
| Workspace.ReportsWhatIsLeft | internal/writes/writes.go:143-158 | a failed run leaves changed only paths it reports, and none when no restore fails |
| Workspace.AlwaysUndoneIff | internal/writes/writes.go:143-160 | every failing run of a list of changes, whichever restores fail, leaves the disk as it was if and only if every change but the last is what the disk holds |
| Workspace.FailedRestoreLeavesAChange | internal/writes/writes.go:143-158 | a list of two changes and a run that leaves the first |
| Workspace.ReportsNothingIff | internal/writes/writes.go:143-160 | a rollback in which no restore fails is reported complete if and only if every path among the changes made that was absent is given contents, by one of them only |
| Workspace.RestoreReportedWithoutCause | internal/writes/writes.go:148-153 | a list of two changes whose failure is reported as not restored though nothing changed |
| Workspace.AppliedAt | internal/writes/writes.go:130-139 | what a path holds after a list of changes that agree on it, and that other paths keep their contents |
| Workspace.Manager.BeforeWrite | internal/workspace/manager.go:342-366 | every checkpoint that has not seen the path records what it holds, absence included; one that has, or an unreadable path, is left alone |
| Workspace.Manager.Checkpoint | internal/workspace/manager.go:368-410 | a new identifier, the readable files among the touched paths captured, all other checkpoints untouched, all invariants kept |
| Workspace.Manager.RestoringChanges | internal/workspace/manager.go:446-470 | one change per captured or recorded path, captured contents first, recorded absence as a removal, sorted by path |
| Workspace.RestoringRestores | internal/workspace/manager.go:446-477 | applying those changes, in any order, to any disk puts back what the checkpoint says |
| Workspace.Manager.RevertCheckpoint | internal/workspace/manager.go:432-510 | unknown checkpoints and moved heads change nothing; a completed revert reproduces the checkpoint's disk and is one new revision; it is incomplete exactly when a write failed, and then revision and touched set stand, and disk and answer are those of a failed write of the sorted changes: unchanged after a single fault or a complete rollback, otherwise different only on recorded paths whose restore is reported, each of which holds what it held or what was written |
| Workspace.IncompleteRevertChangesNothingIff | internal/workspace/manager.go:470-477 | every incomplete revert to a checkpoint changes nothing if and only if everything it holds, but for the last path in order, is on disk already |
| Workspace.RevertReportsNothingIff | internal/workspace/manager.go:470-477 | a revert whose one failed write is rolled back without another is reported so if and only if every absent path among those written before it is given contents |
| Workspace.Manager.BumpRevision | internal/workspace/manager.go:156-201 | the revision moves by one, the touched set grows by the cleaned paths, and the history gains exactly the files the cleaned paths and symbol keys name, sorted and once each, noted with the disk as it is |
| Workspace.EntryOfASymbol | internal/workspace/manager.go:171-183 | the entry for one symbol ID of a file lists that file |
| Workspace.NotedAreFiles | internal/workspace/manager.go:171-183 | what an entry notes are the files its keys name |
| Workspace.KeyPathsAreFiles | internal/workspace/manager.go:387-397 | what a checkpoint captures are the files the touched keys name |
| Workspace.Manager.ChangedSince | internal/workspace/manager.go:123-154 | known exactly when the window reaches back far enough, and then the sorted set of paths bumped after that revision in the whole history; which names every path that differs from that revision exactly under the condition of Revisions.NamesEveryDifferenceIff |
| Apply.EditService.CheckRevision | internal/edit/service.go:52-60 | no expectation or the current revision passes; a refusal names the current revision, says exactly when it can tell what moved since, and then names that, from the whole history |
| Apply.OrdinaryOp | internal/edit/apply.go:221-255 | an op without a symbol ID rewrites the file it names with what the op makes of the disk, and fails exactly when that is missing, unreadable or does not suit the op |
| Apply.SymbolOp | internal/edit/apply.go:232-238 | an op with one does the same to the file in the ID |
| Apply.BatchHoldsLastWrites | internal/edit/apply.go:61-75 | after a batch has run every path holds what the last op to write it made of it, from the disk the ops before left, and a path no op writes is as it was |
| Apply.EditService.Preflight | internal/edit/apply.go:136-166 | refuses exactly the first op that is ill-formed or that, unless an earlier op names its file, names one that cannot be read or in which its anchor does not resolve; nothing is written |
| Apply.EditService.RestoreFiles | internal/edit/apply.go:345-353 | every snapshotted file is as it was but for those whose write failed, and every other file is as the ops left it; some restore fails exactly when there was a fault; checkpoints stay right |
| Apply.EditService.Apply | internal/edit/apply.go:31-125 | each refusal exactly when its condition holds, naming what it should and changing nothing; a batch whose op i fails leaves the named files as they were but for restores that failed, every other file as ops 0 to i-1 wrote it, and the revision; one that lands is all its ops in order, each path holding what its last op made of it, moves the revision once and lists the sorted named paths; every checkpoint stays right, but for a batch that lands and is formatted, where that is so if and only if each readable named file no op wrote is on its record or unchanged |
| Apply.EditService.FormatFiles | internal/edit/format.go:36-48 | formatting touches the given files only; what is announced is recorded, and what is formatted in place is told apart |
| Apply.RollbackRestores | internal/edit/apply.go:345-353 | a rollback whose restores succeed gives back the disk when the ops that ran wrote files the batch names |
| Apply.RollbackIsCompleteIff | internal/edit/apply.go:61-68 | every failing run of a batch whose restores succeed is undone if and only if every op but the last writes a file the batch names, whether the last op run did not apply or could not be written |
| Apply.RestoredDespiteFaultsIff | internal/edit/apply.go:349-353 | every failing run of a batch, whichever restores fail, is undone if and only if the batch is a single op |
| Apply.FailedRestoreSurvives | internal/edit/apply.go:349-353 | two ops on one file, the second failing and the restore too, leave what the first wrote |
| Apply.StrayEscapes | internal/edit/apply.go:345-353 | an op before the last whose file is not restored escapes the rollback in a run from a disk on which every named and written file exists |
| Apply.StrayTargetSurvives | internal/edit/apply.go:345-353 | one batch of two ops whose first writes an unnamed file, and such a run |
| Utf16.Utf16Column | internal/lsp/operations.go:154-175 | the loop gives the UTF-16 units of the characters that start before the byte column, any input clamped |
| Utf16.ByteColumn | internal/lsp/operations.go:179-199 | the loop gives the first character boundary with at least that many units before it, or the end |
| Utf16.ByteOffsetForColumn | internal/lsp/operations.go:211-213 | the same as an offset, never past the line |
| Utf16.OffsetInvertsUnits | internal/lsp/operations.go:154-199 | byte to column and back is the identity at every character boundary of every line, ill-formed ones included |
| Utf16.UnitsInvertOffset | internal/lsp/operations.go:154-199 | column to byte and back is exact, or one more, and exact if and only if some boundary has that column: inside a surrogate pair it rounds up |
| Utf16.OffsetAgainstUnits | internal/lsp/operations.go:154-199 | a boundary is at or past a column's offset exactly when the column is at most the boundary's |
| Utf16.UnitsMonotone | internal/lsp/operations.go:154-175 | byte to column is monotone |
| Utf16.OffsetMonotone | internal/lsp/operations.go:179-199 | column to byte is monotone |
| Utf16.ColumnsCountUtf16 | internal/lsp/operations.go:146-175 | in valid UTF-8 a character's column is the length of the UTF-16 encoding (RFC 2781 section 2.1) of what is before it, and its offset that of the UTF-8 encoding (RFC 3629 section 3) |
| Utf16.DecodeUndoesEncode | internal/lsp/operations.go:160-173 | decoding gives back every scalar value from its RFC 3629 encoding, whatever follows |
| Utf16.EncodeUndoesDecode | internal/lsp/operations.go:160-173 | every well-formed start of a line is the RFC 3629 encoding of what it decodes to |
| Utf16.PrefixDecides | internal/code/lsp_bridge.go:204-206 | a column inside a prefix that is not truncated, ill-formed bytes and all, has the same offset whatever follows the prefix |
| Utf16.PrefixDecidesIff | internal/code/lsp_bridge.go:204-206 | exactly the prefixes no boundary of which is followed by the mere start of a well-formed character decide their columns |
| Utf16.WellFormedIsNotTruncated | internal/code/lsp_bridge.go:204-206 | valid UTF-8 is such a prefix |
| Utf16.PastPrefixIff | internal/code/lsp_bridge.go:204-206 | a column past what such a prefix holds resolves to its end if and only if nothing follows it |
| Lines.SplitLinesInPlace | internal/code/index.go:1502-1511 | the loop strips one carriage return per line and nothing else |
| Lines.SplitOfFile | internal/code/index.go:1502-1511 | splitting an LF or CRLF file gives back its lines, with or without a final terminator |
| Lines.TerminatorOfFile | internal/code/index.go:1520-1525 | the terminator found is the file's own |
| Lines.SpliceKeepsTheRest | internal/code/index.go:1360-1381 | in a file of one uniform terminator every byte before line from and after line to stays, and the new lines stand between under that terminator |
| LineEnds.FileIsItsLines | internal/code/index.go:1502-1511 | any file is its lines, each with a return, a newline, both or nothing behind it |
| LineEnds.SpliceKeepsTheRestIff | internal/code/index.go:1355-1381 | in any file every byte before line from and after line to stays, the new lines between them, if and only if each line before from, and from line to on, already ends as it is written back |
| LineEnds.MixedEndsChange | internal/code/index.go:1355-1381 | a file of a CRLF line and an LF line in which replacing the first changes the second |
| Lines.SpliceKeepsTheEnding | internal/code/index.go:1369-1375 | whether the file ends in a newline is kept, if and only if it did, or lines follow, or the new code's last line is not empty, or the code is one empty line alone |
| Lines.SpliceIntoNothing | internal/code/index.go:1369-1375 | an empty file has one empty line, and replacing it gives the new code's lines and a final newline |
| Lines.SpliceThenSplit | internal/code/index.go:1360-1381 | splitting the spliced file again gives the lines before, the new code's lines and the lines after if and only if the file has CRLF terminators or no new line ends in a carriage return |
| Lines.JoinOfSplit | internal/code/index.go:1502-1511 | a text without its final newline, split and stripped, joins to itself if and only if none of its lines ended in a return, and to something no longer otherwise |
| Lines.LineDelta | internal/edit/service.go:346-366 | counts of the middles left by some shared ends, minimal over all choices of shared ends, differing by the difference in line counts |
| Lines.CountedLinesAre | internal/edit/service.go:346-353 | the lines counted are the text's lines between newlines, one final newline aside; none for an empty text or a lone newline |
| CodeIndex.SpliceAndWrite | internal/code/index.go:1360-1381 | the displaced lines, and the file spliced; nothing but a fault prevents the write; observers told |
| CodeIndex.ReplaceRangeSource | internal/code/index.go:1246-1262 | unreadable files and bad ranges are refused exactly then, with the number of lines, and change nothing; otherwise the file is the splice, and every checkpoint stays right |
| Paging.RangeLines | internal/code/index.go:1167-1206 | which requests are unreadable, negative, invalid or a range, with unset and overlong bounds resolved |
| Paging.ReadRangePage | internal/code/index.go:1142-1163 | the longest prefix of the requested lines that fits, or its first line, and where to go on |
| Paging.PageOfRequest | internal/code/index.go:1186-1202 | a page is of the lines asked for: an unset start is line 1, an unset end or one past the file its last line, and only the latter is reported clamped |
| Paging.PagesAreTheLines | internal/code/index.go:1139-1163 | pages followed from any request are, joined, exactly the lines up to the last page's end, once each and in order; there are no more pages than lines |
| Paging.CompleteIff | internal/code/index.go:1153-1162 | the pages make up the whole request if and only if the last names no next line |
| Substitution.OneMoreRange | internal/lsp/operations.go:117-127 | with all later ranges replaced, replacing one that ends before them is the simultaneous substitution with one range more |
| Rename.RefusedForItsLinesOnly | internal/code/lsp_bridge.go:207-219 | an edit is refused exactly for its line numbers; the check of byte offsets cannot fail |
| Rename.OneEditKeeps | internal/code/lsp_bridge.go:207-228 | one edit, on any lines and with any text, turns the lines it spans into the replaced text as splitting leaves it, and nothing else |
| Rename.OneEditIsExactIff | internal/code/lsp_bridge.go:221-226 | one edit, on any lines and with any text, is the replacement asked for if and only if the replaced text does not end in a newline and no line of it ends in a return |
| Rename.SamePosition | internal/code/lsp_bridge.go:204-206 | lines edited only from a position on resolve every position on earlier lines as before, and on its own line every column the text before it holds, when that text is not truncated |
| Rename.SameColumnIff | internal/code/lsp_bridge.go:204-206 | a column up to the position resolves as before if and only if the text before the position holds it or the line is as it was |
| Rename.InsideTheLine | internal/code/lsp_bridge.go:204-206 | for a position within its line, the text before it holds every column up to it |
| Rename.EndsPastTheLine | internal/code/lsp_bridge.go:175-185 | two edits on one line, one ending past its end, of which one undoes the other |
| Rename.EditsSubstitute | internal/code/lsp_bridge.go:175-185 | edits applied last to first, columns resolved on the edited lines each time, are all substituted at once |
| Rename.SortedIsLastToFirst | internal/lsp/operations.go:117-127 | non-overlapping edits with distinct starts, sorted descending, each end before the one applied before starts |
| Rename.SortSorts | internal/lsp/operations.go:117-127 | sorting by start, the last first, gives every list of edits such an order |
| Rename.RenameSubstitutes | internal/lsp/operations.go:117-139 | for edits in any order and any outcome of the sort the result is the same simultaneous substitution |
| Rename.UneditedIsUnchangedIff | internal/code/lsp_bridge.go:190-194 | writing any file back unedited leaves it if and only if it ends in a newline and no line ends in a carriage return |
| Rename.RenamedFile | internal/code/lsp_bridge.go:161-194 | the bytes written are the edits substituted at once in the file with plain newlines, a final one included, which is the file itself exactly under the condition above |
| LspRename.ResolvesToOffset | internal/code/lsp_bridge.go:207-219 | on clean lines our offset of a position is LSP's |
| LspRename.RenameFollowsTheProtocol | internal/code/lsp_bridge.go:113-202 | for an LF file that ends in a newline, valid UTF-8 or not, the bytes written are what applying the server's edits by LSP's rules gives, whatever order they came in, columns past a line's end included |
| CodeIndex.EditLines | internal/code/lsp_bridge.go:176-184 | the loop over one file's edits gives each edit applied to what the ones before left, or nothing if one does not fit |
| CodeIndex.LanguageServerRename | internal/code/lsp_bridge.go:158-202 | if every file is inside the workspace, readable and takes its edits, every file is edited as above and no other changed, each LF file holding what the server's answer gives by LSP's rules, or a failed write leaves what a failed write of those changes leaves; otherwise nothing is written, and the refusal names the first file outside or unreadable, or, with none such, the first that its edits do not fit; checkpoints stay right |
| Wire.ArrivesAsIsIff | internal/lsp/client.go:403-409 | a text reaches the server unchanged if and only if it is valid UTF-8 |
| Wire.SameUnits | internal/lsp/client.go:403-409 | what JSON makes of ill-formed bytes leaves every line's length in UTF-16 units as it was |
| Positions.DocumentEnd | internal/lsp/manager.go:418-422 | the last line by newlines, at its length in UTF-16 units |
| Positions.EndIsTheEndIff | internal/lsp/manager.go:416-422 | by LSP's line rules that position is the end of the text if and only if every carriage return is followed by a newline |
| Positions.EndOnTheWireIff | internal/lsp/manager.go:307-321 | the same for the position computed on disk and resolved in the text the server received, valid UTF-8 or not |
| Positions.EndOfPrefix | internal/lsp/manager.go:307-321 | in a document that goes on past a text, that text's end position is not past it |
| Sync.RangedChange | internal/lsp/manager.go:307-321 | a ranged change leaves exactly the new text if the server showed the previous one and it had no lone return, and otherwise the new text with something left over behind it |
| Sync.MessageKeepsStep | internal/lsp/manager.go:287-327 | each message keeps every open document at the manager's version, showing the text last read unless torn |
| Sync.VersionsIncrease | internal/lsp/manager.go:290-306 | of two messages about one file the later carries the greater version, and only the first opens it |
| Sync.Client.Sync | internal/lsp/manager.go:277-343 | after any sequence of calls, while the server is there, it has been sent the new text, and the save for servers that asked, and nothing more; and replaying all messages by LSP's rules shows the text just read, if and only if no ranged change of the file ever replaced a text with a lone return |
| Pending.StepKeepsGood | internal/lsp/client.go:179-223 | every step of calls, reader, reaper and Close keeps the pending-table invariant |
| Pending.ResolvedOnce | internal/lsp/client.go:211-223 | in every run no channel is closed twice or sent to once closed, and the reader's send never blocks: what the reader holds, and what is on the table, has an open and empty channel |
| Pending.OwnAnswers | internal/lsp/client.go:352-400 | a call returns only a response with its own id that arrived while it was on the table, the server-gone error from waiting only once the table was drained, and leaves no entry behind |
| Pending.ArrivedIsKept | internal/lsp/client.go:211-223 | in every run a response that arrives for a call on the table is from then on with the reader, in the call's channel, or returned, unless the call was cancelled or not sent |
| Pending.ResponseReachesCall | internal/lsp/client.go:211-223 | a waiting call gets it: receiving, sending, closing and taking are possible in turn and end with that answer |
| Pending.StrayResponse | internal/lsp/client.go:211-223 | a response to no call on the table changes nothing |
| Pending.ResultsHaveTheirCause | internal/lsp/client.go:352-400 | in every run an answer arrived for the call, server gone means the table was drained with the call on it, cancelled that it was cancelled, and an error in sending that the client was closed or the write failed |
| Pending.CausesHaveTheirResult | internal/lsp/client.go:371-385 | a call that was cancelled, or that was not sent, returns that and nothing else |
| Pending.OnTheTableIff | internal/lsp/client.go:366-384 | a call is on the table from its registration until a response arrives for it, it gives up, or the table is drained |
| Pending.ClosedIff | internal/lsp/client.go:179-183 | the client is closed once Close ran or the exit was noticed, and not before |
| Pending.CallsBegin | internal/lsp/client.go:352-366 | a call made once the client is closed gets nothing; any other an identifier and a channel of its own |
| Pending.NobodyIsBlocked | internal/lsp/client.go:179-400 | at any moment of any run every call, the reader and the reaper can take their next step, but for a call that waits, which can be cancelled, and can return once its channel has something or is closed |
| Pending.DrainedLeavesNoneBehind | internal/lsp/client.go:179-192 | after the drain every call past send's check has its channel closed or with the reader, and any other call is refused |
| Pending.NoWaiterIsStuck | internal/lsp/client.go:186-192 | after the drain a waiting call can return at once or after the reader's own remaining steps |
| Servers.StepKeepsGood | internal/lsp/manager.go:123-243 | every step of requests, starts, deaths and closes keeps each live server in exactly one of registered, in flight, being closed |
| Servers.NoServerIsLost | internal/lsp/manager.go:219-243 | in every run each launched server is dead, registered under its key, being closed, or in flight |
| Servers.CloseLeavesNoServer | internal/lsp/manager.go:348-370 | once Close has run and no start is in flight, every live server is being closed and requests get none |
| Servers.OneServerPerKey | internal/lsp/manager.go:235-242 | with no start in flight a key has at most one live server that is not being closed |
| Servers.ClosedByOneParty | internal/lsp/manager.go:219-243 | a server being closed is neither registered nor in flight, so nothing closes it again |
| Servers.RestartsAreBounded | internal/lsp/manager.go:133-147 | over every run the steps that find a language's client dead, drop it and start another are at most one |
| Servers.FailedIsNotStarted | internal/lsp/manager.go:147-150 | after a key has failed a later request for it gets the open client if the manager is open and there is one, and otherwise none, and starts nothing |
| Servers.OpenClientIsReturned | internal/lsp/manager.go:128-137 | a request that finds an open client gets it, and nothing else happens |
| Servers.FirstLook | internal/lsp/manager.go:128-151 | by what happened before: a request gets the client of its key if that is neither flagged nor the manager closed; is refused exactly if the manager was closed or there is none open and the key has failed or its language's client is dead for the second time; and otherwise starts a server; a dead client is dropped |
| Servers.ResolvedIsRegistered | internal/lsp/manager.go:225-243 | a start returns the client registered under its key in the end, the one that was there and open, its own then being closed, or its own; after Close it fails and its own is closed |
| Servers.FailedIff | internal/lsp/manager.go:60-70 | a key has failed exactly when a start of it failed or its client was found dead twice |
| Servers.RestartedIff | internal/lsp/manager.go:60-70 | a language's restart is spent exactly when its client was found dead |
| Servers.ServerHistory | internal/lsp/client.go:179-183 | a launched process runs until it dies or its close is through, and its client is flagged exactly once that was noticed or it was closed |
| Servers.ClosingStep | internal/lsp/manager.go:348-370 | what gets closed: what was registered at Close, and what a start that failed or lost had launched |
| Servers.StartStep | internal/lsp/manager.go:153-165 | a start is launched, initialized and resolved, or fails at either, is marked failed, and returns none |
| Servers.NobodyIsBlocked | internal/lsp/manager.go:123-243 | at any moment of any run every request and start can take its next step, and what can befall a process may |
| GraphCache.Cache.Touch | cmd/arno-mcp/workspace_cache.go:72-79 | the graph at i first, the others in their order, and the list still most recently used first |
| GraphCache.Cache.Lookup | cmd/arno-mcp/workspace_cache.go:61-69 | a hit exactly when an open graph has that directory, moved to the front; a miss changes nothing |
| GraphCache.Cache.Evict | cmd/arno-mcp/workspace_cache.go:91-110 | what goes was used before everything that stays but the kept graph, is evicted once only, and no more goes than the bound asks |
| GraphCache.Session.GraphForRoot | cmd/arno-mcp/workspace_cache.go:134-179 | a graph of the target exactly when one is open or git lists it and it opens; the graphs evicted for a new one are the least recently used but for the default, and all others stay open; the graph returned is open if and only if it was, the bound is at least 2, or the default was not open |
| GraphCache.Session.GraphForCall | cmd/arno-mcp/workspace_cache.go:184-190 | the default for a call that names no other directory, else as above |
| GraphCache.Session.SwitchWorkspace | cmd/arno-mcp/workspace_switch.go:221-268 | each outcome's exact condition; a failure leaves the default; what is evicted is least recently used but for the old default; with a bound of at least 2 old and new default are open, with 1 the new one was evicted unless it was open |
| GraphCache.SwitchWithABoundOfOne | cmd/arno-mcp/workspace_switch.go:221-268 | for any two directories, a new session with a bound of 1 that switches from one to the other serves an evicted workspace |
| Background.BackgroundJobs.Add | cmd/arno-mcp/progress.go:29-41 | an unclaimed completion is handed over once, as the job's last completion said, otherwise the job waits |
| Background.BackgroundJobs.Finish | cmd/arno-mcp/progress.go:44-62 | announced exactly when waited for; otherwise kept, the oldest pushed out past 64 |
| Background.BoundedAndDisjoint | cmd/arno-mcp/progress.go:20-62 | after any history no job is both waiting and finished and at most 64 completions are kept |
| Background.AtMostOncePerFinish | cmd/arno-mcp/progress.go:29-62 | in every history a job is announced at most as often as it finished |
| Background.KeptIsLastCompletion | cmd/arno-mcp/progress.go:44-62 | in every history what is kept of a job is what its last completion said |
| Background.AnnouncedOnceIff | cmd/arno-mcp/progress.go:15-62 | a job that finishes once is announced exactly once if it was added before, or after but with fewer than 64 unclaimed completions between, and otherwise never |
| Jobs.StepKeepsGood | internal/jobs/runner.go:60-176 | every step keeps the key table naming running jobs only and channels closed only after a stored verdict |
| Jobs.JoinsARunningJob | internal/jobs/runner.go:91-108 | StartOnce joins exactly when the key is on the table, and then that job, which had not completed |
| Jobs.FinishedHasAVerdict | internal/jobs/runner.go:259-278 | Wait reports finished only for a completed job, with the verdict the last step to complete it before then was given, and there is such a step |
| Jobs.WaitReportsTheLastVerdict | internal/jobs/runner.go:259-278 | whatever Wait answers of a job, its verdict is what the last completion before then was given, and none if there was none; it reports finished exactly when there is one and the wait did not time out |
| Jobs.TimedOut | internal/jobs/runner.go:274-278 | a wait that times out reports unfinished, with that verdict if there is one |
| Jobs.CompletionReleases | internal/jobs/runner.go:138-163 | a completion's own steps close the channel of its job, and who waits for it can then return what it said |
| Jobs.JoinedUntilCompleteIff | internal/jobs/runner.go:91-152 | a job is on the table under a key from when StartOnce records it until it completes or another job is recorded under that key |
| Jobs.StartIsNew | internal/jobs/runner.go:60-66 | a job is started with an identifier no job had, running, its channel open |
| Jobs.StarterGetsItsJob | internal/jobs/runner.go:99-108 | who started a job gets its identifier |
| Jobs.NobodyIsBlocked | internal/jobs/runner.go:60-278 | at any moment of any run without a double close everyone can take their next step, but for who waits, who can time out, and can go on once the channel is closed |
| Jobs.CompletedForGood | internal/jobs/runner.go:130-176 | a started job that has completed stays completed through every run |
| Jobs.NoPanicUnlessOverlap | internal/jobs/runner.go:138-163 | in runs where no two callers complete one job whose channel is still open no channel is closed twice |
| Jobs.PanicIffOverlap | internal/jobs/runner.go:154-163 | at the end of any such run the completions under way can reach a double close if and only if two of them are of one job whose channel is still open |
| Jobs.OverlapIsReachable | internal/jobs/runner.go:130-163 | a run that gets there |
| Diagnostics.KeyIdentifies | internal/diagnostics/service.go:98-100 | the key tells level and message apart, levels holding no NUL |
| Diagnostics.KeysAreCounted | internal/diagnostics/service.go:124-127 | the baseline counts each key as often as it occurs |
| Diagnostics.FreshIsTheDifference | internal/diagnostics/service.go:124-138 | what is returned is, by key, the multiset difference of current and baseline, and what is left out their intersection |
| Diagnostics.FreshIsASubsequence | internal/diagnostics/service.go:128-138 | what is returned keeps its order, and of each key it is the findings after as many as the baseline has |
| Diagnostics.NothingNew | internal/diagnostics/service.go:102-107 | nothing is returned if and only if every current finding is accounted for by the baseline |
| Diagnostics.BaselineAfter | internal/diagnostics/service.go:56-85 | a baseline is what the first checked write since the last response found |
| Diagnostics.Service.BeforeWrite | internal/diagnostics/service.go:56-85 | the first checked write of an edit sets the file's baseline, and nothing else changes any |
| Diagnostics.Service.Immediate | internal/diagnostics/service.go:108-143 | the difference from the edit's first checked write; that file's baseline is used up and the count left out remembered, nothing is touched for other files |

## Left out

- Process launching, git, formatters, HTTP, MCP and JSON framing: input and output. The gopls command's own rename writes files outside the write path and is outside the overlay invariant.
- Symlinks, permissions, temporary files and path containment: a write is one atomic step, paths are resolved already, and a path outside the workspace is a parameter.
- The text of single edit operations (replace_text, insert, delete_symbol, replace_symbol): what an op makes of the disk is any function, and so are op shapes and anchors, in `Apply`.
- Revision strings and checkpoint names: numbers here. A revision that does not parse is one that is not known.
- Concurrent writers: file operations are sequential here; the window between `RevertCheckpoint` releasing its lock and writing, and two writes racing between notification and rename, are not modelled. For a checkpoint taken between a write's notification and the write itself, `Overlay.UnannouncedChange` says exactly when it stays right. The order in which a batch's restores run is left open; a revert's is by path, taken relative to the root.
- Paths that are unreadable at one moment and readable at another: the unreadable paths are a constant set.
- Concurrent Sync calls on one file: `Sync` releases the table's lock before sending, so two may send out of order; `Sync.Client.Sync` is about calls one after another. A failed send is taken to mean the server stays gone.
- Replies of the server to positions past its last line: LSP leaves them open, the model takes the last line.
- Fallback servers' refusals, `WaitSettled`, `WaitForDiagnostics` and other waits on wall-clock time; a timeout is a step that may happen at any moment.
- Two callers of StartOnce that both look before either records their job start two; the model allows it, and claims only what a caller that joins gets.
- Partial frames on a broken pipe, and messages with the id of no call, which the reader drops.
- The symbol cache, tree-sitter extraction, search scoring, output summaries and clamping: heuristics or assumptions about the file system.
- Rendering, strict mode, telemetry, tool catalogues, project configuration: plumbing.
- Rename.RenameSubstitutes: asks of each edit that neither its text nor the part of its line before it would lose a newline or return to splitting, of edits that they do not overlap and start at distinct places, of two on one line that the text before the later is not truncated and holds the column the earlier ends at, and of lines that none ends in a return; `Rename.OneEditIsExactIff`, `Utf16.PrefixDecidesIff` and `Rename.SameColumnIff` say why.
- LspRename.RenameFollowsTheProtocol: asks for a file without carriage returns, since LSP counts a lone return as a line break and the rename does not keep CRLF; `Rename.RenamedFile` says what is written otherwise.
- Apply.EditService.Apply: does not model the snippets, diagnostics and check run that follow the revision bump.
