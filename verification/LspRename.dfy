/** A rename against the protocol's own reading of positions: in the document the server was sent, its
    edits are resolved by LSP's rules, and all of them are replaced at once. */
module LspRename {
  import opened Order
  import opened Utf16
  import opened Lines
  import opened Substitution
  import opened Positions
  import opened Rename

  predicate Counted(e: PositionedEdit) {
    e.startLine >= 1 && e.endLine >= 1 && e.startColumn >= 0 && e.endColumn >= 0
  }

  function StartOf(e: PositionedEdit): Position
    requires Counted(e)
  {
    Position(e.startLine - 1, e.startColumn)
  }

  function EndOf(e: PositionedEdit): Position
    requires Counted(e)
  {
    Position(e.endLine - 1, e.endColumn)
  }

  lemma {:induction false} BreakAfter(line: Bytes, rest: Bytes, text: Bytes)
    requires Clean(line) && text == line + [LF] + rest
    ensures LineBreak(text) == |line| && BreakWidth(text, |line|) == 1
  {
    if line != [] {
      assert text[0] in line;
      assert text[1..] == line[1..] + [LF] + rest;
      BreakAfter(line[1..], rest, text[1..]);
      assert text[|line|] == LF;
    }
  }

  /** In a text of clean lines, LSP's offset of a position is ours. */
  lemma {:induction false} ResolvesToOffset(lines: seq<Bytes>, line: int, column: nat)
    requires 1 <= line <= |lines| && forall l :: l in lines ==> Clean(l)
    ensures Resolve(Terminated(lines, [LF]), Position(line - 1, column)) == Offset(lines, line, column)
  {
    var text, first, rest := Terminated(lines, [LF]), lines[0], Terminated(lines[1..], [LF]);
    assert first in lines;
    BreakAfter(first, rest, text);
    FirstLineGone(first, rest, text);
    ResolveUnfolds(text, Position(line - 1, column), |first|);
    if line > 1 {
      ResolvesToOffset(lines[1..], line - 1, column);
      OffsetPastFirst(lines, line, column);
    }
  }

  lemma FirstLineGone(first: Bytes, rest: Bytes, text: Bytes)
    requires text == first + [LF] + rest
    ensures text[..|first|] == first && text[|first| + 1..] == rest
  {
  }

  lemma OffsetPastFirst(lines: seq<Bytes>, line: int, column: nat)
    requires 1 < line <= |lines|
    ensures Offset(lines, line, column) == |lines[0]| + 1 + Offset(lines[1..], line - 1, column)
  {
    assert lines[..line - 1][1..] == lines[1..][..line - 2];
  }

  /** ranges is the edits, their positions resolved in the document. */
  ghost predicate AreRangesIn(text: Bytes, edits: seq<PositionedEdit>, ranges: Ranges)
    requires forall e :: e in edits ==> Counted(e)
  {
    && (forall e :: e in edits ==>
          Resolve(text, StartOf(e)) in ranges
            && ranges[Resolve(text, StartOf(e))] == (Resolve(text, EndOf(e)), e.newText))
    && (forall s :: s in ranges ==> exists e :: e in edits && Resolve(text, StartOf(e)) == s)
  }

  lemma SameEdit(lines: seq<Bytes>, e: PositionedEdit, text: Bytes)
    requires (forall l :: l in lines ==> Clean(l)) && ValidEdit(lines, e) && Counted(e)
              && text == Terminated(lines, [LF])
    ensures Resolve(text, StartOf(e)) == Start(lines, e) && Resolve(text, EndOf(e)) == End(lines, e)
  {
    ResolvesToOffset(lines, e.startLine, e.startColumn);
    ResolvesToOffset(lines, e.endLine, e.endColumn);
  }

  lemma SameRanges(lines: seq<Bytes>, edits: seq<PositionedEdit>, ranges: Ranges, text: Bytes)
    requires forall e :: e in edits ==> ValidEdit(lines, e) && Counted(e)
    requires forall e :: e in edits ==>
              Resolve(text, StartOf(e)) == Start(lines, e) && Resolve(text, EndOf(e)) == End(lines, e)
    requires AreRangesIn(text, edits, ranges)
    ensures AreRanges(lines, edits, ranges)
  {
    forall s | s in ranges ensures exists e :: e in edits && Start(lines, e) == s {
      var e :| e in edits && Resolve(text, StartOf(e)) == s;
      assert Start(lines, e) == s;
    }
  }

  /** edits are an answer of the server for an LF file, ranges their positions in it, and sorted the order
      the rename applies them in. */
  ghost predicate IsAnswer(source: Bytes, edits: seq<PositionedEdit>, sorted: seq<PositionedEdit>, ranges: Ranges) {
    && CR !in source && EndsWith(source, LF)
    && (forall e :: e in edits ==> ValidEdit(SplitLines(source), e) && Counted(e))
    && DoNotOverlap(SplitLines(source), edits) && AreRangesIn(source, edits, ranges)
    && multiset(sorted) == multiset(edits) && SortedFromTheEnd(sorted)
  }

  /** What a rename writes for a file is what applying the server's edits to it gives, by the protocol's
      rules, whatever order they came in. */
  lemma RenameFollowsTheProtocol(source: Bytes, edits: seq<PositionedEdit>, sorted: seq<PositionedEdit>, ranges: Ranges)
    requires IsAnswer(source, edits, sorted, ranges)
    ensures ApplyEdits(SplitLines(source), sorted).Some?
    ensures WrittenBack(ApplyEdits(SplitLines(source), sorted).value) == Substitute(source, ranges, 0)
  {
    var lines := SplitLines(source);
    LinesWithoutReturns(source);
    UneditedIsUnchangedIff(source);
    TerminatedIsJoin(lines, [LF]);
    forall e | e in edits
      ensures Resolve(source, StartOf(e)) == Start(lines, e) && Resolve(source, EndOf(e)) == End(lines, e)
    {
      SameEdit(lines, e, source);
    }
    SameRanges(lines, edits, ranges, source);
    CleanIsTidy(lines);
    RenamedFile(source, edits, sorted, ranges);
  }

  lemma CleanIsTidy(lines: seq<Bytes>)
    requires lines != [] && forall l :: l in lines ==> Clean(l)
    ensures TidyText(lines)
  {
    forall l | l in lines ensures !EndsWith(l, CR) {
      assert l != [] ==> l[|l| - 1] in l;
    }
  }
}
