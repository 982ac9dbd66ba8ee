/** Applying a language server's rename: edits addressed by line and UTF-16 column, applied one by
    one from the end of each file, against the file as the server described it. */
module Rename {
  import opened Order
  import opened Utf16
  import opened Lines
  import opened Substitution

  /** A replacement addressed by 1-based lines and 0-based UTF-16 columns. */
  datatype PositionedEdit = PositionedEdit(startLine: int, startColumn: int, endLine: int, endColumn: int,
                                           newText: Bytes)

  /** Replaces one range. The bound on the byte offsets that the source checks next cannot fail. */
  function ApplyPositionedEdit(lines: seq<Bytes>, edit: PositionedEdit): Option<seq<Bytes>> {
    if edit.startLine < 1 || edit.endLine < edit.startLine || edit.endLine > |lines| then None
    else
      var start := ByteOffset(lines, edit.startLine, edit.startColumn);
      var end := ByteOffset(lines, edit.endLine, edit.endColumn);
      if start > |lines[edit.startLine - 1]| || end > |lines[edit.endLine - 1]| then None
      else Some(Edited(lines, edit.startLine, edit.endLine, start, end, edit.newText))
  }

  function ByteOffset(lines: seq<Bytes>, line: nat, column: int): (offset: nat)
    requires 1 <= line <= |lines|
    ensures offset <= |lines[line - 1]|
  {
    OffsetWithin(lines[line - 1], column);
    OffsetOf(Chars(lines[line - 1]), column)
  }

  /** The lines with the text from byte start of line s to byte end of line t replaced. */
  function Edited(lines: seq<Bytes>, s: nat, t: nat, start: nat, end: nat, newText: Bytes): seq<Bytes>
    requires 1 <= s <= t <= |lines| && start <= |lines[s - 1]| && end <= |lines[t - 1]|
  {
    lines[..s - 1] + SplitLines(TextBetween(lines, s, t, start, end, newText)) + lines[t..]
  }

  /** What comes to stand on lines s to t, before it is split into lines. */
  function TextBetween(lines: seq<Bytes>, s: nat, t: nat, start: nat, end: nat, newText: Bytes): Bytes
    requires 1 <= s <= t <= |lines| && start <= |lines[s - 1]| && end <= |lines[t - 1]|
  {
    lines[s - 1][..start] + newText + lines[t - 1][end..]
  }

  /** Columns are clamped to the line, so an edit is refused for its lines only. */
  lemma RefusedForItsLinesOnly(lines: seq<Bytes>, edit: PositionedEdit)
    ensures ApplyPositionedEdit(lines, edit) == None
        <==> edit.startLine < 1 || edit.endLine < edit.startLine || edit.endLine > |lines|
  {
    if 1 <= edit.startLine <= edit.endLine <= |lines| {
      OffsetWithin(lines[edit.startLine - 1], edit.startColumn);
      OffsetWithin(lines[edit.endLine - 1], edit.endColumn);
    }
  }

  // ---- Positions as offsets ---------------------------------------------------------------------------

  /** The byte offset of a position in the lines joined by newlines. */
  function Offset(lines: seq<Bytes>, line: int, column: int): nat
    requires 1 <= line <= |lines|
  {
    LineStart(lines, [LF], line) + ByteOffset(lines, line, column)
  }

  /** The part of a line before a position on it. */
  function Before(lines: seq<Bytes>, line: int, column: int): Bytes
    requires 1 <= line <= |lines|
  {
    lines[line - 1][..ByteOffset(lines, line, column)]
  }

  predicate NotAfter(line: int, column: int, line2: int, column2: int) {
    line < line2 || (line == line2 && column <= column2)
  }

  /** The lines are there and the columns in order; columns past a line's end are taken as its end. */
  predicate OnLines(lines: seq<Bytes>, e: PositionedEdit) {
    1 <= e.startLine <= e.endLine <= |lines| && (e.startLine == e.endLine ==> e.startColumn <= e.endColumn)
  }

  /** Text that splitting keeps, wherever it is put: no line of it ends in a return, and it does not end
      in a newline. */
  predicate Insertable(newText: Bytes) {
    !EndsWith(newText, LF) && NoneEndsInReturn(Split(newText))
  }

  /** The edit is the replacement asked for, on whatever line it comes to be applied to. */
  predicate ValidEdit(lines: seq<Bytes>, e: PositionedEdit) {
    OnLines(lines, e) && Insertable(e.newText) && !EndsWith(Before(lines, e.startLine, e.startColumn), CR)
  }

  /** A line as splitting leaves it, but that it may not end in a return of its own. Returns elsewhere
      and ill-formed bytes are fine. */
  predicate Tidy(line: Bytes) {
    LF !in line && !EndsWith(line, CR)
  }

  ghost predicate TidyText(lines: seq<Bytes>) {
    lines != [] && forall l :: l in lines ==> Tidy(l)
  }

  lemma NeitherEndsInReturn(a: Bytes, b: Bytes)
    requires !EndsWith(a, CR) && !EndsWith(b, CR)
    ensures !EndsWith(a + b, CR)
  {
  }

  /** The lines of a text put between the two ends of a line. */
  lemma SplitAround(prefix: Bytes, newText: Bytes, suffix: Bytes, text: Bytes)
    requires Tidy(prefix) && Tidy(suffix) && Insertable(newText) && text == prefix + newText + suffix
    ensures prefix <= Split(text)[0] && NoneEndsInReturn(Split(text)) && !EndsWith(text, LF)
  {
    var split, start := Split(newText), prefix + newText;
    SplitPrefixed(prefix, newText, start);
    SplitSuffixed(start, suffix, text);
    assert split[0] in split;
    NeitherEndsInReturn(prefix, split[0]);
    var m := |split| - 1;
    var last := Split(start)[m];
    assert last == prefix + split[0] || last in split;
    NeitherEndsInReturn(last, suffix);
    forall l | l in Split(text) ensures !EndsWith(l, CR) {
      assert l == last + suffix || l == prefix + split[0] || l in split;
    }
    EndOf(prefix, newText, suffix);
  }

  /** What replacing a range of lines does to the joined text. */
  lemma JoinAround(head: seq<Bytes>, mid: seq<Bytes>, tail: seq<Bytes>)
    requires mid != []
    ensures Join(head + mid + tail, [LF]) == Terminated(head, [LF]) + Join(mid, [LF]) + Tail(tail, [LF])
  {
    RenderParts(head, mid, tail, [LF], false);
    assert Join(head + mid + tail, [LF]) == Render(head + mid + tail, [LF], false);
    assert Tail(tail, [LF]) + [] == Tail(tail, [LF]);
  }

  lemma JoinStarts(lines: seq<Bytes>, start: nat)
    requires lines != [] && start <= |lines[0]|
    ensures start <= |Join(lines, [LF])| && Join(lines, [LF])[..start] == lines[0][..start]
  {
  }

  lemma JoinFinishes(lines: seq<Bytes>, end: nat) returns (j: nat)
    requires lines != [] && end <= |lines[|lines| - 1]|
    ensures j == |Join(lines, [LF])| - |lines[|lines| - 1]| + end <= |Join(lines, [LF])|
    ensures Join(lines, [LF])[j..] == lines[|lines| - 1][end..]
  {
    j := |Join(lines, [LF])| - |lines[|lines| - 1]| + end;
  }

  lemma ReplaceInside(text: Bytes, head: Bytes, mid: Bytes, tail: Bytes, start: nat, end: nat, with: Bytes, out: Bytes,
                      from: nat, to: nat)
    requires from == |head| + start && to == |head| + end
    requires text == head + mid + tail && start <= end <= |mid|
    requires out == head + (mid[..start] + with + mid[end..]) + tail
    ensures from <= to <= |text| && out == ReplaceRange(text, from, to, with)
  {
  }

  /** What the edited lines around the edit must satisfy for later, earlier-placed edits. */
  ghost predicate KeepsBefore(lines: seq<Bytes>, out: seq<Bytes>, line: int, prefix: Bytes) {
    && 1 <= line <= |lines| && line <= |out|
    && out[..line - 1] == lines[..line - 1]
    && prefix <= out[line - 1]
  }

  /** The byte offsets of an edit on its lines. */
  lemma EditOffsets(lines: seq<Bytes>, e: PositionedEdit) returns (start: nat, end: nat)
    requires OnLines(lines, e)
    ensures start == ByteOffset(lines, e.startLine, e.startColumn) <= |lines[e.startLine - 1]|
    ensures end == ByteOffset(lines, e.endLine, e.endColumn) <= |lines[e.endLine - 1]|
    ensures e.startLine == e.endLine ==> start <= end
    ensures Offset(lines, e.startLine, e.startColumn) == LineStart(lines, [LF], e.startLine) + start
    ensures Offset(lines, e.endLine, e.endColumn) == LineStart(lines, [LF], e.endLine) + end
  {
    start, end := ByteOffset(lines, e.startLine, e.startColumn), ByteOffset(lines, e.endLine, e.endColumn);
    if e.startLine == e.endLine {
      OffsetMonotone(Chars(lines[e.startLine - 1]), e.startColumn, e.endColumn);
    }
  }

  lemma EditedLines(lines: seq<Bytes>, e: PositionedEdit, start: nat, end: nat)
    requires 1 <= e.startLine <= e.endLine <= |lines|
    requires start == ByteOffset(lines, e.startLine, e.startColumn) <= |lines[e.startLine - 1]|
    requires end == ByteOffset(lines, e.endLine, e.endColumn) <= |lines[e.endLine - 1]|
    ensures ApplyPositionedEdit(lines, e) == Some(Edited(lines, e.startLine, e.endLine, start, end, e.newText))
  {
  }

  /** The lines an edit spans, joined: what is left of them is the first line's start and the last
      line's end. */
  lemma MiddleCut(mid: seq<Bytes>, start: nat, end: nat) returns (j: nat)
    requires mid != [] && start <= |mid[0]| && end <= |mid[|mid| - 1]|
    requires |mid| == 1 ==> start <= end
    ensures j == |Join(mid, [LF])| - |mid[|mid| - 1]| + end
    ensures start <= j <= |Join(mid, [LF])|
    ensures Join(mid, [LF])[..start] == mid[0][..start] && Join(mid, [LF])[j..] == mid[|mid| - 1][end..]
  {
    JoinStarts(mid, start);
    j := JoinFinishes(mid, end);
    if |mid| > 1 {
      FirstLineIsInside(mid);
    } else {
      assert mid == [mid[0]];
      JoinOne(mid[0], [LF]);
    }
  }

  lemma FirstLineIsInside(lines: seq<Bytes>)
    requires |lines| > 1
    ensures |lines[0]| + |lines[|lines| - 1]| <= |Join(lines, [LF])|
  {
  }

  lemma EndOf(prefix: Bytes, newText: Bytes, suffix: Bytes)
    requires LF !in prefix && LF !in suffix && !EndsWith(newText, LF)
    ensures !EndsWith(prefix + newText + suffix, LF)
  {
  }

  lemma ReplacedLines(prefix: Bytes, newText: Bytes, suffix: Bytes)
    requires Tidy(prefix) && Tidy(suffix) && Insertable(newText)
    ensures var code := SplitLines(prefix + newText + suffix);
      TidyText(code) && Join(code, [LF]) == prefix + newText + suffix && prefix <= code[0]
  {
    var text := prefix + newText + suffix;
    SplitAround(prefix, newText, suffix, text);
    SurvivesSplittingIff(text);
    NothingStrippedIff(Split(text));
  }

  /** out, joined, is lines joined with one range replaced. */
  ghost predicate Replaced(lines: seq<Bytes>, out: seq<Bytes>, from: int, to: int, newText: Bytes) {
    && 0 <= from <= to <= |Join(lines, [LF])|
    && Join(out, [LF]) == ReplaceRange(Join(lines, [LF]), from, to, newText)
  }

  lemma EditShape(lines: seq<Bytes>, s: nat, t: nat, prefix: Bytes, code: seq<Bytes>)
    requires TidyText(lines) && 1 <= s <= t <= |lines| && TidyText(code) && prefix <= code[0]
    ensures var out := lines[..s - 1] + code + lines[t..];
      TidyText(out) && KeepsBefore(lines, out, s, prefix)
  {
  }

  lemma EditJoined(lines: seq<Bytes>, s: nat, t: nat, start: nat, end: nat, newText: Bytes, code: seq<Bytes>,
                   out: seq<Bytes>, from: nat, to: nat)
    requires 1 <= s <= t <= |lines|
    requires start <= |lines[s - 1]| && end <= |lines[t - 1]| && (s == t ==> start <= end)
    requires code != [] && Join(code, [LF]) == TextBetween(lines, s, t, start, end, newText)
    requires out == lines[..s - 1] + code + lines[t..]
    requires from == LineStart(lines, [LF], s) + start && to == LineStart(lines, [LF], t) + end
    ensures Replaced(lines, out, from, to, newText)
  {
    var h, m, r, j := Parts(lines, s, t, start, end);
    JoinAround(lines[..s - 1], code, lines[t..]);
    ReplaceInside(Join(lines, [LF]), h, m, r, start, j, newText, Join(out, [LF]), from, to);
  }

  /** An edit at byte offsets, on any tidy text. */
  lemma EditAt(lines: seq<Bytes>, s: nat, t: nat, start: nat, end: nat, newText: Bytes, out: seq<Bytes>, from: nat,
               to: nat)
    requires TidyText(lines) && 1 <= s <= t <= |lines|
    requires start <= |lines[s - 1]| && end <= |lines[t - 1]| && (s == t ==> start <= end)
    requires Insertable(newText) && !EndsWith(lines[s - 1][..start], CR)
    requires out == Edited(lines, s, t, start, end, newText)
    requires from == LineStart(lines, [LF], s) + start && to == LineStart(lines, [LF], t) + end
    ensures TidyText(out) && KeepsBefore(lines, out, s, lines[s - 1][..start])
    ensures Replaced(lines, out, from, to, newText)
  {
    var prefix, suffix := lines[s - 1][..start], lines[t - 1][end..];
    assert lines[s - 1] in lines && lines[t - 1] in lines;
    PartsAreTidy(lines[s - 1], start);
    PartsAreTidy(lines[t - 1], end);
    ReplacedLines(prefix, newText, suffix);
    var code := SplitLines(prefix + newText + suffix);
    EditShape(lines, s, t, prefix, code);
    EditJoined(lines, s, t, start, end, newText, code, out, from, to);
  }

  lemma PartsAreTidy(line: Bytes, i: nat)
    requires Tidy(line) && i <= |line|
    ensures Tidy(line[i..]) && LF !in line[..i]
  {
  }

  /** An edit, on any tidy text: the joined result is the joined text with that range replaced. */
  lemma OneEdit(lines: seq<Bytes>, e: PositionedEdit) returns (out: seq<Bytes>, from: nat, to: nat)
    requires TidyText(lines) && ValidEdit(lines, e)
    ensures ApplyPositionedEdit(lines, e) == Some(out) && TidyText(out)
    ensures from == Offset(lines, e.startLine, e.startColumn) && to == Offset(lines, e.endLine, e.endColumn)
    ensures Replaced(lines, out, from, to, e.newText)
    ensures KeepsBefore(lines, out, e.startLine, Before(lines, e.startLine, e.startColumn))
  {
    var start, end := EditOffsets(lines, e);
    var s, t := e.startLine, e.endLine;
    from, to := Offset(lines, s, e.startColumn), Offset(lines, t, e.endColumn);
    out := Edited(lines, s, t, start, end, e.newText);
    EditedLines(lines, e, start, end);
    EditAt(lines, s, t, start, end, e.newText, out, from, to);
  }

  function ReplacedText(lines: seq<Bytes>, e: PositionedEdit): Bytes
    requires OnLines(lines, e)
  {
    TextBetween(lines, e.startLine, e.endLine, ByteOffset(lines, e.startLine, e.startColumn),
                ByteOffset(lines, e.endLine, e.endColumn), e.newText)
  }

  /** The lines s to t, whatever they hold, with others in their place. */
  lemma LinesReplaced(lines: seq<Bytes>, s: nat, t: nat, code: seq<Bytes>, out: seq<Bytes>)
    requires 1 <= s <= t <= |lines| && code != [] && out == lines[..s - 1] + code + lines[t..]
    ensures Replaced(lines, out, LineStart(lines, [LF], s), LineEnd(lines, [LF], t), Join(code, [LF]))
  {
    assert lines[s - 1][..0] + Join(code, [LF]) + lines[t - 1][|lines[t - 1]|..] == Join(code, [LF]);
    EditJoined(lines, s, t, 0, |lines[t - 1]|, Join(code, [LF]), code, out, LineStart(lines, [LF], s),
      LineEnd(lines, [LF], t));
  }

  /** What one edit does, on any lines and with any text: the lines it spans become the replaced text as
      splitting leaves it, which JoinOfSplit tells. */
  lemma OneEditKeeps(lines: seq<Bytes>, e: PositionedEdit, text: Bytes) returns (out: seq<Bytes>, kept: Bytes)
    requires OnLines(lines, e) && text == ReplacedText(lines, e)
    ensures ApplyPositionedEdit(lines, e) == Some(out) && kept == Join(SplitLines(text), [LF])
    ensures Replaced(lines, out, LineStart(lines, [LF], e.startLine), LineEnd(lines, [LF], e.endLine), kept)
  {
    var start, end := EditOffsets(lines, e);
    EditedLines(lines, e, start, end);
    out, kept := Edited(lines, e.startLine, e.endLine, start, end, e.newText), Join(SplitLines(text), [LF]);
    LinesReplaced(lines, e.startLine, e.endLine, SplitLines(text), out);
  }

  /** The joined text around lines s to t, and where the range from start of s to end of t is in it. */
  lemma Parts(lines: seq<Bytes>, s: nat, t: nat, start: nat, end: nat) returns (h: Bytes, m: Bytes, r: Bytes, j: nat)
    requires 1 <= s <= t <= |lines|
    requires start <= |lines[s - 1]| && end <= |lines[t - 1]| && (s == t ==> start <= end)
    ensures Join(lines, [LF]) == h + m + r && start <= j <= |m|
    ensures h == Terminated(lines[..s - 1], [LF]) && r == Tail(lines[t..], [LF])
    ensures LineStart(lines, [LF], s) == |h| && LineEnd(lines, [LF], t) == |h| + |m|
              && LineStart(lines, [LF], t) + end == |h| + j
    ensures m[..start] == lines[s - 1][..start] && m[j..] == lines[t - 1][end..]
  {
    var head, mid, tail := lines[..s - 1], lines[s - 1..t], lines[t..];
    h, m, r := Terminated(head, [LF]), Join(mid, [LF]), Tail(tail, [LF]);
    assert mid[0] == lines[s - 1] && mid[|mid| - 1] == lines[t - 1];
    j := MiddleCut(mid, start, end);
    MiddleLength(lines, [LF], s, t);
    ThreeParts(lines, s - 1, t, head, mid, tail);
    JoinAround(head, mid, tail);
  }

  /** A text with a range of it replaced, and with whole lines around that range replaced by with. */
  lemma SameReplacement(lines: seq<Bytes>, s: nat, t: nat, start: nat, end: nat, newText: Bytes, out: seq<Bytes>,
                        with: Bytes, from: nat, to: nat, text: Bytes)
    requires 1 <= s <= t <= |lines|
    requires start <= |lines[s - 1]| && end <= |lines[t - 1]| && (s == t ==> start <= end)
    requires text == TextBetween(lines, s, t, start, end, newText)
    requires Replaced(lines, out, LineStart(lines, [LF], s), LineEnd(lines, [LF], t), with)
    requires from == LineStart(lines, [LF], s) + start && to == LineStart(lines, [LF], t) + end
    ensures Replaced(lines, out, from, to, newText) <==> with == text
  {
    var h, m, r, j := Parts(lines, s, t, start, end);
    Between(h, m, r, Join(lines, [LF]), start, j, newText, with, |h|, |h| + |m|, from, to, Join(out, [LF]));
  }

  lemma Between(h: Bytes, m: Bytes, r: Bytes, text: Bytes, start: nat, end: nat, newText: Bytes, with: Bytes,
                first: nat, last: nat, from: nat, to: nat, out: Bytes)
    requires text == h + m + r && start <= end <= |m|
    requires first == |h| && last == |h| + |m| && from == |h| + start && to == |h| + end
    requires out == ReplaceRange(text, first, last, with)
    ensures from <= to <= |text|
    ensures out == ReplaceRange(text, from, to, newText) <==> with == m[..start] + newText + m[end..]
  {
    var part := h + (m[..start] + newText + m[end..]) + r;
    assert out == h + with + r;
    assert ReplaceRange(text, from, to, newText) == part;
    MiddleDecides(h, with, m[..start] + newText + m[end..], r);
  }

  lemma MiddleDecides(h: Bytes, a: Bytes, b: Bytes, r: Bytes)
    ensures h + a + r == h + b + r <==> a == b
  {
    if h + a + r == h + b + r {
      assert a == (h + a + r)[|h|..|h| + |a|] && b == (h + b + r)[|h|..|h| + |b|];
    }
  }

  /** Exactly when one edit, on any lines and with any text, is the replacement the server asked for: the
      replaced text does not end in a newline, and no line of it in a return. */
  lemma OneEditIsExactIff(lines: seq<Bytes>, e: PositionedEdit, text: Bytes)
    returns (out: seq<Bytes>, from: nat, to: nat)
    requires OnLines(lines, e) && text == ReplacedText(lines, e)
    ensures ApplyPositionedEdit(lines, e) == Some(out)
    ensures from == Offset(lines, e.startLine, e.startColumn) && to == Offset(lines, e.endLine, e.endColumn)
    ensures Replaced(lines, out, from, to, e.newText) <==> SurvivesSplitting(text)
  {
    var start, end := EditOffsets(lines, e);
    EditedLines(lines, e, start, end);
    out := Edited(lines, e.startLine, e.endLine, start, end, e.newText);
    from, to := LineStart(lines, [LF], e.startLine) + start, LineStart(lines, [LF], e.endLine) + end;
    ExactAt(lines, e.startLine, e.endLine, start, end, e.newText, text, out, from, to);
  }

  lemma ExactAt(lines: seq<Bytes>, s: nat, t: nat, start: nat, end: nat, newText: Bytes, text: Bytes, out: seq<Bytes>,
                from: nat, to: nat)
    requires 1 <= s <= t <= |lines|
    requires start <= |lines[s - 1]| && end <= |lines[t - 1]| && (s == t ==> start <= end)
    requires text == TextBetween(lines, s, t, start, end, newText)
    requires out == lines[..s - 1] + SplitLines(text) + lines[t..]
    requires from == LineStart(lines, [LF], s) + start && to == LineStart(lines, [LF], t) + end
    ensures Replaced(lines, out, from, to, newText) <==> SurvivesSplitting(text)
  {
    LinesReplaced(lines, s, t, SplitLines(text), out);
    SameReplacement(lines, s, t, start, end, newText, out, Join(SplitLines(text), [LF]), from, to, text);
    SurvivesSplittingIff(text);
  }

  // ---- Many edits -------------------------------------------------------------------------------------

  /** The edit loop: each edit in turn, on the lines the ones before it left. */
  function ApplyEdits(lines: seq<Bytes>, edits: seq<PositionedEdit>): Option<seq<Bytes>> {
    if edits == [] then Some(lines)
    else
      match ApplyEdits(lines, edits[..|edits| - 1])
      case None => None
      case Some(updated) => ApplyPositionedEdit(updated, edits[|edits| - 1])
  }

  /** What stands before a position decides the columns up to it, whatever comes to stand after. */
  ghost predicate Decided(lines: seq<Bytes>, line: int, column: int)
    requires 1 <= line <= |lines|
  {
    !Truncated(Before(lines, line, column))
  }

  /** The column is one of the text before a position on its line, and that text decides it. */
  ghost predicate Inside(lines: seq<Bytes>, line: int, column: int, c: int)
    requires 1 <= line <= |lines|
  {
    Decided(lines, line, column) && c <= Units(Chars(Before(lines, line, column)))
  }

  /** Every column up to a position within its line is. */
  lemma InsideTheLine(lines: seq<Bytes>, line: int, column: int, c: int)
    requires 1 <= line <= |lines| && column <= Units(Chars(lines[line - 1])) && c <= column
    requires Decided(lines, line, column)
    ensures Inside(lines, line, column, c)
  {
    var a, text := Before(lines, line, column), lines[line - 1];
    CharsDecided(a, text[|a|..], text);
    CharsCoverTheLine(a);
    ColumnOfPrefix(Chars(a), Chars(text[|a|..]), column);
  }

  /** Lines edited only from a position on still resolve every position up to it as before. */
  lemma SamePosition(lines: seq<Bytes>, cur: seq<Bytes>, line: int, column: int, l: int, c: int)
    requires 1 <= l <= line <= |lines| && (l == line ==> Inside(lines, line, column, c))
    requires KeepsBefore(lines, cur, line, Before(lines, line, column))
    ensures Offset(cur, l, c) == Offset(lines, l, c)
    ensures Before(cur, l, c) == Before(lines, l, c) && cur[..l - 1] == lines[..l - 1]
  {
    assert cur[..l - 1] == cur[..line - 1][..l - 1] && lines[..l - 1] == lines[..line - 1][..l - 1];
    if l < line {
      assert cur[l - 1] == cur[..line - 1][l - 1] && lines[l - 1] == lines[..line - 1][l - 1];
    } else {
      SameColumn(Before(lines, line, column), lines[l - 1], cur[l - 1], c);
    }
  }

  /** Exactly when a column up to the position resolves on the edited line as before: it is one of the text
      before the position, or the line is as it was. Only a column past the line's end is neither. */
  lemma SameColumnIff(lines: seq<Bytes>, cur: seq<Bytes>, line: int, column: int, c: int)
    requires 1 <= line <= |lines| && c <= column && Decided(lines, line, column)
    requires KeepsBefore(lines, cur, line, Before(lines, line, column))
    ensures Offset(cur, line, c) == Offset(lines, line, c)
       <==> Inside(lines, line, column, c) || cur[line - 1] == lines[line - 1]
  {
    var a, was, now := Before(lines, line, column), lines[line - 1], cur[line - 1];
    if c <= Units(Chars(a)) {
      SamePosition(lines, cur, line, column, line, c);
    } else {
      assert was == a + was[|a|..] && now == a + now[|a|..];
      PastPrefixIff(a, was[|a|..], column);
      PastPrefixIff(a, now[|a|..], c);
      PastPrefixIff(a, [], c);
      assert was == a && a + [] == a;
    }
  }

  /** How that goes wrong: an x inserted past the end of ab, and then the b deleted by an edit that ends
      past it too, takes the x away. */
  lemma EndsPastTheLine()
    ensures ApplyEdits([[97, 98]], [PositionedEdit(1, 9, 1, 9, [120]), PositionedEdit(1, 1, 1, 3, [])]) == Some([[97]])
  {
    var e, f := PositionedEdit(1, 9, 1, 9, [120]), PositionedEdit(1, 1, 1, 3, []);
    AsciiOffset([97, 98], 9);
    AsciiOffset([97, 98, 120], 1);
    AsciiOffset([97, 98, 120], 3);
    OneLineEdited([97, 98], e, 2, 2, [97, 98, 120]);
    OneLineEdited([97, 98, 120], f, 1, 3, [97]);
    EditApplied([[97, 98]], [], e, [[97, 98]]);
    EditApplied([[97, 98]], [e], f, [[97, 98, 120]]);
    assert [] + [e] == [e] && [e] + [f] == [e, f];
  }

  lemma EditApplied(lines: seq<Bytes>, init: seq<PositionedEdit>, e: PositionedEdit, mid: seq<Bytes>)
    requires ApplyEdits(lines, init) == Some(mid)
    ensures ApplyEdits(lines, init + [e]) == ApplyPositionedEdit(mid, e)
  {
    assert (init + [e])[..|init|] == init;
  }

  lemma OneLineEdited(line: Bytes, e: PositionedEdit, start: nat, end: nat, result: Bytes)
    requires e.startLine == e.endLine == 1 && start <= |line| && end <= |line|
    requires start == OffsetOf(Chars(line), e.startColumn) && end == OffsetOf(Chars(line), e.endColumn)
    requires result == line[..start] + e.newText + line[end..] && result != [] && LF !in result && CR !in result
    ensures ApplyPositionedEdit([line], e) == Some([result])
  {
    EditedOneLine(line, start, end, e.newText, result);
    EditedLines([line], e, start, end);
  }

  lemma EditedOneLine(line: Bytes, start: nat, end: nat, newText: Bytes, result: Bytes)
    requires start <= |line| && end <= |line|
    requires result == line[..start] + newText + line[end..] && result != [] && LF !in result && CR !in result
    ensures Edited([line], 1, 1, start, end, newText) == [result]
  {
    RenderOne(result, [LF], false);
    SplitOfFile([result], [LF], false);
    assert result + [] == result;
    assert [line][..0] + [result] + [line][1..] == [result];
  }

  lemma SameColumn(a: Bytes, before: Bytes, after: Bytes, c: int)
    requires a <= before && a <= after && !Truncated(a) && c <= Units(Chars(a))
    ensures c <= Units(Chars(after))
    ensures OffsetOf(Chars(after), c) == OffsetOf(Chars(before), c) <= |a|
    ensures after[..OffsetOf(Chars(before), c)] == before[..OffsetOf(Chars(before), c)]
  {
    ColumnInPrefix(a, before, c);
    ColumnInPrefix(a, after, c);
    SameBeginning(a, before, after, OffsetOf(Chars(a), c));
  }

  lemma ColumnInPrefix(a: Bytes, line: Bytes, c: int)
    requires a <= line && !Truncated(a) && c <= Units(Chars(a))
    ensures c <= Units(Chars(line)) && OffsetOf(Chars(line), c) == OffsetOf(Chars(a), c) <= |a|
  {
    assert line == a + line[|a|..];
    PrefixDecides(a, line[|a|..], c);
    OffsetWithin(a, c);
  }

  lemma SameBeginning(a: Bytes, before: Bytes, after: Bytes, k: nat)
    requires a <= before && a <= after && k <= |a|
    ensures after[..k] == before[..k]
  {
  }

  lemma PositionsAreOrdered(lines: seq<Bytes>, l: int, c: int, line: int, column: int)
    requires 1 <= l <= |lines| && 1 <= line <= |lines| && NotAfter(l, c, line, column)
    ensures Offset(lines, l, c) <= Offset(lines, line, column)
  {
    OffsetWithin(lines[l - 1], c);
    if l < line {
      var before, between := lines[..l - 1], lines[l - 1..line - 1];
      assert lines[..line - 1] == before + between;
      TerminatedAppends(before, between, [LF]);
      assert between[0] == lines[l - 1];
    } else {
      OffsetMonotone(Chars(lines[l - 1]), c, column);
    }
  }

  /** e ends before later starts, and, when that is on one line, the text before later decides e's
      columns: valid UTF-8 does, for columns that are not past the line's end. */
  ghost predicate EndsBefore(lines: seq<Bytes>, e: PositionedEdit, later: PositionedEdit)
    requires ValidEdit(lines, e) && ValidEdit(lines, later)
  {
    && NotAfter(e.endLine, e.endColumn, later.startLine, later.startColumn)
    && (e.endLine == later.startLine ==> Inside(lines, later.startLine, later.startColumn, e.endColumn))
  }

  /** Applied in order, each edit ends before the one applied just before it starts. */
  ghost predicate LastToFirst(lines: seq<Bytes>, edits: seq<PositionedEdit>) {
    && (forall e :: e in edits ==> ValidEdit(lines, e))
    && (forall k :: 0 < k < |edits| ==>
          EndsBefore(lines, edits[k], edits[k - 1]) && Start(lines, edits[k]) < Start(lines, edits[k - 1]))
  }

  function Start(lines: seq<Bytes>, e: PositionedEdit): nat
    requires ValidEdit(lines, e)
  {
    Offset(lines, e.startLine, e.startColumn)
  }

  function End(lines: seq<Bytes>, e: PositionedEdit): nat
    requires ValidEdit(lines, e)
  {
    Offset(lines, e.endLine, e.endColumn)
  }

  /** The edits as ranges of the joined text. */
  function RangesOf(lines: seq<Bytes>, edits: seq<PositionedEdit>): Ranges
    requires forall e :: e in edits ==> ValidEdit(lines, e)
  {
    if edits == [] then map[]
    else
      var last := edits[|edits| - 1];
      RangesOf(lines, edits[..|edits| - 1])[Start(lines, last) := (End(lines, last), last.newText)]
  }

  lemma {:induction false} RangesStartLater(lines: seq<Bytes>, edits: seq<PositionedEdit>)
    requires LastToFirst(lines, edits) && edits != []
    ensures forall s :: s in RangesOf(lines, edits) ==> s >= Start(lines, edits[|edits| - 1])
  {
    if |edits| > 1 {
      RangesStartLater(lines, edits[..|edits| - 1]);
    }
  }

  /** The edit loop so far: the text before the last edit's start is as it was, the rest is the
      simultaneous substitution of the edits so far. */
  ghost predicate EditedFrom(lines: seq<Bytes>, last: PositionedEdit, ranges: Ranges, cur: seq<Bytes>, from: nat)
    requires ValidEdit(lines, last)
  {
    var text := Join(lines, [LF]);
    && TidyText(cur) && from == Start(lines, last) <= |text|
    && KeepsBefore(lines, cur, last.startLine, Before(lines, last.startLine, last.startColumn))
    && Join(cur, [LF]) == text[..from] + Substitute(text, ranges, from)
  }

  lemma FirstEdit(lines: seq<Bytes>, e: PositionedEdit) returns (cur: seq<Bytes>, from: nat)
    requires TidyText(lines) && ValidEdit(lines, e)
    ensures ApplyPositionedEdit(lines, e) == Some(cur)
    ensures EditedFrom(lines, e, map[][Start(lines, e) := (End(lines, e), e.newText)], cur, from)
  {
    var text := Join(lines, [LF]);
    var to;
    cur, from, to := OneEdit(lines, e);
    NothingReplaced(text);
    OneMoreRange(text, map[], |text|, from, to, e.newText, text);
  }

  /** One more edit resolves its columns on the edited lines as it would have on the original ones. */
  lemma NextEditResolves(lines: seq<Bytes>, later: PositionedEdit, e: PositionedEdit, prev: seq<Bytes>)
    requires TidyText(lines) && ValidEdit(lines, later) && ValidEdit(lines, e) && EndsBefore(lines, e, later)
    requires KeepsBefore(lines, prev, later.startLine, Before(lines, later.startLine, later.startColumn))
    ensures ValidEdit(prev, e)
    ensures Start(prev, e) == Start(lines, e) <= End(prev, e) == End(lines, e) <= Start(lines, later)
    ensures Before(prev, e.startLine, e.startColumn) == Before(lines, e.startLine, e.startColumn)
    ensures prev[..e.startLine - 1] == lines[..e.startLine - 1]
  {
    SamePosition(lines, prev, later.startLine, later.startColumn, e.endLine, e.endColumn);
    SamePosition(lines, prev, later.startLine, later.startColumn, e.startLine, e.startColumn);
    PositionsAreOrdered(lines, e.endLine, e.endColumn, later.startLine, later.startColumn);
    PositionsAreOrdered(lines, e.startLine, e.startColumn, e.endLine, e.endColumn);
  }

  /** One more edit, on lines edited from a later one's start on. */
  lemma NextEdit(lines: seq<Bytes>, later: PositionedEdit, e: PositionedEdit, ranges: Ranges, prev: seq<Bytes>,
                 next: nat)
    returns (cur: seq<Bytes>, from: nat)
    requires TidyText(lines) && ValidEdit(lines, later) && ValidEdit(lines, e) && EndsBefore(lines, e, later)
    requires EditedFrom(lines, later, ranges, prev, next)
    requires Start(lines, e) < next && forall s :: s in ranges ==> s >= next
    ensures ApplyPositionedEdit(prev, e) == Some(cur)
    ensures EditedFrom(lines, e, ranges[Start(lines, e) := (End(lines, e), e.newText)], cur, from)
  {
    NextEditResolves(lines, later, e, prev);
    var to;
    cur, from, to := OneEdit(prev, e);
    StillBefore(lines, prev, cur, e);
    OneMoreRange(Join(lines, [LF]), ranges, next, from, to, e.newText, Join(prev, [LF]));
  }

  lemma StillBefore(lines: seq<Bytes>, prev: seq<Bytes>, cur: seq<Bytes>, e: PositionedEdit)
    requires ValidEdit(lines, e) && ValidEdit(prev, e)
    requires Before(prev, e.startLine, e.startColumn) == Before(lines, e.startLine, e.startColumn)
    requires prev[..e.startLine - 1] == lines[..e.startLine - 1]
    requires KeepsBefore(prev, cur, e.startLine, Before(prev, e.startLine, e.startColumn))
    ensures KeepsBefore(lines, cur, e.startLine, Before(lines, e.startLine, e.startColumn))
  {
  }

  lemma LastTwo(lines: seq<Bytes>, edits: seq<PositionedEdit>, n: nat)
    requires LastToFirst(lines, edits) && n == |edits| - 1
    ensures LastToFirst(lines, edits[..n]) && ValidEdit(lines, edits[n])
    ensures n > 0 ==>
              && ValidEdit(lines, edits[n - 1]) && Start(lines, edits[n]) < Start(lines, edits[n - 1])
              && EndsBefore(lines, edits[n], edits[n - 1])
  {
  }

  lemma {:induction false} EditsSoFar(lines: seq<Bytes>, edits: seq<PositionedEdit>, n: nat)
    returns (cur: seq<Bytes>, from: nat)
    requires TidyText(lines) && LastToFirst(lines, edits) && n == |edits| - 1
    ensures edits[n] in edits
    ensures ApplyEdits(lines, edits) == Some(cur) && EditedFrom(lines, edits[n], RangesOf(lines, edits), cur, from)
  {
    LastTwo(lines, edits, n);
    var init, e := edits[..n], edits[n];
    if n == 0 {
      assert init == [];
      cur, from := FirstEdit(lines, e);
    } else {
      var prev, next := EditsSoFar(lines, init, n - 1);
      assert init[n - 1] == edits[n - 1];
      RangesStartLater(lines, init);
      cur, from := NextEdit(lines, edits[n - 1], e, RangesOf(lines, init), prev, next);
    }
  }

  /** The edit loop's result is the text with these ranges replaced at once. */
  ghost predicate Substituted(lines: seq<Bytes>, result: Option<seq<Bytes>>, ranges: Ranges) {
    result.Some? && Join(result.value, [LF]) == Substitute(Join(lines, [LF]), ranges, 0)
  }

  /** Applied from the end, one by one, columns re-resolved on the edited lines each time: the joined
      result is the joined text with every range replaced at once. */
  lemma EditsSubstitute(lines: seq<Bytes>, edits: seq<PositionedEdit>)
    requires TidyText(lines) && LastToFirst(lines, edits)
    ensures Substituted(lines, ApplyEdits(lines, edits), RangesOf(lines, edits))
  {
    if edits == [] {
      NoRanges(Join(lines, [LF]));
    } else {
      SomeEdits(lines, edits, edits[|edits| - 1]);
    }
  }

  lemma SomeEdits(lines: seq<Bytes>, edits: seq<PositionedEdit>, last: PositionedEdit)
    requires TidyText(lines) && LastToFirst(lines, edits) && edits != [] && last == edits[|edits| - 1]
    ensures Substituted(lines, ApplyEdits(lines, edits), RangesOf(lines, edits))
  {
    var cur, from := EditsSoFar(lines, edits, |edits| - 1);
    RangesStartLater(lines, edits);
    AllEdited(lines, last, RangesOf(lines, edits), cur, from, ApplyEdits(lines, edits));
  }

  lemma AllEdited(lines: seq<Bytes>, last: PositionedEdit, ranges: Ranges, cur: seq<Bytes>, from: nat,
                  result: Option<seq<Bytes>>)
    requires ValidEdit(lines, last) && EditedFrom(lines, last, ranges, cur, from) && result == Some(cur)
    requires forall s :: s in ranges ==> s >= Start(lines, last)
    ensures Substituted(lines, result, ranges)
  {
    FromTheStart(Join(lines, [LF]), ranges, from);
  }

  // ---- Any order ----------------------------------------------------------------------------------------

  /** ranges is the edits, whatever order they come in. */
  ghost predicate AreRanges(lines: seq<Bytes>, edits: seq<PositionedEdit>, ranges: Ranges)
    requires forall e :: e in edits ==> ValidEdit(lines, e)
  {
    && (forall e :: e in edits ==> Start(lines, e) in ranges && ranges[Start(lines, e)] == (End(lines, e), e.newText))
    && (forall s :: s in ranges ==> exists e :: e in edits && Start(lines, e) == s)
  }

  /** LSP's demand on the edits of one document, plus that no two start at the same place and that what
      stands between two on one line keeps them apart. */
  ghost predicate DoNotOverlap(lines: seq<Bytes>, edits: seq<PositionedEdit>)
    requires forall e :: e in edits ==> ValidEdit(lines, e)
  {
    && (forall e :: e in edits ==> multiset(edits)[e] == 1)
    && forall e, f :: e in edits && f in edits && e != f ==> Apart(lines, e, f)
  }

  ghost predicate Apart(lines: seq<Bytes>, e: PositionedEdit, f: PositionedEdit)
    requires ValidEdit(lines, e) && ValidEdit(lines, f)
  {
    && Start(lines, e) != Start(lines, f)
    && (EndsBefore(lines, e, f) || EndsBefore(lines, f, e))
  }

  /** What the rename's sort leaves: no edit starts before the next. */
  ghost predicate SortedFromTheEnd(edits: seq<PositionedEdit>) {
    forall i, j :: 0 <= i < j < |edits| ==>
      NotAfter(edits[j].startLine, edits[j].startColumn, edits[i].startLine, edits[i].startColumn)
  }

  /** The rename's sort, by where edits start, the last first. */
  function InsertFromTheEnd(e: PositionedEdit, edits: seq<PositionedEdit>): seq<PositionedEdit> {
    if edits == [] then [e]
    else if NotAfter(edits[0].startLine, edits[0].startColumn, e.startLine, e.startColumn) then [e] + edits
    else [edits[0]] + InsertFromTheEnd(e, edits[1..])
  }

  function SortFromTheEnd(edits: seq<PositionedEdit>): seq<PositionedEdit> {
    if edits == [] then [] else InsertFromTheEnd(edits[0], SortFromTheEnd(edits[1..]))
  }

  lemma SortedCons(e: PositionedEdit, edits: seq<PositionedEdit>)
    requires SortedFromTheEnd(edits)
    requires forall f :: f in edits ==> NotAfter(f.startLine, f.startColumn, e.startLine, e.startColumn)
    ensures SortedFromTheEnd([e] + edits)
  {
    forall k | 0 <= k < |edits| ensures edits[k] in edits {
    }
  }

  lemma HeadIsNotBefore(edits: seq<PositionedEdit>, first: PositionedEdit, tail: seq<PositionedEdit>)
    requires SortedFromTheEnd(edits) && edits == [first] + tail
    ensures SortedFromTheEnd(tail)
    ensures forall f :: f in tail ==> NotAfter(f.startLine, f.startColumn, first.startLine, first.startColumn)
  {
    assert edits[0] == first && forall k :: 0 <= k < |tail| ==> tail[k] == edits[k + 1];
  }

  lemma {:induction false} InsertKeeps(e: PositionedEdit, edits: seq<PositionedEdit>)
    ensures multiset(InsertFromTheEnd(e, edits)) == multiset{e} + multiset(edits)
    ensures forall f :: f in InsertFromTheEnd(e, edits) <==> f == e || f in edits
  {
    if edits != [] {
      assert edits == [edits[0]] + edits[1..];
      InsertKeeps(e, edits[1..]);
    }
  }

  lemma {:induction false} InsertSorts(e: PositionedEdit, edits: seq<PositionedEdit>)
    requires SortedFromTheEnd(edits)
    ensures SortedFromTheEnd(InsertFromTheEnd(e, edits))
  {
    if edits != [] {
      var first, tail := edits[0], edits[1..];
      assert edits == [first] + tail;
      HeadIsNotBefore(edits, first, tail);
      if NotAfter(first.startLine, first.startColumn, e.startLine, e.startColumn) {
        SortedCons(e, edits);
      } else {
        InsertSorts(e, tail);
        InsertKeeps(e, tail);
        SortedCons(first, InsertFromTheEnd(e, tail));
      }
    }
  }

  /** Every list of edits can be sorted so. */
  lemma {:induction false} SortSorts(edits: seq<PositionedEdit>)
    ensures SortedFromTheEnd(SortFromTheEnd(edits)) && multiset(SortFromTheEnd(edits)) == multiset(edits)
  {
    if edits != [] {
      assert edits == [edits[0]] + edits[1..];
      SortSorts(edits[1..]);
      InsertKeeps(edits[0], SortFromTheEnd(edits[1..]));
      InsertSorts(edits[0], SortFromTheEnd(edits[1..]));
    }
  }

  lemma OnceEach<T>(s: seq<T>, i: nat, j: nat)
    requires i < j < |s| && multiset(s)[s[i]] == 1
    ensures s[i] != s[j]
  {
    assert s == s[..j] + s[j..];
    assert s[i] in s[..j] && s[j] in s[j..];
  }

  /** Of two edits that do not overlap, the one that starts no later ends before the other starts. */
  lemma StartsFirst(lines: seq<Bytes>, e: PositionedEdit, later: PositionedEdit)
    requires ValidEdit(lines, e) && ValidEdit(lines, later) && Apart(lines, e, later)
    requires NotAfter(e.startLine, e.startColumn, later.startLine, later.startColumn)
    ensures EndsBefore(lines, e, later) && Start(lines, e) < Start(lines, later)
  {
    PositionsAreOrdered(lines, e.startLine, e.startColumn, later.startLine, later.startColumn);
    if EndsBefore(lines, later, e) {
      PositionsAreOrdered(lines, later.startLine, later.startColumn, e.startLine, e.startColumn);
    }
  }

  /** Sorted edits that do not overlap are applied last to first. */
  lemma SortedIsLastToFirst(lines: seq<Bytes>, edits: seq<PositionedEdit>)
    requires forall e :: e in edits ==> ValidEdit(lines, e)
    requires DoNotOverlap(lines, edits) && SortedFromTheEnd(edits)
    ensures LastToFirst(lines, edits)
  {
    forall k | 0 < k < |edits|
      ensures EndsBefore(lines, edits[k], edits[k - 1]) && Start(lines, edits[k]) < Start(lines, edits[k - 1])
    {
      OnceEach(edits, k - 1, k);
      StartsFirst(lines, edits[k], edits[k - 1]);
    }
  }

  lemma {:induction false} RangesOfAre(lines: seq<Bytes>, edits: seq<PositionedEdit>)
    requires LastToFirst(lines, edits)
    ensures AreRanges(lines, edits, RangesOf(lines, edits))
  {
    if edits != [] {
      var init, last := edits[..|edits| - 1], edits[|edits| - 1];
      assert edits == init + [last];
      RangesOfAre(lines, init);
      if init != [] {
        RangesStartLater(lines, init);
        assert Start(lines, last) < Start(lines, init[|init| - 1]);
      }
      OneMoreIsRange(lines, init, last, RangesOf(lines, init));
    }
  }

  lemma OneMoreIsRange(lines: seq<Bytes>, init: seq<PositionedEdit>, last: PositionedEdit, ranges: Ranges)
    requires ValidEdit(lines, last) && forall e :: e in init ==> ValidEdit(lines, e)
    requires AreRanges(lines, init, ranges) && Start(lines, last) !in ranges
    ensures AreRanges(lines, init + [last], ranges[Start(lines, last) := (End(lines, last), last.newText)])
  {
    var edits, more := init + [last], ranges[Start(lines, last) := (End(lines, last), last.newText)];
    forall e | e in edits
      ensures ValidEdit(lines, e) && Start(lines, e) in more && more[Start(lines, e)] == (End(lines, e), e.newText)
    {
      if e in init {
        assert Start(lines, e) in ranges;
      }
    }
    forall s | s in more ensures exists e :: e in edits && Start(lines, e) == s {
      if s == Start(lines, last) {
        assert last in edits;
      } else {
        var e :| e in init && Start(lines, e) == s;
        assert e in edits;
      }
    }
  }

  lemma RangesInclude(lines: seq<Bytes>, a: seq<PositionedEdit>, b: seq<PositionedEdit>, ranges: Ranges, same: Ranges)
    requires (forall e :: e in a ==> e in b) && forall e :: e in b ==> ValidEdit(lines, e)
    requires AreRanges(lines, a, ranges) && AreRanges(lines, b, same)
    ensures forall s :: s in ranges ==> s in same && same[s] == ranges[s]
  {
  }

  lemma SameMap(a: Ranges, b: Ranges)
    requires forall s :: s in a ==> s in b && b[s] == a[s]
    requires forall s :: s in b ==> s in a
    ensures a == b
  {
  }

  /** The ranges are determined by which edits there are. */
  lemma RangesIgnoreOrder(lines: seq<Bytes>, a: seq<PositionedEdit>, b: seq<PositionedEdit>, ranges: Ranges,
                          same: Ranges)
    requires (forall e :: e in a <==> e in b) && forall e :: e in a ==> ValidEdit(lines, e)
    requires AreRanges(lines, a, ranges) && AreRanges(lines, b, same)
    ensures ranges == same
  {
    RangesInclude(lines, a, b, ranges, same);
    RangesInclude(lines, b, a, same, ranges);
    SameMap(ranges, same);
  }

  lemma OverlapIgnoresOrder(lines: seq<Bytes>, a: seq<PositionedEdit>, b: seq<PositionedEdit>)
    requires multiset(a) == multiset(b) && forall e :: e in a ==> ValidEdit(lines, e)
    requires DoNotOverlap(lines, a)
    ensures forall e :: e in a <==> e in b
    ensures DoNotOverlap(lines, b)
  {
  }

  /** The order the server gave its edits in does not matter: whatever sorting leaves, applying it is
      replacing all of the edits' ranges at once. */
  lemma RenameSubstitutes(lines: seq<Bytes>, edits: seq<PositionedEdit>, sorted: seq<PositionedEdit>, ranges: Ranges)
    requires TidyText(lines)
    requires forall e :: e in edits ==> ValidEdit(lines, e)
    requires DoNotOverlap(lines, edits) && AreRanges(lines, edits, ranges)
    requires multiset(sorted) == multiset(edits) && SortedFromTheEnd(sorted)
    ensures ApplyEdits(lines, sorted).Some?
    ensures Join(ApplyEdits(lines, sorted).value, [LF]) == Substitute(Join(lines, [LF]), ranges, 0)
  {
    OverlapIgnoresOrder(lines, edits, sorted);
    SortedIsLastToFirst(lines, sorted);
    EditsSubstitute(lines, sorted);
    RangesOfAre(lines, sorted);
    RangesIgnoreOrder(lines, edits, sorted, ranges, RangesOf(lines, sorted));
  }

  // ---- Whole files --------------------------------------------------------------------------------------

  /** The bytes a rename writes for a file's edited lines. */
  function WrittenBack(lines: seq<Bytes>): Bytes {
    Join(lines, [LF]) + [LF]
  }

  /** What writing back leaves as it is: plain newlines, one at the end, and no line with a return left
      at its end. */
  predicate PlainLines(source: Bytes) {
    EndsWith(source, LF) && NoneEndsInReturn(Split(TrimSuffix(source, LF)))
  }

  /** Exactly when writing lines back unedited leaves the file as it was. */
  lemma UneditedIsUnchangedIff(source: Bytes)
    ensures WrittenBack(SplitLines(source)) == source <==> PlainLines(source)
  {
    JoinOfSplit(source);
    var joined := Join(SplitLines(source), [LF]);
    if EndsWith(source, LF) {
      assert source == TrimSuffix(source, LF) + [LF];
      assert joined + [LF] == source ==> (joined + [LF])[..|joined|] == TrimSuffix(source, LF);
    }
  }

  lemma {:induction false} RangesFit(lines: seq<Bytes>, edits: seq<PositionedEdit>)
    requires TidyText(lines) && LastToFirst(lines, edits)
    ensures Fits(RangesOf(lines, edits), |Join(lines, [LF])|)
  {
    if edits != [] {
      LastTwo(lines, edits, |edits| - 1);
      var init, last := edits[..|edits| - 1], edits[|edits| - 1];
      RangesFit(lines, init);
      EditFits(lines, last);
      if init != [] {
        RangesStartLater(lines, init);
        EndsBeforeNext(lines, edits);
      }
      OneMoreFits(RangesOf(lines, init), |Join(lines, [LF])|, Start(lines, last), End(lines, last), last.newText);
    }
  }

  lemma EditFits(lines: seq<Bytes>, e: PositionedEdit)
    requires ValidEdit(lines, e)
    ensures Start(lines, e) <= End(lines, e) <= |Join(lines, [LF])|
  {
    PositionsAreOrdered(lines, e.startLine, e.startColumn, e.endLine, e.endColumn);
    OffsetFits(lines, e.endLine, e.endColumn);
  }

  lemma OffsetFits(lines: seq<Bytes>, line: int, column: int)
    requires 1 <= line <= |lines|
    ensures Offset(lines, line, column) <= |Join(lines, [LF])|
  {
    OffsetWithin(lines[line - 1], column);
    var upTo, rest := lines[..line], lines[line..];
    assert lines == upTo + rest && upTo[..line - 1] == lines[..line - 1];
    JoinTail(upTo, rest, [LF]);
  }

  lemma EndsBeforeNext(lines: seq<Bytes>, edits: seq<PositionedEdit>)
    requires LastToFirst(lines, edits) && |edits| > 1
    ensures End(lines, edits[|edits| - 1]) <= Start(lines, edits[|edits| - 2])
  {
    var last, later := edits[|edits| - 1], edits[|edits| - 2];
    assert later in edits && last in edits;
    PositionsAreOrdered(lines, last.endLine, last.endColumn, later.startLine, later.startColumn);
  }

  lemma OneMoreFits(ranges: Ranges, length: nat, from: nat, to: nat, newText: Bytes)
    requires Fits(ranges, length) && from <= to <= length
    requires forall s :: s in ranges ==> s > from && s >= to
    ensures Fits(ranges[from := (to, newText)], length)
  {
  }

  /** What a rename writes for a file: its text with plain newlines, a final one included, and every
      edit substituted at once. */
  lemma RenamedFile(source: Bytes, edits: seq<PositionedEdit>, sorted: seq<PositionedEdit>, ranges: Ranges)
    requires TidyText(SplitLines(source))
    requires forall e :: e in edits ==> ValidEdit(SplitLines(source), e)
    requires DoNotOverlap(SplitLines(source), edits) && AreRanges(SplitLines(source), edits, ranges)
    requires multiset(sorted) == multiset(edits) && SortedFromTheEnd(sorted)
    ensures ApplyEdits(SplitLines(source), sorted).Some?
    ensures WrittenBack(ApplyEdits(SplitLines(source), sorted).value)
         == Substitute(WrittenBack(SplitLines(source)), ranges, 0)
    ensures PlainLines(source) ==>
              WrittenBack(ApplyEdits(SplitLines(source), sorted).value) == Substitute(source, ranges, 0)
  {
    var lines := SplitLines(source);
    RenameSubstitutes(lines, edits, sorted, ranges);
    OverlapIgnoresOrder(lines, edits, sorted);
    SortedIsLastToFirst(lines, sorted);
    RangesFit(lines, sorted);
    RangesOfAre(lines, sorted);
    RangesIgnoreOrder(lines, edits, sorted, ranges, RangesOf(lines, sorted));
    TextBehind(Join(lines, [LF]), [LF], WrittenBack(lines), ranges, 0);
    UneditedIsUnchangedIff(source);
  }
}
