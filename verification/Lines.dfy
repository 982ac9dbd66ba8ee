/** Text as lines: splitting and joining, splicing lines into a file without touching the rest of
    it, and counting the lines a replacement changes. */
module Lines {
  import opened Order

  const LF: Byte := 10
  const CR: Byte := 13

  predicate EndsWith(text: Bytes, b: Byte) {
    text != [] && text[|text| - 1] == b
  }

  function TrimSuffix(text: Bytes, b: Byte): Bytes {
    if EndsWith(text, b) then text[..|text| - 1] else text
  }

  /** strings.Split on a newline: never empty. */
  function Split(text: Bytes): (lines: seq<Bytes>)
    ensures lines != []
    ensures forall l :: l in lines ==> LF !in l
  {
    if text == [] then [[]]
    else
      var rest := Split(text[1..]);
      if text[0] == LF then [[]] + rest else [[text[0]] + rest[0]] + rest[1..]
  }

  /** Every line followed by the terminator. */
  function Terminated(lines: seq<Bytes>, terminator: Bytes): Bytes {
    if lines == [] then [] else lines[0] + terminator + Terminated(lines[1..], terminator)
  }

  /** strings.Join: the terminator between lines only. */
  function Join(lines: seq<Bytes>, separator: Bytes): Bytes {
    if lines == [] then [] else Terminated(lines[..|lines| - 1], separator) + lines[|lines| - 1]
  }

  lemma {:induction false} TerminatedAppends(a: seq<Bytes>, b: seq<Bytes>, t: Bytes)
    ensures Terminated(a + b, t) == Terminated(a, t) + Terminated(b, t)
  {
    if a == [] {
      assert a + b == b;
    } else {
      assert (a + b)[0] == a[0] && (a + b)[1..] == a[1..] + b;
      TerminatedAppends(a[1..], b, t);
    }
  }

  lemma InitAndLast<T>(a: seq<T>, b: seq<T>, whole: seq<T>)
    requires b != [] && whole == a + b
    ensures whole[..|whole| - 1] == a + b[..|b| - 1] && whole[|whole| - 1] == b[|b| - 1]
  {
  }

  lemma JoinOf(lines: seq<Bytes>, init: seq<Bytes>, last: Bytes, t: Bytes)
    requires lines != [] && lines[..|lines| - 1] == init && lines[|lines| - 1] == last
    ensures Join(lines, t) == Terminated(init, t) + last
  {
  }

  lemma JoinAppends(a: seq<Bytes>, b: seq<Bytes>, t: Bytes)
    requires b != []
    ensures Join(a + b, t) == Terminated(a, t) + Join(b, t)
  {
    var init, last := b[..|b| - 1], b[|b| - 1];
    InitAndLast(a, b, a + b);
    JoinOf(a + b, a + init, last, t);
    JoinOf(b, init, last, t);
    TerminatedAppends(a, init, t);
    Associates(Terminated(a, t), Terminated(init, t), last);
  }

  lemma JoinOne(line: Bytes, t: Bytes)
    ensures Join([line], t) == line && Terminated([line], t) == line + t
  {
  }

  lemma {:induction false} SplitOfLine(line: Bytes, rest: Bytes)
    requires LF !in line
    ensures Split(line + [LF] + rest) == [line] + Split(rest)
    ensures Split(line) == [line]
  {
    if line == [] {
      assert line + [LF] + rest == [LF] + rest && ([LF] + rest)[1..] == rest;
    } else {
      assert forall b :: b in line[1..] ==> b in line;
      SplitOfLine(line[1..], rest);
      assert (line + [LF] + rest)[1..] == line[1..] + [LF] + rest;
      assert line == [line[0]] + line[1..];
    }
  }

  /** Splitting undoes joining lines that hold no newline. */
  lemma {:induction false} SplitUndoesJoin(lines: seq<Bytes>)
    requires lines != [] && forall l :: l in lines ==> LF !in l
    ensures Split(Join(lines, [LF])) == lines
  {
    assert lines == [lines[0]] + lines[1..];
    assert lines[0] in lines;
    if |lines| == 1 {
      JoinOne(lines[0], [LF]);
      SplitOfLine(lines[0], []);
    } else {
      JoinAppends([lines[0]], lines[1..], [LF]);
      JoinOne(lines[0], [LF]);
      forall l | l in lines[1..] ensures LF !in l { assert l in lines; }
      SplitUndoesJoin(lines[1..]);
      SplitOfLine(lines[0], Join(lines[1..], [LF]));
    }
  }

  /** Joining undoes splitting. */
  lemma {:induction false} JoinUndoesSplit(text: Bytes)
    ensures Join(Split(text), [LF]) == text
  {
    if text == [] {
      JoinOne([], [LF]);
    } else {
      var rest := Split(text[1..]);
      JoinUndoesSplit(text[1..]);
      assert text == [text[0]] + text[1..];
      if text[0] == LF {
        JoinAppends([[]], rest, [LF]);
        JoinOne([], [LF]);
      } else {
        JoinPrefixed(text[0], rest);
      }
    }
  }

  lemma JoinPrefixed(b: Byte, lines: seq<Bytes>)
    requires lines != []
    ensures Join([[b] + lines[0]] + lines[1..], [LF]) == [b] + Join(lines, [LF])
  {
    assert lines == [lines[0]] + lines[1..];
    JoinOne(lines[0], [LF]);
    JoinOne([b] + lines[0], [LF]);
    if |lines| > 1 {
      JoinAppends([lines[0]], lines[1..], [LF]);
      JoinAppends([[b] + lines[0]], lines[1..], [LF]);
    } else {
      assert [[b] + lines[0]] + lines[1..] == [[b] + lines[0]];
    }
  }

  // ---- splitLines -----------------------------------------------------------------------------------

  function WithoutReturns(lines: seq<Bytes>): (r: seq<Bytes>)
    ensures |r| == |lines|
  {
    if lines == [] then [] else [TrimSuffix(lines[0], CR)] + WithoutReturns(lines[1..])
  }

  lemma {:induction false} WithoutReturnsAt(lines: seq<Bytes>)
    ensures forall i :: 0 <= i < |lines| ==> WithoutReturns(lines)[i] == TrimSuffix(lines[i], CR)
  {
    if lines != [] {
      WithoutReturnsAt(lines[1..]);
    }
  }

  /** Lines as the editor sees them: a final newline ends the last line rather than opening another,
      and one carriage return before each newline goes. */
  function SplitLines(input: Bytes): (lines: seq<Bytes>)
    ensures lines != []
  {
    if input == [] then [[]] else WithoutReturns(Split(TrimSuffix(input, LF)))
  }

  /** splitLines strips the carriage returns in place. */
  method SplitLinesInPlace(input: Bytes) returns (lines: seq<Bytes>)
    ensures lines == SplitLines(input)
  {
    if input == [] {
      return [[]];
    }
    var split := Split(TrimSuffix(input, LF));
    lines := split;
    var index := 0;
    while index < |lines|
      invariant 0 <= index <= |lines| == |split|
      invariant forall k :: 0 <= k < index ==> lines[k] == TrimSuffix(split[k], CR)
      invariant forall k :: index <= k < |lines| ==> lines[k] == split[k]
    {
      lines := lines[index := TrimSuffix(lines[index], CR)];
      index := index + 1;
    }
    WithoutReturnsAt(split);
  }

  /** Index of the first newline, or -1. */
  function FirstNewline(text: Bytes): (i: int)
    ensures -1 <= i < |text|
    ensures i >= 0 ==> text[i] == LF && LF !in text[..i]
    ensures i == -1 ==> LF !in text
  {
    if text == [] then -1
    else if text[0] == LF then 0
    else var i := FirstNewline(text[1..]); if i < 0 then -1 else i + 1
  }

  function LineTerminator(source: Bytes): Bytes {
    var first := FirstNewline(source);
    if first > 0 && source[first - 1] == CR then [CR, LF] else [LF]
  }

  // ---- Splicing ---------------------------------------------------------------------------------------

  /** What replacing lines from..to (1-based, inclusive) writes back. */
  function Splice(source: Bytes, from: nat, to: nat, newCode: Bytes): Bytes
    requires 1 <= from <= to <= |SplitLines(source)|
  {
    var lines := SplitLines(source);
    var updated := lines[..from - 1] + SplitLines(newCode) + lines[to..];
    var terminator := LineTerminator(source);
    Join(updated, terminator) + if EndsWith(source, LF) || source == [] then terminator else []
  }

  predicate Clean(line: Bytes) {
    LF !in line && CR !in line
  }

  predicate IsTerminator(t: Bytes) {
    t == [LF] || t == [CR, LF]
  }

  /** A file with one uniform terminator and no stray carriage return. Without a final terminator the
      last line is not empty, or it would be the one before that ends the file. */
  ghost predicate IsFile(lines: seq<Bytes>, t: Bytes, terminated: bool) {
    && lines != [] && IsTerminator(t)
    && (forall l :: l in lines ==> Clean(l))
    && (!terminated ==> lines[|lines| - 1] != [])
  }

  function Render(lines: seq<Bytes>, t: Bytes, terminated: bool): Bytes {
    Join(lines, t) + if terminated then t else []
  }

  lemma TrimReturn(line: Bytes)
    requires CR !in line
    ensures TrimSuffix(line + [CR], CR) == line && TrimSuffix(line, CR) == line
  {
  }

  /** A file's lines as strings.Split sees them once a final newline is trimmed. */
  function Raw(lines: seq<Bytes>, t: Bytes, terminated: bool): (r: seq<Bytes>)
    requires lines != [] && IsTerminator(t)
    ensures |r| == |lines|
  {
    seq(|lines|, i requires 0 <= i < |lines| => 
      if t == [LF] || (i == |lines| - 1 && !terminated) then lines[i] else lines[i] + [CR])
  }

  lemma RenderCons(lines: seq<Bytes>, t: Bytes, terminated: bool)
    requires |lines| > 1
    ensures Render(lines, t, terminated) == lines[0] + t + Render(lines[1..], t, terminated)
  {
    assert lines == [lines[0]] + lines[1..];
    JoinAppends([lines[0]], lines[1..], t);
    JoinOne(lines[0], t);
  }

  lemma RenderOne(line: Bytes, t: Bytes, terminated: bool)
    ensures Render([line], t, terminated) == line + if terminated then t else []
  {
  }

  function WithReturns(lines: seq<Bytes>): (r: seq<Bytes>)
    ensures |r| == |lines|
  {
    seq(|lines|, i requires 0 <= i < |lines| => lines[i] + [CR])
  }

  lemma {:induction false} ReturnsInLines(lines: seq<Bytes>)
    ensures Terminated(lines, [CR, LF]) == Terminated(WithReturns(lines), [LF])
  {
    if lines != [] {
      ReturnsInLines(lines[1..]);
      assert WithReturns(lines)[1..] == WithReturns(lines[1..]);
      AppendReturn(lines[0], Terminated(lines[1..], [CR, LF]));
    }
  }

  lemma AppendReturn(line: Bytes, rest: Bytes)
    ensures line + [CR, LF] + rest == line + [CR] + [LF] + rest
  {
  }

  /** A CRLF file is an LF file whose lines end in a carriage return. */
  lemma RenderRaw(lines: seq<Bytes>, t: Bytes, terminated: bool)
    requires lines != [] && IsTerminator(t)
    ensures Render(lines, t, terminated) == Render(Raw(lines, t, terminated), [LF], terminated)
  {
    var raw, n := Raw(lines, t, terminated), |lines| - 1;
    if t == [LF] {
      assert raw == lines;
    } else {
      assert raw[..n] == WithReturns(lines[..n]);
      ReturnsInLines(lines[..n]);
      ReturnAtEnd(Terminated(lines[..n], t), lines[n]);
    }
  }

  lemma ReturnAtEnd(head: Bytes, line: Bytes)
    ensures head + line + [CR, LF] == head + (line + [CR]) + [LF]
    ensures head + line + [] == head + line
  {
  }

  lemma JoinEnds(lines: seq<Bytes>, t: Bytes)
    requires lines != [] && lines[|lines| - 1] != []
    ensures Join(lines, t) != [] && Join(lines, t)[|Join(lines, t)| - 1] == lines[|lines| - 1][|lines[|lines| - 1]| - 1]
  {
  }

  lemma RawLines(lines: seq<Bytes>, t: Bytes, terminated: bool)
    requires IsFile(lines, t, terminated)
    ensures forall l :: l in Raw(lines, t, terminated) ==> LF !in l
    ensures WithoutReturns(Raw(lines, t, terminated)) == lines
  {
    var raw := Raw(lines, t, terminated);
    forall i | 0 <= i < |raw| ensures LF !in raw[i] && TrimSuffix(raw[i], CR) == lines[i] {
      assert lines[i] in lines;
      TrimReturn(lines[i]);
    }
    WithoutReturnsAt(raw);
  }

  lemma RawEnding(lines: seq<Bytes>, t: Bytes)
    requires IsFile(lines, t, false)
    ensures Join(Raw(lines, t, false), [LF]) != [] && !EndsWith(Join(Raw(lines, t, false), [LF]), LF)
  {
    var last := lines[|lines| - 1];
    assert last in lines && last[|last| - 1] in last;
    JoinEnds(Raw(lines, t, false), [LF]);
  }

  /** Splitting a file gives its lines back. */
  lemma SplitOfFile(lines: seq<Bytes>, t: Bytes, terminated: bool)
    requires IsFile(lines, t, terminated)
    ensures SplitLines(Render(lines, t, terminated)) == lines
  {
    var raw := Raw(lines, t, terminated);
    RenderRaw(lines, t, terminated);
    RawLines(lines, t, terminated);
    SplitUndoesJoin(raw);
    if !terminated {
      RawEnding(lines, t);
    }
    TrimNewline(Join(raw, [LF]), terminated);
  }

  lemma TrimNewline(text: Bytes, terminated: bool)
    requires terminated || (text != [] && !EndsWith(text, LF))
    ensures text + (if terminated then [LF] else []) != []
    ensures TrimSuffix(text + (if terminated then [LF] else []), LF) == text
  {
  }

  lemma TerminatorOfFile(lines: seq<Bytes>, t: Bytes, terminated: bool)
    requires IsFile(lines, t, terminated) && (terminated || |lines| > 1 || t == [LF])
    ensures LineTerminator(Render(lines, t, terminated)) == t
  {
    assert lines[0] in lines;
    if |lines| == 1 && !terminated {
      assert lines == [lines[0]];
      RenderOne(lines[0], t, terminated);
      assert LF !in Render(lines, t, terminated);
    } else if |lines| == 1 {
      assert lines == [lines[0]];
      RenderOne(lines[0], t, terminated);
      assert lines[0] + t == lines[0] + t + [];
      FirstTerminator(lines[0], t, []);
    } else {
      RenderCons(lines, t, terminated);
      FirstTerminator(lines[0], t, Render(lines[1..], t, terminated));
    }
  }

  lemma FirstTerminator(line: Bytes, t: Bytes, rest: Bytes)
    requires Clean(line) && IsTerminator(t)
    ensures LineTerminator(line + t + rest) == t
  {
    var text, k := line + t + rest, |line| + |t| - 1;
    assert text[..k] == line + t[..|t| - 1];
    FirstNewlineIs(text, k);
    if t == [LF] && line != [] {
      assert text[k - 1] == line[|line| - 1] && line[|line| - 1] in line;
    }
  }

  lemma FirstNewlineIs(text: Bytes, k: nat)
    requires k < |text| && text[k] == LF && LF !in text[..k]
    ensures FirstNewline(text) == k
  {
  }

  lemma RenderParts(head: seq<Bytes>, mid: seq<Bytes>, tail: seq<Bytes>, t: Bytes, terminated: bool)
    requires mid != []
    ensures Render(head + mid + tail, t, terminated)
         == Terminated(head, t) + Join(mid, t) + (Tail(tail, t) + if terminated then t else [])
  {
    assert head + mid + tail == head + (mid + tail);
    JoinAppends(head, mid + tail, t);
    JoinTail(mid, tail, t);
    Regroup(Terminated(head, t), Join(mid, t), Tail(tail, t), if terminated then t else []);
  }

  lemma Regroup(a: Bytes, b: Bytes, c: Bytes, d: Bytes)
    ensures (a + (b + c)) + d == a + b + (c + d)
  {
  }

  lemma PartEnds(a: Bytes, b: Bytes, c: Bytes, whole: Bytes)
    requires whole == a + b + c
    ensures |whole| == |a| + |b| + |c| && whole[..|a|] == a && whole[|a| + |b|..] == c
  {
  }

  /** Where line n (1-based) starts and ends in a file, its terminator not counted. */
  function LineStart(lines: seq<Bytes>, t: Bytes, n: nat): nat
    requires 1 <= n <= |lines|
  {
    |Terminated(lines[..n - 1], t)|
  }

  function LineEnd(lines: seq<Bytes>, t: Bytes, n: nat): nat
    requires 1 <= n <= |lines|
  {
    LineStart(lines, t, n) + |lines[n - 1]|
  }

  lemma MiddleLength(lines: seq<Bytes>, t: Bytes, from: nat, to: nat)
    requires 1 <= from <= to <= |lines|
    ensures LineStart(lines, t, from) + |Join(lines[from - 1..to], t)| == LineEnd(lines, t, to)
  {
    var mid, init := lines[from - 1..to], lines[from - 1..to - 1];
    assert mid[..|mid| - 1] == init && lines[..to - 1] == lines[..from - 1] + init;
    TerminatedAppends(lines[..from - 1], init, t);
  }

  lemma SpliceForm(lines: seq<Bytes>, t: Bytes, terminated: bool, from: nat, to: nat, newCode: Bytes)
    requires IsFile(lines, t, terminated) && 1 <= from <= to <= |lines|
    requires terminated || |lines| > 1 || t == [LF]
    ensures SplitLines(Render(lines, t, terminated)) == lines
    ensures Splice(Render(lines, t, terminated), from, to, newCode)
         == Render(lines[..from - 1] + SplitLines(newCode) + lines[to..], t, terminated)
  {
    SplitOfFile(lines, t, terminated);
    TerminatorOfFile(lines, t, terminated);
    EndsAsBefore(lines, t, terminated);
  }

  lemma ThreeParts<T>(s: seq<T>, from: nat, to: nat, head: seq<T>, mid: seq<T>, tail: seq<T>)
    requires from <= to <= |s| && head == s[..from] && mid == s[from..to] && tail == s[to..]
    ensures s == head + mid + tail
  {
  }

  /** Splicing lines from..to of a uniform file leaves every byte before line from and after line to
      as it was, and puts the new lines between them under the file's own terminator. */
  lemma SpliceKeepsTheRest(lines: seq<Bytes>, t: Bytes, terminated: bool, from: nat, to: nat, newCode: Bytes)
    requires IsFile(lines, t, terminated) && 1 <= from <= to <= |lines|
    requires terminated || |lines| > 1 || t == [LF]
    ensures SplitLines(Render(lines, t, terminated)) == lines
    ensures var source := Render(lines, t, terminated);
      var start, end := LineStart(lines, t, from), LineEnd(lines, t, to);
      && start <= end <= |source|
      && Splice(source, from, to, newCode) == source[..start] + Join(SplitLines(newCode), t) + source[end..]
  {
    var code := SplitLines(newCode);
    var head, mid, tail := lines[..from - 1], lines[from - 1..to], lines[to..];
    var rest := Tail(tail, t) + if terminated then t else [];
    SpliceForm(lines, t, terminated, from, to, newCode);
    ThreeParts(lines, from - 1, to, head, mid, tail);
    RenderParts(head, mid, tail, t, terminated);
    RenderParts(head, code, tail, t, terminated);
    MiddleLength(lines, t, from, to);
    PartEnds(Terminated(head, t), Join(mid, t), rest, Render(lines, t, terminated));
  }

  /** Whether the file ends in a newline is kept too, except when an unterminated file's last line is
      replaced by code that ends in an empty line, below other lines. */
  lemma SpliceKeepsTheEnding(lines: seq<Bytes>, t: Bytes, terminated: bool, source: Bytes, from: nat, to: nat,
                             newCode: Bytes)
    requires IsFile(lines, t, terminated) && 1 <= from <= to <= |lines|
    requires terminated || |lines| > 1 || t == [LF]
    requires source == Render(lines, t, terminated)
    ensures SplitLines(source) == lines
    ensures var code := SplitLines(newCode);
      EndsWith(Splice(source, from, to, newCode), LF) == terminated
      <==> terminated || to < |lines| || code[|code| - 1] != [] || (from == 1 && |code| == 1)
  {
    SpliceForm(lines, t, terminated, from, to, newCode);
    SplitHasNoNewline(newCode);
    UpdatedEnds(lines, t, terminated, from, to, SplitLines(newCode), Splice(source, from, to, newCode));
  }

  lemma UpdatedEnds(lines: seq<Bytes>, t: Bytes, terminated: bool, from: nat, to: nat, code: seq<Bytes>, spliced: Bytes)
    requires IsFile(lines, t, terminated) && 1 <= from <= to <= |lines|
    requires code != [] && (forall l :: l in code ==> LF !in l)
    requires spliced == Render(lines[..from - 1] + code + lines[to..], t, terminated)
    ensures EndsWith(spliced, LF) == terminated
       <==> terminated || to < |lines| || code[|code| - 1] != [] || (from == 1 && |code| == 1)
  {
    var last := if to < |lines| then lines[|lines| - 1] else code[|code| - 1];
    assert last in lines || last in code;
    var updated := lines[..from - 1] + code + lines[to..];
    LastOfThree(lines[..from - 1], code, lines[to..], updated, last);
    RenderEnds(updated, last, t, terminated);
  }

  lemma LastOfThree<T>(head: seq<T>, mid: seq<T>, tail: seq<T>, whole: seq<T>, last: T)
    requires mid != [] && whole == head + mid + tail
    requires last == if tail != [] then tail[|tail| - 1] else mid[|mid| - 1]
    ensures |whole| == |head| + |mid| + |tail| && whole[|whole| - 1] == last
  {
  }

  lemma RenderEnds(lines: seq<Bytes>, last: Bytes, t: Bytes, terminated: bool)
    requires lines != [] && lines[|lines| - 1] == last && LF !in last && IsTerminator(t)
    ensures EndsWith(Render(lines, t, terminated), LF) <==> terminated || (last == [] && |lines| > 1)
  {
    if !terminated {
      LastLineEnds(lines, last, t);
      UnterminatedEnds(lines, t);
    }
  }

  lemma UnterminatedEnds(lines: seq<Bytes>, t: Bytes)
    ensures Render(lines, t, false) == Join(lines, t)
  {
  }

  /** A joined text ends in a newline only when its last line is empty and not its only one. */
  lemma LastLineEnds(lines: seq<Bytes>, last: Bytes, t: Bytes)
    requires lines != [] && lines[|lines| - 1] == last && LF !in last && IsTerminator(t)
    ensures EndsWith(Join(lines, t), LF) <==> last == [] && |lines| > 1
  {
    if last != [] {
      assert last[|last| - 1] in last;
      JoinEnds(lines, t);
    } else if |lines| == 1 {
      assert lines == [[]];
      JoinOne([], t);
    } else {
      JoinEmptyEnd(lines, t);
    }
  }

  lemma SplitHasNoNewline(input: Bytes)
    ensures forall l :: l in SplitLines(input) ==> LF !in l
  {
    if input != [] {
      var split := Split(TrimSuffix(input, LF));
      WithoutReturnsAt(split);
      forall i | 0 <= i < |split| ensures LF !in WithoutReturns(split)[i] {
        assert split[i] in split;
      }
    }
  }

  lemma JoinEmptyEnd(lines: seq<Bytes>, t: Bytes)
    requires |lines| > 1 && lines[|lines| - 1] == [] && IsTerminator(t)
    ensures EndsWith(Join(lines, t), LF)
  {
    var init := lines[..|lines| - 1];
    var most, last := init[..|init| - 1], init[|init| - 1];
    assert init == most + [last];
    TerminatedAppends(most, [last], t);
    JoinOne(last, t);
  }

  predicate NoneEndsInReturn(lines: seq<Bytes>) {
    forall l :: l in lines ==> !EndsWith(l, CR)
  }

  lemma {:induction false} NothingStrippedIff(lines: seq<Bytes>)
    ensures WithoutReturns(lines) == lines <==> NoneEndsInReturn(lines)
  {
    if lines != [] {
      NothingStrippedIff(lines[1..]);
      assert lines == [lines[0]] + lines[1..];
    }
  }

  lemma {:induction false} WithReturnsStripped(lines: seq<Bytes>)
    ensures WithoutReturns(WithReturns(lines)) == lines
  {
    WithoutReturnsAt(WithReturns(lines));
  }

  lemma {:induction false} SplitOneLine(line: Bytes)
    requires LF !in line
    ensures Split(line) == [line]
  {
    if line != [] {
      assert line == [line[0]] + line[1..];
      SplitOneLine(line[1..]);
    }
  }

  lemma {:induction false} SplitPrefixed(prefix: Bytes, rest: Bytes, text: Bytes)
    requires LF !in prefix && text == prefix + rest
    ensures Split(text) == [prefix + Split(rest)[0]] + Split(rest)[1..]
  {
    if prefix == [] {
      assert text == rest && prefix + Split(rest)[0] == Split(rest)[0];
    } else {
      assert text[1..] == prefix[1..] + rest;
      SplitPrefixed(prefix[1..], rest, text[1..]);
      assert [prefix[0]] + (prefix[1..] + Split(rest)[0]) == prefix + Split(rest)[0];
    }
  }

  function ExtendLast(lines: seq<Bytes>, suffix: Bytes): seq<Bytes>
    requires lines != []
  {
    lines[..|lines| - 1] + [lines[|lines| - 1] + suffix]
  }

  lemma ExtendCons(first: Bytes, rest: seq<Bytes>, suffix: Bytes)
    requires rest != []
    ensures ExtendLast([first] + rest, suffix) == [first] + ExtendLast(rest, suffix)
  {
  }

  lemma {:induction false} SplitSuffixed(text: Bytes, suffix: Bytes, whole: Bytes)
    requires LF !in suffix && whole == text + suffix
    ensures Split(whole) == ExtendLast(Split(text), suffix)
  {
    if text == [] {
      assert whole == suffix;
      SplitOneLine(suffix);
    } else {
      var rest := Split(text[1..]);
      assert whole[1..] == text[1..] + suffix;
      SplitSuffixed(text[1..], suffix, whole[1..]);
      if text[0] == LF {
        ExtendCons([], rest, suffix);
      } else if |rest| > 1 {
        assert rest == [rest[0]] + rest[1..];
        ExtendCons(rest[0], rest[1..], suffix);
        ExtendCons([text[0]] + rest[0], rest[1..], suffix);
      } else {
        Associates([text[0]], rest[0], suffix);
      }
    }
  }

  lemma {:induction false} SplitKeepsBytes(text: Bytes, line: Bytes, b: Byte)
    requires line in Split(text) && b !in text
    ensures b !in line
  {
    if text != [] {
      var rest := Split(text[1..]);
      assert text == [text[0]] + text[1..];
      if text[0] == LF {
        if line in rest { SplitKeepsBytes(text[1..], line, b); }
      } else if line in rest[1..] {
        assert line in rest;
        SplitKeepsBytes(text[1..], line, b);
      } else {
        SplitKeepsBytes(text[1..], rest[0], b);
      }
    }
  }

  /** Lines of a text without returns have none, so splitting strips none. */
  lemma LinesWithoutReturns(text: Bytes)
    requires CR !in text
    ensures NoneEndsInReturn(Split(TrimSuffix(text, LF))) && forall l :: l in SplitLines(text) ==> Clean(l)
  {
    var trimmed := TrimSuffix(text, LF);
    forall l | l in Split(trimmed) ensures CR !in l && !EndsWith(l, CR) {
      SplitKeepsBytes(trimmed, l, CR);
      assert l != [] ==> l[|l| - 1] in l;
    }
    NothingStrippedIff(Split(trimmed));
  }

  lemma NewlineTrimmed(text: Bytes)
    ensures TrimSuffix(text + [LF], LF) == text && text + [LF] != []
  {
  }

  /** Splitting lines written with either terminator, whatever carriage returns they hold. */
  lemma SplitOfLines(lines: seq<Bytes>, t: Bytes)
    requires lines != [] && IsTerminator(t) && forall l :: l in lines ==> LF !in l
    ensures SplitLines(Render(lines, t, true)) == if t == [CR, LF] then lines else WithoutReturns(lines)
  {
    var raw := Raw(lines, t, true);
    assert raw == if t == [CR, LF] then WithReturns(lines) else lines;
    assert forall l :: l in raw ==> LF !in l;
    RenderRaw(lines, t, true);
    SplitUndoesJoin(raw);
    NewlineTrimmed(Join(raw, [LF]));
    WithReturnsStripped(lines);
  }

  /** Splitting the spliced file again gives the lines before, the new lines and the lines after, if and
      only if the file has CRLF terminators or no new line ends in a carriage return of its own. */
  lemma SpliceThenSplit(lines: seq<Bytes>, t: Bytes, from: nat, to: nat, newCode: Bytes)
    requires IsFile(lines, t, true) && 1 <= from <= to <= |lines|
    ensures SplitLines(Render(lines, t, true)) == lines
    ensures var code := SplitLines(newCode);
      SplitLines(Splice(Render(lines, t, true), from, to, newCode)) == lines[..from - 1] + code + lines[to..]
      <==> t == [CR, LF] || NoneEndsInReturn(code)
  {
    var code := SplitLines(newCode);
    SpliceForm(lines, t, true, from, to, newCode);
    SplitHasNoNewline(newCode);
    ResplitIff(lines, t, from, to, code, Splice(Render(lines, t, true), from, to, newCode));
  }

  lemma ResplitIff(lines: seq<Bytes>, t: Bytes, from: nat, to: nat, code: seq<Bytes>, spliced: Bytes)
    requires IsFile(lines, t, true) && 1 <= from <= to <= |lines|
    requires code != [] && forall l :: l in code ==> LF !in l
    requires spliced == Render(lines[..from - 1] + code + lines[to..], t, true)
    ensures SplitLines(spliced) == lines[..from - 1] + code + lines[to..] <==> t == [CR, LF] || NoneEndsInReturn(code)
  {
    var updated := lines[..from - 1] + code + lines[to..];
    forall l | l in updated ensures l in lines || l in code {
    }
    forall l | l in lines ensures !EndsWith(l, CR) {
      assert l != [] ==> l[|l| - 1] in l;
    }
    SplitOfLines(updated, t);
    NothingStrippedIff(updated);
  }

  /** What splitting a text into lines and joining them again leaves as it was. */
  predicate SurvivesSplitting(text: Bytes) {
    !EndsWith(text, LF) && NoneEndsInReturn(Split(text))
  }

  lemma {:induction false} StrippedIsShorter(lines: seq<Bytes>)
    ensures |Terminated(WithoutReturns(lines), [LF])| <= |Terminated(lines, [LF])|
    ensures |Terminated(WithoutReturns(lines), [LF])| == |Terminated(lines, [LF])| <==> NoneEndsInReturn(lines)
  {
    if lines != [] {
      StrippedIsShorter(lines[1..]);
      assert lines == [lines[0]] + lines[1..];
      assert WithoutReturns(lines)[1..] == WithoutReturns(lines[1..]);
    }
  }

  /** A text without its final newline, split and stripped, joins to itself if no line ended in a
      return, and to something shorter otherwise. */
  lemma JoinOfSplit(text: Bytes)
    ensures var trimmed, joined := TrimSuffix(text, LF), Join(SplitLines(text), [LF]);
      && |joined| <= |trimmed|
      && (joined == trimmed <==> NoneEndsInReturn(Split(trimmed)))
  {
    var trimmed := TrimSuffix(text, LF);
    var split := Split(trimmed);
    if text == [] {
      JoinOne([], [LF]);
    } else {
      JoinUndoesSplit(trimmed);
      StrippedIsShorter(split);
      NothingStrippedIff(split);
      TerminatedIsJoin(split, [LF]);
      TerminatedIsJoin(WithoutReturns(split), [LF]);
    }
  }

  lemma SurvivesSplittingIff(text: Bytes)
    ensures Join(SplitLines(text), [LF]) == text <==> SurvivesSplitting(text)
  {
    JoinOfSplit(text);
  }

  /** What follows a line group in a joined text: each further line after its separator. */
  function Tail(lines: seq<Bytes>, t: Bytes): Bytes {
    if lines == [] then [] else t + Join(lines, t)
  }

  lemma TerminatedIsJoin(lines: seq<Bytes>, t: Bytes)
    requires lines != []
    ensures Terminated(lines, t) == Join(lines, t) + t
  {
    var init, last := lines[..|lines| - 1], lines[|lines| - 1];
    assert lines == init + [last];
    TerminatedAppends(init, [last], t);
    JoinOne(last, t);
    Associates(Terminated(init, t), last, t);
  }

  lemma JoinTail(a: seq<Bytes>, b: seq<Bytes>, t: Bytes)
    requires a != []
    ensures Join(a + b, t) == Join(a, t) + Tail(b, t)
  {
    if b == [] {
      assert a + b == a;
    } else {
      JoinAppends(a, b, t);
      TerminatedIsJoin(a, t);
      Associates(Join(a, t), t, Join(b, t));
    }
  }

  lemma EndsAsBefore(lines: seq<Bytes>, t: Bytes, terminated: bool)
    requires IsFile(lines, t, terminated)
    ensures Render(lines, t, terminated) != []
    ensures EndsWith(Render(lines, t, terminated), LF) <==> terminated
  {
    if !terminated {
      var last := lines[|lines| - 1];
      assert last in lines && last[|last| - 1] in last;
      JoinEnds(lines, t);
      assert Render(lines, t, terminated) == Join(lines, t);
    }
  }

  /** An empty file is given a final newline with its first lines. */
  lemma SpliceIntoNothing(newCode: Bytes)
    ensures SplitLines([]) == [[]] && Splice([], 1, 1, newCode) == Join(SplitLines(newCode), [LF]) + [LF]
  {
    assert [[]][..0] + SplitLines(newCode) + [[]][1..] == SplitLines(newCode);
  }

  // ---- Counting -----------------------------------------------------------------------------------------

  /** Lines as lineDelta counts them: none in an empty text or a lone newline. */
  function CountedLines(text: Bytes): seq<Bytes> {
    var trimmed := TrimSuffix(text, LF);
    if trimmed == [] then [] else Split(trimmed)
  }

  /** They are the text's lines between newlines, one final newline aside. */
  lemma CountedLinesAre(text: Bytes)
    ensures CountedLines(text) == [] <==> text == [] || text == [LF]
    ensures forall l :: l in CountedLines(text) ==> LF !in l
    ensures CountedLines(text) != [] ==>
              text == Join(CountedLines(text), [LF]) + if EndsWith(text, LF) then [LF] else []
  {
    JoinUndoesSplit(TrimSuffix(text, LF));
    assert text == TrimSuffix(text, LF) + if EndsWith(text, LF) then [LF] else [];
  }

  /** a and b share their first prefix lines and their last suffix lines, which do not overlap. */
  predicate Shares(a: seq<Bytes>, b: seq<Bytes>, prefix: nat, suffix: nat) {
    && prefix + suffix <= |a| && prefix + suffix <= |b|
    && a[..prefix] == b[..prefix]
    && a[|a| - suffix..] == b[|b| - suffix..]
  }

  /** Lines added and removed: the middles left when shared lines are taken off both ends, as small as
      any choice of shared ends leaves them. */
  method LineDelta(oldText: Bytes, newText: Bytes) returns (added: nat, removed: nat)
    ensures var a, b := CountedLines(oldText), CountedLines(newText);
      && added - removed == |b| - |a|
      && (exists prefix: nat, suffix: nat :: Shares(a, b, prefix, suffix) && added == |b| - prefix - suffix
           && removed == |a| - prefix - suffix)
      && (forall prefix: nat, suffix: nat :: Shares(a, b, prefix, suffix) ==>
           added <= |b| - prefix - suffix && removed <= |a| - prefix - suffix)
  {
    var a, b := CountedLines(oldText), CountedLines(newText);
    var prefix: nat := 0;
    while prefix < |a| && prefix < |b| && a[prefix] == b[prefix]
      invariant prefix <= |a| && prefix <= |b| && a[..prefix] == b[..prefix]
    {
      prefix := prefix + 1;
    }
    var suffix: nat := 0;
    while suffix < |a| - prefix && suffix < |b| - prefix && a[|a| - 1 - suffix] == b[|b| - 1 - suffix]
      invariant Shares(a, b, prefix, suffix)
    {
      suffix := suffix + 1;
    }
    added, removed := |b| - prefix - suffix, |a| - prefix - suffix;
    forall p: nat, s: nat | Shares(a, b, p, s) ensures p + s <= prefix + suffix {
      GreedyIsBest(a, b, prefix, suffix, p, s);
    }
  }

  lemma GreedyIsBest(a: seq<Bytes>, b: seq<Bytes>, prefix: nat, suffix: nat, p: nat, s: nat)
    requires Shares(a, b, prefix, suffix) && Shares(a, b, p, s)
    requires prefix < |a| && prefix < |b| ==> a[prefix] != b[prefix]
    requires prefix + suffix < |a| && prefix + suffix < |b| ==> a[|a| - 1 - suffix] != b[|b| - 1 - suffix]
    ensures p + s <= prefix + suffix
  {
  }
}
