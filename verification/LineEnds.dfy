/** Splicing lines into a file of any shape: line ends mixed, a stray carriage return, no final newline. */
module LineEnds {
  import opened Order
  import opened Lines

  /** Lines, each with what ends it. */
  function Written(lines: seq<Bytes>, ends: seq<Bytes>): Bytes
    requires |lines| == |ends|
  {
    if lines == [] then [] else lines[0] + ends[0] + Written(lines[1..], ends[1..])
  }

  function OptionalReturn(line: Bytes): Bytes {
    if EndsWith(line, CR) then [CR] else []
  }

  /** What ends each of the pieces between newlines: a return of their own, and the newline. */
  function Ends(raw: seq<Bytes>, terminated: bool): (ends: seq<Bytes>)
    ensures |ends| == |raw|
  {
    if raw == [] then []
    else [OptionalReturn(raw[0]) + if |raw| > 1 || terminated then [LF] else []] + Ends(raw[1..], terminated)
  }

  /** The same terminator for all lines, but for an unterminated last one. */
  function Uniform(n: nat, t: Bytes, terminated: bool): (ends: seq<Bytes>)
    ensures |ends| == n
  {
    if n == 0 then [] else [if n > 1 || terminated then t else []] + Uniform(n - 1, t, terminated)
  }

  /** What ends each line of a file. */
  function EndsOf(source: Bytes): seq<Bytes> {
    Ends(Split(TrimSuffix(source, LF)), EndsWith(source, LF))
  }

  /** What ends each line of a file once it is written back. */
  function EndsWrittenBack(source: Bytes): seq<Bytes> {
    Uniform(|SplitLines(source)|, LineTerminator(source), EndsWith(source, LF) || source == [])
  }

  lemma RawOf(source: Bytes)
    ensures SplitLines(source) == WithoutReturns(Split(TrimSuffix(source, LF)))
    ensures |EndsOf(source)| == |SplitLines(source)| == |EndsWrittenBack(source)|
  {
  }

  lemma ReturnBack(line: Bytes)
    ensures TrimSuffix(line, CR) + OptionalReturn(line) == line
  {
  }

  lemma {:induction false} RawWritten(raw: seq<Bytes>, terminated: bool)
    requires raw != []
    ensures Written(WithoutReturns(raw), Ends(raw, terminated)) == Render(raw, [LF], terminated)
  {
    ReturnBack(raw[0]);
    var line, cr, end := TrimSuffix(raw[0], CR), OptionalReturn(raw[0]), if |raw| > 1 || terminated then [LF] else [];
    Associates(line, cr, end);
    if |raw| == 1 {
      assert raw == [raw[0]];
      RenderOne(raw[0], [LF], terminated);
      assert Written([line], [cr + end]) == line + (cr + end) + [];
    } else {
      RawWritten(raw[1..], terminated);
      RenderCons(raw, [LF], terminated);
    }
  }

  /** A file is its lines and what ends them. */
  lemma FileIsItsLines(source: Bytes)
    ensures |EndsOf(source)| == |SplitLines(source)|
    ensures Written(SplitLines(source), EndsOf(source)) == source
  {
    var trimmed := TrimSuffix(source, LF);
    RawOf(source);
    RawWritten(Split(trimmed), EndsWith(source, LF));
    JoinUndoesSplit(trimmed);
    assert source == trimmed + if EndsWith(source, LF) then [LF] else [];
  }

  lemma {:induction false} UniformWritten(lines: seq<Bytes>, t: Bytes, terminated: bool)
    requires lines != []
    ensures Render(lines, t, terminated) == Written(lines, Uniform(|lines|, t, terminated))
  {
    if |lines| == 1 {
      assert lines == [lines[0]];
      RenderOne(lines[0], t, terminated);
    } else {
      RenderCons(lines, t, terminated);
      UniformWritten(lines[1..], t, terminated);
    }
  }

  lemma {:induction false} WrittenAppends(a: seq<Bytes>, ea: seq<Bytes>, b: seq<Bytes>, eb: seq<Bytes>)
    requires |a| == |ea| && |b| == |eb|
    ensures Written(a + b, ea + eb) == Written(a, ea) + Written(b, eb)
  {
    if a == [] {
      assert a + b == b && ea + eb == eb;
    } else {
      assert (a + b)[1..] == a[1..] + b && (ea + eb)[1..] == ea[1..] + eb;
      WrittenAppends(a[1..], ea[1..], b, eb);
      Associates(a[0] + ea[0], Written(a[1..], ea[1..]), Written(b, eb));
    }
  }

  /** Two line ends decide themselves, whatever follows. */
  lemma EndDecides(line: Bytes, e: Bytes, f: Bytes, x: Bytes, y: Bytes)
    requires IsTerminator(e) && IsTerminator(f)
    ensures line + e + x == line + f + y <==> e == f && x == y
  {
    if line + e + x == line + f + y {
      var k := |line|;
      assert (line + e + x)[k] == e[0] && (line + f + y)[k] == f[0];
      assert e == f;
      assert (line + e + x)[k + |e|..] == x && (line + f + y)[k + |f|..] == y;
    }
  }

  ghost predicate AreTerminators(ends: seq<Bytes>) {
    forall i :: 0 <= i < |ends| ==> IsTerminator(ends[i])
  }

  predicate AllAre(ends: seq<Bytes>, t: Bytes) {
    forall i :: 0 <= i < |ends| ==> ends[i] == t
  }

  /** Terminated lines decide what ends them, whatever follows. */
  lemma {:induction false} EndsDecide(lines: seq<Bytes>, e: seq<Bytes>, f: seq<Bytes>, x: Bytes, y: Bytes)
    requires |lines| == |e| == |f| && AreTerminators(e) && AreTerminators(f)
    ensures Written(lines, e) + x == Written(lines, f) + y <==> e == f && x == y
  {
    if lines == [] {
      assert Written(lines, e) + x == x && Written(lines, f) + y == y;
    } else {
      var xs, ys := Written(lines[1..], e[1..]), Written(lines[1..], f[1..]);
      EndsDecide(lines[1..], e[1..], f[1..], x, y);
      EndDecides(lines[0], e[0], f[0], xs + x, ys + y);
      Associates(lines[0] + e[0], xs, x);
      Associates(lines[0] + f[0], ys, y);
      assert e == [e[0]] + e[1..] && f == [f[0]] + f[1..];
    }
  }

  /** So do lines of which the last may be unterminated. */
  lemma LastEndsDecide(lines: seq<Bytes>, e: seq<Bytes>, f: seq<Bytes>)
    requires lines != [] && |lines| == |e| == |f|
    requires AreTerminators(e[..|e| - 1]) && AreTerminators(f[..|f| - 1])
    ensures Written(lines, e) == Written(lines, f) <==> e == f
  {
    var n := |lines| - 1;
    assert lines == lines[..n] + [lines[n]] && e == e[..n] + [e[n]] && f == f[..n] + [f[n]];
    InitWritten(lines[..n], e[..n], lines[n], e[n]);
    InitWritten(lines[..n], f[..n], lines[n], f[n]);
    EndsDecide(lines[..n], e[..n], f[..n], lines[n] + e[n], lines[n] + f[n]);
    if lines[n] + e[n] == lines[n] + f[n] {
      assert (lines[n] + e[n])[|lines[n]|..] == e[n] && (lines[n] + f[n])[|lines[n]|..] == f[n];
    }
  }

  lemma InitWritten(init: seq<Bytes>, ends: seq<Bytes>, line: Bytes, end: Bytes)
    requires |init| == |ends|
    ensures Written(init + [line], ends + [end]) == Written(init, ends) + (line + end)
  {
    WrittenAppends(init, ends, [line], [end]);
    OneWritten(line, end);
  }

  lemma OneWritten(line: Bytes, end: Bytes)
    ensures Written([line], [end]) == line + end
  {
    assert Written([], []) == [] && line + end + [] == line + end;
  }

  // ---- Splicing -------------------------------------------------------------------------------------------

  /** A file with lines from..to replaced by code: the lines before, code, what ends line to, the rest. */
  function Around(lines: seq<Bytes>, ends: seq<Bytes>, from: nat, to: nat, code: Bytes): Bytes
    requires 1 <= from <= to <= |lines| == |ends|
  {
    Written(lines[..from - 1], ends[..from - 1]) + code + (ends[to - 1] + Written(lines[to..], ends[to..]))
  }

  lemma {:induction false} UniformParts(n: nat, t: Bytes, terminated: bool, k: nat)
    requires k <= n
    ensures Uniform(n, t, terminated)[k..] == Uniform(n - k, t, terminated)
    ensures forall i :: 0 <= i < n ==> Uniform(n, t, terminated)[i] == if i < n - 1 || terminated then t else []
  {
    if n > 0 {
      UniformParts(n - 1, t, terminated, if k > 0 then k - 1 else 0);
    }
  }

  lemma {:induction false} UniformHead(lines: seq<Bytes>, ends: seq<Bytes>, t: Bytes)
    requires |lines| == |ends| && AllAre(ends, t)
    ensures Written(lines, ends) == Terminated(lines, t)
  {
    if lines != [] {
      UniformHead(lines[1..], ends[1..], t);
    }
  }

  /** What a splice writes, in these terms. */
  lemma SpliceIsAround(lines: seq<Bytes>, t: Bytes, terminated: bool, from: nat, to: nat, code: seq<Bytes>)
    requires 1 <= from <= to <= |lines| && code != []
    ensures Render(lines[..from - 1] + code + lines[to..], t, terminated)
         == Around(lines, Uniform(|lines|, t, terminated), from, to, Join(code, t))
  {
    var n, head, tail := |lines|, lines[..from - 1], lines[to..];
    var ends := Uniform(n, t, terminated);
    RenderParts(head, code, tail, t, terminated);
    UniformParts(n, t, terminated, to);
    assert AllAre(ends[..from - 1], t);
    UniformHead(head, ends[..from - 1], t);
    TailWritten(tail, t, terminated, ends[to - 1]);
  }

  lemma TailWritten(tail: seq<Bytes>, t: Bytes, terminated: bool, end: Bytes)
    requires end == if tail != [] || terminated then t else []
    ensures Tail(tail, t) + (if terminated then t else [])
         == end + Written(tail, Uniform(|tail|, t, terminated))
  {
    if tail != [] {
      UniformWritten(tail, t, terminated);
      Associates(t, Join(tail, t), if terminated then t else []);
    }
  }

  lemma SpliceWrites(source: Bytes, from: nat, to: nat, newCode: Bytes)
    requires 1 <= from <= to <= |SplitLines(source)|
    ensures |EndsWrittenBack(source)| == |SplitLines(source)|
    ensures Splice(source, from, to, newCode)
         == Around(SplitLines(source), EndsWrittenBack(source), from, to,
                   Join(SplitLines(newCode), LineTerminator(source)))
  {
    SpliceIsAround(SplitLines(source), LineTerminator(source), EndsWith(source, LF) || source == [], from, to,
      SplitLines(newCode));
  }

  /** Where the lines from..to stand, the last one's end not counted. */
  function StartIn(source: Bytes, from: nat): nat
    requires 1 <= from <= |SplitLines(source)|
  {
    RawOf(source);
    |Written(SplitLines(source)[..from - 1], EndsOf(source)[..from - 1])|
  }

  function EndIn(source: Bytes, to: nat): nat
    requires 1 <= to <= |SplitLines(source)|
  {
    StartIn(source, to) + |SplitLines(source)[to - 1]|
  }

  lemma PartsOfFile(source: Bytes, from: nat, to: nat, code: Bytes)
    requires 1 <= from <= to <= |SplitLines(source)|
    ensures |EndsOf(source)| == |SplitLines(source)| && StartIn(source, from) <= EndIn(source, to) <= |source|
    ensures source[..StartIn(source, from)] + code + source[EndIn(source, to)..]
         == Around(SplitLines(source), EndsOf(source), from, to, code)
  {
    FileIsItsLines(source);
    var lines, ends := SplitLines(source), EndsOf(source);
    CutAt(lines, ends, from);
    CutAt(lines, ends, to);
    StartsInOrder(lines, ends, from, to);
  }

  lemma CutAt(lines: seq<Bytes>, ends: seq<Bytes>, k: nat)
    requires 1 <= k <= |lines| == |ends|
    ensures var start, text := |Written(lines[..k - 1], ends[..k - 1])|, Written(lines, ends);
      && start + |lines[k - 1]| <= |text| && text[..start] == Written(lines[..k - 1], ends[..k - 1])
      && text[start + |lines[k - 1]|..] == ends[k - 1] + Written(lines[k..], ends[k..])
  {
    assert lines == lines[..k - 1] + lines[k - 1..] && ends == ends[..k - 1] + ends[k - 1..];
    WrittenAppends(lines[..k - 1], ends[..k - 1], lines[k - 1..], ends[k - 1..]);
    assert lines[k - 1..][1..] == lines[k..] && ends[k - 1..][1..] == ends[k..];
  }

  lemma StartsInOrder(lines: seq<Bytes>, ends: seq<Bytes>, from: nat, to: nat)
    requires 1 <= from <= to <= |lines| == |ends|
    ensures |Written(lines[..from - 1], ends[..from - 1])| <= |Written(lines[..to - 1], ends[..to - 1])|
  {
    var a, ea, b, eb := lines[..from - 1], ends[..from - 1], lines[from - 1..to - 1], ends[from - 1..to - 1];
    assert lines[..to - 1] == a + b && ends[..to - 1] == ea + eb;
    WrittenAppends(a, ea, b, eb);
  }

  lemma {:induction false} EndsAre(raw: seq<Bytes>, terminated: bool)
    ensures forall i :: 0 <= i < |raw| ==>
              Ends(raw, terminated)[i] == OptionalReturn(raw[i]) + if i < |raw| - 1 || terminated then [LF] else []
  {
    if raw != [] {
      EndsAre(raw[1..], terminated);
    }
  }

  lemma BothTerminate(source: Bytes)
    ensures |EndsOf(source)| == |SplitLines(source)| == |EndsWrittenBack(source)|
    ensures AreTerminators(EndsOf(source)[..|EndsOf(source)| - 1])
    ensures AreTerminators(EndsWrittenBack(source)[..|EndsOf(source)| - 1])
  {
    EndsAre(Split(TrimSuffix(source, LF)), EndsWith(source, LF));
    UniformParts(|SplitLines(source)|, LineTerminator(source), EndsWith(source, LF) || source == [], 0);
  }

  lemma AroundDecides(lines: seq<Bytes>, e: seq<Bytes>, f: seq<Bytes>, from: nat, to: nat, code: Bytes)
    requires 1 <= from <= to <= |lines| == |e| == |f|
    requires AreTerminators(e[..|e| - 1]) && AreTerminators(f[..|f| - 1])
    ensures Around(lines, e, from, to, code) == Around(lines, f, from, to, code)
       <==> e[..from - 1] == f[..from - 1] && e[to - 1..] == f[to - 1..]
  {
    var head, rest := lines[..from - 1], [[]] + lines[to..];
    var x, y := e[to - 1] + Written(lines[to..], e[to..]), f[to - 1] + Written(lines[to..], f[to..]);
    assert AreTerminators(e[..from - 1]) && AreTerminators(f[..from - 1]) by {
      assert e[..from - 1] == e[..|e| - 1][..from - 1] && f[..from - 1] == f[..|f| - 1][..from - 1];
    }
    EndsDecide(head, e[..from - 1], f[..from - 1], code + x, code + y);
    Associates(Written(head, e[..from - 1]), code, x);
    Associates(Written(head, f[..from - 1]), code, y);
    if code + x == code + y {
      assert (code + x)[|code|..] == x && (code + y)[|code|..] == y;
    }
    RestDecides(lines, e, f, to);
  }

  lemma RestDecides(lines: seq<Bytes>, e: seq<Bytes>, f: seq<Bytes>, to: nat)
    requires 1 <= to <= |lines| == |e| == |f|
    requires AreTerminators(e[..|e| - 1]) && AreTerminators(f[..|f| - 1])
    ensures e[to - 1] + Written(lines[to..], e[to..]) == f[to - 1] + Written(lines[to..], f[to..])
       <==> e[to - 1..] == f[to - 1..]
  {
    var rest := [[]] + lines[to..];
    RestWritten(rest, e[to - 1..]);
    RestWritten(rest, f[to - 1..]);
    assert rest[1..] == lines[to..] && e[to - 1..][1..] == e[to..] && f[to - 1..][1..] == f[to..];
    assert e[to - 1..][..|rest| - 1] == e[..|e| - 1][to - 1..] && f[to - 1..][..|rest| - 1] == f[..|f| - 1][to - 1..];
    LastEndsDecide(rest, e[to - 1..], f[to - 1..]);
  }

  lemma RestWritten(rest: seq<Bytes>, e: seq<Bytes>)
    requires rest != [] && rest[0] == [] && |rest| == |e|
    ensures Written(rest, e) == e[0] + Written(rest[1..], e[1..])
  {
    assert [] + e[0] == e[0];
  }

  /** Exactly when replacing lines from..to of a file, whatever its shape, leaves every byte before line
      from and after line to as it was: every line before from, and from line to on, already ends as it
      will be written back. */
  lemma SpliceKeepsTheRestIff(source: Bytes, from: nat, to: nat, newCode: Bytes)
    requires 1 <= from <= to <= |SplitLines(source)|
    ensures |EndsOf(source)| == |EndsWrittenBack(source)| == |SplitLines(source)|
    ensures var start, end := StartIn(source, from), EndIn(source, to);
      && start <= end <= |source|
      && (Splice(source, from, to, newCode)
           == source[..start] + Join(SplitLines(newCode), LineTerminator(source)) + source[end..]
         <==> forall i :: 0 <= i < from - 1 || to - 1 <= i < |SplitLines(source)| ==>
                EndsOf(source)[i] == EndsWrittenBack(source)[i])
  {
    var code := Join(SplitLines(newCode), LineTerminator(source));
    var e, f := EndsOf(source), EndsWrittenBack(source);
    BothTerminate(source);
    PartsOfFile(source, from, to, code);
    SpliceWrites(source, from, to, newCode);
    AroundDecides(SplitLines(source), e, f, from, to, code);
    SamePlaces(e, f, from, to);
  }

  lemma SamePlaces(e: seq<Bytes>, f: seq<Bytes>, from: nat, to: nat)
    requires 1 <= from <= to <= |e| == |f|
    ensures e[..from - 1] == f[..from - 1] && e[to - 1..] == f[to - 1..]
       <==> forall i :: 0 <= i < from - 1 || to - 1 <= i < |e| ==> e[i] == f[i]
  {
    forall i | to - 1 <= i < |e| ensures e[i] == e[to - 1..][i - (to - 1)] && f[i] == f[to - 1..][i - (to - 1)] {
    }
    forall i | 0 <= i < from - 1 ensures e[i] == e[..from - 1][i] && f[i] == f[..from - 1][i] {
    }
  }

  lemma MixedLines(source: Bytes)
    requires source == [97, CR, LF, 98, LF]
    ensures SplitLines(source) == [[97], [98]] && LineTerminator(source) == [CR, LF]
  {
    SplitOfLine([97, CR], [98]);
    SplitOfLine([98], []);
    assert TrimSuffix(source, LF) == [97, CR] + [LF] + [98];
    assert WithoutReturns([[97, CR], [98]]) == [[97]] + WithoutReturns([[98]]);
    FirstTerminator([97], [CR, LF], [98, LF]);
    assert [97] + [CR, LF] + [98, LF] == source;
  }

  lemma OneLine()
    ensures SplitLines([120]) == [[120]]
  {
    SplitOfLine([120], []);
    assert WithoutReturns([[120]]) == [[120]];
  }

  lemma TwoJoined(a: Bytes, b: Bytes, t: Bytes)
    ensures Join([a, b], t) == a + t + b
  {
    JoinAppends([a], [b], t);
    JoinOne(a, t);
    JoinOne(b, t);
    assert [a] + [b] == [a, b];
  }

  /** When it does not: with x for the first of a CRLF line and an LF line, the second gets a return. */
  lemma MixedEndsChange(source: Bytes)
    requires source == [97, CR, LF, 98, LF]
    ensures |SplitLines(source)| == 2 && Splice(source, 1, 1, [120]) == [120, CR, LF, 98, CR, LF]
  {
    MixedLines(source);
    OneLine();
    assert [[97], [98]][..0] + [[120]] + [[97], [98]][1..] == [[120], [98]];
    TwoJoined([120], [98], [CR, LF]);
  }
}
