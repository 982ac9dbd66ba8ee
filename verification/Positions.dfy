/** Positions in a document as a language server reads them, and the position a whole document ends
    at. Lines end in LF, CRLF or CR there (LSP 3.17, "Text Documents"); here only in LF. */
module Positions {
  import opened Order
  import opened Utf16
  import opened Lines
  import opened Wire

  /** A 0-based line and a UTF-16 column on it. */
  datatype Position = Position(line: nat, character: nat)

  /** Where the first line ends by LSP's rules. */
  function LineBreak(text: Bytes): (e: nat)
    ensures e <= |text|
    ensures LF !in text[..e] && CR !in text[..e]
    ensures e < |text| ==> text[e] == LF || text[e] == CR
  {
    if text == [] || text[0] == LF || text[0] == CR then 0 else 1 + LineBreak(text[1..])
  }

  function BreakWidth(text: Bytes, e: nat): (w: nat)
    requires e < |text|
    ensures 1 <= w <= |text| - e
  {
    if text[e] == CR && e + 1 < |text| && text[e + 1] == LF then 2 else 1
  }

  /** The byte offset of a position. A column past its line is the line's end; a line past the last,
      which LSP leaves open, is the last. */
  function Resolve(text: Bytes, p: Position): nat
    decreases |text|
  {
    var e := LineBreak(text);
    if p.line == 0 || e == |text| then OffsetOf(Chars(text[..e]), p.character)
    else
      var w := BreakWidth(text, e);
      e + w + Resolve(text[e + w..], Position(p.line - 1, p.character))
  }

  /** documentEnd: the last line, at its length in UTF-16 code units. */
  function EndPosition(text: Bytes): Position {
    var lines := Split(text);
    Position(|lines| - 1, Units(Chars(lines[|lines| - 1])))
  }

  method DocumentEnd(text: Bytes) returns (p: Position)
    ensures p == EndPosition(text)
  {
    var lines := Split(text);
    var last := lines[|lines| - 1];
    CharsCoverTheLine(last);
    Clamped(Chars(last), |last|);
    var units := Utf16Column(last, |last| + 1);
    p := Position(|lines| - 1, units);
  }

  /** Every carriage return is followed by a newline. */
  predicate NoLoneReturn(text: Bytes) {
    forall i :: 0 <= i < |text| && text[i] == CR ==> i + 1 < |text| && text[i + 1] == LF
  }

  lemma {:induction false} WholeLine(chars: seq<Char>)
    ensures OffsetOf(chars, Units(chars)) == Width(chars)
  {
    if chars != [] {
      UnitsArePositive(chars);
      WholeLine(chars[1..]);
    }
  }

  lemma UnitsArePositive(chars: seq<Char>)
    requires chars != []
    ensures Units(chars) > 0
  {
  }

  lemma EndAfterNewline(line: Bytes, rest: Bytes, text: Bytes)
    requires LF !in line && text == line + [LF] + rest
    ensures EndPosition(text) == Position(EndPosition(rest).line + 1, EndPosition(rest).character)
  {
    SplitOfLine(line, rest);
  }

  /** A text with a line break is its first line, the break and the rest. */
  ghost predicate Broken(text: Bytes, line: Bytes, brk: Bytes, rest: Bytes) {
    && text == line + brk + rest && LF !in line && CR !in line
    && (brk == [LF] || brk == [CR, LF] || (brk == [CR] && !(rest != [] && rest[0] == LF)))
  }

  ghost predicate FirstBreak(text: Bytes, line: Bytes, brk: Bytes, rest: Bytes) {
    && LineBreak(text) == |line| < |text| && BreakWidth(text, |line|) == |brk|
    && text[..|line|] == line && text[|line| + |brk|..] == rest
  }

  lemma Break(text: Bytes) returns (line: Bytes, brk: Bytes, rest: Bytes)
    requires LineBreak(text) < |text|
    ensures Broken(text, line, brk, rest) && FirstBreak(text, line, brk, rest)
  {
    var e := LineBreak(text);
    var w := BreakWidth(text, e);
    line, brk, rest := text[..e], text[e..e + w], text[e + w..];
    assert |brk| == w && brk[0] == text[e] && (w == 2 ==> brk[1] == text[e + 1]);
    assert brk == (if w == 2 then [CR, LF] else [text[e]]);
    assert rest != [] ==> rest[0] == text[e + w];
    assert text == line + brk + rest;
  }

  lemma ResolvePast(text: Bytes, p: Position, line: Bytes, brk: Bytes, rest: Bytes)
    requires FirstBreak(text, line, brk, rest)
    ensures p.line == 0 ==> Resolve(text, p) == OffsetOf(Chars(line), p.character)
    ensures p.line > 0 ==> Resolve(text, p) == |line| + |brk| + Resolve(rest, Position(p.line - 1, p.character))
  {
  }

  lemma ResolveUnfolds(text: Bytes, p: Position, e: nat)
    requires e == LineBreak(text) < |text|
    ensures p.line == 0 ==> Resolve(text, p) == OffsetOf(Chars(text[..e]), p.character)
    ensures p.line > 0 ==>
      var w := BreakWidth(text, e);
      Resolve(text, p) == e + w + Resolve(text[e + w..], Position(p.line - 1, p.character))
  {
  }

  /** Past a line break there is one newline fewer, or, for a lone return, as many. */
  lemma BreaksCount(text: Bytes, line: Bytes, brk: Bytes, rest: Bytes)
    requires Broken(text, line, brk, rest)
    ensures brk != [CR] ==> EndPosition(text) == Position(EndPosition(rest).line + 1, EndPosition(rest).character)
    ensures brk == [CR] ==> EndPosition(text).line == EndPosition(rest).line
  {
    if brk == [LF] {
      EndAfterNewline(line, rest, text);
    } else if brk == [CR, LF] {
      assert text == (line + [CR]) + [LF] + rest;
      EndAfterNewline(line + [CR], rest, text);
    } else {
      SplitsAlike(line + [CR], rest);
    }
  }

  lemma {:induction false} SplitsAlike(prefix: Bytes, rest: Bytes)
    requires LF !in prefix
    ensures |Split(prefix + rest)| == |Split(rest)|
  {
    if prefix == [] {
      assert prefix + rest == rest;
    } else {
      assert (prefix + rest)[1..] == prefix[1..] + rest;
      SplitsAlike(prefix[1..], rest);
    }
  }

  /** A position no later line of which is the last falls short of the end. */
  lemma {:induction false} FallsShort(text: Bytes, p: Position)
    requires p.line < EndPosition(text).line
    ensures Resolve(text, p) < |text|
    decreases |text|
  {
    if LineBreak(text) == |text| {
      assert text[..|text|] == text;
      SplitOneLine(text);
    } else {
      var line, brk, rest := Break(text);
      BreaksCount(text, line, brk, rest);
      ResolvePast(text, p, line, brk, rest);
      OffsetWithin(line, p.character);
      if p.line > 0 {
        FallsShort(rest, Position(p.line - 1, p.character));
      }
    }
  }

  lemma {:induction false} NoReturnBefore(a: Bytes, rest: Bytes, text: Bytes)
    requires CR !in a && text == a + rest
    ensures NoLoneReturn(text) <==> NoLoneReturn(rest)
  {
    if a == [] {
      assert text == rest;
    } else {
      NoReturnBefore(a[1..], rest, a[1..] + rest);
      OneByteMore(a[0], a[1..] + rest, text);
    }
  }

  lemma OneByteMore(b: Byte, rest: Bytes, text: Bytes)
    requires text == [b] + rest
    ensures NoLoneReturn(text) <==> NoLoneReturn(rest) && (b == CR ==> rest != [] && rest[0] == LF)
  {
    assert forall i :: 0 <= i < |rest| ==> rest[i] == text[i + 1];
    assert forall i :: 0 < i < |text| ==> text[i] == rest[i - 1];
    if NoLoneReturn(text) {
      assert text[0] == CR ==> 1 < |text| && text[1] == rest[0];
      forall i | 0 <= i < |rest| && rest[i] == CR ensures i + 1 < |rest| && rest[i + 1] == LF {
        assert text[i + 1] == CR;
      }
    }
  }

  lemma FirstReturn(a: Bytes, rest: Bytes, text: Bytes)
    requires text == a + [CR] + rest && CR !in a
    ensures NoLoneReturn(text) <==> rest != [] && rest[0] == LF && NoLoneReturn(rest)
  {
    assert text == a + ([CR] + rest);
    NoReturnBefore(a, [CR] + rest, text);
    OneByteMore(CR, rest, [CR] + rest);
  }

  lemma ReturnsPast(text: Bytes, line: Bytes, brk: Bytes, rest: Bytes)
    requires Broken(text, line, brk, rest)
    ensures NoLoneReturn(text) <==> brk != [CR] && NoLoneReturn(rest)
  {
    if brk == [LF] {
      NoReturnBefore(line + [LF], rest, text);
    } else if brk == [CR, LF] {
      assert text == line + [CR] + ([LF] + rest);
      FirstReturn(line, [LF] + rest, text);
      OneByteMore(LF, rest, [LF] + rest);
    } else {
      FirstReturn(line, rest, text);
    }
  }

  /** The end position is the end exactly when no return stands alone: a lone one is a line break to
      the server and not to us. */
  lemma {:induction false} EndIsTheEndIff(text: Bytes)
    ensures Resolve(text, EndPosition(text)) <= |text|
    ensures Resolve(text, EndPosition(text)) == |text| <==> NoLoneReturn(text)
    decreases |text|
  {
    if LineBreak(text) == |text| {
      OneLine(text);
    } else {
      var line, brk, rest := Break(text);
      BreaksCount(text, line, brk, rest);
      ReturnsPast(text, line, brk, rest);
      EndIsTheEndIff(rest);
      EndPastBreak(text, EndPosition(text), line, brk, rest, EndPosition(rest));
    }
  }

  lemma EndPastBreak(text: Bytes, p: Position, line: Bytes, brk: Bytes, rest: Bytes, q: Position)
    requires FirstBreak(text, line, brk, rest) && q == EndPosition(rest)
    requires if brk == [CR] then p.line == q.line else p == Position(q.line + 1, q.character)
    ensures brk != [CR] ==> Resolve(text, p) == |line| + |brk| + Resolve(rest, q)
    ensures brk == [CR] ==> Resolve(text, p) < |text|
  {
    ResolvePast(text, p, line, brk, rest);
    if brk == [CR] {
      OffsetWithin(line, p.character);
      if p.line > 0 {
        FallsShort(rest, Position(p.line - 1, p.character));
      }
    }
  }

  lemma OneLine(text: Bytes)
    requires LineBreak(text) == |text|
    ensures Resolve(text, EndPosition(text)) == |text| && NoLoneReturn(text)
  {
    assert text[..|text|] == text;
    SplitOneLine(text);
    WholeLine(Chars(text));
    CharsCoverTheLine(text);
    assert forall i :: 0 <= i < |text| ==> text[i] in text;
  }

  // ---- On the wire ------------------------------------------------------------------------------------

  lemma SplitAt(text: Bytes, b: Byte) returns (a: Bytes, rest: Bytes)
    requires b in text
    ensures text == a + [b] + rest && b !in a
  {
    var i := 0;
    while text[i] != b
      invariant 0 <= i < |text| && b !in text[..i] && b in text[i..]
      decreases |text| - i
    {
      i := i + 1;
    }
    a, rest := text[..i], text[i + 1..];
  }

  lemma {:induction false} SameEnd(text: Bytes)
    ensures EndPosition(OnTheWire(text)) == EndPosition(text)
    decreases |text|
  {
    SameAscii(text, LF);
    if LF in text {
      var line, rest := SplitAt(text, LF);
      SameAscii(line, LF);
      WireSplits(line, LF, rest, text);
      EndAfterNewline(line, rest, text);
      EndAfterNewline(OnTheWire(line), OnTheWire(rest), OnTheWire(text));
      SameEnd(rest);
    } else {
      SplitOneLine(text);
      SplitOneLine(OnTheWire(text));
      SameUnits(text);
    }
  }

  lemma SameStart(text: Bytes, b: Byte)
    requires b < 0x80
    ensures OnTheWire(text) == [] <==> text == []
    ensures text != [] ==> (OnTheWire(text)[0] == b <==> text[0] == b)
  {
  }

  lemma {:induction false} SameReturns(text: Bytes)
    ensures NoLoneReturn(OnTheWire(text)) <==> NoLoneReturn(text)
    decreases |text|
  {
    SameAscii(text, CR);
    if CR in text {
      var a, rest := SplitAt(text, CR);
      SameAscii(a, CR);
      WireSplits(a, CR, rest, text);
      FirstReturn(a, rest, text);
      FirstReturn(OnTheWire(a), OnTheWire(rest), OnTheWire(text));
      SameStart(rest, LF);
      SameReturns(rest);
    } else {
      assert forall i :: 0 <= i < |text| ==> text[i] in text;
      assert forall i :: 0 <= i < |OnTheWire(text)| ==> OnTheWire(text)[i] in OnTheWire(text);
    }
  }

  /** The end position of the text on disk, resolved by the server in the text it was sent, is that
      text's end exactly when no return stands alone. */
  lemma EndOnTheWireIff(text: Bytes)
    ensures Resolve(OnTheWire(text), EndPosition(text)) <= |OnTheWire(text)|
    ensures Resolve(OnTheWire(text), EndPosition(text)) == |OnTheWire(text)| <==> NoLoneReturn(text)
  {
    SameEnd(text);
    SameReturns(text);
    EndIsTheEndIff(OnTheWire(text));
  }

  // ---- A document that goes on ------------------------------------------------------------------------

  lemma {:induction false} WireIsNoShorter(text: Bytes)
    ensures |OnTheWire(text)| >= |text|
    decreases |text|
  {
    if text != [] {
      var c, w := WireStep(text);
      WireIsNoShorter(text[w..]);
    }
  }

  /** What follows an ASCII byte in a text that travels as it is does too. */
  lemma RestArrives(a: Bytes, b: Byte, rest: Bytes, text: Bytes)
    requires b < 0x80 && text == a + [b] + rest && OnTheWire(text) == text
    ensures OnTheWire(rest) == rest
  {
    WireSplits(a, b, rest, text);
    WireIsNoShorter(a);
    WireIsNoShorter(rest);
    assert text[|a| + 1..] == rest;
    assert OnTheWire(text)[|OnTheWire(a)| + 1..] == OnTheWire(rest);
  }

  lemma {:induction false} ResolvesWithin(text: Bytes, p: Position)
    ensures Resolve(text, p) <= |text|
    decreases |text|
  {
    if LineBreak(text) == |text| {
      ResolvesOnOneLine(text, p);
    } else {
      var line, brk, rest := Break(text);
      ResolvePast(text, p, line, brk, rest);
      OffsetWithin(line, p.character);
      if p.line > 0 {
        ResolvesWithin(rest, Position(p.line - 1, p.character));
      }
    }
  }

  lemma ResolvesOnOneLine(text: Bytes, p: Position)
    requires LineBreak(text) == |text|
    ensures Resolve(text, p) <= |text|
  {
    OffsetWithin(text[..|text|], p.character);
  }

  lemma NewlineIsNotBefore(line: Bytes, behind: Bytes, text: Bytes, k: nat)
    requires text == line + behind && LF !in line && k < |text| && text[k] == LF
    ensures k >= |line|
  {
  }

  /** The first break of a document that starts with a, when a has a newline, lies within a. */
  lemma BreakInPrefix(a: Bytes, text: Bytes, line: Bytes, brk: Bytes, rest: Bytes) returns (b: Bytes)
    requires a <= text && LF in a && Broken(text, line, brk, rest)
    ensures Broken(a, line, brk, b) && b <= rest
  {
    var n := |line| + |brk|;
    var k :| 0 <= k < |a| && a[k] == LF;
    assert text == line + (brk + rest);
    NewlineIsNotBefore(line, brk + rest, text, k);
    assert text[|line|] == brk[0];
    b := a[n..];
    assert a[..n] == text[..n] == line + brk;
    assert b != [] ==> b[0] == rest[0];
  }

  lemma BrokenRestArrives(a: Bytes, line: Bytes, brk: Bytes, b: Bytes)
    requires Broken(a, line, brk, b) && OnTheWire(a) == a
    ensures OnTheWire(b) == b
  {
    if brk == [CR, LF] {
      assert a == (line + [CR]) + [LF] + b;
      RestArrives(line + [CR], LF, b, a);
    } else {
      RestArrives(line, brk[0], b, a);
    }
  }

  lemma {:induction false} ShortOfPrefix(a: Bytes, text: Bytes, p: Position)
    requires a <= text && p.line < EndPosition(a).line
    ensures Resolve(text, p) <= |a|
    decreases |text|
  {
    if LF !in a {
      SplitOneLine(a);
    } else {
      NewlineBreaks(a, text);
      var line, brk, rest := Break(text);
      var b := BreakInPrefix(a, text, line, brk, rest);
      BreaksCount(a, line, brk, b);
      ResolvePast(text, p, line, brk, rest);
      OffsetWithin(line, p.character);
      if p.line > 0 {
        ShortOfPrefix(b, rest, Position(p.line - 1, p.character));
      }
    }
  }

  lemma NewlineBreaks(a: Bytes, text: Bytes)
    requires a <= text && LF in a
    ensures LineBreak(text) < |text|
  {
  }

  /** In a document that goes on past a, the end position of a is not past a. */
  lemma {:induction false} EndOfPrefix(a: Bytes, text: Bytes)
    requires a <= text && OnTheWire(a) == a
    ensures Resolve(text, EndPosition(a)) <= |a|
    decreases |text|
  {
    if LF !in a {
      LastLineOfPrefix(a, text);
    } else {
      NewlineBreaks(a, text);
      var line, brk, rest := Break(text);
      var b := BreakInPrefix(a, text, line, brk, rest);
      BreaksCount(a, line, brk, b);
      BrokenRestArrives(a, line, brk, b);
      EndOfPrefix(b, rest);
      EndOfBrokenPrefix(a, EndPosition(a), text, line, brk, b, EndPosition(b), rest);
    }
  }

  lemma EndOfBrokenPrefix(a: Bytes, p: Position, text: Bytes, line: Bytes, brk: Bytes, b: Bytes, q: Position,
                          rest: Bytes)
    requires FirstBreak(text, line, brk, rest)
    requires |a| == |line| + |brk| + |b| && b <= rest && q == EndPosition(b)
    requires if brk == [CR] then p.line == q.line else p == Position(q.line + 1, q.character)
    requires Resolve(rest, q) <= |b|
    ensures Resolve(text, p) <= |a|
  {
    ResolvePast(text, p, line, brk, rest);
    OffsetWithin(line, p.character);
    if p.line > 0 && brk == [CR] {
      ShortOfPrefix(b, rest, Position(p.line - 1, p.character));
    }
  }

  lemma LastLineOfPrefix(a: Bytes, text: Bytes)
    requires a <= text && OnTheWire(a) == a && LF !in a
    ensures Resolve(text, EndPosition(a)) <= |a|
  {
    SplitOneLine(a);
    var e, u := LineBreak(text), Units(Chars(a));
    OffsetWithin(text[..e], u);
    if e > |a| {
      ArrivesAsIsIff(a);
      var scalars :| a == Utf8Text(scalars);
      WellFormedIsNotTruncated(scalars);
      assert text[..e] == a + text[|a|..e];
      PrefixDecides(a, text[|a|..e], u);
      OffsetWithin(a, u);
    }
  }
}
