/** Byte offsets and UTF-16 columns: the conversion every position to or from a language server
    goes through. */
module Utf16 {
  import opened Order

  const RUNE_ERROR := 0xFFFD

  predicate IsContinuation(b: int) {
    0x80 <= b < 0xC0
  }

  /** The code point and width of the first character, as utf8.DecodeRuneInString gives them: an
      ill-formed start is (RUNE_ERROR, 1), an empty string (RUNE_ERROR, 0). Overlong forms,
      surrogates and values past 0x10FFFF are ill-formed. */
  function DecodeRune(s: Bytes): (r: (int, nat))
    ensures r.1 <= |s| && (s != [] ==> 1 <= r.1 <= 4)
    ensures 0 <= r.0 <= 0x10FFFF
  {
    if s == [] then (RUNE_ERROR, 0) else
    var b0: int := s[0];
    var b1: int := if |s| >= 2 then s[1] else 0;
    var b2: int := if |s| >= 3 then s[2] else 0;
    var b3: int := if |s| >= 4 then s[3] else 0;
    if b0 < 0x80 then (b0, 1)
    else if b0 < 0xC2 then (RUNE_ERROR, 1)
    else if b0 < 0xE0 then
      if IsContinuation(b1) then ((b0 - 0xC0) * 64 + (b1 - 0x80), 2) else (RUNE_ERROR, 1)
    else if b0 < 0xF0 then
      if (if b0 == 0xE0 then 0xA0 else 0x80) <= b1 <= (if b0 == 0xED then 0x9F else 0xBF) && IsContinuation(b2)
      then ((b0 - 0xE0) * 4096 + (b1 - 0x80) * 64 + (b2 - 0x80), 3) else (RUNE_ERROR, 1)
    else if b0 < 0xF5 then
      if (if b0 == 0xF0 then 0x90 else 0x80) <= b1 <= (if b0 == 0xF4 then 0x8F else 0xBF)
        && IsContinuation(b2) && IsContinuation(b3)
      then ((b0 - 0xF0) * 262144 + (b1 - 0x80) * 4096 + (b2 - 0x80) * 64 + (b3 - 0x80), 4) else (RUNE_ERROR, 1)
    else (RUNE_ERROR, 1)
  }

  /** What a character counts for: its bytes and its UTF-16 units. An ill-formed byte is one of each. */
  datatype CharSize = CharSize(width: nat, units: nat)

  type Char = c: CharSize | 1 <= c.width <= 4 && 1 <= c.units <= 2 witness CharSize(1, 1)

  function First(line: Bytes): (c: Char)
    requires line != []
    ensures c.width <= |line|
  {
    var (r, size) := DecodeRune(line);
    CharSize(size, if r >= 0x10000 then 2 else 1)
  }

  function Chars(line: Bytes): seq<Char>
    decreases |line|
  {
    if line == [] then [] else [First(line)] + Chars(line[First(line).width..])
  }

  function Width(chars: seq<Char>): nat {
    if chars == [] then 0 else chars[0].width + Width(chars[1..])
  }

  function Units(chars: seq<Char>): nat {
    if chars == [] then 0 else chars[0].units + Units(chars[1..])
  }

  lemma {:induction false} CharsCoverTheLine(line: Bytes)
    ensures Width(Chars(line)) == |line|
    decreases |line|
  {
    if line != [] {
      CharsCoverTheLine(line[First(line).width..]);
      assert Chars(line)[1..] == Chars(line[First(line).width..]);
    }
  }

  /** i is where a character starts, or the end. */
  predicate Boundary(chars: seq<Char>, i: nat) {
    i == 0 || (chars != [] && chars[0].width <= i && Boundary(chars[1..], i - chars[0].width))
  }

  /** UTF-16 units of the characters that start before byte offset i. */
  function UnitsBefore(chars: seq<Char>, i: int): nat {
    if i <= 0 || chars == [] then 0 else chars[0].units + UnitsBefore(chars[1..], i - chars[0].width)
  }

  /** The first boundary with at least u units before it, or the end. */
  function OffsetOf(chars: seq<Char>, u: int): nat {
    if u <= 0 || chars == [] then 0 else chars[0].width + OffsetOf(chars[1..], u - chars[0].units)
  }

  // ---- The loops ----------------------------------------------------------------------------------

  /** chars are the characters of the line from index on. */
  predicate CharsFrom(line: Bytes, index: nat, chars: seq<Char>)
    decreases chars
  {
    if index >= |line| then index == |line| && chars == []
    else chars != [] && chars[0] == First(line[index..]) && CharsFrom(line, index + chars[0].width, chars[1..])
  }

  lemma {:induction false} CharsAreFrom(line: Bytes, index: nat)
    requires index <= |line|
    ensures CharsFrom(line, index, Chars(line[index..]))
    decreases |line| - index
  {
    if index < |line| {
      var w := First(line[index..]).width;
      assert line[index..][w..] == line[index + w..];
      CharsAreFrom(line, index + w);
    }
  }

  /** One character of either loop. */
  method NextChar(line: Bytes, index: nat, ghost chars: seq<Char>) returns (width: nat, units: nat)
    requires index < |line| && CharsFrom(line, index, chars)
    ensures chars != [] && chars[0] == CharSize(width, units) && width <= |line| - index
    ensures CharsFrom(line, index + width, chars[1..])
  {
    var (r, size) := DecodeRune(line[index..]);
    if r == RUNE_ERROR && size <= 1 {
      width, units := 1, 1;
    } else {
      width, units := size, if r >= 0x10000 then 2 else 1;
    }
  }

  method CountUnits(line: Bytes, offset: nat, ghost chars: seq<Char>) returns (units: nat)
    requires CharsFrom(line, 0, chars) && offset <= |line|
    ensures units == UnitsBefore(chars, offset)
  {
    units := 0;
    var index: nat := 0;
    ghost var rest := chars;
    while index < offset
      invariant 0 <= index <= |line| && CharsFrom(line, index, rest)
      invariant units + UnitsBefore(rest, offset - index) == UnitsBefore(chars, offset)
    {
      units, index, rest := CountNext(line, index, units, rest, offset);
    }
  }

  /** One turn of the loop above: a character counted. */
  method CountNext(line: Bytes, index: nat, units: nat, ghost rest: seq<Char>, ghost offset: nat)
    returns (units': nat, index': nat, ghost rest': seq<Char>)
    requires index < |line| && index < offset && CharsFrom(line, index, rest)
    ensures index < index' <= |line| && CharsFrom(line, index', rest')
    ensures units' + UnitsBefore(rest', offset - index') == units + UnitsBefore(rest, offset - index)
  {
    var width, more := NextChar(line, index, rest);
    units', index', rest' := units + more, index + width, rest[1..];
  }

  method FindOffset(line: Bytes, utf16Offset: int, ghost chars: seq<Char>) returns (index: nat)
    requires CharsFrom(line, 0, chars)
    ensures index == OffsetOf(chars, utf16Offset)
  {
    var units: nat := 0;
    index := 0;
    ghost var rest := chars;
    while index < |line| && units < utf16Offset
      invariant 0 <= index <= |line| && CharsFrom(line, index, rest)
      invariant index + OffsetOf(rest, utf16Offset - units) == OffsetOf(chars, utf16Offset)
    {
      units, index, rest := FindNext(line, index, units, rest, utf16Offset);
    }
  }

  method FindNext(line: Bytes, index: nat, units: nat, ghost rest: seq<Char>, ghost utf16Offset: int)
    returns (units': nat, index': nat, ghost rest': seq<Char>)
    requires index < |line| && units < utf16Offset && CharsFrom(line, index, rest)
    ensures index < index' <= |line| && CharsFrom(line, index', rest')
    ensures index' + OffsetOf(rest', utf16Offset - units') == index + OffsetOf(rest, utf16Offset - units)
  {
    var width, more := NextChar(line, index, rest);
    units', index', rest' := units + more, index + width, rest[1..];
  }

  /** Converts a 1-based byte column into a 0-based UTF-16 column. */
  method Utf16Column(line: Bytes, byteColumn: int) returns (units: nat)
    ensures units == UnitsBefore(Chars(line), byteColumn - 1)
  {
    if byteColumn <= 1 {
      return 0;
    }
    var offset := byteColumn - 1;
    ghost var chars := Chars(line);
    assert line[0..] == line;
    CharsAreFrom(line, 0);
    if offset > |line| {
      CharsCoverTheLine(line);
      Clamped(chars, offset);
      Clamped(chars, |line|);
      offset := |line|;
    }
    units := CountUnits(line, offset, chars);
  }

  /** Converts a 0-based UTF-16 column back into a 1-based byte column. */
  method ByteColumn(line: Bytes, utf16Offset: int) returns (column: nat)
    ensures column == OffsetOf(Chars(line), utf16Offset) + 1
  {
    assert line[0..] == line;
    CharsAreFrom(line, 0);
    var index := FindOffset(line, utf16Offset, Chars(line));
    column := index + 1;
  }

  /** The 0-based form in which edits are resolved: it never points past the line. */
  method ByteOffsetForColumn(line: Bytes, utf16Offset: int) returns (offset: nat)
    ensures offset == OffsetOf(Chars(line), utf16Offset) <= |line|
  {
    OffsetWithin(line, utf16Offset);
    var column := ByteColumn(line, utf16Offset);
    offset := column - 1;
  }

  // ---- The two conversions are inverse ------------------------------------------------------------

  lemma {:induction false} Clamped(chars: seq<Char>, i: int)
    requires i >= Width(chars)
    ensures UnitsBefore(chars, i) == Units(chars)
  {
    if chars != [] {
      Clamped(chars[1..], i - chars[0].width);
    }
  }

  /** Byte to column and back, at every boundary of every line, well-formed or not. */
  lemma {:induction false} OffsetInvertsUnits(chars: seq<Char>, i: nat)
    requires Boundary(chars, i)
    ensures OffsetOf(chars, UnitsBefore(chars, i)) == i
  {
    if i > 0 {
      OffsetInvertsUnits(chars[1..], i - chars[0].width);
    }
  }

  lemma {:induction false} BoundaryIsWithin(chars: seq<Char>, i: nat)
    requires Boundary(chars, i)
    ensures i <= Width(chars) && UnitsBefore(chars, i) <= Units(chars)
  {
    if i > 0 {
      BoundaryIsWithin(chars[1..], i - chars[0].width);
    }
  }

  lemma {:induction false} OffsetIsBoundary(chars: seq<Char>, u: int)
    ensures Boundary(chars, OffsetOf(chars, u)) && OffsetOf(chars, u) <= Width(chars)
    ensures u >= Units(chars) ==> OffsetOf(chars, u) == Width(chars)
  {
    if chars != [] && u > 0 {
      OffsetIsBoundary(chars[1..], u - chars[0].units);
    }
  }

  /** Column to byte and back: exact, or one more when the column points between the two halves of a
      surrogate pair, which is to say when no boundary has exactly u units before it. */
  lemma {:induction false} UnitsInvertOffset(chars: seq<Char>, u: nat)
    requires u <= Units(chars)
    ensures u <= UnitsBefore(chars, OffsetOf(chars, u)) <= u + 1
    ensures UnitsBefore(chars, OffsetOf(chars, u)) == u <==>
              exists i: nat :: Boundary(chars, i) && UnitsBefore(chars, i) == u
  {
    OffsetIsBoundary(chars, u);
    if i: nat :| Boundary(chars, i) && UnitsBefore(chars, i) == u {
      OffsetInvertsUnits(chars, i);
    }
    if u > 0 {
      var rest := chars[1..];
      if u >= chars[0].units {
        UnitsInvertOffset(rest, u - chars[0].units);
      }
    }
  }

  /** A boundary lies at or past a column's offset exactly when the column is at most the boundary's
      units: the two conversions are adjoint, hence both monotone. */
  lemma {:induction false} OffsetAgainstUnits(chars: seq<Char>, u: int, i: nat)
    requires Boundary(chars, i) && u <= Units(chars)
    ensures OffsetOf(chars, u) <= i <==> u <= UnitsBefore(chars, i)
  {
    if u > 0 && i > 0 {
      OffsetAgainstUnits(chars[1..], u - chars[0].units, i - chars[0].width);
    }
  }

  lemma {:induction false} UnitsMonotone(chars: seq<Char>, i: int, j: int)
    requires i <= j
    ensures UnitsBefore(chars, i) <= UnitsBefore(chars, j)
  {
    if i > 0 && chars != [] {
      UnitsMonotone(chars[1..], i - chars[0].width, j - chars[0].width);
    }
  }

  lemma {:induction false} OffsetMonotone(chars: seq<Char>, u: int, v: int)
    requires u <= v
    ensures OffsetOf(chars, u) <= OffsetOf(chars, v)
  {
    if u > 0 && chars != [] {
      OffsetMonotone(chars[1..], u - chars[0].units, v - chars[0].units);
    }
  }

  lemma {:induction false} Appended(a: seq<Char>, b: seq<Char>, u: int)
    ensures Width(a + b) == Width(a) + Width(b) && Units(a + b) == Units(a) + Units(b)
    ensures Boundary(a + b, Width(a)) && UnitsBefore(a + b, Width(a)) == Units(a)
    ensures u <= Units(a) ==> OffsetOf(a + b, u) == OffsetOf(a, u)
  {
    if a == [] {
      assert a + b == b;
    } else {
      assert (a + b)[1..] == a[1..] + b;
      Appended(a[1..], b, u - a[0].units);
    }
  }

  // ---- Well-formed text, per RFC 3629 and RFC 2781 -------------------------------------------------

  type Scalar = c: int | 0 <= c < 0xD800 || 0xE000 <= c <= 0x10FFFF

  /** RFC 3629 section 3. */
  function Utf8(c: Scalar): Bytes {
    if c < 0x80 then [c]
    else if c < 0x800 then [0xC0 + c / 64, 0x80 + c % 64]
    else if c < 0x10000 then [0xE0 + c / 4096, 0x80 + c / 64 % 64, 0x80 + c % 64]
    else [0xF0 + c / 262144, 0x80 + c / 4096 % 64, 0x80 + c / 64 % 64, 0x80 + c % 64]
  }

  /** RFC 2781 section 2.1. */
  function Utf16(c: Scalar): seq<int> {
    if c < 0x10000 then [c] else [0xD800 + (c - 0x10000) / 1024, 0xDC00 + (c - 0x10000) % 1024]
  }

  function Utf8Text(text: seq<Scalar>): Bytes {
    if text == [] then [] else Utf8(text[0]) + Utf8Text(text[1..])
  }

  function Utf16Text(text: seq<Scalar>): seq<int> {
    if text == [] then [] else Utf16(text[0]) + Utf16Text(text[1..])
  }

  /** Base-64 digits, which is what the bytes of an encoding carry. */
  lemma Digits64(d3: int, d2: int, d1: int, d0: int)
    requires 0 <= d2 < 64 && 0 <= d1 < 64 && 0 <= d0 < 64
    ensures var c := d3 * 262144 + d2 * 4096 + d1 * 64 + d0;
      && c % 64 == d0 && c / 64 % 64 == d1 && c / 4096 % 64 == d2
      && c / 64 == d3 * 4096 + d2 * 64 + d1 && c / 4096 == d3 * 64 + d2 && c / 262144 == d3
  {
    Digit(d3 * 4096 + d2 * 64 + d1, d0);
    Digit(d3 * 64 + d2, d1);
    Digit(d3, d2);
    Shifts(d3 * 262144 + d2 * 4096 + d1 * 64 + d0);
  }

  lemma Digit(q: int, d: int)
    requires 0 <= d < 64
    ensures (q * 64 + d) / 64 == q && (q * 64 + d) % 64 == d
  {
  }

  lemma Shifts(c: int)
    ensures c / 4096 == c / 64 / 64 && c / 262144 == c / 4096 / 64
  {
  }

  /** Decoding undoes encoding, whatever follows. */
  lemma DecodeUndoesEncode(c: Scalar, rest: Bytes)
    ensures DecodeRune(Utf8(c) + rest) == (c, |Utf8(c)|)
  {
    var s, e := Utf8(c) + rest, Utf8(c);
    assert s[0] == e[0];
    if 0x80 <= c < 0x800 {
      assert s[1] == e[1];
    } else if 0x800 <= c < 0x10000 {
      ThreeBytes(c, s);
    } else if c >= 0x10000 {
      FourBytes(c, s);
    }
  }

  lemma ThreeBytes(c: Scalar, s: Bytes)
    requires 0x800 <= c < 0x10000 && Utf8(c) <= s
    ensures DecodeRune(s) == (c, 3)
  {
  }

  lemma FourBytes(c: Scalar, s: Bytes)
    requires c >= 0x10000 && Utf8(c) <= s
    ensures DecodeRune(s) == (c, 4)
  {
    assert c / 64 == c / 4096 * 64 + c / 64 % 64;
    assert c / 4096 == c / 262144 * 64 + c / 4096 % 64;
  }

  /** The line starts with a well-formed character. */
  predicate StartsWell(s: Bytes) {
    s != [] && !(DecodeRune(s).0 == RUNE_ERROR && DecodeRune(s).1 <= 1)
  }

  /** A well-formed start is the encoding of the scalar it decodes to. */
  lemma EncodeUndoesDecode(s: Bytes) returns (c: Scalar)
    requires StartsWell(s)
    ensures c == DecodeRune(s).0 && s[..DecodeRune(s).1] == Utf8(c)
  {
    var w := DecodeRune(s).1;
    c := DecodeRune(s).0;
    if w == 2 {
      Digits64(0, 0, s[0] - 0xC0, s[1] - 0x80);
    } else if w == 3 {
      Digits64(0, s[0] - 0xE0, s[1] - 0x80, s[2] - 0x80);
    } else if w == 4 {
      Digits64(s[0] - 0xF0, s[1] - 0x80, s[2] - 0x80, s[3] - 0x80);
    }
    assert |Utf8(c)| == w;
  }

  /** Each character is one CharSize: its bytes in UTF-8, its units in UTF-16. */
  function Sizes(text: seq<Scalar>): seq<Char> {
    if text == [] then [] else [CharSize(|Utf8(text[0])|, |Utf16(text[0])|)] + Sizes(text[1..])
  }

  lemma FirstOfEncoded(c: Scalar, rest: Bytes, whole: Bytes)
    requires whole == Utf8(c) + rest
    ensures Chars(whole) == [CharSize(|Utf8(c)|, |Utf16(c)|)] + Chars(rest)
  {
    DecodeUndoesEncode(c, rest);
    assert whole[|Utf8(c)|..] == rest;
  }

  lemma {:induction false} SizesMeasure(text: seq<Scalar>)
    ensures Width(Sizes(text)) == |Utf8Text(text)| && Units(Sizes(text)) == |Utf16Text(text)|
  {
    if text != [] {
      assert Sizes(text)[1..] == Sizes(text[1..]);
      SizesMeasure(text[1..]);
    }
  }

  lemma TextDecodes(text: seq<Scalar>, rest: Bytes)
    ensures Chars(Utf8Text(text) + rest) == Sizes(text) + Chars(rest)
    ensures Chars(Utf8Text(text)) == Sizes(text)
  {
    TextThenRest(text, rest, Utf8Text(text) + rest);
    TextItself(text);
  }

  lemma TextItself(text: seq<Scalar>)
    ensures Chars(Utf8Text(text)) == Sizes(text)
  {
    assert Utf8Text(text) == Utf8Text(text) + [];
    TextThenRest(text, [], Utf8Text(text));
    assert Sizes(text) + Chars([]) == Sizes(text);
  }

  lemma {:induction false} TextThenRest(text: seq<Scalar>, rest: Bytes, whole: Bytes)
    requires whole == Utf8Text(text) + rest
    ensures Chars(whole) == Sizes(text) + Chars(rest)
  {
    if text == [] {
      assert whole == rest;
    } else {
      var first, behind := Utf8(text[0]), Utf8Text(text[1..]);
      TextThenRest(text[1..], rest, behind + rest);
      Associates(first, behind, rest);
      FirstOfEncoded(text[0], behind + rest, whole);
      Associates([CharSize(|Utf8(text[0])|, |Utf16(text[0])|)], Sizes(text[1..]), Chars(rest));
    }
  }

  lemma {:induction false} TextAppends(a: seq<Scalar>, b: seq<Scalar>)
    ensures Utf8Text(a + b) == Utf8Text(a) + Utf8Text(b)
  {
    if a == [] {
      assert a + b == b;
    } else {
      assert (a + b)[0] == a[0] && (a + b)[1..] == a[1..] + b;
      TextAppends(a[1..], b);
    }
  }

  /** In a well-formed line the column of a character is the number of UTF-16 units that encode the
      characters before it, and its offset the number of bytes that do. */
  lemma ColumnsCountUtf16(before: seq<Scalar>, after: seq<Scalar>)
    ensures var chars, i := Chars(Utf8Text(before + after)), |Utf8Text(before)|;
      Boundary(chars, i) && UnitsBefore(chars, i) == |Utf16Text(before)| && OffsetOf(chars, |Utf16Text(before)|) == i
  {
    TextAppends(before, after);
    TextDecodes(before, Utf8Text(after));
    SizesMeasure(before);
    Appended(Sizes(before), Chars(Utf8Text(after)), |Utf16Text(before)|);
    OffsetInvertsUnits(Chars(Utf8Text(before + after)), |Utf8Text(before)|);
  }

  ghost predicate WellFormed(line: Bytes) {
    exists text :: line == Utf8Text(text)
  }

  lemma OffsetWithin(line: Bytes, u: int)
    ensures OffsetOf(Chars(line), u) <= |line|
  {
  }

  // ---- What follows a prefix ----------------------------------------------------------------------------

  /** The start, and no more, of a well-formed character. */
  ghost predicate Unfinished(s: Bytes) {
    exists c: Scalar :: s != [] && |s| < |Utf8(c)| && s == Utf8(c)[..|s|]
  }

  /** Some character boundary is followed only by such a start. */
  ghost predicate Truncated(a: Bytes)
    decreases |a|
  {
    a != [] && (Unfinished(a) || Truncated(a[First(a).width..]))
  }

  lemma Decodes(c: Scalar, s: Bytes)
    requires |Utf8(c)| <= |s| && s[..|Utf8(c)|] == Utf8(c)
    ensures DecodeRune(s) == (c, |Utf8(c)|) && StartsWell(s)
  {
    assert s == Utf8(c) + s[|Utf8(c)|..];
    DecodeUndoesEncode(c, s[|Utf8(c)|..]);
  }

  lemma IllFormedByte(s: Bytes)
    requires s != [] && !StartsWell(s)
    ensures First(s) == CharSize(1, 1)
  {
  }

  /** No well-formed character is the start of another. */
  lemma NoneStartsAnother(s: Bytes, c: Scalar)
    requires StartsWell(s) && |s| <= |Utf8(c)| && s == Utf8(c)[..|s|]
    ensures |s| == |Utf8(c)|
  {
    var w := DecodeRune(s).1;
    var d := EncodeUndoesDecode(s);
    assert Utf8(c)[..w] == s[..w];
    Decodes(d, Utf8(c));
    Decodes(c, Utf8(c));
  }

  lemma UnfinishedIsIllFormed(s: Bytes)
    requires Unfinished(s)
    ensures !StartsWell(s) && First(s) == CharSize(1, 1)
  {
    var c: Scalar :| s != [] && |s| < |Utf8(c)| && s == Utf8(c)[..|s|];
    if StartsWell(s) {
      NoneStartsAnother(s, c);
    } else {
      IllFormedByte(s);
    }
  }

  lemma StartsWithin(a: Bytes, b: Bytes, whole: Bytes)
    requires a != [] && whole == a + b && StartsWell(whole)
    ensures StartsWell(a) || Unfinished(a)
  {
    var w := DecodeRune(whole).1;
    var c := EncodeUndoesDecode(whole);
    if w <= |a| {
      assert a[..w] == whole[..w];
      Decodes(c, a);
    } else {
      assert a == whole[..w][..|a|];
    }
  }

  /** A start that is not unfinished decides its first character. */
  lemma FirstDecided(a: Bytes, b: Bytes, whole: Bytes)
    requires a != [] && !Unfinished(a) && whole == a + b
    ensures First(whole) == First(a)
  {
    if StartsWell(a) {
      var w := DecodeRune(a).1;
      var c := EncodeUndoesDecode(a);
      assert whole[..w] == a[..w];
      Decodes(c, whole);
    } else if StartsWell(whole) {
      StartsWithin(a, b, whole);
    } else {
      IllFormedByte(a);
      IllFormedByte(whole);
    }
  }

  /** A prefix that is not truncated decides all of its characters. */
  lemma {:induction false} CharsDecided(a: Bytes, b: Bytes, whole: Bytes)
    requires !Truncated(a) && whole == a + b
    ensures Chars(whole) == Chars(a) + Chars(b)
    decreases |a|
  {
    if a == [] {
      assert whole == b;
    } else {
      FirstDecided(a, b, whole);
      var w := First(a).width;
      assert whole[w..] == a[w..] + b;
      CharsDecided(a[w..], b, whole[w..]);
      Associates([First(a)], Chars(a[w..]), Chars(b));
    }
  }

  /** Columns inside such a prefix do not depend on what follows it: what lets edits be resolved one by
      one on lines already edited further right. */
  lemma PrefixDecides(a: Bytes, b: Bytes, u: int)
    requires !Truncated(a) && u <= Units(Chars(a))
    ensures OffsetOf(Chars(a + b), u) == OffsetOf(Chars(a), u)
    ensures u <= Units(Chars(a + b))
  {
    CharsDecided(a, b, a + b);
    Appended(Chars(a), Chars(b), u);
  }

  lemma OffsetOfOneMore(c: Char, chars: seq<Char>, u: nat)
    requires u > 0
    ensures OffsetOf([c] + chars, c.units + u) == c.width + OffsetOf(chars, u)
    ensures Units([c] + chars) == c.units + Units(chars)
  {
    assert ([c] + chars)[1..] == chars;
  }

  lemma OneChar(s: Bytes, c: Char)
    requires s != [] && First(s) == c
    ensures OffsetOf(Chars(s), 1) == c.width && Units(Chars(s)) >= 1
  {
    assert Chars(s)[1..] == Chars(s[c.width..]);
  }

  lemma FirstChar(s: Bytes, c: Char, rest: Bytes)
    requires s != [] && First(s) == c && s[c.width..] == rest
    ensures Chars(s) == [c] + Chars(rest)
  {
  }

  lemma UnfinishedDoesNotDecide(a: Bytes) returns (b: Bytes)
    requires Unfinished(a)
    ensures 1 <= Units(Chars(a)) && OffsetOf(Chars(a + b), 1) != OffsetOf(Chars(a), 1)
  {
    var c: Scalar :| a != [] && |a| < |Utf8(c)| && a == Utf8(c)[..|a|];
    b := Utf8(c)[|a|..];
    var whole := a + b;
    assert whole == Utf8(c) && whole[..|Utf8(c)|] == Utf8(c);
    Decodes(c, whole);
    UnfinishedIsIllFormed(a);
    OneChar(a, First(a));
    OneChar(whole, First(whole));
  }

  /** A truncated one does not: its character may be finished by what follows. */
  lemma {:induction false} TruncatedDoesNotDecide(a: Bytes) returns (b: Bytes, u: nat)
    requires Truncated(a)
    ensures 0 < u <= Units(Chars(a)) && OffsetOf(Chars(a + b), u) != OffsetOf(Chars(a), u)
    decreases |a|
  {
    if Unfinished(a) {
      u := 1;
      b := UnfinishedDoesNotDecide(a);
    } else {
      var first, rest := First(a), a[First(a).width..];
      var v;
      b, v := TruncatedDoesNotDecide(rest);
      FirstDecided(a, b, a + b);
      u := first.units + v;
      FirstChar(a, first, rest);
      CharsOfMore(a, b, first, rest);
      OneCharFurther(first, Chars(rest), Chars(rest + b), v);
    }
  }

  lemma CharsOfMore(a: Bytes, b: Bytes, first: Char, rest: Bytes)
    requires a != [] && first.width <= |a| && First(a + b) == first && a[first.width..] == rest
    ensures Chars(a + b) == [first] + Chars(rest + b)
  {
    assert (a + b)[first.width..] == rest + b;
    FirstChar(a + b, first, rest + b);
  }

  lemma OneCharFurther(first: Char, chars: seq<Char>, other: seq<Char>, v: nat)
    requires 0 < v <= Units(chars) && OffsetOf(other, v) != OffsetOf(chars, v)
    ensures first.units + v <= Units([first] + chars)
    ensures OffsetOf([first] + other, first.units + v) != OffsetOf([first] + chars, first.units + v)
  {
    OffsetOfOneMore(first, chars, v);
    OffsetOfOneMore(first, other, v);
  }

  /** Exactly the prefixes that are not truncated decide their columns. */
  lemma PrefixDecidesIff(a: Bytes)
    ensures !Truncated(a) <==>
            forall b: Bytes, u: int :: u <= Units(Chars(a)) ==> OffsetOf(Chars(a + b), u) == OffsetOf(Chars(a), u)
  {
    if Truncated(a) {
      var b, u := TruncatedDoesNotDecide(a);
    } else {
      forall b: Bytes, u: int | u <= Units(Chars(a)) ensures OffsetOf(Chars(a + b), u) == OffsetOf(Chars(a), u) {
        PrefixDecides(a, b, u);
      }
    }
  }

  /** Valid UTF-8 is not truncated. */
  lemma {:induction false} WellFormedIsNotTruncated(text: seq<Scalar>)
    ensures !Truncated(Utf8Text(text))
  {
    if text != [] {
      var s, c := Utf8Text(text), text[0];
      assert s[..|Utf8(c)|] == Utf8(c) && s[|Utf8(c)|..] == Utf8Text(text[1..]);
      Decodes(c, s);
      if Unfinished(s) {
        UnfinishedIsIllFormed(s);
      }
      WellFormedIsNotTruncated(text[1..]);
    }
  }

  /** A column whose offset is where a prefix ends is one of the prefix's. */
  lemma {:induction false} ColumnOfPrefix(a: seq<Char>, b: seq<Char>, u: int)
    requires u <= Units(a + b) && OffsetOf(a + b, u) == Width(a)
    ensures u <= Units(a)
  {
    if a == [] {
      assert a + b == b;
    } else if u > 0 {
      assert (a + b)[1..] == a[1..] + b;
      ColumnOfPrefix(a[1..], b, u - a[0].units);
    }
  }

  /** A column past what a prefix holds resolves to the prefix's end exactly when nothing follows it. */
  lemma PastPrefixIff(a: Bytes, b: Bytes, u: int)
    requires !Truncated(a) && u > Units(Chars(a))
    ensures OffsetOf(Chars(a + b), u) == |a| <==> b == []
  {
    CharsDecided(a, b, a + b);
    CharsCoverTheLine(a);
    CharsCoverTheLine(a + b);
    if u > Units(Chars(a + b)) {
      PastTheEnd(Chars(a + b), u);
    } else if OffsetOf(Chars(a + b), u) == |a| {
      ColumnOfPrefix(Chars(a), Chars(b), u);
    } else {
      assert b == [] ==> a + b == a;
    }
  }

  lemma {:induction false} PastTheEnd(chars: seq<Char>, u: int)
    requires u > Units(chars)
    ensures OffsetOf(chars, u) == Width(chars)
  {
    if chars != [] {
      PastTheEnd(chars[1..], u - chars[0].units);
    }
  }

  /** In ASCII a column is an offset, and one past the end is the end. */
  lemma {:induction false} AsciiOffset(line: Bytes, u: int)
    requires forall b :: b in line ==> b < 0x80
    ensures OffsetOf(Chars(line), u) == if u <= 0 then 0 else if u < |line| then u else |line|
  {
    if line != [] && u > 0 {
      assert line[0] in line && DecodeRune(line) == (line[0], 1);
      FirstChar(line, CharSize(1, 1), line[1..]);
      assert forall b :: b in line[1..] ==> b in line;
      AsciiOffset(line[1..], u - 1);
    }
  }
}
