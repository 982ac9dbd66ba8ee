/** Text as it reaches a language server: valid UTF-8 as it is, each ill-formed byte as U+FFFD, which
    is what encoding a string as JSON makes of it. */
module Wire {
  import opened Order
  import opened Utf16

  const REPLACEMENT: Bytes := [0xEF, 0xBF, 0xBD]

  function OnTheWire(text: Bytes): Bytes
    decreases |text|
  {
    if text == [] then []
    else
      var w := First(text).width;
      (if StartsWell(text) then text[..w] else REPLACEMENT) + OnTheWire(text[w..])
  }

  /** An ASCII byte ends whatever character comes before it. */
  lemma AsciiEnds(s: Bytes, b: Byte, rest: Bytes, whole: Bytes)
    requires s != [] && b < 0x80 && whole == s + [b] + rest
    ensures DecodeRune(whole) == DecodeRune(s)
  {
  }

  lemma AsciiStarts(b: Byte, rest: Bytes, whole: Bytes)
    requires b < 0x80 && whole == [b] + rest
    ensures OnTheWire(whole) == [b] + OnTheWire(rest) && Chars(whole) == [CharSize(1, 1)] + Chars(rest)
  {
  }

  lemma {:induction false} WireSplits(a: Bytes, b: Byte, rest: Bytes, whole: Bytes)
    requires b < 0x80 && whole == a + [b] + rest
    ensures OnTheWire(whole) == OnTheWire(a) + [b] + OnTheWire(rest)
    decreases |a|
  {
    if a == [] {
      AsciiStarts(b, rest, whole);
    } else {
      assert whole == a + ([b] + rest);
      AsciiEnds(a, b, rest, whole);
      var w := First(a).width;
      var c := if StartsWell(a) then a[..w] else REPLACEMENT;
      Dropped(a, w, [b] + rest, whole);
      assert a[w..] + [b] + rest == a[w..] + ([b] + rest);
      WireSplits(a[w..], b, rest, whole[w..]);
      Associates(c, OnTheWire(a[w..]) + [b], OnTheWire(rest));
      Associates(c, OnTheWire(a[w..]), [b]);
    }
  }

  lemma Dropped(a: Bytes, w: nat, behind: Bytes, whole: Bytes)
    requires w <= |a| && whole == a + behind
    ensures whole[..w] == a[..w] && whole[w..] == a[w..] + behind
  {
  }

  /** What one character becomes: itself, or the replacement. */
  lemma WireStep(text: Bytes) returns (c: Scalar, w: nat)
    requires text != []
    ensures 1 <= w <= |text| && w == First(text).width
    ensures OnTheWire(text) == Utf8(c) + OnTheWire(text[w..])
    ensures First(text).units == |Utf16.Utf16(c)|
    ensures StartsWell(text) ==> text[..w] == Utf8(c)
    ensures !StartsWell(text) ==> w == 1 && text[0] >= 0x80 && Utf8(c) == REPLACEMENT
  {
    w := First(text).width;
    if StartsWell(text) {
      c := EncodeUndoesDecode(text);
    } else {
      c := RUNE_ERROR;
      assert Utf8(RUNE_ERROR) == REPLACEMENT;
    }
  }

  /** Columns are the same on both sides. */
  lemma {:induction false} SameUnits(text: Bytes)
    ensures Units(Chars(OnTheWire(text))) == Units(Chars(text))
    decreases |text|
  {
    if text != [] {
      var c, w := WireStep(text);
      FirstOfEncoded(c, OnTheWire(text[w..]), OnTheWire(text));
      SameUnits(text[w..]);
      UnitsCons(CharSize(|Utf8(c)|, |Utf16.Utf16(c)|), Chars(OnTheWire(text[w..])));
      UnitsCons(First(text), Chars(text[w..]));
    }
  }

  lemma UnitsCons(c: Char, chars: seq<Char>)
    ensures Units([c] + chars) == c.units + Units(chars)
  {
  }

  lemma SameAsciiInCharacter(text: Bytes, c: Scalar, w: nat, b: Byte)
    requires 1 <= w <= |text| && b < 0x80
    requires StartsWell(text) ==> text[..w] == Utf8(c)
    requires !StartsWell(text) ==> w == 1 && text[0] >= 0x80 && Utf8(c) == REPLACEMENT
    ensures b in Utf8(c) <==> b in text[..w]
  {
    if !StartsWell(text) {
      assert text[..w] == [text[0]];
    }
  }

  /** The wire neither drops nor adds an ASCII byte. */
  lemma {:induction false} SameAscii(text: Bytes, b: Byte)
    requires b < 0x80
    ensures b in OnTheWire(text) <==> b in text
    decreases |text|
  {
    if text != [] {
      var c, w := WireStep(text);
      SameAscii(text[w..], b);
      SameAsciiInCharacter(text, c, w, b);
      InSplitText(text, w, b);
      InEitherPart(Utf8(c), OnTheWire(text[w..]), OnTheWire(text), b);
    }
  }

  lemma InSplitText(text: Bytes, w: nat, b: Byte)
    requires w <= |text|
    ensures b in text <==> b in text[..w] || b in text[w..]
  {
    assert text == text[..w] + text[w..];
  }

  lemma InEitherPart(a: Bytes, rest: Bytes, whole: Bytes, b: Byte)
    requires whole == a + rest
    ensures b in whole <==> b in a || b in rest
  {
  }

  lemma {:induction false} WireIsWellFormed(text: Bytes) returns (scalars: seq<Scalar>)
    ensures OnTheWire(text) == Utf8Text(scalars)
    decreases |text|
  {
    if text == [] {
      scalars := [];
    } else {
      var c, w := WireStep(text);
      var more := WireIsWellFormed(text[w..]);
      scalars := [c] + more;
    }
  }

  lemma {:induction false} WellFormedTravels(scalars: seq<Scalar>)
    ensures OnTheWire(Utf8Text(scalars)) == Utf8Text(scalars)
  {
    if scalars != [] {
      var c, rest := scalars[0], Utf8Text(scalars[1..]);
      var text := Utf8(c) + rest;
      DecodeUndoesEncode(c, rest);
      assert text[..|Utf8(c)|] == Utf8(c) && text[|Utf8(c)|..] == rest;
      WellFormedTravels(scalars[1..]);
      assert StartsWell(text);
    }
  }

  /** The text that arrives is the text exactly when that is valid UTF-8. */
  lemma ArrivesAsIsIff(text: Bytes)
    ensures OnTheWire(text) == text <==> WellFormed(text)
  {
    var scalars := WireIsWellFormed(text);
    if WellFormed(text) {
      var t :| text == Utf8Text(t);
      WellFormedTravels(t);
    }
  }
}
