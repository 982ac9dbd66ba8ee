/** Replacing several ranges of a text at once, and why doing it one range at a time from the end
    comes to the same. */
module Substitution {
  import opened Order

  /** Ranges by where they start: where they end, and the text to put there. */
  type Ranges = map<nat, (nat, Bytes)>

  ghost predicate Fits(ranges: Ranges, length: nat) {
    && (forall s :: s in ranges ==> s <= ranges[s].0 <= length)
    && (forall s, t :: s in ranges && t in ranges && s < t ==> ranges[s].0 <= t)
  }

  /** The text from i on with every range replaced, read off left to right. */
  function Substitute(text: Bytes, ranges: Ranges, i: nat): Bytes
    decreases |text| - i
  {
    if i >= |text| then (if i in ranges then ranges[i].1 else [])
    else if i !in ranges then [text[i]] + Substitute(text, ranges, i + 1)
    else if ranges[i].0 > i then ranges[i].1 + Substitute(text, ranges, ranges[i].0)
    else ranges[i].1 + [text[i]] + Substitute(text, ranges, i + 1)
  }

  function ReplaceRange(text: Bytes, start: nat, end: nat, with: Bytes): Bytes
    requires start <= end <= |text|
  {
    text[..start] + with + text[end..]
  }

  /** Up to the next range, the text is copied. */
  lemma {:induction false} CopiedUpTo(text: Bytes, ranges: Ranges, i: nat, j: nat)
    requires i <= j <= |text|
    requires forall s :: i <= s < j ==> s !in ranges
    ensures Substitute(text, ranges, i) == text[i..j] + Substitute(text, ranges, j)
    decreases j - i
  {
    if i < j {
      CopiedUpTo(text, ranges, i + 1, j);
      assert text[i..j] == [text[i]] + text[i + 1..j];
    } else {
      assert text[i..j] == [];
    }
  }

  /** A range that starts before i has no say from i on. */
  lemma {:induction false} EarlierRangesDoNotMatter(text: Bytes, a: Ranges, b: Ranges, i: nat)
    requires forall s :: s >= i ==> (s in a <==> s in b) && (s in a ==> a[s] == b[s])
    ensures Substitute(text, a, i) == Substitute(text, b, i)
    decreases |text| - i
  {
    if i < |text| {
      if i in a && a[i].0 > i {
        EarlierRangesDoNotMatter(text, a, b, a[i].0);
      } else {
        EarlierRangesDoNotMatter(text, a, b, i + 1);
      }
    }
  }

  lemma Around(text: Bytes, next: nat, behind: Bytes, start: nat, end: nat, done: Bytes)
    requires start <= end <= next <= |text| && done == text[..next] + behind
    ensures end <= |done| && done[..start] == text[..start] && done[end..] == text[end..next] + behind
  {
  }

  /** Reading on from the start of one more range, which ends before all the others start. */
  lemma FromOneMoreRange(text: Bytes, ranges: Ranges, start: nat, end: nat, with: Bytes)
    requires start <= end <= |text| && forall s :: s in ranges ==> s >= end && s > start
    ensures Substitute(text, ranges[start := (end, with)], start) == with + Substitute(text, ranges, end)
  {
    var more := ranges[start := (end, with)];
    if end > start {
      EarlierRangesDoNotMatter(text, more, ranges, end);
    } else if start < |text| {
      EarlierRangesDoNotMatter(text, more, ranges, start + 1);
      Associates(with, [text[start]], Substitute(text, ranges, start + 1));
    }
  }

  /** Given the later ranges already replaced, replacing one more that ends before they start. */
  lemma OneMoreRange(text: Bytes, ranges: Ranges, next: nat, start: nat, end: nat, with: Bytes, done: Bytes)
    requires start <= end <= next <= |text|
    requires forall s :: s in ranges ==> s >= next && s > start
    requires done == text[..next] + Substitute(text, ranges, next)
    ensures ReplaceRange(done, start, end, with)
         == text[..start] + Substitute(text, ranges[start := (end, with)], start)
  {
    CopiedUpTo(text, ranges, end, next);
    Around(text, next, Substitute(text, ranges, next), start, end, done);
    FromOneMoreRange(text, ranges, start, end, with);
    Associates(text[..start], with, done[end..]);
  }

  /** Nothing replaced yet. */
  lemma NothingReplaced(text: Bytes)
    ensures text == text[..|text|] + Substitute(text, map[], |text|)
  {
  }

  /** Everything before the first range is copied. */
  lemma FromTheStart(text: Bytes, ranges: Ranges, first: nat)
    requires first <= |text| && forall s :: s in ranges ==> s >= first
    ensures Substitute(text, ranges, 0) == text[..first] + Substitute(text, ranges, first)
  {
    CopiedUpTo(text, ranges, 0, first);
    assert text[0..first] == text[..first];
  }

  lemma NoRanges(text: Bytes)
    ensures Substitute(text, map[], 0) == text
  {
    CopiedUpTo(text, map[], 0, |text|);
    assert text[0..] + [] == text;
  }

  /** Past the last range, the text is copied to its end. */
  lemma Copied(text: Bytes, ranges: Ranges, i: nat)
    requires i <= |text| && forall s :: s in ranges ==> s < i
    ensures Substitute(text, ranges, i) == text[i..]
  {
    CopiedUpTo(text, ranges, i, |text|);
    assert text[i..|text|] + [] == text[i..];
  }

  /** What follows the ranges stays behind them. */
  lemma {:induction false} TextBehind(text: Bytes, behind: Bytes, whole: Bytes, ranges: Ranges, i: nat)
    requires Fits(ranges, |text|) && i <= |text| && whole == text + behind
    ensures Substitute(whole, ranges, i) == Substitute(text, ranges, i) + behind
    decreases |text| - i
  {
    if i < |text| {
      assert whole[i] == text[i];
      var head := if i !in ranges then [text[i]] else if ranges[i].0 > i then ranges[i].1 else ranges[i].1 + [text[i]];
      var next := if i in ranges && ranges[i].0 > i then ranges[i].0 else i + 1;
      TextBehind(text, behind, whole, ranges, next);
      assert Substitute(text, ranges, i) == head + Substitute(text, ranges, next);
      assert Substitute(whole, ranges, i) == head + Substitute(whole, ranges, next);
      Associates(head, Substitute(text, ranges, next), behind);
    } else {
      AtTheEnd(text, behind, whole, ranges);
    }
  }

  lemma AtTheEnd(text: Bytes, behind: Bytes, whole: Bytes, ranges: Ranges)
    requires Fits(ranges, |text|) && whole == text + behind
    ensures Substitute(whole, ranges, |text|) == Substitute(text, ranges, |text|) + behind
  {
    var i := |text|;
    var with := if i in ranges then ranges[i].1 else [];
    assert Substitute(text, ranges, i) == with;
    if behind == [] {
      assert whole == text && with + behind == with;
    } else {
      Copied(whole, ranges, i + 1);
      assert behind == [whole[i]] + whole[i + 1..];
      Associates(with, [whole[i]], whole[i + 1..]);
    }
  }
}
