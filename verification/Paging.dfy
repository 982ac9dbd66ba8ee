/** Reading a file a page at a time: whole lines up to a byte bound, and where to go on. */
module Paging {
  import opened Order
  import opened Overlay
  import opened Lines
  import opened Workspace

  /** A read as answered. nextLine is 0 when the page reaches through, the end of the request. */
  datatype RangeRead = RangeRead(source: Bytes, start: nat, end: nat, total: nat, clampedEnd: bool, nextLine: nat,
                                 through: nat)

  datatype PageResult = CannotRead | NegativeBound | InvalidRange(total: nat) | Page(read: RangeRead)

  /** The lines a request asks for: an unset bound is 0, an end past the last line is the last line. */
  function First(start: int): int {
    if start == 0 then 1 else start
  }

  function Last(end: int, total: nat): int {
    if end == 0 || end > total then total else end
  }

  predicate InRange(start: int, end: int, total: nat) {
    1 <= First(start) <= Last(end, total) <= total
  }

  /** read is the longest page of the request that fits, or its first line. */
  ghost predicate IsPage(lines: seq<Bytes>, start: int, end: int, maxBytes: int, read: RangeRead) {
    && InRange(start, end, |lines|)
    && read.start == First(start) <= read.end <= read.through == Last(end, |lines|)
    && read.total == |lines| && (read.clampedEnd <==> end > |lines|)
    && read.nextLine == (if read.end < read.through then read.end + 1 else 0)
    && read.source == Join(lines[read.start - 1..read.end], [LF])
    && (read.end > read.start ==> |read.source| + 1 <= maxBytes)
    && (read.end < read.through ==> Size(lines, read.start, read.end + 1) > maxBytes)
  }

  /** What a page is of: an unset start is the first line, an unset end or one past the file the last. */
  lemma PageOfRequest(lines: seq<Bytes>, start: int, end: int, maxBytes: int, read: RangeRead)
    requires IsPage(lines, start, end, maxBytes, read)
    ensures start >= 0 && read.start == if start == 0 then 1 else start
    ensures read.through == if 0 < end < |lines| then end else |lines|
    ensures end >= 0
    ensures read.clampedEnd <==> end > |lines|
  {
  }

  /** What lines from..last cost, a newline counted for each. */
  function Size(lines: seq<Bytes>, from: nat, last: nat): nat
    requires 1 <= from <= last <= |lines|
  {
    (if from == last then 0 else Size(lines, from, last - 1)) + |lines[last - 1]| + 1
  }

  /** That is their length when joined, and one byte more. */
  lemma {:induction false} SizeOfLines(lines: seq<Bytes>, from: nat, last: nat)
    requires 1 <= from <= last <= |lines|
    ensures Size(lines, from, last) == |Join(lines[from - 1..last], [LF])| + 1
  {
    JoinOne(lines[last - 1], [LF]);
    if from == last {
      assert lines[from - 1..last] == [lines[last - 1]];
    } else {
      SizeOfLines(lines, from, last - 1);
      assert lines[from - 1..last] == lines[from - 1..last - 1] + [lines[last - 1]];
      JoinTail(lines[from - 1..last - 1], [lines[last - 1]], [LF]);
    }
  }

  /** rangeLines: the bounds, or why the request makes none. */
  method RangeLines(disk: Disk, path: Path, start: int, end: int) returns (result: PageResult, lines: seq<Bytes>)
    ensures result.CannotRead? <==> !disk.ReadFile(path).Read?
    ensures !result.CannotRead? ==> lines == SplitLines(disk.files[path])
    ensures result.NegativeBound? <==> disk.ReadFile(path).Read? && (start < 0 || end < 0)
    ensures result.Page? <==> disk.ReadFile(path).Read? && start >= 0 && end >= 0 && InRange(start, end, |lines|)
    ensures result.InvalidRange? ==> result.total == |lines|
    ensures result.Page? ==>
              result.read == RangeRead([], First(start), Last(end, |lines|), |lines|, end > |lines|, 0, 0)
  {
    var r := disk.ReadFile(path);
    if !r.Read? {
      return CannotRead, [];
    }
    lines := SplitLines(r.data);
    if start < 0 || end < 0 {
      return NegativeBound, lines;
    }
    var from, to, clampedEnd := start, end, false;
    if from == 0 {
      from := 1;
    }
    if to == 0 {
      to := |lines|;
    } else if to > |lines| {
      to, clampedEnd := |lines|, true;
    }
    if from > |lines| || from > to {
      return InvalidRange(|lines|), lines;
    }
    return Page(RangeRead([], from, to, |lines|, clampedEnd, 0, 0)), lines;
  }

  /** Where the page that starts at from ends. */
  method PageEnd(lines: seq<Bytes>, from: nat, to: nat, maxBytes: int) returns (last: nat)
    requires 1 <= from <= to <= |lines|
    ensures from <= last <= to
    ensures last > from ==> Size(lines, from, last) <= maxBytes
    ensures last < to ==> Size(lines, from, last + 1) > maxBytes
  {
    var size := 0;
    last := from;
    for n := from to to + 1
      invariant last == if n == from then from else n - 1
      invariant size == if n == from then 0 else Size(lines, from, last)
      invariant n > from + 1 ==> size <= maxBytes
    {
      var cost := |lines[n - 1]| + 1;
      if n > from && size + cost > maxBytes {
        return;
      }
      size := size + cost;
      last := n;
    }
  }

  method ReadRangePage(disk: Disk, path: Path, start: int, end: int, maxBytes: int) returns (result: PageResult)
    ensures result.CannotRead? <==> !disk.ReadFile(path).Read?
    ensures result.NegativeBound? <==> disk.ReadFile(path).Read? && (start < 0 || end < 0)
    ensures result.InvalidRange? <==>
              disk.ReadFile(path).Read? && start >= 0 && end >= 0
                && !InRange(start, end, |SplitLines(disk.files[path])|)
    ensures result.InvalidRange? ==> result.total == |SplitLines(disk.files[path])|
    ensures result.Page? ==> IsPage(SplitLines(disk.files[path]), start, end, maxBytes, result.read)
  {
    var lines;
    result, lines := RangeLines(disk, path, start, end);
    if result.Page? {
      var read := result.read;
      var last := PageEnd(lines, read.start, read.end, maxBytes);
      SizeOfLines(lines, read.start, last);
      result := Page(read.(through := read.end, end := last, nextLine := if last < read.end then last + 1 else 0,
                           source := Join(lines[read.start - 1..last], [LF])));
    }
  }

  // ---- Following the pages ----------------------------------------------------------------------------

  /** next is the page asked for as prev says to go on. */
  ghost predicate GoesOn(lines: seq<Bytes>, maxBytes: int, prev: RangeRead, next: RangeRead) {
    prev.nextLine != 0 && IsPage(lines, prev.nextLine, prev.through, maxBytes, next)
  }

  /** A first page and the pages that follow it, on a file that does not change. */
  ghost predicate ArePages(lines: seq<Bytes>, start: int, end: int, maxBytes: int, pages: seq<RangeRead>) {
    && pages != [] && IsPage(lines, start, end, maxBytes, pages[0])
    && forall k :: 0 < k < |pages| ==> GoesOn(lines, maxBytes, pages[k - 1], pages[k])
  }

  function Sources(pages: seq<RangeRead>): (r: seq<Bytes>)
    ensures |r| == |pages|
  {
    seq(|pages|, i requires 0 <= i < |pages| => pages[i].source)
  }

  /** Two runs of lines that meet, joined with a newline between them. */
  lemma RunsJoin(lines: seq<Bytes>, from: nat, mid: nat, to: nat)
    requires from < mid < to <= |lines|
    ensures Join(lines[from..to], [LF]) == Join(lines[from..mid], [LF]) + [LF] + Join(lines[mid..to], [LF])
  {
    assert lines[from..to] == lines[from..mid] + lines[mid..to];
    JoinTail(lines[from..mid], lines[mid..to], [LF]);
  }

  lemma JoinOneMore(texts: seq<Bytes>, text: Bytes)
    requires texts != []
    ensures Join(texts + [text], [LF]) == Join(texts, [LF]) + [LF] + text
  {
    JoinTail(texts, [text], [LF]);
    JoinOne(text, [LF]);
  }

  lemma NextPageJoins(lines: seq<Bytes>, maxBytes: int, from: nat, prev: RangeRead, next: RangeRead)
    requires GoesOn(lines, maxBytes, prev, next)
    requires from < prev.end <= prev.through <= |lines| && (prev.nextLine == 0 || prev.nextLine == prev.end + 1)
    ensures prev.end < next.end <= next.through == prev.through
    ensures next.nextLine == if next.end < next.through then next.end + 1 else 0
    ensures Join(lines[from..prev.end], [LF]) + [LF] + next.source == Join(lines[from..next.end], [LF])
  {
    PageFollows(lines, maxBytes, prev, next);
    RunsJoin(lines, from, prev.end, next.end);
  }

  lemma PageFollows(lines: seq<Bytes>, maxBytes: int, prev: RangeRead, next: RangeRead)
    requires GoesOn(lines, maxBytes, prev, next)
    requires prev.end < prev.through <= |lines| && prev.nextLine == prev.end + 1
    ensures prev.end < next.end <= next.through == prev.through
    ensures next.nextLine == if next.end < next.through then next.end + 1 else 0
    ensures next.source == Join(lines[prev.end..next.end], [LF])
  {
  }

  /** Where the pages so far have got to. */
  ghost predicate UpTo(lines: seq<Bytes>, start: int, end: int, pages: seq<RangeRead>, last: RangeRead) {
    && InRange(start, end, |lines|) && First(start) <= last.end <= last.through == Last(end, |lines|)
    && last.nextLine == (if last.end < last.through then last.end + 1 else 0)
    && Join(Sources(pages), [LF]) == Join(lines[First(start) - 1..last.end], [LF])
    && |pages| <= last.end - First(start) + 1
  }

  lemma OnePageMore(lines: seq<Bytes>, start: int, end: int, maxBytes: int, pages: seq<RangeRead>, prev: RangeRead,
                    next: RangeRead, all: seq<RangeRead>)
    requires pages != [] && UpTo(lines, start, end, pages, prev) && GoesOn(lines, maxBytes, prev, next)
    requires all == pages + [next]
    ensures UpTo(lines, start, end, all, next)
  {
    assert Sources(all) == Sources(pages) + [next.source];
    JoinOneMore(Sources(pages), next.source);
    NextPageJoins(lines, maxBytes, First(start) - 1, prev, next);
  }

  /** Followed as far as one likes, the pages are exactly the lines asked for up to the last page's
      end, once each and in order; there are no more pages than lines, so following them ends. */
  lemma {:induction false} PagesAreTheLines(lines: seq<Bytes>, start: int, end: int, maxBytes: int,
                                            pages: seq<RangeRead>)
    requires ArePages(lines, start, end, maxBytes, pages)
    ensures UpTo(lines, start, end, pages, pages[|pages| - 1])
  {
    var n := |pages| - 1;
    if n == 0 {
      FirstPage(lines, start, end, maxBytes, pages);
    } else {
      PagesBefore(lines, start, end, maxBytes, pages, n);
      PagesAreTheLines(lines, start, end, maxBytes, pages[..n]);
      OnePageMore(lines, start, end, maxBytes, pages[..n], pages[n - 1], pages[n], pages);
    }
  }

  lemma FirstPage(lines: seq<Bytes>, start: int, end: int, maxBytes: int, pages: seq<RangeRead>)
    requires ArePages(lines, start, end, maxBytes, pages) && |pages| == 1
    ensures UpTo(lines, start, end, pages, pages[0])
  {
    assert Sources(pages) == [pages[0].source];
    JoinOne(pages[0].source, [LF]);
  }

  lemma PagesBefore(lines: seq<Bytes>, start: int, end: int, maxBytes: int, pages: seq<RangeRead>, n: nat)
    requires ArePages(lines, start, end, maxBytes, pages) && 0 < n == |pages| - 1
    ensures ArePages(lines, start, end, maxBytes, pages[..n]) && GoesOn(lines, maxBytes, pages[n - 1], pages[n])
    ensures pages == pages[..n] + [pages[n]]
  {
  }

  lemma MoreLinesAreLonger(lines: seq<Bytes>, from: nat, mid: nat, to: nat)
    requires from < mid < to <= |lines|
    ensures |Join(lines[from..to], [LF])| > |Join(lines[from..mid], [LF])|
  {
    RunsJoin(lines, from, mid, to);
  }

  /** The pages make up the whole request exactly when the last one names no next line. */
  lemma CompleteIff(lines: seq<Bytes>, start: int, end: int, maxBytes: int, pages: seq<RangeRead>)
    requires ArePages(lines, start, end, maxBytes, pages)
    ensures InRange(start, end, |lines|)
    ensures pages[|pages| - 1].nextLine == 0
       <==> Join(Sources(pages), [LF]) == Join(lines[First(start) - 1..Last(end, |lines|)], [LF])
  {
    var last := pages[|pages| - 1];
    PagesAreTheLines(lines, start, end, maxBytes, pages);
    CoversIff(lines, First(start) - 1, last.end, last.through, Join(Sources(pages), [LF]));
  }

  lemma CoversIff(lines: seq<Bytes>, from: nat, end: nat, to: nat, joined: Bytes)
    requires from < end <= to <= |lines| && joined == Join(lines[from..end], [LF])
    ensures joined == Join(lines[from..to], [LF]) <==> end == to
  {
    if end < to {
      MoreLinesAreLonger(lines, from, end, to);
    }
  }
}
