/** What an edit is responsible for: the diagnostics a file has now less those it had before the edit's
    first write. */
module Diagnostics {
  import opened Order

  datatype Diagnostic = Diagnostic(level: string, message: string, line: int)

  /** Identifies a diagnostic across an edit that moves its line. */
  function Key(d: Diagnostic): string {
    d.level + ['\0'] + d.message
  }

  /** Levels hold no NUL, so the key tells level and message apart. */
  lemma KeyIdentifies(a: Diagnostic, b: Diagnostic)
    requires '\0' !in a.level && '\0' !in b.level
    ensures Key(a) == Key(b) <==> a.level == b.level && a.message == b.message
  {
    if Key(a) == Key(b) {
      LevelEnds(a, Key(a));
      LevelEnds(b, Key(b));
      assert a.level == Key(a)[..|a.level|] && b.level == Key(b)[..|b.level|];
      assert a.message == Key(a)[|a.level| + 1..] && b.message == Key(b)[|b.level| + 1..];
    }
  }

  /** The level ends at the key's first NUL. */
  lemma LevelEnds(d: Diagnostic, k: string)
    requires '\0' !in d.level && k == Key(d)
    ensures |d.level| < |k| && k[|d.level|] == '\0' && forall i :: 0 <= i < |d.level| ==> k[i] != '\0'
  {
    assert forall i :: 0 <= i < |d.level| ==> k[i] == d.level[i] && d.level[i] in d.level;
  }

  function Keys(ds: seq<Diagnostic>): multiset<string> {
    if ds == [] then multiset{} else multiset{Key(ds[0])} + Keys(ds[1..])
  }

  /** Each diagnostic's key, as often as it occurs. */
  lemma {:induction false} KeysAreCounted(ds: seq<Diagnostic>)
    ensures Keys(ds) == multiset(seq(|ds|, i requires 0 <= i < |ds| => Key(ds[i])))
  {
    if ds != [] {
      KeysAreCounted(ds[1..]);
      assert seq(|ds|, i requires 0 <= i < |ds| => Key(ds[i])) ==
             [Key(ds[0])] + seq(|ds[1..]|, i requires 0 <= i < |ds[1..]| => Key(ds[1..][i]));
    }
  }

  /** The diagnostics beyond those of the baseline, each of which accounts for one of its key. */
  function Fresh(all: seq<Diagnostic>, baseline: multiset<string>): seq<Diagnostic> {
    if all == [] then []
    else if Key(all[0]) in baseline then Fresh(all[1..], baseline - multiset{Key(all[0])})
    else [all[0]] + Fresh(all[1..], baseline)
  }

  lemma LessOne(k: string, rest: multiset<string>, baseline: multiset<string>, all: multiset<string>,
                left: multiset<string>)
    requires all == multiset{k} + rest && k in baseline && left == baseline - multiset{k}
    ensures all - baseline == rest - left && |all * baseline| == 1 + |rest * left|
  {
    assert all * baseline == multiset{k} + rest * left;
  }

  lemma PlusOne(k: string, rest: multiset<string>, baseline: multiset<string>, all: multiset<string>)
    requires all == multiset{k} + rest && k !in baseline
    ensures all - baseline == multiset{k} + (rest - baseline) && all * baseline == rest * baseline
  {
  }

  lemma KeysOfOneMore(d: Diagnostic, ds: seq<Diagnostic>)
    ensures Keys([d] + ds) == multiset{Key(d)} + Keys(ds)
  {
  }

  /** What is returned is, by level and message, exactly the current diagnostics less the baseline. */
  lemma {:induction false} FreshIsTheDifference(all: seq<Diagnostic>, baseline: multiset<string>)
    ensures Keys(Fresh(all, baseline)) == Keys(all) - baseline
    ensures |all| - |Fresh(all, baseline)| == |Keys(all) * baseline|
  {
    if all != [] {
      var k, rest := Key(all[0]), Keys(all[1..]);
      if k in baseline {
        var left := baseline - multiset{k};
        FreshIsTheDifference(all[1..], left);
        LessOne(k, rest, baseline, Keys(all), left);
      } else {
        FreshIsTheDifference(all[1..], baseline);
        PlusOne(k, rest, baseline, Keys(all));
        KeysOfOneMore(all[0], Fresh(all[1..], baseline));
      }
    }
  }

  /** places are the positions in all that part is made of, in order. */
  ghost predicate Subsequence(part: seq<Diagnostic>, all: seq<Diagnostic>, places: seq<nat>) {
    && |places| == |part|
    && (forall i :: 0 <= i < |places| ==> places[i] < |all| && part[i] == all[places[i]])
    && forall i, j :: 0 <= i < j < |places| ==> places[i] < places[j]
  }

  lemma OneFurther(part: seq<Diagnostic>, all: seq<Diagnostic>, places: seq<nat>, further: seq<nat>)
    requires all != [] && Subsequence(part, all[1..], places)
    requires |further| == |places| && forall i :: 0 <= i < |places| ==> further[i] == places[i] + 1
    ensures Subsequence(part, all, further)
  {
  }

  lemma FirstToo(part: seq<Diagnostic>, all: seq<Diagnostic>, places: seq<nat>, more: seq<nat>)
    requires all != [] && Subsequence(part, all, places) && more == [0] + places
    requires forall i :: 0 <= i < |places| ==> places[i] > 0
    ensures Subsequence([all[0]] + part, all, more)
  {
  }

  /** How many of the first i diagnostics have this key. */
  function Earlier(all: seq<Diagnostic>, i: nat, key: string): nat
    requires i <= |all|
  {
    if i == 0 then 0 else Earlier(all, i - 1, key) + if Key(all[i - 1]) == key then 1 else 0
  }

  lemma {:induction false} EarlierFurther(all: seq<Diagnostic>, i: nat, key: string)
    requires all != [] && i < |all|
    ensures Earlier(all, i + 1, key) == (if Key(all[0]) == key then 1 else 0) + Earlier(all[1..], i, key)
  {
    if i > 0 {
      EarlierFurther(all, i - 1, key);
    }
  }

  /** Position i is among the places, exactly when the baseline has none left of its key. */
  ghost predicate PlacedIff(all: seq<Diagnostic>, baseline: multiset<string>, places: seq<nat>, i: nat)
    requires i < |all|
  {
    i in places <==> Earlier(all, i, Key(all[i])) >= baseline[Key(all[i])]
  }

  lemma OnePlaceFurther(all: seq<Diagnostic>, baseline: multiset<string>, left: multiset<string>, before: seq<nat>,
                        places: seq<nat>, i: nat)
    requires 0 < i < |all| && PlacedIff(all[1..], left, before, i - 1)
    requires i in places <==> i - 1 in before
    requires left == if Key(all[0]) in baseline then baseline - multiset{Key(all[0])} else baseline
    ensures PlacedIff(all, baseline, places, i)
  {
    EarlierFurther(all, i - 1, Key(all[i]));
  }

  /** What is returned keeps its order, and of each key the baseline accounts for the first ones. */
  lemma {:induction false} FreshIsASubsequence(all: seq<Diagnostic>, baseline: multiset<string>)
    returns (places: seq<nat>)
    ensures Subsequence(Fresh(all, baseline), all, places)
    ensures forall i :: 0 <= i < |all| ==> PlacedIff(all, baseline, places, i)
  {
    if all == [] {
      return [];
    }
    var suppressed := Key(all[0]) in baseline;
    var left := if suppressed then baseline - multiset{Key(all[0])} else baseline;
    var before := FreshIsASubsequence(all[1..], left);
    var further := seq(|before|, i requires 0 <= i < |before| => before[i] + 1);
    OneFurther(Fresh(all[1..], left), all, before, further);
    FurtherHas(before, further);
    places := further;
    if !suppressed {
      FirstToo(Fresh(all[1..], left), all, further, [0] + further);
      places := [0] + further;
    }
    forall i | 0 < i < |all| ensures PlacedIff(all, baseline, places, i) {
      OnePlaceFurther(all, baseline, left, before, places, i);
    }
  }

  lemma FurtherHas(before: seq<nat>, further: seq<nat>)
    requires |further| == |before| && forall i :: 0 <= i < |before| ==> further[i] == before[i] + 1
    ensures 0 !in further && forall i: nat :: i > 0 ==> (i in further <==> i - 1 in before)
  {
    forall i: nat | i > 0 && i - 1 in before ensures i in further {
      var k :| 0 <= k < |before| && before[k] == i - 1;
      assert further[k] == i;
    }
  }

  /** An edit that changes no finding is answered with none, however the lines moved. */
  lemma NothingNew(all: seq<Diagnostic>, before: seq<Diagnostic>)
    ensures Fresh(all, Keys(before)) == [] <==> Keys(all) <= Keys(before)
  {
    FreshIsTheDifference(all, Keys(before));
    var found := Fresh(all, Keys(before));
    assert Keys(all) <= Keys(before) <==> Keys(all) - Keys(before) == multiset{};
    assert found != [] ==> Key(found[0]) in Keys(found);
  }

  // ---- Baselines over a session -----------------------------------------------------------------------

  /** A write, with what its language checker said of the file just before, None if it did not look; or an edit
      response. */
  datatype Event = Write(path: Path, check: Option<seq<Diagnostic>>) | Response(path: Path)

  /** Since the last response about a file. */
  function SinceResponse(h: seq<Event>, p: Path): (r: seq<Event>)
  {
    if h == [] then []
    else
      var last := h[|h| - 1];
      if last == Response(p) then [] else SinceResponse(h[..|h| - 1], p) + [last]
  }

  /** What was found at the first write that had its file looked at. */
  function FirstCheck(h: seq<Event>, p: Path): Option<seq<Diagnostic>> {
    if h == [] then None
    else if h[0].Write? && h[0].path == p && h[0].check.Some? then h[0].check
    else FirstCheck(h[1..], p)
  }

  /** What a file's baseline is measured against: its findings at the edit's first checked write. */
  function BaselineOf(h: seq<Event>, p: Path): Option<seq<Diagnostic>> {
    FirstCheck(SinceResponse(h, p), p)
  }

  lemma {:induction false} FirstCheckAppends(h: seq<Event>, e: Event, p: Path)
    ensures FirstCheck(h + [e], p) == if FirstCheck(h, p).Some? then FirstCheck(h, p) else FirstCheck([e], p)
  {
    if h == [] {
      assert h + [e] == [e];
    } else {
      assert (h + [e])[1..] == h[1..] + [e];
      FirstCheckAppends(h[1..], e, p);
    }
  }

  lemma BaselineAfter(h: seq<Event>, e: Event, p: Path)
    ensures BaselineOf(h + [e], p) ==
            if e == Response(p) then None
            else if BaselineOf(h, p).Some? then BaselineOf(h, p)
            else if e.Write? && e.path == p then e.check
            else None
  {
    assert (h + [e])[..|h|] == h;
    FirstCheckAppends(SinceResponse(h, p), e, p);
    assert FirstCheck([e][1..], p) == None;
  }

  class Service {
    var baseline: map<Path, seq<Diagnostic>>
    var preexisting: map<Path, nat>
    ghost var history: seq<Event>

    constructor ()
      ensures Valid() && history == []
    {
      baseline, preexisting, history := map[], map[], [];
    }

    /** Every baseline is what the edit's first checked write found. */
    ghost predicate Valid()
      reads this
    {
      && (forall p :: p in baseline ==> BaselineOf(history, p) == Some(baseline[p]))
      && forall p :: p !in baseline ==> BaselineOf(history, p) == None
    }

    /** check is what its language checker says of the file before the write: nothing found for a file that does
        not exist, None when nothing looked. */
    method BeforeWrite(path: Path, check: Option<seq<Diagnostic>>)
      requires Valid()
      modifies this`baseline, this`history
      ensures Valid() && history == old(history) + [Write(path, check)]
      ensures baseline ==
              if path in old(baseline) || check.None? then old(baseline) else old(baseline)[path := check.value]
    {
      forall p ensures BaselineOf(history + [Write(path, check)], p) ==
                       if BaselineOf(history, p).Some? || p != path then BaselineOf(history, p) else check
      {
        BaselineAfter(history, Write(path, check), p);
      }
      history := history + [Write(path, check)];
      if path !in baseline && check.Some? {
        baseline := baseline[path := check.value];
      }
    }

    /** The edit's baseline, used up. */
    method TakeBaseline(path: Path) returns (before: Option<seq<Diagnostic>>)
      requires Valid()
      modifies this
      ensures Valid() && history == old(history) + [Response(path)]
      ensures before == BaselineOf(old(history), path) && baseline == old(baseline) - {path}
      ensures preexisting == if before == None then old(preexisting) - {path} else old(preexisting)
    {
      forall p ensures BaselineOf(history + [Response(path)], p) == if p == path then None else BaselineOf(history, p) {
        BaselineAfter(history, Response(path), p);
      }
      before := if path in baseline then Some(baseline[path]) else None;
      history := history + [Response(path)];
      baseline := baseline - {path};
      if before == None {
        preexisting := preexisting - {path};
      }
    }

    /** The findings the edit is responsible for; all of them when there is no baseline. The baseline is
        used up, and how many findings it left out is remembered. */
    method Immediate(path: Path, all: seq<Diagnostic>) returns (found: seq<Diagnostic>)
      requires Valid()
      modifies this
      ensures Valid()
      ensures path == "" ==> found == all && unchanged(this)
      ensures path != "" ==> baseline == old(baseline) - {path} && history == old(history) + [Response(path)]
      ensures path != "" ==> match BaselineOf(old(history), path)
        case None => found == all && preexisting == old(preexisting) - {path}
        case Some(before) =>
          && IsDifference(all, before, found, Suppressed(all, before))
          && preexisting == old(preexisting)[path := Suppressed(all, before)]
    {
      if path == "" {
        return all;
      }
      var before := TakeBaseline(path);
      if before == None {
        return all;
      }
      var suppressed;
      found, suppressed := Subtract(all, before.value);
      FreshIsDifference(all, before.value, found, suppressed);
      preexisting := preexisting[path := suppressed];
    }

    static method CountKeys(before: seq<Diagnostic>) returns (remaining: map<string, nat>)
      ensures Counts(remaining, Keys(before))
    {
      remaining := map[];
      for i := 0 to |before|
        invariant Counts(remaining, Keys(before[..i]))
      {
        var key := Key(before[i]);
        KeysAppend(before[..i], before[i], before[..i + 1]);
        CountsMore(remaining, Keys(before[..i]), key);
        remaining := remaining[key := (if key in remaining then remaining[key] else 0) + 1];
      }
      assert before[..|before|] == before;
    }

    /** Lets each of the baseline's findings account for one current one. */
    static method Subtract(all: seq<Diagnostic>, before: seq<Diagnostic>)
      returns (found: seq<Diagnostic>, suppressed: nat)
      ensures found == Fresh(all, Keys(before)) && suppressed + |found| == |all|
    {
      var remaining := CountKeys(before);
      found, suppressed := [], 0;
      ghost var left := Keys(before);
      assert all[0..] == all;
      for i := 0 to |all|
        invariant suppressed + |found| == i && Counts(remaining, left)
        invariant found + Fresh(all[i..], left) == Fresh(all, Keys(before))
      {
        var key := Key(all[i]);
        FreshStep(all, i, left, found);
        if key in remaining && remaining[key] > 0 {
          CountsLess(remaining, left, key);
          remaining := remaining[key := remaining[key] - 1];
          left := left - multiset{key};
          suppressed := suppressed + 1;
        } else {
          assert key !in left;
          found := found + [all[i]];
        }
      }
    }
  }

  /** found is what all has beyond before, in order; suppressed is how many it leaves out. */
  ghost predicate IsDifference(all: seq<Diagnostic>, before: seq<Diagnostic>, found: seq<Diagnostic>, suppressed: nat) {
    && found == Fresh(all, Keys(before)) && Keys(found) == Keys(all) - Keys(before)
    && |found| + suppressed == |all|
  }

  lemma FreshIsDifference(all: seq<Diagnostic>, before: seq<Diagnostic>, found: seq<Diagnostic>, suppressed: nat)
    requires found == Fresh(all, Keys(before)) && suppressed + |found| == |all|
    ensures suppressed == Suppressed(all, before) && IsDifference(all, before, found, suppressed)
  {
    FreshIsTheDifference(all, Keys(before));
  }

  ghost function Suppressed(all: seq<Diagnostic>, before: seq<Diagnostic>): nat {
    |Keys(all) * Keys(before)|
  }

  ghost predicate Counts(remaining: map<string, nat>, keys: multiset<string>) {
    forall k :: keys[k] == if k in remaining then remaining[k] else 0
  }

  lemma CountsMore(remaining: map<string, nat>, keys: multiset<string>, key: string)
    requires Counts(remaining, keys)
    ensures Counts(remaining[key := (if key in remaining then remaining[key] else 0) + 1], keys + multiset{key})
  {
  }

  lemma CountsLess(remaining: map<string, nat>, keys: multiset<string>, key: string)
    requires Counts(remaining, keys) && key in remaining && remaining[key] > 0
    ensures key in keys && Counts(remaining[key := remaining[key] - 1], keys - multiset{key})
  {
  }

  lemma FreshStep(all: seq<Diagnostic>, i: nat, left: multiset<string>, found: seq<Diagnostic>)
    requires i < |all|
    ensures found + Fresh(all[i..], left) ==
            if Key(all[i]) in left then found + Fresh(all[i + 1..], left - multiset{Key(all[i])})
            else found + [all[i]] + Fresh(all[i + 1..], left)
  {
  }

  lemma {:induction false} KeysAppend(ds: seq<Diagnostic>, d: Diagnostic, more: seq<Diagnostic>)
    requires more == ds + [d]
    ensures Keys(more) == Keys(ds) + multiset{Key(d)}
  {
    if ds == [] {
      assert more[1..] == [];
    } else {
      KeysAppend(ds[1..], d, more[1..]);
    }
  }
}
