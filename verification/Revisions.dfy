/** What a session's revisions did to the disk, against what the ledger says of them: a revert is a
    revision the ledger does not mention. */
module Revisions {
  import opened Order
  import opened Overlay
  import opened Ledger

  /** How a revision came about, and the disk it left: a bump with its ledger entry, or a revert with
      the paths it wrote. The first turn makes revision 2. */
  datatype Turn = Bump(entry: Entry, disk: Files) | Revert(wrote: set<Path>, disk: Files)

  function DiskAt(first: Files, turns: seq<Turn>, n: nat): Files
    requires 1 <= n <= |turns| + 1
  {
    if n == 1 then first else turns[n - 2].disk
  }

  /** The paths a turn names or writes. */
  predicate Touches(turn: Turn, p: Path) {
    if turn.Bump? then p in turn.entry.paths else p in turn.wrote
  }

  /** Nothing changed in this turn but what its bump names or its revert wrote. */
  ghost predicate ChangesOnlyTouched(before: Files, turn: Turn) {
    forall p :: !Touches(turn, p) ==> At(before, p) == At(turn.disk, p)
  }

  ghost predicate BumpsNameWhatChanged(first: Files, turns: seq<Turn>) {
    forall k :: 0 <= k < |turns| ==> ChangesOnlyTouched(DiskAt(first, turns, k + 1), turns[k])
  }

  /** A bump after revision n names p. */
  ghost predicate Named(turns: seq<Turn>, n: int, p: Path) {
    exists k :: 0 <= k < |turns| && k + 2 > n && turns[k].Bump? && p in turns[k].entry.paths
  }

  /** Turn k is the last revert after revision n that wrote p. */
  ghost predicate LastRevertOf(turns: seq<Turn>, n: int, p: Path, k: int) {
    && 0 <= k < |turns| && k + 2 > n && turns[k].Revert? && p in turns[k].wrote
    && forall j :: k < j < |turns| && turns[j].Revert? ==> p !in turns[j].wrote
  }

  /** The reverts after revision n left p with a content other than that revision's. */
  ghost predicate LeftDifferent(first: Files, turns: seq<Turn>, n: nat, p: Path)
    requires 1 <= n <= |turns| + 1
  {
    exists k :: LastRevertOf(turns, n, p, k) && At(turns[k].disk, p) != At(DiskAt(first, turns, n), p)
  }

  ghost predicate Differs(first: Files, turns: seq<Turn>, n: nat, p: Path)
    requires 1 <= n <= |turns| + 1
  {
    At(DiskAt(first, turns, n), p) != At(DiskAt(first, turns, |turns| + 1), p)
  }

  /** A path no turn touches between two revisions holds the same at both. */
  lemma {:induction false} Untouched(first: Files, turns: seq<Turn>, a: nat, b: nat, p: Path)
    requires BumpsNameWhatChanged(first, turns) && 1 <= a <= b <= |turns| + 1
    requires forall k :: a - 1 <= k < b - 1 ==> !Touches(turns[k], p)
    ensures At(DiskAt(first, turns, a), p) == At(DiskAt(first, turns, b), p)
    decreases b - a
  {
    if a < b {
      Untouched(first, turns, a, b - 1, p);
      assert ChangesOnlyTouched(DiskAt(first, turns, b - 1), turns[b - 2]);
    }
  }

  /** The last revert after revision n that wrote p, if any did. */
  lemma {:induction false} FindLastRevert(turns: seq<Turn>, n: nat, p: Path, from: nat) returns (k: int)
    requires from <= |turns|
    requires forall j :: from <= j < |turns| && turns[j].Revert? ==> p !in turns[j].wrote
    ensures k >= 0 ==> LastRevertOf(turns, n, p, k)
    ensures k < 0 ==> forall j :: 0 <= j < |turns| && j + 2 > n && turns[j].Revert? ==> p !in turns[j].wrote
    decreases from
  {
    if from == 0 || from + 1 <= n {
      k := -1;
    } else if turns[from - 1].Revert? && p in turns[from - 1].wrote {
      k := from - 1;
    } else {
      k := FindLastRevert(turns, n, p, from - 1);
    }
  }

  lemma NotNamed(turns: seq<Turn>, n: int, p: Path, k: nat)
    requires !Named(turns, n, p) && k < |turns| && k + 2 > n
    requires turns[k].Revert? ==> p !in turns[k].wrote
    ensures !Touches(turns[k], p)
  {
  }

  /** Such a path holds at the end what the last revert that wrote it left, or, with none, what it held
      at revision n. */
  lemma UnnamedSince(first: Files, turns: seq<Turn>, n: nat, p: Path, k: int, since: nat)
    requires BumpsNameWhatChanged(first, turns) && 1 <= n <= since <= |turns| + 1 && !Named(turns, n, p)
    requires since == if k >= 0 then k + 2 else n
    requires forall j :: since - 1 <= j < |turns| && turns[j].Revert? ==> p !in turns[j].wrote
    ensures At(DiskAt(first, turns, since), p) == At(DiskAt(first, turns, |turns| + 1), p)
  {
    forall j | since - 1 <= j < |turns| ensures !Touches(turns[j], p) {
      NotNamed(turns, n, p, j);
    }
    Untouched(first, turns, since, |turns| + 1, p);
  }

  /** A path no bump after revision n names differs from that revision exactly when the reverts since
      left it different. */
  lemma UnnamedDiffersIff(first: Files, turns: seq<Turn>, n: nat, p: Path)
    requires BumpsNameWhatChanged(first, turns) && 1 <= n <= |turns| + 1 && !Named(turns, n, p)
    ensures Differs(first, turns, n, p) <==> LeftDifferent(first, turns, n, p)
  {
    var k := FindLastRevert(turns, n, p, |turns|);
    OnlyLastRevert(turns, n, p, k);
    if k >= 0 {
      assert DiskAt(first, turns, k + 2) == turns[k].disk;
      UnnamedSince(first, turns, n, p, k, k + 2);
    } else {
      UnnamedSince(first, turns, n, p, k, n);
    }
  }

  lemma OnlyLastRevert(turns: seq<Turn>, n: int, p: Path, k: int)
    requires k >= 0 ==> LastRevertOf(turns, n, p, k)
    requires k < 0 ==> forall j :: 0 <= j < |turns| && j + 2 > n && turns[j].Revert? ==> p !in turns[j].wrote
    ensures forall j :: LastRevertOf(turns, n, p, j) ==> j == k
  {
  }

  /** The bumps after revision n name every path that differs from it if and only if they name every
      path the reverts after it left different. */
  lemma NamesEveryDifferenceIff(first: Files, turns: seq<Turn>, n: nat)
    requires BumpsNameWhatChanged(first, turns) && 1 <= n <= |turns| + 1
    ensures (forall p :: Differs(first, turns, n, p) ==> Named(turns, n, p))
       <==> (forall p :: LeftDifferent(first, turns, n, p) ==> Named(turns, n, p))
  {
    forall p | !Named(turns, n, p) ensures Differs(first, turns, n, p) <==> LeftDifferent(first, turns, n, p) {
      UnnamedDiffersIff(first, turns, n, p);
    }
  }

  /** With no revert since revision n, every path that differs is named. */
  lemma NamesEveryDifferenceWithoutReverts(first: Files, turns: seq<Turn>, n: nat)
    requires BumpsNameWhatChanged(first, turns) && 1 <= n <= |turns| + 1
    requires forall k :: n - 1 <= k < |turns| ==> turns[k].Bump?
    ensures forall p :: Differs(first, turns, n, p) ==> Named(turns, n, p)
  {
    NamesEveryDifferenceIff(first, turns, n);
  }

  // ---- Turns and the ledger's history -------------------------------------------------------------------

  function Bumps(turns: seq<Turn>): seq<Entry> {
    if turns == [] then []
    else
      var init, last := Bumps(turns[..|turns| - 1]), turns[|turns| - 1];
      if last.Bump? then init + [last.entry] else init
  }

  /** history is the turns' entries, each at its turn's revision. */
  ghost predicate Accounts(turns: seq<Turn>, history: seq<Entry>, revision: nat) {
    && |turns| + 1 == revision && history == Bumps(turns)
    && forall k :: 0 <= k < |turns| && turns[k].Bump? ==> turns[k].entry.revision == k + 2
  }

  /** The manager's books: the window of entries, and the turns behind them. */
  ghost predicate Books(ledger: seq<Entry>, history: seq<Entry>, revision: nat, reverts: nat, turns: seq<Turn>) {
    Window(ledger, history, revision, reverts) && Accounts(turns, history, revision)
  }

  lemma BooksAfterBump(ledger: seq<Entry>, history: seq<Entry>, revision: nat, reverts: nat, turns: seq<Turn>,
                       e: Entry, disk: Files)
    requires Books(ledger, history, revision, reverts, turns)
    requires e.revision == revision + 1 && Ascending(e.paths)
    ensures Books(Trim(ledger + [e]), history + [e], revision + 1, reverts, turns + [Bump(e, disk)])
  {
    WindowSlides(ledger, history, revision, reverts, e);
    assert (turns + [Bump(e, disk)])[..|turns|] == turns;
  }

  lemma BooksAfterRevert(ledger: seq<Entry>, history: seq<Entry>, revision: nat, reverts: nat, turns: seq<Turn>,
                         wrote: set<Path>, disk: Files)
    requires Books(ledger, history, revision, reverts, turns)
    ensures Books(ledger, history, revision + 1, reverts + 1, turns + [Revert(wrote, disk)])
  {
    RevertSpendsARevision(ledger, history, revision, reverts);
    assert (turns + [Revert(wrote, disk)])[..|turns|] == turns;
  }

  lemma {:induction false} BumpsAre(turns: seq<Turn>, e: Entry)
    ensures e in Bumps(turns) <==> exists k :: 0 <= k < |turns| && turns[k].Bump? && turns[k].entry == e
  {
    if turns != [] {
      var init := turns[..|turns| - 1];
      BumpsAre(init, e);
      if k :| 0 <= k < |init| && init[k].Bump? && init[k].entry == e {
        assert turns[k] == init[k];
      }
      if k :| 0 <= k < |turns| && turns[k].Bump? && turns[k].entry == e {
        assert k < |init| ==> init[k] == turns[k];
      }
    }
  }

  lemma NamedIsChangedAfter(turns: seq<Turn>, history: seq<Entry>, revision: nat, n: int)
    requires Accounts(turns, history, revision)
    ensures forall p :: Named(turns, n, p) <==> ChangedAfter(history, n, p)
  {
    forall p ensures Named(turns, n, p) <==> ChangedAfter(history, n, p) {
      if Named(turns, n, p) {
        var k :| 0 <= k < |turns| && k + 2 > n && turns[k].Bump? && p in turns[k].entry.paths;
        BumpsAre(turns, turns[k].entry);
      }
      if ChangedAfter(history, n, p) {
        var e :| e in history && e.revision > n && p in e.paths;
        BumpsAre(turns, e);
      }
    }
  }

  /** An answer that lists what the history says changed names every path that differs from revision n
      if and only if it names every path the reverts since left different. */
  lemma AnswerNamesDifferencesIff(first: Files, turns: seq<Turn>, history: seq<Entry>, n: nat, paths: seq<Path>)
    requires Accounts(turns, history, |turns| + 1) && BumpsNameWhatChanged(first, turns) && 1 <= n <= |turns| + 1
    requires forall p :: p in paths <==> ChangedAfter(history, n, p)
    ensures (forall p :: Differs(first, turns, n, p) ==> p in paths)
       <==> (forall p :: LeftDifferent(first, turns, n, p) ==> p in paths)
  {
    NamedIsChangedAfter(turns, history, |turns| + 1, n);
    NamesEveryDifferenceIff(first, turns, n);
  }
}
