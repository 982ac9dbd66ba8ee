/** The revision ledger: which paths each bump changed, kept for the last few hundred bumps. */
module Ledger {
  import opened Order

  datatype Entry = Entry(revision: nat, paths: seq<Path>)

  const MAX_ENTRIES := 500

  /** LastIndex of "::" in key, or -1. */
  function LastSeparator(key: string): (i: int)
    ensures -1 <= i <= |key| - 2 || i == -1
  {
    if |key| < 2 then -1
    else if key[|key| - 2..] == "::" then |key| - 2
    else LastSeparator(key[..|key| - 1])
  }

  /** A replace_symbol edit is tracked under "path::Name@line"; this is its path. */
  function PathFromKey(key: string): Path {
    var i := LastSeparator(key);
    if i >= 0 then key[..i] else key
  }

  /** There is a "::" in s. */
  predicate HasSeparator(s: string) {
    exists i :: 0 <= i <= |s| - 2 && IsSeparator(s, i)
  }

  predicate IsSeparator(s: string, i: int) {
    0 <= i <= |s| - 2 && s[i] == ':' && s[i + 1] == ':'
  }

  /** A symbol's name as an ID ends in it: no "::", and no ":" that would make one of the separator's. */
  predicate IsName(n: string) {
    !HasSeparator(n) && (n != [] ==> n[0] != ':')
  }

  /** What key names, by its form: a file's path, or one of a file's symbols. */
  ghost predicate NamesFile(key: string, path: Path) {
    if HasSeparator(key) then exists n :: IsName(n) && key == path + "::" + n else key == path
  }

  lemma {:induction false} LastSeparatorIsLast(key: string)
    ensures LastSeparator(key) >= 0 ==> IsSeparator(key, LastSeparator(key))
    ensures forall i :: IsSeparator(key, i) ==> i <= LastSeparator(key)
    decreases |key|
  {
    if |key| >= 2 {
      var init := key[..|key| - 1];
      assert key[|key| - 2..] == [key[|key| - 2], key[|key| - 1]];
      LastSeparatorIsLast(init);
      forall i | IsSeparator(key, i) ensures i == |key| - 2 || IsSeparator(init, i) {
      }
    }
  }

  /** A key names one file: the one PathFromKey gives. */
  lemma NamesFileIff(key: string, path: Path)
    ensures NamesFile(key, path) <==> PathFromKey(key) == path
  {
    var i := LastSeparator(key);
    LastSeparatorIsLast(key);
    if i >= 0 {
      assert HasSeparator(key);
      var n := key[i + 2..];
      assert key == key[..i] + "::" + n;
      assert IsName(n) by {
        forall j | IsSeparator(n, j) ensures false {
          assert IsSeparator(key, i + 2 + j);
        }
        assert n != [] && n[0] == ':' ==> IsSeparator(key, i + 1);
      }
      if NamesFile(key, path) {
        var m :| IsName(m) && key == path + "::" + m;
        SymbolKey(path, m);
      }
    } else {
      assert !HasSeparator(key);
    }
  }

  /** The path of a symbol's key, whatever separators are in the path itself. */
  lemma SymbolKey(path: Path, name: string)
    requires IsName(name)
    ensures PathFromKey(path + "::" + name) == path
  {
    LastSeparatorOfKey(path + "::" + name, path, name);
  }

  lemma LastSeparatorOfKey(key: string, path: Path, name: string)
    requires IsName(name) && key == path + "::" + name
    ensures LastSeparator(key) == |path| && key[..|path|] == path
  {
    LastSeparatorIsLast(key);
    assert IsSeparator(key, |path|);
    forall i | IsSeparator(key, i) ensures i <= |path| {
      if i > |path| {
        SeparatorInName(key, path, name, i);
      }
    }
  }

  lemma SeparatorInName(key: string, path: Path, name: string, i: int)
    requires key == path + "::" + name && IsSeparator(key, i) && i > |path|
    ensures if i == |path| + 1 then name != [] && name[0] == ':' else IsSeparator(name, i - |path| - 2)
  {
    assert key[i + 1] == name[i - |path| - 1];
    assert i > |path| + 1 ==> key[i] == name[i - |path| - 2];
  }

  /** A key without a separator is a path. */
  lemma PlainKey(key: string)
    requires !HasSeparator(key)
    ensures PathFromKey(key) == key
  {
    NamesFileIff(key, key);
  }

  function Trim(ledger: seq<Entry>): seq<Entry> {
    if |ledger| > MAX_ENTRIES then ledger[|ledger| - MAX_ENTRIES..] else ledger
  }

  /** The full history of bumps is what the window has to answer for. reverts counts the revisions
      that were spent without an entry. */
  ghost predicate Window(ledger: seq<Entry>, history: seq<Entry>, revision: nat, reverts: nat) {
    && ledger == Trim(history)
    && revision == 1 + |history| + reverts
    && (forall e :: e in history ==> 2 <= e.revision <= revision && Ascending(e.paths))
    && (forall i, j :: 0 <= i < j < |history| ==> history[i].revision < history[j].revision)
    && (reverts == 0 ==> forall i :: 0 <= i < |history| ==> history[i].revision == i + 2)
  }

  lemma WindowSlides(ledger: seq<Entry>, history: seq<Entry>, revision: nat, reverts: nat, e: Entry)
    requires Window(ledger, history, revision, reverts)
    requires e.revision == revision + 1 && Ascending(e.paths)
    ensures Window(Trim(ledger + [e]), history + [e], revision + 1, reverts)
  {
    assert Trim(Trim(history) + [e]) == Trim(history + [e]);
  }

  lemma RevertSpendsARevision(ledger: seq<Entry>, history: seq<Entry>, revision: nat, reverts: nat)
    requires Window(ledger, history, revision, reverts)
    ensures Window(ledger, history, revision + 1, reverts + 1)
  {
  }

  /** Every path a bump after revision n changed, over the whole history. */
  ghost predicate ChangedAfter(history: seq<Entry>, n: int, p: Path) {
    exists e :: e in history && e.revision > n && p in e.paths
  }

  lemma ChangedAfterPlus(ledger: seq<Entry>, e: Entry, n: int)
    ensures forall p :: ChangedAfter(ledger + [e], n, p) <==>
              ChangedAfter(ledger, n, p) || (e.revision > n && p in e.paths)
  {
  }

  /** The guard ChangedSince answers under. */
  predicate Accountable(ledger: seq<Entry>, revision: nat, n: int) {
    1 <= n && (n == revision || (n < revision && ledger != [] && ledger[0].revision <= n + 1))
  }

  /** When the guard holds, no entry the window dropped is newer than n. */
  lemma NothingNewerWasDropped(ledger: seq<Entry>, history: seq<Entry>, revision: nat, reverts: nat, n: int)
    requires Window(ledger, history, revision, reverts) && Accountable(ledger, revision, n)
    ensures forall p :: ChangedAfter(history, n, p) <==> ChangedAfter(ledger, n, p)
  {
  }

  /** With no revert in the run, the ledger accounts for exactly the last 500 revisions. */
  lemma WindowReach(ledger: seq<Entry>, history: seq<Entry>, revision: nat, n: int)
    requires Window(ledger, history, revision, 0)
    ensures Accountable(ledger, revision, n) <==> 1 <= n <= revision && revision - 500 <= n
  {
  }
}
