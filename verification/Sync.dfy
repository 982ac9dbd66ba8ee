/** Keeping a language server's view of files the same as the disk: what Sync sends, and what the
    server makes of it by LSP's rules. */
module Sync {
  import opened Order
  import opened Workspace
  import opened Lines
  import opened Substitution
  import opened Wire
  import opened Positions

  type Uri = Path

  datatype Range = Range(start: Position, end: Position)

  datatype Message =
    | DidOpen(uri: Uri, version: nat, text: Bytes)
    | DidChange(uri: Uri, version: nat, range: Option<Range>, text: Bytes)
    | DidSave(uri: Uri, text: Bytes)

  // ---- The server -------------------------------------------------------------------------------------

  datatype Document = Document(version: nat, text: Bytes)

  type Documents = map<Uri, Document>

  /** A change replaces its range, or the whole document when it has none. A change to a document that
      is not open is ignored. */
  function Receive(docs: Documents, m: Message): Documents {
    match m
    case DidOpen(uri, version, text) => docs[uri := Document(version, text)]
    case DidChange(uri, version, range, text) =>
      if uri in docs then docs[uri := Document(version, Changed(docs[uri].text, range, text))] else docs
    case DidSave(_, _) => docs
  }

  function Changed(text: Bytes, range: Option<Range>, with: Bytes): Bytes {
    if range.None? then with
    else
      var start, end := Resolve(text, range.value.start), Resolve(text, range.value.end);
      if start <= end <= |text| then ReplaceRange(text, start, end, with) else text
  }

  /** The server's documents after everything sent. */
  function Replay(sent: seq<Message>): Documents {
    if sent == [] then map[] else Receive(Replay(sent[..|sent| - 1]), sent[|sent| - 1])
  }

  /** A document is opened once, before anything else is said of it, and every change raises its
      version. */
  predicate InOrder(docs: Documents, m: Message) {
    match m
    case DidOpen(uri, version, _) => uri !in docs
    case DidChange(uri, version, _, _) => uri in docs && version > docs[uri].version
    case DidSave(uri, _) => uri in docs
  }

  predicate WellSent(sent: seq<Message>) {
    sent == [] || (WellSent(sent[..|sent| - 1]) && InOrder(Replay(sent[..|sent| - 1]), sent[|sent| - 1]))
  }

  lemma OneMoreSent(sent: seq<Message>, m: Message)
    requires WellSent(sent) && InOrder(Replay(sent), m)
    ensures WellSent(sent + [m]) && Replay(sent + [m]) == Receive(Replay(sent), m)
  {
  }

  predicate IsAt(docs: Documents, uri: Uri, version: nat) {
    uri in docs && docs[uri].version >= version
  }

  lemma NothingGoesBack(docs: Documents, m: Message, uri: Uri, version: nat)
    requires InOrder(docs, m)
    requires IsAt(docs, uri, version) || (!m.DidSave? && m.uri == uri && m.version == version)
    ensures IsAt(Receive(docs, m), uri, version)
  {
  }

  lemma {:induction false} WellSentBefore(sent: seq<Message>, j: nat)
    requires WellSent(sent) && j <= |sent|
    ensures WellSent(sent[..j])
  {
    if j == |sent| {
      assert sent[..j] == sent;
    } else {
      assert sent[..|sent| - 1][..j] == sent[..j];
      WellSentBefore(sent[..|sent| - 1], j);
    }
  }

  lemma {:induction false} VersionStands(sent: seq<Message>, i: nat)
    requires WellSent(sent) && i < |sent| && !sent[i].DidSave?
    ensures IsAt(Replay(sent), sent[i].uri, sent[i].version)
  {
    var n := |sent| - 1;
    if i < n {
      VersionStands(sent[..n], i);
    }
    NothingGoesBack(Replay(sent[..n]), sent[n], sent[i].uri, sent[i].version);
  }

  /** Of any two messages that carry a version of one file, the later carries the greater, and only
      the first opens it. */
  lemma VersionsIncrease(sent: seq<Message>, i: nat, j: nat)
    requires WellSent(sent) && i < j < |sent| && sent[i].uri == sent[j].uri
    requires !sent[i].DidSave? && !sent[j].DidSave?
    ensures sent[j].DidChange? && sent[i].version < sent[j].version
  {
    var upTo := sent[..j + 1];
    WellSentBefore(sent, j + 1);
    assert upTo[..|upTo| - 1] == sent[..j];
    VersionStands(sent[..j], i);
  }

  // ---- In step ----------------------------------------------------------------------------------------

  /** What the server shows of a file. A torn one keeps an end of some earlier text behind it. */
  predicate Shows(shown: Bytes, text: Bytes, torn: bool) {
    if torn then OnTheWire(text) < shown else shown == OnTheWire(text)
  }

  /** The server's documents are the open files, at their versions, with the texts last read. */
  ghost predicate InStep(docs: Documents, open: map<Uri, nat>, openText: map<Uri, Bytes>, torn: set<Uri>) {
    && docs.Keys == open.Keys
    && forall uri :: uri in open ==>
         uri in openText && docs[uri].version == open[uri] && Shows(docs[uri].text, openText[uri], uri in torn)
  }

  lemma ShowsTheTextIff(shown: Bytes, text: Bytes, torn: bool)
    requires Shows(shown, text, torn)
    ensures shown == OnTheWire(text) <==> !torn
  {
  }

  /** The change an incremental server is sent: everything up to the previous text's end. */
  function WholeOf(previous: Bytes): Range {
    Range(Position(0, 0), EndPosition(previous))
  }

  /** A ranged change leaves exactly the new text when the server showed exactly the previous one and
      no return stood alone in that; otherwise something is left over behind the new text. */
  lemma RangedChange(shown: Bytes, previous: Bytes, torn: bool, text: Bytes)
    requires Shows(shown, previous, torn)
    ensures Shows(Changed(shown, Some(WholeOf(previous)), OnTheWire(text)), text, torn || !NoLoneReturn(previous))
  {
    var end := Resolve(shown, EndPosition(previous));
    StartResolves(shown);
    ResolvesWithin(shown, EndPosition(previous));
    if torn {
      SameEnd(previous);
      var scalars := WireIsWellFormed(previous);
      ArrivesAsIsIff(OnTheWire(previous));
      EndOfPrefix(OnTheWire(previous), shown);
    } else {
      EndOnTheWireIff(previous);
    }
    LeftOver(shown, end, OnTheWire(text));
  }

  lemma StartResolves(text: Bytes)
    ensures Resolve(text, Position(0, 0)) == 0
  {
  }

  lemma LeftOver(shown: Bytes, end: nat, text: Bytes)
    requires end <= |shown|
    ensures end == |shown| ==> ReplaceRange(shown, 0, end, text) == text
    ensures end < |shown| ==> text < ReplaceRange(shown, 0, end, text)
  {
  }

  lemma Updated(docs: Documents, open: map<Uri, nat>, openText: map<Uri, Bytes>, torn: set<Uri>, uri: Uri, version: nat,
                shown: Bytes, text: Bytes, now: set<Uri>)
    requires InStep(docs, open, openText, torn) && Shows(shown, text, uri in now)
    requires forall u :: u != uri ==> (u in now <==> u in torn)
    ensures InStep(docs[uri := Document(version, shown)], open[uri := version], openText[uri := text], now)
  {
  }

  // ---- What is sent -----------------------------------------------------------------------------------

  /** A ranged change of a text with a lone return does not reach its end. */
  predicate Tears(syncKind: int, openText: map<Uri, Bytes>, uri: Uri) {
    syncKind == 2 && uri in openText && !NoLoneReturn(openText[uri])
  }

  function TornBy(syncKind: int, openText: map<Uri, Bytes>, torn: set<Uri>, uri: Uri): set<Uri> {
    if Tears(syncKind, openText, uri) then torn + {uri} else torn
  }

  function NextVersion(open: map<Uri, nat>, uri: Uri): nat {
    if uri in open then open[uri] + 1 else 1
  }

  function RangeFor(syncKind: int, previous: Bytes): Option<Range> {
    if syncKind == 2 then Some(WholeOf(previous)) else None
  }

  /** didOpen the first time; then a change with the whole text, which an incremental server is sent
      with the range of the whole previous text. */
  function MessageFor(syncKind: int, open: map<Uri, nat>, openText: map<Uri, Bytes>, uri: Uri, text: Bytes): Message
    requires uri in open ==> uri in openText
  {
    if uri !in open then DidOpen(uri, NextVersion(open, uri), OnTheWire(text))
    else DidChange(uri, NextVersion(open, uri), RangeFor(syncKind, openText[uri]), OnTheWire(text))
  }

  lemma ChangeShows(syncKind: int, shown: Bytes, openText: map<Uri, Bytes>, torn: set<Uri>, uri: Uri, text: Bytes)
    requires uri in openText && Shows(shown, openText[uri], uri in torn) && (syncKind != 2 ==> torn == {})
    ensures Shows(Changed(shown, RangeFor(syncKind, openText[uri]), OnTheWire(text)), text,
                  uri in TornBy(syncKind, openText, torn, uri))
  {
    if syncKind == 2 {
      RangedChange(shown, openText[uri], uri in torn, text);
    }
  }

  /** Sending it keeps the server in step. */
  lemma MessageKeepsStep(syncKind: int, docs: Documents, open: map<Uri, nat>, openText: map<Uri, Bytes>,
                         torn: set<Uri>, uri: Uri, text: Bytes, m: Message, now: set<Uri>)
    requires InStep(docs, open, openText, torn) && open.Keys == openText.Keys
    requires torn <= open.Keys && (syncKind != 2 ==> torn == {})
    requires m == MessageFor(syncKind, open, openText, uri, text) && now == TornBy(syncKind, openText, torn, uri)
    ensures InOrder(docs, m)
    ensures InStep(Receive(docs, m), open[uri := NextVersion(open, uri)], openText[uri := text], now)
  {
    if uri in open {
      ChangeShows(syncKind, docs[uri].text, openText, torn, uri, text);
      Updated(docs, open, openText, torn, uri, NextVersion(open, uri), Changed(docs[uri].text, m.range, m.text),
        text, now);
    } else {
      Updated(docs, open, openText, torn, uri, NextVersion(open, uri), OnTheWire(text), text, now);
    }
  }

  class Client {
    var open: map<Uri, nat>
    var openText: map<Uri, Bytes>
    const syncKind: int
    const wantsSave: bool
    // Set for good once the process has exited or its pipe has broken.
    var gone: bool
    // Everything the server was sent, and the files that had a text with a lone return replaced.
    ghost var sent: seq<Message>
    ghost var torn: set<Uri>

    constructor (syncKind: int, wantsSave: bool)
      ensures Valid() && sent == [] && open == map[] && torn == {}
      ensures this.syncKind == syncKind && this.wantsSave == wantsSave
    {
      open, openText, gone, sent, torn := map[], map[], false, [], {};
      this.syncKind, this.wantsSave := syncKind, wantsSave;
    }

    ghost predicate Valid()
      reads this
    {
      && open.Keys == openText.Keys && torn <= open.Keys && (syncKind != 2 ==> torn == {})
      && WellSent(sent)
      && (!gone ==> InStep(Replay(sent), open, openText, torn))
    }

    method Notify(m: Message) returns (ok: bool)
      modifies this`gone, this`sent
      ensures ok <==> !gone
      ensures ok ==> !old(gone)
      ensures sent == if ok then old(sent) + [m] else old(sent)
    {
      ok := *;
      if gone || !ok {
        gone, ok := true, false;
      } else {
        sent := sent + [m];
      }
    }

    method Announcement(uri: Uri, text: Bytes) returns (m: Message)
      requires open.Keys == openText.Keys
      ensures m == MessageFor(syncKind, open, openText, uri, text)
    {
      if uri !in open {
        m := DidOpen(uri, 1, OnTheWire(text));
      } else if syncKind == 2 {
        var end := DocumentEnd(openText[uri]);
        m := DidChange(uri, open[uri] + 1, Some(Range(Position(0, 0), end)), OnTheWire(text));
      } else {
        m := DidChange(uri, open[uri] + 1, None, OnTheWire(text));
      }
    }

    /** What follows the text itself, for a server that asked to hear of saves. */
    function SaveOf(uri: Uri, text: Bytes): seq<Message> {
      if wantsSave then [DidSave(uri, OnTheWire(text))] else []
    }

    /** Sends a file's new text, the tables already up to date. */
    method Announce(uri: Uri, text: Bytes, m: Message) returns (ok: bool)
      requires WellSent(sent)
      requires !gone ==> InOrder(Replay(sent), m) && InStep(Receive(Replay(sent), m), open, openText, torn)
      requires uri in open
      modifies this`gone, this`sent
      ensures WellSent(sent) && old(sent) <= sent
      ensures ok ==> sent == old(sent) + [m] + SaveOf(uri, text)
      ensures ok <==> !gone
      ensures !gone ==> !old(gone)
      ensures !gone ==> InStep(Replay(sent), open, openText, torn)
    {
      if !gone {
        OneMoreSent(sent, m);
      }
      ok := Notify(m);
      if ok && wantsSave {
        ghost var before := sent;
        OneMoreSent(sent, DidSave(uri, OnTheWire(text)));
        ok := Notify(DidSave(uri, OnTheWire(text)));
        assert ok ==> sent == before + SaveOf(uri, text);
      } else {
        assert ok ==> sent == sent + SaveOf(uri, text);
      }
    }

    method SyncText(uri: Uri, text: Bytes) returns (ok: bool)
      requires Valid()
      modifies this
      ensures Valid()
      ensures open == old(open)[uri := NextVersion(old(open), uri)] && openText == old(openText)[uri := text]
      ensures torn == TornBy(syncKind, old(openText), old(torn), uri)
      ensures old(sent) <= sent && (ok <==> !gone) && (old(gone) ==> gone)
      ensures ok ==> sent == old(sent) + [MessageFor(syncKind, old(open), old(openText), uri, text)] + SaveOf(uri, text)
    {
      var m := Announcement(uri, text);
      ghost var now := TornBy(syncKind, openText, torn, uri);
      if !gone {
        MessageKeepsStep(syncKind, Replay(sent), open, openText, torn, uri, text, m, now);
      }
      var version := (if uri in open then open[uri] else 0) + 1;
      open, openText, torn := open[uri := version], openText[uri := text], now;
      ok := Announce(uri, text, m);
    }

    /** Tells the server what a file holds now. While the server is there, it shows exactly that,
        unless it takes ranged changes and some text of this file it was asked to replace had a lone
        return. */
    method Sync(disk: Disk, uri: Uri) returns (ok: bool)
      requires Valid()
      modifies this
      ensures Valid()
      ensures !disk.ReadFile(uri).Read? ==> !ok && unchanged(this)
      ensures disk.ReadFile(uri).Read? ==>
                && openText == old(openText)[uri := disk.files[uri]]
                && open == old(open)[uri := (if uri in old(open) then old(open)[uri] else 0) + 1]
                && torn == TornBy(syncKind, old(openText), old(torn), uri)
      ensures ok <==> disk.ReadFile(uri).Read? && !gone
      ensures ok ==> uri in Replay(sent)
      ensures ok ==> (Replay(sent)[uri].text == OnTheWire(disk.files[uri]) <==> uri !in torn)
      ensures old(sent) <= sent
      ensures ok ==>
                var text := disk.files[uri];
                sent == old(sent) + [MessageFor(syncKind, old(open), old(openText), uri, text)]
                     + (if wantsSave then [DidSave(uri, OnTheWire(text))] else [])
    {
      var r := disk.ReadFile(uri);
      if !r.Read? {
        return false;
      }
      ok := SyncText(uri, r.data);
      if ok {
        ShowsTheTextIff(Replay(sent)[uri].text, r.data, uri in torn);
      }
    }
  }
}
