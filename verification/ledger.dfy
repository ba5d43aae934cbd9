// The link ledger `youtube_links.json`: a list of records, one per video, and
// `save_json`, which validates a URL and appends a default record for a video
// id the ledger does not hold yet.

module Ledger {
  import opened Wrappers
  import opened YoutubeUrl

  /** One record of the ledger: `{"url", "done", "title", "LLM_gen"}`. */
  datatype Entry = Entry(url: string, done: bool, title: Option<string>, llmGen: bool)

  /** The record `save_json` appends for a link it has not seen. */
  function NewEntry(url: string): Entry {
    Entry(url, false, None, false)
  }

  /**
   * The id extractor `_YT_REGEX.search(url.strip()).group(1)` of one grammar.
   * The ledger operations below take the extractor as a parameter `idOf`, so
   * their proofs do not depend on how a grammar reads a url.
   */
  function IdOf(g: Grammar): string -> Option<string> {
    u => VideoId(g, u)
  }

  /** The video id the extractor reads from a record's url, if any. */
  function EntryId(idOf: string -> Option<string>, e: Entry): Option<string> {
    idOf(e.url)
  }

  // ---------------------------------------------------------------- reference predicates

  /** Every stored url is accepted by the grammar. */
  predicate ParsesAll(idOf: string -> Option<string>, ledger: seq<Entry>) {
    forall i :: 0 <= i < |ledger| ==> EntryId(idOf, ledger[i]).Some?
  }

  /** Some record carries video id `id`. */
  predicate HasId(idOf: string -> Option<string>, ledger: seq<Entry>, id: string) {
    exists i :: 0 <= i < |ledger| && EntryId(idOf, ledger[i]) == Some(id)
  }

  /** The ledger invariant: every url parses and no two records share a video id. */
  predicate WellFormed(idOf: string -> Option<string>, ledger: seq<Entry>) {
    ParsesAll(idOf, ledger)
    && forall i, j :: 0 <= i < j < |ledger| ==> EntryId(idOf, ledger[i]) != EntryId(idOf, ledger[j])
  }

  /** The records before position `k` all parse, and none of them carries `id`. */
  predicate ClearBefore(idOf: string -> Option<string>, ledger: seq<Entry>, id: string, k: int) {
    k <= |ledger| && forall j :: 0 <= j < k ==> EntryId(idOf, ledger[j]).Some? && EntryId(idOf, ledger[j]) != Some(id)
  }

  // ---------------------------------------------------------------- the duplicate scan

  /**
   * How the loop over the ledger ends: `break` on a record with the same id,
   * falling off the end, or `match.group(1)` on a record whose url does not
   * parse (`AttributeError` on None).
   */
  datatype Scan = Found | Absent | Unparsable

  function FindId(idOf: string -> Option<string>, ledger: seq<Entry>, id: string): Scan
    decreases |ledger|
  {
    if ledger == [] then Absent
    else
      match EntryId(idOf, ledger[0])
      case None => Unparsable
      case Some(x) => if x == id then Found else FindId(idOf, ledger[1..], id)
  }

  /** The scan stops at the first record that either carries `id` or does not parse. */
  lemma {:induction false} FindIdMeaning(idOf: string -> Option<string>, ledger: seq<Entry>, id: string)
    ensures FindId(idOf, ledger, id) == Found <==>
      exists i :: 0 <= i < |ledger| && ClearBefore(idOf, ledger, id, i) && EntryId(idOf, ledger[i]) == Some(id)
    ensures FindId(idOf, ledger, id) == Unparsable <==>
      exists i :: 0 <= i < |ledger| && ClearBefore(idOf, ledger, id, i) && EntryId(idOf, ledger[i]) == None
    ensures FindId(idOf, ledger, id) == Absent <==> ClearBefore(idOf, ledger, id, |ledger|)
  {
    FindIdFound(idOf, ledger, id);
    FindIdUnparsable(idOf, ledger, id);
    FindIdAbsent(idOf, ledger, id);
  }

  /** A head record that parses to another id: the records before `k + 1` are clear exactly when those of the tail before `k` are. */
  lemma ClearShift(idOf: string -> Option<string>, ledger: seq<Entry>, id: string, k: nat)
    requires ledger != [] && k <= |ledger| - 1
    requires EntryId(idOf, ledger[0]).Some? && EntryId(idOf, ledger[0]) != Some(id)
    ensures ClearBefore(idOf, ledger, id, k + 1) <==> ClearBefore(idOf, ledger[1..], id, k)
  {
    assert forall j :: 0 <= j < k ==> ledger[1..][j] == ledger[j + 1];
  }

  lemma {:induction false} FindIdFound(idOf: string -> Option<string>, ledger: seq<Entry>, id: string)
    ensures FindId(idOf, ledger, id) == Found <==>
      exists i :: 0 <= i < |ledger| && ClearBefore(idOf, ledger, id, i) && EntryId(idOf, ledger[i]) == Some(id)
    decreases |ledger|
  {
    if ledger != [] {
      var tail := ledger[1..];
      FindIdFound(idOf, tail, id);
      if EntryId(idOf, ledger[0]).Some? && EntryId(idOf, ledger[0]) != Some(id) {
        if FindId(idOf, tail, id) == Found {
          var i :| 0 <= i < |tail| && ClearBefore(idOf, tail, id, i) && EntryId(idOf, tail[i]) == Some(id);
          ClearShift(idOf, ledger, id, i);
          assert ledger[i + 1] == tail[i];
        }
        if exists i :: 0 <= i < |ledger| && ClearBefore(idOf, ledger, id, i) && EntryId(idOf, ledger[i]) == Some(id) {
          var i :| 0 <= i < |ledger| && ClearBefore(idOf, ledger, id, i) && EntryId(idOf, ledger[i]) == Some(id);
          assert i != 0;
          ClearShift(idOf, ledger, id, i - 1);
          assert tail[i - 1] == ledger[i];
        }
      } else {
        assert ClearBefore(idOf, ledger, id, 0);
      }
    }
  }

  lemma {:induction false} FindIdUnparsable(idOf: string -> Option<string>, ledger: seq<Entry>, id: string)
    ensures FindId(idOf, ledger, id) == Unparsable <==>
      exists i :: 0 <= i < |ledger| && ClearBefore(idOf, ledger, id, i) && EntryId(idOf, ledger[i]) == None
    decreases |ledger|
  {
    if ledger != [] {
      var tail := ledger[1..];
      FindIdUnparsable(idOf, tail, id);
      if EntryId(idOf, ledger[0]).Some? && EntryId(idOf, ledger[0]) != Some(id) {
        if FindId(idOf, tail, id) == Unparsable {
          var i :| 0 <= i < |tail| && ClearBefore(idOf, tail, id, i) && EntryId(idOf, tail[i]) == None;
          ClearShift(idOf, ledger, id, i);
          assert ledger[i + 1] == tail[i];
        }
        if exists i :: 0 <= i < |ledger| && ClearBefore(idOf, ledger, id, i) && EntryId(idOf, ledger[i]) == None {
          var i :| 0 <= i < |ledger| && ClearBefore(idOf, ledger, id, i) && EntryId(idOf, ledger[i]) == None;
          assert i != 0;
          ClearShift(idOf, ledger, id, i - 1);
          assert tail[i - 1] == ledger[i];
        }
      } else {
        assert ClearBefore(idOf, ledger, id, 0);
      }
    }
  }

  lemma {:induction false} FindIdAbsent(idOf: string -> Option<string>, ledger: seq<Entry>, id: string)
    ensures FindId(idOf, ledger, id) == Absent <==> ClearBefore(idOf, ledger, id, |ledger|)
    decreases |ledger|
  {
    if ledger != [] {
      var tail := ledger[1..];
      FindIdAbsent(idOf, tail, id);
      if EntryId(idOf, ledger[0]).Some? && EntryId(idOf, ledger[0]) != Some(id) {
        ClearShift(idOf, ledger, id, |tail|);
      } else {
        assert !ClearBefore(idOf, ledger, id, |ledger|) by { assert 0 < |ledger|; }
      }
    }
  }

  /** On a ledger whose urls all parse the scan never crashes, and it finds `id` exactly when a record carries it. */
  lemma {:induction false} FindIdOnParsed(idOf: string -> Option<string>, ledger: seq<Entry>, id: string)
    requires ParsesAll(idOf, ledger)
    ensures FindId(idOf, ledger, id) != Unparsable
    ensures FindId(idOf, ledger, id) == Found <==> HasId(idOf, ledger, id)
  {
    FindIdMeaning(idOf, ledger, id);
    if HasId(idOf, ledger, id) {
      FirstWithId(idOf, ledger, id);
    }
  }

  lemma FirstWithId(idOf: string -> Option<string>, ledger: seq<Entry>, id: string)
    requires ParsesAll(idOf, ledger) && HasId(idOf, ledger, id)
    ensures exists i :: 0 <= i < |ledger| && ClearBefore(idOf, ledger, id, i) && EntryId(idOf, ledger[i]) == Some(id)
  {
    var i :| 0 <= i < |ledger| && EntryId(idOf, ledger[i]) == Some(id);
    var k := 0;
    while k < |ledger| && EntryId(idOf, ledger[k]) != Some(id)
      invariant 0 <= k <= i
      invariant ClearBefore(idOf, ledger, id, k)
    {
      k := k + 1;
    }
  }

  // ---------------------------------------------------------------- save_json

  /**
   * The outcomes of `save_json(url)`: `return False` on an invalid url, `return True`
   * without writing on a known id, `return True` after writing the extended list,
   * and an uncaught exception (the file is then left as it was).
   */
  datatype SaveOutcome = Rejected | AlreadyKnown | Appended(ledger: seq<Entry>) | Crashed

  function SaveJson(idOf: string -> Option<string>, ledger: seq<Entry>, url: string): (o: SaveOutcome)
    ensures o.Appended? ==> |o.ledger| == |ledger| + 1 && o.ledger[..|ledger|] == ledger
  {
    match idOf(url)
    case None => Rejected
    case Some(id) =>
      match FindId(idOf, ledger, id)
      case Found => AlreadyKnown
      case Unparsable => Crashed
      case Absent => Appended(ledger + [NewEntry(url)])
  }

  /** The value `save_json` returns, or None when it raises. */
  function Returned(o: SaveOutcome): Option<bool> {
    match o
    case Rejected => Some(false)
    case AlreadyKnown => Some(true)
    case Appended(_) => Some(true)
    case Crashed => None
  }

  /** The ledger file after the call. */
  function After(ledger: seq<Entry>, o: SaveOutcome): seq<Entry> {
    if o.Appended? then o.ledger else ledger
  }

  /** An invalid url is refused with False and nothing is written. */
  lemma SaveRejectsInvalid(idOf: string -> Option<string>, ledger: seq<Entry>, url: string)
    ensures idOf(url).None? <==> Returned(SaveJson(idOf, ledger, url)) == Some(false)
    ensures idOf(url).None? ==> After(ledger, SaveJson(idOf, ledger, url)) == ledger
  {
  }

  /**
   * On a well-formed ledger `save_json` never raises; a known id leaves the ledger
   * as it was, a new id appends exactly the default record for the url as given,
   * and the ledger stays well-formed.
   */
  lemma SaveOnWellFormed(idOf: string -> Option<string>, ledger: seq<Entry>, url: string)
    requires WellFormed(idOf, ledger)
    ensures SaveJson(idOf, ledger, url) != Crashed
    ensures idOf(url).Some? && HasId(idOf, ledger, idOf(url).value) ==>
      SaveJson(idOf, ledger, url) == AlreadyKnown
    ensures idOf(url).Some? && !HasId(idOf, ledger, idOf(url).value) ==>
      SaveJson(idOf, ledger, url) == Appended(ledger + [NewEntry(url)])
    ensures WellFormed(idOf, After(ledger, SaveJson(idOf, ledger, url)))
  {
    if idOf(url).Some? {
      var id := idOf(url).value;
      FindIdOnParsed(idOf, ledger, id);
      if !HasId(idOf, ledger, id) {
        AppendKeepsWellFormed(idOf, ledger, url);
      }
    }
  }

  lemma AppendKeepsWellFormed(idOf: string -> Option<string>, ledger: seq<Entry>, url: string)
    requires WellFormed(idOf, ledger) && idOf(url).Some? && !HasId(idOf, ledger, idOf(url).value)
    ensures WellFormed(idOf, ledger + [NewEntry(url)])
  {
    var l2 := ledger + [NewEntry(url)];
    assert EntryId(idOf, l2[|ledger|]) == idOf(url);
    forall i | 0 <= i < |ledger|
      ensures l2[i] == ledger[i]
    {
    }
  }

  /**
   * Two urls with the same video id but different tails (`&t=…`, `?si=…`) collapse:
   * saving the second after the first changes nothing and still returns True.
   */
  lemma SameIdCollapses(idOf: string -> Option<string>, ledger: seq<Entry>, u1: string, u2: string)
    requires WellFormed(idOf, ledger)
    requires idOf(u1).Some? && idOf(u1) == idOf(u2)
    ensures var l1 := After(ledger, SaveJson(idOf, ledger, u1));
      SaveJson(idOf, l1, u2) == AlreadyKnown && Returned(SaveJson(idOf, l1, u2)) == Some(true)
  {
    var id := idOf(u1).value;
    SaveOnWellFormed(idOf, ledger, u1);
    var l1 := After(ledger, SaveJson(idOf, ledger, u1));
    assert HasId(idOf, l1, id) by {
      if HasId(idOf, ledger, id) {
        var i :| 0 <= i < |ledger| && EntryId(idOf, ledger[i]) == Some(id);
        assert l1[i] == ledger[i];
      } else {
        assert l1[|ledger|] == NewEntry(u1);
      }
    }
    SaveOnWellFormed(idOf, l1, u2);
  }

  /** A link built by `make_youtube_url` is always accepted by the strict `save_json`. */
  lemma PlaylistLinkAccepted(ledger: seq<Entry>, videoId: string)
    requires |videoId| >= 1 && AllIdChars(videoId)
    ensures SaveJson(IdOf(Strict), ledger, MakeYoutubeUrl(videoId)) != Rejected
  {
    var u := MakeYoutubeUrl(videoId);
    StrictRoundTrip(videoId);
    assert IdOf(Strict)(u).Some?;
    SaveRejectsInvalid(IdOf(Strict), ledger, u);
  }

  // ---------------------------------------------------------------- the playlist cell

  /** The ledger file after `save_json` has been called on each url in order. */
  function SaveAll(idOf: string -> Option<string>, ledger: seq<Entry>, urls: seq<string>): seq<Entry>
    decreases |urls|
  {
    if urls == [] then ledger
    else SaveAll(idOf, After(ledger, SaveJson(idOf, ledger, urls[0])), urls[1..])
  }

  /**
   * Saving a list of links into a well-formed ledger keeps it well-formed, only
   * appends, and afterwards the ledger holds the id of every accepted link.
   */
  lemma {:induction false} SaveAllMeaning(idOf: string -> Option<string>, ledger: seq<Entry>, urls: seq<string>)
    requires WellFormed(idOf, ledger)
    ensures WellFormed(idOf, SaveAll(idOf, ledger, urls))
    ensures ledger <= SaveAll(idOf, ledger, urls)
    ensures forall k :: 0 <= k < |urls| && idOf(urls[k]).Some? ==>
      HasId(idOf, SaveAll(idOf, ledger, urls), idOf(urls[k]).value)
    decreases |urls|
  {
    if urls != [] {
      SaveOnWellFormed(idOf, ledger, urls[0]);
      var l1 := After(ledger, SaveJson(idOf, ledger, urls[0]));
      SaveAllMeaning(idOf, l1, urls[1..]);
      var out := SaveAll(idOf, ledger, urls);
      assert out == SaveAll(idOf, l1, urls[1..]);
      forall k | 0 <= k < |urls| && idOf(urls[k]).Some?
        ensures HasId(idOf, out, idOf(urls[k]).value)
      {
        if k == 0 {
          var id := idOf(urls[0]).value;
          assert HasId(idOf, l1, id) by {
            if HasId(idOf, ledger, id) {
              var i :| 0 <= i < |ledger| && EntryId(idOf, ledger[i]) == Some(id);
              assert l1[i] == ledger[i];
            } else {
              assert l1[|ledger|] == NewEntry(urls[0]);
            }
          }
          var i :| 0 <= i < |l1| && EntryId(idOf, l1[i]) == Some(id);
          assert out[i] == l1[i];
        } else {
          assert urls[k] == urls[1..][k - 1];
        }
      }
    }
  }
}
