// The caption-fetch pass: every ledger record that is not yet fetched is handed
// to the downloader; a successful download marks it done and records the title.

module Fetch {
  import opened Wrappers
  import opened Ledger

  /**
   * What `ydl.download([url])` and `ydl.extract_info(url)['title']` yield for a url:
   * a return code with the video title, or a raised `DownloadError`.
   */
  datatype Download = Finished(ret: int, title: string) | DownloadError

  /** The scripts let `DownloadError` escape the loop; the notebook cell catches it per record. */
  datatype Handling = Propagate | CatchDownloadError

  /** The skip test at the head of the loop: `done and title != None`. */
  predicate Fetched(e: Entry) {
    e.done && e.title.Some?
  }

  /** One iteration of the loop on record `e`; None when the exception escapes. */
  function FetchEntry(h: Handling, download: string -> Download, e: Entry): (r: Option<Entry>)
    ensures r.None? <==> h == Propagate && !Fetched(e) && download(e.url).DownloadError?
    ensures r.Some? ==> r.value.url == e.url && r.value.llmGen == e.llmGen
    ensures Fetched(e) ==> r == Some(e)
    ensures r.Some? && r.value != e ==>
      r.value.done && r.value.title.Some? && download(e.url) == Finished(0, r.value.title.value)
    ensures !Fetched(e) && download(e.url).Finished? && download(e.url).ret == 0 ==>
      r == Some(e.(done := true, title := Some(download(e.url).title)))
  {
    if Fetched(e) then Some(e)
    else
      match download(e.url)
      case DownloadError => if h == Propagate then None else Some(e)
      case Finished(ret, t) => if ret == 0 then Some(e.(done := true, title := Some(t))) else Some(e)
  }

  /** The whole loop; None when an exception escapes, in which case the ledger file is not rewritten. */
  function FetchPass(h: Handling, download: string -> Download, ledger: seq<Entry>): Option<seq<Entry>>
    decreases |ledger|
  {
    if ledger == [] then Some([])
    else
      match FetchEntry(h, download, ledger[0])
      case None => None
      case Some(e) =>
        match FetchPass(h, download, ledger[1..])
        case None => None
        case Some(rest) => Some([e] + rest)
  }

  /** The pass completes exactly when every record's iteration does, and then treats each record on its own. */
  lemma {:induction false} FetchPassMeaning(h: Handling, download: string -> Download, ledger: seq<Entry>)
    ensures FetchPass(h, download, ledger).Some? <==>
      forall i :: 0 <= i < |ledger| ==> FetchEntry(h, download, ledger[i]).Some?
    ensures FetchPass(h, download, ledger).Some? ==>
      var out := FetchPass(h, download, ledger).value;
      |out| == |ledger| && forall i :: 0 <= i < |ledger| ==> Some(out[i]) == FetchEntry(h, download, ledger[i])
    decreases |ledger|
  {
    if ledger != [] {
      var tail := ledger[1..];
      FetchPassMeaning(h, download, tail);
      assert forall i :: 1 <= i < |ledger| ==> ledger[i] == tail[i - 1];
      if FetchPass(h, download, ledger).Some? {
        var out := FetchPass(h, download, ledger).value;
        assert out == [FetchEntry(h, download, ledger[0]).value] + FetchPass(h, download, tail).value;
      }
    }
  }

  /** The notebook cell, which catches `DownloadError`, never aborts. */
  lemma {:induction false} CatchingPassCompletes(download: string -> Download, ledger: seq<Entry>)
    ensures FetchPass(CatchDownloadError, download, ledger).Some?
  {
    FetchPassMeaning(CatchDownloadError, download, ledger);
  }

  /**
   * Flags are monotone: a record done or titled before the pass still is after it,
   * its url and `LLM_gen` are untouched, and it changes exactly when it was not
   * fetched and its download returned zero, and then it is done under the video title.
   */
  lemma {:induction false} FetchMonotone(h: Handling, download: string -> Download, ledger: seq<Entry>)
    requires FetchPass(h, download, ledger).Some?
    ensures var out := FetchPass(h, download, ledger).value;
      |out| == |ledger|
      && forall i :: 0 <= i < |ledger| ==>
        out[i].url == ledger[i].url && out[i].llmGen == ledger[i].llmGen
        && (ledger[i].done ==> out[i].done)
        && (ledger[i].title.Some? ==> out[i].title.Some?)
        && (out[i] != ledger[i] ==> !Fetched(ledger[i]) && download(ledger[i].url).Finished? && download(ledger[i].url).ret == 0)
        && (!Fetched(ledger[i]) && download(ledger[i].url).Finished? && download(ledger[i].url).ret == 0 ==>
              out[i] == ledger[i].(done := true, title := Some(download(ledger[i].url).title)))
  {
    FetchPassMeaning(h, download, ledger);
  }

  /** Since urls are untouched, the ledger invariant of `save_json` survives the pass. */
  lemma FetchKeepsWellFormed(h: Handling, download: string -> Download, idOf: string -> Option<string>, ledger: seq<Entry>)
    requires WellFormed(idOf, ledger) && FetchPass(h, download, ledger).Some?
    ensures WellFormed(idOf, FetchPass(h, download, ledger).value)
  {
    FetchMonotone(h, download, ledger);
    var out := FetchPass(h, download, ledger).value;
    assert forall i :: 0 <= i < |out| ==> EntryId(idOf, out[i]) == EntryId(idOf, ledger[i]);
  }

  /** Every record marked done carries a title, before and after the pass. */
  predicate DoneHasTitle(ledger: seq<Entry>) {
    forall i :: 0 <= i < |ledger| ==> ledger[i].done ==> ledger[i].title.Some?
  }

  lemma {:induction false} FetchKeepsDoneHasTitle(h: Handling, download: string -> Download, ledger: seq<Entry>)
    requires DoneHasTitle(ledger) && FetchPass(h, download, ledger).Some?
    ensures DoneHasTitle(FetchPass(h, download, ledger).value)
  {
    FetchPassMeaning(h, download, ledger);
  }

  /**
   * A later run of the pass, with a downloader that may answer differently, leaves every
   * fetched record as it is, and the first run changed only records it fetched. Only
   * records still unfetched are retried, so the second run changes nothing when the
   * downloader gives the same answers for those.
   */
  lemma {:induction false} FetchRerun(h: Handling, download: string -> Download, download2: string -> Download, ledger: seq<Entry>)
    requires FetchPass(h, download, ledger).Some?
    ensures var out := FetchPass(h, download, ledger).value;
      |out| == |ledger|
      && (forall i :: 0 <= i < |out| && out[i] != ledger[i] ==> Fetched(out[i]))
      && (FetchPass(h, download2, out).Some? ==>
            var out2 := FetchPass(h, download2, out).value;
            |out2| == |out| && forall i :: 0 <= i < |out| && Fetched(out[i]) ==> out2[i] == out[i])
      && ((forall i :: 0 <= i < |out| && !Fetched(out[i]) ==> download2(out[i].url) == download(out[i].url))
            ==> FetchPass(h, download2, out) == Some(out))
  {
    var out := FetchPass(h, download, ledger).value;
    FetchPassMeaning(h, download, ledger);
    FetchPassMeaning(h, download2, out);
    forall i | 0 <= i < |out|
      ensures out[i] != ledger[i] ==> Fetched(out[i])
      ensures Fetched(out[i]) ==> FetchEntry(h, download2, out[i]) == Some(out[i])
      ensures download2(out[i].url) == download(out[i].url) ==> FetchEntry(h, download2, out[i]) == Some(out[i])
    {
      FetchEntryStable(h, download, download2, ledger[i]);
    }
    if forall i :: 0 <= i < |out| && !Fetched(out[i]) ==> download2(out[i].url) == download(out[i].url) {
      assert FetchPass(h, download2, out).value == out;
    }
  }

  /**
   * One iteration either leaves the record as it was or leaves it fetched; a fetched record
   * is skipped by any later iteration, and an unfetched one is left alone again when the
   * downloader repeats its answer.
   */
  lemma FetchEntryStable(h: Handling, download: string -> Download, download2: string -> Download, e: Entry)
    requires FetchEntry(h, download, e).Some?
    ensures var e1 := FetchEntry(h, download, e).value;
      (e1 == e || Fetched(e1))
      && (Fetched(e1) ==> FetchEntry(h, download2, e1) == Some(e1))
      && (download2(e.url) == download(e.url) ==> FetchEntry(h, download2, e1) == Some(e1))
  {
  }
}
