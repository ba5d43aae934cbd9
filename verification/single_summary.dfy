// The summary pass of `single_summarize.py`: the caption titles are collected
// first (`title_list` sanitised, `contents_dic` keyed by the raw title), and then
// each ledger record is looked up by its title.
//
// As written, `main` compares the ledger title as stored with the sanitised
// caption titles, and then looks the transcript up under the stored title. The
// corrected variant sanitises the ledger title for both.

module SingleSummary {
  import opened Wrappers
  import opened Sanitizer
  import opened Ledger
  import opened Summary

  /** How a record title and a caption title are compared: as stored, or both sanitised. */
  datatype Keying = AsWritten | Sanitised

  /** The key a title is looked up under. */
  function Key(k: Keying, s: string): string {
    if k == AsWritten then s else ReplaceChars(s)
  }

  /** `title_list`: the sanitised caption titles in directory order; None when a path does not match the title pattern. */
  function TitleList(caps: seq<Caption>): (r: Option<seq<string>>)
    ensures r.Some? <==> forall k :: 0 <= k < |caps| ==> caps[k].name.Some?
    ensures r.Some? ==> |r.value| == |caps| && forall k :: 0 <= k < |caps| ==> r.value[k] == ReplaceChars(caps[k].name.value)
    decreases |caps|
  {
    if caps == [] then Some([])
    else
      match caps[0].name
      case None => None
      case Some(n) =>
        match TitleList(caps[1..])
        case None => None
        case Some(rest) => Some([ReplaceChars(n)] + rest)
  }

  /** The transcript stored under `key`: the last caption with that key wins, as later dictionary assignments overwrite. */
  function ContentsFor(k: Keying, caps: seq<Caption>, key: string): (r: Option<string>)
    ensures r.Some? <==> exists j :: 0 <= j < |caps| && caps[j].name.Some? && Key(k, caps[j].name.value) == key
    ensures r.Some? ==>
      exists j :: 0 <= j < |caps| && caps[j].name.Some? && Key(k, caps[j].name.value) == key
        && r.value == caps[j].transcript
        && forall j' :: j < j' < |caps| ==> !(caps[j'].name.Some? && Key(k, caps[j'].name.value) == key)
    decreases |caps|
  {
    if caps == [] then None
    else
      var last := caps[|caps| - 1];
      if last.name.Some? && Key(k, last.name.value) == key then Some(last.transcript)
      else
        var r := ContentsFor(k, caps[..|caps| - 1], key);
        assert forall j :: 0 <= j < |caps| - 1 ==> caps[..|caps| - 1][j] == caps[j];
        r
  }

  /**
   * The body of the loop over the ledger for record `e` at position `i`: records
   * whose key is not in the title list are skipped; a matched unflagged record has
   * its transcript looked up (`KeyError` when missing), summarised, its file written,
   * and only then its flag set.
   */
  function MainStep(k: Keying, llm: string -> Option<string>, titles: seq<string>, caps: seq<Caption>, e: Entry, i: nat): (r: Option<Step>)
    ensures r.None? <==>
      e.title.Some? && Key(k, e.title.value) in titles && !e.llmGen
      && (ContentsFor(k, caps, Key(k, e.title.value)).None?
          || llm(ContentsFor(k, caps, Key(k, e.title.value)).value).None?)
    ensures r.Some? ==> r.value.entry == e.(llmGen := r.value.entry.llmGen)
    ensures r.Some? ==>
      (r.value.entry.llmGen <==> e.llmGen || (e.title.Some? && Key(k, e.title.value) in titles))
    ensures r.Some? ==> (r.value.written != [] <==> r.value.entry.llmGen && !e.llmGen)
    ensures r.Some? && r.value.written != [] ==>
      && e.title.Some? && ContentsFor(k, caps, Key(k, e.title.value)).Some?
      && llm(ContentsFor(k, caps, Key(k, e.title.value)).value).Some?
      && r.value.written == [Written(i, Key(k, e.title.value), llm(ContentsFor(k, caps, Key(k, e.title.value)).value).value)]
  {
    if e.title.None? || Key(k, e.title.value) !in titles || e.llmGen then Some(Step(e, []))
    else
      var key := Key(k, e.title.value);
      match ContentsFor(k, caps, key)
      case None => None
      case Some(x) =>
        match llm(x)
        case None => None
        case Some(res) => Some(Step(e.(llmGen := true), [Written(i, key, res)]))
  }

  function MainScan(k: Keying, llm: string -> Option<string>, titles: seq<string>, caps: seq<Caption>, ledger: seq<Entry>): Option<Run>
    decreases |ledger|
  {
    if ledger == [] then Some(Run([], []))
    else
      var n := |ledger| - 1;
      match MainScan(k, llm, titles, caps, ledger[..n])
      case None => None
      case Some(r) =>
        match MainStep(k, llm, titles, caps, ledger[n], n)
        case None => None
        case Some(s) => Some(Run(r.ledger + [s.entry], r.written + s.written))
  }

  /** `main()`, preceded by the collection loop over the caption files. */
  function Main(k: Keying, llm: string -> Option<string>, caps: seq<Caption>, ledger: seq<Entry>): Option<Run> {
    match TitleList(caps)
    case None => None
    case Some(titles) => MainScan(k, llm, titles, caps, ledger)
  }

  lemma {:induction false} MainScanLedger(k: Keying, llm: string -> Option<string>, titles: seq<string>, caps: seq<Caption>, ledger: seq<Entry>)
    requires MainScan(k, llm, titles, caps, ledger).Some?
    ensures var r := MainScan(k, llm, titles, caps, ledger).value;
      |r.ledger| == |ledger|
      && forall j :: 0 <= j < |ledger| ==>
        MainStep(k, llm, titles, caps, ledger[j], j).Some? && r.ledger[j] == MainStep(k, llm, titles, caps, ledger[j], j).value.entry
    decreases |ledger|
  {
    var n := |ledger| - 1;
    if n >= 0 {
      MainScanLedger(k, llm, titles, caps, ledger[..n]);
      assert forall j :: 0 <= j < n ==> ledger[..n][j] == ledger[j];
    }
  }

  /**
   * After a completed run a record is flagged exactly when it was flagged before or
   * its key is among the sanitised caption titles; nothing else in a record changes.
   */
  lemma MainFlags(k: Keying, llm: string -> Option<string>, caps: seq<Caption>, ledger: seq<Entry>)
    requires Main(k, llm, caps, ledger).Some?
    ensures TitleList(caps).Some?
    ensures var out := Main(k, llm, caps, ledger).value.ledger;
      |out| == |ledger|
      && forall i :: 0 <= i < |ledger| ==>
        out[i] == ledger[i].(llmGen := out[i].llmGen)
        && (out[i].llmGen <==> ledger[i].llmGen || (ledger[i].title.Some? && Key(k, ledger[i].title.value) in TitleList(caps).value))
  {
    MainScanLedger(k, llm, TitleList(caps).value, caps, ledger);
  }

  // ---------------------------------------------------------------- as written

  /**
   * As written, a record whose stored title holds a character `replace_chars`
   * changes (a space, a colon, …) is never summarised, not even when a caption
   * file carries exactly that title: the stored title is compared with sanitised
   * caption titles, which never contain such a character.
   */
  lemma UnsafeTitleNeverSummarised(llm: string -> Option<string>, caps: seq<Caption>, ledger: seq<Entry>, i: nat)
    requires Main(AsWritten, llm, caps, ledger).Some?
    requires i < |ledger| && ledger[i].title.Some? && !IsSafe(ledger[i].title.value) && !ledger[i].llmGen
    ensures var out := Main(AsWritten, llm, caps, ledger).value.ledger;
      i < |out| && !out[i].llmGen
  {
    MainFlags(AsWritten, llm, caps, ledger);
    var titles := TitleList(caps).value;
    forall j | 0 <= j < |titles|
      ensures titles[j] != ledger[i].title.value
    {
      assert IsSafe(titles[j]);
    }
  }

  /** The case in point: a caption named exactly like the record it belongs to. */
  lemma SpacedTitleExample(llm: string -> Option<string>, url: string, x: string)
    ensures var e := Entry(url, true, Some("a b"), false);
      var c := Caption(Some("a b"), x);
      Matches(c, e)
      && Main(AsWritten, llm, [c], [e]).Some?
      && !Main(AsWritten, llm, [c], [e]).value.ledger[0].llmGen
  {
    var e := Entry(url, true, Some("a b"), false);
    var c := Caption(Some("a b"), x);
    assert !IsSafe("a b") by { assert "a b"[1] == ' '; }
    var titles := TitleList([c]).value;
    assert titles[0] == ReplaceChars("a b");
    assert "a b" !in titles by { assert IsSafe(titles[0]); }
    assert MainStep(AsWritten, llm, titles, [c], e, 0) == Some(Step(e, []));
    assert [e][..0] == [];
    assert MainScan(AsWritten, llm, titles, [c], [e]) == Some(Run([] + [e], [] + []));
    UnsafeTitleNeverSummarised(llm, [c], [e], 0);
  }

  // ---------------------------------------------------------------- corrected

  /** With both titles sanitised, a record's key is in the title list exactly when some caption matches it. */
  lemma SanitisedKeyMeansMatch(caps: seq<Caption>, e: Entry)
    requires TitleList(caps).Some? && e.title.Some?
    ensures Key(Sanitised, e.title.value) in TitleList(caps).value <==> exists j :: 0 <= j < |caps| && Matches(caps[j], e)
  {
    var titles := TitleList(caps).value;
    if Key(Sanitised, e.title.value) in titles {
      var j :| 0 <= j < |titles| && titles[j] == Key(Sanitised, e.title.value);
      assert Matches(caps[j], e);
    }
    if exists j :: 0 <= j < |caps| && Matches(caps[j], e) {
      var j :| 0 <= j < |caps| && Matches(caps[j], e);
      assert titles[j] == Key(Sanitised, e.title.value);
    }
  }

  /**
   * Corrected: after a completed run a record is flagged exactly when it was flagged
   * before or some caption matches its sanitised title, as in the other copies of
   * the pass.
   */
  lemma CorrectedMainFlags(llm: string -> Option<string>, caps: seq<Caption>, ledger: seq<Entry>)
    requires Main(Sanitised, llm, caps, ledger).Some?
    ensures var out := Main(Sanitised, llm, caps, ledger).value.ledger;
      |out| == |ledger|
      && forall i :: 0 <= i < |ledger| ==>
        (out[i].llmGen <==> ledger[i].llmGen || exists j :: 0 <= j < |caps| && Matches(caps[j], ledger[i]))
  {
    MainFlags(Sanitised, llm, caps, ledger);
    forall i | 0 <= i < |ledger| && ledger[i].title.Some?
      ensures Key(Sanitised, ledger[i].title.value) in TitleList(caps).value <==>
        exists j :: 0 <= j < |caps| && Matches(caps[j], ledger[i])
    {
      SanitisedKeyMeansMatch(caps, ledger[i]);
    }
  }

  /**
   * Corrected: the transcript lookup never misses, so once every caption path
   * matches the pattern the run completes whenever the LLM answers every call it
   * makes.
   */
  lemma {:induction false} CorrectedMainCompletes(llm: string -> Option<string>, caps: seq<Caption>, ledger: seq<Entry>)
    requires forall j :: 0 <= j < |caps| ==> caps[j].name.Some?
    requires forall key :: ContentsFor(Sanitised, caps, key).Some? ==> llm(ContentsFor(Sanitised, caps, key).value).Some?
    ensures Main(Sanitised, llm, caps, ledger).Some?
    decreases |ledger|
  {
    var titles := TitleList(caps).value;
    if ledger != [] {
      var n := |ledger| - 1;
      CorrectedMainCompletes(llm, caps, ledger[..n]);
      var e := ledger[n];
      if e.title.Some? && Key(Sanitised, e.title.value) in titles {
        var j :| 0 <= j < |titles| && titles[j] == Key(Sanitised, e.title.value);
        assert caps[j].name.Some? && Key(Sanitised, caps[j].name.value) == Key(Sanitised, e.title.value);
      }
    }
  }
}
