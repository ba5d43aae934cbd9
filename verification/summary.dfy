// The summary pass: for every caption file, every ledger record whose sanitised
// title equals the sanitised caption title and whose `LLM_gen` flag is still
// False gets a summary written and the flag set.

module Summary {
  import opened Wrappers
  import opened Sanitizer
  import opened Ledger

  /**
   * A file of `captions/`: the title group of `captions\\(.*).ja.srt` on its path
   * (None when the path does not match) and the transcript text drawn from it.
   */
  datatype Caption = Caption(name: Option<string>, transcript: string)

  /** A summary file `summary/<stem>.md` written for ledger record `index`. */
  datatype Written = Written(index: nat, stem: string, body: string)

  /** A completed pass: the ledger written back and the summary files written, in order. */
  datatype Run = Run(ledger: seq<Entry>, written: seq<Written>)

  /** One record's part of an iteration: the record afterwards and the file written for it, if any. */
  datatype Step = Step(entry: Entry, written: seq<Written>)

  /**
   * The copies of the loop differ in two places.
   * - SkipUnnamed (`summarize_json` of the core module): a caption path that does not
   *   match is skipped; the flag is set before the LLM call, whose failure escapes.
   * - FlagFirst (`summarize.py`, and `app` of the core module): an unmatched path
   *   escapes as `TypeError`; the flag is set before the LLM call, whose failure escapes.
   * - FlagAfter (the notebook cell): an unmatched path escapes; an LLM failure is
   *   caught, and the flag is set only after the file is written.
   */
  datatype Variant = SkipUnnamed | FlagFirst | FlagAfter

  /** The caption and the record name the same video once both titles are sanitised. */
  predicate Matches(c: Caption, e: Entry) {
    c.name.Some? && e.title.Some? && ReplaceChars(c.name.value) == ReplaceChars(e.title.value)
  }

  /** A matching unflagged record ends up flagged: always, unless the variant catches the LLM failure. */
  predicate Succeeds(v: Variant, llm: string -> Option<string>, c: Caption) {
    v != FlagAfter || llm(c.transcript).Some?
  }

  // ---------------------------------------------------------------- one caption, one record

  /**
   * The body of the inner loop for record `e` at position `i`, for a caption with
   * sanitised title `t` and transcript `x`; None when an exception escapes
   * (`replace_chars(None)` on an untitled record, or an uncaught LLM failure).
   */
  function EntryStep(v: Variant, llm: string -> Option<string>, t: string, x: string, e: Entry, i: nat): (r: Option<Step>)
    ensures r.None? <==>
      e.title.None? || (ReplaceChars(e.title.value) == t && !e.llmGen && llm(x).None? && v != FlagAfter)
    ensures r.Some? ==>
      r.value.entry == e.(title := Some(ReplaceChars(e.title.value)), llmGen := r.value.entry.llmGen)
    ensures r.Some? ==>
      (r.value.entry.llmGen <==> e.llmGen || (ReplaceChars(e.title.value) == t && llm(x).Some?))
    ensures r.Some? ==>
      (r.value.written != [] <==> r.value.entry.llmGen && !e.llmGen)
    ensures r.Some? && r.value.written != [] ==> r.value.written == [Written(i, t, llm(x).value)]
  {
    if e.title.None? then None
    else
      var e1 := e.(title := Some(ReplaceChars(e.title.value)));
      if t != e1.title.value || e1.llmGen then Some(Step(e1, []))
      else
        match llm(x)
        case None => if v == FlagAfter then Some(Step(e1, [])) else None
        case Some(res) => Some(Step(e1.(llmGen := true), [Written(i, t, res)]))
  }

  /** The inner loop over the whole ledger, in order. */
  function ScanEntries(v: Variant, llm: string -> Option<string>, t: string, x: string, ledger: seq<Entry>): Option<Run>
    decreases |ledger|
  {
    if ledger == [] then Some(Run([], []))
    else
      var n := |ledger| - 1;
      match ScanEntries(v, llm, t, x, ledger[..n])
      case None => None
      case Some(r) =>
        match EntryStep(v, llm, t, x, ledger[n], n)
        case None => None
        case Some(s) => Some(Run(r.ledger + [s.entry], r.written + s.written))
  }

  /** The files of a run name distinct records, in increasing order. */
  predicate Increasing(ws: seq<Written>) {
    forall a, b :: 0 <= a < b < |ws| ==> ws[a].index < ws[b].index
  }

  /** The inner loop completes exactly when every record's step does. */
  lemma {:induction false} ScanEntriesCompletes(v: Variant, llm: string -> Option<string>, t: string, x: string, ledger: seq<Entry>)
    ensures ScanEntries(v, llm, t, x, ledger).Some? <==>
      forall j :: 0 <= j < |ledger| ==> EntryStep(v, llm, t, x, ledger[j], j).Some?
    decreases |ledger|
  {
    if ledger != [] {
      var n := |ledger| - 1;
      ScanEntriesCompletes(v, llm, t, x, ledger[..n]);
      assert forall j :: 0 <= j < n ==> ledger[..n][j] == ledger[j];
    }
  }

  /** A completed inner loop leaves each record as its own step leaves it. */
  lemma {:induction false} ScanEntriesLedger(v: Variant, llm: string -> Option<string>, t: string, x: string, ledger: seq<Entry>)
    requires ScanEntries(v, llm, t, x, ledger).Some?
    ensures var r := ScanEntries(v, llm, t, x, ledger).value;
      |r.ledger| == |ledger|
      && forall j :: 0 <= j < |ledger| ==>
        EntryStep(v, llm, t, x, ledger[j], j).Some? && r.ledger[j] == EntryStep(v, llm, t, x, ledger[j], j).value.entry
    decreases |ledger|
  {
    var n := |ledger| - 1;
    if n >= 0 {
      ScanEntriesLedger(v, llm, t, x, ledger[..n]);
      assert forall j :: 0 <= j < n ==> ledger[..n][j] == ledger[j];
    }
  }

  /**
   * The files a completed inner loop writes are exactly those its steps write,
   * one per newly flagged record, in record order.
   */
  lemma {:induction false} ScanEntriesWritten(v: Variant, llm: string -> Option<string>, t: string, x: string, ledger: seq<Entry>)
    requires ScanEntries(v, llm, t, x, ledger).Some?
    ensures var ws := ScanEntries(v, llm, t, x, ledger).value.written;
      && Increasing(ws)
      && (forall a :: 0 <= a < |ws| ==>
            ws[a].index < |ledger|
            && EntryStep(v, llm, t, x, ledger[ws[a].index], ws[a].index).Some?
            && EntryStep(v, llm, t, x, ledger[ws[a].index], ws[a].index).value.written == [ws[a]])
      && (forall j ::
            (0 <= j < |ledger| && EntryStep(v, llm, t, x, ledger[j], j).Some?
             && EntryStep(v, llm, t, x, ledger[j], j).value.written != []) ==>
            exists a :: 0 <= a < |ws| && ws[a].index == j)
    decreases |ledger|
  {
    ScanWrittenSound(v, llm, t, x, ledger);
    ScanWrittenComplete(v, llm, t, x, ledger);
  }

  /** Every file of a completed inner loop is one its step at that index writes, in increasing index order. */
  lemma {:induction false} ScanWrittenSound(v: Variant, llm: string -> Option<string>, t: string, x: string, ledger: seq<Entry>)
    requires ScanEntries(v, llm, t, x, ledger).Some?
    ensures var ws := ScanEntries(v, llm, t, x, ledger).value.written;
      && Increasing(ws)
      && (forall a :: 0 <= a < |ws| ==>
            ws[a].index < |ledger|
            && EntryStep(v, llm, t, x, ledger[ws[a].index], ws[a].index).Some?
            && EntryStep(v, llm, t, x, ledger[ws[a].index], ws[a].index).value.written == [ws[a]])
    decreases |ledger|
  {
    var n := |ledger| - 1;
    if n >= 0 {
      var init := ledger[..n];
      ScanWrittenSound(v, llm, t, x, init);
      var w0 := ScanEntries(v, llm, t, x, init).value.written;
      var s := EntryStep(v, llm, t, x, ledger[n], n).value;
      var ws := ScanEntries(v, llm, t, x, ledger).value.written;
      assert ws == w0 + s.written;
      forall a | 0 <= a < |w0|
        ensures ledger[w0[a].index] == init[w0[a].index]
      {
      }
    }
  }

  /** Every step of a completed inner loop that writes a file has that file among the loop's. */
  lemma {:induction false} ScanWrittenComplete(v: Variant, llm: string -> Option<string>, t: string, x: string, ledger: seq<Entry>)
    requires ScanEntries(v, llm, t, x, ledger).Some?
    ensures var ws := ScanEntries(v, llm, t, x, ledger).value.written;
      forall j ::
        (0 <= j < |ledger| && EntryStep(v, llm, t, x, ledger[j], j).Some?
         && EntryStep(v, llm, t, x, ledger[j], j).value.written != []) ==>
        exists a :: 0 <= a < |ws| && ws[a].index == j
    decreases |ledger|
  {
    var n := |ledger| - 1;
    if n >= 0 {
      var init := ledger[..n];
      ScanWrittenComplete(v, llm, t, x, init);
      var w0 := ScanEntries(v, llm, t, x, init).value.written;
      var s := EntryStep(v, llm, t, x, ledger[n], n).value;
      var ws := ScanEntries(v, llm, t, x, ledger).value.written;
      assert ws == w0 + s.written;
      forall j | 0 <= j < |ledger| && EntryStep(v, llm, t, x, ledger[j], j).Some?
          && EntryStep(v, llm, t, x, ledger[j], j).value.written != []
        ensures exists a :: 0 <= a < |ws| && ws[a].index == j
      {
        if j == n {
          assert ws[|w0|].index == n;
        } else {
          assert init[j] == ledger[j];
          var a :| 0 <= a < |w0| && w0[a].index == j;
          assert ws[a] == w0[a];
        }
      }
    }
  }

  // ---------------------------------------------------------------- one caption

  /** One iteration of the outer loop, for caption `c`. */
  function CaptionStep(v: Variant, llm: string -> Option<string>, c: Caption, ledger: seq<Entry>): Option<Run> {
    match c.name
    case None => if v == SkipUnnamed then Some(Run(ledger, [])) else None
    case Some(n) => ScanEntries(v, llm, ReplaceChars(n), c.transcript, ledger)
  }

  /** Urls and `done` are untouched, and the length is kept. */
  predicate Keeps(ledger: seq<Entry>, out: seq<Entry>) {
    |out| == |ledger|
    && forall i :: 0 <= i < |ledger| ==> out[i].url == ledger[i].url && out[i].done == ledger[i].done
  }

  /** Title after processing one caption: sanitised once a named caption has been seen. */
  predicate TitlesAfter(named: bool, ledger: seq<Entry>, out: seq<Entry>)
    requires |out| == |ledger|
  {
    forall i :: 0 <= i < |ledger| ==>
      if named then ledger[i].title.Some? && out[i].title == Some(ReplaceChars(ledger[i].title.value))
      else out[i].title == ledger[i].title
  }

  lemma CaptionStepShape(v: Variant, llm: string -> Option<string>, c: Caption, ledger: seq<Entry>)
    requires CaptionStep(v, llm, c, ledger).Some?
    ensures var out := CaptionStep(v, llm, c, ledger).value.ledger;
      Keeps(ledger, out) && TitlesAfter(c.name.Some?, ledger, out)
  {
    if c.name.Some? {
      ScanEntriesLedger(v, llm, ReplaceChars(c.name.value), c.transcript, ledger);
    }
  }

  lemma CaptionStepFlags(v: Variant, llm: string -> Option<string>, c: Caption, ledger: seq<Entry>)
    requires CaptionStep(v, llm, c, ledger).Some?
    ensures var out := CaptionStep(v, llm, c, ledger).value.ledger;
      |out| == |ledger|
      && forall i :: 0 <= i < |ledger| ==>
        (out[i].llmGen <==> ledger[i].llmGen || (Matches(c, ledger[i]) && Succeeds(v, llm, c)))
  {
    if c.name.Some? {
      var t := ReplaceChars(c.name.value);
      ScanEntriesLedger(v, llm, t, c.transcript, ledger);
    }
  }

  /** The file a pass writes for a record: it was unflagged, it ends flagged, and the file holds the LLM's text for a matching caption. */
  predicate FileFor(llm: string -> Option<string>, caps: seq<Caption>, ledger: seq<Entry>, out: seq<Entry>, w: Written)
    requires |out| == |ledger|
  {
    && w.index < |ledger|
    && !ledger[w.index].llmGen && out[w.index].llmGen
    && ledger[w.index].title.Some? && w.stem == ReplaceChars(ledger[w.index].title.value)
    && exists k :: 0 <= k < |caps| && Matches(caps[k], ledger[w.index]) && llm(caps[k].transcript) == Some(w.body)
  }

  /** No record is summarised twice. */
  predicate DistinctIndices(ws: seq<Written>) {
    forall a, b :: 0 <= a < b < |ws| ==> ws[a].index != ws[b].index
  }

  /** Every record the pass flags has a file written for it. */
  predicate FlaggedHaveFiles(ledger: seq<Entry>, out: seq<Entry>, ws: seq<Written>)
    requires |out| == |ledger|
  {
    forall i :: 0 <= i < |ledger| && out[i].llmGen && !ledger[i].llmGen ==>
      exists a :: 0 <= a < |ws| && ws[a].index == i
  }

  lemma CaptionStepFiles(v: Variant, llm: string -> Option<string>, c: Caption, ledger: seq<Entry>)
    requires CaptionStep(v, llm, c, ledger).Some?
    ensures var r := CaptionStep(v, llm, c, ledger).value;
      |r.ledger| == |ledger|
      && DistinctIndices(r.written)
      && (forall a :: 0 <= a < |r.written| ==> FileFor(llm, [c], ledger, r.ledger, r.written[a]))
      && FlaggedHaveFiles(ledger, r.ledger, r.written)
  {
    if c.name.Some? {
      var t := ReplaceChars(c.name.value);
      ScanEntriesLedger(v, llm, t, c.transcript, ledger);
      ScanEntriesWritten(v, llm, t, c.transcript, ledger);
      var r := CaptionStep(v, llm, c, ledger).value;
      forall a | 0 <= a < |r.written|
        ensures FileFor(llm, [c], ledger, r.ledger, r.written[a])
      {
        assert [c][0] == c;
      }
    }
  }

  // ---------------------------------------------------------------- the whole pass

  /** The outer loop over the caption files, in directory order; None when an exception escapes. */
  function SummaryPass(v: Variant, llm: string -> Option<string>, caps: seq<Caption>, ledger: seq<Entry>): Option<Run>
    decreases |caps|
  {
    if caps == [] then Some(Run(ledger, []))
    else
      match CaptionStep(v, llm, caps[0], ledger)
      case None => None
      case Some(r1) =>
        match SummaryPass(v, llm, caps[1..], r1.ledger)
        case None => None
        case Some(r2) => Some(Run(r2.ledger, r1.written + r2.written))
  }

  /** Some caption path matched the title pattern, so the inner loop ran at least once. */
  predicate AnyNamed(caps: seq<Caption>) {
    exists k :: 0 <= k < |caps| && caps[k].name.Some?
  }

  /**
   * A completed pass keeps urls and `done`, and rewrites every title to its sanitised
   * form as soon as one caption is named; by idempotence of `replace_chars` further
   * captions leave the titles as they are.
   */
  lemma {:induction false} PassShape(v: Variant, llm: string -> Option<string>, caps: seq<Caption>, ledger: seq<Entry>)
    requires SummaryPass(v, llm, caps, ledger).Some?
    ensures var out := SummaryPass(v, llm, caps, ledger).value.ledger;
      Keeps(ledger, out) && TitlesAfter(AnyNamed(caps), ledger, out)
    decreases |caps|
  {
    if caps != [] {
      CaptionStepShape(v, llm, caps[0], ledger);
      var r1 := CaptionStep(v, llm, caps[0], ledger).value;
      PassShape(v, llm, caps[1..], r1.ledger);
      var out := SummaryPass(v, llm, caps, ledger).value.ledger;
      assert AnyNamed(caps) <==> caps[0].name.Some? || AnyNamed(caps[1..]) by {
        if AnyNamed(caps[1..]) {
          var k :| 0 <= k < |caps[1..]| && caps[1..][k].name.Some?;
          assert caps[k + 1].name.Some?;
        }
        if AnyNamed(caps) && caps[0].name.None? {
          var k :| 0 <= k < |caps| && caps[k].name.Some?;
          assert caps[1..][k - 1].name.Some?;
        }
      }
      forall i | 0 <= i < |ledger| && caps[0].name.Some?
        ensures out[i].title == Some(ReplaceChars(ledger[i].title.value))
      {
        ReplaceCharsIdempotent(ledger[i].title.value);
      }
    }
  }

  /** Matching depends only on the sanitised title, so it survives the title rewrite. */
  lemma MatchesAfterSanitise(c: Caption, e: Entry, e2: Entry)
    requires e.title.Some? && e2.title == Some(ReplaceChars(e.title.value))
    ensures Matches(c, e2) <==> Matches(c, e)
  {
    ReplaceCharsIdempotent(e.title.value);
  }

  /**
   * After a completed pass a record is flagged exactly when it was flagged before,
   * or some caption matches its sanitised title and (in the notebook cell) the LLM
   * call for that caption succeeded. No path clears the flag.
   */
  lemma {:induction false} PassFlags(v: Variant, llm: string -> Option<string>, caps: seq<Caption>, ledger: seq<Entry>)
    requires SummaryPass(v, llm, caps, ledger).Some?
    ensures var out := SummaryPass(v, llm, caps, ledger).value.ledger;
      |out| == |ledger|
      && forall i :: 0 <= i < |ledger| ==>
        (out[i].llmGen <==>
           (ledger[i].llmGen || exists k :: 0 <= k < |caps| && Matches(caps[k], ledger[i]) && Succeeds(v, llm, caps[k])))
    decreases |caps|
  {
    if caps != [] {
      CaptionStepFlags(v, llm, caps[0], ledger);
      CaptionStepShape(v, llm, caps[0], ledger);
      var r1 := CaptionStep(v, llm, caps[0], ledger).value;
      PassFlags(v, llm, caps[1..], r1.ledger);
      var out := SummaryPass(v, llm, caps, ledger).value.ledger;
      forall i | 0 <= i < |ledger|
        ensures out[i].llmGen <==>
          (ledger[i].llmGen || exists k :: 0 <= k < |caps| && Matches(caps[k], ledger[i]) && Succeeds(v, llm, caps[k]))
      {
        forall k | 1 <= k < |caps|
          ensures Matches(caps[k], r1.ledger[i]) <==> Matches(caps[k], ledger[i])
        {
          if caps[0].name.Some? {
            MatchesAfterSanitise(caps[k], ledger[i], r1.ledger[i]);
          }
        }
        if exists k :: 0 <= k < |caps| && Matches(caps[k], ledger[i]) && Succeeds(v, llm, caps[k]) {
          var k :| 0 <= k < |caps| && Matches(caps[k], ledger[i]) && Succeeds(v, llm, caps[k]);
          if k > 0 {
            assert caps[1..][k - 1] == caps[k];
          }
        }
        if exists k :: 0 <= k < |caps[1..]| && Matches(caps[1..][k], r1.ledger[i]) && Succeeds(v, llm, caps[1..][k]) {
          var k :| 0 <= k < |caps[1..]| && Matches(caps[1..][k], r1.ledger[i]) && Succeeds(v, llm, caps[1..][k]);
          assert caps[1..][k] == caps[k + 1];
        }
      }
    }
  }

  /**
   * The files of a completed pass: each is written for a record that was not yet
   * flagged and ends flagged, under that record's sanitised title, with the LLM's
   * answer for a matching caption; no record gets two files, and every record the
   * pass flags gets one.
   */
  lemma {:induction false} PassFiles(v: Variant, llm: string -> Option<string>, caps: seq<Caption>, ledger: seq<Entry>)
    requires SummaryPass(v, llm, caps, ledger).Some?
    ensures var r := SummaryPass(v, llm, caps, ledger).value;
      |r.ledger| == |ledger|
      && DistinctIndices(r.written)
      && (forall a :: 0 <= a < |r.written| ==> FileFor(llm, caps, ledger, r.ledger, r.written[a]))
      && FlaggedHaveFiles(ledger, r.ledger, r.written)
    decreases |caps|
  {
    if caps != [] {
      var c := caps[0];
      CaptionStepFiles(v, llm, c, ledger);
      CaptionStepShape(v, llm, c, ledger);
      CaptionStepFlags(v, llm, c, ledger);
      var r1 := CaptionStep(v, llm, c, ledger).value;
      PassFiles(v, llm, caps[1..], r1.ledger);
      PassFlags(v, llm, caps[1..], r1.ledger);
      PassShape(v, llm, caps[1..], r1.ledger);
      var r2 := SummaryPass(v, llm, caps[1..], r1.ledger).value;
      var r := SummaryPass(v, llm, caps, ledger).value;
      assert r.ledger == r2.ledger && r.written == r1.written + r2.written;
      PassFilesJoin(llm, caps, ledger, r1, r2);
    }
  }

  lemma PassFilesJoin(llm: string -> Option<string>, caps: seq<Caption>, ledger: seq<Entry>, r1: Run, r2: Run)
    requires caps != []
    requires Keeps(ledger, r1.ledger) && TitlesAfter(caps[0].name.Some?, ledger, r1.ledger)
    requires Keeps(r1.ledger, r2.ledger)
    requires forall i :: 0 <= i < |ledger| ==> (ledger[i].llmGen ==> r1.ledger[i].llmGen) && (r1.ledger[i].llmGen ==> r2.ledger[i].llmGen)
    requires DistinctIndices(r1.written) && DistinctIndices(r2.written)
    requires forall a :: 0 <= a < |r1.written| ==> FileFor(llm, [caps[0]], ledger, r1.ledger, r1.written[a])
    requires forall a :: 0 <= a < |r2.written| ==> FileFor(llm, caps[1..], r1.ledger, r2.ledger, r2.written[a])
    requires FlaggedHaveFiles(ledger, r1.ledger, r1.written) && FlaggedHaveFiles(r1.ledger, r2.ledger, r2.written)
    ensures var ws := r1.written + r2.written;
      DistinctIndices(ws)
      && (forall a :: 0 <= a < |ws| ==> FileFor(llm, caps, ledger, r2.ledger, ws[a]))
      && FlaggedHaveFiles(ledger, r2.ledger, ws)
  {
    var ws := r1.written + r2.written;
    forall a | 0 <= a < |ws|
      ensures FileFor(llm, caps, ledger, r2.ledger, ws[a])
    {
      if a < |r1.written| {
        JoinFirstFile(llm, caps, ledger, r1, r2, r1.written[a]);
      } else {
        JoinLaterFile(llm, caps, ledger, r1, r2, r2.written[a - |r1.written|]);
      }
    }
    JoinDistinct(ledger, r1, r2);
    JoinFlagged(ledger, r1, r2);
  }

  lemma JoinFirstFile(llm: string -> Option<string>, caps: seq<Caption>, ledger: seq<Entry>, r1: Run, r2: Run, w: Written)
    requires caps != []
    requires |r1.ledger| == |ledger| && |r2.ledger| == |ledger|
    requires forall i :: 0 <= i < |ledger| ==> (r1.ledger[i].llmGen ==> r2.ledger[i].llmGen)
    requires FileFor(llm, [caps[0]], ledger, r1.ledger, w)
    ensures FileFor(llm, caps, ledger, r2.ledger, w)
  {
    var k :| 0 <= k < 1 && Matches([caps[0]][k], ledger[w.index]) && llm([caps[0]][k].transcript) == Some(w.body);
    assert [caps[0]][k] == caps[0];
  }

  lemma JoinLaterFile(llm: string -> Option<string>, caps: seq<Caption>, ledger: seq<Entry>, r1: Run, r2: Run, w: Written)
    requires caps != []
    requires Keeps(ledger, r1.ledger) && TitlesAfter(caps[0].name.Some?, ledger, r1.ledger)
    requires |r2.ledger| == |ledger|
    requires forall i :: 0 <= i < |ledger| ==> (ledger[i].llmGen ==> r1.ledger[i].llmGen)
    requires FileFor(llm, caps[1..], r1.ledger, r2.ledger, w)
    ensures FileFor(llm, caps, ledger, r2.ledger, w)
  {
    var i := w.index;
    var k :| 0 <= k < |caps[1..]| && Matches(caps[1..][k], r1.ledger[i]) && llm(caps[1..][k].transcript) == Some(w.body);
    assert caps[1..][k] == caps[k + 1];
    if caps[0].name.Some? {
      MatchesAfterSanitise(caps[k + 1], ledger[i], r1.ledger[i]);
      ReplaceCharsIdempotent(ledger[i].title.value);
    }
  }

  lemma JoinDistinct(ledger: seq<Entry>, r1: Run, r2: Run)
    requires |r1.ledger| == |ledger| && |r2.ledger| == |ledger|
    requires DistinctIndices(r1.written) && DistinctIndices(r2.written)
    requires forall a :: 0 <= a < |r1.written| ==> r1.written[a].index < |ledger| && r1.ledger[r1.written[a].index].llmGen
    requires forall a :: 0 <= a < |r2.written| ==> r2.written[a].index < |ledger| && !r1.ledger[r2.written[a].index].llmGen
    ensures DistinctIndices(r1.written + r2.written)
  {
    var ws := r1.written + r2.written;
    var n1 := |r1.written|;
    forall a, b | 0 <= a < b < |ws|
      ensures ws[a].index != ws[b].index
    {
      if a < n1 && b >= n1 {
        assert ws[a] == r1.written[a] && ws[b] == r2.written[b - n1];
      } else if a < n1 {
        assert ws[a] == r1.written[a] && ws[b] == r1.written[b];
      } else {
        assert ws[a] == r2.written[a - n1] && ws[b] == r2.written[b - n1];
      }
    }
  }

  lemma JoinFlagged(ledger: seq<Entry>, r1: Run, r2: Run)
    requires |r1.ledger| == |ledger| && |r2.ledger| == |ledger|
    requires FlaggedHaveFiles(ledger, r1.ledger, r1.written) && FlaggedHaveFiles(r1.ledger, r2.ledger, r2.written)
    ensures FlaggedHaveFiles(ledger, r2.ledger, r1.written + r2.written)
  {
    var ws := r1.written + r2.written;
    var n1 := |r1.written|;
    forall i | 0 <= i < |ledger| && r2.ledger[i].llmGen && !ledger[i].llmGen
      ensures exists a :: 0 <= a < |ws| && ws[a].index == i
    {
      if r1.ledger[i].llmGen {
        var a :| 0 <= a < |r1.written| && r1.written[a].index == i;
        assert ws[a] == r1.written[a];
      } else {
        var a :| 0 <= a < |r2.written| && r2.written[a].index == i;
        assert ws[n1 + a] == r2.written[a];
      }
    }
  }

  /** A record without a title makes `replace_chars(None)` raise as soon as a named caption is processed. */
  lemma {:induction false} UntitledRecordAborts(v: Variant, llm: string -> Option<string>, caps: seq<Caption>, ledger: seq<Entry>, i: nat)
    requires AnyNamed(caps) && i < |ledger| && ledger[i].title.None?
    ensures SummaryPass(v, llm, caps, ledger).None?
    decreases |caps|
  {
    var c := caps[0];
    if c.name.Some? {
      ScanEntriesCompletes(v, llm, ReplaceChars(c.name.value), c.transcript, ledger);
    } else if v == SkipUnnamed {
      var k :| 0 <= k < |caps| && caps[k].name.Some?;
      assert caps[1..][k - 1] == caps[k];
      UntitledRecordAborts(v, llm, caps[1..], ledger, i);
    }
  }

  // ---------------------------------------------------------------- a second pass

  /** Caption `c` finds nothing left to do in ledger `m`. */
  predicate Settled(v: Variant, llm: string -> Option<string>, c: Caption, m: seq<Entry>) {
    if c.name.None? then v == SkipUnnamed
    else
      forall j :: 0 <= j < |m| ==>
        m[j].title.Some? && ReplaceChars(m[j].title.value) == m[j].title.value
        && (Matches(c, m[j]) && !m[j].llmGen ==> !Succeeds(v, llm, c))
  }

  lemma EntryStepSettled(v: Variant, llm: string -> Option<string>, c: Caption, e: Entry, i: nat)
    requires c.name.Some? && e.title.Some? && ReplaceChars(e.title.value) == e.title.value
    requires Matches(c, e) && !e.llmGen ==> !Succeeds(v, llm, c)
    ensures EntryStep(v, llm, ReplaceChars(c.name.value), c.transcript, e, i) == Some(Step(e, []))
  {
  }

  /** The inner loop over a ledger is the loop over all records but the last, then the last record's step. */
  lemma ScanSnoc(v: Variant, llm: string -> Option<string>, t: string, x: string, m: seq<Entry>, r: Run, st: Step)
    requires m != [] && ScanEntries(v, llm, t, x, m[..|m| - 1]) == Some(r)
    requires EntryStep(v, llm, t, x, m[|m| - 1], |m| - 1) == Some(st)
    ensures ScanEntries(v, llm, t, x, m) == Some(Run(r.ledger + [st.entry], r.written + st.written))
  {
  }

  lemma SettledPrefix(v: Variant, llm: string -> Option<string>, c: Caption, m: seq<Entry>, n: nat)
    requires n <= |m| && Settled(v, llm, c, m)
    ensures Settled(v, llm, c, m[..n])
  {
    forall j | 0 <= j < n
      ensures m[..n][j] == m[j]
    {
    }
  }

  lemma {:induction false} ScanEntriesSettled(v: Variant, llm: string -> Option<string>, c: Caption, m: seq<Entry>)
    requires c.name.Some? && Settled(v, llm, c, m)
    ensures ScanEntries(v, llm, ReplaceChars(c.name.value), c.transcript, m) == Some(Run(m, []))
    decreases |m|
  {
    if m != [] {
      var n := |m| - 1;
      var init := m[..n];
      SettledPrefix(v, llm, c, m, n);
      ScanEntriesSettled(v, llm, c, init);
      EntryStepSettled(v, llm, c, m[n], n);
      ScanSnoc(v, llm, ReplaceChars(c.name.value), c.transcript, m, Run(init, []), Step(m[n], []));
      assert init + [m[n]] == m;
      var none: seq<Written> := [];
      assert none + none == none;
    }
  }

  lemma {:induction false} PassSettled(v: Variant, llm: string -> Option<string>, caps: seq<Caption>, m: seq<Entry>)
    requires forall k :: 0 <= k < |caps| ==> Settled(v, llm, caps[k], m)
    ensures SummaryPass(v, llm, caps, m) == Some(Run(m, []))
    decreases |caps|
  {
    if caps != [] {
      if caps[0].name.Some? {
        ScanEntriesSettled(v, llm, caps[0], m);
      }
      assert CaptionStep(v, llm, caps[0], m) == Some(Run(m, []));
      assert forall k :: 0 <= k < |caps[1..]| ==> caps[1..][k] == caps[k + 1];
      PassSettled(v, llm, caps[1..], m);
      var none: seq<Written> := [];
      assert none + none == none;
      assert SummaryPass(v, llm, caps, m) == Some(Run(m, none + none));
    }
  }

  /** Only the variant that skips unmatched paths can complete with an unnamed caption. */
  lemma {:induction false} CompletedNamesAll(v: Variant, llm: string -> Option<string>, caps: seq<Caption>, ledger: seq<Entry>)
    requires SummaryPass(v, llm, caps, ledger).Some? && v != SkipUnnamed
    ensures forall k :: 0 <= k < |caps| ==> caps[k].name.Some?
    decreases |caps|
  {
    if caps != [] {
      var r1 := CaptionStep(v, llm, caps[0], ledger).value;
      CompletedNamesAll(v, llm, caps[1..], r1.ledger);
      assert forall k :: 1 <= k < |caps| ==> caps[k] == caps[1..][k - 1];
    }
  }

  /**
   * A second pass over the ledger a completed pass wrote, with the same captions and an
   * LLM that may answer differently, leaves it as it is and writes no file, unless the
   * notebook cell retries a caption whose first LLM call failed and now gets an answer.
   */
  lemma PassRerun(v: Variant, llm: string -> Option<string>, llm2: string -> Option<string>, caps: seq<Caption>, ledger: seq<Entry>)
    requires SummaryPass(v, llm, caps, ledger).Some?
    ensures var out := SummaryPass(v, llm, caps, ledger).value.ledger;
      (v != FlagAfter
       || forall k :: 0 <= k < |caps| && llm(caps[k].transcript).None? ==> llm2(caps[k].transcript).None?)
      ==> SummaryPass(v, llm2, caps, out) == Some(Run(out, []))
  {
    var out := SummaryPass(v, llm, caps, ledger).value.ledger;
    if v != FlagAfter || forall k :: 0 <= k < |caps| && llm(caps[k].transcript).None? ==> llm2(caps[k].transcript).None? {
      PassShape(v, llm, caps, ledger);
      PassFlags(v, llm, caps, ledger);
      if v != SkipUnnamed {
        CompletedNamesAll(v, llm, caps, ledger);
      }
      forall k | 0 <= k < |caps|
        ensures Settled(v, llm2, caps[k], out)
      {
        if caps[k].name.Some? {
          assert AnyNamed(caps);
          forall j | 0 <= j < |out|
            ensures out[j].title.Some? && ReplaceChars(out[j].title.value) == out[j].title.value
            ensures Matches(caps[k], out[j]) && !out[j].llmGen ==> !Succeeds(v, llm2, caps[k])
          {
            ReplaceCharsIdempotent(ledger[j].title.value);
            MatchesAfterSanitise(caps[k], ledger[j], out[j]);
          }
        }
      }
      PassSettled(v, llm2, caps, out);
    }
  }

  /** The notebook cell catches LLM failures, so over named captions and titled records it always completes. */
  lemma {:induction false} PassCompletesCaught(llm: string -> Option<string>, caps: seq<Caption>, m: seq<Entry>)
    requires forall k :: 0 <= k < |caps| ==> caps[k].name.Some?
    requires forall j :: 0 <= j < |m| ==> m[j].title.Some?
    ensures SummaryPass(FlagAfter, llm, caps, m).Some?
    decreases |caps|
  {
    if caps != [] {
      var c := caps[0];
      ScanEntriesCompletes(FlagAfter, llm, ReplaceChars(c.name.value), c.transcript, m);
      CaptionStepShape(FlagAfter, llm, c, m);
      var r1 := CaptionStep(FlagAfter, llm, c, m).value;
      assert forall k :: 0 <= k < |caps[1..]| ==> caps[1..][k] == caps[k + 1];
      PassCompletesCaught(llm, caps[1..], r1.ledger);
    }
  }

  /**
   * The notebook cell run a second time, with an LLM that may answer differently,
   * completes, and changes a record only by flagging it: a record left unflagged by
   * the first run whose title matches a caption whose LLM call failed then and
   * succeeds now. Nothing else changes.
   */
  lemma PassRetriesFailed(llm: string -> Option<string>, llm2: string -> Option<string>, caps: seq<Caption>, ledger: seq<Entry>)
    requires SummaryPass(FlagAfter, llm, caps, ledger).Some?
    ensures var out := SummaryPass(FlagAfter, llm, caps, ledger).value.ledger;
      SummaryPass(FlagAfter, llm2, caps, out).Some?
      && var out2 := SummaryPass(FlagAfter, llm2, caps, out).value.ledger;
      |out2| == |out|
      && forall i :: 0 <= i < |out| ==>
        out2[i] == out[i]
        || (!out[i].llmGen && out2[i] == out[i].(llmGen := true)
            && exists k :: 0 <= k < |caps| && Matches(caps[k], out[i])
                 && llm(caps[k].transcript).None? && llm2(caps[k].transcript).Some?)
  {
    var out := SummaryPass(FlagAfter, llm, caps, ledger).value.ledger;
    CompletedNamesAll(FlagAfter, llm, caps, ledger);
    PassShape(FlagAfter, llm, caps, ledger);
    PassFlags(FlagAfter, llm, caps, ledger);
    if caps != [] {
      assert AnyNamed(caps);
      PassCompletesCaught(llm2, caps, out);
    }
    PassShape(FlagAfter, llm2, caps, out);
    PassFlags(FlagAfter, llm2, caps, out);
    var out2 := SummaryPass(FlagAfter, llm2, caps, out).value.ledger;
    forall i | 0 <= i < |out|
      ensures out2[i] == out[i]
        || (!out[i].llmGen && out2[i] == out[i].(llmGen := true)
            && exists k :: 0 <= k < |caps| && Matches(caps[k], out[i])
                 && llm(caps[k].transcript).None? && llm2(caps[k].transcript).Some?)
    {
      if caps != [] {
        ReplaceCharsIdempotent(ledger[i].title.value);
        forall k | 0 <= k < |caps|
          ensures Matches(caps[k], out[i]) <==> Matches(caps[k], ledger[i])
        {
          MatchesAfterSanitise(caps[k], ledger[i], out[i]);
        }
      }
    }
  }
}
