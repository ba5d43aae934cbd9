# LLM-app pipeline core in Dafny

A model of the text-processing core of the LLM-app scripts: the YouTube half
(`youtube-summarize-quiz`) and the Kindle half (`kindle-summarize-quiz`). The
YouTube half keeps a link ledger, `youtube_links.json`. Each record is
`{url, done, title, LLM_gen}`.

The YouTube half has four steps:
- `save_json` validates a link and appends a default record for a video id the ledger does not hold yet.
- A fetch pass downloads captions for records not yet fetched.
- A summary pass asks an LLM to summarise each caption whose sanitised title matches a record, then sets that record's `LLM_gen` flag.
- `make_quiz` asks the LLM for question/answer pairs and parses its answer with `_parse_json_payload`.

The Kindle half has two passes:
- The summary pass reads a title and an author from each highlight export. It writes a front matter and a bulleted list of the highlighted passages, and stores the LLM's summary under `summary/<title>.md`.
- The quiz pass reads the title back from each summary's front matter and files a quiz under `problem_bank/<title>.md`.

The scripts contain several copies of the same logic. The model covers all of them:
- `replace_chars` has four copies.
- `save_json` has two grammars: a lenient one, and a strict one in the notebook.
- The fetch loop has a variant that propagates `DownloadError` and one that catches it per record.
- The summary loop has three variants:
  - `SkipUnnamed` skips a caption path that does not match;
  - `FlagFirst` sets the flag before the LLM call;
  - `FlagAfter` catches LLM failures and sets the flag only after the file is written.
- The single-run `main` of `single_summarize.py` is modelled too.

How the model is written:
- Everything is an immutable value with pure functions.
- An uncaught Python exception is an `Option`/outcome value. When a pass crashes, the ledger file is not rewritten.
- `json.loads`, the downloader and the LLM are function parameters.

Modules:
- `Wrappers`: Option.
- `PyText`: `str.strip`, `split`, `splitlines` and `in`, with CPython's whitespace and line-break sets.
- `Sanitizer`: `replace_chars`.
- `YoutubeUrl`: both link grammars.
- `Ledger`: `save_json`.
- `Fetch`: the fetch passes.
- `Summary`: the summary passes.
- `SingleSummary`: the `main` of `single_summarize.py`.
- `JsonValue`: decoded JSON values.
- `QuizParse`: `_parse_json_payload`.
- `Quiz`: `make_quiz`.
- `Kindle`: `kindle-summarize-quiz/app.py`.

## Behaviour worth noting

- The Kindle title is `split(':')[1]`: the text between the first and the second colon, stripped, so a title that itself holds a colon is cut short there.
- The Kindle author is not stripped.
- Kindle summary and quiz files are named after the raw title, not a sanitised one.
- A missing Kindle title raises `NameError` for the first export. A later export silently reuses the previous title; see Findings.

## Model

| member | source | states |
|---|---|---|
| Sanitizer.ReplaceChars | youtube-summarize-quiz/summarizer_core.py:39-53 | the result contains none of the thirteen unsafe characters and no ASCII space, and is never longer than the input |
| Sanitizer.ReplaceCharsIsCharwise | youtube-summarize-quiz/summarizer_core.py:49-53 | `replace_chars` equals the character-wise reference: an unsafe character becomes `-`, a space disappears, any other character is kept in order |
| Sanitizer.ReplaceCharsIdempotent | youtube-summarize-quiz/summarizer_core.py:49-53 | sanitising twice is sanitising once |
| Sanitizer.ReplaceCharsFixedIffSafe | youtube-summarize-quiz/summarize.py:27-32 | a title is left unchanged exactly when it holds no unsafe character and no space |
| Sanitizer.ReplaceCharsKeepsSafe | youtube-summarize-quiz/sandbox.py:93-103 | a title that is already safe is returned as it is |
| Sanitizer.ReplaceCharsKeepsOthers | youtube-summarize-quiz/single_summarize.py:19-24 | without spaces the length is kept, and position by position an unsafe character becomes `-` while tab and full-width space survive |
| Sanitizer.TranslateShape | youtube-summarize-quiz/summarizer_core.py:50-51 | the translation table keeps the length, removes every unsafe character and leaves spaces where they were |
| Sanitizer.DeleteSpacesShape | youtube-summarize-quiz/summarizer_core.py:52 | deleting spaces never lengthens the text and yields a safe text from one without unsafe characters |
| Sanitizer.ReplaceCharsExample | youtube-summarize-quiz/summarizer_core.py:49-53 | `"a b:<FULL-WIDTH SPACE>"` becomes `"ab-<FULL-WIDTH SPACE>"`: the ASCII space is dropped, the colon replaced, the full-width space kept |
| YoutubeUrl.LenientIdIffShape | youtube-summarize-quiz/summarizer_core.py:68-69 | the lenient scanner returns an id exactly when the URL is an optional scheme, optional `www.`, `youtube.com/watch?v=` or `youtu.be/`, eleven id characters, then the end or one of `&#?` |
| YoutubeUrl.StrictIdIffShape | youtube-summarize-quiz/sandbox.py:117-123 | the strict scanner returns an id exactly when the URL is `https://www.youtube.com/watch?v=`, a non-empty maximal run of id characters, then the end or `&` followed by no whitespace or `#` |
| YoutubeUrl.StrictRoundTrip | youtube-summarize-quiz/sandbox.py:370-371 | a link built by `make_youtube_url` from any non-empty id passes the strict validation and yields that id back |
| YoutubeUrl.LenientOfWatchUrl | youtube-summarize-quiz/sandbox.py:370-371 | the lenient grammar reads a `make_youtube_url` link as its id followed by the end of the text |
| YoutubeUrl.IdThenStopLength | youtube-summarize-quiz/summarizer_core.py:68 | an id followed by the end of the text is accepted by `[\w\-]{11}(?:$\|[&#?])` exactly when it has eleven characters, and it is given back whole |
| YoutubeUrl.LenientOfShortUrl | youtube-summarize-quiz/summarizer_core.py:68 | a short link `youtu.be/<id>` yields the id exactly when the id has eleven characters, just as the watch link of the same id does |
| YoutubeUrl.StrictRefusesShortUrl | youtube-summarize-quiz/sandbox.py:117-119 | the strict grammar rejects every short link |
| YoutubeUrl.StrictNeedsPrefix | youtube-summarize-quiz/sandbox.py:117-119 | the strict grammar rejects any URL that starts with `y` rather than the `https://www.` prefix |
| Ledger.FindIdMeaning | youtube-summarize-quiz/summarizer_core.py:81-89 | the duplicate scan finds the id exactly when a record carries it and every earlier record parses to a different id; it crashes exactly when an earlier record's url does not parse; otherwise it runs off the end |
| Ledger.FindIdOnParsed | youtube-summarize-quiz/summarizer_core.py:81-89 | on a ledger whose urls all parse, the scan cannot crash and finds the id exactly when some record carries it |
| Ledger.SaveJson | youtube-summarize-quiz/summarizer_core.py:94-104 | when `save_json` appends, the new ledger is the old one extended by exactly one record |
| Ledger.SaveRejectsInvalid | youtube-summarize-quiz/summarizer_core.py:68-72 | `save_json` returns False exactly when the link fails the grammar, and then the ledger is unchanged |
| Ledger.SaveOnWellFormed | youtube-summarize-quiz/summarizer_core.py:57-104 | on a well-formed ledger (all urls parse, ids pairwise distinct) `save_json` never crashes; a known id returns True unchanged; a new id appends `{url, done: False, title: None, LLM_gen: False}` with the unstripped url; the result stays well-formed |
| Ledger.AppendKeepsWellFormed | youtube-summarize-quiz/summarizer_core.py:95-101 | appending a parsing link whose id is new keeps the ids pairwise distinct |
| Ledger.SameIdCollapses | youtube-summarize-quiz/summarizer_core.py:80-92 | after saving one link, saving another with the same id (for example a different query tail) returns True and changes nothing |
| Ledger.PlaylistLinkAccepted | youtube-summarize-quiz/sandbox.py:398-403 | a playlist video id turned into a link is never rejected by the strict `save_json` |
| Ledger.SaveAllMeaning | youtube-summarize-quiz/sandbox.py:401-403 | saving the playlist links one by one keeps the ledger well-formed, only appends, and leaves every valid link's id in the ledger |
| Fetch.FetchEntry | youtube-summarize-quiz/summarizer_core.py:129-147 | an iteration escapes exactly when the record is unfetched, the download raises and the loop does not catch it; url and flag are untouched; a fetched record is skipped; a record changes only to done with the title of a download that returned 0, and an unfetched record whose download returned 0 always becomes done under that title |
| Fetch.FetchPassMeaning | youtube-summarize-quiz/summarize.py:57-77 | the pass completes exactly when every record's iteration does, and then each record is processed on its own |
| Fetch.CatchingPassCompletes | youtube-summarize-quiz/sandbox.py:423-446 | the cell that catches `DownloadError` always completes |
| Fetch.FetchMonotone | youtube-summarize-quiz/single_summarize.py:48-68 | a completed pass keeps urls and flags, never unsets `done` or a title, and changes a record exactly when it was unfetched and its download returned 0, which leaves it done under the downloaded title |
| Fetch.FetchKeepsWellFormed | youtube-summarize-quiz/summarizer_core.py:319-339 | the fetch pass keeps a well-formed ledger well-formed |
| Fetch.FetchKeepsDoneHasTitle | youtube-summarize-quiz/sandbox.py:428-442 | if every done record has a title before the pass, it has one after |
| Fetch.FetchRerun | youtube-summarize-quiz/summarize.py:57-75 | the first run changes only records it leaves fetched; a later run, whose downloader may answer differently, retries only the unfetched records and keeps every fetched one as it is, and changes nothing when the downloader repeats its answers for the unfetched ones |
| Fetch.FetchEntryStable | youtube-summarize-quiz/summarizer_core.py:135-148 | one iteration leaves a record unchanged or fetched; a fetched record is skipped by any later iteration, whatever the downloader |
| Summary.EntryStep | youtube-summarize-quiz/summarizer_core.py:188-205 | one record's iteration crashes exactly on an untitled record or an uncaught LLM failure for a matching unflagged record; the title is sanitised and nothing else but the flag changes; the flag ends set exactly when it was set or the record matches and the LLM answered; a file is written exactly when the flag goes from False to True, and it holds the LLM's text |
| Summary.ScanEntriesCompletes | youtube-summarize-quiz/summarize.py:121-137 | the inner loop completes exactly when every record's iteration does |
| Summary.ScanEntriesLedger | youtube-summarize-quiz/summarizer_core.py:186-205 | after a completed inner loop each record is what its own iteration made of it, and the length is kept |
| Summary.ScanEntriesWritten | youtube-summarize-quiz/summarizer_core.py:196-205 | the inner loop's files are in record order, each is the one its record's iteration wrote, and every iteration that wrote a file is represented |
| Summary.CaptionStepShape | youtube-summarize-quiz/summarizer_core.py:188-191 | one caption's loop keeps urls and `done`, and sanitises every title once the caption path matched |
| Summary.CaptionStepFlags | youtube-summarize-quiz/sandbox.py:486-507 | after one caption a record is flagged exactly when it was, or it matches the caption and the variant's LLM call succeeds |
| Summary.CaptionStepFiles | youtube-summarize-quiz/sandbox.py:496-504 | one caption's loop writes at most one file per record; each file is for a matching record that went from unflagged to flagged; every newly flagged record has a file |
| Summary.PassShape | youtube-summarize-quiz/summarize.py:100-140 | a completed pass keeps urls and `done`, and leaves every title sanitised once some caption path matched |
| Summary.MatchesAfterSanitise | youtube-summarize-quiz/summarizer_core.py:190-191 | rewriting a record's title to its sanitised form does not change which captions match it |
| Summary.PassFlags | youtube-summarize-quiz/summarizer_core.py:162-207 | after a completed pass a record is flagged exactly when it was flagged before or some caption matches its sanitised title (and, where LLM failures are caught, the LLM answered) |
| Summary.PassFiles | youtube-summarize-quiz/sandbox.py:472-507 | over the whole pass no record gets two files; every file is for a record that went from unflagged to flagged and holds the LLM's summary of a matching caption; every newly flagged record has a file |
| Summary.UntitledRecordAborts | youtube-summarize-quiz/summarize.py:121-123 | once a caption path matches, a record without a title crashes the pass at `replace_chars(None)` |
| Summary.CompletedNamesAll | youtube-summarize-quiz/summarize.py:103-104 | in the variants that do not skip unmatched paths, a completed pass means every caption path matched |
| Summary.PassRerun | youtube-summarize-quiz/summarizer_core.py:358-398 | a second pass over the ledger the first one wrote, with the same captions and any LLM, writes no file and changes nothing, in the notebook cell on condition that no caption whose LLM call failed the first time now gets an answer |
| Summary.PassCompletesCaught | youtube-summarize-quiz/sandbox.py:486-507 | the notebook cell, which catches the LLM failure, completes whenever every caption path is named and every record has a title |
| Summary.PassRetriesFailed | youtube-summarize-quiz/sandbox.py:486-507 | a second run of the notebook cell with any LLM completes and changes a record only by flagging one left unflagged whose title matches a caption whose LLM call failed the first time and succeeds now |
| SingleSummary.TitleList | youtube-summarize-quiz/single_summarize.py:88-104 | the title list exists exactly when every caption path matches, and holds the sanitised caption titles in order |
| SingleSummary.ContentsFor | youtube-summarize-quiz/single_summarize.py:105 | the transcript dictionary has an entry for a key exactly when some caption's key equals it, and that entry is the transcript of the last such caption |
| SingleSummary.MainStep | youtube-summarize-quiz/single_summarize.py:128-154 | a record's step raises exactly when it is titled, unflagged, its key is in the title list, and the transcript lookup misses (`KeyError`) or the LLM call fails; otherwise it is flagged exactly when it was flagged or its key is in the title list, and a file is written exactly when the flag is newly set, holding the LLM's text of the looked-up transcript |
| SingleSummary.MainFlags | youtube-summarize-quiz/single_summarize.py:128-155 | after a completed run only flags change, and a record is flagged exactly when it was or its key is among the sanitised caption titles |
| SingleSummary.UnsafeTitleNeverSummarised | youtube-summarize-quiz/single_summarize.py:131-144 | as written, a record whose stored title contains a space or an unsafe character is never summarised |
| SingleSummary.SpacedTitleExample | youtube-summarize-quiz/single_summarize.py:104-105 | as written, a record titled `a b` with a caption titled `a b` matches yet stays unflagged |
| SingleSummary.SanitisedKeyMeansMatch | youtube-summarize-quiz/single_summarize.py:133-134 | with both sides sanitised, a record's key is in the title list exactly when some caption matches it |
| SingleSummary.CorrectedMainFlags | youtube-summarize-quiz/single_summarize.py:128-154 | corrected: a record is flagged exactly when it was flagged or some caption matches its sanitised title |
| SingleSummary.CorrectedMainCompletes | youtube-summarize-quiz/single_summarize.py:147 | corrected: the transcript lookup never misses, so the run completes whenever every path matches and the LLM answers |
| JsonValue.DigitsRoundTrip | youtube-summarize-quiz/summarizer_core.py:285 | the decimal text `str()` gives a non-negative integer reads back as that integer |
| QuizParse.FenceSearchFinds | youtube-summarize-quiz/summarizer_core.py:227 | the fence pattern matches exactly when some opening fence has a closing fence after its body start |
| QuizParse.FenceSearchLeftmost | youtube-summarize-quiz/summarizer_core.py:227 | the group comes from the leftmost such opening fence and ends at the first closing fence |
| QuizParse.CodeBlockHasNoFence | youtube-summarize-quiz/summarizer_core.py:227 | the lazy group never contains a fence |
| QuizParse.BracketSpan | youtube-summarize-quiz/summarizer_core.py:236 | a bracket span starts with `[` and ends with `]` |
| QuizParse.BracketSpanMeaning | youtube-summarize-quiz/summarizer_core.py:236 | the array pattern matches exactly when a `[` precedes a `]`, and the span runs from the first `[` to the last `]` |
| QuizParse.ParsePayloadIsFirstSuccess | youtube-summarize-quiz/summarizer_core.py:209-245 | the result is the list decoded from the first candidate, in the order trimmed text, code block, bracket span, that decodes to a list, and `[]` when none does |
| QuizParse.FirstListMeaning | youtube-summarize-quiz/summarizer_core.py:219-245 | a candidate's list is used only when every earlier candidate failed, and some candidate is used exactly when one decodes to a list |
| QuizParse.PlainArrayAnswer | youtube-summarize-quiz/summarizer_core.py:219-224 | an answer that is a JSON array once trimmed is taken as it is |
| QuizParse.NoArrayAnswer | youtube-summarize-quiz/summarizer_core.py:245 | when nothing decodes to a list, the result is empty |
| QuizParse.NoBracketAnswer | youtube-summarize-quiz/summarizer_core.py:236-245 | an answer with no `[` that is no list itself has no bracket candidate, and yields `[]` unless a code block decodes to a list |
| QuizParse.FencedBody | youtube-summarize-quiz/summarizer_core.py:227 | a code block tagged `json` whose body has no backtick yields that body as the group |
| QuizParse.BlockAnswer | youtube-summarize-quiz/summarizer_core.py:227-233 | when the whole answer is no list, a code block that decodes to a list gives that list |
| QuizParse.NoFenceNoBracket | youtube-summarize-quiz/summarizer_core.py:227-245 | an answer with neither a backtick nor a `[` that is no list itself yields `[]` |
| Quiz.PairsAppend | youtube-summarize-quiz/summarizer_core.py:277-285 | the pairs of a concatenated list are the pairs of each part, in order |
| Quiz.PairsSingle | youtube-summarize-quiz/summarizer_core.py:278-285 | one entry yields its stripped `(Q, A)` pair when it is a dict with truthy `Q` and `A`, and nothing otherwise |
| Quiz.PairsPrefix | youtube-summarize-quiz/summarizer_core.py:286-287 | the pairs of a list are the pairs of any prefix followed by those of the rest, so stopping early yields a prefix of all the pairs |
| Quiz.CollectPairs | youtube-summarize-quiz/summarizer_core.py:277-287 | the loop yields the first `n` pairs of the list, or all of them when there are fewer |
| Quiz.MakeQuiz | youtube-summarize-quiz/summarizer_core.py:247-289 | the LLM is asked exactly when the trimmed text is non-blank and `n > 0`, otherwise the result is `[]`; an LLM failure escapes; otherwise the result is the first `n` usable pairs of the parsed answer |
| Quiz.BlankQuestionKept | youtube-summarize-quiz/summarizer_core.py:281-285 | a question of blanks is truthy and kept, and becomes the empty string once stripped |
| Quiz.PlainAnswerExample | youtube-summarize-quiz/summarizer_core.py:247-289 | the answer `[{"Q":"a","A":"b"}]` gives the quiz `[("a", "b")]` |
| Quiz.FencedAnswerExample | youtube-summarize-quiz/summarizer_core.py:247-289 | the same list in a code block tagged `json` gives the same quiz |
| Quiz.NoiseAnswerExample | youtube-summarize-quiz/summarizer_core.py:247-289 | the answer `sorry, I cannot help` gives the empty quiz without raising |
| Kindle.ScanLineMeaning | kindle-summarize-quiz/app.py:43-48 | one header line raises exactly when it mentions `title` or `author` and has no second colon-separated field; otherwise each name ends bound as the one-line header loop leaves it: the stripped or raw second field when the line mentions it, its old value when not |
| Kindle.HeaderFails | kindle-summarize-quiz/app.py:43-48 | the header loop raises exactly when some line mentions `title` or `author` without a colon |
| Kindle.HeaderBinds | kindle-summarize-quiz/app.py:43-48 | otherwise the title is the stripped second colon field of the last line containing `title`, the author the unstripped second field of the last line containing `author`, and a name with no such line keeps its earlier value |
| Kindle.TagsDump | kindle-summarize-quiz/app.py:52-57 | the tags line holds `["kindle", "quize"]` |
| Kindle.FrontMatterLines | kindle-summarize-quiz/app.py:42-60 | the front matter is `---`, `title: <title>`, `author: <author>`, `tags: ["kindle", "quize"]`, `---`, each ended by a newline, in that order |
| Kindle.BulletsRoundTrip | kindle-summarize-quiz/app.py:70-72 | reading the bullet list back line by line gives every passage in order, as no passage holds a newline |
| Kindle.MatchOfLines | kindle-summarize-quiz/app.py:111-113 | three newline-free lines between `---` fences match the read-back pattern at the start, with the first line as group 1 |
| Kindle.FrontMatterMatch | kindle-summarize-quiz/app.py:108-113 | searching a summary file finds its front matter: group 1 is the `title: <title>` line and the match is the front matter without its final newline |
| Kindle.Search | kindle-summarize-quiz/app.py:111-112 | a search result is a match of the pattern at some position |
| Kindle.SecondFieldOf | kindle-summarize-quiz/app.py:114 | `split(':')[1]` of `key:x` is `x` when neither part holds a colon |
| Kindle.QuizFollowsSummary | kindle-summarize-quiz/app.py:108-134 | round trip: the quiz pass reads back exactly the title the summary pass wrote into the front matter, for any title free of colons and line breaks with nothing to strip, and files the quiz under `problem_bank/<title>.md` starting with the same front matter |
| Kindle.FieldIsGood | kindle-summarize-quiz/app.py:43-48 | a title the header loop takes from a line has no colon, no line break and nothing to strip, and an author has no line break |
| Kindle.ScanKeepsGood | kindle-summarize-quiz/app.py:43-48 | the header loop only ever binds such names |
| Kindle.SummaryThenQuiz | kindle-summarize-quiz/app.py:88-134 | every summary file is `summary/<title>.md` starting with its front matter, and its quiz file is `problem_bank/` with the same name, starting with the same front matter |
| Kindle.StaleTitleOverwrites | kindle-summarize-quiz/app.py:37-50 | as written, an export with no line containing `title` after another export gets that export's file name and replaces its summary |
| Kindle.OwnTitleNames | kindle-summarize-quiz/app.py:43-50 | corrected, for one export: its file is named after its own header's title, and without one nothing is written |
| Kindle.CorrectedOwnTitle | kindle-summarize-quiz/app.py:37-93 | corrected: every summary file is named after the title in its own export's header |

## Left out

- File reads and writes, `mkdir`, `load_dotenv`/`os.getenv` and the JSON text formatting of the ledger are not modelled. The ledger is an in-memory sequence, and a pass that raises produces no new ledger.
- Files written before a pass raises are not tracked.
- `iterdir` order is not modelled. Caption files and highlight exports are sequences in directory order.
- The LLM call is a function parameter. It answers with a text, or fails with None. The fixed prompt prefixes are left out because the answer depends only on the variable part of the prompt. Being a function, it gives the same answer to every call with the same transcript within one pass: two records that match one caption in the notebook cell are both flagged or neither is (Summary.PassFlags), whereas a real service may answer one call and fail the next.
- `yt_dlp` (`download` and `extract_info`) is a function parameter. It gives a return code and a title, or a raised `DownloadError`. Being a function, it gives the same answer for the same url within one pass, so two records with one url are fetched alike; a second pass takes its own downloader (Fetch.FetchRerun).
- The YouTube Data API calls (`api_init`, `get_playlist_items`, `get_playlist_url_list`) are network I/O. The playlist's video ids are an input.
- The SRT text regex `\d\n.*\n(.*)\n` and the caption path regex `captions\\(.*).ja.srt` depend on platform path separators and on `findall` semantics. A caption's title and transcript are inputs; an unmatched path is a missing title.
- The two Kindle highlight patterns are not scanned. Their `findall` results are inputs, and only their concatenation and the bullet list are modelled.
- `json.loads` is a function parameter. The JSON value model has no floating-point numbers.
- QuizParse.AsList: every failure of `json.loads` falls through to the next candidate. The code catches only `json.JSONDecodeError`, so a `ValueError` for an over-long integer literal or a `RecursionError` on deep nesting would escape `make_quiz`; the decoder parameter has no way to say which error it raised.
- `str()` of a list or dict (Python's `repr`) is a function parameter.
- `json.dumps` is modelled only for lists of strings that need no escaping. That is all the Kindle tags are.
- `YoutubeUrl.IsIdChar`: `\w` is modelled as the ASCII word characters. Python's `\w` also matches other Unicode letters and digits.
- The notebook's fetch cell never writes the ledger back to the file. The model gives the ledger the pass computes.
- The `asyncio` plumbing of `single_summarize.py` (`llm_task`) is not modelled; the LLM call is made in place.
- The Qt UI and its worker threads are interface plumbing around these operations and are not modelled.
- Path construction is modelled as a directory and a file name. Titles holding a path separator are not treated specially.
- Kindle.Search: states only that the result is a match at some position, not that it is the leftmost one. The round trip needs only the match at the start of the file.

## Findings

| source | as written | input that shows it | evidently intended | confidence | as-written member | corrected member |
|---|---|---|---|---|---|---|
| youtube-summarize-quiz/single_summarize.py:131-147 | `main` compares the ledger title as stored with the sanitised caption titles, and looks the transcript up under the stored title | a ledger record titled `a b` and a caption file `a b.ja.srt`: they match once sanitised, but the record is never summarised | compare and look up the sanitised titles on both sides, as the other copies of the summary pass do | not executed | SingleSummary.SpacedTitleExample | SingleSummary.CorrectedMainFlags |
| kindle-summarize-quiz/app.py:37-50 | `title` and `author` are module-level and are never reset between exports | an export with no line containing `title`, processed after an export titled `X`: its summary is written to `summary/X.md` and replaces the first one | each export is filed under its own title, and one without a title is not filed | not executed | Kindle.StaleTitleOverwrites | Kindle.CorrectedOwnTitle |
