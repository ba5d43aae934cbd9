// `_parse_json_payload`: extracting a JSON array from an LLM answer. Three
// candidate texts are tried in order — the trimmed answer, the body of the first
// fenced code block, and the span from the first `[` to the last `]` — and the
// first one that decodes to an array wins; otherwise the result is empty.
//
// The two regular expressions are modelled by scanners that follow the
// backtracking order of Python's `re.search` for these particular patterns.

module QuizParse {
  import opened Wrappers
  import opened PyText
  import opened JsonValue

  /** A code fence "```" starts at position `p` of `t`. */
  predicate FenceAt(t: string, p: int) {
    0 <= p && p + 3 <= |t| && t[p] == '`' && t[p + 1] == '`' && t[p + 2] == '`'
  }

  /** The tag "json" starts at position `a` of `t`. */
  predicate TagAt(t: string, a: int) {
    0 <= a && a + 4 <= |t| && t[a] == 'j' && t[a + 1] == 's' && t[a + 2] == 'o' && t[a + 3] == 'n'
  }

  /** The end of the run of whitespace (`\s*`) starting at `q`. */
  function SkipSpace(t: string, q: nat): (r: nat)
    requires q <= |t|
    ensures q <= r <= |t|
    ensures forall k :: q <= k < r ==> IsSpace(t[k])
    ensures r < |t| ==> !IsSpace(t[r])
    decreases |t| - q
  {
    if q < |t| && IsSpace(t[q]) then SkipSpace(t, q + 1) else q
  }

  /** Where the group of ```` ```(?:json)?\s*(.*?)``` ```` starts for an opening fence at `p`: after an optional `json` tag and whitespace. */
  function BodyStart(t: string, p: nat): (q: nat)
    requires FenceAt(t, p)
    ensures p + 3 <= q <= |t|
  {
    var a := p + 3;
    var b := if TagAt(t, a) then a + 4 else a;
    SkipSpace(t, b)
  }

  /** The first fence at or after position `q`. */
  function NextFence(t: string, q: nat): (e: Option<nat>)
    requires q <= |t|
    ensures e.Some? ==> q <= e.value && FenceAt(t, e.value)
    ensures forall k :: q <= k && (e.None? || k < e.value) ==> !FenceAt(t, k)
    decreases |t| - q
  {
    if q + 3 > |t| then None
    else if FenceAt(t, q) then Some(q)
    else NextFence(t, q + 1)
  }

  /** An opening fence at `p` that has a closing fence after its body start: a match of the fence pattern at `p`. */
  predicate OpensBlock(t: string, p: int) {
    FenceAt(t, p) && NextFence(t, BodyStart(t, p)).Some?
  }

  /** The leftmost match of the fence pattern at or after `p`; its group is the text between body start and the closing fence. */
  function FenceSearch(t: string, p: nat): (g: Option<string>)
    decreases |t| - p
  {
    if p + 3 > |t| then None
    else if OpensBlock(t, p) then
      var q := BodyStart(t, p);
      Some(t[q..NextFence(t, q).value])
    else FenceSearch(t, p + 1)
  }

  /** `re.search(...).group(1)` for the fence pattern, or None without a match. */
  function CodeBlock(t: string): Option<string> {
    FenceSearch(t, 0)
  }

  /** The fence pattern matches at or after `p` exactly when some opening fence there has a closing one. */
  lemma {:induction false} FenceSearchFinds(t: string, p: nat)
    ensures FenceSearch(t, p).Some? <==> exists k :: p <= k && OpensBlock(t, k)
    decreases |t| - p
  {
    if p + 3 > |t| {
      assert forall k :: p <= k ==> !FenceAt(t, k);
    } else if !OpensBlock(t, p) {
      FenceSearchFinds(t, p + 1);
      if exists k :: p <= k && OpensBlock(t, k) {
        var k :| p <= k && OpensBlock(t, k);
        assert k != p;
      }
    }
  }

  /**
   * The group comes from the leftmost opening fence that has a closing one, and
   * ends at the first closing fence after its body start.
   */
  lemma FenceSearchLeftmost(t: string, p: nat)
    requires FenceSearch(t, p).Some?
    ensures exists k ::
      (p <= k && OpensBlock(t, k) && (forall j :: p <= j < k ==> !OpensBlock(t, j))
       && FenceSearch(t, p).value == t[BodyStart(t, k)..NextFence(t, BodyStart(t, k)).value])
  {
    var k := FenceSearchAt(t, p);
  }

  /** The position of the opening fence the search settles on. */
  lemma {:induction false} FenceSearchAt(t: string, p: nat) returns (k: nat)
    requires FenceSearch(t, p).Some?
    ensures p <= k && OpensBlock(t, k) && (forall j :: p <= j < k ==> !OpensBlock(t, j))
    ensures FenceSearch(t, p).value == t[BodyStart(t, k)..NextFence(t, BodyStart(t, k)).value]
    decreases |t| - p
  {
    if OpensBlock(t, p) {
      k := p;
    } else {
      k := FenceSearchAt(t, p + 1);
    }
  }

  /** The group never contains a fence: the lazy `(.*?)` stops at the first one. */
  lemma CodeBlockHasNoFence(t: string)
    requires CodeBlock(t).Some?
    ensures forall k :: !FenceAt(CodeBlock(t).value, k)
  {
    var p := FenceSearchAt(t, 0);
    var q := BodyStart(t, p);
    NoFenceInSlice(t, q, NextFence(t, q).value);
  }

  lemma NoFenceInSlice(t: string, q: nat, e: nat)
    requires q <= e <= |t|
    requires forall k :: q <= k < e ==> !FenceAt(t, k)
    ensures forall k :: !FenceAt(t[q..e], k)
  {
    var g := t[q..e];
    forall k
      ensures !FenceAt(g, k)
    {
      if 0 <= k && k + 3 <= |g| {
        assert !FenceAt(t, q + k);
        assert g[k] == t[q + k] && g[k + 1] == t[q + k + 1] && g[k + 2] == t[q + k + 2];
      }
    }
  }

  /** The first occurrence of `c`, if any. */
  function FirstOf(t: string, c: char): (i: Option<nat>)
    ensures i.Some? ==> i.value < |t| && t[i.value] == c
    ensures forall k :: 0 <= k < |t| && (i.None? || k < i.value) ==> t[k] != c
  {
    var i := IndexOf(t, c);
    assert forall k :: 0 <= k < i ==> t[..i][k] == t[k];
    if i < |t| then Some(i) else None
  }

  /** The last occurrence of `c`, if any. */
  function LastOf(t: string, c: char): (i: Option<nat>)
    ensures i.Some? ==> i.value < |t| && t[i.value] == c
    ensures forall k :: 0 <= k < |t| && (i.None? || k > i.value) ==> t[k] != c
    decreases |t|
  {
    if t == [] then None
    else if t[|t| - 1] == c then Some(|t| - 1)
    else LastOf(t[..|t| - 1], c)
  }

  /** `re.search(r"(\[.*\])", t, re.DOTALL).group(1)`: from the first `[` to the last `]`, when that `]` comes after it. */
  function BracketSpan(t: string): (r: Option<string>)
    ensures r.Some? ==> |r.value| >= 2 && r.value[0] == '[' && r.value[|r.value| - 1] == ']'
  {
    match (FirstOf(t, '['), LastOf(t, ']'))
    case (Some(p), Some(r)) => if p < r then Some(t[p..r + 1]) else None
    case _ => None
  }

  /** The greedy span matches exactly when some `[` is followed, anywhere later, by a `]`. */
  lemma BracketSpanMeaning(t: string)
    ensures BracketSpan(t).Some? <==> exists i, j :: 0 <= i < j < |t| && t[i] == '[' && t[j] == ']'
    ensures BracketSpan(t).Some? ==>
      exists i, j :: 0 <= i < j < |t| && t[i] == '[' && t[j] == ']' && BracketSpan(t).value == t[i..j + 1]
        && (forall k :: 0 <= k < i ==> t[k] != '[') && (forall k :: j < k < |t| ==> t[k] != ']')
  {
    if BracketSpan(t).Some? {
      var i, j := BracketSpanBounds(t);
    }
    if exists i, j :: 0 <= i < j < |t| && t[i] == '[' && t[j] == ']' {
      var i, j :| 0 <= i < j < |t| && t[i] == '[' && t[j] == ']';
      BracketPairGivesSpan(t, i, j);
    }
  }

  /** The span runs from the first `[` to the last `]`. */
  lemma BracketSpanBounds(t: string) returns (i: nat, j: nat)
    requires BracketSpan(t).Some?
    ensures i < j < |t| && t[i] == '[' && t[j] == ']' && BracketSpan(t).value == t[i..j + 1]
    ensures (forall k :: 0 <= k < i ==> t[k] != '[') && (forall k :: j < k < |t| ==> t[k] != ']')
  {
    i, j := FirstOf(t, '[').value, LastOf(t, ']').value;
  }

  /** Any `[` before a `]` makes the pattern match. */
  lemma BracketPairGivesSpan(t: string, i: nat, j: nat)
    requires i < j < |t| && t[i] == '[' && t[j] == ']'
    ensures BracketSpan(t).Some?
  {
    assert FirstOf(t, '[').Some? && FirstOf(t, '[').value <= i;
    assert LastOf(t, ']').Some? && LastOf(t, ']').value >= j;
  }

  // ---------------------------------------------------------------- the cascade

  /** `json.loads(s)` when it yields a list; None when it raises or yields anything else. */
  function AsList(loads: string -> Option<Json>, s: string): Option<seq<Json>> {
    match loads(s)
    case Some(JArr(items)) => Some(items)
    case _ => None
  }

  /** The candidate texts in the order they are tried; a stage whose pattern does not match contributes none. */
  function Candidates(payload: string): seq<string> {
    var t := Strip(payload);
    CandidatesOf(t, CodeBlock(t), BracketSpan(t))
  }

  function CandidatesOf(t: string, fenced: Option<string>, spanned: Option<string>): seq<string> {
    [t] + (if fenced.Some? then [fenced.value] else []) + (if spanned.Some? then [spanned.value] else [])
  }

  /** `_parse_json_payload(payload)`. */
  function ParsePayload(loads: string -> Option<Json>, payload: string): seq<Json> {
    var t := Strip(payload);
    Cascade(loads, t, CodeBlock(t), BracketSpan(t))
  }

  /**
   * The three attempts in order: the stripped text, the code block's group and
   * the bracket span (each only when its pattern matched); `[]` when none
   * decodes to a list.
   */
  function Cascade(loads: string -> Option<Json>, t: string, fenced: Option<string>, spanned: Option<string>): seq<Json> {
    match AsList(loads, t)
    case Some(items) => items
    case None =>
      match (if fenced.Some? then AsList(loads, fenced.value) else None)
      case Some(items) => items
      case None =>
        match (if spanned.Some? then AsList(loads, spanned.value) else None)
        case Some(items) => items
        case None => []
  }

  /** The first candidate that decodes to a list, if any. */
  function FirstList(loads: string -> Option<Json>, cands: seq<string>): Option<seq<Json>>
    decreases |cands|
  {
    if cands == [] then None
    else
      match AsList(loads, cands[0])
      case Some(items) => Some(items)
      case None => FirstList(loads, cands[1..])
  }

  /**
   * The result is the list decoded from the first candidate that decodes to a
   * list, and `[]` when none does; no decoding error escapes.
   */
  lemma ParsePayloadIsFirstSuccess(loads: string -> Option<Json>, payload: string)
    ensures ParsePayload(loads, payload) == FirstList(loads, Candidates(payload)).GetOr([])
  {
    var t := Strip(payload);
    CascadeIsFirst(loads, t, CodeBlock(t), BracketSpan(t));
  }

  lemma CascadeIsFirst(loads: string -> Option<Json>, t: string, fenced: Option<string>, spanned: Option<string>)
    ensures Cascade(loads, t, fenced, spanned) == FirstList(loads, CandidatesOf(t, fenced, spanned)).GetOr([])
  {
    var a: seq<string> := if fenced.Some? then [fenced.value] else [];
    var b: seq<string> := if spanned.Some? then [spanned.value] else [];
    assert CandidatesOf(t, fenced, spanned) == [t] + (a + b);
    FirstListCons(loads, t, a + b);
    if a != [] {
      assert a + b == [a[0]] + b;
      FirstListCons(loads, a[0], b);
    } else {
      assert a + b == b;
    }
    if b != [] {
      assert b == [b[0]] + [];
      FirstListCons(loads, b[0], []);
    }
  }

  lemma FirstListCons(loads: string -> Option<Json>, c: string, rest: seq<string>)
    ensures FirstList(loads, [c] + rest) == if AsList(loads, c).Some? then AsList(loads, c) else FirstList(loads, rest)
  {
    assert ([c] + rest)[1..] == rest;
  }

  /** A candidate is decoded only when every earlier one failed to give a list, and the result is the first that succeeds. */
  lemma {:induction false} FirstListMeaning(loads: string -> Option<Json>, cands: seq<string>)
    ensures FirstList(loads, cands).Some? <==> exists i :: 0 <= i < |cands| && AsList(loads, cands[i]).Some?
    ensures FirstList(loads, cands).Some? ==>
      exists i :: 0 <= i < |cands| && AsList(loads, cands[i]) == FirstList(loads, cands)
        && forall j :: 0 <= j < i ==> AsList(loads, cands[j]).None?
    decreases |cands|
  {
    if cands != [] {
      var rest := cands[1..];
      FirstListMeaning(loads, rest);
      assert forall i :: 1 <= i < |cands| ==> cands[i] == rest[i - 1];
      if AsList(loads, cands[0]).None? && FirstList(loads, rest).Some? {
        var i :| 0 <= i < |rest| && AsList(loads, rest[i]) == FirstList(loads, rest)
          && forall j :: 0 <= j < i ==> AsList(loads, rest[j]).None?;
        assert AsList(loads, cands[i + 1]) == FirstList(loads, cands);
      }
    }
  }

  /** An answer that is a JSON array on its own (after trimming) is taken as it is. */
  lemma PlainArrayAnswer(loads: string -> Option<Json>, payload: string, items: seq<Json>)
    requires loads(Strip(payload)) == Some(JArr(items))
    ensures ParsePayload(loads, payload) == items
  {
  }

  /** An answer with no array in it, fenced or bracketed, gives the empty list. */
  lemma NoArrayAnswer(loads: string -> Option<Json>, payload: string)
    requires forall s :: AsList(loads, s).None?
    ensures ParsePayload(loads, payload) == []
  {
  }

  /** An answer whose trimmed text has no `[` and whose whole text is no list yields `[]` unless its code block decodes to a list. */
  lemma NoBracketAnswer(loads: string -> Option<Json>, payload: string)
    requires '[' !in Strip(payload)
    requires AsList(loads, Strip(payload)).None?
    ensures CodeBlock(Strip(payload)).None? ==> ParsePayload(loads, payload) == []
    ensures BracketSpan(Strip(payload)).None?
  {
    BracketSpanMeaning(Strip(payload));
  }

  // ---------------------------------------------------------------- fenced answers

  /** With no backtick between `q` and a fence at `e`, that fence is the next one. */
  lemma {:induction false} NextFenceAfterPlainText(t: string, q: nat, e: nat)
    requires q <= e && FenceAt(t, e)
    requires forall k :: q <= k < e ==> t[k] != '`'
    ensures NextFence(t, q) == Some(e)
    decreases e - q
  {
    if q < e {
      NextFenceAfterPlainText(t, q + 1, e);
    }
  }

  /**
   * An answer that opens with a fence tagged `json` and one blank, and whose only
   * other backticks are a closing fence at its very end, yields the text in between.
   */
  lemma FencedBlock(t: string)
    requires |t| >= 11 && FenceAt(t, 0) && TagAt(t, 3) && IsSpace(t[7]) && !IsSpace(t[8])
    requires FenceAt(t, |t| - 3)
    requires forall k :: 8 <= k < |t| - 3 ==> t[k] != '`'
    ensures CodeBlock(t) == Some(t[8..|t| - 3])
  {
    assert SkipSpace(t, 8) == 8;
    assert BodyStart(t, 0) == 8;
    NextFenceAfterPlainText(t, 8, |t| - 3);
  }

  /** The block `"```json\n" + body + "```"` for a body with no backtick that starts with a non-blank. */
  lemma FencedBody(body: string)
    requires body != [] && !IsSpace(body[0])
    requires '`' !in body
    ensures var t := "```json\n" + body + "```";
      Strip(t) == t && CodeBlock(t) == Some(body)
  {
    var t := "```json\n" + body + "```";
    FencedShape(body);
    StripKeepsTrimmed(t);
    FencedBlock(t);
    assert t[8..|t| - 3] == body;
  }

  lemma FencedShape(body: string)
    requires body != [] && !IsSpace(body[0])
    requires '`' !in body
    ensures var t := "```json\n" + body + "```";
      |t| >= 11 && FenceAt(t, 0) && TagAt(t, 3) && IsSpace(t[7]) && !IsSpace(t[8])
      && FenceAt(t, |t| - 3) && !IsSpace(t[0]) && !IsSpace(t[|t| - 1])
      && forall k :: 8 <= k < |t| - 3 ==> t[k] != '`'
  {
    var t := "```json\n" + body + "```";
    assert forall k :: 8 <= k < |t| - 3 ==> t[k] == body[k - 8];
  }

  /** A trimmed answer that is no list but whose code block decodes to a list gives that list. */
  lemma BlockAnswer(loads: string -> Option<Json>, t: string, body: string, items: seq<Json>)
    requires Strip(t) == t && CodeBlock(t) == Some(body)
    requires AsList(loads, t).None?
    requires loads(body) == Some(JArr(items))
    ensures ParsePayload(loads, t) == items
  {
  }

  /** Without a backtick there is no code block. */
  lemma NoTickNoBlock(t: string)
    requires '`' !in t
    ensures CodeBlock(t).None?
  {
    FenceSearchFinds(t, 0);
    forall k | 0 <= k
      ensures !OpensBlock(t, k)
    {
      if k < |t| {
        assert t[k] != '`';
      }
    }
  }

  /** An answer with neither a backtick nor a `[` that is not itself a list yields `[]`. */
  lemma NoFenceNoBracket(loads: string -> Option<Json>, payload: string)
    requires '`' !in Strip(payload) && '[' !in Strip(payload)
    requires AsList(loads, Strip(payload)).None?
    ensures ParsePayload(loads, payload) == []
  {
    NoTickNoBlock(Strip(payload));
    NoBracketAnswer(loads, payload);
  }
}
