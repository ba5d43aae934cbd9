// `make_quiz`: ask the LLM for `n` question/answer pairs about a Markdown text,
// and keep the first `n` usable entries of the list it answers with.

module Quiz {
  import opened Wrappers
  import opened PyText
  import opened JsonValue
  import opened QuizParse

  /** One quiz pair `(str(Q).strip(), str(A).strip())`. */
  datatype QA = QA(question: string, answer: string)

  /** An entry the loop keeps: a dict whose `Q` and `A` are both present and truthy. */
  predicate Usable(j: Json) {
    j.JObj? && "Q" in j.fields && "A" in j.fields && Truthy(j.fields["Q"]) && Truthy(j.fields["A"])
  }

  /** The pair made from a usable entry. */
  function PairOf(show: Json -> string, j: Json): QA
    requires Usable(j)
  {
    QA(Strip(PyStr(show, j.fields["Q"])), Strip(PyStr(show, j.fields["A"])))
  }

  /** What one entry contributes: its pair when usable, nothing otherwise. */
  function PairsOfOne(show: Json -> string, j: Json): (r: seq<QA>)
    ensures |r| <= 1
  {
    if Usable(j) then [PairOf(show, j)] else []
  }

  /** The concatenation of `f` over the list, in list order. */
  function FlatMap<T, U>(f: T -> seq<U>, s: seq<T>): seq<U>
    decreases |s|
  {
    if s == [] then [] else FlatMap(f, s[..|s| - 1]) + f(s[|s| - 1])
  }

  lemma {:induction false} FlatMapAppend<T, U>(f: T -> seq<U>, a: seq<T>, b: seq<T>)
    ensures FlatMap(f, a + b) == FlatMap(f, a) + FlatMap(f, b)
    decreases |b|
  {
    if b == [] {
      assert a + b == a;
    } else {
      var n := |b| - 1;
      var ab := a + b;
      FlatMapAppend(f, a, b[..n]);
      assert ab[..|ab| - 1] == a + b[..n] && ab[|ab| - 1] == b[n];
    }
  }

  lemma FlatMapSingle<T, U>(f: T -> seq<U>, x: T)
    ensures FlatMap(f, [x]) == f(x)
  {
    assert [x][..0] == [];
  }

  /** The per-entry contribution as a function value. */
  function Contribution(show: Json -> string): Json -> seq<QA> {
    j => PairsOfOne(show, j)
  }

  /** Every pair the list yields, in list order, with no bound. */
  function Pairs(show: Json -> string, items: seq<Json>): seq<QA> {
    FlatMap(Contribution(show), items)
  }

  /** The first `n` elements, or all of them when there are fewer. */
  function Take<T>(s: seq<T>, n: int): (r: seq<T>)
    ensures n >= 0 ==> |r| <= n
    ensures r <= s
    ensures |s| <= n ==> r == s
  {
    if n <= 0 then [] else if |s| <= n then s else s[..n]
  }

  /** Pairs distribute over concatenation: the list is filtered entry by entry. */
  lemma PairsAppend(show: Json -> string, a: seq<Json>, b: seq<Json>)
    ensures Pairs(show, a + b) == Pairs(show, a) + Pairs(show, b)
  {
    FlatMapAppend(Contribution(show), a, b);
  }

  /** A single entry yields its pair when usable and nothing otherwise. */
  lemma PairsSingle(show: Json -> string, j: Json)
    ensures Pairs(show, [j]) == if Usable(j) then [PairOf(show, j)] else []
  {
    FlatMapSingle(Contribution(show), j);
  }

  /** The pairs of a prefix of the list are a prefix of its pairs. */
  lemma PairsPrefix(show: Json -> string, items: seq<Json>, i: nat)
    requires i <= |items|
    ensures Pairs(show, items) == Pairs(show, items[..i]) + Pairs(show, items[i..])
    ensures Pairs(show, items[..i]) <= Pairs(show, items)
  {
    var front, back := items[..i], items[i..];
    assert front + back == items;
    FlatMapAppend(Contribution(show), front, back);
  }

  /** One more entry adds its own contribution at the end. */
  lemma PairsStep(show: Json -> string, items: seq<Json>, i: nat)
    requires i < |items|
    ensures Pairs(show, items[..i + 1]) == Pairs(show, items[..i]) + PairsOfOne(show, items[i])
  {
    var item, front := items[i], items[..i];
    assert items[..i + 1] == front + [item];
    FlatMapAppend(Contribution(show), front, [item]);
    FlatMapSingle(Contribution(show), item);
  }

  /** A prefix that is the whole sequence, or exactly `n` long, is what `Take` keeps. */
  lemma TakePrefix<T>(all: seq<T>, pre: seq<T>, n: int)
    requires pre <= all && |pre| <= n
    requires pre == all || |pre| == n
    ensures pre == Take(all, n)
  {
  }

  /**
   * The loop of `make_quiz` over the parsed list (entered only with `n >= 1`):
   * skip unusable entries, append the pair of each usable one, stop once `n`
   * pairs are collected.
   */
  method CollectPairs(show: Json -> string, items: seq<Json>, n: int) returns (qa: seq<QA>)
    requires n >= 1
    ensures qa == Take(Pairs(show, items), n)
  {
    qa := [];
    var i := 0;
    while i < |items| && |qa| < n
      invariant 0 <= i <= |items|
      invariant qa == Pairs(show, items[..i])
      invariant |qa| <= n
    {
      // skip an entry that is not a dict or lacks a truthy `Q` or `A`; append its pair otherwise
      PairsStep(show, items, i);
      qa := qa + PairsOfOne(show, items[i]);
      i := i + 1;
    }
    if i == |items| {
      assert items[..i] == items;
    } else {
      PairsPrefix(show, items, i);
    }
    TakePrefix(Pairs(show, items), qa, n);
  }

  /**
   * `make_quiz(markdown_text, n)` as a function of the LLM's answer. The LLM is
   * keyed by `n` and the trimmed text, which is all the fixed prompt template
   * depends on; None from it is a raised error, which `make_quiz` lets escape.
   */
  function QuizOf(show: Json -> string, loads: string -> Option<Json>, llm: (int, string) -> Option<string>,
                  markdownText: string, n: int): Option<seq<QA>>
  {
    var markdown := Strip(markdownText);
    if markdown == [] || n <= 0 then Some([])
    else
      match llm(n, markdown)
      case None => None
      case Some(raw) => Some(Take(Pairs(show, ParsePayload(loads, raw)), n))
  }

  /**
   * `make_quiz`: returns at once, without consulting the LLM, when the trimmed
   * text is blank or `n <= 0`; otherwise parses the answer and collects at most
   * `n` pairs in list order.
   */
  method MakeQuiz(show: Json -> string, loads: string -> Option<Json>, llm: (int, string) -> Option<string>,
                  markdownText: string, n: int) returns (asked: bool, result: Option<seq<QA>>)
    ensures asked <==> Strip(markdownText) != [] && n > 0
    ensures !asked ==> result == Some([])
    ensures asked ==> (result.None? <==> llm(n, Strip(markdownText)).None?)
    ensures result.Some? ==> |result.value| <= if n > 0 then n else 0
    ensures result.Some? && asked ==>
      result.value == Take(Pairs(show, ParsePayload(loads, llm(n, Strip(markdownText)).value)), n)
  {
    var markdown := Strip(markdownText);
    if markdown == [] || n <= 0 {
      return false, Some([]);
    }
    asked := true;
    var raw := llm(n, markdown);
    if raw.None? {
      return asked, None;
    }
    var items := ParsePayload(loads, raw.value);
    var qa := CollectPairs(show, items, n);
    result := Some(qa);
  }

  /** A question of blanks is truthy, so it is kept, and stripping makes it empty. */
  lemma BlankQuestionKept(show: Json -> string, answer: string)
    requires answer != [] && !IsSpace(answer[0]) && !IsSpace(answer[|answer| - 1])
    ensures var item := JObj(map["Q" := JStr("  "), "A" := JStr(answer)]);
      Usable(item) && PairOf(show, item) == QA("", answer)
  {
    assert AllSpace("  ") by { assert forall k :: 0 <= k < 2 ==> "  "[k] == ' '; }
    StripEmptyIffAllSpace("  ");
    StripKeepsTrimmed(answer);
  }

  // ---------------------------------------------------------------- examples

  const OnePair: Json := JObj(map["Q" := JStr("a"), "A" := JStr("b")])

  /** A quiz whose LLM answered `raw` is the first `n` pairs of what `raw` parses to. */
  lemma QuizOfAnswer(show: Json -> string, loads: string -> Option<Json>, llm: (int, string) -> Option<string>,
                     markdownText: string, n: int, raw: string)
    requires Strip(markdownText) != [] && n > 0
    requires llm(n, Strip(markdownText)) == Some(raw)
    ensures QuizOf(show, loads, llm, markdownText, n) == Some(Take(Pairs(show, ParsePayload(loads, raw)), n))
  {
  }

  /** An answer that is exactly `[{"Q":"a","A":"b"}]` gives the one pair `("a", "b")`. */
  lemma PlainAnswerExample(show: Json -> string, loads: string -> Option<Json>, llm: (int, string) -> Option<string>,
                           markdownText: string, n: int)
    requires Strip(markdownText) != [] && n > 0
    requires llm(n, Strip(markdownText)) == Some("[{\"Q\":\"a\",\"A\":\"b\"}]")
    requires loads("[{\"Q\":\"a\",\"A\":\"b\"}]") == Some(JArr([OnePair]))
    ensures QuizOf(show, loads, llm, markdownText, n) == Some([QA("a", "b")])
  {
    var raw := "[{\"Q\":\"a\",\"A\":\"b\"}]";
    TrimmedList(loads, raw);
    OnePairAnswer(show, loads, llm, markdownText, n, raw);
  }

  /** An answer that parses to the one entry `{"Q": "a", "A": "b"}` gives the quiz `[("a", "b")]`. */
  lemma OnePairAnswer(show: Json -> string, loads: string -> Option<Json>, llm: (int, string) -> Option<string>,
                      markdownText: string, n: int, raw: string)
    requires Strip(markdownText) != [] && n > 0
    requires llm(n, Strip(markdownText)) == Some(raw)
    requires ParsePayload(loads, raw) == [OnePair]
    ensures QuizOf(show, loads, llm, markdownText, n) == Some([QA("a", "b")])
  {
    QuizOfAnswer(show, loads, llm, markdownText, n, raw);
    OnePairYields(show);
  }

  lemma TrimmedList(loads: string -> Option<Json>, raw: string)
    requires raw != [] && raw[0] == '[' && raw[|raw| - 1] == ']'
    requires loads(raw) == Some(JArr([OnePair]))
    ensures ParsePayload(loads, raw) == [OnePair]
  {
    StripKeepsTrimmed(raw);
    PlainArrayAnswer(loads, raw, [OnePair]);
  }

  /** The same list inside a code fence tagged `json` gives the same pair when the whole answer is not JSON. */
  lemma FencedAnswerExample(show: Json -> string, loads: string -> Option<Json>, llm: (int, string) -> Option<string>,
                            markdownText: string, n: int)
    requires Strip(markdownText) != [] && n > 0
    requires llm(n, Strip(markdownText)) == Some("```json\n" + "[{\"Q\":\"a\",\"A\":\"b\"}]\n" + "```")
    requires AsList(loads, "```json\n" + "[{\"Q\":\"a\",\"A\":\"b\"}]\n" + "```").None?
    requires loads("[{\"Q\":\"a\",\"A\":\"b\"}]\n") == Some(JArr([OnePair]))
    ensures QuizOf(show, loads, llm, markdownText, n) == Some([QA("a", "b")])
  {
    var body := "[{\"Q\":\"a\",\"A\":\"b\"}]\n";
    BodyText(body);
    FencedList(loads, body);
    OnePairAnswer(show, loads, llm, markdownText, n, "```json\n" + body + "```");
  }

  lemma BodyText(body: string)
    requires body == "[{\"Q\":\"a\",\"A\":\"b\"}]\n"
    ensures body != [] && !IsSpace(body[0]) && '`' !in body
  {
    assert body[0] == '[';
    assert forall k :: 0 <= k < |body| ==> body[k] != '`';
  }

  lemma FencedList(loads: string -> Option<Json>, body: string)
    requires body != [] && !IsSpace(body[0]) && '`' !in body
    requires AsList(loads, "```json\n" + body + "```").None?
    requires loads(body) == Some(JArr([OnePair]))
    ensures ParsePayload(loads, "```json\n" + body + "```") == [OnePair]
  {
    var t := "```json\n" + body + "```";
    FencedBody(body);
    BlockAnswer(loads, t, body, [OnePair]);
  }

  /** Noise with neither a fence nor a bracket gives no pairs and raises nothing. */
  lemma NoiseAnswerExample(show: Json -> string, loads: string -> Option<Json>, llm: (int, string) -> Option<string>,
                           markdownText: string, n: int)
    requires Strip(markdownText) != [] && n > 0
    requires llm(n, Strip(markdownText)) == Some("sorry, I cannot help")
    requires AsList(loads, "sorry, I cannot help").None?
    ensures QuizOf(show, loads, llm, markdownText, n) == Some([])
  {
    var raw := "sorry, I cannot help";
    NoiseText(raw);
    TrimmedNoise(loads, raw);
    EmptyAnswer(show, loads, llm, markdownText, n, raw);
  }

  /** An answer that parses to no list gives the empty quiz. */
  lemma EmptyAnswer(show: Json -> string, loads: string -> Option<Json>, llm: (int, string) -> Option<string>,
                    markdownText: string, n: int, raw: string)
    requires Strip(markdownText) != [] && n > 0
    requires llm(n, Strip(markdownText)) == Some(raw)
    requires ParsePayload(loads, raw) == []
    ensures QuizOf(show, loads, llm, markdownText, n) == Some([])
  {
    QuizOfAnswer(show, loads, llm, markdownText, n, raw);
    assert Pairs(show, []) == [];
  }

  lemma NoiseText(raw: string)
    requires raw == "sorry, I cannot help"
    ensures raw != [] && !IsSpace(raw[0]) && !IsSpace(raw[|raw| - 1])
    ensures '`' !in raw && '[' !in raw
  {
    assert raw[0] == 's' && raw[|raw| - 1] == 'p';
    assert forall k :: 0 <= k < |raw| ==> raw[k] != '`' && raw[k] != '[';
  }

  lemma TrimmedNoise(loads: string -> Option<Json>, raw: string)
    requires raw != [] && !IsSpace(raw[0]) && !IsSpace(raw[|raw| - 1])
    requires '`' !in raw && '[' !in raw
    requires AsList(loads, raw).None?
    ensures ParsePayload(loads, raw) == []
  {
    StripKeepsTrimmed(raw);
    NoFenceNoBracket(loads, raw);
  }

  lemma OnePairYields(show: Json -> string)
    ensures Usable(OnePair) && PairOf(show, OnePair) == QA("a", "b")
    ensures Pairs(show, [OnePair]) == [QA("a", "b")]
  {
    var q, x := "a", "b";
    assert OnePair == JObj(map["Q" := JStr(q), "A" := JStr(x)]);
    StringPair(show, q, x);
    PairsSingle(show, OnePair);
  }

  /** An entry whose `Q` and `A` are non-empty strings with nothing to strip yields exactly those strings. */
  lemma StringPair(show: Json -> string, q: string, x: string)
    requires q != [] && !IsSpace(q[0]) && !IsSpace(q[|q| - 1])
    requires x != [] && !IsSpace(x[0]) && !IsSpace(x[|x| - 1])
    ensures var j := JObj(map["Q" := JStr(q), "A" := JStr(x)]);
      Usable(j) && PairOf(show, j) == QA(q, x)
  {
    StripKeepsTrimmed(q);
    StripKeepsTrimmed(x);
  }
}
