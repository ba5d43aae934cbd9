// The Kindle notebook (`kindle-summarize-quiz/app.py`): for every highlight
// export, read the title and author from its header lines, build the front
// matter and the bullet list of highlighted passages, and file the LLM's summary
// under `summary/<title>.md`; then, for every summary file, read the title back
// from its front matter and file the LLM's quiz under `problem_bank/<title>.md`.

module Kindle {
  import opened Wrappers
  import opened PyText

  // ---------------------------------------------------------------- header

  /**
   * The notebook's `title` and `author` variables. They are module-level, so
   * they keep the values of the previous export until a line rebinds them;
   * None is an unbound name.
   */
  datatype Bindings = Bindings(title: Option<string>, author: Option<string>)

  /** A header line `split(':')[1]` cannot be taken from: `IndexError`. */
  predicate Faulty(l: string) {
    (Contains(l, "title") || Contains(l, "author")) && ':' !in l
  }

  /** One pass of the header loop: a line containing `title` rebinds the title to its stripped second field, one containing `author` the author to its raw second field. */
  function ScanLine(b: Bindings, l: string): (r: Option<Bindings>)
    ensures r.None? <==> Faulty(l)
  {
    if Faulty(l) then None
    else
      Some(Bindings(
        if Contains(l, "title") then Some(Strip(SecondField(l).value)) else b.title,
        if Contains(l, "author") then SecondField(l) else b.author))
  }

  /** The header loop over all lines of one export. */
  function ScanHeader(lines: seq<string>, b: Bindings): Option<Bindings>
    decreases |lines|
  {
    if lines == [] then Some(b)
    else
      var n := |lines| - 1;
      match ScanHeader(lines[..n], b)
      case None => None
      case Some(b') => ScanLine(b', lines[n])
  }

  /** The index of the last line containing `w`. */
  function LastWith(lines: seq<string>, w: string): (k: Option<nat>)
    ensures k.Some? ==> k.value < |lines| && Contains(lines[k.value], w)
    ensures forall j :: 0 <= j < |lines| && (k.None? || j > k.value) ==> !Contains(lines[j], w)
    decreases |lines|
  {
    if lines == [] then None
    else if Contains(lines[|lines| - 1], w) then Some(|lines| - 1)
    else
      var k := LastWith(lines[..|lines| - 1], w);
      assert forall j :: 0 <= j < |lines| - 1 ==> lines[..|lines| - 1][j] == lines[j];
      k
  }

  /** What a name is bound to after the loop: the field taken from the last line mentioning it, or what it was before. */
  function Bound(lines: seq<string>, w: string, before: Option<string>, strip: bool): Option<string> {
    match LastWith(lines, w)
    case None => before
    case Some(k) =>
      if ':' in lines[k] then
        var f := SecondField(lines[k]).value;
        Some(if strip then Strip(f) else f)
      else None
  }

  /** The header loop fails exactly when some line mentions `title` or `author` without a colon. */
  lemma {:induction false} HeaderFails(lines: seq<string>, b: Bindings)
    ensures ScanHeader(lines, b).None? <==> exists k :: 0 <= k < |lines| && Faulty(lines[k])
    decreases |lines|
  {
    if lines != [] {
      var n := |lines| - 1;
      var init := lines[..n];
      HeaderFails(init, b);
      assert forall k :: 0 <= k < n ==> init[k] == lines[k];
      if exists k :: 0 <= k < |lines| && Faulty(lines[k]) {
        var k :| 0 <= k < |lines| && Faulty(lines[k]);
        if k < n {
          assert Faulty(init[k]);
        }
      }
    }
  }

  /** Extending the lines by one: the last line decides when it mentions `w`. */
  lemma BoundStep(lines: seq<string>, w: string, before: Option<string>, strip: bool)
    requires lines != []
    ensures var n := |lines| - 1;
      Bound(lines, w, before, strip)
      == if Contains(lines[n], w) then Bound([lines[n]], w, before, strip) else Bound(lines[..n], w, before, strip)
  {
    var n := |lines| - 1;
    if Contains(lines[n], w) {
      assert LastWith(lines, w) == Some(n);
      assert LastWith([lines[n]], w) == Some(0);
    } else {
      assert LastWith(lines, w) == LastWith(lines[..n], w);
    }
  }

  /**
   * One header line raises exactly when it mentions a key and has no second field;
   * otherwise each name is bound as the one-line loop leaves it.
   */
  lemma ScanLineMeaning(b: Bindings, l: string)
    ensures ScanLine(b, l).None? <==> (Contains(l, "title") || Contains(l, "author")) && SecondField(l).None?
    ensures ScanLine(b, l).Some? ==>
      ScanLine(b, l).value == Bindings(Bound([l], "title", b.title, true), Bound([l], "author", b.author, false))
  {
  }

  /**
   * After a loop that does not fail, the title is the stripped second field of the
   * last line containing `title`, and the author the unstripped second field of the
   * last line containing `author`; without such a line the name keeps its value.
   */
  lemma {:induction false} HeaderBinds(lines: seq<string>, b: Bindings)
    requires ScanHeader(lines, b).Some?
    ensures ScanHeader(lines, b).value == Bindings(Bound(lines, "title", b.title, true), Bound(lines, "author", b.author, false))
    decreases |lines|
  {
    if lines != [] {
      var n := |lines| - 1;
      HeaderBinds(lines[..n], b);
      BoundStep(lines, "title", b.title, true);
      BoundStep(lines, "author", b.author, false);
    }
  }

  // ---------------------------------------------------------------- front matter

  /** A property value: the notebook writes strings as they are and lists through `json.dumps`. */
  datatype PropValue = Text(s: string) | Items(items: seq<string>)

  /** The tags every export gets. */
  const Tags: seq<string> := ["kindle", "quize"]

  /** The property dict in insertion order: title, author, tags. */
  function Properties(title: string, author: string): seq<(string, PropValue)> {
    [("title", Text(title)), ("author", Text(author)), ("tags", Items(Tags))]
  }

  /** `json.dumps` of a list of strings that need no escaping, with its default `", "` separator. */
  function Dumps(items: seq<string>): string {
    "[" + DumpsItems(items) + "]"
  }

  function DumpsItems(items: seq<string>): string
    decreases |items|
  {
    if items == [] then []
    else if |items| == 1 then "\"" + items[0] + "\""
    else "\"" + items[0] + "\"" + ", " + DumpsItems(items[1..])
  }

  function PropLine(key: string, v: PropValue): string {
    key + ": " + (match v case Text(s) => s case Items(xs) => Dumps(xs)) + "\n"
  }

  function PropLines(props: seq<(string, PropValue)>): string
    decreases |props|
  {
    if props == [] then [] else PropLine(props[0].0, props[0].1) + PropLines(props[1..])
  }

  /** The front matter: `---`, one `key: value` line per property in order, `---`, each line ended by a newline. */
  function Serialize(props: seq<(string, PropValue)>): string {
    "---\n" + PropLines(props) + "---\n"
  }

  function FrontMatter(title: string, author: string): string {
    Serialize(Properties(title, author))
  }

  const TagsText: string := "[\"kindle\", \"quize\"]"

  lemma TagsDump()
    ensures Dumps(Tags) == TagsText
  {
    assert Tags[1..] == ["quize"];
  }

  /** Three lines between `---` fences, each line ended by a newline, and then `rest` after the closing fence. */
  function Fenced(l1: string, l2: string, l3: string, rest: string): string {
    "---\n" + (l1 + ("\n" + (l2 + ("\n" + (l3 + ("\n---" + rest))))))
  }

  /** The front matter of a book is five lines: the fence, the title, the author, the tags and the fence. */
  lemma FrontMatterLines(title: string, author: string)
    ensures FrontMatter(title, author) == Fenced("title: " + title, "author: " + author, "tags: " + TagsText, "\n")
  {
    TagsDump();
    var p := Properties(title, author);
    var k1, k2, k3 := "title", "author", "tags";
    var l1, l2, l3 := k1 + ": " + title, k2 + ": " + author, k3 + ": " + TagsText;
    assert p[1..] == [("author", Text(author)), ("tags", Items(Tags))];
    assert p[1..][1..] == [("tags", Items(Tags))];
    assert PropLines(p[1..][1..][1..]) == [];
    var n, close := "\n", "---\n";
    assert PropLines(p[1..][1..]) == l3 + n + [];
    assert PropLines(p[1..]) == l2 + n + (l3 + n + []);
    assert PropLines(p) == l1 + n + (l2 + n + (l3 + n + []));
    assert k1 + ": " == "title: " && k2 + ": " == "author: " && k3 + ": " == "tags: ";
    assert n + close == "\n---" + "\n";
    FenceLines("---\n", l1, l2, l3, n, close, "\n---" + "\n");
  }

  /** Property lines joined by `PropLines`, between two fences, regrouped as `Fenced` nests them. */
  lemma FenceLines(open: string, l1: string, l2: string, l3: string, n: string, close: string, h: string)
    requires n + close == h
    ensures open + (l1 + n + (l2 + n + (l3 + n + []))) + close == open + (l1 + (n + (l2 + (n + (l3 + h)))))
  {
    assert l3 + n + [] == l3 + n;
  }

  /** Text after a fenced block moves inside it. */
  lemma FencedAppend(l1: string, l2: string, l3: string, r: string, x: string)
    ensures Fenced(l1, l2, l3, r) + x == Fenced(l1, l2, l3, r + x)
  {
    var a, b, c := "---\n", "\n", "\n---";
    AppendInnermost(a, l1, b, l2, b, l3, c, r, x);
  }

  /** Concatenation is associative: text after a right-nested chain joins its innermost part. */
  lemma AppendInnermost(a: string, b: string, c: string, d: string, e: string, f: string, g: string, h: string, x: string)
    ensures (a + (b + (c + (d + (e + (f + (g + h))))))) + x == a + (b + (c + (d + (e + (f + (g + (h + x)))))))
  {
  }

  // ---------------------------------------------------------------- highlights

  /**
   * The passages: every match of the pattern after the `## Highlights` heading,
   * then every match of the pattern after a `---` rule, both in text order and
   * without removing duplicates.
   */
  function Passages(afterHeading: seq<string>, afterRule: seq<string>): (r: seq<string>)
    ensures |r| == |afterHeading| + |afterRule|
    ensures forall k :: 0 <= k < |afterHeading| ==> r[k] == afterHeading[k]
    ensures forall k :: 0 <= k < |afterRule| ==> r[|afterHeading| + k] == afterRule[k]
  {
    afterHeading + afterRule
  }

  /** The highlight Markdown: one line `- <passage>` per passage, in order. */
  function Bullets(passages: seq<string>): string
    decreases |passages|
  {
    if passages == [] then [] else "- " + passages[0] + "\n" + Bullets(passages[1..])
  }

  /** Reads a bullet list back: each line must start with `- `. */
  function ParseBullets(md: string): Option<seq<string>>
    decreases |md|
  {
    if md == [] then Some([])
    else if |md| < 2 || md[0] != '-' || md[1] != ' ' then None
    else
      var rest := md[2..];
      var i := IndexOf(rest, '\n');
      if i == |rest| then None
      else
        match ParseBullets(rest[i + 1..])
        case None => None
        case Some(ps) => Some([rest[..i]] + ps)
  }

  lemma IndexOfAfter(p: string, c: char, x: string)
    requires c !in p
    ensures IndexOf(p + [c] + x, c) == |p|
  {
    var s := p + [c] + x;
    assert s[..|p|] == p && s[|p|] == c;
  }

  /**
   * The bullet list loses nothing: every passage comes back, in order, as long
   * as none holds a newline — which no match of `(.*)` does.
   */
  lemma {:induction false} BulletsRoundTrip(passages: seq<string>)
    requires forall k :: 0 <= k < |passages| ==> '\n' !in passages[k]
    ensures ParseBullets(Bullets(passages)) == Some(passages)
    decreases |passages|
  {
    if passages != [] {
      var p, rest := passages[0], passages[1..];
      LinesOfTail(passages);
      BulletsRoundTrip(rest);
      BulletCons(p, rest);
      assert [p] + rest == passages;
    }
  }

  lemma LinesOfTail(passages: seq<string>)
    requires passages != []
    requires forall k :: 0 <= k < |passages| ==> '\n' !in passages[k]
    ensures forall k :: 0 <= k < |passages[1..]| ==> '\n' !in passages[1..][k]
  {
    forall k | 0 <= k < |passages[1..]|
      ensures '\n' !in passages[1..][k]
    {
      assert passages[1..][k] == passages[k + 1];
    }
  }

  lemma BulletCons(p: string, rest: seq<string>)
    requires '\n' !in p
    requires ParseBullets(Bullets(rest)) == Some(rest)
    ensures ParseBullets(Bullets([p] + rest)) == Some([p] + rest)
  {
    var tail := Bullets(rest);
    assert ([p] + rest)[1..] == rest;
    assert Bullets([p] + rest) == "- " + p + "\n" + tail;
    ParseOneBullet(p, tail);
  }

  /** One bullet line is read back whole, and the rest of the list after it. */
  lemma ParseOneBullet(p: string, tail: string)
    requires '\n' !in p
    ensures ParseBullets(tail).Some? ==> ParseBullets("- " + p + "\n" + tail) == Some([p] + ParseBullets(tail).value)
  {
    var md := "- " + p + "\n" + tail;
    assert md == "- " + (p + "\n" + tail);
    assert md[0] == '-' && md[1] == ' ';
    var rest := md[2..];
    assert rest == p + ['\n'] + tail;
    IndexOfAfter(p, '\n', tail);
    assert rest[..|p|] == p && rest[|p| + 1..] == tail;
  }

  // ---------------------------------------------------------------- summary files

  /** One highlight export: its text and the matches of the two passage patterns in it. */
  datatype Book = Book(text: string, afterHeading: seq<string>, afterRule: seq<string>)

  /** A file the notebook writes: `<dir>/<name>` with its contents. */
  datatype Artifact = Artifact(dir: string, name: string, text: string)

  /**
   * The body of the summary loop for one export, starting from the bindings the
   * previous export left: the header loop, the property dict (`NameError` when a
   * name is still unbound), the front matter, the bullet list, the LLM call (None
   * is a raised error; the fixed prompt is prepended to the bullet list, so the
   * answer depends on that list alone) and the file `summary/<title>.md`.
   */
  function SummariseBook(llm: string -> Option<string>, b: Bindings, book: Book): Option<(Bindings, Artifact)> {
    match ScanHeader(SplitLines(book.text), b)
    case None => None
    case Some(after) =>
      if after.title.None? || after.author.None? then None
      else
        match llm(Bullets(Passages(book.afterHeading, book.afterRule)))
        case None => None
        case Some(res) =>
          var title := after.title.value;
          Some((after, Artifact("summary", title + ".md", FrontMatter(title, after.author.value) + res)))
  }

  /** The summary loop over the exports in directory order; the bindings carry over from one export to the next. */
  function SummariseAll(llm: string -> Option<string>, b: Bindings, books: seq<Book>): Option<seq<Artifact>>
    decreases |books|
  {
    if books == [] then Some([])
    else
      match SummariseBook(llm, b, books[0])
      case None => None
      case Some((after, a)) =>
        match SummariseAll(llm, after, books[1..])
        case None => None
        case Some(rest) => Some([a] + rest)
  }

  // ---------------------------------------------------------------- reading the title back

  /** `---` and a newline start at `p`. */
  predicate OpensAt(t: string, p: int) {
    0 <= p && p + 4 <= |t| && t[p] == '-' && t[p + 1] == '-' && t[p + 2] == '-' && t[p + 3] == '\n'
  }

  /** A newline and `---` start at `e`. */
  predicate ClosesAt(t: string, e: int) {
    0 <= e && e + 4 <= |t| && t[e] == '\n' && t[e + 1] == '-' && t[e + 2] == '-' && t[e + 3] == '-'
  }

  /** The end of the run `(.*)` starting at `q`: the next newline, or the end of the text. */
  function LineEnd(t: string, q: nat): (e: nat)
    requires q <= |t|
    ensures q <= e <= |t|
    ensures e < |t| ==> t[e] == '\n'
    ensures forall k :: q <= k < e ==> t[k] != '\n'
    decreases |t| - q
  {
    if q < |t| && t[q] != '\n' then LineEnd(t, q + 1) else q
  }

  /** A match of `---\n(.*)\n(.*)\n(.*)\n---`: the matched text (group 0) and group 1. */
  datatype FrontMatch = FrontMatch(whole: string, first: string)

  /**
   * The match of the pattern at `p`, if any. `.` stops only at a newline, so
   * each group runs to the end of its line and no backtracking can shorten it.
   */
  function MatchAt(t: string, p: nat): Option<FrontMatch> {
    if !OpensAt(t, p) then None
    else
      var e1 := LineEnd(t, p + 4);
      if e1 == |t| then None
      else
        var e2 := LineEnd(t, e1 + 1);
        if e2 == |t| then None
        else
          var e3 := LineEnd(t, e2 + 1);
          if !ClosesAt(t, e3) then None
          else Some(FrontMatch(t[p..e3 + 4], t[p + 4..e1]))
  }

  /** `re.search`: the leftmost match at or after `p`. */
  function Search(t: string, p: nat): (r: Option<FrontMatch>)
    ensures r.Some? ==> exists k :: p <= k < |t| && MatchAt(t, k) == r
    decreases |t| - p
  {
    if p >= |t| then None
    else if MatchAt(t, p).Some? then MatchAt(t, p)
    else Search(t, p + 1)
  }

  /**
   * The body of the quiz loop for one summary file: the front matter match
   * (`AttributeError` without one), the title as `group(1).split(':')[1].strip()`
   * (`IndexError` without a colon), the LLM call on the whole file, and the file
   * `problem_bank/<title>.md` holding the matched front matter, a newline and the answer.
   */
  function QuizFile(llm: string -> Option<string>, text: string): Option<Artifact> {
    match Search(text, 0)
    case None => None
    case Some(m) =>
      match SecondField(m.first)
      case None => None
      case Some(f) =>
        match llm(text)
        case None => None
        case Some(res) => Some(Artifact("problem_bank", Strip(f) + ".md", m.whole + "\n" + res))
  }

  lemma {:induction false} LineEndAt(t: string, q: nat, e: nat)
    requires q <= e < |t| && t[e] == '\n'
    requires forall k :: q <= k < e ==> t[k] != '\n'
    ensures LineEnd(t, q) == e
    decreases e - q
  {
    if q < e {
      LineEndAt(t, q + 1, e);
    }
  }

  /** Three lines with no newline between the fences match at the start, with the first line as group 1. */
  lemma MatchOfLines(t: string, l1: string, l2: string, l3: string, rest: string)
    requires '\n' !in l1 && '\n' !in l2 && '\n' !in l3
    requires t == Fenced(l1, l2, l3, rest)
    ensures MatchAt(t, 0) == Some(FrontMatch(t[..|t| - |rest|], l1))
  {
    var open, close := "---\n", "---";
    var x := l1 + ("\n" + (l2 + ("\n" + (l3 + ("\n---" + rest)))));
    OpenFence(t, open, x);
    CloseSplit(close, rest);
    LinesAfterOpen(t, l1, l2, l3, close, rest);
  }

  lemma LinesAfterOpen(t: string, l1: string, l2: string, l3: string, close: string, rest: string)
    requires '\n' !in l1 && '\n' !in l2 && '\n' !in l3 && close == "---"
    requires OpensAt(t, 0) && t[4..] == l1 + ("\n" + (l2 + ("\n" + (l3 + ("\n" + (close + rest))))))
    ensures MatchAt(t, 0) == Some(FrontMatch(t[..|t| - |rest|], l1))
  {
    var b := l3 + ("\n" + (close + rest));
    var a := l2 + ("\n" + b);
    var e1 := DropLine(t, 4, l1, a);
    var e2 := DropLine(t, e1 + 1, l2, b);
    var e3 := DropLine(t, e2 + 1, l3, close + rest);
    CloseFence(t, e3, close, rest);
    MatchFromLines(t, e1, e2, e3);
  }

  lemma MatchFromLines(t: string, e1: nat, e2: nat, e3: nat)
    requires OpensAt(t, 0) && LineEnd(t, 4) == e1 < |t|
    requires e1 + 1 <= |t| && LineEnd(t, e1 + 1) == e2 < |t|
    requires e2 + 1 <= |t| && LineEnd(t, e2 + 1) == e3 && ClosesAt(t, e3)
    ensures MatchAt(t, 0) == Some(FrontMatch(t[..e3 + 4], t[4..e1]))
  {
    assert t[0..e3 + 4] == t[..e3 + 4];
  }

  lemma OpenFence(t: string, open: string, x: string)
    requires open == "---\n" && t == open + x
    ensures OpensAt(t, 0) && t[4..] == x
  {
  }

  lemma CloseSplit(close: string, rest: string)
    requires close == "---"
    ensures "\n---" + rest == "\n" + (close + rest)
  {
  }

  lemma CloseFence(t: string, e: nat, close: string, rest: string)
    requires close == "---"
    requires e < |t| && t[e] == '\n' && t[e + 1..] == close + rest
    ensures ClosesAt(t, e) && |t| - |rest| == e + 4 && t[..|t| - |rest|] == t[..e + 4]
  {
    assert t[e + 1..][..3] == close;
  }

  /** A line `l` and a newline at `s`: `(.*)` from `s` stops at that newline, and `r` follows it. */
  lemma DropLine(t: string, s: nat, l: string, r: string) returns (e: nat)
    requires s <= |t| && t[s..] == l + ("\n" + r) && '\n' !in l
    ensures e == s + |l| && e < |t| && t[e] == '\n'
    ensures LineEnd(t, s) == e && t[s..e] == l && t[e + 1..] == r
  {
    e := s + |l|;
    assert t[e] == t[s..][|l|];
    forall k | s <= k < e
      ensures t[k] != '\n'
    {
      assert t[k] == t[s..][k - s] == l[k - s];
    }
    LineEndAt(t, s, e);
    assert t[s..e] == t[s..][..|l|];
    assert t[e + 1..] == t[s..][|l| + 1..];
  }

  /** A title the notebook can write and read back: no colon, no line break, nothing to strip. */
  predicate GoodTitle(title: string) {
    ':' !in title && NoLineBreak(title) && Strip(title) == title
  }

  /** Bindings holding only names the header loop can produce. */
  predicate GoodBindings(b: Bindings) {
    (b.title.Some? ==> GoodTitle(b.title.value)) && (b.author.Some? ==> NoLineBreak(b.author.value))
  }

  lemma StripAfterBlank(title: string)
    requires Strip(title) == title
    ensures Strip(" " + title) == title
  {
    assert (" " + title)[1..] == title;
    assert LStrip(" " + title) == LStrip(title);
  }

  /** `split(':')[1]` of `key:x` is `x` when neither holds a colon. */
  lemma SecondFieldOf(key: string, x: string)
    requires ':' !in key && ':' !in x
    ensures SecondField(key + [':'] + x) == Some(x)
  {
    var s := key + [':'] + x;
    IndexOfAfter(key, ':', x);
    assert s[|key| + 1..] == x;
    assert Split(x, ':') == [x];
  }

  lemma TitleField(title: string)
    requires GoodTitle(title)
    ensures SecondField("title: " + title) == Some(" " + title)
  {
    var x := " " + title;
    assert ':' !in x by {
      assert forall k :: 1 <= k < |x| ==> x[k] == title[k - 1];
    }
    var key := "title";
    assert ':' !in key;
    SecondFieldOf(key, x);
    assert key + [':'] + x == "title: " + title;
  }

  /**
   * Round trip: the quiz pass reads back from a summary file exactly the title
   * the summary pass wrote into its front matter, and copies the front matter.
   */
  lemma {:induction false} QuizFollowsSummary(llm: string -> Option<string>, title: string, author: string, res: string)
    requires GoodTitle(title) && NoLineBreak(author)
    requires llm(FrontMatter(title, author) + res).Some?
    ensures QuizFile(llm, FrontMatter(title, author) + res)
      == Some(Artifact("problem_bank", title + ".md", FrontMatter(title, author) + llm(FrontMatter(title, author) + res).value))
  {
    FrontMatterMatch(title, author, res);
    TitleField(title);
    StripAfterBlank(title);
  }

  /** The read-back pattern finds a book's front matter at the start of its summary file, title line first. */
  lemma FrontMatterMatch(title: string, author: string, res: string)
    requires NoLineBreak(title) && NoLineBreak(author)
    ensures Search(FrontMatter(title, author) + res, 0).Some?
    ensures Search(FrontMatter(title, author) + res, 0).value.first == "title: " + title
    ensures Search(FrontMatter(title, author) + res, 0).value.whole + "\n" == FrontMatter(title, author)
  {
    var l1, l2, l3 := "title: " + title, "author: " + author, "tags: " + TagsText;
    FrontMatterLines(title, author);
    LinesOfFrontMatter(title, author, l1, l2, l3);
    BlockMatch(FrontMatter(title, author), res, l1, l2, l3);
  }

  /** A fenced block of three lines followed by anything: the search finds the block, first line as group 1. */
  lemma BlockMatch(fm: string, res: string, l1: string, l2: string, l3: string)
    requires '\n' !in l1 && '\n' !in l2 && '\n' !in l3
    requires fm == Fenced(l1, l2, l3, "\n")
    ensures Search(fm + res, 0).Some?
    ensures Search(fm + res, 0).value.first == l1
    ensures Search(fm + res, 0).value.whole + "\n" == fm
  {
    var t, n := fm + res, "\n";
    var w := FencedSplit(fm, res, l1, l2, l3, n);
    MatchOfLines(t, l1, l2, l3, n + res);
    DropSuffix(w, n, res);
    SearchAtStart(t, FrontMatch(w, l1));
  }

  /** The block without its last newline, and the text after the closing fence moved inside it. */
  lemma FencedSplit(fm: string, res: string, l1: string, l2: string, l3: string, n: string) returns (w: string)
    requires n == "\n" && fm == Fenced(l1, l2, l3, n)
    ensures w + n == fm && fm + res == Fenced(l1, l2, l3, n + res)
  {
    w := Fenced(l1, l2, l3, []);
    FencedAppend(l1, l2, l3, [], n);
    assert [] + n == n;
    FencedAppend(l1, l2, l3, n, res);
  }

  lemma SearchAtStart(t: string, m: FrontMatch)
    requires MatchAt(t, 0) == Some(m)
    ensures Search(t, 0) == Some(m)
  {
  }

  lemma LinesOfFrontMatter(title: string, author: string, l1: string, l2: string, l3: string)
    requires NoLineBreak(title) && NoLineBreak(author)
    requires l1 == "title: " + title && l2 == "author: " + author && l3 == "tags: " + TagsText
    ensures '\n' !in l1 && '\n' !in l2 && '\n' !in l3
  {
    assert '\n' !in title && '\n' !in author;
  }

  lemma DropSuffix(w: string, n: string, res: string)
    ensures ((w + n) + res)[..|(w + n) + res| - |n + res|] == w
  {
    assert (w + n) + res == w + (n + res);
  }

  // ---------------------------------------------------------------- names the header loop produces

  lemma SplitHead(s: string, sep: char)
    ensures Split(s, sep)[0] == s[..IndexOf(s, sep)]
  {
  }

  /** The second field is a slice of the line. */
  lemma SecondFieldIsSlice(s: string)
    requires ':' in s
    ensures exists i, j :: 0 <= i <= j <= |s| && SecondField(s) == Some(s[i..j])
  {
    var i := IndexOf(s, ':');
    var tail := s[i + 1..];
    SplitHead(tail, ':');
    assert SecondField(s).value == tail[..IndexOf(tail, ':')];
    assert tail[..IndexOf(tail, ':')] == s[i + 1..i + 1 + IndexOf(tail, ':')];
  }

  /** Every character of the stripped text is in the text. */
  lemma StripChars(f: string)
    ensures forall c :: c in Strip(f) ==> c in f
  {
    var i, j := StripBounds(f);
    SliceChars(f, i, j);
  }

  /** Every character of the second field is in the line. */
  lemma FieldChars(l: string)
    requires ':' in l
    ensures forall c :: c in SecondField(l).value ==> c in l
  {
    SecondFieldIsSlice(l);
    var i, j :| 0 <= i <= j <= |l| && SecondField(l) == Some(l[i..j]);
    SliceChars(l, i, j);
  }

  lemma NoLineBreakWithin(f: string, l: string)
    requires NoLineBreak(l)
    requires forall c :: c in f ==> c in l
    ensures NoLineBreak(f)
  {
    forall k | 0 <= k < |f|
      ensures !IsLineBreak(f[k])
    {
      assert f[k] in l;
    }
  }

  /** A field taken from a line is a good title once stripped, and a good author as it is. */
  lemma FieldIsGood(l: string)
    requires ':' in l && NoLineBreak(l)
    ensures GoodTitle(Strip(SecondField(l).value)) && NoLineBreak(SecondField(l).value)
  {
    var f := SecondField(l).value;
    FieldChars(l);
    StripChars(f);
    NoLineBreakWithin(f, l);
    NoLineBreakWithin(Strip(f), l);
    StripIdempotent(f);
  }

  /** The header loop only binds good names. */
  lemma {:induction false} ScanKeepsGood(lines: seq<string>, b: Bindings)
    requires forall k :: 0 <= k < |lines| ==> NoLineBreak(lines[k])
    requires GoodBindings(b) && ScanHeader(lines, b).Some?
    ensures GoodBindings(ScanHeader(lines, b).value)
    decreases |lines|
  {
    if lines != [] {
      var n := |lines| - 1;
      ScanKeepsGood(lines[..n], b);
      var l := lines[n];
      if ':' in l {
        FieldIsGood(l);
      }
    }
  }

  /**
   * Every summary file the pass writes is named after a title its quiz pass reads
   * back unchanged: the quiz file gets the same name in `problem_bank` and starts
   * with the same front matter.
   */
  lemma SummaryThenQuiz(llm: string -> Option<string>, quizLlm: string -> Option<string>, b: Bindings, book: Book)
    requires GoodBindings(b) && SummariseBook(llm, b, book).Some?
    ensures var (after, a) := SummariseBook(llm, b, book).value;
      var fm := FrontMatter(after.title.value, after.author.value);
      && a.dir == "summary" && a.name == after.title.value + ".md" && fm <= a.text
      && (quizLlm(a.text).Some? ==>
            QuizFile(quizLlm, a.text) == Some(Artifact("problem_bank", a.name, fm + quizLlm(a.text).value)))
  {
    var lines := SplitLines(book.text);
    ScanKeepsGood(lines, b);
    var (after, a) := SummariseBook(llm, b, book).value;
    var res := llm(Bullets(Passages(book.afterHeading, book.afterRule))).value;
    if quizLlm(a.text).Some? {
      QuizFollowsSummary(quizLlm, after.title.value, after.author.value, res);
    }
  }

  // ---------------------------------------------------------------- the carried-over title

  /**
   * As written, an export with no line containing `title` is filed under the
   * title of the export before it: the second summary file has the same path as
   * the first and replaces it.
   */
  lemma StaleTitleOverwrites(llm: string -> Option<string>, b: Bindings, first: Book, second: Book)
    requires forall k :: 0 <= k < |SplitLines(second.text)| ==> !Contains(SplitLines(second.text)[k], "title")
    requires SummariseAll(llm, b, [first, second]).Some?
    ensures var out := SummariseAll(llm, b, [first, second]).value;
      |out| == 2 && out[1].dir == out[0].dir && out[1].name == out[0].name
  {
    assert [first, second][1..] == [second];
    assert [second][1..] == [];
    var (after1, a1) := SummariseBook(llm, b, first).value;
    assert SummariseAll(llm, after1, [second]).Some?;
    var (after2, a2) := SummariseBook(llm, after1, second).value;
    var lines := SplitLines(second.text);
    HeaderBinds(lines, after1);
    assert LastWith(lines, "title").None?;
    assert after2.title == after1.title;
    assert SummariseAll(llm, b, [first, second]).value == [a1, a2];
  }

  /** Corrected: every export starts with both names unbound, so nothing is carried over. */
  function SummariseFresh(llm: string -> Option<string>, books: seq<Book>): Option<seq<Artifact>>
    decreases |books|
  {
    if books == [] then Some([])
    else
      match SummariseBook(llm, Bindings(None, None), books[0])
      case None => None
      case Some((_, a)) =>
        match SummariseFresh(llm, books[1..])
        case None => None
        case Some(rest) => Some([a] + rest)
  }

  /** The title of an export taken from its own header: the stripped second field of its last line containing `title`. */
  function OwnTitle(book: Book): Option<string> {
    var lines := SplitLines(book.text);
    match LastWith(lines, "title")
    case None => None
    case Some(k) => if ':' in lines[k] then Some(Strip(SecondField(lines[k]).value)) else None
  }

  /** Corrected, for one export: its file is named after its own title, and without a title line it is not written. */
  lemma OwnTitleNames(llm: string -> Option<string>, book: Book)
    ensures SummariseBook(llm, Bindings(None, None), book).Some? ==>
      OwnTitle(book).Some? && SummariseBook(llm, Bindings(None, None), book).value.1.name == OwnTitle(book).value + ".md"
  {
    var lines := SplitLines(book.text);
    if ScanHeader(lines, Bindings(None, None)).Some? {
      HeaderBinds(lines, Bindings(None, None));
    }
  }

  /** The file `a` is named after the title in the header of `book`. */
  predicate NamedOwn(book: Book, a: Artifact) {
    OwnTitle(book).Some? && a.name == OwnTitle(book).value + ".md"
  }

  /** Corrected: every summary file is named after the title in its own export's header. */
  lemma {:induction false} CorrectedOwnTitle(llm: string -> Option<string>, books: seq<Book>)
    requires SummariseFresh(llm, books).Some?
    ensures var out := SummariseFresh(llm, books).value;
      |out| == |books| && forall k :: 0 <= k < |books| ==> NamedOwn(books[k], out[k])
    decreases |books|
  {
    if books != [] {
      var first := SummariseBook(llm, Bindings(None, None), books[0]);
      OwnTitleNames(llm, books[0]);
      assert NamedOwn(books[0], first.value.1);
      var rest := SummariseFresh(llm, books[1..]);
      CorrectedOwnTitle(llm, books[1..]);
      assert SummariseFresh(llm, books).value == [first.value.1] + rest.value;
      ConsNamed(books, first.value.1, rest.value);
    }
  }

  lemma ConsNamed(books: seq<Book>, a: Artifact, rest: seq<Artifact>)
    requires books != [] && |rest| == |books| - 1
    requires NamedOwn(books[0], a) && forall k :: 0 <= k < |rest| ==> NamedOwn(books[1..][k], rest[k])
    ensures forall k :: 0 <= k < |books| ==> NamedOwn(books[k], ([a] + rest)[k])
  {
    forall k | 1 <= k < |books|
      ensures NamedOwn(books[k], ([a] + rest)[k])
    {
      assert books[k] == books[1..][k - 1] && ([a] + rest)[k] == rest[k - 1];
    }
  }
}
