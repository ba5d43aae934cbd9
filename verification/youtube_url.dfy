/**
 * The two YouTube-link grammars of `save_json`, written as scanners over the
 * stripped URL, each with a declarative description of the strings the
 * regular expression accepts and a proof that the two agree.
 *
 * Lenient (summarizer_core.py):
 *   ^(?:https?://)?(?:www\.)?(?:youtube\.com/watch\?v=|youtu\.be/)([\w\-]{11})(?:$|[&#?])
 * Strict (sandbox.py):
 *   ^https://www\.youtube\.com/watch\?v=([0-9A-Za-z_-]+)(?:&[^\s#]*)?$
 */
module YoutubeUrl {

  import opened Wrappers
  import opened PyText

  /** `[0-9A-Za-z_-]`; also the model of `[\w\-]` (ASCII word characters and '-'). */
  predicate IsIdChar(c: char) {
    ('0' <= c <= '9') || ('A' <= c <= 'Z') || ('a' <= c <= 'z') || c == '_' || c == '-'
  }

  predicate AllIdChars(s: string) {
    forall i :: 0 <= i < |s| ==> IsIdChar(s[i])
  }

  datatype Grammar = Lenient | Strict

  // ---------------------------------------------------------------- lenient

  datatype Scheme = NoScheme | Http | Https
  datatype Host = NoHost | Www
  datatype Route = Watch | Short

  function SchemeText(s: Scheme): string {
    match s
    case NoScheme => ""
    case Http => "http://"
    case Https => "https://"
  }

  function HostText(h: Host): string {
    match h
    case NoHost => ""
    case Www => "www."
  }

  function RouteText(r: Route): string {
    match r
    case Watch => "youtube.com/watch?v="
    case Short => "youtu.be/"
  }

  /** `(?:$|[&#?])` on what follows the id of a stripped URL. */
  predicate LenientStop(t: string) {
    t == [] || t[0] == '&' || t[0] == '#' || t[0] == '?'
  }

  /** The regular expression read declaratively: `u` is scheme, host, route, an 11-character id and a permitted tail. */
  predicate LenientShape(u: string, s: Scheme, h: Host, r: Route, id: string) {
    var p := SchemeText(s) + HostText(h) + RouteText(r);
    && |u| >= |p| + 11
    && u[..|p|] == p
    && id == u[|p|..|p| + 11]
    && AllIdChars(id)
    && LenientStop(u[|p| + 11..])
  }

  function DropScheme(u: string): string {
    if "https://" <= u then u[8..] else if "http://" <= u then u[7..] else u
  }

  function DropHost(u: string): string {
    if "www." <= u then u[4..] else u
  }

  function DropRoute(u: string): Option<string> {
    if "youtube.com/watch?v=" <= u then Some(u[20..])
    else if "youtu.be/" <= u then Some(u[9..])
    else None
  }

  /** Group 1 of the lenient expression, or None when it does not match. */
  function LenientId(u: string): Option<string> {
    match DropRoute(DropHost(DropScheme(u)))
    case None => None
    case Some(rest) => IdThenStop(rest)
  }

  /** `([\w\-]{11})(?:$|[&#?])` at the start of `rest`. */
  function IdThenStop(rest: string): Option<string> {
    if |rest| >= 11 && AllIdChars(rest[..11]) && LenientStop(rest[11..]) then Some(rest[..11]) else None
  }

  /** The scanner returns `id` exactly when the declarative reading admits it. */
  lemma LenientIdIffShape(u: string, id: string)
    ensures LenientId(u) == Some(id) <==> exists s, h, r :: LenientShape(u, s, h, r, id)
  {
    if LenientId(u) == Some(id) {
      ScanGivesShape(u, id);
    }
    if exists s, h, r :: LenientShape(u, s, h, r, id) {
      var s, h, r :| LenientShape(u, s, h, r, id);
      ShapeGivesScan(u, s, h, r, id);
    }
  }

  lemma ScanGivesShape(u: string, id: string)
    requires LenientId(u) == Some(id)
    ensures exists s, h, r :: LenientShape(u, s, h, r, id)
  {
    var s := SchemeOf(u);
    var a := DropScheme(u);
    SchemeSplit(u);
    var h := HostOf(a);
    var b := DropHost(a);
    HostSplit(a);
    var r := RouteOf(b);
    var c := DropRoute(b).value;
    RouteSplit(b);
    var p := SchemeText(s) + HostText(h) + RouteText(r);
    Regroup(u, SchemeText(s), HostText(h), RouteText(r), a, b, c);
    ShapeOfConcat(u, p, c, s, h, r, id);
  }

  lemma Regroup(u: string, x: string, y: string, z: string, a: string, b: string, c: string)
    requires u == x + a && a == y + b && b == z + c
    ensures u == (x + y + z) + c
  {
  }

  lemma IdThenStopWhole(id: string)
    requires |id| == 11 && AllIdChars(id)
    ensures IdThenStop(id) == Some(id)
  {
    assert id[..11] == id;
  }

  lemma WatchUrlPrefix()
    ensures SchemeText(Https) + HostText(Www) + RouteText(Watch) == StrictPrefix
  {
  }

  lemma ShapeOfConcat(u: string, p: string, c: string, s: Scheme, h: Host, r: Route, id: string)
    requires p == SchemeText(s) + HostText(h) + RouteText(r)
    requires u == p + c
    requires IdThenStop(c) == Some(id)
    ensures LenientShape(u, s, h, r, id)
  {
    assert u[..|p|] == p;
    assert u[|p|..|p| + 11] == c[..11];
    assert u[|p| + 11..] == c[11..];
  }

  function SchemeOf(u: string): Scheme {
    if "https://" <= u then Https else if "http://" <= u then Http else NoScheme
  }

  function HostOf(a: string): Host {
    if "www." <= a then Www else NoHost
  }

  function RouteOf(b: string): Route {
    if "youtube.com/watch?v=" <= b then Watch else Short
  }

  lemma SchemeSplit(u: string)
    ensures u == SchemeText(SchemeOf(u)) + DropScheme(u)
  {
  }

  lemma HostSplit(a: string)
    ensures a == HostText(HostOf(a)) + DropHost(a)
  {
  }

  lemma RouteSplit(b: string)
    requires DropRoute(b).Some?
    ensures b == RouteText(RouteOf(b)) + DropRoute(b).value
  {
  }

  lemma DropSchemeOf(s: Scheme, rest: string)
    requires rest != [] && (rest[0] == 'w' || rest[0] == 'y')
    ensures DropScheme(SchemeText(s) + rest) == rest
  {
    var u := SchemeText(s) + rest;
    match s
    case NoScheme =>
      assert u[0] == rest[0];
    case Http =>
      assert u[4] == ':';
      assert u[7..] == rest;
    case Https =>
      assert u[8..] == rest;
  }

  lemma DropHostOf(h: Host, rest: string)
    requires rest != [] && rest[0] == 'y'
    ensures DropHost(HostText(h) + rest) == rest
  {
    var u := HostText(h) + rest;
    match h
    case NoHost =>
      assert u[0] == rest[0];
    case Www =>
      assert u[4..] == rest;
  }

  lemma DropRouteOf(r: Route, rest: string)
    ensures DropRoute(RouteText(r) + rest) == Some(rest)
  {
    var u := RouteText(r) + rest;
    match r
    case Watch =>
      assert u[20..] == rest;
    case Short =>
      assert u[5] == '.';
      assert u[9..] == rest;
  }

  lemma ShapeGivesScan(u: string, s: Scheme, h: Host, r: Route, id: string)
    requires LenientShape(u, s, h, r, id)
    ensures LenientId(u) == Some(id)
  {
    var p := SchemeText(s) + HostText(h) + RouteText(r);
    var c := u[|p|..];
    ShapeSplit(u, s, h, r, id);
    var b := RouteText(r) + c;
    var a := HostText(h) + b;
    DropRouteOf(r, c);
    RouteInitial(r, c);
    DropHostOf(h, b);
    HostInitial(h, b);
    DropSchemeOf(s, a);
    ScanSteps(u, a, b, c, id);
  }

  lemma ShapeSplit(u: string, s: Scheme, h: Host, r: Route, id: string)
    requires LenientShape(u, s, h, r, id)
    ensures u == SchemeText(s) + (HostText(h) + (RouteText(r) + u[|SchemeText(s) + HostText(h) + RouteText(r)|..]))
    ensures IdThenStop(u[|SchemeText(s) + HostText(h) + RouteText(r)|..]) == Some(id)
  {
    var x, y, z := SchemeText(s), HostText(h), RouteText(r);
    SplitAfterPrefix(u, x + y + z, id);
    Reassociate(x, y, z, u[|x + y + z|..]);
  }

  lemma Reassociate(x: string, y: string, z: string, c: string)
    ensures (x + y + z) + c == x + (y + (z + c))
  {
  }

  lemma SplitAfterPrefix(u: string, p: string, id: string)
    requires |u| >= |p| + 11 && u[..|p|] == p
    requires id == u[|p|..|p| + 11] && AllIdChars(id) && LenientStop(u[|p| + 11..])
    ensures u == p + u[|p|..]
    ensures IdThenStop(u[|p|..]) == Some(id)
  {
    var c := u[|p|..];
    assert c[..11] == id;
    assert c[11..] == u[|p| + 11..];
  }

  lemma RouteInitial(r: Route, c: string)
    ensures (RouteText(r) + c)[0] == 'y'
  {
  }

  lemma HostInitial(h: Host, b: string)
    requires b != [] && b[0] == 'y'
    ensures (HostText(h) + b)[0] == 'w' || (HostText(h) + b)[0] == 'y'
  {
  }

  lemma ScanSteps(u: string, a: string, b: string, c: string, id: string)
    requires DropScheme(u) == a && DropHost(a) == b && DropRoute(b) == Some(c)
    requires IdThenStop(c) == Some(id)
    ensures LenientId(u) == Some(id)
  {
  }

  // ---------------------------------------------------------------- strict

  const StrictPrefix: string := "https://" + "www." + "youtube.com/watch?v="

  /** Length of the longest run of id characters at the start of `s` (the greedy `+`). */
  function IdRun(s: string): (k: nat)
    ensures k <= |s| && forall i :: 0 <= i < k ==> IsIdChar(s[i])
    ensures k == |s| || !IsIdChar(s[k])
    decreases |s|
  {
    if s != [] && IsIdChar(s[0]) then 1 + IdRun(s[1..]) else 0
  }

  /** `(?:&[^\s#]*)?$` on what follows the id of a stripped URL. */
  predicate StrictTail(t: string) {
    t == [] || (t[0] == '&' && forall i :: 1 <= i < |t| ==> !IsSpace(t[i]) && t[i] != '#')
  }

  /** The strict expression read declaratively: the fixed prefix, a non-empty id and a permitted tail. */
  predicate StrictShape(u: string, id: string) {
    var n := |StrictPrefix|;
    && |u| >= n + |id|
    && u[..n] == StrictPrefix
    && u[n..n + |id|] == id
    && |id| >= 1
    && AllIdChars(id)
    && StrictTail(u[n + |id|..])
  }

  /** Group 1 of the strict expression, or None when it does not match. */
  function StrictId(u: string): Option<string> {
    if !(StrictPrefix <= u) then None
    else
      var rest := u[|StrictPrefix|..];
      var k := IdRun(rest);
      if k >= 1 && StrictTail(rest[k..]) then Some(rest[..k]) else None
  }

  /** Any maximal run of id characters is the one `IdRun` finds. */
  lemma IdRunUnique(s: string, k: nat)
    requires k <= |s| && forall i :: 0 <= i < k ==> IsIdChar(s[i])
    requires k == |s| || !IsIdChar(s[k])
    ensures IdRun(s) == k
  {
  }

  lemma StrictIdIffShape(u: string, id: string)
    ensures StrictId(u) == Some(id) <==> StrictShape(u, id)
  {
    var n := |StrictPrefix|;
    if StrictShape(u, id) {
      var rest := u[n..];
      assert rest[..|id|] == id;
      IdRunUnique(rest, |id|);
    }
  }

  // ---------------------------------------------------------------- both

  /** `_YT_REGEX.search(url.strip()).group(1)`, or None where `search` returns None. */
  function VideoId(g: Grammar, url: string): Option<string> {
    match g
    case Lenient => LenientId(Strip(url))
    case Strict => StrictId(Strip(url))
  }

  lemma VideoIdOfTrimmed(g: Grammar, u: string)
    requires Strip(u) == u
    ensures VideoId(g, u) == (if g == Lenient then LenientId(u) else StrictId(u))
  {
  }

  /** `make_youtube_url(videoId)` */
  function MakeYoutubeUrl(videoId: string): string {
    StrictPrefix + videoId
  }

  /** A playlist id turned into a URL is accepted by the strict grammar, which gives the id back. */
  lemma StrictRoundTrip(videoId: string)
    requires |videoId| >= 1 && AllIdChars(videoId)
    ensures VideoId(Strict, MakeYoutubeUrl(videoId)) == Some(videoId)
  {
    UrlIsTrimmed(videoId);
    VideoIdOfTrimmed(Strict, MakeYoutubeUrl(videoId));
    StrictOfWatchUrl(videoId);
  }

  lemma StrictOfWatchUrl(videoId: string)
    requires |videoId| >= 1 && AllIdChars(videoId)
    ensures StrictId(MakeYoutubeUrl(videoId)) == Some(videoId)
  {
    var u := MakeYoutubeUrl(videoId);
    assert u[..|StrictPrefix|] == StrictPrefix;
    assert u[|StrictPrefix|..] == videoId;
    StrictIdIffShape(u, videoId);
  }

  /** The lenient grammar reads a `make_youtube_url` link as its id followed by the end of the string. */
  lemma LenientOfWatchUrl(videoId: string)
    requires |videoId| >= 1 && AllIdChars(videoId)
    ensures VideoId(Lenient, MakeYoutubeUrl(videoId)) == IdThenStop(videoId)
  {
    UrlIsTrimmed(videoId);
    VideoIdOfTrimmed(Lenient, MakeYoutubeUrl(videoId));
    WatchUrlScan(videoId);
  }

  /** So the lenient grammar accepts such a link exactly when the id has eleven characters, and gives it back. */
  lemma IdThenStopLength(videoId: string)
    requires AllIdChars(videoId)
    ensures IdThenStop(videoId).Some? <==> |videoId| == 11
    ensures IdThenStop(videoId).Some? ==> IdThenStop(videoId).value == videoId
  {
    if |videoId| > 11 {
      assert videoId[11..][0] == videoId[11];
    } else if |videoId| == 11 {
      IdThenStopWhole(videoId);
    }
  }

  /** A short link `youtu.be/<id>` is read by the lenient grammar exactly as a watch link is. */
  lemma LenientOfShortUrl(videoId: string)
    requires |videoId| >= 1 && AllIdChars(videoId)
    ensures VideoId(Lenient, "youtu.be/" + videoId) == IdThenStop(videoId)
  {
    ShortUrlIsTrimmed(videoId);
    VideoIdOfTrimmed(Lenient, "youtu.be/" + videoId);
    ShortUrlScan(videoId);
  }

  /** The strict grammar refuses every short link. */
  lemma StrictRefusesShortUrl(videoId: string)
    requires |videoId| >= 1 && AllIdChars(videoId)
    ensures VideoId(Strict, "youtu.be/" + videoId) == None
  {
    ShortUrlIsTrimmed(videoId);
    VideoIdOfTrimmed(Strict, "youtu.be/" + videoId);
    ShortUrlHead(videoId);
    StrictNeedsPrefix("youtu.be/" + videoId);
  }

  lemma ShortUrlHead(videoId: string)
    ensures ("youtu.be/" + videoId)[0] == 'y'
  {
  }

  lemma StrictNeedsPrefix(u: string)
    requires |u| >= 1 && u[0] == 'y'
    ensures StrictId(u) == None
  {
    assert StrictPrefix[0] == 'h';
  }

  lemma ShortUrlIsTrimmed(videoId: string)
    requires |videoId| >= 1 && AllIdChars(videoId)
    ensures Strip("youtu.be/" + videoId) == "youtu.be/" + videoId
  {
    var u := "youtu.be/" + videoId;
    assert u[|u| - 1] == videoId[|videoId| - 1];
    assert u[0] == 'y';
    StripKeepsTrimmed(u);
  }

  lemma ShortUrlScan(videoId: string)
    ensures LenientId("youtu.be/" + videoId) == IdThenStop(videoId)
  {
    var u := "youtu.be/" + videoId;
    assert u == SchemeText(NoScheme) + (HostText(NoHost) + (RouteText(Short) + videoId));
    DropRouteOf(Short, videoId);
    DropHostOf(NoHost, u);
    DropSchemeOf(NoScheme, u);
  }

  lemma UrlIsTrimmed(videoId: string)
    requires |videoId| >= 1 && AllIdChars(videoId)
    ensures Strip(MakeYoutubeUrl(videoId)) == MakeYoutubeUrl(videoId)
  {
    var u := MakeYoutubeUrl(videoId);
    assert u[|u| - 1] == videoId[|videoId| - 1];
    assert u[0] == 'h';
    StripKeepsTrimmed(u);
  }

  lemma WatchUrlScan(videoId: string)
    ensures LenientId(MakeYoutubeUrl(videoId)) == IdThenStop(videoId)
  {
    var u := MakeYoutubeUrl(videoId);
    WatchUrlPrefix();
    var b := RouteText(Watch) + videoId;
    var a := HostText(Www) + b;
    assert u == SchemeText(Https) + a;
    DropRouteOf(Watch, videoId);
    RouteInitial(Watch, videoId);
    DropHostOf(Www, b);
    HostInitial(Www, b);
    DropSchemeOf(Https, a);
  }
}
