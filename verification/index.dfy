/** From one `deb` line to the raw package stanzas of its indexes: the index
    URL of each component, the file APT caches it under, the fetch (cache
    first, then the network, both given as an environment), and the split of
    an index into stanzas that each carry the source URL. */
module Index {
  import opened Outcome
  import opened PyStr
  import opened Control
  import opened Sources

  // ---------------------------------------------------------------- index URL

  const IndexName := "binary-amd64/Packages.gz"
  const ListsDir := "/var/lib/apt/lists"

  /** `os.path.join(url, "dists", release, component, "binary-amd64/Packages.gz")`. */
  function IndexUrl(url: string, release: string, component: string): string {
    JoinPath(JoinPath(JoinPath(JoinPath(url, "dists"), release), component), IndexName)
  }

  /** A path component that `JoinPath` neither restarts at nor needs no
      separator after. */
  predicate IsPlainSegment(t: string) {
    t != [] && !StartsWith(t, "/") && !EndsWith(t, "/")
  }

  /** With plain release and component names the index URL is the source
      URL, one `/` (none if it already ends in one), and the path below it. */
  lemma IndexUrlShape(url: string, release: string, component: string)
    requires IsPlainSegment(release) && IsPlainSegment(component)
    ensures IndexUrl(url, release, component)
            == WithSlash(url) + "dists/" + release + "/" + component + "/" + IndexName
  {
    var d := JoinPath(url, "dists");
    DistsStep(url);
    var r := JoinPath(d, release);
    PlainStep(d, release);
    var c := JoinPath(r, component);
    PlainStep(r, component);
    IndexNameStep(c);
  }

  lemma DistsStep(url: string)
    ensures WithSlash(JoinPath(url, "dists")) == WithSlash(url) + "dists/"
  {
    JoinPathParts(url, "dists");
    var d := WithSlash(url) + "dists";
    assert d[|d| - 1..] == "s";
  }

  /** After a plain segment `JoinPath` puts exactly one `/`. */
  lemma PlainStep(p: string, seg: string)
    requires IsPlainSegment(seg)
    ensures JoinPath(p, seg) == WithSlash(p) + seg
    ensures WithSlash(JoinPath(p, seg)) == WithSlash(p) + seg + "/"
  {
    JoinPathParts(p, seg);
    var r := WithSlash(p) + seg;
    assert r[|r| - 1..] == seg[|seg| - 1..];
  }

  lemma IndexNameStep(c: string)
    ensures JoinPath(c, IndexName) == WithSlash(c) + IndexName
  {
    assert IndexName[..1] == "b";
    JoinPathParts(c, IndexName);
  }

  /** `JoinPath` adds no characters but `/`. */
  lemma JoinPathChars(a: string, b: string, x: char)
    requires x != '/' && x !in a && x !in b
    ensures x !in JoinPath(a, b)
  {
    JoinPathParts(a, b);
    if !StartsWith(b, "/") {
      var w := WithSlash(a);
      assert w == a || w == a + "/";
      assert x !in w;
      assert forall c :: c in w + b ==> c in w || c in b;
    }
  }

  /** The fixed parts of an index URL are on one line. */
  lemma NamesOneLine()
    ensures '\n' !in "dists" && '\n' !in IndexName
  {
  }

  /** An index URL over parts without a line break has none either. */
  lemma IndexUrlNoNewline(url: string, release: string, component: string)
    requires '\n' !in url && '\n' !in release && '\n' !in component
    ensures '\n' !in IndexUrl(url, release, component)
  {
    NamesOneLine();
    var d := JoinPath(url, "dists");
    JoinPathChars(url, "dists", '\n');
    var r := JoinPath(d, release);
    JoinPathChars(d, release, '\n');
    var c := JoinPath(r, component);
    JoinPathChars(r, component, '\n');
    JoinPathChars(c, IndexName, '\n');
  }

  /** The source URL is kept at the front of the index URL while no part
      restarts the path. */
  lemma IndexUrlPrefix(url: string, release: string, component: string)
    requires !StartsWith(release, "/") && !StartsWith(component, "/")
    ensures StartsWith(IndexUrl(url, release, component), url)
  {
    var d := JoinPath(url, "dists");
    var r := JoinPath(d, release);
    var c := JoinPath(r, component);
    JoinRelativePrefix(url, "dists");
    JoinRelativePrefix(d, release);
    PrefixTrans(url, d, r);
    JoinRelativePrefix(r, component);
    PrefixTrans(url, r, c);
    JoinRelativePrefix(c, IndexName);
    PrefixTrans(url, c, JoinPath(c, IndexName));
  }

  /** Joining a relative part keeps the path in front. */
  lemma JoinRelativePrefix(a: string, b: string)
    requires !StartsWith(b, "/")
    ensures StartsWith(JoinPath(a, b), a)
  {
    JoinPathParts(a, b);
    var w := WithSlash(a);
    assert (w + b)[..|a|] == w[..|a|];
  }

  lemma PrefixTrans(a: string, b: string, c: string)
    requires StartsWith(b, a) && StartsWith(c, b)
    ensures StartsWith(c, a)
  {
    assert c[..|a|] == c[..|b|][..|a|];
  }

  // ---------------------------------------------------------------- URL_MATCHER

  /** Length of the `https?://` prefix; the optional `s` is tried first. */
  function SchemeLen(u: string): (k: Option<nat>)
    ensures k.Some? ==> k.value <= |u| && (k.value == 7 || k.value == 8)
    ensures k == Some(8) <==> StartsWith(u, "https://")
    ensures k == Some(7) <==> StartsWith(u, "http://") && !StartsWith(u, "https://")
  {
    if |u| >= 8 && u[..8] == "https://" then Some(8)
    else if |u| >= 7 && u[..7] == "http://" then Some(7)
    else None
  }

  /** `\.(gz|xz|lzma|bz2)` at position `p` of `s`. */
  predicate ExtAt(s: string, p: nat) {
    && p < |s| && s[p] == '.'
    && (|| (p + 2 < |s| && s[p + 1] == 'g' && s[p + 2] == 'z')
        || (p + 2 < |s| && s[p + 1] == 'x' && s[p + 2] == 'z')
        || (p + 4 < |s| && s[p + 1] == 'l' && s[p + 2] == 'z' && s[p + 3] == 'm' && s[p + 4] == 'a')
        || (p + 3 < |s| && s[p + 1] == 'b' && s[p + 2] == 'z' && s[p + 3] == '2'))
  }

  /** The last position before `hi` where the extension matches. */
  function LastExt(s: string, hi: nat): (r: Option<nat>)
    requires hi <= |s|
    ensures r.Some? ==> r.value < hi && ExtAt(s, r.value)
    ensures r.Some? ==> forall q :: r.value < q < hi ==> !ExtAt(s, q)
    ensures r.None? ==> forall q :: 0 <= q < hi ==> !ExtAt(s, q)
    decreases hi
  {
    if hi == 0 then None
    else if ExtAt(s, hi - 1) then Some(hi - 1)
    else LastExt(s, hi - 1)
  }

  /** `URL_MATCHER.match(u).group(1)`: after the scheme, the greedy `.*`
      stops at the first newline and backs off to the last `.` that an
      extension follows. */
  function MatchIndexUrl(u: string): (g: Option<string>)
    ensures g.Some? ==> SchemeLen(u).Some?
    ensures g.Some? ==> var k := SchemeLen(u).value;
      && StartsWith(u[k..], g.value) && '\n' !in g.value && ExtAt(u[k..], |g.value|)
    ensures SchemeLen(u).None? ==> g.None?
    ensures SchemeLen(u).Some? ==> var rest := u[SchemeLen(u).value..]; var n := LineRest(rest);
      && (g.Some? <==> exists p :: 0 <= p < n && ExtAt(rest, p))
      && (g.Some? ==> |g.value| < n && forall q :: |g.value| < q < n ==> !ExtAt(rest, q))
  {
    match SchemeLen(u)
    case None => None
    case Some(k) =>
      var rest := u[k..];
      var n := LineRest(rest);
      match LastExt(rest, n)
      case None => None
      case Some(p) =>
        assert rest[..p] == rest[..n][..p];
        Some(rest[..p])
  }

  /** On a one-line `http(s)` URL ending in `.gz` the group is everything
      between the scheme and that final `.gz`. */
  lemma MatchGz(u: string, k: nat)
    requires SchemeLen(u) == Some(k)
    requires '\n' !in u && EndsWith(u, ".gz") && k + 3 <= |u|
    ensures MatchIndexUrl(u) == Some(u[k..|u| - 3])
  {
    var rest := u[k..];
    TailKeeps(u, k, ".gz");
    GzIsLast(rest);
    TailFront(u, k, |u| - 3);
  }

  /** The front of a tail is a slice of the whole. */
  lemma TailFront<T>(u: seq<T>, k: int, j: int)
    requires 0 <= k <= j <= |u|
    ensures u[k..][..j - k] == u[k..j]
  {
  }

  /** A tail of `u` has no newline when `u` has none, and keeps a suffix
      that fits in it. */
  lemma TailKeeps(u: string, k: nat, suffix: string)
    requires '\n' !in u && EndsWith(u, suffix) && k + |suffix| <= |u|
    ensures '\n' !in u[k..] && EndsWith(u[k..], suffix)
  {
    assert forall c :: c in u[k..] ==> c in u;
    assert u[k..][|u[k..]| - |suffix|..] == u[|u| - |suffix|..];
  }

  /** In a text ending in `.gz` the last extension starts three from the end. */
  lemma GzIsLast(s: string)
    requires EndsWith(s, ".gz")
    ensures LastExt(s, |s|) == Some(|s| - 3)
  {
    var m := |s|;
    assert s[m - 3] == '.' && s[m - 2] == 'g' && s[m - 1] == 'z' by {
      assert s[m - 3..] == ".gz";
    }
    assert !ExtAt(s, m - 1) && !ExtAt(s, m - 2) && ExtAt(s, m - 3);
  }

  /** `local_file_path`: APT's list file for an index, or the
      `AttributeError` of a URL the matcher rejects. */
  function CachePath(u: string): (r: Result<string>)
    ensures r.Err? <==> MatchIndexUrl(u).None?
    ensures r.Err? ==> r.error == UrlMismatch(u)
    ensures r.Ok? ==> StartsWith(r.value, ListsDir + "/") && '/' !in r.value[|ListsDir| + 1..]
  {
    match MatchIndexUrl(u)
    case None => Err(UrlMismatch(u))
    case Some(g) =>
      var name := ReplaceChar(g, '/', '_');
      CacheJoin(name);
      Ok(JoinPath(ListsDir, name))
  }

  lemma CacheJoin(name: string)
    requires '/' !in name
    ensures JoinPath(ListsDir, name) == ListsDir + "/" + name
    ensures (ListsDir + "/" + name)[|ListsDir| + 1..] == name
  {
    if name != [] {
      assert name[0] in name;
    }
    assert ListsDir[|ListsDir| - 1..] == "s";
    JoinPathParts(ListsDir, name);
  }

  /** For every `http(s)` source URL and plain release and component words
      the matcher succeeds, and the list file is the URL without scheme and
      `.gz`, every `/` turned into `_`. */
  lemma IndexCachePath(url: string, release: string, component: string)
    requires IsHttpUrl(url) && '\n' !in url
    requires !StartsWith(release, "/") && '\n' !in release
    requires !StartsWith(component, "/") && '\n' !in component
    ensures var u := IndexUrl(url, release, component);
      && SchemeLen(u) == SchemeLen(url) && SchemeLen(u).Some?
      && CachePath(u) == Ok(ListsDir + "/" + ReplaceChar(u[SchemeLen(u).value..|u| - 3], '/', '_'))
  {
    var u := IndexUrl(url, release, component);
    IndexUrlPrefix(url, release, component);
    IndexUrlNoNewline(url, release, component);
    SchemeOfPrefix(u, url);
    IndexUrlGz(url, release, component);
    CachePathGz(u, SchemeLen(u).value);
  }

  /** Every index URL ends with `.gz` after at least the index name. */
  lemma IndexUrlGz(url: string, release: string, component: string)
    ensures var u := IndexUrl(url, release, component);
            |u| >= |IndexName| && EndsWith(u, ".gz")
  {
    var c := JoinPath(JoinPath(JoinPath(url, "dists"), release), component);
    var u := JoinPath(c, IndexName);
    JoinPathParts(c, IndexName);
    assert u[|u| - 3..] == IndexName[|IndexName| - 3..];
  }

  /** The list file of a one-line `http(s)` URL ending in `.gz`. */
  lemma CachePathGz(u: string, k: nat)
    requires SchemeLen(u) == Some(k)
    requires '\n' !in u && EndsWith(u, ".gz") && k + 3 <= |u|
    ensures CachePath(u) == Ok(ListsDir + "/" + ReplaceChar(u[k..|u| - 3], '/', '_'))
  {
    MatchGz(u, k);
    CacheJoin(ReplaceChar(u[k..|u| - 3], '/', '_'));
  }

  /** A URL keeps the scheme of the `http(s)` URL it starts with. */
  lemma SchemeOfPrefix(u: string, url: string)
    requires IsHttpUrl(url) && StartsWith(u, url)
    ensures SchemeLen(u) == SchemeLen(url) && SchemeLen(u).Some?
  {
    assert u[..|url|] == url;
    if StartsWith(url, "https://") {
      assert u[..8] == url[..8];
    } else {
      assert url[..7] == "http://";
      assert u[..7] == url[..7];
      assert u[4] == url[4];
    }
  }

  /** A component that starts with `/` restarts the joined path, which then
      has no scheme, so the matcher fails. */
  lemma AbsoluteComponentFails(url: string, release: string, component: string)
    requires StartsWith(component, "/")
    ensures CachePath(IndexUrl(url, release, component)).Err?
  {
    var r := JoinPath(JoinPath(url, "dists"), release);
    JoinPathParts(r, component);
    var c := JoinPath(r, component);
    assert IndexName[..1] == "b";
    JoinRelativePrefix(c, IndexName);
    RootedFails(JoinPath(c, IndexName), component);
  }

  /** A release that starts with `/` restarts the joined path as well,
      whatever the component, so the matcher fails. */
  lemma AbsoluteReleaseFails(url: string, release: string, component: string)
    requires StartsWith(release, "/")
    ensures CachePath(IndexUrl(url, release, component)).Err?
  {
    if StartsWith(component, "/") {
      AbsoluteComponentFails(url, release, component);
    } else {
      JoinPathParts(JoinPath(url, "dists"), release);
      var c := JoinPath(release, component);
      JoinRelativePrefix(release, component);
      assert IndexName[..1] == "b";
      JoinRelativePrefix(c, IndexName);
      PrefixTrans(release, c, JoinPath(c, IndexName));
      RootedFails(JoinPath(c, IndexName), release);
    }
  }

  /** A path that starts with `/` has no scheme for the matcher. */
  lemma RootedFails(u: string, p: string)
    requires StartsWith(p, "/") && StartsWith(u, p)
    ensures CachePath(u).Err?
  {
    assert u[0] == u[..|p|][0] == p[0] == '/';
    assert SchemeLen(u).None?;
  }

  // ---------------------------------------------------------------- fetching

  /** What a GET of an index URL answers: the status and, for 200, the
      decompressed text. */
  datatype Response = Response(status: int, body: string)

  /** The outside world as the index reader sees it: the list files already
      on disk, by path, and the answers the network gives, by URL. A URL
      without an answer stands for a request that raises. */
  datatype Env = Env(cache: map<string, string>, remote: map<string, Response>)

  /** The index text: the cached list file when there is one, else a fetch
      that must answer 200. */
  function FetchIndex(env: Env, url: string, path: string): (r: Result<string>)
    ensures path in env.cache ==> r == Ok(env.cache[path])
    ensures path !in env.cache && url !in env.remote ==> r == Err(Unreachable(url))
    ensures path !in env.cache && url in env.remote ==>
              (r.Ok? <==> env.remote[url].status == 200)
    ensures r.Err? && path !in env.cache && url in env.remote ==>
              r.error == FetchStatus(url, env.remote[url].status)
    ensures r.Ok? && path !in env.cache ==> r.value == env.remote[url].body
  {
    if path in env.cache then Ok(env.cache[path])
    else if url !in env.remote then Err(Unreachable(url))
    else if env.remote[url].status == 200 then Ok(env.remote[url].body)
    else Err(FetchStatus(url, env.remote[url].status))
  }

  // ---------------------------------------------------------------- stanzas

  /** The blank-line separated chunks of an index, outer newlines stripped. */
  function Chunks(data: string): seq<string> {
    Split(StripNewlines(data), "\n\n")
  }

  /** One emitted stanza: the chunk without outer newlines and a `uri` line. */
  function Stanza(chunk: string, url: string): string {
    StripNewlines(chunk) + "\n" + UriLine(url)
  }

  /** The line naming the source URL that closes every stanza. */
  function UriLine(url: string): string {
    "uri: " + url
  }

  /** The non-empty chunks, in order. */
  function NonEmpty(cs: seq<string>): (r: seq<string>)
    ensures |r| <= |cs|
    ensures forall i :: 0 <= i < |r| ==> r[i] != []
    decreases |cs|
  {
    if cs == [] then []
    else if cs[0] == [] then NonEmpty(cs[1..])
    else [cs[0]] + NonEmpty(cs[1..])
  }

  /** Dropping the empty chunks loses exactly the empty chunks. */
  lemma {:induction false} NonEmptyMembers(cs: seq<string>)
    ensures forall c :: c in NonEmpty(cs) <==> c in cs && c != []
    decreases |cs|
  {
    if cs != [] {
      NonEmptyMembers(cs[1..]);
      assert cs == [cs[0]] + cs[1..];
    }
  }

  /** `g` of every non-empty chunk, chunk by chunk. */
  function MapNonEmpty(g: string -> string, cs: seq<string>): (r: seq<string>)
    ensures |r| <= |cs|
    decreases |cs|
  {
    if cs == [] then []
    else if cs[0] == [] then MapNonEmpty(g, cs[1..])
    else [g(cs[0])] + MapNonEmpty(g, cs[1..])
  }

  /** One result per non-empty chunk, in the chunks' order. */
  lemma {:induction false} MapNonEmptyIndex(g: string -> string, cs: seq<string>)
    ensures |MapNonEmpty(g, cs)| == |NonEmpty(cs)|
    ensures forall i :: 0 <= i < |NonEmpty(cs)| ==> MapNonEmpty(g, cs)[i] == g(NonEmpty(cs)[i])
    decreases |cs|
  {
    if cs != [] {
      MapNonEmptyIndex(g, cs[1..]);
    }
  }

  /** `component_data`. */
  function SplitStanzas(data: string, url: string): seq<string> {
    MapNonEmpty(c => Stanza(c, url), Chunks(data))
  }

  /** `component_data` holds one stanza per non-empty blank-line separated
      chunk of the index, in order, each the stripped chunk and a `uri` line. */
  lemma SplitStanzasSpec(data: string, url: string)
    ensures |SplitStanzas(data, url)| == |NonEmpty(Chunks(data))|
    ensures forall i :: 0 <= i < |SplitStanzas(data, url)| ==>
              SplitStanzas(data, url)[i] == StripNewlines(NonEmpty(Chunks(data))[i]) + "\n" + UriLine(url)
  {
    MapNonEmptyIndex(c => Stanza(c, url), Chunks(data));
  }

  /** The appended `uri` line reads back as the source URL. */
  lemma UriHeader(url: string)
    ensures ParseField(UriLine(url), []) == Ok(("uri", Text(url)))
  {
    FreeWithoutHead("uri", ": ");
    ParseTextField(UriLine(url), "uri", url, []);
    assert Lower("uri") == "uri";
    JoinSingle([url] + FoldAll([]), "\n");
  }

  /** A newline-free `uri` line ends a stanza text whose chunk part is
      already stripped and non-empty. */
  lemma StanzaStripped(c: string, h: string)
    requires c != [] && !IsNewline(c[0]) && !IsNewline(c[|c| - 1])
    requires h != [] && '\n' !in h
    ensures StripNewlines(c + "\n" + h) == c + "\n" + h
  {
    var s := c + "\n" + h;
    assert s[|s| - 1] == h[|h| - 1];
    assert h[|h| - 1] in h;
    assert s[0] == c[0];
    StripKeeps(s, IsNewline);
  }

  /** The lines the chunk itself contributes to its stanza: none when it is
      nothing but newlines. */
  function BodyLines(chunk: string): seq<string> {
    if StripNewlines(chunk) == [] then [] else StanzaLines(chunk)
  }

  /** The text of a stanza splits into the chunk's lines and the `uri` line. */
  lemma StanzaLinesOf(chunk: string, url: string)
    requires '\n' !in url
    ensures StanzaLines(Stanza(chunk, url)) == BodyLines(chunk) + [UriLine(url)]
  {
    var c := StripNewlines(chunk);
    if c == [] {
      EmptyChunkLines(chunk, url);
    } else {
      ChunkLines(chunk, url);
    }
  }

  lemma EmptyChunkLines(chunk: string, url: string)
    requires '\n' !in url && StripNewlines(chunk) == []
    ensures StanzaLines(Stanza(chunk, url)) == [UriLine(url)]
  {
    var h := UriLine(url);
    assert Stanza(chunk, url) == "\n" + h + [];
    assert '\n' !in h;
    assert h[0] == 'u';
    assert h[|h| - 1] in h;
    StripPadded("\n", h, [], IsNewline);
    SplitWithoutChar(h, '\n');
  }

  lemma ChunkLines(chunk: string, url: string)
    requires '\n' !in url && StripNewlines(chunk) != []
    ensures StanzaLines(Stanza(chunk, url)) == StanzaLines(chunk) + [UriLine(url)]
  {
    var c := StripNewlines(chunk);
    var h := UriLine(url);
    assert Stanza(chunk, url) == c + "\n" + h;
    UriLineShape(url);
    StanzaTextLines(c, h);
  }

  /** The `uri` line is a non-empty single line. */
  lemma UriLineShape(url: string)
    requires '\n' !in url
    ensures UriLine(url) != [] && '\n' !in UriLine(url)
  {
    assert UriLine(url)[0] == 'u';
  }

  /** A stripped text, a newline and one more line split into the text's
      lines and that line. */
  lemma StanzaTextLines(c: string, h: string)
    requires c != [] && !IsNewline(c[0]) && !IsNewline(c[|c| - 1])
    requires h != [] && '\n' !in h
    ensures StanzaLines(c + "\n" + h) == Split(c, "\n") + [h]
  {
    StanzaStripped(c, h);
    SplitAroundChar(c, h, '\n');
    SplitWithoutChar(h, '\n');
  }

  /** Parsing a stanza parses the chunk's lines, then the `uri` line. */
  lemma StanzaParse(chunk: string, url: string)
    requires '\n' !in url
    ensures ParseStanza(Stanza(chunk, url)) == ParseLines(BodyLines(chunk) + [UriLine(url)], map[])
  {
    StanzaLinesOf(chunk, url);
  }

  /** Whatever `uri` field the index itself carried, a parsed stanza says
      it came from the source URL: the appended line is parsed last. */
  lemma StanzaUri(chunk: string, url: string)
    requires '\n' !in url
    requires ParseStanza(Stanza(chunk, url)).Ok?
    ensures "uri" in ParseStanza(Stanza(chunk, url)).value
    ensures ParseStanza(Stanza(chunk, url)).value["uri"] == Text(url)
  {
    StanzaParse(chunk, url);
    UriLast(BodyLines(chunk), url);
  }

  /** A `uri` line parsed last sets the `uri` field. */
  lemma UriLast(lines: seq<string>, url: string)
    requires ParseLines(lines + [UriLine(url)], map[]).Ok?
    ensures "uri" in ParseLines(lines + [UriLine(url)], map[]).value
    ensures ParseLines(lines + [UriLine(url)], map[]).value["uri"] == Text(url)
  {
    var h := UriLine(url);
    UriHeader(url);
    assert h[..1] == "u";
    LastHeaderWins(lines, h, map[]);
  }

  // ---------------------------------------------------------------- one deb line

  /** The stanzas of one component's index. */
  function ComponentStanzas(env: Env, url: string, release: string, component: string): (r: Result<seq<string>>)
    ensures r.Err? ==> !r.error.LineUnparseable? && r.error != DebSrcNotImplemented
  {
    var index := IndexUrl(url, release, component);
    var path :- CachePath(index);
    var data :- FetchIndex(env, index, path);
    Ok(SplitStanzas(data, url))
  }

  /** The per-component reader of one source. */
  function ComponentReader(env: Env, url: string, release: string): string -> Result<seq<string>> {
    component => ComponentStanzas(env, url, release, component)
  }

  /** All components in order, stanzas concatenated; the first failing
      component ends the loop. */
  function FetchComponents(env: Env, url: string, release: string, components: seq<string>): Result<seq<string>> {
    FlatMap(ComponentReader(env, url, release), components)
  }

  /** The loop succeeds exactly when every component's index can be read,
      and then holds the stanzas of the first component, then the rest. */
  lemma FetchComponentsOrder(env: Env, url: string, release: string, c: string, cs: seq<string>)
    ensures FetchComponents(env, url, release, [c] + cs).Ok? <==>
              ComponentStanzas(env, url, release, c).Ok?
              && forall i :: 0 <= i < |cs| ==> ComponentStanzas(env, url, release, cs[i]).Ok?
    ensures FetchComponents(env, url, release, [c] + cs).Ok? ==>
              && ComponentStanzas(env, url, release, c).Ok?
              && FetchComponents(env, url, release, cs).Ok?
              && FetchComponents(env, url, release, [c] + cs).value
                 == ComponentStanzas(env, url, release, c).value + FetchComponents(env, url, release, cs).value
  {
    var f := ComponentReader(env, url, release);
    FlatMapOk(f, [c] + cs);
    FlatMapOk(f, cs);
    assert ([c] + cs)[0] == c;
    assert forall i :: 0 <= i < |cs| ==> ([c] + cs)[i + 1] == cs[i];
    assert ([c] + cs)[1..] == cs;
  }

  /** `get_packages_from_deb_line`: drop the comment, match the grammar,
      refuse `deb-src`, then read every component's index. */
  function GetPackages(env: Env, debLine: string): Result<seq<string>> {
    var line := StripComments(debLine);
    match MatchSourceLine(line)
    case None => Err(LineUnparseable(line))
    case Some(e) =>
      if e.kind == DebSrc then Err(DebSrcNotImplemented)
      else FetchComponents(env, e.url, e.release, Components(e))
  }

  /** The three outcomes of a deb line: a line the grammar rejects after the
      comment is cut, a `deb-src` line, and a `deb` line whose components
      are all read. */
  lemma GetPackagesOutcome(env: Env, debLine: string)
    ensures var line := StripComments(debLine);
            var m := MatchSourceLine(line);
            var r := GetPackages(env, debLine);
            && (m.None? <==> r == Err(LineUnparseable(line)))
            && (m.Some? && m.value.kind == DebSrc <==> r == Err(DebSrcNotImplemented))
            && (m.Some? && m.value.kind == Deb ==>
                  r == FetchComponents(env, m.value.url, m.value.release, Components(m.value)))
  {
    var line := StripComments(debLine);
    var m := MatchSourceLine(line);
    if m.Some? && m.value.kind == Deb {
      var e := m.value;
      FetchNeverSkips(env, e.url, e.release, Components(e));
    }
  }

  /** Reading indexes fails only with fetch and match errors, never with
      the errors the main loop skips. */
  lemma FetchNeverSkips(env: Env, url: string, release: string, cs: seq<string>)
    ensures FetchComponents(env, url, release, cs).Err? ==>
              !FetchComponents(env, url, release, cs).error.LineUnparseable?
              && FetchComponents(env, url, release, cs).error != DebSrcNotImplemented
  {
    var f := ComponentReader(env, url, release);
    if FlatMap(f, cs).Err? {
      FlatMapFirstError(f, cs);
    }
  }

  /** A rendered `deb` entry without `#` is read as its own fields: its
      components are fetched in order from its URL and release. */
  lemma GetPackagesRendered(env: Env, e: SourceLine)
    requires WellFormed(e) && e.kind == Deb
    requires '#' !in Render(e)
    ensures GetPackages(env, Render(e)) == FetchComponents(env, e.url, e.release, Components(e))
  {
    StripCommentsPlain(Render(e));
    MatchRendered(e);
  }

  // ---------------------------------------------------------------- all deb lines

  /** Whether the main loop reports the error and goes on with the next line. */
  predicate Skipped(r: Result<seq<string>>) {
    r.Err? && (r.error.LineUnparseable? || r.error == DebSrcNotImplemented)
  }

  /** What one line adds to `package_data`, or the error that ends the run. */
  function LineData(g: Result<seq<string>>): (r: Result<seq<string>>)
    ensures r.Ok? <==> g.Ok? || Skipped(g)
  {
    if g.Ok? then g else if Skipped(g) then Ok([]) else g
  }

  /** The main loop's treatment of one line. */
  function LineReader(env: Env): string -> Result<seq<string>> {
    line => LineData(GetPackages(env, line))
  }

  /** `package_data`: the stanzas of every line, skipping unparseable and
      `deb-src` lines; any other error ends the run. */
  function CollectPackageData(env: Env, lines: seq<string>): Result<seq<string>> {
    FlatMap(LineReader(env), lines)
  }

  /** The run survives exactly when every line is read or skipped. */
  lemma CollectOk(env: Env, lines: seq<string>)
    ensures CollectPackageData(env, lines).Ok? <==>
              forall i :: 0 <= i < |lines| ==> GetPackages(env, lines[i]).Ok? || Skipped(GetPackages(env, lines[i]))
  {
    FlatMapOk(LineReader(env), lines);
  }

  /** A skipped line contributes nothing: removing it changes no outcome. */
  lemma SkippedLineIrrelevant(env: Env, a: seq<string>, line: string, b: seq<string>)
    requires Skipped(GetPackages(env, line))
    ensures CollectPackageData(env, a + [line] + b) == CollectPackageData(env, a + b)
  {
    FlatMapSkip(LineReader(env), a, line, b);
  }
}
