/** apt-mirror.py: the same pipeline as aptparser.py with its own source-list
    filter, a plain whitespace split of each line instead of the source-line
    grammar, an inline copy of the stanza parser, the catalog loop and the
    widths of the listing columns. */
module Mirror {
  import opened Outcome
  import opened PyStr
  import opened Control
  import opened Sources
  import opened Index
  import opened Catalog

  // ---------------------------------------------------------------- filter_deb_lines

  /** `filter_deb_lines`: a `deb`-prefixed line cut at its first `#` and
      stripped; any other line gives `None`. It keeps exactly what
      aptparser's `filter_deb_line` keeps and returns `None` where that one
      raises. */
  function FilterDebLines(line: string): (r: Option<string>)
    ensures r.Some? <==> StartsWith(line, "deb")
    ensures r.Some? <==> FilterDebLine(line).Ok?
    ensures r.Some? ==> r.value == FilterDebLine(line).value
    ensures r.Some? ==> r.value != [] && '#' !in r.value && IsStripped(r.value)
    ensures r.Some? ==> exists cut :: && StartsWith(line, cut) && '#' !in cut
                                      && (cut == line || line[|cut|] == '#')
                                      && r.value == Strip(cut)
  {
    if StartsWith(line, "deb") then
      DebCutFacts(line);
      Some(Strip(BeforeHash(line)))
    else None
  }

  /** The lines of a file the mirror reads: the whole text stripped, then
      cut at every `\n` (`.list` files only). */
  function MirrorFileLines(f: SourceFile): seq<string> {
    if IsListFile(f) then Split(Strip(f.content), "\n") else []
  }

  /** What `filter_deb_lines` adds for one line once falsy results are
      dropped. */
  function Kept(line: string): (r: seq<string>)
    ensures forall x :: x in r <==> FilterDebLines(line) == Some(x)
  {
    var f := FilterDebLines(line);
    if f.Some? && f.value != [] then [f.value] else []
  }

  /** The truthy results of `filter_deb_lines` over `lines`, in order. */
  function MirrorKept(lines: seq<string>): seq<string> {
    Concat(Kept, lines)
  }

  /** A line survives exactly when it is the filter's result for some line;
      every result is truthy, since it starts with `deb`. */
  lemma MirrorKeptMember(lines: seq<string>, x: string)
    ensures x in MirrorKept(lines) <==> exists l :: l in lines && FilterDebLines(l) == Some(x)
  {
    ConcatMember(Kept, lines, x);
  }

  /** The kept lines of one file. */
  function FileKept(f: SourceFile): seq<string> {
    MirrorKept(MirrorFileLines(f))
  }

  /** The pure part of `get_deb_lines`: the kept lines of every `.list`
      file, file after file. An empty result is not an error here. */
  function GetMirrorDebLines(files: seq<SourceFile>): seq<string> {
    Concat(FileKept, files)
  }

  /** `x` is the filter's result for a line of the `.list` file `f`. */
  predicate FromFile(f: SourceFile, x: string) {
    IsListFile(f) && exists l :: l in Split(Strip(f.content), "\n") && FilterDebLines(l) == Some(x)
  }

  /** One file keeps exactly the filter's results for its own lines. */
  lemma FileKeptMember(f: SourceFile, x: string)
    ensures x in FileKept(f) <==> FromFile(f, x)
  {
    MirrorKeptMember(MirrorFileLines(f), x);
  }

  /** What the mirror's `get_deb_lines` returns: exactly the filtered
      `deb`-prefixed lines of the `.list` files, `deb-src` lines among them. */
  lemma GetMirrorDebLinesMember(files: seq<SourceFile>, x: string)
    ensures x in GetMirrorDebLines(files) <==> exists f :: f in files && FromFile(f, x)
  {
    ConcatMember(FileKept, files, x);
    forall f | f in files
      ensures x in FileKept(f) <==> FromFile(f, x)
    {
      FileKeptMember(f, x);
    }
  }

  // ---------------------------------------------------------------- the line split

  /** The four names unpacked from a deb line; the components already split. */
  datatype DebFields = DebFields(kind: string, uri: string, release: string, components: seq<string>)

  /** `re.split("\s+", deb_line, maxsplit=3)` unpacked into four names, then
      the fourth split again on whitespace. Fewer than four parts is the
      unpacking error; nothing else is checked. */
  function SplitDebLine(line: string): (r: Result<DebFields>)
    ensures r.Err? <==> |SplitSpace(line, 3)| < 4
    ensures r.Err? ==> r.error == TooFewFields(line)
    ensures r.Ok? ==> NoneOf(r.value.kind, IsSpace) && NoneOf(r.value.uri, IsSpace) && NoneOf(r.value.release, IsSpace)
    ensures r.Ok? ==> |r.value.components| >= 1
    ensures r.Ok? ==> forall k :: 0 <= k < |r.value.components| ==> NoneOf(r.value.components[k], IsSpace)
    ensures r.Ok? && line != [] && IsStripped(line) ==>
              && IsWord(r.value.kind) && IsWord(r.value.uri) && IsWord(r.value.release)
              && forall k :: 0 <= k < |r.value.components| ==> IsWord(r.value.components[k])
  {
    var parts := SplitSpace(line, 3);
    SplitSpaceParts(line, Some(3));
    if |parts| < 4 then Err(TooFewFields(line))
    else
      SplitSpaceParts(parts[3], None);
      Ok(DebFields(parts[0], parts[1], parts[2], SplitSpace(parts[3], 0)))
  }

  /** Three words and a list of component words, joined by single spaces,
      split back into themselves. */
  lemma SplitDebLineJoin(kind: string, uri: string, release: string, words: seq<string>)
    requires IsWord(kind) && IsWord(uri) && IsWord(release)
    requires |words| >= 1 && forall k :: 0 <= k < |words| ==> IsWord(words[k])
    ensures SplitDebLine(kind + " " + uri + " " + release + " " + Join(words, " "))
         == Ok(DebFields(kind, uri, release, words))
  {
    var cs := Join(words, " ");
    JoinHead(words, " ");
    assert cs[0] == words[0][0];
    SplitWords(kind, uri, release, cs);
    SplitSpaceJoin(words);
  }

  /** Three words and a rest that starts with a non-space split into those
      four parts under `maxsplit=3`. */
  lemma SplitWords(kind: string, uri: string, release: string, rest: string)
    requires IsWord(kind) && IsWord(uri) && IsWord(release)
    requires rest != [] && !IsSpace(rest[0])
    ensures SplitSpaceUpTo(kind + " " + uri + " " + release + " " + rest, Some(3)) == [kind, uri, release, rest]
  {
    var r1 := uri + " " + release + " " + rest;
    SplitTwoWords(uri, release, rest);
    assert r1[0] == uri[0];
    PrependWord(kind, r1, Some(3), [uri, release, rest]);
    Assoc4(kind, uri, release, rest);
  }

  lemma SplitTwoWords(uri: string, release: string, rest: string)
    requires IsWord(uri) && IsWord(release)
    requires rest != [] && !IsSpace(rest[0])
    ensures SplitSpaceUpTo(uri + " " + release + " " + rest, Some(2)) == [uri, release, rest]
  {
    var r2 := release + " " + rest;
    assert SplitSpaceUpTo(rest, Some(0)) == [rest];
    PrependWord(release, rest, Some(1), [rest]);
    assert r2[0] == release[0];
    PrependWord(uri, r2, Some(2), [release, rest]);
    Assoc3(uri, release, rest);
  }

  /** A word and one space in front add the word as the first part and use
      up one split. */
  lemma PrependWord(t: string, rest: string, budget: Option<nat>, parts: seq<string>)
    requires IsWord(t) && rest != [] && !IsSpace(rest[0])
    requires budget != Some(0)
    requires SplitSpaceUpTo(rest, DecBudget(budget)) == parts
    ensures SplitSpaceUpTo(t + " " + rest, budget) == [t] + parts
  {
    SplitSpaceCons(t, rest, budget);
  }

  lemma Assoc4(a: string, b: string, c: string, d: string)
    ensures a + " " + b + " " + c + " " + d == a + " " + (b + " " + c + " " + d)
    ensures [a] + [b, c, d] == [a, b, c, d]
  {
  }

  lemma Assoc3(a: string, b: string, c: string)
    ensures a + " " + b + " " + c == a + " " + (b + " " + c)
    ensures [a] + [b, c] == [a, b, c]
  {
  }

  /** An entry the aptparser grammar reads, written out without an option
      block, splits into the same URL, release and components. */
  lemma SplitRendered(e: SourceLine)
    requires WellFormed(e) && e.options.None?
    ensures SplitDebLine(Render(e)) == Ok(DebFields(KindName(e.kind), e.url, e.release, Components(e)))
  {
    assert Render(e) == KindName(e.kind) + " " + e.url + " " + e.release + " " + e.components;
    SplitWords(KindName(e.kind), e.url, e.release, e.components);
  }

  // ---------------------------------------------------------------- get_packages_from_deb_line

  /** The mirror's `get_packages_from_deb_line`: split the line, then read
      every component's index exactly as aptparser does. */
  function MirrorPackages(env: Env, line: string): Result<seq<string>> {
    var f :- SplitDebLine(line);
    FetchComponents(env, f.uri, f.release, f.components)
  }

  /** On a line both scripts accept, the two readers agree; on a `deb-src`
      line the mirror reads the indexes that aptparser refuses. */
  lemma MirrorRendered(env: Env, e: SourceLine)
    requires WellFormed(e) && e.options.None? && '#' !in Render(e)
    ensures MirrorPackages(env, Render(e)) == FetchComponents(env, e.url, e.release, Components(e))
    ensures e.kind == Deb ==> MirrorPackages(env, Render(e)) == GetPackages(env, Render(e))
    ensures e.kind == DebSrc ==> GetPackages(env, Render(e)) == Err(DebSrcNotImplemented)
  {
    SplitRendered(e);
    StripCommentsPlain(Render(e));
    MatchRendered(e);
  }

  /** The line's URL has neither `http://` nor `https://` in front. */
  predicate NoScheme(u: string) {
    !StartsWith(u, "http://") && !StartsWith(u, "https://")
  }

  /** A URL without a scheme keeps lacking one once `dists` is joined to it
      and anything is appended. */
  lemma DistsKeepsNoScheme(uri: string, u: string, s: string)
    requires s == "http://" || s == "https://"
    requires !StartsWith(uri, s)
    requires StartsWith(u, WithSlash(uri) + "dists")
    ensures !StartsWith(u, s)
  {
    var w := WithSlash(uri);
    var k := |w|;
    assert u[k] == (w + "dists")[k] == 'd';
    if k < |s| {
      assert s[k] != 'd';
    } else if |s| <= |u| {
      assert u[..|s|] == w[..|s|];
      if w != uri {
        assert w == uri + "/" && !EndsWith(uri, "/");
        if |uri| >= |s| {
          assert w[..|s|] == uri[..|s|];
        } else {
          assert |uri| == |s| - 1;
          assert w[|s| - 2] == uri[|uri| - 1] != '/';
          assert s[|s| - 2] == '/';
        }
      }
    }
  }

  /** A source URL without `http://` or `https://` in front makes the
      matcher fail for every release and component: the mirror takes the
      URL unchecked, so the first component's index raises. */
  lemma MirrorNonHttpFails(uri: string, release: string, component: string)
    requires NoScheme(uri)
    ensures CachePath(IndexUrl(uri, release, component)) == Err(UrlMismatch(IndexUrl(uri, release, component)))
  {
    var u := IndexUrl(uri, release, component);
    var d := JoinPath(uri, "dists");
    assert "dists"[..1] == "d";
    JoinPathParts(uri, "dists");
    var r := JoinPath(d, release);
    var c := JoinPath(r, component);
    if StartsWith(component, "/") {
      AbsoluteComponentFails(uri, release, component);
    } else if StartsWith(release, "/") {
      JoinPathParts(d, release);
      JoinRelativePrefix(r, component);
      assert IndexName[..1] == "b";
      JoinRelativePrefix(c, IndexName);
      PrefixTrans(release, c, u);
      RootedFails(u, release);
    } else {
      JoinRelativePrefix(d, release);
      JoinRelativePrefix(r, component);
      assert IndexName[..1] == "b";
      JoinRelativePrefix(c, IndexName);
      PrefixTrans(d, r, c);
      PrefixTrans(d, c, u);
      DistsKeepsNoScheme(uri, u, "http://");
      DistsKeepsNoScheme(uri, u, "https://");
    }
  }

  /** A split line whose URL has no scheme fails on its first component. */
  lemma MirrorLineNonHttp(env: Env, line: string)
    requires SplitDebLine(line).Ok? && NoScheme(SplitDebLine(line).value.uri)
    ensures var f := SplitDebLine(line).value;
            MirrorPackages(env, line) == Err(UrlMismatch(IndexUrl(f.uri, f.release, f.components[0])))
  {
    var f := SplitDebLine(line).value;
    MirrorNonHttpFails(f.uri, f.release, f.components[0]);
  }

  /** The mirror's `package_data`: every line's stanzas in order; any error
      ends the run. */
  function MirrorCollect(env: Env, lines: seq<string>): Result<seq<string>> {
    FlatMap(line => MirrorPackages(env, line), lines)
  }

  /** Unlike aptparser's loop, no line is skipped: the run fails with the
      first failing line's error. */
  lemma MirrorCollectOutcome(env: Env, lines: seq<string>)
    ensures MirrorCollect(env, lines).Ok? <==> forall i :: 0 <= i < |lines| ==> MirrorPackages(env, lines[i]).Ok?
    ensures MirrorCollect(env, lines).Err? ==>
              exists i :: 0 <= i < |lines| && MirrorPackages(env, lines[i]) == Err(MirrorCollect(env, lines).error)
  {
    var f := line => MirrorPackages(env, line);
    FlatMapOk(f, lines);
    if FlatMap(f, lines).Err? {
      FlatMapFirstError(f, lines);
    }
  }

  // ---------------------------------------------------------------- the inline stanza parser

  /** The inner loop of the inline parser: pop the continuation lines from
      `a` on and fold each (stripped, a lone `.` read as an empty line). */
  method FoldRun(lines: seq<string>, a: int) returns (exp: seq<string>, j: int)
    requires 0 <= a <= |lines|
    ensures j == a + ContinuationRun(lines[a..]) && j <= |lines|
    ensures exp == FoldAll(lines[a..j])
  {
    exp := [];
    j := a;
    Start(lines, a);
    while j < |lines| && IsContinuation(lines[j])
      invariant Folded(lines, a, j, exp)
      decreases |lines| - j
    {
      Advance(lines, a, j, exp);
      exp := exp + [FoldLine(lines[j])];
      j := j + 1;
    }
    Finish(lines, a, j, exp);
  }

  /** One turn of the inline parser's outer loop: pop the header line, split
      it at the first `": "`, coerce `Size`, then pop and fold the
      continuation lines that follow it. `tail` is what is left. */
  method ReadField(lines: seq<string>) returns (r: Result<(string, Value)>, tail: seq<string>)
    requires lines != []
    ensures r == ParseField(lines[0], lines[1..1 + ContinuationRun(lines[1..])])
    ensures r.Ok? ==> tail == lines[1 + ContinuationRun(lines[1..])..]
  {
    var line := lines[0];
    var j := 1;
    match Find(line, ": ") {
      case None =>
        return Err(MalformedLine(line)), lines[j..];
      case Some(p) =>
        var k := line[..p];
        var raw := line[p + 2..];
        var v := Text(raw);
        if k == "Size" {
          match ParseDecimal(raw) {
            case None =>
              return Err(BadSize(raw)), lines[j..];
            case Some(n) =>
              v := Number(n);
          }
        }
        if j < |lines| && IsContinuation(lines[j]) {
          var exp;
          exp, j := FoldRun(lines, j);
          if v.Number? {
            return Err(FoldedSize), lines[j..];
          }
          v := Text(Join([v.text] + exp, "\n"));
        } else {
          RunStop(lines, j);
          assert [raw] + FoldAll(lines[1..j]) == [raw];
        }
        SizeHeader(line, p);
        return Ok((Lower(k), v)), lines[j..];
    }
  }

  /** The stanza parser apt-mirror.py repeats inline in its main loop. It
      builds the same record as aptparser's `parse_package_metadata` for
      every stanza and fails in the same cases with the same error. */
  method ParseInline(text: string) returns (r: Result<Record>)
    ensures r == ParseStanza(text)
  {
    var lines := StanzaLines(text);
    var pkg: Record := map[];
    while lines != []
      invariant ParseLines(lines, pkg) == ParseStanza(text)
      decreases |lines|
    {
      var f, tail := ReadField(lines);
      if f.Err? {
        return Err(f.error);
      }
      pkg := pkg[f.value.0 := f.value.1];
      lines := tail;
    }
    return Ok(pkg);
  }

  // ---------------------------------------------------------------- the catalog loop

  /** apt-mirror.py's loop over `package_data`: empty texts are skipped,
      the others parsed inline and merged into the catalog. It builds the
      catalog `Ingest` describes with aptparser's parser. */
  method BuildCatalog(cmp: Comparator, texts: seq<string>) returns (r: Result<Packages>)
    ensures r == Ingest(ParseStanza, cmp, map[], texts)
  {
    var cat: Packages := map[];
    var i := 0;
    while i < |texts|
      invariant 0 <= i <= |texts|
      invariant Ingest(ParseStanza, cmp, map[], texts[..i]) == Ok(cat)
      decreases |texts| - i
    {
      IngestSnoc(ParseStanza, cmp, map[], texts, i);
      if texts[i] != [] {
        var rec := ParseInline(texts[i]);
        if rec.Err? {
          IngestErrSticks(ParseStanza, cmp, map[], texts, i + 1);
          return Err(rec.error);
        }
        var u := Update(cmp, cat, rec.value);
        if u.Err? {
          IngestErrSticks(ParseStanza, cmp, map[], texts, i + 1);
          return Err(u.error);
        }
        cat := u.value;
      }
      i := i + 1;
    }
    assert texts[..i] == texts;
    return Ok(cat);
  }

  // ---------------------------------------------------------------- column widths

  /** `min(n, 30)`. */
  function Clamp(n: nat): nat {
    if n < 30 then n else 30
  }

  /** The record has the text package name and version the listing reads. */
  predicate Named(rec: Record) {
    HasText(rec, "package") && HasText(rec, "version")
  }

  /** The error reading the listing's fields raises: the package name is
      read before the version. */
  function NameError(rec: Record): Error
    requires !Named(rec)
  {
    if !HasText(rec, "package") then TextField(rec, "package").error else TextField(rec, "version").error
  }

  /** `w` is the clamped maximum of the field's lengths over `recs`, and 0
      when there are none. */
  predicate IsWidth(w: nat, recs: seq<Record>, name: string) {
    && w <= 30
    && (forall i :: 0 <= i < |recs| ==> Clamp(|Field(recs[i], name)|) <= w)
    && (w == 0 || exists i :: 0 <= i < |recs| && w == Clamp(|Field(recs[i], name)|))
  }

  /** `pkg_len` and `ver_len`: the lengths of every record's name and
      version are read first, then the running maxima are clamped to 30.
      `recs` is the catalog's values in the order the dictionary yields
      them; the widths do not depend on it. */
  method ColumnWidths(recs: seq<Record>) returns (r: Result<(nat, nat)>)
    ensures r.Ok? <==> forall i :: 0 <= i < |recs| ==> Named(recs[i])
    ensures r.Err? ==> exists i :: (&& 0 <= i < |recs| && !Named(recs[i])
                                    && (forall m :: 0 <= m < i ==> Named(recs[m]))
                                    && r.error == NameError(recs[i]))
    ensures r.Ok? ==> IsWidth(r.value.0, recs, "package") && IsWidth(r.value.1, recs, "version")
  {
    var lens: seq<(nat, nat)> := [];
    var i := 0;
    while i < |recs|
      invariant 0 <= i <= |recs| && |lens| == i
      invariant forall m :: 0 <= m < i ==> Named(recs[m])
      invariant forall m :: 0 <= m < i ==> lens[m] == (|Field(recs[m], "package")|, |Field(recs[m], "version")|)
    {
      var p := TextField(recs[i], "package");
      if p.Err? {
        assert !Named(recs[i]);
        return Err(p.error);
      }
      var v := TextField(recs[i], "version");
      if v.Err? {
        assert !Named(recs[i]);
        return Err(v.error);
      }
      lens := lens + [(|p.value|, |v.value|)];
      i := i + 1;
    }
    var pkgLen, verLen := 0, 0;
    var k := 0;
    while k < |lens|
      invariant 0 <= k <= |lens|
      invariant forall m :: 0 <= m < k ==> lens[m].0 <= pkgLen && lens[m].1 <= verLen
      invariant pkgLen == 0 || exists m :: 0 <= m < k && pkgLen == lens[m].0
      invariant verLen == 0 || exists m :: 0 <= m < k && verLen == lens[m].1
    {
      if lens[k].0 > pkgLen {
        pkgLen := lens[k].0;
      }
      if lens[k].1 > verLen {
        verLen := lens[k].1;
      }
      k := k + 1;
    }
    return Ok((Clamp(pkgLen), Clamp(verLen)));
  }
}
