/** Source-list handling of aptparser.py: normalising the lines of `.list`
    files (`SOURCES_LINE_FILTER_PAT`, `get_deb_lines`, `filter_deb_line`),
    the ` ?#.*` comment strip, and the one-line grammar `SOURCES_LINE_PAT`
    that splits a `deb` line into type, URL, release and components. The
    regular expressions are written out as scanners; each scanner follows the
    backtracking matcher's choices exactly. */
module Sources {
  import opened Outcome
  import opened PyStr

  predicate IsHash(c: char) {
    c == '#'
  }

  predicate IsCloseBracket(c: char) {
    c == ']'
  }

  predicate NotSpace(c: char) {
    !IsSpace(c)
  }

  /** Length of `.*`: everything up to the first newline. */
  function LineRest(s: string): (n: nat)
    ensures n <= |s|
    ensures '\n' !in s[..n]
    ensures n < |s| ==> s[n] == '\n'
    ensures '\n' !in s ==> n == |s|
  {
    match FirstOf(s, IsNewline)
    case None => |s|
    case Some(j) => j
  }

  // ---------------------------------------------------------------- SOURCES_LINE_FILTER_PAT

  /** Length of a `\[[^\]]+\]\s+` match at the start of `s`: a bracket, at
      least one non-`]` character, the first `]`, and the whole whitespace
      run after it (at least one character). */
  function OptionBlockLen(s: string): (n: Option<nat>)
    ensures n.Some? ==> 4 <= n.value <= |s| && s[0] == '['
  {
    if s == [] || s[0] != '[' then None
    else match FirstOf(s[1..], IsCloseBracket)
      case None => None
      case Some(e) =>
        if e == 0 then None
        else
          var w := RunEnd(s, e + 2, IsSpace);
          if w == e + 2 then None else Some(w)
  }

  /** Length of a `\s+?#.*` match at the start of `s`: the lazy whitespace
      run can only stop where a `#` follows, so it is the whole run, and the
      comment reaches the end of the line. */
  function CommentLen(s: string): (n: Option<nat>)
    ensures n.Some? ==> 2 <= n.value <= |s| && IsSpace(s[0])
  {
    var k := RunEnd(s, 0, IsSpace);
    if k == 0 || k == |s| || s[k] != '#' then None
    else Some(k + 1 + LineRest(s[k + 1..]))
  }

  /** The alternation, first branch first. */
  function FilterMatchLen(s: string): (n: Option<nat>)
    ensures n.Some? ==> 1 <= n.value <= |s|
  {
    match OptionBlockLen(s)
    case Some(n) => Some(n)
    case None => CommentLen(s)
  }

  /** `SOURCES_LINE_FILTER_PAT.sub("", s)`: matches are removed left to
      right; where nothing matches one character is kept. */
  function FilterSub(s: string): (r: string)
    ensures |r| <= |s|
    decreases |s|
  {
    if s == [] then []
    else match FilterMatchLen(s)
      case Some(n) => FilterSub(s[n..])
      case None => [s[0]] + FilterSub(s[1..])
  }

  /** Nothing of `a` can start a match of the filter pattern, and no
      whitespace run of `a` can reach a `#` at the start of `t`. */
  predicate Seam(a: string, t: string) {
    && '[' !in a && '#' !in a
    && (a == [] || t == [] || !IsSpace(a[|a| - 1]) || (!IsSpace(t[0]) && t[0] != '#'))
  }

  /** No match of the filter pattern starts at the front of `a + t`. */
  lemma NoFilterMatch(a: string, t: string)
    requires Seam(a, t) && a != []
    ensures FilterMatchLen(a + t).None?
  {
    var s := a + t;
    assert s[0] == a[0];
    RunEndAppend(a, t, IsSpace);
    var ka := RunEnd(a, 0, IsSpace);
    if ka < |a| {
      assert s[ka] == a[ka];
    } else {
      assert IsSpace(a[0..ka][|a| - 1]);
      if t != [] {
        assert s[|a|] == t[0];
      }
    }
  }

  /** Where no match starts, the first character is kept. */
  lemma FilterSubKeeps(s: string)
    requires s != [] && FilterMatchLen(s).None?
    ensures FilterSub(s) == [s[0]] + FilterSub(s[1..])
  {
  }

  /** A seam survives dropping the first character of the prefix. */
  lemma SeamTail(a: string, t: string)
    requires Seam(a, t) && a != []
    ensures Seam(a[1..], t)
  {
    assert forall c :: c in a[1..] ==> c in a;
    if |a| > 1 {
      assert a[1..][|a[1..]| - 1] == a[|a| - 1];
    }
  }

  /** Putting the head of `a` back in front of the rest of `a` followed by `x`. */
  lemma ConsConcat(a: string, x: string, y: string)
    requires a != [] && y == a[1..] + x
    ensures [a[0]] + y == a + x
  {
    assert a == [a[0]] + a[1..];
  }

  /** The first character of a seamed prefix is kept. */
  lemma FilterSubStep(a: string, t: string)
    requires Seam(a, t) && a != []
    ensures FilterSub(a + t) == [a[0]] + FilterSub(a[1..] + t)
  {
    var s := a + t;
    NoFilterMatch(a, t);
    FilterSubKeeps(s);
    assert s[1..] == a[1..] + t;
  }

  /** A prefix that holds no match start passes through the filter unchanged. */
  lemma {:induction false} FilterSubPrefix(a: string, t: string)
    requires Seam(a, t)
    ensures FilterSub(a + t) == a + FilterSub(t)
    decreases |a|
  {
    if a != [] {
      FilterSubStep(a, t);
      SeamTail(a, t);
      FilterSubPrefix(a[1..], t);
      ConsConcat(a, FilterSub(t), FilterSub(a[1..] + t));
    } else {
      assert a + t == t;
    }
  }

  /** A line without `[` or `#` is left as it is. */
  lemma FilterSubPlain(s: string)
    requires '[' !in s && '#' !in s
    ensures FilterSub(s) == s
  {
    FilterSubPrefix(s, []);
    assert s + [] == s;
  }

  /** Where a match starts, it is dropped as a whole. */
  lemma FilterSubSkips(s: string, n: nat)
    requires FilterMatchLen(s) == Some(n)
    ensures FilterSub(s) == FilterSub(s[n..])
  {
  }

  /** The block pattern matches a bracketed block and its whole whitespace run. */
  lemma OptionBlockLenOf(o: string, w: string, b: string)
    requires o != [] && ']' !in o
    requires w != [] && All(w, IsSpace)
    requires b == [] || !IsSpace(b[0])
    ensures OptionBlockLen("[" + o + "]" + w + b) == Some(|o| + 2 + |w|)
  {
    var t := "[" + o + "]" + w + b;
    CloseBracketAt(o, w + b);
    assert t[1..] == o + "]" + (w + b);
    assert t[|o| + 2..] == w + b;
    SpaceRunOver(t, |o| + 2, w, b);
  }

  /** The first `]` after a `]`-free text is the one that follows it. */
  lemma CloseBracketAt(o: string, rest: string)
    requires ']' !in o
    ensures FirstOf(o + "]" + rest, IsCloseBracket) == Some(|o|)
  {
    assert o + "]" + rest == o + ("]" + rest);
    assert NoneOf(o, IsCloseBracket);
    FirstOfAppend(o, "]" + rest, IsCloseBracket);
  }

  /** A whitespace run `w` that is followed by no whitespace ends after `w`. */
  lemma SpaceRunOver(t: string, i: nat, w: string, b: string)
    requires i <= |t| && t[i..] == w + b
    requires All(w, IsSpace)
    requires b == [] || !IsSpace(b[0])
    ensures RunEnd(t, i, IsSpace) == i + |w|
  {
    assert t[i..i + |w|] == w;
    assert i + |w| < |t| ==> t[i + |w|] == b[0];
    RunEndSkips(t, i, i + |w|, IsSpace);
  }

  /** A `[options]` block and the whitespace after it are cut out. */
  lemma OptionBlockRemoved(a: string, o: string, w: string, b: string)
    requires Seam(a, "[")
    requires o != [] && ']' !in o
    requires w != [] && All(w, IsSpace)
    requires b == [] || !IsSpace(b[0])
    ensures FilterSub(a + "[" + o + "]" + w + b) == a + FilterSub(b)
  {
    var t := "[" + o + "]" + w + b;
    assert a + "[" + o + "]" + w + b == a + t;
    assert t[0] == '[';
    FilterSubPrefix(a, t);
    OptionBlockDropped(o, w, b);
  }

  lemma OptionBlockDropped(o: string, w: string, b: string)
    requires o != [] && ']' !in o
    requires w != [] && All(w, IsSpace)
    requires b == [] || !IsSpace(b[0])
    ensures FilterSub("[" + o + "]" + w + b) == FilterSub(b)
  {
    var p := "[" + o + "]" + w;
    OptionBlockLenOf(o, w, b);
    FilterSubSkips(p + b, |p|);
    assert (p + b)[|p|..] == b;
  }

  /** The comment pattern matches a whitespace run, `#` and the rest of a
      line without newlines. */
  lemma CommentLenOf(w: string, c: string)
    requires w != [] && All(w, IsSpace)
    requires '\n' !in c
    ensures FilterMatchLen(w + "#" + c) == Some(|w| + 1 + |c|)
  {
    var t := w + "#" + c;
    assert t[0] == w[0];
    assert t[0..|w|] == w;
    assert t[|w|] == '#';
    RunEndSkips(t, 0, |w|, IsSpace);
    assert t[|w| + 1..] == c;
  }

  /** A whitespace-preceded `#` comment is cut out together with the
      whitespace before it. */
  lemma CommentRemoved(a: string, w: string, c: string)
    requires Seam(a, w)
    requires w != [] && All(w, IsSpace)
    requires '\n' !in c
    ensures FilterSub(a + w + "#" + c) == a
  {
    var t := w + "#" + c;
    assert a + w + "#" + c == a + t;
    FilterSubPrefix(a, t);
    CommentLenOf(w, c);
    FilterSubSkips(t, |t|);
    assert t[|t|..] == [];
    assert a + [] == a;
  }

  // ---------------------------------------------------------------- get_deb_lines

  /** A source-list file: its path and its text. */
  datatype SourceFile = SourceFile(path: string, content: string)

  predicate IsListFile(f: SourceFile) {
    EndsWith(f.path, ".list")
  }

  /** The line after the filter substitution and `strip()`. */
  function Normalize(line: string): (r: string)
    ensures IsStripped(r)
  {
    StripStripped(FilterSub(line));
    Strip(FilterSub(line))
  }

  /** The line is a binary source entry: it starts with `deb` but not with
      `deb-src`. */
  predicate Keep(line: string) {
    StartsWith(line, "deb") && !StartsWith(line, "deb-src")
  }

  /** The lines of a file the list filter reads (`.list` files only). */
  function FileLines(f: SourceFile): seq<string> {
    if IsListFile(f) then SplitLines(f.content) else []
  }

  /** The lines of every `.list` file, file after file. */
  function ListedLines(files: seq<SourceFile>): (lines: seq<string>)
    ensures files == [] ==> lines == []
    decreases |files|
  {
    if files == [] then [] else FileLines(files[0]) + ListedLines(files[1..])
  }

  /** A line is listed exactly when it is a line of some `.list` file. */
  lemma {:induction false} ListedLinesMembers(files: seq<SourceFile>)
    ensures forall l :: l in ListedLines(files) <==>
              exists i :: 0 <= i < |files| && IsListFile(files[i]) && l in SplitLines(files[i].content)
    decreases |files|
  {
    if files != [] {
      ListedLinesMembers(files[1..]);
      forall l
        ensures l in ListedLines(files) <==>
                exists i :: 0 <= i < |files| && IsListFile(files[i]) && l in SplitLines(files[i].content)
      {
        if l in ListedLines(files[1..]) {
          var i :| 0 <= i < |files[1..]| && IsListFile(files[1..][i]) && l in SplitLines(files[1..][i].content);
          assert files[1..][i] == files[i + 1];
        }
        if exists i :: 0 <= i < |files| && IsListFile(files[i]) && l in SplitLines(files[i].content) {
          var i :| 0 <= i < |files| && IsListFile(files[i]) && l in SplitLines(files[i].content);
          if i > 0 {
            assert files[1..][i - 1] == files[i];
          }
        }
      }
    }
  }

  /** The normalised lines that are kept, in order. */
  function DebLines(lines: seq<string>): (r: seq<string>)
    ensures |r| <= |lines|
    decreases |lines|
  {
    if lines == [] then []
    else
      var x := Normalize(lines[0]);
      if Keep(x) then [x] + DebLines(lines[1..]) else DebLines(lines[1..])
  }

  /** Every kept line is the normalised form of an input line. */
  lemma {:induction false} DebLinesSound(lines: seq<string>, x: string)
    requires x in DebLines(lines)
    ensures Keep(x) && exists l :: l in lines && x == Normalize(l)
    decreases |lines|
  {
    if x != Normalize(lines[0]) || !Keep(x) {
      DebLinesSound(lines[1..], x);
      var l :| l in lines[1..] && x == Normalize(l);
      assert l in lines;
    }
  }

  /** Every input line whose normalised form passes `Keep` is kept. */
  lemma {:induction false} DebLinesComplete(lines: seq<string>, l: string)
    requires l in lines && Keep(Normalize(l))
    ensures Normalize(l) in DebLines(lines)
    decreases |lines|
  {
    if l != lines[0] {
      assert l in lines[1..];
      DebLinesComplete(lines[1..], l);
    }
  }

  /** A kept line is exactly the normalised form of an input line that
      passes `Keep`. */
  lemma DebLinesMembers(lines: seq<string>)
    ensures forall x :: x in DebLines(lines) <==> exists l :: l in lines && x == Normalize(l) && Keep(x)
  {
    forall x
      ensures x in DebLines(lines) <==> exists l :: l in lines && x == Normalize(l) && Keep(x)
    {
      if x in DebLines(lines) {
        DebLinesSound(lines, x);
      }
      if exists l :: l in lines && x == Normalize(l) && Keep(x) {
        var l :| l in lines && x == Normalize(l) && Keep(x);
        DebLinesComplete(lines, l);
      }
    }
  }

  /** The line part of `get_deb_lines`: every `.list` line normalised and
      filtered; no surviving line is an error. */
  function GetDebLines(files: seq<SourceFile>): (r: Result<seq<string>>)
    ensures r.Err? ==> r.error == InvalidList
    ensures r.Ok? ==> r.value != []
  {
    var deb := DebLines(ListedLines(files));
    if deb == [] then Err(InvalidList) else Ok(deb)
  }

  /** What `get_deb_lines` returns, in terms of the files: exactly the
      normalised `.list` lines that start with `deb` but not `deb-src`, and
      an error when there are none. */
  lemma GetDebLinesMembers(files: seq<SourceFile>)
    ensures forall x :: (GetDebLines(files).Ok? && x in GetDebLines(files).value) <==>
              exists i, l :: (&& 0 <= i < |files| && IsListFile(files[i])
                              && l in SplitLines(files[i].content) && x == Normalize(l) && Keep(x))
    ensures GetDebLines(files).Err? <==>
              forall i, l :: (0 <= i < |files| && IsListFile(files[i]) && l in SplitLines(files[i].content))
                ==> !Keep(Normalize(l))
  {
    ListedLinesMembers(files);
    DebLinesMembers(ListedLines(files));
    if GetDebLines(files).Ok? {
      var x := GetDebLines(files).value[0];
      assert x in DebLines(ListedLines(files));
    } else {
      forall i, l | 0 <= i < |files| && IsListFile(files[i]) && l in SplitLines(files[i].content)
        ensures !Keep(Normalize(l))
      {
        assert l in ListedLines(files);
        assert Normalize(l) in DebLines(ListedLines(files)) <==> Keep(Normalize(l));
      }
    }
  }

  // ---------------------------------------------------------------- filter_deb_line

  /** `line[:line.index("#")]`, or the whole line when it has no `#`. */
  function BeforeHash(line: string): (cut: string)
    ensures StartsWith(line, cut)
    ensures '#' !in cut
    ensures cut == line || line[|cut|] == '#'
    ensures '#' !in line ==> cut == line
  {
    match Find(line, "#")
    case None =>
      FreeOfChar(line, '#');
      line
    case Some(i) =>
      HashFreeBefore(line, i);
      line[..i]
  }

  lemma HashFreeBefore(line: string, i: nat)
    requires Find(line, "#") == Some(i)
    ensures '#' !in line[..i] && line[i] == '#'
  {
    assert line[i..i + 1] == "#";
    forall j | 0 <= j < i ensures line[j] != '#' {
      assert !OccursAt(line, "#", j);
      assert line[j..j + 1] == [line[j]];
    }
  }

  /** `filter_deb_line`: a `deb`-prefixed line cut at its first `#` and
      stripped; any other line is rejected. */
  function FilterDebLine(line: string): (r: Result<string>)
    ensures r.Ok? <==> StartsWith(line, "deb")
    ensures r.Err? ==> r.error == LineUnparseable(line)
    ensures r.Ok? ==> '#' !in r.value && IsStripped(r.value) && StartsWith(r.value, "deb")
    ensures r.Ok? && '#' !in line ==> r.value == Strip(line)
    ensures r.Ok? ==> exists cut :: && StartsWith(line, cut) && '#' !in cut
                                    && (cut == line || line[|cut|] == '#')
                                    && r.value == Strip(cut)
  {
    if !StartsWith(line, "deb") then Err(LineUnparseable(line))
    else
      DebCutFacts(line);
      Ok(Strip(BeforeHash(line)))
  }

  /** What the accepted branch of `filter_deb_line` keeps. */
  lemma DebCutFacts(line: string)
    requires StartsWith(line, "deb")
    ensures var r := Strip(BeforeHash(line));
      '#' !in r && IsStripped(r) && StartsWith(r, "deb") && ('#' !in line ==> r == Strip(line))
  {
    var cut := BeforeHash(line);
    DebBeforeHash(line);
    StripDebCut(cut);
  }

  /** The text before the first `#` keeps the `deb` prefix. */
  lemma DebBeforeHash(line: string)
    requires StartsWith(line, "deb")
    ensures StartsWith(BeforeHash(line), "deb")
  {
    var cut := BeforeHash(line);
    if cut != line {
      assert line[|cut|] == '#';
      assert line[..3] == "deb";
    }
  }

  /** Stripping a `#`-free text that starts with `deb` keeps that prefix. */
  lemma StripDebCut(cut: string)
    requires StartsWith(cut, "deb") && '#' !in cut
    ensures StartsWith(Strip(cut), "deb") && '#' !in Strip(cut)
  {
    TrimLeftKeeps(cut, IsSpace);
    TrimRightKeepsPrefix(cut, "deb", IsSpace);
    var r := TrimRight(cut, IsSpace);
    assert Strip(cut) == r;
    assert forall c :: c in r ==> c in cut;
  }

  /** Filtering a filtered line changes nothing. */
  lemma FilterDebLineIdempotent(line: string)
    requires FilterDebLine(line).Ok?
    ensures FilterDebLine(FilterDebLine(line).value) == FilterDebLine(line)
  {
    var x := FilterDebLine(line).value;
    FreeOfChar(x, '#');
    StripKeeps(x, IsSpace);
  }

  // ---------------------------------------------------------------- re.sub(" ?#.*", "")

  /** Length of a ` ?#.*` match at the start of `s`. */
  function HashCommentLen(s: string): (n: Option<nat>)
    ensures n.Some? ==> 1 <= n.value <= |s|
    ensures n.None? <==> s == [] || (s[0] != '#' && !(|s| >= 2 && s[0] == ' ' && s[1] == '#'))
  {
    if |s| >= 2 && s[0] == ' ' && s[1] == '#' then Some(2 + LineRest(s[2..]))
    else if s != [] && s[0] == '#' then Some(1 + LineRest(s[1..]))
    else None
  }

  /** `re.sub(" ?#.*", "", s)`. */
  function StripComments(s: string): (r: string)
    ensures |r| <= |s|
    ensures '#' !in r
    decreases |s|
  {
    if s == [] then []
    else match HashCommentLen(s)
      case Some(n) => StripComments(s[n..])
      case None => [s[0]] + StripComments(s[1..])
  }

  /** A prefix free of `#` is kept unless a space ends it right before a `#`. */
  lemma {:induction false} StripCommentsPrefix(a: string, t: string)
    requires '#' !in a
    requires a == [] || t == [] || a[|a| - 1] != ' ' || t[0] != '#'
    ensures StripComments(a + t) == a + StripComments(t)
    decreases |a|
  {
    if a != [] {
      var s := a + t;
      if |a| == 1 {
        assert |s| >= 2 ==> s[1] == t[0];
      } else {
        assert s[1] == a[1];
      }
      assert HashCommentLen(s).None?;
      assert s[1..] == a[1..] + t;
      StripCommentsPrefix(a[1..], t);
      assert s[0] == a[0];
      ConsConcat(a, StripComments(t), StripComments(s[1..]));
    } else {
      assert a + t == t;
    }
  }

  /** A line without `#` is not touched. */
  lemma StripCommentsPlain(s: string)
    requires '#' !in s
    ensures StripComments(s) == s
  {
    StripCommentsPrefix(s, []);
    assert s + [] == s;
  }

  /** A comment match reaching the end of the text removes all of it. */
  lemma StripCommentsWhole(s: string)
    requires HashCommentLen(s) == Some(|s|)
    ensures StripComments(s) == []
  {
    assert s[|s|..] == [];
  }

  /** A comment running to the end of a line that has no newline is a whole match. */
  lemma CommentToEnd(t: string, k: nat, c: string)
    requires (k == 1 || k == 2) && |t| == k + |c| && t[k..] == c && '\n' !in c
    ensures LineRest(t[k..]) == |c|
  {
  }

  /** `a + " #" + c` loses the space and the comment. */
  lemma StripCommentsSpaced(a: string, c: string)
    requires '#' !in a && '\n' !in c
    ensures StripComments(a + " #" + c) == a
  {
    var t := " #" + c;
    assert a + " #" + c == a + t;
    StripCommentsPrefix(a, t);
    CommentToEnd(t, 2, c);
    StripCommentsWhole(t);
    assert a + [] == a;
  }

  /** A space ending `a` goes with the comment that follows it. */
  lemma StripCommentsAfterSpace(a: string, c: string)
    requires '#' !in a && '\n' !in c && EndsWith(a, " ")
    ensures StripComments(a + "#" + c) == a[..|a| - 1]
  {
    var p := a[..|a| - 1];
    assert a == p + " ";
    var s := a + "#" + c;
    assert s == p + " #" + c;
    StripCommentsSpaced(p, c);
  }

  /** `a + "#" + c`, where `a` does not end in a space, loses only the comment. */
  lemma StripCommentsBare(a: string, c: string)
    requires '#' !in a && '\n' !in c && !EndsWith(a, " ")
    ensures StripComments(a + "#" + c) == a
  {
    var t := "#" + c;
    assert a + "#" + c == a + t;
    StripCommentsPrefix(a, t);
    CommentToEnd(t, 1, c);
    StripCommentsWhole(t);
    assert a + [] == a;
  }

  /** The comment is cut from the first `#` on, taking one space before it. */
  lemma StripCommentsTail(a: string, c: string)
    requires '#' !in a && '\n' !in c
    ensures StripComments(a + "#" + c) == (if EndsWith(a, " ") then a[..|a| - 1] else a)
  {
    if EndsWith(a, " ") {
      StripCommentsAfterSpace(a, c);
    } else {
      StripCommentsBare(a, c);
    }
  }

  // ---------------------------------------------------------------- SOURCES_LINE_PAT

  datatype SourceKind = Deb | DebSrc

  /** The groups of a `SOURCES_LINE_PAT` match. `options` is the optional
      `[...]` block, which the pattern does not capture. */
  datatype SourceLine = SourceLine(
    kind: SourceKind,
    options: Option<string>,
    url: string,
    release: string,
    components: string)

  function KindName(kind: SourceKind): string {
    match kind
    case Deb => "deb"
    case DebSrc => "deb-src"
  }

  /** `https?://\S+`: an http or https URL with something after the scheme. */
  predicate IsHttpUrl(u: string) {
    || (StartsWith(u, "http://") && |u| > 7)
    || (StartsWith(u, "https://") && |u| > 8)
  }

  /** `\[\S+\]`: a bracketed block with at least one character inside. */
  predicate IsOptionBlock(t: string) {
    |t| >= 3 && t[0] == '[' && t[|t| - 1] == ']'
  }

  predicate IsWord(t: string) {
    t != [] && NoneOf(t, IsSpace)
  }

  /** The source type and the index after it; `deb` is tried first and
      needs whitespace right after it. */
  function KindAt(s: string): (r: Option<(SourceKind, nat)>)
    ensures r.Some? ==> r.value.1 <= |s|
    ensures r.Some? ==> StartsWith(s, "deb")
    ensures r.Some? ==> (r.value.0 == DebSrc <==> StartsWith(s, "deb-src"))
  {
    if |s| > 3 && StartsWith(s, "deb") && IsSpace(s[3]) then
      assert s[3] != '-';
      assert !StartsWith(s, "deb-src") by {
        if |s| >= 7 {
          assert s[..7][3] == s[3];
        }
      }
      Some((Deb, 3))
    else if |s| > 7 && StartsWith(s, "deb-src") && IsSpace(s[7]) then
      assert s[..3] == s[..7][..3];
      Some((DebSrc, 7))
    else None
  }

  /** `\S+` taken greedily: the leading non-space run and what follows. */
  function Word(s: string): (r: (string, string))
    ensures r.0 + r.1 == s
    ensures NoneOf(r.0, IsSpace)
    ensures r.1 == [] || IsSpace(r.1[0])
  {
    var j := RunEnd(s, 0, NotSpace);
    assert s[..j] + s[j..] == s;
    (s[..j], s[j..])
  }

  /** `\s+` taken greedily: the leading whitespace run and what follows. */
  function Spaces(s: string): (r: (string, string))
    ensures r.0 + r.1 == s
    ensures All(r.0, IsSpace)
    ensures r.1 == [] || !IsSpace(r.1[0])
  {
    var j := RunEnd(s, 0, IsSpace);
    assert s[..j] + s[j..] == s;
    (s[..j], s[j..])
  }

  /** `[^#]+` taken greedily: everything before the first `#`. */
  function UpToHash(s: string): (r: string)
    ensures StartsWith(s, r)
    ensures '#' !in r
    ensures r == s || s[|r|] == '#'
    ensures '#' !in s ==> r == s
  {
    match FirstOf(s, IsHash)
    case None => s
    case Some(h) => s[..h]
  }

  /** The optional `\[\S+\]\s+` group and the text after it: the group is
      taken when the first word is a bracketed block followed by whitespace. */
  function OptionsPart(s: string): (r: (Option<string>, string))
    ensures r.0.Some? ==> IsOptionBlock(r.0.value) && IsWord(r.0.value)
    ensures r.0.None? ==> r.1 == s
  {
    var (tok, rest) := Word(s);
    if IsOptionBlock(tok) && rest != [] then (Some(tok), Spaces(rest).1) else (None, s)
  }

  /** The components group once the release is read: `rest` starts after
      the release. `[^#]+` from the end of the whitespace run; when that is
      empty the matcher gives back the run's last character, which needs
      the run to be at least two long. */
  function ComponentsPart(rest: string): (r: Option<string>)
    ensures r.Some? ==> r.value != [] && '#' !in r.value
  {
    var (gap, tail) := Spaces(rest);
    var cs := UpToHash(tail);
    if gap == [] then None
    else if cs != [] then Some(cs)
    else if |gap| >= 2 then Some([gap[|gap| - 1]])
    else None
  }

  /** The groups after the type: `\s+`, the optional block, the URL, `\s+`,
      the release and the components. */
  function MatchFields(kind: SourceKind, s: string): (r: Option<SourceLine>)
    ensures r.Some? ==> r.value.kind == kind
    ensures r.Some? ==> IsHttpUrl(r.value.url) && IsWord(r.value.url)
    ensures r.Some? ==> IsWord(r.value.release)
    ensures r.Some? ==> r.value.components != [] && '#' !in r.value.components
    ensures r.Some? && r.value.options.Some? ==> IsOptionBlock(r.value.options.value) && IsWord(r.value.options.value)
  {
    var (options, s1) := OptionsPart(Spaces(s).1);
    var (url, s2) := Word(s1);
    if !IsHttpUrl(url) || s2 == [] then None
    else
      match ReleasePart(s2)
      case None => None
      case Some((release, cs)) => Some(SourceLine(kind, options, url, release, cs))
  }

  /** `\s+(?P<release>\S+)\s+(?P<components>[^#]+)` after the URL. */
  function ReleasePart(s: string): (r: Option<(string, string)>)
    ensures r.Some? ==> IsWord(r.value.0)
    ensures r.Some? ==> r.value.1 != [] && '#' !in r.value.1
  {
    var (release, rest) := Word(Spaces(s).1);
    if release == [] then None
    else match ComponentsPart(rest)
      case None => None
      case Some(cs) => Some((release, cs))
  }

  /** `SOURCES_LINE_PAT.match(s)`. Every `\s+` and `\S+` before the
      components is forced to be maximal, since the next item starts with a
      character of the other class. */
  function MatchSourceLine(s: string): (r: Option<SourceLine>)
    ensures r.Some? ==> StartsWith(s, "deb")
    ensures r.Some? ==> (r.value.kind == DebSrc <==> StartsWith(s, "deb-src"))
    ensures r.Some? ==> IsHttpUrl(r.value.url) && IsWord(r.value.url)
    ensures r.Some? ==> IsWord(r.value.release)
    ensures r.Some? ==> r.value.components != [] && '#' !in r.value.components
    ensures r.Some? && r.value.options.Some? ==> IsOptionBlock(r.value.options.value) && IsWord(r.value.options.value)
  {
    match KindAt(s)
    case None => None
    case Some((kind, k)) =>
      MatchFields(kind, s[k..])
  }

  /** The components, `re.split(r"\s+", components)`. */
  function Components(line: SourceLine): (cs: seq<string>)
    ensures |cs| >= 1
  {
    SplitSpace(line.components, 0)
  }

  /** The line an entry is written as, one space between the fields. */
  function Render(e: SourceLine): string {
    KindName(e.kind) + " "
    + (match e.options case None => "" case Some(o) => o + " ")
    + e.url + " " + e.release + " " + e.components
  }

  /** An entry the grammar can read back: every field one word of the
      right shape, and components that start with a word and hold no `#`. */
  predicate WellFormed(e: SourceLine) {
    && IsHttpUrl(e.url) && IsWord(e.url)
    && IsWord(e.release)
    && (e.options.Some? ==> IsOptionBlock(e.options.value) && IsWord(e.options.value))
    && e.components != [] && !IsSpace(e.components[0]) && '#' !in e.components
  }

  // ---------------------------------------------------------------- reading a rendered entry back

  /** A word followed by whitespace (or nothing) is read as that word. */
  lemma WordOf(w: string, r: string)
    requires NoneOf(w, IsSpace)
    requires r == [] || IsSpace(r[0])
    ensures Word(w + r) == (w, r)
  {
    var s := w + r;
    assert s[0..|w|] == w;
    assert |w| < |s| ==> s[|w|] == r[0];
    RunEndSkips(s, 0, |w|, NotSpace);
    assert s[..|w|] == w && s[|w|..] == r;
  }

  /** A whitespace run followed by a non-space (or nothing) is read as that run. */
  lemma SpacesOf(g: string, r: string)
    requires All(g, IsSpace)
    requires r == [] || !IsSpace(r[0])
    ensures Spaces(g + r) == (g, r)
  {
    var s := g + r;
    assert s[0..|g|] == g;
    assert |g| < |s| ==> s[|g|] == r[0];
    RunEndSkips(s, 0, |g|, IsSpace);
    assert s[..|g|] == g && s[|g|..] == r;
  }

  /** One space before a non-space text is dropped by `\s+`. */
  lemma OneSpace(r: string)
    requires r != [] && !IsSpace(r[0])
    ensures Spaces(" " + r) == (" ", r)
  {
    SpacesOf(" ", r);
  }

  /** The type word and the single space after it. */
  lemma KindOfRendered(kind: SourceKind, body: string)
    ensures KindAt(KindName(kind) + " " + body) == Some((kind, |KindName(kind)|))
  {
    var s := KindName(kind) + " " + body;
    assert s[..3] == "deb";
    if kind == Deb {
      assert s[3] == ' ';
    } else {
      assert s[3] == '-';
      assert s[..7] == "deb-src";
      assert s[7] == ' ';
    }
  }

  /** Components that start with a non-space and hold no `#` are read whole. */
  lemma ComponentsOf(cs: string)
    requires cs != [] && !IsSpace(cs[0]) && '#' !in cs
    ensures ComponentsPart(" " + cs) == Some(cs)
  {
    OneSpace(cs);
  }

  /** Release and components after the URL. */
  lemma ReleaseOf(release: string, cs: string)
    requires IsWord(release)
    requires cs != [] && !IsSpace(cs[0]) && '#' !in cs
    ensures ReleasePart(" " + release + " " + cs) == Some((release, cs))
  {
    var after := release + " " + cs;
    assert " " + release + " " + cs == " " + after;
    assert after[0] == release[0];
    OneSpace(after);
    assert after == release + (" " + cs);
    WordOf(release, " " + cs);
    ComponentsOf(cs);
  }

  /** Text that renders the fields after the type, starting at the URL. */
  function RenderTail(e: SourceLine): string {
    e.url + " " + e.release + " " + e.components
  }

  /** The fields after the type and its space, options block and all. */
  function RenderBody(e: SourceLine): string {
    (match e.options case None => "" case Some(o) => o + " ") + RenderTail(e)
  }

  lemma RenderSplits(e: SourceLine)
    ensures Render(e) == KindName(e.kind) + " " + RenderBody(e)
  {
  }

  /** The options block, if any, and then the URL word. */
  lemma OptionsOf(e: SourceLine)
    requires WellFormed(e)
    ensures OptionsPart(RenderBody(e)) == (e.options, RenderTail(e))
  {
    var t := RenderTail(e);
    assert t == e.url + (" " + e.release + " " + e.components);
    assert t[0] == e.url[0] == 'h';
    match e.options
    case None =>
      assert RenderBody(e) == t;
      WordOf(e.url, " " + e.release + " " + e.components);
      assert !IsOptionBlock(e.url);
    case Some(o) =>
      assert RenderBody(e) == o + (" " + t);
      WordOf(o, " " + t);
      OneSpace(t);
  }

  /** The URL and the fields after it. */
  lemma TailOf(e: SourceLine)
    requires WellFormed(e)
    ensures var (url, s2) := Word(RenderTail(e));
      url == e.url && s2 == " " + e.release + " " + e.components
  {
    var rest := " " + e.release + " " + e.components;
    assert RenderTail(e) == e.url + rest;
    WordOf(e.url, rest);
  }

  /** A well-formed entry, written with single spaces, reads back as itself:
      `SOURCES_LINE_PAT` inverts the rendering. */
  lemma MatchRendered(e: SourceLine)
    requires WellFormed(e)
    ensures MatchSourceLine(Render(e)) == Some(e)
  {
    var body := RenderBody(e);
    RenderSplits(e);
    KindOfRendered(e.kind, body);
    var s := Render(e);
    var k := |KindName(e.kind)|;
    assert s[k..] == " " + body;
    var b0 := (match e.options case None => e.url case Some(o) => o)[0];
    assert body[0] == b0;
    assert !IsSpace(b0);
    OneSpace(body);
    OptionsOf(e);
    TailOf(e);
    ReleaseOf(e.release, e.components);
  }

  /** Components written as words joined by single spaces come back as
      those words from `re.split(r"\s+", components)`. */
  lemma ComponentsRendered(e: SourceLine, words: seq<string>)
    requires WellFormed(e)
    requires |words| >= 1
    requires forall k :: 0 <= k < |words| ==> words[k] != [] && NoneOf(words[k], IsSpace)
    requires e.components == Join(words, " ")
    ensures MatchSourceLine(Render(e)).Some?
    ensures Components(MatchSourceLine(Render(e)).value) == words
  {
    MatchRendered(e);
    SplitSpaceJoin(words);
  }
}
