/** The Python `str` primitives both scripts are built from: `isspace`,
    `strip`, `startswith`, `index`, `split`, `re.split(r"\s+", ...)`,
    `splitlines`, `lower`, `int`, `replace` and `os.path.join`, each written
    out with Python's semantics so the modules above can follow the source
    line by line. */
module PyStr {
  import opened Outcome

  /** Python's `str.isspace()`, which is also what the regex class `\s`
      and the argument-less `strip()` use. */
  predicate IsSpace(c: char) {
    || ('\t' <= c <= '\r')
    || ('\U{1c}' <= c <= ' ')
    || c == '\U{85}' || c == '\U{a0}' || c == '\U{1680}'
    || ('\U{2000}' <= c <= '\U{200a}')
    || c == '\U{2028}' || c == '\U{2029}' || c == '\U{202f}' || c == '\U{205f}'
    || c == '\U{3000}'
  }

  /** The characters `str.splitlines()` treats as line boundaries. */
  predicate IsLineBreak(c: char) {
    || ('\n' <= c <= '\r')
    || ('\U{1c}' <= c <= '\U{1e}')
    || c == '\U{85}' || c == '\U{2028}' || c == '\U{2029}'
  }

  predicate IsNewline(c: char) {
    c == '\n'
  }

  predicate IsDigit(c: char) {
    '0' <= c <= '9'
  }

  predicate IsUpper(c: char) {
    'A' <= c <= 'Z'
  }

  /** Every character of `s` satisfies `p`. */
  predicate All(s: string, p: char -> bool) {
    forall i :: 0 <= i < |s| ==> p(s[i])
  }

  /** No character of `s` satisfies `p`. */
  predicate NoneOf(s: string, p: char -> bool) {
    forall i :: 0 <= i < |s| ==> !p(s[i])
  }

  predicate StartsWith(s: string, prefix: string) {
    |prefix| <= |s| && s[..|prefix|] == prefix
  }

  predicate EndsWith(s: string, suffix: string) {
    |suffix| <= |s| && s[|s| - |suffix|..] == suffix
  }

  // ---------------------------------------------------------------- strip

  /** `s.lstrip(chars)` for the character class `drop`. */
  function TrimLeft(s: string, drop: char -> bool): (r: string)
    ensures |r| <= |s| && r == s[|s| - |r|..]
    ensures All(s[..|s| - |r|], drop)
    ensures r != [] ==> !drop(r[0])
    decreases |s|
  {
    if s != [] && drop(s[0]) then TrimLeft(s[1..], drop) else s
  }

  /** `s.rstrip(chars)` for the character class `drop`. */
  function TrimRight(s: string, drop: char -> bool): (r: string)
    ensures |r| <= |s| && r == s[..|r|]
    ensures All(s[|r|..], drop)
    ensures r != [] ==> !drop(r[|r| - 1])
    decreases |s|
  {
    if s != [] && drop(s[|s| - 1]) then TrimRight(s[..|s| - 1], drop) else s
  }

  /** `s.strip(chars)`: `drop` characters removed at both ends. */
  function StripBy(s: string, drop: char -> bool): (r: string)
    ensures |r| <= |s|
    ensures r != [] ==> !drop(r[0]) && !drop(r[|r| - 1])
  {
    var l := TrimLeft(s, drop);
    var r := TrimRight(l, drop);
    assert r != [] ==> r[0] == l[0];
    r
  }

  /** The stripped text is a slice of `s` with only `drop` characters
      around it. */
  lemma StripIsSlice(s: string, drop: char -> bool)
    ensures exists i :: (&& 0 <= i <= |s| - |StripBy(s, drop)|
                         && StripBy(s, drop) == s[i..i + |StripBy(s, drop)|]
                         && All(s[..i], drop) && All(s[i + |StripBy(s, drop)|..], drop))
  {
    var l := TrimLeft(s, drop);
    var r := TrimRight(l, drop);
    var i := |s| - |l|;
    InnerSlice(s, l, r, i);
    assert All(l[|r|..], drop);
  }

  /** Trimming on the right never cuts into a prefix that ends with a kept
      character. */
  lemma {:induction false} TrimRightKeepsPrefix(s: string, p: string, drop: char -> bool)
    requires StartsWith(s, p) && p != [] && !drop(p[|p| - 1])
    ensures StartsWith(TrimRight(s, drop), p)
    decreases |s|
  {
    if drop(s[|s| - 1]) {
      assert s[|p| - 1] == p[|p| - 1];
      assert s[..|s| - 1][..|p|] == p;
      TrimRightKeepsPrefix(s[..|s| - 1], p, drop);
    }
  }

  lemma InnerSlice(s: string, l: string, r: string, i: nat)
    requires i <= |s| && l == s[i..]
    requires |r| <= |l| && r == l[..|r|]
    ensures r == s[i..i + |r|] && l[|r|..] == s[i + |r|..]
  {
  }

  /** `s.strip()`. */
  function Strip(s: string): string {
    StripBy(s, IsSpace)
  }

  /** `s.strip("\n")`. */
  function StripNewlines(s: string): string {
    StripBy(s, IsNewline)
  }

  /** `s` has nothing for `strip()` to remove. */
  predicate IsStripped(s: string) {
    s == [] || (!IsSpace(s[0]) && !IsSpace(s[|s| - 1]))
  }

  /** `strip()` leaves nothing for another `strip()` to remove. */
  lemma StripStripped(s: string)
    ensures IsStripped(Strip(s))
  {
  }

  lemma TrimLeftKeeps(s: string, drop: char -> bool)
    requires s == [] || !drop(s[0])
    ensures TrimLeft(s, drop) == s
  {
  }

  lemma TrimRightKeeps(s: string, drop: char -> bool)
    requires s == [] || !drop(s[|s| - 1])
    ensures TrimRight(s, drop) == s
  {
  }

  lemma {:induction false} TrimLeftPadded(a: string, x: string, drop: char -> bool)
    requires All(a, drop)
    requires x == [] || !drop(x[0])
    ensures TrimLeft(a + x, drop) == x
    decreases |a|
  {
    if a == [] {
      assert a + x == x;
      TrimLeftKeeps(x, drop);
    } else {
      assert (a + x)[1..] == a[1..] + x;
      TrimLeftPadded(a[1..], x, drop);
    }
  }

  lemma {:induction false} TrimRightPadded(x: string, b: string, drop: char -> bool)
    requires All(b, drop)
    requires x == [] || !drop(x[|x| - 1])
    ensures TrimRight(x + b, drop) == x
    decreases |b|
  {
    if b == [] {
      assert x + b == x;
      TrimRightKeeps(x, drop);
    } else {
      assert (x + b)[..|x + b| - 1] == x + b[..|b| - 1];
      TrimRightPadded(x, b[..|b| - 1], drop);
    }
  }

  /** Stripping a padded string gives back the unpadded core. */
  lemma StripPadded(a: string, x: string, b: string, drop: char -> bool)
    requires All(a, drop) && All(b, drop)
    requires x == [] || (!drop(x[0]) && !drop(x[|x| - 1]))
    ensures StripBy(a + x + b, drop) == x
  {
    if x == [] {
      assert a + x + b == a + b;
      TrimLeftPadded(a + b, [], drop);
      assert a + b + [] == a + b;
      TrimRightKeeps([], drop);
    } else {
      assert a + x + b == a + (x + b);
      TrimLeftPadded(a, x + b, drop);
      TrimRightPadded(x, b, drop);
    }
  }

  lemma StripKeeps(s: string, drop: char -> bool)
    requires s == [] || (!drop(s[0]) && !drop(s[|s| - 1]))
    ensures StripBy(s, drop) == s
  {
    StripPadded([], s, [], drop);
    assert [] + s + [] == s;
  }

  // ---------------------------------------------------------------- search

  predicate OccursAt(s: string, pat: string, i: int) {
    0 <= i && i + |pat| <= |s| && s[i..i + |pat|] == pat
  }

  /** `s` has no occurrence of `pat`. */
  predicate Free(s: string, pat: string) {
    forall i :: 0 <= i <= |s| ==> !OccursAt(s, pat, i)
  }

  function FindFrom(s: string, pat: string, from: nat): (r: Option<nat>)
    requires from <= |s|
    ensures r.Some? ==> (from <= r.value && OccursAt(s, pat, r.value)
                         && forall j :: from <= j < r.value ==> !OccursAt(s, pat, j))
    ensures r.None? ==> forall j :: from <= j ==> !OccursAt(s, pat, j)
    decreases |s| - from
  {
    if OccursAt(s, pat, from) then Some(from)
    else if from + |pat| >= |s| then None
    else FindFrom(s, pat, from + 1)
  }

  /** `s.find(pat)`: the first occurrence of `pat`, if any. */
  function Find(s: string, pat: string): (r: Option<nat>)
    ensures r.Some? ==> (OccursAt(s, pat, r.value)
                         && forall j :: 0 <= j < r.value ==> !OccursAt(s, pat, j))
    ensures r.None? <==> Free(s, pat)
  {
    FindFrom(s, pat, 0)
  }

  /** First index of a character of class `p`, if any. */
  function FirstOf(s: string, p: char -> bool): (r: Option<nat>)
    ensures r.Some? ==> r.value < |s| && p(s[r.value]) && NoneOf(s[..r.value], p)
    ensures r.None? ==> NoneOf(s, p)
    decreases |s|
  {
    if s == [] then None
    else if p(s[0]) then Some(0)
    else match FirstOf(s[1..], p)
      case None => None
      case Some(i) => Some(i + 1)
  }

  /** End of the run of `p` characters that starts at `i`. */
  function RunEnd(s: string, i: nat, p: char -> bool): (j: nat)
    requires i <= |s|
    ensures i <= j <= |s|
    ensures All(s[i..j], p)
    ensures j < |s| ==> !p(s[j])
    decreases |s| - i
  {
    if i < |s| && p(s[i]) then RunEnd(s, i + 1, p) else i
  }

  /** A run of `p` characters from `i` to `j` that nothing of class `p`
      extends ends exactly at `j`. */
  lemma {:induction false} RunEndSkips(s: string, i: nat, j: nat, p: char -> bool)
    requires i <= j <= |s|
    requires All(s[i..j], p)
    requires j == |s| || !p(s[j])
    ensures RunEnd(s, i, p) == j
    decreases j - i
  {
    if i < j {
      assert p(s[i..j][0]);
      assert s[i + 1..j] == s[i..j][1..];
      RunEndSkips(s, i + 1, j, p);
    }
  }

  /** A run that starts at the front of `a + t` ends inside `a` or, when
      it covers all of `a`, continues as the run at the front of `t`. */
  lemma RunEndAppend(a: string, t: string, p: char -> bool)
    ensures RunEnd(a + t, 0, p)
         == (if RunEnd(a, 0, p) < |a| then RunEnd(a, 0, p) else |a| + RunEnd(t, 0, p))
  {
    var s := a + t;
    var k := RunEnd(a, 0, p);
    if k < |a| {
      assert s[0..k] == a[0..k];
      assert s[k] == a[k];
      RunEndSkips(s, 0, k, p);
    } else {
      var j := RunEnd(t, 0, p);
      assert s[0..|a| + j] == a[0..k] + t[0..j];
      assert |a| + j < |s| ==> s[|a| + j] == t[j];
      RunEndSkips(s, 0, |a| + j, p);
    }
  }

  // ---------------------------------------------------------------- split / join

  /** `sep.join(parts)`. */
  function Join(parts: seq<string>, sep: string): string
    decreases |parts|
  {
    if parts == [] then []
    else if |parts| == 1 then parts[0]
    else parts[0] + sep + Join(parts[1..], sep)
  }

  /** One part joins to itself. */
  lemma JoinSingle(parts: seq<string>, sep: string)
    requires |parts| == 1
    ensures Join(parts, sep) == parts[0]
  {
  }

  lemma FreePrefix(s: string, pat: string, i: nat)
    requires i <= |s|
    requires forall j :: 0 <= j < i ==> !OccursAt(s, pat, j)
    requires pat != []
    ensures Free(s[..i], pat)
  {
    forall j | OccursAt(s[..i], pat, j)
      ensures false
    {
      assert s[..i][j..j + |pat|] == s[j..j + |pat|];
      assert OccursAt(s, pat, j);
    }
  }

  /** `s.split(sep)` for a non-empty separator: the pieces between the
      non-overlapping occurrences of `sep`, scanning left to right. */
  function Split(s: string, sep: string): (parts: seq<string>)
    requires sep != []
    ensures |parts| >= 1
    ensures Join(parts, sep) == s
    ensures forall k :: 0 <= k < |parts| ==> Free(parts[k], sep)
    decreases |s|
  {
    match Find(s, sep)
    case None => [s]
    case Some(i) =>
      FreePrefix(s, sep, i);
      var rest := Split(s[i + |sep|..], sep);
      var parts := [s[..i]] + rest;
      assert parts[1..] == rest;
      assert s == s[..i] + sep + s[i + |sep|..];
      parts
  }

  lemma FreeOfChar(s: string, c: char)
    ensures Free(s, [c]) <==> c !in s
  {
    if c in s {
      var i :| 0 <= i < |s| && s[i] == c;
      assert s[i..i + 1] == [c];
      assert OccursAt(s, [c], i);
    } else {
      forall i | 0 <= i <= |s|
        ensures !OccursAt(s, [c], i)
      {
        if i + 1 <= |s| {
          assert s[i..i + 1] == [s[i]];
        }
      }
    }
  }

  /** Appending text does not move the first occurrence of a pattern. */
  lemma FindExtend(a: string, t: string, pat: string, i: nat)
    requires Find(a, pat) == Some(i)
    ensures Find(a + t, pat) == Some(i)
  {
    var s := a + t;
    assert s[i..i + |pat|] == a[i..i + |pat|];
    assert OccursAt(s, pat, i);
    forall j | 0 <= j < i
      ensures !OccursAt(s, pat, j)
    {
      assert !OccursAt(a, pat, j);
      assert s[j..j + |pat|] == a[j..j + |pat|];
    }
  }

  /** In `a + [c] + b` with `c` absent from `a`, the first `c` is the
      inserted one. */
  lemma FindInsertedChar(a: string, b: string, c: char)
    requires c !in a
    ensures Find(a + [c] + b, [c]) == Some(|a|)
  {
    var s := a + [c] + b;
    assert s[|a|..|a| + 1] == [c];
    assert OccursAt(s, [c], |a|);
    forall j | 0 <= j < |a|
      ensures !OccursAt(s, [c], j)
    {
      assert s[j..j + 1] == [a[j]];
    }
  }

  /** Splitting on a single character distributes over a concatenation
      around that character. */
  lemma {:induction false} SplitAroundChar(a: string, b: string, c: char)
    ensures Split(a + [c] + b, [c]) == Split(a, [c]) + Split(b, [c])
    decreases |a|
  {
    var s := a + [c] + b;
    match Find(a, [c])
    case None =>
      FreeOfChar(a, c);
      FindInsertedChar(a, b, c);
      assert s[..|a|] == a;
      assert s[|a| + 1..] == b;
    case Some(i) =>
      FindExtend(a, [c] + b, [c], i);
      assert s == a + ([c] + b);
      assert s[..i] == a[..i];
      assert s[i + 1..] == a[i + 1..] + [c] + b;
      SplitAroundChar(a[i + 1..], b, c);
  }

  /** A string without `c` is its own single piece. */
  lemma SplitWithoutChar(s: string, c: char)
    requires c !in s
    ensures Split(s, [c]) == [s]
  {
    FreeOfChar(s, c);
  }

  /** Splitting the join of `c`-free pieces on `c` gives the pieces back. */
  lemma {:induction false} SplitJoinChar(parts: seq<string>, c: char)
    requires |parts| >= 1
    requires forall k :: 0 <= k < |parts| ==> c !in parts[k]
    ensures Split(Join(parts, [c]), [c]) == parts
    decreases |parts|
  {
    if |parts| == 1 {
      SplitWithoutChar(parts[0], c);
    } else {
      assert Join(parts, [c]) == parts[0] + [c] + Join(parts[1..], [c]);
      SplitJoinChar(parts[1..], c);
      SplitAroundChar(parts[0], Join(parts[1..], [c]), c);
      SplitWithoutChar(parts[0], c);
      assert parts == [parts[0]] + parts[1..];
    }
  }

  // ---------------------------------------------------------------- re.split(r"\s+")

  function DecBudget(budget: Option<nat>): Option<nat> {
    match budget
    case None => None
    case Some(b) => if b == 0 then Some(0) else Some(b - 1)
  }

  /** `re.split(r"\s+", s)` with at most `budget` splits (`None`: no limit). */
  function SplitSpaceUpTo(s: string, budget: Option<nat>): (parts: seq<string>)
    ensures |parts| >= 1
    ensures budget.Some? ==> |parts| <= budget.value + 1
    ensures forall k :: 0 <= k < |parts| - 1 ==> NoneOf(parts[k], IsSpace)
    ensures budget.None? || |parts| <= budget.value ==> NoneOf(parts[|parts| - 1], IsSpace)
    decreases |s|
  {
    if budget == Some(0) then [s]
    else match FirstOf(s, IsSpace)
      case None => [s]
      case Some(i) =>
        var j := RunEnd(s, i, IsSpace);
        [s[..i]] + SplitSpaceUpTo(s[j..], DecBudget(budget))
  }

  /** A non-empty stripped text splits into non-empty parts, and the last
      part is stripped as well. */
  lemma {:induction false} SplitSpaceParts(s: string, budget: Option<nat>)
    ensures s != [] && IsStripped(s) ==> WordParts(SplitSpaceUpTo(s, budget))
    decreases |s|
  {
    if s != [] && IsStripped(s) {
      if budget == Some(0) || FirstOf(s, IsSpace).None? {
        SplitSpaceWhole(s, budget);
      } else {
        var i := FirstOf(s, IsSpace).value;
        var j := RunEnd(s, i, IsSpace);
        SplitSpaceUnfold(s, budget, i);
        SpaceRunInside(s, i);
        SplitSpaceParts(s[j..], DecBudget(budget));
        PartsCons(s[..i], SplitSpaceUpTo(s[j..], DecBudget(budget)));
      }
    }
  }

  /** With no split left, or no whitespace, the text is the only part. */
  lemma SplitSpaceWhole(s: string, budget: Option<nat>)
    requires budget == Some(0) || FirstOf(s, IsSpace).None?
    ensures SplitSpaceUpTo(s, budget) == [s]
  {
  }

  /** One split: the text before the first whitespace run, then the rest
      split with one split fewer. */
  lemma SplitSpaceUnfold(s: string, budget: Option<nat>, i: nat)
    requires budget != Some(0) && FirstOf(s, IsSpace) == Some(i)
    ensures SplitSpaceUpTo(s, budget)
         == [s[..i]] + SplitSpaceUpTo(s[RunEnd(s, i, IsSpace)..], DecBudget(budget))
  {
  }

  /** A whitespace run inside a stripped text starts after its first
      character and ends before its last. */
  lemma SpaceRunInside(s: string, i: nat)
    requires s != [] && IsStripped(s) && i < |s| && IsSpace(s[i])
    ensures 0 < i && RunEnd(s, i, IsSpace) < |s|
    ensures var t := s[RunEnd(s, i, IsSpace)..]; t != [] && IsStripped(t)
  {
    var j := RunEnd(s, i, IsSpace);
    var t := s[j..];
    assert t[0] == s[j] && t[|t| - 1] == s[|s| - 1];
  }

  /** Split parts none of which is empty, the last one stripped. */
  predicate WordParts(ps: seq<string>) {
    && ps != []
    && (forall k :: 0 <= k < |ps| ==> ps[k] != [])
    && IsStripped(ps[|ps| - 1])
  }

  /** Putting a non-empty part in front keeps the parts word-like. */
  lemma PartsCons(h: string, rest: seq<string>)
    requires h != [] && WordParts(rest)
    ensures WordParts([h] + rest)
  {
    assert forall k :: 1 <= k < |[h] + rest| ==> ([h] + rest)[k] == rest[k - 1];
  }

  /** `re.split(r"\s+", s, maxsplit)`; as in Python, `maxsplit == 0` means
      no limit. */
  function SplitSpace(s: string, maxsplit: nat): seq<string> {
    SplitSpaceUpTo(s, if maxsplit == 0 then None else Some(maxsplit))
  }

  /** A non-empty space-free token followed by one space splits off as the
      first field. */
  lemma SplitSpaceCons(t: string, rest: string, budget: Option<nat>)
    requires t != [] && NoneOf(t, IsSpace)
    requires rest == [] || !IsSpace(rest[0])
    requires budget != Some(0)
    ensures SplitSpaceUpTo(t + " " + rest, budget)
         == [t] + SplitSpaceUpTo(rest, DecBudget(budget))
  {
    var s := t + " " + rest;
    var u := " " + rest;
    assert s == t + u;
    FirstOfAppend(t, u, IsSpace);
    assert FirstOf(u, IsSpace) == Some(0);
    assert s[|t|] == ' ';
    assert s[|t|..|t| + 1] == " ";
    assert |t| + 1 < |s| ==> s[|t| + 1] == rest[0];
    RunEndSkips(s, |t|, |t| + 1, IsSpace);
    assert s[|t| + 1..] == rest;
  }

  lemma {:induction false} FirstOfAppend(a: string, b: string, p: char -> bool)
    requires NoneOf(a, p)
    ensures FirstOf(a + b, p) == (match FirstOf(b, p) case None => None case Some(i) => Some(|a| + i))
    decreases |a|
  {
    if a != [] {
      assert (a + b)[1..] == a[1..] + b;
      FirstOfAppend(a[1..], b, p);
    } else {
      assert a + b == b;
    }
  }

  /** Splitting space-joined tokens on whitespace gives the tokens back. */
  lemma {:induction false} SplitSpaceJoin(tokens: seq<string>)
    requires |tokens| >= 1
    requires forall k :: 0 <= k < |tokens| ==> tokens[k] != [] && NoneOf(tokens[k], IsSpace)
    ensures SplitSpaceUpTo(Join(tokens, " "), None) == tokens
    decreases |tokens|
  {
    if |tokens| == 1 {
      assert FirstOf(tokens[0], IsSpace).None?;
    } else {
      var rest := Join(tokens[1..], " ");
      JoinHead(tokens[1..], " ");
      SplitSpaceCons(tokens[0], rest, None);
      assert Join(tokens, " ") == tokens[0] + " " + rest;
      SplitSpaceJoin(tokens[1..]);
      assert tokens == [tokens[0]] + tokens[1..];
    }
  }

  /** A join starts with the first part. */
  lemma JoinHead(parts: seq<string>, sep: string)
    requires |parts| >= 1
    ensures StartsWith(Join(parts, sep), parts[0])
  {
    if |parts| > 1 {
      assert Join(parts, sep) == parts[0] + (sep + Join(parts[1..], sep));
    }
  }

  // ---------------------------------------------------------------- splitlines

  /** `s.splitlines()`: lines cut at every line boundary, `\r\n` counting as
      one boundary; a final boundary does not open an empty last line. */
  function SplitLines(s: string): (lines: seq<string>)
    ensures s == [] <==> lines == []
    ensures forall k :: 0 <= k < |lines| ==> NoneOf(lines[k], IsLineBreak)
    decreases |s|
  {
    if s == [] then []
    else match FirstOf(s, IsLineBreak)
      case None => [s]
      case Some(i) =>
        var j := if s[i] == '\r' && i + 1 < |s| && s[i + 1] == '\n' then i + 2 else i + 1;
        [s[..i]] + SplitLines(s[j..])
  }

  // ---------------------------------------------------------------- lower / replace

  function LowerChar(c: char): char {
    if IsUpper(c) then (c as int + 32) as char else c
  }

  /** `s.lower()` restricted to ASCII letters. */
  function Lower(s: string): (r: string)
    ensures |r| == |s|
    ensures NoneOf(r, IsUpper)
  {
    seq(|s|, i requires 0 <= i < |s| => LowerChar(s[i]))
  }

  lemma LowerKeeps(s: string)
    requires NoneOf(s, IsUpper)
    ensures Lower(s) == s
  {
  }

  /** `s.replace(a, b)` for single characters. */
  function ReplaceChar(s: string, a: char, b: char): (r: string)
    ensures |r| == |s|
    ensures a != b ==> a !in r
  {
    seq(|s|, i requires 0 <= i < |s| => if s[i] == a then b else s[i])
  }

  // ---------------------------------------------------------------- int() / str()

  function DigitValue(c: char): nat
    requires IsDigit(c)
  {
    c as int - '0' as int
  }

  function DigitChar(d: nat): char
    requires d < 10
  {
    ('0' as int + d) as char
  }

  /** The value of a string of decimal digits. */
  function DecimalValue(s: string): nat
    requires All(s, IsDigit)
    decreases |s|
  {
    if s == [] then 0 else 10 * DecimalValue(s[..|s| - 1]) + DigitValue(s[|s| - 1])
  }

  /** `int(s)` on ASCII decimal digits: defined exactly when `s` is a
      non-empty digit string. */
  function ParseDecimal(s: string): (r: Option<nat>)
    ensures r.Some? <==> s != [] && All(s, IsDigit)
  {
    if s != [] && All(s, IsDigit) then Some(DecimalValue(s)) else None
  }

  /** `str(n)`: the shortest decimal rendering of `n`. */
  function Digits(n: nat): (s: string)
    ensures s != [] && All(s, IsDigit)
    ensures DecimalValue(s) == n
    decreases n
  {
    if n < 10 then [DigitChar(n)]
    else
      var s := Digits(n / 10) + [DigitChar(n % 10)];
      assert s[..|s| - 1] == Digits(n / 10);
      s
  }

  /** `int(str(n)) == n`. */
  lemma ParseDigits(n: nat)
    ensures ParseDecimal(Digits(n)) == Some(n)
  {
  }

  // ---------------------------------------------------------------- os.path.join

  /** `posixpath.join(a, b)`: an absolute `b` replaces `a`; otherwise one `/`
      separates them unless `a` is empty or already ends with one. */
  function JoinPath(a: string, b: string): string {
    if StartsWith(b, "/") then b
    else if a == [] || EndsWith(a, "/") then a + b
    else a + "/" + b
  }

  /** `p` followed by the separator `JoinPath` would put after it. */
  function WithSlash(p: string): (r: string)
    ensures StartsWith(r, p) && |r| <= |p| + 1
    ensures r == [] || EndsWith(r, "/")
  {
    if p == [] || EndsWith(p, "/") then p else p + "/"
  }

  /** A joined path ends with its last part; a relative part is appended to
      the first part and at most one separator. */
  lemma JoinPathParts(a: string, b: string)
    ensures EndsWith(JoinPath(a, b), b)
    ensures StartsWith(b, "/") ==> JoinPath(a, b) == b
    ensures !StartsWith(b, "/") ==> JoinPath(a, b) == WithSlash(a) + b
  {
    var r := JoinPath(a, b);
    assert r[|r| - |b|..] == b;
  }
}
