/** The control-stanza parser `parse_package_metadata` (aptparser.py), which
    apt-mirror.py repeats inline. A stanza is a run of `Key: value` header
    lines, each optionally followed by continuation lines that begin with a
    space (Debian Policy Manual section 5.1); a continuation consisting of a
    lone `.` stands for an empty line (section 5.6.13). */
module Control {
  import opened Outcome
  import opened PyStr

  /** A field value: text, or the integer a `Size` field is coerced to. */
  datatype Value = Text(text: string) | Number(n: nat)

  /** A parsed stanza: lower-cased field name to value. */
  type Record = map<string, Value>

  /** Only the `size` field may hold an integer. */
  predicate WellTyped(rec: Record) {
    forall k :: k in rec && k != "size" ==> rec[k].Text?
  }

  predicate IsContinuation(line: string) {
    StartsWith(line, " ")
  }

  /** The text one continuation line adds to its field: the stripped line,
      with a lone `.` standing for an empty line. */
  function FoldLine(line: string): string {
    var t := Strip(line);
    if t == "." then "" else t
  }

  function FoldAll(conts: seq<string>): (r: seq<string>)
    ensures |r| == |conts|
  {
    seq(|conts|, i requires 0 <= i < |conts| => FoldLine(conts[i]))
  }

  /** Length of the run of continuation lines at the front of `lines`. */
  function ContinuationRun(lines: seq<string>): (n: nat)
    ensures n <= |lines|
    ensures forall i :: 0 <= i < n ==> IsContinuation(lines[i])
    ensures n < |lines| ==> !IsContinuation(lines[n])
    decreases |lines|
  {
    if lines != [] && IsContinuation(lines[0]) then 1 + ContinuationRun(lines[1..]) else 0
  }

  /** One field: a header line split at its first `": "`, and the
      continuation lines that follow it. */
  function ParseField(header: string, conts: seq<string>): Result<(string, Value)> {
    match Find(header, ": ")
    case None => Err(MalformedLine(header))
    case Some(i) =>
      var key := header[..i];
      var raw := header[i + 2..];
      if key == "Size" then
        match ParseDecimal(raw)
        case None => Err(BadSize(raw))
        case Some(n) => if conts == [] then Ok((Lower(key), Number(n))) else Err(FoldedSize)
      else
        Ok((Lower(key), Text(Join([raw] + FoldAll(conts), "\n"))))
  }

  /** A header fails exactly when it has no `": "`, or when it is a `Size`
      header whose value is no decimal or that has continuation lines; the
      key is lower case, and an integer value comes only from `Size`. */
  lemma FieldShape(header: string, conts: seq<string>)
    ensures var r := ParseField(header, conts);
      && (r.Err? <==> (|| Free(header, ": ")
                       || (StartsWith(header, "Size: ")
                           && (ParseDecimal(header[6..]).None? || conts != []))))
      && (r.Ok? ==> NoneOf(r.value.0, IsUpper))
      && (r.Ok? ==> (r.value.1.Number? <==> StartsWith(header, "Size: ")))
      && (r.Ok? && r.value.1.Number? ==> r.value.0 == "size")
  {
    match Find(header, ": ")
    case None =>
    case Some(i) =>
      SizeHeader(header, i);
      if header[..i] == "Size" {
        assert Lower("Size") == "size";
      }
  }

  /** The header's key is `Size` exactly when the header starts with `Size: `. */
  lemma SizeHeader(header: string, i: nat)
    requires Find(header, ": ") == Some(i)
    ensures header[..i] == "Size" <==> StartsWith(header, "Size: ")
  {
    if StartsWith(header, "Size: ") {
      FreeWithoutHead("Size", ": ");
      assert header == "Size" + ": " + header[6..];
      FindAfterKey("Size", header[6..]);
    }
    if header[..i] == "Size" {
      assert header[..6] == header[..i] + header[i..i + 2];
    }
  }

  /** The fields of `lines`, front to back; a later field overwrites an
      earlier one of the same (lower-cased) name. */
  function ParseLines(lines: seq<string>, acc: Record): Result<Record>
    decreases |lines|
  {
    if lines == [] then Ok(acc)
    else
      var n := ContinuationRun(lines[1..]);
      var field :- ParseField(lines[0], lines[1..1 + n]);
      ParseLines(lines[1 + n..], acc[field.0 := field.1])
  }

  /** The lines of a stanza once surrounding newlines are dropped. */
  function StanzaLines(text: string): seq<string> {
    Split(StripNewlines(text), "\n")
  }

  /** Fields are only ever added: every key the lines add is lower case,
      only `size` may receive an integer, and at least one key results. */
  lemma {:induction false} ParseLinesShape(lines: seq<string>, acc: Record)
    requires ParseLines(lines, acc).Ok?
    ensures acc.Keys <= ParseLines(lines, acc).value.Keys
    ensures lines != [] ==> ParseLines(lines, acc).value != map[]
    ensures forall k :: k in ParseLines(lines, acc).value && k !in acc ==> NoneOf(k, IsUpper)
    ensures WellTyped(acc) ==> WellTyped(ParseLines(lines, acc).value)
    decreases |lines|
  {
    if lines != [] {
      var n := ContinuationRun(lines[1..]);
      FieldShape(lines[0], lines[1..1 + n]);
      var field := ParseField(lines[0], lines[1..1 + n]).value;
      ParseLinesShape(lines[1 + n..], acc[field.0 := field.1]);
      assert field.0 in acc[field.0 := field.1];
    }
  }

  /** `parse_package_metadata(text)`. */
  function ParseStanza(text: string): Result<Record> {
    ParseLines(StanzaLines(text), map[])
  }

  /** A parsed stanza is a non-empty record with lower-case keys, and only
      `size` may hold an integer. */
  lemma StanzaShape(text: string)
    requires ParseStanza(text).Ok?
    ensures ParseStanza(text).value != map[]
    ensures forall k :: k in ParseStanza(text).value ==> NoneOf(k, IsUpper)
    ensures WellTyped(ParseStanza(text).value)
  {
    ParseLinesShape(StanzaLines(text), map[]);
  }

  // ---------------------------------------------------------------- sequencing

  lemma {:induction false} ContinuationRunAppend(xs: seq<string>, ys: seq<string>)
    requires ys == [] || !IsContinuation(ys[0])
    ensures ContinuationRun(xs + ys) == ContinuationRun(xs)
    decreases |xs|
  {
    if xs == [] {
      assert xs + ys == ys;
    } else {
      assert (xs + ys)[1..] == xs[1..] + ys;
      ContinuationRunAppend(xs[1..], ys);
    }
  }

  /** Parsing lines that split at a header line is parsing the first part
      and continuing with the second. */
  lemma {:induction false} ParseLinesAppend(xs: seq<string>, ys: seq<string>, acc: Record)
    requires ys == [] || !IsContinuation(ys[0])
    ensures ParseLines(xs + ys, acc) == (match ParseLines(xs, acc)
                                         case Err(e) => Err(e)
                                         case Ok(m) => ParseLines(ys, m))
    decreases |xs|
  {
    if xs == [] {
      assert xs + ys == ys;
    } else {
      ContinuationRunAppend(xs[1..], ys);
      var n := ContinuationRun(xs[1..]);
      AppendSlices(xs, ys, n);
      ParseLinesUnfold(xs + ys, acc);
      ParseLinesUnfold(xs, acc);
      match ParseField(xs[0], xs[1..1 + n])
      case Err(e) =>
      case Ok(field) =>
        ParseLinesAppend(xs[1 + n..], ys, acc[field.0 := field.1]);
    }
  }

  /** One step of `ParseLines`: the first field, then the rest. */
  lemma ParseLinesUnfold(lines: seq<string>, acc: Record)
    requires lines != []
    ensures var n := ContinuationRun(lines[1..]);
            ParseLines(lines, acc) == (match ParseField(lines[0], lines[1..1 + n])
                                       case Err(e) => Err(e)
                                       case Ok(f) => ParseLines(lines[1 + n..], acc[f.0 := f.1]))
  {
  }

  /** The pieces of `xs + ys` that a step of `ParseLines` looks at, when
      the step stays within `xs`. */
  lemma AppendSlices<T>(xs: seq<T>, ys: seq<T>, n: int)
    requires 0 <= n && 1 + n <= |xs|
    ensures (xs + ys)[0] == xs[0] && (xs + ys)[1..] == xs[1..] + ys
    ensures (xs + ys)[1..1 + n] == xs[1..1 + n] && (xs + ys)[1 + n..] == xs[1 + n..] + ys
  {
  }

  /** A header line that does not end the stanza's continuation run and has
      no `": "` makes the whole stanza fail: no partial record comes back. */
  lemma MalformedHeaderIsFatal(text: string, j: nat)
    requires j < |StanzaLines(text)|
    requires j == 0 || !IsContinuation(StanzaLines(text)[j])
    requires Free(StanzaLines(text)[j], ": ")
    ensures ParseStanza(text).Err?
  {
    var ls := StanzaLines(text);
    if j == 0 {
      HeadFails(ls, map[]);
    } else {
      assert ls == ls[..j] + ls[j..];
      ParseLinesAppend(ls[..j], ls[j..], map[]);
      match ParseLines(ls[..j], map[])
      case Err(e) =>
      case Ok(m) => HeadFails(ls[j..], m);
    }
  }

  /** Lines that start with a header without `": "` fail. */
  lemma HeadFails(lines: seq<string>, acc: Record)
    requires lines != [] && Free(lines[0], ": ")
    ensures ParseLines(lines, acc).Err?
  {
    ParseLinesUnfold(lines, acc);
  }

  /** A header line appended after a stanza is parsed last, so its field
      overwrites any earlier field of the same name. */
  lemma LastHeaderWins(lines: seq<string>, header: string, acc: Record)
    requires !IsContinuation(header)
    requires ParseLines(lines + [header], acc).Ok?
    ensures ParseField(header, []).Ok?
    ensures var f := ParseField(header, []).value;
            f.0 in ParseLines(lines + [header], acc).value
            && ParseLines(lines + [header], acc).value[f.0] == f.1
  {
    ParseLinesAppend(lines, [header], acc);
    assert [header][1..] == [];
  }

  // ---------------------------------------------------------------- writing stanzas

  /** How a piece of folded text is written on a continuation line. */
  function ContinuationText(piece: string): string {
    " " + (if piece == [] then "." else piece)
  }

  /** The header line written for a field. */
  function HeaderLine(key: string, v: Value): string {
    match v
    case Number(n) => "Size: " + Digits(n)
    case Text(t) => key + ": " + Split(t, "\n")[0]
  }

  /** The continuation lines written for a field. */
  function ContinuationLines(v: Value): seq<string> {
    match v
    case Number(_) => []
    case Text(t) =>
      var ps := Split(t, "\n");
      seq(|ps| - 1, i requires 0 <= i < |ps| - 1 => ContinuationText(ps[i + 1]))
  }

  /** The control-file lines for one field. */
  function EncodeField(key: string, v: Value): (lines: seq<string>)
    ensures |lines| >= 1
  {
    [HeaderLine(key, v)] + ContinuationLines(v)
  }

  function EncodeFields(fields: seq<(string, Value)>): seq<string>
    decreases |fields|
  {
    if fields == [] then [] else EncodeField(fields[0].0, fields[0].1) + EncodeFields(fields[1..])
  }

  /** A stanza text for `fields`, in order. */
  function Encode(fields: seq<(string, Value)>): string {
    Join(EncodeFields(fields), "\n")
  }

  /** The record that field list describes, later fields winning. */
  function FieldMap(fields: seq<(string, Value)>): Record
    decreases |fields|
  {
    if fields == [] then map[] else map[fields[0].0 := fields[0].1] + FieldMap(fields[1..])
  }

  /** A field name the encoding can carry: lower case, no separator, no
      line break, not mistakable for a continuation line. */
  predicate EncodableKey(k: string) {
    Free(k, ": ") && '\n' !in k && !StartsWith(k, " ") && NoneOf(k, IsUpper)
  }

  /** A field the encoding can carry: integers only under `size`; folded
      text lines already stripped and never a lone `.`. */
  predicate EncodableField(f: (string, Value)) {
    && EncodableKey(f.0)
    && match f.1
       case Number(_) => f.0 == "size"
       case Text(t) =>
         var ps := Split(t, "\n");
         forall i :: 1 <= i < |ps| ==> IsStripped(ps[i]) && ps[i] != "."
  }

  lemma FoldContinuation(piece: string)
    requires IsStripped(piece) && piece != "."
    ensures FoldLine(ContinuationText(piece)) == piece
  {
    if piece == [] {
      StripPadded(" ", ".", [], IsSpace);
      assert " " + "." + [] == ContinuationText(piece);
    } else {
      StripPadded(" ", piece, [], IsSpace);
      assert " " + piece + [] == ContinuationText(piece);
    }
  }

  lemma FreeWithoutHead(k: string, pat: string)
    requires pat != [] && pat[0] !in k
    ensures Free(k, pat)
  {
    forall j | 0 <= j <= |k|
      ensures !OccursAt(k, pat, j)
    {
      if j + |pat| <= |k| {
        assert k[j..j + |pat|][0] == k[j];
      }
    }
  }

  lemma FindAfterKey(k: string, rest: string)
    requires Free(k, ": ")
    ensures Find(k + ": " + rest, ": ") == Some(|k|)
  {
    var h := k + ": " + rest;
    assert h[|k|..|k| + 2] == ": ";
    assert OccursAt(h, ": ", |k|);
    forall j | 0 <= j < |k|
      ensures !OccursAt(h, ": ", j)
    {
      if j + 2 <= |k| {
        assert h[j..j + 2] == k[j..j + 2];
        assert !OccursAt(k, ": ", j);
      } else {
        assert h[j + 1] == ':';
      }
    }
  }

  lemma ParseEncodedSize(n: nat)
    ensures ParseField(HeaderLine("size", Number(n)), []) == Ok(("size", Number(n)))
  {
    var h := HeaderLine("size", Number(n));
    FreeWithoutHead("Size", ": ");
    assert h == "Size" + ": " + Digits(n);
    FindAfterKey("Size", Digits(n));
    assert h[..4] == "Size";
    assert h[6..] == Digits(n);
    assert Lower("Size") == "size";
    ParseDigits(n);
  }

  lemma ParseEncodedText(k: string, t: string)
    requires EncodableField((k, Text(t)))
    ensures ParseField(HeaderLine(k, Text(t)), ContinuationLines(Text(t))) == Ok((k, Text(t)))
  {
    var h := HeaderLine(k, Text(t));
    var conts := ContinuationLines(Text(t));
    var ps := Split(t, "\n");
    FindAfterKey(k, ps[0]);
    assert h[..|k|] == k;
    assert h[|k| + 2..] == ps[0];
    assert k != "Size" by {
      if k == "Size" {
        assert IsUpper(k[0]);
      }
    }
    LowerKeeps(k);
    forall i | 0 <= i < |conts|
      ensures FoldAll(conts)[i] == ps[i + 1]
    {
      FoldContinuation(ps[i + 1]);
    }
    assert [ps[0]] + FoldAll(conts) == ps;
  }

  lemma ParseEncodedHeader(f: (string, Value))
    requires EncodableField(f)
    ensures ParseField(HeaderLine(f.0, f.1), ContinuationLines(f.1)) == Ok(f)
  {
    match f.1
    case Number(n) =>
      ParseEncodedSize(n);
    case Text(t) =>
      ParseEncodedText(f.0, t);
  }

  lemma {:induction false} AllContinuations(ls: seq<string>)
    requires forall i :: 0 <= i < |ls| ==> IsContinuation(ls[i])
    ensures ContinuationRun(ls) == |ls|
    decreases |ls|
  {
    if ls != [] {
      AllContinuations(ls[1..]);
    }
  }

  lemma HeaderNotContinuation(f: (string, Value))
    requires EncodableKey(f.0)
    ensures !IsContinuation(HeaderLine(f.0, f.1))
  {
    var h := HeaderLine(f.0, f.1);
    assert h != [] && h[..1] == [h[0]];
    match f.1
    case Number(n) =>
      assert h[0] == 'S';
    case Text(t) =>
      if f.0 == [] {
        assert h[0] == ':';
      } else {
        assert h[0] == f.0[0];
        assert f.0[..1] == [f.0[0]];
      }
  }

  /** The lines of one encoded field parse to that field, whatever header
      line follows them. */
  lemma ParseEncodedField(f: (string, Value), rest: seq<string>, acc: Record)
    requires EncodableField(f)
    requires rest == [] || !IsContinuation(rest[0])
    ensures ParseLines(EncodeField(f.0, f.1) + rest, acc) == ParseLines(rest, acc[f.0 := f.1])
  {
    var h := HeaderLine(f.0, f.1);
    var conts := ContinuationLines(f.1);
    assert EncodeField(f.0, f.1) + rest == [h] + conts + rest;
    ContinuationLinesContinue(f.1);
    ParseEncodedHeader(f);
    ParseLinesField(h, conts, rest, acc);
  }

  /** Every continuation line the writer produces reads back as one. */
  lemma ContinuationLinesContinue(v: Value)
    ensures forall i :: 0 <= i < |ContinuationLines(v)| ==> IsContinuation(ContinuationLines(v)[i])
  {
    if v.Text? {
      var conts := ContinuationLines(v);
      forall i | 0 <= i < |conts|
        ensures IsContinuation(conts[i])
      {
        var ps := Split(v.text, "\n");
        assert conts[i] == ContinuationText(ps[i + 1]);
        assert conts[i][..1] == " ";
      }
    }
  }

  /** A header, its whole run of continuation lines, then the next header:
      the parser stores the one field and carries on with the rest. */
  lemma ParseLinesField(h: string, conts: seq<string>, rest: seq<string>, acc: Record)
    requires forall i :: 0 <= i < |conts| ==> IsContinuation(conts[i])
    requires rest == [] || !IsContinuation(rest[0])
    requires ParseField(h, conts).Ok?
    ensures ParseLines([h] + conts + rest, acc)
            == ParseLines(rest, acc[ParseField(h, conts).value.0 := ParseField(h, conts).value.1])
  {
    var ls := [h] + conts + rest;
    assert ls[1..] == conts + rest;
    AllContinuations(conts);
    ContinuationRunAppend(conts, rest);
    assert ls[1..1 + |conts|] == conts;
    assert ls[1 + |conts|..] == rest;
  }

  lemma {:induction false} ParseEncodeFields(fields: seq<(string, Value)>, acc: Record)
    requires forall i :: 0 <= i < |fields| ==> EncodableField(fields[i])
    ensures ParseLines(EncodeFields(fields), acc) == Ok(acc + FieldMap(fields))
    decreases |fields|
  {
    if fields == [] {
      assert acc + map[] == acc;
    } else {
      var f := fields[0];
      HeadersStartFields(fields[1..]);
      ParseEncodedField(f, EncodeFields(fields[1..]), acc);
      ParseEncodeFields(fields[1..], acc[f.0 := f.1]);
      assert FieldMap(fields) == map[f.0 := f.1] + FieldMap(fields[1..]);
      UpdateThenUnion(acc, f.0, f.1, FieldMap(fields[1..]));
    }
  }

  lemma UpdateThenUnion(acc: Record, k: string, v: Value, m: Record)
    ensures acc[k := v] + m == acc + (map[k := v] + m)
  {
  }

  lemma HeadersStartFields(fields: seq<(string, Value)>)
    requires forall i :: 0 <= i < |fields| ==> EncodableField(fields[i])
    ensures EncodeFields(fields) == [] || !IsContinuation(EncodeFields(fields)[0])
  {
    if fields != [] {
      var f := fields[0];
      assert EncodeFields(fields)[0] == HeaderLine(f.0, f.1);
      HeaderNotContinuation(f);
    }
  }

  /** A line-shaped text: non-empty and free of line breaks. */
  predicate IsLine(l: string) {
    l != [] && '\n' !in l
  }

  /** Every line written for one field is line-shaped. */
  lemma EncodedFieldLines(f: (string, Value))
    requires EncodableField(f)
    ensures forall i :: 0 <= i < |EncodeField(f.0, f.1)| ==> IsLine(EncodeField(f.0, f.1)[i])
  {
    var ls := EncodeField(f.0, f.1);
    match f.1
    case Number(n) =>
      assert forall c :: c in Digits(n) ==> IsDigit(c);
    case Text(t) =>
      var ps := Split(t, "\n");
      forall i | 0 <= i < |ps|
        ensures '\n' !in ps[i]
      {
        FreeOfChar(ps[i], '\n');
      }
      forall i | 0 <= i < |ls|
        ensures IsLine(ls[i])
      {
        if i == 0 {
          assert ls[0] == f.0 + ": " + ps[0];
        } else {
          assert ls[i] == ContinuationText(ps[i]);
        }
      }
  }

  /** Every encoded line is line-shaped. */
  lemma {:induction false} EncodedLinesAreLines(fields: seq<(string, Value)>)
    requires forall i :: 0 <= i < |fields| ==> EncodableField(fields[i])
    ensures forall i :: 0 <= i < |EncodeFields(fields)| ==> IsLine(EncodeFields(fields)[i])
    decreases |fields|
  {
    if fields != [] {
      var f := fields[0];
      var head := EncodeField(f.0, f.1);
      var tail := EncodeFields(fields[1..]);
      EncodedFieldLines(f);
      EncodedLinesAreLines(fields[1..]);
      AllLines(head, tail);
    }
  }

  lemma AllLines(a: seq<string>, b: seq<string>)
    requires forall i :: 0 <= i < |a| ==> IsLine(a[i])
    requires forall i :: 0 <= i < |b| ==> IsLine(b[i])
    ensures forall i :: 0 <= i < |a + b| ==> IsLine((a + b)[i])
  {
    forall i | 0 <= i < |a + b|
      ensures IsLine((a + b)[i])
    {
      if i >= |a| {
        assert (a + b)[i] == b[i - |a|];
      }
    }
  }

  lemma JoinEnds(parts: seq<string>, sep: string)
    requires |parts| >= 1
    ensures EndsWith(Join(parts, sep), parts[|parts| - 1])
    decreases |parts|
  {
    if |parts| > 1 {
      JoinEnds(parts[1..], sep);
      var j := Join(parts, sep);
      assert j == (parts[0] + sep) + Join(parts[1..], sep);
    }
  }

  /** The encoded text has no newline to strip at either end, and splits
      back into the encoded lines. */
  lemma EncodedStanzaLines(fields: seq<(string, Value)>)
    requires |fields| >= 1
    requires forall i :: 0 <= i < |fields| ==> EncodableField(fields[i])
    ensures StanzaLines(Encode(fields)) == EncodeFields(fields)
  {
    EncodedLinesAreLines(fields);
    assert |EncodeFields(fields)| >= 1 by {
      assert EncodeFields(fields) == EncodeField(fields[0].0, fields[0].1) + EncodeFields(fields[1..]);
    }
    JoinedLinesSplit(EncodeFields(fields));
  }

  /** A join of non-empty ends starts and ends with their characters. */
  lemma JoinedEnds(ls: seq<string>, sep: string)
    requires |ls| >= 1 && ls[0] != [] && ls[|ls| - 1] != []
    ensures var t := Join(ls, sep);
      && t != [] && t[0] == ls[0][0] && t[|t| - 1] == ls[|ls| - 1][|ls[|ls| - 1]| - 1]
  {
    JoinHead(ls, sep);
    JoinEnds(ls, sep);
  }

  /** Lines joined by newlines come back as the same lines. */
  lemma JoinedLinesSplit(ls: seq<string>)
    requires |ls| >= 1 && forall i :: 0 <= i < |ls| ==> IsLine(ls[i])
    ensures StanzaLines(Join(ls, "\n")) == ls
  {
    JoinedUnstripped(ls);
    SplitJoinChar(ls, '\n');
  }

  /** Lines joined by newlines have no newline at either end to strip. */
  lemma JoinedUnstripped(ls: seq<string>)
    requires |ls| >= 1 && forall i :: 0 <= i < |ls| ==> IsLine(ls[i])
    ensures StripNewlines(Join(ls, "\n")) == Join(ls, "\n")
  {
    var first, last := ls[0], ls[|ls| - 1];
    JoinedEnds(ls, "\n");
    assert first[0] in first && last[|last| - 1] in last;
    StripKeeps(Join(ls, "\n"), IsNewline);
  }

  /** Writing a non-empty field list and parsing it back gives the fields'
      record: the parser inverts the control-file writer. */
  lemma ParseEncode(fields: seq<(string, Value)>)
    requires |fields| >= 1
    requires forall i :: 0 <= i < |fields| ==> EncodableField(fields[i])
    ensures ParseStanza(Encode(fields)) == Ok(FieldMap(fields))
  {
    EncodedStanzaLines(fields);
    ParseEncodeFieldsFresh(fields);
  }

  lemma ParseEncodeFieldsFresh(fields: seq<(string, Value)>)
    requires forall i :: 0 <= i < |fields| ==> EncodableField(fields[i])
    ensures ParseLines(EncodeFields(fields), map[]) == Ok(FieldMap(fields))
  {
    ParseEncodeFields(fields, map[]);
    EmptyUnion(FieldMap(fields));
  }

  lemma EmptyUnion(m: Record)
    ensures map[] + m == m
  {
  }

  // ---------------------------------------------------------------- popping continuation lines

  /** A continuation line at `j` adds one to the run from `j`. */
  lemma RunStep(lines: seq<string>, j: int)
    requires 0 <= j < |lines| && IsContinuation(lines[j])
    ensures ContinuationRun(lines[j..]) == 1 + ContinuationRun(lines[j + 1..])
  {
    assert lines[j..][0] == lines[j];
    assert lines[j..][1..] == lines[j + 1..];
  }

  /** The run from a line that is no continuation is empty. */
  lemma RunStop(lines: seq<string>, j: int)
    requires 0 <= j <= |lines| && (j == |lines| || !IsContinuation(lines[j]))
    ensures ContinuationRun(lines[j..]) == 0
  {
    if j < |lines| {
      assert lines[j..][0] == lines[j];
    }
  }

  /** `exp` holds the folded lines `a..j`, all of them continuation lines. */
  predicate Folded(lines: seq<string>, a: int, j: int, exp: seq<string>) {
    && 0 <= a <= j <= |lines|
    && ContinuationRun(lines[a..]) == (j - a) + ContinuationRun(lines[j..])
    && exp == Map(FoldLine, lines[a..j])
  }

  /** Nothing popped yet. */
  lemma Start(lines: seq<string>, a: int)
    requires 0 <= a <= |lines|
    ensures Folded(lines, a, a, [])
  {
    assert lines[a..a] == [];
  }

  /** Popping one more continuation line keeps `Folded`. */
  lemma Advance(lines: seq<string>, a: int, j: int, exp: seq<string>)
    requires Folded(lines, a, j, exp) && j < |lines| && IsContinuation(lines[j])
    ensures Folded(lines, a, j + 1, exp + [FoldLine(lines[j])])
  {
    RunStep(lines, j);
    MapStep(FoldLine, lines, a, j);
  }

  /** At the first line that is no continuation the run is complete. */
  lemma Finish(lines: seq<string>, a: int, j: int, exp: seq<string>)
    requires Folded(lines, a, j, exp) && (j == |lines| || !IsContinuation(lines[j]))
    ensures j == a + ContinuationRun(lines[a..]) && j <= |lines| && exp == FoldAll(lines[a..j])
  {
    RunStop(lines, j);
    FoldAllMap(lines[a..j]);
  }

  lemma FoldAllMap(conts: seq<string>)
    ensures Map(FoldLine, conts) == FoldAll(conts)
  {
    MapIndex(FoldLine, conts);
    FoldAllOf(Map(FoldLine, conts), conts);
  }

  lemma FoldAllOf(exp: seq<string>, conts: seq<string>)
    requires |exp| == |conts|
    requires forall m :: 0 <= m < |exp| ==> exp[m] == FoldLine(conts[m])
    ensures exp == FoldAll(conts)
  {
  }

  // ---------------------------------------------------------------- a header and three continuation lines

  /** Three continuation lines make a run of three. */
  lemma RunThree(c0: string, c1: string, c2: string)
    requires IsContinuation(c0) && IsContinuation(c1) && IsContinuation(c2)
    ensures ContinuationRun([c0, c1, c2]) == 3
  {
    var cs := [c0, c1, c2];
    assert cs[1..] == [c1, c2] && cs[1..][1..] == [c2] && cs[1..][1..][1..] == [];
  }

  /** Folding three lines is folding each. */
  lemma FoldAllThree(c0: string, c1: string, c2: string)
    ensures FoldAll([c0, c1, c2]) == [FoldLine(c0), FoldLine(c1), FoldLine(c2)]
  {
    MapThree(FoldLine, c0, c1, c2);
    FoldAllMap([c0, c1, c2]);
  }

  /** The tail of a four-line field, stated generically. */
  lemma FourSlices<T>(s: seq<T>)
    requires |s| == 4
    ensures s[1..] == [s[1], s[2], s[3]] && s[1..1 + 3] == s[1..] && s[1 + 3..] == []
  {
  }

  /** A header whose key is not `Size` keeps its value as text, the
      folded continuation lines joined after it. */
  lemma ParseTextField(h: string, k: string, x: string, conts: seq<string>)
    requires Free(k, ": ") && k != "Size" && h == k + ": " + x
    ensures ParseField(h, conts) == Ok((Lower(k), Text(Join([x] + FoldAll(conts), "\n"))))
  {
    FindAfterKey(k, x);
    assert h[..|k|] == k && h[|k| + 2..] == x;
  }

  /** A lone `.` after the space folds to an empty line. */
  lemma DotLine()
    ensures IsContinuation(" .") && FoldLine(" .") == ""
  {
    FoldContinuation([]);
    assert ContinuationText([]) == " .";
  }

  /** A space and stripped text other than `.` fold back to the text. */
  lemma TextLine(a: string)
    requires a != [] && IsStripped(a) && a != "."
    ensures IsContinuation(" " + a) && FoldLine(" " + a) == a
  {
    FoldContinuation(a);
    assert ContinuationText(a) == " " + a;
  }

  /** Four pieces joined by newlines, the third one empty. */
  lemma JoinFour(x: string, a: string, b: string)
    ensures Join([x, a, "", b], "\n") == x + "\n" + a + "\n\n" + b
  {
    var p := [x, a, "", b];
    assert p[1..] == [a, "", b] && p[1..][1..] == ["", b] && p[1..][1..][1..] == [b];
    assert Join(["", b], "\n") == "\n" + b;
    assert Join([a, "", b], "\n") == a + "\n" + ("\n" + b);
    assert x + "\n" + (a + "\n" + ("\n" + b)) == x + "\n" + a + "\n\n" + b;
  }

  /** The header `k: x` followed by ` a`, ` .`, ` b` is one field. */
  lemma FieldOfThree(k: string, x: string, a: string, b: string)
    requires Free(k, ": ") && k != "Size"
    requires a != [] && IsStripped(a) && a != "." && b != [] && IsStripped(b) && b != "."
    ensures ParseField(k + ": " + x, [" " + a, " .", " " + b]) == Ok((Lower(k), Text(x + "\n" + a + "\n\n" + b)))
  {
    var conts := [" " + a, " .", " " + b];
    ParseTextField(k + ": " + x, k, x, conts);
    TextLine(a);
    TextLine(b);
    DotLine();
    FoldAllThree(" " + a, " .", " " + b);
    JoinFour(x, a, b);
    assert [x] + FoldAll(conts) == [x, a, "", b];
  }

  /** Lines that are one header and its whole continuation run parse to
      that one field. */
  lemma OneField(lines: seq<string>, f: (string, Value))
    requires lines != [] && 1 + ContinuationRun(lines[1..]) == |lines|
    requires ParseField(lines[0], lines[1..1 + ContinuationRun(lines[1..])]) == Ok(f)
    ensures ParseLines(lines, map[]) == Ok(map[f.0 := f.1])
  {
    var n := ContinuationRun(lines[1..]);
    ParseLinesStep(lines, map[], f);
    EmptyTail(lines, 1 + n);
    ParseLinesNil(map[f.0 := f.1]);
  }

  /** A field that parses is added and the lines after its run follow. */
  lemma ParseLinesStep(lines: seq<string>, acc: Record, f: (string, Value))
    requires lines != []
    requires ParseField(lines[0], lines[1..1 + ContinuationRun(lines[1..])]) == Ok(f)
    ensures ParseLines(lines, acc) == ParseLines(lines[1 + ContinuationRun(lines[1..])..], acc[f.0 := f.1])
  {
    ParseLinesUnfold(lines, acc);
  }

  lemma ParseLinesNil(acc: Record)
    ensures ParseLines([], acc) == Ok(acc)
  {
  }

  lemma EmptyTail<T>(s: seq<T>, k: int)
    requires k == |s|
    ensures s[k..] == []
  {
  }

  /** A header and three continuation lines are one field. */
  lemma FourLineField(h: string, c0: string, c1: string, c2: string, f: (string, Value))
    requires IsContinuation(c0) && IsContinuation(c1) && IsContinuation(c2)
    requires ParseField(h, [c0, c1, c2]) == Ok(f)
    ensures ParseLines([h, c0, c1, c2], map[]) == Ok(map[f.0 := f.1])
  {
    var lines := [h, c0, c1, c2];
    FourSlices(lines);
    RunThree(c0, c1, c2);
    OneField(lines, f);
  }

  /** A header followed by three continuation lines, the middle one ` .`,
      give one field whose value is the header's value, the two texts and an empty line between them, joined by newlines. */
  lemma FoldedField(k: string, x: string, a: string, b: string)
    requires Free(k, ": ") && k != "Size"
    requires a != [] && IsStripped(a) && a != "." && b != [] && IsStripped(b) && b != "."
    ensures ParseLines([k + ": " + x, " " + a, " .", " " + b], map[])
            == Ok(map[Lower(k) := Text(x + "\n" + a + "\n\n" + b)])
  {
    TextLine(a);
    TextLine(b);
    DotLine();
    FieldOfThree(k, x, a, b);
    FourLineField(k + ": " + x, " " + a, " .", " " + b, (Lower(k), Text(x + "\n" + a + "\n\n" + b)));
  }
}
