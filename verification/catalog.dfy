/** The package catalog both scripts build from the parsed stanzas: one
    record per package name. A later record with the same name replaces the
    kept one unless `get_larger_version` finds the kept one strictly newer,
    so equal versions go to the later record. `apt_pkg.version_compare` is
    a parameter. */
module Catalog {
  import opened Outcome
  import opened Control

  /** `apt_pkg.version_compare(a, b)`: positive when `a` is the newer
      version, zero when they are equal, negative when `a` is older. */
  type Comparator = (string, string) -> int

  /** A comparator that orders versions consistently: comparing from
      either side agrees, and "at least as new" is transitive. */
  ghost predicate IsTotalPreorder(cmp: Comparator) {
    && (forall a, b :: cmp(a, b) >= 1 <==> cmp(b, a) < 0)
    && (forall a, b, c :: cmp(a, b) >= 0 && cmp(b, c) >= 0 ==> cmp(a, c) >= 0)
  }

  /** Package name to the record kept for it. */
  type Packages = map<string, Record>

  predicate HasText(rec: Record, name: string) {
    name in rec && rec[name].Text?
  }

  /** The text of a field, `""` when the record has no such text field. */
  function Field(rec: Record, name: string): string {
    if HasText(rec, name) then rec[name].text else ""
  }

  /** The attribute access `record.<name>` on a field used as text: a
      missing field raises `AttributeError`, an integer one `TypeError`. */
  function TextField(rec: Record, name: string): Result<string> {
    if name !in rec then Err(MissingField(name))
    else if rec[name].Number? then Err(NotText(name))
    else Ok(rec[name].text)
  }

  /** `get_larger_version(kept, next)`: both versions are read, the kept
      record first; the kept record wins only when strictly newer. */
  function LargerVersion(cmp: Comparator, kept: Record, next: Record): (r: Result<Record>)
    ensures r.Ok? <==> HasText(kept, "version") && HasText(next, "version")
    ensures r.Err? ==> r.error in {MissingField("version"), NotText("version")}
    ensures r.Ok? && cmp(Field(kept, "version"), Field(next, "version")) >= 1 ==> r.value == kept
    ensures r.Ok? && cmp(Field(kept, "version"), Field(next, "version")) < 1 ==> r.value == next
  {
    var v1 :- TextField(kept, "version");
    var v2 :- TextField(next, "version");
    if cmp(v1, v2) >= 1 then Ok(kept) else Ok(next)
  }

  /** One pass of the catalog loop for a parsed record: a new name is
      added, a known one goes through `get_larger_version`. */
  function Update(cmp: Comparator, cat: Packages, rec: Record): (r: Result<Packages>)
    ensures r.Ok? <==> HasText(rec, "package")
                       && (Field(rec, "package") in cat ==>
                             HasText(cat[Field(rec, "package")], "version") && HasText(rec, "version"))
    ensures r.Err? ==> r.error in {MissingField("package"), NotText("package"),
                                   MissingField("version"), NotText("version")}
    ensures r.Ok? ==> forall n :: n in r.value <==> n in cat || n == Field(rec, "package")
    ensures r.Ok? ==> forall n :: n in cat && n != Field(rec, "package") ==> r.value[n] == cat[n]
    ensures r.Ok? && Field(rec, "package") !in cat ==> r.value[Field(rec, "package")] == rec
  {
    var name :- TextField(rec, "package");
    if name in cat then
      var w :- LargerVersion(cmp, cat[name], rec);
      Ok(cat[name := w])
    else Ok(cat[name := rec])
  }

  /** A known name keeps its record exactly when that record's version is
      strictly newer; on equal versions the new record replaces it. */
  lemma UpdateKnown(cmp: Comparator, cat: Packages, rec: Record)
    requires Update(cmp, cat, rec).Ok? && Field(rec, "package") in cat
    ensures var n := Field(rec, "package");
            var kept := cat[n];
            && (cmp(Field(kept, "version"), Field(rec, "version")) >= 1 ==> Update(cmp, cat, rec).value[n] == kept)
            && (cmp(Field(kept, "version"), Field(rec, "version")) < 1 ==> Update(cmp, cat, rec).value[n] == rec)
  {
  }

  // ---------------------------------------------------------------- the loop over records

  /** The catalog loop over records, front to back; the first failing
      update ends it. */
  function Fold(cmp: Comparator, cat: Packages, recs: seq<Record>): (r: Result<Packages>)
    decreases |recs|
  {
    if recs == [] then Ok(cat)
    else
      var c :- Fold(cmp, cat, recs[..|recs| - 1]);
      Update(cmp, c, recs[|recs| - 1])
  }

  /** A loop that succeeds met a package name in every record. */
  lemma {:induction false} FoldNamed(cmp: Comparator, cat: Packages, recs: seq<Record>)
    requires Fold(cmp, cat, recs).Ok?
    ensures forall i :: 0 <= i < |recs| ==> HasText(recs[i], "package")
    decreases |recs|
  {
    if recs != [] {
      var init := recs[..|recs| - 1];
      FoldNamed(cmp, cat, init);
      assert forall i :: 0 <= i < |init| ==> recs[i] == init[i];
    }
  }

  // ---------------------------------------------------------------- which record survives

  /** Record `j` of `recs` is the entry the catalog should hold for `n`: it
      carries that name, no record of that name is newer, and every later
      record of that name is strictly older. Records of the same name must
      carry versions for the loop to succeed, so the `""` a missing version
      reads as never decides anything. */
  predicate Survives(cmp: Comparator, recs: seq<Record>, n: string, j: int) {
    && 0 <= j < |recs| && Field(recs[j], "package") == n
    && (forall i :: 0 <= i < |recs| && Field(recs[i], "package") == n ==>
          cmp(Field(recs[j], "version"), Field(recs[i], "version")) >= 0)
    && (forall i :: j < i < |recs| && Field(recs[i], "package") == n ==>
          cmp(Field(recs[j], "version"), Field(recs[i], "version")) >= 1)
  }

  /** At most one record survives for a name. */
  lemma SurvivorUnique(cmp: Comparator, recs: seq<Record>, n: string, j1: int, j2: int)
    requires IsTotalPreorder(cmp)
    requires Survives(cmp, recs, n, j1) && Survives(cmp, recs, n, j2)
    ensures j1 == j2
  {
  }

  /** The catalog `cat` holds, for the names of `recs`, exactly their
      surviving records. */
  ghost predicate Resolved(cmp: Comparator, recs: seq<Record>, cat: Packages) {
    && (forall i :: 0 <= i < |recs| ==> Field(recs[i], "package") in cat)
    && (forall n :: n in cat ==> exists j :: Survives(cmp, recs, n, j) && cat[n] == recs[j])
  }

  /** A survivor stays one when a record of another name comes after it. */
  lemma SurvivesOther(cmp: Comparator, recs: seq<Record>, x: Record, n: string, j: int)
    requires Survives(cmp, recs, n, j) && Field(x, "package") != n
    ensures Survives(cmp, recs + [x], n, j)
  {
  }

  /** A survivor stays one when the next record of its name is strictly
      older. */
  lemma SurvivesKept(cmp: Comparator, recs: seq<Record>, x: Record, n: string, j: int)
    requires Survives(cmp, recs, n, j) && Field(x, "package") == n
    requires cmp(Field(recs[j], "version"), Field(x, "version")) >= 1
    ensures Survives(cmp, recs + [x], n, j)
  {
  }

  /** The new last record survives when it is at least as new as every
      earlier record of its name. */
  lemma SurvivesNew(cmp: Comparator, recs: seq<Record>, x: Record)
    requires IsTotalPreorder(cmp)
    requires forall i :: 0 <= i < |recs| && Field(recs[i], "package") == Field(x, "package") ==>
               cmp(Field(x, "version"), Field(recs[i], "version")) >= 0
    ensures Survives(cmp, recs + [x], Field(x, "package"), |recs|)
  {
    assert cmp(Field(x, "version"), Field(x, "version")) >= 0;
  }

  /** A record that is at least as new as a survivor is at least as new as
      everything the survivor beats. */
  lemma NewerThanSurvivor(cmp: Comparator, recs: seq<Record>, x: Record, j: int)
    requires IsTotalPreorder(cmp)
    requires Survives(cmp, recs, Field(x, "package"), j)
    requires cmp(Field(recs[j], "version"), Field(x, "version")) < 1
    ensures forall i :: 0 <= i < |recs| && Field(recs[i], "package") == Field(x, "package") ==>
              cmp(Field(x, "version"), Field(recs[i], "version")) >= 0
  {
    var w := Field(recs[j], "version");
    var v := Field(x, "version");
    assert cmp(v, w) >= 0;
    forall i | 0 <= i < |recs| && Field(recs[i], "package") == Field(x, "package")
      ensures cmp(v, Field(recs[i], "version")) >= 0
    {
      assert cmp(w, Field(recs[i], "version")) >= 0;
    }
  }

  /** One update keeps the catalog resolved. */
  lemma ResolvedStep(cmp: Comparator, recs: seq<Record>, cat: Packages, x: Record)
    requires IsTotalPreorder(cmp)
    requires Resolved(cmp, recs, cat) && Update(cmp, cat, x).Ok?
    ensures Resolved(cmp, recs + [x], Update(cmp, cat, x).value)
  {
    var r := Update(cmp, cat, x).value;
    forall n | n in r
      ensures exists j :: Survives(cmp, recs + [x], n, j) && r[n] == (recs + [x])[j]
    {
      if n != Field(x, "package") {
        StepOther(cmp, recs, cat, x, n);
      } else {
        StepSame(cmp, recs, cat, x);
      }
    }
  }

  /** The entry of a name other than the updated one still survives. */
  lemma StepOther(cmp: Comparator, recs: seq<Record>, cat: Packages, x: Record, n: string)
    requires Resolved(cmp, recs, cat) && Update(cmp, cat, x).Ok?
    requires n in cat && n != Field(x, "package")
    ensures exists j :: Survives(cmp, recs + [x], n, j) && Update(cmp, cat, x).value[n] == (recs + [x])[j]
  {
    var j :| Survives(cmp, recs, n, j) && cat[n] == recs[j];
    SurvivesOther(cmp, recs, x, n, j);
    assert (recs + [x])[j] == recs[j];
    assert Survives(cmp, recs + [x], n, j) && Update(cmp, cat, x).value[n] == (recs + [x])[j];
  }

  /** The entry of the updated name survives. */
  lemma StepSame(cmp: Comparator, recs: seq<Record>, cat: Packages, x: Record)
    requires IsTotalPreorder(cmp)
    requires Resolved(cmp, recs, cat) && Update(cmp, cat, x).Ok?
    ensures var m := Field(x, "package");
            exists j :: Survives(cmp, recs + [x], m, j) && Update(cmp, cat, x).value[m] == (recs + [x])[j]
  {
    var m := Field(x, "package");
    if m !in cat {
      StepNew(cmp, recs, cat, x);
    } else {
      var j :| Survives(cmp, recs, m, j) && cat[m] == recs[j];
      if cmp(Field(recs[j], "version"), Field(x, "version")) >= 1 {
        StepKept(cmp, recs, cat, x, j);
      } else {
        StepReplaced(cmp, recs, cat, x, j);
      }
    }
  }

  /** A first record of its name survives. */
  lemma StepNew(cmp: Comparator, recs: seq<Record>, cat: Packages, x: Record)
    requires IsTotalPreorder(cmp)
    requires Resolved(cmp, recs, cat) && Update(cmp, cat, x).Ok?
    requires Field(x, "package") !in cat
    ensures Survives(cmp, recs + [x], Field(x, "package"), |recs|)
    ensures Update(cmp, cat, x).value[Field(x, "package")] == (recs + [x])[|recs|]
  {
    assert forall i :: 0 <= i < |recs| ==> Field(recs[i], "package") != Field(x, "package");
    SurvivesNew(cmp, recs, x);
  }

  /** A strictly newer entry stays. */
  lemma StepKept(cmp: Comparator, recs: seq<Record>, cat: Packages, x: Record, j: int)
    requires Update(cmp, cat, x).Ok?
    requires Survives(cmp, recs, Field(x, "package"), j) && Field(x, "package") in cat
    requires cat[Field(x, "package")] == recs[j]
    requires cmp(Field(recs[j], "version"), Field(x, "version")) >= 1
    ensures Survives(cmp, recs + [x], Field(x, "package"), j)
    ensures Update(cmp, cat, x).value[Field(x, "package")] == (recs + [x])[j]
  {
    UpdateKnown(cmp, cat, x);
    SurvivesKept(cmp, recs, x, Field(x, "package"), j);
  }

  /** An entry that is not strictly newer is replaced by the new record,
      which then survives. */
  lemma StepReplaced(cmp: Comparator, recs: seq<Record>, cat: Packages, x: Record, j: int)
    requires IsTotalPreorder(cmp)
    requires Update(cmp, cat, x).Ok?
    requires Survives(cmp, recs, Field(x, "package"), j) && Field(x, "package") in cat
    requires cat[Field(x, "package")] == recs[j]
    requires cmp(Field(recs[j], "version"), Field(x, "version")) < 1
    ensures Survives(cmp, recs + [x], Field(x, "package"), |recs|)
    ensures Update(cmp, cat, x).value[Field(x, "package")] == (recs + [x])[|recs|]
  {
    UpdateKnown(cmp, cat, x);
    NewerThanSurvivor(cmp, recs, x, j);
    SurvivesNew(cmp, recs, x);
  }

  /** Starting from an empty catalog, a successful loop holds one entry per
      name among the records, and that entry is the last record of the
      newest version: equal versions go to the later record. */
  lemma {:induction false} FoldSurvivors(cmp: Comparator, recs: seq<Record>)
    requires IsTotalPreorder(cmp)
    requires Fold(cmp, map[], recs).Ok?
    ensures Resolved(cmp, recs, Fold(cmp, map[], recs).value)
    decreases |recs|
  {
    if recs != [] {
      var init := recs[..|recs| - 1];
      var x := recs[|recs| - 1];
      FoldSurvivors(cmp, init);
      Snoc(recs);
      ResolvedStep(cmp, init, Fold(cmp, map[], init).value, x);
    }
  }

  /** Two records of one name and equal versions leave the later one. */
  lemma TieGoesToLater(cmp: Comparator, a: Record, b: Record)
    requires HasText(a, "package") && HasText(a, "version")
    requires HasText(b, "package") && HasText(b, "version") && Field(b, "package") == Field(a, "package")
    requires cmp(Field(a, "version"), Field(b, "version")) == 0
    ensures Fold(cmp, map[], [a, b]) == Ok(map[Field(a, "package") := b])
  {
    var n := Field(a, "package");
    assert [a, b][..1] == [a];
    assert [a][..0] == [];
    assert Fold(cmp, map[], [a]) == Ok(map[n := a]);
    var r := Update(cmp, map[n := a], b).value;
    UpdateKnown(cmp, map[n := a], b);
    assert r == map[n := b];
  }

  // ---------------------------------------------------------------- the loop over stanza texts

  /** The stanza parser the loop calls: `parse_package_metadata` in
      aptparser.py, an inline copy of it in apt-mirror.py. */
  type Parser = string -> Result<Record>

  /** One pass of the loop over stanza texts: an empty text is skipped,
      any other is parsed and merged. */
  function IngestOne(parse: Parser, cmp: Comparator, cat: Packages, text: string): Result<Packages> {
    if text == [] then Ok(cat)
    else
      var rec :- parse(text);
      Update(cmp, cat, rec)
  }

  /** The catalog loop of the main program over every stanza text, front
      to back; a parse error or a failing update ends it. */
  function Ingest(parse: Parser, cmp: Comparator, cat: Packages, texts: seq<string>): Result<Packages>
    decreases |texts|
  {
    if texts == [] then Ok(cat)
    else
      var c :- Ingest(parse, cmp, cat, texts[..|texts| - 1]);
      IngestOne(parse, cmp, c, texts[|texts| - 1])
  }

  /** The loop over one more text is one more pass. */
  lemma IngestSnoc(parse: Parser, cmp: Comparator, cat: Packages, texts: seq<string>, i: int)
    requires 0 <= i < |texts|
    ensures Ingest(parse, cmp, cat, texts[..i + 1])
         == match Ingest(parse, cmp, cat, texts[..i])
            case Err(e) => Err(e)
            case Ok(c) => IngestOne(parse, cmp, c, texts[i])
  {
    var s := texts[..i + 1];
    assert s[..|s| - 1] == texts[..i];
    assert s[|s| - 1] == texts[i];
  }

  /** Once the loop has failed on a prefix of the texts it fails on all of
      them, with the same error. */
  lemma {:induction false} IngestErrSticks(parse: Parser, cmp: Comparator, cat: Packages, texts: seq<string>, k: int)
    requires 0 <= k <= |texts|
    requires Ingest(parse, cmp, cat, texts[..k]).Err?
    ensures Ingest(parse, cmp, cat, texts) == Ingest(parse, cmp, cat, texts[..k])
    decreases |texts| - k
  {
    if k == |texts| {
      assert texts[..k] == texts;
    } else {
      var init := texts[..|texts| - 1];
      assert init[..k] == texts[..k];
      IngestErrSticks(parse, cmp, cat, init, k);
    }
  }

  /** The records of the non-empty texts in order, or the first parse
      error. */
  function Records(parse: Parser, texts: seq<string>): (r: Result<seq<Record>>)
    ensures r.Ok? ==> |r.value| <= |texts|
    decreases |texts|
  {
    if texts == [] then Ok([])
    else
      var rs :- Records(parse, texts[..|texts| - 1]);
      var t := texts[|texts| - 1];
      if t == [] then Ok(rs)
      else
        var rec :- parse(t);
        Ok(rs + [rec])
  }

  /** Every record is the parse of a non-empty text. */
  lemma {:induction false} RecordParsed(parse: Parser, texts: seq<string>, k: int)
    requires Records(parse, texts).Ok? && 0 <= k < |Records(parse, texts).value|
    ensures exists i :: 0 <= i < |texts| && texts[i] != [] && parse(texts[i]) == Ok(Records(parse, texts).value[k])
    decreases |texts|
  {
    var init := texts[..|texts| - 1];
    var rs := Records(parse, init).value;
    var rs' := Records(parse, texts).value;
    if k < |rs| {
      RecordParsed(parse, init, k);
      var i :| 0 <= i < |init| && init[i] != [] && parse(init[i]) == Ok(rs[k]);
      assert texts[i] == init[i];
      assert rs'[k] == rs[k];
      assert texts[i] != [] && parse(texts[i]) == Ok(rs'[k]);
    } else {
      var t := texts[|texts| - 1];
      assert t != [] && parse(t) == Ok(rs'[k]);
    }
  }

  /** Looping over the texts is parsing them all and looping over the
      records; when some text does not parse the loop fails too, with that
      error or an earlier one. */
  lemma {:induction false} IngestIsFold(parse: Parser, cmp: Comparator, cat: Packages, texts: seq<string>)
    ensures Records(parse, texts).Ok? ==> Ingest(parse, cmp, cat, texts) == Fold(cmp, cat, Records(parse, texts).value)
    ensures Records(parse, texts).Err? ==> Ingest(parse, cmp, cat, texts).Err?
    decreases |texts|
  {
    if texts != [] {
      var init := texts[..|texts| - 1];
      var t := texts[|texts| - 1];
      IngestIsFold(parse, cmp, cat, init);
      if Records(parse, init).Ok? && t != [] && parse(t).Ok? {
        var rs := Records(parse, init).value;
        SnocParts(rs, parse(t).value);
      }
    }
  }

  /** The catalog the main loop builds from stanza texts holds, for every
      name, the parsed record that survives among all parsed records. */
  lemma IngestSurvivors(parse: Parser, cmp: Comparator, texts: seq<string>)
    requires IsTotalPreorder(cmp)
    requires Ingest(parse, cmp, map[], texts).Ok?
    ensures Records(parse, texts).Ok?
    ensures Resolved(cmp, Records(parse, texts).value, Ingest(parse, cmp, map[], texts).value)
  {
    IngestIsFold(parse, cmp, map[], texts);
    FoldSurvivors(cmp, Records(parse, texts).value);
  }
}
