/** The per-package download decision shared by aptparser.py and
    apt-mirror.py: the package file `<uri>/<filename>` goes to
    `<output dir>/<filename>`, unless a file of the size the record gives
    is already there. The files on disk are a parameter. */
module Download {
  import opened Outcome
  import opened PyStr
  import opened Control

  datatype Action = Skip | Fetch(url: string, target: string)

  /** The files already on disk: path to size in bytes. */
  type Disk = map<string, nat>

  /** A field value as an f-string writes it: text as is, an integer in
      decimal. */
  function Format(v: Value): string {
    match v
    case Text(t) => t
    case Number(n) => Digits(n)
  }

  /** `<dir>/<filename>`, where the package file goes. */
  function Target(rec: Record, dir: string): string
    requires "filename" in rec
  {
    dir + "/" + Format(rec["filename"])
  }

  /** The file is there and its size is the record's `size`; the size is
      read only once the file is known to exist. */
  predicate AlreadyThere(rec: Record, target: string, disk: Disk) {
    target in disk && "size" in rec && rec["size"] == Number(disk[target])
  }

  /** One pass of the download loop: build the URL and the target, then
      skip when the file is already there, else fetch. */
  function Plan(rec: Record, dir: string, disk: Disk): (r: Result<Action>)
    ensures r.Err? <==> (|| "uri" !in rec || "filename" !in rec
                         || (dir + "/" + Format(rec["filename"]) in disk && "size" !in rec))
    ensures r.Err? ==> r.error in {MissingField("uri"), MissingField("filename"), MissingField("size")}
    ensures r.Ok? ==> (r.value == Skip <==> AlreadyThere(rec, dir + "/" + Format(rec["filename"]), disk))
    ensures r.Ok? && r.value.Fetch? ==>
              && r.value.url == Format(rec["uri"]) + "/" + Format(rec["filename"])
              && r.value.target == dir + "/" + Format(rec["filename"])
  {
    if "uri" !in rec then Err(MissingField("uri"))
    else if "filename" !in rec then Err(MissingField("filename"))
    else
      var url := Format(rec["uri"]) + "/" + Format(rec["filename"]);
      var target := Target(rec, dir);
      if target in disk then
        if "size" !in rec then Err(MissingField("size"))
        else if rec["size"] == Number(disk[target]) then Ok(Skip)
        else Ok(Fetch(url, target))
      else Ok(Fetch(url, target))
  }

  /** Once a fetch has left a file of the record's size at the target, the
      next run skips the package: the decision is idempotent. */
  lemma FetchThenSkip(rec: Record, dir: string, disk: Disk, n: nat)
    requires Plan(rec, dir, disk).Ok? && Plan(rec, dir, disk).value.Fetch?
    requires "size" in rec && rec["size"] == Number(n)
    ensures Plan(rec, dir, disk[Plan(rec, dir, disk).value.target := n]) == Ok(Skip)
  {
  }

  /** Only the file at the target matters. */
  lemma PlanLocal(rec: Record, dir: string, d1: Disk, d2: Disk, target: string)
    requires "filename" in rec && Target(rec, dir) == target
    requires (target in d1 <==> target in d2) && (target in d1 ==> d1[target] == d2[target])
    ensures Plan(rec, dir, d1) == Plan(rec, dir, d2)
  {
  }

  /** A record whose `size` is not an integer, or that has none, is never
      skipped: with the file present the text size never equals the
      integer file size, and a missing one raises. */
  lemma TextSizeNeverSkips(rec: Record, dir: string, disk: Disk)
    requires "size" !in rec || rec["size"].Text?
    ensures Plan(rec, dir, disk) != Ok(Skip)
  {
  }

  // ---------------------------------------------------------------- the total size

  /** The record holds an integer `size`, as a `Size: ` header gives it. */
  predicate Sized(rec: Record) {
    "size" in rec && rec["size"].Number?
  }

  /** `[package.size for package in packages.values()]`: the first record
      without `size` raises. */
  function SizeValues(recs: seq<Record>): (r: Result<seq<Value>>)
    ensures r.Ok? <==> forall i :: 0 <= i < |recs| ==> "size" in recs[i]
    ensures r.Ok? ==> |r.value| == |recs| && forall i :: 0 <= i < |recs| ==> r.value[i] == recs[i]["size"]
    ensures r.Err? ==> r.error == MissingField("size")
  {
    if recs == [] then Ok([])
    else if "size" !in recs[0] then Err(MissingField("size"))
    else
      var rest :- SizeValues(recs[1..]);
      Ok([recs[0]["size"]] + rest)
  }

  /** `sum(sizes)`: integers add up from 0; a text value raises. */
  function Sum(vs: seq<Value>): (r: Result<nat>)
    ensures r.Ok? <==> forall i :: 0 <= i < |vs| ==> vs[i].Number?
    ensures r.Err? ==> r.error == SizeNotNumber
  {
    if vs == [] then Ok(0)
    else if vs[0].Text? then Err(SizeNotNumber)
    else
      var rest :- Sum(vs[1..]);
      Ok(vs[0].n + rest)
  }

  /** The total size both scripts print before any download. The sizes are
      all read before they are added, so a missing `size` anywhere wins
      over a text one. */
  function TotalSize(recs: seq<Record>): (r: Result<nat>)
    ensures r.Ok? <==> forall i :: 0 <= i < |recs| ==> Sized(recs[i])
    ensures r.Err? ==> (r.error == MissingField("size") <==> exists i :: 0 <= i < |recs| && "size" !in recs[i])
    ensures r.Err? ==> r.error in {MissingField("size"), SizeNotNumber}
  {
    var vs :- SizeValues(recs);
    Sum(vs)
  }

  /** The total of one record is its size. */
  lemma TotalSizeOne(rec: Record)
    requires Sized(rec)
    ensures TotalSize([rec]) == Ok(rec["size"].n)
  {
    assert forall i :: 0 <= i < |[rec]| ==> Sized([rec][i]);
    TotalSizeUnfold([rec]);
    assert [rec][1..] == [];
  }

  /** Totals add up over a split of the records. */
  lemma {:induction false} TotalSizeAppend(a: seq<Record>, b: seq<Record>)
    requires TotalSize(a).Ok? && TotalSize(b).Ok?
    ensures TotalSize(a + b) == Ok(TotalSize(a).value + TotalSize(b).value)
    decreases |a|
  {
    if a == [] {
      assert a + b == b;
    } else {
      assert (a + b)[1..] == a[1..] + b;
      assert TotalSize(a[1..]).Ok? by {
        forall i | 0 <= i < |a[1..]| ensures Sized(a[1..][i]) {
          assert a[1..][i] == a[i + 1];
        }
      }
      TotalSizeAppend(a[1..], b);
      TotalSizeUnfold(a);
      TotalSizeUnfold(a + b);
    }
  }

  /** One step of the total: the first size plus the total of the rest. */
  lemma TotalSizeUnfold(recs: seq<Record>)
    requires recs != [] && TotalSize(recs).Ok?
    ensures TotalSize(recs[1..]).Ok?
    ensures TotalSize(recs).value == recs[0]["size"].n + TotalSize(recs[1..]).value
  {
    assert Sized(recs[0]);
    assert forall i :: 0 <= i < |recs[1..]| ==> Sized(recs[1..][i]) by {
      forall i | 0 <= i < |recs[1..]| ensures Sized(recs[1..][i]) {
        assert recs[1..][i] == recs[i + 1];
      }
    }
  }

  /** Once the total is printed every record has an integer size, so the
      download loop never meets the missing-`size` error of `Plan`, nor a
      text size: only a missing `uri` or `filename` can stop it. */
  lemma SizedPlan(recs: seq<Record>, rec: Record, dir: string, disk: Disk)
    requires TotalSize(recs).Ok? && rec in recs
    ensures Plan(rec, dir, disk).Err? <==> "uri" !in rec || "filename" !in rec
  {
    var i :| 0 <= i < |recs| && recs[i] == rec;
    assert Sized(recs[i]);
  }
}
