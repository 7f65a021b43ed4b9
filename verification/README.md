# apt-parser in Dafny

This project models the string pipeline at the heart of apt-parser. The pipeline turns APT source lists into a catalog of packages, keeping one record per package name. The repository has two scripts that each run it:

- `aptparser.py`, the main tool;
- `apt-mirror.py`, an older, slightly different copy.

Both do the same steps, and each step has its own module here:

- **`Sources`**: read the `.list` files and normalise their lines. This covers aptparser's `SOURCES_LINE_FILTER_PAT` substitution, `filter_deb_line` and `get_deb_lines`, plus the `SOURCES_LINE_PAT` grammar for one source line. Both regular expressions are written out as hand-made scanners.
- **`Index`**: for every component of a line:
  - build the index URL `<url>/dists/<release>/<component>/binary-amd64/Packages.gz`;
  - derive the file APT caches it under in `/var/lib/apt/lists` (`URL_MATCHER`);
  - read the cache, or fetch the index;
  - split the index into stanzas, each ending in a `uri:` line.

  This is aptparser's `get_packages_from_deb_line`, together with the main loop that skips unparseable and `deb-src` lines.
- **`Control`**: the control-stanza parser `parse_package_metadata`:
  - a header is split at its first `": "`;
  - the key is lower-cased;
  - `Size` is coerced to an integer;
  - continuation lines that begin with a space are folded in, stripped;
  - a lone `.` continuation becomes an empty line.

  Control also has a writer for stanzas, which the parser inverts.
- **`Catalog`**: `get_larger_version` and the catalog loop. The version comparison `apt_pkg.version_compare` is a parameter, assumed to be a total preorder where the properties need one.
- **`Download`**: the skip-or-fetch decision of the download loop.
- **`Mirror`**: everything `apt-mirror.py` does differently:
  - its `filter_deb_lines` and `get_deb_lines`;
  - the `maxsplit=3` whitespace split instead of the grammar;
  - the inline copy of the stanza parser, and the catalog loop, as methods with loops;
  - the column widths.

`PyStr` models the Python string operations the scripts use:

- `strip` and `split`;
- `re.split(r"\s+")` with and without `maxsplit`;
- `splitlines`, `lower`, `int` and `str` on naturals;
- `os.path.join`.

`Outcome` holds the `Result`/`Option` wrappers and the error kinds. There is one kind per exception path of the scripts.

Values that come from outside the program are parameters:

- The files on disk and the network are an `Env`. It maps a cache path to its text, and a URL to a status and a body.
- The sizes of files already downloaded are a `Disk`.
- The version comparator is a `Comparator`.

Behaviours of the code that are easy to misread; the model follows the code:

- **Ties go to the later record.** `get_larger_version` keeps the existing record only when `version_compare` is at least 1. A tie therefore goes to the later record, not the first one seen (`Catalog.TieGoesToLater`).
- **Continuation lines begin with a space, not any whitespace.** A tab-led line is a header.
- **Only the exact key `Size` is coerced to an integer.** Its value is stored under `size`; `SIZE` or `size` stay text.
- **aptparser's list filter removes a `#` comment only after whitespace.** A `#` glued to a word stays until `get_packages_from_deb_line` cuts `" ?#.*"`.
- **apt-mirror keeps `deb-src` lines and accepts an empty list.** It does not validate the URL, so a URL without `http://` or `https://` makes `URL_MATCHER` fail (`Mirror.MirrorNonHttpFails`).
- **A missing or non-text `package` field ends aptparser's whole run.** aptparser raises `AttributeError` when it reads `package`, so this is not an error for that stanza only. apt-mirror catches that error and goes on with the previous record's name; see "## Left out".
- **A record without an integer `size` ends the run before any download.** Both scripts add up every `size` first (`Download.TotalSize`), so the download loop only sees records with an integer size (`Download.SizedPlan`).
- **A `/`-led release or component resets the joined path.** `os.path.join` starts over at an absolute component. The URL matcher then fails (`Index.AbsoluteReleaseFails`, `Index.AbsoluteComponentFails`).

## Model

| member | source | states |
|---|---|---|
| Control.FieldShape | aptparser.py:84-104 | A header fails exactly when it has no `": "`, or when it is a `Size: ` header whose value is not a decimal number or that has continuation lines. The key is lower-case. The value is an integer exactly for a `Size: ` header, and then the key is `size`. |
| Control.StanzaShape | aptparser.py:77-105 | A parsed stanza is a non-empty record with lower-case keys in which only `size` may hold an integer. |
| Control.ParseLinesAppend | aptparser.py:81-104 | Lines are consumed front to back. Lines cut at a header line parse as the first part, then the second part continues from that record. An error in the first part is the outcome. |
| Control.MalformedHeaderIsFatal | aptparser.py:83-87 | A header line without `": "` anywhere in a stanza makes the whole stanza fail. No partial record comes back. |
| Control.LastHeaderWins | aptparser.py:104 | A header parsed last sets its field, overwriting an earlier field of the same lower-cased name. |
| Control.FoldedField | aptparser.py:93-103 | `k: x` followed by ` a`, ` .`, ` b` is one field. Its name is `k` lower-cased and its value is `x`, `a`, an empty line and `b`, joined by newlines. |
| Control.ParseEncode | aptparser.py:77-105 | Writing a non-empty list of fields as a stanza and parsing it gives back the fields' record, later fields winning. This holds for values containing `": "`, multi-line values and empty lines written as ` .`, and integer `size` fields. |
| Sources.FilterSubPlain | aptparser.py:42 | The filter substitution leaves a line without `[` or `#` unchanged. |
| Sources.OptionBlockRemoved | aptparser.py:42 | A `[options]` block and the whitespace after it are cut out of the line and nothing else around them changes. |
| Sources.CommentRemoved | aptparser.py:42 | A `#` comment preceded by whitespace is cut out together with that whitespace. |
| Sources.ListedLinesMembers | aptparser.py:141-143 | A line is read exactly when it is a line (`splitlines`) of some file whose name ends in `.list`. |
| Sources.GetDebLinesMembers | aptparser.py:140-157 | The result is exactly the set of normalised `.list` lines that start with `deb` but not `deb-src`. When there are none, the outcome is `InvalidListException`. |
| Sources.FilterDebLine | aptparser.py:119-126 | A line is accepted exactly when it starts with `deb`; any other line is `DebSrcLineUnparseable`. The result is the line's text before its first `#` (all of it when there is none), stripped; it has no `#` and starts with `deb`. |
| Sources.FilterDebLineIdempotent | aptparser.py:119-126 | Filtering an accepted line again gives the same line. |
| Sources.StripCommentsSpaced | aptparser.py:190 | `" ?#.*"` removes a comment together with the one space before it. |
| Sources.StripCommentsBare | aptparser.py:190 | `" ?#.*"` removes a comment glued to a word and leaves the word intact. |
| Sources.MatchSourceLine | aptparser.py:41 | A matched line starts with `deb`; its kind is `deb-src` exactly when it starts with `deb-src`. The URL is an `http(s)://` word and the release is a word. The components are non-empty and without `#`, and an option block is a bracketed word. |
| Sources.MatchRendered | aptparser.py:41 | Every well-formed entry written with single spaces is matched back as that same entry: the grammar inverts the rendering. |
| Sources.ComponentsRendered | aptparser.py:203 | Components written as words joined by single spaces come back as exactly those words from `re.split(r"\s+")`. |
| Index.IndexUrlShape | aptparser.py:208-213 | For a release and component without `/`, the index URL is the source URL followed by exactly one `/`, then `dists/<release>/<component>/binary-amd64/Packages.gz`. |
| Index.MatchIndexUrl | aptparser.py:46 | A URL without the `http(s)://` scheme does not match. With the scheme, it matches exactly when a `.gz`, `.xz`, `.lzma` or `.bz2` extension starts before the first newline. The group is the text after the scheme up to the LAST such extension before that newline: the greedy `.*` backs off only as far as it must. |
| Index.MatchGz | aptparser.py:46 | On a one-line `http(s)` URL ending in `.gz` the group is everything between the scheme and that last `.gz`. |
| Index.CachePath | aptparser.py:214-219 | The cache path fails with `AttributeError` exactly when the matcher rejects the URL. Otherwise it is a file directly inside `/var/lib/apt/lists`, with no further `/`. |
| Index.IndexCachePath | aptparser.py:207-219 | For every `http(s)` source URL and every release and component not starting with `/`, the matcher succeeds. The cache file is the index URL without scheme and `.gz`, every `/` turned into `_`. |
| Index.AbsoluteComponentFails | aptparser.py:208-219 | A component starting with `/` resets the joined path, so the matcher fails. |
| Index.AbsoluteReleaseFails | aptparser.py:208-219 | A release starting with `/` resets the joined path, whatever the component, so the matcher fails. |
| Index.FetchIndex | aptparser.py:221-232 | A cached index is read without a fetch. Otherwise the fetch must answer 200 and its body is the text. Any other status is the bare `ValueError`; the model's `FetchStatus` error carries the URL and status that the script prints before raising it. |
| Index.NonEmptyMembers | aptparser.py:234 | Dropping the falsy chunks loses exactly the empty chunks. |
| Index.SplitStanzasSpec | aptparser.py:234 | There is one stanza per non-empty blank-line-separated chunk, in order. Each is the chunk stripped of newlines, followed by `"\nuri: " + url`. |
| Index.StanzaUri | aptparser.py:234 | Every stanza that parses has `uri` equal to the source URL, whatever `URI` or `uri` field the index itself carried. |
| Index.FetchComponentsOrder | aptparser.py:207-236 | The components are read in order and their stanzas concatenated in that order. The loop succeeds exactly when every component's index can be read. |
| Index.GetPackagesOutcome | aptparser.py:189-207 | After the comment is cut: a line the grammar rejects is `DebSrcLineUnparseable` with that line; a `deb-src` line is `DebSrcNotImplemented`; a `deb` line reads its components. |
| Index.FetchNeverSkips | aptparser.py:214-232 | Reading indexes fails only with fetch and matcher errors, never with the two errors the main loop skips. |
| Index.GetPackagesRendered | aptparser.py:189-241 | A rendered `deb` entry without `#` is read as its own URL, release and components. |
| Index.CollectOk | aptparser.py:285-292 | The run over the deb lines survives exactly when every line is either read or skipped as unparseable or `deb-src`. |
| Index.SkippedLineIrrelevant | aptparser.py:285-292 | A skipped line contributes nothing: removing it changes neither the stanzas nor the error. |
| Catalog.LargerVersion | aptparser.py:107-116 | Both versions must be text fields. The kept record is returned exactly when the comparator gives at least 1, and otherwise the new one. |
| Catalog.Update | aptparser.py:297-304 | The record's text `package` names its entry. The names after the update are the old names plus that one. Every other entry is unchanged, and a new name gets the record. Missing or non-text fields are the errors. |
| Catalog.UpdateKnown | aptparser.py:301-302 | A known name keeps its record exactly when that record's version is strictly greater. On equal versions the new record replaces it. |
| Catalog.FoldNamed | aptparser.py:294-304 | A successful loop met a text package name in every record. |
| Catalog.FoldSurvivors | aptparser.py:294-304 | Under a total preorder, a successful loop from an empty catalog has an entry for every name among the records. That entry is the record of newest version, the later one on ties. |
| Catalog.TieGoesToLater | aptparser.py:113-116 | Two records of one name with equal versions leave the later one in the catalog. |
| Catalog.RecordParsed | aptparser.py:294-298 | Every record the loop sees is the parse of a non-empty stanza text. |
| Catalog.IngestIsFold | aptparser.py:294-304 | Looping over stanza texts is parsing them all, then looping over the records. When a text does not parse, the loop fails. |
| Catalog.IngestSurvivors | aptparser.py:294-304 | The catalog built from stanza texts holds, for every name, the parsed record that survives among all of them. |
| Download.Plan | aptparser.py:329-335 | The URL is `uri/filename` and the target `dir/filename`. The package is skipped exactly when a file of the record's integer size is at the target, and fetched otherwise. Missing `uri` or `filename`, or a missing `size` once the file exists, is an error. apt-mirror.py:187-193 decides the same way. |
| Download.TotalSize | aptparser.py:309-310 | The total exists exactly when every record has an integer `size`. Otherwise a record without `size` raises `AttributeError` while the sizes are collected, before `sum` can meet a text size and raise `TypeError`. apt-mirror.py:181-182 computes the same total. |
| Download.TotalSizeOne | aptparser.py:309-310 | The total of one record is its `size`. |
| Download.TotalSizeAppend | aptparser.py:309-310 | The totals of two groups of records add up to the total of both, so the total is the sum of the sizes. |
| Download.SizedPlan | aptparser.py:309-335 | After the total is printed, a package's download decision fails only on a missing `uri` or `filename`: the `size` error of the loop cannot be reached. |
| Mirror.FilterDebLines | apt-mirror.py:41-46 | A line starting with `deb` gives the text before its first `#`, stripped, and any other line `None`. It accepts the same lines and gives the same text as aptparser's `filter_deb_line`, and its results are never empty. |
| Mirror.Kept | apt-mirror.py:60 | A line contributes exactly its filter result, when it has one. |
| Mirror.MirrorKeptMember | apt-mirror.py:59-61 | A line survives the truthiness filter exactly when it is the filter result of some line. |
| Mirror.GetMirrorDebLinesMember | apt-mirror.py:49-62 | The result is exactly the filtered `deb`-prefixed lines of the `.list` files, `deb-src` lines included. |
| Mirror.SplitDebLine | apt-mirror.py:66-67 | Fewer than four whitespace-separated fields is the unpacking `ValueError`. Otherwise kind, URI, release and every one of the (at least one) components contain no whitespace. On a non-empty stripped line, which is what the filter hands over, each of them is a non-empty word. |
| Mirror.SplitDebLineJoin | apt-mirror.py:66-67 | Three words and a list of words joined by single spaces split back into exactly those fields. |
| Mirror.SplitRendered | apt-mirror.py:66-67 | A well-formed entry without option block splits into the same kind, URL, release and components the aptparser grammar reads. |
| Mirror.MirrorRendered | apt-mirror.py:65-102 | On a rendered entry both scripts read the same indexes for a `deb` line. On a `deb-src` line the mirror reads the indexes that aptparser refuses. |
| Mirror.MirrorNonHttpFails | apt-mirror.py:74-81 | A URI without `http://` or `https://` in front makes the matcher fail for every release and component. |
| Mirror.MirrorLineNonHttp | apt-mirror.py:73-81 | A split line whose URI has no scheme fails on its first component. |
| Mirror.MirrorCollectOutcome | apt-mirror.py:127-130 | No line is skipped. The run succeeds exactly when every line does, and otherwise fails with some line's error. |
| Mirror.FoldRun | apt-mirror.py:149-156 | The inner loop pops exactly the run of continuation lines and folds each of them. |
| Mirror.ReadField | apt-mirror.py:140-158 | One turn of the outer loop reads exactly the field `parse_package_metadata` reads from that point, and leaves the lines after its continuation run. |
| Mirror.ParseInline | apt-mirror.py:137-158 | The inline parser gives the same record as `parse_package_metadata` for every stanza, and fails in the same cases with the same error. |
| Mirror.BuildCatalog | apt-mirror.py:134-168 | The main loop builds the catalog of the aptparser loop: empty texts skipped, the others parsed and merged with the same keep-if-strictly-newer rule. |
| Mirror.ColumnWidths | apt-mirror.py:170-179 | The widths exist exactly when every record has a text name and version; otherwise the first record lacking one gives the error. Each width is the largest length clamped to 30, and 0 for an empty catalog. |

## Left out

- Reading files, listing directories, `os.path.isfile`/`isdir`/`stat`, gzip decompression and HTTP requests: the outcomes they supply are the `Env` and `Disk` parameters. Decoding bytes is not modelled; texts are strings.
- `get_files_from_deb_line` (aptparser.py:159-186): it is unfinished, fetches `InRelease` and returns nothing.
- `copy_url`, the streaming loop of a download, `mkdir` and writing the file: these are pure I/O. The model stops at the skip-or-fetch decision, with the order of the download loop left out.
- Console output, progress bars, tables, `humanfriendly.format_size`, argument parsing and `sys.argv` handling. The total size is modelled only as far as it can end the run (`Download.TotalSize`); its formatting is not.
- The JSON snapshot (`--input-file`, `--output-file`, `NamespaceEncoder`): it is serialisation through a library.
- aptparser's `pkg_len` and `ver_len` (aptparser.py:306-307). They take `max` of a list, so they raise on an empty catalog, and they raise `AttributeError` on a record without `version`. Both run before the total size, so such a record ends the run there. They only size table columns. apt-mirror's widths are modelled (`Mirror.ColumnWidths`).
- `apt_pkg.version_compare`: it is a foreign call, so it is the `Comparator` parameter. No Debian version ordering is implemented.
- PyStr.Lower: only ASCII letters are lowered, where Python lowers every Unicode letter.
- PyStr.ParseDecimal: `int()` is modelled on ASCII digits only, without signs, underscores, surrounding whitespace or other Unicode digits.
- The order in which a dictionary yields its values: `Mirror.ColumnWidths` takes the records as a sequence in any order, and its result does not depend on that order.
- apt-mirror's missing-`package` handling (apt-mirror.py:161-164): a bare `except` swallows the `AttributeError`. On the first record `name` is still unbound and the run ends with `NameError`; on a later one the record is merged under the previous record's name. The model gives the error a missing field raises in both cases, so it does not model the merge under a stale name.
- Download.FetchThenSkip, Download.PlanLocal and Download.TextSizeNeverSkips: they state that the decision is idempotent, depends only on the file at the target, and never skips a record whose `size` is not an integer. Dafny proves them directly from the contract of `Plan`, so they are not listed above. `Plan`'s missing-`size` error and `TextSizeNeverSkips` describe records that the scripts never hand to the download loop, because the total size has already ended the run (`Download.SizedPlan`).
