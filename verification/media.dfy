/** The `media` command: the checks on its options, which rows of a dataset's
`media.csv` it visits and selects, where each selected file goes, the `index.csv`
lines it writes, and the Zenodo record of a media release.

The rows as `get_row_url` resolves them, whether a file exists and its checksum, the
output of `git describe`, today's date, the existing `zenodo.json` and the DOI pattern
are parameters. Downloading, zipping, the listing's printout and the Zenodo API are
not part of this model.
 */
module MediaCommand {
  import opened Wrappers
  import Strings
  import Dicts
  import Numbers
  import Paths
  import Sorting
  import Json
  import Metadata
  import Repository
  import Dataset
  import ZenodoCommand

  const Media := "media"
  const ZenodoFileName := "zenodo.json"
  const IndexCsv := "index.csv"

  /** The community every media release is submitted to. */
  const Communities: seq<string> := ["lexibank"]

  /** With `--debug`, the row index past which the loop stops. */
  const DebugLimit := 500

  /** The options of `cldfbench media` that the model follows. */
  datatype Options = Options(
    mimetype: Option<string>,
    list: bool,
    communities: string,
    parentDoi: string,
    createRelease: bool,
    updateZenodo: Option<string>,
    debug: bool)

  // ---------------------------------------------------------------- option checks

  /** Why `run` gives up before doing anything: each is logged, then a bare
      `ParserError` is raised. */
  datatype Rejection =
    | NoMediaTable
    | InvalidDoi
    | NoReleaseDir
    | NoZenodoFile
    | ReleaseAndUpdate
    | MissingDoi

  /** The condition whose failure each rejection reports. */
  predicate Violated(why: Rejection, o: Options, hasMedia: bool, releaseDir: bool, zenodoFile: bool, isDoi: string -> bool) {
    match why
    case NoMediaTable => !hasMedia
    case InvalidDoi => o.parentDoi != "" && !isDoi(o.parentDoi)
    case NoReleaseDir => Truthy(o.updateZenodo) && !releaseDir
    case NoZenodoFile => Truthy(o.updateZenodo) && !zenodoFile
    case ReleaseAndUpdate => Truthy(o.updateZenodo) && o.createRelease
    case MissingDoi => o.createRelease && o.parentDoi == ""
  }

  /** The options `run` goes on with: there is a media table, a given parent DOI is a
      DOI, an update finds the release directory and its `zenodo.json` and is not
      combined with creating a release, and a release has a parent DOI. */
  predicate Acceptable(o: Options, hasMedia: bool, releaseDir: bool, zenodoFile: bool, isDoi: string -> bool) {
    && hasMedia
    && (o.parentDoi != "" ==> isDoi(o.parentDoi))
    && (Truthy(o.updateZenodo) ==> releaseDir && zenodoFile && !o.createRelease)
    && (o.createRelease ==> o.parentDoi != "")
  }

  /** The checks at the start of `run`, in their order. `hasMedia` is whether the CLDF
      data has a `media.csv`, `releaseDir` and `zenodoFile` whether `<out>/<id>_media`
      and its `zenodo.json` exist, and `isDoi` is the DOI pattern. */
  function Validate(o: Options, hasMedia: bool, releaseDir: bool, zenodoFile: bool, isDoi: string -> bool): (r: Option<Rejection>)
    ensures r.None? <==> Acceptable(o, hasMedia, releaseDir, zenodoFile, isDoi)
    ensures r.Some? ==> Violated(r.value, o, hasMedia, releaseDir, zenodoFile, isDoi)
    ensures !hasMedia ==> r == Some(NoMediaTable)
    ensures hasMedia && o.parentDoi != "" && !isDoi(o.parentDoi) ==> r == Some(InvalidDoi)
  {
    if !hasMedia then Some(NoMediaTable)
    else if o.parentDoi != "" && !isDoi(o.parentDoi) then Some(InvalidDoi)
    else if Truthy(o.updateZenodo) && !releaseDir then Some(NoReleaseDir)
    else if Truthy(o.updateZenodo) && !zenodoFile then Some(NoZenodoFile)
    else if Truthy(o.updateZenodo) && o.createRelease then Some(ReleaseAndUpdate)
    else if o.createRelease && o.parentDoi == "" then Some(MissingDoi)
    else None
  }

  /** Creating a release and updating a deposit at once is never accepted, nor is a
      release without a parent DOI. */
  lemma RejectedCombinations(o: Options, hasMedia: bool, releaseDir: bool, zenodoFile: bool, isDoi: string -> bool)
    ensures o.createRelease && Truthy(o.updateZenodo) ==> Validate(o, hasMedia, releaseDir, zenodoFile, isDoi).Some?
    ensures o.createRelease && o.parentDoi == "" ==> Validate(o, hasMedia, releaseDir, zenodoFile, isDoi).Some?
  {
  }

  // ---------------------------------------------------------------- row selection

  /** The `--mimetype` filter: `None` when the option is empty or missing, else the
      comma-separated entries, each stripped; entries empty before stripping are
      dropped. */
  function MimeTypes(option: Option<string>): (r: Option<seq<string>>)
    ensures r.None? <==> !Truthy(option)
    ensures r.Some? ==> forall x :: x in r.value <==>
              exists p :: p in Strings.Split(option.value, ",") && p != "" && x == Strings.Strip(p)
  {
    if Truthy(option) then Some(Strings.CommaList(option.value)) else None
  }

  /** The selection rule: no filter, or the URL's extension is listed, or the mimetype
      starts with a listed entry (so `audio/` selects a class of mimetypes). */
  predicate Selected(types: Option<seq<string>>, ext: string, mimetype: string) {
    types.None? || ext in types.value || exists x :: x in types.value && Strings.StartsWith(mimetype, x)
  }

  /** An entry that strips to the empty string is a prefix of every mimetype. */
  lemma BlankEntrySelectsAll(types: seq<string>, ext: string, mimetype: string)
    requires "" in types
    ensures Selected(Some(types), ext, mimetype)
  {
    assert Strings.StartsWith(mimetype, "");
  }

  /** `row[k]`: a `KeyError` for a missing column. */
  function Field(fields: Dicts.Dict<string, string>, k: string): (r: Result<string>)
    ensures r.Success? <==> Dicts.HasKey(fields, k)
    ensures r.Success? ==> Some(r.value) == Dicts.Get(fields, k)
    ensures r.Failure? ==> r.error == KeyError(k)
  {
    match Dicts.Get(fields, k)
    case Some(v) => Success(v)
    case None => Failure(KeyError(k))
  }

  /** The selection test as Python evaluates it: the `mimetype` column is read only
      when there is a non-empty filter that does not list the extension. */
  function Selects(types: Option<seq<string>>, ext: string, fields: Dicts.Dict<string, string>): (r: Result<bool>)
    ensures r.Success? <==> types.None? || ext in types.value || |types.value| == 0 || Dicts.HasKey(fields, "mimetype")
    ensures r.Success? ==> (r.value <==> Selected(types, ext, Dicts.Get(fields, "mimetype").GetOr("")))
    ensures r.Failure? ==> r.error == KeyError("mimetype")
  {
    if types.None? || ext in types.value then Success(true)
    else if |types.value| == 0 then Success(false)
    else
      var m :- Field(fields, "mimetype");
      Success(exists x :: x in types.value && Strings.StartsWith(m, x))
  }

  /** `url.split('.')[-1].lower()`: the lowercased text after the last `.`, or the
      whole URL lowercased when it has no `.`. */
  function Extension(url: string): (r: string)
    ensures '.' !in r
    ensures forall i :: 0 <= i < |r| ==> !Strings.IsUpper(r[i])
    ensures '.' !in url ==> r == Strings.Lower(url)
    ensures '.' in url ==> Strings.EndsWith(Strings.Lower(url), "." + r)
  {
    LastPieceFacts(url);
    Strings.Lower(Strings.AfterLast(url, "."))
  }

  lemma LastPieceFacts(url: string)
    ensures var r := Strings.Lower(Strings.AfterLast(url, "."));
            && '.' !in r
            && ('.' !in url ==> r == Strings.Lower(url))
            && ('.' in url ==> Strings.EndsWith(Strings.Lower(url), "." + r))
  {
    var t := Strings.AfterLast(url, ".");
    Strings.ContainsCharIff(t, '.');
    Strings.ContainsCharIff(url, '.');
    var r := Strings.Lower(t);
    assert forall i :: 0 <= i < |r| ==> r[i] == Strings.LowerChar(t[i]) && t[i] != '.';
    if '.' in url {
      var pre := url[..|url| - |t| - 1];
      assert url == pre + ("." + t);
      Strings.LowerAppend(pre, "." + t);
      Strings.LowerAppend(".", t);
      assert Strings.Lower(".") == ".";
      var lu := Strings.Lower(url);
      assert lu == Strings.Lower(pre) + ("." + r);
      assert lu[|lu| - |"." + r|..] == "." + r;
    }
  }

  /** Two dot-free texts that both follow the last `.` of a string are the same. */
  lemma DotFreeSuffixUnique(s: string, x: string, y: string)
    requires '.' !in x && '.' !in y
    requires Strings.EndsWith(s, "." + x) && Strings.EndsWith(s, "." + y)
    ensures x == y
  {
    assert forall k :: |s| - |y| <= k < |s| ==> s[k] == y[k - (|s| - |y|)];
    assert forall k :: |s| - |x| <= k < |s| ==> s[k] == x[k - (|s| - |x|)];
    assert s[|s| - |x| - 1] == '.' && s[|s| - |y| - 1] == '.';
    assert |x| == |y|;
    assert x == s[|s| - |x|..] == y;
  }

  /** The extension of `<stem>.<ext>` is `ext` lowercased. */
  lemma ExtensionOf(stem: string, ext: string)
    requires '.' !in ext
    ensures Extension(stem + "." + ext) == Strings.Lower(ext)
  {
    var url := stem + "." + ext;
    assert url[|stem|] == '.';
    Strings.LowerAppend(stem, "." + ext);
    Strings.LowerAppend(".", ext);
    assert Strings.Lower(".") == ".";
    assert url == stem + ("." + ext);
    var lu := Strings.Lower(url);
    assert lu == Strings.Lower(stem) + ("." + Strings.Lower(ext));
    assert lu[|lu| - |"." + Strings.Lower(ext)|..] == "." + Strings.Lower(ext);
    assert forall i :: 0 <= i < |ext| ==> Strings.Lower(ext)[i] == Strings.LowerChar(ext[i]) && ext[i] != '.';
    DotFreeSuffixUnique(lu, Extension(url), Strings.Lower(ext));
  }

  // ---------------------------------------------------------------- file locations

  /** `ID[:2]`: the folder of a media file. */
  function Folder(id: string): (r: string)
    ensures |r| == if |id| < 2 then |id| else 2
    ensures Strings.StartsWith(id, r)
  {
    if |id| < 2 then id else id[..2]
  }

  /** `pathlib.Path(ID[:2]) / '<ID>.<ext>'`: the row's `local_path`. */
  function LocalPath(id: string, ext: string): (r: Paths.Path)
    ensures Paths.WellFormed(r)
    ensures Paths.IsPart(Folder(id)) && Paths.IsPart(id + "." + ext) ==>
              r == Paths.Path(false, [Folder(id), id + "." + ext])
    ensures Paths.IsPart(Folder(id)) && Paths.IsPart(id + "." + ext) ==>
              Paths.Name(r) == id + "." + ext && Paths.Render(r) == Folder(id) + "/" + id + "." + ext
  {
    JoinedParts(Folder(id), id + "." + ext);
    Paths.Div(Paths.Parse(Folder(id)), Paths.Parse(id + "." + ext))
  }

  lemma JoinedParts(a: string, b: string)
    ensures Paths.IsPart(a) && Paths.IsPart(b) ==> Paths.Div(Paths.Parse(a), Paths.Parse(b)) == Paths.Path(false, [a, b])
    ensures Paths.Render(Paths.Path(false, [a, b])) == a + "/" + b
  {
    if Paths.IsPart(a) && Paths.IsPart(b) {
      Paths.ParsePart(a);
      Paths.ParsePart(b);
    }
    assert Strings.Join([a, b], "/") == a + "/" + Strings.Join([b], "/");
  }

  /** `<out>/media`: where the files are downloaded to. */
  function MediaDir(out: Paths.Path): (r: Paths.Path)
    ensures r == Paths.Path(out.absolute, out.parts + [Media])
  {
    Strings.ContainsCharIff(Media, '/');
    Paths.ChildOfPart(out, Media);
    Paths.Child(out, Media)
  }

  // ---------------------------------------------------------------- the row loop

  /** What `get_row_url` gives for a row: a plain string, or a URI reference, whose
      normalised form also replaces the row's `URL`. */
  datatype RowUrl = Plain(url: string) | Reference(url: string)

  /** A row of `media.csv`: its columns in order, and its URL. */
  datatype Row = Row(fields: Dicts.Dict<string, string>, link: RowUrl)

  /** The row's columns after the URL is written back. */
  function RowFields(row: Row): (r: Dicts.Dict<string, string>)
    ensures row.link.Reference? ==> Dicts.Get(r, "URL") == Some(row.link.url)
    ensures forall k :: k != "URL" || row.link.Plain? ==> Dicts.Get(r, k) == Dicts.Get(row.fields, k)
  {
    if row.link.Reference? then Dicts.Set(row.fields, "URL", row.link.url) else row.fields
  }

  /** A selected row: its position, its URL's extension, its `local_path`, where it is
      downloaded to, its columns with `local_path` added (one `index.csv` line), and
      whether a download starts. */
  datatype Item = Item(
    index: nat,
    ext: string,
    url: string,
    localPath: Paths.Path,
    target: Paths.Path,
    fields: Dicts.Dict<string, string>,
    download: bool)

  /** One turn of the loop when files are fetched. `checksum` gives the md5 of an
      existing file and `None` for a missing one; a download starts unless the file
      exists with the row's ID as its checksum. */
  function Visit(row: Row, i: nat, types: Option<seq<string>>, mediaDir: Paths.Path,
                 checksum: Paths.Path -> Option<string>): (r: Result<Option<Item>>)
    ensures var sel := Selects(types, Extension(row.link.url), RowFields(row));
            && (r.Success? <==> sel.Success? && (sel.value ==> Dicts.HasKey(RowFields(row), "ID")))
            && (r.Success? ==> (r.value.Some? <==> sel.value))
    ensures r.Success? && r.value.Some? ==>
              var it := r.value.value;
              var id := Dicts.Get(RowFields(row), "ID").value;
              && it.index == i && it.url == row.link.url && it.ext == Extension(row.link.url)
              && it.localPath == LocalPath(id, it.ext)
              && it.target == Paths.Div(mediaDir, it.localPath)
              && Dicts.Get(it.fields, "local_path") == Some(Paths.Render(it.localPath))
              && (forall k :: k != "local_path" ==> Dicts.Get(it.fields, k) == Dicts.Get(RowFields(row), k))
              && (it.download <==> checksum(it.target) != Some(id))
  {
    var fields := RowFields(row);
    var ext := Extension(row.link.url);
    var sel :- Selects(types, ext, fields);
    if !sel then Success(None)
    else
      var id :- Field(fields, "ID");
      var lp := LocalPath(id, ext);
      var target := Paths.Div(mediaDir, lp);
      Success(Some(Item(i, ext, row.link.url, lp, target, Dicts.Set(fields, "local_path", Paths.Render(lp)),
                        checksum(target) != Some(id))))
  }

  /** One turn of the loop with `--list`: the counter key `<mimetype> (<ext>)` of a
      selected row, and its `size` column read as an integer. */
  function ListVisit(row: Row, types: Option<seq<string>>): (r: Result<Option<(string, int)>>)
    ensures var sel := Selects(types, Extension(row.link.url), RowFields(row));
            var fields := RowFields(row);
            && (r.Success? <==>
                  (sel.Success? && (sel.value ==> Dicts.HasKey(fields, "mimetype") && Dicts.HasKey(fields, "size")
                                                   && Numbers.ParseInt(Dicts.Get(fields, "size").value).Success?)))
            && (r.Success? ==> (r.value.Some? <==> sel.value))
    ensures var sel := Selects(types, Extension(row.link.url), RowFields(row));
            var fields := RowFields(row);
            && sel == Success(true) && Dicts.HasKey(fields, "mimetype") && Dicts.HasKey(fields, "size")
            && Numbers.ParseInt(Dicts.Get(fields, "size").value).Failure?
            ==> r.Failure? && r.error.ValueError?
    ensures r.Success? && r.value.Some? ==>
              var fields := RowFields(row);
              r.value.value == (Dicts.Get(fields, "mimetype").value + " (" + Extension(row.link.url) + ")",
                                Numbers.ParseInt(Dicts.Get(fields, "size").value).value)
  {
    var fields := RowFields(row);
    var ext := Extension(row.link.url);
    var sel :- Selects(types, ext, fields);
    if !sel then Success(None)
    else
      var m :- Field(fields, "mimetype");
      var size :- Field(fields, "size");
      var n :- Numbers.ParseInt(size);
      Success(Some((m + " (" + ext + ")", n)))
  }

  /** How many of the listed rows have the counter key `k`, and the sum of their sizes:
      the `number` and `size` counters at `k`. */
  function Tally(entries: seq<(string, int)>, k: string): (nat, int) {
    if |entries| == 0 then (0, 0)
    else
      var rest := Tally(entries[1..], k);
      if entries[0].0 == k then (rest.0 + 1, entries[0].1 + rest.1) else rest
  }

  /** The `size` and `number` counters after the loop, updated one selected row at a time. */
  function Totals(entries: seq<(string, int)>): map<string, (nat, int)>
    decreases |entries|
  {
    if |entries| == 0 then map[]
    else
      var n := |entries| - 1;
      var before := Totals(entries[..n]);
      var k := entries[n].0;
      var t := if k in before then before[k] else (0, 0);
      before[k := (t.0 + 1, t.1 + entries[n].1)]
  }

  /** The counters hold exactly the keys of the listed rows, each with its number of rows
      and total size. */
  lemma {:induction false} TotalsTally(entries: seq<(string, int)>)
    ensures forall k :: k in Totals(entries) <==> exists j :: 0 <= j < |entries| && entries[j].0 == k
    ensures forall k :: k in Totals(entries) ==> Totals(entries)[k] == Tally(entries, k)
    decreases |entries|
  {
    if |entries| > 0 {
      var n := |entries| - 1;
      var p := entries[..n];
      TotalsTally(p);
      forall k
        ensures k in Totals(entries) <==> exists j :: 0 <= j < |entries| && entries[j].0 == k
        ensures k in Totals(entries) ==> Totals(entries)[k] == Tally(entries, k)
      {
        TallySnoc(entries, k);
        if k != entries[n].0 {
          if exists j :: 0 <= j < |entries| && entries[j].0 == k {
            var j :| 0 <= j < |entries| && entries[j].0 == k;
            assert p[j] == entries[j];
          }
          if exists j :: 0 <= j < |p| && p[j].0 == k {
            var j :| 0 <= j < |p| && p[j].0 == k;
            assert entries[j] == p[j];
          }
        } else {
          assert entries[n].0 == k;
          if k !in Totals(p) {
            TallyAbsent(p, k);
          }
        }
      }
    }
  }

  /** One more row adds to its own key's tally only. */
  lemma {:induction false} TallySnoc(entries: seq<(string, int)>, k: string)
    requires |entries| > 0
    ensures var n := |entries| - 1;
            var p := Tally(entries[..n], k);
            Tally(entries, k) == if entries[n].0 == k then (p.0 + 1, p.1 + entries[n].1) else p
    decreases |entries|
  {
    var n := |entries| - 1;
    if n > 0 {
      TallySnoc(entries[1..], k);
      assert entries[1..][..n - 1] == entries[..n][1..];
    }
  }

  /** A key no row has is counted zero times. */
  lemma {:induction false} TallyAbsent(entries: seq<(string, int)>, k: string)
    requires forall j :: 0 <= j < |entries| ==> entries[j].0 != k
    ensures Tally(entries, k) == (0, 0)
    decreases |entries|
  {
    if |entries| > 0 {
      assert forall j :: 0 <= j < |entries| - 1 ==> entries[1..][j] == entries[j + 1];
      TallyAbsent(entries[1..], k);
    }
  }

  /** The visit of the fetching loop, for `Scan`. */
  function Fetcher(types: Option<seq<string>>, mediaDir: Paths.Path, checksum: Paths.Path -> Option<string>): (Row, nat) -> Result<Option<Item>> {
    (row: Row, i: nat) => Visit(row, i, types, mediaDir, checksum)
  }

  /** The visit of the listing loop, for `Scan`. */
  function Lister(types: Option<seq<string>>): (Row, nat) -> Result<Option<(string, int)>> {
    (row: Row, i: nat) => ListVisit(row, types)
  }

  /** The values of the successful visits that selected something, in order. */
  function Picks<X>(outs: seq<Result<Option<X>>>): seq<X> {
    if |outs| == 0 then []
    else (if outs[0].Success? && outs[0].value.Some? then [outs[0].value.value] else []) + Picks(outs[1..])
  }

  /** The visits of `rows`, the first at index `i`. */
  function Visits<X>(rows: seq<Row>, i: nat, visit: (Row, nat) -> Result<Option<X>>): (r: seq<Result<Option<X>>>)
    ensures |r| == |rows|
    ensures forall j :: 0 <= j < |rows| ==> r[j] == visit(rows[j], i + j)
  {
    seq(|rows|, j requires 0 <= j < |rows| => visit(rows[j], i + j))
  }

  /** The loop over the rows from index `i`; with `debug`, it stops once the index
      exceeds `DebugLimit`. The first failing visit ends it. */
  function Scan<X>(rows: seq<Row>, i: nat, debug: bool, visit: (Row, nat) -> Result<Option<X>>): (r: Result<seq<X>>)
    ensures !debug ==> (r.Success? <==> forall j :: 0 <= j < |rows| ==> visit(rows[j], i + j).Success?)
    ensures !debug && r.Success? ==> r.value == Picks(Visits(rows, i, visit))
    decreases |rows|
  {
    if |rows| == 0 || (debug && i > DebugLimit) then Success([])
    else
      var x := visit(rows[0], i);
      var rest := Scan(rows[1..], i + 1, debug, visit);
      assert Visits(rows, i, visit)[1..] == Visits(rows[1..], i + 1, visit);
      assert forall j :: 1 <= j < |rows| ==> rows[j] == rows[1..][j - 1] && i + j == (i + 1) + (j - 1);
      if x.Failure? then Failure(x.error)
      else if rest.Failure? then Failure(rest.error)
      else Success((if x.value.Some? then [x.value.value] else []) + rest.value)
  }

  function Min(a: int, b: int): int { if a < b then a else b }

  /** With `--debug`, the loop from index `i` visits exactly the rows up to index
      `DebugLimit`, as if the later rows were not there. */
  lemma {:induction false} ScanDebug<X>(rows: seq<Row>, i: nat, visit: (Row, nat) -> Result<Option<X>>)
    requires i <= DebugLimit + 1
    ensures Scan(rows, i, true, visit) == Scan(rows[..Min(|rows|, DebugLimit + 1 - i)], i, false, visit)
    decreases |rows|
  {
    var k := Min(|rows|, DebugLimit + 1 - i);
    if |rows| == 0 || i > DebugLimit {
      assert rows[..k] == [];
    } else {
      ScanDebug(rows[1..], i + 1, visit);
      assert rows[..k][0] == rows[0];
      assert rows[..k][1..] == rows[1..][..Min(|rows[1..]|, DebugLimit + 1 - (i + 1))];
    }
  }

  /** From the start, `--debug` visits at most the first `DebugLimit + 1` rows. */
  lemma DebugVisitsFirstRows<X>(rows: seq<Row>, visit: (Row, nat) -> Result<Option<X>>)
    ensures Scan(rows, 0, true, visit) == Scan(rows[..Min(|rows|, DebugLimit + 1)], 0, false, visit)
  {
    ScanDebug(rows, 0, visit);
  }

  // ---------------------------------------------------------------- index.csv

  /** The lines the `index.csv` writer gets, as written: the header is written with
      the row at index 0, and only if that row is selected. */
  function IndexAsWritten(items: seq<Item>): (r: seq<seq<string>>)
    ensures |r| >= |items|
    ensures |items| > 0 && items[0].index == 0 ==> r[0] == Dicts.Keys(items[0].fields)
    ensures |items| > 0 && items[0].index > 0 ==> r[0] == Dicts.Values(items[0].fields)
  {
    if |items| == 0 then []
    else
      (if items[0].index == 0 then [Dicts.Keys(items[0].fields)] else [])
      + [Dicts.Values(items[0].fields)] + IndexAsWritten(items[1..])
  }

  /** When no selected row is at index 0, the written file has no header: one line
      per selected row, each of values. */
  lemma {:induction false} IndexAsWrittenLacksHeader(items: seq<Item>)
    requires forall j :: 0 <= j < |items| ==> items[j].index > 0
    ensures |IndexAsWritten(items)| == |items|
    ensures forall j :: 0 <= j < |items| ==> IndexAsWritten(items)[j] == Dicts.Values(items[j].fields)
  {
    if |items| > 0 {
      IndexAsWrittenLacksHeader(items[1..]);
      assert forall j :: 1 <= j < |items| ==> items[j] == items[1..][j - 1];
    }
  }

  /** A filter that skips the first row: with `-m wav`, a PDF as row 0 and a WAV as
      row 1, the only selected item is at index 1, so the index gets no header. */
  lemma FilteredFirstRowDropsHeader(pdf: Row, wav: Row, mediaDir: Paths.Path, checksum: Paths.Path -> Option<string>)
    requires pdf == Row([("ID", "ab"), ("mimetype", "application/pdf")], Plain("ab" + "." + "pdf"))
    requires wav == Row([("ID", "cd"), ("mimetype", "audio/x-wav")], Plain("cd" + "." + "wav"))
    ensures var items := Scan([pdf, wav], 0, false, Fetcher(Some(["wav"]), mediaDir, checksum));
            && items.Success? && |items.value| == 1 && items.value[0].index == 1
            && |IndexAsWritten(items.value)| == 1
            && IndexAsWritten(items.value)[0] == Dicts.Values(items.value[0].fields)
  {
    PdfNotSelected(pdf, mediaDir, checksum);
    WavSelected(wav, mediaDir, checksum);
    var it := Visit(wav, 1, Some(["wav"]), mediaDir, checksum).value.value;
    ScanOfTwo(pdf, wav, Fetcher(Some(["wav"]), mediaDir, checksum), it);
    IndexAsWrittenLacksHeader([it]);
  }

  /** Two rows of which only the second is selected give that one item. */
  lemma ScanOfTwo<X>(r0: Row, r1: Row, visit: (Row, nat) -> Result<Option<X>>, x: X)
    requires visit(r0, 0) == Success(None) && visit(r1, 1) == Success(Some(x))
    ensures Scan([r0, r1], 0, false, visit) == Success([x])
  {
    var vs := Visits([r0, r1], 0, visit);
    assert vs == [Success(None), Success(Some(x))];
    assert vs[1..] == [Success(Some(x))];
    assert vs[1..][1..] == [];
    assert Picks(vs[1..]) == [x] + Picks(vs[1..][1..]);
    assert Picks(vs) == Picks(vs[1..]);
    assert Picks(vs) == [x];
    var rows := [r0, r1];
    assert rows[0] == r0 && rows[1] == r1;
    assert forall j :: 0 <= j < |rows| ==> visit(rows[j], 0 + j).Success?;
    assert Scan(rows, 0, false, visit).Success?;
  }

  /** A URL ending in a lower-case extension has that extension. */
  lemma ExtensionOfLower(stem: string, ext: string)
    requires '.' !in ext && forall i :: 0 <= i < |ext| ==> !Strings.IsUpper(ext[i])
    ensures Extension(stem + "." + ext) == ext
  {
    ExtensionOf(stem, ext);
  }

  /** A row whose extension is not listed and whose mimetype starts with no entry is
      passed over. */
  lemma VisitSkips(row: Row, i: nat, types: seq<string>, mediaDir: Paths.Path, checksum: Paths.Path -> Option<string>, m: string)
    requires Extension(row.link.url) !in types && |types| > 0
    requires Dicts.Get(RowFields(row), "mimetype") == Some(m)
    requires forall x :: x in types ==> !Strings.StartsWith(m, x)
    ensures Visit(row, i, Some(types), mediaDir, checksum) == Success(None)
  {
  }

  /** A row whose extension is listed and which has an `ID` is kept. */
  lemma VisitKeeps(row: Row, i: nat, types: seq<string>, mediaDir: Paths.Path, checksum: Paths.Path -> Option<string>)
    requires Extension(row.link.url) in types
    requires Dicts.HasKey(RowFields(row), "ID")
    ensures var v := Visit(row, i, Some(types), mediaDir, checksum);
            v.Success? && v.value.Some? && v.value.value.index == i
  {
  }

  lemma PdfExtension(pdf: Row)
    requires pdf == Row([("ID", "ab"), ("mimetype", "application/pdf")], Plain("ab" + "." + "pdf"))
    ensures Extension(pdf.link.url) == "pdf" && Extension(pdf.link.url) !in ["wav"]
  {
    ExtensionOfLower("ab", "pdf");
    assert "pdf"[0] != "wav"[0];
  }

  lemma PdfMimetype(pdf: Row)
    requires pdf == Row([("ID", "ab"), ("mimetype", "application/pdf")], Plain("ab" + "." + "pdf"))
    ensures Dicts.Get(RowFields(pdf), "mimetype") == Some("application/pdf")
    ensures forall x :: x in ["wav"] ==> !Strings.StartsWith("application/pdf", x)
  {
    assert RowFields(pdf) == pdf.fields;
    Dicts.ConsFacts("ID", "ab", [("mimetype", "application/pdf")], "mimetype");
    Dicts.ConsFacts("mimetype", "application/pdf", [], "mimetype");
    assert pdf.fields == [("ID", "ab")] + [("mimetype", "application/pdf")];
    assert [("mimetype", "application/pdf")] == [("mimetype", "application/pdf")] + [];
    assert "application/pdf"[0] != "wav"[0];
  }

  lemma PdfNotSelected(pdf: Row, mediaDir: Paths.Path, checksum: Paths.Path -> Option<string>)
    requires pdf == Row([("ID", "ab"), ("mimetype", "application/pdf")], Plain("ab" + "." + "pdf"))
    ensures Visit(pdf, 0, Some(["wav"]), mediaDir, checksum) == Success(None)
  {
    PdfExtension(pdf);
    PdfMimetype(pdf);
    VisitSkips(pdf, 0, ["wav"], mediaDir, checksum, "application/pdf");
  }

  lemma WavSelected(wav: Row, mediaDir: Paths.Path, checksum: Paths.Path -> Option<string>)
    requires wav == Row([("ID", "cd"), ("mimetype", "audio/x-wav")], Plain("cd" + "." + "wav"))
    ensures var v := Visit(wav, 1, Some(["wav"]), mediaDir, checksum);
            v.Success? && v.value.Some? && v.value.value.index == 1
  {
    ExtensionOfLower("cd", "wav");
    assert Dicts.HasKey(RowFields(wav), "ID");
    VisitKeeps(wav, 1, ["wav"], mediaDir, checksum);
  }

  /** The values of each item's columns, in order. */
  function Lines(items: seq<Item>): (r: seq<seq<string>>)
    ensures |r| == |items|
    ensures forall j :: 0 <= j < |items| ==> r[j] == Dicts.Values(items[j].fields)
  {
    seq(|items|, j requires 0 <= j < |items| => Dicts.Values(items[j].fields))
  }

  /** The `index.csv` lines with the header before the first selected row, whatever
      its index: a header exactly when there is a line. */
  function Index(items: seq<Item>): (r: seq<seq<string>>)
    ensures |items| == 0 <==> |r| == 0
    ensures |items| > 0 ==> |r| == |items| + 1 && r[0] == Dicts.Keys(items[0].fields) && r[1..] == Lines(items)
  {
    if |items| == 0 then [] else [Dicts.Keys(items[0].fields)] + Lines(items)
  }

  /** The two agree when the first selected row is row 0, and the loop yields items
      with increasing indexes, so only the first can be at index 0. */
  lemma {:induction false} IndexAgreesFromRowZero(items: seq<Item>)
    requires |items| > 0 && items[0].index == 0
    requires forall j :: 1 <= j < |items| ==> items[j].index > 0
    ensures IndexAsWritten(items) == Index(items)
  {
    var rest := items[1..];
    assert forall j :: 0 <= j < |rest| ==> rest[j].index > 0 by {
      forall j | 0 <= j < |rest| ensures rest[j].index > 0 {
        assert rest[j] == items[j + 1];
      }
    }
    IndexAsWrittenLacksHeader(rest);
    var lines := LinesCons(items);
    assert IndexAsWritten(rest) == Lines(rest);
    calc {
      IndexAsWritten(items);
      [Dicts.Keys(items[0].fields)] + [Dicts.Values(items[0].fields)] + IndexAsWritten(rest);
      [Dicts.Keys(items[0].fields)] + ([Dicts.Values(items[0].fields)] + Lines(rest));
      [Dicts.Keys(items[0].fields)] + Lines(items);
    }
  }

  /** With items coming from rows at or after their own position, as the loop yields
      them, the index as written has its header exactly when row 0 is selected. */
  lemma IndexHeaderAtRowZero(items: seq<Item>)
    requires forall j :: 0 <= j < |items| ==> j <= items[j].index
    ensures |items| > 0 && items[0].index == 0 ==> IndexAsWritten(items) == Index(items)
    ensures |items| == 0 || items[0].index > 0 ==> IndexAsWritten(items) == Lines(items)
  {
    if |items| > 0 && items[0].index == 0 {
      IndexAgreesFromRowZero(items);
    } else {
      IndexAsWrittenLacksHeader(items);
    }
  }

  /** The `j`-th selected item comes from a row at position `i + j` or later, and before
      the end of the rows. */
  lemma ScanItemIndexes(rows: seq<Row>, i: nat, debug: bool, types: Option<seq<string>>,
                        mediaDir: Paths.Path, checksum: Paths.Path -> Option<string>)
    ensures var r := Scan(rows, i, debug, Fetcher(types, mediaDir, checksum));
            r.Success? ==> forall j :: 0 <= j < |r.value| ==> i + j <= r.value[j].index < i + |rows|
  {
    var visit := Fetcher(types, mediaDir, checksum);
    var pos := (it: Item) => it.index;
    forall row, k | visit(row, k).Success? && visit(row, k).value.Some?
      ensures pos(visit(row, k).value.value) == k
    {
      assert visit(row, k) == Visit(row, k, types, mediaDir, checksum);
    }
    ScanPositions(rows, i, debug, visit, pos);
  }

  /** For any visit that tags what it yields with the row's index, the `j`-th value of a
      scan from `i` carries an index from `i + j` up to the end of the rows. */
  lemma {:induction false} ScanPositions<X>(rows: seq<Row>, i: nat, debug: bool,
                                            visit: (Row, nat) -> Result<Option<X>>, pos: X -> nat)
    requires forall row, k :: visit(row, k).Success? && visit(row, k).value.Some? ==> pos(visit(row, k).value.value) == k
    ensures var r := Scan(rows, i, debug, visit);
            r.Success? ==> forall j :: 0 <= j < |r.value| ==> i + j <= pos(r.value[j]) < i + |rows|
    decreases |rows|
  {
    var r := Scan(rows, i, debug, visit);
    if |rows| > 0 && !(debug && i > DebugLimit) && r.Success? {
      ScanPositions(rows[1..], i + 1, debug, visit, pos);
      var x := visit(rows[0], i);
      var rest := Scan(rows[1..], i + 1, debug, visit).value;
      var head := if x.value.Some? then [x.value.value] else [];
      assert r.value == head + rest;
      forall j | 0 <= j < |r.value| ensures i + j <= pos(r.value[j]) < i + |rows| {
        if j >= |head| {
          assert r.value[j] == rest[j - |head|];
        }
      }
    }
  }

  /** The lines of a non-empty list are the first item's values, then the rest's lines. */
  lemma LinesCons(items: seq<Item>) returns (lines: seq<seq<string>>)
    requires |items| > 0
    ensures lines == Lines(items) && lines == [Dicts.Values(items[0].fields)] + Lines(items[1..])
  {
    lines := Lines(items);
    var rest := Lines(items[1..]);
    assert forall j :: 1 <= j < |items| ==> lines[j] == rest[j - 1];
  }

  // ---------------------------------------------------------------- release metadata

  /** `version_v`, the `git describe` text before the first `-`, and `version`, that
      text with every `v` removed. */
  function ReleaseVersion(describe: string): (r: (string, string))
    ensures Strings.StartsWith(describe, r.0) && '-' !in r.0
    ensures '-' in describe ==> describe[|r.0|] == '-'
    ensures '-' !in describe ==> r.0 == describe
    ensures r.1 == Strings.RemoveChar(r.0, 'v')
    ensures 'v' !in r.1 && '-' !in r.1
  {
    var vv := Strings.BeforeFirst(describe, "-");
    Strings.BeforeFirstHasNoSep(describe, "-");
    Strings.ContainsCharIff(vv, '-');
    Strings.ContainsCharIff(describe, '-');
    Strings.RemoveCharKeepsOthers(vv, 'v');
    (vv, Strings.Replace(vv, "v", ""))
  }

  /** `v1.2-3-gabcdef` is released as version `1.2` of the tree `v1.2`. */
  lemma ReleaseVersionOfTag()
    ensures ReleaseVersion("v1.2-3-gabcdef") == ("v1.2", "1.2")
  {
    Strings.BeforeFirstAt("v1.2", "-3-gabcdef", "-");
    assert "v1.2" + "-3-gabcdef" == "v1.2-3-gabcdef";
    assert Strings.RemoveChar("v1.2", 'v') == Strings.RemoveChar("1.2", 'v');
    assert Strings.RemoveChar("1.2", 'v') == "1" + Strings.RemoveChar(".2", 'v');
    assert Strings.RemoveChar(".2", 'v') == "." + Strings.RemoveChar("2", 'v');
  }

  /** The origin URL as written: `.replace('.git', '')` removes every `.git`. */
  function GitUrlAsWritten(origin: string): string {
    Strings.Replace(origin, ".git", "")
  }

  /** A `.git` inside the URL goes as well: `<a>.git<b>.git` becomes `<a><b>`, so the
      clone `https://github.com/org/org.github.io.git` gives the tree URL base
      `https://github.com/org/orghub.io`. */
  lemma GitUrlAsWrittenDropsInnerGit(a: string, b: string)
    requires !Strings.Contains(a, ".git") && !Strings.Contains(b, ".git")
    ensures GitUrlAsWritten(a + ".git" + b + ".git") == a + b
  {
    var sep := ".git";
    assert sep[0] !in sep[1..];
    SplitTwice(a, b, sep);
    JoinThree(a, b);
  }

  lemma JoinThree(a: string, b: string)
    ensures Strings.Join([a, b, ""], "") == a + b
  {
    assert Strings.Join([a, b, ""], "") == a + "" + Strings.Join([b, ""], "");
    assert Strings.Join([b, ""], "") == b + "" + Strings.Join([""], "");
  }

  /** Splitting `<a><sep><b><sep>` on a separator that neither part contains. */
  lemma SplitTwice(a: string, b: string, sep: string)
    requires |sep| > 0 && sep[0] !in sep[1..]
    requires !Strings.Contains(a, sep) && !Strings.Contains(b, sep)
    ensures Strings.Split(a + sep + b + sep, sep) == [a, b, ""]
  {
    var t := b + sep;
    SplitBefore(a, t, sep);
    AppendAssoc(a + sep, b, sep);
    SplitBefore(b, "", sep);
    assert b + sep + "" == t;
    assert !Strings.Contains("", sep);
  }

  lemma AppendAssoc(x: string, y: string, z: string)
    ensures x + y + z == x + (y + z)
  {
  }

  /** Splitting `<a><sep><rest>`, for an `a` without `sep`. */
  lemma SplitBefore(a: string, rest: string, sep: string)
    requires |sep| > 0 && sep[0] !in sep[1..]
    requires !Strings.Contains(a, sep)
    ensures Strings.Split(a + sep + rest, sep) == [a] + Strings.Split(rest, sep)
  {
    var tail := sep + rest;
    var s := a + tail;
    assert s == a + sep + rest;
    Strings.BeforeFirstAtFresh(a, tail, sep);
    assert Strings.OccursAt(s, sep, |a|) by { assert s[|a|..|a| + |sep|] == sep; }
    Strings.ContainsIffOccurs(s, sep);
    Strings.SplitFirstPiece(s, sep);
    assert s[|a| + |sep|..] == rest;
  }

  /** The origin URL with one trailing `.git` removed, the evidently intended base of
      the release's tree URL. */
  function GitUrlOf(origin: string): (r: string)
    ensures Strings.EndsWith(origin, ".git") ==> r + ".git" == origin
    ensures !Strings.EndsWith(origin, ".git") ==> r == origin
  {
    Repository.Url(Some(origin)).value
  }

  /** A `.git` inside the URL stays: only the suffix goes. */
  lemma GitUrlKeepsInnerGit(a: string, b: string)
    ensures GitUrlOf(a + ".git" + b + ".git") == a + ".git" + b
  {
    Repository.UrlStripsOneSuffix(a + ".git" + b);
  }

  /** When the only `.git` is the suffix, removing every `.git` and removing the suffix
      agree. */
  lemma GitUrlAgreesOnSuffix(a: string)
    requires !Strings.Contains(a, ".git")
    ensures GitUrlAsWritten(a + ".git") == a
    ensures GitUrlOf(a + ".git") == a
  {
    var sep := ".git";
    assert sep[0] !in sep[1..];
    SplitBefore(a, "", sep);
    assert a + sep + "" == a + sep;
    assert !Strings.Contains("", sep);
    assert Strings.Join([a, ""], "") == a + "" + Strings.Join([""], "");
    Repository.UrlStripsOneSuffix(a);
  }

  /** The URL of the dataset's `origin` remote with every `.git` removed, as the
      release records it: an `AttributeError` without a repository, an `IndexError`
      without an `origin`. */
  function GitUrl(ds: Dataset.Dataset): (r: Result<string>)
    ensures ds.repo.None? ==> r.Failure? && r.error.AttributeError?
    ensures ds.repo.Some? && ds.repo.value.origin.None? ==> r.Failure? && r.error.IndexError?
    ensures ds.repo.Some? && ds.repo.value.origin.Some? ==> r == Success(GitUrlAsWritten(ds.repo.value.origin.value))
    ensures ds.repo.Some? && ds.repo.value.origin.Some? && !Strings.Contains(ds.repo.value.origin.value, ".git") ==>
              r == Success(ds.repo.value.origin.value)
  {
    match ds.repo
    case None => Failure(AttributeError("'NoneType' object has no attribute 'repo'"))
    case Some(repo) =>
      match repo.origin
      case None => Failure(IndexError("list index out of range"))
      case Some(u) => Success(GitUrlAsWritten(u))
  }

  /** `_contrib`: a person's `name`, `affiliation`, `orcid` and `type`, an empty
      `orcid` included. `zenodo` drops an empty `orcid`; otherwise the two agree. */
  function MediaContrib(d: Metadata.Record): (r: map<string, string>)
    ensures r.Keys == d.Keys * ZenodoCommand.ContribKeys
    ensures forall k :: k in r ==> r[k] == d[k]
    ensures ZenodoCommand.Contrib(d) == if "orcid" in r && r["orcid"] == "" then r - {"orcid"} else r
  {
    map k | k in d && k in ZenodoCommand.ContribKeys :: d[k]
  }

  function MediaContribList(people: seq<Metadata.Record>): (r: Json.Value)
    ensures r.Array? && |r.items| == |people|
  {
    Json.Array(seq(|people|, i requires 0 <= i < |people| =>
      var c := MediaContrib(people[i]);
      Json.Object(map k | k in c :: Json.Str(c[k]))))
  }

  /** The creators and the contributors, each written only when there are any. */
  function WithPeople(md: Json.Document, people: Metadata.People): (r: Json.Document)
    ensures Dicts.Get(r, "creators") ==
              if |people.creators| > 0 then Some(MediaContribList(people.creators)) else Dicts.Get(md, "creators")
    ensures Dicts.Get(r, "contributors") ==
              if |people.contributors| > 0 then Some(MediaContribList(people.contributors)) else Dicts.Get(md, "contributors")
    ensures forall k :: k != "creators" && k != "contributors" ==> Dicts.Get(r, k) == Dicts.Get(md, k)
    ensures Dicts.Valid(md) ==> Dicts.Valid(r)
  {
    var md1 := ZenodoCommand.SetIf(md, |people.creators| > 0, "creators", MediaContribList(people.creators));
    ZenodoCommand.SetIf(md1, |people.contributors| > 0, "contributors", MediaContribList(people.contributors))
  }

  /** All communities: the existing ones, those of the option, and `lexibank`. */
  function AllCommunities(existing: seq<string>, option: string): (r: seq<string>)
    ensures |r| > 0 && "lexibank" in r
    ensures forall c :: c in r <==> c in existing || c in Strings.CommaList(option) || c == "lexibank"
  {
    existing + Strings.CommaList(option) + Communities
  }

  /** The communities, replaced by the sorted set of all of them unless in debug mode. */
  function WithCommunities(md: Json.Document, option: string, debug: bool): (r: Result<Json.Document>)
    ensures r.Success? <==> ZenodoCommand.ExistingCommunities(Dicts.Get(md, "communities")).Success?
    ensures r.Success? ==> forall k :: k != "communities" ==> Dicts.Get(r.value, k) == Dicts.Get(md, k)
    ensures r.Success? && Dicts.Valid(md) ==> Dicts.Valid(r.value)
  {
    var existing :- ZenodoCommand.ExistingCommunities(Dicts.Get(md, "communities"));
    Success(ZenodoCommand.SetIf(md, !debug, "communities", ZenodoCommand.CommunityList(AllCommunities(existing, option))))
  }

  /** The communities `WithCommunities` writes. */
  lemma WithCommunitiesWrites(md: Json.Document, option: string, debug: bool)
    requires WithCommunities(md, option, debug).Success?
    ensures var all := AllCommunities(ZenodoCommand.ExistingCommunities(Dicts.Get(md, "communities")).value, option);
            Dicts.Get(WithCommunities(md, option, debug).value, "communities") ==
              if !debug then Some(ZenodoCommand.CommunityList(all)) else Dicts.Get(md, "communities")
  {
  }

  /** `<title> Media Files`; a missing title prints as `None`. */
  function ReleaseTitle(title: Option<string>): string {
    PyStr(title) + " Media Files"
  }

  function RelatedIdentifier(scheme: string, identifier: string, relation: string): Json.Value {
    Json.Object(map["scheme" := Json.Str(scheme), "identifier" := Json.Str(identifier), "relation" := Json.Str(relation)])
  }

  /** `related_identifiers`: the repository tree of the release, then the parent DOI
      when given, then the dataset's URL when it has one. */
  function RelatedIdentifiers(gitUrl: string, versionV: string, parentDoi: string, url: Option<string>): (r: seq<Json.Value>)
    ensures |r| == 1 + (if parentDoi != "" then 1 else 0) + (if Truthy(url) then 1 else 0)
    ensures r[0] == RelatedIdentifier("url", gitUrl + "/tree/" + versionV, "isSupplementTo")
    ensures parentDoi != "" ==> r[1] == RelatedIdentifier("doi", parentDoi, "isPartOf")
    ensures Truthy(url) ==> r[|r| - 1] == RelatedIdentifier("url", url.value, "isAlternateIdentifier")
  {
    [RelatedIdentifier("url", gitUrl + "/tree/" + versionV, "isSupplementTo")]
    + (if parentDoi != "" then [RelatedIdentifier("doi", parentDoi, "isPartOf")] else [])
    + (if Truthy(url) then [RelatedIdentifier("url", url.value, "isAlternateIdentifier")] else [])
  }

  /** The three keys of the update that record the release. */
  function Stamp(md: Json.Document, today: string, version: string, related: seq<Json.Value>): (r: Json.Document)
    ensures Dicts.Get(r, "publication_date") == Some(Json.Str(today))
    ensures Dicts.Get(r, "version") == Some(Json.Str(version))
    ensures Dicts.Get(r, "related_identifiers") == Some(Json.Array(related))
    ensures forall k :: k != "publication_date" && k != "version" && k != "related_identifiers" ==>
              Dicts.Get(r, k) == Dicts.Get(md, k)
    ensures Dicts.Valid(md) ==> Dicts.Valid(r)
  {
    var md1 := Dicts.Set(md, "publication_date", Json.Str(today));
    var md2 := Dicts.Set(md1, "version", Json.Str(version));
    Dicts.Set(md2, "related_identifiers", Json.Array(related))
  }

  /** The text of the description before escaping. */
  function DescriptionText(title: string, formats: string, parentDoi: string, dsTitle: Option<string>,
                           description: Option<string>, url: Option<string>): string {
    var fmt := if formats != "" then " (" + formats + ")" else "";
    var supplement := " - Supplement to dataset <a href='https://doi.org/" + parentDoi + "'>" + PyStr(dsTitle) + "</a> ";
    var descr := if Truthy(description) then "<br /><br />" + description.value else "";
    var online := if Truthy(url) then "<br /><br />Available online at: <a href='" + url.value + "'>" + url.value + "</a>" else "";
    title + fmt + supplement + " " + descr + " " + online
  }

  /** The description: the text, HTML-escaped as a whole, markup included. */
  function ReleaseDescription(title: string, formats: string, parentDoi: string, dsTitle: Option<string>,
                              description: Option<string>, url: Option<string>): (r: string)
    ensures ZenodoCommand.HtmlUnescape(r) == DescriptionText(title, formats, parentDoi, dsTitle, description, url)
    ensures '<' !in r && '>' !in r && '\'' !in r
  {
    ZenodoCommand.HtmlEscapeRoundTrip(DescriptionText(title, formats, parentDoi, dsTitle, description, url));
    ZenodoCommand.HtmlEscape(DescriptionText(title, formats, parentDoi, dsTitle, description, url))
  }

  /** `formats`: the used extensions, sorted and deduplicated, joined by `, `. */
  function Formats(exts: seq<string>): string {
    Strings.Join(Sorting.SortedSet(exts), ", ")
  }

  /** The description, always written, and the license, for one Zenodo knows. */
  function WithDescriptionAndLicense(md: Json.Document, description: string, license: Option<string>): (r: Json.Document)
    ensures Dicts.Get(r, "description") == Some(Json.Str(description))
    ensures Dicts.Get(r, "license") ==
              if license.Some? then Some(Json.Object(map["id" := Json.Str(license.value)])) else Dicts.Get(md, "license")
    ensures forall k :: k != "description" && k != "license" ==> Dicts.Get(r, k) == Dicts.Get(md, k)
    ensures Dicts.Valid(md) ==> Dicts.Valid(r)
  {
    var md1 := Dicts.Set(md, "description", Json.Str(description));
    ZenodoCommand.SetIf(md1, license.Some?, "license", Json.Object(map["id" := Json.Str(license.GetOr(""))]))
  }

  /** What the release record depends on besides the dataset and the options. */
  datatype ReleaseInputs = ReleaseInputs(
    existing: Option<Json.Document>,
    table: Option<Metadata.Table>,
    describe: string,
    today: string,
    find: string -> Option<Metadata.License>)

  /** The keys the release record may write. */
  const Written: set<string> := {
    "creators", "contributors", "communities", "title", "access_right", "keywords", "upload_type",
    "publication_date", "version", "related_identifiers", "description", "license"
  }

  /** The keys of a release record that share a length are still distinct. */
  lemma KeysDistinct()
    ensures "version" != "license" && "keywords" != "creators" && "access_right" != "contributors"
    ensures "communities" != "description" && "communities" != "upload_type" && "description" != "upload_type"
  {
  }

  /** The keys the existing record gets from the dataset: people, communities, title,
      access right, keywords and upload type. Existing communities or keywords of the
      wrong shape raise. */
  function Merge(md: Json.Document, people: Metadata.People, title: string, communities: string, debug: bool)
    : (r: Result<Json.Document>)
    ensures r.Success? <==>
              && ZenodoCommand.ExistingCommunities(Dicts.Get(md, "communities")).Success?
              && ZenodoCommand.ExistingKeywords(Dicts.Get(md, "keywords")).Success?
    ensures r.Success? && Dicts.Valid(md) ==> Dicts.Valid(r.value)
  {
    KeysDistinct();
    var md1 := WithPeople(md, people);
    Dicts.Unchanged(md, md1, {"creators", "contributors"}, "communities");
    Dicts.Unchanged(md, md1, {"creators", "contributors"}, "keywords");
    var md2 :- WithCommunities(md1, communities, debug);
    Dicts.Unchanged(md1, md2, {"communities"}, "keywords");
    ZenodoCommand.WithOverwrites(md2, Some(title), [])
  }

  lemma WithPeopleKeeps(md: Json.Document, people: Metadata.People, k: string)
    requires k != "creators" && k != "contributors"
    ensures Dicts.Get(WithPeople(md, people), k) == Dicts.Get(md, k)
  {
    Dicts.Unchanged(md, WithPeople(md, people), {"creators", "contributors"}, k);
  }

  lemma WithCommunitiesKeeps(md: Json.Document, option: string, debug: bool, k: string)
    requires WithCommunities(md, option, debug).Success? && k != "communities"
    ensures Dicts.Get(WithCommunities(md, option, debug).value, k) == Dicts.Get(md, k)
  {
    Dicts.Unchanged(md, WithCommunities(md, option, debug).value, {"communities"}, k);
  }

  lemma OverwriteKeeps(md: Json.Document, title: string, keywords: Json.Value, k: string)
    requires k !in {"title", "access_right", "keywords", "upload_type"}
    ensures Dicts.Get(ZenodoCommand.Overwrite(md, Some(title), keywords), k) == Dicts.Get(md, k)
  {
    Dicts.Unchanged(md, ZenodoCommand.Overwrite(md, Some(title), keywords), {"title", "access_right", "keywords", "upload_type"}, k);
  }

  /** The stages of `Merge`. */
  lemma MergeStages(md: Json.Document, people: Metadata.People, title: string, communities: string, debug: bool)
    returns (md1: Json.Document, md2: Json.Document, kws: Json.Value)
    requires Merge(md, people, title, communities, debug).Success?
    ensures md1 == WithPeople(md, people)
    ensures WithCommunities(md1, communities, debug) == Success(md2)
    ensures kws == Json.Strs(ZenodoCommand.Keywords(ZenodoCommand.ExistingKeywords(Dicts.Get(md2, "keywords")).value, []))
    ensures Merge(md, people, title, communities, debug).value == ZenodoCommand.Overwrite(md2, Some(title), kws)
  {
    md1 := WithPeople(md, people);
    md2 := WithCommunities(md1, communities, debug).value;
    kws := Json.Strs(ZenodoCommand.Keywords(ZenodoCommand.ExistingKeywords(Dicts.Get(md2, "keywords")).value, []));
  }

  /** The communities `Merge` writes: existing, given and `lexibank`, unless in debug
      mode. */
  lemma MergeCommunities(md: Json.Document, people: Metadata.People, title: string, communities: string, debug: bool)
    requires Merge(md, people, title, communities, debug).Success?
    ensures var all := AllCommunities(ZenodoCommand.ExistingCommunities(Dicts.Get(md, "communities")).value, communities);
            Dicts.Get(Merge(md, people, title, communities, debug).value, "communities") ==
              if !debug then Some(ZenodoCommand.CommunityList(all)) else Dicts.Get(md, "communities")
  {
    KeysDistinct();
    var md1, md2, kws := MergeStages(md, people, title, communities, debug);
    WithPeopleKeeps(md, people, "communities");
    WithCommunitiesWrites(md1, communities, debug);
    OverwriteKeeps(md2, title, kws, "communities");
  }

  /** The title, access right, upload type and merged keywords `Merge` writes. */
  lemma MergeOverwrites(md: Json.Document, people: Metadata.People, title: string, communities: string, debug: bool)
    requires Merge(md, people, title, communities, debug).Success?
    ensures var r := Merge(md, people, title, communities, debug).value;
            && Dicts.Get(r, "title") == Some(Json.Str(title))
            && Dicts.Get(r, "access_right") == Some(Json.Str("open"))
            && Dicts.Get(r, "upload_type") == Some(Json.Str("dataset"))
            && Dicts.Get(r, "keywords") ==
                 Some(Json.Strs(ZenodoCommand.Keywords(ZenodoCommand.ExistingKeywords(Dicts.Get(md, "keywords")).value, [])))
  {
    KeysDistinct();
    var md1, md2, kws := MergeStages(md, people, title, communities, debug);
    WithPeopleKeeps(md, people, "keywords");
    WithCommunitiesKeeps(md1, communities, debug, "keywords");
  }

  /** `Merge` changes no key but the ones it writes. */
  lemma MergeKeeps(md: Json.Document, people: Metadata.People, title: string, communities: string, debug: bool, k: string)
    requires Merge(md, people, title, communities, debug).Success?
    requires k !in {"creators", "contributors", "communities", "title", "access_right", "keywords", "upload_type"}
    ensures Dicts.Get(Merge(md, people, title, communities, debug).value, k) == Dicts.Get(md, k)
  {
    var md1, md2, kws := MergeStages(md, people, title, communities, debug);
    WithPeopleKeeps(md, people, k);
    WithCommunitiesKeeps(md1, communities, debug, k);
    OverwriteKeeps(md2, title, kws, k);
  }

  /** The keys that record the release itself: date, version, related identifiers,
      description and license. */
  function Record(md: Json.Document, today: string, version: string, related: seq<Json.Value>,
                  description: string, license: Option<string>): (r: Json.Document)
    ensures Dicts.Get(r, "publication_date") == Some(Json.Str(today))
    ensures Dicts.Get(r, "version") == Some(Json.Str(version))
    ensures Dicts.Get(r, "related_identifiers") == Some(Json.Array(related))
    ensures Dicts.Get(r, "description") == Some(Json.Str(description))
    ensures Dicts.Get(r, "license") ==
              if license.Some? then Some(Json.Object(map["id" := Json.Str(license.value)])) else Dicts.Get(md, "license")
    ensures forall k :: k !in {"publication_date", "version", "related_identifiers", "description", "license"} ==>
              Dicts.Get(r, k) == Dicts.Get(md, k)
    ensures Dicts.Valid(md) ==> Dicts.Valid(r)
  {
    KeysDistinct();
    var s := Stamp(md, today, version, related);
    var r := WithDescriptionAndLicense(s, description, license);
    Dicts.Unchanged(s, r, {"description", "license"}, "publication_date");
    Dicts.Unchanged(s, r, {"description", "license"}, "version");
    Dicts.Unchanged(s, r, {"description", "license"}, "related_identifiers");
    r
  }

  /** The record written to `<out>/<id>_media/zenodo.json` with `--create-release`.
      `exts` are the extensions of the selected rows. `run` only gets here with a
      parent DOI. */
  function Release(ds: Dataset.Dataset, o: Options, inp: ReleaseInputs, exts: seq<string>): (r: Result<Json.Document>)
    requires o.parentDoi != ""
    ensures var md := inp.existing.GetOr([]);
            r.Success? <==>
              && GitUrl(ds).Success?
              && ZenodoCommand.ExistingCommunities(Dicts.Get(md, "communities")).Success?
              && ZenodoCommand.ExistingKeywords(Dicts.Get(md, "keywords")).Success?
    ensures Dicts.Valid(inp.existing.GetOr([])) && r.Success? ==> Dicts.Valid(r.value)
  {
    var version := ReleaseVersion(inp.describe);
    var gitUrl :- GitUrl(ds);
    var people := Metadata.GetCreatorsAndContributors(inp.table, false).value;
    var title := ReleaseTitle(ds.metadata.title);
    var md :- Merge(inp.existing.GetOr([]), people, title, o.communities, o.debug);
    var description := ReleaseDescription(title, Formats(exts), o.parentDoi, ds.metadata.title,
                                          ds.metadata.description, ds.metadata.url);
    Success(Record(md, inp.today, version.1, RelatedIdentifiers(gitUrl, version.0, o.parentDoi, ds.metadata.url),
                   description, Metadata.ZenodoLicense(ds.metadata, inp.find)))
  }

  lemma RecordKeeps(md: Json.Document, today: string, version: string, related: seq<Json.Value>,
                    description: string, license: Option<string>, k: string)
    requires k !in {"publication_date", "version", "related_identifiers", "description", "license"}
    ensures Dicts.Get(Record(md, today, version, related, description, license), k) == Dicts.Get(md, k)
  {
    Dicts.Unchanged(md, Record(md, today, version, related, description, license),
                    {"publication_date", "version", "related_identifiers", "description", "license"}, k);
  }

  /** The merged record a release starts from, and what `Record` adds to it. */
  lemma ReleaseStages(ds: Dataset.Dataset, o: Options, inp: ReleaseInputs, exts: seq<string>)
    returns (people: Metadata.People, title: string, md: Json.Document, related: seq<Json.Value>,
             description: string, license: Option<string>)
    requires o.parentDoi != ""
    requires Release(ds, o, inp, exts).Success?
    ensures people == Metadata.GetCreatorsAndContributors(inp.table, false).value
    ensures title == ReleaseTitle(ds.metadata.title)
    ensures Merge(inp.existing.GetOr([]), people, title, o.communities, o.debug) == Success(md)
    ensures related == RelatedIdentifiers(GitUrl(ds).value, ReleaseVersion(inp.describe).0, o.parentDoi, ds.metadata.url)
    ensures Release(ds, o, inp, exts).value ==
              Record(md, inp.today, ReleaseVersion(inp.describe).1, related, description, license)
  {
    people := Metadata.GetCreatorsAndContributors(inp.table, false).value;
    title := ReleaseTitle(ds.metadata.title);
    md := Merge(inp.existing.GetOr([]), people, title, o.communities, o.debug).value;
    related := RelatedIdentifiers(GitUrl(ds).value, ReleaseVersion(inp.describe).0, o.parentDoi, ds.metadata.url);
    description := ReleaseDescription(title, Formats(exts), o.parentDoi, ds.metadata.title,
                                      ds.metadata.description, ds.metadata.url);
    license := Metadata.ZenodoLicense(ds.metadata, inp.find);
  }

  /** A release leaves every other key of the existing record as it was. */
  lemma ReleaseKeepsOtherKeys(ds: Dataset.Dataset, o: Options, inp: ReleaseInputs, exts: seq<string>, k: string)
    requires o.parentDoi != ""
    requires Release(ds, o, inp, exts).Success?
    requires k !in Written
    ensures Dicts.Get(Release(ds, o, inp, exts).value, k) == Dicts.Get(inp.existing.GetOr([]), k)
  {
    var people, title, md, related, description, license := ReleaseStages(ds, o, inp, exts);
    RecordKeeps(md, inp.today, ReleaseVersion(inp.describe).1, related, description, license, k);
    MergeKeeps(inp.existing.GetOr([]), people, title, o.communities, o.debug, k);
  }

  /** The communities of a release: existing, given and `lexibank`, sorted and
      deduplicated; left as they were in debug mode. */
  lemma ReleaseCommunities(ds: Dataset.Dataset, o: Options, inp: ReleaseInputs, exts: seq<string>)
    requires o.parentDoi != ""
    requires Release(ds, o, inp, exts).Success?
    ensures var r := Release(ds, o, inp, exts).value;
            var md := inp.existing.GetOr([]);
            var all := AllCommunities(ZenodoCommand.ExistingCommunities(Dicts.Get(md, "communities")).value, o.communities);
            Dicts.Get(r, "communities") == if !o.debug then Some(ZenodoCommand.CommunityList(all)) else Dicts.Get(md, "communities")
  {
    KeysDistinct();
    var people, title, md, related, description, license := ReleaseStages(ds, o, inp, exts);
    RecordKeeps(md, inp.today, ReleaseVersion(inp.describe).1, related, description, license, "communities");
    MergeCommunities(inp.existing.GetOr([]), people, title, o.communities, o.debug);
  }

  /** The version and the tree URL of a release come from `git describe` and the
      origin URL. */
  lemma ReleaseVersionAndTree(ds: Dataset.Dataset, o: Options, inp: ReleaseInputs, exts: seq<string>)
    requires o.parentDoi != ""
    requires Release(ds, o, inp, exts).Success?
    ensures var r := Release(ds, o, inp, exts).value;
            var v := ReleaseVersion(inp.describe);
            && Dicts.Get(r, "version") == Some(Json.Str(v.1))
            && Dicts.Get(r, "publication_date") == Some(Json.Str(inp.today))
            && Dicts.Get(r, "related_identifiers") ==
                 Some(Json.Array(RelatedIdentifiers(GitUrlAsWritten(ds.repo.value.origin.value), v.0, o.parentDoi, ds.metadata.url)))
  {
    var people, title, md, related, description, license := ReleaseStages(ds, o, inp, exts);
  }

  /** The title, access right, upload type and keywords of a release. */
  lemma ReleaseOverwrites(ds: Dataset.Dataset, o: Options, inp: ReleaseInputs, exts: seq<string>)
    requires o.parentDoi != ""
    requires Release(ds, o, inp, exts).Success?
    ensures var r := Release(ds, o, inp, exts).value;
            var md := inp.existing.GetOr([]);
            && Dicts.Get(r, "title") == Some(Json.Str(ReleaseTitle(ds.metadata.title)))
            && Dicts.Get(r, "access_right") == Some(Json.Str("open"))
            && Dicts.Get(r, "upload_type") == Some(Json.Str("dataset"))
            && Dicts.Get(r, "keywords") ==
                 Some(Json.Strs(ZenodoCommand.Keywords(ZenodoCommand.ExistingKeywords(Dicts.Get(md, "keywords")).value, [])))
  {
    KeysDistinct();
    var people, title, md, related, description, license := ReleaseStages(ds, o, inp, exts);
    var v := ReleaseVersion(inp.describe).1;
    RecordKeeps(md, inp.today, v, related, description, license, "title");
    RecordKeeps(md, inp.today, v, related, description, license, "access_right");
    RecordKeeps(md, inp.today, v, related, description, license, "upload_type");
    RecordKeeps(md, inp.today, v, related, description, license, "keywords");
    MergeOverwrites(inp.existing.GetOr([]), people, title, o.communities, o.debug);
  }

  // ---------------------------------------------------------------- run

  /** The world `run` sees: whether the media table, the release directory and its
      `zenodo.json` exist, the DOI pattern, the output directory, file checksums, and
      what the release record depends on. */
  datatype Env = Env(
    hasMedia: bool,
    releaseDir: bool,
    zenodoFile: bool,
    isDoi: string -> bool,
    out: Paths.Path,
    checksum: Paths.Path -> Option<string>,
    inputs: ReleaseInputs)

  /** What `run` does: give up, list the selected rows, fetch the selected files (with
      the `index.csv` lines and, for a release, the Zenodo record), or go on to update
      a deposit. */
  datatype Outcome =
    | Rejected(reason: Rejection)
    | Listed(entries: seq<(string, int)>, totals: map<string, (nat, int)>)
    | Fetched(items: seq<Item>, index: seq<seq<string>>, release: Option<Json.Document>)
    | Deposit

  function ItemExts(items: seq<Item>): (r: seq<string>)
    ensures |r| == |items|
  {
    seq(|items|, j requires 0 <= j < |items| => items[j].ext)
  }

  /** `run(args)` for the dataset `ds` with rows `rows`. With `--update-zenodo` the
      loop is skipped. */
  function Run(ds: Dataset.Dataset, o: Options, rows: seq<Row>, env: Env): (r: Result<Outcome>)
    ensures var v := Validate(o, env.hasMedia, env.releaseDir, env.zenodoFile, env.isDoi);
            v.Some? ==> r == Success(Rejected(v.value))
    ensures r.Success? && !r.value.Rejected? ==> Acceptable(o, env.hasMedia, env.releaseDir, env.zenodoFile, env.isDoi)
    ensures r.Success? && r.value.Listed? ==> o.list && r.value.totals == Totals(r.value.entries)
    ensures r.Success? && r.value.Fetched? ==> !o.list && r.value.index == IndexAsWritten(r.value.items)
    ensures r.Success? && r.value.Fetched? ==>
              forall j :: 0 <= j < |r.value.items| ==> j <= r.value.items[j].index
    ensures r.Success? && r.value.Fetched? ==> (r.value.release.Some? <==> o.createRelease)
    ensures r.Success? && r.value.Deposit? ==> Truthy(o.updateZenodo) && !o.list && !o.createRelease
    ensures Truthy(o.updateZenodo) && r.Success? && r.value.Listed? ==> r.value.entries == []
  {
    var v := Validate(o, env.hasMedia, env.releaseDir, env.zenodoFile, env.isDoi);
    if v.Some? then Success(Rejected(v.value))
    else
      var types := MimeTypes(o.mimetype);
      var skip := Truthy(o.updateZenodo);
      if o.list then
        var entries :- if skip then Success([]) else Scan(rows, 0, o.debug, Lister(types));
        Success(Listed(entries, Totals(entries)))
      else
        var items :- if skip then Success([])
                     else Scan(rows, 0, o.debug, Fetcher(types, MediaDir(env.out), env.checksum));
        ScanItemIndexes(rows, 0, o.debug, types, MediaDir(env.out), env.checksum);
        if o.createRelease then
          var md :- Release(ds, o, env.inputs, ItemExts(items));
          Success(Fetched(items, IndexAsWritten(items), Some(md)))
        else if skip then Success(Deposit)
        else Success(Fetched(items, IndexAsWritten(items), None))
  }
}
