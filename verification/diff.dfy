/** The `diff` command: whether the CLDF data in a dataset's working tree differs
"essentially" from the committed version.

The paths `git diff` reports as changed, and the committed and the working copy of a
metadata file (as functions of its path), are parameters; the log lines are returned
as the lists of keys they name.
 */
module DiffCommand {
  import opened Wrappers
  import Strings
  import Seqs
  import Dicts
  import Paths
  import Json
  import Repository
  import Dataset

  /** How one changed path counts. */
  datatype PathKind = Ignored | MetadataFile | DataFile

  /** The rule for the file name of a path under `cldf/`: dot files and
      `requirements.txt` are ignored, a name ending in `metadata.json` is metadata. */
  function KindOfName(name: string): PathKind {
    if Strings.StartsWith(name, ".") || name == "requirements.txt" then Ignored
    else if Strings.EndsWith(name, "metadata.json") then MetadataFile
    else DataFile
  }

  /** The kind of a changed path: only paths under `cldf/` count. */
  function Classify(aPath: string): (k: PathKind)
    ensures !Strings.StartsWith(aPath, "cldf/") ==> k == Ignored
  {
    if !Strings.StartsWith(aPath, "cldf/") then Ignored
    else KindOfName(Paths.Name(Paths.Parse(aPath)))
  }

  /** The name `pathlib` gives a path is its last proper component. */
  lemma NameOfJoined(a: string, n: string)
    requires Paths.IsPart(n)
    ensures Paths.Name(Paths.Parse(a + "/" + n)) == n
  {
    Strings.SplitCharConcat(a, n, '/');
    Strings.ContainsCharIff(n, '/');
    assert Strings.Split(n, "/") == [n];
    Seqs.FilterAppend(Paths.IsPart, Strings.Split(a, "/"), [n]);
    assert Seqs.Filter(Paths.IsPart, [n]) == [n];
  }

  /** A path in or below `cldf/` is classified by its file name alone. */
  lemma ClassifyByName(dir: string, n: string)
    requires Paths.IsPart(n)
    ensures Classify(dir + "/" + n) ==
      if Strings.StartsWith(dir + "/", "cldf/") then KindOfName(n) else Ignored
  {
    var p := dir + "/" + n;
    if Strings.StartsWith(dir + "/", "cldf/") {
      assert p[..5] == (dir + "/")[..5];
      NameOfJoined(dir, n);
    } else {
      if |dir| < 4 {
        assert p[|dir|] == '/' && "cldf/"[|dir|] != '/';
      } else {
        assert (dir + "/")[..5] == p[..5];
      }
    }
  }

  /** The outcome of the loop over the changed paths. */
  datatype Scan = DataChange(path: string) | MetadataScan(changed: Option<string>)

  /** The loop from the current position on, with the metadata path seen so far;
      `kind` classifies a path. */
  function ScanFrom(paths: seq<string>, kind: string -> PathKind, md: Option<string>): (r: Scan)
    ensures r.DataChange? <==> exists i :: 0 <= i < |paths| && kind(paths[i]) == DataFile
    ensures r.DataChange? ==> exists i :: 0 <= i < |paths| && paths[i] == r.path && kind(paths[i]) == DataFile
                                 && forall j :: 0 <= j < i ==> kind(paths[j]) != DataFile
    ensures r.MetadataScan? && (forall i :: 0 <= i < |paths| ==> kind(paths[i]) != MetadataFile) ==> r.changed == md
    ensures r.MetadataScan? && (exists i :: 0 <= i < |paths| && kind(paths[i]) == MetadataFile) ==>
              exists i :: 0 <= i < |paths| && Some(paths[i]) == r.changed && kind(paths[i]) == MetadataFile
                && forall j :: i < j < |paths| ==> kind(paths[j]) != MetadataFile
  {
    if |paths| == 0 then MetadataScan(md)
    else
      var rest := paths[1..];
      assert forall i :: 1 <= i < |paths| ==> paths[i] == rest[i - 1];
      match kind(paths[0])
      case DataFile => DataChange(paths[0])
      case MetadataFile => ScanFrom(rest, kind, Some(paths[0]))
      case Ignored => ScanFrom(rest, kind, md)
  }

  /** The changed-path loop of `diff`: it stops at the first changed data file, and
      otherwise remembers the last changed metadata file. */
  function ScanChanges(paths: seq<string>): (r: Scan)
    ensures r.DataChange? <==> exists i :: 0 <= i < |paths| && Classify(paths[i]) == DataFile
    ensures r.DataChange? ==> Classify(r.path) == DataFile && r.path in paths
    ensures r.MetadataScan? ==> (r.changed.Some? <==> exists i :: 0 <= i < |paths| && Classify(paths[i]) == MetadataFile)
    ensures r.MetadataScan? && r.changed.Some? ==>
              exists i :: 0 <= i < |paths| && paths[i] == r.changed.value && Classify(paths[i]) == MetadataFile
                && forall j :: i < j < |paths| ==> Classify(paths[j]) != MetadataFile
  {
    ScanFrom(paths, Classify, None)
  }

  /** A key `log_diff` reports: new in the second dictionary, or changed. */
  datatype Change<K> = Added(key: K) | Changed(key: K)

  /** What `log_diff` says about one entry of the new dictionary, if anything. */
  function EntryChange<K(==,!new)>(prev: Dicts.Dict<K, Json.Value>, entry: (K, Json.Value)): Option<Change<K>> {
    if !Dicts.HasKey(prev, entry.0) then Some(Added(entry.0))
    else if entry.1 != Dicts.Get(prev, entry.0).value then Some(Changed(entry.0))
    else None
  }

  /** `log_diff(dold, dnew)`: the keys of the new dictionary, in its order, that the old
      one lacks or maps to a different value; keys only in the old one do not count. */
  function LogDiff<K(==,!new)>(prev: Dicts.Dict<K, Json.Value>, cur: Dicts.Dict<K, Json.Value>): (r: seq<Change<K>>)
    ensures |r| > 0 <==> exists i :: 0 <= i < |cur| && (!Dicts.HasKey(prev, cur[i].0) || Dicts.Get(prev, cur[i].0) != Some(cur[i].1))
    ensures forall c :: c in r ==> exists i :: 0 <= i < |cur| && EntryChange(prev, cur[i]) == Some(c)
    ensures forall i :: 0 <= i < |cur| && EntryChange(prev, cur[i]).Some? ==> EntryChange(prev, cur[i]).value in r
    ensures |r| <= |cur|
  {
    if |cur| == 0 then []
    else
      var rest := LogDiff(prev, cur[1..]);
      assert forall i :: 1 <= i < |cur| ==> cur[i] == cur[1..][i - 1];
      var c := EntryChange(prev, cur[0]);
      if c.Some? then [c.value] + rest else rest
  }

  /** A dictionary has no differences from itself. */
  lemma LogDiffOfEqual<K(!new)>(d: Dicts.Dict<K, Json.Value>)
    requires Dicts.Valid(d)
    ensures LogDiff(d, d) == []
  {
    forall i | 0 <= i < |d| ensures Dicts.Get(d, d[i].0) == Some(d[i].1) {
      Dicts.GetOfValid(d, i);
    }
  }

  /** Only the old values at the new dictionary's keys matter. */
  lemma {:induction false} LogDiffLooksUpNewKeysOnly<K(!new)>(prev1: Dicts.Dict<K, Json.Value>, prev2: Dicts.Dict<K, Json.Value>, cur: Dicts.Dict<K, Json.Value>)
    requires forall i :: 0 <= i < |cur| ==> Dicts.Get(prev1, cur[i].0) == Dicts.Get(prev2, cur[i].0)
    ensures LogDiff(prev1, cur) == LogDiff(prev2, cur)
  {
    if |cur| > 0 {
      assert forall i :: 1 <= i < |cur| ==> cur[i] == cur[1..][i - 1];
      LogDiffLooksUpNewKeysOnly(prev1, prev2, cur[1..]);
      assert Dicts.HasKey(prev1, cur[0].0) == Dicts.HasKey(prev2, cur[0].0);
    }
  }

  /** The top-level keys the general metadata comparison leaves out. */
  const Exclude: set<string> := {"tables", "prov:wasGeneratedBy", "prov:wasDerivedFrom"}

  /** The test of the `derived_to_dict` comprehension: without a repository every entry
      counts, else those whose `rdf:about` is not the repository's URL; `o.get` on a
      value that is not a dict raises. */
  function KeepEntry(o: Json.Value, repo: Option<Repository.Repo>): (r: Result<bool>)
    ensures repo.None? ==> r == Success(true)
    ensures r.Failure? <==> repo.Some? && !o.Object?
    ensures r.Failure? ==> r.error.AttributeError?
    ensures r == Success(false) ==>
              repo.Some? && Json.EqualsPy(Json.Lookup(o.members, "rdf:about"), Repository.Url(repo.value.origin))
  {
    if repo.None? then Success(true)
    else if !o.Object? then Failure(AttributeError("'" + Json.TypeName(o) + "' object has no attribute 'get'"))
    else Success(!Json.EqualsPy(Json.Lookup(o.members, "rdf:about"), Repository.Url(repo.value.origin)))
  }

  /** The pair `o['dc:title']: o['dc:created']`; the title must be hashable. */
  function EntryPair(o: Json.Value): (r: Result<(Json.Value, Json.Value)>)
    ensures r.Success? <==> o.Object? && "dc:title" in o.members && "dc:created" in o.members && Json.Hashable(o.members["dc:title"])
    ensures r.Success? ==> r.value == (o.members["dc:title"], o.members["dc:created"])
  {
    var title :- Json.Subscript(o, "dc:title");
    var created :- Json.Subscript(o, "dc:created");
    if Json.Hashable(title) then Success((title, created))
    else Failure(TypeError("unhashable type: '" + Json.TypeName(title) + "'"))
  }

  /** Whether entry `o` is kept without error. */
  predicate Kept(o: Json.Value, repo: Option<Repository.Repo>) {
    KeepEntry(o, repo) == Success(true)
  }

  /** Whether entry `o` is handled without error. */
  predicate EntryOk(o: Json.Value, repo: Option<Repository.Repo>) {
    KeepEntry(o, repo).Success? && (KeepEntry(o, repo).value ==> EntryPair(o).Success?)
  }

  /** The pairs of the comprehension over a list of entries, in order. */
  function DerivedPairs(items: seq<Json.Value>, repo: Option<Repository.Repo>): (r: Result<seq<(Json.Value, Json.Value)>>)
    ensures r.Success? <==> forall i :: 0 <= i < |items| ==> EntryOk(items[i], repo)
    ensures r.Success? ==> forall p :: p in r.value <==>
              exists i :: 0 <= i < |items| && Kept(items[i], repo) && EntryPair(items[i]) == Success(p)
  {
    if |items| == 0 then Success([])
    else
      assert forall i :: 1 <= i < |items| ==> items[i] == items[1..][i - 1];
      var keep := KeepEntry(items[0], repo);
      var rest := DerivedPairs(items[1..], repo);
      if keep.Failure? then Failure(keep.error)
      else if !keep.value then rest
      else
        var p := EntryPair(items[0]);
        if p.Failure? then Failure(p.error)
        else if rest.Failure? then Failure(rest.error)
        else Success([p.value] + rest.value)
  }

  /** The error of iterating a non-empty string (or the keys of a dict) as entries. */
  function StringEntryError(repo: Option<Repository.Repo>): Error {
    if repo.None? then TypeError("string indices must be integers")
    else AttributeError("'str' object has no attribute 'get'")
  }

  /** The comprehension over a list of entries: a dictionary from the titles of the
      kept entries; a repeated title keeps its first position and its last value. */
  function DerivedOfItems(items: seq<Json.Value>, repo: Option<Repository.Repo>): (r: Result<Dicts.Dict<Json.Value, Json.Value>>)
    ensures r.Success? <==> forall i :: 0 <= i < |items| ==> EntryOk(items[i], repo)
    ensures r.Success? ==> Dicts.Valid(r.value)
    ensures r.Success? ==> forall k :: Dicts.HasKey(r.value, k) <==>
              exists i :: 0 <= i < |items| && Kept(items[i], repo) && EntryPair(items[i]).Success? && EntryPair(items[i]).value.0 == k
  {
    var pairs :- DerivedPairs(items, repo);
    var r := Dicts.FromPairs(pairs);
    forall k ensures Dicts.HasKey(r, k) <==> exists i :: 0 <= i < |items| && Kept(items[i], repo) && EntryPair(items[i]).Success? && EntryPair(items[i]).value.0 == k {
      if Dicts.HasKey(r, k) {
        Dicts.GetStored(pairs, k);
        var j :| 0 <= j < |pairs| && pairs[j].0 == k && pairs[j].1 == Dicts.Get(pairs, k).value;
        assert pairs[j] in pairs;
      }
      if exists i :: 0 <= i < |items| && Kept(items[i], repo) && EntryPair(items[i]).Success? && EntryPair(items[i]).value.0 == k {
        var i :| 0 <= i < |items| && Kept(items[i], repo) && EntryPair(items[i]).Success? && EntryPair(items[i]).value.0 == k;
        var p := EntryPair(items[i]).value;
        assert p in pairs;
        var j :| 0 <= j < |pairs| && pairs[j] == p;
        Dicts.HasKeyAt(pairs, j);
      }
    }
    Success(r)
  }

  lemma {:induction false} DerivedPairsSnoc(items: seq<Json.Value>, o: Json.Value, repo: Option<Repository.Repo>)
    requires DerivedPairs(items, repo).Success? && EntryOk(o, repo)
    ensures DerivedPairs(items + [o], repo) ==
      Success(DerivedPairs(items, repo).value + if Kept(o, repo) then [EntryPair(o).value] else [])
  {
    if |items| > 0 {
      assert (items + [o])[1..] == items[1..] + [o];
      assert (items + [o])[0] == items[0];
      var tail := DerivedPairs(items[1..], repo);
      assert tail.Success?;
      DerivedPairsSnoc(items[1..], o, repo);
      var x: seq<(Json.Value, Json.Value)> := if Kept(o, repo) then [EntryPair(o).value] else [];
      if Kept(items[0], repo) {
        var p := EntryPair(items[0]).value;
        assert DerivedPairs(items, repo) == Success([p] + tail.value);
        assert [p] + (tail.value + x) == ([p] + tail.value) + x;
      } else {
        assert DerivedPairs(items, repo) == tail;
      }
    } else {
      assert items + [o] == [o];
      assert [o][1..] == [];
      assert DerivedPairs(items, repo).value == [];
      if Kept(o, repo) {
        var q := EntryPair(o).value;
        assert DerivedPairs([o], repo) == Success([q] + []);
        assert [q] + [] == [] + [q] == [q];
      } else {
        assert KeepEntry(o, repo) == Success(false);
        assert DerivedPairs([o], repo) == DerivedPairs([], repo) == Success([]);
        var none: seq<(Json.Value, Json.Value)> := [];
        assert none + none == none;
      }
    }
  }

  /** Of two entries with the same title, the later one's `dc:created` wins. */
  lemma DerivedLaterEntryWins(items: seq<Json.Value>, o: Json.Value, repo: Option<Repository.Repo>)
    requires DerivedOfItems(items, repo).Success?
    requires Kept(o, repo) && EntryPair(o).Success?
    ensures DerivedOfItems(items + [o], repo).Success?
    ensures Dicts.Get(DerivedOfItems(items + [o], repo).value, EntryPair(o).value.0) == Some(EntryPair(o).value.1)
  {
    DerivedPairsSnoc(items, o, repo);
    var ps := DerivedPairs(items, repo).value;
    var p := EntryPair(o).value;
    assert (ps + [p])[|ps|] == p && (ps + [p])[|ps| + 1..] == [];
    Dicts.FromPairsLastWins(ps + [p], |ps|);
  }

  /** `derived_to_dict(d)`: the `dc:created` value of each `prov:wasDerivedFrom` entry
      under its `dc:title`, leaving out the entry describing the dataset's own
      repository. Iterating a non-empty string or dict yields strings, which fail as
      entries; other non-list values are not iterable. */
  function DerivedToDict(d: Json.Document, repo: Option<Repository.Repo>): (r: Result<Dicts.Dict<Json.Value, Json.Value>>)
    ensures r.Success? ==> Dicts.Valid(r.value)
    ensures !Dicts.HasKey(d, "prov:wasDerivedFrom") ==> r == Success([])
    ensures Dicts.HasKey(d, "prov:wasDerivedFrom") && Dicts.Get(d, "prov:wasDerivedFrom").value.Array? ==>
              r == DerivedOfItems(Dicts.Get(d, "prov:wasDerivedFrom").value.items, repo)
    ensures Dicts.HasKey(d, "prov:wasDerivedFrom") && !Dicts.Get(d, "prov:wasDerivedFrom").value.Array? ==>
              var v := Dicts.Get(d, "prov:wasDerivedFrom").value;
              r.Success? <==> v == Json.Str("") || v == Json.Object(map[])
  {
    var found := Dicts.Get(d, "prov:wasDerivedFrom");
    var v := if found.Some? then found.value else Json.Array([]);
    match v
    case Array(items) => DerivedOfItems(items, repo)
    case Str(s) => if s == "" then Success([]) else Failure(StringEntryError(repo))
    case Object(m) => if m == map[] then Success([]) else Failure(StringEntryError(repo))
    case _ => Failure(TypeError("'" + Json.TypeName(v) + "' object is not iterable"))
  }

  /** What `diff` returns and logs: the exit code (`None` when it returns nothing), the
      changed data file it stopped at, and the keys of the two comparisons. */
  datatype Report = Report(
    code: Option<int>,
    dataFile: Option<string>,
    derivedChanges: seq<Change<Json.Value>>,
    metadataChanges: seq<Change<string>>)

  const NoReport := Report(None, None, [], [])

  /** The two comparisons of a changed metadata file; `any([...])` over a list, so both
      are evaluated and log their keys. */
  function CompareMetadata(prev: Json.Document, cur: Json.Document, repo: Option<Repository.Repo>): (r: Result<Report>)
    ensures r.Success? <==> DerivedToDict(prev, repo).Success? && DerivedToDict(cur, repo).Success?
    ensures r.Success? ==>
              && r.value.derivedChanges == LogDiff(DerivedToDict(prev, repo).value, DerivedToDict(cur, repo).value)
              && r.value.metadataChanges == LogDiff(Dicts.Without(prev, Exclude), Dicts.Without(cur, Exclude))
              && r.value.dataFile.None?
              && (r.value.code == Some(2) <==> |r.value.derivedChanges| > 0 || |r.value.metadataChanges| > 0)
              && (r.value.code == Some(0) <==> |r.value.derivedChanges| == 0 && |r.value.metadataChanges| == 0)
  {
    var dOld :- DerivedToDict(prev, repo);
    var dNew :- DerivedToDict(cur, repo);
    var derived := LogDiff(dOld, dNew);
    var general := LogDiff(Dicts.Without(prev, Exclude), Dicts.Without(cur, Exclude));
    Success(Report(Some(if |derived| > 0 || |general| > 0 then 2 else 0), None, derived, general))
  }

  /** `diff(ds, args)`. `isRepo` says whether the dataset directory is a git working
      tree; `changed` are the paths of the index diff, and `head(p)` and `work(p)` the
      committed and the current content of path `p`. */
  function Diff(ds: Dataset.Dataset, isRepo: bool, changed: seq<string>,
                head: string -> Json.Document, work: string -> Json.Document): (r: Result<Report>)
    ensures !isRepo ==> r == Success(NoReport)
    ensures isRepo && (exists i :: 0 <= i < |changed| && Classify(changed[i]) == DataFile) ==>
              r.Success? && r.value.code == Some(2) && r.value.dataFile.Some? && r.value.dataFile.value in changed
    ensures isRepo && (forall i :: 0 <= i < |changed| ==> Classify(changed[i]) == Ignored) ==> r == Success(NoReport)
    ensures isRepo && ScanChanges(changed).MetadataScan? && ScanChanges(changed).changed.Some? ==>
              var p := ScanChanges(changed).changed.value;
              r == CompareMetadata(head(p), work(p), ds.repo)
    ensures r.Success? ==> r.value.code.None? || r.value.code == Some(0) || r.value.code == Some(2)
  {
    if !isRepo then Success(NoReport)
    else
      match ScanChanges(changed)
      case DataChange(p) => Success(Report(Some(2), Some(p), [], []))
      case MetadataScan(None) => Success(NoReport)
      case MetadataScan(Some(p)) => CompareMetadata(head(p), work(p), ds.repo)
  }

  /** A metadata file whose content changed only under the excluded keys, with the
      same `prov:wasDerivedFrom`, is no essential difference. */
  lemma DiffIgnoresExcludedKeys(prev: Json.Document, cur: Json.Document, repo: Option<Repository.Repo>)
    requires Dicts.Valid(cur)
    requires Dicts.Without(prev, Exclude) == Dicts.Without(cur, Exclude)
    requires Dicts.Get(prev, "prov:wasDerivedFrom") == Dicts.Get(cur, "prov:wasDerivedFrom")
    requires DerivedToDict(cur, repo).Success?
    ensures CompareMetadata(prev, cur, repo).Success?
    ensures CompareMetadata(prev, cur, repo).value.code == Some(0)
  {
    assert DerivedToDict(prev, repo) == DerivedToDict(cur, repo);
    LogDiffOfEqual(DerivedToDict(cur, repo).value);
    LogDiffOfEqual(Dicts.Without(cur, Exclude));
  }
}
