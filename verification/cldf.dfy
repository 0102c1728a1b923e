/** `CLDFSpec` and `CLDFWriter`: how a CLDF dataset's location and metadata are fixed,
how its directory is cleaned, and what the writer hands to pycldf when the `with`
block ends.

pycldf itself is an oracle here: the ids of its modules, its package directory,
whether a metadata file loads, and the dataset a metadata file loads into are
parameters. The file system is an abstract tree of named files and folders.
 */
module Cldf {
  import opened Wrappers
  import Strings
  import Seqs
  import Dicts
  import Paths
  import Metadata
  import Repository

  const MdSuffix := "-metadata.json"
  const DefaultModule := "Generic"
  const GitAttributesName := ".gitattributes"
  const GitAttributesText := "*.csv text eol=crlf"
  const Distribution := "http://www.w3.org/ns/dcat#Distribution"

  // ---------------------------------------------------------------------------
  // CLDFSpec

  /** The `module` argument: a module id, or a pycldf class standing for its `__name__`. */
  datatype ModuleArg = ModuleName(name: string) | ModuleClass(className: string)

  /** The keyword arguments of `CLDFSpec(...)`. A `dir` is `None` when the argument is
      falsy (`None` or `''`); any other string or path is given parsed. */
  datatype SpecArgs = SpecArgs(
    dir: Option<Paths.Path>,
    cldfModule: ModuleArg,
    defaultMetadataPath: Option<string>,
    metadataFname: Option<string>,
    dataFnames: Dicts.Dict<string, string>,
    zipped: set<string>)

  /** An initialised spec: `dir` is `None` when the argument was falsy. */
  datatype Spec = Spec(
    dir: Option<Paths.Path>,
    cldfModule: string,
    defaultMetadataPath: Paths.Path,
    metadataFname: string,
    dataFnames: Dicts.Dict<string, string>,
    zipped: set<string>)

  /** The `module` converter: a class is replaced by its name. */
  function ModuleId(m: ModuleArg): (r: string)
    ensures m.ModuleName? ==> r == m.name
    ensures m.ModuleClass? ==> r == m.className
  {
    match m
    case ModuleName(n) => n
    case ModuleClass(n) => n
  }

  /** `pkg_path('modules', '<module>-metadata.json')` below pycldf's package directory. */
  function DefaultMetadataFile(pkgDir: Paths.Path, cldfModule: string): (r: Paths.Path)
    ensures '/' !in cldfModule ==> r == Paths.Path(pkgDir.absolute, pkgDir.parts + ["modules", cldfModule + MdSuffix])
  {
    ModulesDir(pkgDir);
    ModuleFile(Paths.Child(pkgDir, "modules"), cldfModule);
    Paths.Child(Paths.Child(pkgDir, "modules"), cldfModule + MdSuffix)
  }

  lemma ModuleFile(dir: Paths.Path, cldfModule: string)
    ensures '/' !in cldfModule ==>
              Paths.Child(dir, cldfModule + MdSuffix) == Paths.Path(dir.absolute, dir.parts + [cldfModule + MdSuffix])
  {
    if '/' !in cldfModule {
      SuffixedNameIsPart(cldfModule);
      Paths.ChildOfPart(dir, cldfModule + MdSuffix);
    }
  }

  lemma ModulesDir(pkgDir: Paths.Path)
    ensures Paths.Child(pkgDir, "modules") == Paths.Path(pkgDir.absolute, pkgDir.parts + ["modules"])
  {
    Strings.ContainsCharIff("modules", '/');
    Paths.ChildOfPart(pkgDir, "modules");
  }

  /** `CLDFSpec(...)` with its converters, validator and post-init. `modules` are the ids
      of pycldf's modules and `loads(p)` says whether `Dataset.from_metadata(p)` succeeds. */
  function NewSpec(a: SpecArgs, modules: set<string>, pkgDir: Paths.Path, loads: Paths.Path -> bool): (r: Result<Spec>)
    ensures r.Success? <==>
      ModuleId(a.cldfModule) in modules
      && (Truthy(a.defaultMetadataPath) ==> loads(Paths.Parse(a.defaultMetadataPath.value)))
    ensures r.Failure? ==> r.error.ValueError?
    ensures r.Success? ==> r.value.cldfModule == ModuleId(a.cldfModule) && r.value.cldfModule in modules
    ensures r.Success? ==> r.value.dir == a.dir
    ensures r.Success? && Truthy(a.defaultMetadataPath) ==>
      r.value.defaultMetadataPath == Paths.Parse(a.defaultMetadataPath.value)
    ensures r.Success? && !Truthy(a.defaultMetadataPath) ==>
      r.value.defaultMetadataPath == DefaultMetadataFile(pkgDir, ModuleId(a.cldfModule))
    ensures r.Success? && Truthy(a.metadataFname) ==> r.value.metadataFname == a.metadataFname.value
    ensures r.Success? && !Truthy(a.metadataFname) ==>
      r.value.metadataFname == Paths.Name(r.value.defaultMetadataPath)
    ensures r.Success? ==> r.value.dataFnames == a.dataFnames && r.value.zipped == a.zipped
  {
    var cldfModule := ModuleId(a.cldfModule);
    if cldfModule !in modules then
      Failure(ValueError("'module' must be in the known CLDF modules: " + cldfModule))
    else if Truthy(a.defaultMetadataPath) && !loads(Paths.Parse(a.defaultMetadataPath.value)) then
      Failure(ValueError("invalid default metadata: " + a.defaultMetadataPath.value))
    else
      var mdPath :=
        if Truthy(a.defaultMetadataPath) then Paths.Parse(a.defaultMetadataPath.value)
        else DefaultMetadataFile(pkgDir, cldfModule);
      var fname := if Truthy(a.metadataFname) then a.metadataFname.value else Paths.Name(mdPath);
      Success(Spec(a.dir, cldfModule, mdPath, fname, a.dataFnames, a.zipped))
  }

  /** Without an explicit default metadata path, the spec copies pycldf's
      `modules/<module>-metadata.json` and names the copy after it. */
  lemma NewSpecDefaultMetadata(a: SpecArgs, modules: set<string>, pkgDir: Paths.Path, loads: Paths.Path -> bool)
    requires ModuleId(a.cldfModule) in modules && '/' !in ModuleId(a.cldfModule)
    requires !Truthy(a.defaultMetadataPath) && !Truthy(a.metadataFname)
    ensures NewSpec(a, modules, pkgDir, loads).Success?
    ensures var s := NewSpec(a, modules, pkgDir, loads).value;
            && s.defaultMetadataPath == Paths.Path(pkgDir.absolute, pkgDir.parts + ["modules", s.cldfModule + MdSuffix])
            && s.metadataFname == s.cldfModule + MdSuffix
  {
    var cldfModule := ModuleId(a.cldfModule);
    var name := cldfModule + MdSuffix;
    SuffixedNameIsPart(cldfModule);
    Paths.ChildOfPart(pkgDir, "modules");
    Paths.ChildOfPart(Paths.Child(pkgDir, "modules"), name);
    var md := DefaultMetadataFile(pkgDir, cldfModule);
    assert md == Paths.Path(pkgDir.absolute, pkgDir.parts + ["modules", name]) by {
      assert pkgDir.parts + ["modules"] + [name] == pkgDir.parts + ["modules", name];
    }
    assert NewSpec(a, modules, pkgDir, loads) == Success(Spec(a.dir, cldfModule, md, Paths.Name(md), a.dataFnames, a.zipped));
  }

  lemma SuffixedNameIsPart(m: string)
    requires '/' !in m
    ensures Paths.IsPart(m + MdSuffix)
  {
    var name := m + MdSuffix;
    assert name[|name| - 1] == 'n';
    forall i | 0 <= i < |name| ensures name[i] != '/' {
      if i < |m| {
        assert name[i] == m[i];
      } else {
        assert name[i] == MdSuffix[i - |m|];
      }
    }
  }

  /** `metadata_path`: the metadata file name inside `dir`, or on its own without a dir. */
  function MetadataPath(s: Spec): (r: Paths.Path)
    ensures s.dir.Some? && Paths.IsPart(s.metadataFname) ==>
      r == Paths.Path(s.dir.value.absolute, s.dir.value.parts + [s.metadataFname])
    ensures Paths.IsPart(s.metadataFname) ==> Paths.Name(r) == s.metadataFname
    ensures s.dir.None? ==> r == Paths.Parse(s.metadataFname)
  {
    if s.dir.Some? then
      var r := Paths.Child(s.dir.value, s.metadataFname);
      if Paths.IsPart(s.metadataFname) then Paths.ChildOfPart(s.dir.value, s.metadataFname); r
      else r
    else
      var r := Paths.Parse(s.metadataFname);
      if Paths.IsPart(s.metadataFname) then Paths.ChildOfPart(Paths.Path(false, []), s.metadataFname); r
      else r
  }

  // ---------------------------------------------------------------------------
  // make_clean

  /** A file-system node: a file with its text, or a folder of named nodes. */
  datatype Node = File(content: string) | Folder(entries: map<string, Node>)

  /** The regular files cleaning leaves alone. */
  const KeptFiles: set<string> := {".gitattributes", "README.md"}

  predicate Survives(name: string, n: Node) {
    n.Folder? || name in KeptFiles
  }

  /** `make_clean()`: the new contents of `dir`, given what is at `dir` now (`None`: nothing)
      and whether the parent of `dir` exists. `mkdir` without `parents` fails on a missing
      parent and on a file, and a falsy `dir` has no `mkdir` at all. */
  function MakeClean(dir: Option<Paths.Path>, parentExists: bool, target: Option<Node>): (r: Result<map<string, Node>>)
    ensures r.Failure? <==> dir.None? || (target.None? && !parentExists) || (target.Some? && target.value.File?)
    ensures r.Failure? && dir.None? ==> r.error.AttributeError?
    ensures r.Failure? && dir.Some? && target.None? ==> r.error.FileNotFoundError?
    ensures r.Failure? && dir.Some? && target.Some? ==> r.error.FileExistsError?
    ensures r.Success? ==> GitAttributesName in r.value
    ensures r.Success? ==> forall n :: n in r.value && r.value[n].File? ==> n in KeptFiles
    ensures r.Success? && target.Some? ==>
      forall n :: n in target.value.entries && Survives(n, target.value.entries[n]) ==>
        n in r.value && r.value[n] == target.value.entries[n]
    ensures r.Success? ==>
      forall n :: n in r.value && n != GitAttributesName ==> target.Some? && n in target.value.entries
    ensures r.Success? && (target.None? || GitAttributesName !in target.value.entries) ==>
      r.value[GitAttributesName] == File(GitAttributesText)
  {
    if dir.None? then Failure(AttributeError("'NoneType' object has no attribute 'mkdir'"))
    else if target.None? && !parentExists then Failure(FileNotFoundError(Paths.Render(dir.value)))
    else if target.Some? && target.value.File? then Failure(FileExistsError(Paths.Render(dir.value)))
    else
      var entries := if target.None? then map[] else target.value.entries;
      var kept := map n | n in entries && Survives(n, entries[n]) :: entries[n];
      if GitAttributesName in kept then Success(kept)
      else Success(kept[GitAttributesName := File(GitAttributesText)])
  }

  /** Cleaning a clean directory changes nothing. */
  lemma MakeCleanIdempotent(dir: Option<Paths.Path>, parentExists: bool, target: Option<Node>)
    requires MakeClean(dir, parentExists, target).Success?
    ensures MakeClean(dir, true, Some(Folder(MakeClean(dir, parentExists, target).value)))
            == MakeClean(dir, parentExists, target)
  {
    var m := MakeClean(dir, parentExists, target).value;
    var m2 := MakeClean(dir, true, Some(Folder(m))).value;
    assert forall n :: n in m ==> Survives(n, m[n]);
    assert m2 == m;
  }

  // ---------------------------------------------------------------------------
  // CLDFWriter

  /** A table of the loaded dataset: its CLDF component and its file name. */
  datatype Component = Component(name: string, url: string)

  /** The parts of a loaded `pycldf.Dataset` the writer changes. */
  datatype CldfDataset = CldfDataset(properties: Dicts.Dict<string, string>, tables: seq<Component>)

  /** A writer: its spec, whether it cleans, and the dataset handle once entered. */
  datatype Writer = Writer(spec: Spec, clean: bool, handle: Option<CldfDataset>)

  /** `CLDFWriter(cldf_spec, dataset=..., clean=...)`: without a spec, a `Generic` spec
      in the dataset's CLDF dir (or `.`) is made. The handle is not set yet. */
  function NewWriter(
    spec: Option<Spec>, datasetCldfDir: Option<Paths.Path>, clean: bool,
    modules: set<string>, pkgDir: Paths.Path, loads: Paths.Path -> bool): (r: Result<Writer>)
    ensures spec.Some? ==> r == Success(Writer(spec.value, clean, None))
    ensures spec.None? && DefaultModule in modules ==> r.Success?
    ensures spec.None? && r.Success? ==>
      r.value.spec.cldfModule == DefaultModule
      && r.value.spec.dir == Some(datasetCldfDir.GetOr(Paths.Parse(".")))
    ensures r.Success? ==> r.value.handle.None? && r.value.clean == clean
  {
    if spec.Some? then Success(Writer(spec.value, clean, None))
    else
      var dir := datasetCldfDir.GetOr(Paths.Parse("."));
      var args := SpecArgs(Some(dir), ModuleName(DefaultModule), None, None, [], {});
      var s :- NewSpec(args, modules, pkgDir, loads);
      Success(Writer(s, clean, None))
  }

  /** The `cldf` property: an `AttributeError` until the `with` block has been entered. */
  function Handle(w: Writer): (r: Result<CldfDataset>)
    ensures r.Success? <==> w.handle.Some?
    ensures r.Success? ==> r.value == w.handle.value
    ensures r.Failure? ==> r.error.AttributeError?
  {
    if w.handle.None? then
      Failure(AttributeError("Writer.cldf is only set when Writer is used in with statement!"))
    else Success(w.handle.value)
  }

  /** The index of the first table of component `comp`, which `ds[comp]` returns. */
  function FirstTable(tables: seq<Component>, comp: string): (r: Option<nat>)
    ensures r.Some? ==> r.value < |tables| && tables[r.value].name == comp
    ensures r.Some? ==> forall j :: 0 <= j < r.value ==> tables[j].name != comp
    ensures r.None? ==> forall j :: 0 <= j < |tables| ==> tables[j].name != comp
  {
    if |tables| == 0 then None
    else if tables[0].name == comp then Some(0)
    else
      var r := FirstTable(tables[1..], comp);
      if r.Some? then Some(r.value + 1) else None
  }

  /** One `data_fnames` entry: an existing table gets the new url, else a component is added. */
  function Retarget(tables: seq<Component>, comp: string, fname: string): (r: seq<Component>)
    ensures FirstTable(r, comp).Some? && r[FirstTable(r, comp).value] == Component(comp, fname)
    ensures FirstTable(tables, comp).Some? ==> |r| == |tables|
    ensures FirstTable(tables, comp).None? ==> r == tables + [Component(comp, fname)]
    ensures |r| >= |tables|
    ensures forall j :: 0 <= j < |tables| ==> r[j].name == tables[j].name
    ensures forall j :: 0 <= j < |tables| && tables[j].name != comp ==> r[j] == tables[j]
  {
    match FirstTable(tables, comp)
    case Some(i) =>
      var r := tables[i := Component(comp, fname)];
      FirstTableSameNames(tables, r, comp);
      r
    case None =>
      var r := tables + [Component(comp, fname)];
      FirstTableAppend(tables, Component(comp, fname), comp);
      r
  }

  lemma {:induction false} FirstTableSameNames(a: seq<Component>, b: seq<Component>, comp: string)
    requires |a| == |b| && forall j :: 0 <= j < |a| ==> a[j].name == b[j].name
    ensures FirstTable(a, comp) == FirstTable(b, comp)
  {
    if |a| > 0 {
      FirstTableSameNames(a[1..], b[1..], comp);
    }
  }

  lemma {:induction false} FirstTableAppend(a: seq<Component>, c: Component, comp: string)
    ensures FirstTable(a + [c], comp) == if FirstTable(a, comp).Some? then FirstTable(a, comp)
                                         else if c.name == comp then Some(|a|) else None
  {
    if |a| > 0 {
      assert (a + [c])[1..] == a[1..] + [c];
      FirstTableAppend(a[1..], c, comp);
    }
  }

  /** The `data_fnames` loop of `__enter__`, entry by entry. */
  function ApplyDataFnames(tables: seq<Component>, fnames: Dicts.Dict<string, string>): (r: seq<Component>)
    ensures |r| >= |tables|
    ensures forall j :: 0 <= j < |tables| ==> r[j].name == tables[j].name
    ensures forall j :: 0 <= j < |tables| && !Dicts.HasKey(fnames, tables[j].name) ==> r[j] == tables[j]
    decreases |fnames|
  {
    if |fnames| == 0 then tables
    else ApplyDataFnames(Retarget(tables, fnames[0].0, fnames[0].1), fnames[1..])
  }

  /** Entries for other components leave the first table of `comp` where and as it is. */
  lemma {:induction false} ApplyDataFnamesOthers(tables: seq<Component>, fnames: Dicts.Dict<string, string>, comp: string)
    requires !Dicts.HasKey(fnames, comp)
    ensures FirstTable(ApplyDataFnames(tables, fnames), comp) == FirstTable(tables, comp)
    ensures FirstTable(tables, comp).Some? ==>
      ApplyDataFnames(tables, fnames)[FirstTable(tables, comp).value] == tables[FirstTable(tables, comp).value]
    decreases |fnames|
  {
    if |fnames| > 0 {
      var t1 := Retarget(tables, fnames[0].0, fnames[0].1);
      if FirstTable(tables, fnames[0].0).Some? {
        FirstTableSameNames(tables, t1, comp);
      } else {
        FirstTableAppend(tables, Component(fnames[0].0, fnames[0].1), comp);
      }
      ApplyDataFnamesOthers(t1, fnames[1..], comp);
    }
  }

  /** After `__enter__`, each `data_fnames` component is a table with its custom file name. */
  lemma {:induction false} ApplyDataFnamesTargets(tables: seq<Component>, fnames: Dicts.Dict<string, string>, comp: string)
    requires Dicts.Valid(fnames) && Dicts.HasKey(fnames, comp)
    ensures var r := ApplyDataFnames(tables, fnames);
            FirstTable(r, comp).Some? && r[FirstTable(r, comp).value] == Component(comp, Dicts.Get(fnames, comp).value)
    decreases |fnames|
  {
    var t1 := Retarget(tables, fnames[0].0, fnames[0].1);
    if fnames[0].0 == comp {
      ApplyDataFnamesOthers(t1, fnames[1..], comp);
    } else {
      ApplyDataFnamesTargets(t1, fnames[1..], comp);
    }
  }

  /** What `__enter__` leaves behind: the entered writer, and the new contents of the
      CLDF dir when it was cleaned. */
  datatype Entered = Entered(writer: Writer, cleaned: Option<map<string, Node>>)

  /** `__enter__`: clean the dir when asked to, then take the dataset that copying and
      loading the metadata gives (`loaded`) and apply `data_fnames` to its tables.
      `parentExists` and `target` describe the file system at the CLDF dir, as for
      `MakeClean`. */
  function Enter(w: Writer, parentExists: bool, target: Option<Node>, loaded: Result<CldfDataset>): (r: Result<Entered>)
    ensures w.clean && MakeClean(w.spec.dir, parentExists, target).Failure? ==> r == Failure(MakeClean(w.spec.dir, parentExists, target).error)
    ensures r.Success? <==> (!w.clean || MakeClean(w.spec.dir, parentExists, target).Success?) && loaded.Success?
    ensures r.Success? ==> r.value.writer.spec == w.spec && r.value.writer.clean == w.clean
    ensures r.Success? ==> Handle(r.value.writer).Success?
    ensures r.Success? ==> (r.value.cleaned.Some? <==> w.clean)
    ensures r.Success? ==>
      r.value.writer.handle.value == CldfDataset(loaded.value.properties, ApplyDataFnames(loaded.value.tables, w.spec.dataFnames))
  {
    var cleaned :- if w.clean then
                     var c :- MakeClean(w.spec.dir, parentExists, target); Success(Some(c))
                   else Success(None);
    var ds :- loaded;
    var handle := CldfDataset(ds.properties, ApplyDataFnames(ds.tables, w.spec.dataFnames));
    Success(Entered(Writer(w.spec, w.clean, Some(handle)), cleaned))
  }

  /** An entry of `raw/`: a directory or not, and the repository state when it is a
      git repository (`None` where `Repository(p)` raises `ValueError`). */
  datatype RawEntry = RawEntry(isDir: bool, repo: Option<Repository.Repo>)

  /** The dataset a writer belongs to, as far as `write` looks at it. */
  datatype DatasetInfo = DatasetInfo(
    id: string,
    metadata: Metadata.Metadata,
    repo: Option<Repository.Repo>,
    raw: Option<seq<RawEntry>>)

  /** A value in the command line arguments: a catalog (with its `json_ld()`), or other. */
  datatype ArgValue = CatalogArg(jsonLd: Dicts.Dict<string, string>) | OtherArg

  function RepoJsonLd(repo: Repository.Repo): (r: Dicts.Dict<string, string>)
    ensures Dicts.Valid(r) && |r| >= 3 && Dicts.Keys(r)[..2] == ["rdf:type", "dc:title"]
    ensures Dicts.Get(r, "rdf:type") == Some("prov:Entity")
    ensures Dicts.HasKey(r, "rdf:about") <==> Truthy(Repository.Url(repo.origin))
  {
    Repository.JsonLdRdfValues(Repository.Url(repo.origin), repo.describe, []);
    Repository.JsonLd(Repository.Url(repo.origin), repo.describe, [])
  }

  /** The properties `write` sets by `setdefault`, in order. */
  function PropertyDefaults(dataset: Option<DatasetInfo>, find: string -> Option<Metadata.License>): (r: Dicts.Dict<string, string>)
    ensures |r| > 0 && r[0] == ("rdf:type", Distribution)
  {
    [("rdf:type", Distribution)]
    + (if dataset.None? then []
       else
         var ds := dataset.value;
         var url := if ds.repo.Some? then Repository.Url(ds.repo.value.origin) else None;
         [("rdf:ID", ds.id)] + Metadata.CommonProps(ds.metadata, find)
         + (if Truthy(url) then [("dcat:accessURL", url.value)] else []))
  }

  function CatalogSources(args: seq<ArgValue>): (r: seq<Dicts.Dict<string, string>>)
    ensures |r| <= |args|
    ensures |r| == 0 <==> forall i :: 0 <= i < |args| ==> args[i].OtherArg?
  {
    if |args| == 0 then []
    else
      var rest := CatalogSources(args[1..]);
      assert forall i :: 1 <= i < |args| ==> args[i] == args[1..][i - 1];
      if args[0].CatalogArg? then [args[0].jsonLd] + rest else rest
  }

  function RawSources(entries: seq<RawEntry>): (r: seq<Dicts.Dict<string, string>>)
    ensures |r| <= |entries|
    ensures |r| == 0 <==> forall i :: 0 <= i < |entries| ==> !(entries[i].isDir && entries[i].repo.Some?)
  {
    if |entries| == 0 then []
    else
      var rest := RawSources(entries[1..]);
      assert forall i :: 1 <= i < |entries| ==> entries[i] == entries[1..][i - 1];
      if entries[0].isDir && entries[0].repo.Some? then [RepoJsonLd(entries[0].repo.value)] + rest else rest
  }

  /** The `wasDerivedFrom` sources: the dataset's repository, then the catalogs among the
      arguments, then the git repositories mounted in `raw/`. */
  function Sources(dataset: Option<DatasetInfo>, args: seq<ArgValue>): (r: seq<Dicts.Dict<string, string>>)
    ensures dataset.Some? && dataset.value.repo.Some? ==> |r| > 0 && r[0] == RepoJsonLd(dataset.value.repo.value)
    ensures |r| == 0 <==>
      (dataset.None? || dataset.value.repo.None?)
      && CatalogSources(args) == []
      && (dataset.None? || dataset.value.raw.None? || RawSources(dataset.value.raw.value) == [])
  {
    var repo := if dataset.Some? && dataset.value.repo.Some? then [RepoJsonLd(dataset.value.repo.value)] else [];
    var raw := if dataset.Some? && dataset.value.raw.Some? then RawSources(dataset.value.raw.value) else [];
    repo + CatalogSources(args) + raw
  }

  const PythonPackages: Dicts.Dict<string, string> := [("dc:title", "python-packages"), ("dc:relation", "requirements.txt")]

  function PythonEntry(pythonVersion: string): Dicts.Dict<string, string> {
    [("dc:title", "python"), ("dc:description", pythonVersion)]
  }

  /** What `write` hands to pycldf: the properties after the `setdefault`s, the
      `wasDerivedFrom` and `wasGeneratedBy` provenance, and `requirements.txt`. */
  datatype Written = Written(
    properties: Dicts.Dict<string, string>,
    wasDerivedFrom: Option<seq<Dicts.Dict<string, string>>>,
    wasGeneratedBy: seq<Dicts.Dict<string, string>>,
    requirementsFile: Paths.Path,
    requirements: string)

  /** `write(**kw)`. `pythonVersion` is the first word of `sys.version`, `requirements`
      the joined `iter_requirements()` output, and `writable` whether writing
      `requirements.txt` got past its `ValueError`. */
  function Write(
    w: Writer, dataset: Option<DatasetInfo>, args: seq<ArgValue>,
    find: string -> Option<Metadata.License>,
    pythonVersion: string, requirements: string, writable: bool): (r: Result<Written>)
    ensures r.Success? <==> w.handle.Some? && w.spec.dir.Some?
    ensures r.Failure? ==> r.error.AttributeError?
    ensures r.Success? ==>
      var before := w.handle.value.properties;
      && (forall k :: Dicts.HasKey(before, k) ==> Dicts.Get(r.value.properties, k) == Dicts.Get(before, k))
      && (forall k :: !Dicts.HasKey(before, k) ==> Dicts.Get(r.value.properties, k) == Dicts.Get(PropertyDefaults(dataset, find), k))
      && Dicts.HasKey(r.value.properties, "rdf:type")
    ensures r.Success? ==> (r.value.wasDerivedFrom.Some? <==> |Sources(dataset, args)| > 0)
    ensures r.Success? && r.value.wasDerivedFrom.Some? ==> r.value.wasDerivedFrom.value == Sources(dataset, args)
    ensures r.Success? ==> |r.value.wasGeneratedBy| == (if writable then 2 else 1)
    ensures r.Success? ==> r.value.wasGeneratedBy[0] == PythonEntry(pythonVersion)
    ensures r.Success? && writable ==> r.value.wasGeneratedBy[1] == PythonPackages
    ensures r.Success? ==> r.value.requirementsFile == Paths.Child(w.spec.dir.value, "requirements.txt")
  {
    var ds :- Handle(w);
    var props := Dicts.SetDefaults(ds.properties, PropertyDefaults(dataset, find));
    var srcs := Sources(dataset, args);
    var derived := if |srcs| > 0 then Some(srcs) else None;
    if w.spec.dir.None? then Failure(AttributeError("'NoneType' object has no attribute 'joinpath'"))
    else
      var generated := [PythonEntry(pythonVersion)] + (if writable then [PythonPackages] else []);
      Success(Written(props, derived, generated, Paths.Child(w.spec.dir.value, "requirements.txt"), requirements))
  }

  /** `__exit__`: leaving the writer scope writes, whether or not the scope raised `exc`. */
  function Exit(
    w: Writer, exc: Option<Error>, dataset: Option<DatasetInfo>, args: seq<ArgValue>,
    find: string -> Option<Metadata.License>,
    pythonVersion: string, requirements: string, writable: bool): (r: Result<Written>)
    ensures r.Success? <==> w.handle.Some? && w.spec.dir.Some?
    ensures r.Success? ==> Dicts.HasKey(r.value.properties, "rdf:type")
  {
    Write(w, dataset, args, find, pythonVersion, requirements, writable)
  }

  /** An exception raised inside the scope changes nothing about what is written. */
  lemma ExitIgnoresException(
    w: Writer, exc: Error, dataset: Option<DatasetInfo>, args: seq<ArgValue>,
    find: string -> Option<Metadata.License>,
    pythonVersion: string, requirements: string, writable: bool)
    ensures Exit(w, Some(exc), dataset, args, find, pythonVersion, requirements, writable)
         == Exit(w, None, dataset, args, find, pythonVersion, requirements, writable)
  {
  }

  /** `write` only adds properties: the existing keys keep their places. */
  lemma WriteKeepsKeyOrder(
    w: Writer, dataset: Option<DatasetInfo>, args: seq<ArgValue>,
    find: string -> Option<Metadata.License>,
    pythonVersion: string, requirements: string, writable: bool)
    requires Write(w, dataset, args, find, pythonVersion, requirements, writable).Success?
    ensures Seqs.IsPrefix(Dicts.Keys(w.handle.value.properties),
                          Dicts.Keys(Write(w, dataset, args, find, pythonVersion, requirements, writable).value.properties))
  {
    Dicts.SetDefaultsKeysPrefix(w.handle.value.properties, PropertyDefaults(dataset, find));
  }

  /** The defaults `write` fills in: the distribution type, the dataset id, the
      metadata's common properties and the repository URL. */
  lemma PropertyDefaultsIds(dataset: Option<DatasetInfo>, find: string -> Option<Metadata.License>)
    ensures Dicts.Get(PropertyDefaults(dataset, find), "rdf:type") == Some(Distribution)
    ensures dataset.Some? ==> Dicts.Get(PropertyDefaults(dataset, find), "rdf:ID") == Some(dataset.value.id)
    ensures dataset.None? ==> forall k' :: k' != "rdf:type" ==> !Dicts.HasKey(PropertyDefaults(dataset, find), k')
  {
    var d := PropertyDefaults(dataset, find);
    Dicts.ConsFacts("rdf:type", Distribution, d[1..], "rdf:type");
    assert d == [("rdf:type", Distribution)] + d[1..];
    if dataset.Some? {
      var ds := dataset.value;
      var url := if ds.repo.Some? then Repository.Url(ds.repo.value.origin) else None;
      var cp := Metadata.CommonProps(ds.metadata, find);
      var tail := if Truthy(url) then [("dcat:accessURL", url.value)] else [];
      assert d[1..] == [("rdf:ID", ds.id)] + (cp + tail);
      Dicts.ConsFacts("rdf:ID", ds.id, cp + tail, "rdf:ID");
      Dicts.ConsFacts("rdf:type", Distribution, d[1..], "rdf:ID");
      assert "rdf:ID"[4] != "rdf:type"[4];
    } else {
      forall k' | k' != "rdf:type" ensures !Dicts.HasKey(d, k') {
        Dicts.ConsFacts("rdf:type", Distribution, d[1..], k');
      }
    }
  }

  lemma PropertyDefaultsValues(dataset: Option<DatasetInfo>, find: string -> Option<Metadata.License>, k: string)
    requires dataset.Some? && |k| > 0 && k[0] == 'd'
    ensures Dicts.Get(PropertyDefaults(dataset, find), k) ==
        if Dicts.HasKey(Metadata.CommonProps(dataset.value.metadata, find), k)
        then Dicts.Get(Metadata.CommonProps(dataset.value.metadata, find), k)
        else if k == "dcat:accessURL" && dataset.value.repo.Some? && Truthy(Repository.Url(dataset.value.repo.value.origin))
        then Repository.Url(dataset.value.repo.value.origin)
        else None
  {
    var d := PropertyDefaults(dataset, find);
    Dicts.ConsFacts("rdf:type", Distribution, d[1..], k);
    assert d == [("rdf:type", Distribution)] + d[1..];
    var ds := dataset.value;
    var url := if ds.repo.Some? then Repository.Url(ds.repo.value.origin) else None;
    var cp := Metadata.CommonProps(ds.metadata, find);
    var tail := if Truthy(url) then [("dcat:accessURL", url.value)] else [];
    assert d[1..] == [("rdf:ID", ds.id)] + (cp + tail);
    assert k != "rdf:type" && k != "rdf:ID" by {
      assert "rdf:ID"[0] == 'r' && "rdf:type"[0] == 'r';
    }
    Dicts.ConsFacts("rdf:ID", ds.id, cp + tail, k);
    assert Dicts.Get(d, k) == Dicts.Get(cp + tail, k);
    Dicts.GetAppend(cp, tail, k);
    assert Dicts.Get(tail, k) == if k == "dcat:accessURL" && Truthy(url) then url else None by {
      if Truthy(url) {
        Dicts.ConsFacts("dcat:accessURL", url.value, [], k);
        assert tail == [("dcat:accessURL", url.value)] + [];
      }
    }
  }
}
