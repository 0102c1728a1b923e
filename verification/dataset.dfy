/** `Dataset`: a dataset's directories, its CLDF specs, the generated README, the
`makecldf` dispatch, and how datasets are found among the registered ones or in a
module.

Class attributes and overridden hooks are data: a dataset class is a record of its
`dir`, `id` and declared specs, and the text an overridden `cmd_readme` returns is a
parameter. Entry-point discovery and module import are left to the caller, who passes
the datasets found.
 */
module Dataset {
  import opened Wrappers
  import Strings
  import Seqs
  import Dicts
  import Paths
  import Metadata
  import Repository
  import Cldf

  const Noop := -1

  /** What `cldf_specs()` returns: one spec, or a dict of specs by lookup key. */
  datatype SpecsDecl = SingleSpec(spec: Cldf.Spec) | SpecDict(specs: Dicts.Dict<Option<string>, Cldf.Spec>)

  /** A `Dataset` subclass: its `dir` (`None` when falsy), its `id`, the directory of the
      file defining it, and what its `cldf_specs()` returns. */
  datatype DatasetClass = DatasetClass(
    dir: Option<Paths.Path>,
    id: Option<string>,
    classFileDir: Paths.Path,
    specs: SpecsDecl)

  /** An initialised dataset. */
  datatype Dataset = Dataset(
    id: Option<string>,
    dir: Paths.Path,
    metadata: Metadata.Metadata,
    specs: SpecsDecl,
    repo: Option<Repository.Repo>)

  /** `Metadata()`: every field `None`. */
  const EmptyMetadata := Metadata.Metadata(None, None, None, None, None, None)

  /** `Dataset.__init__`: the dir defaults to the class file's directory; the metadata
      is read from `metadata.json` when there is one (`metadataFile`), and its id is
      then replaced by the dataset's id. `repo` is what `Repository(dir)` gives. */
  function Init(cls: DatasetClass, metadataFile: Option<Metadata.Metadata>, repo: Option<Repository.Repo>): (r: Dataset)
    ensures r.id == cls.id && r.metadata.id == cls.id
    ensures r.dir == if cls.dir.Some? then cls.dir.value else cls.classFileDir
    ensures metadataFile.Some? ==> r.metadata == metadataFile.value.(id := cls.id)
    ensures metadataFile.None? ==> r.metadata == EmptyMetadata.(id := cls.id)
    ensures r.specs == cls.specs && r.repo == repo
  {
    var dir := if cls.dir.Some? then cls.dir.value else cls.classFileDir;
    var md := metadataFile.GetOr(EmptyMetadata);
    Dataset(cls.id, dir, md.(id := cls.id), cls.specs, repo)
  }

  /** Whatever id the metadata file holds, the dataset's metadata carries the class's id:
      two metadata files that differ only in their id give the same dataset. */
  lemma InitIgnoresFileId(cls: DatasetClass, m1: Metadata.Metadata, m2: Metadata.Metadata, repo: Option<Repository.Repo>)
    requires m1.(id := None) == m2.(id := None)
    ensures Init(cls, Some(m1), repo) == Init(cls, Some(m2), repo)
  {
    assert m1.(id := cls.id) == m1.(id := None).(id := cls.id);
    assert m2.(id := cls.id) == m2.(id := None).(id := cls.id);
  }

  /** `cldf_dir`, `raw_dir` and `etc_dir`: a fixed name below the dataset's dir. */
  function SubDir(ds: Dataset, name: string): (r: Paths.Path)
    requires name in {"cldf", "raw", "etc"}
    ensures r == Paths.Path(ds.dir.absolute, ds.dir.parts + [name])
    ensures Paths.Parent(r) == ds.dir && Paths.Name(r) == name
  {
    Strings.ContainsCharIff(name, '/');
    Paths.ChildOfPart(ds.dir, name);
    var r := Paths.Child(ds.dir, name);
    assert r.parts[..|r.parts| - 1] == ds.dir.parts;
    r
  }

  function CldfDir(ds: Dataset): (r: Paths.Path)
    ensures Paths.Parent(r) == ds.dir && Paths.Name(r) == "cldf"
  {
    SubDir(ds, "cldf")
  }

  function RawDir(ds: Dataset): (r: Paths.Path)
    ensures Paths.Parent(r) == ds.dir && Paths.Name(r) == "raw"
  {
    SubDir(ds, "raw")
  }

  function EtcDir(ds: Dataset): (r: Paths.Path)
    ensures Paths.Parent(r) == ds.dir && Paths.Name(r) == "etc"
  {
    SubDir(ds, "etc")
  }


  // ---------------------------------------------------------------------------
  // Specs

  /** `cldf_specs_dict`: a single spec under the key `None`, a dict as it is. */
  function SpecsDict(d: SpecsDecl): (r: Dicts.Dict<Option<string>, Cldf.Spec>)
    ensures d.SingleSpec? ==> Dicts.Keys(r) == [None] && Dicts.Get(r, None) == Some(d.spec)
    ensures d.SpecDict? ==> r == d.specs
  {
    match d
    case SingleSpec(s) => [(None, s)]
    case SpecDict(m) => m
  }

  /** `list(cldf_specs_dict.values())` */
  function SpecValues(d: SpecsDecl): (r: seq<Cldf.Spec>)
    ensures |r| == |SpecsDict(d)|
    ensures forall i :: 0 <= i < |r| ==> r[i] == SpecsDict(d)[i].1
  {
    var m := SpecsDict(d);
    seq(|m|, i requires 0 <= i < |m| => m[i].1)
  }

  /** The `cldf_spec` argument of `cldf_writer` and `cldf_reader`: a spec, or a key. */
  datatype SpecRef = SpecObj(spec: Cldf.Spec) | SpecKey(key: Option<string>)

  /** A spec is used as given; a key is looked up in `cldf_specs_dict`, a `KeyError`
      when it is not there. */
  function LookupSpec(ds: Dataset, ref: SpecRef): (r: Result<Cldf.Spec>)
    ensures ref.SpecObj? ==> r == Success(ref.spec)
    ensures ref.SpecKey? ==> (r.Success? <==> Dicts.HasKey(SpecsDict(ds.specs), ref.key))
    ensures ref.SpecKey? && r.Success? ==> Some(r.value) == Dicts.Get(SpecsDict(ds.specs), ref.key)
    ensures r.Failure? ==> r.error.KeyError?
  {
    match ref
    case SpecObj(s) => Success(s)
    case SpecKey(k) =>
      var found := Dicts.Get(SpecsDict(ds.specs), k);
      if found.Some? then Success(found.value) else Failure(KeyError(PyStr(k)))
  }

  /** The default lookup finds the spec of a dataset declaring a single one. */
  lemma LookupSingleSpec(ds: Dataset)
    requires ds.specs.SingleSpec?
    ensures LookupSpec(ds, SpecKey(None)) == Success(ds.specs.spec)
  {
  }

  /** `cldf_writer(args, cldf_spec, clean)`: a writer for the looked-up spec, not entered. */
  function CldfWriter(ds: Dataset, ref: SpecRef, clean: bool): (r: Result<Cldf.Writer>)
    ensures r.Success? <==> LookupSpec(ds, ref).Success?
    ensures r.Success? ==> r.value == Cldf.Writer(LookupSpec(ds, ref).value, clean, None)
    ensures r.Success? ==> Cldf.Handle(r.value).Failure?
  {
    var spec :- LookupSpec(ds, ref);
    Success(Cldf.Writer(spec, clean, None))
  }

  /** `cldf_reader(cldf_spec)`: the metadata file of the looked-up spec, which pycldf loads. */
  function CldfReader(ds: Dataset, ref: SpecRef): (r: Result<Paths.Path>)
    ensures r.Success? <==> LookupSpec(ds, ref).Success?
    ensures r.Success? ==> r.value == Cldf.MetadataPath(LookupSpec(ds, ref).value)
  {
    var spec :- LookupSpec(ds, ref);
    Success(Cldf.MetadataPath(spec))
  }

  // ---------------------------------------------------------------------------
  // README

  predicate IsTitle(line: string) {
    Strings.StartsWith(line, "# ")
  }

  /** The index of the first line starting with `# `. */
  function FirstTitle(lines: seq<string>): (r: Option<nat>)
    ensures r.Some? ==> r.value < |lines| && IsTitle(lines[r.value])
    ensures r.Some? ==> forall j :: 0 <= j < r.value ==> !IsTitle(lines[j])
    ensures r.None? ==> forall j :: 0 <= j < |lines| ==> !IsTitle(lines[j])
  {
    if |lines| == 0 then None
    else if IsTitle(lines[0]) then Some(0)
    else
      var t := FirstTitle(lines[1..]);
      assert forall j :: 1 <= j < |lines| ==> lines[j] == lines[1..][j - 1];
      if t.Some? then Some(t.value + 1) else None
  }

  /** The loop of `_cmd_readme` over the lines, with its `title_found` flag. */
  function BadgeLoop(lines: seq<string>, badge: string, titleFound: bool): seq<string>
    decreases |lines|
  {
    if |lines| == 0 then []
    else if IsTitle(lines[0]) && !titleFound then [lines[0], "", badge] + BadgeLoop(lines[1..], badge, true)
    else [lines[0]] + BadgeLoop(lines[1..], badge, titleFound)
  }

  lemma {:induction false} BadgeLoopAfterTitle(lines: seq<string>, badge: string)
    ensures BadgeLoop(lines, badge, true) == lines
    decreases |lines|
  {
    if |lines| > 0 {
      BadgeLoopAfterTitle(lines[1..], badge);
      assert lines == [lines[0]] + lines[1..];
    }
  }

  /** The badge goes in once, after the first title line, behind an empty line; without a
      title line nothing changes. */
  lemma {:induction false} BadgeLoopInserts(lines: seq<string>, badge: string)
    ensures FirstTitle(lines).None? ==> BadgeLoop(lines, badge, false) == lines
    ensures FirstTitle(lines).Some? ==>
      var k := FirstTitle(lines).value;
      BadgeLoop(lines, badge, false) == lines[..k + 1] + ["", badge] + lines[k + 1..]
    decreases |lines|
  {
    if |lines| > 0 {
      if IsTitle(lines[0]) {
        BadgeLoopAfterTitle(lines[1..], badge);
        assert lines[..1] == [lines[0]];
      } else {
        BadgeLoopInserts(lines[1..], badge);
        assert lines == [lines[0]] + lines[1..];
        var t := FirstTitle(lines[1..]);
        if t.Some? {
          var k := t.value;
          assert lines[..k + 2] == [lines[0]] + lines[1..][..k + 1];
          assert lines[k + 2..] == lines[1..][k + 1..];
        }
      }
    }
  }

  /** The badge step of `_cmd_readme`: an empty badge leaves the markdown as it is. */
  function InsertBadge(md: string, badge: string): (r: string)
    ensures badge == "" ==> r == md
  {
    if badge == "" then md
    else Strings.Join(BadgeLoop(Strings.Split(md, "\n"), badge, false), "\n")
  }

  /** Read back line by line, the README has the badge right after the first title line
      and an empty line, and is unchanged without a title line. */
  lemma InsertBadgeLines(md: string, badge: string)
    requires badge != "" && '\n' !in badge
    ensures var lines := Strings.Split(md, "\n");
            && (FirstTitle(lines).None? ==> InsertBadge(md, badge) == md)
            && (FirstTitle(lines).Some? ==>
                  var k := FirstTitle(lines).value;
                  Strings.Split(InsertBadge(md, badge), "\n") == lines[..k + 1] + ["", badge] + lines[k + 1..])
  {
    var lines := Strings.Split(md, "\n");
    BadgeLoopInserts(lines, badge);
    Strings.JoinSplit(md, "\n");
    var k := FirstTitle(lines);
    if k.Some? {
      var out := lines[..k.value + 1] + ["", badge] + lines[k.value + 1..];
      forall i | 0 <= i < |out| ensures '\n' !in out[i] {
        if i <= k.value {
          assert out[i] == lines[i];
          Strings.ContainsCharIff(lines[i], '\n');
        } else if i == k.value + 1 {
          assert out[i] == "";
        } else if i == k.value + 2 {
          assert out[i] == badge;
        } else {
          assert out[i] == lines[i - 2];
          Strings.ContainsCharIff(lines[i - 2], '\n');
        }
      }
      Strings.SplitJoinChar(out, '\n');
    }
  }

  /** The line listing one CLDF dataset of the README section. */
  function SpecLine(cldfModule: string, p: string): string {
    "- CLDF [" + cldfModule + "](https://github.com/cldf/cldf/tree/master/modules/" + cldfModule + ") at ["
    + p + "](" + p + ")"
  }

  /** The specs whose metadata file exists, in spec-dict order. */
  function Listed(specs: seq<Cldf.Spec>, isFile: Paths.Path -> bool): (r: seq<Cldf.Spec>)
    ensures forall s :: s in r <==> s in specs && isFile(Cldf.MetadataPath(s))
    ensures |r| <= |specs|
  {
    Seqs.Filter((s: Cldf.Spec) => isFile(Cldf.MetadataPath(s)), specs)
  }

  /** One line per listed spec: its module and its metadata file relative to the
      dataset's dir; a `ValueError` when a metadata file lies outside it. */
  function ListedLines(dir: Paths.Path, listed: seq<Cldf.Spec>): (r: Result<seq<string>>)
    ensures r.Success? <==>
      forall i :: 0 <= i < |listed| ==> Paths.RelativeTo(Cldf.MetadataPath(listed[i]), dir).Success?
    ensures r.Success? ==> |r.value| == |listed|
    ensures r.Success? ==> forall i :: 0 <= i < |listed| ==>
      r.value[i] == SpecLine(listed[i].cldfModule, Paths.Render(Paths.RelativeTo(Cldf.MetadataPath(listed[i]), dir).value))
    ensures r.Failure? ==> r.error.ValueError?
  {
    if |listed| == 0 then Success([])
    else
      var p := Paths.RelativeTo(Cldf.MetadataPath(listed[0]), dir);
      if p.Failure? then Failure(p.error)
      else
        var tail := listed[1..];
        var rest := ListedLines(dir, tail);
        assert forall i :: 1 <= i < |listed| ==> listed[i] == tail[i - 1];
        if rest.Failure? then rest
        else Success([SpecLine(listed[0].cldfModule, Paths.Render(p.value))] + rest.value)
  }

  const SectionHead := "\n\n" + Heading + "\n"

  /** `_cmd_readme`: the README text written to `dir/README.md`. A `Metadata` object is
      always truthy, so the README is always written. `readme` is what `cmd_readme`
      returns, `badge` what `build_status_badge` returns, and `isFile` tells which
      metadata files exist. */
  function Readme(ds: Dataset, readme: string, badge: string, isFile: Paths.Path -> bool): (r: Result<string>)
    ensures r.Success? <==> ListedLines(ds.dir, Listed(SpecValues(ds.specs), isFile)).Success?
    ensures r.Success? ==>
      var lines := ListedLines(ds.dir, Listed(SpecValues(ds.specs), isFile)).value;
      (forall i :: 0 <= i < |lines| ==> '\n' !in lines[i]) ==>
        Strings.Split(r.value, "\n") == Strings.Split(InsertBadge(readme, badge), "\n") + SectionLines() + lines
  {
    var lines :- ListedLines(ds.dir, Listed(SpecValues(ds.specs), isFile));
    var md := InsertBadge(readme, badge);
    ReadmeText(md, lines);
    Success(md + Strings.Join([SectionHead, IntroLine + "\n"] + lines, "\n"))
  }

  const Heading := "## CLDF Datasets"
  const IntroLine := "The following CLDF " + "datasets are available " + "in [cldf](cldf):"

  /** The lines the section adds before the listed specs. */
  function SectionLines(): (r: seq<string>)
    ensures forall k :: 0 <= k < |r| ==> '\n' !in r[k]
  {
    assert '\n' !in "The following CLDF " && '\n' !in "datasets are available " && '\n' !in "in [cldf](cldf):";
    assert '\n' !in Heading;
    ["", Heading, "", IntroLine, ""]
  }

  /** Read back line by line, the section appended to the markdown `md` is an empty line,
      the section heading, an empty line, the intro line, an empty line, and then the
      listed lines in order. */
  lemma ReadmeText(md: string, lines: seq<string>)
    ensures (forall i :: 0 <= i < |lines| ==> '\n' !in lines[i]) ==>
      Strings.Split(md + Strings.Join([SectionHead, IntroLine + "\n"] + lines, "\n"), "\n")
      == Strings.Split(md, "\n") + SectionLines() + lines
  {
    if forall i :: 0 <= i < |lines| ==> '\n' !in lines[i] {
      SectionJoin(Heading, IntroLine, lines);
      assert md + Strings.Join([SectionHead, IntroLine + "\n"] + lines, "\n")
             == md + "\n" + Strings.Join(SectionLines() + lines, "\n");
      AppendedLines(md, SectionLines(), lines);
    }
  }

  /** Text appended after a newline adds its lines after the text's own. */
  lemma AppendedLines(md: string, head: seq<string>, lines: seq<string>)
    requires |head| > 0
    requires forall k :: 0 <= k < |head| ==> '\n' !in head[k]
    requires forall k :: 0 <= k < |lines| ==> '\n' !in lines[k]
    ensures Strings.Split(md + "\n" + Strings.Join(head + lines, "\n"), "\n") == Strings.Split(md, "\n") + head + lines
  {
    var all := head + lines;
    forall k | 0 <= k < |all| ensures '\n' !in all[k] {
      if k < |head| {
        assert all[k] == head[k];
      } else {
        assert all[k] == lines[k - |head|];
      }
    }
    Strings.SplitAfterJoin(md, all, '\n');
  }

  /** The section text is an empty line followed by the section's lines. */
  lemma SectionJoin(h: string, intro: string, lines: seq<string>)
    ensures Strings.Join(["\n\n" + h + "\n", intro + "\n"] + lines, "\n")
            == "\n" + Strings.Join(["", h, "", intro, ""] + lines, "\n")
  {
    var x5 := [""] + lines;
    var x4 := [intro] + x5;
    var x3 := [""] + x4;
    var x2 := [h] + x3;
    var x1 := [""] + x2;
    assert x1 == ["", h, "", intro, ""] + lines;
    Strings.JoinCons("", x2, "\n");
    Strings.JoinCons(h, x3, "\n");
    Strings.JoinCons("", x4, "\n");
    Strings.JoinCons(intro, x5, "\n");
    var b := [intro + "\n"] + lines;
    Strings.JoinCons("\n\n" + h + "\n", b, "\n");
    assert ["\n\n" + h + "\n", intro + "\n"] + lines == ["\n\n" + h + "\n"] + b;
    if |lines| > 0 {
      Strings.JoinCons(intro + "\n", lines, "\n");
      Strings.JoinCons("", lines, "\n");
    } else {
      assert b == [intro + "\n"] && x5 == [""];
    }
  }

  /** The default `cmd_readme`: the metadata's markdown. */
  function DefaultReadme(ds: Dataset): (r: string)
    ensures Strings.StartsWith(r, "# " + Metadata.Heading(ds.metadata) + "\n")
  {
    Metadata.Markdown(ds.metadata)
  }

  // ---------------------------------------------------------------------------
  // makecldf and the default hooks

  /** What `_cmd_makecldf` does around the dataset's `cmd_makecldf`: with exactly one spec
      it opens a writer on it and passes it as `args.writer`, and it writes the legal
      code of a known license to `dir/LICENSE`. */
  datatype MakeCldfPlan = MakeCldfPlan(writer: Option<Cldf.Writer>, licenseFile: Option<(Paths.Path, string)>)

  function MakeCldf(ds: Dataset, find: string -> Option<Metadata.License>): (r: MakeCldfPlan)
    ensures r.writer.Some? <==> |SpecValues(ds.specs)| == 1
    ensures r.writer.Some? ==> r.writer.value == Cldf.Writer(SpecValues(ds.specs)[0], true, None)
    ensures r.licenseFile.Some? <==>
      Metadata.KnownLicense(ds.metadata, find).Some? && Truthy(Metadata.KnownLicense(ds.metadata, find).value.legalcode)
    ensures r.licenseFile.Some? ==>
      r.licenseFile.value.1 == Metadata.KnownLicense(ds.metadata, find).value.legalcode.value
      && r.licenseFile.value.0 == Paths.Path(ds.dir.absolute, ds.dir.parts + ["LICENSE"])
  {
    var specs := SpecValues(ds.specs);
    var writer := if |specs| == 1 then Some(Cldf.Writer(specs[0], true, None)) else None;
    var known := Metadata.KnownLicense(ds.metadata, find);
    var license :=
      if known.Some? && Truthy(known.value.legalcode) then
        Some((Paths.Path(ds.dir.absolute, ds.dir.parts + ["LICENSE"]), known.value.legalcode.value))
      else None;
    MakeCldfPlan(writer, license)
  }

  /** The default `cmd_download` and `cmd_makecldf`: a warning naming the command and
      the dataset, and the result `NOOP`. */
  function DefaultHook(command: string, ds: Dataset): (r: (string, int))
    ensures r.1 == Noop && r.1 < 0
    ensures Strings.StartsWith(r.0, "cmd_" + command) && Strings.EndsWith(r.0, PyStr(ds.id))
  {
    var msg := Strings.Fill2("cmd_", command, " not implemented for dataset ", PyStr(ds.id), "");
    assert msg == "cmd_" + command + " not implemented for dataset " + PyStr(ds.id) + "";
    assert msg[..|"cmd_" + command|] == "cmd_" + command;
    assert msg[|msg| - |PyStr(ds.id)|..] == PyStr(ds.id);
    (msg, Noop)
  }

  // ---------------------------------------------------------------------------
  // Finding datasets

  /** The index of the first dataset with the given id. */
  function FirstWithId(registered: seq<Dataset>, spec: string): (r: Option<nat>)
    ensures r.Some? ==> r.value < |registered| && registered[r.value].id == Some(spec)
    ensures r.Some? ==> forall j :: 0 <= j < r.value ==> registered[j].id != Some(spec)
    ensures r.None? ==> forall j :: 0 <= j < |registered| ==> registered[j].id != Some(spec)
  {
    if |registered| == 0 then None
    else if registered[0].id == Some(spec) then Some(0)
    else
      var t := FirstWithId(registered[1..], spec);
      assert forall j :: 1 <= j < |registered| ==> registered[j] == registered[1..][j - 1];
      if t.Some? then Some(t.value + 1) else None
  }

  /** `get_dataset(spec)`: the first registered dataset with that id; only when there is
      none is `spec` tried as a module path (`fromModule`, see `FromModule`). */
  function GetDataset(spec: string, registered: seq<Dataset>, fromModule: string -> Option<Dataset>): (r: Option<Dataset>)
    ensures FirstWithId(registered, spec).Some? ==> r == Some(registered[FirstWithId(registered, spec).value])
    ensures FirstWithId(registered, spec).None? ==> r == fromModule(spec)
  {
    var i := FirstWithId(registered, spec);
    if i.Some? then Some(registered[i.value]) else fromModule(spec)
  }

  /** An id match wins over a module of the same name, and an earlier registration over
      a later one. */
  lemma GetDatasetFirstMatch(spec: string, registered: seq<Dataset>, fromModule: string -> Option<Dataset>, i: nat)
    requires i < |registered| && registered[i].id == Some(spec)
    requires forall j :: 0 <= j < i ==> registered[j].id != Some(spec)
    ensures GetDataset(spec, registered, fromModule) == Some(registered[i])
  {
    var k := FirstWithId(registered, spec).value;
    assert k >= i;
  }

  /** `nfilter`: the `None`s dropped. */
  function Somes(xs: seq<Option<Dataset>>): (r: seq<Dataset>)
    ensures |r| <= |xs|
    ensures forall d :: d in r <==> Some(d) in xs
  {
    if |xs| == 0 then []
    else
      var rest := Somes(xs[1..]);
      assert forall o :: o in xs <==> o == xs[0] || o in xs[1..];
      if xs[0].Some? then [xs[0].value] + rest else rest
  }

  /** `get_datasets(spec, glob)`: all registered datasets for `*`; with `glob`, the
      datasets in the modules whose paths match (`matches`); else the one `get_dataset`
      finds, if any. */
  function GetDatasets(
    spec: string, glob: bool, registered: seq<Dataset>,
    matches: string -> seq<string>, fromModule: string -> Option<Dataset>): (r: seq<Dataset>)
    ensures spec == "*" ==> r == registered
    ensures spec != "*" && glob ==>
      forall d :: d in r <==> exists p :: p in matches(spec) && fromModule(p) == Some(d)
    ensures spec != "*" && !glob ==>
      r == (if GetDataset(spec, registered, fromModule).Some? then [GetDataset(spec, registered, fromModule).value] else [])
  {
    if spec == "*" then registered
    else if glob then
      var ps := matches(spec);
      var found := seq(|ps|, i requires 0 <= i < |ps| => fromModule(ps[i]));
      assert forall d :: Some(d) in found <==> exists p :: p in ps && fromModule(p) == Some(d) by {
        forall d ensures Some(d) in found <==> exists p :: p in ps && fromModule(p) == Some(d) {
          if Some(d) in found {
            var i :| 0 <= i < |found| && found[i] == Some(d);
            assert ps[i] in ps && fromModule(ps[i]) == Some(d);
          }
          if exists p :: p in ps && fromModule(p) == Some(d) {
            var p :| p in ps && fromModule(p) == Some(d);
            var i :| 0 <= i < |ps| && ps[i] == p;
            assert found[i] == Some(d);
          }
        }
      }
      Somes(found)
    else Somes([GetDataset(spec, registered, fromModule)])
  }

  /** A member of an imported module, as `inspect.getmembers` lists it (sorted by name):
      whether it is a class, a `Dataset` subclass, whether it has subclasses, and the
      dataset instantiating it gives. */
  datatype Member = Member(name: string, isClass: bool, isDatasetSubclass: bool, hasSubclasses: bool, instance: Dataset)

  predicate Qualifies(m: Member) {
    m.isClass && m.isDatasetSubclass && !m.hasSubclasses
  }

  /** `dataset_from_module(path)`: nothing unless the path is an existing file; then the
      first member that is a `Dataset` subclass without subclasses, instantiated. */
  function FromModule(isFile: bool, members: seq<Member>): (r: Option<Dataset>)
    ensures !isFile ==> r.None?
    ensures isFile && r.None? ==> forall i :: 0 <= i < |members| ==> !Qualifies(members[i])
    ensures r.Some? ==> exists i :: 0 <= i < |members| && Qualifies(members[i]) && r.value == members[i].instance
                                    && forall j :: 0 <= j < i ==> !Qualifies(members[j])
  {
    if !isFile then None else FirstQualifying(members)
  }

  function FirstQualifying(members: seq<Member>): (r: Option<Dataset>)
    ensures r.None? ==> forall i :: 0 <= i < |members| ==> !Qualifies(members[i])
    ensures r.Some? ==> exists i :: 0 <= i < |members| && Qualifies(members[i]) && r.value == members[i].instance
                                    && forall j :: 0 <= j < i ==> !Qualifies(members[j])
  {
    if |members| == 0 then None
    else if Qualifies(members[0]) then Some(members[0].instance)
    else
      var r := FirstQualifying(members[1..]);
      assert forall i :: 1 <= i < |members| ==> members[i] == members[1..][i - 1];
      if r.Some? then
        var i :| 0 <= i < |members[1..]| && Qualifies(members[1..][i]) && r.value == members[1..][i].instance
                 && forall j :: 0 <= j < i ==> !Qualifies(members[1..][j]);
        assert Qualifies(members[i + 1]) && r.value == members[i + 1].instance;
        assert forall j :: 0 <= j < i + 1 ==> !Qualifies(members[j]) by {
          forall j | 0 <= j < i + 1 ensures !Qualifies(members[j]) {
            if j > 0 {
              assert members[j] == members[1..][j - 1];
            }
          }
        }
        r
      else None
  }
}
