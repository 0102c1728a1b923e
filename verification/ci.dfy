/** GitHub Actions support: the README badge for the CLDF validation workflow and the
workflow file `setup` writes.

Whether files exist and the repository's branches are parameters.
 */
module Ci {
  import opened Wrappers
  import Strings
  import Paths
  import Repository
  import Cldf

  const ConfigFname := "cldf-validation.yml"

  const BadgeHead := "[![CLDF validation](https://github.com/"
  const BadgeMid := "/workflows/CLDF-validation/badge.svg)](https://github.com/"
  const BadgeTail := "/actions?query=workflow%3ACLDF-validation)"

  /** The workflow text up to the `push` branch, between the two branches, and after
      the `pull_request` branch up to the test commands. */
  const YmlHead := "name: CLDF-validation\n\non:\n  push:\n    branches: [ "
  const YmlMid := " ]" + "\n  pull_request:\n    branches: [ "
  const YmlTail :=
    " ]\n\njobs:\n  build:\n\n    runs-on: ubuntu-latest\n    strategy:\n      matrix:\n"
    + "        python-version: [3.9]\n\n    steps:\n    - uses: actions/checkout@v3\n"
    + "    - name: Set up Python ${{ matrix.python-version }}\n      uses: actions/setup-python@v4\n"
    + "      with:\n        python-version: ${{ matrix.python-version }}\n"
    + "    - name: Install dependencies\n      run: |\n        python -m pip install --upgrade pip\n"
    + "        pip install pytest-cldf\n    - name: Test with pytest\n      run: |\n"

  /** `dataset.repo and dataset.repo.github_repo` */
  function GithubRepoOf(repo: Option<Repository.Repo>): (r: Option<string>)
    ensures repo.None? ==> r.None?
    ensures repo.Some? ==> r == Repository.GithubRepo(Repository.Url(repo.value.origin))
  {
    if repo.None? then None else Repository.GithubRepo(Repository.Url(repo.value.origin))
  }

  /** `build_status_badge`: a markdown badge linking the workflow, or `''` without a
      GitHub repository or without the workflow file. */
  function StatusBadge(repo: Option<Repository.Repo>, workflowExists: bool): (r: string)
    ensures r != "" <==> Truthy(GithubRepoOf(repo)) && workflowExists
    ensures r != "" ==>
      var slug := GithubRepoOf(repo).value;
      && Strings.StartsWith(r, BadgeHead)
      && Strings.OccursAt(r, slug, |BadgeHead|)
      && Strings.OccursAt(r, BadgeMid, |BadgeHead| + |slug|)
      && Strings.OccursAt(r, slug, |BadgeHead| + |slug| + |BadgeMid|)
      && Strings.EndsWith(r, BadgeTail)
  {
    var slug := GithubRepoOf(repo);
    if Truthy(slug) && workflowExists then
      Strings.Fill2(BadgeHead, slug.value, BadgeMid, slug.value, BadgeTail)
    else ""
  }

  /** The default branch: `main` if there is one, else `master`. When listing the
      branches raises `AttributeError`, `master` is taken, which the code asserts only
      happens under `force`. */
  function Branch(repo: Option<Repository.Repo>, force: bool): (r: Result<string>)
    ensures repo.Some? && repo.value.branches.Some? ==>
      r == Success(if "main" in repo.value.branches.value then "main" else "master")
    ensures (repo.None? || repo.value.branches.None?) ==>
      r == (if force then Success("master") else Failure(AssertionError("force")))
  {
    if repo.Some? && repo.value.branches.Some? then
      Success(if "main" in repo.value.branches.value then "main" else "master")
    else if force then Success("master")
    else Failure(AssertionError("force"))
  }

  /** The workflow's test command for one spec: `cldf_dir` relative to the dataset dir
      (always `cldf`) joined with the spec's metadata file name. */
  function TestLine(spec: Cldf.Spec): string {
    "        pytest --cldf-metadata="
    + Paths.Render(Paths.Child(Paths.Path(false, ["cldf"]), spec.metadataFname))
    + " test.py"
  }

  /** A plain file name is tested at `cldf/<name>`. */
  lemma TestLineOfName(spec: Cldf.Spec)
    requires Paths.IsPart(spec.metadataFname)
    ensures TestLine(spec) == "        pytest --cldf-metadata=cldf/" + spec.metadataFname + " test.py"
  {
    Paths.ChildOfPart(Paths.Path(false, ["cldf"]), spec.metadataFname);
    var parts := ["cldf", spec.metadataFname];
    assert ["cldf"] + [spec.metadataFname] == parts;
    assert parts[1..] == [spec.metadataFname];
    assert Strings.Join(parts, "/") == "cldf" + "/" + spec.metadataFname;
  }

  function TestLines(specs: seq<Cldf.Spec>): (r: seq<string>)
    ensures |r| == |specs|
    ensures forall i :: 0 <= i < |specs| ==> r[i] == TestLine(specs[i])
  {
    seq(|specs|, i requires 0 <= i < |specs| => TestLine(specs[i]))
  }

  /** `CONFIG_YML % (branch, branch, tests)` */
  function ConfigYml(branch: string, tests: seq<string>): (r: string)
    ensures Strings.StartsWith(r, YmlHead)
    ensures Strings.OccursAt(r, branch, |YmlHead|)
    ensures Strings.OccursAt(r, YmlMid, |YmlHead| + |branch|)
    ensures Strings.OccursAt(r, branch, |YmlHead| + |branch| + |YmlMid|)
    ensures Strings.EndsWith(r, YmlTail + Strings.Join(tests, "\n") + "\n")
  {
    Strings.Fill2(YmlHead, branch, YmlMid, branch, YmlTail + Strings.Join(tests, "\n") + "\n")
  }

  /** The `push` branch can be read back from the workflow text. */
  lemma ConfigYmlPushBranch(branch: string, tests: seq<string>)
    requires ' ' !in branch
    ensures Strings.BeforeFirst(ConfigYml(branch, tests)[|YmlHead|..], " ]") == branch
  {
    assert YmlMid[..2] == " ]";
    SlotReadBack(YmlHead, branch, YmlMid, YmlTail + Strings.Join(tests, "\n") + "\n", " ]");
  }

  lemma SlotReadBack(head: string, x: string, mid: string, tail: string, close: string)
    requires |close| > 0 && close[0] !in x && Strings.StartsWith(mid, close)
    ensures Strings.BeforeFirst(Strings.Fill2(head, x, mid, x, tail)[|head|..], close) == x
  {
    var rest := mid + x + tail;
    FilledAfterHead(head, x, mid, tail);
    assert rest[..|close|] == mid[..|close|];
    Strings.BeforeFirstAt(x, rest, close);
  }

  lemma FilledAfterHead(head: string, x: string, mid: string, tail: string)
    ensures Strings.Fill2(head, x, mid, x, tail)[|head|..] == x + (mid + x + tail)
  {
    var r := head + x + mid + x + tail;
    assert r == head + (x + (mid + x + tail));
  }

  /** `dataset.dir / '.github' / 'workflows' / CONFIG_FNAME` */
  function WorkflowPath(dir: Paths.Path): (r: Paths.Path)
    ensures r.absolute == dir.absolute && r.parts == dir.parts + [".github", "workflows", ConfigFname]
  {
    Paths.Path(dir.absolute, dir.parts + [".github", "workflows", ConfigFname])
  }

  /** `yml.parent.mkdir(exist_ok=True, parents=True)`, given what is at `dir/.github`
      (`None`: nothing): the error it raises, if any. An existing folder is fine; a file
      where a folder should be is not. */
  function MakeWorkflowsDir(dir: Paths.Path, github: Option<Cldf.Node>): (r: Option<Error>)
    ensures r.None? <==>
      github.None? || (github.value.Folder? &&
        ("workflows" !in github.value.entries || github.value.entries["workflows"].Folder?))
    ensures r.Some? && github.value.File? ==> r.value.NotADirectoryError?
    ensures r.Some? && github.value.Folder? ==> r.value.FileExistsError?
  {
    var parent := Paths.Path(dir.absolute, dir.parts + [".github", "workflows"]);
    if github.None? then None
    else if github.value.File? then Some(NotADirectoryError(Paths.Render(parent)))
    else if "workflows" in github.value.entries && github.value.entries["workflows"].File? then
      Some(FileExistsError(Paths.Render(parent)))
    else None
  }

  /** `setup(dataset, force)`: `None` where it returns `False` without writing, else the
      workflow file written. `ymlExists` says whether the workflow file is there, and
      `github` what is at `dir/.github`. */
  function Setup(
    dir: Paths.Path, repo: Option<Repository.Repo>, ymlExists: bool, github: Option<Cldf.Node>,
    specs: seq<Cldf.Spec>, force: bool): (r: Result<Option<(Paths.Path, string)>>)
    ensures !force && (!Truthy(GithubRepoOf(repo)) || ymlExists) ==> r == Success(None)
    ensures force || (Truthy(GithubRepoOf(repo)) && !ymlExists) ==>
      (r.Success? <==> MakeWorkflowsDir(dir, github).None? && Branch(repo, force).Success?)
    ensures force || (Truthy(GithubRepoOf(repo)) && !ymlExists) ==>
      MakeWorkflowsDir(dir, github).Some? ==> r == Failure(MakeWorkflowsDir(dir, github).value)
    ensures r.Success? && r.value.Some? ==>
      r.value.value.0 == WorkflowPath(dir)
      && r.value.value.1 == ConfigYml(Branch(repo, force).value, TestLines(specs))
  {
    if !force && (!Truthy(GithubRepoOf(repo)) || ymlExists) then Success(None)
    else
      var made := MakeWorkflowsDir(dir, github);
      if made.Some? then Failure(made.value)
      else
        var branch :- Branch(repo, force);
        Success(Some((WorkflowPath(dir), ConfigYml(branch, TestLines(specs)))))
  }

  /** Without `force`, a repository on GitHub that lacks the workflow always gets it,
      with one test command per spec, unless a file blocks the workflow folder. */
  lemma SetupWritesForGithubRepo(dir: Paths.Path, repo: Option<Repository.Repo>, github: Option<Cldf.Node>, specs: seq<Cldf.Spec>)
    ensures Truthy(GithubRepoOf(repo)) && repo.value.branches.Some? && MakeWorkflowsDir(dir, github).None? ==>
            var r := Setup(dir, repo, false, github, specs, false);
            && r.Success? && r.value.Some?
            && Strings.EndsWith(r.value.value.1, YmlTail + Strings.Join(TestLines(specs), "\n") + "\n")
  {
  }
}
