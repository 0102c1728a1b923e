/** The command line's way to a dataset: resolving the `DATASET` argument, and running
a callable or a named dataset command on the datasets found.

The registered datasets per entry point, the datasets found in module files and the
module paths a glob pattern matches are given as a `Registry`. What a dataset has as
attributes, and what running one of its commands gives, are parameters too.
 */
module CliUtil {
  import opened Wrappers
  import Strings
  import Dataset

  /** The parsed command line options that matter here. */
  datatype Args = Args(dataset: string, entryPoint: string, glob: bool)

  /** Where datasets come from: the datasets registered for an entry point, the dataset a
      module file defines (see `Dataset.FromModule`), and the paths a pattern matches. */
  datatype Registry = Registry(
    registered: string -> seq<Dataset.Dataset>,
    fromModule: string -> Option<Dataset.Dataset>,
    matches: string -> seq<string>)

  function InvalidSpec(args: Args): Error {
    ParserError("\nInvalid dataset spec: <" + args.entryPoint + "> " + args.dataset + "\n")
  }

  /** `get_dataset(args)`: the dataset the spec names, or a `ParserError`. */
  function GetDataset(args: Args, reg: Registry): (r: Result<Dataset.Dataset>)
    ensures r.Success? <==> Dataset.GetDataset(args.dataset, reg.registered(args.entryPoint), reg.fromModule).Some?
    ensures r.Success? ==> r.value == Dataset.GetDataset(args.dataset, reg.registered(args.entryPoint), reg.fromModule).value
    ensures r.Failure? ==> r.error == InvalidSpec(args)
  {
    var ds := Dataset.GetDataset(args.dataset, reg.registered(args.entryPoint), reg.fromModule);
    if ds.Some? then Success(ds.value) else Failure(InvalidSpec(args))
  }

  /** The spec rewrite of `get_datasets`: with `--glob`, or for the spec `_`, each `_`
      becomes `*`. */
  function Respec(args: Args): (r: Args)
    ensures r.entryPoint == args.entryPoint && r.glob == args.glob && |r.dataset| == |args.dataset|
    ensures args.glob || args.dataset == "_" ==>
      forall i :: 0 <= i < |r.dataset| ==> r.dataset[i] == if args.dataset[i] == '_' then '*' else args.dataset[i]
    ensures !(args.glob || args.dataset == "_") ==> r == args
  {
    if args.glob || args.dataset == "_" then
      Strings.ReplaceCharPointwise(args.dataset, '_', '*');
      args.(dataset := Strings.Replace(args.dataset, "_", "*"))
    else args
  }

  /** `_` stands for every dataset of the entry point. */
  lemma RespecUnderscore(args: Args)
    requires args.dataset == "_"
    ensures Respec(args).dataset == "*"
  {
    var d := Respec(args).dataset;
    assert d[0] == '*';
    assert d == [d[0]];
  }

  /** `get_datasets(args)`: the datasets for the rewritten spec; a `ParserError` when
      there are none. */
  function GetDatasets(args: Args, reg: Registry): (r: Result<seq<Dataset.Dataset>>)
    ensures var a := Respec(args);
            var found := Dataset.GetDatasets(a.dataset, a.glob, reg.registered(a.entryPoint), reg.matches, reg.fromModule);
            && (r.Success? <==> |found| > 0)
            && (r.Success? ==> r.value == found)
            && (r.Failure? ==> r.error == InvalidSpec(a))
  {
    var a := Respec(args);
    var found := Dataset.GetDatasets(a.dataset, a.glob, reg.registered(a.entryPoint), reg.matches, reg.fromModule);
    if |found| > 0 then Success(found) else Failure(InvalidSpec(a))
  }

  /** With the spec `_`, all registered datasets of the entry point, if any. */
  lemma GetDatasetsAll(args: Args, reg: Registry)
    requires args.dataset == "_"
    ensures var all := reg.registered(args.entryPoint);
            && (|all| > 0 ==> GetDatasets(args, reg) == Success(all))
            && (|all| == 0 ==> GetDatasets(args, reg).Failure?)
  {
    RespecUnderscore(args);
  }

  /** The `func` argument of `with_dataset`: a callable taking the dataset (and `args`),
      or the name of a dataset command. */
  datatype Command<R> = Callable(f: Dataset.Dataset -> R) | Named(name: string)

  /** The method `with_dataset` looks up for a command name: `_cmd_<name>` when the
      dataset has it, else `cmd_<name>`. `attrs` are the dataset's attribute names. */
  function ResolveCommand(attrs: set<string>, name: string): (r: Option<string>)
    ensures ("_cmd_" + name) in attrs ==> r == Some("_cmd_" + name)
    ensures ("_cmd_" + name) !in attrs && ("cmd_" + name) in attrs ==> r == Some("cmd_" + name)
    ensures r.None? <==> ("_cmd_" + name) !in attrs && ("cmd_" + name) !in attrs
  {
    if ("_cmd_" + name) in attrs then Some("_cmd_" + name)
    else if ("cmd_" + name) in attrs then Some("cmd_" + name)
    else None
  }

  /** `with_dataset(args, func, dataset)`: the given dataset, or the one `args` names; a
      callable is called with it, a name is resolved to one of its methods and that is
      called. `attrs(ds)` are the attribute names of a dataset and `invoke(ds, m)` is
      what calling its method `m` with `args` returns. */
  function WithDataset<R>(
    args: Args, func: Command<R>, dataset: Option<Dataset.Dataset>, reg: Registry,
    attrs: Dataset.Dataset -> set<string>, invoke: (Dataset.Dataset, string) -> R): (r: Result<R>)
    ensures dataset.None? && GetDataset(args, reg).Failure? ==> r == Failure(GetDataset(args, reg).error)
    ensures var ds := if dataset.Some? then Success(dataset.value) else GetDataset(args, reg);
            ds.Success? ==>
              && (func.Callable? ==> r == Success(func.f(ds.value)))
              && (func.Named? && ResolveCommand(attrs(ds.value), func.name).Some? ==>
                    r == Success(invoke(ds.value, ResolveCommand(attrs(ds.value), func.name).value)))
              && (func.Named? && ResolveCommand(attrs(ds.value), func.name).None? ==>
                    r.Failure? && r.error.ParserError?)
  {
    var ds :- if dataset.Some? then Success(dataset.value) else GetDataset(args, reg);
    match func
    case Callable(f) => Success(f(ds))
    case Named(name) =>
      var m := ResolveCommand(attrs(ds), name);
      if m.None? then Failure(ParserError("Dataset " + PyStr(ds.id) + " has no " + name + " command"))
      else Success(invoke(ds, m.value))
  }

  /** The loop of `with_datasets` over the given datasets; the first failure ends it. */
  function RunEach<R>(
    args: Args, func: Command<R>, datasets: seq<Dataset.Dataset>, reg: Registry,
    attrs: Dataset.Dataset -> set<string>, invoke: (Dataset.Dataset, string) -> R): (r: Result<seq<R>>)
    ensures r.Success? <==> forall i :: 0 <= i < |datasets| ==> WithDataset(args, func, Some(datasets[i]), reg, attrs, invoke).Success?
    ensures r.Success? ==> |r.value| == |datasets|
    ensures r.Success? ==> forall i :: 0 <= i < |datasets| ==>
      r.value[i] == WithDataset(args, func, Some(datasets[i]), reg, attrs, invoke).value
  {
    if |datasets| == 0 then Success([])
    else
      var first := WithDataset(args, func, Some(datasets[0]), reg, attrs, invoke);
      var rest := RunEach(args, func, datasets[1..], reg, attrs, invoke);
      assert forall i :: 1 <= i < |datasets| ==> datasets[i] == datasets[1..][i - 1];
      if first.Failure? then Failure(first.error)
      else if rest.Failure? then Failure(rest.error)
      else Success([first.value] + rest.value)
  }

  /** `with_datasets(args, func)`: one result per dataset `args` names, in their order. */
  function WithDatasets<R>(
    args: Args, func: Command<R>, reg: Registry,
    attrs: Dataset.Dataset -> set<string>, invoke: (Dataset.Dataset, string) -> R): (r: Result<seq<R>>)
    ensures GetDatasets(args, reg).Failure? ==> r == Failure(GetDatasets(args, reg).error)
    ensures GetDatasets(args, reg).Success? ==> r == RunEach(args, func, GetDatasets(args, reg).value, reg, attrs, invoke)
  {
    var datasets :- GetDatasets(args, reg);
    RunEach(args, func, datasets, reg, attrs, invoke)
  }

  /** A callable runs on every dataset, so `with_datasets` gives exactly one result per
      dataset, in order. */
  lemma WithDatasetsCallable<R>(args: Args, f: Dataset.Dataset -> R, reg: Registry,
                                attrs: Dataset.Dataset -> set<string>, invoke: (Dataset.Dataset, string) -> R)
    requires GetDatasets(args, reg).Success?
    ensures var ds := GetDatasets(args, reg).value;
            var r := WithDatasets(args, Callable(f), reg, attrs, invoke);
            && r.Success? && |r.value| == |ds|
            && forall i :: 0 <= i < |ds| ==> r.value[i] == f(ds[i])
  {
  }
}
