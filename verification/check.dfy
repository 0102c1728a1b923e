/** The `check` command: CLDF validation and required metadata, as exit codes.

Whether the CLDF data of a spec validates is a parameter; running a dataset's tests
only logs, and is not part of this model.
 */
module CheckCommand {
  import opened Wrappers
  import Seqs
  import Metadata
  import Cldf
  import Dataset
  import CliUtil

  /** The fields of the base `Metadata` class marked `required`, in declaration order. */
  const RequiredFields: seq<string> := ["id", "title", "license", "citation"]

  /** The value of a field of the base `Metadata` class by name; `None` for any other name. */
  function Field(m: Metadata.Metadata, name: string): Option<string> {
    match name
    case "id" => m.id
    case "title" => m.title
    case "description" => m.description
    case "license" => m.license
    case "url" => m.url
    case "citation" => m.citation
    case _ => None
  }

  /** An `attr` field of the dataset's metadata class: its name, whether it is marked
      `required`, and its value on the metadata object. */
  datatype AttrField = AttrField(name: string, required: bool, value: Option<string>)

  /** The fields `check` warns about: required and empty. */
  predicate Warns(f: AttrField) {
    f.required && !Truthy(f.value)
  }

  /** `attr.fields(Metadata)` with the values of `m`: the base class's fields in
      declaration order. A `metadata_cls` subclass passes its own fields instead. */
  function BaseFields(m: Metadata.Metadata): (r: seq<AttrField>)
    ensures forall i :: 0 <= i < |r| ==> r[i].value == Field(m, r[i].name)
    ensures forall i :: 0 <= i < |r| ==> (r[i].required <==> r[i].name in RequiredFields)
  {
    [AttrField("id", true, m.id), AttrField("title", true, m.title),
     AttrField("description", false, m.description), AttrField("license", true, m.license),
     AttrField("url", false, m.url), AttrField("citation", true, m.citation)]
  }

  /** The names of the required fields that are empty, in field order: one warning each. */
  function EmptyRequired(fields: seq<AttrField>): (r: seq<string>)
    ensures |r| <= |fields|
    ensures forall n :: n in r <==> exists i :: 0 <= i < |fields| && fields[i].name == n && Warns(fields[i])
  {
    if |fields| == 0 then []
    else
      var rest := EmptyRequired(fields[1..]);
      assert forall i :: 1 <= i < |fields| ==> fields[i] == fields[1..][i - 1];
      if Warns(fields[0]) then [fields[0].name] + rest else rest
  }

  /** Warnings for the fields of a subclass follow those for the inherited fields. */
  lemma {:induction false} EmptyRequiredAppend(a: seq<AttrField>, b: seq<AttrField>)
    ensures EmptyRequired(a + b) == EmptyRequired(a) + EmptyRequired(b)
  {
    if |a| == 0 {
      assert a + b == b;
    } else {
      assert (a + b)[1..] == a[1..] + b;
      EmptyRequiredAppend(a[1..], b);
    }
  }

  lemma EmptyRequiredCons(f: AttrField, fs: seq<AttrField>)
    ensures EmptyRequired([f] + fs) == (if Warns(f) then [f.name] else []) + EmptyRequired(fs)
  {
    assert ([f] + fs)[1..] == fs;
  }

  /** For the base class, the warnings name, in declaration order, those of the required
      fields `id`, `title`, `license` and `citation` that are empty. */
  lemma BaseEmptyRequired(m: Metadata.Metadata)
    ensures EmptyRequired(BaseFields(m))
            == (if Truthy(m.id) then [] else ["id"]) + (if Truthy(m.title) then [] else ["title"])
               + (if Truthy(m.license) then [] else ["license"]) + (if Truthy(m.citation) then [] else ["citation"])
  {
    var a := [AttrField("id", true, m.id), AttrField("title", true, m.title), AttrField("description", false, m.description)];
    var b := [AttrField("license", true, m.license), AttrField("url", false, m.url), AttrField("citation", true, m.citation)];
    assert BaseFields(m) == a + b;
    EmptyRequiredAppend(a, b);
    RequiredOptionalRequired("id", m.id, "title", m.title, "description", m.description);
    RequiredOptionalRequired("license", m.license, "citation", m.citation, "url", m.url);
    assert b == [AttrField("license", true, m.license)] + [AttrField("url", false, m.url), AttrField("citation", true, m.citation)];
  }

  /** Three fields of which the last is optional warn about the empty required ones. */
  lemma RequiredOptionalRequired(n1: string, v1: Option<string>, n2: string, v2: Option<string>, n3: string, v3: Option<string>)
    ensures EmptyRequired([AttrField(n1, true, v1), AttrField(n2, true, v2), AttrField(n3, false, v3)])
            == (if Truthy(v1) then [] else [n1]) + (if Truthy(v2) then [] else [n2])
    ensures EmptyRequired([AttrField(n1, true, v1), AttrField(n3, false, v3), AttrField(n2, true, v2)])
            == (if Truthy(v1) then [] else [n1]) + (if Truthy(v2) then [] else [n2])
  {
    var f1, f2, f3 := AttrField(n1, true, v1), AttrField(n2, true, v2), AttrField(n3, false, v3);
    EmptyRequiredCons(f3, []);
    EmptyRequiredCons(f2, []);
    EmptyRequiredCons(f2, [f3]);
    EmptyRequiredCons(f3, [f2]);
    EmptyRequiredCons(f1, [f2, f3]);
    EmptyRequiredCons(f1, [f3, f2]);
    assert [f1, f2, f3] == [f1] + [f2, f3] && [f2, f3] == [f2] + [f3] && [f3] == [f3] + [];
    assert [f1, f3, f2] == [f1] + [f3, f2] && [f3, f2] == [f3] + [f2] && [f2] == [f2] + [];
  }

  /** The specs `success and cldf.validate()` visits: all of them up to and including
      the first that fails. */
  function Validated(specs: seq<Cldf.Spec>, validate: Cldf.Spec -> bool): (r: seq<Cldf.Spec>)
    ensures Seqs.IsPrefix(r, specs)
    ensures forall i :: 0 <= i < |r| - 1 ==> validate(r[i])
    ensures |r| < |specs| ==> |r| > 0 && !validate(r[|r| - 1])
  {
    if |specs| == 0 then []
    else if !validate(specs[0]) then [specs[0]]
    else
      var rest := Validated(specs[1..], validate);
      assert [specs[0]] + rest == ([specs[0]] + rest)[..1] + rest;
      [specs[0]] + rest
  }

  /** The validation result: true iff every spec validates. */
  function AllValid(specs: seq<Cldf.Spec>, validate: Cldf.Spec -> bool): (ok: bool)
    ensures ok <==> forall i :: 0 <= i < |specs| ==> validate(specs[i])
  {
    if |specs| == 0 then true
    else
      assert forall i :: 1 <= i < |specs| ==> specs[i] == specs[1..][i - 1];
      validate(specs[0]) && AllValid(specs[1..], validate)
  }

  /** When all specs validate, all are visited; otherwise the last one visited is the
      first that fails. */
  lemma {:induction false} ValidatedStopsAtFirstFailure(specs: seq<Cldf.Spec>, validate: Cldf.Spec -> bool)
    ensures AllValid(specs, validate) ==> Validated(specs, validate) == specs
    ensures !AllValid(specs, validate) ==>
              var v := Validated(specs, validate);
              |v| > 0 && !validate(v[|v| - 1]) && forall i :: 0 <= i < |v| - 1 ==> validate(v[i])
  {
    if |specs| > 0 && validate(specs[0]) {
      ValidatedStopsAtFirstFailure(specs[1..], validate);
      assert specs == [specs[0]] + specs[1..];
    }
  }

  /** What `check(ds, args)` computes. */
  datatype Outcome = Outcome(code: int, validated: seq<Cldf.Spec>, warnings: seq<string>)

  /** `check(ds, args)`: 1 when validation fails, else 2 when a required field is
      empty, else 0. */
  function Check(ds: Dataset.Dataset, fields: seq<AttrField>, withValidation: bool, validate: Cldf.Spec -> bool): (r: Outcome)
    ensures r.warnings == EmptyRequired(fields)
    ensures !withValidation ==> r.validated == []
    ensures withValidation ==> r.validated == Validated(Dataset.SpecValues(ds.specs), validate)
    ensures r.code == 1 <==> withValidation && !AllValid(Dataset.SpecValues(ds.specs), validate)
    ensures r.code == 2 <==> (!withValidation || AllValid(Dataset.SpecValues(ds.specs), validate)) && |r.warnings| > 0
    ensures r.code == 0 || r.code == 1 || r.code == 2
  {
    var specs := Dataset.SpecValues(ds.specs);
    var success := !withValidation || AllValid(specs, validate);
    var warnings := EmptyRequired(fields);
    Outcome(if !success then 1 else if |warnings| > 0 then 2 else 0,
            if withValidation then Validated(specs, validate) else [],
            warnings)
  }

  /** The exit code of `run`: 1 if any dataset gave 1, else 2 if any gave 2, else 0. */
  function Aggregate(codes: seq<int>): (r: int)
    ensures r == 1 <==> 1 in codes
    ensures r == 2 <==> 1 !in codes && 2 in codes
    ensures r == 0 <==> 1 !in codes && 2 !in codes
  {
    if 1 in codes then 1 else if 2 in codes then 2 else 0
  }

  /** Aggregating is compositional: the code of a concatenation is the aggregate of the
      two codes. */
  lemma AggregateAppend(a: seq<int>, b: seq<int>)
    ensures Aggregate(a + b) == Aggregate([Aggregate(a), Aggregate(b)])
  {
    assert forall x :: x in a + b <==> x in a || x in b;
  }

  /** `run(args)`: `check` on every dataset `args` names; a `ParserError` when none. */
  function Run(args: CliUtil.Args, reg: CliUtil.Registry, fieldsOf: Dataset.Dataset -> seq<AttrField>,
               withValidation: bool, validate: Cldf.Spec -> bool,
               attrs: Dataset.Dataset -> set<string>, invoke: (Dataset.Dataset, string) -> int): (r: Result<int>)
    ensures CliUtil.GetDatasets(args, reg).Failure? <==> r.Failure?
    ensures r.Success? ==>
              var ds := CliUtil.GetDatasets(args, reg).value;
              && (r.value == 1 <==> exists i :: 0 <= i < |ds| && Check(ds[i], fieldsOf(ds[i]), withValidation, validate).code == 1)
              && (r.value == 0 <==> forall i :: 0 <= i < |ds| ==> Check(ds[i], fieldsOf(ds[i]), withValidation, validate).code == 0)
  {
    var f := (d: Dataset.Dataset) => Check(d, fieldsOf(d), withValidation, validate).code;
    var codes :- CliUtil.WithDatasets(args, CliUtil.Callable(f), reg, attrs, invoke);
    CliUtil.WithDatasetsCallable(args, f, reg, attrs, invoke);
    var ds := CliUtil.GetDatasets(args, reg).value;
    assert forall i :: 0 <= i < |ds| ==> codes[i] == Check(ds[i], fieldsOf(ds[i]), withValidation, validate).code;
    assert forall c :: c in codes <==> exists i :: 0 <= i < |ds| && c == Check(ds[i], fieldsOf(ds[i]), withValidation, validate).code by {
      forall c ensures c in codes <==> exists i :: 0 <= i < |ds| && c == Check(ds[i], fieldsOf(ds[i]), withValidation, validate).code {
        if c in codes {
          var i :| 0 <= i < |codes| && codes[i] == c;
        }
      }
    }
    Success(Aggregate(codes))
  }
}
