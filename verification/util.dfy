/** Text helpers: two-column aligned output, and the filter that keeps the `pip freeze`
lines naming packages the running process has imported.

The `pip freeze` output and the names of the loaded modules are parameters.
 */
module Util {
  import opened Wrappers
  import Strings
  import Seqs

  /** `max(len(p[0]) for p in pairs)` of a non-empty list. */
  function MaxLabel(pairs: seq<(string, Option<string>)>): (n: nat)
    requires |pairs| > 0
    ensures forall i :: 0 <= i < |pairs| ==> |pairs[i].0| <= n
    ensures exists i :: 0 <= i < |pairs| && |pairs[i].0| == n
  {
    if |pairs| == 1 then |pairs[0].0|
    else
      var m := MaxLabel(pairs[1..]);
      assert forall i :: 1 <= i < |pairs| ==> pairs[i] == pairs[1..][i - 1];
      var j :| 0 <= j < |pairs[1..]| && |pairs[1..][j].0| == m;
      assert pairs[j + 1] == pairs[1..][j];
      if |pairs[0].0| >= m then |pairs[0].0| else m
  }

  /** One line of `iter_aligned`. */
  function AlignedLine(prefix: string, key: string, width: nat, value: Option<string>): string {
    prefix + Strings.Ljust(key, width) + " " + OrEmpty(value)
  }

  /** `list(iter_aligned(pairs, prefix))`: labels padded to the longest one; a falsy
      value prints as nothing. */
  function IterAligned(pairs: seq<(string, Option<string>)>, prefix: string): (r: seq<string>)
    ensures |r| == |pairs|
  {
    if |pairs| == 0 then []
    else
      var w := MaxLabel(pairs);
      seq(|pairs|, i requires 0 <= i < |pairs| => AlignedLine(prefix, pairs[i].0, w, pairs[i].1))
  }

  /** Every line is the prefix, the key, padding up to one common column, and the
      value: the value column starts at the same offset on every line. */
  lemma IterAlignedColumns(pairs: seq<(string, Option<string>)>, prefix: string, i: nat)
    requires i < |pairs|
    ensures var r := IterAligned(pairs, prefix);
            var col := |prefix| + MaxLabel(pairs) + 1;
            && |r[i]| == col + |OrEmpty(pairs[i].1)|
            && r[i][..|prefix|] == prefix
            && r[i][|prefix|..|prefix| + |pairs[i].0|] == pairs[i].0
            && (forall k :: |prefix| + |pairs[i].0| <= k < col ==> r[i][k] == ' ')
            && r[i][col..] == OrEmpty(pairs[i].1)
  {
    var w := MaxLabel(pairs);
    var key := pairs[i].0;
    var padded := Strings.Ljust(key, w);
    var line := IterAligned(pairs, prefix)[i];
    assert line == prefix + padded + " " + OrEmpty(pairs[i].1);
    assert |padded| == w;
    assert line[|prefix|..|prefix| + |key|] == padded[..|key|];
    forall k | |prefix| + |key| <= k < |prefix| + w + 1 ensures line[k] == ' ' {
      if k < |prefix| + w {
        assert line[k] == padded[k - |prefix|];
      }
    }
  }

  /** The package a `pip freeze` line names: the text before the first `==`, else the
      text after the last `egg=`; other lines name nothing. */
  function RequirementName(line: string): (r: Option<string>)
    ensures r.Some? <==> Strings.Contains(line, "==") || Strings.Contains(line, "egg=")
    ensures Strings.Contains(line, "==") ==> r == Some(Strings.BeforeFirst(line, "=="))
  {
    if Strings.Contains(line, "==") then Some(Strings.BeforeFirst(line, "=="))
    else if Strings.Contains(line, "egg=") then Some(Strings.AfterLast(line, "egg="))
    else None
  }

  /** `set(m.split('.')[0].lower() for m in sys.modules.keys())` */
  function ImportedNames(modules: seq<string>): (r: set<string>)
    ensures forall m :: m in modules ==> Strings.Lower(Strings.BeforeFirst(m, ".")) in r
    ensures forall x :: x in r ==> exists m :: m in modules && x == Strings.Lower(Strings.BeforeFirst(m, "."))
  {
    set m | m in modules :: Strings.Lower(Strings.BeforeFirst(m, "."))
  }

  /** Whether the freeze line is yielded: its package name, lowercased, or lowercased
      with `python-` removed, is an imported top-level module. */
  predicate KeepRequirement(line: string, imported: set<string>) {
    match RequirementName(line)
    case None => false
    case Some(pkg) =>
      Strings.Lower(pkg) in imported || Strings.Replace(Strings.Lower(pkg), "python-", "") in imported
  }

  /** The lines `iter_requirements` yields for the given freeze output. */
  function Requirements(freeze: string, modules: seq<string>): (r: seq<string>)
    ensures forall line :: line in r <==> line in Strings.Split(freeze, "\n") && KeepRequirement(line, ImportedNames(modules))
  {
    var imported := ImportedNames(modules);
    Seqs.Filter((line: string) => KeepRequirement(line, imported), Strings.Split(freeze, "\n"))
  }

  /** The yielded lines keep their order in the freeze output: filtering commutes with
      splitting the output in two. */
  lemma RequirementsOfConcatenation(a: string, b: string, modules: seq<string>)
    ensures Requirements(a + "\n" + b, modules) == Requirements(a, modules) + Requirements(b, modules)
  {
    Strings.SplitCharConcat(a, b, '\n');
    var imported := ImportedNames(modules);
    Seqs.FilterAppend((line: string) => KeepRequirement(line, imported), Strings.Split(a, "\n"), Strings.Split(b, "\n"));
  }
}
