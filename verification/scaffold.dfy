/** Rendering a dataset skeleton from template directories.

A template directory is a list of entries: files with their text, and sub-directories,
which are copied as a whole. The output directory is modelled as a flat listing from the
name given to `outdir / name` to what is stored there.
 */
module Scaffold {
  import opened Wrappers
  import Strings
  import Seqs
  import Paths
  import Metadata

  datatype Entry = File(name: string, content: string) | Folder(name: string, entries: seq<Entry>)

  /** What a name in the output directory holds after rendering. */
  datatype Node = Text(content: string) | Tree(entries: seq<Entry>) | MetadataJson(md: Metadata.Metadata)

  type Listing = map<string, Node>

  /** A template: the names it adds to the context and its directories, in order. */
  datatype Template = Template(prefix: string, package: string, dirs: seq<seq<Entry>>)

  /** The built-in template over the package's `dataset_template` directory. */
  function DefaultTemplate(datasetTemplate: seq<Entry>): Template {
    Template("cldfbench", "cldfbench", [datasetTemplate])
  }

  /** `iter_scaffolds()`: the built-in template under the name `cldfbench`, then every
      plug-in whose loading succeeds, in entry-point order. */
  function Scaffolds(datasetTemplate: seq<Entry>, plugins: seq<(string, Result<Template>)>)
    : (r: seq<(string, Template)>)
    ensures |r| > 0 && r[0] == ("cldfbench", DefaultTemplate(datasetTemplate))
    ensures forall s :: s in r[1..] <==> exists i :: 0 <= i < |plugins| && plugins[i] == (s.0, Success(s.1))
  {
    [("cldfbench", DefaultTemplate(datasetTemplate))] + Loaded(plugins)
  }

  function Loaded(plugins: seq<(string, Result<Template>)>): (r: seq<(string, Template)>)
    ensures forall s :: s in r <==> exists i :: 0 <= i < |plugins| && plugins[i] == (s.0, Success(s.1))
  {
    if |plugins| == 0 then []
    else
      var rest := Loaded(plugins[1..]);
      assert forall i :: 0 < i < |plugins| ==> plugins[i] == plugins[1..][i - 1];
      if plugins[0].1.Success? then [(plugins[0].0, plugins[0].1.value)] + rest else rest
  }

  /** `attr.asdict(metadata)` updated with the template's `prefix` and `package`; each value
      as `str.format` prints it. */
  function Context(t: Template, md: Metadata.Metadata): (ctx: map<string, string>)
    ensures ctx.Keys == {"id", "title", "description", "license", "url", "citation", "prefix", "package"}
    ensures ctx["prefix"] == t.prefix && ctx["package"] == t.package
    ensures ctx["id"] == PyStr(md.id) && ctx["title"] == PyStr(md.title)
  {
    map[
      "id" := PyStr(md.id), "title" := PyStr(md.title), "description" := PyStr(md.description),
      "license" := PyStr(md.license), "url" := PyStr(md.url), "citation" := PyStr(md.citation),
      "prefix" := t.prefix, "package" := t.package]
  }

  /** The output directory: `outdir / id` unless `outdir` is already named after the id;
      a missing id cannot be joined to a path. */
  function OutDir(outdir: Paths.Path, id: Option<string>): (r: Result<Paths.Path>)
    ensures r.Success? <==> id.Some?
    ensures r.Failure? ==> r.error.TypeError?
    ensures r.Success? ==> r.value == outdir || r.value == Paths.Child(outdir, id.value)
  {
    match id
    case None => Failure(TypeError("unsupported operand type(s) for /: 'PosixPath' and 'NoneType'"))
    case Some(name) => if Paths.Name(outdir) != name then Success(Paths.Child(outdir, name)) else Success(outdir)
  }

  /** For an id that is a single path component, the output directory is named after it,
      and choosing again from there stays put. */
  lemma OutDirNamedAfterId(outdir: Paths.Path, id: string)
    requires Paths.IsPart(id)
    ensures Paths.Name(OutDir(outdir, Some(id)).value) == id
    ensures OutDir(OutDir(outdir, Some(id)).value, Some(id)) == OutDir(outdir, Some(id))
    ensures Paths.Name(outdir) != id ==> Paths.Parent(OutDir(outdir, Some(id)).value) == outdir
  {
    Paths.ChildOfPart(outdir, id);
    if Paths.Name(outdir) != id {
      var out := Paths.Child(outdir, id);
      assert out.parts[..|out.parts| - 1] == outdir.parts;
    }
  }

  /** Lift a successful result by prefixing its text. */
  function Prepend(p: string, r: Result<string>): Result<string> {
    if r.Success? then Success(p + r.value) else r
  }

  /** The first `}` at or after `i`, or `|s|`. */
  function CloseAt(s: string, i: nat): (j: nat)
    requires i <= |s|
    ensures i <= j <= |s|
    ensures forall k :: i <= k < j ==> s[k] != '}'
    ensures j < |s| ==> s[j] == '}'
    decreases |s| - i
  {
    if i == |s| || s[i] == '}' then i else CloseAt(s, i + 1)
  }

  predicate AllDigits(f: string) {
    forall k :: 0 <= k < |f| ==> '0' <= f[k] <= '9'
  }

  /** `s.format(**ctx)`: `{{` and `}}` stand for single braces, `{name}` for the context
      value; an unknown name raises `KeyError`, an empty or numeric field asks for a
      positional argument there is none of, and an unbalanced brace is a `ValueError`. */
  function Format(s: string, ctx: map<string, string>): (r: Result<string>)
    ensures r.Failure? ==> r.error.KeyError? || r.error.ValueError? || r.error.IndexError?
    ensures r.Success? && '{' !in s && '}' !in s ==> r.value == s
    decreases |s|
  {
    if |s| == 0 then Success("")
    else if s[0] == '{' then
      if |s| > 1 && s[1] == '{' then Prepend("{", Format(s[2..], ctx))
      else
        var j := CloseAt(s, 1);
        if j == |s| then Failure(ValueError("expected '}' before end of string"))
        else
          var field := s[1..j];
          if '{' in field then Failure(ValueError("unexpected '{' in field name"))
          else if AllDigits(field) then Failure(IndexError("Replacement index out of range for positional args tuple"))
          else if field in ctx then Prepend(ctx[field], Format(s[j + 1..], ctx))
          else Failure(KeyError(field))
    else if s[0] == '}' then
      if |s| > 1 && s[1] == '}' then Prepend("}", Format(s[2..], ctx))
      else Failure(ValueError("Single '}' encountered in format string"))
    else
      assert '{' !in s && '}' !in s ==> '{' !in s[1..] && '}' !in s[1..];
      Prepend([s[0]], Format(s[1..], ctx))
  }

  /** The number of lower-case letters from `i` on. */
  function LetterRun(s: string, i: nat): (n: nat)
    requires i <= |s|
    ensures i + n <= |s|
    ensures forall k :: i <= k < i + n ==> Strings.IsLowerLetter(s[k])
    ensures i + n < |s| ==> !Strings.IsLowerLetter(s[i + n])
    decreases |s| - i
  {
    if i < |s| && Strings.IsLowerLetter(s[i]) then 1 + LetterRun(s, i + 1) else 0
  }

  /** A `+name+` placeholder starts the string; its name is `s[1..1 + n]`. */
  predicate PlaceholderFirst(s: string, n: nat) {
    |s| > 0 && s[0] == '+' && n > 0 && 1 + n < |s| && s[1 + n] == '+'
  }

  /** `re.sub(r'\+([a-z]+)\+', '{name}', s)`: each placeholder becomes a format field. */
  function Placeholders(s: string): (r: string)
    decreases |s|
  {
    if |s| == 0 then ""
    else
      var n := LetterRun(s, 1);
      if PlaceholderFirst(s, n) then "{" + s[1..1 + n] + "}" + Placeholders(s[2 + n..])
      else [s[0]] + Placeholders(s[1..])
  }

  /** The reference reading of a template file name: every `+name+` replaced by the
      context value of `name`, left to right; a name missing from the context raises `KeyError`. */
  function Expand(s: string, ctx: map<string, string>): (r: Result<string>)
    ensures r.Failure? ==> r.error.KeyError?
    decreases |s|
  {
    if |s| == 0 then Success("")
    else
      var n := LetterRun(s, 1);
      if PlaceholderFirst(s, n) then
        var w := s[1..1 + n];
        if w in ctx then Prepend(ctx[w], Expand(s[2 + n..], ctx)) else Failure(KeyError(w))
      else Prepend([s[0]], Expand(s[1..], ctx))
  }

  /** A leading `+name+` is replaced by the context value of `name`. */
  lemma ExpandPlaceholder(w: string, rest: string, ctx: map<string, string>)
    requires |w| > 0 && forall k :: 0 <= k < |w| ==> Strings.IsLowerLetter(w[k])
    ensures Expand("+" + w + "+" + rest, ctx) ==
      if w in ctx then Prepend(ctx[w], Expand(rest, ctx)) else Failure(KeyError(w))
  {
    var s := "+" + w + "+" + rest;
    LetterRunOf(s, w);
    assert s[1..1 + |w|] == w;
    assert s[2 + |w|..] == rest;
  }

  lemma LetterRunOf(s: string, w: string)
    requires |w| > 0 && forall k :: 0 <= k < |w| ==> Strings.IsLowerLetter(w[k])
    requires |s| > |w| + 1 && s[1..1 + |w|] == w && s[1 + |w|] == '+'
    ensures LetterRun(s, 1) == |w|
  {
  }

  /** A name without placeholders expands to itself. */
  lemma {:induction false} ExpandNoPlus(s: string, ctx: map<string, string>)
    requires '+' !in s
    ensures Expand(s, ctx) == Success(s)
    decreases |s|
  {
    if |s| > 0 {
      assert '+' !in s[1..];
      ExpandNoPlus(s[1..], ctx);
      assert [s[0]] + s[1..] == s;
    }
  }

  /** The first `}` after a leading `{` and a run of letters closes the field. */
  lemma CloseAfterLetters(s: string, n: nat)
    requires 1 + n < |s| && s[1 + n] == '}'
    requires forall k :: 1 <= k < 1 + n ==> Strings.IsLowerLetter(s[k])
    ensures CloseAt(s, 1) == 1 + n
  {
  }

  /** Formatting a field made of letters looks it up in the context. */
  lemma FormatField(w: string, t: string, ctx: map<string, string>)
    requires |w| > 0 && forall k :: 0 <= k < |w| ==> Strings.IsLowerLetter(w[k])
    ensures Format("{" + w + "}" + t, ctx) ==
      if w in ctx then Prepend(ctx[w], Format(t, ctx)) else Failure(KeyError(w))
  {
    var s := "{" + w + "}" + t;
    assert s[1] == w[0];
    forall k | 1 <= k < 1 + |w| ensures Strings.IsLowerLetter(s[k]) {
      assert s[k] == w[k - 1];
    }
    CloseAfterLetters(s, |w|);
    assert s[1..1 + |w|] == w;
    assert '{' !in w by {
      forall k | 0 <= k < |w| ensures w[k] != '{' {
        assert Strings.IsLowerLetter(w[k]);
      }
    }
    assert !AllDigits(w) by {
      assert Strings.IsLowerLetter(w[0]);
    }
    assert s[|w| + 2..] == t;
  }

  /** For a name without braces, rewriting the placeholders into format fields and then
      formatting is exactly the reference expansion. */
  lemma {:induction false} PlaceholdersThenFormat(s: string, ctx: map<string, string>)
    requires '{' !in s && '}' !in s
    ensures Format(Placeholders(s), ctx) == Expand(s, ctx)
    decreases |s|
  {
    if |s| > 0 {
      var n := LetterRun(s, 1);
      if PlaceholderFirst(s, n) {
        var w := s[1..1 + n];
        var rest := s[2 + n..];
        assert '{' !in rest && '}' !in rest by {
          forall k | 0 <= k < |rest| ensures rest[k] != '{' && rest[k] != '}' {
            assert rest[k] == s[2 + n + k];
          }
        }
        PlaceholdersThenFormat(rest, ctx);
        FormatField(w, Placeholders(rest), ctx);
      } else {
        var t := Placeholders(s[1..]);
        assert '{' !in s[1..] && '}' !in s[1..];
        PlaceholdersThenFormat(s[1..], ctx);
        assert ([s[0]] + t)[1..] == t;
      }
    }
  }

  /** The output name of a template file: placeholders are filled only when the name has a `+`. */
  function Target(name: string, ctx: map<string, string>): Result<string> {
    if '+' in name then Format(Placeholders(name), ctx) else Success(name)
  }

  /** For a name without braces, the output name is the reference expansion. */
  lemma TargetIsExpansion(name: string, ctx: map<string, string>)
    requires '{' !in name && '}' !in name
    ensures Target(name, ctx) == Expand(name, ctx)
  {
    if '+' in name {
      PlaceholdersThenFormat(name, ctx);
    } else {
      ExpandNoPlus(name, ctx);
    }
  }

  /** What one template entry writes: `None` for a skipped `.pyc` file, otherwise the name
      and the new contents. A `_tmpl` file loses the suffix and has its text formatted;
      another file is copied; a directory replaces whatever had its name. */
  function Output(ctx: map<string, string>, e: Entry): (r: Result<Option<(string, Node)>>)
    ensures e.Folder? ==> r == Success(Some((e.name, Tree(e.entries))))
    ensures e.File? && Paths.Suffix(e.name) == ".pyc" ==> r == Success(None)
    ensures e.File? && Paths.Suffix(e.name) != ".pyc" ==>
      (r.Success? <==> (Target(e.name, ctx).Success?
                        && (Strings.EndsWith(Target(e.name, ctx).value, "_tmpl") ==> Format(e.content, ctx).Success?)))
    ensures r.Success? && r.value.Some? && e.File? ==>
      var (key, node) := r.value.value;
      var target := Target(e.name, ctx).value;
      node.Text?
      && ((key == target && node.content == e.content)
          || (key + "_tmpl" == target && Format(e.content, ctx) == Success(node.content)))
  {
    match e
    case Folder(name, entries) => Success(Some((name, Tree(entries))))
    case File(name, content) =>
      if Paths.Suffix(name) == ".pyc" then Success(None)
      else
        var target :- Target(name, ctx);
        if Strings.EndsWith(target, "_tmpl") then
          var text :- Format(content, ctx);
          var key := target[..|target| - 5];
          assert key + "_tmpl" == target;
          Success(Some((key, Text(text))))
        else Success(Some((target, Text(content))))
  }

  /** `x.pyc` is never rendered. */
  lemma CompiledFilesSkipped(ctx: map<string, string>, stem: string, content: string)
    requires stem != ""
    ensures Output(ctx, File(stem + ".pyc", content)) == Success(None)
  {
    assert stem + ".pyc" == stem + "." + "pyc";
    Paths.SuffixOfDotted(stem, "pyc");
  }

  /** A name without `+` and braces that ends in `_tmpl`: written without the suffix, with
      its text formatted; one that does not: copied verbatim under its own name. */
  lemma PlainNameOutput(ctx: map<string, string>, name: string, content: string)
    requires '+' !in name && Paths.Suffix(name) != ".pyc"
    ensures Strings.EndsWith(name, "_tmpl") && Format(content, ctx).Success? ==>
      Output(ctx, File(name, content)) == Success(Some((name[..|name| - 5], Text(Format(content, ctx).value))))
    ensures !Strings.EndsWith(name, "_tmpl") ==>
      Output(ctx, File(name, content)) == Success(Some((name, Text(content))))
  {
  }

  /** Store what one entry writes. */
  function Apply(out: Listing, w: Option<(string, Node)>): Listing {
    if w.None? then out else out[w.value.0 := w.value.1]
  }

  /** One pass of the loop: render `e` into `out`. */
  function Step(ctx: map<string, string>, out: Listing, e: Entry): (r: Result<Listing>)
    ensures r.Success? <==> Output(ctx, e).Success?
    ensures r.Success? ==> r.value == Apply(out, Output(ctx, e).value)
  {
    var w :- Output(ctx, e);
    Success(Apply(out, w))
  }

  /** The loop over one template directory's entries, in order. */
  function RenderDir(ctx: map<string, string>, out: Listing, entries: seq<Entry>): (r: Result<Listing>)
    decreases |entries|
  {
    if |entries| == 0 then Success(out)
    else
      var before :- RenderDir(ctx, out, entries[..|entries| - 1]);
      Step(ctx, before, entries[|entries| - 1])
  }

  /** The last entry is rendered into what the ones before it produced. */
  lemma RenderDirLast(ctx: map<string, string>, out: Listing, entries: seq<Entry>) returns (before: Result<Listing>)
    requires |entries| > 0
    ensures before == RenderDir(ctx, out, entries[..|entries| - 1])
    ensures RenderDir(ctx, out, entries) ==
      if before.Success? then Step(ctx, before.value, entries[|entries| - 1]) else Failure(before.error)
  {
    before := RenderDir(ctx, out, entries[..|entries| - 1]);
  }

  /** Rendering a directory fails exactly when some entry's name or text cannot be formatted. */
  lemma {:induction false} RenderDirSucceeds(ctx: map<string, string>, out: Listing, entries: seq<Entry>)
    ensures RenderDir(ctx, out, entries).Success? <==> forall i :: 0 <= i < |entries| ==> Output(ctx, entries[i]).Success?
    decreases |entries|
  {
    if |entries| > 0 {
      var n := |entries| - 1;
      var before := RenderDirLast(ctx, out, entries);
      RenderDirSucceeds(ctx, out, entries[..n]);
      AllRenderSnoc(ctx, entries);
    }
  }

  /** Every entry renders without an error. */
  predicate AllRender(ctx: map<string, string>, entries: seq<Entry>) {
    forall i :: 0 <= i < |entries| ==> Output(ctx, entries[i]).Success?
  }

  lemma AllRenderSnoc(ctx: map<string, string>, entries: seq<Entry>)
    requires |entries| > 0
    ensures AllRender(ctx, entries) <==>
      AllRender(ctx, entries[..|entries| - 1]) && Output(ctx, entries[|entries| - 1]).Success?
  {
    var ok := (e: Entry) => Output(ctx, e).Success?;
    Seqs.AllSnoc(ok, entries);
    assert AllRender(ctx, entries) <==> Seqs.All(ok, entries);
    assert AllRender(ctx, entries[..|entries| - 1]) <==> Seqs.All(ok, entries[..|entries| - 1]);
  }

  /** Entry `e` writes under `key`. */
  predicate Writes(ctx: map<string, string>, e: Entry, key: string) {
    var o := Output(ctx, e); o.Success? && o.value.Some? && o.value.value.0 == key
  }

  /** A name no entry writes keeps what the output directory held. */
  lemma {:induction false} RenderDirUntouched(ctx: map<string, string>, out: Listing, entries: seq<Entry>, key: string)
    requires RenderDir(ctx, out, entries).Success?
    requires forall i :: 0 <= i < |entries| ==> !Writes(ctx, entries[i], key)
    ensures var r := RenderDir(ctx, out, entries).value; (key in r <==> key in out) && (key in out ==> r[key] == out[key])
    decreases |entries|
  {
    if |entries| > 0 {
      var n := |entries| - 1;
      var before := RenderDirLast(ctx, out, entries);
      var prefix := entries[..n];
      forall i | 0 <= i < n ensures !Writes(ctx, prefix[i], key) {
        assert prefix[i] == entries[i];
      }
      RenderDirUntouched(ctx, out, prefix, key);
      StepKeeps(ctx, before.value, entries[n], key);
    }
  }

  /** An entry that does not write `key` leaves it as it was. */
  lemma StepKeeps(ctx: map<string, string>, out: Listing, e: Entry, key: string)
    requires Step(ctx, out, e).Success? && !Writes(ctx, e, key)
    ensures var r := Step(ctx, out, e).value; (key in r <==> key in out) && (key in out ==> r[key] == out[key])
  {
  }

  /** An entry that writes `key` leaves there what it wrote. */
  lemma StepWrites(ctx: map<string, string>, out: Listing, e: Entry, key: string)
    requires Writes(ctx, e, key)
    ensures Step(ctx, out, e).Success?
    ensures var r := Step(ctx, out, e).value; key in r && r[key] == Output(ctx, e).value.value.1
  {
  }

  /** A name ends up holding what the last entry writing it wrote: later entries overwrite. */
  lemma {:induction false} RenderDirLastWins(ctx: map<string, string>, out: Listing, entries: seq<Entry>, i: nat, key: string)
    requires RenderDir(ctx, out, entries).Success?
    requires i < |entries| && Writes(ctx, entries[i], key)
    requires forall j :: i < j < |entries| ==> !Writes(ctx, entries[j], key)
    ensures var r := RenderDir(ctx, out, entries).value; key in r && r[key] == Output(ctx, entries[i]).value.value.1
    decreases |entries|
  {
    var n := |entries| - 1;
    var before := RenderDirLast(ctx, out, entries);
    if i < n {
      var prefix := entries[..n];
      forall j | i < j < n ensures !Writes(ctx, prefix[j], key) {
        assert prefix[j] == entries[j];
      }
      assert prefix[i] == entries[i];
      RenderDirLastWins(ctx, out, prefix, i, key);
      StepKeeps(ctx, before.value, entries[n], key);
    } else {
      StepWrites(ctx, before.value, entries[n], key);
    }
  }

  /** Rendering a concatenation is rendering the first part, then the second on its result. */
  lemma {:induction false} RenderDirAppend(ctx: map<string, string>, out: Listing, a: seq<Entry>, b: seq<Entry>)
    ensures RenderDir(ctx, out, a + b) ==
      (var r := RenderDir(ctx, out, a); if r.Success? then RenderDir(ctx, r.value, b) else r)
    decreases |b|
  {
    if |b| == 0 {
      assert a + b == a;
    } else {
      var n := |b| - 1;
      var ab := a + b;
      assert ab[..|ab| - 1] == a + b[..n];
      assert ab[|ab| - 1] == b[n];
      RenderDirAppend(ctx, out, a, b[..n]);
      var pab := RenderDirLast(ctx, out, ab);
      var ra := RenderDir(ctx, out, a);
      if ra.Success? {
        var pb := RenderDirLast(ctx, ra.value, b);
      }
    }
  }

  /** The loop over the template's directories, in order. */
  function RenderDirs(ctx: map<string, string>, out: Listing, dirs: seq<seq<Entry>>): (r: Result<Listing>)
    decreases |dirs|
  {
    if |dirs| == 0 then Success(out)
    else
      var before :- RenderDirs(ctx, out, dirs[..|dirs| - 1]);
      RenderDir(ctx, before, dirs[|dirs| - 1])
  }

  /** Rendering the directories one after another is rendering all their entries as one list,
      so a later directory's entry overwrites an earlier one with the same name. */
  lemma {:induction false} RenderDirsFlat(ctx: map<string, string>, out: Listing, dirs: seq<seq<Entry>>)
    ensures RenderDirs(ctx, out, dirs) == RenderDir(ctx, out, Seqs.Flatten(dirs))
    decreases |dirs|
  {
    if |dirs| > 0 {
      var n := |dirs| - 1;
      RenderDirsFlat(ctx, out, dirs[..n]);
      assert dirs == dirs[..n] + [dirs[n]];
      Seqs.FlattenAppend(dirs[..n], [dirs[n]]);
      assert Seqs.Flatten([dirs[n]]) == dirs[n] + [];
      assert Seqs.Flatten(dirs) == Seqs.Flatten(dirs[..n]) + dirs[n];
      RenderDirAppend(ctx, out, Seqs.Flatten(dirs[..n]), dirs[n]);
    }
  }

  /** A name the second directory writes holds the second directory's contents, whatever the
      first one wrote there. */
  lemma LaterDirWins(ctx: map<string, string>, out: Listing, first: seq<Entry>, second: seq<Entry>, i: nat, key: string)
    requires RenderDirs(ctx, out, [first, second]).Success?
    requires i < |second| && Writes(ctx, second[i], key)
    requires forall j :: i < j < |second| ==> !Writes(ctx, second[j], key)
    ensures var r := RenderDirs(ctx, out, [first, second]).value; key in r && r[key] == Output(ctx, second[i]).value.value.1
  {
    RenderDirsFlat(ctx, out, [first, second]);
    var all := FlattenTwo(first, second);
    forall j | |first| + i < j < |all| ensures !Writes(ctx, all[j], key) {
      assert all[j] == second[j - |first|];
    }
    assert all[|first| + i] == second[i];
    RenderDirLastWins(ctx, out, all, |first| + i, key);
  }

  /** The entries of two directories, in order. */
  lemma FlattenTwo(first: seq<Entry>, second: seq<Entry>) returns (all: seq<Entry>)
    ensures all == Seqs.Flatten([first, second]) && all == first + second
  {
    all := Seqs.Flatten([first, second]);
    assert Seqs.Flatten([second]) == second + [];
    assert [first, second][1..] == [second];
  }

  /** `Template.render`: `existing` is what the chosen output directory holds beforehand.
      The result is the output directory and its listing, with `metadata.json` written last. */
  function Render(t: Template, outdir: Paths.Path, md: Metadata.Metadata, existing: Listing)
    : (r: Result<(Paths.Path, Listing)>)
    ensures md.id.None? ==> r.Failure? && r.error.TypeError?
    ensures r.Success? <==> md.id.Some? && RenderDirs(Context(t, md), existing, t.dirs).Success?
    ensures r.Success? ==> r.value.0 == OutDir(outdir, md.id).value
    ensures r.Success? ==> "metadata.json" in r.value.1 && r.value.1["metadata.json"] == MetadataJson(md)
    ensures r.Success? ==> forall k :: k != "metadata.json" ==>
      var out := RenderDirs(Context(t, md), existing, t.dirs).value;
      (k in r.value.1 <==> k in out) && (k in out ==> r.value.1[k] == out[k])
  {
    var dir :- OutDir(outdir, md.id);
    var out :- RenderDirs(Context(t, md), existing, t.dirs);
    Success((dir, out["metadata.json" := MetadataJson(md)]))
  }

  /** Rendering again over a previous result replaces every sub-directory the last template
      directory has with the template's copy: whatever was added to it in between is gone. */
  lemma RerenderReplacesFolders(t: Template, outdir: Paths.Path, md: Metadata.Metadata, existing: Listing,
                                i: nat, key: string)
    requires |t.dirs| > 0
    requires var last := t.dirs[|t.dirs| - 1];
      i < |last| && last[i].Folder? && last[i].name == key && key != "metadata.json"
      && forall j :: i < j < |last| ==> !Writes(Context(t, md), last[j], key)
    requires Render(t, outdir, md, existing).Success?
    ensures var r := Render(t, outdir, md, existing).value.1;
      key in r && r[key] == Tree(t.dirs[|t.dirs| - 1][i].entries)
  {
    var ctx := Context(t, md);
    var n := |t.dirs| - 1;
    var before := RenderDirs(ctx, existing, t.dirs[..n]);
    assert before.Success? && RenderDirs(ctx, existing, t.dirs) == RenderDir(ctx, before.value, t.dirs[n]);
    RenderDirLastWins(ctx, before.value, t.dirs[n], i, key);
  }
}
