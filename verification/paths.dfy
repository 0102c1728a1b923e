/** `pathlib`-style paths as values: an anchor flag and a sequence of components.

Parsing splits on `/` and drops empty and `.` components, as `pathlib.PurePosixPath`
does; `..` is kept verbatim.
 */
module Paths {
  import opened Wrappers
  import Strings
  import Seqs

  datatype Path = Path(absolute: bool, parts: seq<string>)

  /** A component `pathlib` keeps after parsing. */
  predicate IsPart(s: string) {
    s != "" && s != "." && '/' !in s
  }

  predicate WellFormed(p: Path) {
    forall i :: 0 <= i < |p.parts| ==> IsPart(p.parts[i])
  }

  /** `pathlib.Path(s)` */
  function Parse(s: string): (p: Path)
    ensures WellFormed(p)
    ensures p.absolute <==> |s| > 0 && s[0] == '/'
  {
    var ps := Seqs.Filter(IsPart, Strings.Split(s, "/"));
    assert forall i :: 0 <= i < |ps| ==> IsPart(ps[i]) by {
      forall i | 0 <= i < |ps| ensures IsPart(ps[i]) {
        assert ps[i] in ps;
      }
    }
    Path(|s| > 0 && s[0] == '/', ps)
  }

  /** `str(p)`: the empty relative path prints as `.`. */
  function Render(p: Path): string {
    if !p.absolute && |p.parts| == 0 then "."
    else (if p.absolute then "/" else "") + Strings.Join(p.parts, "/")
  }

  lemma {:induction false} FilterKeepsParts(parts: seq<string>)
    requires forall i :: 0 <= i < |parts| ==> IsPart(parts[i])
    ensures Seqs.Filter(IsPart, parts) == parts
  {
    if |parts| > 0 {
      FilterKeepsParts(parts[1..]);
      assert parts == [parts[0]] + parts[1..];
    }
  }

  /** Parsing the printed form of a well-formed path gives the path back. */
  lemma ParseRender(p: Path)
    requires WellFormed(p)
    ensures Parse(Render(p)) == p
  {
    var s := Render(p);
    if |p.parts| == 0 {
      if p.absolute {
        assert s == "/" + "";
        Strings.SplitJoinChar(["", ""], '/');
        assert Strings.Join(["", ""], "/") == "/";
        assert Seqs.Filter(IsPart, ["", ""]) == [];
      } else {
        Strings.ContainsCharIff(".", '/');
        assert Seqs.Filter(IsPart, ["."]) == [];
      }
    } else {
      FilterKeepsParts(p.parts);
      if p.absolute {
        var parts := [""] + p.parts;
        assert parts[1..] == p.parts;
        assert Strings.Join(parts, "/") == "" + "/" + Strings.Join(p.parts, "/");
        assert s == Strings.Join(parts, "/");
        Strings.SplitJoinChar(parts, '/');
        assert Seqs.Filter(IsPart, parts) == Seqs.Filter(IsPart, p.parts);
      } else {
        Strings.SplitJoinChar(p.parts, '/');
        assert s[0] == p.parts[0][0] by {
          assert s == Strings.Join(p.parts, "/");
          Strings.JoinStartsWithFirst(p.parts, "/");
        }
      }
    }
  }

  /** `p / q`: an absolute right operand replaces the left one. */
  function Div(p: Path, q: Path): (r: Path)
    ensures WellFormed(p) && WellFormed(q) ==> WellFormed(r)
    ensures q.absolute ==> r == q
    ensures !q.absolute ==> r.absolute == p.absolute && |r.parts| == |p.parts| + |q.parts|
    ensures !q.absolute ==> r.parts[..|p.parts|] == p.parts && r.parts[|p.parts|..] == q.parts
  {
    if q.absolute then q else Path(p.absolute, p.parts + q.parts)
  }

  /** `p / name` for a string operand. */
  function Child(p: Path, name: string): Path {
    Div(p, Parse(name))
  }

  /** A proper component parses to a relative path of that one component. */
  lemma ParsePart(name: string)
    requires IsPart(name)
    ensures Parse(name) == Path(false, [name])
  {
    Strings.ContainsCharIff(name, '/');
    assert Seqs.Filter(IsPart, [name]) == [name];
  }

  /** A single proper component appended by `/` is the new name, and the old path is the parent. */
  lemma ChildOfPart(p: Path, name: string)
    requires IsPart(name)
    ensures Child(p, name) == Path(p.absolute, p.parts + [name])
  {
    Strings.ContainsCharIff(name, '/');
    assert Seqs.Filter(IsPart, [name]) == [name];
  }

  /** `p.name`: the last component, or `''`. */
  function Name(p: Path): (r: string)
    ensures WellFormed(p) && |p.parts| > 0 ==> IsPart(r)
    ensures |p.parts| == 0 ==> r == ""
  {
    if |p.parts| == 0 then "" else p.parts[|p.parts| - 1]
  }

  /** The index of the last `c` in `s`, or -1. */
  function LastIndexOf(s: string, c: char): (i: int)
    ensures -1 <= i < |s|
    ensures i >= 0 ==> s[i] == c
    ensures forall j :: i < j < |s| ==> s[j] != c
  {
    if |s| == 0 then -1
    else if s[|s| - 1] == c then |s| - 1
    else LastIndexOf(s[..|s| - 1], c)
  }

  /** `PurePath(name).suffix`: from the last `.` on, unless that dot starts or ends the name. */
  function Suffix(name: string): (r: string)
    ensures r != "" ==> |r| < |name| && name[|name| - |r|..] == r && r[0] == '.' && '.' !in r[1..]
  {
    var i := LastIndexOf(name, '.');
    if 0 < i < |name| - 1 then name[i..] else ""
  }

  /** A non-empty stem, a dot and a non-empty dot-free extension: the suffix is the dot and
      the extension. */
  lemma SuffixOfDotted(stem: string, ext: string)
    requires stem != "" && ext != "" && '.' !in ext
    ensures Suffix(stem + "." + ext) == "." + ext
  {
    var name := stem + "." + ext;
    var i := LastIndexOf(name, '.');
    assert name[|stem|] == '.';
    forall j | |stem| < j < |name| ensures name[j] != '.' {
      assert name[j] == ext[j - |stem| - 1];
    }
    assert i == |stem|;
    assert name[i..] == "." + ext;
  }

  /** `p.parent`: drops the last component; the root and `.` are their own parents. */
  function Parent(p: Path): (r: Path)
    ensures |p.parts| > 0 ==> Div(r, Path(false, [Name(p)])) == p
    ensures |p.parts| == 0 ==> r == p
  {
    if |p.parts| == 0 then p
    else
      var r := Path(p.absolute, p.parts[..|p.parts| - 1]);
      assert r.parts + [Name(p)] == p.parts;
      r
  }

  /** `p.relative_to(base)`: the components after `base`, or a `ValueError` when
      `base` is not a leading part of `p`. */
  function RelativeTo(p: Path, base: Path): (r: Result<Path>)
    ensures r.Success? <==> p.absolute == base.absolute && Seqs.IsPrefix(base.parts, p.parts)
    ensures r.Success? ==> !r.value.absolute && Div(base, r.value) == p
    ensures r.Failure? ==> r.error.ValueError?
  {
    if p.absolute == base.absolute && Seqs.IsPrefix(base.parts, p.parts) then
      var r := Path(false, p.parts[|base.parts|..]);
      assert base.parts + r.parts == p.parts;
      Success(r)
    else Failure(ValueError(Render(p) + " is not in the subpath of " + Render(base)))
  }
}
