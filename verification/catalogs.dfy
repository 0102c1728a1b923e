/** The caching Glottolog API: the cached languoid list, the lookup tables derived from it,
and the walk up a languoid's lineage to the language it belongs to.

A languoid is reduced to the fields these operations read. Its `lineage` holds the
Glottocodes of its ancestors from the top-level family down to its parent.
 */
module Catalogs {
  import opened Wrappers
  import Dicts

  datatype Level = Family | Language | Dialect

  datatype Languoid = Languoid(
    id: string,
    name: string,
    iso: Option<string>,
    level: Level,
    macroareas: seq<string>,
    lineage: seq<string>)

  /** The API object's state: the list `languoids()` keeps; empty (falsy) until filled. */
  datatype Api = Api(cached: seq<Languoid>)

  /** `languoids(**kw)`: `query` stands for the underlying `Glottolog.languoids`. Without
      keyword arguments the list is fetched once and kept; with them the call is passed on. */
  function Languoids(api: Api, kw: map<string, string>, query: map<string, string> -> seq<Languoid>)
    : (r: (seq<Languoid>, Api))
    ensures |kw| > 0 ==> r == (query(kw), api)
    ensures |kw| == 0 ==> r.1.cached == r.0
    ensures |api.cached| > 0 ==> r.1 == api
  {
    if |kw| == 0 then
      if |api.cached| == 0 then
        var ls := query(kw);
        (ls, Api(ls))
      else (api.cached, api)
    else (query(kw), api)
  }

  /** Once an unfiltered call has returned a non-empty list, every later unfiltered call
      returns that same list, whatever the underlying API would now answer. */
  lemma CachedListIsStable(api: Api, q1: map<string, string> -> seq<Languoid>,
                           q2: map<string, string> -> seq<Languoid>)
    requires |Languoids(api, map[], q1).0| > 0
    ensures Languoids(Languoids(api, map[], q1).1, map[], q2) == Languoids(api, map[], q1)
  {
  }

  /** `cached_languoids`: Glottocode to languoid. */
  function Cached(ls: seq<Languoid>): (r: Dicts.Dict<string, Languoid>)
    ensures Dicts.Valid(r)
  {
    Dicts.FromPairs(seq(|ls|, i requires 0 <= i < |ls| => (ls[i].id, ls[i])))
  }

  /** Every languoid of the list can be found under its Glottocode; a code not in the list
      is missing; and a found languoid is one of the list carrying that code. */
  lemma CachedLookup(ls: seq<Languoid>, code: string)
    ensures Dicts.HasKey(Cached(ls), code) <==> exists i :: 0 <= i < |ls| && ls[i].id == code
    ensures Dicts.HasKey(Cached(ls), code) ==>
      var l := Dicts.Get(Cached(ls), code).value; l.id == code && l in ls
  {
    var pairs := seq(|ls|, i requires 0 <= i < |ls| => (ls[i].id, ls[i]));
    if Dicts.HasKey(Cached(ls), code) {
      Dicts.FromPairsStored(pairs, code);
      var i :| 0 <= i < |pairs| && pairs[i] == (code, Dicts.Get(Cached(ls), code).value);
      assert ls[i].id == code;
    }
    if exists i :: 0 <= i < |ls| && ls[i].id == code {
      var i :| 0 <= i < |ls| && ls[i].id == code;
      Dicts.HasKeyAt(pairs, i);
    }
  }

  /** The row `languoid_details` keeps per Glottocode. */
  datatype Detail = Detail(iso: Option<string>, macroareas: seq<string>, name: string)

  function DetailOf(l: Languoid): Detail {
    Detail(l.iso, l.macroareas, l.name)
  }

  /** `languoid_details`: the same keys in the same order, each with its details. */
  function Details(c: Dicts.Dict<string, Languoid>): (r: Dicts.Dict<string, Detail>)
    ensures Dicts.Keys(r) == Dicts.Keys(c)
    ensures forall k :: Dicts.Get(r, k) == if Dicts.HasKey(c, k) then Some(DetailOf(Dicts.Get(c, k).value)) else None
  {
    if |c| == 0 then [] else [(c[0].0, DetailOf(c[0].1))] + Details(c[1..])
  }

  /** `glottocode_by_name`: the pairs (name, Glottocode) in key order; a later one wins. */
  function ByName(d: Dicts.Dict<string, Detail>): (r: Dicts.Dict<string, string>)
    ensures Dicts.Valid(r)
    ensures forall k :: Dicts.HasKey(r, k) <==> Dicts.HasKey(seq(|d|, i requires 0 <= i < |d| => (d[i].1.name, d[i].0)), k)
  {
    Dicts.FromPairs(seq(|d|, i requires 0 <= i < |d| => (d[i].1.name, d[i].0)))
  }

  /** The pairs (iso, Glottocode) for the rows with a truthy ISO code, in key order. */
  function IsoPairs(d: Dicts.Dict<string, Detail>): (r: seq<(string, string)>)
    ensures forall i :: 0 <= i < |r| ==> r[i].0 != ""
  {
    if |d| == 0 then []
    else (if Truthy(d[0].1.iso) then [(d[0].1.iso.value, d[0].0)] else []) + IsoPairs(d[1..])
  }

  /** `glottocode_by_iso`: languoids without an ISO code are left out. */
  function ByIso(d: Dicts.Dict<string, Detail>): (r: Dicts.Dict<string, string>)
    ensures Dicts.Valid(r)
    ensures forall k :: Dicts.HasKey(r, k) <==> Dicts.HasKey(IsoPairs(d), k)
  {
    Dicts.FromPairs(IsoPairs(d))
  }

  /** `macroareas_by_glottocode` */
  function MacroareasByGlottocode(d: Dicts.Dict<string, Detail>): (r: Dicts.Dict<string, seq<string>>)
    ensures forall k :: Dicts.Get(r, k) == if Dicts.HasKey(d, k) then Some(Dicts.Get(d, k).value.macroareas) else None
  {
    if |d| == 0 then [] else [(d[0].0, d[0].1.macroareas)] + MacroareasByGlottocode(d[1..])
  }

  /** A pair of `IsoPairs` comes from a row whose ISO code it carries, and every row with
      a truthy ISO code gives one. */
  lemma {:induction false} IsoPairsFrom(d: Dicts.Dict<string, Detail>, iso: string, lid: string)
    ensures (iso, lid) in IsoPairs(d) <==> exists j :: 0 <= j < |d| && d[j].0 == lid && d[j].1.iso == Some(iso) && iso != ""
  {
    if |d| > 0 {
      IsoPairsFrom(d[1..], iso, lid);
      var head := if Truthy(d[0].1.iso) then [(d[0].1.iso.value, d[0].0)] else [];
      assert IsoPairs(d) == head + IsoPairs(d[1..]);
      if exists j :: 0 <= j < |d| && d[j].0 == lid && d[j].1.iso == Some(iso) && iso != "" {
        var j :| 0 <= j < |d| && d[j].0 == lid && d[j].1.iso == Some(iso) && iso != "";
        if j > 0 {
          assert d[1..][j - 1] == d[j];
        }
      }
      if (iso, lid) in IsoPairs(d[1..]) {
        var j :| 0 <= j < |d[1..]| && d[1..][j].0 == lid && d[1..][j].1.iso == Some(iso) && iso != "";
        assert d[j + 1] == d[1..][j];
      }
    }
  }

  /** A key of a pair list is one of its pairs' first components. */
  lemma HasKeyIffPair(pairs: seq<(string, string)>, k: string)
    ensures Dicts.HasKey(pairs, k) <==> exists v :: (k, v) in pairs
  {
    if Dicts.HasKey(pairs, k) {
      Dicts.GetStored(pairs, k);
      var i :| 0 <= i < |pairs| && pairs[i].0 == k && pairs[i].1 == Dicts.Get(pairs, k).value;
      assert (k, pairs[i].1) in pairs;
    }
    if exists v :: (k, v) in pairs {
      var v :| (k, v) in pairs;
      var i :| 0 <= i < |pairs| && pairs[i] == (k, v);
      Dicts.HasKeyAt(pairs, i);
    }
  }

  /** `glottocode_by_iso` answers an ISO code with a languoid that has it, holds every truthy
      ISO code of the catalogue, and never holds the empty code. */
  lemma ByIsoSoundAndComplete(c: Dicts.Dict<string, Languoid>, iso: string)
    requires Dicts.Valid(c)
    ensures Dicts.HasKey(ByIso(Details(c)), iso) <==>
      exists lid :: Dicts.HasKey(c, lid) && Dicts.Get(c, lid).value.iso == Some(iso) && iso != ""
    ensures Dicts.HasKey(ByIso(Details(c)), iso) ==>
      var lid := Dicts.Get(ByIso(Details(c)), iso).value;
      Dicts.HasKey(c, lid) && Dicts.Get(c, lid).value.iso == Some(iso)
  {
    var d := Details(c);
    var pairs := IsoPairs(d);
    HasKeyIffPair(pairs, iso);
    if Dicts.HasKey(ByIso(d), iso) {
      Dicts.FromPairsStored(pairs, iso);
      var lid := Dicts.Get(ByIso(d), iso).value;
      var i :| 0 <= i < |pairs| && pairs[i] == (iso, lid);
      IsoPairsFrom(d, iso, lid);
      var j :| 0 <= j < |d| && d[j].0 == lid && d[j].1.iso == Some(iso) && iso != "";
      RowOfDetails(c, j);
    }
    if exists lid :: Dicts.HasKey(c, lid) && Dicts.Get(c, lid).value.iso == Some(iso) && iso != "" {
      var lid :| Dicts.HasKey(c, lid) && Dicts.Get(c, lid).value.iso == Some(iso) && iso != "";
      Dicts.GetStored(c, lid);
      var j :| 0 <= j < |c| && c[j].0 == lid && c[j].1 == Dicts.Get(c, lid).value;
      RowOfDetails(c, j);
      IsoPairsFrom(d, iso, lid);
    }
  }

  /** Row `j` of the details is the details of row `j` of a valid catalogue. */
  lemma RowOfDetails(c: Dicts.Dict<string, Languoid>, j: nat)
    requires Dicts.Valid(c) && j < |c|
    ensures j < |Details(c)| && Details(c)[j].0 == c[j].0
    ensures Dicts.HasKey(c, c[j].0) && Details(c)[j].1 == DetailOf(Dicts.Get(c, c[j].0).value)
  {
    var d := Details(c);
    assert |Dicts.Keys(d)| == |Dicts.Keys(c)|;
    Dicts.KeysAt(d, j);
    Dicts.KeysAt(c, j);
    Dicts.GetOfValid(c, j);
    Dicts.ValidIffNoDupKeys(c);
    Dicts.ValidIffNoDupKeys(d);
    Dicts.GetOfValid(d, j);
  }

  /** `glottocode_by_name` answers a name with a languoid of that name, and holds the name
      of every languoid. */
  lemma ByNameSoundAndComplete(c: Dicts.Dict<string, Languoid>, name: string)
    requires Dicts.Valid(c)
    ensures Dicts.HasKey(ByName(Details(c)), name) <==>
      exists lid :: Dicts.HasKey(c, lid) && Dicts.Get(c, lid).value.name == name
    ensures Dicts.HasKey(ByName(Details(c)), name) ==>
      var lid := Dicts.Get(ByName(Details(c)), name).value;
      Dicts.HasKey(c, lid) && Dicts.Get(c, lid).value.name == name
  {
    var d := Details(c);
    var pairs := seq(|d|, i requires 0 <= i < |d| => (d[i].1.name, d[i].0));
    if Dicts.HasKey(ByName(d), name) {
      Dicts.FromPairsStored(pairs, name);
      var lid := Dicts.Get(ByName(d), name).value;
      var i :| 0 <= i < |pairs| && pairs[i] == (name, lid);
      RowOfDetails(c, i);
    }
    if exists lid :: Dicts.HasKey(c, lid) && Dicts.Get(c, lid).value.name == name {
      var lid :| Dicts.HasKey(c, lid) && Dicts.Get(c, lid).value.name == name;
      Dicts.GetStored(c, lid);
      var j :| 0 <= j < |c| && c[j].0 == lid && c[j].1 == Dicts.Get(c, lid).value;
      RowOfDetails(c, j);
      assert pairs[j].0 == name;
      Dicts.HasKeyAt(pairs, j);
    }
  }

  /** What `get_language` is given: a Glottocode or a languoid object. */
  datatype LanguoidRef = Code(code: string) | Object(languoid: Languoid)

  /** The lineage code at `i` names a catalogued language-level languoid. */
  predicate LanguageAt(c: Dicts.Dict<string, Languoid>, lineage: seq<string>, i: int)
    requires 0 <= i < |lineage|
  {
    Dicts.HasKey(c, lineage[i]) && Dicts.Get(c, lineage[i]).value.level == Language
  }

  /** Every lineage code after `i` names a catalogued languoid below language level. */
  predicate PassedAfter(c: Dicts.Dict<string, Languoid>, lineage: seq<string>, i: int) {
    forall j :: i < j < |lineage| && 0 <= j ==> Dicts.HasKey(c, lineage[j]) && !LanguageAt(c, lineage, j)
  }

  /** The loop over `reversed(lineage)`: the first language-level ancestor from the end;
      a code missing from the catalogue raises `KeyError`; `None` when the loop runs out. */
  function Walk(c: Dicts.Dict<string, Languoid>, lineage: seq<string>): (r: Result<Option<Languoid>>)
    ensures r.Success? && r.value.Some? ==> r.value.value.level == Language
    ensures r.Failure? ==> r.error.KeyError? && r.error.key in lineage
  {
    if |lineage| == 0 then Success(None)
    else
      var gc := lineage[|lineage| - 1];
      match Dicts.Get(c, gc)
      case None => Failure(KeyError(gc))
      case Some(parent) =>
        if parent.level == Language then Success(Some(parent))
        else Walk(c, lineage[..|lineage| - 1])
  }

  /** The walk finds exactly the nearest catalogued language-level ancestor. */
  lemma {:induction false} WalkFindsNearest(c: Dicts.Dict<string, Languoid>, lineage: seq<string>, p: Languoid)
    ensures Walk(c, lineage) == Success(Some(p)) <==>
      exists i :: 0 <= i < |lineage| && LanguageAt(c, lineage, i) && PassedAfter(c, lineage, i)
        && Dicts.Get(c, lineage[i]) == Some(p)
  {
    if |lineage| > 0 {
      var n := |lineage| - 1;
      var init := lineage[..n];
      WalkFindsNearest(c, init, p);
      forall i | 0 <= i < n
        ensures LanguageAt(c, lineage, i) == LanguageAt(c, init, i)
        ensures PassedAfter(c, lineage, i) <==> PassedAfter(c, init, i) && Dicts.HasKey(c, lineage[n]) && !LanguageAt(c, lineage, n)
      {
        assert init[i] == lineage[i];
        forall j | i < j < n ensures init[j] == lineage[j] { }
      }
      if LanguageAt(c, lineage, n) {
        assert PassedAfter(c, lineage, n);
      }
    }
  }

  /** The walk ends with `None` exactly when every ancestor is catalogued and none is a language. */
  lemma {:induction false} WalkFindsNone(c: Dicts.Dict<string, Languoid>, lineage: seq<string>)
    ensures Walk(c, lineage) == Success(None) <==> PassedAfter(c, lineage, -1)
  {
    if |lineage| > 0 {
      var n := |lineage| - 1;
      var init := lineage[..n];
      WalkFindsNone(c, init);
      if PassedAfter(c, init, -1) && Dicts.HasKey(c, lineage[n]) && !LanguageAt(c, lineage, n) {
        forall j | 0 <= j < |lineage| ensures Dicts.HasKey(c, lineage[j]) && !LanguageAt(c, lineage, j) {
          if j < n { assert init[j] == lineage[j]; }
        }
      }
      if PassedAfter(c, lineage, -1) {
        forall j | 0 <= j < n ensures Dicts.HasKey(c, init[j]) && !LanguageAt(c, init, j) {
          assert init[j] == lineage[j];
        }
      }
    }
  }

  /** `get_language`: `None` for a family, the languoid itself for a language, otherwise the
      walk up its lineage; an unknown Glottocode raises `KeyError`. */
  function GetLanguage(c: Dicts.Dict<string, Languoid>, ref: LanguoidRef): (r: Result<Option<Languoid>>)
    ensures ref.Code? && !Dicts.HasKey(c, ref.code) ==> r == Failure(KeyError(ref.code))
    ensures ref.Object? && ref.languoid.level == Family ==> r == Success(None)
    ensures ref.Object? && ref.languoid.level == Language ==> r == Success(Some(ref.languoid))
    ensures r.Success? && r.value.Some? ==> r.value.value.level == Language
  {
    var l :- match ref
      case Code(code) => if Dicts.HasKey(c, code) then Success(Dicts.Get(c, code).value) else Failure(KeyError(code))
      case Object(l) => Success(l);
    if l.level == Family then Success(None)
    else if l.level == Language then Success(Some(l))
    else Walk(c, l.lineage)
  }

  /** A Glottocode argument is answered as its catalogued languoid would be. */
  lemma CodeResolvesThroughCache(c: Dicts.Dict<string, Languoid>, code: string)
    requires Dicts.HasKey(c, code)
    ensures GetLanguage(c, Code(code)) == GetLanguage(c, Object(Dicts.Get(c, code).value))
  {
  }

  /** For a dialect, `get_language` returns its nearest catalogued language-level ancestor,
      and `None` only when every ancestor is catalogued and none is a language. */
  lemma DialectLanguage(c: Dicts.Dict<string, Languoid>, l: Languoid)
    requires l.level == Dialect
    ensures forall p :: GetLanguage(c, Object(l)) == Success(Some(p)) <==>
      exists i :: 0 <= i < |l.lineage| && LanguageAt(c, l.lineage, i) && PassedAfter(c, l.lineage, i)
        && Dicts.Get(c, l.lineage[i]) == Some(p)
    ensures GetLanguage(c, Object(l)) == Success(None) <==> PassedAfter(c, l.lineage, -1)
  {
    forall p ensures GetLanguage(c, Object(l)) == Success(Some(p)) <==>
      exists i :: 0 <= i < |l.lineage| && LanguageAt(c, l.lineage, i) && PassedAfter(c, l.lineage, i)
        && Dicts.Get(c, l.lineage[i]) == Some(p)
    {
      WalkFindsNearest(c, l.lineage, p);
    }
    WalkFindsNone(c, l.lineage);
  }
}
