/** The `zenodo` command: merging a dataset's metadata into its `.zenodo.json` record.

The existing record (if the file exists), the table read from `CONTRIBUTORS.md` (if
any) and the license catalogue are parameters; the merged record is the result. An
exception leaves the file as it was, so an error is the whole result.
 */
module ZenodoCommand {
  import opened Wrappers
  import Strings
  import Dicts
  import Sorting
  import Json
  import Metadata
  import Cldf
  import Dataset

  /** The keys of a contributor record that Zenodo accepts. */
  const ContribKeys: set<string> := {"name", "affiliation", "orcid", "type"}

  /** `contrib(d)`: the accepted keys of a contributor record; an empty ORCID is dropped. */
  function Contrib(d: Metadata.Record): (r: map<string, string>)
    ensures forall k :: k in r <==> k in d && k in ContribKeys && (d[k] != "" || k != "orcid")
    ensures forall k :: k in r ==> r[k] == d[k]
  {
    map k | k in d && k in ContribKeys && (d[k] != "" || k != "orcid") :: d[k]
  }

  /** Filtering an already filtered record changes nothing. */
  lemma ContribIdempotent(d: Metadata.Record)
    ensures Contrib(Contrib(d)) == Contrib(d)
  {
  }

  /** A contributor record as a JSON object. */
  function ContribValue(d: Metadata.Record): (r: Json.Value)
    ensures r.Object? && r.members.Keys == Contrib(d).Keys
    ensures forall k :: k in r.members ==> r.members[k] == Json.Str(d[k])
  {
    var c := Contrib(d);
    Json.Object(map k | k in c :: Json.Str(c[k]))
  }

  /** `[contrib(p) for p in people]` */
  function ContribList(people: seq<Metadata.Record>): (r: Json.Value)
    ensures r.Array? && |r.items| == |people|
    ensures forall i :: 0 <= i < |people| ==> r.items[i] == ContribValue(people[i])
  {
    Json.Array(seq(|people|, i requires 0 <= i < |people| => ContribValue(people[i])))
  }

  /** `[r["identifier"] for r in md.get("communities", [])]`: each entry must be a dict
      with a string identifier. Iterating a non-empty string or dict yields strings,
      which cannot be indexed by a string. */
  function IdentifiersOf(items: seq<Json.Value>): (r: Result<seq<string>>)
    ensures r.Success? <==> forall i :: 0 <= i < |items| ==>
              (Json.Subscript(items[i], "identifier").Success? && Json.Subscript(items[i], "identifier").value.Str?)
    ensures r.Success? ==> |r.value| == |items|
    ensures r.Success? ==> forall i :: 0 <= i < |items| ==> Json.Str(r.value[i]) == items[i].members["identifier"]
  {
    if |items| == 0 then Success([])
    else
      assert forall i :: 1 <= i < |items| ==> items[i] == items[1..][i - 1];
      var id :- Json.Subscript(items[0], "identifier");
      if !id.Str? then Failure(TypeError("'<' not supported between instances of '" + Json.TypeName(id) + "' and 'str'"))
      else
        var rest :- IdentifiersOf(items[1..]);
        Success([id.s] + rest)
  }

  /** The existing identifiers, from `md.get("communities")`. */
  function ExistingCommunities(found: Option<Json.Value>): (r: Result<seq<string>>)
    ensures found.None? ==> r == Success([])
    ensures found.Some? && found.value.Array? ==> r == IdentifiersOf(found.value.items)
  {
    var v := if found.Some? then found.value else Json.Array([]);
    match v
    case Array(items) => IdentifiersOf(items)
    case Str(s) => if s == "" then Success([]) else Failure(TypeError("string indices must be integers"))
    case Object(m) => if m == map[] then Success([]) else Failure(TypeError("string indices must be integers"))
    case _ => Failure(TypeError("'" + Json.TypeName(v) + "' object is not iterable"))
  }

  /** The community named by an `{"identifier": c}` entry, or `""` for any other value. */
  function Identifier(v: Json.Value): string {
    if v.Object? && "identifier" in v.members && v.members["identifier"].Str? then v.members["identifier"].s else ""
  }

  /** `[{"identifier": c} for c in sorted(set(communities))]` */
  function CommunityList(communities: seq<string>): (r: Json.Value)
    ensures r.Array?
    ensures forall i :: 0 <= i < |r.items| ==> exists c :: c in communities && r.items[i] == Json.Object(map["identifier" := Json.Str(c)])
    ensures forall c :: c in communities ==> Json.Object(map["identifier" := Json.Str(c)]) in r.items
    ensures forall i, j :: 0 <= i < j < |r.items| ==> Sorting.Less(Identifier(r.items[i]), Identifier(r.items[j]))
  {
    var sorted := Sorting.SortedSet(communities);
    var r := Json.Array(seq(|sorted|, i requires 0 <= i < |sorted| => Json.Object(map["identifier" := Json.Str(sorted[i])])));
    assert forall c :: c in communities ==> Json.Object(map["identifier" := Json.Str(c)]) in r.items by {
      forall c | c in communities ensures Json.Object(map["identifier" := Json.Str(c)]) in r.items {
        var i :| 0 <= i < |sorted| && sorted[i] == c;
        assert r.items[i] == Json.Object(map["identifier" := Json.Str(c)]);
      }
    }
    assert forall i :: 0 <= i < |r.items| ==> sorted[i] in communities;
    r
  }

  /** `md.get("keywords", [])` as the left operand of `+ [...]`: it must be a list, and
      `sorted` then needs all keywords to be strings like `linguistics`. */
  function ExistingKeywords(found: Option<Json.Value>): (r: Result<seq<string>>)
    ensures found.None? ==> r == Success([])
    ensures found.Some? ==>
              (r.Success? <==> found.value.Array? && forall i :: 0 <= i < |found.value.items| ==> found.value.items[i].Str?)
    ensures r.Success? && found.Some? ==> Json.Strs(r.value) == found.value
  {
    var v := if found.Some? then found.value else Json.Array([]);
    if !v.Array? then Failure(TypeError("can only concatenate " + Json.TypeName(v) + " to list"))
    else if exists i :: 0 <= i < |v.items| && !v.items[i].Str? then
      Failure(TypeError("'<' not supported between instances of str and a non-string keyword"))
    else
      var kws := seq(|v.items|, i requires 0 <= i < |v.items| => v.items[i].s);
      assert Json.Strs(kws).items == v.items;
      Success(kws)
  }

  /** The keywords written: the existing ones, `linguistics` and `cldf:<module>` for
      each spec, as a sorted set. */
  function Keywords(existing: seq<string>, specs: seq<Cldf.Spec>): (r: seq<string>)
    ensures Sorting.StrictlySorted(r)
    ensures forall k :: k in r <==> k in existing || k == "linguistics" || exists i :: 0 <= i < |specs| && k == "cldf:" + specs[i].cldfModule
  {
    var modules := seq(|specs|, i requires 0 <= i < |specs| => "cldf:" + specs[i].cldfModule);
    var all := existing + ["linguistics"] + modules;
    forall k ensures k in all <==> k in existing || k == "linguistics" || exists i :: 0 <= i < |specs| && k == "cldf:" + specs[i].cldfModule {
      if exists i :: 0 <= i < |specs| && k == "cldf:" + specs[i].cldfModule {
        var i :| 0 <= i < |specs| && k == "cldf:" + specs[i].cldfModule;
        assert modules[i] == k;
      }
    }
    Sorting.SortedSet(all)
  }

  const DescriptionHead := "<p>Cite the source of the dataset as:</p>\n\n<blockquote>\n<p>"
  const DescriptionTail := "</p>\n</blockquote>"

  /** `html.escape(c)` of one character. */
  function EscapeChar(c: char): (r: string)
    ensures |r| > 0 && (r[0] == '&' <==> c in {'&', '<', '>', '"', '\''})
    ensures c !in {'&', '<', '>', '"', '\''} ==> r == [c]
  {
    match c
    case '&' => "&amp;"
    case '<' => "&lt;"
    case '>' => "&gt;"
    case '"' => "&quot;"
    case '\'' => "&#x27;"
    case _ => [c]
  }

  /** `html.escape(s)`: markup characters and quotes become character references. */
  function HtmlEscape(s: string): (r: string)
    ensures forall i :: 0 <= i < |r| ==> r[i] !in {'<', '>', '"', '\''}
    ensures |r| >= |s|
  {
    if |s| == 0 then ""
    else
      var head := EscapeChar(s[0]);
      var rest := HtmlEscape(s[1..]);
      assert forall i :: 0 <= i < |head| ==> head[i] !in {'<', '>', '"', '\''};
      head + rest
  }

  /** `html.unescape` for the references `html.escape` produces. */
  function HtmlUnescape(s: string): string
    decreases |s|
  {
    if |s| == 0 then ""
    else if s[0] != '&' then [s[0]] + HtmlUnescape(s[1..])
    else if Strings.StartsWith(s, "&amp;") then "&" + HtmlUnescape(s[5..])
    else if Strings.StartsWith(s, "&lt;") then "<" + HtmlUnescape(s[4..])
    else if Strings.StartsWith(s, "&gt;") then ">" + HtmlUnescape(s[4..])
    else if Strings.StartsWith(s, "&quot;") then "\"" + HtmlUnescape(s[6..])
    else if Strings.StartsWith(s, "&#x27;") then "'" + HtmlUnescape(s[6..])
    else [s[0]] + HtmlUnescape(s[1..])
  }

  lemma UnescapeAfterEscapeChar(c: char, t: string)
    ensures HtmlUnescape(EscapeChar(c) + t) == [c] + HtmlUnescape(t)
  {
    var s := EscapeChar(c) + t;
    var e := EscapeChar(c);
    assert s[..|e|] == e;
    assert s[|e|..] == t;
    if c == '&' {
      assert Strings.StartsWith(s, "&amp;");
    } else if c == '<' {
      assert s[1] == 'l';
      assert Strings.StartsWith(s, "&lt;");
    } else if c == '>' {
      assert s[1] == 'g';
      assert Strings.StartsWith(s, "&gt;");
    } else if c == '"' {
      assert s[1] == 'q';
      assert Strings.StartsWith(s, "&quot;");
    } else if c == '\'' {
      assert s[1] == '#' && s[2] == 'x';
      assert Strings.StartsWith(s, "&#x27;");
    } else {
      assert s[0] == c && s[1..] == t;
    }
  }

  /** The escaped citation reads back as the citation. */
  lemma {:induction false} HtmlEscapeRoundTrip(s: string)
    ensures HtmlUnescape(HtmlEscape(s)) == s
  {
    if |s| > 0 {
      HtmlEscapeRoundTrip(s[1..]);
      UnescapeAfterEscapeChar(s[0], HtmlEscape(s[1..]));
      assert s == [s[0]] + s[1..];
    }
  }

  /** The `description` written for a citation. */
  function Description(citation: string): (r: string)
    ensures |r| == |DescriptionHead| + |HtmlEscape(citation)| + |DescriptionTail|
    ensures Strings.StartsWith(r, DescriptionHead) && Strings.EndsWith(r, DescriptionTail)
    ensures HtmlUnescape(r[|DescriptionHead|..|r| - |DescriptionTail|]) == citation
  {
    var e := HtmlEscape(citation);
    var r := DescriptionHead + e + DescriptionTail;
    assert r[..|DescriptionHead|] == DescriptionHead;
    assert r[|r| - |DescriptionTail|..] == DescriptionTail;
    assert r[|DescriptionHead|..|r| - |DescriptionTail|] == e;
    HtmlEscapeRoundTrip(citation);
    r
  }

  /** A Python optional string as JSON. */
  function OptStr(o: Option<string>): (r: Json.Value)
    ensures o.None? ==> r == Json.Null
    ensures o.Some? ==> r == Json.Str(o.value)
  {
    if o.Some? then Json.Str(o.value) else Json.Null
  }

  /** `md[k] = v` when `cond` holds. */
  function SetIf(md: Json.Document, cond: bool, k: string, v: Json.Value): (r: Json.Document)
    ensures cond ==> Dicts.Get(r, k) == Some(v)
    ensures forall k' :: (k' != k || !cond) ==> Dicts.Get(r, k') == Dicts.Get(md, k')
    ensures Dicts.Valid(md) ==> Dicts.Valid(r)
  {
    if cond then Dicts.Set(md, k, v) else md
  }

  /** The creators and the contributors, each written only when there are any. */
  function WithPeople(md: Json.Document, people: Metadata.People): (r: Json.Document)
    ensures Dicts.Get(r, "creators") ==
              if |people.creators| > 0 then Some(ContribList(people.creators)) else Dicts.Get(md, "creators")
    ensures Dicts.Get(r, "contributors") ==
              if |people.contributors| > 0 then Some(ContribList(people.contributors)) else Dicts.Get(md, "contributors")
    ensures forall k :: k != "creators" && k != "contributors" ==> Dicts.Get(r, k) == Dicts.Get(md, k)
    ensures Dicts.Valid(md) ==> Dicts.Valid(r)
  {
    var md1 := SetIf(md, |people.creators| > 0, "creators", ContribList(people.creators));
    SetIf(md1, |people.contributors| > 0, "contributors", ContribList(people.contributors))
  }

  /** The existing communities and those of the option, written when there are any. */
  function WithCommunities(md: Json.Document, option: string): (r: Result<Json.Document>)
    ensures r.Success? <==> ExistingCommunities(Dicts.Get(md, "communities")).Success?
    ensures r.Success? ==>
              var all := ExistingCommunities(Dicts.Get(md, "communities")).value + Strings.CommaList(option);
              Dicts.Get(r.value, "communities") ==
                if |all| > 0 then Some(CommunityList(all)) else Dicts.Get(md, "communities")
    ensures r.Success? ==> forall k :: k != "communities" ==> Dicts.Get(r.value, k) == Dicts.Get(md, k)
    ensures r.Success? && Dicts.Valid(md) ==> Dicts.Valid(r.value)
  {
    var existing :- ExistingCommunities(Dicts.Get(md, "communities"));
    var all := existing + Strings.CommaList(option);
    Success(SetIf(md, |all| > 0, "communities", CommunityList(all)))
  }

  /** `md.update({...})` with the four keys that are always overwritten. */
  function Overwrite(md: Json.Document, title: Option<string>, keywords: Json.Value): (r: Json.Document)
    ensures Dicts.Get(r, "title") == Some(OptStr(title))
    ensures Dicts.Get(r, "access_right") == Some(Json.Str("open"))
    ensures Dicts.Get(r, "keywords") == Some(keywords)
    ensures Dicts.Get(r, "upload_type") == Some(Json.Str("dataset"))
    ensures forall k :: k != "title" && k != "access_right" && k != "keywords" && k != "upload_type" ==>
              Dicts.Get(r, k) == Dicts.Get(md, k)
    ensures Dicts.Valid(md) ==> Dicts.Valid(r)
  {
    var md1 := Dicts.Set(md, "title", OptStr(title));
    var md2 := Dicts.Set(md1, "access_right", Json.Str("open"));
    var md3 := Dicts.Set(md2, "keywords", keywords);
    Dicts.Set(md3, "upload_type", Json.Str("dataset"))
  }

  /** The overwrite with the merged keywords; existing keywords that are not a list of
      strings raise. */
  function WithOverwrites(md: Json.Document, title: Option<string>, specs: seq<Cldf.Spec>): (r: Result<Json.Document>)
    ensures r.Success? <==> ExistingKeywords(Dicts.Get(md, "keywords")).Success?
    ensures r.Success? ==>
              r.value == Overwrite(md, title, Json.Strs(Keywords(ExistingKeywords(Dicts.Get(md, "keywords")).value, specs)))
  {
    var kws :- ExistingKeywords(Dicts.Get(md, "keywords"));
    Success(Overwrite(md, title, Json.Strs(Keywords(kws, specs))))
  }

  /** The `description`, for a truthy citation, and the `license`, for a license Zenodo
      knows. */
  function WithCitationAndLicense(md: Json.Document, citation: Option<string>, license: Option<string>): (r: Json.Document)
    ensures Dicts.Get(r, "description") ==
              if Truthy(citation) then Some(Json.Str(Description(citation.value))) else Dicts.Get(md, "description")
    ensures Dicts.Get(r, "license") ==
              if license.Some? then Some(Json.Object(map["id" := Json.Str(license.value)])) else Dicts.Get(md, "license")
    ensures forall k :: k != "description" && k != "license" ==> Dicts.Get(r, k) == Dicts.Get(md, k)
    ensures Dicts.Valid(md) ==> Dicts.Valid(r)
  {
    var md1 := SetIf(md, Truthy(citation), "description", Json.Str(Description(citation.GetOr(""))));
    SetIf(md1, license.Some?, "license", Json.Object(map["id" := Json.Str(license.GetOr(""))]))
  }

  /** The keys `run` may write. */
  const Written: set<string> := {
    "creators", "contributors", "communities", "title", "access_right", "keywords",
    "upload_type", "description", "license"
  }

  /** The keys written before the citation and the license: people, communities, and
      the fixed fields. */
  const Prepared: set<string> := {
    "creators", "contributors", "communities", "title", "access_right", "keywords", "upload_type"
  }

  /** The first three steps of the `update` block on the record `md0`: the people of
      `CONTRIBUTORS.md`, the `--communities` option, and the dataset's title and keywords. */
  function Prepare(md0: Json.Document, people: Metadata.People, communities: string, title: Option<string>,
                   specs: seq<Cldf.Spec>): (r: Result<Json.Document>)
    ensures r.Success? <==> ExistingCommunities(Dicts.Get(md0, "communities")).Success?
                            && ExistingKeywords(Dicts.Get(md0, "keywords")).Success?
    ensures r.Success? ==> forall k :: k !in Prepared ==> Dicts.Get(r.value, k) == Dicts.Get(md0, k)
    ensures Dicts.Valid(md0) && r.Success? ==> Dicts.Valid(r.value)
  {
    var c := WithCommunities(WithPeople(md0, people), communities);
    if c.Success? then WithOverwrites(c.value, title, specs) else Failure(c.error)
  }

  /** The body of the `update` block: the record `md0` read from `.zenodo.json` (an empty
      record when the file is missing) updated with the people of `CONTRIBUTORS.md`,
      the `--communities` option, the dataset's title, CLDF specs and citation, and its
      Zenodo license. */
  function Update(md0: Json.Document, people: Metadata.People, communities: string, title: Option<string>,
                  specs: seq<Cldf.Spec>, citation: Option<string>, license: Option<string>): (r: Result<Json.Document>)
    ensures r.Success? <==> ExistingCommunities(Dicts.Get(md0, "communities")).Success?
                            && ExistingKeywords(Dicts.Get(md0, "keywords")).Success?
    ensures r.Success? ==> forall k :: k !in Written ==> Dicts.Get(r.value, k) == Dicts.Get(md0, k)
    ensures Dicts.Valid(md0) && r.Success? ==> Dicts.Valid(r.value)
  {
    var md3 :- Prepare(md0, people, communities, title, specs);
    Success(WithCitationAndLicense(md3, citation, license))
  }

  /** The record `run` writes for dataset `ds`: `existing` is the parsed `.zenodo.json`,
      `table` the contributor table of `CONTRIBUTORS.md`, `communities` the
      `--communities` option and `find` the license catalogue. */
  function Run(ds: Dataset.Dataset, existing: Option<Json.Document>, table: Option<Metadata.Table>,
               communities: string, find: string -> Option<Metadata.License>): (r: Result<Json.Document>)
    ensures var md := existing.GetOr([]);
            r.Success? <==> ExistingCommunities(Dicts.Get(md, "communities")).Success?
                            && ExistingKeywords(Dicts.Get(md, "keywords")).Success?
    ensures var md := existing.GetOr([]);
            r.Success? ==> forall k :: k !in Written ==> Dicts.Get(r.value, k) == Dicts.Get(md, k)
    ensures Dicts.Valid(existing.GetOr([])) && r.Success? ==> Dicts.Valid(r.value)
  {
    Update(existing.GetOr([]), Metadata.GetCreatorsAndContributors(table, false).value, communities,
           ds.metadata.title, Dataset.SpecValues(ds.specs), ds.metadata.citation,
           Metadata.ZenodoLicense(ds.metadata, find))
  }

  /** The intermediate records of a successful `Update`. */
  lemma UpdateStages(md0: Json.Document, people: Metadata.People, communities: string, title: Option<string>,
                     specs: seq<Cldf.Spec>, citation: Option<string>, license: Option<string>)
    returns (md1: Json.Document, md2: Json.Document, md3: Json.Document)
    ensures md1 == WithPeople(md0, people)
    ensures Update(md0, people, communities, title, specs, citation, license).Success? ==>
              && WithCommunities(md1, communities) == Success(md2)
              && WithOverwrites(md2, title, specs) == Success(md3)
              && Prepare(md0, people, communities, title, specs) == Success(md3)
              && Update(md0, people, communities, title, specs, citation, license).value == WithCitationAndLicense(md3, citation, license)
  {
    md1 := WithPeople(md0, people);
    var c := WithCommunities(md1, communities);
    md2 := if c.Success? then c.value else md1;
    var o := WithOverwrites(md2, title, specs);
    md3 := if o.Success? then o.value else md2;
  }

  /** The creators and contributors of `CONTRIBUTORS.md` replace the record's, unless
      there are none. */
  lemma UpdateWritesPeople(md0: Json.Document, people: Metadata.People, communities: string, title: Option<string>,
                           specs: seq<Cldf.Spec>, citation: Option<string>, license: Option<string>)
    ensures var u := Update(md0, people, communities, title, specs, citation, license);
            u.Success? ==>
            var r := u.value;
            && Dicts.Get(r, "creators") ==
                 (if |people.creators| > 0 then Some(ContribList(people.creators)) else Dicts.Get(md0, "creators"))
            && Dicts.Get(r, "contributors") ==
                 (if |people.contributors| > 0 then Some(ContribList(people.contributors)) else Dicts.Get(md0, "contributors"))
  {
    var md1, md2, md3 := UpdateStages(md0, people, communities, title, specs, citation, license);
    if Update(md0, people, communities, title, specs, citation, license).Success? {
      assert Dicts.Get(md3, "creators") == Dicts.Get(md2, "creators") == Dicts.Get(md1, "creators");
      assert Dicts.Get(md3, "contributors") == Dicts.Get(md2, "contributors") == Dicts.Get(md1, "contributors");
    }
  }


  /** The communities are the sorted set of the existing and the given ones, written
      only if there are any. */
  lemma UpdateWritesCommunities(md0: Json.Document, people: Metadata.People, communities: string, title: Option<string>,
                                specs: seq<Cldf.Spec>, citation: Option<string>, license: Option<string>)
    ensures var u := Update(md0, people, communities, title, specs, citation, license);
            u.Success? ==>
            var r := u.value;
            var all := ExistingCommunities(Dicts.Get(md0, "communities")).value + Strings.CommaList(communities);
            Dicts.Get(r, "communities") == if |all| > 0 then Some(CommunityList(all)) else Dicts.Get(md0, "communities")
  {
    var md1, md2, md3 := UpdateStages(md0, people, communities, title, specs, citation, license);
    if Update(md0, people, communities, title, specs, citation, license).Success? {
      assert Dicts.Get(md3, "communities") == Dicts.Get(md2, "communities");
      assert Dicts.Get(md1, "communities") == Dicts.Get(md0, "communities");
    }
  }


  /** `title`, `access_right`, `keywords` and `upload_type` are always overwritten. */
  lemma UpdateOverwrites(md0: Json.Document, people: Metadata.People, communities: string, title: Option<string>,
                         specs: seq<Cldf.Spec>, citation: Option<string>, license: Option<string>)
    ensures var u := Update(md0, people, communities, title, specs, citation, license);
            u.Success? ==>
            var r := u.value;
            && Dicts.Get(r, "title") == Some(OptStr(title))
            && Dicts.Get(r, "access_right") == Some(Json.Str("open"))
            && Dicts.Get(r, "upload_type") == Some(Json.Str("dataset"))
            && Dicts.Get(r, "keywords") ==
                 Some(Json.Strs(Keywords(ExistingKeywords(Dicts.Get(md0, "keywords")).value, specs)))
  {
    var md1, md2, md3 := UpdateStages(md0, people, communities, title, specs, citation, license);
    if Update(md0, people, communities, title, specs, citation, license).Success? {
      assert Dicts.Get(md2, "keywords") == Dicts.Get(md1, "keywords") == Dicts.Get(md0, "keywords");
    }
  }


  /** `description` is written only for a truthy citation, and embeds it escaped. */
  lemma UpdateWritesDescription(md0: Json.Document, people: Metadata.People, communities: string, title: Option<string>,
                                specs: seq<Cldf.Spec>, citation: Option<string>, license: Option<string>)
    ensures var u := Update(md0, people, communities, title, specs, citation, license);
            u.Success? ==>
            var r := u.value;
            Dicts.Get(r, "description") ==
              if Truthy(citation) then Some(Json.Str(Description(citation.value))) else Dicts.Get(md0, "description")
  {
    var md1, md2, md3 := UpdateStages(md0, people, communities, title, specs, citation, license);
    if Update(md0, people, communities, title, specs, citation, license).Success? {
      assert Dicts.Get(md3, "description") == Dicts.Get(md2, "description") == Dicts.Get(md1, "description")
        == Dicts.Get(md0, "description");
    }
  }


  /** `license` is written only when there is a Zenodo license. */
  lemma UpdateWritesLicense(md0: Json.Document, people: Metadata.People, communities: string, title: Option<string>,
                            specs: seq<Cldf.Spec>, citation: Option<string>, license: Option<string>)
    ensures var u := Update(md0, people, communities, title, specs, citation, license);
            u.Success? ==>
            var r := u.value;
            Dicts.Get(r, "license") ==
              if license.Some? then Some(Json.Object(map["id" := Json.Str(license.value)])) else Dicts.Get(md0, "license")
  {
    var md1, md2, md3 := UpdateStages(md0, people, communities, title, specs, citation, license);
    if Update(md0, people, communities, title, specs, citation, license).Success? {
      assert Dicts.Get(md3, "license") == Dicts.Get(md2, "license") == Dicts.Get(md1, "license")
        == Dicts.Get(md0, "license");
    }
  }


  /** The license `run` writes is the dataset's license when Zenodo accepts it. */
  lemma RunWritesLicense(ds: Dataset.Dataset, existing: Option<Json.Document>, table: Option<Metadata.Table>,
                         communities: string, find: string -> Option<Metadata.License>)
    ensures var u := Run(ds, existing, table, communities, find);
            u.Success? ==>
            var r := u.value;
            var known := Metadata.KnownLicense(ds.metadata, find);
            Dicts.Get(r, "license") ==
              if known.Some? && known.value.id in Metadata.Licenses
              then Some(Json.Object(map["id" := Json.Str(known.value.id)]))
              else Dicts.Get(existing.GetOr([]), "license")
  {
    UpdateWritesLicense(existing.GetOr([]), Metadata.GetCreatorsAndContributors(table, false).value, communities,
                        ds.metadata.title, Dataset.SpecValues(ds.specs), ds.metadata.citation,
                        Metadata.ZenodoLicense(ds.metadata, find));
  }
}
