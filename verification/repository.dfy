/** A git repository clone as the datasets see it: the origin URL, the GitHub slug and
the provenance record for CLDF metadata.

The URL of the `origin` remote and the output of `git describe` are parameters.
 */
module Repository {
  import opened Wrappers
  import Strings
  import Seqs
  import Dicts
  import Sorting

  /** A clone: the URL of its `origin` remote (`None` without one), what
      `git describe --always --tags` prints, and its branch names (`None` where
      listing them raises `AttributeError`). */
  datatype Repo = Repo(origin: Option<string>, describe: string, branches: Option<seq<string>>)

  /** `url`: the origin remote's URL with one trailing `.git` removed; `None` when there
      is no `origin`. */
  function Url(origin: Option<string>): (r: Option<string>)
    ensures r.None? <==> origin.None?
    ensures origin.Some? && Strings.EndsWith(origin.value, ".git") ==> r.value + ".git" == origin.value
    ensures origin.Some? && !Strings.EndsWith(origin.value, ".git") ==> r == origin
  {
    match origin
    case None => None
    case Some(u) =>
      if Strings.EndsWith(u, ".git") then
        assert u[..|u| - 4] + u[|u| - 4..] == u;
        Some(u[..|u| - 4])
      else Some(u)
  }

  /** Exactly one `.git` goes: a URL ending in `.git.git` keeps one of them. */
  lemma UrlStripsOneSuffix(u: string)
    ensures Url(Some(u + ".git")) == Some(u)
  {
    var s := u + ".git";
    assert s[|s| - 4..] == ".git";
    assert s[..|s| - 4] == u;
  }

  const GithubHost := "github.com/"

  /** The end of the run of characters other than `c` that starts at `i`. */
  function RunEnd(s: string, i: nat, c: char): (k: nat)
    requires i <= |s|
    ensures i <= k <= |s|
    ensures forall j :: i <= j < k ==> s[j] != c
    ensures k < |s| ==> s[k] == c
    decreases |s| - i
  {
    if i == |s| || s[i] == c then i else RunEnd(s, i + 1, c)
  }

  /** The pattern `github\.com/(?P<org>[^/]+)/(?P<repo>[^.]+)` tried at index `i`.
      Both groups are greedy; `org` cannot give back characters usefully, since every
      shorter choice is followed by a character other than `/`, so the match at `i`
      exists exactly when the maximal `org` run is non-empty, followed by `/`, and
      followed by at least one character other than `.`. The repository name runs to
      the next `.` or to the end. */
  function MatchAt(s: string, i: nat): (r: Option<(string, string)>)
    requires i <= |s|
    ensures r.Some? ==>
      && r.value.0 != "" && '/' !in r.value.0
      && r.value.1 != "" && '.' !in r.value.1
      && Strings.OccursAt(s, GithubHost + r.value.0 + "/" + r.value.1, i)
      && MatchEnd(s, i, r.value.0, r.value.1)
  {
    if !Strings.OccursAt(s, GithubHost, i) then None
    else
      var o := i + |GithubHost|;
      var oe := RunEnd(s, o, '/');
      if oe == o || oe == |s| then None
      else
        var re := RunEnd(s, oe + 1, '.');
        if re == oe + 1 then None
        else
          var org, repo := s[o..oe], s[oe + 1..re];
          MatchText(s, i, o, oe, re);
          Some((org, repo))
  }

  /** The repository name of a match at `i` stops at a `.` or at the end. */
  predicate MatchEnd(s: string, i: nat, org: string, repo: string) {
    var e := i + |GithubHost| + |org| + 1 + |repo|;
    e <= |s| && (e == |s| || s[e] == '.')
  }

  /** The matched text is the host, the org run, a `/` and the name run. */
  lemma MatchText(s: string, i: nat, o: nat, oe: nat, re: nat)
    requires Strings.OccursAt(s, GithubHost, i) && o == i + |GithubHost|
    requires o <= oe < re <= |s| && s[oe] == '/'
    ensures s[i..re] == GithubHost + s[o..oe] + "/" + s[oe + 1..re]
  {
    assert s[i..o] == GithubHost;
    assert s[oe..re] == "/" + s[oe + 1..re] by {
      assert s[oe..re] == [s[oe]] + s[oe + 1..re];
    }
    assert s[o..re] == s[o..oe] + s[oe..re];
    assert s[i..re] == s[i..o] + s[o..re];
  }

  /** `re.search`: the match at the leftmost index where there is one. */
  function Search(s: string, i: nat): (r: Option<(string, string)>)
    requires i <= |s|
    ensures r.Some? ==> exists j :: i <= j <= |s| && MatchAt(s, j) == r
                                    && forall k :: i <= k < j ==> MatchAt(s, k).None?
    ensures r.None? ==> forall j :: i <= j <= |s| ==> MatchAt(s, j).None?
    decreases |s| - i
  {
    var j := FirstMatch(s, i);
    if j <= |s| then MatchAt(s, j) else None
  }

  /** The leftmost index from `i` on where the pattern matches, or one past the end. */
  function FirstMatch(s: string, i: nat): (j: nat)
    requires i <= |s|
    ensures i <= j <= |s| + 1
    ensures j <= |s| ==> MatchAt(s, j).Some?
    ensures forall k :: i <= k < j && k <= |s| ==> MatchAt(s, k).None?
    decreases |s| - i
  {
    if MatchAt(s, i).Some? then i
    else if i == |s| then |s| + 1
    else FirstMatch(s, i + 1)
  }

  /** `github_repo`: `org/repo` from the first GitHub URL in the origin URL, where the
      repository name stops before the first `.`; `None` without a match. */
  function GithubRepo(url: Option<string>): (r: Option<string>)
    ensures r.Some? ==> exists j, org, repo ::
      && 0 <= j <= |OrEmpty(url)| && r.value == org + "/" + repo
      && org != "" && '/' !in org && repo != "" && '.' !in repo
      && Strings.OccursAt(OrEmpty(url), GithubHost + org + "/" + repo, j)
      && MatchEnd(OrEmpty(url), j, org, repo)
      && forall k :: 0 <= k < j ==> MatchAt(OrEmpty(url), k).None?
    ensures r.None? <==> forall j :: 0 <= j <= |OrEmpty(url)| ==> MatchAt(OrEmpty(url), j).None?
  {
    var s := OrEmpty(url);
    var j := FirstMatch(s, 0);
    if j <= |s| then
      var m := MatchAt(s, j).value;
      Some(m.0 + "/" + m.1)
    else None
  }

  /** `RunEnd` is the first index from `i` on holding `c`, or the end. */
  lemma {:induction false} RunEndAt(s: string, i: nat, c: char, k: nat)
    requires i <= k <= |s|
    requires forall j :: i <= j < k ==> s[j] != c
    requires k == |s| || s[k] == c
    ensures RunEnd(s, i, c) == k
    decreases k - i
  {
    if i < k {
      RunEndAt(s, i + 1, c, k);
    }
  }

  /** The first match is at `j` when there is none before it. */
  lemma {:induction false} FirstMatchAt(s: string, i: nat, j: nat)
    requires i <= j <= |s|
    requires forall k :: i <= k < j ==> MatchAt(s, k).None?
    requires MatchAt(s, j).Some?
    ensures FirstMatch(s, i) == j
    decreases j - i
  {
    if i < j {
      FirstMatchAt(s, i + 1, j);
    }
  }

  /** A URL holding the host only after a prefix in which the host does not start
      (`https://`, say) gives back its organisation and repository name, whatever
      suffix (`.git`, or nothing) follows the name. */
  lemma GithubRepoOfHostUrl(pre: string, org: string, repo: string, rest: string)
    requires forall k :: 0 <= k < |pre| ==> !Strings.OccursAt(pre + GithubHost, GithubHost, k)
    requires org != "" && '/' !in org && repo != "" && '.' !in repo
    requires rest == "" || rest[0] == '.'
    ensures GithubRepo(Some(pre + GithubHost + org + "/" + repo + rest)) == Some(org + "/" + repo)
  {
    var s := pre + GithubHost + org + "/" + repo + rest;
    var t := pre + GithubHost;
    assert s[..|t|] == t;
    forall k | 0 <= k < |pre| ensures MatchAt(s, k).None? {
      assert s[k..k + |GithubHost|] == s[..|t|][k..k + |GithubHost|];
      assert !Strings.OccursAt(t, GithubHost, k);
      assert !Strings.OccursAt(s, GithubHost, k);
    }
    MatchAfter(pre, org, repo, rest);
    FirstMatchAt(s, 0, |pre|);
  }

  /** The match right after the prefix. */
  lemma MatchAfter(pre: string, org: string, repo: string, rest: string)
    requires org != "" && '/' !in org && repo != "" && '.' !in repo
    requires rest == "" || rest[0] == '.'
    ensures MatchAt(pre + GithubHost + org + "/" + repo + rest, |pre|) == Some((org, repo))
  {
    var s := pre + GithubHost + org + "/" + repo + rest;
    var i := |pre|;
    var o := i + |GithubHost|;
    var oe := o + |org|;
    var b := oe + 1;
    var re := b + |repo|;
    assert s[i..o] == GithubHost;
    assert s[o..oe] == org;
    assert s[oe] == '/';
    assert s[b..re] == repo;
    forall j | o <= j < oe ensures s[j] != '/' {
      assert s[j] == org[j - o];
    }
    forall j | b <= j < re ensures s[j] != '.' {
      assert s[j] == repo[j - b];
    }
    assert re == |s| || s[re] == '.';
    RunEndAt(s, o, '/', oe);
    RunEndAt(s, b, '.', re);
    MatchAtRuns(s, i, oe, re);
  }

  /** The match at `i` in terms of the two runs. */
  lemma MatchAtRuns(s: string, i: nat, oe: nat, re: nat)
    requires i <= |s| && Strings.OccursAt(s, GithubHost, i)
    requires i + |GithubHost| < oe < |s| && RunEnd(s, i + |GithubHost|, '/') == oe
    requires oe + 1 < re <= |s| && RunEnd(s, oe + 1, '.') == re
    ensures MatchAt(s, i) == Some((s[i + |GithubHost|..oe], s[oe + 1..re]))
  {
  }

  /** `https://github.com/<org>/<repo>`, with or without `.git`. */
  lemma GithubRepoOfHttpsUrl(org: string, repo: string, rest: string)
    requires org != "" && '/' !in org && repo != "" && '.' !in repo
    requires rest == "" || rest[0] == '.'
    ensures GithubRepo(Some("https://" + GithubHost + org + "/" + repo + rest)) == Some(org + "/" + repo)
  {
    var t := "https://" + GithubHost;
    forall k | 0 <= k < 8 ensures !Strings.OccursAt(t, GithubHost, k) {
      assert t[k] != 'g';
    }
    GithubRepoOfHostUrl("https://", org, repo, rest);
  }

  /** `json_ld(**dc)`: the provenance record of the repository. The fixed keys come
      first, `rdf:about` only for a truthy URL, then `dc:<k>` for the keyword
      arguments in sorted order; a keyword argument named `title` or `created`
      overwrites the fixed value in place. */
  function JsonLd(url: Option<string>, describe: string, dc: Dicts.Dict<string, string>): (r: Dicts.Dict<string, string>)
    requires Dicts.Valid(dc)
    ensures Dicts.Valid(r) && |r| >= 3
    ensures Dicts.Keys(r)[..2] == ["rdf:type", "dc:title"]
  {
    var base := JsonLdBase(url, describe);
    var r := Dicts.Update(base, DcEntries(dc));
    Dicts.UpdateKeysPrefix(base, DcEntries(dc));
    assert Dicts.Keys(r)[..2] == Dicts.Keys(r)[..|base|][..2];
    r
  }

  /** Keyword entries never touch the `rdf:` keys: `rdf:type` is always `prov:Entity`,
      and `rdf:about` is there exactly for a truthy URL, holding it. */
  lemma JsonLdRdfValues(url: Option<string>, describe: string, dc: Dicts.Dict<string, string>)
    requires Dicts.Valid(dc)
    ensures var r := JsonLd(url, describe, dc);
            && Dicts.Get(r, "rdf:type") == Some("prov:Entity")
            && (Dicts.HasKey(r, "rdf:about") <==> Truthy(url))
            && (Truthy(url) ==> Dicts.Get(r, "rdf:about") == url)
  {
    var base := JsonLdBase(url, describe);
    var extra := DcEntries(dc);
    DcEntriesProps(dc);
    assert "rdf:type"[0] == 'r' && "rdf:about"[0] == 'r';
    var r := JsonLd(url, describe, dc);
    assert r == Dicts.Update(base, extra);
    assert !Dicts.HasKey(extra, "rdf:type") && !Dicts.HasKey(extra, "rdf:about");
    Dicts.UpdateGet(base, extra, "rdf:type");
    Dicts.UpdateGet(base, extra, "rdf:about");
    assert Dicts.Get(r, "rdf:about") == Dicts.Get(base, "rdf:about");
  }

  /** `dc:created` is the `describe()` output unless a `created` keyword replaces it. */
  lemma JsonLdCreated(url: Option<string>, describe: string, dc: Dicts.Dict<string, string>)
    requires Dicts.Valid(dc)
    ensures Dicts.Get(JsonLd(url, describe, dc), "dc:created") ==
      if Dicts.HasKey(dc, "created") then Dicts.Get(dc, "created") else Some(describe)
  {
    CreatedKey();
    var base := JsonLdBase(url, describe);
    var extra := DcEntries(dc);
    var r := JsonLd(url, describe, dc);
    assert r == Dicts.Update(base, extra);
    DcEntriesProps(dc);
    Dicts.UpdateGet(base, extra, "dc:created");
    if Dicts.HasKey(dc, "created") {
      DcEntryGet(dc, "created");
    } else {
      assert !Dicts.HasKey(extra, "dc:created");
    }
  }

  /** `dc:created` is the keyword `created` with the `dc:` prefix. */
  lemma CreatedKey()
    ensures "dc:created"[3..] == "created" && "dc:" + "created" == "dc:created"
  {
  }

  /** Every keyword argument `k` shows up as `dc:k` with its value. */
  lemma JsonLdKeywords(url: Option<string>, describe: string, dc: Dicts.Dict<string, string>, k: string)
    requires Dicts.Valid(dc) && Dicts.HasKey(dc, k)
    ensures Dicts.Get(JsonLd(url, describe, dc), "dc:" + k) == Dicts.Get(dc, k)
  {
    DcEntriesProps(dc);
    Dicts.UpdateGet(JsonLdBase(url, describe), DcEntries(dc), "dc:" + k);
    DcEntryGet(dc, k);
  }

  /** Without `title` and `created` keywords, the keys are the fixed ones followed by
      `dc:<k>` for the keyword names in sorted order. */
  lemma JsonLdKeyOrder(url: Option<string>, describe: string, dc: Dicts.Dict<string, string>)
    requires Dicts.Valid(dc) && !Dicts.HasKey(dc, "title") && !Dicts.HasKey(dc, "created")
    ensures var ks := Sorting.SortedSet(Dicts.Keys(dc));
            Dicts.Keys(JsonLd(url, describe, dc)) ==
              Dicts.Keys(JsonLdBase(url, describe)) + seq(|ks|, i requires 0 <= i < |ks| => "dc:" + ks[i])
  {
    var base := JsonLdBase(url, describe);
    var extra := DcEntries(dc);
    var ks := Sorting.SortedSet(Dicts.Keys(dc));
    DcEntriesProps(dc);
    DcEntriesKeys(dc);
    forall i | 0 <= i < |extra| ensures !Dicts.HasKey(base, extra[i].0) {
      assert extra[i].0 == "dc:" + ks[i];
      assert ks[i] in Dicts.Keys(dc);
      Dicts.HasKeyIffInKeys(dc, ks[i]);
      KeywordKeyNotFixed(ks[i]);
    }
    Dicts.UpdateKeys(base, extra);
  }

  lemma KeywordKeyNotFixed(x: string)
    requires x != "title" && x != "created"
    ensures "dc:" + x !in {"rdf:type", "dc:title", "rdf:about", "dc:created"}
  {
    assert ("dc:" + x)[3..] == x;
    assert "dc:title"[3..] == "title" && "dc:created"[3..] == "created";
    assert "rdf:type"[0] == 'r' && "rdf:about"[0] == 'r';
  }

  /** The fixed part of the provenance record. */
  function JsonLdBase(url: Option<string>, describe: string): (r: Dicts.Dict<string, string>)
    ensures Dicts.Valid(r) && |r| >= 3
    ensures Dicts.Keys(r)[..2] == ["rdf:type", "dc:title"]
    ensures Dicts.Get(r, "rdf:type") == Some("prov:Entity")
    ensures Dicts.Get(r, "dc:title") == Some("Repository")
    ensures Dicts.HasKey(r, "rdf:about") <==> Truthy(url)
    ensures Truthy(url) ==> Dicts.Get(r, "rdf:about") == url
    ensures Dicts.Get(r, "dc:created") == Some(describe)
    ensures forall k :: Dicts.HasKey(r, k) ==> k in {"rdf:type", "dc:title", "rdf:about", "dc:created"}
  {
    var created: Dicts.Dict<string, string> := [("dc:created", describe)];
    var about: Dicts.Dict<string, string> := if Truthy(url) then [("rdf:about", url.value)] + created else created;
    var title := [("dc:title", "Repository")] + about;
    var r := [("rdf:type", "prov:Entity")] + title;
    assert "rdf:type" != "dc:title" && "rdf:type" != "dc:created" && "rdf:type" != "rdf:about";
    assert "rdf:about" != "dc:title" && "rdf:about" != "dc:created" && "dc:title" != "dc:created";
    assert && Dicts.Valid(r)
           && Dicts.Get(r, "rdf:type") == Some("prov:Entity")
           && Dicts.Get(r, "dc:title") == Some("Repository")
           && (Dicts.HasKey(r, "rdf:about") <==> Truthy(url))
           && (Truthy(url) ==> Dicts.Get(r, "rdf:about") == url)
           && Dicts.Get(r, "dc:created") == Some(describe) by {
      assert created == [("dc:created", describe)] + [];
      Dicts.ConsFacts("dc:created", describe, [], "rdf:type");
      Dicts.ConsFacts("dc:created", describe, [], "dc:title");
      Dicts.ConsFacts("dc:created", describe, [], "rdf:about");
      Dicts.ConsFacts("dc:created", describe, [], "dc:created");
      if Truthy(url) {
        Dicts.ConsFacts("rdf:about", url.value, created, "rdf:type");
        Dicts.ConsFacts("rdf:about", url.value, created, "dc:title");
        Dicts.ConsFacts("rdf:about", url.value, created, "rdf:about");
        Dicts.ConsFacts("rdf:about", url.value, created, "dc:created");
      }
      Dicts.ConsFacts("dc:title", "Repository", about, "rdf:type");
      Dicts.ConsFacts("dc:title", "Repository", about, "dc:title");
      Dicts.ConsFacts("dc:title", "Repository", about, "rdf:about");
      Dicts.ConsFacts("dc:title", "Repository", about, "dc:created");
      Dicts.ConsFacts("rdf:type", "prov:Entity", title, "rdf:type");
      Dicts.ConsFacts("rdf:type", "prov:Entity", title, "dc:title");
      Dicts.ConsFacts("rdf:type", "prov:Entity", title, "rdf:about");
      Dicts.ConsFacts("rdf:type", "prov:Entity", title, "dc:created");
    }
    assert Dicts.Keys(r)[..2] == ["rdf:type", "dc:title"] by {
      Dicts.KeysAt(r, 0);
      Dicts.KeysAt(r, 1);
    }
    assert forall k :: Dicts.HasKey(r, k) ==> k in {"rdf:type", "dc:title", "rdf:about", "dc:created"} by {
      forall k | Dicts.HasKey(r, k) ensures k in {"rdf:type", "dc:title", "rdf:about", "dc:created"} {
        Dicts.ConsFacts("dc:created", describe, [], k);
        if Truthy(url) {
          Dicts.ConsFacts("rdf:about", url.value, created, k);
        }
        Dicts.ConsFacts("dc:title", "Repository", about, k);
        Dicts.ConsFacts("rdf:type", "prov:Entity", title, k);
      }
    }
    r
  }

  /** `{'dc:' + k: dc[k] for k in sorted(dc)}` */
  function DcEntries(dc: Dicts.Dict<string, string>): (r: Dicts.Dict<string, string>)
    requires Dicts.Valid(dc)
  {
    var ks := Sorting.SortedSet(Dicts.Keys(dc));
    seq(|ks|, i requires 0 <= i < |ks| => ("dc:" + ks[i], DcValue(dc, ks[i])))
  }

  function DcValue(dc: Dicts.Dict<string, string>, k: string): string {
    match Dicts.Get(dc, k)
    case Some(v) => v
    case None => ""
  }

  /** The keyword entries have distinct `dc:` keys, in sorted order of the argument names. */
  lemma DcEntriesProps(dc: Dicts.Dict<string, string>)
    requires Dicts.Valid(dc)
    ensures Dicts.Valid(DcEntries(dc))
    ensures forall k :: Dicts.HasKey(DcEntries(dc), k) ==> Strings.StartsWith(k, "dc:") && Dicts.HasKey(dc, k[3..])
    ensures forall k :: Dicts.HasKey(DcEntries(dc), k) ==> |k| > 0 && k[0] == 'd'
  {
    var ks := Sorting.SortedSet(Dicts.Keys(dc));
    var e := DcEntries(dc);
    var ekeys := seq(|ks|, i requires 0 <= i < |ks| => "dc:" + ks[i]);
    DcEntriesKeys(dc);
    assert Seqs.NoDup(ekeys) by {
      forall i, j | 0 <= i < j < |ekeys| ensures ekeys[i] != ekeys[j] {
        assert Sorting.Less(ks[i], ks[j]);
        assert ekeys[i][3..] == ks[i] && ekeys[j][3..] == ks[j];
      }
    }
    Dicts.ValidIffNoDupKeys(e);
    forall k | Dicts.HasKey(e, k) ensures Strings.StartsWith(k, "dc:") && Dicts.HasKey(dc, k[3..]) {
      Dicts.HasKeyIffInKeys(e, k);
      var i :| 0 <= i < |ekeys| && ekeys[i] == k;
      assert k[..3] == "dc:" && k[3..] == ks[i] && k[0] == 'd';
      assert ks[i] in Dicts.Keys(dc);
      Dicts.HasKeyIffInKeys(dc, ks[i]);
    }
  }

  lemma DcEntriesKeys(dc: Dicts.Dict<string, string>)
    requires Dicts.Valid(dc)
    ensures var ks := Sorting.SortedSet(Dicts.Keys(dc));
            Dicts.Keys(DcEntries(dc)) == seq(|ks|, i requires 0 <= i < |ks| => "dc:" + ks[i])
  {
    var ks := Sorting.SortedSet(Dicts.Keys(dc));
    var e := DcEntries(dc);
    forall i | 0 <= i < |e| ensures Dicts.Keys(e)[i] == "dc:" + ks[i] {
      Dicts.KeysAt(e, i);
    }
  }

  lemma DcEntryGet(dc: Dicts.Dict<string, string>, k: string)
    requires Dicts.Valid(dc) && Dicts.HasKey(dc, k)
    ensures Dicts.HasKey(DcEntries(dc), "dc:" + k)
    ensures Dicts.Get(DcEntries(dc), "dc:" + k) == Dicts.Get(dc, k)
  {
    DcEntriesProps(dc);
    var ks := Sorting.SortedSet(Dicts.Keys(dc));
    Dicts.HasKeyIffInKeys(dc, k);
    var i :| 0 <= i < |ks| && ks[i] == k;
    var e := DcEntries(dc);
    assert e[i] == ("dc:" + k, DcValue(dc, k));
    Dicts.GetOfValid(e, i);
  }

}
