/** Dataset metadata: the contributor table, the JSON-LD properties, the README head and
the license as Zenodo knows it.

License lookup and the markdown-table parser are library calls; they are parameters
here: `find` stands for `clldutils.licenses.find`, and the contributor table is given
already parsed, as the header and rows of the first table, or `None` when the text has
no table.
 */
module Metadata {
  import opened Wrappers
  import Strings
  import Seqs
  import Dicts

  /** The DataCite contributor types. */
  const ContributorTypes: set<string> := {
    "ContactPerson",
    "DataCollector",
    "DataCurator",
    "DataManager",
    "Distributor",
    "Editor",
    "Funder",
    "HostingInstitution",
    "Producer",
    "ProjectLeader",
    "ProjectManager",
    "ProjectMember",
    "RegistrationAgency",
    "RegistrationAuthority",
    "RelatedPerson",
    "Researcher",
    "ResearchGroup",
    "RightsHolder",
    "Supervisor",
    "Sponsor",
    "WorkPackageLeader",
    "Other"
  }

  /** `{c.lower(): c for c in CONTRIBUTOR_TYPES}` */
  const TypeByLowerName: map<string, string> := map[
    "contactperson" := "ContactPerson",
    "datacollector" := "DataCollector",
    "datacurator" := "DataCurator",
    "datamanager" := "DataManager",
    "distributor" := "Distributor",
    "editor" := "Editor",
    "funder" := "Funder",
    "hostinginstitution" := "HostingInstitution",
    "producer" := "Producer",
    "projectleader" := "ProjectLeader",
    "projectmanager" := "ProjectManager",
    "projectmember" := "ProjectMember",
    "registrationagency" := "RegistrationAgency",
    "registrationauthority" := "RegistrationAuthority",
    "relatedperson" := "RelatedPerson",
    "researcher" := "Researcher",
    "researchgroup" := "ResearchGroup",
    "rightsholder" := "RightsHolder",
    "supervisor" := "Supervisor",
    "sponsor" := "Sponsor",
    "workpackageleader" := "WorkPackageLeader",
    "other" := "Other"
  ]

  lemma LowerOfTypes1()
    ensures Strings.Lower("ContactPerson") == "contactperson"
    ensures Strings.Lower("DataCollector") == "datacollector"
    ensures Strings.Lower("DataCurator") == "datacurator"
    ensures Strings.Lower("DataManager") == "datamanager"
  {
  }

  lemma LowerOfTypes2()
    ensures Strings.Lower("Distributor") == "distributor"
    ensures Strings.Lower("Editor") == "editor"
    ensures Strings.Lower("Funder") == "funder"
    ensures Strings.Lower("HostingInstitution") == "hostinginstitution"
  {
  }

  lemma LowerOfTypes3()
    ensures Strings.Lower("Producer") == "producer"
    ensures Strings.Lower("ProjectLeader") == "projectleader"
    ensures Strings.Lower("ProjectManager") == "projectmanager"
    ensures Strings.Lower("ProjectMember") == "projectmember"
  {
  }

  lemma LowerOfTypes4()
    ensures Strings.Lower("RegistrationAgency") == "registrationagency"
    ensures Strings.Lower("RegistrationAuthority") == "registrationauthority"
    ensures Strings.Lower("RelatedPerson") == "relatedperson"
    ensures Strings.Lower("Researcher") == "researcher"
  {
  }

  lemma LowerOfTypes5()
    ensures Strings.Lower("ResearchGroup") == "researchgroup"
    ensures Strings.Lower("RightsHolder") == "rightsholder"
    ensures Strings.Lower("Supervisor") == "supervisor"
    ensures Strings.Lower("Sponsor") == "sponsor"
  {
  }

  lemma LowerOfTypes6()
    ensures Strings.Lower("WorkPackageLeader") == "workpackageleader"
    ensures Strings.Lower("Other") == "other"
  {
  }

  /** The lookup table holds exactly the lowercased contributor types. */
  lemma TypeByLowerNameLowers()
    ensures forall c :: c in ContributorTypes ==>
      Strings.Lower(c) in TypeByLowerName && TypeByLowerName[Strings.Lower(c)] == c
  {
    LowerOfTypes1();
    LowerOfTypes2();
    LowerOfTypes3();
    LowerOfTypes4();
    LowerOfTypes5();
    LowerOfTypes6();
  }

  /** Every entry of the lookup table is a contributor type filed under its lowercase name. */
  lemma TypeByLowerNameValues()
    ensures forall k :: k in TypeByLowerName ==>
      TypeByLowerName[k] in ContributorTypes && Strings.Lower(TypeByLowerName[k]) == k
  {
    LowerOfTypes1();
    LowerOfTypes2();
    LowerOfTypes3();
    LowerOfTypes4();
    LowerOfTypes5();
    LowerOfTypes6();
  }

  /** The license ids Zenodo accepts. */
  const Licenses: set<string> := {
    "AAL", "ADSL", "AFL-1.1", "AFL-3.0", "AGPL-1.0-only", "AGPL-3.0", "AGPL-3.0-only",
    "AGPL-3.0-or-later", "AMDPLPA", "AML", "AMPAS", "ANTLR-PD", "APL-1.0", "APSL-1.0",
    "APSL-1.1", "APSL-1.2", "APSL-2.0", "Adobe-2006", "Against-DRM", "Aladdin",
    "Apache-1.0", "Apache-1.1", "Apache-2.0", "Artistic-1.0", "Artistic-1.0-Perl",
    "Artistic-1.0-cl8", "Artistic-2.0", "BSD-1-Clause", "BSD-2-Clause", "BSD-2-Clause-FreeBSD",
    "BSD-3-Clause", "BSD-3-Clause-Clear", "BSD-3-Clause-LBNL", "BSD-3-Clause-No-Nuclear-License",
    "BSD-3-Clause-No-Nuclear-License-2014", "BSD-4-Clause", "BSD-4-Clause-UC",
    "BSD-Source-Code", "BSL-1.0", "Bahyph", "Barr", "Beerware", "BitTorrent-1.0",
    "BitTorrent-1.1", "CATOSL-1.1", "CC-BY-1.0", "CC-BY-3.0", "CC-BY-4.0", "CC-BY-NC-1.0",
    "CC-BY-NC-2.5", "CC-BY-NC-3.0", "CC-BY-NC-4.0", "CC-BY-NC-ND-1.0", "CC-BY-NC-ND-2.0",
    "CC-BY-NC-ND-2.5", "CC-BY-NC-ND-3.0", "CC-BY-NC-ND-4.0", "CC-BY-NC-SA-1.0",
    "CC-BY-NC-SA-3.0", "CC-BY-NC-SA-4.0", "CC-BY-ND-1.0", "CC-BY-ND-2.0", "CC-BY-ND-2.5",
    "CC-BY-ND-4.0", "CC-BY-SA-2.0", "CC-BY-SA-2.5", "CC-BY-SA-3.0", "CC-BY-SA-4.0",
    "CC0-1.0", "CDDL-1.0", "CDLA-Permissive-1.0", "CDLA-Sharing-1.0", "CECILL-1.1",
    "CECILL-2.0", "CECILL-2.1", "CECILL-B", "CECILL-C", "CNRI-Jython", "CNRI-Python",
    "CNRI-Python-GPL-Compatible", "CPAL-1.0", "CPOL-1.02", "CUA-OPL-1.0", "Caldera",
    "ClArtistic", "Condor-1.1", "CrystalStacker", "Cube", "D-FSL-1.0", "DSDP",
    "DSL", "ECL-2.0", "EFL-1.0", "EFL-2.0", "EPL-1.0", "EUDatagrid", "EUPL-1.0",
    "EUPL-1.1", "EUPL-1.2", "Entessa", "ErlPL-1.1", "Eurosym", "FAL-1.3", "FSFAP",
    "Fair", "Frameworx-1.0", "GFDL-1.1", "GFDL-1.1-only", "GFDL-1.2", "GFDL-1.2-only",
    "GFDL-1.2-or-later", "GFDL-1.3-no-cover-texts-no-invariant-sections", "GL2PS",
    "GPL-1.0+", "GPL-1.0-or-later", "GPL-2.0", "GPL-2.0+", "GPL-2.0-with-GCC-exception",
    "GPL-2.0-with-bison-exception", "GPL-2.0-with-classpath-exception", "GPL-3.0",
    "GPL-3.0-only", "GPL-3.0-or-later", "GPL-3.0-with-GCC-exception", "Giftware",
    "Glulxe", "HPND", "HaskellReport", "IBM-pibs", "ICU", "IJG", "IPA", "IPL-1.0",
    "ISC", "ImageMagick", "Imlib2", "Intel", "Intel-ACPI", "JSON", "LGPL-2.0",
    "LGPL-2.0-or-later", "LGPL-2.1", "LGPL-2.1-only", "LGPL-3.0", "LGPL-3.0-or-later",
    "LGPLLR", "LPL-1.0", "LPL-1.02", "LPPL-1.0", "LPPL-1.2", "LPPL-1.3c", "LiLiQ-R-1.1",
    "LiLiQ-Rplus-1.1", "Linux-OpenIB", "MIT", "MIT-advertising", "MIT-enna",
    "MPL-1.0", "MPL-1.1", "MPL-2.0", "MPL-2.0-no-copyleft-exception", "MS-PL",
    "MS-RL", "MirOS", "Motosoto", "Multics", "Mup", "NASA-1.3", "NCSA", "NGPL",
    "NOSL", "NPL-1.1", "NPOSL-3.0", "NTP", "Naumen", "Newsletr", "Nokia", "Noweb",
    "Nunit", "OCCT-PL", "OCLC-2.0", "ODC-By-1.0", "ODC-PDDL-1.0", "ODbL-1.0",
    "OFL-1.0", "OFL-1.1", "OGL-Canada-2.0", "OGL-UK-1.0", "OGL-UK-2.0", "OGL-UK-3.0",
    "OGTSL", "OLDAP-1.2", "OLDAP-1.3", "OLDAP-1.4", "OLDAP-2.0", "OLDAP-2.0.1",
    "OLDAP-2.1", "OLDAP-2.2", "OLDAP-2.2.1", "OLDAP-2.2.2", "OLDAP-2.3", "OLDAP-2.4",
    "OLDAP-2.6", "OLDAP-2.8", "OSET-PL-2.1", "OSL-1.0", "OSL-1.1", "OSL-2.0",
    "OSL-2.1", "OSL-3.0", "OpenSSL", "PHP-3.0", "PHP-3.01", "Plexus", "PostgreSQL",
    "Python-2.0", "QPL-1.0", "Qhull", "RHeCos-1.1", "RPL-1.1", "RPL-1.5", "RPSL-1.0",
    "RSA-MD", "RSCPL", "Ruby", "SAX-PD", "SCEA", "SGI-B-2.0", "SISSL", "SMLNJ",
    "SPL-1.0", "SWL", "Sendmail", "Sendmail-8.23", "SimPL-2.0", "Sleepycat",
    "Spencer-94", "Spencer-99", "SugarCRM-1.1.3", "TCL", "TCP-wrappers", "TOSL",
    "TU-Berlin-2.0", "Unicode-DFS-2015", "Unicode-TOU", "Unlicense", "VSL-1.0",
    "Vim", "W3C", "W3C-20150513", "Watcom-1.0", "X11", "XFree86-1.1", "XSkat",
    "Xerox", "Xnet", "ZPL-1.1", "ZPL-2.0", "Zed", "Zend-2.0", "Zimbra-1.3", "Zlib",
    "bsd-license", "bzip2-1.0.5", "canada-crown", "cc-nc", "curl", "diffmark",
    "dli-model-use", "dvipdfm", "eCos-2.0", "eGenix", "eurofound", "geo-no-fee-unrestricted",
    "geogratis", "gnuplot", "hesa-withrights", "jabber-osl", "libtiff", "localauth-withrights",
    "lucent-plan9", "met-office-cp", "mitre", "mpich2", "notspecified", "other-at",
    "other-closed", "other-nc", "other-open", "other-pd", "psfrag", "psutils",
    "ukclickusepsi", "ukcrown", "ukcrown-withrights", "ukpsi", "user-jsim", "wxWindows",
    "xpp", "zlib-acknowledgement"
  }

  const CreatorRoles: set<string> := {"author", "creator", "maintainer"}

  /** A license record as the license catalogue returns it. */
  datatype License = License(id: string, url: string, legalcode: Option<string>)

  /** The fields of a dataset's `metadata.json`; the six are `None` by default. */
  datatype Metadata = Metadata(
    id: Option<string>,
    title: Option<string>,
    description: Option<string>,
    license: Option<string>,
    url: Option<string>,
    citation: Option<string>)

  /** `known_license`: the catalogue entry for a truthy license string. */
  function KnownLicense(m: Metadata, find: string -> Option<License>): (r: Option<License>)
    ensures !Truthy(m.license) ==> r.None?
  {
    if Truthy(m.license) then find(m.license.value) else None
  }

  /** `zenodo_license`: the known license's id, if Zenodo accepts it. */
  function ZenodoLicense(m: Metadata, find: string -> Option<License>): (r: Option<string>)
    ensures r.Some? ==> r.value in Licenses
    ensures r.Some? <==> KnownLicense(m, find).Some? && KnownLicense(m, find).value.id in Licenses
    ensures r.Some? ==> r.value == KnownLicense(m, find).value.id
  {
    var known := KnownLicense(m, find);
    if known.Some? && known.value.id in Licenses then Some(known.value.id) else None
  }

  /** The value `dc:license` gets: the known license's URL, else the raw license text. */
  function LicenseValue(m: Metadata, find: string -> Option<License>): Option<string> {
    var known := KnownLicense(m, find);
    if known.Some? then Some(known.value.url)
    else if Truthy(m.license) then Some(m.license.value)
    else None
  }

  /** The position of each key `common_props` may write. */
  function PropRank(k: string): nat {
    if k == "dc:title" then 0
    else if k == "dc:description" then 1
    else if k == "dc:bibliographicCitation" then 2
    else if k == "dc:identifier" then 3
    else if k == "dc:license" then 4
    else 5
  }

  /** Keys in strictly increasing rank. */
  predicate Ranked(d: Dicts.Dict<string, string>) {
    forall i, j :: 0 <= i < j < |d| ==> PropRank(d[i].0) < PropRank(d[j].0)
  }

  /** `if v: res[k] = v` on a result that does not hold `k` yet: zero or one entry. */
  function Entry(k: string, v: Option<string>): (r: Dicts.Dict<string, string>)
    ensures Dicts.Get(r, k) == v
    ensures forall k' :: k' != k ==> !Dicts.HasKey(r, k')
  {
    if v.Some? then [(k, v.value)] else []
  }

  /** Strictly increasing ranks mean no key occurs twice. */
  lemma {:induction false} RankedIsValid(d: Dicts.Dict<string, string>)
    requires Ranked(d)
    ensures Dicts.Valid(d)
  {
    if |d| > 0 {
      assert Ranked(d[1..]) by {
        forall i, j | 0 <= i < j < |d[1..]| ensures PropRank(d[1..][i].0) < PropRank(d[1..][j].0) {
          assert d[1..][i] == d[i + 1] && d[1..][j] == d[j + 1];
        }
      }
      RankedIsValid(d[1..]);
      if Dicts.HasKey(d[1..], d[0].0) {
        Dicts.GetStored(d[1..], d[0].0);
      }
    }
  }

  /** Appending an entry whose key outranks every key present keeps the ranks increasing. */
  lemma AppendEntryRanked(d: Dicts.Dict<string, string>, k: string, v: Option<string>)
    requires Ranked(d) && forall i :: 0 <= i < |d| ==> PropRank(d[i].0) < PropRank(k)
    ensures Ranked(d + Entry(k, v))
    ensures forall i :: 0 <= i < |d + Entry(k, v)| ==> PropRank((d + Entry(k, v))[i].0) <= PropRank(k)
  {
  }

  function NonEmptyOr(o: Option<string>): Option<string> {
    if Truthy(o) then o else None
  }

  /** `common_props()`: each `dc:` property only for a truthy field, in a fixed order. */
  function CommonProps(m: Metadata, find: string -> Option<License>): (r: Dicts.Dict<string, string>)
    ensures Ranked(r) && Dicts.Valid(r)
  {
    var r0 := Entry("dc:title", NonEmptyOr(m.title));
    var r1 := r0 + Entry("dc:description", NonEmptyOr(m.description));
    var r2 := r1 + Entry("dc:bibliographicCitation", NonEmptyOr(m.citation));
    var r3 := r2 + Entry("dc:identifier", NonEmptyOr(m.url));
    var r := r3 + Entry("dc:license", LicenseValue(m, find));
    AppendEntryRanked([], "dc:title", NonEmptyOr(m.title));
    assert [] + r0 == r0;
    AppendEntryRanked(r0, "dc:description", NonEmptyOr(m.description));
    AppendEntryRanked(r1, "dc:bibliographicCitation", NonEmptyOr(m.citation));
    AppendEntryRanked(r2, "dc:identifier", NonEmptyOr(m.url));
    AppendEntryRanked(r3, "dc:license", LicenseValue(m, find));
    RankedIsValid(r);
    r
  }

  /** The four plain properties appear exactly for truthy fields, with the field's value. */
  lemma CommonPropsFields(m: Metadata, find: string -> Option<License>)
    ensures var r := CommonProps(m, find);
            && Dicts.Get(r, "dc:title") == (if Truthy(m.title) then m.title else None)
            && Dicts.Get(r, "dc:description") == (if Truthy(m.description) then m.description else None)
            && Dicts.Get(r, "dc:bibliographicCitation") == (if Truthy(m.citation) then m.citation else None)
            && Dicts.Get(r, "dc:identifier") == (if Truthy(m.url) then m.url else None)
  {
    var e0 := Entry("dc:title", NonEmptyOr(m.title));
    var e1 := Entry("dc:description", NonEmptyOr(m.description));
    var e2 := Entry("dc:bibliographicCitation", NonEmptyOr(m.citation));
    var e3 := Entry("dc:identifier", NonEmptyOr(m.url));
    var e4 := Entry("dc:license", LicenseValue(m, find));
    var r := CommonProps(m, find);
    assert r == e0 + (e1 + (e2 + (e3 + e4)));
    Dicts.GetAppend(e3, e4, "dc:identifier");
    Dicts.GetAppend(e2, e3 + e4, "dc:identifier");
    Dicts.GetAppend(e2, e3 + e4, "dc:bibliographicCitation");
    Dicts.GetAppend(e1, e2 + (e3 + e4), "dc:identifier");
    Dicts.GetAppend(e1, e2 + (e3 + e4), "dc:bibliographicCitation");
    Dicts.GetAppend(e1, e2 + (e3 + e4), "dc:description");
    Dicts.GetAppend(e0, e1 + (e2 + (e3 + e4)), "dc:identifier");
    Dicts.GetAppend(e0, e1 + (e2 + (e3 + e4)), "dc:bibliographicCitation");
    Dicts.GetAppend(e0, e1 + (e2 + (e3 + e4)), "dc:description");
    Dicts.GetAppend(e0, e1 + (e2 + (e3 + e4)), "dc:title");
    Dicts.HasKeyAppend(e3, e4, "dc:bibliographicCitation");
    Dicts.HasKeyAppend(e3, e4, "dc:description");
    Dicts.HasKeyAppend(e3, e4, "dc:title");
    Dicts.HasKeyAppend(e2, e3 + e4, "dc:description");
    Dicts.HasKeyAppend(e2, e3 + e4, "dc:title");
    Dicts.HasKeyAppend(e1, e2 + (e3 + e4), "dc:title");
  }

  /** `dc:license` is the known license's URL when the catalogue knows the license,
      else the license text when it is truthy, else absent. */
  lemma CommonPropsLicense(m: Metadata, find: string -> Option<License>)
    ensures var r := CommonProps(m, find);
            var known := KnownLicense(m, find);
            && (known.Some? ==> Dicts.Get(r, "dc:license") == Some(known.value.url))
            && (known.None? ==> Dicts.Get(r, "dc:license") == (if Truthy(m.license) then m.license else None))
  {
    var e0 := Entry("dc:title", NonEmptyOr(m.title));
    var e1 := Entry("dc:description", NonEmptyOr(m.description));
    var e2 := Entry("dc:bibliographicCitation", NonEmptyOr(m.citation));
    var e3 := Entry("dc:identifier", NonEmptyOr(m.url));
    var e4 := Entry("dc:license", LicenseValue(m, find));
    var r := CommonProps(m, find);
    assert r == (e0 + e1 + e2 + e3) + e4;
    Dicts.GetAppend(e0 + e1 + e2 + e3, e4, "dc:license");
    assert !Dicts.HasKey(e0 + e1 + e2 + e3, "dc:license") by {
      Dicts.HasKeyAppend(e0, e1, "dc:license");
      Dicts.HasKeyAppend(e0 + e1, e2, "dc:license");
      Dicts.HasKeyAppend(e0 + e1 + e2, e3, "dc:license");
    }
  }

  /** The heading of the README: the title, or `Dataset <id>` without one. */
  function Heading(m: Metadata): string {
    if Truthy(m.title) then m.title.value else "Dataset " + PyStr(m.id)
  }

  const CiteReleased := "the DOI of the [particular released version](../../releases/) you were using"

  /** `["  > " + line for line in lines]` */
  function Quote(lines: seq<string>): (r: seq<string>)
    ensures |r| == |lines|
    ensures forall i :: 0 <= i < |lines| ==> r[i] == "  > " + lines[i]
  {
    seq(|lines|, i requires 0 <= i < |lines| => "  > " + lines[i])
  }

  function CitationLines(m: Metadata): seq<string> {
    if Truthy(m.citation) then
      ["- the original source"] + Quote(Strings.Split(m.citation.value, "\n"))
      + ["- the derived dataset using " + CiteReleased]
    else ["this dataset using " + CiteReleased]
  }

  function OptionalLine(present: bool, line: string): seq<string> {
    if present then [line] else []
  }

  /** The lines `markdown()` joins with newlines. */
  function MarkdownLines(m: Metadata): (r: seq<string>)
    ensures |r| >= 4
    ensures r[0] == "# " + Heading(m) + "\n"
    ensures r[1] == "## How to cite\n\nIf you use these data please cite"
    ensures Truthy(m.citation) ==> |r| >= 5 + |Strings.Split(m.citation.value, "\n")|
    ensures Truthy(m.citation) ==>
      var quoted := Quote(Strings.Split(m.citation.value, "\n"));
      r[2] == "- the original source" && r[3..3 + |quoted|] == quoted
    ensures Truthy(m.url) ==> r[|r| - 1] == "Available online at " + m.url.value + "\n"
  {
    var head := ["# " + Heading(m) + "\n", "## How to cite\n\nIf you use these data please cite"];
    var cite := CitationLines(m);
    var tail := ["\n## Description\n\n"]
      + OptionalLine(Truthy(m.description), OrEmpty(m.description) + "\n")
      + OptionalLine(Truthy(m.license), "This dataset is licensed under a " + OrEmpty(m.license) + " license\n")
      + OptionalLine(Truthy(m.url), "Available online at " + OrEmpty(m.url) + "\n");
    var r := head + cite + tail;
    assert r[..2] == head;
    assert r[2..2 + |cite|] == cite;
    assert Truthy(m.citation) ==> cite[1..|cite| - 1] == Quote(Strings.Split(m.citation.value, "\n"));
    r
  }

  /** `markdown()`: the README head. */
  function Markdown(m: Metadata): (r: string)
    ensures Strings.StartsWith(r, "# " + Heading(m) + "\n")
  {
    var lines := MarkdownLines(m);
    Strings.JoinStartsWithFirst(lines, "\n");
    Strings.Join(lines, "\n")
  }

  /** The quoted lines give the citation back: removing each `  > ` and joining with
      newlines yields the citation text. */
  lemma QuotedCitationRoundTrip(citation: string)
    ensures var quoted := Quote(Strings.Split(citation, "\n"));
            Strings.Join(seq(|quoted|, i requires 0 <= i < |quoted| => quoted[i][4..]), "\n") == citation
  {
    var parts := Strings.Split(citation, "\n");
    var quoted := Quote(parts);
    var back := seq(|quoted|, i requires 0 <= i < |quoted| => quoted[i][4..]);
    assert back == parts by {
      forall i | 0 <= i < |parts| ensures back[i] == parts[i] {
        assert quoted[i] == "  > " + parts[i];
      }
    }
    Strings.JoinSplit(citation, "\n");
  }

  /** A row of the contributor table as a record. Python compares dicts without regard
      to key order, so a record is a map. */
  type Record = map<string, string>

  /** The first markdown table of the contributors file: its header and its rows. */
  datatype Table = Table(header: seq<string>, rows: seq<seq<string>>)

  /** `zip(header, row)`: pairs up to the shorter of the two. */
  function Zip(header: seq<string>, row: seq<string>): (r: seq<(string, string)>)
    ensures |r| == if |header| <= |row| then |header| else |row|
    ensures forall i :: 0 <= i < |r| ==> r[i] == (header[i], row[i])
  {
    var n := if |header| <= |row| then |header| else |row|;
    seq(n, i requires 0 <= i < n => (header[i], row[i]))
  }

  /** `{k.lower(): v for k, v in pairs}` */
  function LowerKeys(pairs: seq<(string, string)>): (r: Record)
    ensures forall k :: k in r <==> exists i :: 0 <= i < |pairs| && Strings.Lower(pairs[i].0) == k
  {
    if |pairs| == 0 then map[]
    else
      var init := pairs[..|pairs| - 1];
      var last := pairs[|pairs| - 1];
      var r := LowerKeys(init)[Strings.Lower(last.0) := last.1];
      assert forall k :: k in r <==> exists i :: 0 <= i < |pairs| && Strings.Lower(pairs[i].0) == k by {
        forall k | k in r ensures exists i :: 0 <= i < |pairs| && Strings.Lower(pairs[i].0) == k {
          if k != Strings.Lower(last.0) {
            var i :| 0 <= i < |init| && Strings.Lower(init[i].0) == k;
            assert pairs[i] == init[i];
          }
        }
        forall k | exists i :: 0 <= i < |pairs| && Strings.Lower(pairs[i].0) == k ensures k in r {
          var i :| 0 <= i < |pairs| && Strings.Lower(pairs[i].0) == k;
          if i < |init| {
            assert init[i] == pairs[i];
          }
        }
      }
      r
  }

  /** Every key of the record is in lowercase, and a key takes the value of the last
      column whose lowered name it is. */
  lemma {:induction false} LowerKeysLastWins(pairs: seq<(string, string)>, i: nat)
    requires i < |pairs|
    requires forall j :: i < j < |pairs| ==> Strings.Lower(pairs[j].0) != Strings.Lower(pairs[i].0)
    ensures Strings.Lower(pairs[i].0) in LowerKeys(pairs)
    ensures LowerKeys(pairs)[Strings.Lower(pairs[i].0)] == pairs[i].1
  {
    var init := pairs[..|pairs| - 1];
    if i < |pairs| - 1 {
      assert init[i] == pairs[i];
      LowerKeysLastWins(init, i);
    }
  }

  /** The keys of a row record are lowercase. */
  lemma LowerKeysAreLower(pairs: seq<(string, string)>, k: string)
    requires k in LowerKeys(pairs)
    ensures Strings.Lower(k) == k
  {
    var i :| 0 <= i < |pairs| && Strings.Lower(pairs[i].0) == k;
    Strings.LowerIdempotent(pairs[i].0);
  }

  /** `nfilter([r.strip().lower() for r in row.get('role', '').split(',')])`: pieces are
      stripped before the empty ones are dropped. */
  function Roles(rec: Record): (r: seq<string>)
    ensures forall x :: x in r ==> x != "" && Strings.Lower(x) == x
  {
    Strings.NonEmpty(Seqs.Map(RoleName, Strings.Split(RoleCell(rec), ",")))
  }

  /** `row.get('role', '')`. */
  function RoleCell(rec: Record): string {
    if "role" in rec then rec["role"] else ""
  }

  /** One comma-separated piece of the role cell, stripped and lower-cased. */
  function RoleName(piece: string): (r: string)
    ensures Strings.Lower(r) == r
  {
    Strings.LowerIdempotent(Strings.Strip(piece));
    Strings.Lower(Strings.Strip(piece))
  }

  /** The roles are exactly the non-empty stripped, lower-cased pieces of the role cell. */
  lemma RolesMembers(rec: Record)
    ensures forall x :: x in Roles(rec) <==>
      x != "" && exists p :: p in Strings.Split(RoleCell(rec), ",") && x == Strings.Lower(Strings.Strip(p))
  {
    Seqs.MapMembers(RoleName, Strings.Split(RoleCell(rec), ","));
  }

  /** What one role of one row does: make the person a creator, make them a
      contributor of some type, or raise `KeyError` for a role without a type. */
  datatype Assignment = AsCreator(person: Record) | AsContributor(person: Record) | Unknown(role: string)

  /** The branch of the loop body for `role`, given the row without its `role` column.
      Only the strict mode fails on a role it does not know. */
  function Assign(person: Record, role: string, strict: bool): (a: Assignment)
    ensures a.AsCreator? <==> role in CreatorRoles
    ensures a.AsCreator? ==> a.person == person
    ensures a.Unknown? <==> strict && role !in CreatorRoles && role !in TypeByLowerName
    ensures a.Unknown? ==> a.role == role
    ensures a.AsContributor? ==>
      && "type" in a.person
      && a.person == person["type" := a.person["type"]]
      && (role in TypeByLowerName ==> a.person["type"] in ContributorTypes && Strings.Lower(a.person["type"]) == role)
      && (role !in TypeByLowerName ==> a.person["type"] == "Other")
  {
    TypeByLowerNameValues();
    if role in CreatorRoles then AsCreator(person)
    else if role in TypeByLowerName then AsContributor(person["type" := TypeByLowerName[role]])
    else if strict then Unknown(role)
    else AsContributor(person["type" := "Other"])
  }

  /** The assignments of one row, one per role. */
  function RowAssignments(header: seq<string>, row: seq<string>, strict: bool): (r: seq<Assignment>)
    ensures var rec := LowerKeys(Zip(header, row));
            && |r| == |Roles(rec)|
            && forall i :: 0 <= i < |r| ==> r[i] == Assign(rec - {"role"}, Roles(rec)[i], strict)
  {
    var rec := LowerKeys(Zip(header, row));
    var roles := Roles(rec);
    seq(|roles|, i requires 0 <= i < |roles| => Assign(rec - {"role"}, roles[i], strict))
  }

  /** The assignments of all rows, in table order. */
  function TableAssignments(header: seq<string>, rows: seq<seq<string>>, strict: bool): seq<Assignment> {
    if |rows| == 0 then []
    else RowAssignments(header, rows[0], strict) + TableAssignments(header, rows[1..], strict)
  }

  /** Whether the assignment puts a person into the creators (`creators`) or into the
      contributors. */
  predicate Picks(a: Assignment, creators: bool) {
    if creators then a.AsCreator? else a.AsContributor?
  }

  /** The people the assignments put into one list, in order and with repetitions: the
      reference the de-duplicating loop is compared against. */
  function Picked(assignments: seq<Assignment>, creators: bool): (r: seq<Record>)
    ensures |r| <= |assignments|
  {
    if |assignments| == 0 then []
    else
      var init := assignments[..|assignments| - 1];
      var a := assignments[|assignments| - 1];
      Picked(init, creators) + (if Picks(a, creators) then [a.person] else [])
  }

  /** A person is picked exactly when some assignment of the right kind names them. */
  lemma {:induction false} PickedMembers(assignments: seq<Assignment>, creators: bool, c: Record)
    ensures c in Picked(assignments, creators) <==>
      exists i :: 0 <= i < |assignments| && Picks(assignments[i], creators) && assignments[i].person == c
  {
    if |assignments| > 0 {
      var init := assignments[..|assignments| - 1];
      var a := assignments[|assignments| - 1];
      PickedMembers(init, creators, c);
      if c in Picked(init, creators) {
        var i :| 0 <= i < |init| && Picks(init[i], creators) && init[i].person == c;
        assert assignments[i] == init[i];
      }
      if exists i :: 0 <= i < |assignments| && Picks(assignments[i], creators) && assignments[i].person == c {
        var i :| 0 <= i < |assignments| && Picks(assignments[i], creators) && assignments[i].person == c;
        if i < |init| {
          assert init[i] == assignments[i];
        }
      }
    }
  }

  /** Without `strict`, every role yields a creator or a contributor. */
  lemma {:induction false} NonStrictNeverFails(header: seq<string>, rows: seq<seq<string>>)
    ensures forall i :: 0 <= i < |TableAssignments(header, rows, false)| ==> !TableAssignments(header, rows, false)[i].Unknown?
  {
    if |rows| > 0 {
      NonStrictNeverFails(header, rows[1..]);
      var r: seq<Assignment> := RowAssignments(header, rows[0], false);
      var t: seq<Assignment> := TableAssignments(header, rows[1..], false);
      assert TableAssignments(header, rows, false) == r + t;
      forall i | 0 <= i < |r + t| ensures !(r + t)[i].Unknown? {
        if i >= |r| {
          assert (r + t)[i] == t[i - |r|];
        } else {
          var rec := LowerKeys(Zip(header, rows[0]));
          assert (r + t)[i] == r[i] == Assign(rec - {"role"}, Roles(rec)[i], false);
        }
      }
    }
  }

  datatype People = People(creators: seq<Record>, contributors: seq<Record>)

  /** The loop of `get_creators_and_contributors` over the assignments: a person joins a
      list unless an equal record is already there, and an unknown role aborts. */
  function Collect(assignments: seq<Assignment>): (r: Result<People>)
    ensures r.Failure? <==> exists i :: 0 <= i < |assignments| && assignments[i].Unknown?
  {
    if |assignments| == 0 then Success(People([], []))
    else
      var init := assignments[..|assignments| - 1];
      var a := assignments[|assignments| - 1];
      var prev := Collect(init);
      if prev.Failure? then
        var i :| 0 <= i < |init| && init[i].Unknown?;
        assert assignments[i] == init[i];
        prev
      else if a.Unknown? then
        Failure(KeyError(a.role))
      else
        assert forall i :: 0 <= i < |assignments| ==> !assignments[i].Unknown? by {
          forall i | 0 <= i < |assignments| ensures !assignments[i].Unknown? {
            if i < |init| {
              assert assignments[i] == init[i];
            }
          }
        }
        var p := prev.value;
        if a.AsCreator? then Success(People(Seqs.AppendUnique(p.creators, a.person), p.contributors))
        else Success(People(p.creators, Seqs.AppendUnique(p.contributors, a.person)))
  }

  /** On success the two lists are the people picked for each, repetitions removed and
      first appearances kept in order. */
  lemma {:induction false} CollectIsDedup(assignments: seq<Assignment>)
    requires Collect(assignments).Success?
    ensures Collect(assignments).value.creators == Seqs.Dedup(Picked(assignments, true))
    ensures Collect(assignments).value.contributors == Seqs.Dedup(Picked(assignments, false))
  {
    if |assignments| > 0 {
      var init := assignments[..|assignments| - 1];
      var a := assignments[|assignments| - 1];
      assert assignments == init + [a];
      var p := CollectSnoc(init, a);
      CollectIsDedup(init);
      DedupPickedSnoc(init, a, true);
      DedupPickedSnoc(init, a, false);
    }
  }

  /** One more step of the loop after a successful prefix. */
  lemma CollectSnoc(init: seq<Assignment>, a: Assignment) returns (p: People)
    requires Collect(init + [a]).Success?
    ensures Collect(init).Success? && !a.Unknown?
    ensures p == Collect(init).value
    ensures Collect(init + [a]).value ==
      if a.AsCreator? then People(Seqs.AppendUnique(p.creators, a.person), p.contributors)
      else People(p.creators, Seqs.AppendUnique(p.contributors, a.person))
  {
    assert (init + [a])[..|init|] == init;
    assert (init + [a])[|init|] == a;
    p := Collect(init).value;
  }

  lemma DedupPickedSnoc(init: seq<Assignment>, a: Assignment, creators: bool)
    requires !a.Unknown?
    ensures Seqs.Dedup(Picked(init + [a], creators)) ==
      if Picks(a, creators) then Seqs.AppendUnique(Seqs.Dedup(Picked(init, creators)), a.person)
      else Seqs.Dedup(Picked(init, creators))
  {
    PickedSnoc(init, a, creators);
    if Picks(a, creators) {
      Seqs.DedupSnoc(Picked(init, creators), a.person);
    } else {
      assert Picked(init, creators) + [] == Picked(init, creators);
    }
  }

  lemma PickedSnoc(init: seq<Assignment>, a: Assignment, creators: bool)
    ensures Picked(init + [a], creators) == Picked(init, creators) + (if Picks(a, creators) then [a.person] else [])
  {
    assert (init + [a])[..|init|] == init;
  }

  /** The error is the `KeyError` of the first role without a type. */
  lemma {:induction false} CollectFailsAtFirstUnknown(assignments: seq<Assignment>, i: nat)
    requires i < |assignments| && assignments[i].Unknown?
    requires forall j :: 0 <= j < i ==> !assignments[j].Unknown?
    ensures Collect(assignments) == Failure(KeyError(assignments[i].role))
  {
    var init := assignments[..|assignments| - 1];
    if i == |assignments| - 1 {
      assert forall j :: 0 <= j < |init| ==> !init[j].Unknown? by {
        forall j | 0 <= j < |init| ensures !init[j].Unknown? {
          assert init[j] == assignments[j];
        }
      }
    } else {
      assert init[i] == assignments[i];
      assert forall j :: 0 <= j < i ==> !init[j].Unknown? by {
        forall j | 0 <= j < i ensures !init[j].Unknown? {
          assert init[j] == assignments[j];
        }
      }
      CollectFailsAtFirstUnknown(init, i);
    }
  }

  /** `get_creators_and_contributors(text, strict)`: no table gives two empty lists. */
  function GetCreatorsAndContributors(table: Option<Table>, strict: bool): (r: Result<People>)
    ensures table.None? ==> r == Success(People([], []))
    ensures table.Some? ==> r == Collect(TableAssignments(table.value.header, table.value.rows, strict))
    ensures !strict ==> r.Success?
    ensures r.Success? ==> Seqs.NoDup(r.value.creators) && Seqs.NoDup(r.value.contributors)
  {
    if table.None? then Success(People([], []))
    else
      var assignments := TableAssignments(table.value.header, table.value.rows, strict);
      NonStrictNeverFails(table.value.header, table.value.rows);
      var r := Collect(assignments);
      if r.Success? then
        CollectIsDedup(assignments);
        r
      else r
  }
}
