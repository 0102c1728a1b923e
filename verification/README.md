# A Dafny model of the core of cldfbench

cldfbench is a Python toolkit for curating CLDF (Cross-Linguistic Data Formats)
datasets. A dataset lives in a directory holding `metadata.json`, a `raw/` directory with
the source data, an `etc/` directory for configuration and a `cldf/` directory for the
CLDF output. A `Dataset` class in a Python module ties these together, and command-line
commands create, check, diff and release datasets.

This project models the logic of that core as pure Dafny functions over immutable values,
and proves properties of it:

- **Data directories.** `datadir.py` covers the real length of a sequence, list padding,
  the expansion of ODS spreadsheet cells and rows by their repeat counts, and how file
  names resolve.
- **Metadata.** `metadata.py` covers the `metadata.json` fields, the common CLDF
  properties, the Markdown rendering, the license mapping for Zenodo, and how creators
  and contributors are picked out of a contributor table.
- **Repositories and utilities.** `repository.py` covers the origin URL, the GitHub
  repository name and the JSON-LD description. `util.py` covers aligned output and
  filtering the requirements list.
- **The CLDF writer.** `cldf.py` covers the spec, making the output directory clean,
  entering the writer scope, and writing provenance and default properties on exit.
- **Datasets.** `dataset.py` covers initialisation, directory properties, spec lookup,
  README generation, `makecldf`, and finding datasets by id or module.
  `cli_util.py` covers resolving datasets and commands from the command line.
- **Release commands.** `commands/diff.py`, `commands/zenodo.py`, `commands/check.py`
  and `commands/media.py` are modelled.
- **Scaffolding and CI.** `scaffold.py` covers rendering a dataset skeleton from
  template directories. `ci.py` covers the GitHub Actions badge and workflow set-up.
- **Catalogs.** `catalogs.py` covers the cached Glottolog lookups and the walk up a
  languoid's lineage.

What the code reads from the outside world appears as a parameter. This covers the file
system, git, `pip freeze`, the license catalogue, pycldf, the clock and user input.
Failures the source signals by raising appear as a `Result` value carrying the exception
kind.

Shared helper modules:

- `Wrappers` holds `Option`, `Result` and the exception kinds.
- `Strings` models the Python string methods the code uses.
- `Seqs` holds sequence helpers.
- `Dicts` models Python's insertion-ordered `dict` as an association list.
- `Paths` models `pathlib` paths as values.
- `Sorting` models sorting strings by code point.
- `Json` models JSON values.

Every source cell below is a path relative to the repository root.

## Model

| member | source | states |
|---|---|---|
| DataDir.RealLen | src/cldfbench/datadir.py:44-49 | the result is at most the length; the predicate is false at every index from the result on and true just before it, so it is one past the last index where the predicate holds, or 0 |
| DataDir.RealLenAppendFalse | src/cldfbench/datadir.py:44-49 | appending an element the predicate rejects leaves the real length unchanged |
| DataDir.PadList | src/cldfbench/datadir.py:77-81 | a list already `length` long or longer comes back unchanged; a shorter one keeps its elements as a prefix and is filled with empty strings to exactly `length` |
| DataDir.ExpandLength | src/cldfbench/datadir.py:71-74 | expanding (value, count) pairs yields as many elements as the positive counts add up to |
| DataDir.ExpandAppend | src/cldfbench/datadir.py:71-74 | expanding a concatenation is the concatenation of the expansions |
| DataDir.ExpandBlock | src/cldfbench/datadir.py:71-74 | the copies of pair `k` form one consecutive block that starts right after the copies of all earlier pairs |
| DataDir.ExpandMembers | src/cldfbench/datadir.py:71-74 | a value occurs in the expansion exactly when some pair carries it with a positive count |
| DataDir.CellPairs | src/cldfbench/datadir.py:60-68 | one (text, count) pair per cell, in order; a missing `number-columns-repeated` counts as 1 |
| DataDir.OdsCellsKeepsAll | src/cldfbench/datadir.py:59-74 | a row whose last cell has text loses no cell: it is expanded cell by cell |
| DataDir.OdsCellsIgnoresTrailingEmpty | src/cldfbench/datadir.py:70-74 | an empty cell at the end of a row leaves the row unchanged, however often it is repeated |
| DataDir.OdsCellsBlock | src/cldfbench/datadir.py:71-74 | each kept cell's text appears `number-columns-repeated` times in a row, after the copies of the cells before it |
| DataDir.Width | src/cldfbench/datadir.py:97 | the maximum row length: no row is longer, and some row (if there is one) has exactly that length |
| DataDir.WidthIsMax | src/cldfbench/datadir.py:97 | any bound that every row respects and some row reaches is the width |
| DataDir.RowValues | src/cldfbench/datadir.py:85-93 | one expanded cell list per row, in row order |
| DataDir.RowCounts | src/cldfbench/datadir.py:88-90 | one repeat count per row; a missing `number-rows-repeated` counts as 1 |
| DataDir.Padded | src/cldfbench/datadir.py:98 | every row padded to the given width, each with its own repeat count |
| DataDir.Normalise | src/cldfbench/datadir.py:95-102 | every row of the result has exactly the maximum row width |
| DataDir.OdsToList | src/cldfbench/datadir.py:84-102 | a table without rows raises `ValueError`, as `max()` of nothing does; otherwise every output row is exactly as wide as the widest row |
| DataDir.OdsToListKeepsInteriorRows | src/cldfbench/datadir.py:95-102 | when the last row has cells, every row is kept, interior empty rows included, padded and repeated |
| DataDir.OdsToListIgnoresTrailingEmptyRow | src/cldfbench/datadir.py:95-102 | a trailing row without cells leaves the result unchanged, however often it is repeated |
| DataDir.OdsToListRowBlock | src/cldfbench/datadir.py:99-102 | each kept row appears `number-rows-repeated` times in a row, padded, after the copies of the rows before it |
| DataDir.ResolvePath | src/cldfbench/datadir.py:118-127 | a path argument is used as given; a string containing `/` is parsed as a path; a single path component names a file inside the data directory, whose parent is that directory |
| Util.MaxLabel | src/cldfbench/util.py:16 | the longest label length: no label is longer and one has it |
| Util.IterAligned | src/cldfbench/util.py:13-18 | one line per pair, and no line for no pairs |
| Util.IterAlignedColumns | src/cldfbench/util.py:16-18 | each line is the prefix, then the label padded with spaces to the longest label, one space, then the value or nothing for `None`, so all values start in the same column |
| Util.RequirementName | src/cldfbench/util.py:45-51 | a freeze line names a package exactly when it contains `==` or `egg=`; with `==` the name is the text before the first `==` |
| Util.ImportedNames | src/cldfbench/util.py:26 | the lower-cased top-level package of every loaded module, and nothing else |
| Util.Requirements | src/cldfbench/util.py:45-53 | a freeze line is kept exactly when its package, lower-cased or without `python-`, is imported |
| Util.RequirementsOfConcatenation | src/cldfbench/util.py:45-53 | filtering two blocks of freeze output joined by a newline is filtering each and concatenating, so the filter works line by line and keeps the order |
| Repository.Url | src/cldfbench/repository.py:29-40 | no origin gives `None`; one trailing `.git` is removed, and adding it back gives the origin URL; any other URL is kept |
| Repository.UrlStripsOneSuffix | src/cldfbench/repository.py:36-37 | the URL of `u + ".git"` is exactly `u`, even when `u` itself ends in `.git` |
| Repository.MatchAt | src/cldfbench/repository.py:44 | a match at a position is `github.com/`, a non-empty org without `/`, a `/` and a non-empty repository name without `.`; the name runs to the end of the text or up to a `.`, so it is the longest one the greedy `[^.]+` can take |
| Repository.Search | src/cldfbench/repository.py:44 | `re.search` finds the match at the leftmost position where the pattern matches, with no match at any earlier position, or reports that no position matches |
| Repository.FirstMatch | src/cldfbench/repository.py:44 | the position found is the leftmost one from the start at which the pattern matches, or one past the end when none does |
| Repository.GithubRepo | src/cldfbench/repository.py:42-46 | a result is `org/repo` for the GitHub path at the leftmost matching position of the URL, with the longest repository name before a `.`; there is no result exactly when no position of the URL, or of `''` for no URL, matches |
| Repository.GithubRepoOfHostUrl | src/cldfbench/repository.py:44-46 | for any prefix in which `github.com/` does not start, followed by `github.com/org/repo` and then nothing or a suffix starting with `.`, the result is `org/repo` |
| Repository.FirstMatchAt | src/cldfbench/repository.py:44 | a position is the leftmost match when it matches and no earlier position does |
| Repository.MatchAfter | src/cldfbench/repository.py:44 | right after a prefix, `github.com/org/repo` followed by nothing or by `.` matches with exactly that org and repository name |
| Repository.MatchAtRuns | src/cldfbench/repository.py:44 | when the host occurs at a position and both runs are non-empty, the match consists of the two runs |
| Repository.GithubRepoOfHttpsUrl | src/cldfbench/repository.py:44-46 | `https://github.com/org/repo`, with or without `.git` or another `.` suffix, gives `org/repo` |
| Repository.RunEndAt | src/cldfbench/repository.py:44 | a greedy run of characters other than a stop character ends exactly at the first stop character or at the end |
| Repository.JsonLd | src/cldfbench/repository.py:62-74 | the description is a valid dict that starts with `rdf:type`, then `dc:title` |
| Repository.JsonLdBase | src/cldfbench/repository.py:66-72 | `rdf:type` is `prov:Entity` and `dc:title` is `Repository`; `rdf:about` is present exactly for a truthy URL and holds it; `dc:created` is the `describe()` output; no other key is set |
| Repository.JsonLdRdfValues | src/cldfbench/repository.py:66-71 | in the full description, `rdf:type` is `prov:Entity`, and `rdf:about` is present exactly when the URL is truthy |
| Repository.JsonLdCreated | src/cldfbench/repository.py:72-73 | `dc:created` is the `describe()` output unless a `created` keyword overrides it |
| Repository.JsonLdKeywords | src/cldfbench/repository.py:73 | every keyword `k` is stored under `dc:k` with its value |
| Repository.JsonLdKeyOrder | src/cldfbench/repository.py:66-73 | without overriding keywords, the keys are the fixed ones, then `dc:` plus each keyword in sorted order |
| Repository.KeywordKeyNotFixed | src/cldfbench/repository.py:73 | a keyword other than `title` and `created` gives a key that is not one of the fixed ones |
| Repository.DcEntriesProps | src/cldfbench/repository.py:73 | every key of the keyword entries is `dc:` followed by a keyword, and no key occurs twice |
| Repository.DcEntriesKeys | src/cldfbench/repository.py:73 | the keyword entries come in sorted keyword order |
| Repository.DcEntryGet | src/cldfbench/repository.py:73 | the keyword entries hold every keyword's value under its `dc:` key |
| Metadata.TypeByLowerNameLowers | src/cldfbench/metadata.py:16-39 | every contributor type can be looked up by its lower-cased name and maps back to itself |
| Metadata.TypeByLowerNameValues | src/cldfbench/metadata.py:16-39 | every entry of the lookup table is a contributor type whose lower-cased name is its key |
| Metadata.KnownLicense | src/cldfbench/metadata.py:408-411 | an empty or missing license is never looked up and gives `None` |
| Metadata.ZenodoLicense | src/cldfbench/metadata.py:413-416 | a result exists exactly when the license is known and its id is on the list of licenses Zenodo accepts; it is that id |
| Metadata.Entry | src/cldfbench/metadata.py:423-434 | `if v: res[k] = v` adds the key `k` with the value, or no key |
| Metadata.RankedIsValid | src/cldfbench/metadata.py:418-435 | keys appended in strictly increasing rank never repeat |
| Metadata.AppendEntryRanked | src/cldfbench/metadata.py:418-435 | appending a key that outranks all present keys keeps the ranks strictly increasing |
| Metadata.CommonProps | src/cldfbench/metadata.py:418-435 | the properties come in the fixed order title, description, citation, identifier, license, each at most once |
| Metadata.CommonPropsFields | src/cldfbench/metadata.py:423-430 | `dc:title`, `dc:description`, `dc:bibliographicCitation` and `dc:identifier` are present exactly for a truthy field and carry its value |
| Metadata.CommonPropsLicense | src/cldfbench/metadata.py:431-434 | a known license gives its URL as `dc:license`; otherwise a truthy license string is used as given; otherwise there is no `dc:license` |
| Metadata.Quote | src/cldfbench/metadata.py:444 | each citation line is prefixed with `  > `, one output line per input line |
| Metadata.MarkdownLines | src/cldfbench/metadata.py:437-464 | the lines start with the heading (the title, or `Dataset <id>`) and the citation request; with a citation, the quoted citation lines follow `- the original source`; with a URL, the last line names it |
| Metadata.Markdown | src/cldfbench/metadata.py:437-466 | the text starts with the heading line |
| Metadata.QuotedCitationRoundTrip | src/cldfbench/metadata.py:444 | stripping the quote prefix from the quoted lines and joining them with newlines gives back the citation |
| Metadata.Zip | src/cldfbench/metadata.py:478 | pairs header and row cell by cell, stopping at the shorter one |
| Metadata.LowerKeys | src/cldfbench/metadata.py:478 | the keys are exactly the lower-cased header names |
| Metadata.LowerKeysLastWins | src/cldfbench/metadata.py:478 | when two header names lower-case alike, the later cell's value is kept |
| Metadata.LowerKeysAreLower | src/cldfbench/metadata.py:478 | every key is lower-case |
| Metadata.Roles | src/cldfbench/metadata.py:479 | every role is non-empty and lower-case |
| Metadata.RolesMembers | src/cldfbench/metadata.py:479 | a role is listed exactly when it is non-empty and is some comma-separated piece of the `role` cell (or of `''` without one), stripped and lower-cased |
| Metadata.Assign | src/cldfbench/metadata.py:480-490 | `author`, `creator` and `maintainer` make a creator with the row's other cells; any other role makes a contributor whose `type` is the matching contributor type, or `Other` when not strict; in strict mode an unknown role is an error |
| Metadata.RowAssignments | src/cldfbench/metadata.py:477-480 | one assignment per role of the row, each for the row without its `role` cell |
| Metadata.Picked | src/cldfbench/metadata.py:481-490 | the creators (or contributors) picked, at most one per assignment |
| Metadata.PickedMembers | src/cldfbench/metadata.py:481-490 | a record is picked exactly when some assignment of that kind carries it |
| Metadata.PickedSnoc | src/cldfbench/metadata.py:477-490 | one more assignment appends its person to the matching list only |
| Metadata.NonStrictNeverFails | src/cldfbench/metadata.py:487-488 | without strict mode, no role is ever unknown |
| Metadata.Collect | src/cldfbench/metadata.py:477-491 | collecting fails exactly when some assignment has an unknown role |
| Metadata.CollectFailsAtFirstUnknown | src/cldfbench/metadata.py:485-486 | the `KeyError` names the first unknown role |
| Metadata.CollectIsDedup | src/cldfbench/metadata.py:481-490 | the creators and the contributors are the picked records with duplicates removed, in first-occurrence order |
| Metadata.CollectSnoc | src/cldfbench/metadata.py:481-490 | one more assignment appends its person to the right list unless it is already there |
| Metadata.DedupPickedSnoc | src/cldfbench/metadata.py:482-490 | the deduplicated picks grow by at most the new person |
| Metadata.GetCreatorsAndContributors | src/cldfbench/metadata.py:469-491 | no table gives two empty lists; otherwise the assignments of all rows are collected; non-strict mode never fails; neither list holds a duplicate |
| Cldf.ModuleId | src/cldfbench/cldf.py:168-170 | a module given by name stays that name; a module given as a class is replaced by the class's name |
| Cldf.NewSpec | src/cldfbench/cldf.py:167-193 | the spec is built exactly when the module id is a known CLDF module and any given default metadata file loads; every failure is a `ValueError`; a given metadata path is used as given, and otherwise the module's own `<module>-metadata.json` under the package's `modules/` directory is used; the metadata file name defaults to the name of that path; data file names and zipped tables are kept |
| Cldf.NewSpecDefaultMetadata | src/cldfbench/cldf.py:188-193 | with no metadata path and no file name, the spec points at `modules/<module>-metadata.json` in the package and names its copy `<module>-metadata.json` |
| Cldf.DefaultMetadataFile | src/cldfbench/cldf.py:189-190 | for a module id without `/`, the default metadata file is `modules/<module>-metadata.json` inside the package directory |
| Cldf.SuffixedNameIsPart | src/cldfbench/cldf.py:189-190 | a module id without `/` plus the metadata suffix is a single path component |
| Cldf.MetadataPath | src/cldfbench/cldf.py:195-197 | with a directory, the metadata path is the file name inside that directory; without one, it is the file name parsed as a path; either way its last component is the metadata file name |
| Cldf.MakeClean | src/cldfbench/cldf.py:199-207 | cleaning fails exactly when no directory is set (`AttributeError`), when neither the directory nor its parent exists (`FileNotFoundError`, since `mkdir` is called without `parents`), or when a regular file is in the way (`FileExistsError`); afterwards `.gitattributes` exists, the only files left are `.gitattributes` and `README.md`, sub-directories and those two files survive unchanged, nothing new appears except `.gitattributes`, and a freshly created `.gitattributes` holds the CRLF rule for CSV files |
| Cldf.MakeCleanIdempotent | src/cldfbench/cldf.py:199-207 | cleaning a directory that has just been cleaned gives the same listing again |
| Cldf.NewWriter | src/cldfbench/cldf.py:39-51 | a given spec is used unchanged; without one, the writer gets a `Generic` spec on the dataset's CLDF directory or on `.`; a new writer has no open dataset and keeps the `clean` flag |
| Cldf.Handle | src/cldfbench/cldf.py:53-62 | the CLDF dataset is available exactly inside the writer scope; outside it, access fails with `AttributeError` |
| Cldf.FirstTable | src/cldfbench/cldf.py:90-92 | the lookup of a component finds the first table of that name, and finds none exactly when no table has that name |
| Cldf.Retarget | src/cldfbench/cldf.py:90-95 | after retargeting, the component's first table has the new URL; an existing table keeps its place and the table count, and a missing one is appended at the end; every other table is unchanged and every name stays in place |
| Cldf.FirstTableSameNames | src/cldfbench/cldf.py:90-92 | the table found for a component depends only on the sequence of table names |
| Cldf.FirstTableAppend | src/cldfbench/cldf.py:94-95 | appending a table changes the lookup only when no earlier table had the name, and then finds the appended one |
| Cldf.ApplyDataFnames | src/cldfbench/cldf.py:90-95 | applying the data file names keeps every existing table's name in place and leaves tables whose component has no custom file name untouched |
| Cldf.ApplyDataFnamesOthers | src/cldfbench/cldf.py:90-95 | a component without a custom file name is found at the same place, with the same table, as before |
| Cldf.ApplyDataFnamesTargets | src/cldfbench/cldf.py:90-95 | every component with a custom file name ends up with a table whose URL is that file name, whether the table existed or was added |
| Cldf.Enter | src/cldfbench/cldf.py:70-96 | entering fails with the cleaning error when cleaning is requested and fails (including a missing parent directory); otherwise it succeeds exactly when the metadata loads; it cleans exactly when asked; afterwards the dataset is open, holds the loaded properties, and has its tables retargeted to the custom data file names |
| Cldf.PropertyDefaults | src/cldfbench/cldf.py:108-117 | the first default property is `rdf:type` set to the DCAT Distribution URI |
| Cldf.PropertyDefaultsIds | src/cldfbench/cldf.py:108-112 | the defaults always set `rdf:type`; with a dataset they set `rdf:ID` to the dataset id; without one, `rdf:type` is the only default |
| Cldf.PropertyDefaultsValues | src/cldfbench/cldf.py:113-117 | for a dataset, a `dc:`/`dcat:` key takes its value from the common metadata properties first, and otherwise `dcat:accessURL` takes the repository URL when there is one |
| Cldf.CatalogSources | src/cldfbench/cldf.py:119-123 | there is at most one source per argument, and there are none exactly when no argument is a catalog |
| Cldf.RawSources | src/cldfbench/cldf.py:125-132 | there is at most one source per entry of `raw/`, and there are none exactly when no entry is a directory holding a repository |
| Cldf.Sources | src/cldfbench/cldf.py:109-132 | the dataset's own repository comes first; the list is empty exactly when there is no repository, no catalog argument and no repository under `raw/` |
| Cldf.RepoJsonLd | src/cldfbench/cldf.py:118 | a repository's provenance entry is a dictionary starting with `rdf:type` set to `prov:Entity`, then `dc:title`, with `rdf:about` exactly when the repository has a truthy URL |
| Cldf.Write | src/cldfbench/cldf.py:107-149 | writing succeeds exactly inside the writer scope with an output directory, and otherwise fails with `AttributeError`; properties already set are kept and missing keys take their defaults; `wasDerivedFrom` is added exactly when there are sources, and then holds all of them; `wasGeneratedBy` names the Python version, and the package list too when `requirements.txt` could be written into the output directory |
| Cldf.WriteKeepsKeyOrder | src/cldfbench/cldf.py:108-117 | the keys already present keep their order as a prefix of the written properties |
| Cldf.Exit | src/cldfbench/cldf.py:98-105 | leaving the writer scope writes, and succeeds exactly when the dataset is open and has an output directory; the written properties always carry `rdf:type` |
| Cldf.ExitIgnoresException | src/cldfbench/cldf.py:98-105 | leaving the scope because of an exception writes exactly what a normal exit writes |
| Dataset.Init | src/cldfbench/dataset.py:53-59 | a dataset lives in its declared directory, or else in the directory of its class's module; it reads `metadata.json` when that file exists and otherwise starts from empty metadata; either way the metadata's id is overwritten with the class's id |
| Dataset.InitIgnoresFileId | src/cldfbench/dataset.py:58-59 | two metadata files that differ only in their `id` give the same dataset |
| Dataset.SubDir | src/cldfbench/dataset.py:64-84 | `cldf_dir`, `raw_dir` and `etc_dir` are the children of that name of the dataset's directory |
| Dataset.CldfDir | src/cldfbench/dataset.py:64-70 | `cldf_dir` is the child `cldf` of the dataset directory |
| Dataset.RawDir | src/cldfbench/dataset.py:72-77 | `raw_dir` is the child `raw` of the dataset directory |
| Dataset.EtcDir | src/cldfbench/dataset.py:79-84 | `etc_dir` is the child `etc` of the dataset directory |
| Dataset.SpecsDict | src/cldfbench/dataset.py:96-107 | a single spec becomes a dictionary with the single key `None`; a dictionary of specs is used as it is |
| Dataset.SpecValues | src/cldfbench/dataset.py:184 | the spec values are those of the spec dictionary, in its order |
| Dataset.LookupSpec | src/cldfbench/dataset.py:128-129 | a spec object is used directly; a key succeeds exactly when the spec dictionary has it and then gives its spec; otherwise the lookup fails with `KeyError` |
| Dataset.LookupSingleSpec | src/cldfbench/dataset.py:96-107 | a dataset with a single spec finds it under the default key `None` |
| Dataset.CldfWriter | src/cldfbench/dataset.py:117-130 | a writer exists exactly when the spec is found; it uses that spec and the `clean` flag and is not yet inside its scope |
| Dataset.CldfReader | src/cldfbench/dataset.py:132-139 | a reader exists exactly when the spec is found, and reads that spec's metadata file |
| Dataset.FirstTitle | src/cldfbench/dataset.py:171-175 | the title found is the first line starting with `# `, and there is none exactly when no line does |
| Dataset.BadgeLoopAfterTitle | src/cldfbench/dataset.py:171-175 | once a title has been seen, every further line is copied unchanged |
| Dataset.BadgeLoopInserts | src/cldfbench/dataset.py:170-175 | the line loop inserts an empty line and the badge right after the first title line and nowhere else; without a title the lines are unchanged |
| Dataset.InsertBadge | src/cldfbench/dataset.py:169-176 | an empty badge leaves the README text unchanged |
| Dataset.InsertBadgeLines | src/cldfbench/dataset.py:169-176 | for a one-line badge, the lines of the new README are the old lines with an empty line and the badge inserted after the first title, and the text is unchanged when there is no title |
| Dataset.Listed | src/cldfbench/dataset.py:184-185 | the listed specs are exactly those whose metadata file exists |
| Dataset.ListedLines | src/cldfbench/dataset.py:184-189 | the listing succeeds exactly when every listed metadata path lies inside the dataset directory, and otherwise fails with `ValueError`; each spec gives one line, naming its module and its path relative to the dataset directory |
| Dataset.Readme | src/cldfbench/dataset.py:165-191 | the README is written exactly when the listing of the existing metadata files succeeds; read back line by line (when no listed line holds a newline) it is the badged markdown's lines, then an empty line, the `## CLDF Datasets` heading, an empty line, the intro line and an empty line, and then one line per listed spec in spec-dict order |
| Dataset.ReadmeText | src/cldfbench/dataset.py:176-191 | the section appended after any markdown adds, read line by line, the empty line, heading, empty line, intro line and empty line, then the listed lines in order |
| Dataset.SectionLines | src/cldfbench/dataset.py:178-183 | the fixed lines of the section contain no newline |
| Dataset.DefaultReadme | src/cldfbench/dataset.py:193-198 | the default README starts with the metadata's Markdown heading line |
| Dataset.MakeCldf | src/cldfbench/dataset.py:200-213 | a writer scope is opened exactly when there is a single spec, and it uses that spec with cleaning; `LICENSE` is written into the dataset directory exactly when the license is known and has a legal code, and then holds that legal code |
| Dataset.DefaultHook | src/cldfbench/dataset.py:157-223 | the default download and makecldf hooks return the no-op code and warn about the command, naming the dataset id |
| Dataset.FirstWithId | src/cldfbench/dataset.py:249-251 | the match found is the first registered dataset with that id, and there is none exactly when no dataset has it |
| Dataset.GetDataset | src/cldfbench/dataset.py:240-257 | the first registered dataset with the given id wins; only when none has it is the argument tried as a module path |
| Dataset.GetDatasetFirstMatch | src/cldfbench/dataset.py:249-251 | when dataset `i` is the first with the id, that dataset is returned, whatever comes after it |
| Dataset.Somes | src/cldfbench/dataset.py:269-270 | the filtered list holds exactly the datasets that were found |
| Dataset.GetDatasets | src/cldfbench/dataset.py:260-270 | `*` gives every registered dataset; with globbing, the result holds exactly the datasets loaded from the matching paths; otherwise it is the single dataset found, or nothing |
| Dataset.FromModule | src/cldfbench/dataset.py:273-287 | a path that is not a file gives nothing; otherwise the result is the first member that is a `Dataset` subclass without subclasses, and nothing when no member is |
| Dataset.FirstQualifying | src/cldfbench/dataset.py:285-287 | the member picked is the first qualifying one, and none is picked exactly when no member qualifies |
| CliUtil.GetDataset | src/cldfbench/cli_util.py:64-74 | the command-line lookup succeeds exactly when the dataset lookup for the entry point finds a dataset, and then returns it; otherwise it raises the invalid-spec `ParserError` naming the entry point and the spec |
| CliUtil.Respec | src/cldfbench/cli_util.py:83-84 | with `--glob`, or for the spec `_`, every `_` in the spec becomes `*` and all other characters stay; otherwise the arguments are unchanged |
| CliUtil.RespecUnderscore | src/cldfbench/cli_util.py:83-84 | the spec `_` becomes `*`, which selects all datasets |
| CliUtil.GetDatasets | src/cldfbench/cli_util.py:77-89 | after the spec is rewritten, the lookup succeeds exactly when it finds at least one dataset, returns them all, and otherwise raises the invalid-spec `ParserError` for the rewritten spec |
| CliUtil.GetDatasetsAll | src/cldfbench/cli_util.py:77-89 | the spec `_` yields every dataset registered for the entry point, and fails when there is none |
| CliUtil.ResolveCommand | src/cldfbench/cli_util.py:156 | a command name resolves to the dataset's `_cmd_<name>` method when it has one, else to `cmd_<name>`, and to nothing exactly when it has neither |
| CliUtil.WithDataset | src/cldfbench/cli_util.py:141-163 | a missing dataset is looked up from the arguments, and that failure is passed on; a callable runs on the dataset; a command name runs the resolved method, and raises `ParserError` when the dataset has no such command |
| CliUtil.RunEach | src/cldfbench/cli_util.py:172-175 | running over a list succeeds exactly when every run succeeds, and gives one result per dataset, in order |
| CliUtil.WithDatasets | src/cldfbench/cli_util.py:166-175 | a failed dataset lookup is passed on; otherwise the function runs on each dataset found |
| CliUtil.WithDatasetsCallable | src/cldfbench/cli_util.py:166-175 | for a callable, the results are exactly the callable applied to each dataset found, in order |
| DiffCommand.Classify | src/cldfbench/commands/diff.py:55-63 | a changed path outside `cldf/` is ignored |
| DiffCommand.NameOfJoined | src/cldfbench/commands/diff.py:57 | the file name of `<dir>/<name>` is `name` |
| DiffCommand.ClassifyByName | src/cldfbench/commands/diff.py:55-63 | a path under `cldf/` is classified by its file name alone: hidden files and `requirements.txt` are ignored, names ending in `metadata.json` are metadata, and anything else is a data file |
| DiffCommand.ScanFrom | src/cldfbench/commands/diff.py:55-63 | the scan stops with a data change exactly when some path is a data file, and then reports the first such path; otherwise it reports the last changed metadata file, or the starting value when there was none |
| DiffCommand.ScanChanges | src/cldfbench/commands/diff.py:46-63 | over a list of changed paths, a data change is reported exactly when some changed path is a CLDF data file, and it names one of them; otherwise a changed metadata file is reported exactly when there is one, and it is the last |
| DiffCommand.LogDiff | src/cldfbench/commands/diff.py:65-74 | a difference is reported exactly when some new key is missing from the old dictionary or has a different value; every reported change comes from one new entry, every new or changed entry is reported, and there is at most one report per entry |
| DiffCommand.LogDiffOfEqual | src/cldfbench/commands/diff.py:65-74 | comparing a dictionary with itself reports nothing |
| DiffCommand.LogDiffLooksUpNewKeysOnly | src/cldfbench/commands/diff.py:65-74 | the reports depend on the old dictionary only through the values of the new keys, so keys dropped from the new dictionary are never reported |
| DiffCommand.EntryPair | src/cldfbench/commands/diff.py:77-78 | an entry yields its (title, created) pair exactly when it is an object with both keys and a hashable title |
| DiffCommand.KeepEntry | src/cldfbench/commands/diff.py:79 | without a repository every entry is kept; with one, an entry that is not an object fails with `AttributeError` (it has no `get`), and an entry is dropped only when its `rdf:about` equals the repository URL |
| DiffCommand.DerivedPairs | src/cldfbench/commands/diff.py:76-80 | the pairs are collected exactly when every entry can be read, and they are exactly the pairs of the entries that are not the dataset's own repository |
| DiffCommand.DerivedOfItems | src/cldfbench/commands/diff.py:76-80 | the dictionary has exactly the titles of the entries kept as its keys, and is built exactly when every entry can be read |
| DiffCommand.DerivedPairsSnoc | src/cldfbench/commands/diff.py:77-80 | a further entry adds its pair at the end when it is kept, and nothing otherwise |
| DiffCommand.DerivedLaterEntryWins | src/cldfbench/commands/diff.py:77-80 | when two entries share a title, the later entry's created date is the one recorded |
| DiffCommand.DerivedToDict | src/cldfbench/commands/diff.py:76-80 | a document without `prov:wasDerivedFrom` gives the empty dictionary; a list is read entry by entry; any other value works only if iterating it yields nothing, which is the empty string or the empty object |
| DiffCommand.CompareMetadata | src/cldfbench/commands/diff.py:82-93 | the comparison succeeds exactly when both provenance lists can be read; it reports repository-version changes and changes outside `tables` and `prov:*`, and the exit code is 2 exactly when either report is non-empty, and 0 otherwise |
| DiffCommand.DiffIgnoresExcludedKeys | src/cldfbench/commands/diff.py:83-93 | metadata that differ only in `tables` and `prov:wasGeneratedBy` give exit code 0 |
| DiffCommand.Diff | src/cldfbench/commands/diff.py:39-93 | outside a git repository there is no result; a changed CLDF data file gives exit code 2 and names a changed path; a change touching nothing under `cldf/` that matters gives no result; a changed metadata file is compared between HEAD and the working tree; every exit code is 0 or 2 |
| ZenodoCommand.Contrib | src/cldfbench/commands/zenodo.py:55-58 | a contributor record keeps exactly its `name`, `affiliation`, `orcid` and `type` fields, dropping an empty `orcid`, and the kept fields keep their values |
| ZenodoCommand.ContribIdempotent | src/cldfbench/commands/zenodo.py:55-58 | filtering a filtered contributor record changes nothing |
| ZenodoCommand.ContribValue | src/cldfbench/commands/zenodo.py:55-58 | the JSON object for a contributor has exactly the filtered fields, as strings |
| ZenodoCommand.ContribList | src/cldfbench/commands/zenodo.py:31-33 | the JSON list holds one filtered object per person, in order |
| ZenodoCommand.IdentifiersOf | src/cldfbench/commands/zenodo.py:34 | reading the existing communities succeeds exactly when every entry is an object with a string `identifier`, and gives those identifiers in order |
| ZenodoCommand.ExistingCommunities | src/cldfbench/commands/zenodo.py:34 | a missing `communities` key counts as the empty list; a list is read entry by entry |
| ZenodoCommand.CommunityList | src/cldfbench/commands/zenodo.py:36-38 | the written communities are exactly the given ones, each as an `identifier` object, in strictly increasing order and so without duplicates |
| ZenodoCommand.ExistingKeywords | src/cldfbench/commands/zenodo.py:43 | a missing `keywords` key counts as the empty list; otherwise reading succeeds exactly when the value is a list of strings, and gives back that list |
| ZenodoCommand.Keywords | src/cldfbench/commands/zenodo.py:26-43 | the keywords are strictly sorted, so free of duplicates, and are exactly the existing ones, `linguistics`, and `cldf:<module>` for each spec |
| ZenodoCommand.EscapeChar | src/cldfbench/commands/zenodo.py:50 | exactly the five HTML special characters are replaced by an entity starting with `&`; every other character is kept as it is |
| ZenodoCommand.HtmlEscape | src/cldfbench/commands/zenodo.py:50 | escaped text contains none of `<`, `>`, `"` and `'`, and is at least as long as the input |
| ZenodoCommand.UnescapeAfterEscapeChar | src/cldfbench/commands/zenodo.py:50 | unescaping the escape of one character followed by any text gives back that character followed by the unescaped text |
| ZenodoCommand.HtmlEscapeRoundTrip | src/cldfbench/commands/zenodo.py:50 | unescaping escaped text gives back the original text |
| ZenodoCommand.Description | src/cldfbench/commands/zenodo.py:47-50 | the description is the fixed HTML head, the escaped citation and the fixed tail, and unescaping the middle part gives back the citation |
| ZenodoCommand.SetIf | src/cldfbench/commands/zenodo.py:30-52 | a conditional assignment sets the key when the condition holds, and leaves every other key, or all keys when it does not hold, unchanged |
| ZenodoCommand.WithPeople | src/cldfbench/commands/zenodo.py:28-33 | `creators` and `contributors` are replaced by the filtered lists when those are non-empty, and kept otherwise; no other key changes |
| ZenodoCommand.WithCommunities | src/cldfbench/commands/zenodo.py:34-38 | the step succeeds exactly when the existing communities can be read; the communities become the existing ones plus the stripped, non-empty names from the option, written when that list is non-empty; no other key changes |
| ZenodoCommand.Overwrite | src/cldfbench/commands/zenodo.py:39-46 | `title`, `access_right` (`open`), `keywords` and `upload_type` (`dataset`) are set, and every other key keeps its value |
| ZenodoCommand.WithOverwrites | src/cldfbench/commands/zenodo.py:39-46 | the update succeeds exactly when the existing keywords can be read, and then writes the merged keyword list |
| ZenodoCommand.WithCitationAndLicense | src/cldfbench/commands/zenodo.py:47-52 | a non-empty citation sets the escaped HTML description, and a Zenodo license sets `license` to its id; otherwise those keys are kept, and no other key changes |
| ZenodoCommand.Prepare | src/cldfbench/commands/zenodo.py:28-46 | people, communities and the fixed fields are written in that order; the steps succeed exactly when the existing communities and keywords can be read; no key outside those steps changes, and no key is repeated |
| ZenodoCommand.Update | src/cldfbench/commands/zenodo.py:25-52 | the whole `update` block succeeds exactly when the existing communities and keywords can be read; every key the command does not write keeps its value, and no key is repeated |
| ZenodoCommand.Run | src/cldfbench/commands/zenodo.py:23-52 | updating `.zenodo.json` for a dataset succeeds exactly when the existing communities and keywords can be read; every key the command does not write keeps its value |
| ZenodoCommand.UpdateStages | src/cldfbench/commands/zenodo.py:25-52 | the update is people, then communities, then the fixed fields, then description and license, in that order |
| ZenodoCommand.UpdateWritesPeople | src/cldfbench/commands/zenodo.py:28-33 | the written file has creators and contributors from `CONTRIBUTORS.md` when there are any, and the old entries otherwise |
| ZenodoCommand.UpdateWritesCommunities | src/cldfbench/commands/zenodo.py:34-38 | the written file has the combined communities when there are any, and the old entry otherwise |
| ZenodoCommand.UpdateOverwrites | src/cldfbench/commands/zenodo.py:39-46 | the written file always has the dataset title, `open` access, the `dataset` upload type and the merged keywords |
| ZenodoCommand.UpdateWritesDescription | src/cldfbench/commands/zenodo.py:47-50 | the written file has the citation description when the dataset has a citation, and the old description otherwise |
| ZenodoCommand.UpdateWritesLicense | src/cldfbench/commands/zenodo.py:51-52 | the written file has the license id when there is one, and the old license otherwise |
| ZenodoCommand.RunWritesLicense | src/cldfbench/commands/zenodo.py:51-52 | for a dataset, the written license is the id of its catalogue license exactly when Zenodo accepts that id; otherwise the old license stays |
| CheckCommand.EmptyRequired | src/cldfbench/commands/check.py:42-45 | for the fields of whatever metadata class the dataset uses, the warnings name exactly the fields marked `required` whose value is empty, and there is at most one warning per field |
| CheckCommand.EmptyRequiredAppend | src/cldfbench/commands/check.py:42-45 | the warnings follow field order: those for a second block of fields, such as a subclass's own, come after those for the first |
| CheckCommand.BaseFields | src/cldfbench/metadata.py:361-377 | each field of the base `Metadata` class carries that field's value, and it is marked `required` exactly when it is `id`, `title`, `license` or `citation` |
| CheckCommand.BaseEmptyRequired | src/cldfbench/commands/check.py:42-45 | for the base `Metadata` class, the warnings are those of `id`, `title`, `license` and `citation` that are empty, in that order |
| CheckCommand.RequiredOptionalRequired | src/cldfbench/commands/check.py:42-45 | for three fields, one of them optional, the warnings are the empty required fields in field order, wherever the optional field stands |
| CheckCommand.Validated | src/cldfbench/commands/check.py:38-40 | validation runs over a prefix of the specs; every spec before the last one run passed, and the run stops early only right after a spec that failed |
| CheckCommand.AllValid | src/cldfbench/commands/check.py:38-40 | validation succeeds exactly when every spec validates |
| CheckCommand.ValidatedStopsAtFirstFailure | src/cldfbench/commands/check.py:38-40 | when all specs validate, every spec is validated; otherwise validation ends at the first spec that fails |
| CheckCommand.Check | src/cldfbench/commands/check.py:22-46 | the warnings are the empty required fields of the given metadata class; validation runs only when asked; the code is 1 exactly when validation was asked for and some spec fails, 2 exactly when validation did not fail and there are warnings, and otherwise 0 |
| CheckCommand.Aggregate | src/cldfbench/commands/check.py:19 | the overall code is 1 when any dataset gave 1, else 2 when any gave 2, else 0 |
| CheckCommand.AggregateAppend | src/cldfbench/commands/check.py:19 | aggregating two lists of codes is the aggregate of their aggregates |
| CheckCommand.Run | src/cldfbench/commands/check.py:17-19 | the command fails exactly when no datasets are found; otherwise it returns 1 exactly when some dataset's check gives 1, and 0 exactly when every check gives 0 |
| Ci.GithubRepoOf | src/cldfbench/ci.py:47 | a dataset without a repository has no GitHub repository; otherwise it is the one read from the origin URL |
| Ci.StatusBadge | src/cldfbench/ci.py:40-53 | the badge is non-empty exactly when the dataset has a GitHub repository and the workflow file exists; it then names that repository twice, in the badge image URL and in the actions link |
| Ci.Branch | src/cldfbench/ci.py:62-67 | with readable branches, the default branch is `main` when such a branch exists and `master` otherwise; without them, `--force` gives `master`, and anything else fails the assertion |
| Ci.TestLineOfName | src/cldfbench/ci.py:70-72 | each spec gives an indented `pytest --cldf-metadata=cldf/<metadata file> test.py` line |
| Ci.TestLines | src/cldfbench/ci.py:69-72 | there is one test line per spec, in spec order |
| Ci.ConfigYml | src/cldfbench/ci.py:7-74 | the workflow text is the fixed template with the branch filled into both the push and the pull-request slots and the test lines, one per line, at the end |
| Ci.ConfigYmlPushBranch | src/cldfbench/ci.py:10-14 | for a branch without spaces, the push trigger can be read back from the workflow text and names that branch |
| Ci.WorkflowPath | src/cldfbench/ci.py:56-57 | the workflow file is `.github/workflows/cldf-validation.yml` inside the dataset directory |
| Ci.Setup | src/cldfbench/ci.py:56-75 | without `--force`, nothing is written when there is no GitHub repository or the workflow exists already; otherwise set-up fails with the `mkdir` error when a file blocks `.github/workflows`, and else succeeds exactly when the default branch can be determined, writing the filled template to the workflow path |
| Ci.MakeWorkflowsDir | src/cldfbench/ci.py:60 | creating `.github/workflows` with parents succeeds exactly when `.github` is missing, or is a folder in which `workflows` is missing or is a folder; a file at `.github` gives `NotADirectoryError`, a file at `workflows` `FileExistsError` |
| Ci.SetupWritesForGithubRepo | src/cldfbench/ci.py:56-75 | a GitHub-hosted dataset without a workflow and with no file blocking `.github/workflows` gets one written, ending with its test lines |
| MediaCommand.Validate | src/cldfbench/commands/media.py:153-174 | the options are accepted exactly when the dataset has a media table, a given parent DOI matches the DOI pattern, `--update-zenodo` finds the release directory and its `zenodo.json` and is not combined with `--create-release`, and `--create-release` has a parent DOI; a rejection names a check that failed, with the missing media table checked first and an invalid DOI next |
| MediaCommand.RejectedCombinations | src/cldfbench/commands/media.py:168-174 | creating a release together with a Zenodo update, or without a parent DOI, is always rejected |
| MediaCommand.MimeTypes | src/cldfbench/commands/media.py:176-178 | without a `--mimetype` option nothing is filtered; otherwise the filter is exactly the stripped, non-empty comma-separated entries |
| MediaCommand.BlankEntrySelectsAll | src/cldfbench/commands/media.py:200-201 | an entry that is blank after stripping is a prefix of every mimetype, so it selects every row |
| MediaCommand.Selects | src/cldfbench/commands/media.py:200-201 | a row is selected when there is no filter, its extension is listed, or its mimetype starts with a listed entry; reading the mimetype, and so the `KeyError` when it is missing, happens only when the extension test does not already decide |
| MediaCommand.Extension | src/cldfbench/commands/media.py:197 | the extension is lower-case and free of dots; a URL without a dot is its own extension, and otherwise the lower-cased URL ends with a dot and the extension |
| MediaCommand.ExtensionOf | src/cldfbench/commands/media.py:197 | a URL ending in `.<ext>` has the lower-cased `ext` as its extension |
| MediaCommand.ExtensionOfLower | src/cldfbench/commands/media.py:197 | a lower-case extension is kept as it is |
| MediaCommand.Folder | src/cldfbench/commands/media.py:208 | the download folder is the first two characters of the id, or the whole id when it is shorter |
| MediaCommand.LocalPath | src/cldfbench/commands/media.py:210-212 | the local path is `<folder>/<id>.<ext>`: a relative path of two components whose name is the file name |
| MediaCommand.MediaDir | src/cldfbench/commands/media.py:184 | the media directory is the child `media` of the output directory |
| MediaCommand.RowFields | src/cldfbench/commands/media.py:193-196 | a URL given as a reference is normalised and written back into the row's `URL` field; every other field is unchanged |
| MediaCommand.Visit | src/cldfbench/commands/media.py:197-218 | a row is visited without error exactly when the selection can be decided and a selected row has an `ID`; a selected row gives an item with its index, URL, extension, local path under the media directory, the row plus `local_path`, and a download exactly when the target's checksum differs from the id |
| MediaCommand.ListVisit | src/cldfbench/commands/media.py:200-205 | in list mode a selected row contributes the key `<mimetype> (<ext>)` and its size read by `int()`; it needs both fields, a size that `int()` rejects fails with `ValueError`, and unselected rows contribute nothing |
| MediaCommand.TotalsTally | src/cldfbench/commands/media.py:200-205 | the per-key totals have exactly the keys of the listed entries, and each key maps to how often it was listed and the sum of its sizes |
| Numbers.ParseInt | src/cldfbench/commands/media.py:204 | `int()` of a string succeeds exactly when, after stripping whitespace and an optional sign, one or more decimal digits remain; it fails with `ValueError` otherwise |
| Numbers.DecimalValue | src/cldfbench/commands/media.py:204 | the decimal digits of a number read back as that number |
| Numbers.Decimal | src/cldfbench/commands/media.py:204 | the decimal rendering of a number is a non-empty string of digits without a leading zero |
| Numbers.ParseShow | src/cldfbench/commands/media.py:204 | `int(str(n)) == n` for every integer |
| Numbers.ParseDigits | src/cldfbench/commands/media.py:204 | a string of digits is read as its value |
| Numbers.ParseNegativeDigits | src/cldfbench/commands/media.py:204 | a `-` followed by digits is read as the negated value |
| MediaCommand.Visits | src/cldfbench/commands/media.py:191-192 | rows are visited in order, each with its running index |
| MediaCommand.Scan | src/cldfbench/commands/media.py:191-218 | outside debug mode the scan succeeds exactly when every row's visit succeeds, and collects the items of the selected rows in order |
| MediaCommand.ScanItemIndexes | src/cldfbench/commands/media.py:191-216 | the item collected `j`-th has an index at least `j` past the starting index and inside the scanned rows |
| MediaCommand.ScanPositions | src/cldfbench/commands/media.py:191-199 | for any visit that records the row index it was given, the `j`-th collected result records an index at least `j` past the start and inside the scanned rows |
| MediaCommand.ScanDebug | src/cldfbench/commands/media.py:198-199 | in debug mode the scan stops after row index 500, so it equals the plain scan of the remaining rows up to that index |
| MediaCommand.DebugVisitsFirstRows | src/cldfbench/commands/media.py:198-199 | in debug mode exactly the first 501 rows are visited |
| MediaCommand.IndexAsWrittenLacksHeader | src/cldfbench/commands/media.py:213-215 | when row 0 is not among the selected rows, the index as written has no header line, only one value line per item |
| MediaCommand.FilteredFirstRowDropsHeader | src/cldfbench/commands/media.py:200-215 | for the rows `ab.pdf` and `cd.wav` filtered with `wav`, only the second row is selected, and the index as written is one value line without a header |
| MediaCommand.ScanOfTwo | src/cldfbench/commands/media.py:191-218 | a scan of two rows where only the second is selected gives just the second item |
| MediaCommand.VisitSkips | src/cldfbench/commands/media.py:200-201 | a row whose extension is not listed and whose mimetype starts with no entry is skipped |
| MediaCommand.VisitKeeps | src/cldfbench/commands/media.py:200-216 | a row with an `ID` and a listed extension gives an item with its own index |
| MediaCommand.PdfNotSelected | src/cldfbench/commands/media.py:200-201 | the row `ab.pdf` with mimetype `application/pdf` is not selected by the filter `wav` |
| MediaCommand.WavSelected | src/cldfbench/commands/media.py:200-216 | the row `cd.wav` is selected by the filter `wav`, at index 1 |
| MediaCommand.Lines | src/cldfbench/commands/media.py:215 | there is one value line per item, holding that item's values in order |
| MediaCommand.Index | src/cldfbench/commands/media.py:190-215 | a non-empty index is the header of the first item followed by one value line per item; an empty selection gives an empty index |
| MediaCommand.IndexAgreesFromRowZero | src/cldfbench/commands/media.py:213-215 | when row 0 is selected, the index as written equals the intended index with its header |
| MediaCommand.IndexAsWritten | src/cldfbench/commands/media.py:213-215 | the lines written are at least one per item; the first line is the header exactly when the first selected row is row 0, and otherwise it is that row's values |
| MediaCommand.IndexHeaderAtRowZero | src/cldfbench/commands/media.py:213-215 | for items at or past their own position, the written index is the intended one with a header when the first item is row 0, and just the value lines otherwise |
| MediaCommand.ReleaseVersion | src/cldfbench/commands/media.py:251-252 | the tagged version is the `git describe` output up to its first `-`; the version is that tag with every `v` removed |
| MediaCommand.ReleaseVersionOfTag | src/cldfbench/commands/media.py:251-252 | `v1.2-3-gabcdef` gives the tag `v1.2` and the version `1.2` |
| MediaCommand.GitUrlAsWrittenDropsInnerGit | src/cldfbench/commands/media.py:253 | removing every `.git` from `<a>.git<b>.git` gives `<a><b>`, so a `.git` inside the repository name is lost too |
| MediaCommand.GitUrlOf | src/cldfbench/commands/media.py:253 | an origin URL ending in `.git` loses exactly that suffix; any other URL is kept |
| MediaCommand.GitUrlKeepsInnerGit | src/cldfbench/commands/media.py:253 | with the corrected rule, `<a>.git<b>.git` becomes `<a>.git<b>`, keeping the inner `.git` |
| MediaCommand.GitUrl | src/cldfbench/commands/media.py:253 | a dataset without a repository fails with `AttributeError`, one without an `origin` remote fails with `IndexError`, and otherwise the result is the origin URL with every `.git` removed, which is the origin URL itself when it contains no `.git` |
| MediaCommand.GitUrlAgreesOnSuffix | src/cldfbench/commands/media.py:253 | for a URL without `.git` followed by one trailing `.git`, removing every `.git` and removing only the suffix agree, and give the URL |
| MediaCommand.MediaContrib | src/cldfbench/commands/media.py:248-249 | the media release keeps exactly the `name`, `affiliation`, `orcid` and `type` fields of a contributor, and keeps an empty `orcid`, which is the only difference from the `zenodo` command's filter |
| MediaCommand.MediaContribList | src/cldfbench/commands/media.py:259-262 | there is one filtered record per person |
| MediaCommand.WithPeople | src/cldfbench/commands/media.py:256-262 | creators and contributors from `CONTRIBUTORS.md` replace the old entries when there are any; no other key changes |
| MediaCommand.AllCommunities | src/cldfbench/commands/media.py:263-265 | the communities are exactly the existing ones, the ones from the option and `lexibank`, which is always among them |
| MediaCommand.WithCommunities | src/cldfbench/commands/media.py:263-268 | the step succeeds exactly when the existing communities can be read, and changes no other key |
| MediaCommand.WithCommunitiesWrites | src/cldfbench/commands/media.py:266-268 | outside debug mode the communities are always written, as the combined list; in debug mode they are left alone |
| MediaCommand.RelatedIdentifiers | src/cldfbench/commands/media.py:277-296 | the related identifiers are the repository tree at the tagged version (`isSupplementTo`), then the parent DOI (`isPartOf`) when given, then the dataset URL (`isAlternateIdentifier`) when set |
| MediaCommand.Stamp | src/cldfbench/commands/media.py:269-285 | the publication date, version and related identifiers are set, and every other key keeps its value |
| MediaCommand.ReleaseDescription | src/cldfbench/commands/media.py:298-310 | the description is HTML-escaped, so it contains no `<`, `>` or `'`, and unescaping it gives back the filled description template |
| MediaCommand.WithDescriptionAndLicense | src/cldfbench/commands/media.py:304-315 | the description is always set, and the license is set when there is a Zenodo license; no other key changes |
| MediaCommand.Merge | src/cldfbench/commands/media.py:256-274 | merging people, communities and the fixed fields succeeds exactly when the existing communities and keywords can be read |
| MediaCommand.MergeStages | src/cldfbench/commands/media.py:256-274 | the merge is people, then communities, then the fixed fields with `linguistics` added to the keywords, in that order |
| MediaCommand.MergeCommunities | src/cldfbench/commands/media.py:263-268 | after merging, the communities are the combined list outside debug mode, and unchanged in debug mode |
| MediaCommand.MergeOverwrites | src/cldfbench/commands/media.py:269-274 | after merging, the title, `open` access, the `dataset` upload type and the sorted keywords with `linguistics` are set |
| MediaCommand.MergeKeeps | src/cldfbench/commands/media.py:256-274 | merging leaves every key it does not write unchanged |
| MediaCommand.Record | src/cldfbench/commands/media.py:275-315 | the release record sets the date, version, related identifiers and description, and the license when known, and keeps every other key |
| MediaCommand.Release | src/cldfbench/commands/media.py:248-315 | preparing `zenodo.json` succeeds exactly when the origin URL can be found and the existing communities and keywords can be read |
| MediaCommand.ReleaseStages | src/cldfbench/commands/media.py:248-315 | the release metadata is the merge of people, communities and fixed fields, followed by the release record with the version from `git describe` and the related identifiers |
| MediaCommand.ReleaseKeepsOtherKeys | src/cldfbench/commands/media.py:254-315 | every key of the existing `zenodo.json` that the release does not write keeps its value |
| MediaCommand.ReleaseCommunities | src/cldfbench/commands/media.py:263-268 | the released communities are the combined list outside debug mode, and unchanged in debug mode |
| MediaCommand.ReleaseVersionAndTree | src/cldfbench/commands/media.py:251-285 | the released version is the tag without `v`, the date is today's, and the related identifiers start with the repository tree at the tag, built from the origin URL with every `.git` removed |
| MediaCommand.ReleaseOverwrites | src/cldfbench/commands/media.py:269-274 | the release has the `<title> Media Files` title, `open` access, the `dataset` upload type and the sorted keywords with `linguistics` |
| MediaCommand.ItemExts | src/cldfbench/commands/media.py:207 | each downloaded item contributes its extension |
| MediaCommand.Run | src/cldfbench/commands/media.py:147-315 | rejected options end the command with that rejection; any other outcome means the options were acceptable; list mode lists, with each key's count and total size; a download writes the index as the code writes it, each item at or past its own position, and prepares a release exactly when `--create-release` is given; a Zenodo update neither lists nor creates a release, and in list mode with an update nothing is listed |
| Scaffold.Scaffolds | src/cldfbench/scaffold.py:26-34 | the built-in `cldfbench` template always comes first; after it come exactly the plugin templates that loaded, and a plugin that fails to load is skipped |
| Scaffold.Loaded | src/cldfbench/scaffold.py:28-34 | the loaded plugins are exactly those whose loading succeeded |
| Scaffold.Context | src/cldfbench/scaffold.py:70-71 | the template variables are the metadata fields plus `prefix` and `package`, which come from the template; the metadata values appear as Python prints them |
| Scaffold.OutDir | src/cldfbench/scaffold.py:72-73 | a dataset without an id fails with `TypeError`; otherwise the output directory is the given one or its child |
| Scaffold.OutDirNamedAfterId | src/cldfbench/scaffold.py:72-73 | the output directory is always named after the id; choosing it again changes nothing; it is a new child unless the given directory already has that name |
| Scaffold.Format | src/cldfbench/scaffold.py:84-92 | formatting fails only with `KeyError`, `ValueError` or `IndexError`, and text without braces comes back unchanged |
| Scaffold.FormatField | src/cldfbench/scaffold.py:92 | a `{name}` field is replaced by the variable's value and formatting goes on after it; an unknown name fails with `KeyError` naming it |
| Scaffold.Expand | src/cldfbench/scaffold.py:83-88 | expanding `+name+` placeholders fails only with `KeyError` |
| Scaffold.ExpandPlaceholder | src/cldfbench/scaffold.py:83-88 | a leading `+name+` of lower-case letters is replaced by the variable's value, or fails with `KeyError` naming it |
| Scaffold.ExpandNoPlus | src/cldfbench/scaffold.py:83-88 | a name without `+` is left as it is |
| Scaffold.PlaceholdersThenFormat | src/cldfbench/scaffold.py:84-88 | for names without braces, turning `+name+` into `{name}` and then formatting is the same as replacing each `+name+` directly by its value |
| Scaffold.TargetIsExpansion | src/cldfbench/scaffold.py:82-88 | a template file without braces in its name is written under the name with its placeholders replaced |
| Scaffold.Output | src/cldfbench/scaffold.py:78-99 | a sub-directory is copied as a whole under its own name; a `.pyc` file is skipped; any other file succeeds exactly when its name's placeholders resolve and, for a `_tmpl` target, its content formats; it is then either copied under the target name or written formatted under the target name without `_tmpl` |
| Scaffold.CompiledFilesSkipped | src/cldfbench/scaffold.py:80-81 | a `.pyc` file produces nothing |
| Scaffold.PlainNameOutput | src/cldfbench/scaffold.py:89-94 | a plain `<name>_tmpl` file is written as `<name>` with formatted content, and any other plain file is copied unchanged |
| Scaffold.RenderDirSucceeds | src/cldfbench/scaffold.py:77-99 | rendering a template directory succeeds exactly when every one of its entries renders |
| Scaffold.RenderDirUntouched | src/cldfbench/scaffold.py:77-99 | an output entry that no template entry writes is kept as it was, and none appears that was not there before |
| Scaffold.RenderDirLastWins | src/cldfbench/scaffold.py:77-99 | when several template entries write the same output name, the last one's content is what remains |
| Scaffold.RenderDirAppend | src/cldfbench/scaffold.py:77-99 | rendering a concatenation of entries is rendering the first part and then the second on its result, stopping at the first error |
| Scaffold.RenderDirsFlat | src/cldfbench/scaffold.py:77-99 | rendering several template directories one after the other is rendering all their entries in order as one directory |
| Scaffold.LaterDirWins | src/cldfbench/scaffold.py:42-99 | a file in a later template directory overrides one of the same name from an earlier directory |
| Scaffold.Render | src/cldfbench/scaffold.py:66-101 | rendering fails with `TypeError` when the metadata has no id, and otherwise succeeds exactly when every template directory renders; it renders into the output directory named after the id, writes `metadata.json` from the metadata last, and every other entry is what the template directories produced |
| Scaffold.RerenderReplacesFolders | src/cldfbench/scaffold.py:95-99 | rendering again over an existing dataset replaces a sub-directory from the last template directory by a fresh copy, whatever was there before |
| Catalogs.Languoids | src/cldfbench/catalogs.py:25-30 | a query with keyword arguments is passed through and nothing is cached; without arguments the returned list is the cached one, and a non-empty cache is never replaced |
| Catalogs.CachedListIsStable | src/cldfbench/catalogs.py:26-29 | once a non-empty list of languoids is cached, asking again returns the same list without querying again |
| Catalogs.Cached | src/cldfbench/catalogs.py:32-34 | the languoids by Glottocode form a dictionary without duplicate keys |
| Catalogs.CachedLookup | src/cldfbench/catalogs.py:32-34 | a Glottocode is in the cache exactly when some languoid has it as its id, and it maps to such a languoid |
| Catalogs.Details | src/cldfbench/catalogs.py:36-38 | the details have exactly the cache's Glottocodes, in the same order, each mapped to the languoid's ISO code, macroareas and name |
| Catalogs.RowOfDetails | src/cldfbench/catalogs.py:36-38 | each detail row has the Glottocode of the matching cache row and holds that languoid's details |
| Catalogs.IsoPairs | src/cldfbench/catalogs.py:44-46 | only languoids with a non-empty ISO code contribute an ISO pair |
| Catalogs.IsoPairsFrom | src/cldfbench/catalogs.py:44-46 | a pair (ISO code, Glottocode) is listed exactly when that languoid's ISO code is that non-empty code |
| Catalogs.HasKeyIffPair | src/cldfbench/catalogs.py:40-46 | a dictionary built from pairs has a key exactly when some pair has that key |
| Catalogs.ByName | src/cldfbench/catalogs.py:40-42 | the name lookup is a dictionary without repeated keys, whose keys are exactly the names of the detail rows |
| Catalogs.ByIso | src/cldfbench/catalogs.py:44-46 | the ISO lookup is a dictionary without repeated keys, whose keys are exactly the codes of the ISO pairs |
| Catalogs.ByIsoSoundAndComplete | src/cldfbench/catalogs.py:44-46 | the ISO lookup knows a code exactly when some cached languoid has that non-empty ISO code, and maps it to such a languoid |
| Catalogs.ByNameSoundAndComplete | src/cldfbench/catalogs.py:40-42 | the name lookup knows a name exactly when some cached languoid has it, and maps it to such a languoid |
| Catalogs.MacroareasByGlottocode | src/cldfbench/catalogs.py:48-50 | each Glottocode maps to its languoid's macroareas, and unknown codes map to nothing |
| Catalogs.Walk | src/cldfbench/catalogs.py:65-68 | the walk up a lineage finds only language-level languoids, and fails only with `KeyError` for a Glottocode of that lineage |
| Catalogs.WalkFindsNearest | src/cldfbench/catalogs.py:65-68 | the walk finds languoid `p` exactly when `p` is the nearest language-level ancestor, and every closer ancestor is known to the cache |
| Catalogs.WalkFindsNone | src/cldfbench/catalogs.py:65-68 | the walk finds nothing exactly when every ancestor is known and none is language-level |
| Catalogs.GetLanguage | src/cldfbench/catalogs.py:52-68 | an unknown Glottocode fails with `KeyError`; a family gives nothing; a language gives itself; any result is language-level |
| Catalogs.CodeResolvesThroughCache | src/cldfbench/catalogs.py:59-60 | looking up a known Glottocode is the same as looking up its cached languoid |
| Catalogs.DialectLanguage | src/cldfbench/catalogs.py:65-68 | a dialect resolves to its nearest language-level ancestor, and to nothing exactly when its whole lineage is known and has none |

Where the code and its documentation disagree, the model follows the code:

- A writer keeps its CLDF dataset after `__exit__` (`src/cldfbench/cldf.py:98-105`). It does not go back to raising `AttributeError`.
- `__exit__` writes even when the `with` block raised (`src/cldfbench/cldf.py:98-105`). Writing is not limited to a successful block.
- `dataset_from_module` takes the first qualifying member in `inspect.getmembers` order (`src/cldfbench/dataset.py:285-287`). It does not demand a unique one.

## Left out

- Downloads, threads, zipping and the Zenodo API: `download`, `_create_download_thread`, the zip archive, `--update-zenodo`'s API calls and the `input()` prompt in `commands/media.py` are I/O; the model stops at the values they would send or store.
- The media release `README.md` and the `--list` printout: these are fixed text templates and a console table, with no logic beyond formatting.
- Spreadsheet and file parsing (`DataDir.read*`, `*2csv`, `_excel_value`): these are library calls and floating-point normalisation; only the row normalisation of `_ods_to_list` is modelled.
- git and subprocess calls (`git describe`, the branch list, the origin remote, `pip freeze`, `update_submodules`): their outputs are parameters.
- pycldf (`from_metadata`, `validate`, `add_provenance`, `write`, zipped tables), `clldutils.licenses.find`, the markdown-table parser and the DOI pattern: these are parameters standing for the library's answers.
- The checksum of a downloaded file: `md5(target)` is a parameter.
- Entry-point discovery and module import/reload: the registered datasets, the plugin templates and a module's members are given as lists.
- `get_cldf_dataset` in `src/cldfbench/cli_util.py:92-104`: it only falls back to loading plain CLDF through pycldf.
- `Metadata.elicit`, `Metadata.from_file` and `Metadata.write`: interactive input and JSON text I/O. The scaffold stores the metadata value instead of its JSON text.
- Logging, `termcolor` colouring and the exact wording of log and error messages: the model keeps the exception kind and the names a message carries.
- JSON numbers are integers and `True == 1` is not modelled: floats do not occur in the metadata the commands compare.
- Case mapping and whitespace follow the ASCII subset of Python's Unicode tables.
- Directory listings (`iterdir`, `glob`) are given in an order of the caller's choosing; the model does not fix the file system's order.
- The `lazyproperty` memoisation of `cldf_dir`, `repo`, `cached_languoids` and the lookup tables: recomputing them gives the same values, so they are plain functions.
- The Concepticon and CLTS catalog classes and `BUILTIN_CATALOGS` in `catalogs.py`: they hold no logic beyond their library.
- Scaffold file-system effects: `mkdir`, a file clashing with a directory of the same name, and target names containing `/` (kept as raw keys in the listing) are not modelled.
- Scaffold.Format: conversions (`!r`), format specs (`:>10`) and attribute or index access in a field are not modelled; the metadata fields are plain strings, so templates do not use them.
- Scaffold.Scaffolds: states which templates are listed, not the order of the plugin entries after the built-in one, because the entry-point order is the packaging system's.
- ZenodoCommand.IdentifiersOf: requires string identifiers and fails with `TypeError` otherwise. Python would also accept a list of equal-typed non-string identifiers when no community is given on the command line; `zenodo.json` written by Zenodo always uses strings.
- ZenodoCommand.ExistingCommunities: states the result only for a missing key and a list; for other JSON values it returns an error, without further promises.
- Dataset.ListedLines: `resolve()` is not modelled. The paths are taken as already resolved, so symbolic links and `..` components are not followed before `relative_to`.
- Dataset.Readme: the intro line links `cldf`, the default `cldf_dir`. A dataset class that overrides `cldf_dir` gets that directory, relative to the dataset directory, in the link; the model does not cover the override.
- Scaffold.Context: the template variables are the fields of the base `Metadata`. A template whose `metadata` is a subclass with extra `attr.ib` fields (src/cldfbench/scaffold.py:9-10, 54-64) gets those as further variables; the model does not cover such subclasses.
- Cldf.RepoJsonLd, Cldf.Sources, DiffCommand.KeepEntry, Ci.GithubRepoOf: `dataset.py` and `cldf.py` use the `Repository` class of cldfcatalog (src/cldfbench/dataset.py:14, src/cldfbench/cldf.py:12), which is not part of this model. The model puts the `Repository` of `src/cldfbench/repository.py`, with its `url`, `github_repo` and `json_ld()`, in its place.
- Numbers.ParseInt: underscores between digits and non-ASCII digits, which Python's `int()` accepts, are rejected.
- MediaCommand.Release: requires a parent DOI, because option validation rejects `--create-release` without one before this code runs.

## Findings

| source | as written | input that shows it | evidently intended | confidence | as-written member | corrected member |
|---|---|---|---|---|---|---|
| src/cldfbench/commands/media.py:213-215 | the header of `index.csv` is written only when row 0 of `media.csv` is selected | rows `ab.pdf` (`application/pdf`) and `cd.wav` (`audio/x-wav`) with `--mimetype wav`: only row 1 is selected, so `index.csv` gets one value line and no header | write the header before the first selected row, whatever its index | medium, not executed | MediaCommand.IndexAsWritten, MediaCommand.FilteredFirstRowDropsHeader, MediaCommand.Run | MediaCommand.Index, MediaCommand.IndexAgreesFromRowZero |
| src/cldfbench/commands/media.py:253 | `replace('.git', '')` removes every `.git`, not just the suffix | origin `https://github.com/org/org.github.io.git` becomes `https://github.com/org/orghub.io` | remove only a trailing `.git`, as `Repository.url` does | high, not executed | MediaCommand.GitUrlAsWritten, MediaCommand.GitUrlAsWrittenDropsInnerGit, MediaCommand.GitUrl | MediaCommand.GitUrlOf, MediaCommand.GitUrlKeepsInnerGit |

`MediaCommand.Run`, `MediaCommand.GitUrl` and the release built from them follow the code as written. The corrected definitions sit beside them, with the intended properties proved, and `IndexAgreesFromRowZero` and `GitUrlAgreesOnSuffix` say on which inputs the two agree.
