# SBOMVUL in Dafny

SBOMVUL enriches a CycloneDX software bill of materials (SBOM) with known
vulnerabilities. `scripts/cve_data_update.py` flattens the NVD 2.0 JSON feeds
into one CSV row per CVE. `scripts/osv_nvd_enrich_sbom.py` has two jobs:

- it asks OSV.dev about every component and keeps one entry per CVE id, with
  a CVSS rating taken from that CSV and one `affects` reference per component
  hit;
- it writes the result and updates the dashboard index `sbom_index.json`.

This project models the in-memory logic of those two scripts and proves what
it promises. The network, the file system, the clock and the thread pool are
left outside: the OSV lookup, the purl parser and the feed reader are function
parameters, and the date is a parameter.

Files, one module each:

- `wrappers.dfy` (`Wrappers`): the `Option` type.
- `pytext.dfy` (`PyText`): the Python `str` operations the scripts use:
  - `isspace`, `strip`, `lower`, `capitalize`;
  - `replace` of a single character, `startswith`, `endswith`.
- `clean_text.dfy` (`TextCleaning`): `clean_text`, its three regular-expression
  passes written as scans.
- `enrich.dfy` (`Enrichment`): the body of `process_component` and the fold of
  `add_vulnerabilities_to_sbom`:
  - the ecosystem map, the query guard, the first `CVE` alias and the
    all-or-nothing rating;
  - the CVE-keyed dictionary as the class `VulnerabilityStore`, whose methods
    update its fields in place;
  - the fold is specified by pure functions (`MergeAll`, `Enriched`) whose
    properties are proved as lemmas.
- `sbom_index.dfy` (`SbomIndex`): the project name, the output file name and
  the index update at the end of `main`. The index document is the class
  `IndexDocument`.
- `nvd_feed.dfy` (`NvdFeed`): `convert_json_to_csv`:
  - the file filter and the sort;
  - the CWE, CVSS and description extraction as loops with early exits;
  - keep-first de-duplication by CVE id.

## Model

| member | source | states |
|---|---|---|
| `PyText.Strip` | scripts/osv_nvd_enrich_sbom.py:47 | `strip()` is the infix left after the leading and trailing whitespace, and it neither starts nor ends with whitespace |
| `PyText.Lower` | scripts/osv_nvd_enrich_sbom.py:142 | `lower()` keeps the length and lower-cases each character |
| `PyText.Capitalize` | scripts/osv_nvd_enrich_sbom.py:104 | `capitalize()` upper-cases the first character and lower-cases the rest |
| `PyText.RemoveChar` | scripts/osv_nvd_enrich_sbom.py:139 | `replace(".", "")` leaves no `.`, keeps every other character as often as before, and leaves a text without `.` unchanged |
| `PyText.RemoveCharAppend` | scripts/osv_nvd_enrich_sbom.py:139 | removal distributes over concatenation, so the characters that stay keep their order |
| `PyText.ReplaceChar` | scripts/cve_data_update.py:104 | `replace(a, b)` on one character changes exactly the positions holding `a` to `b` |
| `TextCleaning.CollapseRuns` | scripts/osv_nvd_enrich_sbom.py:40 | a substitution of runs by one space never lengthens the text and leaves no class character other than a space |
| `TextCleaning.CollapseRunsShape` | scripts/osv_nvd_enrich_sbom.py:40 | a substitution of runs by one space leaves no class character other than a space and no two adjacent class characters, and keeps a leading non-class character |
| `TextCleaning.CollapseRunsAppend` | scripts/osv_nvd_enrich_sbom.py:40 | a text ending outside the class is collapsed on its own: no run crosses its end |
| `TextCleaning.CollapseRunsRun` | scripts/osv_nvd_enrich_sbom.py:40 | each maximal run of class characters becomes exactly one space, and the text on either side is collapsed on its own |
| `TextCleaning.CollapseRunsIdempotent` | scripts/osv_nvd_enrich_sbom.py:46 | collapsing runs a second time changes nothing |
| `TextCleaning.AsciiUntouched` | scripts/osv_nvd_enrich_sbom.py:40 | the non-ASCII pass leaves ASCII text unchanged |
| `TextCleaning.WrapUrls` | scripts/osv_nvd_enrich_sbom.py:41-45 | the URL pass never shortens the text; what it adds is pinned by the next two rows |
| `TextCleaning.WrapUrlsOnlyAddsParens` | scripts/osv_nvd_enrich_sbom.py:41-45 | the URL pass only inserts parentheses: with all parentheses removed, input and output are equal |
| `TextCleaning.WrapUrlsAddsParenPairs` | scripts/osv_nvd_enrich_sbom.py:41-45 | the URL pass drops no character of its input and adds only parentheses, as many `(` as `)` (as multisets) |
| `TextCleaning.UrlTokenIsWrapped` | scripts/osv_nvd_enrich_sbom.py:41-45 | a URL (scheme `http://` or `https://`, then the longest run of non-whitespace) that starts the text or follows whitespace and ends at whitespace or at the end comes out as `(` + URL + `)`, and the text on either side is cleaned on its own |
| `TextCleaning.ParenthesisedUrlIsKept` | scripts/osv_nvd_enrich_sbom.py:41-45 | a URL right after a `(` is left as it is, when that `(` starts the text or follows whitespace, the URL ends at whitespace or at the end, and the URL holds no further scheme; the text on either side is cleaned on its own |
| `TextCleaning.GluedUrlIsWrapped` | scripts/osv_nvd_enrich_sbom.py:41-45 | a URL glued to a preceding chunk `t` (as in `url=https://x`, `"https://x"`) that does not end in `(` and holds no scheme of its own is wrapped as `t` + `(` + URL + `)`; the chunk is copied unchanged |
| `TextCleaning.GluedParenthesisedUrlIsKept` | scripts/osv_nvd_enrich_sbom.py:41-45 | a URL right after a `(` glued to a preceding chunk `t` holding no scheme of its own is left as it is, when the URL holds no further scheme and ends at whitespace or at the end |
| `TextCleaning.WrapUrlsAfterParenUrl` | scripts/osv_nvd_enrich_sbom.py:41-45 | when the previous character is `(`, a URL holding no further scheme is copied unchanged and the rest is cleaned as after any other character |
| `TextCleaning.GluedAfterChar` | scripts/osv_nvd_enrich_sbom.py:41-45 | a URL after one character other than `h` and `(` (such as `<`, `"` or `=`) is wrapped in parentheses after that character |
| `TextCleaning.AngleBracketUrlIsWrapped` | scripts/osv_nvd_enrich_sbom.py:41-45 | `<` followed by a URL token becomes `<(` + token + `)`; the token runs to the next whitespace, so `<https://x>` becomes `<(https://x>)` |
| `TextCleaning.GluedParenAfterChunk` | scripts/osv_nvd_enrich_sbom.py:41-45 | a URL after a `(` glued to a chunk without `h` (the Markdown link `[text](https://x)`) is left as it is |
| `TextCleaning.WrapUrlsFixpoint` | scripts/osv_nvd_enrich_sbom.py:41-45 | text in which every URL match is already preceded by `(` is left unchanged by the URL pass |
| `TextCleaning.CleanText` | scripts/osv_nvd_enrich_sbom.py:37-47 | a non-string gives `""`, and the result neither starts nor ends with whitespace |
| `TextCleaning.CleanTextWellFormed` | scripts/osv_nvd_enrich_sbom.py:37-47 | a non-string gives `""`; the result is ASCII, its only whitespace is single spaces, and it neither starts nor ends with whitespace |
| `TextCleaning.CleanTextIdempotent` | scripts/osv_nvd_enrich_sbom.py:37-47 | cleaning twice equals cleaning once when every URL in the cleaned text is already parenthesised |
| `TextCleaning.CleanTextParenthesised` | scripts/osv_nvd_enrich_sbom.py:37-47 | on ASCII text whose every URL already follows `(`, cleaning is collapsing each whitespace run to one space and stripping the ends |
| `TextCleaning.CleanTextCollapsesRuns` | scripts/osv_nvd_enrich_sbom.py:37-47 | `" a\u00e9\t b "` cleans to `"a b"` for any ASCII non-whitespace `a` and `b`: the non-ASCII letter and the whitespace after it become one space |
| `TextCleaning.CleanTextWithoutSpaces` | scripts/osv_nvd_enrich_sbom.py:37-47 | on ASCII text without whitespace, cleaning is only the URL pass |
| `TextCleaning.CleanTextWrapsBareUrl` | scripts/osv_nvd_enrich_sbom.py:41-47 | a bare ASCII URL is returned in parentheses |
| `TextCleaning.CleanTextWrapsInnerUrl` | scripts/osv_nvd_enrich_sbom.py:41-45 | the lookbehind skips the outer URL of `(http://a?u=http://b)` but wraps the inner `http://b)` |
| `TextCleaning.CleanTextNotIdempotent` | scripts/osv_nvd_enrich_sbom.py:37-47 | `http://a?u=http://b` cleans to `(http://a?u=http://b)`, which cleans to something else: cleaning is not idempotent in general |
| `Enrichment.NormalizeEcosystem` | scripts/osv_nvd_enrich_sbom.py:99-104 | the ecosystem name has the length of the purl type |
| `Enrichment.EcosystemNames` | scripts/osv_nvd_enrich_sbom.py:99-104 | `pypi`→`PyPI`, `maven`→`Maven`, `npm`→`npm`, any other type its `capitalize()`; empty exactly when the type is empty |
| `Enrichment.QueryName` | scripts/osv_nvd_enrich_sbom.py:96 | the query name ends with the package name |
| `Enrichment.QueryNameShape` | scripts/osv_nvd_enrich_sbom.py:96 | `namespace/name` with a non-empty namespace, `name` otherwise; empty exactly when both are empty |
| `Enrichment.QueryOsv` | scripts/osv_nvd_enrich_sbom.py:50-62 | no findings when the ecosystem or the name is empty; otherwise the lookup of the name and ecosystem, with the version only when it is non-empty |
| `Enrichment.NoPurlNoFindings` | scripts/osv_nvd_enrich_sbom.py:87-108 | no purl, an empty purl, an unparsable purl, an empty type, or an empty name without namespace yields no findings |
| `Enrichment.FirstCveIndex` | scripts/osv_nvd_enrich_sbom.py:111-114 | the position found starts with `CVE` and no alias before it does |
| `Enrichment.FirstCveAlias` | scripts/osv_nvd_enrich_sbom.py:111-114 | the chosen alias is one of the aliases and starts with `CVE`; there is none exactly when no alias starts with `CVE` |
| `Enrichment.FirstCveAliasSpec` | scripts/osv_nvd_enrich_sbom.py:110-116 | no CVE id exactly when no alias starts with `CVE`; otherwise it is an alias starting with `CVE` |
| `Enrichment.FirstCveAliasPrefix` | scripts/osv_nvd_enrich_sbom.py:111-114 | aliases after the first `CVE` alias do not change the choice |
| `Enrichment.BuildRatings` | scripts/osv_nvd_enrich_sbom.py:121-147 | at most one rating; one exactly when the id is in the table and none of severity, score, version, vector is missing or `"N/A"`; then lower-cased severity, the score, `CVSSv` + version without `.`, the vector |
| `Enrichment.RatingsNormalised` | scripts/osv_nvd_enrich_sbom.py:139-146 | a rating's severity is already lower case, and its method starts with `CVSSv` and holds no `.` |
| `Enrichment.RatingMethodOfVersion` | scripts/osv_nvd_enrich_sbom.py:121-147 | version `3.1` with the other fields present gives one rating with method `CVSSv31` |
| `Enrichment.NewDetails` | scripts/osv_nvd_enrich_sbom.py:119-162 | the source URL starts with `https://osv.dev/vulnerability/`, the description is `""` without details, and there is at most one rating, only for an id in the table |
| `Enrichment.NewEntry` | scripts/osv_nvd_enrich_sbom.py:153-164 | a new entry carries the CVE id, no `affects`, an osv.dev source URL and at most one rating |
| `Enrichment.NewEntrySpec` | scripts/osv_nvd_enrich_sbom.py:149-164 | a new entry has the CVE id, no `affects`, source `OSV-DEV` with the OSV URL of the finding id (`None` when missing), the ratings of the table row and the finding's dates |
| `Enrichment.NewEntryDescription` | scripts/osv_nvd_enrich_sbom.py:151 | the description is cleaned text: normalised, trimmed, and `""` without details |
| `Enrichment.FindingMatchesSound` | scripts/osv_nvd_enrich_sbom.py:110-116 | every match of a component comes from one of its findings with a CVE alias, carries that alias, the new entry of that finding and the component's bom-ref |
| `Enrichment.FindingMatchesComplete` | scripts/osv_nvd_enrich_sbom.py:110-116 | every finding with a CVE alias gives a match |
| `Enrichment.Merge` | scripts/osv_nvd_enrich_sbom.py:118-168 | one match under the lock adds its id to the keys and no other |
| `Enrichment.MergeAll` | scripts/osv_nvd_enrich_sbom.py:118-171 | the keys after merging are the old keys plus the ids the matches name |
| `Enrichment.MergeAllEntries` | scripts/osv_nvd_enrich_sbom.py:118-168 | after merging, the keys are the old keys plus the matched ids; an old entry keeps all its fields and gains the refs of its matches; a new entry is the first match's entry with one ref per match |
| `Enrichment.MergeAllValid` | scripts/osv_nvd_enrich_sbom.py:118-168 | merging keeps one entry per id, stored under its own id, in an insertion order without repeats that only grows |
| `Enrichment.MergeAllCount` | scripts/osv_nvd_enrich_sbom.py:166-168 | every match adds exactly one `affects` reference |
| `Enrichment.MergeAllAppend` | scripts/osv_nvd_enrich_sbom.py:170-171 | merging the matches of one component after another equals merging them all at once |
| `Enrichment.MergeFromEmpty` | scripts/osv_nvd_enrich_sbom.py:83-174 | from the empty dictionary, the keys are the matched ids and the total `affects` length is the number of matches |
| `Enrichment.IdsPermutation` | scripts/osv_nvd_enrich_sbom.py:118-171 | matches in another order name the same CVE ids |
| `Enrichment.RefsForPermutation` | scripts/osv_nvd_enrich_sbom.py:118-171 | matches in another order give the same refs for each id, up to their order |
| `Enrichment.MergeOrderIndependent` | scripts/osv_nvd_enrich_sbom.py:84-171 | merging the matches in any order gives the same ids, the same multiset of refs per id and the same total number of refs |
| `Enrichment.AllMatchesPermutation` | scripts/osv_nvd_enrich_sbom.py:170-171 | components in another order give the same matches in another order |
| `Enrichment.ComponentOrderIndependent` | scripts/osv_nvd_enrich_sbom.py:84-171 | processing the components in any order gives the same ids, the same multiset of refs per id and the same total |
| `Enrichment.Values` | scripts/osv_nvd_enrich_sbom.py:174 | `list(values())` lists the entry of each key in insertion order |
| `Enrichment.Enriched` | scripts/osv_nvd_enrich_sbom.py:170-174 | the returned list never holds two entries with the same id, and its `affects` lists hold one ref per match |
| `Enrichment.EnrichedSpec` | scripts/osv_nvd_enrich_sbom.py:75-174 | the returned list has distinct ids, one per matched CVE; each is the first match's entry with one ref per (component, CVE-matching finding) pair; the total `affects` length is the number of such pairs |
| `Enrichment.VulnerabilityStore.constructor` | scripts/osv_nvd_enrich_sbom.py:83 | the dictionary starts empty |
| `Enrichment.VulnerabilityStore.MergeFinding` | scripts/osv_nvd_enrich_sbom.py:110-168 | one finding leaves the dictionary as the merge of the old one with the finding's match, and unchanged without a `CVE` alias |
| `Enrichment.VulnerabilityStore.ProcessComponent` | scripts/osv_nvd_enrich_sbom.py:86-168 | processing a component leaves the dictionary as the merge of the old one with the component's matches |
| `Enrichment.AddVulnerabilitiesToSbom` | scripts/osv_nvd_enrich_sbom.py:75-174 | the returned list is the merge of all components' matches |
| `SbomIndex.LastIndexOf` | scripts/osv_nvd_enrich_sbom.py:203 | the position found holds the character and none after it does; -1 when absent |
| `SbomIndex.Stem` | scripts/osv_nvd_enrich_sbom.py:203 | the stem is a prefix of the file name; when shorter, it is non-empty, it is followed by the last `.`, and that `.` is not the final character; when not shorter, the name has no such `.` |
| `SbomIndex.ProjectName` | scripts/osv_nvd_enrich_sbom.py:203-205 | the project name is a prefix of the file name |
| `SbomIndex.ProjectNameOfSbomFile` | scripts/osv_nvd_enrich_sbom.py:203-205 | `<project>-sbom.json` gives back `<project>`, whatever it contains |
| `SbomIndex.ProjectNameWithoutSuffix` | scripts/osv_nvd_enrich_sbom.py:203-205 | a name without a dot and without `-sbom` at the end is its own project name |
| `SbomIndex.OutputFileName` | scripts/osv_nvd_enrich_sbom.py:209 | the output file is `<project>-<date>` followed by `-with-vulns.json` and nothing else |
| `SbomIndex.Without` | scripts/osv_nvd_enrich_sbom.py:234 | filtering never lengthens the list |
| `SbomIndex.WithoutMembers` | scripts/osv_nvd_enrich_sbom.py:234 | an item survives exactly when it was there and its id differs |
| `SbomIndex.WithoutAppend` | scripts/osv_nvd_enrich_sbom.py:234 | filtering distributes over concatenation, so the kept items keep their relative order |
| `SbomIndex.WithoutNothingToDrop` | scripts/osv_nvd_enrich_sbom.py:234 | a list without the id is unchanged |
| `SbomIndex.Updated` | scripts/osv_nvd_enrich_sbom.py:227-244 | `latest` names the output file, the last item has the run's id, and the list grows by at most one |
| `SbomIndex.UpdatedSpec` | scripts/osv_nvd_enrich_sbom.py:227-244 | after the update exactly one item has the run's id, it is the last, the items before it are the old ones without that id in order, and `latest` is the output file |
| `SbomIndex.UpdatedIdempotent` | scripts/osv_nvd_enrich_sbom.py:227-244 | updating twice with the same project and date equals updating once |
| `SbomIndex.IndexDocument.constructor` | scripts/osv_nvd_enrich_sbom.py:219-225 | the index is the stored one, or the default naming the output file with no items |
| `SbomIndex.IndexDocument.Update` | scripts/osv_nvd_enrich_sbom.py:227-244 | the filter loop and the append leave the index as the update of the old one |
| `SbomIndex.WriteIndex` | scripts/osv_nvd_enrich_sbom.py:203-244 | the index written is the update, for the project of the SBOM file, of the stored or default index |
| `NvdFeed.FeedNames` | scripts/cve_data_update.py:47-50 | only names starting with `nvdcve-2.0-` and ending with `.json` are kept, each as often as listed |
| `NvdFeed.LexLeTotal` | scripts/cve_data_update.py:51 | any two names are ordered one way or the other |
| `NvdFeed.LexLeTrans` | scripts/cve_data_update.py:51 | the name order is transitive |
| `NvdFeed.Insert` | scripts/cve_data_update.py:51 | inserting adds exactly the new name |
| `NvdFeed.InsertSorted` | scripts/cve_data_update.py:51 | inserting into a sorted list keeps it sorted |
| `NvdFeed.SortNames` | scripts/cve_data_update.py:51 | sorting is a permutation |
| `NvdFeed.SortNamesSorted` | scripts/cve_data_update.py:51 | the sorted list is in ascending order |
| `NvdFeed.FeedFilesSpec` | scripts/cve_data_update.py:47-53 | exactly the listed feed files are read, each as often as listed, in ascending name order |
| `NvdFeed.FirstEnglishAt` | scripts/cve_data_update.py:73-76 | the first description with `lang == "en"` is chosen |
| `NvdFeed.FirstEnglishNone` | scripts/cve_data_update.py:102-103 | without an English description nothing is chosen |
| `NvdFeed.CweOf` | scripts/cve_data_update.py:69-78 | `CWE_Value` is `"N/A"` exactly when no weakness has a first English value other than `"N/A"` |
| `NvdFeed.CweOfSpec` | scripts/cve_data_update.py:69-78 | `CWE_Value` is `"N/A"` exactly when no weakness has a first English value other than `"N/A"`, and otherwise the value of the first weakness that has one |
| `NvdFeed.CweValue` | scripts/cve_data_update.py:69-78 | the nested loops with their breaks compute that value |
| `NvdFeed.CvssData` | scripts/cve_data_update.py:81-86 | no block exactly when no key is present with a non-empty list; otherwise the first element's `cvssData` under such a key |
| `NvdFeed.CvssDataSpec` | scripts/cve_data_update.py:81-86 | the block is taken from the first key present with a non-empty list, its first element's `cvssData`; none when no key qualifies |
| `NvdFeed.FindCvssData` | scripts/cve_data_update.py:81-86 | the key loop with its break finds that block |
| `NvdFeed.CvssOf` | scripts/cve_data_update.py:88-97 | with no block or an empty block all four fields are `"N/A"`; otherwise each field is the block's value or `"N/A"` when it is missing |
| `NvdFeed.CvssPriority` | scripts/cve_data_update.py:81-97 | V31 wins over V30, which wins over V3, even when the winner's `cvssData` is empty; with none of them every field is `"N/A"` |
| `NvdFeed.CleanDescriptionSpec` | scripts/cve_data_update.py:104 | the cleaned description holds no no-break space |
| `NvdFeed.DescriptionOf` | scripts/cve_data_update.py:99-105 | the description never holds a no-break space, and is `"N/A"` without an English description |
| `NvdFeed.DescriptionSpec` | scripts/cve_data_update.py:99-105 | `Description` is `"N/A"` without an English description, otherwise the first English value cleaned, and never holds a no-break space |
| `NvdFeed.DescriptionValue` | scripts/cve_data_update.py:99-105 | the description loop with its break computes that value |
| `NvdFeed.RecordOf` | scripts/cve_data_update.py:62-118 | no record exactly when `cve` or its id is missing or the id is empty; a record carries that id and its file name |
| `NvdFeed.FileRecords` | scripts/cve_data_update.py:60-118 | a file gives at most one record per vulnerability, each with that file name and a non-empty id |
| `NvdFeed.FileRecordsAppend` | scripts/cve_data_update.py:61-118 | records follow the order of the vulnerabilities |
| `NvdFeed.Records` | scripts/cve_data_update.py:53-118 | every record comes from a file read and has a non-empty id |
| `NvdFeed.RecordsAppend` | scripts/cve_data_update.py:53-118 | records follow the order of the files |
| `NvdFeed.FirstIndex` | scripts/cve_data_update.py:122 | the position found is the first row with the id |
| `NvdFeed.KeepFirst` | scripts/cve_data_update.py:120-122 | de-duplication never lengthens the rows and keeps only rows of its input |
| `NvdFeed.KeepFirstIds` | scripts/cve_data_update.py:120-122 | de-duplication keeps exactly the ids of its input and never lengthens it |
| `NvdFeed.KeepFirstFirst` | scripts/cve_data_update.py:120-122 | each kept row is the first row of the input with its id |
| `NvdFeed.KeepFirstOrder` | scripts/cve_data_update.py:120-122 | kept rows appear in the order of their first occurrences |
| `NvdFeed.KeepFirstUnique` | scripts/cve_data_update.py:120-122 | kept ids are pairwise distinct |
| `NvdFeed.Table` | scripts/cve_data_update.py:44-122 | there are no more CSV rows than records, and each row is a record with a non-empty id |
| `NvdFeed.TableSpec` | scripts/cve_data_update.py:44-122 | every CSV row comes from a feed file, has a non-empty id, no two rows share an id, and every id of the records appears |
| `NvdFeed.ExtractRecord` | scripts/cve_data_update.py:62-118 | the loop body builds the record of one vulnerability |
| `NvdFeed.AppendFileRecords` | scripts/cve_data_update.py:61-118 | the loop over one file's vulnerabilities appends that file's records |
| `NvdFeed.ConvertJsonToCsv` | scripts/cve_data_update.py:44-122 | the rows are the keep-first de-duplication of the records of the sorted feed files |

## Left out

- Network: the OSV query is the parameter `osv`. The POST, its timeout and the three-attempt retry of `query_osv` are not modelled; a failed query reads as "no findings". `download_nvd_data` (HTTP, zip extraction, file removal) is not modelled.
- Concurrency: the thread pool and its lock are replaced by a sequential loop over the components, each merging its matches in turn. Any order in which the threads take the lock is some order of the matches; `Enrichment.MergeOrderIndependent` shows that the ids, the multiset of refs per id and the total do not depend on that order. Three things do depend on the scheduler and are fixed here by the sequential order:
  - the order of the returned list;
  - the order of the refs within an entry;
  - which match creates an entry, and so the source URL, description and dates it keeps. The ratings depend only on the CVE id and the table.
- `PackageURL.from_string` is the parameter `parse`. An exception from it is `None`.
- JSON and file I/O, including directory listing, reading and writing the SBOM, the index and the CSV, `mkdir`, and picking the newest SBOM by modification time. The listing and the feed reader are parameters, and so is the stored index (`None` when the file is missing or not valid JSON).
- JSON values of the wrong type, and JSON `null` where a string or list is expected, are not modelled: a field is a string, a list, an object or missing. Exceptions these would raise are not modelled either.
- The clock: the date string is a parameter.
- pandas:
  - the CSV written by `convert_json_to_csv` and read back by `load_cve_csv` is not modelled as text;
  - the enrichment takes the CVE table as a map from id to optional cells, where `None` is a cell pandas reads as missing;
  - `cve_data.loc` on an index that repeats an id is not modelled: the table has one row per id.
- Floating point: `float(bs)` and the JSON numbers of the NVD feed are copied as opaque text.
- Unicode case mapping: `lower()` and `capitalize()` act on ASCII letters only.
- Keys of `sbom_index.json` other than `latest` and `items`, which the script writes back unchanged, are not modelled. Neither are keys of an item other than `id`, `label` and `file`.
- `scripts/generate_sbom.py` is not part of this model. It clones a repository and runs external tools.
- Logging with `print` is not modelled.
- `TextCleaning.CleanTextIdempotent`: idempotence of `clean_text` holds only when every URL in the cleaned text is already parenthesised. `TextCleaning.CleanTextNotIdempotent` shows an input where it fails.
