/** The vulnerability merge of `osv_nvd_enrich_sbom.py`: every SBOM
    component is looked up in OSV, and every finding that names a CVE id
    either creates the one entry kept for that id or adds the component to
    that entry's `affects` list. Ratings come from the NVD CVE table. */
module Enrichment {
  import opened Wrappers
  import opened PyText
  import opened TextCleaning

  // ---------------------------------------------------------------- inputs

  /** A parsed package URL: type, optional namespace, name, optional version.
      The parser itself is a parameter `string -> Option<Purl>`, where `None`
      stands for the exception `PackageURL.from_string` raises. */
  datatype Purl = Purl(ptype: string, namespace: Option<string>, name: string, version: Option<string>)

  /** An SBOM component: its `purl` and its `bom-ref` (`None` when absent). */
  datatype Component = Component(purl: Option<string>, bomRef: Option<string>)

  /** One OSV vulnerability record. A missing `aliases` list is empty; a
      missing or non-string `details` is `None`. */
  datatype Finding = Finding(
    id: Option<string>,
    aliases: seq<string>,
    details: Option<string>,
    published: Option<string>,
    modified: Option<string>)

  /** The package part of an OSV query; `version` is sent only when set. */
  datatype Query = Query(name: string, ecosystem: string, version: Option<string>)

  /** One row of the CVE table, keyed by CVE id elsewhere; `None` is a cell
      pandas reads as NaN. */
  datatype CveRow = CveRow(
    baseScore: Option<string>,
    baseSeverity: Option<string>,
    cvssVersion: Option<string>,
    vectorString: Option<string>)

  type CveTable = map<string, CveRow>

  // --------------------------------------------------------------- outputs

  /** A CycloneDX rating. The score is kept as the table's text. */
  datatype Rating = Rating(severity: string, score: string, ratingMethod: string, vector: string)

  /** The fields of a CycloneDX vulnerability that are set when it is
      created and never change afterwards: `source.name`, `source.url`,
      `description`, `ratings`, `published` and `updated`. */
  datatype Details = Details(
    sourceName: string,
    sourceUrl: string,
    description: string,
    ratings: seq<Rating>,
    published: Option<string>,
    updated: Option<string>)

  /** A CycloneDX vulnerability; `affects` holds the `bom-ref` of every
      component that matched it. */
  datatype Entry = Entry(id: string, details: Details, affects: seq<Option<string>>)

  // ------------------------------------------------- ecosystem and query

  /** The purl types whose OSV ecosystem name is not just capitalised. */
  const EcosystemMapping: map<string, string> := map["pypi" := "PyPI", "maven" := "Maven", "npm" := "npm"]

  /** `ecosystem_mapping.get(eco, eco.capitalize())` */
  function NormalizeEcosystem(purlType: string): (eco: string)
    ensures |eco| == |purlType|
  {
    if purlType in EcosystemMapping then EcosystemMapping[purlType] else Capitalize(purlType)
  }

  /** The three mapped types get their OSV spelling; every other type is
      capitalised, and only the empty type gives the empty ecosystem. */
  lemma EcosystemNames(purlType: string)
    ensures purlType == "pypi" ==> NormalizeEcosystem(purlType) == "PyPI"
    ensures purlType == "maven" ==> NormalizeEcosystem(purlType) == "Maven"
    ensures purlType == "npm" ==> NormalizeEcosystem(purlType) == "npm"
    ensures purlType !in {"pypi", "maven", "npm"} ==>
      var eco := NormalizeEcosystem(purlType);
      && (purlType != [] ==> eco[0] == UpperChar(purlType[0]))
      && (forall i :: 0 < i < |purlType| ==> eco[i] == LowerChar(purlType[i]))
    ensures NormalizeEcosystem(purlType) == "" <==> purlType == ""
  {
  }

  /** The package name sent to OSV: `namespace/name`, or just `name` when
      the namespace is absent or empty. */
  function QueryName(p: Purl): (name: string)
    ensures |name| >= |p.name|
    ensures name[|name| - |p.name|..] == p.name
  {
    if p.namespace.Some? && p.namespace.value != "" then p.namespace.value + "/" + p.name else p.name
  }

  /** The query name keeps the namespace in front of a `/` exactly when
      there is a non-empty namespace, and it is empty only when the name is
      empty and there is no namespace. */
  lemma QueryNameShape(p: Purl)
    ensures p.namespace.Some? && p.namespace.value != "" ==>
      QueryName(p) == p.namespace.value + ['/'] + p.name
    ensures (p.namespace.None? || p.namespace.value == "") ==> QueryName(p) == p.name
    ensures QueryName(p) == "" <==> p.name == "" && (p.namespace.None? || p.namespace.value == "")
  {
  }

  /** `query_osv`: no request, and no findings, when the ecosystem or the
      name is empty; otherwise the answer of `osv` to the query, with the
      version only when it is non-empty. Retries and network failures are
      folded into `osv`. */
  function QueryOsv(ecosystem: string, name: string, version: Option<string>, osv: Query -> seq<Finding>): (findings: seq<Finding>)
    ensures ecosystem == "" || name == "" ==> findings == []
    ensures ecosystem != "" && name != "" ==>
      findings == osv(Query(name, ecosystem, if version.Some? && version.value != "" then version else None))
  {
    if ecosystem == "" || name == "" then []
    else osv(Query(name, ecosystem, if version.Some? && version.value != "" then version else None))
  }

  /** The purl of a component, parsed; `None` when it has no purl, an empty
      one, or one the parser rejects. */
  function ParsedPurl(c: Component, parse: string -> Option<Purl>): Option<Purl> {
    if c.purl.None? || c.purl.value == "" then None else parse(c.purl.value)
  }

  /** The OSV findings for one component. */
  function ComponentFindings(c: Component, parse: string -> Option<Purl>, osv: Query -> seq<Finding>): seq<Finding> {
    match ParsedPurl(c, parse)
    case None => []
    case Some(p) => QueryOsv(NormalizeEcosystem(p.ptype), QueryName(p), p.version, osv)
  }

  /** A component without a usable purl, or whose purl has an empty type or
      name, asks nothing and finds nothing. */
  lemma NoPurlNoFindings(c: Component, parse: string -> Option<Purl>, osv: Query -> seq<Finding>)
    ensures ParsedPurl(c, parse).None? ==> ComponentFindings(c, parse, osv) == []
    ensures ParsedPurl(c, parse).Some? ==>
      var p := ParsedPurl(c, parse).value;
      (p.ptype == "" || (p.name == "" && (p.namespace.None? || p.namespace.value == ""))) ==>
      ComponentFindings(c, parse, osv) == []
  {
    if ParsedPurl(c, parse).Some? {
      var p := ParsedPurl(c, parse).value;
      EcosystemNames(p.ptype);
      QueryNameShape(p);
    }
  }

  // ------------------------------------------------------ the CVE alias

  /** The position of the first alias that starts with `CVE`, or the
      length of the list when there is none. */
  function FirstCveIndex(aliases: seq<string>): (i: nat)
    ensures i <= |aliases|
    ensures i < |aliases| ==> StartsWith(aliases[i], "CVE")
    ensures forall j :: 0 <= j < i ==> !StartsWith(aliases[j], "CVE")
  {
    if aliases == [] then 0
    else if StartsWith(aliases[0], "CVE") then 0
    else 1 + FirstCveIndex(aliases[1..])
  }

  /** `next((a for a in aliases if a.startswith("CVE")), None)` */
  function FirstCveAlias(aliases: seq<string>): (cve: Option<string>)
    ensures cve.Some? ==> cve.value in aliases && StartsWith(cve.value, "CVE")
    ensures cve.None? <==> forall j :: 0 <= j < |aliases| ==> !StartsWith(aliases[j], "CVE")
  {
    var i := FirstCveIndex(aliases);
    if i < |aliases| then Some(aliases[i]) else None
  }

  /** The chosen alias is a `CVE...` alias that no earlier alias precedes;
      there is none exactly when no alias starts with `CVE`. */
  lemma FirstCveAliasSpec(aliases: seq<string>)
    ensures FirstCveAlias(aliases).None? <==> forall j :: 0 <= j < |aliases| ==> !StartsWith(aliases[j], "CVE")
    ensures FirstCveAlias(aliases).Some? ==>
      && FirstCveAlias(aliases).value in aliases
      && StartsWith(FirstCveAlias(aliases).value, "CVE")
      && |FirstCveAlias(aliases).value| >= 3
  {
    var i := FirstCveIndex(aliases);
    if i == |aliases| {
      assert FirstCveAlias(aliases).None?;
    } else {
      assert FirstCveAlias(aliases) == Some(aliases[i]);
      assert !(forall j :: 0 <= j < |aliases| ==> !StartsWith(aliases[j], "CVE"));
    }
  }

  /** Aliases after the first `CVE...` one never matter. */
  lemma FirstCveAliasPrefix(aliases: seq<string>, more: seq<string>)
    requires FirstCveAlias(aliases).Some?
    ensures FirstCveAlias(aliases + more) == FirstCveAlias(aliases)
  {
    var i := FirstCveIndex(aliases);
    var k := FirstCveIndex(aliases + more);
    assert (aliases + more)[i] == aliases[i];
  }

  // -------------------------------------------------------------- ratings

  /** `x == "N/A" or pd.isna(x)` */
  predicate Missing(cell: Option<string>) {
    cell.None? || cell.value == "N/A"
  }

  /** The ratings of a new entry from its row of the CVE table (`None`
      when the id is not in the table): one rating when all four cells are
      present, none otherwise. */
  function BuildRatings(row: Option<CveRow>): (ratings: seq<Rating>)
    ensures |ratings| <= 1
    ensures |ratings| == 1 <==>
      && row.Some?
      && !Missing(row.value.baseSeverity)
      && !Missing(row.value.baseScore)
      && !Missing(row.value.cvssVersion)
      && !Missing(row.value.vectorString)
    ensures |ratings| == 1 ==>
      && ratings[0].severity == Lower(row.value.baseSeverity.value)
      && ratings[0].score == row.value.baseScore.value
      && ratings[0].ratingMethod == "CVSSv" + RemoveChar(row.value.cvssVersion.value, '.')
      && ratings[0].vector == row.value.vectorString.value
  {
    match row
    case None => []
    case Some(r) =>
      if Missing(r.baseSeverity) || Missing(r.baseScore) || Missing(r.cvssVersion) || Missing(r.vectorString) then []
      else [Rating(Lower(r.baseSeverity.value), r.baseScore.value, "CVSSv" + RemoveChar(r.cvssVersion.value, '.'), r.vectorString.value)]
  }

  lemma LowerIdempotent(s: string)
    ensures Lower(Lower(s)) == Lower(s)
  {
    var l := Lower(s);
    assert forall i :: 0 <= i < |s| ==> Lower(l)[i] == LowerChar(LowerChar(s[i])) == LowerChar(s[i]);
  }

  /** Every rating is normalised: its severity is already lower case, and
      its method is `CVSSv` followed by a text without `.`. */
  lemma RatingsNormalised(row: Option<CveRow>)
    ensures forall r :: r in BuildRatings(row) ==>
      && Lower(r.severity) == r.severity
      && StartsWith(r.ratingMethod, "CVSSv")
      && '.' !in r.ratingMethod
  {
    if BuildRatings(row) != [] {
      var r := BuildRatings(row)[0];
      LowerIdempotent(row.value.baseSeverity.value);
      var v := RemoveChar(row.value.cvssVersion.value, '.');
      assert r.ratingMethod == "CVSSv" + v;
      assert r.ratingMethod[..5] == "CVSSv";
      assert forall i :: 5 <= i < |r.ratingMethod| ==> r.ratingMethod[i] == v[i - 5];
    }
  }

  /** The version `3.1` gives the method `CVSSv31`: the dot is dropped
      and the digits keep their order. */
  lemma RatingMethodOfVersion(score: string, severity: string, vector: string)
    requires score != "N/A" && severity != "N/A" && vector != "N/A"
    ensures var ratings := BuildRatings(Some(CveRow(Some(score), Some(severity), Some("3.1"), Some(vector))));
      |ratings| == 1 && ratings[0].ratingMethod == "CVSSv31"
  {
    assert "3.1" == "3" + "." + "1";
    RemoveCharAppend("3" + ".", "1", '.');
    RemoveCharAppend("3", ".", '.');
    assert RemoveChar(".", '.') == [] by {
      assert "."[1..] == [];
    }
  }

  // ------------------------------------------------------------ entries

  /** `str(x)` for an optional value: the text, or `None`. */
  function PyStr(x: Option<string>): string {
    match x
    case None => "None"
    case Some(s) => s
  }

  /** The prefix of the `source.url` of every entry. */
  const OsvUrlPrefix := "https://osv.dev/vulnerability/"

  /** The details of the entry a finding creates for `cveId`. */
  function NewDetails(cveId: string, f: Finding, table: CveTable): (d: Details)
    ensures StartsWith(d.sourceUrl, OsvUrlPrefix)
    ensures f.details.None? ==> d.description == ""
    ensures |d.ratings| <= 1 && (d.ratings != [] ==> cveId in table)
  {
    var url := OsvUrlPrefix + PyStr(f.id);
    assert url[..|OsvUrlPrefix|] == OsvUrlPrefix;
    Details(
      "OSV-DEV", url, CleanText(f.details),
      BuildRatings(if cveId in table then Some(table[cveId]) else None),
      f.published, f.modified)
  }

  /** The entry a finding creates for `cveId`, before any component is
      added to `affects`. */
  function NewEntry(cveId: string, f: Finding, table: CveTable): (e: Entry)
    ensures e.id == cveId && e.affects == []
    ensures StartsWith(e.details.sourceUrl, OsvUrlPrefix) && |e.details.ratings| <= 1
  {
    Entry(cveId, NewDetails(cveId, f, table), [])
  }

  /** A new entry carries the CVE id, points at the finding on osv.dev,
      has ratings only when the id is in the table, the finding's dates, and
      no affected component yet. */
  lemma NewEntrySpec(cveId: string, f: Finding, table: CveTable)
    ensures NewEntry(cveId, f, table).id == cveId
    ensures NewEntry(cveId, f, table).affects == []
    ensures var d := NewEntry(cveId, f, table).details;
      && d.sourceName == "OSV-DEV"
      && StartsWith(d.sourceUrl, OsvUrlPrefix)
      && (f.id.Some? ==> d.sourceUrl[|OsvUrlPrefix|..] == f.id.value)
      && (f.id.None? ==> d.sourceUrl[|OsvUrlPrefix|..] == "None")
      && (cveId !in table ==> d.ratings == [])
      && (cveId in table ==> d.ratings == BuildRatings(Some(table[cveId])))
      && d.published == f.published && d.updated == f.modified
  {
    var url := OsvUrlPrefix + PyStr(f.id);
    assert url[..|OsvUrlPrefix|] == OsvUrlPrefix;
    assert url[|OsvUrlPrefix|..] == PyStr(f.id);
  }

  /** The description of a new entry is the cleaned details: ASCII, single
      spaces, trimmed, and empty when the finding has no details. */
  lemma NewEntryDescription(cveId: string, f: Finding, table: CveTable)
    ensures var d := NewEntry(cveId, f, table).details.description;
      && Normalised(d)
      && (d != [] ==> !IsSpace(d[0]) && !IsSpace(d[|d| - 1]))
      && (f.details.None? ==> d == "")
  {
    CleanTextWellFormed(f.details);
  }

  // ------------------------------------------------------------ matches

  /** One (component, finding) pair whose finding names `cveId`: the
      details of the entry the finding creates when it is the first to name
      `cveId`, and the component's `bom-ref`. */
  datatype Match = Match(cveId: string, details: Details, ref: Option<string>)

  /** The matches one finding of the component with `bom-ref` `ref` yields. */
  function MatchOf(f: Finding, ref: Option<string>, table: CveTable): seq<Match> {
    match FirstCveAlias(f.aliases)
    case None => []
    case Some(id) => [Match(id, NewDetails(id, f, table), ref)]
  }

  /** The matches of a list of findings, in order. */
  function FindingMatches(findings: seq<Finding>, ref: Option<string>, table: CveTable): seq<Match>
    decreases |findings|
  {
    if findings == [] then []
    else FindingMatches(findings[..|findings| - 1], ref, table) + MatchOf(findings[|findings| - 1], ref, table)
  }

  /** At most one match per finding, and every match comes from one of the
      findings that has a `CVE...` alias: it carries the first such alias,
      the details that finding gives its entry and the component's
      `bom-ref`. */
  lemma {:induction false} FindingMatchesSound(findings: seq<Finding>, ref: Option<string>, table: CveTable)
    ensures |FindingMatches(findings, ref, table)| <= |findings|
    ensures forall m :: m in FindingMatches(findings, ref, table) ==>
      && m.ref == ref
      && exists f :: f in findings && FirstCveAlias(f.aliases) == Some(m.cveId) && m.details == NewDetails(m.cveId, f, table)
    decreases |findings|
  {
    if findings != [] {
      var init := findings[..|findings| - 1];
      var f := findings[|findings| - 1];
      FindingMatchesSound(init, ref, table);
      assert forall g :: g in init ==> g in findings;
    }
  }

  /** Every finding that has a `CVE...` alias yields its match. */
  lemma {:induction false} FindingMatchesComplete(findings: seq<Finding>, ref: Option<string>, table: CveTable)
    ensures forall f :: f in findings && FirstCveAlias(f.aliases).Some? ==>
      var id := FirstCveAlias(f.aliases).value;
      Match(id, NewDetails(id, f, table), ref) in FindingMatches(findings, ref, table)
    decreases |findings|
  {
    if findings != [] {
      var init := findings[..|findings| - 1];
      var f := findings[|findings| - 1];
      FindingMatchesComplete(init, ref, table);
      assert findings == init + [f];
    }
  }

  /** The matches contributed by one component. */
  function ComponentMatches(c: Component, parse: string -> Option<Purl>, osv: Query -> seq<Finding>, table: CveTable): seq<Match> {
    FindingMatches(ComponentFindings(c, parse, osv), c.bomRef, table)
  }

  /** The matches of all components, component by component. */
  function AllMatches(cs: seq<Component>, parse: string -> Option<Purl>, osv: Query -> seq<Finding>, table: CveTable): seq<Match>
    decreases |cs|
  {
    if cs == [] then []
    else AllMatches(cs[..|cs| - 1], parse, osv, table) + ComponentMatches(cs[|cs| - 1], parse, osv, table)
  }

  // ---------------------------------------------------------- the store

  /** `vulnerabilities_dict`: the entries by CVE id and, in `order`, the
      ids in the order they were inserted (the order of `dict.values()`). */
  datatype Store = Store(entries: map<string, Entry>, order: seq<string>)

  const EmptyStore := Store(map[], [])

  /** The ids in `order` are exactly the keys, each once, and every entry
      carries its own key as id. */
  predicate Valid(s: Store) {
    && (forall k :: k in s.entries ==> k in s.order)
    && (forall k :: k in s.order ==> k in s.entries)
    && (forall i, j :: 0 <= i < j < |s.order| ==> s.order[i] != s.order[j])
    && (forall k :: k in s.entries ==> s.entries[k].id == k)
  }

  /** The store with an entry for the id of `m`: unchanged when there is
      one, otherwise with the entry `m` creates added at the end. */
  function Created(s: Store, m: Match): (t: Store)
    ensures m.cveId in t.entries
  {
    if m.cveId in s.entries then s
    else Store(s.entries[m.cveId := Entry(m.cveId, m.details, [])], s.order + [m.cveId])
  }

  /** The store with `ref` appended to the `affects` of the entry for `k`. */
  function AddRef(s: Store, k: string, ref: Option<string>): Store
    requires k in s.entries
  {
    var e := s.entries[k];
    Store(s.entries[k := e.(affects := e.affects + [ref])], s.order)
  }

  /** One match under the lock: create the entry on the first sight of the
      id, then append the component's `bom-ref` to its `affects`. */
  function Merge(s: Store, m: Match): (t: Store)
    ensures t.entries.Keys == s.entries.Keys + {m.cveId}
  {
    AddRef(Created(s, m), m.cveId, m.ref)
  }

  /** The matches merged one after the other. */
  function MergeAll(s: Store, ms: seq<Match>): (t: Store)
    ensures t.entries.Keys == s.entries.Keys + Ids(ms)
    decreases |ms|
  {
    if ms == [] then s
    else Merge(MergeAll(s, ms[..|ms| - 1]), ms[|ms| - 1])
  }

  /** The ids the matches name. `NvdFeed` keeps its own `Ids` over CSV
      records: the two modules share no record type and neither imports
      the other. */
  function Ids(ms: seq<Match>): set<string>
    decreases |ms|
  {
    if ms == [] then {} else Ids(ms[..|ms| - 1]) + {ms[|ms| - 1].cveId}
  }

  /** Every match names one of the ids. */
  lemma {:induction false} IdsHas(ms: seq<Match>, i: nat)
    requires i < |ms|
    ensures ms[i].cveId in Ids(ms)
    decreases |ms|
  {
    if i < |ms| - 1 {
      IdsHas(ms[..|ms| - 1], i);
    }
  }

  /** The ids are exactly those the matches name. */
  lemma {:induction false} IdsSpec(ms: seq<Match>)
    ensures forall k :: k in Ids(ms) <==> exists i :: 0 <= i < |ms| && ms[i].cveId == k
    decreases |ms|
  {
    if ms != [] {
      var init := ms[..|ms| - 1];
      IdsSpec(init);
      forall k | k in Ids(ms)
        ensures exists i :: 0 <= i < |ms| && ms[i].cveId == k
      {
        if k in Ids(init) {
          var i :| 0 <= i < |init| && init[i].cveId == k;
          assert ms[i] == init[i];
        } else {
          assert ms[|ms| - 1].cveId == k;
        }
      }
      forall i | 0 <= i < |ms|
        ensures ms[i].cveId in Ids(ms)
      {
        IdsHas(ms, i);
      }
    }
  }

  /** The `bom-ref`s of the matches for `k`, in order. */
  function RefsFor(ms: seq<Match>, k: string): seq<Option<string>>
    decreases |ms|
  {
    if ms == [] then []
    else RefsFor(ms[..|ms| - 1], k) + (if ms[|ms| - 1].cveId == k then [ms[|ms| - 1].ref] else [])
  }

  /** The position of the first match for `k`; `NvdFeed.FirstIndex` is
      the same search over CSV records, kept there for the same reason as
      `Ids`. */
  function FirstWith(ms: seq<Match>, k: string): (i: nat)
    requires k in Ids(ms)
    ensures i < |ms| && ms[i].cveId == k
    ensures forall j :: 0 <= j < i ==> ms[j].cveId != k
    decreases |ms|
  {
    var init := ms[..|ms| - 1];
    if k in Ids(init) then
      var i := FirstWith(init, k);
      assert ms[i] == init[i];
      assert forall j :: 0 <= j < i ==> ms[j] == init[j];
      i
    else
      IdsSpec(init);
      assert forall j :: 0 <= j < |ms| - 1 ==> ms[j] == init[j];
      |ms| - 1
  }

  /** What the entry for `k` is after the matches: an existing entry keeps
      every field and gains the new refs; a new one is built from the
      first match for `k` and holds exactly the refs of the matches. */
  function Expected(s: Store, ms: seq<Match>, k: string): Entry
    requires k in s.entries || k in Ids(ms)
  {
    if k in s.entries then
      var e := s.entries[k];
      e.(affects := e.affects + RefsFor(ms, k))
    else
      Entry(k, ms[FirstWith(ms, k)].details, RefsFor(ms, k))
  }

  lemma IdsSnoc(ms: seq<Match>, m: Match)
    ensures Ids(ms + [m]) == Ids(ms) + {m.cveId}
  {
    assert (ms + [m])[..|ms|] == ms;
  }

  lemma {:induction false} RefsForAbsent(ms: seq<Match>, k: string)
    requires k !in Ids(ms)
    ensures RefsFor(ms, k) == []
    decreases |ms|
  {
    if ms != [] {
      var init := ms[..|ms| - 1];
      assert ms == init + [ms[|ms| - 1]];
      IdsSnoc(init, ms[|ms| - 1]);
      RefsForAbsent(init, k);
    }
  }

  lemma RefsForSnoc(ms: seq<Match>, m: Match, k: string)
    ensures RefsFor(ms + [m], k) == RefsFor(ms, k) + (if m.cveId == k then [m.ref] else [])
  {
    assert (ms + [m])[..|ms|] == ms;
  }

  lemma FirstWithSnoc(ms: seq<Match>, m: Match, k: string)
    requires k in Ids(ms)
    ensures k in Ids(ms + [m])
    ensures FirstWith(ms + [m], k) == FirstWith(ms, k)
    ensures (ms + [m])[FirstWith(ms, k)] == ms[FirstWith(ms, k)]
  {
    IdsSnoc(ms, m);
    var i := FirstWith(ms, k);
    var i' := FirstWith(ms + [m], k);
    assert (ms + [m])[i] == ms[i];
  }

  lemma FirstWithNew(ms: seq<Match>, m: Match)
    requires m.cveId !in Ids(ms)
    ensures m.cveId in Ids(ms + [m])
    ensures FirstWith(ms + [m], m.cveId) == |ms|
  {
    IdsSnoc(ms, m);
    var i' := FirstWith(ms + [m], m.cveId);
  }

  /** A match for another id leaves the expected entry for `k` alone. */
  lemma ExpectedOther(s: Store, ms: seq<Match>, m: Match, k: string)
    requires k in s.entries || k in Ids(ms)
    requires m.cveId != k
    ensures k in s.entries || k in Ids(ms + [m])
    ensures Expected(s, ms + [m], k) == Expected(s, ms, k)
  {
    IdsSnoc(ms, m);
    RefsForSnoc(ms, m, k);
    assert RefsFor(ms, k) + [] == RefsFor(ms, k);
    if k !in s.entries {
      FirstWithSnoc(ms, m, k);
    }
  }

  /** A match for `k` adds its ref to the expected entry for `k`. */
  lemma ExpectedSame(s: Store, ms: seq<Match>, m: Match)
    requires m.cveId in s.entries || m.cveId in Ids(ms)
    ensures m.cveId in s.entries || m.cveId in Ids(ms + [m])
    ensures var e := Expected(s, ms, m.cveId);
      Expected(s, ms + [m], m.cveId) == e.(affects := e.affects + [m.ref])
  {
    var k := m.cveId;
    IdsSnoc(ms, m);
    RefsForSnoc(ms, m, k);
    if k in s.entries {
      var e := s.entries[k];
      assert e.affects + RefsFor(ms, k) + [m.ref] == e.affects + (RefsFor(ms, k) + [m.ref]);
    } else {
      FirstWithSnoc(ms, m, k);
    }
  }

  /** The first match for a new id creates its entry. */
  lemma ExpectedNew(s: Store, ms: seq<Match>, m: Match)
    requires m.cveId !in s.entries && m.cveId !in Ids(ms)
    ensures m.cveId in Ids(ms + [m])
    ensures Expected(s, ms + [m], m.cveId) == Entry(m.cveId, m.details, [m.ref])
  {
    RefsForSnoc(ms, m, m.cveId);
    RefsForAbsent(ms, m.cveId);
    FirstWithNew(ms, m);
    assert (ms + [m])[|ms|] == m;
  }

  /** With no matches every entry stays as it is. */
  lemma ExpectedNone(s: Store, k: string)
    requires k in s.entries
    ensures Expected(s, [], k) == s.entries[k]
  {
    assert s.entries[k].affects + [] == s.entries[k].affects;
  }

  /** A merge touches only the entry of its own id. */
  lemma MergeOther(t: Store, m: Match, k: string)
    requires k != m.cveId
    ensures k in Merge(t, m).entries <==> k in t.entries
    ensures k in t.entries ==> Merge(t, m).entries[k] == t.entries[k]
  {
  }

  /** A merge adds the ref to the entry of its id, creating it first. */
  lemma MergeSame(t: Store, m: Match)
    ensures m.cveId in Merge(t, m).entries
    ensures m.cveId in t.entries ==>
      var e := t.entries[m.cveId];
      Merge(t, m).entries[m.cveId] == e.(affects := e.affects + [m.ref])
    ensures m.cveId !in t.entries ==>
      Merge(t, m).entries[m.cveId] == Entry(m.cveId, m.details, [m.ref])
  {
  }

  /** One more match, given what holds after the earlier ones. */
  lemma MergeStep(s: Store, ms: seq<Match>, m: Match, t: Store)
    requires t.entries.Keys == s.entries.Keys + Ids(ms)
    requires forall k :: k in t.entries ==> t.entries[k] == Expected(s, ms, k)
    ensures Merge(t, m).entries.Keys == s.entries.Keys + Ids(ms + [m])
    ensures forall k :: k in Merge(t, m).entries ==> Merge(t, m).entries[k] == Expected(s, ms + [m], k)
  {
    IdsSnoc(ms, m);
    var u := Merge(t, m);
    var k0 := m.cveId;
    MergeSame(t, m);
    if k0 in t.entries {
      ExpectedSame(s, ms, m);
    } else {
      ExpectedNew(s, ms, m);
    }
    forall k | k != k0
      ensures k in u.entries <==> k in t.entries
      ensures k in u.entries ==> u.entries[k] == Expected(s, ms + [m], k)
    {
      MergeOther(t, m, k);
      if k in t.entries {
        ExpectedOther(s, ms, m, k);
      }
    }
  }

  /** After merging `ms`, the keys are the old ones plus the ids the
      matches name, and every entry is the one `Expected` describes. */
  lemma {:induction false} MergeAllEntries(s: Store, ms: seq<Match>)
    ensures MergeAll(s, ms).entries.Keys == s.entries.Keys + Ids(ms)
    ensures forall k :: k in MergeAll(s, ms).entries ==>
      MergeAll(s, ms).entries[k] == Expected(s, ms, k)
    decreases |ms|
  {
    if ms == [] {
      assert Ids(ms) == {};
      forall k | k in s.entries
        ensures s.entries[k] == Expected(s, [], k)
      {
        ExpectedNone(s, k);
      }
    } else {
      var init := ms[..|ms| - 1];
      var m := ms[|ms| - 1];
      assert init + [m] == ms;
      var t := MergeAll(s, init);
      assert MergeAll(s, ms) == Merge(t, m);
      MergeAllEntries(s, init);
      MergeStep(s, init, m, t);
    }
  }

  /** One merge keeps the store valid and only ever appends to `order`. */
  lemma MergeValid(s: Store, m: Match)
    requires Valid(s)
    ensures Valid(Merge(s, m))
    ensures s.order <= Merge(s, m).order
  {
    CreatedValid(s, m);
    AddRefValid(Created(s, m), m.cveId, m.ref);
  }

  /** Merging keeps the store valid. */
  lemma {:induction false} MergeAllValid(s: Store, ms: seq<Match>)
    requires Valid(s)
    ensures Valid(MergeAll(s, ms))
    ensures s.order <= MergeAll(s, ms).order
    decreases |ms|
  {
    if ms != [] {
      var init := ms[..|ms| - 1];
      MergeAllValid(s, init);
      MergeValid(MergeAll(s, init), ms[|ms| - 1]);
    }
  }

  /** Merging the matches of two batches one after the other is merging
      them all. */
  lemma {:induction false} MergeAllAppend(s: Store, ms: seq<Match>, more: seq<Match>)
    ensures MergeAll(MergeAll(s, ms), more) == MergeAll(s, ms + more)
    decreases |more|
  {
    if more == [] {
      assert ms + more == ms;
    } else {
      var init := more[..|more| - 1];
      MergeAllAppend(s, ms, init);
      assert (ms + more)[..|ms + more| - 1] == ms + init;
    }
  }

  // ------------------------------------------------ the returned values

  /** The entries in the order of their ids. */
  function Values(order: seq<string>, entries: map<string, Entry>): (vs: seq<Entry>)
    requires forall k :: k in order ==> k in entries
    ensures |vs| == |order|
    ensures forall i :: 0 <= i < |order| ==> vs[i] == entries[order[i]]
    decreases |order|
  {
    if order == [] then []
    else Values(order[..|order| - 1], entries) + [entries[order[|order| - 1]]]
  }

  /** The total length of the `affects` lists. */
  function AffectsCount(vs: seq<Entry>): nat
    decreases |vs|
  {
    if vs == [] then 0 else AffectsCount(vs[..|vs| - 1]) + |vs[|vs| - 1].affects|
  }

  /** The `affects` total of a valid store. */
  function Count(s: Store): nat
    requires Valid(s)
  {
    AffectsCount(Values(s.order, s.entries))
  }

  /** Appending one ref to the entry at position `i` raises the total by
      one. */
  lemma {:induction false} AffectsCountBump(vs: seq<Entry>, i: nat, r: Option<string>)
    requires i < |vs|
    ensures AffectsCount(vs[i := vs[i].(affects := vs[i].affects + [r])]) == AffectsCount(vs) + 1
    decreases |vs|
  {
    var ws := vs[i := vs[i].(affects := vs[i].affects + [r])];
    assert ws[..|ws| - 1] == if i < |vs| - 1 then vs[..|vs| - 1][i := vs[i].(affects := vs[i].affects + [r])] else vs[..|vs| - 1];
    if i < |vs| - 1 {
      AffectsCountBump(vs[..|vs| - 1], i, r);
    }
  }

  /** An entry whose id is not in `order` does not show in the values. */
  lemma ValuesIgnore(order: seq<string>, entries: map<string, Entry>, k: string, e: Entry)
    requires forall x :: x in order ==> x in entries
    requires k !in order
    ensures Values(order, entries[k := e]) == Values(order, entries)
  {
    var a := Values(order, entries[k := e]);
    var b := Values(order, entries);
    forall i | 0 <= i < |order|
      ensures a[i] == b[i]
    {
      assert order[i] in order;
    }
  }

  /** A new id at the end of `order` puts its entry at the end. */
  lemma ValuesSnoc(order: seq<string>, entries: map<string, Entry>, k: string, e: Entry)
    requires forall x :: x in order ==> x in entries
    requires k !in order
    ensures Values(order + [k], entries[k := e]) == Values(order, entries) + [e]
  {
    assert (order + [k])[..|order|] == order;
    ValuesIgnore(order, entries, k, e);
  }

  /** Replacing the entry of the `i`-th id replaces the `i`-th value. */
  lemma ValuesUpdate(order: seq<string>, entries: map<string, Entry>, i: nat, e: Entry)
    requires forall x :: x in order ==> x in entries
    requires i < |order|
    requires forall j :: 0 <= j < |order| && j != i ==> order[j] != order[i]
    ensures Values(order, entries[order[i] := e]) == Values(order, entries)[i := e]
  {
  }

  lemma AffectsCountSnoc(vs: seq<Entry>, e: Entry)
    ensures AffectsCount(vs + [e]) == AffectsCount(vs) + |e.affects|
  {
    assert (vs + [e])[..|vs|] == vs;
  }

  /** Creating an entry keeps the store valid. */
  lemma CreatedValid(s: Store, m: Match)
    requires Valid(s)
    ensures Valid(Created(s, m))
  {
  }

  /** Creating an entry adds no ref. */
  lemma CreatedCount(s: Store, m: Match)
    requires Valid(s)
    ensures Valid(Created(s, m))
    ensures Count(Created(s, m)) == Count(s)
  {
    CreatedValid(s, m);
    if m.cveId !in s.entries {
      CreatedCountNew(s, m);
    }
  }

  lemma CreatedCountNew(s: Store, m: Match)
    requires Valid(s) && m.cveId !in s.entries
    ensures Valid(Created(s, m))
    ensures Count(Created(s, m)) == Count(s)
  {
    CreatedValid(s, m);
    var k := m.cveId;
    var e := Entry(k, m.details, []);
    var before := Values(s.order, s.entries);
    assert Created(s, m) == Store(s.entries[k := e], s.order + [k]);
    assert k !in s.order;
    ValuesSnoc(s.order, s.entries, k, e);
    AffectsCountSnoc(before, e);
  }

  /** Adding a ref keeps the store valid. */
  lemma AddRefValid(s: Store, k: string, ref: Option<string>)
    requires Valid(s) && k in s.entries
    ensures Valid(AddRef(s, k, ref))
  {
  }

  /** Adding a ref adds one ref. */
  lemma AddRefCount(s: Store, k: string, ref: Option<string>)
    requires Valid(s) && k in s.entries
    ensures Valid(AddRef(s, k, ref))
    ensures Count(AddRef(s, k, ref)) == Count(s) + 1
  {
    AddRefValid(s, k, ref);
    var e := s.entries[k];
    var vs := Values(s.order, s.entries);
    assert k in s.order;
    var i :| 0 <= i < |s.order| && s.order[i] == k;
    ValuesUpdate(s.order, s.entries, i, e.(affects := e.affects + [ref]));
    AffectsCountBump(vs, i, ref);
  }

  /** Every merge adds exactly one ref in total, so the `affects` lists
      together hold one ref per match. */
  lemma {:induction false} MergeAllCount(s: Store, ms: seq<Match>)
    requires Valid(s)
    ensures Valid(MergeAll(s, ms))
    ensures Count(MergeAll(s, ms)) == Count(s) + |ms|
    decreases |ms|
  {
    if ms != [] {
      var init := ms[..|ms| - 1];
      var m := ms[|ms| - 1];
      MergeAllCount(s, init);
      var c := Created(MergeAll(s, init), m);
      CreatedCount(MergeAll(s, init), m);
      AddRefCount(c, m.cveId, m.ref);
      assert MergeAll(s, ms) == AddRef(c, m.cveId, m.ref);
    }
  }

  /** The list `add_vulnerabilities_to_sbom` returns for the components,
      with the components taken one after the other. */
  function Enriched(cs: seq<Component>, parse: string -> Option<Purl>, osv: Query -> seq<Finding>, table: CveTable): (vs: seq<Entry>)
    ensures forall i, j :: 0 <= i < j < |vs| ==> vs[i].id != vs[j].id
    ensures AffectsCount(vs) == |AllMatches(cs, parse, osv, table)|
  {
    var ms := AllMatches(cs, parse, osv, table);
    var t := MergeAll(EmptyStore, ms);
    MergeAllValid(EmptyStore, ms);
    MergeFromEmpty(ms);
    ValuesOfValid(t);
    Values(t.order, t.entries)
  }

  /** Merging into the empty store gives one entry per id named, built
      from its first match and holding the refs of all its matches. */
  lemma MergeFromEmpty(ms: seq<Match>)
    ensures Valid(MergeAll(EmptyStore, ms))
    ensures MergeAll(EmptyStore, ms).entries.Keys == Ids(ms)
    ensures forall k :: k in MergeAll(EmptyStore, ms).entries ==>
      MergeAll(EmptyStore, ms).entries[k] == Entry(k, ms[FirstWith(ms, k)].details, RefsFor(ms, k))
    ensures Count(MergeAll(EmptyStore, ms)) == |ms|
  {
    assert Valid(EmptyStore);
    assert Count(EmptyStore) == 0 by {
      assert Values(EmptyStore.order, EmptyStore.entries) == [];
    }
    MergeAllEntries(EmptyStore, ms);
    MergeAllCount(EmptyStore, ms);
  }

  /** The values of a valid store: each entry once, in `order`. */
  lemma ValuesOfValid(t: Store)
    requires Valid(t)
    ensures var vs := Values(t.order, t.entries);
      && (forall i, j :: 0 <= i < j < |vs| ==> vs[i].id != vs[j].id)
      && (forall i :: 0 <= i < |vs| ==> vs[i].id in t.entries && vs[i] == t.entries[vs[i].id])
      && (forall k :: k in t.entries ==> exists i :: 0 <= i < |vs| && vs[i].id == k)
  {
    var vs := Values(t.order, t.entries);
    forall i | 0 <= i < |vs|
      ensures vs[i].id == t.order[i]
    {
      assert t.order[i] in t.order;
    }
    forall k | k in t.entries
      ensures exists i :: 0 <= i < |vs| && vs[i].id == k
    {
      var i :| 0 <= i < |t.order| && t.order[i] == k;
      assert vs[i].id == k;
    }
  }

  /** What the returned list holds: one entry per CVE id matched, never
      two with the same id; each built from the first finding that named
      it, and listing every matching component's `bom-ref` in order; so
      the `affects` lists have as many refs as there are matches. */
  lemma EnrichedSpec(cs: seq<Component>, parse: string -> Option<Purl>, osv: Query -> seq<Finding>, table: CveTable)
    ensures var vs := Enriched(cs, parse, osv, table);
      var ms := AllMatches(cs, parse, osv, table);
      && (forall i, j :: 0 <= i < j < |vs| ==> vs[i].id != vs[j].id)
      && (forall k :: k in Ids(ms) ==> exists i :: 0 <= i < |vs| && vs[i].id == k)
      && (forall i :: 0 <= i < |vs| ==>
            && vs[i].id in Ids(ms)
            && vs[i] == Entry(vs[i].id, ms[FirstWith(ms, vs[i].id)].details, RefsFor(ms, vs[i].id)))
      && AffectsCount(vs) == |ms|
  {
    var ms := AllMatches(cs, parse, osv, table);
    var t := MergeAll(EmptyStore, ms);
    MergeFromEmpty(ms);
    ValuesOfValid(t);
    var vs := Enriched(cs, parse, osv, table);
    assert vs == Values(t.order, t.entries);
    forall i | 0 <= i < |vs|
      ensures vs[i].id in Ids(ms)
      ensures vs[i] == Entry(vs[i].id, ms[FirstWith(ms, vs[i].id)].details, RefsFor(ms, vs[i].id))
    {
      assert vs[i] == t.entries[vs[i].id];
    }
  }

  // ------------------------------------------- the order of the merges

  /** Taking out the element at `j` takes one copy of it out of the
      multiset. */
  lemma MultisetRemoveAt<T>(xs: seq<T>, j: nat)
    requires j < |xs|
    ensures multiset(xs) == multiset(xs[..j] + xs[j + 1..]) + multiset{xs[j]}
  {
    assert xs == xs[..j] + [xs[j]] + xs[j + 1..];
  }

  /** Two orders of the same elements have the same length. */
  lemma PermutationLength<T>(xs: seq<T>, ys: seq<T>)
    requires multiset(xs) == multiset(ys)
    ensures |xs| == |ys|
  {
    assert |xs| == |multiset(xs)| && |ys| == |multiset(ys)|;
  }

  /** The refs for `k` of two batches are those of the first, then those
      of the second. */
  lemma {:induction false} RefsForAppend(a: seq<Match>, b: seq<Match>, k: string)
    ensures RefsFor(a + b, k) == RefsFor(a, k) + RefsFor(b, k)
    decreases |b|
  {
    if b == [] {
      assert a + b == a;
    } else {
      var init := b[..|b| - 1];
      var m := b[|b| - 1];
      RefsForAppend(a, init, k);
      assert b == init + [m];
      assert a + b == (a + init) + [m];
      RefsForSnoc(a + init, m, k);
      RefsForSnoc(init, m, k);
    }
  }

  /** The refs for `k` with the match at `j` taken out. */
  lemma RefsForRemoveAt(ns: seq<Match>, j: nat, k: string)
    requires j < |ns|
    ensures multiset(RefsFor(ns, k))
      == multiset(RefsFor(ns[..j] + ns[j + 1..], k)) + multiset(if ns[j].cveId == k then [ns[j].ref] else [])
  {
    var before, after := ns[..j], ns[j + 1..];
    assert ns == (before + [ns[j]]) + after;
    RefsForAppend(before + [ns[j]], after, k);
    RefsForSnoc(before, ns[j], k);
    RefsForAppend(before, after, k);
  }

  /** Matches taken in another order give the refs for `k` in another
      order. */
  lemma {:induction false} RefsForPermutation(ms: seq<Match>, ns: seq<Match>, k: string)
    requires multiset(ms) == multiset(ns)
    ensures multiset(RefsFor(ms, k)) == multiset(RefsFor(ns, k))
    decreases |ms|
  {
    if ms == [] {
      assert |ns| == |multiset(ns)| == 0;
    } else {
      var init := ms[..|ms| - 1];
      var m := ms[|ms| - 1];
      assert ms == init + [m];
      assert m in multiset(ns);
      var j :| 0 <= j < |ns| && ns[j] == m;
      var rest := ns[..j] + ns[j + 1..];
      MultisetRemoveAt(ns, j);
      assert multiset(ms) == multiset(init) + multiset{m};
      assert multiset(rest) == multiset(ns) - multiset{m};
      RefsForPermutation(init, rest, k);
      RefsForRemoveAt(ns, j, k);
      RefsForSnoc(init, m, k);
    }
  }

  /** Matches taken in another order name the same ids. */
  lemma IdsPermutation(ms: seq<Match>, ns: seq<Match>)
    requires multiset(ms) == multiset(ns)
    ensures Ids(ms) == Ids(ns)
  {
    IdsSpec(ms);
    IdsSpec(ns);
    forall k | k in Ids(ms)
      ensures k in Ids(ns)
    {
      var i :| 0 <= i < |ms| && ms[i].cveId == k;
      assert ms[i] in multiset(ns);
      var j :| 0 <= j < |ns| && ns[j] == ms[i];
    }
    forall k | k in Ids(ns)
      ensures k in Ids(ms)
    {
      var j :| 0 <= j < |ns| && ns[j].cveId == k;
      assert ns[j] in multiset(ms);
      var i :| 0 <= i < |ms| && ms[i] == ns[j];
    }
  }

  /** The worker threads take the lock in an order the scheduler picks,
      so the matches are merged in some interleaving of the components'
      matches, that is in some order of them. Whatever the order, the store
      holds the same ids, each entry holds the same refs up to their order,
      and the total is the same. Which match creates an entry (its source
      URL, description and dates) and the order of the refs do depend on
      it. */
  lemma MergeOrderIndependent(ms: seq<Match>, ns: seq<Match>)
    requires multiset(ms) == multiset(ns)
    ensures Valid(MergeAll(EmptyStore, ms)) && Valid(MergeAll(EmptyStore, ns))
    ensures MergeAll(EmptyStore, ms).entries.Keys == MergeAll(EmptyStore, ns).entries.Keys
    ensures forall k :: k in MergeAll(EmptyStore, ms).entries ==>
      multiset(MergeAll(EmptyStore, ms).entries[k].affects) == multiset(MergeAll(EmptyStore, ns).entries[k].affects)
    ensures Count(MergeAll(EmptyStore, ms)) == Count(MergeAll(EmptyStore, ns))
  {
    MergeFromEmpty(ms);
    MergeFromEmpty(ns);
    IdsPermutation(ms, ns);
    PermutationLength(ms, ns);
    forall k | k in MergeAll(EmptyStore, ms).entries
      ensures multiset(MergeAll(EmptyStore, ms).entries[k].affects) == multiset(MergeAll(EmptyStore, ns).entries[k].affects)
    {
      RefsForPermutation(ms, ns, k);
    }
  }

  /** The concatenation of the `f(x)` for the `x` of `xs`, in order. */
  function FlatMap<A, B>(xs: seq<A>, f: A -> seq<B>): seq<B>
    decreases |xs|
  {
    if xs == [] then [] else FlatMap(xs[..|xs| - 1], f) + f(xs[|xs| - 1])
  }

  lemma {:induction false} FlatMapAppend<A, B>(a: seq<A>, b: seq<A>, f: A -> seq<B>)
    ensures FlatMap(a + b, f) == FlatMap(a, f) + FlatMap(b, f)
    decreases |b|
  {
    if b == [] {
      assert a + b == a;
    } else {
      var init := b[..|b| - 1];
      FlatMapAppend(a, init, f);
      assert (a + b)[..|a + b| - 1] == a + init;
      assert (a + b)[|a + b| - 1] == b[|b| - 1];
    }
  }

  /** The element at `j` taken out of the list. */
  lemma FlatMapRemoveAt<A, B>(xs: seq<A>, j: nat, f: A -> seq<B>)
    requires j < |xs|
    ensures multiset(FlatMap(xs, f)) == multiset(FlatMap(xs[..j] + xs[j + 1..], f)) + multiset(f(xs[j]))
  {
    var before, after := xs[..j], xs[j + 1..];
    assert xs == (before + [xs[j]]) + after;
    FlatMapAppend(before + [xs[j]], after, f);
    FlatMapAppend(before, [xs[j]], f);
    assert FlatMap([xs[j]], f) == f(xs[j]) by {
      assert [xs[j]][..0] == [];
    }
    FlatMapAppend(before, after, f);
  }

  /** Another order of the list gives the same elements in another order. */
  lemma {:induction false} FlatMapPermutation<A, B>(xs: seq<A>, ys: seq<A>, f: A -> seq<B>)
    requires multiset(xs) == multiset(ys)
    ensures multiset(FlatMap(xs, f)) == multiset(FlatMap(ys, f))
    decreases |xs|
  {
    if xs == [] {
      assert |ys| == |multiset(ys)| == 0;
    } else {
      var init := xs[..|xs| - 1];
      var x := xs[|xs| - 1];
      assert xs == init + [x];
      assert x in multiset(ys);
      var j :| 0 <= j < |ys| && ys[j] == x;
      var rest := ys[..j] + ys[j + 1..];
      MultisetRemoveAt(ys, j);
      assert multiset(xs) == multiset(init) + multiset{x};
      assert multiset(rest) == multiset(ys) - multiset{x};
      FlatMapPermutation(init, rest, f);
      FlatMapRemoveAt(ys, j, f);
    }
  }

  /** The matches of the components, one component after the other. */
  lemma {:induction false} AllMatchesFlatMap(cs: seq<Component>, parse: string -> Option<Purl>, osv: Query -> seq<Finding>, table: CveTable)
    ensures AllMatches(cs, parse, osv, table) == FlatMap(cs, c => ComponentMatches(c, parse, osv, table))
    decreases |cs|
  {
    if cs != [] {
      AllMatchesFlatMap(cs[..|cs| - 1], parse, osv, table);
    }
  }

  /** Components listed in another order give the same matches in another
      order. */
  lemma AllMatchesPermutation(cs: seq<Component>, ds: seq<Component>, parse: string -> Option<Purl>, osv: Query -> seq<Finding>, table: CveTable)
    requires multiset(cs) == multiset(ds)
    ensures multiset(AllMatches(cs, parse, osv, table)) == multiset(AllMatches(ds, parse, osv, table))
  {
    AllMatchesFlatMap(cs, parse, osv, table);
    AllMatchesFlatMap(ds, parse, osv, table);
    FlatMapPermutation(cs, ds, c => ComponentMatches(c, parse, osv, table));
  }

  /** The dictionary after the components in another order, each
      component's matches merged in turn: the same ids, the same refs for
      each id up to their order, and the same total. */
  lemma ComponentOrderIndependent(cs: seq<Component>, ds: seq<Component>, parse: string -> Option<Purl>, osv: Query -> seq<Finding>, table: CveTable)
    requires multiset(cs) == multiset(ds)
    ensures var t := MergeAll(EmptyStore, AllMatches(cs, parse, osv, table));
      var u := MergeAll(EmptyStore, AllMatches(ds, parse, osv, table));
      && Valid(t) && Valid(u)
      && t.entries.Keys == u.entries.Keys
      && (forall k :: k in t.entries ==> multiset(t.entries[k].affects) == multiset(u.entries[k].affects))
      && Count(t) == Count(u)
  {
    AllMatchesPermutation(cs, ds, parse, osv, table);
    MergeOrderIndependent(AllMatches(cs, parse, osv, table), AllMatches(ds, parse, osv, table));
  }

  // ------------------------------------------------------ the processing

  /** `vulnerabilities_dict`, filled in place by `process_component`. */
  class VulnerabilityStore {
    var entries: map<string, Entry>
    var order: seq<string>

    function State(): Store
      reads this
    {
      Store(entries, order)
    }

    constructor ()
      ensures State() == EmptyStore
    {
      entries := map[];
      order := [];
    }

    /** The body of the loop over one component's findings: under the
        lock, the entry for the finding's first `CVE` alias is created on
        first sight and gains the component's `bom-ref`; a finding without
        such an alias changes nothing. */
    method MergeFinding(f: Finding, ref: Option<string>, table: CveTable)
      modifies this
      ensures State() == MergeAll(old(State()), MatchOf(f, ref, table))
    {
      var cveId := FirstCveAlias(f.aliases);
      if cveId.Some? {
        var id := cveId.value;
        if id !in entries {
          entries := entries[id := NewEntry(id, f, table)];
          order := order + [id];
        }
        var e := entries[id];
        entries := entries[id := e.(affects := e.affects + [ref])];
        assert MatchOf(f, ref, table) == [Match(id, NewDetails(id, f, table), ref)];
      }
    }

    /** `process_component`: the findings of the component, each with a
        `CVE...` alias, merged in order. */
    method ProcessComponent(c: Component, parse: string -> Option<Purl>, osv: Query -> seq<Finding>, table: CveTable)
      modifies this
      ensures State() == MergeAll(old(State()), ComponentMatches(c, parse, osv, table))
    {
      if c.purl.None? || c.purl.value == "" {
        return;
      }
      var parsed := parse(c.purl.value);
      if parsed.None? {
        return;
      }
      var p := parsed.value;
      var eco := NormalizeEcosystem(p.ptype);
      var name := QueryName(p);
      var vulns := QueryOsv(eco, name, p.version, osv);
      if vulns == [] {
        return;
      }
      var i := 0;
      while i < |vulns|
        invariant 0 <= i <= |vulns|
        invariant State() == MergeAll(old(State()), FindingMatches(vulns[..i], c.bomRef, table))
      {
        var f := vulns[i];
        MergeFinding(f, c.bomRef, table);
        assert vulns[..i + 1][..i] == vulns[..i];
        MergeAllAppend(old(State()), FindingMatches(vulns[..i], c.bomRef, table), MatchOf(f, c.bomRef, table));
        i := i + 1;
      }
      assert vulns[..i] == vulns;
    }
  }

  lemma AllMatchesStep(cs: seq<Component>, i: nat, parse: string -> Option<Purl>, osv: Query -> seq<Finding>, table: CveTable)
    requires i < |cs|
    ensures AllMatches(cs[..i + 1], parse, osv, table) == AllMatches(cs[..i], parse, osv, table) + ComponentMatches(cs[i], parse, osv, table)
  {
    assert cs[..i + 1][..i] == cs[..i];
  }

  /** `add_vulnerabilities_to_sbom` with the thread pool run as a loop over
      the components: the list of entries `Enriched` describes. */
  method AddVulnerabilitiesToSbom(cs: seq<Component>, parse: string -> Option<Purl>, osv: Query -> seq<Finding>, table: CveTable)
    returns (vulns: seq<Entry>)
    ensures vulns == Enriched(cs, parse, osv, table)
  {
    var store := new VulnerabilityStore();
    var i := 0;
    while i < |cs|
      invariant 0 <= i <= |cs|
      invariant store.State() == MergeAll(EmptyStore, AllMatches(cs[..i], parse, osv, table))
    {
      store.ProcessComponent(cs[i], parse, osv, table);
      MergeAllAppend(EmptyStore, AllMatches(cs[..i], parse, osv, table), ComponentMatches(cs[i], parse, osv, table));
      AllMatchesStep(cs, i, parse, osv, table);
      i := i + 1;
    }
    assert cs[..i] == cs;
    assert Valid(EmptyStore);
    MergeAllValid(EmptyStore, AllMatches(cs, parse, osv, table));
    vulns := Values(store.order, store.entries);
  }
}
