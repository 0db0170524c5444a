/** `convert_json_to_csv` in `cve_data_update.py`: the NVD 2.0 JSON feed
    files are read in name order, one flat record is extracted from every
    vulnerability that has a CVE id, and the records are de-duplicated by
    CVE id, the first occurrence winning. */
module NvdFeed {
  import opened Wrappers
  import opened PyText

  // ------------------------------------------------------------ the feed

  /** A `{"lang": …, "value": …}` object; a missing key is `None`. */
  datatype LangString = LangString(lang: Option<string>, value: Option<string>)

  /** An element of `weaknesses`; a missing `description` is `[]`. */
  datatype Weakness = Weakness(description: seq<LangString>)

  /** An element of a `cvssMetricV3x` list; a missing `cvssData` is the
      empty object. The values are kept as the text they carry. */
  datatype MetricEntry = MetricEntry(cvssData: map<string, string>)

  /** The `cve` object; missing lists and objects are empty. */
  datatype Cve = Cve(
    id: Option<string>,
    weaknesses: seq<Weakness>,
    metrics: map<string, seq<MetricEntry>>,
    descriptions: seq<LangString>)

  /** An element of `vulnerabilities`; `cve` is `None` when the key is
      missing. */
  datatype Vulnerability = Vulnerability(cve: Option<Cve>)

  /** A parsed feed file; a missing `vulnerabilities` is `[]`. */
  datatype Feed = Feed(vulnerabilities: seq<Vulnerability>)

  /** One row of `cve_cvss3_data.csv`. */
  datatype CveRecord = CveRecord(
    cveId: string,
    cweValue: string,
    cvssVersion: string,
    vectorString: string,
    baseScore: string,
    baseSeverity: string,
    description: string,
    sourceFile: string)

  const NotAvailable := "N/A"

  // ------------------------------------------------ choosing the files

  predicate IsFeedFile(name: string) {
    EndsWith(name, ".json") && StartsWith(name, "nvdcve-2.0-")
  }

  /** The directory listing restricted to feed files, in listing order. */
  function FeedNames(listing: seq<string>): (names: seq<string>)
    ensures forall i :: 0 <= i < |names| ==> IsFeedFile(names[i])
    ensures forall f :: IsFeedFile(f) ==> multiset(names)[f] == multiset(listing)[f]
    ensures forall f :: !IsFeedFile(f) ==> f !in names
  {
    if listing == [] then []
    else
      var init := listing[..|listing| - 1];
      var last := listing[|listing| - 1];
      assert listing == init + [last];
      FeedNames(init) + (if IsFeedFile(last) then [last] else [])
  }

  /** Python's ordering of `str`: lexicographic on code points. */
  predicate LexLe(a: string, b: string) {
    a == [] || (b != [] && (a[0] < b[0] || (a[0] == b[0] && LexLe(a[1..], b[1..]))))
  }

  lemma {:induction false} LexLeTotal(a: string, b: string)
    ensures LexLe(a, b) || LexLe(b, a)
  {
    if a != [] && b != [] && a[0] == b[0] {
      LexLeTotal(a[1..], b[1..]);
    }
  }

  lemma {:induction false} LexLeTrans(a: string, b: string, c: string)
    requires LexLe(a, b) && LexLe(b, c)
    ensures LexLe(a, c)
  {
    if a != [] && b != [] && c != [] && a[0] == b[0] && b[0] == c[0] {
      LexLeTrans(a[1..], b[1..], c[1..]);
    }
  }

  predicate Sorted(s: seq<string>) {
    forall i, j :: 0 <= i < j < |s| ==> LexLe(s[i], s[j])
  }

  /** `x` inserted before the first element it does not exceed. */
  function Insert(x: string, s: seq<string>): (r: seq<string>)
    ensures multiset(r) == multiset(s) + multiset{x}
  {
    if s == [] then [x]
    else if LexLe(x, s[0]) then [x] + s
    else
      assert s == [s[0]] + s[1..];
      [s[0]] + Insert(x, s[1..])
  }

  /** A sorted list stays sorted with a name in front that does not exceed
      any of its elements. */
  lemma SortedCons(a: string, s: seq<string>)
    requires Sorted(s)
    requires forall j :: 0 <= j < |s| ==> LexLe(a, s[j])
    ensures Sorted([a] + s)
  {
    var r := [a] + s;
    forall i, j | 0 <= i < j < |r| ensures LexLe(r[i], r[j]) {
      assert r[j] == s[j - 1];
      if i > 0 {
        assert r[i] == s[i - 1];
      }
    }
  }

  /** Insertion into a list whose elements are all at least `a` gives a
      list whose elements are all at least `a`, given `a` does not exceed
      the inserted name. */
  lemma InsertLowerBound(a: string, x: string, s: seq<string>)
    requires LexLe(a, x)
    requires forall j :: 0 <= j < |s| ==> LexLe(a, s[j])
    ensures forall j :: 0 <= j < |Insert(x, s)| ==> LexLe(a, Insert(x, s)[j])
  {
    var r := Insert(x, s);
    forall j | 0 <= j < |r| ensures LexLe(a, r[j]) {
      assert r[j] in multiset(r);
      if r[j] != x {
        assert r[j] in multiset(s);
        var k :| 0 <= k < |s| && s[k] == r[j];
      }
    }
  }

  lemma {:induction false} InsertSorted(x: string, s: seq<string>)
    requires Sorted(s)
    ensures Sorted(Insert(x, s))
  {
    if s == [] {
    } else if LexLe(x, s[0]) {
      forall j | 0 <= j < |s| ensures LexLe(x, s[j]) {
        if j > 0 { LexLeTrans(x, s[0], s[j]); }
      }
      SortedCons(x, s);
    } else {
      LexLeTotal(x, s[0]);
      var tail := s[1..];
      assert Sorted(tail) by {
        forall i, j | 0 <= i < j < |tail| ensures LexLe(tail[i], tail[j]) {
          assert tail[i] == s[i + 1] && tail[j] == s[j + 1];
        }
      }
      InsertSorted(x, tail);
      forall j | 0 <= j < |tail| ensures LexLe(s[0], tail[j]) {
        assert tail[j] == s[j + 1];
      }
      InsertLowerBound(s[0], x, tail);
      SortedCons(s[0], Insert(x, tail));
    }
  }

  /** `list.sort()`, as insertion of each name into the sorted prefix. */
  function SortNames(s: seq<string>): (r: seq<string>)
    ensures multiset(r) == multiset(s)
  {
    if s == [] then []
    else
      var init := s[..|s| - 1];
      assert s == init + [s[|s| - 1]];
      Insert(s[|s| - 1], SortNames(init))
  }

  lemma {:induction false} SortNamesSorted(s: seq<string>)
    ensures Sorted(SortNames(s))
  {
    if s != [] {
      SortNamesSorted(s[..|s| - 1]);
      InsertSorted(s[|s| - 1], SortNames(s[..|s| - 1]));
    }
  }

  /** The files read, in the order they are read. */
  function FeedFiles(listing: seq<string>): seq<string> {
    SortNames(FeedNames(listing))
  }

  /** Exactly the listed feed files are read, each as often as it is
      listed, in ascending name order. */
  lemma FeedFilesSpec(listing: seq<string>)
    ensures Sorted(FeedFiles(listing))
    ensures forall f :: f in FeedFiles(listing) ==> IsFeedFile(f)
    ensures forall f :: IsFeedFile(f) ==> multiset(FeedFiles(listing))[f] == multiset(listing)[f]
  {
    SortNamesSorted(FeedNames(listing));
    var files := FeedFiles(listing);
    forall f | f in files ensures IsFeedFile(f) {
      assert f in multiset(files);
      assert f in multiset(FeedNames(listing));
    }
  }

  // ------------------------------------------- the English descriptions

  predicate IsEnglish(d: LangString) {
    d.lang == Some("en")
  }

  /** The first description in English. */
  function FirstEnglish(ds: seq<LangString>): Option<LangString> {
    if ds == [] then None
    else if IsEnglish(ds[0]) then Some(ds[0])
    else FirstEnglish(ds[1..])
  }

  lemma {:induction false} FirstEnglishAt(ds: seq<LangString>, j: nat)
    requires j < |ds| && IsEnglish(ds[j])
    requires forall k :: 0 <= k < j ==> !IsEnglish(ds[k])
    ensures FirstEnglish(ds) == Some(ds[j])
  {
    if j > 0 {
      FirstEnglishAt(ds[1..], j - 1);
    }
  }

  lemma {:induction false} FirstEnglishNone(ds: seq<LangString>)
    requires forall k :: 0 <= k < |ds| ==> !IsEnglish(ds[k])
    ensures FirstEnglish(ds) == None
  {
    if ds != [] {
      FirstEnglishNone(ds[1..]);
    }
  }

  /** The first English `value` of a weakness, `"N/A"` when it has none. */
  function WeaknessValue(w: Weakness): Option<string> {
    match FirstEnglish(w.description)
    case None => None
    case Some(d) => Some(d.value.GetOr(NotAvailable))
  }

  predicate Qualifies(w: Weakness) {
    WeaknessValue(w).Some? && WeaknessValue(w).value != NotAvailable
  }

  // ------------------------------------------------------------- CWE

  /** `CWE_Value`: the value of the first weakness that qualifies. */
  function CweOf(ws: seq<Weakness>): (cwe: string)
    ensures cwe == NotAvailable <==> forall w :: w in ws ==> !Qualifies(w)
  {
    if ws == [] then NotAvailable
    else if Qualifies(ws[0]) then WeaknessValue(ws[0]).value
    else CweOf(ws[1..])
  }

  /** `CWE_Value` is `"N/A"` exactly when no weakness has a first English
      value other than `"N/A"`, and otherwise the value of the first
      weakness that has one. */
  lemma {:induction false} CweOfSpec(ws: seq<Weakness>)
    ensures CweOf(ws) == NotAvailable <==> forall i :: 0 <= i < |ws| ==> !Qualifies(ws[i])
    ensures forall i :: 0 <= i < |ws| && Qualifies(ws[i]) && (forall k :: 0 <= k < i ==> !Qualifies(ws[k])) ==>
      CweOf(ws) == WeaknessValue(ws[i]).value
  {
    if ws != [] {
      CweOfSpec(ws[1..]);
      assert forall i :: 1 <= i < |ws| ==> ws[i] == ws[1..][i - 1];
    }
  }

  /** The nested loops over weaknesses and their descriptions, with
      their early exits. */
  method CweValue(ws: seq<Weakness>) returns (cwe: string)
    ensures cwe == CweOf(ws)
  {
    cwe := NotAvailable;
    var i := 0;
    while i < |ws|
      invariant 0 <= i <= |ws|
      invariant cwe == NotAvailable
      invariant CweOf(ws) == CweOf(ws[i..])
    {
      var ds := ws[i].description;
      var j := 0;
      while j < |ds|
        invariant 0 <= j <= |ds|
        invariant cwe == NotAvailable
        invariant forall k :: 0 <= k < j ==> !IsEnglish(ds[k])
      {
        if IsEnglish(ds[j]) {
          FirstEnglishAt(ds, j);
          cwe := ds[j].value.GetOr(NotAvailable);
          break;
        }
        j := j + 1;
      }
      if j == |ds| {
        FirstEnglishNone(ds);
      }
      assert ws[i..] == [ws[i]] + ws[i + 1..];
      if cwe != NotAvailable {
        break;
      }
      i := i + 1;
    }
  }

  // ------------------------------------------------------------ CVSS

  /** The metric keys, in the order they are tried. */
  const CvssKeys := ["cvssMetricV31", "cvssMetricV30", "cvssMetricV3"]

  predicate HasMetric(metrics: map<string, seq<MetricEntry>>, key: string) {
    key in metrics && metrics[key] != []
  }

  /** The `cvssData` of the first element under the first key that is
      present with a non-empty list. */
  function CvssData(metrics: map<string, seq<MetricEntry>>, keys: seq<string>): (data: Option<map<string, string>>)
    ensures data.None? <==> forall k :: k in keys ==> !HasMetric(metrics, k)
    ensures data.Some? ==> exists k :: k in keys && HasMetric(metrics, k) && data.value == metrics[k][0].cvssData
  {
    if keys == [] then None
    else if HasMetric(metrics, keys[0]) then Some(metrics[keys[0]][0].cvssData)
    else CvssData(metrics, keys[1..])
  }

  lemma {:induction false} CvssDataSpec(metrics: map<string, seq<MetricEntry>>, keys: seq<string>)
    ensures CvssData(metrics, keys).None? <==> forall i :: 0 <= i < |keys| ==> !HasMetric(metrics, keys[i])
    ensures forall i :: 0 <= i < |keys| && HasMetric(metrics, keys[i]) && (forall k :: 0 <= k < i ==> !HasMetric(metrics, keys[k])) ==>
      CvssData(metrics, keys) == Some(metrics[keys[i]][0].cvssData)
  {
    if keys != [] {
      CvssDataSpec(metrics, keys[1..]);
      assert forall i :: 1 <= i < |keys| ==> keys[i] == keys[1..][i - 1];
    }
  }

  /** The loop over the metric keys with its early exit. */
  method FindCvssData(metrics: map<string, seq<MetricEntry>>) returns (data: Option<map<string, string>>)
    ensures data == CvssData(metrics, CvssKeys)
  {
    data := None;
    var i := 0;
    while i < |CvssKeys|
      invariant 0 <= i <= |CvssKeys|
      invariant data.None?
      invariant CvssData(metrics, CvssKeys) == CvssData(metrics, CvssKeys[i..])
    {
      var key := CvssKeys[i];
      assert CvssKeys[i..] == [key] + CvssKeys[i + 1..];
      if key in metrics && metrics[key] != [] {
        data := Some(metrics[key][0].cvssData);
        break;
      }
      i := i + 1;
    }
  }

  /** `cvss_data.get(key, "N/A")` */
  function Field(data: map<string, string>, key: string): string {
    if key in data then data[key] else NotAvailable
  }

  /** The four CVSS columns. */
  datatype Cvss = Cvss(version: string, vector: string, score: string, severity: string)

  const NoCvss := Cvss(NotAvailable, NotAvailable, NotAvailable, NotAvailable)

  /** The CVSS columns of a `metrics` object. */
  function CvssOf(metrics: map<string, seq<MetricEntry>>): (c: Cvss)
    ensures CvssData(metrics, CvssKeys).None? ==> c == NoCvss
    ensures CvssData(metrics, CvssKeys) == Some(map[]) ==> c == NoCvss
    ensures forall data :: CvssData(metrics, CvssKeys) == Some(data) && data != map[] ==>
      && (c.version == NotAvailable <==> "version" !in data || data["version"] == NotAvailable)
      && ("version" in data ==> c.version == data["version"])
      && ("vectorString" in data ==> c.vector == data["vectorString"])
      && ("baseScore" in data ==> c.score == data["baseScore"])
      && ("baseSeverity" in data ==> c.severity == data["baseSeverity"])
      && ("vectorString" !in data ==> c.vector == NotAvailable)
      && ("baseScore" !in data ==> c.score == NotAvailable)
      && ("baseSeverity" !in data ==> c.severity == NotAvailable)
  {
    match CvssData(metrics, CvssKeys)
    case Some(data) =>
      if data != map[] then
        Cvss(Field(data, "version"), Field(data, "vectorString"), Field(data, "baseScore"), Field(data, "baseSeverity"))
      else NoCvss
    case None => NoCvss
  }

  /** Which block is used: the first key present with a non-empty list,
      even when its `cvssData` is empty (no fall-back to a later key). */
  lemma CvssPriority(metrics: map<string, seq<MetricEntry>>)
    ensures HasMetric(metrics, "cvssMetricV31") ==>
      CvssData(metrics, CvssKeys) == Some(metrics["cvssMetricV31"][0].cvssData)
    ensures !HasMetric(metrics, "cvssMetricV31") && HasMetric(metrics, "cvssMetricV30") ==>
      CvssData(metrics, CvssKeys) == Some(metrics["cvssMetricV30"][0].cvssData)
    ensures !HasMetric(metrics, "cvssMetricV31") && !HasMetric(metrics, "cvssMetricV30") && HasMetric(metrics, "cvssMetricV3") ==>
      CvssData(metrics, CvssKeys) == Some(metrics["cvssMetricV3"][0].cvssData)
    ensures !HasMetric(metrics, "cvssMetricV31") && !HasMetric(metrics, "cvssMetricV30") && !HasMetric(metrics, "cvssMetricV3") ==>
      CvssOf(metrics) == NoCvss
  {
    assert CvssKeys[0] == "cvssMetricV31" && CvssKeys[1] == "cvssMetricV30" && CvssKeys[2] == "cvssMetricV3";
    CvssDataSpec(metrics, CvssKeys);
  }

  // ----------------------------------------------------- description

  /** `value.replace("\u00a0", " ").strip()` */
  function CleanDescription(value: string): string {
    Strip(ReplaceChar(value, '\U{A0}', ' '))
  }

  /** `Description`: the first English description, cleaned, or `"N/A"`. */
  function DescriptionOf(ds: seq<LangString>): (description: string)
    ensures '\U{A0}' !in description
    ensures FirstEnglish(ds).None? ==> description == NotAvailable
  {
    match FirstEnglish(ds)
    case None => NotAvailable
    case Some(d) =>
      CleanDescriptionSpec(d.value.GetOr(NotAvailable));
      CleanDescription(d.value.GetOr(NotAvailable))
  }

  /** The cleaned text holds no no-break space. */
  lemma CleanDescriptionSpec(value: string)
    ensures '\U{A0}' !in CleanDescription(value)
  {
    var t := ReplaceChar(value, '\U{A0}', ' ');
    var lo := LeadingSpaces(t);
    var r := CleanDescription(value);
    forall i | 0 <= i < |r| ensures r[i] != '\U{A0}' {
      assert r[i] == t[lo + i];
    }
  }

  /** `Description` is `"N/A"` without an English description and
      otherwise the cleaned value of the first one. */
  lemma DescriptionSpec(ds: seq<LangString>)
    ensures (forall k :: 0 <= k < |ds| ==> !IsEnglish(ds[k])) ==> DescriptionOf(ds) == NotAvailable
    ensures forall j :: 0 <= j < |ds| && IsEnglish(ds[j]) && (forall k :: 0 <= k < j ==> !IsEnglish(ds[k])) ==>
      (DescriptionOf(ds) == CleanDescription(ds[j].value.GetOr(NotAvailable)))
    ensures '\U{A0}' !in DescriptionOf(ds)
  {
    if forall k :: 0 <= k < |ds| ==> !IsEnglish(ds[k]) {
      FirstEnglishNone(ds);
    }
    forall j | 0 <= j < |ds| && IsEnglish(ds[j]) && (forall k :: 0 <= k < j ==> !IsEnglish(ds[k])) {
      FirstEnglishAt(ds, j);
    }
    match FirstEnglish(ds)
    case None =>
    case Some(d) => CleanDescriptionSpec(d.value.GetOr(NotAvailable));
  }

  /** The loop over the descriptions with its early exit. */
  method DescriptionValue(ds: seq<LangString>) returns (description: string)
    ensures description == DescriptionOf(ds)
  {
    description := NotAvailable;
    var j := 0;
    while j < |ds|
      invariant 0 <= j <= |ds|
      invariant description == NotAvailable
      invariant forall k :: 0 <= k < j ==> !IsEnglish(ds[k])
    {
      if IsEnglish(ds[j]) {
        FirstEnglishAt(ds, j);
        description := CleanDescription(ds[j].value.GetOr(NotAvailable));
        return;
      }
      j := j + 1;
    }
    FirstEnglishNone(ds);
  }

  // --------------------------------------------------------- records

  const NoCve := Cve(None, [], map[], [])

  /** The record of one vulnerability of `file`, or `None` when its CVE id
      is missing or empty. */
  function RecordOf(file: string, v: Vulnerability): (r: Option<CveRecord>)
    ensures r.None? <==> v.cve.GetOr(NoCve).id in {None, Some("")}
    ensures r.Some? ==> Some(r.value.cveId) == v.cve.value.id && r.value.sourceFile == file
  {
    var cve := v.cve.GetOr(NoCve);
    match cve.id
    case None => None
    case Some(id) =>
      if id == "" then None
      else
        var cvss := CvssOf(cve.metrics);
        Some(CveRecord(id, CweOf(cve.weaknesses), cvss.version, cvss.vector,
                       cvss.score, cvss.severity, DescriptionOf(cve.descriptions), file))
  }

  /** The records of one file, in the order of its vulnerabilities. */
  function FileRecords(file: string, vs: seq<Vulnerability>): (rs: seq<CveRecord>)
    ensures |rs| <= |vs|
    ensures forall i :: 0 <= i < |rs| ==> rs[i].sourceFile == file && rs[i].cveId != ""
  {
    if vs == [] then []
    else
      var last := vs[|vs| - 1];
      FileRecords(file, vs[..|vs| - 1]) + (if RecordOf(file, last).Some? then [RecordOf(file, last).value] else [])
  }

  /** Every vulnerability with a CVE id gives its record, and in the order
      of the vulnerabilities: the records of `a + b` are those of `a`
      followed by those of `b`. */
  lemma {:induction false} FileRecordsAppend(file: string, a: seq<Vulnerability>, b: seq<Vulnerability>)
    ensures FileRecords(file, a + b) == FileRecords(file, a) + FileRecords(file, b)
    decreases |b|
  {
    if b == [] {
      assert a + b == a;
    } else {
      var init := b[..|b| - 1];
      FileRecordsAppend(file, a, init);
      assert (a + b)[..|a + b| - 1] == a + init;
      assert (a + b)[|a + b| - 1] == b[|b| - 1];
    }
  }

  lemma FileRecordsStep(file: string, vs: seq<Vulnerability>, j: nat)
    requires j < |vs|
    ensures FileRecords(file, vs[..j + 1]) ==
      FileRecords(file, vs[..j]) + (if RecordOf(file, vs[j]).Some? then [RecordOf(file, vs[j]).value] else [])
  {
    assert vs[..j + 1][..j] == vs[..j];
  }

  /** The records of the files, file after file. */
  function Records(files: seq<string>, read: string -> Feed): (rs: seq<CveRecord>)
    ensures forall i :: 0 <= i < |rs| ==> rs[i].sourceFile in files && rs[i].cveId != ""
  {
    if files == [] then []
    else
      var init := files[..|files| - 1];
      var last := files[|files| - 1];
      var earlier := Records(init, read);
      assert forall i :: 0 <= i < |earlier| ==> earlier[i].sourceFile in files by {
        forall i | 0 <= i < |earlier| ensures earlier[i].sourceFile in files {
          var k :| 0 <= k < |init| && init[k] == earlier[i].sourceFile;
          assert files[k] == init[k];
        }
      }
      earlier + FileRecords(last, read(last).vulnerabilities)
  }

  lemma {:induction false} RecordsAppend(a: seq<string>, b: seq<string>, read: string -> Feed)
    ensures Records(a + b, read) == Records(a, read) + Records(b, read)
    decreases |b|
  {
    if b == [] {
      assert a + b == a;
    } else {
      var init := b[..|b| - 1];
      var last := b[|b| - 1];
      var tail := FileRecords(last, read(last).vulnerabilities);
      RecordsAppend(a, init, read);
      assert (a + b)[..|a + b| - 1] == a + init;
      assert (a + b)[|a + b| - 1] == last;
      assert Records(a + b, read) == Records(a + init, read) + tail;
      assert Records(b, read) == Records(init, read) + tail;
    }
  }

  lemma RecordsStep(files: seq<string>, i: nat, read: string -> Feed)
    requires i < |files|
    ensures Records(files[..i + 1], read) == Records(files[..i], read) + FileRecords(files[i], read(files[i]).vulnerabilities)
  {
    assert files[..i + 1][..i] == files[..i];
  }

  // ------------------------------------------------- keep-first dedup

  /** The ids of the records. `Enrichment` keeps its own `Ids` over OSV
      matches: the two modules share no record type and neither imports
      the other. */
  function Ids(rs: seq<CveRecord>): set<string> {
    if rs == [] then {} else Ids(rs[..|rs| - 1]) + {rs[|rs| - 1].cveId}
  }

  lemma {:induction false} IdsSpec(rs: seq<CveRecord>, id: string)
    ensures id in Ids(rs) <==> exists i :: 0 <= i < |rs| && rs[i].cveId == id
  {
    if rs != [] {
      var init := rs[..|rs| - 1];
      IdsSpec(init, id);
      if id in Ids(init) {
        var i :| 0 <= i < |init| && init[i].cveId == id;
        assert rs[i] == init[i];
      }
      if exists i :: 0 <= i < |rs| && rs[i].cveId == id {
        var i :| 0 <= i < |rs| && rs[i].cveId == id;
        if i < |init| { assert init[i] == rs[i]; }
      }
    }
  }

  /** The position of the first record with `id`. */
  function FirstIndex(rs: seq<CveRecord>, id: string): (i: nat)
    requires id in Ids(rs)
    ensures i < |rs| && rs[i].cveId == id
    ensures forall k :: 0 <= k < i ==> rs[k].cveId != id
  {
    var init := rs[..|rs| - 1];
    if id in Ids(init) then
      var i := FirstIndex(init, id);
      assert rs[i] == init[i];
      i
    else
      IdsSpec(init, id);
      |rs| - 1
  }

  /** `drop_duplicates(subset=["CVE_ID"], keep="first")` */
  function KeepFirst(rs: seq<CveRecord>): (kept: seq<CveRecord>)
    ensures |kept| <= |rs|
    ensures forall i :: 0 <= i < |kept| ==> kept[i] in rs
  {
    if rs == [] then []
    else
      var init := rs[..|rs| - 1];
      var last := rs[|rs| - 1];
      KeepFirst(init) + (if last.cveId in Ids(init) then [] else [last])
  }

  lemma IdsSnoc(rs: seq<CveRecord>, x: CveRecord)
    ensures Ids(rs + [x]) == Ids(rs) + {x.cveId}
  {
    assert (rs + [x])[..|rs|] == rs;
  }

  /** Keep-first keeps exactly the ids of its input. */
  lemma {:induction false} KeepFirstIds(rs: seq<CveRecord>)
    ensures Ids(KeepFirst(rs)) == Ids(rs)
    ensures |KeepFirst(rs)| <= |rs|
  {
    if rs != [] {
      var init := rs[..|rs| - 1];
      var last := rs[|rs| - 1];
      KeepFirstIds(init);
      assert rs == init + [last];
      IdsSnoc(init, last);
      if last.cveId in Ids(init) {
        assert KeepFirst(rs) == KeepFirst(init);
      } else {
        assert KeepFirst(rs) == KeepFirst(init) + [last];
        IdsSnoc(KeepFirst(init), last);
      }
    }
  }

  /** Each kept row is the first row of the input with its id. */
  lemma {:induction false} KeepFirstFirst(rs: seq<CveRecord>)
    ensures forall i :: 0 <= i < |KeepFirst(rs)| ==>
      KeepFirst(rs)[i].cveId in Ids(rs) && KeepFirst(rs)[i] == rs[FirstIndex(rs, KeepFirst(rs)[i].cveId)]
  {
    if rs != [] {
      var init := rs[..|rs| - 1];
      var last := rs[|rs| - 1];
      var before := KeepFirst(init);
      var kept := KeepFirst(rs);
      KeepFirstFirst(init);
      forall i | 0 <= i < |kept|
        ensures kept[i].cveId in Ids(rs) && kept[i] == rs[FirstIndex(rs, kept[i].cveId)]
      {
        if i < |before| {
          var k := FirstIndex(init, before[i].cveId);
          assert kept[i] == before[i];
          assert FirstIndex(rs, kept[i].cveId) == k;
          assert rs[k] == init[k];
        } else {
          assert kept[i] == last;
        }
      }
    }
  }

  /** Kept rows come in the order of their first occurrences. */
  lemma {:induction false} KeepFirstOrder(rs: seq<CveRecord>)
    ensures forall i :: 0 <= i < |KeepFirst(rs)| ==> KeepFirst(rs)[i].cveId in Ids(rs)
    ensures forall i, j :: 0 <= i < j < |KeepFirst(rs)| ==>
      FirstIndex(rs, KeepFirst(rs)[i].cveId) < FirstIndex(rs, KeepFirst(rs)[j].cveId)
  {
    KeepFirstFirst(rs);
    if rs != [] {
      var init := rs[..|rs| - 1];
      var last := rs[|rs| - 1];
      var before := KeepFirst(init);
      var kept := KeepFirst(rs);
      KeepFirstOrder(init);
      KeepFirstFirst(init);
      forall i, j | 0 <= i < j < |kept|
        ensures FirstIndex(rs, kept[i].cveId) < FirstIndex(rs, kept[j].cveId)
      {
        assert kept[i] == before[i];
        assert FirstIndex(rs, kept[i].cveId) == FirstIndex(init, before[i].cveId);
        if j < |before| {
          assert kept[j] == before[j];
        } else {
          assert kept[j] == last;
        }
      }
    }
  }

  /** The ids left after keep-first are pairwise distinct. */
  lemma KeepFirstUnique(rs: seq<CveRecord>)
    ensures forall i, j :: 0 <= i < j < |KeepFirst(rs)| ==> KeepFirst(rs)[i].cveId != KeepFirst(rs)[j].cveId
  {
    KeepFirstOrder(rs);
  }

  /** The whole CSV: the records of the sorted feed files, first
      occurrence of each CVE id kept. */
  function Table(listing: seq<string>, read: string -> Feed): (rows: seq<CveRecord>)
    ensures |rows| <= |Records(FeedFiles(listing), read)|
    ensures forall i :: 0 <= i < |rows| ==> rows[i] in Records(FeedFiles(listing), read) && rows[i].cveId != ""
  {
    KeepFirst(Records(FeedFiles(listing), read))
  }

  /** Every row of the CSV comes from a feed file of the listing, has a
      non-empty id, and no two rows share an id. */
  lemma TableSpec(listing: seq<string>, read: string -> Feed)
    ensures var rows := Table(listing, read);
      && (forall i :: 0 <= i < |rows| ==> IsFeedFile(rows[i].sourceFile) && rows[i].cveId != "")
      && (forall i, j :: 0 <= i < j < |rows| ==> rows[i].cveId != rows[j].cveId)
      && Ids(rows) == Ids(Records(FeedFiles(listing), read))
  {
    var records := Records(FeedFiles(listing), read);
    var rows := Table(listing, read);
    KeepFirstIds(records);
    KeepFirstFirst(records);
    KeepFirstUnique(records);
    FeedFilesSpec(listing);
    forall i | 0 <= i < |rows| ensures IsFeedFile(rows[i].sourceFile) && rows[i].cveId != "" {
      var k := FirstIndex(records, rows[i].cveId);
      assert rows[i] == records[k];
    }
  }

  // ---------------------------------------------------------- the loop

  /** One record as the loop body builds it. */
  method ExtractRecord(file: string, v: Vulnerability) returns (r: Option<CveRecord>)
    ensures r == RecordOf(file, v)
  {
    var cve := v.cve.GetOr(NoCve);
    if cve.id.None? || cve.id.value == "" {
      return None;
    }
    var cwe := CweValue(cve.weaknesses);
    var data := FindCvssData(cve.metrics);
    var cvss := NoCvss;
    if data.Some? && data.value != map[] {
      var d := data.value;
      cvss := Cvss(Field(d, "version"), Field(d, "vectorString"), Field(d, "baseScore"), Field(d, "baseSeverity"));
    }
    var description := DescriptionValue(cve.descriptions);
    r := Some(CveRecord(cve.id.value, cwe, cvss.version, cvss.vector, cvss.score, cvss.severity, description, file));
  }

  /** The loop over the vulnerabilities of one file, appending to the
      records collected so far. */
  method AppendFileRecords(records: seq<CveRecord>, file: string, vs: seq<Vulnerability>) returns (out: seq<CveRecord>)
    ensures out == records + FileRecords(file, vs)
  {
    out := records;
    var j := 0;
    while j < |vs|
      invariant 0 <= j <= |vs|
      invariant out == records + FileRecords(file, vs[..j])
    {
      var r := ExtractRecord(file, vs[j]);
      FileRecordsStep(file, vs, j);
      if r.Some? {
        out := out + [r.value];
      }
      j := j + 1;
    }
    assert vs[..j] == vs;
  }

  /** The feed files of `listing` are read through `read`, their records
      collected file by file and de-duplicated. */
  method ConvertJsonToCsv(listing: seq<string>, read: string -> Feed) returns (rows: seq<CveRecord>)
    ensures rows == Table(listing, read)
  {
    var files := FeedFiles(listing);
    var records: seq<CveRecord> := [];
    var i := 0;
    while i < |files|
      invariant 0 <= i <= |files|
      invariant records == Records(files[..i], read)
    {
      records := AppendFileRecords(records, files[i], read(files[i]).vulnerabilities);
      RecordsStep(files, i, read);
      i := i + 1;
    }
    assert files[..i] == files;
    rows := KeepFirst(records);
  }
}
