/** The end of `main` in `osv_nvd_enrich_sbom.py`: the project name taken
    from the SBOM file name, the dated output file name, and the update of
    the dashboard index `sbom_index.json`. */
module SbomIndex {
  import opened Wrappers
  import opened PyText

  // ------------------------------------------------------ file names

  /** `s.rfind(c)`: the last position of `c` in `s`, or -1. */
  function LastIndexOf(s: string, c: char): (i: int)
    ensures -1 <= i < |s|
    ensures i >= 0 ==> s[i] == c
    ensures forall j :: i < j < |s| ==> s[j] != c
    decreases |s|
  {
    if s == [] then -1
    else if s[|s| - 1] == c then |s| - 1
    else LastIndexOf(s[..|s| - 1], c)
  }

  /** `PurePath(name).stem` for a bare file name: the name without its
      last suffix, where a suffix is a `.` that is neither the first nor
      the last character, and what follows it. */
  function Stem(name: string): (stem: string)
    ensures |stem| <= |name| && stem == name[..|stem|]
    ensures |stem| < |name| ==>
      && 0 < |stem| < |name| - 1
      && name[|stem|] == '.'
      && forall j :: |stem| < j < |name| ==> name[j] != '.'
    ensures |stem| == |name| ==> !(0 < LastIndexOf(name, '.') < |name| - 1)
  {
    var i := LastIndexOf(name, '.');
    if 0 < i < |name| - 1 then name[..i] else name
  }

  /** The project name: the stem of the SBOM file with a trailing `-sbom`
      removed. */
  function ProjectName(sbomFile: string): (project: string)
    ensures |project| <= |sbomFile| && project == sbomFile[..|project|]
  {
    var stem := Stem(sbomFile);
    if EndsWith(stem, "-sbom") then stem[..|stem| - 5] else stem
  }

  /** The files the script picks, `<project>-sbom.json`, give back the
      project name, whatever it contains (dots and `-sbom` included). */
  lemma ProjectNameOfSbomFile(project: string)
    ensures ProjectName(project + "-sbom.json") == project
  {
    var name := project + "-sbom.json";
    var dot := |project| + 5;
    assert name[dot] == '.';
    assert forall j :: dot < j < |name| ==> name[j] != '.' by {
      assert name[dot + 1..] == "json";
    }
    assert LastIndexOf(name, '.') == dot;
    assert name[..dot] == project + "-sbom";
    assert (project + "-sbom")[..|project|] == project;
  }

  /** A file name without a dot is its own stem; a stem that does not end
      in `-sbom` is the project name unchanged. */
  lemma ProjectNameWithoutSuffix(name: string)
    requires '.' !in name
    requires !EndsWith(name, "-sbom")
    ensures ProjectName(name) == name
  {
  }

  /** `f"{project_name}-{date_str}"`, the id of the index item. */
  function ItemId(project: string, date: string): string {
    project + "-" + date
  }

  /** `f"{project_name}-{date_str}-with-vulns.json"` */
  function OutputFileName(project: string, date: string): (file: string)
    ensures StartsWith(file, ItemId(project, date))
    ensures EndsWith(file, "-with-vulns.json")
    ensures |file| == |ItemId(project, date)| + |"-with-vulns.json"|
  {
    var id := ItemId(project, date);
    var file := id + "-with-vulns.json";
    assert file[..|id|] == id;
    assert file[|file| - 16..] == "-with-vulns.json";
    file
  }

  // ---------------------------------------------------------- the index

  /** An entry of `items`; `id` is `None` when the entry has no `id` key. */
  datatype IndexItem = IndexItem(id: Option<string>, itemLabel: Option<string>, file: Option<string>)

  /** The index document: `latest` and `items` (`None`/empty when the
      keys are missing). */
  datatype Index = Index(latest: Option<string>, items: seq<IndexItem>)

  /** `[it for it in items if it.get("id") != item_id]` */
  function Without(items: seq<IndexItem>, itemId: string): (kept: seq<IndexItem>)
    ensures |kept| <= |items|
    decreases |items|
  {
    if items == [] then []
    else
      var last := items[|items| - 1];
      Without(items[..|items| - 1], itemId) + (if last.id == Some(itemId) then [] else [last])
  }

  /** An item survives the filter exactly when it was there and does not
      carry the id. */
  lemma {:induction false} WithoutMembers(items: seq<IndexItem>, itemId: string, it: IndexItem)
    ensures it in Without(items, itemId) <==> it in items && it.id != Some(itemId)
    decreases |items|
  {
    if items != [] {
      var init := items[..|items| - 1];
      WithoutMembers(init, itemId, it);
      assert items == init + [items[|items| - 1]];
    }
  }

  /** Filtering keeps the order: it distributes over concatenation. */
  lemma {:induction false} WithoutAppend(a: seq<IndexItem>, b: seq<IndexItem>, itemId: string)
    ensures Without(a + b, itemId) == Without(a, itemId) + Without(b, itemId)
    decreases |b|
  {
    if b == [] {
      assert a + b == a;
    } else {
      var init := b[..|b| - 1];
      var last := b[|b| - 1];
      var tail := if last.id == Some(itemId) then [] else [last];
      WithoutAppend(a, init, itemId);
      assert (a + b)[..|a + b| - 1] == a + init;
      assert (a + b)[|a + b| - 1] == last;
      assert Without(a + b, itemId) == Without(a + init, itemId) + tail;
      assert Without(b, itemId) == Without(init, itemId) + tail;
    }
  }

  /** Items without the id are all kept, in order. */
  lemma {:induction false} WithoutNothingToDrop(items: seq<IndexItem>, itemId: string)
    requires forall i :: 0 <= i < |items| ==> items[i].id != Some(itemId)
    ensures Without(items, itemId) == items
    decreases |items|
  {
    if items != [] {
      var init := items[..|items| - 1];
      WithoutNothingToDrop(init, itemId);
      assert items == init + [items[|items| - 1]];
    }
  }

  /** The new item for the run. */
  function NewItem(project: string, date: string): IndexItem {
    IndexItem(Some(ItemId(project, date)), Some(project), Some(OutputFileName(project, date)))
  }

  /** The items after the update. */
  function UpdatedItems(items: seq<IndexItem>, project: string, date: string): seq<IndexItem> {
    Without(items, ItemId(project, date)) + [NewItem(project, date)]
  }

  /** The index after the update. */
  function Updated(index: Index, project: string, date: string): (r: Index)
    ensures r.latest == Some(OutputFileName(project, date))
    ensures |r.items| >= 1 && r.items[|r.items| - 1].id == Some(ItemId(project, date))
    ensures |r.items| <= |index.items| + 1
  {
    Index(Some(OutputFileName(project, date)), UpdatedItems(index.items, project, date))
  }

  /** After the update exactly one item has the run's id and it is the
      last; the items before it are the old items without that id, in
      their order; `latest` names the output file. */
  lemma UpdatedSpec(index: Index, project: string, date: string)
    ensures var r := Updated(index, project, date);
      && r.latest == Some(OutputFileName(project, date))
      && |r.items| >= 1
      && r.items[|r.items| - 1] == NewItem(project, date)
      && r.items[|r.items| - 1].id == Some(ItemId(project, date))
      && (forall i :: 0 <= i < |r.items| - 1 ==> r.items[i].id != Some(ItemId(project, date)))
      && r.items[..|r.items| - 1] == Without(index.items, ItemId(project, date))
      && (forall it :: it in index.items && it.id != Some(ItemId(project, date)) ==> it in r.items)
  {
    var r := Updated(index, project, date);
    var kept := Without(index.items, ItemId(project, date));
    assert r.items == kept + [NewItem(project, date)];
    assert r.items[..|r.items| - 1] == kept;
    forall i | 0 <= i < |r.items| - 1
      ensures r.items[i].id != Some(ItemId(project, date))
    {
      assert r.items[i] == kept[i] && kept[i] in kept;
      WithoutMembers(index.items, ItemId(project, date), kept[i]);
    }
    forall it | it in index.items && it.id != Some(ItemId(project, date))
      ensures it in r.items
    {
      WithoutMembers(index.items, ItemId(project, date), it);
    }
  }

  /** Running the update twice for the same project and date gives the
      same index as running it once. */
  lemma UpdatedIdempotent(index: Index, project: string, date: string)
    ensures Updated(Updated(index, project, date), project, date) == Updated(index, project, date)
  {
    var id := ItemId(project, date);
    var once := Updated(index, project, date);
    var kept := Without(index.items, id);
    UpdatedSpec(index, project, date);
    WithoutAppend(kept, [NewItem(project, date)], id);
    WithoutNothingToDrop(kept, id);
    assert Without([NewItem(project, date)], id) == [] by {
      assert [NewItem(project, date)][..0] == [];
    }
    assert Without(once.items, id) == kept;
  }

  /** `sbom_index.json` as `main` holds it in memory. */
  class IndexDocument {
    var latest: Option<string>
    var items: seq<IndexItem>

    function Value(): Index
      reads this
    {
      Index(latest, items)
    }

    /** The index read from disk, or, when there is none or it is not
        valid JSON (`stored` is `None`), the default index naming the new
        output file and no items. */
    constructor (stored: Option<Index>, outputFile: string)
      ensures Value() == stored.GetOr(Index(Some(outputFile), []))
    {
      var initial := stored.GetOr(Index(Some(outputFile), []));
      latest := initial.latest;
      items := initial.items;
    }

    /** Drop the items with the run's id, append the new item, and point
        `latest` at the output file. */
    method Update(project: string, date: string)
      modifies this
      ensures Value() == Updated(old(Value()), project, date)
    {
      var itemId := ItemId(project, date);
      var kept: seq<IndexItem> := [];
      var i := 0;
      while i < |items|
        invariant 0 <= i <= |items|
        invariant kept == Without(items[..i], itemId)
      {
        if items[i].id != Some(itemId) {
          kept := kept + [items[i]];
        }
        assert items[..i + 1][..i] == items[..i];
        i := i + 1;
      }
      assert items[..i] == items;
      items := kept + [IndexItem(Some(itemId), Some(project), Some(OutputFileName(project, date)))];
      latest := Some(OutputFileName(project, date));
    }
  }

  /** The index `main` writes back for an SBOM file, a date and what was
      read from disk. */
  method WriteIndex(stored: Option<Index>, sbomFile: string, date: string) returns (written: Index)
    ensures written == Updated(stored.GetOr(Index(Some(OutputFileName(ProjectName(sbomFile), date)), [])), ProjectName(sbomFile), date)
  {
    var project := ProjectName(sbomFile);
    var doc := new IndexDocument(stored, OutputFileName(project, date));
    doc.Update(project, date);
    written := doc.Value();
  }
}
