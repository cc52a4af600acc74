/**
 * The saved-reports screen (SavedReports.tsx): diagnoses grouped by folder,
 * most recently updated first; which folders are expanded; and the guard of
 * the drag-and-drop move.
 */
module SavedReports {
  import opened Types
  import opened Sorting
  import opened Diagnoses

  /** The sort key of `(a, b) => b.lastUpdated - a.lastUpdated`: the newest has the smallest key. */
  function Recency(d: Diagnosis): real {
    -(d.lastUpdated as real)
  }

  predicate NewestFirst(ds: seq<Diagnosis>) {
    forall i, j :: 0 <= i < j < |ds| ==> ds[i].lastUpdated >= ds[j].lastUpdated
  }

  /** `[...diagnoses].sort(...)`: newest first, ties in their original order, the same diagnoses. */
  function SortByRecency(ds: seq<Diagnosis>): (r: seq<Diagnosis>)
    ensures NewestFirst(r)
    ensures multiset(r) == multiset(ds)
  {
    var r := SortBy(ds, Recency);
    assert forall i, j :: 0 <= i < j < |r| ==> Recency(r[i]) <= Recency(r[j]);
    r
  }

  /**
   * Diagnoses updated at the same time keep their original relative order:
   * for every key `v` (the negated `lastUpdated`), the diagnoses with that
   * key come out in their input order.
   */
  lemma SameTimeKeepsOrder(ds: seq<Diagnosis>, v: real)
    ensures WithKey(SortByRecency(ds), Recency, v) == WithKey(ds, Recency, v)
  {
    assert SortByRecency(ds) == SortBy(ds, Recency);
    SortByStable(ds, Recency, v);
  }

  /** The ids of the folders, the keys `byFolder` starts with. */
  function FolderIds(folders: seq<Folder>): set<string>
    decreases |folders|
  {
    if folders == [] then {} else FolderIds(folders[..|folders| - 1]) + {folders[|folders| - 1].id}
  }

  lemma {:induction false} FolderIdsMembers(folders: seq<Folder>, id: string)
    ensures id in FolderIds(folders) <==> exists i :: 0 <= i < |folders| && folders[i].id == id
    decreases |folders|
  {
    if folders != [] {
      var init := folders[..|folders| - 1];
      FolderIdsMembers(init, id);
      if id in FolderIds(init) {
        var i :| 0 <= i < |init| && init[i].id == id;
        assert folders[i] == init[i];
      } else if exists i :: 0 <= i < |folders| && folders[i].id == id {
        var i :| 0 <= i < |folders| && folders[i].id == id;
        if i < |init| {
          assert init[i] == folders[i];
        }
      }
    }
  }

  /** `d.folderId && byFolder[d.folderId]`: a non-empty folder id naming an existing folder. */
  predicate Filed(d: Diagnosis, ids: set<string>) {
    d.folderId.Some? && d.folderId.value != "" && d.folderId.value in ids
  }

  /** The diagnoses of `ds` pushed onto `byFolder[fid]`, in order. */
  function InFolder(ds: seq<Diagnosis>, fid: string): seq<Diagnosis>
    decreases |ds|
  {
    if ds == [] then []
    else
      var d := ds[|ds| - 1];
      InFolder(ds[..|ds| - 1], fid) + (if d.folderId == Some(fid) && fid != "" then [d] else [])
  }

  /** The diagnoses of `ds` pushed onto `uncategorized`, in order. */
  function Uncategorized(ds: seq<Diagnosis>, ids: set<string>): seq<Diagnosis>
    decreases |ds|
  {
    if ds == [] then []
    else
      var d := ds[|ds| - 1];
      Uncategorized(ds[..|ds| - 1], ids) + (if Filed(d, ids) then [] else [d])
  }

  lemma InFolderSnoc(ds: seq<Diagnosis>, d: Diagnosis, fid: string)
    ensures InFolder(ds + [d], fid) == InFolder(ds, fid) + (if d.folderId == Some(fid) && fid != "" then [d] else [])
  {
    assert (ds + [d])[..|ds|] == ds;
  }

  lemma UncategorizedSnoc(ds: seq<Diagnosis>, d: Diagnosis, ids: set<string>)
    ensures Uncategorized(ds + [d], ids) == Uncategorized(ds, ids) + (if Filed(d, ids) then [] else [d])
  {
    assert (ds + [d])[..|ds|] == ds;
  }

  /**
   * The grouping of `SavedReports`: every folder gets a list, possibly
   * empty; each sorted diagnosis is pushed onto its folder's list when it is
   * filed in an existing folder, and onto the uncategorized list otherwise.
   */
  method GroupReports(diagnoses: seq<Diagnosis>, folders: seq<Folder>)
    returns (byFolder: map<string, seq<Diagnosis>>, uncategorized: seq<Diagnosis>)
    ensures byFolder.Keys == FolderIds(folders)
    ensures forall fid :: fid in byFolder ==> byFolder[fid] == InFolder(SortByRecency(diagnoses), fid)
    ensures uncategorized == Uncategorized(SortByRecency(diagnoses), FolderIds(folders))
  {
    byFolder := map[];
    for i := 0 to |folders|
      invariant byFolder.Keys == FolderIds(folders[..i])
      invariant forall fid :: fid in byFolder ==> byFolder[fid] == []
    {
      assert folders[..i + 1][..i] == folders[..i];
      byFolder := byFolder[folders[i].id := []];
    }
    assert folders[..|folders|] == folders;
    var sorted := SortByRecency(diagnoses);
    byFolder, uncategorized := Distribute(sorted, byFolder);
  }

  /** The `sorted.forEach` loop, from folders with empty lists. */
  method Distribute(sorted: seq<Diagnosis>, initial: map<string, seq<Diagnosis>>)
    returns (byFolder: map<string, seq<Diagnosis>>, uncategorized: seq<Diagnosis>)
    requires forall fid :: fid in initial ==> initial[fid] == []
    ensures byFolder.Keys == initial.Keys
    ensures forall fid :: fid in byFolder ==> byFolder[fid] == InFolder(sorted, fid)
    ensures uncategorized == Uncategorized(sorted, initial.Keys)
  {
    byFolder := initial;
    uncategorized := [];
    for j := 0 to |sorted|
      invariant byFolder.Keys == initial.Keys
      invariant forall fid :: fid in byFolder ==> byFolder[fid] == InFolder(sorted[..j], fid)
      invariant uncategorized == Uncategorized(sorted[..j], initial.Keys)
    {
      var d := sorted[j];
      assert sorted[..j + 1] == sorted[..j] + [d];
      UncategorizedSnoc(sorted[..j], d, initial.Keys);
      forall fid | fid in byFolder
        ensures InFolder(sorted[..j + 1], fid) == InFolder(sorted[..j], fid) + (if d.folderId == Some(fid) && fid != "" then [d] else [])
      {
        InFolderSnoc(sorted[..j], d, fid);
      }
      if d.folderId.Some? && d.folderId.value != "" && d.folderId.value in byFolder {
        byFolder := byFolder[d.folderId.value := byFolder[d.folderId.value] + [d]];
      } else {
        uncategorized := uncategorized + [d];
      }
    }
    assert sorted[..|sorted|] == sorted;
  }

  /** Filtering keeps the newest-first order. */
  lemma {:induction false} FilteredNewestFirst(ds: seq<Diagnosis>, fid: string, ids: set<string>)
    requires NewestFirst(ds)
    ensures NewestFirst(InFolder(ds, fid)) && NewestFirst(Uncategorized(ds, ids))
    ensures forall x :: x in InFolder(ds, fid) ==> x in ds
    ensures forall x :: x in Uncategorized(ds, ids) ==> x in ds
    decreases |ds|
  {
    if ds != [] {
      var init, d := ds[..|ds| - 1], ds[|ds| - 1];
      assert NewestFirst(init) by {
        forall i, j | 0 <= i < j < |init| ensures init[i].lastUpdated >= init[j].lastUpdated {
          assert init[i] == ds[i] && init[j] == ds[j];
        }
      }
      FilteredNewestFirst(init, fid, ids);
      forall x | x in init ensures x.lastUpdated >= d.lastUpdated {
        var i :| 0 <= i < |init| && init[i] == x;
        assert ds[i] == x;
      }
      AppendNewestFirst(InFolder(init, fid), if d.folderId == Some(fid) && fid != "" then [d] else [], init, d);
      AppendNewestFirst(Uncategorized(init, ids), if Filed(d, ids) then [] else [d], init, d);
    }
  }

  lemma AppendNewestFirst(a: seq<Diagnosis>, b: seq<Diagnosis>, from: seq<Diagnosis>, d: Diagnosis)
    requires NewestFirst(a) && (b == [] || b == [d])
    requires forall x :: x in a ==> x in from
    requires forall x :: x in from ==> x.lastUpdated >= d.lastUpdated
    ensures NewestFirst(a + b)
    ensures forall x :: x in a + b ==> x in from || x == d
  {
    var r := a + b;
    forall i, j | 0 <= i < j < |r| ensures r[i].lastUpdated >= r[j].lastUpdated {
      if j >= |a| {
        assert r[i] in a && r[j] == d;
      } else {
        assert r[i] == a[i] && r[j] == a[j];
      }
    }
  }

  /** A folder's list holds a diagnosis as often as the input does when it is filed there, and never otherwise. */
  lemma {:induction false} InFolderCount(ds: seq<Diagnosis>, fid: string, d: Diagnosis)
    ensures multiset(InFolder(ds, fid))[d] == if d.folderId == Some(fid) && fid != "" then multiset(ds)[d] else 0
    decreases |ds|
  {
    if ds != [] {
      var init := ds[..|ds| - 1];
      InFolderCount(init, fid, d);
      assert ds == init + [ds[|ds| - 1]];
    }
  }

  /** The uncategorized list holds a diagnosis as often as the input does when it is not filed, and never otherwise. */
  lemma {:induction false} UncategorizedCount(ds: seq<Diagnosis>, ids: set<string>, d: Diagnosis)
    ensures multiset(Uncategorized(ds, ids))[d] == if Filed(d, ids) then 0 else multiset(ds)[d]
    decreases |ds|
  {
    if ds != [] {
      var init := ds[..|ds| - 1];
      UncategorizedCount(init, ids, d);
      assert ds == init + [ds[|ds| - 1]];
    }
  }

  /**
   * Every diagnosis lands in exactly one list, as often as it occurs: in its
   * folder's list when it is filed in an existing folder, in the
   * uncategorized list otherwise, and in no other folder's list.
   */
  lemma EachInOnePlace(ds: seq<Diagnosis>, ids: set<string>, d: Diagnosis, fid: string)
    requires fid in ids
    ensures Filed(d, ids) && d.folderId.value == fid ==>
              multiset(InFolder(ds, fid))[d] == multiset(ds)[d] && multiset(Uncategorized(ds, ids))[d] == 0
    ensures !Filed(d, ids) ==>
              multiset(Uncategorized(ds, ids))[d] == multiset(ds)[d] && multiset(InFolder(ds, fid))[d] == 0
    ensures Filed(d, ids) && d.folderId.value != fid ==> multiset(InFolder(ds, fid))[d] == 0
  {
    InFolderCount(ds, fid, d);
    UncategorizedCount(ds, ids, d);
  }

  /**
   * The grouping shown on screen: each list is newest first, and the lists
   * together hold every diagnosis exactly as often as the input does.
   */
  lemma GroupingPartitions(diagnoses: seq<Diagnosis>, folders: seq<Folder>, d: Diagnosis, fid: string)
    requires fid in FolderIds(folders)
    ensures var sorted := SortByRecency(diagnoses);
            var ids := FolderIds(folders);
            && NewestFirst(InFolder(sorted, fid))
            && NewestFirst(Uncategorized(sorted, ids))
            && (Filed(d, ids) && d.folderId.value == fid ==>
                  multiset(InFolder(sorted, fid))[d] == multiset(diagnoses)[d] && multiset(Uncategorized(sorted, ids))[d] == 0)
            && (!Filed(d, ids) ==>
                  multiset(Uncategorized(sorted, ids))[d] == multiset(diagnoses)[d] && multiset(InFolder(sorted, fid))[d] == 0)
            && (Filed(d, ids) && d.folderId.value != fid ==> multiset(InFolder(sorted, fid))[d] == 0)
  {
    var sorted := SortByRecency(diagnoses);
    FilteredNewestFirst(sorted, fid, FolderIds(folders));
    EachInOnePlace(sorted, FolderIds(folders), d, fid);
  }

  // ---------------------------------------------------------------------
  // Expanded folders.

  /** `!!expandedFolders[id]`. */
  predicate IsExpanded(expanded: map<string, bool>, id: string) {
    id in expanded && expanded[id]
  }

  /** The effect on `folders`: every folder without an entry gets one, expanded; existing entries stay. */
  method ExpandDefaults(prev: map<string, bool>, folders: seq<Folder>) returns (r: map<string, bool>)
    ensures r.Keys == prev.Keys + FolderIds(folders)
    ensures forall k :: k in prev ==> r[k] == prev[k]
    ensures forall k :: k in r && k !in prev ==> r[k]
  {
    r := prev;
    for i := 0 to |folders|
      invariant r.Keys == prev.Keys + FolderIds(folders[..i])
      invariant forall k :: k in prev ==> r[k] == prev[k]
      invariant forall k :: k in r && k !in prev ==> r[k]
    {
      assert folders[..i + 1][..i] == folders[..i];
      if folders[i].id !in r {
        r := r[folders[i].id := true];
      }
    }
    assert folders[..|folders|] == folders;
  }

  /** `toggleFolderExpansion`: `[folderId]: !prev[folderId]`, a missing entry reading as collapsed. */
  function ToggleExpanded(expanded: map<string, bool>, folderId: string): (r: map<string, bool>)
    ensures IsExpanded(r, folderId) <==> !IsExpanded(expanded, folderId)
    ensures forall k :: k != folderId ==> (k in r <==> k in expanded) && (k in r ==> r[k] == expanded[k])
  {
    expanded[folderId := !(folderId in expanded && expanded[folderId])]
  }

  /** Two toggles restore what is shown, and a folder that just appeared starts expanded. */
  lemma ExpansionProperties(prev: map<string, bool>, folders: seq<Folder>, after: map<string, bool>, id: string)
    requires after.Keys == prev.Keys + FolderIds(folders)
    requires forall k :: k in prev ==> after[k] == prev[k]
    requires forall k :: k in after && k !in prev ==> after[k]
    ensures forall k :: IsExpanded(ToggleExpanded(ToggleExpanded(prev, id), id), k) == IsExpanded(prev, k)
    ensures id in FolderIds(folders) && id !in prev ==> IsExpanded(after, id)
    ensures id in prev ==> IsExpanded(after, id) == IsExpanded(prev, id)
  {
  }

  // ---------------------------------------------------------------------
  // Drag and drop.

  /** `if (draggedItemId)`: a drag is in progress, an empty id being falsy. */
  predicate Dragging(draggedItemId: Option<string>) {
    draggedItemId.Some? && draggedItemId.value != ""
  }

  /**
   * `handleDrop`: a drop moves the dragged diagnosis only when a drag is in
   * progress, the diagnosis exists and it is not already in the target
   * (`null` is "no folder"); the drag state is cleared in every case.
   */
  function HandleDrop(ds: seq<Diagnosis>, draggedItemId: Option<string>, target: Option<string>, now: int)
    : (r: (seq<Diagnosis>, Option<string>))
    ensures r.1.None?
    ensures !Dragging(draggedItemId) ==> r.0 == ds
    ensures Dragging(draggedItemId) ==>
              var found := FindDiagnosis(ds, draggedItemId.value);
              if found.Some? && ds[found.value].folderId != target
              then r.0 == MoveDiagnosisToFolder(ds, draggedItemId.value, target, now)
              else r.0 == ds
  {
    if Dragging(draggedItemId) then
      var found := FindDiagnosis(ds, draggedItemId.value);
      if found.Some? && ds[found.value].folderId != target
      then (MoveDiagnosisToFolder(ds, draggedItemId.value, target, now), None)
      else (ds, None)
    else (ds, None)
  }

  /**
   * A drop never touches a diagnosis already in the target, and after a
   * drop the dragged diagnosis is in the target folder.
   */
  lemma DropLandsInTarget(ds: seq<Diagnosis>, id: string, target: Option<string>, now: int)
    requires id != ""
    ensures var found := FindDiagnosis(ds, id);
            var after := HandleDrop(ds, Some(id), target, now).0;
            && |after| == |ds|
            && (found.Some? ==> after[found.value].folderId == target)
            && (found.Some? && ds[found.value].folderId == target ==> after == ds)
            && (found.None? ==> after == ds)
  {
  }
}
