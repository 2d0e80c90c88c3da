/**
 * Turning the flat folder and mind-map rows of one user into a tree: the
 * hierarchy the sidebar query returns, and the sorted item tree the folder
 * view renders.
 *
 * Both builders fill a `Map` from folder id to a folder object and then push
 * objects into the `children` (and `mindMaps`) arrays of the objects found
 * there. Here a folder object is named by its id: the `nodes`/`children` maps
 * hold, under each id, the arrays that the object with that id ends up with.
 */
module Folders {
  import opened Wrappers
  import opened Sorting
  import opened Seqs

  /** A row of the folders table; `parentId` is "" when the folder has no parent. */
  datatype Folder = Folder(
    id: string,
    name: string,
    parentId: string,
    color: string,
    icon: string,
    isExpanded: bool,
    sortOrder: int)

  /** A row of the mind_maps table; `folderId` is "" when the map is in no folder. */
  datatype MapRow = MapRow(id: string, title: string, folderId: string, sortOrder: Option<int>)

  function Ids(fs: seq<Folder>): set<string> {
    if fs == [] then {} else Ids(fs[..|fs| - 1]) + {fs[|fs| - 1].id}
  }

  ghost predicate DistinctIds(fs: seq<Folder>) {
    forall i, j :: 0 <= i < j < |fs| ==> fs[i].id != fs[j].id
  }

  /** The folders whose parent id is `p`, in input order. */
  function WithParent(fs: seq<Folder>, p: string): seq<Folder> {
    if fs == [] then []
    else WithParent(fs[..|fs| - 1], p) + (if fs[|fs| - 1].parentId == p then [fs[|fs| - 1]] else [])
  }

  /** The mind maps whose folder id is `k`, in input order. */
  function InFolder(ms: seq<MapRow>, k: string): seq<MapRow> {
    if ms == [] then []
    else InFolder(ms[..|ms| - 1], k) + (if ms[|ms| - 1].folderId == k then [ms[|ms| - 1]] else [])
  }

  function IdsOf(fs: seq<Folder>): seq<string> {
    if fs == [] then [] else IdsOf(fs[..|fs| - 1]) + [fs[|fs| - 1].id]
  }

  lemma WithParentSnoc(fs: seq<Folder>, f: Folder, p: string)
    ensures IdsOf(WithParent(fs + [f], p)) == IdsOf(WithParent(fs, p)) + (if f.parentId == p then [f.id] else [])
  {
    assert (fs + [f])[..|fs|] == fs;
    var w := WithParent(fs, p);
    if f.parentId == p {
      assert WithParent(fs + [f], p) == w + [f];
      assert (w + [f])[..|w|] == w;
    } else {
      assert WithParent(fs + [f], p) == w;
    }
  }

  lemma {:induction false} IdsMembers(fs: seq<Folder>, x: string)
    ensures x in Ids(fs) <==> exists f :: f in fs && f.id == x
  {
    if fs != [] {
      var init := fs[..|fs| - 1];
      assert fs == init + [fs[|fs| - 1]];
      IdsMembers(init, x);
    }
  }

  lemma {:induction false} IdsOfMembers(fs: seq<Folder>, x: string)
    ensures x in IdsOf(fs) <==> exists f :: f in fs && f.id == x
  {
    if fs != [] {
      var init := fs[..|fs| - 1];
      assert fs == init + [fs[|fs| - 1]];
      IdsOfMembers(init, x);
    }
  }

  lemma {:induction false} WithParentMembers(fs: seq<Folder>, p: string, f: Folder)
    ensures f in WithParent(fs, p) <==> f in fs && f.parentId == p
  {
    if fs != [] {
      var init := fs[..|fs| - 1];
      assert fs == init + [fs[|fs| - 1]];
      WithParentMembers(init, p, f);
    }
  }

  lemma {:induction false} InFolderMembers(ms: seq<MapRow>, k: string, m: MapRow)
    ensures m in InFolder(ms, k) <==> m in ms && m.folderId == k
  {
    if ms != [] {
      var init := ms[..|ms| - 1];
      assert ms == init + [ms[|ms| - 1]];
      InFolderMembers(init, k, m);
    }
  }

  /** An id is in `IdsOf(WithParent(fs, p))` exactly when some folder with parent `p` has it. */
  lemma ChildIdMembers(fs: seq<Folder>, p: string, x: string)
    ensures x in IdsOf(WithParent(fs, p)) <==> exists f :: f in fs && f.parentId == p && f.id == x
  {
    IdsOfMembers(WithParent(fs, p), x);
    forall f ensures f in WithParent(fs, p) <==> f in fs && f.parentId == p {
      WithParentMembers(fs, p, f);
    }
  }

  // ---------------------------------------------------------------------------
  // The hierarchy of the sidebar query
  // ---------------------------------------------------------------------------

  /** A folder object of the hierarchy: its row, the ids of the folder objects in its `children` array, and its `mindMaps` array. */
  datatype FolderNode = FolderNode(folder: Folder, children: seq<string>, mindMaps: seq<MapRow>)

  datatype Hierarchy = Hierarchy(
    rootFolders: seq<string>,
    nodes: map<string, FolderNode>,
    allFolders: seq<Folder>,
    allMindMaps: seq<MapRow>)

  /** The row that `Map.set` leaves under id `k`: the last one with that id. */
  function LastWithId(fs: seq<Folder>, k: string): (f: Folder)
    requires k in Ids(fs)
    ensures f.id == k
  {
    if fs[|fs| - 1].id == k then fs[|fs| - 1] else LastWithId(fs[..|fs| - 1], k)
  }

  /** The ids pushed into the `children` array of the object with id `k`: a falsy parent id pushes nothing. */
  function ChildIds(fs: seq<Folder>, k: string): seq<string> {
    if k == "" then [] else IdsOf(WithParent(fs, k))
  }

  /** The maps pushed into the `mindMaps` array of the object with id `k`. */
  function MapsIn(ms: seq<MapRow>, k: string): seq<MapRow> {
    if k == "" then [] else InFolder(ms, k)
  }

  /** The first loop: one fresh object per folder row, keyed by id. */
  method InitFolderMap(folders: seq<Folder>) returns (folderMap: map<string, FolderNode>)
    ensures folderMap.Keys == Ids(folders)
    ensures forall k :: k in folderMap ==> folderMap[k] == FolderNode(LastWithId(folders, k), [], [])
  {
    folderMap := map[];
    var i := 0;
    while i < |folders|
      invariant 0 <= i <= |folders|
      invariant folderMap.Keys == Ids(folders[..i])
      invariant forall k :: k in folderMap ==> folderMap[k] == FolderNode(LastWithId(folders[..i], k), [], [])
    {
      var pre, next := folders[..i], folders[..i + 1];
      assert next[..i] == pre && next[i] == folders[i];
      folderMap := folderMap[folders[i].id := FolderNode(folders[i], [], [])];
      forall k | k in folderMap
        ensures folderMap[k] == FolderNode(LastWithId(next, k), [], [])
      {
        if k != folders[i].id {
          assert LastWithId(next, k) == LastWithId(pre, k);
        }
      }
      i := i + 1;
    }
    assert folders[..i] == folders;
  }

  /** One step of the second loop, for the `children` arrays. */
  lemma LinkIdStep(folderMap: map<string, FolderNode>, folderMap0: map<string, FolderNode>,
                   done: seq<Folder>, folder: Folder)
    requires forall k :: k in folderMap ==>
               k in folderMap0 && folderMap[k] == folderMap0[k].(children := ChildIds(done, k))
    ensures var p := folder.parentId;
            var next := if p != "" && p in folderMap
                        then folderMap[p := folderMap[p].(children := folderMap[p].children + [folder.id])]
                        else folderMap;
            forall k :: k in next ==> next[k] == folderMap0[k].(children := ChildIds(done + [folder], k))
  {
    var p := folder.parentId;
    var next := if p != "" && p in folderMap
                then folderMap[p := folderMap[p].(children := folderMap[p].children + [folder.id])]
                else folderMap;
    forall k | k in next
      ensures next[k] == folderMap0[k].(children := ChildIds(done + [folder], k))
    {
      WithParentSnoc(done, folder, k);
      if p != "" && p in folderMap && k == p {
        assert next[k].children == ChildIds(done, k) + [folder.id];
      } else {
        assert next[k] == folderMap[k];
      }
    }
  }

  /** The body of the second loop, for one folder. */
  method LinkFolder(ghost folderMap0: map<string, FolderNode>, folderMap1: map<string, FolderNode>,
                    roots0: seq<string>, ghost done: seq<Folder>, folder: Folder)
    returns (folderMap: map<string, FolderNode>, rootFolders: seq<string>)
    requires roots0 == IdsOf(WithParent(done, ""))
    requires forall k :: k in folderMap1 ==>
               k in folderMap0 && folderMap1[k] == folderMap0[k].(children := ChildIds(done, k))
    ensures folderMap.Keys == folderMap1.Keys
    ensures rootFolders == IdsOf(WithParent(done + [folder], ""))
    ensures forall k :: k in folderMap ==>
              k in folderMap0 && folderMap[k] == folderMap0[k].(children := ChildIds(done + [folder], k))
  {
    folderMap, rootFolders := folderMap1, roots0;
    WithParentSnoc(done, folder, "");
    LinkIdStep(folderMap, folderMap0, done, folder);
    if folder.parentId != "" {
      if folder.parentId in folderMap {
        var parent := folderMap[folder.parentId];
        folderMap := folderMap[folder.parentId := parent.(children := parent.children + [folder.id])];
      }
    } else {
      rootFolders := rootFolders + [folder.id];
    }
  }

  /** The second loop: each folder goes into its parent's `children`, or into the root list when its parent id is falsy. */
  method LinkFolders(folders: seq<Folder>, folderMap0: map<string, FolderNode>)
    returns (folderMap: map<string, FolderNode>, rootFolders: seq<string>)
    requires folderMap0.Keys == Ids(folders)
    requires forall k :: k in folderMap0 ==> folderMap0[k].children == []
    ensures folderMap.Keys == Ids(folders)
    ensures rootFolders == IdsOf(WithParent(folders, ""))
    ensures forall k :: k in folderMap ==>
              folderMap[k] == folderMap0[k].(children := ChildIds(folders, k))
  {
    folderMap, rootFolders := folderMap0, [];
    ghost var done: seq<Folder> := [];
    var i := 0;
    while i < |folders|
      invariant 0 <= i <= |folders| && done == folders[..i]
      invariant folderMap.Keys == Ids(folders)
      invariant rootFolders == IdsOf(WithParent(done, ""))
      invariant forall k :: k in folderMap ==>
                  k in folderMap0 && folderMap[k] == folderMap0[k].(children := ChildIds(done, k))
    {
      var folder := folders[i];
      folderMap, rootFolders := LinkFolder(folderMap0, folderMap, rootFolders, done, folder);
      PrefixSnoc(folders, i);
      done := done + [folder];
      i := i + 1;
    }
    assert folders[..i] == folders;
  }

  /** One step of the third loop, for the `mindMaps` arrays. */
  lemma AttachMapStep(folderMap: map<string, FolderNode>, folderMap0: map<string, FolderNode>,
                      done: seq<MapRow>, m: MapRow)
    requires forall k :: k in folderMap ==>
               k in folderMap0 && folderMap[k] == folderMap0[k].(mindMaps := MapsIn(done, k))
    ensures var f := m.folderId;
            var next := if f != "" && f in folderMap
                        then folderMap[f := folderMap[f].(mindMaps := folderMap[f].mindMaps + [m])]
                        else folderMap;
            forall k :: k in next ==> next[k] == folderMap0[k].(mindMaps := MapsIn(done + [m], k))
  {
    var f := m.folderId;
    var next := if f != "" && f in folderMap
                then folderMap[f := folderMap[f].(mindMaps := folderMap[f].mindMaps + [m])]
                else folderMap;
    forall k | k in next
      ensures next[k] == folderMap0[k].(mindMaps := MapsIn(done + [m], k))
    {
      assert (done + [m])[..|done|] == done;
      if f != "" && f in folderMap && k == f {
        assert next[k].mindMaps == MapsIn(done, k) + [m];
      } else {
        assert next[k] == folderMap[k];
      }
    }
  }

  /** The body of the third loop, for one map. */
  method AttachMap(ghost folderMap0: map<string, FolderNode>, folderMap1: map<string, FolderNode>,
                   ghost done: seq<MapRow>, mindMap: MapRow)
    returns (folderMap: map<string, FolderNode>)
    requires forall k :: k in folderMap1 ==>
               k in folderMap0 && folderMap1[k] == folderMap0[k].(mindMaps := MapsIn(done, k))
    ensures folderMap.Keys == folderMap1.Keys
    ensures forall k :: k in folderMap ==>
              k in folderMap0 && folderMap[k] == folderMap0[k].(mindMaps := MapsIn(done + [mindMap], k))
  {
    folderMap := folderMap1;
    AttachMapStep(folderMap, folderMap0, done, mindMap);
    if mindMap.folderId != "" {
      if mindMap.folderId in folderMap {
        var folder := folderMap[mindMap.folderId];
        folderMap := folderMap[mindMap.folderId := folder.(mindMaps := folder.mindMaps + [mindMap])];
      }
    }
  }

  /** The third loop: each map goes into the `mindMaps` of the folder its truthy folder id names, if there is one. */
  method AttachMaps(mindMaps: seq<MapRow>, folderMap0: map<string, FolderNode>)
    returns (folderMap: map<string, FolderNode>)
    requires forall k :: k in folderMap0 ==> folderMap0[k].mindMaps == []
    ensures folderMap.Keys == folderMap0.Keys
    ensures forall k :: k in folderMap ==>
              folderMap[k] == folderMap0[k].(mindMaps := MapsIn(mindMaps, k))
  {
    folderMap := folderMap0;
    ghost var done: seq<MapRow> := [];
    var j := 0;
    while j < |mindMaps|
      invariant 0 <= j <= |mindMaps| && done == mindMaps[..j]
      invariant folderMap.Keys == folderMap0.Keys
      invariant forall k :: k in folderMap ==>
                  k in folderMap0 && folderMap[k] == folderMap0[k].(mindMaps := MapsIn(done, k))
    {
      folderMap := AttachMap(folderMap0, folderMap, done, mindMaps[j]);
      PrefixSnoc(mindMaps, j);
      done := done + [mindMaps[j]];
      j := j + 1;
    }
    assert mindMaps[..j] == mindMaps;
  }

  /** The hierarchy block of the sidebar query, over the rows it fetched. */
  method BuildHierarchy(folders: seq<Folder>, mindMaps: seq<MapRow>) returns (h: Hierarchy)
    ensures h.allFolders == folders && h.allMindMaps == mindMaps
    ensures h.rootFolders == IdsOf(WithParent(folders, ""))
    ensures h.nodes.Keys == Ids(folders)
    ensures forall k :: k in h.nodes ==>
              && h.nodes[k].folder == LastWithId(folders, k)
              && h.nodes[k].children == ChildIds(folders, k)
              && h.nodes[k].mindMaps == MapsIn(mindMaps, k)
  {
    var folderMap := InitFolderMap(folders);
    var rootFolders;
    folderMap, rootFolders := LinkFolders(folders, folderMap);
    folderMap := AttachMaps(mindMaps, folderMap);
    h := Hierarchy(rootFolders, folderMap, folders, mindMaps);
  }

  /** A folder is listed at the root exactly when some row with its id has a falsy parent id. */
  lemma RootFoldersAreParentless(folders: seq<Folder>, x: string)
    ensures x in IdsOf(WithParent(folders, "")) <==> exists f :: f in folders && f.id == x && f.parentId == ""
  {
    ChildIdMembers(folders, "", x);
  }

  /** A folder whose parent id names an existing folder is in that folder's `children`. */
  lemma ChildUnderExistingParent(folders: seq<Folder>, f: Folder)
    requires f in folders && f.parentId != "" && f.parentId in Ids(folders)
    ensures f.id in ChildIds(folders, f.parentId)
  {
    ChildIdMembers(folders, f.parentId, f.id);
  }

  /**
   * With distinct ids, a folder whose parent id names no folder appears
   * nowhere: neither at the root nor in any folder's `children`.
   */
  lemma OrphanFolderAppearsNowhere(folders: seq<Folder>, f: Folder)
    requires DistinctIds(folders)
    requires f in folders && f.parentId != "" && f.parentId !in Ids(folders)
    ensures f.id !in IdsOf(WithParent(folders, ""))
    ensures forall k :: k in Ids(folders) ==> f.id !in ChildIds(folders, k)
  {
    OnlyRowWithId(folders, f);
    RootFoldersAreParentless(folders, f.id);
    forall k | k in Ids(folders)
      ensures f.id !in ChildIds(folders, k)
    {
      ChildIdMembers(folders, k, f.id);
    }
  }

  /** With distinct ids, a folder is the only row carrying its id. */
  lemma OnlyRowWithId(folders: seq<Folder>, f: Folder)
    requires DistinctIds(folders) && f in folders
    ensures forall g :: g in folders && g.id == f.id ==> g == f
  {
    forall g | g in folders && g.id == f.id
      ensures g == f
    {
      var i :| 0 <= i < |folders| && folders[i] == g;
      var j :| 0 <= j < |folders| && folders[j] == f;
      assert !(i < j) && !(j < i);
    }
  }

  /**
   * A map is in the `mindMaps` of folder `k` exactly when its folder id is
   * `k` and truthy; so a map with an absent or unknown folder id is in no folder.
   */
  lemma MapPlacement(mindMaps: seq<MapRow>, m: MapRow, k: string)
    requires m in mindMaps
    ensures m in MapsIn(mindMaps, k) <==> m.folderId == k && k != ""
  {
    InFolderMembers(mindMaps, k, m);
  }

  // ---------------------------------------------------------------------------
  // The sorted item tree of the folder view
  // ---------------------------------------------------------------------------

  /**
   * An item of the folder view. A folder item's `children` array is the list
   * stored under its id in `FolderTree.children`; a map item has none.
   */
  datatype TreeItem =
    | FolderItem(id: string, name: string, icon: string, color: string, isExpanded: bool,
                 sortOrder: int, parentId: string)
    | MindMapItem(id: string, name: string, sortOrder: int, parentId: string)

  datatype FolderTree = FolderTree(roots: seq<TreeItem>, children: map<string, seq<TreeItem>>)

  function FolderItemOf(f: Folder): TreeItem {
    FolderItem(f.id, f.name, f.icon, f.color, f.isExpanded, f.sortOrder, f.parentId)
  }

  /** A map item; a falsy sort order (absent, or 0) becomes 0. */
  function MapItemOf(m: MapRow): TreeItem {
    MindMapItem(m.id, m.title, m.sortOrder.GetOr(0), m.folderId)
  }

  function FolderItems(fs: seq<Folder>): seq<TreeItem> {
    if fs == [] then [] else FolderItems(fs[..|fs| - 1]) + [FolderItemOf(fs[|fs| - 1])]
  }

  function MapItems(ms: seq<MapRow>): seq<TreeItem> {
    if ms == [] then [] else MapItems(ms[..|ms| - 1]) + [MapItemOf(ms[|ms| - 1])]
  }

  /** The comparator of `sortChildren`: folders before maps, then ascending sort order. */
  function ItemKey(it: TreeItem): Key {
    Key(if it.FolderItem? then 0 else 1, it.sortOrder)
  }

  /** The root list before sorting: parentless folders, then maps in no folder, each in input order. */
  function RootItems(folders: seq<Folder>, mindMaps: seq<MapRow>): seq<TreeItem> {
    FolderItems(WithParent(folders, "")) + MapItems(InFolder(mindMaps, ""))
  }

  /** The `children` of folder `k` before sorting: its subfolders, then its maps, each in input order. */
  function ChildItems(folders: seq<Folder>, mindMaps: seq<MapRow>, k: string): seq<TreeItem> {
    if k == "" then [] else FolderItems(WithParent(folders, k)) + MapItems(InFolder(mindMaps, k))
  }

  /** All folder items come before all map items, and each kind is in non-decreasing sort order. */
  ghost predicate FoldersFirst(s: seq<TreeItem>) {
    forall i, j :: 0 <= i < j < |s| ==>
      && (s[j].FolderItem? ==> s[i].FolderItem?)
      && (s[i].FolderItem? == s[j].FolderItem? ==> s[i].sortOrder <= s[j].sortOrder)
  }

  /** One sorted list of the tree: ordered folders first, a permutation, ties in input order. */
  lemma SortedItems(s: seq<TreeItem>)
    ensures FoldersFirst(SortBy(s, ItemKey))
    ensures multiset(SortBy(s, ItemKey)) == multiset(s)
    ensures forall key :: WithKey(SortBy(s, ItemKey), ItemKey, key) == WithKey(s, ItemKey, key)
  {
    SortByCorrect(s, ItemKey);
    var r := SortBy(s, ItemKey);
    forall i, j | 0 <= i < j < |r|
      ensures (r[j].FolderItem? ==> r[i].FolderItem?)
      ensures (r[i].FolderItem? == r[j].FolderItem? ==> r[i].sortOrder <= r[j].sortOrder)
    {
      assert KeyLe(ItemKey(r[i]), ItemKey(r[j]));
    }
  }

  lemma FolderItemsSnoc(fs: seq<Folder>, f: Folder, p: string)
    ensures FolderItems(WithParent(fs + [f], p))
            == FolderItems(WithParent(fs, p)) + (if f.parentId == p then [FolderItemOf(f)] else [])
  {
    assert (fs + [f])[..|fs|] == fs;
    var w := WithParent(fs, p);
    if f.parentId == p {
      assert WithParent(fs + [f], p) == w + [f];
      assert (w + [f])[..|w|] == w;
    } else {
      assert WithParent(fs + [f], p) == w;
    }
  }

  lemma MapItemsSnoc(ms: seq<MapRow>, m: MapRow, k: string)
    ensures MapItems(InFolder(ms + [m], k))
            == MapItems(InFolder(ms, k)) + (if m.folderId == k then [MapItemOf(m)] else [])
  {
    assert (ms + [m])[..|ms|] == ms;
    var w := InFolder(ms, k);
    if m.folderId == k {
      assert InFolder(ms + [m], k) == w + [m];
      assert (w + [m])[..|w|] == w;
    } else {
      assert InFolder(ms + [m], k) == w;
    }
  }

  /** The subfolder items pushed into the `children` of folder `k` (none under a falsy id). */
  function SubfolderItems(fs: seq<Folder>, k: string): seq<TreeItem> {
    if k == "" then [] else FolderItems(WithParent(fs, k))
  }

  lemma SubfolderItemsSnoc(fs: seq<Folder>, f: Folder, k: string)
    ensures SubfolderItems(fs + [f], k)
            == if k != "" && f.parentId == k then SubfolderItems(fs, k) + [FolderItemOf(f)] else SubfolderItems(fs, k)
  {
    FolderItemsSnoc(fs, f, k);
  }

  lemma RootItemsSnoc(fs: seq<Folder>, ms: seq<MapRow>, m: MapRow)
    ensures RootItems(fs, ms + [m]) == RootItems(fs, ms) + (if m.folderId == "" then [MapItemOf(m)] else [])
  {
    MapItemsSnoc(ms, m, "");
  }

  lemma ChildItemsSnoc(fs: seq<Folder>, ms: seq<MapRow>, m: MapRow, k: string)
    ensures ChildItems(fs, ms + [m], k)
            == ChildItems(fs, ms, k) + (if k != "" && m.folderId == k then [MapItemOf(m)] else [])
  {
    MapItemsSnoc(ms, m, k);
  }

  /** With distinct ids, the row `Map.set` leaves under a folder's id is that folder's own. */
  lemma {:induction false} LastWithIdDistinct(fs: seq<Folder>, i: nat)
    requires DistinctIds(fs) && i < |fs|
    ensures fs[i].id in Ids(fs) && LastWithId(fs, fs[i].id) == fs[i]
  {
    var init := fs[..|fs| - 1];
    if i < |fs| - 1 {
      assert init[i] == fs[i];
      LastWithIdDistinct(init, i);
    }
  }

  /** The first loop: one item per folder, with an empty `children` array. */
  method CreateFolderItems(folders: seq<Folder>)
    returns (folderMap: map<string, TreeItem>, kids: map<string, seq<TreeItem>>)
    ensures folderMap.Keys == kids.Keys == Ids(folders)
    ensures forall k :: k in folderMap ==> folderMap[k] == FolderItemOf(LastWithId(folders, k))
    ensures forall k :: k in kids ==> kids[k] == []
  {
    folderMap, kids := map[], map[];
    var i := 0;
    while i < |folders|
      invariant 0 <= i <= |folders|
      invariant folderMap.Keys == kids.Keys == Ids(folders[..i])
      invariant forall k :: k in folderMap ==> folderMap[k] == FolderItemOf(LastWithId(folders[..i], k))
      invariant forall k :: k in kids ==> kids[k] == []
    {
      var pre, next := folders[..i], folders[..i + 1];
      assert next[..i] == pre && next[i] == folders[i];
      folderMap := folderMap[folders[i].id := FolderItemOf(folders[i])];
      kids := kids[folders[i].id := []];
      forall k | k in folderMap
        ensures folderMap[k] == FolderItemOf(LastWithId(next, k))
      {
        if k != folders[i].id {
          assert LastWithId(next, k) == LastWithId(pre, k);
        }
      }
      i := i + 1;
    }
    assert folders[..i] == folders;
  }

  /** One step of the second loop, for the `children` lists. */
  lemma LinkStep(kids: map<string, seq<TreeItem>>, done: seq<Folder>, folder: Folder)
    requires forall k :: k in kids ==> kids[k] == SubfolderItems(done, k)
    ensures var p := folder.parentId;
            var kids' := if p != "" && p in kids then kids[p := kids[p] + [FolderItemOf(folder)]] else kids;
            forall k :: k in kids' ==> kids'[k] == SubfolderItems(done + [folder], k)
  {
    var p := folder.parentId;
    var next := if p != "" && p in kids then kids[p := kids[p] + [FolderItemOf(folder)]] else kids;
    forall k | k in next
      ensures next[k] == SubfolderItems(done + [folder], k)
    {
      SubfolderItemsSnoc(done, folder, k);
      if p != "" && p in kids && k == p {
        assert next[k] == kids[k] + [FolderItemOf(folder)];
      } else {
        assert next[k] == kids[k];
      }
    }
  }

  /** The body of the second loop, for one folder and its item. */
  method LinkFolderItem(kids0: map<string, seq<TreeItem>>, roots0: seq<TreeItem>, ghost done: seq<Folder>,
                        folder: Folder, item: TreeItem)
    returns (kids: map<string, seq<TreeItem>>, rootItems: seq<TreeItem>)
    requires item == FolderItemOf(folder)
    requires roots0 == FolderItems(WithParent(done, ""))
    requires forall k :: k in kids0 ==> kids0[k] == SubfolderItems(done, k)
    ensures kids.Keys == kids0.Keys
    ensures rootItems == FolderItems(WithParent(done + [folder], ""))
    ensures forall k :: k in kids ==> kids[k] == SubfolderItems(done + [folder], k)
  {
    kids, rootItems := kids0, roots0;
    FolderItemsSnoc(done, folder, "");
    LinkStep(kids, done, folder);
    if folder.parentId != "" {
      if folder.parentId in kids {
        kids := kids[folder.parentId := kids[folder.parentId] + [item]];
      }
    } else {
      rootItems := rootItems + [item];
    }
  }

  /** The second loop: each folder item goes into its parent's `children`, or to the root list when its parent id is falsy. */
  method LinkFolderItems(folders: seq<Folder>, folderMap: map<string, TreeItem>, kids0: map<string, seq<TreeItem>>)
    returns (kids: map<string, seq<TreeItem>>, rootItems: seq<TreeItem>)
    requires folderMap.Keys == kids0.Keys == Ids(folders)
    requires forall i :: 0 <= i < |folders| ==>
               folders[i].id in folderMap && folderMap[folders[i].id] == FolderItemOf(folders[i])
    requires forall k :: k in kids0 ==> kids0[k] == []
    ensures kids.Keys == Ids(folders)
    ensures rootItems == FolderItems(WithParent(folders, ""))
    ensures forall k :: k in kids ==> kids[k] == SubfolderItems(folders, k)
  {
    kids, rootItems := kids0, [];
    ghost var done: seq<Folder> := [];
    var i := 0;
    while i < |folders|
      invariant 0 <= i <= |folders| && done == folders[..i]
      invariant kids.Keys == Ids(folders)
      invariant rootItems == FolderItems(WithParent(done, ""))
      invariant forall k :: k in kids ==> kids[k] == SubfolderItems(done, k)
    {
      var folder := folders[i];
      var item := folderMap[folder.id];
      kids, rootItems := LinkFolderItem(kids, rootItems, done, folder, item);
      PrefixSnoc(folders, i);
      done := done + [folder];
      i := i + 1;
    }
    assert folders[..i] == folders;
  }

  /** One step of the third loop, for the `children` lists. */
  lemma AttachStep(folders: seq<Folder>, kids: map<string, seq<TreeItem>>, done: seq<MapRow>, m: MapRow)
    requires forall k :: k in kids ==> kids[k] == ChildItems(folders, done, k)
    ensures var f := m.folderId;
            var kids' := if f != "" && f in kids then kids[f := kids[f] + [MapItemOf(m)]] else kids;
            forall k :: k in kids' ==> kids'[k] == ChildItems(folders, done + [m], k)
  {
    var f := m.folderId;
    var next := if f != "" && f in kids then kids[f := kids[f] + [MapItemOf(m)]] else kids;
    forall k | k in next
      ensures next[k] == ChildItems(folders, done + [m], k)
    {
      ChildItemsSnoc(folders, done, m, k);
      if f != "" && f in kids && k == f {
        assert next[k] == kids[k] + [MapItemOf(m)];
      } else {
        assert next[k] == kids[k];
      }
    }
  }

  /** The body of the third loop, for one map. */
  method AttachMapItem(ghost folders: seq<Folder>, kids0: map<string, seq<TreeItem>>, roots0: seq<TreeItem>,
                       ghost done: seq<MapRow>, mindMap: MapRow)
    returns (kids: map<string, seq<TreeItem>>, rootItems: seq<TreeItem>)
    requires roots0 == RootItems(folders, done)
    requires forall k :: k in kids0 ==> kids0[k] == ChildItems(folders, done, k)
    ensures kids.Keys == kids0.Keys
    ensures rootItems == RootItems(folders, done + [mindMap])
    ensures forall k :: k in kids ==> kids[k] == ChildItems(folders, done + [mindMap], k)
  {
    kids, rootItems := kids0, roots0;
    var mapItem := MapItemOf(mindMap);
    RootItemsSnoc(folders, done, mindMap);
    AttachStep(folders, kids, done, mindMap);
    if mindMap.folderId != "" {
      if mindMap.folderId in kids {
        kids := kids[mindMap.folderId := kids[mindMap.folderId] + [mapItem]];
      }
    } else {
      rootItems := rootItems + [mapItem];
    }
  }

  /** The third loop: each map item goes into its folder's `children`, or to the root list when its folder id is falsy; an unknown folder id drops it. */
  method AttachMapItems(folders: seq<Folder>, mindMaps: seq<MapRow>,
                        kids0: map<string, seq<TreeItem>>, roots0: seq<TreeItem>)
    returns (kids: map<string, seq<TreeItem>>, rootItems: seq<TreeItem>)
    requires kids0.Keys == Ids(folders)
    requires roots0 == FolderItems(WithParent(folders, ""))
    requires forall k :: k in kids0 ==> kids0[k] == SubfolderItems(folders, k)
    ensures kids.Keys == Ids(folders)
    ensures rootItems == RootItems(folders, mindMaps)
    ensures forall k :: k in kids ==> kids[k] == ChildItems(folders, mindMaps, k)
  {
    kids, rootItems := kids0, roots0;
    ghost var done: seq<MapRow> := [];
    var j := 0;
    while j < |mindMaps|
      invariant 0 <= j <= |mindMaps| && done == mindMaps[..j]
      invariant kids.Keys == Ids(folders)
      invariant rootItems == RootItems(folders, done)
      invariant forall k :: k in kids ==> kids[k] == ChildItems(folders, done, k)
    {
      kids, rootItems := AttachMapItem(folders, kids, rootItems, done, mindMaps[j]);
      PrefixSnoc(mindMaps, j);
      done := done + [mindMaps[j]];
      j := j + 1;
    }
    assert mindMaps[..j] == mindMaps;
  }

  /** `sortChildren`: the root list and the `children` of every folder, each sorted by `ItemKey`. */
  method SortChildren(folders: seq<Folder>, kids0: map<string, seq<TreeItem>>, roots0: seq<TreeItem>)
    returns (kids: map<string, seq<TreeItem>>, rootItems: seq<TreeItem>)
    requires DistinctIds(folders)
    requires kids0.Keys == Ids(folders)
    ensures kids.Keys == Ids(folders)
    ensures rootItems == SortBy(roots0, ItemKey)
    ensures forall k :: k in kids ==> kids[k] == SortBy(kids0[k], ItemKey)
  {
    rootItems := SortBy(roots0, ItemKey);
    kids := kids0;
    var i := 0;
    while i < |folders|
      invariant 0 <= i <= |folders|
      invariant kids.Keys == Ids(folders)
      invariant forall k :: k in kids ==>
                  kids[k] == if k in Ids(folders[..i]) then SortBy(kids0[k], ItemKey) else kids0[k]
    {
      PrefixSnoc(folders, i);
      var id := folders[i].id;
      IdsMembers(folders[..i], id);
      IdsMembers(folders, id);
      kids := kids[id := SortBy(kids[id], ItemKey)];
      i := i + 1;
    }
    assert folders[..i] == folders;
  }

  /** `buildFolderTree`: the folder view's root list, and each folder's sorted `children`. */
  method BuildFolderTree(folders: seq<Folder>, mindMaps: seq<MapRow>) returns (t: FolderTree)
    requires DistinctIds(folders)
    ensures t.children.Keys == Ids(folders)
    ensures t.roots == SortBy(RootItems(folders, mindMaps), ItemKey)
    ensures forall k :: k in t.children ==> t.children[k] == SortBy(ChildItems(folders, mindMaps, k), ItemKey)
    ensures FoldersFirst(t.roots) && multiset(t.roots) == multiset(RootItems(folders, mindMaps))
    ensures forall k :: k in t.children ==>
              FoldersFirst(t.children[k]) && multiset(t.children[k]) == multiset(ChildItems(folders, mindMaps, k))
  {
    var folderMap, kids := CreateFolderItems(folders);
    forall i | 0 <= i < |folders|
      ensures folders[i].id in folderMap && folderMap[folders[i].id] == FolderItemOf(folders[i])
    {
      LastWithIdDistinct(folders, i);
    }
    var rootItems;
    kids, rootItems := LinkFolderItems(folders, folderMap, kids);
    kids, rootItems := AttachMapItems(folders, mindMaps, kids, rootItems);
    kids, rootItems := SortChildren(folders, kids, rootItems);
    t := FolderTree(rootItems, kids);
    SortedItems(RootItems(folders, mindMaps));
    forall k | k in t.children
      ensures FoldersFirst(t.children[k]) && multiset(t.children[k]) == multiset(ChildItems(folders, mindMaps, k))
    {
      SortedItems(ChildItems(folders, mindMaps, k));
    }
  }

  lemma {:induction false} FolderItemsMembers(fs: seq<Folder>, it: TreeItem)
    ensures it in FolderItems(fs) <==> exists f :: f in fs && FolderItemOf(f) == it
  {
    if fs != [] {
      var init := fs[..|fs| - 1];
      assert fs == init + [fs[|fs| - 1]];
      FolderItemsMembers(init, it);
    }
  }

  lemma {:induction false} MapItemsMembers(ms: seq<MapRow>, it: TreeItem)
    ensures it in MapItems(ms) <==> exists m :: m in ms && MapItemOf(m) == it
  {
    if ms != [] {
      var init := ms[..|ms| - 1];
      assert ms == init + [ms[|ms| - 1]];
      MapItemsMembers(init, it);
    }
  }

  /** The items of the folder list `FolderItems(WithParent(fs, p))` and the map list `MapItems(InFolder(ms, p))`. */
  lemma PlacedMembers(fs: seq<Folder>, ms: seq<MapRow>, p: string, it: TreeItem)
    ensures it in FolderItems(WithParent(fs, p)) <==> exists f :: f in fs && f.parentId == p && FolderItemOf(f) == it
    ensures it in MapItems(InFolder(ms, p)) <==> exists m :: m in ms && m.folderId == p && MapItemOf(m) == it
  {
    FolderItemsMembers(WithParent(fs, p), it);
    forall f ensures f in WithParent(fs, p) <==> f in fs && f.parentId == p {
      WithParentMembers(fs, p, f);
    }
    MapItemsMembers(InFolder(ms, p), it);
    forall m ensures m in InFolder(ms, p) <==> m in ms && m.folderId == p {
      InFolderMembers(ms, p, m);
    }
  }

  /** The folder view's root list holds exactly the parentless folders and the maps in no folder. */
  lemma RootListMembers(folders: seq<Folder>, mindMaps: seq<MapRow>, it: TreeItem)
    ensures it in SortBy(RootItems(folders, mindMaps), ItemKey) <==>
              || (exists f :: f in folders && f.parentId == "" && FolderItemOf(f) == it)
              || (exists m :: m in mindMaps && m.folderId == "" && MapItemOf(m) == it)
  {
    var s := RootItems(folders, mindMaps);
    SortedItems(s);
    assert it in SortBy(s, ItemKey) <==> it in multiset(s);
    PlacedMembers(folders, mindMaps, "", it);
  }

  /** A folder's `children` hold exactly its subfolders and its maps; a falsy id holds nothing. */
  lemma ChildListMembers(folders: seq<Folder>, mindMaps: seq<MapRow>, k: string, it: TreeItem)
    ensures it in SortBy(ChildItems(folders, mindMaps, k), ItemKey) <==>
              && k != ""
              && (|| (exists f :: f in folders && f.parentId == k && FolderItemOf(f) == it)
                  || (exists m :: m in mindMaps && m.folderId == k && MapItemOf(m) == it))
  {
    var s := ChildItems(folders, mindMaps, k);
    SortedItems(s);
    assert it in SortBy(s, ItemKey) <==> it in multiset(s);
    PlacedMembers(folders, mindMaps, k, it);
  }

  /**
   * A map whose folder id is truthy but names no folder is dropped: it is
   * neither at the root nor in the `children` of any folder.
   */
  lemma MapInUnknownFolderIsDropped(folders: seq<Folder>, mindMaps: seq<MapRow>, m: MapRow)
    requires m.folderId != "" && m.folderId !in Ids(folders)
    ensures MapItemOf(m) !in SortBy(RootItems(folders, mindMaps), ItemKey)
    ensures forall k :: k in Ids(folders) ==> MapItemOf(m) !in SortBy(ChildItems(folders, mindMaps, k), ItemKey)
  {
    RootListMembers(folders, mindMaps, MapItemOf(m));
    forall k | k in Ids(folders)
      ensures MapItemOf(m) !in SortBy(ChildItems(folders, mindMaps, k), ItemKey)
    {
      ChildListMembers(folders, mindMaps, k, MapItemOf(m));
    }
  }

  /**
   * An item in the `children` of folder `k` carries `k` as its parent id, so
   * it is in no other folder's `children` and not in the root list: every
   * item is attached in at most one place.
   */
  lemma ItemInOneList(folders: seq<Folder>, mindMaps: seq<MapRow>, k: string, it: TreeItem)
    requires it in SortBy(ChildItems(folders, mindMaps, k), ItemKey)
    ensures k != "" && it.parentId == k
    ensures it !in SortBy(RootItems(folders, mindMaps), ItemKey)
  {
    ChildListMembers(folders, mindMaps, k, it);
    RootListMembers(folders, mindMaps, it);
    forall f | f in folders && FolderItemOf(f) == it
      ensures f.parentId != ""
    {
    }
    forall m | m in mindMaps && MapItemOf(m) == it
      ensures m.folderId != ""
    {
    }
  }
}
