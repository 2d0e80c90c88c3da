/**
 * The tab strip above the editor: one tab per opened map. Its state
 * updaters are pure functions of the previous tab list; closing a tab
 * returns the route to navigate to instead of navigating.
 */
module TabBar {
  import opened Wrappers

  datatype Tab = Tab(id: string, title: string, path: string, isPinned: bool)

  const UntitledMap: string := "Untitled Map"
  const MapsRoute: string := "/maps"
  const MapsPrefix: string := "/maps/"

  // ---------------------------------------------------------------------
  // The map id in the current route: the pattern `\/maps\/([^\/]+)`

  /** The pattern matches at `i`: `/maps/` followed by at least one character other than `/`. */
  predicate MatchAt(p: string, i: nat) {
    i + |MapsPrefix| < |p| && p[i..i + |MapsPrefix|] == MapsPrefix && p[i + |MapsPrefix|] != '/'
  }

  /** The leftmost match at or after `from`, as the regular-expression search finds it. */
  function FirstMatch(p: string, from: nat): (r: Option<nat>)
    ensures r.Some? ==> from <= r.value && MatchAt(p, r.value)
    ensures forall j :: from <= j && (r.None? || j < r.value) ==> !MatchAt(p, j)
    decreases |p| - from
  {
    if from + |MapsPrefix| >= |p| then None
    else if MatchAt(p, from) then Some(from)
    else FirstMatch(p, from + 1)
  }

  /** The greedy capture `[^\/]+`: the longest run without `/` starting at `j`. */
  function RunFrom(p: string, j: nat): (r: string)
    requires j <= |p|
    ensures j + |r| <= |p| && p[j..j + |r|] == r
    ensures '/' !in r
    ensures j + |r| == |p| || p[j + |r|] == '/'
    decreases |p| - j
  {
    if j == |p| || p[j] == '/' then "" else [p[j]] + RunFrom(p, j + 1)
  }

  /**
   * `currentMapId`: the capture of the leftmost match in the pathname. It is
   * never empty and holds no `/`; `activeTabId` is set to the same value.
   */
  function CurrentMapId(pathname: string): (r: Option<string>)
    ensures r.None? <==> forall i :: !MatchAt(pathname, i)
    ensures r.Some? ==> r.value != [] && '/' !in r.value
    ensures r.Some? ==> exists i: nat :: && MatchAt(pathname, i)
                                         && (forall j: nat :: j < i ==> !MatchAt(pathname, j))
                                         && RunFrom(pathname, i + |MapsPrefix|) == r.value
  {
    match FirstMatch(pathname, 0)
    case None => None
    case Some(i) =>
      assert forall j: nat :: j < i ==> !MatchAt(pathname, j);
      Some(RunFrom(pathname, i + |MapsPrefix|))
  }

  predicate StartsWith(s: string, prefix: string) {
    |prefix| <= |s| && s[..|prefix|] == prefix
  }

  // ---------------------------------------------------------------------
  // The tab list

  function Ids(tabs: seq<Tab>): seq<string> {
    seq(|tabs|, i requires 0 <= i < |tabs| => tabs[i].id)
  }

  predicate DistinctIds(tabs: seq<Tab>) {
    forall i, j :: 0 <= i < j < |tabs| ==> tabs[i].id != tabs[j].id
  }

  /** `title || 'Untitled Map'`. */
  function TabTitle(title: string): string {
    if title != "" then title else UntitledMap
  }

  /** The add-tab updater: a map already open keeps its tab, a new one goes last, unpinned. */
  function AddTab(tabs: seq<Tab>, id: string, title: string, path: string): (r: seq<Tab>)
    ensures id in Ids(tabs) ==> r == tabs
    ensures id !in Ids(tabs) ==> r == tabs + [Tab(id, TabTitle(title), path, false)]
    ensures id in Ids(r)
  {
    if id in Ids(tabs) then tabs
    else
      var r := tabs + [Tab(id, TabTitle(title), path, false)];
      assert Ids(r)[|tabs|] == id;
      r
  }

  /**
   * The add-tab effect: it runs only when the route holds a map id, the map
   * has loaded (`currentMapTitle` is its title) and the path starts with
   * `/maps/`.
   */
  function AddCurrentTab(tabs: seq<Tab>, pathname: string, currentMapTitle: Option<string>): (r: seq<Tab>)
    ensures !StartsWith(pathname, MapsPrefix) || currentMapTitle.None? ==> r == tabs
    ensures r != tabs ==> exists id :: CurrentMapId(pathname) == Some(id) && id !in Ids(tabs) && r == tabs + [Tab(id, TabTitle(currentMapTitle.value), pathname, false)]
    ensures CurrentMapId(pathname).Some? && currentMapTitle.Some? && StartsWith(pathname, MapsPrefix) ==>
              r == AddTab(tabs, CurrentMapId(pathname).value, currentMapTitle.value, pathname)
  {
    var mapId := CurrentMapId(pathname);
    if mapId.Some? && currentMapTitle.Some? && StartsWith(pathname, MapsPrefix)
    then AddTab(tabs, mapId.value, currentMapTitle.value, pathname)
    else tabs
  }

  /** Adding tabs never gives two tabs the same id. */
  lemma AddTabKeepsIdsDistinct(tabs: seq<Tab>, id: string, title: string, path: string)
    requires DistinctIds(tabs)
    ensures DistinctIds(AddTab(tabs, id, title, path))
  {
    if id !in Ids(tabs) {
      var r := AddTab(tabs, id, title, path);
      forall i | 0 <= i < |tabs| ensures r[i].id != id {
        assert Ids(tabs)[i] == tabs[i].id;
      }
    }
  }

  /** The title-sync updater: the tab of the current map takes the map's title. */
  function SyncTitle(tabs: seq<Tab>, id: string, title: string): (r: seq<Tab>)
    ensures |r| == |tabs|
    ensures forall i :: 0 <= i < |tabs| ==>
              r[i].id == tabs[i].id && r[i].path == tabs[i].path && r[i].isPinned == tabs[i].isPinned
              && r[i].title == if tabs[i].id == id then TabTitle(title) else tabs[i].title
  {
    if tabs == [] then []
    else
      var last := tabs[|tabs| - 1];
      SyncTitle(tabs[..|tabs| - 1], id, title)
        + [if last.id == id then last.(title := TabTitle(title)) else last]
  }

  /** The first tab with the given id, as `Array.prototype.find` returns it. */
  function Find(tabs: seq<Tab>, id: string): (r: Option<Tab>)
    ensures r.None? <==> id !in Ids(tabs)
    ensures r.Some? ==> r.value in tabs && r.value.id == id
    ensures r.Some? ==> exists i :: 0 <= i < |tabs| && tabs[i] == r.value && forall j :: 0 <= j < i ==> tabs[j].id != id
  {
    if tabs == [] then None
    else if tabs[0].id == id then
      assert Ids(tabs)[0] == id;
      Some(tabs[0])
    else
      var r := Find(tabs[1..], id);
      assert Ids(tabs) == [tabs[0].id] + Ids(tabs[1..]);
      if r.Some? then
        var i :| 0 <= i < |tabs[1..]| && tabs[1..][i] == r.value && forall j :: 0 <= j < i ==> tabs[1..][j].id != id;
        assert tabs[i + 1] == r.value && forall j :: 0 <= j < i + 1 ==> tabs[j].id != id;
        r
      else r
  }

  /** `filter(t => t.id !== id)`. */
  function RemoveId(tabs: seq<Tab>, id: string): seq<Tab> {
    if tabs == [] then []
    else RemoveId(tabs[..|tabs| - 1], id) + (if tabs[|tabs| - 1].id == id then [] else [tabs[|tabs| - 1]])
  }

  /** `tab?.isPinned` for the first tab with the id. */
  predicate Pinned(tabs: seq<Tab>, tabId: string) {
    var tab := Find(tabs, tabId);
    tab.Some? && tab.value.isPinned
  }

  /** `closeTab`: the new tab list and where to navigate, if anywhere. */
  function CloseTab(tabs: seq<Tab>, tabId: string, activeTabId: Option<string>): (r: (seq<Tab>, Option<string>))
    ensures Pinned(tabs, tabId) ==> r == (tabs, None)
    ensures !Pinned(tabs, tabId) ==> r.0 == RemoveId(tabs, tabId)
    ensures activeTabId != Some(tabId) ==> r.1 == None
    ensures activeTabId == Some(tabId) && !Pinned(tabs, tabId) ==>
              r.1 == Some(if r.0 != [] then r.0[|r.0| - 1].path else MapsRoute)
  {
    if Pinned(tabs, tabId) then (tabs, None)
    else
      var newTabs := RemoveId(tabs, tabId);
      var target :=
        if activeTabId == Some(tabId) then
          (if |newTabs| > 0 then Some(newTabs[|newTabs| - 1].path) else Some(MapsRoute))
        else None;
      (newTabs, target)
  }

  /** What the bar renders: nothing with at most one tab, otherwise every tab in order. */
  function Rendered(tabs: seq<Tab>): (r: Option<seq<Tab>>)
    ensures r.None? <==> |tabs| <= 1
    ensures r.Some? ==> r.value == tabs
  {
    if |tabs| <= 1 then None else Some(tabs)
  }

  lemma {:induction false} RemoveIdAppend(a: seq<Tab>, b: seq<Tab>, id: string)
    ensures RemoveId(a + b, id) == RemoveId(a, id) + RemoveId(b, id)
    decreases |b|
  {
    if b == [] {
      assert a + b == a;
    } else {
      var b' := b[..|b| - 1];
      assert a + b == (a + b') + [b[|b| - 1]];
      RemoveIdAppend(a, b', id);
    }
  }

  lemma {:induction false} RemoveIdAbsent(tabs: seq<Tab>, id: string)
    requires forall t :: t in tabs ==> t.id != id
    ensures RemoveId(tabs, id) == tabs
  {
    if tabs != [] {
      var front := tabs[..|tabs| - 1];
      assert tabs == front + [tabs[|tabs| - 1]];
      RemoveIdAbsent(front, id);
    }
  }

  lemma {:induction false} RemoveIdMembers(tabs: seq<Tab>, id: string)
    ensures forall t :: t in RemoveId(tabs, id) <==> t in tabs && t.id != id
  {
    if tabs != [] {
      var front := tabs[..|tabs| - 1];
      assert tabs == front + [tabs[|tabs| - 1]];
      RemoveIdMembers(front, id);
    }
  }

  /**
   * Closing an unpinned tab removes exactly the tabs with that id, and
   * closing commutes with splitting the list, so the other tabs keep their
   * order.
   */
  lemma CloseRemovesId(tabs: seq<Tab>, tabId: string, activeTabId: Option<string>)
    requires !Pinned(tabs, tabId)
    ensures forall t :: t in CloseTab(tabs, tabId, activeTabId).0 <==> t in tabs && t.id != tabId
    ensures forall k :: 0 <= k <= |tabs| ==>
              CloseTab(tabs, tabId, activeTabId).0 == RemoveId(tabs[..k], tabId) + RemoveId(tabs[k..], tabId)
  {
    RemoveIdMembers(tabs, tabId);
    forall k | 0 <= k <= |tabs|
      ensures RemoveId(tabs, tabId) == RemoveId(tabs[..k], tabId) + RemoveId(tabs[k..], tabId)
    {
      assert tabs == tabs[..k] + tabs[k..];
      RemoveIdAppend(tabs[..k], tabs[k..], tabId);
    }
  }

  lemma SplitAt(tabs: seq<Tab>, i: int)
    requires 0 <= i < |tabs|
    ensures tabs == (tabs[..i] + [tabs[i]]) + tabs[i + 1..]
  {
  }

  /** With distinct ids, no tab other than the one at `i` has its id. */
  lemma OthersHaveOtherIds(tabs: seq<Tab>, i: int)
    requires DistinctIds(tabs) && 0 <= i < |tabs|
    ensures forall t :: t in tabs[..i] ==> t.id != tabs[i].id
    ensures forall t :: t in tabs[i + 1..] ==> t.id != tabs[i].id
  {
    forall t | t in tabs[..i] ensures t.id != tabs[i].id {
      var j :| 0 <= j < i && tabs[..i][j] == t;
      assert t == tabs[j];
    }
    forall t | t in tabs[i + 1..] ensures t.id != tabs[i].id {
      var j :| 0 <= j < |tabs| - i - 1 && tabs[i + 1..][j] == t;
      assert t == tabs[i + 1 + j];
    }
  }

  lemma RemoveAt(tabs: seq<Tab>, i: int)
    requires 0 <= i < |tabs|
    requires forall t :: t in tabs[..i] ==> t.id != tabs[i].id
    requires forall t :: t in tabs[i + 1..] ==> t.id != tabs[i].id
    ensures RemoveId(tabs, tabs[i].id) == tabs[..i] + tabs[i + 1..]
  {
    var x, before, after := tabs[i], tabs[..i], tabs[i + 1..];
    RemoveIdAbsent(before, x.id);
    RemoveIdAbsent(after, x.id);
    calc {
      RemoveId(tabs, x.id);
      { SplitAt(tabs, i); }
      RemoveId((before + [x]) + after, x.id);
      { RemoveIdAppend(before + [x], after, x.id); }
      RemoveId(before + [x], x.id) + RemoveId(after, x.id);
      { RemoveIdAppend(before, [x], x.id); }
      RemoveId(before, x.id) + RemoveId([x], x.id) + RemoveId(after, x.id);
      { assert RemoveId([x], x.id) == []; }
      before + after;
    }
  }

  lemma FindAt(tabs: seq<Tab>, i: int)
    requires DistinctIds(tabs) && 0 <= i < |tabs|
    ensures Find(tabs, tabs[i].id) == Some(tabs[i])
  {
    var f := Find(tabs, tabs[i].id);
    assert Ids(tabs)[i] == tabs[i].id;
    var k :| 0 <= k < |tabs| && tabs[k] == f.value;
  }

  /** With distinct ids, closing the unpinned tab at `i` removes exactly that tab. */
  lemma CloseUnpinned(tabs: seq<Tab>, tabId: string, activeTabId: Option<string>, i: int)
    requires DistinctIds(tabs) && 0 <= i < |tabs| && tabs[i].id == tabId && !tabs[i].isPinned
    ensures CloseTab(tabs, tabId, activeTabId).0 == tabs[..i] + tabs[i + 1..]
    ensures |CloseTab(tabs, tabId, activeTabId).0| == |tabs| - 1
  {
    FindAt(tabs, i);
    OthersHaveOtherIds(tabs, i);
    RemoveAt(tabs, i);
  }

  /** Closing an unpinned tab when there are two hides the bar. */
  lemma CloseHidesBar(tabs: seq<Tab>, tabId: string, activeTabId: Option<string>, i: int)
    requires DistinctIds(tabs) && |tabs| == 2 && 0 <= i < 2 && tabs[i].id == tabId && !tabs[i].isPinned
    ensures Rendered(tabs).Some?
    ensures Rendered(CloseTab(tabs, tabId, activeTabId).0).None?
  {
    CloseUnpinned(tabs, tabId, activeTabId, i);
  }
}
