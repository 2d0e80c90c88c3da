# Mind-map editor core, modelled in Dafny

This project models the sequential logic of the web client of a mind-mapping
application and proves properties of it. The logic covered:

- **Document store.** It holds the current map, the selected node id, and a linear undo/redo
  history of up to 50 whole-map snapshots with a cursor (`map_store.dfy`).
- **Folder trees.** One builds the sidebar hierarchy from the flat folder and map rows. The
  other builds the sorted item tree of the folder view (`folders.dfy`, with the stable sort
  in `sorting.dfy`).
- **Exporters.** XML escaping, the OPML `<outline>` serialiser, the Markdown serialiser,
  and the download file names (`export.dfy`).
- **Preview cache.** A keyed cache of rendered thumbnails, with expiry, insertion on a miss,
  invalidation, and a cleanup that evicts the oldest entries above 100 (`preview_cache.dfy`).
- **Keyboard shortcuts.** A key-down event chooses at most one editor action
  (`keyboard.dfy`).
- **Tab bar.** The tab-list updaters, the map id taken from the route, and the rule that
  hides the bar (`tab_bar.dfy`).
- **Thumbnail.** Which nodes the SVG thumbnail shows and at which depth, how they are
  joined, how labels are cut, and the background colours (`generate_preview.dfy`).

The map document itself is in `mind_map.dfy`. Optional string fields are the empty string
when absent, because every consumer tests them for truthiness. `Option` is in
`wrappers.dfy`.

Where the source changes state step by step, the model does too:
- The store and the preview cache are classes whose methods modify their fields.
- The folder builders, both serialisers, the position builder and the connection builder
  are methods with the source's loops.
- Each method is proved equal to a specification function.
- The properties are proved about those functions.

The key-down handler, the tab updaters, the escaping and the label rules are functions.

## Model

| member | source | states |
|---|---|---|
| MapStore.Commit | apps/web/src/stores/mapStore.ts:67-81 | below the cap the redo tail is dropped, the snapshot appended and the cursor put on it; when the result would hold 51 snapshots, history and cursor come back unchanged; the cursor stays in range and the length at most 50 |
| MapStore.CommitIntended | apps/web/src/stores/mapStore.ts:72-75 | the corrected commit: the oldest snapshot is evicted at the cap, the cursor is on the new snapshot and the previous current snapshot sits just before it |
| MapStore.Store.constructor | apps/web/src/stores/mapStore.ts:46-49 | the initial state: no map, no selection, empty history, cursor -1, neither undo nor redo possible |
| MapStore.Store.AddToHistory | apps/web/src/stores/mapStore.ts:67-81 | the cursor bounds and the length cap are kept, and history and cursor become `Commit` of the old ones |
| MapStore.Store.SetMap | apps/web/src/stores/mapStore.ts:51-54 | the map is replaced even when the commit overflows; history per `Commit`; below the cap the map is the snapshot under the cursor and there is nothing to redo |
| MapStore.Store.UpdateMap | apps/web/src/stores/mapStore.ts:56-63 | with no map nothing changes; otherwise the updater's result becomes the map and is committed, and the selection is kept |
| MapStore.Store.Select | apps/web/src/stores/mapStore.ts:65 | only the selected id changes |
| MapStore.Store.Undo | apps/web/src/stores/mapStore.ts:83-92 | when the cursor is above 0 it moves back one and the map becomes that snapshot, after which redo is possible; otherwise nothing changes |
| MapStore.Store.Redo | apps/web/src/stores/mapStore.ts:94-103 | when the cursor is below the last index it moves forward one and the map becomes that snapshot; otherwise nothing changes |
| MapStore.Store.CanUndo | apps/web/src/stores/mapStore.ts:105 | in a valid state, undo is possible exactly when at least two snapshots lie up to and including the cursor |
| MapStore.Store.CanRedo | apps/web/src/stores/mapStore.ts:106 | in a valid state, redo is possible exactly when the redo tail after the cursor is not empty |
| MapStore.UndoRedoRoundTrip | apps/web/src/stores/mapStore.ts:51-103 | load A, apply f, undo: the map is A with nothing to undo and f(A) to redo; redo gives f(A) back |
| MapStore.EditAfterUndoDiscardsRedo | apps/web/src/stores/mapStore.ts:67-71 | an edit after an undo drops the undone snapshot: history is [A, g(A)] and nothing can be redone |
| MapStore.UpdateBeforeLoad | apps/web/src/stores/mapStore.ts:56-58 | an update before any load records nothing and applies nothing |
| MapStore.SelectKeepsHistory | apps/web/src/stores/mapStore.ts:65 | selecting between a load and an edit leaves the history and cursor as without it |
| MapStore.UndoAfterOverflow | apps/web/src/stores/mapStore.ts:73-80 | after 50 loads a 51st load is not recorded, and the next undo lands on the 49th map instead of the 50th |
| Folders.InitFolderMap | apps/web/src/api/folders.ts:73-76 | one entry per folder id, holding the last row with that id and empty arrays |
| Folders.LinkFolder | apps/web/src/api/folders.ts:80-88 | one folder is pushed into its existing parent's children or, with a falsy parent id, into the root list |
| Folders.LinkFolders | apps/web/src/api/folders.ts:78-89 | the root list is the ids of the parentless folders in input order; every folder's children are the ids of the rows naming it as parent, in input order |
| Folders.AttachMap | apps/web/src/api/folders.ts:93-98 | one map is pushed into the map list of the folder its truthy folder id names, if that folder exists |
| Folders.AttachMaps | apps/web/src/api/folders.ts:91-99 | every folder's map list is the maps naming it, in input order; the key set is unchanged |
| Folders.BuildHierarchy | apps/web/src/api/folders.ts:69-101 | the whole block: root list, per-folder row, children and maps as above, and both input lists returned unchanged |
| Folders.RootFoldersAreParentless | apps/web/src/api/folders.ts:79-89 | an id is in the root list exactly when some row with that id has a falsy parent id |
| Folders.ChildUnderExistingParent | apps/web/src/api/folders.ts:81-85 | a folder whose parent id names an existing folder is among that folder's children |
| Folders.OrphanFolderAppearsNowhere | apps/web/src/api/folders.ts:81-85 | with distinct ids, a folder whose parent id names no folder is neither in the root list nor in any folder's children |
| Folders.OnlyRowWithId | apps/web/src/api/folders.ts:74-76 | with distinct ids, a row is the only one carrying its id |
| Folders.MapPlacement | apps/web/src/api/folders.ts:92-99 | a map is in folder k's map list exactly when its folder id is k and k is truthy |
| Folders.CreateFolderItems | apps/web/src/api/folders.ts:280-294 | one folder item per id, copied from the last row with that id, with an empty children list |
| Folders.LastWithIdDistinct | apps/web/src/api/folders.ts:293 | with distinct ids, the row left under an id is that folder's own row |
| Folders.LinkFolderItem | apps/web/src/api/folders.ts:298-306 | one folder item goes to its existing parent's children or, with a falsy parent id, to the root list |
| Folders.LinkFolderItems | apps/web/src/api/folders.ts:296-307 | the root list is the parentless folders' items in input order; each folder's children are its subfolders' items in input order |
| Folders.AttachMapItem | apps/web/src/api/folders.ts:311-326 | one map item, whose sort order is the row's or 0, goes to its folder's children or, with a falsy folder id, to the root list |
| Folders.AttachMapItems | apps/web/src/api/folders.ts:309-327 | the root list gains the folderless maps and each folder's children gain its maps, in input order |
| Folders.SortChildren | apps/web/src/api/folders.ts:329-346 | the root list and the children of every folder are replaced by their stable sort by (kind, sort order) |
| Folders.SortedItems | apps/web/src/api/folders.ts:330-337 | a sorted list has every folder before every map, each kind in non-decreasing sort order; it is a permutation and keeps ties in input order |
| Folders.BuildFolderTree | apps/web/src/api/folders.ts:276-348 | with distinct ids: the root list and every children list are the sorted placements, folders first and ordered, and permutations of the unsorted lists |
| Folders.RootListMembers | apps/web/src/api/folders.ts:297-327 | an item is in the root list exactly when it comes from a parentless folder or a folderless map |
| Folders.ChildListMembers | apps/web/src/api/folders.ts:297-327 | an item is in folder k's children exactly when k is truthy and the item comes from a subfolder or a map of k |
| Folders.ItemInOneList | apps/web/src/api/folders.ts:297-327 | an item in folder k's children has parent id k, so it is in no other list and not in the root list |
| Folders.MapInUnknownFolderIsDropped | apps/web/src/api/folders.ts:319-323 | a map whose truthy folder id names no folder is in neither the root list nor any children list |
| Sorting.SortByCorrect | apps/web/src/api/folders.ts:331-337 | the sort used for the folder view and the cache is sorted by its key, a permutation, length-preserving and stable |
| Export.EscapeXMLIsPerChar | apps/web/src/utils/export.ts:48-55 | because `&` is replaced first, the five replacements equal escaping each character once: no entity is escaped twice |
| Export.EscapeXMLChar | apps/web/src/utils/export.ts:48-55 | a single character is escaped to its entity or left as it is |
| Export.EscapeXMLEscaped | apps/web/src/utils/export.ts:48-55 | the output holds no raw `<`, `>`, `"` or `'`, and every `&` begins one of the five predefined entities |
| Export.UnescapeEscapeXML | apps/web/src/utils/export.ts:48-55 | decoding the five entities gives back the original string |
| Export.DisplayText | apps/web/src/utils/export.ts:31 | the topic, else the text, else "Untitled"; never empty |
| Export.ConvertNodeToOPML | apps/web/src/utils/export.ts:29-46 | the method's output is the node's outline: one self-closing tag for a leaf; otherwise open tag, each child's outline and a newline, then the close tag |
| Export.OpmlDocument | apps/web/src/utils/export.ts:57-67 | the document starts with the XML declaration and the head up to `<title>`; the title slot is escaped, runs up to the next `<` and decodes back to the title or "Mind Map"; the document ends with the root's outline and the closing tags |
| Export.AttrsCount | apps/web/src/utils/export.ts:32-39 | the attributes hold two quotes for the text plus two each for notes and url when present, and no `<`, so values cannot break the tag |
| Export.OutlineTags | apps/web/src/utils/export.ts:29-46 | the `<` characters of a node's outline are one per node plus one per node with children: one `<outline` per tree node |
| Export.ConvertNodeToMarkdown | apps/web/src/utils/export.ts:128-151 | the method's output is the node's Markdown block: heading line, then the notes and link lines when present, then a blank line and the children in order when there are children |
| Export.AppendChildrenMarkdown | apps/web/src/utils/export.ts:143-148 | the loop appends the children's blocks in order |
| Export.HeadingPrefixIsAtx | apps/web/src/utils/export.ts:130 | the heading marker is min(level + 1, 6) `#` characters (one at the root) and a space |
| Export.MarkdownEndsWithNewline | apps/web/src/utils/export.ts:128-151 | every block ends with a newline, so each heading starts a line of its own |
| Export.DownloadName | apps/web/src/utils/export.ts:11 | title, dot and extension, with "mindmap" for an empty title (also lines 74 and 160) |
| Export.DownloadNameParts | apps/web/src/utils/export.ts:74 | every download name is a non-empty stem, a dot and the extension, and the stem is the title or "mindmap" |
| Export.ImageName | apps/web/src/utils/export.ts:106 | the given name, or the default ("mindmap.png", and "mindmap.svg" at line 120) when none is given |
| PreviewCaching.LookupSpec | apps/web/src/utils/previewCache.ts:18 | a lookup misses exactly when the key is absent, and a hit is an entry of the cache |
| PreviewCaching.SetEntryLookup | apps/web/src/utils/previewCache.ts:35-39 | after a set the key maps to the new preview, every other key is unchanged and keys stay distinct |
| PreviewCaching.InvalidateLookup | apps/web/src/utils/previewCache.ts:130-132 | deleting a key removes it and leaves every other key's preview |
| PreviewCaching.RemoveExpiredMembers | apps/web/src/utils/previewCache.ts:148-153 | the first cleanup loop keeps exactly the entries younger than 24 hours |
| PreviewCaching.WithoutLength | apps/web/src/utils/previewCache.ts:160-163 | deleting n distinct present keys removes exactly n entries |
| PreviewCaching.OldestAreOldest | apps/web/src/utils/previewCache.ts:157-162 | no evicted entry is newer than a kept one |
| PreviewCaching.EvictOldestExact | apps/web/src/utils/previewCache.ts:155-164 | eviction removes exactly size - 100 entries, the oldest by timestamp; every other entry survives and 100 remain |
| PreviewCaching.CleanupBounds | apps/web/src/utils/previewCache.ts:144-165 | after cleanup no entry is 24 hours old or more and at most 100 remain |
| PreviewCaching.CleanupUnderLimit | apps/web/src/utils/previewCache.ts:144-165 | when the live entries fit, cleanup keeps exactly the unexpired ones |
| PreviewCaching.PreviewCache.constructor | apps/web/src/utils/previewCache.ts:10 | the cache starts empty |
| PreviewCaching.PreviewCache.GetPreview | apps/web/src/utils/previewCache.ts:17-49 | a servable entry is returned with the cache untouched; on a miss the generated preview is stored under the earlier clock reading, cleanup runs and the preview is returned; a failed generation returns the fallback and leaves the cache as it was |
| PreviewCaching.PreviewCache.GeneratePreview | apps/web/src/utils/previewCache.ts:118-125 | the generated preview or the fallback; the cache is not in its frame |
| PreviewCaching.PreviewCache.Invalidate | apps/web/src/utils/previewCache.ts:130-132 | only the entries with that key are removed |
| PreviewCaching.PreviewCache.Clear | apps/web/src/utils/previewCache.ts:137-139 | the cache becomes empty |
| PreviewCaching.PreviewCache.Cleanup | apps/web/src/utils/previewCache.ts:144-165 | the cache becomes the expiry sweep followed by the eviction |
| PreviewCaching.PreviewCache.DropExpired | apps/web/src/utils/previewCache.ts:145-153 | the deletion loop over the entries leaves exactly the expiry sweep |
| PreviewCaching.PreviewCache.DropOldest | apps/web/src/utils/previewCache.ts:155-164 | the deletion loop over the sorted entries leaves exactly the eviction |
| Keyboard.HandleKeyDown | apps/web/src/components/keyboard/KeyboardHandler.tsx:11-65 | each action is characterised both ways: undo on Ctrl/Cmd+z without Shift when undo is possible, redo on Ctrl/Cmd+Shift+z or Ctrl/Cmd+y when redo is possible, fit on f without Ctrl/Cmd or Ctrl/Cmd+0, center on c without Ctrl/Cmd, zoom in on Ctrl/Cmd with + or =, zoom out on Ctrl/Cmd+-; the default is prevented exactly when an action is chosen |
| TabBar.FirstMatch | apps/web/src/components/TabBar.tsx:25 | the leftmost position at or after the start where `/maps/` is followed by a character other than `/` |
| TabBar.RunFrom | apps/web/src/components/TabBar.tsx:25 | the longest run without `/` from a position |
| TabBar.CurrentMapId | apps/web/src/components/TabBar.tsx:25 | no id exactly when the path never matches; otherwise the non-empty run without `/` following the leftmost match |
| TabBar.AddTab | apps/web/src/components/TabBar.tsx:31-45 | a present id leaves the list unchanged; otherwise one unpinned tab titled with the title or "Untitled Map" is appended |
| TabBar.AddCurrentTab | apps/web/src/components/TabBar.tsx:29-47 | nothing changes off `/maps/` or before the map loads; when the route holds a map id, the map has loaded and the path starts with `/maps/`, the result is `AddTab` of that id, title and path; any change appends the current map's tab, whose id was absent |
| TabBar.AddTabKeepsIdsDistinct | apps/web/src/components/TabBar.tsx:32-35 | adding never creates a duplicate id |
| TabBar.SyncTitle | apps/web/src/components/TabBar.tsx:59-69 | only the title of the current map's tab changes; length, order, ids, paths and pins are kept |
| TabBar.Find | apps/web/src/components/TabBar.tsx:73 | finds a tab exactly when one has the id, and the tab found is the first with that id |
| TabBar.CloseTab | apps/web/src/components/TabBar.tsx:71-89 | a pinned tab is kept and nothing navigates; otherwise the id's tabs are removed; closing the active tab navigates to the last remaining tab's path or "/maps"; closing another navigates nowhere |
| TabBar.RemoveIdMembers | apps/web/src/components/TabBar.tsx:76 | the filter keeps exactly the tabs with another id |
| TabBar.CloseRemovesId | apps/web/src/components/TabBar.tsx:76 | closing an unpinned tab keeps exactly the other tabs, and removal commutes with splitting the list |
| TabBar.CloseUnpinned | apps/web/src/components/TabBar.tsx:73-76 | with distinct ids, closing the unpinned tab at i removes exactly that position |
| TabBar.Rendered | apps/web/src/components/TabBar.tsx:97-99 | nothing is rendered exactly when there is at most one tab |
| TabBar.CloseHidesBar | apps/web/src/components/TabBar.tsx:71-99 | closing one unpinned tab of two hides the bar |
| PreviewLayout.Take | apps/web/src/utils/generatePreview.ts:83 | `slice(0, n)`: a prefix of length min(n, size) |
| PreviewLayout.CalculateNodePositions | apps/web/src/utils/generatePreview.ts:64-121 | the nested loops build exactly the position list |
| PreviewLayout.PositionsShape | apps/web/src/utils/generatePreview.ts:73-97 | the root comes first at depth 0, every other entry is at depth 1 or 2, and the depth-1 entries are the first min(6, n) children in order |
| PreviewLayout.PositionsGrandchildren | apps/web/src/utils/generatePreview.ts:99-116 | each depth-2 entry is one of the first two children of the depth-1 entry just before it, added only while the list, counting that depth-1 entry, holds fewer than 12 entries; a depth-1 entry that has children and meets that bound is followed by its first child |
| PreviewLayout.PositionsAtMost15 | apps/web/src/utils/generatePreview.ts:82-118 | the list never exceeds 15 entries |
| PreviewLayout.FindLevel | apps/web/src/utils/generatePreview.ts:124 | an entry at the depth with no entry at that depth before it, or none exactly when no entry has that depth |
| PreviewLayout.FindParent | apps/web/src/utils/generatePreview.ts:137-140 | a depth-1 entry whose node has a child with the id and no such entry before it, or none exactly when there is no such entry |
| PreviewLayout.GenerateConnections | apps/web/src/utils/generatePreview.ts:123-148 | the loop builds exactly the connection list |
| PreviewLayout.ConnectionsRule | apps/web/src/utils/generatePreview.ts:124-145 | without a root nothing is drawn; otherwise every depth-1 entry gets one curve from the root, and a depth-2 entry gets a line exactly when some depth-1 entry has a child with its id |
| PreviewLayout.EveryGrandchildLinked | apps/web/src/utils/generatePreview.ts:135-143 | in the thumbnail every depth-2 entry is joined to a parent |
| PreviewLayout.Truncate | apps/web/src/utils/generatePreview.ts:155 | short text is kept; longer text becomes its first `max` characters and "..." |
| PreviewLayout.BoxLabel | apps/web/src/utils/generatePreview.ts:154-155 | "Node" for an empty topic, the topic up to 12 characters, never empty and at most 15 characters |
| PreviewLayout.TextLabel | apps/web/src/utils/generatePreview.ts:191-194 | the label is the topic, or "Node" when it is empty, cut to 12, 8 or 6 characters at depth 0, 1 or 2, with "..." appended only when it was cut |
| PreviewLayout.GetThemeColors | apps/web/src/utils/generatePreview.ts:206-215 | "semantic" and "rainbow" give their colour pairs; anything else gives the default pair |

## Left out

- Network and backend access (the queries that fetch folder and map rows, authentication): the rows are parameters.
- Rendering: the third-party widget that renders a map for a preview, the screenshot library, the timer and the DOM container are all left out. The generator's outcome is a parameter of `GetPreview` (`None` when it throws), and so is the fallback data URL, whose SVG text is base64-encoded by a browser function.
- PreviewCaching.PreviewCache.GetPreview: one call at a time. Another call interleaving at the `await` is not modelled.
- PreviewCaching.PreviewCache.GetPreview: the two clock readings are parameters (`now` before generating, `cleanupNow` inside `cleanup`).
- The thumbnail geometry is left out: coordinates, radii, clamping and box sizes are floating point. Positions are (node, depth) pairs and connections are (from, to) index pairs. The SVG markup strings and `svgToDataUrl` are left out.
- The export side effects are left out: Blob, object URLs, anchor clicks, `JSON.stringify`, and the PNG/SVG exporter calls.
- Export.OpmlDocument: the dates in the OPML header are a parameter, and nothing is stated about the date elements between the title and the body.
- Strings are sequences of characters. JavaScript's `length` and `substring` count UTF-16 code units, so a character outside the Basic Multilingual Plane counts once here and twice there.
- Folders.SortChildren: it sorts every folder's children list. The source sorts only the lists reachable from the root list, so an orphan's subtree stays unsorted there. The lists that are reachable agree.
- Folders.BuildFolderTree: requires distinct folder ids. With a duplicate id, the source can make one object its own descendant, and then `sortChildren` recurses without bound until the stack overflows and `buildFolderTree` throws a RangeError.
- TabBar.CloseTab: the active tab id is a parameter. In the component it is `CurrentMapId` of the route (TabBar.tsx:50-56).
- TabBar.CloseTab: the navigation is returned as a target rather than performed.
- TabBar.CurrentMapId: the regular expression is modelled by its leftmost-match meaning only.
- Folders.SortedItems: sort orders are integers. The source's `sort_order` is a JavaScript number, which can be fractional or NaN. A NaN difference in the comparator leaves the order implementation-defined.
- MapStore.Store.UpdateMap: the updater is a total function on maps. An updater that throws is not modelled.
- The store's devtools and subscription middleware are left out.
- The folder and map rows carry only the fields the builders read. Timestamps, owner and description are left out.

## Findings

| source | as written | input that shows it | evidently intended | confidence | as-written member | corrected member |
|---|---|---|---|---|---|---|
| apps/web/src/stores/mapStore.ts:73-80 | when the truncated history plus the new snapshot has 51 entries, `shift()` runs on a local copy and the store is not updated. The map is already replaced, but the snapshot is never recorded and the cursor stays on the previous one | load 50 maps, then a 51st, then undo: the undo shows the 49th map, not the 50th that was current before the 51st | evict the oldest snapshot, record the new one and point the cursor at it, so that undo returns to the 50th map | not executed | MapStore.UndoAfterOverflow | MapStore.CommitIntended |
