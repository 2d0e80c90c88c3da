/**
 * The editor's document store: the current map, the selected node id, and a
 * linear undo/redo history of whole-map snapshots capped at 50 entries, with a
 * cursor into it (-1 while the history is empty).
 */
module MapStore {
  import opened Wrappers
  import opened MindMaps

  const MaxHistory: nat := 50

  /**
   * The history and cursor after committing snapshot `m`, as the store does
   * it: drop the redo tail, append `m`, and keep the result only when it has
   * at most 50 entries. When it has 51, the oldest is shifted off a local copy
   * that is then discarded, so history and cursor stay as they were.
   */
  function Commit(history: seq<MindMap>, index: int, m: MindMap): (r: (seq<MindMap>, int))
    requires -1 <= index < |history| <= MaxHistory
    ensures -1 <= r.1 < |r.0| <= MaxHistory
    ensures index + 1 < MaxHistory ==>
              r.0 == history[..index + 1] + [m] && r.1 == index + 1 && r.0[r.1] == m
    ensures index + 1 == MaxHistory ==> r == (history, index)
  {
    var appended := history[..index + 1] + [m];
    if |appended| > MaxHistory then (history, index) else (appended, |appended| - 1)
  }

  /**
   * The commit the size cap evidently intends: drop the redo tail, append
   * `m`, evict the oldest entry when there are 51, and point the cursor at `m`.
   */
  function CommitIntended(history: seq<MindMap>, index: int, m: MindMap): (r: (seq<MindMap>, int))
    requires -1 <= index < |history| <= MaxHistory
    ensures 1 <= |r.0| <= MaxHistory && r.1 == |r.0| - 1 && r.0[r.1] == m
    ensures index >= 0 ==> r.1 >= 1 && r.0[r.1 - 1] == history[index]
    ensures index + 1 < MaxHistory ==> r.0 == history[..index + 1] + [m]
    ensures index + 1 == MaxHistory ==> r.0 == history[1..] + [m]
  {
    var appended := history[..index + 1] + [m];
    if |appended| > MaxHistory then (appended[1..], |appended| - 2) else (appended, |appended| - 1)
  }

  class Store {
    var mindMap: Option<MindMap>
    var selectedId: Option<string>
    var history: seq<MindMap>
    var historyIndex: int

    /** The cursor bounds and the length cap, kept by every operation. */
    ghost predicate Valid()
      reads this
    {
      && |history| <= MaxHistory
      && -1 <= historyIndex < |history|
      && (historyIndex == -1 <==> history == [])
    }

    /** The current mindMap is the snapshot under the cursor. */
    ghost predicate Synced()
      reads this
      requires Valid()
    {
      historyIndex >= 0 ==> mindMap == Some(history[historyIndex])
    }

    constructor ()
      ensures Valid() && Synced()
      ensures mindMap == None && selectedId == None && history == [] && historyIndex == -1
      ensures !CanUndo() && !CanRedo()
    {
      mindMap, selectedId := None, None;
      history, historyIndex := [], -1;
    }

    /** Undo is possible exactly when the snapshots up to the cursor are at least two. */
    function CanUndo(): (r: bool)
      reads this
      ensures Valid() ==> (r <==> |history[..historyIndex + 1]| >= 2)
    {
      historyIndex > 0
    }

    /** Redo is possible exactly when the redo tail after the cursor is not empty. */
    function CanRedo(): (r: bool)
      reads this
      ensures Valid() ==> (r <==> history[historyIndex + 1..] != [])
    {
      historyIndex < |history| - 1
    }

    method AddToHistory(m: MindMap)
      requires Valid()
      modifies this`history, this`historyIndex
      ensures Valid()
      ensures (history, historyIndex) == Commit(old(history), old(historyIndex), m)
    {
      var newHistory := history[..historyIndex + 1];
      newHistory := newHistory + [m];
      if |newHistory| > MaxHistory {
        newHistory := newHistory[1..];
      } else {
        history, historyIndex := newHistory, |newHistory| - 1;
      }
    }

    method SetMap(m: MindMap)
      requires Valid()
      modifies this
      ensures Valid()
      ensures mindMap == Some(m) && selectedId == old(selectedId)
      ensures (history, historyIndex) == Commit(old(history), old(historyIndex), m)
      ensures old(historyIndex) + 1 < MaxHistory ==> Synced() && !CanRedo()
    {
      mindMap := Some(m);
      AddToHistory(m);
    }

    method UpdateMap(updater: MindMap -> MindMap)
      requires Valid()
      modifies this
      ensures Valid()
      ensures old(mindMap) == None ==> unchanged(this)
      ensures old(mindMap).Some? ==>
                && mindMap == Some(updater(old(mindMap).value))
                && selectedId == old(selectedId)
                && (history, historyIndex) == Commit(old(history), old(historyIndex), updater(old(mindMap).value))
      ensures old(mindMap).Some? && old(historyIndex) + 1 < MaxHistory ==> Synced() && !CanRedo()
    {
      var current := mindMap;
      if current == None {
        return;
      }
      var newMap := updater(current.value);
      mindMap := Some(newMap);
      AddToHistory(newMap);
    }

    method Select(id: Option<string>)
      requires Valid()
      modifies this`selectedId
      ensures Valid()
      ensures selectedId == id
    {
      selectedId := id;
    }

    method Undo()
      requires Valid()
      modifies this`mindMap, this`historyIndex
      ensures Valid()
      ensures old(CanUndo()) ==>
                historyIndex == old(historyIndex) - 1 && mindMap == Some(history[historyIndex])
      ensures !old(CanUndo()) ==> mindMap == old(mindMap) && historyIndex == old(historyIndex)
      ensures old(CanUndo()) ==> Synced() && CanRedo()
    {
      if historyIndex > 0 {
        var newIndex := historyIndex - 1;
        mindMap, historyIndex := Some(history[newIndex]), newIndex;
      }
    }

    method Redo()
      requires Valid()
      modifies this`mindMap, this`historyIndex
      ensures Valid()
      ensures old(CanRedo()) ==>
                historyIndex == old(historyIndex) + 1 && mindMap == Some(history[historyIndex])
      ensures !old(CanRedo()) ==> mindMap == old(mindMap) && historyIndex == old(historyIndex)
      ensures old(CanRedo()) ==> Synced() && CanUndo()
    {
      if historyIndex < |history| - 1 {
        var newIndex := historyIndex + 1;
        mindMap, historyIndex := Some(history[newIndex]), newIndex;
      }
    }
  }

  /**
   * Loading a map, editing it, undoing and redoing: undo restores the loaded
   * map with nothing left to undo and the edit available to redo, and redo
   * brings the edit back.
   */
  method UndoRedoRoundTrip(a: MindMap, f: MindMap -> MindMap)
    returns (afterEdit: Option<MindMap>, afterUndo: Option<MindMap>, undoable: bool, redoable: bool,
             afterRedo: Option<MindMap>)
    ensures afterEdit == Some(f(a)) && afterUndo == Some(a) && afterRedo == Some(f(a))
    ensures !undoable && redoable
  {
    var s := new Store();
    s.SetMap(a);
    s.UpdateMap(f);
    afterEdit := s.mindMap;
    s.Undo();
    afterUndo, undoable, redoable := s.mindMap, s.CanUndo(), s.CanRedo();
    s.Redo();
    afterRedo := s.mindMap;
  }

  /** An edit made after an undo discards the redo branch. */
  method EditAfterUndoDiscardsRedo(a: MindMap, f: MindMap -> MindMap, g: MindMap -> MindMap)
    returns (redoable: bool, history: seq<MindMap>, current: Option<MindMap>)
    ensures !redoable
    ensures history == [a, g(a)] && current == Some(g(a))
  {
    var s := new Store();
    s.SetMap(a);
    s.UpdateMap(f);
    s.Undo();
    s.UpdateMap(g);
    redoable, history, current := s.CanRedo(), s.history, s.mindMap;
  }

  /** Editing before any map is loaded records nothing. */
  method UpdateBeforeLoad(f: MindMap -> MindMap)
    returns (current: Option<MindMap>, history: seq<MindMap>, index: int)
    ensures current == None && history == [] && index == -1
  {
    var s := new Store();
    s.UpdateMap(f);
    current, history, index := s.mindMap, s.history, s.historyIndex;
  }

  /** Selection is independent of the history. */
  method SelectKeepsHistory(a: MindMap, f: MindMap -> MindMap, id: string)
    returns (selected: Option<string>, history: seq<MindMap>, index: int, current: Option<MindMap>)
    ensures selected == Some(id) && history == [a, f(a)] && index == 1 && current == Some(f(a))
  {
    var s := new Store();
    s.SetMap(a);
    s.Select(Some(id));
    s.UpdateMap(f);
    selected, history, index, current := s.selectedId, s.history, s.historyIndex, s.mindMap;
  }

  /** A map whose root topic is `k` characters long; distinct for distinct `k`. */
  function Snapshot(k: nat): (m: MindMap)
    ensures |m.root.topic| == k
  {
    MindMap("m", "", Node("root", seq(k, _ => 'x'), "", "", "", []), "")
  }

  /**
   * Loads 50 maps, then a 51st: the 51st becomes current but is not recorded,
   * and the next undo lands on the 49th map instead of the 50th, the map
   * that was current before the 51st.
   */
  method UndoAfterOverflow() returns (previous: MindMap, afterUndo: Option<MindMap>, history: seq<MindMap>)
    ensures |history| == MaxHistory && history[MaxHistory - 1] == previous
    ensures afterUndo == Some(Snapshot(48)) && afterUndo != Some(previous)
  {
    var s := new Store();
    var k := 0;
    while k < MaxHistory
      invariant 0 <= k <= MaxHistory
      invariant s.Valid()
      invariant |s.history| == k && s.historyIndex == k - 1
      invariant forall j :: 0 <= j < k ==> s.history[j] == Snapshot(j)
      invariant k > 0 ==> s.mindMap == Some(Snapshot(k - 1))
    {
      s.SetMap(Snapshot(k));
      k := k + 1;
    }
    previous := s.mindMap.value;
    s.SetMap(Snapshot(MaxHistory));
    history := s.history;
    s.Undo();
    afterUndo := s.mindMap;
    assert |previous.root.topic| == 49;
  }
}
