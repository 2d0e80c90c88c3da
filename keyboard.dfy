/**
 * The global keyboard shortcuts of the map editor: one key-down event,
 * together with whether undo and redo are currently possible, chooses at
 * most one action. A chosen action also suppresses the browser's default.
 */
module Keyboard {
  import opened Wrappers

  datatype Action = Undo | Redo | FitToScreen | CenterOnSelection | ZoomIn | ZoomOut

  /** The fields of a DOM `KeyboardEvent` the handler reads. */
  datatype KeyEvent = KeyEvent(key: string, ctrlKey: bool, metaKey: bool, shiftKey: bool)

  /** What the handler does: the action it triggers and whether it calls `preventDefault`. */
  datatype Response = Response(action: Option<Action>, preventDefault: bool)

  /** Control on Windows and Linux, Command on macOS. */
  predicate CtrlCmd(e: KeyEvent) {
    e.ctrlKey || e.metaKey
  }

  /**
   * `handleKeyDown`: the first matching rule wins. The contract describes
   * each action on its own, independently of the order of the rules.
   */
  function HandleKeyDown(e: KeyEvent, canUndo: bool, canRedo: bool): (r: Response)
    ensures r.preventDefault <==> r.action.Some?
    ensures r.action == Some(Undo) <==> CtrlCmd(e) && e.key == "z" && !e.shiftKey && canUndo
    ensures r.action == Some(Redo) <==>
              CtrlCmd(e) && ((e.key == "z" && e.shiftKey) || e.key == "y") && canRedo
    ensures r.action == Some(FitToScreen) <==>
              (e.key == "f" && !CtrlCmd(e)) || (CtrlCmd(e) && e.key == "0")
    ensures r.action == Some(CenterOnSelection) <==> e.key == "c" && !CtrlCmd(e)
    ensures r.action == Some(ZoomIn) <==> CtrlCmd(e) && (e.key == "+" || e.key == "=")
    ensures r.action == Some(ZoomOut) <==> CtrlCmd(e) && e.key == "-"
  {
    var ctrlCmd := CtrlCmd(e);
    var shift := e.shiftKey;
    if ctrlCmd && e.key == "z" && !shift && canUndo then Response(Some(Undo), true)
    else if ctrlCmd && ((e.key == "z" && shift) || e.key == "y") && canRedo then Response(Some(Redo), true)
    else if e.key == "f" && !ctrlCmd then Response(Some(FitToScreen), true)
    else if e.key == "c" && !ctrlCmd then Response(Some(CenterOnSelection), true)
    else if ctrlCmd && e.key == "0" then Response(Some(FitToScreen), true)
    else if ctrlCmd && (e.key == "+" || e.key == "=") then Response(Some(ZoomIn), true)
    else if ctrlCmd && e.key == "-" then Response(Some(ZoomOut), true)
    else Response(None, false)
  }
}
