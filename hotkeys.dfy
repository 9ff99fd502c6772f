/**
 * Key classification: the event-tap callback and the foreground-only
 * fallback monitor each map a key-down event to an action. Key codes are
 * macOS virtual key codes; modifiers are the flags held with the key.
 */
module Hotkeys {

  /** kVK_RightArrow, kVK_LeftArrow and kVK_ANSI_Q of Carbon's HIToolbox. */
  const KeyRightArrow: int := 124
  const KeyLeftArrow: int := 123
  const KeyQ: int := 12

  /** Modifier flags of a key event (`Option` is the event tap's "alternate" flag). */
  datatype Modifier = CapsLock | Shift | Control | Option | Command | NumericPad | Help | Function

  /** A key-down event as the callbacks see it. */
  datatype KeyEvent = KeyEvent(keyCode: int, modifiers: set<Modifier>)

  /** What a recognised binding does; PassThrough hands the event on unchanged. */
  datatype Action = Next | Previous | Quit | PassThrough

  /** The callbacks consume (return nil for) every event they act on. */
  predicate Consumed(a: Action) {
    a != PassThrough
  }

  /** Which of the two key listeners the app installed. */
  datatype Listener = EventTap | LocalMonitor

  /** Both Control and Option are held; any other modifiers may be held too. */
  predicate HasControlOption(mods: set<Modifier>) {
    Control in mods && Option in mods
  }

  /** The classification of the global event tap's callback. */
  function TapAction(e: KeyEvent): Action {
    if HasControlOption(e.modifiers) then
      if e.keyCode == KeyRightArrow then Next
      else if e.keyCode == KeyLeftArrow then Previous
      else if e.keyCode == KeyQ then Quit
      else PassThrough
    else PassThrough
  }

  /** The classification of the fallback local monitor: no Quit binding. */
  function MonitorAction(e: KeyEvent): Action {
    if HasControlOption(e.modifiers) then
      if e.keyCode == KeyRightArrow then Next
      else if e.keyCode == KeyLeftArrow then Previous
      else PassThrough
    else PassThrough
  }

  /** The action of whichever listener is installed. */
  function Classify(l: Listener, e: KeyEvent): Action {
    match l
    case EventTap => TapAction(e)
    case LocalMonitor => MonitorAction(e)
  }

  /** The listener setupGlobalShortcuts ends up with: the tap if it could be created. */
  function ListenerFor(tapCreated: bool): (l: Listener)
    ensures l == EventTap <==> tapCreated
  {
    if tapCreated then EventTap else LocalMonitor
  }

  // ---------------------------------------------------------------------
  // The binding table, as a reference for both classifiers
  // ---------------------------------------------------------------------

  /** The Control+Option bindings of the event tap, as (key code, action) pairs. */
  const TapBindings: seq<(int, Action)> := [(KeyRightArrow, Next), (KeyLeftArrow, Previous), (KeyQ, Quit)]

  /** The first binding for `key`, or PassThrough. */
  function Lookup(table: seq<(int, Action)>, key: int): (a: Action)
    ensures a != PassThrough ==> exists i :: 0 <= i < |table| && table[i] == (key, a)
    ensures (forall i :: 0 <= i < |table| ==> table[i].0 != key) ==> a == PassThrough
    ensures forall i :: 0 <= i < |table| && table[i].0 == key && (forall j :: 0 <= j < i ==> table[j].0 != key)
              ==> a == table[i].1
  {
    if |table| == 0 then PassThrough
    else if table[0].0 == key then table[0].1
    else Lookup(table[1..], key)
  }

  /** The event tap acts exactly on the table's keys under Control+Option. */
  lemma TapActionIsTableLookup(e: KeyEvent)
    ensures TapAction(e) == if HasControlOption(e.modifiers) then Lookup(TapBindings, e.keyCode) else PassThrough
  {
    assert TapBindings[0].0 == KeyRightArrow && TapBindings[1].0 == KeyLeftArrow && TapBindings[2].0 == KeyQ;
  }

  /**
   * The fallback monitor is the event tap without Quit: it agrees with the
   * tap on Next and Previous and lets Control+Option+Q through.
   */
  lemma MonitorIsTapWithoutQuit(e: KeyEvent)
    ensures MonitorAction(e) == if TapAction(e) == Quit then PassThrough else TapAction(e)
    ensures MonitorAction(e) != Quit
  {
  }

  /** The Quit hotkey exists exactly when the event tap could be created. */
  lemma QuitOnlyWithTap(tapCreated: bool, mods: set<Modifier>)
    requires HasControlOption(mods)
    ensures Classify(ListenerFor(tapCreated), KeyEvent(KeyQ, mods)) == Quit <==> tapCreated
  {
  }

  /** The three bindings of the event tap, with any extra modifiers held. */
  lemma TapBindingsRecognised(mods: set<Modifier>)
    requires HasControlOption(mods)
    ensures TapAction(KeyEvent(KeyRightArrow, mods)) == Next
    ensures TapAction(KeyEvent(KeyLeftArrow, mods)) == Previous
    ensures TapAction(KeyEvent(KeyQ, mods)) == Quit
  {
  }

  /** The event tap consumes an event exactly when it is one of its three bindings. */
  lemma TapConsumesOnlyBindings(e: KeyEvent)
    ensures Consumed(TapAction(e)) <==>
              HasControlOption(e.modifiers) && e.keyCode in {KeyRightArrow, KeyLeftArrow, KeyQ}
  {
  }

  /** The fallback monitor consumes an event exactly when it is Control+Option+Right or Left. */
  lemma MonitorConsumesOnlyArrows(e: KeyEvent)
    ensures Consumed(MonitorAction(e)) <==>
              HasControlOption(e.modifiers) && e.keyCode in {KeyRightArrow, KeyLeftArrow}
  {
  }

  /** Holding more modifiers never changes a recognised binding. */
  lemma ExtraModifiersKeepBinding(e: KeyEvent, extra: set<Modifier>)
    requires HasControlOption(e.modifiers)
    ensures TapAction(KeyEvent(e.keyCode, e.modifiers + extra)) == TapAction(e)
    ensures MonitorAction(KeyEvent(e.keyCode, e.modifiers + extra)) == MonitorAction(e)
  {
  }
}
