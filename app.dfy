/**
 * The application object: the loaded texts, the index of the one shown,
 * the string on screen and the key listener it installed. Window
 * construction, styling and the fade animation are not modelled; the text
 * field is reduced to the string it displays.
 */
module FloatingText {
  import opened Wrappers
  import opened TextLoader
  import opened IndexCycle
  import opened Hotkeys

  /** The index once `a` has been carried out on a list of `n` texts. */
  function IndexAfter(a: Action, i: int, n: int): int
    requires InRange(i, n)
  {
    match a
    case Next => NextIndex(i, n)
    case Previous => PreviousIndex(i, n)
    case Quit => i
    case PassThrough => i
  }

  /** Carrying out any action keeps the index in range. */
  lemma IndexAfterInRange(a: Action, i: int, n: int)
    requires InRange(i, n)
    ensures InRange(IndexAfter(a, i, n), n)
  {
    match a
    case Next => NextIndexStep(i, n);
    case Previous => PreviousIndexStep(i, n);
    case Quit =>
    case PassThrough =>
  }

  /**
   * Dispatching what the installed listener makes of an event: a
   * Control+Option arrow moves the index one place (with wrap-around),
   * every event the listener does not consume leaves it where it was.
   */
  lemma DispatchClassified(l: Listener, e: KeyEvent, i: int, n: int)
    requires InRange(i, n)
    ensures InRange(IndexAfter(Classify(l, e), i, n), n)
    ensures HasControlOption(e.modifiers) && e.keyCode == KeyRightArrow ==>
              IndexAfter(Classify(l, e), i, n) == if i + 1 < n then i + 1 else 0
    ensures HasControlOption(e.modifiers) && e.keyCode == KeyLeftArrow ==>
              IndexAfter(Classify(l, e), i, n) == if i > 0 then i - 1 else n - 1
    ensures !Consumed(Classify(l, e)) ==> IndexAfter(Classify(l, e), i, n) == i
    ensures l == LocalMonitor ==> Classify(l, e) != Quit
  {
    IndexAfterInRange(Classify(l, e), i, n);
    NextIndexStep(i, n);
    PreviousIndexStep(i, n);
  }

  /** A right-arrow press followed by a left-arrow press, both with Control+Option, restores the index. */
  lemma RightThenLeftRestores(l: Listener, mods: set<Modifier>, i: int, n: int)
    requires InRange(i, n) && HasControlOption(mods)
    ensures InRange(IndexAfter(Classify(l, KeyEvent(KeyRightArrow, mods)), i, n), n)
    ensures IndexAfter(Classify(l, KeyEvent(KeyLeftArrow, mods)),
                       IndexAfter(Classify(l, KeyEvent(KeyRightArrow, mods)), i, n), n) == i
  {
    PreviousAfterNext(i, n);
  }

  class FloatingTextApp {
    var texts: seq<string>
    var currentIndex: int
    /** The string the on-screen text field shows. */
    var displayed: string
    /** The key listener, once setupGlobalShortcuts has run. */
    var listener: Option<Listener>

    /** The cycler's invariant: a non-empty list of non-empty texts and an index into it. */
    ghost predicate Valid()
      reads this
    {
      |texts| >= 1 && InRange(currentIndex, |texts|)
      && forall i :: 0 <= i < |texts| ==> texts[i] != ""
    }

    /** The screen shows the current text. */
    ghost predicate Shows()
      reads this
      requires Valid()
    {
      displayed == texts[currentIndex]
    }

    constructor ()
      ensures texts == [] && currentIndex == 0 && displayed == "" && listener == None
    {
      texts := [];
      currentIndex := 0;
      displayed := "";
      listener := None;
    }

    /** loadTexts: search the candidates in order, then split, filter and fall back. */
    method LoadTexts(results: seq<Option<string>>)
      modifies this`texts
      ensures texts == Loaded(old(texts), FirstReadable(results))
    {
      var content, _ := FirstReadableContent(results);
      if content.Some? {
        texts := Lines(content.value);
      }
      if texts == [] {
        texts := [Placeholder];
      }
    }

    /**
     * setupGlobalShortcuts: install the event tap, or the foreground-only
     * monitor when the tap cannot be created.
     */
    method SetupGlobalShortcuts(tapCreated: bool)
      modifies this`listener
      ensures listener == Some(ListenerFor(tapCreated))
    {
      if tapCreated {
        listener := Some(EventTap);
      } else {
        listener := Some(LocalMonitor);
      }
    }

    /** applicationDidFinishLaunching, on the freshly constructed app. */
    method ApplicationDidFinishLaunching(results: seq<Option<string>>, tapCreated: bool)
      requires texts == [] && currentIndex == 0
      modifies this
      ensures Valid() && Shows()
      ensures texts == TextsFrom(results) && currentIndex == 0
      ensures displayed == TextsFrom(results)[0]
      ensures listener == Some(ListenerFor(tapCreated))
    {
      LoadTexts(results);
      LoadedShape(results);
      SetupGlobalShortcuts(tapCreated);
      UpdateText();
    }

    /** updateText: show the current text. */
    method UpdateText()
      requires Valid()
      modifies this`displayed
      ensures Valid() && Shows()
      ensures displayed == texts[currentIndex]
    {
      displayed := texts[currentIndex];
    }

    method NextText()
      requires Valid()
      modifies this`currentIndex, this`displayed
      ensures Valid() && Shows()
      ensures texts == old(texts)
      ensures currentIndex == NextIndex(old(currentIndex), |texts|)
    {
      NextIndexStep(currentIndex, |texts|);
      currentIndex := SwiftRem(currentIndex + 1, |texts|);
      UpdateText();
    }

    method PreviousText()
      requires Valid()
      modifies this`currentIndex, this`displayed
      ensures Valid() && Shows()
      ensures texts == old(texts)
      ensures currentIndex == PreviousIndex(old(currentIndex), |texts|)
    {
      PreviousIndexStep(currentIndex, |texts|);
      currentIndex := SwiftRem(currentIndex - 1 + |texts|, |texts|);
      UpdateText();
    }

    /**
     * A key-down event reaching the installed listener: the action is
     * carried out directly, `consumed` says whether the event is swallowed
     * and `quit` whether the application is to terminate.
     */
    method HandleKeyDown(e: KeyEvent) returns (consumed: bool, quit: bool)
      requires Valid() && Shows() && listener.Some?
      modifies this`currentIndex, this`displayed
      ensures Valid() && Shows()
      ensures texts == old(texts)
      ensures consumed == Consumed(Classify(listener.value, e))
      ensures quit <==> Classify(listener.value, e) == Quit
      ensures currentIndex == IndexAfter(Classify(listener.value, e), old(currentIndex), |texts|)
      ensures !consumed ==> displayed == old(displayed)
    {
      var action := Classify(listener.value, e);
      consumed, quit := false, false;
      match action
      case Next =>
        NextText();
        consumed := true;
      case Previous =>
        PreviousText();
        consumed := true;
      case Quit =>
        consumed, quit := true, true;
      case PassThrough =>
    }
  }
}
