# FloatingText, modelled in Dafny

FloatingText is a small macOS utility. It shows one line of text at a time in an
always-on-top, click-through window and steps through a list of lines when global
hotkeys are pressed. This project models the non-GUI logic of its `FloatingTextApp`
class (`Sources/FloatingText/main.swift`) and proves properties of that model:

- **Text loader** (`text_loader.dfy`, module `TextLoader`). The candidate files are
  tried in order and the first one that reads wins. Its content is split on every
  newline character, empty components are dropped, and the placeholder line
  `No texts loaded - create demo_texts.txt` is used when nothing is left. The
  newline characters are Foundation's set: U+000A to U+000D, U+0085, U+2028 and
  U+2029. Each one splits on its own, so `"\r\n"` yields an empty component, which
  is then filtered out. The file system is abstracted away: the model receives one
  `Option<string>` per candidate path, `None` when that read failed for any reason.
- **Cycler** (`index_cycle.dfy`, module `IndexCycle`, and the class in `app.dfy`).
  `nextText` and `previousText` move `currentIndex` with wrap-around. Swift's
  truncating `%` is modelled explicitly as `SwiftRem`. `updateText` reads
  `texts[currentIndex]`. The text field is reduced to a `displayed` string, so the
  proof obligation is that this read is in bounds.
- **Hotkey classification** (`hotkeys.dfy`, module `Hotkeys`). The event-tap
  callback maps Control+Option with Right arrow (124), Left arrow (123) and Q (12)
  to Next, Previous and Quit, and consumes those events. The foreground-only
  fallback monitor has only the two arrow bindings. Every other event passes
  through unchanged. Modifiers are a set, and the test is "contains Control and
  contains Option", so extra modifiers such as Shift still match.
- **Application** (`app.dfy`, module `FloatingText`). The class `FloatingTextApp`
  holds `texts`, `currentIndex`, `displayed` and the installed `listener`. Its
  invariant `Valid()` states that `texts` is a non-empty list of non-empty strings
  and that `0 <= currentIndex < |texts|`. Key events are dispatched to the cycler
  through `HandleKeyDown`.

## Model

| member | source | states |
|---|---|---|
| `TextLoader.FirstReadable` | Sources/FloatingText/main.swift:34-42 | the search finds nothing exactly when every candidate read failed |
| `TextLoader.FirstReadableIsFirst` | Sources/FloatingText/main.swift:35-41 | if candidate k is the first whose read succeeded, the search returns candidate k's content |
| `TextLoader.FirstReadableIgnoresLater` | Sources/FloatingText/main.swift:35-41 | candidates after the first success are never consulted: two read sequences that agree up to it give the same content |
| `TextLoader.FirstReadableContent` | Sources/FloatingText/main.swift:34-42 | the for/break loop returns what the search specifies; it looks at `tried` candidates, all but the last of them failed, and the last is the content found; on failure it has tried them all |
| `TextLoader.Components` | Sources/FloatingText/main.swift:45 | splitting gives one more component than there are newline characters, and no component contains a newline |
| `TextLoader.Separators` | Sources/FloatingText/main.swift:45 | every separator is a newline character, and there are no more separators than characters |
| `TextLoader.SeparatorsAreAllNewlines` | Sources/FloatingText/main.swift:45 | each newline character occurs among the separators exactly as often as in the content |
| `TextLoader.SeparatorsInOrder` | Sources/FloatingText/main.swift:45 | the separators of a concatenation are those of its first part followed by those of its second, and one character is a separator exactly when it is a newline, so the separators are the content's newlines in order |
| `TextLoader.ComponentsRoundTrip` | Sources/FloatingText/main.swift:45 | putting the components back together with their separators gives the original content |
| `TextLoader.ComponentsUnique` | Sources/FloatingText/main.swift:45 | any newline-free parts that rebuild the content with newline separators are exactly the components (the split is unique) |
| `TextLoader.NonEmpty` | Sources/FloatingText/main.swift:45 | the filter keeps no empty string and never lengthens the list |
| `TextLoader.NonEmptyAppend` | Sources/FloatingText/main.swift:45 | filtering distributes over concatenation, so the kept lines stay in their original order |
| `TextLoader.NonEmptyMembership` | Sources/FloatingText/main.swift:45 | a string is kept exactly when it is in the input and is not empty |
| `TextLoader.NonEmptyIdempotent` | Sources/FloatingText/main.swift:45 | filtering twice gives the same result as filtering once |
| `TextLoader.LinesAreComponents` | Sources/FloatingText/main.swift:45 | a loaded line is exactly a non-empty component of the content, and it is newline-free |
| `TextLoader.BlankLineDropped` | Sources/FloatingText/main.swift:45 | the content "Hello", blank line, "World" loads as ["Hello", "World"] |
| `TextLoader.CrLfDropped` | Sources/FloatingText/main.swift:45 | "a\r\nb" splits into "a", "", "b" and loads as ["a", "b"] |
| `TextLoader.Loaded` | Sources/FloatingText/main.swift:44-50 | the list after loading is never empty; it is the content's non-empty lines when there are any, the placeholder when the content has none, and the previous list (or the placeholder if that was empty) when no content was found |
| `TextLoader.LoadedShape` | Sources/FloatingText/main.swift:44-50 | the startup list is non-empty and has no empty string; it is the placeholder alone when nothing was readable or every line was empty, and otherwise the lines of the first readable content |
| `IndexCycle.SwiftRem` | Sources/FloatingText/main.swift:184 | Swift's remainder is at least 0 and below the divisor's magnitude for a non-negative dividend, and at most 0 and above minus that magnitude for a negative one |
| `IndexCycle.SwiftRemNonNegative` | Sources/FloatingText/main.swift:189 | for the non-negative operands the cycler uses, Swift's remainder equals the mathematical (Euclidean) one |
| `IndexCycle.PreviousNeedsCount` | Sources/FloatingText/main.swift:189 | for two or more texts, stepping back from index 0 without adding the count would give -1, which is out of range; this is why `previousText` adds the count |
| `IndexCycle.NextIndexStep` | Sources/FloatingText/main.swift:183-186 | nextText keeps the index in range; it moves one forward and wraps the last index to 0 |
| `IndexCycle.PreviousIndexStep` | Sources/FloatingText/main.swift:188-191 | previousText keeps the index in range; it moves one back and wraps 0 to the last index |
| `IndexCycle.PreviousAfterNext` | Sources/FloatingText/main.swift:183-191 | previousText after nextText restores the index |
| `IndexCycle.NextAfterPrevious` | Sources/FloatingText/main.swift:183-191 | nextText after previousText restores the index |
| `IndexCycle.NextTimes` | Sources/FloatingText/main.swift:184 | any number of nextText presses keeps the index in range |
| `IndexCycle.NextTimesOffset` | Sources/FloatingText/main.swift:184 | after k presses of nextText, with k at most the count, the index has moved k places and wrapped at most once |
| `IndexCycle.NextTimesCount` | Sources/FloatingText/main.swift:184 | pressing nextText once per text returns the index to its start |
| `Hotkeys.QuitOnlyWithTap` | Sources/FloatingText/main.swift:150-176 | the Control+Option+Q Quit hotkey exists exactly when the event tap could be created; the fallback monitor has none |
| `Hotkeys.Lookup` | Sources/FloatingText/main.swift:121-143 | a listed key gets the action of its first binding in the table, a found action is in the table, and an unlisted key passes through |
| `Hotkeys.TapActionIsTableLookup` | Sources/FloatingText/main.swift:119-145 | the event tap acts exactly on the table's keys, and only when Control and Option are both held |
| `Hotkeys.TapBindingsRecognised` | Sources/FloatingText/main.swift:121-142 | with Control and Option held (plus any other modifiers), 124 is Next, 123 is Previous and 12 is Quit |
| `Hotkeys.TapConsumesOnlyBindings` | Sources/FloatingText/main.swift:119-145 | the event tap consumes an event exactly when Control and Option are held and the key is 124, 123 or 12 |
| `Hotkeys.MonitorIsTapWithoutQuit` | Sources/FloatingText/main.swift:161-172 | the fallback monitor agrees with the tap except that Control+Option+Q passes through; the monitor never quits |
| `Hotkeys.MonitorConsumesOnlyArrows` | Sources/FloatingText/main.swift:161-172 | the fallback monitor consumes an event exactly when Control and Option are held and the key is 124 or 123 |
| `Hotkeys.ExtraModifiersKeepBinding` | Sources/FloatingText/main.swift:119 | adding modifiers to a Control+Option event changes neither classification |
| `FloatingText.IndexAfterInRange` | Sources/FloatingText/main.swift:121-142 | every action the listener dispatches keeps the index in range |
| `FloatingText.DispatchClassified` | Sources/FloatingText/main.swift:115-172 | a classified event moves the index one place forward (Right arrow) or back (Left arrow) with wrap-around; an event that is not consumed leaves the index unchanged; the local monitor never quits |
| `FloatingText.RightThenLeftRestores` | Sources/FloatingText/main.swift:121-135 | Control+Option+Right followed by Control+Option+Left restores the index, on either listener |
| `FloatingText.FloatingTextApp.constructor` | Sources/FloatingText/main.swift:7-8 | a new app has no texts, index 0 and no listener |
| `FloatingText.FloatingTextApp.LoadTexts` | Sources/FloatingText/main.swift:21-51 | `texts` becomes the loaded list computed from its old value and the first readable content |
| `FloatingText.FloatingTextApp.SetupGlobalShortcuts` | Sources/FloatingText/main.swift:150-176 | the installed listener is the tap when it could be created, else the local monitor |
| `FloatingText.FloatingTextApp.ApplicationDidFinishLaunching` | Sources/FloatingText/main.swift:11-16 | after launch the invariant holds, `texts` is the loaded list, the index is 0 and its text is shown |
| `FloatingText.FloatingTextApp.UpdateText` | Sources/FloatingText/main.swift:193-194 | the read is in bounds and the displayed string is `texts[currentIndex]` |
| `FloatingText.FloatingTextApp.NextText` | Sources/FloatingText/main.swift:183-186 | the index becomes `(old + 1) % count`, the invariant is kept, `texts` is unchanged and the new text is shown |
| `FloatingText.FloatingTextApp.PreviousText` | Sources/FloatingText/main.swift:188-191 | the index becomes `(old - 1 + count) % count`, the invariant is kept, `texts` is unchanged and the new text is shown |
| `FloatingText.FloatingTextApp.HandleKeyDown` | Sources/FloatingText/main.swift:115-172 | the event is consumed exactly when the installed listener recognises it; Quit is reported; the index moves as the action says; `texts` is unchanged; a passed-through event changes nothing on screen |

## Left out

- Window, text field, shadow and screen geometry (main.swift:53-96), and hiding the app from the Dock with `NSApp.setActivationPolicy(.accessory)` (main.swift:17-18): AppKit GUI calls. The text field is reduced to the `displayed` string.
- The fade animation (main.swift:196-201): floating-point alpha values animated by AppKit.
- The accessibility permission check and prompt (main.swift:99-106): a foreign OS call whose result the code only logs.
- Creating, registering, enabling and disabling the event tap (main.swift:150-180, 204-208): foreign OS calls. Whether the tap could be created is a parameter (`tapCreated`). Disabling the tap on termination is not modelled.
- `DispatchQueue.main.async` (main.swift:124-140): the hand-off to the main thread is concurrency. Actions are applied directly, in arrival order.
- `NSApp.terminate` (main.swift:139): `HandleKeyDown` reports Quit through its `quit` result instead of ending a process.
- The callback's guard on a missing `refcon` (main.swift:112): the app always passes itself as `refcon`. If it were missing, the event would pass through unchanged.
- The local monitor's `weak self` (main.swift:161-169): the app object lives for the whole run, so `self` is never nil there.
- Reading the candidate files, building the paths from the bundle, working and home directories, URL standardisation and UTF-8 decoding (main.swift:23-37): I/O. Each candidate read is one `Option<string>`. `None` stands for any failed read: a missing file, no permission, a directory, an I/O error or content that is not valid UTF-8. The app always tries four candidates; the model accepts any number.
- The log lines printed by `loadTexts` and `setupGlobalShortcuts`: output only.
- The entry point (main.swift:211-215) and `Package.swift`: no logic.
- Integer width: Swift's `Int` is not modelled, so unbounded integers are used. `currentIndex + 1` and `(currentIndex - 1) + texts.count` stay below twice the count. An array of strings cannot come near `Int.max / 2` elements, so neither can overflow.
- Page-Up/Page-Down bindings: they are not in the code.
