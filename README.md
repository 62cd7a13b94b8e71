# Meatball Browser bookmarks in Dafny

Meatball Browser is a small PyQt web browser. Its only logic of its own is
the bookmark subsystem of the `Browser` window, plus two rules about URL text.
This project models that logic and proves what it does.

- **Slots.** The window keeps ten bookmark slots in a list. Each slot holds a
  raw line of the bookmark file `bookmarks.txt`, newline included, or the
  placeholder `"Empty"`.
- **Load.** Loading reads the first ten lines. A sticky clear flag turns on at
  the first missing line or the first line without `'#'`. From then on every
  slot is `"Empty"`.
- **Display.** Ten menu buttons show the slots. An occupied slot before the
  first `"Empty"` gets a label: the text before its first `'#'`. It also gets
  a status tip: the text after that `'#'` minus the line's last character. A
  callback that opens the tip as a URL is connected to its button. Every
  other button shows `"Empty"`.
- **Save.** Saving appends `title#url` and a newline to the file, unless the
  last slot is occupied. Then it reloads and redisplays.
- **Remove.** Removing scans the slots in memory for the first one whose
  stored string contains the URL bar's text. It rewrites the file without the
  line at that slot's index, then reloads and redisplays.
- **Open.** Opening a bookmark navigates only when the URL contains `"://"`.
- **URL bar.** Pressing return in the URL bar turns the text into a URL.
  Text that already contains `https://` is kept as it is. Otherwise
  `https://` is put in front of something that looks like a domain, and
  anything else becomes a search.

## Modules

- `Text` (text.dfy) gives the Python string semantics the code relies on:
  - `str.find`;
  - slices with negative and clamped bounds;
  - `readlines`, where every line keeps its newline and a last line may lack one.

  It also proves that splitting a text into lines and joining them back round-trips.
- `Bookmarks` (bookmarks.dfy) holds the pure functions of the file's lines.
  These are what loading stores (`Loaded`), what each button shows
  (`Rendered`), which slot a removal picks (`FirstMatch`), which lines it
  keeps (`RemoveAt`) and the line a save appends (`Entry`). It also holds the
  lemmas that characterise them slot by slot.
- `Navigation` (navigation.dfy) holds the two stateless URL rules.
- `BrowserWindow` (browser.dfy) holds the state the program updates in place,
  in imperative Dafny:
  - the ten slots, as an `array<string>` overwritten by the load loop;
  - the ten buttons, as `Button` objects whose text, status tip and connected
    callbacks the display loop updates;
  - the bookmark file, as its text, or `None` when it does not exist.

  Every loop of the bookmark operations is a `while` or `for` loop proved
  against the function in `Bookmarks` that specifies it.
- `Scenarios` (scenarios.dfy) covers concrete situations: truncation at a
  blank line, a full file, removal by substring, removal without a match, the
  empty URL bar, and removal that matches a placeholder slot.

A callback connected by `bookmark_action` is recorded as the URL it opens, in
the button's `handlers` list. Lines 148-149 of `ProjectFiles/main.py` exist
only to bind that URL.

Three behaviours of the code a reader might not expect:

- A missing bookmark file makes loading raise. It does not load as an empty
  file. `Browser.Load` returns `FileNotFound` and changes no slot.
- Every redisplay connects one more callback to each occupied button, and
  nothing is ever disconnected. `Button.handlers` only grows.
- A removal scans the slots already in memory and does not reload the file
  first. The model runs the scan (`Browser.Scan`) and then acts on the slot
  it found, as the program's loop does before its `break`. The scan can match
  the placeholder `"Empty"`, for text such as `""` or `"mpt"`. It then
  deletes whatever line sits at that index, which may be a malformed line.

## Model

| member | source | states |
|---|---|---|
| Text.FindSpec | ProjectFiles/main.py:138 | `str.find`: -1 exactly when the pattern does not occur; otherwise an occurrence with none before it |
| Text.FindFromSpec | ProjectFiles/main.py:183 | a search from index i returns an occurrence at or after i with none between i and it, or -1 when there is none from i on |
| Text.SliceBound | ProjectFiles/main.py:165 | a Python slice bound: within the length, equal to a valid index, counted from the end when negative |
| Text.LinesWellFormed | ProjectFiles/main.py:186 | `readlines` yields non-empty lines, all terminated by a newline except possibly the last |
| Text.JoinLines | ProjectFiles/main.py:185-192 | writing back the lines `readlines` returned reproduces the file's text |
| Text.LinesJoin | ProjectFiles/main.py:188-193 | reading back well-formed lines that were written one after another gives the same lines |
| Text.LinesAppendLine | ProjectFiles/main.py:204-205 | appending a terminated line to a text that is empty or ends in a newline adds exactly that line |
| Bookmarks.LoadFrom | ProjectFiles/main.py:136-144 | the load loop from any slot on fills exactly the remaining slots |
| Bookmarks.Loaded | ProjectFiles/main.py:132-145 | loading always yields exactly ten slots |
| Bookmarks.LoadedSlot | ProjectFiles/main.py:134-144 | slot i is file line i exactly when lines 0..i all exist and contain '#'; otherwise it is "Empty" |
| Bookmarks.LoadedOccupied | ProjectFiles/main.py:138-143 | a slot other than "Empty" holds its raw line, which contains '#' |
| Bookmarks.ClearAfterStep | ProjectFiles/main.py:138-140 | the clear flag after one more line is on exactly when it was on already or that line is missing or has no '#' |
| Bookmarks.LoadedPrefixOccupied | ProjectFiles/main.py:138-143 | when slot i is occupied, every slot before it holds its raw line too |
| Bookmarks.LoadedTruncation | ProjectFiles/main.py:138-141 | once a slot is "Empty", every later slot is "Empty", whatever the later lines hold |
| Bookmarks.RenderFrom | ProjectFiles/main.py:155-169 | the display loop from any slot on gives one view per remaining slot |
| Bookmarks.Rendered | ProjectFiles/main.py:152-169 | every slot gets a view |
| Bookmarks.RenderedSlot | ProjectFiles/main.py:156-168 | a button shows "Empty" with nothing connected exactly when its slot or an earlier one is "Empty"; otherwise it shows its line's label and tip and connects the tip |
| Bookmarks.LabelTip | ProjectFiles/main.py:164-165 | the label is the text before the first '#'; the tip is the text after it minus the last character, newline or not |
| Bookmarks.PlaceholderStep | ProjectFiles/main.py:158-159 | the display's clear flag after one more slot is on exactly when it was on already or that slot is "Empty" |
| Bookmarks.ShownEntry | ProjectFiles/main.py:164-166 | an occupied slot's view shows its label and tip and connects exactly the tip |
| Bookmarks.DisplayTruncated | ProjectFiles/main.py:158-162 | a slot at or after the first undecodable line shows "Empty" as label and tip and connects nothing |
| Bookmarks.DisplayEntry | ProjectFiles/main.py:163-168 | a slot before it shows its line's label and tip and connects the tip |
| Bookmarks.MatchFrom | ProjectFiles/main.py:182-196 | the removal scan from any slot on finds the first later slot containing the text, or none when none does |
| Bookmarks.FirstMatch | ProjectFiles/main.py:182-184 | the slot a removal picks contains the text and no earlier slot does; none exactly when no slot contains it |
| Bookmarks.FirstMatchIs | ProjectFiles/main.py:182-184 | the first slot containing the text is the one picked |
| Bookmarks.RemoveAt | ProjectFiles/main.py:187-192 | the rewritten lines are the old lines without index k, the others in order; all of them when there is no line k |
| Bookmarks.RemoveAtSnoc | ProjectFiles/main.py:189-192 | one more line read is copied unless it is the skipped one |
| Bookmarks.RemoveWellFormed | ProjectFiles/main.py:186-192 | removing a line keeps the lines well formed |
| Bookmarks.RemoveRoundTrip | ProjectFiles/main.py:185-193 | reading back the rewritten file gives exactly the old lines without line k |
| Bookmarks.EntryIsLine | ProjectFiles/main.py:205 | a saved entry whose fields hold no newline is one terminated line |
| Bookmarks.SaveAppendsLine | ProjectFiles/main.py:204-207 | saving onto an empty or newline-terminated file, with fields free of newlines and carriage returns, adds the entry as its last line |
| Bookmarks.SaveIntoEmpty | ProjectFiles/main.py:204-208 | round trip: saving into an empty file, with a title free of '#' and fields free of newlines and carriage returns, shows the title as label and the URL as tip in slot 0, and "Empty" in slots 1..9 |
| Navigation.OpenBookmark | ProjectFiles/main.py:172-176 | navigates, to the URL unchanged, exactly when it contains "://"; otherwise reports a broken link |
| Navigation.NavigateTarget | ProjectFiles/main.py:252-259 | text with "https://" is kept; text whose first '.' is strictly inside gets "https://" in front; anything else becomes a Google search |
| Navigation.InnerDotIsFind | ProjectFiles/main.py:255 | the test `0 < find('.') < len - 1` holds exactly when the first '.' is strictly inside the text |
| Navigation.SearchIsSecure | ProjectFiles/main.py:258 | a search URL contains "https://" |
| Navigation.NavigateTargetSecure | ProjectFiles/main.py:254-258 | every URL the URL bar navigates to contains "https://" |
| Navigation.NavigateTargetIdempotent | ProjectFiles/main.py:253-258 | applying the URL-bar rule to its own result changes nothing |
| Navigation.NavigateTargetOpens | ProjectFiles/main.py:173 | a URL produced by the URL bar would always be opened as a bookmark, never reported as broken |
| BrowserWindow.Rewrite | ProjectFiles/main.py:187-192 | the text written is the read lines without the one at the skipped index |
| BrowserWindow.Button.constructor | ProjectFiles/main.py:125-126 | a new button reads "Empty" as text and tip, with nothing connected |
| BrowserWindow.Button.SetText | ProjectFiles/main.py:167 | the button's text becomes the given text; tip and callbacks are unchanged |
| BrowserWindow.Button.SetStatusTip | ProjectFiles/main.py:168 | the button's status tip becomes the given text; text and callbacks are unchanged |
| BrowserWindow.Button.Connect | ProjectFiles/main.py:166 | the callback opening the URL is added after the ones already connected; text and tip are unchanged |
| BrowserWindow.Browser.constructor | ProjectFiles/main.py:39-40 | ten "Empty" slots and ten distinct new "Empty" buttons |
| BrowserWindow.Browser.Load | ProjectFiles/main.py:132-145 | the slots become `Loaded` of the file's lines; a missing file raises and changes nothing |
| BrowserWindow.Browser.Fill | ProjectFiles/main.py:136-144 | the load loop over the lines read leaves the slots equal to `Loaded` of those lines |
| BrowserWindow.Browser.Display | ProjectFiles/main.py:152-169 | every button shows its slot's view and gains that view's callback after the ones it had |
| BrowserWindow.Browser.Start | ProjectFiles/main.py:111-113 | window start-up loads then displays; with no file nothing is shown |
| BrowserWindow.Browser.Save | ProjectFiles/main.py:199-208 | nothing changes when slot 9 is occupied; otherwise the entry is appended to the file, which is created if missing, and the slots are reloaded and redisplayed |
| BrowserWindow.Browser.Scan | ProjectFiles/main.py:181-184 | the scan over the slots in memory returns the first slot containing the text, or none, and changes nothing |
| BrowserWindow.Browser.Remove | ProjectFiles/main.py:179-196 | no matching slot changes nothing; otherwise the file loses exactly the line at the first matching slot's index, and the slots are reloaded and redisplayed; a missing file raises and changes nothing |
| Scenarios.TruncationExample | ProjectFiles/main.py:136-144 | two entries, a blank line and any further line load as the first two entries followed by eight "Empty" slots |
| Scenarios.LoadedAllHashed | ProjectFiles/main.py:136-144 | at most ten lines that all contain '#' load as those lines followed by "Empty" slots |
| Scenarios.FullAfterTenEntries | ProjectFiles/main.py:200-201 | ten entries fill slot 9, so a further save is refused |
| Scenarios.RemoveBySubstring | ProjectFiles/main.py:182-194 | text found in the second of two entries but not the first picks slot 1; the file then loads as the first entry alone |
| Scenarios.RemoveNoMatch | ProjectFiles/main.py:182-184 | text found in no line and not in "Empty" matches no slot |
| Scenarios.EmptyTextMatchesFirst | ProjectFiles/main.py:183-184 | an empty URL bar matches slot 0, whatever it holds |
| Scenarios.MalformedSecondLine | ProjectFiles/main.py:138-141 | a line without '#' hides every later line |
| Scenarios.RemoveAtPlaceholder | ProjectFiles/main.py:183-194 | with a malformed second line, "mpt" matches the placeholder in slot 1, removes that line and exposes the entry behind it |
| Scenarios.OpenExamples | ProjectFiles/main.py:173-176 | "http://a.com" is opened and "a.com" is a broken link |

## Left out

- Qt window, tab, toolbar, menu and status-bar construction, including the icons of the bookmark buttons and their place in the menu. These are calls into a GUI library, not logic.
- Navigation itself. `OpenBookmark` and `NavigateTarget` return the URL the current page view is asked to load, and `QWebEngineView` is not modelled.
- The console message "Broken link". It is the `BrokenLink` result.
- Triggering a button's callbacks. The callbacks are recorded as the URLs they open, and signal dispatch is not modelled.
- The page title and the URL bar's text. They are parameters of `Browser.Save` and `Browser.Remove`, because they come from Qt widgets.
- Real files. The bookmark file is its text or `None`, with no encoding, no I/O errors other than a missing file, and no concurrent writers. The read-then-rewrite of a removal is taken as one step.
- BrowserWindow.Browser.Start: the program loads before it creates the buttons, so a missing file aborts window construction before any button exists. The model creates the buttons in the constructor and reports `FileNotFound` from `Start`. Loading never touches the buttons, so the order does not change any state.
- Text.Lines: Python reads the file in text mode, so `readline` and
  `readlines` also end a line at `'\r'` or `'\r\n'` and hand it back ending
  in `'\n'`. `Lines` splits only at `'\n'`, so `Browser.Load`, `Browser.Save`
  and `Browser.Remove` agree with the program only on files without `'\r'`.
  `SaveAppendsLine` and `SaveIntoEmpty` therefore require fields without
  `'\r'`.
- Printing, back/forward/reload/stop, the home button, tab handling, the URL-bar update on page change, and application start-up with its event loop.
