# SCORM course generator — a Dafny model

The Flask application turns one markdown document into a SCORM 1.2 package.
This model covers the logic in `flask/app.py` that decides what the package
contains and how the delivered page behaves:

- **The sidebar table of contents.** `generate_sidebar` cuts the markdown into
  slides at the literal `"\n---\n"`. It then takes the first `#` or `##`
  heading of each stripped slide as that slide's entry.
  - Modules: `Text` (the Python string methods used) and `Sidebar`.
- **The deck the browser builds from the same markdown.** Reveal.js splits it
  at every line that is exactly `---`.
  - Module: `Deck`.
  - The sidebar and the deck can number slides differently. Lemmas in `Deck`
    exhibit three inputs where they do.
- **The runtime state machine of the delivered page.** It covers:
  - the visited-slide list that `updateProgress` maintains;
  - the unlock rule of `lockSections`;
  - the keydown guard;
  - the progress figure.
  - Modules: `Navigation` and `Completion`.
- **The SCORM wrapper object and the page's handlers.**
  - The wrapper object locates the LMS `API` object and calls it.
  - The handlers `updateProgress` and `window.onload` drive it, and so does
    `completeCourse`, which no element of the page calls (only HTML written
    into the markdown can).
  - Every host call is recorded in an ordered trace. The host's replies are
    parameters.
  - The visited list is saved in `cmi.suspend_data` as JSON. That is modelled
    as an encoder and decoder for lists of non-negative integers.
  - Modules: `Scorm`, `SuspendData` and `Tracker`.
- **The package descriptor.** It covers:
  - the 400 guard on the request body;
  - the `imsmanifest.xml` content, with its referential integrity;
  - the archive entry names, computed as `os.path.relpath` of each written
    file against the content directory.
  - Module: `Packaging`.

Where the code and its documentation disagree, the model follows the code:

- The progress figure is not clamped to 100.
- A corrupt `cmi.suspend_data` makes `window.onload` throw (`Tracker.Crashed`). It does not fall back to an empty list.
- `completeCourse` is not final. `finish` leaves the wrapper initialized, so the next slide change sends `LMSSetValue` of `incomplete` after `LMSFinish`. The LMS may refuse that call; the model records that it is made.
- The sidebar numbers slides by `"\n---\n"`, but the deck numbers them by `^---$` lines.

## Model

| member | source | states |
|---|---|---|
| Text.Strip | flask/app.py:18 | `str.strip`: empty exactly when the input is all whitespace; otherwise it starts and ends with non-whitespace and is a slice of the input with only whitespace cut on both sides |
| Text.StripUnchanged | flask/app.py:18 | a string that starts and ends with non-whitespace is left as it is by `strip` |
| Text.SplitLines | flask/app.py:18 | `str.splitlines`: no line holds a line break; the empty string has no lines; a non-empty break-free string is one line |
| Text.LineBreaks | flask/app.py:18 | the break that ends each line of `str.splitlines` is `\r\n` or a single line-break character; only the last line may end without one |
| Text.SplitLinesAt | flask/app.py:18 | a break-free line, one break and the rest (not a `\r` followed by `\n`) split as that line followed by the lines of the rest |
| Text.LinesStep | flask/app.py:18 | an input holding a line break is its first line, that line's break and a rest whose lines follow |
| Text.LineBreaksMaximal | flask/app.py:18 | every line but the last ends at a break; an unterminated last line is non-empty; `\r` then `\n` is never read as two breaks |
| Text.SplitLinesRoundTrip | flask/app.py:18 | putting each line back before its break gives back the input, so `str.splitlines` loses nothing but the breaks |
| Text.Split | flask/app.py:15 | `str.split` gives at least one piece; exactly the input when the separator does not occur; at least two when it does |
| Text.Find | flask/app.py:15 | the leftmost occurrence of the separator, or none at all |
| Text.JoinSplit | flask/app.py:15 | joining the pieces of `str.split` with the separator gives back the input |
| Text.SplitCount | flask/app.py:15 | `str.split` yields one piece more than the non-overlapping occurrences of the separator |
| Text.SplitPiecesFree | flask/app.py:15 | no piece of `str.split` contains the separator |
| Sidebar.Slides | flask/app.py:15 | the slides are at least one piece, and joining them with `"\n---\n"` gives back the markdown |
| Sidebar.SlidesOfTwo | flask/app.py:15 | a dash-free slide, the separator and a separator-free rest are exactly two slides |
| Sidebar.MatchHeading | flask/app.py:20-23 | `^(#{1,2})\s+(.*)` matches exactly when the line opens with `#` then whitespace, or `##` then whitespace; the level is the number of marks; the title holds no newline and does not start with whitespace |
| Sidebar.DeeperHeadingsIgnored | flask/app.py:20 | a line opening with `###` never matches |
| Sidebar.MatchHeadingComplete | flask/app.py:20-23 | marks, a whitespace run and a title that does not start with whitespace are recognised with that level and exactly that title |
| Sidebar.MatchHeadingSound | flask/app.py:20-23 | every matching break-free line decomposes into its marks, a non-empty whitespace run and its title |
| Sidebar.FirstMatch | flask/app.py:19-27 | the index of the first matching line, with no match before it; none exactly when no line matches |
| Sidebar.SlideHeading | flask/app.py:18-27 | a slide's entry is the first matching line of its stripped lines; a slide with no matching line contributes nothing |
| Sidebar.GenerateSidebar | flask/app.py:14-29 | every entry names a slide in range with level 1 or 2; indices strictly increase, so a slide has at most one entry; each entry is that slide's first heading |
| Sidebar.SidebarCoversSlide | flask/app.py:17-27 | every slide that has a heading has an entry |
| Sidebar.SlideCount | flask/app.py:15 | the number of slides is the number of non-overlapping `"\n---\n"` occurrences plus one |
| Sidebar.Indent | flask/app.py:24 | the indent is 0 for a level-1 heading and 4 for a level-2 heading |
| Sidebar.SlidesAfterDashFree | flask/app.py:15 | a dash-free first slide followed by the separator is split off and the rest is split on its own |
| Sidebar.SidebarExample | flask/app.py:14-29 | a two-slide deck with `#` and `##` headings gives the entries (0, 1, "A") and (1, 2, "B") |
| Deck.NextSeparator | flask/app.py:282 | a position it returns is at or after the start and holds a line that is exactly `---`, a line ending at `\n`, `\r`, U+2028 or U+2029 |
| Deck.NextSeparatorLeftmost | flask/app.py:282 | no `---` line lies between the start and the position returned; when none is returned there is no `---` line at or after the start |
| Deck.RuntimeSplit | flask/app.py:282 | the deck split from a position has at least one slide |
| Deck.RuntimeSplitJoin | flask/app.py:282 | joining the slides with `---` gives back the text: only the dashes of each separator line go, its line breaks stay with the slides |
| Deck.RuntimeSlides | flask/app.py:282 | the deck has at least one slide, and joining its slides with `---` gives back the markdown |
| Deck.RuntimeSlideCount | flask/app.py:282 | the deck has one slide more than it has `---` lines |
| Deck.SidebarSplitsAreDeckSplits | flask/app.py:15 | every `"\n---\n"` the sidebar splits on frames a `---` line of its own in the deck, so the sidebar counts no more separators than the deck |
| Deck.SidebarLinksExist | flask/app.py:15 | the sidebar never counts more slides than the deck splits the markdown into, so every sidebar link points at an existing slide of that split (the page's textarea handling is outside it) |
| Deck.LeadingRuleDrift | flask/app.py:15 | a `---` first line puts the heading on slide 1 of the deck while the sidebar links it to slide 0 |
| Deck.DoubleRuleDrift | flask/app.py:15 | two `---` lines in a row give the deck an extra empty slide that the sidebar does not count |
| Deck.CrlfDrift | flask/app.py:15 | with CRLF line endings the sidebar sees a single slide while the deck has two |
| SuspendData.Decimal | flask/app.py:154 | `Number.prototype.toString` of a non-negative integer gives a canonical numeral: digits only, no leading zero |
| SuspendData.ValueOfDecimal | flask/app.py:154 | the numeral printed for a number denotes that number |
| SuspendData.DecimalValueOf | flask/app.py:154 | printing the number a canonical numeral denotes gives the numeral back |
| SuspendData.ParseNat | flask/app.py:231 | a location string is read exactly when it is canonical, and then printing the result gives the string back |
| SuspendData.ParseNatDecimal | flask/app.py:154 | reading a printed location gives the slide index back |
| SuspendData.Encode | flask/app.py:158 | `JSON.stringify` of the visited list is bracketed, holds only digits and commas inside, and is `[]` exactly for the empty list |
| SuspendData.JoinedNumerals | flask/app.py:158 | canonical numerals joined with commas hold only digits and commas, and are empty exactly when there are none |
| SuspendData.Decode | flask/app.py:218 | a string that reads as a list is bracketed; it reads as the empty list exactly when it is `[]` |
| SuspendData.DecodeEncode | flask/app.py:158 | the visited list written by `JSON.stringify` reads back through `JSON.parse` as the same list |
| SuspendData.EncodeDecode | flask/app.py:218 | a string that reads back as a list is exactly the text `JSON.stringify` writes for that list |
| Navigation.Include | flask/app.py:137-146 | the insertion only appends; the result holds exactly the old elements and the new one; it grows exactly when the element was absent, and then the appended element is the new one; it keeps the list duplicate-free |
| Navigation.Visit | flask/app.py:135-146 | `updateProgress` only appends; afterwards the current index, and the previous one when the event has it, are members; no other index is added; what it appends holds no duplicate and nothing already in the list, even when the list already had duplicates; an absent previous index is appended first; a duplicate-free list stays duplicate-free |
| Navigation.VisitOrder | flask/app.py:137-146 | a change between two unvisited slides appends the previous slide and then the current one |
| Navigation.VisitAppendsOnce | flask/app.py:142-146 | a restored list with a duplicate keeps it, and the new slide is appended once |
| Navigation.Step | flask/app.py:133-146 | the new state extends the visited list, shows the event's slide and keeps the deck size |
| Navigation.LockStates | flask/app.py:177-197 | link `i` is unlocked exactly when `i` is 0 or `i-1` has been visited |
| Navigation.InitiallyOnlyFirst | flask/app.py:183 | with nothing visited only the link to slide 0 is unlocked |
| Navigation.UnlockedMonotone | flask/app.py:183 | an unlocked link stays unlocked as the visited list grows |
| Navigation.StepUnlocks | flask/app.py:133-146 | after a slide change the link to the next slide is unlocked and every unlocked link stays unlocked |
| Navigation.KeyPrevented | flask/app.py:257-266 | ArrowRight or PageDown is prevented exactly when the current slide is not visited; no other key is ever prevented |
| Navigation.ForwardKeyReachesUnlocked | flask/app.py:257-266 | a forward key that is let through moves to a slide whose sidebar link is unlocked |
| Navigation.StepKeepsSequential | flask/app.py:133-146 | moving only to unlocked slides keeps every visited slide's predecessor visited |
| Navigation.BoundedDistinct | flask/app.py:151 | a duplicate-free list of slide indices below the deck size is no longer than the deck |
| Completion.Progress | flask/app.py:151 | progress times the deck size is 100 times the number of visited entries; with zero slides it is `NaN` for an empty list and `Infinity` otherwise |
| Completion.ProgressOrder | flask/app.py:151 | for a fixed non-zero deck size, a shorter visited list never gives a higher progress |
| Completion.ProgressMonotone | flask/app.py:135-151 | progress never decreases across a slide change |
| Completion.ProgressBounded | flask/app.py:151 | for a duplicate-free list of slides of the deck, progress lies in [0, 100] |
| Completion.ProgressFull | flask/app.py:151 | progress is exactly 100 when the list is as long as the deck |
| Completion.ProgressUnclamped | flask/app.py:151 | a restored list naming more slides than the deck has gives 150, which is not clamped |
| Scorm.Walk | flask/app.py:73-81 | the walk finds an API exactly when a frame within 7 parent hops has one, and then returns the nearest |
| Scorm.FindApi | flask/app.py:73-81 | an API is found exactly when one of the window and its first seven parents has one, and the one found belongs to the nearest such frame |
| Scorm.FindApiNearest | flask/app.py:73-81 | when frame `j <= 7` is the first with an API, that API is returned |
| Scorm.FindApiBounded | flask/app.py:73-81 | with no API in the first eight frames, nothing is found |
| Scorm.Init | flask/app.py:82-95 | init succeeds exactly when an API is found and `LMSInitialize` returns "true"; success sets the flag; failure leaves it; `LMSInitialize` is called exactly when an API was found |
| Scorm.FinishSession | flask/app.py:96-105 | uninitialized: no call, success; initialized: one `LMSFinish`, success exactly when it returns "true" |
| Scorm.Set | flask/app.py:106-113 | one `LMSSetValue` call when initialized, none otherwise |
| Scorm.Get | flask/app.py:114-119 | uninitialized: "" and no call; initialized: the host's value after one `LMSGetValue` |
| Scorm.CommitSession | flask/app.py:120-127 | one `LMSCommit` call when initialized, none otherwise |
| Scorm.UninitializedIsSilent | flask/app.py:96-127 | an uninitialized wrapper makes no host call, reads "" and reports a successful finish |
| Tracker.UpdateProgress | flask/app.py:133-163 | initialized: five calls in order; they write the location, "incomplete", the encoded visited list and the score, then commit; uninitialized: no call |
| Tracker.LastWrite | flask/app.py:96-127 | the last value a trace writes to an element, present exactly when some call writes it |
| Tracker.LastWriteIs | flask/app.py:106-113 | a write to an element that no later call overwrites is the value the trace leaves there |
| Tracker.SuspendDataRoundTrip | flask/app.py:158 | the `cmi.suspend_data` a slide change writes decodes to the visited list after the change |
| Tracker.LocationRoundTrip | flask/app.py:154 | the `cmi.core.lesson_location` a slide change writes reads back as the slide shown |
| Tracker.CompleteCourse | flask/app.py:199-210 | initialized: status "completed", then commit, then finish; otherwise no call |
| Tracker.CompletionIsOverwritten | flask/app.py:155 | after `completeCourse` the status last written is "completed"; after one more slide change it is "incomplete" |
| Tracker.Restore | flask/app.py:216-219 | an empty stored value restores an empty list; anything else is parsed |
| Tracker.RestoreInverse | flask/app.py:216-219 | a restored list is empty when no resume data was stored, and otherwise is the list whose `JSON.stringify` text was stored |
| Tracker.OnLoad | flask/app.py:213-254 | the session is the one `init` gives; when init fails, nothing is restored and there is no jump; when it succeeds, the handler crashes exactly when the stored list is not empty and is not text `SuspendData.Decode` reads (narrower than `JSON.parse`; see Left out); a load that goes on starts at slide 0 with the reported deck size, restores the empty list for empty resume data and otherwise the list whose encoding was stored, and jumps exactly when init succeeded and the bookmark is a canonical numeral, to the index that numeral prints as; a failed init makes no host call beyond `init`'s own, and a crash comes after `init`'s calls and the one read of the suspend data |
| Tracker.FirstSession | flask/app.py:213-234 | with no resume data and no bookmark the page starts on an empty visited list at slide 0 and does not jump |
| Tracker.ResumeRestores | flask/app.py:216-232 | resuming from what a slide change stored restores that visited list and jumps to that slide |
| Tracker.OnLoadCalls | flask/app.py:213-234 | a successful load calls `LMSInitialize`, reads the suspend data and then the location, writes "incomplete", then commits (calls a jump may trigger are outside the trace; see Left out) |
| Packaging.BuildManifest | flask/app.py:331-366 | the manifest is referentially intact; it is `CourseID` version 1.0 with schema "ADL SCORM" 1.2; its one organization `ORG1` ("Your Course Title") is the default and holds one item `ITEM1` ("Lesson 1") that launches its one resource `RES1`, a `webcontent` SCO launched from and listing `index.html` |
| Packaging.SingleScoIntact | flask/app.py:331-366 | one organization with one item launching one resource is intact when the organization is the default, the item refers to the resource, the launch file is listed and the four identifiers differ |
| Packaging.Identifiers | flask/app.py:331-366 | the identifier list holds the manifest's, every organization's, every item's and every resource's identifier |
| Packaging.PathJoin | flask/app.py:317 | joining a file name onto a directory appends it as the last component |
| Packaging.CommonPrefixLength | flask/app.py:379 | the length of the longest common prefix of two paths |
| Packaging.RelPathOfChild | flask/app.py:378-379 | `os.path.relpath` of a file directly inside a directory, taken against that directory, is the file's name |
| Packaging.RelPath | flask/app.py:379 | `os.path.relpath` is never empty, and is `.` exactly when the path is the start directory |
| Packaging.JoinedPath | flask/app.py:379 | components and `..` joined with `/` give a non-empty path that is not `.` |
| Packaging.ArchiveNames | flask/app.py:316-380 | the archive entries are exactly `index.html` and `imsmanifest.xml`, whatever the temporary directory |
| Packaging.ManifestFilesPackaged | flask/app.py:361-380 | every file the manifest lists is in the archive |
| Packaging.StatusCode | flask/app.py:304-305 | the status is 400 exactly for the error response |
| Packaging.GenerateScorm | flask/app.py:301-380 | 400 with "No markdown content provided" exactly when there is no body or no `markdown` key; otherwise a package carrying the markdown, its sidebar, the manifest `BuildManifest` describes (intact) and exactly the two archive entries |

## Left out

- HTTP plumbing is left out: Flask routing, `request.get_json` parsing, `send_file`, `jsonify` and the catch-all 500 handler.
  - The request body is given as an optional map from keys to strings.
  - A body whose `markdown` value is not a string reaches the 500 handler in the code. It is not modelled.
- Jinja rendering of the page and the HTML text of the sidebar are left out. The sidebar is the sequence of its entries (index, level, title), one `<li>` per entry.
- ElementTree serialisation, `tempfile`, `os.makedirs`, file writes, `os.walk` and `zipfile` are library I/O.
  - Only the manifest's content and the archive entry names are modelled.
  - Paths are lists of components. The temporary directory is assumed normalized and absolute.
  - The manifest's namespace and schema-location attributes are fixed text. They are not modelled.
- DOM work is left out: `updateSidebar`'s check marks, the class and `onclick` changes of `lockSections`, `alert` and `console.log`. Only the lock decision is kept, as `Navigation.LockStates`.
- Reveal.js is a foreign library. `Reveal.initialize`, `Reveal.slide`, `Reveal.on`, `Reveal.getIndices` and its event objects are left out.
  - The slide indices an event carries are parameters (`SlideEvent`).
  - `previousIndexh` is optional, as the code tests for it.
  - The deck size `Reveal.getTotalSlides()` is a parameter.
  - `Tracker.OnLoad` reports the slide to jump to rather than performing the jump. Its trace therefore leaves out whatever the `slidechanged` handler does when the jump moves the deck (see `Tracker.OnLoadCalls` below).
- The live preview of the editor page is left out. It splits the markdown the same way the deck does (`flask/static/app.js:38`).
- Completion.Progress: the score is the exact ratio. The `toFixed(2)` rounding to a two-decimal string is not modelled, because it is floating-point formatting.
- SuspendData.Decode: `JSON.parse` is modelled only on the text `JSON.stringify` writes for a list of non-negative integers. Any other text is treated as a parse failure.
  - Other valid JSON lists are restored by the page and carry on: spaced ones (`[0, 1]`), other numerals (`[1.0]`, `[-1]`) and other elements (`["a"]`). The model reports a crash for them.
  - Valid JSON that is not a list (`5`, `{}`, `null`) is parsed by the page without error. The page then reads the location, writes `incomplete` and commits (flask/app.py:221-234), and throws only in `updateSidebar` (flask/app.py:235, 165), where `forEach` is missing. The model stops at the parse.
- Tracker.OnLoad: crashes exactly when `SuspendData.Decode` fails. For the inputs above it therefore reports a crash where the page carries on, or a crash without the calls the page makes before throwing. What it promises matches the page only when the stored text is empty or is what `JSON.stringify` writes for a list of non-negative integers.
- Deck.RuntimeSlides: the deck is modelled on the markdown as the request carried it. The page writes the markdown unescaped inside a `<textarea data-template>` (flask/app.py:32, 283-285), and the HTML parser changes it before Reveal.js reads it:
  - the text ends at the first `</textarea>` in the markdown;
  - character references such as `&amp;` are decoded;
  - CRLF and lone CR become LF;
  - the template puts a line break and the closing tag's indentation after the markdown.

  The Reveal.js 4.3.1 markdown plugin (loaded at flask/app.py:42) then rewrites the textarea text before its `^---$` split:
  - `__SCRIPT_END__` becomes `</script>`;
  - when the text opens, after at most one line break, with tabs, every run of that many tabs (with a line break before it, if any) becomes one line break;
  - otherwise, when it opens with two or more whitespace characters, every run of that many spaces becomes one line break in the same way. For example `"  # A\nx  ---\n# B"` becomes `"\n# A\nx\n---\n# B…"`, two slides where `Sidebar.Slides` and `Deck.RuntimeSlides` give one.
  This rewrite never removes a line break, and a `---` line holds no spaces or tabs, so it can only add separator lines. The inequality of `Deck.SidebarLinksExist` therefore still holds for the plugin's deck, as long as the textarea did not cut the text.
  The lemmas `Deck.SidebarLinksExist`, `Deck.LeadingRuleDrift`, `Deck.DoubleRuleDrift` and `Deck.CrlfDrift` speak of the split of the unchanged text. For `Deck.CrlfDrift` the browser's slides hold `\n` where the model's hold `\r\n`; the counts are the same.
- Tracker.OnLoadCalls: the five-call trace leaves out the calls the jump at flask/app.py:231 can cause. `Reveal.slide(Number(savedLocation))` runs after `Reveal.initialize` (flask/app.py:222) and before `incomplete` is written (flask/app.py:233). When it moves the deck to another slide, Reveal.js may fire `slidechanged` at once, and the handler at flask/app.py:270-272 then runs `updateProgress` with its five calls in between. Whether that happens during `onload` depends on how far Reveal.js has got with its asynchronous setup (the markdown plugin loads the slides), which is outside this model. The bookmark can be any truthy text `Number` reads as a non-zero index, including non-canonical text such as `01`.
- SuspendData.ParseNat: `Number(savedLocation)` is modelled only on canonical numerals. Any other stored location gives no jump.
- Scorm.Init: calls are recorded without their target. The code would throw on a call made while `initialized` is set but `api` is null. That state arises only when `init` runs a second time and finds no API, and the page calls `init` once, on a fresh wrapper. `Scorm.Ready` names the state that is reached.
- The replies of `LMSSetValue` and `LMSCommit` are only logged by the code, so they are not parameters.
- The values of JavaScript numbers are unbounded integers and exact reals. Slide counts never approach the limits of double precision.
